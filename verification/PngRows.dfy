/**
 The two row decoders at work: external/stb_image.h with two alternating scan lines in one buffer,
 and tools/crisp_icons.py, which changes each row in place.
 */
module PngRows {
  import opened Bits
  import opened PngFilter
  import opened Wrappers

  /** `filter_buf`: the current and the prior scan line, which change places from row to row. */
  class ScanLines {
    const w: nat        // img_width_bytes
    const bpp: nat      // filter_bytes
    const buf: array<Byte>

    ghost predicate Valid() {
      buf.Length == 2 * w && 0 < bpp <= w
    }

    constructor (w: nat, bpp: nat)
      requires 0 < bpp <= w
      ensures Valid() && this.w == w && this.bpp == bpp && fresh(buf)
    {
      this.w, this.bpp := w, bpp;
      buf := new Byte[2 * w](_ => 0);
    }

    function Offset(j: nat): nat {
      if j % 2 == 1 then w else 0
    }

    ghost function Line(j: nat): (r: Row)
      requires Valid()
      reads buf
      ensures |r| == w
    {
      buf[Offset(j)..Offset(j) + w]
    }

    method Current(j: nat) returns (r: Row)
      requires Valid()
      ensures r == Line(j)
    {
      r := buf[Offset(j)..Offset(j) + w];
    }

    /** Up to `k` the current line is decoded. */
    ghost predicate Decoded(j: nat, k: nat, f: nat, raw: Row, above: Row)
      requires Valid() && k <= w == |raw| == |above|
      reads buf
    {
      buf[Offset(j)..Offset(j) + k] == Unfilter(f, raw, above, bpp, k)
    }

    /** The row above is in the prior line, or is all zeros. */
    ghost predicate Above(j: nat, above: Row)
      requires Valid() && |above| == w
      reads buf
    {
      if j == 0 then above == Zeros(w) else Line(j + 1) == above
    }

    /** `cur[k] = STBI__BYTECAST(raw[k] + p)` */
    method Put(j: nat, k: nat, c: Byte, p: int, ghost f: nat, ghost raw: Row, ghost above: Row)
      requires Valid() && k < w == |raw| == |above| && Decoded(j, k, f, raw, above) && Above(j, above) && c == raw[k]
      requires p == Predict(f, Back(buf[Offset(j)..Offset(j) + k], k, bpp), above[k], Back(above, k, bpp))
      modifies buf
      ensures Decoded(j, k + 1, f, raw, above) && Above(j, above)
    {
      hide Predict;
      ghost var done, prior := buf[Offset(j)..Offset(j) + k], Line(j + 1);
      buf[Offset(j) + k] := (c + p) % 256;
      assert buf[Offset(j)..Offset(j) + k + 1] == done + [buf[Offset(j) + k]];
      assert Line(j + 1) == prior;
    }

    /** What there is to add at `k`, in terms of the buffer. */
    lemma ToAdd(j: nat, k: nat, f: nat, raw: Row, above: Row)
      requires Valid() && k < w == |raw| == |above| && Decoded(j, k, f, raw, above) && Above(j, above) && f <= 4
      ensures var a := if k >= bpp then buf[Offset(j) + k - bpp] else 0;
              var b := buf[Offset(j + 1) + k];
              var c := if k >= bpp then buf[Offset(j + 1) + k - bpp] else 0;
              FastPredict(if j == 0 then FirstRowFilter(f) else f, a, b, c)
                == Predict(f, Back(buf[Offset(j)..Offset(j) + k], k, bpp), above[k], Back(above, k, bpp))
    {
      hide Predict, FastPredict, FirstRowFilter;
      var a := if k >= bpp then buf[Offset(j) + k - bpp] else 0;
      var b := buf[Offset(j + 1) + k];
      var c := if k >= bpp then buf[Offset(j + 1) + k - bpp] else 0;
      if j > 0 {
        assert above[k] == Line(j + 1)[k] && (k >= bpp ==> above[k - bpp] == Line(j + 1)[k - bpp]);
      }
      FastPredictIs(f, j == 0, a, b, c, above[k], Back(above, k, bpp));
    }

    /** `memcpy(cur, raw, n)` where nothing is to be added. */
    method Copy(j: nat, n: nat, raw: Row, ghost f: nat, ghost above: Row)
      requires Valid() && n <= w == |raw| == |above| && Above(j, above) && f <= 4
      requires var g := if j == 0 then FirstRowFilter(f) else f; g == 0 || (n <= bpp && g in {1, AVG_FIRST})
      modifies buf
      ensures Decoded(j, n, f, raw, above) && Above(j, above)
    {
      hide Decoded, Above, Predict;
      Nothing(j, f, raw, above);
      for k := 0 to n
        invariant Decoded(j, k, f, raw, above) && Above(j, above)
      {
        ToAdd(j, k, f, raw, above);
        Put(j, k, raw[k], 0, f, raw, above);
      }
    }

    lemma Nothing(j: nat, f: nat, raw: Row, above: Row)
      requires Valid() && w == |raw| == |above|
      ensures Decoded(j, 0, f, raw, above)
    {
    }

    /** One row: the filter switch. */
    method DecodeRow(j: nat, f: nat, raw: Row, ghost above: Row)
      requires Valid() && w == |raw| == |above| && Above(j, above) && f <= 4
      modifies buf
      ensures Line(j) == UnfilterRow(f, raw, above, bpp)
    {
      hide Decoded, Above, Predict, FastPaeth;
      var cur, prior := Offset(j), Offset(j + 1);
      var filter := if j == 0 then FirstRowFilter(f) else f;
      Nothing(j, f, raw, above);
      if filter == 0 {
        Copy(j, w, raw, f, above);
      } else if filter == 1 {
        Copy(j, bpp, raw, f, above);
        for k := bpp to w
          invariant Decoded(j, k, f, raw, above) && Above(j, above)
        {
          ToAdd(j, k, f, raw, above);
          Put(j, k, raw[k], buf[cur + k - bpp], f, raw, above);
        }
      } else if filter == 2 {
        for k := 0 to w
          invariant Decoded(j, k, f, raw, above) && Above(j, above)
        {
          ToAdd(j, k, f, raw, above);
          Put(j, k, raw[k], buf[prior + k], f, raw, above);
        }
      } else if filter == 3 {
        Average(j, raw, above);
      } else if filter == 4 {
        PaethRow(j, raw, above);
      } else {
        Copy(j, bpp, raw, f, above);
        for k := bpp to w
          invariant Decoded(j, k, f, raw, above) && Above(j, above)
        {
          ToAdd(j, k, f, raw, above);
          Put(j, k, raw[k], buf[cur + k - bpp] / 2, f, raw, above);
        }
      }
      Whole(j, f, raw, above);
    }

    lemma Whole(j: nat, f: nat, raw: Row, above: Row)
      requires Valid() && w == |raw| == |above| && Decoded(j, w, f, raw, above)
      ensures Line(j) == UnfilterRow(f, raw, above, bpp)
    {
    }

    method Average(j: nat, raw: Row, ghost above: Row)
      requires Valid() && w == |raw| == |above| && Above(j, above) && j > 0
      modifies buf
      ensures Decoded(j, w, 3, raw, above) && Above(j, above)
    {
      hide Decoded, Above, Predict;
      var cur, prior := Offset(j), Offset(j + 1);
      Nothing(j, 3, raw, above);
      for k := 0 to bpp
        invariant Decoded(j, k, 3, raw, above) && Above(j, above)
      {
        ToAdd(j, k, 3, raw, above);
        Put(j, k, raw[k], buf[prior + k] / 2, 3, raw, above);
      }
      for k := bpp to w
        invariant Decoded(j, k, 3, raw, above) && Above(j, above)
      {
        ToAdd(j, k, 3, raw, above);
        Put(j, k, raw[k], (buf[prior + k] as int + buf[cur + k - bpp]) / 2, 3, raw, above);
      }
    }

    method PaethRow(j: nat, raw: Row, ghost above: Row)
      requires Valid() && w == |raw| == |above| && Above(j, above) && j > 0
      modifies buf
      ensures Decoded(j, w, 4, raw, above) && Above(j, above)
    {
      hide Decoded, Above, Predict, FastPaeth;
      var cur, prior := Offset(j), Offset(j + 1);
      Nothing(j, 4, raw, above);
      for k := 0 to bpp
        invariant Decoded(j, k, 4, raw, above) && Above(j, above)
      {
        ToAdd(j, k, 4, raw, above);
        PaethLeft(buf[prior + k]);
        Put(j, k, raw[k], buf[prior + k], 4, raw, above);
      }
      for k := bpp to w
        invariant Decoded(j, k, 4, raw, above) && Above(j, above)
      {
        ToAdd(j, k, 4, raw, above);
        Put(j, k, raw[k], FastPaeth(buf[cur + k - bpp], buf[prior + k], buf[prior + k - bpp]), 4, raw, above);
      }
    }
  }

  lemma PaethLeft(b: Byte)
    ensures FastPaeth(0, b, 0) == b
  {
  }

  // ---------- tools/crisp_icons.py ----------

  /** The inner loop of `rd`, with four bytes to a pixel. */
  method PlainRow(f: nat, cur: array<Byte>, prev: array<Byte>)
    requires cur.Length == prev.Length && cur != prev
    modifies cur
    ensures cur[..] == UnfilterRow(f, old(cur[..]), prev[..], 4)
  {
    hide Predict;
    ghost var raw, above := cur[..], prev[..];
    for x := 0 to cur.Length
      invariant cur[..x] == Unfilter(f, raw, above, 4, x) && cur[x..] == raw[x..]
    {
      var a, b, cc := if x >= 4 then cur[x - 4] else 0, prev[x], if x >= 4 then prev[x - 4] else 0;
      assert cur[x] == cur[x..][0] == raw[x];
      assert a == Back(cur[..x], x, 4) && cc == Back(above, x, 4);
      var p := PlainPredict(f, a, b, cc);
      ghost var done, rest := cur[..x], cur[x + 1..];
      cur[x] := (cur[x] + p) % 256;
      assert cur[..x + 1] == done + [cur[x]];
      assert cur[x + 1..] == rest == raw[x + 1..];
    }
    assert cur[..cur.Length] == cur[..];
  }

  method PlainPredict(f: nat, a: Byte, b: Byte, cc: Byte) returns (p: int)
    ensures p == Predict(f, a, b, cc)
  {
    p := 0;
    if f == 1 {
      p := a;
    } else if f == 2 {
      p := b;
    } else if f == 3 {
      p := (a + b) / 2;
    } else if f == 4 {
      var pa, pb, pc := Abs(b - cc), Abs(a - cc), Abs(a + b - 2 * cc);
      p := if pa <= pb && pa <= pc then a else if pb <= pc then b else cc;
    }
  }

  lemma {:induction false} RowStart(raw: seq<Byte>, prior: Row, bpp: nat, n: nat, j: nat)
    requires bpp > 0 && |raw| >= Mul(n, |prior| + 1) && j < n
    ensures Mul(j + 1, |prior| + 1) == Mul(j, |prior| + 1) + |prior| + 1 <= |raw|
    ensures var w := |prior|; var at := Mul(j, w + 1); var rows := Decode(raw, prior, bpp, n);
            rows[j] == UnfilterRow(raw[at], raw[at + 1..at + 1 + w], if j == 0 then prior else rows[j - 1], bpp)
            && Filters(raw, w, n)[j] == raw[at]
    decreases n
  {
    hide UnfilterRow, Mul, Decode, Filters;
    var w := |prior|;
    MulNext(j, w + 1);
    MulNext(0, w + 1);
    MulRoom(j, n, w + 1);
    FirstRow(raw, prior, bpp, n);
    if j > 0 {
      var row := UnfilterRow(raw[0], raw[1..w + 1], prior, bpp);
      var rest := raw[w + 1..];
      RowStart(rest, row, bpp, n - 1, j - 1);
      var at := Mul(j - 1, w + 1);
      MulNext(j - 1, w + 1);
      RowBehind(raw, w + 1, at, w);
    }
  }

  lemma FirstRow(raw: seq<Byte>, prior: Row, bpp: nat, n: nat)
    requires bpp > 0 && n > 0 && |raw| >= Mul(n, |prior| + 1)
    ensures var w := |prior|; |raw| >= w + 1 && |raw[w + 1..]| >= Mul(n - 1, w + 1)
    ensures var w := |prior|; var row, rest := UnfilterRow(raw[0], raw[1..w + 1], prior, bpp), raw[w + 1..];
            && Decode(raw, prior, bpp, n) == [row] + Decode(rest, row, bpp, n - 1)
            && Filters(raw, w, n) == [raw[0]] + Filters(rest, w, n - 1)
  {
    hide UnfilterRow, Mul;
    MulNext(n - 1, |prior| + 1);
  }

  lemma RowBehind(raw: seq<Byte>, k: nat, at: nat, w: nat)
    requires k + at + 1 + w <= |raw|
    ensures raw[k..][at] == raw[at + k] && raw[k..][at + 1..at + 1 + w] == raw[at + k + 1..at + k + 1 + w]
  {
  }

  /** `rd`, from the decompressed data on. */
  method PlainImage(raw: seq<Byte>, w: nat, h: nat) returns (rows: seq<Row>)
    requires |raw| >= Mul(h, 4 * w + 1)
    ensures rows == Decode(raw, Zeros(4 * w), 4, h)
  {
    hide UnfilterRow, Decode, Filters, Zeros, Mul;
    var s, p: nat := 4 * w, 0;
    var prev := new Byte[s](_ => 0);
    ghost var all := Decode(raw, Zeros(s), 4, h);
    rows := [];
    MulNext(0, s + 1);
    NoBytes(prev[..], s);
    for y := 0 to h
      invariant p == Mul(y, s + 1) && prev.Length == s && prev[..] == if y == 0 then Zeros(s) else all[y - 1]
      invariant rows == all[..y]
    {
      RowStart(raw, Zeros(s), 4, h, y);
      var f := raw[p];
      var cur := new Byte[s](i requires 0 <= i < s => raw[p + 1 + i]);
      assert cur[..] == raw[p + 1..p + 1 + s];
      PlainRow(f, cur, prev);
      p := p + s + 1;
      rows := rows + [cur[..]];
      prev := cur;
    }
  }

  lemma NoBytes(b: Row, n: nat)
    requires |b| == n && forall i :: 0 <= i < n ==> b[i] == 0
    ensures b == Zeros(n)
  {
  }
}
