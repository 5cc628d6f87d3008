/**
 PNG row filters (sections 6.1 to 6.6 of RFC 2083): the textbook definition, the decoder of
 external/stb_image.h with its first-row shortcuts and rewritten Paeth predictor, and the plain
 decoder of tools/crisp_icons.py.
 */
module PngFilter {
  import opened Bits

  type Row = seq<Byte>

  // ---------- the definition ----------

  function Abs(x: int): nat {
    if x < 0 then -x else x
  }

  /** Whichever of left, above and upper left is nearest to `a + b - c`, in that order. */
  function Paeth(a: int, b: int, c: int): int {
    var p := a + b - c;
    if Abs(p - a) <= Abs(p - b) && Abs(p - a) <= Abs(p - c) then a
    else if Abs(p - b) <= Abs(p - c) then b
    else c
  }

  /** Filters above 4 are not defined; the plain decoder takes them for none. */
  function Predict(f: nat, a: Byte, b: Byte, c: Byte): (p: int)
    ensures 0 <= p < 256
  {
    if f == 1 then a
    else if f == 2 then b
    else if f == 3 then (a + b) / 2
    else if f == 4 then Paeth(a, b, c)
    else 0
  }

  /** The byte `bpp` before position `k`, or 0. */
  function Back(row: Row, k: nat, bpp: nat): Byte
    requires k <= |row| && bpp > 0
  {
    if k >= bpp then row[k - bpp] else 0
  }

  /** What an encoder does to a row. */
  function FilterRow(f: nat, row: Row, prior: Row, bpp: nat): (r: Row)
    requires |row| == |prior| && bpp > 0
    ensures |r| == |row|
  {
    seq(|row|, k requires 0 <= k < |row| => (row[k] - Predict(f, Back(row, k, bpp), prior[k],
        Back(prior, k, bpp))) % 256)
  }

  /** The first `n` bytes of a row, from its filtered form. */
  function Unfilter(f: nat, raw: Row, prior: Row, bpp: nat, n: nat): (r: Row)
    requires n <= |raw| == |prior| && bpp > 0
    ensures |r| == n
    decreases n
  {
    if n == 0 then []
    else
      var r := Unfilter(f, raw, prior, bpp, n - 1);
      r + [(raw[n - 1] + Predict(f, Back(r, n - 1, bpp), prior[n - 1], Back(prior, n - 1, bpp))) % 256]
  }

  function UnfilterRow(f: nat, raw: Row, prior: Row, bpp: nat): (r: Row)
    requires |raw| == |prior| && bpp > 0
    ensures |r| == |raw|
  {
    Unfilter(f, raw, prior, bpp, |raw|)
  }

  lemma SubAdd(x: Byte, p: int)
    requires 0 <= p < 256
    ensures ((x - p) % 256 + p) % 256 == x && ((x + p) % 256 - p) % 256 == x
  {
  }

  lemma {:induction false} UnfilterFilter(f: nat, row: Row, prior: Row, bpp: nat, n: nat)
    requires n <= |row| == |prior| && bpp > 0
    ensures Unfilter(f, FilterRow(f, row, prior, bpp), prior, bpp, n) == row[..n]
    decreases n
  {
    hide Predict;
    if n > 0 {
      UnfilterFilter(f, row, prior, bpp, n - 1);
      assert Back(row[..n - 1], n - 1, bpp) == Back(row, n - 1, bpp);
      SubAdd(row[n - 1], Predict(f, Back(row, n - 1, bpp), prior[n - 1], Back(prior, n - 1, bpp)));
      assert row[..n] == row[..n - 1] + [row[n - 1]];
    }
  }

  /** Unfiltering undoes every filter. */
  lemma RowRoundTrip(f: nat, row: Row, prior: Row, bpp: nat)
    requires |row| == |prior| && bpp > 0
    ensures UnfilterRow(f, FilterRow(f, row, prior, bpp), prior, bpp) == row
  {
    UnfilterFilter(f, row, prior, bpp, |row|);
  }

  lemma {:induction false} UnfilterPrefix(f: nat, raw: Row, prior: Row, bpp: nat, n: nat, k: nat)
    requires k <= n <= |raw| == |prior| && bpp > 0
    ensures Unfilter(f, raw, prior, bpp, n)[..k] == Unfilter(f, raw, prior, bpp, k)
    decreases n
  {
    if k < n {
      UnfilterPrefix(f, raw, prior, bpp, n - 1, k);
      assert Unfilter(f, raw, prior, bpp, n)[..n - 1] == Unfilter(f, raw, prior, bpp, n - 1);
      assert Unfilter(f, raw, prior, bpp, n)[..k] == Unfilter(f, raw, prior, bpp, n)[..n - 1][..k];
    }
  }

  /** And every filtered form comes from just one row. */
  lemma RowOnto(f: nat, raw: Row, prior: Row, bpp: nat)
    requires |raw| == |prior| && bpp > 0
    ensures FilterRow(f, UnfilterRow(f, raw, prior, bpp), prior, bpp) == raw
  {
    hide Predict;
    var row := UnfilterRow(f, raw, prior, bpp);
    forall k | 0 <= k < |raw|
      ensures FilterRow(f, row, prior, bpp)[k] == raw[k]
    {
      UnfilterPrefix(f, raw, prior, bpp, |raw|, k + 1);
      UnfilterPrefix(f, raw, prior, bpp, |raw|, k);
      var r := Unfilter(f, raw, prior, bpp, k);
      assert row[k] == row[..k + 1][k];
      assert Back(row, k, bpp) == Back(r, k, bpp);
      SubAdd(raw[k], Predict(f, Back(r, k, bpp), prior[k], Back(prior, k, bpp)));
    }
  }

  // ---------- whole images ----------

  /** The rows of an image, each with its filter, as one string of bytes. */
  function Encode(filters: seq<Byte>, rows: seq<Row>, prior: Row, bpp: nat): seq<Byte>
    requires |filters| == |rows| && bpp > 0 && forall i :: 0 <= i < |rows| ==> |rows[i]| == |prior|
    decreases |rows|
  {
    if rows == [] then []
    else [filters[0]] + FilterRow(filters[0], rows[0], prior, bpp) + Encode(filters[1..], rows[1..], rows[0], bpp)
  }

  /** The first `n` rows of an image. */
  function Decode(raw: seq<Byte>, prior: Row, bpp: nat, n: nat): (rows: seq<Row>)
    requires bpp > 0 && |raw| >= Mul(n, |prior| + 1)
    ensures |rows| == n && forall i :: 0 <= i < n ==> |rows[i]| == |prior|
    decreases n
  {
    if n == 0 then []
    else
      MulNext(n - 1, |prior| + 1);
      var row := UnfilterRow(raw[0], raw[1..|prior| + 1], prior, bpp);
      [row] + Decode(raw[|prior| + 1..], row, bpp, n - 1)
  }

  /** The filters of the first `n` rows. */
  function Filters(raw: seq<Byte>, w: nat, n: nat): (f: seq<Byte>)
    requires |raw| >= Mul(n, w + 1)
    ensures |f| == n
    decreases n
  {
    if n == 0 then []
    else
      MulNext(n - 1, w + 1);
      [raw[0]] + Filters(raw[w + 1..], w, n - 1)
  }

  lemma {:induction false} EncodedLength(filters: seq<Byte>, rows: seq<Row>, prior: Row, bpp: nat)
    requires |filters| == |rows| && bpp > 0 && forall i :: 0 <= i < |rows| ==> |rows[i]| == |prior|
    ensures |Encode(filters, rows, prior, bpp)| == Mul(|rows|, |prior| + 1)
    decreases |rows|
  {
    if rows != [] {
      EncodedLength(filters[1..], rows[1..], rows[0], bpp);
      MulNext(|rows| - 1, |prior| + 1);
    }
  }

  /** Decoding gives back the rows, whichever filters were chosen for them, and whatever comes after. */
  lemma {:induction false} ImageRoundTrip(filters: seq<Byte>, rows: seq<Row>, prior: Row, bpp: nat, more: seq<Byte>)
    requires |filters| == |rows| && bpp > 0 && forall i :: 0 <= i < |rows| ==> |rows[i]| == |prior|
    ensures |Encode(filters, rows, prior, bpp) + more| >= Mul(|rows|, |prior| + 1)
    ensures Decode(Encode(filters, rows, prior, bpp) + more, prior, bpp, |rows|) == rows
    decreases |rows|
  {
    EncodedLength(filters, rows, prior, bpp);
    if rows != [] {
      var w, raw := |prior|, Encode(filters, rows, prior, bpp) + more;
      var rest := Encode(filters[1..], rows[1..], rows[0], bpp) + more;
      var first := FilterRow(filters[0], rows[0], prior, bpp);
      assert raw == [filters[0]] + first + rest;
      assert raw[1..w + 1] == first && raw[w + 1..] == rest;
      MulNext(|rows| - 1, w + 1);
      RowRoundTrip(filters[0], rows[0], prior, bpp);
      ImageRoundTrip(filters[1..], rows[1..], rows[0], bpp, more);
    }
  }

  // ---------- the shortcuts ----------

  /** `stbi__paeth` */
  function FastPaeth(a: int, b: int, c: int): int {
    var thresh := c * 3 - (a + b);
    var lo := if a < b then a else b;
    var hi := if a < b then b else a;
    var t0 := if hi <= thresh then lo else c;
    if thresh <= lo then hi else t0
  }

  lemma FastPaethIs(a: int, b: int, c: int)
    ensures FastPaeth(a, b, c) == Paeth(a, b, c)
  {
  }

  function Zeros(n: nat): (r: Row)
    ensures |r| == n && forall i :: 0 <= i < n ==> r[i] == 0
  {
    seq(n, _ => 0)
  }

  /** `STBI__F_avg_first` */
  const AVG_FIRST := 5

  /** `first_row_filter` */
  function FirstRowFilter(f: nat): nat {
    if f == 1 then 1
    else if f == 3 then AVG_FIRST
    else if f == 4 then 1
    else 0
  }

  /** What the decoder adds, given the filter it has chosen. */
  function FastPredict(f: nat, a: Byte, b: Byte, c: Byte): int {
    if f == 1 then a
    else if f == 2 then b
    else if f == 3 then (b + a) / 2
    else if f == 4 then FastPaeth(a, b, c)
    else if f == AVG_FIRST then a / 2
    else 0
  }

  /** The decoder's choice is right: on the first row it never needs the row above. */
  lemma FastPredictIs(f: nat, first: bool, a: Byte, b: Byte, c: Byte, x: Byte, y: Byte)
    requires f <= 4 && (first ==> x == 0 && y == 0) && (!first ==> x == b && y == c)
    ensures FastPredict(if first then FirstRowFilter(f) else f, a, b, c) == Predict(f, a, x, y)
  {
    FastPaethIs(a, b, c);
  }
}
