/**
 From decompressed PNG data to samples (external/stb_image.h, `stbi__create_png_image_raw`):
 unfiltering, unpacking of small samples, and an added alpha channel.
 */
module PngImage {
  import opened Bits
  import opened PngFilter
  import opened PngRows
  import opened Wrappers

  type Samples = seq<nat>

  const INT_MAX := 0x7FFFFFFF

  // ---------- what a row means ----------

  /** Most significant byte first. */
  function Word16(hi: Byte, lo: Byte): nat {
    256 * (hi as nat) + lo as nat
  }

  /** Samples of less than a byte come from the top of their byte down. */
  function Sample(row: Row, depth: nat, i: nat): nat {
    if depth == 16 then if 2 * i + 1 < |row| then Word16(row[2 * i], row[2 * i + 1]) else 0
    else if depth == 8 then if i < |row| then row[i] else 0
    else if depth == 4 then SmallSample(row, 4, 2, i)
    else if depth == 2 then SmallSample(row, 2, 4, i)
    else SmallSample(row, 1, 8, i)
  }

  function SmallSample(row: Row, depth: nat, perByte: nat, i: nat): nat
    requires perByte > 0 && depth * perByte == 8
  {
    LastSample(depth, perByte, i % perByte);
    if i / perByte < |row| then row[i / perByte] / Pow2(8 - depth - depth * (i % perByte)) % Pow2(depth) else 0
  }

  lemma LastSample(depth: nat, perByte: nat, k: nat)
    requires k < perByte && depth * perByte == 8
    ensures depth * k + depth <= 8
  {
    MulMonotone(depth, k + 1, perByte);
  }

  /** `stbi__depth_scale_table` for grayscale of less than eight bits. */
  function Scale(depth: nat, color: nat): nat {
    if color != 0 || depth >= 8 then 1
    else if depth == 1 then 255
    else if depth == 2 then 85
    else 17
  }

  function RowSamples(row: Row, n: nat, depth: nat, scale: nat): (r: Samples)
    ensures |r| == n
  {
    seq(n, i requires 0 <= i < n => scale * Sample(row, depth, i))
  }

  /** The pixels of `s`, each with `max` behind it if there is an extra channel. */
  function Widen(s: Samples, imgN: nat, extra: bool, max: nat, n: nat): (r: Samples)
    requires |s| >= Mul(n, imgN)
    ensures |r| == Mul(n, if extra then imgN + 1 else imgN)
    decreases n
  {
    if n == 0 then []
    else
      MulNext(n - 1, imgN);
      MulNext(n - 1, if extra then imgN + 1 else imgN);
      Widen(s, imgN, extra, max, n - 1) + s[Mul(n - 1, imgN)..Mul(n - 1, imgN) + imgN] + if extra then [max] else []
  }

  /** The format of an image: channels in the file, whether one is added, bits per sample, colour type. */
  datatype Format = Format(imgN: nat, extra: bool, depth: nat, color: nat) {
    predicate Valid() {
      && 1 <= imgN <= 4 && (extra ==> imgN == 1 || imgN == 3) && (depth in {8, 16} || (depth in {1, 2, 4} && imgN == 1))
    }

    function OutN(): nat {
      if extra then imgN + 1 else imgN
    }

    function RowBytes(x: nat): nat {
      (imgN * x * depth + 7) / 8
    }

    function FilterBytes(): nat {
      if depth == 16 then 2 * imgN else if depth == 8 then imgN else 1
    }

    function Max(): nat {
      if depth == 16 then 65535 else 255
    }
  }

  function OutRow(f: Format, row: Row, x: nat): (r: Samples)
    ensures |r| == Mul(x, f.OutN())
  {
    assert Mul(x, f.imgN) == f.imgN * x;
    Widen(RowSamples(row, Mul(x, f.imgN), f.depth, Scale(f.depth, f.color)), f.imgN, f.extra, f.Max(), x)
  }

  /** The rows one after the other. */
  function Joined(f: Format, rows: seq<Row>, x: nat): Samples {
    if rows == [] then [] else Joined(f, rows[..|rows| - 1], x) + OutRow(f, rows[|rows| - 1], x)
  }

  /** The three tests on sizes. */
  predicate SizesOk(f: Format, x: nat, y: nat) {
    && x * y * (f.OutN() * (if f.depth == 16 then 2 else 1)) <= INT_MAX
    && f.imgN * x * f.depth + 7 <= INT_MAX
    && f.RowBytes(x) * y + f.RowBytes(x) <= INT_MAX
  }

  predicate GoodFilters(filters: seq<Byte>) {
    forall j :: 0 <= j < |filters| ==> filters[j] <= 4
  }

  /** What the data mean, if they mean anything. */
  function RawImage(f: Format, raw: seq<Byte>, x: nat, y: nat): Option<Samples>
    requires f.Valid()
  {
    var w := f.RowBytes(x);
    if SizesOk(f, x, y) && |raw| >= Mul(y, w + 1) && GoodFilters(Filters(raw, w, y))
    then Some(Joined(f, Decode(raw, Zeros(w), f.FilterBytes(), y), x))
    else None
  }

  // ---------- unpacking ----------

  lemma Spread(q: nat, r: nat, t: nat, hi: nat, digit: nat, c: nat)
    requires q * r * t == 256
    ensures (r * (t * hi + digit) + c) * q == 256 * hi + (q * r * digit + c * q)
  {
    assert r * (t * hi + digit) == r * (t * hi) + r * digit;
    MulAssoc(q, r, t);
    MulAssoc(r, t, hi);
    MulAssoc(q, r * t, hi);
    MulAssoc(q, r, digit);
  }

  lemma DigitBound(q: nat, r: nat, t: nat, digit: nat, c: nat)
    requires q > 0 && c < r && digit < t
    ensures c * q < q * r && q * r * digit + c * q < q * r * t
  {
    MulMonotone(q, c + 1, r);
    MulMonotone(q * r, digit + 1, t);
  }

  lemma TopOf(b: nat, q: nat, m: nat, hi: nat, digit: nat, c: nat)
    requires m > 0 && b * q == 256 * hi + (m * digit + c * q) && c * q < m && m * digit + c * q < 256
    ensures (b * q % 256) / m == digit
  {
    DivModIs(256, b * q, hi, m * digit + c * q);
    DivModIs(m, m * digit + c * q, digit, c * q);
  }

  /** The top `t`-digit of a byte that has been shifted up by a factor of `q`, where `q * r * t == 256`. */
  lemma TopDigit(b: Byte, q: nat, r: nat, t: nat)
    requires q > 0 && r > 0 && t > 0 && q * r * t == 256
    ensures (b * q % 256) / (q * r) == b / r % t
  {
    var d, c := b / r, b % r;
    var hi, digit := d / t, d % t;
    Digits(b, r, d, c);
    Digits(d, t, hi, digit);
    Spread(q, r, t, hi, digit, c);
    DigitBound(q, r, t, digit, c);
    TopOf(b, q, q * r, hi, digit, c);
  }

  lemma Digits(b: nat, r: nat, d: nat, c: nat)
    requires r > 0 && d == b / r && c == b % r
    ensures b == r * d + c && c < r
  {
  }

  lemma ShiftAgain(b: Byte, q: nat, t: nat)
    ensures (b * q % 256) * t % 256 == b * (q * t) % 256
  {
    var hi, y := b * q / 256, b * q % 256;
    var k, z := y * t / 256, y * t % 256;
    assert b * q == 256 * hi + y && y * t == 256 * k + z;
    MulAssoc(b, q, t);
    assert (256 * hi + y) * t == 256 * (hi * t + k) + z by {
      MulAssoc(256, hi, t);
    }
    DivModIs(256, b * (q * t), hi * t + k, z);
  }

  /** The three loops that unpack samples of less than a byte. */
  method Unpack(row: Row, depth: nat, perByte: nat, scale: nat, n: nat, out: array<nat>, base: nat)
    requires depth in {1, 2, 4} && depth * perByte == 8 && n <= Mul(|row|, perByte) && base + n <= out.Length
    modifies out
    ensures out[base..base + n] == RowSamples(row, n, depth, scale) && out[..base] == old(out[..base])
  {
    hide Sample, Pow2, Mul;
    MulNext(0, perByte);
    var i, at, k, inb: Byte := 0, 0, perByte, 0;
    ghost var all, before := RowSamples(row, n, depth, scale), out[..base];
    while i < n
      invariant 0 <= i <= n && 0 <= at && 1 <= k <= perByte && i + perByte == Mul(at, perByte) + k
      invariant k < perByte ==> 0 < at <= |row| && inb == row[at - 1] * Pow2(depth * k) % 256
      invariant out[base..base + i] == all[..i] && out[..base] == before
    {
      if k == perByte {
        MoreBytes(i, at, perByte, |row|, n);
        inb := row[at];
        MulNext(at, perByte);
        at, k := at + 1, 0;
        FirstShift(inb, depth);
      }
      MulNext(at - 1, perByte);
      OneSample(row, depth, perByte, i, at - 1, k, inb);
      out[base + i] := scale * (inb / Pow2(8 - depth));
      assert out[base..base + i + 1] == out[base..base + i] + [out[base + i]];
      assert all[..i + 1] == all[..i] + [all[i]];
      inb := inb * Pow2(depth) % 256;
      i, k := i + 1, k + 1;
    }
  }

  lemma FirstShift(b: Byte, depth: nat)
    ensures b == b * Pow2(depth * 0) % 256
  {
  }

  lemma MoreBytes(i: nat, at: nat, perByte: nat, len: nat, n: nat)
    requires i < n <= Mul(len, perByte) && i == Mul(at, perByte) && perByte > 0
    ensures at < len
  {
    if at >= len {
      MulMonotone(perByte, len, at);
    }
  }

  lemma OneSample(row: Row, depth: nat, perByte: nat, i: nat, at: nat, k: nat, inb: Byte)
    requires depth in {1, 2, 4} && depth * perByte == 8 && k < perByte && i == Mul(at, perByte) + k && at < |row|
    requires inb == row[at] * Pow2(depth * k) % 256
    ensures inb / Pow2(8 - depth) == Sample(row, depth, i)
    ensures inb * Pow2(depth) % 256 == row[at] * Pow2(depth * (k + 1)) % 256
  {
    hide Pow2;
    DivModIs(perByte, i, at, k);
    LastSample(depth, perByte, k);
    var q, r, t := Pow2(depth * k), Pow2(8 - depth - depth * k), Pow2(depth);
    Pow2Add(depth * k, 8 - depth - depth * k);
    Pow2Add(8 - depth, depth);
    Pow2Add(depth * k, depth);
    Pow2Values();
    TopDigit(row[at], q, r, t);
    ShiftAgain(row[at], q, t);
  }

  function PixelWidth(imgN: nat, extra: bool): nat {
    if extra then imgN + 1 else imgN
  }

  /** A pixel as it comes out of `Widen`. */
  lemma {:induction false} WidenAt(s: Samples, imgN: nat, extra: bool, max: nat, n: nat, i: nat)
    requires i < n && |s| >= Mul(n, imgN)
    ensures var outN := PixelWidth(imgN, extra);
            0 <= Mul(i, imgN) && Mul(i, imgN) + imgN <= |s| && Mul(i + 1, outN) == Mul(i, outN) + outN <= Mul(n, outN)
            && Widen(s, imgN, extra, max, n)[Mul(i, outN)..Mul(i, outN) + outN] ==
               s[Mul(i, imgN)..Mul(i, imgN) + imgN] + if extra then [max] else []
    decreases n
  {
    hide Mul;
    var outN := PixelWidth(imgN, extra);
    var w, m := Widen(s, imgN, extra, max, n), n - 1;
    MulNext(m, imgN);
    MulNext(m, outN);
    MulRoom(i, n, imgN);
    MulRoom(i, n, outN);
    MulNext(i, outN);
    var w', last := Widen(s, imgN, extra, max, m), s[Mul(m, imgN)..Mul(m, imgN) + imgN] + if extra then [max] else [];
    assert w == w' + last;
    if i < m {
      WidenAt(s, imgN, extra, max, m, i);
      SliceLeft(w', last, Mul(i, outN), Mul(i, outN) + outN);
    } else {
      SliceRight(w', last);
    }
  }

  lemma SliceLeft(a: Samples, b: Samples, i: nat, j: nat)
    requires i <= j <= |a|
    ensures (a + b)[i..j] == a[i..j]
  {
  }

  lemma SliceRight(a: Samples, b: Samples)
    ensures (a + b)[|a|..|a| + |b|] == b
  {
  }

  lemma {:induction false} WidenSame(s: Samples, imgN: nat, max: nat, n: nat)
    requires |s| >= Mul(n, imgN)
    ensures Widen(s, imgN, false, max, n) == s[..Mul(n, imgN)]
    decreases n
  {
    if n > 0 {
      MulNext(n - 1, imgN);
      WidenSame(s, imgN, max, n - 1);
      assert s[..Mul(n, imgN)] == s[..Mul(n - 1, imgN)] + s[Mul(n - 1, imgN)..Mul(n - 1, imgN) + imgN];
    }
  }

  /** `stbi__create_png_alpha_expand8` where the source is the destination; from the end, so that nothing is lost. */
  method ExpandInPlace(out: array<nat>, base: nat, x: nat, ghost s: Samples)
    requires base + 2 * x <= out.Length && |s| == x && out[base..base + x] == s
    modifies out
    ensures out[base..base + 2 * x] == Widen(s, 1, true, 255, x) && out[..base] == old(out[..base])
  {
    hide Widen, Mul;
    OneTwo(x);
    ghost var all, before := Widen(s, 1, true, 255, x), out[..base];
    var i := x;
    while i > 0
      invariant 0 <= i <= x && out[base..base + i] == s[..i]
      invariant out[base + 2 * i..base + 2 * x] == all[2 * i..] && out[..base] == before
    {
      i := i - 1;
      GrayPixel(s, x, i);
      SplitTail(all, 2 * i);
      assert out[base + i] == out[base..base + i + 1][i] == s[i];
      ghost var was := out[..];
      out[base + 2 * i + 1] := 255;
      out[base + 2 * i] := out[base + i];
      WroteTwo(was, out[..], base, i, base + 2 * x, s[i]);
      assert out[base + 2 * i..base + 2 * x] == [s[i], 255] + all[2 * i + 2..] == all[2 * i..];
      assert s[..i + 1][..i] == s[..i];
    }
    assert all[0..] == all;
  }

  lemma GrayPixel(s: Samples, x: nat, i: nat)
    requires i < x <= |s| && Mul(x, 1) == x && Mul(x, 2) == 2 * x
    ensures Widen(s, 1, true, 255, x)[2 * i] == s[i] && Widen(s, 1, true, 255, x)[2 * i + 1] == 255
  {
    hide Widen, Mul;
    OneTwo(i);
    WidenAt(s, 1, true, 255, x, i);
    var w := Widen(s, 1, true, 255, x);
    assert w[2 * i..2 * i + 2][0] == w[2 * i] && w[2 * i..2 * i + 2][1] == w[2 * i + 1];
  }

  lemma SplitTail(s: Samples, k: nat)
    requires k + 2 <= |s|
    ensures s[k..] == [s[k], s[k + 1]] + s[k + 2..] && s[k..k + 2] == [s[k], s[k + 1]]
  {
  }

  lemma WroteTwo(s: Samples, t: Samples, base: nat, i: nat, end: nat, v: nat)
    requires base + 2 * i + 2 <= end <= |s| && t == s[base + 2 * i + 1 := 255][base + 2 * i := v]
    ensures t[base + 2 * i..end] == [v, 255] + s[base + 2 * i + 2..end] && t[..base] == s[..base]
    ensures t[base..base + i] == s[base..base + i + 1][..i]
  {
  }

  /** One pixel with eight or sixteen bits to a sample, and its alpha. */
  method PutPixel(f: Format, row: Row, x: nat, i: nat, out: array<nat>, at: nat)
    requires f.Valid() && f.depth >= 8 && i < x && at + f.OutN() <= out.Length && f.RowBytes(x) <= |row|
    modifies out
    ensures 0 <= Mul(i, f.imgN) && Mul(i, f.imgN) + f.imgN <= Mul(x, f.imgN)
    ensures out[at..at + f.OutN()] == RowSamples(row, Mul(x, f.imgN), f.depth,
            1)[Mul(i, f.imgN)..Mul(i, f.imgN) + f.imgN] +
            if f.extra then [f.Max()] else []
    ensures out[..at] == old(out[..at])
  {
    hide Sample, Mul;
    MulRoom(i, x, f.imgN);
    var o := Mul(i, f.imgN);
    ghost var all, before := RowSamples(row, Mul(x, f.imgN), f.depth, 1), out[..at];
    for c := 0 to f.imgN
      invariant out[at..at + c] == all[o..o + c] && out[..at] == before
    {
      BigSample(f, row, x, o + c);
      ghost var was := out[..];
      out[at + c] := if f.depth == 8 then row[o + c] else Word16(row[2 * (o + c)], row[2 * (o + c) + 1]);
      assert all[o + c] == Sample(row, f.depth, o + c) == out[at + c];
      Wrote(was, out[..], at, at + c, out[at + c]);
      Longer(all, o, o + c, o + c + 1);
    }
    if f.extra {
      ghost var was := out[..];
      out[at + f.imgN] := f.Max();
      Wrote(was, out[..], at, at + f.imgN, f.Max());
    }
  }

  lemma Wrote(s: Samples, t: Samples, a: nat, k: nat, v: nat)
    requires a <= k < |s| && t == s[k := v]
    ensures t[a..k + 1] == s[a..k] + [v] && t[..a] == s[..a]
  {
  }

  lemma BigSample(f: Format, row: Row, x: nat, i: nat)
    requires f.Valid() && f.depth >= 8 && i < Mul(x, f.imgN) && f.RowBytes(x) <= |row|
    ensures if f.depth == 8 then i < |row| && Sample(row, f.depth, i) == row[i]
            else 2 * i + 1 < |row| && Sample(row, f.depth, i) == Word16(row[2 * i], row[2 * i + 1])
  {
    assert f.imgN * x == Mul(x, f.imgN);
    if f.depth == 8 {
      assert f.RowBytes(x) == Mul(x, f.imgN);
    } else {
      assert f.depth == 16;
      assert f.RowBytes(x) == 2 * (Mul(x, f.imgN));
    }
  }

  /** A row with eight or sixteen bits to a sample. */
  method PutPixels(f: Format, row: Row, x: nat, out: array<nat>, base: nat)
    requires f.Valid() && f.depth >= 8 && base + Mul(x, f.OutN()) <= out.Length && f.RowBytes(x) <= |row|
    modifies out
    ensures out[base..base + Mul(x, f.OutN())] == OutRow(f, row, x) && out[..base] == old(out[..base])
  {
    hide Sample, RowSamples, Widen, Mul;
    MulNext(0, f.OutN());
    ghost var s, before := RowSamples(row, Mul(x, f.imgN), f.depth, 1), out[..base];
    ghost var all := OutRow(f, row, x);
    var at := base;
    for i := 0 to x
      invariant at == base + Mul(i, f.OutN()) && Mul(i, f.OutN()) <= Mul(x, f.OutN())
      invariant out[base..at] == all[..Mul(i, f.OutN())] && out[..base] == before
    {
      MulRoom(i, x, f.OutN());
      WidenAt(s, f.imgN, f.extra, f.Max(), x, i);
      PutPixel(f, row, x, i, out, at);
      Longer(out[..], base, at, at + f.OutN());
      assert all[..Mul(i + 1, f.OutN())] == all[..Mul(i, f.OutN())] +
          all[Mul(i, f.OutN())..Mul(i, f.OutN()) + f.OutN()];
      at := at + f.OutN();
    }
    assert all[..Mul(x, f.OutN())] == all;
  }

  lemma Longer(s: Samples, a: nat, b: nat, c: nat)
    requires a <= b <= c <= |s|
    ensures s[a..c] == s[a..b] + s[b..c]
  {
  }

  /** Everything that happens to a row once it is unfiltered. */
  method ExpandRow(f: Format, row: Row, x: nat, out: array<nat>, base: nat)
    requires f.Valid() && base + Mul(x, f.OutN()) <= out.Length && |row| == f.RowBytes(x)
    modifies out
    ensures out[base..base + Mul(x, f.OutN())] == OutRow(f, row, x) && out[..base] == old(out[..base])
  {
    hide Sample, RowSamples, Widen, Mul;
    if f.depth >= 8 {
      PutPixels(f, row, x, out, base);
      return;
    }
    assert f.imgN == 1;
    OneTwo(x);
    var scale := Scale(f.depth, f.color);
    Enough(f, x);
    Unpack(row, f.depth, 8 / f.depth, scale, x, out, base);
    if f.extra {
      ExpandInPlace(out, base, x, RowSamples(row, x, f.depth, scale));
    } else {
      WidenSame(RowSamples(row, x, f.depth, scale), 1, 255, x);
    }
  }

  lemma OneTwo(x: nat)
    ensures Mul(x, 1) == x && Mul(x, 2) == 2 * x
  {
  }

  lemma Enough(f: Format, x: nat)
    requires f.depth in {1, 2, 4} && f.imgN == 1
    ensures x <= Mul(f.RowBytes(x), 8 / f.depth) && f.depth * (8 / f.depth) == 8
  {
  }

  // ---------- all rows ----------

  lemma Sizes(f: Format, x: nat, y: nat)
    requires f.Valid() && SizesOk(f, x, y) && x > 0
    ensures f.FilterBytes() <= f.RowBytes(x)
    ensures (f.RowBytes(x) + 1) * y < 0x1_0000_0000
  {
    var w := f.RowBytes(x);
    assert f.imgN * x >= f.imgN by {
      MulMonotone(f.imgN, 1, x);
    }
    assert w >= 1;
    assert (w + 1) * y == w * y + y;
    MulMonotone(y, 1, w);
  }

  /** One turn of the loop over the rows. */
  method PutRow(f: Format, lines: ScanLines, raw: seq<Byte>, at: nat, j: nat, x: nat, out: array<nat>, base: nat,
      ghost above: Row, ghost row: Row)
    requires f.Valid() && lines.Valid() && lines.w == f.RowBytes(x) == |above| && lines.bpp == f.FilterBytes()
    requires lines.Above(j, above)
    requires at + 1 + lines.w <= |raw| && raw[at] <= 4
    requires row == UnfilterRow(raw[at], raw[at + 1..at + 1 + lines.w], above, lines.bpp)
    requires base + Mul(x, f.OutN()) <= out.Length
    modifies out, lines.buf
    ensures lines.Line(j) == row && out[base..base + Mul(x, f.OutN())] == OutRow(f, row, x)
    ensures out[..base] == old(out[..base])
  {
    hide UnfilterRow, OutRow;
    assert lines.buf as object != out;
    lines.DecodeRow(j, raw[at], raw[at + 1..at + 1 + lines.w], above);
    var cur := lines.Current(j);
    ghost var was := lines.buf[..];
    ExpandRow(f, cur, x, out, base);
  }

  /** `stbi__create_png_image_raw`; `None` stands for its error returns. */
  method CreateImageRaw(f: Format, raw: seq<Byte>, x: nat, y: nat) returns (image: Option<Samples>)
    requires f.Valid() && x > 0
    ensures image == RawImage(f, raw, x, y)
  {
    hide Decode, Filters, UnfilterRow, Zeros, OutRow, SizesOk, Joined;
    image := None;
    if !SizesOk(f, x, y) {
      return;
    }
    Sizes(f, x, y);
    var w, stride := f.RowBytes(x), Mul(x, f.OutN());
    assert Mul(y, w + 1) == (w + 1) * y;
    if |raw| < (w + 1) * y {
      return;
    }
    image := AllRows(f, raw, x, y, w, stride);
  }

  method AllRows(f: Format, raw: seq<Byte>, x: nat, y: nat, w: nat, stride: nat) returns (image: Option<Samples>)
    requires f.Valid() && w == f.RowBytes(x) && stride == Mul(x, f.OutN()) && f.FilterBytes() <= w
    requires |raw| >= Mul(y, w + 1)
    ensures image == if GoodFilters(Filters(raw, w, y)) then
            Some(Joined(f, Decode(raw, Zeros(w), f.FilterBytes(), y), x)) else None
  {
    hide Decode, Filters, UnfilterRow, Zeros, OutRow, Joined, Mul;
    MulNext(0, stride);
    MulNext(0, w + 1);
    var out := new nat[Mul(y, stride)](_ => 0);
    var lines := new ScanLines(w, f.FilterBytes());
    ghost var rows, filters := Decode(raw, Zeros(w), f.FilterBytes(), y), Filters(raw, w, y);
    var at: nat, base: nat, j: nat := 0, 0, 0;
    NoRows(f, x);
    assert rows[..0] == [];
    while j < y
      invariant j <= y && at == Mul(j, w + 1) && base == Mul(j, stride) <= out.Length
      invariant j > 0 ==> lines.Line(j - 1) == rows[j - 1]
      invariant out[..base] == Joined(f, rows[..j], x)
      invariant forall i :: 0 <= i < j ==> filters[i] <= 4
    {
      RowStart(raw, Zeros(w), f.FilterBytes(), y, j);
      MulRoom(j, y, stride);
      MulNext(j, stride);
      if raw[at] > 4 {
        return None;
      }
      if j > 0 {
        SameLine(lines, j);
      }
      PutRow(f, lines, raw, at, j, x, out, base, if j == 0 then Zeros(w) else rows[j - 1], rows[j]);
      JoinedMore(f, rows, x, j);
      Longer(out[..], 0, base, base + stride);
      at, base, j := at + w + 1, base + stride, j + 1;
    }
    assert rows[..y] == rows;
    assert out[..base] == out[..];
    image := Some(out[..]);
  }

  lemma NoRows(f: Format, x: nat)
    ensures Joined(f, [], x) == []
  {
  }

  lemma JoinedMore(f: Format, rows: seq<Row>, x: nat, j: nat)
    requires j < |rows|
    ensures Joined(f, rows[..j + 1], x) == Joined(f, rows[..j], x) + OutRow(f, rows[j], x)
  {
    hide OutRow;
    assert rows[..j + 1][..j] == rows[..j];
  }

  lemma SameLine(lines: ScanLines, j: nat)
    requires lines.Valid() && j > 0
    ensures lines.Line(j + 1) == lines.Line(j - 1)
  {
  }

  // ---------- encoded images ----------

  lemma {:induction false} EncodedFilters(filters: seq<Byte>, rows: seq<Row>, prior: Row, bpp: nat, more: seq<Byte>)
    requires |filters| == |rows| && bpp > 0 && forall i :: 0 <= i < |rows| ==> |rows[i]| == |prior|
    ensures |Encode(filters, rows, prior, bpp) + more| >= Mul(|rows|, |prior| + 1)
    ensures Filters(Encode(filters, rows, prior, bpp) + more, |prior|, |rows|) == filters
    decreases |rows|
  {
    hide Mul, FilterRow;
    EncodedLength(filters, rows, prior, bpp);
    if rows != [] {
      var w, raw := |prior|, Encode(filters, rows, prior, bpp) + more;
      var rest := Encode(filters[1..], rows[1..], rows[0], bpp) + more;
      assert raw == [filters[0]] + FilterRow(filters[0], rows[0], prior, bpp) + rest;
      assert raw[w + 1..] == rest;
      MulNext(|rows| - 1, w + 1);
      EncodedFilters(filters[1..], rows[1..], rows[0], bpp, more);
    }
  }

  /** Whatever filters an encoder chooses for the rows, their samples come out. */
  lemma EncodedImage(f: Format, filters: seq<Byte>, rows: seq<Row>, x: nat, more: seq<Byte>)
    requires f.Valid() && SizesOk(f, x, |rows|) && GoodFilters(filters)
    requires |filters| == |rows| && forall i :: 0 <= i < |rows| ==> |rows[i]| == f.RowBytes(x)
    ensures RawImage(f, Encode(filters, rows, Zeros(f.RowBytes(x)), f.FilterBytes()) + more, x, |rows|) ==
            Some(Joined(f, rows, x))
  {
    hide Encode, Decode, Filters, Zeros, SizesOk, Mul, OutRow;
    ImageRoundTrip(filters, rows, Zeros(f.RowBytes(x)), f.FilterBytes(), more);
    EncodedFilters(filters, rows, Zeros(f.RowBytes(x)), f.FilterBytes(), more);
  }

  /** Eight-bit RGBA, the format of the icons. */
  const RGBA := Format(4, false, 8, 6)

  function Flat(rows: seq<Row>): Samples {
    if rows == [] then [] else Flat(rows[..|rows| - 1]) + rows[|rows| - 1]
  }

  /** Eight-bit channels come out as they are. */
  lemma EightBitRow(f: Format, row: Row, x: nat)
    requires f.depth == 8 && !f.extra && |row| == Mul(x, f.imgN)
    ensures OutRow(f, row, x) == row
  {
    WidenSame(RowSamples(row, Mul(x, f.imgN), 8, 1), f.imgN, 255, x);
    assert RowSamples(row, Mul(x, f.imgN), 8, 1) == row;
  }

  lemma {:induction false} EightBitJoined(f: Format, rows: seq<Row>, x: nat)
    requires f.depth == 8 && !f.extra && forall i :: 0 <= i < |rows| ==> |rows[i]| == Mul(x, f.imgN)
    ensures Joined(f, rows, x) == Flat(rows)
  {
    hide OutRow;
    if rows != [] {
      EightBitJoined(f, rows[..|rows| - 1], x);
      EightBitRow(f, rows[|rows| - 1], x);
    }
  }

  /** The two decoders agree wherever both accept the data. */
  lemma DecodersAgree(raw: seq<Byte>, x: nat, y: nat, plain: seq<Row>)
    requires |raw| >= Mul(y, 4 * x + 1) && plain == Decode(raw, PngFilter.Zeros(4 * x), 4, y)
    ensures RawImage(RGBA, raw, x, y) == if SizesOk(RGBA, x, y) &&
            GoodFilters(Filters(raw, 4 * x, y)) then Some(Flat(plain)) else None
  {
    hide Decode, Filters, SizesOk, OutRow, Joined, Flat;
    assert RGBA.RowBytes(x) == 4 * x == Mul(x, 4);
    hide Mul;
    EightBitJoined(RGBA, plain, x);
  }
}
