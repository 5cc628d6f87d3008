/**
 An interlaced picture there and back: the reductions that an encoder makes of a picture, filtered
 as it likes, are put together to that picture by `stbi__create_png_image` of external/stb_image.h.
 */
module Interlace {
  import opened Adam7
  import opened Bits
  import opened PngFilter
  import opened PngImage
  import opened Wrappers

  /** Pixels of one sample for each channel of the file, row by row. */
  type Picture = seq<Pixel>

  predicate Small(s: Samples, depth: nat) {
    forall i :: 0 <= i < |s| ==> s[i] < Pow2(depth)
  }

  predicate Pixels(picture: Picture, f: Format, w: nat, h: nat) {
    |picture| == Mul(h, w) && forall k :: 0 <= k < |picture| ==> |picture[k]| == f.imgN && Small(picture[k], f.depth)
  }

  function At(picture: Picture, k: nat): Pixel {
    if k < |picture| then picture[k] else []
  }

  function Scaled(s: Samples, scale: nat): (r: Samples)
    ensures |r| == |s|
  {
    seq(|s|, i requires 0 <= i < |s| => scale * s[i])
  }

  /** What the decoder makes of a pixel: gray of less than a byte is scaled up, and alpha may be added. */
  function Shown(f: Format, pixel: Pixel): Pixel {
    Scaled(pixel, Scale(f.depth, f.color)) + if f.extra then [f.Max()] else []
  }

  function ShownPicture(f: Format, picture: Picture): (r: Picture)
    ensures |r| == |picture| && forall k :: 0 <= k < |r| ==> r[k] == Shown(f, picture[k])
  {
    seq(|picture|, k requires 0 <= k < |picture| => Shown(f, picture[k]))
  }

  // ---------- packing samples into bytes ----------

  function SampleAt(s: Samples, i: nat): nat {
    if i < |s| then s[i] else 0
  }

  /** The `t` samples from the `first` on as digits of a number, the first of them on top. */
  function Packed(s: Samples, depth: nat, first: nat, t: nat): nat {
    if t == 0 then 0 else Packed(s, depth, first, t - 1) * Pow2(depth) + SampleAt(s, first + t - 1)
  }

  function PackedByte(s: Samples, depth: nat, k: nat): nat {
    if depth == 16 then if k % 2 == 0 then SampleAt(s, k / 2) / 256 else SampleAt(s, k / 2) % 256
    else if depth == 8 then SampleAt(s, k)
    else if depth == 4 then Packed(s, 4, 2 * k, 2)
    else if depth == 2 then Packed(s, 2, 4 * k, 4)
    else Packed(s, 1, 8 * k, 8)
  }

  lemma {:induction false} PackedBound(s: Samples, depth: nat, first: nat, t: nat)
    requires Small(s, depth)
    ensures Packed(s, depth, first, t) < Pow2(depth * t)
  {
    hide Pow2;
    Pow2Add(0, 0);
    if t > 0 {
      PackedBound(s, depth, first, t - 1);
      assert depth * (t - 1) + depth == depth * t;
      Pow2Add(depth * (t - 1), depth);
      DigitBelow(Packed(s, depth, first, t - 1), Pow2(depth * (t - 1)), Pow2(depth), SampleAt(s, first + t - 1));
    } else {
      assert depth * t == 0;
      PowerNought();
    }
  }

  lemma PowerNought()
    ensures Pow2(0) == 1
  {
  }

  lemma DigitBelow(x: nat, a: nat, b: nat, d: nat)
    requires x < a && d < b
    ensures x * b + d < a * b
  {
    MulMonotone(b, x + 1, a);
  }

  lemma PackedByteBound(s: Samples, depth: nat, k: nat)
    requires Small(s, depth) && depth in {1, 2, 4, 8, 16}
    ensures PackedByte(s, depth, k) < 256
  {
    hide Pow2;
    Pow2Values();
    if depth < 8 {
      PackedBound(s, depth, if depth == 4 then 2 * k else if depth == 2 then 4 * k else 8 * k, 8 / depth);
    }
  }

  function ByteOf(s: Samples, depth: nat, k: nat): (b: Byte)
    requires Small(s, depth) && depth in {1, 2, 4, 8, 16}
    ensures b == PackedByte(s, depth, k)
  {
    PackedByteBound(s, depth, k);
    PackedByte(s, depth, k)
  }

  /** A row of the file that holds the samples. */
  function PackRow(s: Samples, depth: nat): (row: Row)
    requires Small(s, depth) && depth in {1, 2, 4, 8, 16}
    ensures |row| == (|s| * depth + 7) / 8 && forall k :: 0 <= k < |row| ==> row[k] == PackedByte(s, depth, k)
  {
    seq((|s| * depth + 7) / 8, k requires 0 <= k => ByteOf(s, depth, k))
  }

  lemma DivTwice(x: nat, a: nat, b: nat)
    requires a > 0 && b > 0 && a * b > 0
    ensures x / (a * b) == x / a / b
  {
    var q, r := x / a, x % a;
    var q', r' := q / b, q % b;
    assert x == a * q + r && q == b * q' + r';
    assert a * (b * q' + r') == a * (b * q') + a * r';
    MulAssoc(a, b, q');
    MulMonotone(a, r' + 1, b);
    assert a * (r' + 1) == a * r' + a;
    DivModIs(a * b, x, q', a * r' + r);
  }

  lemma {:induction false} PackedDigit(s: Samples, depth: nat, first: nat, t: nat, j: nat)
    requires Small(s, depth) && j < t
    ensures Packed(s, depth, first, t) / Pow2(depth * (t - 1 - j)) % Pow2(depth) == SampleAt(s, first + j)
    decreases t
  {
    hide Pow2;
    var x, d, b := Packed(s, depth, first, t - 1), SampleAt(s, first + t - 1), Pow2(depth);
    DivModIs(b, Packed(s, depth, first, t), x, d);
    if j == t - 1 {
      PowerNought();
      NoDigits(depth);
    } else {
      PackedDigit(s, depth, first, t - 1, j);
      var e := depth * (t - 2 - j);
      OneMore(depth, t - 2 - j);
      Pow2Add(depth, e);
      DivTwice(Packed(s, depth, first, t), b, Pow2(e));
    }
  }

  lemma NoDigits(depth: nat)
    ensures depth * 0 == 0
  {
  }

  lemma OneMore(depth: nat, n: nat)
    ensures depth * (n + 1) == depth + depth * n
  {
  }

  lemma PackedSmall(s: Samples, depth: nat, perByte: nat, i: nat)
    requires Small(s, depth) && depth in {1, 2, 4} && depth * perByte == 8 && i < |s|
    ensures SmallSample(PackRow(s, depth), depth, perByte, i) == s[i]
  {
    hide Pow2, Packed;
    var k, j := i / perByte, i % perByte;
    assert i == perByte * k + j;
    LastSample(depth, perByte, j);
    assert depth * (perByte - 1 - j) == 8 - depth - depth * j;
    PackedDigit(s, depth, perByte * k, perByte, j);
  }

  /** The decoder finds the samples that were packed. */
  lemma PackedSample(s: Samples, depth: nat, i: nat)
    requires Small(s, depth) && depth in {1, 2, 4, 8, 16} && i < |s|
    ensures Sample(PackRow(s, depth), depth, i) == s[i]
  {
    hide Pow2, Packed, SmallSample;
    if depth < 8 {
      PackedSmall(s, depth, 8 / depth, i);
    }
  }

  // ---------- the reductions ----------

  /** The samples of the first `m` pixels of row `j` of a pass. */
  function PassSamples(picture: Picture, w: nat, p: nat, j: nat, m: nat): Samples {
    if m == 0 then []
    else PassSamples(picture, w, p, j, m - 1) + At(picture, Index(w, OutX(p, m - 1), OutY(p, j)))
  }

  lemma {:induction false} PassSmall(picture: Picture, f: Format, w: nat, h: nat, p: nat, j: nat, m: nat)
    requires Pixels(picture, f, w, h)
    ensures Small(PassSamples(picture, w, p, j, m), f.depth)
  {
    hide Pow2;
    if m > 0 {
      PassSmall(picture, f, w, h, p, j, m - 1);
    }
  }

  function Reduced(picture: Picture, f: Format, w: nat, h: nat, p: nat): (rows: seq<Row>)
    requires f.Valid() && Pixels(picture, f, w, h)
    ensures |rows| == PassHeight(h, p)
  {
    seq(PassHeight(h, p), j requires 0 <= j =>
      PassSmall(picture, f, w, h, p, j, PassWidth(w, p));
      PackRow(PassSamples(picture, w, p, j, PassWidth(w, p)), f.depth))
  }

  function Reductions(picture: Picture, f: Format, w: nat, h: nat): (rows: seq<seq<Row>>)
    requires f.Valid() && Pixels(picture, f, w, h)
    ensures |rows| == 7 && forall p :: 0 <= p < 7 ==> rows[p] == Reduced(picture, f, w, h, p)
  {
    seq(7, p requires 0 <= p => Reduced(picture, f, w, h, p))
  }

  lemma {:induction false} PassSamplesAre(picture: Picture, f: Format, w: nat, h: nat, p: nat, j: nat, m: nat)
    requires Pixels(picture, f, w, h) && p < 7 && j < PassHeight(h, p) && m <= PassWidth(w, p)
    ensures |PassSamples(picture, w, p, j, m)| == Mul(m, f.imgN)
    ensures forall i: nat :: i < m ==>
        PixelAt(PassSamples(picture, w, p, j, m), f.imgN, i) == At(picture, Index(w, OutX(p, i), OutY(p, j)))
    decreases m
  {
    hide PassWidth, PassHeight, OutX, OutY, Index, Mul, PixelAt, At, Pixels;
    MulNext(0, f.imgN);
    if m > 0 {
      var pixel := At(picture, Index(w, OutX(p, m - 1), OutY(p, j)));
      PassSamplesAre(picture, f, w, h, p, j, m - 1);
      PixelThere(picture, f, w, h, p, m - 1, j);
      MulNext(m - 1, f.imgN);
      PixelsMore(PassSamples(picture, w, p, j, m - 1), pixel, f.imgN, m - 1);
    }
  }

  lemma PixelThere(picture: Picture, f: Format, w: nat, h: nat, p: nat, i: nat, j: nat)
    requires Pixels(picture, f, w, h) && p < 7 && i < PassWidth(w, p) && j < PassHeight(h, p)
    ensures Index(w, OutX(p, i), OutY(p, j)) < |picture| && |At(picture, Index(w, OutX(p, i), OutY(p, j)))| == f.imgN
  {
    hide PassWidth, PassHeight, OutX, OutY, Index, Mul;
    Inside(w, h, p, i, j);
    IndexInside(w, h, OutX(p, i), OutY(p, j));
  }

  lemma PixelsMore(s: Samples, pixel: Pixel, n: nat, m: nat)
    requires |s| == Mul(m, n) && |pixel| == n
    ensures PixelAt(s + pixel, n, m) == pixel
    ensures forall i: nat :: i < m ==> PixelAt(s + pixel, n, i) == PixelAt(s, n, i)
  {
    hide Mul;
    forall i: nat | i < m
      ensures PixelAt(s + pixel, n, i) == PixelAt(s, n, i)
    {
      MulRoom(i, m, n);
    }
  }

  /** A row of a pass among all rows of the pass. */
  lemma {:induction false} JoinedRow(f: Format, rows: seq<Row>, x: nat, j: nat)
    ensures |Joined(f, rows, x)| == Mul(|rows|, Mul(x, f.OutN()))
    ensures j < |rows| ==> var a, length := Mul(j, Mul(x, f.OutN())), Mul(x, f.OutN());
                           a + length <= |Joined(f, rows, x)| &&
                               Joined(f, rows, x)[a..a + length] == OutRow(f, rows[j], x)
    decreases |rows|
  {
    hide Mul, OutRow;
    var length := Mul(x, f.OutN());
    MulNext(0, length);
    if rows != [] {
      var m := |rows| - 1;
      JoinedRow(f, rows[..m], x, j);
      MulNext(m, length);
      if j < m {
        SliceLeft(Joined(f, rows[..m], x), OutRow(f, rows[m], x), Mul(j, length), Mul(j, length) + length);
      }
    }
  }

  /** A pixel of a pass is the pixel that was packed into its row. */
  lemma PixelInPass(f: Format, rows: seq<Row>, s: Samples, x: nat, j: nat, i: nat)
    requires f.Valid() && j < |rows| && i < x && |s| == Mul(x, f.imgN) && Small(s, f.depth)
    requires rows[j] == PackRow(s, f.depth)
    ensures PixelAt(Joined(f, rows, x), f.OutN(), Mul(j, x) + i) == Shown(f, PixelAt(s, f.imgN, i))
  {
    hide Mul, Joined, OutRow, PackRow, Small, Scale, Shown, PixelAt;
    var n, a, b := f.OutN(), Mul(j, Mul(x, f.OutN())), Mul(i, f.OutN());
    PixelPlace(n, x, j, i);
    JoinedRow(f, rows, x, j);
    MulRoom(i, x, n);
    SliceOfSlice(Joined(f, rows, x), a, Mul(x, n), b, n);
    PixelInRow(f, s, x, i);
    PixelIs(Joined(f, rows, x), n, Mul(j, x) + i, a + b);
  }

  lemma PixelIs(s: Samples, n: nat, k: nat, at: nat)
    requires Mul(k, n) == at && at + n <= |s|
    ensures PixelAt(s, n, k) == s[at..at + n]
  {
  }

  lemma PixelInRow(f: Format, s: Samples, x: nat, i: nat)
    requires f.Valid() && i < x && |s| == Mul(x, f.imgN) && Small(s, f.depth)
    ensures 0 <= Mul(i, f.OutN()) && Mul(i, f.OutN()) + f.OutN() <= Mul(x, f.OutN())
    ensures OutRow(f, PackRow(s, f.depth), x)[Mul(i, f.OutN())..Mul(i, f.OutN()) + f.OutN()] ==
            Shown(f, PixelAt(s, f.imgN, i))
  {
    hide Mul, PackRow, Small, Scale, Widen, Sample;
    var scale := Scale(f.depth, f.color);
    var out := RowSamples(PackRow(s, f.depth), Mul(x, f.imgN), f.depth, scale);
    WidenAt(out, f.imgN, f.extra, f.Max(), x, i);
    MulRoom(i, x, f.imgN);
    var o := Mul(i, f.imgN);
    var l, r := out[o..o + f.imgN], Scaled(PixelAt(s, f.imgN, i), scale);
    forall c | 0 <= c < |l|
      ensures l[c] == r[c]
    {
      PackedSample(s, f.depth, o + c);
    }
    assert l == r;
  }

  lemma PixelPlace(n: nat, x: nat, j: nat, i: nat)
    ensures Mul(Mul(j, x) + i, n) == Mul(j, Mul(x, n)) + Mul(i, n)
  {
    MulAssoc(j, x, n);
    assert (j * x + i) * n == j * x * n + i * n;
  }

  lemma SliceOfSlice(s: Samples, a: nat, length: nat, b: nat, n: nat)
    requires a + length <= |s| && b + n <= length
    ensures s[a..a + length][b..b + n] == s[a + b..a + b + n]
  {
    var l, r := s[a..a + length][b..b + n], s[a + b..a + b + n];
    assert forall k :: 0 <= k < n ==> l[k] == s[a + b + k] && r[k] == s[a + b + k];
    assert |l| == |r|;
  }

  lemma {:induction false} RowImagesAt(f: Format, rows: seq<seq<Row>>, w: nat, h: nat, p: nat, k: nat)
    requires p <= k < 7 && |rows| == 7
    ensures RowImages(f, rows, w, h, p)[k - p] == if PassWidth(w, k) == 0 ||
            PassHeight(h, k) == 0 then [] else Joined(f, rows[k], PassWidth(w, k))
    decreases 7 - p
  {
    hide PassWidth, PassHeight, Joined;
    if p < k {
      RowImagesAt(f, rows, w, h, p + 1, k);
    }
  }

  /** What the reductions hold are the reductions of the picture as it is shown. */
  lemma ReductionsReduce(f: Format, picture: Picture, w: nat, h: nat)
    requires f.Valid() && Pixels(picture, f, w, h)
    ensures Reduces(RowImages(f, Reductions(picture, f, w, h), w, h, 0), f.OutN(), ShownPicture(f, picture), w, h)
  {
    hide PassWidth, PassHeight, Index, OutX, OutY, PixelAt, Mul, Joined, RowImages, Shown, Small, Pixels;
    hide PackRow, Scaled;
    var rows := Reductions(picture, f, w, h);
    assert |picture| == Mul(h, w) by {
      PictureSize(picture, f, w, h);
    }
    forall p: nat, i: nat, j: nat | p < 7 && i < PassWidth(w, p) && j < PassHeight(h, p)
      ensures PixelAt(RowImages(f, rows, w, h, 0)[p], f.OutN(), Mul(j, PassWidth(w, p)) + i) ==
              Shown(f, At(picture, Index(w, OutX(p, i), OutY(p, j))))
      ensures Index(w, OutX(p, i), OutY(p, j)) < |picture|
    {
      var x := PassWidth(w, p);
      RowImagesAt(f, rows, w, h, 0, p);
      PassSamplesAre(picture, f, w, h, p, j, x);
      PassSmall(picture, f, w, h, p, j, x);
      PixelInPass(f, rows[p], PassSamples(picture, w, p, j, x), x, j, i);
      PixelThere(picture, f, w, h, p, i, j);
    }
  }

  lemma PictureSize(picture: Picture, f: Format, w: nat, h: nat)
    requires Pixels(picture, f, w, h)
    ensures |picture| == Mul(h, w)
  {
  }

  lemma RowsHavePixels(picture: Picture, f: Format, w: nat, h: nat, p: nat)
    requires f.Valid() && Pixels(picture, f, w, h) && p < 7
    ensures forall j :: 0 <= j < PassHeight(h, p) ==> |Reduced(picture, f, w, h, p)[j]| == f.RowBytes(PassWidth(w, p))
  {
    hide PassWidth, PassHeight, Mul, Pixels, Small, PackedByte;
    forall j | 0 <= j < PassHeight(h, p)
      ensures |Reduced(picture, f, w, h, p)[j]| == f.RowBytes(PassWidth(w, p))
    {
      PassSamplesAre(picture, f, w, h, p, j, PassWidth(w, p));
      PassSmall(picture, f, w, h, p, j, PassWidth(w, p));
      WholeRow(f, PassWidth(w, p));
    }
  }

  // ---------- sizes ----------

  lemma PassShrinks(w: nat, h: nat, p: nat)
    requires p < 7
    ensures PassWidth(w, p) <= w && PassHeight(h, p) <= h
  {
    if PassWidth(w, p) > 0 {
      Widths(w, p, PassWidth(w, p) - 1);
    }
    if PassHeight(h, p) > 0 {
      Heights(h, p, PassHeight(h, p) - 1);
    }
  }

  lemma ProductGrows(a: nat, b: nat, c: nat, d: nat)
    requires a <= c && b <= d
    ensures a * b <= c * d
  {
    MulMonotone(a, b, d);
    MulMonotone(d, a, c);
  }

  lemma SizesShrink(f: Format, x: nat, y: nat, w: nat, h: nat)
    requires SizesOk(f, w, h) && x <= w && y <= h
    ensures SizesOk(f, x, y)
  {
    var c := f.OutN() * (if f.depth == 16 then 2 else 1);
    ProductGrows(x, y, w, h);
    ProductGrows(x * y, c, w * h, c);
    ProductGrows(f.imgN, x, f.imgN, w);
    ProductGrows(f.imgN * x, f.depth, f.imgN * w, f.depth);
    ProductGrows(f.RowBytes(x), y, f.RowBytes(w), h);
  }

  lemma ReductionsFit(f: Format, filters: seq<seq<Byte>>, picture: Picture, w: nat, h: nat)
    requires f.Valid() && Pixels(picture, f, w, h) && SizesOk(f, w, h)
    requires |filters| == 7 && forall p :: 0 <= p < 7 ==> |filters[p]| == PassHeight(h, p) && GoodFilters(filters[p])
    ensures PassRows(f, filters, Reductions(picture, f, w, h), w, h)
  {
    hide PassWidth, PassHeight, GoodFilters, SizesOk, Pixels, Reduced;
    forall p | 0 <= p < 7
      ensures SizesOk(f, PassWidth(w, p), PassHeight(h, p))
      ensures forall j :: 0 <= j < PassHeight(h, p) ==> |Reduced(picture, f, w, h, p)[j]| == f.RowBytes(PassWidth(w, p))
    {
      PassShrinks(w, h, p);
      SizesShrink(f, PassWidth(w, p), PassHeight(h, p), w, h);
      RowsHavePixels(picture, f, w, h, p);
    }
  }

  lemma WholeRow(f: Format, x: nat)
    ensures f.RowBytes(x) == (Mul(x, f.imgN) * f.depth + 7) / 8
  {
  }

  // ---------- there and back ----------

  /**
   Whatever picture is reduced, in whatever format, and whatever filters are chosen for the rows of
   the seven reductions: putting them together shows the picture.
   */
  method PictureBack(f: Format, filters: seq<seq<Byte>>, picture: Picture, w: nat, h: nat)
    returns (final: Option<Picture>)
    requires f.Valid() && Pixels(picture, f, w, h) && SizesOk(f, w, h)
    requires |filters| == 7 && forall p :: 0 <= p < 7 ==> |filters[p]| == PassHeight(h, p) && GoodFilters(filters[p])
    ensures final == Some(ShownPicture(f, picture))
    ensures f.depth >= 8 && !f.extra ==> final == Some(picture)
  {
    hide PassWidth, PassHeight, GoodFilters, SizesOk, Pixels, PassRows, RowImages, Interlaced, PassImages;
    hide Reduces, Complete;
    var rows := Reductions(picture, f, w, h);
    ReductionsFit(f, filters, picture, w, h);
    InterlacedData(f, filters, rows, w, h, 0);
    ReductionsReduce(f, picture, w, h);
    final := Deinterlace(f, Interlaced(f, filters, rows, w, h, 0), w, h);
    PictureRoundTrip(f, RowImages(f, rows, w, h, 0), ShownPicture(f, picture), final.value, w, h);
    ShownPlain(f, picture);
  }

  lemma ShownPlain(f: Format, picture: Picture)
    ensures f.depth >= 8 && !f.extra ==> ShownPicture(f, picture) == picture
  {
    if f.depth >= 8 && !f.extra {
      forall k | 0 <= k < |picture|
        ensures Shown(f, picture[k]) == picture[k]
      {
        assert Scaled(picture[k], 1) == picture[k];
      }
    }
  }

  /** No sample is lost to scaling or to the added channel. */
  lemma ShownApart(f: Format, a: Pixel, b: Pixel)
    requires |a| == |b| && Shown(f, a) == Shown(f, b)
    ensures a == b
  {
    var scale := Scale(f.depth, f.color);
    assert Scaled(a, scale) == Shown(f, a)[..|a|] && Scaled(b, scale) == Shown(f, b)[..|b|];
    forall i | 0 <= i < |a|
      ensures a[i] == b[i]
    {
      assert scale * a[i] == Scaled(a, scale)[i] == Scaled(b, scale)[i] == scale * b[i];
    }
  }
}
