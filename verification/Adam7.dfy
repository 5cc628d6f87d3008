/**
 Interlaced PNG images (section 2.6 of RFC 2083; external/stb_image.h, `stbi__create_png_image`):
 seven reduced images whose pixels are spread over the whole.
 */
module Adam7 {
  import opened Bits
  import opened PngFilter
  import opened PngImage
  import opened Wrappers

  type Pixel = seq<nat>

  function XOrig(p: nat): nat { if p == 1 then 4 else if p == 3 then 2 else if p == 5 then 1 else 0 }
  function YOrig(p: nat): nat { if p == 2 then 4 else if p == 4 then 2 else if p == 6 then 1 else 0 }
  function XSpc(p: nat): (s: nat)
    ensures s > 0
  {
    if p < 2 then 8 else if p < 4 then 4 else if p < 6 then 2 else 1
  }
  function YSpc(p: nat): (s: nat)
    ensures s > 0
  {
    if p < 3 then 8 else if p < 5 then 4 else 2
  }

  /** Columns and rows of a reduced image. */
  function PassWidth(w: nat, p: nat): (x: nat)
  {
    SmallOrigin(p);
    (w - XOrig(p) + XSpc(p) - 1) / XSpc(p)
  }

  function PassHeight(h: nat, p: nat): (y: nat)
  {
    SmallOrigin(p);
    (h - YOrig(p) + YSpc(p) - 1) / YSpc(p)
  }

  lemma SmallOrigin(p: nat)
    ensures XOrig(p) < XSpc(p) && YOrig(p) < YSpc(p)
  {
  }

  // ---------- every pixel once ----------

  /** The pass a pixel belongs to. */
  function PassOf(x: nat, y: nat): (p: nat)
    ensures p < 7
  {
    if y % 2 == 1 then 6
    else if x % 2 == 1 then 5
    else if y % 4 == 2 then 4
    else if x % 4 == 2 then 3
    else if y % 8 == 4 then 2
    else if x % 8 == 4 then 1
    else 0
  }

  predicate InPass(p: nat, x: nat, y: nat) {
    && x >= XOrig(p) && (x - XOrig(p)) % XSpc(p) == 0
    && y >= YOrig(p) && (y - YOrig(p)) % YSpc(p) == 0
  }

  lemma Congruent(x: nat, m: nat, r: nat)
    requires r < m
    ensures x >= r && (x - r) % m == 0 <==> x % m == r
  {
    var q := x / m;
    if x >= r && (x - r) % m == 0 {
      var k := (x - r) / m;
      assert x - r == m * k;
      DivModIs(m, x, k, r);
    }
    if x % m == r {
      assert x - r == m * q;
      DivModIs(m, x - r, q, 0);
    }
  }

  /** The remainders by 2 and 4 follow from that by 8. */
  lemma Remainders(x: nat)
    ensures x % 2 == x % 8 % 2 && x % 4 == x % 8 % 4 && x % 1 == 0
  {
  }

  lemma InPassOf(p: nat, x: nat, y: nat)
    requires p < 7
    ensures InPass(p, x, y) <==> p == PassOf(x, y)
  {
    Congruent(x, XSpc(p), XOrig(p));
    Congruent(y, YSpc(p), YOrig(p));
    Remainders(x);
    Remainders(y);
    PassCases(p, x, y, x % 8, y % 8);
  }

  lemma PassCases(p: nat, x: nat, y: nat, a: nat, b: nat)
    requires p < 7 && a < 8 && b < 8 && x % 8 == a && y % 8 == b
    requires x % 2 == a % 2 && x % 4 == a % 4 && y % 2 == b % 2 && y % 4 == b % 4 && x % 1 == 0
    ensures x % XSpc(p) == XOrig(p) && y % YSpc(p) == YOrig(p) <==> p == PassOf(x, y)
  {
  }

  /** Where pixel `(i, j)` of a pass goes. */
  function OutX(p: nat, i: nat): nat {
    i * XSpc(p) + XOrig(p)
  }

  function OutY(p: nat, j: nat): nat {
    j * YSpc(p) + YOrig(p)
  }

  /** Where a pixel comes from. */
  function FromX(x: nat, y: nat): nat {
    var p := PassOf(x, y);
    if x >= XOrig(p) then (x - XOrig(p)) / XSpc(p) else 0
  }

  function FromY(x: nat, y: nat): nat {
    var p := PassOf(x, y);
    if y >= YOrig(p) then (y - YOrig(p)) / YSpc(p) else 0
  }

  lemma ThereX(p: nat, i: nat, x: nat)
    requires p < 7
    ensures OutX(p, i) == x <==> x >= XOrig(p) && (x - XOrig(p)) % XSpc(p) == 0 && i == (x - XOrig(p)) / XSpc(p)
  {
    DivModIs(XSpc(p), i * XSpc(p), i, 0);
    if p < 2 {} else if p < 4 {} else if p < 6 {} else {}
  }

  lemma ThereY(p: nat, j: nat, y: nat)
    requires p < 7
    ensures OutY(p, j) == y <==> y >= YOrig(p) && (y - YOrig(p)) % YSpc(p) == 0 && j == (y - YOrig(p)) / YSpc(p)
  {
    if p < 3 {} else if p < 5 {} else {}
  }

  lemma Widths(w: nat, p: nat, i: nat)
    requires p < 7
    ensures i < PassWidth(w, p) <==> OutX(p, i) < w
  {
    if p < 2 {} else if p < 4 {} else if p < 6 {} else {}
  }

  lemma Heights(h: nat, p: nat, j: nat)
    requires p < 7
    ensures j < PassHeight(h, p) <==> OutY(p, j) < h
  {
    if p < 3 {} else if p < 5 {} else {}
  }

  /** The seven passes write every pixel of an image, and none of them twice. */
  lemma EachPixelOnce(w: nat, h: nat, x: nat, y: nat)
    requires x < w && y < h
    ensures var (p, i, j) := (PassOf(x, y), FromX(x, y), FromY(x, y));
            i < PassWidth(w, p) && j < PassHeight(h, p) && OutX(p, i) == x && OutY(p, j) == y
    ensures forall p: nat, i: nat, j: nat ::
              p < 7 && i < PassWidth(w, p) && j < PassHeight(h, p) && OutX(p, i) == x && OutY(p, j) == y ==>
              p == PassOf(x, y) && i == FromX(x, y) && j == FromY(x, y)
  {
    hide OutX, OutY, PassWidth, PassHeight;
    var (p, i, j) := (PassOf(x, y), FromX(x, y), FromY(x, y));
    InPassOf(p, x, y);
    ThereX(p, i, x);
    ThereY(p, j, y);
    Widths(w, p, i);
    Heights(h, p, j);
    forall p': nat, i': nat, j': nat | p' < 7 && OutX(p', i') == x && OutY(p', j') == y
      ensures p' == p && i' == i && j' == j
    {
      ThereX(p', i', x);
      ThereY(p', j', y);
      InPassOf(p', x, y);
    }
  }

  /** And they write nothing outside of it. */
  lemma Inside(w: nat, h: nat, p: nat, i: nat, j: nat)
    requires p < 7 && i < PassWidth(w, p) && j < PassHeight(h, p)
    ensures OutX(p, i) < w && OutY(p, j) < h
    ensures PassOf(OutX(p, i), OutY(p, j)) == p && FromX(OutX(p, i), OutY(p, j)) == i
    ensures FromY(OutX(p, i), OutY(p, j)) == j
  {
    Widths(w, p, i);
    Heights(h, p, j);
    EachPixelOnce(w, h, OutX(p, i), OutY(p, j));
  }

  // ---------- taking the passes apart ----------

  /** The data behind the pass's rows. */
  function DataLength(f: Format, x: nat, y: nat): nat {
    Mul(y, f.RowBytes(x) + 1)
  }

  /** The images of passes `p` to 6, empty where a pass has no pixels. */
  function PassImages(f: Format, raw: seq<Byte>, w: nat, h: nat, p: nat): (r: Option<seq<Samples>>)
    requires f.Valid() && p <= 7
    ensures r.Some? ==> |r.value| == 7 - p
    decreases 7 - p
  {
    if p == 7 then Some([])
    else
      var x, y := PassWidth(w, p), PassHeight(h, p);
      if x == 0 || y == 0 then
        match PassImages(f, raw, w, h, p + 1)
        case None => None
        case Some(rest) => Some([[]] + rest)
      else
        match RawImage(f, raw, x, y)
        case None => None
        case Some(image) =>
          assert DataLength(f, x, y) <= |raw|;
          match PassImages(f, raw[DataLength(f, x, y)..], w, h, p + 1)
          case None => None
          case Some(rest) => Some([image] + rest)
  }

  function PixelAt(s: Samples, n: nat, k: nat): Pixel {
    if Mul(k, n) + n <= |s| then s[Mul(k, n)..Mul(k, n) + n] else []
  }

  /** The pixel that the passes hold for a place. */
  function Wanted(f: Format, images: seq<Samples>, w: nat, x: nat, y: nat): Pixel
    requires |images| == 7
  {
    var p := PassOf(x, y);
    PixelAt(images[p], f.OutN(), Mul(FromY(x, y), PassWidth(w, p)) + FromX(x, y))
  }

  function Index(w: nat, x: nat, y: nat): nat {
    Mul(y, w) + x
  }

  lemma IndexInside(w: nat, h: nat, x: nat, y: nat)
    requires x < w && y < h
    ensures Index(w, x, y) < Mul(h, w)
  {
    MulRoom(y, h, w);
  }

  lemma IndexInjective(w: nat, x: nat, y: nat, x': nat, y': nat)
    requires x < w && x' < w && Index(w, x, y) == Index(w, x', y')
    ensures x == x' && y == y'
  {
    DivModIs(w, Index(w, x, y), y, x);
    DivModIs(w, Index(w, x', y'), y', x');
  }

  /** What has been written before pixel `(i, j)` of pass `p`. */
  predicate Earlier(p: nat, i: nat, j: nat, x: nat, y: nat) {
    PassOf(x, y) < p || (PassOf(x, y) == p && (FromY(x, y) < j || (FromY(x, y) == j && FromX(x, y) < i)))
  }

  ghost predicate Placed(f: Format, images: seq<Samples>, final: seq<Pixel>, w: nat, h: nat, p: nat, i: nat, j: nat)
    requires |images| == 7
  {
    |final| == Mul(h, w) && forall x, y :: 0 <= x < w && 0 <= y < h && Earlier(p, i, j, x, y) ==>
        Index(w, x, y) < |final| && final[Index(w, x, y)] == Wanted(f, images, w, x, y)
  }

  /** Every place holds its pixel. */
  ghost predicate Complete(f: Format, images: seq<Samples>, final: seq<Pixel>, w: nat, h: nat)
    requires |images| == 7
  {
    |final| == Mul(h, w) && forall x, y :: 0 <= x < w && 0 <= y < h ==>
        Index(w, x, y) < |final| && final[Index(w, x, y)] == Wanted(f, images, w, x, y)
  }

  lemma PlaceOne(f: Format, images: seq<Samples>, final: seq<Pixel>, w: nat, h: nat, p: nat, i: nat, j: nat, v: Pixel)
    requires |images| == 7 && p < 7 && i < PassWidth(w, p) && j < PassHeight(h, p)
    requires Placed(f, images, final, w, h, p, i, j)
    requires v == PixelAt(images[p], f.OutN(), Mul(j, PassWidth(w, p)) + i)
    ensures Index(w, OutX(p, i), OutY(p, j)) < |final|
    ensures Placed(f, images, final[Index(w, OutX(p, i), OutY(p, j)) := v], w, h, p, i + 1, j)
  {
    hide PassOf, FromX, FromY, OutX, OutY, PassWidth, PassHeight, Index, PixelAt, Mul;
    Inside(w, h, p, i, j);
    var x0, y0 := OutX(p, i), OutY(p, j);
    IndexInside(w, h, x0, y0);
    var final' := final[Index(w, x0, y0) := v];
    forall x, y | 0 <= x < w && 0 <= y < h && Earlier(p, i + 1, j, x, y)
      ensures Index(w, x, y) < |final'| && final'[Index(w, x, y)] == Wanted(f, images, w, x, y)
    {
      IndexInside(w, h, x, y);
      EachPixelOnce(w, h, x, y);
      if Index(w, x, y) == Index(w, x0, y0) {
        IndexInjective(w, x, y, x0, y0);
      }
    }
  }

  lemma NextRow(f: Format, images: seq<Samples>, final: seq<Pixel>, w: nat, h: nat, p: nat, j: nat)
    requires |images| == 7 && p < 7 && Placed(f, images, final, w, h, p, PassWidth(w, p), j)
    ensures Placed(f, images, final, w, h, p, 0, j + 1)
  {
    hide PassOf, FromX, FromY, PassWidth, PassHeight, Index, Mul, Wanted;
    forall x, y | 0 <= x < w && 0 <= y < h && Earlier(p, 0, j + 1, x, y)
      ensures Earlier(p, PassWidth(w, p), j, x, y)
    {
      EachPixelOnce(w, h, x, y);
    }
  }

  lemma NextPass(f: Format, images: seq<Samples>, final: seq<Pixel>, w: nat, h: nat, p: nat, j: nat)
    requires |images| == 7 && p < 7 && Placed(f, images, final, w, h, p, 0, j)
    requires j == PassHeight(h, p) || PassWidth(w, p) == 0 || PassHeight(h, p) == 0
    ensures Placed(f, images, final, w, h, p + 1, 0, 0)
  {
    hide PassOf, FromX, FromY, PassWidth, PassHeight, Index, Mul, Wanted;
    forall x, y | 0 <= x < w && 0 <= y < h && Earlier(p + 1, 0, 0, x, y)
      ensures Earlier(p, 0, j, x, y)
    {
      EachPixelOnce(w, h, x, y);
    }
  }

  lemma NothingPlaced(f: Format, images: seq<Samples>, final: seq<Pixel>, w: nat, h: nat)
    requires |images| == 7 && |final| == Mul(h, w)
    ensures Placed(f, images, final, w, h, 0, 0, 0)
  {
  }

  lemma AllPlaced(f: Format, images: seq<Samples>, final: seq<Pixel>, w: nat, h: nat)
    requires |images| == 7 && Placed(f, images, final, w, h, 7, 0, 0)
    ensures Complete(f, images, final, w, h)
  {
    hide FromX, FromY, PassWidth, PassHeight, Index, Mul, Wanted;
    forall x, y | 0 <= x < w && 0 <= y < h
      ensures Earlier(7, 0, 0, x, y)
    {
    }
  }

  /** The two loops over the pixels of a pass. */
  method Spread(f: Format, image: Samples, final: array<Pixel>, w: nat, h: nat, p: nat, ghost images: seq<Samples>)
    requires |images| == 7 && p < 7 && image == images[p] && Placed(f, images, final[..], w, h, p, 0, 0)
    modifies final
    ensures Placed(f, images, final[..], w, h, p, 0, PassHeight(h, p))
  {
    hide Placed, PassWidth, PassHeight, Index, OutX, OutY, PixelAt, Mul;
    var cols, rows := PassWidth(w, p), PassHeight(h, p);
    for j := 0 to rows
      invariant Placed(f, images, final[..], w, h, p, 0, j)
    {
      for i := 0 to cols
        invariant Placed(f, images, final[..], w, h, p, i, j)
      {
        var pixel := PixelAt(image, f.OutN(), Mul(j, cols) + i);
        PlaceOne(f, images, final[..], w, h, p, i, j, pixel);
        final[Index(w, OutX(p, i), OutY(p, j))] := pixel;
      }
      NextRow(f, images, final[..], w, h, p, j);
    }
  }

  lemma SetImage(f: Format, images: seq<Samples>, final: seq<Pixel>, w: nat, h: nat, p: nat, image: Samples)
    requires |images| == 7 && p < 7 && Placed(f, images, final, w, h, p, 0, 0)
    ensures Placed(f, images[p := image], final, w, h, p, 0, 0)
  {
    hide PassOf, FromX, FromY, PassWidth, PassHeight, Index, PixelAt, Mul;
  }

  /** The result, when the images of the first passes are known. */
  function With(images: seq<Samples>, r: Option<seq<Samples>>): Option<seq<Samples>> {
    match r
    case None => None
    case Some(rest) => Some(images + rest)
  }

  /** `stbi__create_png_image` for an interlaced image. */
  method Deinterlace(f: Format, raw: seq<Byte>, w: nat, h: nat) returns (final: Option<seq<Pixel>>)
    requires f.Valid()
    ensures match PassImages(f, raw, w, h, 0)
            case None => final == None
            case Some(images) => final.Some? && Complete(f, images, final.value, w, h)
  {
    hide Placed, Complete, PassWidth, PassHeight, RawImage, DataLength, Mul, PassImages;
    var whole := new Pixel[Mul(h, w)](_ => []);
    ghost var images: seq<Samples> := [[], [], [], [], [], [], []];
    NothingPlaced(f, images, whole[..], w, h);
    var data, p: nat := raw, 0;
    NoPasses(f, raw, w, h, images);
    while p < 7
      invariant p <= 7 && |images| == 7 && Placed(f, images, whole[..], w, h, p, 0, 0)
      invariant PassImages(f, raw, w, h, 0) == With(images[..p], PassImages(f, data, w, h, p))
    {
      var x, y := PassWidth(w, p), PassHeight(h, p);
      ghost var was := images;
      PassStep(f, data, w, h, p);
      if x != 0 && y != 0 {
        var image := CreateImageRaw(f, data, x, y);
        if image == None {
          return None;
        }
        SetImage(f, images, whole[..], w, h, p, image.value);
        images := images[p := image.value];
        Spread(f, image.value, whole, w, h, p, images);
        data := data[DataLength(f, x, y)..];
      } else {
        SetImage(f, images, whole[..], w, h, p, []);
        images := images[p := []];
      }
      assert images[..p + 1] == was[..p] + [images[p]];
      WithMore(was[..p], images[p], PassImages(f, data, w, h, p + 1));
      NextPass(f, images, whole[..], w, h, p, if x != 0 && y != 0 then y else 0);
      p := p + 1;
    }
    NoMorePasses(f, data, w, h, images);
    AllPlaced(f, images, whole[..], w, h);
    final := Some(whole[..]);
  }

  lemma NoPasses(f: Format, raw: seq<Byte>, w: nat, h: nat, images: seq<Samples>)
    requires f.Valid()
    ensures PassImages(f, raw, w, h, 0) == With(images[..0], PassImages(f, raw, w, h, 0))
  {
    hide PassImages;
    var r := PassImages(f, raw, w, h, 0);
    if r.Some? {
      assert images[..0] + r.value == r.value;
    }
  }

  lemma NoMorePasses(f: Format, data: seq<Byte>, w: nat, h: nat, images: seq<Samples>)
    requires f.Valid() && |images| == 7
    ensures With(images[..7], PassImages(f, data, w, h, 7)) == Some(images)
  {
    assert images[..7] + [] == images;
  }

  lemma PassStep(f: Format, data: seq<Byte>, w: nat, h: nat, p: nat)
    requires f.Valid() && p < 7
    ensures var x, y := PassWidth(w, p), PassHeight(h, p);
            PassImages(f, data, w, h, p) ==
              if x == 0 || y == 0 then With([[]], PassImages(f, data, w, h, p + 1))
              else match RawImage(f, data, x, y)
                   case None => None
                   case Some(image) => With([image], PassImages(f, data[DataLength(f, x, y)..], w, h, p + 1))
    ensures PassWidth(w, p) > 0 && PassHeight(h, p) > 0 &&
            RawImage(f, data, PassWidth(w, p), PassHeight(h, p)).Some? ==>
            DataLength(f, PassWidth(w, p), PassHeight(h, p)) <= |data|
  {
    hide PassWidth, PassHeight, SizesOk, Joined, GoodFilters, Decode, Filters, Zeros, Mul;
  }

  lemma WithMore(a: seq<Samples>, b: Samples, r: Option<seq<Samples>>)
    ensures With(a, With([b], r)) == With(a + [b], r)
  {
    if r.Some? {
      assert a + ([b] + r.value) == a + [b] + r.value;
    }
  }

  // ---------- there and back ----------

  /** The images are the seven reductions of one picture. */
  ghost predicate Reduces(images: seq<Samples>, n: nat, picture: seq<Pixel>, w: nat, h: nat) {
    && |images| == 7 && |picture| == Mul(h, w)
    && forall p: nat, i: nat, j: nat ::
         p < 7 && i < PassWidth(w, p) && j < PassHeight(h, p) && Index(w, OutX(p, i), OutY(p, j)) < |picture| ==>
         PixelAt(images[p], n, Mul(j, PassWidth(w, p)) + i) == picture[Index(w, OutX(p, i), OutY(p, j))]
  }

  lemma AnyIndex(w: nat, h: nat, k: nat)
    requires k < Mul(h, w)
    ensures w > 0 && k % w < w && k / w < h && Index(w, k % w, k / w) == k
  {
    if w > 0 {
      var y := k / w;
      assert k == w * y + k % w;
      if y >= h {
        MulMonotone(w, h, y);
      }
    }
  }

  /** A picture reduced and put together again is the same picture. */
  lemma PictureRoundTrip(f: Format, images: seq<Samples>, picture: seq<Pixel>, final: seq<Pixel>, w: nat, h: nat)
    requires Reduces(images, f.OutN(), picture, w, h) && Complete(f, images, final, w, h)
    ensures final == picture
  {
    hide PassOf, FromX, FromY, OutX, OutY, PassWidth, PassHeight, Index, PixelAt, Mul;
    forall k | 0 <= k < |final|
      ensures final[k] == picture[k]
    {
      AnyIndex(w, h, k);
      var x, y := k % w, k / w;
      EachPixelOnce(w, h, x, y);
      assert final[Index(w, x, y)] == Wanted(f, images, w, x, y);
    }
  }

  /** The data of passes `p` to 6, filtered. */
  function Interlaced(f: Format, filters: seq<seq<Byte>>, rows: seq<seq<Row>>, w: nat, h: nat, p: nat): seq<Byte>
    requires f.Valid() && p <= 7 && PassRows(f, filters, rows, w, h)
    decreases 7 - p
  {
    if p == 7 then []
    else
      var x, y := PassWidth(w, p), PassHeight(h, p);
      if x == 0 || y == 0 then Interlaced(f, filters, rows, w, h, p + 1)
      else
        Encode(filters[p], rows[p], Zeros(f.RowBytes(x)), f.FilterBytes()) +
        Interlaced(f, filters, rows, w, h, p + 1)
  }

  /** Rows of the right sizes for every pass that has any. */
  predicate PassRows(f: Format, filters: seq<seq<Byte>>, rows: seq<seq<Row>>, w: nat, h: nat) {
    && |filters| == |rows| == 7
    && forall p :: 0 <= p < 7 ==> (|filters[p]| == |rows[p]| == PassHeight(h, p) && GoodFilters(filters[p])
         && (forall j :: 0 <= j < |rows[p]| ==> |rows[p][j]| == f.RowBytes(PassWidth(w, p)))
         && SizesOk(f, PassWidth(w, p), PassHeight(h, p)))
  }

  /** What the rows of passes `p` to 6 hold. */
  function RowImages(f: Format, rows: seq<seq<Row>>, w: nat, h: nat, p: nat): (r: seq<Samples>)
    requires p <= 7 && |rows| == 7
    ensures |r| == 7 - p
    decreases 7 - p
  {
    if p == 7 then []
    else
      [if PassWidth(w, p) == 0 || PassHeight(h, p) == 0 then [] else Joined(f, rows[p], PassWidth(w, p))] +
      RowImages(f, rows, w, h, p + 1)
  }

  /** The passes are found one behind the other, whatever filters were chosen. */
  lemma {:induction false} InterlacedData(f: Format, filters: seq<seq<Byte>>, rows: seq<seq<Row>>, w: nat, h: nat,
      p: nat)
    requires f.Valid() && p <= 7 && PassRows(f, filters, rows, w, h)
    ensures PassImages(f, Interlaced(f, filters, rows, w, h, p), w, h, p) == Some(RowImages(f, rows, w, h, p))
    decreases 7 - p
  {
    hide PassWidth, PassHeight, SizesOk, Joined, RawImage, Encode, Zeros, Mul;
    if p < 7 {
      var x, y := PassWidth(w, p), PassHeight(h, p);
      InterlacedData(f, filters, rows, w, h, p + 1);
      if x > 0 && y > 0 {
        var rest := Interlaced(f, filters, rows, w, h, p + 1);
        var first := Encode(filters[p], rows[p], Zeros(f.RowBytes(x)), f.FilterBytes());
        EncodedImage(f, filters[p], rows[p], x, rest);
        EncodedLength(filters[p], rows[p], Zeros(f.RowBytes(x)), f.FilterBytes());
        assert (first + rest)[DataLength(f, x, y)..] == rest;
      }
    }
  }
}
