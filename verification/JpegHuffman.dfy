/**
 The Huffman decoder for JPEG data (external/stb_image.h, `stbi__build_huffman` and
 `stbi__jpeg_huff_decode`; Annex C and section F.2.2.3 of ITU-T T.81).
 */
module JpegHuffman {
  import opened Bits
  import opened Canonical
  import opened CanonicalSearch
  import opened HuffmanTable
  import opened JpegBits
  import opened TrieSize
  import opened Wrappers

  const FAST_BITS := 9
  const FAST_SIZE := 512
  const NOT_FAST := 255

  // ---------- the size list ----------

  /** The lengths of the codes, in the order of the symbols. */
  function Sizes(count: seq<nat>, l: nat): Lens
    requires l <= |count|
  {
    if l == 0 then [] else Sizes(count, l - 1) + Repeated(l, count[l - 1])
  }

  ghost predicate Ordered(lens: Lens) {
    (forall i :: 0 <= i < |lens| ==> 1 <= lens[i] <= 16) && forall i, j :: 0 <= i < j < |lens| ==> lens[i] <= lens[j]
  }

  lemma {:induction false} SizesOrdered(count: seq<nat>, l: nat)
    requires l <= |count| && l <= 16
    ensures Ordered(Sizes(count, l)) && forall i :: 0 <= i < |Sizes(count, l)| ==> Sizes(count, l)[i] <= l
  {
    if l > 0 {
      SizesOrdered(count, l - 1);
      var r := Repeated(l, count[l - 1]);
      assert forall i :: 0 <= i < |r| ==> r[i] == l;
    }
  }

  lemma {:induction false} CountUpToPrefix(lens: Lens, i: nat, m: nat)
    requires i <= |lens| && forall j :: i <= j < |lens| ==> lens[j] > m
    ensures CountUpTo(lens[..i], m) == CountUpTo(lens, m)
    decreases |lens|
  {
    if i < |lens| {
      CountUpToLast(lens, m);
      assert lens[..|lens| - 1][..i] == lens[..i];
      CountUpToPrefix(lens[..|lens| - 1], i, m);
    } else {
      assert lens[..i] == lens;
    }
  }

  lemma {:induction false} CountPart(lens: Lens, i: nat, l: nat)
    requires i <= |lens| && Ordered(lens) && i < |lens| && lens[i] == l
    ensures CountUpTo(lens[..i], l) == i && CountUpTo(lens[..i], l - 1) == CountUpTo(lens, l - 1)
  {
    CountUpToAll(lens[..i], l);
    First0(lens, i, l - 1);
  }

  /** All codes of up to `m` bits come before the first longer one. */
  lemma {:induction false} First0(lens: Lens, i: nat, m: nat)
    requires Ordered(lens) && i < |lens| && m < lens[i]
    ensures CountUpTo(lens[..i], m) == CountUpTo(lens, m)
  {
    CountUpToPrefix(lens, i, m);
  }

  /** In an ordered list every symbol is at its own place. */
  lemma RankOrdered(lens: Lens, i: nat)
    requires Ordered(lens) && i < |lens|
    ensures Used(lens, i) && Rank(lens, i) == i
  {
    CountPart(lens, i, lens[i]);
  }

  /** Which places have which length. */
  lemma LengthAt(lens: Lens, k: nat, l: nat)
    requires Ordered(lens) && 1 <= l <= 16 && CountUpTo(lens, l - 1) <= k
    ensures k < |lens| && lens[k] == l <==> k < CountUpTo(lens, l)
  {
    if k < |lens| {
      RankOrdered(lens, k);
      RankInRange(lens, k);
      if lens[k] < l {
        UpToMonotone(lens, lens[k], l - 1);
      } else if lens[k] > l {
        UpToMonotone(lens, l, lens[k] - 1);
      }
    } else {
      UpToBound(lens, l);
    }
  }

  // ---------- the tables ----------

  /** The nine bits `p` begin with the code of symbol `i`. */
  ghost predicate Hits(lens: Lens, i: nat, p: nat) {
    Used(lens, i) && lens[i] <= FAST_BITS && Shr(p, FAST_BITS - lens[i]) == Code(lens, i)
  }

  lemma HitsStarts(lens: Lens, i: nat, p: nat)
    requires Fits(lens, 16) && p < FAST_SIZE
    ensures Hits(lens, i, p) <==> Starts(lens, i, MsbBits(p, FAST_BITS))
  {
    hide Fits, MsbBits, MsbVal, Code, Shr, CodeBits, Pow2;
    var b := MsbBits(p, FAST_BITS);
    Pow2Values();
    MsbValBits(p, FAST_BITS);
    assert b[..FAST_BITS] == b;
    if Used(lens, i) && lens[i] <= FAST_BITS {
      FrontShr(b, lens[i], FAST_BITS - lens[i]);
      StartsFront(lens, 16, i, b);
    } else if Used(lens, i) {
      assert |CodeBits(lens, i)| > |b|;
    }
  }

  lemma HitsUnique(lens: Lens, i: nat, j: nat, p: nat)
    requires Fits(lens, 16) && p < FAST_SIZE && Hits(lens, i, p) && Hits(lens, j, p)
    ensures i == j
  {
    HitsStarts(lens, i, p);
    HitsStarts(lens, j, p);
    StartsUnique(lens, 16, i, j, MsbBits(p, FAST_BITS));
  }

  ghost predicate FastEntry(lens: Lens, n: nat, p: nat, v: nat) {
    && (forall i: nat :: i < n && Hits(lens, i, p) ==> v == i)
    && ((forall i: nat :: i < n ==> !Hits(lens, i, p)) ==> v == NOT_FAST)
  }

  ghost predicate FastFor(fast: seq<nat>, lens: Lens, n: nat) {
    |fast| == FAST_SIZE && forall p :: 0 <= p < FAST_SIZE ==> FastEntry(lens, n, p, fast[p])
  }

  ghost predicate CodesFor(code: seq<nat>, lens: Lens, n: nat) {
    n <= |lens| <= |code| && forall i :: 0 <= i < n ==> Used(lens, i) && code[i] == Code(lens, i)
  }

  ghost predicate LevelsFor(maxCode: seq<nat>, delta: seq<int>, lens: Lens, n: nat) {
    && |maxCode| == 18 && |delta| == 17
    && forall l :: 1 <= l < n && l <= 16 ==>
       maxCode[l] == Shl(End(lens, l), 16 - l) && delta[l] == CountUpTo(lens, l - 1) - First(lens, l)
  }

  /** The tables of the code with the given lengths. */
  ghost predicate TablesFor(fast: seq<nat>, size: seq<nat>, maxCode: seq<nat>, delta: seq<int>, lens: Lens) {
    && Fits(lens, 16) && Ordered(lens) && |lens| <= 256 && |size| == 257 && size[..|lens|] == lens
    && LevelsFor(maxCode, delta, lens, 17) && maxCode[17] == 0xFFFFFFFF && FastFor(fast, lens, |lens|)
  }

  class Huffman {
    const fast: array<nat>
    const code: array<nat>
    const size: array<nat>
    const maxCode: array<nat>
    const delta: array<int>

    ghost predicate Shape() {
      && fast.Length == FAST_SIZE && code.Length == 256 && size.Length == 257 && maxCode.Length == 18 &&
         delta.Length == 17
      && fast != code && fast != size && fast != maxCode && code != size && code != maxCode && size != maxCode
      && (delta as object) !in {fast, code, size, maxCode}
    }

    ghost function Arrays(): set<object> {
      {fast as object, code as object, size as object, maxCode as object, delta as object}
    }

    ghost predicate For(lens: Lens)
      reads fast, size, maxCode, delta
    {
      Shape() && TablesFor(fast[..], size[..], maxCode[..], delta[..], lens)
    }

    constructor ()
      ensures Shape() && fresh(Arrays())
    {
      fast := new nat[FAST_SIZE](_ => 0);
      code := new nat[256](_ => 0);
      size := new nat[257](_ => 0);
      maxCode := new nat[18](_ => 0);
      delta := new int[17](_ => 0);
    }

    /** `stbi__build_huffman` */
    method Build(count: seq<nat>) returns (ok: bool)
      requires Shape() && |count| == 16
      modifies Arrays()
      ensures ok <==> |Sizes(count, 16)| <= 256 && Fits(Sizes(count, 16), 16)
      ensures ok ==> For(Sizes(count, 16))
    {
      hide Fits, Ordered, Sizes, CodesFor, LevelsFor, FastFor;
      ghost var lens := Sizes(count, 16);
      SizesOrdered(count, 16);
      ok := SizeList(count);
      if !ok {
        return;
      }
      var k;
      ok, k := Codes(lens);
      if !ok {
        return;
      }
      Sentinel(maxCode[..], delta[..], lens);
      maxCode[17] := 0xFFFFFFFF;
      FillFast(k, lens);
    }

    /** The size list, ended by a 0. */
    method SizeList(count: seq<nat>) returns (ok: bool)
      requires Shape() && |count| == 16
      modifies size
      ensures ok <==> |Sizes(count, 16)| <= 256
      ensures ok ==> size[..|Sizes(count, 16)|] == Sizes(count, 16) && size[|Sizes(count, 16)|] == 0
    {
      hide Sizes;
      var k: nat := 0;
      SizesNone(count);
      for i := 0 to 16
        invariant k <= 256 && size[..k] == Sizes(count, i)
      {
        SizesNext(count, i);
        ghost var base := Sizes(count, i);
        for j := 0 to count[i]
          invariant k <= 256 && size[..k] == base + Repeated(i + 1, j)
        {
          size[k] := i + 1;
          k := k + 1;
          assert size[..k] == size[..k - 1] + [i + 1];
          assert Repeated(i + 1, j + 1) == Repeated(i + 1, j) + [i + 1];
          if k >= 257 {
            TooLong(count, i, base, j + 1);
            return false;
          }
        }
      }
      ghost var was := size[..];
      size[k] := 0;
      assert size[..k] == was[..k];
      ok := true;
    }

    /** The codes, and the offsets and bounds of every length. */
    method Codes(ghost lens: Lens) returns (ok: bool, k: nat)
      requires Shape() && Ordered(lens) && |lens| <= 256 && size[..|lens|] == lens && size[|lens|] == 0
      modifies code, maxCode, delta
      ensures ok <==> Fits(lens, 16)
      ensures ok ==> k == |lens| && CodesFor(code[..], lens, |lens|) && LevelsFor(maxCode[..], delta[..], lens, 17)
    {
      hide Fits, Ordered, CodesFor, LevelsFor, End, First, CountUpTo, Count, Pow2, Shl;
      var c: nat := 0;
      k := 0;
      StartCodes(code[..], maxCode[..], delta[..], lens);
      for j := 1 to 17
        invariant c == First(lens, j) && k == CountUpTo(lens, j - 1) <= |lens|
        invariant (j > 1 ==> End(lens, j - 1) <= Pow2(j - 1))
        invariant CodesFor(code[..], lens, k) && LevelsFor(maxCode[..], delta[..], lens, j)
      {
        Level(lens, j);
        DeltaFree(maxCode[..], delta[..], lens, j, k - c);
        delta[j] := k - c;
        ghost var k0 := k;
        LengthAt(lens, k, j);
        SizeAt(size[..], lens, k);
        if size[k] == j {
          c, k := SameLength(lens, j, c, k);
          if c - 1 >= Pow2(j) {
            TooFull(lens, j, 16);
            return false, k;
          }
        }
        LevelMore(maxCode[..], delta[..], lens, j, k0 - First(lens, j));
        maxCode[j] := Shl(c, 16 - j);
        c := 2 * c;
      }
      AllCodes(lens);
      ok := true;
    }

    /** `while (h->size[k] == j)` */
    method SameLength(ghost lens: Lens, j: nat, c0: nat, k0: nat) returns (c: nat, k: nat)
      requires Shape() && Ordered(lens) && |lens| <= 256 && size[..|lens|] == lens && size[|lens|] == 0 && 1 <= j <= 16
      requires c0 == First(lens, j) && k0 == CountUpTo(lens, j - 1) <= |lens| && CodesFor(code[..], lens, k0)
      modifies code
      ensures c == End(lens, j) && k == CountUpTo(lens, j) <= |lens| && CodesFor(code[..], lens, k)
    {
      hide Ordered, CodesFor, First, Count, CountUpTo, End;
      c, k := c0, k0;
      Level(lens, j);
      UpToBound(lens, j);
      LengthAt(lens, k, j);
      SizeAt(size[..], lens, k);
      while size[k] == j
        invariant k0 <= k <= CountUpTo(lens, j) && c == First(lens, j) + (k - k0) && CodesFor(code[..], lens, k)
        invariant size[k] == j <==> k < CountUpTo(lens, j)
        decreases CountUpTo(lens, j) - k
      {
        LengthAt(lens, k, j);
        OneCode(code[..], lens, k, j);
        code[k] := c;
        c, k := c + 1, k + 1;
        LengthAt(lens, k, j);
        SizeAt(size[..], lens, k);
      }
    }

    /** The acceleration table. */
    method FillFast(k: nat, ghost lens: Lens)
      requires Shape() && Fits(lens, 16) && Ordered(lens) && k == |lens| <= 256 && size[..|lens|] == lens
      requires CodesFor(code[..], lens, |lens|)
      modifies fast
      ensures FastFor(fast[..], lens, |lens|)
    {
      hide Fits, Ordered, FastFor, CodesFor, Code, Pow2, Shl, Shr;
      forall p | 0 <= p < fast.Length {
        fast[p] := NOT_FAST;
      }
      assert code[..] == old(code[..]);
      NothingFast(fast[..], lens);
      for i := 0 to k
        invariant FastFor(fast[..], lens, i) && code[..] == old(code[..])
      {
        var s := size[i];
        assert s == size[..|lens|][i] == lens[i];
        CodeOf(code[..], lens, i);
        if s <= FAST_BITS {
          FillOne(i, s, code[i], lens);
        } else {
          Slow(fast[..], lens, i);
        }
      }
    }

    method FillOne(i: nat, s: nat, codeOf: nat, ghost lens: Lens)
      requires Shape() && Fits(lens, 16) && i < |lens| && lens[i] == s && 0 < s <= FAST_BITS
      requires codeOf == Code(lens, i) && codeOf < Pow2(s)
      requires FastFor(fast[..], lens, i)
      modifies fast
      ensures FastFor(fast[..], lens, i + 1)
    {
      hide Fits, FastFor, Code, Pow2, Shl, Shr;
      var c, m := Shl(codeOf, FAST_BITS - s), Pow2(FAST_BITS - s);
      ghost var was := fast[..];
      InTable(codeOf, s);
      FastSize(was, lens, i);
      for j := 0 to m
        invariant fast.Length == FAST_SIZE && forall p :: 0 <= p < FAST_SIZE ==>
                  fast[p] == if c <= p < c + j then i else was[p]
      {
        fast[c + j] := i;
      }
      Filled(was, fast[..], lens, i, c, m);
    }
  }

  lemma SizesNone(count: seq<nat>)
    ensures Sizes(count, 0) == []
  {
  }

  lemma SizesNext(count: seq<nat>, i: nat)
    requires i < |count|
    ensures Sizes(count, i + 1) == Sizes(count, i) + Repeated(i + 1, count[i])
  {
  }

  lemma {:induction false} SizesGrow(count: seq<nat>, i: nat, l: nat)
    requires i <= l <= |count|
    ensures |Sizes(count, i)| <= |Sizes(count, l)|
    decreases l
  {
    if i < l {
      SizesGrow(count, i, l - 1);
    }
  }

  lemma TooLong(count: seq<nat>, i: nat, base: Lens, j: nat)
    requires |count| == 16 && i < 16 && base == Sizes(count, i) && j <= count[i] && |base + Repeated(i + 1, j)| >= 257
    ensures |Sizes(count, 16)| > 256
  {
    hide Sizes;
    SizesNext(count, i);
    SizesGrow(count, i + 1, 16);
  }

  lemma Sentinel(maxCode: seq<nat>, delta: seq<int>, lens: Lens)
    requires LevelsFor(maxCode, delta, lens, 17)
    ensures |maxCode| == 18 && LevelsFor(maxCode[17 := 0xFFFFFFFF], delta, lens, 17)
  {
  }

  lemma StartCodes(code: seq<nat>, maxCode: seq<nat>, delta: seq<int>, lens: Lens)
    requires |code| == 256 && |lens| <= 256 && |maxCode| == 18 && |delta| == 17
    ensures CodesFor(code, lens, 0) && LevelsFor(maxCode, delta, lens, 1) && First(lens, 1) == 0
    ensures CountUpTo(lens, 0) == 0
  {
  }

  lemma DeltaFree(maxCode: seq<nat>, delta: seq<int>, lens: Lens, j: nat, d: int)
    requires 1 <= j <= 16 && LevelsFor(maxCode, delta, lens, j)
    ensures |delta| == 17 && LevelsFor(maxCode, delta[j := d], lens, j)
  {
  }

  lemma LevelMore(maxCode: seq<nat>, delta: seq<int>, lens: Lens, j: nat, d: int)
    requires 1 <= j <= 16 && |maxCode| == 18 && |delta| == 17
    requires delta[j] == d == CountUpTo(lens, j - 1) - First(lens, j) && LevelsFor(maxCode, delta, lens, j)
    ensures LevelsFor(maxCode[j := Shl(End(lens, j), 16 - j)], delta, lens, j + 1)
  {
    hide Shl, End, First, CountUpTo;
  }

  lemma SizeAt(size: seq<nat>, lens: Lens, k: nat)
    requires |lens| <= 256 && |size| == 257 && size[..|lens|] == lens && size[|lens|] == 0 && k <= |lens|
    ensures size[k] == if k < |lens| then lens[k] else 0
  {
  }

  lemma OneCode(code: seq<nat>, lens: Lens, k: nat, j: nat)
    requires Ordered(lens) && CodesFor(code, lens, k) && k < |lens| && lens[k] == j
    ensures k >= CountUpTo(lens, j - 1)
    ensures CodesFor(code[k := First(lens, j) + (k - CountUpTo(lens, j - 1))], lens, k + 1)
  {
    RankOrdered(lens, k);
    RankOfCode(lens, k);
    RankInRange(lens, k);
    hide Code, Rank, First, CountUpTo;
  }

  lemma AllCodes(lens: Lens)
    requires Ordered(lens) && End(lens, 16) <= Pow2(16)
    ensures Fits(lens, 16) && CountUpTo(lens, 16) == |lens|
  {
    hide End, Pow2;
    CountUpToAll(lens, 16);
  }

  lemma NothingFast(fast: seq<nat>, lens: Lens)
    requires |fast| == FAST_SIZE && forall p :: 0 <= p < FAST_SIZE ==> fast[p] == NOT_FAST
    ensures FastFor(fast, lens, 0)
  {
  }

  lemma CodeOf(code: seq<nat>, lens: Lens, i: nat)
    requires Fits(lens, 16) && CodesFor(code, lens, |lens|) && i < |lens|
    ensures i < |code| && Used(lens, i) && code[i] == Code(lens, i) < Pow2(lens[i])
  {
    CodeFits(lens, i, 16);
  }

  lemma Slow(fast: seq<nat>, lens: Lens, i: nat)
    requires FastFor(fast, lens, i) && i < |lens| && lens[i] > FAST_BITS
    ensures FastFor(fast, lens, i + 1)
  {
    forall p | 0 <= p < FAST_SIZE
      ensures FastEntry(lens, i + 1, p, fast[p])
    {
      assert FastEntry(lens, i, p, fast[p]);
    }
  }

  lemma InTable(code: nat, s: nat)
    requires s <= FAST_BITS && code < Pow2(s)
    ensures Shl(code, FAST_BITS - s) + Pow2(FAST_BITS - s) <= FAST_SIZE
  {
    Pow2Values();
    Pow2Add(FAST_BITS - s, s);
    hide Pow2;
    MulMonotone(Pow2(FAST_BITS - s), code + 1, Pow2(s));
  }

  lemma FastSize(fast: seq<nat>, lens: Lens, n: nat)
    requires FastFor(fast, lens, n)
    ensures |fast| == FAST_SIZE
  {
  }

  /** A run of places stands for a code just when their first bits are the code. */
  lemma InRun(p: nat, code: nat, t: nat)
    ensures Shl(code, t) <= p < Shl(code, t) + Pow2(t) <==> Shr(p, t) == code
  {
    LowShr(p, t);
    RunAt(p, Low(p, t), Pow2(t), Shr(p, t), code);
  }

  lemma RunAt(p: nat, r: nat, q: nat, f: nat, code: nat)
    requires p == r + q * f && r < q
    ensures q * code <= p < q * code + q <==> f == code
  {
    if f < code {
      MulMonotone(q, f + 1, code);
    } else if f > code {
      MulMonotone(q, code + 1, f);
    }
  }

  lemma Filled(was: seq<nat>, fast: seq<nat>, lens: Lens, i: nat, c: nat, m: nat)
    requires Fits(lens, 16) && i < |lens| && 0 < lens[i] <= FAST_BITS && FastFor(was, lens, i)
    requires c == Shl(Code(lens, i), FAST_BITS - lens[i]) && m == Pow2(FAST_BITS - lens[i])
    requires |fast| == |was| == FAST_SIZE && forall p :: 0 <= p < FAST_SIZE ==>
             fast[p] == if c <= p < c + m then i else was[p]
    ensures FastFor(fast, lens, i + 1)
  {
    hide Fits, Code, Shr, Shl, Pow2;
    forall p | 0 <= p < FAST_SIZE
      ensures FastEntry(lens, i + 1, p, fast[p])
    {
      InRun(p, Code(lens, i), FAST_BITS - lens[i]);
      assert FastEntry(lens, i, p, was[p]);
      if Hits(lens, i, p) {
        forall j: nat | j < i + 1 && Hits(lens, j, p)
          ensures j == i
        {
          HitsUnique(lens, i, j, p);
        }
      }
    }
  }

  // ---------- decoding ----------

  /** The tables have the right sizes. */
  predicate Sized(fast: seq<nat>, size: seq<nat>, maxCode: seq<nat>, delta: seq<int>) {
    |fast| == FAST_SIZE && |size| == 257 && |maxCode| == 18 && |delta| == 17
  }

  /** The search by length: a symbol and the length of its code. */
  function Search(maxCode: seq<nat>, delta: seq<int>, cb: Word, k: nat): Option<(nat, nat)>
    requires |maxCode| == 18 && |delta| == 17 && 10 <= k <= 17
    decreases 17 - k
  {
    if k == 17 then None
    else if Top(cb, 16) < maxCode[k] then
      var c := Top(cb, k) + delta[k];
      if c < 0 || c >= 256 then None else Some((c, k))
    else Search(maxCode, delta, cb, k + 1)
  }

  /** What the tables find at the front of the buffer. */
  function Decoded(fast: seq<nat>, size: seq<nat>, maxCode: seq<nat>, delta: seq<int>, cb: Word): Option<(nat, nat)>
    requires Sized(fast, size, maxCode, delta)
  {
    FastIndex(cb);
    var k := fast[Top(cb, FAST_BITS)];
    if k < NOT_FAST then Some((k, size[k])) else Search(maxCode, delta, cb, FAST_BITS + 1)
  }

  lemma FastIndex(cb: Word)
    ensures Top(cb, FAST_BITS) < FAST_SIZE
  {
    TopIs(cb, FAST_BITS);
    Pow2Values();
  }

  /** The bits that the decoder looks at. */
  function Front(cb: Word): (b: Bitstring)
    ensures |b| == 16
  {
    Window(cb)[..16]
  }

  /** The last place is not taken by a short code, whose number would be the mark for "not fast". */
  predicate Unmarked(lens: Lens) {
    |lens| <= 255 || lens[255] > FAST_BITS
  }

  /**
   What the decoder makes of the bits ahead: the symbol whose code they begin with, except that a
   short code of symbol 255 is taken for one of ten bits.
   */
  ghost function DecodedAs(lens: Lens, b: Bitstring): Option<(nat, nat)>
    requires |b| == 16
  {
    if !Unmarked(lens) && Starts(lens, 255, b) then
      var c := Leading(b, 10) + 256 - First(lens, 10);
      if 0 <= c < 256 then Some((c, 10)) else None
    else
      Found(lens, b)
  }

  lemma DecodedBound(lens: Lens, b: Bitstring)
    requires |b| == 16
    ensures DecodedAs(lens, b).Some? ==> DecodedAs(lens, b).value.1 <= 16
  {
    hide Starts, First, Leading;
    if Found(lens, b).Some? {
      FoundBound(lens, b);
    }
  }

  lemma FrontLeading(cb: Word, n: nat)
    requires n <= 16
    ensures Leading(Front(cb), n) == Top(cb, n)
  {
    hide MsbBits, MsbVal, Shr;
    TopIs(cb, n);
    assert Front(cb)[..n] == Window(cb)[..n];
  }

  lemma FastHits(lens: Lens, i: nat, cb: Word)
    requires Fits(lens, 16) && Used(lens, i) && lens[i] <= FAST_BITS
    ensures Hits(lens, i, Top(cb, FAST_BITS)) <==> Starts(lens, i, Front(cb))
  {
    hide MsbBits, MsbVal, Fits, Code, CodeBits, Shr;
    FrontLeading(cb, FAST_BITS);
    FrontLeading(cb, lens[i]);
    FrontShr(Front(cb), lens[i], FAST_BITS - lens[i]);
    StartsFront(lens, 16, i, Front(cb));
  }

  /** What the acceleration table says about the buffer. */
  lemma FastFound(fast: seq<nat>, size: seq<nat>, maxCode: seq<nat>, delta: seq<int>, lens: Lens, cb: Word)
    requires TablesFor(fast, size, maxCode, delta, lens) && Top(cb, FAST_BITS) < FAST_SIZE
    ensures var k := fast[Top(cb, FAST_BITS)];
            if k < NOT_FAST then
              k < |lens| && size[k] == lens[k] && Found(lens, Front(cb)) == Some((k, lens[k]))
            else
              Leading(Front(cb), 9) >= End(lens, 9) ||
              (|lens| == 256 && lens[255] <= FAST_BITS && Starts(lens, 255, Front(cb)))
  {
    hide Fits, End, Leading, MsbBits, Code, CodeBits, Shr;
    var p, b := Top(cb, FAST_BITS), Front(cb);
    assert FastEntry(lens, |lens|, p, fast[p]);
    if Leading(b, 9) < End(lens, 9) {
      var s := BelowEnd(lens, 16, b, 9);
      StartBound(lens, s, b);
      FastHits(lens, s, cb);
      assert size[s] == size[..|lens|][s];
      StartsDecoded(lens, 16, s, b);
    } else {
      forall i: nat | i < |lens|
        ensures !Hits(lens, i, p)
      {
        if Hits(lens, i, p) {
          FastHits(lens, i, cb);
          NotBelowEnd(lens, 16, b, i, 9);
        }
      }
    }
  }

  lemma StartBound(lens: Lens, s: nat, b: Bitstring)
    requires Starts(lens, s, b)
    ensures s < |lens| && 0 < lens[s] <= |b|
  {
  }

  /** The search finds the code if it is longer than nine bits. */
  lemma {:induction false} SearchFinds(size: seq<nat>, maxCode: seq<nat>, delta: seq<int>, fast: seq<nat>, lens: Lens,
      cb: Word, k: nat)
    requires TablesFor(fast, size, maxCode, delta, lens) && 10 <= k <= 17
    requires Leading(Front(cb), k - 1) >= End(lens, k - 1)
    ensures Search(maxCode, delta, cb, k) == Found(lens, Front(cb))
    decreases 17 - k
  {
    hide Fits, End, First, Leading, MsbBits, MsbVal, Code, CodeBits, Shr, Shl, Rank, CountUpTo, FastFor, Ordered, Found;
    var b := Front(cb);
    if k == 17 {
      NoneFound(lens, 16, b);
    } else {
      FrontLeading(cb, 16);
      FrontLeading(cb, k);
      Preshifted(b, k, End(lens, k));
      if Top(cb, 16) < maxCode[k] {
        SymbolFound(lens, b, k);
      } else {
        SearchFinds(size, maxCode, delta, fast, lens, cb, k + 1);
      }
    }
  }

  lemma SymbolFound(lens: Lens, b: Bitstring, k: nat)
    requires Fits(lens, 16) && Ordered(lens) && |lens| <= 256 && |b| == 16 && 1 < k <= 16
    requires Leading(b, k) < End(lens, k) && Leading(b, k - 1) >= End(lens, k - 1)
    ensures var c := Leading(b, k) + (CountUpTo(lens, k - 1) - First(lens, k));
            0 <= c < 256 && Found(lens, b) == Some((c, k))
  {
    hide Fits, Leading, End, First, CodeBits, Code, Rank, CountUpTo, Ordered;
    var sym := FirstBelow(lens, 16, b, k);
    RankOfCode(lens, sym);
    RankOrdered(lens, sym);
  }

  /** Table and search together find what canonical decoding finds, but for a short code of symbol 255. */
  lemma DecodeRight(fast: seq<nat>, size: seq<nat>, maxCode: seq<nat>, delta: seq<int>, lens: Lens, cb: Word)
    requires TablesFor(fast, size, maxCode, delta, lens) && (Unmarked(lens) || !Starts(lens, 255, Front(cb)))
    ensures Sized(fast, size, maxCode, delta) && Decoded(fast, size, maxCode, delta, cb) == Found(lens, Front(cb))
  {
    FastIndex(cb);
    FastFound(fast, size, maxCode, delta, lens, cb);
    hide Fits, End, Leading, Found, Front, Search, Starts, Ordered;
    if fast[Top(cb, FAST_BITS)] >= NOT_FAST {
      SearchFinds(size, maxCode, delta, fast, lens, cb, 10);
    }
  }

  /** The mark for "not fast" stands where a short code of symbol 255 should. */
  lemma MarkAhead(fast: seq<nat>, size: seq<nat>, maxCode: seq<nat>, delta: seq<int>, lens: Lens, cb: Word)
    requires TablesFor(fast, size, maxCode, delta, lens) && !Unmarked(lens) && Starts(lens, 255, Front(cb))
    ensures |fast| == FAST_SIZE && Top(cb, FAST_BITS) < FAST_SIZE && fast[Top(cb, FAST_BITS)] == NOT_FAST
  {
    hide End, First, Leading, MsbBits, MsbVal, Code, CodeBits, Shr, Shl, CountUpTo, LevelsFor, Front;
    FastIndex(cb);
    FastHits(lens, 255, cb);
    var p := Top(cb, FAST_BITS);
    assert FastEntry(lens, |lens|, p, fast[p]);
  }

  /** A short code of symbol 255 is taken for one of ten bits. */
  lemma DecodeWrong(fast: seq<nat>, size: seq<nat>, maxCode: seq<nat>, delta: seq<int>, lens: Lens, cb: Word)
    requires TablesFor(fast, size, maxCode, delta, lens) && !Unmarked(lens) && Starts(lens, 255, Front(cb))
    ensures Sized(fast, size, maxCode, delta) && Decoded(fast, size, maxCode, delta, cb) == DecodedAs(lens, Front(cb))
    ensures Decoded(fast, size, maxCode, delta, cb) != Found(lens, Front(cb))
  {
    hide Fits, End, First, Leading, MsbBits, MsbVal, Code, CodeBits, Shr, Shl, CountUpTo, FastFor, Ordered;
    MarkAhead(fast, size, maxCode, delta, lens, cb);
    StartsDecoded(lens, 16, 255, Front(cb));
    NotBelowEnd(lens, 16, Front(cb), 255, 10);
    FrontLeading(cb, 16);
    FrontLeading(cb, 10);
    Preshifted(Front(cb), 10, End(lens, 10));
    AllShort(lens);
  }

  lemma AllShort(lens: Lens)
    requires Ordered(lens) && |lens| == 256 && lens[255] <= FAST_BITS
    ensures CountUpTo(lens, 9) == 256
  {
    CountUpToAll(lens, 9);
  }

  /** What the decoder finds, whatever the table. */
  lemma DecodeIs(fast: seq<nat>, size: seq<nat>, maxCode: seq<nat>, delta: seq<int>, lens: Lens, cb: Word)
    requires TablesFor(fast, size, maxCode, delta, lens)
    ensures Sized(fast, size, maxCode, delta) && Decoded(fast, size, maxCode, delta, cb) == DecodedAs(lens, Front(cb))
  {
    hide Decoded, Found, Front, Fits, Starts, First, Leading, Ordered, FastFor, LevelsFor;
    if Unmarked(lens) || !Starts(lens, 255, Front(cb)) {
      DecodeRight(fast, size, maxCode, delta, lens, cb);
    } else {
      DecodeWrong(fast, size, maxCode, delta, lens, cb);
    }
  }

  lemma CodeInFront(lens: Lens, s: nat) returns (cb: Word)
    requires Fits(lens, 16) && Used(lens, s) && lens[s] <= 16
    ensures Starts(lens, s, Front(cb))
  {
    hide MsbBits, MsbVal, Pow2, CodeBits, Code;
    CodeFits(lens, s, 16);
    var l, c := lens[s], Code(lens, s);
    Pow2Add(32 - l, l);
    WordPower();
    MulMonotone(Pow2(32 - l), c + 1, Pow2(l));
    cb := Shl(c, 32 - l);
    DivModIs(Pow2(32 - l), cb, c, 0);
    LowShr(cb, 32 - l);
    DivModIs(Pow2(32 - l), cb, Shr(cb, 32 - l), Low(cb, 32 - l));
    FrontLeading(cb, l);
    StartsFront(lens, 16, s, Front(cb));
  }

  /** Exactly when the decoder is right about every buffer. */
  lemma DecodeExactly(fast: seq<nat>, size: seq<nat>, maxCode: seq<nat>, delta: seq<int>, lens: Lens)
    requires TablesFor(fast, size, maxCode, delta, lens)
    ensures Sized(fast, size, maxCode, delta)
    ensures (forall cb: Word :: Decoded(fast, size, maxCode, delta, cb) == Found(lens, Front(cb))) <==> Unmarked(lens)
  {
    hide Decoded, Found, Front, Fits, Starts;
    assert Sized(fast, size, maxCode, delta);
    if Unmarked(lens) {
      forall cb: Word
        ensures Decoded(fast, size, maxCode, delta, cb) == Found(lens, Front(cb))
      {
        DecodeRight(fast, size, maxCode, delta, lens, cb);
      }
    } else {
      var cb := CodeInFront(lens, 255);
      DecodeWrong(fast, size, maxCode, delta, lens, cb);
    }
  }

  lemma {:induction false} EndRepeated(l: nat)
    requires l >= 1
    ensures End(Repeated(8, 256), l) == if l < 8 then 0 else Pow2(l)
  {
    CountRepeated(8, 256, l);
    Pow2Values();
    if l > 1 {
      EndRepeated(l - 1);
    }
  }

  /** Such a table is accepted: 256 codes of eight bits. */
  lemma MarkedTable()
    ensures var lens := Repeated(8, 256); Fits(lens, 16) && Ordered(lens) && |lens| == 256 && !Unmarked(lens)
  {
    EndRepeated(16);
  }
}
