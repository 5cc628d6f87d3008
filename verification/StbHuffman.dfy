/**
 The second Huffman decoder for zlib data (external/stb_image.h, `stbi__zbuild_huffman` and
 `stbi__zhuffman_decode`): a table for codes of up to nine bits, and for longer ones a search by
 length.
 */
module StbHuffman {
  import BitReverse
  import opened Bits
  import opened Canonical
  import opened CanonicalSearch
  import opened HuffmanTable
  import opened TableFill
  import opened TrieSize
  import opened Wrappers

  const ZFAST_BITS := 9       // STBI__ZFAST_BITS
  const ZFAST_SIZE := 512
  const ZNSYMS := 288         // STBI__ZNSYMS

  /** What a place of the fast table holds when symbols below `n` have been entered. */
  ghost predicate FastEntry(lens: Lens, n: nat, p: Bitstring, v: nat) {
    && (forall s: nat :: s < n && Starts(lens, s, p) ==> v == 512 * lens[s] + s)
    && ((forall s: nat :: s < n ==> !Starts(lens, s, p)) ==> v == 0)
  }

  ghost predicate FastFor(fast: seq<nat>, lens: Lens, n: nat) {
    |fast| == ZFAST_SIZE && forall j :: 0 <= j < ZFAST_SIZE ==> FastEntry(lens, n, ToBits(j, ZFAST_BITS), fast[j])
  }

  /** Symbols below `n` have been put at their places. */
  ghost predicate ListedFor(size: seq<nat>, value: seq<nat>, lens: Lens, n: nat) {
    |size| == |value| == ZNSYMS && n <= |lens| <= ZNSYMS
    && forall s :: 0 <= s < n && lens[s] > 0 ==>
       Rank(lens, s) < ZNSYMS && size[Rank(lens, s)] == lens[s] && value[Rank(lens, s)] == s
  }

  ghost predicate LevelsFor(firstCode: seq<nat>, maxCode: seq<nat>, firstSymbol: seq<nat>, lens: Lens, n: nat) {
    && |firstCode| == |firstSymbol| == 16 && |maxCode| == 17
    && forall l :: 1 <= l < n && l < 16 ==>
       (firstCode[l] == First(lens, l) && maxCode[l] == Shl(End(lens, l), 16 - l) &&
        firstSymbol[l] == CountUpTo(lens, l - 1))
  }

  class ZHuffman {
    const fast: array<nat>
    const firstCode: array<nat>
    const maxCode: array<nat>
    const firstSymbol: array<nat>
    const size: array<nat>
    const value: array<nat>

    ghost predicate Shape() {
      && fast.Length == ZFAST_SIZE && firstCode.Length == 16 && maxCode.Length == 17 && firstSymbol.Length == 16 &&
          size.Length == ZNSYMS && value.Length == ZNSYMS
      && firstCode != firstSymbol && firstCode != maxCode && firstSymbol != maxCode && fast != firstCode &&
         fast != firstSymbol && fast != maxCode
      && size != value && size != fast && value != fast && size != firstCode && value != firstCode && size != maxCode &&
          value != maxCode && size != firstSymbol && value != firstSymbol
    }

    ghost function Arrays(): set<object> {
      {fast, firstCode, maxCode, firstSymbol, size, value}
    }

    /** The tables of a code. */
    ghost predicate For(lens: Lens)
      reads fast, firstCode, maxCode, firstSymbol, size, value
    {
      && Fits(lens, 15) && |lens| <= ZNSYMS && Shape()
      && LevelsFor(firstCode[..], maxCode[..], firstSymbol[..], lens, 16) && maxCode[16] == 65536
      && FastFor(fast[..], lens, |lens|) && ListedFor(size[..], value[..], lens, |lens|)
    }

    constructor ()
      ensures Shape() && fresh(Arrays())
    {
      fast := new nat[ZFAST_SIZE](_ => 0);
      firstCode := new nat[16](_ => 0);
      maxCode := new nat[17](_ => 0);
      firstSymbol := new nat[16](_ => 0);
      size := new nat[ZNSYMS](_ => 0);
      value := new nat[ZNSYMS](_ => 0);
    }

    /** `stbi__zbuild_huffman`; it succeeds for just the lengths that can be those of a code. */
    method Build(sizeList: seq<nat>) returns (ok: bool)
      requires Shape() && |sizeList| <= ZNSYMS && forall i :: 0 <= i < |sizeList| ==> sizeList[i] <= 15
      modifies Arrays()
      ensures ok <==> Fits(sizeList, 15)
      ensures ok ==> For(sizeList)
    {
      hide Fits, FastFor, LevelsFor, ListedFor, NextCodes;
      var nextCode;
      ok, nextCode := Levels(sizeList);
      if !ok {
        return;
      }
      Sentinel(firstCode[..], maxCode[..], firstSymbol[..], sizeList);
      maxCode[16] := 0x10000;
      Enter(sizeList, nextCode);
    }

    /** The first half: the first code, the end and the first place of every length. */
    method Levels(sizeList: seq<nat>) returns (ok: bool, nextCode: array<nat>)
      requires Shape() && |sizeList| <= ZNSYMS && forall i :: 0 <= i < |sizeList| ==> sizeList[i] <= 15
      modifies firstCode, maxCode, firstSymbol
      ensures fresh(nextCode) && (ok <==> Fits(sizeList, 15))
      ensures ok ==> NextCodes(nextCode[..], sizeList, 0, 15) &&
                     LevelsFor(firstCode[..], maxCode[..], firstSymbol[..], sizeList, 16)
    {
      hide Fits, First, End, Count, CountUpTo, Shl, Pow2;
      nextCode := new nat[16](_ => 0);
      var sizes := CountSizes(sizeList);
      ok := false;
      for i := 1 to 16
        invariant forall l :: 1 <= l < i ==> Count(sizeList, l) <= Pow2(l)
      {
        if sizes[i] > Pow2(i) {
          TooMany(sizeList, i);
          return;
        }
      }
      var code: nat, k: nat := 0, 0;
      StartLevels(sizeList);
      for i := 1 to 16
        invariant code == First(sizeList, i) && k == CountUpTo(sizeList, i - 1) && nextCode.Length == 16
        invariant (i > 1 ==> End(sizeList, i - 1) <= Pow2(i - 1))
        invariant forall l :: 1 <= l < i ==> nextCode[l] == First(sizeList, l)
        invariant LevelsFor(firstCode[..], maxCode[..], firstSymbol[..], sizeList, i)
        invariant forall l :: 1 <= l < 16 ==> sizes[l] == Count(sizeList, l)
      {
        Level(sizeList, i);
        nextCode[i] := code;
        firstCode[i] := code;
        firstSymbol[i] := k;
        code := code + sizes[i];
        if sizes[i] > 0 && code - 1 >= Pow2(i) {
          TooFull(sizeList, i, 15);
          return;
        }
        maxCode[i] := Shl(code, 16 - i);
        code := 2 * code;
        k := k + sizes[i];
      }
      ok := true;
      AllLevels(sizeList, nextCode[..]);
    }

    /** The second half: every symbol to its places. */
    method Enter(sizeList: seq<nat>, nextCode: array<nat>)
      requires Shape() && |sizeList| <= ZNSYMS && Fits(sizeList, 15) && NextCodes(nextCode[..], sizeList, 0, 15)
      requires LevelsFor(firstCode[..], maxCode[..], firstSymbol[..], sizeList, 16) && nextCode as object !in Arrays()
      modifies fast, size, value, nextCode
      ensures FastFor(fast[..], sizeList, |sizeList|) && ListedFor(size[..], value[..], sizeList, |sizeList|)
    {
      hide Fits, FastFor, LevelsFor, ListedFor, NextCodes, Rank;
      ClearFast();
      NothingEntered(fast[..], size[..], value[..], sizeList);
      for i := 0 to |sizeList|
        invariant NextCodes(nextCode[..], sizeList, i, 15) && FastFor(fast[..], sizeList, i)
        invariant ListedFor(size[..], value[..], sizeList, i)
      {
        LengthFits(sizeList, i);
        NextCodeStep(nextCode[..], sizeList, i, 15);
        if sizeList[i] > 0 {
          EnterSymbol(sizeList, i, nextCode);
        } else {
          Unused(fast[..], size[..], value[..], sizeList, i);
        }
      }
    }

    method ClearFast()
      requires Shape()
      modifies fast
      ensures forall j :: 0 <= j < ZFAST_SIZE ==> fast[j] == 0
    {
      forall j | 0 <= j < fast.Length {
        fast[j] := 0;
      }
    }

    method EnterSymbol(sizeList: seq<nat>, i: nat, nextCode: array<nat>)
      requires Shape() && |sizeList| <= ZNSYMS && Fits(sizeList, 15) && i < |sizeList| && 0 < sizeList[i] <= 15
      requires NextCodes(nextCode[..], sizeList, i, 15)
      requires nextCode.Length > 15 && nextCode[sizeList[i]] == Code(sizeList, i)
      requires NextCodes(nextCode[..][sizeList[i] := nextCode[sizeList[i]] + 1], sizeList, i + 1, 15)
      requires LevelsFor(firstCode[..], maxCode[..], firstSymbol[..], sizeList, 16) && nextCode as object !in Arrays()
      requires FastFor(fast[..], sizeList, i) && ListedFor(size[..], value[..], sizeList, i)
      modifies fast, size, value, nextCode
      ensures NextCodes(nextCode[..], sizeList, i + 1, 15) && FastFor(fast[..], sizeList, i + 1)
      ensures ListedFor(size[..], value[..], sizeList, i + 1)
    {
      hide Fits, FastFor, ListedFor, NextCodes, Rank, First, Code, Shl, End, BitReverse.Reverse, CodeBits, FromBits;
      var s := sizeList[i];
      CodeInRange(sizeList, i);
      PackedCode(sizeList, i);
      RankOfCode(sizeList, i);
      RankBound(sizeList, i);
      var c := nextCode[s] - firstCode[s] + firstSymbol[s];
      var fastv := 512 * s + i;
      Listed(size[..], value[..], sizeList, i);
      size[c] := s;
      value[c] := i;
      if s <= ZFAST_BITS {
        CodeFits(sizeList, i, 15);
        BitReverse.ReverseCodeIs(nextCode[s], s);
        Fill(BitReverse.Reverse(nextCode[s], s), s, fastv, sizeList, i);
      } else {
        LongUnseen(fast[..], sizeList, i);
      }
      nextCode[s] := nextCode[s] + 1;
    }

    /** Sets every place that ends in the packed code. */
    method Fill(rev: nat, s: nat, fastv: nat, ghost lens: Lens, i: nat)
      requires Shape() && Fits(lens, 15) && Used(lens, i) && lens[i] == s <= ZFAST_BITS
      requires rev == FromBits(CodeBits(lens, i)) && fastv == 512 * s + i
      requires FastFor(fast[..], lens, i)
      modifies fast
      ensures FastFor(fast[..], lens, i + 1)
    {
      hide Fits, FastFor, CodeBits, FromBits, Low, Pow2;
      ghost var was: seq<int> := fast[..];
      var j := rev;
      ghost var m: nat := 0;
      SpreadNone(was, rev, s, fastv);
      while j < ZFAST_SIZE
        invariant j == Pow2(s) * m + rev && SpreadTo(was, fast[..], rev, s, fastv, j)
        decreases ZFAST_SIZE - j
      {
        SpreadMore(was, fast[..], rev, s, fastv, m);
        fast[j] := fastv;
        StepUp(s, m);
        j := j + Pow2(s);
        m := m + 1;
      }
      SpreadAll(was, fast[..], rev, s, fastv, j);
      Filled(was, fast[..], lens, i);
    }

    // ---------- decoding ----------

    /** The symbol at the front of sixteen bits, and the length of its code. */
    method Find(codeBuffer: nat, ghost lens: Lens) returns (r: Option<(nat, nat)>)
      requires For(lens)
      ensures r == Found(lens, ToBits(codeBuffer, 16))
    {
      hide Fits, LevelsFor, ListedFor, FastFor, ToBits, Low, Pow2, DecodeSym;
      ghost var b := ToBits(codeBuffer, 16);
      var j := Low(codeBuffer, ZFAST_BITS);
      FastIndex(codeBuffer);
      FastFound(fast[..], lens, b, j);
      var e := fast[j];
      if e != 0 {
        return Some((e % 512, e / 512));
      }
      r := FindSlow(codeBuffer, lens);
    }

    /** `stbi__zhuffman_decode_slowpath` */
    method FindSlow(codeBuffer: nat, ghost lens: Lens) returns (r: Option<(nat, nat)>)
      requires For(lens)
      requires var b := ToBits(codeBuffer, 16); Leading(b, 9) >= End(lens, 9)
      ensures r == Found(lens, ToBits(codeBuffer, 16))
    {
      hide Fits, LevelsFor, ListedFor, FastFor, ToBits, Pow2, DecodeSym, Leading, End, First;
      hide BitReverse.Reverse, MsbVal, Rank, Shl, Shr;
      ghost var b := ToBits(codeBuffer, 16);
      BitReverse.ReverseStream(codeBuffer);
      WholeFront(b);
      var k := BitReverse.Reverse(codeBuffer, 16);
      FrontBound(b);
      var s := ZFAST_BITS + 1;
      while k >= maxCode[s]
        invariant 10 <= s <= 16 && Leading(b, s - 1) >= End(lens, s - 1)
        decreases 16 - s
      {
        MaxCodeAt(firstCode[..], maxCode[..], firstSymbol[..], lens, s);
        Preshifted(b, s, End(lens, s));
        s := s + 1;
      }
      if s >= 16 {
        NoneFound(lens, 15, b);
        return None;
      }
      MaxCodeAt(firstCode[..], maxCode[..], firstSymbol[..], lens, s);
      Preshifted(b, s, End(lens, s));
      FrontShr(b, s, 16 - s);
      var at := Shr(k, 16 - s) - firstCode[s] + firstSymbol[s];
      ghost var sym := PlaceFound(size[..], value[..], lens, b, s);
      assert at == Rank(lens, sym);
      if at >= ZNSYMS || size[at] != s {
        return None;
      }
      r := Some((value[at], s));
    }
  }

  method CountSizes(sizeList: seq<nat>) returns (sizes: array<nat>)
    requires forall i :: 0 <= i < |sizeList| ==> sizeList[i] <= 15
    ensures fresh(sizes) && sizes.Length == 17 && forall l :: 1 <= l < 16 ==> sizes[l] == Count(sizeList, l)
  {
    sizes := new nat[17](_ => 0);
    assert sizeList[..0] == [];
    for i := 0 to |sizeList|
      invariant forall l :: 0 <= l < 16 ==> sizes[l] == Count(sizeList[..i], l)
    {
      assert sizeList[..i + 1][..i] == sizeList[..i];
      sizes[sizeList[i]] := sizes[sizeList[i]] + 1;
    }
    assert sizeList[..|sizeList|] == sizeList;
    sizes[0] := 0;
  }

  // ---------- the levels ----------

  lemma TooMany(lens: Lens, l: nat)
    requires 1 <= l <= 15 && Count(lens, l) > Pow2(l)
    ensures !Fits(lens, 15)
  {
    if Fits(lens, 15) {
      EndFits(lens, l, 15);
    }
  }

  lemma StartLevels(lens: Lens)
    ensures First(lens, 1) == 0 && CountUpTo(lens, 0) == 0
  {
  }

  lemma AllLevels(lens: Lens, nextCode: seq<nat>)
    requires (forall i :: 0 <= i < |lens| ==> lens[i] <= 15) && End(lens, 15) <= Pow2(15)
    requires |nextCode| == 16 && forall l :: 1 <= l < 16 ==> nextCode[l] == First(lens, l)
    ensures Fits(lens, 15) && NextCodes(nextCode, lens, 0, 15)
  {
    hide First, End, Pow2;
    assert lens[..0] == [];
  }

  lemma Sentinel(firstCode: seq<nat>, maxCode: seq<nat>, firstSymbol: seq<nat>, lens: Lens)
    requires LevelsFor(firstCode, maxCode, firstSymbol, lens, 16)
    ensures |maxCode| == 17 && LevelsFor(firstCode, maxCode[16 := 0x10000], firstSymbol, lens, 16)
  {
  }

  // ---------- entering symbols ----------

  lemma PackedCode(lens: Lens, i: nat)
    requires Used(lens, i)
    ensures CodeBits(lens, i) == MsbBits(Code(lens, i), lens[i])
  {
  }


  lemma NothingEntered(fast: seq<nat>, size: seq<nat>, value: seq<nat>, lens: Lens)
    requires |fast| == ZFAST_SIZE && (forall j :: 0 <= j < ZFAST_SIZE ==> fast[j] == 0)
    requires |size| == |value| == ZNSYMS && |lens| <= ZNSYMS
    ensures FastFor(fast, lens, 0) && ListedFor(size, value, lens, 0)
  {
  }

  lemma Unused(fast: seq<nat>, size: seq<nat>, value: seq<nat>, lens: Lens, i: nat)
    requires i < |lens| && lens[i] == 0 && FastFor(fast, lens, i) && ListedFor(size, value, lens, i)
    ensures FastFor(fast, lens, i + 1) && ListedFor(size, value, lens, i + 1)
  {
    hide Rank, CodeBits, ToBits;
    forall j | 0 <= j < ZFAST_SIZE
      ensures FastEntry(lens, i + 1, ToBits(j, ZFAST_BITS), fast[j])
    {
      assert FastEntry(lens, i, ToBits(j, ZFAST_BITS), fast[j]);
    }
  }

  lemma LongUnseen(fast: seq<nat>, lens: Lens, i: nat)
    requires i < |lens| && lens[i] > ZFAST_BITS && FastFor(fast, lens, i)
    ensures FastFor(fast, lens, i + 1)
  {
    hide CodeBits, ToBits;
    forall j | 0 <= j < ZFAST_SIZE
      ensures FastEntry(lens, i + 1, ToBits(j, ZFAST_BITS), fast[j])
    {
      assert FastEntry(lens, i, ToBits(j, ZFAST_BITS), fast[j]);
      assert |CodeBits(lens, i)| > |ToBits(j, ZFAST_BITS)|;
    }
  }

  lemma Listed(size: seq<nat>, value: seq<nat>, lens: Lens, i: nat)
    requires i < |lens| && lens[i] > 0 && ListedFor(size, value, lens, i) && Rank(lens, i) < ZNSYMS
    ensures ListedFor(size[Rank(lens, i) := lens[i]], value[Rank(lens, i) := i], lens, i + 1)
  {
    hide Rank;
    forall s | 0 <= s < i && lens[s] > 0
      ensures Rank(lens, s) != Rank(lens, i)
    {
      RankInjective(lens, s, i);
    }
  }

  lemma Filled(was: seq<int>, fast: seq<int>, lens: Lens, i: nat)
    requires Fits(lens, 15) && Used(lens, i) && lens[i] <= ZFAST_BITS && |was| == ZFAST_SIZE
    requires (forall j :: 0 <= j < |was| ==> was[j] >= 0) && (forall j :: 0 <= j < |fast| ==> fast[j] >= 0)
    requires FastFor(was, lens, i)
    requires Overwritten(was, fast, FromBits(CodeBits(lens, i)), lens[i], 512 * lens[i] + i)
    ensures FastFor(fast, lens, i + 1)
  {
    hide Fits, CodeBits, FromBits, ToBits, Low;
    forall j | 0 <= j < ZFAST_SIZE
      ensures FastEntry(lens, i + 1, ToBits(j, ZFAST_BITS), fast[j])
    {
      var p := ToBits(j, ZFAST_BITS);
      IndexStarts(lens, i, j, ZFAST_BITS);
      assert FastEntry(lens, i, p, was[j]);
      if Starts(lens, i, p) {
        forall s: nat | s < i + 1 && Starts(lens, s, p)
          ensures s == i
        {
          StartsUnique(lens, 15, s, i, p);
        }
      }
    }
  }

  // ---------- finding symbols ----------

  lemma FastIndex(codeBuffer: nat)
    ensures Low(codeBuffer, 9) < ZFAST_SIZE && ToBits(Low(codeBuffer, 9), 9) == ToBits(codeBuffer, 16)[..9]
  {
    hide ToBits, Low, Pow2;
    Pow2Values();
    LowShr(codeBuffer, 9);
    ToBitsShr(codeBuffer, 9, 7);
  }

  /** What the fast table says about the bits: a symbol, or that there is no code of up to nine bits. */
  lemma FastFound(fast: seq<nat>, lens: Lens, b: Bitstring, j: nat)
    requires Fits(lens, 15) && |lens| <= ZNSYMS && FastFor(fast, lens, |lens|) && |b| == 16 && j < ZFAST_SIZE
    requires ToBits(j, 9) == b[..9]
    ensures |fast| == ZFAST_SIZE && if fast[j] != 0 then Found(lens, b) == Some((fast[j] % 512, fast[j] / 512)) else
            Leading(b, 9) >= End(lens, 9)
  {
    hide Fits, ToBits, CodeBits, MsbVal, End;
    var p := b[..9];
    assert FastEntry(lens, |lens|, p, fast[j]);
    if Leading(b, 9) < End(lens, 9) {
      var s := BelowEnd(lens, 15, b, 9);
      StartsLonger(lens, s, b, 9);
      StartsDecoded(lens, 15, s, b);
    } else {
      forall s: nat | s < |lens|
        ensures !Starts(lens, s, p)
      {
        if Starts(lens, s, p) {
          StartsLonger(lens, s, b, 9);
          StartLength(lens, s, p);
          NotBelowEnd(lens, 15, b, s, 9);
        }
      }
    }
  }

  lemma StartLength(lens: Lens, s: nat, p: Bitstring)
    requires Starts(lens, s, p)
    ensures 0 < lens[s] <= |p| && s < |lens|
  {
  }

  lemma WholeFront(b: Bitstring)
    ensures MsbVal(b) == Leading(b, |b|)
  {
    assert b[..|b|] == b;
  }

  lemma FrontBound(b: Bitstring)
    requires |b| == 16
    ensures Leading(b, 16) < 65536
  {
    Pow2Values();
  }

  lemma MaxCodeAt(firstCode: seq<nat>, maxCode: seq<nat>, firstSymbol: seq<nat>, lens: Lens, s: nat)
    requires LevelsFor(firstCode, maxCode, firstSymbol, lens, 16) && 1 <= s < 16
    ensures maxCode[s] == Shl(End(lens, s), 16 - s) && firstCode[s] == First(lens, s)
    ensures firstSymbol[s] == CountUpTo(lens, s - 1)
  {
  }

  /** The search stops at the code; its place holds the symbol. */
  lemma PlaceFound(size: seq<nat>, value: seq<nat>, lens: Lens, b: Bitstring, s: nat) returns (sym: nat)
    requires Fits(lens, 15) && |lens| <= ZNSYMS && ListedFor(size, value, lens, |lens|) && |b| == 16 && 1 < s <= 15
    requires Leading(b, s) < End(lens, s) && Leading(b, s - 1) >= End(lens, s - 1)
    ensures Used(lens, sym) && lens[sym] == s
    ensures Rank(lens, sym) == Leading(b, s) - First(lens, s) + CountUpTo(lens, s - 1)
    ensures First(lens, s) <= Leading(b, s)
    ensures |size| == |value| == ZNSYMS && Rank(lens, sym) < ZNSYMS && size[Rank(lens, sym)] == s
    ensures value[Rank(lens, sym)] == sym && Found(lens, b) == Some((sym, s))
  {
    hide Fits, Leading, End, First, CodeBits, Code, Rank;
    sym := FirstBelow(lens, 15, b, s);
    CodeInRange(lens, sym);
    RankOfCode(lens, sym);
  }
}
