/**
 Every stream that is valid by RFC 1951 means the same to `tinfl_decompress`, and no bit string in
 it misses a code.
 */
module RfcIncluded {
  import opened Bits
  import opened Canonical
  import opened Deflate
  import opened HuffmanTable
  import opened Tinfl
  import opened TrieCode
  import opened Wrappers
  import BlockHeader

  /** What the output buffer holds before the stream: nothing, or a ring's worth of anything. */
  predicate Before(reach: Reach, p: Bytes) {
    match reach
    case Linear => p == []
    case Ring(m) => |p| == m && m >= 32768
  }

  lemma OneBehind(p: Bytes, out: Bytes, dist: nat)
    requires 0 < dist <= |out|
    ensures (p + out)[|p + out| - dist] == out[|out| - dist]
    ensures p + out + [out[|out| - dist]] == p + (out + [out[|out| - dist]])
  {
  }

  lemma {:induction false} CopyBehind(p: Bytes, out: Bytes, len: nat, dist: nat)
    requires 0 < dist <= |out|
    ensures CopyMatch(p + out, len, dist) == p + CopyMatch(out, len, dist)
    decreases len
  {
    if len > 0 {
      var c := out[|out| - dist];
      OneBehind(p, out, dist);
      assert CopyMatch(p + out, len, dist) == CopyMatch(p + out + [c], len - 1, dist);
      CopyBehind(p, out + [c], len - 1, dist);
    }
  }

  lemma EffectiveBehind(reach: Reach, p: Bytes, out: Bytes, dist: nat)
    requires Before(reach, p) && 0 < dist <= |out| && dist <= 32768
    ensures Effective(reach, |p + out|, dist) == Some(dist)
  {
  }

  lemma DistBound(k: nat, v: nat)
    requires k < 30 && v < Pow2(DistExtra(k))
    ensures DistBase(k) + v <= 32768
  {
    Pow2Values();
    assert Pow2(0) == 1;
    hide Pow2;
  }

  // ---------- literals and matches ----------

  lemma SymFound(l: Lens, bits: Bitstring)
    requires Fits(l, 15) && DecodeSym(l, bits).Some?
    ensures var (s, rest) := DecodeSym(l, bits).value;
            Lookup(l, bits) == Some(Hit(s, l[s], false)) && l[s] > 0 && rest == bits[l[s]..]
  {
    LookupDecodes(l, bits);
  }

  lemma {:induction false} SymsIncluded(m: Mode, fin: bool, l: Lens, d: Lens, bits: Bitstring, out: Bytes, p: Bytes)
    requires Fits(l, 15) && Fits(d, 15) && Before(m.reach, p) && DecodeSymbols(l, d, bits, out).Some?
    ensures var (o, rest) := DecodeSymbols(l, d, bits, out).value;
            TSyms(m, fin, l, d, bits, p + out, true) == TAfter(m, fin, rest, p + o, true)
    decreases |bits|, 1
  {
    hide Fits, Lookup, DecodeSym, TAfter, LenBase, LenBits, TLength, Before;
    SymFound(l, bits);
    var (sym, rest) := DecodeSym(l, bits).value;
    if sym < 256 {
      assert p + (out + [sym]) == p + out + [sym];
      SymsIncluded(m, fin, l, d, rest, out + [sym], p);
    } else if sym > 256 {
      LengthIncluded(m, fin, l, d, sym, rest, out, p);
    }
  }

  lemma LengthIncluded(m: Mode, fin: bool, l: Lens, d: Lens, sym: nat, bits: Bitstring, out: Bytes, p: Bytes)
    requires Fits(l, 15) && Fits(d, 15) && Before(m.reach, p) && sym > 256 && AfterSymbol(l, d, sym, bits, out).Some?
    ensures var (o, rest) := AfterSymbol(l, d, sym, bits, out).value;
            TLength(m, fin, l, d, LenBase(sym - 257), LenBits(sym - 257), bits, p + out, true) ==
                TAfter(m, fin, rest, p + o, true)
    decreases |bits|, 4
  {
    hide Fits, Lookup, DecodeSym, TAfter, DecodeDistance, TDistance, Before, LengthBase, LengthExtra;
    hide AfterMatch, ReadBits;
    var (v, rest) := ReadBits(bits, LengthExtra(sym - 257)).value;
    DistanceIncluded(m, fin, l, d, LengthBase(sym - 257) + v, rest, out, p) by {
      ReadShorter(bits, LengthExtra(sym - 257));
    }
  }

  lemma ReadShorter(bits: Bitstring, n: nat)
    requires ReadBits(bits, n).Some?
    ensures |ReadBits(bits, n).value.1| <= |bits| && ReadBits(bits, n).value.0 < Pow2(n)
  {
  }

  lemma DistanceIncluded(m: Mode, fin: bool, l: Lens, d: Lens, len: nat, bits: Bitstring, out: Bytes, p: Bytes)
    requires Fits(l, 15) && Fits(d, 15) && Before(m.reach, p) && DecodeDistance(d, len, bits).Some?
    requires var ((n, dist), rest) := DecodeDistance(d, len, bits).value; AfterMatch(l, d, n, dist, rest, out).Some?
    ensures var ((n, dist), rest) := DecodeDistance(d, len, bits).value;
            var (o, rest') := AfterMatch(l, d, n, dist, rest, out).value;
            TDistance(m, fin, l, d, len, bits, p + out, true) == TAfter(m, fin, rest', p + o, true)
    decreases |bits|, 3
  {
    hide Fits, Lookup, DecodeSym, TAfter, Before, DistBase, DistExtra, AfterMatch, ReadBits, TMatch;
    SymFound(d, bits);
    var (sym, rest) := DecodeSym(d, bits).value;
    assert DecodeDistExtra(sym, len, rest).Some?;
    ReadShorter(rest, DistExtra(sym));
    var (v, rest2) := ReadBits(rest, DistExtra(sym)).value;
    DistBound(sym, v);
    MatchIncluded(m, fin, l, d, len, DistBase(sym) + v, rest2, out, p);
  }

  lemma MatchIncluded(m: Mode, fin: bool, l: Lens, d: Lens, len: nat, dist: nat, bits: Bitstring, out: Bytes, p: Bytes)
    requires Fits(l, 15) && Fits(d, 15) && Before(m.reach, p) && 0 < dist <= 32768
    requires AfterMatch(l, d, len, dist, bits, out).Some?
    ensures var (o, rest) := AfterMatch(l, d, len, dist, bits, out).value;
            TMatch(m, fin, l, d, len, dist, bits, p + out, true) == TAfter(m, fin, rest, p + o, true)
    decreases |bits|, 2
  {
    hide Fits, TAfter, TSyms, DecodeSymbols, Before, Effective, CopyMatch;
    EffectiveBehind(m.reach, p, out, dist);
    CopyBehind(p, out, len, dist);
    SymsIncluded(m, fin, l, d, bits, CopyMatch(out, len, dist), p);
  }

  // ---------- stored blocks ----------

  lemma {:induction false} BytesIncluded(m: Mode, fin: bool, n: nat, bits: Bitstring, out: Bytes, p: Bytes)
    requires StoredBytes(n, bits, out).Some?
    ensures var (o, rest) := StoredBytes(n, bits, out).value;
            TBytes(m, fin, n, bits, p + out, true) == TAfter(m, fin, rest, p + o, true)
    decreases n
  {
    if n > 0 {
      hide TAfter, ReadBits, Pow2;
      var (v, rest) := ReadBits(bits, 8).value;
      ReadByte(bits);
      assert p + (out + [v]) == p + out + [v];
      BytesIncluded(m, fin, n - 1, rest, out + [v], p);
    }
  }

  lemma ReadByte(bits: Bitstring)
    requires ReadBits(bits, 8).Some?
    ensures ReadBits(bits, 8).value.0 < 256
  {
    Pow2Values();
  }

  /** Two bytes are a sixteen-bit number. */
  lemma ReadTwo(bits: Bitstring)
    requires ReadBits(bits, 16).Some?
    ensures ReadBits(bits, 8).Some?
    ensures var (a, rest) := ReadBits(bits, 8).value;
            && ReadBits(rest, 8).Some? && a < 256
            && var (b, rest2) := ReadBits(rest, 8).value;
               b < 256 && ReadBits(bits, 16) == Some((a + 256 * b, rest2))
  {
    Pow2Values();
    var x := bits[..16];
    assert x == bits[..8] + bits[8..][..8] && bits[8..][8..] == bits[16..];
    FromBitsConcat(bits[..8], bits[8..][..8]);
    hide FromBits, Pow2;
  }

  lemma RawIncluded(m: Mode, fin: bool, bits: Bitstring, out: Bytes, p: Bytes)
    requires Stored(bits, out).Some?
    ensures var (o, rest) := Stored(bits, out).value;
            TRaw(m, fin, [], FromByte(bits), p + out, true) == TAfter(m, fin, rest, p + o, true)
  {
    var aligned := FromByte(bits);
    hide TAfter, ReadBits, Pow2, StoredBytes, TBytes;
    assert aligned == bits[|bits| % 8..];
    ReadTwo(aligned);
    var (a, r1) := ReadBits(aligned, 8).value;
    var (b, r2) := ReadBits(r1, 8).value;
    ReadTwo(r2);
    var (c, r3) := ReadBits(r2, 8).value;
    var (e, r4) := ReadBits(r3, 8).value;
    assert [] + [a] + [b] + [c] + [e] == [a, b, c, e];
    RawSteps(m, fin, aligned, a, r1, b, r2, c, r3, e, r4, p + out);
    BytesIncluded(m, fin, a + 256 * b, r4, out, p);
  }

  lemma RawSteps(m: Mode, fin: bool, bits: Bitstring, a: nat, r1: Bitstring, b: nat, r2: Bitstring, c: nat,
      r3: Bitstring, e: nat, r4: Bitstring, h: Bytes)
    requires a < 256 && b < 256 && c < 256 && e < 256
    requires ReadBits(bits, 8) == Some((a, r1)) && ReadBits(r1, 8) == Some((b, r2)) && ReadBits(r2, 8) == Some((c, r3))
    requires ReadBits(r3, 8) == Some((e, r4))
    requires a + 256 * b + (c + 256 * e) == 65535
    ensures TRaw(m, fin, [], bits, h, true) == TBytes(m, fin, a + 256 * b, r4, h, true)
  {
    hide ReadBits, Pow2, TBytes;
    RawStep(m, fin, [], bits, h, true);
    RawStep(m, fin, [a], r1, h, true);
    RawStep(m, fin, [a, b], r2, h, true);
    RawStep(m, fin, [a, b, c], r3, h, true);
    assert [] + [a] == [a] && [a] + [b] == [a, b] && [a, b] + [c] == [a, b, c] && [a, b, c] + [e] == [a, b, c, e];
  }

  lemma RawStep(m: Mode, fin: bool, got: Bytes, bits: Bitstring, h: Bytes, clean: bool)
    requires |got| < 4 && ReadBits(bits, 8).Some?
    ensures ReadBits(bits, 8).value.0 < 256
    ensures TRaw(m, fin, got, bits, h, clean) == TRaw(m, fin, got + [ReadBits(bits, 8).value.0],
            ReadBits(bits, 8).value.1, h, clean)
  {
    ReadByte(bits);
    hide ReadBits, Pow2;
  }

  // ---------- dynamic blocks ----------

  lemma {:induction false} LensIncluded(m: Mode, fin: bool, nlit: nat, ndist: nat, c: Lens, acc: Lens,
      bits: Bitstring, h: Bytes)
    requires Fits(c, 15) && ReadLens(c, bits, nlit + ndist, acc).Some?
    ensures var (all, rest) := ReadLens(c, bits, nlit + ndist, acc).value;
            TLens(m, fin, nlit, ndist, c, acc, bits, h, true) == TTables(m, fin, nlit, all, rest, h, true)
    decreases |bits|, 1
  {
    hide Fits, Lookup, DecodeSym, TTables, AfterLenSymbol, TLenSym;
    var n := nlit + ndist;
    if |acc| < n {
      SymFound(c, bits);
      var (sym, rest) := DecodeSym(c, bits).value;
      LenSymIncluded(m, fin, nlit, ndist, c, acc, sym, rest, h);
    }
  }

  lemma LenSymIncluded(m: Mode, fin: bool, nlit: nat, ndist: nat, c: Lens, acc: Lens, sym: nat, bits: Bitstring,
      h: Bytes)
    requires Fits(c, 15) && |acc| < nlit + ndist && AfterLenSymbol(c, sym, bits, nlit + ndist, acc).Some?
    ensures var (all, rest) := AfterLenSymbol(c, sym, bits, nlit + ndist, acc).value;
            TLenSym(m, fin, nlit, ndist, c, acc, sym, bits, h, true) == TTables(m, fin, nlit, all, rest, h, true)
    decreases |bits|, 2
  {
    hide Fits, TTables, ReadLens, TLens, ReadBits, Repeated;
    if sym < 16 {
      LensIncluded(m, fin, nlit, ndist, c, acc + [sym], bits, h);
    } else {
      ReadShorter(bits, RepeatBits(sym));
      var (v, rest) := ReadBits(bits, RepeatBits(sym)).value;
      LensIncluded(m, fin, nlit, ndist, c, acc + Repeated(if sym == 16 then acc[|acc| - 1] else 0,
          RepeatBase(sym) + v), rest, h);
    }
  }

  lemma {:induction false} OrderIncluded(m: Mode, fin: bool, sizes: seq<nat>, i: nat, c: Lens, bits: Bitstring,
      h: Bytes)
    requires |sizes| >= 3 && i <= sizes[2] <= 19 && |c| == 19 && ReadCodeLengthLens(bits, i, sizes[2], c).Some?
    ensures var (c', rest) := ReadCodeLengthLens(bits, i, sizes[2], c).value;
            TOrder(m, fin, sizes, i, c, bits, h, true) == TLenTable(m, fin, sizes[0], sizes[1], c', rest, h, true)
    decreases sizes[2] - i
  {
    hide TLenTable, ReadBits, Order;
    if i < sizes[2] {
      var (v, rest) := ReadBits(bits, 3).value;
      OrderIncluded(m, fin, sizes, i + 1, c[Order(i) := v], rest, h);
    }
  }

  /** From the code lengths of the code-length code on. */
  lemma CodesIncluded(m: Mode, fin: bool, nlit: nat, ndist: nat, c: Lens, bits: Bitstring, out: Bytes, p: Bytes)
    requires Before(m.reach, p) && DynamicLens(c, nlit, ndist, bits, out).Some?
    ensures var (o, rest) := DynamicLens(c, nlit, ndist, bits, out).value;
            TLenTable(m, fin, nlit, ndist, c, bits, p + out, true) == TAfter(m, fin, rest, p + o, true)
  {
    hide TAfter, TSyms, DecodeSymbols, ReadLens, TLens, Before, Acceptable;
    AcceptableFits(c);
    LensIncluded(m, fin, nlit, ndist, c, [], bits, p + out);
    var (all, rest) := ReadLens(c, bits, nlit + ndist, []).value;
    AcceptableFits(all[..nlit]);
    AcceptableFits(all[nlit..]);
    hide Fits;
    SymsIncluded(m, fin, all[..nlit], all[nlit..], rest, out, p);
  }

  lemma DynamicIncluded(m: Mode, fin: bool, bits: Bitstring, out: Bytes, p: Bytes)
    requires Before(m.reach, p) && Dynamic(bits, out).Some?
    ensures var (o, rest) := Dynamic(bits, out).value;
            TSizes(m, fin, [], bits, p + out, true) == TAfter(m, fin, rest, p + o, true)
  {
    hide TAfter, ReadBits, DynamicLens, TLenTable, ReadCodeLengthLens, TOrder, Repeated, Before;
    var (a, r1) := ReadBits(bits, 5).value;
    var (b, r2) := ReadBits(r1, 5).value;
    var (c, r3) := ReadBits(r2, 4).value;
    var sizes := [a + 257, b + 1, c + 4];
    SizesRead(m, fin, bits, a, r1, b, r2, c, r3, p + out);
    OrderIncluded(m, fin, sizes, 0, Repeated(0, 19), r3, p + out);
    var (lens, rest) := ReadCodeLengthLens(r3, 0, c + 4, Repeated(0, 19)).value;
    CodesIncluded(m, fin, a + 257, b + 1, lens, rest, out, p);
  }

  lemma SizesRead(m: Mode, fin: bool, bits: Bitstring, a: nat, r1: Bitstring, b: nat, r2: Bitstring, c: nat,
      r3: Bitstring, h: Bytes)
    requires ReadBits(bits, 5) == Some((a, r1)) && ReadBits(r1, 5) == Some((b, r2)) && ReadBits(r2, 4) == Some((c, r3))
    ensures TSizes(m, fin, [], bits, h, true) == TOrder(m, fin, [a + 257, b + 1, c + 4], 0, Repeated(0, 19), r3, h,
            true)
  {
    hide ReadBits, TOrder, Repeated;
    assert [] + [a + 257] == [a + 257] && [a + 257] + [b + 1] == [a + 257, b + 1];
    assert [a + 257, b + 1] + [c + 4] == [a + 257, b + 1, c + 4];
    assert TSizes(m, fin, [], bits, h, true) == TSizes(m, fin, [a + 257], r1, h, true);
    assert TSizes(m, fin, [a + 257], r1, h, true) == TSizes(m, fin, [a + 257, b + 1], r2, h, true);
  }

  // ---------- whole streams ----------

  lemma BlockIncluded(m: Mode, fin: bool, type_: nat, bits: Bitstring, out: Bytes, p: Bytes)
    requires Before(m.reach, p) && Block(type_, bits, out).Some?
    ensures var (o, rest) := Block(type_, bits, out).value;
            TBlock(m, fin, type_, bits, p + out, true) == TAfter(m, fin, rest, p + o, true)
  {
    if type_ == 0 {
      hide *;
      BlockRaw(m, fin, bits, p + out, out);
      RawIncluded(m, fin, bits, out, p);
    } else if type_ == 1 {
      BlockHeader.FixedLitFits();
      BlockHeader.FixedDistFits();
      hide TAfter, TSyms, DecodeSymbols, FixedLit, FixedDist, Before, Fits;
      SymsIncluded(m, fin, FixedLit(), FixedDist(), bits, out, p);
    } else {
      hide TAfter, TSizes, Dynamic, Before;
      DynamicIncluded(m, fin, bits, out, p);
    }
  }

  lemma BlockRaw(m: Mode, fin: bool, bits: Bitstring, h: Bytes, out: Bytes)
    ensures TBlock(m, fin, 0, bits, h, true) == TRaw(m, fin, [], FromByte(bits), h, true)
    ensures Block(0, bits, out) == Stored(bits, out)
  {
    hide TRaw, Stored, FromByte;
  }

  /** A valid stream means its bytes, with nothing missed. */
  lemma {:induction false} BlocksIncluded(m: Mode, bits: Bitstring, out: Bytes, p: Bytes)
    requires Before(m.reach, p) && Inflate(bits, out).Some?
    ensures var (o, rest) := Inflate(bits, out).value;
            TBlocks(m, bits, p + out, true) == TEnd(m, rest, p + o, true)
    decreases |bits|
  {
    hide ReadBits, Block, TBlock, TEnd, Before;
    var (v, rest) := ReadBits(bits, 3).value;
    var (o, rest') := Block(v / 2, rest, out).value;
    BlockIncluded(m, v % 2 == 1, v / 2, rest, out, p);
    assert |rest'| < |bits| by {
      ReadShorter(bits, 3);
      ThreeBits(bits);
    }
    if v % 2 == 0 {
      BlocksIncluded(m, rest', o, p);
    }
  }

  lemma ThreeBits(bits: Bitstring)
    requires ReadBits(bits, 3).Some?
    ensures |ReadBits(bits, 3).value.1| < |bits|
  {
  }
}
