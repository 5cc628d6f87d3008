/**
 Output is never taken back, and a missed code is never forgotten: what `tinfl_decompress` makes of
 the rest of a stream begins with the output so far (external/miniz.c).
 */
module TinflGrows {
  import opened Bits
  import opened Canonical
  import opened Deflate
  import opened HuffmanTable
  import opened Tinfl
  import opened TinflControl
  import opened TrieCode
  import opened Wrappers

  /** A result that goes on from `h`. */
  predicate GoesOn(r: Res, h: Bytes, clean: bool) {
    r.Some? ==> h <= r.value.hist && (r.value.clean ==> clean)
  }

  lemma {:induction false} TrailerGrows(i: nat, adler: nat, bits: Bitstring, h: Bytes, clean: bool)
    requires i <= 4
    ensures GoesOn(TTrailer(i, adler, bits, h, clean), h, clean)
    decreases 4 - i
  {
    if i < 4 && ReadBits(bits, 8).Some? {
      var (v, rest) := ReadBits(bits, 8).value;
      TrailerGrows(i + 1, (256 * adler + v) % 0x1_0000_0000, rest, h, clean);
    }
  }

  lemma EndGrows(m: Mode, bits: Bitstring, h: Bytes, clean: bool)
    ensures GoesOn(TEnd(m, bits, h, clean), h, clean)
  {
    if m.zlib {
      TrailerGrows(0, 1, FromByte(bits), h, clean);
    }
  }

  lemma {:induction false} AfterGrows(m: Mode, fin: bool, bits: Bitstring, h: Bytes, clean: bool)
    ensures GoesOn(TAfter(m, fin, bits, h, clean), h, clean)
    decreases |bits|, 2
  {
    hide TEnd, TBlocks, GoesOn;
    if fin {
      EndGrows(m, bits, h, clean);
    } else {
      BlocksGrow(m, bits, h, clean);
    }
  }

  lemma {:induction false} BlocksGrow(m: Mode, bits: Bitstring, h: Bytes, clean: bool)
    ensures GoesOn(TBlocks(m, bits, h, clean), h, clean)
    decreases |bits|, 1
  {
    hide TBlock;
    if ReadBits(bits, 3).Some? {
      var (v, rest) := ReadBits(bits, 3).value;
      BlockGrows(m, v % 2 == 1, v / 2, rest, h, clean);
    }
  }

  lemma {:induction false} BlockGrows(m: Mode, fin: bool, type_: nat, bits: Bitstring, h: Bytes, clean: bool)
    ensures GoesOn(TBlock(m, fin, type_, bits, h, clean), h, clean)
    decreases |bits|, 7
  {
    hide TRaw, TSyms, TSizes, FixedLit, FixedDist;
    if type_ == 0 {
      RawGrows(m, fin, [], FromByte(bits), h, clean);
    } else if type_ == 1 {
      SymsGrow(m, fin, FixedLit(), FixedDist(), bits, h, clean);
    } else if type_ == 2 {
      SizesGrow(m, fin, [], bits, h, clean);
    }
  }

  lemma {:induction false} RawGrows(m: Mode, fin: bool, got: Bytes, bits: Bitstring, h: Bytes, clean: bool)
    ensures GoesOn(TRaw(m, fin, got, bits, h, clean), h, clean)
    decreases |bits|, 4
  {
    hide TBytes;
    if |got| >= 4 {
      BytesGrow(m, fin, got[0] as int + 256 * (got[1] as int), bits, h, clean);
    } else if ReadBits(bits, 8).Some? {
      var (v, rest) := ReadBits(bits, 8).value;
      assert Pow2(8) == 256;
      RawGrows(m, fin, got + [v], rest, h, clean);
    }
  }

  lemma {:induction false} BytesGrow(m: Mode, fin: bool, n: nat, bits: Bitstring, h: Bytes, clean: bool)
    ensures GoesOn(TBytes(m, fin, n, bits, h, clean), h, clean)
    decreases |bits|, 3
  {
    hide TAfter;
    if n == 0 {
      AfterGrows(m, fin, bits, h, clean);
    } else if ReadBits(bits, 8).Some? {
      var (v, rest) := ReadBits(bits, 8).value;
      assert Pow2(8) == 256;
      BytesGrow(m, fin, n - 1, rest, h + [v], clean);
    }
  }

  lemma {:induction false} SizesGrow(m: Mode, fin: bool, sizes: seq<nat>, bits: Bitstring, h: Bytes, clean: bool)
    ensures GoesOn(TSizes(m, fin, sizes, bits, h, clean), h, clean)
    decreases |bits|, 6
  {
    hide TOrder, Repeated;
    if |sizes| >= 3 {
      OrderGrows(m, fin, sizes, 0, Repeated(0, 19), bits, h, clean);
    } else if ReadBits(bits, SizeBits(|sizes|)).Some? {
      var (v, rest) := ReadBits(bits, SizeBits(|sizes|)).value;
      SizesGrow(m, fin, sizes + [v + SizeMin(|sizes|)], rest, h, clean);
    }
  }

  lemma {:induction false} OrderGrows(m: Mode, fin: bool, sizes: seq<nat>, i: nat, c: Lens, bits: Bitstring, h: Bytes,
      clean: bool)
    requires |sizes| >= 3 && |c| == 19
    ensures GoesOn(TOrder(m, fin, sizes, i, c, bits, h, clean), h, clean)
    decreases |bits|, 5
  {
    hide TLens, Acceptable, Order;
    if i >= sizes[2] || i >= 19 {
      LensGrow(m, fin, sizes[0], sizes[1], c, [], bits, h, clean);
    } else if ReadBits(bits, 3).Some? {
      var (v, rest) := ReadBits(bits, 3).value;
      OrderGrows(m, fin, sizes, i + 1, c[Order(i) := v], rest, h, clean);
    }
  }

  lemma {:induction false} LensGrow(m: Mode, fin: bool, nlit: nat, ndist: nat, c: Lens, acc: Lens, bits: Bitstring,
      h: Bytes, clean: bool)
    ensures GoesOn(TLens(m, fin, nlit, ndist, c, acc, bits, h, clean), h, clean)
    decreases |bits|, 3, Left(nlit + ndist, |acc|), 1
  {
    hide TTables, Lookup, TLenSym;
    if |acc| == nlit + ndist {
      TablesGrow(m, fin, nlit, acc, bits, h, clean);
    } else if |acc| < nlit + ndist && Lookup(c, bits).Some? {
      var hit := Lookup(c, bits).value;
      LenSymGrows(m, fin, nlit, ndist, c, acc, hit.sym, bits[hit.len..], h, clean && !hit.missed);
    }
  }

  lemma {:induction false} LenSymGrows(m: Mode, fin: bool, nlit: nat, ndist: nat, c: Lens, acc: Lens, sym: nat,
      bits: Bitstring, h: Bytes, clean: bool)
    requires |acc| < nlit + ndist
    ensures GoesOn(TLenSym(m, fin, nlit, ndist, c, acc, sym, bits, h, clean), h, clean)
    decreases |bits|, 3, Left(nlit + ndist, |acc|), 0
  {
    hide TLens, TLenRun;
    if sym < 16 {
      LensGrow(m, fin, nlit, ndist, c, acc + [sym], bits, h, clean);
    } else if sym != 16 || acc != [] {
      LenRunGrows(m, fin, nlit, ndist, c, acc, sym, bits, h, clean);
    }
  }

  lemma {:induction false} LenRunGrows(m: Mode, fin: bool, nlit: nat, ndist: nat, c: Lens, acc: Lens, sym: nat,
      bits: Bitstring, h: Bytes, clean: bool)
    requires sym == 16 ==> acc != []
    ensures GoesOn(TLenRun(m, fin, nlit, ndist, c, acc, sym, bits, h, clean), h, clean)
    decreases |bits|, 2
  {
    hide TLens, Repeated;
    if ReadBits(bits, RepeatBits(sym)).Some? {
      var (v, rest) := ReadBits(bits, RepeatBits(sym)).value;
      LensGrow(m, fin, nlit, ndist, c, acc + Repeated(if sym == 16 then acc[|acc| - 1] else 0, RepeatBase(sym) + v),
          rest, h, clean);
    }
  }

  lemma {:induction false} TablesGrow(m: Mode, fin: bool, nlit: nat, all: Lens, bits: Bitstring, h: Bytes, clean: bool)
    ensures GoesOn(TTables(m, fin, nlit, all, bits, h, clean), h, clean)
    decreases |bits|, 1
  {
    hide TSyms, Acceptable;
    if nlit <= |all| {
      SymsGrow(m, fin, all[..nlit], all[nlit..], bits, h, clean);
    }
  }

  lemma {:induction false} SymsGrow(m: Mode, fin: bool, l: Lens, d: Lens, bits: Bitstring, h: Bytes, clean: bool)
    ensures GoesOn(TSyms(m, fin, l, d, bits, h, clean), h, clean)
    decreases |bits|, 0
  {
    hide Lookup, TSym;
    if Lookup(l, bits).Some? && Lookup(l, bits).value.len > 0 {
      var hit := Lookup(l, bits).value;
      SymGrows(m, fin, l, d, hit.sym, bits[hit.len..], h, clean && !hit.missed);
    }
  }

  lemma {:induction false} SymGrows(m: Mode, fin: bool, l: Lens, d: Lens, sym: nat, bits: Bitstring, h: Bytes,
      clean: bool)
    ensures GoesOn(TSym(m, fin, l, d, sym, bits, h, clean), h, clean)
    decreases |bits|, 5
  {
    hide TSyms, TAfter, TLength, LenBase, LenBits;
    if sym < 256 {
      SymsGrow(m, fin, l, d, bits, h + [sym], clean);
    } else if sym == 256 {
      AfterGrows(m, fin, bits, h, clean);
    } else {
      LengthGrows(m, fin, l, d, LenBase(sym - 257), LenBits(sym - 257), bits, h, clean);
    }
  }

  lemma {:induction false} LengthGrows(m: Mode, fin: bool, l: Lens, d: Lens, base: nat, extra: nat, bits: Bitstring,
      h: Bytes, clean: bool)
    ensures GoesOn(TLength(m, fin, l, d, base, extra, bits, h, clean), h, clean)
    decreases |bits|, 4
  {
    hide TDistance;
    if ReadBits(bits, extra).Some? {
      var (v, rest) := ReadBits(bits, extra).value;
      DistanceGrows(m, fin, l, d, base + v, rest, h, clean);
    }
  }

  lemma {:induction false} DistanceGrows(m: Mode, fin: bool, l: Lens, d: Lens, len: nat, bits: Bitstring, h: Bytes,
      clean: bool)
    ensures GoesOn(TDistance(m, fin, l, d, len, bits, h, clean), h, clean)
    decreases |bits|, 3
  {
    hide TDistBits, Lookup, DisBase, DisBits;
    if Lookup(d, bits).Some? {
      var hit := Lookup(d, bits).value;
      DistBitsGrow(m, fin, l, d, len, DisBase(hit.sym), DisBits(hit.sym), bits[hit.len..], h, clean && !hit.missed);
    }
  }

  lemma {:induction false} DistBitsGrow(m: Mode, fin: bool, l: Lens, d: Lens, len: nat, base: nat, extra: nat,
      bits: Bitstring, h: Bytes, clean: bool)
    ensures GoesOn(TDistBits(m, fin, l, d, len, base, extra, bits, h, clean), h, clean)
    decreases |bits|, 2
  {
    hide TMatch;
    if ReadBits(bits, extra).Some? {
      var (v, rest) := ReadBits(bits, extra).value;
      MatchGrows(m, fin, l, d, len, base + v, rest, h, clean);
    }
  }

  /** A match adds as many bytes as it is long. */
  lemma {:induction false} MatchGrows(m: Mode, fin: bool, l: Lens, d: Lens, len: nat, dist: nat, bits: Bitstring,
      h: Bytes, clean: bool)
    ensures var r := TMatch(m, fin, l, d, len, dist, bits, h, clean);
            GoesOn(r, h, clean) && (r.Some? ==> |r.value.hist| >= |h| + len)
    decreases |bits|, 1
  {
    hide TSyms, Effective;
    if Effective(m.reach, |h|, dist).Some? {
      var back := Effective(m.reach, |h|, dist).value;
      CopyGrows(h, len, back);
      SymsGrow(m, fin, l, d, bits, CopyMatch(h, len, back), clean);
    }
  }

  lemma {:induction false} CopyGrows(h: Bytes, len: nat, back: nat)
    requires 0 < back <= |h|
    ensures h <= CopyMatch(h, len, back) && |CopyMatch(h, len, back)| == |h| + len
    decreases len
  {
    if len > 0 {
      CopyGrows(h + [h[|h| - back]], len - 1, back);
    }
  }

  /** From any place: the result begins with the output so far, and is clean only if nothing was missed so far. */
  lemma MeansGrows(m: Mode, c: Ctl, p: Bitstring, h: Bytes, clean: bool)
    requires c.CStart? || c.CHeader? ==> clean
    ensures GoesOn(Means(m, c, p, h, clean), h, clean)
  {
    hide TStart, THeader, TBlocks, TRaw, TBytes, TSizes, TOrder, TLens, TLenRun, TSyms, TLength, TDistance;
    hide TDistBits, TMatch, TTrailer;
    match c {
      case CStart => StartGrows(m, p, h);
      case CHeader(cmf) => HeaderGrows(m, cmf, p, h);
      case CBlocks => BlocksGrow(m, p, h, clean);
      case CRaw(fin, got) => RawGrows(m, fin, got, p, h, clean);
      case CBytes(fin, n) => BytesGrow(m, fin, n, p, h, clean);
      case CPut(fin, n, c) => BytesGrow(m, fin, n, p, h + [c], clean);
      case CSizes(fin, sizes) => SizesGrow(m, fin, sizes, p, h, clean);
      case COrder(fin, sizes, i, lens) =>
        if |sizes| >= 3 && |lens| == 19 {
          OrderGrows(m, fin, sizes, i, lens, p, h, clean);
        }
      case CLens(fin, nlit, ndist, lens, acc) => LensGrow(m, fin, nlit, ndist, lens, acc, p, h, clean);
      case CLenRun(fin, nlit, ndist, lens, acc, sym) =>
        if sym != 16 || acc != [] {
          LenRunGrows(m, fin, nlit, ndist, lens, acc, sym, p, h, clean);
        }
      case CSyms(fin, l, d) => SymsGrow(m, fin, l, d, p, h, clean);
      case CLit(fin, l, d, c) => SymsGrow(m, fin, l, d, p, h + [c], clean);
      case CLength(fin, l, d, base, extra) => LengthGrows(m, fin, l, d, base, extra, p, h, clean);
      case CDistance(fin, l, d, len) => DistanceGrows(m, fin, l, d, len, p, h, clean);
      case CDistBits(fin, l, d, len, base, extra) => DistBitsGrow(m, fin, l, d, len, base, extra, p, h, clean);
      case CMatch(fin, l, d, len, dist) => MatchGrows(m, fin, l, d, len, dist, p, h, clean);
      case CTrailer(i, adler) =>
        if i <= 4 {
          TrailerGrows(i, adler, p, h, clean);
        }
      case CDone(adler) =>
      case CFailed =>
    }
  }

  lemma HeaderGrows(m: Mode, cmf: Byte, p: Bitstring, h: Bytes)
    ensures GoesOn(THeader(m, cmf, p, h), h, true)
  {
    hide TBlocks, HeaderOk;
    assert Pow2(8) == 256;
    if ReadBits(p, 8).Some? {
      BlocksGrow(m, ReadBits(p, 8).value.1, h, true);
    }
  }

  lemma StartGrows(m: Mode, p: Bitstring, h: Bytes)
    ensures GoesOn(TStart(m, p, h), h, true)
  {
    hide TBlocks, THeader;
    assert Pow2(8) == 256;
    if !m.zlib {
      BlocksGrow(m, p, h, true);
    } else if ReadBits(p, 8).Some? {
      var (cmf, rest) := ReadBits(p, 8).value;
      HeaderGrows(m, cmf, rest, h);
    }
  }

  /** Where the decompressor stops for want of room, there is more output to come. */
  lemma RoomNeeded(m: Mode, c: Ctl, p: Bitstring, h: Bytes, clean: bool)
    requires c.CPut? || (c.CBytes? && c.n > 0) || c.CLit? || (c.CMatch? && c.len > 0)
    ensures var r := Means(m, c, p, h, clean); r.Some? ==> |r.value.hist| > |h|
  {
    hide TStart, THeader, TBlocks, TRaw, TSizes, TOrder, TLens, TLenRun, TSyms, TLength, TDistance, TDistBits;
    hide TMatch, TTrailer;
    match c {
      case CPut(fin, n, c) => BytesGrow(m, fin, n, p, h + [c], clean);
      case CBytes(fin, n) => MoreBytes(m, fin, n, p, h, clean);
      case CLit(fin, l, d, c) => SymsGrow(m, fin, l, d, p, h + [c], clean);
      case CMatch(fin, l, d, len, dist) => MatchGrows(m, fin, l, d, len, dist, p, h, clean);
    }
  }

  lemma MoreBytes(m: Mode, fin: bool, n: nat, p: Bitstring, h: Bytes, clean: bool)
    requires n > 0
    ensures var r := TBytes(m, fin, n, p, h, clean); r.Some? ==> |r.value.hist| > |h|
  {
    if ReadBits(p, 8).Some? {
      var (v, rest) := ReadBits(p, 8).value;
      assert Pow2(8) == 256;
      BytesGrow(m, fin, n - 1, rest, h + [v], clean);
    }
  }
}
