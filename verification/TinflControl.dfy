/**
 The places where `tinfl_decompress` can stop (external/miniz.c), and what each means: the case
 labels of its coroutine, with the saved values they go on with.
 */
module TinflControl {
  import opened Bits
  import opened Canonical
  import opened Deflate
  import opened HuffmanTable
  import opened Tinfl
  import opened TrieCode
  import opened Wrappers

  datatype Ctl =
    | CStart
    | CHeader(cmf: Byte)
    | CBlocks
    | CRaw(fin: bool, got: Bytes)
    | CBytes(fin: bool, n: nat)
    | CPut(fin: bool, n: nat, c: Byte)
    | CSizes(fin: bool, sizes: seq<nat>)
    | COrder(fin: bool, sizes: seq<nat>, i: nat, lens: Lens)
    | CLens(fin: bool, nlit: nat, ndist: nat, lens: Lens, acc: Lens)
    | CLenRun(fin: bool, nlit: nat, ndist: nat, lens: Lens, acc: Lens, sym: nat)
    | CSyms(fin: bool, l: Lens, d: Lens)
    | CLit(fin: bool, l: Lens, d: Lens, c: Byte)
    | CLength(fin: bool, l: Lens, d: Lens, base: nat, extra: nat)
    | CDistance(fin: bool, l: Lens, d: Lens, len: nat)
    | CDistBits(fin: bool, l: Lens, d: Lens, len: nat, base: nat, extra: nat)
    | CMatch(fin: bool, l: Lens, d: Lens, len: nat, dist: nat)
    | CTrailer(i: nat, adler: nat)
    | CDone(adler: nat)
    | CFailed

  /** The result of going on from a place with the unused bits `p` after the output `h`. */
  ghost function Means(m: Mode, c: Ctl, p: Bitstring, h: Bytes, clean: bool): Res {
    match c
    case CStart => TStart(m, p, h)
    case CHeader(cmf) => THeader(m, cmf, p, h)
    case CBlocks => TBlocks(m, p, h, clean)
    case CRaw(fin, got) => TRaw(m, fin, got, p, h, clean)
    case CBytes(fin, n) => TBytes(m, fin, n, p, h, clean)
    case CPut(fin, n, c) => TBytes(m, fin, n, p, h + [c], clean)
    case CSizes(fin, sizes) => TSizes(m, fin, sizes, p, h, clean)
    case COrder(fin, sizes, i, lens) => if |sizes| >= 3 &&
        |lens| == 19 then TOrder(m, fin, sizes, i, lens, p, h, clean) else None
    case CLens(fin, nlit, ndist, lens, acc) => TLens(m, fin, nlit, ndist, lens, acc, p, h, clean)
    case CLenRun(fin, nlit, ndist, lens, acc, sym) => if sym == 16 &&
        acc == [] then None else TLenRun(m, fin, nlit, ndist, lens, acc, sym, p, h, clean)
    case CSyms(fin, l, d) => TSyms(m, fin, l, d, p, h, clean)
    case CLit(fin, l, d, c) => TSyms(m, fin, l, d, p, h + [c], clean)
    case CLength(fin, l, d, base, extra) => TLength(m, fin, l, d, base, extra, p, h, clean)
    case CDistance(fin, l, d, len) => TDistance(m, fin, l, d, len, p, h, clean)
    case CDistBits(fin, l, d, len, base, extra) => TDistBits(m, fin, l, d, len, base, extra, p, h, clean)
    case CMatch(fin, l, d, len, dist) => TMatch(m, fin, l, d, len, dist, p, h, clean)
    case CTrailer(i, adler) => if i <= 4 then TTrailer(i, adler, p, h, clean) else None
    case CDone(adler) => Some(Final(h, adler, p, clean))
    case CFailed => None
  }

  /** The bits `b` are too few for what comes next; only these places can need more than a byte. */
  ghost predicate NeedsMore(c: Ctl, b: Bitstring) {
    match c
    case CLens(_, _, _, lens, _) => Lookup(lens, b) == None
    case CSyms(_, l, _) => Lookup(l, b) == None
    case CDistance(_, _, d, _) => Lookup(d, b) == None
    case CDistBits(_, _, _, _, _, extra) => |b| < extra
    case _ => false
  }

  /** A symbol found needs all the bits it takes. */
  lemma LookupLess(lens: Lens, b: Bitstring, n: nat)
    requires Fits(lens, 15) && Lookup(lens, b).Some? && Lookup(lens, b).value.len <= n <= |b|
    requires !Lookup(lens, b).value.missed
    ensures Lookup(lens, b[..n]).Some?
  {
    assert b == b[..n] + b[n..];
    if Lookup(lens, b[..n]) == None {
      if s: nat :| Short(lens, s, b) {
        ShortUnique(lens, s, b);
        assert CodeBits(lens, s) <= b[..n];
        assert Short(lens, s, b[..n]);
        ShortUnique(lens, s, b[..n]);
        assert false;
      } else {
        FollowLess(lens, b, n);
      }
    }
  }

  lemma FollowLess(lens: Lens, b: Bitstring, n: nat)
    requires Fits(lens, 15) && Lookup(lens, b).Some? && Lookup(lens, b).value.len <= n <= |b|
    requires !Lookup(lens, b).value.missed && !exists s: nat :: Short(lens, s, b)
    ensures Lookup(lens, b[..n]).Some?
  {
    FollowLong(lens, b, FAST_BITS);
    assert b[..n][..FAST_BITS] == b[..FAST_BITS];
    forall s: nat
      ensures !Short(lens, s, b[..n])
    {
      if Short(lens, s, b[..n]) {
        ShortMore(lens, s, b, n);
      }
    }
    FollowShorter(lens, b, n, FAST_BITS);
  }

  lemma ShortMore(lens: Lens, s: nat, b: Bitstring, n: nat)
    requires n <= |b| && Short(lens, s, b[..n])
    ensures Short(lens, s, b)
  {
    assert CodeBits(lens, s) <= b;
  }

  lemma {:induction false} FollowLong(lens: Lens, b: Bitstring, d: nat)
    requires d < |b| && Follow(lens, b, d).Some?
    ensures Follow(lens, b, d).value.len > d
    decreases |b| - d
  {
    if Inner(lens, b[..d + 1]) {
      FollowLong(lens, b, d + 1);
    }
  }

  lemma {:induction false} FollowShorter(lens: Lens, b: Bitstring, n: nat, d: nat)
    requires d < |b| && Follow(lens, b, d).Some? && d < Follow(lens, b, d).value.len <= n <= |b|
    ensures Follow(lens, b[..n], d).Some?
    decreases |b| - d
  {
    assert b[..n][..d + 1] == b[..d + 1];
    if Inner(lens, b[..d + 1]) {
      FollowLong(lens, b, d + 1);
      FollowShorter(lens, b, n, d + 1);
    }
  }

  // ---------- single steps ----------

  lemma StartRaw(m: Mode, p: Bitstring, h: Bytes)
    requires !m.zlib
    ensures Means(m, CStart, p, h, true) == Means(m, CBlocks, p, h, true)
  {
  }

  lemma BlockHeadStep(m: Mode, p: Bitstring, h: Bytes, clean: bool)
    requires |p| >= 3
    ensures var v := FromBits(p[..3]); var q := p[3..];
            Means(m, CBlocks, p, h, clean) ==
              if v / 2 == 0 then Means(m, CRaw(v % 2 == 1, []), FromByte(q), h, clean)
              else if v / 2 == 1 then Means(m, CSyms(v % 2 == 1, FixedLit(), FixedDist()), q, h, clean)
              else if v / 2 == 2 then Means(m, CSizes(v % 2 == 1, []), q, h, clean)
              else None
  {
    hide FromBits, TRaw, TSyms, TSizes, FixedLit, FixedDist, FromByte;
    var v := FromBits(p[..3]);
    assert TBlocks(m, p, h, clean) == TBlock(m, v % 2 == 1, v / 2, p[3..], h, clean);
  }

  lemma RawStep(m: Mode, fin: bool, got: Bytes, p: Bitstring, h: Bytes, clean: bool)
    requires |got| < 4 && |p| >= 8
    ensures FromBits(p[..8]) < 256
    ensures Means(m, CRaw(fin, got), p, h, clean) == Means(m, CRaw(fin, got + [FromBits(p[..8])]), p[8..], h, clean)
  {
    Pow2Values();
    hide FromBits;
  }

  lemma RawDone(m: Mode, fin: bool, got: Bytes, p: Bitstring, h: Bytes, clean: bool)
    requires |got| == 4
    ensures var n := got[0] as int + 256 * (got[1] as int);
            Means(m, CRaw(fin, got), p, h, clean) ==
              if n + (got[2] as int + 256 * (got[3] as int)) != 65535 then None else
                  Means(m, CBytes(fin, n), p, h, clean)
  {
    hide TBytes;
  }

  lemma BytesStep(m: Mode, fin: bool, n: nat, p: Bitstring, h: Bytes, clean: bool)
    requires n > 0 && |p| >= 8
    ensures FromBits(p[..8]) < 256
    ensures Means(m, CBytes(fin, n), p, h, clean) == Means(m, CPut(fin, n - 1, FromBits(p[..8])), p[8..], h, clean)
  {
    Pow2Values();
    hide FromBits;
  }

  lemma PutMeans(m: Mode, fin: bool, n: nat, c: Byte, p: Bitstring, h: Bytes, clean: bool)
    ensures Means(m, CPut(fin, n, c), p, h, clean) == TBytes(m, fin, n, p, h + [c], clean)
  {
    hide TBytes;
  }

  lemma BytesDone(m: Mode, fin: bool, p: Bitstring, h: Bytes, clean: bool)
    ensures Means(m, CBytes(fin, 0), p, h, clean) == TAfter(m, fin, p, h, clean)
  {
    hide TAfter;
  }

  lemma AfterStep(m: Mode, p: Bitstring, h: Bytes, clean: bool)
    ensures TAfter(m, false, p, h, clean) == Means(m, CBlocks, p, h, clean)
    ensures TAfter(m, true, p, h, clean) == if m.zlib then Means(m, CTrailer(0, 1), FromByte(p), h, clean) else
            Means(m, CDone(1), FromByte(p), h, clean)
  {
    hide TBlocks, TTrailer, FromByte;
  }

  lemma TrailerStep(m: Mode, i: nat, adler: nat, p: Bitstring, h: Bytes, clean: bool)
    requires i < 4 && |p| >= 8
    ensures Means(m, CTrailer(i, adler), p, h, clean) ==
            Means(m, CTrailer(i + 1, (256 * adler + FromBits(p[..8])) % 0x1_0000_0000), p[8..], h, clean)
  {
    hide FromBits;
  }

  lemma TrailerDone(m: Mode, adler: nat, p: Bitstring, h: Bytes, clean: bool)
    ensures Means(m, CTrailer(4, adler), p, h, clean) == Means(m, CDone(adler), p, h, clean)
  {
  }

  lemma SizesStep(m: Mode, fin: bool, sizes: seq<nat>, p: Bitstring, h: Bytes, clean: bool)
    requires |sizes| < 3 && |p| >= SizeBits(|sizes|)
    ensures var n := SizeBits(|sizes|);
            Means(m, CSizes(fin, sizes), p, h, clean) ==
                Means(m, CSizes(fin, sizes + [FromBits(p[..n]) + SizeMin(|sizes|)]), p[n..], h, clean)
  {
    hide FromBits, SizeMin, SizeBits;
  }

  lemma SizesDone(m: Mode, fin: bool, sizes: seq<nat>, p: Bitstring, h: Bytes, clean: bool)
    requires |sizes| == 3
    ensures Means(m, CSizes(fin, sizes), p, h, clean) == Means(m, COrder(fin, sizes, 0, Repeated(0, 19)), p, h, clean)
  {
    hide TOrder;
  }

  lemma OrderStep(m: Mode, fin: bool, sizes: seq<nat>, i: nat, lens: Lens, p: Bitstring, h: Bytes, clean: bool)
    requires |sizes| == 3 && |lens| == 19 && i < sizes[2] <= 19 && |p| >= 3
    ensures Means(m, COrder(fin, sizes, i, lens), p, h, clean) ==
            Means(m, COrder(fin, sizes, i + 1, lens[Order(i) := FromBits(p[..3])]), p[3..], h, clean)
  {
    hide FromBits, Order;
  }

  lemma OrderDone(m: Mode, fin: bool, sizes: seq<nat>, i: nat, lens: Lens, p: Bitstring, h: Bytes, clean: bool)
    requires |sizes| == 3 && |lens| == 19 && i >= sizes[2]
    ensures Means(m, COrder(fin, sizes, i, lens), p, h, clean) == if Acceptable(lens) then
            Means(m, CLens(fin, sizes[0], sizes[1], lens, []), p, h, clean) else None
  {
    hide TLens, Acceptable;
    assert TOrder(m, fin, sizes, i, lens, p, h, clean) == TLenTable(m, fin, sizes[0], sizes[1], lens, p, h, clean);
  }

  lemma LensStep(m: Mode, fin: bool, nlit: nat, ndist: nat, lens: Lens, acc: Lens, p: Bitstring, h: Bytes, clean: bool)
    requires |acc| < nlit + ndist && Lookup(lens, p).Some?
    ensures var hit := Lookup(lens, p).value; var q := p[hit.len..]; var c := clean && !hit.missed;
            Means(m, CLens(fin, nlit, ndist, lens, acc), p, h, clean) ==
              if hit.sym < 16 then Means(m, CLens(fin, nlit, ndist, lens, acc + [hit.sym]), q, h, c)
              else Means(m, CLenRun(fin, nlit, ndist, lens, acc, hit.sym), q, h, c)
  {
    hide Lookup, TLenRun;
    var hit := Lookup(lens, p).value;
    assert TLens(m, fin, nlit, ndist, lens, acc, p, h, clean) ==
        TLenSym(m, fin, nlit, ndist, lens, acc, hit.sym, p[hit.len..], h, clean && !hit.missed);
  }

  lemma LenRunStep(m: Mode, fin: bool, nlit: nat, ndist: nat, lens: Lens, acc: Lens, sym: nat, p: Bitstring, h: Bytes,
      clean: bool)
    requires (sym == 16 ==> acc != []) && |p| >= RepeatBits(sym)
    ensures var n := RepeatBits(sym);
            Means(m, CLenRun(fin, nlit, ndist, lens, acc, sym), p, h, clean) ==
              Means(m, CLens(fin, nlit, ndist, lens, acc + Repeated(if sym == 16 then acc[|acc| - 1] else 0,
                  RepeatBase(sym) + FromBits(p[..n]))), p[n..], h, clean)
  {
    hide FromBits, TLens, Repeated, RepeatBits, RepeatBase;
  }

  lemma LensDone(m: Mode, fin: bool, nlit: nat, ndist: nat, lens: Lens, acc: Lens, p: Bitstring, h: Bytes, clean: bool)
    requires |acc| >= nlit + ndist
    ensures Means(m, CLens(fin, nlit, ndist, lens, acc), p, h, clean) ==
              if |acc| == nlit + ndist && Acceptable(acc[..nlit]) &&
                  Acceptable(acc[nlit..]) then Means(m, CSyms(fin, acc[..nlit], acc[nlit..]), p, h, clean)
              else None
  {
    hide TSyms, Acceptable, Lookup;
    if |acc| == nlit + ndist {
      assert TLens(m, fin, nlit, ndist, lens, acc, p, h, clean) == TTables(m, fin, nlit, acc, p, h, clean);
    }
  }

  /** What comes after a symbol. */
  function AfterSym(fin: bool, l: Lens, d: Lens, sym: nat): Ctl
    requires sym != 256
  {
    if sym < 256 then CLit(fin, l, d, sym) else CLength(fin, l, d, LenBase(sym - 257), LenBits(sym - 257))
  }

  lemma SymsStep(m: Mode, fin: bool, l: Lens, d: Lens, p: Bitstring, h: Bytes, clean: bool)
    requires Lookup(l, p).Some?
    ensures var hit := Lookup(l, p).value; var q := p[hit.len..]; var c := clean && !hit.missed;
            (hit.len == 0 ==> hit.sym == 0) ==>
            Means(m, CSyms(fin, l, d), p, h, clean) ==
              if hit.sym == 256 then TAfter(m, fin, q, h, c) else Means(m, AfterSym(fin, l, d, hit.sym), q, h, c)
  {
    hide Lookup, TLength, TAfter, LenBase, LenBits;
    var hit := Lookup(l, p).value;
    if hit.len == 0 {
      assert p[0..] == p;
    } else {
      assert TSyms(m, fin, l, d, p, h, clean) == TSym(m, fin, l, d, hit.sym, p[hit.len..], h, clean && !hit.missed);
    }
  }

  /** Only symbol 0 is ever found in no bits. */
  lemma NoBits(l: Lens, p: Bitstring)
    requires Lookup(l, p).Some? && Lookup(l, p).value.len == 0
    ensures Lookup(l, p).value.sym == 0 && Lookup(l, p).value.missed
  {
    if |p| > FAST_BITS && Inner(l, p[..FAST_BITS]) && Follow(l, p, FAST_BITS).Some? {
      FollowLong(l, p, FAST_BITS);
    }
  }

  lemma LengthStep(m: Mode, fin: bool, l: Lens, d: Lens, base: nat, extra: nat, p: Bitstring, h: Bytes, clean: bool)
    requires |p| >= extra
    ensures Means(m, CLength(fin, l, d, base, extra), p, h, clean) ==
            Means(m, CDistance(fin, l, d, base + FromBits(p[..extra])), p[extra..], h, clean)
  {
    hide FromBits, TDistance;
  }

  lemma DistanceStep(m: Mode, fin: bool, l: Lens, d: Lens, len: nat, p: Bitstring, h: Bytes, clean: bool)
    requires Lookup(d, p).Some?
    ensures var hit := Lookup(d, p).value;
            Means(m, CDistance(fin, l, d, len), p, h, clean) ==
              Means(m, CDistBits(fin, l, d, len, DisBase(hit.sym), DisBits(hit.sym)), p[hit.len..], h,
                  clean && !hit.missed)
  {
    hide Lookup, TDistBits, DisBase, DisBits;
  }

  lemma DistBitsStep(m: Mode, fin: bool, l: Lens, d: Lens, len: nat, base: nat, extra: nat, p: Bitstring, h: Bytes,
      clean: bool)
    requires |p| >= extra
    ensures Means(m, CDistBits(fin, l, d, len, base, extra), p, h, clean) ==
            Means(m, CMatch(fin, l, d, len, base + FromBits(p[..extra])), p[extra..], h, clean)
  {
    hide FromBits, TMatch;
  }

  lemma MatchStep(m: Mode, fin: bool, l: Lens, d: Lens, len: nat, dist: nat, p: Bitstring, h: Bytes, clean: bool)
    ensures Means(m, CMatch(fin, l, d, len, dist), p, h, clean) ==
              match Effective(m.reach, |h|, dist)
              case None => None
              case Some(back) => TSyms(m, fin, l, d, p, CopyMatch(h, len, back), clean)
  {
    hide TSyms, CopyMatch, Effective;
  }

  /** Too few bits mean failure, if no more come. */
  lemma StuckBits(m: Mode, c: Ctl, p: Bitstring, h: Bytes, clean: bool, n: nat)
    requires |p| < n
    requires match c
             case CBlocks => n == 3
             case CHeader(_) => n == 8
             case CStart => m.zlib && n == 8
             case CRaw(_, got) => |got| < 4 && n == 8
             case CBytes(_, k) => k > 0 && n == 8
             case CSizes(_, sizes) => |sizes| < 3 && n == SizeBits(|sizes|)
             case COrder(_, sizes, i, lens) => |sizes| == 3 && |lens| == 19 && i < sizes[2] <= 19 && n == 3
             case CLenRun(_, _, _, _, acc, sym) => (sym == 16 ==> acc != []) && n == RepeatBits(sym)
             case CLength(_, _, _, _, extra) => n == extra
             case CDistBits(_, _, _, _, _, extra) => n == extra
             case CTrailer(i, _) => i < 4 && n == 8
             case _ => false
    ensures Means(m, c, p, h, clean) == None
  {
    hide FromBits, SizeBits, RepeatBits;
  }

  lemma StuckLookup(m: Mode, c: Ctl, p: Bitstring, h: Bytes, clean: bool)
    requires match c
             case CLens(_, nlit, ndist, lens, acc) => |acc| < nlit + ndist && Lookup(lens, p) == None
             case CSyms(_, l, _) => Lookup(l, p) == None
             case CDistance(_, _, d, _) => Lookup(d, p) == None
             case _ => false
    ensures Means(m, c, p, h, clean) == None
  {
    hide Lookup;
  }
}
