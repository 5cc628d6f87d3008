/**
 What `tinfl_decompress` (external/miniz.c) makes of a stream, as a function of the stream alone:
 not of how its bytes arrive, nor of how much room there is for the output at a time.

 There is one function for every place where the decompressor may have to stop, so that the
 meaning of a stopped decompressor can be told.  It accepts more than RFC 1951 allows: incomplete
 codes with at most one symbol, and the symbols 286 and 287 and the distances 30 and 31, whose
 tables say 0.  `clean` records whether every bit string looked up was a code.
 */
module Tinfl {
  import opened Bits
  import opened Canonical
  import opened Deflate
  import opened HuffmanTable
  import opened TrieCode
  import opened Wrappers

  /** The output buffer: all of the output, or a ring of the given size. */
  datatype Reach = Linear | Ring(size: nat)

  datatype Mode = Mode(reach: Reach, zlib: bool)

  datatype Final = Final(hist: Bytes, adler: nat, rest: Bitstring, clean: bool)

  type Res = Option<Final>

  /** How far back a distance goes.  In a ring, distance 0 is once around. */
  function Effective(reach: Reach, n: nat, dist: nat): (r: Option<nat>)
    ensures r.Some? ==> 0 < r.value <= n
  {
    match reach
    case Linear => if 0 < dist <= n then Some(dist) else None
    case Ring(m) =>
      if m == 0 || m > n then None
      else if dist % m == 0 then Some(m) else Some(dist % m)
  }

  /** `s_length_base` and its companions, to the end. */
  function LenBase(k: nat): nat {
    if k < 29 then LengthBase(k) else 0
  }

  function LenBits(k: nat): (n: nat)
    ensures n <= 5
  {
    if k < 29 then LengthExtra(k) else 0
  }

  function DisBase(k: nat): nat {
    if k < 30 then DistBase(k) else 0
  }

  function DisBits(k: nat): (n: nat)
    ensures n <= 13
  {
    if k < 30 then DistExtra(k) else 0
  }

  /** The rest of a stream from the next byte boundary on. */
  function FromByte(rest: Bitstring): (r: Bitstring)
    ensures |r| <= |rest|
  {
    rest[|rest| % 8..]
  }

  // ---------- the end of the stream ----------

  function TEnd(m: Mode, bits: Bitstring, h: Bytes, clean: bool): Res {
    if m.zlib then TTrailer(0, 1, FromByte(bits), h, clean) else Some(Final(h, 1, FromByte(bits), clean))
  }

  function TTrailer(i: nat, adler: nat, bits: Bitstring, h: Bytes, clean: bool): Res
    requires i <= 4
    decreases 4 - i
  {
    if i == 4 then Some(Final(h, adler, bits, clean)) else
    match ReadBits(bits, 8)
    case None => None
    case Some((v, rest)) => TTrailer(i + 1, (256 * adler + v) % 0x1_0000_0000, rest, h, clean)
  }

  // ---------- blocks ----------

  ghost function TAfter(m: Mode, fin: bool, bits: Bitstring, h: Bytes, clean: bool): Res
    decreases |bits|, 2
  {
    if fin then TEnd(m, bits, h, clean) else TBlocks(m, bits, h, clean)
  }

  ghost function TBlocks(m: Mode, bits: Bitstring, h: Bytes, clean: bool): Res
    decreases |bits|, 1
  {
    match ReadBits(bits, 3)
    case None => None
    case Some((v, rest)) => TBlock(m, v % 2 == 1, v / 2, rest, h, clean)
  }

  ghost function TBlock(m: Mode, fin: bool, type_: nat, bits: Bitstring, h: Bytes, clean: bool): Res
    decreases |bits|, 7
  {
    if type_ == 0 then TRaw(m, fin, [], FromByte(bits), h, clean)
    else if type_ == 1 then TSyms(m, fin, FixedLit(), FixedDist(), bits, h, clean)
    else if type_ == 2 then TSizes(m, fin, [], bits, h, clean)
    else None
  }

  // ---------- stored blocks ----------

  /** The four header bytes, `got` of which have been read. */
  ghost function TRaw(m: Mode, fin: bool, got: Bytes, bits: Bitstring, h: Bytes, clean: bool): Res
    decreases |bits|, 4
  {
    if |got| >= 4 then
      var n := got[0] as int + 256 * (got[1] as int);
      if n + (got[2] as int + 256 * (got[3] as int)) != 65535 then None else TBytes(m, fin, n, bits, h, clean)
    else
      match ReadBits(bits, 8)
      case None => None
      case Some((v, rest)) => assert Pow2(8) == 256; TRaw(m, fin, got + [v], rest, h, clean)
  }

  ghost function TBytes(m: Mode, fin: bool, n: nat, bits: Bitstring, h: Bytes, clean: bool): Res
    decreases |bits|, 3
  {
    if n == 0 then TAfter(m, fin, bits, h, clean) else
    match ReadBits(bits, 8)
    case None => None
    case Some((v, rest)) => assert Pow2(8) == 256; TBytes(m, fin, n - 1, rest, h + [v], clean)
  }

  // ---------- the header of a dynamic block ----------

  /** Width and smallest value of the three counts. */
  function SizeBits(i: nat): (n: nat)
    ensures n <= 5
  {
    if i < 2 then 5 else 4
  }

  function SizeMin(i: nat): nat {
    if i == 0 then 257 else if i == 1 then 1 else 4
  }

  ghost function TSizes(m: Mode, fin: bool, sizes: seq<nat>, bits: Bitstring, h: Bytes, clean: bool): Res
    decreases |bits|, 6
  {
    if |sizes| >= 3 then TOrder(m, fin, sizes, 0, Repeated(0, 19), bits, h, clean) else
    match ReadBits(bits, SizeBits(|sizes|))
    case None => None
    case Some((v, rest)) => TSizes(m, fin, sizes + [v + SizeMin(|sizes|)], rest, h, clean)
  }

  ghost function TOrder(m: Mode, fin: bool, sizes: seq<nat>, i: nat, c: Lens, bits: Bitstring, h: Bytes,
      clean: bool): Res
    requires |sizes| >= 3 && |c| == 19
    decreases |bits|, 5
  {
    if i >= sizes[2] || i >= 19 then TLenTable(m, fin, sizes[0], sizes[1], c, bits, h, clean) else
    match ReadBits(bits, 3)
    case None => None
    case Some((v, rest)) => TOrder(m, fin, sizes, i + 1, c[Order(i) := v], rest, h, clean)
  }

  ghost function TLenTable(m: Mode, fin: bool, nlit: nat, ndist: nat, c: Lens, bits: Bitstring, h: Bytes,
      clean: bool): Res
    decreases |bits|, 4
  {
    if Acceptable(c) then TLens(m, fin, nlit, ndist, c, [], bits, h, clean) else None
  }

  function Left(n: nat, k: nat): nat {
    if k <= n then n - k else 0
  }

  /** Code lengths, of which `acc` have been read. */
  ghost function TLens(m: Mode, fin: bool, nlit: nat, ndist: nat, c: Lens, acc: Lens, bits: Bitstring, h: Bytes,
      clean: bool): Res
    decreases |bits|, 3, Left(nlit + ndist, |acc|), 1
  {
    if |acc| == nlit + ndist then TTables(m, fin, nlit, acc, bits, h, clean)
    else if |acc| > nlit + ndist then None
    else
      match Lookup(c, bits)
      case None => None
      case Some(hit) => TLenSym(m, fin, nlit, ndist, c, acc, hit.sym, bits[hit.len..], h, clean && !hit.missed)
  }

  ghost function TLenSym(m: Mode, fin: bool, nlit: nat, ndist: nat, c: Lens, acc: Lens, sym: nat, bits: Bitstring,
      h: Bytes, clean: bool): Res
    requires |acc| < nlit + ndist
    decreases |bits|, 3, Left(nlit + ndist, |acc|), 0
  {
    if sym < 16 then TLens(m, fin, nlit, ndist, c, acc + [sym], bits, h, clean)
    else if sym == 16 && acc == [] then None
    else TLenRun(m, fin, nlit, ndist, c, acc, sym, bits, h, clean)
  }

  ghost function TLenRun(m: Mode, fin: bool, nlit: nat, ndist: nat, c: Lens, acc: Lens, sym: nat, bits: Bitstring,
      h: Bytes, clean: bool): Res
    requires (sym == 16 ==> acc != [])
    decreases |bits|, 2
  {
    match ReadBits(bits, RepeatBits(sym))
    case None => None
    case Some((v, rest)) =>
      TLens(m, fin, nlit, ndist, c, acc + Repeated(if sym == 16 then acc[|acc| - 1] else 0, RepeatBase(sym) + v),
          rest, h, clean)
  }

  ghost function TTables(m: Mode, fin: bool, nlit: nat, all: Lens, bits: Bitstring, h: Bytes, clean: bool): Res
    decreases |bits|, 1
  {
    if nlit <= |all| && Acceptable(all[nlit..]) &&
        Acceptable(all[..nlit]) then TSyms(m, fin, all[..nlit], all[nlit..], bits, h, clean) else None
  }

  // ---------- literals and matches ----------

  /** A symbol that takes no bits is found again and again. */
  ghost function TSyms(m: Mode, fin: bool, l: Lens, d: Lens, bits: Bitstring, h: Bytes, clean: bool): Res
    decreases |bits|, 0
  {
    match Lookup(l, bits)
    case None => None
    case Some(hit) => if hit.len == 0 then None else
        TSym(m, fin, l, d, hit.sym, bits[hit.len..], h, clean && !hit.missed)
  }

  ghost function TSym(m: Mode, fin: bool, l: Lens, d: Lens, sym: nat, bits: Bitstring, h: Bytes, clean: bool): Res
    decreases |bits|, 5
  {
    if sym < 256 then TSyms(m, fin, l, d, bits, h + [sym], clean)
    else if sym == 256 then TAfter(m, fin, bits, h, clean)
    else TLength(m, fin, l, d, LenBase(sym - 257), LenBits(sym - 257), bits, h, clean)
  }

  ghost function TLength(m: Mode, fin: bool, l: Lens, d: Lens, base: nat, extra: nat, bits: Bitstring, h: Bytes,
      clean: bool): Res
    decreases |bits|, 4
  {
    match ReadBits(bits, extra)
    case None => None
    case Some((v, rest)) => TDistance(m, fin, l, d, base + v, rest, h, clean)
  }

  ghost function TDistance(m: Mode, fin: bool, l: Lens, d: Lens, len: nat, bits: Bitstring, h: Bytes, clean: bool): Res
    decreases |bits|, 3
  {
    match Lookup(d, bits)
    case None => None
    case Some(hit) => TDistBits(m, fin, l, d, len, DisBase(hit.sym), DisBits(hit.sym), bits[hit.len..], h,
        clean && !hit.missed)
  }

  ghost function TDistBits(m: Mode, fin: bool, l: Lens, d: Lens, len: nat, base: nat, extra: nat, bits: Bitstring,
      h: Bytes, clean: bool): Res
    decreases |bits|, 2
  {
    match ReadBits(bits, extra)
    case None => None
    case Some((v, rest)) => TMatch(m, fin, l, d, len, base + v, rest, h, clean)
  }

  ghost function TMatch(m: Mode, fin: bool, l: Lens, d: Lens, len: nat, dist: nat, bits: Bitstring, h: Bytes,
      clean: bool): Res
    decreases |bits|, 1
  {
    match Effective(m.reach, |h|, dist)
    case None => None
    case Some(back) => TSyms(m, fin, l, d, bits, CopyMatch(h, len, back), clean)
  }

  // ---------- the beginning of the stream ----------

  /** The zlib header: method, check, no dictionary, and a window that the buffer can hold. */
  predicate HeaderOk(reach: Reach, cmf: Byte, flg: Byte) {
    && (256 * cmf + flg) % 31 == 0 && (flg / 32) % 2 == 0 && cmf % 16 == 8
    && (reach.Ring? ==> Pow2(8 + cmf / 16) <= 32768 && Pow2(8 + cmf / 16) <= reach.size)
  }

  ghost function TStart(m: Mode, bits: Bitstring, h: Bytes): Res {
    if !m.zlib then TBlocks(m, bits, h, true) else
    match ReadBits(bits, 8)
    case None => None
    case Some((cmf, rest)) => assert Pow2(8) == 256; THeader(m, cmf, rest, h)
  }

  ghost function THeader(m: Mode, cmf: Byte, bits: Bitstring, h: Bytes): Res {
    match ReadBits(bits, 8)
    case None => None
    case Some((flg, rest)) =>
      assert Pow2(8) == 256;
      if HeaderOk(m.reach, cmf, flg) then TBlocks(m, rest, h, true) else None
  }
}
