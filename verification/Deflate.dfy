/**
 The meaning of a DEFLATE stream (RFC 1951), independent of both coders.

 `Inflate` reads a bit string and gives the bytes it stands for together with the bits after the
 final block, or nothing if the stream is invalid.  Codes are looked up by their definition
 (`Canonical.DecodeSym`), not by tables.  `TokenBits` is how one literal or match is written.
 */
module Deflate {
  import opened Bits
  import opened Canonical
  import opened HuffmanTable
  import opened Wrappers

  datatype Token = Literal(b: Byte) | Match(len: nat, dist: nat)

  type Decoded = Option<(seq<Byte>, Bitstring)>

  predicate ValidToken(t: Token) {
    t.Literal? || (3 <= t.len <= 258 && 1 <= t.dist <= 32768)
  }

  // ---------- expanding tokens ----------

  /** Copies `len` bytes from `dist` bytes back; the source may overlap what is being written. */
  function CopyMatch(out: seq<Byte>, len: nat, dist: nat): (r: seq<Byte>)
    requires 0 < dist <= |out|
    ensures |r| == |out| + len && out <= r
    decreases len
  {
    if len == 0 then out else CopyMatch(out + [out[|out| - dist]], len - 1, dist)
  }

  predicate Expandable(out: seq<Byte>, t: Token) {
    ValidToken(t) && (t.Match? ==> t.dist <= |out|)
  }

  function ExpandOne(out: seq<Byte>, t: Token): seq<Byte>
    requires Expandable(out, t)
  {
    match t
    case Literal(b) => out + [b]
    case Match(len, dist) => CopyMatch(out, len, dist)
  }

  predicate ExpandableAll(out: seq<Byte>, ts: seq<Token>)
    decreases ts
  {
    ts == [] || (Expandable(out, ts[0]) && ExpandableAll(ExpandOne(out, ts[0]), ts[1..]))
  }

  function Expand(out: seq<Byte>, ts: seq<Token>): seq<Byte>
    requires ExpandableAll(out, ts)
    decreases ts
  {
    if ts == [] then out else Expand(ExpandOne(out, ts[0]), ts[1..])
  }

  lemma {:induction false} ExpandSnoc(out: seq<Byte>, ts: seq<Token>, t: Token)
    requires ExpandableAll(out, ts) && Expandable(Expand(out, ts), t)
    ensures ExpandableAll(out, ts + [t]) && Expand(out, ts + [t]) == ExpandOne(Expand(out, ts), t)
    decreases ts
  {
    if ts == [] {
      assert [t][1..] == [];
    } else {
      ExpandSnoc(ExpandOne(out, ts[0]), ts[1..], t);
      assert (ts + [t])[1..] == ts[1..] + [t];
    }
  }

  // ---------- the symbols of lengths and distances (section 3.2.5) ----------

  /** `s_length_base` and `s_length_extra`, from symbol 257 on. */
  function LengthBase(k: nat): nat
    requires k < 29
  {
    match k
    case 0 => 3 case 1 => 4 case 2 => 5 case 3 => 6 case 4 => 7 case 5 => 8 case 6 => 9 case 7 => 10 case 8 => 11
    case 9 => 13 case 10 => 15 case 11 => 17 case 12 => 19 case 13 => 23 case 14 => 27 case 15 => 31 case 16 => 35
    case 17 => 43 case 18 => 51 case 19 => 59 case 20 => 67 case 21 => 83 case 22 => 99 case 23 => 115
    case 24 => 131 case 25 => 163 case 26 => 195 case 27 => 227 case _ => 258
  }

  function LengthExtra(k: nat): nat
    requires k < 29
  {
    if k < 8 then 0 else if k < 12 then 1 else if k < 16 then 2 else if k < 20 then 3
    else if k < 24 then 4 else if k < 28 then 5 else 0
  }

  /** `s_dist_base` and `s_dist_extra`. */
  function DistBase(k: nat): (b: nat)
    requires k < 30
    ensures b > 0
  {
    match k
    case 0 => 1 case 1 => 2 case 2 => 3 case 3 => 4 case 4 => 5 case 5 => 7 case 6 => 9 case 7 => 13 case 8 => 17
    case 9 => 25 case 10 => 33 case 11 => 49 case 12 => 65 case 13 => 97 case 14 => 129 case 15 => 193
    case 16 => 257 case 17 => 385 case 18 => 513 case 19 => 769 case 20 => 1025 case 21 => 1537 case 22 => 2049
    case 23 => 3073 case 24 => 4097 case 25 => 6145 case 26 => 8193 case 27 => 12289 case 28 => 16385
    case _ => 24577
  }

  function DistExtra(k: nat): nat
    requires k < 30
  {
    if k < 4 then 0 else (k - 2) / 2
  }

  // ---------- reading symbols ----------

  function ReadBits(bits: Bitstring, n: nat): Option<(nat, Bitstring)> {
    if |bits| < n then None else Some((FromBits(bits[..n]), bits[n..]))
  }

  /** What follows a length symbol: its extra bits, then a distance symbol and its extra bits. */
  ghost function DecodeLength(d: Lens, sym: nat, bits: Bitstring): (r: Option<((nat, nat), Bitstring)>)
    requires 257 <= sym
    ensures r.Some? ==> |r.value.1| <= |bits| && r.value.0.1 > 0
  {
    if sym >= 286 then None else
    match ReadBits(bits, LengthExtra(sym - 257))
    case None => None
    case Some((extra, rest)) => DecodeDistance(d, LengthBase(sym - 257) + extra, rest)
  }

  ghost function DecodeDistance(d: Lens, len: nat, bits: Bitstring): (r: Option<((nat, nat), Bitstring)>)
    ensures r.Some? ==> |r.value.1| <= |bits| && r.value.0.1 > 0
  {
    match DecodeSym(d, bits)
    case None => None
    case Some((sym, rest)) => DecodeDistExtra(sym, len, rest)
  }

  ghost function DecodeDistExtra(sym: nat, len: nat, bits: Bitstring): (r: Option<((nat, nat), Bitstring)>)
    ensures r.Some? ==> |r.value.1| <= |bits| && r.value.0.1 > 0
  {
    if sym >= 30 then None else
    match ReadBits(bits, DistExtra(sym))
    case None => None
    case Some((extra, rest)) => Some(((len, DistBase(sym) + extra), rest))
  }

  /** Literals and matches up to the end-of-block symbol. */
  ghost function DecodeSymbols(l: Lens, d: Lens, bits: Bitstring, out: seq<Byte>): (r: Decoded)
    ensures r.Some? ==> |r.value.1| < |bits|
    decreases |bits|, 0
  {
    match DecodeSym(l, bits)
    case None => None
    case Some((sym, rest)) => AfterSymbol(l, d, sym, rest, out)
  }

  ghost function AfterSymbol(l: Lens, d: Lens, sym: nat, bits: Bitstring, out: seq<Byte>): (r: Decoded)
    ensures r.Some? ==> |r.value.1| <= |bits|
    decreases |bits|, 2
  {
    if sym < 256 then DecodeSymbols(l, d, bits, out + [sym])
    else if sym == 256 then Some((out, bits))
    else
      match DecodeLength(d, sym, bits)
      case None => None
      case Some(((len, dist), rest)) => AfterMatch(l, d, len, dist, rest, out)
  }

  ghost function AfterMatch(l: Lens, d: Lens, len: nat, dist: nat, bits: Bitstring, out: seq<Byte>): (r: Decoded)
    requires dist > 0
    ensures r.Some? ==> |r.value.1| <= |bits|
    decreases |bits|, 1
  {
    if dist > |out| then None else DecodeSymbols(l, d, bits, CopyMatch(out, len, dist))
  }

  // ---------- the header of a dynamic block (section 3.2.7) ----------

  /** The order in which the lengths of the code-length code are sent. */
  function Order(i: nat): (k: nat)
    requires i < 19
    ensures k < 19
  {
    match i
    case 0 => 16 case 1 => 17 case 2 => 18 case 3 => 0 case 4 => 8 case 5 => 7 case 6 => 9 case 7 => 6
    case 8 => 10 case 9 => 5 case 10 => 11 case 11 => 4 case 12 => 12 case 13 => 3 case 14 => 13 case 15 => 2
    case 16 => 14 case 17 => 1 case _ => 15
  }

  /** Lengths of the code-length code, from position `i` on of the order they are sent in. */
  function ReadCodeLengthLens(bits: Bitstring, i: nat, n: nat, lens: Lens): (r: Option<(Lens, Bitstring)>)
    requires i <= n <= 19 && |lens| == 19
    ensures r.Some? ==> |r.value.1| <= |bits| && |r.value.0| == 19
    decreases n - i
  {
    if i == n then Some((lens, bits)) else
    match ReadBits(bits, 3)
    case None => None
    case Some((v, rest)) => ReadCodeLengthLens(rest, i + 1, n, lens[Order(i) := v])
  }

  /** Repeat counts of the symbols 16, 17 and 18: extra bits and smallest count. */
  function RepeatBits(sym: nat): nat {
    if sym == 16 then 2 else if sym == 17 then 3 else 7
  }

  function RepeatBase(sym: nat): nat {
    if sym == 18 then 11 else 3
  }

  /** Code lengths until there are `n` of them; `acc` are those already read. */
  ghost function ReadLens(c: Lens, bits: Bitstring, n: nat, acc: Lens): (r: Option<(Lens, Bitstring)>)
    ensures r.Some? ==> |r.value.1| <= |bits| && |r.value.0| == n
    decreases |bits|, 1
  {
    if |acc| == n then Some((acc, bits))
    else if |acc| > n then None
    else
      match DecodeSym(c, bits)
      case None => None
      case Some((sym, rest)) => AfterLenSymbol(c, sym, rest, n, acc)
  }

  ghost function AfterLenSymbol(c: Lens, sym: nat, bits: Bitstring, n: nat, acc: Lens): (r: Option<(Lens, Bitstring)>)
    ensures r.Some? ==> |r.value.1| <= |bits| && |r.value.0| == n
    decreases |bits|, 2
  {
    if sym < 16 then ReadLens(c, bits, n, acc + [sym])
    else if sym > 18 || (sym == 16 && acc == []) then None
    else
      match ReadBits(bits, RepeatBits(sym))
      case None => None
      case Some((extra, rest)) =>
        var v := if sym == 16 then acc[|acc| - 1] else 0;
        ReadLens(c, rest, n, acc + Repeated(v, RepeatBase(sym) + extra))
  }

  // ---------- blocks (section 3.2.3) ----------

  function FixedLit(): Lens {
    Repeated(8, 144) + Repeated(9, 112) + Repeated(7, 24) + Repeated(8, 8)
  }

  function FixedDist(): Lens {
    Repeated(5, 32)
  }

  ghost function Inflate(bits: Bitstring, out: seq<Byte>): (r: Decoded)
    ensures r.Some? ==> |r.value.1| < |bits|
    decreases |bits|, 3
  {
    match ReadBits(bits, 3)
    case None => None
    case Some((head, rest)) =>
      match Block(head / 2, rest, out)
      case None => None
      case Some((out', rest')) => AfterBlock(head % 2 == 1, rest', out')
  }

  /** What comes after a block: the end of the stream or the next block. */
  ghost function AfterBlock(last: bool, bits: Bitstring, out: seq<Byte>): (r: Decoded)
    ensures r.Some? ==> |r.value.1| <= |bits|
    decreases |bits|, 4
  {
    if last then Some((out, bits)) else Inflate(bits, out)
  }

  ghost function Block(type_: nat, bits: Bitstring, out: seq<Byte>): (r: Decoded)
    ensures r.Some? ==> |r.value.1| <= |bits|
  {
    if type_ == 0 then Stored(bits, out)
    else if type_ == 1 then DecodeSymbols(FixedLit(), FixedDist(), bits, out)
    else if type_ == 2 then Dynamic(bits, out)
    else None
  }

  /** A stored block starts at a byte boundary, which is found from the end of the stream. */
  function Stored(bits: Bitstring, out: seq<Byte>): (r: Decoded)
    ensures r.Some? ==> |r.value.1| <= |bits|
  {
    var aligned := bits[|bits| % 8..];
    match ReadBits(aligned, 16)
    case None => None
    case Some((len, rest)) =>
      match ReadBits(rest, 16)
      case None => None
      case Some((nlen, rest2)) => if len + nlen != 65535 then None else StoredBytes(len, rest2, out)
  }

  function StoredBytes(n: nat, bits: Bitstring, out: seq<Byte>): (r: Decoded)
    ensures r.Some? ==> |r.value.1| <= |bits|
  {
    if n == 0 then Some((out, bits)) else
    match ReadBits(bits, 8)
    case None => None
    case Some((b, rest)) =>
      assert Pow2(8) == 256;
      StoredBytes(n - 1, rest, out + [b])
  }

  ghost function Dynamic(bits: Bitstring, out: seq<Byte>): (r: Decoded)
    ensures r.Some? ==> |r.value.1| <= |bits|
  {
    match ReadBits(bits, 5)
    case None => None
    case Some((hlit, rest)) => DynamicDist(hlit + 257, rest, out)
  }

  ghost function DynamicDist(nlit: nat, bits: Bitstring, out: seq<Byte>): (r: Decoded)
    ensures r.Some? ==> |r.value.1| <= |bits|
  {
    match ReadBits(bits, 5)
    case None => None
    case Some((hdist, rest)) => DynamicClen(nlit, hdist + 1, rest, out)
  }

  ghost function DynamicClen(nlit: nat, ndist: nat, bits: Bitstring, out: seq<Byte>): (r: Decoded)
    ensures r.Some? ==> |r.value.1| <= |bits|
  {
    match ReadBits(bits, 4)
    case None => None
    case Some((hclen, rest)) => DynamicOrder(nlit, ndist, hclen + 4, 0, Repeated(0, 19), rest, out)
  }

  /** The rest of the header once `i` of `n` code-length lengths have been read. */
  ghost function DynamicOrder(nlit: nat, ndist: nat, n: nat, i: nat, lens: Lens, bits: Bitstring,
      out: seq<Byte>): (r: Decoded)
    requires |lens| == 19 && i <= n
    ensures r.Some? ==> |r.value.1| <= |bits|
  {
    if n > 19 then None else
    match ReadCodeLengthLens(bits, i, n, lens)
    case None => None
    case Some((c, rest)) => DynamicLens(c, nlit, ndist, rest, out)
  }

  ghost function DynamicLens(c: Lens, nlit: nat, ndist: nat, bits: Bitstring, out: seq<Byte>): (r: Decoded)
    ensures r.Some? ==> |r.value.1| <= |bits|
  {
    if !Acceptable(c) then None else
    match ReadLens(c, bits, nlit + ndist, [])
    case None => None
    case Some((all, rest)) => DynamicCodes(all[..nlit], all[nlit..], rest, out)
  }

  ghost function DynamicCodes(l: Lens, d: Lens, bits: Bitstring, out: seq<Byte>): (r: Decoded)
    ensures r.Some? ==> |r.value.1| <= |bits|
  {
    if !Acceptable(l) || !Acceptable(d) then None else DecodeSymbols(l, d, bits, out)
  }
}
