/**
 How the compressor writes one literal or match, and that the decoder's tables undo it.

 The compressor's symbol tables (`s_tdefl_len_sym` and its companions in external/miniz.c) are
 long runs of equal entries; they are kept here as the places where the runs start.
 */
module TokenCode {
  import opened Bits
  import opened Canonical
  import opened HuffmanTable
  import opened Deflate
  import opened Wrappers

  /** `s_tdefl_len_sym` and `s_tdefl_len_extra`, at the match length less 3. */
  function LenSym(m: nat): (s: nat)
    ensures 257 <= s <= 285
  {
    if m < 8 then 257 + m
    else
    if m < 10 then 265 else if m < 12 then 266 else if m < 14 then 267 else if m < 16 then 268 else
    if m < 20 then 269 else if m < 24 then 270 else if m < 28 then 271 else if m < 32 then 272 else
    if m < 40 then 273 else if m < 48 then 274 else if m < 56 then 275 else if m < 64 then 276 else
    if m < 80 then 277 else if m < 96 then 278 else if m < 112 then 279 else if m < 128 then 280 else
    if m < 160 then 281 else if m < 192 then 282 else if m < 224 then 283 else if m < 255 then 284 else 285
  }

  function LenExtra(m: nat): nat {
    if m < 8 then 0 else if m < 16 then 1 else if m < 32 then 2 else if m < 64 then 3
    else if m < 128 then 4 else if m < 255 then 5 else 0
  }

  /** The distance tables at the distance less 1: small below 512, large by its high byte above. */
  function DistSym(d: nat): (s: nat)
    ensures s < 30
  {
    if d < 512 then SmallDistSym(d) else LargeDistSym(d / 256)
  }

  function DistExtraOf(d: nat): nat {
    if d < 512 then SmallDistExtra(d) else LargeDistExtra(d / 256)
  }

  function SmallDistSym(d: nat): (s: nat)
    ensures s < 18
  {
    if d < 4 then d
    else
    if d < 6 then 4 else if d < 8 then 5 else if d < 12 then 6 else if d < 16 then 7 else
    if d < 24 then 8 else if d < 32 then 9 else if d < 48 then 10 else if d < 64 then 11 else
    if d < 96 then 12 else if d < 128 then 13 else if d < 192 then 14 else if d < 256 then 15 else
    if d < 384 then 16 else 17
  }

  function LargeDistSym(h: nat): (s: nat)
    ensures s < 30
  {
    if h < 2 then 0 else if h < 3 then 18 else if h < 4 then 19 else if h < 6 then 20 else
    if h < 8 then 21 else if h < 12 then 22 else if h < 16 then 23 else if h < 24 then 24 else
    if h < 32 then 25 else if h < 48 then 26 else if h < 64 then 27 else if h < 96 then 28 else 29
  }

  function SmallDistExtra(d: nat): nat {
    if d < 4 then 0 else if d < 8 then 1 else if d < 16 then 2 else if d < 32 then 3
    else if d < 64 then 4 else if d < 128 then 5 else if d < 256 then 6 else 7
  }

  function LargeDistExtra(h: nat): nat {
    if h < 2 then 0 else if h < 4 then 8 else if h < 8 then 9 else if h < 16 then 10
    else if h < 32 then 11 else if h < 64 then 12 else 13
  }

  lemma {:induction false} LowUnique(n: nat, q: nat, r: nat)
    requires r < Pow2(n)
    ensures Low(Pow2(n) * q + r, n) == r
  {
    if n > 0 {
      var h := Pow2(n - 1) * q;
      MulAssoc(2, Pow2(n - 1), q);
      assert (2 * h + r) / 2 == h + r / 2 && (2 * h + r) % 2 == r % 2;
      LowUnique(n - 1, q, r / 2);
    }
  }

  /** Within its run a length differs from the start of the run by its extra bits. */
  lemma LenRun(m: nat)
    requires m < 256
    ensures var k := LenSym(m) - 257;
            LenExtra(m) == LengthExtra(k) && LengthBase(k) + Low(m, LenExtra(m)) == m + 3
  {
    var k := LenSym(m) - 257;
    LenRunShape(m);
    hide Pow2, Low, LengthBase, LenSym, LenExtra, LengthExtra;
    LowUnique(LenExtra(m), if k < 4 || k == 28 then m else 4 + k % 4, m - (LengthBase(k) - 3));
  }

  lemma LenRunShape(m: nat)
    requires m < 256
    ensures var k, e := LenSym(m) - 257, LenExtra(m);
            e == LengthExtra(k) && LengthBase(k) - 3 == Pow2(e) * (if k < 4 || k == 28 then m else 4 + k % 4)
            && 0 <= m - (LengthBase(k) - 3) < Pow2(e)
  {
    Pow2Values();
    assert Pow2(0) == 1;
    hide Pow2;
  }

  /** The same for distances. */
  lemma DistRun(d: nat)
    requires d < 32768
    ensures var k := DistSym(d);
            DistExtraOf(d) == DistExtra(k) && DistBase(k) + Low(d, DistExtraOf(d)) == d + 1
  {
    var k := DistSym(d);
    if d < 512 {
      SmallDistShape(d);
    } else {
      LargeDistShape(d);
    }
    hide Pow2, Low, DistBase, DistExtra, SmallDistSym, SmallDistExtra, LargeDistSym, LargeDistExtra;
    LowUnique(DistExtraOf(d), if k < 2 then d else 2 + k % 2, d - (DistBase(k) - 1));
  }

  lemma SmallDistShape(d: nat)
    requires d < 512
    ensures var k, e := SmallDistSym(d), SmallDistExtra(d);
            e == DistExtra(k) && DistBase(k) - 1 == Pow2(e) * (if k < 2 then d else 2 + k % 2) &&
                0 <= d - (DistBase(k) - 1) < Pow2(e)
  {
    Pow2Values();
    assert Pow2(0) == 1;
    hide Pow2;
  }

  lemma LargeDistShape(d: nat)
    requires 512 <= d < 32768
    ensures var k, e := LargeDistSym(d / 256), LargeDistExtra(d / 256);
            k >= 2 && e == DistExtra(k) && DistBase(k) - 1 == Pow2(e) * (2 + k % 2) &&
                0 <= d - (DistBase(k) - 1) < Pow2(e)
  {
    Pow2Values();
    hide Pow2;
  }

  // ---------- writing a token ----------

  /** Symbols the codes must have for a token to be written. */
  predicate Encodable(l: Lens, d: Lens, t: Token) {
    match t
    case Literal(b) => Used(l, b)
    case Match(len, dist) =>
      3 <= len <= 258 && 1 <= dist <= 32768 && Used(l, LenSym(len - 3)) && Used(d, DistSym(dist - 1))
  }

  function TokenBits(l: Lens, d: Lens, t: Token): Bitstring
    requires Encodable(l, d, t)
  {
    match t
    case Literal(b) => CodeBits(l, b)
    case Match(len, dist) =>
      CodeBits(l, LenSym(len - 3)) + LenExtraBits(len - 3) + CodeBits(d, DistSym(dist - 1)) + DistExtraBits(dist - 1)
  }

  function LenExtraBits(m: nat): Bitstring {
    ToBits(Low(m, LenExtra(m)), LenExtra(m))
  }

  function DistExtraBits(d: nat): Bitstring {
    ToBits(Low(d, DistExtraOf(d)), DistExtraOf(d))
  }

  lemma ReadBack(v: nat, n: nat, rest: Bitstring)
    requires v < Pow2(n)
    ensures ReadBits(ToBits(v, n) + rest, n) == Some((v, rest))
  {
    FromBitsToBits(v, n);
    assert (ToBits(v, n) + rest)[..n] == ToBits(v, n);
    assert (ToBits(v, n) + rest)[n..] == rest;
  }

  lemma ByteBack(c: Byte, rest: Bitstring)
    ensures ReadBits(ToBits(c, 8) + rest, 8) == Some((c as nat, rest))
  {
    Pow2Values();
    ReadBack(c, 8, rest);
  }

  lemma LengthDecodes(d: Lens, len: nat, dist: nat, rest: Bitstring)
    requires Fits(d, 15) && 3 <= len <= 258 && 1 <= dist <= 32768 && Used(d, DistSym(dist - 1))
    ensures DecodeLength(d, LenSym(len - 3), LenExtraBits(len - 3) +
            (CodeBits(d, DistSym(dist - 1)) + (DistExtraBits(dist - 1) + rest))) == Some(((len, dist), rest))
  {
    hide LenSym, LenExtra, DistSym, DistExtraOf, LengthBase, LengthExtra, DistBase, DistExtra, Low, Shr;
    hide ToBits, Fits, ReadBits;
    var m, v := len - 3, dist - 1;
    LenRun(m);
    DistRun(v);
    LowShr(m, LenExtra(m));
    LowShr(v, DistExtraOf(v));
    ReadBack(Low(m, LenExtra(m)), LenExtra(m), CodeBits(d, DistSym(v)) + (DistExtraBits(v) + rest));
    DecodeUnique(d, 15, DistSym(v), DistExtraBits(v) + rest);
    ReadBack(Low(v, DistExtraOf(v)), DistExtraOf(v), rest);
  }

  /** Decoding undoes writing, one token at a time. */
  lemma TokenDecodes(l: Lens, d: Lens, t: Token, rest: Bitstring, out: seq<Byte>)
    requires Fits(l, 15) && Fits(d, 15) && Encodable(l, d, t) && Expandable(out, t)
    ensures DecodeSymbols(l, d, TokenBits(l, d, t) + rest, out) == DecodeSymbols(l, d, rest, ExpandOne(out, t))
  {
    hide LenSym, DistSym, Fits, DecodeLength, CopyMatch, LenExtraBits, DistExtraBits, Code;
    match t {
      case Literal(b) =>
        DecodeUnique(l, 15, b, rest);
      case Match(len, dist) =>
        var x, y, z, w := CodeBits(l, LenSym(len - 3)), LenExtraBits(len - 3), CodeBits(d, DistSym(dist - 1)),
            DistExtraBits(dist - 1);
        assert TokenBits(l, d, t) + rest == x + (y + (z + (w + rest)));
        DecodeUnique(l, 15, LenSym(len - 3), y + (z + (w + rest)));
        LengthDecodes(d, len, dist, rest);
        assert AfterSymbol(l, d, LenSym(len - 3), y + (z + (w + rest)), out) == AfterMatch(l, d, len, dist, rest, out);
    }
  }

  predicate EncodableAll(l: Lens, d: Lens, ts: seq<Token>) {
    forall i :: 0 <= i < |ts| ==> Encodable(l, d, ts[i])
  }

  function TokensBits(l: Lens, d: Lens, ts: seq<Token>): Bitstring
    requires EncodableAll(l, d, ts)
  {
    if ts == [] then [] else TokensBits(l, d, ts[..|ts| - 1]) + TokenBits(l, d, ts[|ts| - 1])
  }

  lemma {:induction false} TokensDecode(l: Lens, d: Lens, ts: seq<Token>, rest: Bitstring, out: seq<Byte>)
    requires Fits(l, 15) && Fits(d, 15) && EncodableAll(l, d, ts) && ExpandableAll(out, ts)
    ensures DecodeSymbols(l, d, TokensBits(l, d, ts) + rest, out) == DecodeSymbols(l, d, rest, Expand(out, ts))
  {
    if ts == [] {
      assert TokensBits(l, d, ts) + rest == rest;
    } else {
      hide DecodeSymbols, TokenBits, Encodable, Expandable, ExpandOne, Fits;
      var init, last := ts[..|ts| - 1], ts[|ts| - 1];
      assert ts == init + [last];
      ExpandSplit(out, init, last);
      TokensDecode(l, d, init, TokenBits(l, d, last) + rest, out);
      TokenDecodes(l, d, last, rest, Expand(out, init));
      ConcatAssoc(TokensBits(l, d, init), TokenBits(l, d, last), rest);
    }
  }

  lemma {:induction false} ExpandSplit(out: seq<Byte>, ts: seq<Token>, t: Token)
    requires ExpandableAll(out, ts + [t])
    ensures ExpandableAll(out, ts) && Expandable(Expand(out, ts), t)
    ensures Expand(out, ts + [t]) == ExpandOne(Expand(out, ts), t)
    decreases ts
  {
    if ts == [] {
      assert ts + [t] == [t] && [t][1..] == [];
    } else {
      assert (ts + [t])[1..] == ts[1..] + [t];
      ExpandSplit(ExpandOne(out, ts[0]), ts[1..], t);
    }
  }

  /** The whole body of a compressed block: its tokens and the end-of-block symbol. */
  lemma BodyDecodes(l: Lens, d: Lens, ts: seq<Token>, rest: Bitstring, out: seq<Byte>)
    requires Fits(l, 15) && Fits(d, 15) && EncodableAll(l, d, ts) && ExpandableAll(out, ts) && Used(l, 256)
    ensures DecodeSymbols(l, d, TokensBits(l, d, ts) + CodeBits(l, 256) + rest, out) == Some((Expand(out, ts), rest))
  {
    assert TokensBits(l, d, ts) + CodeBits(l, 256) + rest == TokensBits(l, d, ts) + (CodeBits(l, 256) + rest);
    TokensDecode(l, d, ts, CodeBits(l, 256) + rest, out);
    DecodeUnique(l, 15, 256, rest);
  }
}
