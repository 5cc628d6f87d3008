/**
 A stream that RFC 1951 does not allow and `tinfl_decompress` (external/miniz.c) accepts: its
 distance code has one symbol, and the bits where a distance should be are not its code.
 */
module MissedCode {
  import opened BlockHeader
  import opened Bits
  import opened Canonical
  import opened Deflate
  import opened HuffmanTable
  import opened LengthCoding
  import opened RfcIncluded
  import opened Tinfl
  import opened TrieCode
  import opened Wrappers
  import TokenCode

  const STREAM: Bytes := [0x0D, 0xC0, 0x81, 0, 0, 0, 0, 0x80, 0xA0, 0xFC, 0xA9, 0x3F, 0x07, 0, 0]

  /** The code for code lengths: symbol 18 has one bit, symbols 1 and 2 have two. */
  function LenCode(): (c: Lens)
    ensures |c| == 19
  {
    [0, 2, 2] + Repeated(0, 15) + [1]
  }

  /** Literal 0 has one bit, the end and length 3 have two. */
  function LitCode(): (l: Lens)
    ensures |l| == 258
  {
    [1] + Repeated(0, 255) + [2, 2]
  }

  const DIST_CODE: Lens := [1]

  const PACKED: Packed := [1, 18, 127, 18, 106, 2, 2, 1]

  const ONE: Bitstring := [false]
  const TEN: Bitstring := [true, false]
  const ELEVEN: Bitstring := [true, true]

  // ---------- the three codes ----------

  lemma LenCount(l: nat)
    ensures Count(LenCode(), l) == if l == 0 then 16 else if l == 1 then 1 else if l == 2 then 2 else 0
  {
    hide Repeated;
    CountConcat([0, 2, 2] + Repeated(0, 15), [1], l);
    CountConcat([0, 2, 2], Repeated(0, 15), l);
    CountRepeated(0, 15, l);
    Count1(1, l);
    Count3(0, 2, 2, l);
  }

  lemma Count1(x: nat, l: nat)
    ensures Count([x], l) == if l == x then 1 else 0
  {
    assert [x][..0] == [];
  }

  lemma Count2(x: nat, y: nat, l: nat)
    ensures Count([x, y], l) == (if l == x then 1 else 0) + (if l == y then 1 else 0)
  {
    assert [x, y] == [x] + [y];
    CountConcat([x], [y], l);
    Count1(x, l);
    Count1(y, l);
  }

  lemma Count3(x: nat, y: nat, z: nat, l: nat)
    ensures Count([x, y, z], l) == (if l == x then 1 else 0) + (if l == y then 1 else 0) + (if l == z then 1 else 0)
  {
    assert [x, y, z] == [x, y] + [z];
    CountConcat([x, y], [z], l);
    Count2(x, y, l);
    Count1(z, l);
  }

  lemma LitCount(l: nat)
    ensures Count(LitCode(), l) == if l == 0 then 255 else if l == 1 then 1 else if l == 2 then 2 else 0
  {
    hide Repeated;
    CountConcat([1] + Repeated(0, 255), [2, 2], l);
    CountConcat([1], Repeated(0, 255), l);
    CountRepeated(0, 255, l);
    Count1(1, l);
    Count2(2, 2, l);
  }

  /** One code of one bit and two of two bits use up the code space. */
  lemma OneTwoTwo(c: Lens, n: nat)
    requires forall l :: Count(c, l) == if l == 0 then n else if l == 1 then 1 else if l == 2 then 2 else 0
    requires forall i :: 0 <= i < |c| ==> c[i] <= 2
    ensures Acceptable(c) && First(c, 1) == 0 && First(c, 2) == 2
  {
    hide Count;
    assert First(c, 1) == 0 && End(c, 1) == 1;
    assert First(c, 2) == 2 && End(c, 2) == 4 == Pow2(2);
    assert Complete(c, 2);
    CompleteLonger(c, 2, 15);
  }

  lemma LenShape(c: Lens)
    requires c == LenCode()
    ensures |c| == 19 && c[1] == 2 && c[2] == 2 && c[18] == 1 && forall k :: 0 <= k < 19 ==> c[k] <= 2
    ensures c[..1] == [0] && c[..2] == [0, 2] && c[..18] == [0, 2, 2] + Repeated(0, 15)
  {
  }

  lemma LenCodes()
    ensures var c := LenCode();
            && Acceptable(c) && Used(c, 18) && Used(c, 1) && Used(c, 2) && (forall k :: 0 <= k < 19 ==> c[k] <= 2)
            && CodeBits(c, 18) == ONE && CodeBits(c, 1) == TEN && CodeBits(c, 2) == ELEVEN
  {
    hide Count, Repeated, First, Complete, Fits, Acceptable, MsbBits;
    var c := LenCode();
    LenShape(c);
    forall l
      ensures Count(c, l) == if l == 0 then 16 else if l == 1 then 1 else if l == 2 then 2 else 0
    {
      LenCount(l);
    }
    OneTwoTwo(c, 16);
    hide LenCode;
    Count1(0, 2);
    Count2(0, 2, 2);
    CountConcat([0, 2, 2], Repeated(0, 15), 1);
    CountRepeated(0, 15, 1);
    Count3(0, 2, 2, 1);
    CodeWords();
  }

  lemma CodeWords()
    ensures MsbBits(0, 1) == ONE && MsbBits(2, 2) == TEN && MsbBits(3, 2) == ELEVEN
  {
  }

  lemma LitShape(c: Lens)
    requires c == LitCode()
    ensures |c| == 258 && c[0] == 1 && c[256] == 2 && c[257] == 2 && forall k :: 0 <= k < 258 ==> c[k] <= 2
    ensures c[..0] == [] && c[..256] == [1] + Repeated(0, 255) && c[..257] == [1] + Repeated(0, 255) + [2]
  {
  }

  lemma NoCount(l: nat)
    ensures Count([], l) == 0
  {
  }

  lemma LitCodes()
    ensures var l := LitCode();
            && Acceptable(l) && Used(l, 0) && Used(l, 256) && Used(l, 257)
            && CodeBits(l, 0) == ONE && CodeBits(l, 256) == TEN && CodeBits(l, 257) == ELEVEN
  {
    hide Count, Repeated, First, Complete, Fits, Acceptable, MsbBits;
    var c := LitCode();
    LitShape(c);
    NoCount(1);
    forall l
      ensures Count(c, l) == if l == 0 then 255 else if l == 1 then 1 else if l == 2 then 2 else 0
    {
      LitCount(l);
    }
    OneTwoTwo(c, 255);
    hide LitCode;
    CountConcat([1] + Repeated(0, 255), [2], 2);
    CountConcat([1], Repeated(0, 255), 2);
    CountRepeated(0, 255, 2);
    Count1(1, 2);
    Count1(2, 2);
    CodeWords();
  }

  lemma DistCode()
    ensures Acceptable(DIST_CODE) && Used(DIST_CODE, 0) && CodeBits(DIST_CODE, 0) == ONE
    ensures forall s: nat :: Used(DIST_CODE, s) ==> s == 0
  {
    hide Count, MsbBits, Fits, First, End;
    forall l
      ensures Count(DIST_CODE, l) == if l == 1 then 1 else 0
    {
      Count1(1, l);
    }
    FirstOne(DIST_CODE);
    OnlyOne(DIST_CODE);
    CodeWords();
    NoCount(1);
    assert DIST_CODE[..0] == [];
  }

  lemma FirstOne(d: Lens)
    requires Count(d, 1) == 1
    ensures First(d, 1) == 0 && End(d, 1) == 1
  {
    hide Count;
  }

  lemma OnlyOne(d: Lens)
    requires End(d, 1) == 1 && forall l :: l > 1 ==> Count(d, l) == 0
    requires forall i :: 0 <= i < |d| ==> d[i] <= 15
    ensures Fits(d, 15)
  {
    hide Count, First, End;
    Doubles(d, 15);
    Pow2Values();
  }

  lemma {:induction false} Doubles(d: Lens, l: nat)
    requires l > 0 && End(d, 1) == 1 && forall l :: l > 1 ==> Count(d, l) == 0
    ensures End(d, l) == Pow2(l - 1)
  {
    if l > 1 {
      Doubles(d, l - 1);
    }
  }

  // ---------- what the decompressor does ----------

  /** Bits that are no distance code are taken for distance symbol 0, and none of them is used. */
  lemma NoDistance(bits: Bitstring)
    requires |bits| >= 15 && bits[0]
    ensures Lookup(DIST_CODE, bits) == Some(Hit(0, 0, true))
  {
    hide Short, Inner, TrieCode.Extends, Used, CodeBits, Follow;
    forall s: nat
      ensures !Short(DIST_CODE, s, bits) && !TrieCode.Extends(DIST_CODE, s, bits[..FAST_BITS])
    {
      NotHere(bits, s);
    }
    NotInner(bits);
  }

  lemma NotInner(bits: Bitstring)
    requires |bits| >= 15 && forall s: nat :: !TrieCode.Extends(DIST_CODE, s, bits[..FAST_BITS])
    ensures !Inner(DIST_CODE, bits[..FAST_BITS])
  {
    hide TrieCode.Extends;
  }

  lemma NotHere(bits: Bitstring, s: nat)
    requires |bits| >= 15 && bits[0]
    ensures !Short(DIST_CODE, s, bits) && !TrieCode.Extends(DIST_CODE, s, bits[..FAST_BITS])
  {
    hide CodeBits;
    DistCode();
    assert Used(DIST_CODE, s) ==> CodeBits(DIST_CODE, s)[0] != bits[0];
  }

  /** Literal 0, then length 3 with no distance, then the end. */
  lemma Symbols(pad: Bitstring)
    requires |pad| >= 13
    ensures TSyms(Mode(Linear, false), true, LitCode(), DIST_CODE, ONE + (ELEVEN + (TEN + pad)), [], true)
            == Some(Final([0, 0, 0, 0], 1, FromByte(pad), false))
  {
    hide TSyms, TLength, Fits;
    LitCodes();
    var m, l, end := Mode(Linear, false), LitCode(), TEN + pad;
    AcceptableFits(l);
    hide LitCode;
    OneSymbol(l, 0, ELEVEN + end, [], true);
    assert [] + [0] == [0];
    OneSymbol(l, 257, end, [0], true);
    Distance(l, end);
    OneSymbol(l, 256, pad, [0, 0, 0, 0], false);
  }

  lemma OneSymbol(l: Lens, s: nat, rest: Bitstring, h: Bytes, clean: bool)
    requires Fits(l, 15) && Used(l, s)
    ensures TSyms(Mode(Linear, false), true, l, DIST_CODE, CodeBits(l, s) + rest, h, clean)
            == TSym(Mode(Linear, false), true, l, DIST_CODE, s, rest, h, clean)
  {
    hide Lookup, CodeBits, TSym, Fits;
    FoundAt(l, s, rest);
    Past(CodeBits(l, s), rest);
  }

  lemma Distance(l: Lens, end: Bitstring)
    requires |end| >= 15 && end[0]
    ensures TLength(Mode(Linear, false), true, l, DIST_CODE, LenBase(0), LenBits(0), end, [0], true)
            == TSyms(Mode(Linear, false), true, l, DIST_CODE, end, [0, 0, 0, 0], false)
  {
    hide Lookup, TSyms, ReadBits;
    var m, d := Mode(Linear, false), DIST_CODE;
    NoDistance(end);
    Nothing(end);
    ThreeZeros();
    assert LenBase(0) == 3 && LenBits(0) == 0 && DisBase(0) == 1 && DisBits(0) == 0;
    assert TLength(m, true, l, d, 3, 0, end, [0], true) == TDistance(m, true, l, d, 3, end, [0], true);
    assert TDistance(m, true, l, d, 3, end, [0], true) == TDistBits(m, true, l, d, 3, 1, 0, end, [0], false);
    assert TDistBits(m, true, l, d, 3, 1, 0, end, [0], false) == TMatch(m, true, l, d, 3, 1, end, [0], false);
    assert Effective(Linear, 1, 1) == Some(1);
  }

  lemma Past(a: Bitstring, b: Bitstring)
    ensures (a + b)[|a|..] == b
  {
  }

  lemma Nothing(b: Bitstring)
    ensures b[0..] == b && ReadBits(b, 0) == Some((0, b))
  {
    assert b[..0] == [];
  }

  lemma FoundAt(l: Lens, s: nat, rest: Bitstring)
    requires Fits(l, 15) && Used(l, s)
    ensures Lookup(l, CodeBits(l, s) + rest) == Some(Hit(s, l[s], false))
  {
    DecodeUnique(l, 15, s, rest);
    LookupDecodes(l, CodeBits(l, s) + rest);
  }

  lemma ThreeZeros()
    ensures CopyMatch([0], 3, 1) == [0, 0, 0, 0]
  {
    assert [0] + [0] == [0, 0] && [0, 0] + [0] == [0, 0, 0] && [0, 0, 0] + [0] == [0, 0, 0, 0];
    assert CopyMatch([0], 3, 1) == CopyMatch([0, 0], 2, 1) == CopyMatch([0, 0, 0], 1, 1);
  }

  // ---------- the bits of the stream ----------

  lemma Byte0()
    ensures ToBits(0, 8) == [false, false, false, false, false, false, false, false]
  {
  }

  lemma Byte07()
    ensures ToBits(0x07, 8) == [true, true, true, false, false, false, false, false]
  {
  }

  lemma Byte0D()
    ensures ToBits(0x0D, 8) == [true, false, true, true, false, false, false, false]
  {
  }

  lemma Byte3F()
    ensures ToBits(0x3F, 8) == [true, true, true, true, true, true, false, false]
  {
  }

  lemma Byte80()
    ensures ToBits(0x80, 8) == [false, false, false, false, false, false, false, true]
  {
  }

  lemma Byte81()
    ensures ToBits(0x81, 8) == [true, false, false, false, false, false, false, true]
  {
  }

  lemma ByteA0()
    ensures ToBits(0xA0, 8) == [false, false, false, false, false, true, false, true]
  {
  }

  lemma ByteA9()
    ensures ToBits(0xA9, 8) == [true, false, false, true, false, true, false, true]
  {
  }

  lemma ByteC0()
    ensures ToBits(0xC0, 8) == [false, false, false, false, false, false, true, true]
  {
  }

  lemma ByteFC()
    ensures ToBits(0xFC, 8) == [false, false, true, true, true, true, true, true]
  {
  }

  /** The places of the ones. */
  predicate On(i: nat) {
    || i in {0, 2, 3, 14, 15, 16, 23, 63, 69, 71, 74, 75, 76, 77}
    || i in {78, 79, 80, 83, 85, 87, 88, 89, 90, 91, 92, 93, 96, 97, 98}
  }

  function StreamBits(): (b: Bitstring)
    ensures |b| == 120 && forall i :: 0 <= i < 120 ==> b[i] == On(i)
  {
    seq(120, i requires 0 <= i < 120 => On(i))
  }

  lemma {:induction false} BytesAre(bytes: Bytes, bits: Bitstring)
    requires |bits| == 8 * |bytes|
    requires forall k :: 0 <= k < |bytes| ==> bits[8 * k..8 * k + 8] == ToBits(bytes[k], 8)
    ensures ByteBits(bytes) == bits
  {
    hide ToBits;
    if bytes != [] {
      var rest := bits[8..];
      forall k | 0 <= k < |bytes| - 1
        ensures rest[8 * k..8 * k + 8] == ToBits(bytes[1..][k], 8)
      {
        assert rest[8 * k..8 * k + 8] == bits[8 * (k + 1)..8 * (k + 1) + 8];
      }
      BytesAre(bytes[1..], rest);
      assert bits == bits[8 * 0..8 * 0 + 8] + rest;
    }
  }

  lemma ByteIs(k: nat, v: Byte, x: Bitstring)
    requires k < 15 && x == ToBits(v, 8) && forall j :: 0 <= j < 8 ==> On(8 * k + j) == x[j]
    ensures StreamBits()[8 * k..8 * k + 8] == ToBits(v, 8)
  {
    hide ToBits, On;
    var b := StreamBits()[8 * k..8 * k + 8];
    assert forall j :: 0 <= j < 8 ==> b[j] == On(8 * k + j);
  }

  lemma FirstBytes()
    ensures forall k :: 0 <= k < 8 ==> StreamBits()[8 * k..8 * k + 8] == ToBits(STREAM[k], 8)
  {
    hide ToBits, StreamBits;
    Byte0D();
    ByteC0();
    Byte81();
    Byte0();
    Byte80();
    ByteIs(0, 0x0D, [true, false, true, true, false, false, false, false]);
    ByteIs(1, 0xC0, [false, false, false, false, false, false, true, true]);
    ByteIs(2, 0x81, [true, false, false, false, false, false, false, true]);
    ByteIs(3, 0x00, [false, false, false, false, false, false, false, false]);
    ByteIs(4, 0x00, [false, false, false, false, false, false, false, false]);
    ByteIs(5, 0x00, [false, false, false, false, false, false, false, false]);
    ByteIs(6, 0x00, [false, false, false, false, false, false, false, false]);
    ByteIs(7, 0x80, [false, false, false, false, false, false, false, true]);
  }

  lemma LastBytes()
    ensures forall k :: 8 <= k < 15 ==> StreamBits()[8 * k..8 * k + 8] == ToBits(STREAM[k], 8)
  {
    hide ToBits, StreamBits;
    ByteA0();
    ByteFC();
    ByteA9();
    Byte3F();
    Byte07();
    Byte0();
    ByteIs(8, 0xA0, [false, false, false, false, false, true, false, true]);
    ByteIs(9, 0xFC, [false, false, true, true, true, true, true, true]);
    ByteIs(10, 0xA9, [true, false, false, true, false, true, false, true]);
    ByteIs(11, 0x3F, [true, true, true, true, true, true, false, false]);
    ByteIs(12, 0x07, [true, true, true, false, false, false, false, false]);
    ByteIs(13, 0x00, [false, false, false, false, false, false, false, false]);
    ByteIs(14, 0x00, [false, false, false, false, false, false, false, false]);
  }

  lemma StreamIs()
    ensures ByteBits(STREAM) == StreamBits()
  {
    hide ToBits, StreamBits, On;
    FirstBytes();
    LastBytes();
    BytesAre(STREAM, StreamBits());
  }

  // ---------- its parts ----------

  lemma Piece(k: nat, x: Bitstring)
    requires k + |x| <= 120 && forall j :: 0 <= j < |x| ==> On(k + j) == x[j]
    ensures StreamBits()[k..] == x + StreamBits()[k + |x|..]
  {
    hide On;
    var b, n := StreamBits(), |x|;
    assert b[k..k + n] == x;
    assert b[k..] == b[k..k + n] + b[k + n..];
  }

  lemma SmallNumbers()
    ensures ToBits(5, 3) == [true, false, true] && ToBits(1, 5) == [true, false, false, false, false]
    ensures ToBits(0, 5) == [false, false, false, false, false] && ToBits(14, 4) == [false, true, true, true]
  {
  }

  lemma ThreeBitNumbers()
    ensures ToBits(0, 3) == [false, false, false] && ToBits(1, 3) == [true, false, false]
    ensures ToBits(2, 3) == [false, true, false]
  {
  }

  lemma Extras()
    ensures ToBits(127, 7) == [true, true, true, true, true, true, true]
    ensures ToBits(106, 7) == [false, true, false, true, false, true, true]
  {
  }

  lemma LenOrder(i: nat)
    requires i < 18
    ensures LenCode()[Order(i)] == if i == 2 then 1 else if i == 15 || i == 17 then 2 else 0
  {
  }

  lemma {:induction false} LengthPart(i: nat)
    requires i <= 18
    ensures StreamBits()[17 + 3 * i..] == CodeLengthBits(LenCode(), i, 18) + StreamBits()[71..]
    decreases 18 - i
  {
    hide ToBits, StreamBits, LenCode, Order;
    if i < 18 {
      LengthPart(i + 1);
      LenOrder(i);
      ThreeBitNumbers();
      Piece(17 + 3 * i, ToBits(LenCode()[Order(i)], 3));
    }
  }

  lemma HeadPart()
    ensures StreamBits() == ToBits(5, 3) + (ToBits(1, 5) + (ToBits(0, 5) + (ToBits(14, 4) + StreamBits()[17..])))
  {
    hide ToBits, StreamBits;
    SmallNumbers();
    Piece(0, ToBits(5, 3));
    Piece(3, ToBits(1, 5));
    Piece(8, ToBits(0, 5));
    Piece(13, ToBits(14, 4));
    assert StreamBits()[0..] == StreamBits();
  }

  lemma OneLength(x: nat, p: Packed, acc: Lens)
    requires x < 16
    ensures Unpack([x] + p, acc) == Unpack(p, acc + [x])
  {
    assert ([x] + p)[1..] == p;
  }

  lemma ManyZeros(n: nat, p: Packed, acc: Lens)
    requires n < 128
    ensures Unpack([18, n] + p, acc) == Unpack(p, acc + Repeated(0, 11 + n))
  {
    Pow2Values();
    assert ([18, n] + p)[2..] == p;
  }

  lemma ZerosTogether(a: nat, b: nat)
    ensures Repeated(0, a) + Repeated(0, b) == Repeated(0, a + b)
  {
  }

  /** What the packed lengths stand for. */
  lemma Unpacked()
    ensures Unpack(PACKED, []) == Some(LitCode() + DIST_CODE)
  {
    hide Unpack, Repeated;
    var z := Repeated(0, 138);
    assert PACKED == [1] + ([18, 127] + ([18, 106] + [2, 2, 1])) && [] + [1] == [1];
    OneLength(1, [18, 127] + ([18, 106] + [2, 2, 1]), []);
    ManyZeros(127, [18, 106] + [2, 2, 1], [1]);
    ManyZeros(106, [2, 2, 1], [1] + z);
    ZerosTogether(138, 117);
    var acc := [1] + Repeated(0, 255);
    assert [1] + z + Repeated(0, 117) == acc;
    LastThree(acc);
    assert acc + [2] + [2] + [1] == LitCode() + DIST_CODE;
  }

  lemma LastThree(acc: Lens)
    ensures Unpack([2, 2, 1], acc) == Some(acc + [2] + [2] + [1])
  {
    hide Unpack;
    assert [2, 2, 1] == [2] + [2, 1] && [2, 1] == [2] + [1] && [1] == [1] + [];
    OneLength(2, [2, 1], acc);
    OneLength(2, [1], acc + [2]);
    OneLength(1, [], acc + [2] + [2]);
    UnpackNone(acc + [2] + [2] + [1]);
  }

  lemma UnpackNone(acc: Lens)
    ensures Unpack([], acc) == Some(acc)
  {
  }

  lemma SendOne(x: nat, p: Packed)
    requires x in {1, 2} && Sendable(LenCode(), p)
    ensures var c := LenCode();
            Sendable(c, [x] + p) && PackedBits(c, [x] + p) == (if x == 1 then TEN else ELEVEN) + PackedBits(c, p)
  {
    hide LenCode, CodeBits;
    LenCodes();
    assert ([x] + p)[1..] == p;
  }

  lemma SendZeros(n: nat, p: Packed)
    requires Sendable(LenCode(), p)
    ensures var c := LenCode();
            Sendable(c, [18, n] + p) && PackedBits(c, [18, n] + p) == ONE + ToBits(n, 7) + PackedBits(c, p)
  {
    hide LenCode, CodeBits, ToBits;
    LenCodes();
    assert ([18, n] + p)[2..] == p;
  }

  lemma PackedPart()
    ensures var c := LenCode();
            && Sendable(c, PACKED) && StreamBits()[71..] == PackedBits(c, PACKED) + StreamBits()[95..]
  {
    hide Sendable, PackedBits, LenCode, ToBits, StreamBits;
    var b, c := StreamBits(), LenCode();
    Extras();
    SendNone();
    assert PACKED == [1] + ([18, 127] + ([18, 106] + ([2] + ([2] + ([1] + [])))));
    SendOne(1, []);
    Piece(93, TEN);
    SendOne(2, [1] + []);
    Piece(91, ELEVEN);
    SendOne(2, [2] + ([1] + []));
    Piece(89, ELEVEN);
    SendZeros(106, [2] + ([2] + ([1] + [])));
    Piece(82, ToBits(106, 7));
    Piece(81, ONE);
    SendZeros(127, [18, 106] + ([2] + ([2] + ([1] + []))));
    Piece(74, ToBits(127, 7));
    Piece(73, ONE);
    SendOne(1, [18, 127] + ([18, 106] + ([2] + ([2] + ([1] + [])))));
    Piece(71, TEN);
    Regroup(b[95..]);
  }

  lemma SendNone()
    ensures Sendable(LenCode(), []) && PackedBits(LenCode(), []) == []
  {
  }

  lemma Regroup(r: Bitstring)
    ensures TEN + (ONE + (ToBits(127, 7) + (ONE + (ToBits(106, 7) + (ELEVEN + (ELEVEN + (TEN + r))))))) ==
            TEN + (ONE + ToBits(127, 7) + (ONE + ToBits(106, 7) + (ELEVEN + (ELEVEN + (TEN + []))))) + r
  {
    hide ToBits;
  }

  // ---------- what becomes of it ----------

  /** After the header: literal 0, length 3, and bits that are no distance. */
  lemma BodyPart()
    ensures StreamBits()[95..] == ONE + (ELEVEN + (TEN + StreamBits()[100..]))
    ensures StreamBits()[104..] == ByteBits([0, 0])
  {
    hide StreamBits;
    Piece(95, ONE);
    Piece(96, ELEVEN);
    Piece(98, TEN);
    LastZeros();
  }

  lemma LastZeros()
    ensures StreamBits()[104..] == ByteBits([0, 0])
  {
    hide ToBits;
    Byte0();
    ByteBitsHead([0, 0]);
    ByteBitsHead([0]);
    assert [0, 0][1..] == [0] && [0][1..] == [] && ByteBits([]) == [];
    assert forall i :: 104 <= i < 120 ==> !On(i);
  }

  lemma TwoCodes()
    ensures var all := LitCode() + DIST_CODE; |all| == 259 && all[..258] == LitCode() && all[258..] == DIST_CODE
  {
    hide LitCode;
  }

  lemma LastUnsent()
    ensures SentBy(LenCode(), 18)
  {
    assert Order(18) == 15 && LenCode()[15] == 0;
  }

  lemma Sent()
    ensures Sends(LenCode(), 18, PACKED, LitCode() + DIST_CODE)
  {
    hide LitCode, Sendable, Unpack, Acceptable, LenCode, SentBy, StreamBits, CodeBits;
    LenCodes();
    PackedPart();
    Unpacked();
    LastUnsent();
  }

  lemma BlockHead()
    ensures ReadBits(StreamBits(), 3) == Some((5, ToBits(1, 5) + (ToBits(0, 5) + (ToBits(14, 4) + StreamBits()[17..]))))
  {
    hide ToBits, StreamBits, FromBits;
    HeadPart();
    Pow2Values();
    TokenCode.ReadBack(5, 3, ToBits(1, 5) + (ToBits(0, 5) + (ToBits(14, 4) + StreamBits()[17..])));
  }

  /** The decompressor takes the stream for four zeros. */
  lemma Accepted()
    ensures TStart(Mode(Linear, false), ByteBits(STREAM), []) == Some(Final([0, 0, 0, 0], 1, ByteBits([0, 0]), false))
  {
    hide ToBits, StreamBits, ReadBits, TSizes, TLenTable, TSyms, TStart, ByteBits;
    var m, r := Mode(Linear, false), ToBits(1, 5) + (ToBits(0, 5) + (ToBits(14, 4) + StreamBits()[17..]));
    StreamIs();
    BlockHead();
    StartsDynamic(m, StreamBits(), r);
    SizesThere(m);
    LensThere(m);
    BodyPart();
    Symbols(StreamBits()[100..]);
    assert StreamBits()[100..][4..] == StreamBits()[104..];
  }

  lemma StartsDynamic(m: Mode, bits: Bitstring, rest: Bitstring)
    requires !m.zlib && ReadBits(bits, 3) == Some((5, rest))
    ensures TStart(m, bits, []) == TSizes(m, true, [], rest, [], true)
  {
    hide ReadBits, TSizes;
    assert TStart(m, bits, []) == TBlocks(m, bits, [], true) == TBlock(m, true, 2, rest, [], true);
  }

  lemma SizesThere(m: Mode)
    ensures TSizes(m, true, [], ToBits(1, 5) + (ToBits(0, 5) + (ToBits(14, 4) + StreamBits()[17..])), [], true)
            == TLenTable(m, true, 258, 1, LenCode(), StreamBits()[71..], [], true)
  {
    hide ToBits, StreamBits, ReadBits, TOrder, TLenTable, Repeated, LenCode, Order, CodeLengthBits;
    hide ReadCodeLengthLens, Sendable, Unpack;
    hide Acceptable, ReadSoFar;
    var r3 := StreamBits()[17..];
    var r2 := ToBits(14, 4) + r3;
    var r1 := ToBits(0, 5) + r2;
    Pow2Values();
    TokenCode.ReadBack(1, 5, r1);
    TokenCode.ReadBack(0, 5, r2);
    TokenCode.ReadBack(14, 4, r3);
    SizesRead(m, true, ToBits(1, 5) + r1, 1, r1, 0, r2, 14, r3, []);
    LengthPart(0);
    Sent();
    NoneRead(LenCode());
    CodeLengthsRead(LenCode(), 0, 18, Repeated(0, 19), StreamBits()[71..]);
    OrderIncluded(m, true, [258, 1, 18], 0, Repeated(0, 19), r3, []);
  }

  lemma LensThere(m: Mode)
    ensures TLenTable(m, true, 258, 1, LenCode(), StreamBits()[71..], [], true)
            == TSyms(m, true, LitCode(), DIST_CODE, StreamBits()[95..], [], true)
  {
    hide StreamBits, TLens, TSyms, LenCode, LitCode, PackedBits, Sendable, Unpack, Acceptable, Fits, ReadLens;
    var c, all, rest := LenCode(), LitCode() + DIST_CODE, StreamBits()[95..];
    LenCodes();
    LitCodes();
    DistCode();
    AcceptableFits(c);
    PackedPart();
    Unpacked();
    TwoCodes();
    PackedDecodes(c, PACKED, [], 259, rest);
    LensIncluded(m, true, 258, 1, c, [], StreamBits()[71..], []);
  }

  /** To RFC 1951 the stream means nothing. */
  lemma Forbidden()
    ensures Inflate(ByteBits(STREAM), []) == None
  {
    hide ToBits, StreamBits, ReadBits, ByteBits, Dynamic, CodeLengthBits, PackedBits, Sendable, Unpack;
    hide LenCode, LitCode, Acceptable;
    StreamIs();
    BlockHead();
    Sent();
    LitCodes();
    DistCode();
    PackedPart();
    LengthPart(0);
    var c, rest := LenCode(), StreamBits()[95..];
    DynamicRead(LitCode(), DIST_CODE, c, 18, PACKED, rest, []);
    FiveParts(ToBits(1, 5), ToBits(0, 5), ToBits(14, 4), CodeLengthBits(c, 0, 18), PackedBits(c, PACKED), rest);
    BodyPart();
    NoSymbols(StreamBits()[100..]);
  }

  lemma NoSymbols(pad: Bitstring)
    ensures DecodeSymbols(LitCode(), DIST_CODE, ONE + (ELEVEN + (TEN + pad)), []) == None
  {
    hide LitCode, CodeBits, Fits, DecodeSym, DecodeLength, Acceptable;
    var l, end := LitCode(), TEN + pad;
    LitCodes();
    AcceptableFits(l);
    DecodeUnique(l, 15, 0, ELEVEN + end);
    DecodeUnique(l, 15, 257, end);
    NoLength(end);
    assert [] + [0] == [0];
    assert DecodeSymbols(l, DIST_CODE, ONE + (ELEVEN + end), []) == AfterSymbol(l, DIST_CODE, 0, ELEVEN + end, [])
        == DecodeSymbols(l, DIST_CODE, ELEVEN + end, [0]);
    assert DecodeSymbols(l, DIST_CODE, ELEVEN + end, [0]) == AfterSymbol(l, DIST_CODE, 257, end, [0]) == None;
  }

  lemma NoLength(end: Bitstring)
    requires |end| > 0 && end[0]
    ensures DecodeLength(DIST_CODE, 257, end) == None
  {
    hide ReadBits, DecodeSym;
    Nothing(end);
    NoCode(end);
    assert LengthExtra(0) == 0;
  }

  lemma NoCode(end: Bitstring)
    requires |end| > 0 && end[0]
    ensures DecodeSym(DIST_CODE, end) == None
  {
    hide CodeBits;
    DistCode();
    forall s: nat
      ensures !Starts(DIST_CODE, s, end)
    {
      assert Used(DIST_CODE, s) ==> CodeBits(DIST_CODE, s)[0] != end[0];
    }
  }
}
