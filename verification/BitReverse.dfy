/**
 Reversing sixteen bits with masks and shifts (external/stb_image.h, `stbi__bit_reverse`).
 */
module BitReverse {
  import opened Bits
  import opened TrieSize

  /** `stbi__bitreverse16` */
  function Reverse16(x: bv16): bv16 {
    var a := ((x & 0xAAAA) >> 1) | ((x & 0x5555) << 1);
    var b := ((a & 0xCCCC) >> 2) | ((a & 0x3333) << 2);
    var c := ((b & 0xF0F0) >> 4) | ((b & 0x0F0F) << 4);
    ((c & 0xFF00) >> 8) | ((c & 0x00FF) << 8)
  }

  /** Bit `i` of a word. */
  function Bit(x: bv16, i: nat): bool {
    match i
    case 0 => x & 0x0001 != 0
    case 1 => x & 0x0002 != 0
    case 2 => x & 0x0004 != 0
    case 3 => x & 0x0008 != 0
    case 4 => x & 0x0010 != 0
    case 5 => x & 0x0020 != 0
    case 6 => x & 0x0040 != 0
    case 7 => x & 0x0080 != 0
    case 8 => x & 0x0100 != 0
    case 9 => x & 0x0200 != 0
    case 10 => x & 0x0400 != 0
    case 11 => x & 0x0800 != 0
    case 12 => x & 0x1000 != 0
    case 13 => x & 0x2000 != 0
    case 14 => x & 0x4000 != 0
    case _ => x & 0x8000 != 0
  }

  /** The bits of a word, lowest first. */
  function WordBits(x: bv16): (r: Bitstring)
    ensures |r| == 16
  {
    seq(16, i requires 0 <= i < 16 => Bit(x, i))
  }

  function Reversed(b: Bitstring): (r: Bitstring)
    ensures |r| == |b| && forall i :: 0 <= i < |b| ==> r[i] == b[|b| - 1 - i]
  {
    seq(|b|, i requires 0 <= i < |b| => b[|b| - 1 - i])
  }

  lemma Reverse0(x: bv16)
    ensures Bit(Reverse16(x), 0) == Bit(x, 15)
  {
  }

  lemma Reverse1(x: bv16)
    ensures Bit(Reverse16(x), 1) == Bit(x, 14)
  {
  }

  lemma Reverse2(x: bv16)
    ensures Bit(Reverse16(x), 2) == Bit(x, 13)
  {
  }

  lemma Reverse3(x: bv16)
    ensures Bit(Reverse16(x), 3) == Bit(x, 12)
  {
  }

  lemma Reverse4(x: bv16)
    ensures Bit(Reverse16(x), 4) == Bit(x, 11)
  {
  }

  lemma Reverse5(x: bv16)
    ensures Bit(Reverse16(x), 5) == Bit(x, 10)
  {
  }

  lemma Reverse6(x: bv16)
    ensures Bit(Reverse16(x), 6) == Bit(x, 9)
  {
  }

  lemma Reverse7(x: bv16)
    ensures Bit(Reverse16(x), 7) == Bit(x, 8)
  {
  }

  lemma Reverse8(x: bv16)
    ensures Bit(Reverse16(x), 8) == Bit(x, 7)
  {
  }

  lemma Reverse9(x: bv16)
    ensures Bit(Reverse16(x), 9) == Bit(x, 6)
  {
  }

  lemma Reverse10(x: bv16)
    ensures Bit(Reverse16(x), 10) == Bit(x, 5)
  {
  }

  lemma Reverse11(x: bv16)
    ensures Bit(Reverse16(x), 11) == Bit(x, 4)
  {
  }

  lemma Reverse12(x: bv16)
    ensures Bit(Reverse16(x), 12) == Bit(x, 3)
  {
  }

  lemma Reverse13(x: bv16)
    ensures Bit(Reverse16(x), 13) == Bit(x, 2)
  {
  }

  lemma Reverse14(x: bv16)
    ensures Bit(Reverse16(x), 14) == Bit(x, 1)
  {
  }

  lemma Reverse15(x: bv16)
    ensures Bit(Reverse16(x), 15) == Bit(x, 0)
  {
  }

  lemma ReverseBit(x: bv16, i: nat)
    requires i < 16
    ensures Bit(Reverse16(x), i) == Bit(x, 15 - i)
  {
    hide Reverse16, Bit;
    match i {
      case 0 => Reverse0(x);
      case 1 => Reverse1(x);
      case 2 => Reverse2(x);
      case 3 => Reverse3(x);
      case 4 => Reverse4(x);
      case 5 => Reverse5(x);
      case 6 => Reverse6(x);
      case 7 => Reverse7(x);
      case 8 => Reverse8(x);
      case 9 => Reverse9(x);
      case 10 => Reverse10(x);
      case 11 => Reverse11(x);
      case 12 => Reverse12(x);
      case 13 => Reverse13(x);
      case 14 => Reverse14(x);
      case _ => Reverse15(x);
    }
  }

  lemma ReverseBits(x: bv16)
    ensures WordBits(Reverse16(x)) == Reversed(WordBits(x))
  {
    hide Reverse16, Bit;
    forall i | 0 <= i < 16
      ensures WordBits(Reverse16(x))[i] == Reversed(WordBits(x))[i]
    {
      ReverseBit(x, i);
    }
  }

  // ---------- words as numbers ----------

  function If(b: bool, mask: bv16): bv16 {
    if b then mask else 0
  }

  function Join(b0: bool, b1: bool, b2: bool, b3: bool, b4: bool, b5: bool, b6: bool, b7: bool, b8: bool, b9: bool,
      b10: bool, b11: bool, b12: bool, b13: bool, b14: bool, b15: bool): bv16 {
    If(b0, 0x0001) | If(b1, 0x0002) | If(b2, 0x0004) | If(b3, 0x0008) | If(b4, 0x0010) | If(b5, 0x0020) |
        If(b6, 0x0040) | If(b7, 0x0080) |
    If(b8, 0x0100) | If(b9, 0x0200) | If(b10, 0x0400) | If(b11, 0x0800) | If(b12, 0x1000) | If(b13, 0x2000) |
        If(b14, 0x4000) | If(b15, 0x8000)
  }

  lemma Join0(b0: bool, b1: bool, b2: bool, b3: bool, b4: bool, b5: bool, b6: bool, b7: bool, b8: bool, b9: bool,
      b10: bool, b11: bool, b12: bool, b13: bool, b14: bool, b15: bool)
    ensures var x := Join(b0, b1, b2, b3, b4, b5, b6, b7, b8, b9, b10, b11, b12, b13, b14, b15);
            Bit(x, 0) == b0 && Bit(x, 1) == b1 && Bit(x, 2) == b2 && Bit(x, 3) == b3
  {
  }

  lemma Join1(b0: bool, b1: bool, b2: bool, b3: bool, b4: bool, b5: bool, b6: bool, b7: bool, b8: bool, b9: bool,
      b10: bool, b11: bool, b12: bool, b13: bool, b14: bool, b15: bool)
    ensures var x := Join(b0, b1, b2, b3, b4, b5, b6, b7, b8, b9, b10, b11, b12, b13, b14, b15);
            Bit(x, 4) == b4 && Bit(x, 5) == b5 && Bit(x, 6) == b6 && Bit(x, 7) == b7
  {
  }

  lemma Join2(b0: bool, b1: bool, b2: bool, b3: bool, b4: bool, b5: bool, b6: bool, b7: bool, b8: bool, b9: bool,
      b10: bool, b11: bool, b12: bool, b13: bool, b14: bool, b15: bool)
    ensures var x := Join(b0, b1, b2, b3, b4, b5, b6, b7, b8, b9, b10, b11, b12, b13, b14, b15);
            Bit(x, 8) == b8 && Bit(x, 9) == b9 && Bit(x, 10) == b10 && Bit(x, 11) == b11
  {
  }

  lemma Join3(b0: bool, b1: bool, b2: bool, b3: bool, b4: bool, b5: bool, b6: bool, b7: bool, b8: bool, b9: bool,
      b10: bool, b11: bool, b12: bool, b13: bool, b14: bool, b15: bool)
    ensures var x := Join(b0, b1, b2, b3, b4, b5, b6, b7, b8, b9, b10, b11, b12, b13, b14, b15);
            Bit(x, 12) == b12 && Bit(x, 13) == b13 && Bit(x, 14) == b14 && Bit(x, 15) == b15
  {
  }

  /** The word with the given bits. */
  function Pack(b: Bitstring): bv16
    requires |b| == 16
  {
    Join(b[0], b[1], b[2], b[3], b[4], b[5], b[6], b[7], b[8], b[9], b[10], b[11], b[12], b[13], b[14], b[15])
  }

  lemma Pack0(b: Bitstring)
    requires |b| == 16
    ensures Bit(Pack(b), 0) == b[0] && Bit(Pack(b), 1) == b[1] && Bit(Pack(b), 2) == b[2] && Bit(Pack(b), 3) == b[3]
  {
    hide Bit, Join;
    Join0(b[0], b[1], b[2], b[3], b[4], b[5], b[6], b[7], b[8], b[9], b[10], b[11], b[12], b[13], b[14], b[15]);
  }

  lemma Pack1(b: Bitstring)
    requires |b| == 16
    ensures Bit(Pack(b), 4) == b[4] && Bit(Pack(b), 5) == b[5] && Bit(Pack(b), 6) == b[6] && Bit(Pack(b), 7) == b[7]
  {
    hide Bit, Join;
    Join1(b[0], b[1], b[2], b[3], b[4], b[5], b[6], b[7], b[8], b[9], b[10], b[11], b[12], b[13], b[14], b[15]);
  }

  lemma Pack2(b: Bitstring)
    requires |b| == 16
    ensures Bit(Pack(b), 8) == b[8] && Bit(Pack(b), 9) == b[9] && Bit(Pack(b), 10) == b[10] && Bit(Pack(b), 11) == b[11]
  {
    hide Bit, Join;
    Join2(b[0], b[1], b[2], b[3], b[4], b[5], b[6], b[7], b[8], b[9], b[10], b[11], b[12], b[13], b[14], b[15]);
  }

  lemma Pack3(b: Bitstring)
    requires |b| == 16
    ensures Bit(Pack(b), 12) == b[12] && Bit(Pack(b), 13) == b[13] && Bit(Pack(b), 14) == b[14]
    ensures Bit(Pack(b), 15) == b[15]
  {
    hide Bit, Join;
    Join3(b[0], b[1], b[2], b[3], b[4], b[5], b[6], b[7], b[8], b[9], b[10], b[11], b[12], b[13], b[14], b[15]);
  }

  lemma PackBit(b: Bitstring, i: nat)
    requires |b| == 16 && i < 16
    ensures Bit(Pack(b), i) == b[i]
  {
    hide Bit, Pack;
    Pack0(b);
    Pack1(b);
    Pack2(b);
    Pack3(b);
    match i {
      case 0 => case 1 => case 2 => case 3 => case 4 => case 5 => case 6 => case 7 =>
      case 8 => case 9 => case 10 => case 11 => case 12 => case 13 => case 14 => case _ =>
    }
  }

  lemma PackBits(b: Bitstring)
    requires |b| == 16
    ensures WordBits(Pack(b)) == b
  {
    hide Bit, Pack;
    forall i | 0 <= i < 16
      ensures WordBits(Pack(b))[i] == b[i]
    {
      PackBit(b, i);
    }
  }

  /** The sixteen low bits of a number, and the number a word stands for. */
  function Word(v: nat): bv16 {
    Pack(ToBits(v, 16))
  }

  function Number(x: bv16): nat {
    FromBits(WordBits(x))
  }

  /** `stbi__bit_reverse` */
  function Reverse(v: nat, bits: nat): nat
    requires bits <= 16
  {
    Shr(Number(Reverse16(Word(v))), 16 - bits)
  }

  lemma {:induction false} ReversedValue(b: Bitstring)
    ensures FromBits(Reversed(b)) == MsbVal(b)
    decreases |b|
  {
    if b != [] {
      ReversedValue(b[..|b| - 1]);
      assert Reversed(b)[1..] == Reversed(b[..|b| - 1]);
    }
  }

  lemma {:induction false} MsbReversed(v: nat, n: nat)
    ensures MsbBits(v, n) == Reversed(ToBits(v, n))
    decreases n
  {
    if n > 0 {
      MsbReversed(v / 2, n - 1);
      var a, b := ToBits(v, n), ToBits(v / 2, n - 1);
      assert Reversed(a) == Reversed(b) + [v % 2 == 1];
    }
  }

  /** All sixteen bits: the first bit of the stream becomes the highest. */
  lemma ReverseStream(v: nat)
    ensures Reverse(v, 16) == MsbVal(ToBits(v, 16)) == Number(Reverse16(Word(v)))
  {
    hide ToBits, FromBits, Pow2, WordBits, Reverse16, Pack, Reversed, MsbVal;
    ReverseBits(Word(v));
    PackBits(ToBits(v, 16));
    ReversedValue(ToBits(v, 16));
    assert Shr(Number(Reverse16(Word(v))), 0) == Number(Reverse16(Word(v)));
  }

  lemma ReversedConcat(a: Bitstring, b: Bitstring)
    ensures Reversed(a + b) == Reversed(b) + Reversed(a)
  {
  }

  lemma {:induction false} HighZeros(v: nat, n: nat)
    requires v == 0
    ensures FromBits(ToBits(v, n)) == 0 && FromBits(Reversed(ToBits(v, n))) == 0
    decreases n
  {
    if n > 0 {
      HighZeros(0, n - 1);
      var a := ToBits(v, n);
      assert a == [false] + ToBits(0, n - 1);
      ReversedConcat([false], ToBits(0, n - 1));
      assert Reversed([false]) == [false];
      FromBitsConcat(Reversed(ToBits(0, n - 1)), [false]);
      assert FromBits([false]) == 0 by {
        assert [false][1..] == [];
      }
    }
  }

  /** A code is packed by reversing its bits. */
  lemma ReverseCodeIs(v: nat, bits: nat)
    requires bits <= 16 && v < Pow2(bits)
    ensures Reverse(v, bits) == FromBits(MsbBits(v, bits))
  {
    hide ToBits, FromBits, MsbBits, MsbVal, Reversed, Low, Shr, Pow2;
    var n := 16 - bits;
    ReverseStream(v);
    var all, low, high := ToBits(v, 16), ToBits(v, bits), ToBits(Shr(v, bits), n);
    ToBitsShr(v, bits, n);
    ShiftedOut(v, bits);
    HighZeros(Shr(v, bits), n);
    ReversedConcat(low, high);
    ReversedValue(all);
    FromBitsConcat(Reversed(high), Reversed(low));
    MsbReversed(v, bits);
    var x := Number(Reverse16(Word(v)));
    assert |Reversed(high)| == n;
    LowShr(x, n);
    DivModIs(Pow2(n), x, FromBits(Reversed(low)), 0);
    DivModIs(Pow2(n), x, Shr(x, n), Low(x, n));
  }

  lemma ShiftedOut(v: nat, n: nat)
    requires v < Pow2(n)
    ensures Shr(v, n) == 0
  {
    LowShr(v, n);
    if Shr(v, n) > 0 {
      MulMonotone(Pow2(n), 1, Shr(v, n));
    }
  }
}
