/**
 Reading zlib data bit by bit (external/stb_image.h, `stbi__fill_bits`, `stbi__zreceive` and
 `stbi__zhuffman_decode`).  At the end of the data zero bits are put behind them: up to three bytes
 when the buffer is filled, and sixteen bits once more, so that a last short code can be found.
 */
module StbBits {
  import opened Bits
  import opened Canonical
  import opened CanonicalSearch
  import opened StbHuffman
  import opened Wrappers
  import BitReader
  import BitReverse


  function Falses(n: nat): (r: Bitstring)
    ensures |r| == n
  {
    ToBits(0, n)
  }

  class ZBuf {
    const input: seq<Byte>
    var pos: nat                // zbuffer
    var codeBuffer: nat
    var numBits: nat
    var hitEof: bool            // hit_zeof_once
    ghost var padded: nat       // zero bits that have been put behind the data

    /** The buffer never holds more bits than it says, so the test for that in `stbi__fill_bits` never fires. */
    ghost predicate Valid()
      reads this
    {
      pos <= |input| && numBits <= 32 && codeBuffer < Pow2(numBits) && (padded > 0 ==> pos == |input|)
    }

    /** The bits that have not been used. */
    ghost function Rest(): Bitstring
      reads this
      requires Valid()
    {
      ToBits(codeBuffer, numBits) + ByteBits(input[pos..])
    }

    constructor (input: seq<Byte>)
      ensures Valid() && this.input == input && Rest() == ByteBits(input) && padded == 0 && !hitEof
    {
      this.input, pos, codeBuffer, numBits, hitEof, padded := input, 0, 0, 0, false, 0;
      new;
      assert [] + ByteBits(input[0..]) == ByteBits(input);
    }

    /** `stbi__fill_bits` */
    method FillBits()
      requires Valid() && numBits <= 24
      modifies this`pos, this`codeBuffer, this`numBits, this`padded
      ensures Valid() && 24 < numBits && old(padded) <= padded && Rest() == old(Rest()) + Falses(padded - old(padded))
      ensures padded > old(padded) ==> pos == |input|
    {
      hide Valid, Rest, Falses;
      NoPadding(Rest());
      while numBits <= 24
        invariant Valid() && numBits <= 32 && old(padded) <= padded
        invariant Rest() == old(Rest()) + Falses(padded - old(padded))
        invariant padded > old(padded) ==> pos == |input|
        decreases 32 - numBits
      {
        FillByte(old(Rest()), old(padded));
      }
    }

    method FillByte(ghost was: Bitstring, ghost base: nat)
      requires Valid() && numBits <= 24 && base <= padded && Rest() == was + Falses(padded - base)
      requires (padded > base ==> pos == |input|)
      modifies this`pos, this`codeBuffer, this`numBits, this`padded
      ensures Valid() && numBits == old(numBits) + 8 && base <= padded
      ensures Rest() == was + Falses(padded - base) && (padded > base ==> pos == |input|)
    {
      hide ToBits, ByteBits, Or, Shl, Pow2;
      var c: Byte := 0;
      ghost var b, rest := ToBits(codeBuffer, numBits), input[pos..];
      if pos < |input| {
        c := input[pos];
        pos := pos + 1;
        assert rest[0] == c && rest[1..] == input[pos..];
        ByteBitsHead(rest);
      } else {
        padded := padded + 8;
        assert rest == [];
        MorePadding(b, was, padded - 8 - base, 8);
      }
      BitReader.LoadedByte(codeBuffer, numBits, c);
      codeBuffer := Or(codeBuffer, Shl(c, numBits));
      numBits := numBits + 8;
      ConcatAssoc(b, ToBits(c, 8), ByteBits(input[pos..]));
    }

    /** `stbi__zreceive` */
    method Receive(n: nat) returns (k: nat)
      requires Valid() && n <= 16
      modifies this`pos, this`codeBuffer, this`numBits, this`padded
      ensures Valid() && old(padded) <= padded
      ensures var all := old(Rest()) + Falses(padded - old(padded));
              n <= |all| && k == FromBits(all[..n]) && Rest() == all[n..]
    {
      hide ToBits, FromBits, ByteBits, Low, Shr, Pow2, Falses;
      NoPadding(Rest());
      if numBits < n {
        FillBits();
      }
      BitReader.Taken(codeBuffer, numBits, n, ByteBits(input[pos..]));
      k := Low(codeBuffer, n);
      codeBuffer := Shr(codeBuffer, n);
      numBits := numBits - n;
    }

    /** `stbi__zhuffman_decode`: the next symbol, or -1. */
    method Decode(z: ZHuffman, ghost lens: Lens) returns (sym: int)
      requires Valid() && z.For(lens)
      modifies this`pos, this`codeBuffer, this`numBits, this`padded, this`hitEof
      ensures Valid() && old(padded) <= padded
      ensures old(numBits) < 16 && old(pos) >= |input| && old(hitEof) ==> sym == -1 && unchanged(this)
      ensures !(old(numBits) < 16 && old(pos) >= |input| && old(hitEof)) ==>
                var all := old(Rest()) + Falses(padded - old(padded));
                && |all| >= 16
                && match Found(lens, all[..16])
                   case None => sym == -1 && Rest() == all
                   case Some((s, l)) => sym == s && l <= 16 && Rest() == all[l..]
    {
      hide ToBits, FromBits, ByteBits, Low, Shr, Pow2, Falses, ZHuffman.For, Found;
      ghost var was, base := Rest(), padded;
      NoPadding(was);
      if numBits < 16 {
        if pos >= |input| {
          if hitEof {
            return -1;
          }
          hitEof := true;
          PadBuffer();
        } else {
          FillBits();
        }
      }
      Sixteen(codeBuffer, numBits, ByteBits(input[pos..]));
      var r := z.Find(codeBuffer, lens);
      if r == None {
        return -1;
      }
      FoundBound(lens, ToBits(codeBuffer, 16));
      var s := r.value.1;
      BitReader.Taken(codeBuffer, numBits, s, ByteBits(input[pos..]));
      codeBuffer := Shr(codeBuffer, s);
      numBits := numBits - s;
      sym := r.value.0;
    }

    /** `num_bits += 16` */
    method PadBuffer()
      requires Valid() && numBits < 16 && pos >= |input|
      modifies this`numBits, this`padded
      ensures Valid() && numBits == old(numBits) + 16 && padded == old(padded) + 16
      ensures Rest() == old(Rest()) + Falses(16)
    {
      hide ToBits, Pow2;
      assert input[pos..] == [];
      ZerosAbove(codeBuffer, numBits, 16);
      padded := padded + 16;
      numBits := numBits + 16;
      assert ByteBits([]) == [];
    }
  }

  lemma NoPadding(b: Bitstring)
    ensures b + Falses(0) == b
  {
  }

  lemma MorePadding(b: Bitstring, was: Bitstring, n: nat, k: nat)
    requires b + ByteBits([]) == was + Falses(n)
    ensures b + ToBits(0, k) + ByteBits([]) == was + Falses(n + k)
  {
    hide ToBits;
    ZeroBits(n, k);
    assert ByteBits([]) == [];
    assert b + ByteBits([]) == b;
    assert b + ToBits(0, k) == was + Falses(n) + ToBits(0, k);
    ConcatAssoc(was, Falses(n), ToBits(0, k));
  }

  lemma {:induction false} ZeroBits(n: nat, k: nat)
    ensures ToBits(0, n) + ToBits(0, k) == ToBits(0, n + k)
    decreases n
  {
    if n > 0 {
      ZeroBits(n - 1, k);
      assert ToBits(0, n) + ToBits(0, k) == [false] + (ToBits(0, n - 1) + ToBits(0, k));
    }
  }

  lemma ZerosAbove(v: nat, n: nat, k: nat)
    requires v < Pow2(n)
    ensures v < Pow2(n + k) && ToBits(v, n + k) == ToBits(v, n) + ToBits(0, k)
  {
    hide ToBits, Pow2, Shr;
    Pow2Monotone(n, n + k);
    ToBitsShr(v, n, k);
    BitReverse.ShiftedOut(v, n);
  }

  lemma Sixteen(v: nat, n: nat, more: Bitstring)
    requires v < Pow2(n) && n >= 16
    ensures (ToBits(v, n) + more)[..16] == ToBits(v, 16)
  {
    hide ToBits, Pow2;
    ToBitsShr(v, 16, n - 16);
  }
}
