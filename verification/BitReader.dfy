/**
 The decompressor's bit buffer: `bit_buf`, `num_bits` and the input pointers of
 `tinfl_decompress` (external/miniz.c), in the 32-bit form.

 At every moment the buffered bits, the bytes of this call that have not been read and the bytes
 of later calls are together the part of the stream that has not been used yet.
 */
module BitReader {
  import opened Bits

  class Reader {
    var input: seq<Byte>          // this call's input
    var pos: nat                  // pIn_buf_cur - pIn_buf_next
    var bitBuf: nat
    var numBits: nat
    ghost var carry: Bitstring    // buffered when the call began
    ghost var future: seq<Byte>   // input of later calls

    ghost predicate Valid()
      reads this
    {
      && pos <= |input| && numBits <= 31 && bitBuf < Pow2(numBits)
      && Suffix(carry, input[..pos], ToBits(bitBuf, numBits))
    }

    /** Everything that has not been used. */
    ghost function Pending(): Bitstring
      reads this
      requires Valid()
    {
      ToBits(bitBuf, numBits) + ByteBits(input[pos..] + future)
    }

    constructor ()
      ensures Valid() && input == [] && pos == 0 && numBits == 0
    {
      input, pos, bitBuf, numBits, carry, future := [], 0, 0, 0, [], [];
    }

    /** The start of a call. */
    method Begin(data: seq<Byte>, ghost later: seq<Byte>)
      requires numBits <= 31 && bitBuf < Pow2(numBits)
      modifies this`input, this`pos, this`carry, this`future
      ensures Valid() && input == data && pos == 0 && future == later && carry == ToBits(bitBuf, numBits)
    {
      input, pos, carry, future := data, 0, ToBits(bitBuf, numBits), later;
      assert carry + ByteBits(data[..0]) == carry;
    }

    /** Reads a byte into the bit buffer, if there is one. */
    method LoadByte() returns (ok: bool)
      requires Valid() && numBits < 24
      modifies this`pos, this`bitBuf, this`numBits
      ensures Valid() && Pending() == old(Pending()) && ok == (old(pos) < |input|)
      ensures if ok then pos == old(pos) + 1 && numBits == old(numBits) + 8 else unchanged(this) && pos == |input|
    {
      hide ToBits, ByteBits, Or, Shl;
      if pos >= |input| {
        return false;
      }
      var c := input[pos];
      LoadedByte(bitBuf, numBits, c);
      bitBuf := Or(bitBuf, Shl(c, numBits));
      Loaded(carry, input, pos, ToBits(old(bitBuf), old(numBits)), future);
      numBits := numBits + 8;
      pos := pos + 1;
      return true;
    }

    /** Reads two bytes at once. */
    method LoadTwo()
      requires Valid() && numBits < 15 && pos + 2 <= |input|
      modifies this`pos, this`bitBuf, this`numBits
      ensures Valid() && Pending() == old(Pending()) && pos == old(pos) + 2 && numBits == old(numBits) + 16
    {
      var ok := LoadByte();
      ok := LoadByte();
    }

    /** `TINFL_NEED_BITS`, if they are needed. */
    method NeedBits(n: nat) returns (ok: bool)
      requires Valid() && n <= 16
      modifies this`pos, this`bitBuf, this`numBits
      ensures Valid() && Pending() == old(Pending()) && old(pos) <= pos
      ensures if ok then n <= numBits && (old(numBits) >= n ==> unchanged(this)) else pos == |input| && numBits < n
      ensures numBits - 8 * pos == old(numBits) - 8 * old(pos)
    {
      hide Reader.Valid, Reader.Pending;
      ok := true;
      while numBits < n
        invariant Valid() && Pending() == old(Pending()) && old(pos) <= pos
        invariant old(numBits) >= n ==> pos == old(pos) && bitBuf == old(bitBuf)
        invariant numBits - 8 * pos == old(numBits) - 8 * old(pos)
        decreases n - numBits
      {
        ok := LoadByte();
        if !ok {
          return;
        }
      }
    }

    /** `bit_buf & ((1 << n) - 1)`, and drops those bits. */
    method TakeBits(n: nat) returns (v: nat)
      requires Valid() && n <= numBits
      modifies this`bitBuf, this`numBits
      ensures Valid() && numBits == old(numBits) - n
      ensures v == FromBits(old(Pending())[..n]) && Pending() == old(Pending())[n..] && v < Pow2(n)
    {
      hide ToBits, ByteBits, Low, Shr;
      Taken(bitBuf, numBits, n, ByteBits(input[pos..] + future));
      SuffixShorter(carry, input[..pos], ToBits(bitBuf, numBits), n);
      v := Low(bitBuf, n);
      bitBuf := Shr(bitBuf, n);
      numBits := numBits - n;
    }

    /** A byte that is not needed as bits. */
    method NextByte() returns (c: Byte)
      requires Valid() && numBits == 0 && pos < |input|
      modifies this`pos
      ensures Valid() && pos == old(pos) + 1 && c == input[old(pos)]
      ensures old(Pending()) == ToBits(c, 8) + Pending()
    {
      hide ByteBits, Pow2;
      c := input[pos];
      OneByte(carry, input, pos, future);
      pos := pos + 1;
    }

    /** Hands back whole bytes that have been read ahead, as far as they came from this call. */
    method PutBack()
      requires Valid()
      modifies this`pos, this`bitBuf, this`numBits
      ensures Valid() && Pending() == old(Pending()) && pos <= old(pos)
      ensures numBits < 8 || pos == 0
      ensures numBits - 8 * pos == old(numBits) - 8 * old(pos)
    {
      hide Reader.Valid, Reader.Pending, Low;
      while pos > 0 && numBits >= 8
        invariant Valid() && Pending() == old(Pending()) && pos <= old(pos)
        invariant numBits - 8 * pos == old(numBits) - 8 * old(pos)
        decreases pos
      {
        PutBackByte();
      }
    }

    method PutBackByte()
      requires Valid() && pos > 0 && numBits >= 8
      modifies this`pos, this`bitBuf, this`numBits
      ensures Valid() && Pending() == old(Pending()) && pos == old(pos) - 1 && numBits == old(numBits) - 8
    {
      hide ToBits, ByteBits, Low, Shr;
      Unloaded(carry, input, pos, bitBuf, numBits, future);
      pos := pos - 1;
      numBits := numBits - 8;
      bitBuf := Low(bitBuf, numBits);
    }
  }

  /** What is buffered are the last of the bits that have come in. */
  ghost predicate Suffix(carry: Bitstring, read: seq<Byte>, b: Bitstring) {
    var all := carry + ByteBits(read);
    |b| <= |all| && b == all[|all| - |b|..]
  }

  lemma LoadedByte(bitBuf: nat, n: nat, c: Byte)
    requires bitBuf < Pow2(n)
    ensures var v := Or(bitBuf, Shl(c, n)); v < Pow2(n + 8) && ToBits(v, n + 8) == ToBits(bitBuf, n) + ToBits(c, 8)
  {
    hide ToBits, FromBits, Or, Shl, Pow2;
    Pow2Values();
    FromBitsToBits(bitBuf, n);
    FromBitsToBits(c, 8);
    AppendBits(ToBits(bitBuf, n), ToBits(c, 8));
    ToBitsFromBits(ToBits(bitBuf, n) + ToBits(c, 8));
  }

  lemma Loaded(carry: Bitstring, input: seq<Byte>, pos: nat, b: Bitstring, future: seq<Byte>)
    requires pos < |input| && Suffix(carry, input[..pos], b)
    ensures Suffix(carry, input[..pos + 1], b + ToBits(input[pos], 8))
    ensures b + ByteBits(input[pos..] + future) == b + ToBits(input[pos], 8) + ByteBits(input[pos + 1..] + future)
  {
    hide ByteBits, ToBits;
    var c := input[pos];
    FirstByte(input, pos, future);
    assert input[..pos + 1] == input[..pos] + [c];
    ByteBitsSnoc(input[..pos], c);
    EndGrows(carry, ByteBits(input[..pos]), b, ToBits(c, 8));
    ConcatAssoc(b, ToBits(c, 8), ByteBits(input[pos + 1..] + future));
  }

  lemma EndGrows(carry: Bitstring, read: Bitstring, b: Bitstring, x: Bitstring)
    requires var all := carry + read; |b| <= |all| && b == all[|all| - |b|..]
    ensures var all := carry + (read + x); |b + x| <= |all| && b + x == all[|all| - |b + x|..]
  {
  }

  lemma EndShrinks(carry: Bitstring, read: Bitstring, b: Bitstring, x: Bitstring)
    requires var all := carry + (read + x); |x| <= |b| <= |all| && b == all[|all| - |b|..]
    ensures var k, all := |b| - |x|, carry + read;
            b[k..] == x && b == b[..k] + x && k <= |all| && b[..k] == all[|all| - k..]
  {
    assert carry + (read + x) == carry + read + x;
  }

  lemma FirstByte(input: seq<Byte>, pos: nat, future: seq<Byte>)
    requires pos < |input|
    ensures ByteBits(input[pos..] + future) == ToBits(input[pos], 8) + ByteBits(input[pos + 1..] + future)
  {
    var s := input[pos..] + future;
    assert s[0] == input[pos] && s[1..] == input[pos + 1..] + future;
    ByteBitsHead(s);
  }

  lemma OneByte(carry: Bitstring, input: seq<Byte>, pos: nat, future: seq<Byte>)
    requires pos < |input|
    ensures Suffix(carry, input[..pos + 1], [])
    ensures ByteBits(input[pos..] + future) == ToBits(input[pos], 8) + ByteBits(input[pos + 1..] + future)
  {
    FirstByte(input, pos, future);
  }

  lemma Taken(bitBuf: nat, n: nat, k: nat, more: Bitstring)
    requires bitBuf < Pow2(n) && k <= n
    ensures Low(bitBuf, k) == FromBits((ToBits(bitBuf, n) + more)[..k]) && Low(bitBuf, k) < Pow2(k)
    ensures ToBits(Shr(bitBuf, k), n - k) == ToBits(bitBuf, n)[k..] && Shr(bitBuf, k) < Pow2(n - k)
    ensures ToBits(Shr(bitBuf, k), n - k) + more == (ToBits(bitBuf, n) + more)[k..]
  {
    hide ToBits, FromBits, Low, Shr, Pow2;
    var b := ToBits(bitBuf, n);
    FromBitsToBits(bitBuf, n);
    ShiftMask(b, k);
    ToBitsFromBits(b[k..]);
    assert (b + more)[..k] == b[..k] && (b + more)[k..] == b[k..] + more;
    LowShr(bitBuf, k);
  }

  lemma SuffixShorter(carry: Bitstring, read: seq<Byte>, b: Bitstring, k: nat)
    requires Suffix(carry, read, b) && k <= |b|
    ensures Suffix(carry, read, b[k..])
  {
  }

  lemma Unloaded(carry: Bitstring, input: seq<Byte>, pos: nat, bitBuf: nat, n: nat, future: seq<Byte>)
    requires 0 < pos <= |input| && n >= 8 && bitBuf < Pow2(n) && Suffix(carry, input[..pos], ToBits(bitBuf, n))
    ensures Low(bitBuf, n - 8) < Pow2(n - 8) && Suffix(carry, input[..pos - 1], ToBits(Low(bitBuf, n - 8), n - 8))
    ensures ToBits(Low(bitBuf, n - 8), n - 8) + ByteBits(input[pos - 1..] + future) ==
            ToBits(bitBuf, n) + ByteBits(input[pos..] + future)
  {
    hide ToBits, FromBits, Low, Shr, Pow2, ByteBits, Suffix;
    var c, b := input[pos - 1], ToBits(bitBuf, n);
    FromBitsToBits(bitBuf, n);
    ShiftMask(b, n - 8);
    ToBitsFromBits(b[..n - 8]);
    LowShr(bitBuf, n - 8);
    LastByte(carry, input, pos, b);
    FirstByte(input, pos - 1, future);
    ConcatAssoc(b[..n - 8], ToBits(c, 8), ByteBits(input[pos..] + future));
  }

  lemma LastByte(carry: Bitstring, input: seq<Byte>, pos: nat, b: Bitstring)
    requires 0 < pos <= |input| && |b| >= 8 && Suffix(carry, input[..pos], b)
    ensures b[|b| - 8..] == ToBits(input[pos - 1], 8) && Suffix(carry, input[..pos - 1], b[..|b| - 8])
    ensures b == b[..|b| - 8] + ToBits(input[pos - 1], 8)
  {
    hide ByteBits, ToBits;
    var c := input[pos - 1];
    assert input[..pos] == input[..pos - 1] + [c];
    ByteBitsSnoc(input[..pos - 1], c);
    EndShrinks(carry, ByteBits(input[..pos - 1]), b, ToBits(c, 8));
  }
}
