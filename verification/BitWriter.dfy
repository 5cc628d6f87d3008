/**
 The compressor's bit writer: the macro `TDEFL_PUT_BITS` of external/miniz.c over a buffer of
 fixed size.

 `log` is everything put since the buffer was opened, after the bits that were still waiting.
 Bytes that do not fit are dropped without a trace; as long as the buffer is not full, nothing
 has been dropped.
 */
module BitWriter {
  import opened Bits

  /** The bytes are the beginning of the log; unless the buffer is full the waiting bits are the rest. */
  ghost predicate Holds(bytes: seq<Byte>, full: bool, bitBuffer: nat, bitsIn: nat, log: Bitstring) {
    && 8 * |bytes| + bitsIn <= |log| && (|log| - bitsIn) % 8 == 0
    && ByteBits(bytes) == log[..8 * |bytes|]
    && bitBuffer < Pow2(bitsIn)
    && (!full ==> |log| == 8 * |bytes| + bitsIn && bitBuffer == FromBits(log[8 * |bytes|..]))
  }

  class Writer {
    const buf: array<Byte>      // m_output_buf
    var pos: nat                // m_pOutput_buf
    var end: nat                // m_pOutput_buf_end
    var bitBuffer: nat          // m_bit_buffer
    var bitsIn: nat             // m_bits_in
    ghost var log: Bitstring

    ghost predicate Valid()
      reads this, buf
    {
      pos <= end <= buf.Length && bitsIn < 8 && Holds(buf[..pos], pos == end, bitBuffer, bitsIn, log)
    }

    constructor (size: nat)
      ensures Valid() && fresh(buf) && buf.Length == size
      ensures log == [] && pos == 0 && bitsIn == 0 && bitBuffer == 0
    {
      buf := new Byte[size](_ => 0);
      pos, end, bitBuffer, bitsIn, log := 0, 0, 0, 0, [];
    }

    /** `TDEFL_PUT_BITS(b, l)`, in 32-bit arithmetic. */
    method PutBits(b: nat, l: nat)
      requires Valid() && b < Pow2(l) && l <= 16
      modifies this`pos, this`bitBuffer, this`bitsIn, this`log, buf
      ensures Valid() && log == old(log) + ToBits(b, l) && old(pos) <= pos
    {
      hide Holds, Or, Shl, ToBits, Pow2;
      HoldsPut(buf[..pos], pos == end, bitBuffer, bitsIn, log, b, l);
      bitBuffer := Or(bitBuffer, Shl(b, bitsIn)) % 0x1_0000_0000;
      bitsIn := bitsIn + l;
      log := log + ToBits(b, l);
      Drain();
    }

    /** Between blocks: less than a byte is waiting. */
    predicate Idle()
      reads this
    {
      bitsIn < 8 && bitBuffer < Pow2(bitsIn)
    }

    /** The output buffer is empty again; the bits that are waiting come first. */
    method Open(size: nat)
      requires Idle() && size <= buf.Length
      modifies this`pos, this`end, this`log
      ensures Valid() && pos == 0 && end == size && log == ToBits(bitBuffer, bitsIn)
    {
      FromBitsToBits(bitBuffer, bitsIn);
      pos, end, log := 0, size, ToBits(bitBuffer, bitsIn);
      assert log[..0] == [] && log[0..] == log;
      hide ToBits, FromBits;
    }

    /** Fills up the last byte: `if (d->m_bits_in) TDEFL_PUT_BITS(0, 8 - d->m_bits_in)`. */
    method Align()
      requires Valid()
      modifies this`pos, this`bitBuffer, this`bitsIn, this`log, buf
      ensures Valid() && log == old(log) + ToBits(0, (8 - |old(log)| % 8) % 8) && old(pos) <= pos
    {
      hide ToBits, FromBits, ByteBits;
      assert |log| % 8 == bitsIn;
      if bitsIn > 0 {
        PutBits(0, 8 - bitsIn);
      } else {
        assert log + ToBits(0, 0) == log;
      }
    }

    /** Goes back to an earlier state of the buffer; what was written after it is forgotten. */
    method Restore(pos': nat, bitBuffer': nat, bitsIn': nat, ghost bytes: seq<Byte>, ghost log': Bitstring)
      requires Valid() && log' <= log && pos' < end && pos' <= pos && bitsIn' < 8
      requires |bytes| == pos' && Holds(bytes, false, bitBuffer', bitsIn', log')
      modifies this`pos, this`bitBuffer, this`bitsIn, this`log
      ensures Valid() && pos == pos' && log == log'
    {
      hide FromBits;
      ByteBitsPrefix(buf[..pos], pos');
      assert buf[..pos][..pos'] == buf[..pos'];
      assert ByteBits(buf[..pos']) == log[..8 * pos'] == log'[..8 * pos'];
      ByteBitsInjective(buf[..pos'], bytes);
      pos, bitBuffer, bitsIn, log := pos', bitBuffer', bitsIn', log';
    }

    /** As long as the buffer is not full it holds all of the log but the waiting bits. */
    lemma Complete()
      requires Valid() && pos < end
      ensures log == ByteBits(buf[..pos]) + ToBits(bitBuffer, bitsIn) && Idle()
    {
      ToBitsFromBits(log[8 * pos..]);
    }

    lemma NotFull()
      requires Valid() && |log| < 8 * end
      ensures pos < end
    {
    }

    /** Moves whole bytes from the word to the buffer. */
    method Drain()
      requires pos <= end <= buf.Length && Holds(buf[..pos], pos == end, bitBuffer, bitsIn, log)
      modifies this`pos, this`bitBuffer, this`bitsIn, buf
      ensures Valid() && old(pos) <= pos
    {
      hide Holds, Shr, Low;
      while bitsIn >= 8
        invariant old(pos) <= pos <= end <= buf.Length
        invariant Holds(buf[..pos], pos == end, bitBuffer, bitsIn, log)
        decreases bitsIn
      {
        ghost var was := buf[..pos];
        if pos < end {
          HoldsByte(was, bitBuffer, bitsIn, log);
          buf[pos] := Low(bitBuffer, 8);
          pos := pos + 1;
          assert buf[..pos] == was + [Low(bitBuffer, 8)];
        } else {
          HoldsDrop(was, bitBuffer, bitsIn, log);
        }
        bitBuffer := Shr(bitBuffer, 8);
        bitsIn := bitsIn - 8;
      }
    }
  }

  lemma ByteBitsPrefix(bytes: seq<Byte>, n: nat)
    requires n <= |bytes|
    ensures ByteBits(bytes[..n]) == ByteBits(bytes)[..8 * n]
  {
    ByteBitsConcat(bytes[..n], bytes[n..]);
    assert bytes[..n] + bytes[n..] == bytes;
  }

  lemma HoldsPut(bytes: seq<Byte>, full: bool, bitBuffer: nat, bitsIn: nat, log: Bitstring, b: nat, l: nat)
    requires Holds(bytes, full, bitBuffer, bitsIn, log) && bitsIn < 8 && b < Pow2(l) && l <= 16
    ensures Or(bitBuffer, Shl(b, bitsIn)) < 0x1_0000_0000
    ensures Holds(bytes, full, Or(bitBuffer, Shl(b, bitsIn)), bitsIn + l, log + ToBits(b, l))
  {
    var n, more := 8 * |bytes|, ToBits(b, l);
    hide Or, Shl, ToBits, FromBits, ByteBits, Pow2;
    PutFits(bitBuffer, bitsIn, b, l);
    FromBitsToBits(b, l);
    AppendBits(log[n..], more);
    assert (log + more)[n..] == log[n..] + more && (log + more)[..n] == log[..n];
  }

  lemma HoldsByte(bytes: seq<Byte>, bitBuffer: nat, bitsIn: nat, log: Bitstring)
    requires Holds(bytes, false, bitBuffer, bitsIn, log) && bitsIn >= 8
    ensures Low(bitBuffer, 8) < 256
    ensures Holds(bytes + [Low(bitBuffer, 8)], false, Shr(bitBuffer, 8), bitsIn - 8, log)
    ensures Holds(bytes + [Low(bitBuffer, 8)], true, Shr(bitBuffer, 8), bitsIn - 8, log)
  {
    ShrFits(bitBuffer, bitsIn, 8);
    TakeByte(log, 8 * |bytes|);
    ByteBitsSnoc(bytes, Low(bitBuffer, 8));
    hide Low, Shr, FromBits, ByteBits, Pow2, ToBits;
  }

  lemma HoldsDrop(bytes: seq<Byte>, bitBuffer: nat, bitsIn: nat, log: Bitstring)
    requires Holds(bytes, true, bitBuffer, bitsIn, log) && bitsIn >= 8
    ensures Holds(bytes, true, Shr(bitBuffer, 8), bitsIn - 8, log)
  {
    ShrFits(bitBuffer, bitsIn, 8);
    hide Shr, Pow2;
  }

  lemma PutFits(a: nat, n: nat, b: nat, l: nat)
    requires a < Pow2(n) && b < Pow2(l) && n < 8 && l <= 16
    ensures Or(a, Shl(b, n)) < Pow2(n + l) && Or(a, Shl(b, n)) < 0x1_0000_0000
  {
    OrDisjoint(a, n, b);
    Pow2Add(n, l);
    assert Pow2(n) * (b + 1) == Pow2(n) * b + Pow2(n);
    MulMonotone(Pow2(n), b + 1, Pow2(l));
    Pow2Monotone(n + l, 23);
    Pow2Add(16, 7);
    Pow2Values();
  }

  lemma ShrFits(v: nat, n: nat, k: nat)
    requires v < Pow2(n) && k <= n
    ensures Shr(v, k) < Pow2(n - k)
  {
    LowShr(v, k);
    Pow2Add(k, n - k);
    if Shr(v, k) >= Pow2(n - k) {
      MulMonotone(Pow2(k), Pow2(n - k), Shr(v, k));
    }
  }

  /** The low byte of the waiting bits, and what is left of them. */
  lemma TakeByte(log: Bitstring, n: nat)
    requires n + 8 <= |log|
    ensures var w := FromBits(log[n..]);
            Low(w, 8) < 256 && ToBits(Low(w, 8), 8) == log[n..n + 8] && Shr(w, 8) == FromBits(log[n + 8..])
    ensures log[..n + 8] == log[..n] + log[n..n + 8]
  {
    hide *;
    var b := log[n..];
    ShiftMask(b, 8);
    ToBitsFromBits(b[..8]);
    Slices(log, n);
    Pow2Values();
    LowShr(FromBits(b), 8);
  }

  lemma Slices(log: Bitstring, n: nat)
    requires n + 8 <= |log|
    ensures log[n..][..8] == log[n..n + 8] && log[n..][8..] == log[n + 8..]
    ensures log[..n + 8] == log[..n] + log[n..n + 8]
  {
  }
}
