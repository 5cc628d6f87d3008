/**
 The choice of block in `tdefl_flush_block` (external/miniz.c): a compressed block, unless storing
 the bytes takes less.  The third way, the static code for a block that does not fit, is never taken.
 */
module BlockFlush {
  import opened Bits
  import opened BitWriter
  import opened BlockHeader
  import opened BlockWriter
  import opened Deflate
  import opened Parser
  import opened Stream
  import opened Window
  import BlockBody
  import TokenBuffer

  const OUT_SIZE := 85196      // TDEFL_OUT_BUF_SIZE

  /** The bytes of a block that are still in the window can be read back from the ring. */
  method PutBytes(w: Writer, window: Dictionary, dictPos: nat, n: nat, ghost base: nat)
    requires w.Valid() && window.Valid() && w.buf != window.dict && dictPos == base % WORD
    requires |window.hist| - window.lookaheadSize - window.dictSize <= base && base + n <= |window.hist|
    modifies w`pos, w`bitBuffer, w`bitsIn, w`log, w.buf
    ensures w.Valid() && old(w.pos) <= w.pos && w.log == old(w.log) + ByteBits(window.hist[base..base + n])
  {
    hide Ring, ByteBits, ToBits, Writer.Valid;
    ghost var data := window.hist[base..base + n];
    NothingPut(w.log);
    var i: nat := 0;
    while i < n
      invariant i <= n && window.Valid() && w.Valid() && old(w.pos) <= w.pos
      invariant w.log == old(w.log) + ByteBits(data[..i])
    {
      PlaceAfter(base, dictPos, i);
      RingAt(window.dict[..], window.hist, window.dictSize + window.lookaheadSize, base + i, 0);
      var c := window.dict[(dictPos + i) % DICT_SIZE];
      assert data[..i + 1] == data[..i] + [c];
      ByteBitsSnoc(data[..i], c);
      ConcatAssoc(old(w.log), ByteBits(data[..i]), ToBits(c, 8));
      Pow2Values();
      w.PutBits(c, 8);
      i := i + 1;
    }
    assert data[..n] == data;
  }

  lemma NothingPut(log: Bitstring)
    ensures log == log + ByteBits([])
  {
  }

  /** A stored block, from its type on. */
  method PutStored(w: Writer, window: Dictionary, dictPos: nat, n: nat, ghost base: nat)
    requires w.Valid() && window.Valid() && w.buf != window.dict && dictPos == base % WORD && n < 65536
    requires |window.hist| - window.lookaheadSize - window.dictSize <= base && base + n <= |window.hist|
    modifies w`pos, w`bitBuffer, w`bitsIn, w`log, w.buf
    ensures w.Valid() && old(w.pos) <= w.pos
    ensures w.log == old(w.log) + (ToBits(0, 2) + StoredBits(|old(w.log)| + 2, window.hist[base..base + n]))
  {
    hide Ring, ByteBits, ToBits, Writer.Valid;
    Pow2Values();
    w.PutBits(0, 2);
    w.Align();
    w.PutBits(n, 16);
    w.PutBits(65535 - n, 16);
    PutBytes(w, window, dictPos, n, base);
    FiveMore(old(w.log), ToBits(0, 2), ToBits(0, PadBits(|old(w.log)| + 2)), ToBits(n, 16), ToBits(65535 - n, 16),
        ByteBits(window.hist[base..base + n]));
  }

  lemma FiveMore(log: Bitstring, a: Bitstring, b: Bitstring, c: Bitstring, d: Bitstring, e: Bitstring)
    ensures log + a + b + c + d + e == log + (a + (b + (c + (d + e))))
  {
  }

  /** `(d->m_lookahead_pos - d->m_lz_code_buf_dict_pos) <= d->m_dict_size`, in 32 bits. */
  method InWindow(window: Dictionary, dictPos: nat, ghost base: nat) returns (r: bool)
    requires window.Valid() && dictPos == base % WORD && base <= window.Start() < base + WORD
    ensures r == (window.Start() - base <= window.dictSize)
  {
    DistanceMod(window.Start(), base);
    r := (window.lookaheadPos - dictPos) % WORD <= window.dictSize;
  }

  lemma DistanceMod(a: nat, b: nat)
    requires b <= a < b + WORD
    ensures (a % WORD - b % WORD) % WORD == a - b
  {
  }

  /** Separate pieces of memory. */
  ghost predicate Separate(w: Writer, tables: Tables, window: Dictionary, codeBuf: array<Byte>) {
    && w.buf != codeBuf && w.buf != window.dict && codeBuf != window.dict
    && tables.Apart(w, codeBuf)
    && window.dict as object !in tables.lit.Arrays() + tables.dist.Arrays() + tables.clen.Arrays()
  }

  /** The closed token buffer holds the tokens between two positions of the input. */
  ghost predicate Pending(window: Dictionary, buf: seq<Byte>, end: nat, total: nat, dictPos: nat, base: nat,
      ts: TokenBuffer.Tokens, pos: nat)
    reads window
  {
    && TokenBuffer.AllValid(ts) && |ts| <= 58254 && TokenBuffer.Closed(buf, ts)
    && end == BlockBody.Pos(ts, |ts|) && TokenBuffer.NextPos(ts, |ts|) <= TokenBuffer.SIZE
    && Parsed(window.hist, base, ts, pos) && total == TokenBuffer.TotalLen(ts)
    && dictPos == base % WORD
    && pos <= |window.hist| - window.lookaheadSize <= pos + 1
  }

  lemma PendingSmall(window: Dictionary, buf: seq<Byte>, end: nat, total: nat, dictPos: nat, base: nat,
      ts: TokenBuffer.Tokens, pos: nat)
    requires Pending(window, buf, end, total, dictPos, base, ts, pos)
    ensures pos == base + total && total + 1 < WORD && base <= pos <= |window.hist| && dictPos == base % WORD
    ensures base <= |window.hist| - window.lookaheadSize < base + WORD && pos <= |window.hist| - window.lookaheadSize
    ensures TokenBuffer.AllValid(ts) && TokenBuffer.Closed(buf, ts) && end == BlockBody.Pos(ts, |ts|)
    ensures 31 * FlagWeight(ts, |ts|) <= 16252900
  {
    TokenBuffer.TotalLenBound(ts);
    FlagWeightBound(ts, |ts|);
  }

  /** What `PutBlock` leaves behind: one block more, in a buffer that is not full. */
  ghost predicate Sent(log0: Bitstring, log: Bitstring, type_: nat, bits: Bitstring, hist: seq<Byte>, base: nat,
      pos: nat)
    requires base <= pos <= |hist|
  {
    && type_ < 4 && log == log0 + (ToBits(type_, 2) + bits)
    && BlockAt(type_, bits, |log0| + 2, hist[..base], hist[..pos])
  }

  lemma SentCompressed(window: Dictionary, buf: seq<Byte>, end: nat, total: nat, dictPos: nat, base: nat,
      ts: TokenBuffer.Tokens, pos: nat, log0: Bitstring, type_: nat, bits: Bitstring)
    requires Pending(window, buf, end, total, dictPos, base, ts, pos) && type_ < 4 && BlockOf(type_, bits, ts)
    ensures base <= pos <= |window.hist|
    ensures Sent(log0, log0 + (ToBits(type_, 2) + bits), type_, bits, window.hist, base, pos)
  {
    hide BlockOf, BlockAt;
    CompressedAt(type_, bits, |log0| + 2, ts, window.hist[..base]);
  }

  lemma SentStored(hist: seq<Byte>, base: nat, pos: nat, log0: Bitstring)
    requires base <= pos <= |hist| && pos - base < 65536
    ensures Sent(log0, log0 + (ToBits(0, 2) + StoredBits(|log0| + 2, hist[base..pos])), 0,
            StoredBits(|log0| + 2, hist[base..pos]), hist, base, pos)
  {
    hide BlockAt, StoredBits, ToBits;
    StoredAt(|log0| + 2, hist[base..pos], hist[..base]);
    assert hist[..base] + hist[base..pos] == hist[..pos];
  }

  /** The block as compressed data; it always fits. */
  method PutCompressed(w: Writer, tables: Tables, window: Dictionary, codeBuf: array<Byte>, end: nat, total: nat,
      dictPos: nat, isStatic: bool, ghost base: nat, ghost ts: TokenBuffer.Tokens, ghost pos: nat)
    returns (fits: bool, ghost type_: nat, ghost bits: Bitstring)
    requires w.Valid() && tables.Valid() && window.Valid() && Separate(w, tables, window, codeBuf)
    requires Pending(window, codeBuf[..], end, total, dictPos, base, ts, pos)
    requires !isStatic ==> Counted(tables.lit.count[..], tables.dist.count[..], ts)
    requires |w.log| <= 24 && w.end == OUT_SIZE - 16 && base <= pos <= |window.hist|
    modifies w`pos, w`bitBuffer, w`bitsIn, w`log, w.buf, tables.lit.Arrays(), tables.dist.sizes, tables.dist.codes,
        tables.clen.Arrays()
    ensures w.Valid() && old(w.pos) <= w.pos < w.end && window.Valid() && fits
    ensures Sent(old(w.log), w.log, type_, bits, window.hist, base, pos) && |w.log| <= 681000
  {
    hide Counted, TokenBuffer.Closed, Ring, Sent, BlockOf, Pending, Tables.Valid, Tables.Apart;
    hide BitWriter.Holds, BlockBody.Pos;
    PendingSmall(window, codeBuf[..], end, total, dictPos, base, ts, pos);
    fits, type_, bits := tables.CompressBlock(w, codeBuf, end, isStatic, ts);
    w.NotFull();
    SentCompressed(window, codeBuf[..], end, total, dictPos, base, ts, pos, old(w.log), type_, bits);
  }

  /** The block as stored bytes; they are still in the window. */
  method PutRaw(w: Writer, window: Dictionary, total: nat, dictPos: nat, ghost base: nat, ghost pos: nat)
    returns (ghost bits: Bitstring)
    requires w.Valid() && window.Valid() && w.buf != window.dict && dictPos == base % WORD
    requires base <= pos <= window.Start() <= base + window.dictSize && total == pos - base
    requires |w.log| <= 24 && w.end == OUT_SIZE - 16
    modifies w`pos, w`bitBuffer, w`bitsIn, w`log, w.buf
    ensures w.Valid() && old(w.pos) <= w.pos && window.Valid() && w.pos < w.end && |w.log| <= 681000
    ensures Sent(old(w.log), w.log, 0, bits, window.hist, base, pos)
  {
    hide Ring, Sent, BitWriter.Holds;
    PutStored(w, window, dictPos, total, base);
    bits := StoredBits(|old(w.log)| + 2, window.hist[base..pos]);
    SentStored(window.hist, base, pos, old(w.log));
    w.NotFull();
  }

  /** Goes back to where the block began and stores it. */
  method PutRawInstead(w: Writer, savedPos: nat, savedBuffer: nat, savedIn: nat, ghost bytes: seq<Byte>,
      ghost log0: Bitstring, window: Dictionary, total: nat, dictPos: nat, ghost base: nat, ghost pos: nat)
    returns (ghost bits: Bitstring)
    requires w.Valid() && window.Valid() && w.buf != window.dict && dictPos == base % WORD
    requires base <= pos <= window.Start() <= base + window.dictSize && total == pos - base
    requires log0 <= w.log && savedPos < w.end && savedPos <= w.pos && savedIn < 8 && |log0| <= 24
    requires w.end == OUT_SIZE - 16
    requires |bytes| == savedPos && BitWriter.Holds(bytes, false, savedBuffer, savedIn, log0)
    modifies w`pos, w`bitBuffer, w`bitsIn, w`log, w.buf
    ensures w.Valid() && window.Valid() && w.pos < w.end && |w.log| <= 681000
    ensures Sent(log0, w.log, 0, bits, window.hist, base, pos)
  {
    hide Ring, Sent, BitWriter.Holds;
    w.Restore(savedPos, savedBuffer, savedIn, bytes, log0);
    bits := PutRaw(w, window, total, dictPos, base, pos);
  }

  /** One block, after its final-block bit. */
  method PutBlock(w: Writer, tables: Tables, window: Dictionary, codeBuf: array<Byte>, end: nat, total: nat,
      dictPos: nat, flags: Flags, ghost base: nat, ghost ts: TokenBuffer.Tokens, ghost pos: nat)
    returns (ghost type_: nat, ghost bits: Bitstring)
    requires w.Valid() && tables.Valid() && window.Valid() && Separate(w, tables, window, codeBuf)
    requires Pending(window, codeBuf[..], end, total, dictPos, base, ts, pos)
    requires Counted(tables.lit.count[..], tables.dist.count[..], ts)
    requires |w.log| <= 24 && w.end == OUT_SIZE - 16 && base <= pos <= |window.hist| && w.pos < w.end
    modifies w`pos, w`bitBuffer, w`bitsIn, w`log, w.buf, tables.lit.Arrays(), tables.dist.sizes, tables.dist.codes,
        tables.clen.Arrays()
    ensures w.Valid() && w.pos < w.end && window.Valid()
    ensures Sent(old(w.log), w.log, type_, bits, window.hist, base, pos)
    ensures |w.log| <= 681000
  {
    hide Counted, TokenBuffer.Closed, Ring, BlockAt, Pending, Tables.Valid, Tables.Apart, BitWriter.Holds;
    hide BlockBody.Pos, ToBits;
    PendingSmall(window, codeBuf[..], end, total, dictPos, base, ts, pos);
    var inWindow := InWindow(window, dictPos, base);
    var useRaw := flags.forceRaw && inWindow;
    var savedPos, savedBuffer, savedIn := w.pos, w.bitBuffer, w.bitsIn;
    ghost var bytes, log0 := w.buf[..w.pos], w.log;
    w.Complete();
    var fits := false;
    if !useRaw {
      fits, type_, bits := PutCompressed(w, tables, window, codeBuf, end, total, dictPos,
          flags.forceStatic || total < 48, base, ts, pos);
    }
    if (useRaw || (total > 0 && w.pos - savedPos + 1 >= total)) && inWindow {
      bits := PutRawInstead(w, savedPos, savedBuffer, savedIn, bytes, log0, window, total, dictPos, base, pos);
      type_ := 0;
    } else if !fits {
      assert false; // where the static code would be taken instead
    }
  }
}
