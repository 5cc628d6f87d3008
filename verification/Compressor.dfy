/**
 The compressor as a whole: `tdefl_flush_block`, `tdefl_compress_normal` and `tdefl_compress` of
 external/miniz.c, with its output going to a `tdefl_put_buf_func_ptr` that appends to a buffer.

 At every point between calls the bits written so far are complete blocks that decode to a prefix
 of the input: all of it after a flush, and a finished stream after the last call.
 */
module Compressor {
  import opened Bits
  import opened BitWriter
  import opened BlockFlush
  import opened BlockWriter
  import opened Deflate
  import opened Parser
  import opened Stream
  import opened Window
  import opened Wrappers
  import Adler
  import BlockBody
  import HuffmanTable
  import TokenBuffer

  datatype Flush = NoFlush | SyncFlush | FullFlush | Finish

  datatype Status = Okay | Done | BadParam | PutBufFailed

  // ---------- the zlib wrapper (RFC 1950) ----------

  /** `s_tdefl_num_probes` */
  function NumProbes(i: nat): nat
    requires i < 11
  {
    match i
    case 0 => 0 case 1 => 1 case 2 => 6 case 3 => 32 case 4 => 16 case 5 => 32 case 6 => 128
    case 7 => 256 case 8 => 512 case 9 => 768 case _ => 1500
  }

  /** The second header byte, from the compression level that the number of probes betrays. */
  method HeaderByte(probes: nat) returns (flg: Byte)
    ensures ZlibFlags(flg)
  {
    var i := 0;
    while i < 11 && NumProbes(i) != probes
      invariant 0 <= i <= 11
    {
      i := i + 1;
    }
    var flevel := 3;
    if i < 2 {
      flevel := 0;
    } else if i < 6 {
      flevel := 1;
    } else if i == 6 {
      flevel := 2;
    }
    var header := 0x7800 + 64 * flevel;
    header := header + (31 - header % 31);
    flg := header % 256;
  }

  /** The header check, and no preset dictionary. */
  predicate ZlibFlags(flg: Byte) {
    (0x7800 + flg) % 31 == 0 && (flg / 32) % 2 == 0
  }

  function ZlibHead(flg: Byte): (r: Bitstring)
    ensures |r| == 16
  {
    ToBits(0x78, 8) + ToBits(flg, 8)
  }

  /** The checksum, most significant byte first. */
  function ZlibTail(adler: nat): Bitstring {
    ToBits(adler / 0x1000000 % 256, 8) + ToBits(adler / 0x10000 % 256, 8) + ToBits(adler / 0x100 % 256, 8) +
    ToBits(adler % 256, 8)
  }

  method PutTail(w: Writer, adler: nat)
    requires w.Valid() && adler < Adler.WORD
    modifies w`pos, w`bitBuffer, w`bitsIn, w`log, w.buf
    ensures w.Valid() && w.log == old(w.log) + ZlibTail(adler)
  {
    hide ToBits, BitWriter.Holds;
    Pow2Values();
    var a, i := adler, 0;
    w.PutBits(a / 0x1000000 % 256, 8);
    a := a * 256 % Adler.WORD;
    ShiftedByte(adler, a);
    w.PutBits(a / 0x1000000 % 256, 8);
    ghost var b := a;
    a := a * 256 % Adler.WORD;
    ShiftedByte(b, a);
    w.PutBits(a / 0x1000000 % 256, 8);
    ghost var c := a;
    a := a * 256 % Adler.WORD;
    ShiftedByte(c, a);
    w.PutBits(a / 0x1000000 % 256, 8);
    var x0, x1, x2, x3 := ToBits(adler / 0x1000000 % 256, 8), ToBits(adler / 0x10000 % 256, 8),
        ToBits(adler / 0x100 % 256, 8), ToBits(adler % 256, 8);
    assert old(w.log) + x0 + x1 + x2 + x3 == old(w.log) + (x0 + x1 + x2 + x3);
  }

  lemma ShiftedByte(a: nat, b: nat)
    requires a < Adler.WORD && b == a * 256 % Adler.WORD
    ensures b / 0x1000000 % 256 == a / 0x10000 % 256 && b / 0x10000 % 256 == a / 0x100 % 256
    ensures b / 0x100 % 256 == a % 256
    ensures b < Adler.WORD
  {
    var h, m := a / 0x1000000, a % 0x1000000;
    var p, n := m / 0x10000, m % 0x10000;
    var q, r := n / 0x100, n % 0x100;
    Digits(a, h, p, q, r);
    DivModIs(Adler.WORD, a * 256, h, 0x1000000 * p + 0x10000 * q + 0x100 * r);
    Digits(b, p, q, r, 0);
  }

  lemma Digits(a: nat, h: nat, p: nat, q: nat, r: nat)
    requires h < 256 && p < 256 && q < 256 && r < 256
    requires a == 0x1000000 * h + 0x10000 * p + 0x100 * q + r
    ensures a / 0x1000000 % 256 == h && a / 0x10000 % 256 == p && a / 0x100 % 256 == q && a % 256 == r
  {
    DivModIs(0x1000000, a, h, 0x10000 * p + 0x100 * q + r);
    DivModIs(0x10000, a, 256 * h + p, 0x100 * q + r);
    DivModIs(0x100, a, 65536 * h + 256 * p + q, r);
    DivModIs(256, a, 65536 * h + 256 * p + q, r);
    DivModIs(256, 256 * h + p, h, p);
    DivModIs(256, 65536 * h + 256 * p + q, 256 * h + p, q);
  }

  // ---------- one flush, seen as bits ----------

  /** What follows the block: nothing, an empty stored block, or the end of the stream. */
  function TailBits(flush: Flush, at: nat, zlib: bool, adler: nat): Bitstring {
    match flush
    case NoFlush => []
    case Finish => ToBits(0, PadBits(at)) + if zlib then ZlibTail(adler) else []
    case _ => SyncBits(at)
  }

  /** The stream gains a block behind its header. */
  lemma StreamGrows(sink: Bitstring, waiting: Bitstring, head: Bitstring, body: Bitstring, h: Bitstring, last: bool,
      type_: nat, bits: Bitstring, tail: Bitstring)
    requires sink + waiting == head + body && (h == [] || (head == [] && body == []))
    ensures sink + (waiting + h + ToBits(FinalBit(last), 1) + (ToBits(type_, 2) + bits) + tail) ==
            (head + h) + WithBlock(body, last, type_, bits) + tail
  {
    hide ToBits;
    var f, t := ToBits(FinalBit(last), 1), ToBits(type_, 2);
    calc {
      sink + (waiting + h + f + (t + bits) + tail);
      (sink + waiting) + h + (f + (t + bits)) + tail;
      (head + body) + h + (f + (t + bits)) + tail;
      (head + h) + body + (f + (t + bits)) + tail;
      (head + h) + (body + (f + (t + bits))) + tail;
    }
  }

  /** Positions in the output buffer and in the stream agree within a byte. */
  lemma SamePosition(sink: seq<Byte>, waiting: nat, head: nat, body: nat, k: nat)
    requires 8 * |sink| + waiting == head + body && (head == 0 || head == 16)
    ensures (waiting + k) % 8 == (body + k) % 8
  {
  }

  lemma SameTail(flush: Flush, at: nat, at': nat, zlib: bool, adler: nat)
    requires at % 8 == at' % 8
    ensures TailBits(flush, at, zlib, adler) == TailBits(flush, at', zlib, adler)
  {
    hide ToBits, ZlibTail, PadBits;
    SamePad(at, at');
    SamePad(at + 3, at' + 3);
  }

  lemma SamePad(at: nat, at': nat)
    requires at % 8 == at' % 8
    ensures PadBits(at) == PadBits(at')
  {
  }

  /** What a flush makes of the stream. */
  lemma Flushed(body: Bitstring, out: seq<Byte>, flush: Flush, type_: nat, bits: Bitstring, at: nat, out': seq<Byte>)
    requires Sofar(body, out) && type_ < 4 && BlockAt(type_, bits, at, out, out') && at % 8 == (|body| + 3) % 8
    ensures var body' := WithBlock(body, flush == Finish, type_, bits);
            match flush
            case NoFlush => Sofar(body', out')
            case Finish => Final(body', out')
            case _ => Sofar(body' + SyncBits(|body'|), out') && WholeBytes(|body' + SyncBits(|body'|)|)
  {
    hide *;
    BlockAtMod(type_, bits, at, |body| + 3, out, out');
    Extend(body, out, flush == Finish, type_, bits, out');
    var body' := WithBlock(body, flush == Finish, type_, bits);
    if flush.SyncFlush? || flush.FullFlush? {
      SyncExtends(body', out');
    }
  }

  /** Opens the output buffer and writes what comes before the type of the block. */
  method StartBlock(w: Writer, zlib: bool, probes: nat, last: bool) returns (ghost h: Bitstring, ghost flg: Byte)
    requires w.Idle() && w.buf.Length == OUT_SIZE
    modifies w, w.buf
    ensures w.Valid() && |w.log| <= 24 && w.end == OUT_SIZE - 16 && w.pos < w.end && ZlibFlags(flg)
    ensures h == (if zlib then ZlibHead(flg) else [])
    ensures w.log == ToBits(old(w.bitBuffer), old(w.bitsIn)) + h + ToBits(FinalBit(last), 1)
  {
    hide ToBits, BitWriter.Holds;
    w.Open(OUT_SIZE - 16);
    Pow2Values();
    var f := HeaderByte(probes);
    flg, h := f, [];
    ghost var waiting := w.log;
    if zlib {
      w.PutBits(0x78, 8);
      w.PutBits(f, 8);
      h := ZlibHead(flg);
      assert waiting + ToBits(0x78, 8) + ToBits(f, 8) == waiting + h;
    } else {
      assert waiting + h == waiting;
    }
    w.PutBits(FinalBit(last), 1);
    w.NotFull();
  }

  /** Writes what comes after the block. */
  method EndBlock(w: Writer, flush: Flush, zlib: bool, adler: nat)
    requires w.Valid() && adler < Adler.WORD
    modifies w`pos, w`bitBuffer, w`bitsIn, w`log, w.buf
    ensures w.Valid() && w.log == old(w.log) + TailBits(flush, |old(w.log)|, zlib, adler)
    ensures flush == NoFlush ==> w.pos == old(w.pos)
    ensures |w.log| <= |old(w.log)| + 50
  {
    hide ToBits, BitWriter.Holds, ZlibTail;
    Pow2Values();
    ghost var log0 := w.log;
    match flush {
      case NoFlush =>
      case Finish =>
        w.Align();
        if zlib {
          PutTail(w, adler);
          ConcatAssoc(log0, ToBits(0, PadBits(|log0|)), ZlibTail(adler));
        }
      case _ =>
        w.PutBits(0, 3);
        w.Align();
        w.PutBits(0, 16);
        w.PutBits(0xFFFF, 16);
        FourMore(log0, ToBits(0, 3), ToBits(0, PadBits(|log0| + 3)), ToBits(0, 16), ToBits(65535, 16));
    }
    TailSize(flush, |log0|, zlib, adler);
    assert log0 + [] == log0;
  }

  lemma TailSize(flush: Flush, at: nat, zlib: bool, adler: nat)
    ensures |TailBits(flush, at, zlib, adler)| <= 50
  {
    hide ToBits, PadBits;
  }

  lemma FourMore(log: Bitstring, a: Bitstring, b: Bitstring, c: Bitstring, d: Bitstring)
    ensures log + a + b + c + d == log + (a + b + c + d)
  {
  }

  /** The end of the tokens, once the flag byte of an empty last group is dropped. */
  lemma EndPlace(ts: TokenBuffer.Tokens, n: nat)
    requires n <= |ts|
    ensures BlockBody.Pos(ts, n) == TokenBuffer.NextPos(ts, n) - if n % 8 == 0 then 1 else 0
  {
    TokenBuffer.FlagBefore(ts, n);
  }

  /** The stream after a flush, from what was written. */
  lemma Assembled(sink: seq<Byte>, waiting: Bitstring, head: Bitstring, body: Bitstring, h: Bitstring, flush: Flush,
      type_: nat, bits: Bitstring, log1: Bitstring, log2: Bitstring, log3: Bitstring, hist: seq<Byte>, base: nat,
      pos: nat, zlib: bool, adler: nat)
    requires ByteBits(sink) + waiting == head + body && (h == [] || (head == [] && body == []))
    requires (|head| == 0 || |head| == 16) && (|h| == 0 || |h| == 16) && base <= pos <= |hist|
    requires log1 == waiting + h + ToBits(FinalBit(flush == Finish), 1)
    requires Sent(log1, log2, type_, bits, hist, base, pos)
    requires log3 == log2 + TailBits(flush, |log2|, zlib, adler) && Sofar(body, hist[..base])
    ensures var body' := WithBlock(body, flush == Finish, type_, bits);
            var tail := TailBits(flush, |body'|, zlib, adler);
            ByteBits(sink) + log3 == (head + h) + body' + tail && Meaning(flush, body', tail, hist[..pos])
  {
    hide ToBits, ByteBits, Sofar, Final, WithBlock, TailBits, FinalBit, BlockAt;
    var body' := WithBlock(body, flush == Finish, type_, bits);
    SamePosition(sink, |waiting|, |head|, |body|, |h| + 3);
    Flushed(body, hist[..base], flush, type_, bits, |log1| + 2, hist[..pos]);
    SamePosition(sink, |waiting|, |head|, |body|, |h| + 3 + |bits|);
    assert |log2| % 8 == |body'| % 8;
    SameTail(flush, |log2|, |body'|, zlib, adler);
    StreamGrows(ByteBits(sink), waiting, head, body, h, flush == Finish, type_, bits,
        TailBits(flush, |body'|, zlib, adler));
    hide SyncBits;
    TailMeaning(flush, |body'|, zlib, adler);
  }

  lemma TailMeaning(flush: Flush, at: nat, zlib: bool, adler: nat)
    ensures flush == NoFlush ==> TailBits(flush, at, zlib, adler) == []
    ensures flush == SyncFlush || flush == FullFlush ==> TailBits(flush, at, zlib, adler) == SyncBits(at)
  {
  }

  /** What the callback gets and what is still waiting. */
  lemma Committed(sink: seq<Byte>, log: Bitstring, stream: Bitstring, bytes: seq<Byte>, bitBuffer: nat, bitsIn: nat)
    requires ByteBits(sink) + log == stream && log == ByteBits(bytes) + ToBits(bitBuffer, bitsIn) && bitsIn < 8
    ensures ByteBits(sink + bytes) + ToBits(bitBuffer, bitsIn) == stream
    ensures |stream| % 8 == bitsIn
    ensures bitsIn == 0 ==> ByteBits(sink + bytes) == stream
  {
    hide ByteBits, ToBits;
    ByteBitsConcat(sink, bytes);
    ConcatAssoc(ByteBits(sink), ByteBits(bytes), ToBits(bitBuffer, bitsIn));
  }

  lemma StreamEnd(flush: Flush, head: Bitstring, body: Bitstring, tail: Bitstring, zlib: bool, adler: nat)
    requires tail == TailBits(flush, |body|, zlib, adler) && flush != NoFlush && |head| % 8 == 0
    ensures |head + body + tail| % 8 == 0
  {
    hide ToBits, ZlibTail, SyncBits, PadBits;
    if flush != Finish {
      SyncShape(body);
    } else if zlib {
      TailLength(adler);
    }
    assert |head + body + tail| == |head| + (|body| + |tail|);
  }

  lemma TailLength(adler: nat)
    ensures |ZlibTail(adler)| == 32
  {
    hide ToBits;
  }

  lemma MeaningSofar(flush: Flush, body: Bitstring, tail: Bitstring, out: seq<Byte>)
    requires Meaning(flush, body, tail, out)
    ensures if flush == Finish then Final(body, out) else Sofar(body + tail, out)
  {
    hide Sofar, Final;
    assert tail == [] ==> body + tail == body;
  }

  lemma TailAdler(at: nat, zlib: bool, a: nat, b: nat)
    requires zlib ==> a == b
    ensures TailBits(Finish, at, zlib, a) == TailBits(Finish, at, zlib, b)
  {
  }

  ghost predicate Meaning(flush: Flush, body: Bitstring, tail: Bitstring, out: seq<Byte>) {
    match flush
    case NoFlush => Sofar(body, out) && tail == []
    case Finish => Final(body, out)
    case _ => Sofar(body + tail, out) && WholeBytes(|body + tail|)
  }

  /** The bits of one flush, in order. */
  method WriteBlock(w: Writer, tables: Tables, window: Dictionary, codeBuf: array<Byte>, end: nat, total: nat,
      dictPos: nat, flags: Flags, first: bool, adler: nat, flush: Flush, ghost base: nat,
      ghost ts: TokenBuffer.Tokens, ghost pos: nat)
    returns (ghost h: Bitstring, ghost g: Byte, ghost type_: nat, ghost bits: Bitstring, ghost log1: Bitstring,
      ghost log2: Bitstring)
    requires w.Idle() && w.buf.Length == OUT_SIZE && tables.Valid() && window.Valid()
    requires Separate(w, tables, window, codeBuf)
    requires w.buf != codeBuf && w.buf != window.dict && w.buf as object != tables.lit.count
    requires w.buf as object != tables.dist.count
    requires Pending(window, codeBuf[..], end, total, dictPos, base, ts, pos)
    requires Counted(tables.lit.count[..], tables.dist.count[..], ts)
    requires base <= pos <= |window.hist| && adler < Adler.WORD
    modifies w, w.buf, tables.lit.Arrays(), tables.dist.sizes, tables.dist.codes, tables.clen.Arrays()
    ensures w.Valid() && window.Valid() && w.pos < w.end && ZlibFlags(g)
    ensures h == (if flags.zlib && first then ZlibHead(g) else [])
    ensures log1 == ToBits(old(w.bitBuffer), old(w.bitsIn)) + h + ToBits(FinalBit(flush == Finish), 1)
    ensures Sent(log1, log2, type_, bits, window.hist, base, pos)
    ensures w.log == log2 + TailBits(flush, |log2|, flags.zlib, adler)
  {
    hide Ring, Separate, Tables.Valid, Pending, Counted, Sent, BitWriter.Holds, TailBits, ZlibHead, ZlibFlags, ToBits;
    h, g := StartBlock(w, flags.zlib && first, flags.probes, flush == Finish);
    log1 := w.log;
    type_, bits := PutBlock(w, tables, window, codeBuf, end, total, dictPos, flags, base, ts, pos);
    log2 := w.log;
    EndBlock(w, flush, flags.zlib, adler);
    w.NotFull();
    assert w.pos < w.end; // MZ_ASSERT(d->m_pOutput_buf < d->m_pOutput_buf_end)
  }

  /** The hash chains are not among the other arrays. */
  ghost predicate Unshared(w: Writer, tables: Tables, window: Dictionary) {
    && w.buf as object != window.next && w.buf as object != window.hash
    && window.next as object !in tables.lit.Arrays() + tables.dist.Arrays() + tables.clen.Arrays()
    && window.hash as object !in tables.lit.Arrays() + tables.dist.Arrays() + tables.clen.Arrays()
  }

  class Compress {
    const flags: Flags
    const capacity: Option<nat>     // of the buffer that takes the output, if it cannot grow
    const tables: Tables
    const parse: Parse
    const w: Writer
    var dictPos: nat                // m_lz_code_buf_dict_pos
    var blockIndex: nat             // m_block_index
    var adler: nat                  // m_adler32
    var wantsToFinish: bool         // m_wants_to_finish
    var finished: bool              // m_finished
    var prev: Status                // m_prev_return_status
    var sink: seq<Byte>             // what the callback has been given
    ghost var body: Bitstring       // the DEFLATE stream so far
    ghost var flg: Byte             // the second byte of the zlib header

    /** The pieces are wired to each other and share nothing else. */
    ghost predicate Shape() {
      && parse.flags == flags && w.buf.Length == OUT_SIZE && tables.Valid()
      && parse.buf.litCount == tables.lit.count && parse.buf.distCount == tables.dist.count
      && parse.buf.codeBuf.Length == TokenBuffer.SIZE
      && parse.buf.litCount.Length == 288 && parse.buf.distCount.Length == 32 &&
         parse.buf.litCount != parse.buf.distCount
      && Separate(w, tables, parse.window, parse.buf.codeBuf)
      && Unshared(w, tables, parse.window) && parse.Apart()
    }

    ghost function Head(): Bitstring
      reads this`blockIndex, this`flg
    {
      if flags.zlib && blockIndex > 0 then ZlibHead(flg) else []
    }

    /** Everything written so far, whether the callback has it or it is still waiting. */
    ghost function Written(): Bitstring
      reads this`sink, w`bitBuffer, w`bitsIn
    {
      ByteBits(sink) + ToBits(w.bitBuffer, w.bitsIn)
    }

    /** The bits written so far are whole blocks that stand for the input up to `parse.base`. */
    ghost predicate Streaming()
      reads this`dictPos, this`blockIndex, this`adler, this`sink, this`body, this`flg, w, parse`base, parse.window`hist
    {
      && w.Idle() && dictPos == parse.base % WORD && adler < Adler.WORD && ZlibFlags(flg)
      && (blockIndex == 0 ==> body == [])
      && Written() == Head() + body
      && parse.base <= |parse.window.hist| && Sofar(body, parse.window.hist[..parse.base])
    }

    ghost predicate Running()
      reads this`dictPos, this`blockIndex, this`adler, this`sink, this`body, this`flg, w, parse.Footprint()
    {
      Shape() && parse.Valid() && Streaming()
    }

    /** The stream is complete, and with it the zlib wrapper if there is one. */
    ghost predicate Ended()
      reads this`blockIndex, this`sink, this`body, this`flg, parse.window`hist
    {
      && blockIndex > 0 && ZlibFlags(flg) && Final(body, parse.window.hist)
      && ByteBits(sink) == Head() + body + TailBits(Finish, |body|, flags.zlib, Adler.Checksum(1, parse.window.hist))
    }

    /** `tdefl_init`, on memory that has been set up. */
    constructor (flags: Flags, capacity: Option<nat>, tables: Tables, parse: Parse, w: Writer)
      requires tables.Valid() && parse.Valid() && parse.flags == flags && parse.window.hist == [] && parse.base == 0
      requires w.Idle() && w.bitsIn == 0 && w.buf.Length == OUT_SIZE
      requires parse.buf.litCount == tables.lit.count && parse.buf.distCount == tables.dist.count
      requires parse.buf.codeBuf.Length == TokenBuffer.SIZE
      requires parse.buf.litCount.Length == 288 && parse.buf.distCount.Length == 32
      requires parse.buf.litCount != parse.buf.distCount
      requires Separate(w, tables, parse.window, parse.buf.codeBuf) && Unshared(w, tables, parse.window)
      ensures Running() && prev == Okay && !wantsToFinish && !finished && adler == 1 && sink == []
      ensures this.flags == flags && this.capacity == capacity && this.tables == tables && this.parse == parse
      ensures this.w == w
    {
      hide Parsed, Saved, Dictionary.Valid, TokenBuffer.Buffer.Valid, Tables.Valid, Separate, Unshared, Sofar;
      this.flags, this.capacity, this.tables, this.parse, this.w := flags, capacity, tables, parse, w;
      dictPos, blockIndex, adler, wantsToFinish, finished, prev, sink, body, flg :=
          0, 0, 1, false, false, Okay, [], [], 1;
      new;
      SofarStart();
      StreamStarts();
      assert parse.window.hist[..0] == [];
    }

    lemma StreamStarts()
      ensures ToBits(0, 0) == [] && ByteBits([]) == [] && ZlibFlags(1)
    {
    }

    /** Writes one block and what belongs around it. */
    method SendBlock(flush: Flush)
      returns (ghost pos: nat, ghost g: Byte, ghost body': Bitstring, ghost tail: Bitstring)
      requires Running() && (flush == NoFlush || parse.window.lookaheadSize == 0)
      modifies w, w.buf, parse.buf`codePos, parse.buf.codeBuf
      modifies tables.lit.Arrays(), tables.dist.sizes, tables.dist.codes, tables.clen.Arrays()
      ensures w.Valid() && parse.window.Valid() && w.pos < w.end <= w.buf.Length
      ensures pos == parse.Pos() == parse.base + parse.buf.totalBytes
      ensures pos <= |parse.window.hist| && ZlibFlags(g) && (blockIndex > 0 ==> g == flg)
      ensures ByteBits(sink) + w.log == (if flags.zlib then ZlibHead(g) else []) + body' + tail
      ensures tail == TailBits(flush, |body'|, flags.zlib, adler)
      ensures Meaning(flush, body', tail, parse.window.hist[..pos])
    {
      hide Parse.Footprint;
      hide TokenBuffer.Buffer.Valid, Parsed, Saved, Dictionary.Valid, Sofar, BlockAt, ToBits, ByteBits, ZlibFlags;
      hide Meaning, TailBits, Sent, Tables.Valid, Tables.Apart;
      ghost var ts, waiting, head, base := parse.buf.tokens, ToBits(w.bitBuffer, w.bitsIn), Head(), parse.base;
      pos := parse.Pos();
      var end := CloseTokens();
      assert pos == parse.base + parse.buf.totalBytes;
      NotArrays();
      ghost var h, type_, bits, log1, log2;
      h, g, type_, bits, log1, log2 := WriteBlock(w, tables, parse.window, parse.buf.codeBuf, end,
          parse.buf.totalBytes, dictPos, flags, blockIndex == 0, adler, flush, base, ts, pos);
      g := if blockIndex == 0 then g else flg;
      body' := WithBlock(body, flush == Finish, type_, bits);
      tail := TailBits(flush, |body'|, flags.zlib, adler);
      Assembled(sink, waiting, head, body, h, flush, type_, bits, log1, log2, w.log, parse.window.hist, base, pos,
          flags.zlib, adler);
      assert head + h == if flags.zlib then ZlibHead(g) else [];
    }

    /** Closes the token buffer. */
    lemma NotArrays()
      ensures forall o: object :: o in tables.lit.Arrays() + tables.dist.Arrays() + tables.clen.Arrays() ==>
                o != parse && o != parse.window && o != parse.buf && o != this
    {
    }

    method CloseTokens() returns (end: nat)
      requires Running()
      modifies parse.buf`codePos, parse.buf.codeBuf
      ensures parse.window.Valid()
      ensures Pending(parse.window, parse.buf.codeBuf[..], end, parse.buf.totalBytes, dictPos, parse.base,
              parse.buf.tokens, parse.Pos())
      ensures Counted(tables.lit.count[..], tables.dist.count[..], parse.buf.tokens)
      ensures parse.Pos() == parse.base + parse.buf.totalBytes && parse.base <= parse.Pos() <= |parse.window.hist|
    {
      hide TokenBuffer.Buffer.Valid, Parsed, Saved, Ring, Sofar, ToBits, ByteBits, ZlibFlags, Separate, Tables.Apart;
      ghost var ts := parse.buf.tokens;
      end := parse.buf.Close();
      EndPlace(ts, |ts|);
      assert Pending(parse.window, parse.buf.codeBuf[..], end, parse.buf.totalBytes, dictPos, parse.base, ts,
          parse.Pos());
      PendingSmall(parse.window, parse.buf.codeBuf[..], end, parse.buf.totalBytes, dictPos, parse.base, ts,
          parse.Pos());
    }

    /** The callback: a buffer that may be limited in size, as `tdefl_output_buffer_putter`. */
    method PutBuf(n: nat) returns (ok: bool)
      requires n <= w.buf.Length
      modifies this`sink
      ensures ok ==> sink == old(sink) + w.buf[..n]
      ensures ok <==> n == 0 || capacity.None? || |old(sink)| + n <= capacity.value
    {
      if n != 0 && capacity.Some? && |sink| + n > capacity.value {
        return false;
      }
      sink := sink + w.buf[..n];
      return true;
    }

    /** `tdefl_flush_block` */
    method FlushBlock(flush: Flush) returns (status: Status)
      requires Running() && (flush == NoFlush || parse.window.lookaheadSize == 0)
      requires flush == Finish && flags.zlib ==> adler == Adler.Checksum(1, parse.window.hist)
      modifies this`dictPos, this`blockIndex, this`prev, this`sink, this`body, this`flg, parse`base, parse.buf
      modifies parse.buf.codeBuf
      modifies w, w.buf, tables.lit.Arrays(), tables.dist.Arrays(), tables.clen.Arrays()
      ensures status in {Okay, PutBufFailed} && (if status == Okay then prev == old(prev) else prev == status)
      ensures status == Okay && flush != Finish ==>
              Running() && parse.buf.codePos == 1 && parse.base == old(parse.Pos())
      ensures status == Okay && (flush == SyncFlush || flush == FullFlush) ==> CaughtUp()
      ensures status == Okay && flush == Finish ==> Ended()
      ensures status == PutBufFailed ==> capacity.Some?
    {
      hide TokenBuffer.Buffer.Valid, Parsed, Saved, Ring, Sofar, Final, ToBits, ByteBits, ZlibHead, ZlibFlags, TailBits;
      hide Tables.Valid, Separate, Unshared, Writer.Valid, Dictionary.Valid, Head, Written, Meaning, Running;
      hide Streaming, Parse.Valid;
      status := Okay;
      RunningParts();
      var ok := SendAndDeliver(flush);
      if !ok {
        prev, status := PutBufFailed, PutBufFailed;
      }
    }

    /** Writes the block and hands it over. */
    method SendAndDeliver(flush: Flush) returns (ok: bool)
      requires Running() && (flush == NoFlush || parse.window.lookaheadSize == 0)
      requires flush == Finish && flags.zlib ==> adler == Adler.Checksum(1, parse.window.hist)
      modifies this`dictPos, this`blockIndex, this`sink, this`body, this`flg, parse`base, parse.buf, parse.buf.codeBuf
      modifies w, w.buf, tables.lit.Arrays(), tables.dist.Arrays(), tables.clen.Arrays()
      ensures ok && flush != Finish ==> Running() && parse.buf.codePos == 1 && parse.base == old(parse.Pos())
      ensures ok && (flush == SyncFlush || flush == FullFlush) ==> CaughtUp()
      ensures ok && flush == Finish ==> Ended()
      ensures !ok ==> capacity.Some?
    {
      hide TokenBuffer.Buffer.Valid, Parsed, Saved, Ring, Sofar, Final, ToBits, ByteBits, ZlibHead, ZlibFlags, TailBits;
      hide Tables.Valid, Separate, Unshared, Writer.Valid, Dictionary.Valid, Head, Written, Meaning, Running;
      hide Streaming, Parse.Valid;
      hide Ended;
      RunningParts();
      if flush != NoFlush {
        parse.NothingSaved();
      }
      ghost var pos, g, body', tail := SendBlock(flush);
      ok := Deliver(flush, pos, g, body', tail);
    }

    lemma RunningParts()
      requires Running()
      ensures Shape() && parse.window.Valid() && dictPos == parse.base % WORD && adler < Adler.WORD
      ensures parse.savedLen == 0 || 3 <= parse.savedLen < 128
      ensures Saved(parse.window.hist, |parse.window.hist| - parse.window.lookaheadSize, parse.savedLit,
              parse.savedDist, parse.savedLen)
      ensures parse.Valid() && this !in parse.Footprint()
    {
      hide Dictionary.Valid, TokenBuffer.Buffer.Valid, Parsed, Saved, Sofar, Tables.Valid, Separate, Unshared;
    }

    /** Hands the output over and gets ready for the next block. */
    method Deliver(flush: Flush, ghost pos: nat, ghost g: Byte, ghost body': Bitstring, ghost tail: Bitstring)
      returns (ok: bool)
      requires Shape() && parse.window.Valid() && dictPos == parse.base % WORD && adler < Adler.WORD
      requires pos == parse.Pos() == parse.base + parse.buf.totalBytes && pos <= |parse.window.hist|
      requires parse.savedLen == 0 || 3 <= parse.savedLen < 128
      requires Saved(parse.window.hist, |parse.window.hist| - parse.window.lookaheadSize, parse.savedLit,
               parse.savedDist, parse.savedLen)
      requires w.Valid() && w.pos < w.end <= w.buf.Length && ZlibFlags(g)
      requires ByteBits(sink) + w.log == (if flags.zlib then ZlibHead(g) else []) + body' + tail
      requires tail == TailBits(flush, |body'|, flags.zlib, adler)
      requires Meaning(flush, body', tail, parse.window.hist[..pos])
      requires flush == Finish ==>
               pos == |parse.window.hist| && (flags.zlib ==> adler == Adler.Checksum(1, parse.window.hist))
      modifies this`dictPos, this`blockIndex, this`sink, this`body, this`flg, parse`base, parse.buf
      modifies parse.buf.litCount, parse.buf.distCount
      ensures ok && flush != Finish ==> Running() && parse.buf.codePos == 1 && parse.base == pos
      ensures ok && (flush == SyncFlush || flush == FullFlush) ==> w.bitsIn == 0
      ensures ok && flush == Finish ==> Ended()
      ensures !ok ==> capacity.Some?
    {
      hide Parsed, TokenBuffer.Buffer.Valid, Shape, Dictionary.Valid, Saved, Sofar, Final, ToBits, ByteBits, ZlibHead;
      hide ZlibFlags, TailBits, BitWriter.Holds, Meaning, Adler.Checksum;
      ghost var head, bytes, hist := if flags.zlib then ZlibHead(g) else [], w.buf[..w.pos], parse.window.hist;
      MeaningSofar(flush, body', tail, hist[..pos]);
      w.Complete();
      Committed(sink, w.log, head + body' + tail, bytes, w.bitBuffer, w.bitsIn);
      if flush != NoFlush {
        StreamEnd(flush, head, body', tail, flags.zlib, adler);
      }
      if flush == Finish {
        assert hist[..pos] == hist;
        TailAdler(|body'|, flags.zlib, adler, Adler.Checksum(1, hist));
      } else {
        ConcatAssoc(head, body', tail);
      }
      NextBlock(pos);
      body, flg := if flush == Finish then body' else body' + tail, g;
      ok := PutBuf(w.pos);
    }

    /** Flushes when the token buffer is nearly full or has stopped paying off. */
    method MaybeFlush() returns (status: Status)
      requires Running()
      modifies this`dictPos, this`blockIndex, this`prev, this`sink, this`body, this`flg, parse`base, parse.buf
      modifies parse.buf.codeBuf
      modifies w, w.buf, tables.lit.Arrays(), tables.dist.Arrays(), tables.clen.Arrays()
      ensures status in {Okay, PutBufFailed} && (if status == Okay then prev == old(prev) else prev == status)
      ensures status == Okay ==> Running() && parse.buf.codePos + 8 <= TokenBuffer.SIZE
      ensures status == PutBufFailed ==> capacity.Some?
      ensures unchanged(parse.window)
    {
      hide Shape, Parse.Valid, Streaming;
      status := Okay;
      if parse.buf.codePos > TokenBuffer.SIZE - 8 ||
         (parse.buf.totalBytes > 31 * 1024 && (parse.buf.codePos * 115 / 128 >= parse.buf.totalBytes ||
             flags.forceRaw)) {
        status := FlushBlock(NoFlush);
      }
    }

    /** `tdefl_compress_normal` */
    method CompressNormal(src: seq<Byte>, flush: Flush) returns (status: Status)
      requires Running() && parse.buf.codePos + 8 <= TokenBuffer.SIZE
      modifies this`dictPos, this`blockIndex, this`prev, this`sink, this`body, this`flg
      modifies parse, parse.window, parse.window.dict, parse.window.next, parse.window.hash
      modifies parse.buf, parse.buf.codeBuf, parse.buf.litCount, parse.buf.distCount
      modifies w, w.buf, tables.lit.Arrays(), tables.dist.Arrays(), tables.clen.Arrays()
      ensures status in {Okay, PutBufFailed} && (if status == Okay then prev == old(prev) else prev == status)
      ensures status == Okay ==> Running() && parse.buf.codePos + 8 <= TokenBuffer.SIZE
      ensures status == Okay ==>
              parse.window.hist == old(parse.window.hist) + src &&
                  (flush != NoFlush ==> parse.window.lookaheadSize == 0)
      ensures status == PutBufFailed ==> capacity.Some?
    {
      hide Running, HuffmanTable.HuffTable.Arrays;
      status := Okay;
      var at: nat := 0;
      while at < |src| || (flush != NoFlush && parse.window.lookaheadSize > 0)
        invariant at <= |src| && Running() && parse.buf.codePos + 8 <= TokenBuffer.SIZE && prev == old(prev)
        invariant status == Okay && parse.window.hist == old(parse.window.hist) + src[..at]
        decreases |src| - at + parse.window.lookaheadSize
      {
        ghost var from := at;
        at := FillWindow(src, at);
        assert src[..at] == src[..from] + src[from..at];
        if flush == NoFlush && parse.window.lookaheadSize < MAX_MATCH {
          break;
        }
        Parse1();
        status := MaybeFlush();
        if status != Okay {
          return;
        }
      }
      assert src[..at] == src;
    }

    /** Reads on; the stream is not concerned. */
    method FillWindow(src: seq<Byte>, at: nat) returns (at': nat)
      requires Running() && at <= |src|
      modifies parse.window, parse.window.dict, parse.window.next, parse.window.hash
      ensures Running() && at <= at' <= |src| && parse.window.hist == old(parse.window.hist) + src[at..at']
      ensures parse.window.lookaheadSize == old(parse.window.lookaheadSize) + (at' - at)
      ensures at' == |src| || parse.window.lookaheadSize == MAX_MATCH
    {
      hide Sofar, Parsed, Saved, TokenBuffer.Buffer.Valid, Ring, Separate, Tables.Valid, Tables.Apart, ToBits;
      hide ByteBits, ZlibFlags;
      at' := parse.Fill(src, at);
      assert parse.window.hist[..parse.base] == old(parse.window.hist)[..parse.base];
    }

    method Parse1()
      requires Running() && parse.window.lookaheadSize > 0 && parse.buf.codePos + 8 <= TokenBuffer.SIZE
      modifies parse, parse.window, parse.buf, parse.buf.codeBuf, parse.buf.litCount, parse.buf.distCount
      ensures Running() && parse.window.hist == old(parse.window.hist)
      ensures parse.window.lookaheadSize < old(parse.window.lookaheadSize)
    {
      hide Sofar, Parsed, Saved, TokenBuffer.Buffer.Valid, Ring, Separate, Tables.Valid, Tables.Apart, ToBits;
      hide ByteBits, ZlibFlags;
      parse.Step();
    }

    /** Between calls. */
    ghost predicate Ready()
      reads this`dictPos, this`blockIndex, this`adler, this`sink, this`body, this`flg, this`finished, w,
          parse.Footprint()
    {
      && Running() && parse.buf.codePos + 8 <= TokenBuffer.SIZE && !finished
      && (flags.zlib || flags.adler ==> adler == Adler.Checksum(1, parse.window.hist))
    }

    /** Everything read has been sent, and the output ends with a whole byte. */
    ghost predicate CaughtUp()
      reads w`bitsIn, parse`base, parse.window`hist
    {
      parse.base == |parse.window.hist| && w.bitsIn == 0
    }

    /** A full flush empties the dictionary. */
    method ForgetWindow()
      requires Running() && parse.buf.codePos + 8 <= TokenBuffer.SIZE
      modifies parse.window`dictSize, parse.window.next, parse.window.hash
      ensures Running() && unchanged(parse) && parse.buf.codePos + 8 <= TokenBuffer.SIZE
    {
      hide Sofar, Parsed, Saved, TokenBuffer.Buffer.Valid, Ring, Separate, Tables.Valid, Tables.Apart, ToBits;
      hide ByteBits, ZlibFlags;
      parse.window.Forget();
    }

    /** `if (d->m_flags & (TDEFL_WRITE_ZLIB_HEADER | TDEFL_COMPUTE_ADLER32)) ...` */
    method UpdateAdler(src: seq<Byte>, ghost before: seq<Byte>)
      requires Running() && parse.buf.codePos + 8 <= TokenBuffer.SIZE && parse.window.hist == before + src
      requires (flags.zlib || flags.adler ==> adler == Adler.Checksum(1, before)) && !finished
      modifies this`adler
      ensures Ready()
    {
      hide Shape, Parsed, Saved, Dictionary.Valid, TokenBuffer.Buffer.Valid, Adler.Checksum, Sofar, ToBits;
      hide ByteBits, ZlibFlags;
      if flags.zlib || flags.adler {
        Adler.ChecksumConcat(1, before, src);
        adler := Adler.Adler32(adler, src);
      }
    }

    /** `tdefl_compress` with all of the input, and the callback for the output. */
    method CompressBuffer(src: seq<Byte>, flush: Flush) returns (status: Status)
      requires prev == Okay ==> Ready()
      modifies this`dictPos, this`blockIndex, this`prev, this`sink, this`body, this`flg, this`adler
      modifies this`wantsToFinish, this`finished
      modifies parse, parse.window, parse.window.dict, parse.window.next, parse.window.hash
      modifies parse.buf, parse.buf.codeBuf, parse.buf.litCount, parse.buf.distCount
      modifies w, w.buf, tables.lit.Arrays(), tables.dist.Arrays(), tables.clen.Arrays()
      ensures status == prev && (status == BadParam <==> old(prev) != Okay || (old(wantsToFinish) && flush != Finish))
      ensures status == Okay ==> flush != Finish && Ready() && parse.window.hist == old(parse.window.hist) + src
      ensures status == Okay && flush != NoFlush ==> CaughtUp()
      ensures status == Done ==> flush == Finish && Ended() && parse.window.hist == old(parse.window.hist) + src
      ensures status == PutBufFailed ==> capacity.Some?
      ensures status != BadParam ==> wantsToFinish == (old(wantsToFinish) || flush == Finish)
    {
      hide CaughtUp, Running, Ended, Ready;
      assert this !in parse.Footprint();
      if prev != Okay || (wantsToFinish && flush != Finish) {
        prev, status := BadParam, BadParam;
        return;
      }
      wantsToFinish := wantsToFinish || flush == Finish;
      status := TakeCall(src, flush);
    }

    /** A call that is in order. */
    method TakeCall(src: seq<Byte>, flush: Flush) returns (status: Status)
      requires Ready() && prev == Okay
      modifies this`dictPos, this`blockIndex, this`prev, this`sink, this`body, this`flg, this`adler, this`finished
      modifies parse, parse.window, parse.window.dict, parse.window.next, parse.window.hash
      modifies parse.buf, parse.buf.codeBuf, parse.buf.litCount, parse.buf.distCount
      modifies w, w.buf, tables.lit.Arrays(), tables.dist.Arrays(), tables.clen.Arrays()
      ensures status == prev && status in {Okay, Done, PutBufFailed}
      ensures status == Okay ==> flush != Finish && Ready() && (flush != NoFlush ==> CaughtUp())
      ensures status == Done ==> flush == Finish && Ended()
      ensures status in {Okay, Done} ==> parse.window.hist == old(parse.window.hist) + src
      ensures status == PutBufFailed ==> capacity.Some?
    {
      hide CaughtUp, Running, Ended, Ready;
      status := TakeInput(src, flush);
      if status == Okay {
        status := EndCall(flush);
      }
    }

    /** All of the input goes through the parser and into the checksum. */
    method TakeInput(src: seq<Byte>, flush: Flush) returns (status: Status)
      requires Ready()
      modifies this`dictPos, this`blockIndex, this`prev, this`sink, this`body, this`flg, this`adler
      modifies parse, parse.window, parse.window.dict, parse.window.next, parse.window.hash
      modifies parse.buf, parse.buf.codeBuf, parse.buf.litCount, parse.buf.distCount
      modifies w, w.buf, tables.lit.Arrays(), tables.dist.Arrays(), tables.clen.Arrays()
      ensures status in {Okay, PutBufFailed} && (if status == Okay then prev == old(prev) else prev == status)
      ensures status == Okay ==> Ready() && parse.window.hist == old(parse.window.hist) + src
      ensures status == Okay && flush != NoFlush ==> parse.window.lookaheadSize == 0
      ensures status == PutBufFailed ==> capacity.Some?
    {
      hide CaughtUp, Running, Ended;
      assert this !in parse.Footprint();
      status := CompressNormal(src, flush);
      if status == Okay {
        UpdateAdler(src, old(parse.window.hist));
      }
    }

    /** Flushes, if that is asked for, and tells how things stand. */
    method EndCall(flush: Flush) returns (status: Status)
      requires Ready() && prev == Okay && (flush != NoFlush ==> parse.window.lookaheadSize == 0)
      modifies this`dictPos, this`blockIndex, this`prev, this`sink, this`body, this`flg, this`finished
      modifies parse`base, parse.window`dictSize, parse.window.next, parse.window.hash, parse.buf, parse.buf.codeBuf
      modifies w, w.buf, tables.lit.Arrays(), tables.dist.Arrays(), tables.clen.Arrays()
      ensures status == prev && status in {Okay, Done, PutBufFailed}
      ensures status == Okay ==> flush != Finish && Ready() && (flush != NoFlush ==> CaughtUp())
      ensures status == Done ==> flush == Finish && Ended()
      ensures status == PutBufFailed ==> capacity.Some?
    {
      hide Running, Ended, Ready, CaughtUp;
      ReadyRuns();
      status := Okay;
      if flush != NoFlush && parse.window.lookaheadSize == 0 {
        status := FlushRest(flush);
        if status != Okay {
          return;
        }
      }
      prev := if finished then Done else Okay;
      status := prev;
    }

    /** The flush that the caller asked for. */
    lemma ReadyRuns()
      requires Ready()
      ensures Running() && !finished && this !in parse.Footprint()
      ensures flags.zlib || flags.adler ==> adler == Adler.Checksum(1, parse.window.hist)
    {
      hide Running;
    }

    lemma RunsReady()
      requires Running() && parse.buf.codePos + 8 <= TokenBuffer.SIZE && !finished
      requires flags.zlib || flags.adler ==> adler == Adler.Checksum(1, parse.window.hist)
      ensures Ready()
    {
      hide Running;
    }

    method FlushRest(flush: Flush) returns (status: Status)
      requires Ready() && flush != NoFlush && parse.window.lookaheadSize == 0
      modifies this`dictPos, this`blockIndex, this`prev, this`sink, this`body, this`flg, this`finished
      modifies parse`base, parse.window`dictSize, parse.window.next, parse.window.hash, parse.buf, parse.buf.codeBuf
      modifies w, w.buf, tables.lit.Arrays(), tables.dist.Arrays(), tables.clen.Arrays()
      ensures status in {Okay, PutBufFailed} && (if status == Okay then prev == old(prev) else prev == status)
      ensures status == Okay ==> finished == (flush == Finish) && if finished then Ended() else Ready() && CaughtUp()
      ensures status == PutBufFailed ==> capacity.Some?
    {
      hide Running, Ended, Ready, CaughtUp;
      ReadyRuns();
      status := FlushBlock(flush);
      if status == Okay {
        AfterFlush(flush);
      }
    }

    /** What follows a flushed block in `tdefl_compress`. */
    method AfterFlush(flush: Flush)
      requires flush == Finish ==> Ended()
      requires flush != Finish ==> Running() && parse.buf.codePos + 8 <= TokenBuffer.SIZE && !finished && CaughtUp()
      requires flags.zlib || flags.adler ==> adler == Adler.Checksum(1, parse.window.hist)
      modifies this`finished, parse.window`dictSize, parse.window.next, parse.window.hash
      ensures finished == (flush == Finish) && if finished then Ended() else Ready() && CaughtUp()
    {
      hide Running, Ended, Ready, CaughtUp;
      finished := flush == Finish;
      if flush == FullFlush {
        ForgetWindow();
      }
      if flush != Finish {
        RunsReady();
      }
    }

    /** Empties the token buffer for the next block. */
    method NextBlock(ghost pos: nat)
      requires Shape() && parse.window.Valid() && dictPos == parse.base % WORD
      requires pos == parse.base + parse.buf.totalBytes <= |parse.window.hist|
      requires pos == parse.Pos() && (parse.savedLen == 0 || 3 <= parse.savedLen < 128)
      requires Saved(parse.window.hist, |parse.window.hist| - parse.window.lookaheadSize, parse.savedLit,
               parse.savedDist, parse.savedLen)
      modifies this`dictPos, this`blockIndex, parse`base, parse.buf, parse.buf.litCount, parse.buf.distCount
      ensures parse.Valid() && parse.buf.codePos == 1 && parse.base == pos && dictPos == pos % WORD
      ensures blockIndex == old(blockIndex) + 1
    {
      hide TokenBuffer.Buffer.Valid, Parsed, Saved, Ring, Tables.Valid, Separate, Unshared;
      dictPos, blockIndex := (dictPos + parse.buf.totalBytes) % WORD, blockIndex + 1;
      ModAdd(old(parse.base), parse.buf.totalBytes);
      parse.buf.Reset();
      parse.base := pos;
      ParsedStart(parse.window.hist, pos);
    }
  }

  lemma ModAdd(a: nat, b: nat)
    ensures (a % WORD + b) % WORD == (a + b) % WORD
  {
  }
}
