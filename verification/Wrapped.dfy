/**
 What the compressor's output means as bytes: a raw DEFLATE stream, or one in the zlib format
 (RFC 1950), and that decoding it gives back the input.
 */
module Wrapped {
  import opened Bits
  import opened Compressor
  import opened Deflate
  import opened Parser
  import opened Stream
  import opened Wrappers
  import Adler
  import BitWriter
  import BlockFlush
  import BlockWriter
  import Tinfl
  import TokenBuffer
  import Window

  /** Decoding a byte string as a raw DEFLATE stream. */
  ghost function RawDecode(bytes: seq<Byte>): Option<seq<Byte>> {
    match Inflate(ByteBits(bytes), [])
    case None => None
    case Some((out, rest)) => Some(out)
  }

  /** The two header bytes: method 8, a window of at most 32 KB, the check, no dictionary. */
  predicate ZlibHeaderOk(cmf: Byte, flg: Byte) {
    cmf % 16 == 8 && cmf / 16 <= 7 && (256 * cmf + flg) % 31 == 0 && (flg / 32) % 2 == 0
  }

  /** Decoding a byte string in the zlib format: header, DEFLATE stream, checksum. */
  ghost function ZlibDecode(bytes: seq<Byte>): Option<seq<Byte>> {
    if |bytes| < 2 || !ZlibHeaderOk(bytes[0], bytes[1]) then None else
    match Inflate(ByteBits(bytes[2..]), [])
    case None => None
    case Some((out, rest)) => if ZlibTail(Adler.Checksum(1, out)) <= Tinfl.FromByte(rest) then Some(out) else None
  }

  ghost function Decode(zlib: bool, bytes: seq<Byte>): Option<seq<Byte>> {
    if zlib then ZlibDecode(bytes) else RawDecode(bytes)
  }

  lemma FirstByte(bytes: seq<Byte>, c: Byte, rest: Bitstring)
    requires ByteBits(bytes) == ToBits(c, 8) + rest
    ensures bytes != [] && bytes[0] == c && ByteBits(bytes[1..]) == rest
  {
    hide ToBits, FromBits;
    var b := ByteBits(bytes);
    assert ToBits(bytes[0], 8) == b[..8] == ToBits(c, 8);
    assert ByteBits(bytes[1..]) == b[8..] == rest;
    Pow2Values();
    FromBitsToBits(bytes[0], 8);
    FromBitsToBits(c, 8);
  }

  lemma HeaderBytes(bytes: seq<Byte>, flg: Byte, rest: Bitstring)
    requires ByteBits(bytes) == ZlibHead(flg) + rest && ZlibFlags(flg)
    ensures |bytes| >= 2 && ZlibHeaderOk(bytes[0], bytes[1]) && ByteBits(bytes[2..]) == rest
  {
    hide ToBits, ByteBits;
    ConcatAssoc(ToBits(0x78, 8), ToBits(flg, 8), rest);
    FirstByte(bytes, 0x78, ToBits(flg, 8) + rest);
    FirstByte(bytes[1..], flg, rest);
    assert bytes[1..][1..] == bytes[2..];
  }

  lemma RawEnds(bytes: seq<Byte>, body: Bitstring, out: seq<Byte>)
    requires Final(body, out) && ByteBits(bytes) == [] + body + (ToBits(0, PadBits(|body|)) + [])
    ensures RawDecode(bytes) == Some(out)
  {
    hide ToBits, PadBits, ByteBits, Inflate;
    var pad := ToBits(0, PadBits(|body|));
    assert [] + body + (pad + []) == body + pad;
    assert WholeBytes(|body| + |ToBits(0, PadBits(|body|))|);
  }

  lemma TailFound(body: nat, pad: Bitstring, tail: Bitstring)
    requires |pad| == PadBits(body) && |tail| == 32 && (body + |pad| + 32) % 8 == 0
    ensures Tinfl.FromByte(pad + tail) == tail
  {
    assert |pad + tail| % 8 == |pad|;
  }

  lemma ZlibEnds(bytes: seq<Byte>, flg: Byte, body: Bitstring, out: seq<Byte>)
    requires Final(body, out) && ZlibFlags(flg)
    requires ByteBits(bytes) == ZlibHead(flg) + body + (ToBits(0, PadBits(|body|)) + ZlibTail(Adler.Checksum(1, out)))
    ensures ZlibDecode(bytes) == Some(out)
  {
    hide ToBits, PadBits, ByteBits, ZlibHead, ZlibFlags, ZlibHeaderOk, Adler.Checksum, Inflate, ZlibTail;
    hide Tinfl.FromByte;
    TailLength(Adler.Checksum(1, out));
    var pad, tail := ToBits(0, PadBits(|body|)), ZlibTail(Adler.Checksum(1, out));
    ConcatAssoc(ZlibHead(flg), body, pad + tail);
    HeaderBytes(bytes, flg, body + (pad + tail));
    assert WholeBytes(|body| + |pad + tail|);
    TailFound(|body|, pad, tail);
  }

  /** A finished stream decodes to the input. */
  lemma EndedDecodes(c: Compress)
    requires c.Ended()
    ensures Decode(c.flags.zlib, c.sink) == Some(c.parse.window.hist)
  {
    var hist := c.parse.window.hist;
    hide ToBits, PadBits, ByteBits, ZlibHead, ZlibTail, ZlibFlags, Final, Adler.Checksum, RawDecode, ZlibDecode;
    if c.flags.zlib {
      ZlibEnds(c.sink, c.flg, c.body, hist);
    } else {
      RawEnds(c.sink, c.body, hist);
    }
  }

  /** After a sync or full flush: whatever follows continues from all of the input so far. */
  lemma CaughtUpDecodes(c: Compress, more: seq<Byte>)
    requires c.Ready() && c.CaughtUp() && !c.flags.zlib
    ensures Inflate(ByteBits(c.sink + more), []) == Inflate(ByteBits(more), c.parse.window.hist)
  {
    hide Inflate, Parse.Valid, Compress.Shape, ToBits, ByteBits, Sofar;
    var hist := c.parse.window.hist;
    assert hist[..c.parse.base] == hist;
    assert ByteBits(c.sink) + ToBits(c.w.bitBuffer, 0) == [] + c.body;
    SofarDecodes(c.sink, c.body, hist, more);
  }

  lemma ManyBytes(k: nat)
    ensures WholeBytes(8 * k)
  {
  }

  lemma SofarDecodes(sink: seq<Byte>, body: Bitstring, out: seq<Byte>, more: seq<Byte>)
    requires Sofar(body, out) && ByteBits(sink) + [] == [] + body
    ensures Inflate(ByteBits(sink + more), []) == Inflate(ByteBits(more), out)
  {
    hide Inflate, ByteBits, WholeBytes;
    ByteBitsConcat(sink, more);
    ManyBytes(|sink| + |more|);
    assert ByteBits(sink) + [] == ByteBits(sink) && [] + body == body;
    assert WholeBytes(|body| + |ByteBits(more)|);
  }

  // ---------- compressing a whole buffer ----------

  method NewCompressor(flags: Flags, capacity: Option<nat>) returns (c: Compress)
    ensures fresh(c) && fresh(c.w) && fresh(c.w.buf)
    ensures fresh(c.parse) && fresh(c.parse.window) && fresh(c.parse.window.dict)
    ensures fresh(c.parse.window.next) && fresh(c.parse.window.hash)
    ensures fresh(c.parse.buf) && fresh(c.parse.buf.codeBuf) && fresh(c.parse.buf.litCount)
    ensures fresh(c.parse.buf.distCount)
    ensures fresh(c.tables.lit.Arrays()) && fresh(c.tables.dist.Arrays()) && fresh(c.tables.clen.Arrays())
    ensures c.Ready() && c.prev == Okay && !c.wantsToFinish
    ensures c.parse.window.hist == [] && c.flags == flags && c.capacity == capacity
  {
    hide Parsed, Saved, Window.Ring, TokenBuffer.Holds, TokenBuffer.Tally, Sofar, Compress.Streaming;
    var tables := new BlockWriter.Tables();
    var w := new BitWriter.Writer(BlockFlush.OUT_SIZE);
    var parse := new Parse(flags, tables.lit.count, tables.dist.count);
    c := new Compress(flags, capacity, tables, parse, w);
  }

  /** `tdefl_compress_mem_to_output`: it produces all of the output, if that has room, and it decodes to the input. */
  method CompressMem(src: seq<Byte>, flags: Flags, capacity: Option<nat>) returns (status: Status, out: seq<Byte>)
    ensures status in {Done, PutBufFailed}
    ensures status == Done ==> Decode(flags.zlib, out) == Some(src)
    ensures status == PutBufFailed ==> capacity.Some?
  {
    hide Compress.Ready, Compress.Ended, Decode;
    var c := NewCompressor(flags, capacity);
    assert [] + src == src;
    status := c.CompressBuffer(src, Finish);
    out := c.sink;
    if status == Done {
      EndedDecodes(c);
    }
  }
}
