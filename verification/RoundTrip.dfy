/**
 The compressor and the decompressor together (external/miniz.c): whatever `tdefl_compress` has
 finished, `tinfl_decompress` turns back into its input.
 */
module RoundTrip {
  import opened Bits
  import opened Decompression
  import opened Deflate
  import opened RfcIncluded
  import opened Tinfl
  import opened Wrappers
  import Adler
  import Compressor
  import Inflator
  import Parser
  import TokenCode
  import Wrapped

  lemma TrailerStep(i: nat, adler: nat, c: Byte, q: Bitstring, h: Bytes, clean: bool)
    requires i < 4
    ensures TTrailer(i, adler, ToBits(c, 8) + q, h, clean) ==
            TTrailer(i + 1, (256 * adler + c) % 0x1_0000_0000, q, h, clean)
  {
    hide ToBits, ReadBits;
    TokenCode.ByteBack(c, q);
  }

  /** The four bytes at the end are read as the number they were written from. */
  lemma TrailerRead(adler: nat, tail: Bitstring, h: Bytes, clean: bool)
    requires adler < Adler.WORD && Compressor.ZlibTail(adler) <= tail
    ensures TTrailer(0, 1, tail, h, clean) == Some(Final(h, adler, tail[32..], clean))
  {
    hide ToBits, TTrailer;
    var q := tail[32..];
    var a, b, c, d := FourBytes(adler);
    assert tail == ToBits(a, 8) + (ToBits(b, 8) + (ToBits(c, 8) + (ToBits(d, 8) + q)));
    FourSteps(a, b, c, d, q, h, clean);
  }

  lemma FourBytes(adler: nat) returns (a: Byte, b: Byte, c: Byte, d: Byte)
    requires adler < Adler.WORD
    ensures a == adler / 0x1000000 % 256 && b == adler / 0x10000 % 256 && c == adler / 0x100 % 256 && d == adler % 256
    ensures adler == 0x1000000 * a + 0x10000 * b + 0x100 * c + d
  {
    a, b, c, d := adler / 0x1000000 % 256, adler / 0x10000 % 256, adler / 0x100 % 256, adler % 256;
    var x, y := adler / 0x100, adler / 0x10000;
    assert x / 0x100 == y && y / 0x100 == adler / 0x1000000;
    assert adler == 0x100 * x + d && x == 0x100 * y + c && y == 0x100 * a + b;
  }

  lemma FourSteps(a: Byte, b: Byte, c: Byte, d: Byte, q: Bitstring, h: Bytes, clean: bool)
    ensures TTrailer(0, 1, ToBits(a, 8) + (ToBits(b, 8) + (ToBits(c, 8) + (ToBits(d, 8) + q))), h, clean)
            == Some(Final(h, 0x1000000 * a + 0x10000 * b + 0x100 * c + d, q, clean))
  {
    hide ToBits, TTrailer;
    TrailerStep(0, 1, a, ToBits(b, 8) + (ToBits(c, 8) + (ToBits(d, 8) + q)), h, clean);
    TrailerStep(1, 256 + a, b, ToBits(c, 8) + (ToBits(d, 8) + q), h, clean);
    TrailerStep(2, 0x10000 + 0x100 * a + b, c, ToBits(d, 8) + q, h, clean);
    TrailerStep(3, 0x1000000 + 0x10000 * a + 0x100 * b + c, d, q, h, clean);
    TrailerOver(0x1000000 * a + 0x10000 * b + 0x100 * c + d, q, h, clean);
  }

  lemma TrailerOver(adler: nat, q: Bitstring, h: Bytes, clean: bool)
    requires adler < Adler.WORD
    ensures TTrailer(4, (0x1_0000_0000 + adler) % 0x1_0000_0000, q, h, clean) == Some(Final(h, adler, q, clean))
  {
  }

  lemma HeadRead(m: Mode, bytes: Bytes, p: Bytes)
    requires m.zlib && |bytes| >= 2 && Wrapped.ZlibHeaderOk(bytes[0], bytes[1]) && Before(m.reach, p)
    ensures TStart(m, ByteBits(bytes), p) == TBlocks(m, ByteBits(bytes[2..]), p, true)
  {
    hide ToBits, ReadBits, TBlocks, ByteBits;
    ByteBitsHead(bytes);
    ByteBitsHead(bytes[1..]);
    assert bytes[1..][1..] == bytes[2..];
    TokenCode.ByteBack(bytes[0], ByteBits(bytes[1..]));
    TokenCode.ByteBack(bytes[1], ByteBits(bytes[2..]));
    Pow2Monotone(8 + bytes[0] / 16, 15);
    Pow2Values();
  }

  /** A valid stream, raw or in the zlib format, means its contents to the decompressor, and is proper. */
  lemma ValidStream(m: Mode, bytes: Bytes, p: Bytes)
    requires Before(m.reach, p) && Wrapped.Decode(m.zlib, bytes).Some?
    ensures var w := TStart(m, ByteBits(bytes), p);
            w.Some? && w.value.hist == p + Wrapped.Decode(m.zlib, bytes).value && w.value.clean &&
                Proper(m.zlib, w, |p|)
  {
    hide ToBits, TBlocks, ByteBits, Inflate, Before, Compressor.ZlibTail, Adler.Checksum, FromByte;
    hide Wrapped.ZlibHeaderOk, TTrailer;
    assert p + [] == p;
    if m.zlib {
      HeadRead(m, bytes, p);
      var (x, rest) := Inflate(ByteBits(bytes[2..]), []).value;
      BlocksIncluded(m, ByteBits(bytes[2..]), [], p);
      ChecksumWord(x);
      TrailerRead(Adler.Checksum(1, x), FromByte(rest), p + x, true);
      assert (p + x)[|p|..] == x;
    } else {
      BlocksIncluded(m, ByteBits(bytes), [], p);
    }
  }

  lemma ChecksumWord(x: Bytes)
    ensures Adler.Checksum(1, x) < Adler.WORD
  {
    Adler.ChecksumConcat(1, x, []);
  }

  /** Compresses and decompresses again, into a buffer that grows. */
  method ThereAndBack(src: Bytes, flags: Parser.Flags, computeAdler: bool, limit: nat) returns (back: Option<Bytes>)
    requires limit >= 2 * |src| + 128
    ensures back == Some(src)
  {
    hide Wrapped.Decode, TStart, Proper;
    var status, packed := Wrapped.CompressMem(src, flags, None);
    assert status == Compressor.Done;
    ValidStream(Mode(Linear, flags.zlib), packed, []);
    assert [] + src == src;
    back := MemToHeap(packed, flags.zlib, computeAdler, limit);
  }

  /** The same with the compressed stream cut up in any way, and with any amounts of room at a time. */
  method ThereAndBackInPieces(src: Bytes, flags: Parser.Flags, computeAdler: bool, offers: seq<Offer>)
    returns (last: Inflator.Status, back: Bytes)
    ensures last in {Inflator.Done, Inflator.NeedsMoreInput, Inflator.HasMoreOutput} && back <= src
    ensures last == Inflator.Done ==> back == src
  {
    hide Wrapped.Decode, TStart;
    var status, packed := Wrapped.CompressMem(src, flags, None);
    assert status == Compressor.Done;
    ValidStream(Mode(Linear, flags.zlib), packed, []);
    var buf := new Byte[|src|](_ => 0);
    var c, p;
    last, c, p := InflateChunks(packed, flags.zlib, computeAdler, buf, offers);
    back := buf[..p];
    assert [] + src == src && [] + back == back;
  }
}
