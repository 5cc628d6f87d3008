/**
 What an unfinished DEFLATE stream means: the bits written so far, followed by whatever comes
 next, decode to the bytes so far followed by what comes next.

 Stored blocks start at a byte boundary, so this is said of streams that end at one.
 */
module Stream {
  import opened Bits
  import opened BlockHeader
  import opened Deflate
  import opened TokenCode
  import opened Wrappers

  predicate WholeBytes(n: nat) {
    n % 8 == 0
  }

  /** Complete blocks, none of them final, that stand for `out`. */
  ghost predicate Sofar(s: Bitstring, out: seq<Byte>) {
    forall rest: Bitstring :: WholeBytes(|s| + |rest|) ==> Inflate(s + rest, []) == Inflate(rest, out)
  }

  /** Complete blocks with the final one last. */
  ghost predicate Final(s: Bitstring, out: seq<Byte>) {
    forall rest: Bitstring :: WholeBytes(|s| + |rest|) ==> Inflate(s + rest, []) == Some((out, rest))
  }

  /** A block whose contents start `at` bits into the stream takes `out` to `out'`. */
  ghost predicate BlockAt(type_: nat, bits: Bitstring, at: nat, out: seq<Byte>, out': seq<Byte>) {
    forall rest: Bitstring :: WholeBytes(at + |bits| + |rest|) ==> Block(type_, bits + rest, out) == Some((out', rest))
  }

  lemma SofarStart()
    ensures Sofar([], [])
  {
    forall rest: Bitstring
      ensures Inflate([] + rest, []) == Inflate(rest, [])
    {
      assert [] + rest == rest;
    }
  }

  function PadBits(n: nat): (p: nat)
    ensures p < 8 && (n + p) % 8 == 0
  {
    (8 - n % 8) % 8
  }

  function FinalBit(last: bool): nat {
    if last then 1 else 0
  }

  // ---------- adding a block ----------

  lemma BlockStep(last: bool, type_: nat, bits: Bitstring, rest: Bitstring, out: seq<Byte>, out': seq<Byte>)
    requires type_ < 4 && Block(type_, bits + rest, out) == Some((out', rest))
    ensures Inflate(ToBits(FinalBit(last), 1) + (ToBits(type_, 2) + (bits + rest)), out) == AfterBlock(last, rest, out')
  {
    hide ToBits, ReadBits, Block, AfterBlock;
    BlockHead(last, type_, bits + rest);
  }

  lemma Regroup(s: Bitstring, f: Bitstring, t: Bitstring, b: Bitstring, rest: Bitstring)
    ensures s + (f + (t + b)) + rest == s + (f + (t + (b + rest)))
  {
  }

  /** The stream with a block more. */
  function WithBlock(s: Bitstring, last: bool, type_: nat, bits: Bitstring): (r: Bitstring)
    ensures |r| == |s| + 3 + |bits|
  {
    s + (ToBits(FinalBit(last), 1) + (ToBits(type_, 2) + bits))
  }

  lemma ExtendRest(s: Bitstring, out: seq<Byte>, last: bool, type_: nat, bits: Bitstring, out': seq<Byte>,
      rest: Bitstring)
    requires Sofar(s, out) && type_ < 4 && BlockAt(type_, bits, |s| + 3, out, out')
    requires WholeBytes(|s| + 3 + |bits| + |rest|)
    ensures Inflate(WithBlock(s, last, type_, bits) + rest, []) == AfterBlock(last, rest, out')
  {
    hide ToBits, Inflate, Block, FinalBit, AfterBlock, WholeBytes;
    var f, t := ToBits(FinalBit(last), 1), ToBits(type_, 2);
    Regroup(s, f, t, bits, rest);
    BlockStep(last, type_, bits, rest, out, out');
    var more := f + (t + (bits + rest));
    assert |s| + |more| == |s| + 3 + |bits| + |rest|;
    assert WholeBytes(|s| + |more|);
  }

  lemma Extend(s: Bitstring, out: seq<Byte>, last: bool, type_: nat, bits: Bitstring, out': seq<Byte>)
    requires Sofar(s, out) && type_ < 4 && BlockAt(type_, bits, |s| + 3, out, out')
    ensures if last then Final(WithBlock(s, last, type_, bits), out') else Sofar(WithBlock(s, last, type_, bits), out')
  {
    hide *;
    var s' := WithBlock(s, last, type_, bits);
    forall rest: Bitstring | WholeBytes(|s'| + |rest|)
      ensures Inflate(s' + rest, []) == AfterBlock(last, rest, out')
    {
      ExtendRest(s, out, last, type_, bits, out', rest);
    }
    AfterLast(last, s', out');
  }

  lemma AfterLast(last: bool, s: Bitstring, out: seq<Byte>)
    requires forall rest: Bitstring :: WholeBytes(|s| + |rest|) ==> Inflate(s + rest, []) == AfterBlock(last, rest, out)
    ensures if last then Final(s, out) else Sofar(s, out)
  {
    hide Inflate;
  }

  lemma CompressedAt(type_: nat, bits: Bitstring, at: nat, ts: seq<Token>, out: seq<Byte>)
    requires BlockOf(type_, bits, ts) && ExpandableAll(out, ts)
    ensures BlockAt(type_, bits, at, out, Expand(out, ts))
  {
    hide Block, Expand, ExpandableAll;
  }

  // ---------- stored blocks ----------

  function StoredBits(at: nat, data: seq<Byte>): Bitstring
    requires |data| < 65536
  {
    ToBits(0, PadBits(at)) + (ToBits(|data|, 16) + (ToBits(65535 - |data|, 16) + ByteBits(data)))
  }

  lemma {:induction false} StoredBytesRead(data: seq<Byte>, rest: Bitstring, out: seq<Byte>)
    ensures StoredBytes(|data|, ByteBits(data) + rest, out) == Some((out + data, rest))
    decreases |data|
  {
    if data == [] {
      assert out + data == out && ByteBits(data) + rest == rest;
    } else {
      hide ToBits, FromBits, Pow2, ReadBits;
      ByteRead(data, rest, out);
      StoredBytesRead(data[1..], rest, out + [data[0]]);
      assert out + [data[0]] + data[1..] == out + data;
    }
  }

  lemma ByteRead(data: seq<Byte>, rest: Bitstring, out: seq<Byte>)
    requires data != []
    ensures StoredBytes(|data|, ByteBits(data) + rest, out) ==
            StoredBytes(|data| - 1, ByteBits(data[1..]) + rest, out + [data[0]])
  {
    hide ToBits, FromBits, Pow2, ReadBits;
    Pow2Values();
    ConcatAssoc(ToBits(data[0], 8), ByteBits(data[1..]), rest);
    ReadBack(data[0], 8, ByteBits(data[1..]) + rest);
  }

  /** The decoder finds the byte boundary that the encoder padded to. */
  lemma StoredAt(at: nat, data: seq<Byte>, out: seq<Byte>)
    requires |data| < 65536
    ensures BlockAt(0, StoredBits(at, data), at, out, out + data)
  {
    hide ToBits, Stored, ByteBits, StoredBits;
    forall rest: Bitstring | WholeBytes(at + |StoredBits(at, data)| + |rest|)
      ensures Block(0, StoredBits(at, data) + rest, out) == Some((out + data, rest))
    {
      StoredRead(at, data, rest, out);
    }
  }

  lemma StoredRead(at: nat, data: seq<Byte>, rest: Bitstring, out: seq<Byte>)
    requires |data| < 65536 && WholeBytes(at + |StoredBits(at, data)| + |rest|)
    ensures Stored(StoredBits(at, data) + rest, out) == Some((out + data, rest))
  {
    hide ToBits, FromBits, ByteBits, Pow2, ReadBits, StoredBytes;
    var pad, l, n, b := ToBits(0, PadBits(at)), ToBits(|data|, 16), ToBits(65535 - |data|, 16), ByteBits(data);
    var all := pad + (l + (n + b)) + rest;
    PadFound(at, |all|, |l + (n + b)| + |rest|);
    FourAndRest(pad, l, n, b, rest);
    Pow2Values();
    ReadBack(|data|, 16, n + (b + rest));
    ReadBack(65535 - |data|, 16, b + rest);
    StoredBytesRead(data, rest, out);
  }

  lemma FourAndRest(p: Bitstring, l: Bitstring, n: Bitstring, b: Bitstring, rest: Bitstring)
    ensures (p + (l + (n + b)) + rest)[|p|..] == l + (n + (b + rest))
  {
  }

  lemma PadFound(at: nat, all: nat, after: nat)
    requires WholeBytes(at + all) && all == PadBits(at) + after
    ensures all % 8 == PadBits(at)
  {
  }

  lemma SameOffset(m: nat, n: nat, k: nat)
    requires m % 8 == n % 8
    ensures WholeBytes(m + k) <==> WholeBytes(n + k)
  {
  }

  /** Only the position within a byte matters. */
  lemma BlockAtMod(type_: nat, bits: Bitstring, at: nat, at': nat, out: seq<Byte>, out': seq<Byte>)
    requires BlockAt(type_, bits, at, out, out') && at % 8 == at' % 8
    ensures BlockAt(type_, bits, at', out, out')
  {
    hide Block, WholeBytes;
    forall rest: Bitstring | WholeBytes(at' + |bits| + |rest|)
      ensures Block(type_, bits + rest, out) == Some((out', rest))
    {
      SameOffset(at, at', |bits| + |rest|);
      assert at + |bits| + |rest| == at + (|bits| + |rest|);
    }
  }

  /** The empty stored block of a sync flush, after its three header bits. */
  function SyncBits(at: nat): Bitstring {
    ToBits(0, 3) + ToBits(0, PadBits(at + 3)) + ToBits(0, 16) + ToBits(65535, 16)
  }

  lemma SyncExtends(s: Bitstring, out: seq<Byte>)
    requires Sofar(s, out)
    ensures Sofar(s + SyncBits(|s|), out) && WholeBytes(|s| + |SyncBits(|s|)|)
  {
    hide ToBits, BlockAt, Sofar, PadBits, WithBlock, StoredBits, SyncBits;
    StoredAt(|s| + 3, [], out);
    Extend(s, out, false, 0, StoredBits(|s| + 3, []), out + []);
    assert out + [] == out;
    SyncShape(s);
  }

  lemma SyncShape(s: Bitstring)
    ensures WithBlock(s, false, 0, StoredBits(|s| + 3, [])) == s + SyncBits(|s|)
    ensures WholeBytes(|s| + |SyncBits(|s|)|)
  {
    hide ToBits, PadBits;
    NoBlockBits();
    NoBytes(s, ToBits(0, 1), ToBits(0, 2), ToBits(0, PadBits(|s| + 3)), ToBits(0, 16), ToBits(65535, 16));
  }

  lemma NoBlockBits()
    ensures ToBits(0, 3) == ToBits(0, 1) + ToBits(0, 2) && FinalBit(false) == 0
  {
    ToBitsShr(0, 1, 2);
  }

  lemma NoBytes(s: Bitstring, f: Bitstring, t: Bitstring, p: Bitstring, a: Bitstring, b: Bitstring)
    ensures s + (f + (t + (p + (a + (b + []))))) == s + (f + t + p + a + b)
  {
  }
}
