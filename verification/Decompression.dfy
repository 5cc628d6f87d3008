/**
 Decompressing whole streams with `tinfl_decompress` (external/miniz.c): in any pieces, into a
 buffer of a given size, into one that grows, and through a ring that a callback empties.
 */
module Decompression {
  import opened Bits
  import opened Inflator
  import opened OutputBuffer
  import opened Tinfl
  import opened TinflGrows
  import opened Wrappers
  import Adler

  /** The checksum at the end of the stream is that of its output. */
  predicate Sound(zlib: bool, f: Final, before: nat) {
    zlib ==> before <= |f.hist| && f.adler == Adler.Checksum(1, f.hist[before..])
  }

  /** What a run may report about a stream that means `w`,
      after writing `out` behind `before` and using all but `rest`. */
  ghost predicate Reported(zlib: bool, w: Res, before: Bytes, status: Status, out: Bytes, rest: Bytes) {
    match status
    case Done => w.Some? && w.value.hist == before + out && w.value.rest == ByteBits(rest) &&
        Sound(zlib, w.value, |before|)
    case AdlerMismatch => w.Some? && w.value.hist == before + out && w.value.rest == ByteBits(rest) &&
        !Sound(zlib, w.value, |before|)
    case Failure => w == None
    case CannotMakeProgress => w == None
    case Aborted => Dirty(w)
    case HasMoreOutput => w.Some? ==> before + out <= w.value.hist && |w.value.hist| > |before + out|
    case NeedsMoreInput => w.Some? ==> before + out <= w.value.hist
    case BadParam => true
  }

  predicate Settled(status: Status) {
    status in {Done, AdlerMismatch, Failure, CannotMakeProgress}
  }

  /** Two runs that come to an end come to the same end, however the stream was cut up for them. */
  lemma RunsAgree(zlib: bool, w: Res, before: Bytes, s1: Status, out1: Bytes, rest1: Bytes, s2: Status, out2: Bytes,
      rest2: Bytes)
    requires Reported(zlib, w, before, s1, out1, rest1) && Settled(s1)
    requires Reported(zlib, w, before, s2, out2, rest2) && Settled(s2)
    ensures s1 in {Done, AdlerMismatch} || s2 in {Done, AdlerMismatch} ==> s1 == s2 && out1 == out2 && rest1 == rest2
  {
    if w.Some? {
      assert out1 == w.value.hist[|before|..] == out2;
      ByteBitsInjective(rest1, rest2);
    }
  }

  /** How much of the rest of the stream, and how much room, a call gets. */
  datatype Offer = Offer(bytes: nat, room: nat)

  /** Every call gets all of the input that is left. */
  predicate Generous(offers: seq<Offer>, n: nat) {
    forall k :: 0 <= k < |offers| ==> offers[k].bytes >= n
  }

  method NewDecompressor(mode: Mode, computeAdler: bool, buf: array<Byte>) returns (d: Decompressor)
    requires mode.reach.Ring? ==> 0 < mode.reach.size <= buf.Length
    ensures fresh(d) && fresh(d.r) && fresh(d.out) && fresh(d.Sizes()) && fresh(d.Lookups())
    ensures d.mode == mode && d.computeAdler == computeAdler && d.Idle() && d.summed == [] && !d.asked
    ensures d.out.pos == 0 && d.out.hist == (if mode.reach.Ring? then buf[..mode.reach.size] else [])
    ensures forall stream :: d.Meaning(stream) == TStart(mode, ByteBits(stream), d.out.hist)
    ensures OutputBuffer.Keeps(buf[..], mode.reach, 0, d.out.hist)
  {
    hide Decompressor.Valid, Decompressor.Idle, Decompressor.Meaning, OutputBuffer.Keeps, TStart;
    var out := new Output(mode.reach, buf);
    d := new Decompressor(mode, computeAdler, out);
    ghost var h := out.hist;
    forall stream
      ensures d.Meaning(stream) == TStart(mode, ByteBits(stream), d.out.hist)
    {
      d.AtStart(stream);
    }
    d.AtStart([]);
  }

  lemma NoReport(zlib: bool, w: Res)
    ensures forall rest :: Reported(zlib, w, [], NeedsMoreInput, [], rest)
  {
  }

  /** What a call says about the stream. */
  lemma Reports(d: Decompressor, w: Res, before: Bytes, status: Status, out: Bytes, rest: Bytes)
    requires status !in {BadParam, Aborted} ==> (d.Idle() && d.Meaning(rest) == w && d.out.hist == before + out &&
             (d.mode.zlib && status in {Done, AdlerMismatch} ==> d.summed == out))
    requires match status
             case NeedsMoreInput => true
             case CannotMakeProgress => rest == [] && d.Meaning([]) == None
             case HasMoreOutput => d.Full()
             case Done => d.state == Finished && (d.mode.zlib ==> d.checkAdler == d.zAdler)
             case AdlerMismatch => d.state == Finished && d.mode.zlib && d.checkAdler != d.zAdler
             case Failure => d.state == Failed
             case Aborted => Dirty(w)
             case BadParam => true
    ensures Reported(d.mode.zlib, w, before, status, out, rest)
  {
    hide Decompressor.Idle, Decompressor.Meaning, Decompressor.Full, ByteBits, Adler.Checksum;
    match status {
      case NeedsMoreInput => d.AtHand(rest);
      case CannotMakeProgress =>
      case HasMoreOutput =>
        d.AtFull(rest);
        d.AtHand(rest);
      case Done =>
        d.AtEnd(rest);
        Summed(d);
        assert d.out.hist[|before|..] == out;
      case AdlerMismatch =>
        d.AtEnd(rest);
        Summed(d);
        assert d.out.hist[|before|..] == out;
      case Failure => d.AtFailure(rest);
      case Aborted =>
      case BadParam =>
    }
  }

  lemma Summed(d: Decompressor)
    requires d.Idle()
    ensures d.checkAdler == Adler.Checksum(1, d.summed)
  {
  }

  /** What `Decompress` asks of a buffer that holds all of the output. */
  lemma LinearContinues(d: Decompressor, buf: array<Byte>, next: nat, size: nat)
    requires d.mode.reach == Linear && next + size <= buf.Length && d.out.hist == buf[..next] && d.out.pos == next
    requires buf as object !in d.Sizes() && buf as object !in d.Lookups()
    ensures d.Continues(buf, next, size)
  {
  }

  lemma Pieces<T>(s: seq<T>, i: nat, n: nat, c: nat)
    requires c <= n && i + n <= |s|
    ensures s[i..i + n] + s[i + n..] == s[i..] && s[i..i + n][c..] + s[i + n..] == s[i + c..]
  {
  }

  /** One call of a run into a buffer that holds all of the output. */
  method Feed(d: Decompressor, stream: Bytes, consumed: nat, n: nat, buf: array<Byte>, produced: nat, room: nat,
      ghost w: Res) returns (status: Status, c: nat, p: nat)
    requires d.mode.reach == Linear && consumed + n <= |stream| && produced + room <= buf.Length
    requires d.Idle() && d.Meaning(stream[consumed..]) == w && d.out.hist == buf[..produced] && d.out.pos == produced
    requires (d.mode.zlib ==> d.summed == buf[..produced])
    requires buf as object !in d.Sizes() && buf as object !in d.Lookups()
    modifies d, d.r, d.out, buf, d.Sizes(), d.Lookups()
    ensures c <= n && p <= room && status != BadParam
    ensures Reported(d.mode.zlib, w, [], status, buf[..produced + p], stream[consumed + c..])
    ensures status in {NeedsMoreInput, HasMoreOutput} ==>
              d.Idle() && d.Meaning(stream[consumed + c..]) == w && d.out.hist == buf[..produced + p] &&
                  d.out.pos == produced + p && (d.mode.zlib ==> d.summed == buf[..produced + p])
    ensures status == NeedsMoreInput ==> c == n < |stream| - consumed
    ensures status == HasMoreOutput ==> p == room
    ensures (status == Aborted ==> old(d.asked))
    ensures (d.asked ==> old(d.asked) || status in {NeedsMoreInput, CannotMakeProgress})
  {
    hide Decompressor.Idle, Decompressor.Meaning, Decompressor.Full, Decompressor.Continues;
    hide OutputBuffer.Keeps, Reported, Dirty;
    LinearContinues(d, buf, produced, room);
    Pieces(stream, consumed, n, 0);
    status, c, p := d.Decompress(stream[consumed..consumed + n], buf, produced, room, n < |stream| - consumed,
        stream[consumed + n..]);
    Pieces(stream, consumed, n, c);
    if status != Aborted {
      KeptLinear(buf[..], produced + p, d.out.hist);
      assert buf[..produced + p] == old(buf[..produced]) + buf[produced..produced + p];
      assert [] + d.out.hist == d.out.hist;
    }
    Reports(d, w, [], status, buf[..produced + p], stream[consumed + c..]);
  }

  lemma KeptLinear(buf: Bytes, pos: nat, h: Bytes)
    requires OutputBuffer.Keeps(buf, Linear, pos, h)
    ensures pos <= |buf| && h == buf[..pos]
  {
  }

  /** Feeds a stream piece by piece, with any amount of room at a time. */
  method InflateChunks(stream: Bytes, zlib: bool, computeAdler: bool, buf: array<Byte>,
      offers: seq<Offer>) returns (status: Status, consumed: nat, produced: nat)
    modifies buf
    ensures consumed <= |stream| && produced <= buf.Length && status != BadParam
    ensures Reported(zlib, TStart(Mode(Linear, zlib), ByteBits(stream), []), [], status, buf[..produced],
            stream[consumed..])
    ensures status == NeedsMoreInput && offers != [] ==> consumed < |stream|
    ensures Generous(offers, |stream|) ==> status != Aborted
  {
    hide Decompressor.Idle, Decompressor.Meaning, Decompressor.Full, OutputBuffer.Keeps, TStart, Reported, Dirty;
    ghost var w := TStart(Mode(Linear, zlib), ByteBits(stream), []);
    var d := NewDecompressor(Mode(Linear, zlib), computeAdler, buf);
    status, consumed, produced := NeedsMoreInput, 0, 0;
    var i := 0;
    d.AtHand(stream);
    assert stream[0..] == stream;
    NoReport(zlib, w);
    while i < |offers| && status in {NeedsMoreInput, HasMoreOutput}
      invariant 0 <= i <= |offers| && consumed <= |stream| && produced <= buf.Length && status != BadParam
      invariant Reported(zlib, w, [], status, buf[..produced], stream[consumed..])
      invariant status == NeedsMoreInput && i > 0 ==> consumed < |stream|
      invariant Generous(offers, |stream|) ==> status != Aborted && (status == NeedsMoreInput ==> i == 0)
      invariant Generous(offers, |stream|) && status in {NeedsMoreInput, HasMoreOutput} ==> !d.asked
      invariant status in {NeedsMoreInput, HasMoreOutput} ==>
                  d.Idle() && d.Meaning(stream[consumed..]) == w && d.out.hist == buf[..produced] &&
                      d.out.pos == produced &&
                      (zlib ==> d.summed == buf[..produced])
    {
      var n := if offers[i].bytes < |stream| - consumed then offers[i].bytes else |stream| - consumed;
      var room := if offers[i].room < buf.Length - produced then offers[i].room else buf.Length - produced;
      var c, p;
      status, c, p := Feed(d, stream, consumed, n, buf, produced, room, w);
      consumed, produced, i := consumed + c, produced + p, i + 1;
    }
  }

  // ---------- a whole stream at once ----------

  /** A stream that comes to an end, with the right checksum. */
  ghost predicate Proper(zlib: bool, w: Res, before: nat) {
    w.Some? && Sound(zlib, w.value, before)
  }

  /** `tinfl_decompress_mem_to_mem` */
  method MemToMem(src: Bytes, zlib: bool, computeAdler: bool, buf: array<Byte>) returns (n: Option<nat>)
    modifies buf
    ensures var w := TStart(Mode(Linear, zlib), ByteBits(src), []);
            if Proper(zlib, w, 0) && |w.value.hist| <= buf.Length then
              n == Some(|w.value.hist|) && buf[..n.value] == w.value.hist
            else n == None
  {
    hide Decompressor.Idle, Decompressor.Meaning, TStart, Sound;
    var d := NewDecompressor(Mode(Linear, zlib), computeAdler, buf);
    assert src[0..] == src;
    var status, c, p := Feed(d, src, 0, |src|, buf, 0, buf.Length, TStart(Mode(Linear, zlib), ByteBits(src), []));
    n := if status == Done then Some(p) else None;
    assert [] + buf[..p] == buf[..p];
  }

  /** `tinfl_decompress_mem_to_heap`, where no block of more than `limit` bytes can be had. */
  method MemToHeap(src: Bytes, zlib: bool, computeAdler: bool, limit: nat) returns (out: Option<Bytes>)
    ensures var w := TStart(Mode(Linear, zlib), ByteBits(src), []);
            && (out.Some? ==> Proper(zlib, w, 0) && w.value.hist == out.value)
            && (Proper(zlib, w, 0) && 2 * |w.value.hist| + 128 <= limit ==> out == Some(w.value.hist))
  {
    hide Decompressor.Idle, Decompressor.Meaning, TStart, Sound;
    ghost var w := TStart(Mode(Linear, zlib), ByteBits(src), []);
    var buf := new Byte[0];
    var d := NewDecompressor(Mode(Linear, zlib), computeAdler, buf);
    var ofs: nat, produced: nat := 0, 0;
    assert src[0..] == src;
    while true
      invariant 0 <= ofs <= |src| && produced <= buf.Length && fresh(buf) && buf as object !in d.Sizes()
      invariant buf as object !in d.Lookups()
      invariant d.Idle() && d.Meaning(src[ofs..]) == w && d.out.hist == buf[..produced] && d.out.pos == produced
      invariant (zlib ==> d.summed == buf[..produced])
      invariant buf.Length <= limit && !d.asked
      decreases limit - buf.Length
    {
      var status, c, p := Feed(d, src, ofs, |src| - ofs, buf, produced, buf.Length - produced, w);
      assert [] + buf[..produced + p] == buf[..produced + p];
      if status !in {Done, HasMoreOutput} {
        return None;
      }
      ofs, produced := ofs + c, produced + p;
      if status == Done {
        return Some(buf[..produced]);
      }
      var capacity := if buf.Length * 2 < 128 then 128 else buf.Length * 2;
      if capacity > limit {
        return None;
      }
      buf := Grow(buf, capacity);
    }
  }

  /** `realloc` */
  method Grow(buf: array<Byte>, capacity: nat) returns (b: array<Byte>)
    requires buf.Length <= capacity
    ensures fresh(b) && b.Length == capacity && b[..buf.Length] == buf[..]
  {
    b := new Byte[capacity](_ => 0);
    forall i | 0 <= i < buf.Length {
      b[i] := buf[i];
    }
  }

  // ---------- through a ring ----------

  const DICT := 32768   // TINFL_LZ_DICT_SIZE

  function Zeros(n: nat): (r: Bytes)
    ensures |r| == n
  {
    seq(n, _ => 0)
  }

  lemma DictPower()
    ensures exists k: nat :: DICT == Pow2(k)
  {
    Pow2Values();
  }

  /** The ring starts over once it is full. */
  lemma RingContinues(d: Decompressor, dict: array<Byte>)
    requires d.mode.reach == Ring(DICT) && dict.Length == DICT
    requires OutputBuffer.Keeps(dict[..], Ring(DICT), 0, d.out.hist)
    requires d.out.pos in {0, DICT} && dict as object !in d.Sizes() && dict as object !in d.Lookups()
    ensures d.Continues(dict, 0, DICT)
  {
    hide OutputBuffer.Keeps;
  }

  /** One call of a run through the ring, which writes from its front. */
  method FeedRing(d: Decompressor, stream: Bytes, consumed: nat, dict: array<Byte>, ghost w: Res, ghost before: Bytes,
      ghost sink: Bytes) returns (status: Status, c: nat, p: nat)
    requires d.mode.reach == Ring(DICT) && dict.Length == DICT && consumed <= |stream|
    requires d.Idle() && d.Meaning(stream[consumed..]) == w && d.out.hist == before + sink
    requires (d.mode.zlib ==> d.summed == sink)
    requires OutputBuffer.Keeps(dict[..], Ring(DICT), 0, d.out.hist) && d.out.pos in {0, DICT}
    requires dict as object !in d.Sizes() && dict as object !in d.Lookups()
    modifies d, d.r, d.out, dict, d.Sizes(), d.Lookups()
    ensures consumed + c <= |stream| && p <= DICT && status != BadParam && status != NeedsMoreInput
    ensures (status == Aborted ==> old(d.asked)) && (d.asked ==> old(d.asked) || status == CannotMakeProgress)
    ensures Reported(d.mode.zlib, w, before, status, sink + dict[..p], stream[consumed + c..])
    ensures status == HasMoreOutput ==>
              p == DICT && d.Idle() && d.Meaning(stream[consumed + c..]) == w &&
                  d.out.hist == before + (sink + dict[..p]) &&
                  (d.mode.zlib ==> d.summed == sink + dict[..p])
              && OutputBuffer.Keeps(dict[..], Ring(DICT), 0, d.out.hist) && d.out.pos == DICT
  {
    hide Decompressor.Idle, Decompressor.Meaning, Decompressor.Full, Decompressor.Continues;
    hide OutputBuffer.Keeps, Reported, Dirty, Pow2;
    RingContinues(d, dict);
    DictPower();
    var rest := stream[consumed..];
    assert rest + [] == rest;
    status, c, p := d.Decompress(rest, dict, 0, DICT, false, []);
    assert rest[c..] + [] == stream[consumed + c..];
    assert dict[0..0 + p] == dict[..p];
    assert before + sink + dict[..p] == before + (sink + dict[..p]);
    Reports(d, w, before, status, sink + dict[..p], stream[consumed + c..]);
    if status == HasMoreOutput {
      KeepsWrap(dict[..], Ring(DICT), d.out.hist);
    }
  }

  /** `tinfl_decompress_mem_to_callback`, with a callback that accepts `patience` pieces. */
  method MemToCallback(src: Bytes, zlib: bool, computeAdler: bool, patience: nat)
    returns (ok: bool, sink: Bytes, used: nat)
    ensures var w := TStart(Mode(Ring(DICT), zlib), ByteBits(src), Zeros(DICT));
            && (ok ==> (w.Some? && w.value.hist == Zeros(DICT) + sink && used <= |src| &&
                w.value.rest == ByteBits(src[used..]) && Sound(zlib, w.value, DICT)))
            && (Proper(zlib, w, DICT) && |w.value.hist| - DICT <= DICT * patience ==> ok)
  {
    hide Decompressor.Idle, Decompressor.Meaning, OutputBuffer.Keeps, TStart, Sound, Zeros;
    ghost var before, w := Zeros(DICT), TStart(Mode(Ring(DICT), zlib), ByteBits(src), Zeros(DICT));
    var dict := NewDict();
    var d := NewDecompressor(Mode(Ring(DICT), zlib), computeAdler, dict);
    assert d.out.hist == before;
    var calls: nat;
    ok, sink, used, calls := false, [], 0, 0;
    assert src[0..] == src && before + [] == before;
    while true
      invariant used <= |src| && calls <= patience && |sink| == DICT * calls && !d.asked
      invariant d.Idle() && d.Meaning(src[used..]) == w && d.out.hist == before + sink && (zlib ==> d.summed == sink)
      invariant OutputBuffer.Keeps(dict[..], Ring(DICT), 0, d.out.hist) && d.out.pos in {0, DICT}
      decreases patience - calls
    {
      var status, c, p := FeedRing(d, src, used, dict, w, before, sink);
      used := used + c;
      if p > 0 {
        if calls == patience {
          return;
        }
        calls, sink := calls + 1, sink + dict[..p];
      }
      if status != HasMoreOutput {
        ok := status == Done;
        return;
      }
    }
  }

  method NewDict() returns (dict: array<Byte>)
    ensures fresh(dict) && dict.Length == DICT && dict[..] == Zeros(DICT)
  {
    dict := new Byte[DICT](_ => 0);
  }
}
