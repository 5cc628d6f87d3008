/**
 `tinfl_decompress` as a machine that can stop wherever input or room for output runs out
 (external/miniz.c).  Every step keeps the meaning of what is left, so that stopping and going on
 does not matter.
 */
module Inflator {
  import opened BitReader
  import opened Bits
  import opened Canonical
  import opened HuffDecode
  import opened InflateTable
  import opened OutputBuffer
  import opened Tinfl
  import opened TinflControl
  import opened TinflGrows
  import opened TrieCode
  import opened Wrappers
  import Deflate
  import HuffmanTable
  import Adler
  import BlockHeader
  import BlockWriter
  import TokenCode

  /** `m_state`: where the coroutine goes on; the numbers are those of the source. */
  datatype Label =
    | Begin          // 0
    | ZlibCmf        // 1
    | ZlibFlg        // 2
    | BlockHead      // 3
    | RawHeader      // 6, 7
    | RawBuffered    // 51
    | RawPut         // 52
    | RawCopy        // 9, 38
    | TableSize      // 11
    | CodeLength     // 14
    | LenCode        // 16
    | LenExtra       // 18
    | Symbol         // 23
    | PutLiteral     // 24
    | LengthExtra    // 25
    | Distance       // 26
    | DistExtra      // 27
    | Copy           // 53
    | Trailer        // 42
    | Finished       // 34
    | Failed         // 10, 17, 21, 35, 36, 37, 39

  /** `tinfl_status`; `Aborted` stands for a failed `MZ_ASSERT`. */
  datatype Status =
    | CannotMakeProgress | BadParam | AdlerMismatch | Failure | Done | NeedsMoreInput | HasMoreOutput | Aborted

  datatype Yield = Go | Stop(status: Status)

  function Starved(more: bool): Yield {
    Stop(if more then NeedsMoreInput else CannotMakeProgress)
  }

  /** Labels that a step reaches without using bits or room have a lower rank. */
  function Rank(s: Label): nat {
    match s
    case Begin => 9
    case ZlibCmf => 8
    case LengthExtra => 7
    case Distance => 6
    case DistExtra => 5
    case Copy => 4
    case LenCode => 3
    case Symbol => 2
    case PutLiteral => 1
    case _ => 0
  }

  /** Of the `n` bits carried over, eight or more are only there if they do not do for what comes next. */
  ghost predicate LeanAt(c: Ctl, carry: Bitstring, n: int, asked: bool) {
    n < 8 || (asked && n == |carry| && NeedsMore(c, carry))
  }

  class Decompressor {
    const mode: Mode
    const computeAdler: bool        // TINFL_FLAG_COMPUTE_ADLER32
    const r: Reader
    const out: Output
    const litTable: Table           // m_look_up[0], m_tree_0
    const distTable: Table          // m_look_up[1], m_tree_1
    const lenTable: Table           // m_look_up[2], m_tree_2
    const litSizes: array<nat>      // m_code_size_0
    const distSizes: array<nat>     // m_code_size_1
    const lenSizes: array<nat>      // m_code_size_2
    const lenCodes: array<nat>      // m_len_codes
    var state: Label
    var final: nat                  // m_final
    var tableSizes: seq<nat>        // m_table_sizes
    var rawHeader: seq<Byte>        // m_raw_header
    var dist: nat
    var counter: nat
    var numExtra: nat
    var from: nat                   // m_dist_from_out_buf_start
    var zhdr0: Byte
    var zAdler: nat                 // m_z_adler32
    var checkAdler: nat             // m_check_adler32
    ghost var asked: bool           // a call has asked for more input
    ghost var clean: bool           // no bits that are no code have been taken for one
    ghost var summed: Bytes         // the output that the checksum covers

    ghost function Sizes(): set<object> {
      {litSizes, distSizes, lenSizes, lenCodes}
    }

    ghost function Lookups(): set<object> {
      {litTable.lookUp, litTable.tree, distTable.lookUp, distTable.tree, lenTable.lookUp, lenTable.tree}
    }

    /** The pieces are there and separate. */
    ghost predicate Shape() {
      && out.reach == mode.reach
      && litTable.Shape(288) && distTable.Shape(32) && lenTable.Shape(19)
      && litSizes.Length == 288 && distSizes.Length == 32 && lenSizes.Length == 19 && lenCodes.Length == 457
      && litSizes != distSizes && litSizes != lenSizes && litSizes != lenCodes && distSizes != lenSizes &&
          distSizes != lenCodes && lenSizes != lenCodes
      && Sizes() !! Lookups()
      && {litTable.lookUp, litTable.tree} !! {distTable.lookUp, distTable.tree}
      && {litTable.lookUp, litTable.tree, distTable.lookUp, distTable.tree} !! {lenTable.lookUp, lenTable.tree}
    }

    /** The output buffer is none of the tables. */
    ghost predicate Separate()
      reads out`buf
    {
      out.buf as object !in Sizes() && out.buf as object !in Lookups()
    }

    ghost function LitLens(): Lens
      reads this`tableSizes, litSizes
    {
      if |tableSizes| > 0 && tableSizes[0] <= litSizes.Length then litSizes[..tableSizes[0]] else []
    }

    ghost function DistLens(): Lens
      reads this`tableSizes, distSizes
    {
      if |tableSizes| > 1 && tableSizes[1] <= distSizes.Length then distSizes[..tableSizes[1]] else []
    }

    ghost function Got(): Lens
      reads this`counter, lenCodes
    {
      if counter <= lenCodes.Length then lenCodes[..counter] else []
    }

    /** The place in the stream's meaning. */
    ghost function Place(): Ctl
      reads this`state, this`final, this`tableSizes, this`rawHeader, this`dist, this`counter, this`numExtra, this`zhdr0
      reads this`zAdler, litSizes, distSizes, lenSizes, lenCodes
    {
      var fin := final % 2 == 1;
      match state
      case Begin => CStart
      case ZlibCmf => CStart
      case ZlibFlg => CHeader(zhdr0)
      case BlockHead => CBlocks
      case RawHeader => CRaw(fin, rawHeader)
      case RawBuffered => CBytes(fin, counter)
      case RawPut => CPut(fin, if counter > 0 then counter - 1 else 0, dist % 256)
      case RawCopy => CBytes(fin, counter)
      case TableSize => CSizes(fin, tableSizes)
      case CodeLength => COrder(fin, tableSizes, counter, lenSizes[..])
      case LenCode => if |tableSizes| == 3 then CLens(fin, tableSizes[0], tableSizes[1], lenSizes[..], Got()) else
          CFailed
      case LenExtra => if |tableSizes| == 3 then CLenRun(fin, tableSizes[0], tableSizes[1], lenSizes[..], Got(),
          dist) else CFailed
      case Symbol => CSyms(fin, LitLens(), DistLens())
      case PutLiteral => CLit(fin, LitLens(), DistLens(), counter % 256)
      case LengthExtra => CLength(fin, LitLens(), DistLens(), counter, numExtra)
      case Distance => CDistance(fin, LitLens(), DistLens(), counter)
      case DistExtra => CDistBits(fin, LitLens(), DistLens(), counter, dist, numExtra)
      case Copy => CMatch(fin, LitLens(), DistLens(), counter, dist)
      case Trailer => CTrailer(counter, zAdler)
      case Finished => CDone(zAdler)
      case Failed => CFailed
    }

    ghost predicate CodesReady()
      reads this`tableSizes, litSizes, distSizes, litTable.lookUp, litTable.tree, distTable.lookUp, distTable.tree
    {
      && |tableSizes| == 3 && tableSizes[0] <= 288 && tableSizes[1] <= 32
      && Usable(litTable, LitLens()) && Usable(distTable, DistLens())
    }

    ghost predicate SizesReady()
      reads this`tableSizes
    {
      |tableSizes| == 3 && 257 <= tableSizes[0] <= 288 && 1 <= tableSizes[1] <= 32
    }

    ghost predicate LensReady()
      reads this`tableSizes, this`counter, lenSizes, lenCodes, lenTable.lookUp, lenTable.tree
    {
      && SizesReady() && counter < tableSizes[0] + tableSizes[1] && Usable(lenTable, lenSizes[..]) &&
         lenSizes.Length == 19
      && lenCodes.Length == 457 && forall i :: 0 <= i < counter ==> lenCodes[i] <= 15
    }

    /** What holds at each label. */
    ghost predicate StateOk()
      reads this`state, this`final, this`tableSizes, this`rawHeader, this`dist, this`counter, this`numExtra, this`zhdr0
      reads this`zAdler, this`from, this`clean, this`asked, litSizes, distSizes, lenSizes, lenCodes, r`numBits
      reads out`pos, out`hist
      reads litTable.lookUp, litTable.tree, distTable.lookUp, distTable.tree, lenTable.lookUp, lenTable.tree
    {
      && (state !in {Begin, Trailer, Finished} ==> zAdler == 1)
      && match state
         case Begin => r.numBits == 0 && clean
         case ZlibCmf => r.numBits == 0 && mode.zlib && clean
         case ZlibFlg => r.numBits == 0 && mode.zlib && clean
         case BlockHead => true
         case RawHeader => |rawHeader| < 4 && r.numBits % 8 == 0
         case RawBuffered => counter > 0 && r.numBits % 8 == 0 && r.numBits > 0
         case RawPut => counter > 0 && dist < 256 && r.numBits % 8 == 0
         case RawCopy => counter > 0 && r.numBits == 0
         case TableSize => |tableSizes| < 3 && (|tableSizes| > 0 ==> 257 <= tableSizes[0] <= 288) &&
             (|tableSizes| > 1 ==> 1 <= tableSizes[1] <= 32)
         case CodeLength => SizesReady() && counter < tableSizes[2] <= 19 && lenSizes.Length == 19 && forall i ::
             0 <= i < 19 ==> lenSizes[i] < 8
         case LenCode => LensReady()
         case LenExtra => LensReady() && 16 <= dist <= 18 && (dist == 16 ==> counter > 0) &&
             numExtra == Deflate.RepeatBits(dist)
         case Symbol => CodesReady()
         case PutLiteral => CodesReady() && counter < 256
         case LengthExtra => CodesReady() && numExtra <= 5
         case Distance => CodesReady()
         case DistExtra => CodesReady() && numExtra <= 13
         case Copy => CodesReady() && Effective(mode.reach, |out.hist|, dist).Some? &&
             OutputBuffer.Place(mode.reach, from, 0) == OutputBuffer.Place(mode.reach, out.pos, 0)
         case Trailer => counter < 4 && r.numBits == 0
         case Finished => r.numBits == 0
         case Failed => true
    }

    /** Nothing has been read ahead that cannot be put back, unless it is known to be needed. */
    ghost predicate Lean()
      reads this`state, this`final, this`tableSizes, this`rawHeader, this`dist, this`counter, this`numExtra, this`zhdr0
      reads this`zAdler, this`asked, r, litSizes, distSizes, lenSizes, lenCodes
    {
      LeanAt(Place(), r.carry, r.numBits - 8 * r.pos, asked)
    }

    ghost predicate Valid()
      reads this`state, this`final, this`tableSizes, this`rawHeader, this`dist, this`counter, this`numExtra, this`zhdr0
      reads this`zAdler, this`from, this`clean, this`asked, r, out, out.buf, litSizes, distSizes, lenSizes, lenCodes
      reads litTable.lookUp, litTable.tree, distTable.lookUp, distTable.tree, lenTable.lookUp, lenTable.tree
    {
      Shape() && Separate() && r.Valid() && out.Valid() && StateOk() && (Sure() ==> Lean())
    }

    /** What the whole stream comes to, seen from here. */
    ghost function Goal(): Res
      reads this`state, this`final, this`tableSizes, this`rawHeader, this`dist, this`counter, this`numExtra, this`zhdr0
      reads this`zAdler, this`clean, this`asked, r, out`hist, litSizes, distSizes, lenSizes, lenCodes
      requires r.Valid()
    {
      Means(mode, Place(), r.Pending(), out.hist, clean)
    }

    /** The same if no more input comes. */
    ghost function GoalNow(): Res
      reads this`state, this`final, this`tableSizes, this`rawHeader, this`dist, this`counter, this`numExtra, this`zhdr0
      reads this`zAdler, this`clean, this`asked, r, out`hist, litSizes, distSizes, lenSizes, lenCodes
    {
      Means(mode, Place(), Buffered(r), out.hist, clean)
    }

    constructor (mode: Mode, computeAdler: bool, out: Output)
      requires out.reach == mode.reach && out.Valid()
      ensures Valid() && state == Begin && this.mode == mode && this.out == out && this.computeAdler == computeAdler
      ensures fresh(r) && fresh(Sizes()) && fresh(Lookups()) && clean && !asked && summed == [] && checkAdler == 1
    {
      hide StateOk, Place, Lean, Reader.Valid, Output.Valid, Valid, Table.Shape, Usable;
      this.mode, this.computeAdler, this.out := mode, computeAdler, out;
      r := new Reader();
      litTable := new Table(288);
      distTable := new Table(32);
      lenTable := new Table(19);
      litSizes := new nat[288](_ => 0);
      distSizes := new nat[32](_ => 0);
      lenSizes := new nat[19](_ => 0);
      lenCodes := new nat[457](_ => 0);
      state, final, tableSizes, rawHeader, dist, counter, numExtra, from, zhdr0, zAdler, checkAdler, clean :=
          Begin, 0, [],
          [], 0, 0, 0, 0, 0, 1, 1, true;
      summed, asked := [], false;
      new;
      Started();
    }

    lemma Started()
      requires Shape() && Separate() && r.Valid() && out.Valid() && state == Begin && r.numBits == 0 && clean
      ensures Valid()
    {
      hide Shape, Separate, Reader.Valid, Output.Valid, NeedsMore;
    }

    // ---------- reading ----------

    /** `TINFL_GET_BITS` */
    method GetBits(n: nat) returns (ok: bool, v: nat)
      requires r.Valid() && n <= 16
      modifies r`pos, r`bitBuf, r`numBits
      ensures r.Valid() && old(r.pos) <= r.pos
      ensures ok ==> |old(r.Pending())| >= n && v == FromBits(old(r.Pending())[..n]) &&
                     r.Pending() == old(r.Pending())[n..]
                     && r.numBits - 8 * r.pos == old(r.numBits) - 8 * old(r.pos) - n &&
                        (old(r.numBits) >= n ==> r.numBits == old(r.numBits) - n)
      ensures !ok ==> (r.Pending() == old(r.Pending()) && r.pos == |r.input| && r.numBits < n &&
              r.numBits - 8 * r.pos == old(r.numBits) - 8 * old(r.pos))
    {
      hide ToBits, FromBits, ByteBits, Suffix, Pow2;
      v := 0;
      ok := r.NeedBits(n);
      if ok {
        v := r.TakeBits(n);
      }
    }

    /** Nothing of this call's input is left, and what is buffered does not do. */
    ghost predicate Starving()
      reads this`state, this`final, this`tableSizes, this`rawHeader, this`dist, this`counter, this`numExtra, this`zhdr0
      reads this`zAdler, this`clean, this`asked, r, out`hist, litSizes, distSizes, lenSizes, lenCodes
    {
      && r.pos == |r.input| && GoalNow() == None && (r.numBits < 8 || NeedsMore(Place(), Buffered(r)))
      && (state in {LenCode, Symbol, Distance} ==> Parked())
    }

    /** Nothing has been read ahead that cannot be put back. */
    ghost predicate Tight()
      reads this`clean, this`asked, r`numBits, r`pos
    {
      Sure() ==> r.numBits < 8 * r.pos + 8
    }

    /** No bits that are no code have been taken for one, or no call has asked for more input. */
    ghost predicate Sure()
      reads this`clean, this`asked
    {
      clean || !asked
    }

    /** Stopped in the middle of finding a symbol. */
    ghost predicate Parked()
      reads this`state, this`final, this`tableSizes, this`rawHeader, this`dist, this`counter, this`numExtra, this`zhdr0
      reads this`zAdler, r`bitBuf, r`numBits, litSizes, distSizes, lenSizes, lenCodes
    {
      r.numBits < 15 && NeedsMore(Place(), Buffered(r))
    }

    // ---------- coming to a label and leaving it ----------

    ghost predicate Base()
      reads r, out, out.buf
    {
      Shape() && Separate() && r.Valid() && out.Valid()
    }

    lemma Leave()
      requires Valid()
      ensures Base() && StateOk() && Goal() == Means(mode, Place(), r.Pending(), out.hist, clean)
      ensures Sure() ==> LeanAt(Place(), r.carry, r.numBits - 8 * r.pos, asked)
    {
      hide Reader.Valid, Output.Valid, StateOk, Place, Means;
    }

    lemma Enter()
      requires Base() && StateOk() && Tight()
      ensures Valid() && Goal() == Means(mode, Place(), r.Pending(), out.hist, clean)
    {
      hide Reader.Valid, Output.Valid, StateOk, Place, Means;
    }

    /** Still at the same label, for want of input. */
    lemma Starve(c: Ctl)
      requires Base() && StateOk() && Place() == c && (Sure() ==> LeanAt(c, r.carry, r.numBits - 8 * r.pos, asked))
      requires r.pos == |r.input| && Means(mode, c, Buffered(r), out.hist, clean) == None
      requires (r.numBits < 8 || NeedsMore(c, Buffered(r)))
      requires state in {LenCode, Symbol, Distance} ==> r.numBits < 15 && NeedsMore(c, Buffered(r))
      ensures Valid() && Starving() && Goal() == Means(mode, c, r.Pending(), out.hist, clean)
    {
      hide Reader.Valid, Output.Valid, StateOk, Place, Means, NeedsMore, Buffered;
    }

    lemma AtBlockHead()
      requires state == BlockHead
      ensures Place() == CBlocks
      ensures StateOk() <==> (zAdler == 1)
    {
      hide Usable, Effective, OutputBuffer.Place;
    }

    lemma AtRawHeader()
      requires state == RawHeader
      ensures Place() == CRaw(final % 2 == 1, rawHeader)
      ensures StateOk() <==> (zAdler == 1 && |rawHeader| < 4 && r.numBits % 8 == 0)
    {
      hide Usable, Effective, OutputBuffer.Place;
    }

    lemma AtRawBuffered()
      requires state == RawBuffered
      ensures Place() == CBytes(final % 2 == 1, counter)
      ensures StateOk() <==> (zAdler == 1 && counter > 0 && r.numBits % 8 == 0 && r.numBits > 0)
    {
      hide Usable, Effective, OutputBuffer.Place;
    }

    lemma AtRawCopy()
      requires state == RawCopy
      ensures Place() == CBytes(final % 2 == 1, counter)
      ensures StateOk() <==> (zAdler == 1 && counter > 0 && r.numBits == 0)
    {
      hide Usable, Effective, OutputBuffer.Place;
    }

    lemma AtRawPut()
      requires state == RawPut
      ensures Place() == CPut(final % 2 == 1, if counter > 0 then counter - 1 else 0, dist % 256)
      ensures StateOk() <==> (zAdler == 1 && counter > 0 && dist < 256 && r.numBits % 8 == 0)
    {
      hide Usable, Effective, OutputBuffer.Place;
    }

    lemma OutRoom()
      requires out.Valid()
      ensures out.pos <= out.end
    {
      hide OutputBuffer.Keeps;
    }

    lemma AtTableSize()
      requires state == TableSize
      ensures Place() == CSizes(final % 2 == 1, tableSizes)
      ensures StateOk() <==> (zAdler == 1 && |tableSizes| < 3 && (|tableSizes| > 0 ==> 257 <= tableSizes[0] <= 288) &&
              (|tableSizes| > 1 ==> 1 <= tableSizes[1] <= 32))
    {
      hide Usable, Effective, OutputBuffer.Place;
    }

    lemma AtCodeLength()
      requires state == CodeLength
      ensures Place() == COrder(final % 2 == 1, tableSizes, counter, lenSizes[..])
      ensures StateOk() <==> (zAdler == 1 && SizesReady() && counter < tableSizes[2] <= 19 && lenSizes.Length == 19 &&
              forall i :: 0 <= i < 19 ==> lenSizes[i] < 8)
    {
      hide Usable, Effective, OutputBuffer.Place;
    }

    lemma AtSymbol()
      requires state == Symbol
      ensures Place() == CSyms(final % 2 == 1, LitLens(), DistLens())
      ensures StateOk() <==> (zAdler == 1 && CodesReady())
    {
      hide Usable, Effective, OutputBuffer.Place;
    }

    lemma AtPutLiteral()
      requires state == PutLiteral
      ensures Place() == CLit(final % 2 == 1, LitLens(), DistLens(), counter % 256)
      ensures StateOk() <==> (zAdler == 1 && CodesReady() && counter < 256)
    {
      hide Usable, Effective, OutputBuffer.Place;
    }

    lemma AtLengthExtra()
      requires state == LengthExtra
      ensures Place() == CLength(final % 2 == 1, LitLens(), DistLens(), counter, numExtra)
      ensures StateOk() <==> (zAdler == 1 && CodesReady() && numExtra <= 5)
    {
      hide Usable, Effective, OutputBuffer.Place;
    }

    lemma AtDistance()
      requires state == Distance
      ensures Place() == CDistance(final % 2 == 1, LitLens(), DistLens(), counter)
      ensures StateOk() <==> (zAdler == 1 && CodesReady())
    {
      hide Usable, Effective, OutputBuffer.Place;
    }

    lemma AtDistExtra()
      requires state == DistExtra
      ensures Place() == CDistBits(final % 2 == 1, LitLens(), DistLens(), counter, dist, numExtra)
      ensures StateOk() <==> (zAdler == 1 && CodesReady() && numExtra <= 13)
    {
      hide Usable, Effective, OutputBuffer.Place;
    }

    lemma AtCopy()
      requires state == Copy
      ensures Place() == CMatch(final % 2 == 1, LitLens(), DistLens(), counter, dist)
      ensures StateOk() <==> (zAdler == 1 && CodesReady() && Effective(mode.reach, |out.hist|, dist).Some? &&
              OutputBuffer.Place(mode.reach, from, 0) == OutputBuffer.Place(mode.reach, out.pos, 0))
    {
      hide Usable, Effective, OutputBuffer.Place;
    }

    lemma AtTrailer()
      requires state == Trailer
      ensures Place() == CTrailer(counter, zAdler)
      ensures StateOk() <==> (counter < 4 && r.numBits == 0)
    {
      hide Usable, Effective, OutputBuffer.Place;
    }

    lemma AtFailed()
      requires state == Failed
      ensures Place() == CFailed
      ensures StateOk() <==> (zAdler == 1)
    {
      hide Usable, Effective, OutputBuffer.Place;
    }

    lemma AtFinished()
      requires state == Finished
      ensures Place() == CDone(zAdler)
      ensures StateOk() <==> r.numBits == 0
    {
      hide Usable, Effective, OutputBuffer.Place;
    }

    lemma AtLenCode()
      requires state == LenCode
      ensures |tableSizes| == 3 ==> Place() == CLens(final % 2 == 1, tableSizes[0], tableSizes[1], lenSizes[..], Got())
      ensures StateOk() <==> (zAdler == 1 && LensReady())
    {
      hide Usable;
    }

    lemma AtLenExtra()
      requires state == LenExtra
      ensures |tableSizes| == 3 ==>
              Place() == CLenRun(final % 2 == 1, tableSizes[0], tableSizes[1], lenSizes[..], Got(), dist)
      ensures StateOk() <==>
              (zAdler == 1 && LensReady() && 16 <= dist <= 18 && (dist == 16 ==> counter > 0) &&
                  numExtra == Deflate.RepeatBits(dist))
    {
      hide Usable;
    }

    // ---------- the zlib header ----------

    method StepBegin()
      requires Valid() && state == Begin
      modifies this`state, this`zAdler, this`checkAdler
      ensures Tight()
      ensures Valid() && Goal() == old(Goal()) && state != Begin && state in {ZlibCmf, BlockHead} && checkAdler == 1
    {
      hide Shape, Separate, LitLens, DistLens, CodesReady, Got;
      hide Valid, StateOk, Place, Goal, Lean, Means, Reader.Valid, Reader.Pending, Output.Valid, TStart;
      Leave();
      AtBegin();
      zAdler, checkAdler := 1, 1;
      if mode.zlib {
        state := ZlibCmf;
        AtZlibCmf();
      } else {
        StartRaw(mode, r.Pending(), out.hist);
        state := BlockHead;
        AtBlockHead();
      }
      Enter();
    }

    lemma AtBegin()
      requires state == Begin
      ensures Place() == CStart
      ensures StateOk() <==> (r.numBits == 0 && clean)
    {
      hide Usable, Effective, OutputBuffer.Place;
    }

    method StepZlibCmf(more: bool) returns (y: Yield)
      requires Valid() && state == ZlibCmf
      modifies this`state, this`zhdr0, r`pos
      ensures y.Go? ==> Tight()
      ensures Valid() && Goal() == old(Goal()) && state != Begin && clean
      ensures y.Go? ==> |r.Pending()| < |old(r.Pending())|
      ensures y.Stop? ==> y == Starved(more) && Starving()
    {
      hide Shape, Separate, LitLens, DistLens, CodesReady, Got;
      hide Valid, StateOk, Place, Goal, Lean, Starving, Means, Reader.Valid, Reader.Pending, Output.Valid;
      hide FromBits, ToBits, Buffered;
      Leave();
      AtZlibCmf();
      InputLeft();
      if r.pos >= |r.input| {
        EmptyBuffer(r);
        StuckBits(mode, CStart, [], out.hist, clean, 8);
        Starve(CStart);
        return Starved(more);
      }
      var c := r.NextByte();
      StartMeans(mode, c, r.Pending(), out.hist, clean);
      zhdr0 := c;
      state := ZlibFlg;
      AtZlibFlg();
      Enter();
      y := Go;
    }

    lemma AtZlibCmf()
      requires state == ZlibCmf
      ensures Place() == CStart
      ensures StateOk() <==> (zAdler == 1 && r.numBits == 0 && mode.zlib && clean)
    {
      hide Usable, Effective, OutputBuffer.Place;
    }

    method StepZlibFlg(more: bool) returns (y: Yield)
      requires Valid() && state == ZlibFlg
      modifies this`state, r`pos
      ensures y.Go? ==> Tight()
      ensures Valid() && Goal() == old(Goal()) && state != Begin
      ensures y.Go? ==> |r.Pending()| < |old(r.Pending())|
      ensures y.Stop? ==> y == Starved(more) && Starving()
    {
      hide Shape, Separate, LitLens, DistLens, CodesReady, Got;
      hide Valid, StateOk, Place, Goal, Lean, Starving, Means, Reader.Valid, Reader.Pending, Output.Valid;
      hide FromBits, ToBits, Buffered, HeaderOk;

      Leave();
      AtZlibFlg();
      InputLeft();
      if r.pos >= |r.input| {
        EmptyBuffer(r);
        StuckBits(mode, CHeader(zhdr0), [], out.hist, clean, 8);
        Starve(CHeader(zhdr0));
        return Starved(more);
      }
      var flg := r.NextByte();
      HeaderMeans(mode, zhdr0, flg, r.Pending(), out.hist);
      var ok := CheckHeader(flg);
      state := if ok then BlockHead else Failed;
      if ok {
        AtBlockHead();
      } else {
        AtFailed();
      }
      Enter();
      y := Go;
    }

    lemma AtZlibFlg()
      requires state == ZlibFlg
      ensures Place() == CHeader(zhdr0)
      ensures StateOk() <==> (zAdler == 1 && r.numBits == 0 && mode.zlib && clean)
    {
      hide Usable, Effective, OutputBuffer.Place;
    }

    /** The tests on the two header bytes. */
    method CheckHeader(flg: Byte) returns (ok: bool)
      ensures ok <==> HeaderOk(mode.reach, zhdr0, flg)
    {
      var bad := (zhdr0 * 256 + flg) % 31 != 0 || (flg / 32) % 2 == 1 || zhdr0 % 16 != 8;
      match mode.reach {
        case Linear =>
        case Ring(m) =>
          bad := bad || Pow2(8 + zhdr0 / 16) > 32768 || m < Pow2(8 + zhdr0 / 16);
      }
      ok := !bad;
    }

    // ---------- block headers ----------

    /** Builds the tables of both codes, distances first. */
    method BuildCodes() returns (ok: bool)
      requires Shape() && |tableSizes| == 3 && tableSizes[0] <= 288 && tableSizes[1] <= 32
      requires (forall i :: 0 <= i < tableSizes[0] ==> litSizes[i] <= 15)
      requires (forall i :: 0 <= i < tableSizes[1] ==> distSizes[i] <= 15)
      modifies litTable.lookUp, litTable.tree, distTable.lookUp, distTable.tree
      ensures ok <==> HuffmanTable.Acceptable(LitLens()) && HuffmanTable.Acceptable(DistLens())
      ensures ok ==> CodesReady()
    {
      hide HuffmanTable.Acceptable, Table.Holds;
      ok := distTable.Build(distSizes, tableSizes[1]);
      if ok {
        ok := litTable.Build(litSizes, tableSizes[0]);
      }
    }

    /** The lengths of the fixed codes. */
    method FixedSizes()
      requires Shape()
      modifies litSizes, distSizes, this`tableSizes
      ensures |tableSizes| == 3 && tableSizes[0] == 288 && tableSizes[1] == 32
      ensures litSizes[..] == Deflate.FixedLit() && distSizes[..] == Deflate.FixedDist()
    {
      tableSizes := [288, 32, 0];
      BlockWriter.Fill(distSizes, 0, 32, 5);
      BlockWriter.Fill(litSizes, 0, 144, 8);
      BlockWriter.Fill(litSizes, 144, 256, 9);
      BlockWriter.Fill(litSizes, 256, 280, 7);
      BlockWriter.Fill(litSizes, 280, 288, 8);
      BlockHeader.FixedLitShape();
      assert |Deflate.FixedLit()| == 288;
      hide Deflate.FixedLit;
      assert litSizes[..] == Deflate.FixedLit();
    }

    /** The codes of a block of type 1. */
    method FixedCodes()
      requires Shape()
      modifies litSizes, distSizes, this`tableSizes, litTable.lookUp, litTable.tree, distTable.lookUp, distTable.tree
      ensures CodesReady() && LitLens() == Deflate.FixedLit() && DistLens() == Deflate.FixedDist()
    {
      hide Deflate.FixedLit, Deflate.FixedDist, Usable, HuffmanTable.Acceptable;
      FixedSizes();
      assert litSizes[..288] == litSizes[..] && distSizes[..32] == distSizes[..];
      BlockHeader.FixedLitFits();
      BlockHeader.FixedDistFits();
      FixedBounds();
      var ok := BuildCodes();
    }

    /** `TINFL_SKIP_BITS(5, num_bits & 7)` */
    method Align()
      requires r.Valid()
      modifies r`bitBuf, r`numBits
      ensures r.Valid() && r.Pending() == FromByte(old(r.Pending()))
      ensures r.numBits == old(r.numBits) / 8 * 8
    {
      hide ToBits, FromBits, ByteBits, Suffix, Pow2;
      WholeLeft(r);
      var v := r.TakeBits(r.numBits % 8);
    }

    method StepBlockHead(more: bool) returns (y: Yield)
      requires Valid() && state == BlockHead
      modifies this`state, this`final, this`tableSizes, this`rawHeader, this`counter, r`pos, r`bitBuf, r`numBits
      modifies litSizes, distSizes, litTable.lookUp, litTable.tree, distTable.lookUp, distTable.tree
      ensures y.Go? ==> Tight()
      ensures Valid() && Goal() == old(Goal()) && state != Begin
      ensures y.Go? ==> |r.Pending()| < |old(r.Pending())|
      ensures y.Stop? ==> y == Starved(more) && Starving()
    {
      hide Shape, Separate, LitLens, DistLens, CodesReady, Got;
      hide Valid, StateOk, Place, Goal, Lean, Starving, Means, Reader.Valid, Reader.Pending, Output.Valid, Usable;
      hide FromBits, FromByte, Deflate.FixedLit, Deflate.FixedDist, Buffered;

      Leave();
      AtBlockHead();
      ghost var p, h := r.Pending(), out.hist;
      var ok, v := GetBits(3);
      if !ok {
        AtBlockHead();
        BufferedSize(r);
        StuckBits(mode, CBlocks, Buffered(r), h, clean, 3);
        Starve(CBlocks);
        return Starved(more);
      }
      BlockHeadStep(mode, p, h, clean);
      final := v;
      EnterBlock(v);
      y := Go;
    }

    // ---------- the end of a block ----------

    /** On to the next block, or past the end of the stream. */
    method AfterBlock() returns (y: Yield)
      requires Shape() && Separate() && r.Valid() && out.Valid() && zAdler == 1 && Tight()
      modifies this`state, this`counter, r`pos, r`bitBuf, r`numBits
      ensures y.Go? ==> Tight()
      ensures y.Go? ==> (Valid() && state != Begin && Goal() ==
              TAfter(mode, final % 2 == 1, old(r.Pending()), out.hist, clean) &&
                  state in {BlockHead, Trailer, Finished})
      ensures y.Go? ==> |r.Pending()| <= |old(r.Pending())|
      ensures y.Stop? ==> y.status == Aborted && !Sure()
      ensures y.Stop? <==> final % 2 == 1 && old(r.numBits) / 8 > old(r.pos)
    {
      hide Shape, Separate, LitLens, DistLens, CodesReady, Got;
      hide Valid, StateOk, Place, Goal, Lean, Starving, Means, Reader.Valid, Reader.Pending, Output.Valid;
      hide Usable, FromByte, TAfter, Buffered;

      AfterStep(mode, r.Pending(), out.hist, clean);
      y := Go;
      if final % 2 == 0 {
        state := BlockHead;
        AtBlockHead();
      } else {
        Align();
        ghost var n := r.numBits;
        r.PutBack();
        AllBack(n, old(r.numBits) / 8, old(r.pos), r.numBits, r.pos);
        if r.numBits != 0 {
          return Stop(Aborted);
        }
        counter := 0;
        state := if mode.zlib then Trailer else Finished;
        if mode.zlib {
          AtTrailer();
        } else {
          AtFinished();
        }
      }
      Enter();
    }

    // ---------- stored blocks ----------

    /** What is left of a stored block: bytes in the bit buffer first, then bytes of the input. */
    method EnterRaw() returns (y: Yield)
      requires Shape() && Separate() && r.Valid() && out.Valid() && zAdler == 1 && Tight() && r.numBits % 8 == 0
      modifies this`state, this`counter, r`pos, r`bitBuf, r`numBits
      ensures y.Go? ==> Tight()
      ensures y.Go? ==> Valid() && state != Begin &&
                        Goal() == TBytes(mode, final % 2 == 1, old(counter), old(r.Pending()), out.hist, clean)
      ensures y.Go? ==> state in {RawBuffered, RawCopy, BlockHead, Trailer, Finished} &&
                        |r.Pending()| <= |old(r.Pending())|
      ensures y.Stop? ==> y.status == Aborted && !Sure()
    {
      hide Output.Valid, Reader.Valid, Reader.Pending, FromByte, TAfter, TBytes;
      y := Go;
      if counter == 0 {
        BytesDone(mode, final % 2 == 1, r.Pending(), out.hist, clean);
        y := AfterBlock();
      } else {
        state := if r.numBits > 0 then RawBuffered else RawCopy;
      }
    }

    /** A byte, from the bit buffer if it holds any. */
    method AlignedByte() returns (ok: bool, v: Byte)
      requires r.Valid() && r.numBits % 8 == 0
      modifies r`pos, r`bitBuf, r`numBits
      ensures r.Valid() && r.numBits % 8 == 0 && old(r.pos) <= r.pos
      ensures ok ==> |old(r.Pending())| >= 8 && v == FromBits(old(r.Pending())[..8]) &&
                     r.Pending() == old(r.Pending())[8..]
                     && r.numBits - 8 * r.pos == old(r.numBits) - 8 * old(r.pos) - 8
      ensures !ok ==> r.numBits == 0 && r.pos == |r.input| && unchanged(r)
    {
      hide ToBits, FromBits, ByteBits, Suffix, Pow2;
      v, ok := 0, true;
      if r.numBits > 0 {
        Pow2Values();
        v := r.TakeBits(8);
      } else if r.pos >= |r.input| {
        ok := false;
      } else {
        v := r.NextByte();
        FirstEight(v, r.Pending());
      }
    }

    method StepRawHeader(more: bool) returns (y: Yield)
      requires Valid() && state == RawHeader
      modifies this`state, this`counter, this`rawHeader, r`pos, r`bitBuf, r`numBits
      ensures y.Go? ==> Tight()
      ensures y != Stop(Aborted) ==> Valid() && Goal() == old(Goal()) && state != Begin
      ensures y.Go? ==> |r.Pending()| < |old(r.Pending())|
      ensures y.Stop? ==> (y == Starved(more) && Starving()) || (y == Stop(Aborted) && !Sure())
    {
      hide Valid, StateOk, Place, Goal, Lean, Starving, Means, Reader.Valid, Reader.Pending, Output.Valid;
      hide Usable, Buffered;
      hide Shape, Separate, LitLens, DistLens, CodesReady, Got, FromBits;

      Leave();
      AtRawHeader();
      ghost var p := r.Pending();
      var ok, v := AlignedByte();
      if !ok {
        BufferedSize(r);
        StuckBits(mode, Place(), Buffered(r), out.hist, clean, 8);
        Starve(Place());
        return Starved(more);
      }
      RawStep(mode, final % 2 == 1, rawHeader, p, out.hist, clean);
      rawHeader := rawHeader + [v];
      y := Go;
      if |rawHeader| == 4 {
        RawMeans(mode, final % 2 == 1, rawHeader, r.Pending(), out.hist, clean);
        y := RawLength();
      } else {
        AtRawHeader();
        Enter();
      }
    }

    /** The length of a stored block and its complement. */
    method RawLength() returns (y: Yield)
      requires Shape() && Separate() && r.Valid() && out.Valid() && zAdler == 1 && Tight() && r.numBits % 8 == 0
      requires |rawHeader| == 4
      modifies this`state, this`counter, r`pos, r`bitBuf, r`numBits
      ensures y.Go? ==> Tight()
      ensures y.Go? ==> (Valid() && state != Begin && Goal() ==
              TRaw(mode, final % 2 == 1, rawHeader, old(r.Pending()), out.hist, clean) &&
                  |r.Pending()| <= |old(r.Pending())|)
      ensures y.Stop? ==> y.status == Aborted && !Sure()
    {
      hide Shape, Separate, LitLens, DistLens, CodesReady, Got;
      hide Valid, StateOk, Place, Goal, Lean, Starving, Means, Reader.Valid, Reader.Pending, Output.Valid;
      hide Usable, FromByte, TAfter, TBytes, Buffered;

      RawDone(mode, final % 2 == 1, rawHeader, r.Pending(), out.hist, clean);
      RawMeans(mode, final % 2 == 1, rawHeader, r.Pending(), out.hist, clean);
      counter := rawHeader[0] as int + 256 * (rawHeader[1] as int);
      BytesMeans(mode, final % 2 == 1, counter, r.Pending(), out.hist, clean);
      if counter + (rawHeader[2] as int + 256 * (rawHeader[3] as int)) != 65535 {
        state := Failed;
        AtFailed();
        FailedNone(mode, r.Pending(), out.hist, clean);
        Enter();
        return Go;
      }
      y := EnterRaw();
    }

    method StepRawBuffered() returns (y: Yield)
      requires Valid() && state == RawBuffered
      modifies this`state, this`dist, r`pos, r`bitBuf, r`numBits
      ensures y.Go? ==> Tight()
      ensures Valid() && Goal() == old(Goal()) && state != Begin && y.Go? && |r.Pending()| < |old(r.Pending())|
    {
      hide Valid, StateOk, Place, Goal, Lean, Starving, Means, Reader.Valid, Reader.Pending, Output.Valid;
      hide Usable, Buffered;
      hide Shape, Separate, LitLens, DistLens, CodesReady, Got, FromBits, TBytes;

      Leave();
      AtRawBuffered();
      ghost var p := r.Pending();
      var ok, v := AlignedByte();
      BytesStep(mode, final % 2 == 1, counter, p, out.hist, clean);
      dist := v;
      state := RawPut;
      AtRawPut();
      Enter();
      y := Go;
    }

    method StepRawPut() returns (y: Yield)
      requires Valid() && state == RawPut
      modifies this`state, this`counter, r`pos, r`bitBuf, r`numBits, out`pos, out`hist, out.buf
      ensures old(out.pos) <= out.pos
      ensures y.Go? ==> Tight()
      ensures y != Stop(Aborted) ==> Valid() && Goal() == old(Goal()) && state != Begin
      ensures y.Go? ==> |r.Pending()| <= |old(r.Pending())| && out.pos > old(out.pos)
      ensures y.Stop? ==>
              (y == Stop(HasMoreOutput) && out.pos == out.end && unchanged(this) && unchanged(r)) ||
                  (y == Stop(Aborted) && !Sure())
    {
      hide Valid, StateOk, Place, Goal, Lean, Starving, Means, Reader.Valid, Reader.Pending, Output.Valid;
      hide Usable, Buffered;
      hide LitLens, DistLens, CodesReady, Got, OutputBuffer.Keeps, FromBits, TBytes;

      Leave();
      AtRawPut();
      OutRoom();
      if out.pos >= out.end {
        return Stop(HasMoreOutput);
      }
      PutMeans(mode, final % 2 == 1, counter - 1, dist, r.Pending(), out.hist, clean);
      out.Put(dist);
      counter := counter - 1;
      y := EnterRaw();
    }

    method StepRawCopy(more: bool) returns (y: Yield)
      requires Valid() && state == RawCopy
      modifies this`state, this`counter, r`pos, r`bitBuf, r`numBits, out`pos, out`hist, out.buf
      ensures old(out.pos) <= out.pos
      ensures y.Go? ==> Tight()
      ensures y != Stop(Aborted) ==> Valid() && Goal() == old(Goal()) && state != Begin
      ensures y.Go? ==> |r.Pending()| < |old(r.Pending())| && out.pos >= old(out.pos)
      ensures y.Stop? ==> (y == Stop(HasMoreOutput) && out.pos == out.end && unchanged(this) && unchanged(r))
                          || (y == Starved(more) && Starving() && out.pos >= old(out.pos)) ||
                              (y == Stop(Aborted) && !Sure())
    {
      hide Valid, StateOk, Place, Goal, Lean, Starving, Means, Reader.Valid, Reader.Pending, Output.Valid;
      hide Usable, Buffered;
      hide LitLens, DistLens, CodesReady, Got, OutputBuffer.Keeps, TBytes;

      Leave();
      AtRawCopy();
      OutRoom();
      InputLeft();
      if out.pos >= out.end {
        return Stop(HasMoreOutput);
      }
      if r.pos >= |r.input| {
        EmptyBuffer(r);
        StuckBits(mode, CBytes(final % 2 == 1, counter), [], out.hist, clean, 8);
        Starve(CBytes(final % 2 == 1, counter));
        return Starved(more);
      }
      BytesMeans(mode, final % 2 == 1, counter, r.Pending(), out.hist, clean);
      CopyBytes();
      y := EnterRaw();
    }

    /** `TINFL_MEMCPY(pOut_buf_cur, pIn_buf_cur, n)` */
    method CopyBytes()
      requires Shape() && Separate() && r.Valid() && out.Valid() && r.numBits == 0 && counter > 0
      requires out.pos < out.end && r.pos < |r.input|
      modifies this`counter, r`pos, out`pos, out`hist, out.buf
      ensures r.Valid() && out.Valid() && r.numBits == 0 && old(r.pos) <= r.pos
      ensures |r.Pending()| < |old(r.Pending())| && out.pos >= old(out.pos)
      ensures TBytes(mode, final % 2 == 1, counter, r.Pending(), out.hist, clean) ==
              old(TBytes(mode, final % 2 == 1, counter, r.Pending(), out.hist, clean))
    {
      hide Output.Valid, Reader.Valid, Reader.Pending, ToBits, FromBits, ByteBits, Pow2, TBytes;
      var n := if out.end - out.pos < |r.input| - r.pos then out.end - out.pos else |r.input| - r.pos;
      n := if counter < n then counter else n;
      var i := 0;
      while i < n
        invariant 0 <= i <= n && r.Valid() && out.Valid() && r.numBits == 0 && r.pos == old(r.pos) + i
        invariant out.pos == old(out.pos) + i
        invariant counter == old(counter) - i
        invariant (if i > 0 then |r.Pending()| < |old(r.Pending())| else r.Pending() == old(r.Pending()))
        invariant TBytes(mode, final % 2 == 1, counter, r.Pending(), out.hist, clean) ==
                  old(TBytes(mode, final % 2 == 1, counter, r.Pending(), out.hist, clean))
        invariant out.end == old(out.end)
      {
        CopyByte();
        i := i + 1;
      }
    }

    method CopyByte()
      requires r.Valid() && out.Valid() && r.numBits == 0 && counter > 0 && out.pos < out.end && r.pos < |r.input|
      modifies this`counter, r`pos, out`pos, out`hist, out.buf
      ensures r.Valid() && out.Valid() && r.pos == old(r.pos) + 1 && out.pos == old(out.pos) + 1
      ensures counter == old(counter) - 1
      ensures |r.Pending()| < |old(r.Pending())|
      ensures TBytes(mode, final % 2 == 1, counter, r.Pending(), out.hist, clean) ==
              old(TBytes(mode, final % 2 == 1, counter, r.Pending(), out.hist, clean))
    {
      hide Output.Valid, Reader.Valid, Reader.Pending, ToBits, FromBits, ByteBits, Pow2, TBytes;
      ghost var p, h := r.Pending(), out.hist;
      var c := r.NextByte();
      FirstEight(c, r.Pending());
      BytesStep(mode, final % 2 == 1, counter, p, h, clean);
      out.Put(c);
      counter := counter - 1;
    }

    // ---------- the header of a dynamic block ----------

    method StepTableSize(more: bool) returns (y: Yield)
      requires Valid() && state == TableSize
      modifies this`state, this`counter, this`tableSizes, r`pos, r`bitBuf, r`numBits, lenSizes
      ensures y.Go? ==> Tight()
      ensures Valid() && Goal() == old(Goal()) && state != Begin
      ensures y.Go? ==> |r.Pending()| < |old(r.Pending())|
      ensures y.Stop? ==> y == Starved(more) && Starving()
    {
      hide Valid, StateOk, Place, Goal, Lean, Starving, Means, Reader.Valid, Reader.Pending, Output.Valid, Usable;
      hide Shape, Separate, LitLens, DistLens, CodesReady, Got;
      hide FromBits, Canonical.Repeated, Buffered;

      Leave();
      AtTableSize();
      ghost var p, h, fin := r.Pending(), out.hist, final % 2 == 1;
      var k := |tableSizes|;
      var ok, v := GetBits(SizeBits(k));
      if !ok {
        AtTableSize();
        BufferedSize(r);
        StuckBits(mode, CSizes(fin, tableSizes), Buffered(r), h, clean, SizeBits(k));
        Starve(CSizes(fin, tableSizes));
        return Starved(more);
      }
      SizesStep(mode, fin, tableSizes, p, h, clean);
      SizeBound(k, p);
      tableSizes := tableSizes + [v + SizeMin(k)];
      y := Go;
      if |tableSizes| == 3 {
        StartLengths();
      } else {
        AtTableSize();
        Enter();
      }
    }

    /** After the three sizes, the lengths of the code for lengths. */
    method StartLengths()
      requires Base() && Tight() && zAdler == 1 && SizesReady() && 4 <= tableSizes[2] <= 19
      modifies this`state, this`counter, lenSizes
      ensures Tight() && Valid() && state == CodeLength
      ensures Goal() == Means(mode, CSizes(final % 2 == 1, tableSizes), r.Pending(), out.hist, clean)
    {
      hide Valid, StateOk, Place, Goal, Lean, Means, Reader.Valid, Reader.Pending, Output.Valid, Canonical.Repeated;
      hide LitLens, DistLens, CodesReady, Got;
      ClearLens();
      counter := 0;
      state := CodeLength;
      SizesDone(mode, final % 2 == 1, tableSizes, r.Pending(), out.hist, clean);
      AtCodeLength();
      Enter();
    }

    method StepCodeLength(more: bool) returns (y: Yield)
      requires Valid() && state == CodeLength
      modifies this`state, this`counter, this`tableSizes, r`pos, r`bitBuf, r`numBits, lenSizes
      modifies lenTable.lookUp, lenTable.tree
      ensures y.Go? ==> Tight()
      ensures Valid() && Goal() == old(Goal()) && state != Begin
      ensures y.Go? ==> |r.Pending()| < |old(r.Pending())|
      ensures y.Stop? ==> y == Starved(more) && Starving()
    {
      hide Valid, StateOk, Place, Goal, Lean, Starving, Means, Reader.Valid, Reader.Pending, Output.Valid, Usable;
      hide Shape, Separate, FromBits, Buffered, Deflate.Order;
      Leave();
      AtCodeLength();
      ghost var p, h, c := r.Pending(), out.hist, Place();
      var ok, v := GetBits(3);
      if !ok {
        AtCodeLength();
        BufferedSize(r);
        StuckBits(mode, c, Buffered(r), h, clean, 3);
        Starve(c);
        return Starved(more);
      }
      OrderStep(mode, final % 2 == 1, tableSizes, counter, lenSizes[..], p, h, clean);
      SmallLength(p);
      TakeLength(v);
      y := Go;
    }

    /** On with one more length of the code-length code. */
    method TakeLength(v: nat)
      requires Base() && Tight() && zAdler == 1 && state == CodeLength && SizesReady() && counter < tableSizes[2] <= 19
      requires lenSizes.Length == 19 && v < 8 && forall i :: 0 <= i < 19 ==> lenSizes[i] < 8
      modifies this`state, this`counter, this`tableSizes, lenSizes, lenTable.lookUp, lenTable.tree
      ensures Tight() && Valid() && state != Begin
      ensures Goal() == old(Means(mode,
                COrder(final % 2 == 1, tableSizes, counter + 1, lenSizes[..][Deflate.Order(counter) := v]),
                r.Pending(), out.hist, clean))
    {
      hide Valid, StateOk, Place, Goal, Lean, Means, Reader.Valid, Reader.Pending, Output.Valid, Usable, Deflate.Order;
      lenSizes[Deflate.Order(counter)] := v;
      counter := counter + 1;
      if counter == tableSizes[2] {
        BuildLens();
      } else {
        AtCodeLength();
        Enter();
      }
    }

    /** All lengths of the code-length code are there. */
    method BuildLens()
      requires Shape() && Separate() && r.Valid() && out.Valid() && zAdler == 1 && Tight()
      requires SizesReady() && counter == tableSizes[2] && forall i :: 0 <= i < 19 ==> lenSizes[i] < 8
      modifies this`state, this`counter, this`tableSizes, lenTable.lookUp, lenTable.tree
      ensures Tight()
      ensures Valid() && state != Begin
      ensures Goal() == old(Means(mode, COrder(final % 2 == 1, tableSizes, counter, lenSizes[..]), r.Pending(),
              out.hist, clean))
    {
      hide Valid, StateOk, Place, Goal, Lean, Starving, Means, Reader.Valid, Reader.Pending, Output.Valid, Table.For;
      hide HuffmanTable.Acceptable, LitLens, DistLens, CodesReady;
      OrderDone(mode, final % 2 == 1, tableSizes, counter, lenSizes[..], r.Pending(), out.hist, clean);
      FailedNone(mode, r.Pending(), out.hist, clean);
      tableSizes := tableSizes[2 := 19];
      assert lenSizes[..19] == lenSizes[..];
      var ok := lenTable.Build(lenSizes, 19);
      counter := 0;
      assert lenCodes[..0] == [];
      state := if ok then LenCode else Failed;
      if ok {
        AtLenCode();
      } else {
        AtFailed();
      }
      Enter();
    }

    /** Finds the next symbol; a bit string that is no code leaves the stream unclean. */
    method NextSymbol(t: Table, ghost lens: Lens, resumed: bool) returns (ok: bool, sym: nat, ghost hit: Hit)
      requires r.Valid() && Usable(t, lens) && (resumed ==> r.numBits < 15 && Lookup(lens, Buffered(r)) == None)
      requires Sure() ==>
               r.numBits < 8 * r.pos + 8 || (asked && r.numBits == |r.carry| + 8 * r.pos &&
                   Lookup(lens, r.carry) == None)
      modifies this`clean, r`pos, r`bitBuf, r`numBits
      ensures r.Valid() && old(r.pos) <= r.pos
      ensures ok ==> (Lookup(lens, old(r.Pending())) == Some(hit) && sym == hit.sym && (sym < |lens| || sym == 0) &&
              r.Pending() == old(r.Pending())[hit.len..])
      ensures ok ==> clean == (old(clean) && !hit.missed) && Tight()
      ensures ok && hit.len == 0 ==> sym == 0
      ensures !ok ==> (r.Pending() == old(r.Pending()) && r.pos == |r.input| && r.numBits < 15 &&
              Lookup(lens, Buffered(r)) == None && clean == old(clean) &&
              r.numBits - 8 * r.pos == old(r.numBits) - 8 * old(r.pos))
    {
      hide Lookup, ToBits, ByteBits, Usable, Suffix;
      UsableFits(t, lens);
      ghost var p, carry, n := r.Pending(), r.carry, r.numBits - 8 * r.pos;
      CarryFirst(r);
      ok, sym, hit := Decode(r, t, lens, resumed);
      if ok {
        SymbolBound(lens, p);
        if hit.len == 0 {
          NoBits(lens, p);
        }
        if clean && !hit.missed {
          LeanAfter(lens, p, carry, n);
        }
        clean := clean && !hit.missed;
      }
    }

    method StepLenCode(more: bool, resumed: bool) returns (y: Yield)
      requires Valid() && state == LenCode && (resumed ==> Parked())
      modifies this`state, this`counter, this`dist, this`numExtra, this`clean, r`pos, r`bitBuf, r`numBits
      modifies lenCodes, litSizes, distSizes, litTable.lookUp, litTable.tree, distTable.lookUp, distTable.tree
      ensures y.Go? ==> Tight()
      ensures Valid() && Goal() == old(Goal()) && state != Begin
      ensures y.Go? ==> |r.Pending()| <= |old(r.Pending())| && (state == LenCode ==> LensLeft() < old(LensLeft()))
      ensures y.Go? ==> state in {LenCode, Symbol, Failed} || (state == LenExtra && |r.Pending()| < |old(r.Pending())|)
      ensures y.Stop? ==> y == Starved(more) && Starving()
    {
      hide Shape, Separate, LensReady, SizesReady, Got, Sure;
      hide Valid, StateOk, Place, Goal, Lean, Starving, Means, Reader.Valid, Reader.Pending, Output.Valid;
      hide Usable, Lookup, Buffered;

      Leave();
      AtLenCode();
      LensAre();
      ghost var p, h, c0, fin, nlit, ndist, lens, acc := r.Pending(), out.hist, clean, final % 2 == 1, tableSizes[0],
          tableSizes[1], lenSizes[..], Got();
      ParkedAt(Place());
      var ok, sym;
      ghost var hit;
      ok, sym, hit := NextSymbol(lenTable, lens, resumed);
      if !ok {
        AtLenCode();
        StuckLookup(mode, CLens(fin, nlit, ndist, lens, acc), Buffered(r), h, clean);
        Starve(CLens(fin, nlit, ndist, lens, acc));
        return Starved(more);
      }
      LensStep(mode, fin, nlit, ndist, lens, acc, p, h, c0);
      LenSymbol(sym);
      y := Go;
    }

    lemma LensAre()
      requires LensReady()
      ensures Usable(lenTable, lenSizes[..]) && lenSizes.Length == 19 && |tableSizes| == 3 && counter <= lenCodes.Length
      ensures |Got()| < tableSizes[0] + tableSizes[1] && (counter > 0 ==> Got() != [])
    {
    }

    /** On with a symbol of the code-length code. */
    method LenSymbol(sym: nat)
      requires Base() && Tight() && zAdler == 1 && state == LenCode && LensReady() && sym < 19
      modifies this`state, this`counter, this`dist, this`numExtra, lenCodes, litSizes, distSizes, litTable.lookUp
      modifies litTable.tree, distTable.lookUp, distTable.tree
      ensures Tight() && Valid() && (state in {LenCode, Symbol, Failed} || (state == LenExtra && sym >= 16))
      ensures state == LenCode ==> LensLeft() < old(LensLeft())
      ensures SizesReady()
      ensures Goal() == Means(mode, if sym < 16 then
              CLens(final % 2 == 1, tableSizes[0], tableSizes[1], old(lenSizes[..]), old(Got()) + [sym])
                                                else
                                                    CLenRun(final % 2 == 1, tableSizes[0], tableSizes[1],
                                                        old(lenSizes[..]),
                                                    old(Got()), sym), r.Pending(), out.hist, clean)
    {
      hide Tight, Sure;
      hide Shape, Separate;
      hide Valid, StateOk, Place, Goal, Lean, Starving, Means, Reader.Valid, Reader.Pending, Output.Valid;
      hide Usable, Lookup, Buffered;
      ghost var h, fin, nlit, ndist, lens := out.hist, final % 2 == 1, tableSizes[0], tableSizes[1], lenSizes[..];
      if sym < 16 {
        AppendLen(sym);
        LensMeans(mode, fin, nlit, ndist, lens, Got(), r.Pending(), h, clean);
        LensMore();
      } else if sym == 16 && counter == 0 {
        RunNone(mode, fin, nlit, ndist, lens, r.Pending(), h, clean);
        state := Failed;
        AtFailed();
        Enter();
        FailedNone(mode, r.Pending(), h, clean);
      } else {
        dist, numExtra := sym, Deflate.RepeatBits(sym);
        state := LenExtra;
        AtLenExtra();
        Enter();
      }
    }

    /** After some more code lengths. */
    method LensMore()
      requires Shape() && Separate() && r.Valid() && out.Valid() && zAdler == 1 && Tight()
      requires SizesReady() && counter <= 457 && Usable(lenTable, lenSizes[..]) && forall i :: 0 <= i < counter ==>
               lenCodes[i] <= 15
      modifies this`state, litSizes, distSizes, litTable.lookUp, litTable.tree, distTable.lookUp, distTable.tree
      ensures Tight()
      ensures Valid() && state in {LenCode, Symbol, Failed}
      ensures state != Begin
      ensures Goal() == TLens(mode, final % 2 == 1, tableSizes[0], tableSizes[1], old(lenSizes[..]), old(Got()),
              r.Pending(), out.hist, clean)
    {
      hide LitLens, DistLens, Got;
      hide Valid, StateOk, Place, Goal, Lean, Starving, Means, Reader.Valid, Reader.Pending, Output.Valid;
      hide Usable, Buffered;

      LensMeans(mode, final % 2 == 1, tableSizes[0], tableSizes[1], lenSizes[..], Got(), r.Pending(), out.hist, clean);
      if counter < tableSizes[0] + tableSizes[1] {
        state := LenCode;
        AtLenCode();
        Enter();
      } else {
        FinishLens();
      }
    }

    /** All code lengths are there: the two codes of the block. */
    method FinishLens()
      requires Shape() && Separate() && r.Valid() && out.Valid() && zAdler == 1 && Tight()
      requires SizesReady() && tableSizes[0] + tableSizes[1] <= counter <= 457 && forall i :: 0 <= i < counter ==>
               lenCodes[i] <= 15
      modifies this`state, litSizes, distSizes, litTable.lookUp, litTable.tree, distTable.lookUp, distTable.tree
      ensures Tight()
      ensures Valid() && state in {Symbol, Failed}
      ensures state != Begin
      ensures Goal() == TLens(mode, final % 2 == 1, tableSizes[0], tableSizes[1], old(lenSizes[..]), old(Got()),
              r.Pending(), out.hist, clean)
    {
      hide Tight, Sure;
      hide FromBits;
      hide Lookup;
      hide CodesReady;
      hide Valid, StateOk, Place, Goal, Lean, Starving, Means, Reader.Valid, Reader.Pending, Output.Valid;
      hide Usable, HuffmanTable.Acceptable, Buffered;

      ghost var fin, nlit, p, h, acc := final % 2 == 1, tableSizes[0], r.Pending(), out.hist, Got();
      LensMeans(mode, fin, nlit, tableSizes[1], lenSizes[..], acc, p, h, clean);
      LensDone(mode, fin, nlit, tableSizes[1], lenSizes[..], acc, p, h, clean);
      FailedNone(mode, p, h, clean);
      if counter != tableSizes[0] + tableSizes[1] {
        state := Failed;
        AtFailed();
        Enter();
        return;
      }
      SplitLens();
      StartSymbols();
    }

    /** Builds the two codes. */
    method StartSymbols()
      requires Base() && Tight() && zAdler == 1 && SizesReady()
      requires (forall i :: 0 <= i < tableSizes[0] ==> litSizes[i] <= 15)
      requires (forall i :: 0 <= i < tableSizes[1] ==> distSizes[i] <= 15)
      modifies this`state, litTable.lookUp, litTable.tree, distTable.lookUp, distTable.tree
      ensures Tight() && Valid()
      ensures state == if HuffmanTable.Acceptable(LitLens()) &&
              HuffmanTable.Acceptable(DistLens()) then Symbol else Failed
      ensures Goal() == Means(mode,
                if state == Symbol then CSyms(final % 2 == 1, old(LitLens()), old(DistLens())) else CFailed,
                r.Pending(), out.hist, clean)
    {
      hide Lookup, CodesReady, HuffmanTable.Acceptable;
      hide Valid, StateOk, Place, Goal, Lean, Starving, Means, Reader.Valid, Reader.Pending, Output.Valid;
      hide Usable, Buffered;
      var ok := BuildCodes();
      state := if ok then Symbol else Failed;
      if ok {
        AtSymbol();
      } else {
        AtFailed();
      }
      Enter();
    }

    method StepLenExtra(more: bool) returns (y: Yield)
      requires Valid() && state == LenExtra
      modifies this`state, this`counter, r`pos, r`bitBuf, r`numBits
      modifies lenCodes, litSizes, distSizes, litTable.lookUp, litTable.tree, distTable.lookUp, distTable.tree
      ensures y.Go? ==> Tight()
      ensures Valid() && Goal() == old(Goal()) && state != Begin
      ensures y.Go? ==> |r.Pending()| < |old(r.Pending())|
      ensures y.Stop? ==> y == Starved(more) && Starving()
    {
      hide Sure, LensReady, SizesReady, Got;
      hide Shape, Separate;
      hide Valid, StateOk, Place, Goal, Lean, Starving, Means, Reader.Valid, Reader.Pending, Output.Valid, Usable;
      hide Canonical.Repeated, FromBits, Buffered;

      Leave();
      AtLenExtra();
      LensAre();
      ghost var p, h, fin, nlit, ndist, lens, acc :=
          r.Pending(), out.hist, final % 2 == 1, tableSizes[0], tableSizes[1], lenSizes[..], Got();
      RepeatSmall(dist);
      var ok, v := GetBits(numExtra);
      if !ok {
        AtLenExtra();
        BufferedSize(r);
        StuckBits(mode, CLenRun(fin, nlit, ndist, lens, acc, dist), Buffered(r), h, clean, numExtra);
        Starve(CLenRun(fin, nlit, ndist, lens, acc, dist));
        return Starved(more);
      }
      LenRunStep(mode, fin, nlit, ndist, lens, acc, dist, p, h, clean);
      RunBound(dist, p);
      ExpandRun(v);
      y := Go;
    }

    /** Repeats a code length. */
    method ExpandRun(v: nat)
      requires Base() && Tight() && zAdler == 1 && LensReady() && 16 <= dist <= 18 && (dist == 16 ==> counter > 0)
      requires v + Deflate.RepeatBase(dist) <= 138
      modifies this`state, this`counter, lenCodes, litSizes, distSizes, litTable.lookUp, litTable.tree
      modifies distTable.lookUp, distTable.tree
      ensures Tight() && Valid() && state in {LenCode, Symbol, Failed}
      ensures SizesReady()
      ensures Goal() == Means(mode, CLens(final % 2 == 1, tableSizes[0], tableSizes[1], old(lenSizes[..]),
                old(Got()) + Canonical.Repeated(if dist == 16 then old(Got()[|Got()| - 1]) else 0,
                    Deflate.RepeatBase(dist) + v)), r.Pending(), out.hist, clean)
    {
      hide FromBits;
      hide Shape, Separate;
      hide Valid, StateOk, Place, Goal, Lean, Starving, Means, Reader.Valid, Reader.Pending, Output.Valid;
      hide Usable, Canonical.Repeated, Buffered;

      var value := if dist == 16 then lenCodes[counter - 1] else 0;
      SetLens(value, v + Deflate.RepeatBase(dist));
      LensMeans(mode, final % 2 == 1, tableSizes[0], tableSizes[1], lenSizes[..], Got(), r.Pending(), out.hist, clean);
      LensMore();
    }

    /** `TINFL_MEMSET(r->m_len_codes + counter, value, s)` */
    method SetLens(value: nat, s: nat)
      requires counter + s <= lenCodes.Length
      modifies lenCodes, this`counter
      ensures counter == old(counter) + s && Got() == old(Got()) + Canonical.Repeated(value, s)
      ensures forall i :: 0 <= i < old(counter) ==> lenCodes[i] == old(lenCodes[i])
      ensures forall i :: old(counter) <= i < counter ==> lenCodes[i] == value
    {
      forall i | counter <= i < counter + s {
        lenCodes[i] := value;
      }
      counter := counter + s;
    }

    // ---------- literals and matches ----------

    /** On with a symbol from 256 up: the end of the block, or a length. */
    method SymbolFound(sym: nat) returns (y: Yield)
      requires Shape() && Separate() && r.Valid() && out.Valid() && zAdler == 1 && Tight()
      requires CodesReady() && 256 <= sym
      modifies this`state, this`counter, this`numExtra, r`pos, r`bitBuf, r`numBits
      ensures y.Go? ==> Tight()
      ensures y.Go? ==> Valid() && |r.Pending()| <= |old(r.Pending())|
      ensures y.Go? ==> state != Begin && Goal() ==
                        (if sym == 256 then TAfter(mode, final % 2 == 1, old(r.Pending()), out.hist, clean)
                                   else Means(mode, AfterSym(final % 2 == 1, LitLens(), DistLens(), sym),
                                       old(r.Pending()), out.hist, clean))
      ensures y.Stop? ==> y.status == Aborted && !Sure()
    {
      hide Shape, Separate, LitLens, DistLens, CodesReady, Got;
      hide Valid, StateOk, Place, Goal, Lean, Starving, Means, Reader.Valid, Reader.Pending, Output.Valid;
      hide Usable, TAfter, LenBase, LenBits, Buffered;

      if sym == 256 {
        y := AfterBlock();
      } else {
        numExtra, counter := LenBits(sym - 257), LenBase(sym - 257);
        state := LengthExtra;
        AtLengthExtra();
        Enter();
        y := Go;
      }
    }

    /** One symbol at a time. */
    method SlowSymbol(more: bool, resumed: bool) returns (y: Yield)
      requires Valid() && state == Symbol && (resumed ==> Parked())
      modifies this`state, this`counter, this`numExtra, this`clean, r`pos, r`bitBuf, r`numBits
      ensures y.Go? ==> Tight()
      ensures y != Stop(Aborted) ==> Valid() && Goal() == old(Goal()) && state != Begin
      ensures y.Go? ==> |r.Pending()| < |old(r.Pending())| ||
                        (|r.Pending()| == |old(r.Pending())| && state == PutLiteral)
      ensures y.Stop? ==> (y == Starved(more) && Starving()) || (y == Stop(Aborted) && Dirty(old(Goal())) && asked)
    {
      hide Tight, Parked;
      hide Dirty;
      hide Shape, Separate, LitLens, DistLens, Got;
      hide Valid, StateOk, Place, Goal, Lean, Starving, Means, Reader.Valid, Reader.Pending, Output.Valid;
      hide Usable, TAfter, Lookup, AfterSym, Buffered;

      Leave();
      AtSymbol();
      ghost var p, h, c0, fin, l, d := r.Pending(), out.hist, clean, final % 2 == 1, LitLens(), DistLens();
      ParkedAt(Place());
      var ok, sym;
      ghost var hit;
      ok, sym, hit := NextSymbol(litTable, l, resumed);
      if !ok {
        AtSymbol();
        StuckLookup(mode, CSyms(fin, l, d), Buffered(r), h, clean);
        Starve(CSyms(fin, l, d));
        return Starved(more);
      }
      SymsStep(mode, fin, l, d, p, h, c0);
      if sym < 256 {
        AfterLiteral(fin, l, d, sym);
        LiteralFound(sym);
        y := Go;
      } else {
        Tainted(mode, fin, l, d, sym, r.Pending(), h, clean);
        y := SymbolFound(sym);
      }
    }

    /** On with a literal. */
    method LiteralFound(sym: nat)
      requires Base() && Tight() && zAdler == 1 && CodesReady() && sym < 256
      modifies this`state, this`counter
      ensures Valid() && Tight() && state == PutLiteral
      ensures Goal() == Means(mode, CLit(final % 2 == 1, LitLens(), DistLens(), sym), r.Pending(), out.hist, clean)
    {
      hide Shape, Separate, LitLens, DistLens, Got, CodesReady;
      hide Valid, StateOk, Place, Goal, Lean, Starving, Means, Reader.Valid, Reader.Pending, Output.Valid;
      hide Usable, Buffered;
      counter := sym;
      state := PutLiteral;
      AtPutLiteral();
      Enter();
    }

    /** Two bytes more if fewer than fifteen bits are buffered, then a symbol. */
    method QuickSymbol() returns (sym: nat, ghost hit: Hit)
      requires r.Valid() && Usable(litTable, LitLens()) && r.pos + 2 <= |r.input|
      requires Tight()
      modifies this`clean, r`pos, r`bitBuf, r`numBits
      ensures r.Valid() && old(r.pos) <= r.pos <= old(r.pos) + 2
      ensures Lookup(LitLens(), old(r.Pending())) == Some(hit) && sym == hit.sym
      ensures r.Pending() == old(r.Pending())[hit.len..]
      ensures clean == (old(clean) && !hit.missed) && Tight() && (hit.len == 0 ==> sym == 0)
    {
      hide Lookup, ToBits, ByteBits, Usable, Suffix;
      ghost var p := r.Pending();
      if r.numBits < 15 {
        r.LoadTwo();
      }
      UsableFits(litTable, LitLens());
      EnoughBuffered(r, LitLens());
      sym, hit := TakeSymbol(r, litTable, LitLens());
      clean := clean && !hit.missed;
      if hit.len == 0 {
        NoBits(LitLens(), p);
      }
    }

    /** Two symbols at a time, while there is plenty of input and room. */
    method FastSymbols() returns (y: Yield)
      requires Valid() && state == Symbol && r.pos + 4 <= |r.input| && out.pos + 2 <= out.end && Tight()
      modifies this`state, this`counter, this`numExtra, this`clean, r`pos, r`bitBuf, r`numBits, out`pos
      modifies out`hist, out.buf
      ensures old(out.pos) <= out.pos
      ensures y.Go? ==> Tight()
      ensures y != Stop(Aborted) ==> Valid() && Goal() == old(Goal()) && state != Begin
      ensures y.Go? ==> (|r.Pending()| <= |old(r.Pending())| && out.pos >= old(out.pos) &&
              (|r.Pending()| < |old(r.Pending())| || out.pos > old(out.pos)))
      ensures y.Stop? ==> y == Stop(Aborted) && Dirty(old(Goal())) && asked
    {
      hide Shape, Separate, LitLens, DistLens, Got;
      hide Valid, StateOk, Place, Goal, Lean, Starving, Means, Reader.Valid, Reader.Pending, Output.Valid, Usable;
      hide TAfter, Lookup, AfterSym, OutputBuffer.Keeps, Buffered;

      Leave();
      AtSymbol();
      ghost var fin, p, c0, l, d, h := final % 2 == 1, r.Pending(), clean, LitLens(), DistLens(), out.hist;
      var sym;
      ghost var hit;
      sym, hit := QuickSymbol();
      SymsStep(mode, fin, l, d, p, h, c0);
      if sym >= 256 {
        Tainted(mode, fin, l, d, sym, r.Pending(), h, clean);
        y := SymbolFound(sym);
        return;
      }
      AfterLiteral(fin, l, d, sym);
      LiteralMeans(mode, fin, l, d, sym, r.Pending(), h, clean);
      y := SecondSymbol(sym, old(Goal()));
    }

    method StepSymbol(more: bool, resumed: bool) returns (y: Yield)
      requires Valid() && state == Symbol && (resumed ==> Parked()) && (!resumed ==> Tight())
      modifies this`state, this`counter, this`numExtra, this`clean, r`pos, r`bitBuf, r`numBits, out`pos
      modifies out`hist, out.buf
      ensures old(out.pos) <= out.pos
      ensures y.Go? ==> Tight()
      ensures y != Stop(Aborted) ==> Valid() && Goal() == old(Goal()) && state != Begin
      ensures y.Go? ==> |r.Pending()| <= |old(r.Pending())| && out.pos >= old(out.pos)
      ensures y.Go? ==> |r.Pending()| < |old(r.Pending())| || out.pos > old(out.pos) || state == PutLiteral
      ensures y.Stop? ==> (y == Starved(more) && Starving()) || (y == Stop(Aborted) && Dirty(old(Goal())) && asked)
    {
      hide Valid, Goal, Starving, Reader.Pending, Parked;
      if resumed || |r.input| - r.pos < 4 || out.end - out.pos < 2 {
        y := SlowSymbol(more, resumed);
      } else {
        y := FastSymbols();
      }
    }

    method StepPutLiteral() returns (y: Yield)
      requires Valid() && state == PutLiteral
      modifies this`state, out`pos, out`hist, out.buf
      ensures old(out.pos) <= out.pos
      ensures y.Go? ==> Tight()
      ensures Valid() && Goal() == old(Goal()) && state != Begin
      ensures y.Go? ==> out.pos > old(out.pos)
      ensures y.Stop? ==> y == Stop(HasMoreOutput) && out.pos == out.end && state == PutLiteral
    {
      hide Shape, Separate, LitLens, DistLens, CodesReady, Got;
      hide Valid, StateOk, Place, Goal, Lean, Starving, Means, Reader.Valid, Reader.Pending, Output.Valid;
      hide Usable, OutputBuffer.Keeps, Buffered;

      Leave();
      AtPutLiteral();
      OutputRoom(out);
      if out.pos >= out.end {
        return Stop(HasMoreOutput);
      }
      LiteralMeans(mode, final % 2 == 1, LitLens(), DistLens(), counter, r.Pending(), out.hist, clean);
      out.Put(counter);
      state := Symbol;
      AtSymbol();
      Enter();
      y := Go;
    }

    method StepLengthExtra(more: bool) returns (y: Yield)
      requires Valid() && state == LengthExtra
      modifies this`state, this`counter, r`pos, r`bitBuf, r`numBits
      ensures y.Go? ==> Tight()
      ensures Valid() && Goal() == old(Goal()) && state != Begin
      ensures y.Go? ==> |r.Pending()| <= |old(r.Pending())| && state == Distance
      ensures y.Stop? ==> y == Starved(more) && Starving()
    {
      hide Shape, Separate, LitLens, DistLens, Got;
      hide Valid, StateOk, Place, Goal, Lean, Starving, Means, Reader.Valid, Reader.Pending, Output.Valid;
      hide Usable, FromBits, Buffered;

      Leave();
      AtLengthExtra();
      ghost var p, h, fin, l, d := r.Pending(), out.hist, final % 2 == 1, LitLens(), DistLens();
      var ok, v := GetBits(numExtra);
      if !ok {
        AtLengthExtra();
        BufferedSize(r);
        StuckBits(mode, CLength(fin, l, d, counter, numExtra), Buffered(r), h, clean, numExtra);
        Starve(CLength(fin, l, d, counter, numExtra));
        return Starved(more);
      }
      LengthStep(mode, fin, l, d, counter, numExtra, p, h, clean);
      LengthFound(v);
      y := Go;
    }

    /** On with a match whose length is complete. */
    method LengthFound(v: nat)
      requires Base() && Tight() && zAdler == 1 && CodesReady()
      modifies this`state, this`counter
      ensures Valid() && Tight() && state == Distance
      ensures Goal() == Means(mode, CDistance(final % 2 == 1, LitLens(), DistLens(), old(counter) + v), r.Pending(),
                          out.hist, clean)
    {
      hide Shape, Separate, LitLens, DistLens, Got, CodesReady;
      hide Valid, StateOk, Place, Goal, Lean, Means, Reader.Valid, Reader.Pending, Output.Valid, Usable;
      counter := counter + v;
      state := Distance;
      AtDistance();
      Enter();
    }

    method StepDistance(more: bool, resumed: bool) returns (y: Yield)
      requires Valid() && state == Distance && (resumed ==> Parked())
      modifies this`state, this`dist, this`numExtra, this`clean, r`pos, r`bitBuf, r`numBits
      ensures y.Go? ==> Tight()
      ensures Valid() && Goal() == old(Goal()) && state != Begin
      ensures y.Go? ==> |r.Pending()| <= |old(r.Pending())| && state == DistExtra
      ensures y.Stop? ==> y == Starved(more) && Starving()
    {
      hide Tight;
      hide Shape, Separate, LitLens, DistLens, Got;
      hide Valid, StateOk, Place, Goal, Lean, Starving, Means, Reader.Valid, Reader.Pending, Output.Valid;
      hide Usable, Lookup, DisBase, DisBits, Buffered;

      Leave();
      AtDistance();
      ghost var p, h, c0, fin, l, d := r.Pending(), out.hist, clean, final % 2 == 1, LitLens(), DistLens();
      ParkedAt(Place());
      var ok, sym;
      ghost var hit;
      ok, sym, hit := NextSymbol(distTable, d, resumed);
      if !ok {
        AtDistance();
        StuckLookup(mode, CDistance(fin, l, d, counter), Buffered(r), h, clean);
        Starve(CDistance(fin, l, d, counter));
        return Starved(more);
      }
      DistanceStep(mode, fin, l, d, counter, p, h, c0);
      DistanceFound(sym);
      y := Go;
    }

    /** On with the symbol of a distance. */
    method DistanceFound(sym: nat)
      requires Base() && Tight() && zAdler == 1 && CodesReady()
      modifies this`state, this`dist, this`numExtra
      ensures Valid() && Tight() && state == DistExtra
      ensures Goal() == Means(mode,
                CDistBits(final % 2 == 1, LitLens(), DistLens(), counter, DisBase(sym), DisBits(sym)),
                r.Pending(), out.hist, clean)
    {
      hide Shape, Separate, LitLens, DistLens, Got, CodesReady;
      hide Valid, StateOk, Place, Goal, Lean, Means, Reader.Valid, Reader.Pending, Output.Valid, Usable;
      hide DisBase, Buffered;
      numExtra, dist := DisBits(sym), DisBase(sym);
      state := DistExtra;
      AtDistExtra();
      Enter();
    }

    method StepDistExtra(more: bool) returns (y: Yield)
      requires Valid() && state == DistExtra
      modifies this`state, this`counter, this`dist, this`from, r`pos, r`bitBuf, r`numBits, out`pos, out`hist, out.buf
      ensures old(out.pos) <= out.pos
      ensures y.Go? ==> Tight()
      ensures Valid() && Goal() == old(Goal()) && state != Begin
      ensures y.Go? ==> |r.Pending()| <= |old(r.Pending())| && out.pos >= old(out.pos) &&
                        state in {Copy, Symbol, Failed}
      ensures y.Stop? ==> y == Starved(more) && Starving()
    {
      hide Sure;
      hide Lookup, HuffmanTable.Acceptable;
      hide Shape, Separate, LitLens, DistLens, CodesReady, Got;
      hide Valid, StateOk, Place, Goal, Lean, Starving, Means, Reader.Valid, Reader.Pending, Output.Valid;
      hide Usable, FromBits, Buffered;

      Leave();
      AtDistExtra();
      ghost var p, h, fin, l, d := r.Pending(), out.hist, final % 2 == 1, LitLens(), DistLens();
      var ok, v := GetBits(numExtra);
      if !ok {
        AtDistExtra();
        BufferedSize(r);
        StuckBits(mode, CDistBits(fin, l, d, counter, dist, numExtra), Buffered(r), h, clean, numExtra);
        Starve(CDistBits(fin, l, d, counter, dist, numExtra));
        return Starved(more);
      }
      DistBitsStep(mode, fin, l, d, counter, dist, numExtra, p, h, clean);
      LeanBits(r, old(r.numBits), old(r.pos), numExtra, dist);
      MatchMeans(mode, fin, l, d, counter, dist + v, r.Pending(), h, clean);
      MatchFound(v);
      y := Go;
    }

    /** On with a match whose distance is complete. */
    method MatchFound(v: nat)
      requires Base() && Tight() && zAdler == 1 && CodesReady()
      modifies this`state, this`counter, this`dist, this`from, out`pos, out`hist, out.buf
      ensures Tight() && Valid() && out.pos >= old(out.pos) && state in {Copy, Symbol, Failed}
      ensures Goal() == old(TMatch(mode, final % 2 == 1, LitLens(), DistLens(), counter, dist + v, r.Pending(),
              out.hist, clean))
    {
      hide LitLens, DistLens, CodesReady, Got;
      hide Valid, StateOk, Place, Goal, Lean, Starving, Means, Reader.Valid, Reader.Pending, Output.Valid;
      hide Usable, Buffered;
      dist := dist + v;
      StartMatch();
    }

    /** Checks the distance and copies at once if nothing is in the way. */
    method StartMatch()
      requires Shape() && Separate() && r.Valid() && out.Valid() && zAdler == 1 && Tight() && CodesReady()
      modifies this`state, this`counter, this`from, out`pos, out`hist, out.buf
      ensures Tight()
      ensures Valid() && out.pos >= old(out.pos) && state in {Copy, Symbol, Failed}
      ensures state != Begin
      ensures Goal() == old(TMatch(mode, final % 2 == 1, LitLens(), DistLens(), counter, dist, r.Pending(), out.hist,
              clean))
    {
      hide Tight, Sure, HuffmanTable.Acceptable, Lookup;
      hide Sure;
      hide FromBits;
      hide CodesReady, LitLens, DistLens, Got;
      hide Valid, StateOk, Place, Goal, Lean, Starving, Means, Reader.Valid, Reader.Pending, Output.Valid, Usable;
      hide OutputBuffer.Keeps, Effective, OutputBuffer.Place, Deflate.CopyMatch, Buffered;

      ghost var fin, l, d, p, h := final % 2 == 1, LitLens(), DistLens(), r.Pending(), out.hist;
      MatchStep(mode, fin, l, d, counter, dist, p, h, clean);
      from := out.pos;
      EffectiveHere(out, dist);
      if (dist == 0 || dist > from || from == 0) && mode.reach.Linear? {
        state := Failed;
        AtFailed();
        FailedNone(mode, p, h, clean);
        Enter();
        return;
      }
      ghost var back := Effective(mode.reach, |out.hist|, dist).value;
      var src := OutputBuffer.Place(mode.reach, from, dist);
      if (if out.pos > src then out.pos else src) + counter > out.end {
        state := Copy;
        AtCopy();
        Enter();
      } else {
        CopyNow(back);
        SymsMeans(mode, fin, l, d, p, out.hist, clean);
      }
    }

    /** Copies a whole match at once. */
    method CopyNow(ghost back: nat)
      requires Base() && Tight() && zAdler == 1 && CodesReady() && Effective(mode.reach, |out.hist|, dist) == Some(back)
      requires out.pos + counter <= out.end && OutputBuffer.Place(mode.reach, out.pos, dist) + counter <= out.end
      modifies this`state, out`pos, out`hist, out.buf
      ensures Valid() && Tight() && state == Symbol && out.pos >= old(out.pos)
      ensures out.hist == Deflate.CopyMatch(old(out.hist), counter, back)
      ensures Goal() == Means(mode, CSyms(final % 2 == 1, old(LitLens()), old(DistLens())), r.Pending(), out.hist,
              clean)
    {
      hide CodesReady, LitLens, DistLens, Got, OutputBuffer.Keeps, Effective, OutputBuffer.Place, Deflate.CopyMatch;
      hide Valid, StateOk, Place, Goal, Lean, Starving, Means, Reader.Valid, Reader.Pending, Output.Valid;
      hide Usable, Buffered;
      out.CopyFast(counter, dist, back);
      state := Symbol;
      AtSymbol();
      Enter();
    }

    /** As much of a match as there is room for. */
    method CopySome(ghost back: nat)
      requires Base() && CodesReady() && 0 < back <= |out.hist| && Effective(mode.reach, |out.hist|, dist) == Some(back)
      requires OutputBuffer.Place(mode.reach, from, 0) == OutputBuffer.Place(mode.reach, out.pos, 0)
      modifies this`counter, this`from, out`pos, out`hist, out.buf
      ensures Base() && CodesReady() && LitLens() == old(LitLens()) && DistLens() == old(DistLens())
      ensures old(out.pos) <= out.pos && (counter > 0 ==> out.pos == out.end) && back <= |out.hist|
      ensures Deflate.CopyMatch(out.hist, counter, back) == Deflate.CopyMatch(old(out.hist), old(counter), back)
      ensures Effective(mode.reach, |out.hist|, dist) == Some(back)
      ensures OutputBuffer.Place(mode.reach, from, 0) == OutputBuffer.Place(mode.reach, out.pos, 0)
    {
      hide Reader.Valid, Output.Valid, Usable, OutputBuffer.Keeps, Effective, OutputBuffer.Place, Deflate.CopyMatch;
      counter, from := out.CopySlow(counter, from, dist, back);
    }

    method StepCopy() returns (y: Yield)
      requires Valid() && state == Copy
      modifies this`state, this`counter, this`from, out`pos, out`hist, out.buf
      ensures old(out.pos) <= out.pos
      ensures y.Go? ==> Tight()
      ensures Valid() && Goal() == old(Goal()) && state != Begin
      ensures y.Go? ==> out.pos >= old(out.pos) && state == Symbol
      ensures y.Stop? ==> y == Stop(HasMoreOutput) && out.pos == out.end && state == Copy && counter > 0
    {
      hide HuffmanTable.Acceptable, Lookup, FromBits, Canonical.Repeated;
      hide Valid, StateOk, Place, Goal, Lean, Starving, Means, Reader.Valid, Reader.Pending, Output.Valid, Usable;
      hide OutputBuffer.Keeps, Effective, OutputBuffer.Place, Deflate.CopyMatch, Buffered, CodesReady, LitLens;
      hide DistLens, Shape, Separate;

      Leave();
      AtCopy();
      ghost var fin, l, d, p, back := final % 2 == 1, LitLens(), DistLens(), r.Pending(),
          Effective(mode.reach, |out.hist|, dist).value;
      MatchStep(mode, fin, l, d, counter, dist, p, out.hist, clean);
      CopySome(back);
      MatchStep(mode, fin, l, d, counter, dist, p, out.hist, clean);
      if counter > 0 {
        AtCopy();
        Enter();
        return Stop(HasMoreOutput);
      }
      EffectiveBound(mode.reach, |out.hist|, dist);
      CopyNone(out.hist, back);
      SymsMeans(mode, fin, l, d, p, out.hist, clean);
      state := Symbol;
      AtSymbol();
      Enter();
      y := Go;
    }

    // ---------- the end of the stream ----------

    method StepTrailer(more: bool) returns (y: Yield)
      requires Valid() && state == Trailer
      modifies this`state, this`counter, this`zAdler, r`pos
      ensures y.Go? ==> Tight()
      ensures Valid() && Goal() == old(Goal()) && state != Begin
      ensures y.Go? ==> |r.Pending()| < |old(r.Pending())|
      ensures y.Stop? ==> y == Starved(more) && Starving()
    {
      hide Shape, Separate, CodesReady, LitLens, DistLens, Got;
      hide Valid, StateOk, Place, Goal, Lean, Starving, Means, Reader.Valid, Reader.Pending, Output.Valid;
      hide FromBits, ToBits, Buffered, TTrailer;

      Leave();
      AtTrailer();
      InputLeft();
      ghost var p := r.Pending();
      if r.pos >= |r.input| {
        EmptyBuffer(r);
        StuckBits(mode, CTrailer(counter, zAdler), [], out.hist, clean, 8);
        Starve(CTrailer(counter, zAdler));
        return Starved(more);
      }
      var s := r.NextByte();
      FirstEight(s, r.Pending());
      TrailerStep(mode, counter, zAdler, p, out.hist, clean);
      TrailerByte(s);
      y := Go;
    }

    /** Takes one byte of the checksum in. */
    method TrailerByte(s: Byte)
      requires Base() && Tight() && state == Trailer && counter < 4 && r.numBits == 0
      modifies this`state, this`counter, this`zAdler
      ensures Valid() && state in {Trailer, Finished}
      ensures Goal() == Means(mode, CTrailer(old(counter) + 1, (256 * old(zAdler) + s) % 0x1_0000_0000), r.Pending(),
              out.hist, clean)
    {
      hide Shape, Separate, CodesReady, LitLens, DistLens, Got;
      hide Valid, StateOk, Place, Goal, Lean, Starving, Means, Reader.Valid, Reader.Pending, Output.Valid;
      zAdler := (256 * zAdler + s) % 0x1_0000_0000;
      counter := counter + 1;
      if counter == 4 {
        TrailerDone(mode, zAdler, r.Pending(), out.hist, clean);
        state := Finished;
        AtFinished();
      } else {
        AtTrailer();
      }
      Enter();
    }

    lemma InputLeft()
      requires r.Valid()
      ensures r.pos <= |r.input|
    {
    }

    // ---------- running ----------

    /** How many code lengths are still to come. */
    ghost function LensLeft(): nat
      reads this`state, this`tableSizes, this`counter
    {
      if state == LenCode && |tableSizes| == 3 then Left(tableSizes[0] + tableSizes[1], counter) else 0
    }

    /** Stopped with more output to come. */
    ghost predicate Full()
      reads this`state, this`counter
    {
      state in {RawPut, RawCopy, PutLiteral, Copy} && (state == Copy ==> counter > 0)
    }

    lemma TaintedHere()
      requires Valid()
      ensures !clean ==> Dirty(Goal())
    {
      hide Means, Reader.Valid, Output.Valid, Usable, Effective, OutputBuffer.Place;
      if !clean {
        MeansGrows(mode, Place(), r.Pending(), out.hist, clean);
      }
    }

    /** Where a step may stop. */
    ghost predicate Stopped(status: Status, more: bool, noRoom: bool)
      reads this`state, this`final, this`tableSizes, this`rawHeader, this`dist, this`counter, this`numExtra
      reads this`zhdr0, this`zAdler, this`clean, this`asked
      reads r, out`hist, litSizes, distSizes, lenSizes, lenCodes
    {
      match status
      case NeedsMoreInput => more && Starving()
      case CannotMakeProgress => !more && Starving()
      case HasMoreOutput => noRoom && Full()
      case Done => state == Finished
      case Failure => state == Failed
      case Aborted => true
      case _ => false
    }

    /** One step up to the end of a block header. */
    method StepHeader(more: bool) returns (y: Yield)
      requires Valid() && state in {Begin, ZlibCmf, ZlibFlg, BlockHead, TableSize, CodeLength, LenExtra}
      modifies this`state, this`final, this`tableSizes, this`rawHeader, this`dist, this`counter, this`numExtra
      modifies this`from, this`zhdr0, this`zAdler, this`checkAdler, this`clean
      modifies r`pos, r`bitBuf, r`numBits, out`pos, out`hist, out.buf
      modifies litSizes, distSizes, lenSizes, lenCodes, litTable.lookUp, litTable.tree, distTable.lookUp, distTable.tree
      modifies lenTable.lookUp, lenTable.tree
      ensures y != Stop(Aborted) ==>
              Valid() && r.Valid() && out.pos <= out.end && Goal() == old(Goal()) && old(out.pos) <= out.pos &&
                  state != Begin
      ensures checkAdler == if old(state) == Begin then 1 else old(checkAdler)
      ensures y.Go? ==> Tight() && |r.Pending()| <= |old(r.Pending())|
      ensures y.Go? ==> |r.Pending()| < |old(r.Pending())| || out.pos > old(out.pos) || Rank(state) < old(Rank(state))
                        || (Rank(state) == old(Rank(state)) && LensLeft() < old(LensLeft()))
      ensures y.Stop? ==>
              Stopped(y.status, more, out.pos == out.end) && (y.status == Aborted ==> Dirty(old(Goal())) && asked)
    {
      hide Valid, Goal, Starving, Parked, Reader.Pending, Reader.Valid, Output.Valid;
      match state {
        case Begin =>
          StepBegin();
          y := Go;
        case ZlibCmf => y := StepZlibCmf(more);
        case ZlibFlg => y := StepZlibFlg(more);
        case BlockHead => y := StepBlockHead(more);
        case TableSize => y := StepTableSize(more);
        case CodeLength => y := StepCodeLength(more);
        case LenExtra => y := StepLenExtra(more);
      }
      Pieces();
    }

    /** One step in a stored block, or past the last block. */
    method StepBytes(more: bool) returns (y: Yield)
      requires Valid() && state in {RawHeader, RawBuffered, RawPut, RawCopy, Trailer, Finished, Failed}
      modifies this`state, this`final, this`tableSizes, this`rawHeader, this`dist, this`counter, this`numExtra
      modifies this`from, this`zhdr0, this`zAdler, this`checkAdler, this`clean
      modifies r`pos, r`bitBuf, r`numBits, out`pos, out`hist, out.buf
      modifies litSizes, distSizes, lenSizes, lenCodes, litTable.lookUp, litTable.tree, distTable.lookUp, distTable.tree
      modifies lenTable.lookUp, lenTable.tree
      ensures y != Stop(Aborted) ==>
              Valid() && r.Valid() && out.pos <= out.end && Goal() == old(Goal()) && old(out.pos) <= out.pos &&
                  state != Begin
      ensures checkAdler == if old(state) == Begin then 1 else old(checkAdler)
      ensures y.Go? ==> Tight() && |r.Pending()| <= |old(r.Pending())|
      ensures y.Go? ==> |r.Pending()| < |old(r.Pending())| || out.pos > old(out.pos) || Rank(state) < old(Rank(state))
                        || (Rank(state) == old(Rank(state)) && LensLeft() < old(LensLeft()))
      ensures y.Stop? ==>
              Stopped(y.status, more, out.pos == out.end) && (y.status == Aborted ==> Dirty(old(Goal())) && asked)
    {
      hide Valid, Goal, Starving, Parked, Reader.Pending, Reader.Valid, Output.Valid;
      TaintedHere();
      match state {
        case RawHeader => y := StepRawHeader(more);
        case RawBuffered => y := StepRawBuffered();
        case RawPut => y := StepRawPut();
        case RawCopy => y := StepRawCopy(more);
        case Trailer => y := StepTrailer(more);
        case Finished => y := Stop(Done);
        case Failed => y := Stop(Failure);
      }
      if y != Stop(Aborted) {
        Pieces();
      }
    }

    /** One step in a block of coded data, or in the code lengths before it. */
    method StepCoded(more: bool, resumed: bool) returns (y: Yield)
      requires Valid() && state in {LenCode, Symbol, PutLiteral, LengthExtra, Distance, DistExtra, Copy}
      requires (resumed ==> state in {LenCode, Symbol, Distance} && Parked())
      requires (!resumed && state in {LenCode, Symbol, Distance} ==> Tight())
      modifies this`state, this`final, this`tableSizes, this`rawHeader, this`dist, this`counter, this`numExtra
      modifies this`from, this`zhdr0, this`zAdler, this`checkAdler, this`clean
      modifies r`pos, r`bitBuf, r`numBits, out`pos, out`hist, out.buf
      modifies litSizes, distSizes, lenSizes, lenCodes, litTable.lookUp, litTable.tree, distTable.lookUp, distTable.tree
      modifies lenTable.lookUp, lenTable.tree
      ensures y != Stop(Aborted) ==>
              Valid() && r.Valid() && out.pos <= out.end && Goal() == old(Goal()) && old(out.pos) <= out.pos &&
                  state != Begin
      ensures checkAdler == if old(state) == Begin then 1 else old(checkAdler)
      ensures y.Go? ==> Tight() && |r.Pending()| <= |old(r.Pending())|
      ensures y.Go? ==> |r.Pending()| < |old(r.Pending())| || out.pos > old(out.pos) || Rank(state) < old(Rank(state))
                        || (Rank(state) == old(Rank(state)) && LensLeft() < old(LensLeft()))
      ensures y.Stop? ==>
              Stopped(y.status, more, out.pos == out.end) && (y.status == Aborted ==> Dirty(old(Goal())) && asked)
    {
      hide Valid, Goal, Parked, Reader.Pending, LensLeft, Rank, Stopped, Dirty;
      if state in {LenCode, Symbol, PutLiteral} {
        y := StepCode(more, resumed);
      } else {
        y := StepMatch(more, resumed);
      }
    }

    method StepCode(more: bool, resumed: bool) returns (y: Yield)
      requires Valid() && state in {LenCode, Symbol, PutLiteral}
      requires (resumed ==> state in {LenCode, Symbol} && Parked())
      requires (!resumed && state in {LenCode, Symbol} ==> Tight())
      modifies this`state, this`final, this`tableSizes, this`rawHeader, this`dist, this`counter, this`numExtra
      modifies this`from, this`zhdr0, this`zAdler, this`checkAdler, this`clean
      modifies r`pos, r`bitBuf, r`numBits, out`pos, out`hist, out.buf
      modifies litSizes, distSizes, lenSizes, lenCodes, litTable.lookUp, litTable.tree, distTable.lookUp, distTable.tree
      modifies lenTable.lookUp, lenTable.tree
      ensures y != Stop(Aborted) ==>
              Valid() && r.Valid() && out.pos <= out.end && Goal() == old(Goal()) && old(out.pos) <= out.pos &&
                  state != Begin
      ensures checkAdler == if old(state) == Begin then 1 else old(checkAdler)
      ensures y.Go? ==> Tight() && |r.Pending()| <= |old(r.Pending())|
      ensures y.Go? ==> |r.Pending()| < |old(r.Pending())| || out.pos > old(out.pos) || Rank(state) < old(Rank(state))
                        || (Rank(state) == old(Rank(state)) && LensLeft() < old(LensLeft()))
      ensures y.Stop? ==>
              Stopped(y.status, more, out.pos == out.end) && (y.status == Aborted ==> Dirty(old(Goal())) && asked)
    {
      hide Dirty;
      hide Valid, Goal, Starving, Parked, Reader.Pending, Reader.Valid, Output.Valid;
      match state {
        case LenCode => y := StepLenCode(more, resumed);
        case Symbol => y := StepSymbol(more, resumed);
        case PutLiteral => y := StepPutLiteral();
      }
      if y != Stop(Aborted) {
        Pieces();
      }
    }

    method StepMatch(more: bool, resumed: bool) returns (y: Yield)
      requires Valid() && state in {LengthExtra, Distance, DistExtra, Copy}
      requires (resumed ==> state == Distance && Parked())
      requires (!resumed && state == Distance ==> Tight())
      modifies this`state, this`final, this`tableSizes, this`rawHeader, this`dist, this`counter, this`numExtra
      modifies this`from, this`zhdr0, this`zAdler, this`checkAdler, this`clean
      modifies r`pos, r`bitBuf, r`numBits, out`pos, out`hist, out.buf
      modifies litSizes, distSizes, lenSizes, lenCodes, litTable.lookUp, litTable.tree, distTable.lookUp, distTable.tree
      modifies lenTable.lookUp, lenTable.tree
      ensures y != Stop(Aborted) ==>
              Valid() && r.Valid() && out.pos <= out.end && Goal() == old(Goal()) && old(out.pos) <= out.pos &&
                  state != Begin
      ensures checkAdler == if old(state) == Begin then 1 else old(checkAdler)
      ensures y.Go? ==> Tight() && |r.Pending()| <= |old(r.Pending())|
      ensures y.Go? ==> |r.Pending()| < |old(r.Pending())| || out.pos > old(out.pos) || Rank(state) < old(Rank(state))
                        || (Rank(state) == old(Rank(state)) && LensLeft() < old(LensLeft()))
      ensures y.Stop? ==>
              Stopped(y.status, more, out.pos == out.end) && (y.status == Aborted ==> Dirty(old(Goal())) && asked)
    {
      hide Dirty;
      hide Valid, Goal, Starving, Parked, Reader.Pending, Reader.Valid, Output.Valid;
      match state {
        case LengthExtra => y := StepLengthExtra(more);
        case Distance => y := StepDistance(more, resumed);
        case DistExtra => y := StepDistExtra(more);
        case Copy => y := StepCopy();
      }
      if y != Stop(Aborted) {
        Pieces();
      }
    }

    /** One step from where the coroutine stands. */
    method Step(more: bool, resumed: bool) returns (y: Yield)
      requires Valid() && (resumed ==> state in {LenCode, Symbol, Distance} && Parked())
      requires (!resumed && state in {LenCode, Symbol, Distance} ==> Tight())
      modifies this`state, this`final, this`tableSizes, this`rawHeader, this`dist, this`counter, this`numExtra
      modifies this`from, this`zhdr0, this`zAdler, this`checkAdler, this`clean
      modifies r`pos, r`bitBuf, r`numBits, out`pos, out`hist, out.buf
      modifies litSizes, distSizes, lenSizes, lenCodes, litTable.lookUp, litTable.tree, distTable.lookUp, distTable.tree
      modifies lenTable.lookUp, lenTable.tree
      ensures y != Stop(Aborted) ==>
              Valid() && r.Valid() && out.pos <= out.end && Goal() == old(Goal()) && old(out.pos) <= out.pos &&
                  state != Begin
      ensures checkAdler == if old(state) == Begin then 1 else old(checkAdler)
      ensures y.Go? ==> Tight() && |r.Pending()| <= |old(r.Pending())|
      ensures y.Go? ==> |r.Pending()| < |old(r.Pending())| || out.pos > old(out.pos) || Rank(state) < old(Rank(state))
                        || (Rank(state) == old(Rank(state)) && LensLeft() < old(LensLeft()))
      ensures y.Stop? ==>
              Stopped(y.status, more, out.pos == out.end) && (y.status == Aborted ==> Dirty(old(Goal())) && asked)
    {
      hide Valid, Goal, Starving, Parked, Reader.Pending, LensLeft, Rank, Stopped;
      Kinds(state);
      if state in {Begin, ZlibCmf, ZlibFlg, BlockHead, TableSize, CodeLength, LenExtra} {
        y := StepHeader(more);
      } else if state in {LenCode, Symbol, PutLiteral, LengthExtra, Distance, DistExtra, Copy} {
        y := StepCoded(more, resumed);
      } else {
        y := StepBytes(more);
      }
    }

    /** On to the contents of a block. */
    method EnterBlock(v: nat)
      requires Base() && Tight() && zAdler == 1 && final == v && v < 8
      modifies this`state, this`tableSizes, this`rawHeader, this`counter, r`bitBuf, r`numBits
      modifies litSizes, distSizes, litTable.lookUp, litTable.tree, distTable.lookUp, distTable.tree
      ensures Tight() && Valid() && |r.Pending()| <= |old(r.Pending())|
      ensures state != Begin
      ensures Goal() ==
              if v / 2 == 0 then
                Means(mode, CRaw(v % 2 == 1, []), FromByte(old(r.Pending())), out.hist, clean)
              else if v / 2 == 1 then
                Means(mode, CSyms(v % 2 == 1, Deflate.FixedLit(), Deflate.FixedDist()),
                  old(r.Pending()), out.hist, clean)
              else if v / 2 == 2 then
                Means(mode, CSizes(v % 2 == 1, []), old(r.Pending()), out.hist, clean)
              else None
    {
      hide Shape, Separate, LitLens, DistLens, CodesReady, Got;
      hide Valid, StateOk, Place, Goal, Lean, Means, Reader.Valid, Reader.Pending, Output.Valid, Usable, FromByte;
      hide Deflate.FixedLit, Deflate.FixedDist;
      if v / 2 == 0 {
        Align();
        rawHeader := [];
        state := RawHeader;
        AtRawHeader();
      } else if v / 2 == 1 {
        FixedCodes();
        state := Symbol;
        AtSymbol();
      } else if v / 2 == 2 {
        tableSizes := [];
        state := TableSize;
        AtTableSize();
      } else {
        state := Failed;
        AtFailed();
        FailedNone(mode, r.Pending(), out.hist, clean);
      }
      Enter();
    }

    /** `MZ_CLEAR_ARR(r->m_code_size_2)` */
    method ClearLens()
      requires lenSizes.Length == 19
      modifies lenSizes
      ensures lenSizes[..] == Canonical.Repeated(0, 19) && forall i :: 0 <= i < 19 ==> lenSizes[i] == 0
    {
      forall i | 0 <= i < lenSizes.Length {
        lenSizes[i] := 0;
      }
      assert lenSizes[..] == Canonical.Repeated(0, 19);
    }

    /** The code lengths of the two codes, one after the other. */
    method SplitLens()
      requires Shape() && SizesReady() && counter == tableSizes[0] + tableSizes[1] && forall i :: 0 <= i < counter ==>
               lenCodes[i] <= 15
      modifies litSizes, distSizes
      ensures LitLens() == Got()[..tableSizes[0]] && DistLens() == Got()[tableSizes[0]..]
      ensures (forall i :: 0 <= i < tableSizes[0] ==> litSizes[i] <= 15)
      ensures (forall i :: 0 <= i < tableSizes[1] ==> distSizes[i] <= 15)
    {
      BlockWriter.CopyTo(lenCodes, tableSizes[0], litSizes, 0);
      forall i | 0 <= i < tableSizes[1] {
        distSizes[i] := lenCodes[tableSizes[0] + i];
      }
      assert litSizes[0..0 + tableSizes[0]] == litSizes[..tableSizes[0]];
      assert LitLens() == Got()[..tableSizes[0]] && DistLens() == Got()[tableSizes[0]..];
      CopiedSmall(litSizes[..], Got(), tableSizes[0]);
    }

    lemma ParkedAt(c: Ctl)
      requires c == Place()
      ensures Parked() ==> r.numBits < 15 && NeedsMore(c, Buffered(r))
    {
    }

    /** The second symbol of a pair; the first was a literal that is still to be written. */
    method SecondSymbol(sym: nat, ghost goal: Res) returns (y: Yield)
      requires Shape() && Separate() && r.Valid() && out.Valid() && zAdler == 1 && Tight()
      requires CodesReady() && state == Symbol && sym < 256 && r.pos + 2 <= |r.input| && out.pos + 2 <= out.end
      requires goal == Means(mode, CSyms(final % 2 == 1, LitLens(), DistLens()), r.Pending(), out.hist + [sym], clean)
      modifies this`state, this`counter, this`numExtra, this`clean, r`pos, r`bitBuf, r`numBits, out`pos
      modifies out`hist, out.buf
      ensures y != Stop(Aborted) ==> Valid() && Goal() == goal && state != Begin
      ensures y.Stop? ==> y == Stop(Aborted) && Dirty(goal) && asked
      ensures old(out.pos) <= out.pos
      ensures (y.Go? ==> Tight() && old(out.pos) < out.pos && |r.Pending()| <= |old(r.Pending())|)
    {
      hide Dirty, Output.Valid;
      hide Shape, Separate, LitLens, DistLens, Got;
      hide Valid, StateOk, Place, Goal, Lean, Starving, Means, Reader.Valid, Reader.Pending, Usable, TAfter;
      hide Lookup, AfterSym, OutputBuffer.Keeps;
      ghost var fin, p, c0, l, d, h := final % 2 == 1, r.Pending(), clean, LitLens(), DistLens(), out.hist + [sym];
      var sym2;
      ghost var hit;
      sym2, hit := QuickSymbol();
      SymsStep(mode, fin, l, d, p, h, c0);
      out.Put(sym);
      if sym2 >= 256 {
        Tainted(mode, fin, l, d, sym2, r.Pending(), h, clean);
        y := SymbolFound(sym2);
        return;
      }
      AfterLiteral(fin, l, d, sym2);
      LiteralMeans(mode, fin, l, d, sym2, r.Pending(), h, clean);
      PutSecond(sym2, goal);
      y := Go;
    }

    /** Writes the second literal of a pair. */
    method PutSecond(sym: nat, ghost goal: Res)
      requires Base() && Tight() && zAdler == 1 && CodesReady() && state == Symbol && sym < 256 && out.pos < out.end
      requires goal == Means(mode, CSyms(final % 2 == 1, LitLens(), DistLens()), r.Pending(), out.hist + [sym], clean)
      modifies out`pos, out`hist, out.buf
      ensures Valid() && out.pos == old(out.pos) + 1 && Goal() == goal
    {
      hide Tight, LitLens, DistLens, Got, CodesReady, OutputBuffer.Keeps;
      hide Valid, StateOk, Place, Goal, Lean, Means, Reader.Valid, Reader.Pending, Output.Valid, Usable;
      out.Put(sym);
      AtSymbol();
      Enter();
    }

    method AppendLen(sym: nat)
      requires LensReady() && sym < 16 && Shape()
      modifies lenCodes, this`counter
      ensures SizesReady() && counter <= 457 && Usable(lenTable, lenSizes[..]) && forall i :: 0 <= i < counter ==>
              lenCodes[i] <= 15
      ensures counter == old(counter) + 1 && Got() == old(Got()) + [sym] && lenSizes[..] == old(lenSizes[..])
    {
      hide Usable;
      ghost var acc := Got();
      lenCodes[counter] := sym;
      counter := counter + 1;
      assert Got() == acc + [sym];
    }

    // ---------- a call ----------

    /** Between calls. */
    ghost predicate Idle()
      reads this, r, out`pos, out`hist, litSizes, distSizes, lenSizes, lenCodes
      reads litTable.lookUp, litTable.tree, distTable.lookUp, distTable.tree, lenTable.lookUp, lenTable.tree
    {
      && Shape() && StateOk() && r.numBits <= 31 && r.bitBuf < Pow2(r.numBits)
      && (state in {LenCode, Symbol, Distance} ==> Parked())
      && (Sure() ==> r.numBits < 8 || (asked && NeedsMore(Place(), Buffered(r))))
      && checkAdler == Adler.Checksum(1, summed) && checkAdler < Adler.WORD && (state == Begin ==> summed == [])
    }

    /** What the stream comes to if the input goes on with `later`. */
    ghost function Meaning(later: Bytes): Res
      reads this`state, this`final, this`tableSizes, this`rawHeader, this`dist, this`counter, this`numExtra, this`zhdr0
      reads this`zAdler, this`clean, this`asked, r, out`hist, litSizes, distSizes, lenSizes, lenCodes
    {
      Means(mode, Place(), Buffered(r) + ByteBits(later), out.hist, clean)
    }

    /** The buffer goes on where the last call stopped. */
    ghost predicate Continues(buf: array<Byte>, next: nat, size: nat)
      reads out`hist, out`pos, buf
    {
      && next + size <= buf.Length && (mode.reach.Ring? ==> next + size == mode.reach.size)
      && OutputBuffer.Keeps(buf[..], mode.reach, next, out.hist) &&
          OutputBuffer.Place(mode.reach, next, 0) == OutputBuffer.Place(mode.reach, out.pos, 0)
      && buf as object !in Sizes() && buf as object !in Lookups()
    }

    /** Starts a call. */
    method BeginCall(input: Bytes, buf: array<Byte>, next: nat, size: nat, ghost later: Bytes)
      requires Idle() && Continues(buf, next, size)
      modifies r`input, r`pos, r`carry, r`future, out`buf, out`pos, out`end, out`startPos, out`startHist
      ensures Valid() && Goal() == old(Meaning(input + later)) && out.hist == old(out.hist)
      ensures r.input == input && r.future == later && r.pos == 0 && out.buf == buf && out.pos == next
      ensures out.end == next + size
      ensures out.startPos == next && out.startHist == old(out.hist)
      ensures state in {LenCode, Symbol, Distance} ==> Parked()
    {
      hide Means, ToBits, ByteBits, Suffix, OutputBuffer.Keeps, Usable, NeedsMore;
      r.Begin(input, later);
      out.Begin(buf, next, size);
      assert input[0..] == input;
    }

    lemma Pieces()
      requires Valid()
      ensures r.Valid() && out.pos <= out.end
    {
      hide Reader.Valid, StateOk, Lean;
    }

    /** Runs until something stops it. */
    method Run(more: bool) returns (status: Status)
      requires Valid() && (state in {LenCode, Symbol, Distance} ==> Parked())
      requires checkAdler == Adler.Checksum(1, summed) && checkAdler < Adler.WORD && (state == Begin ==> summed == [])
      modifies this`state, this`final, this`tableSizes, this`rawHeader, this`dist, this`counter, this`numExtra
      modifies this`from, this`zhdr0, this`zAdler, this`checkAdler, this`clean
      modifies r`pos, r`bitBuf, r`numBits, out`pos, out`hist, out.buf
      modifies litSizes, distSizes, lenSizes, lenCodes, litTable.lookUp, litTable.tree, distTable.lookUp, distTable.tree
      modifies lenTable.lookUp, lenTable.tree
      ensures status != Aborted ==> Valid() && Goal() == old(Goal()) && state != Begin
      ensures checkAdler == Adler.Checksum(1, summed) && checkAdler < Adler.WORD
      ensures (status != Aborted && state == Begin ==> summed == [])
      ensures Stopped(status, more, out.pos == out.end) && (status == Aborted ==> Dirty(old(Goal())) && asked)
    {
      hide Valid, Goal, Starving, Parked, Reader.Pending, LensLeft, Rank, Stopped;
      NoBytesSummed();
      Pieces();
      ghost var goal := Goal();
      var resumed, y := state in {LenCode, Symbol, Distance}, Go;
      while y.Go?
        invariant y != Stop(Aborted) ==> Valid() && r.Valid() && out.pos <= out.end && Goal() == goal
        invariant checkAdler == Adler.Checksum(1, summed) && checkAdler < Adler.WORD
        invariant (y != Stop(Aborted) && state == Begin ==> summed == [])
        invariant y.Stop? && y != Stop(Aborted) ==> state != Begin
        invariant y.Go? ==> ((resumed ==> state in {LenCode, Symbol, Distance} && Parked()) &&
                  (!resumed && state in {LenCode, Symbol, Distance} ==> Tight()))
        invariant y.Stop? ==>
                  Stopped(y.status, more, out.pos == out.end) && (y.status == Aborted ==> Dirty(goal) && asked)
        decreases if y.Go? then 1 else 0, if y.Go? then |r.Pending()| else 0, if y.Go? then out.end - out.pos else 0,
            Rank(state), LensLeft()
      {
        y := Step(more, resumed);
        resumed := false;
      }
      status := y.status;
    }

    lemma NoBytesSummed()
      ensures Adler.Checksum(1, []) == 1
    {
    }

    lemma NeedsNoMore(b: Bitstring)
      ensures state in {RawPut, RawCopy, PutLiteral, Copy, Finished, Failed} ==> !NeedsMore(Place(), b)
    {
    }

    /** The end of a call: bytes read ahead are handed back, unless the input has run out. */
    method EndCall(status: Status, ghost more: bool, ghost noRoom: bool)
      requires Valid() && status != Aborted && Stopped(status, more, noRoom)
      modifies this`asked, r`pos, r`bitBuf, r`numBits
      ensures asked == (old(asked) || status in {NeedsMoreInput, CannotMakeProgress})
      ensures Valid() && Goal() == old(Goal()) && Resting() && r.pos <= old(r.pos)
      ensures status in {NeedsMoreInput, CannotMakeProgress} ==> r.pos == |r.input| && Meaning([]) == None
    {
      hide Shape, Separate;
      hide Means, NeedsMore, OutputBuffer.Keeps, Usable, Effective, OutputBuffer.Place, Suffix, ToBits, ByteBits;
      hide Reader.Valid, Reader.Pending, Output.Valid, CodesReady, LensReady, SizesReady;
      if status != NeedsMoreInput && status != CannotMakeProgress {
        NeedsNoMore(r.carry);
        r.PutBack();
      } else {
        KeepBits();
      }
    }

    /** A call that asks for more input keeps the bits that it has buffered. */
    method KeepBits()
      requires Valid() && Starving()
      modifies this`asked
      ensures asked && Valid() && Goal() == old(Goal()) && Resting() && r.pos == |r.input| && Meaning([]) == None
    {
      hide Shape, Separate;
      hide Means, NeedsMore, OutputBuffer.Keeps, Usable, Effective, OutputBuffer.Place, Suffix, ToBits, ByteBits;
      hide Reader.Valid, Reader.Pending, Output.Valid, CodesReady, LensReady, SizesReady;
      asked := true;
      NothingMore(r);
    }

    /** Nothing is buffered that is not known to be needed. */
    ghost predicate Resting()
      reads this`state, this`final, this`tableSizes, this`rawHeader, this`dist, this`counter, this`numExtra, this`zhdr0
      reads this`zAdler, this`clean, this`asked, r, litSizes, distSizes, lenSizes, lenCodes
    {
      && (state in {LenCode, Symbol, Distance} ==> Parked())
      && (Sure() ==> r.numBits < 8 || (asked && NeedsMore(Place(), Buffered(r))))
    }

    /** Between calls the unused input may as well come in the next call. */
    lemma Rest()
      requires Valid() && Resting()
      ensures Shape() && StateOk() && r.numBits <= 31 && r.bitBuf < Pow2(r.numBits) && r.pos <= |r.input|
      ensures (state in {LenCode, Symbol, Distance} ==> Parked())
      ensures (Sure() ==> r.numBits < 8 || (asked && NeedsMore(Place(), Buffered(r))))
      ensures Goal() == Meaning(r.input[r.pos..] + r.future)
      ensures out.startPos <= out.pos <= out.end && out.hist == out.startHist + out.buf[out.startPos..out.pos]
      ensures OutputBuffer.Keeps(out.buf[..], mode.reach, out.pos, out.hist)
    {
      hide StateOk, Place, Means, NeedsMore, OutputBuffer.Keeps, Usable, Suffix, ToBits, ByteBits;
    }

    /** Carries the checksum on over this call's output. */
    method Sum(data: Bytes)
      requires checkAdler == Adler.Checksum(1, summed) && checkAdler < Adler.WORD
      modifies this`checkAdler, this`summed
      ensures checkAdler == Adler.Checksum(1, summed) && checkAdler < Adler.WORD && summed == old(summed) + data
    {
      hide Adler.Checksum;
      checkAdler := Adler.Adler32(checkAdler, data);
      Adler.ChecksumConcat(1, summed, data);
      summed := summed + data;
    }

    /** All of a call but the checksum. */
    method Call(input: Bytes, buf: array<Byte>, next: nat, size: nat, more: bool, ghost later: Bytes)
      returns (status: Status, consumed: nat, produced: nat)
      requires Idle() && Continues(buf, next, size)
      modifies this`state, this`final, this`tableSizes, this`rawHeader, this`dist, this`counter, this`numExtra
      modifies this`from, this`zhdr0, this`zAdler, this`checkAdler, this`clean, this`asked
      modifies r`input, r`pos, r`bitBuf, r`numBits, r`carry, r`future, out`buf, out`pos, out`end, out`startPos
      modifies out`startHist, out`hist, buf
      modifies litSizes, distSizes, lenSizes, lenCodes, litTable.lookUp, litTable.tree, distTable.lookUp, distTable.tree
      modifies lenTable.lookUp, lenTable.tree
      ensures consumed <= |input| && produced <= size
      ensures status != Aborted ==>
              Idle() && Meaning(input[consumed..] + later) == old(Meaning(input + later)) && state != Begin
      ensures status != Aborted ==> out.hist == old(out.hist) + buf[next..next + produced] && out.pos == next + produced
      ensures status != Aborted ==> OutputBuffer.Keeps(buf[..], mode.reach, next + produced, out.hist)
      ensures match status
              case NeedsMoreInput => more && consumed == |input| && Meaning([]) == None
              case CannotMakeProgress => !more && consumed == |input| && Meaning([]) == None
              case HasMoreOutput => produced == size && Full()
              case Done => state == Finished
              case Failure => state == Failed
              case Aborted => Dirty(old(Meaning(input + later))) && asked
              case _ => false
      ensures asked == (old(asked) || status in {NeedsMoreInput, CannotMakeProgress})
    {
      hide Tight, Sure;
      hide Valid, Shape, Goal, StateOk, Place, Resting, Parked, Starving, Meaning, Means, NeedsMore, OutputBuffer.Keeps;
      hide Usable, Suffix, ToBits, ByteBits;
      BeginCall(input, buf, next, size, later);
      status := Run(more);
      if status == Aborted {
        return Aborted, 0, 0;
      }
      EndCall(status, more, out.pos == out.end);
      Rest();
      consumed, produced := r.pos, out.pos - next;
    }

    /** `tinfl_decompress` */
    method Decompress(input: Bytes, buf: array<Byte>, next: nat, size: nat, more: bool, ghost later: Bytes)
      returns (status: Status, consumed: nat, produced: nat)
      requires Idle() && Continues(buf, next, size)
      modifies this`state, this`final, this`tableSizes, this`rawHeader, this`dist, this`counter, this`numExtra
      modifies this`from, this`zhdr0, this`zAdler, this`checkAdler, this`clean, this`asked, this`summed
      modifies r`input, r`pos, r`bitBuf, r`numBits, r`carry, r`future, out`buf, out`pos, out`end, out`startPos
      modifies out`startHist, out`hist, buf
      modifies litSizes, distSizes, lenSizes, lenCodes, litTable.lookUp, litTable.tree, distTable.lookUp, distTable.tree
      modifies lenTable.lookUp, lenTable.tree
      ensures status == BadParam <==> mode.reach.Ring? && !exists k: nat :: mode.reach.size == Pow2(k)
      ensures status == BadParam ==> consumed == 0 && produced == 0 && unchanged(this, r, out, buf)
      ensures consumed <= |input| && produced <= size
      ensures status !in {BadParam, Aborted} ==>
              Idle() && Meaning(input[consumed..] + later) == old(Meaning(input + later)) && state != Begin
      ensures status !in {BadParam, Aborted} ==>
              out.hist == old(out.hist) + buf[next..next + produced] && out.pos == next + produced
      ensures status !in {BadParam, Aborted} ==> OutputBuffer.Keeps(buf[..], mode.reach, next + produced, out.hist)
      ensures status !in {BadParam, Aborted} ==>
                summed == if (mode.zlib || computeAdler) && status in {Done, AdlerMismatch, NeedsMoreInput,
                    HasMoreOutput} then old(summed) + buf[next..next + produced] else old(summed)
      ensures match status
              case NeedsMoreInput => more && consumed == |input| && Meaning([]) == None
              case CannotMakeProgress => !more && consumed == |input| && Meaning([]) == None
              case HasMoreOutput => produced == size && Full()
              case Done => state == Finished && (mode.zlib ==> checkAdler == zAdler)
              case AdlerMismatch => state == Finished && mode.zlib && checkAdler != zAdler
              case Failure => state == Failed
              case Aborted => Dirty(old(Meaning(input + later))) && asked
              case BadParam => true
      ensures asked == (old(asked) || status in {NeedsMoreInput, CannotMakeProgress})
    {
      hide Full;
      hide Valid, Shape, Goal, StateOk, Place, Resting, Parked, Starving, Meaning, Means, NeedsMore, OutputBuffer.Keeps;
      hide Usable, Suffix, ToBits, ByteBits, And, Idle;
      if mode.reach.Ring? {
        RingHasRoom(buf[..], mode.reach, next, out.hist);
        PowerOfTwoTest(mode.reach.size);
        if And(mode.reach.size, mode.reach.size - 1) != 0 {
          return BadParam, 0, 0;
        }
      }
      status, consumed, produced := Call(input, buf, next, size, more, later);
      if status == Aborted {
        return;
      }
      status := CheckSum(status, buf[next..next + produced]);
    }

    /** What the end of a call does about the checksum. */
    method CheckSum(was: Status, data: Bytes) returns (status: Status)
      requires Idle() && was !in {BadParam, Aborted, AdlerMismatch} && state != Begin
      modifies this`checkAdler, this`summed
      ensures Idle()
      ensures status == if was == Done && mode.zlib && checkAdler != zAdler then AdlerMismatch else was
      ensures summed == if (mode.zlib || computeAdler) &&
              was in {Done, NeedsMoreInput, HasMoreOutput} then old(summed) + data else old(summed)
    {
      hide Shape, StateOk, Place, Parked, NeedsMore;
      status := was;
      if (mode.zlib || computeAdler) && status in {Done, NeedsMoreInput, HasMoreOutput} {
        Sum(data);
        if status == Done && mode.zlib && checkAdler != zAdler {
          status := AdlerMismatch;
        }
      }
    }

    /** At the end all of the input that is left comes after the stream. */
    lemma AtEnd(later: Bytes)
      requires Idle() && state == Finished
      ensures Meaning(later) == Some(Final(out.hist, zAdler, ByteBits(later), clean))
    {
      hide Usable, Effective, OutputBuffer.Place, ByteBits, NeedsMore;
      EmptyBuffer(r);
      assert [] + ByteBits(later) == ByteBits(later);
    }

    lemma AtFailure(later: Bytes)
      requires state == Failed
      ensures Meaning(later) == None
    {
    }

    /** The output so far is where the result begins. */
    lemma AtHand(later: Bytes)
      requires Idle()
      ensures GoesOn(Meaning(later), out.hist, clean)
    {
      hide Usable, Effective, OutputBuffer.Place, Means, NeedsMore, GoesOn;
      MeansGrows(mode, Place(), Buffered(r) + ByteBits(later), out.hist, clean);
    }

    /** Stopped for want of room with more output to come. */
    lemma AtFull(later: Bytes)
      requires Idle() && Full()
      ensures Meaning(later).Some? ==> |Meaning(later).value.hist| > |out.hist|
    {
      hide Usable, Effective, OutputBuffer.Place, Means, NeedsMore;
      RoomNeeded(mode, Place(), Buffered(r) + ByteBits(later), out.hist, clean);
    }

    /** A new decompressor is between calls. */
    lemma AtStart(stream: Bytes)
      requires Valid() && state == Begin && checkAdler == 1 && summed == []
      ensures Idle() && Meaning(stream) == TStart(mode, ByteBits(stream), out.hist)
      ensures OutputBuffer.Keeps(out.buf[..], mode.reach, out.pos, out.hist)
    {
      hide Output.Valid, Usable, Effective, OutputBuffer.Place, OutputBuffer.Keeps, NeedsMore, TStart;
      NoBytesSummed();
      EmptyBuffer(r);
      assert [] + ByteBits(stream) == ByteBits(stream);
      KeptAtStart();
    }

    lemma KeptAtStart()
      requires Valid()
      ensures OutputBuffer.Keeps(out.buf[..], mode.reach, out.pos, out.hist)
    {
      hide Reader.Valid, StateOk, Lean, OutputBuffer.Keeps;
    }
  }

  /** The stream has no result, or one that needed a bit string that is no code. */
  ghost predicate Dirty(r: Res) {
    r.Some? ==> !r.value.clean
  }

  lemma Tainted(m: Mode, fin: bool, l: Lens, d: Lens, sym: nat, p: Bitstring, h: Bytes, clean: bool)
    requires sym >= 256
    ensures !clean ==> Dirty(if sym == 256 then TAfter(m, fin, p, h, clean) else
                       Means(m, AfterSym(fin, l, d, sym), p, h, clean))
  {
    hide Means;
    if sym == 256 {
      AfterGrows(m, fin, p, h, clean);
    } else {
      MeansGrows(m, AfterSym(fin, l, d, sym), p, h, clean);
    }
  }

  lemma Kinds(s: Label)
    ensures s in {Begin, ZlibCmf, ZlibFlg, BlockHead, TableSize, CodeLength, LenExtra}
            || s in {LenCode, Symbol, PutLiteral, LengthExtra, Distance, DistExtra, Copy}
            || s in {RawHeader, RawBuffered, RawPut, RawCopy, Trailer, Finished, Failed}
  {
  }

  lemma StartMeans(m: Mode, cmf: Byte, p: Bitstring, h: Bytes, clean: bool)
    requires m.zlib
    ensures Means(m, CStart, ToBits(cmf, 8) + p, h, clean) == Means(m, CHeader(cmf), p, h, clean)
  {
    hide ToBits, HeaderOk, TBlocks, THeader;
    TokenCode.ByteBack(cmf, p);
  }

  lemma HeaderMeans(m: Mode, cmf: Byte, flg: Byte, p: Bitstring, h: Bytes)
    ensures Means(m, CHeader(cmf), ToBits(flg, 8) + p, h, true) ==
            Means(m, if HeaderOk(m.reach, cmf, flg) then CBlocks else CFailed, p, h, true)
  {
    hide ToBits, HeaderOk, TBlocks;
    TokenCode.ByteBack(flg, p);
  }

  lemma NothingMore(r: Reader)
    ensures Buffered(r) + ByteBits([]) == Buffered(r)
  {
  }

  lemma RingHasRoom(buf: Bytes, reach: Reach, pos: nat, h: Bytes)
    requires OutputBuffer.Keeps(buf, reach, pos, h)
    ensures reach.Ring? ==> reach.size > 0
  {
  }

  lemma EmptyBuffer(r: Reader)
    requires r.numBits == 0
    ensures Buffered(r) == []
  {
  }

  lemma WholeLeft(r: Reader)
    requires r.Valid()
    ensures |r.Pending()| % 8 == r.numBits % 8
  {
    hide ToBits, ByteBits;
  }

  lemma FixedBounds()
    ensures forall i :: 0 <= i < |Deflate.FixedLit()| ==> Deflate.FixedLit()[i] <= 15
    ensures forall i :: 0 <= i < |Deflate.FixedDist()| ==> Deflate.FixedDist()[i] <= 15
  {
    BlockHeader.FixedLitShape();
  }

  lemma FirstEight(c: Byte, q: Bitstring)
    ensures FromBits((ToBits(c, 8) + q)[..8]) == c && (ToBits(c, 8) + q)[8..] == q
  {
    Pow2Values();
    FromBitsToBits(c, 8);
    assert (ToBits(c, 8) + q)[..8] == ToBits(c, 8);
  }

  lemma SizeBound(k: nat, p: Bitstring)
    requires |p| >= SizeBits(k)
    ensures FromBits(p[..SizeBits(k)]) <= if k < 2 then 31 else 15
  {
    Pow2Values();
    hide FromBits;
  }

  lemma SmallLength(p: Bitstring)
    requires |p| >= 3
    ensures FromBits(p[..3]) < 8
  {
    Pow2Values();
    hide FromBits;
  }

  /** If nothing has been used since the call began, the stream goes on with what was buffered then. */
  lemma CarryFirst(r: Reader)
    requires r.Valid()
    ensures r.numBits == |r.carry| + 8 * r.pos ==> r.carry <= r.Pending()
  {
    hide ToBits, ByteBits;
  }

  lemma LeanAfter(lens: Lens, p: Bitstring, carry: Bitstring, n: int)
    requires Fits(lens, 15) && Lookup(lens, p).Some? && !Lookup(lens, p).value.missed
    requires n < 8 || (n == |carry| && carry <= p && Lookup(lens, carry) == None)
    ensures n - Lookup(lens, p).value.len < 8
  {
    if n >= 8 && Lookup(lens, p).value.len <= n {
      assert p[..n] == carry;
      LookupLess(lens, p, n);
      assert false;
    }
  }

  /** Only symbols of the code are found, or symbol 0. */
  lemma SymbolBound(lens: Lens, p: Bitstring)
    requires Lookup(lens, p).Some?
    ensures Lookup(lens, p).value.sym < |lens| || Lookup(lens, p).value.sym == 0
  {
    if |p| > FAST_BITS && Follow(lens, p, FAST_BITS).Some? {
      FollowBound(lens, p, FAST_BITS);
    }
  }

  lemma {:induction false} FollowBound(lens: Lens, p: Bitstring, d: nat)
    requires d < |p| && Follow(lens, p, d).Some?
    ensures Follow(lens, p, d).value.sym < |lens| || Follow(lens, p, d).value.sym == 0
    decreases |p| - d
  {
    if Inner(lens, p[..d + 1]) {
      FollowBound(lens, p, d + 1);
    }
  }

  lemma CopiedSmall(sizes: seq<nat>, acc: Lens, n: nat)
    requires n <= |acc| && n <= |sizes| && sizes[..n] == acc[..n] && forall i :: 0 <= i < |acc| ==> acc[i] <= 15
    ensures forall i :: 0 <= i < n ==> sizes[i] <= 15
  {
    assert forall i :: 0 <= i < n ==> sizes[i] == sizes[..n][i];
  }

  lemma RunBound(sym: nat, p: Bitstring)
    requires 16 <= sym <= 18 && |p| >= Deflate.RepeatBits(sym)
    ensures FromBits(p[..Deflate.RepeatBits(sym)]) + Deflate.RepeatBase(sym) <= 138
  {
    Pow2Values();
    hide FromBits;
  }

  /** The extra bits of a distance take all that was read ahead. */
  /** Whole bytes are put back until none is left or the call has none of its own any more. */
  lemma AllBack(n: nat, q: nat, pos: nat, n': nat, pos': nat)
    requires n == 8 * q && n' - 8 * pos' == n - 8 * pos && (n' < 8 || pos' == 0)
    ensures n' != 0 <==> q > pos
  {
  }

  lemma LeanBits(r: Reader, numBits: nat, pos: nat, extra: nat, dist: nat)
    requires r.numBits - 8 * r.pos == numBits - 8 * pos - extra
    ensures numBits < 8 * pos + 8 || numBits - 8 * pos < extra ==> r.numBits < 8 * r.pos + 8
  {
  }

  /** A linear buffer holds all of the output. */
  lemma LinearSize(o: Output)
    requires o.Valid()
    ensures o.reach.Linear? ==> |o.hist| == o.pos
  {
  }

  /** A ring always has a byte at every distance. */
  lemma RingSize(o: Output)
    requires o.Valid()
    ensures o.reach.Ring? ==> 0 < o.reach.size <= |o.hist|
  {
  }

  lemma EffectiveBound(reach: Reach, n: nat, dist: nat)
    requires Effective(reach, n, dist).Some?
    ensures 0 < Effective(reach, n, dist).value <= n
  {
  }

  lemma BufferedSize(r: Reader)
    ensures |Buffered(r)| == r.numBits
  {
  }

  lemma FailedNone(m: Mode, p: Bitstring, h: Bytes, clean: bool)
    ensures Means(m, CFailed, p, h, clean) == None
  {
  }

  lemma RunNone(m: Mode, fin: bool, nlit: nat, ndist: nat, lens: Lens, p: Bitstring, h: Bytes, clean: bool)
    ensures Means(m, CLenRun(fin, nlit, ndist, lens, [], 16), p, h, clean) == None
  {
  }

  lemma LensMeans(m: Mode, fin: bool, nlit: nat, ndist: nat, lens: Lens, acc: Lens, p: Bitstring, h: Bytes, clean: bool)
    ensures Means(m, CLens(fin, nlit, ndist, lens, acc), p, h, clean) ==
            TLens(m, fin, nlit, ndist, lens, acc, p, h, clean)
  {
    hide TLens;
  }

  lemma RepeatSmall(sym: nat)
    ensures Deflate.RepeatBits(sym) <= 7
  {
  }

  lemma AfterLiteral(fin: bool, l: Lens, d: Lens, sym: nat)
    requires sym < 256
    ensures AfterSym(fin, l, d, sym) == CLit(fin, l, d, sym)
  {
  }

  lemma LiteralMeans(m: Mode, fin: bool, l: Lens, d: Lens, c: Byte, p: Bitstring, h: Bytes, clean: bool)
    ensures Means(m, CLit(fin, l, d, c), p, h, clean) == Means(m, CSyms(fin, l, d), p, h + [c], clean)
  {
    hide TSyms;
  }

  lemma SymsMeans(m: Mode, fin: bool, l: Lens, d: Lens, p: Bitstring, h: Bytes, clean: bool)
    ensures Means(m, CSyms(fin, l, d), p, h, clean) == TSyms(m, fin, l, d, p, h, clean)
  {
    hide TSyms;
  }

  lemma RawMeans(m: Mode, fin: bool, got: Bytes, p: Bitstring, h: Bytes, clean: bool)
    ensures Means(m, CRaw(fin, got), p, h, clean) == TRaw(m, fin, got, p, h, clean)
  {
    hide TRaw;
  }

  lemma BytesMeans(m: Mode, fin: bool, n: nat, p: Bitstring, h: Bytes, clean: bool)
    ensures Means(m, CBytes(fin, n), p, h, clean) == TBytes(m, fin, n, p, h, clean)
  {
    hide TBytes;
  }

  lemma OutputRoom(o: Output)
    requires o.Valid()
    ensures o.pos <= o.end
  {
  }

  /** Where a distance leads: never out of a ring, and out of a linear buffer just when it is 0 or too large. */
  lemma EffectiveHere(o: Output, dist: nat)
    requires o.Valid()
    ensures Effective(o.reach, |o.hist|, dist) == None <==> o.reach.Linear? && (dist == 0 || dist > o.pos || o.pos == 0)
    ensures Effective(o.reach, |o.hist|, dist).Some? ==> OutputBuffer.Place(o.reach, o.pos, dist) >= 0
  {
    LinearSize(o);
    RingSize(o);
    if Effective(o.reach, |o.hist|, dist).Some? {
      KeepsAt(o.buf[..], o.reach, o.pos, o.hist, dist);
    }
  }

  lemma MatchMeans(m: Mode, fin: bool, l: Lens, d: Lens, len: nat, dist: nat, p: Bitstring, h: Bytes, clean: bool)
    ensures Means(m, CMatch(fin, l, d, len, dist), p, h, clean) == TMatch(m, fin, l, d, len, dist, p, h, clean)
  {
    hide TMatch;
  }
}
