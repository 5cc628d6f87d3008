/**
 Compressing the contents of the token buffer into one block: `tdefl_start_static_block`,
 `tdefl_start_dynamic_block` and `tdefl_compress_block` of external/miniz.c.
 */
module BlockWriter {
  import opened Bits
  import opened BitWriter
  import opened BlockHeader
  import opened Canonical
  import opened Deflate
  import opened HuffmanTable
  import opened LengthCoding
  import opened TokenCode
  import opened SymbolList
  import opened Wrappers
  import BlockBody
  import BlockSize
  import HuffmanTree
  import TokenBuffer

  class Tables {
    const lit: HuffTable      // table 0: literals, lengths and end of block
    const dist: HuffTable     // table 1: distances
    const clen: HuffTable     // table 2: code lengths

    ghost predicate Valid() {
      && lit.Valid() && dist.Valid() && clen.Valid()
      && lit.sizes.Length == 288 && dist.sizes.Length == 32 && clen.sizes.Length == 19
      && lit.limit == 15 && dist.limit == 15 && clen.limit == 7
      && lit.Arrays() !! dist.Arrays() && lit.Arrays() !! clen.Arrays() && dist.Arrays() !! clen.Arrays()
    }

    constructor ()
      ensures Valid() && fresh(lit.Arrays()) && fresh(dist.Arrays()) && fresh(clen.Arrays())
      ensures forall s :: 0 <= s < 288 ==> lit.count[s] == 0
      ensures forall s :: 0 <= s < 32 ==> dist.count[s] == 0
    {
      Pow2Values();
      lit := new HuffTable(288, 15);
      dist := new HuffTable(32, 15);
      clen := new HuffTable(19, 7);
    }

    /** `tdefl_start_static_block` */
    method StartStaticBlock(w: Writer)
      requires Valid() && w.Valid()
      modifies w`pos, w`bitBuffer, w`bitsIn, w`log, w.buf, lit.sizes, lit.codes, dist.sizes, dist.codes
      ensures w.Valid() && old(w.pos) <= w.pos && w.log == old(w.log) + ToBits(1, 2)
      ensures lit.Ready() && dist.Ready() && lit.sizes[..] == FixedLit() && dist.sizes[..] == FixedDist()
    {
      hide FixedLit, FixedDist, ToBits, Fits, CodeBits;
      FillFixed();
      Pow2Values();
      w.PutBits(1, 2);
      FixedLitFits();
      lit.OptimizeStatic();
      FixedDistFits();
      dist.OptimizeStatic();
    }

    method FillFixed()
      requires Valid()
      modifies lit.sizes, dist.sizes
      ensures lit.sizes[..] == FixedLit() && dist.sizes[..] == FixedDist()
    {
      Fill(lit.sizes, 0, 144, 8);
      Fill(lit.sizes, 144, 256, 9);
      Fill(lit.sizes, 256, 280, 7);
      Fill(lit.sizes, 280, 288, 8);
      Fill(dist.sizes, 0, 32, 5);
      FixedLitShape();
      assert |FixedLit()| == 288;
      hide FixedLit;
      assert lit.sizes[..] == FixedLit();
    }

    /** `tdefl_start_dynamic_block`: makes the two codes, and sends them. */
    method StartDynamicBlock(w: Writer) returns (ghost head: Bitstring, ghost nlit: nat, ghost ndist: nat)
      requires Valid() && w.Valid() && w.buf as object !in lit.Arrays() + dist.Arrays() + clen.Arrays()
      requires Countable(lit.count[..], dist.count[..])
      modifies w`pos, w`bitBuffer, w`bitsIn, w`log, w.buf, lit.Arrays(), dist.sizes, dist.codes, clen.Arrays()
      ensures w.Valid() && old(w.pos) <= w.pos && w.log == old(w.log) + (ToBits(2, 2) + head)
      ensures lit.Ready() && dist.Ready() && HeaderOf(head, lit.sizes[..], dist.sizes[..], nlit, ndist)
      ensures |head| <= 4551
      ensures NearBest(old(lit.count[..])[256 := 1], lit.sizes[..]) && NearBest(old(dist.count[..]), dist.sizes[..])
      ensures forall s :: 0 <= s < 288 ==> (lit.sizes[s] > 0 <==> old(lit.count[s]) > 0 || s == 256)
      ensures forall s :: 0 <= s < 32 ==> (dist.sizes[s] > 0 <==> old(dist.count[s]) > 0)
    {
      hide HuffTable.Ready, Writer.Valid, Tallied, NearBest;
      hide Fits, Trimmed, Acceptable, Countable, ToBits, HeaderOf;
      var numLit, numDist := MakeCodes();
      nlit, ndist := numLit, numDist;
      var packed, n := PackLengths(numLit, numDist);
      ghost var c := MakeLengthCode(packed, n);
      head := SendHeader(w, numLit, numDist, packed, n);
    }

    /**
     `tdefl_compress_block`: one block, after its final-block bit.  `fits` is whether the output
     buffer was large enough.
     */
    method CompressBlock(w: Writer, buf: array<Byte>, end: nat, isStatic: bool, ghost ts: TokenBuffer.Tokens)
      returns (fits: bool, ghost type_: nat, ghost body: Bitstring)
      requires Valid() && w.Valid() && w.buf != buf && Apart(w, buf)
      requires BlockBody.Pos(ts, |ts|) == end && TokenBuffer.AllValid(ts) && TokenBuffer.Closed(buf[..], ts)
      requires !isStatic ==> Counted(lit.count[..], dist.count[..], ts)
      modifies w`pos, w`bitBuffer, w`bitsIn, w`log, w.buf, lit.Arrays(), dist.sizes, dist.codes, clen.Arrays()
      ensures w.Valid() && old(w.pos) <= w.pos && fits == (w.pos < w.end)
      ensures w.log == old(w.log) + (ToBits(type_, 2) + body) && type_ < 4 && BlockOf(type_, body, ts)
      ensures 13500 * |w.log| <= 13500 * |old(w.log)| + 17380 * FlagWeight(ts, |ts|) + 61574400
    {
      hide Fits, Counted, HeaderOf, FixedLit, FixedDist, TokenBuffer.Closed, ToBits, CodeBits, TokensBits;
      hide Used, EncodableAll;
      hide NearBest;
      if isStatic {
        StartStaticBlock(w);
        StaticEncodes(ts);
        ghost var l, d := FixedLit(), FixedDist();
        fits := BlockBody.CompressLzCodes(w, buf, end, lit, dist, ts);
        type_, body := 1, TokensBits(l, d, ts) + CodeBits(l, 256);
        StaticBlock(ts);
        ConcatAssoc(old(w.log), ToBits(1, 2), body);
      } else {
        CountsCountable(lit.count[..], dist.count[..], ts);
        ghost var head, nlit, ndist := StartDynamicBlock(w);
        ghost var l, d := lit.sizes[..], dist.sizes[..];
        CountsEncode(l, d, old(lit.count[..]), old(dist.count[..]), ts);
        fits := BlockBody.CompressLzCodes(w, buf, end, lit, dist, ts);
        type_, body := 2, head + (TokensBits(l, d, ts) + CodeBits(l, 256));
        CountsSize(l, d, old(lit.count[..]), old(dist.count[..]), ts);
        DynamicBlock(head, l, d, nlit, ndist, ts);
        DynamicParts(old(w.log), ToBits(2, 2), head, TokensBits(l, d, ts) + CodeBits(l, 256));
      }
    }

    /** The output buffer and the token buffer are not among the tables. */
    ghost predicate Apart(w: Writer, buf: array<Byte>) {
      && w.buf as object !in lit.Arrays() + dist.Arrays() + clen.Arrays()
      && buf as object !in lit.Arrays() + dist.Arrays() + clen.Arrays()
    }

    /** Makes the codes for literals and distances, and counts the lengths to send. */
    method MakeCodes() returns (numLit: nat, numDist: nat)
      requires Valid() && Countable(lit.count[..], dist.count[..])
      modifies lit.Arrays(), dist.sizes, dist.codes
      ensures 257 <= numLit <= 286 && 1 <= numDist <= 30
      ensures lit.Ready() && dist.Ready() && Acceptable(lit.sizes[..]) && Acceptable(dist.sizes[..])
      ensures Trimmed(lit.sizes[..], numLit) && Trimmed(dist.sizes[..], numDist)
      ensures NearBest(old(lit.count[..])[256 := 1], lit.sizes[..]) && NearBest(old(dist.count[..]), dist.sizes[..])
      ensures forall s :: 0 <= s < 288 ==> (lit.sizes[s] > 0 <==> old(lit.count[s]) > 0 || s == 256)
      ensures forall s :: 0 <= s < 32 ==> (dist.sizes[s] > 0 <==> old(dist.count[s]) > 0)
    {
      hide HuffTable.Ready, NearBest;
      hide HuffmanTree.Sum, Fits, Acceptable;
      OneMore(lit.count[..], 256);
      lit.count[256] := 1;
      ghost var _, _ := lit.Optimize();
      ghost var _, _ := dist.Optimize();
      numLit := UsedLength(lit.sizes, 286, 257);
      numDist := UsedLength(dist.sizes, 30, 1);
      UsedTrimmed(lit.sizes[..], numLit, 286);
      UsedTrimmed(dist.sizes[..], numDist, 30);
      hide Trimmed;
    }

    /** Packs the lengths of both codes, as one sequence. */
    method PackLengths(numLit: nat, numDist: nat) returns (packed: array<nat>, n: nat)
      requires Valid() && 257 <= numLit <= 286 && 1 <= numDist <= 30
      requires lit.Ready() && dist.Ready()
      modifies clen.count
      ensures fresh(packed) && n <= packed.Length && n <= 320
      ensures Unpack(packed[..n], []) == Some(lit.sizes[..numLit] + dist.sizes[..numDist])
      ensures Tallied(clen.count[..], packed[..n])
    {
      hide Unpack, Tallied, Fits;
      SmallLengths(lit.sizes[..], dist.sizes[..], numLit, numDist);
      var toPack := new nat[320](_ => 0);
      CopyTo(lit.sizes, numLit, toPack, 0);
      CopyTo(dist.sizes, numDist, toPack, numLit);
      assert toPack[..numLit] == lit.sizes[..numLit];
      assert toPack[..numLit + numDist] == toPack[..numLit] + toPack[numLit..numLit + numDist];
      packed, n := Pack(toPack, numLit + numDist, lit.sizes[..numLit] + dist.sizes[..numDist]);
    }

    /** Packs `total` lengths. */
    method Pack(toPack: array<nat>, total: nat, ghost all: Lens) returns (packed: array<nat>, n: nat)
      requires Valid() && total <= toPack.Length == 320 && toPack != clen.count
      requires toPack[..total] == all && forall i :: 0 <= i < total ==> all[i] < 16
      modifies clen.count
      ensures fresh(packed) && n <= packed.Length && n <= 320
      ensures Unpack(packed[..n], []) == Some(all) && Tallied(clen.count[..], packed[..n])
    {
      hide Unpack, Tallied, LengthPacker.Valid;
      Fill(clen.count, 0, 19, 0);
      var packer := new LengthPacker(clen.count);
      var i := 0;
      while i < total
        invariant 0 <= i <= total && fresh(packer) && fresh(packer.packed) && packer.packed != toPack
        invariant packer.count == clen.count && toPack[..total] == all
        invariant packer.Valid(all[..i]) && packer.zeros < 138 && packer.repeats < 6
      {
        assert toPack[i] == all[i] && all[..i + 1] == all[..i] + [all[i]];
        packer.Push(toPack[i], all[..i]);
        i := i + 1;
      }
      assert all[..total] == all;
      packer.Finish(all);
      packed, n := packer.packed, packer.n;
    }

    /** Makes the code-length code. */
    method MakeLengthCode(packed: array<nat>, n: nat) returns (ghost c: Lens)
      requires Valid() && n <= packed.Length && n <= 320 && Tallied(clen.count[..], packed[..n])
      requires Unpack(packed[..n], []).Some? && packed !in clen.Arrays()
      modifies clen.sizes, clen.codes
      ensures c == clen.sizes[..] && clen.Ready() && Acceptable(c) && Sendable(c, packed[..n])
    {
      hide Unpack, Tallied, Fits, Acceptable, Sendable, HuffmanTree.Sum;
      ghost var p := packed[..n];
      SmallCount(clen.count[..], p);
      ghost var _, _ := clen.Optimize();
      c := clen.sizes[..];
      CodesSendable(clen.count[..], c, p);
    }

    /** Sends the whole header. */
    method SendHeader(w: Writer, numLit: nat, numDist: nat, packed: array<nat>, n: nat) returns (ghost head: Bitstring)
      requires Valid() && w.Valid() && w.buf as object != packed && w.buf as object !in clen.Arrays()
      requires 257 <= numLit <= 286 && 1 <= numDist <= 30 && n <= packed.Length && n <= 320
      requires Trimmed(lit.sizes[..], numLit) && Trimmed(dist.sizes[..], numDist)
      requires Acceptable(lit.sizes[..]) && Acceptable(dist.sizes[..])
      requires clen.Ready() && Acceptable(clen.sizes[..]) && Sendable(clen.sizes[..], packed[..n])
      requires Unpack(packed[..n], []) == Some(lit.sizes[..numLit] + dist.sizes[..numDist])
      modifies w`pos, w`bitBuffer, w`bitsIn, w`log, w.buf
      ensures w.Valid() && old(w.pos) <= w.pos && w.log == old(w.log) + (ToBits(2, 2) + head)
      ensures HeaderOf(head, old(lit.sizes[..]), old(dist.sizes[..]), numLit, numDist) && |head| <= 4551
    {
      ghost var p, c, l, d := packed[..n], clen.sizes[..], lit.sizes[..], dist.sizes[..];
      assert forall k :: 0 <= k < 19 ==> c[k] <= 7;
      hide ToBits, Sendable, Unpack, Acceptable, Trimmed, CodeLengthBits, PackedBits, HeaderOf, Order, Fits;
      var hclen := SendCounts(w, numLit, numDist);
      SendCodeLengths(w, hclen);
      SendPacked(w, packed, n);
      HeaderSent(l, d, numLit, numDist, c, hclen, p);
      head := DynamicHeader(numLit, numDist, c, hclen, p);
      BlockSize.HeaderSize(numLit, numDist, c, hclen, p);
      SixParts(old(w.log), ToBits(2, 2), ToBits(numLit - 257, 5), ToBits(numDist - 1, 5), ToBits(hclen - 4, 4),
          CodeLengthBits(c, 0, hclen), PackedBits(c, p));
    }

    /** Sends the type of the block and how many lengths follow. */
    method SendCounts(w: Writer, numLit: nat, numDist: nat) returns (numBitLengths: nat)
      requires Valid() && w.Valid() && 257 <= numLit <= 286 && 1 <= numDist <= 30
      requires w.buf as object !in clen.Arrays()
      modifies w`pos, w`bitBuffer, w`bitsIn, w`log, w.buf
      ensures w.Valid() && old(w.pos) <= w.pos && 4 <= numBitLengths <= 19 && SentBy(old(clen.sizes[..]), numBitLengths)
      ensures w.log == old(w.log) + ToBits(2, 2) + ToBits(numLit - 257, 5) + ToBits(numDist - 1, 5) +
                       ToBits(numBitLengths - 4, 4)
    {
      hide ToBits, Order;
      Pow2Values();
      w.PutBits(2, 2);
      w.PutBits(numLit - 257, 5);
      w.PutBits(numDist - 1, 5);
      numBitLengths := BitLengths();
      w.PutBits(numBitLengths - 4, 4);
    }

    /** How many lengths of the code-length code are sent. */
    method BitLengths() returns (n: nat)
      requires clen.sizes.Length == 19
      ensures 4 <= n <= 19 && SentBy(clen.sizes[..], n)
    {
      hide Order;
      var i := 18;
      while i >= 0 && clen.sizes[Order(i)] == 0
        invariant -1 <= i <= 18 && forall j :: i < j < 19 ==> clen.sizes[Order(j)] == 0
      {
        i := i - 1;
      }
      n := if i + 1 > 4 then i + 1 else 4;
    }

    method SendCodeLengths(w: Writer, n: nat)
      requires w.Valid() && clen.sizes.Length == 19 && n <= 19 && forall k :: 0 <= k < 19 ==> clen.sizes[k] < 8
      modifies w`pos, w`bitBuffer, w`bitsIn, w`log, w.buf
      ensures w.Valid() && old(w.pos) <= w.pos
      ensures w.log == old(w.log) + CodeLengthBits(old(clen.sizes[..]), 0, n)
    {
      ghost var c := clen.sizes[..];
      hide Order, ToBits;
      Pow2Values();
      var i := 0;
      while i < n
        invariant 0 <= i <= n && w.Valid() && old(w.pos) <= w.pos && clen.sizes[..] == c
        invariant w.log + CodeLengthBits(c, i, n) == old(w.log) + CodeLengthBits(c, 0, n)
      {
        ConcatAssoc(w.log, ToBits(c[Order(i)], 3), CodeLengthBits(c, i + 1, n));
        w.PutBits(clen.sizes[Order(i)], 3);
        i := i + 1;
      }
      assert w.log + [] == w.log;
    }

    method SendPacked(w: Writer, packed: array<nat>, n: nat)
      requires Valid() && w.Valid() && clen.Ready() && n <= packed.Length
      requires Sendable(clen.sizes[..], packed[..n]) && Unpack(packed[..n], []).Some?
      modifies w`pos, w`bitBuffer, w`bitsIn, w`log, w.buf
      ensures w.Valid() && old(w.pos) <= w.pos
      ensures w.log == old(w.log) + PackedBits(old(clen.sizes[..]), old(packed[..n]))
    {
      ghost var c, p := clen.sizes[..], packed[..n];
      ghost var acc: Lens := [];
      var i := 0;
      assert p[0..] == p;
      hide CodeBits, Fits, ToBits;
      while i < n
        invariant 0 <= i <= n && w.Valid() && old(w.pos) <= w.pos && clen.Ready() && clen.sizes[..] == c
        invariant packed[..n] == p
        invariant Sendable(c, p[i..]) && Unpack(p[i..], acc).Some?
        invariant w.log + PackedBits(c, p[i..]) == old(w.log) + PackedBits(c, p)
      {
        i, acc := SendOne(w, packed, n, i, p, acc);
      }
      assert w.log + [] == w.log;
    }

    /** Sends one code, with its repeat count if it has one. */
    method SendOne(w: Writer, packed: array<nat>, n: nat, i: nat, ghost p: Packed, ghost acc: Lens)
      returns (i': nat, ghost acc': Lens)
      requires Valid() && w.Valid() && clen.Ready() && i < n <= packed.Length && packed[..n] == p
      requires w.buf as object != packed
      requires Sendable(clen.sizes[..], p[i..]) && Unpack(p[i..], acc).Some?
      modifies w`pos, w`bitBuffer, w`bitsIn, w`log, w.buf
      ensures i < i' <= n && w.Valid() && old(w.pos) <= w.pos
      ensures Sendable(old(clen.sizes[..]), p[i'..]) && Unpack(p[i'..], acc').Some?
      ensures w.log + PackedBits(old(clen.sizes[..]), p[i'..]) == old(w.log) + PackedBits(old(clen.sizes[..]), p[i..])
    {
      ghost var c := clen.sizes[..];
      PackedHead(c, p, i, acc);
      hide Sendable, Unpack, PackedBits, CodeBits, Fits, ToBits, RunOf, Pow2;
      var code := packed[i];
      if code < 16 {
        i', acc' := i + 1, acc + [code];
        ConcatAssoc(w.log, CodeBits(c, code), PackedBits(c, p[i + 1..]));
        BlockBody.PutCode(w, clen, code);
      } else {
        var extra := packed[i + 1];
        i', acc' := i + 2, acc + RunOf(code, extra, acc);
        SixBits(w.log, CodeBits(c, code), ToBits(extra, RepeatBits(code)), PackedBits(c, p[i + 2..]));
        BlockBody.PutCode(w, clen, code);
        w.PutBits(extra, RepeatBits(code));
      }
    }
  }

  // ---------- what the counts say ----------

  /** The counts are those of the symbols of `ts`. */
  ghost predicate Counted(lit: seq<nat>, dist: seq<nat>, ts: TokenBuffer.Tokens) {
    && |lit| == 288 && |dist| == 32 && TokenBuffer.AllValid(ts) && |ts| <= 58254
    && TokenBuffer.Tally(lit, TokenBuffer.LitSyms(ts)) && TokenBuffer.Tally(dist, TokenBuffer.DistSyms(ts))
  }

  lemma {:induction false} SymsRange(ts: TokenBuffer.Tokens)
    requires TokenBuffer.AllValid(ts)
    ensures forall s :: s in TokenBuffer.LitSyms(ts) ==> s < 286 && s != 256
    ensures forall s :: s in TokenBuffer.DistSyms(ts) ==> s < 30
  {
    if ts != [] {
      hide LenSym, DistSym;
      SymsRange(ts[..|ts| - 1]);
    }
  }

  lemma {:induction false} SymsOccur(ts: TokenBuffer.Tokens, i: nat)
    requires TokenBuffer.AllValid(ts) && i < |ts|
    ensures TokenBuffer.LitSym(ts[i]) in TokenBuffer.LitSyms(ts)
    ensures ts[i].Match? ==> DistSym(ts[i].dist - 1) in TokenBuffer.DistSyms(ts)
  {
    hide LenSym, DistSym, TokenBuffer.LitSym;
    if i < |ts| - 1 {
      SymsOccur(ts[..|ts| - 1], i);
    }
  }

  lemma CountsCountable(lit: seq<nat>, dist: seq<nat>, ts: TokenBuffer.Tokens)
    requires Counted(lit, dist, ts)
    ensures Countable(lit, dist)
  {
    hide TokenBuffer.LitSyms, TokenBuffer.DistSyms, HuffmanTree.Sum;
    SymsRange(ts);
    var ls, ds := TokenBuffer.LitSyms(ts), TokenBuffer.DistSyms(ts);
    assert 256 !in ls && 286 !in ls && 287 !in ls && 30 !in ds && 31 !in ds;
    assert 256 !in multiset(ls) && 286 !in multiset(ls) && 287 !in multiset(ls) && 30 !in multiset(ds) &&
        31 !in multiset(ds);
  }

  /** Every symbol of the tokens has been counted, so it has a code. */
  lemma CountsEncode(l: Lens, d: Lens, lit: seq<nat>, dist: seq<nat>, ts: TokenBuffer.Tokens)
    requires Counted(lit, dist, ts) && |l| == 288 && |d| == 32
    requires forall s :: 0 <= s < 288 ==> (l[s] > 0 <==> lit[s] > 0 || s == 256)
    requires forall s :: 0 <= s < 32 ==> (d[s] > 0 <==> dist[s] > 0)
    ensures EncodableAll(l, d, ts) && Used(l, 256)
  {
    hide TokenBuffer.LitSyms, TokenBuffer.DistSyms, HuffmanTree.Sum, LenSym, DistSym;
    forall i | 0 <= i < |ts|
      ensures Encodable(l, d, ts[i])
    {
      SymsOccur(ts, i);
      assert multiset(TokenBuffer.LitSyms(ts))[TokenBuffer.LitSym(ts[i])] > 0;
      if ts[i].Match? {
        assert multiset(TokenBuffer.DistSyms(ts))[DistSym(ts[i].dist - 1)] > 0;
      }
    }
  }

  /** Tables that are nearly best for the counts make a small body. */
  lemma CountsSize(l: Lens, d: Lens, lit: seq<nat>, dist: seq<nat>, ts: TokenBuffer.Tokens)
    requires Counted(lit, dist, ts) && EncodableAll(l, d, ts) && Used(l, 256)
    requires NearBest(lit[256 := 1], l) && NearBest(dist, d)
    ensures 13500 * (|TokensBits(l, d, ts)| + |CodeBits(l, 256)|) <= 17380 * FlagWeight(ts, |ts|) + 108900
  {
    hide TokensBits, EncodableAll, TokenBuffer.LitSyms, TokenBuffer.DistSyms, TokenBuffer.Tally, NearBest, FlagWeight;
    hide HuffmanTree.Sum;
    CountsCountable(lit, dist, ts);
    BlockSize.DynamicSize(l, d, lit, dist, ts);
  }

  lemma StaticEncodes(ts: TokenBuffer.Tokens)
    requires TokenBuffer.AllValid(ts)
    ensures EncodableAll(FixedLit(), FixedDist(), ts) && Used(FixedLit(), 256) && FixedLit()[256] == 7
    ensures 25 * |TokensBits(FixedLit(), FixedDist(), ts)| <= 31 * FlagWeight(ts, |ts|)
  {
    hide FixedLit, FixedDist, TokensBits, EncodableAll;
    FixedSize(ts, |ts|);
    assert ts[..|ts|] == ts;
    FixedLitShape();
  }

  lemma DynamicParts(log: Bitstring, a: Bitstring, b: Bitstring, c: Bitstring)
    ensures log + (a + b) + c == log + (a + (b + c))
  {
  }

  /** The first code of what is still to be sent. */
  lemma PackedHead(c: Lens, p: Packed, i: nat, acc: Lens)
    requires i < |p| && Sendable(c, p[i..]) && Unpack(p[i..], acc).Some?
    ensures Used(c, p[i])
    ensures p[i] < 16 ==> Sendable(c, p[i + 1..]) && Unpack(p[i + 1..], acc + [p[i]]).Some?
                          && PackedBits(c, p[i..]) == CodeBits(c, p[i]) + PackedBits(c, p[i + 1..])
    ensures p[i] >= 16 ==> i + 1 < |p| && p[i + 1] < Pow2(RepeatBits(p[i])) && (p[i] == 16 ==> acc != [])
                           && Sendable(c, p[i + 2..]) && Unpack(p[i + 2..], acc + RunOf(p[i], p[i + 1], acc)).Some?
                           && PackedBits(c, p[i..]) ==
                              CodeBits(c, p[i]) + ToBits(p[i + 1], RepeatBits(p[i])) + PackedBits(c, p[i + 2..])
  {
    var q := p[i..];
    hide CodeBits, ToBits, RunOf, Pow2, RepeatBits;
    assert q[1..] == p[i + 1..];
    if q[0] >= 16 {
      assert q[2..] == p[i + 2..];
    }
  }

  lemma SixBits(log: Bitstring, a: Bitstring, b: Bitstring, c: Bitstring)
    ensures log + a + b + c == log + (a + b + c)
  {
  }

  lemma SmallCount(count: seq<nat>, p: Packed)
    requires Tallied(count, p) && |p| <= 320
    ensures HuffmanTree.Sum(count) < 65536
  {
  }

  lemma {:induction false} CodesBelow(p: Packed, acc: Lens)
    requires Unpack(p, acc).Some?
    ensures forall x :: x in Codes(p) ==> x < 19
    decreases |p|
  {
    if p != [] {
      CodesBelow(if p[0] < 16 then p[1..] else p[2..],
          if p[0] < 16 then acc + [p[0]] else acc + RunOf(p[0], p[1], acc));
    }
  }

  /** Every packed code has been counted, so it has a code. */
  lemma CodesSendable(count: seq<nat>, c: Lens, p: Packed)
    requires Tallied(count, p) && |c| == 19 && Unpack(p, []).Some?
    requires forall s :: 0 <= s < 19 ==> (c[s] > 0 <==> count[s] > 0)
    ensures Sendable(c, p)
  {
    CodesBelow(p, []);
    forall x | x in Codes(p)
      ensures Used(c, x)
    {
      assert multiset(Codes(p))[x] > 0;
      assert count[x] > 0;
    }
    SendableCodes(c, p, []);
  }

  lemma SixParts(log: Bitstring, a: Bitstring, b: Bitstring, c: Bitstring, d: Bitstring, e: Bitstring, f: Bitstring)
    ensures log + a + b + c + d + e + f == log + (a + (b + c + d + e + f))
  {
  }

  /** Counts that the optimizer can take: sums that fit 16 bits, and only symbols of the format. */
  ghost predicate Countable(lit: seq<nat>, dist: seq<nat>) {
    && |lit| == 288 && |dist| == 32
    && HuffmanTree.Sum(lit) < 65535 && HuffmanTree.Sum(dist) < 65536
    && lit[256] == 0 && lit[286] == 0 && lit[287] == 0 && dist[30] == 0 && dist[31] == 0
  }

  lemma OneMore(count: seq<nat>, s: nat)
    requires s < |count| && count[s] == 0
    ensures HuffmanTree.Sum(count[s := 1]) == HuffmanTree.Sum(count) + 1
  {
    LengthCoding.SumUpdate(count, s, 1);
  }

  /** The number of lengths up to the last one in use, at least `least`. */
  method UsedLength(sizes: array<nat>, most: nat, least: nat) returns (n: nat)
    requires 0 < least <= most <= sizes.Length
    ensures least <= n <= most && (forall k :: n <= k < most ==> sizes[k] == 0)
  {
    n := most;
    while n > least && sizes[n - 1] == 0
      invariant least <= n <= most && forall k :: n <= k < most ==> sizes[k] == 0
    {
      n := n - 1;
    }
  }

  lemma UsedTrimmed(lens: Lens, n: nat, most: nat)
    requires n <= most <= |lens| && (forall k :: n <= k < most ==> lens[k] == 0)
    requires (forall k :: most <= k < |lens| ==> lens[k] == 0)
    ensures Trimmed(lens, n)
  {
  }

  lemma HeaderSent(lit: Lens, dist: Lens, nlit: nat, ndist: nat, c: Lens, hclen: nat, p: Packed)
    requires |lit| == 288 && |dist| == 32 && 257 <= nlit <= 286 && 1 <= ndist <= 30
    requires Trimmed(lit, nlit) && Trimmed(dist, ndist) && Acceptable(lit) && Acceptable(dist)
    requires Sends(c, hclen, p, lit[..nlit] + dist[..ndist])
    ensures HeaderOf(DynamicHeader(nlit, ndist, c, hclen, p), lit, dist, nlit, ndist)
  {
    TrimAcceptable(lit, nlit);
    TrimAcceptable(dist, ndist);
    var head := DynamicHeader(nlit, ndist, c, hclen, p);
    hide Acceptable, Trimmed, Sendable, Unpack, DynamicHeader, Dynamic, DecodeSymbols;
    forall rest: Bitstring, out: seq<Byte>
      ensures Dynamic(head + rest, out) == DecodeSymbols(lit[..nlit], dist[..ndist], rest, out)
    {
      DynamicRead(lit[..nlit], dist[..ndist], c, hclen, p, rest, out);
    }
  }

  /** `memcpy` */
  method CopyTo(a: array<nat>, n: nat, b: array<nat>, at: nat)
    requires n <= a.Length && at + n <= b.Length && a != b
    modifies b
    ensures b[at..at + n] == a[..n] && b[..at] == old(b[..at])
  {
    forall i | 0 <= i < n {
      b[at + i] := a[i];
    }
  }

  lemma SmallLengths(lit: Lens, dist: Lens, numLit: nat, numDist: nat)
    requires Fits(lit, 15) && Fits(dist, 15) && numLit <= |lit| && numDist <= |dist|
    ensures forall i :: 0 <= i < numLit + numDist ==> (lit[..numLit] + dist[..numDist])[i] < 16
  {
    hide Canonical.End;
  }

  method Fill(a: array<nat>, from: nat, to: nat, v: nat)
    requires from <= to <= a.Length
    modifies a
    ensures forall i :: 0 <= i < a.Length ==> a[i] == if from <= i < to then v else old(a[i])
  {
    var i := from;
    while i < to
      invariant from <= i <= to
      invariant forall j :: 0 <= j < a.Length ==> a[j] == if from <= j < i then v else old(a[j])
    {
      a[i] := v;
      i := i + 1;
    }
  }
}
