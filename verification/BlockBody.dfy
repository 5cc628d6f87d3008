/**
 Writing the body of a compressed block: `tdefl_compress_lz_codes` of external/miniz.c, in the
 form that is compiled (no unaligned loads).
 */
module BlockBody {
  import opened Bits
  import opened BitWriter
  import opened Canonical
  import opened Deflate
  import opened HuffmanTable
  import opened TokenBuffer
  import opened TokenCode

  // ---------- finding a token and its flag ----------

  /** Where the reader is before token `i`: at the flag byte if one is due, else at the token. */
  function Pos(ts: Tokens, i: nat): nat
    requires i <= |ts|
  {
    if i % 8 == 0 then FlagPos(ts, i) else NextPos(ts, i)
  }

  lemma {:induction false} PosIncreases(ts: Tokens, i: nat, j: nat)
    requires i < j <= |ts|
    ensures Pos(ts, i) < Pos(ts, j)
  {
    FlagBefore(ts, j - 1);
    FlagBefore(ts, j);
    if i < j - 1 {
      PosIncreases(ts, i, j - 1);
    }
  }

  lemma {:induction false} TokenStored(buf: seq<Byte>, ts: Tokens, i: nat, n: nat)
    requires i < n <= |ts| && TokensStored(buf, ts, n)
    ensures TokenAt(buf, NextPos(ts, i), ts[i])
  {
    if i < n - 1 {
      TokenStored(buf, ts, i, n - 1);
    }
  }

  lemma {:induction false} StoredPrefix(buf: seq<Byte>, ts: Tokens, m: nat, n: nat)
    requires m <= n <= |ts| && TokensStored(buf, ts, n)
    ensures TokensStored(buf, ts, m)
  {
    if m < n {
      StoredPrefix(buf, ts, m, n - 1);
    }
  }

  lemma {:induction false} SameGroup(ts: Tokens, i: nat, k: nat)
    requires i + k <= |ts| && i % 8 + k < 8
    ensures FlagPos(ts, i + k) == FlagPos(ts, i)
  {
    if k > 0 {
      assert (i + k) % 8 == i % 8 + k;
      SameGroup(ts, i, k - 1);
    }
  }

  /** Bit `i % 8` of its group's flag byte says whether token `i` is a match. */
  lemma FlagBit(buf: seq<Byte>, ts: Tokens, i: nat)
    requires Closed(buf, ts) && i < |ts|
    ensures FlagPos(ts, i) < |buf| && ToBits(buf[FlagPos(ts, i)], 8)[i % 8] == ts[i].Match?
  {
    var q, r := i / 8, i % 8;
    if 8 * q + 8 <= |ts| {
      FlagBitFull(buf, ts, q, r);
    } else {
      FlagBitLast(buf, ts, q, r);
    }
    hide ToBits, FlagPos, Closed;
  }

  lemma FlagBitFull(buf: seq<Byte>, ts: Tokens, q: nat, r: nat)
    requires Closed(buf, ts) && r < 8 && 8 * q + 8 <= |ts|
    ensures FlagPos(ts, 8 * q + r) < |buf| && ToBits(buf[FlagPos(ts, 8 * q + r)], 8)[r] == ts[8 * q + r].Match?
  {
    var e := 8 * q + 8;
    StoredPrefix(buf, ts, e, |ts|);
    SameGroup(ts, 8 * q + r, 7 - r);
    assert e % 8 == 0;
    assert FlagByte(buf, FlagPos(ts, e - 1), Flags(ts, e - 8, e));
    hide ToBits, FlagPos;
  }

  lemma FlagBitLast(buf: seq<Byte>, ts: Tokens, q: nat, r: nat)
    requires Closed(buf, ts) && 8 * q + r < |ts| < 8 * q + 8
    ensures FlagPos(ts, 8 * q + r) < |buf| && ToBits(buf[FlagPos(ts, 8 * q + r)], 8)[r] == ts[8 * q + r].Match?
  {
    var n, g := |ts|, |ts| - 8 * q;
    assert n % 8 == g;
    SameGroup(ts, 8 * q + r, g - r);
    assert ToBits(buf[FlagPos(ts, n)], 8)[..g] == Flags(ts, n - g, n);
    hide ToBits, FlagPos;
    assert ToBits(buf[FlagPos(ts, n)], 8)[r] == Flags(ts, n - g, n)[r];
  }

  // ---------- the flag word ----------

  /** The flag byte under a sentinel bit, shifted right by the number of tokens read from the group. */
  function FlagWord(v: Byte, r: nat): nat
    requires r <= 8
  {
    FromBits((ToBits(v, 8) + [true])[r..])
  }

  lemma FlagWordLoad(v: Byte)
    ensures Or(v, 0x100) == FlagWord(v, 0)
  {
    Pow2Values();
    FromBitsToBits(v, 8);
    FromBitsConcat(ToBits(v, 8), [true]);
    FromBitsOne(true);
    OrDisjoint(v, 8, 1);
    assert (ToBits(v, 8) + [true])[0..] == ToBits(v, 8) + [true];
    hide ToBits, FromBits, Or, Pow2;
  }

  lemma FlagWordStep(v: Byte, r: nat)
    requires r < 8
    ensures FlagWord(v, r) != 1 && Shr(FlagWord(v, r), 1) == FlagWord(v, r + 1)
    ensures FlagWord(v, r) % 2 == if ToBits(v, 8)[r] then 1 else 0
  {
    hide ToBits;
    var w := (ToBits(v, 8) + [true])[r..];
    assert w == [ToBits(v, 8)[r]] + w[1..] && w[1..] == (ToBits(v, 8) + [true])[r + 1..];
    EndsInOne(w[1..]);
  }

  lemma {:induction false} EndsInOne(b: Bitstring)
    requires b != [] && b[|b| - 1]
    ensures FromBits(b) > 0
  {
    if |b| > 1 {
      EndsInOne(b[1..]);
    }
  }

  lemma FlagWordEnd(v: Byte)
    ensures FlagWord(v, 8) == 1
  {
    FromBitsOne(true);
    assert (ToBits(v, 8) + [true])[8..] == [true];
  }

  // ---------- writing ----------

  /** Writes the code of a symbol. */
  method PutCode(w: Writer, table: HuffTable, s: nat)
    requires w.Valid() && table.Ready() && table.limit <= 15 && Used(table.sizes[..], s)
    modifies w`pos, w`bitBuffer, w`bitsIn, w`log, w.buf
    ensures w.Valid() && w.log == old(w.log) + CodeBits(old(table.sizes[..]), s) && old(w.pos) <= w.pos
  {
    ToBitsFromBits(CodeBits(table.sizes[..], s));
    assert table.codes[s] == FromBits(CodeBits(table.sizes[..], s));
    assert table.sizes[s] <= 15;
    hide CodeBits;
    w.PutBits(table.codes[s], table.sizes[s]);
  }

  /** Writes the low `n` bits of `v`. */
  method PutLow(w: Writer, v: nat, n: nat)
    requires w.Valid() && n <= 16
    modifies w`pos, w`bitBuffer, w`bitsIn, w`log, w.buf
    ensures w.Valid() && w.log == old(w.log) + ToBits(Low(v, n), n) && old(w.pos) <= w.pos
  {
    LowShr(v, n);
    w.PutBits(Low(v, n), n);
  }

  /** Reads a match behind `pos` and writes its two codes with their extra bits. */
  method PutMatch(w: Writer, buf: array<Byte>, pos: nat, lit: HuffTable, dist: HuffTable, ghost t: Token)
    requires w.Valid() && w.buf != buf && lit.Ready() && dist.Ready() && lit.limit <= 15 && dist.limit <= 15
    requires t.Match? && TokenAt(buf[..], pos, t) && Encodable(lit.sizes[..], dist.sizes[..], t)
    modifies w`pos, w`bitBuffer, w`bitsIn, w`log, w.buf
    ensures w.Valid() && w.log == old(w.log) + TokenBits(old(lit.sizes[..]), old(dist.sizes[..]), t)
    ensures old(w.pos) <= w.pos
  {
    hide CodeBits, LenSym, DistSym, LenExtra, DistExtraOf, ToBits, Low, Fits;
    ghost var l, d, m, v := lit.sizes[..], dist.sizes[..], t.len - 3, t.dist - 1;
    var matchLen := buf[pos];
    var matchDist := Or(buf[pos + 1], Shl(buf[pos + 2], 8));
    TwoBytes(buf[pos + 1], buf[pos + 2]);
    ExtraBounds(m, v);
    ghost var log0 := w.log;
    PutCode(w, lit, LenSym(matchLen));
    PutLow(w, matchLen, LenExtra(matchLen));
    PutCode(w, dist, DistSym(matchDist));
    PutLow(w, matchDist, DistExtraOf(matchDist));
    assert w.log == log0 + CodeBits(l, LenSym(m)) + LenExtraBits(m) + CodeBits(d, DistSym(v)) + DistExtraBits(v);
    FourParts(log0, CodeBits(l, LenSym(m)), LenExtraBits(m), CodeBits(d, DistSym(v)), DistExtraBits(v));
  }

  lemma FourParts(a: Bitstring, b: Bitstring, c: Bitstring, d: Bitstring, e: Bitstring)
    ensures a + b + c + d + e == a + (b + c + d + e)
  {
  }

  lemma TwoBytes(a: Byte, b: Byte)
    ensures Or(a, Shl(b, 8)) == a + 256 * (b as int)
  {
    Pow2Values();
    OrDisjoint(a, 8, b);
  }

  lemma ExtraBounds(m: nat, d: nat)
    ensures LenExtra(m) <= 16 && DistExtraOf(d) <= 16
  {
  }

  /** The reader has read `i` tokens. */
  ghost predicate Reader(b: seq<Byte>, ts: Tokens, i: nat, pos: nat, flags: nat) {
    && i <= |ts| && pos == Pos(ts, i)
    && if i % 8 == 0 then flags == 1 else FlagPos(ts, i) < |b| && flags == FlagWord(b[FlagPos(ts, i)], i % 8)
  }

  /** The reader stands at token `i`, with its flag lowest in the flag word. */
  ghost predicate AtToken(b: seq<Byte>, ts: Tokens, i: nat, pos: nat, flags: nat) {
    && i < |ts| && pos == NextPos(ts, i)
    && FlagPos(ts, i) < |b| && flags == FlagWord(b[FlagPos(ts, i)], i % 8)
  }

  lemma LoadFlags(b: seq<Byte>, ts: Tokens, i: nat, pos: nat, flags: nat)
    requires Closed(b, ts) && Reader(b, ts, i, pos, flags) && i < |ts|
    ensures flags == 1 ==> pos < |b| && AtToken(b, ts, i, pos + 1, Or(b[pos], 0x100))
    ensures flags != 1 ==> AtToken(b, ts, i, pos, flags)
  {
    FlagBit(b, ts, i);
    FlagBefore(ts, i);
    if i % 8 == 0 {
      FlagWordLoad(b[pos]);
    } else {
      FlagWordStep(b[FlagPos(ts, i)], i % 8);
    }
    hide Closed, Or, FlagWord;
  }

  lemma NextToken(b: seq<Byte>, ts: Tokens, i: nat, pos: nat, flags: nat)
    requires Closed(b, ts) && AtToken(b, ts, i, pos, flags)
    ensures TokenAt(b, pos, ts[i]) && flags % 2 == if ts[i].Match? then 1 else 0
    ensures Reader(b, ts, i + 1, pos + Size(ts[i]), Shr(flags, 1))
  {
    hide FlagWord, TokenAt, ToBits, TokensStored, Flags, Shr;
    TokenStored(b, ts, i, |ts|);
    FlagBit(b, ts, i);
    FlagWordStep(b[FlagPos(ts, i)], i % 8);
    FlagWordEnd(b[FlagPos(ts, i)]);
  }

  /** Reads the next token and writes it. */
  method PutNext(w: Writer, buf: array<Byte>, pos: nat, flags: nat, lit: HuffTable, dist: HuffTable, ghost ts: Tokens,
      ghost i: nat) returns (pos': nat, flags': nat)
    requires w.Valid() && w.buf != buf && lit.Ready() && dist.Ready() && lit.limit <= 15 && dist.limit <= 15
    requires Closed(buf[..], ts) && Reader(buf[..], ts, i, pos, flags) && i < |ts|
    requires Encodable(lit.sizes[..], dist.sizes[..], ts[i])
    modifies w`pos, w`bitBuffer, w`bitsIn, w`log, w.buf
    ensures w.Valid() && old(w.pos) <= w.pos
    ensures w.log == old(w.log) + TokenBits(old(lit.sizes[..]), old(dist.sizes[..]), ts[i])
    ensures Reader(old(buf[..]), ts, i + 1, pos', flags')
  {
    hide Closed, Reader, AtToken, Fits, CodeBits, LenSym, DistSym;
    ghost var b := buf[..];
    LoadFlags(b, ts, i, pos, flags);
    pos', flags' := pos, flags;
    if flags == 1 {
      flags' := Or(buf[pos], 0x100);
      pos' := pos + 1;
    }
    NextToken(b, ts, i, pos', flags');
    if flags' % 2 == 1 {
      PutMatch(w, buf, pos', lit, dist, ts[i]);
      pos' := pos' + 3;
    } else {
      PutCode(w, lit, buf[pos']);
      pos' := pos' + 1;
    }
    flags' := Shr(flags', 1);
  }

  /**
   `tdefl_compress_lz_codes`: what is written is the code of every recorded token, in order, and
   the end-of-block symbol.  The result says whether the output buffer was large enough.
   */
  method CompressLzCodes(w: Writer, buf: array<Byte>, end: nat, lit: HuffTable, dist: HuffTable, ghost ts: Tokens)
    returns (fits: bool)
    requires w.Valid() && w.buf != buf && lit.Ready() && dist.Ready() && lit.limit <= 15 && dist.limit <= 15
    requires AllValid(ts) && Closed(buf[..], ts) && end == Pos(ts, |ts|)
    requires EncodableAll(lit.sizes[..], dist.sizes[..], ts) && Used(lit.sizes[..], 256)
    modifies w`pos, w`bitBuffer, w`bitsIn, w`log, w.buf
    ensures w.Valid() && old(w.pos) <= w.pos && fits == (w.pos < w.end)
    ensures w.log == old(w.log) + (TokensBits(old(lit.sizes[..]), old(dist.sizes[..]),
            ts) + CodeBits(old(lit.sizes[..]), 256))
  {
    hide Closed, Reader, TokenBits, CodeBits, Fits, Encodable, Used;
    ghost var l, d, b := lit.sizes[..], dist.sizes[..], buf[..];
    var pos: nat, flags: nat := 0, 1;
    ghost var i: nat := 0;
    ReaderStart(b, ts);
    while pos < end
      invariant Reader(b, ts, i, pos, flags) && i <= |ts|
      invariant buf[..] == b && lit.sizes[..] == l && dist.sizes[..] == d && lit.Ready() && dist.Ready()
      invariant w.Valid() && old(w.pos) <= w.pos
      invariant w.log == old(w.log) + TokensBits(l, d, ts[..i])
      decreases |ts| - i
    {
      ReaderMore(b, ts, i, pos, flags);
      pos, flags := PutNext(w, buf, pos, flags, lit, dist, ts, i);
      assert ts[..i + 1][..i] == ts[..i];
      ConcatAssoc(old(w.log), TokensBits(l, d, ts[..i]), TokenBits(l, d, ts[i]));
      i := i + 1;
      ReaderMore(b, ts, i, pos, flags);
    }
    ReaderMore(b, ts, i, pos, flags);
    assert ts[..i] == ts;
    PutCode(w, lit, 256);
    ConcatAssoc(old(w.log), TokensBits(l, d, ts), CodeBits(l, 256));
    fits := w.pos < w.end;
  }

  lemma ReaderStart(b: seq<Byte>, ts: Tokens)
    ensures Reader(b, ts, 0, 0, 1)
  {
  }

  /** The reader is at the end just when it has read everything. */
  lemma ReaderMore(b: seq<Byte>, ts: Tokens, i: nat, pos: nat, flags: nat)
    requires Reader(b, ts, i, pos, flags)
    ensures i <= |ts| && (pos < Pos(ts, |ts|) <==> i < |ts|)
  {
    if i < |ts| {
      PosIncreases(ts, i, |ts|);
    }
  }
}
