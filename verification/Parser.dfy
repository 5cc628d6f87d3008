/**
 The lazy and greedy parsing of `tdefl_compress_normal` (external/miniz.c).

 At every step the recorded tokens, expanded after the bytes of earlier blocks, are exactly the
 input passed so far, except for one byte when a match is being held back to see whether the next
 position has a longer one.
 */
module Parser {
  import opened Bits
  import opened Deflate
  import opened Window
  import TokenBuffer

  datatype Flags = Flags(
    probes: nat,        // flags & TDEFL_MAX_PROBES_MASK
    zlib: bool,         // TDEFL_WRITE_ZLIB_HEADER
    adler: bool,        // TDEFL_COMPUTE_ADLER32
    greedy: bool,       // TDEFL_GREEDY_PARSING_FLAG
    rle: bool,          // TDEFL_RLE_MATCHES
    filter: bool,       // TDEFL_FILTER_MATCHES
    forceStatic: bool,  // TDEFL_FORCE_ALL_STATIC_BLOCKS
    forceRaw: bool      // TDEFL_FORCE_ALL_RAW_BLOCKS
  )

  /** `m_max_probes[long ? 1 : 0]` */
  function MaxProbes(flags: Flags, long: bool): (n: nat)
    ensures n > 0
  {
    if long then 1 + (flags.probes / 4 + 2) / 3 else 1 + (flags.probes + 2) / 3
  }

  /** Expanding `ts` after the first `base` bytes of the input gives its first `pos` bytes. */
  ghost predicate Parsed(hist: seq<Byte>, base: nat, ts: TokenBuffer.Tokens, pos: nat) {
    && base <= pos <= |hist| && pos == base + TokenBuffer.TotalLen(ts)
    && ExpandableAll(hist[..base], ts) && Expand(hist[..base], ts) == hist[..pos]
  }

  lemma ParsedStart(hist: seq<Byte>, base: nat)
    requires base <= |hist|
    ensures Parsed(hist, base, [], base)
  {
  }

  lemma ParsedLiteral(hist: seq<Byte>, base: nat, ts: TokenBuffer.Tokens, pos: nat)
    requires Parsed(hist, base, ts, pos) && pos < |hist|
    ensures Parsed(hist, base, ts + [Literal(hist[pos])], pos + 1)
  {
    var t := Literal(hist[pos]);
    ExpandSnoc(hist[..base], ts, t);
    hide ExpandableAll, Expand;
    assert (ts + [t])[..|ts|] == ts;
    assert hist[..pos] + [hist[pos]] == hist[..pos + 1];
  }

  lemma ParsedMatch(hist: seq<Byte>, base: nat, ts: TokenBuffer.Tokens, pos: nat, dist: nat, len: nat)
    requires Parsed(hist, base, ts, pos) && IsMatch(hist, pos, dist, len) && 3 <= len <= 258 && dist <= 32768
    ensures Parsed(hist, base, ts + [Match(len, dist)], pos + len)
  {
    var t := Match(len, dist);
    ExpandSnoc(hist[..base], ts, t);
    MatchExpands(hist, pos, dist, len);
    hide ExpandableAll, Expand;
    assert (ts + [t])[..|ts|] == ts;
  }

  lemma ParsedMore(hist: seq<Byte>, hist': seq<Byte>, base: nat, ts: TokenBuffer.Tokens, pos: nat)
    requires Parsed(hist, base, ts, pos) && hist <= hist'
    ensures Parsed(hist', base, ts, pos)
  {
    assert hist'[..base] == hist[..base] && hist'[..pos] == hist[..pos];
  }

  /** A match being held back starts at the byte before the lookahead. */
  ghost predicate Saved(hist: seq<Byte>, start: nat, lit: Byte, dist: nat, len: nat) {
    len > 0 ==>
      && 3 <= len < 128 && dist <= DICT_SIZE
      && 0 < start <= |hist| && lit == hist[start - 1] && IsMatch(hist, start - 1, dist, len)
  }

  lemma SavedMore(hist: seq<Byte>, hist': seq<Byte>, start: nat, lit: Byte, dist: nat, len: nat)
    requires Saved(hist, start, lit, dist, len) && hist <= hist'
    ensures Saved(hist', start, lit, dist, len)
  {
  }

  lemma SavedBounds(hist: seq<Byte>, start: nat, lit: Byte, dist: nat, len: nat)
    requires Saved(hist, start, lit, dist, len) && len > 0
    ensures 3 <= len < 128 && dist <= DICT_SIZE && 0 < start <= |hist| && start - 1 + len <= |hist|
    ensures lit == hist[start - 1] && IsMatch(hist, start - 1, dist, len)
  {
  }

  class Parse {
    const flags: Flags
    const window: Dictionary
    const buf: TokenBuffer.Buffer
    var savedDist: nat        // m_saved_match_dist
    var savedLen: nat         // m_saved_match_len
    var savedLit: Byte        // m_saved_lit
    ghost var base: nat       // bytes in earlier blocks

    ghost function Footprint(): set<object> {
      {this, window, window.dict, window.next, window.hash, buf, buf.codeBuf, buf.litCount, buf.distCount}
    }

    ghost predicate Apart() {
      {window.dict as object, window.next as object, window.hash as object} !!
        {buf.codeBuf as object, buf.litCount as object, buf.distCount as object}
    }

    /** The position up to which tokens have been recorded. */
    ghost function Pos(): int
      reads this, window
    {
      |window.hist| - window.lookaheadSize - if savedLen > 0 then 1 else 0
    }

    ghost predicate Valid()
      reads Footprint()
    {
      && Apart() && window.Valid() && buf.Valid()
      && (savedLen == 0 || 3 <= savedLen < 128)
      && Pos() >= 0 && Parsed(window.hist, base, buf.tokens, Pos())
      && Saved(window.hist, |window.hist| - window.lookaheadSize, savedLit, savedDist, savedLen)
    }

    constructor (flags: Flags, litCount: array<nat>, distCount: array<nat>)
      requires litCount.Length == 288 && distCount.Length == 32 && litCount != distCount
      requires forall s :: 0 <= s < 288 ==> litCount[s] == 0
      requires forall s :: 0 <= s < 32 ==> distCount[s] == 0
      ensures Valid() && this.flags == flags && fresh(buf) && fresh(buf.codeBuf)
      ensures fresh(window) && fresh(window.dict) && fresh(window.next) && fresh(window.hash)
      ensures buf.litCount == litCount && buf.distCount == distCount && window.hist == [] && base == 0
      ensures buf.tokens == [] && savedLen == 0 && buf.codePos == 1
    {
      this.flags := flags;
      window := new Dictionary();
      buf := new TokenBuffer.Buffer(litCount, distCount);
      savedDist, savedLen, savedLit, base := 0, 0, 0, 0;
      new;
      ParsedStart([], 0);
    }

    /** With nothing ahead no match is held back. */
    lemma NothingSaved()
      requires Valid() && window.lookaheadSize == 0
      ensures savedLen == 0 && Pos() == |window.hist|
    {
    }

    /** The best match at this position, or none. */
    method ChooseMatch() returns (dist: nat, len: nat)
      requires Valid()
      ensures dist == 0 ==> len <= 2 || len == savedLen
      ensures dist > 0 ==>
              3 <= len <= window.lookaheadSize && dist <= DICT_SIZE && IsMatch(window.hist, window.Start(), dist, len)
    {
      hide Parsed, Saved, IsMatch, TokenBuffer.Buffer.Valid;
      dist, len := 0, if savedLen > 0 then savedLen else 2;
      if flags.rle || flags.forceRaw {
        if window.dictSize > 0 && !flags.forceRaw {
          len := window.RunLength();
          if len < 3 {
            len := 0;
          } else {
            dist := 1;
          }
        }
      } else {
        dist, len := window.FindMatch(window.dictSize, window.lookaheadSize, MaxProbes(flags, len >= 32), dist, len);
      }
      if (len == 3 && dist >= 8 * 1024) || window.lookaheadPos % DICT_SIZE == dist || (flags.filter && len <= 5) {
        dist, len := 0, 0;
      }
    }

    /** The byte at the start of the lookahead. */
    method NextByte() returns (c: Byte)
      requires window.Valid() && window.lookaheadSize > 0
      ensures c == window.hist[window.Start()]
    {
      ghost var n, a := window.dictSize + window.lookaheadSize, window.Start();
      RingAt(window.dict[..], window.hist, n, a, 0);
      StartPlace(a, window.lookaheadPos);
      hide Ring;
      var pos := window.lookaheadPos % DICT_SIZE;
      c := window.dict[if pos < DICT_SIZE + MAX_MATCH - 2 then pos else DICT_SIZE + MAX_MATCH - 2];
    }

    method RecordLiteral(c: Byte, ghost pos: nat)
      requires Apart() && window.Valid() && buf.Valid() && buf.codePos + 4 <= TokenBuffer.SIZE
      requires Parsed(window.hist, base, buf.tokens, pos) && pos < |window.hist| && c == window.hist[pos]
      modifies buf, buf.codeBuf, buf.litCount
      ensures window.Valid() && buf.Valid() && buf.codePos <= old(buf.codePos) + 2
      ensures Parsed(window.hist, base, buf.tokens, pos + 1)
    {
      ParsedLiteral(window.hist, base, buf.tokens, pos);
      hide Parsed, Ring, TokenBuffer.Buffer.Valid;
      buf.RecordLiteral(c);
    }

    method RecordMatch(len: nat, dist: nat, ghost pos: nat)
      requires Apart() && window.Valid() && buf.Valid() && buf.codePos + 4 <= TokenBuffer.SIZE
      requires Parsed(window.hist, base, buf.tokens, pos) && 3 <= len <= 258 && dist <= DICT_SIZE
      requires IsMatch(window.hist, pos, dist, len)
      modifies buf, buf.codeBuf, buf.litCount, buf.distCount
      ensures window.Valid() && buf.Valid() && buf.codePos <= old(buf.codePos) + 4
      ensures Parsed(window.hist, base, buf.tokens, pos + len)
    {
      ParsedMatch(window.hist, base, buf.tokens, pos, dist, len);
      hide Parsed, Ring, TokenBuffer.Buffer.Valid, IsMatch;
      buf.RecordMatch(len, dist);
    }

    /** Holds a match back. */
    method Save(dist: nat, len: nat)
      requires Apart() && window.Valid() && buf.Valid() && Parsed(window.hist, base, buf.tokens, window.Start())
      requires 3 <= len <= window.lookaheadSize && len < 128 && dist <= DICT_SIZE
      requires IsMatch(window.hist, window.Start(), dist, len)
      modifies this`savedDist, this`savedLen, this`savedLit
      ensures Apart() && window.Valid() && buf.Valid() && Parsed(window.hist, base, buf.tokens, window.Start())
      ensures savedLen == len && Saved(window.hist, window.Start() + 1, savedLit, savedDist, savedLen)
    {
      var c := NextByte();
      savedLit, savedDist, savedLen := c, dist, len;
    }

    /** One step of the parser; the lookahead is as full as it will be. */
    method Step()
      requires Valid() && window.lookaheadSize > 0 && buf.codePos + 8 <= TokenBuffer.SIZE
      modifies this`savedDist, this`savedLen, this`savedLit, window`lookaheadPos, window`lookaheadSize, window`dictSize
      modifies buf, buf.codeBuf, buf.litCount, buf.distCount
      ensures Valid() && window.hist == old(window.hist) && window.lookaheadSize < old(window.lookaheadSize)
    {
      hide Parsed, Saved, TokenBuffer.Buffer.Valid, Ring, IsMatch;
      var dist, len := ChooseMatch();
      var toMove := Code(dist, len);
      window.Advance(toMove);
      if savedLen > 0 {
        SavedBounds(window.hist, |window.hist| - window.lookaheadSize, savedLit, savedDist, savedLen);
      }
    }

    /** Records what has been decided; the result is how far to move. */
    method Code(dist: nat, len: nat) returns (toMove: nat)
      requires Valid() && window.lookaheadSize > 0 && buf.codePos + 8 <= TokenBuffer.SIZE
      requires dist == 0 ==> len <= 2 || len == savedLen
      requires dist > 0 ==>
               3 <= len <= window.lookaheadSize && dist <= DICT_SIZE && IsMatch(window.hist, window.Start(), dist, len)
      modifies this`savedDist, this`savedLen, this`savedLit
      modifies buf, buf.codeBuf, buf.litCount, buf.distCount
      ensures window.Valid() && buf.Valid() && 0 < toMove <= window.lookaheadSize
      ensures Parsed(window.hist, base, buf.tokens, window.Start() + toMove - if savedLen > 0 then 1 else 0)
      ensures Saved(window.hist, window.Start() + toMove, savedLit, savedDist, savedLen)
    {
      hide Parsed, TokenBuffer.Buffer.Valid, Ring, IsMatch;
      ghost var start := window.Start();
      if savedLen > 0 {
        SavedBounds(window.hist, start, savedLit, savedDist, savedLen);
        if len > savedLen {
          RecordLiteral(savedLit, start - 1);
          toMove := RecordOrSave(dist, len, len >= 128);
        } else {
          RecordMatch(savedLen, savedDist, start - 1);
          toMove := savedLen - 1;
          savedLen := 0;
        }
      } else if dist == 0 {
        var c := NextByte();
        RecordLiteral(c, start);
        toMove := 1;
      } else {
        toMove := RecordOrSave(dist, len, flags.greedy || flags.rle || len >= 128);
      }
    }

    /** Records the match at once, or holds it back. */
    method RecordOrSave(dist: nat, len: nat, now: bool) returns (toMove: nat)
      requires Apart() && window.Valid() && buf.Valid() && buf.codePos + 4 <= TokenBuffer.SIZE
      requires Parsed(window.hist, base, buf.tokens, window.Start()) && (len >= 128 ==> now)
      requires 3 <= len <= window.lookaheadSize && 0 < dist <= DICT_SIZE
      requires IsMatch(window.hist, window.Start(), dist, len)
      modifies this`savedDist, this`savedLen, this`savedLit
      modifies buf, buf.codeBuf, buf.litCount, buf.distCount
      ensures window.Valid() && buf.Valid() && 0 < toMove <= window.lookaheadSize
      ensures Parsed(window.hist, base, buf.tokens, window.Start() + toMove - if savedLen > 0 then 1 else 0)
      ensures Saved(window.hist, window.Start() + toMove, savedLit, savedDist, savedLen)
    {
      hide Parsed, TokenBuffer.Buffer.Valid, Ring, IsMatch;
      if now {
        RecordMatch(len, dist, window.Start());
        savedLen := 0;
        toMove := len;
      } else {
        Save(dist, len);
        toMove := 1;
      }
    }

    /** Reads on, as far as the lookahead can hold. */
    method Fill(src: seq<Byte>, at: nat) returns (at': nat)
      requires Valid() && at <= |src|
      modifies window`lookaheadSize, window`dictSize, window`hist, window.dict, window.next, window.hash
      ensures Valid() && at <= at' <= |src| && window.hist == old(window.hist) + src[at..at'] && Pos() == old(Pos())
      ensures at' == |src| || window.lookaheadSize == MAX_MATCH
      ensures window.lookaheadSize == old(window.lookaheadSize) + (at' - at)
    {
      hide Ring, TokenBuffer.Buffer.Valid, Parsed, Saved;
      at' := window.Fill(src, at);
      ParsedMore(old(window.hist), window.hist, base, buf.tokens, Pos());
      SavedMore(old(window.hist), window.hist, |window.hist| - window.lookaheadSize, savedLit, savedDist, savedLen);
    }
  }
}
