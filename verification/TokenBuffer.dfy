/**
 The packed token buffer: `tdefl_record_literal`, `tdefl_record_match` and the reading side of
 `tdefl_compress_lz_codes` (external/miniz.c).

 Tokens lie in groups of eight behind a flag byte whose bits say which of them are matches.  The
 flag byte is never cleared: every token shifts its flag in at the top, so after eight tokens
 whatever was there before has been shifted out.  An unfinished group is shifted down at a flush.
 */
module TokenBuffer {
  import opened Bits
  import opened Deflate
  import opened TokenCode
  import HuffmanTree
  import LengthCoding

  const SIZE := 65536

  function Size(t: Token): nat {
    if t.Match? then 3 else 1
  }

  type Tokens = seq<Token>

  /** Where token `n` goes, and where the flag byte of its group is. */
  function NextPos(ts: Tokens, n: nat): nat
    requires n <= |ts|
  {
    if n == 0 then 1 else NextPos(ts, n - 1) + Size(ts[n - 1]) + if n % 8 == 0 then 1 else 0
  }

  function FlagPos(ts: Tokens, n: nat): nat
    requires n <= |ts|
  {
    if n == 0 then 0
    else if n % 8 == 0 then NextPos(ts, n - 1) + Size(ts[n - 1])
    else FlagPos(ts, n - 1)
  }

  /** The flags of the tokens `from..to`. */
  function Flags(ts: Tokens, from: nat, to: nat): (f: Bitstring)
    requires from <= to <= |ts|
    ensures |f| == to - from
  {
    seq(to - from, i requires 0 <= i < to - from => ts[from + i].Match?)
  }

  predicate TokenAt(buf: seq<Byte>, at: nat, t: Token) {
    && at + Size(t) <= |buf| && ValidToken(t)
    && match t
       case Literal(b) => buf[at] == b
       case Match(len, dist) => buf[at] == len - 3 && buf[at + 1] as int + 256 * (buf[at + 2] as int) == dist - 1
  }

  predicate FlagByte(buf: seq<Byte>, at: nat, flags: Bitstring) {
    at < |buf| && ToBits(buf[at], 8) == flags
  }

  /** The first `n` tokens are in the buffer, and the flag bytes of finished groups are right. */
  predicate TokensStored(buf: seq<Byte>, ts: Tokens, n: nat)
    requires n <= |ts|
  {
    n == 0 ||
    (&& TokensStored(buf, ts, n - 1) && TokenAt(buf, NextPos(ts, n - 1), ts[n - 1])
     && (n % 8 == 0 ==> FlagByte(buf, FlagPos(ts, n - 1), Flags(ts, n - 8, n))))
  }

  /** The flags of the unfinished group are at the top of its flag byte. */
  predicate Open(buf: seq<Byte>, ts: Tokens) {
    var g := |ts| % 8;
    var p := FlagPos(ts, |ts|);
    p < |buf| && ToBits(buf[p], 8)[8 - g..] == Flags(ts, |ts| - g, |ts|)
  }

  /** The flags of the unfinished group have been shifted down. */
  predicate Closed(buf: seq<Byte>, ts: Tokens) {
    var g := |ts| % 8;
    var p := FlagPos(ts, |ts|);
    TokensStored(buf, ts, |ts|) && (g != 0 ==> p < |buf| && ToBits(buf[p], 8)[..g] == Flags(ts, |ts| - g, |ts|))
  }

  lemma {:induction false} FlagBefore(ts: Tokens, n: nat)
    requires n <= |ts|
    ensures FlagPos(ts, n) < NextPos(ts, n) && (n % 8 == 0 ==> FlagPos(ts, n) == NextPos(ts, n) - 1)
  {
    if n > 0 {
      FlagBefore(ts, n - 1);
    }
  }

  lemma {:induction false} EndBound(ts: Tokens, n: nat)
    requires n <= |ts|
    ensures NextPos(ts, n) >= 1 + n + n / 8 && 8 * NextPos(ts, n) >= 9 * n + 1
  {
    if n > 0 {
      EndBound(ts, n - 1);
    }
  }

  /** Positions only depend on the tokens before them. */
  lemma {:induction false} Prefix(ts: Tokens, us: Tokens, n: nat)
    requires n <= |ts| && ts <= us
    ensures NextPos(us, n) == NextPos(ts, n) && FlagPos(us, n) == FlagPos(ts, n)
  {
    if n > 0 {
      Prefix(ts, us, n - 1);
    }
  }

  /** Writing past the tokens, or into the open flag byte, disturbs nothing. */
  lemma {:induction false} StoredFrame(buf: seq<Byte>, buf': seq<Byte>, ts: Tokens, us: Tokens, n: nat)
    requires n <= |ts| && ts <= us && TokensStored(buf, ts, n) && |buf| == |buf'|
    requires forall i :: 0 <= i < NextPos(ts, n) && i < |buf| && i != FlagPos(ts, n) ==> buf'[i] == buf[i]
    ensures TokensStored(buf', us, n)
  {
    if n > 0 {
      FlagBefore(ts, n - 1);
      Prefix(ts, us, n - 1);
      StoredFrame(buf, buf', ts, us, n - 1);
      StoredFrameOne(buf, buf', ts, us, n);
    }
  }

  lemma StoredFrameOne(buf: seq<Byte>, buf': seq<Byte>, ts: Tokens, us: Tokens, n: nat)
    requires 0 < n <= |ts| && ts <= us && TokensStored(buf, ts, n) && |buf| == |buf'|
    requires forall i :: 0 <= i < NextPos(ts, n) && i < |buf| && i != FlagPos(ts, n) ==> buf'[i] == buf[i]
    ensures TokenAt(buf', NextPos(ts, n - 1), us[n - 1])
    ensures n % 8 == 0 ==> FlagByte(buf', FlagPos(ts, n - 1), Flags(us, n - 8, n))
  {
    FlagBefore(ts, n - 1);
    hide ToBits;
    assert n % 8 == 0 ==> Flags(us, n - 8, n) == Flags(ts, n - 8, n);
  }

  /** Shifting a flag into the byte. */
  function ShiftFlag(v: Byte, flag: bool): (r: Byte)
    ensures ToBits(r, 8) == ToBits(v, 8)[1..] + [flag]
  {
    FlagShifted(v, flag);
    if flag then Or(Shr(v, 1), 0x80) else Shr(v, 1)
  }

  lemma FlagShifted(v: Byte, flag: bool)
    ensures var r := if flag then Or(Shr(v, 1), 0x80) else Shr(v, 1);
            r < 256 && ToBits(r, 8) == ToBits(v, 8)[1..] + [flag]
  {
    Pow2Values();
    var b := ToBits(v, 8);
    FromBitsToBits(v, 8);
    ShiftMask(b, 1);
    FromBitsConcat(b[1..], [flag]);
    FromBitsOne(flag);
    OrDisjoint(Shr(v, 1), 7, 1);
    ToBitsFromBits(b[1..] + [flag]);
    hide ToBits, FromBits, Shr, Or, Pow2;
  }

  lemma FromBitsOne(flag: bool)
    ensures FromBits([flag]) == if flag then 1 else 0
  {
    assert [flag][1..] == [];
  }

  /** Shifting an unfinished group down. */
  lemma FlagsDown(v: Byte, g: nat)
    requires g <= 8
    ensures Shr(v, 8 - g) < 256 && ToBits(Shr(v, 8 - g), 8)[..g] == ToBits(v, 8)[8 - g..]
  {
    hide ToBits, FromBits, Low, Shr, Pow2;
    var w := Shr(v, 8 - g);
    ToBitsShr(v, 8 - g, g);
    ToBitsShr(w, g, 8 - g);
    LowShr(v, 8 - g);
    MulMonotone(w, 1, Pow2(8 - g));
  }

  lemma FlagsSnoc(ts: Tokens, us: Tokens, from: nat)
    requires from <= |ts| < |us| && ts <= us
    ensures Flags(us, from, |ts| + 1) == Flags(ts, from, |ts|) + [us[|ts|].Match?]
  {
  }

  lemma FlagRecorded(v: Byte, ts: Tokens, t: Token, g: nat)
    requires g < 8 && g <= |ts| && ToBits(v, 8)[8 - g..] == Flags(ts, |ts| - g, |ts|)
    ensures ToBits(ShiftFlag(v, t.Match?), 8)[7 - g..] == Flags(ts + [t], |ts| - g, |ts| + 1)
  {
    FlagsSnoc(ts, ts + [t], |ts| - g);
    var w := ToBits(ShiftFlag(v, t.Match?), 8);
    hide ToBits, ShiftFlag, Flags;
    assert w[7 - g..] == ToBits(v, 8)[8 - g..] + [t.Match?];
  }

  /** Recording a token: its bytes behind the others, its flag at the top of the flag byte. */
  lemma Recorded(buf: seq<Byte>, buf': seq<Byte>, ts: Tokens, t: Token)
    requires |buf| == |buf'| && TokensStored(buf, ts, |ts|) && Open(buf, ts)
    requires NextPos(ts + [t], |ts| + 1) <= |buf| && TokenAt(buf', NextPos(ts, |ts|), t)
    requires forall i :: 0 <= i < NextPos(ts, |ts|) && i < |buf| && i != FlagPos(ts, |ts|) ==> buf'[i] == buf[i]
    requires buf'[FlagPos(ts, |ts|)] == ShiftFlag(buf[FlagPos(ts, |ts|)], t.Match?)
    ensures TokensStored(buf', ts + [t], |ts| + 1) && Open(buf', ts + [t])
  {
    var n, us := |ts|, ts + [t];
    var p := FlagPos(ts, n);
    RecordedFlag(buf[p], ts, t);
    StoredFrame(buf, buf', ts, us, n);
    Prefix(ts, us, n);
    hide TokensStored, NextPos, Flags, ToBits, TokenAt, ShiftFlag;
    StoredStep(buf', us, n, p);
    OpenStep(buf', us, n, p);
  }

  lemma RecordedFlag(v: Byte, ts: Tokens, t: Token)
    requires ToBits(v, 8)[8 - |ts| % 8..] == Flags(ts, |ts| - |ts| % 8, |ts|)
    ensures FlagMatches(ShiftFlag(v, t.Match?), ts + [t], |ts|)
  {
    if |ts| % 8 == 7 {
      RecordedFull(v, ts, t);
    } else {
      FlagRecorded(v, ts, t, |ts| % 8);
    }
    hide ToBits, ShiftFlag, Flags;
  }

  /** The flag byte after token `n` has shifted its flag in. */
  predicate FlagMatches(v: Byte, us: Tokens, n: nat) {
    && n < |us|
    && (if n % 8 == 7 then ToBits(v, 8) == Flags(us, n - 7, n + 1) else
       ToBits(v, 8)[7 - n % 8..] == Flags(us, n - n % 8, n + 1))
  }

  lemma StoredStep(buf: seq<Byte>, us: Tokens, n: nat, p: nat)
    requires n < |us| && TokensStored(buf, us, n) && TokenAt(buf, NextPos(us, n), us[n])
    requires p == FlagPos(us, n) < |buf| && FlagMatches(buf[p], us, n)
    ensures TokensStored(buf, us, n + 1)
  {
    hide ToBits, Flags, TokenAt, NextPos, FlagPos;
  }

  lemma OpenStep(buf: seq<Byte>, us: Tokens, n: nat, p: nat)
    requires |us| == n + 1 && NextPos(us, n + 1) <= |buf|
    requires p == FlagPos(us, n) < |buf| && FlagMatches(buf[p], us, n)
    ensures Open(buf, us)
  {
    hide ToBits, Flags, NextPos;
    FlagBefore(us, n + 1);
    if n % 8 == 7 {
      NoFlags(buf[FlagPos(us, n + 1)], us);
    }
  }

  lemma RecordedFull(v: Byte, ts: Tokens, t: Token)
    requires |ts| % 8 == 7 && ToBits(v, 8)[1..] == Flags(ts, |ts| - 7, |ts|)
    ensures ToBits(ShiftFlag(v, t.Match?), 8) == Flags(ts + [t], |ts| - 7, |ts| + 1)
  {
    FlagRecorded(v, ts, t, 7);
    var w := ToBits(ShiftFlag(v, t.Match?), 8);
    assert w[0..] == w;
  }

  lemma NoFlags(v: Byte, ts: Tokens)
    ensures ToBits(v, 8)[8..] == Flags(ts, |ts|, |ts|)
  {
  }

  // ---------- symbol counts ----------

  function LitSym(t: Token): nat
    requires ValidToken(t)
  {
    match t
    case Literal(b) => b
    case Match(len, _) => LenSym(len - 3)
  }

  predicate AllValid(ts: Tokens) {
    forall i :: 0 <= i < |ts| ==> ValidToken(ts[i])
  }

  function LitSyms(ts: Tokens): (s: seq<nat>)
    requires AllValid(ts)
    ensures |s| == |ts|
  {
    if ts == [] then [] else LitSyms(ts[..|ts| - 1]) + [LitSym(ts[|ts| - 1])]
  }

  function DistSyms(ts: Tokens): (s: seq<nat>)
    requires AllValid(ts)
    ensures |s| <= |ts|
  {
    if ts == [] then []
    else
      var last := ts[|ts| - 1];
      DistSyms(ts[..|ts| - 1]) + if last.Match? then [DistSym(last.dist - 1)] else []
  }

  /** `count[s]` is how often `s` occurs. */
  ghost predicate Tally(count: seq<nat>, syms: seq<nat>) {
    && (forall s :: 0 <= s < |count| ==> count[s] == multiset(syms)[s])
    && HuffmanTree.Sum(count) == |syms|
  }

  lemma TallyOne(count: seq<nat>, syms: seq<nat>, s: nat)
    requires Tally(count, syms) && s < |count|
    ensures Tally(count[s := count[s] + 1], syms + [s]) && count[s] <= |syms|
  {
    LengthCoding.SumUpdate(count, s, 1);
    SumBound(count, s);
  }

  lemma {:induction false} SumBound(count: seq<nat>, s: nat)
    requires s < |count|
    ensures count[s] <= HuffmanTree.Sum(count)
  {
    if s > 0 {
      SumBound(count[1..], s - 1);
    }
  }

  lemma TallyNone(count: seq<nat>)
    requires forall s :: 0 <= s < |count| ==> count[s] == 0
    ensures Tally(count, [])
  {
    LengthCoding.SumZeros(count);
  }

  /** How many bytes the tokens stand for. */
  function TotalLen(ts: Tokens): nat {
    if ts == [] then 0 else TotalLen(ts[..|ts| - 1]) + TokenLen(ts[|ts| - 1])
  }

  function TokenLen(t: Token): nat {
    if t.Match? then t.len else 1
  }

  lemma {:induction false} TotalLenBound(ts: Tokens)
    requires AllValid(ts)
    ensures TotalLen(ts) <= 258 * |ts|
  {
    if ts != [] {
      TotalLenBound(ts[..|ts| - 1]);
    }
  }

  // ---------- the buffer ----------

  ghost predicate Holds(buf: seq<Byte>, codePos: nat, flagPos: nat, flagsLeft: nat, totalBytes: nat, ts: Tokens) {
    && |buf| == SIZE && AllValid(ts) && TokensStored(buf, ts, |ts|) && Open(buf, ts)
    && codePos == NextPos(ts, |ts|) <= SIZE && flagPos == FlagPos(ts, |ts|) && flagsLeft == 8 - |ts| % 8
    && totalBytes == TotalLen(ts)
  }

  lemma HoldsBounds(buf: seq<Byte>, codePos: nat, flagPos: nat, flagsLeft: nat, totalBytes: nat, ts: Tokens)
    requires Holds(buf, codePos, flagPos, flagsLeft, totalBytes, ts)
    ensures flagPos < codePos <= SIZE && 1 <= flagsLeft <= 8 && |ts| <= 58254 && AllValid(ts)
  {
    FlagBefore(ts, |ts|);
    EndBound(ts, |ts|);
  }

  lemma HoldsEmpty(buf: seq<Byte>)
    requires |buf| == SIZE
    ensures Holds(buf, 1, 0, 8, 0, [])
  {
    NoFlags(buf[0], []);
  }

  lemma HoldsRecord(buf: seq<Byte>, buf': seq<Byte>, codePos: nat, flagPos: nat, flagsLeft: nat, totalBytes: nat,
      ts: Tokens, t: Token)
    requires Holds(buf, codePos, flagPos, flagsLeft, totalBytes, ts) && codePos + 4 <= SIZE == |buf'|
    requires flagPos < codePos && TokenAt(buf', codePos, t)
    requires forall i :: 0 <= i < codePos && i != flagPos ==> buf'[i] == buf[i]
    requires buf'[flagPos] == ShiftFlag(buf[flagPos], t.Match?)
    ensures var c := codePos + Size(t);
            if flagsLeft == 1 then Holds(buf', c + 1, c, 8, totalBytes + TokenLen(t), ts + [t])
            else Holds(buf', c, flagPos, flagsLeft - 1, totalBytes + TokenLen(t), ts + [t])
  {
    Prefix(ts, ts + [t], |ts|);
    Recorded(buf, buf', ts, t);
    assert (ts + [t])[..|ts|] == ts;
    hide TokensStored, Open, TokenAt, ShiftFlag;
  }

  lemma SymsSnoc(ts: Tokens, t: Token)
    requires AllValid(ts) && ValidToken(t)
    ensures AllValid(ts + [t])
    ensures LitSyms(ts + [t]) == LitSyms(ts) + [LitSym(t)]
    ensures DistSyms(ts + [t]) == if t.Match? then DistSyms(ts) + [DistSym(t.dist - 1)] else DistSyms(ts)
  {
    assert (ts + [t])[..|ts|] == ts;
  }

  class Buffer {
    const codeBuf: array<Byte>      // m_lz_code_buf
    var codePos: nat                // m_pLZ_code_buf
    var flagPos: nat                // m_pLZ_flags
    var flagsLeft: nat              // m_num_flags_left
    var totalBytes: nat             // m_total_lz_bytes
    const litCount: array<nat>      // m_huff_count[0]
    const distCount: array<nat>     // m_huff_count[1]
    ghost var tokens: Tokens

    ghost predicate Valid()
      reads this, codeBuf, litCount, distCount
    {
      && codeBuf.Length == SIZE && litCount.Length == 288 && distCount.Length == 32 && litCount != distCount
      && AllValid(tokens)
      && Holds(codeBuf[..], codePos, flagPos, flagsLeft, totalBytes, tokens)
      && Tally(litCount[..], LitSyms(tokens)) && Tally(distCount[..], DistSyms(tokens))
    }

    constructor (litCount: array<nat>, distCount: array<nat>)
      requires litCount.Length == 288 && distCount.Length == 32 && litCount != distCount
      requires forall s :: 0 <= s < 288 ==> litCount[s] == 0
      requires forall s :: 0 <= s < 32 ==> distCount[s] == 0
      ensures Valid() && tokens == [] && fresh(codeBuf) && codePos == 1
      ensures this.litCount == litCount && this.distCount == distCount
    {
      codeBuf := new Byte[SIZE](_ => 0);
      this.litCount, this.distCount := litCount, distCount;
      codePos, flagPos, flagsLeft, totalBytes, tokens := 1, 0, 8, 0, [];
      new;
      HoldsEmpty(codeBuf[..]);
      TallyNone(litCount[..]);
      TallyNone(distCount[..]);
    }

    /** `tdefl_record_literal` */
    method RecordLiteral(lit: Byte)
      requires Valid() && codePos + 4 <= SIZE
      modifies this`codePos, this`flagPos, this`flagsLeft, this`totalBytes, this`tokens, codeBuf, litCount
      ensures Valid() && tokens == old(tokens) + [Literal(lit)] && codePos <= old(codePos) + 2
    {
      hide Holds, Tally, LitSyms, DistSyms, NextPos;
      ghost var t, was := Literal(lit), codeBuf[..];
      HoldsBounds(was, codePos, flagPos, flagsLeft, totalBytes, tokens);
      SymsSnoc(tokens, t);
      TallyOne(litCount[..], LitSyms(tokens), lit);
      totalBytes := totalBytes + 1;
      codeBuf[codePos] := lit;
      codeBuf[flagPos] := ShiftFlag(codeBuf[flagPos], false);
      litCount[lit] := (litCount[lit] + 1) % 65536;
      HoldsRecord(was, codeBuf[..], codePos, flagPos, flagsLeft, old(totalBytes), tokens, t);
      codePos := codePos + 1;
      NextFlag();
      tokens := tokens + [t];
    }

    /** The three bytes of a match, and its flag. */
    method PutMatch(len: nat, dist: nat)
      requires flagPos < codePos && codePos + 4 <= codeBuf.Length && 3 <= len <= 258 && 1 <= dist <= 32768
      modifies codeBuf
      ensures TokenAt(codeBuf[..], codePos, Match(len, dist))
      ensures forall i :: 0 <= i < codePos && i != flagPos ==> codeBuf[i] == old(codeBuf[i])
      ensures codeBuf[flagPos] == ShiftFlag(old(codeBuf[flagPos]), true)
    {
      codeBuf[codePos] := len - 3;
      codeBuf[codePos + 1] := (dist - 1) % 256;
      codeBuf[codePos + 2] := (dist - 1) / 256;
      codeBuf[flagPos] := ShiftFlag(codeBuf[flagPos], true);
    }

    /** Counts a flag off and, after eight, leaves room for the next flag byte. */
    method NextFlag()
      requires flagsLeft > 0
      modifies this`codePos, this`flagPos, this`flagsLeft
      ensures if old(flagsLeft) == 1 then flagsLeft == 8 && flagPos == old(codePos) && codePos == old(codePos) + 1
              else flagsLeft == old(flagsLeft) - 1 && flagPos == old(flagPos) && codePos == old(codePos)
    {
      flagsLeft := flagsLeft - 1;
      if flagsLeft == 0 {
        flagsLeft := 8;
        flagPos := codePos;
        codePos := codePos + 1;
      }
    }

    /** `tdefl_record_match` */
    method RecordMatch(len: nat, dist: nat)
      requires Valid() && codePos + 4 <= SIZE && 3 <= len <= 258 && 1 <= dist <= 32768
      modifies this`codePos, this`flagPos, this`flagsLeft, this`totalBytes, this`tokens, codeBuf, litCount, distCount
      ensures Valid() && tokens == old(tokens) + [Match(len, dist)] && codePos <= old(codePos) + 4
    {
      hide Holds, Tally, LitSyms, DistSyms, NextPos, LenSym, DistSym;
      ghost var t, was := Match(len, dist), codeBuf[..];
      HoldsBounds(was, codePos, flagPos, flagsLeft, totalBytes, tokens);
      SymsSnoc(tokens, t);
      var lenSym, distSym := LenSym(len - 3), DistSym(dist - 1);
      TallyOne(litCount[..], LitSyms(tokens), lenSym);
      TallyOne(distCount[..], DistSyms(tokens), distSym);
      totalBytes := totalBytes + len;
      PutMatch(len, dist);
      HoldsRecord(was, codeBuf[..], codePos, flagPos, flagsLeft, old(totalBytes), tokens, t);
      codePos := codePos + 3;
      NextFlag();
      distCount[distSym] := (distCount[distSym] + 1) % 65536;
      litCount[lenSym] := (litCount[lenSym] + 1) % 65536;
      tokens := tokens + [t];
    }

    /** At a flush: shifts down the flags of the last group, or drops its empty flag byte. */
    method Close() returns (end: nat)
      requires Valid()
      modifies this`codePos, codeBuf
      ensures AllValid(tokens) && Closed(codeBuf[..], tokens)
      ensures codePos == NextPos(tokens, |tokens|) - if |tokens| % 8 == 0 then 1 else 0
      ensures end == codePos <= SIZE && NextPos(tokens, |tokens|) <= SIZE && |tokens| <= 58254
      ensures totalBytes == TotalLen(tokens) && Tally(litCount[..], LitSyms(tokens))
      ensures Tally(distCount[..], DistSyms(tokens))
    {
      HoldsBounds(codeBuf[..], codePos, flagPos, flagsLeft, totalBytes, tokens);
      CloseFlags(codeBuf[..], tokens);
      hide TokensStored, Open, Closed;
      codeBuf[flagPos] := Shr(codeBuf[flagPos], flagsLeft);
      codePos := codePos - if flagsLeft == 8 then 1 else 0;
      end := codePos;
    }

    /** After a flush: an empty buffer and cleared counts. */
    method Reset()
      requires codeBuf.Length == SIZE && litCount.Length == 288 && distCount.Length == 32 && litCount != distCount
      modifies this, litCount, distCount
      ensures Valid() && tokens == [] && codePos == 1
    {
      forall s | 0 <= s < litCount.Length {
        litCount[s] := 0;
      }
      forall s | 0 <= s < distCount.Length {
        distCount[s] := 0;
      }
      codePos, flagPos, flagsLeft, totalBytes, tokens := 1, 0, 8, 0, [];
      HoldsEmpty(codeBuf[..]);
      TallyNone(litCount[..]);
      TallyNone(distCount[..]);
    }
  }

  lemma CloseFlags(buf: seq<Byte>, ts: Tokens)
    requires TokensStored(buf, ts, |ts|) && Open(buf, ts) && NextPos(ts, |ts|) <= |buf|
    ensures var p, left := FlagPos(ts, |ts|), 8 - |ts| % 8;
            Shr(buf[p], left) < 256 && Closed(buf[p := Shr(buf[p], left)], ts)
  {
    hide TokensStored, ToBits, Shr, Flags, NextPos, FlagPos;
    var p, g := FlagPos(ts, |ts|), |ts| % 8;
    FlagsDown(buf[p], g);
    var buf' := buf[p := Shr(buf[p], 8 - g)];
    StoredFrame(buf, buf', ts, ts, |ts|);
    assert buf'[p] == Shr(buf[p], 8 - g);
  }
}
