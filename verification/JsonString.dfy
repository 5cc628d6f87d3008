/**
 JSON string literals (external/cJSON.c, `parse_string`; section 7 of RFC 8259).

 The parser goes over a literal twice: once to find its end and to count its escapes, from which it
 takes the size of the result, and once to decode it.  The two passes can get out of step, because a
 malformed `\u` escape swallows backslashes that the first pass has counted.
 */
module JsonString {
  import opened Bits
  import opened Utf8
  import opened Wrappers

  const QUOTE: Byte := 34
  const BACKSLASH: Byte := 92

  // ---------- the first pass ----------

  /** The place of the closing quote. */
  function EndOf(c: Bytes, i: nat): (r: Option<nat>)
    ensures r.Some? ==> i <= r.value < |c| && c[r.value] == QUOTE
    decreases if i < |c| then |c| - i else 0
  {
    if i >= |c| then None
    else if c[i] == QUOTE then Some(i)
    else if c[i] == BACKSLASH then if i + 1 >= |c| then None else EndOf(c, i + 2)
    else EndOf(c, i + 1)
  }

  /** The first pass has just counted the backslash before `i`. */
  function Inside(c: Bytes, start: nat, i: nat): bool
    requires start <= i <= |c|
  {
    if i == start then false else !Inside(c, start, i - 1) && c[i - 1] == BACKSLASH
  }

  /** How many backslashes it has counted before `i`. */
  function Pairs(c: Bytes, start: nat, i: nat): (n: nat)
    requires start <= i <= |c|
    ensures n <= i - start
  {
    if i == start then 0 else Pairs(c, start, i - 1) + if !Inside(c, start, i - 1) &&
        c[i - 1] == BACKSLASH then 1 else 0
  }

  // ---------- the second pass ----------

  function Prepend(s: Bytes, r: Option<Bytes>): Option<Bytes> {
    match r
    case None => None
    case Some(t) => Some(s + t)
  }

  /** What a backslash followed by `e` stands for, but for `u`. */
  function Simple(e: Byte): Option<Byte> {
    if e == 98 then Some(8)
    else if e == 102 then Some(12)
    else if e == 110 then Some(10)
    else if e == 114 then Some(13)
    else if e == 116 then Some(9)
    else if e == QUOTE || e == BACKSLASH || e == 47 then Some(e)
    else None
  }

  /** The text of a literal from `p` to its closing quote at `end`. */
  function Unescape(c: Bytes, p: nat, end: nat): Option<Bytes>
    requires end < |c|
    decreases if p < end then end - p else 0
  {
    if p >= end then Some([])
    else if c[p] != BACKSLASH then Prepend([c[p]], Unescape(c, p + 1, end))
    else if c[p + 1] == 117 then
      match Escape(c, p, end)
      case None => None
      case Some((cp, n)) =>
        EscapeScalar(c, p, end);
        Prepend(Utf8.Encode(cp), Unescape(c, p + n, end))
    else
      match Simple(c[p + 1])
      case None => None
      case Some(b) => Prepend([b], Unescape(c, p + 2, end))
  }

  /** A string ends where C's strings do. */
  function CString(s: Bytes): (r: Bytes)
    ensures 0 !in r && r <= s
  {
    if s == [] || s[0] == 0 then [] else [s[0]] + CString(s[1..])
  }

  lemma {:induction false} CStringWhole(s: Bytes)
    requires 0 !in s
    ensures CString(s) == s
  {
    if s != [] {
      CStringWhole(s[1..]);
    }
  }

  /** The literal at `o`, and where it ends. */
  function StringAt(c: Bytes, o: nat): (r: Option<(Bytes, nat)>)
    requires o < |c|
    ensures r.Some? ==> o < r.value.1 <= |c| && 0 !in r.value.0
  {
    if c[o] != QUOTE then None else
    match EndOf(c, o + 1)
    case None => None
    case Some(end) =>
      match Unescape(c, o + 1, end)
      case None => None
      case Some(s) => Some((CString(s), end + 1))
  }

  // ---------- the size of the result ----------

  lemma {:induction false} PairsStep(c: Bytes, start: nat, i: nat, k: nat)
    requires start <= i && i + k <= |c|
    ensures Pairs(c, start, i) <= Pairs(c, start, i + k)
    ensures 2 * (Pairs(c, start, i + k) - Pairs(c, start, i)) <= k + if Inside(c, start, i + k) then 1 else 0
    decreases k
  {
    if k > 1 {
      PairsStep(c, start, i, k - 2);
    }
  }

  /** Digits count no pairs. */
  lemma {:induction false} PairsPlain(c: Bytes, start: nat, i: nat, k: nat)
    requires start <= i && i + k <= |c| && forall j :: i <= j < i + k ==> c[j] != BACKSLASH
    ensures Pairs(c, start, i + k) == Pairs(c, start, i)
    decreases k
  {
    if k > 0 {
      PairsPlain(c, start, i, k - 1);
    }
  }

  /**
   What is written up to `p` of a literal from `start` to `end`: no more than the bytes read less the
   pairs counted.
   */
  predicate Within(c: Bytes, start: nat, p: nat, end: nat, written: nat)
    requires start <= end < |c|
  {
    start <= p <= end + 1 && written + Pairs(c, start, if p <= end then p else end) <= p - start
  }

  lemma EscapeShort(c: Bytes, start: nat, p: nat, end: nat)
    requires start <= p < end < |c| && c[p] == BACKSLASH && c[p + 1] == 117 && Escape(c, p, end).Some?
    ensures var (cp, n) := Escape(c, p, end).value;
            p + n <= end && |Utf8.Encode(cp)| + Pairs(c, start, p + n) - Pairs(c, start, p) <= n
  {
    EscapeScalar(c, p, end);
    PairsStep(c, start, p, 6);
    var u := Hex4Value(c, p + 2);
    if u > 0 {
      PairsPlain(c, start, p + 2, 4);
      assert Pairs(c, start, p + 2) <= Pairs(c, start, p) + 1;
      if High(u) {
        PairsPlain(c, start, p + 8, 4);
        assert Pairs(c, start, p + 8) <= Pairs(c, start, p + 6) + 1;
      }
    }
  }

  /** One byte for two: the second cannot have been counted if the first was. */
  lemma SimpleShort(c: Bytes, start: nat, p: nat, end: nat, written: nat)
    requires start <= p < end < |c| && c[p] == BACKSLASH && !Inside(c, start, end) && Within(c, start, p, end, written)
    ensures Within(c, start, p + 2, end, written + 1)
  {
    if p + 2 <= end {
      assert Pairs(c, start, p + 2) <= Pairs(c, start, p) + 1;
    } else {
      assert p + 1 == end && Inside(c, start, p);
      assert Pairs(c, start, end) == Pairs(c, start, p);
    }
  }

  lemma PlainShort(c: Bytes, start: nat, p: nat, end: nat, written: nat)
    requires start <= p < end < |c| && c[p] != BACKSLASH && Within(c, start, p, end, written)
    ensures Within(c, start, p + 1, end, written + 1)
  {
  }

  lemma WithinRoom(c: Bytes, start: nat, p: nat, end: nat, written: nat)
    requires start <= end < |c| && Within(c, start, p, end, written)
    ensures written + Pairs(c, start, end) <= end + 1 - start
  {
    if p <= end {
      PairsStep(c, start, p, end - p);
    }
  }

  // ---------- the parser ----------

  /** The first loop. */
  method FindEnd(c: Bytes, o: nat) returns (ok: bool, end: nat, skipped: nat)
    requires o < |c|
    ensures EndOf(c, o + 1) == if ok then Some(end) else None
    ensures ok ==> o + 1 <= end < |c| && skipped == Pairs(c, o + 1, end) && !Inside(c, o + 1, end)
  {
    end, skipped := o + 1, 0;
    while end < |c| && c[end] != QUOTE
      invariant o + 1 <= end <= |c| && EndOf(c, o + 1) == EndOf(c, end)
      invariant skipped == Pairs(c, o + 1, end) && !Inside(c, o + 1, end)
    {
      if c[end] == BACKSLASH {
        if end + 1 >= |c| {
          return false, end, skipped;
        }
        assert Inside(c, o + 1, end + 1);
        skipped := skipped + 1;
        end := end + 1;
      }
      end := end + 1;
    }
    ok := end < |c|;
  }

  /** `parse_string`: what it writes never goes beyond the size found in the first pass. */
  method ParseString(c: Bytes, o: nat) returns (r: Option<(Bytes, nat)>)
    requires o < |c|
    ensures r == StringAt(c, o)
  {
    hide Unescape, Escape, Utf8.Encode, Pairs, Inside, Within;
    if c[o] != QUOTE {
      return None;
    }
    var ok, end, skipped := FindEnd(c, o);
    if !ok {
      return None;
    }
    var output := new Byte[end - o - skipped + 1](_ => 0);
    var p: nat, at: nat := o + 1, 0;
    StartWithin(c, o + 1, end);
    ghost var whole := Unescape(c, o + 1, end);
    NothingBefore(whole);
    assert output[..0] == [];
    while p < end
      invariant o + 1 <= p && Within(c, o + 1, p, end, at) && at + 1 <= output.Length
      invariant whole == Prepend(output[..at], Unescape(c, p, end))
    {
      UnescapeStep(c, p, end);
      ghost var was := output[..at];
      if c[p] != BACKSLASH {
        PlainShort(c, o + 1, p, end, at);
        WithinRoom(c, o + 1, p + 1, end, at + 1);
        output[at] := c[p];
        Written(was, output[..at + 1], [c[p]], Unescape(c, p + 1, end));
        at, p := at + 1, p + 1;
      } else if c[p + 1] == 117 {
        if Escape(c, p, end).Some? {
          EscapeRoom(c, o + 1, p, end, at);
        }
        var n, at' := Utf16ToUtf8(c, p, end, output, at);
        if n == 0 {
          return None;
        }
        Written(was, output[..at'], Utf8.Encode(Escape(c, p, end).value.0), Unescape(c, p + n, end));
        at, p := at', p + n;
      } else {
        var b := Simple(c[p + 1]);
        if b == None {
          return None;
        }
        SimpleShort(c, o + 1, p, end, at);
        WithinRoom(c, o + 1, p + 2, end, at + 1);
        output[at] := b.value;
        Written(was, output[..at + 1], [b.value], Unescape(c, p + 2, end));
        at, p := at + 1, p + 2;
      }
    }
    AllRead(c, p, end);
    ghost var text := output[..at];
    assert text + [] == text;
    output[at] := 0;
    assert output[..at] == text;
    r := Some((CString(output[..at]), end + 1));
  }

  lemma StartWithin(c: Bytes, start: nat, end: nat)
    requires start <= end < |c|
    ensures Within(c, start, start, end, 0) && Pairs(c, start, end) <= end - start
  {
  }

  lemma NothingBefore(r: Option<Bytes>)
    ensures Prepend([], r) == r
  {
    if r.Some? {
      assert [] + r.value == r.value;
    }
  }

  lemma Written(was: Bytes, now: Bytes, s: Bytes, rest: Option<Bytes>)
    requires now == was + s
    ensures Prepend(was, Prepend(s, rest)) == Prepend(now, rest)
  {
    if rest.Some? {
      assert was + (s + rest.value) == now + rest.value;
    }
  }

  lemma UnescapeStep(c: Bytes, p: nat, end: nat)
    requires p < end < |c|
    ensures Unescape(c, p, end) ==
              if c[p] != BACKSLASH then Prepend([c[p]], Unescape(c, p + 1, end))
              else if c[p + 1] == 117 then
                if Escape(c, p, end) == None || Escape(c, p, end).value.0 > 0x10FFFF then None
                else Prepend(Utf8.Encode(Escape(c, p, end).value.0), Unescape(c, p + Escape(c, p, end).value.1, end))
              else if Simple(c[p + 1]) == None then None
              else Prepend([Simple(c[p + 1]).value], Unescape(c, p + 2, end))
    ensures Escape(c, p, end).Some? ==> Escape(c, p, end).value.0 <= 0x10FFFF && Escape(c, p, end).value.1 > 0
  {
    hide Escape, Utf8.Encode;
    if Escape(c, p, end).Some? {
      EscapeScalar(c, p, end);
    }
  }

  lemma EscapeRoom(c: Bytes, start: nat, p: nat, end: nat, written: nat)
    requires start <= p < end < |c| && c[p] == BACKSLASH && c[p + 1] == 117 && Escape(c, p, end).Some?
    requires Within(c, start, p, end, written)
    ensures var (cp, n) := Escape(c, p, end).value;
            cp <= 0x10FFFF && Within(c, start, p + n, end, written + |Utf8.Encode(cp)|) &&
                written + |Utf8.Encode(cp)| + Pairs(c, start, end) <= end + 1 - start
  {
    hide Escape, Utf8.Encode, Pairs;
    EscapeScalar(c, p, end);
    EscapeShort(c, start, p, end);
    var (cp, n) := Escape(c, p, end).value;
    WithinRoom(c, start, p + n, end, written + |Utf8.Encode(cp)|);
  }

  lemma AllRead(c: Bytes, p: nat, end: nat)
    requires end <= p && end < |c|
    ensures Unescape(c, p, end) == Some([])
  {
  }
}
