/**
 Printing JSON into a buffer that grows (external/cJSON.c, `ensure`, `update_offset` and the
 `print_` functions).
 */
module JsonPrint {
  import opened Bits
  import opened JsonRoundTrip
  import opened JsonString
  import opened JsonText
  import opened Utf8
  import opened Wrappers

  // ---------- sizes, for termination ----------

  function Size(v: Value): nat {
    match v
    case Array(c) => 1 + SizeItems(c)
    case Object(m) => 1 + SizeMembers(m)
    case _ => 1
  }

  function SizeItems(c: Items): nat {
    if c.NoItems? then 0 else Size(c.value) + SizeItems(c.next)
  }

  function SizeMembers(m: Members): nat {
    if m.NoMembers? then 0 else Size(m.value) + SizeMembers(m.next)
  }

  // ---------- no NUL in the text ----------

  lemma {:induction false} EscapedNoNul(s: Bytes)
    requires 0 !in s
    ensures 0 !in EscapedText(s)
  {
    if s != [] {
      EscapedNoNul(s[1..]);
    }
  }

  lemma {:induction false} DigitsNoNul(n: nat)
    ensures 0 !in Digits(n)
  {
    if n >= 10 {
      DigitsNoNul(n / 10);
    }
  }

  lemma {:induction false} TextNoNul(v: Value, fmt: bool, d: nat)
    requires Printable(v)
    ensures 0 !in Text(v, fmt, d)
    decreases v
  {
    match v {
      case Number(n) => DigitsNoNul(if n < 0 then -n else n);
      case String(s) => EscapedNoNul(s);
      case Array(c) => ItemsNoNul(c, fmt, d + 1);
      case Object(m) => MembersNoNul(m, fmt, d + 1);
      case _ =>
    }
  }

  lemma {:induction false} ItemsNoNul(c: Items, fmt: bool, d: nat)
    requires PrintableItems(c)
    ensures 0 !in ItemsText(c, fmt, d)
    decreases c
  {
    if c.Item? {
      TextNoNul(c.value, fmt, d);
      ItemsNoNul(c.next, fmt, d);
    }
  }

  lemma {:induction false} MembersNoNul(m: Members, fmt: bool, d: nat)
    requires PrintableMembers(m)
    ensures 0 !in MembersText(m, fmt, d)
    decreases m
  {
    if m.Member? {
      TextNoNul(m.value, fmt, d);
      EscapedNoNul(m.key);
      MembersNoNul(m.next, fmt, d);
    }
  }

  // ---------- the buffer ----------

  class PrintBuffer {
    var buffer: array<Byte>
    var offset: nat
    var depth: nat
    const noalloc: bool
    const format: bool

    ghost predicate Valid()
      reads this`buffer, this`offset, this`depth
    {
      depth <= NESTING_LIMIT && buffer.Length <= INT_MAX &&
          (offset < buffer.Length || (offset == 0 && buffer.Length == 0))
    }

    /** How many bytes the buffer can come to hold. */
    ghost function Cap(): nat
      reads this`buffer
    {
      if noalloc then buffer.Length else INT_MAX
    }

    ghost function Written(): Bytes
      reads this`buffer, this`offset, this`depth, buffer
      requires Valid()
    {
      buffer[..offset]
    }

    constructor (buffer: array<Byte>, noalloc: bool, format: bool)
      requires buffer.Length <= INT_MAX
      ensures Valid() && this.buffer == buffer && offset == 0 && depth == 0 && this.noalloc == noalloc
      ensures this.format == format
    {
      this.buffer, offset, depth, this.noalloc, this.format := buffer, 0, 0, noalloc, format;
    }

    /** `ensure`: room for `needed` bytes and one more, with what is written kept. */
    method Ensure(needed: nat) returns (ok: bool)
      requires Valid()
      modifies this`buffer
      ensures ok <==> offset + needed + 1 <= old(Cap())
      ensures Valid() && Cap() == old(Cap()) && Written() == old(Written())
      ensures (buffer == old(buffer) || (!noalloc && fresh(buffer)))
      ensures ok ==> offset + needed + 1 <= buffer.Length
    {
      if buffer.Length > 0 && offset >= buffer.Length {
        assert false;
        return false;
      }
      if needed > INT_MAX {
        return false;
      }
      var size := needed + offset + 1;
      if size <= buffer.Length {
        return true;
      }
      if noalloc {
        return false;
      }
      var newSize;
      if size > INT_MAX / 2 {
        if size > INT_MAX {
          return false;
        }
        newSize := INT_MAX;
      } else {
        newSize := size * 2;
      }
      Reallocate(newSize);
      ok := true;
    }

    /** `realloc`, which has to keep the bytes written. */
    method Reallocate(newSize: nat)
      requires Valid() && offset < newSize <= INT_MAX && !noalloc && buffer.Length <= newSize
      modifies this`buffer
      ensures fresh(buffer) && buffer.Length == newSize && Valid() && Cap() == old(Cap()) && Written() == old(Written())
    {
      var b := new Byte[newSize](_ => 0);
      forall i | 0 <= i < buffer.Length {
        b[i] := buffer[i];
      }
      buffer := b;
    }

    /** Bytes written at `at` behind what is there. */
    method Put(at: nat, t: Bytes)
      requires Valid() && at + |t| <= buffer.Length
      modifies buffer
      ensures buffer[..at] == old(buffer[..at]) && buffer[at..at + |t|] == t
      ensures buffer[..at + |t|] == old(buffer[..at]) + t
    {
      forall i | 0 <= i < |t| {
        buffer[at + i] := t[i];
      }
      assert buffer[..at + |t|] == buffer[..at] + buffer[at..at + |t|];
    }

    /** The text `t` stands behind `was`, and a NUL behind it. */
    ghost predicate Holds(was: Bytes, t: Bytes)
      reads this`buffer, buffer
    {
      |was| + |t| < buffer.Length && buffer[..|was| + |t|] == was + t && buffer[|was| + |t|] == 0
    }

    /** `update_offset` */
    method UpdateOffset(ghost was: Bytes, ghost t: Bytes)
      requires Valid() && Holds(was, t) && |was| <= offset <= |was| + |t| && 0 !in t
      modifies this`offset
      ensures Valid() && offset == |was| + |t| && Written() == was + t && Holds(was, t)
    {
      NulAt(buffer[..], was, t, offset);
      while buffer[offset] != 0
        invariant Valid() && |was| <= offset <= |was| + |t| && Holds(was, t)
        invariant (buffer[offset] == 0 <==> offset == |was| + |t|)
        decreases |was| + |t| - offset
      {
        offset := offset + 1;
        NulAt(buffer[..], was, t, offset);
      }
    }

    /** `strcpy` of a word, whose size with its NUL is asked for. */
    method PrintWord(t: Bytes) returns (ok: bool)
      requires Valid()
      modifies this`buffer, buffer
      ensures Valid() && Cap() == old(Cap()) && (buffer == old(buffer) || (!noalloc && fresh(buffer)))
      ensures ok <==> offset + |t| + 2 <= old(Cap())
      ensures ok ==> Holds(old(Written()), t)
    {
      ok := Ensure(|t| + 1);
      if ok {
        Put(offset, t + [0]);
        AfterPut(buffer[..], offset, t);
      }
    }

    /** `print_number` */
    method PrintNumber(n: int) returns (ok: bool)
      requires Valid()
      modifies this`buffer, this`offset, buffer
      ensures Cap() == old(Cap()) && (buffer == old(buffer) || (!noalloc && fresh(buffer)))
      ensures ok <==> old(offset) + |IntText(n)| + 2 <= old(Cap())
      ensures ok ==> Valid() && offset == old(offset) + |IntText(n)| && Holds(old(Written()), IntText(n))
    {
      hide IntText;
      var t := IntText(n);
      ok := PrintWord(t);
      if ok {
        offset := offset + |t|;
      }
    }

    /** `print_string_ptr` */
    method PrintString(s: Bytes) returns (ok: bool)
      requires Valid() && 0 !in s
      modifies this`buffer, buffer
      ensures Valid() && Cap() == old(Cap()) && (buffer == old(buffer) || (!noalloc && fresh(buffer)))
      ensures ok <==> offset + |Quoted(s)| + 2 <= old(Cap())
      ensures ok ==> Holds(old(Written()), Quoted(s))
    {
      hide EscapeText;
      var escapes := CountEscapes(s);
      EscapedLength(s);
      var outputLength := |s| + escapes;
      ok := Ensure(outputLength + 3);
      if !ok {
        return;
      }
      PutQuoted(s, escapes);
    }

    /** The quotes, and what is between them. */
    method PutQuoted(s: Bytes, escapes: nat)
      requires Valid() && 0 !in s && escapes == Added(s, |s|) && |EscapedText(s)| == |s| + escapes
      requires offset + |s| + escapes + 4 <= buffer.Length
      modifies buffer
      ensures Holds(old(Written()), Quoted(s))
    {
      hide EscapeText, EscapedText, Added;
      ghost var was := Written();
      Put(offset, [QUOTE]);
      PutInside(s, escapes, was + [QUOTE]);
      Put(offset + 1 + |s| + escapes, [QUOTE, 0]);
      Finish(buffer[..], was, EscapedText(s));
    }

    /** The string as it is, or with escapes. */
    method PutInside(s: Bytes, escapes: nat, ghost was: Bytes)
      requires Valid() && 0 !in s && escapes == Added(s, |s|) && |EscapedText(s)| == |s| + escapes
      requires offset + |s| + escapes + 4 <= buffer.Length
      requires |was| == offset + 1 && buffer[..offset + 1] == was
      modifies buffer
      ensures buffer[..offset + 1 + |s| + escapes] == was + EscapedText(s)
    {
      hide EscapeText, EscapedText, Added;
      if escapes == 0 {
        NothingEscaped(s);
        Put(offset + 1, s);
      } else {
        PutEscaped(s, |s| + escapes, was);
      }
    }

    /** A character or its escape. */
    method PutChar(at: nat, c: Byte) returns (end: nat)
      requires Valid() && c != 0 && at + |EscapeText(c)| + 1 <= buffer.Length
      modifies buffer
      ensures end == at + |EscapeText(c)| && buffer[..end] == old(buffer[..at]) + EscapeText(c)
    {
      if c > 31 && c != QUOTE && c != BACKSLASH {
        Put(at, [c]);
        end := at + 1;
      } else {
        Put(at, [BACKSLASH]);
        end := PutEscape(at + 1, c);
      }
    }

    /** The copying loop, with a character or its escape at a time. */
    method PutEscaped(s: Bytes, outputLength: nat, ghost was: Bytes)
      requires Valid() && 0 !in s && outputLength == |EscapedText(s)| && offset + outputLength + 4 <= buffer.Length
      requires |was| == offset + 1 && buffer[..offset + 1] == was
      modifies buffer
      ensures buffer[..offset + 1 + outputLength] == was + EscapedText(s)
    {
      hide EscapedText;
      var at, i: nat := offset + 1, 0;
      NoText();
      assert s[..0] == [];
      while i < |s|
        invariant i <= |s| && |EscapedText(s[..i])| <= outputLength && at == offset + 1 + |EscapedText(s[..i])|
        invariant buffer[..at] == was + EscapedText(s[..i])
      {
        EscapedMore(s, i);
        ghost var done := EscapedText(s[..i]);
        at := PutChar(at, s[i]);
        assert was + done + EscapeText(s[i]) == was + EscapedText(s[..i + 1]);
        i := i + 1;
      }
      assert s[..i] == s;
    }

    /** The switch behind the backslash. */
    method PutEscape(at: nat, b: Byte) returns (at': nat)
      requires Valid() && b != 0 && !(b > 31 && b != QUOTE && b != BACKSLASH) && at + |EscapeText(b)| <= buffer.Length
      requires at > 0 && buffer[at - 1] == BACKSLASH
      modifies buffer
      ensures at' == at - 1 + |EscapeText(b)| && buffer[..at'] == old(buffer[..at - 1]) + EscapeText(b)
    {
      var e: Byte :=
        if b == BACKSLASH then BACKSLASH else if b == QUOTE then QUOTE else if b == 8 then 98
        else if b == 12 then 102 else if b == 10 then 110 else if b == 13 then 114 else if b == 9 then 116 else 117;
      assert buffer[..at] == buffer[..at - 1] + [BACKSLASH];
      if e == 117 {
        Put(at, [117, 48, 48, HexLower(b / 16), HexLower(b % 16), 0]);
        at' := at + 5;
        assert buffer[..at'] == buffer[..at + 6][..at + 5];
      } else {
        Put(at, [e]);
        at' := at + 1;
      }
    }

    // ---------- values ----------

    /** `print_value` */
    method PrintValue(v: Value) returns (ok: bool)
      requires Valid() && Printable(v)
      modifies this`buffer, this`offset, this`depth, buffer
      ensures Cap() == old(Cap()) && (buffer == old(buffer) || (!noalloc && fresh(buffer)))
      ensures ok <==> old(offset) + |Text(v, format, old(depth))| + 2 <= old(Cap()) &&
                      Nesting(v) + old(depth) <= NESTING_LIMIT
      ensures ok ==> Valid() && depth == old(depth) && Holds(old(Written()), Text(v, format, old(depth)))
      ensures ok ==> old(offset) <= offset <= old(offset) + |Text(v, format, old(depth))|
      decreases Size(v), 0
    {
      hide IntText, Quoted, ItemsText, MembersText, NestingItems, NestingMembers;
      match v {
        case Null => ok := PrintWord(NULL);
        case False => ok := PrintWord(FALSE);
        case True => ok := PrintWord(TRUE);
        case Number(n) => ok := PrintNumber(n);
        case String(s) => ok := PrintString(s);
        case Array(c) => ok := PrintArray(c);
        case Object(m) => ok := PrintObject(m);
      }
    }

    /** A value, and the offset behind it. */
    method PrintWhole(v: Value) returns (ok: bool)
      requires Valid() && Printable(v)
      modifies this`buffer, this`offset, this`depth, buffer
      ensures Cap() == old(Cap()) && (buffer == old(buffer) || (!noalloc && fresh(buffer)))
      ensures ok <==> old(offset) + |Text(v, format, old(depth))| + 2 <= old(Cap()) &&
                      Nesting(v) + old(depth) <= NESTING_LIMIT
      ensures ok ==> Valid() && depth == old(depth) && Written() == old(Written()) + Text(v, format, depth)
      ensures ok ==> offset == old(offset) + |Text(v, format, depth)|
      decreases Size(v), 1
    {
      hide Text, Nesting;
      ghost var was := Written();
      ok := PrintValue(v);
      if ok {
        TextNoNul(v, format, depth);
        UpdateOffset(was, Text(v, format, depth));
      }
    }

    /** An element and what separates it from the next one. */
    method PrintItem(c: Items) returns (ok: bool)
      requires Valid() && c.Item? && Printable(c.value)
      modifies this`buffer, this`offset, this`depth, buffer
      ensures Cap() == old(Cap()) && (buffer == old(buffer) || (!noalloc && fresh(buffer)))
      ensures ok <==> old(offset) + |ItemText(c, format, old(depth))| + 2 <= old(Cap()) &&
                      Nesting(c.value) + old(depth) <= NESTING_LIMIT
      ensures ok ==> Valid() && depth == old(depth) && Written() == old(Written()) + ItemText(c, format, depth)
      ensures ok ==> offset == old(offset) + |ItemText(c, format, depth)|
      decreases SizeItems(c), 2
    {
      hide Text, Nesting;
      ok := PrintWhole(c.value);
      if ok && c.next.Item? {
        ok := PrintLine(Separator(format));
      }
    }

    lemma Room()
      requires Valid()
      ensures |Written()| == offset <= Cap() && depth <= NESTING_LIMIT
    {
    }

    /** Writes `t` and a NUL, and moves behind `t`. */
    method Advance(t: Bytes)
      requires Valid() && offset + |t| + 2 <= buffer.Length
      modifies this`offset, buffer
      ensures Valid() && Written() == old(Written()) + t && offset == old(offset) + |t|
    {
      Put(offset, t + [0]);
      AfterPut(buffer[..], offset, t);
      offset := offset + |t|;
    }

    /** `print_array` */
    method PrintArray(items: Items) returns (ok: bool)
      requires Valid() && PrintableItems(items)
      modifies this`buffer, this`offset, this`depth, buffer
      ensures Cap() == old(Cap()) && (buffer == old(buffer) || (!noalloc && fresh(buffer)))
      ensures var t := Text(Array(items), format, old(depth));
              ok <==> old(offset) + |t| + 2 <= old(Cap()) && Nesting(Array(items)) + old(depth) <= NESTING_LIMIT
      ensures var t := Text(Array(items), format, old(depth));
              ok ==> Valid() && depth == old(depth) && Holds(old(Written()), t) &&
                     old(offset) <= offset <= old(offset) + |t|
      decreases SizeItems(items), 4
    {
      hide ItemsText, ItemText, NestingItems, Text, Nesting;
      ArrayParts(items, format, depth);
      if depth >= NESTING_LIMIT {
        return false;
      }
      ghost var was, d := Written(), depth + 1;
      ok := Ensure(1);
      if !ok {
        return;
      }
      Append([91]);
      depth := depth + 1;
      ok := PrintItems(items);
      if !ok {
        return;
      }
      ok := Close([93], was, [91], ItemsText(items, format, d));
    }

    /** Ends an array or object that began behind `was`. */
    method Close(closing: Bytes, ghost was: Bytes, ghost open: Bytes, ghost inner: Bytes) returns (ok: bool)
      requires Valid() && depth > 0 && Written() == was + open + inner
      modifies this`buffer, this`depth, buffer
      ensures Cap() == old(Cap()) && (buffer == old(buffer) || (!noalloc && fresh(buffer)))
      ensures ok <==> offset + |closing| + 2 <= old(Cap())
      ensures ok ==> Valid() && depth == old(depth) - 1 && Holds(was, open + inner + closing)
    {
      ok := PrintWord(closing);
      if !ok {
        return;
      }
      TextParts(buffer[..], was, open, inner, closing);
      depth := depth - 1;
    }

    /** Writes `t`, with no NUL behind it. */
    method Append(t: Bytes)
      requires Valid() && offset + |t| + 1 <= buffer.Length
      modifies this`offset, buffer
      ensures Valid() && Written() == old(Written()) + t && offset == old(offset) + |t|
    {
      Put(offset, t);
      offset := offset + |t|;
    }

    /** The loop over the elements. */
    method PrintItems(items: Items) returns (ok: bool)
      requires Valid() && PrintableItems(items)
      modifies this`buffer, this`offset, this`depth, buffer
      ensures Cap() == old(Cap()) && (buffer == old(buffer) || (!noalloc && fresh(buffer)))
      ensures ok ==> old(offset) + |ItemsText(items, format, old(depth))| <= old(Cap()) &&
                     NestingItems(items) + old(depth) <= NESTING_LIMIT
      ensures !ok ==> old(offset) + |ItemsText(items, format, old(depth))| + 2 > old(Cap()) ||
                      NestingItems(items) + old(depth) > NESTING_LIMIT
      ensures ok ==> Valid() && depth == old(depth) && Written() == old(Written()) + ItemsText(items, format, depth)
      decreases SizeItems(items), 3
    {
      hide ItemsText, ItemText, Text, Nesting, NestingItems, Size, SizeItems, Printable, PrintableItems;
      hide Valid, Written, Cap;
      Room();
      ghost var was, d, whole := Written(), depth, ItemsText(items, format, depth);
      ghost var done: Bytes := [];
      var c := items;
      while c.Item?
        invariant Valid() && depth == d && Cap() == old(Cap()) && (buffer == old(buffer) || (!noalloc && fresh(buffer)))
        invariant PrintableItems(c) && SizeItems(c) <= SizeItems(items)
        invariant Written() == was + done && done + ItemsText(c, format, d) == whole && offset == old(offset) + |done|
        invariant NestingItems(items) + d <= NESTING_LIMIT <==> NestingItems(c) + d <= NESTING_LIMIT
        decreases SizeItems(c)
      {
        ItemsSplit(c, format, d);
        ok := PrintItem(c);
        ghost var t := ItemText(c, format, d);
        if !ok {
          return;
        }
        assert done + (t + ItemsText(c.next, format, d)) == done + t + ItemsText(c.next, format, d);
        done := done + t;
        c := c.next;
      }
      ItemsSplit(c, format, d);
      Room();
      ok := true;
    }

    /** `print_object` */
    method PrintObject(members: Members) returns (ok: bool)
      requires Valid() && PrintableMembers(members)
      modifies this`buffer, this`offset, this`depth, buffer
      ensures Cap() == old(Cap()) && (buffer == old(buffer) || (!noalloc && fresh(buffer)))
      ensures var t := Text(Object(members), format, old(depth));
              ok <==> old(offset) + |t| + 2 <= old(Cap()) && Nesting(Object(members)) + old(depth) <= NESTING_LIMIT
      ensures var t := Text(Object(members), format, old(depth));
              ok ==> Valid() && depth == old(depth) && Holds(old(Written()), t) &&
                     old(offset) <= offset <= old(offset) + |t|
      decreases SizeMembers(members), 4
    {
      hide MembersText, NestingMembers, Tabs, Text, Nesting;
      ObjectParts(members, format, depth);
      if depth >= NESTING_LIMIT {
        return false;
      }
      ghost var was, d := Written(), depth + 1;
      var open := [123] + NewLine(format);
      ok := Ensure(|open| + 1);
      if !ok {
        return;
      }
      Append(open);
      depth := depth + 1;
      ok := PrintMembers(members);
      if !ok {
        return;
      }
      var closing := (if format then Tabs(depth - 1) else []) + [125];
      ok := Close(closing, was, open, MembersText(members, format, d));
    }

    /** The loop over the members. */
    method PrintMembers(members: Members) returns (ok: bool)
      requires Valid() && PrintableMembers(members)
      modifies this`buffer, this`offset, this`depth, buffer
      ensures Cap() == old(Cap()) && (buffer == old(buffer) || (!noalloc && fresh(buffer)))
      ensures ok ==> old(offset) + |MembersText(members, format, old(depth))| <= old(Cap()) &&
                     NestingMembers(members) + old(depth) <= NESTING_LIMIT
      ensures !ok ==> old(offset) + |MembersText(members, format, old(depth))| + 2 > old(Cap()) ||
                      NestingMembers(members) + old(depth) > NESTING_LIMIT
      ensures ok ==> Valid() && depth == old(depth) && Written() == old(Written()) + MembersText(members, format, depth)
      decreases SizeMembers(members), 3
    {
      hide MembersText, MemberText, Text, Nesting, NestingMembers, Size, SizeMembers, Printable, PrintableMembers;
      hide Valid, Written, Cap;
      Room();
      ghost var was, d, whole := Written(), depth, MembersText(members, format, depth);
      ghost var done: Bytes := [];
      var m := members;
      while m.Member?
        invariant Valid() && depth == d && Cap() == old(Cap()) && (buffer == old(buffer) || (!noalloc && fresh(buffer)))
        invariant PrintableMembers(m) && SizeMembers(m) <= SizeMembers(members)
        invariant Written() == was + done && done + MembersText(m, format, d) == whole && offset == old(offset) + |done|
        invariant NestingMembers(members) + d <= NESTING_LIMIT <==> NestingMembers(m) + d <= NESTING_LIMIT
        decreases SizeMembers(m)
      {
        MembersSplit(m, format, d);
        ok := PrintMember(m);
        ghost var t := MemberText(m, format, d);
        if !ok {
          return;
        }
        assert done + (t + MembersText(m.next, format, d)) == done + t + MembersText(m.next, format, d);
        done := done + t;
        m := m.next;
      }
      MembersSplit(m, format, d);
      Room();
      ok := true;
    }

    /** A key, its value, and what ends the line. */
    method PrintMember(m: Members) returns (ok: bool)
      requires Valid() && m.Member? && 0 !in m.key && Printable(m.value)
      modifies this`buffer, this`offset, this`depth, buffer
      ensures Cap() == old(Cap()) && (buffer == old(buffer) || (!noalloc && fresh(buffer)))
      ensures ok <==> old(offset) + |MemberText(m, format, old(depth))| + 2 <= old(Cap()) &&
                      Nesting(m.value) + old(depth) <= NESTING_LIMIT
      ensures ok ==> Valid() && depth == old(depth) && Written() == old(Written()) + MemberText(m, format, depth)
      ensures ok ==> offset == old(offset) + |MemberText(m, format, depth)|
      decreases SizeMembers(m), 2
    {
      hide NewLine, Text, Nesting, KeyText, Valid, Written, Cap;
      Room();
      var line := (if m.next.NoMembers? then [] else [44]) + NewLine(format);
      KeyParts(Written(), KeyText(m.key, format, depth), Text(m.value, format, depth), line);
      ok := PrintKey(m.key);
      if ok {
        ok := PrintWhole(m.value);
      }
      if ok {
        ok := PrintLine(line);
      }
    }

    /** What follows an item or a member, in front of a NUL. */
    method PrintLine(line: Bytes) returns (ok: bool)
      requires Valid()
      modifies this`buffer, this`offset, buffer
      ensures Cap() == old(Cap()) && (buffer == old(buffer) || (!noalloc && fresh(buffer)))
      ensures ok <==> old(offset) + |line| + 2 <= old(Cap())
      ensures ok ==> Valid() && Written() == old(Written()) + line && offset == old(offset) + |line|
    {
      ok := Ensure(|line| + 1);
      if ok {
        Advance(line);
      }
    }

    /** The tabs, the key and the colon. */
    method PrintKey(key: Bytes) returns (ok: bool)
      requires Valid() && 0 !in key
      modifies this`buffer, this`offset, buffer
      ensures Cap() == old(Cap()) && (buffer == old(buffer) || (!noalloc && fresh(buffer)))
      ensures ok ==> Valid() && Written() == old(Written()) + KeyText(key, format, depth)
      ensures ok ==> offset == old(offset) + |KeyText(key, format, depth)|
      ensures !ok ==> old(offset) + |KeyText(key, format, depth)| + 1 > old(Cap())
    {
      hide Holds, Tabs, Quoted, Valid, Written, Cap;
      ghost var was := Written();
      var tabs, colon := if format then Tabs(depth) else [], if format then [58, 9] else [58];
      KeyParts(was, tabs, Quoted(key), colon);
      ok := true;
      if format {
        ok := PrintPlain(tabs);
      }
      if ok {
        ok := PrintName(key);
      }
      if ok {
        ok := PrintPlain(colon);
      }
    }

    lemma KeyParts(was: Bytes, tabs: Bytes, name: Bytes, colon: Bytes)
      ensures was + tabs + name + colon == was + (tabs + name + colon)
    {
    }

    /** A name, and the offset behind it. */
    method PrintName(key: Bytes) returns (ok: bool)
      requires Valid() && 0 !in key
      modifies this`buffer, this`offset, buffer
      ensures Cap() == old(Cap()) && (buffer == old(buffer) || (!noalloc && fresh(buffer)))
      ensures ok ==> Valid() && Written() == old(Written()) + Quoted(key) && offset == old(offset) + |Quoted(key)|
      ensures !ok ==> old(offset) + |Quoted(key)| + 1 >= old(Cap())
    {
      hide Holds, Quoted;
      ghost var was := Written();
      ok := PrintString(key);
      if ok {
        QuotedNoNul(key);
        UpdateOffset(was, Quoted(key));
      }
    }

    /** Appends what needs no escapes. */
    method PrintPlain(s: Bytes) returns (ok: bool)
      requires Valid()
      modifies this`buffer, this`offset, buffer
      ensures Cap() == old(Cap()) && (buffer == old(buffer) || (!noalloc && fresh(buffer)))
      ensures ok ==> Valid() && Written() == old(Written()) + s && offset == old(offset) + |s|
      ensures !ok ==> old(offset) + |s| + 1 > old(Cap())
    {
      ok := Ensure(|s|);
      if ok {
        Append(s);
      }
    }
  }

  /** `cJSON_Print` and `cJSON_PrintUnformatted`, where memory can be had. */
  method Print(v: Value, format: bool) returns (r: Option<Bytes>)
    requires Printable(v)
    ensures var t := Text(v, format, 0);
            r == if |t| + 2 <= INT_MAX && Nesting(v) <= NESTING_LIMIT then Some(t + [0]) else None
  {
    hide Text, Nesting;
    var buffer := new Byte[256](_ => 0);
    var p := new PrintBuffer(buffer, false, format);
    var ok := p.PrintValue(v);
    if !ok {
      return None;
    }
    TextNoNul(v, format, 0);
    p.UpdateOffset([], Text(v, format, 0));
    assert [] + Text(v, format, 0) == Text(v, format, 0);
    r := Some(p.buffer[..p.offset] + [0]);
  }

  /** `cJSON_PrintPreallocated`: two bytes more than the text are enough, and needed. */
  method PrintPreallocated(v: Value, buffer: array<Byte>, format: bool) returns (ok: bool)
    requires Printable(v) && buffer.Length <= INT_MAX
    modifies buffer
    ensures var t := Text(v, format, 0);
            && (ok <==> |t| + 2 <= buffer.Length && Nesting(v) <= NESTING_LIMIT)
            && (ok ==> buffer[..|t| + 1] == t + [0])
  {
    hide Text, Nesting;
    var p := new PrintBuffer(buffer, true, format);
    ok := p.PrintValue(v);
    if ok {
      ghost var n := |Text(v, format, 0)|;
      assert [] + Text(v, format, 0) == Text(v, format, 0);
      assert buffer[..n + 1] == buffer[..n] + [buffer[n]];
    }
  }

  lemma NulAt(b: Bytes, was: Bytes, t: Bytes, i: nat)
    requires |was| + |t| < |b| && b[..|was| + |t|] == was + t && b[|was| + |t|] == 0 && 0 !in t
    requires |was| <= i <= |was| + |t|
    ensures b[i] == 0 <==> i == |was| + |t|
  {
    if i < |was| + |t| {
      assert b[i] == (was + t)[i] == t[i - |was|];
    }
  }

  lemma AfterPut(b: Bytes, at: nat, t: Bytes)
    requires at + |t| + 1 <= |b| && b[at..at + |t + [0]|] == t + [0]
    ensures b[..at + |t|] == b[..at] + t && b[at + |t|] == 0
  {
    assert b[at..at + |t + [0]|][..|t|] == t;
    assert b[at + |t|] == b[at..at + |t + [0]|][|t|];
  }

  // ---------- arrays and objects ----------

  /** The text of an element with its separator. */
  function ItemText(c: Items, fmt: bool, depth: nat): Bytes
    requires c.Item?
  {
    Text(c.value, fmt, depth) + if c.next.NoItems? then [] else Separator(fmt)
  }

  lemma ItemsSplit(c: Items, fmt: bool, d: nat)
    ensures c.Item? ==> ItemsText(c, fmt, d) == ItemText(c, fmt, d) + ItemsText(c.next, fmt, d) && Size(c.value) > 0
    ensures c.Item? ==> NestingItems(c) == Max(Nesting(c.value), NestingItems(c.next))
    ensures c.Item? ==> SizeItems(c) == Size(c.value) + SizeItems(c.next)
    ensures c.Item? && PrintableItems(c) ==> Printable(c.value) && PrintableItems(c.next)
    ensures c.NoItems? ==> ItemsText(c, fmt, d) == [] && NestingItems(c) == 0
  {
    hide Text, Nesting, Printable;
    if c.Item? && c.next.NoItems? {
      assert ItemsText(c.next, fmt, d) == [];
    }
  }

  /** The text of a member up to the next one. */
  function MemberText(m: Members, fmt: bool, depth: nat): Bytes
    requires m.Member?
  {
    KeyText(m.key, fmt, depth) + Text(m.value, fmt, depth) + ((if m.next.NoMembers? then [] else [44]) + NewLine(fmt))
  }

  lemma MembersSplit(m: Members, fmt: bool, d: nat)
    ensures m.Member? ==>
            MembersText(m, fmt, d) == MemberText(m, fmt, d) + MembersText(m.next, fmt, d) && Size(m.value) > 0
    ensures m.Member? ==> NestingMembers(m) == Max(Nesting(m.value), NestingMembers(m.next))
    ensures m.Member? ==> SizeMembers(m) == Size(m.value) + SizeMembers(m.next)
    ensures m.Member? && PrintableMembers(m) ==> 0 !in m.key && Printable(m.value) && PrintableMembers(m.next)
    ensures m.NoMembers? ==> MembersText(m, fmt, d) == [] && NestingMembers(m) == 0
  {
    hide Text, KeyText, NewLine, Nesting, Printable;
  }

  lemma QuotedNoNul(s: Bytes)
    requires 0 !in s
    ensures 0 !in Quoted(s)
  {
    hide EscapedText;
    EscapedNoNul(s);
  }

  /** Opening, contents and closing are one text. */
  lemma TextParts(b: Bytes, was: Bytes, open: Bytes, inner: Bytes, closing: Bytes)
    requires var w := was + open + inner;
             |w| + |closing| < |b| && b[..|w| + |closing|] == w + closing && b[|w| + |closing|] == 0
    ensures var t := open + inner + closing; |was| + |t| < |b| && b[..|was| + |t|] == was + t && b[|was| + |t|] == 0
  {
    assert was + open + inner + closing == was + (open + inner + closing);
  }

  lemma ArrayParts(items: Items, fmt: bool, d: nat)
    ensures Text(Array(items), fmt, d) == [91] + ItemsText(items, fmt, d + 1) + [93]
    ensures Nesting(Array(items)) == 1 + NestingItems(items)
  {
    hide ItemsText;
  }

  lemma ObjectParts(members: Members, fmt: bool, d: nat)
    ensures Text(Object(members), fmt, d) ==
            ([123] + NewLine(fmt)) + MembersText(members, fmt, d + 1) + ((if fmt then Tabs(d) else []) + [125])
    ensures Nesting(Object(members)) == 1 + NestingMembers(members)
  {
    hide MembersText, Tabs;
  }

  // ---------- strings ----------

  /** The first loop of `print_string_ptr`: how many bytes the escapes add. */
  method CountEscapes(s: Bytes) returns (escapes: nat)
    ensures escapes == Added(s, |s|)
  {
    escapes := 0;
    var i := 0;
    while i < |s|
      invariant 0 <= i <= |s| && escapes == Added(s, i)
    {
      if s[i] in {QUOTE, BACKSLASH, 8, 12, 10, 13, 9} {
        escapes := escapes + 1;
      } else if s[i] < 32 {
        escapes := escapes + 5;
      }
      i := i + 1;
    }
  }

  function Added(s: Bytes, i: nat): nat
    requires i <= |s|
  {
    if i == 0 then 0 else Added(s, i - 1) + if s[i - 1] in {QUOTE, BACKSLASH, 8, 12, 10, 13, 9} then 1 else
        if s[i - 1] < 32 then 5 else 0
  }

  lemma NoText()
    ensures EscapedText([]) == []
  {
  }

  lemma {:induction false} EscapedConcat(a: Bytes, b: Bytes)
    ensures EscapedText(a + b) == EscapedText(a) + EscapedText(b)
    decreases |a|
  {
    hide EscapeText;
    if a == [] {
      assert a + b == b;
    } else {
      EscapedConcat(a[1..], b);
      assert (a + b)[0] == a[0] && (a + b)[1..] == a[1..] + b;
    }
  }

  lemma EscapedOne(b: Byte)
    ensures EscapedText([b]) == EscapeText(b)
  {
    hide EscapeText;
    assert [b][1..] == [];
    assert EscapedText([b]) == EscapeText(b) + EscapedText([]);
  }

  lemma EscapedMore(s: Bytes, i: nat)
    requires i < |s|
    ensures EscapedText(s[..i + 1]) == EscapedText(s[..i]) + EscapeText(s[i])
    ensures |EscapedText(s[..i + 1])| <= |EscapedText(s)|
    ensures s[i] > 31 && s[i] != QUOTE && s[i] != BACKSLASH ==> EscapeText(s[i]) == [s[i]]
  {
    assert s[..i + 1] == s[..i] + [s[i]];
    EscapedConcat(s[..i], [s[i]]);
    EscapedOne(s[i]);
    assert s == s[..i + 1] + s[i + 1..];
    EscapedConcat(s[..i + 1], s[i + 1..]);
  }

  lemma {:induction false} EscapedLengthTo(s: Bytes, i: nat)
    requires i <= |s|
    ensures |EscapedText(s[..i])| == i + Added(s, i)
  {
    if i > 0 {
      EscapedLengthTo(s, i - 1);
      EscapedMore(s, i - 1);
    } else {
      assert s[..0] == [];
    }
  }

  lemma EscapedLength(s: Bytes)
    ensures |EscapedText(s)| == |s| + Added(s, |s|) && |Quoted(s)| == |s| + Added(s, |s|) + 2
  {
    hide EscapedText, Added;
    EscapedLengthTo(s, |s|);
    assert s[..|s|] == s;
  }

  lemma {:induction false} PlainTo(s: Bytes, i: nat)
    requires i <= |s| && Added(s, i) == 0
    ensures EscapedText(s[..i]) == s[..i]
  {
    if i > 0 {
      PlainTo(s, i - 1);
      EscapedMore(s, i - 1);
      assert s[..i] == s[..i - 1] + [s[i - 1]];
    } else {
      assert s[..0] == [];
    }
  }

  lemma NothingEscaped(s: Bytes)
    requires Added(s, |s|) == 0
    ensures EscapedText(s) == s
  {
    PlainTo(s, |s|);
    assert s[..|s|] == s;
  }

  lemma Finish(b: Bytes, was: Bytes, t: Bytes)
    requires |was| + 1 + |t| + 2 <= |b| && b[..|was| + 1 + |t| + 2] == was + [QUOTE] + t + [QUOTE, 0]
    ensures b[..|was| + (|t| + 2)] == was + ([QUOTE] + t + [QUOTE]) && b[|was| + (|t| + 2)] == 0
  {
    var n := |was| + |t| + 2;
    assert b[..n] == b[..n + 1][..n];
    assert b[n] == b[..n + 1][n];
  }
}
