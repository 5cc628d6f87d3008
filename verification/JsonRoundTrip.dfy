/**
 Parsing the printed text of a JSON value gives the value back (external/cJSON.c).
 */
module JsonRoundTrip {
  import opened Bits
  import opened JsonString
  import opened JsonText
  import opened Utf8
  import opened Wrappers

  lemma HasSplit(c: Bytes, o: nat, a: Bytes, b: Bytes)
    ensures HasAt(c, o, a + b) <==> HasAt(c, o, a) && HasAt(c, o + |a|, b)
  {
    if o + |a| + |b| <= |c| {
      assert c[o..o + |a + b|] == c[o..o + |a|] + c[o + |a|..o + |a| + |b|];
      if HasAt(c, o, a + b) {
        assert c[o..o + |a|] == (a + b)[..|a|] && c[o + |a|..o + |a| + |b|] == (a + b)[|a|..];
      }
    }
  }

  lemma HasByte(c: Bytes, o: nat, b: Byte)
    ensures HasAt(c, o, [b]) <==> o < |c| && c[o] == b
  {
  }

  lemma HasFirst(c: Bytes, o: nat, t: Bytes)
    requires HasAt(c, o, t) && t != []
    ensures o < |c| && c[o] == t[0]
  {
    assert c[o..o + |t|][0] == t[0];
  }

  /** Blanks are skipped up to the next other byte. */
  lemma {:induction false} SkipTo(c: Bytes, o: nat, q: nat)
    requires o <= q < |c| && (forall k :: o <= k < q ==> c[k] <= 32) && c[q] > 32
    ensures Skip(c, o) == q
    decreases q - o
  {
    if o < q {
      SkipTo(c, o + 1, q);
    }
  }

  lemma SkipNone(c: Bytes, o: nat)
    requires o < |c| && c[o] > 32
    ensures Skip(c, o) == o
  {
    SkipTo(c, o, o);
  }

  lemma SkipBlanks(c: Bytes, o: nat, t: Bytes)
    requires HasAt(c, o, t) && (forall k :: 0 <= k < |t| ==> t[k] <= 32) && o + |t| < |c| && c[o + |t|] > 32
    ensures Skip(c, o) == o + |t|
  {
    forall k | o <= k < o + |t|
      ensures c[k] <= 32
    {
      assert c[k] == c[o..o + |t|][k - o] == t[k - o];
    }
    SkipTo(c, o, o + |t|);
  }

  // ---------- numbers ----------

  /** Nothing that could go on with a number. */
  predicate NumberEnds(c: Bytes, o: nat) {
    o >= |c| || !(IsDigit(c[o]) || c[o] in {46, 69, 101})
  }

  lemma {:induction false} DigitsShape(n: nat)
    ensures (forall k :: 0 <= k < |Digits(n)| ==> IsDigit(Digits(n)[k])) && DigitsValue(Digits(n)) == n
  {
    if n >= 10 {
      DigitsShape(n / 10);
      var d := Digits(n);
      assert d[..|d| - 1] == Digits(n / 10);
    } else {
      assert Digits(n)[..0] == [];
    }
  }

  lemma {:induction false} DigitsStop(c: Bytes, o: nat, e: nat)
    requires o <= e <= |c| && (forall k :: o <= k < e ==> IsDigit(c[k])) && (e < |c| ==> !IsDigit(c[e]))
    ensures DigitsEnd(c, o) == e
    decreases e - o
  {
    if o < e {
      DigitsStop(c, o + 1, e);
    }
  }

  lemma DigitsBack(c: Bytes, o: nat, m: nat)
    requires HasAt(c, o, Digits(m)) && NumberEnds(c, o + |Digits(m)|)
    ensures var e := o + |Digits(m)|;
            && o < e <= |c| && DigitsEnd(c, o) == e && c[o..e] == Digits(m) && IsDigit(c[o]) &&
               (e < |c| ==> c[e] !in {46, 69, 101})
  {
    hide Digits, DigitsEnd;
    var d, e := Digits(m), o + |Digits(m)|;
    DigitsShape(m);
    forall k | o <= k < e
      ensures IsDigit(c[k])
    {
      assert c[k] == c[o..e][k - o] == d[k - o];
    }
    DigitsStop(c, o, e);
  }

  lemma NumberBack(c: Bytes, o: nat, n: int)
    requires INT_MIN <= n <= INT_MAX && HasAt(c, o, IntText(n)) && NumberEnds(c, o + |IntText(n)|)
    ensures o < |c| && NumberAt(c, o) == Ok(Number(n), o + |IntText(n)|) && (c[o] == 45 || IsDigit(c[o]))
  {
    hide Digits, HasAt, DigitsEnd, DigitsValue, NumberEnds;
    var m := if n < 0 then -n else n;
    DigitsShape(m);
    if n < 0 {
      HasSplit(c, o, [45], Digits(m));
      HasByte(c, o, 45);
    }
    DigitsBack(c, if n < 0 then o + 1 else o, m);
  }

  // ---------- strings ----------

  lemma HexBack(d: nat)
    requires d < 16
    ensures HexDigit(HexLower(d)) == Some(d)
  {
  }

  /** One printed character is read back, and holds no quote that could end the string. */
  lemma CharBack(c: Bytes, p: nat, end: nat, b: Byte)
    requires HasAt(c, p, EscapeText(b)) && p + |EscapeText(b)| <= end < |c| && c[end] == QUOTE
    ensures EndOf(c, p) == EndOf(c, p + |EscapeText(b)|)
    ensures Unescape(c, p, end) == Prepend([b], Unescape(c, p + |EscapeText(b)|, end))
  {
    var t := EscapeText(b);
    HasByteAt(c, p, t, 0);
    if |t| >= 2 {
      HasByteAt(c, p, t, 1);
    }
    if |t| == 6 {
      HasByteAt(c, p, t, 2);
      HasByteAt(c, p, t, 3);
      HasByteAt(c, p, t, 4);
      HasByteAt(c, p, t, 5);
      HexBack(b / 16);
      HexBack(b % 16);
      assert Hex4(c, p + 2);
      assert Hex4Value(c, p + 2) == b;
      assert Escape(c, p, end) == Some((b as nat, 6));
      LongEnd(c, p);
    }
  }

  lemma HasByteAt(c: Bytes, o: nat, t: Bytes, k: nat)
    requires HasAt(c, o, t) && k < |t|
    ensures c[o + k] == t[k]
  {
    assert c[o..o + |t|][k] == t[k];
  }

  lemma LongEnd(c: Bytes, p: nat)
    requires p + 6 <= |c| && c[p] == BACKSLASH && c[p + 1] == 117 && forall k :: p + 2 <= k < p + 6 ==>
             c[k] != QUOTE && c[k] != BACKSLASH
    ensures EndOf(c, p) == EndOf(c, p + 6)
  {
    assert EndOf(c, p) == EndOf(c, p + 2) == EndOf(c, p + 3) == EndOf(c, p + 4) == EndOf(c, p + 5);
  }

  lemma {:induction false} TextBack(c: Bytes, p: nat, s: Bytes)
    requires HasAt(c, p, EscapedText(s) + [QUOTE])
    ensures var end := p + |EscapedText(s)|; EndOf(c, p) == Some(end) && Unescape(c, p, end) == Some(s)
    decreases |s|
  {
    hide EscapeText, Unescape;
    var end := p + |EscapedText(s)|;
    HasSplit(c, p, EscapedText(s), [QUOTE]);
    HasByte(c, end, QUOTE);
    if s == [] {
      Done(c, p);
    } else {
      HasSplit(c, p, EscapeText(s[0]), EscapedText(s[1..]));
      HasSplit(c, p + |EscapeText(s[0])|, EscapedText(s[1..]), [QUOTE]);
      TextBack(c, p + |EscapeText(s[0])|, s[1..]);
      CharBack(c, p, end, s[0]);
      assert s == [s[0]] + s[1..];
    }
  }

  lemma Done(c: Bytes, p: nat)
    requires p < |c|
    ensures Unescape(c, p, p) == Some([])
  {
  }

  lemma StringBack(c: Bytes, o: nat, s: Bytes)
    requires 0 !in s && HasAt(c, o, Quoted(s))
    ensures o < |c| && c[o] == QUOTE && StringAt(c, o) == Some((s, o + |Quoted(s)|))
  {
    hide EscapedText, Unescape, EndOf;
    HasFirst(c, o, Quoted(s));
    assert Quoted(s) == [QUOTE] + (EscapedText(s) + [QUOTE]);
    HasSplit(c, o, [QUOTE], EscapedText(s) + [QUOTE]);
    TextBack(c, o + 1, s);
    CStringWhole(s);
  }

  // ---------- values ----------

  lemma NotWord(c: Bytes, o: nat)
    requires o < |c| && c[o] != 110 && c[o] != 102 && c[o] != 116
    ensures !HasAt(c, o, NULL) && !HasAt(c, o, FALSE) && !HasAt(c, o, TRUE)
  {
    if HasAt(c, o, NULL) {
      HasFirst(c, o, NULL);
    }
    if HasAt(c, o, FALSE) {
      HasFirst(c, o, FALSE);
    }
    if HasAt(c, o, TRUE) {
      HasFirst(c, o, TRUE);
    }
  }

  lemma WordBack(c: Bytes, o: nat, depth: nat)
    ensures HasAt(c, o, NULL) ==> ParseAt(c, o, depth) == Ok(Null, o + 4)
    ensures HasAt(c, o, FALSE) ==> ParseAt(c, o, depth) == Ok(False, o + 5)
    ensures HasAt(c, o, TRUE) ==> ParseAt(c, o, depth) == Ok(True, o + 4)
  {
    if HasAt(c, o, FALSE) {
      HasFirst(c, o, FALSE);
      if HasAt(c, o, NULL) {
        HasFirst(c, o, NULL);
      }
    }
    if HasAt(c, o, TRUE) {
      HasFirst(c, o, TRUE);
      if HasAt(c, o, NULL) {
        HasFirst(c, o, NULL);
      }
      if HasAt(c, o, FALSE) {
        HasFirst(c, o, FALSE);
      }
    }
  }

  lemma TextStarts(v: Value, fmt: bool, depth: nat)
    ensures Text(v, fmt, depth) != [] && Text(v, fmt, depth)[0] > 32
  {
    match v {
      case Number(n) =>
      case String(s) =>
      case Array(c) =>
      case Object(m) =>
      case _ =>
    }
  }

  /** The text of a value, read where it stands, is the value. */
  lemma {:induction false} ValueBack(v: Value, fmt: bool, d: nat, c: Bytes, o: nat, depth: nat)
    requires Printable(v) && Nesting(v) + depth <= NESTING_LIMIT
    requires HasAt(c, o, Text(v, fmt, d)) && NumberEnds(c, o + |Text(v, fmt, d)|)
    ensures ParseAt(c, o, depth) == Ok(v, o + |Text(v, fmt, d)|)
    decreases v
  {
    hide IntText, Quoted, NumberAt, StringAt, ItemsText, MembersText, ArrayAt, ObjectAt;
    match v {
      case Null => WordBack(c, o, depth);
      case False => WordBack(c, o, depth);
      case True => WordBack(c, o, depth);
      case Number(n) =>
        NumberBack(c, o, n);
        NotWord(c, o);
      case String(s) =>
        StringBack(c, o, s);
        NotWord(c, o);
      case Array(items) =>
        ArrayBack(items, fmt, d, c, o, depth);
        NotWord(c, o);
      case Object(members) =>
        ObjectBack(members, fmt, d, c, o, depth);
        NotWord(c, o);
    }
  }

  lemma {:induction false} ArrayBack(items: Items, fmt: bool, d: nat, c: Bytes, o: nat, depth: nat)
    requires PrintableItems(items) && NestingItems(items) + depth < NESTING_LIMIT
    requires HasAt(c, o, Text(Array(items), fmt, d))
    ensures o < |c| && c[o] == 91 && ArrayAt(c, o, depth) == Ok(Array(items), o + |Text(Array(items), fmt, d)|)
    decreases items, 1
  {
    hide ItemsAt, Skip, Text, ItemsText, HasAt, ArrayAt;
    var inner := ItemsText(items, fmt, d + 1);
    ArrayShape(items, fmt, d, inner);
    HasSplit(c, o, [91], inner + [93]);
    HasSplit(c, o + 1, inner, [93]);
    HasByte(c, o, 91);
    HasByte(c, o + 1 + |inner|, 93);
    if items.NoItems? {
      SkipNone(c, o + 1);
      EmptyArray(c, o, depth);
    } else {
      ItemsStart(items, fmt, d + 1);
      HasFirst(c, o + 1, inner);
      SkipNone(c, o + 1);
      assert [] + (inner + [93]) == inner + [93];
      ItemsBack(items, fmt, d + 1, c, o, [], depth + 1);
      ArrayOf(c, o, depth, items, o + 1 + |inner| + 1);
    }
  }

  lemma EmptyArray(c: Bytes, o: nat, depth: nat)
    requires o + 1 < |c| && depth < NESTING_LIMIT && Skip(c, o + 1) == o + 1 && c[o + 1] == 93
    ensures ArrayAt(c, o, depth) == Ok(Array(NoItems), o + 2)
  {
    hide ItemsAt, Skip;
  }

  lemma ArrayOf(c: Bytes, o: nat, depth: nat, items: Items, end: nat)
    requires o + 1 < |c| && depth < NESTING_LIMIT && Skip(c, o + 1) == o + 1 && c[o + 1] != 93
    requires ItemsAt(c, o, depth + 1) == Ok(items, end)
    ensures ArrayAt(c, o, depth) == Ok(Array(items), end)
  {
    hide ItemsAt, Skip;
  }

  lemma ArrayShape(items: Items, fmt: bool, d: nat, inner: Bytes)
    requires inner == ItemsText(items, fmt, d + 1)
    ensures Text(Array(items), fmt, d) == [91] + (inner + [93]) && (items.NoItems? ==> inner == [])
  {
    hide ItemsText;
    assert items.NoItems? ==> ItemsText(NoItems, fmt, d + 1) == [] by {
      NoItemsText(fmt, d + 1);
    }
  }

  lemma NoItemsText(fmt: bool, d: nat)
    ensures ItemsText(NoItems, fmt, d) == []
  {
  }

  lemma ItemsStart(items: Items, fmt: bool, d: nat)
    requires items.Item?
    ensures ItemsText(items, fmt, d) != [] && ItemsText(items, fmt, d)[0] > 32 && ItemsText(items, fmt, d)[0] != 93
  {
    TextStarts(items.value, fmt, d);
    match items.value {
      case Number(n) =>
      case String(s) =>
      case Array(c) =>
      case Object(m) =>
      case _ =>
    }
  }

  /** The elements after the bracket or comma at `p` and the blanks `lead`. */
  lemma {:induction false} ItemsBack(items: Items, fmt: bool, d: nat, c: Bytes, p: nat, lead: Bytes, depth: nat)
    requires items.Item? && PrintableItems(items) && NestingItems(items) + depth <= NESTING_LIMIT
    requires p < |c| && Blank(lead) && HasAt(c, p + 1, lead + (ItemsText(items, fmt, d) + [93]))
    ensures ItemsAt(c, p, depth) == Ok(items, p + 1 + |lead| + |ItemsText(items, fmt, d)| + 1)
    decreases items, 0
  {
    hide Text, ParseAt, Skip, HasAt, ItemsAt, ItemsText, Separator, Blank, Nesting;
    var v, rest := items.value, items.next;
    var t, q, sep := Text(v, fmt, d), p + 1 + |lead|, Separator(fmt);
    SeparatorShape(fmt);
    ItemPlaces(items, fmt, d, c, p, lead);
    ValueBack(v, fmt, d, c, q, depth);
    ItemStep(c, p, depth, v, q + |t|);
    ItemsLength(items, fmt, d);
    if !rest.NoItems? {
      ItemsBack(rest, fmt, d, c, q + |t|, sep[1..], depth);
    }
  }

  lemma SeparatorShape(fmt: bool)
    ensures |Separator(fmt)| >= 1 && Blank(Separator(fmt)[1..])
  {
  }

  lemma ItemsLength(items: Items, fmt: bool, d: nat)
    requires items.Item?
    ensures |ItemsText(items, fmt, d)| == |Text(items.value, fmt, d)| + if items.next.NoItems? then 0 else
            |Separator(fmt)| + |ItemsText(items.next, fmt, d)|
  {
    hide Text;
  }

  /** Where the parts of an element are. */
  lemma ItemPlaces(items: Items, fmt: bool, d: nat, c: Bytes, p: nat, lead: Bytes)
    requires items.Item? && Blank(lead) && HasAt(c, p + 1, lead + (ItemsText(items, fmt, d) + [93]))
    ensures var t, q, sep := Text(items.value, fmt, d), p + 1 + |lead|, Separator(fmt);
            var e := q + |t|;
            && p + 1 < |c| && Skip(c, p + 1) == q && HasAt(c, q, t) && e < |c| && NumberEnds(c, e) && Skip(c, e) == e
            && (if items.next.NoItems? then c[e] == 93
                else c[e] == 44 && HasAt(c, e + 1, sep[1..] + (ItemsText(items.next, fmt, d) + [93])))
  {
    hide Text, Skip, HasAt, ItemsText;
    var t, q, sep := Text(items.value, fmt, d), p + 1 + |lead|, Separator(fmt);
    var tail := if items.next.NoItems? then [93] else [44] + (sep[1..] + (ItemsText(items.next, fmt, d) + [93]));
    ItemsShape(items, fmt, d, t, tail);
    HasSplit(c, p + 1, lead, t + tail);
    HasSplit(c, q, t, tail);
    TextStarts(items.value, fmt, d);
    HasFirst(c, q, t);
    SkipBlanks(c, p + 1, lead);
    HasFirst(c, q + |t|, tail);
    SkipNone(c, q + |t|);
    if !items.next.NoItems? {
      HasSplit(c, q + |t|, [44], sep[1..] + (ItemsText(items.next, fmt, d) + [93]));
    }
  }

  lemma ItemsShape(items: Items, fmt: bool, d: nat, t: Bytes, tail: Bytes)
    requires items.Item? && t == Text(items.value, fmt, d)
    requires tail == if items.next.NoItems? then [93] else
             [44] + (Separator(fmt)[1..] + (ItemsText(items.next, fmt, d) + [93]))
    ensures ItemsText(items, fmt, d) + [93] == t + tail
  {
    hide Text;
    if !items.next.NoItems? {
      assert Separator(fmt) == [44] + Separator(fmt)[1..];
      assert ItemsText(items, fmt, d) == t + (Separator(fmt) + ItemsText(items.next, fmt, d));
    }
  }

  lemma ItemStep(c: Bytes, p: nat, depth: nat, v: Value, end: nat)
    requires p < |c| && ParseAt(c, Skip(c, p + 1), depth) == Ok(v, end) && end < |c| && Skip(c, end) == end
    ensures ItemsAt(c, p, depth) ==
              if c[end] == 44 then
                match ItemsAt(c, end, depth)
                case Ok(rest, end') => Ok(Item(v, rest), end')
                case Bad => Bad
                case Beyond => Beyond
              else if c[end] != 93 then Bad
              else Ok(Item(v, NoItems), end + 1)
  {
    hide ParseAt, Skip;
  }

  predicate Blank(t: Bytes) {
    forall k :: 0 <= k < |t| ==> t[k] <= 32
  }

  lemma {:induction false} ObjectBack(members: Members, fmt: bool, d: nat, c: Bytes, o: nat, depth: nat)
    requires PrintableMembers(members) && NestingMembers(members) + depth < NESTING_LIMIT
    requires HasAt(c, o, Text(Object(members), fmt, d))
    ensures o < |c| && c[o] == 123 && ObjectAt(c, o, depth) == Ok(Object(members), o + |Text(Object(members), fmt, d)|)
    decreases members, 1
  {
    hide MembersAt, Skip, Text, MembersText, HasAt, Tabs;
    var nl, inner, closing := NewLine(fmt), MembersText(members, fmt, d + 1), if fmt then Tabs(d) else [];
    ObjectShape(members, fmt, d, nl, inner, closing);
    HasSplit(c, o, [123], nl + (inner + (closing + [125])));
    HasByte(c, o, 123);
    if members.NoMembers? {
      NoMembersText(fmt, d + 1);
      EmptyObject(c, o, nl, closing);
    } else {
      MemberStarts(members, fmt, d, c, o, closing + [125]);
      MembersBack(members, fmt, d + 1, c, o, closing, depth + 1);
      MembersAgain(c, o, Skip(c, o + 1), depth + 1);
    }
  }

  lemma ObjectShape(members: Members, fmt: bool, d: nat, nl: Bytes, inner: Bytes, closing: Bytes)
    requires nl == NewLine(fmt) && inner == MembersText(members, fmt, d + 1) && closing == (if fmt then Tabs(d) else [])
    ensures Text(Object(members), fmt, d) == [123] + (nl + (inner + (closing + [125]))) && Blank(closing)
  {
    hide MembersText;
  }

  lemma EmptyObject(c: Bytes, o: nat, nl: Bytes, closing: Bytes)
    requires Blank(nl) && Blank(closing) && o < |c| && HasAt(c, o + 1, nl + ([] + (closing + [125])))
    ensures var p := Skip(c, o + 1); p == o + 1 + |nl| + |closing| < |c| && c[p] == 125
  {
    hide Skip, HasAt;
    assert nl + ([] + (closing + [125])) == (nl + closing) + [125];
    HasSplit(c, o + 1, nl + closing, [125]);
    HasByte(c, o + 1 + |nl + closing|, 125);
    SkipBlanks(c, o + 1, nl + closing);
  }

  /** The first key comes after blanks. */
  lemma MemberStarts(m: Members, fmt: bool, d: nat, c: Bytes, o: nat, more: Bytes)
    requires m.Member? && o < |c| && HasAt(c, o + 1, NewLine(fmt) + (MembersText(m, fmt, d + 1) + more))
    ensures var p := Skip(c, o + 1); o < p < |c| && c[p] == QUOTE
  {
    hide MembersText, Text, Skip, EscapedText, HasAt, AfterKey, NewLine, Tabs;
    LeadBlank(fmt, d + 1, NewLine(fmt), if fmt then Tabs(d + 1) else []);
    var lead := NewLine(fmt) + if fmt then Tabs(d + 1) else [];
    var rest := EscapedText(m.key) + [QUOTE];
    MembersShape(m, fmt, d + 1);
    var after := AfterKey(m, fmt, d + 1) + more;
    assert NewLine(fmt) + (MembersText(m, fmt, d + 1) + more) == lead + (Quoted(m.key) + after);
    HasSplit(c, o + 1, lead, Quoted(m.key) + after);
    assert Quoted(m.key) + after == [QUOTE] + (rest + after);
    HasFirst(c, o + 1 + |lead|, Quoted(m.key) + after);
    SkipBlanks(c, o + 1, lead);
  }

  /** The text of members behind the first key. */
  function AfterKey(m: Members, fmt: bool, d: nat): Bytes
    requires m.Member?
  {
    (if fmt then [58, 9] else [58]) + (Text(m.value, fmt, d) +
        ((if m.next.NoMembers? then [] else [44]) + (NewLine(fmt) + MembersText(m.next, fmt, d))))
  }

  lemma MembersShape(m: Members, fmt: bool, d: nat)
    requires m.Member?
    ensures MembersText(m, fmt, d) == (if fmt then Tabs(d) else []) + (Quoted(m.key) + AfterKey(m, fmt, d))
  {
    hide Text, Quoted, Tabs, NewLine;
    Seven(if fmt then Tabs(d) else [], Quoted(m.key), if fmt then [58, 9] else [58], Text(m.value, fmt, d),
        if m.next.NoMembers? then [] else [44], NewLine(fmt), MembersText(m.next, fmt, d));
  }

  lemma Seven(a: Bytes, b: Bytes, x: Bytes, t: Bytes, y: Bytes, n: Bytes, z: Bytes)
    ensures a + b + x + t + y + n + z == a + (b + (x + (t + (y + (n + z)))))
  {
  }

  /** Starting from the blank before the first key is starting from the brace. */
  lemma MembersAgain(c: Bytes, o: nat, p: nat, depth: nat)
    requires o < |c| && p == Skip(c, o + 1) && o < p < |c| && c[p] > 32
    ensures MembersAt(c, p - 1, depth) == MembersAt(c, o, depth)
  {
    hide MemberAt, Skip;
    SkipNone(c, p);
  }

  /** The members after the brace or comma at `p`, up to the closing brace behind the blanks `closing`. */
  lemma {:induction false} MembersBack(m: Members, fmt: bool, d: nat, c: Bytes, p: nat, closing: Bytes, depth: nat)
    requires m.Member? && PrintableMembers(m) && NestingMembers(m) + depth <= NESTING_LIMIT && Blank(closing)
    requires p < |c| && HasAt(c, p + 1, NewLine(fmt) + (MembersText(m, fmt, d) + (closing + [125])))
    ensures MembersAt(c, p, depth) == Ok(m, p + 1 + |NewLine(fmt)| + |MembersText(m, fmt, d)| + |closing| + 1)
    decreases m, 0
  {
    hide Text, ParseAt, Skip, StringAt, Quoted, MembersText, MembersAt, HasAt;
    var nl, t, rest := NewLine(fmt), Text(m.value, fmt, d), m.next;
    var tail := TailText(rest, fmt, d, closing);
    MemberPlaces(m, fmt, d, c, p, closing);
    var e := p + 1 + |nl| + (if fmt then d else 0) + |Quoted(m.key)|;
    var o := e + if fmt then 2 else 1;
    TailEnds(rest, fmt, d, closing, tail);
    ValueBack(m.value, fmt, d, c, o, depth);
    MemberStep(c, p, depth, m.key, e, o, m.value, o + |t|);
    if rest.NoMembers? {
      NoMembersText(fmt, d);
      LastMember(fmt, d, c, o + |t|, closing);
    } else {
      HasSplit(c, o + |t|, [44], nl + (MembersText(rest, fmt, d) + (closing + [125])));
      HasByte(c, o + |t|, 44);
      SkipNone(c, o + |t|);
      MembersBack(rest, fmt, d, c, o + |t|, closing, depth);
    }
    MembersLength(m, fmt, d);
  }

  /** What is behind the value of a member. */
  function TailText(rest: Members, fmt: bool, d: nat, closing: Bytes): Bytes {
    (if rest.NoMembers? then [] else [44]) + (NewLine(fmt) + (MembersText(rest, fmt, d) + (closing + [125])))
  }

  lemma MembersLength(m: Members, fmt: bool, d: nat)
    requires m.Member?
    ensures |MembersText(m, fmt, d)| == (if fmt then d else 0) + |Quoted(m.key)| + (if fmt then 2 else 1) +
            |Text(m.value, fmt, d)| + (if m.next.NoMembers? then 0 else 1) + |NewLine(fmt)| +
            |MembersText(m.next, fmt, d)|
  {
    hide Text, Quoted;
  }

  /** Where the parts of a member are. */
  lemma MemberPlaces(m: Members, fmt: bool, d: nat, c: Bytes, p: nat, closing: Bytes)
    requires m.Member? && PrintableMembers(m) && Blank(closing)
    requires p < |c| && HasAt(c, p + 1, NewLine(fmt) + (MembersText(m, fmt, d) + (closing + [125])))
    ensures var q := p + 1 + |NewLine(fmt)| + (if fmt then d else 0);
            var e := q + |Quoted(m.key)|;
            var o := e + if fmt then 2 else 1;
            var t := Text(m.value, fmt, d);
            && p + 1 < |c| && Skip(c, p + 1) == q && StringAt(c, q) == Some((m.key, e)) && e < |c| && c[e] == 58 &&
                Skip(c, e) == e && Skip(c, e + 1) == o
            && HasAt(c, o, t) && HasAt(c, o + |t|, TailText(m.next, fmt, d, closing)) && NumberEnds(c, o + |t|)
  {
    hide Text, Skip, StringAt, Quoted, MembersText, HasAt, Tabs, TailText, NewLine;
    var nl, tabs, colon := NewLine(fmt), if fmt then Tabs(d) else [], if fmt then [58, 9] else [58];
    var t, tail := Text(m.value, fmt, d), TailText(m.next, fmt, d, closing);
    MemberShape(m, fmt, d, closing, nl, tabs, colon, t, tail);
    LeadBlank(fmt, d, nl, tabs);
    var q := p + 1 + |nl + tabs|;
    var e := q + |Quoted(m.key)|;
    HasSplit(c, p + 1, nl + tabs, Quoted(m.key) + (colon + (t + tail)));
    HasSplit(c, q, Quoted(m.key), colon + (t + tail));
    StringBack(c, q, m.key);
    SkipBlanks(c, p + 1, nl + tabs);
    TextStarts(m.value, fmt, d);
    ColonPlaces(c, e, fmt, colon, t, tail);
    var o := e + |colon|;
    HasSplit(c, o, t, tail);
    TailEnds(m.next, fmt, d, closing, tail);
    HasFirst(c, o + |t|, tail);
  }

  lemma LeadBlank(fmt: bool, d: nat, nl: Bytes, tabs: Bytes)
    requires nl == NewLine(fmt) && tabs == if fmt then Tabs(d) else []
    ensures Blank(nl + tabs) && |tabs| == if fmt then d else 0
  {
  }

  lemma ColonPlaces(c: Bytes, e: nat, fmt: bool, colon: Bytes, t: Bytes, tail: Bytes)
    requires colon == (if fmt then [58, 9] else [58]) && t != [] && t[0] > 32 && HasAt(c, e, colon + (t + tail))
    ensures e < |c| && c[e] == 58 && Skip(c, e) == e && Skip(c, e + 1) == e + |colon| && HasAt(c, e + |colon|, t + tail)
  {
    hide Skip, HasAt;
    var blank := if fmt then [9] else [];
    assert colon + (t + tail) == [58] + (blank + (t + tail));
    HasSplit(c, e, colon, t + tail);
    HasSplit(c, e, [58], blank + (t + tail));
    HasSplit(c, e + 1, blank, t + tail);
    HasByte(c, e, 58);
    SkipNone(c, e);
    HasFirst(c, e + |colon|, t + tail);
    SkipBlanks(c, e + 1, blank);
  }

  lemma MemberShape(m: Members, fmt: bool, d: nat, closing: Bytes, nl: Bytes, tabs: Bytes, colon: Bytes, t: Bytes,
      tail: Bytes)
    requires m.Member? && nl == NewLine(fmt) && tabs == (if fmt then Tabs(d) else [])
    requires colon == (if fmt then [58, 9] else [58])
    requires t == Text(m.value, fmt, d) && tail == TailText(m.next, fmt, d, closing)
    ensures nl + (MembersText(m, fmt, d) + (closing + [125])) == (nl + tabs) + (Quoted(m.key) + (colon + (t + tail)))
  {
    hide Text, Quoted, MembersText, Tabs, NewLine;
    MembersShape(m, fmt, d);
    var key, comma, more := Quoted(m.key), if m.next.NoMembers? then [] else [44], MembersText(m.next, fmt, d);
    Regroup(nl, tabs, key, colon, t, comma, NewLine(fmt), more, closing + [125]);
  }

  lemma Regroup(nl: Bytes, tabs: Bytes, key: Bytes, colon: Bytes, t: Bytes, comma: Bytes, n: Bytes, more: Bytes,
      end: Bytes)
    ensures nl + (tabs + (key + (colon + (t + (comma + (n + more))))) + end) ==
            (nl + tabs) + (key + (colon + (t + (comma + (n + (more + end))))))
  {
  }

  lemma MemberStep(c: Bytes, p: nat, depth: nat, key: Bytes, e: nat, o: nat, v: Value, end: nat)
    requires p < |c| && p + 1 < |c| && StringAt(c, Skip(c, p + 1)) == Some((key, e)) && e < |c|
    requires Skip(c, e) == e && c[e] == 58
    requires Skip(c, e + 1) == o && ParseAt(c, o, depth) == Ok(v, end)
    ensures MembersAt(c, p, depth) ==
              var q := Skip(c, end);
              if q < |c| && c[q] == 44 then
                match MembersAt(c, q, depth)
                case Ok(rest, end') => Ok(Member(key, v, rest), end')
                case Bad => Bad
                case Beyond => Beyond
              else if q >= |c| || c[q] != 125 then Bad
              else Ok(Member(key, v, NoMembers), q + 1)
  {
    hide StringAt, ParseAt, Skip;
  }

  lemma LastMember(fmt: bool, d: nat, c: Bytes, o: nat, closing: Bytes)
    requires Blank(closing) && HasAt(c, o, TailText(NoMembers, fmt, d, closing))
    ensures var q := Skip(c, o); q == o + |NewLine(fmt)| + |closing| < |c| && c[q] == 125
  {
    hide Skip, HasAt;
    NoMembersText(fmt, d);
    var t := NewLine(fmt) + closing;
    assert TailText(NoMembers, fmt, d, closing) == t + [125];
    HasSplit(c, o, t, [125]);
    HasByte(c, o + |t|, 125);
    SkipBlanks(c, o, t);
  }

  lemma NoMembersText(fmt: bool, d: nat)
    ensures MembersText(NoMembers, fmt, d) == []
  {
  }

  lemma TailEnds(rest: Members, fmt: bool, d: nat, closing: Bytes, tail: Bytes)
    requires Blank(closing) && tail == TailText(rest, fmt, d, closing)
    ensures tail != [] && !IsDigit(tail[0]) && tail[0] !in {46, 69, 101}
  {
    if rest.NoMembers? {
      NoMembersText(fmt, d);
      assert tail == NewLine(fmt) + closing + [125];
    }
  }

  // ---------- whole texts ----------

  /** `cJSON_ParseWithLengthOpts`: a value, and where it ends. */
  function Parse(c: Bytes, requireNul: bool): Parsed<Value> {
    if c == [] then Bad else
    var start := if |c| > 4 && c[..3] == [0xEF, 0xBB, 0xBF] then 3 else 0;
    match ParseAt(c, Skip(c, start), 0)
    case Bad => Bad
    case Beyond => Beyond
    case Ok(v, end) =>
      if !requireNul then Ok(v, end)
      else
        var e := Skip(c, end);
        if e >= |c| || c[e] != 0 then Bad else Ok(v, e)
  }

  /** `cJSON_Parse` undoes `cJSON_Print` and `cJSON_PrintUnformatted`. */
  lemma PrintParse(v: Value, fmt: bool, requireNul: bool)
    requires Printable(v) && Nesting(v) <= NESTING_LIMIT
    ensures Parse(Text(v, fmt, 0) + [0], requireNul) == Ok(v, |Text(v, fmt, 0)|)
  {
    hide Text, ParseAt, Skip;
    var t := Text(v, fmt, 0);
    TextStarts(v, fmt, 0);
    var c := t + [0];
    assert c[0] == t[0] && c[0..|t|] == t;
    NoMark(v, fmt);
    SkipNone(c, 0);
    ValueBack(v, fmt, 0, c, 0, 0);
    SkipToNul(c, |t|);
  }

  /** The final NUL is a blank, but the last byte. */
  lemma SkipToNul(c: Bytes, o: nat)
    requires o + 1 == |c| && c[o] == 0
    ensures Skip(c, o) == o
  {
  }

  lemma NoMark(v: Value, fmt: bool)
    ensures Text(v, fmt, 0) != [] && Text(v, fmt, 0)[0] != 0xEF
  {
    match v {
      case Number(n) =>
      case String(s) =>
      case Array(c) =>
      case Object(m) =>
      case _ =>
    }
  }
}
