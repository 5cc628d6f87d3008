/**
 JSON values and their text (external/cJSON.c; RFC 8259): what printing gives and what parsing
 makes of it, as functions.  Numbers are the integers that the printer writes with `%d`.
 */
module JsonText {
  import opened Bits
  import opened JsonString
  import opened Utf8
  import opened Wrappers

  /** A value; the children of an array or object are a chain, as in the `next` fields. */
  datatype Value =
    | Null
    | False
    | True
    | Number(n: int)
    | String(s: Bytes)
    | Array(items: Items)
    | Object(members: Members)

  datatype Items = NoItems | Item(value: Value, next: Items)

  datatype Members = NoMembers | Member(key: Bytes, value: Value, next: Members)

  const NESTING_LIMIT := 1000
  const INT_MIN := -0x8000_0000
  const INT_MAX := 0x7FFF_FFFF

  /** What the printer can print and the parser can give back: `int` numbers, strings without NUL. */
  predicate Printable(v: Value) {
    match v
    case Number(n) => INT_MIN <= n <= INT_MAX
    case String(s) => 0 !in s
    case Array(c) => PrintableItems(c)
    case Object(m) => PrintableMembers(m)
    case _ => true
  }

  predicate PrintableItems(c: Items) {
    c.Item? ==> Printable(c.value) && PrintableItems(c.next)
  }

  predicate PrintableMembers(m: Members) {
    m.Member? ==> 0 !in m.key && Printable(m.value) && PrintableMembers(m.next)
  }

  /** How deeply arrays and objects are nested. */
  function Nesting(v: Value): nat {
    match v
    case Array(c) => 1 + NestingItems(c)
    case Object(m) => 1 + NestingMembers(m)
    case _ => 0
  }

  function Max(a: nat, b: nat): nat {
    if a < b then b else a
  }

  function NestingItems(c: Items): nat {
    if c.NoItems? then 0 else Max(Nesting(c.value), NestingItems(c.next))
  }

  function NestingMembers(m: Members): nat {
    if m.NoMembers? then 0 else Max(Nesting(m.value), NestingMembers(m.next))
  }

  // ---------- text ----------

  function Digits(n: nat): (r: Bytes)
    ensures r != [] && 48 <= r[0] <= 57
  {
    if n < 10 then [48 + n] else Digits(n / 10) + [48 + n % 10]
  }

  /** `%d` */
  function IntText(n: int): Bytes {
    if n < 0 then [45] + Digits(-n) else Digits(n)
  }

  function HexLower(d: nat): Byte
    requires d < 16
  {
    if d < 10 then 48 + d else 97 + d - 10
  }

  /** One character of a string as it is printed. */
  function EscapeText(b: Byte): (r: Bytes)
    ensures r != [] && (b != 0 ==> 0 !in r)
  {
    if b > 31 && b != QUOTE && b != BACKSLASH then [b]
    else if b == BACKSLASH then [BACKSLASH, BACKSLASH]
    else if b == QUOTE then [BACKSLASH, QUOTE]
    else if b == 8 then [BACKSLASH, 98]
    else if b == 12 then [BACKSLASH, 102]
    else if b == 10 then [BACKSLASH, 110]
    else if b == 13 then [BACKSLASH, 114]
    else if b == 9 then [BACKSLASH, 116]
    else [BACKSLASH, 117, 48, 48, HexLower(b / 16), HexLower(b % 16)]
  }

  function EscapedText(s: Bytes): Bytes {
    if s == [] then [] else EscapeText(s[0]) + EscapedText(s[1..])
  }

  function Quoted(s: Bytes): Bytes {
    [QUOTE] + EscapedText(s) + [QUOTE]
  }

  function Tabs(n: nat): (r: Bytes)
    ensures |r| == n
  {
    seq(n, _ => 9)
  }

  const NULL: Bytes := [110, 117, 108, 108]
  const FALSE: Bytes := [102, 97, 108, 115, 101]
  const TRUE: Bytes := [116, 114, 117, 101]

  function NewLine(fmt: bool): Bytes {
    if fmt then [10] else []
  }

  /** The text of a value, formatted or not, inside `depth` arrays and objects. */
  function Text(v: Value, fmt: bool, depth: nat): Bytes {
    match v
    case Null => NULL
    case False => FALSE
    case True => TRUE
    case Number(n) => IntText(n)
    case String(s) => Quoted(s)
    case Array(c) => [91] + ItemsText(c, fmt, depth + 1) + [93]
    case Object(m) => [123] + NewLine(fmt) + MembersText(m, fmt, depth + 1) + (if fmt then Tabs(depth) else []) + [125]
  }

  function Separator(fmt: bool): Bytes {
    if fmt then [44, 32] else [44]
  }

  function ItemsText(c: Items, fmt: bool, depth: nat): Bytes {
    if c.NoItems? then []
    else Text(c.value, fmt, depth) + if c.next.NoItems? then [] else Separator(fmt) + ItemsText(c.next, fmt, depth)
  }

  function KeyText(key: Bytes, fmt: bool, depth: nat): Bytes {
    (if fmt then Tabs(depth) else []) + Quoted(key) + (if fmt then [58, 9] else [58])
  }

  function MembersText(m: Members, fmt: bool, depth: nat): Bytes {
    if m.NoMembers? then []
    else
      KeyText(m.key, fmt, depth) + Text(m.value, fmt, depth) + (if m.next.NoMembers? then [] else [44]) +
      NewLine(fmt) + MembersText(m.next, fmt, depth)
  }

  // ---------- parsing ----------

  /** The outcome of a parser; `Beyond` for a number that is no integer. */
  datatype Parsed<T> = Ok(value: T, end: nat) | Bad | Beyond

  function NonBlank(c: Bytes, o: nat): (r: nat)
    requires o <= |c|
    ensures o <= r <= |c| && (r < |c| ==> c[r] > 32) && forall k :: o <= k < r ==> c[k] <= 32
    decreases |c| - o
  {
    if o < |c| && c[o] <= 32 then NonBlank(c, o + 1) else o
  }

  /** `buffer_skip_whitespace`; it never goes behind the last byte. */
  function Skip(c: Bytes, o: nat): (r: nat)
    requires o <= |c|
    ensures o <= r <= |c| && (o < |c| ==> r < |c|)
  {
    if o == |c| then o
    else
      var r := NonBlank(c, o);
      if r == |c| then r - 1 else r
  }

  predicate IsDigit(b: Byte) {
    48 <= b <= 57
  }

  /** Where a run of digits ends. */
  function DigitsEnd(c: Bytes, o: nat): (r: nat)
    requires o <= |c|
    ensures o <= r <= |c| && (forall k :: o <= k < r ==> IsDigit(c[k])) && (r < |c| ==> !IsDigit(c[r]))
    decreases |c| - o
  {
    if o < |c| && IsDigit(c[o]) then DigitsEnd(c, o + 1) else o
  }

  function DigitsValue(d: Bytes): nat
    requires forall k :: 0 <= k < |d| ==> IsDigit(d[k])
  {
    if d == [] then 0
    else
      assert IsDigit(d[|d| - 1]);
      10 * DigitsValue(d[..|d| - 1]) + (d[|d| - 1] as int - 48)
  }

  function Saturated(n: int): int {
    if n >= INT_MAX then INT_MAX else if n <= INT_MIN then INT_MIN else n
  }

  /** `parse_number`, as far as integers go. */
  function NumberAt(c: Bytes, o: nat): (r: Parsed<Value>)
    requires o < |c|
    ensures r.Ok? ==> o < r.end <= |c|
  {
    var start := if c[o] == 45 then o + 1 else o;
    var end := DigitsEnd(c, start);
    if end == start then if end < |c| && c[end] == 46 then Beyond else Bad
    else if end < |c| && c[end] in {46, 69, 101} then Beyond
    else
      var n: int := DigitsValue(c[start..end]);
      Ok(Number(Saturated(if c[o] == 45 then -n else n)), end)
  }

  predicate HasAt(c: Bytes, o: nat, t: Bytes) {
    o + |t| <= |c| && c[o..o + |t|] == t
  }

  /** `parse_value` inside `depth` arrays and objects. */
  function ParseAt(c: Bytes, o: nat, depth: nat): (r: Parsed<Value>)
    requires o <= |c|
    ensures r.Ok? ==> o < r.end <= |c|
    decreases |c| - o, 2
  {
    if HasAt(c, o, NULL) then Ok(Null, o + 4)
    else if HasAt(c, o, FALSE) then Ok(False, o + 5)
    else if HasAt(c, o, TRUE) then Ok(True, o + 4)
    else if o >= |c| then Bad
    else if c[o] == QUOTE then
      match StringAt(c, o)
      case None => Bad
      case Some((s, end)) => Ok(String(s), end)
    else if c[o] == 45 || IsDigit(c[o]) then NumberAt(c, o)
    else if c[o] == 91 then ArrayAt(c, o, depth)
    else if c[o] == 123 then ObjectAt(c, o, depth)
    else Bad
  }

  function ArrayAt(c: Bytes, o: nat, depth: nat): (r: Parsed<Value>)
    requires o < |c|
    ensures r.Ok? ==> o < r.end <= |c|
    decreases |c| - o, 1
  {
    if depth >= NESTING_LIMIT then Bad else
    var p := Skip(c, o + 1);
    if p >= |c| then Bad
    else if c[p] == 93 then Ok(Array(NoItems), p + 1)
    else
      match ItemsAt(c, p - 1, depth + 1)
      case Ok(items, end) => Ok(Array(items), end)
      case Bad => Bad
      case Beyond => Beyond
  }

  /** The elements after the bracket or comma at `p`. */
  function ItemsAt(c: Bytes, p: nat, depth: nat): (r: Parsed<Items>)
    requires p < |c|
    ensures r.Ok? ==> p < r.end <= |c|
    decreases |c| - p, 0
  {
    match ParseAt(c, Skip(c, p + 1), depth)
    case Bad => Bad
    case Beyond => Beyond
    case Ok(v, end) =>
      var q := Skip(c, end);
      if q < |c| && c[q] == 44 then
        match ItemsAt(c, q, depth)
        case Ok(rest, end') => Ok(Item(v, rest), end')
        case Bad => Bad
        case Beyond => Beyond
      else if q >= |c| || c[q] != 93 then Bad
      else Ok(Item(v, NoItems), q + 1)
  }

  function ObjectAt(c: Bytes, o: nat, depth: nat): (r: Parsed<Value>)
    requires o < |c|
    ensures r.Ok? ==> o < r.end <= |c|
    decreases |c| - o, 1
  {
    if depth >= NESTING_LIMIT then Bad else
    var p := Skip(c, o + 1);
    if p >= |c| then Bad
    else if c[p] == 125 then Ok(Object(NoMembers), p + 1)
    else
      match MembersAt(c, p - 1, depth + 1)
      case Ok(members, end) => Ok(Object(members), end)
      case Bad => Bad
      case Beyond => Beyond
  }

  /** The members after the brace or comma at `p`. */
  function MembersAt(c: Bytes, p: nat, depth: nat): (r: Parsed<Members>)
    requires p < |c|
    ensures r.Ok? ==> p < r.end <= |c|
    decreases |c| - p, 0
  {
    if p + 1 >= |c| then Bad else MemberAt(c, Skip(c, p + 1), depth)
  }

  /** The members from the key at `k` on. */
  function MemberAt(c: Bytes, k: nat, depth: nat): (r: Parsed<Members>)
    requires k < |c|
    ensures r.Ok? ==> k < r.end <= |c|
    decreases |c| - k, 3
  {
    match StringAt(c, k)
    case None => Bad
    case Some((key, e)) =>
      var colon := Skip(c, e);
      if colon >= |c| || c[colon] != 58 then Bad else
      match ParseAt(c, Skip(c, colon + 1), depth)
      case Bad => Bad
      case Beyond => Beyond
      case Ok(v, end) =>
        var q := Skip(c, end);
        if q < |c| && c[q] == 44 then
          match MembersAt(c, q, depth)
          case Ok(rest, end') => Ok(Member(key, v, rest), end')
          case Bad => Bad
          case Beyond => Beyond
        else if q >= |c| || c[q] != 125 then Bad
        else Ok(Member(key, v, NoMembers), q + 1)
  }
}
