/**
 Parsing JSON (external/cJSON.c, `buffer_skip_whitespace` and the `parse_` functions): one buffer
 whose offset and depth the functions move, and a tree of nodes that they build.
 */
module JsonParse {
  import opened Bits
  import opened JsonList
  import opened JsonPrint
  import opened JsonRoundTrip
  import opened JsonString
  import opened JsonText
  import opened JsonTree
  import opened Utf8
  import opened Wrappers

  /** Success, failure, or a number that is no integer. */
  datatype Outcome = Yes | No | Unknown

  ghost predicate Agrees<T>(r: Parsed<T>, out: Outcome, v: T, offset: nat) {
    match r
    case Ok(w, end) => out == Yes && v == w && offset == end
    case Bad => out == No
    case Beyond => out == Unknown
  }

  // ---------- the tree that is built ----------

  /** The tree has the contents of the value; the value has its numbers only as far as an `int` goes. */
  ghost predicate Means(t: Tree, v: Value)
    decreases v
  {
    match v
    case Null => t.kind == NullKind && t.items == []
    case False => t.kind == FalseKind && t.items == []
    case True => t.kind == TrueKind && t.items == []
    case Number(n) => t.kind == NumberKind && t.items == [] && Whole(t.number) && n == Saturated(t.number.Floor)
    case String(s) => t.kind == StringKind && t.items == [] && t.text == Some(s)
    case Array(items) => t.kind == ArrayKind && ItemsMean(t.items, items)
    case Object(members) => t.kind == ObjectKind && MembersMean(t.items, members)
  }

  predicate Whole(x: real) {
    x == x.Floor as real
  }

  ghost predicate ItemsMean(ts: seq<Tree>, items: Items)
    decreases items
  {
    match items
    case NoItems => ts == []
    case Item(v, rest) => ts != [] && Means(ts[0], v) && ItemsMean(ts[1..], rest)
  }

  ghost predicate MembersMean(ts: seq<Tree>, members: Members)
    decreases members
  {
    match members
    case NoMembers => ts == []
    case Member(key, v, rest) => ts != [] && ts[0].name == Some(key) && Means(ts[0], v) && MembersMean(ts[1..], rest)
  }

  lemma {:induction false} ItemsMeanMore(ts: seq<Tree>, s: seq<Value>, t: Tree, v: Value)
    requires ItemsMean(ts, Chain(s)) && Means(t, v)
    ensures ItemsMean(ts + [t], Chain(s + [v]))
  {
    hide Means;
    if s == [] {
      assert ([] + [v])[1..] == [] && (ts + [t])[1..] == [];
    } else {
      ItemsMeanMore(ts[1..], s[1..], t, v);
      assert (s + [v])[1..] == s[1..] + [v] && (ts + [t])[1..] == ts[1..] + [t];
    }
  }

  lemma {:induction false} MembersMeanMore(ts: seq<Tree>, s: seq<Pair>, t: Tree, p: Pair)
    requires MembersMean(ts, ChainPairs(s)) && t.name == Some(p.key) && Means(t, p.value)
    ensures MembersMean(ts + [t], ChainPairs(s + [p]))
  {
    hide Means;
    if s == [] {
      assert ([] + [p])[1..] == [] && (ts + [t])[1..] == [];
    } else {
      MembersMeanMore(ts[1..], s[1..], t, p);
      assert (s + [p])[1..] == s[1..] + [p] && (ts + [t])[1..] == ts[1..] + [t];
    }
  }

  lemma NothingMeant()
    ensures ItemsMean([], Chain([])) && MembersMean([], ChainPairs([]))
  {
  }

  /** The item holds the tree of the value. */
  ghost predicate Filled(item: Node, t: Tree, v: Value, below: set<Node>)
    reads item`kind, item`number, item`text, item`name, item`child, item`items, below
  {
    Holds(item, t, below) && Means(t, v) && item !in below && t.name == item.name
  }

  function Leaf(item: Node): Tree
    reads item`kind, item`number, item`text, item`name
  {
    Tree(item.kind, item.number, item.text, item.name, [])
  }

  lemma LeafFilled(item: Node, v: Value)
    requires item.items == [] && item.child == null && Means(Leaf(item), v)
    ensures Filled(item, Leaf(item), v, {})
  {
  }

  /** A list of parsed items: linked but for the first one's `prev`, and each with its tree. */
  ghost predicate Row(s: seq<Node>, ts: seq<Tree>, below: set<Node>)
    reads s, below
  {
    |s| == |ts| && Growing(s) && Copies(s, RowTree(ts), below)
  }

  function RowTree(ts: seq<Tree>): Tree {
    Tree(ArrayKind, 0.0, None, None, ts)
  }

  lemma RowStarts()
    ensures Row([], [], {})
  {
  }

  /** Allocates an item and puts it behind the items before it. */
  method NextItem(head: Node?, current: Node?, ghost s: seq<Node>, ghost ts: seq<Tree>, ghost below: set<Node>)
    returns (head': Node, newItem: Node)
    requires Row(s, ts, below) && head == First(s) && current == NodeAtInt(s, |s| - 1)
    modifies Only(current)`next
    ensures fresh(newItem) && newItem.items == [] && newItem.child == null && newItem.name == None
    ensures Opened(s, ts, below, newItem) && head' == First(s + [newItem])
  {
    hide Growing, Copies, Linked, Distinct;
    CopiesApart(s, RowTree(ts), below);
    GrowingAt(s);
    newItem := new Node();
    if head == null {
      head' := newItem;
    } else {
      head' := head;
      current.next := newItem;
      newItem.prev := current;
    }
    GrowingMore(s, newItem);
  }

  /** A new item is linked to the others and still to be filled. */
  ghost predicate Opened(s: seq<Node>, ts: seq<Tree>, below: set<Node>, item: Node)
    reads s, item`next, item`prev, below
  {
    && |s| == |ts| && Growing(s + [item]) && Copies(s, RowTree(ts), below) && item !in s && item !in below
    && forall i :: 0 <= i < |s| ==> s[i] !in below
  }

  lemma CopiesLonger(s: seq<Node>, ts: seq<Tree>, t: Tree, below: set<Node>)
    requires Copies(s, RowTree(ts), below) && |s| == |ts|
    ensures Copies(s, RowTree(ts + [t]), below)
  {
    hide Holds;
    forall i | 0 <= i < |s|
      ensures Holds(s[i], (ts + [t])[i], below)
    {
      assert (ts + [t])[i] == ts[i];
    }
  }

  lemma RowMore(s: seq<Node>, ts: seq<Tree>, below: set<Node>, item: Node, t: Tree, v: Value, more: set<Node>)
    requires Opened(s, ts, below, item) && Filled(item, t, v, more) && forall i :: 0 <= i < |s| ==> s[i] !in more
    ensures Row(s + [item], ts + [t], below + more)
  {
    hide Holds, Growing, Copies, Means;
    CopiesLonger(s, ts, t, below);
    CopiesMore(s, item, RowTree(ts + [t]), below, more);
  }

  lemma FilledMeans(item: Node, t: Tree, v: Value, below: set<Node>)
    requires Filled(item, t, v, below)
    ensures Means(t, v) && t.name == item.name
  {
    hide Holds, Means;
  }

  /** Makes the list that has been parsed the children of the item. */
  method HangChildren(item: Node, kind: Kind, head: Node?, current: Node?, ghost s: seq<Node>, ghost ts: seq<Tree>,
      ghost below: set<Node>) returns (ghost t: Tree, ghost all: set<Node>)
    requires Row(s, ts, below) && head == First(s) && current == NodeAtInt(s, |s| - 1) && item !in s && item !in below
    modifies item`kind, item`child, item`items, Only(head)`prev
    ensures t.kind == kind && t.items == ts && t.name == item.name && Holds(item, t, all) && all == below + (set x <- s)
  {
    hide Holds, Growing, Copies, Linked, Distinct;
    GrowingAt(s);
    CopiesApart(s, RowTree(ts), below);
    if head != null {
      head.prev := current;
      Grown(s);
    } else {
      NoCopies(RowTree(ts));
    }
    item.kind := kind;
    item.child := head;
    item.items := s;
    t := Tree(kind, item.number, item.text, item.name, ts);
    CopiesOf(s, ts, t, below);
    WholeCopy(item, t, below);
    all := below + set x <- s;
  }

  lemma CopiesOf(s: seq<Node>, ts: seq<Tree>, t: Tree, below: set<Node>)
    requires Copies(s, RowTree(ts), below) && t.items == ts
    ensures Copies(s, t, below)
  {
    hide Holds;
  }

  // ---------- children in the order of parsing ----------

  function Chain(s: seq<Value>): Items {
    if s == [] then NoItems else Item(s[0], Chain(s[1..]))
  }

  function Before(s: seq<Value>, r: Parsed<Items>): Parsed<Items> {
    match r
    case Ok(rest, end) => Ok(Joined(s, rest), end)
    case Bad => Bad
    case Beyond => Beyond
  }

  function Joined(s: seq<Value>, rest: Items): Items {
    if s == [] then rest else Item(s[0], Joined(s[1..], rest))
  }

  lemma {:induction false} JoinedOne(s: seq<Value>, v: Value, rest: Items)
    ensures Joined(s + [v], rest) == Joined(s, Item(v, rest))
  {
    if s == [] {
      assert (s + [v])[1..] == [];
    } else {
      JoinedOne(s[1..], v, rest);
      assert (s + [v])[1..] == s[1..] + [v];
    }
  }

  lemma {:induction false} JoinedAll(s: seq<Value>)
    ensures Joined(s, NoItems) == Chain(s)
  {
    if s != [] {
      JoinedAll(s[1..]);
    }
  }

  datatype Pair = Pair(key: Bytes, value: Value)

  function ChainPairs(s: seq<Pair>): Members {
    if s == [] then NoMembers else Member(s[0].key, s[0].value, ChainPairs(s[1..]))
  }

  function BeforePairs(s: seq<Pair>, r: Parsed<Members>): Parsed<Members> {
    match r
    case Ok(rest, end) => Ok(JoinedPairs(s, rest), end)
    case Bad => Bad
    case Beyond => Beyond
  }

  function JoinedPairs(s: seq<Pair>, rest: Members): Members {
    if s == [] then rest else Member(s[0].key, s[0].value, JoinedPairs(s[1..], rest))
  }

  lemma {:induction false} JoinedPair(s: seq<Pair>, p: Pair, rest: Members)
    ensures JoinedPairs(s + [p], rest) == JoinedPairs(s, Member(p.key, p.value, rest))
  {
    if s == [] {
      assert (s + [p])[1..] == [];
    } else {
      JoinedPair(s[1..], p, rest);
      assert (s + [p])[1..] == s[1..] + [p];
    }
  }

  lemma {:induction false} JoinedPairsAll(s: seq<Pair>)
    ensures JoinedPairs(s, NoMembers) == ChainPairs(s)
  {
    if s != [] {
      JoinedPairsAll(s[1..]);
    }
  }

  // ---------- the parser ----------

  class ParseBuffer {
    const content: Bytes
    var offset: nat
    var depth: nat

    ghost predicate Valid()
      reads this
    {
      offset <= |content|
    }

    constructor (content: Bytes)
      ensures Valid() && this.content == content && offset == 0 && depth == 0
    {
      this.content, offset, depth := content, 0, 0;
    }

    /** `buffer_skip_whitespace` */
    method SkipWhitespace()
      requires Valid()
      modifies this`offset
      ensures Valid() && offset == Skip(content, old(offset))
    {
      if offset >= |content| {
        return;
      }
      while offset < |content| && content[offset] <= 32
        invariant offset <= |content| && NonBlank(content, old(offset)) == NonBlank(content, offset)
      {
        offset := offset + 1;
      }
      if offset == |content| {
        offset := offset - 1;
      }
    }

    /** A byte that can be accessed. */
    predicate At(b: Byte)
      reads this
    {
      offset < |content| && content[offset] == b
    }

    /** `parse_number`: the run of characters of a number, and what `strtod` makes of its beginning. */
    method ParseNumber(item: Node) returns (out: Outcome, ghost v: Value)
      requires Valid() && offset < |content| && (content[offset] == 45 || IsDigit(content[offset]))
      modifies this`offset, item`kind, item`number
      ensures Valid() && Agrees(NumberAt(content, old(offset)), out, v, offset)
      ensures out == Yes ==> item.kind == NumberKind && Whole(item.number) && v == Number(Saturated(item.number.Floor))
    {
      var i: nat := offset;
      while i < |content| && (IsDigit(content[i]) || content[i] in {43, 45, 46, 69, 101})
        invariant offset <= i <= |content|
        invariant forall k :: offset <= k < i ==> IsDigit(content[k]) || content[k] in {43, 45, 46, 69, 101}
      {
        i := i + 1;
      }
      v := Null;
      var start := if content[offset] == 45 then offset + 1 else offset;
      var end, n := start, 0;
      assert content[start..start] == [];
      while end < i && IsDigit(content[end])
        invariant offset == old(offset) && start <= end <= i && (forall k :: start <= k < end ==> IsDigit(content[k]))
        invariant n == DigitsValue(content[start..end])
      {
        OneDigitMore(content, start, end);
        n := 10 * n + (content[end] as int - 48);
        end := end + 1;
      }
      DigitsStop(content, start, end);
      if end == start {
        out := if end < i && content[end] == 46 then Unknown else No;
        return;
      }
      if end < i && content[end] in {46, 69, 101} {
        return Unknown, Null;
      }
      var number: int := if content[offset] == 45 then -n else n;
      item.kind, item.number := NumberKind, number as real;
      out, v := Yes, Number(Saturated(number));
      offset := end;
    }

    /** `strncmp` with a word, as far as there is something to read. */
    method Word(t: Bytes) returns (found: bool)
      requires Valid()
      ensures found == HasAt(content, offset, t)
    {
      found := offset + |t| <= |content| && content[offset..offset + |t|] == t;
    }

    /** `parse_value`; `t` is the tree that the item then holds, and `v` its value. */
    method ParseValue(item: Node) returns (out: Outcome, ghost v: Value, ghost t: Tree, ghost below: set<Node>)
      requires Valid() && item.items == [] && item.child == null
      modifies this, item`kind, item`number, item`text, item`child, item`items
      ensures Valid() && Agrees(ParseAt(content, old(offset), old(depth)), out, v, offset)
      ensures (out == Yes ==> depth == old(depth))
      ensures fresh(below) && (out == Yes ==> Filled(item, t, v, below))
      decreases |content| - offset, 2
    {
      hide StringAt, NumberAt, ArrayAt, ObjectAt, Filled, Holds;
      out, v, t, below := No, Null, Leaf(item), {};
      var found := Word(NULL);
      if found {
        item.kind := NullKind;
        offset := offset + 4;
        LeafFilled(item, Null);
        return Yes, Null, Leaf(item), {};
      }
      found := Word(FALSE);
      if found {
        item.kind := FalseKind;
        offset := offset + 5;
        LeafFilled(item, False);
        return Yes, False, Leaf(item), {};
      }
      found := Word(TRUE);
      if found {
        item.kind := TrueKind;
        offset := offset + 4;
        LeafFilled(item, True);
        return Yes, True, Leaf(item), {};
      }
      if At(QUOTE) {
        var r := ParseString(content, offset);
        if r.Some? {
          item.kind, item.text := StringKind, Some(r.value.0);
          out, v, t := Yes, String(r.value.0), Leaf(item);
          offset := r.value.1;
          LeafFilled(item, v);
        }
      } else if offset < |content| && (content[offset] == 45 || IsDigit(content[offset])) {
        out, v := ParseNumber(item);
        if out == Yes {
          t := Leaf(item);
          LeafFilled(item, v);
        }
      } else if At(91) {
        out, v, t, below := ParseArray(item);
      } else if At(123) {
        out, v, t, below := ParseObject(item);
      }
    }

    /** `parse_array` */
    method ParseArray(item: Node) returns (out: Outcome, ghost v: Value, ghost t: Tree, ghost below: set<Node>)
      requires Valid() && At(91) && item.items == [] && item.child == null
      modifies this, item`kind, item`child, item`items
      ensures Valid() && Agrees(ArrayAt(content, old(offset), old(depth)), out, v, offset)
      ensures (out == Yes ==> depth == old(depth))
      ensures fresh(below) && (out == Yes ==> Filled(item, t, v, below))
      decreases |content| - offset, 1
    {
      hide ItemsAt, Skip, ParseAt, Holds, ItemsMean, Row;
      v, t, below := Null, Leaf(item), {};
      if depth >= NESTING_LIMIT {
        out := No;
        return;
      }
      depth := depth + 1;
      offset := offset + 1;
      SkipWhitespace();
      if At(93) {
        depth := depth - 1;
        RowStarts();
        NothingMeant();
        t, below := HangChildren(item, ArrayKind, null, null, [], [], {});
        offset := offset + 1;
        out, v := Yes, Array(NoItems);
        return;
      }
      if offset >= |content| {
        out := No;
        return;
      }
      offset := offset - 1;
      var head, current;
      ghost var items, s, ts;
      out, head, current, items, s, ts, below := ParseItems();
      if out == Yes {
        depth := depth - 1;
        v := Array(Chain(items));
        t, below := HangChildren(item, ArrayKind, head, current, s, ts, below);
      }
    }

    /** The loop over the elements, up to the closing bracket. */
    method ParseItems()
      returns (out: Outcome, head: Node?, current: Node?, ghost items: seq<Value>, ghost s: seq<Node>,
        ghost ts: seq<Tree>, ghost below: set<Node>)
      requires Valid() && offset < |content|
      modifies this
      ensures Valid() && Agrees(ItemsAt(content, old(offset), old(depth)), out, Chain(items), offset)
      ensures (out == Yes ==> depth == old(depth))
      ensures fresh(below) && (forall i :: 0 <= i < |s| ==> fresh(s[i])) && head == First(s)
      ensures current == NodeAtInt(s, |s| - 1)
      ensures out == Yes ==> Row(s, ts, below) && ItemsMean(ts, Chain(items))
      decreases |content| - offset, 0
    {
      hide Skip, ParseAt, ItemsAt, Row, Opened, Filled, ItemsMean, Means;
      ghost var whole := ItemsAt(content, offset, depth);
      items, s, ts, below := [], [], [], {};
      head, current := null, null;
      NoneBefore(whole);
      RowStarts();
      NothingMeant();
      while true
        invariant offset < |content| && old(offset) <= offset && depth == old(depth)
        invariant whole == Before(items, ItemsAt(content, offset, depth))
        invariant fresh(below) && (forall i :: 0 <= i < |s| ==> fresh(s[i])) && head == First(s)
        invariant current == NodeAtInt(s, |s| - 1)
        invariant Row(s, ts, below) && ItemsMean(ts, Chain(items))
        decreases |content| - offset
      {
        ghost var p := offset;
        ghost var s0 := s;
        head, current := NextItem(head, current, s, ts, below);
        s := s + [current];
        offset := offset + 1;
        SkipWhitespace();
        ghost var v, t, more;
        out, v, t, more := ParseValue(current);
        AfterItem(items, v, content, p, old(depth));
        if out != Yes {
          return;
        }
        RowMore(s0, ts, below, current, t, v, more);
        FilledMeans(current, t, v, more);
        ItemsMeanMore(ts, items, t, v);
        items, ts, below := items + [v], ts + [t], below + more;
        SkipWhitespace();
        if !At(44) {
          break;
        }
      }
      if !At(93) {
        out := No;
        return;
      }
      offset := offset + 1;
      out := Yes;
    }

    /** `parse_object` */
    method ParseObject(item: Node) returns (out: Outcome, ghost v: Value, ghost t: Tree, ghost below: set<Node>)
      requires Valid() && At(123) && item.items == [] && item.child == null
      modifies this, item`kind, item`child, item`items
      ensures Valid() && Agrees(ObjectAt(content, old(offset), old(depth)), out, v, offset)
      ensures (out == Yes ==> depth == old(depth))
      ensures fresh(below) && (out == Yes ==> Filled(item, t, v, below))
      decreases |content| - offset, 1
    {
      hide MembersAt, Skip, ParseAt, Holds, MembersMean, Row;
      v, t, below := Null, Leaf(item), {};
      if depth >= NESTING_LIMIT {
        out := No;
        return;
      }
      depth := depth + 1;
      offset := offset + 1;
      SkipWhitespace();
      if At(125) {
        depth := depth - 1;
        RowStarts();
        NothingMeant();
        t, below := HangChildren(item, ObjectKind, null, null, [], [], {});
        offset := offset + 1;
        out, v := Yes, Object(NoMembers);
        return;
      }
      if offset >= |content| {
        out := No;
        return;
      }
      offset := offset - 1;
      var head, current;
      ghost var members, s, ts;
      out, head, current, members, s, ts, below := ParseMembers();
      if out == Yes {
        depth := depth - 1;
        v := Object(ChainPairs(members));
        t, below := HangChildren(item, ObjectKind, head, current, s, ts, below);
      }
    }

    /** The name of a member, and the colon behind it. */
    method ParseKey(item: Node) returns (ok: bool)
      requires Valid() && offset < |content|
      modifies this`offset, item`name
      ensures Valid() && (ok ==> old(offset) < offset)
      ensures !ok ==> MembersAt(content, old(offset), depth) == Bad
      ensures ok ==> old(offset) + 1 < |content| && StringAt(content, Skip(content, old(offset) + 1)).Some?
      ensures ok ==> var (key, e) := StringAt(content, Skip(content, old(offset) + 1)).value;
                     && item.name == Some(key) && Skip(content, e) < |content| && content[Skip(content, e)] == 58
                     && offset == Skip(content, Skip(content, e) + 1)
    {
      hide Skip, MembersAt, StringAt;
      KeyStep(content, offset, depth);
      if offset + 1 >= |content| {
        return false;
      }
      offset := offset + 1;
      SkipWhitespace();
      var r := ParseString(content, offset);
      if r == None {
        return false;
      }
      item.name := Some(r.value.0);
      offset := r.value.1;
      SkipWhitespace();
      if !At(58) {
        return false;
      }
      offset := offset + 1;
      SkipWhitespace();
      ok := true;
    }

    /** The loop over the members, up to the closing brace. */
    method ParseMembers()
      returns (out: Outcome, head: Node?, current: Node?, ghost members: seq<Pair>, ghost s: seq<Node>,
        ghost ts: seq<Tree>, ghost below: set<Node>)
      requires Valid() && offset < |content|
      modifies this
      ensures Valid() && Agrees(MembersAt(content, old(offset), old(depth)), out, ChainPairs(members), offset)
      ensures (out == Yes ==> depth == old(depth))
      ensures fresh(below) && (forall i :: 0 <= i < |s| ==> fresh(s[i])) && head == First(s)
      ensures current == NodeAtInt(s, |s| - 1)
      ensures out == Yes ==> Row(s, ts, below) && MembersMean(ts, ChainPairs(members))
      decreases |content| - offset, 0
    {
      hide Skip, ParseAt, MembersAt, MemberAt, StringAt, Row, Opened, Filled, MembersMean, Means;
      ghost var whole := MembersAt(content, offset, depth);
      members, s, ts, below := [], [], [], {};
      head, current := null, null;
      NoPairsBefore(whole);
      RowStarts();
      NothingMeant();
      while true
        invariant offset < |content| && old(offset) <= offset && depth == old(depth)
        invariant whole == BeforePairs(members, MembersAt(content, offset, depth))
        invariant fresh(below) && (forall i :: 0 <= i < |s| ==> fresh(s[i])) && head == First(s)
        invariant current == NodeAtInt(s, |s| - 1)
        invariant Row(s, ts, below) && MembersMean(ts, ChainPairs(members))
        decreases |content| - offset
      {
        ghost var p := offset;
        ghost var s0 := s;
        head, current := NextItem(head, current, s, ts, below);
        s := s + [current];
        var ok := ParseKey(current);
        if !ok {
          out := No;
          return;
        }
        ghost var key := current.name.value;
        ghost var v, t, more;
        out, v, t, more := ParseValue(current);
        AfterPair(members, v, content, p, old(depth));
        if out != Yes {
          return;
        }
        RowMore(s0, ts, below, current, t, v, more);
        FilledMeans(current, t, v, more);
        MembersMeanMore(ts, members, t, Pair(key, v));
        members, ts, below := members + [Pair(key, v)], ts + [t], below + more;
        SkipWhitespace();
        if !At(44) {
          break;
        }
      }
      if !At(125) {
        out := No;
        return;
      }
      offset := offset + 1;
      out := Yes;
    }
  }

  /** `cJSON_ParseWithLengthOpts` */
  method ParseText(c: Bytes, requireNul: bool)
    returns (out: Outcome, item: Node?, end: nat, ghost v: Value, ghost t: Tree, ghost below: set<Node>)
    ensures Agrees(Parse(c, requireNul), out, v, end) && (item != null <==> out == Yes)
    ensures item != null ==> fresh(item) && fresh(below) && Filled(item, t, v, below)
  {
    hide ParseAt, Skip, Filled;
    out, item, end, v, t, below := No, null, 0, Null, RowTree([]), {};
    if |c| == 0 {
      return;
    }
    var b := new ParseBuffer(c);
    var root := new Node();
    if |c| > 4 && c[..3] == [0xEF, 0xBB, 0xBF] {
      b.offset := 3;
    }
    b.SkipWhitespace();
    out, v, t, below := b.ParseValue(root);
    if out != Yes {
      return;
    }
    if requireNul {
      b.SkipWhitespace();
      if !b.At(0) {
        out := No;
        return;
      }
    }
    item, end := root, b.offset;
  }

  /** A value that can be printed is read back from what is printed, as a tree of nodes. */
  method PrintThenParse(v: Value, format: bool, requireNul: bool)
    returns (text: Option<Bytes>, out: Outcome, item: Node?, ghost t: Tree, ghost below: set<Node>)
    requires Printable(v)
    ensures text.Some? ==> out == Yes && item != null && fresh(item) && fresh(below) && Filled(item, t, v, below)
    ensures text.Some? <==> |Text(v, format, 0)| + 2 <= INT_MAX && Nesting(v) <= NESTING_LIMIT
  {
    hide Text, Nesting, Parse, Filled;
    out, item, t, below := No, null, RowTree([]), {};
    text := Print(v, format);
    if text.Some? {
      PrintParse(v, format, requireNul);
      var end;
      ghost var back;
      out, item, end, back, t, below := ParseText(text.value, requireNul);
    }
  }

  lemma OneDigitMore(c: Bytes, start: nat, end: nat)
    requires start <= end < |c| && forall k :: start <= k <= end ==> IsDigit(c[k])
    ensures DigitsValue(c[start..end + 1]) == 10 * DigitsValue(c[start..end]) + (c[end] as int - 48)
  {
    var s := c[start..end + 1];
    assert s[..|s| - 1] == c[start..end] && s[|s| - 1] == c[end];
  }

  lemma NoneBefore(r: Parsed<Items>)
    ensures Before([], r) == r
  {
  }

  lemma NoPairsBefore(r: Parsed<Members>)
    ensures BeforePairs([], r) == r
  {
  }

  /** What the element behind `p` makes of the rest. */
  lemma AfterItem(items: seq<Value>, v: Value, c: Bytes, p: nat, depth: nat)
    requires p < |c|
    ensures match ParseAt(c, Skip(c, p + 1), depth)
            case Bad => Before(items, ItemsAt(c, p, depth)) == Bad
            case Beyond => Before(items, ItemsAt(c, p, depth)) == Beyond
            case Ok(w, end) =>
              var q := Skip(c, end);
              v == w ==> (Before(items, ItemsAt(c, p, depth)) ==
                if q < |c| && c[q] == 44 then Before(items + [v], ItemsAt(c, q, depth))
                else if q < |c| && c[q] == 93 then Ok(Chain(items + [v]), q + 1)
                else Bad)
  {
    hide ParseAt, Skip;
    match ParseAt(c, Skip(c, p + 1), depth) {
      case Ok(w, end) =>
        var q := Skip(c, end);
        JoinedOne(items, v, NoItems);
        JoinedAll(items + [v]);
        if q < |c| && c[q] == 44 && ItemsAt(c, q, depth).Ok? {
          JoinedOne(items, v, ItemsAt(c, q, depth).value);
        }
      case _ =>
    }
  }

  lemma KeyStep(c: Bytes, p: nat, depth: nat)
    requires p < |c|
    ensures p + 1 >= |c| ==> MembersAt(c, p, depth) == Bad
    ensures p + 1 < |c| ==>
              var k := Skip(c, p + 1);
              && (StringAt(c, k) == None ==> MembersAt(c, p, depth) == Bad)
              && (StringAt(c, k).Some? ==> var e := Skip(c, StringAt(c, k).value.1);
                 e >= |c| || c[e] != 58 ==> MembersAt(c, p, depth) == Bad)
  {
    hide StringAt, ParseAt, Skip;
  }

  /** What the member behind `p` makes of the rest. */
  lemma AfterPair(members: seq<Pair>, v: Value, c: Bytes, p: nat, depth: nat)
    requires p + 1 < |c| && StringAt(c, Skip(c, p + 1)).Some?
    requires var e := Skip(c, StringAt(c, Skip(c, p + 1)).value.1); e < |c| && c[e] == 58
    ensures var (key, e) := StringAt(c, Skip(c, p + 1)).value;
            match ParseAt(c, Skip(c, Skip(c, e) + 1), depth)
            case Bad => BeforePairs(members, MembersAt(c, p, depth)) == Bad
            case Beyond => BeforePairs(members, MembersAt(c, p, depth)) == Beyond
            case Ok(w, end) =>
              var q := Skip(c, end);
              v == w ==> (BeforePairs(members, MembersAt(c, p, depth)) ==
                if q < |c| && c[q] == 44 then BeforePairs(members + [Pair(key, v)], MembersAt(c, q, depth))
                else if q < |c| && c[q] == 125 then Ok(ChainPairs(members + [Pair(key, v)]), q + 1)
                else Bad)
  {
    hide ParseAt, Skip, StringAt;
    var (key, e) := StringAt(c, Skip(c, p + 1)).value;
    match ParseAt(c, Skip(c, Skip(c, e) + 1), depth) {
      case Ok(w, end) =>
        var q := Skip(c, end);
        JoinedPair(members, Pair(key, v), NoMembers);
        JoinedPairsAll(members + [Pair(key, v)]);
        if q < |c| && c[q] == 44 && MembersAt(c, q, depth).Ok? {
          JoinedPair(members, Pair(key, v), MembersAt(c, q, depth).value);
        }
      case _ =>
    }
  }
}
