/**
 Whole JSON values on the heap (external/cJSON.c, `cJSON_Duplicate_rec` and `cJSON_Compare`): copying
 gives a new tree with the same contents, and comparing is one relation on contents.
 */
module JsonTree {
  import opened Bits
  import opened JsonList
  import opened Wrappers

  /** The contents of a node and everything below it. */
  datatype Tree = Tree(kind: Kind, number: real, text: Option<Bytes>, name: Option<Bytes>, items: seq<Tree>)

  const CIRCULAR_LIMIT := 10000

  predicate HeadIs(n: Node, t: Tree)
    reads n`kind, n`number, n`text, n`name
  {
    n.kind == t.kind && n.number == t.number && n.text == t.text && n.name == t.name
  }

  /** Node `n` holds the tree `t`; what is below it is in `r`. */
  ghost predicate Holds(n: Node, t: Tree, r: set<Node>)
    reads n`kind, n`number, n`text, n`name, n`child, n`items, r
    decreases t
  {
    && HeadIs(n, t)
    && |n.items| == |t.items| && (forall i :: 0 <= i < |n.items| ==> n.items[i] in r)
    && n.List()
    && forall i :: 0 <= i < |t.items| ==> Holds(n.items[i], t.items[i], r)
  }

  lemma {:induction false} HoldsMore(n: Node, t: Tree, r: set<Node>, r': set<Node>)
    requires Holds(n, t, r) && r <= r'
    ensures Holds(n, t, r')
    decreases t
  {
    forall i | 0 <= i < |t.items|
      ensures Holds(n.items[i], t.items[i], r')
    {
      HoldsMore(n.items[i], t.items[i], r, r');
    }
  }

  /** The longest way down. */
  function Height(t: Tree): nat
    decreases t, 1, 0
  {
    HeightOf(t, |t.items|)
  }

  function HeightOf(t: Tree, k: nat): nat
    requires k <= |t.items|
    decreases t, 0, k
  {
    if k == 0 then 0
    else
      var a, b := HeightOf(t, k - 1), 1 + Height(t.items[k - 1]);
      if a < b then b else a
  }

  lemma {:induction false} HeightMonotone(t: Tree, k: nat, j: nat)
    requires k <= j <= |t.items|
    ensures HeightOf(t, k) <= HeightOf(t, j)
    decreases j
  {
    if k < j {
      HeightMonotone(t, k, j - 1);
    }
  }

  lemma ChildHeight(t: Tree, k: nat)
    requires k < |t.items|
    ensures 1 + Height(t.items[k]) <= HeightOf(t, k + 1) <= Height(t) && HeightOf(t, 0) == 0
    ensures HeightOf(t, k + 1) == HeightOf(t, k) || HeightOf(t, k + 1) == 1 + Height(t.items[k])
  {
    HeightMonotone(t, k + 1, |t.items|);
  }

  // ---------- copying ----------

  /** A list under construction: the first item's `prev` is still open. */
  ghost predicate Growing(s: seq<Node>)
    reads s`next, s`prev
  {
    && Distinct(s)
    && (forall j {:trigger s[j].next} :: 0 <= j < |s| ==> s[j].next == NodeAt(s, j + 1))
    && (forall j {:trigger s[j].prev} :: 1 <= j < |s| ==> s[j].prev == s[j - 1])
  }

  lemma GrowingAt(s: seq<Node>)
    requires Growing(s)
    ensures Distinct(s)
    ensures forall j {:trigger s[j].next} :: 0 <= j < |s| ==> s[j].next == NodeAt(s, j + 1)
    ensures forall j {:trigger s[j].prev} :: 1 <= j < |s| ==> s[j].prev == s[j - 1]
  {
  }

  lemma GrowingMore(s: seq<Node>, item: Node)
    requires Distinct(s) && item !in s && item.next == null
    requires (s != [] ==> s[|s| - 1].next == item && item.prev == s[|s| - 1])
    requires forall j :: 0 <= j < |s| - 1 ==> s[j].next == NodeAt(s, j + 1)
    requires forall j :: 1 <= j < |s| ==> s[j].prev == s[j - 1]
    ensures Growing(s + [item])
  {
  }

  lemma Grown(s: seq<Node>)
    requires s != [] && Distinct(s) && s[0].prev == s[|s| - 1]
    requires forall j {:trigger s[j].next} :: 0 <= j < |s| ==> s[j].next == NodeAt(s, j + 1)
    requires forall j {:trigger s[j].prev} :: 1 <= j < |s| ==> s[j].prev == s[j - 1]
    ensures Linked(s)
  {
  }

  /** `s` holds copies of the first children of `t`. */
  ghost predicate Copies(s: seq<Node>, t: Tree, below: set<Node>)
    reads s`kind, s`number, s`text, s`name, s`child, s`items, below
  {
    |s| <= |t.items| && forall i :: 0 <= i < |s| ==> s[i] !in below && Holds(s[i], t.items[i], below)
  }

  lemma CopiesApart(s: seq<Node>, t: Tree, below: set<Node>)
    requires Copies(s, t, below)
    ensures forall i :: 0 <= i < |s| ==> s[i] !in below
  {
  }

  lemma NoCopies(t: Tree)
    ensures Growing([]) && Linked([]) && Distinct([]) && Copies([], t, {}) && HeightOf(t, 0) == 0
    ensures Copies([], Alone(t), {})
  {
  }

  lemma CopiesMore(s: seq<Node>, item: Node, t: Tree, below: set<Node>, more: set<Node>)
    requires Copies(s, t, below) && |s| < |t.items| && Holds(item, t.items[|s|], more) && item !in below
    requires item !in more
    requires forall i :: 0 <= i < |s| ==> s[i] !in more
    ensures Copies(s + [item], t, below + more)
  {
    hide Holds;
    HoldsMore(item, t.items[|s|], more, below + more);
    forall i | 0 <= i < |s|
      ensures Holds(s[i], t.items[i], below + more)
    {
      HoldsMore(s[i], t.items[i], below, below + more);
    }
  }

  lemma WholeCopy(n: Node, t: Tree, below: set<Node>)
    requires HeadIs(n, t) && |n.items| == |t.items| && n.List() && Copies(n.items, t, below)
    ensures Holds(n, t, below + set x <- n.items)
  {
    var all := below + set x <- n.items;
    forall i | 0 <= i < |t.items|
      ensures n.items[i] in all && Holds(n.items[i], t.items[i], all)
    {
      HoldsMore(n.items[i], t.items[i], below, all);
    }
  }

  lemma HeldList(n: Node, t: Tree, r: set<Node>, k: nat)
    requires Holds(n, t, r)
    ensures |n.items| == |t.items| && n.List()
    ensures (k < |t.items| ==> n.items[k] in r && Holds(n.items[k], t.items[k], r))
    ensures HeadIs(n, t)
  {
  }

  /** The tree without what is below. */
  function Alone(t: Tree): Tree {
    t.(items := [])
  }

  /** Hangs a copied child behind the one before. */
  method Attach(newItem: Node, next: Node?, newChild: Node, ghost t: Tree, ghost below: set<Node>,
      ghost more: set<Node>)
    requires var s := newItem.items;
             Growing(s) && newItem.child == First(s) && next == NodeAtInt(s, |s| - 1) && newItem !in s &&
                 newItem != newChild
    requires var s := newItem.items;
             && Copies(s, t, below) && |s| < |t.items| && Holds(newChild, t.items[|s|], more) &&
                newChild.next == null && newChild !in s
             && newChild !in below && newChild !in more && newItem !in below && newItem !in more && forall i ::
                0 <= i < |s| ==> s[i] !in more
    modifies newItem`child, newItem`items, newItem.items`next, newChild`prev
    ensures newItem.items == old(newItem.items) + [newChild] && newItem.child == First(newItem.items)
    ensures Growing(newItem.items) && Copies(newItem.items, t, below + more)
  {
    hide Holds, Growing, Copies, Linked, Distinct;
    GrowingAt(newItem.items);
    CopiesApart(newItem.items, t, below);
    if next != null {
      next.next := newChild;
      newChild.prev := next;
    } else {
      newItem.child := newChild;
    }
    GrowingMore(newItem.items, newChild);
    CopiesMore(newItem.items, newChild, t, below, more);
    newItem.items := newItem.items + [newChild];
  }

  /** Closes the list of the copies. */
  method Close(newItem: Node, newChild: Node?, ghost t: Tree, ghost below: set<Node>) returns (ghost all: set<Node>)
    requires var s := newItem.items;
             && Growing(s) && newItem.child == First(s) && newChild == NodeAtInt(s, |s| - 1)
             && HeadIs(newItem, t) && |s| == |t.items| && Copies(s, t, below)
    modifies newItem.items`prev
    ensures Holds(newItem, t, all) && all == below + set x <- newItem.items
  {
    hide Holds, Growing, Copies, Linked, Distinct;
    GrowingAt(newItem.items);
    CopiesApart(newItem.items, t, below);
    if newItem.child != null {
      newItem.child.prev := newChild;
      Grown(newItem.items);
    }
    WholeCopy(newItem, t, below);
    all := below + set x <- newItem.items;
  }

  /** `cJSON_Duplicate_rec`, when there is memory. */
  method Duplicate(item: Node?, depth: nat, recurse: bool, ghost t: Tree, ghost r: set<Node>)
    returns (copy: Node?, ghost below: set<Node>)
    requires item != null ==> Holds(item, t, r)
    ensures copy != null <==> item != null && (recurse ==> Height(t) == 0 || depth + Height(t) <= CIRCULAR_LIMIT)
    ensures copy != null ==> fresh(copy) && copy.next == null && copy.prev == null
    ensures fresh(below) && (copy != null ==> copy !in below && Holds(copy, if recurse then t else Alone(t), below))
    decreases t, 1
  {
    hide Holds, HeightOf;
    below := {};
    if item == null {
      return null, {};
    }
    HeldList(item, t, r, 0);
    var newItem := new Node();
    newItem.kind, newItem.number, newItem.text, newItem.name := item.kind, item.number, item.text, item.name;
    NoCopies(t);
    if !recurse {
      WholeCopy(newItem, Alone(t), {});
      assert {} + (set x <- newItem.items) == {};
      return newItem, {};
    }
    var ok;
    ok, below := DuplicateChildren(item, newItem, depth, t, r);
    copy := if ok then newItem else null;
  }

  /** Walks the children of `item` and hangs copies of them below `newItem`. */
  method DuplicateChildren(item: Node, newItem: Node, depth: nat, ghost t: Tree, ghost r: set<Node>)
    returns (ok: bool, ghost below: set<Node>)
    requires Holds(item, t, r) && newItem != item && newItem !in r
    requires HeadIs(newItem, t) && newItem.items == [] && newItem.child == null
    modifies newItem`child, newItem`items
    ensures ok <==> Height(t) == 0 || depth + Height(t) <= CIRCULAR_LIMIT
    ensures fresh(below) && (ok ==> Holds(newItem, t, below))
    decreases t, 0
  {
    hide Holds, Growing, Copies, Linked, Distinct, HeightOf;
    NoCopies(t);
    HeldList(item, t, r, 0);
    var child, next, newChild: Node? := item.child, null, null;
    ghost var k := 0;
    below := {};
    while child != null
      invariant k <= |t.items| && child == NodeAt(item.items, k) && Holds(item, t, r)
      invariant fresh(below) && fresh(newItem.items) && HeadIs(newItem, t)
      invariant |newItem.items| == k && Growing(newItem.items) && newItem.child == First(newItem.items)
      invariant next == newChild == NodeAtInt(newItem.items, k - 1)
      invariant Copies(newItem.items, t, below)
      invariant HeightOf(t, k) == 0 || depth + HeightOf(t, k) <= CIRCULAR_LIMIT
      decreases |t.items| - k
    {
      ChildHeight(t, k);
      HeldList(item, t, r, k);
      if depth >= CIRCULAR_LIMIT {
        return false, {};
      }
      ghost var more;
      newChild, more := Duplicate(child, depth + 1, true, t.items[k], r);
      if newChild == null {
        return false, {};
      }
      Attach(newItem, next, newChild, t, below, more);
      next := newChild;
      below := below + more;
      HeldList(item, t, r, k);
      LinksAt(item.items, k);
      child := child.next;
      k := k + 1;
    }
    below := Close(newItem, newChild, t, below);
    ok := true;
  }

  // ---------- comparing ----------

  function Abs(x: real): real {
    if x < 0.0 then -x else x
  }

  const EPSILON := 1.0 / 4503599627370496.0

  /** `compare_double` */
  predicate Near(a: real, b: real) {
    Abs(a - b) <= (if Abs(a) > Abs(b) then Abs(a) else Abs(b)) * EPSILON
  }

  /** The place of the first item that answers to `name`, or the number of items. */
  function Place(s: seq<Tree>, name: Option<Bytes>, caseSensitive: bool): (k: nat)
    ensures k <= |s|
  {
    if s == [] || name == None then |s|
    else if Asks(name.value, s[0].name, caseSensitive) then 0
    else if caseSensitive && s[0].name == None then |s|
    else 1 + Place(s[1..], name, caseSensitive)
  }

  /** What `cJSON_Compare` finds out about two trees: objects are compared name by name, both ways. */
  ghost predicate Same(a: Tree, b: Tree, caseSensitive: bool)
    decreases a
  {
    a.kind == b.kind &&
    match a.kind
    case Invalid => false
    case FalseKind => true
    case TrueKind => true
    case NullKind => true
    case NumberKind => Near(a.number, b.number)
    case StringKind => a.text.Some? && a.text == b.text
    case RawKind => a.text.Some? && a.text == b.text
    case ArrayKind => |a.items| == |b.items| && forall i :: 0 <= i < |a.items| ==>
        Same(a.items[i], b.items[i], caseSensitive)
    case ObjectKind =>
      && (forall i :: 0 <= i < |a.items| ==>
           var j := Place(b.items, a.items[i].name, caseSensitive);
               j < |b.items| && Same(a.items[i], b.items[j], caseSensitive))
      && (forall j :: 0 <= j < |b.items| ==>
           var i := Place(a.items, b.items[j].name, caseSensitive);
               i < |a.items| && Same(a.items[i], b.items[j], caseSensitive))
  }

  lemma {:induction false} SameSymmetric(a: Tree, b: Tree, caseSensitive: bool)
    ensures Same(a, b, caseSensitive) == Same(b, a, caseSensitive)
    decreases a
  {
    forall i, j | 0 <= i < |a.items| && 0 <= j < |b.items|
      ensures Same(a.items[i], b.items[j], caseSensitive) == Same(b.items[j], a.items[i], caseSensitive)
    {
      SameSymmetric(a.items[i], b.items[j], caseSensitive);
    }
  }

  lemma {:induction false} CalledPlace(s: seq<Node>, ts: seq<Tree>, name: Bytes, caseSensitive: bool)
    requires |s| == |ts| && forall i :: 0 <= i < |s| ==> s[i].name == ts[i].name
    ensures Called(s, name, caseSensitive) == NodeAt(s, Place(ts, Some(name), caseSensitive))
    decreases |s|
  {
    if s != [] {
      CalledPlace(s[1..], ts[1..], name, caseSensitive);
    }
  }

  lemma NamesHeld(n: Node, t: Tree, r: set<Node>, name: Option<Bytes>, caseSensitive: bool)
    requires Holds(n, t, r)
    ensures n.List()
    ensures (if name == None then null else Called(n.items, name.value, caseSensitive)) ==
            NodeAt(n.items, Place(t.items, name, caseSensitive))
  {
    if name.Some? {
      CalledPlace(n.items, t.items, name.value, caseSensitive);
    }
  }

  /** Every member of `a` has a partner in `b`. */
  ghost predicate Covered(a: Tree, b: Tree, caseSensitive: bool, k: nat)
    requires k <= |a.items|
  {
    forall i :: 0 <= i < k ==>
      var j := Place(b.items, a.items[i].name, caseSensitive);
          j < |b.items| && Same(a.items[i], b.items[j], caseSensitive)
  }

  lemma SameMembers(a: Tree, b: Tree, caseSensitive: bool)
    requires a.kind == b.kind == ObjectKind
    ensures Same(a, b, caseSensitive) <==>
            Covered(a, b, caseSensitive, |a.items|) && Covered(b, a, caseSensitive, |b.items|)
  {
    forall i, j | 0 <= i < |a.items| && 0 <= j < |b.items|
      ensures Same(a.items[i], b.items[j], caseSensitive) == Same(b.items[j], a.items[i], caseSensitive)
    {
      SameSymmetric(a.items[i], b.items[j], caseSensitive);
    }
  }

  /** Two trees that share no node. */
  predicate Apart(a: Node, ra: set<Node>, b: Node, rb: set<Node>) {
    a != b && a !in rb && b !in ra && ra !! rb
  }

  /** `cJSON_Compare` */
  method Compare(a: Node?, b: Node?, caseSensitive: bool, ghost ta: Tree, ghost ra: set<Node>, ghost tb: Tree,
      ghost rb: set<Node>) returns (same: bool)
    requires (a != null ==> Holds(a, ta, ra)) && (b != null ==> Holds(b, tb, rb))
    requires a != null && b != null && a != b ==> Apart(a, ra, b, rb)
    ensures same <==> a != null && b != null && if a == b then ta.kind != Invalid else Same(ta, tb, caseSensitive)
    decreases Height(ta) + Height(tb), 2
  {
    hide Holds, Height, Covered, Place;
    if a == null || b == null {
      return false;
    }
    HeldList(a, ta, ra, 0);
    HeldList(b, tb, rb, 0);
    if a.kind != b.kind || a.kind == Invalid {
      return false;
    }
    if a == b {
      return true;
    }
    match a.kind
    case FalseKind => return true;
    case TrueKind => return true;
    case NullKind => return true;
    case NumberKind =>
      return Near(a.number, b.number);
    case StringKind =>
      return a.text.Some? && b.text.Some? && a.text == b.text;
    case RawKind =>
      return a.text.Some? && b.text.Some? && a.text == b.text;
    case ArrayKind =>
      same := CompareItems(a, b, caseSensitive, ta, ra, tb, rb);
    case ObjectKind =>
      SameMembers(ta, tb, caseSensitive);
      same := CompareMembers(a, b, caseSensitive, ta, ra, tb, rb);
      if same {
        same := CompareMembers(b, a, caseSensitive, tb, rb, ta, ra);
      }
  }

  /** Two arrays, item by item. */
  method CompareItems(a: Node, b: Node, caseSensitive: bool, ghost ta: Tree, ghost ra: set<Node>, ghost tb: Tree,
      ghost rb: set<Node>) returns (same: bool)
    requires Holds(a, ta, ra) && Holds(b, tb, rb) && Apart(a, ra, b, rb)
    ensures same <==> |ta.items| == |tb.items| && forall i :: 0 <= i < |ta.items| ==>
            Same(ta.items[i], tb.items[i], caseSensitive)
    decreases Height(ta) + Height(tb), 1
  {
    hide Holds, Height, Same;
    HeldList(a, ta, ra, 0);
    HeldList(b, tb, rb, 0);
    var x, y := a.child, b.child;
    ghost var k := 0;
    while x != null && y != null
      invariant k <= |ta.items| && k <= |tb.items| && x == NodeAt(a.items, k) && y == NodeAt(b.items, k)
      invariant forall i :: 0 <= i < k ==> Same(ta.items[i], tb.items[i], caseSensitive)
      decreases |ta.items| - k
    {
      HeldList(a, ta, ra, k);
      HeldList(b, tb, rb, k);
      ChildHeight(ta, k);
      ChildHeight(tb, k);
      var equal := Compare(x, y, caseSensitive, ta.items[k], ra, tb.items[k], rb);
      if !equal {
        return false;
      }
      x, y, k := x.next, y.next, k + 1;
    }
    same := x == y;
  }

  /** The members of one object, each with what the other object has under its name. */
  method CompareMembers(a: Node, b: Node, caseSensitive: bool, ghost ta: Tree, ghost ra: set<Node>, ghost tb: Tree,
      ghost rb: set<Node>) returns (same: bool)
    requires Holds(a, ta, ra) && Holds(b, tb, rb) && Apart(a, ra, b, rb)
    ensures same <==> Covered(ta, tb, caseSensitive, |ta.items|)
    decreases Height(ta) + Height(tb), 1
  {
    hide Holds, Height, Same, Place;
    HeldList(a, ta, ra, 0);
    var x := a.child;
    ghost var k := 0;
    while x != null
      invariant k <= |ta.items| && x == NodeAt(a.items, k)
      invariant Covered(ta, tb, caseSensitive, k)
      decreases |ta.items| - k
    {
      HeldList(a, ta, ra, k);
      HeldList(x, ta.items[k], ra, 0);
      NamesHeld(b, tb, rb, x.name, caseSensitive);
      ghost var j := Place(tb.items, ta.items[k].name, caseSensitive);
      HeldList(b, tb, rb, j);
      var y := b.GetObjectItem(x.name, caseSensitive);
      if y == null {
        return false;
      }
      ChildHeight(ta, k);
      ChildHeight(tb, j);
      var equal := Compare(x, y, caseSensitive, ta.items[k], ra, tb.items[j], rb);
      if !equal {
        return false;
      }
      x, k := x.next, k + 1;
    }
    same := true;
  }

  // ---------- copies compare equal, exactly when ----------

  /**
   Strings have their text, members their names, and a name that occurs again in an object holds
   what its first occurrence holds.
   */
  ghost predicate WellNamed(t: Tree, caseSensitive: bool)
    decreases t
  {
    match t.kind
    case Invalid => false
    case StringKind => t.text.Some?
    case RawKind => t.text.Some?
    case ArrayKind => forall i :: 0 <= i < |t.items| ==> WellNamed(t.items[i], caseSensitive)
    case ObjectKind => forall i :: 0 <= i < |t.items| ==>
        var first := Place(t.items, t.items[i].name, caseSensitive);
        && first < |t.items|
        && if first == i then WellNamed(t.items[i], caseSensitive) else Same(t.items[i], t.items[first], caseSensitive)
    case _ => true
  }

  /** A tree compares equal to its copies just when it is well-named. */
  lemma {:induction false} SameAsItself(t: Tree, caseSensitive: bool)
    ensures Same(t, t, caseSensitive) <==> WellNamed(t, caseSensitive)
    decreases t
  {
    hide Place;
    forall i | 0 <= i < |t.items|
      ensures Same(t.items[i], t.items[i], caseSensitive) <==> WellNamed(t.items[i], caseSensitive)
    {
      SameAsItself(t.items[i], caseSensitive);
    }
    if t.kind == ObjectKind {
      SameMembers(t, t, caseSensitive);
    }
  }

  /** No object has two members of one name, or one without. */
  ghost predicate DistinctNames(t: Tree, caseSensitive: bool)
    decreases t
  {
    && t.kind != Invalid && (t.kind in {StringKind, RawKind} ==> t.text.Some?)
    && (t.kind == ObjectKind ==> forall i :: 0 <= i < |t.items| ==> t.items[i].name.Some?)
    && (t.kind == ObjectKind ==> forall i, j :: 0 <= i < j < |t.items| ==>
       !Asks(t.items[j].name.value, t.items[i].name, caseSensitive))
    && forall i :: 0 <= i < |t.items| ==> DistinctNames(t.items[i], caseSensitive)
  }

  lemma {:induction false} PlaceOfDistinct(s: seq<Tree>, i: nat, caseSensitive: bool)
    requires i < |s| && forall j :: 0 <= j < |s| ==> s[j].name.Some?
    requires forall j :: 0 <= j < i ==> !Asks(s[i].name.value, s[j].name, caseSensitive)
    ensures Place(s, s[i].name, caseSensitive) == i
    decreases i
  {
    if i > 0 {
      PlaceOfDistinct(s[1..], i - 1, caseSensitive);
    }
  }

  lemma {:induction false} DistinctWellNamed(t: Tree, caseSensitive: bool)
    requires DistinctNames(t, caseSensitive)
    ensures WellNamed(t, caseSensitive)
    decreases t
  {
    forall i | 0 <= i < |t.items|
      ensures WellNamed(t.items[i], caseSensitive)
      ensures t.kind == ObjectKind ==> Place(t.items, t.items[i].name, caseSensitive) == i
    {
      DistinctWellNamed(t.items[i], caseSensitive);
      if t.kind == ObjectKind {
        PlaceOfDistinct(t.items, i, caseSensitive);
      }
    }
  }

  /** `{"a": 1, "a": 2}` is not equal to a copy of itself. */
  lemma RepeatedName()
    ensures var one, two := Tree(NumberKind, 1.0, None, Some([97]), []), Tree(NumberKind, 2.0, None, Some([97]), []);
            !Same(Tree(ObjectKind, 0.0, None, None, [one, two]), Tree(ObjectKind, 0.0, None, None, [one, two]), true)
  {
    var one, two := Tree(NumberKind, 1.0, None, Some([97]), []), Tree(NumberKind, 2.0, None, Some([97]), []);
    var t := Tree(ObjectKind, 0.0, None, None, [one, two]);
    assert Place(t.items, two.name, true) == 0 && t.items[1] == two;
    assert !Near(2.0, 1.0);
    assert !Same(two, one, true);
  }

  /** Whole numbers of less than 52 bits are near each other only when equal. */
  lemma NearIntegers(m: int, n: int)
    requires -4503599627370496 < m < 4503599627370496 && -4503599627370496 < n < 4503599627370496
    ensures Near(m as real, n as real) <==> m == n
  {
    var a, b := m as real, n as real;
    var big := if Abs(a) > Abs(b) then Abs(a) else Abs(b);
    assert big * EPSILON == big / 4503599627370496.0 < 1.0;
    if m != n {
      assert Abs(a - b) >= 1.0;
    }
  }

  /** Copies a tree and compares it with the copy. */
  method CopyAndCompare(item: Node, caseSensitive: bool, ghost t: Tree, ghost r: set<Node>)
    returns (copy: Node?, same: bool)
    requires Holds(item, t, r)
    ensures copy != null <==> Height(t) <= CIRCULAR_LIMIT
    ensures copy != null ==> fresh(copy) && (same <==> WellNamed(t, caseSensitive))
    ensures copy == null ==> !same
  {
    hide Holds, Height, Same, WellNamed;
    ghost var below;
    copy, below := Duplicate(item, 0, true, t, r);
    same := Compare(item, copy, caseSensitive, t, r, t, below);
    SameAsItself(t, caseSensitive);
  }
}
