/**
 The doubly linked lists behind JSON arrays and objects (external/cJSON.c): the first child's `prev`
 is the last child, and the last child's `next` is null.  Every operation is proved against the
 sequence of the children.
 */
module JsonList {
  import opened Bits
  import opened Wrappers
  import opened ZipNames

  datatype Kind = Invalid | FalseKind | TrueKind | NullKind | NumberKind | StringKind | ArrayKind | ObjectKind | RawKind

  predicate SameName(a: Bytes, b: Bytes, caseSensitive: bool) {
    if caseSensitive then a == b else Lower(a) == Lower(b)
  }

  /** Whether `name` asks for an item that is called `own`. */
  predicate Asks(name: Bytes, own: Option<Bytes>, caseSensitive: bool) {
    own.Some? && SameName(name, own.value, caseSensitive)
  }

  class Node {
    var next: Node?
    var prev: Node?
    var child: Node?
    var kind: Kind
    var number: real
    var text: Option<Bytes>
    var name: Option<Bytes>
    ghost var items: seq<Node>

    /** `cJSON_New_Item` */
    constructor ()
      ensures next == null && prev == null && child == null && items == []
      ensures kind == Invalid && number == 0.0 && text == None && name == None
    {
      next, prev, child, kind, number, text, name, items := null, null, null, Invalid, 0.0, None, None, [];
    }

    ghost predicate List()
      reads this`child, this`items, items`next, items`prev
    {
      child == First(items) && Distinct(items) && Linked(items)
    }

    /** `cJSON_GetArraySize` */
    method GetArraySize() returns (size: nat)
      requires List()
      ensures size == |items|
    {
      var c := child;
      size := 0;
      while c != null
        invariant size <= |items| && c == NodeAt(items, size)
        decreases |items| - size
      {
        size := size + 1;
        c := c.next;
      }
    }

    /** `get_array_item` */
    method ItemAt(index: nat) returns (item: Node?)
      requires List()
      ensures item == NodeAt(items, index)
    {
      item := child;
      var left: nat := index;
      while item != null && left > 0
        invariant left <= index && item == NodeAt(items, index - left)
        decreases left
      {
        left := left - 1;
        item := item.next;
      }
    }

    /** `cJSON_GetArrayItem` */
    method GetArrayItem(index: int) returns (item: Node?)
      requires List()
      ensures item == NodeAtInt(items, index)
    {
      if index < 0 {
        return null;
      }
      item := ItemAt(index);
    }

    /** `get_object_item` */
    method GetObjectItem(name: Option<Bytes>, caseSensitive: bool) returns (item: Node?)
      requires List()
      ensures item == if name == None then null else Called(items, name.value, caseSensitive)
    {
      if name == None {
        return null;
      }
      ghost var k := 0;
      item := child;
      assert items[0..] == items;
      if caseSensitive {
        while item != null && item.name.Some? && item.name.value != name.value
          invariant k <= |items| && item == NodeAt(items, k)
          invariant Called(items, name.value, true) == Called(items[k..], name.value, true)
          decreases |items| - k
        {
          assert items[k..][1..] == items[k + 1..];
          item, k := item.next, k + 1;
        }
      } else {
        while item != null && !Asks(name.value, item.name, false)
          invariant k <= |items| && item == NodeAt(items, k)
          invariant Called(items, name.value, false) == Called(items[k..], name.value, false)
          decreases |items| - k
        {
          assert items[k..][1..] == items[k + 1..];
          item, k := item.next, k + 1;
        }
      }
      if item == null || item.name == None {
        item := null;
      }
    }

    /** `add_item_to_array`; an item that was in a list has been detached from it. */
    method AddItemToArray(item: Node?) returns (ok: bool)
      requires List() && (item != null ==> item !in items && (items != [] ==> item.next == null))
      modifies this`child, this`items, items`prev, items`next, Only(item)`prev, Only(item)`next
      ensures ok <==> item != null && item != this
      ensures List() && items == if ok then old(items) + [item] else old(items)
    {
      hide Linked, Distinct;
      ghost var s := items;
      if s != [] {
        LinksAt(s, 0);
        LinksAt(s, |s| - 1);
      }
      if item == null || item == this {
        return false;
      }
      var first := child;
      if first == null {
        child := item;
        item.prev := item;
        item.next := null;
      } else {
        if first.prev != null {
          first.prev.next := item;
          item.prev := first.prev;
          child.prev := item;
        }
      }
      Appended(s, item);
      items := items + [item];
      ok := true;
    }

    /** `cJSON_DetachItemViaPointer`: of a child of this node, or of an item that is in no list. */
    method DetachItemViaPointer(item: Node?) returns (detached: Node?)
      requires List() && (item != null ==> item in items || item.prev == null)
      modifies this`child, this`items, items`prev, items`next
      ensures List()
      ensures detached == if item in old(items) then item else null
      ensures detached == null ==> items == old(items)
      ensures forall k :: 0 <= k < |old(items)| && old(items)[k] == item ==> items == Without(old(items), k)
      ensures detached != null ==> detached.next == null && detached.prev == null
    {
      hide Without, Linked, Distinct, Bridged;
      ghost var s, k, f := items, 0, child;
      if item in items {
        k := IndexOf(items, item);
        LinksAt(s, k);
      }
      if item == null || (item != child && item.prev == null) {
        return null;
      }
      ghost var p, x := item.prev, item.next;
      if item != child {
        item.prev.next := item.next;
      }
      if item.next != null {
        item.next.prev := item.prev;
      }
      if item == child {
        child := item.next;
      } else if item.next == null {
        child.prev := item.prev;
      }
      item.prev := null;
      item.next := null;
      Bridges(s, k, p, x, f);
      BridgedLinked(s, k);
      items := Without(items, k);
      detached := item;
    }

    /** `cJSON_DetachItemFromArray` */
    method DetachItemFromArray(which: int) returns (detached: Node?)
      requires List()
      modifies this`child, this`items, items`prev, items`next
      ensures List()
      ensures detached == NodeAtInt(old(items), which)
      ensures items == if 0 <= which < |old(items)| then Without(old(items), which) else old(items)
      ensures detached != null ==> detached.next == null && detached.prev == null
    {
      if which < 0 {
        return null;
      }
      var item := ItemAt(which);
      detached := DetachItemViaPointer(item);
    }

    /** `cJSON_InsertItemInArray` */
    method InsertItemInArray(which: int, newItem: Node?) returns (ok: bool)
      requires List() && (newItem != null ==> newItem !in items)
      requires newItem != null && which >= |items| > 0 ==> newItem.next == null
      modifies this`child, this`items, items`prev, items`next, Only(newItem)`prev, Only(newItem)`next
      ensures ok <==> which >= 0 && newItem != null && (which < |old(items)| || newItem != this)
      ensures List()
      ensures items == if !ok then old(items) else if which < |old(items)| then With(old(items), which, newItem) else
              old(items) + [newItem]
    {
      hide With, Linked, Distinct;
      if which < 0 || newItem == null {
        return false;
      }
      ghost var s := items;
      var after := ItemAt(which);
      if after == null {
        ok := AddItemToArray(newItem);
        return;
      }
      LinksAt(s, which);
      assert (after == child <==> which == 0) && (which > 0 ==> PrevAt(s, which) == s[which - 1]);
      if after != child && after.prev == null {
        return false;
      }
      InsertBefore(after, newItem, which);
      ok := true;
    }

    /** Hangs an item before the one that stands at `which`. */
    method InsertBefore(after: Node, newItem: Node, ghost which: nat)
      requires List() && newItem !in items && which < |items| && after == items[which]
      modifies this`child, this`items, items`prev, items`next, newItem`prev, newItem`next
      ensures List() && items == With(old(items), which, newItem)
    {
      hide With, Linked, Distinct;
      ghost var s := items;
      LinksAt(s, which);
      ghost var p := PrevAt(s, which);
      assert (after == child <==> which == 0) && (which > 0 ==> p == s[which - 1]);
      newItem.next := after;
      newItem.prev := after.prev;
      after.prev := newItem;
      if after == child {
        child := newItem;
      } else {
        newItem.prev.next := newItem;
      }
      assert newItem.next == s[which] && newItem.prev == p && s[which].prev == newItem;
      Inserted(s, which, newItem);
      items := With(items, which, newItem);
    }

    /** `cJSON_ReplaceItemViaPointer` */
    method ReplaceItemViaPointer(item: Node?, replacement: Node?) returns (ok: bool)
      requires List() && (item != null ==> item in items)
      requires replacement != null && replacement != item ==> replacement !in items
      modifies this`child, this`items, items`prev, items`next, Only(replacement)`prev, Only(replacement)`next
      ensures ok <==> item != null && replacement != null
      ensures List() && (!ok ==> items == old(items))
      ensures forall k :: 0 <= k < |old(items)| && old(items)[k] == item && ok ==> items == old(items)[k := replacement]
      ensures ok && item != replacement ==> item.next == null && item.prev == null
    {
      hide Linked, Distinct;
      if child == null || replacement == null || item == null {
        return false;
      }
      if replacement == item {
        return true;
      }
      ghost var s, k := items, IndexOf(items, item);
      LinksAt(s, k);
      LinksAt(s, 0);
      replacement.next := item.next;
      replacement.prev := item.prev;
      if replacement.next != null {
        replacement.next.prev := replacement;
      }
      if child == item {
        if child.prev == child {
          replacement.prev := replacement;
        }
        child := replacement;
      } else {
        if replacement.prev != null {
          replacement.prev.next := replacement;
        }
        if replacement.next == null {
          child.prev := replacement;
        }
      }
      item.next := null;
      item.prev := null;
      Replaced(s, k, replacement);
      items := items[k := replacement];
      ok := true;
    }

    /** `cJSON_ReplaceItemInArray` */
    method ReplaceItemInArray(which: int, newItem: Node?) returns (ok: bool)
      requires List()
      requires newItem != null && NodeAtInt(items, which) != newItem ==> newItem !in items
      modifies this`child, this`items, items`prev, items`next, Only(newItem)`prev, Only(newItem)`next
      ensures ok <==> 0 <= which < |old(items)| && newItem != null
      ensures List() && items == if ok then old(items)[which := newItem] else old(items)
    {
      if which < 0 {
        return false;
      }
      var item := ItemAt(which);
      ok := ReplaceItemViaPointer(item, newItem);
    }

    /** `add_item_to_object`: what is added can be found, unless an earlier item is in the way. */
    method AddItemToObject(name: Option<Bytes>, item: Node?) returns (ok: bool)
      requires List() && (item != null ==> item !in items && (items != [] ==> item.next == null))
      modifies this`child, this`items, items`prev, items`next, Only(item)`prev, Only(item)`next, Only(item)`name
      ensures ok <==> name.Some? && item != null && item != this
      ensures List() && items == if ok then old(items) + [item] else old(items)
      ensures ok ==> item.name == name
      ensures forall cs: bool :: ok && (old(Called(items, name.value, cs)) != null || (cs && old(Nameless(items)))) ==>
                Called(items, name.value, cs) == old(Called(items, name.value, cs))
      ensures forall cs: bool :: ok && old(Called(items, name.value, cs)) == null && !(cs && old(Nameless(items))) ==>
                Called(items, name.value, cs) == item
    {
      if name == None || item == null || item == this {
        return false;
      }
      ghost var s := items;
      item.name := name;
      ok := AddItemToArray(item);
      forall cs: bool
        ensures Called(items, name.value, cs) ==
                if old(Called(s, name.value, cs)) != null ||
                    (cs && old(Nameless(s))) then old(Called(s, name.value, cs)) else item
      {
        assert Called(s, name.value, cs) == old(Called(s, name.value, cs)) && Nameless(s) == old(Nameless(s));
        CalledMore(s, item, name.value, cs);
      }
    }

    /** `cJSON_DetachItemFromObject` and its case-sensitive form */
    method DetachItemFromObject(name: Option<Bytes>, caseSensitive: bool) returns (detached: Node?)
      requires List()
      modifies this`child, this`items, items`prev, items`next
      ensures detached == if name == None then null else old(Called(items, name.value, caseSensitive))
      ensures List() && (detached == null ==> items == old(items))
      ensures forall k :: 0 <= k < |old(items)| && old(items)[k] == detached ==> items == Without(old(items), k)
      ensures detached != null ==> detached.next == null && detached.prev == null
    {
      var item := GetObjectItem(name, caseSensitive);
      if item != null {
        CalledInside(items, name.value, caseSensitive);
      }
      detached := DetachItemViaPointer(item);
    }

    /** `replace_item_in_object`: the replacement takes the name asked for, even if nothing answers to it. */
    method ReplaceItemInObject(name: Option<Bytes>, replacement: Node?, caseSensitive: bool) returns (ok: bool)
      requires List() && (replacement != null ==> replacement !in items)
      modifies this`child, this`items, items`prev, items`next, Only(replacement)`prev, Only(replacement)`next,
          Only(replacement)`name
      ensures ok <==> replacement != null && name.Some? && old(Called(items, name.value, caseSensitive)) != null
      ensures List() && (!ok ==> items == old(items))
      ensures replacement != null && name.Some? ==> replacement.name == name
      ensures ok ==> forall k :: 0 <= k < |old(items)| && old(items)[k] == old(Called(items, name.value, caseSensitive))
                       ==> items == old(items)[k := replacement]
    {
      if replacement == null || name == None {
        return false;
      }
      ghost var s := items;
      replacement.name := name;
      assert Called(s, name.value, caseSensitive) == old(Called(s, name.value, caseSensitive));
      var item := GetObjectItem(name, caseSensitive);
      if item != null {
        CalledInside(items, name.value, caseSensitive);
      }
      ok := ReplaceItemViaPointer(item, replacement);
    }
  }

  function NodeAt(s: seq<Node>, k: nat): Node? {
    if k < |s| then s[k] else null
  }

  function Without(s: seq<Node>, k: nat): seq<Node>
    requires k < |s|
  {
    s[..k] + s[k + 1..]
  }

  function With(s: seq<Node>, k: nat, item: Node): seq<Node>
    requires k <= |s|
  {
    s[..k] + [item] + s[k..]
  }

  ghost function IndexOf(s: seq<Node>, item: Node): (k: nat)
    requires item in s
    ensures k < |s| && s[k] == item
  {
    var k: nat :| k < |s| && s[k] == item;
    k
  }

  function Only(item: Node?): set<Node> {
    if item == null then {} else {item}
  }

  function First(s: seq<Node>): Node? {
    NodeAt(s, 0)
  }

  predicate Distinct(s: seq<Node>) {
    forall i, j :: 0 <= i < j < |s| ==> s[i] != s[j]
  }

  function NodeAtInt(s: seq<Node>, k: int): Node? {
    if k < 0 then null else NodeAt(s, k)
  }

  function PrevAt(s: seq<Node>, i: nat): Node
    requires i < |s|
  {
    if i == 0 then s[|s| - 1] else s[i - 1]
  }

  ghost predicate Linked(s: seq<Node>)
    reads s`next, s`prev
  {
    && (forall i {:trigger s[i].next} :: 0 <= i < |s| ==> s[i].next == NodeAt(s, i + 1))
    && (forall i {:trigger s[i].prev} :: 0 <= i < |s| ==> s[i].prev == PrevAt(s, i))
  }

  function BridgeNext(s: seq<Node>, k: nat, i: nat): Node? {
    if i + 1 == k then NodeAt(s, k + 1) else NodeAt(s, i + 1)
  }

  function BridgePrev(s: seq<Node>, k: nat, i: nat): Node
    requires k < |s| && i < |s|
  {
    if i == k + 1 || (i == 0 && k == |s| - 1) then PrevAt(s, k) else PrevAt(s, i)
  }

  lemma Appended(s: seq<Node>, item: Node)
    requires Distinct(s) && item !in s && item.next == null && item.prev == if s == [] then item else s[|s| - 1]
    requires s != [] ==> s[|s| - 1].next == item && s[0].prev == item
    requires forall j :: 0 <= j < |s| - 1 ==> s[j].next == NodeAt(s, j + 1)
    requires forall j :: 1 <= j < |s| ==> s[j].prev == PrevAt(s, j)
    ensures Distinct(s + [item]) && Linked(s + [item]) && First(s + [item]) == if s == [] then item else s[0]
  {
  }

  lemma Inserted(s: seq<Node>, k: nat, item: Node)
    requires k < |s| && Distinct(s) && item !in s && item.next == s[k] && item.prev == PrevAt(s, k) && s[k].prev == item
    requires k > 0 ==> s[k - 1].next == item
    requires forall j :: 0 <= j < |s| && (k == 0 || s[j] != s[k - 1]) ==> s[j].next == NodeAt(s, j + 1)
    requires forall j :: 0 <= j < |s| && j != k ==> s[j].prev == PrevAt(s, j)
    ensures Distinct(With(s, k, item)) && Linked(With(s, k, item)) &&
            First(With(s, k, item)) == if k == 0 then item else s[0]
  {
    hide With;
    var t := With(s, k, item);
    WithAt(s, k, item);
    forall i | 0 <= i < |t|
      ensures t[i].next == NodeAt(t, i + 1) && t[i].prev == PrevAt(t, i)
    {
      if i < k {
        assert t[i] == s[i];
      } else if i > k {
        assert t[i] == s[i - 1];
      }
    }
  }

  lemma WithAt(s: seq<Node>, k: nat, item: Node)
    requires k < |s|
    ensures var t := With(s, k, item);
            && |t| == |s| + 1 && t[k] == item && (forall i :: 0 <= i < k ==> t[i] == s[i]) &&
               (forall i :: k < i < |t| ==> t[i] == s[i - 1])
  {
  }

  lemma Replaced(s: seq<Node>, k: nat, item: Node)
    requires k < |s| && Distinct(s) && item !in s && item.next == NodeAt(s, k + 1) &&
             item.prev == if |s| == 1 then item else PrevAt(s, k)
    requires (k > 0 ==> s[k - 1].next == item) && (k + 1 < |s| ==> s[k + 1].prev == item)
    requires (k + 1 == |s| > 1 ==> s[0].prev == item)
    requires forall j :: 0 <= j < |s| && j != k && (k == 0 || s[j] != s[k - 1]) ==> s[j].next == NodeAt(s, j + 1)
    requires forall j ::
               0 <= j < |s| && j != k && (k + 1 == |s| || s[j] != s[k + 1]) && (k + 1 < |s| || s[j] != s[0]) ==>
               s[j].prev == PrevAt(s, j)
    ensures Distinct(s[k := item]) && Linked(s[k := item]) && First(s[k := item]) == if k == 0 then item else s[0]
  {
    var t := s[k := item];
    forall i | 0 <= i < |t|
      ensures t[i].next == NodeAt(t, i + 1) && t[i].prev == PrevAt(t, i)
    {
      assert t[i] == if i == k then item else s[i];
    }
  }

  /** The links once item `k` has been bridged. */
  ghost predicate Bridged(s: seq<Node>, k: nat)
    requires k < |s|
    reads s`next, s`prev
  {
    && (forall i {:trigger s[i].next} :: 0 <= i < |s| && i != k ==> s[i].next == BridgeNext(s, k, i))
    && (forall i {:trigger s[i].prev} :: 0 <= i < |s| && i != k ==> s[i].prev == BridgePrev(s, k, i))
  }

  lemma LinksAt(s: seq<Node>, i: nat)
    requires i < |s| && Linked(s) && Distinct(s)
    ensures s[i].next == NodeAt(s, i + 1) && s[i].prev == PrevAt(s, i)
    ensures forall j :: 0 <= j < |s| && j != i ==> s[j] != s[i]
    ensures forall j {:trigger s[j].next} :: 0 <= j < |s| ==> s[j].next == NodeAt(s, j + 1)
    ensures forall j {:trigger s[j].prev} :: 0 <= j < |s| ==> s[j].prev == PrevAt(s, j)
  {
  }

  lemma Bridges(s: seq<Node>, k: nat, p: Node, x: Node?, f: Node)
    requires k < |s| && Distinct(s) && p == PrevAt(s, k) && x == NodeAt(s, k + 1) && f == s[0]
    requires (s[k] != f ==> p.next == x) && (x != null ==> x.prev == p) && (x == null && s[k] != f ==> f.prev == p)
    requires forall i :: 0 <= i < |s| && i != k && (s[k] == f || s[i] != p) ==> s[i].next == NodeAt(s, i + 1)
    requires forall i :: 0 <= i < |s| && i != k && s[i] != x && !(s[k] != f && x == null && s[i] == f) ==>
             s[i].prev == PrevAt(s, i)
    ensures Bridged(s, k)
  {
  }

  lemma BridgedLinked(s: seq<Node>, k: nat)
    requires k < |s| && Distinct(s) && Bridged(s, k)
    ensures Distinct(Without(s, k)) && Linked(Without(s, k)) &&
            First(Without(s, k)) == if k == 0 then NodeAt(s, 1) else s[0]
  {
    var t := Without(s, k);
    forall i | 0 <= i < |t|
      ensures t[i].next == NodeAt(t, i + 1) && t[i].prev == PrevAt(t, i)
    {
      var j := if i < k then i else i + 1;
      assert t[i] == s[j];
    }
  }

  /** The first item that answers to a name; a case-sensitive search gives up at an item without one. */
  ghost function Called(s: seq<Node>, name: Bytes, caseSensitive: bool): Node?
    reads s`name
  {
    if s == [] then null
    else if Asks(name, s[0].name, caseSensitive) then s[0]
    else if caseSensitive && s[0].name == None then null
    else Called(s[1..], name, caseSensitive)
  }

  /** An item without a name. */
  ghost predicate Nameless(s: seq<Node>)
    reads s`name
  {
    exists i :: 0 <= i < |s| && s[i].name == None
  }

  lemma {:induction false} CalledInside(s: seq<Node>, name: Bytes, caseSensitive: bool)
    ensures Called(s, name, caseSensitive) != null ==> Called(s, name, caseSensitive) in s
  {
    if s != [] {
      CalledInside(s[1..], name, caseSensitive);
    }
  }

  lemma {:induction false} CalledMore(s: seq<Node>, item: Node, name: Bytes, caseSensitive: bool)
    requires item.name == Some(name)
    ensures Called(s + [item], name, caseSensitive) ==
            if Called(s, name, caseSensitive) != null ||
                (caseSensitive && Nameless(s)) then Called(s, name, caseSensitive) else item
  {
    if s == [] {
      assert s + [item] == [item];
    } else {
      assert (s + [item])[1..] == s[1..] + [item];
      CalledMore(s[1..], item, name, caseSensitive);
      assert Nameless(s) <==> s[0].name == None || Nameless(s[1..]);
    }
  }

  /** Detaching undoes inserting, and inserting undoes detaching. */
  lemma DetachUndoesInsert(s: seq<Node>, k: nat, item: Node)
    requires k <= |s|
    ensures Without(With(s, k, item), k) == s
    ensures k < |s| ==> With(Without(s, k), k, s[k]) == s
    ensures k < |s| ==> Without(With(s, k, item), k + 1) == s[k := item]
  {
    if k < |s| {
      assert With(Without(s, k), k, s[k]) == s;
    }
  }
}
