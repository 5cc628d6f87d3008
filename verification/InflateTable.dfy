/**
 The decompressor's tables for one code: the lookup of ten bits and the tree for longer codes, as
 `tinfl_decompress` builds and reads them (external/miniz.c).

 A lookup entry is `code_size << 9 | symbol`, or a negative pointer into the tree, or 0.  A node of
 the tree is two slots, one for each next bit, holding a symbol, a pointer, or 0.  Symbol 0 in the
 tree looks like an empty slot; it never matters, because nothing goes on from a code.
 */
module InflateTable {
  import opened Bits
  import opened Canonical
  import opened HuffmanTable
  import opened TableFill
  import opened TrieCode
  import opened Wrappers
  import TrieSize

  const FAST_SIZE := 1024     // TINFL_FAST_LOOKUP_SIZE

  type Ids = map<Bitstring, nat>

  /** The pointer to node `k`. */
  function Ptr(k: nat): int {
    -(2 * k) - 1
  }

  ghost predicate Leaf(lens: Lens, n: nat, s: nat, q: Bitstring) {
    s < n && IsCode(lens, s, q)
  }

  ghost predicate ShortLeaf(lens: Lens, n: nat, s: nat, p: Bitstring) {
    s < n && Short(lens, s, p)
  }

  /** What the slot of `q` holds once the first `n` symbols are in and the nodes are `ids`. */
  ghost predicate Slot(lens: Lens, n: nat, ids: Ids, q: Bitstring, v: int) {
    if q in ids then v == Ptr(ids[q])
    else if s: nat :| Leaf(lens, n, s, q) then v == s
    else v == 0
  }

  ghost predicate Entry(lens: Lens, n: nat, ids: Ids, p: Bitstring, v: int) {
    if p in ids then v == Ptr(ids[p])
    else if s: nat :| ShortLeaf(lens, n, s, p) then s < |lens| && v == 512 * lens[s] + s
    else v == 0
  }

  function Parent(q: Bitstring): Bitstring {
    if q == [] then [] else q[..|q| - 1]
  }

  function Last(q: Bitstring): nat {
    if q == [] then 0 else B(q[|q| - 1])
  }

  /** The nodes: inner places of ten bits and more, each below its parent. */
  ghost predicate Nodes(lens: Lens, ids: Ids) {
    Places(lens, ids) && Rooted(ids) && Injective(ids)
  }

  ghost predicate Places(lens: Lens, ids: Ids) {
    forall q :: q in ids ==> FAST_BITS <= |q| && Inner(lens, q) && ids[q] < |ids|
  }

  ghost predicate Rooted(ids: Ids) {
    forall q {:trigger Parent(q)} :: q in ids && |q| > FAST_BITS ==> Parent(q) in ids
  }

  ghost predicate Injective(ids: Ids) {
    forall q, r :: q in ids && r in ids && ids[q] == ids[r] ==> q == r
  }

  /** The long codes that are in have all their inner places. */
  ghost predicate Grown(lens: Lens, n: nat, ids: Ids) {
    forall s: nat, d: nat :: s < n && Used(lens, s) && FAST_BITS <= d < lens[s] ==> CodeBits(lens, s)[..d] in ids
  }

  function B(b: bool): nat {
    if b then 1 else 0
  }

  ghost predicate Entries(lookUp: seq<int>, lens: Lens, n: nat, ids: Ids) {
    |lookUp| == FAST_SIZE && forall i :: 0 <= i < FAST_SIZE ==> Entry(lens, n, ids, ToBits(i, FAST_BITS), lookUp[i])
  }

  ghost predicate SlotAt(tree: seq<int>, lens: Lens, n: nat, ids: Ids, q: Bitstring, b: bool)
    requires q in ids
  {
    2 * ids[q] + B(b) < |tree| && Slot(lens, n, ids, q + [b], tree[2 * ids[q] + B(b)])
  }

  ghost predicate Slots(tree: seq<int>, lens: Lens, n: nat, ids: Ids) {
    forall q, b :: q in ids ==> SlotAt(tree, lens, n, ids, q, b)
  }

  ghost predicate Blank(tree: seq<int>, k: nat) {
    2 * k <= |tree| && forall i :: 2 * k <= i < |tree| ==> tree[i] == 0
  }

  ghost predicate Built(lookUp: seq<int>, tree: seq<int>, lens: Lens, n: nat, ids: Ids) {
    && Nodes(lens, ids) && Grown(lens, n, ids)
    && Entries(lookUp, lens, n, ids) && Slots(tree, lens, n, ids) && Blank(tree, |ids|)
  }

  // ---------- reading slots ----------

  lemma SlotLeaf(lens: Lens, n: nat, ids: Ids, s: nat, q: Bitstring, v: int)
    requires Fits(lens, 15) && Slot(lens, n, ids, q, v) && q !in ids && Leaf(lens, n, s, q)
    ensures v == s
  {
    forall t: nat | Leaf(lens, n, t, q)
      ensures t == s
    {
      CodeUnique(lens, s, t, q);
    }
  }

  lemma SlotIs(lens: Lens, n: nat, ids: Ids, s: nat, q: Bitstring)
    requires Fits(lens, 15) && q !in ids && Leaf(lens, n, s, q)
    ensures Slot(lens, n, ids, q, s)
  {
    forall t: nat | Leaf(lens, n, t, q)
      ensures t == s
    {
      CodeUnique(lens, s, t, q);
    }
  }

  lemma EntryLeaf(lens: Lens, n: nat, ids: Ids, s: nat, p: Bitstring, v: int)
    requires Fits(lens, 15) && p !in ids && ShortLeaf(lens, n, s, p)
    ensures Entry(lens, n, ids, p, v) <==> v == 512 * lens[s] + s
  {
    forall t: nat | ShortLeaf(lens, n, t, p)
      ensures t == s
    {
      CodeUnique(lens, s, t, p);
    }
  }

  /** Slots whose path neither becomes a node nor the code of the next symbol keep their value. */
  lemma SlotKept(lens: Lens, n: nat, n': nat, ids: Ids, ids': Ids, q: Bitstring, v: int)
    requires Fits(lens, 15) && Slot(lens, n, ids, q, v) && n <= n'
    requires forall s: nat :: Leaf(lens, n', s, q) ==> Leaf(lens, n, s, q)
    requires (q in ids <==> q in ids') && (q in ids ==> ids'[q] == ids[q])
    ensures Slot(lens, n', ids', q, v)
  {
    if q !in ids {
      if s: nat :| Leaf(lens, n, s, q) {
        SlotLeaf(lens, n, ids, s, q, v);
        SlotIs(lens, n', ids', s, q);
      }
    }
  }

  lemma EntryKept(lens: Lens, n: nat, n': nat, ids: Ids, ids': Ids, p: Bitstring, v: int)
    requires Fits(lens, 15) && Entry(lens, n, ids, p, v) && n <= n'
    requires forall s: nat :: ShortLeaf(lens, n', s, p) ==> ShortLeaf(lens, n, s, p)
    requires (p in ids <==> p in ids') && (p in ids ==> ids'[p] == ids[p])
    ensures Entry(lens, n', ids', p, v)
  {
    if p !in ids {
      if s: nat :| ShortLeaf(lens, n, s, p) {
        EntryLeaf(lens, n, ids, s, p, v);
        EntryLeaf(lens, n', ids', s, p, v);
      }
    }
  }

  // ---------- a symbol without a code ----------

  lemma Skipped(lookUp: seq<int>, tree: seq<int>, lens: Lens, n: nat, ids: Ids)
    requires Fits(lens, 15) && Built(lookUp, tree, lens, n, ids) && n < |lens| && lens[n] == 0
    ensures Built(lookUp, tree, lens, n + 1, ids)
  {
    hide IsCode, Short, Inner, Fits, Nodes, Slot, Entry, Blank, ToBits;
    UnusedLeaf(lens, n);
    forall i | 0 <= i < FAST_SIZE
      ensures Entry(lens, n + 1, ids, ToBits(i, FAST_BITS), lookUp[i])
    {
      EntryKept(lens, n, n + 1, ids, ids, ToBits(i, FAST_BITS), lookUp[i]);
    }
    var m := n + 1;
    forall q, b | q in ids
      ensures SlotAt(tree, lens, m, ids, q, b)
    {
      assert SlotAt(tree, lens, n, ids, q, b);
      SlotKept(lens, n, n + 1, ids, ids, q + [b], tree[2 * ids[q] + B(b)]);
    }
  }

  lemma UnusedLeaf(lens: Lens, n: nat)
    requires n < |lens| && lens[n] == 0
    ensures forall s: nat, q :: Leaf(lens, n + 1, s, q) ==> Leaf(lens, n, s, q)
    ensures forall s: nat, p :: ShortLeaf(lens, n + 1, s, p) ==> ShortLeaf(lens, n, s, p)
  {
  }

  // ---------- a short code ----------

  lemma ShortInserted(lookUp: seq<int>, lookUp': seq<int>, tree: seq<int>, lens: Lens, n: nat, ids: Ids)
    requires Fits(lens, 15) && Built(lookUp, tree, lens, n, ids) && Used(lens, n) && lens[n] <= FAST_BITS
    requires Overwritten(lookUp, lookUp', FromBits(CodeBits(lens, n)), lens[n], 512 * lens[n] + n)
    ensures Built(lookUp', tree, lens, n + 1, ids)
  {
    hide Fits, Inner, FromBits, Low, ToBits, CodeBits, Slot, Entry, Overwritten, Rooted, Injective, Blank;
    SpreadSize(lookUp, lookUp', FromBits(CodeBits(lens, n)), lens[n], 512 * lens[n] + n);
    forall i | 0 <= i < FAST_SIZE
      ensures Entry(lens, n + 1, ids, ToBits(i, FAST_BITS), lookUp'[i])
    {
      ShortEntry(lookUp, lookUp', lens, n, ids, i);
    }
    var m := n + 1;
    forall q, b | q in ids
      ensures SlotAt(tree, lens, m, ids, q, b)
    {
      assert SlotAt(tree, lens, n, ids, q, b);
      SlotKept(lens, n, n + 1, ids, ids, q + [b], tree[2 * ids[q] + B(b)]);
    }
  }

  lemma ShortEntry(lookUp: seq<int>, lookUp': seq<int>, lens: Lens, n: nat, ids: Ids, i: nat)
    requires Fits(lens, 15) && Nodes(lens, ids) && Used(lens, n) && lens[n] <= FAST_BITS && i < |lookUp|
    requires Entry(lens, n, ids, ToBits(i, FAST_BITS), lookUp[i])
    requires Overwritten(lookUp, lookUp', FromBits(CodeBits(lens, n)), lens[n], 512 * lens[n] + n)
    ensures Entry(lens, n + 1, ids, ToBits(i, FAST_BITS), lookUp'[i])
  {
    var p := ToBits(i, FAST_BITS);
    IndexStarts(lens, n, i, FAST_BITS);
    hide ToBits, FromBits, Low, CodeBits, Fits, Inner, Rooted, Injective;
    if Short(lens, n, p) {
      InnerFree(lens, n, p);
      EntryLeaf(lens, n + 1, ids, n, p, lookUp'[i]);
    } else {
      EntryKept(lens, n, n + 1, ids, ids, p, lookUp[i]);
    }
  }

  // ---------- a new node ----------

  /** The value of a path of at least ten bits is set. */
  ghost predicate Set(lookUp: seq<int>, lookUp': seq<int>, tree: seq<int>, tree': seq<int>, ids: Ids, p: Bitstring,
      v: int) {
    if |p| == FAST_BITS then
      tree' == tree && FromBits(p) < |lookUp| && lookUp' == lookUp[FromBits(p) := v]
    else
      && Parent(p) in ids && 2 * ids[Parent(p)] + Last(p) < |tree|
      && lookUp' == lookUp && tree' == tree[2 * ids[Parent(p)] + Last(p) := v]
  }

  lemma NewNode(lookUp: seq<int>, lookUp': seq<int>, tree: seq<int>, tree': seq<int>, lens: Lens, n: nat, ids: Ids,
      p: Bitstring)
    requires Fits(lens, 15) && Built(lookUp, tree, lens, n, ids) && Inner(lens, p) && FAST_BITS <= |p| && p !in ids
    requires Set(lookUp, lookUp', tree, tree', ids, p, Ptr(|ids|)) && 2 * |ids| + 2 <= |tree|
    ensures Built(lookUp', tree', lens, n, ids[p := |ids|])
  {
    var ids' := ids[p := |ids|];
    assert |ids'| == |ids| + 1;
    NewNodes(lens, ids, p);
    hide Fits, Inner, Slot, Entry, ToBits, FromBits, Nodes, Blank, Slots, Entries, Set;
    SetEntries(lookUp, lookUp', tree, tree', lens, n, n, ids, ids', p, Ptr(|ids|));
    NewNodeSlots(lookUp, lookUp', tree, tree', lens, n, ids, p);
    NewNodeBlank(lookUp, lookUp', tree, tree', lens, ids, p);
  }

  lemma NewNodes(lens: Lens, ids: Ids, p: Bitstring)
    requires Nodes(lens, ids) && Inner(lens, p) && FAST_BITS <= |p| && p !in ids
    requires (|p| > FAST_BITS ==> Parent(p) in ids)
    ensures Nodes(lens, ids[p := |ids|])
  {
    hide Inner, Parent;
    var ids' := ids[p := |ids|];
    assert |ids'| == |ids| + 1;
  }

  lemma NewNodeBlank(lookUp: seq<int>, lookUp': seq<int>, tree: seq<int>, tree': seq<int>, lens: Lens, ids: Ids,
      p: Bitstring)
    requires Blank(tree, |ids|) && Places(lens, ids) && 2 * |ids| + 2 <= |tree|
    requires Set(lookUp, lookUp', tree, tree', ids, p, Ptr(|ids|))
    ensures Blank(tree', |ids| + 1)
  {
    hide Inner, Parent, FromBits;
  }

  /** Setting the value of one path leaves the lookup right everywhere else. */
  lemma SetEntries(lookUp: seq<int>, lookUp': seq<int>, tree: seq<int>, tree': seq<int>, lens: Lens, n: nat, n': nat,
      ids: Ids, ids': Ids, p: Bitstring, v: int)
    requires Fits(lens, 15) && Entries(lookUp, lens, n, ids) && n <= n' && FAST_BITS <= |p|
    requires Set(lookUp, lookUp', tree, tree', ids, p, v)
    requires forall s: nat, q :: ShortLeaf(lens, n', s, q) ==> ShortLeaf(lens, n, s, q)
    requires forall q :: q != p ==> (q in ids <==> q in ids') && (q in ids ==> ids'[q] == ids[q])
    requires |p| == FAST_BITS ==> Entry(lens, n', ids', p, v)
    ensures Entries(lookUp', lens, n', ids')
  {
    forall i | 0 <= i < FAST_SIZE
      ensures Entry(lens, n', ids', ToBits(i, FAST_BITS), lookUp'[i])
    {
      SetEntry(lookUp, lookUp', tree, tree', lens, n, n', ids, ids', p, v, i);
    }
    hide Fits, ToBits, FromBits, Entry;
  }

  lemma SetEntry(lookUp: seq<int>, lookUp': seq<int>, tree: seq<int>, tree': seq<int>, lens: Lens, n: nat, n': nat,
      ids: Ids, ids': Ids, p: Bitstring, v: int, i: nat)
    requires Fits(lens, 15) && Entries(lookUp, lens, n, ids) && n <= n' && FAST_BITS <= |p| && i < FAST_SIZE
    requires Set(lookUp, lookUp', tree, tree', ids, p, v)
    requires forall s: nat, q :: ShortLeaf(lens, n', s, q) ==> ShortLeaf(lens, n, s, q)
    requires forall q :: q != p ==> (q in ids <==> q in ids') && (q in ids ==> ids'[q] == ids[q])
    requires |p| == FAST_BITS ==> Entry(lens, n', ids', p, v)
    ensures i < |lookUp'| && Entry(lens, n', ids', ToBits(i, FAST_BITS), lookUp'[i])
  {
    hide Fits, ToBits, FromBits, Entry, Pow2, ShortLeaf;
    Pow2Values();
    FromBitsToBits(i, FAST_BITS);
    ToBitsFromBits(p);
    var q := ToBits(i, FAST_BITS);
    assert Entry(lens, n, ids, q, lookUp[i]);
    if q != p {
      EntryKept(lens, n, n', ids, ids', q, lookUp[i]);
    }
  }

  lemma NewNodeSlots(lookUp: seq<int>, lookUp': seq<int>, tree: seq<int>, tree': seq<int>, lens: Lens, n: nat,
      ids: Ids, p: Bitstring)
    requires Fits(lens, 15) && Nodes(lens, ids) && Grown(lens, n, ids) && Slots(tree, lens, n, ids)
    requires Blank(tree, |ids|)
    requires FAST_BITS <= |p| && p !in ids
    requires Set(lookUp, lookUp', tree, tree', ids, p, Ptr(|ids|)) && 2 * |ids| + 2 <= |tree|
    ensures Slots(tree', lens, n, ids[p := |ids|])
  {
    var ids' := ids[p := |ids|];
    forall q, b | q in ids'
      ensures SlotAt(tree', lens, n, ids', q, b)
    {
      if q == p {
        NewNodeBlankSlot(lookUp, lookUp', tree, tree', lens, n, ids, p, b);
      } else {
        SetSlot(lookUp, lookUp', tree, tree', lens, n, n, ids, ids', p, Ptr(|ids|), q, b);
      }
    }
  }

  /** The slots of a new node are blank, and should be. */
  lemma NewNodeBlankSlot(lookUp: seq<int>, lookUp': seq<int>, tree: seq<int>, tree': seq<int>, lens: Lens, n: nat,
      ids: Ids, p: Bitstring, b: bool)
    requires Nodes(lens, ids) && Grown(lens, n, ids) && Blank(tree, |ids|) && FAST_BITS <= |p| && p !in ids
    requires Set(lookUp, lookUp', tree, tree', ids, p, Ptr(|ids|)) && 2 * |ids| + 2 <= |tree|
    ensures SlotAt(tree', lens, n, ids[p := |ids|], p, b)
  {
    hide Inner, Parent, Last, FromBits, Leaf, Rooted, Injective, Grown, Blank, Set, Places;
    NoChildren(lens, n, ids, p, b);
    StillBlank(lookUp, lookUp', tree, tree', lens, ids, p, b);
    assert p + [b] != p;
  }

  lemma StillBlank(lookUp: seq<int>, lookUp': seq<int>, tree: seq<int>, tree': seq<int>, lens: Lens, ids: Ids,
      p: Bitstring, b: bool)
    requires Places(lens, ids) && Blank(tree, |ids|) && 2 * |ids| + 2 <= |tree|
    requires Set(lookUp, lookUp', tree, tree', ids, p, Ptr(|ids|))
    ensures 2 * |ids| + B(b) < |tree'| && tree'[2 * |ids| + B(b)] == 0
  {
    hide Inner, Parent, FromBits;
  }

  /** Setting the value of one path leaves the other slots right. */
  lemma SetSlot(lookUp: seq<int>, lookUp': seq<int>, tree: seq<int>, tree': seq<int>, lens: Lens, n: nat, n': nat,
      ids: Ids, ids': Ids, p: Bitstring, v: int, q: Bitstring, b: bool)
    requires Fits(lens, 15) && Nodes(lens, ids) && Slots(tree, lens, n, ids) && n <= n' && FAST_BITS <= |p|
    requires Set(lookUp, lookUp', tree, tree', ids, p, v) && q in ids && q in ids' && ids'[q] == ids[q]
    requires forall s: nat, r :: r != p && Leaf(lens, n', s, r) ==> Leaf(lens, n, s, r)
    requires forall r :: r != p ==> (r in ids <==> r in ids') && (r in ids ==> ids'[r] == ids[r])
    requires |p| > FAST_BITS ==> Slot(lens, n', ids', p, v)
    ensures SlotAt(tree', lens, n', ids', q, b)
  {
    hide Fits, Inner, FromBits, Leaf, Rooted, Slot;
    assert SlotAt(tree, lens, n, ids, q, b);
    ParentOfChild(q, b);
    if q + [b] != p {
      if |p| > FAST_BITS {
        OtherSlot(ids, p, q, b);
      }
      SlotKept(lens, n, n', ids, ids', q + [b], tree[2 * ids[q] + B(b)]);
    }
    hide Parent, Last;
  }

  lemma ParentOfChild(q: Bitstring, b: bool)
    ensures Parent(q + [b]) == q && Last(q + [b]) == B(b)
  {
  }

  lemma OtherSlot(ids: Ids, p: Bitstring, q: Bitstring, b: bool)
    requires Injective(ids) && q in ids && q + [b] != p && p != [] && Parent(p) in ids
    ensures 2 * ids[q] + B(b) != 2 * ids[Parent(p)] + Last(p)
  {
    assert p == Parent(p) + [p[|p| - 1]];
  }

  /** Nothing lies below a place that is not a node. */
  lemma NoChildren(lens: Lens, n: nat, ids: Ids, p: Bitstring, b: bool)
    requires Rooted(ids) && Grown(lens, n, ids) && FAST_BITS <= |p| && p !in ids
    ensures p + [b] !in ids && forall s: nat :: !Leaf(lens, n, s, p + [b])
  {
    hide Grown, Leaf, Parent, Last;
    ParentOfChild(p, b);
    forall s: nat
      ensures !Leaf(lens, n, s, p + [b])
    {
      if Leaf(lens, n, s, p + [b]) {
        LeafParent(lens, n, ids, s, p + [b]);
      }
    }
  }

  lemma LeafParent(lens: Lens, n: nat, ids: Ids, s: nat, q: Bitstring)
    requires Grown(lens, n, ids) && Leaf(lens, n, s, q) && |q| > FAST_BITS
    ensures Parent(q) in ids
  {
    assert CodeBits(lens, s)[..|q| - 1] in ids;
  }

  // ---------- a long code ----------

  /** All inner places of a code from ten bits on are nodes. */
  ghost predicate Reached(ids: Ids, w: Bitstring) {
    forall d {:trigger w[..d]} :: FAST_BITS <= d < |w| ==> w[..d] in ids
  }

  lemma LongInserted(lookUp: seq<int>, tree: seq<int>, tree': seq<int>, lens: Lens, n: nat, ids: Ids)
    requires Fits(lens, 15) && Built(lookUp, tree, lens, n, ids) && Used(lens, n) && lens[n] > FAST_BITS
    requires Reached(ids, CodeBits(lens, n)) && Set(lookUp, lookUp, tree, tree', ids, CodeBits(lens, n), n)
    ensures Built(lookUp, tree', lens, n + 1, ids)
  {
    hide Fits, Inner, Short, CodeBits, Slot, SlotAt, Entry, FromBits, ToBits, Rooted, Injective, Last, Leaf;
    hide ShortLeaf, Entries;
    var w := CodeBits(lens, n);
    LongLeaf(lens, n, ids);
    assert Parent(w) == w[..|w| - 1];
    SetEntries(lookUp, lookUp, tree, tree', lens, n, n + 1, ids, ids, w, n);
    var m := n + 1;
    forall q, b | q in ids
      ensures SlotAt(tree', lens, m, ids, q, b)
    {
      SetSlot(lookUp, lookUp, tree, tree', lens, n, m, ids, ids, w, n, q, b);
    }
    hide Slots, Entries;
    LastBound(w);
    assert Blank(tree', |ids|);
  }

  lemma LastBound(w: Bitstring)
    ensures Last(w) <= 1
  {
  }

  lemma LongLeaf(lens: Lens, n: nat, ids: Ids)
    requires Fits(lens, 15) && Places(lens, ids) && Used(lens, n) && lens[n] > FAST_BITS
    ensures CodeBits(lens, n) !in ids && Slot(lens, n + 1, ids, CodeBits(lens, n), n)
    ensures forall s: nat, q :: ShortLeaf(lens, n + 1, s, q) ==> ShortLeaf(lens, n, s, q)
    ensures forall s: nat, q :: q != CodeBits(lens, n) && Leaf(lens, n + 1, s, q) ==> Leaf(lens, n, s, q)
  {
    var w := CodeBits(lens, n);
    InnerFree(lens, n, w);
    SlotIs(lens, n + 1, ids, n, w);
    hide CodeBits, Fits, Inner, Slot;
  }

  /** At an inner place there is a pointer or nothing. */
  lemma InnerSlot(lens: Lens, n: nat, ids: Ids, q: Bitstring, v: int)
    requires Fits(lens, 15) && Inner(lens, q) && Slot(lens, n, ids, q, v)
    ensures v == if q in ids then Ptr(ids[q]) else 0
  {
    forall s: nat
      ensures !Leaf(lens, n, s, q)
    {
      if Leaf(lens, n, s, q) {
        InnerFree(lens, s, q);
      }
    }
  }

  lemma InnerEntry(lens: Lens, n: nat, ids: Ids, p: Bitstring, v: int)
    requires Fits(lens, 15) && Inner(lens, p) && Entry(lens, n, ids, p, v)
    ensures v == if p in ids then Ptr(ids[p]) else 0
  {
    forall s: nat
      ensures !ShortLeaf(lens, n, s, p)
    {
      if ShortLeaf(lens, n, s, p) {
        InnerFree(lens, s, p);
      }
    }
  }

  lemma RoomLeft(lens: Lens, ids: Ids, p: Bitstring, size: nat)
    requires Acceptable(lens) && Places(lens, ids) && Inner(lens, p) && FAST_BITS <= |p| && p !in ids
    requires size >= 2 * |lens| && size >= 10
    ensures 2 * |ids| + 2 <= size
  {
    hide Inner, Acceptable;
    TrieSize.InnerBound(lens, ids.Keys + {p});
    assert |ids.Keys + {p}| == |ids| + 1;
  }

  /** The bits of a code from `d` on, as the loop shifts them out. */
  lemma CodeBit(w: Bitstring, d: nat)
    requires 0 < d < |w|
    ensures Shr(FromBits(w[d - 1..]), 1) == FromBits(w[d..]) && FromBits(w[d..]) % 2 == B(w[d])
  {
    assert w[d - 1..][1..] == w[d..] && w[d..][0] == w[d];
    ShiftMask(w[d - 1..], 1);
  }

  lemma IndexOf(w: Bitstring)
    requires |w| >= FAST_BITS
    ensures Low(FromBits(w), FAST_BITS) == FromBits(w[..FAST_BITS]) < FAST_SIZE
    ensures Shr(FromBits(w), 9) == FromBits(w[9..])
  {
    Pow2Values();
    ShiftMask(w, FAST_BITS);
    ShiftMask(w, 9);
  }

  /** The nodes so far are kept. */
  ghost predicate Keeps(ids: Ids, ids': Ids) {
    forall q :: q in ids ==> q in ids' && ids'[q] == ids[q]
  }

  class Table {
    const lookUp: array<int>    // m_look_up[type]
    const tree: array<int>      // m_tree_0, m_tree_1 or m_tree_2

    ghost predicate Shape(symbols: nat) {
      lookUp.Length == FAST_SIZE && lookUp != tree && tree.Length == 2 * symbols && 5 <= symbols <= 288
    }

    ghost predicate Holds(lens: Lens, n: nat, ids: Ids)
      reads lookUp, tree
    {
      Built(lookUp[..], tree[..], lens, n, ids)
    }

    constructor (symbols: nat)
      requires 5 <= symbols <= 288
      ensures Shape(symbols) && fresh(lookUp) && fresh(tree)
    {
      lookUp := new int[FAST_SIZE](_ => 0);
      tree := new int[2 * symbols](_ => 0);
    }

    /** The node of the first ten bits of a long code. */
    method Enter(i: nat, treeNext: int, ghost lens: Lens, ghost n: nat, ghost ids: Ids,
        ghost p: Bitstring) returns (cur: int, next': int, ghost ids': Ids)
      requires Shape(tree.Length / 2) && Acceptable(lens) && 2 * |lens| <= tree.Length && Holds(lens, n, ids)
      requires treeNext == Ptr(|ids|)
      requires |p| == FAST_BITS && i == FromBits(p) < FAST_SIZE && Inner(lens, p)
      modifies lookUp
      ensures Holds(lens, n, ids') && Keeps(ids, ids') && next' == Ptr(|ids'|) && p in ids' && cur == Ptr(ids'[p])
    {
      hide Inner, Acceptable, FromBits, Built, Set;
      ghost var was := lookUp[..];
      EntryThere(was, tree[..], lens, n, ids, p);
      cur, next', ids' := lookUp[i], treeNext, ids;
      if cur == 0 {
        lookUp[i] := treeNext;
        NodeEntered(was, lookUp[..], tree[..], lens, n, ids, p);
        cur, next', ids' := treeNext, treeNext - 2, ids[p := |ids|];
      }
    }

    /** The node one bit further. */
    method Descend(cur: int, bit: nat, treeNext: int, ghost lens: Lens, ghost n: nat, ghost ids: Ids,
        ghost q: Bitstring, ghost b: bool) returns (cur': int, next': int, ghost ids': Ids)
      requires Shape(tree.Length / 2) && Acceptable(lens) && 2 * |lens| <= tree.Length && Holds(lens, n, ids)
      requires treeNext == Ptr(|ids|)
      requires q in ids && cur == Ptr(ids[q]) && bit == B(b) && Inner(lens, q + [b])
      modifies tree
      ensures Holds(lens, n, ids') && Keeps(ids, ids') && next' == Ptr(|ids'|) && q + [b] in ids'
      ensures cur' == Ptr(ids'[q + [b]])
    {
      hide Inner, Acceptable, Built, Set;
      ghost var was := tree[..];
      SlotThere(lookUp[..], was, lens, n, ids, q, b);
      var at := -(cur - bit) - 1;
      if tree[at] == 0 {
        tree[at] := treeNext;
        NodeBelow(lookUp[..], was, tree[..], lens, n, ids, q, b);
        cur', next', ids' := treeNext, treeNext - 2, ids[q + [b] := |ids|];
      } else {
        cur', next', ids' := tree[at], treeNext, ids;
      }
    }

    /** Enters a code longer than ten bits into the tree. */
    method InsertLong(s: nat, rev: nat, l: nat, treeNext: int, ghost lens: Lens, ghost ids: Ids)
      returns (next': int, ghost ids': Ids)
      requires Shape(tree.Length / 2) && Acceptable(lens) && 2 * |lens| <= tree.Length && Holds(lens, s, ids)
      requires treeNext == Ptr(|ids|)
      requires Used(lens, s) && lens[s] == l > FAST_BITS && rev == FromBits(CodeBits(lens, s))
      modifies lookUp, tree
      ensures Holds(lens, s + 1, ids') && next' == Ptr(|ids'|)
    {
      hide Inner, Acceptable, Built, Set, CodeBits, Low, Shr, FromBits, Reached;
      ghost var w := CodeBits(lens, s);
      IndexOf(w);
      CodeInner(lens, s, w, FAST_BITS);
      var cur;
      cur, next', ids' := Enter(Low(rev, FAST_BITS), treeNext, lens, s, ids, w[..FAST_BITS]);
      ReachedFirst(ids', w);
      var r, j := Shr(rev, 9), l;
      while j > 11
        invariant 11 <= j <= l && r == FromBits(w[l - j + 9..])
        invariant Holds(lens, s, ids') && next' == Ptr(|ids'|)
        invariant ReachedTo(ids', w, l - j + 10) && w[..l - j + 10] in ids' && cur == Ptr(ids'[w[..l - j + 10]])
      {
        ghost var d, was := l - j + 10, ids';
        CodeBit(w, d);
        r := Shr(r, 1);
        assert w[..d + 1] == w[..d] + [w[d]];
        CodeInner(lens, s, w, d + 1);
        cur, next', ids' := Descend(cur, r % 2, next', lens, s, ids', w[..d], w[d]);
        ReachedMore(was, ids', w, d);
        j := j - 1;
      }
      CodeBit(w, l - 1);
      r := Shr(r, 1);
      ghost var was := tree[..];
      LeafBelow(lookUp[..], was, lens, s, ids');
      tree[-(cur - r % 2) - 1] := s;
      LeafSet(lookUp[..], was, tree[..], lens, s, ids');
    }

    /** Sets every index that begins with a code of at most ten bits. */
    method InsertShort(s: nat, rev: nat, l: nat, ghost lens: Lens, ghost ids: Ids)
      requires Shape(tree.Length / 2) && Fits(lens, 15) && Holds(lens, s, ids)
      requires Used(lens, s) && lens[s] == l <= FAST_BITS && rev == FromBits(CodeBits(lens, s))
      modifies lookUp
      ensures Holds(lens, s + 1, ids)
    {
      hide Fits, Built, CodeBits, FromBits, Low, Pow2;
      ghost var was := lookUp[..];
      var k := 512 * l + s;
      var i: nat := rev;
      ghost var m: nat := 0;
      SpreadNone(was, rev, l, k);
      while i < FAST_SIZE
        invariant i == Pow2(l) * m + rev && SpreadTo(was, lookUp[..], rev, l, k, i)
        decreases FAST_SIZE - i
      {
        SpreadMore(was, lookUp[..], rev, l, k, m);
        lookUp[i] := k;
        StepUp(l, m);
        i := i + Pow2(l);
        m := m + 1;
      }
      SpreadAll(was, lookUp[..], rev, l, k, i);
      ShortInserted(was, lookUp[..], tree[..], lens, s, ids);
    }

    /** The tables are those of a code. */
    ghost predicate For(lens: Lens)
      reads lookUp, tree
    {
      Acceptable(lens) && exists ids: Ids :: Holds(lens, |lens|, ids)
    }

    /** Builds the tables of the code with the given lengths, if the code is acceptable. */
    method Build(sizes: array<nat>, n: nat) returns (ok: bool)
      requires Shape(tree.Length / 2) && n <= sizes.Length && 2 * n <= tree.Length && forall i :: 0 <= i < n ==>
               sizes[i] <= 15
      requires sizes as object != lookUp && sizes as object != tree
      modifies lookUp, tree
      ensures ok <==> Acceptable(sizes[..n])
      ensures ok ==> For(sizes[..n])
    {
      hide Acceptable, Fits, Built, NextCodes, CountUpTo, Used;
      ghost var lens := sizes[..n];
      Clear();
      var totals := TotalSyms(sizes, n);
      var nextCode, used, total := FirstCodesOf(totals, lens);
      AcceptableTotals(lens);
      if total != 65536 && used > 1 {
        return false;
      }
      ghost var ids: Ids := Insert(sizes, n, nextCode, lens);
      return true;
    }

    /** `TINFL_MEMSET(pLookUp, 0, ...)` and `tinfl_clear_tree` */
    method Clear()
      requires Shape(tree.Length / 2)
      modifies lookUp, tree
      ensures forall i :: 0 <= i < FAST_SIZE ==> lookUp[i] == 0
      ensures forall i :: 0 <= i < tree.Length ==> tree[i] == 0
    {
      forall i | 0 <= i < lookUp.Length {
        lookUp[i] := 0;
      }
      forall i | 0 <= i < tree.Length {
        tree[i] := 0;
      }
    }

    /** Enters all symbols, in order. */
    method Insert(sizes: array<nat>, n: nat, nextCode: array<nat>, ghost lens: Lens) returns (ghost ids: Ids)
      requires Shape(tree.Length / 2) && n <= sizes.Length && 2 * n <= tree.Length && lens == sizes[..n]
      requires Acceptable(lens)
      requires sizes as object != lookUp && sizes as object != tree && nextCode as object != lookUp
      requires nextCode as object != tree && nextCode != sizes
      requires NextCodes(nextCode[..], lens, 0, 15) && (forall i :: 0 <= i < FAST_SIZE ==> lookUp[i] == 0)
      requires (forall i :: 0 <= i < tree.Length ==> tree[i] == 0)
      modifies lookUp, tree, nextCode
      ensures Holds(lens, |lens|, ids)
    {
      hide Acceptable, Fits, Built, NextCodes, First, Count, CodeBits;
      ids := map[];
      BuiltEmpty(lookUp[..], tree[..], lens);
      AcceptableFits(lens);
      var treeNext, s := -1, 0;
      while s < n
        invariant 0 <= s <= n && sizes[..n] == lens && Holds(lens, s, ids) && treeNext == Ptr(|ids|)
        invariant NextCodes(nextCode[..], lens, s, 15)
      {
        var l := sizes[s];
        assert l == lens[s];
        if l == 0 {
          NextCodeStep(nextCode[..], lens, s, 15);
          Skipped(lookUp[..], tree[..], lens, s, ids);
        } else {
          treeNext, ids := InsertSymbol(s, l, nextCode, treeNext, lens, ids);
        }
        s := s + 1;
      }
    }

    /** Enters one symbol with the next code of its length. */
    method InsertSymbol(s: nat, l: nat, nextCode: array<nat>, treeNext: int, ghost lens: Lens, ghost ids: Ids)
      returns (next': int, ghost ids': Ids)
      requires Shape(tree.Length / 2) && 2 * |lens| <= tree.Length && Acceptable(lens) && Fits(lens, 15)
      requires s < |lens| && lens[s] == l > 0
      requires nextCode as object != lookUp && nextCode as object != tree && NextCodes(nextCode[..], lens, s, 15)
      requires Holds(lens, s, ids) && treeNext == Ptr(|ids|)
      modifies lookUp, tree, nextCode
      ensures Holds(lens, s + 1, ids') && next' == Ptr(|ids'|) && NextCodes(nextCode[..], lens, s + 1, 15)
    {
      LengthFits(lens, s);
      hide Acceptable, Fits, Built, NextCodes, First, Count, Code;
      NextCodeStep(nextCode[..], lens, s, 15);
      var code := nextCode[l];
      nextCode[l] := code + 1;
      var rev := ReverseCode(code, l);
      next', ids' := treeNext, ids;
      if l <= FAST_BITS {
        InsertShort(s, rev, l, lens, ids);
      } else {
        next', ids' := InsertLong(s, rev, l, treeNext, lens, ids);
      }
    }

    // ---------- decoding ----------

    /** `pTree[~temp + ((bit_buf >> code_len++) & 1)]` */
    method Next(cur: int, bitBuf: nat, numBits: nat, d: nat, ghost lens: Lens, ghost ids: Ids, ghost b: Bitstring)
      returns (t: int)
      requires Shape(tree.Length / 2) && Acceptable(lens) && Holds(lens, |lens|, ids) && b == ToBits(bitBuf, numBits)
      requires FAST_BITS <= d < numBits && b[..d] in ids && cur == Ptr(ids[b[..d]])
      ensures t < 0 ==> b[..d + 1] in ids && t == Ptr(ids[b[..d + 1]])
      ensures t < 0 ==> Follow(lens, b, d) == if d + 1 < |b| then Follow(lens, b, d + 1) else None
      ensures t >= 0 ==> Follow(lens, b, d).Some?
      ensures t >= 0 ==> Follow(lens, b, d).value.sym == t && Follow(lens, b, d).value.len == d + 1
    {
      hide Built, Acceptable, Follow, Shr, ToBits;
      BufferBit(bitBuf, numBits, d);
      SlotCases(lookUp[..], tree[..], lens, ids, b, d);
      t := tree[-cur - 1 + Shr(bitBuf, d) % 2];
    }

    /** The symbol in front, when the buffer is known to hold one. */
    method Find(bitBuf: nat, numBits: nat, ghost lens: Lens) returns (sym: nat, codeLen: nat)
      requires Shape(tree.Length / 2) && For(lens) && |lens| <= 288 && bitBuf < Pow2(numBits)
      requires Lookup(lens, ToBits(bitBuf, numBits)).Some?
      ensures Lookup(lens, ToBits(bitBuf, numBits)).value.sym == sym
      ensures Lookup(lens, ToBits(bitBuf, numBits)).value.len == codeLen
    {
      hide Built, Acceptable, Follow, Lookup, ToBits, Low;
      ghost var ids: Ids :| Holds(lens, |lens|, ids);
      ghost var b := ToBits(bitBuf, numBits);
      BufferFront(bitBuf, numBits);
      EntryCases(lookUp[..], tree[..], lens, ids, b, Low(bitBuf, FAST_BITS));
      var temp := lookUp[Low(bitBuf, FAST_BITS)];
      if temp >= 0 {
        codeLen, sym := temp / 512, temp % 512;
      } else {
        codeLen := FAST_BITS;
        while temp < 0
          invariant FAST_BITS <= codeLen <= |b|
          invariant temp < 0 ==>
                    codeLen < |b| && b[..codeLen] in ids && temp == Ptr(ids[b[..codeLen]]) &&
                        Follow(lens, b, codeLen) == Lookup(lens, b)
          invariant temp >= 0 ==> Lookup(lens, b).value.sym == temp && Lookup(lens, b).value.len == codeLen
          decreases |b| - codeLen, if temp < 0 then 1 else 0
        {
          temp := Next(temp, bitBuf, numBits, codeLen, lens, ids, b);
          codeLen := codeLen + 1;
        }
        sym := temp;
      }
    }

    /** Whether fewer than fifteen bits are enough for the symbol in front: the tests of `TINFL_HUFF_BITBUF_FILL`. */
    method Known(bitBuf: nat, numBits: nat, ghost lens: Lens) returns (known: bool)
      requires Shape(tree.Length / 2) && For(lens) && |lens| <= 288 && bitBuf < Pow2(numBits) && numBits < 15
      ensures known <==> Lookup(lens, ToBits(bitBuf, numBits)).Some?
    {
      hide Built, Acceptable, Follow, Lookup, ToBits, Low;
      ghost var ids: Ids :| Holds(lens, |lens|, ids);
      ghost var b := ToBits(bitBuf, numBits);
      BufferFront(bitBuf, numBits);
      EntryCases(lookUp[..], tree[..], lens, ids, b, Low(bitBuf, FAST_BITS));
      var temp := lookUp[Low(bitBuf, FAST_BITS)];
      if temp >= 0 {
        var codeLen := temp / 512;
        known := codeLen != 0 && numBits >= codeLen;
      } else if numBits > FAST_BITS {
        var codeLen := FAST_BITS;
        var going := true;
        while going
          invariant FAST_BITS <= codeLen <= |b|
          invariant going ==> (codeLen < |b| && temp < 0 && b[..codeLen] in ids && temp == Ptr(ids[b[..codeLen]]) &&
                    Follow(lens, b, codeLen) == Lookup(lens, b))
          invariant !going ==> (temp >= 0 <==> Lookup(lens, b).Some?)
          decreases |b| - codeLen, if going then 1 else 0
        {
          temp := Next(temp, bitBuf, numBits, codeLen, lens, ids, b);
          codeLen := codeLen + 1;
          going := temp < 0 && numBits >= codeLen + 1;
        }
        known := temp >= 0;
      } else {
        known := false;
      }
    }
  }

  // ---------- reading the tables ----------

  /** What the buffered bits say about an index. */
  ghost predicate Front(p: Bitstring, b: Bitstring) {
    |p| == FAST_BITS && if |b| >= FAST_BITS then p == b[..FAST_BITS] else p[..|b|] == b
  }

  lemma BufferFront(bitBuf: nat, numBits: nat)
    requires bitBuf < Pow2(numBits)
    ensures Low(bitBuf, FAST_BITS) < FAST_SIZE
    ensures Front(ToBits(Low(bitBuf, FAST_BITS), FAST_BITS), ToBits(bitBuf, numBits))
  {
    Pow2Values();
    LowShr(bitBuf, FAST_BITS);
    ToBitsShr(bitBuf, FAST_BITS, 0);
    if numBits >= FAST_BITS {
      ToBitsShr(bitBuf, FAST_BITS, numBits - FAST_BITS);
    } else {
      ToBitsShr(bitBuf, numBits, FAST_BITS - numBits);
    }
    hide ToBits, Low, Shr, Pow2;
  }

  lemma {:induction false} BufferBit(bitBuf: nat, numBits: nat, d: nat)
    requires d < numBits
    ensures Shr(bitBuf, d) % 2 == B(ToBits(bitBuf, numBits)[d])
  {
    if d > 0 {
      BufferBit(bitBuf / 2, numBits - 1, d - 1);
    }
  }

  /** What an entry of the lookup means for the bits in front. */
  ghost predicate EntrySays(lens: Lens, ids: Ids, b: Bitstring, e: int) {
    if e < 0 then
      && (|b| > FAST_BITS ==> b[..FAST_BITS] in ids && e == Ptr(ids[b[..FAST_BITS]]))
      && Lookup(lens, b) == if |b| > FAST_BITS then Follow(lens, b, FAST_BITS) else None
    else if e / 512 == 0 then
      e == 0 && Lookup(lens, b) == if |b| >= 15 then Some(Hit(0, 0, true)) else None
    else
      Lookup(lens, b) == if e / 512 <= |b| then Some(Hit(e % 512, e / 512, false)) else None
  }

  lemma EntryCases(lookUp: seq<int>, tree: seq<int>, lens: Lens, ids: Ids, b: Bitstring, i: nat)
    requires Acceptable(lens) && |lens| <= 288 && Built(lookUp, tree, lens, |lens|, ids) && i < FAST_SIZE
    requires Front(ToBits(i, FAST_BITS), b)
    ensures |lookUp| == FAST_SIZE && EntrySays(lens, ids, b, lookUp[i])
  {
    var p := ToBits(i, FAST_BITS);
    EntryOf(lookUp, tree, lens, ids, i);
    hide *;
    EntryMeans(lens, ids, p, b, lookUp[i]);
  }

  lemma EntryMeans(lens: Lens, ids: Ids, p: Bitstring, b: Bitstring, e: int)
    requires Fits(lens, 15) && |lens| <= 288 && Grown(lens, |lens|, ids) && Places(lens, ids) && Front(p, b)
    requires Entry(lens, |lens|, ids, p, e)
    ensures EntrySays(lens, ids, b, e)
  {
    FrontSame(p, b);
    hide Entry, Grown, Places, Used, Inner, Front, ShortLeaf, Lookup, Follow, Fits;
    if p in ids {
      EntryNode(lens, ids, p, e);
      FrontInner(lens, p, b);
    } else if s: nat :| ShortLeaf(lens, |lens|, s, p) {
      LeafUsed(lens, s, p);
      EntryLeaf(lens, |lens|, ids, s, p, e);
      FrontShort(lens, s, p, b);
    } else {
      EntryNone(lens, ids, p, e);
      FrontNone(lens, |lens|, ids, p, b);
    }
  }

  lemma LeafUsed(lens: Lens, s: nat, p: Bitstring)
    requires ShortLeaf(lens, |lens|, s, p)
    ensures s < |lens| && lens[s] > 0
  {
  }

  lemma EntryOf(lookUp: seq<int>, tree: seq<int>, lens: Lens, ids: Ids, i: nat)
    requires Acceptable(lens) && Built(lookUp, tree, lens, |lens|, ids) && i < FAST_SIZE
    ensures |lookUp| == FAST_SIZE && Entry(lens, |lens|, ids, ToBits(i, FAST_BITS), lookUp[i])
    ensures Fits(lens, 15) && Grown(lens, |lens|, ids) && Places(lens, ids)
  {
    AcceptableFits(lens);
    hide Entry, Inner, CodeBits, ToBits;
  }

  lemma EntryNode(lens: Lens, ids: Ids, p: Bitstring, e: int)
    requires Entry(lens, |lens|, ids, p, e) && p in ids && Places(lens, ids)
    ensures e == Ptr(ids[p]) && Inner(lens, p)
  {
    hide Inner;
  }

  lemma EntryNone(lens: Lens, ids: Ids, p: Bitstring, e: int)
    requires Entry(lens, |lens|, ids, p, e) && p !in ids && forall s: nat :: !ShortLeaf(lens, |lens|, s, p)
    ensures e == 0
  {
  }

  lemma FrontSame(p: Bitstring, b: Bitstring)
    requires Front(p, b)
    ensures |b| > FAST_BITS ==> p == b[..FAST_BITS]
  {
  }

  /** A short code in the buffer is a short code of the index, and the other way around if all its bits are there. */
  lemma ShortFront(lens: Lens, s: nat, p: Bitstring, b: Bitstring)
    requires Front(p, b)
    ensures Short(lens, s, b) ==> Short(lens, s, p)
    ensures Short(lens, s, p) && lens[s] <= |b| ==> Short(lens, s, b)
  {
    hide CodeBits;
    if |b| >= FAST_BITS {
      assert forall k :: 0 <= k <= FAST_BITS ==> b[..FAST_BITS][..k] == b[..k];
    } else {
      assert forall k :: 0 <= k <= |b| ==> p[..|b|][..k] == p[..k];
    }
    if Used(lens, s) {
      var w := CodeBits(lens, s);
      assert w <= b <==> |w| <= |b| && b[..|w|] == w;
      assert w <= p <==> |w| <= |p| && p[..|w|] == w;
    }
  }

  lemma FrontInner(lens: Lens, p: Bitstring, b: Bitstring)
    requires Fits(lens, 15) && Front(p, b) && Inner(lens, p)
    ensures Lookup(lens, b) == if |b| > FAST_BITS then Follow(lens, b, FAST_BITS) else None
  {
    FrontSame(p, b);
    forall s: nat
      ensures !Short(lens, s, b)
    {
      ShortFront(lens, s, p, b);
      if Short(lens, s, p) {
        InnerFree(lens, s, p);
      }
    }
    hide Short, Inner, Follow;
    InnerLonger(lens, p, b);
  }

  lemma InnerLonger(lens: Lens, p: Bitstring, b: Bitstring)
    requires Front(p, b)
    ensures |b| >= 15 ==> |b| > FAST_BITS
  {
  }

  lemma FrontShort(lens: Lens, s: nat, p: Bitstring, b: Bitstring)
    requires Fits(lens, 15) && |lens| <= 288 && Front(p, b) && ShortLeaf(lens, |lens|, s, p)
    ensures var e := 512 * lens[s] + s;
            e / 512 == lens[s] > 0 && e % 512 == s
            && if lens[s] <= |b| then Lookup(lens, b) == Some(Hit(s, lens[s], false)) else Lookup(lens, b) == None
  {
    ShortFront(lens, s, p, b);
    if lens[s] <= |b| {
      ShortUnique(lens, s, b);
    } else {
      forall t: nat
        ensures !Short(lens, t, b)
      {
        ShortFront(lens, t, p, b);
        if Short(lens, t, p) {
          CodeUnique(lens, s, t, p);
        }
      }
    }
  }

  lemma ShortInCode(lens: Lens, s: nat, p: Bitstring)
    ensures Short(lens, s, p) ==> ShortLeaf(lens, |lens|, s, p)
  {
  }

  lemma FrontNone(lens: Lens, n: nat, ids: Ids, p: Bitstring, b: Bitstring)
    requires Front(p, b) && Grown(lens, |lens|, ids) && p !in ids && forall s: nat :: !ShortLeaf(lens, |lens|, s, p)
    ensures Lookup(lens, b) == if |b| >= 15 then Some(Hit(0, 0, true)) else None
  {
    forall s: nat
      ensures !Short(lens, s, b)
    {
      ShortFront(lens, s, p, b);
      ShortInCode(lens, s, p);
    }
    FrontSame(p, b);
    NotInner(lens, ids, p);
    hide Short, Inner;
  }

  /** Once all symbols are in, every inner place is a node. */
  lemma NotInner(lens: Lens, ids: Ids, q: Bitstring)
    requires Grown(lens, |lens|, ids) && q !in ids && |q| >= FAST_BITS
    ensures !Inner(lens, q)
  {
    hide Grown, Extends;
    forall s: nat
      ensures !Extends(lens, s, q)
    {
      if Extends(lens, s, q) {
        ExtendsNode(lens, ids, s, q);
      }
    }
  }

  lemma ExtendsNode(lens: Lens, ids: Ids, s: nat, q: Bitstring)
    requires Grown(lens, |lens|, ids) && Extends(lens, s, q) && |q| >= FAST_BITS
    ensures q in ids
  {
    assert CodeBits(lens, s)[..|q|] in ids;
  }

  /** Following one more bit. */
  lemma SlotCases(lookUp: seq<int>, tree: seq<int>, lens: Lens, ids: Ids, b: Bitstring, d: nat)
    requires Acceptable(lens) && Built(lookUp, tree, lens, |lens|, ids) && FAST_BITS <= d < |b| && b[..d] in ids
    ensures 2 * ids[b[..d]] + B(b[d]) < |tree|
    ensures var t := tree[2 * ids[b[..d]] + B(b[d])];
            if t < 0 then b[..d + 1] in ids && t == Ptr(ids[b[..d + 1]]) &&
                Follow(lens, b, d) == if d + 1 < |b| then Follow(lens, b, d + 1) else None
            else Follow(lens, b, d).Some? && Follow(lens, b, d).value.sym == t && Follow(lens, b, d).value.len == d + 1
  {
    var q, r := b[..d], b[..d + 1];
    assert r == q + [b[d]];
    SlotOf(lookUp, tree, lens, ids, q, b[d]);
    var t := tree[2 * ids[q] + B(b[d])];
    hide Built, Acceptable, Inner, Slot, Landed;
    if r in ids {
      SlotNode(lens, ids, r, t);
    } else {
      SlotEnd(lens, ids, r, t);
    }
  }

  lemma SlotOf(lookUp: seq<int>, tree: seq<int>, lens: Lens, ids: Ids, q: Bitstring, b: bool)
    requires Acceptable(lens) && Built(lookUp, tree, lens, |lens|, ids) && q in ids
    ensures 2 * ids[q] + B(b) < |tree| && Slot(lens, |lens|, ids, q + [b], tree[2 * ids[q] + B(b)])
    ensures Fits(lens, 15) && Grown(lens, |lens|, ids) && Places(lens, ids)
  {
    AcceptableFits(lens);
    assert SlotAt(tree, lens, |lens|, ids, q, b);
    hide Slot, Inner, CodeBits;
  }

  lemma SlotNode(lens: Lens, ids: Ids, r: Bitstring, t: int)
    requires Slot(lens, |lens|, ids, r, t) && r in ids && Places(lens, ids)
    ensures t == Ptr(ids[r]) && Inner(lens, r)
  {
    hide Inner;
  }

  lemma SlotEnd(lens: Lens, ids: Ids, r: Bitstring, t: int)
    requires Fits(lens, 15) && Slot(lens, |lens|, ids, r, t) && r !in ids && Grown(lens, |lens|, ids) && |r| > FAST_BITS
    ensures !Inner(lens, r) && t >= 0 && Landed(lens, r).sym == t && Landed(lens, r).len == |r|
  {
    NotInner(lens, ids, r);
    hide IsCode, Fits, Inner, Grown;
    if s: nat :| Leaf(lens, |lens|, s, r) {
      SlotLeaf(lens, |lens|, ids, s, r, t);
      LandedCode(lens, s, r);
    } else {
      LandedNone(lens, r);
    }
  }

  lemma LandedNone(lens: Lens, q: Bitstring)
    requires forall s: nat :: !Leaf(lens, |lens|, s, q)
    ensures Landed(lens, q) == Hit(0, |q|, true)
  {
    forall s: nat
      ensures !IsCode(lens, s, q)
    {
      assert IsCode(lens, s, q) ==> Leaf(lens, |lens|, s, q);
    }
  }

  lemma BuiltEmpty(lookUp: seq<int>, tree: seq<int>, lens: Lens)
    requires |lookUp| == FAST_SIZE && (forall i :: 0 <= i < FAST_SIZE ==> lookUp[i] == 0)
    requires (forall i :: 0 <= i < |tree| ==> tree[i] == 0)
    ensures Built(lookUp, tree, lens, 0, map[])
  {
    hide Inner, CodeBits, ToBits;
  }

  /** `total_syms` */
  method TotalSyms(sizes: array<nat>, n: nat) returns (totals: array<nat>)
    requires n <= sizes.Length && forall i :: 0 <= i < n ==> sizes[i] <= 15
    ensures fresh(totals) && totals.Length == 16 && forall l :: 0 <= l < 16 ==> totals[l] == Count(sizes[..n], l)
  {
    totals := new nat[16](_ => 0);
    var i := 0;
    while i < n
      invariant 0 <= i <= n && forall l :: 0 <= l < 16 ==> totals[l] == Count(sizes[..i], l)
    {
      assert sizes[..i + 1][..i] == sizes[..i];
      totals[sizes[i]] := totals[sizes[i]] + 1;
      i := i + 1;
    }
  }

  /** `next_code`, `used_syms` and `total` */
  method FirstCodesOf(totals: array<nat>, ghost lens: Lens) returns (nextCode: array<nat>, used: nat, total: nat)
    requires totals.Length == 16 && forall l :: 0 <= l < 16 ==> totals[l] == Count(lens, l)
    ensures fresh(nextCode) && NextCodes(nextCode[..], lens, 0, 15)
    ensures used == CountUpTo(lens, 15) && total == 2 * End(lens, 15)
  {
    nextCode := new nat[17](_ => 0);
    used, total := 0, 0;
    var i: nat := 1;
    while i <= 15
      invariant 1 <= i <= 16 && used == CountUpTo(lens, i - 1) && total == if i == 1 then 0 else 2 * End(lens, i - 1)
      invariant forall m :: 0 < m <= i ==> nextCode[m] == First(lens, m)
    {
      used := used + totals[i];
      total := 2 * (total + totals[i]);
      nextCode[i + 1] := total;
      i := i + 1;
    }
    assert lens[..0] == [];
  }

  /** The decompressor's check is the one it is meant to be. */
  lemma AcceptableTotals(lens: Lens)
    requires forall i :: 0 <= i < |lens| ==> lens[i] <= 15
    ensures Acceptable(lens) <==> 2 * End(lens, 15) == 65536 || CountUpTo(lens, 15) <= 1
  {
    Pow2Values();
    CountAll(lens, 15);
    EndBound(lens, 15);
    hide End, CountUpTo, Count;
    if CountUpTo(lens, 15) <= 1 {
      MulMonotone(Pow2(15), CountUpTo(lens, 15), 1);
    }
  }

  // ---------- steps of an insertion ----------

  lemma EntryThere(lookUp: seq<int>, tree: seq<int>, lens: Lens, n: nat, ids: Ids, p: Bitstring)
    requires Acceptable(lens) && Built(lookUp, tree, lens, n, ids) && |p| == FAST_BITS && Inner(lens, p)
    requires FromBits(p) < FAST_SIZE
    ensures |lookUp| == FAST_SIZE && lookUp[FromBits(p)] == if p in ids then Ptr(ids[p]) else 0
  {
    ToBitsFromBits(p);
    assert Entry(lens, n, ids, ToBits(FromBits(p), FAST_BITS), lookUp[FromBits(p)]);
    AcceptableFits(lens);
    hide *;
    InnerEntry(lens, n, ids, p, lookUp[FromBits(p)]);
  }

  lemma SlotThere(lookUp: seq<int>, tree: seq<int>, lens: Lens, n: nat, ids: Ids, q: Bitstring, b: bool)
    requires Acceptable(lens) && Built(lookUp, tree, lens, n, ids) && q in ids && Inner(lens, q + [b])
    ensures 2 * ids[q] + B(b) < |tree| && tree[2 * ids[q] + B(b)] == if q + [b] in ids then Ptr(ids[q + [b]]) else 0
  {
    assert SlotAt(tree, lens, n, ids, q, b);
    AcceptableFits(lens);
    hide Slot, Inner, Nodes, Fits, Acceptable;
    InnerSlot(lens, n, ids, q + [b], tree[2 * ids[q] + B(b)]);
  }

  lemma NodeEntered(lookUp: seq<int>, lookUp': seq<int>, tree: seq<int>, lens: Lens, n: nat, ids: Ids, p: Bitstring)
    requires Acceptable(lens) && Built(lookUp, tree, lens, n, ids) && |p| == FAST_BITS && Inner(lens, p) && p !in ids
    requires FromBits(p) < |lookUp| && lookUp' == lookUp[FromBits(p) := Ptr(|ids|)] && 2 * |lens| <= |tree|
    requires 10 <= |tree|
    ensures var ids' := ids[p := |ids|]; Built(lookUp', tree, lens, n, ids') && |ids'| == |ids| + 1 && Keeps(ids, ids')
  {
    AcceptableFits(lens);
    hide Inner, Acceptable, Fits, FromBits, Slots, Entries, Grown, Rooted, Injective;
    RoomLeft(lens, ids, p, |tree|);
    NewNode(lookUp, lookUp', tree, tree, lens, n, ids, p);
  }

  lemma NodeBelow(lookUp: seq<int>, tree: seq<int>, tree': seq<int>, lens: Lens, n: nat, ids: Ids, q: Bitstring,
      b: bool)
    requires Acceptable(lens) && Built(lookUp, tree, lens, n, ids) && q in ids && Inner(lens, q + [b])
    requires q + [b] !in ids
    requires 2 * ids[q] + B(b) < |tree| && tree' == tree[2 * ids[q] + B(b) := Ptr(|ids|)]
    requires 2 * |lens| <= |tree| && 10 <= |tree|
    ensures var ids' := ids[q + [b] := |ids|];
            Built(lookUp, tree', lens, n, ids') && |ids'| == |ids| + 1 && Keeps(ids, ids')
  {
    AcceptableFits(lens);
    hide Inner, Acceptable, Fits, FromBits, Slots, Entries, Grown, Rooted, Injective, Parent, Last;
    ParentOfChild(q, b);
    RoomLeft(lens, ids, q + [b], |tree|);
    NewNode(lookUp, lookUp, tree, tree', lens, n, ids, q + [b]);
  }

  /** The inner places of a code up to `d` bits are nodes. */
  ghost predicate ReachedTo(ids: Ids, w: Bitstring, d: nat)
    requires d <= |w|
  {
    forall e {:trigger w[..e]} :: FAST_BITS <= e <= d ==> w[..e] in ids
  }

  lemma ReachedFirst(ids: Ids, w: Bitstring)
    requires |w| > FAST_BITS && w[..FAST_BITS] in ids
    ensures ReachedTo(ids, w, FAST_BITS)
  {
  }

  lemma ReachedMore(ids: Ids, ids': Ids, w: Bitstring, d: nat)
    requires d < |w| && ReachedTo(ids, w, d) && Keeps(ids, ids') && w[..d + 1] in ids'
    ensures ReachedTo(ids', w, d + 1)
  {
    forall e | FAST_BITS <= e <= d + 1
      ensures w[..e] in ids'
    {
      if e <= d {
        assert w[..e] in ids;
      }
    }
  }

  lemma LeafBelow(lookUp: seq<int>, tree: seq<int>, lens: Lens, s: nat, ids: Ids)
    requires Built(lookUp, tree, lens, s, ids) && Used(lens, s) && lens[s] > FAST_BITS
    requires Parent(CodeBits(lens, s)) in ids
    ensures 2 * ids[Parent(CodeBits(lens, s))] + 1 < |tree|
  {
    hide Inner, CodeBits;
  }

  lemma LeafSet(lookUp: seq<int>, tree: seq<int>, tree': seq<int>, lens: Lens, s: nat, ids: Ids)
    requires Acceptable(lens) && Built(lookUp, tree, lens, s, ids) && Used(lens, s) && lens[s] > FAST_BITS
    requires var w := CodeBits(lens, s); ReachedTo(ids, w, |w| - 1) && 2 * ids[w[..|w| - 1]] + B(w[|w| - 1]) < |tree|
                                         && tree' == tree[2 * ids[w[..|w| - 1]] + B(w[|w| - 1]) := s]
    ensures Built(lookUp, tree', lens, s + 1, ids)
  {
    AcceptableFits(lens);
    hide Built, CodeBits, Fits, Acceptable;
    LongInserted(lookUp, tree, tree', lens, s, ids);
  }

}
