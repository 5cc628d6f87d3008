/**
 The tree that merging the two lightest weights again and again builds, on sequences: its shape,
 how its weights grow, and that no code has a smaller weighted length.  The source never builds
 it outright; `tdefl_calculate_minimum_redundancy` of external/miniz.c keeps it in its key array.
 */
module HuffmanTree {
  import opened Bits
  import opened WeightedTree
  import opened HuffmanBound
  import opened Canonical

  function Sum(s: seq<nat>): nat {
    if s == [] then 0 else s[0] + Sum(s[1..])
  }

  predicate Ascending(s: seq<nat>) {
    forall i, j :: 0 <= i < j < |s| ==> s[i] <= s[j]
  }

  predicate Descending(s: seq<nat>) {
    forall i, j :: 0 <= i < j < |s| ==> s[i] >= s[j]
  }

  predicate Positive(s: seq<nat>) {
    forall i :: 0 <= i < |s| ==> s[i] > 0
  }

  lemma {:induction false} SumSplit(a: seq<nat>, b: seq<nat>)
    ensures Sum(a + b) == Sum(a) + Sum(b)
  {
    if a == [] {
      assert a + b == b;
    } else {
      assert (a + b)[1..] == a[1..] + b;
      SumSplit(a[1..], b);
    }
  }

  lemma SumHead(s: seq<nat>, i: nat)
    requires i < |s|
    ensures Sum(s[i..]) == s[i] + Sum(s[i + 1..])
  {
    assert s[i..][1..] == s[i + 1..];
  }

  // ---------- the tree ----------

  /**
   Internal nodes are numbered in the order they are made; `parent[i]` is the node that node `i`
   was merged into.  Nodes are merged first in, first out, and at most two into one node.
   */
  predicate Forest(parent: seq<nat>, made: nat) {
    && (forall i :: 0 <= i < |parent| ==> i < parent[i] < made)
    && (forall i :: 0 <= i < |parent| - 1 ==> parent[i] <= parent[i + 1])
    && (forall i :: 0 <= i < |parent| - 2 ==> parent[i] < parent[i + 2])
  }

  /**
   The weights behind the tree.  `weight[k]` is the weight of internal node `k` and `big[k]` that
   of its heavier child; `hand` is a weight already taken for the next node, or 0.  What is in a
   queue is never lighter than what was taken from one.
   */
  ghost predicate Queues(freq: seq<nat>, parent: seq<nat>, weight: seq<nat>, big: seq<nat>, leaf: nat, hand: nat) {
    && |parent| <= |weight| && leaf <= |freq|
    && Weights(weight, big)
    && Balance(freq, |parent|, weight, leaf, hand)
    && (hand > 0 ==> big[|big| - 1] <= hand)
    && (|parent| < |weight| ==> big[|big| - 1] <= weight[|parent|] && hand <= weight[|parent|])
    && (leaf < |freq| ==> big[|big| - 1] <= freq[leaf] && hand <= freq[leaf])
    && Links(parent, weight, big, hand)
  }

  /** What is left in the two queues and in hand is the whole weight. */
  ghost predicate Balance(freq: seq<nat>, root: nat, weight: seq<nat>, leaf: nat, hand: nat) {
    && root <= |weight| && leaf <= |freq|
    && Sum(weight[root..]) + Sum(freq[leaf..]) + hand == Sum(freq)
  }

  ghost predicate Weights(weight: seq<nat>, big: seq<nat>) {
    && 0 < |weight| == |big|
    && Ascending(weight) && Ascending(big)
    && (forall k :: 0 <= k < |big| ==> 1 <= big[k] < weight[k] <= 2 * big[k])
  }

  ghost predicate Links(parent: seq<nat>, weight: seq<nat>, big: seq<nat>, hand: nat) {
    |parent| <= |weight| == |big| && forall i :: 0 <= i < |parent| ==> Linked(parent, weight, big, i, hand)
  }

  /** A node and its parent grow at least like consecutive Fibonacci numbers. */
  ghost predicate Linked(parent: seq<nat>, weight: seq<nat>, big: seq<nat>, i: nat, hand: nat)
    requires i < |parent| <= |weight| == |big|
  {
    if parent[i] < |weight| then
      weight[parent[i]] >= weight[i] + big[i] && big[parent[i]] >= weight[i]
    else
      parent[i] == |weight| && hand > 0 && weight[i] == hand
  }

  lemma Start(freq: seq<nat>, weight: seq<nat>, big: seq<nat>)
    requires Ascending(freq) && Positive(freq) && |freq| >= 2
    requires weight == [freq[0] + freq[1]] && big == [freq[1]]
    ensures Queues(freq, [], weight, big, 2, 0)
    ensures freq[0] + freq[1] <= Sum(freq)
  {
    SumHead(freq, 0);
    SumHead(freq, 1);
    assert freq[0..] == freq && weight[0..] == weight && weight[1..] == [];
  }

  lemma WeightsAscend(weight: seq<nat>, big: seq<nat>)
    requires Weights(weight, big)
    ensures 0 < |weight| == |big| && Ascending(weight) && Ascending(big)
  {
  }

  lemma PushWeight(weight: seq<nat>, big: seq<nat>, x: nat, y: nat)
    requires Weights(weight, big) && big[|big| - 1] <= x <= y && x > 0
    ensures Weights(weight + [x + y], big + [y])
  {
    var weight', big' := weight + [x + y], big + [y];
    assert weight[|big| - 1] <= 2 * big[|big| - 1];
    assert Ascending(weight') by {
      forall i, j | 0 <= i < j < |weight'|
        ensures weight'[i] <= weight'[j]
      {
        assert i < |weight| && weight[i] <= weight[|weight| - 1];
      }
    }
    assert Ascending(big') by {
      forall i, j | 0 <= i < j < |big'|
        ensures big'[i] <= big'[j]
      {
        assert i < |big| && big[i] <= big[|big| - 1];
      }
    }
  }

  lemma TakeNode(freq: seq<nat>, parent: seq<nat>, weight: seq<nat>, big: seq<nat>, leaf: nat)
    requires Queues(freq, parent, weight, big, leaf, 0) && Ascending(freq)
    requires |parent| < |weight|
    requires leaf < |freq| ==> weight[|parent|] <= freq[leaf]
    ensures Queues(freq, parent + [|weight|], weight, big, leaf, weight[|parent|])
    ensures weight[|parent|] > 0
  {
    var parent' := parent + [|weight|];
    SumHead(weight, |parent|);
    forall i | 0 <= i < |parent'|
      ensures Linked(parent', weight, big, i, weight[|parent|])
    {
      if i < |parent| {
        assert Linked(parent, weight, big, i, 0);
      }
    }
  }

  lemma TakeLeaf(freq: seq<nat>, parent: seq<nat>, weight: seq<nat>, big: seq<nat>, leaf: nat)
    requires Queues(freq, parent, weight, big, leaf, 0) && Ascending(freq) && Positive(freq)
    requires leaf < |freq|
    requires |parent| < |weight| ==> freq[leaf] <= weight[|parent|]
    ensures Queues(freq, parent, weight, big, leaf + 1, freq[leaf])
  {
    SumHead(freq, leaf);
    forall i | 0 <= i < |parent|
      ensures Linked(parent, weight, big, i, freq[leaf])
    {
      assert Linked(parent, weight, big, i, 0);
    }
  }

  lemma MergeNode(freq: seq<nat>, parent: seq<nat>, weight: seq<nat>, big: seq<nat>, leaf: nat, hand: nat)
    requires Queues(freq, parent, weight, big, leaf, hand) && Ascending(freq) && hand > 0
    requires |parent| < |weight|
    requires leaf < |freq| ==> weight[|parent|] <= freq[leaf]
    ensures var w := weight[|parent|];
            Queues(freq, parent + [|weight|], weight + [hand + w], big + [w], leaf, 0) && hand + w <= Sum(freq)
  {
    hide Weights, Links, Balance;
    var w := weight[|parent|];
    WeightsAscend(weight, big);
    MergeNodeBalance(freq, |parent|, weight, leaf, hand);
    MergeNodeLinks(parent, weight, big, hand);
    PushWeight(weight, big, hand, w);
  }

  lemma MergeNodeBalance(freq: seq<nat>, root: nat, weight: seq<nat>, leaf: nat, hand: nat)
    requires Balance(freq, root, weight, leaf, hand) && root < |weight|
    ensures Balance(freq, root + 1, weight + [hand + weight[root]], leaf, 0)
    ensures hand + weight[root] <= Sum(freq)
  {
    hide Sum;
    SumHead(weight, root);
    PushSum(weight, root + 1, hand + weight[root]);
  }

  lemma PushSum(weight: seq<nat>, root: nat, x: nat)
    requires root <= |weight|
    ensures Sum((weight + [x])[root..]) == Sum(weight[root..]) + x
  {
    assert (weight + [x])[root..] == weight[root..] + [x];
    SumSplit(weight[root..], [x]);
    assert Sum([x]) == x + Sum([x][1..]);
  }

  lemma MergeNodeLinks(parent: seq<nat>, weight: seq<nat>, big: seq<nat>, hand: nat)
    requires Links(parent, weight, big, hand) && |parent| < |weight|
    requires hand > 0 && hand <= weight[|parent|]
    requires Ascending(big) && big[|big| - 1] <= hand
    ensures var w := weight[|parent|];
            Links(parent + [|weight|], weight + [hand + w], big + [w], 0)
  {
    var w := weight[|parent|];
    var parent', weight', big' := parent + [|weight|], weight + [hand + w], big + [w];
    forall i | 0 <= i < |parent'|
      ensures Linked(parent', weight', big', i, 0)
    {
      if i < |parent| {
        assert Linked(parent, weight, big, i, hand);
      }
    }
  }

  lemma MergeLeaf(freq: seq<nat>, parent: seq<nat>, weight: seq<nat>, big: seq<nat>, leaf: nat, hand: nat)
    requires Queues(freq, parent, weight, big, leaf, hand) && Ascending(freq) && Positive(freq) && hand > 0
    requires leaf < |freq|
    requires |parent| < |weight| ==> freq[leaf] <= weight[|parent|]
    ensures var w := freq[leaf];
            Queues(freq, parent, weight + [hand + w], big + [w], leaf + 1, 0) && hand + w <= Sum(freq)
  {
    hide Weights, Links, Balance;
    var w := freq[leaf];
    WeightsAscend(weight, big);
    MergeLeafBalance(freq, |parent|, weight, leaf, hand);
    MergeLeafLinks(parent, weight, big, hand, w);
    PushWeight(weight, big, hand, w);
  }

  lemma MergeLeafBalance(freq: seq<nat>, root: nat, weight: seq<nat>, leaf: nat, hand: nat)
    requires Balance(freq, root, weight, leaf, hand) && leaf < |freq|
    ensures Balance(freq, root, weight + [hand + freq[leaf]], leaf + 1, 0)
    ensures hand + freq[leaf] <= Sum(freq)
  {
    hide Sum;
    SumHead(freq, leaf);
    PushSum(weight, root, hand + freq[leaf]);
  }

  lemma MergeLeafLinks(parent: seq<nat>, weight: seq<nat>, big: seq<nat>, hand: nat, w: nat)
    requires Links(parent, weight, big, hand)
    requires 0 < hand <= w && |big| > 0
    requires Ascending(big) && big[|big| - 1] <= hand
    ensures Links(parent, weight + [hand + w], big + [w], 0)
  {
    var weight', big' := weight + [hand + w], big + [w];
    forall i | 0 <= i < |parent|
      ensures Linked(parent, weight', big', i, 0)
    {
      assert Linked(parent, weight, big, i, hand);
    }
  }

  // ---------- leaves, and why the tree is best ----------

  /** `up[i]` is the node that leaf `i` was merged into: every node weighs what was merged into it. */
  ghost predicate Family(freq: seq<nat>, parent: seq<nat>, weight: seq<nat>, leaf: nat, hand: nat, up: seq<nat>) {
    && |up| == leaf <= |freq| && |parent| <= |weight|
    && (forall k :: 0 <= k < |weight| ==> weight[k] == Part(freq[..leaf], up, k) + Part(weight[..|parent|], parent, k))
    && hand == Part(freq[..leaf], up, |weight|) + Part(weight[..|parent|], parent, |weight|)
    && (forall i :: 0 <= i < |up| ==> up[i] <= |weight| && (hand == 0 ==> up[i] < |weight|))
    && (forall i :: 0 <= i < |parent| ==> parent[i] <= |weight| && (hand == 0 ==> parent[i] < |weight|))
  }

  /** The weights that are still to be merged. */
  ghost function Active(freq: seq<nat>, root: nat, weight: seq<nat>, leaf: nat, hand: nat): multiset<nat>
    requires root <= |weight| && leaf <= |freq|
  {
    multiset(weight[root..]) + multiset(freq[leaf..]) + if hand > 0 then multiset{hand} else multiset{}
  }

  /** Merging was the best way to get here. */
  ghost predicate Best(freq: seq<nat>, root: nat, weight: seq<nat>, leaf: nat, hand: nat) {
    root <= |weight| && leaf <= |freq| && Leads(multiset(freq), Active(freq, root, weight, leaf, hand), Sum(weight))
  }

  ghost predicate Kin(freq: seq<nat>, parent: seq<nat>, weight: seq<nat>, leaf: nat, hand: nat, up: seq<nat>) {
    Family(freq, parent, weight, leaf, hand, up) && Best(freq, |parent|, weight, leaf, hand)
  }

  lemma TailSplit(s: seq<nat>, i: nat)
    requires i < |s|
    ensures multiset(s[i..]) == multiset{s[i]} + multiset(s[i + 1..])
  {
    assert s[i..] == [s[i]] + s[i + 1..];
  }

  lemma TailPush(s: seq<nat>, i: nat, x: nat)
    requires i <= |s|
    ensures multiset((s + [x])[i..]) == multiset(s[i..]) + multiset{x}
  {
    assert (s + [x])[i..] == s[i..] + [x];
  }

  lemma SumPush(s: seq<nat>, x: nat)
    ensures Sum(s + [x]) == Sum(s) + x
  {
    SumSplit(s, [x]);
    assert Sum([x]) == x + Sum([x][1..]);
  }

  lemma FirstTwo(freq: seq<nat>)
    requires |freq| >= 2 && Ascending(freq)
    ensures multiset(freq) == multiset(freq[2..]) + multiset{freq[0]} + multiset{freq[1]}
    ensures freq[0] <= freq[1] && forall z :: z in multiset(freq[2..]) ==> freq[1] <= z
  {
    TailSplit(freq, 0);
    TailSplit(freq, 1);
    assert freq[0..] == freq;
    Lightest(freq, 0, [], 2, freq[1], multiset(freq[2..]));
  }

  lemma BestStart(freq: seq<nat>)
    requires |freq| >= 2 && Ascending(freq)
    ensures Best(freq, 0, [freq[0] + freq[1]], 2, 0)
  {
    hide Leads;
    var m, r, x, y := multiset(freq), multiset(freq[2..]), freq[0], freq[1];
    LeadsStart(m);
    FirstTwo(freq);
    LeadsMerge(m, r, x, y, 0);
    var weight := [x + y];
    SumPush([], x + y);
    assert [] + [x + y] == weight && weight[0..] == weight;
    assert Active(freq, 0, weight, 2, 0) == r + multiset{x + y};
  }

  lemma FamilyStart(freq: seq<nat>)
    requires |freq| >= 2
    ensures Family(freq, [], [freq[0] + freq[1]], 2, 0, [0, 0])
  {
    var weight := [freq[0] + freq[1]];
    PartPush([], [], freq[0], 0, 0);
    PartPush([freq[0]], [0], freq[1], 0, 0);
    assert [] + [freq[0]] == [freq[0]] && [] + [0] == [0] && [freq[0]] + [freq[1]] == freq[..2] && [0] + [0] == [0, 0];
    PartNone(freq[..2], [0, 0], 1);
    assert weight[..0] == [];
  }

  lemma KinStart(freq: seq<nat>)
    requires |freq| >= 2 && Ascending(freq)
    ensures Kin(freq, [], [freq[0] + freq[1]], 2, 0, [0, 0]) && Cuts([0, 2], [0, 0], [])
  {
    hide Part, Leads, Active;
    FamilyStart(freq);
    BestStart(freq);
  }

  /** A node goes into the hand. */
  lemma KinNode(freq: seq<nat>, parent: seq<nat>, weight: seq<nat>, leaf: nat, up: seq<nat>)
    requires Kin(freq, parent, weight, leaf, 0, up) && |parent| < |weight| && weight[|parent|] > 0
    ensures Kin(freq, parent + [|weight|], weight, leaf, weight[|parent|], up)
  {
    hide Sum;
    var r, n := |parent|, |weight|;
    TailSplit(weight, r);
    assert Active(freq, r + 1, weight, leaf, weight[r]) == Active(freq, r, weight, leaf, 0);
    assert weight[..r + 1] == weight[..r] + [weight[r]];
    forall k | 0 <= k <= n
      ensures Part(weight[..r + 1], parent + [n], k) == Part(weight[..r], parent, k) + if k == n then weight[r] else 0
    {
      PartPush(weight[..r], parent, weight[r], n, k);
    }
  }

  /** A leaf goes into the hand. */
  lemma KinLeaf(freq: seq<nat>, parent: seq<nat>, weight: seq<nat>, leaf: nat, up: seq<nat>)
    requires Kin(freq, parent, weight, leaf, 0, up) && leaf < |freq| && freq[leaf] > 0
    ensures Kin(freq, parent, weight, leaf + 1, freq[leaf], up + [|weight|])
  {
    hide Sum;
    var r, n := |parent|, |weight|;
    TailSplit(freq, leaf);
    assert Active(freq, r, weight, leaf + 1, freq[leaf]) == Active(freq, r, weight, leaf, 0);
    assert freq[..leaf + 1] == freq[..leaf] + [freq[leaf]];
    forall k | 0 <= k <= n
      ensures Part(freq[..leaf + 1], up + [n], k) == Part(freq[..leaf], up, k) + if k == n then freq[leaf] else 0
    {
      PartPush(freq[..leaf], up, freq[leaf], n, k);
    }
  }

  /** The weights that are left are none below the two that are merged. */
  lemma Lightest(freq: seq<nat>, root: nat, weight: seq<nat>, leaf: nat, w: nat, r: multiset<nat>)
    requires root <= |weight| && leaf <= |freq| && Ascending(weight) && Ascending(freq)
    requires (root < |weight| ==> w <= weight[root]) && (leaf < |freq| ==> w <= freq[leaf])
    requires r == multiset(weight[root..]) + multiset(freq[leaf..])
    ensures forall z :: z in r ==> w <= z
  {
    forall z | z in r
      ensures w <= z
    {
      if z in multiset(weight[root..]) {
        var i :| 0 <= i < |weight[root..]| && weight[root..][i] == z;
        assert z == weight[root + i] >= weight[root];
      } else {
        var i :| 0 <= i < |freq[leaf..]| && freq[leaf..][i] == z;
        assert z == freq[leaf + i] >= freq[leaf];
      }
    }
  }

  lemma ActiveMergeNode(freq: seq<nat>, root: nat, weight: seq<nat>, leaf: nat, hand: nat, r: multiset<nat>)
    requires root < |weight| && leaf <= |freq| && hand > 0 && r == multiset(weight[root + 1..]) + multiset(freq[leaf..])
    ensures var w := weight[root];
            && Active(freq, root, weight, leaf, hand) == r + multiset{hand} + multiset{w}
            && Active(freq, root + 1, weight + [hand + w], leaf, 0) == r + multiset{hand + w}
  {
    TailSplit(weight, root);
    TailPush(weight, root + 1, hand + weight[root]);
  }

  lemma BestMergeNode(freq: seq<nat>, root: nat, weight: seq<nat>, leaf: nat, hand: nat)
    requires Best(freq, root, weight, leaf, hand) && Ascending(weight) && Ascending(freq) && root < |weight|
    requires 0 < hand <= weight[root] && (leaf < |freq| ==> weight[root] <= freq[leaf])
    ensures Best(freq, root + 1, weight + [hand + weight[root]], leaf, 0)
  {
    hide Sum, Active, Leads;
    var w := weight[root];
    var r := multiset(weight[root + 1..]) + multiset(freq[leaf..]);
    Lightest(freq, root + 1, weight, leaf, w, r);
    ActiveMergeNode(freq, root, weight, leaf, hand, r);
    LeadsMerge(multiset(freq), r, hand, w, Sum(weight));
    SumPush(weight, hand + w);
  }

  lemma ActiveMergeLeaf(freq: seq<nat>, root: nat, weight: seq<nat>, leaf: nat, hand: nat, r: multiset<nat>)
    requires root <= |weight| && leaf < |freq| && hand > 0 && r == multiset(weight[root..]) + multiset(freq[leaf + 1..])
    ensures var w := freq[leaf];
            && Active(freq, root, weight, leaf, hand) == r + multiset{hand} + multiset{w}
            && Active(freq, root, weight + [hand + w], leaf + 1, 0) == r + multiset{hand + w}
  {
    TailSplit(freq, leaf);
    TailPush(weight, root, hand + freq[leaf]);
  }

  lemma BestMergeLeaf(freq: seq<nat>, root: nat, weight: seq<nat>, leaf: nat, hand: nat)
    requires Best(freq, root, weight, leaf, hand) && Ascending(weight) && Ascending(freq) && leaf < |freq|
    requires 0 < hand <= freq[leaf] && (root < |weight| ==> freq[leaf] <= weight[root])
    ensures Best(freq, root, weight + [hand + freq[leaf]], leaf + 1, 0)
  {
    hide Sum, Active, Leads;
    var w := freq[leaf];
    var r := multiset(weight[root..]) + multiset(freq[leaf + 1..]);
    Lightest(freq, root, weight, leaf + 1, w, r);
    ActiveMergeLeaf(freq, root, weight, leaf, hand, r);
    LeadsMerge(multiset(freq), r, hand, w, Sum(weight));
    SumPush(weight, hand + w);
  }

  lemma FamilyMergeNode(freq: seq<nat>, parent: seq<nat>, weight: seq<nat>, leaf: nat, hand: nat, up: seq<nat>)
    requires Family(freq, parent, weight, leaf, hand, up) && |parent| < |weight| && hand > 0
    ensures Family(freq, parent + [|weight|], weight + [hand + weight[|parent|]], leaf, 0, up)
  {
    var r, n, w := |parent|, |weight|, weight[|parent|];
    var weight', parent' := weight + [hand + w], parent + [n];
    assert weight'[..r + 1] == weight[..r] + [w];
    forall k | 0 <= k <= n
      ensures Part(weight'[..r + 1], parent', k) == Part(weight[..r], parent, k) + if k == n then w else 0
    {
      PartPush(weight[..r], parent, w, n, k);
    }
    PartNone(freq[..leaf], up, n + 1);
    PartNone(weight'[..r + 1], parent', n + 1);
  }

  lemma FamilyMergeLeaf(freq: seq<nat>, parent: seq<nat>, weight: seq<nat>, leaf: nat, hand: nat, up: seq<nat>)
    requires Family(freq, parent, weight, leaf, hand, up) && leaf < |freq| && hand > 0
    ensures Family(freq, parent, weight + [hand + freq[leaf]], leaf + 1, 0, up + [|weight|])
  {
    var r, n, w := |parent|, |weight|, freq[leaf];
    var weight', up' := weight + [hand + w], up + [n];
    assert weight'[..r] == weight[..r] && freq[..leaf + 1] == freq[..leaf] + [w];
    forall k | 0 <= k <= n
      ensures Part(freq[..leaf + 1], up', k) == Part(freq[..leaf], up, k) + if k == n then w else 0
    {
      PartPush(freq[..leaf], up, w, n, k);
    }
    PartNone(freq[..leaf + 1], up', n + 1);
    PartNone(weight'[..r], parent, n + 1);
  }

  lemma KinMergeNode(freq: seq<nat>, parent: seq<nat>, weight: seq<nat>, big: seq<nat>, leaf: nat, hand: nat,
      up: seq<nat>)
    requires Kin(freq, parent, weight, leaf, hand, up) && Queues(freq, parent, weight, big, leaf, hand)
    requires Ascending(freq)
    requires |parent| < |weight| && hand > 0 && (leaf < |freq| ==> weight[|parent|] <= freq[leaf])
    ensures Kin(freq, parent + [|weight|], weight + [hand + weight[|parent|]], leaf, 0, up)
  {
    hide Family, Best, Balance, Links;
    FamilyMergeNode(freq, parent, weight, leaf, hand, up);
    BestMergeNode(freq, |parent|, weight, leaf, hand);
  }

  lemma KinMergeLeaf(freq: seq<nat>, parent: seq<nat>, weight: seq<nat>, big: seq<nat>, leaf: nat, hand: nat,
      up: seq<nat>)
    requires Kin(freq, parent, weight, leaf, hand, up) && Queues(freq, parent, weight, big, leaf, hand)
    requires Ascending(freq)
    requires leaf < |freq| && hand > 0 && (|parent| < |weight| ==> freq[leaf] <= weight[|parent|])
    ensures Kin(freq, parent, weight + [hand + freq[leaf]], leaf + 1, 0, up + [|weight|])
  {
    hide Family, Best, Balance, Links;
    FamilyMergeLeaf(freq, parent, weight, leaf, hand, up);
    BestMergeLeaf(freq, |parent|, weight, leaf, hand);
  }

  /** The heavier child of a node is no lighter than any leaf merged into it. */
  ghost predicate LeafLinks(freq: seq<nat>, weight: seq<nat>, big: seq<nat>, up: seq<nat>, hand: nat) {
    && |up| <= |freq| && |weight| == |big|
    && forall i :: 0 <= i < |up| ==>
        if up[i] < |weight| then freq[i] <= big[up[i]] else up[i] == |weight| && 0 < freq[i] <= hand
  }

  lemma LeafStart(freq: seq<nat>)
    requires |freq| >= 2 && Ascending(freq)
    ensures LeafLinks(freq, [freq[0] + freq[1]], [freq[1]], [0, 0], 0)
  {
  }

  lemma LeafTake(freq: seq<nat>, weight: seq<nat>, big: seq<nat>, up: seq<nat>, w: nat)
    requires LeafLinks(freq, weight, big, up, 0)
    ensures LeafLinks(freq, weight, big, up, w)
    ensures |up| < |freq| && freq[|up|] == w > 0 ==> LeafLinks(freq, weight, big, up + [|weight|], w)
  {
  }

  lemma LeafMergeNode(freq: seq<nat>, parent: seq<nat>, weight: seq<nat>, big: seq<nat>, leaf: nat, hand: nat,
      up: seq<nat>)
    requires Queues(freq, parent, weight, big, leaf, hand) && LeafLinks(freq, weight, big, up, hand)
    requires |parent| < |weight|
    ensures var w := weight[|parent|]; LeafLinks(freq, weight + [hand + w], big + [w], up, 0)
  {
    hide Weights, Balance, Links;
  }

  lemma LeafMergeLeaf(freq: seq<nat>, parent: seq<nat>, weight: seq<nat>, big: seq<nat>, leaf: nat, hand: nat,
      up: seq<nat>)
    requires Queues(freq, parent, weight, big, leaf, hand) && LeafLinks(freq, weight, big, up, hand) && leaf < |freq|
    requires |up| == leaf
    ensures var w := freq[leaf]; LeafLinks(freq, weight + [hand + w], big + [w], up + [|weight|], 0)
  {
    hide Weights, Balance, Links;
  }

  // ---------- which leaves and nodes go where ----------

  /** The first `l` leaves and the first `2 * t - l` nodes are the children of the nodes before `t`. */
  ghost predicate CutAt(up: seq<nat>, parent: seq<nat>, t: nat, l: nat) {
    && l <= |up| && 0 <= 2 * t - l <= |parent|
    && (forall i :: 0 <= i < |up| ==> (up[i] < t <==> i < l))
    && (forall j :: 0 <= j < |parent| ==> (parent[j] < t <==> j < 2 * t - l))
  }

  ghost predicate Cuts(cut: seq<nat>, up: seq<nat>, parent: seq<nat>) {
    forall t :: 0 <= t < |cut| ==> CutAt(up, parent, t, cut[t])
  }

  /** Everything new belongs to node `next`. */
  ghost predicate Extends(s: seq<nat>, s': seq<nat>, next: nat) {
    s <= s' && forall i :: |s| <= i < |s'| ==> s'[i] == next
  }

  lemma ExtendsMore(s: seq<nat>, s1: seq<nat>, s2: seq<nat>, next: nat)
    requires Extends(s, s1, next) && Extends(s1, s2, next)
    ensures Extends(s, s2, next)
  {
  }

  lemma KinLeaves(freq: seq<nat>, parent: seq<nat>, weight: seq<nat>, leaf: nat, hand: nat, up: seq<nat>)
    requires Kin(freq, parent, weight, leaf, hand, up)
    ensures |up| == leaf
  {
  }

  lemma KinShape(freq: seq<nat>, parent: seq<nat>, weight: seq<nat>, leaf: nat, up: seq<nat>)
    requires Kin(freq, parent, weight, leaf, 0, up)
    ensures |up| == leaf <= |freq| && |parent| <= |weight|
    ensures (forall i :: 0 <= i < |up| ==> up[i] < |weight|) && (forall i :: 0 <= i < |parent| ==> parent[i] < |weight|)
  {
  }

  lemma CutsExtend(cut: seq<nat>, up: seq<nat>, parent: seq<nat>, up': seq<nat>, parent': seq<nat>, next: nat)
    requires Cuts(cut, up, parent) && Extends(up, up', next) && Extends(parent, parent', next) && |cut| == next + 1
    requires |up'| + |parent'| == 2 * (next + 1)
    requires (forall i :: 0 <= i < |up'| ==> up'[i] <= next) && (forall j :: 0 <= j < |parent'| ==> parent'[j] <= next)
    ensures Cuts(cut + [|up'|], up', parent')
  {
    var cut' := cut + [|up'|];
    forall t | 0 <= t < |cut'|
      ensures CutAt(up', parent', t, cut'[t])
    {
      if t < |cut| {
        assert CutAt(up, parent, t, cut[t]);
      }
    }
  }

  // ---------- depths ----------

  ghost predicate Frequencies(freq: seq<nat>) {
    2 <= |freq| <= 65536 && Ascending(freq) && Positive(freq) && Sum(freq) < 65536
  }

  lemma ForestStart()
    ensures Forest([], 1)
  {
  }

  lemma ForestMore(parent: seq<nat>, made: nat)
    requires Forest(parent, made)
    ensures Forest(parent, made + 1)
    ensures |parent| >= 2 ==> parent[|parent| - 2] < made
    ensures |parent| >= 1 ==> parent[|parent| - 1] < made
  {
  }

  lemma GrowForest(parent: seq<nat>, made: nat)
    requires Forest(parent, made + 1) && |parent| < made
    requires |parent| >= 2 ==> parent[|parent| - 2] < made
    ensures Forest(parent + [made], made + 1)
  {
  }

  /** Depth of an internal node; the root is the node after all that have a parent. */
  ghost function Depth(parent: seq<nat>, i: nat): (d: nat)
    requires Forest(parent, |parent| + 1) && i <= |parent|
    decreases |parent| - i
  {
    if i == |parent| then 0 else 1 + Depth(parent, parent[i])
  }

  lemma {:induction false} ParentMonotone(parent: seq<nat>, i: nat, j: nat)
    requires Forest(parent, |parent| + 1) && i <= j < |parent|
    ensures parent[i] <= parent[j]
  {
    if i < j {
      ParentMonotone(parent, i, j - 1);
    }
  }

  /** Of the nodes `i`, `i + 1`, ..., `i + 2 * k` the last has a parent `k` further on. */
  lemma {:induction false} ParentSpread(parent: seq<nat>, i: nat, k: nat)
    requires Forest(parent, |parent| + 1) && i + 2 * k < |parent|
    ensures parent[i] + k <= parent[i + 2 * k]
  {
    if k > 0 {
      ParentSpread(parent, i, k - 1);
    }
  }

  lemma {:induction false} DepthMonotone(parent: seq<nat>, i: nat, j: nat)
    requires Forest(parent, |parent| + 1) && i <= j <= |parent|
    ensures Depth(parent, i) >= Depth(parent, j)
    decreases |parent| - i
  {
    if i < j < |parent| {
      ParentMonotone(parent, i, j);
      DepthMonotone(parent, parent[i], parent[j]);
    }
  }

  lemma DepthStep(parent: seq<nat>, i: nat)
    requires Forest(parent, |parent| + 1) && i < |parent|
    ensures Depth(parent, i) <= Depth(parent, i + 1) + 1
  {
    DepthMonotone(parent, i + 1, parent[i]);
  }

  /** The least weight `k` levels above a node of weight `w` whose heavier child weighs `b`. */
  function Grown(k: nat, w: nat, b: nat): nat {
    if k == 0 then w else Grown(k - 1, w + b, w)
  }

  lemma {:induction false} GrownMonotone(k: nat, w: nat, b: nat, v: nat, c: nat)
    requires w <= v && b <= c
    ensures Grown(k, w, b) <= Grown(k, v, c)
  {
    if k > 0 {
      GrownMonotone(k - 1, w + b, w, v + c, v);
    }
  }

  lemma {:induction false} GrownHigher(k: nat, j: nat, w: nat, b: nat)
    requires k <= j && b <= w
    ensures Grown(k, w, b) <= Grown(j, w, b)
    decreases j
  {
    if k > 0 {
      GrownHigher(k - 1, j - 1, w + b, w);
    } else if j > 0 {
      GrownHigher(0, j - 1, w + b, w);
    }
  }

  lemma Grown22()
    ensures Grown(22, 2, 1) == 75025
  {
    assert Grown(22, 2, 1) == Grown(12, 233, 144);
    assert Grown(12, 233, 144) == Grown(6, 4181, 2584);
  }

  /** The totals below which the limits of the three tables cut nothing. */
  lemma GrownLimits()
    ensures Grown(15, 2, 1) == 2584 && Grown(7, 2, 1) == 55
  {
    assert Grown(15, 2, 1) == Grown(8, 55, 34);
  }

  lemma {:induction false} RootWeight(parent: seq<nat>, weight: seq<nat>, big: seq<nat>, i: nat)
    requires Forest(parent, |parent| + 1) && |weight| == |parent| + 1
    requires Links(parent, weight, big, 0) && i <= |parent|
    ensures weight[|parent|] >= Grown(Depth(parent, i), weight[i], big[i])
    decreases |parent| - i
  {
    if i < |parent| {
      var p := parent[i];
      assert Linked(parent, weight, big, i, 0);
      RootWeight(parent, weight, big, p);
      GrownMonotone(Depth(parent, p), weight[i] + big[i], weight[i], weight[p], big[p]);
    }
  }

  /** A node far below the root makes a heavy tree. */
  lemma DepthGrown(freq: seq<nat>, parent: seq<nat>, weight: seq<nat>, big: seq<nat>, i: nat)
    requires Frequencies(freq) && |parent| == |freq| - 2 && |weight| == |freq| - 1
    requires Forest(parent, |parent| + 1) && i <= |parent|
    requires Queues(freq, parent, weight, big, |freq|, 0)
    ensures Grown(Depth(parent, i), 2, 1) <= Sum(freq)
  {
    RootWeight(parent, weight, big, i);
    SumHead(weight, |parent|);
    GrownMonotone(Depth(parent, i), 2, 1, weight[i], big[i]);
  }

  /** A tree of 16-bit total weight has its internal nodes at most 21 levels below the root. */
  lemma DepthLimit(freq: seq<nat>, parent: seq<nat>, weight: seq<nat>, big: seq<nat>, i: nat)
    requires Frequencies(freq) && |parent| == |freq| - 2 && |weight| == |freq| - 1
    requires Forest(parent, |parent| + 1) && i <= |parent|
    requires Queues(freq, parent, weight, big, |freq|, 0)
    ensures Depth(parent, i) <= 21
  {
    DepthGrown(freq, parent, weight, big, i);
    Grown22();
    if Depth(parent, i) > 21 {
      GrownHigher(22, Depth(parent, i), 2, 1);
    }
  }

  // ---------- the code that the tree gives ----------

  /** No code with a length for every weight has a smaller weighted length. */
  ghost predicate Minimal(freq: seq<nat>, lens: Lens) {
    |lens| == |freq| && forall l: Lens, m: nat :: |l| == |freq| && Positive(l) && Fits(l, m) ==>
        Cost(freq, lens) <= Cost(freq, l)
  }

  /** Every leaf is one level below the node that it was merged into. */
  ghost predicate Leafy(lens: Lens, up: seq<nat>, parent: seq<nat>)
    requires Forest(parent, |parent| + 1)
  {
    |lens| == |up| && forall i :: 0 <= i < |up| ==> up[i] <= |parent| && lens[i] == Depth(parent, up[i]) + 1
  }

  lemma {:induction false} TotalIsSum(s: seq<nat>, m: nat)
    requires m <= |s|
    ensures Total(s, m) == Sum(s[..m])
  {
    if m > 0 {
      TotalIsSum(s, m - 1);
      assert s[..m] == s[..m - 1] + [s[m - 1]];
      SumPush(s[..m - 1], s[m - 1]);
    }
  }

  lemma TreeCost(freq: seq<nat>, parent: seq<nat>, weight: seq<nat>, up: seq<nat>, lens: Lens)
    requires Forest(parent, |parent| + 1) && |weight| == |parent| + 1
    requires Family(freq, parent, weight, |freq|, 0, up) && Leafy(lens, up, parent)
    ensures Cost(freq, lens) == Sum(weight)
  {
    var n := |parent|;
    var d := seq(n + 1, k requires 0 <= k <= n => Depth(parent, k));
    var g := seq(n + 1, k requires 0 <= k <= n => Depth(parent, k) + 1);
    assert freq[..|freq|] == freq && weight[..|weight|] == weight;
    TotalWeight(freq, up, weight, parent, d, g);
    CostIsDot(freq, lens, up, g);
    TotalIsSum(weight, |weight|);
  }

  lemma BoundHolds(freq: seq<nat>, l: Lens, m: nat, k: nat)
    requires |l| == |freq| && Positive(l) && Fits(l, m) && Bound(multiset(freq), k)
    ensures k <= Cost(freq, l)
  {
    hide Cost, Kraft, Pow2;
    KraftEnd(l, m);
    assert CodeLengths(l, m);
  }

  lemma BoundIsMinimal(freq: seq<nat>, lens: Lens)
    requires |lens| == |freq| && Bound(multiset(freq), Cost(freq, lens))
    ensures Minimal(freq, lens)
  {
    hide Cost, Bound, Positive, Fits;
    forall l: Lens, m: nat | |l| == |freq| && Positive(l) && Fits(l, m)
      ensures Cost(freq, lens) <= Cost(freq, l)
    {
      BoundHolds(freq, l, m, Cost(freq, lens));
    }
  }

  lemma NoneIsMinimal()
    ensures Minimal([], [])
  {
  }

  /** One leaf needs one bit. */
  lemma OneIsMinimal(freq: seq<nat>)
    requires |freq| == 1
    ensures Minimal(freq, [1])
  {
    forall l: Lens, m: nat | |l| == 1 && Positive(l) && Fits(l, m)
      ensures Cost(freq, [1]) <= Cost(freq, l)
    {
      MulMonotone(freq[0], 1, l[0]);
      assert freq[1..] == [] && l[1..] == [] && [1][1..] == [];
    }
  }

  lemma TreeIsMinimal(freq: seq<nat>, parent: seq<nat>, weight: seq<nat>, up: seq<nat>, lens: Lens)
    requires Forest(parent, |parent| + 1) && |weight| == |parent| + 1
    requires Kin(freq, parent, weight, |freq|, 0, up) && Leafy(lens, up, parent)
    ensures Minimal(freq, lens)
  {
    TreeCost(freq, parent, weight, up, lens);
    LeadsEnd(multiset(freq), Active(freq, |parent|, weight, |freq|, 0), Sum(weight));
    BoundIsMinimal(freq, lens);
  }

  /** Long lengths need a heavy tree: the total grows like the Fibonacci numbers. */
  ghost predicate Grows(freq: seq<nat>, lens: Lens) {
    forall i :: 0 <= i < |lens| && lens[i] > 1 ==> Grown(lens[i] - 1, 2, 1) <= Sum(freq)
  }

  lemma TreeGrows(freq: seq<nat>, parent: seq<nat>, weight: seq<nat>, big: seq<nat>, up: seq<nat>, lens: Lens)
    requires Frequencies(freq) && |parent| == |freq| - 2 && |weight| == |freq| - 1
    requires Forest(parent, |parent| + 1) && Leafy(lens, up, parent)
    requires Queues(freq, parent, weight, big, |freq|, 0)
    ensures Grows(freq, lens)
  {
    hide Queues, Frequencies, Sum, Grown;
    forall i | 0 <= i < |lens| && lens[i] > 1
      ensures Grown(lens[i] - 1, 2, 1) <= Sum(freq)
    {
      DepthGrown(freq, parent, weight, big, up[i]);
    }
  }

  /** A heavy leaf far from the root makes an even heavier tree. */
  ghost predicate Heavy(freq: seq<nat>, lens: Lens) {
    |lens| == |freq| && forall i :: 0 <= i < |lens| ==> lens[i] > 0 && Grown(lens[i] - 1, freq[i], freq[i]) <= Sum(freq)
  }

  lemma TreeHeavy(freq: seq<nat>, parent: seq<nat>, weight: seq<nat>, big: seq<nat>, up: seq<nat>, lens: Lens)
    requires Frequencies(freq) && |parent| == |freq| - 2 && |weight| == |freq| - 1
    requires Forest(parent, |parent| + 1) && Leafy(lens, up, parent) && |up| == |freq|
    requires Queues(freq, parent, weight, big, |freq|, 0) && LeafLinks(freq, weight, big, up, 0)
    ensures Heavy(freq, lens)
  {
    hide Sum, Grown, Forest;
    forall i | 0 <= i < |lens|
      ensures lens[i] > 0 && Grown(lens[i] - 1, freq[i], freq[i]) <= Sum(freq)
    {
      var k := up[i];
      RootWeight(parent, weight, big, k);
      SumHead(weight, |parent|);
      GrownMonotone(Depth(parent, k), freq[i], freq[i], weight[k], big[k]);
    }
  }

  lemma OneIsHeavy(freq: seq<nat>)
    requires |freq| == 1
    ensures Heavy(freq, [1])
  {
    SumHead(freq, 0);
    assert freq[0..] == freq;
  }

  /** A light enough tree keeps to a limit. */
  lemma ShortEnough(freq: seq<nat>, lens: Lens, limit: nat)
    requires Grows(freq, lens) && limit > 0 && Sum(freq) < Grown(limit, 2, 1)
    ensures forall i :: 0 <= i < |lens| ==> lens[i] <= limit
  {
    forall i | 0 <= i < |lens|
      ensures lens[i] <= limit
    {
      if lens[i] > limit {
        GrownHigher(limit, lens[i] - 1, 2, 1);
      }
    }
  }

  // ---------- leaves level by level ----------

  /** The leaves after `next` have their lengths; those up to `next` are children of the nodes before `t`. */
  ghost predicate Hung(a: seq<nat>, up: seq<nat>, parent: seq<nat>, next: int, t: nat)
    requires Forest(parent, |parent| + 1)
  {
    && |up| == |a| && -1 <= next < |a| && t <= |parent| + 1
    && (forall i :: 0 <= i < |up| ==> up[i] <= |parent| && (up[i] < t <==> i <= next))
    && (forall i :: next < i < |up| ==> a[i] == Depth(parent, up[i]) + 1)
  }

  lemma ParentLevel(parent: seq<nat>, root: nat, below: nat, dpth: nat, j: nat)
    requires Forest(parent, |parent| + 1) && root <= |parent| && below <= |parent| && j < |parent|
    requires forall i :: 0 <= i <= |parent| ==> (Depth(parent, i) >= dpth <==> i <= root)
    requires forall i :: 0 <= i <= |parent| ==> (Depth(parent, i) > dpth <==> i < below)
    ensures parent[j] <= root <==> j < below
  {
    assert Depth(parent, j) == Depth(parent, parent[j]) + 1;
  }

  /** The children of the nodes up to `root` are the nodes below their level, and the leaves left over. */
  lemma ChildrenBelow(cut: seq<nat>, up: seq<nat>, parent: seq<nat>, root: nat, below: nat, dpth: nat)
    requires Forest(parent, |parent| + 1) && Cuts(cut, up, parent) && root + 1 < |cut| && root <= |parent|
    requires below <= |parent|
    requires forall i :: 0 <= i <= |parent| ==> (Depth(parent, i) >= dpth <==> i <= root)
    requires forall i :: 0 <= i <= |parent| ==> (Depth(parent, i) > dpth <==> i < below)
    ensures cut[root + 1] + below == 2 * (root + 1)
  {
    var l := cut[root + 1];
    assert CutAt(up, parent, root + 1, l);
    var k := 2 * (root + 1) - l;
    if below < |parent| {
      ParentLevel(parent, root, below, dpth, below);
      assert parent[below] < root + 1 <==> below < k;
    }
    if k < |parent| {
      ParentLevel(parent, root, below, dpth, k);
      assert parent[k] < root + 1 <==> k < k;
    }
  }

  /** Of the leaves, those up to `root + used` hang from the nodes up to `root`. */
  lemma LeavesBelow(cut: seq<nat>, up: seq<nat>, parent: seq<nat>, root: int, used: nat, dpth: nat)
    requires Forest(parent, |parent| + 1) && Cuts(cut, up, parent) && |cut| == |parent| + 2
    requires -1 <= root <= |parent| && used <= root + 1 && root + 1 - used <= |parent|
    requires forall i :: 0 <= i <= |parent| ==> (Depth(parent, i) >= dpth <==> i <= root)
    requires forall i :: 0 <= i <= |parent| ==> (Depth(parent, i) > dpth <==> i <= root - used)
    ensures forall i :: 0 <= i < |up| ==> (up[i] <= root <==> i <= root + used)
  {
    if root >= 0 {
      ChildrenBelow(cut, up, parent, root, root + 1 - used, dpth);
      assert CutAt(up, parent, root + 1, cut[root + 1]);
    }
  }

  /** The leaves that are left over on a level get its depth. */
  lemma HangLevel(a: seq<nat>, b: seq<nat>, up: seq<nat>, parent: seq<nat>, root: int, next: int, t: nat, used: nat,
      dpth: nat)
    requires Forest(parent, |parent| + 1) && Hung(a, up, parent, next, t)
    requires -1 <= root < t <= |parent| + 1 && root + used <= next
    requires forall i :: root < i < t ==> Depth(parent, i) + 1 == dpth
    requires forall i :: 0 <= i < |up| ==> (up[i] <= root <==> i <= root + used)
    requires b == a[..root + used + 1] + Repeated(dpth, next - root - used) + a[next + 1..]
    ensures Hung(b, up, parent, root + used, root + 1)
  {
    hide Depth, Forest, Repeated;
    Filled(a, b, root + used, next, dpth);
    forall i | root + used < i < |up|
      ensures b[i] == Depth(parent, up[i]) + 1
    {
      if i > next {
        assert b[i] == a[i];
      }
    }
  }

  lemma Filled(a: seq<nat>, b: seq<nat>, lo: int, next: int, v: nat)
    requires -1 <= lo <= next < |a| && b == a[..lo + 1] + Repeated(v, next - lo) + a[next + 1..]
    ensures |b| == |a| && (forall i :: lo < i <= next ==> b[i] == v) && (forall i :: next < i < |a| ==> b[i] == a[i])
  {
  }

  lemma HungStart(a: seq<nat>, up: seq<nat>, parent: seq<nat>)
    requires Forest(parent, |parent| + 1) && |up| == |a| && forall i :: 0 <= i < |up| ==> up[i] <= |parent|
    ensures Hung(a, up, parent, |a| - 1, |parent| + 1)
  {
  }

  lemma HungEnd(a: seq<nat>, up: seq<nat>, parent: seq<nat>, t: nat)
    requires Forest(parent, |parent| + 1) && Hung(a, up, parent, -1, t)
    ensures Leafy(a, up, parent)
  {
  }
}
