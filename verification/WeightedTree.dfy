/**
 A tree given by the parent of each item: the weights of the inner nodes add up to the weighted
 depth of the leaves.
 */
module WeightedTree {
  import opened Bits
  import HuffmanBound

  /** The weight of the items whose parent is `k`. */
  function Part(v: seq<nat>, to: seq<nat>, k: nat): nat
    requires |v| == |to|
  {
    if v == [] then 0
    else Part(v[..|v| - 1], to[..|to| - 1], k) + if to[|to| - 1] == k then v[|v| - 1] else 0
  }

  lemma PartPush(v: seq<nat>, to: seq<nat>, x: nat, t: nat, k: nat)
    requires |v| == |to|
    ensures Part(v + [x], to + [t], k) == Part(v, to, k) + if t == k then x else 0
  {
    assert (v + [x])[..|v|] == v && (to + [t])[..|to|] == to;
  }

  lemma {:induction false} PartNone(v: seq<nat>, to: seq<nat>, k: nat)
    requires |v| == |to| && forall i :: 0 <= i < |to| ==> to[i] < k
    ensures Part(v, to, k) == 0
  {
    if v != [] {
      PartNone(v[..|v| - 1], to[..|to| - 1], k);
    }
  }

  /** Every item's weight times a number that its parent has. */
  function DotTo(v: seq<nat>, to: seq<nat>, g: seq<nat>): nat
    requires |v| == |to| && forall i :: 0 <= i < |to| ==> to[i] < |g|
  {
    if v == [] then 0
    else DotTo(v[..|v| - 1], to[..|to| - 1], g) + v[|v| - 1] * g[to[|to| - 1]]
  }

  /** The same, parent by parent. */
  function PartDot(v: seq<nat>, to: seq<nat>, g: seq<nat>, m: nat): nat
    requires |v| == |to| && m <= |g|
  {
    if m == 0 then 0 else PartDot(v, to, g, m - 1) + g[m - 1] * Part(v, to, m - 1)
  }

  lemma {:induction false} PartDotPush(v: seq<nat>, to: seq<nat>, g: seq<nat>, m: nat)
    requires |v| == |to| > 0 && m <= |g| && to[|to| - 1] < |g|
    ensures var x, t := v[|v| - 1], to[|to| - 1];
            PartDot(v, to, g, m) == PartDot(v[..|v| - 1], to[..|to| - 1], g, m) + if t < m then x * g[t] else 0
    decreases m
  {
    if m > 0 {
      PartDotPush(v, to, g, m - 1);
      var x, t := v[|v| - 1], to[|to| - 1];
      var p := Part(v[..|v| - 1], to[..|to| - 1], m - 1);
      if t == m - 1 {
        assert g[t] * (p + x) == g[t] * p + x * g[t];
      }
    }
  }

  lemma {:induction false} PartDotNone(g: seq<nat>, m: nat)
    requires m <= |g|
    ensures PartDot([], [], g, m) == 0
  {
    if m > 0 {
      PartDotNone(g, m - 1);
    }
  }

  lemma {:induction false} ByParent(v: seq<nat>, to: seq<nat>, g: seq<nat>)
    requires |v| == |to| && forall i :: 0 <= i < |to| ==> to[i] < |g|
    ensures PartDot(v, to, g, |g|) == DotTo(v, to, g)
    decreases |v|
  {
    if v == [] {
      PartDotNone(g, |g|);
    } else {
      ByParent(v[..|v| - 1], to[..|to| - 1], g);
      PartDotPush(v, to, g, |g|);
    }
  }

  /** A plain dot product of the first `m`. */
  function Dot(w: seq<nat>, g: seq<nat>, m: nat): nat
    requires m <= |w| && m <= |g|
  {
    if m == 0 then 0 else Dot(w, g, m - 1) + w[m - 1] * g[m - 1]
  }

  lemma Distribute(a: nat, b: nat, c: nat)
    ensures (a + b) * c == c * a + c * b
  {
  }

  lemma {:induction false} DotParts(w: seq<nat>, v1: seq<nat>, to1: seq<nat>, v2: seq<nat>, to2: seq<nat>,
      g: seq<nat>, m: nat)
    requires |v1| == |to1| && |v2| == |to2| && m <= |w| && m <= |g|
    requires forall k :: 0 <= k < m ==> w[k] == Part(v1, to1, k) + Part(v2, to2, k)
    ensures Dot(w, g, m) == PartDot(v1, to1, g, m) + PartDot(v2, to2, g, m)
  {
    if m > 0 {
      DotParts(w, v1, to1, v2, to2, g, m - 1);
      var a, b := Part(v1, to1, m - 1), Part(v2, to2, m - 1);
      Distribute(a, b, g[m - 1]);
    }
  }

  function Total(w: seq<nat>, m: nat): nat
    requires m <= |w|
  {
    if m == 0 then 0 else Total(w, m - 1) + w[m - 1]
  }

  /** One more for every node adds the weights once. */
  lemma {:induction false} DotOneMore(w: seq<nat>, d: seq<nat>, g: seq<nat>, m: nat)
    requires m <= |w| && m <= |d| && m <= |g| && forall k :: 0 <= k < m ==> g[k] == d[k] + 1
    ensures Dot(w, g, m) == Dot(w, d, m) + Total(w, m)
  {
    if m > 0 {
      DotOneMore(w, d, g, m - 1);
      assert w[m - 1] * (d[m - 1] + 1) == w[m - 1] * d[m - 1] + w[m - 1];
    }
  }

  /** A node is one level below its parent. */
  lemma {:induction false} DotOfParents(w: seq<nat>, to: seq<nat>, d: seq<nat>, g: seq<nat>, m: nat)
    requires m <= |w| && m == |to| <= |d| && |g| == |d| && forall i :: 0 <= i < m ==> to[i] < |g| && g[to[i]] == d[i]
    ensures DotTo(w[..m], to, g) == Dot(w, d, m)
  {
    if m > 0 {
      DotOfParents(w, to[..m - 1], d, g, m - 1);
      assert w[..m][..m - 1] == w[..m - 1];
    }
  }

  /**
   The inner nodes weigh, together, as much as the leaves times their depth.  `d` are the depths of
   the nodes, the last of which is the root.
   */
  lemma TotalWeight(freq: seq<nat>, up: seq<nat>, weight: seq<nat>, parent: seq<nat>, d: seq<nat>, g: seq<nat>)
    requires |freq| == |up| && |weight| == |d| == |g| == |parent| + 1
    requires (forall i :: 0 <= i < |up| ==> up[i] < |g|)
    requires (forall j :: 0 <= j < |parent| ==> parent[j] < |g| && g[parent[j]] == d[j])
    requires d[|parent|] == 0 && forall k :: 0 <= k < |g| ==> g[k] == d[k] + 1
    requires forall k :: 0 <= k < |weight| ==> weight[k] == Part(freq, up, k) + Part(weight[..|parent|], parent, k)
    ensures DotTo(freq, up, g) == Total(weight, |weight|)
  {
    var n := |parent|;
    DotParts(weight, freq, up, weight[..n], parent, g, n + 1);
    ByParent(freq, up, g);
    ByParent(weight[..n], parent, g);
    DotOfParents(weight, parent, d, g, n);
    DotOneMore(weight, d, g, n + 1);
  }

  lemma {:induction false} CostLast(w: seq<nat>, l: seq<nat>, x: nat, y: nat)
    requires |w| == |l|
    ensures HuffmanBound.Cost(w + [x], l + [y]) == HuffmanBound.Cost(w, l) + x * y
  {
    if w == [] {
      assert ([] + [x])[1..] == [] && (l + [y])[1..] == [];
      assert w + [x] == [x] && l + [y] == [y];
    } else {
      CostLast(w[1..], l[1..], x, y);
      assert (w + [x])[1..] == w[1..] + [x] && (l + [y])[1..] == l[1..] + [y];
    }
  }

  lemma {:induction false} CostIsDot(w: seq<nat>, l: seq<nat>, to: seq<nat>, g: seq<nat>)
    requires |w| == |l| == |to| && forall i :: 0 <= i < |to| ==> to[i] < |g| && l[i] == g[to[i]]
    ensures HuffmanBound.Cost(w, l) == DotTo(w, to, g)
    decreases |w|
  {
    if w != [] {
      var n := |w| - 1;
      CostIsDot(w[..n], l[..n], to[..n], g);
      CostLast(w[..n], l[..n], w[n], l[n]);
      assert w == w[..n] + [w[n]] && l == l[..n] + [l[n]];
    }
  }
}
