/**
 Why merging the two lightest weights again and again gives a code of least weight: the exchange
 argument behind Huffman's algorithm, on weights and code lengths alone.
 */
module HuffmanBound {
  import opened Bits
  import opened Canonical

  /** The weighted length of a code. */
  function Cost(w: seq<nat>, l: seq<nat>): nat
    requires |w| == |l|
  {
    if w == [] then 0 else w[0] * l[0] + Cost(w[1..], l[1..])
  }

  predicate UpTo(l: seq<nat>, max: nat) {
    forall i :: 0 <= i < |l| ==> l[i] <= max
  }

  /** The Kraft sum, in units of `2^-max`. */
  function Kraft(l: seq<nat>, max: nat): nat
    requires UpTo(l, max)
  {
    if l == [] then 0 else Pow2(max - l[0]) + Kraft(l[1..], max)
  }

  /** Lengths that a prefix code can have. */
  predicate CodeLengths(l: seq<nat>, max: nat) {
    UpTo(l, max) && Kraft(l, max) <= Pow2(max)
  }

  // ---------- removing and changing one length ----------

  function Without(s: seq<nat>, p: nat): (r: seq<nat>)
    requires p < |s|
    ensures |r| == |s| - 1
  {
    s[..p] + s[p + 1..]
  }

  lemma {:induction false} CostWithout(w: seq<nat>, l: seq<nat>, p: nat)
    requires p < |w| == |l|
    ensures Cost(w, l) == w[p] * l[p] + Cost(Without(w, p), Without(l, p))
  {
    if p == 0 {
      assert Without(w, 0) == w[1..] && Without(l, 0) == l[1..];
    } else {
      CostWithout(w[1..], l[1..], p - 1);
      assert Without(w, p)[1..] == Without(w[1..], p - 1) && Without(l, p)[1..] == Without(l[1..], p - 1);
    }
  }

  lemma {:induction false} KraftWithout(l: seq<nat>, p: nat, max: nat)
    requires p < |l| && UpTo(l, max)
    ensures UpTo(Without(l, p), max) && Kraft(l, max) == Pow2(max - l[p]) + Kraft(Without(l, p), max)
  {
    if p == 0 {
      assert Without(l, 0) == l[1..];
    } else {
      KraftWithout(l[1..], p - 1, max);
      assert Without(l, p)[1..] == Without(l[1..], p - 1);
    }
  }

  lemma WithoutSame(l: seq<nat>, p: nat, v: nat)
    requires p < |l|
    ensures Without(l[p := v], p) == Without(l, p)
  {
  }

  lemma MultisetWithout(w: seq<nat>, p: nat)
    requires p < |w|
    ensures multiset(w) == multiset(Without(w, p)) + multiset{w[p]}
  {
    assert w == w[..p] + [w[p]] + w[p + 1..];
  }

  // ---------- the exchange ----------

  lemma {:induction false} Longest(l: seq<nat>) returns (a: nat)
    requires l != []
    ensures a < |l| && forall i :: 0 <= i < |l| ==> l[i] <= l[a]
  {
    if |l| == 1 {
      a := 0;
    } else {
      var b := Longest(l[1..]);
      a := if l[0] > l[b + 1] then 0 else b + 1;
      assert forall i :: 1 <= i < |l| ==> l[i] == l[1..][i - 1];
    }
  }

  lemma SwapGain(x: nat, w: nat, short: nat, long: nat)
    requires x <= w && short <= long
    ensures x * short + w * long >= x * long + w * short
  {
    MulMonotone(long - short, x, w);
    assert w * long == w * short + w * (long - short) && x * long == x * short + x * (long - short);
  }

  /** The lighter weight `x` takes the longest length, if its own is shorter. */
  lemma TakeLongest(x: nat, lx: nat, w: seq<nat>, l: seq<nat>, max: nat) returns (lx': nat, l': seq<nat>)
    requires |w| == |l| && (forall i :: 0 <= i < |w| ==> x <= w[i]) && UpTo(l, max) && lx <= max
    ensures |l'| == |l| && UpTo(l', max) && lx <= lx' <= max && (forall i :: 0 <= i < |l'| ==> l'[i] <= lx')
    ensures (lx' == lx && l' == l) || lx' in l
    ensures Pow2(max - lx') + Kraft(l', max) == Pow2(max - lx) + Kraft(l, max)
    ensures x * lx' + Cost(w, l') <= x * lx + Cost(w, l)
  {
    lx', l' := lx, l;
    if l != [] {
      var a := Longest(l);
      if l[a] > lx {
        lx', l' := l[a], l[a := lx];
        CostWithout(w, l, a);
        CostWithout(w, l', a);
        KraftWithout(l, a, max);
        KraftWithout(l', a, max);
        WithoutSame(l, a, lx);
        SwapGain(x, w[a], lx, l[a]);
      }
    }
  }

  lemma {:induction false} KraftMultiple(l: seq<nat>, max: nat, top: nat) returns (q: nat)
    requires top <= max && UpTo(l, top)
    ensures UpTo(l, max) && Kraft(l, max) == Pow2(max - top) * q
  {
    hide Pow2;
    if l == [] {
      q := 0;
    } else {
      var r := KraftMultiple(l[1..], max, top);
      Pow2Add(max - top, top - l[0]);
      q := Pow2(top - l[0]) + r;
      assert Pow2(max - top) * q == Pow2(max - top) * Pow2(top - l[0]) + Pow2(max - top) * r;
    }
  }

  /** A single longest code can be shortened to the next length. */
  lemma Shorten(l: seq<nat>, max: nat, top: nat, longer: nat)
    requires top < longer <= max && UpTo(l, top) && UpTo(l, max)
    requires Pow2(max - longer) + Pow2(max - top) + Kraft(l, max) <= Pow2(max)
    ensures 2 * Pow2(max - top) + Kraft(l, max) <= Pow2(max)
  {
    var q := KraftMultiple(l, max, top);
    Pow2Add(max - top, top);
    var d := Pow2(max - top);
    assert d + Kraft(l, max) == d * (q + 1);
    if q + 1 >= Pow2(top) {
      MulMonotone(d, Pow2(top), q + 1);
    } else {
      MulMonotone(d, q + 2, Pow2(top));
      assert d * (q + 2) == d + d * (q + 1);
    }
  }

  /** The two lightest weights may as well have codes of the same, greatest length. */
  lemma Exchange(x: nat, y: nat, lx: nat, ly: nat, w: seq<nat>, l: seq<nat>, max: nat) returns (top: nat, l': seq<nat>)
    requires |w| == |l| && x <= y && (forall i :: 0 <= i < |w| ==> y <= w[i]) && UpTo(l, max) && lx <= max && ly <= max
    requires Pow2(max - lx) + Pow2(max - ly) + Kraft(l, max) <= Pow2(max)
    ensures |l'| == |l| && UpTo(l', max) && 1 <= top <= max
    ensures 2 * Pow2(max - top) + Kraft(l', max) <= Pow2(max)
    ensures (x + y) * top + Cost(w, l') <= x * lx + y * ly + Cost(w, l)
  {
    hide Pow2, Kraft, Cost;
    var lx', l1 := TakeLongest(x, lx, w, l, max);
    var ly';
    ly', l' := TakeLongest(y, ly, w, l1, max);
    assert UpTo(l1, lx');
    top := if lx' < ly' then lx' else ly';
    if lx' < ly' {
      Shorten(l', max, top, ly');
    } else if ly' < lx' {
      Shorten(l', max, top, lx');
    }
    MulMonotone(x, top, lx');
    MulMonotone(y, top, ly');
    assert (x + y) * top == x * top + y * top;
  }

  // ---------- bounds ----------

  /** No code for these weights has a weighted length of less than `k`. */
  ghost predicate Bound(m: multiset<nat>, k: nat) {
    forall w: seq<nat>, l: seq<nat>, max: nat :: |w| == |l| && multiset(w) == m && CodeLengths(l, max) ==>
        Cost(w, l) >= k
  }

  lemma Place(w: seq<nat>, x: nat) returns (p: nat)
    requires x in multiset(w)
    ensures p < |w| && w[p] == x
  {
    assert x in w;
    p :| p < |w| && w[p] == x;
  }

  /** Merging the two lightest weights `x` and `y` costs their sum, and nothing is better. */
  lemma MergeBound(r: multiset<nat>, x: nat, y: nat, k: nat)
    requires x <= y && (forall z :: z in r ==> y <= z) && Bound(r + multiset{x + y}, k)
    ensures Bound(r + multiset{x} + multiset{y}, k + (x + y))
  {
    forall w: seq<nat>, l: seq<nat>, max: nat | |w| == |l| && multiset(w) == r + multiset{x} + multiset{y} &&
        CodeLengths(l, max)
      ensures Cost(w, l) >= k + (x + y)
    {
      MergeCost(r, x, y, k, w, l, max);
    }
  }

  /** One weight and its length set apart. */
  lemma TakeOut(rest: multiset<nat>, x: nat, w: seq<nat>, l: seq<nat>, max: nat)
    returns (w': seq<nat>, l': seq<nat>, lx: nat)
    requires |w| == |l| && multiset(w) == rest + multiset{x} && UpTo(l, max)
    ensures |w'| == |l'| && multiset(w') == rest && UpTo(l', max) && lx <= max
    ensures Cost(w, l) == x * lx + Cost(w', l') && Kraft(l, max) == Pow2(max - lx) + Kraft(l', max)
  {
    hide Cost, Kraft, Pow2, Without;
    var p := Place(w, x);
    MultisetWithout(w, p);
    CostWithout(w, l, p);
    KraftWithout(l, p, max);
    w', l', lx := Without(w, p), Without(l, p), l[p];
    CancelOne(multiset(w'), rest, x);
  }

  lemma AllAbove(w: seq<nat>, y: nat)
    requires forall z :: z in multiset(w) ==> y <= z
    ensures forall i :: 0 <= i < |w| ==> y <= w[i]
  {
    forall i | 0 <= i < |w|
      ensures y <= w[i]
    {
      assert w[i] in multiset(w);
    }
  }

  lemma MergeCost(r: multiset<nat>, x: nat, y: nat, k: nat, w: seq<nat>, l: seq<nat>, max: nat)
    requires x <= y && (forall z :: z in r ==> y <= z) && Bound(r + multiset{x + y}, k)
    requires |w| == |l| && multiset(w) == r + multiset{x} + multiset{y} && CodeLengths(l, max)
    ensures Cost(w, l) >= k + (x + y)
  {
    hide Cost, Kraft, Pow2, Bound, Without;
    var w1, l1, lx := TakeOut(r + multiset{y}, x, w, l, max);
    var w2, l2, ly := TakeOut(r, y, w1, l1, max);
    AllAbove(w2, y);
    var top, l3 := Exchange(x, y, lx, ly, w2, l2, max);
    Merged(r, x + y, k, w2, l3, top, max);
  }

  lemma Merged(r: multiset<nat>, s: nat, k: nat, w: seq<nat>, l: seq<nat>, top: nat, max: nat)
    requires |w| == |l| && multiset(w) == r && Bound(r + multiset{s}, k) && UpTo(l, max) && 1 <= top <= max
    requires 2 * Pow2(max - top) + Kraft(l, max) <= Pow2(max)
    ensures s * top + Cost(w, l) >= k + s
  {
    hide Pow2, Cost, Kraft;
    var w', l' := [s] + w, [top - 1] + l;
    PutInFront(s, w, top - 1, l, max);
    assert max - (top - 1) == max - top + 1;
    DoublePower(max - top);
    assert multiset(w') == r + multiset{s};
    assert CodeLengths(l', max);
    OneLess(s, top);
  }

  lemma OneLess(s: nat, top: nat)
    requires top > 0
    ensures s * top == s * (top - 1) + s
  {
  }

  lemma DoublePower(n: nat)
    ensures Pow2(n + 1) == 2 * Pow2(n)
  {
  }

  lemma PutInFront(s: nat, w: seq<nat>, t: nat, l: seq<nat>, max: nat)
    requires |w| == |l| && UpTo(l, max) && t <= max
    ensures UpTo([t] + l, max) && Cost([s] + w, [t] + l) == s * t + Cost(w, l)
    ensures Kraft([t] + l, max) == Pow2(max - t) + Kraft(l, max)
  {
    assert ([s] + w)[1..] == w && ([t] + l)[1..] == l;
  }

  lemma CancelOne(a: multiset<nat>, b: multiset<nat>, x: nat)
    requires a + multiset{x} == b + multiset{x}
    ensures a == b
  {
    assert a == (a + multiset{x}) - multiset{x};
    assert b == (b + multiset{x}) - multiset{x};
  }

  /** What is still to be merged decides about all: `s` is what has been spent on the way. */
  ghost predicate Leads(m0: multiset<nat>, m: multiset<nat>, s: nat) {
    forall k: nat :: Bound(m, k) ==> Bound(m0, k + s)
  }

  lemma LeadsStart(m: multiset<nat>)
    ensures Leads(m, m, 0)
  {
  }

  lemma LeadsMerge(m0: multiset<nat>, r: multiset<nat>, x: nat, y: nat, s: nat)
    requires x <= y && (forall z :: z in r ==> y <= z) && Leads(m0, r + multiset{x} + multiset{y}, s)
    ensures Leads(m0, r + multiset{x + y}, s + (x + y))
  {
    hide Bound;
    var m := r + multiset{x + y};
    forall k: nat | Bound(m, k)
      ensures Bound(m0, k + (s + (x + y)))
    {
      MergeBound(r, x, y, k);
      assert k + (x + y) + s == k + (s + (x + y));
    }
  }

  lemma LeadsEnd(m0: multiset<nat>, m: multiset<nat>, s: nat)
    requires Leads(m0, m, s)
    ensures Bound(m0, s)
  {
    assert Bound(m, 0);
    assert 0 + s == s;
  }

  // ---------- in terms of lengths alone ----------

  lemma {:induction false} EndMore(l: seq<nat>, k: nat, m: nat)
    requires k > 0 && m > 0
    ensures End(l + [k], m) == End(l, m) + if k <= m then Pow2(m - k) else 0
  {
    assert (l + [k])[..|l|] == l;
    if m > 1 {
      EndMore(l, k, m - 1);
    }
  }

  lemma {:induction false} KraftLast(l: seq<nat>, k: nat, max: nat)
    requires UpTo(l + [k], max)
    ensures UpTo(l, max) && k <= max && Kraft(l + [k], max) == Kraft(l, max) + Pow2(max - k)
  {
    assert (l + [k])[|l|] == k;
    assert forall i :: 0 <= i < |l| ==> l[i] == (l + [k])[i];
    if l == [] {
      assert (l + [k])[1..] == [];
    } else {
      assert (l + [k])[1..] == l[1..] + [k];
      KraftLast(l[1..], k, max);
    }
  }

  lemma {:induction false} EndEmpty(m: nat)
    requires m > 0
    ensures End([], m) == 0
  {
    if m > 1 {
      EndEmpty(m - 1);
    }
  }

  /** The end of the canonical codes is the Kraft sum. */
  lemma {:induction false} KraftEnd(l: seq<nat>, max: nat)
    requires UpTo(l, max) && max > 0 && forall i :: 0 <= i < |l| ==> l[i] > 0
    ensures Kraft(l, max) == End(l, max)
    decreases |l|
  {
    if l == [] {
      EndEmpty(max);
    } else {
      var n := |l| - 1;
      assert l == l[..n] + [l[n]];
      KraftEnd(l[..n], max);
      EndMore(l[..n], l[n], max);
      KraftLast(l[..n], l[n], max);
    }
  }
}
