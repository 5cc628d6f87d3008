/**
 Lists of the symbols that occur, each with its count, and what code lengths given to them cost.
 */
module SymbolList {
  import opened Bits
  import opened Canonical
  import opened HuffmanBound
  import opened HuffmanTree
  import opened RadixSort
  import WeightedTree

  function KeysOf(s: Syms): (k: seq<nat>)
    ensures |k| == |s| && forall i :: 0 <= i < |s| ==> k[i] == s[i].key
  {
    seq(|s|, i requires 0 <= i < |s| => s[i].key)
  }

  /** `s` lists exactly the symbols with a count, each once, with its count as key. */
  ghost predicate Lists(s: Syms, count: seq<nat>) {
    && (forall i :: 0 <= i < |s| ==> s[i].sym < |count| && s[i].key == count[s[i].sym] > 0)
    && (forall i, j :: 0 <= i < j < |s| ==> s[i].sym != s[j].sym)
    && (forall k :: 0 <= k < |count| && count[k] > 0 ==> SymFreq(count[k], k) in s)
  }

  /** The lengths of the listed symbols, in the order of the list. */
  function LensOf(s: Syms, lens: Lens): (r: Lens)
    requires forall i :: 0 <= i < |s| ==> s[i].sym < |lens|
    ensures |r| == |s| && forall i :: 0 <= i < |s| ==> r[i] == lens[s[i].sym]
  {
    seq(|s|, i requires 0 <= i < |s| => lens[s[i].sym])
  }

  predicate Serves(lens: Lens, count: seq<nat>) {
    |lens| == |count| && forall k :: 0 <= k < |count| && count[k] > 0 ==> lens[k] > 0
  }

  /** No code for the symbols that occur takes fewer bits for all of them together. */
  ghost predicate BestSizes(count: seq<nat>, sizes: Lens) {
    |sizes| == |count| && forall l: Lens, m: nat :: Serves(l, count) && Fits(l, m) ==>
        Cost(count, sizes) <= Cost(count, l)
  }

  /** At most `2 * n / 540` bits more for each of the `n` symbols than with any other code. */
  ghost predicate NearBest(count: seq<nat>, sizes: Lens) {
    |sizes| == |count| && forall l: Lens, m: nat :: Serves(l, count) && Fits(l, m) ==>
        540 * Cost(count, sizes) <= 540 * Cost(count, l) + 2 * |count| * Sum(count)
  }

  function Except(s: Syms, p: nat): Syms
    requires p < |s|
  {
    s[..p] + s[p + 1..]
  }

  /** The list without the last symbol. */
  lemma Unlist(s: Syms, count: seq<nat>) returns (p: nat)
    requires Lists(s, count) && count != []
    ensures var n := |count| - 1;
            if count[n] == 0 then Lists(s, count[..n])
            else p < |s| && s[p] == SymFreq(count[n], n) && Lists(Except(s, p), count[..n])
    ensures var n := |count| - 1; forall i :: 0 <= i < |s| && (count[n] == 0 || i != p) ==> s[i].sym < n
  {
    var n := |count| - 1;
    p := 0;
    if count[n] > 0 {
      p :| 0 <= p < |s| && s[p] == SymFreq(count[n], n);
      UnlistAt(s, count, p);
    } else {
      forall i | 0 <= i < |s|
        ensures s[i].sym < n
      {
        assert s[i].key == count[s[i].sym];
      }
    }
  }

  lemma UnlistAt(s: Syms, count: seq<nat>, p: nat)
    requires Lists(s, count) && count != [] && p < |s| && s[p].sym == |count| - 1
    ensures Lists(Except(s, p), count[..|count| - 1])
    ensures forall i :: 0 <= i < |s| && i != p ==> s[i].sym < |count| - 1
  {
    hide Except;
    var n, t := |count| - 1, Except(s, p);
    Skipped(s, p);
    OnlyLast(s, count, p);
    forall i | 0 <= i < |t|
      ensures t[i].sym < n && t[i].key == count[..n][t[i].sym] > 0
    {
      var j := Skip(p, i);
      assert t[i] == s[j];
    }
    forall i, j | 0 <= i < j < |t|
      ensures t[i].sym != t[j].sym
    {
      assert t[i] == s[Skip(p, i)] && t[j] == s[Skip(p, j)];
    }
    forall k | 0 <= k < n && count[..n][k] > 0
      ensures SymFreq(count[..n][k], k) in t
    {
      StillListed(s, count, p, k);
    }
  }

  lemma OnlyLast(s: Syms, count: seq<nat>, p: nat)
    requires Lists(s, count) && count != [] && p < |s| && s[p].sym == |count| - 1
    ensures forall i :: 0 <= i < |s| && i != p ==> s[i].sym < |count| - 1
  {
    forall i | 0 <= i < |s| && i != p
      ensures s[i].sym < |count| - 1
    {
      assert s[i].sym != s[p].sym;
    }
  }

  lemma StillListed(s: Syms, count: seq<nat>, p: nat, k: nat)
    requires Lists(s, count) && p < |s| && k < |count| && count[k] > 0 && s[p].sym != k
    ensures SymFreq(count[k], k) in Except(s, p)
  {
    var q :| 0 <= q < |s| && s[q] == SymFreq(count[k], k);
    hide Except, Lists;
    Skipped(s, p);
    var i := if q < p then q else q - 1;
    assert Skip(p, i) == q;
    assert Except(s, p)[i] == s[q];
  }

  /** The place in the whole list of place `i` without place `p`. */
  function Skip(p: nat, i: nat): nat {
    if i < p then i else i + 1
  }

  lemma Skipped(s: Syms, p: nat)
    requires p < |s|
    ensures |Except(s, p)| == |s| - 1 && forall i :: 0 <= i < |s| - 1 ==> Except(s, p)[i] == s[Skip(p, i)]
  {
  }

  lemma NothingListed(s: Syms, count: seq<nat>)
    requires Lists(s, count) && count == []
    ensures s == []
  {
    assert s != [] ==> s[0].sym < |count|;
  }

  lemma Listed(s: Syms, count: seq<nat>)
    requires Lists(s, count)
    ensures forall i :: 0 <= i < |s| ==> s[i].sym < |count|
  {
  }

  lemma SameLens(s: Syms, lens: Lens, n: nat)
    requires n <= |lens| && forall i :: 0 <= i < |s| ==> s[i].sym < n
    ensures LensOf(s, lens) == LensOf(s, lens[..n])
  {
  }

  lemma ExceptIs(s: Syms, lens: Lens, p: nat)
    requires p < |s| && |lens| > 0 && s[p].sym == |lens| - 1 && forall i :: 0 <= i < |s| && i != p ==>
             s[i].sym < |lens| - 1
    ensures Without(KeysOf(s), p) == KeysOf(Except(s, p))
    ensures Without(LensOf(s, lens), p) == LensOf(Except(s, p), lens[..|lens| - 1])
  {
  }

  /** Only the symbols that occur cost anything. */
  lemma {:induction false} ListCost(s: Syms, count: seq<nat>, lens: Lens)
    requires Lists(s, count) && |lens| == |count|
    ensures Cost(count, lens) == Cost(KeysOf(s), LensOf(s, lens))
    decreases |count|
  {
    hide Cost, Without, Except, Lists, KeysOf, LensOf;
    Listed(s, count);
    if count == [] {
      NothingListed(s, count);
      assert KeysOf(s) == count && LensOf(s, lens) == lens;
    } else {
      var n := |count| - 1;
      var p := Unlist(s, count);
      assert count == count[..n] + [count[n]] && lens == lens[..n] + [lens[n]];
      WeightedTree.CostLast(count[..n], lens[..n], count[n], lens[n]);
      if count[n] == 0 {
        ListCost(s, count[..n], lens[..n]);
        SameLens(s, lens, n);
      } else {
        ListCost(Except(s, p), count[..n], lens[..n]);
        ExceptIs(s, lens, p);
        CostWithout(KeysOf(s), LensOf(s, lens), p);
      }
    }
  }

  lemma {:induction false} EndZero(l: Lens, m: nat)
    requires m > 0
    ensures End(l + [0], m) == End(l, m)
  {
    assert (l + [0])[..|l|] == l;
    if m > 1 {
      EndZero(l, m - 1);
    }
  }

  /** The listed symbols take no more room in a code than all of them. */
  lemma {:induction false} ListKraft(s: Syms, count: seq<nat>, l: Lens, m: nat)
    requires Lists(s, count) && Serves(l, count) && UpTo(l, m) && m > 0
    ensures UpTo(LensOf(s, l), m) && Kraft(LensOf(s, l), m) <= End(l, m)
    decreases |count|
  {
    hide Kraft, End, Without, Except, Lists, LensOf;
    Listed(s, count);
    if count == [] {
      NothingListed(s, count);
      assert LensOf(s, l) == [];
      NoKraft(m);
    } else {
      var n := |count| - 1;
      var p := Unlist(s, count);
      assert l == l[..n] + [l[n]];
      if l[n] == 0 {
        EndZero(l[..n], m);
      } else {
        EndMore(l[..n], l[n], m);
      }
      if count[n] == 0 {
        ListKraft(s, count[..n], l[..n], m);
        SameLens(s, l, n);
      } else {
        ListKraft(Except(s, p), count[..n], l[..n], m);
        ExceptIs(s, l, p);
        KraftWithout(LensOf(s, l), p, m);
      }
    }
  }

  lemma NoKraft(m: nat)
    requires m > 0
    ensures Kraft([], m) == 0
  {
  }

  lemma CountWithout(l: Lens, p: nat, v: nat)
    requires p < |l|
    ensures Count(l, v) == Count(Without(l, p), v) + if l[p] == v then 1 else 0
  {
    assert l == l[..p] + ([l[p]] + l[p + 1..]);
    CountConcat(l[..p], [l[p]] + l[p + 1..], v);
    CountConcat([l[p]], l[p + 1..], v);
    CountConcat(l[..p], l[p + 1..], v);
    assert [l[p]][..0] == [];
  }

  lemma {:induction false} ListCount(s: Syms, count: seq<nat>, lens: Lens, v: nat)
    requires Lists(s, count) && |lens| == |count| && v > 0
    requires forall k :: 0 <= k < |count| ==> (lens[k] > 0 <==> count[k] > 0)
    ensures Count(LensOf(s, lens), v) == Count(lens, v)
    decreases |count|
  {
    hide Without, Except, Lists, LensOf;
    Listed(s, count);
    if count == [] {
      NothingListed(s, count);
      assert LensOf(s, lens) == lens;
    } else {
      var n := |count| - 1;
      var p := Unlist(s, count);
      if count[n] == 0 {
        ListCount(s, count[..n], lens[..n], v);
        SameLens(s, lens, n);
      } else {
        ListCount(Except(s, p), count[..n], lens[..n], v);
        ExceptIs(s, lens, p);
        CountWithout(LensOf(s, lens), p, v);
      }
    }
  }

  lemma {:induction false} CountedIsIn(l: Lens, v: nat)
    requires Count(l, v) > 0
    ensures v in l
  {
    if v !in l {
      CountAbsent(l, v);
    }
  }

  lemma {:induction false} InIsCounted(l: Lens, p: nat)
    requires p < |l|
    ensures Count(l, l[p]) > 0
  {
    CountWithout(l, p, l[p]);
  }

  /** Sorted lengths are determined by how often each occurs. */
  lemma {:induction false} SameLengths(a: Lens, b: Lens)
    requires |a| == |b| && Descending(a) && Descending(b) && forall v :: Count(a, v) == Count(b, v)
    ensures a == b
  {
    if a != [] {
      var n := |a| - 1;
      InIsCounted(a, n);
      CountedIsIn(b, a[n]);
      InIsCounted(b, n);
      CountedIsIn(a, b[n]);
      forall v
        ensures Count(a[..n], v) == Count(b[..n], v)
      {
        assert Count(a, v) == Count(b, v);
      }
      SameLengths(a[..n], b[..n]);
    }
  }

  /** Lengths that are best for the list are best for the symbols. */
  lemma BestForAll(s: Syms, count: seq<nat>, sizes: Lens)
    requires Lists(s, count) && |sizes| == |count| && Minimal(KeysOf(s), LensOf(s, sizes))
    ensures BestSizes(count, sizes)
  {
    hide Cost, Lists, Fits;
    forall l: Lens, m: nat | Serves(l, count) && Fits(l, m)
      ensures Cost(count, sizes) <= Cost(count, l)
    {
      Listed(s, count);
      ListCost(s, count, sizes);
      NoBetter(s, count, LensOf(s, sizes), l, m);
    }
  }

  lemma NoBetter(s: Syms, count: seq<nat>, keys: Lens, l: Lens, m: nat)
    requires Lists(s, count) && Minimal(KeysOf(s), keys)
    requires Serves(l, count) && Fits(l, m)
    ensures Cost(KeysOf(s), keys) <= Cost(count, l)
  {
    hide Cost, Kraft, End, Pow2;
    ListCost(s, count, l);
    ListKraft(s, count, l, m);
    KraftEnd(LensOf(s, l), m);
    assert Fits(LensOf(s, l), m);
  }
}
