/**
 What it costs to limit the length of the codes (external/miniz.c, the histogram that
 `tdefl_huffman_enforce_max_code_size` changes): with a limit of 15 bits the `n` symbols of an
 alphabet take at most `2 * n / 540` bits more for each symbol than the best code of any length.

 A step moves a code one level down, and the code of the limit that it makes room for comes up
 beside it.  Sorted by weight, the lengths change in two neighbouring places, and only when all
 lighter symbols have codes of the limit is a heavier one reached.
 */
module LimitCost {
  import opened Bits
  import opened Canonical
  import opened HuffmanBound
  import opened HuffmanTree
  import opened SymbolList
  import LengthLimit
  import WeightedTree

  // ---------- lengths and their histogram ----------

  /** `num[l]` codes have length `l`, for the lengths `1..max`. */
  ghost predicate Tallies(num: seq<int>, lens: Lens, max: nat) {
    max < |num| && forall l :: 0 < l <= max ==> num[l] == Count(lens, l)
  }

  lemma {:induction false} TallyKraft(num: seq<int>, lens: Lens, m: nat)
    requires 0 < m && Tallies(num, lens, m)
    ensures LengthLimit.Kraft(num, m) == End(lens, m)
  {
    if m > 1 {
      TallyKraft(num, lens, m - 1);
    } else {
      assert LengthLimit.Kraft(num, 0) == 0;
    }
  }

  lemma {:induction false} CountUpdate(lens: Lens, s: nat, v: nat, l: nat)
    requires s < |lens|
    ensures Count(lens[s := v], l) == Count(lens, l) - (if lens[s] == l then 1 else 0) + if v == l then 1 else 0
  {
    var n := |lens| - 1;
    if s == n {
      assert lens[s := v][..n] == lens[..n];
    } else {
      assert lens[s := v][..n] == lens[..n][s := v];
      CountUpdate(lens[..n], s, v, l);
    }
  }

  /** The room that the first `k` codes take up, in units of the longest. */
  function Spent(l: Lens, max: nat, k: nat): nat
    requires k <= |l| && UpTo(l, max)
  {
    if k == 0 then 0 else Spent(l, max, k - 1) + Pow2(max - l[k - 1])
  }

  lemma {:induction false} SpentKraft(l: Lens, max: nat, k: nat)
    requires k <= |l| && UpTo(l, max)
    ensures UpTo(l[..k], max) && Spent(l, max, k) == Kraft(l[..k], max)
  {
    if k > 0 {
      SpentKraft(l, max, k - 1);
      assert l[..k] == l[..k - 1] + [l[k - 1]];
      KraftLast(l[..k - 1], l[k - 1], max);
    }
  }

  lemma SpentTallied(num: seq<int>, l: Lens, max: nat)
    requires 0 < max && UpTo(l, max) && Positive(l) && Tallies(num, l, max)
    ensures LengthLimit.Kraft(num, max) == Spent(l, max, |l|)
  {
    hide LengthLimit.Kraft, Kraft, End, Count, Spent;
    TallyKraft(num, l, max);
    KraftEnd(l, max);
    SpentKraft(l, max, |l|);
    assert l[..|l|] == l;
  }

  lemma {:induction false} SpentSame(l: Lens, c: Lens, max: nat, a: nat, k: nat)
    requires a <= k <= |l| == |c| && UpTo(l, max) && UpTo(c, max) && forall q :: a <= q < k ==> l[q] == c[q]
    ensures Spent(l, max, k) - Spent(l, max, a) == Spent(c, max, k) - Spent(c, max, a)
  {
    hide Pow2;
    if a < k {
      SpentSame(l, c, max, a, k - 1);
    }
  }

  lemma {:induction false} SpentLongest(l: Lens, max: nat, a: nat)
    requires a <= |l| && UpTo(l, max) && forall q :: 0 <= q < a ==> l[q] == max
    ensures Spent(l, max, a) == a
  {
    if a > 0 {
      SpentLongest(l, max, a - 1);
    }
  }

  lemma {:induction false} SpentLeast(l: Lens, max: nat, k: nat)
    requires k <= |l| && UpTo(l, max)
    ensures Spent(l, max, k) >= k
  {
    if k > 0 {
      SpentLeast(l, max, k - 1);
    }
  }

  // ---------- following the steps ----------

  /**
   The first `p` of the lengths `c` may have changed, and the last of them only when the others had
   all become the limit, and the code was overfull still.
   */
  ghost predicate Reached(c: Lens, l: Lens, max: nat, p: nat) {
    && p <= |l| == |c| && UpTo(c, max) && UpTo(l, max) && Positive(c) && Positive(l) && Descending(c) && Descending(l)
    && (forall q :: p <= q < |l| ==> l[q] == c[q])
    && (p > 0 ==> c[p - 1] < max && Spent(c, max, p - 1) + Pow2(max) < p - 1 + Spent(c, max, |c|))
  }

  /** The first length below the limit is the one that is moved. */
  lemma FirstBelow(d: seq<int>, l: Lens, max: nat, i: nat) returns (a: nat)
    requires Descending(l) && UpTo(l, max) && Tallies(d, l, max) && LengthLimit.Moves(d, max, i)
    ensures 0 < a < |l| && l[a] == i && forall q :: 0 <= q < a ==> l[q] == max
  {
    hide LengthLimit.Kraft, Count;
    CountedIsIn(l, i);
    CountedIsIn(l, max);
    var k :| 0 <= k < |l| && l[k] == i;
    a := 0;
    while l[a] == max
      invariant a <= k && forall q :: 0 <= q < a ==> l[q] == max
      decreases k - a
    {
      a := a + 1;
    }
    InIsCounted(l, a);
  }

  lemma MovedTallies(d: seq<int>, l: Lens, max: nat, i: nat, a: nat)
    requires Tallies(d, l, max) && 0 < i < max && 0 < a < |l| && l[a] == i && l[a - 1] == max
    ensures Tallies(LengthLimit.Split(d[max := d[max] - 1], i), l[a - 1 := i + 1][a := i + 1], max)
  {
    var d', l' := LengthLimit.Split(d[max := d[max] - 1], i), l[a - 1 := i + 1][a := i + 1];
    forall v | 0 < v <= max
      ensures d'[v] == Count(l', v)
    {
      CountUpdate(l, a - 1, i + 1, v);
      CountUpdate(l[a - 1 := i + 1], a, i + 1, v);
    }
  }

  /** A length not touched before is only reached while there is too much left of the others. */
  lemma NewlyReached(c: Lens, l: Lens, max: nat, p: nat, a: nat)
    requires Reached(c, l, max, p) && p <= a < |l| && (forall q :: 0 <= q < a ==> l[q] == max)
    requires Spent(l, max, |l|) > Pow2(max)
    ensures Spent(c, max, a) + Pow2(max) < a + Spent(c, max, |c|)
  {
    hide Spent, Pow2;
    SpentSame(l, c, max, a, |l|);
    SpentLongest(l, max, a);
  }

  lemma Move(c: Lens, l: Lens, max: nat, p: nat, d: seq<int>, i: nat) returns (l': Lens, p': nat)
    requires Reached(c, l, max, p) && Tallies(d, l, max) && LengthLimit.Moves(d, max, i)
    ensures Reached(c, l', max, p') && Tallies(LengthLimit.Split(d[max := d[max] - 1], i), l', max)
  {
    hide Count, Spent, Pow2, LengthLimit.Kraft;
    var a := FirstBelow(d, l, max, i);
    l' := l[a - 1 := i + 1][a := i + 1];
    MovedTallies(d, l, max, i, a);
    if a < p {
      p' := p;
    } else {
      SpentTallied(d, l, max);
      NewlyReached(c, l, max, p, a);
      p' := a + 1;
    }
  }

  /** The sorted lengths behind the histogram, after all steps. */
  lemma {:induction false} Follow(c: Lens, num: seq<int>, max: nat, steps: seq<nat>) returns (l: Lens, p: nat)
    requires 0 < max && UpTo(c, max) && Positive(c) && Descending(c) && Tallies(num, c, max)
    requires LengthLimit.Legal(num, max, steps)
    ensures Reached(c, l, max, p) && Tallies(LengthLimit.After(num, max, steps), l, max)
    decreases |steps|
  {
    hide Reached, Count, LengthLimit.Kraft, Pow2;
    if steps == [] {
      l, p := c, 0;
      assert Reached(c, c, max, 0) by {
        NotReached(c, max);
      }
    } else {
      var before := steps[..|steps| - 1];
      l, p := Follow(c, num, max, before);
      l, p := Move(c, l, max, p, LengthLimit.After(num, max, before), steps[|steps| - 1]);
    }
  }

  lemma NotReached(c: Lens, max: nat)
    requires UpTo(c, max) && Positive(c) && Descending(c)
    ensures Reached(c, c, max, 0)
  {
  }

  // ---------- how far the steps reach ----------

  function Clamped(keys: Lens, max: nat): (c: Lens)
    ensures |c| == |keys| && forall q :: 0 <= q < |c| ==> c[q] == if keys[q] <= max then keys[q] else max
  {
    seq(|keys|, q requires 0 <= q < |keys| => if keys[q] <= max then keys[q] else max)
  }

  /** Cutting codes, `j` of the first `k`, takes less than one unit for each. */
  lemma {:induction false} CutSpends(keys: Lens, max: nat, m: nat, t: nat, k: nat, j: nat)
    requires k <= |keys| && max <= m && UpTo(keys, m) && forall q :: t <= q < |keys| ==> keys[q] <= max
    requires j == Least(k, t)
    ensures var unit := Pow2(m - max);
            unit * Spent(Clamped(keys, max), max, k) + j <= Spent(keys, m, k) + unit * j
  {
    var unit, c := Pow2(m - max), Clamped(keys, max);
    if k > 0 {
      hide Pow2;
      var key := keys[k - 1];
      CutSpends(keys, max, m, t, k - 1, Least(k - 1, t));
      Distribute(unit, Spent(c, max, k - 1), Pow2(max - c[k - 1]));
      if key <= max {
        Pow2Add(m - max, max - key);
      } else {
        PowerNought();
      }
      Distribute(unit, Least(k - 1, t), 1);
    }
  }

  function Least(k: nat, t: nat): nat {
    if k < t then k else t
  }

  lemma PowerNought()
    ensures Pow2(0) == 1
  {
  }

  lemma Distribute(x: int, a: int, b: int)
    ensures x * (a + b) == x * a + x * b
  {
  }

  /** What is overfull after cutting is less than the number of codes before the last that is moved. */
  lemma CutOverfull(keys: Lens, max: nat, m: nat, t: nat)
    requires max <= m && UpTo(keys, m) && t <= |keys| && forall q :: t <= q < |keys| ==> keys[q] <= max
    requires Spent(keys, m, |keys|) == Pow2(m)
    ensures Spent(Clamped(keys, max), max, |keys|) <= Pow2(max) + t
    ensures t > 0 ==> Spent(Clamped(keys, max), max, |keys|) < Pow2(max) + t
  {
    hide Spent, Pow2;
    CutSpends(keys, max, m, t, |keys|, t);
    PowerSplits(m, max);
    Divide(Pow2(m - max), Spent(Clamped(keys, max), max, |keys|), Pow2(max), t, Pow2(m));
  }

  lemma PowerSplits(m: nat, n: nat)
    requires n <= m
    ensures Pow2(m) == Pow2(m - n) * Pow2(n)
  {
    Pow2Add(m - n, n);
  }

  lemma Divide(unit: nat, x: nat, y: nat, t: nat, total: nat)
    requires unit > 0 && total == unit * y && unit * x + t <= total + unit * t
    ensures x <= y + t && (t > 0 ==> x < y + t)
  {
    Distribute(unit, y, t);
    if x > y + t {
      MulMonotone(unit, y + t + 1, x);
      Distribute(unit, y + t, 1);
    }
  }

  /** What the codes from `t` on take up is a multiple of what the longest of them does. */
  lemma {:induction false} TailMultiple(c: Lens, max: nat, t: nat, k: nat) returns (n: nat)
    requires t <= k <= |c| && UpTo(c, max) && Descending(c) && t < |c|
    ensures Spent(c, max, k) - Spent(c, max, t) == Pow2(max - c[t]) * n
  {
    if k == t {
      n := 0;
    } else {
      hide Pow2;
      var n' := TailMultiple(c, max, t, k - 1);
      var unit, more := Pow2(max - c[t]), Pow2(c[t] - c[k - 1]);
      assert Pow2(max - c[k - 1]) == unit * more by {
        Pow2Add(max - c[t], c[t] - c[k - 1]);
      }
      n := n' + more;
      Distribute(unit, n', more);
    }
  }

  /** A code that is moved was long already. */
  lemma MovedIsLong(c: Lens, max: nat, t: nat)
    requires t < |c| && UpTo(c, max) && Descending(c)
    requires Spent(c, max, t) + Pow2(max) < t + Spent(c, max, |c|) && Spent(c, max, |c|) < Pow2(max) + t
    ensures Pow2(max - c[t]) < t
  {
    hide Spent, Pow2;
    var unit := Pow2(max - c[t]);
    var n := TailMultiple(c, max, t, |c|);
    SpentLeast(c, max, t);
    Pow2Add(c[t], max - c[t]);
    var rest := Pow2(c[t]) - n;
    assert unit * rest == unit * Pow2(c[t]) - unit * n by {
      Distribute(unit, rest, n);
    }
    if rest < 1 {
      MulMonotone(unit, rest, 0);
    } else {
      MulMonotone(unit, 1, rest);
    }
  }

  // ---------- the cost ----------

  lemma {:induction false} GrownScaled(k: nat, f: nat, w: nat, b: nat)
    ensures Grown(k, f * w, f * b) == f * Grown(k, w, b)
  {
    if k > 0 {
      GrownScaled(k - 1, f, w + b, w);
      Distribute(f, w, b);
    }
  }

  /** The Fibonacci numbers outweigh the room that a code makes when it is moved down to 15 bits. */
  lemma Outweighs(k: nat)
    requires 7 <= k <= 14
    ensures 540 * (15 - k) <= Grown(k - 1, 1, 1) * (Pow2(15 - k) - 1)
  {
    Pow2Values();
    assert Grown(6, 1, 1) == 21 && Grown(7, 1, 1) == 34 && Grown(8, 1, 1) == 55 && Grown(9, 1, 1) == 89;
    assert Grown(10, 1, 1) == Grown(4, 21, 13) == 144 && Grown(11, 1, 1) == Grown(5, 21, 13) == 233;
    assert Grown(12, 1, 1) == Grown(6, 21, 13) == 377 && Grown(13, 1, 1) == Grown(7, 21, 13) == 610;
  }

  /** What one symbol loses. */
  lemma OneLoses(w: nat, key: nat, l: nat, sum: nat)
    requires key >= 7 && l <= 15 && Grown(key - 1, w, w) <= sum
    ensures 540 * (w * l) <= 540 * (w * key) + sum * (Pow2(15 - if key <= 15 then key else 15) - 1)
  {
    hide Pow2, Grown;
    PowerNought();
    if key >= 15 {
      MulMonotone(w, l, key);
    } else {
      var room := Pow2(15 - key) - 1;
      Outweighs(key);
      GrownScaled(key - 1, w, 1, 1);
      MulMonotone(w, 540 * (15 - key), Grown(key - 1, 1, 1) * room);
      MulAssoc(w, Grown(key - 1, 1, 1), room);
      MulMonotone(room, w * Grown(key - 1, 1, 1), sum);
      MulMonotone(w, l, 15);
      Distribute(w, 15 - key, key);
      assert w * (540 * (15 - key)) == 540 * (w * (15 - key));
    }
  }

  lemma LoseMore(a: nat, b: nat, a': nat, b': nat, sum: nat, x: nat, y: nat, room: nat)
    requires 540 * a + sum * x <= 540 * b + sum * y && 540 * a' <= 540 * b' + sum * (room - 1)
    ensures 540 * (a + a') + sum * (x + 1) <= 540 * (b + b') + sum * (y + room)
  {
    Distribute(sum, x, 1);
    Distribute(sum, y, room);
    Distribute(sum, room, -1);
  }

  lemma SpentNext(c: Lens, max: nat, k: nat)
    requires k < |c| && UpTo(c, max)
    ensures Spent(c, max, 0) == 0 && Spent(c, max, k + 1) == Spent(c, max, k) + Pow2(max - c[k])
  {
  }

  lemma LengthNow(c: Lens, l: Lens, max: nat, p: nat, q: nat)
    requires Reached(c, l, max, p) && q < |c|
    ensures |l| == |c| && l[q] <= max && c[q] <= max && (q >= p ==> l[q] == c[q])
  {
  }

  /** The first `k` symbols, of which `p` were touched. */
  lemma {:induction false} FirstLose(w: seq<nat>, keys: Lens, l: Lens, p: nat, k: nat)
    requires |w| == |keys| == |l| && Heavy(w, keys) && Reached(Clamped(keys, 15), l, 15, p) && k <= |keys|
    requires forall q :: 0 <= q < p && q < |keys| ==> keys[q] >= 7
    ensures var c := Clamped(keys, 15);
            540 * Cost(w[..k], l[..k]) + Sum(w) * Least(k, p) <=
            540 * Cost(w[..k], keys[..k]) + Sum(w) * Spent(c, 15, Least(k, p))
  {
    hide Sum, Grown, Pow2, Cost, Reached, Spent;
    if k == 0 {
      assert w[..0] == [] && l[..0] == [] && keys[..0] == [];
      SpentNone(Clamped(keys, 15), 15);
    } else {
      var q, c, sum := k - 1, Clamped(keys, 15), Sum(w);
      FirstLose(w, keys, l, p, q);
      LengthNow(c, l, 15, p, q);
      assert w[..k] == w[..q] + [w[q]] && l[..k] == l[..q] + [l[q]] && keys[..k] == keys[..q] + [keys[q]];
      WeightedTree.CostLast(w[..q], l[..q], w[q], l[q]);
      WeightedTree.CostLast(w[..q], keys[..q], w[q], keys[q]);
      var a, b, a', b' := Cost(w[..q], l[..q]), Cost(w[..q], keys[..q]), w[q] * l[q], w[q] * keys[q];
      if q < p {
        OneLoses(w[q], keys[q], l[q], sum);
        SpentNext(c, 15, q);
        LoseMore(a, b, a', b', sum, q, Spent(c, 15, q), Pow2(15 - c[q]));
      } else {
        MulMonotone(w[q], l[q], keys[q]);
      }
    }
  }

  lemma SpentNone(c: Lens, max: nat)
    requires UpTo(c, max)
    ensures Spent(c, max, 0) == 0
  {
  }

  lemma ReachedAt(c: Lens, l: Lens, max: nat, p: nat)
    requires Reached(c, l, max, p) && p > 0
    ensures p <= |c| && UpTo(c, max) && Descending(c) && c[p - 1] < max
    ensures Spent(c, max, p - 1) + Pow2(max) < p - 1 + Spent(c, max, |c|)
  {
  }

  /** The codes before place `p`, which were touched, made little room. */
  lemma LittleRoom(keys: Lens, l: Lens, p: nat)
    requires |keys| <= 288 && Descending(keys) && UpTo(keys, LengthLimit.MAX_SUPPORTED)
    requires Spent(keys, LengthLimit.MAX_SUPPORTED, |keys|) == Pow2(LengthLimit.MAX_SUPPORTED)
    requires Reached(Clamped(keys, 15), l, 15, p)
    ensures p <= |keys| && Spent(Clamped(keys, 15), 15, p) <= p + 2 * |keys|
    ensures forall q :: 0 <= q < p ==> keys[q] >= 7
  {
    hide Pow2, Spent, Descending;
    var c := Clamped(keys, 15);
    SpentNone(c, 15);
    if p > 0 {
      var t := p - 1;
      ReachedAt(c, l, 15, p);
      hide Reached;
      DescendingFrom(keys, t, 15);
      CutOverfull(keys, 15, LengthLimit.MAX_SUPPORTED, t);
      SpentLeast(c, 15, t);
      MovedIsLong(c, 15, t);
      LongIs(c[t]);
      SpentNext(c, 15, t);
    }
  }

  lemma DescendingFrom(keys: Lens, t: nat, max: nat)
    requires Descending(keys) && t < |keys| && Clamped(keys, max)[t] < max
    ensures Clamped(keys, max)[t] == keys[t]
    ensures (forall q :: t <= q < |keys| ==> keys[q] <= max) && (forall q :: 0 <= q <= t ==> keys[q] >= keys[t])
  {
  }

  /** The limit of 15 bits costs little. */
  lemma LimitedCost(w: seq<nat>, keys: Lens, l: Lens, p: nat)
    requires |w| == |keys| == |l| <= 288 && Heavy(w, keys) && Descending(keys) && UpTo(keys, LengthLimit.MAX_SUPPORTED)
    requires Spent(keys, LengthLimit.MAX_SUPPORTED, |keys|) == Pow2(LengthLimit.MAX_SUPPORTED)
    requires Reached(Clamped(keys, 15), l, 15, p)
    ensures 540 * Cost(w, l) <= 540 * Cost(w, keys) + 2 * |w| * Sum(w)
  {
    hide Sum, Grown, Pow2, Cost, Spent, Reached;
    LittleRoom(keys, l, p);
    FirstLose(w, keys, l, p, |w|);
    Whole(w);
    Whole(l);
    Whole(keys);
    hide *;
    LoseAll(Cost(w, l), Cost(w, keys), Sum(w), p, Spent(Clamped(keys, 15), 15, p), |w|);
  }

  lemma Whole(s: seq<nat>)
    ensures s[..|s|] == s
  {
  }

  lemma LoseAll(a: nat, b: nat, sum: nat, p: nat, x: nat, n: nat)
    requires 540 * a + sum * p <= 540 * b + sum * x && x <= p + 2 * n
    ensures 540 * a <= 540 * b + 2 * n * sum
  {
    MulMonotone(sum, x, p + 2 * n);
    Distribute(sum, p, 2 * n);
  }

  lemma LongIs(l: nat)
    requires l <= 15 && Pow2(15 - l) < 288
    ensures l >= 7
  {
    Pow2Values();
    if l < 7 {
      Pow2Monotone(9, 15 - l);
    }
  }
}
