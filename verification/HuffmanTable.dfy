/**
 One Huffman table of the compressor: `tdefl_optimize_huffman_table` of external/miniz.c.

 From the symbol counts of a block it derives code lengths and the packed codes the bit writer
 needs.  The result is stated against the canonical code of the lengths, which is all a decoder
 has to go by.
 */
module HuffmanTable {
  import opened Bits
  import opened Canonical
  import LengthLimit
  import HuffmanBound
  import HuffmanTree
  import opened LimitCost
  import MinimumRedundancy
  import opened RadixSort
  import opened SymbolList

  /** How many symbols have a code. */
  function UsedCount(lens: Lens): (n: int) {
    |lens| - Count(lens, 0)
  }

  /** What the decompressor demands of a table: a complete code, or at most one symbol. */
  predicate Acceptable(lens: Lens) {
    Fits(lens, 15) && (UsedCount(lens) <= 1 || End(lens, 15) == Pow2(15))
  }

  lemma AcceptableFits(lens: Lens)
    ensures Acceptable(lens) ==> Fits(lens, 15)
  {
  }

  // ---------- the symbols in use ----------

  function Collected(count: seq<nat>, n: nat): Syms
    requires n <= |count|
  {
    if n == 0 then []
    else Collected(count, n - 1) + if count[n - 1] > 0 then [SymFreq(count[n - 1], n - 1)] else []
  }

  lemma {:induction false} CollectedLists(count: seq<nat>, n: nat)
    requires n <= |count|
    ensures Lists(Collected(count, n), count[..n])
    ensures |Collected(count, n)| <= n
  {
    if n > 0 {
      CollectedLists(count, n - 1);
      assert count[..n] == count[..n - 1] + [count[n - 1]];
      ListsGrow(Collected(count, n - 1), count[..n - 1], count[n - 1]);
    }
  }

  lemma ListsGrow(s: Syms, count: seq<nat>, c: nat)
    requires Lists(s, count)
    ensures Lists(s + if c > 0 then [SymFreq(c, |count|)] else [], count + [c])
  {
  }

  lemma {:induction false} CollectedSum(count: seq<nat>, n: nat)
    requires n <= |count|
    ensures HuffmanTree.Sum(KeysOf(Collected(count, n))) == HuffmanTree.Sum(count[..n])
  {
    if n > 0 {
      CollectedSum(count, n - 1);
      var s, c := Collected(count, n - 1), count[n - 1];
      assert count[..n] == count[..n - 1] + [c];
      HuffmanTree.SumSplit(count[..n - 1], [c]);
      HuffmanTree.SumSplit(KeysOf(s), [c]);
      SumOne(c);
      if c > 0 {
        assert KeysOf(Collected(count, n)) == KeysOf(s) + [c];
      } else {
        assert Collected(count, n) == s;
      }
    }
  }

  lemma SumOne(x: nat)
    ensures HuffmanTree.Sum([x]) == x
  {
    assert [x][1..] == [];
  }

  lemma {:induction false} Distinct(s: Syms, x: SymFreq)
    requires forall i, j :: 0 <= i < j < |s| ==> s[i].sym != s[j].sym
    ensures multiset(s)[x] <= 1
  {
    if s != [] {
      var t := s[..|s| - 1];
      Distinct(t, x);
      assert s == t + [s[|s| - 1]];
      assert x in multiset(t) ==> x in t;
    }
  }

  lemma Twice(s: Syms, i: nat, j: nat)
    requires i < j < |s| && s[i] == s[j]
    ensures multiset(s)[s[i]] >= 2
  {
    assert s == s[..j] + s[j..];
    assert s[i] in multiset(s[..j]) && s[j] in multiset(s[j..]);
  }

  lemma ListsPermutes(s: Syms, t: Syms, count: seq<nat>)
    requires Lists(s, count) && multiset(s) == multiset(t)
    ensures Lists(t, count)
  {
    forall i | 0 <= i < |t|
      ensures t[i].sym < |count| && t[i].key == count[t[i].sym] > 0
    {
      assert t[i] in multiset(t);
      assert t[i] in s;
    }
    forall i, j | 0 <= i < j < |t|
      ensures t[i].sym != t[j].sym
    {
      if t[i].sym == t[j].sym {
        assert t[i] == t[j];
        Distinct(s, t[i]);
        Twice(t, i, j);
      }
    }
    forall k | 0 <= k < |count| && count[k] > 0
      ensures SymFreq(count[k], k) in t
    {
      assert SymFreq(count[k], k) in multiset(s);
    }
  }

  lemma {:induction false} SumPermutes(s: Syms, t: Syms)
    requires multiset(s) == multiset(t)
    ensures HuffmanTree.Sum(KeysOf(s)) == HuffmanTree.Sum(KeysOf(t))
  {
    if s == [] {
      assert |multiset(t)| == 0;
    } else {
      assert s[0] in multiset(t);
      var k :| 0 <= k < |t| && t[k] == s[0];
      RemoveOne(s, t, k);
      SumPermutes(s[1..], t[..k] + t[k + 1..]);
      SumWithout(KeysOf(t), k);
      assert KeysOf(t[..k] + t[k + 1..]) == KeysOf(t)[..k] + KeysOf(t)[k + 1..];
      assert KeysOf(s)[1..] == KeysOf(s[1..]);
    }
  }

  lemma RemoveOne(s: Syms, t: Syms, k: nat)
    requires multiset(s) == multiset(t) && k < |t| && s != [] && t[k] == s[0]
    ensures multiset(s[1..]) == multiset(t[..k] + t[k + 1..])
  {
    var rest, one := t[..k] + t[k + 1..], multiset([s[0]]);
    assert s == [s[0]] + s[1..];
    assert t == t[..k] + [t[k]] + t[k + 1..];
    assert multiset(s) == one + multiset(s[1..]);
    assert multiset(t) == multiset(t[..k]) + one + multiset(t[k + 1..]);
    assert multiset(rest) == multiset(t[..k]) + multiset(t[k + 1..]);
    assert multiset(s[1..]) == multiset(s) - one == multiset(t) - one == multiset(rest);
  }

  lemma SumWithout(a: seq<nat>, k: nat)
    requires k < |a|
    ensures HuffmanTree.Sum(a) == a[k] + HuffmanTree.Sum(a[..k] + a[k + 1..])
  {
    HuffmanTree.SumSplit(a[..k], a[k..]);
    HuffmanTree.SumSplit(a[..k], a[k + 1..]);
    HuffmanTree.SumHead(a, k);
    assert a == a[..k] + a[k..];
  }

  // ---------- lengths and their histogram ----------

  lemma {:induction false} TallyCodes(num: seq<int>, lens: Lens, m: nat)
    requires m < |num| && forall l :: 0 < l <= m ==> num[l] == Count(lens, l)
    ensures LengthLimit.Codes(num, 0, m) == CountUpTo(lens, m)
  {
    if m > 0 {
      TallyCodes(num, lens, m - 1);
    }
  }

  function CountUpTo(lens: Lens, m: nat): nat {
    if m == 0 then 0 else CountUpTo(lens, m - 1) + Count(lens, m)
  }

  lemma {:induction false} CountAll(lens: Lens, m: nat)
    requires forall i :: 0 <= i < |lens| ==> lens[i] <= m
    ensures CountUpTo(lens, m) == UsedCount(lens)
  {
    if lens == [] {
      CountUpToNil(m);
    } else {
      CountAll(lens[..|lens| - 1], m);
      CountUpToLast(lens, m);
    }
  }

  lemma {:induction false} CountUpToNil(m: nat)
    ensures CountUpTo([], m) == 0
  {
    if m > 0 {
      CountUpToNil(m - 1);
    }
  }

  lemma {:induction false} CountUpToLast(lens: Lens, m: nat)
    requires lens != []
    ensures var last := lens[|lens| - 1];
            CountUpTo(lens, m) == CountUpTo(lens[..|lens| - 1], m) + if 0 < last <= m then 1 else 0
  {
    if m > 0 {
      CountUpToLast(lens, m - 1);
    }
  }

  lemma {:induction false} CountUpToAll(lens: Lens, m: nat)
    requires forall j :: 0 <= j < |lens| ==> 0 < lens[j] <= m
    ensures CountUpTo(lens, m) == |lens|
  {
    if lens == [] {
      CountUpToNil(m);
    } else {
      CountUpToLast(lens, m);
      CountUpToAll(lens[..|lens| - 1], m);
    }
  }

  /** A complete code stays complete when longer lengths are allowed. */
  lemma {:induction false} CompleteLonger(lens: Lens, max: nat, m: nat)
    requires Complete(lens, max) && max <= m
    ensures Complete(lens, m)
  {
    if max < m {
      CompleteLonger(lens, max, m - 1);
      CountAbsent(lens, m);
    }
  }

  lemma {:induction false} FitsLonger(lens: Lens, max: nat, m: nat)
    requires Fits(lens, max) && max <= m
    ensures Fits(lens, m)
  {
    if max < m {
      FitsLonger(lens, max, m - 1);
      CountAbsent(lens, m);
    }
  }

  /** At most one code fits, complete or not. */
  lemma {:induction false} EndBound(lens: Lens, l: nat)
    requires l > 0
    ensures End(lens, l) <= CountUpTo(lens, l) * Pow2(l)
  {
    if l > 1 {
      EndBound(lens, l - 1);
      EndStep(End(lens, l - 1), CountUpTo(lens, l - 1), Count(lens, l), Pow2(l - 1));
    } else {
      assert CountUpTo(lens, 0) == 0;
    }
  }

  lemma EndStep(end: nat, upTo: nat, c: nat, p: nat)
    requires end <= upTo * p && p > 0
    ensures 2 * end + c <= (upTo + c) * (2 * p)
  {
    assert (upTo + c) * (2 * p) == 2 * (upTo * p) + c * (2 * p);
    MulMonotone(c, 1, 2 * p);
  }

  /** The lengths a histogram was spread over are acceptable to a decoder. */
  lemma SpreadAcceptable(num: seq<int>, lens: Lens, limit: nat, n: nat)
    requires 0 < limit <= 15 && Tallies(num, lens, limit) && LengthLimit.Codes(num, 0, limit) == n
    requires forall i :: 0 <= i < |lens| ==> lens[i] <= limit
    requires n > 1 ==> LengthLimit.Kraft(num, limit) == Pow2(limit)
    ensures Fits(lens, limit) && Acceptable(lens)
  {
    TallyKraft(num, lens, limit);
    TallyCodes(num, lens, limit);
    CountAll(lens, limit);
    if n > 1 {
      CompleteLonger(lens, limit, 15);
    } else {
      EndBound(lens, limit);
      MulMonotone(Pow2(limit), CountUpTo(lens, limit), 1);
      FitsLonger(lens, limit, 15);
    }
  }

  // ---------- the steps ----------

  method Collect(count: array<nat>) returns (syms: array<SymFreq>, n: nat)
    requires count.Length <= 288
    ensures fresh(syms) && syms.Length == 288 && n <= count.Length
    ensures syms[..n] == Collected(count[..], count.Length)
  {
    syms := new SymFreq[288](_ => SymFreq(0, 0));
    n := 0;
    var i := 0;
    while i < count.Length
      invariant 0 <= i <= count.Length && n <= i
      invariant syms[..n] == Collected(count[..], i)
    {
      if count[i] > 0 {
        syms[n] := SymFreq(count[i], i);
        n := n + 1;
      }
      i := i + 1;
    }
  }

  method SortSyms(syms0: array<SymFreq>, n: nat, ghost count: seq<nat>) returns (syms: array<SymFreq>)
    requires syms0.Length == 288 && n <= |count| <= 288 && syms0[..n] == Collected(count, |count|)
    requires HuffmanTree.Sum(count) < 65536
    modifies syms0
    ensures (syms == syms0 || fresh(syms)) && syms.Length == 288
    ensures Lists(syms[..n], count) && Measurable(KeysOf(syms[..n]))
    ensures HuffmanTree.Sum(KeysOf(syms[..n])) == HuffmanTree.Sum(count)
  {
    SortedLists(syms0[..n], count);
    hide *;
    var syms1 := new SymFreq[288](_ => SymFreq(0, 0));
    syms := RadixSortSyms(n, syms0, syms1);
  }

  ghost predicate Measurable(keys: seq<nat>) {
    HuffmanTree.Ascending(keys) && HuffmanTree.Positive(keys) && HuffmanTree.Sum(keys) < 65536
  }

  /** A code length for each symbol; the result is the `m_key` column of the sorted array. */
  method Measure(syms: array<SymFreq>, n: nat) returns (keys: array<nat>)
    requires n <= syms.Length == 288 && Measurable(KeysOf(syms[..n]))
    ensures fresh(keys) && keys.Length == 288
    ensures Measured(keys[..n])
    ensures HuffmanTree.Minimal(KeysOf(syms[..n]), keys[..n]) && HuffmanTree.Grows(KeysOf(syms[..n]), keys[..n])
    ensures HuffmanTree.Heavy(KeysOf(syms[..n]), keys[..n])
    ensures HuffmanTree.Descending(keys[..n])
  {
    hide HuffmanTree.Minimal, HuffmanTree.Grows, HuffmanTree.Heavy;
    keys := KeyColumn(syms, n);
    ghost var max := MinimumRedundancy.CalculateMinimumRedundancy(keys, n);
    MeasuredAt(keys[..n], max);
  }

  /** What measuring guarantees of the lengths. */
  ghost predicate Measured(keys: Lens) {
    && (|keys| == 1 ==> keys[0] == 1) && (|keys| >= 2 ==> Complete(keys, 22))
    && AtMost(keys, LengthLimit.MAX_SUPPORTED) && HuffmanTree.Positive(keys)
  }

  predicate AtMost(lens: Lens, m: nat) {
    forall i :: 0 <= i < |lens| ==> lens[i] <= m
  }

  lemma MeasuredAtMost(keys: Lens)
    requires Measured(keys)
    ensures AtMost(keys, LengthLimit.MAX_SUPPORTED)
  {
  }

  lemma MeasuredAt(keys: Lens, max: nat)
    requires (|keys| == 1 ==> keys[0] == 1) && (|keys| >= 2 ==> Complete(keys, max) && max <= 22)
    requires HuffmanTree.Positive(keys)
    ensures Measured(keys)
  {
    if |keys| >= 2 {
      CompleteLonger(keys, max, 22);
    }
  }

  method KeyColumn(syms: array<SymFreq>, n: nat) returns (keys: array<nat>)
    requires n <= syms.Length == 288
    ensures fresh(keys) && keys.Length == 288 && keys[..n] == KeysOf(syms[..n])
  {
    keys := new nat[288](_ => 0);
    var i := 0;
    while i < n
      invariant 0 <= i <= n
      invariant forall k :: 0 <= k < i ==> keys[k] == syms[k].key
    {
      keys[i] := syms[i].key;
      i := i + 1;
    }
  }

  lemma SortedLists(s: Syms, count: seq<nat>)
    requires s == Collected(count, |count|) && HuffmanTree.Sum(count) < 65536
    ensures Lists(Sorted(s), count) && |Sorted(s)| == |s|
    ensures Measurable(KeysOf(Sorted(s))) && HuffmanTree.Sum(KeysOf(Sorted(s))) == HuffmanTree.Sum(count)
  {
    assert count[..|count|] == count;
    CollectedLists(count, |count|);
    CollectedSum(count, |count|);
    forall i | 0 <= i < |s|
      ensures s[i].key < 65536
    {
      SumWithout(KeysOf(s), i);
    }
    SortedIsSorted(s);
    ListsPermutes(s, Sorted(s), count);
    SumPermutes(s, Sorted(s));
  }

  /** Tallies code lengths; the array has room for lengths up to 32. */
  method LengthHistogram(keys: array<nat>, n: nat) returns (num: array<int>)
    requires n <= keys.Length && AtMost(keys[..n], LengthLimit.MAX_SUPPORTED)
    ensures fresh(num) && num.Length == LengthLimit.MAX_SUPPORTED + 1
    ensures LengthLimit.Counts(num[..]) && Tallies(num[..], keys[..n], LengthLimit.MAX_SUPPORTED)
    ensures num[0] == Count(keys[..n], 0)
  {
    num := new int[LengthLimit.MAX_SUPPORTED + 1](_ => 0);
    var i := 0;
    while i < n
      invariant 0 <= i <= n
      invariant forall l :: 0 <= l <= LengthLimit.MAX_SUPPORTED ==> num[l] == Count(keys[..i], l)
    {
      assert keys[..i + 1][..i] == keys[..i] && keys[i] == keys[..n][i];
      num[keys[i]] := num[keys[i]] + 1;
      i := i + 1;
    }
  }

  /** The first code of each length. */
  method FirstCodes(num: array<int>, ghost lens: Lens, limit: nat) returns (nextCode: array<nat>)
    requires num.Length == LengthLimit.MAX_SUPPORTED + 1 && 0 < limit <= 15
    requires Tallies(num[..], lens, limit)
    ensures fresh(nextCode) && nextCode.Length == LengthLimit.MAX_SUPPORTED + 1
    ensures forall m :: 0 < m <= limit ==> nextCode[m] == First(lens, m)
  {
    nextCode := new nat[LengthLimit.MAX_SUPPORTED + 1](_ => 0);
    var i, j: nat := 2, 0;
    while i <= limit
      invariant 2 <= i <= limit + 1
      invariant j == First(lens, i - 1)
      invariant forall m :: 0 < m < i ==> nextCode[m] == First(lens, m)
    {
      assert num[..][i - 1] == Count(lens, i - 1);
      j := Shl(j + num[i - 1], 1);
      nextCode[i] := j;
      i := i + 1;
    }
  }

  lemma PackedFits(lens: Lens, s: nat, limit: nat)
    requires Fits(lens, limit) && Used(lens, s) && limit <= 15
    ensures FromBits(CodeBits(lens, s)) < 65536
  {
    Pow2Monotone(lens[s], 15);
    Pow2Values();
  }

  /**
   The symbols before `j` still have no length; the others got theirs in order, so that lengths
   below `i` are used up, `l` more codes of length `i` are to come, and longer ones are untouched.
   */
  ghost predicate Spread(sizes: Lens, s: Syms, count: seq<nat>, num: seq<int>, limit: nat, i: nat, l: int, j: nat) {
    && Lists(s, count) && |sizes| == |count| && 0 < i <= limit < |num| && LengthLimit.Counts(num) && 0 <= l
    && j == l + LengthLimit.Codes(num, i, limit) <= |s|
    && (forall p :: j <= p < |s| ==> 0 < sizes[s[p].sym] <= limit)
    && (forall p :: 0 <= p < j ==> sizes[s[p].sym] == 0)
    && (forall p :: j <= p < |s| ==> sizes[s[p].sym] <= i)
    && (forall p, q :: j <= p < q < |s| ==> sizes[s[p].sym] >= sizes[s[q].sym])
    && (forall k :: 0 <= k < |count| && count[k] == 0 ==> sizes[k] == 0)
    && (forall m :: 0 < m <= limit ==> Count(sizes, m) == if m < i then num[m] else if m == i then num[m] - l else 0)
  }

  lemma {:induction false} CodesNonneg(num: seq<int>, i: nat, m: nat)
    requires LengthLimit.Counts(num) && i <= m < |num|
    ensures LengthLimit.Codes(num, i, m) >= 0
  {
    if i < m {
      CodesNonneg(num, i, m - 1);
    }
  }

  lemma StartSpread(sizes: Lens, s: Syms, count: seq<nat>, num: seq<int>, limit: nat)
    requires Lists(s, count) && |sizes| == |count| && 0 < limit < |num| && LengthLimit.Counts(num)
    requires LengthLimit.Codes(num, 0, limit) == |s|
    requires forall k :: 0 <= k < |sizes| ==> sizes[k] == 0
    ensures Spread(sizes, s, count, num, limit, 1, num[1], |s|)
  {
    LengthLimit.CodesSplit(num, 1, limit);
    assert LengthLimit.Codes(num, 0, 1) == LengthLimit.Codes(num, 0, 0) + num[1];
    forall m | 0 < m <= limit
      ensures Count(sizes, m) == 0
    {
      CountAbsent(sizes, m);
    }
  }

  lemma OtherSymbols(s: Syms, count: seq<nat>, j: nat)
    requires Lists(s, count) && j < |s|
    ensures forall p :: 0 <= p < |s| && p != j ==> s[p].sym != s[j].sym
  {
    forall p | 0 <= p < |s| && p != j
      ensures s[p].sym != s[j].sym
    {
      if p < j {
        assert s[p].sym != s[j].sym;
      } else {
        assert s[j].sym != s[p].sym;
      }
    }
  }

  lemma SpreadOne(sizes: Lens, s: Syms, count: seq<nat>, num: seq<int>, limit: nat, i: nat, l: int, j: nat)
    requires Spread(sizes, s, count, num, limit, i, l, j) && l > 0
    ensures 0 < j <= |s| && s[j - 1].sym < |sizes|
    ensures Spread(sizes[s[j - 1].sym := i], s, count, num, limit, i, l - 1, j - 1)
  {
    hide Count;
    CodesNonneg(num, i, limit);
    var k := s[j - 1].sym;
    OtherSymbols(s, count, j - 1);
    var sizes' := sizes[k := i];
    forall m | 0 < m <= limit
      ensures Count(sizes', m) == if m < i then num[m] else if m == i then num[m] - (l - 1) else 0
    {
      CountUpdate(sizes, k, i, m);
    }
    assert forall p :: j - 1 <= p < |s| ==> 0 < sizes'[s[p].sym] <= limit;
    assert forall p :: 0 <= p < j - 1 ==> sizes'[s[p].sym] == 0;
    assert forall q :: 0 <= q < |count| && count[q] == 0 ==> sizes'[q] == 0;
  }

  lemma SpreadNonneg(sizes: Lens, s: Syms, count: seq<nat>, num: seq<int>, limit: nat, i: nat, l: int, j: nat)
    requires Spread(sizes, s, count, num, limit, i, l, j)
    ensures 0 <= l
  {
  }

  lemma NextSpread(sizes: Lens, s: Syms, count: seq<nat>, num: seq<int>, limit: nat, i: nat, j: nat)
    requires Spread(sizes, s, count, num, limit, i, 0, j) && i < limit
    ensures Spread(sizes, s, count, num, limit, i + 1, num[i + 1], j)
  {
    LengthLimit.CodesSplit(num, i, limit);
    LengthLimit.CodesSplit(num, i + 1, limit);
  }

  lemma EndSpread(sizes: Lens, s: Syms, count: seq<nat>, num: seq<int>, limit: nat, j: nat)
    requires Spread(sizes, s, count, num, limit, limit, 0, j) && limit <= 15
    requires LengthLimit.Codes(num, 0, limit) == |s|
    requires |s| > 1 ==> LengthLimit.Kraft(num, limit) == Pow2(limit)
    ensures Tallies(num, sizes, limit) && Fits(sizes, limit) && Acceptable(sizes)
    ensures forall k :: 0 <= k < |sizes| ==> (sizes[k] > 0 <==> count[k] > 0)
    ensures HuffmanTree.Descending(LensOf(s, sizes))
  {
    assert j == 0;
    forall k | 0 <= k < |sizes|
      ensures sizes[k] > 0 <==> count[k] > 0
      ensures sizes[k] <= limit
    {
      if count[k] > 0 {
        var p :| 0 <= p < |s| && s[p] == SymFreq(count[k], k);
      }
    }
    SpreadAcceptable(num, sizes, limit, |s|);
  }

  // ---------- why the table is best ----------

  lemma {:induction false} NoneCut(num: seq<int>, keys: Lens, limit: nat, m: nat)
    requires limit <= m < |num| && Tallies(num, keys, |num| - 1) && forall i :: 0 <= i < |keys| ==> keys[i] <= limit
    ensures LengthLimit.Codes(num, limit, m) == 0
    decreases m
  {
    if limit < m {
      NoneCut(num, keys, limit, m - 1);
      CountAbsent(keys, m);
    }
  }

  /** The lengths as measured and the lengths as given out, when none had to be cut. */
  lemma SameCounts(s: Syms, count: seq<nat>, keys: Lens, sizes: Lens, num: seq<int>, limit: nat, v: nat)
    requires Lists(s, count) && |sizes| == |count| && Tallies(num, keys, limit) && Tallies(num, sizes, limit)
    requires (forall i :: 0 <= i < |keys| ==> 0 < keys[i] <= limit)
    requires (forall k :: 0 <= k < |sizes| ==> sizes[k] <= limit)
    requires forall k :: 0 <= k < |count| ==> (sizes[k] > 0 <==> count[k] > 0)
    ensures Count(keys, v) == Count(LensOf(s, sizes), v)
  {
    if v == 0 || v > limit {
      CountAbsent(keys, v);
      CountAbsent(LensOf(s, sizes), v);
    } else {
      ListCount(s, count, sizes, v);
    }
  }

  lemma BestTable(s: Syms, count: seq<nat>, keys: Lens, sizes: Lens, was: seq<int>, num: seq<int>, limit: nat)
    requires Lists(s, count) && |keys| == |s| && |sizes| == |count| && 0 < limit <= 15
    requires |was| == LengthLimit.MAX_SUPPORTED + 1
    requires Measured(keys) && HuffmanTree.Minimal(KeysOf(s), keys) && HuffmanTree.Descending(keys)
    requires AtMost(keys, limit)
    requires Tallies(was, keys, LengthLimit.MAX_SUPPORTED) && Tallies(num, sizes, limit)
    requires LengthLimit.Codes(was, limit, LengthLimit.MAX_SUPPORTED) == 0 ==> num == was
    requires Fits(sizes, limit) && (forall k :: 0 <= k < |count| ==> (sizes[k] > 0 <==> count[k] > 0))
    requires HuffmanTree.Descending(LensOf(s, sizes))
    ensures BestSizes(count, sizes)
  {
    hide HuffmanTree.Minimal, HuffmanTree.Descending, Lists, Complete, End;
    NoneCut(was, keys, limit, LengthLimit.MAX_SUPPORTED);
    Listed(s, count);
    forall v
      ensures Count(keys, v) == Count(LensOf(s, sizes), v)
    {
      SameCounts(s, count, keys, sizes, num, limit, v);
    }
    SameLengths(keys, LensOf(s, sizes));
    BestForAll(s, count, sizes);
  }

  // ---------- and why it is nearly best when it was cut ----------

  lemma {:induction false} ClampedBelow(keys: Lens, max: nat, m: nat)
    requires m < max
    ensures CountUpTo(Clamped(keys, max), m) == CountUpTo(keys, m)
  {
    if m > 0 {
      ClampedBelow(keys, max, m - 1);
      ClampedCount(keys, max, m);
    }
  }

  lemma {:induction false} ClampedCount(keys: Lens, max: nat, v: nat)
    requires v < max
    ensures Count(Clamped(keys, max), v) == Count(keys, v)
  {
    if keys != [] {
      var n := |keys| - 1;
      assert Clamped(keys, max)[..n] == Clamped(keys[..n], max);
      ClampedCount(keys[..n], max, v);
    }
  }

  /** The histogram of the lengths as they are cut. */
  lemma ClampedTallies(was: seq<int>, keys: Lens, max: nat)
    requires |was| == LengthLimit.MAX_SUPPORTED + 1 && 0 < max < LengthLimit.MAX_SUPPORTED
    requires HuffmanTree.Positive(keys) && AtMost(keys, LengthLimit.MAX_SUPPORTED)
    requires Tallies(was, keys, LengthLimit.MAX_SUPPORTED)
    ensures Tallies(LengthLimit.Cut(was, max), Clamped(keys, max), max)
  {
    hide LengthLimit.Codes, CountUpTo, Count;
    var c, m := Clamped(keys, max), LengthLimit.MAX_SUPPORTED;
    forall v | 0 < v < max
      ensures was[v] == Count(c, v)
    {
      ClampedCount(keys, max, v);
    }
    ClampedBelow(keys, max, max - 1);
    CountUpToAll(keys, m);
    CountUpToAll(c, max);
    TallyCodes(was, keys, m);
    TallyCodes(was, keys, max);
    LengthLimit.CodesSplit(was, max, m);
    CountUpToNext(keys, max);
    CountUpToNext(c, max);
  }

  lemma CountUpToNext(lens: Lens, m: nat)
    requires m > 0
    ensures CountUpTo(lens, m) == CountUpTo(lens, m - 1) + Count(lens, m)
  {
  }

  /** A complete code takes up all the room there is. */
  lemma MeasuredSpends(keys: Lens)
    requires Measured(keys) && |keys| >= 2
    ensures HuffmanBound.UpTo(keys, LengthLimit.MAX_SUPPORTED)
    ensures Spent(keys, LengthLimit.MAX_SUPPORTED, |keys|) == Pow2(LengthLimit.MAX_SUPPORTED)
  {
    hide HuffmanBound.Kraft, Spent, End, Pow2;
    var m := LengthLimit.MAX_SUPPORTED;
    CompleteLonger(keys, 22, m);
    HuffmanBound.KraftEnd(keys, m);
    SpentKraft(keys, m, |keys|);
    Whole(keys);
  }

  /** What was measured, and what limiting made of it. */
  ghost predicate Limited(keys: Lens, was: seq<int>, num: seq<int>, steps: seq<nat>) {
    && |was| == |num| == LengthLimit.MAX_SUPPORTED + 1
    && Measured(keys) && HuffmanTree.Descending(keys) && Tallies(was, keys, LengthLimit.MAX_SUPPORTED)
    && (|keys| > 1 ==> LengthLimit.Legal(LengthLimit.Cut(was, 15), 15, steps))
    && (|keys| > 1 ==> num == LengthLimit.After(LengthLimit.Cut(was, 15), 15, steps))
  }

  /** The lengths that are given out, found again by following the steps. */
  lemma GivenLengths(s: Syms, count: seq<nat>, keys: Lens, sizes: Lens, was: seq<int>, num: seq<int>, steps: seq<nat>)
    returns (p: nat)
    requires Lists(s, count) && |keys| == |s| && |sizes| == |count| && Limited(keys, was, num, steps) && |keys| > 1
    requires Tallies(num, sizes, 15) && AtMost(sizes, 15) && HuffmanTree.Descending(LensOf(s, sizes))
    requires forall k :: 0 <= k < |count| ==> (sizes[k] > 0 <==> count[k] > 0)
    ensures Reached(Clamped(keys, 15), LensOf(s, sizes), 15, p)
  {
    hide Lists, LengthLimit.Legal, LengthLimit.After, LengthLimit.Cut, Complete, Spent, Count;
    var c := Clamped(keys, 15);
    Listed(s, count);
    ClampedTallies(was, keys, 15);
    var l;
    l, p := Follow(c, LengthLimit.Cut(was, 15), 15, steps);
    forall v
      ensures Count(l, v) == Count(LensOf(s, sizes), v)
    {
      SameCounts(s, count, l, sizes, num, 15, v);
    }
    SameLengths(l, LensOf(s, sizes));
  }

  lemma NearTable(s: Syms, count: seq<nat>, keys: Lens, sizes: Lens, was: seq<int>, num: seq<int>, steps: seq<nat>)
    requires Lists(s, count) && |keys| == |s| <= |count| == |sizes| <= 288 && Limited(keys, was, num, steps)
    requires !AtMost(keys, 15) && HuffmanTree.Minimal(KeysOf(s), keys) && HuffmanTree.Heavy(KeysOf(s), keys)
    requires HuffmanTree.Sum(KeysOf(s)) == HuffmanTree.Sum(count)
    requires Tallies(num, sizes, 15) && Fits(sizes, 15) && HuffmanTree.Descending(LensOf(s, sizes))
    requires forall k :: 0 <= k < |count| ==> (sizes[k] > 0 <==> count[k] > 0)
    ensures NearBest(count, sizes)
  {
    hide Lists, HuffmanTree.Minimal, HuffmanTree.Heavy, HuffmanTree.Sum, HuffmanBound.Cost, Tallies, Spent;
    hide Pow2, Reached;
    hide Limited, Measured, AtMost, Fits, HuffmanTree.Descending;
    FitsAtMost(sizes);
    LimitedIs(keys, was, num, steps);
    var p := GivenLengths(s, count, keys, sizes, was, num, steps);
    MeasuredSpends(keys);
    Listed(s, count);
    LimitedCost(KeysOf(s), keys, LensOf(s, sizes), p);
    ListCost(s, count, sizes);
    FewerSymbols(HuffmanTree.Sum(count), |s|, |count|);
    forall l: Lens, m: nat | Serves(l, count) && Fits(l, m)
      ensures 540 * HuffmanBound.Cost(count, sizes) <=
              540 * HuffmanBound.Cost(count, l) + 2 * |count| * HuffmanTree.Sum(count)
    {
      NoBetter(s, count, keys, l, m);
    }
  }

  lemma FewerSymbols(sum: nat, m: nat, n: nat)
    requires m <= n
    ensures 2 * m * sum <= 2 * n * sum
  {
    MulMonotone(sum, 2 * m, 2 * n);
  }

  lemma LimitedIs(keys: Lens, was: seq<int>, num: seq<int>, steps: seq<nat>)
    requires Limited(keys, was, num, steps) && !AtMost(keys, 15)
    ensures |keys| > 1 && Measured(keys) && HuffmanTree.Descending(keys)
  {
  }

  lemma FitsAtMost(sizes: Lens)
    requires Fits(sizes, 15)
    ensures AtMost(sizes, 15)
  {
  }

  lemma BestIsNear(count: seq<nat>, sizes: Lens)
    requires BestSizes(count, sizes)
    ensures NearBest(count, sizes)
  {
    hide HuffmanBound.Cost, HuffmanTree.Sum, Fits, Serves;
    MulMonotone(HuffmanTree.Sum(count), 0, 2 * |count|);
  }

  lemma WithinLimit(s: Syms, keys: Lens, limit: nat)
    requires 0 < limit && HuffmanTree.Grows(KeysOf(s), keys)
    requires HuffmanTree.Sum(KeysOf(s)) < HuffmanTree.Grown(limit, 2, 1)
    ensures AtMost(keys, limit)
  {
    HuffmanTree.ShortEnough(KeysOf(s), keys, limit);
  }

  // ---------- the table ----------

  class HuffTable {
    const limit: nat              // the longest code allowed
    const count: array<nat>       // m_huff_count[table_num]
    const codes: array<nat>       // m_huff_codes[table_num]
    const sizes: array<nat>       // m_huff_code_sizes[table_num]

    ghost function Arrays(): set<object> {
      {count, codes, sizes}
    }

    ghost predicate Valid() {
      && 0 < limit <= 15 && sizes.Length <= 288 && sizes.Length <= Pow2(limit)
      && count.Length == codes.Length == sizes.Length
      && count != codes && codes != sizes && sizes != count
    }

    constructor (tableLen: nat, limit: nat)
      requires 0 < limit <= 15 && tableLen <= 288 && tableLen <= Pow2(limit)
      ensures Valid() && fresh(count) && fresh(codes) && fresh(sizes)
      ensures this.limit == limit && sizes.Length == tableLen
      ensures forall s :: 0 <= s < tableLen ==> count[s] == 0
    {
      this.limit := limit;
      count := new nat[tableLen](_ => 0);
      codes := new nat[tableLen](_ => 0);
      sizes := new nat[tableLen](_ => 0);
    }

    /** The lengths fit and every code is packed as the canonical code of its symbol. */
    ghost predicate Ready()
      reads codes, sizes
    {
      && codes.Length == sizes.Length
      && Fits(sizes[..], limit)
      && forall s :: 0 <= s < sizes.Length && sizes[s] > 0 ==> codes[s] == FromBits(CodeBits(sizes[..], s))
    }

    /**
     The dynamic table: lengths of least redundancy for the counts, cut to the limit.  `s` lists the
     symbols by rising count and `measured` the lengths before the cut.  If none of them is over the
     limit, no prefix code of any length takes fewer bits than the table; with a total below the
     Fibonacci number that belongs to the limit (2584 for 15 bits, 55 for 7 bits) none is.  With the
     limit of 15 bits the table is never far from the best.
     */
    method Optimize() returns (ghost s: Syms, ghost measured: Lens)
      requires Valid() && HuffmanTree.Sum(count[..]) < 65536
      modifies sizes, codes
      ensures Ready() && Acceptable(sizes[..])
      ensures forall s :: 0 <= s < sizes.Length ==> (sizes[s] > 0 <==> count[s] > 0)
      ensures limit == 15 ==> NearBest(count[..], sizes[..])
      ensures Lists(s, count[..]) && |measured| == |s| && HuffmanTree.Minimal(KeysOf(s), measured)
      ensures AtMost(measured, limit) ==> BestSizes(count[..], sizes[..])
      ensures HuffmanTree.Sum(count[..]) < HuffmanTree.Grown(limit, 2, 1) ==> AtMost(measured, limit)
    {
      hide HuffmanTree.Grown, HuffmanTree.Grows, HuffmanTree.Minimal, HuffmanTree.Descending, LensOf, BestSizes;
      hide HuffmanTree.Sum, HuffmanTree.Positive, Lists, Tallies, Fits, Complete, Acceptable, Count, Collected;
      hide LengthLimit.Kraft, LengthLimit.Codes, Ready, AtMost, Measured, Measurable, KeysOf, NearBest;
      hide HuffmanTree.Heavy, Limited;
      var syms0, n := Collect(count);
      var syms := SortSyms(syms0, n, count[..]);
      var keys := Measure(syms, n);
      var num;
      ghost var was, steps;
      num, was, steps := CutHistogram(keys, n, limit);
      GiveLengths(syms, n, num);
      AssignCodes(num);
      s, measured := syms[..n], keys[..n];
      if AtMost(measured, limit) {
        BestTable(s, count[..], measured, sizes[..], was, num[..], limit);
        BestIsNear(count[..], sizes[..]);
      } else if limit == 15 {
        NearTable(s, count[..], measured, sizes[..], was, num[..], steps);
      }
      if HuffmanTree.Sum(count[..]) < HuffmanTree.Grown(limit, 2, 1) {
        WithinLimit(s, measured, limit);
      }
    }

    /** The static table: the lengths are given. */
    method OptimizeStatic()
      requires Valid() && Fits(sizes[..], limit)
      modifies codes
      ensures Ready()
    {
      var num := LengthHistogram(sizes, sizes.Length);
      assert sizes[..sizes.Length] == sizes[..];
      AssignCodes(num);
    }

    /** Hands the lengths out to the sorted symbols, shortest to the most frequent. */
    method GiveLengths(syms: array<SymFreq>, n: nat, num: array<int>)
      requires Valid() && n <= syms.Length && Lists(syms[..n], count[..])
      requires num.Length == LengthLimit.MAX_SUPPORTED + 1 && LengthLimit.Counts(num[..])
      requires LengthLimit.Codes(num[..], 0, limit) == n
      requires n > 1 ==> LengthLimit.Kraft(num[..], limit) == Pow2(limit)
      requires num as object != sizes && num as object != codes
      modifies sizes, codes
      ensures Tallies(num[..], sizes[..], limit) && Fits(sizes[..], limit) && Acceptable(sizes[..])
      ensures forall s :: 0 <= s < sizes.Length ==> (sizes[s] > 0 <==> count[s] > 0)
      ensures HuffmanTree.Descending(LensOf(syms[..n], sizes[..]))
    {
      ghost var s, c, d := syms[..n], count[..], num[..];
      forall k | 0 <= k < sizes.Length {
        sizes[k] := 0;
      }
      forall k | 0 <= k < codes.Length {
        codes[k] := 0;
      }
      StartSpread(sizes[..], s, c, d, limit);
      hide Spread;
      var i, j := 1, n;
      while i <= limit
        invariant 1 <= i <= limit + 1 && num[..] == d && syms[..n] == s
        invariant if i <= limit then Spread(sizes[..], s, c, d, limit, i, d[i], j) else
                  Spread(sizes[..], s, c, d, limit, limit, 0, j)
      {
        j := GiveLength(syms, n, c, d, num[i], i, j);
        if i < limit {
          NextSpread(sizes[..], s, c, d, limit, i, j);
        }
        i := i + 1;
      }
      EndSpread(sizes[..], s, c, d, limit, j);
    }

    /** Gives length `i` to the `l` symbols before `j`. */
    method GiveLength(syms: array<SymFreq>, n: nat, ghost c: seq<nat>, ghost d: seq<int>, num: int, i: nat, j: nat)
      returns (j': nat)
      requires Valid() && n <= syms.Length
      requires Spread(sizes[..], syms[..n], c, d, limit, i, num, j)
      modifies sizes
      ensures Spread(sizes[..], syms[..n], c, d, limit, i, 0, j')
    {
      SpreadNonneg(sizes[..], syms[..n], c, d, limit, i, num, j);
      hide Spread;
      j' := j;
      var l := num;
      while l > 0
        invariant Spread(sizes[..], syms[..n], c, d, limit, i, l, j')
        invariant l >= 0
      {
        SpreadOne(sizes[..], syms[..n], c, d, limit, i, l, j');
        j' := j' - 1;
        ghost var was := sizes[..];
        sizes[syms[j'].sym] := i;
        assert sizes[..] == was[syms[..n][j'].sym := i];
        l := l - 1;
      }
    }

    method AssignCodes(num: array<int>)
      requires Valid() && num.Length == LengthLimit.MAX_SUPPORTED + 1
      requires Fits(sizes[..], limit) && Tallies(num[..], sizes[..], limit)
      requires num as object != codes
      modifies codes
      ensures Ready()
    {
      hide NextCodes, CodeBits, FromBits, Tallies, Fits;
      ghost var lens := sizes[..];
      var nextCode := FirstCodes(num, lens, limit);
      NextCodesStart(nextCode[..], lens, limit);
      var i := 0;
      while i < sizes.Length
        invariant 0 <= i <= sizes.Length && sizes[..] == lens
        invariant NextCodes(nextCode[..], lens, i, limit)
        invariant forall s :: 0 <= s < i && sizes[s] > 0 ==> codes[s] == FromBits(CodeBits(lens, s))
      {
        AssignCode(nextCode, i, lens);
        i := i + 1;
      }
    }

    /** Gives symbol `i` the next code of its length, reversed. */
    method AssignCode(nextCode: array<nat>, i: nat, ghost lens: Lens)
      requires Valid() && i < sizes.Length && sizes[..] == lens && Fits(lens, limit)
      requires NextCodes(nextCode[..], lens, i, limit)
      requires nextCode != codes && nextCode != sizes
      modifies nextCode, codes
      ensures NextCodes(nextCode[..], lens, i + 1, limit)
      ensures sizes[i] > 0 ==> codes[i] == FromBits(CodeBits(lens, i))
      ensures forall s :: 0 <= s < codes.Length && s != i ==> codes[s] == old(codes[s])
    {
      hide First, Count, Pow2;
      var size := sizes[i];
      NextCodeStep(nextCode[..], lens, i, limit);
      hide NextCodes;
      if size > 0 {
        var code := nextCode[size];
        nextCode[size] := code + 1;
        var rev := ReverseCode(code, size);
        PackedFits(lens, i, limit);
        codes[i] := rev % 65536;
      }
    }
  }

  ghost predicate NextCodes(nextCode: seq<nat>, lens: Lens, i: nat, limit: nat) {
    limit < |nextCode| && i <= |lens| && forall m :: 0 < m <= limit ==>
        nextCode[m] == First(lens, m) + Count(lens[..i], m)
  }

  lemma NextCodesStart(nextCode: seq<nat>, lens: Lens, limit: nat)
    requires limit < |nextCode| && forall m :: 0 < m <= limit ==> nextCode[m] == First(lens, m)
    ensures NextCodes(nextCode, lens, 0, limit)
  {
    hide First;
  }

  lemma NextCodeStep(nextCode: seq<nat>, lens: Lens, i: nat, limit: nat)
    requires NextCodes(nextCode, lens, i, limit) && i < |lens| && lens[i] <= limit
    ensures lens[i] == 0 ==> NextCodes(nextCode, lens, i + 1, limit)
    ensures lens[i] > 0 ==> (|nextCode| > limit && nextCode[lens[i]] == Code(lens, i) &&
            NextCodes(nextCode[lens[i] := nextCode[lens[i]] + 1], lens, i + 1, limit))
  {
    assert lens[..i + 1][..i] == lens[..i];
    hide First;
  }

  /** The histogram of the measured lengths, cut to the limit; `was` is what it was before. */
  method CutHistogram(keys: array<nat>, n: nat, limit: nat)
    returns (num: array<int>, ghost was: seq<int>, ghost steps: seq<nat>)
    requires n <= keys.Length && Measured(keys[..n]) && 0 < limit <= 15 && n <= Pow2(limit)
    ensures fresh(num) && num.Length == |was| == LengthLimit.MAX_SUPPORTED + 1
    ensures LengthLimit.Counts(num[..]) && Tallies(was, keys[..n], LengthLimit.MAX_SUPPORTED)
    ensures LengthLimit.Codes(was, limit, LengthLimit.MAX_SUPPORTED) == 0 ==> num[..] == was
    ensures limit == 15 && HuffmanTree.Descending(keys[..n]) ==> Limited(keys[..n], was, num[..], steps)
    ensures LengthLimit.Codes(num[..], 0, limit) == n && (n > 1 ==> LengthLimit.Kraft(num[..], limit) == Pow2(limit))
  {
    hide Measured, LengthLimit.Codes, LengthLimit.Kraft, Tallies, LengthLimit.Counts, Pow2, Count;
    hide LengthLimit.Legal, LengthLimit.After, LengthLimit.Cut;
    MeasuredAtMost(keys[..n]);
    num := LengthHistogram(keys, n);
    was := num[..];
    MeasuredCodes(was, keys[..n], limit);
    steps := LengthLimit.EnforceMaxCodeSize(num, n, limit);
  }

  /** What the histogram of the measured lengths satisfies. */
  lemma MeasuredCodes(num: seq<int>, keys: Lens, limit: nat)
    requires 0 < limit <= 15 && |num| == LengthLimit.MAX_SUPPORTED + 1
    requires Tallies(num, keys, LengthLimit.MAX_SUPPORTED)
    requires Measured(keys)
    ensures LengthLimit.Codes(num, 0, LengthLimit.MAX_SUPPORTED) == |keys|
    ensures |keys| <= 1 ==> LengthLimit.Codes(num, 0, limit) == |keys|
    ensures |keys| > 1 ==> LengthLimit.Kraft(num, LengthLimit.MAX_SUPPORTED) == Pow2(LengthLimit.MAX_SUPPORTED)
  {
    CountAbsent(keys, 0);
    TallyCodes(num, keys, LengthLimit.MAX_SUPPORTED);
    CountAll(keys, LengthLimit.MAX_SUPPORTED);
    TallyKraft(num, keys, LengthLimit.MAX_SUPPORTED);
    if |keys| <= 1 {
      TallyCodes(num, keys, limit);
      CountAll(keys, limit);
    } else {
      CompleteLonger(keys, 22, LengthLimit.MAX_SUPPORTED);
    }
  }
}
