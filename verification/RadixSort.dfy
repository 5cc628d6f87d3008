/**
 The two-pass radix sort of symbols by frequency: `tdefl_radix_sort_syms` of external/miniz.c.

 A pass over one byte of the key is a stable distribution into 256 buckets.  The second pass is
 skipped when every high byte is zero.
 */
module RadixSort {
  datatype SymFreq = SymFreq(key: nat, sym: nat)

  type Syms = seq<SymFreq>

  function Digit(x: SymFreq, pass: nat): (d: nat)
    ensures d < 256
  {
    if pass == 0 then x.key % 256 else x.key / 256 % 256
  }

  /** The entries with digit `d`, in their order. */
  function Bucket(s: Syms, pass: nat, d: nat): (r: Syms)
    ensures forall i :: 0 <= i < |r| ==> Digit(r[i], pass) == d
  {
    if s == [] then []
    else
      var last := s[|s| - 1];
      Bucket(s[..|s| - 1], pass, d) + if Digit(last, pass) == d then [last] else []
  }

  /** The buckets of the digits below `d`, one after the other. */
  function Distribute(s: Syms, pass: nat, d: nat): Syms {
    if d == 0 then [] else Distribute(s, pass, d - 1) + Bucket(s, pass, d - 1)
  }

  function Sorted(s: Syms): Syms {
    Distribute(Distribute(s, 0, 256), 1, 256)
  }

  predicate KeysAscend(s: Syms) {
    forall i, j :: 0 <= i < j < |s| ==> s[i].key <= s[j].key
  }

  predicate Keys16(s: Syms) {
    forall i :: 0 <= i < |s| ==> s[i].key < 65536
  }

  predicate LowAscend(s: Syms) {
    forall i, j :: 0 <= i < j < |s| ==> s[i].key % 256 <= s[j].key % 256
  }

  // ---------- the result is a permutation ----------

  lemma {:induction false} BucketCount(s: Syms, pass: nat, d: nat, x: SymFreq)
    ensures multiset(Bucket(s, pass, d))[x] == if Digit(x, pass) == d then multiset(s)[x] else 0
  {
    if s != [] {
      BucketCount(s[..|s| - 1], pass, d, x);
      assert s == s[..|s| - 1] + [s[|s| - 1]];
    }
  }

  lemma {:induction false} DistributeCount(s: Syms, pass: nat, d: nat, x: SymFreq)
    ensures multiset(Distribute(s, pass, d))[x] == if Digit(x, pass) < d then multiset(s)[x] else 0
  {
    hide Bucket, Digit;
    if d > 0 {
      DistributeCount(s, pass, d - 1, x);
      BucketCount(s, pass, d - 1, x);
      var a, b := Distribute(s, pass, d - 1), Bucket(s, pass, d - 1);
      assert multiset(a + b)[x] == multiset(a)[x] + multiset(b)[x];
    }
  }

  lemma DistributePermutes(s: Syms, pass: nat)
    ensures multiset(Distribute(s, pass, 256)) == multiset(s)
    ensures |Distribute(s, pass, 256)| == |s|
  {
    forall x: SymFreq
      ensures multiset(Distribute(s, pass, 256))[x] == multiset(s)[x]
    {
      DistributeCount(s, pass, 256, x);
    }
    assert multiset(Distribute(s, pass, 256)) == multiset(s);
    assert |multiset(Distribute(s, pass, 256))| == |multiset(s)|;
  }

  // ---------- the result ascends ----------

  lemma {:induction false} DistributeAscends(s: Syms, d: nat)
    ensures forall i :: 0 <= i < |Distribute(s, 0, d)| ==> Digit(Distribute(s, 0, d)[i], 0) < d
    ensures LowAscend(Distribute(s, 0, d))
  {
    if d > 0 {
      DistributeAscends(s, d - 1);
    }
  }

  lemma {:induction false} BucketKeepsOrder(s: Syms, d: nat)
    requires LowAscend(s)
    ensures LowAscend(Bucket(s, 1, d))
    ensures forall i :: 0 <= i < |Bucket(s, 1, d)| ==> Bucket(s, 1, d)[i] in s
  {
    if s != [] {
      BucketKeepsOrder(s[..|s| - 1], d);
    }
  }

  lemma {:induction false} SecondPassAscends(s: Syms, d: nat)
    requires LowAscend(s) && Keys16(s)
    ensures forall i :: 0 <= i < |Distribute(s, 1, d)| ==> Distribute(s, 1, d)[i].key < 256 * d
    ensures KeysAscend(Distribute(s, 1, d))
  {
    if d > 0 {
      SecondPassAscends(s, d - 1);
      BucketKeepsOrder(s, d - 1);
      var b := Bucket(s, 1, d - 1);
      forall i | 0 <= i < |b|
        ensures 256 * (d - 1) <= b[i].key < 256 * d && b[i].key == 256 * (d - 1) + b[i].key % 256
      {
        assert b[i] in s && Digit(b[i], 1) == d - 1;
      }
    }
  }

  /** Sorting by the low byte, then stably by the high byte, sorts 16-bit keys. */
  lemma SortedIsSorted(s: Syms)
    requires Keys16(s)
    ensures KeysAscend(Sorted(s))
    ensures multiset(Sorted(s)) == multiset(s) && |Sorted(s)| == |s|
  {
    var t := Distribute(s, 0, 256);
    DistributePermutes(s, 0);
    DistributePermutes(t, 1);
    DistributeAscends(s, 256);
    forall i | 0 <= i < |t|
      ensures t[i].key < 65536
    {
      assert t[i] in multiset(t);
    }
    SecondPassAscends(t, 256);
  }

  // ---------- the passes ----------

  function Start(s: Syms, pass: nat, d: nat): nat {
    |Distribute(s, pass, d)|
  }

  lemma {:induction false} StartMonotone(s: Syms, pass: nat, d: nat, e: nat)
    requires d <= e
    ensures Start(s, pass, d) <= Start(s, pass, e)
  {
    if d < e {
      StartMonotone(s, pass, d, e - 1);
    }
  }

  lemma {:induction false} BucketPrefix(s: Syms, pass: nat, d: nat, i: nat)
    requires i <= |s|
    ensures |Bucket(s[..i], pass, d)| <= |Bucket(s, pass, d)|
    ensures i < |s| && Digit(s[i], pass) == d ==> |Bucket(s[..i], pass, d)| < |Bucket(s, pass, d)|
    decreases |s|
  {
    if i < |s| {
      assert s[..|s| - 1][..i] == s[..i];
      BucketPrefix(s[..|s| - 1], pass, d, i);
    } else {
      assert s[..i] == s;
    }
  }

  /** Bucket `d` of the first `i` entries is in place, and `offset` is where its next entry goes. */
  ghost predicate Placed(new_: Syms, s: Syms, pass: nat, i: nat, d: nat, offset: nat)
    requires i <= |s| <= |new_|
  {
    var b := Bucket(s[..i], pass, d);
    offset == Start(s, pass, d) + |b| <= |s| && new_[Start(s, pass, d)..offset] == b
  }

  lemma PlaceOne(new_: Syms, s: Syms, pass: nat, i: nat, d: nat, offset: nat, e: nat, at: nat)
    requires i < |s| <= |new_| && d < 256
    requires Placed(new_, s, pass, i, d, offset)
    requires e == Digit(s[i], pass) && at == Start(s, pass, e) + |Bucket(s[..i], pass, e)| < |new_|
    ensures Placed(new_[at := s[i]], s, pass, i + 1, d, if d == e then offset + 1 else offset)
  {
    hide Bucket, Start, Digit;
    BucketSucc(s, pass, i, d);
    BucketPrefix(s, pass, e, i);
    BucketPrefix(s, pass, d, i);
    if d == e {
      StartFits(s, pass, d);
      var lo := Start(s, pass, d);
      assert new_[at := s[i]][lo..at + 1] == new_[lo..at] + [s[i]];
    } else {
      Elsewhere(s, pass, i, d, e);
    }
  }

  lemma BucketSucc(s: Syms, pass: nat, i: nat, d: nat)
    requires i < |s|
    ensures Bucket(s[..i + 1], pass, d) == Bucket(s[..i], pass, d) + if Digit(s[i], pass) == d then [s[i]] else []
  {
    assert s[..i + 1][..i] == s[..i];
  }

  /** The next entry of bucket `e` falls outside bucket `d`. */
  lemma Elsewhere(s: Syms, pass: nat, i: nat, d: nat, e: nat)
    requires i < |s| && d != e && Digit(s[i], pass) == e
    ensures var at := Start(s, pass, e) + |Bucket(s[..i], pass, e)|;
            at < Start(s, pass, d) || Start(s, pass, d) + |Bucket(s[..i], pass, d)| <= at
  {
    hide Bucket, Start, Digit;
    BucketPrefix(s, pass, e, i);
    BucketPrefix(s, pass, d, i);
    StartSucc(s, pass, d);
    StartSucc(s, pass, e);
    if d < e {
      StartMonotone(s, pass, d + 1, e);
    } else {
      StartMonotone(s, pass, e + 1, d);
    }
  }

  lemma StartSucc(s: Syms, pass: nat, d: nat)
    ensures Start(s, pass, d + 1) == Start(s, pass, d) + |Bucket(s, pass, d)|
  {
  }

  lemma StartFits(s: Syms, pass: nat, d: nat)
    requires d < 256
    ensures Start(s, pass, d) + |Bucket(s, pass, d)| <= |s|
  {
    DistributePermutes(s, pass);
    StartMonotone(s, pass, d + 1, 256);
  }

  ghost predicate InPlace(new_: Syms, s: Syms, pass: nat, d: nat) {
    Start(s, pass, d + 1) <= |new_| && new_[Start(s, pass, d)..Start(s, pass, d + 1)] == Bucket(s, pass, d)
  }

  lemma {:induction false} AllInPlace(new_: Syms, s: Syms, pass: nat, d: nat)
    requires Start(s, pass, d) <= |new_|
    requires forall e :: 0 <= e < d ==> InPlace(new_, s, pass, e)
    ensures new_[..Start(s, pass, d)] == Distribute(s, pass, d)
  {
    if d > 0 {
      AllInPlace(new_, s, pass, d - 1);
      assert InPlace(new_, s, pass, d - 1);
      var i, j := Start(s, pass, d - 1), Start(s, pass, d);
      hide InPlace, Bucket;
      assert new_[..j] == new_[..i] + new_[i..j];
    }
  }

  lemma NonePlaced(new_: Syms, s: Syms, pass: nat, d: nat)
    requires |s| <= |new_| && d < 256
    ensures Placed(new_, s, pass, 0, d, Start(s, pass, d))
  {
    StartFits(s, pass, d);
  }

  lemma WhenPlaced(new_: Syms, s: Syms, pass: nat, d: nat, offset: nat)
    requires |s| <= |new_| && Placed(new_, s, pass, |s|, d, offset)
    ensures InPlace(new_, s, pass, d)
  {
    assert s[..|s|] == s;
    hide Bucket;
  }

  /** One distribution pass: `hist` holds the bucket sizes of this pass. */
  method Pass(cur: array<SymFreq>, new_: array<SymFreq>, n: nat, hist: array<nat>, pass: nat)
    requires n <= cur.Length && n <= new_.Length && cur != new_
    requires pass < 2 && hist.Length == 512
    requires Sizes(hist[..], cur[..n], pass)
    modifies new_
    ensures new_[..n] == Distribute(old(cur[..n]), pass, 256)
  {
    hide Placed, InPlace, Bucket;
    ghost var s := cur[..n];
    var offsets := new nat[256];
    var i, curOfs := 0, 0;
    while i < 256
      invariant 0 <= i <= 256 && curOfs == Start(s, pass, i)
      invariant forall d :: 0 <= d < i ==> offsets[d] == Start(s, pass, d)
    {
      offsets[i] := curOfs;
      assert |Bucket(s, pass, i)| == Row(hist[..], pass)[i];
      curOfs := curOfs + hist[256 * pass + i];
      i := i + 1;
    }
    hide Start, Distribute;
    forall d | 0 <= d < 256
      ensures Placed(new_[..], s, pass, 0, d, offsets[d])
    {
      NonePlaced(new_[..], s, pass, d);
    }
    i := 0;
    while i < n
      invariant 0 <= i <= n && cur[..n] == s
      invariant forall d :: 0 <= d < 256 ==> Placed(new_[..], s, pass, i, d, offsets[d])
    {
      PlaceNext(cur, new_, n, offsets, pass, i, s);
      i := i + 1;
    }
    forall d | 0 <= d < 256
      ensures InPlace(new_[..], s, pass, d)
    {
      WhenPlaced(new_[..], s, pass, d, offsets[d]);
    }
    Finish(new_[..], s, pass);
  }

  lemma Finish(new_: Syms, s: Syms, pass: nat)
    requires |s| <= |new_| && forall d :: 0 <= d < 256 ==> InPlace(new_, s, pass, d)
    ensures new_[..|s|] == Distribute(s, pass, 256)
  {
    DistributePermutes(s, pass);
    AllInPlace(new_, s, pass, 256);
  }

  method PlaceNext(cur: array<SymFreq>, new_: array<SymFreq>, n: nat, offsets: array<nat>, pass: nat, i: nat,
      ghost s: Syms)
    requires i < n <= cur.Length && n <= new_.Length && cur != new_
    requires offsets.Length == 256 && cur[..n] == s
    requires forall d :: 0 <= d < 256 ==> Placed(new_[..], s, pass, i, d, offsets[d])
    modifies new_, offsets
    ensures forall d :: 0 <= d < 256 ==> Placed(new_[..], s, pass, i + 1, d, offsets[d])
    ensures cur[..n] == s
  {
    var e := Digit(cur[i], pass);
    assert Placed(new_[..], s, pass, i, e, offsets[e]);
    BucketPrefix(s, pass, e, i);
    StartFits(s, pass, e);
    ghost var was, at := new_[..], offsets[e];
    forall d | 0 <= d < 256
      ensures Placed(was[at := s[i]], s, pass, i + 1, d, if d == e then offsets[d] + 1 else offsets[d])
    {
      assert Placed(was, s, pass, i, d, offsets[d]);
      PlaceOne(was, s, pass, i, d, offsets[d], e, at);
    }
    hide Placed;
    new_[offsets[e]] := cur[i];
    offsets[e] := offsets[e] + 1;
    assert new_[..] == was[at := s[i]];
  }

  function Row(hist: seq<nat>, pass: nat): (r: seq<nat>)
    requires pass < 2 && |hist| == 512
    ensures |r| == 256
  {
    hist[256 * pass..256 * pass + 256]
  }

  /** The histogram row of a pass holds the bucket sizes. */
  ghost predicate Sizes(hist: seq<nat>, s: Syms, pass: nat) {
    pass < 2 && |hist| == 512 && forall d :: 0 <= d < 256 ==> |Bucket(s, pass, d)| == Row(hist, pass)[d]
  }

  lemma SizesStep(hist: seq<nat>, next: seq<nat>, s: Syms, i: nat, pass: nat)
    requires i < |s| && Sizes(hist, s[..i], pass) && |next| == 512
    requires var d := Digit(s[i], pass); Row(next, pass) == Row(hist, pass)[d := Row(hist, pass)[d] + 1]
    ensures Sizes(next, s[..i + 1], pass)
  {
    assert s[..i + 1][..i] == s[..i];
    hide Digit, Row;
  }

  method Histogram(a: array<SymFreq>, n: nat) returns (hist: array<nat>)
    requires n <= a.Length
    ensures fresh(hist) && hist.Length == 512
    ensures Sizes(hist[..], a[..n], 0) && Sizes(hist[..], a[..n], 1)
  {
    hist := new nat[512](_ => 0);
    var i := 0;
    while i < n
      invariant 0 <= i <= n && fresh(hist)
      invariant Sizes(hist[..], a[..n][..i], 0) && Sizes(hist[..], a[..n][..i], 1)
    {
      ghost var s := a[..n];
      var low, high := Digit(a[i], 0), Digit(a[i], 1);
      hide Sizes, Bucket;
      ghost var was := hist[..];
      hist[low] := hist[low] + 1;
      hist[256 + high] := hist[256 + high] + 1;
      assert hist[..] == was[low := was[low] + 1][256 + high := was[256 + high] + 1];
      assert Row(hist[..], 0) == Row(was, 0)[low := Row(was, 0)[low] + 1];
      assert Row(hist[..], 1) == Row(was, 1)[high := Row(was, 1)[high] + 1];
      SizesStep(was, hist[..], s, i, 0);
      SizesStep(was, hist[..], s, i, 1);
      i := i + 1;
    }
    assert a[..n][..n] == a[..n];
  }

  lemma {:induction false} BucketSizePermutes(s: Syms, t: Syms, pass: nat, d: nat)
    requires multiset(s) == multiset(t)
    ensures |Bucket(s, pass, d)| == |Bucket(t, pass, d)|
  {
    var x, y := Bucket(s, pass, d), Bucket(t, pass, d);
    forall v: SymFreq
      ensures multiset(x)[v] == multiset(y)[v]
    {
      BucketCount(s, pass, d, v);
      BucketCount(t, pass, d, v);
    }
    assert multiset(x) == multiset(y);
    assert |multiset(x)| == |x| && |multiset(y)| == |y|;
  }

  lemma {:induction false} WholeBucket(s: Syms, pass: nat)
    requires |Bucket(s, pass, 0)| == |s|
    ensures Bucket(s, pass, 0) == s
    ensures forall i :: 0 <= i < |s| ==> Digit(s[i], pass) == 0
  {
    if s != [] {
      BucketPrefix(s, pass, 0, |s| - 1);
      BucketPrefixSize(s[..|s| - 1], pass);
      WholeBucket(s[..|s| - 1], pass);
    }
  }

  lemma {:induction false} BucketPrefixSize(s: Syms, pass: nat)
    ensures |Bucket(s, pass, 0)| <= |s|
  {
    if s != [] {
      BucketPrefixSize(s[..|s| - 1], pass);
    }
  }

  lemma {:induction false} OnlyBucketZero(s: Syms, pass: nat, d: nat)
    requires 0 < d && forall i :: 0 <= i < |s| ==> Digit(s[i], pass) == 0
    ensures Distribute(s, pass, d) == Distribute(s, pass, 1)
  {
    if d > 1 {
      OnlyBucketZero(s, pass, d - 1);
      EmptyBucket(s, pass, d - 1);
    }
  }

  lemma {:induction false} EmptyBucket(s: Syms, pass: nat, d: nat)
    requires d > 0 && forall i :: 0 <= i < |s| ==> Digit(s[i], pass) == 0
    ensures Bucket(s, pass, d) == []
  {
    if s != [] {
      EmptyBucket(s[..|s| - 1], pass, d);
    }
  }

  /** When no key has a high byte the second pass would change nothing. */
  lemma SecondPassIdle(s: Syms)
    requires |Bucket(s, 1, 0)| == |s|
    ensures Distribute(s, 1, 256) == s
  {
    WholeBucket(s, 1);
    OnlyBucketZero(s, 1, 256);
    assert Distribute(s, 1, 1) == [] + Bucket(s, 1, 0);
  }

  /** Sorts the first `n` entries of `syms0`; the result is in whichever array is returned. */
  method RadixSortSyms(n: nat, syms0: array<SymFreq>, syms1: array<SymFreq>) returns (cur: array<SymFreq>)
    requires n <= syms0.Length && n <= syms1.Length && syms0 != syms1
    modifies syms0, syms1
    ensures cur == syms0 || cur == syms1
    ensures cur[..n] == Sorted(old(syms0[..n]))
  {
    ghost var s := syms0[..n];
    var hist := Histogram(syms0, n);
    var totalPasses := 2;
    assert |Bucket(s, 1, 0)| == Row(hist[..], 1)[0];
    while totalPasses > 1 && n == hist[(totalPasses - 1) * 256]
      invariant 1 <= totalPasses <= 2
      invariant totalPasses == 1 ==> |Bucket(s, 1, 0)| == n
      decreases totalPasses
    {
      totalPasses := totalPasses - 1;
    }
    Pass(syms0, syms1, n, hist, 0);
    DistributePermutes(s, 0);
    ghost var t := Distribute(s, 0, 256);
    forall d | 0 <= d < 256
      ensures |Bucket(t, 1, d)| == Row(hist[..], 1)[d]
    {
      BucketSizePermutes(s, t, 1, d);
    }
    assert Sizes(hist[..], t, 1);
    cur := syms1;
    if totalPasses == 2 {
      Pass(syms1, syms0, n, hist, 1);
      cur := syms0;
    } else {
      SecondPassIdle(t);
    }
  }
}
