/**
 How many inner places a code has beyond its first ten bits: what bounds the decompressor's
 overflow tree.
 */
module TrieSize {
  import opened Bits
  import opened Canonical
  import opened HuffmanTable
  import opened TrieCode

  /** The number whose bits, most significant first, are `q`. */
  function MsbVal(q: Bitstring): (v: nat)
    ensures v < Pow2(|q|)
  {
    if q == [] then 0 else 2 * MsbVal(q[..|q| - 1]) + if q[|q| - 1] then 1 else 0
  }

  lemma {:induction false} MsbValBits(v: nat, n: nat)
    requires v < Pow2(n)
    ensures MsbVal(MsbBits(v, n)) == v
  {
    if n > 0 {
      MsbValBits(v / 2, n - 1);
      assert MsbBits(v, n)[..n - 1] == MsbBits(v / 2, n - 1);
    }
  }

  lemma {:induction false} MsbValInjective(q: Bitstring, r: Bitstring)
    requires |q| == |r| && MsbVal(q) == MsbVal(r)
    ensures q == r
  {
    if q != [] {
      var n := |q| - 1;
      MsbValInjective(q[..n], r[..n]);
      assert q == q[..n] + [q[n]] && r == r[..n] + [r[n]];
    }
  }

  /** Inner places of a length lie above the codes up to that length. */
  lemma InnerAbove(lens: Lens, q: Bitstring)
    requires Fits(lens, 15) && Inner(lens, q) && q != []
    ensures MsbVal(q) >= End(lens, |q|)
  {
    var s: nat :| Extends(lens, s, q);
    CodeFits(lens, s, 15);
    CodeInRange(lens, s);
    FirstAbove(lens, |q|, lens[s]);
    PrefixAbove(Code(lens, s), lens[s], q, End(lens, |q|));
  }

  lemma PrefixAbove(c: nat, l: nat, q: Bitstring, e: nat)
    requires |q| < l && c < Pow2(l) && MsbBits(c, l)[..|q|] == q && c >= Pow2(l - |q|) * e
    ensures MsbVal(q) >= e
  {
    hide Pow2, MsbBits, MsbVal;
    var k := l - |q|;
    MsbPrefix(c, l, k);
    ShrAbove(c, k, e);
    Pow2Add(k, |q|);
    PrefixValue(c, k, |q|);
    MsbValBits(Shr(c, k), |q|);
  }

  lemma NoneAbove(k: set<Bitstring>, d: nat)
    requires forall q :: q in k ==> |q| == d && MsbVal(q) >= Pow2(d)
    ensures k == {}
  {
  }

  /** At most so many bit strings of one length have values from `lo` on. */
  lemma {:induction false} ValuesBound(k: set<Bitstring>, d: nat, lo: nat)
    requires lo <= Pow2(d) && forall q :: q in k ==> |q| == d && MsbVal(q) >= lo
    ensures |k| + lo <= Pow2(d)
    decreases Pow2(d) - lo
  {
    hide MsbVal;
    if lo == Pow2(d) {
      NoneAbove(k, d);
    } else if p :| p in k && MsbVal(p) == lo {
      forall q | q in k - {p}
        ensures MsbVal(q) >= lo + 1
      {
        if MsbVal(q) == lo {
          MsbValInjective(p, q);
        }
      }
      ValuesBound(k - {p}, d, lo + 1);
    } else {
      ValuesBound(k, d, lo + 1);
    }
  }

  ghost function AtDepth(k: set<Bitstring>, d: nat): set<Bitstring> {
    set q | q in k && |q| == d
  }

  function Room(lens: Lens, d: nat): int
    requires d > 0
  {
    Pow2(d) - End(lens, d)
  }

  lemma DepthBound(lens: Lens, k: set<Bitstring>, d: nat)
    requires Fits(lens, 15) && 0 < d <= 15 && forall q :: q in k ==> Inner(lens, q)
    ensures 0 <= Room(lens, d) && |AtDepth(k, d)| <= Room(lens, d)
  {
    EndFits(lens, d, 15);
    forall q | q in AtDepth(k, d)
      ensures MsbVal(q) >= End(lens, d)
    {
      InnerAbove(lens, q);
    }
    hide End, Pow2, Fits, Inner, MsbVal;
    ValuesBound(AtDepth(k, d), d, End(lens, d));
  }

  ghost function From(k: set<Bitstring>, d: nat): set<Bitstring> {
    set q | q in k && d <= |q|
  }

  lemma SplitDepth(k: set<Bitstring>, d: nat)
    ensures |From(k, d)| == |AtDepth(k, d)| + |From(k, d + 1)|
  {
    assert From(k, d) == AtDepth(k, d) + From(k, d + 1);
    assert AtDepth(k, d) !! From(k, d + 1);
  }

  lemma FiveDepths(k: set<Bitstring>)
    requires forall q :: q in k ==> 10 <= |q| < 15
    ensures |k| == |AtDepth(k, 10)| + |AtDepth(k, 11)| + |AtDepth(k, 12)| + |AtDepth(k, 13)| + |AtDepth(k, 14)|
  {
    SplitDepth(k, 10);
    SplitDepth(k, 11);
    SplitDepth(k, 12);
    SplitDepth(k, 13);
    SplitDepth(k, 14);
    assert From(k, 15) == {};
    assert From(k, 10) == k;
  }

  lemma RoomStep(lens: Lens, d: nat)
    requires d > 0
    ensures Room(lens, d + 1) == 2 * Room(lens, d) - Count(lens, d + 1)
  {
    assert End(lens, d + 1) == First(lens, d + 1) + Count(lens, d + 1);
    assert First(lens, d + 1) == 2 * End(lens, d);
    assert Pow2(d + 1) == 2 * Pow2(d);
  }

  lemma RoomSum(lens: Lens)
    requires Fits(lens, 15) && Room(lens, 15) == 0 && Room(lens, 10) >= 0
    ensures Room(lens, 10) + Room(lens, 11) + Room(lens, 12) + Room(lens, 13) + Room(lens, 14) <= |lens|
  {
    RoomStep(lens, 10);
    RoomStep(lens, 11);
    RoomStep(lens, 12);
    RoomStep(lens, 13);
    RoomStep(lens, 14);
    CountAll(lens, 15);
    hide Room;
    LongCodes(lens);
  }

  lemma CountUpToStep(lens: Lens, m: nat)
    requires m > 0
    ensures CountUpTo(lens, m) == CountUpTo(lens, m - 1) + Count(lens, m)
  {
  }

  lemma LongCodes(lens: Lens)
    ensures Count(lens, 11) + Count(lens, 12) + Count(lens, 13) + Count(lens, 14) + Count(lens, 15) <=
            CountUpTo(lens, 15)
  {
    hide Count;
    CountUpToStep(lens, 11);
    CountUpToStep(lens, 12);
    CountUpToStep(lens, 13);
    CountUpToStep(lens, 14);
    CountUpToStep(lens, 15);
    hide CountUpTo;
  }

  /** A code that is acceptable has few inner places beyond its first ten bits. */
  lemma InnerBound(lens: Lens, k: set<Bitstring>)
    requires Acceptable(lens) && forall q :: q in k ==> 10 <= |q| && Inner(lens, q)
    ensures |k| <= |lens| || |k| <= 5
  {
    forall q | q in k
      ensures |q| < 15
    {
      InnerShort(lens, q);
    }
    FiveDepths(k);
    if UsedCount(lens) <= 1 {
      forall d: nat
        ensures |AtDepth(k, d)| <= 1
      {
        OneAtDepth(lens, k, d);
      }
    } else {
      DepthBound(lens, k, 10);
      DepthBound(lens, k, 11);
      DepthBound(lens, k, 12);
      DepthBound(lens, k, 13);
      DepthBound(lens, k, 14);
      RoomSum(lens);
    }
  }

  lemma OneAtDepth(lens: Lens, k: set<Bitstring>, d: nat)
    requires UsedCount(lens) <= 1 && forall q :: q in k ==> Inner(lens, q)
    ensures |AtDepth(k, d)| <= 1
  {
    if p :| p in AtDepth(k, d) {
      forall q | q in AtDepth(k, d)
        ensures q == p
      {
        var s: nat :| Extends(lens, s, p);
        var t: nat :| Extends(lens, t, q);
        OneUsed(lens, s, t);
      }
      assert AtDepth(k, d) == {p};
    }
  }

  lemma {:induction false} SomeZero(lens: Lens, s: nat)
    requires Used(lens, s)
    ensures Count(lens, 0) < |lens|
  {
    if s < |lens| - 1 {
      SomeZero(lens[..|lens| - 1], s);
    }
  }

  lemma {:induction false} OneUsed(lens: Lens, s: nat, t: nat)
    requires Used(lens, s) && Used(lens, t) && UsedCount(lens) <= 1
    ensures s == t
  {
    var init := lens[..|lens| - 1];
    if s < |init| && t < |init| {
      OneUsed(init, s, t);
    } else if s < |init| {
      SomeZero(init, s);
    } else if t < |init| {
      SomeZero(init, t);
    }
  }
}
