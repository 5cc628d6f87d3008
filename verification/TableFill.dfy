/**
 Lookup tables indexed by the next bits of a stream, where every index that ends in a packed code
 holds the same entry: the fill loops of both Huffman decoders (external/miniz.c,
 external/stb_image.h).
 */
module TableFill {
  import opened Bits
  import opened Canonical
  import TokenCode

  /** The lookup after every index that ends in the code has been set. */
  ghost predicate Overwritten(lookUp: seq<int>, lookUp': seq<int>, rev: nat, l: nat, v: int) {
    && |lookUp'| == |lookUp|
    && forall i :: 0 <= i < |lookUp| ==> lookUp'[i] == if Low(i, l) == rev then v else lookUp[i]
  }

  /** An index stands for the code just when its low bits are the packed code. */
  lemma IndexStarts(lens: Lens, s: nat, i: nat, n: nat)
    requires Used(lens, s) && lens[s] <= n
    ensures Starts(lens, s, ToBits(i, n)) <==> Low(i, lens[s]) == FromBits(CodeBits(lens, s))
  {
    var l, w := lens[s], CodeBits(lens, s);
    hide ToBits, FromBits, Low, Shr, Code, Pow2, CodeBits;
    ToBitsShr(i, l, n - l);
    LowShr(i, l);
    FromBitsToBits(Low(i, l), l);
    ToBitsFromBits(w);
    var p := ToBits(i, n);
    assert p[..l] == ToBits(Low(i, l), l);
    assert w <= p <==> p[..l] == w;
  }

  lemma SpreadSize(lookUp: seq<int>, lookUp': seq<int>, rev: nat, l: nat, v: int)
    requires Overwritten(lookUp, lookUp', rev, l, v)
    ensures |lookUp'| == |lookUp|
  {
  }

  /** The indices below `to` have been dealt with. */
  ghost predicate SpreadTo(lookUp: seq<int>, lookUp': seq<int>, rev: nat, l: nat, v: int, to: nat) {
    && |lookUp| == |lookUp'|
    && forall i :: 0 <= i < |lookUp| ==> lookUp'[i] == if i < to && Low(i, l) == rev then v else lookUp[i]
  }

  lemma SpreadNone(lookUp: seq<int>, rev: nat, l: nat, v: int)
    requires rev < Pow2(l)
    ensures SpreadTo(lookUp, lookUp, rev, l, v, rev) && rev == Pow2(l) * 0 + rev
  {
    forall i | 0 <= i < rev
      ensures Low(i, l) != rev
    {
      LowBetween(l, 0, i);
    }
  }

  lemma LowBetween(l: nat, m: nat, r: nat)
    requires r < Pow2(l)
    ensures Low(Pow2(l) * m + r, l) == r
  {
    TokenCode.LowUnique(l, m, r);
  }

  lemma StepUp(l: nat, m: nat)
    ensures Pow2(l) * m + Pow2(l) == Pow2(l) * (m + 1)
  {
  }

  /** In a stretch of `2^l` indices only the first one ends in the code. */
  lemma SpreadMore(lookUp: seq<int>, lookUp': seq<int>, rev: nat, l: nat, v: int, m: nat)
    requires rev < Pow2(l) && SpreadTo(lookUp, lookUp', rev, l, v, Pow2(l) * m + rev) && Pow2(l) * m + rev < |lookUp'|
    ensures SpreadTo(lookUp, lookUp'[Pow2(l) * m + rev := v], rev, l, v, Pow2(l) * (m + 1) + rev)
  {
    hide Low, Pow2;
    var i := Pow2(l) * m + rev;
    StepUp(l, m);
    LowBetween(l, m, rev);
    forall j | i < j < i + Pow2(l)
      ensures Low(j, l) != rev
    {
      var r := j - Pow2(l) * m;
      if r < Pow2(l) {
        LowBetween(l, m, r);
      } else {
        LowBetween(l, m + 1, r - Pow2(l));
      }
    }
  }

  lemma SpreadAll(lookUp: seq<int>, lookUp': seq<int>, rev: nat, l: nat, v: int, to: nat)
    requires SpreadTo(lookUp, lookUp', rev, l, v, to) && to >= |lookUp|
    ensures Overwritten(lookUp, lookUp', rev, l, v)
  {
    hide Low;
  }
}
