/**
 Finding the code at the front of a stream by comparing numbers: canonical codes fill the numbers
 of each length from below, so the first length at which the front is less than the end of the
 codes is the length of the code (section 3.2.2 of RFC 1951; Annex F.2.2.3 of ITU-T T.81).
 */
module CanonicalSearch {
  import opened Bits
  import opened Canonical
  import opened HuffmanTable
  import opened TrieSize
  import opened Wrappers

  /** The number that the first `l` bits make. */
  function Leading(b: Bitstring, l: nat): nat
    requires l <= |b|
  {
    MsbVal(b[..l])
  }

  lemma FrontStep(b: Bitstring, l: nat)
    requires l < |b|
    ensures Leading(b, l + 1) == 2 * Leading(b, l) + if b[l] then 1 else 0
  {
    assert b[..l + 1][..l] == b[..l];
  }

  lemma {:induction false} FrontShr(b: Bitstring, l: nat, n: nat)
    requires l + n <= |b|
    ensures Leading(b, l) == Shr(Leading(b, l + n), n)
    decreases n
  {
    hide MsbVal;
    if n > 0 {
      FrontStep(b, l + n - 1);
      FrontShr(b, l, n - 1);
    }
  }

  lemma {:induction false} NthOf(lens: Lens, l: nat, k: nat) returns (s: nat)
    requires k < Count(lens, l)
    ensures s < |lens| && lens[s] == l && Count(lens[..s], l) == k
    decreases |lens|
  {
    var n := |lens| - 1;
    if k < Count(lens[..n], l) {
      s := NthOf(lens[..n], l, k);
      assert lens[..n][..s] == lens[..s];
    } else {
      s := n;
    }
  }

  /** Every number from the first code of a length up to the end of the codes is a code. */
  lemma SymbolWith(lens: Lens, l: nat, v: nat) returns (s: nat)
    requires l > 0 && First(lens, l) <= v < End(lens, l)
    ensures Used(lens, s) && lens[s] == l && Code(lens, s) == v
  {
    s := NthOf(lens, l, v - First(lens, l));
  }

  lemma StartsFront(lens: Lens, max: nat, s: nat, b: Bitstring)
    requires Fits(lens, max) && Used(lens, s) && lens[s] <= |b|
    ensures Starts(lens, s, b) <==> Leading(b, lens[s]) == Code(lens, s)
  {
    CodeFits(lens, s, max);
    hide Fits, Code, MsbBits, MsbVal, Pow2;
    var l, c := lens[s], Code(lens, s);
    MsbValBits(c, l);
    if MsbVal(b[..l]) == c {
      MsbValInjective(b[..l], MsbBits(c, l));
    }
    assert Starts(lens, s, b) <==> b[..l] == MsbBits(c, l);
  }

  /** A code of at most `l` bits is at the front just when the front is below their end. */
  lemma {:induction false} BelowEnd(lens: Lens, max: nat, b: Bitstring, l: nat) returns (s: nat)
    requires Fits(lens, max) && 0 < l <= |b| && Leading(b, l) < End(lens, l)
    ensures Starts(lens, s, b) && lens[s] <= l
    decreases l
  {
    hide Fits, MsbVal;
    if Leading(b, l) >= First(lens, l) {
      s := SymbolWith(lens, l, Leading(b, l));
      StartsFront(lens, max, s, b);
    } else {
      FrontStep(b, l - 1);
      s := BelowEnd(lens, max, b, l - 1);
    }
  }

  lemma {:induction false} NotBelowEnd(lens: Lens, max: nat, b: Bitstring, s: nat, l: nat)
    requires Fits(lens, max) && Starts(lens, s, b) && lens[s] <= l <= |b|
    ensures Leading(b, l) < End(lens, l)
    decreases l
  {
    hide Fits, MsbVal;
    if l == lens[s] {
      StartsFront(lens, max, s, b);
      CodeInRange(lens, s);
    } else {
      NotBelowEnd(lens, max, b, s, l - 1);
      FrontStep(b, l - 1);
    }
  }

  /** The first length at which the front is below the end of the codes is that of the code. */
  lemma FirstBelow(lens: Lens, max: nat, b: Bitstring, l: nat) returns (s: nat)
    requires Fits(lens, max) && 0 < l <= |b| && Leading(b, l) < End(lens, l)
    requires (l > 1 ==> Leading(b, l - 1) >= End(lens, l - 1))
    ensures Starts(lens, s, b) && lens[s] == l && Code(lens, s) == Leading(b, l)
    ensures DecodeSym(lens, b) == Some((s, b[l..]))
  {
    hide Fits, MsbVal;
    s := BelowEnd(lens, max, b, l);
    if lens[s] < l {
      NotBelowEnd(lens, max, b, s, l - 1);
    }
    StartsFront(lens, max, s, b);
    assert b == CodeBits(lens, s) + b[l..];
    DecodeUnique(lens, max, s, b[l..]);
  }

  /** If the front is never below, it is no code. */
  lemma NoneBelow(lens: Lens, max: nat, b: Bitstring)
    requires Fits(lens, max) && max <= |b| && Leading(b, max) >= End(lens, max)
    ensures DecodeSym(lens, b) == None
  {
    forall s: nat
      ensures !Starts(lens, s, b)
    {
      if Starts(lens, s, b) {
        NotBelowEnd(lens, max, b, s, max);
      }
    }
  }

  /** Comparing all of the bits with the end, moved up to the top, is comparing the front. */
  lemma Preshifted(b: Bitstring, l: nat, end: nat)
    requires l <= |b|
    ensures Leading(b, |b|) < Shl(end, |b| - l) <==> Leading(b, l) < end
  {
    hide Leading, Shr, Pow2;
    FrontShr(b, l, |b| - l);
    ShrLess(Leading(b, |b|), |b| - l, end);
  }

  lemma ShrLess(k: nat, n: nat, end: nat)
    ensures k < Shl(end, n) <==> Shr(k, n) < end
  {
    LowShr(k, n);
    Between(k, Low(k, n), Pow2(n), Shr(k, n), end);
  }

  lemma Between(k: nat, r: nat, p: nat, f: nat, end: nat)
    requires k == r + p * f && r < p
    ensures k < p * end <==> f < end
  {
    if f < end {
      MulMonotone(p, f + 1, end);
    } else {
      MulMonotone(p, end, f);
    }
  }

  /** What finding a code should give: a symbol and the length of its code. */
  ghost function Found(lens: Lens, b: Bitstring): Option<(nat, nat)> {
    match DecodeSym(lens, b)
    case None => None
    case Some((s, rest)) => Some((s, lens[s]))
  }

  lemma StartsDecoded(lens: Lens, max: nat, s: nat, b: Bitstring)
    requires Fits(lens, max) && Starts(lens, s, b)
    ensures Found(lens, b) == Some((s, lens[s]))
  {
    hide Fits, CodeBits;
    assert b == CodeBits(lens, s) + b[|CodeBits(lens, s)|..];
    DecodeUnique(lens, max, s, b[|CodeBits(lens, s)|..]);
  }

  lemma StartsLonger(lens: Lens, s: nat, b: Bitstring, n: nat)
    requires n <= |b|
    ensures Starts(lens, s, b[..n]) ==> Starts(lens, s, b)
    ensures Starts(lens, s, b) && lens[s] <= n ==> Starts(lens, s, b[..n])
  {
    hide CodeBits;
    if Starts(lens, s, b) && lens[s] <= n {
      assert CodeBits(lens, s) == b[..lens[s]] == b[..n][..lens[s]];
    }
    if Starts(lens, s, b[..n]) {
      assert CodeBits(lens, s) == b[..n][..lens[s]] == b[..lens[s]];
    }
  }

  lemma FoundBound(lens: Lens, b: Bitstring)
    requires Found(lens, b).Some?
    ensures Found(lens, b).value.1 <= |b|
  {
  }

  // ---------- the order of symbols ----------

  /** The place of a symbol among the used ones, by length and then by number. */
  function Rank(lens: Lens, s: nat): nat
    requires Used(lens, s)
  {
    CountUpTo(lens, lens[s] - 1) + Count(lens[..s], lens[s])
  }

  lemma {:induction false} UpToMonotone(lens: Lens, m: nat, n: nat)
    requires m <= n
    ensures CountUpTo(lens, m) <= CountUpTo(lens, n)
  {
    if m < n {
      UpToMonotone(lens, m, n - 1);
    }
  }

  lemma RankInRange(lens: Lens, s: nat)
    requires Used(lens, s)
    ensures CountUpTo(lens, lens[s] - 1) <= Rank(lens, s) < CountUpTo(lens, lens[s])
  {
    CountPrefix(lens, s, |lens|, lens[s]);
    assert lens[..|lens|] == lens;
  }

  lemma {:induction false} UpToBound(lens: Lens, m: nat)
    ensures CountUpTo(lens, m) <= |lens|
    decreases |lens|
  {
    if lens == [] {
      CountUpToNil(m);
    } else {
      CountUpToLast(lens, m);
      UpToBound(lens[..|lens| - 1], m);
    }
  }

  lemma RankBound(lens: Lens, s: nat)
    requires Used(lens, s)
    ensures Rank(lens, s) < |lens|
  {
    RankInRange(lens, s);
    UpToBound(lens, lens[s]);
  }

  /** No two symbols have the same place. */
  lemma RankInjective(lens: Lens, s: nat, t: nat)
    requires Used(lens, s) && Used(lens, t) && s < t
    ensures Rank(lens, s) != Rank(lens, t)
  {
    if lens[s] == lens[t] {
      CountPrefix(lens, s, t, lens[s]);
    } else {
      RankInRange(lens, s);
      RankInRange(lens, t);
      if lens[s] < lens[t] {
        UpToMonotone(lens, lens[s], lens[t] - 1);
      } else {
        UpToMonotone(lens, lens[t], lens[s] - 1);
      }
    }
  }

  /** How the place follows from the code. */
  lemma RankOfCode(lens: Lens, s: nat)
    requires Used(lens, s)
    ensures Rank(lens, s) == Code(lens, s) - First(lens, lens[s]) + CountUpTo(lens, lens[s] - 1)
  {
  }

  lemma Level(lens: Lens, l: nat)
    requires l > 0
    ensures End(lens, l) == First(lens, l) + Count(lens, l) && First(lens, l + 1) == 2 * End(lens, l)
    ensures CountUpTo(lens, l) == CountUpTo(lens, l - 1) + Count(lens, l)
    ensures (l > 1 ==> End(lens, l - 1) <= Pow2(l - 1)) && Count(lens, l) == 0 ==> End(lens, l) <= Pow2(l)
  {
  }

  lemma TooFull(lens: Lens, l: nat, max: nat)
    requires 1 <= l <= max && End(lens, l) > Pow2(l)
    ensures !Fits(lens, max)
  {
    if Fits(lens, max) {
      EndFits(lens, l, max);
    }
  }

  lemma NoneFound(lens: Lens, max: nat, b: Bitstring)
    requires Fits(lens, max) && |b| == 16 && max <= 16 && Leading(b, max) >= End(lens, max)
    ensures Found(lens, b) == None
  {
    hide Fits, Leading, End;
    NoneBelow(lens, max, b);
  }
}
