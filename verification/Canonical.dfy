/**
 Canonical Huffman codes (section 3.2.2 of RFC 1951).

 A code is given by its lengths alone: `lens[s]` is the length of symbol `s`, 0 when `s` is
 unused.  `First` is the smallest code of a length, `End` one past the largest, and `End` is
 also the Kraft sum of the lengths so far, scaled by two to that length.
 */
module Canonical {
  import opened Bits
  import opened Wrappers

  type Lens = seq<nat>

  /** How many symbols have length `l`. */
  function Count(lens: Lens, l: nat): (c: nat)
    ensures c <= |lens|
  {
    if lens == [] then 0 else Count(lens[..|lens| - 1], l) + if lens[|lens| - 1] == l then 1 else 0
  }

  function First(lens: Lens, l: nat): nat
    requires l > 0
    decreases l, 0
  {
    if l == 1 then 0 else 2 * End(lens, l - 1)
  }

  function End(lens: Lens, l: nat): nat
    requires l > 0
    decreases l, 1
  {
    First(lens, l) + Count(lens, l)
  }

  predicate Used(lens: Lens, s: nat) {
    s < |lens| && lens[s] > 0
  }

  /** The code of a used symbol: codes of one length are consecutive, in symbol order. */
  function Code(lens: Lens, s: nat): nat
    requires Used(lens, s)
  {
    First(lens, lens[s]) + Count(lens[..s], lens[s])
  }

  /** The code as it appears in the stream. */
  function CodeBits(lens: Lens, s: nat): (r: Bitstring)
    requires Used(lens, s)
    ensures |r| == lens[s]
  {
    MsbBits(Code(lens, s), lens[s])
  }

  /** The lengths can be those of a prefix code with codes of at most `max` bits. */
  predicate Fits(lens: Lens, max: nat) {
    max > 0 && (forall s :: 0 <= s < |lens| ==> lens[s] <= max) && End(lens, max) <= Pow2(max)
  }

  /** The code leaves no bit string undecodable. */
  predicate Complete(lens: Lens, max: nat) {
    Fits(lens, max) && End(lens, max) == Pow2(max)
  }

  ghost predicate Starts(lens: Lens, s: nat, bits: Bitstring) {
    Used(lens, s) && CodeBits(lens, s) <= bits
  }

  /** What decoding one symbol means: the symbol whose code the stream starts with. */
  ghost function DecodeSym(lens: Lens, bits: Bitstring): (r: Option<(nat, Bitstring)>)
    ensures r.Some? ==> Used(lens, r.value.0) && CodeBits(lens, r.value.0) + r.value.1 == bits
    ensures r.Some? ==> |r.value.1| < |bits|
  {
    if s: nat :| Starts(lens, s, bits) then
      assert CodeBits(lens, s) + bits[lens[s]..] == bits;
      Some((s, bits[lens[s]..]))
    else
      None
  }

  lemma {:induction false} CountPrefix(lens: Lens, m: nat, n: nat, l: nat)
    requires m <= n <= |lens|
    ensures Count(lens[..m], l) <= Count(lens[..n], l)
    ensures m < n && lens[m] == l ==> Count(lens[..m], l) < Count(lens[..n], l)
  {
    if m < n {
      assert lens[..n][..n - 1] == lens[..n - 1];
      CountPrefix(lens, m, n - 1, l);
    }
  }

  function Repeated(v: nat, n: nat): (r: seq<nat>)
    ensures |r| == n
  {
    seq(n, _ => v)
  }

  lemma {:induction false} CountRepeated(v: nat, n: nat, l: nat)
    ensures Count(Repeated(v, n), l) == if v == l then n else 0
  {
    var r := Repeated(v, n);
    if n > 0 {
      assert r[..n - 1] == Repeated(v, n - 1);
      CountRepeated(v, n - 1, l);
    }
  }

  lemma {:induction false} CountConcat(a: Lens, b: Lens, l: nat)
    ensures Count(a + b, l) == Count(a, l) + Count(b, l)
  {
    if b == [] {
      assert a + b == a;
    } else {
      assert (a + b)[..|a + b| - 1] == a + b[..|b| - 1];
      CountConcat(a, b[..|b| - 1], l);
    }
  }

  lemma {:induction false} CountAbsent(lens: Lens, l: nat)
    requires forall i :: 0 <= i < |lens| ==> lens[i] != l
    ensures Count(lens, l) == 0
  {
    if lens != [] {
      CountAbsent(lens[..|lens| - 1], l);
    }
  }

  lemma {:induction false} FirstSame(a: Lens, b: Lens, l: nat)
    requires l > 0 && forall k :: 0 < k < l ==> Count(a, k) == Count(b, k)
    ensures First(a, l) == First(b, l)
  {
    if l > 1 {
      FirstSame(a, b, l - 1);
    }
  }

  lemma CodeInRange(lens: Lens, s: nat)
    requires Used(lens, s)
    ensures First(lens, lens[s]) <= Code(lens, s) < End(lens, lens[s])
  {
    CountPrefix(lens, s, |lens|, lens[s]);
    assert lens[..|lens|] == lens;
  }

  /** Codes of a longer length start above every extension of the shorter codes. */
  lemma {:induction false} FirstAbove(lens: Lens, k: nat, l: nat)
    requires 0 < k < l
    ensures First(lens, l) >= Pow2(l - k) * End(lens, k)
  {
    if k + 1 == l {
      assert Pow2(1) == 2;
    } else {
      FirstAbove(lens, k, l - 1);
      MulAssoc(2, Pow2(l - 1 - k), End(lens, k));
    }
  }

  lemma EndFits(lens: Lens, l: nat, max: nat)
    requires 0 < l <= max && End(lens, max) <= Pow2(max)
    ensures End(lens, l) <= Pow2(l)
  {
    if l < max {
      FirstAbove(lens, l, max);
      Pow2Add(max - l, l);
      MulCancel(Pow2(max - l), End(lens, l), Pow2(l));
    }
  }

  lemma CodeFits(lens: Lens, s: nat, max: nat)
    requires Fits(lens, max) && Used(lens, s)
    ensures Code(lens, s) < Pow2(lens[s])
  {
    CodeInRange(lens, s);
    EndFits(lens, lens[s], max);
  }

  lemma LengthFits(lens: Lens, s: nat)
    requires Fits(lens, 15) && s < |lens|
    ensures lens[s] <= 15
  {
  }

  /** No code is a prefix of another symbol's code. */
  lemma PrefixFree(lens: Lens, max: nat, s: nat, t: nat)
    requires Fits(lens, max) && Used(lens, s) && Used(lens, t) && s != t
    ensures !(CodeBits(lens, s) <= CodeBits(lens, t))
  {
    if CodeBits(lens, s) <= CodeBits(lens, t) {
      var k := lens[t] - lens[s];
      CodePrefix(lens, max, s, t, k);
      SameOrLongerDiffers(lens, s, t, k);
    }
  }

  lemma CodePrefix(lens: Lens, max: nat, s: nat, t: nat, k: nat)
    requires Fits(lens, max) && Used(lens, s) && Used(lens, t) && lens[t] == lens[s] + k
    requires CodeBits(lens, s) <= CodeBits(lens, t)
    ensures Code(lens, s) == Shr(Code(lens, t), k)
  {
    CodeFits(lens, s, max);
    CodeFits(lens, t, max);
    hide Fits, Code;
    var c := Code(lens, t);
    MsbPrefix(c, lens[t], k);
    assert CodeBits(lens, s) == MsbBits(c, lens[t])[..lens[t] - k];
    Pow2Add(k, lens[s]);
    PrefixValue(c, k, lens[s]);
    MsbInjective(Code(lens, s), Shr(c, k), lens[s]);
  }

  lemma PrefixValue(v: nat, k: nat, n: nat)
    requires v < Pow2(k) * Pow2(n)
    ensures Shr(v, k) < Pow2(n)
  {
    LowShr(v, k);
    if Shr(v, k) >= Pow2(n) {
      MulMonotone(Pow2(k), Pow2(n), Shr(v, k));
    }
  }

  lemma SameOrLongerDiffers(lens: Lens, s: nat, t: nat, k: nat)
    requires Used(lens, s) && Used(lens, t) && s != t && lens[t] == lens[s] + k
    ensures Code(lens, s) != Shr(Code(lens, t), k)
  {
    if k == 0 {
      CountPrefix(lens, if s < t then s else t, if s < t then t else s, lens[s]);
    } else {
      FirstAbove(lens, lens[s], lens[t]);
      CodeInRange(lens, s);
      CodeInRange(lens, t);
      ShrAbove(Code(lens, t), k, End(lens, lens[s]));
    }
  }

  lemma ShrAbove(x: nat, k: nat, q: nat)
    requires x >= Pow2(k) * q
    ensures Shr(x, k) >= q
  {
    LowShr(x, k);
    if Shr(x, k) < q {
      MulMonotone(Pow2(k), Shr(x, k) + 1, q);
    }
  }

  /** A stream that starts with a symbol's code decodes to that symbol and nothing else. */
  lemma DecodeUnique(lens: Lens, max: nat, s: nat, rest: Bitstring)
    requires Fits(lens, max) && Used(lens, s)
    ensures DecodeSym(lens, CodeBits(lens, s) + rest) == Some((s, rest))
  {
    var bits := CodeBits(lens, s) + rest;
    assert Starts(lens, s, bits);
    var (t, after) := DecodeSym(lens, bits).value;
    assert bits[|CodeBits(lens, t)|..] == after;
    StartsUnique(lens, max, s, t, bits);
  }

  lemma StartsUnique(lens: Lens, max: nat, s: nat, t: nat, bits: Bitstring)
    requires Fits(lens, max) && Starts(lens, s, bits) && Starts(lens, t, bits)
    ensures s == t
  {
    var a, b := CodeBits(lens, s), CodeBits(lens, t);
    assert a == bits[..|a|] && b == bits[..|b|];
    if s != t {
      PrefixFree(lens, max, s, t);
      PrefixFree(lens, max, t, s);
    }
  }
}
