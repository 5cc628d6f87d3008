/**
 What the decompressor's tables mean (external/miniz.c, `tinfl_decompress`), told without tables.

 Codes of up to ten bits are found at once.  Longer ones are followed bit by bit from their first
 ten bits.  A bit string that is no code at all, which an incomplete code allows, is taken for
 symbol 0: with no bits used if its first ten bits begin no code, else with the bits up to the one
 that leaves the codes.
 */
module TrieCode {
  import opened Bits
  import opened Canonical
  import opened Wrappers

  const FAST_BITS := 10       // TINFL_FAST_LOOKUP_BITS

  datatype Hit = Hit(sym: nat, len: nat, missed: bool)

  ghost predicate IsCode(lens: Lens, s: nat, q: Bitstring) {
    Used(lens, s) && CodeBits(lens, s) == q
  }

  ghost predicate Extends(lens: Lens, s: nat, q: Bitstring) {
    Used(lens, s) && |q| < lens[s] && CodeBits(lens, s)[..|q|] == q
  }

  /** `q` is where some code goes on. */
  ghost predicate Inner(lens: Lens, q: Bitstring) {
    exists s: nat :: Extends(lens, s, q)
  }

  ghost predicate Short(lens: Lens, s: nat, bits: Bitstring) {
    Starts(lens, s, bits) && lens[s] <= FAST_BITS
  }

  /** What the tables find in front of a stream; nothing if they need more bits. */
  ghost function Lookup(lens: Lens, bits: Bitstring): (r: Option<Hit>)
    ensures r.Some? ==> r.value.len <= |bits|
  {
    if s: nat :| Short(lens, s, bits) then Some(Hit(s, lens[s], false))
    else if |bits| > FAST_BITS && Inner(lens, bits[..FAST_BITS]) then Follow(lens, bits, FAST_BITS)
    else if |bits| >= 15 then Some(Hit(0, 0, true))
    else None
  }

  /** Follows the bits from an inner place. */
  ghost function Follow(lens: Lens, bits: Bitstring, d: nat): (r: Option<Hit>)
    requires d < |bits|
    ensures r.Some? ==> r.value.len <= |bits|
    decreases |bits| - d
  {
    if Inner(lens, bits[..d + 1]) then if d + 1 < |bits| then Follow(lens, bits, d + 1) else None
    else Some(Landed(lens, bits[..d + 1]))
  }

  ghost function Landed(lens: Lens, q: Bitstring): (h: Hit)
    ensures h.len == |q|
  {
    if s: nat :| IsCode(lens, s, q) then Hit(s, |q|, false) else Hit(0, |q|, true)
  }

  lemma CodeUnique(lens: Lens, s: nat, t: nat, bits: Bitstring)
    requires Fits(lens, 15) && Starts(lens, s, bits) && Starts(lens, t, bits)
    ensures s == t
  {
    StartsUnique(lens, 15, s, t, bits);
  }

  /** Nothing goes on from a code, or from what a code begins. */
  lemma InnerFree(lens: Lens, s: nat, q: Bitstring)
    requires Fits(lens, 15) && Starts(lens, s, q)
    ensures !Inner(lens, q)
  {
    if t: nat :| Extends(lens, t, q) {
      var w := CodeBits(lens, t);
      assert CodeBits(lens, s) <= w[..|q|];
      assert w[..lens[s]] == w[..|q|][..lens[s]];
      assert Starts(lens, s, w) && Starts(lens, t, w);
      CodeUnique(lens, s, t, w);
      assert false;
    }
  }

  lemma InnerShort(lens: Lens, q: Bitstring)
    requires Fits(lens, 15) && Inner(lens, q)
    ensures |q| < 15
  {
  }

  lemma ShortUnique(lens: Lens, s: nat, bits: Bitstring)
    requires Fits(lens, 15) && Short(lens, s, bits)
    ensures Lookup(lens, bits) == Some(Hit(s, lens[s], false))
  {
    forall t: nat | Short(lens, t, bits)
      ensures t == s
    {
      CodeUnique(lens, s, t, bits);
    }
  }

  lemma LandedCode(lens: Lens, s: nat, q: Bitstring)
    requires Fits(lens, 15) && IsCode(lens, s, q)
    ensures Landed(lens, q) == Hit(s, |q|, false)
  {
    forall t: nat | IsCode(lens, t, q)
      ensures t == s
    {
      CodeUnique(lens, s, t, q);
    }
  }

  // ---------- more bits do not change what has been found ----------

  lemma {:induction false} FollowMore(lens: Lens, bits: Bitstring, more: Bitstring, d: nat)
    requires d < |bits| && Follow(lens, bits, d).Some?
    ensures Follow(lens, bits + more, d) == Follow(lens, bits, d)
    decreases |bits| - d
  {
    assert (bits + more)[..d + 1] == bits[..d + 1];
    if Inner(lens, bits[..d + 1]) {
      FollowMore(lens, bits, more, d + 1);
    }
  }

  lemma LookupMore(lens: Lens, bits: Bitstring, more: Bitstring)
    requires Fits(lens, 15) && Lookup(lens, bits).Some?
    ensures Lookup(lens, bits + more) == Lookup(lens, bits)
  {
    hide Fits, Code, Used;
    if s: nat :| Short(lens, s, bits) {
      ShortUnique(lens, s, bits);
      assert CodeBits(lens, s) <= bits + more;
      ShortUnique(lens, s, bits + more);
    } else {
      assert (bits + more)[..FAST_BITS] == bits[..FAST_BITS];
      NotShort(lens, bits, more);
      if Inner(lens, bits[..FAST_BITS]) {
        FollowMore(lens, bits, more, FAST_BITS);
      }
    }
  }

  lemma NotShort(lens: Lens, bits: Bitstring, more: Bitstring)
    requires |bits| >= FAST_BITS && !exists s: nat :: Short(lens, s, bits)
    ensures !exists s: nat :: Short(lens, s, bits + more)
  {
    forall s: nat
      ensures Short(lens, s, bits + more) ==> Short(lens, s, bits)
    {
      ShortLess(lens, s, bits, more);
    }
  }

  lemma ShortLess(lens: Lens, s: nat, bits: Bitstring, more: Bitstring)
    requires |bits| >= FAST_BITS
    ensures Short(lens, s, bits + more) ==> Short(lens, s, bits)
  {
    if Short(lens, s, bits + more) {
      assert CodeBits(lens, s) == (bits + more)[..lens[s]] == bits[..lens[s]];
    }
  }

  /** Fifteen bits are always enough. */
  lemma LookupEnough(lens: Lens, bits: Bitstring)
    requires Fits(lens, 15) && |bits| >= 15
    ensures Lookup(lens, bits).Some?
  {
    if Inner(lens, bits[..FAST_BITS]) {
      FollowEnough(lens, bits, FAST_BITS);
    }
  }

  lemma {:induction false} FollowEnough(lens: Lens, bits: Bitstring, d: nat)
    requires Fits(lens, 15) && d < 15 <= |bits|
    ensures Follow(lens, bits, d).Some?
    decreases 15 - d
  {
    if Inner(lens, bits[..d + 1]) {
      InnerShort(lens, bits[..d + 1]);
      FollowEnough(lens, bits, d + 1);
    }
  }

  // ---------- codes are found ----------

  /** The tables find every symbol whose code a stream starts with. */
  lemma LookupDecodes(lens: Lens, bits: Bitstring)
    requires Fits(lens, 15) && DecodeSym(lens, bits).Some?
    ensures var (s, rest) := DecodeSym(lens, bits).value;
            Lookup(lens, bits) == Some(Hit(s, lens[s], false)) && rest == bits[lens[s]..]
  {
    var (s, rest) := DecodeSym(lens, bits).value;
    assert bits == CodeBits(lens, s) + rest;
    assert Starts(lens, s, bits);
    if lens[s] <= FAST_BITS {
      ShortUnique(lens, s, bits);
    } else {
      LongFound(lens, s, bits);
    }
  }

  lemma LongFound(lens: Lens, s: nat, bits: Bitstring)
    requires Fits(lens, 15) && Starts(lens, s, bits) && lens[s] > FAST_BITS
    ensures Lookup(lens, bits) == Some(Hit(s, lens[s], false))
  {
    if t: nat :| Short(lens, t, bits) {
      CodeUnique(lens, s, t, bits);
      assert false;
    }
    CodeInner(lens, s, bits, FAST_BITS);
    FollowFound(lens, s, bits, FAST_BITS);
  }

  lemma CodeInner(lens: Lens, s: nat, bits: Bitstring, d: nat)
    requires Starts(lens, s, bits) && d < lens[s]
    ensures Inner(lens, bits[..d])
  {
    assert CodeBits(lens, s)[..d] == bits[..d];
    assert Extends(lens, s, bits[..d]);
  }

  lemma {:induction false} FollowFound(lens: Lens, s: nat, bits: Bitstring, d: nat)
    requires Fits(lens, 15) && Starts(lens, s, bits) && d < lens[s]
    ensures Follow(lens, bits, d) == Some(Hit(s, lens[s], false))
    decreases lens[s] - d
  {
    if d + 1 < lens[s] {
      CodeInner(lens, s, bits, d + 1);
      FollowFound(lens, s, bits, d + 1);
    } else {
      assert CodeBits(lens, s) == bits[..d + 1];
      InnerFree(lens, s, bits[..d + 1]);
      LandedCode(lens, s, bits[..d + 1]);
    }
  }
}
