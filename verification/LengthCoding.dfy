/**
 Run-length coding of code lengths in the header of a dynamic block: the part of
 `tdefl_start_dynamic_block` that fills `packed_code_sizes` (external/miniz.c).

 A packed code below 16 is a length.  The codes 16, 17 and 18 are followed by a repeat count.
 */
module LengthCoding {
  import opened Bits
  import opened Canonical
  import opened Deflate
  import opened Wrappers
  import HuffmanTree
  import TokenCode

  type Packed = seq<nat>

  /** The lengths a packed sequence stands for, after the lengths `acc`. */
  function Unpack(p: Packed, acc: Lens): Option<Lens>
    decreases |p|
  {
    if p == [] then Some(acc)
    else if p[0] < 16 then Unpack(p[1..], acc + [p[0]])
    else if p[0] > 18 || |p| == 1 || p[1] >= Pow2(RepeatBits(p[0])) || (p[0] == 16 && acc == []) then None
    else Unpack(p[2..], acc + RunOf(p[0], p[1], acc))
  }

  function RunOf(code: nat, extra: nat, acc: Lens): (r: Lens)
    requires code == 16 ==> acc != []
    ensures |r| >= 3
  {
    Repeated(if code == 16 then acc[|acc| - 1] else 0, RepeatBase(code) + extra)
  }

  /** The codes of a packed sequence, without their repeat counts. */
  function Codes(p: Packed): (c: seq<nat>)
    ensures |c| <= |p|
    decreases |p|
  {
    if p == [] then []
    else [p[0]] + Codes(if p[0] < 16 || |p| == 1 then p[1..] else p[2..])
  }

  lemma {:induction false} UnpackAppend(p: Packed, q: Packed, acc: Lens)
    requires Unpack(p, acc).Some?
    ensures Unpack(p + q, acc) == Unpack(q, Unpack(p, acc).value)
    ensures Codes(p + q) == Codes(p) + Codes(q)
    decreases |p|
  {
    if p == [] {
      assert p + q == q;
    } else if p[0] < 16 {
      assert (p + q)[1..] == p[1..] + q;
      UnpackAppend(p[1..], q, acc + [p[0]]);
      ConcatAssoc([p[0]], Codes(p[1..]), Codes(q));
    } else {
      assert (p + q)[2..] == p[2..] + q;
      UnpackAppend(p[2..], q, acc + RunOf(p[0], p[1], acc));
      ConcatAssoc([p[0]], Codes(p[2..]), Codes(q));
      hide RunOf, RepeatBits, Pow2;
    }
  }

  /** Unpacking never shrinks: the packed form is at most as long as what it stands for. */
  lemma {:induction false} UnpackGrows(p: Packed, acc: Lens)
    requires Unpack(p, acc).Some?
    ensures |acc| + |p| <= |Unpack(p, acc).value|
    decreases |p|
  {
    if p == [] {
    } else if p[0] < 16 {
      UnpackGrows(p[1..], acc + [p[0]]);
    } else {
      UnpackGrows(p[2..], acc + RunOf(p[0], p[1], acc));
    }
  }

  lemma {:induction false} UnpackPlain(v: nat, k: nat, acc: Lens)
    requires v < 16
    ensures Unpack(Repeated(v, k), acc) == Some(acc + Repeated(v, k))
    ensures Codes(Repeated(v, k)) == Repeated(v, k)
  {
    if k == 0 {
      assert acc + Repeated(v, 0) == acc;
    } else {
      UnpackPlain(v, k - 1, acc + [v]);
      assert Repeated(v, k)[1..] == Repeated(v, k - 1);
      assert acc + Repeated(v, k) == acc + [v] + Repeated(v, k - 1);
      assert Repeated(v, k) == [v] + Repeated(v, k - 1);
    }
  }

  lemma UnpackRun(code: nat, extra: nat, acc: Lens)
    requires 16 <= code <= 18 && extra < Pow2(RepeatBits(code)) && (code == 16 ==> acc != [])
    ensures Unpack([code, extra], acc) == Some(acc + RunOf(code, extra, acc))
    ensures Codes([code, extra]) == [code]
  {
    assert [code, extra][2..] == [];
  }

  /** How often each code occurs. */
  ghost predicate Tallied(count: seq<nat>, p: Packed) {
    && |count| == 19
    && (forall c :: 0 <= c < 19 ==> count[c] == multiset(Codes(p))[c])
    && HuffmanTree.Sum(count) == |Codes(p)|
  }

  lemma TalliedSize(count: seq<nat>, p: Packed)
    requires Tallied(count, p)
    ensures |count| == 19
  {
  }

  lemma {:induction false} SumUpdate(s: seq<nat>, i: nat, k: nat)
    requires i < |s|
    ensures HuffmanTree.Sum(s[i := s[i] + k]) == HuffmanTree.Sum(s) + k
  {
    if i == 0 {
      assert s[0 := s[0] + k][1..] == s[1..];
    } else {
      assert s[i := s[i] + k][1..] == s[1..][i - 1 := s[i] + k];
      SumUpdate(s[1..], i - 1, k);
    }
  }

  lemma TallyMore(count: seq<nat>, p: Packed, q: Packed, c: nat, k: nat)
    requires Tallied(count, p) && c < 19 && Codes(q) == Repeated(c, k) && Codes(p + q) == Codes(p) + Codes(q)
    ensures Tallied(count[c := count[c] + k], p + q)
  {
    hide Codes, HuffmanTree.Sum;
    SumUpdate(count, c, k);
    RepeatedMultiset(c, k);
    assert multiset(Codes(p) + Codes(q)) == multiset(Codes(p)) + multiset(Repeated(c, k));
  }

  lemma {:induction false} RepeatedMultiset(c: nat, k: nat)
    ensures forall x :: multiset(Repeated(c, k))[x] == if x == c then k else 0
  {
    if k > 0 {
      RepeatedMultiset(c, k - 1);
      assert Repeated(c, k) == Repeated(c, k - 1) + [c];
    }
  }

  // ---------- packing ----------

  /**
   Between two lengths: `p` stands for everything seen except the pending run of zeros, or of
   repeats of the previous length.
   */
  ghost predicate Pending(p: Packed, seen: Lens, zeros: nat, repeats: nat, prev: nat) {
    && zeros <= 138 && repeats <= 6 && (zeros == 0 || repeats == 0)
    && (seen == [] ==> prev == 255) && (seen != [] ==> prev == seen[|seen| - 1])
    && Unpack(p, []).Some?
    && var u := Unpack(p, []).value;
      && seen == u + Repeated(0, zeros) + Repeated(prev, repeats)
      && (repeats > 0 ==> 0 < prev < 16 && u != [] && u[|u| - 1] == prev)
  }

  /** Appending a piece `q` that stands for all that is pending. */
  lemma AppendPiece(p: Packed, q: Packed, count: seq<nat>, seen: Lens, prev: nat, c: nat, k: nat)
    requires Tallied(count, p) && Unpack(p, []).Some?
    requires Unpack(q, Unpack(p, []).value) == Some(seen) && Codes(q) == Repeated(c, k) && c < 19
    requires (seen == [] ==> prev == 255) && (seen != [] ==> prev == seen[|seen| - 1])
    ensures Pending(p + q, seen, 0, 0, prev) && Tallied(count[c := count[c] + k], p + q)
  {
    UnpackAppend(p, q, []);
    TallyMore(count, p, q, c, k);
    hide Unpack, Codes, Tallied;
    assert seen + Repeated(0, 0) + Repeated(prev, 0) == seen;
  }

  lemma PendingRun(p: Packed, seen: Lens, zeros: nat, repeats: nat, prev: nat)
    requires Pending(p, seen, zeros, repeats, prev) && zeros + repeats > 0
    ensures Unpack(p, []).Some? && (repeats > 0 ==> prev < 16)
    ensures Unpack(p, []).value + Repeated(if repeats > 0 then prev else 0, zeros + repeats) == seen
    ensures (seen == [] ==> prev == 255) && (seen != [] ==> prev == seen[|seen| - 1])
    ensures repeats > 0 ==> var u := Unpack(p, []).value; u != [] && u[|u| - 1] == prev
  {
    hide Unpack;
    var u := Unpack(p, []).value;
    if repeats > 0 {
      assert u + Repeated(0, 0) == u;
    } else {
      assert u + Repeated(0, zeros) + Repeated(prev, 0) == u + Repeated(0, zeros);
    }
  }

  lemma AppendPlain(p: Packed, count: seq<nat>, seen: Lens, zeros: nat, repeats: nat, prev: nat, c: nat, k: nat)
    requires Pending(p, seen, zeros, repeats, prev) && Tallied(count, p)
    requires c == (if repeats > 0 then prev else 0) && k == zeros + repeats > 0
    ensures c < 16 && |count| == 19 && Pending(p + Repeated(c, k), seen, 0, 0, prev)
    ensures Tallied(count[c := count[c] + k], p + Repeated(c, k))
  {
    PendingRun(p, seen, zeros, repeats, prev);
    hide Pending, Unpack, Codes, Repeated, Tallied;
    TalliedSize(count, p);
    UnpackPlain(c, k, Unpack(p, []).value);
    AppendPiece(p, Repeated(c, k), count, seen, prev, c, k);
  }

  lemma AppendRun(p: Packed, count: seq<nat>, seen: Lens, zeros: nat, repeats: nat, prev: nat, code: nat, extra: nat)
    requires Pending(p, seen, zeros, repeats, prev) && Tallied(count, p)
    requires if repeats > 0 then code == 16 && repeats == 3 + extra else
               (code == 17 && zeros == 3 + extra && zeros <= 10) || (code == 18 && zeros == 11 + extra)
    ensures |count| == 19 && Pending(p + [code, extra], seen, 0, 0, prev)
    ensures Tallied(count[code := count[code] + 1], p + [code, extra])
  {
    PendingRun(p, seen, zeros, repeats, prev);
    assert zeros <= 138 && repeats <= 6 && (zeros == 0 || repeats == 0);
    Pow2Values();
    RepeatedOne(code);
    hide Pending, Unpack, Codes, Repeated;
    UnpackRun(code, extra, Unpack(p, []).value);
    AppendPiece(p, [code, extra], count, seen, prev, code, 1);
  }

  /** Emptied of pending runs, the packed form is no longer than what it stands for. */
  lemma PendingFits(p: Packed, seen: Lens, zeros: nat, repeats: nat, prev: nat)
    requires Pending(p, seen, zeros, repeats, prev)
    ensures |p| + zeros + repeats <= |seen|
    ensures repeats > 0 ==> 0 < prev < 16
    ensures zeros <= 138 && repeats <= 6 && (zeros == 0 || repeats == 0)
  {
    UnpackGrows(p, []);
  }

  lemma OneMoreZero(p: Packed, seen: Lens, zeros: nat, prev: nat)
    requires Pending(p, seen, zeros, 0, prev) && zeros < 138
    ensures Pending(p, seen + [0], zeros + 1, 0, 0)
  {
    RepeatedSnoc(0, zeros);
    assert Repeated(prev, 0) == [] && Repeated(0, 0) == [];
    ConcatAssoc(Unpack(p, []).value, Repeated(0, zeros), [0]);
  }

  lemma OneMoreRepeat(p: Packed, seen: Lens, repeats: nat, prev: nat)
    requires Pending(p, seen, 0, repeats, prev) && repeats < 6 && 0 < prev < 16
    ensures Pending(p, seen + [prev], 0, repeats + 1, prev)
  {
    RepeatedSnoc(prev, repeats);
    var u := Unpack(p, []).value;
    assert u + Repeated(0, 0) == u;
    ConcatAssoc(u, Repeated(prev, repeats), [prev]);
  }

  lemma NewLength(p: Packed, count: seq<nat>, seen: Lens, prev: nat, size: nat)
    requires Pending(p, seen, 0, 0, prev) && 0 < size < 16 && Tallied(count, p)
    ensures Pending(p + Repeated(size, 1), seen + [size], 0, 0, size)
    ensures Tallied(count[size := count[size] + 1], p + Repeated(size, 1))
  {
    NothingPending(p, seen, prev);
    UnpackPlain(size, 1, seen);
    RepeatedOne(size);
    hide Pending, Unpack, Codes, Repeated;
    AppendPiece(p, Repeated(size, 1), count, seen + [size], size, size, 1);
  }

  lemma NothingPending(p: Packed, seen: Lens, prev: nat)
    requires Pending(p, seen, 0, 0, prev)
    ensures Unpack(p, []) == Some(seen)
  {
    var u := Unpack(p, []).value;
    assert u + Repeated(0, 0) + Repeated(prev, 0) == u;
  }

  /** `while (k--) packed[n++] = c`, without the bookkeeping. */
  method WriteCopies(packed: array<nat>, n: nat, c: nat, k: nat)
    requires n + k <= packed.Length
    modifies packed
    ensures packed[..n + k] == old(packed[..n]) + Repeated(c, k)
  {
    ghost var p := packed[..n];
    var i: nat := 0;
    while i < k
      invariant i <= k
      invariant packed[..n] == p
      invariant forall j :: n <= j < n + i ==> packed[j] == c
    {
      packed[n + i] := c;
      i := i + 1;
    }
  }

  class LengthPacker {
    const packed: array<nat>    // packed_code_sizes
    const count: array<nat>     // m_huff_count[2]
    var n: nat                  // num_packed_code_sizes
    var zeros: nat              // rle_z_count
    var repeats: nat            // rle_repeat_count
    var prev: nat               // prev_code_size

    ghost predicate Valid(seen: Lens)
      reads this, packed, count
    {
      && packed.Length == 320 && count.Length == 19 && packed != count
      && n <= |seen| <= 320
      && Pending(packed[..n], seen, zeros, repeats, prev)
      && Tallied(count[..], packed[..n])
    }

    constructor (count: array<nat>)
      requires count.Length == 19 && forall c :: 0 <= c < 19 ==> count[c] == 0
      ensures Valid([]) && this.count == count && fresh(packed) && zeros == 0 && repeats == 0
    {
      packed := new nat[320](_ => 0);
      this.count := count;
      n, zeros, repeats, prev := 0, 0, 0, 255;
      new;
      SumZeros(count[..]);
      assert packed[..n] == [];
    }

    /** Appends `k` copies of a plain code. */
    method EmitPlain(c: nat, k: nat)
      requires packed.Length == 320 && count.Length == 19 && packed != count && n + k <= 320 && c < 16
      modifies this`n, packed, count
      ensures n == old(n) + k && packed[..n] == old(packed[..n]) + Repeated(c, k)
      ensures count[..] == old(count[..])[c := old(count[c]) + k]
    {
      count[c] := count[c] + k;
      WriteCopies(packed, n, c, k);
      n := n + k;
    }

    /** Appends a repeat code and its count. */
    method EmitRun(code: nat, extra: nat)
      requires packed.Length == 320 && count.Length == 19 && packed != count && n + 2 <= 320 && 16 <= code < 19
      modifies this`n, packed, count
      ensures n == old(n) + 2 && packed[..n] == old(packed[..n]) + [code, extra]
      ensures count[..] == old(count[..])[code := old(count[code]) + 1]
    {
      count[code] := count[code] + 1;
      packed[n] := code;
      packed[n + 1] := extra;
      n := n + 2;
    }

    /** TDEFL_RLE_PREV_CODE_SIZE: writes out pending repeats. */
    method FlushRepeats(ghost seen: Lens)
      requires Valid(seen)
      modifies this`n, this`repeats, packed, count
      ensures Valid(seen) && repeats == 0 && (old(repeats) > 0 ==> zeros == 0)
    {
      hide Pending, Tallied, Codes, Unpack, Repeated;
      ghost var p := packed[..n];
      PendingFits(p, seen, zeros, repeats, prev);
      if repeats > 0 {
        if repeats < 3 {
          AppendPlain(p, count[..], seen, zeros, repeats, prev, prev, repeats);
          EmitPlain(prev, repeats);
        } else {
          AppendRun(p, count[..], seen, zeros, repeats, prev, 16, repeats - 3);
          EmitRun(16, repeats - 3);
        }
        repeats := 0;
        PendingFits(packed[..n], seen, zeros, repeats, prev);
      }
    }

    /** TDEFL_RLE_ZERO_CODE_SIZE: writes out pending zeros. */
    method FlushZeros(ghost seen: Lens)
      requires Valid(seen)
      modifies this`n, this`zeros, packed, count
      ensures Valid(seen) && zeros == 0 && (old(zeros) > 0 ==> repeats == 0)
    {
      hide Pending, Tallied, Codes, Unpack, Repeated;
      ghost var p := packed[..n];
      PendingFits(p, seen, zeros, repeats, prev);
      if zeros > 0 {
        if zeros < 3 {
          AppendPlain(p, count[..], seen, zeros, repeats, prev, 0, zeros);
          EmitPlain(0, zeros);
        } else if zeros <= 10 {
          AppendRun(p, count[..], seen, zeros, repeats, prev, 17, zeros - 3);
          EmitRun(17, zeros - 3);
        } else {
          AppendRun(p, count[..], seen, zeros, repeats, prev, 18, zeros - 11);
          EmitRun(18, zeros - 11);
        }
        zeros := 0;
        PendingFits(packed[..n], seen, zeros, repeats, prev);
      }
    }

    /** Takes in the next length. */
    method Push(size: nat, ghost seen: Lens)
      requires Valid(seen) && zeros < 138 && repeats < 6 && size < 16 && |seen| < 320
      modifies this, packed, count
      ensures Valid(seen + [size]) && zeros < 138 && repeats < 6
    {
      hide Pending, Tallied, Codes, Unpack, Repeated;
      if size == 0 {
        FlushRepeats(seen);
        OneMoreZero(packed[..n], seen, zeros, prev);
        zeros := zeros + 1;
        prev := size;
        if zeros == 138 {
          FlushZeros(seen + [0]);
        }
      } else {
        FlushZeros(seen);
        if size != prev {
          FlushRepeats(seen);
          NewLength(packed[..n], count[..], seen, prev, size);
          PendingFits(packed[..n], seen, 0, 0, prev);
          EmitPlain(size, 1);
          prev := size;
          PendingFits(packed[..n], seen + [size], 0, 0, prev);
        } else {
          OneMoreRepeat(packed[..n], seen, repeats, prev);
          repeats := repeats + 1;
          if repeats == 6 {
            FlushRepeats(seen + [prev]);
          }
        }
      }
    }

    /** Writes out what is pending at the end. */
    method Finish(ghost seen: Lens)
      requires Valid(seen)
      modifies this, packed, count
      ensures n <= 320 && Tallied(count[..], packed[..n])
      ensures Unpack(packed[..n], []) == Some(seen)
    {
      PendingFits(packed[..n], seen, zeros, repeats, prev);
      hide Pending, Tallied;
      if repeats > 0 {
        FlushRepeats(seen);
      } else {
        FlushZeros(seen);
      }
      NothingPending(packed[..n], seen, prev);
    }
  }

  lemma RepeatedOne(c: nat)
    ensures Repeated(c, 1) == [c]
  {
  }

  lemma RepeatedSnoc(c: nat, k: nat)
    ensures Repeated(c, k + 1) == Repeated(c, k) + [c]
  {
  }

  lemma {:induction false} SumZeros(s: seq<nat>)
    requires forall i :: 0 <= i < |s| ==> s[i] == 0
    ensures HuffmanTree.Sum(s) == 0
  {
    if s != [] {
      SumZeros(s[1..]);
    }
  }

  // ---------- sending the packed form ----------

  ghost predicate Sendable(c: Lens, p: Packed)
    decreases |p|
  {
    p == [] || (Used(c, p[0]) && if p[0] < 16 then Sendable(c, p[1..]) else |p| > 1 && Sendable(c, p[2..]))
  }

  ghost function PackedBits(c: Lens, p: Packed): Bitstring
    requires Sendable(c, p)
    decreases |p|
  {
    if p == [] then []
    else if p[0] < 16 then CodeBits(c, p[0]) + PackedBits(c, p[1..])
    else CodeBits(c, p[0]) + ToBits(p[1], RepeatBits(p[0])) + PackedBits(c, p[2..])
  }

  lemma {:induction false} SendableCodes(c: Lens, p: Packed, acc: Lens)
    requires Unpack(p, acc).Some? && forall x :: x in Codes(p) ==> Used(c, x)
    ensures Sendable(c, p)
    decreases |p|
  {
    if p != [] {
      assert p[0] in Codes(p);
      var tail := if p[0] < 16 then p[1..] else p[2..];
      assert Codes(p) == [p[0]] + Codes(tail);
      assert forall x :: x in Codes(tail) ==> x in Codes(p);
      hide Codes, Used, RunOf;
      SendableCodes(c, tail, if p[0] < 16 then acc + [p[0]] else acc + RunOf(p[0], p[1], acc));
    }
  }

  /** The decoder's expansion returns the packed lengths. */
  lemma {:induction false} PackedDecodes(c: Lens, p: Packed, acc: Lens, n: nat, rest: Bitstring)
    requires Fits(c, 15) && Sendable(c, p) && Unpack(p, acc).Some? && |Unpack(p, acc).value| == n
    ensures ReadLens(c, PackedBits(c, p) + rest, n, acc) == Some((Unpack(p, acc).value, rest))
    decreases |p|
  {
    UnpackGrows(p, acc);
    if p == [] {
      assert PackedBits(c, p) + rest == rest;
    } else if p[0] < 16 {
      var tail := PackedBits(c, p[1..]) + rest;
      ConcatAssoc(CodeBits(c, p[0]), PackedBits(c, p[1..]), rest);
      DecodeUnique(c, 15, p[0], tail);
      PackedDecodes(c, p[1..], acc + [p[0]], n, rest);
      assert AfterLenSymbol(c, p[0], tail, n, acc) == ReadLens(c, tail, n, acc + [p[0]]);
      hide Unpack, Fits, PackedBits;
    } else {
      RunDecodes(c, p, acc, n, rest);
    }
  }

  lemma RunDecodes(c: Lens, p: Packed, acc: Lens, n: nat, rest: Bitstring)
    requires Fits(c, 15) && Sendable(c, p) && Unpack(p, acc).Some? && |Unpack(p, acc).value| == n
    requires p != [] && p[0] >= 16
    ensures ReadLens(c, PackedBits(c, p) + rest, n, acc) == Some((Unpack(p, acc).value, rest))
    decreases |p|, 0
  {
    UnpackGrows(p, acc);
    var sym, extra := p[0], p[1];
    var acc' := acc + RunOf(sym, extra, acc);
    assert Unpack(p, acc) == Unpack(p[2..], acc');
    var x, y, z := CodeBits(c, sym), ToBits(extra, RepeatBits(sym)), PackedBits(c, p[2..]);
    ConcatAssoc(x + y, z, rest);
    ConcatAssoc(x, y, z + rest);
    var tail := y + (z + rest);
    assert PackedBits(c, p) + rest == x + tail;
    DecodeUnique(c, 15, sym, tail);
    PackedDecodes(c, p[2..], acc', n, rest);
    RunRead(c, sym, extra, acc, n, z + rest);
    hide Unpack, Fits, PackedBits, ReadBits, DecodeSym, AfterLenSymbol, Sendable, RunOf, ToBits;
  }

  lemma RunRead(c: Lens, sym: nat, extra: nat, acc: Lens, n: nat, rest: Bitstring)
    requires 16 <= sym <= 18 && extra < Pow2(RepeatBits(sym)) && (sym == 16 ==> acc != [])
    ensures AfterLenSymbol(c, sym, ToBits(extra, RepeatBits(sym)) + rest, n, acc) ==
            ReadLens(c, rest, n, acc + RunOf(sym, extra, acc))
  {
    TokenCode.ReadBack(extra, RepeatBits(sym), rest);
    hide ReadBits, ToBits, Repeated;
  }
}
