/**
 Limiting the length of Huffman codes: `tdefl_huffman_enforce_max_code_size` of external/miniz.c.

 The input is a histogram of code lengths.  Codes that are too long are first cut to the limit,
 which makes the code overfull; then one over-long code at a time is given room by moving a
 shorter code one level down.
 */
module LengthLimit {
  import opened Bits

  const MAX_SUPPORTED := 32

  /** Kraft sum of the lengths `1..m`, scaled by two to the `m`. */
  function Kraft(c: seq<int>, m: nat): int
    requires m < |c|
  {
    if m == 0 then 0 else 2 * Kraft(c, m - 1) + c[m]
  }

  /** How many codes there are with lengths in `from + 1..m`. */
  function Codes(c: seq<int>, from: nat, m: nat): int
    requires from <= m < |c|
  {
    if m == from then 0 else Codes(c, from, m - 1) + c[m]
  }

  predicate Counts(c: seq<int>) {
    forall i :: 0 <= i < |c| ==> c[i] >= 0
  }

  // ---------- cutting ----------

  lemma {:induction false} CutBounds(c: seq<int>, max: nat, m: nat)
    requires Counts(c) && max <= m < |c|
    ensures Pow2(m - max) * Kraft(c, max) <= Kraft(c, m) <= Pow2(m - max) * (Kraft(c, max) + Codes(c, max, m))
    ensures Codes(c, max, m) >= 0
    ensures Codes(c, max, m) > 0 ==> Pow2(m - max) * Kraft(c, max) < Kraft(c, m)
  {
    if max < m {
      CutBounds(c, max, m - 1);
      var p := Pow2(m - 1 - max);
      MulAssoc(2, p, Kraft(c, max));
      MulAssoc(2, p, Kraft(c, max) + Codes(c, max, m - 1));
      MulMonotone(c[m], 1, 2 * p);
      MulAdd(2 * p, Kraft(c, max) + Codes(c, max, m - 1), c[m]);
    }
  }

  lemma MulAdd(x: int, y: int, z: int)
    ensures x * (y + z) == x * y + z * x
  {
  }

  /** Cutting a complete code overfills it by less than the number of codes it cut. */
  lemma CutExcess(c: seq<int>, max: nat)
    requires Counts(c) && 0 < max < MAX_SUPPORTED && |c| == MAX_SUPPORTED + 1
    requires Kraft(c, MAX_SUPPORTED) == Pow2(MAX_SUPPORTED)
    ensures var cut := Codes(c, max, MAX_SUPPORTED);
            0 <= Kraft(c, max) + cut - Pow2(max) && (cut > 0 ==> Kraft(c, max) < Pow2(max)) &&
                (cut == 0 ==> Kraft(c, max) == Pow2(max))
  {
    hide Pow2, Kraft, Codes;
    CutBounds(c, max, MAX_SUPPORTED);
    var p, cut := Pow2(MAX_SUPPORTED - max), Codes(c, max, MAX_SUPPORTED);
    Pow2Add(MAX_SUPPORTED - max, max);
    MulCancel(p, Pow2(max), Kraft(c, max) + cut);
    MulCancel(p, Kraft(c, max), Pow2(max));
    if Kraft(c, max) == Pow2(max) {
      assert cut == 0;
    }
  }

  lemma {:induction false} KraftUpdate(c: seq<int>, i: nat, v: int, m: nat)
    requires m < |c| && i < |c|
    ensures m < i ==> Kraft(c[i := v], m) == Kraft(c, m)
    ensures i == m > 0 ==> Kraft(c[i := v], m) == Kraft(c, m) + v - c[i]
  {
    if m > 0 && m <= i {
      KraftUpdate(c, i, v, m - 1);
    }
  }

  lemma {:induction false} CodesUpdate(c: seq<int>, i: nat, v: int, m: nat)
    requires m < |c| && 0 < i < |c|
    ensures Codes(c[i := v], 0, m) == Codes(c, 0, m) + if i <= m then v - c[i] else 0
  {
    if m > 0 {
      CodesUpdate(c, i, v, m - 1);
    }
  }

  // ---------- making room ----------

  /** `c` with one code of length `i` replaced by two that are one bit longer. */
  function Split(c: seq<int>, i: nat): (r: seq<int>)
    requires i + 1 < |c|
    ensures |r| == |c|
  {
    c[i := c[i] - 1][i + 1 := c[i + 1] + 2]
  }

  lemma {:induction false} SplitKeepsKraft(c: seq<int>, i: nat, m: nat)
    requires 0 < i < m < |c|
    ensures Kraft(Split(c, i), m) == Kraft(c, m)
    ensures Codes(Split(c, i), 0, m) == Codes(c, 0, m) + 1
  {
    if m == i + 1 {
      KraftUpdate(c, i, c[i] - 1, i);
      KraftUpdate(c[i := c[i] - 1], i + 1, c[i + 1] + 2, i);
      CodesUpdate(c, i, c[i] - 1, m);
      CodesUpdate(c[i := c[i] - 1], i + 1, c[i + 1] + 2, m);
    } else {
      SplitKeepsKraft(c, i, m - 1);
    }
  }

  lemma {:induction false} OnlyLongest(c: seq<int>, m: nat)
    requires m < |c| && forall j :: 0 < j <= m ==> c[j] == 0
    ensures Kraft(c, m) == 0 && Codes(c, 0, m) == 0
  {
    if m > 0 {
      OnlyLongest(c, m - 1);
    }
  }

  /** An overfull code of few enough codes has one that is shorter than the limit. */
  lemma ShorterExists(c: seq<int>, max: nat)
    requires 0 < max < |c| && Counts(c)
    requires Codes(c, 0, max) <= Pow2(max) < Kraft(c, max)
    ensures exists j :: 0 < j < max && c[j] > 0
  {
    if forall j :: 0 < j < max ==> c[j] == 0 {
      OnlyLongest(c, max - 1);
    }
  }

  /** The state of the second loop: how far the code is overfull, and why the limit has codes to spare. */
  ghost predicate Overfull(c: seq<int>, max: nat, codes: nat, total: int) {
    && 0 < max < |c| && Counts(c)
    && Codes(c, 0, max) == codes <= Pow2(max)
    && Kraft(c, max) == total >= Pow2(max)
    && (total > Pow2(max) ==> total - Pow2(max) < c[max])
  }

  lemma RoomExists(c: seq<int>, max: nat, codes: nat, total: int)
    requires Overfull(c, max, codes, total) && total != Pow2(max)
    ensures total > Pow2(max) && Counts(c) && 0 < max < |c| && exists j :: 0 < j < max && c[j] > 0
  {
    ShorterExists(c, max);
  }

  lemma RoomMade(c: seq<int>, max: nat, codes: nat)
    requires Overfull(c, max, codes, Pow2(max))
    ensures Counts(c) && max < |c| && Codes(c, 0, max) == codes && Kraft(c, max) == Pow2(max)
  {
  }

  lemma MakeRoom(c: seq<int>, max: nat, codes: nat, total: int, i: nat)
    requires Overfull(c, max, codes, total) && total > Pow2(max)
    requires 0 < i < max && c[i] > 0
    ensures Overfull(Split(c[max := c[max] - 1], i), max, codes, total - 1)
  {
    var d := c[max := c[max] - 1];
    KraftUpdate(c, max, c[max] - 1, max);
    CodesUpdate(c, max, c[max] - 1, max);
    SplitKeepsKraft(d, i, max);
  }

  /** Every code that is too long counts as one of the limit. */
  function Cut(c: seq<int>, max: nat): (r: seq<int>)
    requires max <= MAX_SUPPORTED < |c|
    ensures |r| == |c|
  {
    c[max := c[max] + Codes(c, max, MAX_SUPPORTED)]
  }

  /** After codes of the given lengths have been moved down, each to make room for one of the limit. */
  function After(c: seq<int>, max: nat, steps: seq<nat>): (r: seq<int>)
    requires max < |c|
    ensures |r| == |c|
  {
    if steps == [] then c
    else
      var d, i := After(c, max, steps[..|steps| - 1]), steps[|steps| - 1];
      if i < max then Split(d[max := d[max] - 1], i) else d
  }

  /** The code is overfull, and `i` is the longest length in use below the limit. */
  predicate Moves(d: seq<int>, max: nat, i: nat) {
    && 0 < i < max < |d| && d[i] > 0 && d[max] > 0 && Kraft(d, max) > Pow2(max)
    && forall j :: i < j < max ==> d[j] == 0
  }

  predicate Legal(c: seq<int>, max: nat, steps: seq<nat>)
    requires max < |c|
  {
    steps == [] ||
    (Legal(c, max, steps[..|steps| - 1]) && Moves(After(c, max, steps[..|steps| - 1]), max, steps[|steps| - 1]))
  }

  lemma OneStep(c: seq<int>, max: nat, steps: seq<nat>, i: nat)
    requires max < |c| && Legal(c, max, steps) && Moves(After(c, max, steps), max, i)
    ensures Legal(c, max, steps + [i])
    ensures var d := After(c, max, steps); After(c, max, steps + [i]) == Split(d[max := d[max] - 1], i)
  {
    assert (steps + [i])[..|steps|] == steps;
  }

  /**
   The whole of `tdefl_huffman_enforce_max_code_size`; `steps` says which lengths were moved down.
   */
  method EnforceMaxCodeSize(num: array<int>, codeListLen: nat, max: nat) returns (ghost steps: seq<nat>)
    requires num.Length == MAX_SUPPORTED + 1 && 0 < max <= 15
    requires Counts(num[..]) && Codes(num[..], 0, MAX_SUPPORTED) == codeListLen <= Pow2(max)
    requires codeListLen > 1 ==> Kraft(num[..], MAX_SUPPORTED) == Pow2(MAX_SUPPORTED)
    modifies num
    ensures codeListLen <= 1 || Codes(old(num[..]), max, MAX_SUPPORTED) == 0 ==> num[..] == old(num[..])
    ensures Counts(num[..])
    ensures codeListLen > 1 ==> Codes(num[..], 0, max) == codeListLen && Kraft(num[..], max) == Pow2(max)
    ensures codeListLen > 1 ==>
            Legal(Cut(old(num[..]), max), max, steps) && num[..] == After(Cut(old(num[..]), max), max, steps)
  {
    hide Overfull, Moves, Legal, After, Kraft, Codes;
    steps := [];
    if codeListLen <= 1 {
      return;
    }
    ghost var was := num[..];
    CutLengths(num, codeListLen, max);
    ghost var c := num[..];
    NoSteps(c, max);
    var total := KraftTotal(num, max);
    while total != Pow2(max)
      invariant Overfull(num[..], max, codeListLen, total)
      invariant Codes(was, max, MAX_SUPPORTED) == 0 ==> num[..] == was && total == Pow2(max)
      invariant Legal(c, max, steps) && num[..] == After(c, max, steps)
      decreases total
    {
      ghost var i := MoveOneUp(num, max, codeListLen, total);
      OneStep(c, max, steps, i);
      steps := steps + [i];
      total := total - 1;
    }
    RoomMade(num[..], max, codeListLen);
  }

  lemma NoSteps(c: seq<int>, max: nat)
    requires max < |c|
    ensures Legal(c, max, []) && After(c, max, []) == c
  {
  }

  lemma MovesAt(c: seq<int>, max: nat, codes: nat, total: int, i: nat)
    requires Overfull(c, max, codes, total) && total > Pow2(max)
    requires 0 < i < max && c[i] > 0 && forall j :: i < j < max ==> c[j] == 0
    ensures Moves(c, max, i)
  {
  }

  /** Takes one code off the limit and hangs it beside the nearest shorter code. */
  method MoveOneUp(num: array<int>, max: nat, ghost codes: nat, ghost total: int) returns (ghost at: nat)
    requires Overfull(num[..], max, codes, total) && total != Pow2(max)
    modifies num
    ensures Overfull(num[..], max, codes, total - 1) && total > Pow2(max)
    ensures Moves(old(num[..]), max, at) && num[..] == Split(old(num[..])[max := old(num[max]) - 1], at)
  {
    hide Overfull, Moves;
    ghost var c := num[..];
    RoomExists(c, max, codes, total);
    num[max] := num[max] - 1;
    var i := max - 1;
    while i > 0 && num[i] == 0
      invariant 0 <= i < max && forall j :: i < j < max ==> c[j] == 0
      invariant num[..] == c[max := c[max] - 1]
    {
      i := i - 1;
    }
    MakeRoom(c, max, codes, total, i);
    MovesAt(c, max, codes, total, i);
    at := i;
    num[i] := num[i] - 1;
    num[i + 1] := num[i + 1] + 2;
    assert num[..] == Split(c[max := c[max] - 1], i);
  }

  /** Counts every code that is too long as one of the limit. */
  method CutLengths(num: array<int>, codeListLen: nat, max: nat)
    requires num.Length == MAX_SUPPORTED + 1 && 0 < max <= 15
    requires Counts(num[..]) && Codes(num[..], 0, MAX_SUPPORTED) == codeListLen <= Pow2(max)
    requires Kraft(num[..], MAX_SUPPORTED) == Pow2(MAX_SUPPORTED)
    modifies num
    ensures Overfull(num[..], max, codeListLen, Kraft(num[..], max))
    ensures num[..] == Cut(old(num[..]), max)
    ensures Kraft(num[..], max) < 0x1_0000_0000
    ensures Codes(old(num[..]), max, MAX_SUPPORTED) == 0 ==> num[..] == old(num[..]) && Kraft(num[..], max) == Pow2(max)
  {
    ghost var c := num[..];
    var i := max + 1;
    while i <= MAX_SUPPORTED
      invariant max < i <= MAX_SUPPORTED + 1
      invariant num[..] == c[max := c[max] + Codes(c, max, i - 1)]
    {
      num[max] := num[max] + num[i];
      i := i + 1;
    }
    CutIsOverfull(c, codeListLen, max);
  }

  lemma CutIsOverfull(c: seq<int>, codes: nat, max: nat)
    requires |c| == MAX_SUPPORTED + 1 && 0 < max <= 15
    requires Counts(c) && Codes(c, 0, MAX_SUPPORTED) == codes <= Pow2(max)
    requires Kraft(c, MAX_SUPPORTED) == Pow2(MAX_SUPPORTED)
    ensures var d := c[max := c[max] + Codes(c, max, MAX_SUPPORTED)];
            Overfull(d, max, codes, Kraft(d, max)) && Kraft(d, max) < 0x1_0000_0000
    ensures Codes(c, max, MAX_SUPPORTED) == 0 ==> Kraft(c, max) == Pow2(max) && c[max := c[max]] == c
  {
    hide Pow2;
    var cut := Codes(c, max, MAX_SUPPORTED);
    CutBounds(c, max, MAX_SUPPORTED);
    CutBounds(c, 0, max);
    CutExcess(c, max);
    KraftUpdate(c, max, c[max] + cut, max);
    CodesUpdate(c, max, c[max] + cut, max);
    CodesSplit(c, max, MAX_SUPPORTED);
    Pow2Monotone(max, 15);
    Pow2Values();
  }

  lemma {:induction false} CodesSplit(c: seq<int>, k: nat, m: nat)
    requires k <= m < |c|
    ensures Codes(c, 0, m) == Codes(c, 0, k) + Codes(c, k, m)
  {
    if k < m {
      CodesSplit(c, k, m - 1);
    }
  }

  /** Sums the codes scaled to the limit, in 32-bit unsigned arithmetic. */
  method KraftTotal(num: array<int>, max: nat) returns (total: nat)
    requires max < num.Length && Counts(num[..]) && Kraft(num[..], max) < 0x1_0000_0000
    ensures total == Kraft(num[..], max)
  {
    ghost var c := num[..];
    total := 0;
    var i := max;
    while i > 0
      invariant 0 <= i <= max
      invariant total + Pow2(max - i) * Kraft(c, i) == Kraft(c, max)
    {
      CutBounds(c, 0, i - 1);
      TotalStep(Pow2(max - i), Kraft(c, i - 1), c[i]);
      total := (total + Shl(num[i], max - i)) % 0x1_0000_0000;
      i := i - 1;
    }
  }

  lemma TotalStep(p: nat, k: nat, c: nat)
    ensures p * (2 * k + c) == 2 * p * k + p * c && 2 * p * k >= 0 && p * c >= 0
  {
  }
}
