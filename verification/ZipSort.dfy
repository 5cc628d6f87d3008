/**
 The heap sort of a ZIP archive's central directory by file name
 (external/miniz.c, `mz_zip_reader_sort_central_dir_offsets_by_filename`).
 */
module ZipSort {
  import opened ZipNames

  type Names = seq<Name>

  ghost function Key(names: Names, x: nat): Name {
    if x < |names| then Lower(names[x]) else []
  }

  ghost predicate NotAfter(names: Names, x: nat, y: nat) {
    !LexLess(Key(names, y), Key(names, x))
  }

  ghost predicate Sorted(names: Names, s: seq<nat>) {
    forall i, j :: 0 <= i < j < |s| ==> NotAfter(names, s[i], s[j])
  }

  lemma NotAfterTotal(names: Names, x: nat, y: nat)
    ensures NotAfter(names, x, x) && (NotAfter(names, x, y) || NotAfter(names, y, x))
  {
    LexTotal(Key(names, x), Key(names, y));
    LexTotal(Key(names, x), Key(names, x));
  }

  lemma NotAfterTransitive(names: Names, x: nat, y: nat, z: nat)
    requires NotAfter(names, x, y) && NotAfter(names, y, z)
    ensures NotAfter(names, x, z)
  {
    var a, b, c := Key(names, x), Key(names, y), Key(names, z);
    LexTotal(a, b);
    LexTotal(b, c);
    LexTotal(a, c);
    if a != b && b != c {
      LexTransitive(a, b, c);
    }
  }

  // ---------- heaps ----------

  function Parent(c: int): int {
    (c - 1) / 2
  }

  /** No entry whose parent is at `lo` or later comes after its parent. */
  ghost predicate Heap(names: Names, s: seq<nat>, lo: nat, end: nat)
    requires end <= |s|
  {
    forall c {:trigger Parent(c)} :: 1 <= c < end && lo <= Parent(c) ==> NotAfter(names, s[c], s[Parent(c)])
  }

  /** A heap but for the entry at `root`, whose children at least do not come after its parent. */
  ghost predicate Sifting(names: Names, s: seq<nat>, lo: nat, root: nat, end: nat)
    requires end <= |s|
  {
    && (forall c {:trigger Parent(c)} :: 1 <= c < end && lo <= Parent(c) && Parent(c) != root ==>
       NotAfter(names, s[c], s[Parent(c)]))
    && (forall c {:trigger Parent(c)} :: 1 <= c < end && Parent(c) == root && 1 <= root && lo <= Parent(root) ==>
        NotAfter(names, s[c], s[Parent(root)]))
  }

  lemma {:induction false} HeapTop(names: Names, s: seq<nat>, end: nat, i: nat)
    requires i < end <= |s| && Heap(names, s, 0, end)
    ensures NotAfter(names, s[i], s[0])
  {
    hide NotAfter;
    NotAfterTotal(names, s[0], s[0]);
    if i > 0 {
      HeapTop(names, s, end, Parent(i));
      NotAfterTransitive(names, s[i], s[Parent(i)], s[0]);
    }
  }

  function Swapped(s: seq<nat>, i: nat, j: nat): (r: seq<nat>)
    requires i < |s| && j < |s|
  {
    s[i := s[j]][j := s[i]]
  }

  lemma SwapPermutes(s: seq<nat>, i: nat, j: nat, end: nat)
    requires i < end <= |s| && j < end
    ensures multiset(Swapped(s, i, j)[..end]) == multiset(s[..end]) && Swapped(s, i, j)[end..] == s[end..]
  {
    var t := s[..end];
    assert Swapped(s, i, j)[..end] == t[i := t[j]][j := t[i]];
  }

  /** The larger child moves up. */
  lemma SiftStep(names: Names, s: seq<nat>, lo: nat, root: nat, child: nat, end: nat)
    requires end <= |s| && lo <= root < end && Sifting(names, s, lo, root, end)
    requires child < end && (child == 2 * root + 1 || child == 2 * root + 2) && NotAfter(names, s[root], s[child])
    requires forall c :: c < end && (c == 2 * root + 1 || c == 2 * root + 2) ==> NotAfter(names, s[c], s[child])
    ensures Sifting(names, Swapped(s, root, child), lo, child, end)
  {
    hide NotAfter;
    var s' := Swapped(s, root, child);
    forall c {:trigger Parent(c)} | 1 <= c < end && lo <= Parent(c) && Parent(c) != child
      ensures NotAfter(names, s'[c], s'[Parent(c)])
    {
      if Parent(c) == root {
        assert c == 2 * root + 1 || c == 2 * root + 2;
      } else {
        assert c != child && s'[Parent(c)] == s[Parent(c)];
        if c == root {
          assert s'[c] == s[child] && Parent(child) == root;
        } else {
          assert s'[c] == s[c];
        }
      }
    }
  }

  lemma SiftDone(names: Names, s: seq<nat>, lo: nat, root: nat, end: nat)
    requires end <= |s| && Sifting(names, s, lo, root, end)
    requires forall c :: c < end && (c == 2 * root + 1 || c == 2 * root + 2) ==> NotAfter(names, s[c], s[root])
    ensures Heap(names, s, lo, end)
  {
    hide NotAfter;
    forall c {:trigger Parent(c)} | 1 <= c < end && lo <= Parent(c)
      ensures NotAfter(names, s[c], s[Parent(c)])
    {
      if Parent(c) == root {
        assert c == 2 * root + 1 || c == 2 * root + 2;
      }
    }
  }

  predicate Within(s: seq<nat>, n: nat) {
    forall i :: 0 <= i < |s| ==> s[i] < n
  }

  method Less(names: Names, x: nat, y: nat) returns (less: bool)
    requires x < |names| && y < |names|
    ensures less <==> !NotAfter(names, y, x)
  {
    less := FilenameLess(names[x], names[y]);
  }

  method Swap(a: array<nat>, i: nat, j: nat)
    requires i < a.Length && j < a.Length
    modifies a
    ensures a[..] == Swapped(old(a[..]), i, j)
  {
    a[i], a[j] := a[j], a[i];
  }

  /** The greater of the children of `root`. */
  method GreaterChild(names: Names, a: array<nat>, root: nat, end: nat) returns (child: nat)
    requires Within(a[..], |names|) && 2 * root + 1 < end <= a.Length
    ensures child < end && (child == 2 * root + 1 || child == 2 * root + 2)
    ensures forall c :: c < end && (c == 2 * root + 1 || c == 2 * root + 2) ==> NotAfter(names, a[..][c], a[..][child])
  {
    hide NotAfter;
    child := 2 * root + 1;
    NotAfterTotal(names, a[child], a[child]);
    if child + 1 < end {
      NotAfterTotal(names, a[child], a[child + 1]);
      NotAfterTotal(names, a[child + 1], a[child + 1]);
      var less := Less(names, a[child], a[child + 1]);
      if less {
        child := child + 1;
      }
    }
  }

  /** The inner loop of both phases. */
  method SiftDown(names: Names, a: array<nat>, start: nat, end: nat)
    requires Within(a[..], |names|) && start < end <= a.Length && Heap(names, a[..], start + 1, end)
    modifies a
    ensures Within(a[..], |names|) && Heap(names, a[..], start, end)
    ensures multiset(a[..][..end]) == multiset(old(a[..])[..end]) && a[..][end..] == old(a[..])[end..]
  {
    hide NotAfter, Heap, Sifting;
    var root := start;
    SiftStart(names, a[..], start, end);
    while 2 * root + 1 < end
      invariant start <= root < end && Within(a[..], |names|) && Sifting(names, a[..], start, root, end)
      invariant multiset(a[..][..end]) == multiset(old(a[..])[..end]) && a[..][end..] == old(a[..])[end..]
      decreases end - root
    {
      var child := GreaterChild(names, a, root, end);
      var less := Less(names, a[root], a[child]);
      if !less {
        ChildrenDone(names, a[..], root, child, end);
        break;
      }
      NotAfterTotal(names, a[root], a[child]);
      SiftStep(names, a[..], start, root, child, end);
      SwapPermutes(a[..], root, child, end);
      Swap(a, root, child);
      root := child;
    }
    SiftDone(names, a[..], start, root, end);
  }

  lemma SiftStart(names: Names, s: seq<nat>, start: nat, end: nat)
    requires start < end <= |s| && Heap(names, s, start + 1, end)
    ensures Sifting(names, s, start, start, end)
  {
  }

  lemma ChildrenDone(names: Names, s: seq<nat>, root: nat, child: nat, end: nat)
    requires root < end <= |s| && child < end && NotAfter(names, s[child], s[root])
    requires forall c :: c < end && (c == 2 * root + 1 || c == 2 * root + 2) ==> NotAfter(names, s[c], s[child])
    ensures forall c :: c < end && (c == 2 * root + 1 || c == 2 * root + 2) ==> NotAfter(names, s[c], s[root])
  {
    hide NotAfter;
    forall c | c < end && (c == 2 * root + 1 || c == 2 * root + 2)
      ensures NotAfter(names, s[c], s[root])
    {
      NotAfterTransitive(names, s[c], s[child], s[root]);
    }
  }

  // ---------- the sort ----------

  /** From `end` on everything is in its final place. */
  ghost predicate Done(names: Names, s: seq<nat>, end: nat) {
    forall i, j :: 0 <= i < j < |s| && end <= j ==> NotAfter(names, s[i], s[j])
  }

  lemma Under(names: Names, s: seq<nat>, t: seq<nat>, x: nat)
    requires multiset(s) == multiset(t) && forall i :: 0 <= i < |s| ==> NotAfter(names, s[i], x)
    ensures forall i :: 0 <= i < |t| ==> NotAfter(names, t[i], x)
  {
    hide NotAfter;
    forall i | 0 <= i < |t|
      ensures NotAfter(names, t[i], x)
    {
      assert t[i] in multiset(s);
    }
  }

  /** The greatest entry of the heap goes to its end, and the others are put in order. */
  lemma DoneMore(names: Names, s: seq<nat>, t: seq<nat>, end: nat)
    requires end < |s| == |t| && Heap(names, s, 0, end + 1) && Done(names, s, end + 1)
    requires multiset(t[..end]) == multiset(Swapped(s, end, 0)[..end]) && t[end..] == Swapped(s, end, 0)[end..]
    ensures Done(names, t, end)
  {
    hide NotAfter, Heap;
    var u := Swapped(s, end, 0);
    forall i, j | 0 <= i < j < |t| && end <= j
      ensures NotAfter(names, t[i], t[j])
    {
      assert t[j] == t[end..][j - end] == u[end..][j - end] == u[j];
      forall k | 0 <= k < end
        ensures NotAfter(names, u[..end][k], u[j])
      {
        HeapTop(names, s, end + 1, k);
        HeapTop(names, s, end + 1, end);
      }
      Under(names, u[..end], t[..end], u[j]);
      if i < end {
        assert t[i] == t[..end][i];
      } else {
        assert t[i] == t[end..][i - end] == u[end..][i - end] == u[i];
        HeapTop(names, s, end + 1, 0);
      }
    }
  }

  lemma Permuted(s: seq<nat>, t: seq<nat>, end: nat)
    requires end <= |s| == |t| && multiset(s[..end]) == multiset(t[..end]) && s[end..] == t[end..]
    ensures multiset(s) == multiset(t)
  {
    assert s == s[..end] + s[end..] && t == t[..end] + t[end..];
  }

  lemma StillHeap(names: Names, s: seq<nat>, end: nat)
    requires 0 < end < |s| && Heap(names, s, 0, end + 1)
    ensures Heap(names, Swapped(s, end, 0), 1, end)
  {
    hide NotAfter;
  }

  lemma NoChildren(names: Names, s: seq<nat>, start: nat)
    requires |s| <= 2 * start + 1
    ensures Heap(names, s, start, |s|)
  {
  }

  /** Sorts the indices in place. */
  method SortByName(names: Names, a: array<nat>)
    requires Within(a[..], |names|)
    modifies a
    ensures multiset(a[..]) == multiset(old(a[..])) && Sorted(names, a[..])
  {
    hide NotAfter, Heap, Done, Sorted;
    var size := a.Length;
    if size <= 1 {
      Short(names, a[..]);
      return;
    }
    MakeHeap(names, a);
    var end := size - 1;
    NothingDone(names, a[..]);
    while end > 0
      invariant 0 <= end < size && Within(a[..], |names|) && Heap(names, a[..], 0, end + 1)
      invariant Done(names, a[..], end + 1)
      invariant multiset(a[..]) == multiset(old(a[..]))
    {
      ghost var s := a[..];
      StillHeap(names, s, end);
      SwapPermutes(s, end, 0, size);
      Permuted(Swapped(s, end, 0), s, size);
      Swap(a, end, 0);
      SiftDown(names, a, 0, end);
      Permuted(a[..], Swapped(s, end, 0), end);
      DoneMore(names, s, a[..], end);
      end := end - 1;
    }
    AllDone(names, a[..]);
  }

  /** The first phase. */
  method MakeHeap(names: Names, a: array<nat>)
    requires Within(a[..], |names|) && a.Length >= 2
    modifies a
    ensures Within(a[..], |names|) && Heap(names, a[..], 0, a.Length) && multiset(a[..]) == multiset(old(a[..]))
  {
    hide NotAfter, Heap;
    var start := (a.Length - 2) / 2;
    NoChildren(names, a[..], start + 1);
    while true
      invariant 0 <= start <= (a.Length - 2) / 2 && Within(a[..], |names|) && Heap(names, a[..], start + 1, a.Length)
      invariant multiset(a[..]) == multiset(old(a[..]))
      decreases start
    {
      ghost var s := a[..];
      SiftDown(names, a, start, a.Length);
      Permuted(a[..], s, a.Length);
      if start == 0 {
        break;
      }
      start := start - 1;
    }
  }

  lemma Short(names: Names, s: seq<nat>)
    requires |s| <= 1
    ensures Sorted(names, s)
  {
  }

  lemma NothingDone(names: Names, s: seq<nat>)
    ensures Done(names, s, |s|)
  {
  }

  lemma AllDone(names: Names, s: seq<nat>)
    requires Done(names, s, 1)
    ensures Sorted(names, s)
  {
  }
}
