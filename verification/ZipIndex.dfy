/**
 Looking up a file name in a ZIP archive (external/miniz.c): a binary search over the sorted
 central directory, or a scan of all of it.
 */
module ZipIndex {
  import opened Bits
  import opened Wrappers
  import opened ZipNames
  import opened ZipSort

  datatype Entry = Entry(name: Name, comment: Name)

  datatype Flags = Flags(caseSensitive: bool, ignorePath: bool)

  const DEFAULT := Flags(false, false)

  /** The outcome of `mz_zip_reader_locate_file_v2`. */
  datatype Search = Found(index: nat) | NotFound | InvalidParameter

  function NamesOf(entries: seq<Entry>): (names: Names)
    ensures |names| == |entries|
  {
    seq(|entries|, i requires 0 <= i < |entries| => entries[i].name)
  }

  // ---------- what a search is for ----------

  function IsSeparator(c: Byte): bool {
    c == 47 || c == 92 || c == 58
  }

  /** What follows the last separator. */
  function BaseName(s: Name): (r: Name)
    ensures |r| <= |s|
  {
    if s == [] then []
    else if IsSeparator(s[|s| - 1]) then []
    else BaseName(s[..|s| - 1]) + [s[|s| - 1]]
  }

  lemma {:induction false} BaseNameIs(s: Name)
    ensures var r := BaseName(s);
            s[|s| - |r|..] == r && (forall c :: c in r ==> !IsSeparator(c)) &&
            (|r| < |s| ==> IsSeparator(s[|s| - |r| - 1]))
  {
    if s != [] && !IsSeparator(s[|s| - 1]) {
      BaseNameIs(s[..|s| - 1]);
    }
  }

  predicate Same(a: Name, b: Name, caseSensitive: bool) {
    if caseSensitive then a == b else Lower(a) == Lower(b)
  }

  predicate Matches(e: Entry, name: Name, comment: Option<Name>, flags: Flags) {
    && (comment.Some? && comment.value != [] ==> Same(comment.value, e.comment, flags.caseSensitive))
    && Same(name, if flags.ignorePath then BaseName(e.name) else e.name, flags.caseSensitive)
  }

  /** The first entry that matches. */
  ghost predicate LinearFinds(entries: seq<Entry>, name: Name, comment: Option<Name>, flags: Flags, r: Search) {
    match r
    case InvalidParameter => |name| > 65535 || (comment.Some? && |comment.value| > 65535)
    case Found(i) => |name| <= 65535 && i < |entries| && Matches(entries[i], name, comment, flags) &&
        forall j :: 0 <= j < i ==> !Matches(entries[j], name, comment, flags)
    case NotFound => |name| <= 65535 && forall j :: 0 <= j < |entries| ==> !Matches(entries[j], name, comment, flags)
  }

  /** The part of a name that its length, as a 32-bit word, leaves. */
  function Target(name: Name): (t: Name)
    ensures |name| < WORD ==> t == name
  {
    name[..|name| % WORD]
  }

  /** Some entry with the name, up to case. */
  ghost predicate BinaryFinds(entries: seq<Entry>, name: Name, r: Option<nat>) {
    match r
    case Some(i) => i < |entries| && Lower(entries[i].name) == Lower(Target(name))
    case None => forall j :: 0 <= j < |entries| ==> Lower(entries[j].name) != Lower(Target(name))
  }

  ghost predicate Fields(entries: seq<Entry>) {
    forall i :: 0 <= i < |entries| ==> |entries[i].name| <= 65535 && |entries[i].comment| <= 65535
  }

  /**
   The two ways of searching agree on what is there, unless a name is so long that its length wraps
   around to that of an entry; and on where it is, if no two entries have the same name.
   */
  lemma SearchesAgree(entries: seq<Entry>, name: Name, b: Option<nat>, l: Search)
    requires Fields(entries) && BinaryFinds(entries, name, b) && LinearFinds(entries, name, None, DEFAULT, l)
    ensures (b.Some? <==> l.Found?) <==> |name| < WORD || forall i :: 0 <= i < |entries| ==>
            Lower(entries[i].name) != Lower(Target(name))
    ensures b.Some? && l.Found? ==>
            Lower(entries[b.value].name) == Lower(name) == Lower(entries[l.index].name) && l.index <= b.value
    ensures b.Some? && l.Found? &&
            (forall i, j :: 0 <= i < j < |entries| ==> Lower(entries[i].name) != Lower(entries[j].name)) ==>
            b.value == l.index
  {
    if b.Some? {
      assert |Lower(entries[b.value].name)| == |Lower(Target(name))|;
    }
  }

  /** They disagree about a name of 2^32 bytes in an archive with an entry without a name. */
  lemma SearchesDisagree()
    ensures var entries, name := [Entry([], [])], seq(WORD, _ => 97);
            && Fields(entries)
            && (forall b :: BinaryFinds(entries, name, b) ==> b == Some(0))
            && forall l :: LinearFinds(entries, name, None, DEFAULT, l) ==> l == InvalidParameter
  {
    var entries, name: Name := [Entry([], [])], seq(WORD, _ => 97);
    assert Target(name) == [];
    assert Lower(entries[0].name) == Lower(Target(name));
  }

  // ---------- the archive ----------

  class Archive {
    const entries: seq<Entry>
    const noSort: bool                // MZ_ZIP_FLAG_DO_NOT_SORT_CENTRAL_DIRECTORY
    const indices: array<nat>         // m_sorted_central_dir_offsets

    ghost predicate Valid()
      reads indices
    {
      && Fields(entries)
      && (if noSort then indices.Length == 0 else indices.Length == |entries|)
      && (!noSort ==> multiset(indices[..]) == multiset(Identity(|entries|)) && Sorted(NamesOf(entries), indices[..]))
    }

    /** What `mz_zip_reader_read_central_dir` does with the index. */
    constructor (entries: seq<Entry>, noSort: bool)
      requires Fields(entries)
      ensures Valid() && this.entries == entries && this.noSort == noSort && fresh(indices)
    {
      this.entries, this.noSort := entries, noSort;
      indices := new nat[if noSort then 0 else |entries|](i => i);
      new;
      if !noSort {
        assert indices[..] == Identity(|entries|);
        SortByName(NamesOf(entries), indices);
      }
    }

    lemma InRange()
      requires Valid() && !noSort
      ensures forall k :: 0 <= k < indices.Length ==> indices[k] < |entries|
      ensures forall i :: 0 <= i < |entries| ==> i in indices[..]
    {
      var s, id := indices[..], Identity(|entries|);
      forall k | 0 <= k < indices.Length
        ensures indices[k] < |entries|
      {
        assert s[k] in multiset(id);
      }
      forall i | 0 <= i < |entries|
        ensures i in indices[..]
      {
        assert id[i] in multiset(s);
      }
    }

    /** `mz_zip_locate_file_binary_search` */
    method BinarySearch(name: Name) returns (r: Option<nat>)
      requires Valid() && !noSort
      ensures BinaryFinds(entries, name, r)
    {
      hide Lower, NotAfter, LexLess;
      InRange();
      var target := Target(name);
      var l, h := 0, indices.Length - 1;
      while l <= h
        invariant 0 <= l <= h + 1 <= indices.Length
        invariant |target| < HALF ==> forall k :: 0 <= k < l ==> LexLess(Lower(entries[indices[k]].name), Lower(target))
        invariant |target| < HALF ==> forall k :: h < k < indices.Length ==>
                  LexLess(Lower(target), Lower(entries[indices[k]].name))
        decreases h - l
      {
        var m := l + (h - l) / 2;
        var fileIndex := indices[m];
        var comp := FilenameCompare(entries[fileIndex].name, target);
        if comp == 0 {
          return Some(fileIndex);
        }
        Decided(m, target);
        if comp < 0 {
          l := m + 1;
        } else {
          h := m - 1;
        }
      }
      Missing(l, target);
      r := None;
    }

    /** A comparison in the middle decides about one half. */
    lemma Decided(m: nat, target: Name)
      requires Valid() && !noSort && m < indices.Length && indices[m] < |entries|
      requires forall k :: 0 <= k < indices.Length ==> indices[k] < |entries|
      ensures LexLess(Lower(entries[indices[m]].name), Lower(target)) ==>
                forall k :: 0 <= k <= m ==> LexLess(Lower(entries[indices[k]].name), Lower(target))
      ensures !LexLess(Lower(entries[indices[m]].name), Lower(target)) &&
              Lower(entries[indices[m]].name) != Lower(target) ==>
                forall k :: m <= k < indices.Length ==> LexLess(Lower(target), Lower(entries[indices[k]].name))
    {
      hide Lower, LexLess;
      var mid, t := Lower(entries[indices[m]].name), Lower(target);
      LexTotal(mid, t);
      forall k | 0 <= k < indices.Length
        ensures k <= m && LexLess(mid, t) ==> LexLess(Lower(entries[indices[k]].name), t)
        ensures m <= k && LexLess(t, mid) ==> LexLess(t, Lower(entries[indices[k]].name))
      {
        var key := Lower(entries[indices[k]].name);
        InOrder(if k < m then k else m, if k < m then m else k);
        LexTotal(key, mid);
        if key != mid && k < m && LexLess(mid, t) {
          LexTransitive(key, mid, t);
        } else if key != mid && m < k && LexLess(t, mid) {
          LexTransitive(t, mid, key);
        }
      }
    }

    lemma InOrder(i: nat, j: nat)
      requires Valid() && !noSort && i <= j < indices.Length && indices[i] < |entries| && indices[j] < |entries|
      ensures !LexLess(Lower(entries[indices[j]].name), Lower(entries[indices[i]].name))
    {
      hide Lower, LexLess;
      if i < j {
        assert NotAfter(NamesOf(entries), indices[..][i], indices[..][j]);
      } else {
        LexTotal(Lower(entries[indices[j]].name), Lower(entries[indices[i]].name));
      }
    }

    lemma Missing(l: nat, target: Name)
      requires Valid() && !noSort && l <= indices.Length
      requires forall k :: 0 <= k < indices.Length ==> indices[k] < |entries|
      requires |target| < HALF ==> forall k :: 0 <= k < l ==> LexLess(Lower(entries[indices[k]].name), Lower(target))
      requires |target| < HALF ==> forall k :: l <= k < indices.Length ==>
               LexLess(Lower(target), Lower(entries[indices[k]].name))
      ensures forall j :: 0 <= j < |entries| ==> Lower(entries[j].name) != Lower(target)
    {
      hide LexLess, NotAfter;
      InRange();
      forall j | 0 <= j < |entries|
        ensures Lower(entries[j].name) != Lower(target)
      {
        if |target| < HALF {
          assert j in indices[..];
          var s := indices[..];
          var k :| 0 <= k < |s| && s[k] == j;
          LexTotal(Lower(entries[j].name), Lower(target));
        } else {
          assert |Lower(target)| >= HALF && |Lower(entries[j].name)| <= 65535;
        }
      }
    }

    /** The scan of the whole central directory. */
    method LinearSearch(name: Name, comment: Option<Name>, flags: Flags) returns (r: Search)
      requires Valid()
      ensures LinearFinds(entries, name, comment, flags, r)
      ensures r == InvalidParameter <==> |name| > 65535 || (comment.Some? && |comment.value| > 65535)
    {
      hide Lower;
      if |name| > 65535 || (comment.Some? && |comment.value| > 65535) {
        return InvalidParameter;
      }
      var fileIndex := 0;
      while fileIndex < |entries|
        invariant 0 <= fileIndex <= |entries| && forall j :: 0 <= j < fileIndex ==>
                  !Matches(entries[j], name, comment, flags)
      {
        var ok := Test(entries[fileIndex], name, comment, flags);
        if ok {
          return Found(fileIndex);
        }
        fileIndex := fileIndex + 1;
      }
      r := NotFound;
    }

    /** The binary search is used. */
    predicate Quick(comment: Option<Name>, flags: Flags) {
      !noSort && flags == DEFAULT && comment == None && indices.Length > 0
    }

    /** `mz_zip_reader_locate_file_v2` */
    method Locate(name: Name, comment: Option<Name>, flags: Flags) returns (r: Search)
      requires Valid()
      ensures var sought := if Quick(comment, flags) then Target(name) else name;
              && (r.Found? ==> r.index < |entries| && Matches(entries[r.index], sought, comment, flags))
              && (r == NotFound ==> forall j :: 0 <= j < |entries| ==> !Matches(entries[j], sought, comment, flags))
      ensures r == InvalidParameter <==>
              !Quick(comment, flags) && (|name| > 65535 || (comment.Some? && |comment.value| > 65535))
    {
      hide Lower;
      if Quick(comment, flags) {
        var found := BinarySearch(name);
        r := match found case Some(i) => Found(i) case None => NotFound;
      } else {
        r := LinearSearch(name, comment, flags);
      }
    }
  }

  function Identity(n: nat): (s: seq<nat>)
    ensures |s| == n && forall i :: 0 <= i < n ==> s[i] == i
  {
    seq(n, i => i)
  }

  /** `mz_zip_string_equal` on `len` bytes of both */
  method StringEqual(a: Name, b: Name, caseSensitive: bool) returns (equal: bool)
    requires |a| == |b|
    ensures equal <==> Same(a, b, caseSensitive)
  {
    if caseSensitive {
      return a == b;
    }
    var i := 0;
    while i < |a|
      invariant 0 <= i <= |a| && forall k :: 0 <= k < i ==> ToLower(a[k]) == ToLower(b[k])
    {
      if ToLower(a[i]) != ToLower(b[i]) {
        assert Lower(a)[i] != Lower(b)[i];
        return false;
      }
      i := i + 1;
    }
    assert Lower(a) == Lower(b);
    equal := true;
  }

  lemma SameLength(a: Name, b: Name, caseSensitive: bool)
    ensures Same(a, b, caseSensitive) ==> |a| == |b|
  {
    if Same(a, b, caseSensitive) {
      assert |Lower(a)| == |a| && |Lower(b)| == |b|;
    }
  }

  /** The body of the scan. */
  method Test(e: Entry, name: Name, comment: Option<Name>, flags: Flags) returns (ok: bool)
    ensures ok <==> Matches(e, name, comment, flags)
  {
    hide Same;
    var filename := e.name;
    ok := false;
    SameLength(name, if flags.ignorePath then BaseName(e.name) else e.name, flags.caseSensitive);
    if |filename| < |name| {
      return;
    }
    if comment.Some? && |comment.value| > 0 {
      SameLength(comment.value, e.comment, flags.caseSensitive);
      if |e.comment| != |comment.value| {
        return;
      }
      var same := StringEqual(comment.value, e.comment, flags.caseSensitive);
      if !same {
        return;
      }
    }
    if flags.ignorePath && |filename| > 0 {
      filename := WithoutPath(filename);
    }
    if |filename| == |name| {
      ok := StringEqual(name, filename, flags.caseSensitive);
    }
  }

  /** The loop back to the last separator. */
  method WithoutPath(filename: Name) returns (r: Name)
    requires filename != []
    ensures r == BaseName(filename)
  {
    hide BaseName;
    BaseStart(filename);
    var ofs := |filename| - 1;
    while ofs >= 0 && !IsSeparator(filename[ofs])
      invariant -1 <= ofs < |filename| && BaseName(filename) == BaseName(filename[..ofs + 1]) + filename[ofs + 1..]
    {
      BaseStep(filename, ofs);
      ofs := ofs - 1;
    }
    if ofs >= 0 {
      BaseStep(filename, ofs);
    }
    ofs := ofs + 1;
    r := filename[ofs..];
  }

  lemma BaseStart(filename: Name)
    ensures filename[..|filename|] == filename && BaseName(filename) + filename[|filename|..] == BaseName(filename)
    ensures BaseName(filename[..0]) + filename[0..] == filename
  {
  }

  lemma BaseStep(filename: Name, ofs: nat)
    requires ofs < |filename|
    ensures BaseName(filename[..ofs + 1]) + filename[ofs + 1..]
            == if IsSeparator(filename[ofs]) then filename[ofs + 1..] else BaseName(filename[..ofs]) + filename[ofs..]
  {
    assert filename[..ofs + 1][..ofs] == filename[..ofs];
  }
}
