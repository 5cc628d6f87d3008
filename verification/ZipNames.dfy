/**
 The order of file names in a ZIP archive (external/miniz.c): by lower-cased bytes, a name before
 all its extensions.
 */
module ZipNames {
  import opened Bits

  type Name = seq<Byte>

  const WORD := 0x1_0000_0000
  const HALF := 0x8000_0000

  /** `MZ_TOLOWER` */
  function ToLower(c: Byte): Byte {
    if 65 <= c <= 90 then c - 65 + 97 else c
  }

  function Lower(s: Name): (r: Name)
    ensures |r| == |s| && forall i :: 0 <= i < |s| ==> r[i] == ToLower(s[i])
  {
    seq(|s|, i requires 0 <= i < |s| => ToLower(s[i]))
  }

  predicate LexLess(a: Name, b: Name) {
    if b == [] then false
    else if a == [] then true
    else if a[0] != b[0] then a[0] < b[0]
    else LexLess(a[1..], b[1..])
  }

  lemma {:induction false} LexTotal(a: Name, b: Name)
    ensures LexLess(a, b) || a == b || LexLess(b, a)
    ensures !(LexLess(a, b) && LexLess(b, a)) && (a == b ==> !LexLess(a, b))
  {
    if a != [] && b != [] {
      LexTotal(a[1..], b[1..]);
      assert a == [a[0]] + a[1..] && b == [b[0]] + b[1..];
    }
  }

  lemma {:induction false} LexTransitive(a: Name, b: Name, c: Name)
    requires LexLess(a, b) && LexLess(b, c)
    ensures LexLess(a, c)
  {
    if a != [] && a[0] == b[0] == c[0] {
      LexTransitive(a[1..], b[1..], c[1..]);
    }
  }

  /** The first difference decides, and if there is none, the length. */
  lemma {:induction false} LexSplit(a: Name, b: Name, k: nat)
    requires k <= |a| && k <= |b| && a[..k] == b[..k]
    ensures LexLess(a, b) == LexLess(a[k..], b[k..])
  {
    if k > 0 {
      assert a[0] == a[..k][0] == b[..k][0] == b[0];
      assert a[1..][..k - 1] == a[..k][1..] && b[1..][..k - 1] == b[..k][1..];
      LexSplit(a[1..], b[1..], k - 1);
      assert a[1..][k - 1..] == a[k..] && b[1..][k - 1..] == b[k..];
    } else {
      assert a[k..] == a && b[k..] == b;
    }
  }

  /** How many bytes agree up to case. */
  method CommonPrefix(l: Name, r: Name) returns (k: nat)
    ensures k <= |l| && k <= |r| && Lower(l)[..k] == Lower(r)[..k]
    ensures k < |l| && k < |r| ==> Lower(l)[k] != Lower(r)[k]
  {
    var end := if |l| < |r| then |l| else |r|;
    k := 0;
    while k < end
      invariant k <= end && Lower(l)[..k] == Lower(r)[..k]
    {
      if ToLower(l[k]) != ToLower(r[k]) {
        return;
      }
      assert Lower(l)[..k + 1] == Lower(l)[..k] + [ToLower(l[k])];
      assert Lower(r)[..k + 1] == Lower(r)[..k] + [ToLower(r[k])];
      k := k + 1;
    }
  }

  lemma PrefixDecides(a: Name, b: Name, k: nat)
    requires k <= |a| && k <= |b| && a[..k] == b[..k] && (k < |a| && k < |b| ==> a[k] != b[k])
    ensures LexLess(a, b) == if k == |a| || k == |b| then |a| < |b| else a[k] < b[k]
    ensures a == b <==> k == |a| == |b|
  {
    LexSplit(a, b, k);
    assert a == b ==> a[k..] == b[k..];
    assert k == |a| == |b| ==> a == a[..k] && b == b[..k];
  }

  /** `mz_zip_reader_filename_less` */
  method FilenameLess(l: Name, r: Name) returns (less: bool)
    ensures less == LexLess(Lower(l), Lower(r))
  {
    hide Lower;
    var k := CommonPrefix(l, r);
    PrefixDecides(Lower(l), Lower(r), k);
    LowerAt(l);
    LowerAt(r);
    less := if k == (if |l| < |r| then |l| else |r|) then |l| < |r| else ToLower(l[k]) < ToLower(r[k]);
  }

  lemma LowerAt(s: Name)
    ensures |Lower(s)| == |s| && forall i :: 0 <= i < |s| ==> Lower(s)[i] == ToLower(s[i])
  {
  }

  /** A difference of two words, as a signed word. */
  function Signed(x: int): int {
    var w := x % WORD;
    if w < HALF then w else w - WORD
  }

  /** `mz_zip_filename_compare`: the sign says how an archived name compares to the name looked for. */
  method FilenameCompare(l: Name, r: Name) returns (c: int)
    requires |l| < 65536 && |r| < WORD
    ensures c == 0 <==> Lower(l) == Lower(r)
    ensures |r| < HALF ==> (c < 0 <==> LexLess(Lower(l), Lower(r)))
  {
    hide Lower;
    var k := CommonPrefix(l, r);
    PrefixDecides(Lower(l), Lower(r), k);
    LowerAt(l);
    LowerAt(r);
    c := if k == (if |l| < |r| then |l| else |r|) then Signed(|l| - |r|) else ToLower(l[k]) - ToLower(r[k]);
  }
}
