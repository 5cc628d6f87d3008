/**
 One AC coefficient of a JPEG block (external/stb_image.h, the loop of `stbi__jpeg_decode_block`):
 whether it comes from the fast table or from code and number, it is the same coefficient.
 */
module JpegCoefficient {
  import opened Bits
  import opened Canonical
  import opened CanonicalSearch
  import opened JpegAc
  import opened JpegBits
  import opened JpegHuffman
  import opened JpegStream
  import opened TrieSize
  import opened Wrappers

  datatype Ac =
    | Bad                             // no code, or too few bits for it
    | Zeros(rs: nat)                  // end of the block, or sixteen zeros
    | Coefficient(run: nat, value: int)

  /**
   What the bits ahead say, and how many say it.  If they end within the number behind a code, the
   fast way fails, and the slow way takes the code only and gives the number 0.
   */
  ghost function Meaning(lens: Lens, values: seq<nat>, all: Bitstring, fast: bool): (Ac, nat)
    requires |values| == 256
  {
    match DecodedAs(lens, (all + Falses(16))[..16])
    case None => (Bad, 0)
    case Some((i, l)) =>
      if i >= 256 || l > |all| then
        (Bad, 0)
      else
        var run, n := values[i] / 16, values[i] % 16;
        if n == 0 then
          (Zeros(values[i]), l)
        else if l + n <= |all| then
          (Coefficient(run, Extend(MsbVal(all[l..l + n]), n)), l + n)
        else if fast then
          (Bad, 0)
        else
          (Coefficient(run, 0), l)
  }

  /** The entry of the fast table that the bits ahead select. */
  ghost function Selected(all: Bitstring): (i: nat)
    ensures i < FAST_SIZE
  {
    Pow2Values();
    Leading((all + Falses(16))[..16], FAST_BITS)
  }

  lemma SelectedTop(all: Bitstring, cb: Word)
    requires Front(cb) == (all + Falses(16))[..16]
    ensures Top(cb, FAST_BITS) == Selected(all)
  {
    TopIs(cb, FAST_BITS);
    assert Front(cb)[..FAST_BITS] == Window(cb)[..FAST_BITS];
  }

  lemma SelectedPadded(all: Bitstring, k: nat)
    ensures Selected(all + Falses(k)) == Selected(all)
  {
    FrontPadded(all, k);
  }

  /** A coefficient, the fast way if the table has it. */
  method NextAc(st: Stream, h: Huffman, values: seq<nat>, fac: array<int>, ghost lens: Lens) returns (ac: Ac)
    requires st.Valid() && h.For(lens) && |values| == 256 && (forall i :: 0 <= i < 256 ==> values[i] < 256)
    requires fac.Length == FAST_SIZE && forall i :: 0 <= i < FAST_SIZE ==>
             fac[i] == FastAc(h.fast[..], h.size[..], values, i)
    modifies st`pos, st`codeBuffer, st`codeBits, st`noMore, st`marker, st`padded
    ensures old(st.padded) <= st.padded
    ensures var all := old(st.Ahead()) + Falses(st.padded - old(st.padded));
            var (m, n) := Meaning(lens, values, all, fac[Selected(all)] != 0);
            ac == m && (m != Bad ==> st.Valid() && n <= |all| && st.Ahead() == all[n..])
  {
    hide Stream.Valid, Stream.Ahead, Falses, Fits, FastFor, LevelsFor, Ordered, DecodedAs, Front, FastAc;
    hide Extend, MsbVal, Up;
    hide Meaning, Selected;
    NoPadding(st.Ahead());
    st.Small();
    if st.codeBits < 16 {
      st.Grow();
      st.Small();
    }
    ghost var mid := st.padded;
    st.FrontAhead();
    SelectedTop(st.Ahead(), st.codeBuffer);
    var c := Top(st.codeBuffer, FAST_BITS);
    var r := fac[c];
    if r != 0 {
      ac := FastPath(st, h, values, r, lens);
      NoPadding(st.Ahead());
      NoPadding(old(st.Ahead()) + Falses(mid - old(st.padded)));
    } else {
      ac := SlowPath(st, h, values, lens);
    }
    PaddedTwice(old(st.Ahead()), old(st.padded), mid, st.padded);
    SelectedPadded(old(st.Ahead()) + Falses(mid - old(st.padded)), st.padded - mid);
  }

  lemma PaddedTwice(was: Bitstring, a: nat, b: nat, c: nat)
    requires a <= b <= c
    ensures was + Falses(b - a) + Falses(c - b) == was + Falses(c - a)
  {
    FalsesConcat(b - a, c - b);
  }

  method FastPath(st: Stream, h: Huffman, values: seq<nat>, r: int, ghost lens: Lens) returns (ac: Ac)
    requires st.Valid() && h.For(lens) && |values| == 256 && (forall i :: 0 <= i < 256 ==> values[i] < 256)
    requires (st.codeBits >= 16 || st.noMore)
    requires Top(st.codeBuffer, FAST_BITS) < FAST_SIZE
    requires r == FastAc(h.fast[..], h.size[..], values, Top(st.codeBuffer, FAST_BITS)) && r != 0
    modifies st`codeBuffer, st`codeBits
    ensures var all := old(st.Ahead());
            var (m, n) := Meaning(lens, values, all, true);
            ac == m && (m != Bad ==> st.Valid() && n <= |all| && st.Ahead() == all[n..])
  {
    hide Stream.Valid, Stream.Ahead, Falses, Fits, FastFor, LevelsFor, Ordered, DecodedAs, Front, FastAc;
    hide Extend, MsbVal, Up;
    ghost var all := st.Ahead();
    FastAcAgrees(h.fast[..], h.size[..], h.maxCode[..], h.delta[..], lens, values, st.codeBuffer);
    st.Small();
    st.FrontAhead();
    var s := r % 16;
    if s > st.codeBits {
      return Bad;
    }
    ghost var len := DecodedAs(lens, Front(st.codeBuffer)).value.1;
    ReceivedAhead(st, len, s - len);
    st.Shift(s);
    ac := Coefficient(r / 16 % 16, r / 256);
  }

  /** The number behind the code, in the buffer and ahead. */
  lemma ReceivedAhead(st: Stream, len: nat, n: nat)
    requires st.Valid() && len + n <= st.codeBits
    ensures len + n <= |st.Ahead()| && Top(Up(st.codeBuffer, len), n) == MsbVal(st.Ahead()[len..len + n])
  {
    hide MsbVal, Up, Top, Window, HighFirst, Unstuffed;
    st.Small();
    ReceivedIs(st.codeBuffer, len, n);
    assert st.Ahead()[len..len + n] == Window(st.codeBuffer)[len..len + n];
  }

  method SlowPath(st: Stream, h: Huffman, values: seq<nat>, ghost lens: Lens) returns (ac: Ac)
    requires st.Valid() && h.For(lens) && |values| == 256
    modifies st`pos, st`codeBuffer, st`codeBits, st`noMore, st`marker, st`padded
    ensures old(st.padded) <= st.padded
    ensures var all := old(st.Ahead()) + Falses(st.padded - old(st.padded));
            var (m, n) := Meaning(lens, values, all, false);
            ac == m && (m != Bad ==> st.Valid() && n <= |all| && st.Ahead() == all[n..])
  {
    hide Stream.Valid, Stream.Ahead, Falses, Fits, FastFor, LevelsFor, Ordered, DecodedAs, Front, Extend, MsbVal;
    ghost var was := st.Ahead();
    var rs := st.HuffDecode(h, values, lens);
    ghost var mid := st.padded;
    NoPadding(was + Falses(mid - old(st.padded)));
    if rs < 0 {
      assert st.padded == mid;
      return Bad;
    }
    var n := rs % 16;
    if n == 0 {
      return Zeros(rs);
    }
    ghost var (i, l) := DecodedAs(lens, (was + Falses(mid - old(st.padded)) + Falses(16))[..16]).value;
    var v := st.ExtendReceive(n);
    SlowMeaning(lens, values, was, old(st.padded), mid, st.padded);
    CodeSays(lens, values, was + Falses(st.padded - old(st.padded)), i, l);
    ac := Coefficient(rs / 16, v);
  }

  /** What a code and the number behind it say. */
  lemma CodeSays(lens: Lens, values: seq<nat>, all: Bitstring, i: nat, l: nat)
    requires |values| == 256 && DecodedAs(lens, (all + Falses(16))[..16]) == Some((i, l)) && i < 256 && l <= |all|
    ensures var n := values[i] % 16;
            Meaning(lens, values, all, false) ==
            if n == 0 then (Zeros(values[i]), l)
            else if n <= |all[l..]| then (Coefficient(values[i] / 16, Extend(MsbVal(all[l..][..n]), n)), l + n)
            else (Coefficient(values[i] / 16, 0), l)
    ensures forall n: nat :: l + n <= |all| ==> all[l..][n..] == all[l + n..]
  {
    hide DecodedAs, Falses, Extend, MsbVal;
    var n := values[i] % 16;
    assert n <= |all[l..]| ==> all[l..][..n] == all[l..l + n];
  }

  /** More zeros behind the end change nothing in front. */
  lemma FrontPadded(all: Bitstring, k: nat)
    ensures (all + Falses(k) + Falses(16))[..16] == (all + Falses(16))[..16]
  {
  }

  /** What is left after the code, padded, is what is left of all, padded. */
  lemma SlowMeaning(lens: Lens, values: seq<nat>, was: Bitstring, a: nat, b: nat, c: nat)
    requires |values| == 256 && a <= b <= c
    ensures var all, all' := was + Falses(b - a), was + Falses(c - a);
            && all' == all + Falses(c - b)
            && DecodedAs(lens, (all + Falses(16))[..16]) == DecodedAs(lens, (all' + Falses(16))[..16])
            && forall l: nat :: l <= |all| ==> all'[l..] == all[l..] + Falses(c - b)
  {
    hide DecodedAs, Falses;
    PaddedTwice(was, a, b, c);
    FrontPadded(was + Falses(b - a), c - b);
  }
}
