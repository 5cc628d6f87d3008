/**
 Reading entropy-coded JPEG data (external/stb_image.h, `stbi__grow_buffer_unsafe`,
 `stbi__jpeg_huff_decode`, `stbi__extend_receive`; sections B.1.1.5 and F.2.2 of ITU-T T.81).
 */
module JpegStream {
  import opened Bits
  import opened Canonical
  import opened CanonicalSearch
  import opened JpegBits
  import opened JpegHuffman
  import opened TrieSize
  import opened Wrappers

  /** What is behind a run of fill bytes. */
  function AfterFill(s: seq<Byte>): (r: seq<Byte>)
    ensures |r| <= |s|
  {
    if s != [] && s[0] == 255 then AfterFill(s[1..]) else s
  }

  /** The data up to the next marker: 255 followed by 0 stands for 255, followed by anything else it begins a marker. */
  function Unstuffed(s: seq<Byte>): seq<Byte>
    decreases |s|
  {
    if s == [] then []
    else if s[0] != 255 then [s[0]] + Unstuffed(s[1..])
    else
      var t := AfterFill(s[1..]);
      if t == [] then [255]
      else if t[0] == 0 then [255] + Unstuffed(t[1..])
      else []
  }

  /** Bytes as bits, highest first. */
  function HighFirst(s: seq<Byte>): Bitstring {
    if s == [] then [] else MsbBits(s[0], 8) + HighFirst(s[1..])
  }

  class Stream {
    const input: seq<Byte>
    var pos: nat
    var codeBuffer: Word
    var codeBits: int
    var noMore: bool
    var marker: Byte
    ghost var padded: nat     // zero bits taken for data that are not there

    /** Below the valid bits the buffer is zero. */
    ghost predicate Valid()
      reads this
    {
      pos <= |input| && 0 <= codeBits <= 32 && Window(codeBuffer)[codeBits..] == Falses(32 - codeBits)
    }

    /** The bits that have not been used. */
    ghost function Ahead(): Bitstring
      reads this
    {
      (if 0 <= codeBits <= 32 then Window(codeBuffer)[..codeBits] else [])
        + if noMore || pos > |input| then [] else HighFirst(Unstuffed(input[pos..]))
    }

    constructor (input: seq<Byte>)
      ensures Valid() && this.input == input && Ahead() == HighFirst(Unstuffed(input)) && padded == 0
    {
      this.input, pos, codeBuffer, codeBits, noMore, marker, padded := input, 0, 0, 0, false, 0, 0;
      new;
      ZeroWindow();
      assert input[0..] == input;
    }

    /** `stbi__get8`: 0 at the end. */
    method Get8() returns (c: Byte)
      requires pos <= |input|
      modifies this`pos
      ensures if old(pos) < |input| then c == input[old(pos)] && pos == old(pos) + 1 else c == 0 && pos == old(pos)
    {
      c := 0;
      if pos < |input| {
        c := input[pos];
        pos := pos + 1;
      }
    }

    /** Past the fill bytes to the one that says what they mean. */
    method SkipFill() returns (c: Byte)
      requires pos <= |input|
      modifies this`pos
      ensures pos <= |input|
      ensures var t := AfterFill(input[old(pos)..]);
              if t == [] then c == 0 && pos == |input| else c == t[0] && input[pos..] == t[1..]
    {
      ghost var t := AfterFill(input[pos..]);
      FillStep(input, pos);
      c := Get8();
      while c == 255
        invariant pos <= |input|
        invariant if c == 255 then t == AfterFill(input[pos..]) else if t == [] then c == 0 &&
                  pos == |input| else c == t[0] && input[pos..] == t[1..]
        decreases |input| - pos, if c == 255 then 1 else 0
      {
        FillStep(input, pos);
        c := Get8();
      }
    }

    /** A byte of data; none at a marker. */
    method DataByte() returns (b: Byte, found: bool)
      requires pos <= |input|
      modifies this`pos, this`noMore, this`marker
      ensures pos <= |input| && (found ==> noMore == old(noMore))
      ensures var rest := if old(noMore) then [] else Unstuffed(input[old(pos)..]);
              var rest' := if noMore then [] else Unstuffed(input[pos..]);
              if found then if rest != [] then b == rest[0] && rest' == rest[1..] else b == 0 && rest' == []
              else rest == [] && noMore && !old(noMore)
    {
      b, found := 0, true;
      if noMore {
        return;
      }
      DataStep(input, pos);
      b := Get8();
      if b == 255 {
        var c := SkipFill();
        if c != 0 {
          marker := c;
          noMore := true;
          return 0, false;
        }
      }
    }

    /** `stbi__grow_buffer_unsafe` */
    method Grow()
      requires Valid() && codeBits <= 24
      modifies this`pos, this`codeBuffer, this`codeBits, this`noMore, this`marker, this`padded
      ensures Valid() && old(codeBits) <= codeBits && old(padded) <= padded
      ensures Ahead() == old(Ahead()) + Falses(padded - old(padded))
      ensures codeBits > 24 || (noMore && !old(noMore))
    {
      hide Valid, Ahead, Falses;
      NoPadding(Ahead());
      while true
        invariant Valid() && codeBits <= 24 && old(codeBits) <= codeBits && old(padded) <= padded
        invariant Ahead() == old(Ahead()) + Falses(padded - old(padded))
        invariant old(noMore) ==> noMore
        invariant noMore ==> old(noMore) || codeBits > 24
        decreases 32 - codeBits
      {
        var more := GrowByte(old(Ahead()), old(padded));
        if !more || codeBits > 24 {
          return;
        }
      }
    }

    /** One turn of its loop. */
    method GrowByte(ghost was: Bitstring, ghost base: nat) returns (more: bool)
      requires Valid() && codeBits <= 24 && base <= padded && Ahead() == was + Falses(padded - base)
      modifies this`pos, this`codeBuffer, this`codeBits, this`noMore, this`marker, this`padded
      ensures Valid() && base <= padded && Ahead() == was + Falses(padded - base)
      ensures more ==> codeBits == old(codeBits) + 8 && noMore == old(noMore)
      ensures !more ==> noMore && !old(noMore) && codeBits == old(codeBits)
    {
      hide Unstuffed, HighFirst, MsbBits, Or, Shl, Falses;
      ghost var rest := if noMore then [] else Unstuffed(input[pos..]);
      var b;
      NothingHigh();
      b, more := DataByte();
      if !more {
        return;
      }
      ghost var old8 := Window(codeBuffer)[..codeBits];
      AddByte(codeBuffer, codeBits, b);
      codeBuffer := Or(codeBuffer, Shl(b, 24 - codeBits));
      codeBits := codeBits + 8;
      if rest == [] {
        padded := padded + 8;
      }
      Grown(old8, rest, b, was, padded, base);
    }

    /** Takes `n` bits out of the buffer. */
    lemma Drop(n: nat)
      requires Valid() && n <= codeBits
      ensures Window(Up(codeBuffer, n))[codeBits - n..] == Falses(32 - (codeBits - n))
      ensures n <= |Ahead()|
      ensures Window(Up(codeBuffer, n))[..codeBits - n] +
              (if noMore then [] else HighFirst(Unstuffed(input[pos..]))) == Ahead()[n..]
      ensures Ahead()[..n] == Window(codeBuffer)[..n] && Top(codeBuffer, n) == MsbVal(Ahead()[..n])
    {
      hide HighFirst, Unstuffed, MsbBits, MsbVal, Shr;
      UpBits(codeBuffer, n);
      TopIs(codeBuffer, n);
      FalsesConcat(32 - codeBits, n);
      var w, m := Window(codeBuffer), codeBits;
      assert (w[n..] + Falses(n))[m - n..] == w[m..] + Falses(n);
      assert (w[n..] + Falses(n))[..m - n] == w[..m][n..];
      assert Ahead()[..n] == w[..n];
    }

    /** The front of the buffer is what is ahead, and zeros behind its end. */
    lemma FrontAhead()
      requires Valid() && (codeBits >= 16 || noMore)
      ensures Front(codeBuffer) == (Ahead() + Falses(16))[..16] && (codeBits < 16 ==> |Ahead()| == codeBits)
      ensures |Ahead()| >= codeBits
    {
      hide HighFirst, Unstuffed, MsbBits;
      var w := Window(codeBuffer);
      if codeBits < 16 {
        assert w == w[..codeBits] + w[codeBits..];
        assert Front(codeBuffer) == w[..codeBits] + Falses(16 - codeBits);
      }
    }

    /** `stbi__jpeg_huff_decode`: a value, or -1. */
    method HuffDecode(h: Huffman, values: seq<nat>, ghost lens: Lens) returns (r: int)
      requires Valid() && h.For(lens) && |values| == 256
      modifies this`pos, this`codeBuffer, this`codeBits, this`noMore, this`marker, this`padded
      ensures old(padded) <= padded
      ensures var all := old(Ahead()) + Falses(padded - old(padded));
              match DecodedAs(lens, (all + Falses(16))[..16])
              case None => r == -1
              case Some((i, l)) => if l <= |all| && i < 256 then r == values[i] && Valid() &&
                  Ahead() == all[l..] else r == -1
    {
      hide Valid, Ahead, Falses, Fits, FastFor, LevelsFor, Ordered, DecodedAs, Front, Search;
      NoPadding(Ahead());
      Small();
      if codeBits < 16 {
        Grow();
        Small();
      }
      FrontAhead();
      DecodeIs(h.fast[..], h.size[..], h.maxCode[..], h.delta[..], lens, codeBuffer);
      FastIndex(codeBuffer);
      DecodedIs(h.fast[..], h.size[..], h.maxCode[..], h.delta[..], codeBuffer);
      DecodedBound(lens, Front(codeBuffer));
      var c: int := Top(codeBuffer, FAST_BITS);
      var k := h.fast[c];
      var s: nat;
      if k < NOT_FAST {
        s, c := h.size[k], k;
        if s > codeBits {
          return -1;
        }
      } else {
        var at := FindLength(h.maxCode, h.delta, codeBuffer);
        if at == 17 {
          codeBits := codeBits - 16;
          return -1;
        }
        s := at;
        if s > codeBits {
          return -1;
        }
        c := Top(codeBuffer, s) + h.delta[s];
        if c < 0 || c >= 256 {
          return -1;
        }
      }
      Shift(s);
      r := values[c];
    }

    lemma Small()
      requires Valid()
      ensures 0 <= codeBits <= 32
    {
    }

    /** `code_buffer <<= s; code_bits -= s` */
    method Shift(s: nat)
      requires Valid() && s <= codeBits
      modifies this`codeBuffer, this`codeBits
      ensures Valid() && s <= |old(Ahead())| && Ahead() == old(Ahead())[s..]
    {
      hide Falses, HighFirst, Unstuffed, MsbBits, MsbVal;
      Drop(s);
      codeBuffer := Up(codeBuffer, s);
      codeBits := codeBits - s;
    }

    /** `stbi__extend_receive` */
    method ExtendReceive(n: nat) returns (r: int)
      requires Valid() && n <= 16
      modifies this`pos, this`codeBuffer, this`codeBits, this`noMore, this`marker, this`padded
      ensures Valid() && old(padded) <= padded
      ensures var all := old(Ahead()) + Falses(padded - old(padded));
              if n <= |all| then r == Extend(MsbVal(all[..n]), n) && Ahead() == all[n..] else r == 0 && Ahead() == all
    {
      hide Valid, Ahead, Falses, Rotate, Low, Shl, Shr, MsbBits, MsbVal, Pow2, Up;
      NoPadding(Ahead());
      Small();
      if codeBits < n {
        Grow();
        Small();
      }
      if codeBits < n {
        FrontAhead();
        return 0;
      }
      Enough();
      Drop(n);
      var sgn := Top(codeBuffer, 1);
      RotateIs(codeBuffer, n);
      var k := Rotate(codeBuffer, n);
      Signed(codeBuffer, n);
      var v := Low(k, n);
      Shift(n);
      r := if sgn == 1 then v else v + Bias(n);
    }

    lemma Enough()
      requires Valid()
      ensures codeBits <= |Ahead()|
    {
    }
  }

  lemma FillStep(s: seq<Byte>, i: nat)
    requires i <= |s|
    ensures AfterFill(s[i..]) == if i < |s| && s[i] == 255 then AfterFill(s[i + 1..]) else s[i..]
    ensures i < |s| ==> s[i..][1..] == s[i + 1..]
  {
  }

  lemma DataStep(s: seq<Byte>, i: nat)
    requires i <= |s|
    ensures i == |s| ==> Unstuffed(s[i..]) == []
    ensures i < |s| ==> (Unstuffed(s[i..]) ==
              if s[i] != 255 then [s[i]] + Unstuffed(s[i + 1..])
              else var t := AfterFill(s[i + 1..]);
                  if t == [] then [255] else if t[0] == 0 then [255] + Unstuffed(t[1..]) else [])
    ensures Unstuffed([]) == [] && s[|s|..] == []
  {
    if i < |s| {
      assert s[i..][1..] == s[i + 1..];
    }
  }

  lemma NothingHigh()
    ensures HighFirst([]) == []
  {
  }

  lemma NoPadding(b: Bitstring)
    ensures b + Falses(0) == b
  {
  }

  lemma ZeroWindow()
    ensures Window(0) == Falses(32)
  {
    hide MsbBits, MsbVal;
    FalsesValue(32);
    WordPower();
    MsbValBits(0, 32);
    MsbValInjective(Window(0), Falses(32));
  }

  /** A byte put behind the valid bits. */
  lemma AddByte(cb: Word, n: nat, c: Byte)
    requires n <= 24 && Window(cb)[n..] == Falses(32 - n)
    ensures Or(cb, Shl(c, 24 - n)) < WORD
    ensures var w := Window(Or(cb, Shl(c, 24 - n)));
            w[..n + 8] == Window(cb)[..n] + MsbBits(c, 8) && w[n + 8..] == Falses(24 - n)
  {
    hide MsbBits, MsbVal, Pow2, Falses, Or;
    Pow2Values();
    WordPower();
    var a, m, z := Window(cb)[..n], MsbBits(c, 8), Falses(24 - n);
    var w := a + (m + z);
    MsbValBits(cb, 32);
    MsbValBits(c, 8);
    assert Window(cb) == a + Window(cb)[n..];
    MsbValConcat(a, Window(cb)[n..]);
    FalsesValue(32 - n);
    FalsesValue(24 - n);
    MsbValConcat(m, z);
    MsbValConcat(a, m + z);
    Pow2Add(24 - n, 8);
    ByteFits(c, Pow2(24 - n));
    OrSwap(Shl(c, 24 - n), 32 - n, MsbVal(a), cb);
    assert MsbVal(w) == Or(cb, Shl(c, 24 - n));
    MsbValBits(MsbVal(w), 32);
    MsbValInjective(w, MsbBits(MsbVal(w), 32));
    assert w[..n + 8] == a + m && w[n + 8..] == z;
  }

  lemma ByteFits(c: Byte, q: nat)
    requires q > 0
    ensures c * q == q * c < q * 256
  {
    MulMonotone(q, c + 1, 256);
  }

  lemma OrSwap(a: nat, n: nat, hi: nat, cb: nat)
    requires a < Pow2(n) && cb == hi * Pow2(n)
    ensures Or(cb, a) == cb + a
  {
    hide Pow2, Or;
    OrDisjoint(a, n, hi);
    OrCommutes(cb, a);
    assert Shl(hi, n) == cb by {
      TimesComm(hi, Pow2(n));
    }
  }

  lemma TimesComm(x: nat, y: nat)
    ensures x * y == y * x
  {
  }

  lemma {:induction false} OrCommutes(a: nat, b: nat)
    ensures Or(a, b) == Or(b, a)
    decreases a + b
  {
    if a > 0 && b > 0 {
      OrCommutes(a / 2, b / 2);
    }
  }

  /** What is ahead after a byte has been taken in, from the data or beyond their end. */
  lemma Grown(a: Bitstring, rest: seq<Byte>, b: Byte, was: Bitstring, padded: nat, base: nat)
    requires rest != [] ==> b == rest[0] && base <= padded && a + HighFirst(rest) == was + Falses(padded - base)
    requires rest == [] ==> b == 0 && base + 8 <= padded && a + HighFirst([]) == was + Falses(padded - 8 - base)
    ensures a + MsbBits(b, 8) + HighFirst(if rest == [] then [] else rest[1..]) == was + Falses(padded - base)
  {
    hide MsbBits, Falses;
    if rest == [] {
      ZeroByte();
      FalsesConcat(padded - 8 - base, 8);
      assert a + HighFirst([]) == a;
      ConcatAssoc(was, Falses(padded - 8 - base), Falses(8));
      assert a + MsbBits(b, 8) + [] == a + MsbBits(b, 8);
    } else {
      ConcatAssoc(a, MsbBits(b, 8), HighFirst(rest[1..]));
    }
  }

  lemma ZeroByte()
    ensures MsbBits(0, 8) == Falses(8)
  {
  }

  /** `stbi__jbias` */
  function Bias(n: nat): int {
    if n == 0 then 0 else 1 - Pow2(n)
  }

  /** The first bit tells the sign. */
  lemma Signed(cb: Word, n: nat)
    requires n <= 16
    ensures Top(cb, 1) < 2 && Extend(Top(cb, n), n) == if Top(cb, 1) == 1 then Top(cb, n) as int else
            Top(cb, n) + Bias(n)
  {
    hide MsbVal, MsbBits, Shr;
    TopIs(cb, 1);
    TopIs(cb, n);
    Pow2Values();
    if n == 0 {
      assert Pow2(0) == 1;
    } else {
      hide Pow2;
      FrontShr(Window(cb), 1, n - 1);
      Pow2Add(n - 1, 1);
      FirstBit(Top(cb, n), n, Top(cb, 1));
    }
  }

  lemma FirstBit(v: nat, n: nat, f: nat)
    requires n > 0 && f == Shr(v, n - 1) && v < Pow2(n) && f < 2
    ensures f == 1 <==> v >= Pow2(n - 1)
  {
    LowShr(v, n - 1);
  }

  /** The search loop. */
  method FindLength(maxCode: array<nat>, delta: array<int>, cb: Word) returns (k: nat)
    requires maxCode.Length == 18 && delta.Length == 17 && maxCode[17] == 0xFFFFFFFF
    ensures 10 <= k <= 17
    ensures Search(maxCode[..], delta[..], cb, 10) ==
              if k == 17 then None else var c := Top(cb, k) + delta[k]; if c < 0 || c >= 256 then None else Some((c, k))
  {
    k := FAST_BITS + 1;
    TopBound(cb);
    while Top(cb, 16) >= maxCode[k]
      invariant 10 <= k <= 17 && Search(maxCode[..], delta[..], cb, 10) == Search(maxCode[..], delta[..], cb, k)
      decreases 17 - k
    {
      k := k + 1;
    }
  }

  lemma TopBound(cb: Word)
    ensures Top(cb, 16) < 65536
  {
    TopIs(cb, 16);
    Pow2Values();
  }

  lemma DecodedIs(fast: seq<nat>, size: seq<nat>, maxCode: seq<nat>, delta: seq<int>, cb: Word)
    requires Sized(fast, size, maxCode, delta) && Top(cb, FAST_BITS) < FAST_SIZE
    ensures Decoded(fast, size, maxCode, delta, cb) == if fast[Top(cb, FAST_BITS)] < NOT_FAST then
            Some((fast[Top(cb, FAST_BITS)], size[fast[Top(cb, FAST_BITS)]])) else Search(maxCode, delta, cb, 10)
  {
  }
}
