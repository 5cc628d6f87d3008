/**
 The table that decodes a whole AC coefficient at once (external/stb_image.h,
 `stbi__build_fast_ac`): the same as finding a code and then receiving a number.
 */
module JpegAc {
  import opened Bits
  import opened Canonical
  import opened CanonicalSearch
  import opened JpegBits
  import opened JpegHuffman
  import opened TrieSize
  import opened Wrappers

  /** `((i << len) & 511) >> (9 - n)` */
  function Magnitude(i: nat, len: nat, n: nat): nat
    requires n <= 9
  {
    Shr(Shl(i, len) % FAST_SIZE, 9 - n)
  }

  /** One entry: value, run and number of bits, or 0. */
  function FastAc(fast: seq<nat>, size: seq<nat>, values: seq<nat>, i: nat): int
    requires |fast| == FAST_SIZE && |size| == 257 && |values| == 256 && i < FAST_SIZE
  {
    var f := fast[i];
    if f >= NOT_FAST then 0 else
    var rs, len := values[f], size[f];
    var run, n := rs / 16 % 16, rs % 16;
    if n == 0 || len + n > FAST_BITS then 0 else
    var k := Magnitude(i, len, n);
    var v := if k < Pow2(n - 1) then k - Pow2(n) + 1 else k;
    if -128 <= v <= 127 then v * 256 + run * 16 + (len + n) else 0
  }

  lemma WrappedBelow(i: nat, hi: nat, p: nat, lo: nat, q: nat)
    requires i == hi * p + lo && p * q == FAST_SIZE && lo < p && q > 0
    ensures (q * i) % FAST_SIZE == lo * q
  {
    assert q * i == FAST_SIZE * hi + lo * q by {
      MulAssoc(hi, p, q);
      assert q * (hi * p + lo) == (hi * p) * q + lo * q;
    }
    MulMonotone(q, lo + 1, p);
    DivModIs(FAST_SIZE, q * i, hi, lo * q);
  }

  /** The bits behind the code, as the table builder cuts them out. */
  lemma MagnitudeIs(b: Bitstring, len: nat, n: nat)
    requires |b| == 9 && len + n <= 9
    ensures Magnitude(MsbVal(b), len, n) == MsbVal(b[len..len + n])
  {
    hide MsbVal, Pow2, Shr;
    Pow2Values();
    ThreeParts(b, len, n);
    Pow2Add(9 - len, len);
    WrappedBelow(MsbVal(b), MsbVal(b[..len]), Pow2(9 - len), MsbVal(b[len..]), Pow2(len));
    CutOut(MsbVal(b[len..]), MsbVal(b[len..len + n]), MsbVal(b[len + n..]), len, n);
  }

  lemma ThreeParts(b: Bitstring, len: nat, n: nat)
    requires |b| == 9 && len + n <= 9
    ensures MsbVal(b) == MsbVal(b[..len]) * Pow2(9 - len) + MsbVal(b[len..])
    ensures MsbVal(b[len..]) == Pow2(9 - len - n) * MsbVal(b[len..len + n]) + MsbVal(b[len + n..])
  {
    hide MsbVal, Pow2;
    assert b == b[..len] + b[len..] && b[len..] == b[len..len + n] + b[len + n..];
    MsbValConcat(b[..len], b[len..]);
    MsbValConcat(b[len..len + n], b[len + n..]);
  }

  lemma CutOut(v: nat, x: nat, y: nat, len: nat, n: nat)
    requires len + n <= 9 && v == Pow2(9 - len - n) * x + y && y < Pow2(9 - len - n)
    ensures Shr(v * Pow2(len), 9 - n) == x
  {
    hide Pow2, Shr, Low;
    Pow2Add(9 - n - len, len);
    Cut(x, Pow2(9 - len - n), y, Pow2(len));
    ShrIs(v * Pow2(len), 9 - n, x, y * Pow2(len));
  }

  lemma ShrIs(w: nat, t: nat, x: nat, r: nat)
    requires w == Pow2(t) * x + r && r < Pow2(t)
    ensures Shr(w, t) == x
  {
    hide Pow2, Shr, Low;
    LowShr(w, t);
    DivModIs(Pow2(t), w, Shr(w, t), Low(w, t));
    DivModIs(Pow2(t), w, x, r);
  }

  lemma Cut(hi: nat, p: nat, lo: nat, q: nat)
    requires lo < p && q > 0
    ensures (p * hi + lo) * q == (p * q) * hi + lo * q && lo * q < p * q
  {
    MulAssoc(hi, p, q);
    MulMonotone(q, lo + 1, p);
  }

  /** What `stbi__extend_receive` gets from the buffer after a code of `len` bits. */
  lemma ReceivedIs(cb: Word, len: nat, n: nat)
    requires len + n <= 32
    ensures Top(Up(cb, len), n) == MsbVal(Window(cb)[len..len + n])
  {
    hide MsbVal, MsbBits, Shr;
    UpBits(cb, len);
    TopIs(Up(cb, len), n);
    assert (Window(cb)[len..] + Falses(len))[..n] == Window(cb)[len..len + n];
  }

  /**
   A non-zero entry for the front of the buffer says what the slow way finds: the code of a symbol,
   the run in its high half, the number that follows with as many bits as its low half says, and how
   many bits both take.
   */
  lemma FastAcAgrees(fast: seq<nat>, size: seq<nat>, maxCode: seq<nat>, delta: seq<int>, lens: Lens, values: seq<nat>,
      cb: Word)
    requires TablesFor(fast, size, maxCode, delta, lens) && |values| == 256
    requires (forall i :: 0 <= i < 256 ==> values[i] < 256)
    requires Top(cb, FAST_BITS) < FAST_SIZE && |fast| == FAST_SIZE
    requires FastAc(fast, size, values, Top(cb, FAST_BITS)) != 0
    ensures var r := FastAc(fast, size, values, Top(cb, FAST_BITS));
            && Found(lens, Front(cb)).Some? && DecodedAs(lens, Front(cb)) == Found(lens, Front(cb))
            && var (sym, len) := Found(lens, Front(cb)).value;
               var n := r % 16 - len;
               && sym < 256 && n > 0 && len + n <= FAST_BITS
               && values[sym] == r / 16 % 16 * 16 + n
               && r / 256 == Extend(Top(Up(cb, len), n), n)
               && Up(Up(cb, len), n) == Up(cb, r % 16)
  {
    hide Fits, Ordered, FastFor, LevelsFor, Found, Front, MsbBits, MsbVal, Shr, Starts, Code, End, Pow2;
    hide FastAc, Extend, Magnitude, Leading;
    hide DecodedAs, Search;
    FastFound(fast, size, maxCode, delta, lens, cb);
    DecodeIs(fast, size, maxCode, delta, lens, cb);
    var i := Top(cb, FAST_BITS);
    EntryMeans(fast, size, values, i);
    var len, n := size[fast[i]], values[fast[i]] % 16;
    var b := Window(cb)[..9];
    TopIs(cb, FAST_BITS);
    FrontValue(cb);
    MagnitudeIs(b, len, n);
    ReceivedIs(cb, len, n);
    SliceOfFirst(Window(cb), len, n);
    UpTwice(cb, len, n);
  }

  lemma SliceOfFirst(w: Bitstring, len: nat, n: nat)
    requires |w| == 32 && len + n <= 9
    ensures w[..9][len..len + n] == w[len..len + n]
  {
  }

  lemma FrontValue(cb: Word)
    ensures Leading(Window(cb), 9) == MsbVal(Window(cb)[..9])
  {
  }

  /** The parts of a non-zero entry. */
  lemma EntryMeans(fast: seq<nat>, size: seq<nat>, values: seq<nat>, i: nat)
    requires |fast| == FAST_SIZE && |size| == 257 && |values| == 256 && i < FAST_SIZE
    requires (forall i :: 0 <= i < 256 ==> values[i] < 256)
    requires FastAc(fast, size, values, i) != 0
    ensures var r, f := FastAc(fast, size, values, i), fast[i];
            && f < NOT_FAST
            && var len, n := size[f], values[f] % 16;
               && 0 < n && len + n <= FAST_BITS && r % 16 == len + n && values[f] == r / 16 % 16 * 16 + n &&
                   r / 256 == Extend(Magnitude(i, len, n), n)
  {
    hide Magnitude, Pow2;
    var rs, len := values[fast[i]], size[fast[i]];
    EntryParts(Extend(Magnitude(i, len, rs % 16), rs % 16), rs / 16, len + rs % 16);
  }

  lemma EntryParts(v: int, run: nat, s: nat)
    requires run < 16 && s < 16
    ensures var r := v * 256 + run * 16 + s; r % 16 == s && r / 16 % 16 == run && r / 256 == v
  {
  }

  /** `stbi__build_fast_ac` */
  method BuildFastAc(h: Huffman, values: seq<nat>, ghost lens: Lens) returns (fac: array<int>)
    requires h.For(lens) && |values| == 256
    ensures fresh(fac) && fac.Length == FAST_SIZE && forall i :: 0 <= i < FAST_SIZE ==>
            fac[i] == FastAc(h.fast[..], h.size[..], values, i)
  {
    hide FastAc, Fits, FastFor, LevelsFor, Ordered;
    fac := new int[FAST_SIZE](_ => 0);
    for i := 0 to FAST_SIZE
      invariant forall j :: 0 <= j < i ==> fac[j] == FastAc(h.fast[..], h.size[..], values, j)
    {
      var f := h.fast[i];
      var entry := 0;
      if f < NOT_FAST {
        EntryValue(h.fast[..], h.size[..], values, i);
        var rs, len := values[f], h.size[f];
        var run, n := rs / 16 % 16, rs % 16;
        if n != 0 && len + n <= FAST_BITS {
          var k: int := Magnitude(i, len, n);
          var m := Pow2(n - 1);
          if k < m {
            k := k - Pow2(n) + 1;
          }
          if -128 <= k <= 127 {
            entry := k * 256 + run * 16 + (len + n);
          }
        }
      } else {
        EntryValue(h.fast[..], h.size[..], values, i);
      }
      fac[i] := entry;
    }
  }

  lemma EntryValue(fast: seq<nat>, size: seq<nat>, values: seq<nat>, i: nat)
    requires |fast| == FAST_SIZE && |size| == 257 && |values| == 256 && i < FAST_SIZE
    ensures FastAc(fast, size, values, i) ==
              if fast[i] >= NOT_FAST then 0 else
              var rs, len := values[fast[i]], size[fast[i]];
              var run, n := rs / 16 % 16, rs % 16;
              if n == 0 || len + n > FAST_BITS then 0 else
              var k := Magnitude(i, len, n);
              var v := if k < Pow2(n - 1) then k - Pow2(n) + 1 else k;
              if -128 <= v <= 127 then v * 256 + run * 16 + (len + n) else 0
  {
  }
}
