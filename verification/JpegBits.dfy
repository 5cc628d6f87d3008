/**
 The bit buffer of the JPEG decoder (external/stb_image.h): 32 bits, the next one highest.
 */
module JpegBits {
  import opened Bits
  import opened Canonical
  import opened CanonicalSearch
  import opened TrieSize

  const WORD := 0x1_0000_0000

  type Word = x: int | 0 <= x < 0x1_0000_0000

  /** The buffer as bits. */
  function Window(cb: Word): (b: Bitstring)
    ensures |b| == 32
  {
    MsbBits(cb, 32)
  }

  /** `code_buffer << n` */
  function Up(cb: Word, n: nat): Word {
    Shl(cb, n) % WORD
  }

  /** `code_buffer >> (32 - n)`: the number that the first `n` bits make. */
  function Top(cb: Word, n: nat): nat
    requires n <= 32
  {
    Shr(cb, 32 - n)
  }

  lemma WordPower()
    ensures Pow2(32) == WORD
  {
    Pow2Values();
    Pow2Add(16, 16);
  }

  lemma TopIs(cb: Word, n: nat)
    requires n <= 32
    ensures Top(cb, n) == Leading(Window(cb), n) && Top(cb, n) < Pow2(n)
  {
    hide MsbBits, MsbVal, Shr, Pow2;
    WordPower();
    MsbValBits(cb, 32);
    var b := Window(cb);
    assert b[..32] == b;
    FrontShr(b, n, 32 - n);
    assert Leading(b, n) < Pow2(n) by {
      assert |b[..n]| == n;
    }
  }

  lemma {:induction false} MsbValConcat(a: Bitstring, b: Bitstring)
    ensures MsbVal(a + b) == MsbVal(a) * Pow2(|b|) + MsbVal(b)
    decreases |b|
  {
    if b == [] {
      assert a + b == a;
      assert Pow2(0) == 1;
    } else {
      hide Pow2;
      var n := |b| - 1;
      assert (a + b)[..|a + b| - 1] == a + b[..n];
      MsbValConcat(a, b[..n]);
      NextPower(n);
      NextBit(MsbVal(a), Pow2(n), MsbVal(b[..n]), if b[n] then 1 else 0);
    }
  }

  lemma NextPower(n: nat)
    ensures Pow2(n + 1) == 2 * Pow2(n)
  {
  }

  lemma NextBit(x: nat, p: nat, y: nat, c: nat)
    ensures 2 * (x * p + y) + c == x * (2 * p) + (2 * y + c)
  {
    MulAssoc(x, 2, p);
    MulAssoc(2, x, p);
  }

  function Falses(n: nat): (r: Bitstring)
    ensures |r| == n
  {
    seq(n, _ => false)
  }

  lemma {:induction false} FalsesValue(n: nat)
    ensures MsbVal(Falses(n)) == 0
  {
    if n > 0 {
      FalsesValue(n - 1);
      assert Falses(n)[..n - 1] == Falses(n - 1);
    }
  }

  /** Shifting drops the first bits and brings in zeros. */
  lemma UpBits(cb: Word, n: nat)
    requires n <= 32
    ensures Window(Up(cb, n)) == Window(cb)[n..] + Falses(n)
  {
    hide MsbBits, MsbVal, Pow2, Falses;
    WordPower();
    var b := Window(cb);
    MsbValBits(cb, 32);
    assert b == b[..n] + b[n..];
    MsbValConcat(b[..n], b[n..]);
    var c := b[n..] + Falses(n);
    MsbValConcat(b[n..], Falses(n));
    FalsesValue(n);
    Pow2Add(32 - n, n);
    Wrapped(cb, MsbVal(b[..n]), Pow2(32 - n), MsbVal(b[n..]), Pow2(n));
    assert MsbVal(c) == Up(cb, n);
    MsbValBits(Up(cb, n), 32);
    MsbValInjective(c, Window(Up(cb, n)));
  }

  lemma Wrapped(cb: nat, hi: nat, p: nat, lo: nat, q: nat)
    requires cb == hi * p + lo && p * q == WORD && lo < p && q > 0
    ensures (q * cb) % WORD == lo * q
  {
    assert q * cb == WORD * hi + lo * q by {
      MulAssoc(hi, p, q);
      assert q * (hi * p + lo) == (hi * p) * q + lo * q;
    }
    MulMonotone(q, lo + 1, p);
    DivModIs(WORD, q * cb, hi, lo * q);
  }

  /** Shifting twice. */
  lemma UpTwice(cb: Word, m: nat, n: nat)
    requires m + n <= 32
    ensures Up(Up(cb, m), n) == Up(cb, m + n)
  {
    hide MsbBits, MsbVal, Pow2;
    UpBits(cb, m);
    UpBits(Up(cb, m), n);
    UpBits(cb, m + n);
    var a, b := Window(Up(Up(cb, m), n)), Window(Up(cb, m + n));
    FalsesConcat(m, n);
    assert (Window(cb)[m..] + Falses(m))[n..] == Window(cb)[m + n..] + Falses(m);
    assert a == b;
    WordPower();
    MsbValBits(Up(Up(cb, m), n), 32);
    MsbValBits(Up(cb, m + n), 32);
  }

  lemma FalsesConcat(m: nat, n: nat)
    ensures Falses(m) + Falses(n) == Falses(m + n)
  {
  }

  // ---------- receiving numbers ----------

  /** EXTEND of section F.2.2.1 of ITU-T T.81: numbers whose first bit is 0 are negative. */
  function Extend(v: nat, n: nat): int {
    if n > 0 && v < Pow2(n - 1) then v - Pow2(n) + 1 else v
  }

  /** `stbi_lrot` */
  function Rotate(cb: Word, n: nat): nat
    requires n <= 16
  {
    Or(Top(cb, n), Up(cb, n))
  }

  /** The rotated buffer holds the first bits at its low end and the others above. */
  lemma RotateIs(cb: Word, n: nat)
    requires n <= 16
    ensures Low(Rotate(cb, n), n) == Top(cb, n) && Shl(Shr(Rotate(cb, n), n), n) == Up(cb, n)
  {
    hide MsbBits, MsbVal, Pow2, Low, Shr, Or;
    WordPower();
    TopIs(cb, n);
    Pow2Add(32 - n, n);
    LowShr(cb, 32 - n);
    Wrapped(cb, Shr(cb, 32 - n), Pow2(32 - n), Low(cb, 32 - n), Pow2(n));
    var x := Low(cb, 32 - n);
    assert Up(cb, n) == Shl(x, n);
    OrDisjoint(Top(cb, n), n, x);
    LowShr(Rotate(cb, n), n);
    DivModIs(Pow2(n), Rotate(cb, n), x, Top(cb, n));
    DivModIs(Pow2(n), Rotate(cb, n), Shr(Rotate(cb, n), n), Low(Rotate(cb, n), n));
  }
}
