/**
 Bit strings in stream order and the machine words that buffer them.

 DEFLATE packs the bits of a stream into bytes starting from the least significant bit
 (section 3.1.1 of RFC 1951).  A `Bitstring` is such a stream; a word that buffers some of it
 is the number `FromBits` of the buffered bits.  `Shl`, `Shr`, `Low` and `Or` are C's `<<`, `>>`,
 `& ((1 << n) - 1)` and `|` on unsigned words.
 */
module Bits {
  type Byte = x: int | 0 <= x < 256
  type Bytes = seq<Byte>
  type Bitstring = seq<bool>

  function Pow2(n: nat): (r: nat)
    ensures r > 0
  {
    if n == 0 then 1 else 2 * Pow2(n - 1)
  }

  /** The `n` low bits of `v`, least significant first. */
  function ToBits(v: nat, n: nat): (r: Bitstring)
    ensures |r| == n
  {
    if n == 0 then [] else [v % 2 == 1] + ToBits(v / 2, n - 1)
  }

  /** The number whose bits, least significant first, are `b`. */
  function FromBits(b: Bitstring): (r: nat)
    ensures r < Pow2(|b|)
  {
    if b == [] then 0 else (if b[0] then 1 else 0) + 2 * FromBits(b[1..])
  }

  /** The `n` low bits of `v`, most significant first: how a Huffman code is packed. */
  function MsbBits(v: nat, n: nat): (r: Bitstring)
    ensures |r| == n
  {
    if n == 0 then [] else MsbBits(v / 2, n - 1) + [v % 2 == 1]
  }

  /** The bits of a byte string in stream order. */
  function ByteBits(bytes: seq<Byte>): (r: Bitstring)
    ensures |r| == 8 * |bytes|
  {
    if bytes == [] then [] else ToBits(bytes[0], 8) + ByteBits(bytes[1..])
  }

  lemma ByteBitsHead(bytes: seq<Byte>)
    requires bytes != []
    ensures ByteBits(bytes) == ToBits(bytes[0], 8) + ByteBits(bytes[1..])
  {
  }

  function Shl(v: nat, n: nat): nat {
    Pow2(n) * v
  }

  function Shr(v: nat, n: nat): nat {
    if n == 0 then v else Shr(v / 2, n - 1)
  }

  function Low(v: nat, n: nat): nat {
    if n == 0 then 0 else v % 2 + 2 * Low(v / 2, n - 1)
  }

  /** Bitwise or. */
  function Or(a: nat, b: nat): nat
    decreases a + b
  {
    if a == 0 then b
    else if b == 0 then a
    else (if a % 2 == 1 || b % 2 == 1 then 1 else 0) + 2 * Or(a / 2, b / 2)
  }

  /** Bitwise exclusive or. */
  function Xor(a: nat, b: nat): nat
    decreases a + b
  {
    if a == 0 then b
    else if b == 0 then a
    else (if a % 2 == b % 2 then 0 else 1) + 2 * Xor(a / 2, b / 2)
  }

  /** Bitwise and. */
  function And(a: nat, b: nat): nat
    decreases a
  {
    if a == 0 then 0 else (if a % 2 == 1 && b % 2 == 1 then 1 else 0) + 2 * And(a / 2, b / 2)
  }

  /** `(n & (n - 1)) == 0` */
  lemma {:induction false} PowerOfTwoTest(n: nat)
    requires n > 0
    ensures And(n, n - 1) == 0 <==> exists k: nat :: n == Pow2(k)
  {
    if n % 2 == 1 {
      assert n == Pow2(0) <==> n == 1;
      if n > 1 {
        AndSelf(n / 2);
        assert (n - 1) / 2 == n / 2;
        forall k: nat
          ensures n != Pow2(k)
        {
        }
      }
    } else {
      PowerOfTwoTest(n / 2);
      var h := n / 2;
      assert And(n, n - 1) == 2 * And(h, h - 1) by {
        assert (n - 1) / 2 == h - 1;
      }
      HalfPower(n);
      if k: nat :| h == Pow2(k) {
        assert n == Pow2(k + 1);
      }
    }
  }

  lemma HalfPower(n: nat)
    requires n > 0 && n % 2 == 0
    ensures (exists k: nat :: n == Pow2(k)) ==> exists k: nat :: n / 2 == Pow2(k)
  {
    if k: nat :| n == Pow2(k) {
      assert n / 2 == Pow2(k - 1);
    }
  }

  lemma {:induction false} AndSelf(n: nat)
    ensures And(n, n) == n
  {
    if n > 0 {
      AndSelf(n / 2);
    }
  }

  lemma {:induction false} Pow2Add(m: nat, n: nat)
    ensures Pow2(m + n) == Pow2(m) * Pow2(n)
  {
    if m != 0 {
      Pow2Add(m - 1, n);
      assert Pow2(m + n) == 2 * Pow2(m - 1 + n);
    }
  }

  lemma {:induction false} Pow2Monotone(m: nat, n: nat)
    requires m <= n
    ensures Pow2(m) <= Pow2(n)
  {
    if m < n {
      Pow2Monotone(m, n - 1);
    }
  }

  lemma Pow2Values()
    ensures Pow2(1) == 2 && Pow2(2) == 4 && Pow2(3) == 8 && Pow2(4) == 16 && Pow2(5) == 32
    ensures Pow2(6) == 64 && Pow2(7) == 128 && Pow2(8) == 256 && Pow2(9) == 512 && Pow2(10) == 1024
    ensures Pow2(11) == 2048 && Pow2(12) == 4096 && Pow2(13) == 8192 && Pow2(14) == 16384
    ensures Pow2(15) == 32768 && Pow2(16) == 65536
  {
    assert Pow2(4) == 16;
    assert Pow2(8) == 256;
    assert Pow2(12) == 4096;
  }

  lemma {:induction false} FromBitsConcat(a: Bitstring, b: Bitstring)
    ensures FromBits(a + b) == FromBits(a) + Pow2(|a|) * FromBits(b)
  {
    if a == [] {
      assert a + b == b;
    } else {
      FromBitsConcat(a[1..], b);
      assert (a + b)[1..] == a[1..] + b;
      MulAssoc(2, Pow2(|a| - 1), FromBits(b));
    }
  }

  lemma {:induction false} ToBitsFromBits(b: Bitstring)
    ensures ToBits(FromBits(b), |b|) == b
  {
    if b != [] {
      ToBitsFromBits(b[1..]);
      assert b == [b[0]] + b[1..];
    }
  }

  lemma {:induction false} FromBitsToBits(v: nat, n: nat)
    requires v < Pow2(n)
    ensures FromBits(ToBits(v, n)) == v
  {
    if n != 0 {
      FromBitsToBits(v / 2, n - 1);
    }
  }

  /** Shifting a buffer right drops the oldest bits; masking it keeps them. */
  lemma {:induction false} ShiftMask(b: Bitstring, n: nat)
    requires n <= |b|
    ensures Shr(FromBits(b), n) == FromBits(b[n..])
    ensures Low(FromBits(b), n) == FromBits(b[..n])
  {
    if n == 0 {
      assert b[0..] == b;
    } else {
      ShiftMask(b[1..], n - 1);
      assert b[1..][n - 1..] == b[n..];
      assert b[..n] == [b[0]] + b[1..][..n - 1];
    }
  }

  lemma {:induction false} LowShr(v: nat, n: nat)
    ensures v == Low(v, n) + Pow2(n) * Shr(v, n) && Low(v, n) < Pow2(n)
  {
    if n != 0 {
      LowShr(v / 2, n - 1);
      MulAssoc(2, Pow2(n - 1), Shr(v / 2, n - 1));
    }
  }

  /** The bits of a shifted word. */
  lemma {:induction false} ToBitsShr(v: nat, m: nat, n: nat)
    ensures ToBits(v, m + n) == ToBits(v, m) + ToBits(Shr(v, m), n)
    ensures ToBits(v, m) == ToBits(Low(v, m), m)
  {
    if m != 0 {
      ToBitsShr(v / 2, m - 1, n);
      assert ToBits(v, m + n) == [v % 2 == 1] + ToBits(v / 2, m - 1 + n);
      assert Low(v, m) / 2 == Low(v / 2, m - 1) && Low(v, m) % 2 == v % 2;
    }
  }

  lemma ConcatAssoc<T>(a: seq<T>, b: seq<T>, c: seq<T>)
    ensures a + b + c == a + (b + c)
  {
  }

  lemma MulAssoc(x: int, y: int, z: int)
    ensures x * y * z == x * (y * z)
  {
  }

  lemma MulMonotone(d: int, j: int, k: int)
    requires 0 <= d && j <= k
    ensures d * j <= d * k
  {
    assert d * (k - j) >= 0;
    assert d * (k - j) == d * k - d * j;
  }

  /** Quotient and remainder are determined. */
  lemma DivModIs(m: nat, x: int, q: int, r: int)
    requires m > 0 && x == m * q + r && 0 <= r < m
    ensures x % m == r && x / m == q
  {
    var d := x / m - q;
    assert x == m * (x / m) + x % m;
    assert m * d == m * (x / m) - m * q;
    if d > 0 {
      MulMonotone(m, 1, d);
    } else if d < 0 {
      MulMonotone(m, d, -1);
    }
  }

  /** A product that proofs need not look into. */
  function Mul(a: nat, b: nat): nat {
    a * b
  }

  lemma MulNext(n: nat, w: nat)
    ensures Mul(n + 1, w) == Mul(n, w) + w && Mul(0, w) == 0
  {
  }

  lemma MulRoom(i: nat, n: nat, w: nat)
    requires i < n
    ensures Mul(i, w) + w <= Mul(n, w)
  {
    MulMonotone(w, i + 1, n);
    MulNext(i, w);
  }

  lemma MulCancel(d: int, j: int, k: int)
    requires 0 < d && d * j <= d * k
    ensures j <= k
  {
    if j > k {
      MulMonotone(d, k + 1, j);
    }
  }

  /** `a | (b << n)` is a sum when `a` fits in the `n` bits below. */
  lemma {:induction false} OrDisjoint(a: nat, n: nat, b: nat)
    requires a < Pow2(n)
    ensures Or(a, Shl(b, n)) == a + Shl(b, n)
  {
    if n == 0 {
      assert a == 0;
    } else {
      OrDisjoint(a / 2, n - 1, b);
      MulAssoc(2, Pow2(n - 1), b);
      OrEven(a, Pow2(n - 1) * b);
    }
  }

  lemma OrEven(a: nat, h: nat)
    ensures Or(a, 2 * h) == a % 2 + 2 * Or(a / 2, h)
  {
    assert (2 * h) / 2 == h && (2 * h) % 2 == 0;
  }

  /** Appending bits to a buffered word: the `|=` of both bit writers and bit readers. */
  lemma AppendBits(a: Bitstring, b: Bitstring)
    ensures Or(FromBits(a), Shl(FromBits(b), |a|)) == FromBits(a + b)
  {
    FromBitsConcat(a, b);
    OrDisjoint(FromBits(a), |a|, FromBits(b));
  }

  lemma {:induction false} ByteBitsConcat(a: seq<Byte>, b: seq<Byte>)
    ensures ByteBits(a + b) == ByteBits(a) + ByteBits(b)
  {
    if a == [] {
      assert a + b == b;
    } else {
      var x, t := a[0], a[1..];
      ByteBitsConcat(t, b);
      assert (a + b)[0] == x && (a + b)[1..] == t + b;
      assert ToBits(x, 8) + (ByteBits(t) + ByteBits(b)) == ToBits(x, 8) + ByteBits(t) + ByteBits(b);
    }
  }

  lemma ByteBitsSnoc(a: seq<Byte>, x: Byte)
    ensures ByteBits(a + [x]) == ByteBits(a) + ToBits(x, 8)
  {
    ByteBitsConcat(a, [x]);
    assert ByteBits([x]) == ToBits(x, 8) + ByteBits([]);
  }

  lemma {:induction false} ByteBitsInjective(a: seq<Byte>, b: seq<Byte>)
    requires ByteBits(a) == ByteBits(b)
    ensures a == b
  {
    assert |a| == |b|;
    if a != [] {
      var x, y := ByteBits(a), ByteBits(b);
      assert ToBits(a[0], 8) == x[..8] == ToBits(b[0], 8);
      assert ByteBits(a[1..]) == x[8..] == ByteBits(b[1..]);
      Pow2Values();
      FromBitsToBits(a[0], 8);
      FromBitsToBits(b[0], 8);
      ByteBitsInjective(a[1..], b[1..]);
      assert a == [a[0]] + a[1..];
      assert b == [b[0]] + b[1..];
    }
  }

  /** A code and its leading bits: dropping the last `k` bits shifts the code right. */
  lemma {:induction false} MsbPrefix(v: nat, n: nat, k: nat)
    requires k <= n
    ensures MsbBits(v, n)[..n - k] == MsbBits(Shr(v, k), n - k)
  {
    if k != 0 {
      MsbPrefix(v / 2, n - 1, k - 1);
      assert MsbBits(v, n)[..n - k] == MsbBits(v / 2, n - 1)[..n - 1 - (k - 1)];
    }
  }

  lemma {:induction false} MsbInjective(v: nat, w: nat, n: nat)
    requires v < Pow2(n) && w < Pow2(n)
    requires MsbBits(v, n) == MsbBits(w, n)
    ensures v == w
  {
    if n != 0 {
      var x, y := MsbBits(v, n), MsbBits(w, n);
      assert MsbBits(v / 2, n - 1) == x[..n - 1] == y[..n - 1] == MsbBits(w / 2, n - 1);
      assert x[n - 1] == y[n - 1];
      MsbInjective(v / 2, w / 2, n - 1);
    }
  }

  /** Reverses the `n` low bits of `code`: the loop both coders use to turn a code into its packed form. */
  method ReverseCode(code: nat, n: nat) returns (rev: nat)
    ensures rev == FromBits(MsbBits(code, n))
  {
    var cur: nat, l: nat := code, n;
    rev := 0;
    while l > 0
      invariant l <= n
      invariant rev * Pow2(l) + FromBits(MsbBits(cur, l)) == FromBits(MsbBits(code, n))
    {
      ReverseStep(rev, cur, l);
      rev := 2 * rev + cur % 2;
      cur := cur / 2;
      l := l - 1;
    }
  }

  lemma ReverseStep(rev: nat, cur: nat, l: nat)
    requires l > 0
    ensures rev * Pow2(l) + FromBits(MsbBits(cur, l)) ==
            (2 * rev + cur % 2) * Pow2(l - 1) + FromBits(MsbBits(cur / 2, l - 1))
  {
    var b := cur % 2;
    FromBitsConcat(MsbBits(cur / 2, l - 1), [b == 1]);
    assert FromBits([b == 1]) == b by {
      assert [b == 1][1..] == [];
    }
    ShiftIn(rev, b, Pow2(l - 1));
  }

  lemma ShiftIn(rev: nat, b: nat, p: nat)
    ensures rev * (2 * p) + p * b == (2 * rev + b) * p
  {
  }
}
