/**
 Adler-32 (section 8.2 of RFC 1950) and `mz_adler32` of external/miniz.c, which takes the
 remainder only once every 5552 bytes.
 */
module Adler {
  import opened Bits

  const MOD := 65521
  const WORD := 0x1_0000_0000

  function Add(s: (nat, nat), c: Byte): (nat, nat) {
    ((s.0 + c) % MOD, (s.1 + (s.0 + c) % MOD) % MOD)
  }

  /** The definition: both sums reduced after every byte. */
  function Sums(s1: nat, s2: nat, data: seq<Byte>): (nat, nat)
    decreases |data|
  {
    if data == [] then (s1, s2) else Add(Sums(s1, s2, data[..|data| - 1]), data[|data| - 1])
  }

  function Checksum(adler: nat, data: seq<Byte>): nat {
    var (a, b) := Sums(adler % 65536, adler / 65536, data);
    b * 65536 + a
  }

  /** The checksum of a concatenation continues the checksum of the first part. */
  lemma {:induction false} SumsConcat(s1: nat, s2: nat, x: seq<Byte>, y: seq<Byte>)
    ensures Sums(s1, s2, x + y) == Sums(Sums(s1, s2, x).0, Sums(s1, s2, x).1, y)
    decreases |y|
  {
    if y == [] {
      assert x + y == x;
    } else {
      SumsConcat(s1, s2, x, y[..|y| - 1]);
      assert (x + y)[..|x + y| - 1] == x + y[..|y| - 1];
    }
  }

  lemma {:induction false} SumsBound(s1: nat, s2: nat, data: seq<Byte>)
    requires s1 < 65536 && s2 < 65536
    ensures Sums(s1, s2, data).0 < 65536 && Sums(s1, s2, data).1 < 65536
    ensures data != [] ==> Sums(s1, s2, data).0 < MOD && Sums(s1, s2, data).1 < MOD
  {
  }

  lemma ChecksumConcat(adler: nat, x: seq<Byte>, y: seq<Byte>)
    requires adler < WORD
    ensures Checksum(adler, x + y) == Checksum(Checksum(adler, x), y) && Checksum(adler, x) < WORD
  {
    SumsConcat(adler % 65536, adler / 65536, x, y);
    SumsBound(adler % 65536, adler / 65536, x);
  }

  // ---------- sums without remainders ----------

  /** What the two words hold while a block of bytes is added. */
  function Plain(s1: nat, s2: nat, data: seq<Byte>): (nat, nat)
    decreases |data|
  {
    if data == [] then (s1, s2)
    else
      var (a, b) := Plain(s1, s2, data[..|data| - 1]);
      (a + data[|data| - 1], b + (a + data[|data| - 1]))
  }

  lemma {:induction false} PlainBound(s1: nat, s2: nat, data: seq<Byte>)
    requires s1 < 65536 && s2 < 65536
    ensures var (a, b) := Plain(s1, s2, data); var n := |data|;
            a <= 65535 + 255 * n && 2 * b <= 2 * 65535 + 2 * 65535 * n + 255 * (n * (n + 1))
    decreases |data|
  {
    if data != [] {
      PlainBound(s1, s2, data[..|data| - 1]);
    }
  }

  /** A block is short enough for 32 bits. */
  lemma BlockFits(s1: nat, s2: nat, data: seq<Byte>)
    requires s1 < 65536 && s2 < 65536 && |data| <= 5552
    ensures Plain(s1, s2, data).0 < WORD && Plain(s1, s2, data).1 < WORD
  {
    var n := |data|;
    PlainBound(s1, s2, data);
    MulMonotone(n, n + 1, 5553);
    MulMonotone(5553, n, 5552);
  }

  /** One remainder at the end is as good as one after every byte. */
  lemma {:induction false} PlainSums(s1: nat, s2: nat, data: seq<Byte>)
    ensures Plain(s1, s2, data).0 % MOD == Sums(s1, s2, data).0 % MOD
    ensures Plain(s1, s2, data).1 % MOD == Sums(s1, s2, data).1 % MOD
    ensures data != [] ==> (Plain(s1, s2, data).0 % MOD, Plain(s1, s2, data).1 % MOD) == Sums(s1, s2, data)
    decreases |data|
  {
    if data != [] {
      var init, c := data[..|data| - 1], data[|data| - 1];
      PlainSums(s1, s2, init);
      ModStep(Plain(s1, s2, init).0, Plain(s1, s2, init).1, Sums(s1, s2, init).0, Sums(s1, s2, init).1, c);
    }
  }

  lemma ModStep(a: nat, b: nat, x: nat, y: nat, c: nat)
    requires a % MOD == x % MOD && b % MOD == y % MOD
    ensures (a + c) % MOD == (x + c) % MOD
    ensures (b + (a + c)) % MOD == (y + (x + c) % MOD) % MOD
  {
  }

  lemma AddCongruent(s: (nat, nat), t: (nat, nat), c: Byte)
    requires s.0 % MOD == t.0 % MOD && s.1 % MOD == t.1 % MOD
    ensures Add(s, c) == Add(t, c)
  {
    ModSum(s.0, t.0, c);
    ModSum(s.1, t.1, (s.0 + c) % MOD);
  }

  lemma ModSum(x: nat, y: nat, c: nat)
    requires x % MOD == y % MOD
    ensures (x + c) % MOD == (y + c) % MOD
  {
  }

  /** Starting from reduced sums changes nothing. */
  lemma {:induction false} SumsCongruent(s1: nat, s2: nat, t1: nat, t2: nat, data: seq<Byte>)
    requires data != [] && s1 % MOD == t1 % MOD && s2 % MOD == t2 % MOD
    ensures Sums(s1, s2, data) == Sums(t1, t2, data)
    decreases |data|
  {
    hide Add;
    if |data| > 1 {
      SumsCongruent(s1, s2, t1, t2, data[..|data| - 1]);
    } else {
      AddCongruent((s1, s2), (t1, t2), data[0]);
      assert data[..0] == [];
    }
  }

  /** One step of the unrolled loop. */
  method AddByte(s1: nat, s2: nat, c: Byte) returns (t1: nat, t2: nat)
    ensures t1 == (s1 + c) % WORD && t2 == (s2 + t1) % WORD
  {
    t1 := (s1 + c) % WORD;
    t2 := (s2 + t1) % WORD;
  }

  /** Adds one block, eight bytes at a time and then one at a time. */
  method AddBlock(s1: nat, s2: nat, data: seq<Byte>, from: nat, len: nat) returns (t1: nat, t2: nat)
    requires s1 < 65536 && s2 < 65536 && len <= 5552 && from + len <= |data|
    ensures (t1, t2) == Plain(s1, s2, data[from..from + len])
  {
    hide Plain;
    ghost var block := data[from..from + len];
    t1, t2 := s1, s2;
    PlainNone(s1, s2);
    var i := 0;
    while i + 7 < len
      invariant 0 <= i <= len && (t1, t2) == Plain(s1, s2, block[..i])
    {
      SliceOfBlock(data, from, len, i);
      t1, t2 := AddEight(t1, t2, data, from + i, s1, s2, block, i);
      i := i + 8;
    }
    while i < len
      invariant 0 <= i <= len && (t1, t2) == Plain(s1, s2, block[..i])
    {
      AddedByte(s1, s2, block, i);
      t1, t2 := AddByte(t1, t2, data[from + i]);
      i := i + 1;
    }
    assert block[..len] == block;
  }

  lemma SliceOfBlock(data: seq<Byte>, from: nat, len: nat, i: nat)
    requires from + len <= |data| && i + 8 <= len
    ensures data[from + i..from + i + 8] == data[from..from + len][i..i + 8]
  {
    var l, r := data[from + i..from + i + 8], data[from..from + len][i..i + 8];
    assert |l| == |r| && forall k :: 0 <= k < 8 ==> l[k] == data[from + i + k] == r[k];
  }

  lemma PlainNone(s1: nat, s2: nat)
    ensures Plain(s1, s2, []) == (s1, s2)
  {
  }

  method AddEight(s1: nat, s2: nat, data: seq<Byte>, at: nat, ghost a: nat, ghost b: nat, ghost block: seq<Byte>,
      ghost i: nat) returns (t1: nat, t2: nat)
    requires a < 65536 && b < 65536 && i + 8 <= |block| <= 5552 && at + 8 <= |data|
    requires data[at..at + 8] == block[i..i + 8]
    requires (s1, s2) == Plain(a, b, block[..i])
    ensures (t1, t2) == Plain(a, b, block[..i + 8])
  {
    hide Plain;
    t1, t2 := s1, s2;
    var k: nat := 0;
    while k < 8
      invariant k <= 8 && (t1, t2) == Plain(a, b, block[..i + k])
    {
      AddedByte(a, b, block, i + k);
      assert data[at + k] == data[at..at + 8][k] == block[i..i + 8][k];
      t1, t2 := AddByte(t1, t2, data[at + k]);
      k := k + 1;
    }
  }

  lemma AddedByte(s1: nat, s2: nat, block: seq<Byte>, i: nat)
    requires s1 < 65536 && s2 < 65536 && i < |block| <= 5552
    ensures var (a, b) := Plain(s1, s2, block[..i]);
            Plain(s1, s2, block[..i + 1]) == ((a + block[i]) % WORD, (b + (a + block[i]) % WORD) % WORD)
  {
    BlockFits(s1, s2, block[..i + 1]);
    assert block[..i + 1][..i] == block[..i];
  }

  /** `mz_adler32` on a non-null buffer: no sum ever overflows, and the result is the definition's. */
  method Adler32(adler: nat, data: seq<Byte>) returns (r: nat)
    requires adler < WORD
    ensures r == Checksum(adler, data) && r < WORD
  {
    hide Sums, Plain;
    var s1: nat, s2: nat := adler % 65536, adler / 65536;
    ghost var a: nat, b: nat := s1, s2;
    NoSums(a, b);
    var left: nat, blockLen: nat := |data|, |data| % 5552;
    while left > 0
      invariant 0 <= left <= |data| && blockLen <= 5552 && s1 < 65536 && s2 < 65536
      invariant left > 0 ==> blockLen <= left && (left - blockLen) % 5552 == 0
      invariant data == [] ==> s1 == a && s2 == b
      invariant Reached(a, b, s1, s2, data[..|data| - left])
      decreases left, 5552 - blockLen
    {
      ghost var at: nat := |data| - left;
      Reduce(a, b, s1, s2, data, at, at + blockLen);
      s1, s2 := AddBlock(s1, s2, data, |data| - left, blockLen);
      s1, s2 := s1 % MOD, s2 % MOD;
      left := left - blockLen;
      blockLen := 5552;
    }
    assert data[..|data|] == data;
    SumsBound(a, b, data);
    r := s2 * 65536 + s1;
  }

  /** After the bytes of `done` the words hold their sums, perhaps reduced once more. */
  ghost predicate Reached(a: nat, b: nat, s1: nat, s2: nat, done: seq<Byte>) {
    var (x, y) := Sums(a, b, done);
    (s1 == x && s2 == y) || (done == [] && s1 == x % MOD && s2 == y % MOD)
  }

  lemma NoSums(a: nat, b: nat)
    ensures Sums(a, b, []) == (a, b)
  {
  }

  lemma Reduce(a: nat, b: nat, s1: nat, s2: nat, data: seq<Byte>, at: nat, to: nat)
    requires at <= to <= |data| && Reached(a, b, s1, s2, data[..at])
    ensures var (x, y) := Plain(s1, s2, data[at..to]); Reached(a, b, x % MOD, y % MOD, data[..to])
  {
    hide Sums, Plain, Reached;
    assert data[..to] == data[..at] + data[at..to];
    ReduceBlock(a, b, s1, s2, data[..at], data[at..to]);
  }

  lemma ReduceBlock(a: nat, b: nat, s1: nat, s2: nat, done: seq<Byte>, block: seq<Byte>)
    requires Reached(a, b, s1, s2, done)
    ensures var (x, y) := Plain(s1, s2, block); Reached(a, b, x % MOD, y % MOD, done + block)
  {
    hide Add;
    if block == [] {
      assert done + block == done;
      SumsSmall(a, b, done);
    } else {
      var (x, y) := Sums(a, b, done);
      SumsConcat(a, b, done, block);
      PlainSums(s1, s2, block);
      ModTwice(x);
      ModTwice(y);
      SumsCongruent(s1, s2, x, y, block);
    }
  }

  lemma ModTwice(x: nat)
    ensures x % MOD % MOD == x % MOD
  {
  }

  lemma SumsSmall(a: nat, b: nat, done: seq<Byte>)
    ensures done != [] ==> Sums(a, b, done).0 < MOD && Sums(a, b, done).1 < MOD
  {
  }
}
