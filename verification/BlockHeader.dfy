/**
 The headers of static and dynamic blocks: `tdefl_start_static_block` and
 `tdefl_start_dynamic_block` of external/miniz.c, and that a decoder reads them back.
 */
module BlockHeader {
  import opened Bits
  import opened BitWriter
  import opened Canonical
  import opened Deflate
  import opened HuffmanTable
  import opened LengthCoding
  import opened TokenCode
  import opened Wrappers
  import TokenBuffer

  // ---------- lengths of unused symbols at the end do not matter ----------

  /** No symbol from `n` on is used. */
  predicate Trimmed(lens: Lens, n: nat) {
    n <= |lens| && forall k :: n <= k < |lens| ==> lens[k] == 0
  }

  lemma {:induction false} TrimCount(lens: Lens, n: nat, l: nat)
    requires Trimmed(lens, n)
    ensures Count(lens[..n], l) == Count(lens, l) - if l == 0 then |lens| - n else 0
    decreases |lens|
  {
    if n < |lens| {
      var init := lens[..|lens| - 1];
      assert init[..n] == lens[..n];
      TrimCount(init, n, l);
    } else {
      assert lens[..n] == lens;
    }
  }

  lemma TrimFirst(lens: Lens, n: nat, l: nat)
    requires Trimmed(lens, n) && l > 0
    ensures First(lens[..n], l) == First(lens, l) && Canonical.End(lens[..n], l) == Canonical.End(lens, l)
  {
    forall k | 0 < k <= l
      ensures Count(lens[..n], k) == Count(lens, k)
    {
      TrimCount(lens, n, k);
    }
    FirstSame(lens[..n], lens, l);
  }

  lemma TrimCode(lens: Lens, n: nat, s: nat)
    requires Trimmed(lens, n) && Used(lens, s)
    ensures Used(lens[..n], s) && CodeBits(lens[..n], s) == CodeBits(lens, s)
  {
    TrimFirst(lens, n, lens[s]);
    assert lens[..n][..s] == lens[..s];
  }

  lemma TrimAcceptable(lens: Lens, n: nat)
    requires Trimmed(lens, n) && Acceptable(lens)
    ensures Acceptable(lens[..n])
  {
    TrimFirst(lens, n, 15);
    TrimCount(lens, n, 0);
  }

  lemma TrimToken(l: Lens, d: Lens, m: nat, n: nat, t: Token)
    requires Trimmed(l, m) && Trimmed(d, n) && Encodable(l, d, t)
    ensures Encodable(l[..m], d[..n], t) && TokenBits(l[..m], d[..n], t) == TokenBits(l, d, t)
  {
    match t {
      case Literal(b) => TrimCode(l, m, b);
      case Match(len, dist) =>
        TrimCode(l, m, LenSym(len - 3));
        TrimCode(d, n, DistSym(dist - 1));
    }
    hide CodeBits, LenSym, DistSym;
  }

  lemma {:induction false} TrimTokens(l: Lens, d: Lens, m: nat, n: nat, ts: seq<Token>)
    requires Trimmed(l, m) && Trimmed(d, n) && EncodableAll(l, d, ts)
    ensures EncodableAll(l[..m], d[..n], ts) && TokensBits(l[..m], d[..n], ts) == TokensBits(l, d, ts)
  {
    if ts != [] {
      TrimTokens(l, d, m, n, ts[..|ts| - 1]);
      TrimToken(l, d, m, n, ts[|ts| - 1]);
      hide Encodable, TokenBits, Trimmed;
    }
  }

  // ---------- the code-length code ----------

  /** What is sent for the code-length code, from position `i` of the order on. */
  function CodeLengthBits(c: Lens, i: nat, n: nat): Bitstring
    requires i <= n <= 19 && |c| == 19
    decreases n - i
  {
    if i == n then [] else ToBits(c[Order(i)], 3) + CodeLengthBits(c, i + 1, n)
  }

  function OrderIndex(k: nat): (i: nat)
    requires k < 19
    ensures i < 19 && Order(i) == k
  {
    match k
    case 16 => 0 case 17 => 1 case 18 => 2 case 0 => 3 case 8 => 4 case 7 => 5 case 9 => 6 case 6 => 7
    case 10 => 8 case 5 => 9 case 11 => 10 case 4 => 11 case 12 => 12 case 3 => 13 case 13 => 14 case 2 => 15
    case 14 => 16 case 1 => 17 case _ => 18
  }

  lemma OrderInjective(i: nat, j: nat)
    requires i < 19 && j < 19 && Order(i) == Order(j)
    ensures i == j
  {
    assert OrderIndex(Order(i)) == i && OrderIndex(Order(j)) == j;
  }

  /** The lengths from position `n` of the order on are zero, and need not be sent. */
  predicate SentBy(c: Lens, n: nat) {
    |c| == 19 && n <= 19 && forall j :: n <= j < 19 ==> c[Order(j)] == 0
  }

  /** Read so far: positions below `i` of the order agree with `c`, the others are still zero. */
  predicate ReadSoFar(lens: Lens, c: Lens, i: nat) {
    |lens| == |c| == 19 && forall j :: 0 <= j < 19 ==> lens[Order(j)] == if j < i then c[Order(j)] else 0
  }

  lemma {:induction false} CodeLengthsRead(c: Lens, i: nat, n: nat, lens: Lens, rest: Bitstring)
    requires i <= n && SentBy(c, n) && ReadSoFar(lens, c, i) && forall k :: 0 <= k < 19 ==> c[k] < 8
    ensures ReadCodeLengthLens(CodeLengthBits(c, i, n) + rest, i, n, lens) == Some((c, rest))
    decreases n - i
  {
    if i == n {
      forall k | 0 <= k < 19
        ensures lens[k] == c[k]
      {
        assert Order(OrderIndex(k)) == k;
      }
      assert lens == c;
      assert CodeLengthBits(c, i, n) + rest == rest;
    } else {
      hide Order, ToBits;
      var v := c[Order(i)];
      forall j | 0 <= j < 19 && j != i
        ensures Order(j) != Order(i)
      {
        if Order(j) == Order(i) {
          OrderInjective(i, j);
        }
      }
      ConcatAssoc(ToBits(v, 3), CodeLengthBits(c, i + 1, n), rest);
      Pow2Values();
      ReadBack(v, 3, CodeLengthBits(c, i + 1, n) + rest);
      CodeLengthsRead(c, i + 1, n, lens[Order(i) := v], rest);
    }
  }

  // ---------- dynamic blocks ----------

  /** Everything a dynamic block sends: header, tokens and end of block. */
  ghost function DynamicHeader(nlit: nat, ndist: nat, c: Lens, hclen: nat, p: Packed): Bitstring
    requires 257 <= nlit && 1 <= ndist && 4 <= hclen <= 19 && |c| == 19 && Sendable(c, p)
  {
    ToBits(nlit - 257, 5) + ToBits(ndist - 1, 5) + ToBits(hclen - 4, 4) + CodeLengthBits(c, 0, hclen) + PackedBits(c, p)
  }

  lemma FiveParts(a: Bitstring, b: Bitstring, c: Bitstring, d: Bitstring, e: Bitstring, rest: Bitstring)
    ensures a + b + c + d + e + rest == a + (b + (c + (d + (e + rest))))
  {
  }

  lemma LitCountRead(nlit: nat, rest: Bitstring, out: seq<Byte>)
    requires 257 <= nlit <= 288
    ensures Dynamic(ToBits(nlit - 257, 5) + rest, out) == DynamicDist(nlit, rest, out)
  {
    hide ToBits, FromBits, ReadBits, Pow2, DynamicDist;
    Pow2Values();
    ReadBack(nlit - 257, 5, rest);
  }

  lemma DistCountRead(nlit: nat, ndist: nat, rest: Bitstring, out: seq<Byte>)
    requires 1 <= ndist <= 32
    ensures DynamicDist(nlit, ToBits(ndist - 1, 5) + rest, out) == DynamicClen(nlit, ndist, rest, out)
  {
    hide ToBits, FromBits, ReadBits, Pow2, DynamicClen;
    Pow2Values();
    ReadBack(ndist - 1, 5, rest);
  }

  lemma ClenCountRead(nlit: nat, ndist: nat, hclen: nat, rest: Bitstring, out: seq<Byte>)
    requires 4 <= hclen <= 19
    ensures DynamicClen(nlit, ndist, ToBits(hclen - 4, 4) + rest, out) ==
            DynamicOrder(nlit, ndist, hclen, 0, Repeated(0, 19), rest, out)
  {
    hide ToBits, FromBits, ReadBits, Pow2, DynamicOrder;
    Pow2Values();
    ReadBack(hclen - 4, 4, rest);
  }

  /** The lengths can be sent with the code-length code `c`, packed as `p`. */
  ghost predicate Sends(c: Lens, hclen: nat, p: Packed, all: Lens) {
    && 4 <= hclen <= 19 && SentBy(c, hclen) && Acceptable(c) && (forall k :: 0 <= k < 19 ==> c[k] < 8)
    && Sendable(c, p) && Unpack(p, []) == Some(all)
  }

  /** Reading the header gives the two codes back and goes on with the body. */
  lemma DynamicRead(l: Lens, d: Lens, c: Lens, hclen: nat, p: Packed, rest: Bitstring, out: seq<Byte>)
    requires 257 <= |l| <= 286 && 1 <= |d| <= 30 && Acceptable(l) && Acceptable(d)
    requires Sends(c, hclen, p, l + d)
    ensures Dynamic(DynamicHeader(|l|, |d|, c, hclen, p) + rest, out) == DecodeSymbols(l, d, rest, out)
  {
    OrderRead(l, d, c, hclen, p, rest, out);
    hide Dynamic, DynamicDist, DynamicClen, DynamicOrder, ToBits, CodeLengthBits, PackedBits, Sendable, Unpack;
    hide Acceptable, DecodeSymbols;
    var h1, h2, h3, h4, h5 := ToBits(|l| - 257, 5), ToBits(|d| - 1, 5), ToBits(hclen - 4, 4),
        CodeLengthBits(c, 0, hclen), PackedBits(c, p);
    FiveParts(h1, h2, h3, h4, h5, rest);
    LitCountRead(|l|, h2 + (h3 + (h4 + (h5 + rest))), out);
    DistCountRead(|l|, |d|, h3 + (h4 + (h5 + rest)), out);
    ClenCountRead(|l|, |d|, hclen, h4 + (h5 + rest), out);
  }

  lemma OrderRead(l: Lens, d: Lens, c: Lens, hclen: nat, p: Packed, rest: Bitstring, out: seq<Byte>)
    requires Sends(c, hclen, p, l + d) && Acceptable(l) && Acceptable(d)
    ensures DynamicOrder(|l|, |d|, hclen, 0, Repeated(0, 19), CodeLengthBits(c, 0, hclen) + (PackedBits(c, p) + rest),
            out) == DecodeSymbols(l, d, rest, out)
  {
    hide ReadCodeLengthLens, Repeated, CodeLengthBits, PackedBits, DecodeSymbols, ReadLens, Sendable, Unpack;
    hide Fits, Acceptable, Order, ReadSoFar;
    NoneRead(c);
    CodeLengthsRead(c, 0, hclen, Repeated(0, 19), PackedBits(c, p) + rest);
    AcceptableFits(c);
    PackedDecodes(c, p, [], |l| + |d|, rest);
    assert (l + d)[..|l|] == l && (l + d)[|l|..] == d;
  }

  lemma NoneRead(c: Lens)
    requires |c| == 19
    ensures ReadSoFar(Repeated(0, 19), c, 0)
  {
    hide Order;
  }

  // ---------- static blocks ----------

  lemma FixedLitCount(l: nat)
    ensures Count(FixedLit(), l) == if l == 7 then 24 else if l == 8 then 152 else if l == 9 then 112 else 0
  {
    var a, b, c, d := Repeated(8, 144), Repeated(9, 112), Repeated(7, 24), Repeated(8, 8);
    CountConcat(a + b + c, d, l);
    CountConcat(a + b, c, l);
    CountConcat(a, b, l);
    CountRepeated(8, 144, l);
    CountRepeated(9, 112, l);
    CountRepeated(7, 24, l);
    CountRepeated(8, 8, l);
  }

  lemma FixedLitShape()
    ensures |FixedLit()| == 288
    ensures forall s :: 0 <= s < 288 ==>
            FixedLit()[s] == if s < 144 then 8 else if s < 256 then 9 else if s < 280 then 7 else 8
  {
  }

  lemma {:induction false} ZeroBelow(lens: Lens, l: nat)
    requires l > 0 && forall k :: 0 < k <= l ==> Count(lens, k) == 0
    ensures Canonical.End(lens, l) == 0
  {
    if l > 1 {
      ZeroBelow(lens, l - 1);
    }
  }

  lemma FixedLitFits()
    ensures Complete(FixedLit(), 9) && Fits(FixedLit(), 15) && Acceptable(FixedLit())
  {
    FixedLitShape();
    forall l
      ensures Count(FixedLit(), l) == if l == 7 then 24 else if l == 8 then 152 else if l == 9 then 112 else 0
    {
      FixedLitCount(l);
    }
    hide FixedLit, Count;
    ZeroBelow(FixedLit(), 6);
    assert Canonical.End(FixedLit(), 7) == 24 && Canonical.End(FixedLit(), 8) == 200 &&
        Canonical.End(FixedLit(), 9) == 512;
    Pow2Values();
    CompleteLonger(FixedLit(), 9, 15);
  }

  lemma FixedDistFits()
    ensures Complete(FixedDist(), 5) && Fits(FixedDist(), 15) && Acceptable(FixedDist())
  {
    forall l
      ensures Count(FixedDist(), l) == if l == 5 then 32 else 0
    {
      CountRepeated(5, 32, l);
    }
    assert |FixedDist()| == 32 && forall s :: 0 <= s < 32 ==> FixedDist()[s] == 5;
    hide FixedDist, Count;
    ZeroBelow(FixedDist(), 4);
    Pow2Values();
    CompleteLonger(FixedDist(), 5, 15);
  }

  lemma FixedEncodes(t: Token)
    requires ValidToken(t)
    ensures Encodable(FixedLit(), FixedDist(), t) && Used(FixedLit(), 256)
    ensures |TokenBits(FixedLit(), FixedDist(), t)| <= if t.Match? then 31 else 9
  {
    FixedLitShape();
    assert |FixedDist()| == 32 && forall s :: 0 <= s < 32 ==> FixedDist()[s] == 5;
    hide FixedLit, FixedDist, LenSym, DistSym, Code;
  }

  /** A static block never needs more than 31 bits for each 25 of the token buffer. */
  lemma {:induction false} FixedSize(ts: seq<Token>, n: nat)
    requires n <= |ts| && TokenBuffer.AllValid(ts)
    ensures EncodableAll(FixedLit(), FixedDist(), ts[..n])
    ensures 25 * |TokensBits(FixedLit(), FixedDist(), ts[..n])| <= 31 * FlagWeight(ts, n)
  {
    forall i | 0 <= i < n
      ensures Encodable(FixedLit(), FixedDist(), ts[i])
    {
      FixedEncodes(ts[i]);
    }
    if n > 0 {
      FixedSize(ts, n - 1);
      FixedEncodes(ts[n - 1]);
      assert ts[..n][..n - 1] == ts[..n - 1];
      hide FixedLit, FixedDist, TokenBits;
    }
  }

  /** Bits of the token buffer that the first `n` tokens and their flags take. */
  function FlagWeight(ts: seq<Token>, n: nat): nat
    requires n <= |ts|
  {
    if n == 0 then 0 else FlagWeight(ts, n - 1) + 8 * TokenBuffer.Size(ts[n - 1]) + 1
  }

  lemma {:induction false} FlagWeightBound(ts: seq<Token>, n: nat)
    requires n <= |ts|
    ensures 8 * TokenBuffer.NextPos(ts, n) == FlagWeight(ts, n) + 8 - n % 8
  {
    if n > 0 {
      FlagWeightBound(ts, n - 1);
    }
  }

  // ---------- whole blocks ----------

  /** The bits after a block's three header bits are a block of this type that stands for `ts`. */
  ghost predicate BlockOf(type_: nat, bits: Bitstring, ts: seq<Token>) {
    forall rest: Bitstring, out: seq<Byte> ::
      ExpandableAll(out, ts) ==> Block(type_, bits + rest, out) == Some((Expand(out, ts), rest))
  }

  lemma StaticBlock(ts: seq<Token>)
    requires EncodableAll(FixedLit(), FixedDist(), ts) && Used(FixedLit(), 256)
    ensures BlockOf(1, TokensBits(FixedLit(), FixedDist(), ts) + CodeBits(FixedLit(), 256), ts)
  {
    FixedLitFits();
    FixedDistFits();
    var l, d := FixedLit(), FixedDist();
    hide FixedLit, FixedDist, Fits, DecodeSymbols, CodeBits;
    forall rest: Bitstring, out: seq<Byte> | ExpandableAll(out, ts)
      ensures Block(1, TokensBits(l, d, ts) + CodeBits(l, 256) + rest, out) == Some((Expand(out, ts), rest))
    {
      BodyDecodes(l, d, ts, rest, out);
    }
  }

  /** What `tdefl_start_dynamic_block` has made of the two tables, and sent. */
  ghost predicate HeaderOf(head: Bitstring, lit: Lens, dist: Lens, nlit: nat, ndist: nat) {
    && Trimmed(lit, nlit) && Trimmed(dist, ndist) && Acceptable(lit) && Acceptable(dist)
    && forall rest: Bitstring, out: seq<Byte> ::
         Dynamic(head + rest, out) == DecodeSymbols(lit[..nlit], dist[..ndist], rest, out)
  }

  lemma DynamicBlock(head: Bitstring, lit: Lens, dist: Lens, nlit: nat, ndist: nat, ts: seq<Token>)
    requires HeaderOf(head, lit, dist, nlit, ndist) && EncodableAll(lit, dist, ts) && Used(lit, 256)
    ensures BlockOf(2, head + (TokensBits(lit, dist, ts) + CodeBits(lit, 256)), ts)
  {
    hide Dynamic, DecodeSymbols, CodeBits, TokensBits, EncodableAll, Acceptable, ExpandableAll, Expand, Used;
    var l, d := lit[..nlit], dist[..ndist];
    TrimTokens(lit, dist, nlit, ndist, ts);
    TrimCode(lit, nlit, 256);
    TrimAcceptable(lit, nlit);
    TrimAcceptable(dist, ndist);
    forall rest: Bitstring, out: seq<Byte> | ExpandableAll(out, ts)
      ensures Block(2, head + (TokensBits(lit, dist, ts) + CodeBits(lit, 256)) + rest, out) ==
              Some((Expand(out, ts), rest))
    {
      var body := TokensBits(l, d, ts) + CodeBits(l, 256);
      ConcatAssoc(head, body, rest);
      BodyDecodes(l, d, ts, rest, out);
    }
  }

  lemma BlockHead(last: bool, type_: nat, rest: Bitstring)
    requires type_ < 4
    ensures ReadBits(ToBits(if last then 1 else 0, 1) + (ToBits(type_, 2) + rest), 3) ==
            Some(((if last then 1 else 0) + 2 * type_, rest))
  {
    var f := if last then 1 else 0;
    var h := ToBits(f + 2 * type_, 3);
    Pow2Values();
    ToBitsShr(f + 2 * type_, 1, 2);
    assert h == ToBits(f, 1) + ToBits(type_, 2);
    ReadBack(f + 2 * type_, 3, rest);
    ConcatAssoc(ToBits(f, 1), ToBits(type_, 2), rest);
  }
}
