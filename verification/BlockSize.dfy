/**
 How large a block gets (external/miniz.c): what the code bits of its tokens add up to, and why a
 dynamic block needs hardly more room than a static one.
 */
module BlockSize {
  import opened Bits
  import opened BlockHeader
  import opened Canonical
  import opened Deflate
  import opened HuffmanBound
  import opened HuffmanTable
  import opened LengthCoding
  import opened SymbolList
  import opened TokenCode
  import HuffmanTree
  import TokenBuffer

  // ---------- what symbols cost ----------

  predicate Below(syms: seq<nat>, n: nat) {
    forall i :: 0 <= i < |syms| ==> syms[i] < n
  }

  function SymCost(lens: Lens, syms: seq<nat>): nat
    requires Below(syms, |lens|)
  {
    if syms == [] then 0 else SymCost(lens, syms[..|syms| - 1]) + lens[syms[|syms| - 1]]
  }

  lemma {:induction false} NothingCosts(count: seq<nat>, lens: Lens)
    requires |count| == |lens| && forall s :: 0 <= s < |count| ==> count[s] == 0
    ensures Cost(count, lens) == 0
  {
    if count != [] {
      NothingCosts(count[1..], lens[1..]);
    }
  }

  lemma CostUpdate(count: seq<nat>, lens: Lens, s: nat, v: nat)
    requires |count| == |lens| && s < |count|
    ensures Cost(count[s := count[s] + v], lens) == Cost(count, lens) + v * lens[s]
  {
    hide Cost;
    CostWithout(count, lens, s);
    CostWithout(count[s := count[s] + v], lens, s);
    WithoutSame(count, s, count[s] + v);
    Distributes(count[s], v, lens[s]);
  }

  lemma Distributes(a: nat, b: nat, c: nat)
    ensures (a + b) * c == a * c + b * c
  {
  }

  lemma TallyPrefix(count: seq<nat>, syms: seq<nat>) returns (before: seq<nat>)
    requires syms != [] && Below(syms, |count|) && TokenBuffer.Tally(count, syms)
    ensures var x := syms[|syms| - 1];
            |before| == |count| && count == before[x := before[x] + 1] && TokenBuffer.Tally(before, syms[..|syms| - 1])
  {
    hide HuffmanTree.Sum;
    var init, x := syms[..|syms| - 1], syms[|syms| - 1];
    assert syms == init + [x];
    assert multiset(syms) == multiset(init) + multiset{x};
    before := count[x := count[x] - 1];
    SumUpdate(before, x, 1);
    assert before[x := before[x] + 1] == count;
  }

  lemma {:induction false} TallyCost(count: seq<nat>, syms: seq<nat>, lens: Lens)
    requires |count| == |lens| && Below(syms, |lens|) && TokenBuffer.Tally(count, syms)
    ensures Cost(count, lens) == SymCost(lens, syms)
    decreases |syms|
  {
    hide Cost;
    if syms == [] {
      NothingCosts(count, lens);
    } else {
      var before := TallyPrefix(count, syms);
      hide TokenBuffer.Tally;
      TallyCost(before, syms[..|syms| - 1], lens);
      CostUpdate(before, lens, syms[|syms| - 1], 1);
    }
  }

  // ---------- what tokens take ----------

  /** The bits behind the codes; they are the same for every code. */
  function ExtraBits(ts: TokenBuffer.Tokens): nat {
    if ts == [] then 0 else ExtraBits(ts[..|ts| - 1]) + TokenExtra(ts[|ts| - 1])
  }

  function TokenExtra(t: Token): nat {
    match t
    case Literal(_) => 0
    case Match(len, dist) => if len >= 3 && dist >= 1 then LenExtra(len - 3) + DistExtraOf(dist - 1) else 0
  }

  lemma TokenSize(l: Lens, d: Lens, t: Token)
    requires Encodable(l, d, t) && ValidToken(t)
    ensures |TokenBits(l, d, t)| ==
            l[TokenBuffer.LitSym(t)] + (if t.Match? then d[DistSym(t.dist - 1)] else 0) + TokenExtra(t)
  {
    hide LenSym, DistSym, LenExtra, DistExtraOf, ToBits, Low;
  }

  lemma {:induction false} TokensSize(l: Lens, d: Lens, ts: TokenBuffer.Tokens)
    requires TokenBuffer.AllValid(ts) && EncodableAll(l, d, ts)
    ensures Below(TokenBuffer.LitSyms(ts), |l|) && Below(TokenBuffer.DistSyms(ts), |d|)
    ensures |TokensBits(l, d, ts)| == SymCost(l, TokenBuffer.LitSyms(ts)) + SymCost(d,
            TokenBuffer.DistSyms(ts)) + ExtraBits(ts)
  {
    hide LenSym, DistSym, TokenBits, TokenExtra;
    if ts != [] {
      var init, t := ts[..|ts| - 1], ts[|ts| - 1];
      TokensSize(l, d, init);
      TokenSize(l, d, t);
      var ls, ds := TokenBuffer.LitSyms(init), TokenBuffer.DistSyms(init);
      assert (ls + [TokenBuffer.LitSym(t)])[..|ls|] == ls;
      if t.Match? {
        assert (ds + [DistSym(t.dist - 1)])[..|ds|] == ds;
      } else {
        assert ds + [] == ds;
      }
    }
  }

  /** Bits of the whole body, by the counts; the end-of-block symbol is counted once. */
  lemma BodySize(l: Lens, d: Lens, lit: seq<nat>, dist: seq<nat>, ts: TokenBuffer.Tokens)
    requires TokenBuffer.AllValid(ts) && EncodableAll(l, d, ts) && |l| == |lit| == 288 && |d| == |dist| == 32
    requires lit[256] == 0
    requires TokenBuffer.Tally(lit, TokenBuffer.LitSyms(ts)) && TokenBuffer.Tally(dist, TokenBuffer.DistSyms(ts))
    ensures |TokensBits(l, d, ts)| + l[256] == Cost(lit[256 := 1], l) + Cost(dist, d) + ExtraBits(ts)
  {
    hide Cost, TokensBits, EncodableAll, TokenBuffer.LitSyms, TokenBuffer.DistSyms, TokenBuffer.Tally, SymCost;
    TokensSize(l, d, ts);
    TallyCost(lit, TokenBuffer.LitSyms(ts), l);
    TallyCost(dist, TokenBuffer.DistSyms(ts), d);
    CostUpdate(lit, l, 256, 1);
  }

  // ---------- dynamic and static ----------

  /** A static block with 640 / 540 bits more for a match and 576 / 540 for a literal still has a bound. */
  lemma {:induction false} FixedWeight(ts: TokenBuffer.Tokens)
    requires TokenBuffer.AllValid(ts)
    ensures EncodableAll(FixedLit(), FixedDist(), ts)
    ensures 13500 * |TokensBits(FixedLit(), FixedDist(), ts)| + 14400 * |ts| + 1600 * |TokenBuffer.DistSyms(ts)| <=
            17380 * FlagWeight(ts, |ts|)
  {
    hide FixedLit, FixedDist, TokenBits, LenSym, DistSym, Encodable;
    if ts != [] {
      var init, t := ts[..|ts| - 1], ts[|ts| - 1];
      FixedWeight(init);
      FixedEncodes(t);
      WeightPrefix(ts, |ts| - 1);
    }
  }

  lemma {:induction false} WeightPrefix(ts: TokenBuffer.Tokens, n: nat)
    requires n < |ts|
    ensures FlagWeight(ts[..|ts| - 1], n) == FlagWeight(ts, n)
  {
    if n > 0 {
      WeightPrefix(ts, n - 1);
    }
  }

  lemma FixedServes(lit: seq<nat>, dist: seq<nat>)
    requires |lit| == 288 && |dist| == 32
    ensures Serves(FixedLit(), lit) && Fits(FixedLit(), 15) && Serves(FixedDist(), dist) && Fits(FixedDist(), 15)
  {
    FixedLitFits();
    FixedDistFits();
    FixedLitShape();
  }

  /** Nearly best tables make a body that is not much larger than that of a static block. */
  lemma DynamicSize(l: Lens, d: Lens, lit: seq<nat>, dist: seq<nat>, ts: TokenBuffer.Tokens)
    requires TokenBuffer.AllValid(ts) && EncodableAll(l, d, ts) && |lit| == 288 && |dist| == 32 && lit[256] == 0
    requires TokenBuffer.Tally(lit, TokenBuffer.LitSyms(ts)) && TokenBuffer.Tally(dist, TokenBuffer.DistSyms(ts))
    requires NearBest(lit[256 := 1], l) && NearBest(dist, d)
    ensures |l| == 288 && 13500 * (|TokensBits(l, d, ts)| + l[256]) <= 17380 * FlagWeight(ts, |ts|) + 108900
  {
    hide Cost, TokensBits, EncodableAll, TokenBuffer.LitSyms, TokenBuffer.DistSyms, FixedLit, FixedDist;
    hide HuffmanTree.Sum;
    hide Serves, Fits, FlagWeight;
    var count := lit[256 := 1];
    FixedServes(count, dist);
    FixedWeight(ts);
    FixedLitShape();
    BodySize(l, d, lit, dist, ts);
    BodySize(FixedLit(), FixedDist(), lit, dist, ts);
    SumUpdate(lit, 256, 1);
  }

  // ---------- the header of a dynamic block ----------

  lemma {:induction false} CodeLengthSize(c: Lens, i: nat, n: nat)
    requires i <= n <= 19 && |c| == 19
    ensures |CodeLengthBits(c, i, n)| == 3 * (n - i)
    decreases n - i
  {
    if i < n {
      CodeLengthSize(c, i + 1, n);
    }
  }

  lemma {:induction false} PackedSize(c: Lens, p: Packed)
    requires Sendable(c, p) && forall s :: 0 <= s < |c| ==> c[s] <= 7
    ensures |PackedBits(c, p)| <= 14 * |p|
    decreases |p|
  {
    hide CodeBits, ToBits;
    if p != [] {
      PackedSize(c, if p[0] < 16 then p[1..] else p[2..]);
    }
  }

  lemma HeaderSize(nlit: nat, ndist: nat, c: Lens, hclen: nat, p: Packed)
    requires 257 <= nlit && 1 <= ndist && 4 <= hclen <= 19 && |c| == 19 && Sendable(c, p) && |p| <= 320
    requires forall s :: 0 <= s < |c| ==> c[s] <= 7
    ensures |DynamicHeader(nlit, ndist, c, hclen, p)| <= 4551
  {
    hide ToBits, CodeLengthBits, PackedBits, Sendable;
    CodeLengthSize(c, 0, hclen);
    PackedSize(c, p);
  }
}
