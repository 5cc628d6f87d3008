/**
 The compressor's dictionary: the ring of the last 32768 bytes with its first 257 bytes mirrored
 behind it, the hash chains, and the search for a match (`tdefl_find_match` and the reading half
 of `tdefl_compress_normal` in external/miniz.c).

 The chains may be stale or, for `next`, never initialised.  Nothing here assumes otherwise: a
 match is believed only because its bytes have been compared.
 */
module Window {
  import opened Bits
  import opened Deflate

  const DICT_SIZE := 32768
  const MAX_MATCH := 258
  const WORD := 0x1_0000_0000

  type Word16 = x: int | 0 <= x < 65536

  // ---------- the ring ----------

  /** The last `n` bytes of `hist` are in the ring at their position modulo its size, and mirrored. */
  ghost predicate Ring(dict: seq<Byte>, hist: seq<Byte>, n: nat) {
    && |dict| == DICT_SIZE + MAX_MATCH - 1 && n <= |hist| && n <= DICT_SIZE
    && forall k :: |hist| - n <= k < |hist| ==> Holds(dict, k % DICT_SIZE, hist[k])
  }

  predicate Holds(dict: seq<Byte>, i: nat, c: Byte) {
    && |dict| == DICT_SIZE + MAX_MATCH - 1 && i < DICT_SIZE
    && dict[i] == c && (i < MAX_MATCH - 1 ==> dict[DICT_SIZE + i] == c)
  }

  function Put(dict: seq<Byte>, dst: nat, c: Byte): (r: seq<Byte>)
    requires dst < DICT_SIZE && |dict| == DICT_SIZE + MAX_MATCH - 1
    ensures |r| == |dict|
  {
    if dst < MAX_MATCH - 1 then dict[dst := c][DICT_SIZE + dst := c] else dict[dst := c]
  }

  lemma RingPut(dict: seq<Byte>, hist: seq<Byte>, n: nat, c: Byte)
    requires Ring(dict, hist, n)
    ensures Ring(Put(dict, |hist| % DICT_SIZE, c), hist + [c], if n < DICT_SIZE then n + 1 else n)
  {
    var d := Put(dict, |hist| % DICT_SIZE, c);
    forall k | |hist| - n <= k < |hist| && k + DICT_SIZE != |hist|
      ensures Holds(d, k % DICT_SIZE, hist[k])
    {
      Apart(k, |hist|);
    }
  }

  /** Positions less than a ring apart are different places in it. */
  lemma Apart(j: nat, k: nat)
    requires j < k < j + DICT_SIZE
    ensures j % DICT_SIZE != k % DICT_SIZE
  {
  }

  lemma RingShrink(dict: seq<Byte>, hist: seq<Byte>, n: nat, m: nat)
    requires Ring(dict, hist, n) && m <= n
    ensures Ring(dict, hist, m)
  {
  }

  /** Reading on from a position in the ring, without wrapping around. */
  lemma RingAt(dict: seq<Byte>, hist: seq<Byte>, n: nat, p: nat, k: nat)
    requires Ring(dict, hist, n) && k < MAX_MATCH && |hist| - n <= p + k < |hist|
    ensures p % DICT_SIZE + k < |dict| && dict[p % DICT_SIZE + k] == hist[p + k]
  {
    var q := p % DICT_SIZE + k;
    assert Holds(dict, (p + k) % DICT_SIZE, hist[p + k]);
    assert (p + k) % DICT_SIZE == if q < DICT_SIZE then q else q - DICT_SIZE;
  }

  // ---------- matches ----------

  /** The `len` bytes at `a` are the bytes `dist` before them. */
  predicate IsMatch(hist: seq<Byte>, a: nat, dist: nat, len: nat) {
    0 < dist <= a && a + len <= |hist| && forall k :: a <= k < a + len ==> hist[k] == hist[k - dist]
  }

  /** Copying a match back gives the bytes it was found at. */
  lemma {:induction false} MatchExpands(hist: seq<Byte>, a: nat, dist: nat, len: nat)
    requires IsMatch(hist, a, dist, len)
    ensures CopyMatch(hist[..a], len, dist) == hist[..a + len]
    decreases len
  {
    if len > 0 {
      assert hist[..a] + [hist[a - dist]] == hist[..a + 1];
      MatchExpands(hist, a + 1, dist, len - 1);
    }
  }

  /** The 16-bit distance names the same place in the ring as the 16-bit position in the chain. */
  lemma ProbePlace(a: nat, word: nat, chain: Word16, dist: nat)
    requires word == a % WORD && dist == (word - chain) % 65536 && dist <= a
    ensures chain % DICT_SIZE == (a - dist) % DICT_SIZE
  {
    var i, j := a / WORD, (word - chain) / 65536;
    assert a == WORD * i + word && word - chain == 65536 * j + dist;
    assert a - dist == chain + DICT_SIZE * (131072 * i + 2 * j);
    ModUnique(a - dist, chain, 131072 * i + 2 * j);
  }

  lemma ModUnique(x: int, y: int, q: int)
    requires x == y + DICT_SIZE * q
    ensures x % DICT_SIZE == y % DICT_SIZE
  {
  }

  datatype Probe = Stop | Found(pos: nat, dist: nat) | Next(pos: nat)

  class Dictionary {
    const dict: array<Byte>       // m_dict
    const next: array<Word16>     // m_next
    const hash: array<Word16>     // m_hash
    var lookaheadPos: nat         // m_lookahead_pos
    var lookaheadSize: nat        // m_lookahead_size
    var dictSize: nat             // m_dict_size
    ghost var hist: seq<Byte>     // everything read so far

    ghost predicate Arrays() {
      && dict.Length == DICT_SIZE + MAX_MATCH - 1 && next.Length == DICT_SIZE && hash.Length == DICT_SIZE
      && dict as object != next && dict as object != hash && next != hash
    }

    ghost predicate Valid()
      reads this, dict
    {
      && Arrays() && lookaheadSize <= MAX_MATCH && dictSize + lookaheadSize <= DICT_SIZE &&
         dictSize + lookaheadSize <= |hist|
      && Ring(dict[..], hist, dictSize + lookaheadSize)
      && lookaheadPos == (|hist| - lookaheadSize) % WORD
    }

    /** Where the lookahead starts. */
    ghost function Start(): nat
      reads this, dict
      requires Valid()
    {
      |hist| - lookaheadSize
    }

    /** The arrays start with arbitrary contents, as with `TDEFL_NONDETERMINISTIC_PARSING_FLAG`. */
    constructor ()
      ensures Valid() && hist == [] && fresh(dict) && fresh(next) && fresh(hash) && dictSize == 0
    {
      dict := new Byte[DICT_SIZE + MAX_MATCH - 1];
      next := new Word16[DICT_SIZE];
      hash := new Word16[DICT_SIZE];
      lookaheadPos, lookaheadSize, dictSize, hist := 0, 0, 0, [];
    }

    // ---------- searching ----------

    /** `TDEFL_PROBE` */
    method ProbeOnce(probePos: nat, maxDist: nat, matchLen: nat, c0: Byte, c1: Byte) returns (r: Probe)
      requires Valid() && probePos < DICT_SIZE && maxDist <= dictSize && 2 <= matchLen < MAX_MATCH
      ensures r.Found? ==> r.pos < DICT_SIZE && r.dist <= maxDist && r.pos == (Start() - r.dist) % DICT_SIZE
      ensures r.Next? ==> r.pos < DICT_SIZE
    {
      var nextProbePos := next[probePos];
      var dist := (lookaheadPos - nextProbePos) % 65536;
      if nextProbePos == 0 || dist > maxDist {
        return Stop;
      }
      ProbePlace(Start(), lookaheadPos, nextProbePos, dist);
      var pos := nextProbePos % DICT_SIZE;
      if dict[pos + matchLen] == c0 && dict[pos + matchLen - 1] == c1 {
        return Found(pos, dist);
      }
      return Next(pos);
    }

    /** Follows the chain until the ends of a match agree, three probes for each one counted. */
    method Search(probePos: nat, probesLeft: nat, maxDist: nat, matchLen: nat, c0: Byte, c1: Byte)
      returns (r: Probe, left: nat)
      requires Valid() && probePos < DICT_SIZE && maxDist <= dictSize && 2 <= matchLen < MAX_MATCH && probesLeft > 0
      ensures r.Found? ==> r.pos < DICT_SIZE && r.dist <= maxDist && r.pos == (Start() - r.dist) % DICT_SIZE
      ensures !r.Next? && left < probesLeft && (r.Found? ==> left > 0)
    {
      hide Ring;
      left := probesLeft;
      var pos: nat := probePos;
      while true
        invariant 0 < left <= probesLeft && pos < DICT_SIZE
        decreases left
      {
        left := left - 1;
        if left == 0 {
          return Stop, left;
        }
        var tries := 0;
        while tries < 3
          invariant 0 <= tries <= 3 && pos < DICT_SIZE
        {
          r := ProbeOnce(pos, maxDist, matchLen, c0, c1);
          if !r.Next? {
            return r, left;
          }
          pos := r.pos;
          tries := tries + 1;
        }
      }
    }

    /** How many of the next bytes are the bytes at `probePos`. */
    method MatchLength(probePos: nat, dist: nat, maxLen: nat) returns (len: nat)
      requires Valid() && 0 < dist <= dictSize && maxLen <= lookaheadSize && probePos == (Start() - dist) % DICT_SIZE
      ensures len <= maxLen && IsMatch(hist, Start(), dist, len)
    {
      hide Ring;
      var pos := lookaheadPos % DICT_SIZE;
      ghost var a := Start();
      StartPlace(a, lookaheadPos);
      len := 0;
      while len < maxLen
        invariant len <= maxLen && IsMatch(hist, a, dist, len)
      {
        RingAt(dict[..], hist, dictSize + lookaheadSize, a, len);
        RingAt(dict[..], hist, dictSize + lookaheadSize, a - dist, len);
        if dict[pos + len] != dict[probePos + len] {
          break;
        }
        len := len + 1;
      }
    }

    /** `tdefl_find_match`: a longer match than `len0`, or what was passed in. */
    method FindMatch(maxDist: nat, maxLen: nat, maxProbes: nat, dist0: nat, len0: nat) returns (dist: nat, len: nat)
      requires Valid() && maxDist <= dictSize && maxLen <= lookaheadSize && 2 <= len0 < MAX_MATCH && maxProbes > 0
      ensures (dist == dist0 && len == len0) || (len0 < len <= maxLen && 0 < dist <= maxDist &&
              IsMatch(hist, Start(), dist, len))
    {
      hide Ring, IsMatch;
      var pos := lookaheadPos % DICT_SIZE;
      var probePos: nat, left: nat := pos, maxProbes;
      dist, len := dist0, len0;
      var c0, c1 := dict[pos + len], dict[pos + len - 1];
      if maxLen <= len {
        return;
      }
      while true
        invariant left > 0 && probePos < DICT_SIZE && len0 <= len < maxLen
        invariant (dist == dist0 && len == len0) ||
                  (len0 < len <= maxLen && 0 < dist <= maxDist && IsMatch(hist, Start(), dist, len))
        decreases left
      {
        var r;
        r, left := Search(probePos, left, maxDist, len, c0, c1);
        if r.Stop? {
          return;
        }
        probePos := r.pos;
        if r.dist == 0 {
          break;
        }
        var probeLen := MatchLength(probePos, r.dist, maxLen);
        if probeLen > len {
          dist, len := r.dist, probeLen;
          if len == maxLen {
            return;
          }
          c0, c1 := dict[pos + len], dict[pos + len - 1];
        }
      }
    }

    /** Runs of one byte: the match at distance 1. */
    method RunLength() returns (len: nat)
      requires Valid() && dictSize > 0
      ensures len <= lookaheadSize && IsMatch(hist, Start(), 1, len)
    {
      hide Ring;
      var pos := lookaheadPos % DICT_SIZE;
      ghost var a := Start();
      StartPlace(a, lookaheadPos);
      ByteBefore(a, lookaheadPos);
      RingAt(dict[..], hist, dictSize + lookaheadSize, a - 1, 0);
      var c := dict[(pos - 1) % DICT_SIZE];
      len := 0;
      while len < lookaheadSize
        invariant len <= lookaheadSize && IsMatch(hist, a, 1, len)
        invariant c == hist[a - 1 + len]
      {
        RingAt(dict[..], hist, dictSize + lookaheadSize, a, len);
        if dict[pos + len] != c {
          break;
        }
        len := len + 1;
      }
    }

    // ---------- reading ----------

    /** `d->m_next[ins_pos & mask] = d->m_hash[h]; d->m_hash[h] = ins_pos` */
    method Insert(insPos: int, h: nat)
      requires Arrays()
      modifies next, hash
    {
      LowShr(h, 15);
      Pow2Values();
      var slot := Low(h, 15);
      next[insPos % DICT_SIZE] := hash[slot];
      hash[slot] := insPos % 65536;
    }

    /** The next byte of the input enters the ring and the history. */
    method TakeByte(dst: nat, c: Byte, ghost n: nat)
      requires Arrays() && Ring(dict[..], hist, n) && dst == |hist| % DICT_SIZE
      modifies this`hist, dict
      ensures hist == old(hist) + [c] && Ring(dict[..], hist, Reach(n + 1))
    {
      RingPut(dict[..], hist, n, c);
      hide Ring;
      PutByte(dst, c);
      hist := hist + [c];
    }

    method PutByte(dst: nat, c: Byte)
      requires Arrays() && dst < DICT_SIZE
      modifies dict
      ensures dict[..] == Put(old(dict[..]), dst, c)
    {
      dict[dst] := c;
      if dst < MAX_MATCH - 1 {
        dict[DICT_SIZE + dst] := c;
      }
    }

    /** With two bytes known, the hash of the next three is rolled forward. */
    method FillRolling(src: seq<Byte>, at: nat) returns (at': nat)
      requires Valid() && at <= |src| && dictSize + lookaheadSize >= 2
      modifies this`lookaheadSize, this`hist, dict, next, hash
      ensures at <= at' <= |src| && hist == old(hist) + src[at..at']
      ensures lookaheadSize == old(lookaheadSize) + (at' - at) <= MAX_MATCH
      ensures (at' == |src| || lookaheadSize == MAX_MATCH)
      ensures Ring(dict[..], hist, Reach(dictSize + lookaheadSize))
    {
      hide Ring, Xor, Shl, Low;
      PlaceAfter(Start(), lookaheadPos, lookaheadSize);
      var dst, ins := (lookaheadPos + lookaheadSize) % DICT_SIZE, (lookaheadPos + lookaheadSize - 2) % WORD;
      var h := Xor(Shl(dict[ins % DICT_SIZE], 5), dict[(ins + 1) % DICT_SIZE]);
      ghost var size := dictSize + lookaheadSize;
      at' := at;
      var n := if |src| - at < MAX_MATCH - lookaheadSize then |src| - at else MAX_MATCH - lookaheadSize;
      var end := at + n;
      lookaheadSize := lookaheadSize + n;
      while at' < end
        invariant at <= at' <= end && dst == |hist| % DICT_SIZE && hist == old(hist) + src[at..at']
        invariant lookaheadSize == old(lookaheadSize) + n
        invariant Ring(dict[..], hist, Reach(size + (at' - at)))
      {
        var c := src[at'];
        TakeByte(dst, c, Reach(size + (at' - at)));
        h := Low(Xor(Shl(h, 5), c), 15);
        Insert(ins, h);
        NextPlace(|hist| - 1, dst);
        dst, ins := (dst + 1) % DICT_SIZE, (ins + 1) % WORD;
        assert src[at..at' + 1] == src[at..at'] + [c];
        at' := at' + 1;
      }
    }

    /** The first bytes, when there are not yet two to hash. */
    method FillStart(src: seq<Byte>, at: nat) returns (at': nat)
      requires Valid() && at <= |src|
      modifies this`lookaheadSize, this`hist, dict, next, hash
      ensures at <= at' <= |src| && hist == old(hist) + src[at..at']
      ensures lookaheadSize == old(lookaheadSize) + (at' - at) <= MAX_MATCH
      ensures (at' == |src| || lookaheadSize == MAX_MATCH)
      ensures Ring(dict[..], hist, Reach(dictSize + lookaheadSize))
    {
      hide Ring, Xor, Shl, Low;
      ghost var start := Start();
      at' := at;
      while at' < |src| && lookaheadSize < MAX_MATCH
        invariant at <= at' <= |src| && hist == old(hist) + src[at..at']
        invariant lookaheadSize == old(lookaheadSize) + (at' - at) <= MAX_MATCH && |hist| == start + lookaheadSize
        invariant Ring(dict[..], hist, Reach(dictSize + lookaheadSize))
      {
        var c := src[at'];
        PlaceAfter(start, lookaheadPos, lookaheadSize);
        TakeByte((lookaheadPos + lookaheadSize) % DICT_SIZE, c, Reach(dictSize + lookaheadSize));
        assert src[at..at' + 1] == src[at..at'] + [c];
        at' := at' + 1;
        lookaheadSize := lookaheadSize + 1;
        if lookaheadSize + dictSize >= 3 {
          var ins := (lookaheadPos + (lookaheadSize - 1) - 2) % WORD;
          var h := Xor(Xor(Shl(dict[ins % DICT_SIZE], 10), Shl(dict[(ins + 1) % DICT_SIZE], 5)), c);
          Insert(ins, h);
        }
      }
    }

    /** Keeps the lookahead as full as the input allows. */
    method Fill(src: seq<Byte>, at: nat) returns (at': nat)
      requires Valid() && at <= |src|
      modifies this`lookaheadSize, this`dictSize, this`hist, dict, next, hash
      ensures Valid() && at <= at' <= |src| && hist == old(hist) + src[at..at'] && Start() == old(Start())
      ensures at' == |src| || lookaheadSize == MAX_MATCH
      ensures old(lookaheadSize) <= lookaheadSize
    {
      hide Ring;
      if lookaheadSize + dictSize >= 2 {
        at' := FillRolling(src, at);
      } else {
        at' := FillStart(src, at);
      }
      ghost var n := Reach(dictSize + lookaheadSize);
      dictSize := if DICT_SIZE - lookaheadSize < dictSize then DICT_SIZE - lookaheadSize else dictSize;
      RingShrink(dict[..], hist, n, dictSize + lookaheadSize);
    }

    /** The lookahead moves on over bytes that have been coded. */
    method Advance(n: nat)
      requires Valid() && n <= lookaheadSize
      modifies this`lookaheadPos, this`lookaheadSize, this`dictSize
      ensures Valid() && Start() == old(Start()) + n && lookaheadSize == old(lookaheadSize) - n
    {
      hide Ring;
      lookaheadPos := (lookaheadPos + n) % WORD;
      lookaheadSize := lookaheadSize - n;
      dictSize := if dictSize + n < DICT_SIZE then dictSize + n else DICT_SIZE;
    }

    /** A full flush: nothing before this point is matched again. */
    method Forget()
      requires Valid()
      modifies this`dictSize, next, hash
      ensures Valid() && Start() == old(Start())
    {
      RingShrink(dict[..], hist, dictSize + lookaheadSize, lookaheadSize);
      hide Ring;
      forall i | 0 <= i < hash.Length {
        hash[i] := 0;
      }
      forall i | 0 <= i < next.Length {
        next[i] := 0;
      }
      dictSize := 0;
    }
  }

  lemma ByteBefore(a: nat, word: nat)
    requires word == a % WORD && a > 0
    ensures (word % DICT_SIZE - 1) % DICT_SIZE == (a - 1) % DICT_SIZE
  {
    StartPlace(a, word);
  }

  /** The ring is full after 32768 bytes. */
  function Reach(n: nat): nat {
    if n < DICT_SIZE then n else DICT_SIZE
  }

  lemma NextPlace(k: nat, dst: nat)
    requires dst == k % DICT_SIZE
    ensures (dst + 1) % DICT_SIZE == (k + 1) % DICT_SIZE
  {
  }

  lemma PlaceAfter(a: nat, word: nat, n: nat)
    requires word == a % WORD
    ensures (word + n) % DICT_SIZE == (a + n) % DICT_SIZE
  {
    var i := a / WORD;
    assert a + n == word + n + DICT_SIZE * (131072 * i);
    ModUnique(a + n, word + n, 131072 * i);
  }

  lemma StartPlace(a: nat, word: nat)
    requires word == a % WORD
    ensures word % DICT_SIZE == a % DICT_SIZE
  {
    var i := a / WORD;
    assert a == word + DICT_SIZE * (131072 * i);
    ModUnique(a, word, 131072 * i);
  }
}
