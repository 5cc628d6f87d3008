/**
 The decompressor's output: a buffer that keeps all of it, or a ring (external/miniz.c,
 `pOut_buf_cur`, `out_buf_size_mask` and the two ways `tinfl_decompress` copies a match).
 */
module OutputBuffer {
  import opened Bits
  import opened Deflate
  import opened Tinfl
  import opened Wrappers

  /** A byte of the buffer at a distance from the write position: `(pos - back) & out_buf_size_mask`. */
  function Place(reach: Reach, pos: int, back: int): int {
    match reach
    case Linear => pos - back
    case Ring(m) => if m == 0 then 0 else (pos - back) % m
  }

  /** The buffer holds the end of the history before the write position. */
  ghost predicate Keeps(buf: Bytes, reach: Reach, pos: nat, h: Bytes) {
    match reach
    case Linear => pos <= |buf| && h == buf[..pos]
    case Ring(m) =>
      && 0 < m <= |buf| && m <= |h| && pos <= m
      && forall k {:trigger h[k]} :: |h| - m <= k < |h| ==> buf[(pos - |h| + k) % m] == h[k]
  }

  lemma KeepsAt(buf: Bytes, reach: Reach, pos: nat, h: Bytes, dist: nat)
    requires Keeps(buf, reach, pos, h) && Effective(reach, |h|, dist).Some?
    ensures var back := Effective(reach, |h|, dist).value;
            0 <= Place(reach, pos, dist) < |buf| && Place(reach, pos, dist) == Place(reach, pos, back)
            && buf[Place(reach, pos, dist)] == h[|h| - back]
  {
    var back := Effective(reach, |h|, dist).value;
    match reach {
      case Linear =>
      case Ring(m) =>
        SamePlace(m, pos, dist, back);
        assert buf[(pos - |h| + (|h| - back)) % m] == h[|h| - back];
    }
  }

  lemma SamePlace(m: nat, pos: nat, dist: nat, back: nat)
    requires m > 0 && back == if dist % m == 0 then m else dist % m
    ensures (pos - dist) % m == (pos - back) % m
  {
    var q := dist / m;
    assert dist == m * q + dist % m;
    if dist % m == 0 {
      AddMultiple(m, pos - dist, q - 1);
      assert m * (q - 1) == m * q - m;
      assert pos - dist + m * (q - 1) == pos - back;
    } else {
      AddMultiple(m, pos - dist, q);
    }
  }

  lemma AddMultiple(m: nat, x: int, q: int)
    requires m > 0
    ensures (x + m * q) % m == x % m
  {
    var a, r := x / m, x % m;
    assert x + m * q == m * a + m * q + r;
    assert m * a + m * q == m * (a + q);
    DivModIs(m, x + m * q, a + q, r);
  }

  lemma RingDistinct(m: nat, x: int, y: int)
    requires m > 0 && x < y < x + m
    ensures x % m != y % m
  {
    var a, b := x / m, y / m;
    assert x == m * a + x % m && y == m * b + y % m;
    if x % m == y % m {
      assert y - x == m * b - m * a == m * (b - a);
      if b - a <= 0 {
        MulMonotone(m, b - a, 0);
      } else {
        MulMonotone(m, 1, b - a);
      }
    }
  }

  /** Writing a byte. */
  lemma KeepsPut(buf: Bytes, reach: Reach, pos: nat, h: Bytes, c: Byte)
    requires Keeps(buf, reach, pos, h) && pos < |buf| && (reach.Ring? ==> pos < reach.size)
    ensures Keeps(buf[pos := c], reach, pos + 1, h + [c])
  {
    match reach {
      case Linear =>
        assert buf[pos := c][..pos + 1] == buf[..pos] + [c];
      case Ring(m) =>
        var h', buf' := h + [c], buf[pos := c];
        forall k | |h'| - m <= k < |h'|
          ensures buf'[(pos + 1 - |h'| + k) % m] == h'[k]
        {
          var x := pos - |h| + k;
          assert pos + 1 - |h'| + k == x;
          DivModIs(m, pos, 0, pos);
          if k < |h| {
            RingDistinct(m, x, pos);
            assert buf[(pos - |h| + k) % m] == h[k];
          }
        }
    }
  }

  /** Starting over at the front of a full ring. */
  lemma KeepsWrap(buf: Bytes, reach: Reach, h: Bytes)
    requires reach.Ring? && Keeps(buf, reach, reach.size, h)
    ensures Keeps(buf, reach, 0, h)
  {
    var m := reach.size;
    forall k | |h| - m <= k < |h|
      ensures buf[(0 - |h| + k) % m] == h[k]
    {
      AddMultiple(m, 0 - |h| + k, 1);
      assert 0 - |h| + k + m * 1 == m - |h| + k;
    }
  }

  /** At first a ring's history is what it holds. */
  lemma KeepsStart(b: Bytes, m: nat)
    requires 0 < m <= |b|
    ensures Keeps(b, Ring(m), 0, b[..m])
  {
    var h := b[..m];
    forall k | 0 <= k < m
      ensures b[(0 - |h| + k) % m] == h[k]
    {
      DivModIs(m, 0 - m + k, -1, k);
    }
  }

  lemma PlaceNext(reach: Reach, pos: nat, back: nat, m: nat)
    requires (reach == Linear && back <= pos) || (reach == Ring(m) && m > 0 && Place(reach, pos, back) + 1 < m)
    ensures Place(reach, pos + 1, back) == Place(reach, pos, back) + 1
  {
    if reach == Ring(m) {
      var x := pos - back;
      var r := x % m;
      assert x == m * (x / m) + r;
      DivModIs(m, x + 1, x / m, r + 1);
    }
  }

  class Output {
    const reach: Reach
    var buf: array<Byte>        // pOut_buf_start
    var pos: nat                // pOut_buf_cur
    var end: nat                // pOut_buf_end
    ghost var hist: Bytes       // everything written, after what a ring held at first
    ghost var startPos: nat     // where this call began to write
    ghost var startHist: Bytes

    ghost predicate Valid()
      reads this, buf
    {
      && pos <= end <= buf.Length && (reach.Ring? ==> end == reach.size)
      && Keeps(buf[..], reach, pos, hist)
      && startPos <= pos && hist == startHist + buf[startPos..pos]
    }

    constructor (reach: Reach, buf: array<Byte>)
      requires reach.Ring? ==> 0 < reach.size <= buf.Length
      ensures Valid() && this.reach == reach && this.buf == buf && pos == 0
      ensures hist == if reach.Ring? then buf[..reach.size] else []
    {
      this.reach, this.buf, pos := reach, buf, 0;
      end := if reach.Ring? then reach.size else 0;
      hist := if reach.Ring? then buf[..reach.size] else [];
      startPos, startHist := 0, if reach.Ring? then buf[..reach.size] else [];
      new;
      if reach.Ring? {
        KeepsStart(buf[..], reach.size);
      }
      hide Keeps;
    }

    lemma Room()
      requires Valid()
      ensures pos <= end
    {
    }

    /** Reading back at a distance. */
    lemma At(dist: nat, back: nat)
      requires Valid() && Effective(reach, |hist|, dist) == Some(back)
      ensures 0 <= Place(reach, pos, dist) < buf.Length && Place(reach, pos, dist) == Place(reach, pos, back)
      ensures reach.Linear? ==> back <= pos
    {
      KeepsAt(buf[..], reach, pos, hist, dist);
      StepBound(reach, |hist|, dist, back, pos, buf[..], hist);
    }

    /** The start of a call, with a buffer that goes on where the last one stopped. */
    method Begin(buf: array<Byte>, next: nat, size: nat)
      requires next + size <= buf.Length && (reach.Ring? ==> next + size == reach.size)
      requires Keeps(buf[..], reach, next, hist)
      modifies this`buf, this`pos, this`end, this`startPos, this`startHist
      ensures Valid() && this.buf == buf && pos == next && end == next + size && startPos == next && startHist == hist
    {
      this.buf, pos, end := buf, next, next + size;
      startPos, startHist := next, hist;
      assert hist + buf[next..next] == hist;
    }

    /** `*pOut_buf_cur++ = c` */
    method Put(c: Byte)
      requires Valid() && pos < end
      modifies this`pos, this`hist, buf
      ensures Valid() && pos == old(pos) + 1 && hist == old(hist) + [c]
    {
      KeepsPut(buf[..], reach, pos, hist, c);
      hide Keeps;
      ghost var was := buf[..];
      buf[pos] := c;
      assert buf[..] == was[pos := c];
      assert buf[startPos..pos + 1] == was[startPos..pos] + [c];
      pos, hist := pos + 1, hist + [c];
    }

    /** Copies one byte from a distance. */
    method CopyOne(src: nat, ghost dist: nat, ghost back: nat)
      requires Valid() && pos < end && Effective(reach, |hist|, dist) == Some(back)
      requires src == Place(reach, pos, dist) || src == Place(reach, pos, back)
      modifies this`pos, this`hist, buf
      ensures Valid() && pos == old(pos) + 1 && hist == old(hist) + [old(hist)[|old(hist)| - back]]
      ensures Effective(reach, |hist|, dist) == Some(back)
    {
      KeepsAt(buf[..], reach, pos, hist, dist);
      hide Keeps;
      Put(buf[src]);
    }

    /** The byte-wise copy; it stops where the room ends. */
    method CopySlow(counter: nat, from: nat, dist: nat, ghost back: nat) returns (left: nat, from': nat)
      requires Valid() && Effective(reach, |hist|, dist) == Some(back) && Place(reach, from, 0) == Place(reach, pos, 0)
      modifies this`pos, this`hist, buf
      ensures Valid() && old(pos) <= pos && (left > 0 ==> pos == end) && left <= counter
      ensures (counter > 0 && old(pos) < old(end) ==> left < counter)
      ensures pos - old(pos) == counter - left
      ensures CopyMatch(hist, left, back) == CopyMatch(old(hist), counter, back)
      ensures Effective(reach, |hist|, dist) == Some(back) && Place(reach, from', 0) == Place(reach, pos, 0)
    {
      hide Keeps, Effective, Output.Valid, Place;
      Room();
      left, from' := counter, from;
      while left > 0 && pos < end
        invariant Valid() && Effective(reach, |hist|, dist) == Some(back)
        invariant Place(reach, from', 0) == Place(reach, pos, 0)
        invariant old(pos) <= pos <= end && left <= counter && pos - old(pos) == counter - left && end == old(end)
        invariant CopyMatch(hist, left, back) == CopyMatch(old(hist), counter, back)
        decreases left
      {
        PlaceSame(reach, from', pos, dist);
        At(dist, back);
        CopyOne(Place(reach, from', dist), dist, back);
        PlaceStep(reach, from', pos - 1);
        Room();
        from', left := from' + 1, left - 1;
      }
    }

    /** The copy without wrapping, three bytes at a time. */
    method CopyFast(counter: nat, dist: nat, ghost back: nat)
      requires Valid() && Effective(reach, |hist|, dist) == Some(back)
      requires pos + counter <= end && Place(reach, pos, dist) + counter <= end
      modifies this`pos, this`hist, buf
      ensures Valid() && pos == old(pos) + counter && hist == CopyMatch(old(hist), counter, back)
    {
      hide Keeps, CopyMatch, Effective, Place, Output.Valid;
      At(dist, back);
      var src: nat, left: nat := Place(reach, pos, dist), counter;
      while left > 2
        invariant left <= counter && Valid() && Effective(reach, |hist|, dist) == Some(back)
        invariant pos + left == old(pos) + counter <= end
        invariant (left > 0 ==> src == Place(reach, pos, back)) && 0 <= src && src + left <= end
        invariant CopyMatch(hist, left, back) == CopyMatch(old(hist), counter, back)
        decreases left
      {
        CopyStep(src, left, dist, back);
        CopyStep(src + 1, left - 1, dist, back);
        CopyStep(src + 2, left - 2, dist, back);
        src, left := src + 3, left - 3;
      }
      if left > 0 {
        CopyStep(src, left, dist, back);
        if left > 1 {
          CopyStep(src + 1, left - 1, dist, back);
        }
      }
      CopyNone(hist, back);
    }

    /** One byte of the unrolled copy. */
    method CopyStep(src: nat, left: nat, ghost dist: nat, ghost back: nat)
      requires Valid() && Effective(reach, |hist|, dist) == Some(back) && left > 0
      requires pos + left <= end && src == Place(reach, pos, back) && src + left <= end
      modifies this`pos, this`hist, buf
      ensures Valid() && pos == old(pos) + 1 && Effective(reach, |hist|, dist) == Some(back)
      ensures CopyMatch(hist, left - 1, back) == CopyMatch(old(hist), left, back)
      ensures left > 1 ==> src + 1 == Place(reach, pos, back)
    {
      hide Keeps;
      StepBound(reach, |hist|, dist, back, pos, buf[..], hist);
      if left > 1 {
        PlaceNext(reach, pos, back, if reach.Ring? then reach.size else 0);
      }
      CopyOne(src, dist, back);
    }
  }

  lemma CopyNone(h: Bytes, back: nat)
    requires 0 < back <= |h|
    ensures CopyMatch(h, 0, back) == h
  {
  }

  lemma StepBound(reach: Reach, n: nat, dist: nat, back: nat, pos: nat, buf: Bytes, h: Bytes)
    requires Keeps(buf, reach, pos, h) && n == |h| && Effective(reach, n, dist) == Some(back)
    ensures reach.Linear? ==> back <= pos
  {
  }

  lemma PlaceSame(reach: Reach, from: int, pos: int, dist: int)
    requires Place(reach, from, 0) == Place(reach, pos, 0)
    ensures Place(reach, from, dist) == Place(reach, pos, dist)
  {
    if reach.Ring? && reach.size > 0 {
      var m := reach.size;
      var a, b := from / m, pos / m;
      assert from == m * a + from % m && pos == m * b + pos % m;
      assert m * (a - b) == m * a - m * b;
      AddMultiple(m, pos - dist, a - b);
      assert from - dist == pos - dist + m * (a - b);
    }
  }

  lemma PlaceStep(reach: Reach, from: int, pos: int)
    requires Place(reach, from, 0) == Place(reach, pos, 0)
    ensures Place(reach, from + 1, 0) == Place(reach, pos + 1, 0)
  {
    PlaceSame(reach, from, pos, -1);
  }
}
