/**
 In-place minimum-redundancy code lengths (Moffat and Katajainen), as in
 `tdefl_calculate_minimum_redundancy` of external/miniz.c.

 The three passes share one array of keys.  Pass one builds a Huffman tree from the two queues
 of unmerged leaves and unmerged internal nodes, leaving the parent of each internal node in its
 place.  Pass two replaces parents by depths.  Pass three turns the depths of the internal nodes
 into the depths of the leaves, overwriting the array from its end.
 */
module MinimumRedundancy {
  import opened Bits
  import opened Canonical
  import opened HuffmanTree

  // ---------- pass one ----------

  /** What the key array holds while nodes are being made: parents, then weights, then unread leaves. */
  ghost predicate Layout(a: seq<nat>, freq: seq<nat>, parent: seq<nat>, weight: seq<nat>, leaf: nat) {
    && |freq| <= |a| && |parent| <= |weight| <= leaf <= |freq|
    && (forall i :: 0 <= i < |parent| ==> a[i] == parent[i])
    && (forall i :: |parent| <= i < |weight| ==> a[i] == weight[i])
    && (forall i :: leaf <= i < |freq| ==> a[i] == freq[i])
  }

  lemma LayoutHeads(a: seq<nat>, freq: seq<nat>, parent: seq<nat>, weight: seq<nat>, leaf: nat)
    requires Layout(a, freq, parent, weight, leaf)
    ensures leaf <= |freq| <= |a|
    ensures |parent| < |weight| ==> a[|parent|] == weight[|parent|]
    ensures leaf < |freq| ==> a[leaf] == freq[leaf]
  {
  }

  lemma LayoutParent(a: seq<nat>, freq: seq<nat>, parent: seq<nat>, weight: seq<nat>, leaf: nat, p: nat)
    requires Layout(a, freq, parent, weight, leaf) && |parent| < |weight|
    ensures Layout(a[|parent| := p], freq, parent + [p], weight, leaf)
  {
  }

  lemma LayoutWeight(a: seq<nat>, freq: seq<nat>, parent: seq<nat>, weight: seq<nat>, leaf: nat, w: nat)
    requires Layout(a, freq, parent, weight, leaf) && |weight| < leaf
    ensures Layout(a[|weight| := w], freq, parent, weight, leaf)
    ensures Layout(a[|weight| := w], freq, parent, weight + [w], leaf)
  {
  }

  lemma LayoutLeaf(a: seq<nat>, freq: seq<nat>, parent: seq<nat>, weight: seq<nat>, leaf: nat)
    requires Layout(a, freq, parent, weight, leaf) && leaf < |freq|
    ensures Layout(a, freq, parent, weight, leaf + 1)
  {
  }

  method BuildTree(a: array<nat>, n: nat)
    returns (ghost parent: seq<nat>, ghost weight: seq<nat>, ghost big: seq<nat>, ghost up: seq<nat>,
      ghost cut: seq<nat>)
    requires n <= a.Length && Frequencies(a[..n])
    modifies a
    ensures a[n..] == old(a[n..])
    ensures |parent| == n - 2 && |weight| == n - 1 && Forest(parent, n - 1)
    ensures forall i :: 0 <= i < n - 2 ==> a[i] == parent[i]
    ensures Queues(old(a[..n]), parent, weight, big, n, 0)
    ensures Kin(old(a[..n]), parent, weight, n, 0, up) && Cuts(cut, up, parent) && |cut| == n
    ensures LeafLinks(old(a[..n]), weight, big, up, 0)
  {
    hide Queues, Kin, Cuts, Extends, Sum, Forest, LeafLinks;
    ghost var freq := a[..n];
    LeafStart(freq);
    Start(freq, [freq[0] + freq[1]], [freq[1]]);
    KinStart(freq);
    ForestStart();
    a[0] := (a[0] + a[1]) % 65536;
    parent, weight, big, up, cut := [], [freq[0] + freq[1]], [freq[1]], [0, 0], [0, 2];
    var root: nat, leaf: nat, next: nat := 0, 2, 1;
    while next < n - 1
      invariant 1 <= next <= n - 1 && root + leaf == 2 * next && root < next < leaf <= n
      invariant |parent| == root && |weight| == next && Forest(parent, next)
      invariant Layout(a[..], freq, parent, weight, leaf)
      invariant Queues(freq, parent, weight, big, leaf, 0)
      invariant Kin(freq, parent, weight, leaf, 0, up) && Cuts(cut, up, parent) && |cut| == next + 1
      invariant LeafLinks(freq, weight, big, up, 0)
      invariant a[n..] == old(a[n..])
    {
      ghost var hand, parent1, up1, parent2, up2;
      root, leaf, parent1, up1, hand := TakeFirst(a, n, root, leaf, next, freq, parent, weight, big, up);
      root, leaf, parent2, weight, big, up2 :=
          TakeSecond(a, n, root, leaf, next, freq, parent1, weight, big, up1, hand);
      ExtendsMore(parent, parent1, parent2, next);
      ExtendsMore(up, up1, up2, next);
      KinShape(freq, parent2, weight, leaf, up2);
      CutsExtend(cut, up, parent, up2, parent2, next);
      parent, up, cut := parent2, up2, cut + [|up2|];
      next := next + 1;
    }
  }

  /** Moves the internal node at the head of its queue into `a[next]`, and leaves its parent there. */
  method MoveRoot(a: array<nat>, root: nat, next: nat, ghost freq: seq<nat>, ghost parent: seq<nat>,
      ghost weight: seq<nat>, ghost leaf: nat)
    requires |parent| == root < |weight| == next < leaf && next < |freq| <= a.Length && next < 65536
    requires Layout(a[..], freq, parent, weight, leaf)
    modifies a
    ensures a[|freq|..] == old(a[|freq|..]) && a[next] == weight[root]
    ensures Layout(a[..], freq, parent + [next], weight, leaf)
  {
    LayoutHeads(a[..], freq, parent, weight, leaf);
    LayoutWeight(a[..], freq, parent, weight, leaf, a[root]);
    a[next] := a[root];
    LayoutParent(a[..], freq, parent, weight, leaf, next);
    hide Layout;
    a[root] := next % 65536;
  }

  /** Moves the next leaf into `a[next]`. */
  method MoveLeaf(a: array<nat>, next: nat, ghost freq: seq<nat>, ghost parent: seq<nat>, ghost weight: seq<nat>,
      leaf: nat)
    requires |parent| <= |weight| == next < leaf < |freq| <= a.Length
    requires Layout(a[..], freq, parent, weight, leaf)
    modifies a
    ensures a[|freq|..] == old(a[|freq|..]) && a[next] == freq[leaf]
    ensures Layout(a[..], freq, parent, weight, leaf + 1)
  {
    LayoutHeads(a[..], freq, parent, weight, leaf);
    LayoutWeight(a[..], freq, parent, weight, leaf, a[leaf]);
    a[next] := a[leaf];
    LayoutLeaf(a[..], freq, parent, weight, leaf);
    hide Layout;
  }

  /** Moves the lighter queue head into `a[next]`. */
  method TakeFirst(a: array<nat>, n: nat, root: nat, leaf: nat, next: nat, ghost freq: seq<nat>,
      ghost parent: seq<nat>, ghost weight: seq<nat>, ghost big: seq<nat>, ghost up: seq<nat>)
    returns (root': nat, leaf': nat, ghost parent': seq<nat>, ghost up': seq<nat>, ghost hand: nat)
    requires Frequencies(freq) && |freq| == n <= a.Length
    requires 1 <= next < |freq| - 1 && root + leaf == 2 * next && root < next < leaf
    requires |parent| == root && |weight| == next && Forest(parent, next)
    requires Layout(a[..], freq, parent, weight, leaf)
    requires Queues(freq, parent, weight, big, leaf, 0) && Kin(freq, parent, weight, leaf, 0, up)
    requires LeafLinks(freq, weight, big, up, 0)
    modifies a
    ensures a[n..] == old(a[n..])
    ensures root' + leaf' == 2 * next + 1 && root' <= next < leaf' && |parent'| == root'
    ensures hand > 0 && a[next] == hand
    ensures Forest(parent', next + 1) && (root' >= 2 ==> parent'[root' - 2] < next)
    ensures Layout(a[..], freq, parent', weight, leaf')
    ensures Queues(freq, parent', weight, big, leaf', hand) && Kin(freq, parent', weight, leaf', hand, up')
    ensures LeafLinks(freq, weight, big, up', hand)
    ensures Extends(parent, parent', next) && Extends(up, up', next)
  {
    hide Queues, Forest, Kin, LeafLinks, Layout;
    LayoutHeads(a[..], freq, parent, weight, leaf);
    KinLeaves(freq, parent, weight, leaf, 0, up);
    root', leaf', parent', up' := root, leaf, parent, up;
    if leaf >= n || a[root] < a[leaf] {
      ForestMore(parent, next);
      GrowForest(parent, next);
      TakeNode(freq, parent, weight, big, leaf);
      KinNode(freq, parent, weight, leaf, up);
      hand := weight[root];
      LeafTake(freq, weight, big, up, hand);
      MoveRoot(a, root, next, freq, parent, weight, leaf);
      parent' := parent + [next];
      root' := root + 1;
    } else {
      ForestMore(parent, next);
      TakeLeaf(freq, parent, weight, big, leaf);
      KinLeaf(freq, parent, weight, leaf, up);
      hand := freq[leaf];
      LeafTake(freq, weight, big, up, hand);
      MoveLeaf(a, next, freq, parent, weight, leaf);
      leaf', up' := leaf + 1, up + [next];
    }
  }

  /** Merges the lighter of the queue heads that are left into `a[next]`. */
  method TakeSecond(a: array<nat>, n: nat, root: nat, leaf: nat, next: nat, ghost freq: seq<nat>,
      ghost parent: seq<nat>, ghost weight: seq<nat>, ghost big: seq<nat>, ghost up: seq<nat>, ghost hand: nat)
    returns (root': nat, leaf': nat, ghost parent': seq<nat>, ghost weight': seq<nat>, ghost big': seq<nat>,
      ghost up': seq<nat>)
    requires Frequencies(freq) && |freq| == n <= a.Length
    requires 1 <= next < |freq| - 1 && root + leaf == 2 * next + 1 && root <= next < leaf
    requires |parent| == root && |weight| == next
    requires hand > 0 && a[next] == hand
    requires Forest(parent, next + 1) && (root >= 2 ==> parent[root - 2] < next)
    requires Layout(a[..], freq, parent, weight, leaf)
    requires Queues(freq, parent, weight, big, leaf, hand) && Kin(freq, parent, weight, leaf, hand, up)
    requires LeafLinks(freq, weight, big, up, hand)
    modifies a
    ensures a[n..] == old(a[n..])
    ensures root' + leaf' == 2 * next + 2 && root' <= next && next + 1 < leaf' <= |freq|
    ensures |parent'| == root' && |weight'| == next + 1 && Forest(parent', next + 1)
    ensures Layout(a[..], freq, parent', weight', leaf')
    ensures Queues(freq, parent', weight', big', leaf', 0) && Kin(freq, parent', weight', leaf', 0, up')
    ensures LeafLinks(freq, weight', big', up', 0)
    ensures Extends(parent, parent', next) && Extends(up, up', next)
  {
    hide Queues, Forest, Layout, Kin, LeafLinks;
    KinLeaves(freq, parent, weight, leaf, hand, up);
    LayoutHeads(a[..], freq, parent, weight, leaf);
    if leaf >= n || (root < next && a[root] < a[leaf]) {
      GrowForest(parent, next);
      MergeNode(freq, parent, weight, big, leaf, hand);
      KinMergeNode(freq, parent, weight, big, leaf, hand, up);
      LeafMergeNode(freq, parent, weight, big, leaf, hand, up);
      weight', big' := MergeRoot(a, root, next, freq, parent, weight, big, leaf, hand);
      root', leaf', parent', up' := root + 1, leaf, parent + [next], up;
    } else {
      MergeLeaf(freq, parent, weight, big, leaf, hand);
      KinMergeLeaf(freq, parent, weight, big, leaf, hand, up);
      LeafMergeLeaf(freq, parent, weight, big, leaf, hand, up);
      ghost var w := hand + freq[leaf];
      LayoutWeight(a[..], freq, parent, weight, leaf, w);
      a[next] := (a[next] + a[leaf]) % 65536;
      LayoutLeaf(a[..], freq, parent, weight + [w], leaf);
      weight', big' := weight + [w], big + [freq[leaf]];
      root', leaf', parent', up' := root, leaf + 1, parent, up + [next];
    }
  }

  /** Adds the internal node at the head of its queue to `a[next]`, and leaves its parent there. */
  method MergeRoot(a: array<nat>, root: nat, next: nat, ghost freq: seq<nat>, ghost parent: seq<nat>,
      ghost weight: seq<nat>, ghost big: seq<nat>, ghost leaf: nat, ghost hand: nat)
    returns (ghost weight': seq<nat>, ghost big': seq<nat>)
    requires |parent| == root < |weight| == next < leaf && next < a.Length && next < 65536
    requires Layout(a[..], freq, parent, weight, leaf) && |freq| <= a.Length
    requires a[next] == hand && hand + weight[root] < 65536
    modifies a
    ensures a[|freq|..] == old(a[|freq|..])
    ensures weight' == weight + [hand + weight[root]] && big' == big + [weight[root]]
    ensures Layout(a[..], freq, parent + [next], weight', leaf)
  {
    LayoutHeads(a[..], freq, parent, weight, leaf);
    ghost var w := hand + weight[root];
    LayoutWeight(a[..], freq, parent, weight, leaf, w);
    LayoutParent(a[..][next := w], freq, parent, weight + [w], leaf, next);
    hide Layout;
    a[next] := (a[next] + a[root]) % 65536;
    a[root] := next % 65536;
    assert a[..] == old(a[..])[next := w][root := next];
    weight', big' := weight + [w], big + [weight[root]];
  }

  // ---------- pass two ----------

  method Depths(a: array<nat>, n: nat, ghost parent: seq<nat>)
    requires 2 <= n <= a.Length && |parent| == n - 2 && Forest(parent, n - 1)
    requires forall i :: 0 <= i < n - 2 ==> a[i] == parent[i]
    modifies a
    ensures a[n..] == old(a[n..])
    ensures forall i :: 0 <= i < n - 1 ==> a[i] == Depth(parent, i)
  {
    a[n - 2] := 0;
    var next: int := n - 3;
    while next >= 0
      invariant -1 <= next <= n - 3
      invariant a[n..] == old(a[n..])
      invariant forall i :: 0 <= i <= next ==> a[i] == parent[i]
      invariant forall i :: next < i < n - 1 ==> a[i] == Depth(parent, i)
    {
      a[next] := a[a[next]] + 1;
      next := next - 1;
    }
  }

  // ---------- pass three ----------

  /**
   The array while leaves are given depth `dpth` and more.  `done` is the finished part.  Nodes up
   to `root` are still to be visited; the `above` nodes after it are those one level up, each of
   which has room for two children.
   */
  ghost predicate Level(a: seq<nat>, parent: seq<nat>, root: int, next: int, avbl: nat, dpth: nat, above: nat)
    requires Forest(parent, |parent| + 1) && |a| == |parent| + 2
  {
    && -1 <= root <= next < |a| && next - root == avbl && root <= |parent|
    && (forall i :: 0 <= i <= root ==> a[i] == Depth(parent, i) >= dpth)
    && (if dpth == 0 then root == |parent| && avbl == 1 && above == 0 else
          && avbl == 2 * above && root + above <= |parent| && (above == 0 ==> root == -1)
          && Above(parent, root, above, dpth - 1)
          && Finished(a[next + 1..], avbl, dpth))
  }

  ghost predicate Above(parent: seq<nat>, root: int, above: nat, dpth: nat)
    requires Forest(parent, |parent| + 1)
  {
    && -1 <= root && root + above <= |parent|
    && (forall i :: root < i <= root + above ==> Depth(parent, i) == dpth)
    && (forall i :: root + above < i <= |parent| ==> Depth(parent, i) < dpth)
  }

  /** Leaf lengths below `dpth`, longest first, that leave `avbl` codes of length `dpth` free. */
  ghost predicate Finished(done: seq<nat>, avbl: nat, dpth: nat) {
    && dpth > 0 && Descending(done) && (forall i :: 0 <= i < |done| ==> 1 <= done[i] < dpth)
    && First(done, dpth) + avbl == Pow2(dpth)
  }

  /** The `used` nodes up to `root` have depth `dpth`, and those before them are deeper. */
  ghost predicate OnLevel(parent: seq<nat>, root: int, used: nat, dpth: nat)
    requires Forest(parent, |parent| + 1)
  {
    && -1 <= root <= |parent| && used <= root + 1
    && (forall i :: root - used < i <= root ==> Depth(parent, i) == dpth)
    && (forall i :: 0 <= i <= root - used ==> Depth(parent, i) > dpth)
  }

  /** Counts the internal nodes of depth `dpth`. */
  method CountLevel(a: array<nat>, root: int, dpth: nat, ghost parent: seq<nat>) returns (used: nat)
    requires Forest(parent, |parent| + 1) && -1 <= root <= |parent| < a.Length
    requires forall i :: 0 <= i <= root ==> a[i] == Depth(parent, i) >= dpth
    ensures used <= root + 1
    ensures OnLevel(parent, root, used, dpth)
  {
    used := 0;
    while root - used >= 0 && a[root - used] == dpth
      invariant used <= root + 1
      invariant forall i :: root - used < i <= root ==> Depth(parent, i) == dpth
    {
      used := used + 1;
    }
    forall i | 0 <= i <= root - used
      ensures Depth(parent, i) > dpth
    {
      DepthMonotone(parent, i, root - used);
    }
  }

  /** Writes `count` leaves of depth `dpth`, from `next` down. */
  method FillLevel(a: array<nat>, n: nat, next: int, count: nat, dpth: nat)
    requires 0 <= next + 1 - count && next < n <= a.Length
    modifies a
    ensures a[..n] == old(a[..n])[..next + 1 - count] + Repeated(dpth, count) + old(a[..n])[next + 1..]
    ensures a[n..] == old(a[n..])
  {
    var k := 0;
    while k < count
      invariant k <= count
      invariant forall i :: 0 <= i <= next - k ==> a[i] == old(a[i])
      invariant forall i :: next - k < i <= next ==> a[i] == dpth
      invariant forall i :: next < i < a.Length ==> a[i] == old(a[i])
    {
      a[next - k] := dpth;
      k := k + 1;
    }
    Filled(old(a[..]), a[..], next + 1 - count, next + 1, dpth);
    assert a[..n] == a[..][..n] && old(a[..n]) == old(a[..])[..n];
  }

  lemma Filled(s: seq<nat>, t: seq<nat>, from: nat, to: nat, v: nat)
    requires from <= to <= |s| == |t| && forall i :: 0 <= i < |s| ==> t[i] == if from <= i < to then v else s[i]
    ensures forall n :: to <= n <= |s| ==> t[..n] == s[..n][..from] + Repeated(v, to - from) + s[..n][to..]
  {
  }

  /** No level has more internal nodes than twice the level above. */
  lemma LevelFits(parent: seq<nat>, root: int, used: nat, above: nat, dpth: nat)
    requires Forest(parent, |parent| + 1) && dpth > 0
    requires used <= root + 1 && Above(parent, root, above, dpth - 1)
    requires forall i :: root - used < i <= root ==> Depth(parent, i) == dpth
    ensures used <= 2 * above
  {
    if used > 2 * above {
      var i := root - used + 1;
      assert Depth(parent, i) == dpth && Depth(parent, i + 2 * above) == dpth;
      assert Depth(parent, parent[i + 2 * above]) == dpth - 1;
      ParentAbove(parent, i, root, dpth);
      ParentSpread(parent, i, above);
    }
  }

  lemma ParentAbove(parent: seq<nat>, i: nat, root: nat, dpth: nat)
    requires Forest(parent, |parent| + 1) && i <= root < |parent|
    requires Depth(parent, i) == dpth == Depth(parent, root)
    ensures parent[i] > root
  {
    if parent[i] <= root {
      DepthMonotone(parent, parent[i], root);
    }
  }

  /** If any internal node is left, one is on the next level. */
  lemma LevelsAreConsecutive(parent: seq<nat>, root: nat, above: nat, dpth: nat)
    requires Forest(parent, |parent| + 1) && root < |parent| && dpth > 0 && above > 0
    requires Above(parent, root, above, dpth - 1) && Depth(parent, root) >= dpth
    ensures Depth(parent, root) == dpth
  {
    DepthStep(parent, root);
  }

  lemma FinishLevel(done: seq<nat>, avbl: nat, used: nat, d: nat)
    requires used <= avbl
    requires if d == 0 then done == [] && used == avbl == 1 else Finished(done, avbl, d)
    ensures Finished(Repeated(d, avbl - used) + done, 2 * used, d + 1)
  {
    var k := avbl - used;
    var next := Repeated(d, k) + done;
    if d > 0 {
      forall l | 0 < l < d
        ensures Count(next, l) == Count(done, l)
      {
        CountConcat(Repeated(d, k), done, l);
        CountRepeated(d, k, l);
      }
      FirstSame(next, done, d);
      CountConcat(Repeated(d, k), done, d);
      CountRepeated(d, k, d);
      CountAbsent(done, d);
      assert First(next, d + 1) == 2 * (First(next, d) + Count(next, d));
      assert First(next, d + 1) + 2 * used == Pow2(d + 1);
      assert Descending(next);
    }
  }

  lemma LevelUsed(a: seq<nat>, parent: seq<nat>, root: int, next: int, avbl: nat, dpth: nat, above: nat, used: nat)
    requires Forest(parent, |parent| + 1) && |a| == |parent| + 2
    requires Level(a, parent, root, next, avbl, dpth, above) && avbl > 0
    requires OnLevel(parent, root, used, dpth)
    ensures used <= avbl <= next + 1 && -1 <= root <= next < |a| && (dpth == 0 ==> used == 1)
    ensures used == 0 ==> root == -1
    ensures Above(parent, root - used, used, dpth)
  {
    if dpth == 0 {
      assert Depth(parent, root) == 0;
      assert used > 1 ==> Depth(parent, root - 1) > 0;
    } else {
      LevelFits(parent, root, used, above, dpth);
      if root >= 0 {
        LevelsAreConsecutive(parent, root, above, dpth);
      }
    }
  }

  lemma NextLevel(a: seq<nat>, b: seq<nat>, parent: seq<nat>, root: int, next: int, avbl: nat, dpth: nat, above: nat,
      used: nat)
    requires Forest(parent, |parent| + 1) && |a| == |b| == |parent| + 2
    requires Level(a, parent, root, next, avbl, dpth, above) && avbl > 0
    requires OnLevel(parent, root, used, dpth) && used <= avbl && (dpth == 0 ==> used == 1)
    requires (used == 0 ==> root == -1)
    requires Above(parent, root - used, used, dpth)
    requires b == a[..next + 1 - (avbl - used)] + Repeated(dpth, avbl - used) + a[next + 1..]
    ensures Level(b, parent, root - used, next - (avbl - used), 2 * used, dpth + 1, used)
  {
    hide Finished, Above, Repeated;
    var k := avbl - used;
    LevelTail(a, parent, root, next, avbl, dpth, above);
    FinishLevel(a[next + 1..], avbl, used, dpth);
    Spliced(a, b, next, k, Repeated(dpth, k));
    assert forall i :: 0 <= i <= root - used ==> b[i] == a[i];
  }

  lemma LevelTail(a: seq<nat>, parent: seq<nat>, root: int, next: int, avbl: nat, dpth: nat, above: nat)
    requires Forest(parent, |parent| + 1) && |a| == |parent| + 2
    requires Level(a, parent, root, next, avbl, dpth, above)
    ensures if dpth == 0 then a[next + 1..] == [] && avbl == 1 else Finished(a[next + 1..], avbl, dpth)
  {
  }

  lemma Spliced(a: seq<nat>, b: seq<nat>, next: int, k: nat, mid: seq<nat>)
    requires 0 <= next + 1 - k && next < |a| && |mid| == k && b == a[..next + 1 - k] + mid + a[next + 1..]
    ensures |b| == |a| && b[next + 1 - k..] == mid + a[next + 1..]
    ensures forall i :: 0 <= i <= next - k ==> b[i] == a[i]
  {
  }

  /** Where the nodes are while a level is being done. */
  lemma LevelSplit(a: seq<nat>, parent: seq<nat>, root: int, next: int, avbl: nat, dpth: nat, above: nat, used: nat)
    requires Forest(parent, |parent| + 1) && |a| == |parent| + 2
    requires Level(a, parent, root, next, avbl, dpth, above) && used <= avbl && (dpth == 0 ==> used == 1)
    requires OnLevel(parent, root, used, dpth)
    ensures root + above <= |parent| && root + 1 - used <= |parent| && root + used <= next
    ensures forall i :: root < i < root + above + 1 ==> Depth(parent, i) + 1 == dpth
    ensures forall i :: 0 <= i <= |parent| ==> (Depth(parent, i) >= dpth <==> i <= root)
    ensures forall i :: 0 <= i <= |parent| ==> (Depth(parent, i) > dpth <==> i <= root - used)
  {
    hide Finished;
  }

  /** One level of the loop. */
  lemma LevelDoes(a: seq<nat>, b: seq<nat>, up: seq<nat>, parent: seq<nat>, cut: seq<nat>,
                  root: int, next: int, avbl: nat, dpth: nat, above: nat, used: nat)
    requires Forest(parent, |parent| + 1) && |a| == |b| == |parent| + 2
    requires Level(a, parent, root, next, avbl, dpth, above) && avbl > 0
    requires root + above + 1 >= 0 && Hung(a, up, parent, next, root + above + 1)
    requires Cuts(cut, up, parent) && |cut| == |parent| + 2
    requires OnLevel(parent, root, used, dpth) && used <= avbl <= next + 1 && next < |a|
    requires b == a[..next + 1 - (avbl - used)] + Repeated(dpth, avbl - used) + a[next + 1..]
    ensures Level(b, parent, root - used, next - (avbl - used), 2 * used, dpth + 1, used)
    ensures root + 1 >= 0 && Hung(b, up, parent, next - (avbl - used), root + 1)
    ensures used > 0 ==> 0 <= root <= |parent| && Depth(parent, root) == dpth
  {
    hide Above, Finished, Hung, Cuts, Forest, Descending, Repeated;
    LevelUsed(a, parent, root, next, avbl, dpth, above, used);
    LevelSplit(a, parent, root, next, avbl, dpth, above, used);
    LeavesBelow(cut, up, parent, root, used, dpth);
    NextLevel(a, b, parent, root, next, avbl, dpth, above, used);
    HangLevel(a, b, up, parent, root, next, root + above + 1, used, dpth);
  }

  method LeafDepths(a: array<nat>, n: nat, ghost parent: seq<nat>, ghost up: seq<nat>, ghost cut: seq<nat>)
    returns (ghost max: nat)
    requires n == |parent| + 2 <= a.Length && Forest(parent, |parent| + 1)
    requires Cuts(cut, up, parent) && |cut| == |up| == n && forall i :: 0 <= i < n ==> up[i] <= |parent|
    requires forall i :: 0 <= i < n - 1 ==> a[i] == Depth(parent, i) <= 21
    modifies a
    ensures Complete(a[..n], max) && max <= 22
    ensures Descending(a[..n]) && Positive(a[..n]) && Leafy(a[..n], up, parent)
    ensures a[n..] == old(a[n..])
  {
    hide Level, Above, Finished, Complete, Hung, Cuts, Leafy, Forest, Descending, Repeated, OnLevel;
    var avbl: nat, used: nat, dpth: nat, root: int, next: int := 1, 0, 0, n - 2, n - 1;
    ghost var above: nat := 0;
    LevelZero(a[..n], parent);
    HungStart(a[..n], up, parent);
    while avbl > 0
      invariant Level(a[..n], parent, root, next, avbl, dpth, above)
      invariant root + above + 1 >= 0 && Hung(a[..n], up, parent, next, root + above + 1)
      invariant dpth <= 23 && (avbl > 0 ==> dpth <= 22)
      invariant used == 0 && root >= -1
      invariant a[n..] == old(a[n..])
      decreases root + 1 + if avbl > 0 then 1 else 0
    {
      LevelReads(a[..n], parent, root, next, avbl, dpth, above);
      used := CountLevel(a, root, dpth, parent);
      LevelUsed(a[..n], parent, root, next, avbl, dpth, above, used);
      ghost var was := a[..n];
      FillLevel(a, n, next, avbl - used, dpth);
      LevelDoes(was, a[..n], up, parent, cut, root, next, avbl, dpth, above, used);
      root, next, above := root - used, next - (avbl - used), used;
      avbl := 2 * used;
      dpth := dpth + 1;
      used := 0;
    }
    LevelDone(a[..n], parent, root, next, dpth, above);
    HungEnd(a[..n], up, parent, root + above + 1);
    max := dpth - 1;
  }

  lemma LevelZero(a: seq<nat>, parent: seq<nat>)
    requires Forest(parent, |parent| + 1) && |a| == |parent| + 2
    requires forall i :: 0 <= i < |a| - 1 ==> a[i] == Depth(parent, i)
    ensures Level(a, parent, |parent|, |parent| + 1, 1, 0, 0)
  {
  }

  lemma LevelReads(a: seq<nat>, parent: seq<nat>, root: int, next: int, avbl: nat, dpth: nat, above: nat)
    requires Forest(parent, |parent| + 1) && |a| == |parent| + 2
    requires Level(a, parent, root, next, avbl, dpth, above)
    ensures -1 <= root <= next < |a| && root <= |parent| && next - root == avbl
    ensures forall i :: 0 <= i <= root ==> a[i] == Depth(parent, i) >= dpth
  {
  }

  lemma LevelDone(a: seq<nat>, parent: seq<nat>, root: int, next: int, dpth: nat, above: nat)
    requires Forest(parent, |parent| + 1) && |a| == |parent| + 2
    requires Level(a, parent, root, next, 0, dpth, above)
    ensures next == -1 && dpth >= 2 && Complete(a, dpth - 1) && Descending(a) && Positive(a)
  {
    assert a[0..] == a;
  }

  /**
   Replaces ascending frequencies by code lengths: the whole of `tdefl_calculate_minimum_redundancy`.
   No prefix code has a smaller weighted length.  The lengths use every bit string exactly once
   (Kraft sum 1), so the decoder accepts them, and none is so long that the caller's 33-entry
   length histogram would overflow.
   */
  method CalculateMinimumRedundancy(a: array<nat>, n: nat) returns (ghost max: nat)
    requires n <= a.Length && n <= 65536
    requires Ascending(a[..n]) && Positive(a[..n]) && Sum(a[..n]) < 65536
    modifies a
    ensures a[n..] == old(a[n..])
    ensures Descending(a[..n]) && Positive(a[..n])
    ensures Minimal(old(a[..n]), a[..n]) && Grows(old(a[..n]), a[..n]) && Heavy(old(a[..n]), a[..n])
    ensures n == 1 ==> a[0] == 1
    ensures n >= 2 ==> Complete(a[..n], max) && max <= 22
  {
    hide Forest, Queues, Kin, Cuts, Leafy, Complete, Minimal, Sum, LeafLinks;
    max := 0;
    ghost var freq := a[..n];
    if n == 0 {
      NoneIsMinimal();
      return;
    } else if n == 1 {
      OneIsMinimal(freq);
      OneIsHeavy(freq);
      a[0] := 1;
      assert a[..1] == [1];
      return;
    }
    ghost var parent, weight, big, up, cut := BuildTree(a, n);
    KinShape(freq, parent, weight, n, up);
    Depths(a, n, parent);
    forall i | 0 <= i < n - 1
      ensures Depth(parent, i) <= 21
    {
      DepthLimit(freq, parent, weight, big, i);
    }
    max := LeafDepths(a, n, parent, up, cut);
    TreeIsMinimal(freq, parent, weight, up, a[..n]);
    TreeGrows(freq, parent, weight, big, up, a[..n]);
    TreeHeavy(freq, parent, weight, big, up, a[..n]);
  }
}
