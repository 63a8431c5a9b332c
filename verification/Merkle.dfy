/** The Merkle tree that tap_reader/src/commitment.rs and weight_transport.py both build, over any
    digest type and any two-argument hash. An odd level repeats its last node. */
module Merkle {
  import opened ByteStrings
  import opened Digests
  import opened Powers

  /** The children of node `k` of the level above `n` nodes; an odd last node is its own sibling. */
  function Child(n: nat, k: nat, right: bool): (i: nat)
    requires 2 * k < n
    ensures i < n
  {
    if right && 2 * k + 1 < n then 2 * k + 1 else 2 * k
  }

  function Parent<D>(h: (D, D) -> D, level: seq<D>, k: nat): D
    requires 2 * k < |level|
  {
    h(level[Child(|level|, k, false)], level[Child(|level|, k, true)])
  }

  function LevelUp<D>(h: (D, D) -> D, level: seq<D>): (next: seq<D>)
    ensures |next| == (|level| + 1) / 2
  {
    seq((|level| + 1) / 2, k requires 0 <= k < (|level| + 1) / 2 => Parent(h, level, k))
  }

  function Levels<D>(h: (D, D) -> D, level: seq<D>): (levels: seq<seq<D>>)
    requires level != []
    ensures |levels| == Depth(|level|) + 1
    decreases |level|
  {
    if |level| == 1 then [level] else [level] + Levels(h, LevelUp(h, level))
  }

  function Root<D>(h: (D, D) -> D, level: seq<D>): D
    requires level != []
    decreases |level|
  {
    if |level| == 1 then level[0] else Root(h, LevelUp(h, level))
  }

  function Depth(n: nat): nat
    requires n > 0
  {
    if n == 1 then 0 else 1 + Depth((n + 1) / 2)
  }

  /** The leaf that stands at position `i` of the complete binary tree of the same depth. */
  function SourceLeaf(i: nat, n: nat): (leaf: nat)
    requires n > 0
    ensures leaf < n
    ensures i < n ==> leaf == i
    decreases n
  {
    if n == 1 then 0
    else Child(n, SourceLeaf(i / 2, (n + 1) / 2), i % 2 == 1)
  }

  /** The sibling of the node that stands at position `i`. */
  function Sibling<D>(level: seq<D>, i: nat): D
    requires |level| > 1
  {
    level[Child(|level|, SourceLeaf(i / 2, (|level| + 1) / 2), i % 2 == 0)]
  }

  /** The sibling hashes, bottom to top, of position `i`. */
  function AuthPath<D>(h: (D, D) -> D, level: seq<D>, i: nat): (path: seq<D>)
    requires level != []
    ensures |path| == Depth(|level|)
    decreases |level|
  {
    if |level| == 1 then [] else [Sibling(level, i)] + AuthPath(h, LevelUp(h, level), i / 2)
  }

  function Join<D>(h: (D, D) -> D, i: nat, node: D, sibling: D): D {
    if i % 2 == 0 then h(node, sibling) else h(sibling, node)
  }

  /** What `verify_inclusion` compares with the root. */
  function Climb<D>(h: (D, D) -> D, node: D, i: nat, path: seq<D>): D {
    if path == [] then node else Climb(h, Join(h, i, node, path[0]), i / 2, path[1..])
  }

  /** Node `k` of the next level is the hash of nodes 2k and 2k + 1, the last one of an odd level twice. */
  ghost predicate IsNextLevel<D>(h: (D, D) -> D, level: seq<D>, next: seq<D>) {
    && |next| == (|level| + 1) / 2
    && forall k :: 0 <= k < |next| ==>
         next[k] == h(level[2 * k], if 2 * k + 1 < |level| then level[2 * k + 1] else level[2 * k])
  }

  lemma LevelUpPairs<D>(h: (D, D) -> D, level: seq<D>)
    ensures IsNextLevel(h, level, LevelUp(h, level))
  {
  }

  /** The tree from the leaves to the root. */
  ghost predicate IsTree<D>(h: (D, D) -> D, leaves: seq<D>, levels: seq<seq<D>>, root: D) {
    && levels != [] && levels[0] == leaves && levels[|levels| - 1] == [root]
    && (forall l :: 0 <= l < |levels| - 1 ==> |levels[l]| > 1 && IsNextLevel(h, levels[l], levels[l + 1]))
  }

  lemma {:induction false} LevelsAreTree<D>(h: (D, D) -> D, leaves: seq<D>)
    requires leaves != []
    ensures IsTree(h, leaves, Levels(h, leaves), Root(h, leaves))
    decreases |leaves|
  {
    LevelUpPairs(h, leaves);
    if |leaves| > 1 {
      var next := LevelUp(h, leaves);
      LevelsAreTree(h, next);
      assert Levels(h, leaves) == [leaves] + Levels(h, next);
    }
  }

  /** Node by node over a hash of bytes: the left digest, then the right one. */
  lemma EpochNode(hash: Bytes -> Digest16, leaves: seq<Digest16>, l: nat, k: nat)
    requires leaves != [] && l + 1 < |Levels(Epoch(hash), leaves)| && k < |Levels(Epoch(hash), leaves)[l + 1]|
    ensures var below := Levels(Epoch(hash), leaves)[l];
            && 2 * k < |below|
            && var right := if 2 * k + 1 < |below| then below[2 * k + 1] else below[2 * k];
            && Levels(Epoch(hash), leaves)[l + 1][k] == hash(below[2 * k][..] + right[..])
  {
    LevelsAreTree(Epoch(hash), leaves);
    var below := Levels(Epoch(hash), leaves)[l];
    assert IsNextLevel(Epoch(hash), below, Levels(Epoch(hash), leaves)[l + 1]);
    var right := if 2 * k + 1 < |below| then below[2 * k + 1] else below[2 * k];
    EpochHashes(hash, below[2 * k], right);
  }

  lemma ManifestNode(hash: Bytes -> Digest32, leaves: seq<Digest32>, l: nat, k: nat)
    requires leaves != [] && l + 1 < |Levels(Manifest(hash), leaves)| && k < |Levels(Manifest(hash), leaves)[l + 1]|
    ensures var below := Levels(Manifest(hash), leaves)[l];
            && 2 * k < |below|
            && var right := if 2 * k + 1 < |below| then below[2 * k + 1] else below[2 * k];
            && Levels(Manifest(hash), leaves)[l + 1][k] == hash(below[2 * k][..] + right[..])
  {
    LevelsAreTree(Manifest(hash), leaves);
    var below := Levels(Manifest(hash), leaves)[l];
    assert IsNextLevel(Manifest(hash), below, Levels(Manifest(hash), leaves)[l + 1]);
    var right := if 2 * k + 1 < |below| then below[2 * k + 1] else below[2 * k];
    ManifestHashes(hash, below[2 * k], right);
  }

  method NextLevel<D>(h: (D, D) -> D, cur: seq<D>) returns (next: seq<D>)
    ensures next == LevelUp(h, cur) && IsNextLevel(h, cur, next)
  {
    LevelUpPairs(h, cur);
    next := [];
    var i := 0;
    while i < |cur|
      invariant i % 2 == 0 && i <= |cur| + 1 && |next| == i / 2
      invariant forall k :: 0 <= k < |next| ==> next[k] == LevelUp(h, cur)[k]
    {
      var right := if i + 1 < |cur| then cur[i + 1] else cur[i];
      assert h(cur[i], right) == Parent(h, cur, i / 2);
      next := next + [h(cur[i], right)];
      i := i + 2;
    }
  }

  class EpochTree<D(==)> {
    var leaves: seq<D>
    var root: D
    var levels: seq<seq<D>>

    ghost predicate Valid(h: (D, D) -> D)
      reads this
    {
      leaves != [] && levels == Levels(h, leaves) && root == Root(h, leaves)
    }

    constructor (h: (D, D) -> D, leaves: seq<D>)
      requires leaves != []
      ensures Valid(h) && this.leaves == leaves
      ensures IsTree(h, leaves, levels, root)
    {
      var levels := [leaves];
      var cur := leaves;
      while |cur| > 1
        invariant cur != [] && Root(h, cur) == Root(h, leaves)
        invariant levels + Levels(h, cur)[1..] == Levels(h, leaves)
        decreases |cur|
      {
        var next := NextLevel(h, cur);
        ghost var above := Levels(h, next);
        assert Levels(h, cur) == [cur] + above && above[0] == next;
        assert levels + above == (levels + [next]) + above[1..];
        levels := levels + [next];
        cur := next;
      }
      assert levels + Levels(h, cur)[1..] == levels;
      this.leaves := leaves;
      this.levels := levels;
      this.root := cur[0];
      new;
      LevelsAreTree(h, leaves);
    }

    /** The precondition is exactly what keeps every index in range. */
    method Proof(h: (D, D) -> D, leafIndex: nat) returns (proof: seq<D>)
      requires Valid(h) && (|leaves| > 1 ==> leafIndex / 2 < (|leaves| + 1) / 2)
      ensures proof == AuthPath(h, leaves, leafIndex)
    {
      proof := [];
      var idx: nat := leafIndex;
      ghost var rest := leaves;
      for l := 0 to |levels| - 1
        invariant rest != [] && levels[l..] == Levels(h, rest)
        invariant |rest| > 1 ==> idx / 2 < (|rest| + 1) / 2
        invariant proof + AuthPath(h, rest, idx) == AuthPath(h, leaves, leafIndex)
      {
        var level := levels[l];
        assert level == levels[l..][0] == rest;
        assert |levels[l..]| > 1;
        var sibling :=
          if idx % 2 == 0 then (if idx + 1 < |level| then level[idx + 1] else level[idx])
          else level[idx - 1];
        SiblingInRange(rest, idx);
        TakesSibling(h, rest, idx, proof);
        proof := proof + [sibling];
        idx := idx / 2;
        assert levels[l + 1..] == levels[l..][1..];
        rest := LevelUp(h, rest);
      }
    }
  }

  lemma SiblingInRange<D>(level: seq<D>, idx: nat)
    requires |level| > 1 && idx / 2 < (|level| + 1) / 2
    ensures idx % 2 == 0 ==> Sibling(level, idx) == if idx + 1 < |level| then level[idx + 1] else level[idx]
    ensures idx % 2 == 1 ==> Sibling(level, idx) == level[idx - 1]
  {
    assert SourceLeaf(idx / 2, (|level| + 1) / 2) == idx / 2;
  }

  /** `sibling` is the neighbour of node `idx`, or that node itself when it is the last of an odd level. */
  ghost predicate IsSibling<D>(level: seq<D>, idx: nat, sibling: D) {
    && idx < |level|
    && sibling == if idx % 2 == 1 then level[idx - 1] else if idx + 1 < |level| then level[idx + 1] else level[idx]
  }

  /** `i`, halved `l` times. */
  function Halved(i: nat, l: nat): nat { if l == 0 then i else Halved(i / 2, l - 1) }

  lemma {:induction false} HalvedIsQuotient(i: nat, l: nat)
    ensures Halved(i, l) == i / Pow2(l)
  {
    if l > 0 {
      HalvedIsQuotient(i / 2, l - 1);
      HalfThenQuotient(i, Pow2(l - 1));
    }
  }

  /** The path of leaf `i` holds at place `l` the sibling of node `i / 2^l` of level `l`. */
  lemma {:induction false} AuthPathAt<D>(h: (D, D) -> D, leaves: seq<D>, i: nat, l: nat)
    requires i < |leaves| && l < Depth(|leaves|)
    ensures IsSibling(Levels(h, leaves)[l], Halved(i, l), AuthPath(h, leaves, i)[l])
    decreases l
  {
    if l == 0 {
      SiblingInRange(leaves, i);
    } else {
      AuthPathAt(h, LevelUp(h, leaves), i / 2, l - 1);
      PathUnfolds(h, leaves, i, l);
      LevelsAbove(h, leaves);
    }
  }

  lemma PathUnfolds<D>(h: (D, D) -> D, leaves: seq<D>, i: nat, l: nat)
    requires leaves != [] && 0 < l < Depth(|leaves|)
    ensures AuthPath(h, leaves, i)[l] == AuthPath(h, LevelUp(h, leaves), i / 2)[l - 1]
  {
  }

  lemma TakesSibling<D>(h: (D, D) -> D, level: seq<D>, i: nat, proof: seq<D>)
    requires |level| > 1
    ensures proof + AuthPath(h, level, i) == (proof + [Sibling(level, i)]) + AuthPath(h, LevelUp(h, level), i / 2)
    ensures Levels(h, level)[1..] == Levels(h, LevelUp(h, level))
  {
    var head, above := [Sibling(level, i)], AuthPath(h, LevelUp(h, level), i / 2);
    assert AuthPath(h, level, i) == head + above;
    Regroup(proof, head, above);
    LevelsAbove(h, level);
  }

  lemma Regroup<T>(a: seq<T>, b: seq<T>, c: seq<T>)
    ensures a + (b + c) == (a + b) + c
  {
  }

  lemma LevelsAbove<D>(h: (D, D) -> D, level: seq<D>)
    requires |level| > 1
    ensures Levels(h, level)[1..] == Levels(h, LevelUp(h, level))
  {
    var above := Levels(h, LevelUp(h, level));
    assert Levels(h, level) == [level] + above;
  }

  method VerifyInclusion<D(==)>(h: (D, D) -> D, leaf: D, leafIndex: nat, proof: seq<D>, root: D) returns (ok: bool)
    ensures ok <==> Climb(h, leaf, leafIndex, proof) == root
  {
    var cur, idx := leaf, leafIndex;
    for i := 0 to |proof|
      invariant Climb(h, cur, idx, proof[i..]) == Climb(h, leaf, leafIndex, proof)
    {
      assert proof[i..][1..] == proof[i + 1..];
      cur := if idx % 2 == 0 then h(cur, proof[i]) else h(proof[i], cur);
      idx := idx / 2;
    }
    ok := cur == root;
  }

  // ----- Completeness

  /** Proofs have ceil(log2 n) siblings. */
  lemma {:induction false} DepthIsCeilLog2(n: nat)
    requires n > 0
    ensures n <= Pow2(Depth(n)) && (n > 1 ==> Pow2(Depth(n) - 1) < n)
  {
    if n > 1 { DepthIsCeilLog2((n + 1) / 2); }
  }

  /** A node and its sibling hash to the node above them. */
  lemma JoinsToParent<D>(h: (D, D) -> D, level: seq<D>, i: nat)
    requires |level| > 1
    ensures Join(h, i, level[SourceLeaf(i, |level|)], Sibling(level, i))
         == LevelUp(h, level)[SourceLeaf(i / 2, (|level| + 1) / 2)]
  {
    assert LevelUp(h, level)[SourceLeaf(i / 2, (|level| + 1) / 2)]
        == Parent(h, level, SourceLeaf(i / 2, (|level| + 1) / 2));
  }

  /** Every position's path leads from the leaf standing there to the root. */
  lemma {:induction false} Completeness<D>(h: (D, D) -> D, leaves: seq<D>, i: nat)
    requires leaves != []
    ensures Climb(h, leaves[SourceLeaf(i, |leaves|)], i, AuthPath(h, leaves, i)) == Root(h, leaves)
    decreases |leaves|
  {
    if |leaves| > 1 {
      var next := LevelUp(h, leaves);
      var path := AuthPath(h, leaves, i);
      JoinsToParent(h, leaves, i);
      Completeness(h, next, i / 2);
      var node := next[SourceLeaf(i / 2, |next|)];
      assert path[0] == Sibling(leaves, i) && path[1..] == AuthPath(h, next, i / 2);
      assert Climb(h, leaves[SourceLeaf(i, |leaves|)], i, path) == Climb(h, node, i / 2, path[1..]);
    }
  }

  // ----- Binding

  /** Where an accepted path and the tree's own part company: the two hashed pairs there. */
  function PathCollision<D(==)>(h: (D, D) -> D, leaves: seq<D>, leaf: D, i: nat, path: seq<D>): PairCollision<D>
    requires |leaves| > 1 && |path| == Depth(|leaves|)
    decreases |leaves|
  {
    var next := LevelUp(h, leaves);
    var k := SourceLeaf(i / 2, |next|);
    var node := Join(h, i, leaf, path[0]);
    if node == next[k] || |next| == 1 then
      PairCollision(if i % 2 == 0 then (leaf, path[0]) else (path[0], leaf),
                    (leaves[Child(|leaves|, k, false)], leaves[Child(|leaves|, k, true)]))
    else PathCollision(h, next, node, i / 2, path[1..])
  }

  /** A path of the right length that is accepted for any other leaf, at any index whatsoever,
      gives away a collision. */
  lemma {:induction false} Binding<D>(h: (D, D) -> D, leaves: seq<D>, leaf: D, i: nat, path: seq<D>)
    requires leaves != [] && |path| == Depth(|leaves|)
    requires Climb(h, leaf, i, path) == Root(h, leaves)
    ensures leaf != leaves[SourceLeaf(i, |leaves|)]
        ==> |leaves| > 1 && Collides(h, PathCollision(h, leaves, leaf, i, path))
    decreases |leaves|
  {
    if |leaves| > 1 {
      Binding(h, LevelUp(h, leaves), Join(h, i, leaf, path[0]), i / 2, path[1..]);
    }
  }

  /** An accepted path of the right length at an index in range proves that very leaf. */
  lemma InclusionIsExact<D>(h: (D, D) -> D, leaves: seq<D>, leaf: D, i: nat, path: seq<D>)
    requires i < |leaves| && |path| == Depth(|leaves|)
    ensures Climb(h, leaves[i], i, AuthPath(h, leaves, i)) == Root(h, leaves)
    ensures Climb(h, leaf, i, path) == Root(h, leaves) && leaf != leaves[i]
        ==> |leaves| > 1 && Collides(h, PathCollision(h, leaves, leaf, i, path))
  {
    Completeness(h, leaves, i);
    if Climb(h, leaf, i, path) == Root(h, leaves) { Binding(h, leaves, leaf, i, path); }
  }

  /** Positions 2j and 2j + 1 have their parent at position j of the level above. */
  lemma ParentOf<D>(h: (D, D) -> D, level: seq<D>, j: nat)
    requires |level| > 1
    ensures LevelUp(h, level)[SourceLeaf(j, (|level| + 1) / 2)]
         == h(level[SourceLeaf(2 * j, |level|)], level[SourceLeaf(2 * j + 1, |level|)])
  {
    assert (2 * j) / 2 == j && (2 * j + 1) / 2 == j;
    assert LevelUp(h, level)[SourceLeaf(j, (|level| + 1) / 2)] == Parent(h, level, SourceLeaf(j, (|level| + 1) / 2));
  }

  /** Two lists fill the complete tree of their common depth with the same leaves. */
  ghost predicate SameExpansion<D>(a: seq<D>, b: seq<D>)
    requires a != [] && b != []
  {
    forall i: nat :: i < Pow2(Depth(|a|)) ==> a[SourceLeaf(i, |a|)] == b[SourceLeaf(i, |b|)]
  }

  lemma {:induction false} SameExpansionSameRoot<D>(h: (D, D) -> D, a: seq<D>, b: seq<D>)
    requires a != [] && b != [] && Depth(|a|) == Depth(|b|) && SameExpansion(a, b)
    ensures Root(h, a) == Root(h, b)
    decreases |a|
  {
    if |a| == 1 {
      assert a[SourceLeaf(0, 1)] == b[SourceLeaf(0, 1)];
    } else {
      ExpansionsGoUp(h, a, b);
      SameExpansionSameRoot(h, LevelUp(h, a), LevelUp(h, b));
    }
  }

  lemma ExpansionsGoUp<D>(h: (D, D) -> D, a: seq<D>, b: seq<D>)
    requires |a| > 1 && |b| > 1 && Depth(|a|) == Depth(|b|) && SameExpansion(a, b)
    ensures SameExpansion(LevelUp(h, a), LevelUp(h, b))
  {
    var up, vp := LevelUp(h, a), LevelUp(h, b);
    assert Pow2(Depth(|a|)) == 2 * Pow2(Depth(|up|));
    forall j: nat | j < Pow2(Depth(|up|))
      ensures up[SourceLeaf(j, |up|)] == vp[SourceLeaf(j, |vp|)]
    {
      ParentOf(h, a, j);
      ParentOf(h, b, j);
      assert a[SourceLeaf(2 * j, |a|)] == b[SourceLeaf(2 * j, |b|)];
      assert a[SourceLeaf(2 * j + 1, |a|)] == b[SourceLeaf(2 * j + 1, |b|)];
    }
  }

  /** The pairs that collide if two lists have one root and differ at position `i`. */
  function ListCollision<D(==)>(h: (D, D) -> D, a: seq<D>, b: seq<D>, i: nat): PairCollision<D>
    requires |a| > 1 && b != [] && Depth(|a|) == Depth(|b|)
  {
    PathCollision(h, a, b[SourceLeaf(i, |b|)], i, AuthPath(h, b, i))
  }

  /** Lists of one depth have one root exactly when their expansions agree; any other coincidence
      is a collision at the position where they differ. */
  lemma RootsBindExpansions<D>(h: (D, D) -> D, a: seq<D>, b: seq<D>)
    requires a != [] && b != [] && Depth(|a|) == Depth(|b|)
    ensures SameExpansion(a, b) ==> Root(h, a) == Root(h, b)
    ensures Root(h, a) == Root(h, b)
        ==> forall i: nat :: a[SourceLeaf(i, |a|)] != b[SourceLeaf(i, |b|)]
              ==> |a| > 1 && Collides(h, ListCollision(h, a, b, i))
  {
    if SameExpansion(a, b) { SameExpansionSameRoot(h, a, b); }
    if Root(h, a) == Root(h, b) {
      forall i: nat | a[SourceLeaf(i, |a|)] != b[SourceLeaf(i, |b|)]
        ensures |a| > 1 && Collides(h, ListCollision(h, a, b, i))
      {
        Completeness(h, b, i);
        Binding(h, a, b[SourceLeaf(i, |b|)], i, AuthPath(h, b, i));
      }
    }
  }

  /** The first place where two lists of one length differ. */
  function FirstDifference<D(==)>(a: seq<D>, b: seq<D>): (i: nat)
    requires |a| == |b| && a != b
    ensures i < |a| && a[i] != b[i] && a[..i] == b[..i]
  {
    if a[0] != b[0] then 0
    else
      assert a == [a[0]] + a[1..] && b == [b[0]] + b[1..];
      1 + FirstDifference(a[1..], b[1..])
  }

  /** Equally long lists with one root are the same list, or the first difference gives away a
      collision. */
  lemma RootBindsLeaves<D>(h: (D, D) -> D, a: seq<D>, b: seq<D>)
    requires a != [] && |a| == |b| && Root(h, a) == Root(h, b)
    ensures a != b ==> |a| > 1 && Collides(h, ListCollision(h, a, b, FirstDifference(a, b)))
  {
    RootsBindExpansions(h, a, b);
  }

  lemma RepeatedParent<D>(h: (D, D) -> D, a: seq<D>, last: D, k: nat)
    requires |a| % 2 == 1 && last == a[|a| - 1] && 2 * k < |a|
    ensures Parent(h, a + [last], k) == Parent(h, a, k)
  {
    assert 2 * k + 1 < |a| || 2 * k == |a| - 1;
  }

  lemma RepeatedLevelUp<D>(h: (D, D) -> D, a: seq<D>, last: D)
    requires |a| % 2 == 1 && last == a[|a| - 1]
    ensures LevelUp(h, a + [last]) == LevelUp(h, a)
  {
    var up, vp := LevelUp(h, a + [last]), LevelUp(h, a);
    assert |up| == |vp|;
    forall k | 0 <= k < |up|
      ensures up[k] == vp[k]
    {
      RepeatedParent(h, a, last, k);
    }
  }

  /** The length has to be known: repeating the last leaf of an odd list leaves the root as it is. */
  lemma OddListsRepeat<D>(h: (D, D) -> D, a: seq<D>)
    requires |a| % 2 == 1 && |a| > 1
    ensures Root(h, a + [a[|a| - 1]]) == Root(h, a)
  {
    RepeatedLevelUp(h, a, a[|a| - 1]);
    assert Root(h, a + [a[|a| - 1]]) == Root(h, LevelUp(h, a));
  }

  // ----- Lists of different depths

  /** The level that stands `n` levels above `level`. */
  function Raised<D>(h: (D, D) -> D, level: seq<D>, n: nat): (raised: seq<D>)
    requires level != [] && n <= Depth(|level|)
    ensures raised != [] && Depth(|raised|) == Depth(|level|) - n
    decreases n
  {
    if n == 0 then level else Raised(h, LevelUp(h, level), n - 1)
  }

  function CommonDepth(m: nat, n: nat): (d: nat)
    requires m > 0 && n > 0
    ensures d <= Depth(m) && d <= Depth(n)
  {
    if Depth(m) <= Depth(n) then Depth(m) else Depth(n)
  }

  function AtDepth<D>(h: (D, D) -> D, level: seq<D>, d: nat): (raised: seq<D>)
    requires level != [] && d <= Depth(|level|)
    ensures raised != [] && Depth(|raised|) == d
  {
    Raised(h, level, Depth(|level|) - d)
  }

  lemma {:induction false} RaisedRoot<D>(h: (D, D) -> D, level: seq<D>, n: nat)
    requires level != [] && n <= Depth(|level|)
    ensures Root(h, Raised(h, level, n)) == Root(h, level)
    decreases n
  {
    if n > 0 { RaisedRoot(h, LevelUp(h, level), n - 1); }
  }

  /** Wherever the expansions differ, the difference gives away a collision. */
  ghost predicate DifferencesCollide<D>(h: (D, D) -> D, a: seq<D>, b: seq<D>)
    requires a != [] && b != [] && Depth(|a|) == Depth(|b|)
  {
    forall i: nat :: a[SourceLeaf(i, |a|)] != b[SourceLeaf(i, |b|)] ==>
      |a| > 1 && Collides(h, ListCollision(h, a, b, i))
  }

  /** `a` and `b` have one root if the expansions of `va` and `vb` agree, and any difference between
      these under one root is a collision. */
  ghost predicate BoundBy<D>(h: (D, D) -> D, a: seq<D>, b: seq<D>, va: seq<D>, vb: seq<D>)
    requires a != [] && b != [] && va != [] && vb != [] && Depth(|va|) == Depth(|vb|)
  {
    && (SameExpansion(va, vb) ==> Root(h, a) == Root(h, b))
    && (Root(h, a) == Root(h, b) ==> DifferencesCollide(h, va, vb))
  }

  /** Lists of any two lengths are bound once the deeper one is raised to the depth of the other. */
  lemma RootsBindAnyLengths<D>(h: (D, D) -> D, a: seq<D>, b: seq<D>, d: nat)
    requires a != [] && b != [] && d == CommonDepth(|a|, |b|)
    ensures BoundBy(h, a, b, AtDepth(h, a, d), AtDepth(h, b, d))
  {
    RaisedRoot(h, a, Depth(|a|) - d);
    RaisedRoot(h, b, Depth(|b|) - d);
    BoundByRaised(h, a, b, AtDepth(h, a, d), AtDepth(h, b, d));
  }

  lemma BoundByRaised<D>(h: (D, D) -> D, a: seq<D>, b: seq<D>, va: seq<D>, vb: seq<D>)
    requires a != [] && b != [] && va != [] && vb != [] && Depth(|va|) == Depth(|vb|)
    requires Root(h, va) == Root(h, a) && Root(h, vb) == Root(h, b)
    ensures BoundBy(h, a, b, va, vb)
  {
    OneDepthBinds(h, va, vb);
  }

  lemma OneDepthBinds<D>(h: (D, D) -> D, a: seq<D>, b: seq<D>)
    requires a != [] && b != [] && Depth(|a|) == Depth(|b|)
    ensures SameExpansion(a, b) ==> Root(h, a) == Root(h, b)
    ensures Root(h, a) == Root(h, b) ==> DifferencesCollide(h, a, b)
  {
    RootsBindExpansions(h, a, b);
  }

  /** For lists of one length the expansions agree only if the lists do. */
  lemma SameLengthSameExpansion<D>(a: seq<D>, b: seq<D>)
    requires a != [] && |a| == |b|
    ensures SameExpansion(a, b) <==> a == b
  {
    if SameExpansion(a, b) {
      DepthIsCeilLog2(|a|);
      forall i: nat | i < |a|
        ensures a[i] == b[i]
      {
        assert a[SourceLeaf(i, |a|)] == b[SourceLeaf(i, |b|)];
      }
    }
  }

  predicate SameLeaf<D(==)>(a: seq<D>, b: seq<D>, i: nat)
    requires a != [] && b != []
  {
    a[SourceLeaf(i, |a|)] == b[SourceLeaf(i, |b|)]
  }

  /** The first of the first `n` positions at which the expansions differ, or `n`. */
  function ExpansionDifference<D(==)>(a: seq<D>, b: seq<D>, n: nat): (i: nat)
    requires a != [] && b != []
    ensures i <= n && (i < n ==> !SameLeaf(a, b, i))
    ensures i == n ==> forall j: nat :: j < n ==> SameLeaf(a, b, j)
  {
    if n == 0 then 0
    else
      var i := ExpansionDifference(a, b, n - 1);
      if i < n - 1 || !SameLeaf(a, b, n - 1) then i else n
  }

  ghost predicate AllSame<D>(level: seq<D>, x: D) { forall i :: 0 <= i < |level| ==> level[i] == x }

  lemma {:induction false} RaisedAllSame<D>(h: (D, D) -> D, level: seq<D>, x: D, n: nat) returns (y: D)
    requires level != [] && n <= Depth(|level|) && AllSame(level, x)
    ensures AllSame(Raised(h, level, n), y)
    decreases n
  {
    if n == 0 {
      y := x;
    } else {
      assert AllSame(LevelUp(h, level), h(x, x));
      y := RaisedAllSame(h, LevelUp(h, level), h(x, x), n - 1);
    }
  }

  lemma DeeperSharesRoot<D>(h: (D, D) -> D, x: D, m: nat, n: nat) returns (a: seq<D>, b: seq<D>)
    requires m > 0 && n > 0 && Depth(n) <= Depth(m)
    ensures |a| == m && |b| == n && Root(h, a) == Root(h, b)
  {
    a := seq(m, _ => x);
    var y := RaisedAllSame(h, a, x, Depth(m) - Depth(n));
    b := seq(n, _ => y);
    RaisedRoot(h, a, Depth(m) - Depth(n));
    OneDepthBinds(h, Raised(h, a, Depth(m) - Depth(n)), b);
  }

  /** Whatever the hash, lists of any two lengths can have one root: without its length a root does
      not bind a list. */
  lemma AnyLengthsShareRoot<D>(h: (D, D) -> D, x: D, m: nat, n: nat) returns (a: seq<D>, b: seq<D>)
    requires m > 0 && n > 0
    ensures |a| == m && |b| == n && Root(h, a) == Root(h, b)
  {
    if Depth(n) <= Depth(m) {
      a, b := DeeperSharesRoot(h, x, m, n);
    } else {
      b, a := DeeperSharesRoot(h, x, n, m);
    }
  }
}
