/** What the Python files use `np.argsort` and `np.argmax` for. The sorting routine is a parameter:
    it may break ties in any way. */
module Ranking {

  /** Every index below `n` exactly once. */
  ghost predicate IsPermutation(order: seq<nat>, n: nat) {
    && |order| == n
    && (forall a :: 0 <= a < n ==> order[a] < n)
    && (forall a, b :: 0 <= a < b < n ==> order[a] != order[b])
    && (forall t: nat :: t < n ==> t in order)
  }

  /** `order` sorts `scores` from the highest to the lowest. */
  ghost predicate Ranks(order: seq<nat>, scores: seq<real>) {
    && IsPermutation(order, |scores|)
    && forall a, b :: 0 <= a <= b < |order| ==> scores[order[a]] >= scores[order[b]]
  }

  /** `scores -> np.argsort(-scores)`. */
  type Sorter = seq<real> -> seq<nat>

  ghost predicate IsSorter(sorter: Sorter) {
    forall scores: seq<real> :: Ranks(sorter(scores), scores)
  }

  /** The place of `t`: `np.where(order == t)[0][0]`. */
  function RankOf(order: seq<nat>, t: nat): (rank: nat)
    requires t in order
    ensures rank < |order| && order[rank] == t && t !in order[..rank]
  {
    if order[0] == t then 0
    else
      assert order == [order[0]] + order[1..];
      1 + RankOf(order[1..], t)
  }

  /** The first index of a maximal score: `np.argmax`. */
  ghost predicate IsArgMax(scores: seq<real>, t: nat) {
    && t < |scores|
    && (forall u :: 0 <= u < |scores| ==> scores[u] <= scores[t])
    && (forall u :: 0 <= u < t ==> scores[u] < scores[t])
  }

  /** `np.argmax` on a non-empty array. */
  type Picker = seq<real> -> nat

  ghost predicate IsPicker(picker: Picker) {
    forall scores: seq<real> :: scores != [] ==> IsArgMax(scores, picker(scores))
  }

  /** The best-ranked index has a maximal score. */
  lemma TopScoreIsMaximal(order: seq<nat>, scores: seq<real>, t: nat)
    requires Ranks(order, scores) && t < |scores|
    ensures scores[order[0]] >= scores[t]
  {
    assert t in order;
    var a :| 0 <= a < |order| && order[a] == t;
    assert scores[order[0]] >= scores[order[a]];
  }

  lemma {:induction false} DistinctCount(order: seq<nat>, k: nat, within: set<nat>)
    requires k <= |order| && forall a, b :: 0 <= a < b < |order| ==> order[a] != order[b]
    requires forall a :: 0 <= a < k ==> order[a] in within
    ensures k <= |within|
  {
    if k > 0 { DistinctCount(order, k - 1, within - {order[k - 1]}); }
  }

  lemma {:induction false} CountWithin(part: set<nat>, list: seq<nat>)
    requires forall u :: u in part ==> u in list
    ensures |part| <= |list|
    decreases |list|
  {
    if list != [] {
      CountWithin(part - {list[0]}, list[1..]);
      assert part <= (part - {list[0]}) + {list[0]};
    } else {
      assert part == {};
    }
  }

  /** The indices with a score above `x`, and those with a score of at least `x`. */
  ghost function Above(scores: seq<real>, x: real): set<nat> { set t: nat | t < |scores| && scores[t] > x }

  ghost function AtLeast(scores: seq<real>, x: real): set<nat> { set t: nat | t < |scores| && scores[t] >= x }

  /** A place in the order lies between the number of better indices and that of indices as good. */
  lemma PlaceCounts(order: seq<nat>, scores: seq<real>, k: nat)
    requires Ranks(order, scores) && k < |order|
    ensures |Above(scores, scores[order[k]])| <= k < |AtLeast(scores, scores[order[k]])|
  {
    var x := scores[order[k]];
    assert forall b :: k <= b < |order| ==> scores[order[b]] <= x;
    assert forall b :: 0 <= b <= k ==> order[b] in AtLeast(scores, x);
    DistinctCount(order, k + 1, AtLeast(scores, x));
    forall u | u in Above(scores, x)
      ensures u in order[..k]
    {
      assert u in order;
      var a :| 0 <= a < |order| && order[a] == u;
      assert a < k;
      assert order[..k][a] == u;
    }
    CountWithin(Above(scores, x), order[..k]);
  }
}
