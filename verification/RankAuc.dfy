/** The area under the ROC curve from rank sums with tie correction, computed once in Python
    (calibration.py) and once in Rust (tap_reader/src/bin/sim_gateway_sampling.rs), and what it
    means: the share of pairs that are ordered correctly, ties counting one half. */
module RankAuc {
  import opened Ranking

  // ----- The meaning

  /** One pair: a positive score `p` against a negative score `n`. */
  function Win(p: real, n: real): real { if p > n then 1.0 else if p == n then 0.5 else 0.0 }

  function Wins(p: real, scores: seq<real>): real {
    if scores == [] then 0.0 else Win(p, scores[0]) + Wins(p, scores[1..])
  }

  function PairWins(pos: seq<real>, neg: seq<real>): real {
    if pos == [] then 0.0 else Wins(pos[0], neg) + PairWins(pos[1..], neg)
  }

  /** The share of correctly ordered pairs. */
  function PairAuc(pos: seq<real>, neg: seq<real>): real {
    if pos == [] || neg == [] then 0.5 else PairWins(pos, neg) / ((|pos| * |neg|) as real)
  }

  // ----- Sums of pairs

  /** The places below `n` whose score satisfies `q`. */
  ghost function Matching(q: real -> bool, scores: seq<real>, n: nat): set<nat>
    requires n <= |scores|
  {
    set j: nat | j < n && q(scores[j])
  }

  lemma OneMoreMatch(q: real -> bool, scores: seq<real>, n: nat)
    requires n < |scores|
    ensures |Matching(q, scores, n + 1)| == |Matching(q, scores, n)| + if q(scores[n]) then 1 else 0
  {
    assert Matching(q, scores, n + 1) == Matching(q, scores, n) + if q(scores[n]) then {n} else {};
  }

  lemma OneMoreWin(p: real, scores: seq<real>, n: nat)
    requires n < |scores|
    ensures Wins(p, scores[..n + 1]) == Wins(p, scores[..n]) + Win(p, scores[n])
  {
    assert scores[..n + 1] == scores[..n] + [scores[n]];
    WinsAppend(p, scores[..n], [scores[n]]);
    assert Wins(p, [scores[n]]) == Win(p, scores[n]) + Wins(p, []);
  }

  /** The wins of `p` are the scores below it and half of those equal to it. */
  lemma {:induction false} WinsAreCounts(p: real, scores: seq<real>, n: nat)
    requires n <= |scores|
    ensures Wins(p, scores[..n])
         == (|Matching(x => x < p, scores, n)| as real) + (|Matching(x => x == p, scores, n)| as real) / 2.0
  {
    if n > 0 {
      WinsAreCounts(p, scores, n - 1);
      OneMoreWin(p, scores, n - 1);
      OneMoreMatch(x => x < p, scores, n - 1);
      OneMoreMatch(x => x == p, scores, n - 1);
    }
  }

  /** The statistic times the number of pairs is the sum of the wins, and 0.5 stands for no pairs. */
  lemma AucTimesPairs(pos: seq<real>, neg: seq<real>)
    ensures pos == [] || neg == [] ==> PairAuc(pos, neg) == 0.5
    ensures pos != [] && neg != [] ==> PairAuc(pos, neg) * ((|pos| * |neg|) as real) == PairWins(pos, neg)
  {
    if pos != [] && neg != [] {
      assert |pos| * |neg| > 0;
      QuotientTimesBack(PairWins(pos, neg), (|pos| * |neg|) as real);
    }
  }

  lemma QuotientTimesBack(x: real, d: real)
    requires d > 0.0
    ensures x / d * d == x
  {
  }

  lemma {:induction false} WinsAppend(p: real, a: seq<real>, b: seq<real>)
    ensures Wins(p, a + b) == Wins(p, a) + Wins(p, b)
  {
    if a == [] {
      assert a + b == b;
    } else {
      assert (a + b)[1..] == a[1..] + b;
      WinsAppend(p, a[1..], b);
    }
  }

  lemma {:induction false} PairWinsAppend(pos: seq<real>, a: seq<real>, b: seq<real>)
    ensures PairWins(pos, a + b) == PairWins(pos, a) + PairWins(pos, b)
  {
    if pos != [] {
      WinsAppend(pos[0], a, b);
      PairWinsAppend(pos[1..], a, b);
    }
  }

  /** The wins of one score against others and of the others against it make up all pairs. */
  lemma {:induction false} WinsComplement(p: real, scores: seq<real>)
    ensures Wins(p, scores) + PairWins(scores, [p]) == |scores| as real
  {
    if scores != [] {
      WinsComplement(p, scores[1..]);
      assert Wins(scores[0], [p]) == Win(scores[0], p) + Wins(scores[0], []);
    }
  }

  lemma {:induction false} PairWinsComplement(a: seq<real>, b: seq<real>)
    ensures PairWins(a, b) + PairWins(b, a) == (|a| * |b|) as real
  {
    if a == [] {
      NobodyToBeat(b);
    } else {
      PairWinsComplement(a[1..], b);
      WinsComplement(a[0], b);
      PairWinsAppend(b, [a[0]], a[1..]);
      assert [a[0]] + a[1..] == a;
      assert |a| * |b| == |b| + |a[1..]| * |b|;
    }
  }

  lemma {:induction false} NobodyToBeat(pos: seq<real>)
    ensures PairWins(pos, []) == 0.0
  {
    if pos != [] { NobodyToBeat(pos[1..]); }
  }

  lemma {:induction false} PairWinsNotNegative(pos: seq<real>, neg: seq<real>)
    ensures PairWins(pos, neg) >= 0.0
  {
    if pos != [] {
      WinsNotNegative(pos[0], neg);
      PairWinsNotNegative(pos[1..], neg);
    }
  }

  lemma {:induction false} WinsNotNegative(p: real, scores: seq<real>)
    ensures Wins(p, scores) >= 0.0
  {
    if scores != [] { WinsNotNegative(p, scores[1..]); }
  }

  // ----- Order does not matter

  function Without<T>(s: seq<T>, j: nat): seq<T>
    requires j < |s|
  {
    s[..j] + s[j + 1..]
  }

  lemma OneBack<T>(s: seq<T>, j: nat)
    requires j < |s|
    ensures s == s[..j] + [s[j]] + s[j + 1..]
    ensures multiset(s) == multiset(Without(s, j)) + multiset{s[j]}
  {
    assert s == s[..j] + [s[j]] + s[j + 1..];
  }

  lemma TakesOut<T>(a: seq<T>, b: seq<T>) returns (j: nat)
    requires a != [] && multiset(a) == multiset(b)
    ensures j < |b| && b[j] == a[0] && multiset(a[1..]) == multiset(Without(b, j))
    ensures b == b[..j] + [b[j]] + b[j + 1..]
  {
    assert a[0] in multiset(b);
    j :| 0 <= j < |b| && b[j] == a[0];
    OneBack(a, 0);
    OneBack(b, j);
    assert Without(a, 0) == a[1..];
    CancelOne(multiset(a[1..]), multiset(Without(b, j)), a[0]);
  }

  lemma CancelOne<T>(m: multiset<T>, n: multiset<T>, x: T)
    requires m + multiset{x} == n + multiset{x}
    ensures m == n
  {
    assert m == (m + multiset{x}) - multiset{x};
    assert n == (n + multiset{x}) - multiset{x};
  }

  lemma {:induction false} WinsPermuted(p: real, a: seq<real>, b: seq<real>)
    requires multiset(a) == multiset(b)
    ensures Wins(p, a) == Wins(p, b)
  {
    if a == [] {
      assert |multiset(b)| == |b|;
      assert |multiset(a)| == |a|;
    } else {
      var j := TakesOut(a, b);
      WinsPermuted(p, a[1..], Without(b, j));
      WinsAppend(p, b[..j], b[j + 1..]);
      WinsAppend(p, b[..j] + [b[j]], b[j + 1..]);
      WinsAppend(p, b[..j], [b[j]]);
      assert Wins(p, [b[j]]) == Win(p, b[j]) + Wins(p, []);
    }
  }

  lemma {:induction false} PairWinsOfJoined(a: seq<real>, b: seq<real>, neg: seq<real>)
    ensures PairWins(a + b, neg) == PairWins(a, neg) + PairWins(b, neg)
  {
    if a == [] {
      assert a + b == b;
    } else {
      assert (a + b)[1..] == a[1..] + b;
      PairWinsOfJoined(a[1..], b, neg);
    }
  }

  lemma {:induction false} PairWinsPermuted(pos: seq<real>, pos': seq<real>, neg: seq<real>, neg': seq<real>)
    requires multiset(pos) == multiset(pos') && multiset(neg) == multiset(neg')
    ensures PairWins(pos, neg) == PairWins(pos', neg')
    decreases |pos|
  {
    assert |multiset(pos)| == |pos| && |multiset(pos')| == |pos'|;
    if pos != [] {
      var j := TakesOut(pos, pos');
      PairWinsPermuted(pos[1..], Without(pos', j), neg, neg');
      WinsPermuted(pos[0], neg, neg');
      PairWinsOfJoined(pos'[..j], pos'[j + 1..], neg');
      PairWinsOfJoined(pos'[..j] + [pos'[j]], pos'[j + 1..], neg');
      PairWinsOfJoined(pos'[..j], [pos'[j]], neg');
      assert PairWins([pos'[j]], neg') == Wins(pos'[j], neg') + PairWins([], neg');
    }
  }

  /** Only which scores are on which side matters, not their order. */
  lemma AucIgnoresOrder(pos: seq<real>, pos': seq<real>, neg: seq<real>, neg': seq<real>)
    requires multiset(pos) == multiset(pos') && multiset(neg) == multiset(neg')
    ensures PairAuc(pos, neg) == PairAuc(pos', neg')
  {
    assert |multiset(pos)| == |pos| && |multiset(pos')| == |pos'|;
    assert |multiset(neg)| == |neg| && |multiset(neg')| == |neg'|;
    PairWinsPermuted(pos, pos', neg, neg');
  }

  lemma QuotientInUnit(x: real, d: real)
    requires 0.0 <= x <= d && d > 0.0
    ensures 0.0 <= x / d <= 1.0
  {
  }

  lemma QuotientsAdd(x: real, y: real, d: real)
    requires d > 0.0 && x + y == d
    ensures x / d + y / d == 1.0
  {
    assert x / d + y / d == (x + y) / d;
  }

  /** It is a share, and exchanging the two sides gives the complementary one. */
  lemma AucIsShare(pos: seq<real>, neg: seq<real>)
    ensures 0.0 <= PairAuc(pos, neg) <= 1.0
    ensures PairAuc(pos, neg) + PairAuc(neg, pos) == 1.0
  {
    if pos != [] && neg != [] {
      PairWinsComplement(pos, neg);
      PairWinsNotNegative(pos, neg);
      PairWinsNotNegative(neg, pos);
      assert |pos| * |neg| == |neg| * |pos| > 0;
      QuotientInUnit(PairWins(pos, neg), (|pos| * |neg|) as real);
      QuotientsAdd(PairWins(pos, neg), PairWins(neg, pos), (|pos| * |neg|) as real);
    }
  }

  // ----- Ranks

  /** The tie-corrected rank of a score among `all`. */
  function MidRank(v: real, all: seq<real>): real { Wins(v, all) + 0.5 }

  function RankSum(pos: seq<real>, all: seq<real>): real {
    if pos == [] then 0.0 else MidRank(pos[0], all) + RankSum(pos[1..], all)
  }

  lemma {:induction false} RankSumIsPairWins(pos: seq<real>, all: seq<real>)
    ensures RankSum(pos, all) == PairWins(pos, all) + (|pos| as real) / 2.0
  {
    if pos != [] { RankSumIsPairWins(pos[1..], all); }
  }

  /** The rank-sum formula counts the pairs. */
  lemma RankSumFormula(pos: seq<real>, neg: seq<real>, all: seq<real>)
    requires multiset(all) == multiset(pos + neg)
    ensures RankSum(pos, all) - ((|pos| * (|pos| + 1)) as real) / 2.0 == PairWins(pos, neg)
  {
    RankSumIsPairWins(pos, all);
    PairWinsPermuted(pos, pos, all, pos + neg);
    PairWinsAppend(pos, pos, neg);
    PairWinsComplement(pos, pos);
    assert |pos| * (|pos| + 1) == |pos| * |pos| + |pos|;
  }

  predicate Ascending(s: seq<real>) { forall i, j :: 0 <= i <= j < |s| ==> s[i] <= s[j] }

  lemma {:induction false} WinsAgainstLower(v: real, s: seq<real>)
    requires forall i :: 0 <= i < |s| ==> s[i] < v
    ensures Wins(v, s) == |s| as real
  {
    if s != [] { WinsAgainstLower(v, s[1..]); }
  }

  lemma {:induction false} WinsAgainstHigher(v: real, s: seq<real>)
    requires forall i :: 0 <= i < |s| ==> s[i] > v
    ensures Wins(v, s) == 0.0
  {
    if s != [] { WinsAgainstHigher(v, s[1..]); }
  }

  lemma {:induction false} WinsAgainstEqual(v: real, s: seq<real>)
    requires forall i :: 0 <= i < |s| ==> s[i] == v
    ensures Wins(v, s) == (|s| as real) / 2.0
  {
    if s != [] { WinsAgainstEqual(v, s[1..]); }
  }

  /** `sorted[i..j + 1]` is a complete block of equal scores. */
  ghost predicate TiedBlock(sorted: seq<real>, i: nat, j: nat) {
    && i <= j < |sorted|
    && (forall r :: 0 <= r < i ==> sorted[r] < sorted[i])
    && (forall r :: i <= r <= j ==> sorted[r] == sorted[i])
    && (forall r :: j < r < |sorted| ==> sorted[r] > sorted[i])
  }

  /** The mean of the first and the last position of a tied block is the mid-rank. */
  lemma BlockRank(sorted: seq<real>, i: nat, j: nat)
    requires TiedBlock(sorted, i, j)
    ensures MidRank(sorted[i], sorted) == (((i + 1) + (j + 1)) as real) / 2.0
  {
    var v, low, block, high := sorted[i], sorted[..i], sorted[i..j + 1], sorted[j + 1..];
    assert sorted == low + block + high;
    WinsAppend(v, low + block, high);
    WinsAppend(v, low, block);
    WinsAgainstLower(v, low);
    WinsAgainstEqual(v, block);
    WinsAgainstHigher(v, high);
  }

  lemma BlockFound(sorted: seq<real>, i: nat, j: nat)
    requires Ascending(sorted) && i <= j < |sorted|
    requires i > 0 ==> sorted[i - 1] < sorted[i]
    requires forall r :: i <= r <= j ==> sorted[r] == sorted[i]
    requires j + 1 < |sorted| ==> sorted[j + 1] != sorted[i]
    ensures TiedBlock(sorted, i, j)
    ensures j + 1 < |sorted| ==> sorted[j] < sorted[j + 1]
  {
    if i > 0 { assert forall r :: 0 <= r < i ==> sorted[r] <= sorted[i - 1]; }
    if j + 1 < |sorted| { assert forall r :: j < r < |sorted| ==> sorted[j + 1] <= sorted[r]; }
  }

  /** Extends the block of equal scores that starts at `i` as far as it goes. */
  method BlockEnd(sorted: seq<real>, i: nat) returns (j: nat)
    requires Ascending(sorted) && i < |sorted| && (i > 0 ==> sorted[i - 1] < sorted[i])
    ensures TiedBlock(sorted, i, j) && (j + 1 < |sorted| ==> sorted[j] < sorted[j + 1])
  {
    j := i;
    while j + 1 < |sorted| && sorted[j + 1] == sorted[i]
      invariant i <= j < |sorted| && forall r :: i <= r <= j ==> sorted[r] == sorted[i]
    {
      j := j + 1;
    }
    BlockFound(sorted, i, j);
  }

  // ----- The Rust implementation

  type Labelled = (real, bool)

  function ScoresOf(xs: seq<Labelled>): (scores: seq<real>)
    ensures |scores| == |xs|
  {
    seq(|xs|, i requires 0 <= i < |xs| => xs[i].0)
  }

  /** The scores that carry `side`. */
  function Side(xs: seq<Labelled>, side: bool): seq<real> {
    if xs == [] then []
    else (if xs[0].1 == side then [xs[0].0] else []) + Side(xs[1..], side)
  }

  lemma {:induction false} SideAppend(a: seq<Labelled>, b: seq<Labelled>, side: bool)
    ensures Side(a + b, side) == Side(a, side) + Side(b, side)
  {
    if a == [] {
      assert a + b == b;
    } else {
      var head := if a[0].1 == side then [a[0].0] else [];
      assert (a + b)[1..] == a[1..] + b;
      SideAppend(a[1..], b, side);
      assert Side(a + b, side) == head + Side(a[1..] + b, side);
      assert head + (Side(a[1..], side) + Side(b, side)) == (head + Side(a[1..], side)) + Side(b, side);
    }
  }

  lemma {:induction false} SidePermuted(a: seq<Labelled>, b: seq<Labelled>, side: bool)
    requires multiset(a) == multiset(b)
    ensures multiset(Side(a, side)) == multiset(Side(b, side))
  {
    assert |multiset(a)| == |a| && |multiset(b)| == |b|;
    if a != [] {
      var j := TakesOut(a, b);
      SidePermuted(a[1..], Without(b, j), side);
      SideAppend(b[..j], b[j + 1..], side);
      SideAppend(b[..j] + [b[j]], b[j + 1..], side);
      SideAppend(b[..j], [b[j]], side);
      assert Side([b[j]], side) == if b[j].1 == side then [b[j].0] else [];
    }
  }

  lemma ScoresUnfold(xs: seq<Labelled>)
    requires xs != []
    ensures multiset(ScoresOf(xs)) == multiset([xs[0].0]) + multiset(ScoresOf(xs[1..]))
  {
    assert ScoresOf(xs) == [xs[0].0] + ScoresOf(xs[1..]);
  }

  lemma Inserted(a: seq<real>, x: real, b: seq<real>)
    ensures multiset(([x] + a) + ([] + b)) == multiset([x]) + multiset(a + b)
    ensures multiset(([] + a) + ([x] + b)) == multiset([x]) + multiset(a + b)
  {
  }

  lemma {:induction false} SidesMakeAll(xs: seq<Labelled>)
    ensures multiset(ScoresOf(xs)) == multiset(Side(xs, true) + Side(xs, false))
    ensures |Side(xs, true)| + |Side(xs, false)| == |xs|
  {
    if xs != [] {
      SidesMakeAll(xs[1..]);
      ScoresUnfold(xs);
      Inserted(Side(xs[1..], true), xs[0].0, Side(xs[1..], false));
    }
  }

  /** `ranks.iter().zip(..).filter(..).sum()`. */
  function LabelledRankSum(ranks: seq<real>, xs: seq<Labelled>): real
    requires |ranks| == |xs|
  {
    if xs == [] then 0.0 else (if xs[0].1 then ranks[0] else 0.0) + LabelledRankSum(ranks[1..], xs[1..])
  }

  lemma {:induction false} LabelledRankSumMeaning(ranks: seq<real>, xs: seq<Labelled>, all: seq<real>)
    requires |ranks| == |xs| && forall i :: 0 <= i < |xs| ==> ranks[i] == MidRank(xs[i].0, all)
    ensures LabelledRankSum(ranks, xs) == RankSum(Side(xs, true), all)
  {
    if xs != [] {
      LabelledRankSumMeaning(ranks[1..], xs[1..], all);
      if xs[0].1 {
        assert Side(xs, true)[1..] == Side(xs[1..], true);
      } else {
        assert Side(xs, true) == Side(xs[1..], true);
      }
    }
  }

  function AucFormula(rankSum: real, nPos: nat, nNeg: nat): real
    requires nPos > 0 && nNeg > 0
  {
    (rankSum - ((nPos * (nPos + 1)) as real) / 2.0) / ((nPos * nNeg) as real)
  }

  lemma FormulaIsShare(pos: seq<real>, neg: seq<real>, all: seq<real>)
    requires multiset(all) == multiset(pos + neg) && pos != [] && neg != []
    ensures AucFormula(RankSum(pos, all), |pos|, |neg|) == PairAuc(pos, neg)
  {
    RankSumFormula(pos, neg, all);
  }

  /** Sorts its argument in place; `sorted` stands for what the library's sort leaves. */
  method AucInPlace(scoresLabels: array<Labelled>, sorted: seq<Labelled>) returns (auc: real)
    requires multiset(sorted) == multiset(scoresLabels[..]) && Ascending(ScoresOf(sorted))
    modifies scoresLabels
    ensures scoresLabels[..] == sorted
    ensures auc == PairAuc(Side(old(scoresLabels[..]), true), Side(old(scoresLabels[..]), false))
  {
    SortingIsIrrelevant(scoresLabels[..], sorted);
    forall i | 0 <= i < scoresLabels.Length { scoresLabels[i] := sorted[i]; }
    assert scoresLabels[..] == sorted;
    auc := AucOfSorted(sorted);
  }

  lemma SortingIsIrrelevant(given: seq<Labelled>, sorted: seq<Labelled>)
    requires multiset(sorted) == multiset(given)
    ensures |sorted| == |given|
    ensures PairAuc(Side(given, true), Side(given, false)) == PairAuc(Side(sorted, true), Side(sorted, false))
  {
    assert |multiset(sorted)| == |sorted| && |multiset(given)| == |given|;
    SidePermuted(given, sorted, true);
    SidePermuted(given, sorted, false);
    AucIgnoresOrder(Side(given, true), Side(sorted, true), Side(given, false), Side(sorted, false));
  }

  /** Everything behind the sort. */
  method AucOfSorted(sorted: seq<Labelled>) returns (auc: real)
    requires Ascending(ScoresOf(sorted))
    ensures auc == PairAuc(Side(sorted, true), Side(sorted, false))
  {
    var ranks := RanksOfSorted(ScoresOf(sorted));
    var n := |sorted|;
    var nPos := |Side(sorted, true)|;
    var nNeg := n - nPos;
    SidesMakeAll(sorted);
    if nPos == 0 || nNeg == 0 { return 0.5; }
    LabelledRankSumMeaning(ranks[..], sorted, ScoresOf(sorted));
    FormulaIsShare(Side(sorted, true), Side(sorted, false), ScoresOf(sorted));
    auc := AucFormula(LabelledRankSum(ranks[..], sorted), nPos, nNeg);
  }

  /** The ranks of already sorted scores, block by block. */
  method RanksOfSorted(sorted: seq<real>) returns (ranks: array<real>)
    requires Ascending(sorted)
    ensures fresh(ranks) && ranks.Length == |sorted|
    ensures forall r :: 0 <= r < |sorted| ==> ranks[r] == MidRank(sorted[r], sorted)
  {
    var n := |sorted|;
    ranks := new real[n](_ => 0.0);
    var i := 0;
    while i < n
      invariant i <= n && (0 < i < n ==> sorted[i - 1] < sorted[i])
      invariant forall r :: 0 <= r < i ==> ranks[r] == MidRank(sorted[r], sorted)
    {
      var j := BlockEnd(sorted, i);
      var avgRank := (((i + 1) + (j + 1)) as real) / 2.0;
      BlockRank(sorted, i, j);
      for r := i to j + 1
        invariant forall q :: 0 <= q < i ==> ranks[q] == MidRank(sorted[q], sorted)
        invariant forall q :: i <= q < r ==> ranks[q] == avgRank
      {
        ranks[r] := avgRank;
      }
      i := j + 1;
    }
  }

  // ----- The Python implementation

  /** `np.argsort`, ascending, with ties in any order. */
  ghost predicate Sorts(order: seq<nat>, scores: seq<real>) {
    IsPermutation(order, |scores|) && forall a, b :: 0 <= a <= b < |order| ==> scores[order[a]] <= scores[order[b]]
  }

  function Permuted<T>(order: seq<nat>, xs: seq<T>): (ys: seq<T>)
    requires forall a :: 0 <= a < |order| ==> order[a] < |xs|
    ensures |ys| == |order|
  {
    seq(|order|, a requires 0 <= a < |order| => xs[order[a]])
  }

  lemma PermutedWithout<T>(order: seq<nat>, xs: seq<T>, j: nat)
    requires IsPermutation(order, |xs|) && j < |order| && order[j] == |xs| - 1
    ensures IsPermutation(Without(order, j), |xs| - 1)
    ensures Permuted(Without(order, j), xs[..|xs| - 1]) == Without(Permuted(order, xs), j)
  {
    WithoutLast(order, |xs|, j);
    var ys, zs := Permuted(Without(order, j), xs[..|xs| - 1]), Without(Permuted(order, xs), j);
    assert |ys| == |zs|;
    forall k | 0 <= k < |ys|
      ensures ys[k] == zs[k]
    {
      assert Without(order, j)[k] == if k < j then order[k] else order[k + 1];
    }
  }

  lemma {:induction false} PermutedMultiset<T>(order: seq<nat>, xs: seq<T>)
    requires IsPermutation(order, |xs|)
    ensures multiset(Permuted(order, xs)) == multiset(xs)
    decreases |xs|
  {
    if xs == [] {
      assert Permuted(order, xs) == xs;
    } else {
      var n := |xs|;
      var j := PlaceOf(order, n, n - 1);
      PermutedWithout(order, xs, j);
      PermutedMultiset(Without(order, j), xs[..n - 1]);
      LastBack(Permuted(order, xs), j, xs);
    }
  }

  lemma PlaceOf(order: seq<nat>, n: nat, t: nat) returns (j: nat)
    requires IsPermutation(order, n) && t < n
    ensures j < |order| && order[j] == t
  {
    assert t in order;
    j :| j < |order| && order[j] == t;
  }

  lemma LastBack<T>(ys: seq<T>, j: nat, xs: seq<T>)
    requires xs != [] && j < |ys| && ys[j] == xs[|xs| - 1] && multiset(Without(ys, j)) == multiset(xs[..|xs| - 1])
    ensures multiset(ys) == multiset(xs)
  {
    OneBack(ys, j);
    OneBack(xs, |xs| - 1);
    assert Without(xs, |xs| - 1) == xs[..|xs| - 1];
  }

  lemma WithoutLast(order: seq<nat>, n: nat, j: nat)
    requires IsPermutation(order, n) && j < |order| && order[j] == n - 1
    ensures IsPermutation(Without(order, j), n - 1)
  {
    var fewer := Without(order, j);
    forall t: nat | t < n - 1
      ensures t in fewer
    {
      assert t in order;
      var a :| 0 <= a < n && order[a] == t;
      if a < j { assert fewer[a] == t; } else { assert fewer[a - 1] == t; }
    }
  }

  function Total(xs: seq<real>): real { if xs == [] then 0.0 else Total(xs[..|xs| - 1]) + xs[|xs| - 1] }

  /** `.mean()`. */
  function Mean(xs: seq<real>): real
    requires xs != []
  {
    Total(xs) / (|xs| as real)
  }

  lemma {:induction false} MeanOfConsecutive(xs: seq<real>, first: nat)
    requires forall k :: 0 <= k < |xs| ==> xs[k] == (first + k) as real
    ensures Total(xs) == ((|xs| * (2 * first + |xs| - 1)) as real) / 2.0
  {
    if xs != [] {
      var n := |xs|;
      MeanOfConsecutive(xs[..n - 1], first);
      assert n * (2 * first + n - 1) == (n - 1) * (2 * first + (n - 1) - 1) + 2 * (first + n - 1);
    }
  }

  lemma HalfOfProduct(n: nat, m: nat)
    requires n > 0
    ensures ((n * m) as real) / 2.0 / (n as real) == (m as real) / 2.0
  {
    assert (n * m) as real == (n as real) * (m as real);
  }

  lemma MeanOfBlock(xs: seq<real>, i: nat, j: nat)
    requires i <= j && |xs| == j + 1 - i && forall k :: 0 <= k < |xs| ==> xs[k] == (i + 1 + k) as real
    ensures Mean(xs) == (((i + 1) + (j + 1)) as real) / 2.0
  {
    MeanOfConsecutive(xs, i + 1);
    HalfOfProduct(|xs|, 2 * (i + 1) + |xs| - 1);
  }

  /** The sum of the ranks of the positives, which come first. */
  function HeadSum(ranks: seq<real>, n: nat): real
    requires n <= |ranks|
  {
    if n == 0 then 0.0 else ranks[0] + HeadSum(ranks[1..], n - 1)
  }

  lemma {:induction false} HeadSumMeaning(ranks: seq<real>, pos: seq<real>, all: seq<real>)
    requires |pos| <= |ranks| && forall t :: 0 <= t < |pos| ==> ranks[t] == MidRank(pos[t], all)
    ensures HeadSum(ranks, |pos|) == RankSum(pos, all)
  {
    if pos != [] { HeadSumMeaning(ranks[1..], pos[1..], all); }
  }

  /** `order` stands for what `np.argsort` returns on all the scores together. */
  method Auc(pos: seq<real>, neg: seq<real>, order: seq<nat>) returns (auc: real)
    requires Sorts(order, pos + neg)
    ensures auc == PairAuc(pos, neg) && (pos == [] || neg == [] ==> auc == 0.5)
  {
    var all := pos + neg;
    var n := |all|;
    var sorted := Permuted(order, all);
    var ranks := new real[n](_ => 0.0);
    for r := 0 to n
      invariant forall q :: 0 <= q < r ==> ranks[order[q]] == (q + 1) as real
    {
      ranks[order[r]] := (r + 1) as real;
    }
    AverageTies(sorted, order, ranks);
    var nPos, nNeg := |pos|, |neg|;
    if nPos == 0 || nNeg == 0 { return 0.5; }
    PositivesRanked(pos, neg, order, ranks[..]);
    PermutedMultiset(order, all);
    FormulaIsShare(pos, neg, sorted);
    auc := AucFormula(HeadSum(ranks[..], nPos), nPos, nNeg);
  }

  lemma PositivesRanked(pos: seq<real>, neg: seq<real>, order: seq<nat>, ranks: seq<real>)
    requires IsPermutation(order, |pos + neg|) && |ranks| == |order|
    requires forall r :: 0 <= r < |order| ==>
               ranks[order[r]] == MidRank(Permuted(order, pos + neg)[r], Permuted(order, pos + neg))
    ensures HeadSum(ranks, |pos|) == RankSum(pos, Permuted(order, pos + neg))
  {
    var sorted := Permuted(order, pos + neg);
    forall t: nat | t < |pos|
      ensures ranks[t] == MidRank(pos[t], sorted)
    {
      assert t in order;
      var r :| 0 <= r < |order| && order[r] == t;
      assert sorted[r] == (pos + neg)[t] == pos[t];
    }
    HeadSumMeaning(ranks, pos, sorted);
  }

  /** The tie correction: average rank within tied blocks. */
  method AverageTies(sorted: seq<real>, order: seq<nat>, ranks: array<real>)
    requires Ascending(sorted) && ranks.Length == |sorted| && IsPermutation(order, |sorted|)
    requires forall r :: 0 <= r < |sorted| ==> ranks[order[r]] == (r + 1) as real
    modifies ranks
    ensures forall r :: 0 <= r < |sorted| ==> ranks[order[r]] == MidRank(sorted[r], sorted)
  {
    var n := |sorted|;
    var i := 0;
    while i < n
      invariant i <= n && (0 < i < n ==> sorted[i - 1] < sorted[i])
      invariant forall r :: 0 <= r < i ==> ranks[order[r]] == MidRank(sorted[r], sorted)
      invariant forall r :: i <= r < n ==> ranks[order[r]] == (r + 1) as real
    {
      var j := BlockEnd(sorted, i);
      BlockRank(sorted, i, j);
      if j > i { AverageBlock(sorted, order, ranks, i, j); }
      i := j + 1;
    }
  }

  method AverageBlock(sorted: seq<real>, order: seq<nat>, ranks: array<real>, i: nat, j: nat)
    requires ranks.Length == |sorted| && IsPermutation(order, |sorted|) && TiedBlock(sorted, i, j)
    requires forall r :: i <= r < |sorted| ==> ranks[order[r]] == (r + 1) as real
    modifies ranks
    ensures forall r :: i <= r <= j ==> ranks[order[r]] == MidRank(sorted[r], sorted)
    ensures forall r :: 0 <= r < |sorted| && !(i <= r <= j) ==> ranks[order[r]] == old(ranks[order[r]])
  {
    var block := seq(j + 1 - i, k requires 0 <= k < j + 1 - i reads ranks => ranks[order[i + k]]);
    MeanOfBlock(block, i, j);
    BlockRank(sorted, i, j);
    var avgRank := Mean(block);
    for r := i to j + 1
      invariant forall q :: i <= q < r ==> ranks[order[q]] == avgRank
      invariant forall q :: 0 <= q < |sorted| && !(i <= q < r) ==> ranks[order[q]] == old(ranks[order[q]])
    {
      ranks[order[r]] := avgRank;
    }
  }

  // ----- The two agree

  function WithLabels(pos: seq<real>, neg: seq<real>): seq<Labelled> {
    seq(|pos|, i requires 0 <= i < |pos| => (pos[i], true)) + seq(|neg|, i requires 0 <= i < |neg| => (neg[i], false))
  }

  lemma {:induction false} SideOfUniform(s: seq<real>, side: bool, wanted: bool)
    ensures Side(seq(|s|, i requires 0 <= i < |s| => (s[i], side)), wanted) == if side == wanted then s else []
  {
    var xs := seq(|s|, i requires 0 <= i < |s| => (s[i], side));
    if s != [] {
      SideOfUniform(s[1..], side, wanted);
      assert xs[1..] == seq(|s[1..]|, i requires 0 <= i < |s[1..]| => (s[1..][i], side));
      assert [s[0]] + s[1..] == s;
    }
  }

  /** Whatever order the labelled scores come in, both implementations return the same number. */
  lemma ImplementationsAgree(pos: seq<real>, neg: seq<real>, xs: seq<Labelled>)
    requires multiset(xs) == multiset(WithLabels(pos, neg))
    ensures PairAuc(Side(xs, true), Side(xs, false)) == PairAuc(pos, neg)
  {
    var ys := WithLabels(pos, neg);
    forall side: bool
      ensures multiset(Side(xs, side)) == multiset(if side then pos else neg)
    {
      SidePermuted(xs, ys, side);
      SideAppend(seq(|pos|, i requires 0 <= i < |pos| => (pos[i], true)),
                 seq(|neg|, i requires 0 <= i < |neg| => (neg[i], false)), side);
      SideOfUniform(pos, true, side);
      SideOfUniform(neg, false, side);
    }
    AucIgnoresOrder(Side(xs, true), pos, Side(xs, false), neg);
  }
}
