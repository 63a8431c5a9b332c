/** On which numbers of candidates greedy water-filling (stego_capacity.py) is the capacity-maximizing
    allocation under its budget, whatever the cost curves and whatever tau. */
module BudgetOptimality {
  import opened WaterFilling

  /** No allocation within the budget carries more bits. */
  ghost predicate BestWithin(curves: seq<Curve>, ks: seq<nat>, log2: nat -> real, budget: real) {
    forall other: seq<nat> :: IsAllocation(curves, other) && Cost(curves, other) <= budget ==>
      Bits(log2, other) <= Bits(log2, ks)
  }

  ghost function Filled(curves: seq<Curve>, log2: nat -> real, tau: real): seq<nat>
    requires ConcaveLog(log2)
  {
    OnesAreFree(curves, log2);
    Greedy(curves, Ones(|curves|), log2, Budget(curves, tau))
  }

  predicate HasShape(curves: seq<Curve>, lens: seq<nat>) {
    |curves| == |lens| && forall i :: 0 <= i < |lens| ==> |curves[i]| == lens[i]
  }

  /** Greedy is best within the budget for all cost curves with these numbers of candidates. */
  ghost predicate AlwaysBest(lens: seq<nat>, log2: nat -> real)
    requires ConcaveLog(log2)
  {
    forall curves, tau :: HasShape(curves, lens) && Regular(curves) ==>
      BestWithin(curves, Filled(curves, log2, tau), log2, Budget(curves, tau))
  }

  predicate AtMostPairs(lens: seq<nat>) { forall i :: 0 <= i < |lens| ==> lens[i] <= 2 }

  predicate AtMostOneOpen(lens: seq<nat>) {
    forall i, j :: 0 <= i < j < |lens| ==> lens[i] <= 1 || lens[j] <= 1
  }

  // ----- Where greedy ends

  lemma {:induction false} BestAmong(curves: seq<Curve>, ks: seq<nat>, log2: nat -> real, n: nat)
    returns (found: bool, best: nat)
    requires IsAllocation(curves, ks) && ConcaveLog(log2) && n <= |ks|
    ensures found ==> IsBest(curves, ks, log2, n, best)
    ensures !found ==> forall i :: 0 <= i < n ==> ks[i] >= |curves[i]|
  {
    found, best := false, 0;
    if n > 0 {
      found, best := BestAmong(curves, ks, log2, n - 1);
      if ks[n - 1] < |curves[n - 1]|
         && (!found || Ratio(curves[n - 1], ks[n - 1], log2) < Ratio(curves[best], ks[best], log2))
      {
        found, best := true, n - 1;
      }
    }
  }

  lemma NothingTaken(curves: seq<Curve>, ks: seq<nat>, log2: nat -> real, budget: real)
    requires IsAllocation(curves, ks) && ConcaveLog(log2) && NextTaken(curves, ks, log2, budget) >= |ks|
    ensures Exhausted(curves, ks, log2, budget)
  {
    var found, best := BestAmong(curves, ks, log2, |ks|);
    if found { assert !Takes(curves, ks, log2, budget, best); }
  }

  lemma {:induction false} GreedyEnds(curves: seq<Curve>, ks: seq<nat>, log2: nat -> real, budget: real, price: real)
    requires ConcaveLog(log2) && Regular(curves) && IsAllocation(curves, ks)
    requires price >= 0.0 && AllPriced(curves, ks, Worth(log2, price))
    requires Cost(curves, ks) <= budget || ks == Ones(|curves|)
    ensures var end := Greedy(curves, ks, log2, budget);
            IsAllocation(curves, end) && Exhausted(curves, end, log2, budget) && NearlyBest(curves, end, log2, budget)
    decreases Open(curves, ks)
  {
    var i := NextTaken(curves, ks, log2, budget);
    if i < |ks| {
      TakesBest(curves, ks, log2, price, i);
      OneMoreStep(curves, ks, log2, i);
      OneStepLess(curves, ks, i);
      GreedyUnfolds(curves, ks, log2, budget, i);
      GreedyEnds(curves, ks[i := ks[i] + 1], log2, budget, NextPrice(curves[i], ks[i], log2, price));
    } else {
      NothingTaken(curves, ks, log2, budget);
      StopsNearBest(curves, ks, log2, price, budget);
    }
  }

  // ----- At most one step a position

  function Steps(ks: seq<nat>): nat { if ks == [] then 0 else (if ks[0] >= 2 then 1 else 0) + Steps(ks[1..]) }

  lemma {:induction false} BitsOfPairs(log2: nat -> real, ks: seq<nat>)
    requires ConcaveLog(log2) && forall i :: 0 <= i < |ks| ==> 1 <= ks[i] <= 2
    ensures IsProduct(Gain(log2, 1), Steps(ks) as real, Bits(log2, ks))
  {
    if ks != [] {
      BitsOfPairs(log2, ks[1..]);
      OneMoreTimes(Gain(log2, 1), Steps(ks[1..]));
    }
  }

  lemma OneMoreTimes(g: real, n: nat)
    ensures g * ((n + 1) as real) == g * (n as real) + g
  {
  }

  lemma FewerSteps(g: real, m: nat, n: nat, bm: real, bn: real)
    requires g > 0.0 && IsProduct(g, m as real, bm) && IsProduct(g, n as real, bn) && bm < bn + g
    ensures bm <= bn
  {
    OneMoreTimes(g, n);
    if m > n {
      TimesMonotone((n + 1) as real, m as real, g);
    } else {
      TimesMonotone(m as real, n as real, g);
    }
  }

  lemma LessThanOneStepShort(
    curves: seq<Curve>, ks: seq<nat>, log2: nat -> real, budget: real, best: nat, other: seq<nat>)
    requires ConcaveLog(log2) && IsAllocation(curves, ks) && NearlyBest(curves, ks, log2, budget)
    requires IsBest(curves, ks, log2, |ks|, best) && IsAllocation(curves, other) && Cost(curves, other) <= budget
    ensures Bits(log2, other) < Bits(log2, ks) + Gain(log2, ks[best])
  {
    assert ShortBy(curves, ks, log2, budget, best, other);
  }

  lemma PairsCompare(curves: seq<Curve>, ks: seq<nat>, log2: nat -> real, budget: real, best: nat, other: seq<nat>)
    requires ConcaveLog(log2) && IsAllocation(curves, ks) && NearlyBest(curves, ks, log2, budget)
    requires IsBest(curves, ks, log2, |ks|, best) && IsAllocation(curves, other) && Cost(curves, other) <= budget
    requires forall i :: 0 <= i < |curves| ==> |curves[i]| <= 2
    ensures Bits(log2, other) <= Bits(log2, ks)
  {
    LessThanOneStepShort(curves, ks, log2, budget, best, other);
    assert ks[best] == 1;
    BitsOfPairs(log2, ks);
    BitsOfPairs(log2, other);
    FewerSteps(Gain(log2, 1), Steps(other), Steps(ks), Bits(log2, other), Bits(log2, ks));
  }

  /** All steps bring the same bits, so less than one step short is not short at all. */
  lemma PairsAreBest(curves: seq<Curve>, ks: seq<nat>, log2: nat -> real, budget: real)
    requires ConcaveLog(log2) && IsAllocation(curves, ks) && forall i :: 0 <= i < |curves| ==> |curves[i]| <= 2
    requires Exhausted(curves, ks, log2, budget) && NearlyBest(curves, ks, log2, budget)
    ensures BestWithin(curves, ks, log2, budget)
  {
    forall other: seq<nat> | IsAllocation(curves, other) && Cost(curves, other) <= budget
      ensures Bits(log2, other) <= Bits(log2, ks)
    {
      if MaxedOut(curves, ks) {
        MaxedOutIsBest(curves, ks, log2, other);
      } else {
        var best: nat :| IsBest(curves, ks, log2, |ks|, best);
        PairsCompare(curves, ks, log2, budget, best, other);
      }
    }
  }

  // ----- One position with steps

  ghost predicate OpenOnlyAt(curves: seq<Curve>, p: nat) {
    p < |curves| && forall i :: 0 <= i < |curves| && i != p ==> |curves[i]| <= 1
  }

  lemma {:induction false} ClosedCostNothing(curves: seq<Curve>, ks: seq<nat>, log2: nat -> real)
    requires ConcaveLog(log2) && IsAllocation(curves, ks) && forall i :: 0 <= i < |curves| ==> |curves[i]| <= 1
    ensures Cost(curves, ks) == 0.0 && Bits(log2, ks) == 0.0
    decreases |ks|
  {
    if ks != [] { ClosedCostNothing(curves[1..], ks[1..], log2); }
  }

  lemma {:induction false} OpenCostsAll(curves: seq<Curve>, ks: seq<nat>, log2: nat -> real, p: nat)
    requires ConcaveLog(log2) && IsAllocation(curves, ks) && OpenOnlyAt(curves, p)
    ensures Cost(curves, ks) == StepCosts(curves[p], ks[p]) && Bits(log2, ks) == log2(ks[p])
    decreases p
  {
    if p == 0 {
      ClosedCostNothing(curves[1..], ks[1..], log2);
    } else {
      assert ks[0] == 1;
      OpenCostsAll(curves[1..], ks[1..], log2, p - 1);
    }
  }

  lemma {:induction false} StepCostsMonotone(c: Curve, k: nat, l: nat)
    requires IsCostCurve(c) && 1 <= k <= l && (l <= |c| || l == 1)
    ensures StepCosts(c, k) <= StepCosts(c, l)
    decreases l - k
  {
    if k < l {
      StepCostsMonotone(c, k, l - 1);
      assert c[0] <= c[l - 1];
    }
  }

  lemma MoreStepsDoNotFit(
    curves: seq<Curve>, ks: seq<nat>, log2: nat -> real, budget: real, p: nat, other: seq<nat>)
    requires ConcaveLog(log2) && Regular(curves) && IsAllocation(curves, ks) && OpenOnlyAt(curves, p)
    requires Exhausted(curves, ks, log2, budget) && IsAllocation(curves, other) && other[p] > ks[p]
    ensures Cost(curves, other) > budget
  {
    OpenCostsAll(curves, ks, log2, p);
    OpenCostsAll(curves, other, log2, p);
    assert curves[p] in curves && ks[p] < |curves[p]|;
    StepCostsMonotone(curves[p], ks[p] + 1, other[p]);
    var best: nat :| IsBest(curves, ks, log2, |ks|, best) && Cost(curves, ks) + curves[best][ks[best]] > budget;
    assert best == p;
  }

  lemma SingleIsBest(curves: seq<Curve>, ks: seq<nat>, log2: nat -> real, budget: real, p: nat)
    requires ConcaveLog(log2) && Regular(curves) && IsAllocation(curves, ks) && OpenOnlyAt(curves, p)
    requires Exhausted(curves, ks, log2, budget)
    ensures BestWithin(curves, ks, log2, budget)
  {
    forall other: seq<nat> | IsAllocation(curves, other) && Cost(curves, other) <= budget
      ensures Bits(log2, other) <= Bits(log2, ks)
    {
      if other[p] > ks[p] {
        MoreStepsDoNotFit(curves, ks, log2, budget, p, other);
      } else {
        OpenCostsAll(curves, ks, log2, p);
        OpenCostsAll(curves, other, log2, p);
        LogGrows(log2, other[p], ks[p]);
      }
    }
  }

  // ----- The shapes on which greedy is best

  lemma OpenPosition(lens: seq<nat>) returns (p: nat)
    requires AtMostOneOpen(lens) && lens != []
    ensures p < |lens| && forall i :: 0 <= i < |lens| && i != p ==> lens[i] <= 1
  {
    p := 0;
    if j: nat :| j < |lens| && lens[j] > 1 { p := j; }
  }

  lemma SafeShapesAreBest(lens: seq<nat>, log2: nat -> real, curves: seq<Curve>, tau: real)
    requires ConcaveLog(log2) && HasShape(curves, lens) && Regular(curves)
    requires AtMostPairs(lens) || AtMostOneOpen(lens)
    ensures BestWithin(curves, Filled(curves, log2, tau), log2, Budget(curves, tau))
  {
    var ks, budget := Filled(curves, log2, tau), Budget(curves, tau);
    OnesAreFree(curves, log2);
    OnesArePriced(curves, log2);
    GreedyEnds(curves, Ones(|curves|), log2, budget, 0.0);
    if AtMostPairs(lens) {
      PairsAreBest(curves, ks, log2, budget);
    } else {
      var p := OpenPosition(lens);
      SingleIsBest(curves, ks, log2, budget, p);
    }
  }

  // ----- The shapes on which it is not

  /** Position `j` has a free step and then one worth `Gain(log2, 2)`; the step of position `i` is cheap
      for its bits but dearer than that; all other steps cost `Gain(log2, 1)`. */
  function UnevenCost(log2: nat -> real, i: nat, j: nat, position: nat, k: nat): real {
    if k == 0 || (position == j && k == 1) then 0.0
    else if position == j && k == 2 then Gain(log2, 2)
    else if position == i && k == 1 then (Gain(log2, 1) + Gain(log2, 2)) / 2.0
    else Gain(log2, 1)
  }

  function UnevenCurve(log2: nat -> real, i: nat, j: nat, position: nat, n: nat): (c: Curve)
    ensures |c| == n
  {
    seq(n, k requires 0 <= k < n => UnevenCost(log2, i, j, position, k))
  }

  function Uneven(lens: seq<nat>, log2: nat -> real, i: nat, j: nat): (curves: seq<Curve>)
    ensures HasShape(curves, lens)
  {
    seq(|lens|, p requires 0 <= p < |lens| => UnevenCurve(log2, i, j, p, lens[p]))
  }

  ghost predicate Unsafe(lens: seq<nat>, i: nat, j: nat) {
    i < |lens| && j < |lens| && i != j && lens[i] >= 2 && lens[j] >= 3
  }

  ghost predicate Falling(log2: nat -> real) { ConcaveLog(log2) && Gain(log2, 2) < Gain(log2, 1) }

  lemma UnevenIsRegular(lens: seq<nat>, log2: nat -> real, i: nat, j: nat)
    requires Falling(log2) && i != j
    ensures Regular(Uneven(lens, log2, i, j))
  {
    forall p | 0 <= p < |lens|
      ensures IsCostCurve(UnevenCurve(log2, i, j, p, lens[p]))
    {
    }
  }

  lemma QuotientOrder(x: real, g: real)
    requires 0.0 < x < g
    ensures 0.0 < x / g < 1.0
  {
    QuotientTimes(x, g);
    if x / g >= 1.0 { TimesMonotone(1.0, x / g, g); }
  }

  lemma RatioOf(c: Curve, k: nat, log2: nat -> real)
    requires 0 < k < |c| && Gain(log2, k) > 0.0
    ensures Ratio(c, k, log2) == if c[k] <= 0.0 then -1.0 else c[k] / Gain(log2, k)
  {
  }

  /** At first the free step is best, by far. */
  lemma FreeStepFirst(lens: seq<nat>, log2: nat -> real, i: nat, j: nat, curves: seq<Curve>)
    requires Falling(log2) && Unsafe(lens, i, j) && curves == Uneven(lens, log2, i, j)
    requires IsAllocation(curves, Ones(|curves|))
    ensures IsBest(curves, Ones(|curves|), log2, |curves|, j)
  {
    RatioOf(curves[j], 1, log2);
    forall p | 0 <= p < |curves| && 1 < |curves[p]|
      ensures p != j ==> Ratio(curves[p], 1, log2) > Ratio(curves[j], 1, log2)
    {
      RatioOf(curves[p], 1, log2);
      if p != j { QuotientTimes(curves[p][1], Gain(log2, 1)); }
    }
  }

  lemma EvenRatio(c: Curve, k: nat, log2: nat -> real)
    requires 0 < k < |c| && Gain(log2, k) > 0.0 && c[k] == Gain(log2, k)
    ensures Ratio(c, k, log2) == 1.0
  {
    RatioOf(c, k, log2);
    QuotientTimes(c[k], Gain(log2, k));
  }

  lemma CheapRatio(c: Curve, log2: nat -> real)
    requires 1 < |c| && 0.0 < c[1] < Gain(log2, 1)
    ensures Ratio(c, 1, log2) < 1.0
  {
    RatioOf(c, 1, log2);
    QuotientOrder(c[1], Gain(log2, 1));
  }

  lemma NextCosts(lens: seq<nat>, log2: nat -> real, i: nat, j: nat, p: nat)
    requires Falling(log2) && Unsafe(lens, i, j) && p < |lens| && lens[p] > if p == j then 2 else 1
    ensures var c, k := Uneven(lens, log2, i, j)[p], if p == j then 2 else 1;
            if p == i then 0.0 < c[1] < Gain(log2, 1) else c[k] == Gain(log2, k)
  {
  }

  /** Then the step of position `i` is. */
  lemma LargeStepNext(lens: seq<nat>, log2: nat -> real, i: nat, j: nat, curves: seq<Curve>, ks: seq<nat>)
    requires Falling(log2) && Unsafe(lens, i, j) && curves == Uneven(lens, log2, i, j)
    requires ks == Ones(|curves|)[j := 2] && IsAllocation(curves, ks)
    ensures IsBest(curves, ks, log2, |ks|, i)
  {
    NextCosts(lens, log2, i, j, i);
    CheapRatio(curves[i], log2);
    forall p | 0 <= p < |ks| && ks[p] < |curves[p]| && p != i
      ensures Ratio(curves[p], ks[p], log2) == 1.0
    {
      NextCosts(lens, log2, i, j, p);
      EvenRatio(curves[p], ks[p], log2);
    }
  }

  /** A free step and one more from the start. */
  lemma TwoSteps(curves: seq<Curve>, log2: nat -> real, j: nat, one: seq<nat>, two: seq<nat>)
    requires ConcaveLog(log2) && j < |curves| && |curves[j]| >= 3 && curves[j][1] == 0.0
    requires one == Ones(|curves|)[j := 2] && two == one[j := 3]
    ensures IsAllocation(curves, Ones(|curves|)) && Cost(curves, Ones(|curves|)) == 0.0
    ensures IsAllocation(curves, one) && Cost(curves, one) == 0.0
    ensures IsAllocation(curves, two) && Cost(curves, two) == curves[j][2]
    ensures Bits(log2, two) > Bits(log2, one)
  {
    OnesAreFree(curves, log2);
    OneMoreStep(curves, Ones(|curves|), log2, j);
    OneMoreStep(curves, one, log2, j);
  }

  lemma UnevenSteps(lens: seq<nat>, log2: nat -> real, i: nat, j: nat)
    requires Unsafe(lens, i, j)
    ensures var c := Uneven(lens, log2, i, j)[j]; |c| >= 3 && c[1] == 0.0 && c[2] == Gain(log2, 2)
  {
  }

  lemma WholeBudget(n: nat, g: real)
    requires n > 0
    ensures (n as real) * (g / (n as real)) == g
  {
  }

  lemma UnevenGreedy(
    lens: seq<nat>, log2: nat -> real, i: nat, j: nat, curves: seq<Curve>, one: seq<nat>, two: seq<nat>, budget: real)
    requires Falling(log2) && Unsafe(lens, i, j) && curves == Uneven(lens, log2, i, j)
    requires one == Ones(|curves|)[j := 2] && two == one[j := 3] && budget == Gain(log2, 2)
    ensures IsAllocation(curves, Ones(|curves|)) && Greedy(curves, Ones(|curves|), log2, budget) == one
    ensures IsAllocation(curves, two) && Cost(curves, two) <= budget && Bits(log2, two) > Bits(log2, one)
  {
    UnevenSteps(lens, log2, i, j);
    TwoSteps(curves, log2, j, one, two);
    FreeStepFirst(lens, log2, i, j, curves);
    LargeStepNext(lens, log2, i, j, curves, one);
    TakesOneStep(curves, Ones(|curves|), one, log2, budget, j, i);
  }

  /** Two positions with a step, one of which has two: greedy takes the free step, the next best one
      does not fit, and the one that does is left. No tie decides any of this. */
  lemma UnsafeShapesMiss(lens: seq<nat>, log2: nat -> real, i: nat, j: nat) returns (curves: seq<Curve>, tau: real)
    requires Falling(log2) && Unsafe(lens, i, j)
    ensures HasShape(curves, lens) && Regular(curves)
    ensures !BestWithin(curves, Filled(curves, log2, tau), log2, Budget(curves, tau))
  {
    curves, tau := Uneven(lens, log2, i, j), Gain(log2, 2) / (|lens| as real);
    WholeBudget(|lens|, Gain(log2, 2));
    UnevenIsRegular(lens, log2, i, j);
    var one := Ones(|curves|)[j := 2];
    UnevenGreedy(lens, log2, i, j, curves, one, one[j := 3], Budget(curves, tau));
  }

  lemma UnsafePositions(lens: seq<nat>) returns (i: nat, j: nat)
    requires !AtMostPairs(lens) && !AtMostOneOpen(lens)
    ensures Unsafe(lens, i, j)
  {
    j :| 0 <= j < |lens| && lens[j] > 2;
    var p: nat, q: nat :| p < q < |lens| && lens[p] > 1 && lens[q] > 1;
    i := if p == j then q else p;
  }

  /** For all cost curves with these numbers of candidates and at every tau, greedy is best within the
      budget exactly if no position has more than two candidates or only one position has a choice. */
  lemma AlwaysBestExactlyOnSafeShapes(lens: seq<nat>, log2: nat -> real)
    requires Falling(log2)
    ensures AlwaysBest(lens, log2) <==> AtMostPairs(lens) || AtMostOneOpen(lens)
  {
    if AtMostPairs(lens) || AtMostOneOpen(lens) {
      forall curves, tau | HasShape(curves, lens) && Regular(curves)
        ensures BestWithin(curves, Filled(curves, log2, tau), log2, Budget(curves, tau))
      {
        SafeShapesAreBest(lens, log2, curves, tau);
      }
    } else {
      var i, j := UnsafePositions(lens);
      var curves, tau := UnsafeShapesMiss(lens, log2, i, j);
    }
  }
}
