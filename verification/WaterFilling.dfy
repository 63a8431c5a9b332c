/** Greedy allocation of a cost budget over positions (stego_capacity.py), in exact arithmetic. */
module WaterFilling {
  import opened Ranking

  /** Cost of each candidate, best first. */
  type Curve = seq<real>

  /** What is used of the binary logarithm: it grows, by less and less. */
  ghost predicate ConcaveLog(log2: nat -> real) {
    && log2(1) == 0.0
    && (forall k: nat :: 0 < k ==> Gain(log2, k) > 0.0)
    && (forall k: nat, l: nat :: 0 < k <= l ==> Gain(log2, l) <= Gain(log2, k))
  }

  /** Bits gained by the step from `k` to `k + 1` candidates. */
  function Gain(log2: nat -> real, k: nat): real { log2(k + 1) - log2(k) }

  predicate IsCostCurve(c: Curve) {
    (c != [] ==> c[0] >= 0.0) && forall i, j :: 0 <= i <= j < |c| ==> c[i] <= c[j]
  }

  function Min(a: nat, b: nat): nat { if a <= b then a else b }

  /** `cost_curve_at_position`, given the sorted order of the scores. */
  function CostCurveAt(scores: seq<real>, order: seq<nat>, maxK: nat): Curve
    requires Ranks(order, scores) && scores != [] && maxK > 0
  {
    seq(Min(maxK, |order|), j requires 0 <= j < Min(maxK, |order|) => scores[order[0]] - scores[order[j]])
  }

  lemma CurvesAreCostCurves(scores: seq<real>, order: seq<nat>, maxK: nat)
    requires Ranks(order, scores) && scores != [] && maxK > 0
    ensures IsCostCurve(CostCurveAt(scores, order, maxK)) && CostCurveAt(scores, order, maxK)[0] == 0.0
  {
  }

  /** Entry `k` is the distance from the highest score `m` to the score of rank `k`: at most `k` tokens
      score above that, and more than `k` at least as much. */
  lemma CostsAreDistances(scores: seq<real>, order: seq<nat>, maxK: nat, k: nat, m: real)
    requires Ranks(order, scores) && scores != [] && maxK > 0 && k < |CostCurveAt(scores, order, maxK)|
    requires (forall t :: 0 <= t < |scores| ==> scores[t] <= m) && exists t :: 0 <= t < |scores| && scores[t] == m
    ensures |CostCurveAt(scores, order, maxK)| == if maxK < |scores| then maxK else |scores|
    ensures var x := m - CostCurveAt(scores, order, maxK)[k];
            |Above(scores, x)| <= k < |AtLeast(scores, x)| && exists t :: 0 <= t < |scores| && scores[t] == x
  {
    var t: nat :| t < |scores| && scores[t] == m;
    TopScoreIsMaximal(order, scores, t);
    var x := m - CostCurveAt(scores, order, maxK)[k];
    assert x == scores[order[k]];
    PlaceCounts(order, scores, k);
  }

  // ----- Allocations

  ghost predicate IsAllocation(curves: seq<Curve>, ks: seq<nat>) {
    |ks| == |curves| && forall i :: 0 <= i < |ks| ==> 1 <= ks[i] && (ks[i] <= |curves[i]| || ks[i] == 1)
  }

  /** The cost of the steps that lead from one candidate to `k`. */
  function StepCosts(c: Curve, k: nat): real
    requires k <= |c| || k <= 1
  {
    if k <= 1 then 0.0 else StepCosts(c, k - 1) + c[k - 1]
  }

  function Cost(curves: seq<Curve>, ks: seq<nat>): real
    requires IsAllocation(curves, ks)
  {
    if ks == [] then 0.0 else StepCosts(curves[0], ks[0]) + Cost(curves[1..], ks[1..])
  }

  function Bits(log2: nat -> real, ks: seq<nat>): real {
    if ks == [] then 0.0 else log2(ks[0]) + Bits(log2, ks[1..])
  }

  /** No allocation that costs at most as much carries more bits. */
  ghost predicate Optimal(curves: seq<Curve>, ks: seq<nat>, log2: nat -> real)
    requires IsAllocation(curves, ks)
  {
    forall other: seq<nat> :: IsAllocation(curves, other) && Cost(curves, other) <= Cost(curves, ks)
      ==> Bits(log2, other) <= Bits(log2, ks)
  }

  lemma {:induction false} OneMoreStep(curves: seq<Curve>, ks: seq<nat>, log2: nat -> real, i: nat)
    requires IsAllocation(curves, ks) && i < |ks| && ks[i] < |curves[i]|
    ensures IsAllocation(curves, ks[i := ks[i] + 1])
    ensures Cost(curves, ks[i := ks[i] + 1]) == Cost(curves, ks) + curves[i][ks[i]]
    ensures Bits(log2, ks[i := ks[i] + 1]) == Bits(log2, ks) + Gain(log2, ks[i])
  {
    var more := ks[i := ks[i] + 1];
    if i == 0 {
      assert more[1..] == ks[1..];
    } else {
      OneMoreStep(curves[1..], ks[1..], log2, i - 1);
      assert more[1..] == ks[1..][i - 1 := ks[i] + 1];
    }
  }

  // ----- The greedy choice

  function PrefixSum(c: Curve, k: nat): real
    requires k <= |c|
  {
    if k == 0 then 0.0 else PrefixSum(c, k - 1) + c[k - 1]
  }

  function Mean(c: Curve, k: nat): real
    requires 0 < k <= |c|
  {
    PrefixSum(c, k) / (k as real)
  }

  /** The cost of the step from `k` to `k + 1` candidates, as the source computes it. */
  function MarginalCost(c: Curve, k: nat): (m: real)
    requires 0 < k < |c|
    ensures m == c[k]
  {
    assert Mean(c, k + 1) * ((k + 1) as real) == PrefixSum(c, k + 1);
    assert Mean(c, k) * (k as real) == PrefixSum(c, k);
    Mean(c, k + 1) * ((k + 1) as real) - Mean(c, k) * (k as real)
  }

  function Ratio(c: Curve, k: nat, log2: nat -> real): real
    requires 0 < k < |c| && Gain(log2, k) > 0.0
  {
    var m := MarginalCost(c, k);
    if m <= 0.0 then -1.0 else m / Gain(log2, k)
  }

  ghost predicate IsBest(curves: seq<Curve>, ks: seq<nat>, log2: nat -> real, n: nat, best: nat)
    requires IsAllocation(curves, ks) && n <= |ks| && ConcaveLog(log2)
  {
    && best < n && ks[best] < |curves[best]|
    && forall i :: 0 <= i < n && ks[i] < |curves[i]| ==>
         var r, b := Ratio(curves[i], ks[i], log2), Ratio(curves[best], ks[best], log2);
         if i < best then b < r else b <= r
  }

  method FindBest(curves: seq<Curve>, ks: seq<nat>, log2: nat -> real) returns (found: bool, best: nat)
    requires IsAllocation(curves, ks) && ConcaveLog(log2)
    ensures found ==> IsBest(curves, ks, log2, |ks|, best)
    ensures !found ==> forall i :: 0 <= i < |ks| ==> ks[i] >= |curves[i]|
  {
    found, best := false, 0;
    var bestRatio := 0.0;
    for i := 0 to |curves|
      invariant found ==> IsBest(curves, ks, log2, i, best) && bestRatio == Ratio(curves[best], ks[best], log2)
      invariant !found ==> forall j :: 0 <= j < i ==> ks[j] >= |curves[j]|
    {
      if ks[i] >= |curves[i]| { continue; }
      var ratio := Ratio(curves[i], ks[i], log2);
      if !found || ratio < bestRatio {
        found, best, bestRatio := true, i, ratio;
      }
    }
  }

  // ----- Why greedy is optimal: a price per bit

  /** The worth of `k` candidates at `price` per bit. */
  function Worth(log2: nat -> real, price: real): nat -> real { (k: nat) => price * log2(k) }

  /** Every taken step is worth its cost and no other step is worth more than it costs. */
  ghost predicate Priced(c: Curve, k: nat, worth: nat -> real) {
    && (forall j: nat :: 1 <= j < k && j < |c| ==> c[j] <= Gain(worth, j))
    && (forall j: nat :: k <= j < |c| ==> c[j] >= Gain(worth, j))
  }

  ghost predicate AllPriced(curves: seq<Curve>, ks: seq<nat>, worth: nat -> real) {
    |ks| == |curves| && forall i :: 0 <= i < |ks| ==> Priced(curves[i], ks[i], worth)
  }

  ghost predicate Flattens(worth: nat -> real) {
    forall k: nat, l: nat :: 0 < k <= l ==> Gain(worth, l) <= Gain(worth, k)
  }

  ghost predicate Below(lower: nat -> real, upper: nat -> real) {
    forall k: nat :: 0 < k ==> Gain(lower, k) <= Gain(upper, k)
  }

  lemma TimesMonotone(a: real, b: real, g: real)
    requires a <= b && g >= 0.0
    ensures a * g <= b * g
  {
  }

  lemma QuotientTimes(m: real, g: real)
    requires g > 0.0
    ensures m / g * g == m
    ensures m > 0.0 ==> m / g > 0.0
  {
  }

  lemma WorthOfStep(log2: nat -> real, price: real, k: nat)
    ensures Gain(Worth(log2, price), k) == price * Gain(log2, k)
  {
  }

  lemma WorthFlattens(log2: nat -> real, price: real)
    requires ConcaveLog(log2) && price >= 0.0
    ensures Flattens(Worth(log2, price))
  {
    forall k: nat, l: nat | 0 < k <= l
      ensures Gain(Worth(log2, price), l) <= Gain(Worth(log2, price), k)
    {
      WorthOfStep(log2, price, k);
      WorthOfStep(log2, price, l);
      TimesMonotone(Gain(log2, l), Gain(log2, k), price);
    }
  }

  lemma WorthRises(log2: nat -> real, price: real, higher: real)
    requires ConcaveLog(log2) && price <= higher
    ensures Below(Worth(log2, price), Worth(log2, higher))
  {
    forall k: nat | 0 < k
      ensures Gain(Worth(log2, price), k) <= Gain(Worth(log2, higher), k)
    {
      WorthOfStep(log2, price, k);
      WorthOfStep(log2, higher, k);
      TimesMonotone(price, higher, Gain(log2, k));
    }
  }

  /** The price after the best step has been taken: what a bit has cost in it, unless it was free. */
  function NextPrice(c: Curve, k: nat, log2: nat -> real, price: real): real
    requires 0 < k < |c| && Gain(log2, k) > 0.0
  {
    if c[k] <= 0.0 then price else c[k] / Gain(log2, k)
  }

  lemma Cancel(g: real, a: real, b: real)
    requires g > 0.0 && g * a <= g * b
    ensures a <= b
  {
  }

  predicate IsProduct(g: real, a: real, ga: real) { ga == g * a }

  lemma CancelProducts(g: real, a: real, b: real, ga: real, gb: real)
    requires g > 0.0 && IsProduct(g, a, ga) && IsProduct(g, b, gb) && ga <= gb
    ensures a <= b
  {
    Cancel(g, a, b);
  }

  lemma AtMostQuotient(m: real, g: real, price: real, quotient: real)
    requires g > 0.0 && quotient == m / g && price * g <= m
    ensures price <= quotient && m == quotient * g
  {
    QuotientTimes(m, g);
    Cancel(g, price, quotient);
  }

  lemma PriceRises(c: Curve, k: nat, log2: nat -> real, price: real)
    requires 0 < k < |c| && Gain(log2, k) > 0.0 && Priced(c, k, Worth(log2, price)) && price >= 0.0
    ensures price <= NextPrice(c, k, log2, price)
    ensures c[k] == Gain(Worth(log2, NextPrice(c, k, log2, price)), k)
  {
    var g, next := Gain(log2, k), NextPrice(c, k, log2, price);
    WorthOfStep(log2, price, k);
    WorthOfStep(log2, next, k);
    TimesMonotone(0.0, price, g);
    assert price * g <= c[k];
    if c[k] > 0.0 { AtMostQuotient(c[k], g, price, next); }
  }

  lemma NextStepOfOther(c: Curve, k: nat, best: Curve, l: nat, log2: nat -> real, price: real)
    requires ConcaveLog(log2) && 0 < l < |best| && 0 < k < |c|
    requires c[k] >= Gain(Worth(log2, price), k)
    requires Ratio(best, l, log2) <= Ratio(c, k, log2)
    ensures c[k] >= Gain(Worth(log2, NextPrice(best, l, log2, price)), k)
  {
    if best[l] > 0.0 {
      var next, g := NextPrice(best, l, log2, price), Gain(log2, k);
      QuotientTimes(best[l], Gain(log2, l));
      TimesMonotone(next, c[k] / g, g);
      QuotientTimes(c[k], g);
      WorthOfStep(log2, next, k);
    }
  }

  /** A curve whose next step is worth the new price stays as it is. */
  lemma Reprices(c: Curve, k: nat, lower: nat -> real, upper: nat -> real)
    requires IsCostCurve(c) && 0 < k && Flattens(upper) && Below(lower, upper)
    requires Priced(c, k, lower) && (k < |c| ==> c[k] >= Gain(upper, k))
    ensures Priced(c, k, upper)
  {
  }

  lemma PricesOneMore(c: Curve, k: nat, worth: nat -> real)
    requires IsCostCurve(c) && 0 < k < |c| && Priced(c, k, worth) && c[k] == Gain(worth, k)
    ensures Priced(c, k + 1, worth)
  {
  }

  /** At the next price every position is still where it should be. */
  lemma RepricesAll(curves: seq<Curve>, ks: seq<nat>, log2: nat -> real, price: real, best: nat)
    requires ConcaveLog(log2) && IsAllocation(curves, ks) && Regular(curves)
    requires price >= 0.0 && AllPriced(curves, ks, Worth(log2, price)) && IsBest(curves, ks, log2, |ks|, best)
    ensures price <= NextPrice(curves[best], ks[best], log2, price)
    ensures AllPriced(curves, ks, Worth(log2, NextPrice(curves[best], ks[best], log2, price)))
  {
    var next := NextPrice(curves[best], ks[best], log2, price);
    PriceRises(curves[best], ks[best], log2, price);
    WorthRises(log2, price, next);
    WorthFlattens(log2, next);
    forall i | 0 <= i < |ks|
      ensures Priced(curves[i], ks[i], Worth(log2, next))
    {
      var c, k := curves[i], ks[i];
      assert Priced(c, k, Worth(log2, price));
      if k < |c| { NextStepOfOther(c, k, curves[best], ks[best], log2, price); }
      Reprices(c, k, Worth(log2, price), Worth(log2, next));
    }
  }

  lemma TakesBest(curves: seq<Curve>, ks: seq<nat>, log2: nat -> real, price: real, best: nat)
    requires ConcaveLog(log2) && IsAllocation(curves, ks) && Regular(curves)
    requires price >= 0.0 && AllPriced(curves, ks, Worth(log2, price)) && IsBest(curves, ks, log2, |ks|, best)
    ensures price <= NextPrice(curves[best], ks[best], log2, price)
    ensures AllPriced(curves, ks[best := ks[best] + 1], Worth(log2, NextPrice(curves[best], ks[best], log2, price)))
  {
    var next := NextPrice(curves[best], ks[best], log2, price);
    var more := ks[best := ks[best] + 1];
    RepricesAll(curves, ks, log2, price, best);
    PriceRises(curves[best], ks[best], log2, price);
    forall i | 0 <= i < |ks|
      ensures Priced(curves[i], more[i], Worth(log2, next))
    {
      assert Priced(curves[i], ks[i], Worth(log2, next));
      if i == best { PricesOneMore(curves[i], ks[i], Worth(log2, next)); }
    }
  }

  /** At its price the choice of `k` is the most profitable one for its curve. */
  lemma {:induction false} MostProfitable(c: Curve, k: nat, worth: nat -> real, other: nat)
    requires Priced(c, k, worth) && 1 <= k && 1 <= other && (k <= |c| || k == 1) && (other <= |c| || other == 1)
    ensures worth(other) - StepCosts(c, other) <= worth(k) - StepCosts(c, k)
    decreases if other > k then other - k else k - other
  {
    if other > k {
      MostProfitable(c, k, worth, other - 1);
    } else if other < k {
      MostProfitable(c, k, worth, other + 1);
    }
  }

  lemma {:induction false} MostProfitableOverall(curves: seq<Curve>, ks: seq<nat>, worth: nat -> real, other: seq<nat>)
    requires IsAllocation(curves, ks) && IsAllocation(curves, other) && AllPriced(curves, ks, worth)
    ensures Bits(worth, other) - Cost(curves, other) <= Bits(worth, ks) - Cost(curves, ks)
    decreases |ks|
  {
    if ks != [] {
      MostProfitable(curves[0], ks[0], worth, other[0]);
      MostProfitableOverall(curves[1..], ks[1..], worth, other[1..]);
    }
  }

  lemma {:induction false} WorthOfAll(log2: nat -> real, price: real, ks: seq<nat>)
    ensures IsProduct(price, Bits(log2, ks), Bits(Worth(log2, price), ks))
  {
    if ks != [] {
      WorthOfAll(log2, price, ks[1..]);
      TimesSum(price, log2(ks[0]), Bits(log2, ks[1..]));
    }
  }

  lemma TimesSum(price: real, a: real, b: real)
    ensures price * (a + b) == price * a + price * b
  {
  }

  lemma WorthComparesBits(log2: nat -> real, price: real, ks: seq<nat>, other: seq<nat>)
    requires price > 0.0 && Bits(Worth(log2, price), other) <= Bits(Worth(log2, price), ks)
    ensures Bits(log2, other) <= Bits(log2, ks)
  {
    WorthOfAll(log2, price, ks);
    WorthOfAll(log2, price, other);
    CancelProducts(price, Bits(log2, other), Bits(log2, ks),
                   Bits(Worth(log2, price), other), Bits(Worth(log2, price), ks));
  }

  lemma PricedIsOptimal(curves: seq<Curve>, ks: seq<nat>, log2: nat -> real, price: real)
    requires IsAllocation(curves, ks) && AllPriced(curves, ks, Worth(log2, price)) && price > 0.0
    ensures Optimal(curves, ks, log2)
  {
    forall other: seq<nat> | IsAllocation(curves, other) && Cost(curves, other) <= Cost(curves, ks)
      ensures Bits(log2, other) <= Bits(log2, ks)
    {
      MostProfitableOverall(curves, ks, Worth(log2, price), other);
      WorthComparesBits(log2, price, ks, other);
    }
  }

  // ----- At price zero only free steps have been taken

  lemma {:induction false} StepCostsGrow(c: Curve, k: nat)
    requires IsCostCurve(c) && 1 <= k && (k <= |c| || k == 1)
    ensures StepCosts(c, k) >= 0.0
    ensures forall j: nat :: 1 <= j < k ==> c[j] <= StepCosts(c, k)
  {
    if k > 1 { StepCostsGrow(c, k - 1); }
  }

  lemma {:induction false} LogGrows(log2: nat -> real, k: nat, l: nat)
    requires ConcaveLog(log2) && 0 < k <= l
    ensures log2(k) <= log2(l)
    decreases l - k
  {
    if k < l {
      LogGrows(log2, k, l - 1);
      assert Gain(log2, l - 1) > 0.0;
    }
  }

  /** Every step that is still open costs something. */
  ghost predicate NothingFree(curves: seq<Curve>, ks: seq<nat>) {
    |ks| == |curves| && forall i :: 0 <= i < |ks| && ks[i] < |curves[i]| ==> curves[i][ks[i]] > 0.0
  }

  lemma {:induction false} FreeStepsExhausted(curves: seq<Curve>, ks: seq<nat>, log2: nat -> real, other: seq<nat>)
    requires ConcaveLog(log2) && Regular(curves)
    requires IsAllocation(curves, ks) && IsAllocation(curves, other) && NothingFree(curves, ks)
    ensures Cost(curves, other) >= 0.0
    ensures Cost(curves, other) <= 0.0 ==> Bits(log2, other) <= Bits(log2, ks)
    decreases |ks|
  {
    if ks != [] {
      assert forall c :: c in curves[1..] ==> c in curves;
      FreeStepsExhausted(curves[1..], ks[1..], log2, other[1..]);
      StepCostsGrow(curves[0], other[0]);
      if other[0] <= ks[0] { LogGrows(log2, other[0], ks[0]); }
    }
  }

  lemma {:induction false} PriceZeroCostsNothing(curves: seq<Curve>, ks: seq<nat>, log2: nat -> real)
    requires Regular(curves) && IsAllocation(curves, ks) && AllPriced(curves, ks, Worth(log2, 0.0))
    ensures Cost(curves, ks) <= 0.0
    decreases |ks|
  {
    if ks != [] {
      assert forall c :: c in curves[1..] ==> c in curves;
      PriceZeroCostsNothing(curves[1..], ks[1..], log2);
      FreeSteps(curves[0], ks[0], log2);
    }
  }

  lemma {:induction false} FreeSteps(c: Curve, k: nat, log2: nat -> real)
    requires IsCostCurve(c) && 1 <= k && (k <= |c| || k == 1) && Priced(c, k, Worth(log2, 0.0))
    ensures StepCosts(c, k) <= 0.0
  {
    if k > 1 {
      WorthOfStep(log2, 0.0, k - 1);
      FreeSteps(c, k - 1, log2);
    }
  }

  lemma StoppedIsOptimal(curves: seq<Curve>, ks: seq<nat>, log2: nat -> real, price: real)
    requires ConcaveLog(log2) && Regular(curves)
    requires IsAllocation(curves, ks) && price >= 0.0 && AllPriced(curves, ks, Worth(log2, price))
    requires price == 0.0 ==> NothingFree(curves, ks)
    ensures Optimal(curves, ks, log2)
  {
    if price > 0.0 {
      PricedIsOptimal(curves, ks, log2, price);
    } else {
      PriceZeroCostsNothing(curves, ks, log2);
      forall other: seq<nat> | IsAllocation(curves, other) && Cost(curves, other) <= Cost(curves, ks)
        ensures Bits(log2, other) <= Bits(log2, ks)
      {
        FreeStepsExhausted(curves, ks, log2, other);
      }
    }
  }

  /** An open free step is an improvement at no cost. */
  lemma FreeStepImproves(curves: seq<Curve>, ks: seq<nat>, log2: nat -> real)
    requires ConcaveLog(log2) && IsAllocation(curves, ks) && !NothingFree(curves, ks)
    ensures !Optimal(curves, ks, log2)
  {
    var i :| 0 <= i < |ks| && ks[i] < |curves[i]| && curves[i][ks[i]] <= 0.0;
    OneMoreStep(curves, ks, log2, i);
    var more := ks[i := ks[i] + 1];
    assert Cost(curves, more) <= Cost(curves, ks) && Bits(log2, more) > Bits(log2, ks);
  }

  // ----- The algorithm

  function Ones(n: nat): seq<nat> { seq(n, _ => 1) }

  lemma {:induction false} OnesAreFree(curves: seq<Curve>, log2: nat -> real)
    requires ConcaveLog(log2)
    ensures IsAllocation(curves, Ones(|curves|))
    ensures Cost(curves, Ones(|curves|)) == 0.0 && Bits(log2, Ones(|curves|)) == 0.0
  {
    if curves != [] {
      OnesAreFree(curves[1..], log2);
      assert Ones(|curves|)[1..] == Ones(|curves[1..]|);
    }
  }

  lemma OnesArePriced(curves: seq<Curve>, log2: nat -> real)
    requires Regular(curves)
    ensures AllPriced(curves, Ones(|curves|), Worth(log2, 0.0))
  {
    forall i | 0 <= i < |curves|
      ensures Priced(curves[i], 1, Worth(log2, 0.0))
    {
      var c := curves[i];
      assert c in curves;
      forall j: nat { WorthOfStep(log2, 0.0, j); }
      assert forall j: nat :: 1 <= j < |c| ==> c[0] <= c[j];
    }
  }

  function Open(curves: seq<Curve>, ks: seq<nat>): nat
    requires IsAllocation(curves, ks)
  {
    if ks == [] then 0 else (if ks[0] < |curves[0]| then |curves[0]| - ks[0] else 0) + Open(curves[1..], ks[1..])
  }

  lemma {:induction false} OneStepLess(curves: seq<Curve>, ks: seq<nat>, i: nat)
    requires IsAllocation(curves, ks) && i < |ks| && ks[i] < |curves[i]|
    ensures IsAllocation(curves, ks[i := ks[i] + 1]) && Open(curves, ks[i := ks[i] + 1]) < Open(curves, ks)
  {
    var more := ks[i := ks[i] + 1];
    if i == 0 {
      assert more[1..] == ks[1..];
    } else {
      OneStepLess(curves[1..], ks[1..], i - 1);
      assert more[1..] == ks[1..][i - 1 := ks[i] + 1];
    }
  }

  function Budget(curves: seq<Curve>, tau: real): real { (|curves| as real) * tau }

  /** Either every position is maxed out or the best step does not fit. */
  ghost predicate Exhausted(curves: seq<Curve>, ks: seq<nat>, log2: nat -> real, budget: real)
    requires IsAllocation(curves, ks) && ConcaveLog(log2)
  {
    || (forall i :: 0 <= i < |ks| ==> ks[i] >= |curves[i]|)
    || exists i: nat :: IsBest(curves, ks, log2, |ks|, i) && Cost(curves, ks) + curves[i][ks[i]] > budget
  }

  ghost predicate Regular(curves: seq<Curve>) { forall c :: c in curves ==> IsCostCurve(c) }

  lemma BestIsUnique(curves: seq<Curve>, ks: seq<nat>, log2: nat -> real, i: nat, j: nat)
    requires IsAllocation(curves, ks) && ConcaveLog(log2)
    requires IsBest(curves, ks, log2, |ks|, i) && IsBest(curves, ks, log2, |ks|, j)
    ensures i == j
  {
  }

  /** Position `i` is the best one, and its next step fits. */
  ghost predicate Takes(curves: seq<Curve>, ks: seq<nat>, log2: nat -> real, budget: real, i: nat)
    requires IsAllocation(curves, ks) && ConcaveLog(log2)
  {
    IsBest(curves, ks, log2, |ks|, i) && Cost(curves, ks) + curves[i][ks[i]] <= budget
  }

  /** The position whose step is taken, or the number of positions when there is none. */
  ghost function NextTaken(curves: seq<Curve>, ks: seq<nat>, log2: nat -> real, budget: real): (i: nat)
    requires IsAllocation(curves, ks) && ConcaveLog(log2)
    ensures i < |ks| ==> Takes(curves, ks, log2, budget, i)
    ensures i >= |ks| ==> forall j: nat :: !Takes(curves, ks, log2, budget, j)
  {
    if i: nat :| Takes(curves, ks, log2, budget, i) then i else |ks|
  }

  /** What taking the best step as long as it fits leads to from `ks`. */
  ghost function Greedy(curves: seq<Curve>, ks: seq<nat>, log2: nat -> real, budget: real): seq<nat>
    requires IsAllocation(curves, ks) && ConcaveLog(log2)
    decreases Open(curves, ks)
  {
    var i := NextTaken(curves, ks, log2, budget);
    if i >= |ks| then ks
    else
      OneStepLess(curves, ks, i);
      Greedy(curves, ks[i := ks[i] + 1], log2, budget)
  }

  lemma TakesNext(curves: seq<Curve>, ks: seq<nat>, log2: nat -> real, budget: real, best: nat)
    requires IsAllocation(curves, ks) && ConcaveLog(log2) && Takes(curves, ks, log2, budget, best)
    ensures NextTaken(curves, ks, log2, budget) == best
  {
    BestIsUnique(curves, ks, log2, NextTaken(curves, ks, log2, budget), best);
  }

  lemma GreedyTakes(curves: seq<Curve>, ks: seq<nat>, log2: nat -> real, budget: real, best: nat)
    requires IsAllocation(curves, ks) && ConcaveLog(log2) && Takes(curves, ks, log2, budget, best)
    ensures IsAllocation(curves, ks[best := ks[best] + 1])
    ensures Greedy(curves, ks, log2, budget) == Greedy(curves, ks[best := ks[best] + 1], log2, budget)
  {
    TakesNext(curves, ks, log2, budget, best);
    GreedyUnfolds(curves, ks, log2, budget, best);
  }

  lemma GreedyUnfolds(curves: seq<Curve>, ks: seq<nat>, log2: nat -> real, budget: real, i: nat)
    requires IsAllocation(curves, ks) && ConcaveLog(log2) && i == NextTaken(curves, ks, log2, budget) < |ks|
    ensures IsAllocation(curves, ks[i := ks[i] + 1])
    ensures Greedy(curves, ks, log2, budget) == Greedy(curves, ks[i := ks[i] + 1], log2, budget)
  {
    OneStepLess(curves, ks, i);
  }

  lemma GreedyStops(curves: seq<Curve>, ks: seq<nat>, log2: nat -> real, budget: real)
    requires IsAllocation(curves, ks) && ConcaveLog(log2) && Exhausted(curves, ks, log2, budget)
    ensures Greedy(curves, ks, log2, budget) == ks
  {
    forall i: nat, j: nat | IsBest(curves, ks, log2, |ks|, i) && IsBest(curves, ks, log2, |ks|, j)
      ensures i == j
    {
      BestIsUnique(curves, ks, log2, i, j);
    }
  }

  /** The books balance for any curves at all. On cost curves the result is optimal for what it
      spends, except when the budget is negative and some first step is free of charge: then the
      loop stops before that step. For the budget it is less than one step short. */
  method WaterFill(curves: seq<Curve>, tau: real, log2: nat -> real)
    returns (totalBits: real, totalCost: real, ks: seq<nat>)
    requires ConcaveLog(log2)
    ensures IsAllocation(curves, ks)
    ensures totalCost == Cost(curves, ks) && totalBits == Bits(log2, ks)
    ensures totalCost <= Budget(curves, tau) || ks == Ones(|curves|)
    ensures IsAllocation(curves, Ones(|curves|)) && ks == Greedy(curves, Ones(|curves|), log2, Budget(curves, tau))
    ensures Exhausted(curves, ks, log2, Budget(curves, tau))
    ensures Regular(curves) && Budget(curves, tau) < 0.0 ==> ks == Ones(|curves|)
    ensures Regular(curves) ==>
              (Optimal(curves, ks, log2) <==> Budget(curves, tau) >= 0.0 || NothingFree(curves, Ones(|curves|)))
    ensures Regular(curves) ==> NearlyBest(curves, ks, log2, Budget(curves, tau))
  {
    var budget := Budget(curves, tau);
    ks := Ones(|curves|);
    totalBits, totalCost := 0.0, 0.0;
    OnesAreFree(curves, log2);
    ghost var price := 0.0;
    if Regular(curves) { OnesArePriced(curves, log2); }
    while true
      invariant IsAllocation(curves, ks) && totalCost == Cost(curves, ks) && totalBits == Bits(log2, ks)
      invariant totalCost <= budget || ks == Ones(|curves|)
      invariant Regular(curves) ==> price >= 0.0 && AllPriced(curves, ks, Worth(log2, price))
      invariant Regular(curves) && budget < 0.0 ==> ks == Ones(|curves|)
      invariant Greedy(curves, ks, log2, budget) == Greedy(curves, Ones(|curves|), log2, budget)
      decreases Open(curves, ks)
    {
      var found, best := FindBest(curves, ks, log2);
      if !found { break; }
      var addedCost := MarginalCost(curves[best], ks[best]);
      var addedBits := Gain(log2, ks[best]);
      if totalCost + addedCost > budget { break; }
      if Regular(curves) {
        TakesBest(curves, ks, log2, price, best);
        NotNegative(curves, ks, best);
        price := NextPrice(curves[best], ks[best], log2, price);
      }
      GreedyTakes(curves, ks, log2, budget, best);
      OneMoreStep(curves, ks, log2, best);
      OneStepLess(curves, ks, best);
      ks := ks[best := ks[best] + 1];
      totalCost := totalCost + addedCost;
      totalBits := totalBits + addedBits;
    }
    GreedyStops(curves, ks, log2, budget);
    if Regular(curves) {
      StopsOptimally(curves, ks, log2, price, budget);
      StopsNearBest(curves, ks, log2, price, budget);
    }
  }

  lemma NotNegative(curves: seq<Curve>, ks: seq<nat>, best: nat)
    requires Regular(curves) && IsAllocation(curves, ks) && best < |ks| && ks[best] < |curves[best]|
    ensures Cost(curves, ks) >= 0.0 && curves[best][ks[best]] >= 0.0
  {
    assert curves[best] in curves;
    CostNotNegative(curves, ks);
  }

  lemma {:induction false} CostNotNegative(curves: seq<Curve>, ks: seq<nat>)
    requires Regular(curves) && IsAllocation(curves, ks)
    ensures Cost(curves, ks) >= 0.0
    decreases |ks|
  {
    if ks != [] {
      assert forall c :: c in curves[1..] ==> c in curves;
      StepCostsGrow(curves[0], ks[0]);
      CostNotNegative(curves[1..], ks[1..]);
    }
  }

  lemma StopsOptimally(curves: seq<Curve>, ks: seq<nat>, log2: nat -> real, price: real, budget: real)
    requires ConcaveLog(log2) && Regular(curves)
    requires IsAllocation(curves, ks) && price >= 0.0 && AllPriced(curves, ks, Worth(log2, price))
    requires Exhausted(curves, ks, log2, budget)
    ensures Optimal(curves, ks, log2) <==> budget >= 0.0 || NothingFree(curves, ks)
  {
    if !NothingFree(curves, ks) {
      FreeStepImproves(curves, ks, log2);
    }
    if budget >= 0.0 || NothingFree(curves, ks) {
      if price == 0.0 {
        PriceZeroCostsNothing(curves, ks, log2);
        if budget >= 0.0 { NothingFreeLeft(curves, ks, log2, budget); }
      }
      StoppedIsOptimal(curves, ks, log2, price);
    }
  }

  lemma PositiveRatio(c: Curve, k: nat, log2: nat -> real)
    requires 0 < k < |c| && Gain(log2, k) > 0.0
    ensures c[k] > 0.0 <==> Ratio(c, k, log2) > 0.0
  {
    QuotientTimes(c[k], Gain(log2, k));
  }

  lemma NothingFreeLeft(curves: seq<Curve>, ks: seq<nat>, log2: nat -> real, budget: real)
    requires ConcaveLog(log2) && IsAllocation(curves, ks) && Cost(curves, ks) <= 0.0 <= budget
    requires Exhausted(curves, ks, log2, budget)
    ensures NothingFree(curves, ks)
  {
    if exists i :: 0 <= i < |ks| && ks[i] < |curves[i]| {
      var best: nat :| IsBest(curves, ks, log2, |ks|, best) && Cost(curves, ks) + curves[best][ks[best]] > budget;
      PositiveRatio(curves[best], ks[best], log2);
      forall i | 0 <= i < |ks| && ks[i] < |curves[i]|
        ensures curves[i][ks[i]] > 0.0
      {
        PositiveRatio(curves[i], ks[i], log2);
      }
    }
  }

  // ----- What is lost against the budget

  /** `other` gains no more over `ks` than the unspent rest buys at the price of the step that did not
      fit, and less than that step would have brought. */
  ghost predicate ShortBy(
    curves: seq<Curve>, ks: seq<nat>, log2: nat -> real, budget: real, best: nat, other: seq<nat>)
    requires IsAllocation(curves, ks) && ConcaveLog(log2) && best < |ks| && ks[best] < |curves[best]|
  {
    Affords(curves[best][ks[best]] / Gain(log2, ks[best]), Bits(log2, other) - Bits(log2, ks),
            budget - Cost(curves, ks), Gain(log2, ks[best]))
  }

  predicate Affords(price: real, surplus: real, unspent: real, gain: real) {
    price * surplus <= unspent && surplus < gain
  }

  /** How far `ks` may be from the best allocation within the budget. */
  ghost predicate NearlyBest(curves: seq<Curve>, ks: seq<nat>, log2: nat -> real, budget: real)
    requires IsAllocation(curves, ks) && ConcaveLog(log2)
  {
    forall other: seq<nat> :: IsAllocation(curves, other) && Cost(curves, other) <= budget ==>
      && (MaxedOut(curves, ks) ==> Bits(log2, other) <= Bits(log2, ks))
      && forall best: nat :: IsBest(curves, ks, log2, |ks|, best) ==> ShortBy(curves, ks, log2, budget, best, other)
  }

  ghost predicate MaxedOut(curves: seq<Curve>, ks: seq<nat>)
    requires IsAllocation(curves, ks)
  {
    forall i :: 0 <= i < |ks| ==> ks[i] >= |curves[i]|
  }

  lemma {:induction false} MaxedOutIsBest(curves: seq<Curve>, ks: seq<nat>, log2: nat -> real, other: seq<nat>)
    requires ConcaveLog(log2) && IsAllocation(curves, ks) && IsAllocation(curves, other) && MaxedOut(curves, ks)
    ensures Bits(log2, other) <= Bits(log2, ks)
    decreases |ks|
  {
    if ks != [] {
      LogGrows(log2, other[0], ks[0]);
      MaxedOutIsBest(curves[1..], ks[1..], log2, other[1..]);
    }
  }

  /** `price` times `g` is `c`, and so on; `co` and `ck` are what the two allocations cost. */
  lemma UnspentBuys(
    price: real, g: real, c: real, a: real, b: real, pa: real, pb: real, co: real, ck: real, budget: real)
    requires price > 0.0 && IsProduct(price, g, c) && IsProduct(price, a, pa) && IsProduct(price, b, pb)
    requires pa - co <= pb - ck && co <= budget < ck + c
    ensures Affords(price, a - b, budget - ck, g)
  {
    assert price * (a - b) == pa - pb;
    if a - b >= g { TimesMonotone(g, a - b, price); }
  }

  lemma PriceOfStep(c: real, g: real)
    requires c > 0.0 && g > 0.0
    ensures c / g > 0.0 && IsProduct(c / g, g, c)
  {
    QuotientTimes(c, g);
  }

  lemma StopsShort(
    curves: seq<Curve>, ks: seq<nat>, log2: nat -> real, price: real, budget: real, best: nat, other: seq<nat>)
    requires ConcaveLog(log2) && Regular(curves) && IsAllocation(curves, ks) && IsAllocation(curves, other)
    requires price >= 0.0 && AllPriced(curves, ks, Worth(log2, price)) && IsBest(curves, ks, log2, |ks|, best)
    requires Cost(curves, other) <= budget < Cost(curves, ks) + curves[best][ks[best]] && curves[best][ks[best]] > 0.0
    ensures ShortBy(curves, ks, log2, budget, best, other)
  {
    var c, g := curves[best][ks[best]], Gain(log2, ks[best]);
    var next := NextPrice(curves[best], ks[best], log2, price);
    RepricesAll(curves, ks, log2, price, best);
    MostProfitableOverall(curves, ks, Worth(log2, next), other);
    WorthOfAll(log2, next, ks);
    WorthOfAll(log2, next, other);
    PriceOfStep(c, g);
    UnspentBuys(next, g, c, Bits(log2, other), Bits(log2, ks),
                Bits(Worth(log2, next), other), Bits(Worth(log2, next), ks),
                Cost(curves, other), Cost(curves, ks), budget);
  }

  lemma StopsNearBest(curves: seq<Curve>, ks: seq<nat>, log2: nat -> real, price: real, budget: real)
    requires ConcaveLog(log2) && Regular(curves) && IsAllocation(curves, ks)
    requires price >= 0.0 && AllPriced(curves, ks, Worth(log2, price))
    requires Exhausted(curves, ks, log2, budget) && (Cost(curves, ks) <= budget || ks == Ones(|curves|))
    ensures NearlyBest(curves, ks, log2, budget)
  {
    forall other: seq<nat> | IsAllocation(curves, other) && Cost(curves, other) <= budget
      ensures MaxedOut(curves, ks) ==> Bits(log2, other) <= Bits(log2, ks)
      ensures forall best: nat :: IsBest(curves, ks, log2, |ks|, best) ==>
                ShortBy(curves, ks, log2, budget, best, other)
    {
      if MaxedOut(curves, ks) { MaxedOutIsBest(curves, ks, log2, other); }
      forall best: nat | IsBest(curves, ks, log2, |ks|, best)
        ensures ShortBy(curves, ks, log2, budget, best, other)
      {
        StepDidNotFit(curves, ks, log2, budget, best);
        CostNotNegative(curves, other);
        OnesAreFree(curves, log2);
        StopsShort(curves, ks, log2, price, budget, best, other);
      }
    }
  }

  lemma StepDidNotFit(curves: seq<Curve>, ks: seq<nat>, log2: nat -> real, budget: real, best: nat)
    requires ConcaveLog(log2) && IsAllocation(curves, ks)
    requires Exhausted(curves, ks, log2, budget) && IsBest(curves, ks, log2, |ks|, best)
    ensures Cost(curves, ks) + curves[best][ks[best]] > budget
  {
    var i: nat :| IsBest(curves, ks, log2, |ks|, i) && Cost(curves, ks) + curves[i][ks[i]] > budget;
    BestIsUnique(curves, ks, log2, i, best);
  }

  // ----- Inputs on which greedy falls short

  /** A negative budget and a free first step: that step is not taken. */
  lemma NegativeBudgetMissesFreeStep(log2: nat -> real)
    requires ConcaveLog(log2)
    ensures var curves: seq<Curve> := [[0.0, 0.0]];
            && Regular(curves) && Budget(curves, -1.0) < 0.0
            && !NothingFree(curves, Ones(1)) && IsAllocation(curves, [1])
            && Greedy(curves, [1], log2, Budget(curves, -1.0)) == [1] && !Optimal(curves, [1], log2)
  {
    var curves: seq<Curve> := [[0.0, 0.0]];
    assert curves[0][1] == 0.0;
    FreeStepImproves(curves, [1], log2);
    assert Cost(curves, [1]) == 0.0;
    assert IsBest(curves, [1], log2, 1, 0);
    GreedyStops(curves, [1], log2, Budget(curves, -1.0));
  }

  /** Two positions and a budget of `Gain(log2, 2)`: a bit costs the same in all steps but the free one. */
  function EvenCurves(log2: nat -> real): (curves: seq<Curve>)
    ensures |curves| == 2
  {
    [[0.0, Gain(log2, 1)], [0.0, 0.0, Gain(log2, 2)]]
  }

  /** The step of least ratio does not fit but a smaller, no cheaper one does: greedy stops short of
      the best allocation within the budget. */
  lemma BudgetOptimumMissed(log2: nat -> real, curves: seq<Curve>, tau: real)
    requires ConcaveLog(log2) && Gain(log2, 2) < Gain(log2, 1)
    requires curves == EvenCurves(log2) && tau == Gain(log2, 2) / 2.0
    ensures Regular(curves) && IsAllocation(curves, [1, 1]) && IsAllocation(curves, [1, 3])
    ensures Greedy(curves, [1, 1], log2, Budget(curves, tau)) == [1, 2]
    ensures Cost(curves, [1, 3]) <= Budget(curves, tau) && Bits(log2, [1, 3]) > Bits(log2, [1, 2])
  {
    CostsOf(curves, log2);
    FirstStepsOf(curves, log2);
    TakesOneStep(curves, [1, 1], [1, 2], log2, Budget(curves, tau), 1, 0);
  }

  /** One step fits, the next one does not. */
  lemma TakesOneStep(
    curves: seq<Curve>, ks: seq<nat>, more: seq<nat>, log2: nat -> real, budget: real, i: nat, j: nat)
    requires ConcaveLog(log2) && IsAllocation(curves, ks) && Takes(curves, ks, log2, budget, i)
    requires more == ks[i := ks[i] + 1] && IsAllocation(curves, more)
    requires IsBest(curves, more, log2, |more|, j) && Cost(curves, more) + curves[j][more[j]] > budget
    ensures Greedy(curves, ks, log2, budget) == more
  {
    GreedyTakes(curves, ks, log2, budget, i);
    GreedyStops(curves, more, log2, budget);
  }

  lemma CostsOf(curves: seq<Curve>, log2: nat -> real)
    requires ConcaveLog(log2) && curves == EvenCurves(log2)
    ensures IsAllocation(curves, [1, 1]) && Cost(curves, [1, 1]) == 0.0
    ensures IsAllocation(curves, [1, 2]) && Cost(curves, [1, 2]) == 0.0
    ensures IsAllocation(curves, [1, 3]) && Cost(curves, [1, 3]) == Gain(log2, 2)
    ensures Bits(log2, [1, 3]) == Bits(log2, [1, 2]) + Gain(log2, 2)
  {
    OnesAreFree(curves, log2);
    assert Ones(2) == [1, 1];
    OneMoreStep(curves, [1, 1], log2, 1);
    assert [1, 1][1 := 2] == [1, 2];
    OneMoreStep(curves, [1, 2], log2, 1);
    assert [1, 2][1 := 3] == [1, 3];
  }

  lemma FirstStepsOf(curves: seq<Curve>, log2: nat -> real)
    requires ConcaveLog(log2) && curves == EvenCurves(log2)
    ensures IsAllocation(curves, [1, 1]) && IsBest(curves, [1, 1], log2, 2, 1)
    ensures IsAllocation(curves, [1, 2]) && IsBest(curves, [1, 2], log2, 2, 0)
  {
    RatioAtGain(curves[0], 1, log2);
    RatioAtGain(curves[1], 2, log2);
    assert Ratio(curves[1], 1, log2) == -1.0;
  }

  lemma RatioAtGain(c: Curve, k: nat, log2: nat -> real)
    requires 0 < k < |c| && Gain(log2, k) > 0.0 && c[k] == Gain(log2, k)
    ensures Ratio(c, k, log2) == 1.0
  {
    QuotientTimes(c[k], Gain(log2, k));
  }
}
