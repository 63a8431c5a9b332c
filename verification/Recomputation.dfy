/** Seeded sampling (sampling.py), the autoregressive prover (server.py) and the teacher-forced
    verifier (difr.py), in exact arithmetic. The model's forward pass, the noise and the sorting
    routine are parameters. */
module Recomputation {
  import opened ByteStrings
  import opened Ranking

  type Token = nat

  /** `forward(window, t)` is the logit of token `t` after `window`. */
  datatype Model = Model(contextLen: nat, vocabSize: nat, forward: (seq<Token>, Token) -> real)

  datatype Setting = Setting(
    model: Model, noise: (nat, nat, Token) -> real, sorter: Sorter, picker: Picker, seed: nat, temperature: real)

  ghost predicate Proper(s: Setting) { s.temperature != 0.0 && IsSorter(s.sorter) && IsPicker(s.picker) }

  const TOP_K: nat := 10
  const DELTA_MAX: real := 8.0
  const LOW_CONFIDENCE_TOKEN_THRESHOLD: nat := 5

  // ----- Windows and scores

  /** `s[-n:]`; for n = 0 that is all of `s`. */
  function LastSlice(s: seq<Token>, n: nat): seq<Token> { if n == 0 || |s| <= n then s else s[|s| - n..] }

  function PadLeft(window: seq<Token>, n: nat): seq<Token> {
    if |window| < n then seq(n - |window|, _ => 0) + window else window
  }

  /** The generator's context after `s`. */
  function Context(s: seq<Token>, contextLen: nat): seq<Token> { PadLeft(LastSlice(s, contextLen), contextLen) }

  /** The verifier's context for predicting `full[end]`. */
  function ForcedContext(full: seq<Token>, end: nat, contextLen: nat): seq<Token>
    requires end <= |full|
  {
    PadLeft(full[if end < contextLen then 0 else end - contextLen..end], contextLen)
  }

  function Logits(model: Model, window: seq<Token>): (logits: seq<real>)
    ensures |logits| == model.vocabSize
  {
    seq(model.vocabSize, t requires 0 <= t < model.vocabSize => model.forward(window, t))
  }

  /** `logits / temperature + gumbel_noise(seed, position, vocab)`. */
  function Scored(s: Setting, logits: seq<real>, position: nat): (scores: seq<real>)
    requires s.temperature != 0.0
    ensures |scores| == |logits|
  {
    seq(|logits|, t requires 0 <= t < |logits| => logits[t] / s.temperature + s.noise(s.seed, position, t))
  }

  function Scores(s: Setting, window: seq<Token>, position: nat): (scores: seq<real>)
    requires s.temperature != 0.0
    ensures |scores| == s.model.vocabSize
  {
    Scored(s, Logits(s.model, window), position)
  }

  function SampleToken(s: Setting, logits: seq<real>, position: nat): (t: Token)
    requires Proper(s) && logits != []
    ensures IsArgMax(Scored(s, logits, position), t)
  {
    assert IsArgMax(Scored(s, logits, position), s.picker(Scored(s, logits, position)));
    s.picker(Scored(s, logits, position))
  }

  // ----- The prover

  /** `n` tokens, each one chosen after those before it. */
  function Iterate(next: seq<Token> -> Token, n: nat): (out: seq<Token>)
    ensures |out| == n
  {
    if n == 0 then [] else Iterate(next, n - 1) + [next(Iterate(next, n - 1))]
  }

  function NextToken(s: Setting, prompt: seq<Token>, before: seq<Token>): (t: Token)
    requires Proper(s) && s.model.vocabSize > 0
    ensures t < s.model.vocabSize
  {
    SampleToken(s, Logits(s.model, Context(prompt + before, s.model.contextLen)), |prompt| + |before|)
  }

  function Chooser(s: Setting, prompt: seq<Token>): seq<Token> -> Token
    requires Proper(s) && s.model.vocabSize > 0
  {
    before => NextToken(s, prompt, before)
  }

  /** The first `n` tokens generated after `prompt`. */
  function Generated(s: Setting, prompt: seq<Token>, n: nat): (out: seq<Token>)
    requires Proper(s) && s.model.vocabSize > 0
    ensures |out| == n
  {
    Iterate(Chooser(s, prompt), n)
  }

  lemma {:induction false} IteratePrefix(next: seq<Token> -> Token, n: nat, i: nat)
    requires i <= n
    ensures Iterate(next, n)[..i] == Iterate(next, i)
    decreases n
  {
    if i < n {
      IteratePrefix(next, n - 1, i);
      assert Iterate(next, n)[..i] == Iterate(next, n - 1)[..i];
    }
  }

  lemma IterateAt(next: seq<Token> -> Token, n: nat, i: nat)
    requires i < n
    ensures Iterate(next, n)[i] == next(Iterate(next, i)) && Iterate(next, n)[..i] == Iterate(next, i)
  {
    IteratePrefix(next, n, i);
    IteratePrefix(next, n, i + 1);
    assert Iterate(next, n)[i] == Iterate(next, n)[..i + 1][i];
  }

  /** A sequence in which every token is the one chosen after those before it. */
  lemma {:induction false} IsIterate(next: seq<Token> -> Token, out: seq<Token>, n: nat)
    requires n <= |out| && forall i :: 0 <= i < n && out[..i] == Iterate(next, i) ==> out[i] == next(out[..i])
    ensures out[..n] == Iterate(next, n)
  {
    if n > 0 {
      IsIterate(next, out, n - 1);
      assert out[..n] == out[..n - 1] + [out[n - 1]];
    }
  }

  lemma GeneratedInVocabulary(s: Setting, prompt: seq<Token>, n: nat)
    requires Proper(s) && s.model.vocabSize > 0
    ensures InVocabulary(s, Generated(s, prompt, n))
  {
    forall i | 0 <= i < n
      ensures Generated(s, prompt, n)[i] < s.model.vocabSize
    {
      IterateAt(Chooser(s, prompt), n, i);
    }
  }

  method ProverGenerate(s: Setting, prompt: seq<Token>, maxTokens: nat) returns (out: seq<Token>)
    requires Proper(s) && s.model.vocabSize > 0
    ensures out == Generated(s, prompt, maxTokens)
  {
    var sequence := prompt;
    out := [];
    ghost var next := Chooser(s, prompt);
    for i := 0 to maxTokens
      invariant out == Iterate(next, i) && sequence == prompt + out
    {
      var window := Context(sequence, s.model.contextLen);
      var tok := SampleToken(s, Logits(s.model, window), |prompt| + i);
      assert tok == next(out);
      out := out + [tok];
      sequence := sequence + [tok];
    }
  }

  // ----- The verifier

  datatype TokenReport = TokenReport(
    position: nat, claimedToken: Token, topToken: Token, rankOfClaimed: nat,
    rawDeviation: Option<real>, deviation: real, clipped: bool)

  datatype Report = Report(perToken: seq<TokenReport>, avgDeviation: real, lowConfidence: bool, nTokens: nat)

  function Judged(s: Setting, scores: seq<real>, position: nat, claimed: Token): TokenReport
    requires Proper(s) && claimed < |scores|
  {
    var order := s.sorter(scores);
    assert Ranks(order, scores) && claimed in order;
    var rank := RankOf(order, claimed);
    var top := order[0];
    if rank < TOP_K then
      var gap := scores[top] - scores[claimed];
      var raw := if gap > 0.0 then gap else 0.0;
      TokenReport(position, claimed, top, rank, Some(raw), if raw < DELTA_MAX then raw else DELTA_MAX, raw >= DELTA_MAX)
    else
      TokenReport(position, claimed, top, rank, None, DELTA_MAX, true)
  }

  /** The scores of the verifier at output position `i`. */
  function ForcedScores(s: Setting, prompt: seq<Token>, claimed: seq<Token>, i: nat): (scores: seq<real>)
    requires s.temperature != 0.0 && i < |claimed|
    ensures |scores| == s.model.vocabSize
  {
    Scores(s, ForcedContext(prompt + claimed, |prompt| + i, s.model.contextLen), |prompt| + i)
  }

  predicate InVocabulary(s: Setting, tokens: seq<Token>) {
    forall i :: 0 <= i < |tokens| ==> tokens[i] < s.model.vocabSize
  }

  function JudgedAt(s: Setting, prompt: seq<Token>, claimed: seq<Token>, i: nat): TokenReport
    requires Proper(s) && i < |claimed| && claimed[i] < s.model.vocabSize
  {
    Judged(s, ForcedScores(s, prompt, claimed, i), i, claimed[i])
  }

  function ReportAt(s: Setting, prompt: seq<Token>, claimed: seq<Token>, i: nat): TokenReport
    requires Proper(s) && InVocabulary(s, claimed) && i < |claimed|
  {
    JudgedAt(s, prompt, claimed, i)
  }

  function Deviations(s: Setting, prompt: seq<Token>, claimed: seq<Token>): (ds: seq<real>)
    requires Proper(s) && InVocabulary(s, claimed)
    ensures |ds| == |claimed|
  {
    seq(|claimed|, i requires 0 <= i < |claimed| => ReportAt(s, prompt, claimed, i).deviation)
  }

  function Sum(xs: seq<real>): real { if xs == [] then 0.0 else xs[0] + Sum(xs[1..]) }

  function Average(xs: seq<real>): real
    requires xs != []
  {
    Sum(xs) / (|xs| as real)
  }

  function AvgDeviation(s: Setting, prompt: seq<Token>, claimed: seq<Token>): real
    requires Proper(s) && InVocabulary(s, claimed)
  {
    if claimed == [] then 0.0 else Average(Deviations(s, prompt, claimed))
  }

  /** What the verifier's answer contains. */
  ghost predicate Faithful(s: Setting, prompt: seq<Token>, claimed: seq<Token>, report: Report)
    requires Proper(s) && InVocabulary(s, claimed)
  {
    && report.nTokens == |claimed| == |report.perToken|
    && (forall i :: 0 <= i < |claimed| ==> report.perToken[i] == ReportAt(s, prompt, claimed, i))
    && report.avgDeviation == AvgDeviation(s, prompt, claimed)
    && (report.lowConfidence <==> |claimed| < LOW_CONFIDENCE_TOKEN_THRESHOLD)
  }

  /** A claimed token outside the vocabulary makes an index error, for which None stands. */
  method Verify(s: Setting, prompt: seq<Token>, claimed: seq<Token>) returns (report: Option<Report>)
    requires Proper(s) && InVocabulary(s, prompt)
    ensures report.None? <==> !InVocabulary(s, claimed)
    ensures report.Some? ==> InVocabulary(s, claimed) && Faithful(s, prompt, claimed, report.value)
    ensures report.Some? ==> Meaningful(s, prompt, claimed, report.value)
  {
    var contextLen := s.model.contextLen;
    var full := prompt + claimed;
    var n := |claimed|;
    if n == 0 {
      FaithfulIsMeaningful(s, prompt, claimed, Report([], 0.0, true, 0));
      return Some(Report([], 0.0, true, 0));
    }
    var contexts := [];
    for i := 0 to n
      invariant |contexts| == i
      invariant forall k :: 0 <= k < i ==> contexts[k] == ForcedContext(full, |prompt| + k, contextLen)
    {
      var end := |prompt| + i;
      var start := end - contextLen;
      var window := full[if start > 0 then start else 0..end];
      if |window| < contextLen {
        window := seq(contextLen - |window|, _ => 0) + window;
      }
      contexts := contexts + [window];
    }
    report := JudgeAll(s, prompt, claimed, contexts);
    if report.Some? { FaithfulIsMeaningful(s, prompt, claimed, report.value); }
  }

  method JudgeAll(s: Setting, prompt: seq<Token>, claimed: seq<Token>, contexts: seq<seq<Token>>)
    returns (report: Option<Report>)
    requires Proper(s) && claimed != [] && |contexts| == |claimed|
    requires forall k :: 0 <= k < |claimed| ==>
               contexts[k] == ForcedContext(prompt + claimed, |prompt| + k, s.model.contextLen)
    ensures report.None? <==> !InVocabulary(s, claimed)
    ensures report.Some? ==> InVocabulary(s, claimed) && Faithful(s, prompt, claimed, report.value)
  {
    var perToken := [];
    var deviations := [];
    for i := 0 to |claimed|
      invariant |perToken| == |deviations| == i
      invariant forall k :: 0 <= k < i ==> claimed[k] < s.model.vocabSize
      invariant forall k :: 0 <= k < i ==>
                  perToken[k] == JudgedAt(s, prompt, claimed, k) && deviations[k] == perToken[k].deviation
    {
      if claimed[i] >= s.model.vocabSize { return None; }
      var record := Judged(s, Scores(s, contexts[i], |prompt| + i), i, claimed[i]);
      assert record == JudgedAt(s, prompt, claimed, i);
      perToken := perToken + [record];
      deviations := deviations + [record.deviation];
    }
    assert deviations == Deviations(s, prompt, claimed);
    report := Some(Report(perToken, Average(deviations), |claimed| < LOW_CONFIDENCE_TOKEN_THRESHOLD, |claimed|));
  }

  // ----- What a deviation says

  /** Deviations lie between 0 and the maximum, which exactly the clipped ones reach; a deviation is
      zero exactly for a token that scores as high as any and is ranked among the first ten. */
  lemma DeviationMeaning(s: Setting, scores: seq<real>, position: nat, claimed: Token)
    requires Proper(s) && claimed < |scores|
    ensures var r := Judged(s, scores, position, claimed);
            && 0.0 <= r.deviation <= DELTA_MAX
            && (r.clipped <==> r.deviation == DELTA_MAX)
            && (r.deviation == 0.0 <==>
                  r.rankOfClaimed < TOP_K && forall t :: 0 <= t < |scores| ==> scores[t] <= scores[claimed])
  {
    var order := s.sorter(scores);
    assert Ranks(order, scores) && claimed in order;
    forall t: nat | t < |scores|
      ensures scores[t] <= scores[order[0]]
    {
      TopScoreIsMaximal(order, scores, t);
    }
  }

  // ----- The report in numbers

  /** The last `n` of the first `end` tokens, with zeros in front where there are too few. */
  ghost predicate IsWindow(window: seq<Token>, full: seq<Token>, end: nat, n: nat)
    requires end <= |full|
  {
    |window| == n && forall k :: 0 <= k < n ==> window[k] == if end + k < n then 0 else full[end + k - n]
  }

  lemma WindowIsForced(window: seq<Token>, full: seq<Token>, end: nat, n: nat)
    requires end <= |full|
    ensures IsWindow(window, full, end, n) <==> window == ForcedContext(full, end, n)
  {
    var forced := ForcedContext(full, end, n);
    assert IsWindow(forced, full, end, n);
    if IsWindow(window, full, end, n) {
      assert forall k :: 0 <= k < n ==> window[k] == forced[k];
    }
  }

  /** The logits behind that window, over the temperature, plus the noise of the position. */
  ghost predicate IsScored(s: Setting, full: seq<Token>, end: nat, scores: seq<real>)
    requires end <= |full| && s.temperature != 0.0
  {
    |scores| == s.model.vocabSize
    && forall window, t: Token :: IsWindow(window, full, end, s.model.contextLen) && t < |scores| ==>
         scores[t] == s.model.forward(window, t) / s.temperature + s.noise(s.seed, end, t)
  }

  lemma ScoresAre(s: Setting, prompt: seq<Token>, claimed: seq<Token>, i: nat, scores: seq<real>)
    requires s.temperature != 0.0 && i < |claimed|
    ensures IsScored(s, prompt + claimed, |prompt| + i, scores) <==> scores == ForcedScores(s, prompt, claimed, i)
  {
    var full, end, n := prompt + claimed, |prompt| + i, s.model.contextLen;
    var forced, forcedScores := ForcedContext(full, end, n), ForcedScores(s, prompt, claimed, i);
    forall window
      ensures IsWindow(window, full, end, n) <==> window == forced
    {
      WindowIsForced(window, full, end, n);
    }
    assert forall t: Token :: t < |forcedScores| ==>
             forcedScores[t] == s.model.forward(forced, t) / s.temperature + s.noise(s.seed, end, t);
    if IsScored(s, full, end, scores) {
      assert IsWindow(forced, full, end, n);
      assert forall t: Token :: t < |scores| ==> scores[t] == forcedScores[t];
    }
  }

  /** `m` is the highest score. */
  ghost predicate IsTop(scores: seq<real>, m: real) {
    (forall t :: 0 <= t < |scores| ==> scores[t] <= m) && exists t :: 0 <= t < |scores| && scores[t] == m
  }

  lemma {:induction false} SumGrows(xs: seq<real>, x: real)
    ensures Sum(xs + [x]) == Sum(xs) + x
  {
    if xs == [] {
      assert xs + [x] == [x] && [x][1..] == [];
    } else {
      assert (xs + [x])[1..] == xs[1..] + [x];
      SumGrows(xs[1..], x);
    }
  }

  /** One record: its position and token, a token with the highest score, a rank consistent with the
      scores, and below rank 10 the distance to the highest score, clipped at 8; from rank 10 on, 8. */
  ghost predicate IsRecord(r: TokenReport, i: nat, claimed: Token, scores: seq<real>, m: real) {
    && r.position == i && r.claimedToken == claimed && claimed < |scores|
    && r.topToken < |scores| && scores[r.topToken] == m
    && |Above(scores, scores[claimed])| <= r.rankOfClaimed < |AtLeast(scores, scores[claimed])|
    && var gap := m - scores[claimed];
    && r.rawDeviation == (if r.rankOfClaimed < 10 then Some(gap) else None)
    && r.deviation == (if r.rankOfClaimed < 10 && gap < 8.0 then gap else 8.0)
    && r.clipped == (r.rankOfClaimed >= 10 || gap >= 8.0)
  }

  lemma JudgedIsRecord(s: Setting, scores: seq<real>, i: nat, claimed: Token, m: real)
    requires Proper(s) && claimed < |scores| && IsTop(scores, m)
    ensures IsRecord(Judged(s, scores, i, claimed), i, claimed, scores, m)
  {
    var order := s.sorter(scores);
    assert Ranks(order, scores) && claimed in order;
    var t: Token :| t < |scores| && scores[t] == m;
    TopScoreIsMaximal(order, scores, t);
    PlaceCounts(order, scores, RankOf(order, claimed));
  }

  /** The records, one by one, for whatever the scores of the positions are. */
  lemma RecordsAre(
    s: Setting, prompt: seq<Token>, claimed: seq<Token>, report: Report, i: nat, scores: seq<real>, m: real)
    requires Proper(s) && InVocabulary(s, claimed) && Faithful(s, prompt, claimed, report) && i < |claimed|
    requires IsScored(s, prompt + claimed, |prompt| + i, scores) && IsTop(scores, m)
    ensures IsRecord(report.perToken[i], i, claimed[i], scores, m)
  {
    ScoresAre(s, prompt, claimed, i, scores);
    JudgedIsRecord(s, scores, i, claimed[i], m);
  }

  predicate IsMean(mean: real, n: nat, total: real) { mean * (n as real) == total }

  /** The totals: the average times the number of tokens is the sum of the deviations, and fewer than
      five tokens are low confidence. */
  lemma TotalsAre(s: Setting, prompt: seq<Token>, claimed: seq<Token>, report: Report, ds: seq<real>)
    requires Proper(s) && InVocabulary(s, claimed) && Faithful(s, prompt, claimed, report) && |ds| == |claimed|
    requires forall i :: 0 <= i < |ds| ==> ds[i] == report.perToken[i].deviation
    ensures report.nTokens == |report.perToken| == |claimed| && (report.lowConfidence <==> |claimed| < 5)
    ensures IsMean(report.avgDeviation, |claimed|, Sum(ds)) && (claimed == [] ==> report.avgDeviation == 0.0)
  {
    DeviationsAre(s, prompt, claimed, report, ds);
    if claimed != [] { AverageTimes(ds); }
  }

  lemma DeviationsAre(s: Setting, prompt: seq<Token>, claimed: seq<Token>, report: Report, ds: seq<real>)
    requires Proper(s) && InVocabulary(s, claimed) && Faithful(s, prompt, claimed, report) && |ds| == |claimed|
    requires forall i :: 0 <= i < |ds| ==> ds[i] == report.perToken[i].deviation
    ensures ds == Deviations(s, prompt, claimed)
  {
  }

  lemma AverageTimes(xs: seq<real>)
    requires xs != []
    ensures IsMean(Average(xs), |xs|, Sum(xs))
  {
    QuotientBack(Sum(xs), |xs| as real);
  }

  lemma QuotientBack(x: real, n: real)
    requires n > 0.0
    ensures x / n * n == x
  {
  }

  /** What the answer means, without the functions that compute it. */
  ghost predicate Meaningful(s: Setting, prompt: seq<Token>, claimed: seq<Token>, report: Report)
    requires s.temperature != 0.0
  {
    && report.nTokens == |report.perToken| == |claimed| && (report.lowConfidence <==> |claimed| < 5)
    && (forall i: nat, scores, m ::
          i < |claimed| && IsScored(s, prompt + claimed, |prompt| + i, scores) && IsTop(scores, m) ==>
            IsRecord(report.perToken[i], i, claimed[i], scores, m))
    && forall ds :: AreDeviations(ds, report.perToken) ==>
         IsMean(report.avgDeviation, |claimed|, Sum(ds)) && (claimed == [] ==> report.avgDeviation == 0.0)
  }

  ghost predicate AreDeviations(ds: seq<real>, records: seq<TokenReport>) {
    |ds| == |records| && forall i :: 0 <= i < |ds| ==> ds[i] == records[i].deviation
  }

  lemma FaithfulIsMeaningful(s: Setting, prompt: seq<Token>, claimed: seq<Token>, report: Report)
    requires Proper(s) && InVocabulary(s, claimed) && Faithful(s, prompt, claimed, report)
    ensures Meaningful(s, prompt, claimed, report)
  {
    forall i: nat, scores, m |
      i < |claimed| && IsScored(s, prompt + claimed, |prompt| + i, scores) && IsTop(scores, m)
      ensures IsRecord(report.perToken[i], i, claimed[i], scores, m)
    {
      RecordsAre(s, prompt, claimed, report, i, scores, m);
    }
    forall ds | AreDeviations(ds, report.perToken)
      ensures IsMean(report.avgDeviation, |claimed|, Sum(ds)) && (claimed == [] ==> report.avgDeviation == 0.0)
    {
      TotalsAre(s, prompt, claimed, report, ds);
    }
  }

  // ----- Bounded influence of one token

  lemma {:induction false} SumsDiffer(xs: seq<real>, ys: seq<real>, j: nat, k: nat, bound: real)
    requires |xs| == |ys| && j + k <= |xs| && bound >= 0.0
    requires forall i :: 0 <= i < |xs| && (i < j || j + k <= i) ==> xs[i] == ys[i]
    requires forall i :: 0 <= i < |xs| ==> xs[i] - ys[i] <= bound
    ensures Sum(xs) - Sum(ys) <= bound * (k as real)
  {
    if xs != [] {
      if j > 0 {
        SumsDiffer(xs[1..], ys[1..], j - 1, k, bound);
      } else if k > 0 {
        SumsDiffer(xs[1..], ys[1..], 0, k - 1, bound);
        assert bound * (k as real) == bound + bound * ((k - 1) as real);
      } else {
        SumsDiffer(xs[1..], ys[1..], 0, 0, bound);
      }
    }
  }

  /** How many positions a replacement at `j` can reach. */
  function Reach(contextLen: nat, n: nat, j: nat): nat
    requires j <= n
  {
    if contextLen + 1 <= n - j then contextLen + 1 else n - j
  }

  lemma ContextUntouched(prompt: seq<Token>, claimed: seq<Token>, j: nat, t: Token, i: nat, contextLen: nat)
    requires j < |claimed| && i < |claimed| && (i <= j || j + contextLen < i)
    ensures ForcedContext(prompt + claimed[j := t], |prompt| + i, contextLen)
         == ForcedContext(prompt + claimed, |prompt| + i, contextLen)
  {
    var full, other := prompt + claimed, prompt + claimed[j := t];
    var end := |prompt| + i;
    var start := if end < contextLen then 0 else end - contextLen;
    assert full[start..end] == other[start..end];
  }

  /** Replacing one claimed token leaves every report outside the `contextLen + 1` positions from it
      on exactly as it was. */
  lemma OnlyNearbyReportsChange(s: Setting, prompt: seq<Token>, claimed: seq<Token>, j: nat, t: Token, i: nat)
    requires Proper(s) && InVocabulary(s, claimed) && j < |claimed| && t < s.model.vocabSize && i < |claimed|
    requires i < j || j + s.model.contextLen < i
    ensures InVocabulary(s, claimed[j := t])
    ensures ReportAt(s, prompt, claimed[j := t], i) == ReportAt(s, prompt, claimed, i)
  {
    ContextUntouched(prompt, claimed, j, t, i, s.model.contextLen);
  }

  lemma QuotientsDiffer(x: real, y: real, d: real, n: real)
    requires n > 0.0 && x - y <= d
    ensures x / n - y / n <= d / n
  {
    assert x / n - y / n == (x - y) / n;
  }

  /** The maximal deviation at `k` of `n` positions, averaged. */
  function Limit(k: nat, n: nat): real
    requires n > 0
  {
    DELTA_MAX * (k as real) / (n as real)
  }

  /** So it moves the average by at most the maximal deviation at each of those positions. */
  lemma BoundedInfluence(s: Setting, prompt: seq<Token>, claimed: seq<Token>, j: nat, t: Token)
    requires Proper(s) && InVocabulary(s, claimed) && j < |claimed| && t < s.model.vocabSize
    ensures InVocabulary(s, claimed[j := t])
    ensures var limit := Limit(Reach(s.model.contextLen, |claimed|, j), |claimed|);
            -limit <= AvgDeviation(s, prompt, claimed[j := t]) - AvgDeviation(s, prompt, claimed) <= limit
  {
    var other := claimed[j := t];
    var xs, ys := Deviations(s, prompt, claimed), Deviations(s, prompt, other);
    var k := Reach(s.model.contextLen, |claimed|, j);
    forall i | 0 <= i < |claimed|
      ensures i < j || j + k <= i ==> xs[i] == ys[i]
      ensures -DELTA_MAX <= xs[i] - ys[i] <= DELTA_MAX
    {
      OneDeviation(s, prompt, claimed, j, t, i);
    }
    AveragesDiffer(xs, ys, j, k);
  }

  lemma OneDeviation(s: Setting, prompt: seq<Token>, claimed: seq<Token>, j: nat, t: Token, i: nat)
    requires Proper(s) && InVocabulary(s, claimed) && j < |claimed| && t < s.model.vocabSize && i < |claimed|
    ensures InVocabulary(s, claimed[j := t])
    ensures i < j || j + s.model.contextLen < i ==>
              ReportAt(s, prompt, claimed[j := t], i).deviation == ReportAt(s, prompt, claimed, i).deviation
    ensures var was, now := ReportAt(s, prompt, claimed, i), ReportAt(s, prompt, claimed[j := t], i);
            -DELTA_MAX <= was.deviation - now.deviation <= DELTA_MAX
  {
    var other := claimed[j := t];
    DeviationMeaning(s, ForcedScores(s, prompt, claimed, i), i, claimed[i]);
    DeviationMeaning(s, ForcedScores(s, prompt, other, i), i, other[i]);
    if i < j || j + s.model.contextLen < i { OnlyNearbyReportsChange(s, prompt, claimed, j, t, i); }
  }

  lemma AveragesDiffer(xs: seq<real>, ys: seq<real>, j: nat, k: nat)
    requires |xs| == |ys| > 0 && j + k <= |xs|
    requires forall i :: 0 <= i < |xs| && (i < j || j + k <= i) ==> xs[i] == ys[i]
    requires forall i :: 0 <= i < |xs| ==> -DELTA_MAX <= xs[i] - ys[i] <= DELTA_MAX
    ensures -Limit(k, |xs|) <= Average(ys) - Average(xs) <= Limit(k, |xs|)
  {
    SumsDiffer(xs, ys, j, k, DELTA_MAX);
    SumsDiffer(ys, xs, j, k, DELTA_MAX);
    QuotientsDiffer(Sum(xs), Sum(ys), DELTA_MAX * (k as real), |xs| as real);
    QuotientsDiffer(Sum(ys), Sum(xs), DELTA_MAX * (k as real), |xs| as real);
  }

  // ----- Honest generation

  /** The two ways of cutting a window agree exactly when the model has a context at all or nothing
      precedes the token: for a context of length 0 the prover's slice is the whole sequence. */
  lemma WindowsAgree(full: seq<Token>, end: nat, contextLen: nat)
    requires end <= |full|
    ensures Context(full[..end], contextLen) == ForcedContext(full, end, contextLen) <==> contextLen > 0 || end == 0
  {
    if contextLen > 0 && end > contextLen {
      assert full[..end][end - contextLen..] == full[end - contextLen..end];
    }
  }

  /** The prover's next token has the highest of the scores that the verifier computes. */
  lemma NextTokenIsTop(s: Setting, prompt: seq<Token>, claimed: seq<Token>, i: nat)
    requires Proper(s) && s.model.vocabSize > 0 && s.model.contextLen > 0 && i < |claimed|
    ensures IsArgMax(ForcedScores(s, prompt, claimed, i), NextToken(s, prompt, claimed[..i]))
  {
    var full := prompt + claimed;
    WindowsAgree(full, |prompt| + i, s.model.contextLen);
    assert full[..|prompt| + i] == prompt + claimed[..i];
    var scores := ForcedScores(s, prompt, claimed, i);
    assert NextToken(s, prompt, claimed[..i]) == s.picker(scores);
  }

  /** The tokens with the highest score. */
  ghost function TopTokens(scores: seq<real>): set<Token> {
    set t: nat | t < |scores| && forall u :: 0 <= u < |scores| ==> scores[u] <= scores[t]
  }

  /** Everything ranked before a top-scoring token ties with it. */
  lemma RankBelowTies(s: Setting, scores: seq<real>, claimed: Token)
    requires Proper(s) && claimed in TopTokens(scores)
    ensures Ranks(s.sorter(scores), scores) && claimed in s.sorter(scores)
    ensures RankOf(s.sorter(scores), claimed) < |TopTokens(scores)|
  {
    var order := s.sorter(scores);
    assert Ranks(order, scores) && claimed in order;
    var rank := RankOf(order, claimed);
    forall a | 0 <= a < rank + 1
      ensures order[a] in TopTokens(scores)
    {
      assert scores[order[a]] >= scores[order[rank]];
    }
    DistinctCount(order, rank + 1, TopTokens(scores));
  }

  lemma {:induction false} SumOfZeros(xs: seq<real>)
    requires forall i :: 0 <= i < |xs| ==> xs[i] >= 0.0
    ensures Sum(xs) >= 0.0
    ensures Sum(xs) == 0.0 <==> forall i :: 0 <= i < |xs| ==> xs[i] == 0.0
  {
    if xs != [] {
      SumOfZeros(xs[1..]);
      assert forall i :: 0 < i < |xs| ==> xs[i] == xs[1..][i - 1];
    }
  }

  lemma ZeroQuotient(x: real, n: real)
    requires n > 0.0
    ensures x / n == 0.0 <==> x == 0.0
  {
  }

  lemma AverageZero(s: Setting, prompt: seq<Token>, claimed: seq<Token>)
    requires Proper(s) && InVocabulary(s, claimed)
    ensures AvgDeviation(s, prompt, claimed) == 0.0
       <==> forall i :: 0 <= i < |claimed| ==> ReportAt(s, prompt, claimed, i).deviation == 0.0
  {
    var ds := Deviations(s, prompt, claimed);
    forall i | 0 <= i < |claimed|
      ensures ds[i] >= 0.0
    {
      DeviationMeaning(s, ForcedScores(s, prompt, claimed, i), i, claimed[i]);
    }
    SumOfZeros(ds);
    if claimed != [] { ZeroQuotient(Sum(ds), |claimed| as real); }
    assert forall i :: 0 <= i < |claimed| ==> ds[i] == ReportAt(s, prompt, claimed, i).deviation;
  }

  /** For every prompt, seed, temperature and length, what the prover generates deviates by zero at
      every position where at most ten tokens tie for the top score. */
  lemma HonestScoresZero(s: Setting, prompt: seq<Token>, n: nat, i: nat)
    requires Proper(s) && s.model.vocabSize > 0 && s.model.contextLen > 0 && i < n
    requires |TopTokens(ForcedScores(s, prompt, Generated(s, prompt, n), i))| <= TOP_K
    ensures InVocabulary(s, Generated(s, prompt, n))
    ensures ReportAt(s, prompt, Generated(s, prompt, n), i).deviation == 0.0
  {
    var claimed := Generated(s, prompt, n);
    GeneratedInVocabulary(s, prompt, n);
    HonestToken(s, prompt, n, i);
    TopTokenScoresZero(s, ForcedScores(s, prompt, claimed, i), i, claimed[i]);
  }

  lemma TopTokenScoresZero(s: Setting, scores: seq<real>, position: nat, claimed: Token)
    requires Proper(s) && IsArgMax(scores, claimed) && |TopTokens(scores)| <= TOP_K
    ensures Judged(s, scores, position, claimed).deviation == 0.0
  {
    RankBelowTies(s, scores, claimed);
    DeviationMeaning(s, scores, position, claimed);
  }

  lemma HonestToken(s: Setting, prompt: seq<Token>, n: nat, i: nat)
    requires Proper(s) && s.model.vocabSize > 0 && s.model.contextLen > 0 && i < n
    ensures IsArgMax(ForcedScores(s, prompt, Generated(s, prompt, n), i), Generated(s, prompt, n)[i])
  {
    IterateAt(Chooser(s, prompt), n, i);
    NextTokenIsTop(s, prompt, Generated(s, prompt, n), i);
  }

  /** What is generated at each position is the first token with the highest score there. */
  lemma GeneratedAreFirstTops(s: Setting, prompt: seq<Token>, n: nat, i: nat, scores: seq<real>)
    requires Proper(s) && s.model.vocabSize > 0 && s.model.contextLen > 0 && i < n
    requires IsScored(s, prompt + Generated(s, prompt, n), |prompt| + i, scores)
    ensures IsArgMax(scores, Generated(s, prompt, n)[i])
  {
    ScoresAre(s, prompt, Generated(s, prompt, n), i, scores);
    HonestToken(s, prompt, n, i);
  }

  lemma HonestAverageZero(s: Setting, prompt: seq<Token>, n: nat)
    requires Proper(s) && s.model.vocabSize > 0 && s.model.contextLen > 0
    requires forall i :: 0 <= i < n ==> |TopTokens(ForcedScores(s, prompt, Generated(s, prompt, n), i))| <= TOP_K
    ensures InVocabulary(s, Generated(s, prompt, n)) && AvgDeviation(s, prompt, Generated(s, prompt, n)) == 0.0
  {
    GeneratedInVocabulary(s, prompt, n);
    forall i | 0 <= i < n
      ensures ReportAt(s, prompt, Generated(s, prompt, n), i).deviation == 0.0
    {
      HonestScoresZero(s, prompt, n, i);
    }
    AverageZero(s, prompt, Generated(s, prompt, n));
  }

  /** No two tokens tie for the top along the honest run. */
  ghost predicate NoTies(s: Setting, prompt: seq<Token>, n: nat)
    requires Proper(s) && s.model.vocabSize > 0
  {
    forall i :: 0 <= i < n ==> |TopTokens(ForcedScores(s, prompt, Generated(s, prompt, n), i))| == 1
  }

  lemma OnlyOne(ts: set<nat>, t: nat, u: nat)
    requires |ts| == 1 && t in ts && u in ts
    ensures t == u
  {
    if t != u {
      assert {t, u} <= ts;
      DistinctCount([t, u], 2, ts);
    }
  }

  lemma SameContexts(s: Setting, prompt: seq<Token>, a: seq<Token>, b: seq<Token>, i: nat)
    requires s.temperature != 0.0 && i < |a| && i < |b| && a[..i] == b[..i]
    ensures ForcedScores(s, prompt, a, i) == ForcedScores(s, prompt, b, i)
  {
    var end := |prompt| + i;
    assert (prompt + a)[..end] == prompt + a[..i] == prompt + b[..i] == (prompt + b)[..end];
    var start := if end < s.model.contextLen then 0 else end - s.model.contextLen;
    assert (prompt + a)[start..end] == (prompt + a)[..end][start..] == (prompt + b)[start..end];
  }

  /** Where only one token has the top score, deviation zero singles it out. */
  lemma ZeroSinglesOut(s: Setting, scores: seq<real>, position: nat, claimed: Token, top: Token)
    requires Proper(s) && IsArgMax(scores, top) && |TopTokens(scores)| == 1 && claimed < |scores|
    requires Judged(s, scores, position, claimed).deviation == 0.0
    ensures claimed == top
  {
    DeviationMeaning(s, scores, position, claimed);
    OnlyOne(TopTokens(scores), claimed, top);
  }

  lemma ZeroForcesToken(s: Setting, prompt: seq<Token>, claimed: seq<Token>, k: nat)
    requires Proper(s) && s.model.vocabSize > 0 && s.model.contextLen > 0 && InVocabulary(s, claimed)
    requires NoTies(s, prompt, |claimed|) && k < |claimed|
    requires ReportAt(s, prompt, claimed, k).deviation == 0.0
    requires claimed[..k] == Generated(s, prompt, k)
    ensures claimed[k] == NextToken(s, prompt, claimed[..k])
  {
    IteratePrefix(Chooser(s, prompt), |claimed|, k);
    SameContexts(s, prompt, claimed, Generated(s, prompt, |claimed|), k);
    NextTokenIsTop(s, prompt, claimed, k);
    ZeroSinglesOut(s, ForcedScores(s, prompt, claimed, k), k, claimed[k], NextToken(s, prompt, claimed[..k]));
  }

  lemma ZeroForcesHonest(s: Setting, prompt: seq<Token>, claimed: seq<Token>)
    requires Proper(s) && s.model.vocabSize > 0 && s.model.contextLen > 0 && InVocabulary(s, claimed)
    requires NoTies(s, prompt, |claimed|)
    requires forall k :: 0 <= k < |claimed| ==> ReportAt(s, prompt, claimed, k).deviation == 0.0
    ensures claimed == Generated(s, prompt, |claimed|)
  {
    var next := Chooser(s, prompt);
    forall k | 0 <= k < |claimed| && claimed[..k] == Iterate(next, k)
      ensures claimed[k] == next(claimed[..k])
    {
      ZeroForcesToken(s, prompt, claimed, k);
    }
    IsIterate(next, claimed, |claimed|);
    assert claimed[..|claimed|] == claimed;
  }

  /** Where no scores tie, a claimed output has average deviation zero exactly if it is the output
      that honest generation produces. */
  lemma ZeroExactlyIfHonest(s: Setting, prompt: seq<Token>, claimed: seq<Token>)
    requires Proper(s) && s.model.vocabSize > 0 && s.model.contextLen > 0 && InVocabulary(s, claimed)
    requires NoTies(s, prompt, |claimed|)
    ensures AvgDeviation(s, prompt, claimed) == 0.0 <==> claimed == Generated(s, prompt, |claimed|)
  {
    AverageZero(s, prompt, claimed);
    if AvgDeviation(s, prompt, claimed) == 0.0 {
      ZeroForcesHonest(s, prompt, claimed);
    }
    if claimed == Generated(s, prompt, |claimed|) { HonestAverageZero(s, prompt, |claimed|); }
  }
}
