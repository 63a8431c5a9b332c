/** Committing to the leading logits before the noise is used, and checking revealed tokens against
    the opened commitments (commitment_scheme.py). Serialisation and hash are parameters. */
module CommitReveal {
  import opened ByteStrings
  import opened Digests
  import opened Ranking
  import opened Recomputation

  /** The committed tokens with their logits, best first. */
  type TopK = seq<(Token, real)>

  datatype Opening = Opening(commitment: Digest32, top: TopK, nonce: Bytes)

  /** `serialise` stands for `canonical_bytes`. */
  datatype Scheme = Scheme(hash: Bytes -> Digest32, serialise: TopK -> Bytes)

  /** What stands in for every logit that was not committed. */
  const MASK: real := -1000000000.0

  /** `np.argsort(-logits)[:k]`, with the logits. */
  function Leading(order: seq<nat>, logits: seq<real>, k: nat): (top: TopK)
    requires Ranks(order, logits)
    ensures |top| == if k < |order| then k else |order|
  {
    var n := if k < |order| then k else |order|;
    seq(n, a requires 0 <= a < n => (order[a], logits[order[a]]))
  }

  function Commit(c: Scheme, s: Setting, logits: seq<real>, k: nat, nonce: Bytes): Opening
    requires Proper(s)
  {
    var top := Leading(s.sorter(logits), logits, k);
    Opening(c.hash(c.serialise(top) + nonce), top, nonce)
  }

  predicate VerifyOpening(c: Scheme, o: Opening) { c.hash(c.serialise(o.top) + o.nonce) == o.commitment }

  /** Opening one commitment in two ways with nonces of one length gives away a collision, unless
      the serialised contents are the same. */
  lemma OpeningBinds(c: Scheme, o: Opening, other: Opening)
    requires VerifyOpening(c, o) && VerifyOpening(c, other) && o.commitment == other.commitment
    requires |o.nonce| == |other.nonce| == 16
    ensures c.serialise(o.top) == c.serialise(other.top)
         || MessagesCollide(c.hash, c.serialise(o.top) + o.nonce, c.serialise(other.top) + other.nonce)
  {
    var m, n := c.serialise(o.top) + o.nonce, c.serialise(other.top) + other.nonce;
    if m == n {
      assert |c.serialise(o.top)| == |c.serialise(other.top)|;
      SameLengthConcatenation(c.serialise(o.top), o.nonce, c.serialise(other.top), other.nonce);
    }
  }

  // ----- Generating

  function LogitsAfter(s: Setting, prompt: seq<Token>, before: seq<Token>): seq<real> {
    Logits(s.model, Context(prompt + before, s.model.contextLen))
  }

  /** The honest prover's commitment after `before`. */
  function Committer(c: Scheme, s: Setting, prompt: seq<Token>, k: nat, nonces: nat -> Bytes): seq<Token> -> Opening
    requires Proper(s)
  {
    before => Commit(c, s, LogitsAfter(s, prompt, before), k, nonces(|before|))
  }

  /** One commitment before each token of `out`. */
  function Along(commit: seq<Token> -> Opening, out: seq<Token>): (os: seq<Opening>)
    ensures |os| == |out|
  {
    seq(|out|, i requires 0 <= i < |out| => commit(out[..i]))
  }

  function Commitments(
    c: Scheme, s: Setting, prompt: seq<Token>, out: seq<Token>, k: nat, nonces: nat -> Bytes): (os: seq<Opening>)
    requires Proper(s)
    ensures |os| == |out|
  {
    Along(Committer(c, s, prompt, k, nonces), out)
  }

  lemma AlongOneMore(commit: seq<Token> -> Opening, out: seq<Token>, tok: Token)
    ensures Along(commit, out + [tok]) == Along(commit, out) + [commit(out)]
  {
    var more := out + [tok];
    assert more[..|out|] == out;
    forall i: nat | i < |out|
      ensures more[..i] == out[..i]
    {
    }
  }

  /** The honest prover generates what it would generate without commitments. */
  method CommittedGenerateHonest(
    c: Scheme, s: Setting, prompt: seq<Token>, maxTokens: nat, k: nat, nonces: nat -> Bytes)
    returns (out: seq<Token>, commitments: seq<Opening>)
    requires Proper(s) && s.model.vocabSize > 0
    ensures out == Generated(s, prompt, maxTokens)
    ensures commitments == Commitments(c, s, prompt, out, k, nonces)
  {
    var sequence := prompt;
    out, commitments := [], [];
    ghost var next, commit := Chooser(s, prompt), Committer(c, s, prompt, k, nonces);
    for i := 0 to maxTokens
      invariant out == Iterate(next, i) && sequence == prompt + out
      invariant commitments == Along(commit, out)
    {
      var o, tok := CommitAndSample(c, s, prompt, out, sequence, k, nonces);
      AlongOneMore(commit, out, tok);
      out := out + [tok];
      sequence := sequence + [tok];
      commitments := commitments + [o];
    }
  }

  /** One round of the loop: the commitment comes before the noise is used. */
  method CommitAndSample(
    c: Scheme, s: Setting, ghost prompt: seq<Token>, out: seq<Token>, sequence: seq<Token>,
    k: nat, nonces: nat -> Bytes)
    returns (o: Opening, tok: Token)
    requires Proper(s) && s.model.vocabSize > 0 && sequence == prompt + out
    ensures o == Committer(c, s, prompt, k, nonces)(out) && tok == Chooser(s, prompt)(out)
  {
    var logits := Logits(s.model, Context(sequence, s.model.contextLen));
    o := Commit(c, s, logits, k, nonces(|out|));
    tok := SampleToken(s, logits, |sequence|);
  }

  // ----- Checking

  /** The full-length logits that the opened pairs leave; a token out of range is an index error. */
  function FillIn(full: seq<real>, top: TopK): (filled: Option<seq<real>>)
    ensures filled.Some? ==> |filled.value| == |full|
    decreases |top|
  {
    if top == [] then Some(full)
    else if top[0].0 >= |full| then None
    else FillIn(full[top[0].0 := top[0].1], top[1..])
  }

  function Blank(n: nat): (full: seq<real>)
    ensures |full| == n
  {
    seq(n, _ => MASK)
  }

  /** The token that the opened logits predict under the noise of `position`. */
  function Predicted(s: Setting, top: TopK, position: nat): Option<Token>
    requires Proper(s) && s.model.vocabSize > 0
  {
    match FillIn(Blank(s.model.vocabSize), top)
    case None => None
    case Some(full) => Some(SampleToken(s, full, position))
  }

  datatype Answer = Answer(allValid: bool, fraction: real)

  function Zipped(a: nat, b: nat): nat { if a <= b then a else b }

  function Count(p: nat -> bool, n: nat): nat { if n == 0 then 0 else Count(p, n - 1) + if p(n - 1) then 1 else 0 }

  /** Opened logits and a position to the token they predict; None for an index error. */
  type Predictor = (TopK, nat) -> Option<Token>

  function PredictorOf(s: Setting): Predictor
    requires Proper(s) && s.model.vocabSize > 0
  {
    (top: TopK, position: nat) => Predicted(s, top, position)
  }

  predicate ConsistentAt(c: Scheme, predict: Predictor, position: nat, claimed: Token, o: Opening) {
    VerifyOpening(c, o) && predict(o.top, position) == Some(claimed)
  }

  predicate IndexErrorAt(c: Scheme, predict: Predictor, position: nat, o: Opening) {
    VerifyOpening(c, o) && predict(o.top, position).None?
  }

  /** The positions that are opened validly and predict the claimed token. */
  function Consistent(
    c: Scheme, predict: Predictor, promptLen: nat, claimed: seq<Token>, os: seq<Opening>): nat -> bool
  {
    (i: nat) => i < |claimed| && i < |os| && ConsistentAt(c, predict, promptLen + i, claimed[i], os[i])
  }

  /** Some validly opened commitment names a token outside the vocabulary. */
  predicate IndexErrorIn(c: Scheme, predict: Predictor, promptLen: nat, os: seq<Opening>, n: nat)
    requires n <= |os|
  {
    exists i :: 0 <= i < n && IndexErrorAt(c, predict, promptLen + i, os[i])
  }

  predicate AllValid(c: Scheme, os: seq<Opening>, n: nat)
    requires n <= |os|
  {
    forall i :: 0 <= i < n ==> VerifyOpening(c, os[i])
  }

  /** The answer of the check: whether all openings are valid, and the fraction of the claimed tokens
      that are consistent. None stands for an index error or, for no claimed tokens at all, the
      division by zero. */
  function Checked(c: Scheme, s: Setting, promptLen: nat, claimed: seq<Token>, os: seq<Opening>): Option<Answer>
    requires Proper(s) && s.model.vocabSize > 0
  {
    var n := Zipped(|claimed|, |os|);
    if claimed == [] || IndexErrorIn(c, PredictorOf(s), promptLen, os, n) then None
    else
      var consistent := Count(Consistent(c, PredictorOf(s), promptLen, claimed, os), n);
      Some(Answer(AllValid(c, os, n), Fraction(consistent, |claimed|)))
  }

  function Fraction(count: nat, n: nat): real
    requires n > 0
  {
    (count as real) / (n as real)
  }

  method CheckCommitRevealConsistency(c: Scheme, s: Setting, promptLen: nat, claimed: seq<Token>, os: seq<Opening>)
    returns (answer: Option<Answer>)
    requires Proper(s) && s.model.vocabSize > 0
    ensures answer == Checked(c, s, promptLen, claimed, os)
  {
    var error, allValid, consistent := CheckPositions(c, PredictorOf(s), promptLen, claimed, os);
    if error || claimed == [] { return None; }
    answer := Some(Answer(allValid, Fraction(consistent, |claimed|)));
  }

  /** The loop over the positions. */
  method CheckPositions(c: Scheme, predict: Predictor, promptLen: nat, claimed: seq<Token>, os: seq<Opening>)
    returns (error: bool, allValid: bool, consistent: nat)
    ensures error == IndexErrorIn(c, predict, promptLen, os, Zipped(|claimed|, |os|))
    ensures !error ==> allValid == AllValid(c, os, Zipped(|claimed|, |os|))
    ensures !error ==> consistent == Count(Consistent(c, predict, promptLen, claimed, os), Zipped(|claimed|, |os|))
  {
    error, allValid, consistent := false, true, 0;
    for i := 0 to Zipped(|claimed|, |os|)
      invariant !error && Tallied(c, predict, promptLen, claimed, os, i, allValid, consistent)
    {
      var valid, failed, matches := CheckPosition(c, predict, promptLen + i, claimed[i], os[i]);
      NextPosition(c, predict, promptLen, claimed, os, i, allValid, consistent, valid, failed, matches);
      if failed { return true, allValid, consistent; }
      allValid, consistent := allValid && valid, if matches then consistent + 1 else consistent;
    }
  }

  /** One position: an invalid opening is not looked into. */
  method CheckPosition(c: Scheme, predict: Predictor, position: nat, claimed: Token, o: Opening)
    returns (valid: bool, failed: bool, matches: bool)
    ensures valid == VerifyOpening(c, o)
    ensures failed == IndexErrorAt(c, predict, position, o)
    ensures matches == ConsistentAt(c, predict, position, claimed, o)
  {
    if !VerifyOpening(c, o) { return false, false, false; }
    var predicted := predict(o.top, position);
    if predicted.None? { return true, true, false; }
    return true, false, predicted.value == claimed;
  }

  /** The outcome of the first `n` positions, none of which is an index error. */
  ghost predicate Tallied(
    c: Scheme, predict: Predictor, promptLen: nat, claimed: seq<Token>, os: seq<Opening>,
    n: nat, allValid: bool, count: nat)
  {
    && n <= |os| && !IndexErrorIn(c, predict, promptLen, os, n)
    && allValid == AllValid(c, os, n) && count == Count(Consistent(c, predict, promptLen, claimed, os), n)
  }

  lemma NextPosition(
    c: Scheme, predict: Predictor, promptLen: nat, claimed: seq<Token>, os: seq<Opening>,
    i: nat, allValid: bool, count: nat, valid: bool, failed: bool, matches: bool)
    requires i < |claimed| && i < |os| && Tallied(c, predict, promptLen, claimed, os, i, allValid, count)
    requires valid == VerifyOpening(c, os[i]) && failed == IndexErrorAt(c, predict, promptLen + i, os[i])
    requires matches == ConsistentAt(c, predict, promptLen + i, claimed[i], os[i])
    ensures failed ==> IndexErrorIn(c, predict, promptLen, os, Zipped(|claimed|, |os|))
    ensures !failed ==>
              Tallied(c, predict, promptLen, claimed, os, i + 1, allValid && valid,
                      if matches then count + 1 else count)
  {
  }

  // ----- What the honest prover's openings predict

  predicate IsCommitted(top: TopK, t: Token) { exists a :: 0 <= a < |top| && top[a].0 == t }

  ghost predicate DistinctTokens(top: TopK) { forall a, b :: 0 <= a < b < |top| ==> top[a].0 != top[b].0 }

  lemma {:induction false} FilledIn(full: seq<real>, top: TopK)
    requires DistinctTokens(top) && forall a :: 0 <= a < |top| ==> top[a].0 < |full|
    ensures FillIn(full, top).Some?
    ensures forall a :: 0 <= a < |top| ==> FillIn(full, top).value[top[a].0] == top[a].1
    ensures forall t: Token :: t < |full| && !IsCommitted(top, t) ==> FillIn(full, top).value[t] == full[t]
    decreases |top|
  {
    if top != [] {
      var rest, next := top[1..], full[top[0].0 := top[0].1];
      FilledIn(next, rest);
      assert !IsCommitted(rest, top[0].0);
      forall a | 0 <= a < |top|
        ensures FillIn(full, top).value[top[a].0] == top[a].1
      {
        if a > 0 { assert rest[a - 1] == top[a]; }
      }
      forall t: Token | t < |full| && !IsCommitted(top, t)
        ensures FillIn(full, top).value[t] == full[t]
      {
        assert top[0].0 != t;
        assert forall a :: 0 <= a < |rest| ==> rest[a] == top[a + 1];
        assert !IsCommitted(rest, t);
      }
    }
  }

  /** The logits with everything uncommitted replaced by the mask. */
  ghost predicate MaskedFrom(full: seq<real>, logits: seq<real>, top: TopK) {
    |full| == |logits| && forall t: Token :: t < |logits| ==> full[t] == if IsCommitted(top, t) then logits[t] else MASK
  }

  lemma HonestOpeningFills(order: seq<nat>, logits: seq<real>, k: nat)
    requires Ranks(order, logits)
    ensures FillIn(Blank(|logits|), Leading(order, logits, k)).Some?
    ensures MaskedFrom(FillIn(Blank(|logits|), Leading(order, logits, k)).value, logits, Leading(order, logits, k))
  {
    var top := Leading(order, logits, k);
    FilledIn(Blank(|logits|), top);
    forall t: Token | t < |logits|
      ensures FillIn(Blank(|logits|), top).value[t] == if IsCommitted(top, t) then logits[t] else MASK
    {
      if IsCommitted(top, t) {
        var a :| 0 <= a < |top| && top[a].0 == t;
        assert top[a].1 == logits[t];
      }
    }
  }

  /** Under the noise of `position`, some committed token beats every masked one. */
  ghost predicate MaskedNeverWin(s: Setting, logits: seq<real>, top: TopK, position: nat)
    requires s.temperature != 0.0
  {
    exists w: Token :: w < |logits| && IsCommitted(top, w)
      && forall t: Token :: t < |logits| && !IsCommitted(top, t) ==>
           MASK / s.temperature + s.noise(s.seed, position, t)
           < logits[w] / s.temperature + s.noise(s.seed, position, w)
  }

  lemma DivideMonotone(a: real, b: real, d: real)
    requires d > 0.0 && a > b
    ensures a / d > b / d
  {
  }

  lemma ScaledApart(logit: real, mask: real, temperature: real, spread: real)
    requires temperature > 0.0 && logit > mask + temperature * spread
    ensures logit / temperature > mask / temperature + spread
  {
    DivideMonotone(logit, mask + temperature * spread, temperature);
    assert (mask + temperature * spread) / temperature == mask / temperature + spread;
  }

  /** It suffices that the temperature is positive, something is committed, and the logits clear the
      mask by the temperature times the spread of the noise. */
  lemma ClearOfTheMask(s: Setting, logits: seq<real>, top: TopK, position: nat, low: real, high: real)
    requires s.temperature > 0.0 && top != [] && top[0].0 < |logits|
    requires forall t: Token :: t < |logits| ==> low <= s.noise(s.seed, position, t) <= high
    requires logits[top[0].0] > MASK + s.temperature * (high - low)
    ensures MaskedNeverWin(s, logits, top, position)
  {
    var w := top[0].0;
    ScaledApart(logits[w], MASK, s.temperature, high - low);
    assert IsCommitted(top, w);
  }

  /** Masking keeps the winner if it is committed and changes it if it is not. */
  lemma MaskingKeepsWinner(s: Setting, logits: seq<real>, full: seq<real>, top: TopK, position: nat, t: Token, u: Token)
    requires s.temperature != 0.0 && MaskedFrom(full, logits, top) && MaskedNeverWin(s, logits, top, position)
    requires IsArgMax(Scored(s, logits, position), t) && IsArgMax(Scored(s, full, position), u)
    ensures u == t <==> IsCommitted(top, t)
  {
    var a, b := Scored(s, logits, position), Scored(s, full, position);
    assert forall x: Token :: x < |a| && IsCommitted(top, x) ==> a[x] == b[x];
    assert IsCommitted(top, u);
    if IsCommitted(top, t) {
      assert a[u] <= a[t] == b[t] <= b[u] == a[u];
    }
  }

  /** The opening is valid and predicts some token, and that is `t` exactly if `t` was committed. */
  ghost predicate Settles(c: Scheme, s: Setting, o: Opening, position: nat, t: Token)
    requires Proper(s) && s.model.vocabSize > 0
  {
    && VerifyOpening(c, o) && Predicted(s, o.top, position).Some?
    && (Predicted(s, o.top, position) == Some(t) <==> IsCommitted(o.top, t))
  }

  /** The opened logits predict the sampled token exactly when that token was committed. */
  lemma PredictsExactlyCommitted(
    c: Scheme, s: Setting, logits: seq<real>, k: nat, nonce: Bytes, position: nat, t: Token)
    requires Proper(s) && s.model.vocabSize > 0 && |logits| == s.model.vocabSize
    requires MaskedNeverWin(s, logits, Commit(c, s, logits, k, nonce).top, position)
    requires t == SampleToken(s, logits, position)
    ensures Settles(c, s, Commit(c, s, logits, k, nonce), position, t)
  {
    var order := s.sorter(logits);
    assert Ranks(order, logits);
    var top := Leading(order, logits, k);
    HonestOpeningFills(order, logits, k);
    var full := FillIn(Blank(|logits|), top).value;
    MaskingKeepsWinner(s, logits, full, top, position, t, SampleToken(s, full, position));
  }

  // ----- Commitments and answers in numbers

  /** The committed pairs are as many tokens as asked for, each once and with its own logit, and none
      that is left out has a higher one. */
  lemma CommitsHighest(c: Scheme, s: Setting, logits: seq<real>, k: nat, nonce: Bytes)
    requires Proper(s)
    ensures var o := Commit(c, s, logits, k, nonce);
            && |o.top| == (if k < |logits| then k else |logits|) && DistinctTokens(o.top)
            && (forall a :: 0 <= a < |o.top| ==> o.top[a].0 < |logits| && o.top[a].1 == logits[o.top[a].0])
            && (forall a, t: Token :: 0 <= a < |o.top| && t < |logits| && !IsCommitted(o.top, t) ==>
                  logits[t] <= o.top[a].1)
            && o.nonce == nonce && o.commitment == c.hash(c.serialise(o.top) + nonce)
  {
    var order, top := s.sorter(logits), Commit(c, s, logits, k, nonce).top;
    assert Ranks(order, logits);
    assert forall b :: 0 <= b < |top| ==> top[b].0 == order[b];
    forall a, t: Token | 0 <= a < |top| && t < |logits| && !IsCommitted(top, t)
      ensures logits[t] <= top[a].1
    {
      assert t in order;
      var b :| 0 <= b < |order| && order[b] == t;
      assert |top| <= b;
    }
  }

  /** The logits a check sees: what was opened, and -10^9 for every other token. */
  ghost predicate IsOpened(full: seq<real>, top: TopK) {
    && (forall a :: 0 <= a < |top| ==> top[a].0 < |full| && full[top[a].0] == top[a].1)
    && forall t: Token :: t < |full| && !IsCommitted(top, t) ==> full[t] == -1000000000.0
  }

  /** The predicted token is the first one with the highest of these logits over the temperature plus
      the noise of the position. */
  lemma PredictsFirstTop(s: Setting, top: TopK, position: nat, full: seq<real>, scores: seq<real>)
    requires Proper(s) && s.model.vocabSize > 0 && DistinctTokens(top)
    requires |full| == |scores| == s.model.vocabSize && IsOpened(full, top)
    requires forall t: Token :: t < |scores| ==> scores[t] == full[t] / s.temperature + s.noise(s.seed, position, t)
    ensures Predicted(s, top, position).Some? && IsArgMax(scores, Predicted(s, top, position).value)
  {
    FilledIn(Blank(s.model.vocabSize), top);
    var filled := FillIn(Blank(s.model.vocabSize), top).value;
    forall t: Token | t < |full|
      ensures filled[t] == full[t]
    {
      if IsCommitted(top, t) {
        var a :| 0 <= a < |top| && top[a].0 == t;
        assert filled[top[a].0] == full[top[a].0];
      }
    }
    assert filled == full;
    assert scores == Scored(s, full, position);
  }

  /** An error is raised exactly for a token outside the vocabulary. */
  lemma {:induction false} FailsOnForeignToken(full: seq<real>, top: TopK)
    ensures FillIn(full, top).None? <==> exists a :: 0 <= a < |top| && top[a].0 >= |full|
    decreases |top|
  {
    if top != [] {
      assert top[0] == top[0 + 0];
      if top[0].0 < |full| {
        FailsOnForeignToken(full[top[0].0 := top[0].1], top[1..]);
        assert forall a :: 1 <= a < |top| ==> top[a] == top[1..][a - 1];
        assert forall a :: 0 <= a < |top| - 1 ==> top[1..][a] == top[a + 1];
      }
    }
  }

  ghost function Where(p: nat -> bool, n: nat): set<nat> { set i: nat | i < n && p(i) }

  lemma {:induction false} CountIsSize(p: nat -> bool, n: nat)
    ensures Count(p, n) == |Where(p, n)|
  {
    if n > 0 {
      CountIsSize(p, n - 1);
      if p(n - 1) {
        assert Where(p, n) == Where(p, n - 1) + {n - 1};
      } else {
        assert Where(p, n) == Where(p, n - 1);
      }
    }
  }

  predicate IsShare(share: real, part: nat, n: nat) { share * (n as real) == part as real }

  /** The reported fraction times the number of claimed tokens is the number of positions that are
      opened validly and predict the claimed token. */
  lemma FractionIsShare(
    c: Scheme, s: Setting, promptLen: nat, claimed: seq<Token>, os: seq<Opening>, matching: set<nat>)
    requires Proper(s) && s.model.vocabSize > 0 && Checked(c, s, promptLen, claimed, os).Some?
    requires forall i: nat :: i in matching <==>
               && i < |claimed| && i < |os| && c.hash(c.serialise(os[i].top) + os[i].nonce) == os[i].commitment
               && Predicted(s, os[i].top, promptLen + i) == Some(claimed[i])
    ensures IsShare(Checked(c, s, promptLen, claimed, os).value.fraction, |matching|, |claimed|)
  {
    var p, n := Consistent(c, PredictorOf(s), promptLen, claimed, os), Zipped(|claimed|, |os|);
    CountIsSize(p, n);
    assert Where(p, n) == matching;
    ShareOf(Count(p, n), |claimed|);
  }

  lemma ShareOf(count: nat, n: nat)
    requires n > 0
    ensures IsShare(Fraction(count, n), count, n)
  {
  }

  // ----- The whole run

  /** The positions whose token was among the committed ones. */
  function Committed(out: seq<Token>, os: seq<Opening>): nat -> bool {
    (i: nat) => i < |out| && i < |os| && IsCommitted(os[i].top, out[i])
  }

  lemma {:induction false} CountCompares(p: nat -> bool, q: nat -> bool, n: nat)
    requires forall i: nat :: i < n && p(i) ==> q(i)
    ensures Count(p, n) <= Count(q, n) <= n
    ensures (forall i: nat :: i < n ==> q(i)) ==> Count(q, n) == n
  {
    if n > 0 { CountCompares(p, q, n - 1); }
  }

  /** Masked tokens never win along the run. */
  ghost predicate MaskHolds(s: Setting, prompt: seq<Token>, out: seq<Token>, os: seq<Opening>)
    requires Proper(s) && |os| == |out|
  {
    forall i: nat :: i < |out| ==> MaskHoldsAt(s, prompt, out, os, i)
  }

  ghost predicate MaskHoldsAt(s: Setting, prompt: seq<Token>, out: seq<Token>, os: seq<Opening>, i: nat)
    requires Proper(s) && i < |out| && i < |os|
  {
    MaskedNeverWin(s, LogitsAfter(s, prompt, out[..i]), os[i].top, |prompt| + i)
  }

  /** Every token of `out` is the one sampled after those before it. */
  ghost predicate IsSampled(s: Setting, prompt: seq<Token>, out: seq<Token>, i: nat)
    requires Proper(s) && s.model.vocabSize > 0 && i < |out|
  {
    out[i] == SampleToken(s, LogitsAfter(s, prompt, out[..i]), |prompt| + i)
  }

  lemma GeneratedIsSampled(s: Setting, prompt: seq<Token>, m: nat, i: nat)
    requires Proper(s) && s.model.vocabSize > 0 && i < m
    ensures IsSampled(s, prompt, Generated(s, prompt, m), i)
  {
    IterateAt(Chooser(s, prompt), m, i);
  }

  lemma CommitmentAt(c: Scheme, s: Setting, prompt: seq<Token>, out: seq<Token>, k: nat, nonces: nat -> Bytes, i: nat)
    requires Proper(s) && i < |out|
    ensures Commitments(c, s, prompt, out, k, nonces)[i] == Commit(c, s, LogitsAfter(s, prompt, out[..i]), k, nonces(i))
  {
  }

  /** `o` is the honest commitment to `logits`. */
  ghost predicate IsHonest(c: Scheme, s: Setting, logits: seq<real>, k: nat, nonce: Bytes, o: Opening)
    requires Proper(s)
  {
    o == Commit(c, s, logits, k, nonce)
  }

  lemma HonestAt(c: Scheme, s: Setting, prompt: seq<Token>, out: seq<Token>, k: nat, nonces: nat -> Bytes, i: nat)
    returns (logits: seq<real>, o: Opening)
    requires Proper(s) && i < |out|
    ensures |logits| == s.model.vocabSize && logits == LogitsAfter(s, prompt, out[..i])
    ensures o == Commitments(c, s, prompt, out, k, nonces)[i] && IsHonest(c, s, logits, k, nonces(i), o)
  {
    CommitmentAt(c, s, prompt, out, k, nonces, i);
    logits, o := LogitsAfter(s, prompt, out[..i]), Commitments(c, s, prompt, out, k, nonces)[i];
  }

  lemma HoldsAt(
    s: Setting, prompt: seq<Token>, out: seq<Token>, os: seq<Opening>, i: nat, logits: seq<real>, o: Opening)
    requires Proper(s) && i < |out| && i < |os| && logits == LogitsAfter(s, prompt, out[..i]) && o == os[i]
    requires MaskedNeverWin(s, logits, o.top, |prompt| + i)
    ensures MaskHoldsAt(s, prompt, out, os, i)
  {
  }

  lemma SampledPositionSettles(
    c: Scheme, s: Setting, prompt: seq<Token>, out: seq<Token>, k: nat, nonces: nat -> Bytes, i: nat)
    requires Proper(s) && s.model.vocabSize > 0 && i < |out| && IsSampled(s, prompt, out, i)
    requires MaskHoldsAt(s, prompt, out, Commitments(c, s, prompt, out, k, nonces), i)
    ensures Settles(c, s, Commitments(c, s, prompt, out, k, nonces)[i], |prompt| + i, out[i])
  {
    CommitmentAt(c, s, prompt, out, k, nonces, i);
    PredictsExactlyCommitted(c, s, LogitsAfter(s, prompt, out[..i]), k, nonces(i), |prompt| + i, out[i]);
  }

  /** Every token is sampled, every commitment is honest and masked tokens never win. */
  ghost predicate HonestRun(
    c: Scheme, s: Setting, prompt: seq<Token>, out: seq<Token>, k: nat, nonces: nat -> Bytes, os: seq<Opening>)
    requires Proper(s) && s.model.vocabSize > 0
  {
    && os == Commitments(c, s, prompt, out, k, nonces)
    && (forall i: nat :: i < |out| ==> IsSampled(s, prompt, out, i))
    && MaskHolds(s, prompt, out, os)
  }

  lemma HonestPositionCounts(
    c: Scheme, s: Setting, prompt: seq<Token>, out: seq<Token>, k: nat, nonces: nat -> Bytes, os: seq<Opening>, n: nat)
    requires Proper(s) && s.model.vocabSize > 0 && n < |out| && HonestRun(c, s, prompt, out, k, nonces, os)
    ensures VerifyOpening(c, os[n]) && !IndexErrorAt(c, PredictorOf(s), |prompt| + n, os[n])
    ensures Consistent(c, PredictorOf(s), |prompt|, out, os)(n) == Committed(out, os)(n)
  {
    assert IsSampled(s, prompt, out, n) && MaskHoldsAt(s, prompt, out, os, n);
    SampledPositionSettles(c, s, prompt, out, k, nonces, n);
    SettledCounts(c, s, |prompt|, out, os, n);
  }

  lemma SettledCounts(c: Scheme, s: Setting, promptLen: nat, out: seq<Token>, os: seq<Opening>, n: nat)
    requires Proper(s) && s.model.vocabSize > 0 && n < |out| && n < |os| && Settles(c, s, os[n], promptLen + n, out[n])
    ensures VerifyOpening(c, os[n]) && !IndexErrorAt(c, PredictorOf(s), promptLen + n, os[n])
    ensures Consistent(c, PredictorOf(s), promptLen, out, os)(n) == Committed(out, os)(n)
  {
  }

  lemma CountsAgree(p: nat -> bool, q: nat -> bool, n: nat)
    requires forall i: nat :: i < n ==> p(i) == q(i)
    ensures Count(p, n) == Count(q, n)
  {
    CountCompares(p, q, n);
    CountCompares(q, p, n);
  }

  lemma HonestPositionsHold(
    c: Scheme, s: Setting, prompt: seq<Token>, out: seq<Token>, k: nat, nonces: nat -> Bytes, os: seq<Opening>)
    requires Proper(s) && s.model.vocabSize > 0 && HonestRun(c, s, prompt, out, k, nonces, os)
    ensures !IndexErrorIn(c, PredictorOf(s), |prompt|, os, |out|) && AllValid(c, os, |out|)
  {
    forall i: nat | i < |out|
      ensures VerifyOpening(c, os[i]) && !IndexErrorAt(c, PredictorOf(s), |prompt| + i, os[i])
    {
      HonestPositionCounts(c, s, prompt, out, k, nonces, os, i);
    }
  }

  lemma HonestPositionsCount(
    c: Scheme, s: Setting, prompt: seq<Token>, out: seq<Token>, k: nat, nonces: nat -> Bytes, os: seq<Opening>)
    requires Proper(s) && s.model.vocabSize > 0 && HonestRun(c, s, prompt, out, k, nonces, os)
    ensures Count(Consistent(c, PredictorOf(s), |prompt|, out, os), |out|) == Count(Committed(out, os), |out|)
  {
    var p, q := Consistent(c, PredictorOf(s), |prompt|, out, os), Committed(out, os);
    forall i: nat | i < |out|
      ensures p(i) == q(i)
    {
      HonestPositionCounts(c, s, prompt, out, k, nonces, os, i);
    }
    CountsAgree(p, q, |out|);
  }

  /** The honest prover's commitments to `k` tokens at each of `m` positions. */
  function HonestOpenings(
    c: Scheme, s: Setting, prompt: seq<Token>, m: nat, k: nat, nonces: nat -> Bytes): (os: seq<Opening>)
    requires Proper(s) && s.model.vocabSize > 0
    ensures |os| == m
  {
    Commitments(c, s, prompt, Generated(s, prompt, m), k, nonces)
  }

  /** The share of the honest prover's tokens that are among those committed. */
  function CommittedShare(c: Scheme, s: Setting, prompt: seq<Token>, m: nat, k: nat, nonces: nat -> Bytes): real
    requires Proper(s) && s.model.vocabSize > 0 && m > 0
  {
    Fraction(Count(Committed(Generated(s, prompt, m), HonestOpenings(c, s, prompt, m, k, nonces)), m), m)
  }

  ghost predicate MaskHoldsFor(c: Scheme, s: Setting, prompt: seq<Token>, m: nat, k: nat, nonces: nat -> Bytes)
    requires Proper(s) && s.model.vocabSize > 0
  {
    MaskHolds(s, prompt, Generated(s, prompt, m), HonestOpenings(c, s, prompt, m, k, nonces))
  }

  /** For an honest prover with at least one token the check raises no error, finds every opening
      valid, and reports exactly the share of positions whose sampled token is among the `k` committed
      ones. */
  lemma HonestRunIsConsistent(c: Scheme, s: Setting, prompt: seq<Token>, m: nat, k: nat, nonces: nat -> Bytes)
    requires Proper(s) && s.model.vocabSize > 0 && MaskHoldsFor(c, s, prompt, m, k, nonces)
    ensures Checked(c, s, |prompt|, Generated(s, prompt, m), HonestOpenings(c, s, prompt, m, k, nonces))
         == if m == 0 then None else Some(Answer(true, CommittedShare(c, s, prompt, m, k, nonces)))
  {
    var out, os := Generated(s, prompt, m), HonestOpenings(c, s, prompt, m, k, nonces);
    forall i: nat | i < m
      ensures IsSampled(s, prompt, out, i)
    {
      GeneratedIsSampled(s, prompt, m, i);
    }
    HonestPositionsHold(c, s, prompt, out, k, nonces, os);
    HonestPositionsCount(c, s, prompt, out, k, nonces, os);
  }

  /** What is committed for `k` is committed for any larger number. */
  lemma LeadingGrows(order: seq<nat>, logits: seq<real>, k: nat, l: nat, t: Token)
    requires Ranks(order, logits) && k <= l && IsCommitted(Leading(order, logits, k), t)
    ensures IsCommitted(Leading(order, logits, l), t)
  {
    var a :| 0 <= a < |Leading(order, logits, k)| && Leading(order, logits, k)[a].0 == t;
    assert Leading(order, logits, l)[a].0 == t;
  }

  lemma LeadingIsAll(order: seq<nat>, logits: seq<real>, k: nat, t: Token)
    requires Ranks(order, logits) && k >= |logits| && t < |logits|
    ensures IsCommitted(Leading(order, logits, k), t)
  {
    assert t in order;
    var a :| 0 <= a < |order| && order[a] == t;
    assert Leading(order, logits, k)[a].0 == t;
  }

  lemma CommitsMore(c: Scheme, s: Setting, logits: seq<real>, k: nat, l: nat, nonce: Bytes, t: Token)
    requires Proper(s) && k <= l && t < |logits|
    ensures IsCommitted(Commit(c, s, logits, k, nonce).top, t) ==> IsCommitted(Commit(c, s, logits, l, nonce).top, t)
    ensures l >= |logits| ==> IsCommitted(Commit(c, s, logits, l, nonce).top, t)
  {
    var order := s.sorter(logits);
    assert Ranks(order, logits);
    if IsCommitted(Leading(order, logits, k), t) { LeadingGrows(order, logits, k, l, t); }
    if l >= |logits| { LeadingIsAll(order, logits, l, t); }
  }

  /** For one and the same run, committing to more tokens never lowers the count, and committing to
      the whole vocabulary makes every position count. */
  lemma CountGrowsWithK(
    c: Scheme, s: Setting, prompt: seq<Token>, out: seq<Token>, k: nat, l: nat, nonces: nat -> Bytes)
    requires Proper(s) && k <= l && InVocabulary(s, out)
    ensures var os, more := Commitments(c, s, prompt, out, k, nonces), Commitments(c, s, prompt, out, l, nonces);
            && Count(Committed(out, os), |out|) <= Count(Committed(out, more), |out|)
            && (l >= s.model.vocabSize ==> Count(Committed(out, more), |out|) == |out|)
  {
    var os, more := Commitments(c, s, prompt, out, k, nonces), Commitments(c, s, prompt, out, l, nonces);
    forall i: nat | i < |out|
      ensures IsCommitted(os[i].top, out[i]) ==> IsCommitted(more[i].top, out[i])
      ensures l >= s.model.vocabSize ==> IsCommitted(more[i].top, out[i])
    {
      CommitsMore(c, s, LogitsAfter(s, prompt, out[..i]), k, l, nonces(i), out[i]);
    }
    CountCompares(Committed(out, os), Committed(out, more), |out|);
  }

  lemma NothingMasked(c: Scheme, s: Setting, logits: seq<real>, k: nat, nonce: Bytes, o: Opening, position: nat)
    requires Proper(s) && k >= |logits| > 0 && IsHonest(c, s, logits, k, nonce, o)
    ensures MaskedNeverWin(s, logits, o.top, position)
  {
    forall t: Token | t < |logits|
      ensures IsCommitted(o.top, t)
    {
      CommitsMore(c, s, logits, k, k, nonce, t);
    }
    assert IsCommitted(o.top, 0);
  }

  lemma FullCommitmentMasksNothing(
    c: Scheme, s: Setting, prompt: seq<Token>, out: seq<Token>, k: nat, nonces: nat -> Bytes)
    requires Proper(s) && k >= s.model.vocabSize > 0
    ensures MaskHolds(s, prompt, out, Commitments(c, s, prompt, out, k, nonces))
  {
    var os := Commitments(c, s, prompt, out, k, nonces);
    forall i: nat | i < |out|
      ensures MaskHoldsAt(s, prompt, out, os, i)
    {
      var logits, o := HonestAt(c, s, prompt, out, k, nonces, i);
      NothingMasked(c, s, logits, k, nonces(i), o, |prompt| + i);
      HoldsAt(s, prompt, out, os, i, logits, o);
    }
  }

  /** Committing to more tokens never lowers the fraction that the check reports for an honest run,
      and committing to the whole vocabulary makes it 1. */
  lemma ReportedFractionGrows(c: Scheme, s: Setting, prompt: seq<Token>, m: nat, k: nat, l: nat, nonces: nat -> Bytes)
    requires Proper(s) && s.model.vocabSize > 0 && m > 0 && k <= l && MaskHoldsFor(c, s, prompt, m, k, nonces)
    ensures var out := Generated(s, prompt, m);
            var less := Checked(c, s, |prompt|, out, HonestOpenings(c, s, prompt, m, k, nonces));
            var more := Checked(c, s, |prompt|, out, HonestOpenings(c, s, prompt, m, l, nonces));
            && less.Some? && more.Some? && less.value.allValid && more.value.allValid
            && less.value.fraction <= more.value.fraction
            && (l >= s.model.vocabSize ==> more.value.fraction == 1.0)
  {
    var out := Generated(s, prompt, m);
    HonestRunIsConsistent(c, s, prompt, m, k, nonces);
    MaskHoldsMore(c, s, prompt, out, k, l, nonces);
    HonestRunIsConsistent(c, s, prompt, m, l, nonces);
    GeneratedInVocabulary(s, prompt, m);
    CountGrowsWithK(c, s, prompt, out, k, l, nonces);
    FractionGrows(Count(Committed(out, HonestOpenings(c, s, prompt, m, k, nonces)), m),
                  Count(Committed(out, HonestOpenings(c, s, prompt, m, l, nonces)), m), m);
  }

  lemma FractionGrows(a: nat, b: nat, n: nat)
    requires a <= b && n > 0
    ensures Fraction(a, n) <= Fraction(b, n)
    ensures b == n ==> Fraction(b, n) == 1.0
  {
    QuotientGrows(a as real, b as real, n as real);
  }

  lemma QuotientGrows(a: real, b: real, d: real)
    requires d > 0.0 && a <= b
    ensures a / d <= b / d && d / d == 1.0
  {
    if a < b { DivideMonotone(b, a, d); }
  }

  lemma MaskedNeverWinMore(
    c: Scheme, s: Setting, logits: seq<real>, k: nat, l: nat, nonce: Bytes, o: Opening, larger: Opening, position: nat)
    requires Proper(s) && k <= l && IsHonest(c, s, logits, k, nonce, o) && IsHonest(c, s, logits, l, nonce, larger)
    requires MaskedNeverWin(s, logits, o.top, position)
    ensures MaskedNeverWin(s, logits, larger.top, position)
  {
    forall t: Token | t < |logits|
      ensures IsCommitted(o.top, t) ==> IsCommitted(larger.top, t)
    {
      CommitsMore(c, s, logits, k, l, nonce, t);
    }
  }

  lemma MaskHoldsMoreAt(
    c: Scheme, s: Setting, prompt: seq<Token>, out: seq<Token>, k: nat, l: nat, nonces: nat -> Bytes, i: nat)
    requires Proper(s) && k <= l && i < |out|
    requires MaskHoldsAt(s, prompt, out, Commitments(c, s, prompt, out, k, nonces), i)
    ensures MaskHoldsAt(s, prompt, out, Commitments(c, s, prompt, out, l, nonces), i)
  {
    var logits, o := HonestAt(c, s, prompt, out, k, nonces, i);
    var _, larger := HonestAt(c, s, prompt, out, l, nonces, i);
    MaskedNeverWinMore(c, s, logits, k, l, nonces(i), o, larger, |prompt| + i);
    HoldsAt(s, prompt, out, Commitments(c, s, prompt, out, l, nonces), i, logits, larger);
  }

  /** If masked tokens never win for `k`, they never win for any larger number. */
  lemma MaskHoldsMore(c: Scheme, s: Setting, prompt: seq<Token>, out: seq<Token>, k: nat, l: nat, nonces: nat -> Bytes)
    requires Proper(s) && k <= l && MaskHolds(s, prompt, out, Commitments(c, s, prompt, out, k, nonces))
    ensures MaskHolds(s, prompt, out, Commitments(c, s, prompt, out, l, nonces))
  {
    forall i: nat | i < |out|
      ensures MaskHoldsAt(s, prompt, out, Commitments(c, s, prompt, out, l, nonces), i)
    {
      MaskHoldsMoreAt(c, s, prompt, out, k, l, nonces, i);
    }
  }

  /** An honest run that commits to the whole vocabulary is reported consistent everywhere. */
  lemma FullCommitmentIsConsistent(c: Scheme, s: Setting, prompt: seq<Token>, m: nat, k: nat, nonces: nat -> Bytes)
    requires Proper(s) && k >= s.model.vocabSize > 0
    ensures Checked(c, s, |prompt|, Generated(s, prompt, m), HonestOpenings(c, s, prompt, m, k, nonces))
         == if m == 0 then None else Some(Answer(true, 1.0))
  {
    FullCommitmentMasksNothing(c, s, prompt, Generated(s, prompt, m), k, nonces);
    HonestRunIsConsistent(c, s, prompt, m, k, nonces);
    if m > 0 { ReportedFractionGrows(c, s, prompt, m, k, k, nonces); }
  }

  // ----- A bound on the noise suffices

  /** The noise under this seed stays between two bounds. */
  ghost predicate NoiseWithin(s: Setting, low: real, high: real) {
    forall position: nat, t: Token :: t < s.model.vocabSize ==> low <= s.noise(s.seed, position, t) <= high
  }

  /** Some logit clears the mask by the temperature times `spread`. */
  ghost predicate SomeLogitClears(s: Setting, logits: seq<real>, spread: real) {
    exists t: Token :: t < |logits| && logits[t] > MASK + s.temperature * spread
  }

  lemma BestLogitClears(
    c: Scheme, s: Setting, logits: seq<real>, k: nat, nonce: Bytes, o: Opening, position: nat, low: real, high: real)
    requires Proper(s) && s.temperature > 0.0 && k > 0 && |logits| == s.model.vocabSize
    requires IsHonest(c, s, logits, k, nonce, o)
    requires NoiseWithin(s, low, high) && SomeLogitClears(s, logits, high - low)
    ensures MaskedNeverWin(s, logits, o.top, position)
  {
    var t: Token :| t < |logits| && logits[t] > MASK + s.temperature * (high - low);
    assert Ranks(s.sorter(logits), logits);
    TopScoreIsMaximal(s.sorter(logits), logits, t);
    ClearOfTheMask(s, logits, o.top, position, low, high);
  }

  /** At every position of the honest run some logit clears the mask. */
  ghost predicate LogitsClear(s: Setting, prompt: seq<Token>, m: nat, spread: real)
    requires Proper(s) && s.model.vocabSize > 0
  {
    forall i: nat :: i < m ==> SomeLogitClears(s, LogitsAfter(s, prompt, Generated(s, prompt, m)[..i]), spread)
  }

  lemma ClearPosition(
    c: Scheme, s: Setting, prompt: seq<Token>, out: seq<Token>, k: nat, nonces: nat -> Bytes,
    low: real, high: real, i: nat)
    requires Proper(s) && s.temperature > 0.0 && k > 0 && i < |out|
    requires NoiseWithin(s, low, high) && SomeLogitClears(s, LogitsAfter(s, prompt, out[..i]), high - low)
    ensures MaskHoldsAt(s, prompt, out, Commitments(c, s, prompt, out, k, nonces), i)
  {
    var logits, o := HonestAt(c, s, prompt, out, k, nonces, i);
    BestLogitClears(c, s, logits, k, nonces(i), o, |prompt| + i, low, high);
    HoldsAt(s, prompt, out, Commitments(c, s, prompt, out, k, nonces), i, logits, o);
  }

  /** With a positive temperature, bounded noise, at least one committed token and, at each position,
      one logit clear of the mask, the check reports exactly the committed share. */
  lemma BoundedNoiseIsConsistent(
    c: Scheme, s: Setting, prompt: seq<Token>, m: nat, k: nat, nonces: nat -> Bytes, low: real, high: real)
    requires Proper(s) && s.temperature > 0.0 && s.model.vocabSize > 0 && k > 0
    requires NoiseWithin(s, low, high) && LogitsClear(s, prompt, m, high - low)
    ensures Checked(c, s, |prompt|, Generated(s, prompt, m), HonestOpenings(c, s, prompt, m, k, nonces))
         == if m == 0 then None else Some(Answer(true, CommittedShare(c, s, prompt, m, k, nonces)))
  {
    var out := Generated(s, prompt, m);
    forall i: nat | i < m
      ensures MaskHoldsAt(s, prompt, out, Commitments(c, s, prompt, out, k, nonces), i)
    {
      ClearPosition(c, s, prompt, out, k, nonces, low, high, i);
    }
    HonestRunIsConsistent(c, s, prompt, m, k, nonces);
  }
}
