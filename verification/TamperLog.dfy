/** The append-only, hash-chained, signed log (tamper_log.py). The hash of an entry is taken over
    its canonical serialisation, which is represented by the content itself; hash and signature
    scheme are parameters. */
module TamperLogs {
  import opened ByteStrings
  import opened Digests

  datatype Content<P> = Content(index: int, prevHash: Digest32, payload: P)

  datatype LogEntry<P, S> = LogEntry(content: Content<P>, signature: Option<S>)

  datatype Scheme<!P, !S> = Scheme(hash: Content<P> -> Digest32, sign: Digest32 -> S, valid: (S, Digest32) -> bool)

  /** Sixty-four hexadecimal zeros. */
  const ZERO_HASH: Digest32 := seq(32, _ => 0)

  ghost predicate SignaturesVerify<P, S>(scheme: Scheme<P, S>) {
    forall d: Digest32 :: scheme.valid(scheme.sign(d), d)
  }

  predicate VerifiesEntry<P, S>(scheme: Scheme<P, S>, entry: LogEntry<P, S>) {
    entry.signature.Some? && scheme.valid(entry.signature.value, scheme.hash(entry.content))
  }

  function Signed<P, S>(scheme: Scheme<P, S>, content: Content<P>): LogEntry<P, S> {
    LogEntry(content, Some(scheme.sign(scheme.hash(content))))
  }

  predicate Linked<P, S>(scheme: Scheme<P, S>, entries: seq<LogEntry<P, S>>, i: nat)
    requires 0 < i < |entries|
  {
    entries[i].content.prevHash == scheme.hash(entries[i - 1].content)
  }

  /** Entries up to `n` hang together; the first one is not looked at. */
  ghost predicate IntactUpTo<P, S>(scheme: Scheme<P, S>, entries: seq<LogEntry<P, S>>, n: nat)
    requires n <= |entries|
  {
    forall i: nat :: 0 < i < n ==> Linked(scheme, entries, i) && VerifiesEntry(scheme, entries[i])
  }

  ghost predicate Intact<P, S>(scheme: Scheme<P, S>, entries: seq<LogEntry<P, S>>) {
    IntactUpTo(scheme, entries, |entries|)
  }

  /** Entry `i` is what the signer writes there. */
  predicate WrittenAt<P(==), S(==)>(scheme: Scheme<P, S>, log: seq<LogEntry<P, S>>, genesis: P, i: nat)
    requires i < |log|
  {
    log[i] == Signed(scheme, if i == 0 then Content(0, ZERO_HASH, genesis)
                             else Content(i, scheme.hash(log[i - 1].content), log[i].content.payload))
  }

  ghost predicate Authentic<P, S>(scheme: Scheme<P, S>, log: seq<LogEntry<P, S>>, genesis: P) {
    log != [] && forall i: nat :: i < |log| ==> WrittenAt(scheme, log, genesis, i)
  }

  datatype Verdict = Verified(entries: nat) | ChainBroken(at: nat) | BadSignature(at: nat)

  class TamperEvidentLog<P, S> {
    const scheme: Scheme<P, S>
    ghost const genesis: P
    var entries: seq<LogEntry<P, S>>

    ghost predicate Valid()
      reads this
    {
      Authentic(scheme, entries, genesis)
    }

    constructor (scheme: Scheme<P, S>, genesis: P)
      ensures Valid() && this.scheme == scheme && this.genesis == genesis && |entries| == 1
      ensures entries[0].content.index == 0 && entries[0].content.payload == genesis
      ensures forall k :: 0 <= k < 32 ==> entries[0].content.prevHash[k] == 0
      ensures entries[0].signature == Some(scheme.sign(scheme.hash(entries[0].content)))
    {
      this.scheme, this.genesis := scheme, genesis;
      entries := [Signed(scheme, Content(0, ZERO_HASH, genesis))];
    }

    method Append(payload: P) returns (entry: LogEntry<P, S>)
      requires Valid()
      modifies this
      ensures Valid() && entries == old(entries) + [entry] && entry.content.payload == payload
      ensures |old(entries)| > 0 && entry.content.index == |old(entries)|
      ensures entry.content.prevHash == scheme.hash(old(entries)[|old(entries)| - 1].content)
      ensures entry.signature == Some(scheme.sign(scheme.hash(entry.content)))
    {
      var prevHash := scheme.hash(entries[|entries| - 1].content);
      entry := Signed(scheme, Content(|entries|, prevHash, payload));
      ghost var before := entries;
      entries := entries + [entry];
      assert forall i: nat :: i < |before| && WrittenAt(scheme, before, genesis, i) ==>
               WrittenAt(scheme, entries, genesis, i);
    }

    /** Nothing is required: the entries may have been tampered with. */
    method VerifyIntegrity() returns (verdict: Verdict)
      ensures verdict == Verified(|entries|) <==> Intact(scheme, entries)
      ensures verdict.Verified? <==> forall i: nat :: 0 < i < |entries| ==> Holds(scheme, entries[i - 1], entries[i])
      ensures match verdict
              case Verified(n) => n == |entries|
              case ChainBroken(i) => 0 < i < |entries| && IntactUpTo(scheme, entries, i) && !Linked(scheme, entries, i)
              case BadSignature(i) => 0 < i < |entries| && IntactUpTo(scheme, entries, i) && Linked(scheme, entries, i)
                                      && !VerifiesEntry(scheme, entries[i])
    {
      var i := 1;
      while i < |entries|
        invariant if entries == [] then i == 1 else 1 <= i <= |entries| && IntactUpTo(scheme, entries, i)
      {
        var current, previous := entries[i], entries[i - 1];
        var expectedPrev := scheme.hash(previous.content);
        IntactOneMore(scheme, entries, i);
        if current.content.prevHash != expectedPrev { return ChainBroken(i); }
        if !VerifiesEntry(scheme, current) { return BadSignature(i); }
        i := i + 1;
      }
      verdict := Verified(|entries|);
      IntactMeans(scheme, entries);
    }
  }

  /** An entry holds behind another one if it carries the other's hash and is signed, with a signature
      that is valid for its own hash. */
  ghost predicate Holds<P, S>(scheme: Scheme<P, S>, before: LogEntry<P, S>, entry: LogEntry<P, S>) {
    && entry.content.prevHash == scheme.hash(before.content)
    && entry.signature.Some? && scheme.valid(entry.signature.value, scheme.hash(entry.content))
  }

  lemma IntactMeans<P, S>(scheme: Scheme<P, S>, entries: seq<LogEntry<P, S>>)
    ensures Intact(scheme, entries)
       <==> forall i: nat :: 0 < i < |entries| ==> Holds(scheme, entries[i - 1], entries[i])
  {
    forall i: nat | 0 < i < |entries|
      ensures Holds(scheme, entries[i - 1], entries[i])
         <==> Linked(scheme, entries, i) && VerifiesEntry(scheme, entries[i])
    {
    }
  }

  lemma IntactOneMore<P, S>(scheme: Scheme<P, S>, entries: seq<LogEntry<P, S>>, i: nat)
    requires 0 < i < |entries| && IntactUpTo(scheme, entries, i)
    ensures IntactUpTo(scheme, entries, i + 1) <==> Linked(scheme, entries, i) && VerifiesEntry(scheme, entries[i])
    ensures Intact(scheme, entries) ==> IntactUpTo(scheme, entries, i + 1)
  {
  }

  // ----- What a log that passes has to be

  datatype Finding<P> =
    | ContiguousRun(log: nat, first: nat)
    | Collision(one: Content<P>, other: Content<P>)
    | HashesToZero(content: Content<P>)
    | Forged(at: nat)

  type Logs<P, S> = seq<seq<LogEntry<P, S>>>

  ghost predicate AllAuthentic<P, S>(scheme: Scheme<P, S>, logs: Logs<P, S>, genesis: P) {
    forall l :: 0 <= l < |logs| ==> Authentic(scheme, logs[l], genesis)
  }

  ghost predicate RunsInside<P, S>(suspect: seq<LogEntry<P, S>>, log: seq<LogEntry<P, S>>, first: nat) {
    first + |suspect| <= |log| && forall i :: 0 <= i < |suspect| ==> suspect[i].content == log[first + i].content
  }

  /** What each finding claims, in terms of all logs that were written under the key. */
  ghost predicate Established<P, S>(
    scheme: Scheme<P, S>, suspect: seq<LogEntry<P, S>>, logs: Logs<P, S>, f: Finding<P>)
  {
    match f
    case ContiguousRun(l, first) => l < |logs| && RunsInside(suspect, logs[l], first)
    case Collision(one, other) => one != other && scheme.hash(one) == scheme.hash(other)
    case HashesToZero(content) => scheme.hash(content) == ZERO_HASH
    case Forged(at) =>
      && at < |suspect|
      && suspect[at].signature.Some? && scheme.valid(suspect[at].signature.value, scheme.hash(suspect[at].content))
      && forall l, j :: 0 <= l < |logs| && 0 <= j < |logs[l]| ==>
           scheme.hash(logs[l][j].content) != scheme.hash(suspect[at].content)
  }

  /** The entry of the log whose hash is `digest`, or the length of the log. */
  function Locate<P, S>(scheme: Scheme<P, S>, log: seq<LogEntry<P, S>>, digest: Digest32): (j: nat)
    ensures j <= |log| && (j < |log| ==> scheme.hash(log[j].content) == digest)
    ensures j == |log| ==> forall k :: 0 <= k < |log| ==> scheme.hash(log[k].content) != digest
  {
    if log == [] then 0
    else if scheme.hash(log[|log| - 1].content) == digest then |log| - 1
    else
      var j := Locate(scheme, log[..|log| - 1], digest);
      if j == |log| - 1 then |log| else j
  }

  /** The first log that has such an entry, or the number of logs. */
  function LocateLog<P, S>(scheme: Scheme<P, S>, logs: Logs<P, S>, digest: Digest32): (l: nat)
    ensures l <= |logs| && (l < |logs| ==> Locate(scheme, logs[l], digest) < |logs[l]|)
    ensures l == |logs| ==> forall k :: 0 <= k < |logs| ==> Locate(scheme, logs[k], digest) == |logs[k]|
  {
    if logs == [] then 0
    else if Locate(scheme, logs[0], digest) < |logs[0]| then 0
    else
      assert logs == [logs[0]] + logs[1..];
      1 + LocateLog(scheme, logs[1..], digest)
  }

  /** Follows the back links, where the last entry is entry `j` of log `l`. */
  function WalkBack<P(==), S>(
    suspect: seq<LogEntry<P, S>>, log: seq<LogEntry<P, S>>, l: nat, j: nat): Finding<P>
    requires suspect != [] && j < |log|
  {
    var n := |suspect|;
    if n == 1 then ContiguousRun(l, j)
    else if j == 0 then HashesToZero(suspect[n - 2].content)
    else if log[j - 1].content != suspect[n - 2].content then
      Collision(suspect[n - 2].content, log[j - 1].content)
    else WalkBack(suspect[..n - 1], log, l, j - 1)
  }

  /** Looks up the last entry by its hash and follows the links back from there. */
  function Explain<P(==), S>(scheme: Scheme<P, S>, suspect: seq<LogEntry<P, S>>, logs: Logs<P, S>): Finding<P>
    requires suspect != []
  {
    var n := |suspect|;
    var digest := scheme.hash(suspect[n - 1].content);
    var l := LocateLog(scheme, logs, digest);
    if l == |logs| then Forged(n - 1)
    else
      var j := Locate(scheme, logs[l], digest);
      if logs[l][j].content != suspect[n - 1].content then
        Collision(suspect[n - 1].content, logs[l][j].content)
      else WalkBack(suspect, logs[l], l, j)
  }

  /** Entries hang together by their hashes, whatever their signatures. */
  ghost predicate Chained<P, S>(scheme: Scheme<P, S>, entries: seq<LogEntry<P, S>>) {
    forall i: nat :: 0 < i < |entries| ==> Linked(scheme, entries, i)
  }

  lemma ShorterIsChained<P, S>(scheme: Scheme<P, S>, entries: seq<LogEntry<P, S>>, n: nat)
    requires Chained(scheme, entries) && n <= |entries|
    ensures Chained(scheme, entries[..n])
  {
    forall i: nat | 0 < i < n
      ensures Linked(scheme, entries[..n], i)
    {
      assert Linked(scheme, entries, i);
    }
  }

  lemma ExtendsRun<P, S>(suspect: seq<LogEntry<P, S>>, log: seq<LogEntry<P, S>>, first: nat)
    requires suspect != [] && RunsInside(suspect[..|suspect| - 1], log, first)
    requires first + |suspect| <= |log| && suspect[|suspect| - 1].content == log[first + |suspect| - 1].content
    ensures RunsInside(suspect, log, first)
  {
    forall i | 0 <= i < |suspect|
      ensures suspect[i].content == log[first + i].content
    {
      if i < |suspect| - 1 { assert suspect[..|suspect| - 1][i].content == log[first + i].content; }
    }
  }

  /** One link of the walk: the entry before is the one before in the log, or a break is found. */
  lemma LinkExplained<P, S>(
    scheme: Scheme<P, S>, suspect: seq<LogEntry<P, S>>, log: seq<LogEntry<P, S>>, genesis: P, i: nat, j: nat)
    requires Authentic(scheme, log, genesis) && 0 < i < |suspect| && j < |log|
    requires Linked(scheme, suspect, i) && suspect[i].content == log[j].content
    ensures scheme.hash(suspect[i - 1].content) == if j == 0 then ZERO_HASH else scheme.hash(log[j - 1].content)
  {
    assert WrittenAt(scheme, log, genesis, j);
  }

  /** The walk ends in what it claims. A run it finds ends with entry `j`. */
  lemma {:induction false} WalkEstablishes<P, S>(
    scheme: Scheme<P, S>, suspect: seq<LogEntry<P, S>>, log: seq<LogEntry<P, S>>, genesis: P, l: nat, j: nat)
    requires Authentic(scheme, log, genesis) && Chained(scheme, suspect) && suspect != []
    requires j < |log| && suspect[|suspect| - 1].content == log[j].content
    ensures match WalkBack(suspect, log, l, j)
            case ContiguousRun(k, first) => k == l && first + |suspect| == j + 1 && RunsInside(suspect, log, first)
            case Collision(one, other) => one != other && scheme.hash(one) == scheme.hash(other)
            case HashesToZero(content) => scheme.hash(content) == ZERO_HASH
            case Forged(_) => false
    decreases |suspect|
  {
    var n := |suspect|;
    if n > 1 {
      assert Linked(scheme, suspect, n - 1);
      LinkExplained(scheme, suspect, log, genesis, n - 1, j);
      if j > 0 && log[j - 1].content == suspect[n - 2].content {
        ShorterIsChained(scheme, suspect, n - 1);
        WalkEstablishes(scheme, suspect[..n - 1], log, genesis, l, j - 1);
        var f := WalkBack(suspect[..n - 1], log, l, j - 1);
        if f.ContiguousRun? { ExtendsRun(suspect, log, f.first); }
      }
    }
  }

  /** Only the links and the signature of the last entry are needed. */
  lemma ChainedLogsAreAuthentic<P, S>(
    scheme: Scheme<P, S>, suspect: seq<LogEntry<P, S>>, logs: Logs<P, S>, genesis: P)
    requires AllAuthentic(scheme, logs, genesis) && Chained(scheme, suspect) && suspect != []
    requires VerifiesEntry(scheme, suspect[|suspect| - 1])
    ensures Established(scheme, suspect, logs, Explain(scheme, suspect, logs))
  {
    var n := |suspect|;
    var digest := scheme.hash(suspect[n - 1].content);
    var l := LocateLog(scheme, logs, digest);
    if l < |logs| {
      var j := Locate(scheme, logs[l], digest);
      if logs[l][j].content == suspect[n - 1].content {
        assert Authentic(scheme, logs[l], genesis);
        WalkEstablishes(scheme, suspect, logs[l], genesis, l, j);
      }
    } else {
      forall k, j | 0 <= k < |logs| && 0 <= j < |logs[k]|
        ensures scheme.hash(logs[k][j].content) != digest
      {
        assert Locate(scheme, logs[k], digest) == |logs[k]|;
      }
    }
  }

  /** Every list of at least two entries that passes is a contiguous run of one of the logs written
      under the key, or following it back exhibits a collision, a content that hashes to sixty-four
      zeros, or an entry with a valid signature on a hash that was signed in none of these logs. */
  lemma PassingLogsAreAuthentic<P, S>(
    scheme: Scheme<P, S>, suspect: seq<LogEntry<P, S>>, logs: Logs<P, S>, genesis: P)
    requires AllAuthentic(scheme, logs, genesis) && Intact(scheme, suspect) && |suspect| >= 2
    ensures Established(scheme, suspect, logs, Explain(scheme, suspect, logs))
  {
    assert Chained(scheme, suspect);
    assert Linked(scheme, suspect, |suspect| - 1);
    ChainedLogsAreAuthentic(scheme, suspect, logs, genesis);
  }

  /** A run that starts with the genesis entry is a prefix of its log. */
  lemma GenesisMeansPrefix<P, S>(
    scheme: Scheme<P, S>, suspect: seq<LogEntry<P, S>>, logs: Logs<P, S>, genesis: P)
    requires AllAuthentic(scheme, logs, genesis) && Intact(scheme, suspect) && |suspect| >= 2
    requires suspect[0].content == Content(0, ZERO_HASH, genesis)
    ensures Established(scheme, suspect, logs, Explain(scheme, suspect, logs))
    ensures Explain(scheme, suspect, logs).ContiguousRun? ==> Explain(scheme, suspect, logs).first == 0
  {
    PassingLogsAreAuthentic(scheme, suspect, logs, genesis);
    var f := Explain(scheme, suspect, logs);
    if f.ContiguousRun? { RunFromGenesis(scheme, suspect, logs[f.log], genesis, f.first); }
  }

  lemma RunFromGenesis<P, S>(
    scheme: Scheme<P, S>, suspect: seq<LogEntry<P, S>>, log: seq<LogEntry<P, S>>, genesis: P, first: nat)
    requires Authentic(scheme, log, genesis) && suspect != [] && RunsInside(suspect, log, first)
    requires suspect[0].content == Content(0, ZERO_HASH, genesis)
    ensures first == 0
  {
    assert suspect[0].content == log[first + 0].content;
    assert WrittenAt(scheme, log, genesis, first);
  }

  /** Conversely, every run of the signer's log passes, whatever the signature of its first entry. */
  lemma RunsOfTheLogPass<P, S>(
    scheme: Scheme<P, S>, suspect: seq<LogEntry<P, S>>, log: seq<LogEntry<P, S>>, genesis: P, first: nat)
    requires SignaturesVerify(scheme) && Authentic(scheme, log, genesis) && first + |suspect| <= |log|
    requires RunsInside(suspect, log, first)
    requires forall i: nat :: 0 < i < |suspect| ==> suspect[i].signature == log[first + i].signature
    ensures Intact(scheme, suspect)
  {
    forall i: nat | 0 < i < |suspect|
      ensures Linked(scheme, suspect, i) && VerifiesEntry(scheme, suspect[i])
    {
      assert WrittenAt(scheme, log, genesis, first + i);
      assert suspect[i - 1].content == log[first + (i - 1)].content;
    }
  }

  /** Every log built by `Append` passes its own check. */
  lemma AuthenticLogsPass<P, S>(scheme: Scheme<P, S>, log: seq<LogEntry<P, S>>, genesis: P)
    requires SignaturesVerify(scheme) && Authentic(scheme, log, genesis)
    ensures Intact(scheme, log)
  {
    RunsOfTheLogPass(scheme, log, log, genesis, 0);
  }
}
