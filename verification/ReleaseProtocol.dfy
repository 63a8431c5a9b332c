/** The approval registry (workload_approval.py) and the release chain on top of it
    (weight_transport.py), as objects, as a state machine over whole runs, and what a receiver can
    conclude from a matching manifest root. */
module ReleaseProtocol {
  import opened ByteStrings
  import opened Digests
  import opened TamperLogs
  import opened Powers
  import Merkle

  type Cert = string

  datatype Payload =
    | Genesis
    | Approve(cert: Cert, workloadId: string, auditorId: string, issuedSeed: nat)
    | Revoke(cert: Cert, auditorId: string, reason: string)
    | Release(cert: Cert, evalHash: Digest32, manifestRoot: Digest32, auditorId: string)

  /** The payloads behind the genesis entry. */
  function Events<S>(entries: seq<LogEntry<Payload, S>>): (events: seq<Payload>)
    requires entries != []
    ensures |events| == |entries| - 1
  {
    seq(|entries| - 1, i requires 0 <= i < |entries| - 1 => entries[i + 1].content.payload)
  }

  /** `p.get("cert_hash")`: a release carries its certificate under another key. */
  predicate Concerns(p: Payload, cert: Cert) { (p.Approve? || p.Revoke?) && p.cert == cert }

  /** The last approval or revocation of `cert`. */
  function Latest(events: seq<Payload>, cert: Cert): Option<Payload> {
    if events == [] then None
    else if Concerns(events[|events| - 1], cert) then Some(events[|events| - 1])
    else Latest(events[..|events| - 1], cert)
  }

  datatype CheckResult = Approved | SeedMismatch | Revoked | NeverApproved

  /** The verdict that the last event about the certificate calls for. */
  function Judge(latest: Option<Payload>, claimedSeed: nat): CheckResult {
    match latest
    case Some(Approve(_, _, _, seed)) => if seed == claimedSeed then Approved else SeedMismatch
    case Some(Revoke(_, _, _)) => Revoked
    case _ => NeverApproved
  }

  lemma {:induction false} LatestIsLast(events: seq<Payload>, cert: Cert)
    ensures Latest(events, cert).Some? <==> exists i :: 0 <= i < |events| && Concerns(events[i], cert)
    ensures Latest(events, cert).Some? ==>
              exists i :: 0 <= i < |events| && events[i] == Latest(events, cert).value && Concerns(events[i], cert)
                          && forall j :: i < j < |events| ==> !Concerns(events[j], cert)
    decreases |events|
  {
    if events != [] {
      var before, last := events[..|events| - 1], events[|events| - 1];
      LatestIsLast(before, cert);
      if !Concerns(last, cert) && Latest(before, cert).Some? {
        var i :| 0 <= i < |before| && before[i] == Latest(before, cert).value && Concerns(before[i], cert)
                 && forall j :: i < j < |before| ==> !Concerns(before[j], cert);
        assert events[i] == before[i];
        assert forall j :: i < j < |before| ==> events[j] == before[j];
      }
      assert forall i :: 0 <= i < |before| ==> events[i] == before[i];
    }
  }

  /** Event `i` is the last one that approves or revokes `cert`. */
  ghost predicate IsLast(events: seq<Payload>, cert: Cert, i: nat) {
    && i < |events| && (events[i].Approve? || events[i].Revoke?) && events[i].cert == cert
    && forall j :: i < j < |events| ==> !((events[j].Approve? || events[j].Revoke?) && events[j].cert == cert)
  }

  /** The answer in terms of the events themselves. */
  ghost predicate IsAnswer(result: CheckResult, events: seq<Payload>, cert: Cert, seed: nat) {
    && (result == NeverApproved
        <==> forall i :: 0 <= i < |events| ==> !((events[i].Approve? || events[i].Revoke?) && events[i].cert == cert))
    && (result == Revoked <==> exists i: nat :: IsLast(events, cert, i) && events[i].Revoke?)
    && (result == SeedMismatch
        <==> exists i: nat :: IsLast(events, cert, i) && events[i].Approve? && events[i].issuedSeed != seed)
    && (result == CheckResult.Approved
        <==> exists i: nat :: IsLast(events, cert, i) && events[i].Approve? && events[i].issuedSeed == seed)
  }

  lemma JudgementIsAnswer(events: seq<Payload>, cert: Cert, seed: nat)
    ensures IsAnswer(Judge(Latest(events, cert), seed), events, cert, seed)
  {
    LatestIsLast(events, cert);
    if Latest(events, cert).Some? {
      var i: nat :| i < |events| && events[i] == Latest(events, cert).value && Concerns(events[i], cert)
                    && forall j :: i < j < |events| ==> !Concerns(events[j], cert);
      assert IsLast(events, cert, i);
      forall k: nat | IsLast(events, cert, k)
        ensures k == i
      {
        assert Concerns(events[k], cert);
      }
    } else {
      forall i | 0 <= i < |events|
        ensures !((events[i].Approve? || events[i].Revoke?) && events[i].cert == cert)
      {
        assert !Concerns(events[i], cert);
      }
    }
  }

  class ApprovalRegistry<S> {
    const log: TamperEvidentLog<Payload, S>

    constructor (scheme: Scheme<Payload, S>)
      ensures log.Valid() && fresh(log) && Events(log.entries) == []
    {
      log := new TamperEvidentLog<Payload, S>(scheme, Genesis);
    }

    /** The seed is drawn inside; `drawn` stands for the random draw. */
    method Approve(cert: Cert, workloadId: string, auditorId: string, drawn: nat) returns (seed: nat)
      requires log.Valid()
      modifies log
      ensures log.Valid() && seed == drawn
      ensures Events(log.entries) == old(Events(log.entries)) + [Payload.Approve(cert, workloadId, auditorId, seed)]
    {
      seed := drawn;
      var _ := log.Append(Payload.Approve(cert, workloadId, auditorId, seed));
    }

    method Revoke(cert: Cert, auditorId: string, reason: string)
      requires log.Valid()
      modifies log
      ensures log.Valid()
      ensures Events(log.entries) == old(Events(log.entries)) + [Payload.Revoke(cert, auditorId, reason)]
    {
      var _ := log.Append(Payload.Revoke(cert, auditorId, reason));
    }

    method Check(cert: Cert, claimedSeed: nat) returns (result: CheckResult)
      requires log.Valid()
      ensures result == Judge(Latest(Events(log.entries), cert), claimedSeed)
      ensures IsAnswer(result, Events(log.entries), cert, claimedSeed)
    {
      JudgementIsAnswer(Events(log.entries), cert, claimedSeed);
      var events := Events(log.entries);
      var approved: Option<bool> := None;
      var latestSeed: Option<nat> := None;
      for i := 0 to |events|
        invariant match Latest(events[..i], cert)
                  case Some(Approve(_, _, _, seed)) => approved == Some(true) && latestSeed == Some(seed)
                  case Some(Revoke(_, _, _)) => approved == Some(false)
                  case _ => approved == None
      {
        assert events[..i + 1][..i] == events[..i];
        var p := events[i];
        if !Concerns(p, cert) { continue; }
        if p.Approve? {
          approved, latestSeed := Some(true), Some(p.issuedSeed);
        } else if p.Revoke? {
          approved := Some(false);
        }
      }
      assert events[..|events|] == events;
      LatestIsLast(events, cert);
      if approved != Some(true) {
        return if approved == Some(false) then Revoked else NeverApproved;
      }
      result := if latestSeed != Some(claimedSeed) then SeedMismatch else Approved;
    }
  }

  class ReleaseChain<S> {
    const log: TamperEvidentLog<Payload, S>
    const registry: ApprovalRegistry<S>

    ghost predicate Valid()
      reads log, registry.log
    {
      log.Valid() && registry.log.Valid() && log != registry.log
    }

    ghost function View(): State
      requires Valid()
      reads log, registry.log
    {
      State(Events(registry.log.entries), Events(log.entries))
    }

    constructor (scheme: Scheme<Payload, S>, registry: ApprovalRegistry<S>)
      requires registry.log.Valid()
      ensures Valid() && fresh(log) && this.registry == registry
      ensures View() == State(Events(registry.log.entries), [])
    {
      log := new TamperEvidentLog<Payload, S>(scheme, Genesis);
      this.registry := registry;
    }

    method Release(cert: Cert, seed: nat, evalHash: Digest32, manifestRoot: Digest32, auditorId: string)
      returns (result: CheckResult)
      requires Valid()
      modifies log
      ensures Valid() && result == Judge(Latest(old(View()).registry, cert), seed)
      ensures View() == Step(old(View()), ReleaseOp(cert, seed, evalHash, manifestRoot, auditorId))
      ensures IsAnswer(result, old(Events(registry.log.entries)), cert, seed)
      ensures Events(registry.log.entries) == old(Events(registry.log.entries))
      ensures Events(log.entries)
           == old(Events(log.entries))
              + if result == Approved then [Payload.Release(cert, evalHash, manifestRoot, auditorId)] else []
    {
      result := registry.Check(cert, seed);
      if result != Approved { return; }
      var _ := log.Append(Payload.Release(cert, evalHash, manifestRoot, auditorId));
    }

    method LatestReleaseFor(cert: Cert) returns (latest: Option<Payload>)
      requires Valid()
      ensures latest == LatestRelease(View().releases, cert)
      ensures latest.None? <==> forall i :: 0 <= i < |Events(log.entries)| ==>
                !(Events(log.entries)[i].Release? && Events(log.entries)[i].cert == cert)
    {
      latest := None;
      var events := Events(log.entries);
      for i := 0 to |events|
        invariant latest == LatestRelease(events[..i], cert)
      {
        assert events[..i + 1][..i] == events[..i];
        if events[i].Release? && events[i].cert == cert { latest := Some(events[i]); }
      }
      assert events[..|events|] == events;
      NoneReleased(events, cert);
    }
  }

  lemma {:induction false} NoneReleased(releases: seq<Payload>, cert: Cert)
    ensures LatestRelease(releases, cert).None?
       <==> forall i :: 0 <= i < |releases| ==> !(releases[i].Release? && releases[i].cert == cert)
    decreases |releases|
  {
    if releases != [] {
      var before := releases[..|releases| - 1];
      NoneReleased(before, cert);
      assert forall i :: 0 <= i < |before| ==> releases[i] == before[i];
    }
  }

  /** The last release of `cert`. */
  function LatestRelease(releases: seq<Payload>, cert: Cert): (latest: Option<Payload>)
    ensures latest.Some? ==> latest.value.Release? && latest.value.cert == cert
  {
    if releases == [] then None
    else
      var last := releases[|releases| - 1];
      if last.Release? && last.cert == cert then Some(last) else LatestRelease(releases[..|releases| - 1], cert)
  }

  // ----- Runs

  datatype Op =
    | ApproveOp(cert: Cert, workloadId: string, auditorId: string, drawn: nat)
    | RevokeOp(cert: Cert, auditorId: string, reason: string)
    | ReleaseOp(cert: Cert, seed: nat, evalHash: Digest32, manifestRoot: Digest32, auditorId: string)

  datatype State = State(registry: seq<Payload>, releases: seq<Payload>)

  function Step(s: State, op: Op): State {
    match op
    case ApproveOp(cert, workloadId, auditorId, drawn) =>
      s.(registry := s.registry + [Payload.Approve(cert, workloadId, auditorId, drawn)])
    case RevokeOp(cert, auditorId, reason) =>
      s.(registry := s.registry + [Payload.Revoke(cert, auditorId, reason)])
    case ReleaseOp(cert, seed, evalHash, manifestRoot, auditorId) =>
      if Judge(Latest(s.registry, cert), seed) == Approved then
        s.(releases := s.releases + [Payload.Release(cert, evalHash, manifestRoot, auditorId)])
      else s
  }

  function Run(ops: seq<Op>): State {
    if ops == [] then State([], []) else Step(Run(ops[..|ops| - 1]), ops[|ops| - 1])
  }

  /** Release `i` was written by step `t` of the run, and the last registry event about its
      certificate was then an approval that had issued the very seed presented. */
  ghost predicate Justified(ops: seq<Op>, releases: seq<Payload>, i: nat, t: nat) {
    && i < |releases| && t < |ops| && ops[t].ReleaseOp?
    && var op, at := ops[t], Run(ops[..t]);
    && releases[i] == Payload.Release(op.cert, op.evalHash, op.manifestRoot, op.auditorId)
    && at.releases == releases[..i]
    && var latest := Latest(at.registry, op.cert);
    && latest.Some? && latest.value.Approve? && latest.value.cert == op.cert && latest.value.issuedSeed == op.seed
  }

  /** In every run of approvals, revocations and releases, in any order, every release is justified. */
  lemma {:induction false} EveryReleaseJustified(ops: seq<Op>, i: nat) returns (t: nat)
    requires i < |Run(ops).releases|
    ensures Justified(ops, Run(ops).releases, i, t)
    decreases |ops|
  {
    var m := |ops| - 1;
    var before, op := Run(ops[..m]), ops[m];
    var releases := Run(ops).releases;
    assert before.releases <= releases;
    if i < |before.releases| {
      t := EveryReleaseJustified(ops[..m], i);
      assert ops[..m][..t] == ops[..t];
      assert releases[..i] == before.releases[..i];
    } else {
      t := m;
      assert releases[..i] == before.releases;
      LatestIsLast(before.registry, op.cert);
    }
  }

  /** One more step of a run: an approval or a revocation is recorded as it stands, and a release
      exactly if the last event about its certificate is an approval with the presented seed. */
  lemma RunRecords(ops: seq<Op>, t: nat)
    requires t < |ops|
    ensures var was, now := Run(ops[..t]), Run(ops[..t + 1]);
            match ops[t]
            case ApproveOp(cert, workloadId, auditorId, drawn) =>
              now.registry == was.registry + [Payload.Approve(cert, workloadId, auditorId, drawn)]
              && now.releases == was.releases
            case RevokeOp(cert, auditorId, reason) =>
              now.registry == was.registry + [Payload.Revoke(cert, auditorId, reason)] && now.releases == was.releases
            case ReleaseOp(cert, seed, evalHash, manifestRoot, auditorId) =>
              && now.registry == was.registry
              && var approved :=
                   exists i: nat :: IsLast(was.registry, cert, i) && was.registry[i].Approve?
                                    && was.registry[i].issuedSeed == seed;
              now.releases == was.releases
                              + if approved then [Payload.Release(cert, evalHash, manifestRoot, auditorId)] else []
  {
    assert ops[..t + 1][..t] == ops[..t];
    if ops[t].ReleaseOp? { JudgementIsAnswer(Run(ops[..t]).registry, ops[t].cert, ops[t].seed); }
  }

  // ----- Receiving

  function ShardHashes(sha: Bytes -> Digest32, shards: seq<Bytes>): (hashes: seq<Digest32>)
    ensures |hashes| == |shards|
  {
    seq(|shards|, i requires 0 <= i < |shards| => sha(shards[i]))
  }

  function ManifestRoot(sha: Bytes -> Digest32, shards: seq<Bytes>): Digest32
    requires shards != []
  {
    Merkle.Root(Manifest(sha), ShardHashes(sha, shards))
  }

  /** In numbers of shards: one is its own root, two make the hash of their two digests in order. */
  lemma SmallManifests(sha: Bytes -> Digest32, x: Bytes, y: Bytes)
    ensures ManifestRoot(sha, [x]) == sha(x)
    ensures ManifestRoot(sha, [x, y]) == sha(sha(x)[..] + sha(y)[..])
  {
    assert ShardHashes(sha, [x]) == [sha(x)] && ShardHashes(sha, [x, y]) == [sha(x), sha(y)];
    RootOfTwo(sha, sha(x), sha(y));
  }

  lemma RootOfTwo(sha: Bytes -> Digest32, p: Digest32, q: Digest32)
    ensures Merkle.Root(Manifest(sha), [p, q]) == sha(p[..] + q[..])
  {
    var next := Merkle.LevelUp(Manifest(sha), [p, q]);
    Merkle.LevelUpPairs(Manifest(sha), [p, q]);
    assert next[0] == Manifest(sha)(p, q);
    assert Merkle.Root(Manifest(sha), next) == next[0];
    ManifestHashes(sha, p, q);
  }

  /** The root of any list of shards, by the levels of its tree: the leaves are the hashes of the shards
      in order, and every node is the hash of the left digest and then the right one. */
  lemma ManifestIsTree(sha: Bytes -> Digest32, shards: seq<Bytes>) returns (levels: seq<seq<Digest32>>)
    requires shards != []
    ensures levels != [] && |levels[0]| == |shards| && levels[|levels| - 1] == [ManifestRoot(sha, shards)]
    ensures forall i :: 0 <= i < |shards| ==> levels[0][i] == sha(shards[i])
    ensures forall l :: 0 <= l < |levels| - 1 ==> |levels[l]| > 1 && |levels[l + 1]| == (|levels[l]| + 1) / 2
    ensures forall l, k :: 0 <= l < |levels| - 1 && 0 <= k < |levels[l + 1]| ==>
              && 2 * k < |levels[l]|
              && levels[l + 1][k] == sha(levels[l][2 * k][..] + levels[l][RightOf(|levels[l]|, k)][..])
  {
    var hashes := ShardHashes(sha, shards);
    levels := Merkle.Levels(Manifest(sha), hashes);
    Merkle.LevelsAreTree(Manifest(sha), hashes);
    forall l, k | 0 <= l < |levels| - 1 && 0 <= k < |levels[l + 1]|
      ensures 2 * k < |levels[l]|
      ensures levels[l + 1][k] == sha(levels[l][2 * k][..] + levels[l][RightOf(|levels[l]|, k)][..])
    {
      assert Merkle.IsNextLevel(Manifest(sha), levels[l], levels[l + 1]);
      Merkle.ManifestNode(sha, hashes, l, k);
    }
  }

  /** The right child of node `k`; the last of an odd level is its own neighbour. */
  function RightOf(n: nat, k: nat): (r: nat)
    requires 2 * k < n
    ensures r < n
  {
    if 2 * k + 1 < n then 2 * k + 1 else 2 * k
  }

  datatype Receipt = NoRecord | EmptyManifest | Mismatch | Accepted

  function Received(sha: Bytes -> Digest32, record: Option<Payload>, shards: seq<Bytes>): Receipt
    requires record.Some? ==> record.value.Release?
  {
    if record.None? then NoRecord
    else if shards == [] then EmptyManifest
    else if ManifestRoot(sha, shards) != record.value.manifestRoot then Mismatch
    else Accepted
  }

  /** An empty list of shards fails the assertion of the tree's constructor. */
  method ReceiveAndCheck(sha: Bytes -> Digest32, record: Option<Payload>, shards: seq<Bytes>) returns (receipt: Receipt)
    requires record.Some? ==> record.value.Release?
    ensures receipt.NoRecord? <==> record.None?
    ensures receipt.EmptyManifest? <==> record.Some? && shards == []
    ensures receipt == Received(sha, record, shards)
    ensures receipt.Accepted?
       <==> record.Some? && shards != [] && ManifestRoot(sha, shards) == record.value.manifestRoot
  {
    if record.None? { return NoRecord; }
    if shards == [] { return EmptyManifest; }
    var tree := new Merkle.EpochTree<Digest32>(Manifest(sha), ShardHashes(sha, shards));
    receipt := if tree.root != record.value.manifestRoot then Mismatch else Accepted;
  }

  // ----- Which lists of shards are accepted

  /** The messages that are hashed at the next level of the tree, as shards in their own right. */
  function Paired(sha: Bytes -> Digest32, shards: seq<Bytes>): (pairs: seq<Bytes>)
    ensures |pairs| == (|shards| + 1) / 2
  {
    var n := |shards|;
    seq((n + 1) / 2, k requires 0 <= k < (n + 1) / 2 =>
      Concatenated(sha(shards[Merkle.Child(n, k, false)]), sha(shards[Merkle.Child(n, k, true)])))
  }

  /** `Paired`, `n` times. */
  function Condensed(sha: Bytes -> Digest32, shards: seq<Bytes>, n: nat): (condensed: seq<Bytes>)
    requires shards != [] && n <= Merkle.Depth(|shards|)
    ensures condensed != [] && Merkle.Depth(|condensed|) == Merkle.Depth(|shards|) - n
    decreases n
  {
    if n == 0 then shards else Condensed(sha, Paired(sha, shards), n - 1)
  }

  function ToDepth(sha: Bytes -> Digest32, shards: seq<Bytes>, d: nat): (condensed: seq<Bytes>)
    requires shards != [] && d <= Merkle.Depth(|shards|)
    ensures condensed != [] && Merkle.Depth(|condensed|) == d
  {
    Condensed(sha, shards, Merkle.Depth(|shards|) - d)
  }

  /** The two lists are the same up to repetition of the last shard of an odd list, and up to standing
      for a subtree by the message that its root is the hash of. */
  ghost predicate SameShards(sha: Bytes -> Digest32, a: seq<Bytes>, b: seq<Bytes>)
    requires a != [] && b != []
  {
    var d := Merkle.CommonDepth(|a|, |b|);
    Merkle.SameExpansion(ToDepth(sha, a, d), ToDepth(sha, b, d))
  }

  lemma PairedHashes(sha: Bytes -> Digest32, shards: seq<Bytes>)
    ensures ShardHashes(sha, Paired(sha, shards)) == Merkle.LevelUp(Manifest(sha), ShardHashes(sha, shards))
  {
  }

  lemma {:induction false} CondensedRoot(sha: Bytes -> Digest32, shards: seq<Bytes>, n: nat)
    requires shards != [] && n <= Merkle.Depth(|shards|)
    ensures ManifestRoot(sha, Condensed(sha, shards, n)) == ManifestRoot(sha, shards)
    decreases n
  {
    if n > 0 {
      PairedHashes(sha, shards);
      CondensedRoot(sha, Paired(sha, shards), n - 1);
    }
  }

  /** Two messages with one hash, if `a` and `b` differ but have one root. */
  function ShardCollision(sha: Bytes -> Digest32, a: seq<Bytes>, b: seq<Bytes>): (Bytes, Bytes)
    requires a != [] && b != []
  {
    var d := Merkle.CommonDepth(|a|, |b|);
    CollisionAt(sha, ToDepth(sha, a, d), ToDepth(sha, b, d))
  }

  /** The same for lists of one depth, at the first position where their expansions differ. */
  function CollisionAt(sha: Bytes -> Digest32, a: seq<Bytes>, b: seq<Bytes>): (Bytes, Bytes)
    requires a != [] && b != [] && Merkle.Depth(|a|) == Merkle.Depth(|b|)
  {
    var i := Merkle.ExpansionDifference(a, b, Pow2(Merkle.Depth(|a|)));
    var x, y := a[Merkle.SourceLeaf(i, |a|)], b[Merkle.SourceLeaf(i, |b|)];
    if sha(x) == sha(y) || |a| == 1 then (x, y)
    else Messages(Merkle.ListCollision(Manifest(sha), ShardHashes(sha, a), ShardHashes(sha, b), i))
  }

  function Messages(c: PairCollision<Digest32>): (Bytes, Bytes) { (c.left.0 + c.left.1, c.right.0 + c.right.1) }

  lemma DiffersSomewhere(a: seq<Bytes>, b: seq<Bytes>)
    requires a != [] && b != [] && !Merkle.SameExpansion(a, b)
    ensures !Merkle.SameLeaf(a, b, Merkle.ExpansionDifference(a, b, Pow2(Merkle.Depth(|a|))))
  {
    var i: nat :| i < Pow2(Merkle.Depth(|a|)) && a[Merkle.SourceLeaf(i, |a|)] != b[Merkle.SourceLeaf(i, |b|)];
    assert !Merkle.SameLeaf(a, b, i);
  }

  lemma HashesCollide(sha: Bytes -> Digest32, ahs: seq<Digest32>, bhs: seq<Digest32>, i: nat)
    requires ahs != [] && bhs != [] && Merkle.Depth(|ahs|) == Merkle.Depth(|bhs|)
    requires Merkle.Root(Manifest(sha), ahs) == Merkle.Root(Manifest(sha), bhs)
    requires ahs[Merkle.SourceLeaf(i, |ahs|)] != bhs[Merkle.SourceLeaf(i, |bhs|)]
    ensures |ahs| > 1
    ensures var c := Messages(Merkle.ListCollision(Manifest(sha), ahs, bhs, i)); MessagesCollide(sha, c.0, c.1)
  {
    Merkle.OneDepthBinds(Manifest(sha), ahs, bhs);
    ManifestCollision(sha, Merkle.ListCollision(Manifest(sha), ahs, bhs, i));
  }

  lemma OneDepthCollides(sha: Bytes -> Digest32, a: seq<Bytes>, b: seq<Bytes>)
    requires a != [] && b != [] && Merkle.Depth(|a|) == Merkle.Depth(|b|)
    requires ManifestRoot(sha, a) == ManifestRoot(sha, b) && !Merkle.SameExpansion(a, b)
    ensures var c := CollisionAt(sha, a, b); MessagesCollide(sha, c.0, c.1)
  {
    var ahs, bhs := ShardHashes(sha, a), ShardHashes(sha, b);
    DiffersSomewhere(a, b);
    var i := Merkle.ExpansionDifference(a, b, Pow2(Merkle.Depth(|a|)));
    if ahs[Merkle.SourceLeaf(i, |a|)] != bhs[Merkle.SourceLeaf(i, |b|)] { HashesCollide(sha, ahs, bhs, i); }
  }

  lemma OneDepthAccepts(sha: Bytes -> Digest32, a: seq<Bytes>, b: seq<Bytes>)
    requires a != [] && b != [] && Merkle.Depth(|a|) == Merkle.Depth(|b|) && Merkle.SameExpansion(a, b)
    ensures ManifestRoot(sha, a) == ManifestRoot(sha, b)
  {
    var ahs, bhs := ShardHashes(sha, a), ShardHashes(sha, b);
    forall i: nat | i < Pow2(Merkle.Depth(|a|))
      ensures ahs[Merkle.SourceLeaf(i, |a|)] == bhs[Merkle.SourceLeaf(i, |b|)]
    {
      assert a[Merkle.SourceLeaf(i, |a|)] == b[Merkle.SourceLeaf(i, |b|)];
    }
    Merkle.OneDepthBinds(Manifest(sha), ahs, bhs);
  }

  /** A manifest root binds its shards, however many there are on either side: the same shards give one
      root, and one root over other shards gives away two messages with one hash. */
  lemma RootBindsShards(sha: Bytes -> Digest32, a: seq<Bytes>, b: seq<Bytes>)
    requires a != [] && b != []
    ensures SameShards(sha, a, b) ==> ManifestRoot(sha, a) == ManifestRoot(sha, b)
    ensures ManifestRoot(sha, a) == ManifestRoot(sha, b) && !SameShards(sha, a, b)
        ==> var c := ShardCollision(sha, a, b); MessagesCollide(sha, c.0, c.1)
  {
    var d := Merkle.CommonDepth(|a|, |b|);
    CondensedRoot(sha, a, Merkle.Depth(|a|) - d);
    CondensedRoot(sha, b, Merkle.Depth(|b|) - d);
    if SameShards(sha, a, b) {
      OneDepthAccepts(sha, ToDepth(sha, a, d), ToDepth(sha, b, d));
    } else if ManifestRoot(sha, a) == ManifestRoot(sha, b) {
      OneDepthCollides(sha, ToDepth(sha, a, d), ToDepth(sha, b, d));
    }
  }

  /** For lists of one length, the same shards are equal lists. */
  lemma SameCountSameShards(sha: Bytes -> Digest32, a: seq<Bytes>, b: seq<Bytes>)
    requires a != [] && |a| == |b|
    ensures SameShards(sha, a, b) <==> a == b
  {
    Merkle.SameLengthSameExpansion(a, b);
  }

  ghost predicate Releases(sha: Bytes -> Digest32, record: Payload, approved: seq<Bytes>) {
    approved != [] && record.Release? && record.manifestRoot == ManifestRoot(sha, approved)
  }

  /** Precisely which lists the receiver accepts against the release of `approved`: those that are the
      same shards, and any further one gives away two messages with one hash. Only for a list of the
      released length does that mean the released list itself. */
  lemma AcceptsExactlySameShards(sha: Bytes -> Digest32, record: Payload, approved: seq<Bytes>, arrived: seq<Bytes>)
    requires Releases(sha, record, approved)
    ensures arrived != [] && SameShards(sha, approved, arrived) ==> Received(sha, Some(record), arrived).Accepted?
    ensures Received(sha, Some(record), arrived).Accepted? ==>
              && arrived != []
              && (SameShards(sha, approved, arrived)
                  || var c := ShardCollision(sha, approved, arrived); MessagesCollide(sha, c.0, c.1))
    ensures |arrived| == |approved| ==> (SameShards(sha, approved, arrived) <==> arrived == approved)
  {
    if arrived != [] { RootBindsShards(sha, approved, arrived); }
    if |arrived| == |approved| { SameCountSameShards(sha, approved, arrived); }
  }

  // ----- The number of shards is not bound

  /** The released list with its last shard repeated, if that is the last of an odd number. */
  lemma RepeatedShardAccepted(sha: Bytes -> Digest32, record: Payload, approved: seq<Bytes>)
    requires Releases(sha, record, approved) && |approved| % 2 == 1 && |approved| > 1
    ensures Received(sha, Some(record), approved + [approved[|approved| - 1]]).Accepted?
  {
    var n := |approved|;
    var hashes, longer := ShardHashes(sha, approved), approved + [approved[n - 1]];
    assert ShardHashes(sha, longer) == hashes + [hashes[n - 1]];
    Merkle.OddListsRepeat(Manifest(sha), hashes);
  }

  /** The released list with pairs of shards replaced by the messages hashed above them. */
  lemma CondensedShardsAccepted(sha: Bytes -> Digest32, record: Payload, approved: seq<Bytes>, n: nat)
    requires Releases(sha, record, approved) && n <= Merkle.Depth(|approved|)
    ensures Received(sha, Some(record), Condensed(sha, approved, n)).Accepted?
  {
    CondensedRoot(sha, approved, n);
  }

  lemma PairedAllSame(sha: Bytes -> Digest32, shards: seq<Bytes>, x: Bytes)
    requires Merkle.AllSame(shards, x)
    ensures Merkle.AllSame(Paired(sha, shards), Concatenated(sha(x), sha(x)))
  {
    forall k | 0 <= k < |Paired(sha, shards)|
      ensures Paired(sha, shards)[k] == Concatenated(sha(x), sha(x))
    {
      var left, right := Merkle.Child(|shards|, k, false), Merkle.Child(|shards|, k, true);
      assert shards[left] == x && shards[right] == x;
    }
  }

  lemma {:induction false} CondensedAllSame(sha: Bytes -> Digest32, shards: seq<Bytes>, x: Bytes, n: nat)
    returns (y: Bytes)
    requires shards != [] && n <= Merkle.Depth(|shards|) && Merkle.AllSame(shards, x)
    ensures Merkle.AllSame(Condensed(sha, shards, n), y)
    decreases n
  {
    y := x;
    if n > 0 {
      var xx := Concatenated(sha(x), sha(x));
      PairedAllSame(sha, shards, x);
      y := CondensedAllSame(sha, Paired(sha, shards), xx, n - 1);
    }
  }

  lemma DeeperListAccepted(sha: Bytes -> Digest32, m: nat, n: nat) returns (a: seq<Bytes>, b: seq<Bytes>)
    requires m > 0 && n > 0 && Merkle.Depth(n) <= Merkle.Depth(m)
    ensures |a| == m && |b| == n && ManifestRoot(sha, a) == ManifestRoot(sha, b)
  {
    a := seq(m, _ => []);
    var up := Merkle.Depth(m) - Merkle.Depth(n);
    var y := CondensedAllSame(sha, a, [], up);
    b := seq(n, _ => y);
    CondensedRoot(sha, a, up);
    OneDepthAccepts(sha, Condensed(sha, a, up), b);
  }

  /** The condition on the length cannot be dropped for any two lengths and any hash: some list of `n`
      shards is accepted against the release of some list of `m`. */
  lemma AnyCountsAccepted(sha: Bytes -> Digest32, m: nat, n: nat) returns (approved: seq<Bytes>, arrived: seq<Bytes>)
    requires m > 0 && n > 0
    ensures |approved| == m && |arrived| == n
    ensures forall record :: Releases(sha, record, approved) ==> Received(sha, Some(record), arrived).Accepted?
  {
    if Merkle.Depth(n) <= Merkle.Depth(m) {
      approved, arrived := DeeperListAccepted(sha, m, n);
    } else {
      arrived, approved := DeeperListAccepted(sha, n, m);
    }
  }

  lemma {:induction false} LatestReleaseIsLogged(releases: seq<Payload>, cert: Cert) returns (i: nat)
    requires LatestRelease(releases, cert).Some?
    ensures i < |releases| && releases[i] == LatestRelease(releases, cert).value
    ensures releases[i].Release? && releases[i].cert == cert
    ensures forall j :: i < j < |releases| ==> !(releases[j].Release? && releases[j].cert == cert)
    decreases |releases|
  {
    i := |releases| - 1;
    if !(releases[i].Release? && releases[i].cert == cert) {
      var before := releases[..i];
      var last := i;
      i := LatestReleaseIsLogged(before, cert);
      forall j | i < j < |releases|
        ensures !(releases[j].Release? && releases[j].cert == cert)
      {
        if j < last { assert releases[j] == before[j]; }
      }
    }
  }

  /** End to end: after any run, whatever the receiver accepts against the latest release record of a
      certificate was released while an approval with the presented seed was that certificate's
      latest event; and if the released root is that of `approved`, the accepted shards are the same
      shards, or a collision of the hash is exhibited. If there are as many, they are `approved`. */
  lemma AcceptedShardsWereApproved(
    ops: seq<Op>, cert: Cert, sha: Bytes -> Digest32, approved: seq<Bytes>, arrived: seq<Bytes>)
    requires LatestRelease(Run(ops).releases, cert).Some?
    requires Releases(sha, LatestRelease(Run(ops).releases, cert).value, approved)
    requires Received(sha, LatestRelease(Run(ops).releases, cert), arrived).Accepted?
    ensures exists i: nat, t: nat :: Justified(ops, Run(ops).releases, i, t) && ops[t].cert == cert
                           && Run(ops).releases[i] == LatestRelease(Run(ops).releases, cert).value
    ensures arrived != []
    ensures || (SameShards(sha, approved, arrived) && (|arrived| == |approved| ==> arrived == approved))
            || var c := ShardCollision(sha, approved, arrived); MessagesCollide(sha, c.0, c.1)
  {
    var i := LatestReleaseIsLogged(Run(ops).releases, cert);
    var t := EveryReleaseJustified(ops, i);
    assert Justified(ops, Run(ops).releases, i, t);
    AcceptsExactlySameShards(sha, LatestRelease(Run(ops).releases, cert).value, approved, arrived);
  }
}
