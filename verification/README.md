# A Dafny model of the inference-verification stack

The repository's stateful and mathematical core, with proofs of what that core is for. Three groups of components are covered.

**The tap's ingestion pipeline.** Captured TCP segments go through the reorder buffer, the
chunked-transfer decoder and the event reassembler; the encoder is their inverse. The three stages
are classes with the same fields and loops as the Rust code. Each stage's `feed` is tied to a
function of everything received so far, and these functions are shown to be independent of how the
stream was cut and in which order its segments arrived. Both decoders account for every byte
received, in every state: the states, results and left-over bytes they reach are characterised by the
grammar of the input, panics included. The whole pipeline is proved to return exactly the events that were sent,
if and only if each of them survives event framing.

**Commitments, logs and releases.** Merkle trees with repetition of the last node of an odd level,
the chain of epoch heads, the signed hash-chained log, the approval registry and the release chain.
Hash functions, signatures and PRFs are parameters. Every binding result has the form "equal, or
here is a break": the break is computed from the two inputs by a named function (`PathCollision`,
`ListCollision`, `Compare`, `Explain`, `ShardCollision`), because the bare existence of some
collision of a compressing function is trivially true.

**Checking algorithms.** Greedy water-filling, rank-sum AUC (both implementations), Freivalds'
check, teacher-forced recomputation of deviations, commit/reveal consistency, canonical tree
reduction, the memory-wipe daemon with its verifier, and the hand-off of evidence records between
threads. Arithmetic is exact. The model's logits are a function of the context window and the
current token, the sampling noise of seed, position and token; random draws, sorting permutations
and argmax are parameters constrained by what numpy and Rust guarantee about them.

## Conditions the proofs made explicit

- The events sent come back from the wire exactly when each is non-empty, is not `[DONE]`, contains
  no blank line and does not end in a line feed. That condition is checkable per event, and events
  that fail it can never be produced by the reassembler at all (`Sse.OnlySurvivorsComeOut`).
- Reordering restores the stream for every arrival order if and only if the sequence numbers stay
  below 2^32 (`Wraparound.RestoredExactlyBelowWrap`). At exactly 2^32 the stream is still delivered,
  but a repeat of the last segment is then held as if ahead of a gap (`Reorder.WrapHoldsRepeats`).
- Water-filling is optimal for what it spends if and only if the budget is not negative or no first
  expansion is free (`WaterFilling.WaterFill`): with a negative budget the loop breaks before taking
  the free steps it ranks first (`WaterFilling.NegativeBudgetMissesFreeStep`). It need not
  be optimal for the budget (`WaterFilling.BudgetOptimumMissed`), but is short by less than one step
  (`WaterFilling.StopsNearBest`). It is optimal for the budget on all cost curves exactly when no
  position has more than two candidates or at most one position has a choice
  (`BudgetOptimality.AlwaysBestExactlyOnSafeShapes`).
- The decoder panics exactly on whole chunks followed by a complete size line that cannot be read
  (`Chunked.PanicsExactlyOnBadLines`), and which lines can be read is characterised exactly
  (`SizeLine.AcceptsExactlySizeLines`).
- The generator's window `seq[-ctx_len:]` and the verifier's `full_seq[max(0, start):end]` agree if
  and only if the context length is positive or nothing precedes the position
  (`Recomputation.WindowsAgree`): in Python, `seq[-0:]` is the whole list.
- A Merkle root alone does not bind the number of leaves. What it binds is stated for any two lengths
  (`Merkle.RootsBindAnyLengths`), and no two lengths are safe whatever the hash
  (`Merkle.AnyLengthsShareRoot`). For the receiver of a release this means: the lists it accepts are
  exactly those that are the same shards up to repeated odd ends and to subtrees given by the message
  hashed at their root, barring collisions (`ReleaseProtocol.AcceptsExactlySameShards`). They are the
  released list itself when the numbers of shards agree, which the code does not compare, although it
  answers "matches the approved release exactly".
- `verify_integrity` looks neither at entry 0 nor at lists of one entry, so the result about logs
  that pass starts at two entries and says nothing about the first entry's signature.

## Where code and comments disagree

The model follows the code.

- wipe_daemon.c calls the two parents of a node distinct; those of node 1 coincide
  (`MemoryWipe.FirstParentsCoincide`).
- reassembly.rs says a chunk size must be ASCII; the code checks for UTF-8, then trims Unicode white
  space and drops everything from the first `;`.
- The decoder takes any two bytes after a chunk's data for its CRLF, and stops at the zero size line,
  so the final CRLF stays in `pending`.

## Model

| member | source | states |
|---|---|---|
| `ByteStrings.FindSubslice` | tap_reader/src/reassembly.rs:182-187 | the result is the first place where the needle occurs, and there is none exactly when the needle is absent |
| `ByteStrings.FindStable` | tap_reader/src/reassembly.rs:178-187 | a first match does not move when more bytes arrive behind it |
| `SizeLine.HexRoundTrip` | tap_reader/src/reassembly.rs:200 | the lower-case hexadecimal print of every number reads back as that number |
| `SizeLine.SizeLineRoundTrip` | tap_reader/src/reassembly.rs:68-75 | every 64-bit size printed by the encoder, with or without a chunk extension that is valid UTF-8, is parsed back exactly |
| `SizeLine.AcceptsExactlySizeLines` | tap_reader/src/reassembly.rs:68-75 | a line is read as size n if and only if it is valid UTF-8 for white space, an optional plus, the hexadecimal digits of n, white space and a tail behind a semicolon, and n fits a 64-bit usize; every other line is a panic |
| `SizeLine.DigitsAre` | tap_reader/src/reassembly.rs:73-75 | exactly the sixteen digits, in either case, are digits, each with its own value |
| `SizeLine.CaseIsIgnored` | tap_reader/src/reassembly.rs:73-75 | upper-case digits read as the same number |
| `SizeLine.DecodesExactlyEncodings` | tap_reader/src/reassembly.rs:69-70 | bytes decode to a text if and only if they are the UTF-8 encoding of that sequence of scalar values |
| `SizeLine.WhiteSpaceIs` | tap_reader/src/reassembly.rs:73 | the 25 characters that are trimmed |
| `Chunked.ChunkedDecoder.constructor` | tap_reader/src/reassembly.rs:45-52 | a new decoder reads a size line, with nothing pending or decoded, and satisfies the invariant |
| `Chunked.ChunkedDecoder.Feed` | tap_reader/src/reassembly.rs:61-114 | keeps the invariant that nothing pending can be used, and leaves state, pending bytes and decoded bytes exactly as the specification function says |
| `Chunked.ChunkedDecoder.Step` | tap_reader/src/reassembly.rs:64-106 | one turn of the loop preserves what can still be made of the input, and either moves the cursor or breaks with nothing more to do |
| `Chunked.ChunkedDecoder.IsDone` | tap_reader/src/reassembly.rs:54-56 | true exactly in state Done |
| `Chunked.RunInTwoParts` | tap_reader/src/reassembly.rs:61-114 | running on a prefix, then on what it left together with the rest, is running on everything, panics included |
| `Chunked.FeedTwice` | tap_reader/src/reassembly.rs:61-114 | feeding a then b leaves the same state, pending and decoded bytes as feeding a ++ b |
| `Chunked.FragmentationInvariance` | tap_reader/src/reassembly.rs:28-36 | any fragmentation of the input leaves exactly what one single feed leaves |
| `Chunked.RunSettles` | tap_reader/src/reassembly.rs:64-106 | the loop stops only where no further progress is possible |
| `Chunked.PendingIsSuffix` | tap_reader/src/reassembly.rs:107-113 | from every state, what stays pending is a suffix of the bytes on hand |
| `Chunked.RunAccounts` | tap_reader/src/reassembly.rs:64-113 | all bytes received are accounted for in every state: whole chunks, the consumed part of one more, and what is pending; the decoded bytes are the data of these |
| `Chunked.AccountDetermines` | tap_reader/src/reassembly.rs:64-113 | such an account fixes state, pending and decoded bytes |
| `Chunked.ReachesExactlyItsAccount` | tap_reader/src/reassembly.rs:61-114 | fed in any fragments, the decoder has this state, pending and decoded bytes if and only if the bytes received have such an account |
| `Chunked.PanicsExactlyOnBadLines` | tap_reader/src/reassembly.rs:68-75 | fed in any fragments, the decoder panics if and only if the bytes are whole chunks followed by a complete size line that cannot be read |
| `Chunked.DecodesChunks` | tap_reader/src/reassembly.rs:66-103 | well-formed chunks in front of any bytes are decoded to their data, and decoding goes on behind them |
| `Chunked.CompleteMessage` | tap_reader/src/reassembly.rs:66-103 | a complete chunked message ends in Done with its body decoded and everything behind the last size line pending |
| `Chunked.OnlyMessagesComplete` | tap_reader/src/reassembly.rs:66-103 | whenever the decoder ends in Done its input was such a message, and the decoded bytes are its body |
| `Chunked.CompletesExactlyOnMessages` | tap_reader/src/reassembly.rs:20-115 | fed in any fragments, the decoder ends in Done with this body and this rest if and only if the bytes are a chunked message with that body followed by that rest |
| `Sse.StripDataPrefix` | tap_reader/src/reassembly.rs:169-176 | removes one `data: ` prefix when there is one and nothing otherwise |
| `Sse.SseReassembler.constructor` | tap_reader/src/reassembly.rs:125-132 | a new reassembler has an empty buffer and is not done |
| `Sse.SseReassembler.Feed` | tap_reader/src/reassembly.rs:138-166 | returned events, done flag and left-over buffer are those of extracting old buffer ++ input, and the left-over buffer contains no blank line |
| `Sse.Step` | tap_reader/src/reassembly.rs:142-156 | one turn of the loop moves on behind one event and keeps what events in hand and rest yield together, or breaks with nothing left to take |
| `Sse.ExtractInTwoParts` | tap_reader/src/reassembly.rs:138-166 | extracting in two parts yields the same events, flag and rest as extracting at once |
| `Sse.FragmentationInvariance` | tap_reader/src/reassembly.rs:117-166 | however the body is cut up, all feeds together return the events of one single feed |
| `Sse.RestHasNoEvent` | tap_reader/src/reassembly.rs:142-146 | what is left in the buffer never contains a complete event |
| `Sse.ExtractAccounts` | tap_reader/src/reassembly.rs:138-166 | the bytes on hand are raw events, each ended by its first blank line, and the left-over buffer; returned events and flag are those of the raw events |
| `Sse.AccountDetermines` | tap_reader/src/reassembly.rs:138-166 | such an account fixes events, flag and left-over buffer |
| `Sse.ReturnsExactlyItsAccount` | tap_reader/src/reassembly.rs:138-166 | fed in any fragments, the reassembler has returned these events with this flag and rest if and only if the bytes received have such an account |
| `Sse.ExtractsRaw` | tap_reader/src/reassembly.rs:143-155 | raw bytes up to their first blank line contribute their stripped payload, nothing, or the done flag, and extraction goes on behind them |
| `Sse.ExtractsEvent` | tap_reader/src/reassembly.rs:143-155 | a framed event that survives framing comes out as one event, unchanged |
| `Sse.OnlySurvivorsComeOut` | tap_reader/src/reassembly.rs:133-156 | for every input, each event ever returned is non-empty, not the sentinel, and free of blank lines inside and across its end |
| `WireEncoding.EncodeChunkedSse` | tap_reader/src/reassembly.rs:192-211 | the bytes built by the loop are the chunks of all framed events, the DONE event and the terminating chunk |
| `WireEncoding.EventOnWire` | tap_reader/src/reassembly.rs:192-203 | the bytes of each event: its framed length in hexadecimal, CR LF, the data prefix, the event, LF LF, CR LF |
| `WireEncoding.EndOnWire` | tap_reader/src/reassembly.rs:204-211 | the bytes of the DONE chunk and of the terminating chunk |
| `WireEncoding.ChunkingRoundTrip` | tap_reader/src/reassembly.rs:189-211 | decoding an encoding yields exactly its body, state Done, and the final CRLF pending |
| `WireEncoding.SurvivorsRoundTrip` | tap_reader/src/reassembly.rs:192-211 | events that survive framing come back in order, with done set and nothing left over |
| `WireEncoding.FramingRoundTrip` | tap_reader/src/reassembly.rs:189-211 | the events sent come back if and only if every one of them survives framing |
| `Reorder.ReorderBuffer.constructor` | tap_reader/src/reorder.rs:28-36 | a new buffer expects the initial number and holds nothing |
| `Reorder.ReorderBuffer.Feed` | tap_reader/src/reorder.rs:41-66 | the whole new state, counters included, is that of the specification step: ignored, dropped, delivered and drained, or held |
| `Reorder.ReorderBuffer.DrainReady` | tap_reader/src/reorder.rs:70-75 | releases held segments until the next expected number is not held |
| `Reorder.ReorderBuffer.GapOpen` | tap_reader/src/reorder.rs:77-79 | true exactly when something is held |
| `Reorder.Confluence` | tap_reader/src/reorder.rs:38-75 | after any arrivals in any order with any repeats: delivered is the longest initial run of received segments, exactly the other received segments are held, and both counters count late and early arrivals |
| `Reorder.OrderIrrelevant` | tap_reader/src/reorder.rs:38-75 | delivered bytes, next number and held segments depend only on which segments have arrived |
| `Reorder.CompleteDelivery` | tap_reader/src/reorder.rs:38-79 | once all segments have arrived, the stream is delivered in full and no gap is open |
| `Reorder.PrefixSafety` | tap_reader/src/reorder.rs:38-75 | for any segments that agree with one stream, overlaps included, delivered is the prefix of it of length next_expected - initial_seq |
| `Reorder.EmptySegmentsIgnored` | tap_reader/src/reorder.rs:42-44 | segments without payload leave no trace, in the counters neither |
| `Reorder.WrapHoldsRepeats` | tap_reader/src/reorder.rs:46-57 | the 2^32 bound is sharp: a stream ending at exactly 2^32 is delivered, but a repeat of its last segment is then held |
| `Wraparound.RestoredExactlyBelowWrap` | tap_reader/src/reorder.rs:41-75 | every arrival order of non-empty segments restores the stream and leaves nothing held if and only if the sequence numbers stay below 2^32 |
| `Wraparound.BadOrderFails` | tap_reader/src/reorder.rs:46-64 | otherwise swapping the two segments at the last wrap, or repeating the last segment, loses bytes or leaves some held |
| `Pipeline.Cut` | tap_reader/src/bin/test_reorder_pipeline.rs:7-8 | the parts concatenate to the data, are not empty, and all but the last have the segment length |
| `Pipeline.ApplyJitter` | tap_reader/src/bin/test_reorder_pipeline.rs:21-32 | the in-place loop swaps exactly the neighbours that the draws select, never chaining a swap |
| `Pipeline.JitterPermutes` | tap_reader/src/bin/test_reorder_pipeline.rs:21-32 | jitter neither loses nor repeats a segment |
| `Pipeline.JitterMovesByOne` | tap_reader/src/bin/test_reorder_pipeline.rs:17-32 | jitter moves every segment by at most one place |
| `Pipeline.JitterSwaps` | tap_reader/src/bin/test_reorder_pipeline.rs:24-31 | a swap drawn at the start or after none exchanges those two segments |
| `Pipeline.NoSwapNoJitter` | tap_reader/src/bin/test_reorder_pipeline.rs:24-31 | without a swap drawn the order stays |
| `Pipeline.Deliver` | tap_reader/src/bin/test_reorder_pipeline.rs:40-47 | feeding only the newly delivered bytes keeps the decoder where feeding all delivered bytes at once would have put it |
| `Pipeline.RunPipeline` | tap_reader/src/bin/test_reorder_pipeline.rs:34-55 | the composed loop computes the events, flag and counters of reorder, then decode, then extract, or the panic |
| `Pipeline.AllDelivered` | tap_reader/src/bin/test_reorder_pipeline.rs:40-51 | if every segment arrives at least once and nothing else does, the encoded stream is delivered in full |
| `Pipeline.EndToEnd` | tap_reader/src/bin/test_reorder_pipeline.rs:34-55 | for all events, all cuts into non-empty segments and all arrival orders with repeats below 2^32: no panic; exactly the sent events come out with done set if and only if each survives framing; and the two counts reported are those of the early and of the late arrivals |
| `Pipeline.ReportedCounts` | tap_reader/src/bin/test_reorder_pipeline.rs:54 | whenever the pipeline answers, whatever the bytes, reordered counts the arrivals ahead of a gap and dropped those behind the delivered part |
| `Pipeline.NoRepeatsNoStale` | tap_reader/src/bin/test_reorder_pipeline.rs:54 | without repeats no arrival is late |
| `Pipeline.InOrderNoneEarly` | tap_reader/src/bin/test_reorder_pipeline.rs:54 | in order no arrival is early |
| `Pipeline.PermutationIsHarmless` | tap_reader/src/bin/test_reorder_pipeline.rs:34-55 | any permutation of the segments of any length yields the sent events, with nothing dropped |
| `Pipeline.JitterIsHarmless` | tap_reader/src/bin/test_reorder_pipeline.rs:7-55 | the test's own composition of segmenting, jitter and pipeline returns the sent events for every outcome of the random draws, with nothing dropped |
| `Digests.EpochHashes` | tap_reader/src/commitment.rs:23-28 | h hashes the first digest and then the second |
| `Digests.EpochCollision` | tap_reader/src/commitment.rs:23-28 | a collision of the two-argument h is a collision of the hash on two different concatenations, first digest first |
| `Digests.ManifestHashes` | weight_transport.py:34-35 | the same order for 32-byte digests |
| `Digests.ManifestCollision` | weight_transport.py:34-35 | the same for the 32-byte digests of the manifest tree |
| `Merkle.NextLevel` | tap_reader/src/commitment.rs:45-52 | the loop pairs neighbours and repeats the last node of an odd level |
| `Merkle.LevelUpPairs` | weight_transport.py:50-57 | node k of a level is h of nodes 2k and 2k + 1 below it, in that order, or of node 2k twice at an odd end |
| `Merkle.LevelsAreTree` | weight_transport.py:47-59 | the levels lead from the leaves to the root by that rule |
| `Merkle.EpochNode` | tap_reader/src/commitment.rs:44-56 | each node of an epoch tree is the hash of the left digest followed by the right one |
| `Merkle.ManifestNode` | weight_transport.py:50-57 | the same for manifest trees |
| `Merkle.EpochTree.constructor` | tap_reader/src/commitment.rs:40-58 | leaves, stored levels and root are those of the level-by-level construction |
| `Merkle.EpochTree.Proof` | tap_reader/src/commitment.rs:62-75 | the collected siblings are the authentication path of the leaf list; also odd list lengths and the index one behind the end |
| `Merkle.VerifyInclusion` | tap_reader/src/commitment.rs:81-89 | accepts exactly if climbing from the leaf along the path ends at the root |
| `Merkle.Completeness` | tap_reader/src/commitment.rs:60-89 | every leaf's own path climbs to the root, for every non-empty list |
| `Merkle.AuthPathAt` | weight_transport.py:61-67 | at each level the path holds the neighbour of node i / 2^l, or that node itself when it is the last of an odd level |
| `Merkle.HalvedIsQuotient` | weight_transport.py:66 | the index halved l times is i / 2^l |
| `Merkle.DepthIsCeilLog2` | tap_reader/src/commitment.rs:44-55 | that number is the logarithm of the number of leaves, rounded up |
| `Merkle.Binding` | tap_reader/src/commitment.rs:78-89 | a path of the right length that accepts a different leaf yields a collision of h, computed from it |
| `Merkle.InclusionIsExact` | weight_transport.py:61-75 | at an index in range the true leaf is accepted, and any other accepted leaf yields a collision |
| `Merkle.RootsBindExpansions` | tap_reader/src/commitment.rs:40-58 | for lists of one depth: equal up to repetition gives equal roots, and equal roots with a difference anywhere give a collision |
| `Merkle.RootBindsLeaves` | weight_transport.py:45-59 | two different lists of one length with one root yield a collision at their first difference |
| `Merkle.OddListsRepeat` | tap_reader/src/commitment.rs:30-32 | repeating the last leaf of an odd list does not change the root |
| `Merkle.RootsBindAnyLengths` | weight_transport.py:45-59 | lists of any two lengths have one root if their expansions agree once the deeper one is raised to the depth of the other, and one root with any difference there yields a collision |
| `Merkle.SameLengthSameExpansion` | weight_transport.py:45-59 | for lists of one length the expansions agree if and only if the lists are equal |
| `Merkle.AnyLengthsShareRoot` | weight_transport.py:45-59 | whatever the hash, lists of any two positive lengths can have one root |
| `EpochChains.EpochChain.constructor` | tap_reader/src/commitment.rs:100-102 | a new chain has a zero head and no entries |
| `EpochChains.EpochChain.Commit` | tap_reader/src/commitment.rs:104-108 | appends number, root and new head, and keeps the chain consistent |
| `EpochChains.EpochChain.Verify` | tap_reader/src/commitment.rs:113-122 | true exactly if all stored heads and the current head are the recomputed ones |
| `EpochChains.HeadBinds` | tap_reader/src/commitment.rs:104-123 | chains of any lengths with one head have the same roots, or a collision of h, or a pair that hashes to the zero head (only for different lengths) |
| `EpochChains.ChainBinds` | tap_reader/src/commitment.rs:110-123 | the same for stored entries that verify: equal roots and equal stored heads, or a break |
| `EpochChains.TamperedRootIsNoticed` | tap_reader/src/commitment.rs:110-123 | replacing one stored root is accepted only at the price of a collision of h |
| `TamperLogs.TamperEvidentLog.constructor` | tamper_log.py:50-56 | a new log holds exactly the genesis entry: index 0, a previous hash of zeros, signed |
| `TamperLogs.TamperEvidentLog.Append` | tamper_log.py:58-63 | adds one entry at the end, with that payload, the length of the log as its index, the hash of the last entry and a signature on its own hash |
| `TamperLogs.TamperEvidentLog.VerifyIntegrity` | tamper_log.py:65-73 | verified exactly if every entry but the first carries the hash of the one before and a valid signature; otherwise names the first failure, link before signature |
| `TamperLogs.LinkExplained` | tamper_log.py:67-70 | the entry linked in front of an entry of the log has the hash of the entry in front of that one, or of zeros at the start |
| `TamperLogs.ChainedLogsAreAuthentic` | tamper_log.py:65-73 | the links and one valid signature, that of the last entry, are all that the next result needs |
| `TamperLogs.PassingLogsAreAuthentic` | tamper_log.py:65-73 | for any number of logs written under one key: every list of at least two entries that passes is a contiguous run of one of them, or a collision, a hash of zeros or a signature on a hash that none of them signed is exhibited |
| `TamperLogs.GenesisMeansPrefix` | tamper_log.py:54-73 | if such a list starts with the genesis content, the run is a prefix of that log |
| `TamperLogs.RunsOfTheLogPass` | tamper_log.py:65-73 | conversely every run of the signer's log passes, whatever the first signature |
| `TamperLogs.AuthenticLogsPass` | tamper_log.py:58-73 | every log built by append passes |
| `ReleaseProtocol.ApprovalRegistry.constructor` | workload_approval.py:125-126 | a new registry has no events |
| `ReleaseProtocol.ApprovalRegistry.Approve` | workload_approval.py:128-142 | appends exactly one approval carrying the issued seed, and returns that seed |
| `ReleaseProtocol.ApprovalRegistry.Revoke` | workload_approval.py:144-145 | appends exactly one revocation |
| `ReleaseProtocol.ApprovalRegistry.Check` | workload_approval.py:147-165 | over the events: never approved iff none is about the certificate; revoked iff the last one about it is a revocation; seed mismatch iff it is an approval with another seed; approved iff it is one with this seed |
| `ReleaseProtocol.JudgementIsAnswer` | workload_approval.py:147-165 | the same for the specification of the check |
| `ReleaseProtocol.LatestIsLast` | workload_approval.py:147-160 | the event used exists exactly if the certificate was ever mentioned, and no later event mentions it |
| `ReleaseProtocol.ReleaseChain.constructor` | weight_transport.py:94-96 | a new chain has no releases and leaves the registry alone |
| `ReleaseProtocol.ReleaseChain.Release` | weight_transport.py:98-109 | answers like the registry, appends that one release exactly if approved, and changes nothing else |
| `ReleaseProtocol.ReleaseChain.LatestReleaseFor` | weight_transport.py:111-116 | returns the last release for the certificate, and none exactly if there is none |
| `ReleaseProtocol.LatestReleaseIsLogged` | weight_transport.py:111-116 | that record stands in the log and no later record is for the same certificate |
| `ReleaseProtocol.EveryReleaseJustified` | weight_transport.py:98-109 | in every run of approvals, revocations and releases, each entry was appended when the certificate's latest registry event was an approval with the presented seed |
| `ReleaseProtocol.RunRecords` | weight_transport.py:98-109 | in every run, each approval and revocation is recorded as it stands, and an attempted release exactly if the last event about its certificate approves the presented seed |
| `ReleaseProtocol.ReceiveAndCheck` | weight_transport.py:119-128 | accepts exactly if there is a record and the recomputed manifest root equals its root; an empty shard list is the assertion failure |
| `ReleaseProtocol.SmallManifests` | weight_transport.py:78-84 | the manifest root of one shard is its hash, that of two the hash of their two hashes in order |
| `ReleaseProtocol.ManifestIsTree` | weight_transport.py:45-59 | the manifest root of any list, level by level: the shards' hashes in order, then hashes of left and right digests up to the root |
| `ReleaseProtocol.RootBindsShards` | weight_transport.py:78-84 | for shard lists of any two lengths: the same shards, up to repeated odd ends and to subtrees given by the message hashed at their root, have one manifest root; one root over any other shards yields two different messages with one hash |
| `ReleaseProtocol.SameCountSameShards` | weight_transport.py:78-84 | for lists of one length, the same shards means equal lists |
| `ReleaseProtocol.AcceptsExactlySameShards` | weight_transport.py:119-128 | the receiver accepts every list that is the same shards as the released one, and any other list it accepts yields a collision; only for as many shards does that mean the released list |
| `ReleaseProtocol.RepeatedShardAccepted` | weight_transport.py:119-128 | "matches exactly" fails: an odd released list with its last shard repeated is accepted |
| `ReleaseProtocol.CondensedShardsAccepted` | weight_transport.py:119-128 | it also fails for fewer shards: the messages hashed at an upper level are accepted in place of the shards |
| `ReleaseProtocol.AnyCountsAccepted` | weight_transport.py:119-128 | for any hash and any two positive numbers of shards, some list of the one length is accepted against the release of some list of the other |
| `ReleaseProtocol.AcceptedShardsWereApproved` | weight_transport.py:94-128 | whatever list, of any length, the receiver accepts against the latest release of a run is the same shards as the released ones (and the released list itself if it is as long), or a collision is exhibited; and that release was justified when it was made |
| `WaterFilling.CurvesAreCostCurves` | stego_capacity.py:23-30 | every cost curve starts at zero and never decreases |
| `WaterFilling.CostsAreDistances` | stego_capacity.py:23-30 | entry k of a curve is the distance from the highest score to the score of rank k |
| `WaterFilling.MarginalCost` | stego_capacity.py:78-80 | the difference of scaled prefix means is the cost of the next token |
| `WaterFilling.FindBest` | stego_capacity.py:67-91 | finds the first open position with the least ratio, or none exactly if all are maxed out |
| `WaterFilling.WaterFill` | stego_capacity.py:55-107 | the result is that of taking the best step as long as it fits; returned cost and bits are those of the allocation; cost is within n * tau unless nothing was taken; on cost curves the allocation is optimal for its cost if and only if the budget is not negative or no first step is free, and against the budget it is short by less than the step that did not fit |
| `WaterFilling.TakesBest` | stego_capacity.py:66-105 | taking the step of least ratio keeps every taken step worth its cost, and no other, at a price that never falls |
| `WaterFilling.MostProfitableOverall` | stego_capacity.py:55-59 | at that price no allocation has more bits, net of cost |
| `WaterFilling.StopsOptimally` | stego_capacity.py:90-101 | the exact condition for optimality wherever the loop may stop |
| `WaterFilling.FreeStepImproves` | stego_capacity.py:82-83 | an allocation with a free step left is never optimal |
| `WaterFilling.StopsNearBest` | stego_capacity.py:90-101 | no allocation within the budget gains more than the unspent rest buys at the price of the step that did not fit, which is less than that step; none gains anything when all positions are maxed out |
| `WaterFilling.GreedyTakes` | stego_capacity.py:66-105 | a best step that fits is taken, and greedy goes on from there |
| `WaterFilling.GreedyStops` | stego_capacity.py:90-101 | greedy stops where every position is maxed out or the best step does not fit |
| `WaterFilling.NegativeBudgetMissesFreeStep` | stego_capacity.py:61-101 | on the curve [0, 0] with tau = -1 greedy leaves a free bit behind |
| `WaterFilling.BudgetOptimumMissed` | stego_capacity.py:56-59 | greedy can miss the best allocation within the budget: its best step does not fit although a smaller one does |
| `BudgetOptimality.AlwaysBestExactlyOnSafeShapes` | stego_capacity.py:55-59 | greedy is best within the budget for all cost curves and every tau if and only if no position has more than two candidates or at most one has a choice |
| `BudgetOptimality.SafeShapesAreBest` | stego_capacity.py:55-107 | on such numbers of candidates no allocation within the budget carries more bits |
| `BudgetOptimality.UnsafeShapesMiss` | stego_capacity.py:66-101 | on all others there are cost curves and a tau on which one does, with no tie deciding |
| `BudgetOptimality.GreedyEnds` | stego_capacity.py:66-105 | wherever greedy starts, it ends exhausted and less than one step short of the budget optimum |
| `RankAuc.Auc` | calibration.py:18-43 | sorting, block averaging and the rank-sum formula give the share of pairs won, ties counting half, and 0.5 for an empty side |
| `RankAuc.AverageTies` | calibration.py:28-38 | afterwards each score has its mid-rank among all scores |
| `RankAuc.AverageBlock` | calibration.py:35-37 | overwrites exactly one tied block by its mean rank |
| `RankAuc.AucInPlace` | tap_reader/src/bin/sim_gateway_sampling.rs:27-58 | sorts its argument in place and returns the share of pairs won in the original data |
| `RankAuc.RanksOfSorted` | tap_reader/src/bin/sim_gateway_sampling.rs:31-45 | fills in the mid-rank of every score |
| `RankAuc.BlockRank` | tap_reader/src/bin/sim_gateway_sampling.rs:39-43 | the mid-rank of a tied block [i, j] is ((i + 1) + (j + 1)) / 2 |
| `RankAuc.RankSumFormula` | calibration.py:42-43 | rank sum minus n(n + 1)/2 is the number of pairs won, ties counting half |
| `RankAuc.PermutedMultiset` | calibration.py:25-29 | reading an array through a permutation of its indices permutes its elements |
| `RankAuc.AucIgnoresOrder` | calibration.py:18-43 | the statistic does not depend on the order of either list |
| `RankAuc.AucIsShare` | calibration.py:18-22 | it lies in [0, 1], and swapping the sides complements it to 1 |
| `RankAuc.WinsAreCounts` | calibration.py:18-22 | the wins of a score are the number of scores below it and half the number of its equals |
| `RankAuc.AucTimesPairs` | calibration.py:39-43 | the statistic times the number of pairs is the sum of the wins; 0.5 for an empty side |
| `RankAuc.ImplementationsAgree` | tap_reader/src/bin/sim_gateway_sampling.rs:27-58 | on the same labelled scores in any order the Rust statistic equals the Python statistic |
| `Freivalds.FreivaldsCheck` | freivalds_check.py:35-48 | accepts exactly if every drawn vector passes |
| `Freivalds.EntryIsSum` | freivalds_check.py:36-38 | entry (i, j) of the product is the sum of a[i][k] b[k][j] over k |
| `Freivalds.PassesIfErrorsCancel` | freivalds_check.py:43-47 | a draw passes if and only if in every row the errors in the drawn columns sum to zero |
| `Freivalds.ProductAssociates` | freivalds_check.py:44-45 | A (B v) is (A B) v, for all conforming matrices |
| `Freivalds.CorrectProductPasses` | freivalds_check.py:35-48 | a correct product passes every draw |
| `Freivalds.NeighbourFails` | freivalds_check.py:38-40 | if a wrong entry exists and a draw passes, flipping that column's bit makes it fail |
| `Freivalds.HalfCatchIt` | freivalds_check.py:38-40 | at most 2^(n-1) of the 2^n draws let a wrong product pass one trial |
| `Freivalds.DetectionBound` | freivalds_check.py:35-48 | at most (2^(n-1))^k of the (2^n)^k sequences of k draws let a wrong product pass |
| `Freivalds.NeverRejectsCorrect` | freivalds_check.py:35-48 | for a correct product all sequences of draws pass |
| `Freivalds.TuplesCount` | freivalds_check.py:42-43 | there are size^k sequences of k draws, so the bounds above are probabilities |
| `Recomputation.SampleToken` | sampling.py:26-29 | the sampled token is the first one with the highest score |
| `Recomputation.ProverGenerate` | server.py:98-110 | the loop over growing sequences produces the autoregressive output |
| `Recomputation.NextTokenIsTop` | sampling.py:26-29 | what the generator samples is the first maximum of the scores the verifier recomputes |
| `Recomputation.Verify` | difr.py:39-102 | fails exactly if a claimed token is outside the vocabulary; otherwise every record has its position, token, a top token and a rank consistent with the scores of the left-padded window, below rank 10 the distance to the highest score clipped at 8, and else 8; the average times the number of tokens is the sum; fewer than 5 tokens are low confidence |
| `Recomputation.JudgeAll` | difr.py:61-102 | the same for the loop over prepared windows |
| `Recomputation.RecordsAre` | difr.py:62-92 | each record in numbers, for whatever the scores of its position are |
| `Recomputation.TotalsAre` | difr.py:94-102 | the totals in numbers |
| `Recomputation.ScoresAre` | difr.py:50-66 | the scores are the logits behind the left-padded window over the temperature plus the noise of that position |
| `Recomputation.SumGrows` | difr.py:94 | the sum grows by each deviation |
| `Recomputation.GeneratedAreFirstTops` | server.py:103-108 | each generated token is the first with the highest of these scores |
| `Recomputation.DeviationMeaning` | difr.py:65-80 | deviations lie in [0, 8], are flagged clipped exactly at 8, and are 0 exactly if the token has the top score and ranks in the top K |
| `Recomputation.OnlyNearbyReportsChange` | difr.py:49-56 | replacing a claimed token leaves the reports before it and beyond the context length behind it unchanged |
| `Recomputation.BoundedInfluence` | difr.py:49-94 | replacing one claimed token moves the average by at most 8 * min(context_len + 1, n - j) / n |
| `Recomputation.WindowsAgree` | difr.py:50-55 | generator and verifier build the same window if and only if the context length is positive or nothing precedes |
| `Recomputation.RankBelowTies` | difr.py:67-68 | a top-scoring token ranks below the number of top-scoring tokens, however the sort breaks ties |
| `Recomputation.HonestScoresZero` | difr.py:65-80 | generated tokens have deviation 0 wherever at most TOP_K tokens tie at the top |
| `Recomputation.HonestAverageZero` | difr.py:94 | hence the average of an honest output is 0, for every prompt, seed, temperature and length |
| `Recomputation.ZeroExactlyIfHonest` | difr.py:30-102 | without ties, the average is 0 if and only if the claimed output is the honest one |
| `CommitReveal.CommittedGenerateHonest` | commitment_scheme.py:66-87 | output equals plain generation, and the commitments are those to each position's logits |
| `CommitReveal.CheckCommitRevealConsistency` | commitment_scheme.py:131-154 | the answer, or an error exactly for no tokens or an opened token outside the vocabulary; all-valid and the fraction are the conjunction and the share over the zipped positions |
| `CommitReveal.CheckPositions` | commitment_scheme.py:136-153 | the loop finds an index error if there is one, and else the conjunction and the count; invalid openings are skipped |
| `CommitReveal.CheckPosition` | commitment_scheme.py:139-153 | one position: valid, failing or consistent |
| `CommitReveal.CommitsHighest` | commitment_scheme.py:51-58 | the commitment is to min(k, vocabulary) distinct tokens with their logits, none left out being higher, hashed with the nonce behind |
| `CommitReveal.PredictsFirstTop` | commitment_scheme.py:146-151 | the predicted token is the first with the highest of the opened logits, -10^9 for all others, over the temperature plus the noise of the position |
| `CommitReveal.FailsOnForeignToken` | commitment_scheme.py:147-148 | an index error exactly for a token outside the vocabulary |
| `CommitReveal.FractionIsShare` | commitment_scheme.py:152-154 | the fraction times the number of claimed tokens is the number of positions validly opened and predicted |
| `CommitReveal.OpeningBinds` | commitment_scheme.py:61-63 | two valid openings of one commitment serialise the same logits or exhibit a collision |
| `CommitReveal.MaskingKeepsWinner` | commitment_scheme.py:142-151 | where masked tokens never win, the masked argmax is the true one if and only if the true one is committed |
| `CommitReveal.ClearOfTheMask` | commitment_scheme.py:146-150 | a bound on the noise and one committed logit clear of the mask suffice for masked tokens never to win |
| `CommitReveal.PredictsExactlyCommitted` | commitment_scheme.py:136-153 | an honest opening is valid, predicts some token without error, and predicts the sampled one if and only if that is committed |
| `CommitReveal.HonestRunIsConsistent` | commitment_scheme.py:131-154 | where masked tokens never win, the check answers an honest run without error, with all openings valid and with exactly the share of positions whose token is committed |
| `CommitReveal.BoundedNoiseIsConsistent` | commitment_scheme.py:142-154 | the same from a positive temperature, a bound on the noise, and one logit per position clear of the mask |
| `CommitReveal.CountGrowsWithK` | commitment_scheme.py:51-58 | the number of committed tokens never falls as k grows, and is everything once k reaches the vocabulary size |
| `CommitReveal.MaskHoldsMore` | commitment_scheme.py:142-148 | if masked tokens never win for k, they never win for any larger number |
| `CommitReveal.ReportedFractionGrows` | commitment_scheme.py:131-154 | the fraction the check reports for an honest run never falls as k grows, and is 1 once k reaches the vocabulary size |
| `CommitReveal.FullCommitmentIsConsistent` | commitment_scheme.py:66-154 | with k at least the vocabulary size, the check reports all openings valid and the fraction 1, unconditionally |
| `Reduction.FixedTreeSum` | reduction_order.py:47-61 | padding and the pairing loop compute the canonical balanced tree |
| `Reduction.ReducePairs` | reduction_order.py:59-61 | repeatedly adding neighbours is evaluating the recursive balanced tree |
| `Reduction.TreeOfPairs` | reduction_order.py:59-60 | one round of pairing does not change the tree's value |
| `Reduction.Groupings` | reduction_order.py:36-61 | how the three orders group three addends, for any operation |
| `Reduction.PaddingIndependent` | reduction_order.py:48-57 | for any operation with x + 0 = x, associative or not, every power-of-two padding gives the same value |
| `Reduction.ChunkedPairwiseSum` | reduction_order.py:21-44 | the chunked loops compute the total of chunk totals; a zero step raises and a negative one sums nothing |
| `Reduction.TotalsOfChunks` | reduction_order.py:29-39 | the list of totals is that of consecutive chunks, the last one possibly shorter |
| `Reduction.TreeIsFold` | reduction_order.py:47-61 | for an associative operation with unit the tree is the plain sum |
| `Reduction.ChunksAreFold` | reduction_order.py:21-44 | so is the chunked sum, for every chunk size |
| `Reduction.ExactReductionsAgree` | reduction_order.py:21-61 | in exact arithmetic both reductions and the plain sum agree |
| `Reduction.RealAdditionIsExact` | reduction_order.py:48-52 | exact addition of reals is associative with unit 0 |
| `Reduction.RealReductionsAgree` | reduction_order.py:21-61 | so both reductions of real numbers give the plain sum |
| `MemoryWipe.SecondParent` | wipe_daemon.c:75-84 | the second parent of a positive index is smaller than it |
| `MemoryWipe.SecondParentMasked` | verifier.py:31-38 | the same for the masked version |
| `MemoryWipe.FirstParentsCoincide` | wipe_daemon.c:72-76 | the two parents of node 1 are the same node |
| `MemoryWipe.MaskIsModulo` | verifier.py:34-36 | masking with k ones is reduction modulo 2^k |
| `MemoryWipe.SecondParentsAgree` | verifier.py:31-38 | the wrapping C version and the masked Python version agree on every index |
| `MemoryWipe.SecondParentMixes` | wipe_daemon.c:75-84 | the function in numbers: any values related by the three products modulo 2^64, the three exclusive ors with shifts and the remainder give the second parent |
| `MemoryWipe.XorBits` | wipe_daemon.c:80-82 | exclusive or, digit by digit |
| `MemoryWipe.ReadsBack` | wipe_daemon.c:106-107 | the little-endian bytes of an index read back to it |
| `MemoryWipe.MessageIs` | wipe_daemon.c:151-154 | for every 64-bit index there is exactly one message that holds it in front of given bytes |
| `MemoryWipe.LabelPass` | wipe_daemon.c:105-121 | whatever memory held, afterwards every stored label is the PRF of the message with the block index and four bytes of each parent block (or zeros), hence the label of its node in the graph; nothing but labels has changed |
| `MemoryWipe.LabelsAreDerived` | wipe_daemon.c:105-121 | the same for any region that holds the labels of the graph |
| `MemoryWipe.NextLabel` | wipe_daemon.c:106-118 | the label is the PRF of the message with the index and four bytes of each parent, and the label that the graph alone determines |
| `MemoryWipe.VerifiedExactlyIfLabelled` | verifier.py:69-80 | all nodes pass their recheck on the final region if and only if all stored labels are the graph's |
| `MemoryWipe.VerifierAcceptsExactlyDaemonLabels` | verifier.py:41-55 | the verifier's own graph accepts exactly the daemon's labelling |
| `MemoryWipe.TamperedLabelFails` | verifier.py:82-87 | changing a block's label makes its own recheck fail |
| `MemoryWipe.DepthIsBlockCount` | wipe_daemon.c:138-141 | the longest dependency chain ending at node i has i + 1 nodes |
| `MemoryWipe.OverwritePass` | wipe_daemon.c:147-157 | afterwards unit c of 16 bytes is the PRF of the message that reads c and then zeros, whatever memory held |
| `MemoryWipe.MessagesDiffer` | wipe_daemon.c:151-154 | messages for different counters are different |
| `MemoryWipe.Wipe` | wipe_daemon.c:86-158 | after both passes the region is a function of its size and the PRF alone: unit c is the PRF of counter c |
| `MemoryWipe.VerifyRegion` | verifier.py:58-98 | every spot check passes and the tamper test detects the corruption, for all samples and victims |
| `MemoryWipe.TamperTest` | verifier.py:82-89 | the flip is detected, and the region is restored |
| `EvidenceHandOff.StepKeepsInv` | tap_reader/src/bin/bench_ring.rs:31-101 | every step of any thread keeps the invariant on records, counters, stop flag and thread states |
| `EvidenceHandOff.ReachableInv` | tap_reader/src/bin/bench_ring.rs:31-101 | the invariant holds in every state of every interleaving |
| `EvidenceHandOff.NothingLostOrReordered` | tap_reader/src/bin/bench_ring.rs:36-49 | pushed = popped + queued, the queue stays within its capacity, and each producer's records appear once each and in order |
| `EvidenceHandOff.ExitsOnlyWhenDone` | tap_reader/src/bin/bench_ring.rs:81-101 | when the consumer has exited the queue is empty and all n * per_producer records were popped and counted |
| `EvidenceHandOff.HelpfulStep` | tap_reader/src/bin/bench_ring.rs:31-101 | in every state satisfying the invariant, short of the end, some enabled step brings the end closer |
| `EvidenceHandOff.CanFinish` | tap_reader/src/bin/bench_ring.rs:92-101 | the end can be reached from every such state |
| `EvidenceHandOff.NeverStuck` | tap_reader/src/bin/bench_ring.rs:92-118 | from every reachable state the run can end with produced = consumed = expected and all records popped in order |
| `EvidenceHandOff.ScheduleDecides` | tap_reader/src/bin/bench_ring.rs:31-101 | every enabled step is the one its thread takes at its turn, so schedules cover all interleavings |
| `EvidenceHandOff.WorkGetsLess` | tap_reader/src/bin/bench_ring.rs:31-101 | short of the end, under a fair schedule, spinning cannot last: some later state has less left to do |
| `EvidenceHandOff.FairRunsFinish` | tap_reader/src/bin/bench_ring.rs:31-119 | every run in which each thread gets a turn again and again ends, with produced = consumed = expected and all records popped in order |

## Left out

- SipHash, BLAKE3, SHA-256, AES and Ed25519 themselves: parameters of the model.
- Floating-point rounding, NaN, `np.allclose` tolerances and the width of stored logits: arithmetic is exact, and equality of vectors is equality.
- Temperature 0, which divides by zero: excluded; every other temperature, negative ones included, is covered except where a statement asks for a positive one.
- `Digests.EpochCollision`: the hash is any function of bytes, so the SipHash key does not appear.
- `TamperLogs.PassingLogsAreAuthentic`: says nothing about the signatures themselves being the signer's bytes, only about contents, because a signature scheme may have several valid signatures.
- `TamperLogs.TamperEvidentLog.Append`: entries are values, so an alias of an entry that is changed later through another reference is not modelled, nor is the JSON text, which the content stands for.
- `Merkle.EpochTree.Proof`: indices for which the source panics are excluded by the precondition, and Python's negative indices are not modelled.
- `EpochChains.ChainBinds`: epoch numbers are not hashed by the source and so are outside the claim.
- `Wraparound.RestoredExactlyBelowWrap`: segments of 2^32 bytes or more, which no packet can carry, are excluded.
- `Reorder.PrefixSafety`: overlapping re-segmented retransmissions are shown to be safe, not complete; the source drops or holds such data.
- `Reorder.ReorderBuffer.Feed`: the two 32-bit counters are unbounded.
- `SizeLine.ParseSizeLine`: `usize` is taken to be 64 bits wide.
- `CommitReveal.HonestRunIsConsistent`: assumes that masked tokens never win; `CommitReveal.BoundedNoiseIsConsistent` derives that from a bound on the noise and `CommitReveal.FullCommitmentIsConsistent` needs no assumption.
- `Recomputation.Verify`: prompt tokens are assumed to lie in the vocabulary, since they come from `encode`.
- `Freivalds.FreivaldsCheck`: matrices of shapes that do not conform raise in numpy and are excluded.
- `EvidenceHandOff.NeverStuck`: assumes a queue that can hold at least one record, as the source's does.
- `EvidenceHandOff.FairRunsFinish`: assumes that every thread gets a turn again and again; the operating system's scheduler is not modelled.
- The consumer's `last_seen` and `reordered` bookkeeping in bench_ring.rs: a diagnostic that influences nothing.
- `ArrayQueue` internals and weak memory ordering: the queue is an atomic bounded FIFO and the counters are atomic.
- Frame header parsing, gateway thresholds and policy lists: single formulas and set operations.
- The covert-channel generator, cost-curve gathering, training, LoRA, red-team statistics, web service, database and benchmarks: measurements and plumbing around the modelled functions.
