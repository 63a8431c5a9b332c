/** Reordering, chunked decoding and event extraction put together, as
    tap_reader/src/bin/test_reorder_pipeline.rs runs them, and the end-to-end round trip. */
module Pipeline {
  import opened ByteStrings
  import opened Reorder
  import Chunked
  import Sse
  import WireEncoding

  datatype Report = Report(collected: seq<Bytes>, done: bool, reordered: nat, dropped: nat)

  /** What the pipeline makes of the captured segments; None when the decoder panics. */
  function Outcome(arrivals: seq<Segment>, start: nat): Option<Report> {
    var w := FedAll(New(start), arrivals);
    var p := Chunked.Fed(Chunked.START, w.delivered);
    if p.state.Failed? then None
    else
      var e := Sse.Extract(p.decoded);
      Some(Report(e.events, e.done, w.reordered, w.dropped))
  }

  /** `delivered` only grows at its end. */
  lemma {:induction false} DrainAppends(w: Window)
    ensures w.delivered <= Drain(w).delivered
    decreases |w.pending|
  {
    if w.next in w.pending {
      Shrinks(w.pending, w.next);
      DrainAppends(w.(next := Advance(w.next, w.pending[w.next]), pending := w.pending - {w.next},
                      delivered := w.delivered + w.pending[w.next]));
    }
  }

  lemma FeedAppends(w: Window, s: Segment)
    ensures w.delivered <= Fed(w, s).delivered
  {
    if s.payload != [] && s.number == w.next {
      DrainAppends(w.(next := Advance(w.next, s.payload), delivered := w.delivered + s.payload));
    }
  }

  method Deliver(reorder: ReorderBuffer, chunked: Chunked.ChunkedDecoder, s: Segment)
    requires chunked.Valid() && chunked.View() == Chunked.Fed(Chunked.START, reorder.delivered)
    modifies reorder, chunked
    ensures reorder.View() == Fed(old(reorder.View()), s)
    ensures chunked.Valid() && chunked.View() == Chunked.Fed(Chunked.START, reorder.delivered)
  {
    var before := |reorder.delivered|;
    ghost var had := reorder.delivered;
    FeedAppends(reorder.View(), s);
    reorder.Feed(s);
    FeedsNewBytes(Chunked.START, had, reorder.delivered);
    if |reorder.delivered| > before {
      var newBytes := reorder.delivered[before..];
      chunked.Feed(newBytes);
    }
  }

  lemma FeedsNewBytes(p: Chunked.Progress, had: Bytes, now: Bytes)
    requires Chunked.ValidState(p.state) && had <= now
    ensures Chunked.Fed(Chunked.Fed(p, had), now[|had|..]) == Chunked.Fed(p, now)
    ensures |now| == |had| ==> now == had
  {
    assert had + now[|had|..] == now;
    Chunked.FeedTwice(p, had, now[|had|..]);
  }

  lemma NothingFedYet()
    ensures Chunked.Fed(Chunked.START, []) == Chunked.START
  {
  }

  lemma FeedsOneMore(w: Window, segs: seq<Segment>, i: nat)
    requires i < |segs|
    ensures FedAll(w, segs[..i + 1]) == Fed(FedAll(w, segs[..i]), segs[i])
  {
    assert segs[..i + 1][..i] == segs[..i];
  }

  lemma FirstExtraction(body: Bytes)
    ensures Sse.Then(Sse.Extraction([], false, []), Sse.Extract([] + body)) == Sse.Extract(body)
  {
    assert [] + body == body;
    assert [] + Sse.Extract(body).events == Sse.Extract(body).events;
  }

  method RunPipeline(segs: seq<Segment>, start: nat) returns (report: Option<Report>)
    ensures report == Outcome(segs, start)
  {
    var reorder := new ReorderBuffer(start);
    var chunked := new Chunked.ChunkedDecoder();
    var sse := new Sse.SseReassembler();
    NothingFedYet();
    for i := 0 to |segs|
      invariant chunked.Valid() && sse.Valid() && sse.buf == [] && !sse.done
      invariant reorder.View() == FedAll(New(start), segs[..i])
      invariant chunked.View() == Chunked.Fed(Chunked.START, reorder.delivered)
    {
      FeedsOneMore(New(start), segs, i);
      Deliver(reorder, chunked, segs[i]);
    }
    assert segs[..|segs|] == segs;
    if chunked.state.Failed? { return None; }
    var collected := sse.Feed(chunked.decoded);
    FirstExtraction(chunked.decoded);
    report := Some(Report(collected, sse.done, reorder.reorderedCount, reorder.duplicatesDropped));
  }

  // ----- Cutting the stream

  /** `data.chunks(segLen)`. */
  function Cut(data: Bytes, segLen: nat): (parts: seq<Bytes>)
    requires segLen > 0
    ensures Flatten(parts) == data
    ensures forall part :: part in parts ==> 0 < |part| <= segLen
    ensures forall i :: 0 <= i < |parts| - 1 ==> |parts[i]| == segLen
    decreases |data|
  {
    if data == [] then []
    else
      var k := if |data| <= segLen then |data| else segLen;
      [data[..k]] + Cut(data[k..], segLen)
  }

  /** `segment`: the parts with their sequence numbers. */
  function Segmented(data: Bytes, segLen: nat, start: nat): seq<Segment>
    requires segLen > 0
  {
    Segments(Cut(data, segLen), start)
  }

  /** Occasional swaps of neighbours from position `i` on; `swap` stands for the random draws. */
  function Jittered(segs: seq<Segment>, swap: nat -> bool, i: nat): seq<Segment>
    decreases |segs| - i
  {
    if i + 1 >= |segs| then segs
    else if swap(i) then Jittered(Swapped(segs, i), swap, i + 2)
    else Jittered(segs, swap, i + 1)
  }

  function Swapped<T>(s: seq<T>, i: nat): (t: seq<T>)
    requires i + 1 < |s|
    ensures |t| == |s| && t[i] == s[i + 1] && t[i + 1] == s[i]
    ensures forall j :: 0 <= j < |s| && j != i && j != i + 1 ==> t[j] == s[j]
  {
    s[i := s[i + 1]][i + 1 := s[i]]
  }

  method ApplyJitter(segs: array<Segment>, swap: nat -> bool)
    modifies segs
    ensures segs[..] == Jittered(old(segs[..]), swap, 0)
  {
    var i := 0;
    while i + 1 < segs.Length
      invariant Jittered(segs[..], swap, i) == Jittered(old(segs[..]), swap, 0)
    {
      ghost var before := segs[..];
      if swap(i) {
        segs[i], segs[i + 1] := segs[i + 1], segs[i];
        assert segs[..] == Swapped(before, i);
        i := i + 2;
      } else {
        i := i + 1;
      }
    }
  }

  /** A swap drawn right after none (or at the start) exchanges those two segments. */
  lemma {:induction false} JitterSwaps(segs: seq<Segment>, swap: nat -> bool, first: nat, i: nat)
    requires first <= i && i + 1 < |segs| && swap(i) && (i == first || !swap(i - 1))
    ensures |Jittered(segs, swap, first)| == |segs|
    ensures Jittered(segs, swap, first)[i] == segs[i + 1] && Jittered(segs, swap, first)[i + 1] == segs[i]
    decreases i - first
  {
    if first == i {
      JitterMovesByOne(Swapped(segs, i), swap, i + 2);
      var after := Jittered(Swapped(segs, i), swap, i + 2);
      assert StoodNear(Swapped(segs, i), after[i], i, i + 2) && StoodNear(Swapped(segs, i), after[i + 1], i + 1, i + 2);
    } else if swap(first) {
      JitterSwaps(Swapped(segs, first), swap, first + 2, i);
    } else {
      JitterSwaps(segs, swap, first + 1, i);
    }
  }

  /** Without any swap drawn everything stays where it is. */
  lemma {:induction false} NoSwapNoJitter(segs: seq<Segment>, swap: nat -> bool, i: nat)
    requires forall k: nat :: !swap(k)
    ensures Jittered(segs, swap, i) == segs
    decreases |segs| - i
  {
    if i + 1 < |segs| { NoSwapNoJitter(segs, swap, i + 1); }
  }

  lemma SwapPermutes<T>(s: seq<T>, i: nat)
    requires i + 1 < |s|
    ensures multiset(Swapped(s, i)) == multiset(s)
  {
    assert s == s[..i] + ([s[i]] + [s[i + 1]]) + s[i + 2..];
    assert Swapped(s, i) == s[..i] + ([s[i + 1]] + [s[i]]) + s[i + 2..];
  }

  lemma {:induction false} JitterPermutes(segs: seq<Segment>, swap: nat -> bool, i: nat)
    ensures multiset(Jittered(segs, swap, i)) == multiset(segs)
    decreases |segs| - i
  {
    if i + 1 < |segs| {
      if swap(i) {
        SwapPermutes(segs, i);
        JitterPermutes(Swapped(segs, i), swap, i + 2);
      } else {
        JitterPermutes(segs, swap, i + 1);
      }
    }
  }

  /** `x` is what stood at place `j`, or next to it but not before place `first`. */
  predicate StoodNear<T(==)>(before: seq<T>, x: T, j: nat, first: nat)
    requires j < |before|
  {
    x == before[j] || (j > first && x == before[j - 1]) || (first <= j && j + 1 < |before| && x == before[j + 1])
  }

  ghost predicate MovedByOne<T>(before: seq<T>, after: seq<T>, first: nat) {
    |after| == |before| && forall j: nat :: j < |after| ==> StoodNear(before, after[j], j, first)
  }

  lemma SwappedAndMoved<T>(before: seq<T>, after: seq<T>, i: nat)
    requires i + 1 < |before| && MovedByOne(Swapped(before, i), after, i + 2)
    ensures MovedByOne(before, after, i)
  {
    forall j: nat | j < |after|
      ensures StoodNear(before, after[j], j, i)
    {
      assert StoodNear(Swapped(before, i), after[j], j, i + 2);
    }
  }

  lemma MovedLater<T>(before: seq<T>, after: seq<T>, i: nat)
    requires MovedByOne(before, after, i + 1)
    ensures MovedByOne(before, after, i)
  {
    forall j: nat | j < |after|
      ensures StoodNear(before, after[j], j, i)
    {
      assert StoodNear(before, after[j], j, i + 1);
    }
  }

  /** Jitter moves every segment by at most one place. */
  lemma {:induction false} JitterMovesByOne(segs: seq<Segment>, swap: nat -> bool, i: nat)
    ensures MovedByOne(segs, Jittered(segs, swap, i), i)
    decreases |segs| - i
  {
    if i + 1 < |segs| {
      if swap(i) {
        JitterMovesByOne(Swapped(segs, i), swap, i + 2);
        SwappedAndMoved(segs, Jittered(segs, swap, i), i);
      } else {
        JitterMovesByOne(segs, swap, i + 1);
        MovedLater(segs, Jittered(segs, swap, i), i);
      }
    }
  }

  // ----- End to end

  /** Every arrival is one of the segments and every segment arrives at least once. */
  ghost predicate Covers(arrivals: seq<Segment>, segs: seq<Segment>) {
    (forall s :: s in arrivals ==> s in segs) && forall s :: s in segs ==> s in arrivals
  }

  lemma {:induction false} OrderOf(arrivals: seq<Segment>, segs: seq<Segment>) returns (order: seq<nat>)
    requires forall s :: s in arrivals ==> s in segs
    ensures Selects(order, |segs|) && Arrivals(segs, order) == arrivals
  {
    if arrivals == [] {
      order := [];
    } else {
      assert forall s :: s in arrivals[1..] ==> s in arrivals;
      var more := OrderOf(arrivals[1..], segs);
      assert arrivals[0] in segs;
      var i: nat :| i < |segs| && segs[i] == arrivals[0];
      order := [i] + more;
      assert arrivals == [arrivals[0]] + arrivals[1..];
    }
  }

  lemma EverySegmentSelected(parts: seq<Bytes>, start: nat, order: seq<nat>)
    requires Segmentation(parts, start) && Selects(order, |parts|)
    requires Covers(Arrivals(Segments(parts, start), order), Segments(parts, start))
    ensures forall i: nat :: i < |parts| ==> i in order
  {
    var segs := Segments(parts, start);
    NumbersIncrease(parts, start);
    forall i: nat | i < |parts|
      ensures i in order
    {
      assert segs[i] in segs;
      var t :| 0 <= t < |order| && segs[order[t]] == segs[i];
      SegmentAt(parts, start, i);
      SegmentAt(parts, start, order[t]);
      assert order[t] == i;
    }
  }

  lemma AllDelivered(parts: seq<Bytes>, start: nat, arrivals: seq<Segment>)
    requires Segmentation(parts, start) && Covers(arrivals, Segments(parts, start))
    ensures FedAll(New(start), arrivals).delivered == Flatten(parts)
    ensures FedAll(New(start), arrivals).pending == map[]
  {
    var order := OrderOf(arrivals, Segments(parts, start));
    EverySegmentSelected(parts, start, order);
    CompleteDelivery(parts, start, order);
  }

  lemma {:induction false} EventsFit(events: seq<Bytes>)
    ensures forall event :: event in events ==> |WireEncoding.Framed(event)| < |WireEncoding.Encoding(events)|
  {
    if events != [] {
      var c := WireEncoding.AsChunk(WireEncoding.Framed(events[0]));
      Chunked.Prepended(c, WireEncoding.Chunks(events[1..]), WireEncoding.LAST_LINE + CRLF + CRLF);
      EventsFit(events[1..]);
      forall event | event in events
        ensures |WireEncoding.Framed(event)| < |WireEncoding.Encoding(events)|
      {
        assert event == events[0] || event in events[1..];
      }
    }
  }

  /** Whatever the bytes, if the pipeline answers at all it reports the arrivals ahead of a gap and the
      arrivals behind the delivered part, each in its own place. */
  lemma ReportedCounts(parts: seq<Bytes>, start: nat, order: seq<nat>)
    requires Segmentation(parts, start) && Selects(order, |parts|)
    ensures var outcome := Outcome(Arrivals(Segments(parts, start), order), start);
            outcome.Some? ==>
              && outcome.value.reordered == EarlyArrivals(order, |parts|)
              && outcome.value.dropped == StaleArrivals(order, |parts|)
  {
    Confluence(parts, start, order);
  }

  /** Without repeats nothing arrives late. */
  lemma {:induction false} NoRepeatsNoStale(order: seq<nat>, n: nat)
    requires Selects(order, n) && forall a, b :: 0 <= a < b < |order| ==> order[a] != order[b]
    ensures StaleArrivals(order, n) == 0
    decreases |order|
  {
    if order != [] {
      var before, i := order[..|order| - 1], order[|order| - 1];
      NoRepeatsNoStale(before, n);
      assert i !in Indices(before);
    }
  }

  /** In order, nothing arrives early. */
  lemma {:induction false} InOrderNoneEarly(n: nat, k: nat)
    requires k <= n
    ensures var order := seq(k, i requires 0 <= i < k => i); Selects(order, n) && EarlyArrivals(order, n) == 0
  {
    var order := seq(k, i requires 0 <= i < k => i);
    if k > 0 {
      var before := seq(k - 1, i requires 0 <= i < k - 1 => i);
      assert order[..k - 1] == before;
      InOrderNoneEarly(n, k - 1);
      forall i | 0 <= i < k - 1
        ensures i in Indices(before)
      {
        assert before[i] == i;
      }
      RunContinues(Indices(before), n, 0, k - 1);
    }
  }

  lemma RepeatCounts<T>(s: seq<T>, a: nat, b: nat)
    requires a < b < |s| && s[a] == s[b]
    ensures multiset(s)[s[a]] >= 2
  {
    assert s == s[..b] + [s[b]] + s[b + 1..];
    assert s[..b][a] == s[b];
    assert s[b] in multiset(s[..b]);
  }

  lemma {:induction false} DistinctCountsOne<T>(s: seq<T>, x: T)
    requires forall a, b :: 0 <= a < b < |s| ==> s[a] != s[b]
    ensures multiset(s)[x] <= 1
  {
    if s != [] {
      DistinctCountsOne(s[1..], x);
      assert s == [s[0]] + s[1..];
      assert s[0] !in s[1..];
    }
  }

  /** A permutation of the segments selects each of them once. */
  lemma PermutationSelectsOnce(parts: seq<Bytes>, start: nat, order: seq<nat>)
    requires Segmentation(parts, start) && Selects(order, |parts|)
    requires multiset(Arrivals(Segments(parts, start), order)) == multiset(Segments(parts, start))
    ensures forall a, b :: 0 <= a < b < |order| ==> order[a] != order[b]
  {
    var segs := Segments(parts, start);
    var arrivals := Arrivals(segs, order);
    NumbersIncrease(parts, start);
    forall i, j | 0 <= i < j < |segs|
      ensures segs[i] != segs[j]
    {
      SegmentAt(parts, start, i);
      SegmentAt(parts, start, j);
    }
    forall a, b | 0 <= a < b < |order|
      ensures order[a] != order[b]
    {
      DistinctCountsOne(segs, arrivals[a]);
      if order[a] == order[b] { RepeatCounts(arrivals, a, b); }
    }
  }

  /** End to end: for every list of events, every way to cut their encoding into non-empty segments
      and every arrival order with any repeats, as long as the sequence numbers do not reach 2^32,
      the pipeline does not panic, and it returns precisely the events that were sent, with `done`
      set, exactly when each of them survives framing. */
  lemma EndToEnd(events: seq<Bytes>, parts: seq<Bytes>, start: nat, arrivals: seq<Segment>)
    requires Flatten(parts) == WireEncoding.Encoding(events)
    requires Segmentation(parts, start) && Covers(arrivals, Segments(parts, start))
    ensures Outcome(arrivals, start).Some?
    ensures forall order :: Selects(order, |parts|) && arrivals == Arrivals(Segments(parts, start), order) ==>
              && Outcome(arrivals, start).value.reordered == EarlyArrivals(order, |parts|)
              && Outcome(arrivals, start).value.dropped == StaleArrivals(order, |parts|)
    ensures var report := Outcome(arrivals, start).value;
            ((report.collected == events && report.done)
             <==> forall event :: event in events ==> Sse.Survives(event))
  {
    AllDelivered(parts, start, arrivals);
    forall order | Selects(order, |parts|) && arrivals == Arrivals(Segments(parts, start), order)
      ensures FedAll(New(start), arrivals).reordered == EarlyArrivals(order, |parts|)
      ensures FedAll(New(start), arrivals).dropped == StaleArrivals(order, |parts|)
    {
      Confluence(parts, start, order);
    }
    EventsFit(events);
    WireEncoding.ChunkingRoundTrip(events);
    WireEncoding.FramingRoundTrip(events);
  }

  /** Whatever permutation of the segments of length `segLen` reaches the tap, the events that were
      sent come out, with `done` set. */
  lemma PermutationIsHarmless(events: seq<Bytes>, segLen: nat, start: nat, arrivals: seq<Segment>)
    requires segLen > 0 && start + |WireEncoding.Encoding(events)| < U32
    requires multiset(arrivals) == multiset(Segmented(WireEncoding.Encoding(events), segLen, start))
    requires forall event :: event in events ==> Sse.Survives(event)
    ensures Outcome(arrivals, start).Some?
    ensures Outcome(arrivals, start).value.collected == events && Outcome(arrivals, start).value.done
    ensures Outcome(arrivals, start).value.dropped == 0
  {
    var wire := WireEncoding.Encoding(events);
    var parts := Cut(wire, segLen);
    var segs := Segments(parts, start);
    forall s
      ensures s in arrivals <==> s in segs
    {
      assert s in arrivals <==> s in multiset(arrivals);
      assert s in segs <==> s in multiset(segs);
    }
    EndToEnd(events, parts, start, arrivals);
    var order := OrderOf(arrivals, segs);
    PermutationSelectsOnce(parts, start, order);
    NoRepeatsNoStale(order, |parts|);
  }

  /** The run of the pipeline test: segment, jitter, reassemble. */
  lemma JitterIsHarmless(events: seq<Bytes>, segLen: nat, start: nat, swap: nat -> bool)
    requires segLen > 0 && start + |WireEncoding.Encoding(events)| < U32
    requires forall event :: event in events ==> Sse.Survives(event)
    ensures var outcome := Outcome(Jittered(Segmented(WireEncoding.Encoding(events), segLen, start), swap, 0), start);
            outcome.Some? && outcome.value.collected == events && outcome.value.done && outcome.value.dropped == 0
  {
    var segs := Segmented(WireEncoding.Encoding(events), segLen, start);
    JitterPermutes(segs, swap, 0);
    PermutationIsHarmless(events, segLen, start, Jittered(segs, swap, 0));
  }
}
