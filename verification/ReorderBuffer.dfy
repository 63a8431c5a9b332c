/** Restoring stream order from captured TCP segments (tap_reader/src/reorder.rs). Sequence numbers
    are those of section 3.4 of RFC 9293; the buffer compares them as plain 32-bit numbers. */
module Reorder {
  import opened ByteStrings

  const U32: nat := 0x1_0000_0000

  datatype Segment = Segment(number: nat, payload: Bytes)

  /** A snapshot of the buffer. */
  datatype Window = Window(next: nat, pending: map<nat, Bytes>, delivered: Bytes, dropped: nat, reordered: nat)

  function Advance(number: nat, payload: Bytes): nat { (number + |payload| % U32) % U32 }

  function Drain(w: Window): Window
    decreases |w.pending|
  {
    if w.next in w.pending then
      var payload := w.pending[w.next];
      Shrinks(w.pending, w.next);
      Drain(w.(next := Advance(w.next, payload), pending := w.pending - {w.next}, delivered := w.delivered + payload))
    else w
  }

  lemma Shrinks(pending: map<nat, Bytes>, number: nat)
    requires number in pending
    ensures |pending - {number}| < |pending|
  {
    assert (pending - {number}).Keys == pending.Keys - {number};
  }

  function Fed(w: Window, s: Segment): Window {
    if s.payload == [] then w
    else if s.number < w.next then w.(dropped := w.dropped + 1)
    else if s.number == w.next then
      Drain(w.(next := Advance(w.next, s.payload), delivered := w.delivered + s.payload))
    else w.(reordered := w.reordered + 1, pending := w.pending[s.number := s.payload])
  }

  function New(initialSeq: nat): Window { Window(initialSeq, map[], [], 0, 0) }

  function FedAll(w: Window, arrivals: seq<Segment>): Window {
    if arrivals == [] then w
    else Fed(FedAll(w, arrivals[..|arrivals| - 1]), arrivals[|arrivals| - 1])
  }

  class ReorderBuffer {
    var nextExpected: nat
    var pending: map<nat, Bytes>
    var delivered: Bytes
    var duplicatesDropped: nat
    var reorderedCount: nat

    ghost function View(): Window
      reads this
    {
      Window(nextExpected, pending, delivered, duplicatesDropped, reorderedCount)
    }

    constructor (initialSeq: nat)
      ensures View() == New(initialSeq)
    {
      nextExpected, pending, delivered, duplicatesDropped, reorderedCount := initialSeq, map[], [], 0, 0;
    }

    method Feed(s: Segment)
      modifies this
      ensures View() == Fed(old(View()), s)
    {
      if s.payload == [] { return; }
      if s.number < nextExpected {
        duplicatesDropped := duplicatesDropped + 1;
        return;
      }
      if s.number == nextExpected {
        delivered := delivered + s.payload;
        nextExpected := Advance(nextExpected, s.payload);
        DrainReady();
      } else {
        reorderedCount := reorderedCount + 1;
        pending := pending[s.number := s.payload];
      }
    }

    method DrainReady()
      modifies this
      ensures View() == Drain(old(View()))
    {
      while nextExpected in pending
        invariant Drain(View()) == Drain(old(View()))
        decreases |pending|
      {
        var payload := pending[nextExpected];
        Shrinks(pending, nextExpected);
        pending := pending - {nextExpected};
        nextExpected := Advance(nextExpected, payload);
        delivered := delivered + payload;
      }
    }

    method GapOpen() returns (open: bool)
      ensures open <==> pending != map[]
    {
      open := pending != map[];
    }
  }

  // ----- One fixed segmentation of a stream

  /** A stream cut into `parts`, with the sequence numbers they are sent under. */
  function Segments(parts: seq<Bytes>, start: nat): (segs: seq<Segment>)
    ensures |segs| == |parts|
  {
    if parts == [] then [] else [Segment(start, parts[0])] + Segments(parts[1..], Advance(start, parts[0]))
  }

  function SeqNo(parts: seq<Bytes>, start: nat, i: nat): nat
    requires i <= |parts|
  {
    start + |Flatten(parts[..i])|
  }

  /** The sequence numbers at which the parts begin, and the one behind the last part. */
  function Numbers(parts: seq<Bytes>, start: nat): (numbers: seq<nat>)
    ensures |numbers| == |parts| + 1
  {
    seq(|parts| + 1, i requires 0 <= i <= |parts| => SeqNo(parts, start, i))
  }

  ghost predicate Increasing(numbers: seq<nat>) {
    forall i, j :: 0 <= i < j < |numbers| ==> numbers[i] < numbers[j]
  }

  ghost predicate Segmentation(parts: seq<Bytes>, start: nat) {
    (forall part :: part in parts ==> part != []) && start + |Flatten(parts)| < U32
  }

  lemma FlattenStep(parts: seq<Bytes>, i: nat)
    requires i < |parts|
    ensures Flatten(parts[..i + 1]) == Flatten(parts[..i]) + parts[i]
  {
    assert parts[..i + 1] == parts[..i] + [parts[i]];
    FlattenAppend(parts[..i], [parts[i]]);
    assert Flatten([parts[i]]) == parts[i] + [];
  }

  lemma {:induction false} SeqNoIncreases(parts: seq<Bytes>, start: nat, i: nat, j: nat)
    requires i < j <= |parts| && forall part :: part in parts ==> part != []
    ensures SeqNo(parts, start, i) < SeqNo(parts, start, j)
    decreases j
  {
    FlattenStep(parts, j - 1);
    assert parts[j - 1] in parts;
    if i < j - 1 { SeqNoIncreases(parts, start, i, j - 1); }
  }

  lemma NumbersIncrease(parts: seq<Bytes>, start: nat)
    requires forall part :: part in parts ==> part != []
    ensures Increasing(Numbers(parts, start))
  {
    forall i, j | 0 <= i < j <= |parts|
      ensures Numbers(parts, start)[i] < Numbers(parts, start)[j]
    {
      SeqNoIncreases(parts, start, i, j);
    }
  }

  lemma AdvancesToNext(parts: seq<Bytes>, start: nat, k: nat)
    requires Segmentation(parts, start) && k < |parts|
    ensures Flatten(parts[..k]) + parts[k] == Flatten(parts[..k + 1])
    ensures Advance(Numbers(parts, start)[k], parts[k]) == Numbers(parts, start)[k + 1]
  {
    FlattenStep(parts, k);
    assert parts == parts[..k + 1] + parts[k + 1..];
    FlattenAppend(parts[..k + 1], parts[k + 1..]);
  }

  lemma NumberAfterFirst(parts: seq<Bytes>, start: nat, i: nat)
    requires 0 < i < |parts|
    ensures SeqNo(parts, start, i) == SeqNo(parts[1..], start + |parts[0]|, i - 1)
  {
    assert parts[..i][1..] == parts[1..][..i - 1];
  }

  lemma FirstAdvances(parts: seq<Bytes>, start: nat)
    requires parts != [] && start + |Flatten(parts)| < U32
    ensures Advance(start, parts[0]) == start + |parts[0]|
  {
  }

  lemma {:induction false} SegmentAt(parts: seq<Bytes>, start: nat, i: nat)
    requires i < |parts| && start + |Flatten(parts)| < U32
    ensures Segments(parts, start)[i] == Segment(Numbers(parts, start)[i], parts[i])
  {
    if i > 0 {
      SegmentAt(parts[1..], Advance(start, parts[0]), i - 1);
      FirstAdvances(parts, start);
      NumberAfterFirst(parts, start, i);
    }
  }

  /** How many segments in a row, from `first` on, are among those received. */
  function InitialRun(received: set<nat>, n: nat, first: nat): (k: nat)
    requires first <= n
    ensures first <= k <= n && (forall i :: first <= i < k ==> i in received) && (k < n ==> k !in received)
    decreases n - first
  {
    if first < n && first in received then InitialRun(received, n, first + 1) else first
  }

  function Indices(order: seq<nat>): set<nat> { set i | i in order }

  /** Precisely the received parts from `k` on are held. */
  ghost predicate Held(pending: map<nat, Bytes>, parts: seq<Bytes>, numbers: seq<nat>, received: set<nat>, k: nat)
    requires |numbers| == |parts| + 1
  {
    && (forall i: nat :: i in received ==> i < |parts|)
    && (forall i: nat :: k <= i && i in received ==> numbers[i] in pending && pending[numbers[i]] == parts[i])
    && (forall s :: s in pending ==> exists i: nat :: k <= i && i in received && s == numbers[i])
  }

  /** The first `k` parts are delivered and precisely the received parts from `k` on are held. */
  ghost predicate Reached(w: Window, parts: seq<Bytes>, start: nat, received: set<nat>, k: nat) {
    && k <= |parts| && (forall i: nat :: i < k ==> i in received)
    && w.next == Numbers(parts, start)[k]
    && w.delivered == Flatten(parts[..k])
    && Held(w.pending, parts, Numbers(parts, start), received, k)
  }

  lemma ReleasesHead(pending: map<nat, Bytes>, parts: seq<Bytes>, numbers: seq<nat>, received: set<nat>, k: nat)
    requires |numbers| == |parts| + 1 && Increasing(numbers)
    requires k in received && Held(pending, parts, numbers, received, k)
    ensures Held(pending - {numbers[k]}, parts, numbers, received, k + 1)
  {
  }

  lemma HoldsOneMore(pending: map<nat, Bytes>, parts: seq<Bytes>, numbers: seq<nat>, received: set<nat>, k: nat, i: nat)
    requires |numbers| == |parts| + 1 && Increasing(numbers)
    requires k < i < |parts| && Held(pending, parts, numbers, received, k)
    ensures Held(pending[numbers[i] := parts[i]], parts, numbers, received + {i}, k)
  {
    assert i in received + {i};
  }

  /** The window after its next segment has been released. */
  function Released(w: Window, payload: Bytes): Window {
    w.(next := Advance(w.next, payload), pending := w.pending - {w.next}, delivered := w.delivered + payload)
  }

  lemma ReleaseReaches(w: Window, parts: seq<Bytes>, start: nat, received: set<nat>, k: nat)
    requires Segmentation(parts, start) && Reached(w, parts, start, received, k) && k in received
    ensures w.next in w.pending && w.pending[w.next] == parts[k]
    ensures Reached(Released(w, parts[k]), parts, start, received, k + 1)
  {
    NumbersIncrease(parts, start);
    AdvancesToNext(parts, start, k);
    ReleasesHead(w.pending, parts, Numbers(parts, start), received, k);
  }

  lemma NothingToRelease(w: Window, parts: seq<Bytes>, start: nat, received: set<nat>, k: nat)
    requires Segmentation(parts, start) && Reached(w, parts, start, received, k) && k !in received
    ensures w.next !in w.pending
  {
    NumbersIncrease(parts, start);
  }

  lemma {:induction false} DrainReaches(w: Window, parts: seq<Bytes>, start: nat, received: set<nat>, k: nat)
    requires Segmentation(parts, start) && Reached(w, parts, start, received, k)
    ensures Drain(w).dropped == w.dropped && Drain(w).reordered == w.reordered
    ensures Reached(Drain(w), parts, start, received, InitialRun(received, |parts|, k))
    decreases |w.pending|
  {
    if k in received {
      ReleaseReaches(w, parts, start, received, k);
      Shrinks(w.pending, w.next);
      assert Drain(w) == Drain(Released(w, parts[k]));
      DrainReaches(Released(w, parts[k]), parts, start, received, k + 1);
    } else {
      NothingToRelease(w, parts, start, received, k);
      assert Drain(w) == w;
    }
  }

  /** The arrivals behind the delivered part of the stream, and those ahead of a gap. */
  function StaleArrivals(order: seq<nat>, n: nat): nat {
    if order == [] then 0
    else
      var before := order[..|order| - 1];
      StaleArrivals(before, n) + if order[|order| - 1] < InitialRun(Indices(before), n, 0) then 1 else 0
  }

  function EarlyArrivals(order: seq<nat>, n: nat): nat {
    if order == [] then 0
    else
      var before := order[..|order| - 1];
      EarlyArrivals(before, n) + if order[|order| - 1] > InitialRun(Indices(before), n, 0) then 1 else 0
  }

  ghost predicate Selects(order: seq<nat>, n: nat) {
    forall t :: 0 <= t < |order| ==> order[t] < n
  }

  /** The segments picked by `order`, in that order. */
  function Arrivals(segs: seq<Segment>, order: seq<nat>): (arrivals: seq<Segment>)
    requires Selects(order, |segs|)
    ensures |arrivals| == |order|
  {
    seq(|order|, t requires 0 <= t < |order| => segs[order[t]])
  }

  lemma StartReached(parts: seq<Bytes>, start: nat)
    ensures Reached(New(start), parts, start, {}, 0)
  {
  }

  lemma ArrivesNext(w: Window, parts: seq<Bytes>, start: nat, received: set<nat>, k: nat)
    requires Segmentation(parts, start) && k < |parts| && parts[k] != []
    requires Reached(w, parts, start, received, k) && k !in received
    ensures var w' := Fed(w, Segment(w.next, parts[k]));
            && Reached(w', parts, start, received + {k}, InitialRun(received + {k}, |parts|, k + 1))
            && w'.dropped == w.dropped && w'.reordered == w.reordered
  {
    AdvancesToNext(parts, start, k);
    var w' := w.(next := Advance(w.next, parts[k]), delivered := w.delivered + parts[k]);
    assert Held(w'.pending, parts, Numbers(parts, start), received + {k}, k + 1);
    DrainReaches(w', parts, start, received + {k}, k + 1);
  }

  lemma ArrivesEarly(w: Window, parts: seq<Bytes>, start: nat, received: set<nat>, k: nat, i: nat)
    requires Segmentation(parts, start) && k < i < |parts| && parts[i] != [] && Reached(w, parts, start, received, k)
    ensures var w' := Fed(w, Segment(Numbers(parts, start)[i], parts[i]));
            Reached(w', parts, start, received + {i}, k) && w'.dropped == w.dropped && w'.reordered == w.reordered + 1
  {
    NumbersIncrease(parts, start);
    assert Numbers(parts, start)[k] < Numbers(parts, start)[i];
    HoldsOneMore(w.pending, parts, Numbers(parts, start), received, k, i);
  }

  lemma ArrivesLate(w: Window, parts: seq<Bytes>, start: nat, received: set<nat>, k: nat, i: nat)
    requires Segmentation(parts, start) && i < k && i < |parts| && parts[i] != []
    requires Reached(w, parts, start, received, k)
    ensures Fed(w, Segment(Numbers(parts, start)[i], parts[i])) == w.(dropped := w.dropped + 1)
    ensures received + {i} == received
  {
    NumbersIncrease(parts, start);
    assert Numbers(parts, start)[i] < Numbers(parts, start)[k];
  }

  lemma OneArrival(w: Window, parts: seq<Bytes>, start: nat, received: set<nat>, k: nat, i: nat)
    requires Segmentation(parts, start) && i < |parts|
    requires Reached(w, parts, start, received, k) && k !in received
    ensures var w' := Fed(w, Segment(Numbers(parts, start)[i], parts[i]));
            && Reached(w', parts, start, received + {i}, InitialRun(received + {i}, |parts|, 0))
            && w'.dropped == w.dropped + (if i < k then 1 else 0)
            && w'.reordered == w.reordered + (if i > k then 1 else 0)
  {
    assert parts[i] in parts;
    if i == k {
      ArrivesNext(w, parts, start, received, k);
      RunContinues(received + {i}, |parts|, 0, k + 1);
    } else {
      RunContinues(received + {i}, |parts|, 0, k);
      if i < k {
        ArrivesLate(w, parts, start, received, k, i);
      } else {
        ArrivesEarly(w, parts, start, received, k, i);
      }
    }
  }

  /** A run of received segments continues from any point inside it. */
  lemma {:induction false} RunContinues(received: set<nat>, n: nat, first: nat, k: nat)
    requires first <= k <= n && forall i :: first <= i < k ==> i in received
    ensures InitialRun(received, n, first) == InitialRun(received, n, k)
    decreases k - first
  {
    if first < k { RunContinues(received, n, first + 1, k); }
  }

  /** Confluence: after any arrivals, in any order and with any repeats, exactly the longest initial
      run of received segments is delivered and exactly the rest is held. */
  lemma {:induction false} Confluence(parts: seq<Bytes>, start: nat, order: seq<nat>)
    requires Segmentation(parts, start) && Selects(order, |parts|)
    ensures var w := FedAll(New(start), Arrivals(Segments(parts, start), order));
            && Reached(w, parts, start, Indices(order), InitialRun(Indices(order), |parts|, 0))
            && w.dropped == StaleArrivals(order, |parts|)
            && w.reordered == EarlyArrivals(order, |parts|)
    decreases |order|
  {
    if order == [] {
      StartReached(parts, start);
      assert Indices(order) == {};
    } else {
      var before, i := order[..|order| - 1], order[|order| - 1];
      Confluence(parts, start, before);
      LastArrival(parts, start, order);
      OneArrival(FedAll(New(start), Arrivals(Segments(parts, start), before)), parts, start, Indices(before),
                 InitialRun(Indices(before), |parts|, 0), i);
    }
  }

  lemma LastArrival(parts: seq<Bytes>, start: nat, order: seq<nat>)
    requires start + |Flatten(parts)| < U32 && Selects(order, |parts|) && order != []
    ensures var before, i, segs := order[..|order| - 1], order[|order| - 1], Segments(parts, start);
            && Indices(order) == Indices(before) + {i}
            && FedAll(New(start), Arrivals(segs, order))
               == Fed(FedAll(New(start), Arrivals(segs, before)), Segment(Numbers(parts, start)[i], parts[i]))
  {
    var before, i, segs := order[..|order| - 1], order[|order| - 1], Segments(parts, start);
    var arrivals := Arrivals(segs, order);
    assert arrivals[..|arrivals| - 1] == Arrivals(segs, before);
    SegmentAt(parts, start, i);
    assert order == before + [i];
  }

  /** What is delivered and what is held depends on which segments have arrived, not on the order. */
  lemma OrderIrrelevant(parts: seq<Bytes>, start: nat, order: seq<nat>, other: seq<nat>)
    requires Segmentation(parts, start) && Selects(order, |parts|) && Selects(other, |parts|)
    requires Indices(order) == Indices(other)
    ensures var segs := Segments(parts, start);
            var a, b := FedAll(New(start), Arrivals(segs, order)), FedAll(New(start), Arrivals(segs, other));
            a.delivered == b.delivered && a.next == b.next && a.pending == b.pending
  {
    Confluence(parts, start, order);
    Confluence(parts, start, other);
  }

  /** Once every segment has arrived, the stream is complete and no gap is open. */
  lemma CompleteDelivery(parts: seq<Bytes>, start: nat, order: seq<nat>)
    requires Segmentation(parts, start) && Selects(order, |parts|)
    requires forall i: nat :: i < |parts| ==> i in order
    ensures var w := FedAll(New(start), Arrivals(Segments(parts, start), order));
            w.delivered == Flatten(parts) && w.pending == map[] && w.next == start + |Flatten(parts)|
  {
    Confluence(parts, start, order);
    var k := InitialRun(Indices(order), |parts|, 0);
    assert k < |parts| ==> k in order;
    assert parts[..k] == parts;
  }

  /** The bound on the sequence numbers is sharp: a stream that ends at exactly 2^32 is delivered in
      full, but a repeat of its last segment is then held as if it lay ahead of a gap. */
  lemma WrapHoldsRepeats(s: Segment)
    requires 0 < s.number && s.payload != [] && s.number + |s.payload| == U32
    ensures var w := FedAll(New(s.number), [s, s]);
            w.delivered == s.payload && w.next == 0 && w.pending == map[s.number := s.payload]
  {
    assert [s, s][..1] == [s];
    assert FedAll(New(s.number), [s]) == Window(0, map[], s.payload, 0, 0);
  }

  function NonEmpty(arrivals: seq<Segment>): seq<Segment> {
    if arrivals == [] then []
    else
      var last := arrivals[|arrivals| - 1];
      NonEmpty(arrivals[..|arrivals| - 1]) + if last.payload == [] then [] else [last]
  }

  /** Segments without payload leave no trace at all. */
  lemma {:induction false} EmptySegmentsIgnored(w: Window, arrivals: seq<Segment>)
    ensures FedAll(w, arrivals) == FedAll(w, NonEmpty(arrivals))
    decreases |arrivals|
  {
    if arrivals != [] {
      var before, last := arrivals[..|arrivals| - 1], arrivals[|arrivals| - 1];
      EmptySegmentsIgnored(w, before);
      var kept := NonEmpty(before);
      if last.payload != [] {
        assert (kept + [last])[..|kept|] == kept;
      } else {
        assert kept + [] == kept;
      }
    }
  }

  // ----- Overlapping segments

  /** A segment that carries bytes of `stream` at the place its sequence number says. */
  ghost predicate CutFrom(s: Segment, stream: Bytes, start: nat) {
    start <= s.number && s.number - start + |s.payload| <= |stream|
    && stream[s.number - start..s.number - start + |s.payload|] == s.payload
  }

  ghost predicate PrefixDelivered(w: Window, stream: Bytes, start: nat) {
    && start <= w.next <= start + |stream|
    && w.delivered == stream[..w.next - start]
    && forall s :: s in w.pending ==> CutFrom(Segment(s, w.pending[s]), stream, start)
  }

  lemma DeliversPrefix(w: Window, stream: Bytes, start: nat, payload: Bytes)
    requires start + |stream| < U32 && PrefixDelivered(w, stream, start)
    requires CutFrom(Segment(w.next, payload), stream, start)
    ensures Advance(w.next, payload) == w.next + |payload|
    ensures w.delivered + payload == stream[..w.next + |payload| - start]
  {
    PrefixGrows(stream, w.next - start, |payload|);
  }

  lemma PrefixGrows(stream: Bytes, at: nat, n: nat)
    requires at + n <= |stream|
    ensures stream[..at] + stream[at..at + n] == stream[..at + n]
  {
  }

  lemma {:induction false} DrainKeepsPrefix(w: Window, stream: Bytes, start: nat)
    requires start + |stream| < U32 && PrefixDelivered(w, stream, start)
    ensures PrefixDelivered(Drain(w), stream, start)
    decreases |w.pending|
  {
    if w.next in w.pending {
      var payload := w.pending[w.next];
      Shrinks(w.pending, w.next);
      DeliversPrefix(w, stream, start, payload);
      DrainKeepsPrefix(w.(next := Advance(w.next, payload), pending := w.pending - {w.next},
                          delivered := w.delivered + payload), stream, start);
    }
  }

  /** Segments that agree with one stream, however they overlap, never make the buffer deliver
      anything but a prefix of that stream, as long as `next` says. */
  lemma {:induction false} PrefixSafety(arrivals: seq<Segment>, stream: Bytes, start: nat)
    requires start + |stream| < U32
    requires forall s :: s in arrivals ==> CutFrom(s, stream, start)
    ensures PrefixDelivered(FedAll(New(start), arrivals), stream, start)
    decreases |arrivals|
  {
    if arrivals != [] {
      var before, s := arrivals[..|arrivals| - 1], arrivals[|arrivals| - 1];
      PrefixSafety(before, stream, start);
      var w := FedAll(New(start), before);
      if s.payload != [] && s.number == w.next {
        DeliversPrefix(w, stream, start, s.payload);
        DrainKeepsPrefix(w.(next := Advance(w.next, s.payload), delivered := w.delivered + s.payload), stream, start);
      }
    }
  }
}
