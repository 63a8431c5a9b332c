/** What the reorder buffer's plain comparison of 32-bit sequence numbers costs: exactly from which
    stream length on some arrival order of the same segments goes wrong. */
module Wraparound {
  import opened ByteStrings
  import opened Reorder
  import Pipeline

  /** All bytes are delivered, in order, and nothing is held. */
  ghost predicate Restored(w: Window, stream: Bytes) { w.delivered == stream && w.pending == map[] }

  /** However the segments arrive, as long as each one does, the stream is restored. */
  ghost predicate AlwaysRestored(parts: seq<Bytes>, start: nat) {
    forall arrivals :: Pipeline.Covers(arrivals, Segments(parts, start)) ==>
      Restored(FedAll(New(start), arrivals), Flatten(parts))
  }

  /** The arrivals in the order they are sent up to the last segment across which the numbers wrap; the
      one behind it, if any, arrives just before it, and otherwise it is repeated. */
  function BadOrder(parts: seq<Bytes>, start: nat): seq<Segment>
    requires parts != []
  {
    var first, rest, next := Segment(start, parts[0]), parts[1..], Advance(start, parts[0]);
    if next + |Flatten(rest)| >= U32 && rest != [] then [first] + BadOrder(rest, next)
    else if rest == [] then [first, first]
    else
      var segs := Segments(rest, next);
      [segs[0], first] + segs[1..]
  }

  lemma {:induction false} BadOrderCovers(parts: seq<Bytes>, start: nat)
    requires parts != []
    ensures Pipeline.Covers(BadOrder(parts, start), Segments(parts, start))
  {
    var first, rest, next := Segment(start, parts[0]), parts[1..], Advance(start, parts[0]);
    var segs := Segments(rest, next);
    assert Segments(parts, start) == [first] + segs;
    if next + |Flatten(rest)| >= U32 && rest != [] {
      BadOrderCovers(rest, next);
    } else if rest != [] {
      assert segs == [segs[0]] + segs[1..];
    }
  }

  lemma {:induction false} FedInFront(w: Window, s: Segment, arrivals: seq<Segment>)
    ensures FedAll(w, [s] + arrivals) == FedAll(Fed(w, s), arrivals)
    decreases |arrivals|
  {
    var all, n := [s] + arrivals, |arrivals|;
    if n == 0 {
      assert all[..0] == [];
    } else {
      assert all[..n] == [s] + arrivals[..n - 1];
      FedInFront(w, s, arrivals[..n - 1]);
    }
  }

  /** The next segment in order is delivered when nothing is held. */
  lemma DeliversNext(w: Window, payload: Bytes)
    requires w.pending == map[] && payload != []
    ensures Fed(w, Segment(w.next, payload))
         == w.(next := Advance(w.next, payload), delivered := w.delivered + payload)
  {
  }

  /** Segments ahead of the gap are all held and deliver nothing. */
  lemma {:induction false} HoldsAll(w: Window, arrivals: seq<Segment>)
    requires forall s :: s in arrivals ==> s.payload != [] && s.number > w.next
    ensures FedAll(w, arrivals).next == w.next && FedAll(w, arrivals).delivered == w.delivered
    decreases |arrivals|
  {
    if arrivals != [] { HoldsAll(w, arrivals[..|arrivals| - 1]); }
  }

  lemma {:induction false} NumbersFrom(parts: seq<Bytes>, start: nat)
    requires start + |Flatten(parts)| < U32 && forall part :: part in parts ==> part != []
    ensures forall s :: s in Segments(parts, start) ==> s.payload != [] && s.number >= start
  {
    if parts != [] {
      FirstAdvances(parts, start);
      assert forall part :: part in parts[1..] ==> part in parts;
      assert parts[0] in parts;
      NumbersFrom(parts[1..], Advance(start, parts[0]));
    }
  }

  ghost predicate Sendable(parts: seq<Bytes>) { forall part :: part in parts ==> 0 < |part| < U32 }

  lemma LastPartRepeated(w: Window, payload: Bytes)
    requires w.pending == map[] && w.next < U32 <= w.next + |payload| && |payload| < U32
    ensures var s := Segment(w.next, payload); FedAll(w, [s, s]).pending != map[]
  {
    var s := Segment(w.next, payload);
    TwiceFed(w, s);
    DeliversNext(w, payload);
    HoldsEarly(Fed(w, s), s);
  }

  lemma TwiceFed(w: Window, s: Segment)
    ensures FedAll(w, [s, s]) == Fed(Fed(w, s), s)
  {
    assert [s, s][..1] == [s] && [s][..0] == [];
    assert FedAll(w, [s]) == Fed(w, s);
  }

  lemma HoldsEarly(w: Window, s: Segment)
    requires s.payload != [] && s.number > w.next
    ensures s.number in Fed(w, s).pending
  {
  }

  lemma NumbersBehindFirst(parts: seq<Bytes>, start: nat)
    requires parts != [] && Sendable(parts) && start + |Flatten(parts)| < U32
    ensures Segments(parts, start)[0] == Segment(start, parts[0]) && parts[0] != []
    ensures forall s :: s in Segments(parts, start)[1..] ==> s.payload != [] && s.number > start
  {
    assert parts[0] in parts;
    assert forall part :: part in parts[1..] ==> part in parts;
    FirstAdvances(parts, start);
    NumbersFrom(parts[1..], Advance(start, parts[0]));
    assert Segments(parts, start)[1..] == Segments(parts[1..], Advance(start, parts[0]));
  }

  lemma DropsStale(w: Window, s: Segment)
    requires s.payload != [] && s.number < w.next
    ensures Fed(w, s) == w.(dropped := w.dropped + 1)
  {
  }

  lemma StaleThenNext(w: Window, stale: Segment, payload: Bytes, later: seq<Segment>)
    requires w.pending == map[] && payload != [] && stale.payload != [] && stale.number < w.next
    requires forall s :: s in later ==> s.payload != [] && s.number > Advance(w.next, payload)
    ensures FedAll(w, [stale, Segment(w.next, payload)] + later).delivered == w.delivered + payload
  {
    var s, dropped := Segment(w.next, payload), w.(dropped := w.dropped + 1);
    assert [stale, s] + later == [stale] + ([s] + later);
    FedInFront(w, stale, [s] + later);
    DropsStale(w, stale);
    FedInFront(dropped, s, later);
    DeliversNext(dropped, payload);
    HoldsAll(Fed(dropped, s), later);
  }

  /** The segment behind the wrap is taken for a stale one, and all further ones are held. */
  lemma LaterPartsHeld(w: Window, payload: Bytes, rest: seq<Bytes>)
    requires w.pending == map[] && w.next < U32 <= w.next + |payload| && |payload| < U32
    requires rest != [] && Sendable(rest) && Advance(w.next, payload) + |Flatten(rest)| < U32
    ensures var segs := Segments(rest, Advance(w.next, payload));
            FedAll(w, [segs[0], Segment(w.next, payload)] + segs[1..]).delivered == w.delivered + payload
  {
    var segs := Segments(rest, Advance(w.next, payload));
    NumbersBehindFirst(rest, Advance(w.next, payload));
    StaleThenNext(w, segs[0], payload, segs[1..]);
  }

  /** These arrivals leave something held, or do not deliver all of `parts`. */
  ghost predicate Broken(w: Window, parts: seq<Bytes>, arrivals: seq<Segment>) {
    var end := FedAll(w, arrivals);
    end.pending != map[] || |end.delivered| < |w.delivered| + |Flatten(parts)|
  }

  lemma BrokenBehind(w: Window, parts: seq<Bytes>, arrivals: seq<Segment>)
    requires parts != [] && parts[0] != [] && w.pending == map[]
    requires Broken(Fed(w, Segment(w.next, parts[0])), parts[1..], arrivals)
    ensures Broken(w, parts, [Segment(w.next, parts[0])] + arrivals)
  {
    DeliversNext(w, parts[0]);
    FedInFront(w, Segment(w.next, parts[0]), arrivals);
  }

  lemma {:induction false} BadOrderFails(w: Window, parts: seq<Bytes>)
    requires parts != [] && Sendable(parts) && w.next < U32 <= w.next + |Flatten(parts)| && w.pending == map[]
    ensures Broken(w, parts, BadOrder(parts, w.next))
    decreases |parts|
  {
    var rest, next := parts[1..], Advance(w.next, parts[0]);
    assert parts[0] in parts;
    assert Sendable(rest) by {
      assert forall part :: part in rest ==> part in parts;
    }
    if next + |Flatten(rest)| >= U32 && rest != [] {
      DeliversNext(w, parts[0]);
      BadOrderFails(Fed(w, Segment(w.next, parts[0])), rest);
      BrokenBehind(w, parts, BadOrder(rest, next));
    } else if rest == [] {
      LastPartRepeated(w, parts[0]);
    } else {
      LaterPartsHeld(w, parts[0], rest);
      assert rest[0] in rest;
    }
  }

  /** For non-empty segments shorter than 2^32, every arrival order restores the stream exactly if its
      sequence numbers stay below 2^32. */
  lemma RestoredExactlyBelowWrap(parts: seq<Bytes>, start: nat)
    requires Sendable(parts) && start < U32
    ensures AlwaysRestored(parts, start) <==> start + |Flatten(parts)| < U32
  {
    if start + |Flatten(parts)| < U32 {
      forall arrivals | Pipeline.Covers(arrivals, Segments(parts, start))
        ensures Restored(FedAll(New(start), arrivals), Flatten(parts))
      {
        Pipeline.AllDelivered(parts, start, arrivals);
      }
    } else {
      BadOrderCovers(parts, start);
      BadOrderFails(New(start), parts);
      assert !Restored(FedAll(New(start), BadOrder(parts, start)), Flatten(parts));
    }
  }
}
