/** Extraction of server-sent events from the decoded body (tap_reader/src/reassembly.rs): a
    subset of section 9.2 of the WHATWG HTML standard. */
module Sse {
  import opened ByteStrings

  const DATA_PREFIX: Bytes := [0x64, 0x61, 0x74, 0x61, 0x3a, 0x20]  // data:_
  const DONE_PAYLOAD: Bytes := [0x5b, 0x44, 0x4f, 0x4e, 0x45, 0x5d]  // [DONE]

  function StripDataPrefix(raw: Bytes): (payload: Bytes)
    ensures if DATA_PREFIX <= raw then raw == DATA_PREFIX + payload else payload == raw
  {
    if DATA_PREFIX <= raw then raw[|DATA_PREFIX|..] else raw
  }

  datatype Extraction = Extraction(events: seq<Bytes>, done: bool, rest: Bytes)

  /** What one complete raw event contributes. */
  function Contribution(payload: Bytes): seq<Bytes> {
    if payload == DONE_PAYLOAD || payload == [] then [] else [payload]
  }

  function Taken(payload: Bytes): Extraction {
    Extraction(Contribution(payload), payload == DONE_PAYLOAD, [])
  }

  /** The first extraction, followed by the second on what the first left over. */
  function Then(a: Extraction, b: Extraction): Extraction {
    Extraction(a.events + b.events, a.done || b.done, b.rest)
  }

  /** Everything that can be taken out of `buf`. */
  function Extract(buf: Bytes): Extraction
    decreases |buf|
  {
    match FindSubslice(buf, LFLF)
    case None => Extraction([], false, buf)
    case Some(boundary) =>
      Then(Taken(StripDataPrefix(buf[..boundary])), Extract(buf[boundary + 2..]))
  }

  /** `extract` takes out one event after the other, as `Extract` does. */
  ghost predicate Extracts(extract: Bytes -> Extraction) { forall rest :: Unfolds(extract, rest) }

  ghost predicate Unfolds(extract: Bytes -> Extraction, rest: Bytes) {
    extract(rest)
    == match FindSubslice(rest, LFLF)
       case None => Extraction([], false, rest)
       case Some(boundary) => Then(Taken(StripDataPrefix(rest[..boundary])), extract(rest[boundary + 2..]))
  }

  lemma ExtractUnfolds()
    ensures Extracts(Extract)
  {
  }

  /** The events in hand, with all that can still be taken out of `rest`, make `goal`. */
  ghost predicate Yields(
    extract: Bytes -> Extraction, events: seq<Bytes>, done: bool, rest: Bytes, goal: Extraction)
  {
    Then(Extraction(events, done, []), extract(rest)) == goal
  }

  class SseReassembler {
    var buf: Bytes
    var consumed: nat
    var done: bool

    ghost predicate Valid()
      reads this
    {
      consumed == 0 && Absent(LFLF, buf)
    }

    constructor ()
      ensures Valid() && buf == [] && !done
    {
      buf, consumed, done := [], 0, false;
    }

    method Feed(decoded: Bytes) returns (events: seq<Bytes>)
      requires Valid()
      modifies this
      ensures Valid()
      ensures Extraction(events, done, buf) == Then(Extraction([], old(done), []), Extract(old(buf) + decoded))
    {
      buf := buf + decoded;
      events := [];
      ghost var all := buf;
      ghost var goal := Then(Extraction([], done, []), Extract(all));
      assert buf[consumed..] == all;
      ExtractUnfolds();
      var more := true;
      while more
        invariant buf == all && consumed <= |buf|
        invariant more ==> Yields(Extract, events, done, buf[consumed..], goal)
        invariant !more ==> Extraction(events, done, buf[consumed..]) == goal
        decreases more, |buf| - consumed
      {
        more, consumed, events, done := Step(buf, consumed, events, done, Extract, goal);
      }
      RestHasNoEvent(all);
      if consumed > 0 {
        buf := buf[consumed..];
        consumed := 0;
      }
    }
  }

  /** One turn of the loop of `Feed`; false when it breaks. */
  method Step(
    buf: Bytes, consumed: nat, events: seq<Bytes>, done: bool,
    ghost extract: Bytes -> Extraction, ghost goal: Extraction)
    returns (more: bool, consumed': nat, events': seq<Bytes>, done': bool)
    requires Extracts(extract) && consumed <= |buf| && Yields(extract, events, done, buf[consumed..], goal)
    ensures consumed' <= |buf|
    ensures more ==> consumed' > consumed && Yields(extract, events', done', buf[consumed'..], goal)
    ensures !more ==> Extraction(events', done', buf[consumed'..]) == goal
  {
    var remaining := buf[consumed..];
    var found := FindSubslice(remaining, LFLF);
    assert Unfolds(extract, remaining);
    if found.None? {
      NothingToTake(extract, remaining, events, done, goal);
      return false, consumed, events, done;
    }
    var rawEvent := remaining[..found.value];
    consumed' := consumed + found.value + 2;
    events', done' := Collect(StripDataPrefix(rawEvent), events, done);
    assert remaining[found.value + 2..] == buf[consumed'..];
    TakesNext(extract, remaining, found.value, events, done, events', done', goal);
    more := true;
  }

  lemma TakesNext(
    extract: Bytes -> Extraction, rest: Bytes, boundary: nat,
    events: seq<Bytes>, done: bool, events': seq<Bytes>, done': bool, goal: Extraction)
    requires FindSubslice(rest, LFLF) == Some(boundary) && Unfolds(extract, rest)
    requires Yields(extract, events, done, rest, goal)
    requires Collected(StripDataPrefix(rest[..boundary]), events, done, events', done')
    ensures Yields(extract, events', done', rest[boundary + 2..], goal)
  {
    var payload := StripDataPrefix(rest[..boundary]);
    RegroupEvents(Extraction(events, done, []), Taken(payload), extract(rest[boundary + 2..]));
  }

  /** The payload has been added to the events, has set the flag or has been dropped. */
  ghost predicate Collected(payload: Bytes, events: seq<Bytes>, done: bool, events': seq<Bytes>, done': bool) {
    Extraction(events', done', []) == Then(Extraction(events, done, []), Taken(payload))
  }

  /** What becomes of one payload. */
  method Collect(payload: Bytes, events: seq<Bytes>, done: bool) returns (events': seq<Bytes>, done': bool)
    ensures Collected(payload, events, done, events', done')
  {
    events', done' := events, done;
    if payload == DONE_PAYLOAD {
      done' := true;
    } else if payload != [] {
      events' := events + [payload];
    }
  }

  lemma TakesFirst(buf: Bytes, boundary: nat)
    requires FindSubslice(buf, LFLF) == Some(boundary)
    ensures Extract(buf) == Then(Taken(StripDataPrefix(buf[..boundary])), Extract(buf[boundary + 2..]))
  {
  }

  lemma RegroupEvents(a: Extraction, b: Extraction, c: Extraction)
    ensures Then(a, Then(b, c)) == Then(Then(a, b), c)
  {
    assert a.events + (b.events + c.events) == (a.events + b.events) + c.events;
  }

  lemma NothingToTake(
    extract: Bytes -> Extraction, rest: Bytes, events: seq<Bytes>, done: bool, goal: Extraction)
    requires FindSubslice(rest, LFLF).None? && Unfolds(extract, rest) && Yields(extract, events, done, rest, goal)
    ensures Extraction(events, done, rest) == goal
  {
    assert events + [] == events;
  }

  // ----- Fragmentation invariance

  lemma {:induction false} ExtractInTwoParts(buf: Bytes, more: Bytes)
    ensures Extract(buf + more) == Then(Extract(buf), Extract(Extract(buf).rest + more))
    decreases |buf|
  {
    var found := FindSubslice(buf, LFLF);
    if found.Some? {
      var boundary := found.value;
      FindStable(buf, LFLF, more);
      assert (buf + more)[..boundary] == buf[..boundary];
      assert (buf + more)[boundary + 2..] == buf[boundary + 2..] + more;
      ExtractInTwoParts(buf[boundary + 2..], more);
      var payload := StripDataPrefix(buf[..boundary]);
      var first := Extract(buf[boundary + 2..]);
      RegroupEvents(Taken(payload), first, Extract(first.rest + more));
    }
  }

  /** All events returned over a series of feeds, with the final state. */
  function ExtractAll(start: Extraction, fragments: seq<Bytes>): Extraction
    decreases |fragments|
  {
    if fragments == [] then start
    else ExtractAll(Then(start, Extract(start.rest + fragments[0])), fragments[1..])
  }

  lemma {:induction false} RestHasNoEvent(buf: Bytes)
    ensures Absent(LFLF, Extract(buf).rest)
    decreases |buf|
  {
    var found := FindSubslice(buf, LFLF);
    if found.Some? { RestHasNoEvent(buf[found.value + 2..]); }
  }

  lemma OneFragment(start: Extraction, a: Bytes, more: Bytes)
    ensures Then(start, Extract(a + more)) == Then(Then(start, Extract(a)), Extract(Extract(a).rest + more))
  {
    ExtractInTwoParts(a, more);
    RegroupEvents(start, Extract(a), Extract(Extract(a).rest + more));
  }

  /** However the body is cut up, the same events come out as from one single feed. */
  lemma {:induction false} FragmentationInvariance(start: Extraction, fragments: seq<Bytes>)
    requires Absent(LFLF, start.rest)
    ensures ExtractAll(start, fragments) == Then(start, Extract(start.rest + Flatten(fragments)))
    decreases |fragments|
  {
    if fragments == [] {
      assert start.rest + [] == start.rest;
      assert start.events + [] == start.events;
    } else {
      RestHasNoEvent(start.rest + fragments[0]);
      FragmentationInvariance(Then(start, Extract(start.rest + fragments[0])), fragments[1..]);
      OneFragment(start, start.rest + fragments[0], Flatten(fragments[1..]));
      RegroupBytes(start.rest, fragments[0], Flatten(fragments[1..]));
    }
  }

  // ----- What can come out, and what goes through unchanged

  /** The payloads that survive framing: not dropped, not the sentinel, and with no blank line
      inside or across their end. */
  predicate Survives(event: Bytes) {
    event != [] && event != DONE_PAYLOAD && FindSubslice(event, LFLF).None? && event[|event| - 1] != LF
  }

  /** `raw` is ended by the first blank line behind it. */
  ghost predicate EndsAtBlankLine(raw: Bytes) { FirstAt(LFLF, raw + LFLF, |raw|) }

  lemma BlankLineAfter(raw: Bytes)
    ensures EndsAtBlankLine(raw) <==> Absent(LFLF, raw) && (raw == [] || raw[|raw| - 1] != LF)
  {
    assert OccursAt(LFLF, raw + LFLF, |raw|);
    forall p: nat | p + 2 <= |raw|
      ensures OccursAt(LFLF, raw + LFLF, p) <==> OccursAt(LFLF, raw, p)
    {
      OccursInExtension(LFLF, raw, LFLF, p);
    }
    if raw != [] {
      var p := |raw| - 1;
      assert (raw + LFLF)[p..p + 2] == [raw[p], LF];
      assert [raw[p], LF][0] == raw[p] && LFLF[0] == LF;
      assert OccursAt(LFLF, raw + LFLF, p) <==> raw[p] == LF;
    }
  }

  lemma SuffixInherits(prefix: Bytes, event: Bytes)
    requires Absent(LFLF, prefix + event)
    ensures Absent(LFLF, event)
  {
    forall p: nat | p + 2 <= |event|
      ensures !OccursAt(LFLF, event, p)
    {
      assert (prefix + event)[|prefix| + p..|prefix| + p + 2] == event[p..p + 2];
      assert !OccursAt(LFLF, prefix + event, |prefix| + p);
    }
  }

  lemma PrefixedInherits(event: Bytes)
    requires Absent(LFLF, event)
    ensures Absent(LFLF, DATA_PREFIX + event)
  {
    var raw := DATA_PREFIX + event;
    forall p: nat | p + 2 <= |raw|
      ensures !OccursAt(LFLF, raw, p)
    {
      assert raw[p..p + 2][0] == raw[p];
      if p >= |DATA_PREFIX| {
        assert raw[p..p + 2] == event[p - |DATA_PREFIX|..p - |DATA_PREFIX| + 2];
        assert !OccursAt(LFLF, event, p - |DATA_PREFIX|);
      }
    }
  }

  /** Whatever the input, every event that is ever returned is one that survives framing. */
  lemma {:induction false} OnlySurvivorsComeOut(buf: Bytes)
    ensures forall event :: event in Extract(buf).events ==> Survives(event)
    decreases |buf|
  {
    var found := FindSubslice(buf, LFLF);
    if found.Some? {
      OnlySurvivorsComeOut(buf[found.value + 2..]);
      RawEvent(buf, found.value);
      ContributesSurvivors(buf[..found.value]);
    }
  }

  lemma ContributesSurvivors(raw: Bytes)
    requires EndsAtBlankLine(raw)
    ensures forall event :: event in Contribution(StripDataPrefix(raw)) ==> Survives(event)
  {
    BlankLineAfter(raw);
    var payload := StripDataPrefix(raw);
    var prefix := if DATA_PREFIX <= raw then DATA_PREFIX else [];
    assert raw == prefix + payload;
    SuffixInherits(prefix, payload);
  }

  lemma RawEvent(buf: Bytes, boundary: nat)
    requires FindSubslice(buf, LFLF) == Some(boundary)
    ensures EndsAtBlankLine(buf[..boundary])
  {
    var raw := buf[..boundary];
    assert OccursAt(LFLF, buf, boundary);
    assert raw + LFLF == buf[..boundary + 2];
    forall p: nat | p < boundary
      ensures !OccursAt(LFLF, raw + LFLF, p)
    {
      assert (raw + LFLF)[p..p + 2] == buf[p..p + 2];
      assert !OccursAt(LFLF, buf, p);
    }
  }

  /** A raw event in front, whatever follows. */
  lemma ExtractsRaw(raw: Bytes, rest: Bytes)
    requires EndsAtBlankLine(raw)
    ensures Extract(raw + LFLF + rest)
         == Then(Taken(StripDataPrefix(raw)), Extract(rest))
  {
    FindsFirst(raw + LFLF, LFLF, |raw|);
    FindStable(raw + LFLF, LFLF, rest);
    assert (raw + LFLF + rest)[..|raw|] == raw;
    assert (raw + LFLF + rest)[|raw| + 2..] == rest;
  }

  lemma ExtractsEvent(event: Bytes, rest: Bytes)
    requires Survives(event)
    ensures Extract(DATA_PREFIX + event + LFLF + rest) == Then(Extraction([event], false, []), Extract(rest))
  {
    PrefixedInherits(event);
    BlankLineAfter(DATA_PREFIX + event);
    ExtractsRaw(DATA_PREFIX + event, rest);
  }

  lemma ExtractsDone(rest: Bytes)
    ensures Extract(DATA_PREFIX + DONE_PAYLOAD + LFLF + rest) == Then(Extraction([], true, []), Extract(rest))
  {
    assert forall p: nat :: p < 6 ==> DONE_PAYLOAD[p] != LF;
    assert Absent(LFLF, DONE_PAYLOAD) by {
      forall p: nat | p + 2 <= |DONE_PAYLOAD|
        ensures !OccursAt(LFLF, DONE_PAYLOAD, p)
      {
        assert DONE_PAYLOAD[p..p + 2][0] == DONE_PAYLOAD[p];
      }
    }
    PrefixedInherits(DONE_PAYLOAD);
    BlankLineAfter(DATA_PREFIX + DONE_PAYLOAD);
    ExtractsRaw(DATA_PREFIX + DONE_PAYLOAD, rest);
  }

  // ----- Every byte is accounted for

  function RawStream(raws: seq<Bytes>): Bytes {
    if raws == [] then [] else raws[0] + LFLF + RawStream(raws[1..])
  }

  function Payloads(raws: seq<Bytes>): (payloads: seq<Bytes>)
    ensures |payloads| == |raws|
  {
    seq(|raws|, i requires 0 <= i < |raws| => StripDataPrefix(raws[i]))
  }

  /** The payloads that are neither empty nor the sentinel. */
  function Kept(payloads: seq<Bytes>): seq<Bytes> {
    if payloads == [] then [] else Contribution(payloads[0]) + Kept(payloads[1..])
  }

  /** `buf` is raw events, each ended by its first blank line, and then a rest without one. */
  ghost predicate Accounts(buf: Bytes, raws: seq<Bytes>, e: Extraction) {
    && (forall raw :: raw in raws ==> EndsAtBlankLine(raw))
    && buf == RawStream(raws) + e.rest && Absent(LFLF, e.rest)
    && e.events == Kept(Payloads(raws))
    && (e.done <==> DONE_PAYLOAD in Payloads(raws))
  }

  lemma OneMoreRaw(raw: Bytes, raws: seq<Bytes>, buf: Bytes, e: Extraction)
    requires EndsAtBlankLine(raw) && Accounts(buf, raws, e)
    ensures Accounts(raw + LFLF + buf, [raw] + raws, Then(Taken(StripDataPrefix(raw)), e))
  {
    var all := [raw] + raws;
    assert all[1..] == raws;
    assert Payloads(all) == [StripDataPrefix(raw)] + Payloads(raws);
    RegroupBytes(raw + LFLF, RawStream(raws), e.rest);
  }

  /** Everything received has such an account. */
  lemma {:induction false} ExtractAccounts(buf: Bytes) returns (raws: seq<Bytes>)
    ensures Accounts(buf, raws, Extract(buf))
    decreases |buf|
  {
    var found := FindSubslice(buf, LFLF);
    if found.None? {
      raws := [];
      assert [] + buf == buf;
    } else {
      var raw, rest := buf[..found.value], buf[found.value + 2..];
      RawEvent(buf, found.value);
      raws := ExtractAccounts(rest);
      OneMoreRaw(raw, raws, rest, Extract(rest));
      TakesFirst(buf, found.value);
      SplitsAt(buf, found.value);
      raws := [raw] + raws;
    }
  }

  lemma SplitsAt(buf: Bytes, boundary: nat)
    requires FindSubslice(buf, LFLF) == Some(boundary)
    ensures buf == buf[..boundary] + LFLF + buf[boundary + 2..]
  {
    assert OccursAt(LFLF, buf, boundary);
  }

  /** An account determines the events, the flag and the rest. */
  lemma {:induction false} AccountDetermines(buf: Bytes, raws: seq<Bytes>, e: Extraction)
    requires Accounts(buf, raws, e)
    ensures Extract(buf) == e
    decreases |raws|
  {
    if raws == [] {
      assert [] + e.rest == e.rest;
    } else {
      var raw, more := raws[0], raws[1..];
      var rest := RawStream(more) + e.rest;
      var tail := Extraction(Kept(Payloads(more)), DONE_PAYLOAD in Payloads(more), e.rest);
      AccountDetermines(rest, more, tail);
      ExtractsRaw(raw, rest);
      RegroupBytes(raw + LFLF, RawStream(more), e.rest);
      PayloadsUnfold(raws);
    }
  }

  lemma PayloadsUnfold(raws: seq<Bytes>)
    requires raws != []
    ensures Payloads(raws) == [StripDataPrefix(raws[0])] + Payloads(raws[1..])
    ensures Kept(Payloads(raws)) == Contribution(StripDataPrefix(raws[0])) + Kept(Payloads(raws[1..]))
  {
    assert Payloads(raws)[1..] == Payloads(raws[1..]);
  }

  /** Fed in any fragments, the reassembler has returned these events, has this flag and keeps this
      rest exactly when the bytes received can be accounted for so. */
  lemma ReturnsExactlyItsAccount(fragments: seq<Bytes>, e: Extraction)
    ensures ExtractAll(Extraction([], false, []), fragments) == e
       <==> exists raws :: Accounts(Flatten(fragments), raws, e)
  {
    var buf := Flatten(fragments);
    FragmentationInvariance(Extraction([], false, []), fragments);
    assert [] + buf == buf && [] + Extract(buf).events == Extract(buf).events;
    if Extract(buf) == e {
      var raws := ExtractAccounts(buf);
    }
    forall raws | Accounts(buf, raws, e)
      ensures Extract(buf) == e
    {
      AccountDetermines(buf, raws, e);
    }
  }
}
