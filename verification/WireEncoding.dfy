/** The encoder of tap_reader/src/reassembly.rs and the round trips through both decoders. */
module WireEncoding {
  import opened ByteStrings
  import opened SizeLine
  import Chunked
  import Sse

  /** One event as it stands in the body. */
  function Framed(event: Bytes): Bytes { Sse.DATA_PREFIX + event + LFLF }

  /** The chunk that carries `data`. */
  function AsChunk(data: Bytes): Chunked.Chunk { Chunked.Chunk(ToHex(|data|), data, CRLF) }

  /** All chunks that are sent before the terminating one. */
  function Chunks(events: seq<Bytes>): seq<Chunked.Chunk> {
    if events == [] then [AsChunk(Framed(Sse.DONE_PAYLOAD))]
    else [AsChunk(Framed(events[0]))] + Chunks(events[1..])
  }

  /** The body that the chunks carry. */
  function Body(events: seq<Bytes>): Bytes {
    if events == [] then Framed(Sse.DONE_PAYLOAD) else Framed(events[0]) + Body(events[1..])
  }

  const LAST_LINE: Bytes := [0x30]

  function Encoding(events: seq<Bytes>): Bytes {
    Chunked.OnWire(Chunks(events)) + (LAST_LINE + CRLF + CRLF)
  }

  /** Every framed event has a length that a 64-bit `usize` can hold; any buffer does. */
  predicate Fits(events: seq<Bytes>) {
    forall event :: event in events ==> |Framed(event)| < USIZE_LIMIT
  }

  method EncodeChunkedSse(events: seq<Bytes>) returns (out: Bytes)
    ensures out == Encoding(events)
  {
    out := [];
    for i := 0 to |events|
      invariant out + Chunked.OnWire(Chunks(events[i..])) == Chunked.OnWire(Chunks(events))
    {
      var eventBytes := Sse.DATA_PREFIX;
      eventBytes := eventBytes + events[i];
      eventBytes := eventBytes + LFLF;
      AppendsEvent(out, events, i);
      out := out + ToHex(|eventBytes|) + CRLF;
      out := out + eventBytes;
      out := out + CRLF;
    }
    var done := Framed(Sse.DONE_PAYLOAD);
    ghost var before := out;
    out := out + ToHex(|done|) + CRLF;
    out := out + done;
    out := out + CRLF;
    MovesChunk(before, AsChunk(done), []);
    out := out + LAST_LINE + CRLF + CRLF;
    assert out == Chunked.OnWire(Chunks(events)) + (LAST_LINE + CRLF + CRLF);
  }

  lemma AppendsEvent(out: Bytes, events: seq<Bytes>, i: nat)
    requires i < |events|
    ensures out + Chunked.OnWire(Chunks(events[i..]))
         == out + ToHex(|Framed(events[i])|) + CRLF + Framed(events[i]) + CRLF
            + Chunked.OnWire(Chunks(events[i + 1..]))
  {
    assert events[i..][1..] == events[i + 1..];
    MovesChunk(out, AsChunk(Framed(events[i])), Chunks(events[i + 1..]));
  }

  lemma MovesChunk(out: Bytes, c: Chunked.Chunk, more: seq<Chunked.Chunk>)
    ensures out + Chunked.OnWire([c] + more) == out + c.line + CRLF + c.data + c.trailer + Chunked.OnWire(more)
  {
    assert ([c] + more)[1..] == more;
  }

  lemma CarriesChunk(data: Bytes)
    requires 0 < |data| < USIZE_LIMIT
    ensures Chunked.WellFormed(AsChunk(data))
  {
    SizeLineRoundTrip(|data|, []);
    assert ToHex(|data|) + [] == ToHex(|data|);
    HexIsLine(ToHex(|data|));
  }

  lemma HexIsLine(line: Bytes)
    requires forall i :: 0 <= i < |line| ==> line[i] != CR
    ensures Chunked.IsLine(line)
  {
    var buf := line + CRLF;
    assert OccursAt(CRLF, buf, |line|);
    forall p: nat | p < |line|
      ensures !OccursAt(CRLF, buf, p)
    {
      assert buf[p..p + 2][0] == line[p];
    }
  }

  lemma {:induction false} ChunksCarryBody(events: seq<Bytes>)
    requires Fits(events)
    ensures forall c :: c in Chunks(events) ==> Chunked.WellFormed(c)
    ensures Chunked.BodyOf(Chunks(events)) == Body(events)
  {
    if events == [] {
      CarriesChunk(Framed(Sse.DONE_PAYLOAD));
      assert Chunked.BodyOf(Chunks(events)) == Framed(Sse.DONE_PAYLOAD) + [];
    } else {
      ChunksCarryBody(events[1..]);
      CarriesChunk(Framed(events[0]));
      Chunked.Prepended(AsChunk(Framed(events[0])), Chunks(events[1..]), []);
    }
  }

  /** Chunked decoding undoes the encoder's chunking; the CRLF behind the terminating size line is
      left pending, because the decoder stops at that line. */
  lemma ChunkingRoundTrip(events: seq<Bytes>)
    requires Fits(events)
    ensures Chunked.Fed(Chunked.START, Encoding(events)) == Chunked.Progress(Chunked.Done, CRLF, Body(events))
  {
    ChunksCarryBody(events);
    HexIsLine(LAST_LINE);
    SizeLineRoundTrip(0, []);
    assert LAST_LINE + [] == LAST_LINE == ToHex(0);
    Chunked.CompleteMessage(Encoding(events), Chunks(events), LAST_LINE, CRLF);
    assert Chunked.START.pending + Encoding(events) == Encoding(events);
    assert Chunked.START.decoded + Body(events) == Body(events);
  }

  lemma {:induction false} SurvivorsRoundTrip(events: seq<Bytes>)
    requires forall event :: event in events ==> Sse.Survives(event)
    ensures Sse.Extract(Body(events)) == Sse.Extraction(events, true, [])
  {
    if events == [] {
      Sse.ExtractsDone([]);
      assert Framed(Sse.DONE_PAYLOAD) + [] == Body(events);
    } else {
      SurvivorsRoundTrip(events[1..]);
      Sse.ExtractsEvent(events[0], Body(events[1..]));
    }
  }

  /** The events that come back are the events that were sent, with `done` set and nothing left
      over, exactly when every single event survives framing. */
  lemma FramingRoundTrip(events: seq<Bytes>)
    ensures Sse.Extract(Body(events)) == Sse.Extraction(events, true, [])
       <==> forall event :: event in events ==> Sse.Survives(event)
    ensures Sse.Extract(Body(events)).events == events
       <==> forall event :: event in events ==> Sse.Survives(event)
  {
    Sse.OnlySurvivorsComeOut(Body(events));
    if forall event :: event in events ==> Sse.Survives(event) {
      SurvivorsRoundTrip(events);
    }
  }

  // ----- The bytes on the wire

  lemma Ungroup(a: Bytes, p: Bytes, e: Bytes, l: Bytes, t: Bytes, rest: Bytes)
    ensures a + (p + e + l) + t + rest == a + p + e + l + t + rest
  {
    assert a + (p + e + l) == a + p + e + l;
  }

  lemma ChunkOnWire(event: Bytes, events: seq<Bytes>)
    ensures Encoding([event] + events)
         == ToHex(|Framed(event)|) + CRLF + Framed(event) + CRLF + Encoding(events)
  {
    var c, more := AsChunk(Framed(event)), Chunks(events);
    assert ([event] + events)[1..] == events;
    Chunked.Prepended(c, more, LAST_LINE + CRLF + CRLF);
  }

  /** Each event: the length of the framed event in hexadecimal, CR LF, `data: `, the event, LF LF and
      CR LF. */
  lemma EventOnWire(event: Bytes, events: seq<Bytes>, head: Bytes, prefix: Bytes, blank: Bytes, newline: Bytes)
    requires newline == [0x0d, 0x0a] && blank == [0x0a, 0x0a] && prefix == [0x64, 0x61, 0x74, 0x61, 0x3a, 0x20]
    requires head == ToHex(|event| + 8) + newline
    ensures Encoding([event] + events) == head + prefix + event + blank + newline + Encoding(events)
  {
    ChunkOnWire(event, events);
    Ungroup(head, prefix, event, blank, newline, Encoding(events));
  }

  /** The end: a chunk of fourteen bytes with the sentinel, and the chunk of length zero. */
  lemma EndOnWire()
    ensures Encoding([])
         == [0x65, 0x0d, 0x0a]
            + [0x64, 0x61, 0x74, 0x61, 0x3a, 0x20, 0x5b, 0x44, 0x4f, 0x4e, 0x45, 0x5d, 0x0a, 0x0a, 0x0d, 0x0a]
            + [0x30, 0x0d, 0x0a, 0x0d, 0x0a]
  {
    var c := AsChunk(Framed(Sse.DONE_PAYLOAD));
    assert |Framed(Sse.DONE_PAYLOAD)| == 14;
    assert c.line == [0x65];
    assert Chunked.OnWire([c]) == c.line + CRLF + c.data + c.trailer;
  }
}
