/** The incremental decoder of HTTP chunked transfer coding (tap_reader/src/reassembly.rs), its
    specification as a function of everything received so far, and the grammar it accepts. */
module Chunked {
  import opened ByteStrings
  import opened SizeLine

  /** `Failed` stands for the panic of a malformed size line and absorbs everything after it. */
  datatype ChunkState =
    | ReadingSize
    | ReadingData(remaining: nat)
    | ReadingDataTrailer
    | Done
    | Failed

  datatype Progress = Progress(state: ChunkState, pending: Bytes, decoded: Bytes)

  const START := Progress(ReadingSize, [], [])

  predicate ValidState(state: ChunkState) {
    state.ReadingData? ==> state.remaining > 0
  }

  function After(decoded: Bytes, rest: Progress): Progress {
    rest.(decoded := decoded + rest.decoded)
  }

  /** What is reached from `state` once no more of `buf` can be used. */
  function Run(state: ChunkState, buf: Bytes): (r: Progress)
    requires ValidState(state)
    ensures ValidState(r.state)
    decreases |buf|
  {
    match state
    case Done => Progress(Done, buf, [])
    case Failed => Progress(Failed, buf, [])
    case ReadingSize =>
      (match FindSubslice(buf, CRLF)
       case None => Progress(ReadingSize, buf, [])
       case Some(pos) =>
         match ParseSizeLine(buf[..pos])
         case None => Progress(Failed, buf, [])
         case Some(size) => Run(if size == 0 then Done else ReadingData(size), buf[pos + 2..]))
    case ReadingData(remaining) =>
      if |buf| < remaining then Progress(ReadingData(remaining - |buf|), [], buf)
      else After(buf[..remaining], Run(ReadingDataTrailer, buf[remaining..]))
    case ReadingDataTrailer =>
      if |buf| < 2 then Progress(ReadingDataTrailer, buf, [])
      else Run(ReadingSize, buf[2..])
  }

  /** One call of `feed`. */
  function Fed(p: Progress, input: Bytes): (r: Progress)
    requires ValidState(p.state)
    ensures ValidState(r.state)
  {
    After(p.decoded, Run(p.state, p.pending + input))
  }

  function FedAll(p: Progress, fragments: seq<Bytes>): (r: Progress)
    requires ValidState(p.state)
    decreases |fragments|
  {
    if fragments == [] then p else FedAll(Fed(p, fragments[0]), fragments[1..])
  }

  /** Nothing more can be done with what is pending. */
  predicate Settled(p: Progress) {
    ValidState(p.state) && Run(p.state, p.pending) == Progress(p.state, p.pending, [])
  }

  class ChunkedDecoder {
    var state: ChunkState
    var pending: Bytes
    var cursor: nat
    var decoded: Bytes

    ghost predicate Valid()
      reads this
    {
      cursor == 0 && Settled(View())
    }

    ghost function View(): Progress
      reads this
    {
      Progress(state, pending, decoded)
    }

    constructor ()
      ensures Valid() && View() == START
    {
      state, pending, cursor, decoded := ReadingSize, [], 0, [];
    }

    /** What has been decoded, with all that can still be made of the bytes behind the cursor. */
    ghost function Outcome(): Progress
      requires cursor <= |pending| && ValidState(state)
      reads this
    {
      After(decoded, Run(state, pending[cursor..]))
    }

    method Feed(input: Bytes)
      requires Valid()
      modifies this
      ensures Valid()
      ensures View() == Fed(old(View()), input)
    {
      pending := pending + input;
      ghost var goal := Outcome();
      var more := true;
      while more
        invariant cursor <= |pending| && ValidState(state)
        invariant Outcome() == goal
        invariant !more ==> Outcome() == Progress(state, pending[cursor..], decoded)
        decreases more, |pending| - cursor
      {
        more := Step();
      }
      RunSettles(old(state), old(pending) + input);
      if cursor > 0 {
        pending := pending[cursor..];
        cursor := 0;
      }
    }

    /** One turn of the loop of `Feed`; false when it breaks. */
    method Step() returns (more: bool)
      requires cursor <= |pending| && ValidState(state)
      modifies this`state, this`cursor, this`decoded
      ensures cursor <= |pending| && ValidState(state)
      ensures more ==> cursor > old(cursor)
      ensures Outcome() == old(Outcome())
      ensures !more ==> Outcome() == Progress(state, pending[cursor..], decoded)
    {
      var buf := pending[cursor..];
      match state
      case Done => more := false;
      case Failed => more := false;
      case ReadingSize =>
        more := ReadSize(buf);
      case ReadingData(remaining) =>
        more := ReadData(buf, remaining);
      case ReadingDataTrailer =>
        if |buf| < 2 { return false; }
        RunsTrailer(pending, cursor);
        cursor := cursor + 2;
        state := ReadingSize;
        more := true;
    }

    method ReadSize(buf: Bytes) returns (more: bool)
      requires cursor <= |pending| && buf == pending[cursor..] && state == ReadingSize
      modifies this`state, this`cursor
      ensures cursor <= |pending| && ValidState(state)
      ensures more ==> cursor > old(cursor)
      ensures Outcome() == old(Outcome())
      ensures !more ==> Outcome() == Progress(state, pending[cursor..], decoded)
    {
      var pos := FindSubslice(buf, CRLF);
      if pos.None? { return false; }
      var size := ParseSizeLine(buf[..pos.value]);
      if size.None? {
        state := Failed;
        return false;
      }
      RunsSize(pending, cursor, pos.value);
      cursor := cursor + pos.value + 2;
      state := if size.value == 0 then Done else ReadingData(size.value);
      more := true;
    }

    method ReadData(buf: Bytes, remaining: nat) returns (more: bool)
      requires cursor <= |pending| && buf == pending[cursor..] && state == ReadingData(remaining) && remaining > 0
      modifies this`state, this`cursor, this`decoded
      ensures cursor <= |pending| && ValidState(state)
      ensures more ==> cursor > old(cursor)
      ensures Outcome() == old(Outcome())
      ensures !more ==> Outcome() == Progress(state, pending[cursor..], decoded)
    {
      if |buf| < remaining {
        decoded := decoded + buf;
        cursor := cursor + |buf|;
        state := ReadingData(remaining - |buf|);
        return false;
      }
      RunsChunk(pending, cursor, remaining, decoded);
      decoded := decoded + buf[..remaining];
      cursor := cursor + remaining;
      state := ReadingDataTrailer;
      more := true;
    }

    method IsDone() returns (done: bool)
      ensures done <==> state == Done
    {
      done := state == Done;
    }
  }

  lemma RunsSize(pending: Bytes, cursor: nat, pos: nat)
    requires cursor <= |pending| && FindSubslice(pending[cursor..], CRLF) == Some(pos)
    requires ParseSizeLine(pending[cursor..][..pos]).Some?
    ensures cursor + pos + 2 <= |pending|
    ensures Run(ReadingSize, pending[cursor..])
         == var size := ParseSizeLine(pending[cursor..][..pos]).value;
            Run(if size == 0 then Done else ReadingData(size), pending[cursor + pos + 2..])
  {
    assert pending[cursor..][pos + 2..] == pending[cursor + pos + 2..];
  }

  lemma RunsChunk(pending: Bytes, cursor: nat, remaining: nat, decoded: Bytes)
    requires 0 < remaining && cursor + remaining <= |pending|
    ensures After(decoded, Run(ReadingData(remaining), pending[cursor..]))
         == After(decoded + pending[cursor..][..remaining], Run(ReadingDataTrailer, pending[cursor + remaining..]))
  {
    var buf := pending[cursor..];
    assert buf[remaining..] == pending[cursor + remaining..];
    Regroup(decoded, buf[..remaining], Run(ReadingDataTrailer, buf[remaining..]));
  }

  lemma RunsTrailer(pending: Bytes, cursor: nat)
    requires cursor + 2 <= |pending|
    ensures Run(ReadingDataTrailer, pending[cursor..]) == Run(ReadingSize, pending[cursor + 2..])
  {
    assert pending[cursor..][2..] == pending[cursor + 2..];
  }

  lemma Regroup(a: Bytes, b: Bytes, p: Progress)
    ensures After(a, After(b, p)) == After(a + b, p)
  {
    assert a + (b + p.decoded) == (a + b) + p.decoded;
  }

  lemma {:induction false} RunSettles(state: ChunkState, buf: Bytes)
    requires ValidState(state)
    ensures Settled(Run(state, buf))
    decreases |buf|
  {
    match state
    case Done =>
    case Failed =>
    case ReadingSize =>
      var pos := FindSubslice(buf, CRLF);
      if pos.Some? {
        var size := ParseSizeLine(buf[..pos.value]);
        if size.Some? {
          RunSettles(if size.value == 0 then Done else ReadingData(size.value), buf[pos.value + 2..]);
        }
      }
    case ReadingData(remaining) =>
      if |buf| >= remaining { RunSettles(ReadingDataTrailer, buf[remaining..]); }
    case ReadingDataTrailer =>
      if |buf| >= 2 { RunSettles(ReadingSize, buf[2..]); }
  }

  // ----- Fragmentation invariance

  /** Running on everything at once, or on a first part and then on what it left plus the rest. */
  lemma {:induction false} RunInTwoParts(state: ChunkState, buf: Bytes, more: Bytes)
    requires ValidState(state)
    ensures Run(state, buf + more)
         == var first := Run(state, buf); After(first.decoded, Run(first.state, first.pending + more))
    decreases |buf|
  {
    match state
    case Done =>
    case Failed =>
    case ReadingSize =>
      var pos := FindSubslice(buf, CRLF);
      if pos.Some? {
        LineInExtension(buf, more, pos.value);
        var size := ParseSizeLine(buf[..pos.value]);
        if size.Some? {
          RunInTwoParts(if size.value == 0 then Done else ReadingData(size.value), buf[pos.value + 2..], more);
        }
      }
    case ReadingData(remaining) =>
      if |buf| < remaining {
        DataInTwoParts(remaining, buf, more);
        assert Run(state, buf).pending + more == more;
      } else {
        RunInTwoParts(ReadingDataTrailer, buf[remaining..], more);
        WholeDataInTwoParts(remaining, buf, more);
      }
    case ReadingDataTrailer =>
      if |buf| >= 2 {
        assert (buf + more)[2..] == buf[2..] + more;
        RunInTwoParts(ReadingSize, buf[2..], more);
      }
  }

  lemma LineInExtension(buf: Bytes, more: Bytes, pos: nat)
    requires FindSubslice(buf, CRLF) == Some(pos)
    ensures FindSubslice(buf + more, CRLF) == Some(pos)
    ensures (buf + more)[..pos] == buf[..pos] && (buf + more)[pos + 2..] == buf[pos + 2..] + more
  {
    FindStable(buf, CRLF, more);
  }

  lemma WholeDataInTwoParts(remaining: nat, buf: Bytes, more: Bytes)
    requires 0 < remaining <= |buf|
    requires Run(ReadingDataTrailer, buf[remaining..] + more)
          == var first := Run(ReadingDataTrailer, buf[remaining..]);
             After(first.decoded, Run(first.state, first.pending + more))
    ensures Run(ReadingData(remaining), buf + more)
         == var first := Run(ReadingData(remaining), buf); After(first.decoded, Run(first.state, first.pending + more))
  {
    RunsWholeData(remaining, buf, more);
    var first := Run(ReadingDataTrailer, buf[remaining..]);
    Regroup(buf[..remaining], first.decoded, Run(first.state, first.pending + more));
  }

  lemma RunsWholeData(remaining: nat, buf: Bytes, more: Bytes)
    requires 0 < remaining <= |buf|
    ensures Run(ReadingData(remaining), buf) == After(buf[..remaining], Run(ReadingDataTrailer, buf[remaining..]))
    ensures Run(ReadingData(remaining), buf + more)
         == After(buf[..remaining], Run(ReadingDataTrailer, buf[remaining..] + more))
  {
    assert (buf + more)[..remaining] == buf[..remaining];
    assert (buf + more)[remaining..] == buf[remaining..] + more;
  }

  lemma DataInTwoParts(remaining: nat, buf: Bytes, more: Bytes)
    requires |buf| < remaining
    ensures Run(ReadingData(remaining), buf + more) == After(buf, Run(ReadingData(remaining - |buf|), more))
  {
    if |buf + more| >= remaining {
      var k := remaining - |buf|;
      assert (buf + more)[..remaining] == buf + more[..k];
      assert (buf + more)[remaining..] == more[k..];
      Regroup(buf, more[..k], Run(ReadingDataTrailer, more[k..]));
    }
  }

  /** Two consecutive feeds leave exactly what one feed of the concatenation leaves. */
  lemma FeedTwice(p: Progress, a: Bytes, b: Bytes)
    requires ValidState(p.state)
    ensures Fed(Fed(p, a), b) == Fed(p, a + b)
  {
    var first := Run(p.state, p.pending + a);
    assert p.pending + (a + b) == (p.pending + a) + b;
    RunInTwoParts(p.state, p.pending + a, b);
    Regroup(p.decoded, first.decoded, Run(first.state, first.pending + b));
  }

  /** No fragmentation of the input can be told from one single feed of all of it. */
  lemma {:induction false} FragmentationInvariance(p: Progress, fragments: seq<Bytes>)
    requires Settled(p)
    ensures FedAll(p, fragments) == Fed(p, Flatten(fragments))
    decreases |fragments|
  {
    if fragments == [] {
      assert p.pending + [] == p.pending;
      assert p.decoded + [] == p.decoded;
    } else {
      RunSettles(p.state, p.pending + fragments[0]);
      FragmentationInvariance(Fed(p, fragments[0]), fragments[1..]);
      FeedTwice(p, fragments[0], Flatten(fragments[1..]));
    }
  }

  // ----- The grammar

  /** One chunk as it stands on the wire. The decoder never looks at the two trailer bytes. */
  datatype Chunk = Chunk(line: Bytes, data: Bytes, trailer: Bytes)

  /** A line ends at its first CRLF. */
  ghost predicate IsLine(line: Bytes) { FirstAt(CRLF, line + CRLF, |line|) }

  ghost predicate WellFormed(c: Chunk) {
    IsLine(c.line) && c.data != [] && |c.trailer| == 2 && ParseSizeLine(c.line) == Some(|c.data|)
  }

  ghost predicate IsLastLine(line: Bytes) { IsLine(line) && ParseSizeLine(line) == Some(0) }

  function OnWire(chunks: seq<Chunk>): Bytes {
    if chunks == [] then []
    else chunks[0].line + CRLF + chunks[0].data + chunks[0].trailer + OnWire(chunks[1..])
  }

  function BodyOf(chunks: seq<Chunk>): Bytes {
    if chunks == [] then [] else chunks[0].data + BodyOf(chunks[1..])
  }

  lemma LineIsFound(line: Bytes, rest: Bytes)
    requires IsLine(line)
    ensures FindSubslice(line + CRLF + rest, CRLF) == Some(|line|)
    ensures (line + CRLF + rest)[..|line|] == line && (line + CRLF + rest)[|line| + 2..] == rest
  {
    FindsFirst(line + CRLF, CRLF, |line|);
    FindStable(line + CRLF, CRLF, rest);
  }

  lemma RunsLine(line: Bytes, rest: Bytes)
    requires IsLine(line) && ParseSizeLine(line).Some?
    ensures Run(ReadingSize, line + CRLF + rest)
         == var size := ParseSizeLine(line).value; Run(if size == 0 then Done else ReadingData(size), rest)
  {
    LineIsFound(line, rest);
  }

  lemma RunsData(data: Bytes, trailer: Bytes, rest: Bytes)
    requires data != [] && |trailer| == 2
    ensures Run(ReadingData(|data|), data + trailer + rest) == After(data, Run(ReadingSize, rest))
  {
    var buf := data + trailer + rest;
    assert buf[..|data|] == data;
    assert buf[|data|..] == trailer + rest;
    assert (trailer + rest)[2..] == rest;
    assert Run(ReadingDataTrailer, trailer + rest) == Run(ReadingSize, rest);
  }

  lemma OneChunk(c: Chunk, rest: Bytes)
    requires WellFormed(c)
    ensures Run(ReadingSize, c.line + CRLF + c.data + c.trailer + rest) == After(c.data, Run(ReadingSize, rest))
  {
    var tail := c.data + c.trailer + rest;
    assert c.line + CRLF + c.data + c.trailer + rest == c.line + CRLF + tail;
    RunsLine(c.line, tail);
    RunsData(c.data, c.trailer, rest);
  }

  /** Completeness: chunks in front are decoded, whatever follows. */
  lemma {:induction false} DecodesChunks(chunks: seq<Chunk>, rest: Bytes)
    requires forall c :: c in chunks ==> WellFormed(c)
    ensures Run(ReadingSize, OnWire(chunks) + rest) == After(BodyOf(chunks), Run(ReadingSize, rest))
  {
    if chunks == [] {
      assert OnWire(chunks) + rest == rest;
    } else {
      var c := chunks[0];
      var tail := OnWire(chunks[1..]) + rest;
      assert OnWire(chunks) + rest == c.line + CRLF + c.data + c.trailer + tail;
      OneChunk(c, tail);
      DecodesChunks(chunks[1..], rest);
      Regroup(c.data, BodyOf(chunks[1..]), Run(ReadingSize, rest));
    }
  }

  // ----- Every byte is accounted for in every state

  /** The part of an unfinished chunk that has been consumed. */
  function Begun(line: Bytes, data: Bytes, state: ChunkState): Bytes {
    if state.ReadingSize? || state.Failed? then [] else line + CRLF + data
  }

  /** Where inside a chunk each state stops: before its size line is complete, inside its data, before
      both trailer bytes are there, behind a size line of zero, or in front of a malformed size line. */
  ghost predicate StopsIn(line: Bytes, data: Bytes, state: ChunkState, pending: Bytes) {
    match state
    case ReadingSize => line == data == [] && Absent(CRLF, pending)
    case ReadingData(remaining) =>
      IsLine(line) && remaining > 0 && ParseSizeLine(line) == Some(|data| + remaining) && pending == []
    case ReadingDataTrailer => IsLine(line) && data != [] && ParseSizeLine(line) == Some(|data|) && |pending| < 2
    case Done => IsLastLine(line) && data == []
    case Failed => IsLine(line) && ParseSizeLine(line).None? && data == [] && line + CRLF <= pending
  }

  /** `wire` is whole chunks, then the consumed part of one more, then what is pending; what has been
      decoded is the data of all of these. */
  ghost predicate Accounts(wire: Bytes, chunks: seq<Chunk>, line: Bytes, data: Bytes, p: Progress) {
    && (forall c :: c in chunks ==> WellFormed(c))
    && wire == OnWire(chunks) + (Begun(line, data, p.state) + p.pending)
    && p.decoded == BodyOf(chunks) + data
    && StopsIn(line, data, p.state, p.pending)
  }

  lemma SplitLine(buf: Bytes, pos: nat)
    requires FindSubslice(buf, CRLF) == Some(pos)
    ensures buf == buf[..pos] + CRLF + buf[pos + 2..] && IsLine(buf[..pos])
  {
    var line := buf[..pos];
    assert OccursAt(CRLF, buf, pos);
    assert buf == line + CRLF + buf[pos + 2..];
    assert line + CRLF == buf[..pos + 2];
    forall p: nat | p < pos
      ensures !OccursAt(CRLF, line + CRLF, p)
    {
      assert (line + CRLF)[p..p + 2] == buf[p..p + 2];
      assert !OccursAt(CRLF, buf, p);
    }
    assert OccursAt(CRLF, line + CRLF, pos);
  }

  lemma CutChunk(line: Bytes, size: nat, tail: Bytes) returns (c: Chunk, rest: Bytes)
    requires |tail| >= size + 2
    ensures c.line == line && |c.data| == size && |c.trailer| == 2
    ensures line + CRLF + tail == c.line + CRLF + c.data + c.trailer + rest
  {
    c, rest := Chunk(line, tail[..size], tail[size..size + 2]), tail[size + 2..];
    assert tail == c.data + c.trailer + rest;
  }

  lemma Prepended(c: Chunk, more: seq<Chunk>, final: Bytes)
    ensures OnWire([c] + more) + final == c.line + CRLF + c.data + c.trailer + (OnWire(more) + final)
    ensures BodyOf([c] + more) == c.data + BodyOf(more)
  {
    assert ([c] + more)[1..] == more;
  }

  /** The unfinished chunk alone. */
  lemma RunsUnfinished(line: Bytes, data: Bytes, state: ChunkState, pending: Bytes)
    requires StopsIn(line, data, state, pending)
    ensures Run(ReadingSize, Begun(line, data, state) + pending) == Progress(state, pending, data)
  {
    match state
    case ReadingSize => assert [] + pending == pending;
    case ReadingData(remaining) =>
      assert line + CRLF + data + pending == line + CRLF + data;
      RunsLine(line, data);
    case ReadingDataTrailer =>
      assert line + CRLF + data + pending == line + CRLF + (data + pending);
      RunsLine(line, data + pending);
      RunsToTrailer(data, pending);
    case Done =>
      assert line + CRLF + data + pending == line + CRLF + pending;
      RunsLine(line, pending);
    case Failed =>
      assert [] + pending == pending == line + CRLF + pending[|line| + 2..];
      LineIsFound(line, pending[|line| + 2..]);
  }

  lemma RunsToTrailer(data: Bytes, pending: Bytes)
    requires data != [] && |pending| < 2
    ensures Run(ReadingData(|data|), data + pending) == Progress(ReadingDataTrailer, pending, data)
  {
    assert (data + pending)[..|data|] == data && (data + pending)[|data|..] == pending;
    assert Run(ReadingDataTrailer, pending) == Progress(ReadingDataTrailer, pending, []);
    assert data + [] == data;
  }

  /** An account of the bytes received determines state, pending and decoded bytes. */
  lemma AccountDetermines(wire: Bytes, chunks: seq<Chunk>, line: Bytes, data: Bytes, p: Progress)
    requires Accounts(wire, chunks, line, data, p)
    ensures Run(ReadingSize, wire) == p
  {
    DecodesChunks(chunks, Begun(line, data, p.state) + p.pending);
    RunsUnfinished(line, data, p.state, p.pending);
  }

  /** An unfinished chunk alone is an account. */
  lemma AloneAccounts(wire: Bytes, line: Bytes, data: Bytes, state: ChunkState, pending: Bytes)
    requires wire == Begun(line, data, state) + pending && StopsIn(line, data, state, pending)
    ensures Accounts(wire, [], line, data, Progress(state, pending, data))
  {
    assert [] + wire == wire && [] + data == data;
  }

  /** A chunk that does not end inside `tail`. */
  lemma UnfinishedChunk(line: Bytes, size: nat, tail: Bytes) returns (data: Bytes, p: Progress)
    requires IsLine(line) && ParseSizeLine(line) == Some(size) && 0 < size && |tail| < size + 2
    ensures Accounts(line + CRLF + tail, [], line, data, p)
  {
    var state;
    data, state := if |tail| < size then tail else tail[..size],
                   if |tail| < size then ReadingData(size - |tail|) else ReadingDataTrailer;
    p := Progress(state, tail[|data|..], data);
    SplitBehind(line + CRLF, tail, |data|);
    AloneAccounts(line + CRLF + tail, line, data, state, p.pending);
  }

  lemma SplitBehind(front: Bytes, tail: Bytes, n: nat)
    requires n <= |tail|
    ensures front + tail == front + tail[..n] + tail[n..]
  {
    assert tail == tail[..n] + tail[n..];
  }

  /** No whole chunk in front. */
  lemma AccountsForStart(wire: Bytes, pos: Option<nat>) returns (line: Bytes, data: Bytes, p: Progress)
    requires pos == FindSubslice(wire, CRLF)
    requires pos.Some? && ParseSizeLine(wire[..pos.value]).Some? ==>
               var size := ParseSizeLine(wire[..pos.value]).value; size == 0 || |wire| < pos.value + size + 4
    ensures Accounts(wire, [], line, data, p)
  {
    line, data := [], [];
    if pos.None? {
      p := Progress(ReadingSize, wire, []);
      AloneAccounts(wire, line, data, ReadingSize, wire);
      return;
    }
    SplitLine(wire, pos.value);
    line := wire[..pos.value];
    var tail, size := wire[pos.value + 2..], ParseSizeLine(line);
    if size.None? {
      p := Progress(Failed, wire, []);
      AloneAccounts(wire, line, data, Failed, wire);
    } else if size.value == 0 {
      p := Progress(Done, tail, []);
      SplitBehind(line + CRLF, tail, 0);
      AloneAccounts(wire, line, data, Done, tail);
    } else {
      data, p := UnfinishedChunk(line, size.value, tail);
    }
  }

  /** Behind a whole first chunk the account goes on. */
  lemma ChunkInFront(c: Chunk, rest: Bytes, more: seq<Chunk>, line: Bytes, data: Bytes, p: Progress)
    requires WellFormed(c) && Accounts(rest, more, line, data, p)
    ensures Accounts(c.line + CRLF + c.data + c.trailer + rest, [c] + more, line, data, After(c.data, p))
  {
    Prepended(c, more, Begun(line, data, p.state) + p.pending);
    RegroupBytes(c.data, BodyOf(more), data);
  }

  /** All bytes can be accounted for in some way. */
  lemma {:induction false} HasAccount(wire: Bytes) returns (chunks: seq<Chunk>, line: Bytes, data: Bytes, p: Progress)
    ensures Accounts(wire, chunks, line, data, p)
    decreases |wire|
  {
    var pos := FindSubslice(wire, CRLF);
    var size := if pos.Some? then ParseSizeLine(wire[..pos.value]) else None;
    if size.None? || size.value == 0 || |wire| < pos.value + size.value + 4 {
      chunks := [];
      line, data, p := AccountsForStart(wire, pos);
    } else {
      SplitLine(wire, pos.value);
      var c, rest := CutChunk(wire[..pos.value], size.value, wire[pos.value + 2..]);
      chunks, line, data, p := HasAccount(rest);
      ChunkInFront(c, rest, chunks, line, data, p);
      chunks, p := [c] + chunks, After(c.data, p);
    }
  }

  /** Whatever has been received, in whatever state the decoder is, it has such an account. */
  lemma RunAccounts(wire: Bytes) returns (chunks: seq<Chunk>, line: Bytes, data: Bytes)
    ensures Accounts(wire, chunks, line, data, Run(ReadingSize, wire))
  {
    var p;
    chunks, line, data, p := HasAccount(wire);
    AccountDetermines(wire, chunks, line, data, p);
  }

  /** The decoder, fed in any fragments, is in this state with these pending and decoded bytes exactly
      when the bytes received can be accounted for so. */
  lemma ReachesExactlyItsAccount(fragments: seq<Bytes>, p: Progress)
    ensures FedAll(START, fragments) == p
       <==> exists chunks, line, data :: Accounts(Flatten(fragments), chunks, line, data, p)
  {
    var wire := Flatten(fragments);
    FedFromStart(fragments);
    if Run(ReadingSize, wire) == p {
      var chunks, line, data := RunAccounts(wire);
    }
    forall chunks, line, data | Accounts(wire, chunks, line, data, p)
      ensures Run(ReadingSize, wire) == p
    {
      AccountDetermines(wire, chunks, line, data, p);
    }
  }

  lemma FedFromStart(fragments: seq<Bytes>)
    ensures FedAll(START, fragments) == Run(ReadingSize, Flatten(fragments))
  {
    var wire := Flatten(fragments);
    FragmentationInvariance(START, fragments);
    assert [] + wire == wire && [] + Run(ReadingSize, wire).decoded == Run(ReadingSize, wire).decoded;
  }

  // ----- Complete messages, and the panic

  ghost predicate Parses(wire: Bytes, chunks: seq<Chunk>, last: Bytes, rest: Bytes) {
    (forall c :: c in chunks ==> WellFormed(c)) && IsLastLine(last)
    && wire == OnWire(chunks) + (last + CRLF + rest)
  }

  lemma CompleteMessage(wire: Bytes, chunks: seq<Chunk>, last: Bytes, rest: Bytes)
    requires Parses(wire, chunks, last, rest)
    ensures Run(ReadingSize, wire) == Progress(Done, rest, BodyOf(chunks))
  {
    DecodesChunks(chunks, last + CRLF + rest);
    LineIsFound(last, rest);
    assert BodyOf(chunks) + [] == BodyOf(chunks);
  }

  /** Soundness: whenever the decoder ends in Done, its input was a chunked message and what it
      returned is that message's body. */
  lemma OnlyMessagesComplete(wire: Bytes) returns (chunks: seq<Chunk>, last: Bytes)
    requires Run(ReadingSize, wire).state == Done
    ensures Parses(wire, chunks, last, Run(ReadingSize, wire).pending)
    ensures Run(ReadingSize, wire).decoded == BodyOf(chunks)
  {
    var data;
    chunks, last, data := RunAccounts(wire);
    assert last + CRLF + data == last + CRLF;
    assert BodyOf(chunks) + data == BodyOf(chunks);
  }

  /** The decoder, fed in any fragments, completes with body `body` and leftover `rest` exactly when
      the bytes received are a chunked message with that body, followed by `rest`. */
  lemma CompletesExactlyOnMessages(fragments: seq<Bytes>, body: Bytes, rest: Bytes)
    ensures FedAll(START, fragments) == Progress(Done, rest, body)
       <==> exists chunks, last :: Parses(Flatten(fragments), chunks, last, rest) && BodyOf(chunks) == body
  {
    var wire := Flatten(fragments);
    FedFromStart(fragments);
    if Run(ReadingSize, wire) == Progress(Done, rest, body) {
      var chunks, last := OnlyMessagesComplete(wire);
    }
    forall chunks, last | Parses(wire, chunks, last, rest) && BodyOf(chunks) == body
      ensures Run(ReadingSize, wire) == Progress(Done, rest, body)
    {
      CompleteMessage(wire, chunks, last, rest);
    }
  }

  /** Whole chunks, then a size line that cannot be parsed. */
  ghost predicate Breaks(wire: Bytes, chunks: seq<Chunk>, line: Bytes, rest: Bytes) {
    && (forall c :: c in chunks ==> WellFormed(c))
    && IsLine(line) && ParseSizeLine(line).None?
    && wire == OnWire(chunks) + (line + CRLF + rest)
  }

  lemma BreaksAccounts(wire: Bytes, chunks: seq<Chunk>, line: Bytes, rest: Bytes)
    requires Breaks(wire, chunks, line, rest)
    ensures Accounts(wire, chunks, line, [], Progress(Failed, line + CRLF + rest, BodyOf(chunks)))
  {
    assert [] + (line + CRLF + rest) == line + CRLF + rest && BodyOf(chunks) + [] == BodyOf(chunks);
  }

  /** The decoder panics exactly on such input, however it is cut. */
  lemma PanicsExactlyOnBadLines(fragments: seq<Bytes>)
    ensures FedAll(START, fragments).state == Failed
       <==> exists chunks, line, rest :: Breaks(Flatten(fragments), chunks, line, rest)
  {
    var wire := Flatten(fragments);
    FedFromStart(fragments);
    var p := Run(ReadingSize, wire);
    if p.state == Failed {
      var chunks, line, data := RunAccounts(wire);
      var rest := p.pending[|line| + 2..];
      assert [] + p.pending == line + CRLF + rest;
      assert Breaks(wire, chunks, line, rest);
    }
    forall chunks, line, rest | Breaks(wire, chunks, line, rest)
      ensures p.state == Failed
    {
      BreaksAccounts(wire, chunks, line, rest);
      AccountDetermines(wire, chunks, line, [], Progress(Failed, line + CRLF + rest, BodyOf(chunks)));
    }
  }

  /** What is pending, whatever the state, is a suffix of the bytes received. */
  lemma {:induction false} PendingIsSuffix(state: ChunkState, buf: Bytes)
    requires ValidState(state)
    ensures var p := Run(state, buf).pending; |p| <= |buf| && p == buf[|buf| - |p|..]
    decreases |buf|
  {
    match state
    case Done =>
    case Failed =>
    case ReadingSize =>
      var pos := FindSubslice(buf, CRLF);
      if pos.Some? {
        var size := ParseSizeLine(buf[..pos.value]);
        if size.Some? {
          PendingIsSuffix(if size.value == 0 then Done else ReadingData(size.value), buf[pos.value + 2..]);
        }
      }
    case ReadingData(remaining) =>
      if |buf| >= remaining { PendingIsSuffix(ReadingDataTrailer, buf[remaining..]); }
    case ReadingDataTrailer =>
      if |buf| >= 2 { PendingIsSuffix(ReadingSize, buf[2..]); }
  }
}
