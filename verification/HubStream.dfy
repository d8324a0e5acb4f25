/** Parsing a byte stream of back-to-back Hub frames, on either path. */
module HubStream {
  import opened Wire
  import opened Sequences
  import opened HubMessage

  datatype WirePath = SizedServerToClient | CorrelatedClientToServer

  datatype StreamError =
    | ParseError(at: nat, error: Error)
    | NoEnvelopes

  /** What a stream parses to: its messages in order, and how many of its envelopes were empty. */
  datatype Stream = Parsed(envelopes: seq<Envelope>, empty: nat) | Failed(error: StreamError)

  type FrameReader = seq<byte> -> FrameRead

  /** A frame reader that found a whole frame has moved past at least one byte. */
  ghost predicate Advancing(read: FrameReader) {
    forall s :: read(s).Whole() ==> |read(s).rest| < |s|
  }

  function Reader(path: WirePath): (read: FrameReader)
    ensures Advancing(read)
  {
    match path
    case SizedServerToClient => ReadSized
    case CorrelatedClientToServer => ReadCorrelated
  }

  /** The messages found before, then those of the stream from here on. */
  function After(envelopes: seq<Envelope>, empty: nat, more: Stream): Stream {
    match more
    case Parsed(es, n) => Parsed(envelopes + es, empty + n)
    case Failed(e) => Failed(e)
  }

  /** Frames from byte `at` up to the end of the bytes or the first malformed one. */
  function ParseFrames(read: FrameReader, at: nat, s: seq<byte>): Stream
    requires Advancing(read)
    decreases |s|
  {
    if s == [] then Parsed([], 0)
    else
      var frame := read(s);
      if !frame.Whole() then Failed(ParseError(at, frame.result.error))
      else
        var more := ParseFrames(read, at + |s| - |frame.rest|, frame.rest);
        if frame.result.Success? then After([frame.result.value], 0, more) else After([], 1, more)
  }

  function ParseStream(path: WirePath, data: seq<byte>): Stream {
    var frames := ParseFrames(Reader(path), 0, data);
    if frames == Parsed([], 0) then Failed(NoEnvelopes) else frames
  }

  lemma AfterLaws(a: seq<Envelope>, m: nat, b: seq<Envelope>, n: nat, more: Stream)
    ensures After([], 0, more) == more
    ensures After(a, m, After(b, n, more)) == After(a + b, m + n, more)
  {
    if more.Parsed? {
      assert [] + more.envelopes == more.envelopes;
      assert a + (b + more.envelopes) == a + b + more.envelopes;
    }
  }

  /**
   The parsing loop. The source ends every iteration with a check that the cursor moved;
   the branch that would report otherwise is shown to be dead.
   */
  method ParseLoop(read: FrameReader, data: seq<byte>) returns (r: Stream)
    requires Advancing(read)
    ensures r == ParseFrames(read, 0, data)
  {
    var at: nat, rest, envelopes, empty := 0, data, [], 0;
    AfterLaws([], 0, [], 0, ParseFrames(read, 0, data));
    while rest != []
      invariant ParseFrames(read, 0, data) == After(envelopes, empty, ParseFrames(read, at, rest))
      decreases |rest|
    {
      var frame := read(rest);
      if !frame.Whole() {
        return Failed(ParseError(at, frame.result.error));
      }
      if |frame.rest| >= |rest| {
        assert false;
      }
      ghost var more := ParseFrames(read, at + |rest| - |frame.rest|, frame.rest);
      if frame.result.Success? {
        AfterLaws(envelopes, empty, [frame.result.value], 0, more);
        envelopes := envelopes + [frame.result.value];
      } else {
        AfterLaws(envelopes, empty, [], 1, more);
        assert envelopes + [] == envelopes;
        empty := empty + 1;
      }
      at, rest := at + |rest| - |frame.rest|, frame.rest;
    }
    assert envelopes + [] == envelopes;
    r := Parsed(envelopes, empty);
  }

  lemma {:induction false} FramesLeaveSomething(read: FrameReader, at: nat, s: seq<byte>)
    requires Advancing(read) && s != []
    ensures ParseFrames(read, at, s) != Parsed([], 0) && ParseFrames(read, at, s) != Failed(NoEnvelopes)
    decreases |s|
  {
    var frame := read(s);
    if frame.Whole() && frame.rest != [] {
      FramesLeaveSomething(read, at + |s| - |frame.rest|, frame.rest);
    }
  }

  /** A stream is refused for having no envelope exactly when it is empty; one of empty envelopes parses. */
  lemma {:induction false} NoEnvelopesExactly(path: WirePath, data: seq<byte>)
    ensures ParseStream(path, data) == Failed(NoEnvelopes) <==> data == []
  {
    if data != [] {
      FramesLeaveSomething(Reader(path), 0, data);
    }
  }

  method ParseHubStream(data: seq<byte>, path: WirePath) returns (r: Stream)
    ensures r == ParseStream(path, data)
  {
    r := ParseLoop(Reader(path), data);
    if r == Parsed([], 0) {
      r := Failed(NoEnvelopes);
    }
  }

  // ----- parsing inverts framing -----

  /** A message ready to be framed on a path, with the correlation id the client path needs. */
  datatype Frame = Frame(id: Uuid, message: Message)

  predicate Sendable(f: Frame) {
    (f.message.Typed? ==> f.message.index != 0) && |EncodeEnvelope(f.message)| < 0x1_0000_0000 - 16
  }

  function EncodeFrame(path: WirePath, f: Frame): seq<byte>
    requires Sendable(f)
  {
    match path
    case SizedServerToClient => EncodeSized(EncodeEnvelope(f.message))
    case CorrelatedClientToServer => EncodeCorrelated(f.id, EncodeEnvelope(f.message))
  }

  /** The frames as they follow each other on the wire. */
  function FrameChunks(path: WirePath, frames: seq<Frame>): (r: seq<seq<byte>>)
    requires forall i :: 0 <= i < |frames| ==> Sendable(frames[i])
    ensures |r| == |frames| && forall i :: 0 <= i < |r| ==> r[i] == EncodeFrame(path, frames[i])
  {
    seq(|frames|, i requires 0 <= i < |frames| => EncodeFrame(path, frames[i]))
  }

  /** What reading one framed message yields: the message, or that it was empty. */
  function Outcome(f: Frame): Result<Envelope> {
    if f.message.Typed? then Success(ParsedMessage(f.message).value) else Failure(EmptyEnvelope)
  }

  function Outcomes(frames: seq<Frame>): (r: seq<Result<Envelope>>)
    ensures |r| == |frames| && forall i :: 0 <= i < |r| ==> r[i] == Outcome(frames[i])
  {
    seq(|frames|, i requires 0 <= i < |frames| => Outcome(frames[i]))
  }

  /** The typed messages among some outcomes, in order. */
  function TypedOf(outcomes: seq<Result<Envelope>>): seq<Envelope> {
    if outcomes == [] then []
    else if outcomes[0].Success? then [outcomes[0].value] + TypedOf(outcomes[1..])
    else TypedOf(outcomes[1..])
  }

  function EmptyOf(outcomes: seq<Result<Envelope>>): nat {
    if outcomes == [] then 0 else (if outcomes[0].Failure? then 1 else 0) + EmptyOf(outcomes[1..])
  }

  lemma FrameRoundTrip(path: WirePath, f: Frame, rest: seq<byte>)
    requires Sendable(f)
    ensures EncodeFrame(path, f) != []
    ensures Reader(path)(EncodeFrame(path, f) + rest) == FrameRead(Outcome(f), rest)
  {
    var e := EncodeEnvelope(f.message);
    EnvelopeInPlace(f.message, rest);
    match path
    case SizedServerToClient => SizedRoundTrip(e, rest);
    case CorrelatedClientToServer => CorrelatedRoundTrip(f.id, e, rest);
  }

  /** The reader reads the chunk back as this outcome, and stops where it ends. */
  ghost predicate ReadsAs(read: FrameReader, chunk: seq<byte>, outcome: Result<Envelope>) {
    && chunk != [] && FrameRead(outcome, []).Whole()
    && forall rest :: read(chunk + rest) == FrameRead(outcome, rest)
  }

  /** Over any reader that reads each chunk back as its outcome, whatever follows the chunks. */
  lemma {:induction false} ChunksParse(read: FrameReader, at: nat, chunks: seq<seq<byte>>,
                                       outcomes: seq<Result<Envelope>>, tail: seq<byte>)
    requires Advancing(read) && |chunks| == |outcomes|
    requires forall i :: 0 <= i < |chunks| ==> ReadsAs(read, chunks[i], outcomes[i])
    ensures ParseFrames(read, at, Flatten(chunks) + tail)
         == After(TypedOf(outcomes), EmptyOf(outcomes), ParseFrames(read, at + |Flatten(chunks)|, tail))
    decreases |chunks|
  {
    var more := ParseFrames(read, at + |Flatten(chunks)|, tail);
    if chunks == [] {
      assert Flatten(chunks) + tail == tail;
      AfterLaws([], 0, [], 0, more);
    } else {
      var rest := Flatten(chunks[1..]) + tail;
      FlattenFront(chunks);
      Reassociate(chunks[0], Flatten(chunks[1..]), tail);
      assert ReadsAs(read, chunks[0], outcomes[0]) && read(chunks[0] + rest) == FrameRead(outcomes[0], rest);
      ChunksParse(read, at + |chunks[0]|, chunks[1..], outcomes[1..], tail);
      AfterLaws(if outcomes[0].Success? then [outcomes[0].value] else [], if outcomes[0].Success? then 0 else 1,
                TypedOf(outcomes[1..]), EmptyOf(outcomes[1..]), more);
      assert [] + TypedOf(outcomes[1..]) == TypedOf(outcomes[1..]);
    }
  }

  lemma {:induction false} FrameReadsAs(path: WirePath, f: Frame)
    requires Sendable(f)
    ensures ReadsAs(Reader(path), EncodeFrame(path, f), Outcome(f))
  {
    FrameRoundTrip(path, f, []);
    forall rest
      ensures Reader(path)(EncodeFrame(path, f) + rest) == FrameRead(Outcome(f), rest)
    {
      FrameRoundTrip(path, f, rest);
    }
  }

  lemma {:induction false} AllReadAs(path: WirePath, frames: seq<Frame>)
    requires forall i :: 0 <= i < |frames| ==> Sendable(frames[i])
    ensures forall i :: 0 <= i < |frames|
                        ==> ReadsAs(Reader(path), FrameChunks(path, frames)[i], Outcomes(frames)[i])
  {
    forall i | 0 <= i < |frames|
      ensures ReadsAs(Reader(path), FrameChunks(path, frames)[i], Outcomes(frames)[i])
    {
      FrameReadsAs(path, frames[i]);
    }
  }

  lemma {:induction false} WholeStreamParses(read: FrameReader, at: nat, chunks: seq<seq<byte>>,
                                             outcomes: seq<Result<Envelope>>)
    requires Advancing(read) && |chunks| == |outcomes|
    requires forall i :: 0 <= i < |chunks| ==> ReadsAs(read, chunks[i], outcomes[i])
    ensures ParseFrames(read, at, Flatten(chunks)) == Parsed(TypedOf(outcomes), EmptyOf(outcomes))
  {
    ChunksParse(read, at, chunks, outcomes, []);
    assert Flatten(chunks) + [] == Flatten(chunks) && TypedOf(outcomes) + [] == TypedOf(outcomes);
  }

  lemma {:induction false} BrokenChunkReported(read: FrameReader, at: nat, chunks: seq<seq<byte>>,
                                               outcomes: seq<Result<Envelope>>, tail: seq<byte>)
    requires Advancing(read) && |chunks| == |outcomes|
    requires forall i :: 0 <= i < |chunks| ==> ReadsAs(read, chunks[i], outcomes[i])
    requires tail != [] && !read(tail).Whole()
    ensures ParseFrames(read, at, Flatten(chunks) + tail)
         == Failed(ParseError(at + |Flatten(chunks)|, read(tail).result.error))
  {
    ChunksParse(read, at, chunks, outcomes, tail);
  }

  /** A stream of any non-empty list of frames parses to its typed messages in order and the count of its empty ones. */
  lemma StreamInvertsFraming(path: WirePath, frames: seq<Frame>)
    requires frames != [] && forall i :: 0 <= i < |frames| ==> Sendable(frames[i])
    ensures ParseStream(path, Flatten(FrameChunks(path, frames)))
         == Parsed(TypedOf(Outcomes(frames)), EmptyOf(Outcomes(frames)))
    ensures |TypedOf(Outcomes(frames))| + EmptyOf(Outcomes(frames)) == |frames|
  {
    AllReadAs(path, frames);
    WholeStreamParses(Reader(path), 0, FrameChunks(path, frames), Outcomes(frames));
    OutcomesCounted(Outcomes(frames));
  }

  /** Bytes behind some frames that are no whole frame fail the stream at the offset where they start. */
  lemma {:induction false} BrokenFrameReported(path: WirePath, frames: seq<Frame>, tail: seq<byte>)
    requires forall i :: 0 <= i < |frames| ==> Sendable(frames[i])
    requires tail != [] && !Reader(path)(tail).Whole()
    ensures ParseStream(path, Flatten(FrameChunks(path, frames)) + tail)
         == Failed(ParseError(|Flatten(FrameChunks(path, frames))|, Reader(path)(tail).result.error))
  {
    AllReadAs(path, frames);
    BrokenChunkReported(Reader(path), 0, FrameChunks(path, frames), Outcomes(frames), tail);
  }

  lemma {:induction false} OutcomesCounted(outcomes: seq<Result<Envelope>>)
    ensures |TypedOf(outcomes)| + EmptyOf(outcomes) == |outcomes|
  {
    if outcomes != [] {
      OutcomesCounted(outcomes[1..]);
    }
  }
}
