/** The state-bundle message: its control block of stop and pause ids, its wire form, and its size. */
module BundleMessage {
  import opened Wire
  import opened Sequences
  import opened SequenceNumbers
  import opened BundleRecords
  import Vlq

  const MAX_CONTROL_IDS: nat := 100

  // ----- the control block -----

  /** Two lists of interest ids that share one capacity. */
  datatype Control = Control(stops: seq<u16>, pauses: seq<u16>) {
    function Len(): nat { |stops| + |pauses| }
  }

  datatype ControlStep = PushStop(id: u16) | PushPause(id: u16) | RemoveStop(id: u16) | Reset

  function RemoveFirst(ids: seq<u16>, id: u16): seq<u16> {
    var i := FirstIndex(ids, id);
    if i < |ids| then ids[..i] + ids[i + 1..] else ids
  }

  /** The list a step leaves: pushes are dropped when the block is full, and only the step's own list changes. */
  function ControlAfter(c: Control, step: ControlStep): Control {
    match step
    case PushStop(id) => if c.Len() == MAX_CONTROL_IDS then c else c.(stops := c.stops + [id])
    case PushPause(id) => if c.Len() == MAX_CONTROL_IDS then c else c.(pauses := c.pauses + [id])
    case RemoveStop(id) => c.(stops := RemoveFirst(c.stops, id))
    case Reset => Control([], [])
  }

  function ControlRun(steps: seq<ControlStep>): Control {
    if steps == [] then Control([], []) else ControlAfter(ControlRun(steps[..|steps| - 1]), steps[|steps| - 1])
  }

  /** Over every run the two lists together stay within the capacity. */
  lemma {:induction false} ControlStaysBounded(steps: seq<ControlStep>)
    ensures ControlRun(steps).Len() <= 100
  {
    if steps != [] {
      ControlStaysBounded(steps[..|steps| - 1]);
    }
  }

  predicate Accepted(c: Control, step: ControlStep) {
    (step.PushStop? || step.PushPause?) ==> c.Len() < MAX_CONTROL_IDS
  }

  predicate AboutStops(step: ControlStep) { step.PushStop? || step.RemoveStop? || step.Reset? }

  predicate AboutPauses(step: ControlStep) { step.PushPause? || step.Reset? }

  /** The steps of a run about stop ids, without the pushes that were refused. */
  function StopsOf(steps: seq<ControlStep>): seq<ControlStep> {
    if steps == [] then []
    else
      var before, step := steps[..|steps| - 1], steps[|steps| - 1];
      StopsOf(before) + if AboutStops(step) && Accepted(ControlRun(before), step) then [step] else []
  }

  /** Likewise about pause ids. */
  function PausesOf(steps: seq<ControlStep>): seq<ControlStep> {
    if steps == [] then []
    else
      var before, step := steps[..|steps| - 1], steps[|steps| - 1];
      PausesOf(before) + if AboutPauses(step) && Accepted(ControlRun(before), step) then [step] else []
  }

  lemma RunAppend(steps: seq<ControlStep>, step: ControlStep)
    ensures ControlRun(steps + [step]) == ControlAfter(ControlRun(steps), step)
  {
    assert (steps + [step])[..|steps|] == steps;
  }

  /** A block whose stop ids are those of `s` and whose pause ids are those of `p`, which hold nothing else. */
  predicate Split(c: Control, s: Control, p: Control) {
    c.stops == s.stops && s.pauses == [] && c.pauses == p.pauses && p.stops == []
  }

  lemma SplitStep(c: Control, s: Control, p: Control, step: ControlStep)
    requires Split(c, s, p) && c.Len() <= MAX_CONTROL_IDS
    ensures Split(ControlAfter(c, step), if AboutStops(step) && Accepted(c, step) then ControlAfter(s, step) else s,
                  if AboutPauses(step) && Accepted(c, step) then ControlAfter(p, step) else p)
  {
  }

  lemma {:induction false} ProjectionStep(before: seq<ControlStep>, step: ControlStep)
    ensures ControlRun(StopsOf(before + [step]))
         == if AboutStops(step)
               && Accepted(ControlRun(before), step) then ControlAfter(ControlRun(StopsOf(before)), step)
            else ControlRun(StopsOf(before))
    ensures ControlRun(PausesOf(before + [step]))
         == if AboutPauses(step)
               && Accepted(ControlRun(before), step) then ControlAfter(ControlRun(PausesOf(before)), step)
            else ControlRun(PausesOf(before))
  {
    assert (before + [step])[..|before|] == before;
    RunAppend(StopsOf(before), step);
    RunAppend(PausesOf(before), step);
    assert StopsOf(before) + [] == StopsOf(before) && PausesOf(before) + [] == PausesOf(before);
  }

  lemma {:induction false} IndependentStep(before: seq<ControlStep>, step: ControlStep)
    requires Split(ControlRun(before), ControlRun(StopsOf(before)), ControlRun(PausesOf(before)))
    ensures Split(ControlRun(before + [step]), ControlRun(StopsOf(before + [step])),
                  ControlRun(PausesOf(before + [step])))
  {
    ControlStaysBounded(before);
    RunAppend(before, step);
    ProjectionStep(before, step);
    SplitStep(ControlRun(before), ControlRun(StopsOf(before)), ControlRun(PausesOf(before)), step);
  }

  lemma {:induction false} RunSplits(steps: seq<ControlStep>)
    ensures Split(ControlRun(steps), ControlRun(StopsOf(steps)), ControlRun(PausesOf(steps)))
  {
    if steps != [] {
      var before, step := steps[..|steps| - 1], steps[|steps| - 1];
      assert steps == before + [step];
      RunSplits(before);
      IndependentStep(before, step);
    }
  }

  /** A list without its earliest occurrence of an id. */
  function WithoutEarliest(ids: seq<u16>, id: u16): seq<u16> {
    if ids == [] then [] else if ids[0] == id then ids[1..] else [ids[0]] + WithoutEarliest(ids[1..], id)
  }

  /** Fewer than a hundred ids are outstanding after these steps. */
  predicate Room(steps: seq<ControlStep>)
    decreases |steps|, 1
  {
    |StopIds(steps)| + |PauseIds(steps)| < 100
  }

  /** The ids pushed for stopping while there was room and not removed since, without those before the last reset. */
  function StopIds(steps: seq<ControlStep>): seq<u16>
    decreases |steps|, 0
  {
    if steps == [] then []
    else
      var before := steps[..|steps| - 1];
      match steps[|steps| - 1]
      case PushStop(id) => if Room(before) then StopIds(before) + [id] else StopIds(before)
      case PushPause(_) => StopIds(before)
      case RemoveStop(id) => WithoutEarliest(StopIds(before), id)
      case Reset => []
  }

  /** The ids pushed for pausing while there was room, since the last reset. */
  function PauseIds(steps: seq<ControlStep>): seq<u16>
    decreases |steps|, 0
  {
    if steps == [] then []
    else
      var before := steps[..|steps| - 1];
      match steps[|steps| - 1]
      case PushPause(id) => if Room(before) then PauseIds(before) + [id] else PauseIds(before)
      case Reset => []
      case _ => PauseIds(before)
  }

  lemma {:induction false} DropBehindHead(ids: seq<u16>, i: nat)
    requires i + 1 < |ids|
    ensures ids[..i + 1] + ids[i + 2..] == [ids[0]] + (ids[1..][..i] + ids[1..][i + 1..])
  {
  }

  lemma {:induction false} RemoveFirstTakesEarliest(ids: seq<u16>, id: u16)
    ensures RemoveFirst(ids, id) == WithoutEarliest(ids, id)
  {
    if ids != [] && ids[0] != id {
      var i := FirstIndex(ids[1..], id);
      RemoveFirstTakesEarliest(ids[1..], id);
      assert FirstIndex(ids, id) == i + 1;
      if i + 1 < |ids| {
        DropBehindHead(ids, i);
      } else {
        assert RemoveFirst(ids[1..], id) == ids[1..] && ids == [ids[0]] + ids[1..];
      }
    }
  }

  /** Over every run the block holds exactly the outstanding ids: none is lost, invented, reordered or kept too long. */
  lemma {:induction false} ControlHoldsOutstandingIds(steps: seq<ControlStep>)
    ensures ControlRun(steps) == Control(StopIds(steps), PauseIds(steps))
  {
    if steps != [] {
      var before, step := steps[..|steps| - 1], steps[|steps| - 1];
      ControlHoldsOutstandingIds(before);
      ControlStaysBounded(before);
      if step.RemoveStop? {
        RemoveFirstTakesEarliest(StopIds(before), step.id);
      }
    }
  }

  /**
   The two lists are independent: over every run, the stop ids are those of a block that only
   ever saw the steps about stops that were not refused, and likewise the pause ids; and both
   are the outstanding ids.
   */
  lemma {:induction false} ListsAreIndependent(steps: seq<ControlStep>)
    ensures Split(ControlRun(steps), ControlRun(StopsOf(steps)), ControlRun(PausesOf(steps)))
    ensures ControlRun(steps) == Control(StopIds(steps), PauseIds(steps))
    ensures ControlRun(StopsOf(steps)).stops == StopIds(steps) && ControlRun(PausesOf(steps)).pauses == PauseIds(steps)
  {
    RunSplits(steps);
    ControlHoldsOutstandingIds(steps);
  }

  /** Taking out an element before a split takes it out of the first part only. */
  lemma RemoveBefore(ids: seq<u16>, split: nat, i: nat)
    requires i < split <= |ids|
    ensures var ids' := ids[..i] + ids[i + 1..];
            && ids'[..split - 1] == ids[..split][..i] + ids[..split][i + 1..]
            && ids'[split - 1..] == ids[split..]
  {
  }

  /** The block as it is kept: one list and the index where the pause ids start. */
  class ReplicationControlData {
    var pauseStart: nat
    var ids: seq<u16>

    ghost predicate Valid()
      reads this
    {
      pauseStart <= |ids| <= MAX_CONTROL_IDS
    }

    function View(): Control
      requires Valid()
      reads this
    {
      Control(ids[..pauseStart], ids[pauseStart..])
    }

    constructor ()
      ensures Valid() && View() == Control([], [])
    {
      pauseStart, ids := 0, [];
    }

    method PushStopReplicationId(id: u16) returns (r: Result<()>)
      requires Valid()
      modifies this
      ensures Valid() && View() == ControlAfter(old(View()), PushStop(id))
      ensures r == if old(View()).Len() == MAX_CONTROL_IDS
                   then Failure(ContainerOverflow(MAX_CONTROL_IDS + 1, MAX_CONTROL_IDS)) else Success(())
    {
      if |ids| == MAX_CONTROL_IDS {
        return Failure(ContainerOverflow(|ids| + 1, MAX_CONTROL_IDS));
      }
      ghost var before := View();
      ids := ids[..pauseStart] + [id] + ids[pauseStart..];
      pauseStart := pauseStart + 1;
      assert View() == Control(before.stops + [id], before.pauses);
      r := Success(());
    }

    method PushPauseReplicationId(id: u16) returns (r: Result<()>)
      requires Valid()
      modifies this
      ensures Valid() && View() == ControlAfter(old(View()), PushPause(id))
      ensures r == if old(View()).Len() == MAX_CONTROL_IDS
                   then Failure(ContainerOverflow(MAX_CONTROL_IDS + 1, MAX_CONTROL_IDS)) else Success(())
    {
      if |ids| == MAX_CONTROL_IDS {
        return Failure(ContainerOverflow(|ids| + 1, MAX_CONTROL_IDS));
      }
      ids := ids + [id];
      r := Success(());
    }

    method RemovePendingStopId(id: u16) returns (removed: bool)
      requires Valid()
      modifies this
      ensures Valid() && View() == ControlAfter(old(View()), RemoveStop(id))
      ensures removed <==> id in old(View()).stops
    {
      var i := FirstIndex(ids[..pauseStart], id);
      if i == pauseStart {
        return false;
      }
      RemoveBefore(ids, pauseStart, i);
      ids := ids[..i] + ids[i + 1..];
      pauseStart := pauseStart - 1;
      removed := true;
    }

    method ResetIds()
      requires Valid()
      modifies this
      ensures Valid() && View() == ControlAfter(old(View()), Reset)
    {
      ids, pauseStart := [], 0;
    }
  }

  // ----- the control block on the wire -----

  function EncodeIds(ids: seq<u16>): (r: seq<byte>)
    ensures |r| == 2 * |ids|
  {
    if ids == [] then [] else EncodeU16(ids[0]) + EncodeIds(ids[1..])
  }

  /** Reads ids after those already read. */
  function DecodeIds(ids: seq<u16>, count: nat, s: seq<byte>): (r: Decoded<seq<u16>>)
    requires |ids| <= count
    ensures r.Ok? ==> |r.value| == count
    decreases count - |ids|
  {
    if |ids| == count then Ok(ids, s)
    else
      var (id, rest) :- DecodeU16(s);
      DecodeIds(ids + [id], count, rest)
  }

  lemma {:induction false} IdsRoundTrip(before: seq<u16>, ids: seq<u16>, rest: seq<byte>)
    ensures DecodeIds(before, |before| + |ids|, EncodeIds(ids) + rest) == Ok(before + ids, rest)
    decreases |ids|
  {
    if ids == [] {
      assert EncodeIds(ids) + rest == rest && before + ids == before;
    } else {
      var tail := EncodeIds(ids[1..]) + rest;
      assert EncodeIds(ids) + rest == EncodeU16(ids[0]) + tail;
      U16RoundTrip(ids[0], tail);
      IdsRoundTrip(before + [ids[0]], ids[1..], rest);
      assert before + [ids[0]] + ids[1..] == before + ids;
    }
  }

  function EncodeControl(c: Control): seq<byte>
    requires c.Len() <= MAX_CONTROL_IDS
  {
    [c.Len(), |c.stops|] + EncodeIds(c.stops + c.pauses)
  }

  function DecodeControl(s: seq<byte>): (r: Decoded<Control>)
    ensures r.Ok? ==> r.value.Len() <= MAX_CONTROL_IDS
  {
    var (len, s') :- ReadByte(s);
    if len > MAX_CONTROL_IDS then Err(ContainerOverflow(len, MAX_CONTROL_IDS))
    else
      var (split, s'') :- ReadByte(s');
      if split > len then Err(InvalidRange(split, 0, len))
      else
        var (ids, rest) :- DecodeIds([], len, s'');
        Ok(Control(ids[..split], ids[split..]), rest)
  }

  lemma ControlRoundTrip(c: Control, rest: seq<byte>)
    requires c.Len() <= MAX_CONTROL_IDS
    ensures DecodeControl(EncodeControl(c) + rest) == Ok(c, rest)
  {
    var ids := c.stops + c.pauses;
    var s := EncodeControl(c) + rest;
    assert s[1..][1..] == EncodeIds(ids) + rest;
    IdsRoundTrip([], ids, rest);
    assert [] + ids == ids;
    assert ids[..|c.stops|] == c.stops && ids[|c.stops|..] == c.pauses;
  }

  /** A control block is refused for more than a hundred ids or a split behind its end, before any id is read. */
  lemma ControlRefusals(len: byte, split: byte, rest: seq<byte>)
    ensures len > 100 ==> DecodeControl([len] + rest) == Err(ContainerOverflow(len as nat, 100))
    ensures split > len && len <= 100
            ==> DecodeControl([len, split] + rest) == Err(InvalidRange(split as nat, 0, len as nat))
  {
    assert ([len, split] + rest)[1..] == [split] + rest;
  }

  method UnmarshalControl(s: seq<byte>) returns (r: Decoded<Control>)
    ensures r == DecodeControl(s)
  {
    var len :- ReadByte(s);
    if len.0 > MAX_CONTROL_IDS {
      return Err(ContainerOverflow(len.0, MAX_CONTROL_IDS));
    }
    var split :- ReadByte(len.1);
    if split.0 > len.0 {
      return Err(InvalidRange(split.0, 0, len.0));
    }
    var ids, rest := [], split.1;
    while |ids| < len.0
      invariant |ids| <= len.0
      invariant DecodeIds([], len.0, split.1) == DecodeIds(ids, len.0, rest)
      decreases len.0 - |ids|
    {
      var id :- DecodeU16(rest);
      ids, rest := ids + [id.0], id.1;
    }
    r := Ok(Control(ids[..split.0], ids[split.0..]), rest);
  }

  // ----- the bundle -----

  datatype Bundle = Bundle(sequence: SequenceNumber, contextId: byte, bandwidthMode: byte, unreliable: bool,
                           control: Option<Control>, buffer: seq<byte>)

  /** A control block within its capacity, and a buffer whose length fits the length prefix. */
  predicate Marshallable(b: Bundle) {
    (b.control.Some? ==> b.control.value.Len() <= MAX_CONTROL_IDS) && |b.buffer| < 0x1_0000_0000
  }

  function EncodeOptionalControl(c: Option<Control>): seq<byte>
    requires c.Some? ==> c.value.Len() <= MAX_CONTROL_IDS
  {
    match c
    case None => EncodeBool(false)
    case Some(control) => EncodeBool(true) + EncodeControl(control)
  }

  function DecodeOptionalControl(s: seq<byte>): Decoded<Option<Control>> {
    var (present, rest) :- DecodeBool(s);
    if present then
      var (control, rest') :- DecodeControl(rest);
      Ok(Some(control), rest')
    else Ok(None, rest)
  }

  function EncodeBuffer(buffer: seq<byte>): seq<byte>
    requires |buffer| < 0x1_0000_0000
  {
    Vlq.EncodeU32(|buffer|) + buffer
  }

  function DecodeBuffer(s: seq<byte>): Decoded<seq<byte>> {
    var (len, rest) :- Vlq.DecodeU32(s);
    if len > BUFFER_CAP then Err(ContainerOverflow(len, BUFFER_CAP)) else ReadBytes(rest, len)
  }

  function EncodeFlags(b: Bundle): seq<byte> { [b.contextId, b.bandwidthMode] + EncodeBool(b.unreliable) }

  function EncodeTail(b: Bundle): seq<byte>
    requires Marshallable(b)
  {
    EncodeOptionalControl(b.control) + EncodeBuffer(b.buffer)
  }

  function Encode(b: Bundle): seq<byte>
    requires Marshallable(b)
  {
    SequenceNumbers.Encode(b.sequence) + EncodeFlags(b) + EncodeTail(b)
  }

  function DecodeTail(sequence: SequenceNumber, contextId: byte, mode: byte, unreliable: bool,
                      s: seq<byte>): Decoded<Bundle> {
    var (control, s') :- DecodeOptionalControl(s);
    var (buffer, rest) :- DecodeBuffer(s');
    Ok(Bundle(sequence, contextId, mode, unreliable, control, buffer), rest)
  }

  function DecodeAfterSequence(sequence: SequenceNumber, s: seq<byte>): Decoded<Bundle> {
    var (contextId, s1) :- ReadByte(s);
    var (mode, s2) :- ReadByte(s1);
    var (unreliable, s3) :- DecodeBool(s2);
    DecodeTail(sequence, contextId, mode, unreliable, s3)
  }

  function Decode(s: seq<byte>): Decoded<Bundle> {
    var (sequence, rest) :- SequenceNumbers.Decode(s);
    DecodeAfterSequence(sequence, rest)
  }

  lemma OptionalControlRoundTrip(c: Option<Control>, rest: seq<byte>)
    requires c.Some? ==> c.value.Len() <= MAX_CONTROL_IDS
    ensures DecodeOptionalControl(EncodeOptionalControl(c) + rest) == Ok(c, rest)
  {
    match c
    case None => assert (EncodeOptionalControl(c) + rest)[1..] == rest;
    case Some(control) =>
      assert (EncodeOptionalControl(c) + rest)[1..] == EncodeControl(control) + rest;
      ControlRoundTrip(control, rest);
  }

  /** A buffer over the cap is written but refused when read. */
  lemma BufferRoundTrip(buffer: seq<byte>, rest: seq<byte>)
    requires |buffer| < 0x1_0000_0000
    ensures DecodeBuffer(EncodeBuffer(buffer) + rest)
         == if |buffer| <= BUFFER_CAP then Ok(buffer, rest) else Err(ContainerOverflow(|buffer|, BUFFER_CAP))
  {
    assert EncodeBuffer(buffer) + rest == Vlq.EncodeU32(|buffer|) + (buffer + rest);
    Vlq.U32RoundTrip(|buffer|, buffer + rest);
    ReadBytesOfConcat(buffer, rest);
  }

  lemma FlagsRoundTrip(sequence: SequenceNumber, b: Bundle, rest: seq<byte>)
    ensures DecodeAfterSequence(sequence, EncodeFlags(b) + rest)
         == DecodeTail(sequence, b.contextId, b.bandwidthMode, b.unreliable, rest)
  {
    assert (EncodeFlags(b) + rest)[1..][1..][1..] == rest;
  }

  lemma TailRoundTrip(sequence: SequenceNumber, b: Bundle, rest: seq<byte>)
    requires Marshallable(b)
    ensures DecodeTail(sequence, b.contextId, b.bandwidthMode, b.unreliable, EncodeTail(b) + rest)
         == if |b.buffer| <= BUFFER_CAP then Ok(b.(sequence := sequence), rest)
            else Err(ContainerOverflow(|b.buffer|, BUFFER_CAP))
  {
    assert EncodeTail(b) + rest == EncodeOptionalControl(b.control) + (EncodeBuffer(b.buffer) + rest);
    OptionalControlRoundTrip(b.control, EncodeBuffer(b.buffer) + rest);
    BufferRoundTrip(b.buffer, rest);
  }

  /**
   Bundle round trip: a bundle within the cap reads back to itself, its sequence in normal
   form, and nothing after it is touched; one over the cap is refused.
   */
  lemma BundleRoundTrip(b: Bundle, rest: seq<byte>)
    requires Marshallable(b)
    ensures Decode(Encode(b) + rest)
         == if |b.buffer| <= 256_000 then Ok(b.(sequence := b.sequence.Normal()), rest)
            else Err(ContainerOverflow(|b.buffer|, 256_000))
  {
    FourParts(SequenceNumbers.Encode(b.sequence), EncodeFlags(b), EncodeTail(b), rest);
    SequenceNumbers.RoundTrip(b.sequence, EncodeFlags(b) + (EncodeTail(b) + rest));
    FlagsRoundTrip(b.sequence.Normal(), b, EncodeTail(b) + rest);
    TailRoundTrip(b.sequence.Normal(), b, rest);
  }

  /** The size charged for a bundle without marshalling it. */
  function TotalBundleSize(b: Bundle): nat
    requires Marshallable(b)
  {
    WireLen(b.sequence) + 1 + 1 + 1 + 1
    + (match b.control case None => 0 case Some(c) => 1 + 1 + c.Len() * 2)
    + Vlq.U32Len(|b.buffer|) + |b.buffer|
  }

  lemma TailLength(b: Bundle)
    requires Marshallable(b)
    ensures |EncodeTail(b)| == TotalBundleSize(b) - WireLen(b.sequence) - 3
  {
    Vlq.U32RoundTrip(|b.buffer|, []);
  }

  /** The charged size is the marshalled length for every bundle except those whose sequence is `Seq(u64::MAX)`. */
  lemma TotalBundleSizeExact(b: Bundle)
    requires Marshallable(b)
    ensures |Encode(b)| == TotalBundleSize(b) <==> b.sequence != Seq(U64_MAX)
  {
    WireLenExact(b.sequence);
    TailLength(b);
  }
}
