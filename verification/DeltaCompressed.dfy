/**
 Values split over several replicated fields so that a small change sends few bytes: the
 u16 counter (a high-byte anchor and a one-byte offset) and the timer (four bytes of a
 quantised u32). The timer's quantised value is taken as given.
 */
module DeltaCompressed {
  import opened Wire
  import opened SequenceNumbers
  import opened Fields
  import opened FieldState

  // ----- the counter -----

  const VALUES_IN_BYTE: u16 := 255

  /** Codec of the anchor: the high byte only. */
  function EncodeHighByte(v: u16): seq<byte> { [v / 256] }

  function DecodeHighByte(s: seq<byte>): Decoded<u16> {
    var (b, rest) :- ReadByte(s);
    Ok(256 * b, rest)
  }

  /** Codec of the offset: the low byte only. */
  function EncodeLowByte(v: u16): seq<byte> { [v % 256] }

  function DecodeLowByte(s: seq<byte>): Decoded<u16> {
    var (b, rest) :- ReadByte(s);
    Ok(b as int, rest)
  }

  /** The one-byte codecs lose nothing exactly on multiples of 256, and exactly on offsets below 256. */
  lemma OneByteCodecs(v: u16, rest: seq<byte>)
    ensures DecodeHighByte(EncodeHighByte(v) + rest) == Ok(v, rest) <==> IsAnchor(v)
    ensures DecodeLowByte(EncodeLowByte(v) + rest) == Ok(v, rest) <==> IsOffset(v)
    ensures |EncodeHighByte(v)| == |EncodeLowByte(v)| == 1
    ensures 0x100 * EncodeHighByte(v)[0] as nat + EncodeLowByte(v)[0] as nat == v
  {
    assert (EncodeHighByte(v) + rest)[1..] == rest;
    assert (EncodeLowByte(v) + rest)[1..] == rest;
  }

  predicate IsAnchor(v: u16) { v % 256 == 0 }

  predicate IsOffset(v: u16) { v <= VALUES_IN_BYTE }

  datatype Counter = Counter(absolute: Field<u16>, relative: Field<u16>) {

    /** The reconstructed value, as unbounded addition: `Sound` counters stay within a u16. */
    function Value(): nat { absolute.Effective(0) + relative.Effective(0) }

    predicate IsWithinDelta(v: u16) { absolute.Effective(0) <= v && v - absolute.Effective(0) <= VALUES_IN_BYTE }

    predicate Sound() { IsAnchor(absolute.Effective(0)) && IsOffset(relative.Effective(0)) }
  }

  function SetCounter(c: Counter, v: u16): Counter {
    if !c.absolute.lastModified.IsValid() || !c.IsWithinDelta(v) then
      Counter(SetValue(c.absolute, v - v % 256), SetValue(c.relative, v % 256))
    else
      c.(relative := SetValue(c.relative, v - c.absolute.Effective(0)))
  }

  /**
   A write leaves the anchor alone exactly when it is stamped and at most 255 below the value;
   otherwise it moves to the last multiple of 256. The offset is always written.
   */
  lemma CounterAnchors(c: Counter, v: u16)
    requires c.Sound() && c.absolute.defaultValue.None? && c.relative.defaultValue.None?
    ensures var c' := SetCounter(c, v);
            var reaches := c.absolute.lastModified.IsValid() && 0 <= v - c.absolute.Effective(0) <= 255;
            && c'.relative.lastModified == ValidNonSequence
            && c'.relative.Effective(0) == (if reaches then v - c.absolute.Effective(0) else v % 256)
            && (reaches ==> c'.absolute == c.absolute)
            && (!reaches ==> c'.absolute.Effective(0) == v - v % 256 && c'.absolute.lastModified == ValidNonSequence)
  {
  }

  /** One step of a counter's life: a local write, or a merge of both portions with an incoming counter. */
  datatype CounterStep =
    | Set(v: u16)
    | MergeWith(incoming: Counter, stamp: SequenceNumber, inherit: bool)

  function CounterAfter(c: Counter, step: CounterStep): Counter {
    match step
    case Set(v) => SetCounter(c, v)
    case MergeWith(incoming, stamp, inherit) =>
      Counter(Merge(c.absolute, incoming.absolute, stamp, inherit, 0).field,
              Merge(c.relative, incoming.relative, stamp, inherit, 0).field)
  }

  function CounterRun(c: Counter, steps: seq<CounterStep>): Counter {
    if steps == [] then c else CounterAfter(CounterRun(c, steps[..|steps| - 1]), steps[|steps| - 1])
  }

  ghost predicate SoundSteps(steps: seq<CounterStep>) {
    forall i :: 0 <= i < |steps| && steps[i].MergeWith? ==> steps[i].incoming.Sound()
  }

  /**
   Over every run of writes and merges the anchor is a multiple of 256, the offset fits a
   byte and the sum fits a u16; right after a write the value is the one written.
   */
  lemma {:induction false} CounterStaysSound(c: Counter, steps: seq<CounterStep>)
    requires c.Sound() && SoundSteps(steps)
    ensures CounterRun(c, steps).Sound()
    ensures CounterRun(c, steps).Value() <= 0xFFFF
    ensures steps != [] && steps[|steps| - 1].Set? ==> CounterRun(c, steps).Value() == steps[|steps| - 1].v
  {
    if steps != [] {
      CounterStaysSound(c, steps[..|steps| - 1]);
    }
  }

  /** A portion as it arrives: decoded from its one byte if it was dirty, else untouched. */
  ghost predicate ArrivesThrough(f: Field<u16>, baseline: SequenceNumber, encode: u16 -> seq<byte>,
                                 decode: seq<byte> -> Decoded<u16>, got: Field<u16>)
  {
    if f.IsDirtySince(baseline) then
      var d := decode(encode(f.Effective(0)));
      d.Ok? && d.rest == [] && got == Arrived(d.value)
    else got == FreshField()
  }

  /**
   Counter convergence through the lossy one-byte codecs: over any runs of merges of sound
   portions, whichever are dirty since the baseline, a receiver that agreed with the sender
   then reads the sender's value after merging what arrived.
   */
  lemma CounterConverges(absolute: FieldRun<u16>, relative: FieldRun<u16>, baseline: SequenceNumber,
                         receiver: Counter, arrived: Counter, stamp: SequenceNumber, inherit: bool)
    requires ValidFieldRun(absolute) && ValidFieldRun(relative)
    requires Throughout(absolute, IsAnchor, 0) && Throughout(relative, IsOffset, 0)
    requires receiver.absolute.Effective(0) == absolute.EffectiveAsOf(baseline, 0)
    requires receiver.relative.Effective(0) == relative.EffectiveAsOf(baseline, 0)
    requires ArrivesThrough(absolute.State(0), baseline, EncodeHighByte, DecodeHighByte, arrived.absolute)
    requires ArrivesThrough(relative.State(0), baseline, EncodeLowByte, DecodeLowByte, arrived.relative)
    ensures CounterAfter(receiver, MergeWith(arrived, stamp, inherit)).Value()
         == Counter(absolute.State(0), relative.State(0)).Value()
  {
    MergedValuesFromRun(absolute, IsAnchor, 0);
    MergedValuesFromRun(relative, IsOffset, 0);
    FieldConverges(absolute, baseline, receiver.absolute, None, stamp, inherit, 0);
    FieldConverges(relative, baseline, receiver.relative, None, stamp, inherit, 0);
    OneByteCodecs(absolute.State(0).Effective(0), []);
    OneByteCodecs(relative.State(0).Effective(0), []);
    assert EncodeHighByte(absolute.State(0).Effective(0)) + [] == EncodeHighByte(absolute.State(0).Effective(0));
    assert EncodeLowByte(relative.State(0).Effective(0)) + [] == EncodeLowByte(relative.State(0).Effective(0));
  }

  class DeltaCompressedCounterHandler {
    const absolute: ReplicatedFieldHandler<u16>
    const relative: ReplicatedFieldHandler<u16>

    ghost predicate Valid() { absolute != relative && absolute.zero == 0 && relative.zero == 0 }

    function View(): Counter
      reads absolute, relative
    {
      Counter(absolute.View(), relative.View())
    }

    constructor ()
      ensures Valid() && fresh(absolute) && fresh(relative)
      ensures View() == Counter(FreshField(), FreshField())
    {
      absolute := new ReplicatedFieldHandler<u16>(None, 0);
      relative := new ReplicatedFieldHandler<u16>(None, 0);
    }

    method SetValue(newValue: u16)
      requires Valid()
      modifies absolute, relative
      ensures View() == SetCounter(old(View()), newValue)
      ensures old(View()).Sound() ==> View().Sound() && View().Value() == newValue
    {
      if !absolute.lastModified.IsValid() || !View().IsWithinDelta(newValue) {
        var rel := newValue % (VALUES_IN_BYTE + 1);
        absolute.SetValue(newValue - rel);
        relative.SetValue(rel);
      } else {
        relative.SetValue(newValue - absolute.View().Effective(0));
      }
    }
  }

  // ----- the timer -----

  /** Four byte fields, least significant first. */
  datatype Timer = Timer(b0: Field<bv8>, b1: Field<bv8>, b2: Field<bv8>, b3: Field<bv8>) {

    function Raw(): bv32 { Join(b3.Effective(0), b2.Effective(0), b1.Effective(0), b0.Effective(0)) }

    predicate IsFieldValid() {
      b0.lastModified.IsValid() && b1.lastModified.IsValid() && b2.lastModified.IsValid() && b3.lastModified.IsValid()
    }
  }

  function Join(b3: bv8, b2: bv8, b1: bv8, b0: bv8): bv32 {
    (b3 as bv32 << 24) | (b2 as bv32 << 16) | (b1 as bv32 << 8) | b0 as bv32
  }

  function BytesRequired(n: bv32, o: bv32): nat {
    var diff := n ^ o;
    if diff & 0xff00_0000 != 0 then 4
    else if diff & 0xffff_0000 != 0 then 3
    else if diff & 0x0000_ff00 != 0 then 2
    else 1
  }

  function LowByte(n: bv32): bv8 { (n & 0xff) as bv8 }

  function SetTimer(t: Timer, q: bv32): Timer {
    var needed := if t.IsFieldValid() then BytesRequired(q, t.Raw()) else 4;
    Timer(SetValue(t.b0, LowByte(q)),
          if needed >= 2 then SetValue(t.b1, LowByte(q >> 8)) else t.b1,
          if needed >= 3 then SetValue(t.b2, LowByte(q >> 16)) else t.b2,
          if needed >= 4 then SetValue(t.b3, LowByte(q >> 24)) else t.b3)
  }

  lemma JoinOfBytes(q: bv32)
    ensures Join(LowByte(q >> 24), LowByte(q >> 16), LowByte(q >> 8), LowByte(q)) == q
  {
  }

  /** The bytes a partial update leaves alone already are the new value's bytes. */
  lemma UntouchedBytesAgree(q: bv32, b3: bv8, b2: bv8, b1: bv8, b0: bv8)
    ensures BytesRequired(q, Join(b3, b2, b1, b0)) < 4 ==> b3 == LowByte(q >> 24)
    ensures BytesRequired(q, Join(b3, b2, b1, b0)) < 3 ==> b2 == LowByte(q >> 16)
    ensures BytesRequired(q, Join(b3, b2, b1, b0)) < 2 ==> b1 == LowByte(q >> 8)
  {
  }

  lemma TimerReassembles(t: Timer, q: bv32)
    ensures SetTimer(t, q).Raw() == q
  {
    UntouchedBytesAgree(q, t.b3.Effective(0), t.b2.Effective(0), t.b1.Effective(0), t.b0.Effective(0));
    JoinOfBytes(q);
  }

  /** Whichever bytes a write touches, byte `k` of the timer holds byte `k` of the value. */
  lemma TimerBytes(t: Timer, q: bv32)
    ensures var t' := SetTimer(t, q);
            && t'.b0.Effective(0) == (q & 0xff) as bv8 && t'.b1.Effective(0) == ((q >> 8) & 0xff) as bv8
            && t'.b2.Effective(0) == ((q >> 16) & 0xff) as bv8 && t'.b3.Effective(0) == ((q >> 24) & 0xff) as bv8
  {
    UntouchedBytesAgree(q, t.b3.Effective(0), t.b2.Effective(0), t.b1.Effective(0), t.b0.Effective(0));
  }

  /**
   A valid timer rewrites a byte above the lowest exactly when the value changed there or
   above, so the others need not be sent again; a timer that is not valid rewrites all four.
   */
  lemma TimerTouches(t: Timer, q: bv32)
    ensures var t' := SetTimer(t, q);
            && t'.b0 == SetValue(t.b0, LowByte(q))
            && t'.b1 == (if !t.IsFieldValid() || q >> 8 != t.Raw() >> 8 then SetValue(t.b1, LowByte(q >> 8)) else t.b1)
            && t'.b2 == (if !t.IsFieldValid()
                            || q >> 16 != t.Raw() >> 16 then SetValue(t.b2, LowByte(q >> 16)) else t.b2)
            && t'.b3 == (if !t.IsFieldValid()
                            || q >> 24 != t.Raw() >> 24 then SetValue(t.b3, LowByte(q >> 24)) else t.b3)
  {
    BytesRequiredExact(q, t.Raw());
  }

  /** A byte above the lowest is rewritten exactly when the value changed at that byte or above it. */
  lemma BytesRequiredExact(n: bv32, o: bv32)
    ensures BytesRequired(n, o) >= 4 <==> n >> 24 != o >> 24
    ensures BytesRequired(n, o) >= 3 <==> n >> 16 != o >> 16
    ensures BytesRequired(n, o) >= 2 <==> n >> 8 != o >> 8
  {
    var diff := n ^ o;
    assert diff & 0xff00_0000 != 0 <==> n >> 24 != o >> 24;
    assert diff & 0xffff_0000 != 0 <==> n >> 16 != o >> 16;
    assert diff & 0xff00_0000 != 0 ==> diff & 0xffff_0000 != 0;
    assert diff & 0xffff_0000 != 0 || diff & 0x0000_ff00 != 0 <==> n >> 8 != o >> 8;
  }

  /** The merge histories of a sender's four bytes. */
  datatype TimerRun = TimerRun(r0: FieldRun<bv8>, r1: FieldRun<bv8>, r2: FieldRun<bv8>, r3: FieldRun<bv8>) {

    ghost predicate Valid() { ValidFieldRun(r0) && ValidFieldRun(r1) && ValidFieldRun(r2) && ValidFieldRun(r3) }

    function State(): Timer { Timer(r0.State(0), r1.State(0), r2.State(0), r3.State(0)) }

    function RawAsOf(b: SequenceNumber): bv32 {
      Join(r3.EffectiveAsOf(b, 0), r2.EffectiveAsOf(b, 0), r1.EffectiveAsOf(b, 0), r0.EffectiveAsOf(b, 0))
    }
  }

  function MergeDelivered(receiver: Timer, sender: Timer, b: SequenceNumber, stamp: SequenceNumber,
                          inherit: bool): Timer {
    Timer(Merge(receiver.b0, Delivered(sender.b0, b, None, 0), stamp, inherit, 0).field,
          Merge(receiver.b1, Delivered(sender.b1, b, None, 0), stamp, inherit, 0).field,
          Merge(receiver.b2, Delivered(sender.b2, b, None, 0), stamp, inherit, 0).field,
          Merge(receiver.b3, Delivered(sender.b3, b, None, 0), stamp, inherit, 0).field)
  }

  lemma JoinInjective(a: Timer, b3: bv8, b2: bv8, b1: bv8, b0: bv8)
    requires a.Raw() == Join(b3, b2, b1, b0)
    ensures a.b3.Effective(0) == b3 && a.b2.Effective(0) == b2 && a.b1.Effective(0) == b1 && a.b0.Effective(0) == b0
  {
  }

  /**
   A receiver that showed the sender's time as of the baseline shows its current time once
   the dirty bytes are merged.
   */
  lemma TimerConverges(run: TimerRun, b: SequenceNumber, receiver: Timer, stamp: SequenceNumber, inherit: bool)
    requires run.Valid() && receiver.Raw() == run.RawAsOf(b)
    ensures MergeDelivered(receiver, run.State(), b, stamp, inherit).Raw() == run.State().Raw()
  {
    JoinInjective(receiver, run.r3.EffectiveAsOf(b, 0), run.r2.EffectiveAsOf(b, 0), run.r1.EffectiveAsOf(b, 0),
                  run.r0.EffectiveAsOf(b, 0));
    FieldConverges(run.r0, b, receiver.b0, None, stamp, inherit, 0);
    FieldConverges(run.r1, b, receiver.b1, None, stamp, inherit, 0);
    FieldConverges(run.r2, b, receiver.b2, None, stamp, inherit, 0);
    FieldConverges(run.r3, b, receiver.b3, None, stamp, inherit, 0);
  }

  class FloatTimerDeltaField {
    const b0: ReplicatedFieldHandler<bv8>
    const b1: ReplicatedFieldHandler<bv8>
    const b2: ReplicatedFieldHandler<bv8>
    const b3: ReplicatedFieldHandler<bv8>

    ghost predicate Valid() {
      && b0 != b1 && b0 != b2 && b0 != b3 && b1 != b2 && b1 != b3 && b2 != b3
      && b0.zero == 0 && b1.zero == 0 && b2.zero == 0 && b3.zero == 0
    }

    function View(): Timer
      reads b0, b1, b2, b3
    {
      Timer(b0.View(), b1.View(), b2.View(), b3.View())
    }

    constructor ()
      ensures Valid() && fresh({b0, b1, b2, b3})
      ensures View() == Timer(FreshField(), FreshField(), FreshField(), FreshField())
    {
      b0 := new ReplicatedFieldHandler<bv8>(None, 0);
      b1 := new ReplicatedFieldHandler<bv8>(None, 0);
      b2 := new ReplicatedFieldHandler<bv8>(None, 0);
      b3 := new ReplicatedFieldHandler<bv8>(None, 0);
    }

    method SetQuantized(q: bv32)
      requires Valid()
      modifies b0, b1, b2, b3
      ensures View() == SetTimer(old(View()), q)
      ensures View().Raw() == q
    {
      TimerReassembles(View(), q);
      var needed := if View().IsFieldValid() then BytesRequired(q, View().Raw()) else 4;
      if needed >= 4 {
        b3.SetValue(LowByte(q >> 24));
      }
      if needed >= 3 {
        b2.SetValue(LowByte(q >> 16));
      }
      if needed >= 2 {
        b1.SetValue(LowByte(q >> 8));
      }
      b0.SetValue(LowByte(q));
    }
  }
}
