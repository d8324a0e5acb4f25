/**
 The two wire forms of a replicated container.

 A body starts with a VLQ mode. Mode zero is a snapshot: the sequence it was taken at, a
 count, and the entries. Any other mode is that many delta changes in live-mask batches;
 a change whose sequence repeats the previous one carries the non-sequence marker instead.
 */
module ContainerWire {
  import opened Wire
  import opened Sequences
  import opened SequenceNumbers
  import opened ContainerModel
  import opened LiveMask
  import Bits
  import Vlq

  /** How keys and values travel, the value a live change gets when there is none to send, and the decode cap. */
  datatype Format<!K, !V> = Format(keys: Codec<K>, items: Codec<V>, zero: V, cap: nat)

  ghost predicate LawfulFormat<K(!new), V(!new)>(f: Format<K, V>) {
    Lawful(f.keys) && Lawful(f.items)
  }

  const DELTA_LIMIT: nat := 0x4000

  // ----- delta changes -----

  /** The value a live change is sent with: its own, else the container's, else the default. */
  function SentValue<K, V>(f: Format<K, V>, values: map<K, V>, c: Change<K, V>): V {
    match c.Value()
    case Some(v) => v
    case None => if c.Key() in values then values[c.Key()] else f.zero
  }

  /** A change as the receiver sees it: adds have become updates, and every live change has a value. */
  function Received<K, V>(f: Format<K, V>, values: map<K, V>, c: Change<K, V>): Change<K, V> {
    if c.IsLive() then Update(c.Key(), Some(SentValue(f, values, c)), c.Sequence().Normal())
    else Remove(c.Key(), c.Sequence().Normal())
  }

  /** Writes one change after one at sequence `previous`, which it returns advanced. */
  function EmitChange<K, V>(f: Format<K, V>, values: map<K, V>, previous: Stamp, c: Change<K, V>)
    : (Stamp, seq<byte>)
  {
    var repeated := c.Sequence().Same(previous);
    (if repeated then previous else c.Sequence().Normal(),
     f.keys.encode(c.Key())
     + Encode(if repeated then ValidNonSequence else c.Sequence())
     + if c.IsLive() then f.items.encode(SentValue(f, values, c)) else [])
  }

  function ReadChange<K, V>(f: Format<K, V>, previous: Stamp, live: bool, s: seq<byte>)
    : Decoded<(Stamp, Change<K, V>)>
  {
    var (key, s1) :- f.keys.decode(s);
    var (raw, s2) :- Decode(s1);
    var stamp: Stamp := if raw.Same(ValidNonSequence) then previous else raw;
    if live then
      var (value, s3) :- f.items.decode(s2);
      Ok((stamp, Update(key, Some(value), stamp)), s3)
    else
      Ok((stamp, Remove(key, stamp)), s2)
  }

  function ChangeCodec<K, V>(f: Format<K, V>, values: map<K, V>)
    : EntryCodec<Stamp, Change<K, V>, Change<K, V>>
  {
    EntryCodec((c: Change<K, V>) => c.IsLive(),
               (previous: Stamp, c: Change<K, V>) => EmitChange(f, values, previous, c),
               (previous: Stamp, live: bool, s: seq<byte>) => ReadChange(f, previous, live, s))
  }

  function Receiver<K, V>(f: Format<K, V>, values: map<K, V>): Change<K, V> -> Change<K, V> {
    c => Received(f, values, c)
  }

  /** Sequence repeat compression is lossless on changes that do not carry the marker themselves. */
  lemma ChangeFaithful<K(!new), V(!new)>(f: Format<K, V>, values: map<K, V>, previous: Stamp,
                                         c: Change<K, V>, rest: seq<byte>)
    requires LawfulFormat(f) && !c.Sequence().Same(ValidNonSequence)
    ensures var (next, bytes) := EmitChange(f, values, previous, c);
            ReadChange(f, previous, c.IsLive(), bytes + rest) == Ok((next, Received(f, values, c)), rest)
  {
    NormalForm(c.Sequence(), previous);
    NormalForm(c.Sequence(), ValidNonSequence);
    var sent := if c.Sequence().Same(previous) then ValidNonSequence else c.Sequence();
    var key, stamp := f.keys.encode(c.Key()), Encode(sent);
    var body := if c.IsLive() then f.items.encode(SentValue(f, values, c)) else [];
    assert key + stamp + body + rest == key + (stamp + (body + rest));
    RoundTrip(sent, body + rest);
    assert body == [] ==> body + rest == rest;
  }

  function EncodeDelta<K, V>(f: Format<K, V>, values: map<K, V>, changes: seq<Change<K, V>>): seq<byte>
    requires |changes| < 0x1_0000_0000
  {
    Vlq.EncodeU32(|changes|) + WriteBatches(ChangeCodec(f, values), Invalid, changes)
  }

  // ----- snapshots -----

  /** `entries` is one iteration order of the map: every pair once, no key twice. */
  ghost predicate Enumerates<K, V>(entries: seq<(K, V)>, values: map<K, V>) {
    && |entries| == |values|
    && (forall i, j :: 0 <= i < j < |entries| ==> entries[i].0 != entries[j].0)
    && (forall i :: 0 <= i < |entries| ==> entries[i].0 in values && values[entries[i].0] == entries[i].1)
    && (forall k :: k in values ==> exists i :: 0 <= i < |entries| && entries[i].0 == k)
  }

  function EncodeEntries<K, V>(f: Format<K, V>, entries: seq<(K, V)>): seq<byte> {
    if entries == [] then []
    else f.keys.encode(entries[0].0) + f.items.encode(entries[0].1) + EncodeEntries(f, entries[1..])
  }

  /** Inserts decoded pairs one after the other; a repeated key keeps the later value. */
  function DecodeEntries<K, V>(f: Format<K, V>, count: nat, into: map<K, V>, s: seq<byte>): Decoded<map<K, V>> {
    if count == 0 then Ok(into, s)
    else
      var (key, s1) :- f.keys.decode(s);
      var (value, s2) :- f.items.decode(s1);
      DecodeEntries(f, count - 1, into[key := value], s2)
  }

  function Inserted<K, V>(entries: seq<(K, V)>, into: map<K, V>): map<K, V> {
    if entries == [] then into else Inserted(entries[1..], into[entries[0].0 := entries[0].1])
  }

  lemma {:induction false} EntriesRoundTrip<K(!new), V(!new)>(f: Format<K, V>, entries: seq<(K, V)>, into: map<K, V>,
                                                              rest: seq<byte>)
    requires LawfulFormat(f)
    ensures DecodeEntries(f, |entries|, into, EncodeEntries(f, entries) + rest) == Ok(Inserted(entries, into), rest)
  {
    if entries != [] {
      var key, value := f.keys.encode(entries[0].0), f.items.encode(entries[0].1);
      var more := EncodeEntries(f, entries[1..]) + rest;
      assert EncodeEntries(f, entries) + rest == key + (value + more);
      EntriesRoundTrip(f, entries[1..], into[entries[0].0 := entries[0].1], rest);
    }
  }

  ghost predicate Within<K, V>(m: map<K, V>, values: map<K, V>) {
    forall k :: k in m ==> k in values && m[k] == values[k]
  }

  /** Inserting pairs of a map into a part of it stays within the map and reaches every key inserted. */
  lemma {:induction false} InsertedWithin<K, V>(entries: seq<(K, V)>, into: map<K, V>, values: map<K, V>)
    requires Within(into, values)
    requires forall i :: 0 <= i < |entries| ==> entries[i].0 in values && values[entries[i].0] == entries[i].1
    ensures Within(Inserted(entries, into), values)
    ensures into.Keys <= Inserted(entries, into).Keys
    ensures forall i :: 0 <= i < |entries| ==> entries[i].0 in Inserted(entries, into)
  {
    if entries != [] {
      InsertedWithin(entries[1..], into[entries[0].0 := entries[0].1], values);
      assert forall i :: 0 < i < |entries| ==> entries[i] == entries[1..][i - 1];
    }
  }

  /** Any iteration order rebuilds the map. */
  lemma EnumerationRebuilds<K, V>(entries: seq<(K, V)>, values: map<K, V>)
    requires Enumerates(entries, values)
    ensures Inserted(entries, map[]) == values
  {
    InsertedWithin(entries, map[], values);
  }

  function EncodeSnapshot<K, V>(f: Format<K, V>, stamp: SequenceNumber, entries: seq<(K, V)>): seq<byte>
    requires |entries| < 0x1_0000_0000
  {
    Vlq.EncodeU32(0) + (Encode(stamp) + Vlq.EncodeU32(|entries|) + EncodeEntries(f, entries))
  }

  // ----- containers on the wire -----

  /** A container freshly decoded from a snapshot. */
  function SnapshotOf<K, V>(stamp: SequenceNumber, values: map<K, V>): Container<K, V> {
    Fresh<K, V>().(lastModified := ValidNonSequence, lastFullMarshal := stamp, values := values,
    newNetworkData := true, lastProcessed := stamp)
  }

  /** A container freshly decoded from a delta. */
  function DeltaOf<K, V>(changes: seq<Change<K, V>>): Container<K, V> {
    Fresh<K, V>().(lastModified := ValidNonSequence, current := changes, initialize := false, pendingDelta := true,
    newNetworkData := true)
  }

  function DecodeSnapshot<K, V>(f: Format<K, V>, s: seq<byte>): Decoded<Container<K, V>> {
    var (stamp, s1) :- Decode(s);
    var (count, s2) :- Vlq.DecodeU32(s1);
    if count > f.cap then Err(ContainerOverflow(count, f.cap))
    else
      var (values, s3) :- DecodeEntries(f, count, map[], s2);
      Ok(SnapshotOf(stamp, values), s3)
  }

  function DecodeContainer<K, V>(f: Format<K, V>, s: seq<byte>): Decoded<Container<K, V>> {
    var (mode, s1) :- Vlq.DecodeU32(s);
    if mode == 0 then DecodeSnapshot(f, s1)
    else if mode > f.cap then Err(ContainerOverflow(mode, f.cap))
    else
      var (changes, s2) :- ReadBatches(ChangeCodec(f, map[]), Invalid, mode, s1);
      Ok(DeltaOf(changes), s2)
  }

  /**
   What a container sends against a baseline; `inefficient` and `entries` stand for the size
   test and the map's order.
   */
  function MarshalSince<K, V>(f: Format<K, V>, c: Container<K, V>, baseline: SequenceNumber, inefficient: bool,
                              entries: seq<(K, V)>): seq<byte>
    requires |entries| < 0x1_0000_0000
  {
    var changes := if baseline.IsValid() then Summarize(c, baseline, inefficient) else [];
    if changes == [] || |changes| >= DELTA_LIMIT then EncodeSnapshot(f, c.lastModified, entries)
    else EncodeDelta(f, c.values, changes)
  }

  lemma SnapshotBodyRoundTrip<K(!new), V(!new)>(f: Format<K, V>, stamp: SequenceNumber, entries: seq<(K, V)>,
                                                rest: seq<byte>)
    requires LawfulFormat(f) && |entries| <= f.cap && |entries| < 0x1_0000_0000
    ensures DecodeSnapshot(f, Encode(stamp) + Vlq.EncodeU32(|entries|) + EncodeEntries(f, entries) + rest)
         == Ok(SnapshotOf(stamp.Normal(), Inserted(entries, map[])), rest)
  {
    var head, count, body := Encode(stamp), Vlq.EncodeU32(|entries|), EncodeEntries(f, entries);
    assert head + count + body + rest == head + (count + (body + rest));
    RoundTrip(stamp, count + (body + rest));
    Vlq.U32RoundTrip(|entries|, body + rest);
    EntriesRoundTrip(f, entries, map[], rest);
  }

  lemma SnapshotRoundTrip<K(!new), V(!new)>(f: Format<K, V>, stamp: SequenceNumber, entries: seq<(K, V)>,
                                            values: map<K, V>, rest: seq<byte>)
    requires LawfulFormat(f) && Enumerates(entries, values)
    requires |values| <= f.cap && |values| < 0x1_0000_0000
    ensures DecodeContainer(f, EncodeSnapshot(f, stamp, entries) + rest) == Ok(SnapshotOf(stamp.Normal(), values), rest)
  {
    var body := Encode(stamp) + Vlq.EncodeU32(|entries|) + EncodeEntries(f, entries);
    Reassociate(Vlq.EncodeU32(0), body, rest);
    Vlq.U32RoundTrip(0, body + rest);
    SnapshotBodyRoundTrip(f, stamp, entries, rest);
    EnumerationRebuilds(entries, values);
  }

  /**
   Delta wire round trip: every non-empty change list within the cap, none of whose
   changes carries the repeat marker, is read back change for change and consumes exactly
   the bytes written, across live-mask batches and repeated sequences.
   */
  lemma DeltaRoundTrip<K(!new), V(!new)>(f: Format<K, V>, values: map<K, V>, changes: seq<Change<K, V>>,
                                         rest: seq<byte>)
    requires LawfulFormat(f) && NoRepeatMarker(changes)
    requires 0 < |changes| <= f.cap && |changes| < 0x1_0000_0000
    ensures DecodeContainer(f, EncodeDelta(f, values, changes) + rest)
         == Ok(DeltaOf(Images(Receiver(f, values), changes)), rest)
  {
    var batches := WriteBatches(ChangeCodec(f, values), Invalid, changes);
    assert EncodeDelta(f, values, changes) + rest == Vlq.EncodeU32(|changes|) + (batches + rest);
    Vlq.U32RoundTrip(|changes|, batches + rest);
    forall c | c in changes
      ensures Faithful(ChangeCodec(f, values), Receiver(f, values), c)
    {
      forall previous: Stamp, tail: seq<byte>
        ensures ReadChange(f, previous, c.IsLive(), EmitChange(f, values, previous, c).1 + tail)
             == Ok((EmitChange(f, values, previous, c).0, Received(f, values, c)), tail)
      {
        ChangeFaithful(f, values, previous, c, tail);
      }
    }
    ReadInvertsWrite(ChangeCodec(f, values), Receiver(f, values), Invalid, changes, rest);
    ReaderIgnoresValues(f, values, Invalid, |changes|, batches + rest);
  }

  /** The reading side does not look at the sender's values. */
  lemma {:induction false} ReaderIgnoresValues<K, V>(f: Format<K, V>, values: map<K, V>, state: Stamp, total: nat,
                                                     s: seq<byte>)
    ensures ReadBatches(ChangeCodec(f, values), state, total, s) == ReadBatches(ChangeCodec(f, map[]), state, total, s)
    decreases total
  {
    if total > 0 && ReadByte(s).Ok? {
      var mask, body := ReadByte(s).value, ReadByte(s).rest;
      ChunkReaderIgnoresValues(f, values, state, mask, 0, Batch(total), body);
      var chunk := ReadChunk(ChangeCodec(f, values), state, mask, 0, Batch(total), body);
      if chunk.Ok? {
        ReaderIgnoresValues(f, values, chunk.value.0, total - Batch(total), chunk.rest);
      }
    }
  }

  lemma {:induction false} ChunkReaderIgnoresValues<K, V>(f: Format<K, V>, values: map<K, V>, state: Stamp, mask: byte,
                                                          bit: nat, batch: nat, s: seq<byte>)
    requires bit <= batch
    ensures ReadChunk(ChangeCodec(f, values), state, mask, bit, batch, s)
         == ReadChunk(ChangeCodec(f, map[]), state, mask, bit, batch, s)
    decreases batch - bit
  {
    if bit < batch {
      var head := ReadChange(f, state, Bits.Bit(mask, bit), s);
      if head.Ok? {
        ChunkReaderIgnoresValues(f, values, head.value.0, mask, bit + 1, batch, head.rest);
      }
    }
  }

  // ----- whatever decodes -----

  lemma {:induction false} DecodedEntriesBounded<K, V>(f: Format<K, V>, count: nat, into: map<K, V>, s: seq<byte>)
    ensures var r := DecodeEntries(f, count, into, s); r.Ok? ==> |r.value| <= |into| + count
  {
    if count > 0 {
      var key := f.keys.decode(s);
      if key.Ok? {
        var value := f.items.decode(key.rest);
        if value.Ok? {
          var into' := into[key.value := value.value];
          assert into'.Keys == into.Keys + {key.value};
          DecodedEntriesBounded(f, count - 1, into', value.rest);
        }
      }
    }
  }

  /** Every change knows its value. */
  ghost predicate AllKnown<K, V>(changes: seq<Change<K, V>>) {
    forall i :: 0 <= i < |changes| ==> changes[i].IsEffective()
  }

  lemma {:induction false} DecodedBatchesKnown<K(!new), V(!new)>(f: Format<K, V>, total: nat, s: seq<byte>)
    ensures var r := ReadBatches(ChangeCodec(f, map[]), Invalid, total, s);
            r.Ok? ==> |r.value| == total && AllKnown(r.value)
  {
    ReadEntriesSatisfy(ChangeCodec(f, map[]), (c: Change<K, V>) => c.IsEffective(), Invalid, total, s);
  }

  /**
   Whatever bytes decode to is flagged as new network data, stamped, has no journal, and is
   either a snapshot that initialises and carries its sequence as its mark, or a pending
   delta of changes that all know their values; neither is larger than the cap.
   */
  lemma {:induction false} DecodedShape<K(!new), V(!new)>(f: Format<K, V>, s: seq<byte>)
    ensures var r := DecodeContainer(f, s);
            r.Ok? ==>
              && r.value.newNetworkData && r.value.lastModified.IsValid() && r.value.journal == []
              && r.value.initialize == !r.value.pendingDelta && !r.value.defaultValue
              && |r.value.values| <= f.cap && |r.value.current| <= f.cap
              && r.value.lastProcessed == r.value.lastFullMarshal
              && (r.value.initialize ==> r.value.current == [])
              && (r.value.pendingDelta ==> r.value.current != [] && r.value.values == map[]
                                           && !r.value.lastProcessed.IsValid()
                                           && AllKnown(r.value.current))
  {
    var mode := Vlq.DecodeU32(s);
    if mode.Ok? {
      if mode.value == 0 {
        DecodedSnapshotShape(f, mode.rest);
      } else {
        DecodedBatchesKnown(f, mode.value, mode.rest);
      }
    }
  }

  lemma {:induction false} DecodedSnapshotShape<K, V>(f: Format<K, V>, s: seq<byte>)
    ensures var r := DecodeSnapshot(f, s);
            r.Ok? ==> |r.value.values| <= f.cap
                      && r.value == SnapshotOf(r.value.lastProcessed, r.value.values)
  {
    var stamp := Decode(s);
    if stamp.Ok? {
      var count := Vlq.DecodeU32(stamp.rest);
      if count.Ok? {
        DecodedEntriesBounded(f, count.value, map[], count.rest);
      }
    }
  }

  lemma {:induction false} OverCapBodyRefused<K, V>(f: Format<K, V>, stamp: SequenceNumber, count: u32, rest: seq<byte>)
    requires f.cap < count
    ensures DecodeSnapshot(f, Encode(stamp) + (Vlq.EncodeU32(count) + rest)) == Err(ContainerOverflow(count, f.cap))
  {
    RoundTrip(stamp, Vlq.EncodeU32(count) + rest);
    Vlq.U32RoundTrip(count, rest);
  }

  /** A snapshot over the receiver's cap is refused, naming both sizes. */
  lemma {:induction false} OverCapSnapshotRefused<K, V>(f: Format<K, V>, stamp: SequenceNumber, entries: seq<(K, V)>,
                                                        rest: seq<byte>)
    requires f.cap < |entries| < 0x1_0000_0000
    ensures DecodeContainer(f, EncodeSnapshot(f, stamp, entries) + rest) == Err(ContainerOverflow(|entries|, f.cap))
  {
    var head, count, body := Encode(stamp), Vlq.EncodeU32(|entries|), EncodeEntries(f, entries);
    var tail := head + (count + (body + rest));
    assert Vlq.EncodeU32(0) + (head + count + body) + rest == Vlq.EncodeU32(0) + tail;
    Vlq.U32RoundTrip(0, tail);
    OverCapBodyRefused(f, stamp, |entries|, body + rest);
  }

  /** So is a delta. */
  lemma {:induction false} OverCapDeltaRefused<K, V>(f: Format<K, V>, values: map<K, V>, changes: seq<Change<K, V>>,
                                                     rest: seq<byte>)
    requires f.cap < |changes| < 0x1_0000_0000
    ensures DecodeContainer(f, EncodeDelta(f, values, changes) + rest) == Err(ContainerOverflow(|changes|, f.cap))
  {
    var batches := WriteBatches(ChangeCodec(f, values), Invalid, changes);
    Reassociate(Vlq.EncodeU32(|changes|), batches, rest);
    Vlq.U32RoundTrip(|changes|, batches + rest);
  }
}
