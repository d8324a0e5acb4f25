/**
 Where the bytes are. The round trips elsewhere hold of any format both sides agree on; the
 lemmas here fix the format itself, byte by byte, for every value.
 */
module WireLayout {
  import opened Wire
  import opened Sequences
  import opened Bits
  import opened SequenceNumbers
  import opened LiveMask
  import opened ContainerModel
  import Vlq
  import ContainerWire
  import BundleRecords
  import BundleMessage
  import HubMessage
  import Crc32
  import FixedModel
  import FixedWire
  import Fields

  // ----- integers -----

  /** Fixed-width integers travel most significant byte first. */
  lemma BigEndianLayout(v: u16, w: u32)
    ensures |EncodeU16(v)| == 2 && |EncodeU32(w)| == 4
    ensures v == 0x100 * EncodeU16(v)[0] as nat + EncodeU16(v)[1] as nat
    ensures w == 0x100_0000 * EncodeU32(w)[0] as nat + 0x1_0000 * EncodeU32(w)[1] as nat
                 + 0x100 * EncodeU32(w)[2] as nat + EncodeU32(w)[3] as nat
  {
  }

  /** Byte `j` of a number, counted from the least significant. */
  function ByteAt(v: nat, j: nat): nat
    decreases j
  {
    if j == 0 then v % 0x100 else ByteAt(v / 0x100, j - 1)
  }

  lemma {:induction false} LowBytesLayout(v: nat, n: nat, j: nat)
    requires j < n
    ensures Vlq.LowBytes(v, n)[j] as nat == ByteAt(v, j)
  {
    if j > 0 {
      LowBytesLayout(v / 0x100, n - 1, j - 1);
    }
  }

  /** A byte with `k` leading ones and zeros behind them. */
  function LeadingOnes(k: nat): nat { if k == 0 then 0 else 0x80 + LeadingOnes(k - 1) / 2 }

  /** What the first of `k + 1` bytes can hold besides its leading ones and the zero behind them. */
  function Spare(k: nat): nat
    decreases 7 - k
  {
    if k >= 7 then 1 else 2 * Spare(k + 1)
  }

  /** How far the values go that fit in `k + 1` bytes: seven bits to a byte. */
  function Capacity(k: nat): nat { if k == 0 then 0x80 else 0x80 * Capacity(k - 1) }

  lemma {:induction false} FirstBytes()
    ensures LeadingOnes(0) == 0 && LeadingOnes(1) == 0x80 && LeadingOnes(2) == 0xC0 && LeadingOnes(3) == 0xE0
    ensures LeadingOnes(4) == 0xF0 && LeadingOnes(5) == 0xF8 && LeadingOnes(6) == 0xFC && LeadingOnes(7) == 0xFE
    ensures LeadingOnes(8) == 0xFF
    ensures Spare(0) == 0x80 && Spare(1) == 0x40 && Spare(2) == 0x20 && Spare(3) == 0x10 && Spare(4) == 8
    ensures Spare(5) == 4 && Spare(6) == 2 && Spare(7) == 1 && Spare(8) == 1
  {
  }

  lemma {:induction false} Capacities()
    ensures Capacity(0) == 0x80 && Capacity(1) == 0x4000 && Capacity(2) == 0x20_0000 && Capacity(3) == 0x1000_0000
    ensures Capacity(4) == 0x8_0000_0000 && Capacity(5) == 0x0400_0000_0000
    ensures Capacity(6) == 0x0002_0000_0000_0000 && Capacity(7) == 0x0100_0000_0000_0000
  {
  }

  /**
   A variable-length integer of `k + 1` bytes: the first has `k` leading ones and, unless
   they leave no room, a zero and the value's lowest bits, `low`; the others hold the rest,
   `high`, least significant byte first.
   */
  ghost predicate LaidOut(s: seq<byte>, k: nat, low: nat, high: nat) {
    && |s| == k + 1 && s[0] as nat == LeadingOnes(k) + low
    && forall j :: 0 < j <= k ==> s[j] as nat == ByteAt(high, j - 1)
  }

  /** The value's lowest bits and the rest. */
  ghost predicate Splits(v: nat, k: nat, low: nat, high: nat) { low < Spare(k) && v == low + Spare(k) * high }

  lemma {:induction false} PackedLayout(first: byte, k: nat, low: nat, high: nat)
    requires first as nat == LeadingOnes(k) + low
    ensures LaidOut(Vlq.Pack(first, high, k), k, low, high)
  {
    forall j | 0 < j <= k
      ensures Vlq.Pack(first, high, k)[j] as nat == ByteAt(high, j - 1)
    {
      LowBytesLayout(high, k, j - 1);
    }
  }

  /** Every u32 travels so, in the fewest bytes that hold it, at most five. */
  lemma {:induction false} U32Layout(v: u32) returns (k: nat, low: nat, high: nat)
    ensures k <= 4 && Splits(v, k, low, high) && LaidOut(Vlq.EncodeU32(v), k, low, high)
    ensures v < Capacity(k) && (k > 0 ==> v >= Capacity(k - 1))
  {
    FirstBytes();
    Capacities();
    if v < 0x80 {
      k, low, high := 0, v, 0;
    } else if v < 0x4000 {
      k, low, high := 1, v % 0x40, v / 0x40;
    } else if v < 0x20_0000 {
      k, low, high := 2, v % 0x20, v / 0x20;
    } else if v < 0x1000_0000 {
      k, low, high := 3, v % 0x10, v / 0x10;
    } else {
      k, low, high := 4, v % 8, v / 8;
    }
    PackedLayout(LeadingOnes(k) + low, k, low, high);
  }

  /** Every u64 does too, in the fewest bytes that hold it but never in five, and nine when eight are too few. */
  lemma {:induction false} U64Layout(v: u64) returns (k: nat, low: nat, high: nat)
    ensures k <= 8 && k != 4 && Splits(v, k, low, high) && LaidOut(Vlq.EncodeU64(v), k, low, high)
    ensures k == 8 || v < Capacity(k)
    ensures k > 0 ==> v >= Capacity(if k == 5 then 3 else k - 1)
  {
    FirstBytes();
    Capacities();
    if v < 0x1000_0000 {
      k, low, high := U32Layout(v);
      return;
    } else if v < 0x0400_0000_0000 {
      k, low, high := 5, v % 4, v / 4;
    } else if v < 0x0002_0000_0000_0000 {
      k, low, high := 6, v % 2, v / 2;
    } else if v < 0x0100_0000_0000_0000 {
      k, low, high := 7, 0, v;
    } else {
      k, low, high := 8, 0, v;
    }
    PackedLayout(LeadingOnes(k) + low, k, low, high);
  }

  /**
   A sequence number is a byte that says whether it is valid, and if so its raw value; the
   marker's raw value is zero.
   */
  lemma SequenceLayout(s: SequenceNumber)
    ensures SequenceNumbers.Encode(s) == if s.IsValid() then [1] + Vlq.EncodeU64(s.Raw()) else [0]
    ensures ValidNonSequence.Raw() == 0 && !Invalid.IsValid() && forall n: u64 :: Seq(n).Raw() == n
    ensures FromRaw(0) == ValidNonSequence && FromRaw(U64_MAX) == Invalid
    ensures forall n: u64 :: 0 < n < U64_MAX ==> FromRaw(n) == Seq(n)
    ensures Invalid.Lt(ValidNonSequence) && forall m: u64, n: u64 :: m < n < U64_MAX ==> Seq(m).Lt(Seq(n))
  {
  }

  // ----- containers -----

  /**
   A batch opens with a byte whose bit `i` says whether entry `i` is live, its higher bits are
   zero, and it is followed by exactly eight entries unless fewer are left.
   */
  lemma {:induction false} BatchLayout<S, T, U>(codec: EntryCodec<S, T, U>, state: S, entries: seq<T>, i: nat)
    requires entries != []
    ensures WriteBatches(codec, state, entries) != []
    ensures var mask := WriteBatches(codec, state, entries)[0];
            Bit(mask, i) <==> i < 8 && i < |entries| && codec.live(entries[i])
    ensures var n := if |entries| < 8 then |entries| else 8;
            var (state', body) := EmitChunk(codec, state, entries[..n]);
            WriteBatches(codec, state, entries)[1..] == body + WriteBatches(codec, state', entries[n..])
  {
    var n := Batch(|entries|);
    MaskBit(LiveBits(codec, entries[..n]), i);
    var (state', body) := EmitChunk(codec, state, entries[..n]);
    assert WriteBatches(codec, state, entries)
        == [MaskByte(codec, entries[..n])] + body + WriteBatches(codec, state', entries[n..]);
  }

  /** Entries of a batch follow one another in order. */
  lemma {:induction false} ChunkLayout<S, T, U>(codec: EntryCodec<S, T, U>, state: S, chunk: seq<T>)
    requires chunk != []
    ensures codec.emit(state, chunk[0]).1 <= EmitChunk(codec, state, chunk).1
  {
  }

  /** A change is its key, its sequence or the marker for the one before, and its value if it is live. */
  lemma {:induction false} ChangeLayout<K, V>(f: ContainerWire.Format<K, V>, values: map<K, V>, previous: Stamp,
                                              c: Change<K, V>)
    ensures var key := f.keys.encode(c.Key());
            var stamp := if c.Sequence().Same(previous) then [1, 0] else SequenceNumbers.Encode(c.Sequence());
            var value := if c.Value().Some? then f.items.encode(c.Value().value)
                         else if !c.IsLive() then []
                         else f.items.encode(if c.Key() in values then values[c.Key()] else f.zero);
            ContainerWire.EmitChange(f, values, previous, c).1 == key + stamp + value
  {
  }

  /** A snapshot is a zero, its sequence, the number of its entries, and each key with its value behind it. */
  lemma {:induction false} SnapshotLayout<K, V>(f: ContainerWire.Format<K, V>, stamp: SequenceNumber,
                                                entries: seq<(K, V)>)
    requires |entries| < 0x1_0000_0000
    ensures [0] + SequenceNumbers.Encode(stamp) + Vlq.EncodeU32(|entries|)
         <= ContainerWire.EncodeSnapshot(f, stamp, entries)
    ensures entries != [] ==> (var pair := f.keys.encode(entries[0].0) + f.items.encode(entries[0].1);
                               pair <= ContainerWire.EncodeEntries(f, entries))
  {
    var count, body := Vlq.EncodeU32(|entries|), ContainerWire.EncodeEntries(f, entries);
    assert [0] + (SequenceNumbers.Encode(stamp) + count + body) == [0] + SequenceNumbers.Encode(stamp) + count + body;
  }

  /** A delta is the number of its changes, never zero, and their batches. */
  lemma {:induction false} DeltaLayout<K, V>(f: ContainerWire.Format<K, V>, values: map<K, V>,
                                             changes: seq<Change<K, V>>)
    requires 0 < |changes| < 0x1_0000_0000
    ensures var head := Vlq.EncodeU32(|changes|);
            && head <= ContainerWire.EncodeDelta(f, values, changes) && head[0] != 0
            && ContainerWire.EncodeDelta(f, values, changes)[|head|..]
               == WriteBatches(ContainerWire.ChangeCodec(f, values), Invalid, changes)
  {
  }

  // ----- fixed states -----

  /**
   A group opens with its field mask, whose bit `i` says whether field `i` follows; it is
   left out when that is zero.
   */
  lemma {:induction false} GroupLayout<V>(specs: seq<FixedModel.FieldSpec<V>>, fields: seq<Fields.Field<V>>,
                                          b: SequenceNumber, mask: u64)
    requires |fields| == |specs| <= 64
    requires forall j :: 0 <= j < 64 ==> (Bit(mask, j) <==> j < |fields| && fields[j].IsDirtySince(b))
    ensures FixedWire.GroupBytes(specs, fields, b).None? <==> mask == 0
    ensures mask != 0 ==> Vlq.EncodeU64(mask) <= FixedWire.GroupBytes(specs, fields, b).value
  {
    SameMask(fields, b, mask);
  }

  lemma {:induction false} SameMask<V>(fields: seq<Fields.Field<V>>, b: SequenceNumber, mask: u64)
    requires |fields| <= 64
    requires forall j :: 0 <= j < 64 ==> (Bit(mask, j) <==> j < |fields| && fields[j].IsDirtySince(b))
    ensures FixedWire.FieldMask(fields, b) == mask
  {
    var n := 0;
    Pow2SixteenDigits(n);
    assert Pow2(n) == 1;
    MaskOfBits(mask, n + 64);
    MaskOfBits(FixedWire.FieldMask(fields, b), n + 64);
    forall j | 0 <= j < 64
      ensures Bit(FixedWire.FieldMask(fields, b), j) == Bit(mask, j)
    {
      MaskBit(FixedWire.DirtyBits(fields, b), j);
    }
    assert BitsOf(mask, n + 64) == BitsOf(FixedWire.FieldMask(fields, b), n + 64);
  }

  /** A field whose bit is set is written before those behind it. */
  lemma {:induction false} BodiesLayout<V>(specs: seq<FixedModel.FieldSpec<V>>, fields: seq<Fields.Field<V>>,
                                           b: SequenceNumber, mask: nat, i: nat)
    requires i < |specs| == |fields| && Bit(mask, i) && fields[i].value.Some?
    ensures specs[i].encode(fields[i].value.value, b) + FixedWire.Bodies(specs, fields, b, mask, i + 1)
         == FixedWire.Bodies(specs, fields, b, mask, i)
  {
  }

  // ----- bundles -----

  /** The control block: how many ids, how many of them stop ids, and then the ids, stops first. */
  lemma {:induction false} ControlLayout(c: BundleMessage.Control, i: nat)
    requires c.Len() <= 100 && i < c.Len()
    ensures var s := BundleMessage.EncodeControl(c);
            var id := if i < |c.stops| then c.stops[i] else c.pauses[i - |c.stops|];
            && |s| == 2 + 2 * c.Len() && s[0] as nat == c.Len() && s[1] as nat == |c.stops|
            && 0x100 * s[2 + 2 * i] as nat + s[3 + 2 * i] as nat == id as nat
  {
    IdAt(c.stops + c.pauses, i);
  }

  lemma {:induction false} IdAt(ids: seq<u16>, i: nat)
    requires i < |ids|
    ensures var s := BundleMessage.EncodeIds(ids);
            0x100 * s[2 * i] as nat + s[2 * i + 1] as nat == ids[i] as nat
  {
    if i > 0 {
      IdAt(ids[1..], i - 1);
    }
  }

  /**
   A bundle: its sequence, context id, bandwidth mode, a reliability flag, a control flag and
   block, and its buffer.
   */
  lemma {:induction false} BundleLayout(b: BundleMessage.Bundle)
    requires BundleMessage.Marshallable(b)
    ensures var flags := [b.contextId, b.bandwidthMode, if b.unreliable then 1 else 0, if b.control.Some? then 1
                          else 0];
            var control := if b.control.Some? then BundleMessage.EncodeControl(b.control.value) else [];
            BundleMessage.Encode(b)
            == SequenceNumbers.Encode(b.sequence) + (flags + (control + (Vlq.EncodeU32(|b.buffer|) + b.buffer)))
  {
    var u, c: byte := if b.unreliable then 1 else 0, if b.control.Some? then 1 else 0;
    var flags: seq<byte> := [b.contextId, b.bandwidthMode, u, c];
    var control := if b.control.Some? then BundleMessage.EncodeControl(b.control.value) else [];
    var buffer := Vlq.EncodeU32(|b.buffer|) + b.buffer;
    assert BundleMessage.EncodeFlags(b) + [c] == flags;
    assert BundleMessage.EncodeTail(b) == [c] + control + buffer;
    Regroup(SequenceNumbers.Encode(b.sequence), BundleMessage.EncodeFlags(b), [c], control, buffer);
  }

  lemma {:induction false} Regroup(a: seq<byte>, b: seq<byte>, c: seq<byte>, d: seq<byte>, e: seq<byte>)
    ensures a + b + (c + d + e) == a + (b + c + (d + e))
  {
  }

  /** A record opens with its id and the number of its fragments; a fragment is its key, its type and its body. */
  lemma {:induction false} RecordLayout<B>(codec: BundleRecords.BodyCodec<B>, r: BundleRecords.Record<B>)
    requires BundleRecords.Countable(r)
    ensures var s := BundleRecords.EncodeRecord(BundleRecords.WireFormat(codec), r);
            var f := r.fragments[0];
            var typeInfo := match f.typeInfo
              case TypeIndex(index) => Vlq.EncodeU32(index)
              case RawUuid(uuid) => [0] + uuid;
            Vlq.EncodeU32(r.interestId) + [|r.fragments|]
            + (Vlq.EncodeU32(f.key) + typeInfo + codec.encode(f.typeInfo, f.body)) <= s
  {
    var head := Vlq.EncodeU32(r.interestId) + [|r.fragments|];
    var format, f := BundleRecords.WireFormat(codec), r.fragments[0];
    var first, more := BundleRecords.EncodeFragment(format, f), BundleRecords.EncodeFragments(format, r.fragments[1..]);
    assert head + (first + more) == head + first + more;
  }

  // ----- frames -----

  /**
   A correlated frame: the checksum of the id and the envelope, their length, both most
   significant byte first, then the id and the envelope. A sized one: its length and the envelope.
   */
  lemma {:induction false} FrameLayout(id: Uuid, envelope: seq<byte>)
    requires |envelope| < 0x1_0000_0000 - 16
    ensures var s := HubMessage.EncodeCorrelated(id, envelope);
            && s[..4] == EncodeU32(Crc32.Checksum(id + envelope)) && s[4..8] == EncodeU32(16 + |envelope|)
            && s[8..24] == id && s[24..] == envelope
    ensures HubMessage.EncodeSized(envelope) == Vlq.EncodeU32(|envelope|) + envelope
  {
  }
}
