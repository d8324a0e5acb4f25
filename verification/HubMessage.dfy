/**
 Hub message envelopes and the two ways they are framed: client to server behind a CRC,
 a size and a correlation id, and server to client behind a VLQ size.
 */
module HubMessage {
  import opened Wire
  import opened Sequences
  import Crc32
  import Vlq

  datatype MessageTypeId = TypeIndex(index: u32) | ByUuid(uuid: Uuid)

  datatype Envelope = Envelope(raw: seq<byte>, outerFlags: byte, field1: Option<seq<byte>>, field2: Option<seq<byte>>,
                               typeId: MessageTypeId, body: seq<byte>)

  /** A field of eight bytes that is there only when its flag is. */
  function ReadField(present: bool, s: seq<byte>): Decoded<Option<seq<byte>>> {
    if !present then Ok(None, s)
    else
      var (field, rest) :- ReadBytes(s, 8);
      Ok(Some(field), rest)
  }

  function ReadTypeId(s: seq<byte>): Decoded<MessageTypeId> {
    var (index, s1) :- Vlq.DecodeU32(s);
    if index != 0 then Ok(TypeIndex(index), s1)
    else
      var (uuid, s2) :- ReadBytes(s1, 16);
      Ok(ByUuid(uuid), s2)
  }

  /** Parses an envelope that fills `raw`; an empty one is reported as such, not as malformed. */
  function ParseEnvelope(raw: seq<byte>): Decoded<Envelope> {
    var (outer, s1) :- ReadByte(raw);
    var (field1, s2) :- ReadField(outer % 2 == 1, s1);
    var (field2, s3) :- ReadField(outer / 2 % 2 == 1, s2);
    var (flags, s4) :- ReadByte(s3);
    if flags == 0 then Err(EmptyEnvelope)
    else if flags >= 2 then Err(InvalidEnvelopeFlags(flags))
    else
      var (typeId, body) :- ReadTypeId(s4);
      Ok(Envelope(raw, outer, field1, field2, typeId, body), [])
  }

  /** Outcome of reading one frame; `rest` is what follows it, and counts when the frame was whole. */
  datatype FrameRead = FrameRead(result: Result<Envelope>, rest: seq<byte>) {
    /** A frame that was there in full, whether it carried a message or was empty. */
    predicate Whole() { result.Success? || result.error == EmptyEnvelope }
  }

  function ReadEnvelope(s: seq<byte>, len: nat): (r: FrameRead)
    ensures r.Whole() ==> SuffixOf(r.rest, s)
    ensures r.Whole() ==> len <= |s| && r.rest == s[len..]
  {
    if len > |s| then FrameRead(Failure(BufferUnderrun(len, |s|)), s)
    else
      match ParseEnvelope(s[..len])
      case Ok(envelope, _) => FrameRead(Success(envelope), s[len..])
      case Err(e) => FrameRead(Failure(e), s[len..])
  }

  function ReadCorrelated(s: seq<byte>): (r: FrameRead)
    ensures r.Whole() ==> |r.rest| < |s|
  {
    var checksum := DecodeU32(s);
    if checksum.Err? then FrameRead(Failure(checksum.error), s)
    else
      var size := DecodeU32(checksum.rest);
      if size.Err? then FrameRead(Failure(size.error), s)
      else
        var id := ReadBytes(size.rest, 16);
        if id.Err? then FrameRead(Failure(id.error), s)
        else if size.value < 16 then FrameRead(Failure(TruncatedPayload(16, size.value)), s)
        else
          var len := size.value - 16;
          if len > |id.rest| then FrameRead(Failure(TruncatedPayload(len, |id.rest|)), s)
          else
            var actual := Crc32.Checksum(id.value + id.rest[..len]);
            if actual != checksum.value then FrameRead(Failure(CrcMismatch(checksum.value, actual)), s)
            else ReadEnvelope(id.rest, len)
  }

  function ReadSized(s: seq<byte>): (r: FrameRead)
    ensures r.Whole() ==> |r.rest| < |s|
  {
    var size := Vlq.DecodeU32(s);
    if size.Err? then FrameRead(Failure(size.error), s)
    else if size.value == 0 || size.value > |size.rest| then
      FrameRead(Failure(TruncatedPayload(size.value, |size.rest|)), s)
    else ReadEnvelope(size.rest, size.value)
  }

  // ----- writing -----

  /** An envelope as the sender builds it: a typed message, or an empty record with whatever trails its flags. */
  datatype Message = Typed(index: u32, body: seq<byte>) | Empty(tail: seq<byte>)

  function EncodeEnvelope(m: Message): seq<byte> {
    match m
    case Typed(index, body) => [0, 1] + Vlq.EncodeU32(index) + body
    case Empty(tail) => [0, 0] + tail
  }

  function EncodeCorrelated(id: Uuid, envelope: seq<byte>): seq<byte>
    requires |envelope| < 0x1_0000_0000 - 16
  {
    EncodeU32(Crc32.Checksum(id + envelope)) + EncodeU32(16 + |envelope|) + id + envelope
  }

  function EncodeSized(envelope: seq<byte>): seq<byte>
    requires |envelope| < 0x1_0000_0000
  {
    Vlq.EncodeU32(|envelope|) + envelope
  }

  /** Reserves the 24-byte header, writes the envelope behind it, then patches checksum, size and id in. */
  method MarshalCorrelatedInto(id: Uuid, envelope: seq<byte>, wb: WriteBuffer)
    requires |envelope| < 0x1_0000_0000 - 16
    modifies wb
    ensures wb.data == old(wb.data) + EncodeCorrelated(id, envelope)
  {
    var prefix := |wb.data|;
    wb.WriteBytes(seq(24, _ => 0));
    wb.WriteBytes(envelope);
    var crc := Crc32.Crc32Chunks([id, envelope]);
    FlattenTwo(id, envelope);
    var header := EncodeU32(crc) + EncodeU32(16 + |envelope|) + id;
    assert wb.data[..prefix] == old(wb.data) && wb.data[prefix + 24..] == envelope;
    wb.Patch(prefix, header);
    assert old(wb.data) + header + envelope == old(wb.data) + (header + envelope);
  }

  // ----- what framing guarantees -----

  /** What a written envelope parses to. */
  function ParsedMessage(m: Message): Decoded<Envelope> {
    match m
    case Typed(index, body) => Ok(Envelope(EncodeEnvelope(m), 0, None, None, TypeIndex(index), body), [])
    case Empty(_) => Err(EmptyEnvelope)
  }

  lemma EnvelopeRoundTrip(m: Message)
    requires m.Typed? ==> m.index != 0
    ensures ParseEnvelope(EncodeEnvelope(m)) == ParsedMessage(m)
  {
    var e := EncodeEnvelope(m);
    match m
    case Typed(index, body) =>
      var typed := Vlq.EncodeU32(index) + body;
      assert e == [0, 1] + typed;
      assert e[1..] == [1] + typed && e[1..][1..] == typed;
      Vlq.U32RoundTrip(index, body);
    case Empty(tail) =>
      assert e[1..] == [0] + tail;
  }

  // ----- envelopes of every shape -----

  /** An optional field, of eight bytes. */
  predicate IsField(field: Option<seq<byte>>) { field.Some? ==> |field.value| == 8 }

  /** Bit 0 announces the first field, bit 1 the second; the other bits are free. */
  function OuterFlags(first: bool, second: bool, high: nat): (r: byte)
    requires high < 64
    ensures (r % 2 == 1 <==> first) && (r / 2 % 2 == 1 <==> second) && r / 4 == high
  {
    (if first then 1 else 0) + (if second then 2 else 0) + 4 * high
  }

  function FieldBytes(field: Option<seq<byte>>): seq<byte> { if field.Some? then field.value else [] }

  /** An index, or a zero in its place and the sixteen bytes of the id. */
  function TypeIdBytes(typeId: MessageTypeId): seq<byte> {
    match typeId
    case TypeIndex(index) => Vlq.EncodeU32(index)
    case ByUuid(uuid) => Vlq.EncodeU32(0) + uuid
  }

  function EnvelopeBytes(outer: byte, field1: Option<seq<byte>>, field2: Option<seq<byte>>, flags: byte,
                         typed: seq<byte>): seq<byte>
  {
    [outer] + (FieldBytes(field1) + (FieldBytes(field2) + ([flags] + typed)))
  }

  lemma {:induction false} FieldRoundTrip(field: Option<seq<byte>>, rest: seq<byte>)
    requires IsField(field)
    ensures ReadField(field.Some?, FieldBytes(field) + rest) == Ok(field, rest)
  {
    if field.Some? {
      ReadBytesOfConcat(field.value, rest);
    } else {
      assert FieldBytes(field) + rest == rest;
    }
  }

  lemma {:induction false} TypeIdRoundTrip(typeId: MessageTypeId, body: seq<byte>)
    requires typeId.TypeIndex? ==> typeId.index != 0
    ensures ReadTypeId(TypeIdBytes(typeId) + body) == Ok(typeId, body)
  {
    match typeId
    case TypeIndex(index) => Vlq.U32RoundTrip(index, body);
    case ByUuid(uuid) =>
      assert Vlq.EncodeU32(0) + uuid + body == Vlq.EncodeU32(0) + (uuid + body);
      Vlq.U32RoundTrip(0, uuid + body);
      ReadBytesOfConcat(uuid, body);
  }

  lemma {:induction false} HeadByte(b: byte, rest: seq<byte>)
    ensures ReadByte([b] + rest) == Ok(b, rest)
  {
    assert ([b] + rest)[1..] == rest;
  }

  /** The fields come in their order, behind the flags that announce them. */
  lemma {:induction false} FieldsReadBack(field1: Option<seq<byte>>, field2: Option<seq<byte>>, high: nat,
                                          tail: seq<byte>)
    requires high < 64 && IsField(field1) && IsField(field2)
    ensures var outer := OuterFlags(field1.Some?, field2.Some?, high);
            && ReadField(outer % 2 == 1, FieldBytes(field1) + (FieldBytes(field2) + tail))
               == Ok(field1, FieldBytes(field2) + tail)
            && ReadField(outer / 2 % 2 == 1, FieldBytes(field2) + tail) == Ok(field2, tail)
  {
    FieldRoundTrip(field1, FieldBytes(field2) + tail);
    FieldRoundTrip(field2, tail);
  }

  /** An envelope whose outer part reads back parses as its flags and its type say. */
  lemma {:induction false} ParseBehindFields(raw: seq<byte>, outer: byte, s1: seq<byte>, field1: Option<seq<byte>>,
                                             s2: seq<byte>, field2: Option<seq<byte>>, flags: byte, typed: seq<byte>)
    requires ReadByte(raw) == Ok(outer, s1) && ReadField(outer % 2 == 1, s1) == Ok(field1, s2)
    requires ReadField(outer / 2 % 2 == 1, s2) == Ok(field2, [flags] + typed)
    ensures ParseEnvelope(raw) ==
            if flags == 0 then Err(EmptyEnvelope)
            else if flags > 1 then Err(InvalidEnvelopeFlags(flags))
            else match ReadTypeId(typed)
                 case Ok(typeId, body) => Ok(Envelope(raw, outer, field1, field2, typeId, body), [])
                 case Err(e) => Err(e)
  {
    HeadByte(flags, typed);
  }

  /**
   Every envelope reads back, with either field, both or none, any free outer bits, and a type
   given by index or by id. Flags of zero make it empty and flags above one make it invalid,
   whatever follows them.
   */
  lemma {:induction false} EveryEnvelopeReadsBack(field1: Option<seq<byte>>, field2: Option<seq<byte>>, high: nat,
                                                  flags: byte, typeId: MessageTypeId, body: seq<byte>)
    requires high < 64 && IsField(field1) && IsField(field2) && (typeId.TypeIndex? ==> typeId.index != 0)
    ensures var outer := OuterFlags(field1.Some?, field2.Some?, high);
            var raw := EnvelopeBytes(outer, field1, field2, flags, TypeIdBytes(typeId) + body);
            ParseEnvelope(raw) ==
            if flags == 0 then Err(EmptyEnvelope)
            else if flags > 1 then Err(InvalidEnvelopeFlags(flags))
            else Ok(Envelope(raw, outer, field1, field2, typeId, body), [])
  {
    var outer, typed := OuterFlags(field1.Some?, field2.Some?, high), TypeIdBytes(typeId) + body;
    var s2 := FieldBytes(field2) + ([flags] + typed);
    HeadByte(outer, FieldBytes(field1) + s2);
    FieldsReadBack(field1, field2, high, [flags] + typed);
    TypeIdRoundTrip(typeId, body);
    ParseBehindFields(EnvelopeBytes(outer, field1, field2, flags, typed), outer, FieldBytes(field1) + s2, field1, s2,
                      field2, flags, typed);
  }

  lemma EnvelopeInPlace(m: Message, rest: seq<byte>)
    requires m.Typed? ==> m.index != 0
    ensures var r := ReadEnvelope(EncodeEnvelope(m) + rest, |EncodeEnvelope(m)|);
            && r.rest == rest
            && r.result == (if m.Typed? then Success(ParsedMessage(m).value) else Failure(EmptyEnvelope))
  {
    var e := EncodeEnvelope(m);
    EnvelopeRoundTrip(m);
    assert (e + rest)[..|e|] == e && (e + rest)[|e|..] == rest;
  }

  /** The header of a correlated frame splits off exactly, whatever follows it. */
  lemma CorrelatedHeader(crc: u32, size: u32, id: Uuid, tail: seq<byte>)
    ensures var s := EncodeU32(crc) + EncodeU32(size) + id + tail;
            && DecodeU32(s) == Ok(crc, EncodeU32(size) + id + tail)
            && DecodeU32(EncodeU32(size) + id + tail) == Ok(size, id + tail)
            && ReadBytes(id + tail, 16) == Ok(id, tail)
  {
    var a, b := EncodeU32(crc), EncodeU32(size);
    assert a + b + id + tail == a + (b + id + tail);
    assert b + id + tail == b + (id + tail);
    U32RoundTrip(crc, b + id + tail);
    U32RoundTrip(size, id + tail);
    ReadBytesOfConcat(id, tail);
  }

  /** A frame of the declared size is accepted exactly when the stored checksum is that of its id and envelope. */
  lemma CorrelatedAccepts(crc: u32, id: Uuid, envelope: seq<byte>, rest: seq<byte>)
    requires |envelope| < 0x1_0000_0000 - 16
    ensures var r := ReadCorrelated(EncodeU32(crc) + EncodeU32(16 + |envelope|) + id + (envelope + rest));
            var actual := Crc32.Checksum(id + envelope);
            if actual == crc then r == ReadEnvelope(envelope + rest, |envelope|)
            else r.result == Failure(CrcMismatch(crc, actual))
  {
    CorrelatedHeader(crc, 16 + |envelope|, id, envelope + rest);
    assert (envelope + rest)[..|envelope|] == envelope;
  }

  lemma CorrelatedRoundTrip(id: Uuid, envelope: seq<byte>, rest: seq<byte>)
    requires |envelope| < 0x1_0000_0000 - 16
    ensures ReadCorrelated(EncodeCorrelated(id, envelope) + rest) == ReadEnvelope(envelope + rest, |envelope|)
  {
    var crc := Crc32.Checksum(id + envelope);
    CorrelatedAccepts(crc, id, envelope, rest);
    var header := EncodeU32(crc) + EncodeU32(16 + |envelope|) + id;
    assert header + envelope + rest == header + (envelope + rest);
  }

  lemma SizedRoundTrip(envelope: seq<byte>, rest: seq<byte>)
    requires 0 < |envelope| < 0x1_0000_0000
    ensures ReadSized(EncodeSized(envelope) + rest) == ReadEnvelope(envelope + rest, |envelope|)
  {
    assert EncodeSized(envelope) + rest == Vlq.EncodeU32(|envelope|) + (envelope + rest);
    Vlq.U32RoundTrip(|envelope|, envelope + rest);
  }

  /** A size that leaves no room for the correlation id, and a size of zero, are refused whatever follows. */
  lemma {:induction false} ShortSizesRefused(crc: u32, size: u32, id: Uuid, rest: seq<byte>)
    requires size < 16
    ensures ReadCorrelated(EncodeU32(crc) + EncodeU32(size) + id + rest).result == Failure(TruncatedPayload(16, size))
    ensures ReadSized(Vlq.EncodeU32(0) + rest).result == Failure(TruncatedPayload(0, |rest|))
  {
    CorrelatedHeader(crc, size, id, rest);
    Vlq.U32RoundTrip(0, rest);
  }

  lemma {:induction false} ShortHeaderRefused(crc: u32, size: u32, id: seq<byte>)
    requires |id| < 16
    ensures !ReadCorrelated(EncodeU32(crc) + (EncodeU32(size) + id)).Whole()
  {
    U32RoundTrip(crc, EncodeU32(size) + id);
    U32RoundTrip(size, id);
  }

  lemma {:induction false} ShorterHeaderRefused(s: seq<byte>)
    requires |s| < 8
    ensures !ReadCorrelated(s).Whole()
  {
  }

  /** A correlated frame cut short behind its header is refused for want of the envelope's missing bytes. */
  lemma {:induction false} TruncatedEnvelopeRefused(crc: u32, id: Uuid, envelope: seq<byte>, n: nat)
    requires n < |envelope| < 0x1_0000_0000 - 16
    ensures ReadCorrelated(EncodeU32(crc) + EncodeU32(16 + |envelope|) + id + envelope[..n]).result
         == Failure(TruncatedPayload(|envelope|, n))
  {
    CorrelatedHeader(crc, 16 + |envelope|, id, envelope[..n]);
  }

  lemma {:induction false} CutCorrelated(a: seq<byte>, b: seq<byte>, id: seq<byte>, envelope: seq<byte>, n: nat)
    requires |a| == 4 && |b| == 4 && |id| == 16 && 8 <= n <= 24 + |envelope|
    ensures var cut := (a + b + id + envelope)[..n];
            if n < 24 then cut == a + (b + id[..n - 8]) else cut == a + b + id + envelope[..n - 24]
  {
  }

  /** A correlated frame cut short anywhere is refused. */
  lemma {:induction false} TruncatedCorrelatedRefused(id: Uuid, envelope: seq<byte>, n: nat)
    requires |envelope| < 0x1_0000_0000 - 16 && n < |EncodeCorrelated(id, envelope)|
    ensures !ReadCorrelated(EncodeCorrelated(id, envelope)[..n]).Whole()
  {
    var crc, size := Crc32.Checksum(id + envelope), 16 + |envelope|;
    if n < 8 {
      ShorterHeaderRefused(EncodeCorrelated(id, envelope)[..n]);
    } else {
      CutCorrelated(EncodeU32(crc), EncodeU32(size), id, envelope, n);
      if n < 24 {
        ShortHeaderRefused(crc, size, id[..n - 8]);
      } else {
        TruncatedEnvelopeRefused(crc, id, envelope, n - 24);
      }
    }
  }

  /** A sized frame cut short behind its size is refused for want of the missing bytes. */
  lemma {:induction false} TruncatedSizedRefused(envelope: seq<byte>, n: nat)
    requires |envelope| < 0x1_0000_0000 && n < |envelope|
    ensures ReadSized(Vlq.EncodeU32(|envelope|) + envelope[..n]).result == Failure(TruncatedPayload(|envelope|, n))
  {
    Vlq.U32RoundTrip(|envelope|, envelope[..n]);
  }

  /**
   A frame whose correlation id and envelope were altered within four consecutive bytes,
   for frames of any length, is refused with a CRC mismatch naming both checksums.
   */
  lemma BurstIsDetected(id: Uuid, envelope: seq<byte>, pre: seq<byte>, v: seq<byte>, w: seq<byte>, post: seq<byte>,
                        rest: seq<byte>)
    requires |envelope| < 0x1_0000_0000 - 16
    requires id + envelope == pre + v + post && |v| == |w| <= 4 && v != w
    ensures var crc := Crc32.Checksum(id + envelope);
            ReadCorrelated(EncodeU32(crc) + EncodeU32(16 + |envelope|) + (pre + w + post) + rest).result
            == Failure(CrcMismatch(crc, Crc32.Checksum(pre + w + post)))
  {
    var crc := Crc32.Checksum(id + envelope);
    var altered := pre + w + post;
    assert |altered| == |id + envelope|;
    var id', envelope' := altered[..16], altered[16..];
    assert id' + envelope' == altered;
    var header := EncodeU32(crc) + EncodeU32(16 + |envelope|);
    assert header + altered + rest == header + id' + (envelope' + rest);
    CorrelatedAccepts(crc, id', envelope', rest);
    Crc32.BurstChangesChecksum(pre, v, w, post);
  }
}
