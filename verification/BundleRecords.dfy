/**
 State records inside a bundle buffer: an interest id, a fragment count, and the
 fragments, each a key, type info and a body without length prefix. Bodies are read by a
 decoder chosen by the type info, given here as a codec.
 */
module BundleRecords {
  import opened Wire
  import opened Sequences
  import Vlq

  /** The 250 KiB cap on a bundle buffer. */
  const BUFFER_CAP: nat := 250 * 1024

  datatype TypeInfo = TypeIndex(index: u32) | RawUuid(uuid: Uuid)

  function EncodeTypeInfo(t: TypeInfo): seq<byte> {
    match t
    case TypeIndex(index) => Vlq.EncodeU32(index)
    case RawUuid(uuid) => Vlq.EncodeU32(0) + uuid
  }

  function DecodeTypeInfo(s: seq<byte>): (r: Decoded<TypeInfo>)
    ensures r.Ok? ==> SuffixOf(r.rest, s) && |r.rest| < |s|
  {
    var (index, rest) :- Vlq.DecodeU32(s);
    if index == 0 then
      var (uuid, rest') :- ReadBytes(rest, 16);
      SuffixTransitive(rest', rest, s);
      Ok(RawUuid(uuid), rest')
    else Ok(TypeIndex(index), rest)
  }

  /** Type info reads back exactly when it is not the index zero, which stands for a raw identifier. */
  lemma TypeInfoRoundTrip(t: TypeInfo, rest: seq<byte>)
    ensures DecodeTypeInfo(EncodeTypeInfo(t) + rest) == Ok(t, rest) <==> t != TypeIndex(0)
  {
    match t
    case TypeIndex(index) => Vlq.U32RoundTrip(index, rest);
    case RawUuid(uuid) =>
      Vlq.U32RoundTrip(0, uuid + rest);
      assert Vlq.EncodeU32(0) + uuid + rest == Vlq.EncodeU32(0) + (uuid + rest);
      ReadBytesOfConcat(uuid, rest);
  }

  datatype RecordHeader = RecordHeader(interestId: u16, fragmentCount: byte)

  function EncodeRecordHeader(h: RecordHeader): seq<byte> { Vlq.EncodeU32(h.interestId) + [h.fragmentCount] }

  function DecodeRecordHeader(s: seq<byte>): (r: Decoded<RecordHeader>)
    ensures r.Ok? ==> SuffixOf(r.rest, s) && |r.rest| < |s|
  {
    var (id, rest) :- Vlq.DecodeU32(s);
    if id > 0xFFFF then Err(InvalidRange(id, 0, 0xFFFF))
    else
      var (count, rest') :- ReadByte(rest);
      SuffixTransitive(rest', rest, s);
      Ok(RecordHeader(id, count), rest')
  }

  lemma RecordHeaderRoundTrip(h: RecordHeader, rest: seq<byte>)
    ensures DecodeRecordHeader(EncodeRecordHeader(h) + rest) == Ok(h, rest)
  {
    Vlq.U32RoundTrip(h.interestId, [h.fragmentCount] + rest);
    assert EncodeRecordHeader(h) + rest == Vlq.EncodeU32(h.interestId) + ([h.fragmentCount] + rest);
    assert ([h.fragmentCount] + rest)[1..] == rest;
  }

  /** A record id that does not fit 16 bits is refused, whatever follows. */
  lemma WideRecordIdRefused(id: u32, rest: seq<byte>)
    requires id > 0xFFFF
    ensures DecodeRecordHeader(Vlq.EncodeU32(id) + rest) == Err(InvalidRange(id, 0, 0xFFFF))
  {
    Vlq.U32RoundTrip(id, rest);
  }

  // ----- fragments -----

  /** How fragment bodies of each type are written and read. */
  datatype BodyCodec<!B> = BodyCodec(encode: (TypeInfo, B) -> seq<byte>, decode: (TypeInfo, seq<byte>) -> Decoded<B>)

  /** A body decoder leaves a suffix of what it was given. */
  ghost predicate Advances<B(!new)>(codec: BodyCodec<B>) {
    forall t: TypeInfo, s: seq<byte> :: codec.decode(t, s).Ok? ==> SuffixOf(codec.decode(t, s).rest, s)
  }

  datatype Fragment<B> = Fragment(key: u32, typeInfo: TypeInfo, body: B)

  /** The body is one its type's decoder reads back, stopping where it ends; the type index is not zero. */
  ghost predicate SelfDelimiting<B>(codec: BodyCodec<B>, f: Fragment<B>) {
    && f.typeInfo != TypeIndex(0)
    && forall rest: seq<byte> :: codec.decode(f.typeInfo, codec.encode(f.typeInfo, f.body) + rest) == Ok(f.body, rest)
  }

  /** The parts records are written in: the interest id that opens one, and the three parts of a fragment. */
  datatype Format<!B> = Format(interestId: u16 -> seq<byte>, key: Fragment<B> -> seq<byte>,
                               typeInfo: Fragment<B> -> seq<byte>, body: Fragment<B> -> seq<byte>)

  function WireFormat<B>(codec: BodyCodec<B>): Format<B> {
    Format((id: u16) => Vlq.EncodeU32(id), (f: Fragment<B>) => Vlq.EncodeU32(f.key),
           (f: Fragment<B>) => EncodeTypeInfo(f.typeInfo),
           (f: Fragment<B>) => codec.encode(f.typeInfo, f.body))
  }

  function EncodeFragment<B>(format: Format<B>, f: Fragment<B>): seq<byte> {
    format.key(f) + format.typeInfo(f) + format.body(f)
  }

  /** Type info, and the body it announces. */
  function DecodeTyped<B>(codec: BodyCodec<B>, key: u32, s: seq<byte>): Decoded<Fragment<B>> {
    var (typeInfo, s') :- DecodeTypeInfo(s);
    var (body, rest) :- codec.decode(typeInfo, s');
    Ok(Fragment(key, typeInfo, body), rest)
  }

  function DecodeFragment<B>(codec: BodyCodec<B>, s: seq<byte>): Decoded<Fragment<B>> {
    var (key, s') :- Vlq.DecodeU32(s);
    DecodeTyped(codec, key, s')
  }

  lemma DecodeFragmentShrinks<B(!new)>(codec: BodyCodec<B>, s: seq<byte>)
    requires Advances(codec)
    ensures var r := DecodeFragment(codec, s); r.Ok? ==> SuffixOf(r.rest, s) && |r.rest| < |s|
  {
    if DecodeFragment(codec, s).Ok? {
      var s' := Vlq.DecodeU32(s).rest;
      var s'' := DecodeTypeInfo(s').rest;
      SuffixTransitive(s'', s', s);
      SuffixTransitive(codec.decode(DecodeTypeInfo(s').value, s'').rest, s'', s);
    }
  }

  lemma TypedRoundTrip<B>(codec: BodyCodec<B>, f: Fragment<B>, rest: seq<byte>)
    requires SelfDelimiting(codec, f)
    ensures DecodeTyped(codec, f.key, EncodeTypeInfo(f.typeInfo) + (codec.encode(f.typeInfo, f.body) + rest))
         == Ok(f, rest)
  {
    TypeInfoRoundTrip(f.typeInfo, codec.encode(f.typeInfo, f.body) + rest);
  }

  lemma FourParts(a: seq<byte>, b: seq<byte>, c: seq<byte>, d: seq<byte>)
    ensures a + b + c + d == a + (b + (c + d))
  {
  }

  lemma FragmentRoundTrip<B>(codec: BodyCodec<B>, f: Fragment<B>, rest: seq<byte>)
    requires SelfDelimiting(codec, f)
    ensures DecodeFragment(codec, EncodeFragment(WireFormat(codec), f) + rest) == Ok(f, rest)
  {
    var k, t, b := Vlq.EncodeU32(f.key), EncodeTypeInfo(f.typeInfo), codec.encode(f.typeInfo, f.body);
    FourParts(k, t, b, rest);
    Vlq.U32RoundTrip(f.key, t + (b + rest));
    TypedRoundTrip(codec, f, rest);
  }

  function EncodeFragments<B>(format: Format<B>, fs: seq<Fragment<B>>): seq<byte> {
    if fs == [] then [] else EncodeFragment(format, fs[0]) + EncodeFragments(format, fs[1..])
  }

  lemma {:induction false} EncodeFragmentsAppend<B>(format: Format<B>, fs: seq<Fragment<B>>, f: Fragment<B>)
    ensures EncodeFragments(format, fs + [f]) == EncodeFragments(format, fs) + EncodeFragment(format, f)
  {
    if fs == [] {
      assert [f][1..] == [] && fs + [f] == [f];
    } else {
      EncodeFragmentsAppend(format, fs[1..], f);
      assert (fs + [f])[1..] == fs[1..] + [f];
    }
  }

  // ----- records -----

  datatype Record<B> = Record(interestId: u16, fragments: seq<Fragment<B>>)

  /** Records that can be written: the count byte holds between one and 255 fragments. */
  predicate Countable<B>(r: Record<B>) { 1 <= |r.fragments| <= 255 }

  function HeaderOf<B>(r: Record<B>): RecordHeader
    requires Countable(r)
  {
    RecordHeader(r.interestId, |r.fragments|)
  }

  function EncodeRecord<B>(format: Format<B>, r: Record<B>): seq<byte>
    requires Countable(r)
  {
    format.interestId(r.interestId) + [|r.fragments|] + EncodeFragments(format, r.fragments)
  }

  function EncodeRecords<B>(format: Format<B>, rs: seq<Record<B>>): seq<byte>
    requires forall i :: 0 <= i < |rs| ==> Countable(rs[i])
  {
    if rs == [] then [] else EncodeRecord(format, rs[0]) + EncodeRecords(format, rs[1..])
  }

  // ----- parsing -----

  /** One fragment as a reader meets it, with the header of its record. */
  datatype Visit<B> = Visit(record: RecordHeader, fragment: Fragment<B>)

  /** What a reader sees: the fragments in order, up to the end of the bytes or the first error. */
  datatype Seen<B> = Seen(visits: seq<Visit<B>>, error: Option<Error>) {
    function After(earlier: seq<Visit<B>>): Seen<B> { Seen(earlier + visits, error) }
  }

  /** How record headers and fragments are read. */
  datatype Reader<!B> = Reader(record: seq<byte> -> Decoded<RecordHeader>, fragment: seq<byte> -> Decoded<Fragment<B>>)

  /** Whatever is read takes at least one byte off the front. */
  ghost predicate Shrinking<B>(reader: Reader<B>) {
    && (forall s :: reader.record(s).Ok? ==> SuffixOf(reader.record(s).rest, s) && |reader.record(s).rest| < |s|)
    && (forall s :: reader.fragment(s).Ok? ==> SuffixOf(reader.fragment(s).rest, s) && |reader.fragment(s).rest| < |s|)
  }

  function WireReader<B>(codec: BodyCodec<B>): Reader<B> {
    Reader(DecodeRecordHeader, (s: seq<byte>) => DecodeFragment(codec, s))
  }

  lemma WireReaderShrinks<B(!new)>(codec: BodyCodec<B>)
    requires Advances(codec)
    ensures Shrinking(WireReader(codec))
  {
    forall s
      ensures var r := WireReader(codec).fragment(s); r.Ok? ==> SuffixOf(r.rest, s) && |r.rest| < |s|
    {
      DecodeFragmentShrinks(codec, s);
    }
  }

  /** Reads on from the middle of a record that has `left` fragments to go. */
  function ParseFrom<B>(reader: Reader<B>, record: RecordHeader, left: nat, s: seq<byte>): Seen<B>
    requires Shrinking(reader)
    decreases |s|, left
  {
    if left > 0 then
      match reader.fragment(s)
      case Err(e) => Seen([], Some(e))
      case Ok(f, rest) => ParseFrom(reader, record, left - 1, rest).After([Visit(record, f)])
    else if s == [] then Seen([], None)
    else
      match reader.record(s)
      case Err(e) => Seen([], Some(e))
      case Ok(h, rest) => ParseFrom(reader, h, h.fragmentCount as nat, rest)
  }

  const NO_RECORD := RecordHeader(0, 0)

  function Parse<B>(reader: Reader<B>, buffer: seq<byte>): Seen<B>
    requires Shrinking(reader)
  {
    ParseFrom(reader, NO_RECORD, 0, buffer)
  }

  /** What a reader sees in a buffer of fragments with these bodies. */
  function ParseBundle<B(!new)>(codec: BodyCodec<B>, buffer: seq<byte>): Seen<B>
    requires Advances(codec)
  {
    WireReaderShrinks(codec);
    Parse(WireReader(codec), buffer)
  }

  lemma AfterLaws<B>(a: seq<Visit<B>>, b: seq<Visit<B>>, more: Seen<B>)
    ensures more.After([]) == more
    ensures more.After(b).After(a) == more.After(a + b)
  {
    assert [] + more.visits == more.visits;
    assert a + (b + more.visits) == a + b + more.visits;
  }

  function VisitsOf<B>(header: RecordHeader, fs: seq<Fragment<B>>): (r: seq<Visit<B>>)
    ensures |r| == |fs|
  {
    seq(|fs|, i requires 0 <= i < |fs| => Visit(header, fs[i]))
  }

  function AllVisits<B>(rs: seq<Record<B>>): seq<Visit<B>>
    requires forall i :: 0 <= i < |rs| ==> Countable(rs[i])
  {
    if rs == [] then [] else VisitsOf(HeaderOf(rs[0]), rs[0].fragments) + AllVisits(rs[1..])
  }

  // ----- parsing inverts writing -----

  /** The reader reads back this fragment in this format, and stops where it ends. */
  ghost predicate ReadsBack<B>(reader: Reader<B>, format: Format<B>, f: Fragment<B>) {
    forall rest :: reader.fragment(EncodeFragment(format, f) + rest) == Ok(f, rest)
  }

  ghost predicate ReadsHeaders<B>(reader: Reader<B>, format: Format<B>) {
    forall h: RecordHeader, rest :: reader.record(format.interestId(h.interestId) + [h.fragmentCount] + rest)
                                    == Ok(h, rest)
  }

  ghost predicate Readable<B>(reader: Reader<B>, format: Format<B>, r: Record<B>) {
    Countable(r) && forall f :: f in r.fragments ==> ReadsBack(reader, format, f)
  }

  lemma {:induction false} ParseOne<B>(reader: Reader<B>, format: Format<B>, header: RecordHeader, left: nat,
                                       f: Fragment<B>, tail: seq<byte>)
    requires Shrinking(reader) && left > 0 && ReadsBack(reader, format, f)
    ensures ParseFrom(reader, header, left, EncodeFragment(format, f) + tail)
         == ParseFrom(reader, header, left - 1, tail).After([Visit(header, f)])
  {
    assert reader.fragment(EncodeFragment(format, f) + tail) == Ok(f, tail);
  }

  lemma {:induction false} VisitsCons<B>(header: RecordHeader, fs: seq<Fragment<B>>)
    requires fs != []
    ensures VisitsOf(header, fs) == [Visit(header, fs[0])] + VisitsOf(header, fs[1..])
  {
  }

  lemma {:induction false} ParseFragments<B>(reader: Reader<B>, format: Format<B>, header: RecordHeader, left: nat,
                                             fs: seq<Fragment<B>>, rest: seq<byte>)
    requires Shrinking(reader) && |fs| <= left && forall f :: f in fs ==> ReadsBack(reader, format, f)
    ensures ParseFrom(reader, header, left, EncodeFragments(format, fs) + rest)
         == ParseFrom(reader, header, left - |fs|, rest).After(VisitsOf(header, fs))
    decreases |fs|
  {
    var more := ParseFrom(reader, header, left - |fs|, rest);
    if fs == [] {
      assert EncodeFragments(format, fs) + rest == rest;
      AfterLaws([], [], more);
    } else {
      var tail := EncodeFragments(format, fs[1..]) + rest;
      Reassociate(EncodeFragment(format, fs[0]), EncodeFragments(format, fs[1..]), rest);
      ParseOne(reader, format, header, left, fs[0], tail);
      ParseFragments(reader, format, header, left - 1, fs[1..], rest);
      AfterLaws([Visit(header, fs[0])], VisitsOf(header, fs[1..]), more);
      VisitsCons(header, fs);
    }
  }

  /** Between records, a reader's memory of the last header does not matter. */
  lemma {:induction false} BetweenRecords<B>(reader: Reader<B>, a: RecordHeader, b: RecordHeader, s: seq<byte>)
    requires Shrinking(reader)
    ensures ParseFrom(reader, a, 0, s) == ParseFrom(reader, b, 0, s)
  {
  }

  lemma {:induction false} ParseRecord<B>(reader: Reader<B>, format: Format<B>, r: Record<B>, rest: seq<byte>)
    requires Shrinking(reader) && ReadsHeaders(reader, format) && Readable(reader, format, r)
    ensures Parse(reader, EncodeRecord(format, r) + rest)
         == Parse(reader, rest).After(VisitsOf(HeaderOf(r), r.fragments))
  {
    var h, body := HeaderOf(r), EncodeFragments(format, r.fragments);
    var head := format.interestId(h.interestId) + [h.fragmentCount];
    assert EncodeRecord(format, r) + rest == head + (body + rest);
    assert reader.record(head + (body + rest)) == Ok(h, body + rest);
    ParseFragments(reader, format, h, |r.fragments|, r.fragments, rest);
    BetweenRecords(reader, h, NO_RECORD, rest);
  }

  /** Whatever follows some records is read as if it stood alone. */
  lemma {:induction false} ParseRecordsThen<B>(reader: Reader<B>, format: Format<B>, rs: seq<Record<B>>,
                                               tail: seq<byte>)
    requires Shrinking(reader) && ReadsHeaders(reader, format)
    requires forall i :: 0 <= i < |rs| ==> Countable(rs[i]) && Readable(reader, format, rs[i])
    ensures Parse(reader, EncodeRecords(format, rs) + tail) == Parse(reader, tail).After(AllVisits(rs))
  {
    if rs == [] {
      assert EncodeRecords(format, rs) + tail == tail;
      AfterLaws([], [], Parse(reader, tail));
    } else {
      var more := EncodeRecords(format, rs[1..]);
      ParseRecordsThen(reader, format, rs[1..], tail);
      ParseRecord(reader, format, rs[0], more + tail);
      Reassociate(EncodeRecord(format, rs[0]), more, tail);
      AfterLaws(VisitsOf(HeaderOf(rs[0]), rs[0].fragments), AllVisits(rs[1..]), Parse(reader, tail));
    }
  }

  /** A buffer of records reads back to exactly their fragments, in order and without error. */
  lemma {:induction false} ParseInvertsRecords<B>(reader: Reader<B>, format: Format<B>, rs: seq<Record<B>>)
    requires Shrinking(reader) && ReadsHeaders(reader, format)
    requires forall i :: 0 <= i < |rs| ==> Countable(rs[i]) && Readable(reader, format, rs[i])
    ensures Parse(reader, EncodeRecords(format, rs)) == Seen(AllVisits(rs), None)
  {
    ParseRecordsThen(reader, format, rs, []);
    assert EncodeRecords(format, rs) + [] == EncodeRecords(format, rs);
    assert AllVisits(rs) + [] == AllVisits(rs);
  }

  /** Bytes behind some records that are no record header: every fragment before them is seen, then the error. */
  lemma {:induction false} BrokenHeaderStops<B>(reader: Reader<B>, format: Format<B>, rs: seq<Record<B>>,
                                                tail: seq<byte>)
    requires Shrinking(reader) && ReadsHeaders(reader, format)
    requires forall i :: 0 <= i < |rs| ==> Countable(rs[i]) && Readable(reader, format, rs[i])
    requires tail != [] && reader.record(tail).Err?
    ensures Parse(reader, EncodeRecords(format, rs) + tail) == Seen(AllVisits(rs), Some(reader.record(tail).error))
  {
    ParseRecordsThen(reader, format, rs, tail);
    assert AllVisits(rs) + [] == AllVisits(rs);
  }

  /** A record whose count promises more fragments than decode: those before the broken one are seen, then the error. */
  lemma {:induction false} BrokenFragmentStops<B>(reader: Reader<B>, format: Format<B>, rs: seq<Record<B>>,
                                                  h: RecordHeader, fs: seq<Fragment<B>>, tail: seq<byte>)
    requires Shrinking(reader) && ReadsHeaders(reader, format)
    requires forall i :: 0 <= i < |rs| ==> Countable(rs[i]) && Readable(reader, format, rs[i])
    requires |fs| < h.fragmentCount as nat && forall f :: f in fs ==> ReadsBack(reader, format, f)
    requires reader.fragment(tail).Err?
    ensures var open := format.interestId(h.interestId) + [h.fragmentCount] + (EncodeFragments(format, fs) + tail);
            Parse(reader, EncodeRecords(format, rs) + open)
            == Seen(AllVisits(rs) + VisitsOf(h, fs), Some(reader.fragment(tail).error))
  {
    var body := EncodeFragments(format, fs) + tail;
    var open := format.interestId(h.interestId) + [h.fragmentCount] + body;
    ParseRecordsThen(reader, format, rs, open);
    assert reader.record(open) == Ok(h, body);
    ParseFragments(reader, format, h, h.fragmentCount as nat, fs, tail);
    assert VisitsOf(h, fs) + [] == VisitsOf(h, fs);
  }

  /** The wire reader reads what the wire format writes. */
  lemma WireReaderReadsHeaders<B>(codec: BodyCodec<B>)
    ensures ReadsHeaders(WireReader(codec), WireFormat(codec))
  {
    forall h: RecordHeader, rest
      ensures WireReader(codec).record(WireFormat(codec).interestId(h.interestId) + [h.fragmentCount] + rest)
           == Ok(h, rest)
    {
      RecordHeaderRoundTrip(h, rest);
    }
  }

  lemma WireReaderReadsBack<B>(codec: BodyCodec<B>, f: Fragment<B>)
    requires SelfDelimiting(codec, f)
    ensures ReadsBack(WireReader(codec), WireFormat(codec), f)
  {
    forall rest
      ensures WireReader(codec).fragment(EncodeFragment(WireFormat(codec), f) + rest) == Ok(f, rest)
    {
      FragmentRoundTrip(codec, f, rest);
    }
  }
}
