/** Bytes, decoding outcomes, and the read and write buffers every codec works on. */
module Wire {

  type byte = b: int | 0 <= b < 0x100
  type u16 = n: int | 0 <= n < 0x1_0000
  type u32 = n: int | 0 <= n < 0x1_0000_0000
  type u64 = n: int | 0 <= n < 0x1_0000_0000_0000_0000

  type Uuid = u: seq<byte> | |u| == 16 witness seq(16, _ => 0)

  const U64_MAX: u64 := 0xFFFF_FFFF_FFFF_FFFF

  datatype Option<+T> = None | Some(value: T)

  /** The marshalling errors the modelled code can raise. */
  datatype Error =
    | BufferUnderrun(needed: nat, available: nat)
    | InvalidDiscriminant(discriminant: byte)
    | InvalidRange(value: nat, min: nat, max: nat)
    | ContainerOverflow(len: nat, capacity: nat)
    | CrcMismatch(expected: u32, actual: u32)
    | TruncatedPayload(declared: nat, remaining: nat)
    | InvalidEnvelopeFlags(flags: byte)
    | EmptyEnvelope
    | UnknownFragmentType

  datatype Result<+T> = Success(value: T) | Failure(error: Error) {
    predicate IsFailure() { Failure? }

    function PropagateFailure<U>(): Result<U>
      requires Failure?
    {
      Failure(error)
    }

    function Extract(): T
      requires Success?
    {
      value
    }
  }

  /** Outcome of decoding from the front of some bytes: a value and the bytes not consumed. */
  datatype Decoded<+T> = Ok(value: T, rest: seq<byte>) | Err(error: Error) {
    predicate IsFailure() { Err? }

    function PropagateFailure<U>(): Decoded<U>
      requires Err?
    {
      Err(error)
    }

    function Extract(): (T, seq<byte>)
      requires Ok?
    {
      (value, rest)
    }
  }

  /** `rest` is what is left of `s` once some prefix has been read. */
  ghost predicate SuffixOf(rest: seq<byte>, s: seq<byte>) {
    |rest| <= |s| && rest == s[|s| - |rest|..]
  }

  lemma SuffixTransitive(a: seq<byte>, b: seq<byte>, c: seq<byte>)
    requires SuffixOf(a, b) && SuffixOf(b, c)
    ensures SuffixOf(a, c)
  {
    assert a == c[|c| - |b|..][|b| - |a|..];
  }

  /** A value codec: how one value is written, and how it is read back from the front of a buffer. */
  datatype Codec<!T> = Codec(encode: T -> seq<byte>, decode: seq<byte> -> Decoded<T>)

  /** A lawful codec is self-delimiting: it reads back what it wrote and stops exactly there. */
  ghost predicate Lawful<T(!new)>(codec: Codec<T>) {
    forall x: T, rest: seq<byte> :: codec.decode(codec.encode(x) + rest) == Ok(x, rest)
  }

  function ReadByte(s: seq<byte>): (r: Decoded<byte>)
  {
    if s == [] then Err(BufferUnderrun(1, 0)) else Ok(s[0], s[1..])
  }

  function ReadBytes(s: seq<byte>, n: nat): (r: Decoded<seq<byte>>)
    ensures r.Ok? ==> s == r.value + r.rest && |r.value| == n
    ensures r.Ok? <==> n <= |s|
  {
    if n <= |s| then Ok(s[..n], s[n..]) else Err(BufferUnderrun(n, |s|))
  }

  lemma ReadBytesOfConcat(a: seq<byte>, b: seq<byte>)
    ensures ReadBytes(a + b, |a|) == Ok(a, b)
  {
  }

  /** Booleans travel as one byte, 0 or 1, and any other byte is refused. */
  function EncodeBool(b: bool): seq<byte> { if b then [1] else [0] }

  function DecodeBool(s: seq<byte>): Decoded<bool> {
    var (b, rest) :- ReadByte(s);
    if b == 0 then Ok(false, rest)
    else if b == 1 then Ok(true, rest)
    else Err(InvalidDiscriminant(b))
  }

  function EncodeU16(v: u16): (r: seq<byte>)
    ensures |r| == 2
  {
    [v / 0x100, v % 0x100]
  }

  function BigEndian(high: byte, low: byte): u16 { 0x100 * (high as int) + low }

  function DecodeU16(s: seq<byte>): Decoded<u16> {
    if |s| < 2 then Err(BufferUnderrun(2, |s|))
    else Ok(BigEndian(s[0], s[1]), s[2..])
  }

  lemma U16RoundTrip(v: u16, rest: seq<byte>)
    ensures DecodeU16(EncodeU16(v) + rest) == Ok(v, rest)
  {
    assert (EncodeU16(v) + rest)[2..] == rest;
  }

  function EncodeU32(v: u32): (r: seq<byte>)
    ensures |r| == 4
  {
    EncodeU16(v / 0x1_0000) + EncodeU16(v % 0x1_0000)
  }

  function DecodeU32(s: seq<byte>): Decoded<u32> {
    if |s| < 4 then Err(BufferUnderrun(4, |s|))
    else Ok(0x1_0000 * (BigEndian(s[0], s[1]) as int) + BigEndian(s[2], s[3]), s[4..])
  }

  lemma U32RoundTrip(v: u32, rest: seq<byte>)
    ensures DecodeU32(EncodeU32(v) + rest) == Ok(v, rest)
  {
    assert (EncodeU32(v) + rest)[4..] == rest;
  }

  /** A growable output buffer: bytes are appended, cut back to a mark, and patched in place. */
  class WriteBuffer {
    var data: seq<byte>

    constructor ()
      ensures data == []
    {
      data := [];
    }

    method WriteU8(b: byte)
      modifies this
      ensures data == old(data) + [b]
    {
      data := data + [b];
    }

    method WriteBytes(bytes: seq<byte>)
      modifies this
      ensures data == old(data) + bytes
    {
      data := data + bytes;
    }

    method TruncateTo(mark: nat)
      requires mark <= |data|
      modifies this
      ensures data == old(data)[..mark]
    {
      data := data[..mark];
    }

    /** Overwrites a reserved region, leaving every other byte alone. */
    method Patch(position: nat, bytes: seq<byte>)
      requires position + |bytes| <= |data|
      modifies this
      ensures data == old(data)[..position] + bytes + old(data)[position + |bytes|..]
    {
      data := data[..position] + bytes + data[position + |bytes|..];
    }
  }

  /** A cursor over immutable bytes. */
  class ReadBuffer {
    const data: seq<byte>
    var position: nat

    ghost predicate Valid()
      reads this
    {
      position <= |data|
    }

    function Rest(): seq<byte>
      requires Valid()
      reads this
    {
      data[position..]
    }

    constructor (bytes: seq<byte>)
      ensures data == bytes && position == 0 && Valid()
    {
      data := bytes;
      position := 0;
    }

    predicate IsEmpty()
      requires Valid()
      reads this
    {
      position == |data|
    }

    /** Moves the cursor so that exactly `rest` is left to read. */
    method AdvanceTo(rest: seq<byte>)
      requires Valid() && SuffixOf(rest, Rest())
      modifies this
      ensures Valid() && Rest() == rest
      ensures position == |data| - |rest| && position >= old(position)
    {
      position := |data| - |rest|;
      assert Rest() == old(Rest())[|old(Rest())| - |rest|..];
    }

    /** Runs a decoder at the cursor: on success the cursor moves past exactly what was decoded. */
    method Read<T>(decode: seq<byte> -> Decoded<T>) returns (r: Result<T>)
      requires Valid()
      requires decode(Rest()).Ok? ==> SuffixOf(decode(Rest()).rest, Rest())
      modifies this
      ensures Valid() && position >= old(position)
      ensures r.Success? <==> decode(old(Rest())).Ok?
      ensures r.Success? ==> decode(old(Rest())) == Ok(r.value, Rest())
      ensures r.Failure? ==> decode(old(Rest())) == Err(r.error) && position == old(position)
    {
      match decode(Rest())
      case Ok(v, rest) =>
        AdvanceTo(rest);
        r := Success(v);
      case Err(e) =>
        r := Failure(e);
    }
  }
}
