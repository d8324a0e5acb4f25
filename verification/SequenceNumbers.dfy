/** Hub replication sequence numbers: one u64 value space with two sentinels, ordered and sent as an optional VLQ. */
module SequenceNumbers {
  import opened Wire
  import Vlq

  datatype SequenceNumber = Invalid | ValidNonSequence | Seq(n: u64) {

    function Raw(): u64 {
      match this
      case Invalid => U64_MAX
      case ValidNonSequence => 0
      case Seq(n) => n
    }

    predicate IsValid() { Raw() != U64_MAX }

    /** Equality and order look at the raw value only; the invalid sentinel is below everything. */
    predicate Same(other: SequenceNumber) { Raw() == other.Raw() }

    function Rank(): int { if IsValid() then Raw() else -1 }

    predicate Lt(other: SequenceNumber) { Rank() < other.Rank() }

    predicate Le(other: SequenceNumber) { Rank() <= other.Rank() }

    function Normal(): SequenceNumber { FromRaw(Raw()) }

    function Min(other: SequenceNumber): SequenceNumber { if other.Lt(this) then other else this }

    function Max(other: SequenceNumber): SequenceNumber { if other.Lt(this) then this else other }

    /** Incrementing the invalid sentinel leaves it invalid in a release build. */
    function Next(): SequenceNumber {
      if Raw() == U64_MAX then Invalid else FromRaw(Raw() + 1)
    }
  }

  function FromRaw(raw: u64): SequenceNumber {
    if raw == 0 then ValidNonSequence else if raw == U64_MAX then Invalid else Seq(raw)
  }

  /** Sequence numbers in normal form, as decoding yields them. */
  type Stamp = s: SequenceNumber | s == s.Normal() witness Invalid

  /**
   Normalising keeps the number's identity, and two numbers are the same exactly when their
   normal forms are equal.
   */
  lemma NormalForm(a: SequenceNumber, b: SequenceNumber)
    ensures a.Normal().Same(a) && a.Normal().Normal() == a.Normal()
    ensures a.Same(b) <==> a.Normal() == b.Normal()
    ensures a.Same(b) <==> !a.Lt(b) && !b.Lt(a)
  {
  }

  /** The smaller and the greater of two numbers, each one of the two. */
  lemma MinMaxBounds(a: SequenceNumber, b: SequenceNumber)
    ensures a.Min(b).Le(a) && a.Min(b).Le(b) && (a.Min(b) == a || a.Min(b) == b)
    ensures a.Le(a.Max(b)) && b.Le(a.Max(b)) && (a.Max(b) == a || a.Max(b) == b)
  {
  }

  /** `Next` moves strictly up until the last number before the sentinel, where it falls to `Invalid`. */
  lemma NextAdvances(s: SequenceNumber)
    ensures s.Lt(s.Next()) <==> s.IsValid() && s.Raw() != U64_MAX - 1
    ensures s.Lt(s.Next()) ==> forall t: SequenceNumber :: s.Lt(t) ==> s.Next().Le(t)
  {
  }

  function Encode(s: SequenceNumber): seq<byte> {
    match s.Normal()
    case Invalid => [0]
    case ValidNonSequence => [1] + Vlq.EncodeU64(0)
    case Seq(n) => [1] + Vlq.EncodeU64(n)
  }

  function Decode(s: seq<byte>): (r: Decoded<Stamp>)
    ensures r.Ok? ==> SuffixOf(r.rest, s) && |r.rest| < |s|
  {
    var (tag, body) :- ReadByte(s);
    if tag == 0 then Ok(Invalid, body)
    else if tag == 1 then
      var (raw, rest) :- Vlq.DecodeU64(body);
      SuffixTransitive(rest, body, s);
      Ok(FromRaw(raw), rest)
    else Err(InvalidDiscriminant(tag))
  }

  /** What is read back is the normal form of what was written, and nothing after it is touched. */
  lemma RoundTrip(s: SequenceNumber, rest: seq<byte>)
    ensures Decode(Encode(s) + rest) == Ok(s.Normal(), rest)
  {
    var e := Encode(s);
    assert (e + rest)[1..] == e[1..] + rest;
    if s.IsValid() {
      Vlq.U64RoundTrip(s.Raw(), rest);
      assert e[1..] == Vlq.EncodeU64(s.Raw());
    } else {
      assert e[1..] + rest == rest;
    }
  }

  /** The length the bundle sizer charges for a sequence number, by constructor and not by raw value. */
  function WireLen(s: SequenceNumber): nat {
    match s
    case Invalid => 1
    case ValidNonSequence => 1 + Vlq.U64Len(0)
    case Seq(n) => 1 + Vlq.U64Len(n)
  }

  /**
   The charged length is the written length for every number except `Seq(u64::MAX)`, written
   in one byte and charged ten.
   */
  lemma WireLenExact(s: SequenceNumber)
    ensures |Encode(s)| == WireLen(s) <==> s != Seq(U64_MAX)
    ensures |Encode(Seq(U64_MAX))| == 1 && WireLen(Seq(U64_MAX)) == 10
  {
    Vlq.U64RoundTrip(s.Raw(), []);
  }
}
