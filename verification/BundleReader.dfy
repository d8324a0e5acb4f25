/** The two readers of a bundle buffer: the visitor's nested loops and the fragment iterator. */
module BundleReader {
  import opened Wire
  import opened BundleRecords

  /** What the visitor saw inside one record: the fragments it visited, and where it stopped. */
  datatype RecordWalk<B> = RecordWalk(visits: seq<Visit<B>>, rest: seq<byte>, error: Option<Error>)

  /** The inner loop: the fragments of one record, up to the first that does not decode. */
  method VisitRecord<B>(reader: Reader<B>, header: RecordHeader, s: seq<byte>) returns (walk: RecordWalk<B>)
    requires Shrinking(reader)
    ensures |walk.rest| <= |s|
    ensures ParseFrom(reader, header, header.fragmentCount as nat, s)
         == if walk.error.Some? then Seen(walk.visits, walk.error)
            else ParseFrom(reader, header, 0, walk.rest).After(walk.visits)
  {
    var visits, rest, left := [], s, header.fragmentCount as nat;
    ghost var all := ParseFrom(reader, header, left, s);
    AfterLaws([], [], all);
    while left > 0
      invariant |rest| <= |s|
      invariant all == ParseFrom(reader, header, left, rest).After(visits)
    {
      match reader.fragment(rest)
      case Err(e) =>
        assert visits + [] == visits;
        return RecordWalk(visits, rest, Some(e));
      case Ok(f, more) =>
        AfterLaws(visits, [Visit(header, f)], ParseFrom(reader, header, left - 1, more));
        visits, rest, left := visits + [Visit(header, f)], more, left - 1;
    }
    walk := RecordWalk(visits, rest, None);
  }

  /** The visitor: record headers until the bytes run out, and each record's fragments. */
  method VisitBundleBufferFragments<B>(reader: Reader<B>, buffer: seq<byte>) returns (seen: Seen<B>)
    requires Shrinking(reader)
    ensures seen == Parse(reader, buffer)
  {
    var visits, rest := [], buffer;
    ghost var last := NO_RECORD;
    AfterLaws([], [], Parse(reader, buffer));
    while rest != []
      invariant Parse(reader, buffer) == ParseFrom(reader, last, 0, rest).After(visits)
      decreases |rest|
    {
      match reader.record(rest)
      case Err(e) =>
        assert visits + [] == visits;
        return Seen(visits, Some(e));
      case Ok(header, body) =>
        var walk := VisitRecord(reader, header, body);
        if walk.error.Some? {
          return Seen(visits + walk.visits, walk.error);
        }
        AfterLaws(visits, walk.visits, ParseFrom(reader, header, 0, walk.rest));
        visits, rest, last := visits + walk.visits, walk.rest, header;
    }
    assert visits + [] == visits;
    seen := Seen(visits, None);
  }

  /** A pull iterator over the same fragments, one a call. */
  class StateFragmentIter<B> {
    const reader: Reader<B>
    const rb: ReadBuffer
    var record: RecordHeader
    var left: nat
    var exhausted: bool

    ghost predicate Valid()
      reads this, rb
    {
      rb.Valid() && Shrinking(reader)
    }

    /** What is still to come. */
    ghost function Remaining(): Seen<B>
      requires Valid()
      reads this, rb
    {
      if exhausted then Seen([], None) else ParseFrom(reader, record, left, rb.Rest())
    }

    constructor (reader: Reader<B>, buffer: seq<byte>)
      requires Shrinking(reader)
      ensures Valid() && fresh(rb) && rb.data == buffer && this.reader == reader
      ensures Remaining() == Parse(reader, buffer)
    {
      this.reader := reader;
      rb := new ReadBuffer(buffer);
      record, left, exhausted := NO_RECORD, 0, false;
      new;
      assert rb.Rest() == buffer;
    }

    /** Moves to the next record: nothing at the end of the bytes, else whether its header was read. */
    method ReadNextRecord() returns (r: Option<Result<()>>)
      requires Valid() && !exhausted && left == 0
      modifies this, rb
      ensures Valid() && |rb.Rest()| <= |old(rb.Rest())|
      ensures r.None? ==> exhausted && old(Remaining()) == Seen([], None)
      ensures r.Some? && r.value.Failure? ==> exhausted && old(Remaining()) == Seen([], Some(r.value.error))
      ensures r.Some? && r.value.Success? ==>
                !exhausted && Remaining() == old(Remaining()) && |rb.Rest()| < |old(rb.Rest())|
    {
      if rb.IsEmpty() {
        exhausted := true;
        return None;
      }
      var header := rb.Read(reader.record);
      match header
      case Success(h) =>
        record, left := h, h.fragmentCount as nat;
        r := Some(Success(()));
      case Failure(e) =>
        exhausted := true;
        r := Some(Failure(e));
    }

    method ReadNextFragment() returns (r: Result<Visit<B>>)
      requires Valid() && !exhausted && left > 0
      modifies this, rb
      ensures Valid() && |rb.Rest()| <= |old(rb.Rest())|
      ensures r.Success? ==>
                !exhausted && old(Remaining()) == Remaining().After([r.value]) && |rb.Rest()| < |old(rb.Rest())|
      ensures r.Failure? ==> !exhausted && old(Remaining()) == Seen([], Some(r.error))
    {
      var fragment := rb.Read(reader.fragment);
      match fragment
      case Success(f) =>
        left := left - 1;
        r := Success(Visit(record, f));
      case Failure(e) =>
        r := Failure(e);
    }

    /**
     The next fragment or error. The loop ends because every record header takes bytes, and
     the whole iteration ends because every fragment does. Once exhausted it yields nothing.
     */
    method Next() returns (r: Option<Result<Visit<B>>>)
      requires Valid()
      modifies this, rb
      ensures Valid() && |rb.Rest()| <= |old(rb.Rest())|
      ensures old(exhausted) ==> r.None?
      ensures r.None? ==> exhausted && old(Remaining()) == Seen([], None)
      ensures r.Some? && r.value.Success? ==>
                && old(Remaining()) == Remaining().After([r.value.value])
                && !exhausted && |rb.Rest()| < |old(rb.Rest())|
      ensures r.Some? && r.value.Failure? ==> exhausted && old(Remaining()) == Seen([], Some(r.value.error))
    {
      while !exhausted && left == 0
        invariant Valid() && |rb.Rest()| <= |old(rb.Rest())|
        invariant Remaining() == old(Remaining())
        invariant old(exhausted) ==> exhausted
        decreases |rb.Rest()|, !exhausted
      {
        var step := ReadNextRecord();
        if step.None? {
          return None;
        }
        if step.value.Failure? {
          return Some(Failure(step.value.error));
        }
      }
      if exhausted {
        return None;
      }
      var fragment := ReadNextFragment();
      if fragment.Failure? {
        exhausted := true;
      }
      r := Some(fragment);
    }
  }

  /** Draining the iterator gives what the visitor sees, up to the first error. */
  method Drain<B>(reader: Reader<B>, buffer: seq<byte>) returns (seen: Seen<B>)
    requires Shrinking(reader)
    ensures seen == Parse(reader, buffer)
  {
    var iter := new StateFragmentIter(reader, buffer);
    var visits, error := [], None;
    AfterLaws([], [], iter.Remaining());
    while !iter.exhausted
      invariant iter.Valid() && fresh(iter) && fresh(iter.rb) && iter.reader == reader
      invariant Parse(reader, buffer)
             == Seen(visits + iter.Remaining().visits, if iter.exhausted then error else iter.Remaining().error)
      invariant !iter.exhausted ==> error == None
      decreases |iter.rb.Rest()|, !iter.exhausted
    {
      var item := iter.Next();
      match item
      case None =>
      case Some(Success(v)) =>
        AfterLaws(visits, [v], iter.Remaining());
        visits := visits + [v];
      case Some(Failure(e)) =>
        error := Some(e);
    }
    assert visits + [] == visits;
    seen := Seen(visits, error);
  }
}
