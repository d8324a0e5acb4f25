/**
 Writing state records: fragments are tried one after another, each kept or rolled back on
 its own; the record's count byte is patched in afterwards, and a record that fails or
 keeps no fragment is rolled back whole.
 */
module BundleWriter {
  import opened Wire
  import opened BundleRecords

  datatype WriteOutcome = Written | SkippedNoPayload | SkippedOverLimit

  /** One call to write a fragment; a fragment may turn out to have no payload. */
  datatype Attempt<B> = Attempt(fragment: Fragment<B>, hasPayload: bool)

  /** What becomes of an attempt when the buffer holds `len` bytes and the record `count` fragments. */
  function OutcomeOf<B>(format: Format<B>, len: nat, count: nat, a: Attempt<B>): Result<WriteOutcome> {
    if count == 255 then Failure(ContainerOverflow(256, 255))
    else if !a.hasPayload then Success(SkippedNoPayload)
    else if len + |EncodeFragment(format, a.fragment)| > BUFFER_CAP then Success(SkippedOverLimit)
    else Success(Written)
  }

  /** The fragments kept so far, and what each attempt returned. */
  datatype Progress<B> = Progress(kept: seq<Fragment<B>>, results: seq<Result<WriteOutcome>>)

  function Step<B>(format: Format<B>, start: nat, p: Progress<B>, a: Attempt<B>): Progress<B> {
    var r := OutcomeOf(format, start + |EncodeFragments(format, p.kept)|, |p.kept|, a);
    Progress(if r == Success(Written) then p.kept + [a.fragment] else p.kept, p.results + [r])
  }

  /** The attempts of one record, whose header ends at byte `start`. */
  function ProgressAfter<B>(format: Format<B>, start: nat, attempts: seq<Attempt<B>>): (p: Progress<B>)
    ensures |p.kept| <= 255 && |p.results| == |attempts|
  {
    if attempts == [] then Progress([], [])
    else Step(format, start, ProgressAfter(format, start, attempts[..|attempts| - 1]), attempts[|attempts| - 1])
  }

  lemma ProgressStep<B>(format: Format<B>, start: nat, attempts: seq<Attempt<B>>, i: nat)
    requires i < |attempts|
    ensures ProgressAfter(format, start, attempts[..i + 1])
         == Step(format, start, ProgressAfter(format, start, attempts[..i]), attempts[i])
  {
    assert attempts[..i + 1][..i] == attempts[..i];
  }

  /** A kept fragment's bytes follow those kept before it, and stay under the cap. */
  lemma StepBytes<B>(format: Format<B>, start: nat, p: Progress<B>, a: Attempt<B>)
    ensures var r := OutcomeOf(format, start + |EncodeFragments(format, p.kept)|, |p.kept|, a);
            var p' := Step(format, start, p, a);
            if r == Success(Written) then
              && EncodeFragments(format, p'.kept)
                 == EncodeFragments(format, p.kept) + EncodeFragment(format, a.fragment)
              && start + |EncodeFragments(format, p'.kept)| <= BUFFER_CAP && a.hasPayload
            else p'.kept == p.kept
  {
    EncodeFragmentsAppend(format, p.kept, a.fragment);
  }

  /** The fragments whose attempts returned `Written`, in order. */
  function WrittenOnes<B>(attempts: seq<Attempt<B>>, results: seq<Result<WriteOutcome>>): seq<Fragment<B>>
    requires |attempts| == |results|
  {
    if attempts == [] then []
    else
      var n := |attempts| - 1;
      WrittenOnes(attempts[..n], results[..n]) + if results[n] == Success(Written) then [attempts[n].fragment] else []
  }

  lemma {:induction false} KeptAreWrittenOnes<B>(format: Format<B>, start: nat, attempts: seq<Attempt<B>>)
    ensures var p := ProgressAfter(format, start, attempts); p.kept == WrittenOnes(attempts, p.results)
  {
    if attempts != [] {
      var p := ProgressAfter(format, start, attempts);
      var n := |attempts| - 1;
      KeptAreWrittenOnes(format, start, attempts[..n]);
      assert p.results[..n] == ProgressAfter(format, start, attempts[..n]).results;
    }
  }

  /** What is kept fits under the cap, if anything is kept. */
  lemma {:induction false} KeptFits<B>(format: Format<B>, start: nat, attempts: seq<Attempt<B>>)
    ensures var kept := ProgressAfter(format, start, attempts).kept;
            kept != [] ==> start + |EncodeFragments(format, kept)| <= BUFFER_CAP
  {
    if attempts != [] {
      var before, a := attempts[..|attempts| - 1], attempts[|attempts| - 1];
      KeptFits(format, start, before);
      StepBytes(format, start, ProgressAfter(format, start, before), a);
    }
  }

  /** Only attempts with a payload are kept. */
  lemma {:induction false} KeptHavePayload<B>(format: Format<B>, start: nat, attempts: seq<Attempt<B>>)
    ensures forall f :: f in ProgressAfter(format, start, attempts).kept ==> Attempt(f, true) in attempts
  {
    if attempts != [] {
      var before, a := attempts[..|attempts| - 1], attempts[|attempts| - 1];
      KeptHavePayload(format, start, before);
      StepBytes(format, start, ProgressAfter(format, start, before), a);
      assert attempts == before + [a];
      assert a.hasPayload ==> a == Attempt(a.fragment, true);
    }
  }

  // ----- the whole record -----

  /** A call to write a record: its fragments, and whether the caller's closure ended well. */
  datatype Call<B> = Call(interestId: u16, attempts: seq<Attempt<B>>, verdict: bool)

  function HeaderLen<B>(format: Format<B>, interestId: u16): nat { |format.interestId(interestId)| + 1 }

  /** The record a call leaves in the buffer, if any. */
  function RecordKept<B>(format: Format<B>, buffer: seq<byte>, call: Call<B>): (r: Option<Record<B>>)
    ensures r.Some? ==> Countable(r.value)
  {
    var kept := ProgressAfter(format, |buffer| + HeaderLen(format, call.interestId), call.attempts).kept;
    if call.verdict && kept != [] then Some(Record(call.interestId, kept)) else None
  }

  function BufferAfter<B>(format: Format<B>, buffer: seq<byte>, call: Call<B>): seq<byte> {
    var record := RecordKept(format, buffer, call);
    if record.Some? then buffer + EncodeRecord(format, record.value) else buffer
  }

  /** A buffer within the cap stays within it. */
  lemma RecordKeepsCap<B>(format: Format<B>, buffer: seq<byte>, call: Call<B>)
    requires |buffer| <= 256_000
    ensures |BufferAfter(format, buffer, call)| <= 256_000
  {
    KeptFits(format, |buffer| + HeaderLen(format, call.interestId), call.attempts);
  }

  // ----- what must be written -----

  function FragmentsOf<B>(attempts: seq<Attempt<B>>): (r: seq<Fragment<B>>)
    ensures |r| == |attempts|
  {
    seq(|attempts|, i requires 0 <= i < |attempts| => attempts[i].fragment)
  }

  lemma {:induction false} FragmentsOfSnoc<B>(attempts: seq<Attempt<B>>)
    requires attempts != []
    ensures FragmentsOf(attempts) == FragmentsOf(attempts[..|attempts| - 1]) + [attempts[|attempts| - 1].fragment]
  {
  }

  /** At most 255 fragments, all with a payload, whose bytes end within 256000. */
  ghost predicate AllFit<B>(format: Format<B>, start: nat, attempts: seq<Attempt<B>>) {
    && |attempts| <= 255
    && (forall i :: 0 <= i < |attempts| ==> attempts[i].hasPayload)
    && start + |EncodeFragments(format, FragmentsOf(attempts))| <= 256_000
  }

  /** Then every one of them is written, in order. */
  lemma {:induction false} AllKept<B>(format: Format<B>, start: nat, attempts: seq<Attempt<B>>)
    requires AllFit(format, start, attempts)
    ensures ProgressAfter(format, start, attempts).kept == FragmentsOf(attempts)
    ensures forall i :: 0 <= i < |attempts| ==> ProgressAfter(format, start, attempts).results[i] == Success(Written)
  {
    if attempts != [] {
      var before, a := attempts[..|attempts| - 1], attempts[|attempts| - 1];
      FragmentsOfSnoc(attempts);
      EncodeFragmentsAppend(format, FragmentsOf(before), a.fragment);
      AllKept(format, start, before);
      assert OutcomeOf(format, start + |EncodeFragments(format, FragmentsOf(before))|, |before|, a) == Success(Written);
    }
  }

  /** A call whose fragments all fit leaves the record of all of them, and nothing less. */
  lemma {:induction false} WholeRecordKept<B>(format: Format<B>, buffer: seq<byte>, call: Call<B>)
    requires call.verdict && call.attempts != []
    requires AllFit(format, |buffer| + HeaderLen(format, call.interestId), call.attempts)
    ensures RecordKept(format, buffer, call) == Some(Record(call.interestId, FragmentsOf(call.attempts)))
  {
    AllKept(format, |buffer| + HeaderLen(format, call.interestId), call.attempts);
  }

  /** A call leaves no record, and the buffer as it was, exactly when it ended badly or no attempt was written. */
  lemma {:induction false} RolledBackExactly<B>(format: Format<B>, buffer: seq<byte>, call: Call<B>)
    ensures var results := ProgressAfter(format, |buffer| + HeaderLen(format, call.interestId), call.attempts).results;
            var nothing := !call.verdict || WrittenOnes(call.attempts, results) == [];
            && (RecordKept(format, buffer, call).None? <==> nothing)
            && (BufferAfter(format, buffer, call) == buffer <==> nothing)
  {
    KeptAreWrittenOnes(format, |buffer| + HeaderLen(format, call.interestId), call.attempts);
    var record := RecordKept(format, buffer, call);
    if record.Some? {
      assert |buffer + EncodeRecord(format, record.value)| > |buffer|;
    }
  }

  /**
   What any attempt returns, given what was written before it: an error exactly after 255
   fragments; skipped exactly for want of a payload, or because its bytes would pass the
   cap; and else written.
   */
  lemma {:induction false} OutcomeExactly<B>(format: Format<B>, start: nat, attempts: seq<Attempt<B>>, i: nat)
    requires i < |attempts|
    ensures var results := ProgressAfter(format, start, attempts).results;
            var written := WrittenOnes(attempts[..i], results[..i]);
            var fits := start + |EncodeFragments(format, written + [attempts[i].fragment])| <= 256_000;
            && (results[i].Failure? <==> |written| == 255)
            && (results[i] == Success(SkippedNoPayload) <==> |written| < 255 && !attempts[i].hasPayload)
            && (results[i] == Success(SkippedOverLimit) <==> |written| < 255 && attempts[i].hasPayload && !fits)
            && (results[i] == Success(WriteOutcome.Written) <==> |written| < 255 && attempts[i].hasPayload && fits)
  {
    var before := ProgressAfter(format, start, attempts[..i]);
    ResultsPrefix(format, start, attempts, i);
    KeptAreWrittenOnes(format, start, attempts[..i]);
    ProgressStep(format, start, attempts, i);
    ResultsPrefix(format, start, attempts, i + 1);
    EncodeFragmentsAppend(format, before.kept, attempts[i].fragment);
    var after := ProgressAfter(format, start, attempts[..i + 1]);
    assert after.results[i] == ProgressAfter(format, start, attempts).results[i];
  }

  lemma {:induction false} ResultsPrefix<B>(format: Format<B>, start: nat, attempts: seq<Attempt<B>>, i: nat)
    requires i <= |attempts|
    ensures ProgressAfter(format, start, attempts[..i]).results == ProgressAfter(format, start, attempts).results[..i]
  {
    if i == |attempts| {
      assert attempts[..i] == attempts;
    } else {
      var n := |attempts| - 1;
      ResultsPrefix(format, start, attempts[..n], i);
      assert attempts[..n][..i] == attempts[..i];
    }
  }

  class StateRecordWriter<B> {
    const wb: WriteBuffer
    const format: Format<B>
    var count: byte

    constructor (wb: WriteBuffer, format: Format<B>)
      ensures this.wb == wb && this.format == format && count == 0
    {
      this.wb, this.format, this.count := wb, format, 0;
    }

    /** Writes one fragment, or restores the buffer and says why not. */
    method WriteFragment(a: Attempt<B>) returns (r: Result<WriteOutcome>)
      modifies this, wb
      ensures r == OutcomeOf(format, |old(wb.data)|, old(count) as nat, a)
      ensures r == Success(Written) ==> wb.data == old(wb.data) + EncodeFragment(format, a.fragment)
                                        && count == old(count) + 1
      ensures r != Success(Written) ==> wb.data == old(wb.data) && count == old(count)
    {
      if count == 255 {
        return Failure(ContainerOverflow(count + 1, 255));
      }
      var mark := |wb.data|;
      var f := a.fragment;
      wb.WriteBytes(format.key(f));
      wb.WriteBytes(format.typeInfo(f));
      wb.WriteBytes(format.body(f));
      assert wb.data == old(wb.data) + EncodeFragment(format, f);
      if !a.hasPayload {
        wb.TruncateTo(mark);
        return Success(SkippedNoPayload);
      }
      if |wb.data| > BUFFER_CAP {
        wb.TruncateTo(mark);
        return Success(SkippedOverLimit);
      }
      count := count + 1;
      r := Success(Written);
    }
  }

  /** One attempt advances the writer as `Step` says; the record's fragments follow the bytes `base`. */
  method WriteNext<B>(w: StateRecordWriter<B>, a: Attempt<B>, ghost base: seq<byte>,
                      ghost p: Progress<B>) returns (r: Result<WriteOutcome>)
    requires w.count as nat == |p.kept| && w.wb.data == base + EncodeFragments(w.format, p.kept)
    modifies w, w.wb
    ensures w.count as nat == |Step(w.format, |base|, p, a).kept|
    ensures w.wb.data == base + EncodeFragments(w.format, Step(w.format, |base|, p, a).kept)
    ensures Step(w.format, |base|, p, a).results == p.results + [r]
  {
    StepBytes(w.format, |base|, p, a);
    r := w.WriteFragment(a);
    assert base + EncodeFragments(w.format, p.kept) + EncodeFragment(w.format, a.fragment)
        == base + (EncodeFragments(w.format, p.kept) + EncodeFragment(w.format, a.fragment));
  }

  /** The attempts of one record, made by the caller's closure. */
  method WriteFragments<B>(w: StateRecordWriter<B>, attempts: seq<Attempt<B>>, ghost base: seq<byte>)
    returns (results: seq<Result<WriteOutcome>>, ghost p: Progress<B>)
    requires w.count == 0 && w.wb.data == base
    modifies w, w.wb
    ensures p == ProgressAfter(w.format, |base|, attempts)
    ensures results == p.results
    ensures w.count as nat == |p.kept|
    ensures w.wb.data == base + EncodeFragments(w.format, p.kept)
  {
    results, p := [], Progress([], []);
    assert base + [] == base;
    for i := 0 to |attempts|
      invariant p == ProgressAfter(w.format, |base|, attempts[..i])
      invariant results == p.results && w.count as nat == |p.kept|
      invariant w.wb.data == base + EncodeFragments(w.format, p.kept)
    {
      ProgressStep(w.format, |base|, attempts, i);
      var r := WriteNext(w, attempts[i], base, p);
      results := results + [r];
      p := Step(w.format, |base|, p, attempts[i]);
    }
    assert attempts[..|attempts|] == attempts;
  }

  lemma PatchedCount(buffer: seq<byte>, id: seq<byte>, body: seq<byte>, count: byte)
    ensures var s := buffer + id + [0] + body;
            s[..|buffer + id|] + [count] + s[|buffer + id| + 1..] == buffer + (id + [count] + body)
  {
  }

  /** The buffer a call leaves, from the buffer with its finished record. */
  lemma {:induction false} KeepOrRollBack<B>(format: Format<B>, buffer: seq<byte>, call: Call<B>,
                                             kept: seq<Fragment<B>>)
    requires kept == ProgressAfter(format, |buffer| + HeaderLen(format, call.interestId), call.attempts).kept
    ensures BufferAfter(format, buffer, call)
         == if call.verdict && kept != [] then
              buffer + (format.interestId(call.interestId) + [|kept|] + EncodeFragments(format, kept))
            else buffer
  {
  }

  /**
   Reserves the count byte, writes the fragments, patches the count, and rolls the record
   back unless it is to be kept.
   */
  method WriteStateRecord<B>(wb: WriteBuffer, format: Format<B>,
                             call: Call<B>) returns (results: seq<Result<WriteOutcome>>)
    modifies wb
    ensures wb.data == BufferAfter(format, old(wb.data), call)
    ensures results == ProgressAfter(format, |old(wb.data)| + HeaderLen(format, call.interestId), call.attempts).results
  {
    var mark := |wb.data|;
    var id := format.interestId(call.interestId);
    wb.WriteBytes(id);
    var prefix := |wb.data|;
    wb.WriteU8(0);
    var w := new StateRecordWriter<B>(wb, format);
    ghost var p;
    results, p := WriteFragments(w, call.attempts, wb.data);
    KeepOrRollBack(format, old(wb.data), call, p.kept);
    PatchedCount(old(wb.data), id, EncodeFragments(format, p.kept), w.count);
    wb.Patch(prefix, [w.count]);
    if !call.verdict || w.count == 0 {
      wb.TruncateTo(mark);
    }
  }

  // ----- runs of calls -----

  function BufferRun<B>(format: Format<B>, calls: seq<Call<B>>): seq<byte> {
    if calls == [] then [] else BufferAfter(format, BufferRun(format, calls[..|calls| - 1]), calls[|calls| - 1])
  }

  function RecordRun<B>(format: Format<B>, calls: seq<Call<B>>): (r: seq<Record<B>>)
    ensures forall i :: 0 <= i < |r| ==> Countable(r[i])
  {
    if calls == [] then []
    else
      var before := calls[..|calls| - 1];
      var record := RecordKept(format, BufferRun(format, before), calls[|calls| - 1]);
      RecordRun(format, before) + if record.Some? then [record.value] else []
  }

  lemma {:induction false} EncodeRecordsAppend<B>(format: Format<B>, rs: seq<Record<B>>, r: Record<B>)
    requires (forall i :: 0 <= i < |rs| ==> Countable(rs[i])) && Countable(r)
    ensures EncodeRecords(format, rs + [r]) == EncodeRecords(format, rs) + EncodeRecord(format, r)
  {
    if rs == [] {
      assert [r][1..] == [] && rs + [r] == [r];
    } else {
      EncodeRecordsAppend(format, rs[1..], r);
      assert (rs + [r])[1..] == rs[1..] + [r];
    }
  }

  /** Every fragment offered with a payload is one that can be read back. */
  ghost predicate Offerable<B>(codec: BodyCodec<B>, call: Call<B>) {
    forall a :: a in call.attempts && a.hasPayload ==> SelfDelimiting(codec, a.fragment)
  }

  /** Over any run of calls the buffer holds exactly the kept records, one after another, within the cap. */
  lemma {:induction false} BufferIsRecords<B>(format: Format<B>, calls: seq<Call<B>>)
    ensures BufferRun(format, calls) == EncodeRecords(format, RecordRun(format, calls))
    ensures |BufferRun(format, calls)| <= 256_000
  {
    if calls != [] {
      var before, call := calls[..|calls| - 1], calls[|calls| - 1];
      var buffer := BufferRun(format, before);
      BufferIsRecords(format, before);
      RecordKeepsCap(format, buffer, call);
      var record := RecordKept(format, buffer, call);
      if record.Some? {
        EncodeRecordsAppend(format, RecordRun(format, before), record.value);
      } else {
        assert RecordRun(format, calls) == RecordRun(format, before);
      }
    }
  }

  lemma KeptRecordReadable<B>(codec: BodyCodec<B>, buffer: seq<byte>, call: Call<B>)
    requires Offerable(codec, call)
    ensures var r := RecordKept(WireFormat(codec), buffer, call);
            r.Some? ==> Readable(WireReader(codec), WireFormat(codec), r.value)
  {
    KeptHavePayload(WireFormat(codec), |buffer| + HeaderLen(WireFormat(codec), call.interestId), call.attempts);
    var r := RecordKept(WireFormat(codec), buffer, call);
    if r.Some? {
      forall f | f in r.value.fragments
        ensures ReadsBack(WireReader(codec), WireFormat(codec), f)
      {
        assert Attempt(f, true).hasPayload;
        WireReaderReadsBack(codec, f);
      }
    }
  }

  /** Whatever record the call leaves, on whatever buffer, can be read back. */
  ghost predicate LeavesReadable<B>(reader: Reader<B>, format: Format<B>, call: Call<B>) {
    forall buffer :: RecordKept(format, buffer, call).Some?
                     ==> Readable(reader, format, RecordKept(format, buffer, call).value)
  }

  lemma {:induction false} RunIsReadable<B>(reader: Reader<B>, format: Format<B>, calls: seq<Call<B>>)
    requires forall i :: 0 <= i < |calls| ==> LeavesReadable(reader, format, calls[i])
    ensures forall r :: r in RecordRun(format, calls) ==> Readable(reader, format, r)
  {
    if calls != [] {
      var before, call := calls[..|calls| - 1], calls[|calls| - 1];
      RunIsReadable(reader, format, before);
      assert LeavesReadable(reader, format, call);
    }
  }

  /** Parsing what any run of calls has written gives exactly the fragments those calls kept. */
  lemma ParseInvertsWriting<B(!new)>(codec: BodyCodec<B>, calls: seq<Call<B>>)
    requires Advances(codec)
    requires forall i :: 0 <= i < |calls| ==> Offerable(codec, calls[i])
    ensures ParseBundle(codec, BufferRun(WireFormat(codec), calls))
         == Seen(AllVisits(RecordRun(WireFormat(codec), calls)), None)
  {
    BufferIsRecords(WireFormat(codec), calls);
    forall i | 0 <= i < |calls|
      ensures LeavesReadable(WireReader(codec), WireFormat(codec), calls[i])
    {
      forall buffer
        ensures var r := RecordKept(WireFormat(codec), buffer, calls[i]);
                r.Some? ==> Readable(WireReader(codec), WireFormat(codec), r.value)
      {
        KeptRecordReadable(codec, buffer, calls[i]);
      }
    }
    RunIsReadable(WireReader(codec), WireFormat(codec), calls);
    WireReaderReadsHeaders(codec);
    WireReaderShrinks(codec);
    ParseInvertsRecords(WireReader(codec), WireFormat(codec), RecordRun(WireFormat(codec), calls));
  }

  /** A record a call left stays in the buffer through every later call. */
  lemma {:induction false} KeptRecordStays<B>(format: Format<B>, calls: seq<Call<B>>, k: nat)
    requires k < |calls| && RecordKept(format, BufferRun(format, calls[..k]), calls[k]).Some?
    ensures RecordKept(format, BufferRun(format, calls[..k]), calls[k]).value in RecordRun(format, calls)
  {
    var before := calls[..|calls| - 1];
    var last := RecordKept(format, BufferRun(format, before), calls[|calls| - 1]);
    assert RecordRun(format, calls) == RecordRun(format, before) + if last.Some? then [last.value] else [];
    if k < |before| {
      assert before[..k] == calls[..k];
      KeptRecordStays(format, before, k);
    }
  }

  lemma {:induction false} FragmentVisited<B>(rs: seq<Record<B>>, r: Record<B>, f: Fragment<B>)
    requires (forall i :: 0 <= i < |rs| ==> Countable(rs[i])) && r in rs && Countable(r) && f in r.fragments
    ensures Visit(HeaderOf(r), f) in AllVisits(rs)
  {
    if r == rs[0] {
      var i :| 0 <= i < |r.fragments| && r.fragments[i] == f;
      assert VisitsOf(HeaderOf(r), r.fragments)[i] == Visit(HeaderOf(r), f);
    } else {
      FragmentVisited(rs[1..], r, f);
    }
  }

  /** Every fragment any call of a run has kept is among what a reader of the buffer sees, without error. */
  lemma {:induction false} KeptFragmentsVisited<B(!new)>(codec: BodyCodec<B>, calls: seq<Call<B>>, k: nat,
                                                         f: Fragment<B>)
    requires Advances(codec) && forall i :: 0 <= i < |calls| ==> Offerable(codec, calls[i])
    requires k < |calls| && Keeps(WireFormat(codec), calls, k, f)
    ensures var r := RecordKept(WireFormat(codec), BufferRun(WireFormat(codec), calls[..k]), calls[k]).value;
            var seen := ParseBundle(codec, BufferRun(WireFormat(codec), calls));
            seen.error.None? && Visit(HeaderOf(r), f) in seen.visits
  {
    var format := WireFormat(codec);
    ParseInvertsWriting(codec, calls);
    KeptRecordStays(format, calls, k);
    FragmentVisited(RecordRun(format, calls), RecordKept(format, BufferRun(format, calls[..k]), calls[k]).value, f);
  }

  /** A call whose fragments all fit behind the records before it keeps every one of them. */
  lemma {:induction false} FittingCallKeeps<B>(format: Format<B>, calls: seq<Call<B>>, k: nat, f: Fragment<B>)
    requires k < |calls| && calls[k].verdict && f in FragmentsOf(calls[k].attempts)
    requires AllFit(format, |BufferRun(format, calls[..k])| + HeaderLen(format, calls[k].interestId), calls[k].attempts)
    ensures Keeps(format, calls, k, f)
  {
    WholeRecordKept(format, BufferRun(format, calls[..k]), calls[k]);
  }

  /** Call `k` of a run leaves a record with the fragment in it. */
  ghost predicate Keeps<B>(format: Format<B>, calls: seq<Call<B>>, k: nat, f: Fragment<B>)
    requires k < |calls|
  {
    var r := RecordKept(format, BufferRun(format, calls[..k]), calls[k]);
    r.Some? && f in r.value.fragments
  }
}
