/**
 What a receiver ends up with: a container sent against a baseline brings a receiver that
 held the values of that baseline to the sender's current values, by snapshot or by
 delta; and snapshots may arrive in any order, any number of times.
 */
module ContainerConvergence {
  import opened Wire
  import opened SequenceNumbers
  import opened ContainerModel
  import opened ContainerReplay
  import opened ContainerHistory
  import opened ContainerWire
  import opened LiveMask

  /** The changes of the delta form, or nothing when the snapshot form is sent. */
  function DeltaSent<K, V>(c: Container<K, V>, baseline: SequenceNumber, inefficient: bool): seq<Change<K, V>> {
    var changes := ChangesSince(c, baseline);
    if !baseline.IsValid() || c.initialize || inefficient || |changes| >= 0x4000 then [] else changes
  }

  /** The sequence a receiver's last-processed mark is compared with. */
  function PayloadStamp<K, V>(c: Container<K, V>, baseline: SequenceNumber, inefficient: bool): SequenceNumber {
    var changes := DeltaSent(c, baseline, inefficient);
    if changes == [] then c.lastModified else changes[|changes| - 1].Sequence()
  }

  /** A receiver takes a payload when it has no mark yet, or its mark is older than the payload. */
  predicate Takes<K, V>(receiver: Container<K, V>, stamp: SequenceNumber) {
    !receiver.lastProcessed.IsValid() || receiver.lastProcessed.Lt(stamp)
  }

  lemma {:induction false} SnapshotMerge<K, V>(receiver: Container<K, V>, stamp: SequenceNumber, values: map<K, V>,
                                               at: SequenceNumber,
                                               inherit: bool)
    ensures var merged := Merge(Fresh(), receiver, SnapshotOf(stamp, values), at, inherit);
            && Accepts(receiver, SnapshotOf(stamp, values)) == Takes(receiver, stamp)
            && merged.values == (if Takes(receiver, stamp) then values else receiver.values)
            && merged.lastProcessed == (if Takes(receiver, stamp) then stamp else receiver.lastProcessed)
  {
  }

  lemma {:induction false} DeltaAccepted<K, V>(receiver: Container<K, V>, changes: seq<Change<K, V>>)
    requires changes != []
    ensures Accepts(receiver, DeltaOf(changes)) == Takes(receiver, changes[|changes| - 1].Sequence())
  {
    assert DeltaOf(changes).End() == Invalid;
  }

  lemma {:induction false} DeltaMerge<K, V>(receiver: Container<K, V>, changes: seq<Change<K, V>>, at: SequenceNumber,
                                            inherit: bool)
    requires changes != []
    ensures var merged := Merge(Fresh(), receiver, DeltaOf(changes), at, inherit);
            var stamp := changes[|changes| - 1].Sequence();
            && merged.lastProcessed == receiver.lastProcessed
            && merged.values == (if Takes(receiver, stamp) then Apply(receiver.values, changes) else receiver.values)
  {
    DeltaAccepted(receiver, changes);
  }

  /** What the delta form decodes to: the changes filled from the sender's values, at the same sequences. */
  lemma {:induction false} DeltaArrives<K(!new), V(!new)>(f: Format<K, V>, values: map<K, V>, sent: seq<Change<K, V>>,
                                                          rest: seq<byte>)
    returns (received: seq<Change<K, V>>)
    requires LawfulFormat(f) && NoRepeatMarker(sent) && 0 < |sent| <= f.cap && |sent| < 0x1_0000_0000
    ensures DecodeContainer(f, EncodeDelta(f, values, PopulateAll(values, sent)) + rest) == Ok(DeltaOf(received), rest)
    ensures received == Images(Receiver(f, values), PopulateAll(values, sent)) && FilledFrom(values, sent, received)
    ensures received[|sent| - 1].Sequence().Same(sent[|sent| - 1].Sequence())
  {
    var filled := PopulateAll(values, sent);
    received := Images(Receiver(f, values), filled);
    PopulateKeepsMarkers(values, sent);
    DeltaRoundTrip(f, values, filled, rest);
    forall i | 0 <= i < |sent|
      ensures received[i] == Received(f, values, Populate(values, sent[i]))
    {
    }
    ReceivedIsFilled(f, values, sent, received);
  }

  lemma {:induction false} PopulateKeepsMarkers<K, V>(values: map<K, V>, sent: seq<Change<K, V>>)
    requires NoRepeatMarker(sent)
    ensures NoRepeatMarker(PopulateAll(values, sent))
  {
    var filled := PopulateAll(values, sent);
    forall x | x in filled
      ensures !x.Sequence().Same(ValidNonSequence)
    {
      var i :| 0 <= i < |filled| && filled[i] == x;
      assert sent[i] in sent && x.Sequence() == sent[i].Sequence();
    }
  }

  lemma {:induction false} ReceivedIsFilled<K, V>(f: Format<K, V>, values: map<K, V>, sent: seq<Change<K, V>>,
                                                  received: seq<Change<K, V>>)
    requires |received| == |sent|
    requires forall i :: 0 <= i < |sent| ==> received[i] == Received(f, values, Populate(values, sent[i]))
    ensures FilledFrom(values, sent, received)
    ensures forall i :: 0 <= i < |sent| ==> received[i].Sequence().Same(sent[i].Sequence())
  {
  }

  lemma {:induction false} SentCovers<K(!new), V>(h: History<K, V>, c: Container<K, V>, baseline: SequenceNumber,
                                                  inefficient: bool)
    requires Sender(h, c) && Covers(c.journal, baseline) && Steady(h, baseline)
    requires DeltaSent(c, baseline, inefficient) != []
    ensures Explains(h.ValuesAsOf(baseline), DeltaSent(c, baseline, inefficient), c.values)
    ensures NoRepeatMarker(DeltaSent(c, baseline, inefficient))
  {
    JournalCovers(h, c, baseline);
  }

  lemma {:induction false} MarshalledForm<K, V>(f: Format<K, V>, c: Container<K, V>, baseline: SequenceNumber,
                                                inefficient: bool,
                                                entries: seq<(K, V)>)
    requires |entries| < 0x1_0000_0000
    ensures var sent := DeltaSent(c, baseline, inefficient);
            && |sent| < DELTA_LIMIT
            && PayloadStamp(c, baseline, inefficient)
               == (if sent == [] then c.lastModified else sent[|sent| - 1].Sequence())
            && MarshalSince(f, c, baseline, inefficient, entries)
               == if sent == [] then EncodeSnapshot(f, c.lastModified, entries)
                  else EncodeDelta(f, c.values, PopulateAll(c.values, sent))
  {
  }

  lemma {:induction false} SnapshotConverges<K(!new), V(!new)>(f: Format<K, V>, c: Container<K, V>,
                                                               entries: seq<(K, V)>,
                                                               receiver: Container<K, V>, at: SequenceNumber,
                                                               inherit: bool,
                                                               rest: seq<byte>)
    returns (payload: Container<K, V>)
    requires LawfulFormat(f)
    requires Enumerates(entries, c.values) && |c.values| <= f.cap && |c.values| < 0x1_0000_0000
    ensures DecodeContainer(f, EncodeSnapshot(f, c.lastModified, entries) + rest) == Ok(payload, rest)
    ensures Outcome(receiver, payload, at, inherit, c.lastModified, c.values)
  {
    payload := SnapshotOf(c.lastModified.Normal(), c.values);
    SnapshotRoundTrip(f, c.lastModified, entries, c.values, rest);
    SnapshotMerge(receiver, c.lastModified.Normal(), c.values, at, inherit);
  }

  lemma {:induction false} DeltaConverges<K(!new), V(!new)>(f: Format<K, V>, values: map<K, V>, sent: seq<Change<K, V>>,
                                                            receiver: Container<K, V>, at: SequenceNumber,
                                                            inherit: bool, rest: seq<byte>)
    returns (payload: Container<K, V>)
    requires LawfulFormat(f) && NoRepeatMarker(sent) && 0 < |sent| <= f.cap && |sent| < 0x1_0000_0000
    requires Explains(receiver.values, sent, values)
    ensures DecodeContainer(f, EncodeDelta(f, values, PopulateAll(values, sent)) + rest) == Ok(payload, rest)
    ensures Outcome(receiver, payload, at, inherit, sent[|sent| - 1].Sequence(), values)
  {
    var received := DeltaArrives(f, values, sent, rest);
    payload := DeltaOf(received);
    ReplayExplained(receiver.values, sent, values, received);
    DeltaMerge(receiver, received, at, inherit);
  }

  /** Merging `payload` gives `values` if the mark lets in `stamp`, and otherwise changes neither values nor mark. */
  ghost predicate Outcome<K, V>(receiver: Container<K, V>, payload: Container<K, V>, at: SequenceNumber, inherit: bool,
                                stamp: SequenceNumber, values: map<K, V>)
  {
    var merged := Merge(Fresh(), receiver, payload, at, inherit);
    if Takes(receiver, stamp) then merged.values == values
    else merged.values == receiver.values && merged.lastProcessed == receiver.lastProcessed
  }

  /**
   Container convergence. Whatever the size test chose, the bytes decode and are consumed
   exactly, and merging them gives the sender's current values if the receiver's mark lets
   them in; otherwise they change nothing. A snapshot does this for any container and any
   receiver. A delta does it after any unbroken run of merges and any local edits, for a
   receiver holding the values of the run as of the baseline, if the journal covers the
   baseline and takeovers since then share it.
   */
  lemma {:induction false} ContainerConverges<K(!new), V(!new)>(
    f: Format<K, V>, h: History<K, V>, c: Container<K, V>, baseline: SequenceNumber, inefficient: bool,
    entries: seq<(K, V)>, receiver: Container<K, V>, at: SequenceNumber, inherit: bool, rest: seq<byte>)
    returns (payload: Container<K, V>)
    requires LawfulFormat(f)
    requires Enumerates(entries, c.values) && |c.values| <= f.cap && |c.values| < 0x1_0000_0000
    requires var sent := DeltaSent(c, baseline, inefficient);
             sent != [] ==>
               && Sender(h, c) && |sent| <= f.cap && Covers(c.journal, baseline) && Steady(h, baseline)
               && receiver.values == h.ValuesAsOf(baseline)
    ensures DecodeContainer(f, MarshalSince(f, c, baseline, inefficient, entries) + rest) == Ok(payload, rest)
    ensures Outcome(receiver, payload, at, inherit, PayloadStamp(c, baseline, inefficient), c.values)
  {
    MarshalledForm(f, c, baseline, inefficient, entries);
    if DeltaSent(c, baseline, inefficient) == [] {
      payload := SnapshotConverges(f, c, entries, receiver, at, inherit, rest);
    } else {
      payload := CoveredDeltaConverges(f, h, c, baseline, inefficient, receiver, at, inherit, rest);
    }
  }

  lemma {:induction false} CoveredDeltaConverges<K(!new), V(!new)>(
    f: Format<K, V>, h: History<K, V>, c: Container<K, V>, baseline: SequenceNumber, inefficient: bool,
    receiver: Container<K, V>, at: SequenceNumber, inherit: bool, rest: seq<byte>)
    returns (payload: Container<K, V>)
    requires LawfulFormat(f) && Sender(h, c) && Covers(c.journal, baseline) && Steady(h, baseline)
    requires 0 < |DeltaSent(c, baseline, inefficient)| <= f.cap && |DeltaSent(c, baseline, inefficient)| < DELTA_LIMIT
    requires receiver.values == h.ValuesAsOf(baseline)
    ensures DecodeContainer(f,
                            EncodeDelta(f, c.values,
                                        PopulateAll(c.values, DeltaSent(c, baseline, inefficient))) + rest)
         == Ok(payload, rest)
    ensures Outcome(receiver, payload, at, inherit, PayloadStamp(c, baseline, inefficient), c.values)
  {
    SentCovers(h, c, baseline, inefficient);
    payload := DeltaConverges(f, c.values, DeltaSent(c, baseline, inefficient), receiver, at, inherit, rest);
  }

  /**
   Local edits keep the invalid sequence, so a delta that ends in edits not merged yet is
   taken by receivers without a mark only.
   */
  lemma {:induction false} MarkedReceiverDropsPendingEdits<K(!new), V>(h: History<K, V>, c: Container<K, V>,
                                                                       baseline: SequenceNumber, inefficient: bool,
                                                                       receiver: Container<K, V>)
    requires Sender(h, c) && c.current != [] && DeltaSent(c, baseline, inefficient) != []
    ensures Takes(receiver, PayloadStamp(c, baseline, inefficient)) <==> !receiver.lastProcessed.IsValid()
  {
    var last := c.current[|c.current| - 1];
    assert last in c.current && last.Sequence() == Invalid;
    LastOfConcat(JournalSince(c.journal, baseline), c.current);
  }

  /**
   They keep it in the journal too. Right after a working copy was merged, every delta that
   carries its edits is taken by receivers without a mark only.
   */
  lemma {:induction false} MarkedReceiverDropsMergedEdits<K, V>(h: History<K, V>, baseline: SequenceNumber,
                                                                inefficient: bool, receiver: Container<K, V>)
    requires h.Merged? && ValidRun(h) && h.Accepting() && !h.incoming.initialize && !h.incoming.pendingDelta
    requires baseline.Lt(h.stamp) && DeltaSent(h.State(), baseline, inefficient) != []
    ensures Takes(receiver, PayloadStamp(h.State(), baseline, inefficient)) <==> !receiver.lastProcessed.IsValid()
  {
    MergeStep(h);
    assert h.incoming.current[|h.incoming.current| - 1] in h.incoming.current;
    DeltaEndsUnstamped(h.State(), h.before.State().journal, ChangeSet(h.stamp, h.incoming.current), baseline,
                       inefficient, receiver);
  }

  lemma {:induction false} DeltaEndsUnstamped<K, V>(c: Container<K, V>, journal: seq<ChangeSet<K, V>>,
                                                    entry: ChangeSet<K, V>, baseline: SequenceNumber,
                                                    inefficient: bool, receiver: Container<K, V>)
    requires c.current == [] && c.journal == PushJournal(journal, entry) && DeltaSent(c, baseline, inefficient) != []
    requires entry.changes != [] && entry.changes[|entry.changes| - 1].Sequence() == Invalid
    requires baseline.Lt(entry.stamp)
    ensures Takes(receiver, PayloadStamp(c, baseline, inefficient)) <==> !receiver.lastProcessed.IsValid()
  {
    PushedEndsWith(journal, entry, baseline);
    assert ChangesSince(c, baseline) == JournalSince(c.journal, baseline);
  }

  lemma {:induction false} PushedEndsWith<K, V>(journal: seq<ChangeSet<K, V>>, entry: ChangeSet<K, V>,
                                                baseline: SequenceNumber)
    requires baseline.Lt(entry.stamp) && entry.changes != []
    ensures var since := JournalSince(PushJournal(journal, entry), baseline);
            since != [] && since[|since| - 1] == entry.changes[|entry.changes| - 1]
  {
    var kept := if |journal| == JOURNAL_SIZE then journal[1..] else journal;
    SinceAppend(kept, entry, baseline);
    LastOfConcat(JournalSince(kept, baseline), entry.changes);
  }

  /**
   For the same reason a container accepts an edited copy without a newer journal exactly
   when it has no mark itself; with one, the merge changes no value.
   */
  lemma {:induction false} MarkedContainerRefusesEdits<K, V>(dest: Container<K, V>, prior: Container<K, V>,
                                                             copy: Container<K, V>,
                                                             s: SequenceNumber, inherit: bool)
    requires WorkingCopy(prior, copy) && copy.current != [] && !prior.End().Lt(copy.End())
             && copy.lastModified.IsValid()
    ensures Accepts(prior, copy) <==> !prior.lastProcessed.IsValid()
    ensures Merge(dest, prior, copy, s, inherit).values == if prior.lastProcessed.IsValid() then prior.values
                                                           else copy.values
  {
    assert copy.current[|copy.current| - 1] in copy.current;
  }

  lemma {:induction false} LastOfConcat<X>(a: seq<X>, b: seq<X>)
    requires b != []
    ensures (a + b)[|a + b| - 1] == b[|b| - 1]
  {
  }

  /**
   Exactly when a delta converges, for every baseline, covered by the journal or not, and
   every receiver that takes it: when receiver and sender agree on the keys it does not
   mention. Mentioned keys always end up right.
   */
  lemma {:induction false} DeltaConvergesExactly<K(!new), V(!new)>(
    f: Format<K, V>, h: History<K, V>, c: Container<K, V>, baseline: SequenceNumber, inefficient: bool,
    entries: seq<(K, V)>, receiver: Container<K, V>, at: SequenceNumber, inherit: bool, rest: seq<byte>)
    returns (payload: Container<K, V>)
    requires LawfulFormat(f) && Sender(h, c) && |entries| < 0x1_0000_0000
    requires 0 < |DeltaSent(c, baseline, inefficient)| <= f.cap
    requires Takes(receiver, PayloadStamp(c, baseline, inefficient))
    ensures DecodeContainer(f, MarshalSince(f, c, baseline, inefficient, entries) + rest) == Ok(payload, rest)
    ensures Merge(Fresh(), receiver, payload, at, inherit).values == c.values
       <==> AgreeElsewhere(receiver.values, DeltaSent(c, baseline, inefficient), c.values)
  {
    var sent := DeltaSent(c, baseline, inefficient);
    MarshalledForm(f, c, baseline, inefficient, entries);
    var a := AnyBaselineExplains(h, c, baseline);
    var received := DeltaArrives(f, c.values, sent, rest);
    payload := DeltaOf(received);
    DeltaMerge(receiver, received, at, inherit);
    ReplayExactly(a, receiver.values, sent, c.values, received);
  }

  lemma {:induction false} ReplayExactly<K(!new), V>(a: map<K, V>, r: map<K, V>, changes: seq<Change<K, V>>,
                                                     b: map<K, V>, sent: seq<Change<K, V>>)
    requires Explains(a, changes, b) && FilledFrom(b, changes, sent)
    ensures Apply(r, sent) == b <==> AgreeElsewhere(r, changes, b)
  {
    forall k
      ensures Get(Apply(r, sent), k) == if LastMention(changes, k).Some? then Get(b, k) else Get(r, k)
    {
      ReplayFromAnywhere(a, changes, b, sent, r, k);
    }
    if AgreeElsewhere(r, changes, b) {
      SameByGet(Apply(r, sent), b);
    }
  }

  /** Entries at or before the baseline contribute nothing, whichever the journal has dropped. */
  lemma {:induction false} NothingSince<K, V>(journal: seq<ChangeSet<K, V>>, baseline: SequenceNumber)
    requires forall i :: 0 <= i < |journal| ==> journal[i].stamp.Le(baseline)
    ensures JournalSince(journal, baseline) == []
  {
    if journal != [] {
      NothingSince(journal[..|journal| - 1], baseline);
    }
  }

  lemma {:induction false} SinceAppend<K, V>(journal: seq<ChangeSet<K, V>>, entry: ChangeSet<K, V>,
                                             baseline: SequenceNumber)
    requires baseline.Lt(entry.stamp)
    ensures JournalSince(journal + [entry], baseline) == JournalSince(journal, baseline) + entry.changes
  {
    assert (journal + [entry])[..|journal|] == journal;
  }

  lemma {:induction false} PushedSince<K, V>(journal: seq<ChangeSet<K, V>>, entry: ChangeSet<K, V>,
                                             baseline: SequenceNumber)
    requires baseline.Lt(entry.stamp) && forall i :: 0 <= i < |journal| ==> journal[i].stamp.Le(baseline)
    ensures JournalSince(PushJournal(journal, entry), baseline) == entry.changes
  {
    var kept := if |journal| == JOURNAL_SIZE then journal[1..] else journal;
    NothingSince(kept, baseline);
    SinceAppend(kept, entry, baseline);
  }

  lemma {:induction false} JournalUpTo<K, V>(h: History<K, V>, baseline: SequenceNumber)
    requires ValidRun(h) && h.LastStamp().Le(baseline)
    ensures forall i :: 0 <= i < |h.State().journal| ==> h.State().journal[i].stamp.Le(baseline)
  {
    RunKeepsLedger(h);
    JournalIsLatest(h);
  }

  /** Right after a working copy was merged, the changes since the merge before it are the copy's edits. */
  lemma {:induction false} EditsSince<K, V>(h: History<K, V>, baseline: SequenceNumber)
    requires h.Merged? && ValidRun(h) && h.Accepting() && !h.incoming.initialize
    requires h.before.LastStamp().Le(baseline) && baseline.Lt(h.stamp)
    ensures ChangesSince(h.State(), baseline) == h.incoming.current
    ensures h.ValuesAsOf(baseline) == h.before.State().values
  {
    MergeStep(h);
    JournalUpTo(h.before, baseline);
    PushedSince(h.before.State().journal, ChangeSet(h.stamp, h.incoming.current), baseline);
    ValuesAtLast(h.before, baseline);
  }

  lemma {:induction false} ValuesAtLast<K, V>(h: History<K, V>, baseline: SequenceNumber)
    requires h.LastStamp().Le(baseline)
    ensures h.ValuesAsOf(baseline) == h.State().values
  {
  }

  /**
   Exactly when a merged working copy reaches a receiver that was in sync just before. The
   copy was edited from the values `a`; its delta gives the merged values if and only if
   the values it was merged onto agree with `a` on every key its edits do not name. They do
   when nothing was merged since the copy was taken.
   */
  lemma {:induction false} WorkingCopyConvergesExactly<K(!new), V>(h: History<K, V>, a: map<K, V>,
                                                                   baseline: SequenceNumber)
    requires h.Merged? && ValidRun(h) && h.Accepting()
    requires EditsTracked(a, h.incoming) && !h.incoming.initialize && !h.incoming.pendingDelta
    requires h.before.LastStamp().Le(baseline) && baseline.Lt(h.stamp)
    ensures Apply(h.ValuesAsOf(baseline), PopulateAll(h.State().values, ChangesSince(h.State(), baseline)))
         == h.State().values
       <==> AgreeElsewhere(h.before.State().values, h.incoming.current, a)
  {
    var changes, values := h.incoming.current, h.State().values;
    EditsSince(h, baseline);
    ReplayExactly(a, h.before.State().values, changes, values, PopulateAll(values, changes));
    forall k | LastMention(changes, k).None?
      ensures Get(a, k) == Get(values, k)
    {
      assert Accounts(LastMention(changes, k), a, values, k);
    }
  }

  /** A merged container that has not been edited since can itself be sent. */
  lemma {:induction false} MergedRunSends<K(!new), V>(h: History<K, V>)
    requires ValidRun(h) && Unbroken(h) && h.State().current == [] && !h.State().initialize
    ensures Sender(h, h.State())
  {
    assert Explains(h.State().values, [], h.State().values);
  }

  /**
   A container merged with itself keeps its values and turns its edits into one journal entry
   at the merge sequence.
   */
  lemma {:induction false} SelfMergeShape<K, V>(dest: Container<K, V>, c: Container<K, V>, s: SequenceNumber)
    requires c.lastModified.IsValid()
    ensures var m := MergeSelf(dest, c, s);
            && m.values == c.values && m.current == [] && !m.initialize && m.lastModified == s && m.newNetworkData
            && m.lastProcessed == c.lastProcessed && m.End() == s
            && m.journal == PushJournal(if c.initialize then [] else c.journal, ChangeSet(s, c.current))
  {
  }

  /** Without a stamp it leaves the destination's values, and no journal, edits or network flag. */
  lemma {:induction false} UnstampedSelfMerge<K, V>(dest: Container<K, V>, c: Container<K, V>, s: SequenceNumber)
    requires !c.lastModified.IsValid()
    ensures var m := MergeSelf(dest, c, s);
            && m.values == dest.values && m.lastModified == dest.lastModified && m.lastProcessed == c.lastProcessed
            && m.journal == [] && m.current == [] && !m.initialize && !m.newNetworkData
  {
  }

  /** From any baseline at or after the older entries, the delta is those edits. */
  lemma {:induction false} SelfMergeDelta<K, V>(dest: Container<K, V>, c: Container<K, V>, s: SequenceNumber,
                                                baseline: SequenceNumber)
    requires c.lastModified.IsValid() && !c.initialize && baseline.Lt(s)
    requires forall i :: 0 <= i < |c.journal| ==> c.journal[i].stamp.Le(baseline)
    ensures ChangesSince(MergeSelf(dest, c, s), baseline) == c.current
  {
    SelfMergeShape(dest, c, s);
    PushedSince(c.journal, ChangeSet(s, c.current), baseline);
  }

  /** So replaying it filled on the values the edits started from gives the values. */
  lemma {:induction false} SelfMergeConverges<K(!new), V>(dest: Container<K, V>, start: map<K, V>, c: Container<K, V>,
                                                          s: SequenceNumber, baseline: SequenceNumber)
    requires c.lastModified.IsValid() && Explains(start, c.current, c.values) && !c.initialize && baseline.Lt(s)
    requires forall i :: 0 <= i < |c.journal| ==> c.journal[i].stamp.Le(baseline)
    ensures var m := MergeSelf(dest, c, s);
            Apply(start, PopulateAll(m.values, ChangesSince(m, baseline))) == m.values == c.values
  {
    SelfMergeDelta(dest, c, s, baseline);
    ReplayExplained(start, c.current, c.values, PopulateAll(c.values, c.current));
  }

  // ----- snapshots in any order -----

  /** One decoded snapshot and the sequence it is merged at. */
  datatype Delivery<K, V> = Delivery(stamp: Stamp, values: map<K, V>, at: SequenceNumber)

  function Deliver<K, V>(receiver: Container<K, V>, ds: seq<Delivery<K, V>>): Container<K, V> {
    if ds == [] then receiver
    else
      var d := ds[|ds| - 1];
      Merge(Fresh(), Deliver(receiver, ds[..|ds| - 1]), SnapshotOf(d.stamp, d.values), d.at, false)
  }

  /** Snapshots never lower the receiver's mark. */
  lemma {:induction false} SnapshotsNeverLowerMark<K, V>(receiver: Container<K, V>, ds: seq<Delivery<K, V>>)
    requires forall d :: d in ds ==> d.stamp.IsValid()
    ensures receiver.lastProcessed.Le(Deliver(receiver, ds).lastProcessed)
  {
    if ds != [] {
      var n := |ds| - 1;
      SnapshotsNeverLowerMark(receiver, ds[..n]);
      assert ds[n] in ds;
      SnapshotMerge(Deliver(receiver, ds[..n]), ds[n].stamp, ds[n].values, ds[n].at, false);
    }
  }

  /**
   Any merge keeps the mark from dropping exactly when it is refused, or is a pending delta
   that does not initialise, or brings a mark at least as high.
   */
  lemma {:induction false} MarkKeptExactly<K, V>(dest: Container<K, V>, prior: Container<K, V>,
                                                 incoming: Container<K, V>, s: SequenceNumber,
                                                 inherit: bool)
    ensures prior.lastProcessed.Le(Merge(dest, prior, incoming, s, inherit).lastProcessed)
       <==> || !Accepts(prior, incoming)
            || (incoming.pendingDelta && !incoming.initialize)
            || prior.lastProcessed.Le(incoming.lastProcessed)
  {
    MergeShape(dest, prior, incoming, s, inherit);
  }

  /** The index of the snapshot the receiver ends with, or -1 if it keeps what it had. */
  ghost predicate Newest<K, V>(receiver: Container<K, V>, ds: seq<Delivery<K, V>>, i: int) {
    if i < 0 then forall d :: d in ds ==> !Takes(receiver, d.stamp)
    else
      && i < |ds| && Takes(receiver, ds[i].stamp)
      && forall j :: 0 <= j < |ds| ==> ds[j].stamp.Le(ds[i].stamp) && (j < i ==> ds[j].stamp.Lt(ds[i].stamp))
  }

  /**
   The receiver ends with the values and the sequence of the earliest-delivered snapshot
   among those with the greatest sequence, if that is above its mark, and else keeps both.
   */
  lemma {:induction false} NewestSnapshotWins<K, V>(receiver: Container<K, V>, ds: seq<Delivery<K, V>>) returns (i: int)
    requires forall d :: d in ds ==> d.stamp.IsValid()
    ensures Newest(receiver, ds, i)
    ensures Deliver(receiver, ds).values == (if i < 0 then receiver.values else ds[i].values)
    ensures Deliver(receiver, ds).lastProcessed == (if i < 0 then receiver.lastProcessed else ds[i].stamp)
  {
    i := -1;
    if ds != [] {
      var n := |ds| - 1;
      assert ds[n] in ds;
      var k := NewestSnapshotWins(receiver, ds[..n]);
      SnapshotMerge(Deliver(receiver, ds[..n]), ds[n].stamp, ds[n].values, ds[n].at, false);
      i := if Takes(Deliver(receiver, ds[..n]), ds[n].stamp) then n else k;
      NewestStep(receiver, ds, k, i);
    }
  }

  lemma {:induction false} NewestStep<K, V>(receiver: Container<K, V>, ds: seq<Delivery<K, V>>, k: int, i: int)
    requires ds != [] && forall d :: d in ds ==> d.stamp.IsValid()
    requires Newest(receiver, ds[..|ds| - 1], k)
    requires var mark := if k < 0 then receiver.lastProcessed else ds[k].stamp;
             i == if !mark.IsValid() || mark.Lt(ds[|ds| - 1].stamp) then |ds| - 1 else k
    ensures Newest(receiver, ds, i)
  {
    var n := |ds| - 1;
    assert forall j :: 0 <= j < n ==> ds[j] == ds[..n][j] && ds[j] in ds[..n];
    assert ds == ds[..n] + [ds[n]];
  }

  ghost predicate Carries<K, V>(ds: seq<Delivery<K, V>>, stamp: Stamp) {
    exists d :: d in ds && d.stamp == stamp
  }

  /**
   Order and repetition do not matter: if every snapshot is the sender's values at its
   sequence, two deliveries of the same sequences to receivers with the same values and
   mark leave the same values and the same mark.
   */
  lemma {:induction false} DeliveryOrderIrrelevant<K, V>(sender: Stamp -> map<K, V>, r1: Container<K, V>,
                                                         ds1: seq<Delivery<K, V>>,
                                                         r2: Container<K, V>, ds2: seq<Delivery<K, V>>)
    requires r1.values == r2.values && r1.lastProcessed == r2.lastProcessed
    requires forall d :: d in ds1 || d in ds2 ==> d.stamp.IsValid() && d.values == sender(d.stamp)
    requires forall stamp :: Carries(ds1, stamp) <==> Carries(ds2, stamp)
    ensures Deliver(r1, ds1).values == Deliver(r2, ds2).values
    ensures Deliver(r1, ds1).lastProcessed == Deliver(r2, ds2).lastProcessed
  {
    var i := NewestSnapshotWins(r1, ds1);
    var j := NewestSnapshotWins(r2, ds2);
    if i >= 0 {
      assert ds1[i] in ds1 && Carries(ds1, ds1[i].stamp);
      AtMostNewest(r2, ds2, j, ds1[i].stamp);
    }
    if j >= 0 {
      assert ds2[j] in ds2 && Carries(ds2, ds2[j].stamp);
      AtMostNewest(r1, ds1, i, ds2[j].stamp);
    }
    if i >= 0 && j >= 0 {
      NormalForm(ds1[i].stamp, ds2[j].stamp);
    }
  }

  /** A delivered snapshot the receiver would take is at most the newest, and there is then a newest. */
  lemma {:induction false} AtMostNewest<K, V>(r: Container<K, V>, ds: seq<Delivery<K, V>>, i: int, stamp: Stamp)
    requires Newest(r, ds, i) && Carries(ds, stamp)
    ensures i < 0 ==> !Takes(r, stamp)
    ensures i >= 0 ==> stamp.Le(ds[i].stamp)
  {
    var d :| d in ds && d.stamp == stamp;
  }
}
