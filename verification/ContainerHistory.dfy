/**
 Runs of merges on one replicated container, what the journal holds along the way, and
 when the journal is enough to bring a receiver up from a baseline.
 */
module ContainerHistory {
  import opened Wire
  import opened SequenceNumbers
  import opened ContainerModel
  import opened ContainerReplay

  /**
   A container and the merges that have been run on it, oldest first. What is merged is a
   decoded payload or an edited working copy, or it is a container with merges of its own,
   whose journal may be taken over.
   */
  datatype History<K, V> =
    | Start(c: Container<K, V>)
    | Merged(before: History<K, V>, incoming: Container<K, V>, stamp: SequenceNumber)
    | TakenOver(before: History<K, V>, other: History<K, V>, stamp: SequenceNumber)
  {
    /** Each merge is made into a fresh container, as a state merge does. */
    function State(): Container<K, V> {
      match this
      case Start(c) => c
      case Merged(before, incoming, stamp) => Merge(Fresh(), before.State(), incoming, stamp, false)
      case TakenOver(before, other, stamp) => Merge(Fresh(), before.State(), other.State(), stamp, false)
    }

    function LastStamp(): SequenceNumber { if Start? then Invalid else stamp }

    /** The last merge found something new. */
    predicate Accepting()
      requires !Start?
    {
      Accepts(before.State(), if Merged? then incoming else other.State())
    }

    /** The values the container held once everything up to `baseline` had been merged. */
    function ValuesAsOf(baseline: SequenceNumber): map<K, V> {
      if Start? then c.values
      else if stamp.Le(baseline) then State().values
      else before.ValuesAsOf(baseline)
    }

    /** The change sets accepted since the last initialise, the initialise included; a takeover brings the other's. */
    function Accepted(): seq<ChangeSet<K, V>> {
      match this
      case Start(_) => []
      case Merged(before, incoming, stamp) =>
        if !Accepting() then before.Accepted()
        else if incoming.initialize then [ChangeSet(stamp, incoming.current)]
        else before.Accepted() + [ChangeSet(stamp, incoming.current)]
      case TakenOver(before, other, _) => if Accepting() then other.Accepted() else before.Accepted()
    }

    /** The values before the first accepted change set, and after each. */
    function Trail(): seq<map<K, V>> {
      match this
      case Start(c) => [c.values]
      case Merged(before, incoming, _) =>
        if !Accepting() then before.Trail()
        else if incoming.initialize then [State().values, State().values]
        else before.Trail() + [State().values]
      case TakenOver(before, other, _) => if Accepting() then other.Trail() else before.Trail()
    }
  }

  /** A container as decoding a delta makes it: pending changes with values, and nothing else. */
  ghost predicate DeltaPayload<K, V>(c: Container<K, V>) {
    && c.pendingDelta && !c.initialize && c.journal == [] && NoRepeatMarker(c.current)
    && forall change :: change in c.current ==> change.IsEffective()
  }

  /** A container as decoding a snapshot makes it, or as edits leave it that have escalated to an initialise. */
  ghost predicate SnapshotPayload<K, V>(c: Container<K, V>) {
    c.initialize && c.current == []
  }

  /** A container with local edits, whatever it was copied from; without edits, one with no newer journal. */
  ghost predicate WorkingCopy<K, V>(c: Container<K, V>, copy: Container<K, V>) {
    && !copy.pendingDelta && !copy.initialize
    && (forall change :: change in copy.current ==> change.Sequence() == Invalid)
    && (copy.current == [] ==> !c.End().Lt(copy.End()))
  }

  /** The runs: working copies, deltas, snapshots and merged containers, at strictly rising sequences. */
  ghost predicate ValidRun<K, V>(h: History<K, V>) {
    match h
    case Start(c) => c.journal == []
    case Merged(before, incoming, stamp) =>
      && ValidRun(before)
      && stamp.IsValid() && before.LastStamp().Lt(stamp)
      && (WorkingCopy(before.State(), incoming) || DeltaPayload(incoming) || SnapshotPayload(incoming))
    case TakenOver(before, other, stamp) =>
      && ValidRun(before) && ValidRun(other) && !other.Start?
      && stamp.IsValid() && before.LastStamp().Lt(stamp) && other.LastStamp().Le(stamp)
  }

  /** What a merge of a payload or a working copy does to the container. */
  lemma {:induction false} MergeStep<K, V>(h: History<K, V>)
    requires h.Merged? && ValidRun(h)
    ensures var c, c' := h.before.State(), h.State();
            && c'.current == [] && !c'.initialize
            && (!h.Accepting() ==> c'.values == c.values && c'.journal == c.journal)
            && (h.Accepting() ==>
                  && NoRepeatMarker(h.incoming.current)
                  && (h.incoming.initialize <==> h.incoming.current == [])
                  && c'.journal == PushJournal(if h.incoming.initialize then [] else c.journal,
                                               ChangeSet(h.stamp, h.incoming.current)))
  {
    assert ApplyNewerSets(h.before.State(), h.before.State().End(), []) == h.before.State();
  }

  /** What merging a merged container does: it is taken over whole, journal included, or changes nothing. */
  lemma {:induction false} TakeoverStep<K, V>(h: History<K, V>)
    requires h.TakenOver? && ValidRun(h)
    ensures var c, other, c' := h.before.State(), h.other.State(), h.State();
            && c'.current == [] && !c'.initialize
            && (h.Accepting() <==> other.lastModified.IsValid() && c.End().Lt(other.End()))
            && c'.values == (if h.Accepting() then other.values else c.values)
            && c'.journal == (if h.Accepting() then other.journal else c.journal)
  {
    MergedIsClean(h.other);
  }

  lemma {:induction false} NewerSetsKeepFlags<K, V>(c: Container<K, V>, end: SequenceNumber, sets: seq<ChangeSet<K, V>>)
    ensures var c' := ApplyNewerSets(c, end, sets); c' == c.(values := c'.values, journal := c'.journal)
  {
    if sets != [] {
      NewerSetsKeepFlags(c, end, sets[..|sets| - 1]);
    }
  }

  /** The change sets newer than `end`, in order. */
  function NewerSets<K, V>(end: SequenceNumber, sets: seq<ChangeSet<K, V>>): seq<ChangeSet<K, V>> {
    if sets == [] then []
    else NewerSets(end, sets[..|sets| - 1]) + if end.Lt(sets[|sets| - 1].stamp) then [sets[|sets| - 1]] else []
  }

  /** Replaying another journal applies the changes of its newer sets, in order and nothing else. */
  lemma {:induction false} NewerSetsReplay<K, V>(c: Container<K, V>, end: SequenceNumber, sets: seq<ChangeSet<K, V>>)
    ensures ApplyNewerSets(c, end, sets).values == Apply(c.values, JournalSince(sets, end))
  {
    if sets != [] {
      var before, last := sets[..|sets| - 1], sets[|sets| - 1];
      NewerSetsReplay(c, end, before);
      if end.Lt(last.stamp) {
        ApplyConcat(c.values, JournalSince(before, end), last.changes);
      }
    }
  }

  lemma {:induction false} LatestOfOneMore<K, V>(journal: seq<ChangeSet<K, V>>, log: seq<ChangeSet<K, V>>,
                                                 newer: seq<ChangeSet<K, V>>, last: ChangeSet<K, V>)
    requires LatestOf(journal, log + newer)
    ensures LatestOf(PushJournal(journal, last), log + (newer + [last]))
  {
    LatestOfPush(journal, log + newer, last);
    assert log + newer + [last] == log + (newer + [last]);
  }

  /** It leaves the latest ten of both journals' sets. */
  lemma {:induction false} NewerSetsJournal<K, V>(c: Container<K, V>, end: SequenceNumber, sets: seq<ChangeSet<K, V>>,
                                                  log: seq<ChangeSet<K, V>>)
    requires LatestOf(c.journal, log)
    ensures LatestOf(ApplyNewerSets(c, end, sets).journal, log + NewerSets(end, sets))
  {
    if sets == [] {
      assert log + NewerSets(end, sets) == log;
    } else {
      var before, last := sets[..|sets| - 1], sets[|sets| - 1];
      NewerSetsJournal(c, end, before, log);
      if end.Lt(last.stamp) {
        LatestOfOneMore(ApplyNewerSets(c, end, before).journal, log, NewerSets(end, before), last);
      } else {
        assert NewerSets(end, sets) == NewerSets(end, before);
      }
    }
  }

  /** An accepted delta applies the change sets newer than the container's last, then its own changes. */
  lemma {:induction false} DeltaAppliesInOrder<K, V>(dest: Container<K, V>, prior: Container<K, V>,
                                                     incoming: Container<K, V>, s: SequenceNumber, inherit: bool)
    requires Accepts(prior, incoming) && incoming.pendingDelta && !incoming.initialize
    ensures Merge(dest, prior, incoming, s, inherit).values
         == Apply(prior.values, JournalSince(incoming.journal, prior.End()) + incoming.current)
  {
    var accepted := dest.(current := [], initialize := false, lastModified := s, newNetworkData := true,
    values := prior.values, lastProcessed := prior.lastProcessed, journal := prior.journal);
    NewerSetsReplay(accepted, prior.End(), incoming.journal);
    var since := JournalSince(incoming.journal, prior.End());
    ApplyConcat(prior.values, since, incoming.current);
    assert incoming.current == [] ==> since + incoming.current == since;
  }

  lemma {:induction false} ApplyConcat<K, V>(values: map<K, V>, a: seq<Change<K, V>>, b: seq<Change<K, V>>)
    ensures Apply(values, a + b) == Apply(Apply(values, a), b)
  {
    if b == [] {
      assert a + b == a;
    } else {
      var n := |b| - 1;
      ApplyConcat(values, a, b[..n]);
      assert (a + b)[..|a| + n] == a + b[..n];
    }
  }

  /** What every merge leaves: no pending edits, and the merge's stamp if it was accepted. */
  lemma {:induction false} MergeShape<K, V>(dest: Container<K, V>, prior: Container<K, V>, incoming: Container<K, V>,
                                            s: SequenceNumber, inherit: bool)
    ensures var merged := Merge(dest, prior, incoming, s, inherit);
            && merged.current == [] && !merged.initialize && merged.pendingDelta == dest.pendingDelta
            && merged.lastFullMarshal == dest.lastFullMarshal && merged.defaultValue == dest.defaultValue
            && (merged.newNetworkData <==> Accepts(prior, incoming) || (inherit && prior.newNetworkData))
            && merged.lastModified == (if Accepts(prior, incoming) then s else s.Min(prior.lastModified))
            && merged.lastProcessed == (if Accepts(prior, incoming) && (incoming.initialize || !incoming.pendingDelta)
                                        then incoming.lastProcessed else prior.lastProcessed)
  {
    var accepted := dest.(current := [], initialize := false, lastModified := s, newNetworkData := true,
    values := prior.values, lastProcessed := prior.lastProcessed, journal := prior.journal);
    NewerSetsKeepFlags(accepted, accepted.End(), incoming.journal);
  }

  lemma {:induction false} MergedIsClean<K, V>(h: History<K, V>)
    requires !h.Start?
    ensures h.State().current == [] && !h.State().initialize && !h.State().pendingDelta
    ensures h.State().lastFullMarshal == Invalid
  {
    MergeShape(Fresh(), h.before.State(), if h.Merged? then h.incoming else h.other.State(), h.stamp, false);
  }

  // ----- the journal invariant -----

  ghost predicate Rising<K, V>(journal: seq<ChangeSet<K, V>>) {
    forall i, j :: 0 <= i < j < |journal| ==> journal[i].stamp.Lt(journal[j].stamp)
  }

  /** Change sets with rising stamps up to `last`, none of whose changes carries the repeat marker. */
  ghost predicate Ledger<K, V>(sets: seq<ChangeSet<K, V>>, last: SequenceNumber) {
    && Rising(sets)
    && forall i :: 0 <= i < |sets| ==> sets[i].stamp.Le(last) && NoRepeatMarker(sets[i].changes)
  }

  lemma {:induction false} RunKeepsLedger<K, V>(h: History<K, V>)
    requires ValidRun(h)
    ensures Ledger(h.Accepted(), h.LastStamp())
    ensures |h.Trail()| == |h.Accepted()| + 1 && h.Trail()[|h.Accepted()|] == h.State().values
  {
    match h
    case Start(_) =>
    case Merged(before, _, _) =>
      RunKeepsLedger(before);
      MergeStep(h);
    case TakenOver(before, other, _) =>
      RunKeepsLedger(before);
      RunKeepsLedger(other);
      TakeoverStep(h);
  }

  /** `journal` holds the latest of `sets`, as many as fit. */
  ghost predicate LatestOf<K, V>(journal: seq<ChangeSet<K, V>>, sets: seq<ChangeSet<K, V>>) {
    && |journal| == (if |sets| < 10 then |sets| else 10)
    && journal == sets[|sets| - |journal|..]
  }

  lemma {:induction false} LatestOfPush<K, V>(journal: seq<ChangeSet<K, V>>, sets: seq<ChangeSet<K, V>>,
                                              entry: ChangeSet<K, V>)
    requires LatestOf(journal, sets)
    ensures LatestOf(PushJournal(journal, entry), sets + [entry])
  {
  }

  lemma {:induction false} JournalIsLatest<K, V>(h: History<K, V>)
    requires ValidRun(h)
    ensures LatestOf(h.State().journal, h.Accepted())
  {
    match h
    case Start(_) =>
    case Merged(before, incoming, stamp) =>
      JournalIsLatest(before);
      MergeStep(h);
      if h.Accepting() && !incoming.initialize {
        LatestOfPush(before.State().journal, before.Accepted(), ChangeSet(stamp, incoming.current));
      }
    case TakenOver(before, other, _) =>
      JournalIsLatest(before);
      JournalIsLatest(other);
      TakeoverStep(h);
  }

  /**
   The journal after any run of merges at rising sequences: at most ten entries, with
   strictly rising sequences, and exactly the latest accepted change sets since the last
   initialise, none missing in between; a takeover continues the other container's run.
   */
  lemma {:induction false} JournalInvariant<K, V>(h: History<K, V>)
    requires ValidRun(h)
    ensures LatestOf(h.State().journal, h.Accepted())
    ensures Rising(h.State().journal) && |h.State().journal| <= 10
  {
    RunKeepsLedger(h);
    JournalIsLatest(h);
    LatestRising(h.State().journal, h.Accepted());
  }

  lemma {:induction false} LatestRising<K, V>(journal: seq<ChangeSet<K, V>>, sets: seq<ChangeSet<K, V>>)
    requires LatestOf(journal, sets) && Rising(sets)
    ensures Rising(journal) && |journal| <= 10
  {
  }

  // ----- when the change sets explain the run -----

  /** Every set explains the step from the values before it to the values after it. */
  ghost predicate Chain<K(!new), V>(sets: seq<ChangeSet<K, V>>, trail: seq<map<K, V>>) {
    |trail| == |sets| + 1 && forall i :: 0 <= i < |sets| ==> Explains(trail[i], sets[i].changes, trail[i + 1])
  }

  lemma {:induction false} ChainAppend<K(!new), V>(sets: seq<ChangeSet<K, V>>, trail: seq<map<K, V>>,
                                                   entry: ChangeSet<K, V>, values: map<K, V>)
    requires |trail| == |sets| + 1
    ensures Chain(sets + [entry], trail + [values])
       <==> Chain(sets, trail) && Explains(trail[|sets|], entry.changes, values)
  {
    var sets', trail' := sets + [entry], trail + [values];
    if Chain(sets', trail') {
      forall i | 0 <= i < |sets|
        ensures Explains(trail[i], sets[i].changes, trail[i + 1])
      {
        assert Explains(trail'[i], sets'[i].changes, trail'[i + 1]);
      }
      assert Explains(trail'[|sets|], sets'[|sets|].changes, trail'[|sets| + 1]);
    }
  }

  /**
   Since the last initialise or takeover, every working copy that was merged had been
   edited on top of the values it was merged onto, as far as its edits do not name.
   */
  ghost predicate Unbroken<K(!new), V>(h: History<K, V>) {
    match h
    case Start(_) => true
    case Merged(before, incoming, _) =>
      if !h.Accepting() then Unbroken(before)
      else incoming.initialize ||
           (Unbroken(before) && (incoming.pendingDelta
                                 || Explains(before.State().values, incoming.current, incoming.values)))
    case TakenOver(before, other, _) => if h.Accepting() then Unbroken(other) else Unbroken(before)
  }

  lemma {:induction false} DeltaStepExplained<K(!new), V>(h: History<K, V>)
    requires h.Merged? && ValidRun(h) && h.Accepting() && !h.incoming.initialize && h.incoming.pendingDelta
    ensures Explains(h.before.State().values, h.incoming.current, h.State().values)
  {
    assert ApplyNewerSets(h.before.State(), h.before.State().End(), []) == h.before.State();
    ApplyExplained(h.before.State().values, h.incoming.current);
  }

  /** The accepted change sets explain the whole run exactly when it is unbroken. */
  lemma {:induction false} ChainIffUnbroken<K(!new), V>(h: History<K, V>)
    requires ValidRun(h)
    ensures Chain(h.Accepted(), h.Trail()) <==> Unbroken(h)
  {
    match h
    case Start(_) =>
    case Merged(before, incoming, stamp) =>
      ChainIffUnbroken(before);
      RunKeepsLedger(before);
      MergeStep(h);
      if h.Accepting() && !incoming.initialize {
        ChainAppend(before.Accepted(), before.Trail(), ChangeSet(stamp, incoming.current), h.State().values);
        if incoming.pendingDelta {
          DeltaStepExplained(h);
        }
      }
    case TakenOver(before, other, _) =>
      ChainIffUnbroken(before);
      ChainIffUnbroken(other);
  }

  /**
   A working copy tracked from the values `a` and merged onto others keeps the chain
   exactly when those agree with `a` on every key the copy's edits do not name.
   */
  lemma {:induction false} WorkingCopyStep<K(!new), V>(a: map<K, V>, c: map<K, V>, copy: Container<K, V>)
    requires EditsTracked(a, copy) && !copy.initialize
    ensures Explains(c, copy.current, copy.values) <==> AgreeElsewhere(c, copy.current, a)
  {
    forall k
      ensures Accounts(LastMention(copy.current, k), c, copy.values, k)
         <==> (LastMention(copy.current, k).None? ==> Get(c, k) == Get(a, k))
    {
      assert Accounts(LastMention(copy.current, k), a, copy.values, k);
    }
  }

  /**
   The guard a caller can check: a copy taken from the container it is merged onto, with
   nothing merged in between.
   */
  lemma {:induction false} FreshCopyKeepsChain<K(!new), V>(h: History<K, V>)
    requires h.Merged? && Unbroken(h.before) && EditsTracked(h.before.State().values, h.incoming)
    ensures Unbroken(h)
  {
  }

  // ----- the journal from a baseline -----

  /** The changes of the accepted sets from index `i` on. */
  function Tail<K, V>(sets: seq<ChangeSet<K, V>>, i: nat): seq<Change<K, V>>
    requires i <= |sets|
    decreases |sets|
  {
    if i == |sets| then [] else Tail(sets[..|sets| - 1], i) + sets[|sets| - 1].changes
  }

  lemma {:induction false} TailExplains<K(!new), V>(sets: seq<ChangeSet<K, V>>, trail: seq<map<K, V>>, i: nat)
    requires Chain(sets, trail) && i <= |sets|
    ensures Explains(trail[i], Tail(sets, i), trail[|sets|])
  {
    var n := |sets| - 1;
    if i <= n {
      assert Chain(sets[..n], trail[..n + 1]);
      TailExplains(sets[..n], trail[..n + 1], i);
      ExplainsConcat(trail[i], Tail(sets[..n], i), trail[n], sets[n].changes, trail[n + 1]);
    }
  }

  /** Reading a rising journal from a baseline yields the changes of every later set. */
  lemma {:induction false} JournalSinceIsTail<K, V>(journal: seq<ChangeSet<K, V>>, i: nat, baseline: SequenceNumber)
    requires Slot(journal, baseline, i)
    ensures JournalSince(journal, baseline) == Tail(journal, i)
  {
    if journal != [] {
      var n := |journal| - 1;
      JournalSinceIsTail(journal[..n], if i == |journal| then n else i, baseline);
    }
  }

  lemma {:induction false} TailOfSuffix<K, V>(sets: seq<ChangeSet<K, V>>, d: nat, i: nat)
    requires d <= |sets| && i <= |sets| - d
    ensures Tail(sets[d..], i) == Tail(sets, d + i)
  {
    if i < |sets| - d {
      var n := |sets| - 1;
      assert sets[d..][..n - d] == sets[..n][d..];
      TailOfSuffix(sets[..n], d, i);
    }
  }

  lemma {:induction false} TailMarkers<K, V>(sets: seq<ChangeSet<K, V>>, i: nat)
    requires i <= |sets| && forall j :: 0 <= j < |sets| ==> NoRepeatMarker(sets[j].changes)
    ensures NoRepeatMarker(Tail(sets, i))
  {
    if i < |sets| {
      TailMarkers(sets[..|sets| - 1], i);
    }
  }

  /** The sets before `i` are at or before the baseline, and those from `i` on after it. */
  ghost predicate Slot<K, V>(sets: seq<ChangeSet<K, V>>, baseline: SequenceNumber, i: nat) {
    && i <= |sets|
    && (forall j :: 0 <= j < i ==> sets[j].stamp.Le(baseline))
    && (forall j :: i <= j < |sets| ==> baseline.Lt(sets[j].stamp))
  }

  lemma {:induction false} FindSlot<K, V>(sets: seq<ChangeSet<K, V>>, baseline: SequenceNumber) returns (i: nat)
    requires Rising(sets)
    ensures Slot(sets, baseline, i)
  {
    i := 0;
    while i < |sets| && sets[i].stamp.Le(baseline)
      invariant i <= |sets| && forall j :: 0 <= j < i ==> sets[j].stamp.Le(baseline)
    {
      i := i + 1;
    }
  }

  /** The latest sets of a chain, read from a baseline, explain the way to the end from where they start. */
  lemma {:induction false} SuffixExplains<K(!new), V>(sets: seq<ChangeSet<K, V>>, trail: seq<map<K, V>>,
                                                      last: SequenceNumber, d: nat, i: nat,
                                                      baseline: SequenceNumber)
    requires Ledger(sets, last) && Chain(sets, trail) && d <= |sets| && Slot(sets, baseline, i)
    ensures Explains(trail[if i < d then d else i], JournalSince(sets[d..], baseline), trail[|sets|])
    ensures NoRepeatMarker(JournalSince(sets[d..], baseline))
  {
    var j := if i < d then d else i;
    assert Slot(sets[d..], baseline, j - d);
    JournalSinceIsTail(sets[d..], j - d, baseline);
    TailOfSuffix(sets, d, j - d);
    TailExplains(sets, trail, j);
    TailMarkers(sets, j);
  }

  // ----- the values at a baseline -----

  /** The other run is this one followed by merges newer than the baseline. */
  ghost predicate ExtendsSince<K, V>(other: History<K, V>, h: History<K, V>, baseline: SequenceNumber) {
    other == h || (!other.Start? && baseline.Lt(other.stamp) && ExtendsSince(other.before, h, baseline))
  }

  /** Every takeover newer than the baseline came from a container with the same history up to the baseline. */
  ghost predicate Steady<K, V>(h: History<K, V>, baseline: SequenceNumber) {
    match h
    case Start(_) => true
    case Merged(before, _, stamp) => stamp.Le(baseline) || Steady(before, baseline)
    case TakenOver(before, other, stamp) =>
      || stamp.Le(baseline)
      || if h.Accepting() then ExtendsSince(other, before, baseline)
                               && Steady(other, baseline) else Steady(before, baseline)
  }

  lemma {:induction false} ExtensionKeepsValues<K, V>(other: History<K, V>, h: History<K, V>, baseline: SequenceNumber)
    requires ExtendsSince(other, h, baseline)
    ensures other.ValuesAsOf(baseline) == h.ValuesAsOf(baseline)
  {
    if other != h {
      ExtensionKeepsValues(other.before, h, baseline);
    }
  }

  /** The baseline is a sequence at which this container itself was merged. */
  ghost predicate Reached<K, V>(h: History<K, V>, baseline: SequenceNumber) {
    !h.Start? && (h.stamp.Same(baseline) || Reached(h.before, baseline))
  }

  /** Every container taken over had run the same merges as the one it replaced, and then more. */
  ghost predicate TakesOverSuccessors<K, V>(h: History<K, V>) {
    match h
    case Start(_) => true
    case Merged(before, _, _) => TakesOverSuccessors(before)
    case TakenOver(before, other, _) =>
      && TakesOverSuccessors(before) && TakesOverSuccessors(other)
      && (h.Accepting() ==> ExtendsSince(other, before, before.LastStamp()))
  }

  lemma {:induction false} ReachedIsBounded<K, V>(h: History<K, V>, baseline: SequenceNumber)
    requires ValidRun(h) && Reached(h, baseline)
    ensures baseline.Le(h.LastStamp())
  {
    if !h.stamp.Same(baseline) {
      ReachedIsBounded(h.before, baseline);
    }
  }

  lemma {:induction false} ExtensionReaches<K, V>(other: History<K, V>, h: History<K, V>, last: SequenceNumber,
                                                  baseline: SequenceNumber)
    requires ExtendsSince(other, h, last) && baseline.Le(last) && Reached(h, baseline)
    ensures ExtendsSince(other, h, baseline) && Reached(other, baseline)
  {
    if other != h {
      ExtensionReaches(other.before, h, last, baseline);
    }
  }

  /** A baseline the sender itself has been at is steady when only successors are taken over. */
  lemma {:induction false} OwnBaselinesAreSteady<K, V>(h: History<K, V>, baseline: SequenceNumber)
    requires ValidRun(h) && TakesOverSuccessors(h) && Reached(h, baseline)
    ensures Steady(h, baseline)
  {
    if !h.stamp.Le(baseline) {
      OwnBaselinesAreSteady(h.before, baseline);
      if h.TakenOver? && h.Accepting() {
        ReachedIsBounded(h.before, baseline);
        ExtensionReaches(h.other, h.before, h.before.LastStamp(), baseline);
        OwnBaselinesAreSteady(h.other, baseline);
      }
    }
  }

  /** The first accepted set is not an initialise. */
  predicate FromTheStart<K, V>(sets: seq<ChangeSet<K, V>>) { sets == [] || sets[0].changes != [] }

  /**
   The values of the run at a baseline are those on the trail at the baseline's slot, unless
   an initialise hides them.
   */
  lemma {:induction false} ValuesAtSlot<K, V>(h: History<K, V>, baseline: SequenceNumber, i: nat)
    requires ValidRun(h) && Steady(h, baseline) && Slot(h.Accepted(), baseline, i)
    requires i > 0 || FromTheStart(h.Accepted())
    ensures |h.Trail()| == |h.Accepted()| + 1 && h.ValuesAsOf(baseline) == h.Trail()[i]
  {
    RunKeepsLedger(h);
    if h.Start? {
    } else if h.stamp.Le(baseline) {
      AllBefore(h.Accepted(), h.stamp, baseline, i);
    } else if h.Merged? {
      NewerMergeKeepsSlot(h, baseline, i);
      ValuesAtSlot(h.before, baseline, i);
    } else if h.Accepting() {
      ValuesAtSlot(h.other, baseline, i);
      ExtensionKeepsValues(h.other, h.before, baseline);
    } else {
      ValuesAtSlot(h.before, baseline, i);
    }
  }

  lemma {:induction false} AllBefore<K, V>(sets: seq<ChangeSet<K, V>>, last: SequenceNumber, baseline: SequenceNumber,
                                           i: nat)
    requires Ledger(sets, last) && last.Le(baseline) && Slot(sets, baseline, i)
    ensures i == |sets|
  {
    assert i < |sets| ==> baseline.Lt(sets[i].stamp);
  }

  /** A set newer than the baseline does not move the baseline's slot. */
  lemma {:induction false} SlotBeforeNewer<K, V>(sets: seq<ChangeSet<K, V>>, entry: ChangeSet<K, V>,
                                                 baseline: SequenceNumber, i: nat)
    requires Slot(sets + [entry], baseline, i) && baseline.Lt(entry.stamp)
    ensures Slot(sets, baseline, i) && (FromTheStart(sets + [entry]) ==> FromTheStart(sets))
  {
    var longer := sets + [entry];
    assert longer[|sets|] == entry;
    assert forall j :: 0 <= j < |sets| ==> longer[j] == sets[j];
  }

  lemma {:induction false} InitialiseHides<K, V>(entry: ChangeSet<K, V>, baseline: SequenceNumber, i: nat)
    requires Slot([entry], baseline, i) && baseline.Lt(entry.stamp) && entry.changes == []
    ensures i == 0 && !FromTheStart([entry])
  {
    assert [entry][0] == entry;
  }

  /**
   A merge newer than the baseline, other than a takeover, leaves the baseline's slot and the
   trail up to it alone.
   */
  lemma {:induction false} NewerMergeKeepsSlot<K, V>(h: History<K, V>, baseline: SequenceNumber, i: nat)
    requires h.Merged? && ValidRun(h) && !h.stamp.Le(baseline) && Slot(h.Accepted(), baseline, i)
    requires i > 0 || FromTheStart(h.Accepted())
    ensures Slot(h.before.Accepted(), baseline, i) && (i > 0 || FromTheStart(h.before.Accepted()))
    ensures i < |h.before.Trail()| && i < |h.Trail()| && h.Trail()[i] == h.before.Trail()[i]
  {
    MergeStep(h);
    RunKeepsLedger(h.before);
    if h.Accepting() && !h.incoming.initialize {
      SlotBeforeNewer(h.before.Accepted(), ChangeSet(h.stamp, h.incoming.current), baseline, i);
    } else if h.Accepting() {
      InitialiseHides(ChangeSet(h.stamp, h.incoming.current), baseline, i);
      assert false;
    }
  }

  /**
   What a sender can check before it sends a delta: its journal starts at or before the
   baseline, or has dropped nothing and does not start with an initialise.
   */
  predicate Covers<K, V>(journal: seq<ChangeSet<K, V>>, baseline: SequenceNumber) {
    journal == [] || journal[0].stamp.Le(baseline) || (|journal| < JOURNAL_SIZE && journal[0].changes != [])
  }

  /** A container that a receiver can be brought up from: merged by an unbroken run, and possibly edited since. */
  ghost predicate Sender<K(!new), V>(h: History<K, V>, c: Container<K, V>) {
    && ValidRun(h) && Unbroken(h)
    && c.journal == h.State().journal
    && EditsTracked(h.State().values, c)
  }

  /** Where a covered baseline falls among the accepted sets: not before those the journal still has. */
  lemma {:induction false} CoveredSlot<K, V>(journal: seq<ChangeSet<K, V>>, sets: seq<ChangeSet<K, V>>,
                                             baseline: SequenceNumber, i: nat)
    requires LatestOf(journal, sets) && Slot(sets, baseline, i) && Covers(journal, baseline)
    ensures |sets| - |journal| <= i && (i > 0 || FromTheStart(sets))
  {
  }

  lemma {:induction false} CoveredExplain<K(!new), V>(journal: seq<ChangeSet<K, V>>, sets: seq<ChangeSet<K, V>>,
                                                      trail: seq<map<K, V>>, last: SequenceNumber,
                                                      baseline: SequenceNumber)
    returns (i: nat)
    requires LatestOf(journal, sets) && Ledger(sets, last) && Chain(sets, trail) && Covers(journal, baseline)
    ensures Slot(sets, baseline, i) && i < |trail| && (i > 0 || FromTheStart(sets))
    ensures Explains(trail[i], JournalSince(journal, baseline), trail[|sets|])
    ensures NoRepeatMarker(JournalSince(journal, baseline))
  {
    i := FindSlot(sets, baseline);
    CoveredSlot(journal, sets, baseline, i);
    SuffixExplains(sets, trail, last, |sets| - |journal|, i, baseline);
  }

  lemma {:induction false} JournalExplains<K(!new), V>(h: History<K, V>, baseline: SequenceNumber)
    requires ValidRun(h) && Unbroken(h) && Steady(h, baseline) && Covers(h.State().journal, baseline)
    ensures Explains(h.ValuesAsOf(baseline), JournalSince(h.State().journal, baseline), h.State().values)
    ensures NoRepeatMarker(JournalSince(h.State().journal, baseline))
  {
    RunKeepsLedger(h);
    JournalIsLatest(h);
    ChainIffUnbroken(h);
    var i := CoveredExplain(h.State().journal, h.Accepted(), h.Trail(), h.LastStamp(), baseline);
    ValuesAtSlot(h, baseline, i);
  }

  /**
   The journal covers every baseline it passes `Covers` for: the changes since such a
   baseline explain how the values of that time became the values of now.
   */
  lemma {:induction false} JournalCovers<K(!new), V>(h: History<K, V>, c: Container<K, V>, baseline: SequenceNumber)
    requires Sender(h, c) && !c.initialize && Steady(h, baseline) && Covers(c.journal, baseline)
    ensures Explains(h.ValuesAsOf(baseline), ChangesSince(c, baseline), c.values)
    ensures NoRepeatMarker(ChangesSince(c, baseline))
  {
    JournalExplains(h, baseline);
    ExplainsConcat(h.ValuesAsOf(baseline), JournalSince(c.journal, baseline), h.State().values, c.current, c.values);
  }

  lemma {:induction false} LatestExplain<K(!new), V>(journal: seq<ChangeSet<K, V>>, sets: seq<ChangeSet<K, V>>,
                                                     trail: seq<map<K, V>>,
                                                     last: SequenceNumber, baseline: SequenceNumber)
    returns (a: map<K, V>)
    requires LatestOf(journal, sets) && Ledger(sets, last) && Chain(sets, trail)
    ensures Explains(a, JournalSince(journal, baseline), trail[|sets|])
    ensures NoRepeatMarker(JournalSince(journal, baseline))
  {
    var d := |sets| - |journal|;
    var i := FindSlot(sets, baseline);
    SuffixExplains(sets, trail, last, d, i, baseline);
    a := trail[if i < d then d else i];
  }

  lemma {:induction false} JournalExplainsFrom<K(!new), V>(h: History<K, V>,
                                                           baseline: SequenceNumber) returns (a: map<K, V>)
    requires ValidRun(h) && Unbroken(h)
    ensures Explains(a, JournalSince(h.State().journal, baseline), h.State().values)
    ensures NoRepeatMarker(JournalSince(h.State().journal, baseline))
  {
    RunKeepsLedger(h);
    JournalIsLatest(h);
    ChainIffUnbroken(h);
    a := LatestExplain(h.State().journal, h.Accepted(), h.Trail(), h.LastStamp(), baseline);
  }

  /** Whatever the baseline, the changes sent since it explain the sender's values from some earlier ones. */
  lemma {:induction false} AnyBaselineExplains<K(!new), V>(h: History<K, V>, c: Container<K, V>,
                                                           baseline: SequenceNumber) returns (a: map<K, V>)
    requires Sender(h, c) && !c.initialize
    ensures Explains(a, ChangesSince(c, baseline), c.values)
    ensures NoRepeatMarker(ChangesSince(c, baseline))
  {
    a := JournalExplainsFrom(h, baseline);
    ExplainsConcat(a, JournalSince(c.journal, baseline), h.State().values, c.current, c.values);
  }

  /**
   Since before every accepted set, the journal has the changes of the latest ten sets and
   nothing of those before.
   */
  lemma {:induction false} SinceBeforeAll<K, V>(journal: seq<ChangeSet<K, V>>, sets: seq<ChangeSet<K, V>>,
                                                baseline: SequenceNumber)
    requires LatestOf(journal, sets) && forall i :: 0 <= i < |sets| ==> baseline.Lt(sets[i].stamp)
    ensures JournalSince(journal, baseline) == Tail(sets, |sets| - |journal|)
  {
    assert Slot(journal, baseline, 0);
    JournalSinceIsTail(journal, 0, baseline);
    TailOfSuffix(sets, |sets| - |journal|, 0);
  }

  // ----- the dirty gate -----

  /** A container is asked for its changes only when it was modified after the baseline. */
  predicate IsDirty<K, V>(c: Container<K, V>, baseline: SequenceNumber) { baseline.Lt(c.lastModified) }

  /** An accepted merge stamps the container; a refused one changes no value and stamps at most what was there. */
  lemma {:induction false} MergeStamps<K, V>(h: History<K, V>)
    requires !h.Start?
    ensures h.Accepting() ==> h.State().lastModified == h.stamp
    ensures !h.Accepting() ==>
              && h.State().values == h.before.State().values
              && h.State().lastModified == h.stamp.Min(h.before.State().lastModified)
  {
    MergeShape(Fresh(), h.before.State(), if h.Merged? then h.incoming else h.other.State(), h.stamp, false);
  }

  /** Over every run, a container not dirty since a baseline has the values it had then. */
  lemma {:induction false} CleanMeansUnchanged<K, V>(h: History<K, V>, baseline: SequenceNumber)
    requires ValidRun(h) && !IsDirty(h.State(), baseline)
    ensures h.ValuesAsOf(baseline) == h.State().values
  {
    if !h.Start? && !h.stamp.Le(baseline) {
      MergeStamps(h);
      CleanMeansUnchanged(h.before, baseline);
    }
  }

  /** Edits not merged yet are dirty for a receiver without a baseline only, so no receiver with one is sent them. */
  lemma {:induction false} PendingEditsAreDirtyOnlyAtFirst<K, V>(c: Container<K, V>, edits: seq<Edit<K, V>>,
                                                                 baseline: SequenceNumber)
    requires edits != []
    ensures IsDirty(PushAll(c, edits), baseline) <==> !baseline.IsValid()
  {
  }
}
