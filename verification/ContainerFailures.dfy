/**
 Reachable runs in which a delta gives a receiver wrong values or a merge lowers a mark.
 Each lies outside one condition of the convergence results: the journal covers the
 baseline, the run is unbroken, takeovers share the baseline.
 */
module ContainerFailures {
  import opened Wire
  import opened SequenceNumbers
  import opened ContainerModel
  import opened ContainerReplay
  import opened ContainerHistory
  import opened ContainerWire
  import opened ContainerConvergence

  /**
   A delta is sent since the baseline, and a receiver that held the values of the baseline
   does not get the sender's.
   */
  ghost predicate DeltaGoesWrong<K, V>(h: History<K, V>, baseline: SequenceNumber) {
    && ValidRun(h) && DeltaSent(h.State(), baseline, false) != []
    && Apply(h.ValuesAsOf(baseline), PopulateAll(h.State().values, DeltaSent(h.State(), baseline, false)))
       != h.State().values
  }

  /** A merged container's delta goes wrong when it leaves out a key on which the values have changed. */
  lemma {:induction false} WrongWhenUnmentioned<K(!new), V>(h: History<K, V>, baseline: SequenceNumber, k: K)
    requires ValidRun(h) && Unbroken(h) && !h.Start? && DeltaSent(h.State(), baseline, false) != []
    requires LastMention(DeltaSent(h.State(), baseline, false), k).None?
    requires Get(h.ValuesAsOf(baseline), k) != Get(h.State().values, k)
    ensures DeltaGoesWrong(h, baseline)
  {
    MergedIsClean(h);
    MergedRunSends(h);
    var c, sent := h.State(), DeltaSent(h.State(), baseline, false);
    var a := AnyBaselineExplains(h, c, baseline);
    ReplayExactly(a, h.ValuesAsOf(baseline), sent, c.values, PopulateAll(c.values, sent));
  }

  // ----- a family of runs: one delta a sequence, each setting a new key -----

  /** As far as sequence numbers go. */
  const LONGEST: nat := 0xFFFF_FFFF_FFFF_FF00

  function CountChange(n: nat): Change<int, int>
    requires n < LONGEST
  {
    Update(n, Some(n), Seq(n + 1))
  }

  function Counting(n: nat): History<int, int>
    requires n < LONGEST
  {
    if n == 0 then Start(Fresh()) else Merged(Counting(n - 1), DeltaOf([CountChange(n)]), Seq(n + 1))
  }

  function CountMap(n: nat): map<int, int> { if n == 0 then map[] else CountMap(n - 1)[n := n] }

  lemma {:induction false} CountMapHolds(n: nat, k: int)
    ensures Get(CountMap(n), k) == if 1 <= k <= n then Some(k) else None
  {
    if n > 0 {
      CountMapHolds(n - 1, k);
    }
  }

  function CountSets(n: nat): (r: seq<ChangeSet<int, int>>)
    requires n < LONGEST
    ensures |r| == n && forall i :: 0 <= i < n ==> r[i] == ChangeSet(Seq(i + 2), [CountChange(i + 1)])
  {
    seq(n, i requires 0 <= i < n => ChangeSet(Seq(i + 2), [CountChange(i + 1)]))
  }

  /** The run is unbroken, never marked, and has accepted exactly the counting sets. */
  ghost predicate Counts(h: History<int, int>, n: nat)
    requires n < LONGEST
  {
    && ValidRun(h) && Unbroken(h) && !h.State().lastProcessed.IsValid() && (n > 0 ==> h.State().lastModified.IsValid())
    && h.State().values == CountMap(n) && h.Accepted() == CountSets(n)
    && h.LastStamp() == (if n == 0 then Invalid else Seq(n + 1))
  }

  /** One more delta of one change, on a container without a mark. */
  lemma {:induction false} OneMoreDelta<K(!new), V>(h: History<K, V>, change: Change<K, V>)
    requires h.Merged? && h.incoming == DeltaOf([change]) && ValidRun(h.before)
             && !h.before.State().lastProcessed.IsValid()
    requires change.IsEffective() && !change.Sequence().Same(ValidNonSequence)
    requires h.stamp.IsValid() && h.before.LastStamp().Lt(h.stamp)
    ensures ValidRun(h) && (Unbroken(h.before) ==> Unbroken(h)) && h.State().lastModified == h.stamp
    ensures h.State().values == ApplyChange(h.before.State().values, change)
    ensures h.State().lastProcessed == h.before.State().lastProcessed
    ensures h.Accepted() == h.before.Accepted() + [ChangeSet(h.stamp, [change])]
  {
    DeltaAccepted(h.before.State(), [change]);
    DeltaMerge(h.before.State(), [change], h.stamp, false);
    SingleChange(h.before.State().values, change);
    MergeStamps(h);
  }

  lemma {:induction false} CountStep(h: History<int, int>, n: nat)
    requires 0 < n < LONGEST && h.Merged? && Counts(h.before, n - 1)
    requires h.incoming == DeltaOf([CountChange(n)]) && h.stamp == Seq(n + 1)
    ensures Counts(h, n)
  {
    NextSequence(h.before.LastStamp(), n);
    OneMoreDelta(h, CountChange(n));
    CountSetsStep(n);
  }

  lemma {:induction false} NextSequence(last: SequenceNumber, n: nat)
    requires 0 < n < LONGEST && last == if n == 1 then Invalid else Seq(n)
    ensures Seq(n + 1).IsValid() && last.Lt(Seq(n + 1))
    ensures !CountChange(n).Sequence().Same(ValidNonSequence) && CountChange(n).IsEffective()
  {
  }

  lemma {:induction false} CountSetsStep(n: nat)
    requires 0 < n < LONGEST
    ensures CountSets(n) == CountSets(n - 1) + [ChangeSet(Seq(n + 1), [CountChange(n)])]
  {
  }

  lemma {:induction false} CountingCounts(n: nat)
    requires n < LONGEST
    ensures Counts(Counting(n), n) && (n > 0 ==> !Counting(n).Start?)
  {
    if n > 0 {
      CountingCounts(n - 1);
      CountStep(Counting(n), n);
    } else {
      assert CountSets(0) == [];
    }
  }

  lemma {:induction false} CountingAsOf(n: nat, m: nat)
    requires m <= n < LONGEST
    ensures Counting(n).ValuesAsOf(Seq(m + 1)) == CountMap(m)
  {
    if n > m {
      CountingAsOf(n - 1, m);
    } else {
      CountingCounts(n);
      ValuesAtLast(Counting(n), Seq(m + 1));
    }
  }

  lemma {:induction false} SingleChange<K, V>(a: map<K, V>, c: Change<K, V>)
    ensures Apply(a, [c]) == ApplyChange(a, c)
  {
    assert [c][..0] == [];
  }

  /** What a delta mentions comes from a journal entry newer than the baseline. */
  lemma {:induction false} SinceComesFrom<K, V>(journal: seq<ChangeSet<K, V>>, baseline: SequenceNumber,
                                                x: Change<K, V>) returns (i: nat)
    requires x in JournalSince(journal, baseline)
    ensures i < |journal| && baseline.Lt(journal[i].stamp) && x in journal[i].changes
  {
    var n := |journal| - 1;
    if x in JournalSince(journal[..n], baseline) {
      i := SinceComesFrom(journal[..n], baseline, x);
    } else {
      i := n;
    }
  }

  lemma {:induction false} SinceLength<K, V>(journal: seq<ChangeSet<K, V>>, baseline: SequenceNumber)
    requires forall i :: 0 <= i < |journal| ==> |journal[i].changes| <= 1
    ensures |JournalSince(journal, baseline)| <= |journal|
  {
    if journal != [] {
      SinceLength(journal[..|journal| - 1], baseline);
    }
  }

  /** A journal of the counting sets after the first `d`. */
  ghost predicate CountJournal(journal: seq<ChangeSet<int, int>>, d: nat) {
    d + |journal| < LONGEST &&
    forall i :: 0 <= i < |journal| ==> journal[i] == ChangeSet(Seq(d + i + 2), [CountChange(d + i + 1)])
  }

  /**
   Its changes since a baseline name none of the first `d` keys, none beyond the last, and
   none at or before the baseline.
   */
  lemma {:induction false} CountingMentions(journal: seq<ChangeSet<int, int>>, d: nat, baseline: SequenceNumber, k: nat)
    requires CountJournal(journal, d) && k < LONGEST
    requires k <= d || d + |journal| < k || Seq(k + 1).Le(baseline)
    ensures LastMention(JournalSince(journal, baseline), k).None?
  {
    var last := LastMention(JournalSince(journal, baseline), k);
    if last.Some? {
      var i := SinceComesFrom(journal, baseline, last.value);
      assert false;
    }
  }

  /** A merged container sends these changes as a delta when the last of them is newer than the baseline. */
  lemma {:induction false} CountingDelta(c: Container<int, int>, d: nat, baseline: SequenceNumber)
    requires CountJournal(c.journal, d) && 0 < |c.journal| <= JOURNAL_SIZE && c.current == [] && !c.initialize
    requires baseline.IsValid() && baseline.Lt(c.End())
    ensures DeltaSent(c, baseline, false) == JournalSince(c.journal, baseline) != []
  {
    var n := |c.journal| - 1;
    SinceLength(c.journal, baseline);
    assert ChangesSince(c, baseline) == JournalSince(c.journal, baseline);
    assert c.journal == c.journal[..n] + [c.journal[n]];
    SinceAppend(c.journal[..n], c.journal[n], baseline);
  }

  /** A merged container with such a journal goes wrong on a key it does not name. */
  lemma {:induction false} CountJournalWrong(h: History<int, int>, d: nat, baseline: SequenceNumber, k: nat)
    requires ValidRun(h) && Unbroken(h) && !h.Start?
    requires CountJournal(h.State().journal, d) && 0 < |h.State().journal| <= JOURNAL_SIZE
    requires baseline.IsValid() && baseline.Lt(h.State().End())
    requires k < LONGEST && (k <= d || d + |h.State().journal| < k || Seq(k + 1).Le(baseline))
    requires Get(h.ValuesAsOf(baseline), k) != Get(h.State().values, k)
    ensures DeltaGoesWrong(h, baseline)
  {
    MergedIsClean(h);
    CountingDelta(h.State(), d, baseline);
    CountingMentions(h.State().journal, d, baseline, k);
    WrongWhenUnmentioned(h, baseline, k);
  }

  lemma {:induction false} CountingSteady(n: nat, baseline: SequenceNumber)
    requires n < LONGEST
    ensures Steady(Counting(n), baseline) && TakesOverSuccessors(Counting(n))
  {
    if n > 0 {
      CountingSteady(n - 1, baseline);
    }
  }

  lemma {:induction false} SuffixAt<X>(a: seq<X>, b: seq<X>, d: nat, i: nat)
    requires d <= |b| && a == b[d..] && i < |a|
    ensures a[i] == b[d + i]
  {
  }

  lemma {:induction false} CountSuffix(journal: seq<ChangeSet<int, int>>, sets: seq<ChangeSet<int, int>>, d: nat)
    requires 0 < |sets| < LONGEST && d < |sets| && journal == sets[d..]
    requires forall i :: 0 <= i < |sets| ==> sets[i] == ChangeSet(Seq(i + 2), [CountChange(i + 1)])
    ensures CountJournal(journal, d) && journal[|journal| - 1].stamp == Seq(|sets| + 1)
  {
    forall i | 0 <= i < |journal|
      ensures journal[i] == ChangeSet(Seq(d + i + 2), [CountChange(d + i + 1)])
    {
      SuffixAt(journal, sets, d, i);
    }
  }

  lemma {:induction false} CountsJournal(h: History<int, int>, n: nat)
    requires 0 < n < LONGEST && Counts(h, n)
    ensures |h.State().journal| == (if n < JOURNAL_SIZE then n else JOURNAL_SIZE)
    ensures CountJournal(h.State().journal, n - |h.State().journal|) && h.State().End() == Seq(n + 1)
  {
    JournalIsLatest(h);
    CountSuffix(h.State().journal, CountSets(n), n - |h.State().journal|);
  }

  /** A counting run goes wrong on a key its journal does not name. */
  lemma {:induction false} CountsWrong(h: History<int, int>, n: nat, baseline: SequenceNumber, k: nat)
    requires 0 < n < LONGEST && Counts(h, n) && !h.Start? && Seq(0).Lt(baseline) && baseline.Lt(Seq(n + 1))
             && k < LONGEST
    requires k <= n - JOURNAL_SIZE || n < k || Seq(k + 1).Le(baseline)
    requires Get(h.ValuesAsOf(baseline), k) != Get(CountMap(n), k)
    ensures DeltaGoesWrong(h, baseline)
  {
    CountsJournal(h, n);
    CountJournalWrong(h, n - |h.State().journal|, baseline, k);
  }

  // ----- the failing runs -----

  /** Eviction: once more than ten sets were accepted, the delta since before them leaves out the first key. */
  lemma {:induction false} EvictionLosesChange(n: nat)
    requires JOURNAL_SIZE < n < LONGEST
    ensures DeltaGoesWrong(Counting(n), Seq(1)) && Unbroken(Counting(n)) && Steady(Counting(n), Seq(1))
    ensures FromTheStart(Counting(n).State().journal) && !Covers(Counting(n).State().journal, Seq(1))
  {
    CountingCounts(n);
    CountingAsOf(n, 0);
    CountingSteady(n, Seq(1));
    CountsJournal(Counting(n), n);
    CountMapHolds(n, 1);
    CountsWrong(Counting(n), n, Seq(1), 1);
  }

  /** A takeover of a counting container is itself one. */
  lemma {:induction false} TakeoverCounts(h: History<int, int>, n: nat)
    requires 0 < n < LONGEST && h.TakenOver? && Counts(h.other, n) && !h.other.Start? && h.stamp == Seq(n + 2)
    requires ValidRun(h.before) && h.before.LastStamp().Lt(h.stamp) && h.before.State().End().Lt(Seq(n + 1))
    ensures ValidRun(h) && Unbroken(h) && h.Accepting()
    ensures h.State().values == CountMap(n) && h.State().journal == h.other.State().journal
  {
    CountsJournal(h.other, n);
    TakeoverStep(h);
  }

  /**
   The run is behind a counting one, and at the baseline does not hold what that one has at a
   key it will not send.
   */
  ghost predicate Behind(h: History<int, int>, n: nat, baseline: SequenceNumber, k: nat)
    requires n < LONGEST
  {
    && ValidRun(h) && h.LastStamp().Lt(Seq(n + 2)) && h.State().End().Lt(Seq(n + 1))
    && Seq(1).Lt(baseline) && baseline.Lt(Seq(n + 1)) && k < LONGEST && (n < k || Seq(k + 1).Le(baseline))
    && Get(h.ValuesAsOf(baseline), k) != Get(CountMap(n), k)
  }

  /** A takeover then loses that key. */
  lemma {:induction false} TakeoverWrong(h: History<int, int>, n: nat, baseline: SequenceNumber, k: nat)
    requires 1 < n <= JOURNAL_SIZE && h.TakenOver? && Counts(h.other, n) && !h.other.Start? && h.stamp == Seq(n + 2)
    requires Behind(h.before, n, baseline, k)
    ensures DeltaGoesWrong(h, baseline) && Unbroken(h) && h.Accepting() && Covers(h.State().journal, baseline)
  {
    TakeoverCounts(h, n);
    CountsJournal(h.other, n);
    CountJournalWrong(h, 0, baseline, k);
  }

  lemma {:induction false} CountingExtends(m: nat, n: nat)
    requires m <= n < LONGEST
    ensures ExtendsSince(Counting(n), Counting(m), if m == 0 then Invalid else Seq(m + 1))
  {
    if m < n {
      CountingExtends(m, n - 1);
    }
  }

  /** A counting run lags behind a longer one, and does not hold the longer one's last key but one. */
  lemma {:induction false} CountsLag(h: History<int, int>, m: nat, n: nat)
    requires 0 < m && m + 1 < n <= JOURNAL_SIZE && Counts(h, m)
    ensures ValidRun(h) && h.LastStamp() == Seq(m + 1) && h.State().End() == Seq(m + 1)
    ensures Get(h.ValuesAsOf(Seq(n)), n - 1) != Get(CountMap(n), n - 1)
  {
    CountsJournal(h, m);
    ValuesAtLast(h, Seq(n));
    CountMapHolds(m, n - 1);
    CountMapHolds(n, n - 1);
  }

  lemma {:induction false} LagIsBehind(h: History<int, int>, m: nat, n: nat)
    requires 0 < m && m + 1 < n <= JOURNAL_SIZE
    requires ValidRun(h) && h.LastStamp() == Seq(m + 1) && h.State().End() == Seq(m + 1)
    requires Get(h.ValuesAsOf(Seq(n)), n - 1) != Get(CountMap(n), n - 1)
    ensures Behind(h, n, Seq(n), n - 1)
  {
  }

  /**
   A takeover of a container that had run the same merges and two or more besides: the
   delta since a sequence between those leaves out what the sender itself had not merged.
   */
  lemma {:induction false} TakeoverSkipsBaseline(m: nat, n: nat)
    requires 0 < m && m + 1 < n <= JOURNAL_SIZE
    ensures var h := TakenOver(Counting(m), Counting(n), Seq(n + 2));
            DeltaGoesWrong(h, Seq(n)) && Unbroken(h) && TakesOverSuccessors(h) && Covers(h.State().journal, Seq(n))
  {
    CountingCounts(m);
    CountingCounts(n);
    CountingSteady(m, Seq(n));
    CountingSteady(n, Seq(n));
    CountingExtends(m, n);
    CountsLag(Counting(m), m, n);
    LagIsBehind(Counting(m), m, n);
    TakeoverWrong(TakenOver(Counting(m), Counting(n), Seq(n + 2)), n, Seq(n), n - 1);
  }

  function Stranger(): History<int, int> { Merged(Start(Fresh()), DeltaOf([Update(100, Some(100), Seq(2))]), Seq(2)) }

  lemma {:induction false} StrangerFacts()
    ensures ValidRun(Stranger()) && Stranger().State().values == map[100 := 100] && Stranger().State().End() == Seq(2)
  {
    var change := Update(100, Some(100), Seq(2));
    DeltaAccepted(Fresh(), [change]);
    DeltaMerge(Fresh(), [change], Seq(2), false);
    SingleChange(map[], change);
    MergeStep(Stranger());
  }

  /**
   A takeover of a container with another history: the delta since the sender's own sequence
   leaves out the key it lost.
   */
  lemma {:induction false} StrangerTakeover(n: nat)
    requires 1 < n <= JOURNAL_SIZE
    ensures var h := TakenOver(Stranger(), Counting(n), Seq(n + 2));
            DeltaGoesWrong(h, Seq(2)) && Unbroken(h) && Reached(h, Seq(2)) && Covers(h.State().journal, Seq(2))
  {
    var h := TakenOver(Stranger(), Counting(n), Seq(n + 2));
    StrangerFacts();
    CountingCounts(n);
    CountMapHolds(n, 100);
    assert Stranger().ValuesAsOf(Seq(2)) == map[100 := 100];
    assert Reached(Stranger(), Seq(2));
    assert Behind(Stranger(), n, Seq(2), 100);
    TakeoverWrong(h, n, Seq(2), 100);
  }

  /** A working copy of the container as it was before the last merge, edited once, merged after it. */
  function StaleCopy(n: nat): Container<int, int>
    requires n < LONGEST
  {
    Push(Counting(n).State(), PushUpdate(1, 11))
  }

  function StaleCopyRun(n: nat): History<int, int>
    requires n + 1 < LONGEST
  {
    Merged(Counting(n + 1), StaleCopy(n), Seq(n + 3))
  }

  lemma {:induction false} StaleCopyFacts(n: nat)
    requires 0 < n < LONGEST
    ensures EditsTracked(CountMap(n), StaleCopy(n)) && !StaleCopy(n).initialize && !StaleCopy(n).pendingDelta
    ensures StaleCopy(n).current == [Update(1, None, Invalid)] && StaleCopy(n).lastModified == ValidNonSequence
  {
    CountingCounts(n);
    MergedIsClean(Counting(n));
    PushKeepsTracking(CountMap(n), Counting(n).State(), PushUpdate(1, 11));
  }

  lemma {:induction false} StaleCopyDelta(h: History<int, int>, baseline: SequenceNumber)
    requires h.Merged? && ValidRun(h) && h.Accepting() && !h.incoming.initialize && |h.incoming.current| == 1
    requires h.before.LastStamp().Le(baseline) && baseline.Lt(h.stamp) && baseline.IsValid()
    ensures DeltaSent(h.State(), baseline, false) == ChangesSince(h.State(), baseline) == h.incoming.current
  {
    EditsSince(h, baseline);
    MergedIsClean(h);
  }

  /**
   A working copy taken before a merge and merged after it: its values are taken whole, so
   the key merged in between is gone, and the delta does not say so. The baseline is the
   sender's own and covered, and no mark is involved.
   */
  lemma {:induction false} StaleCopyLosesKey(n: nat)
    requires 0 < n < JOURNAL_SIZE
    ensures DeltaGoesWrong(StaleCopyRun(n), Seq(n + 2)) && !Unbroken(StaleCopyRun(n))
    ensures Reached(StaleCopyRun(n), Seq(n + 2)) && Steady(StaleCopyRun(n), Seq(n + 2))
    ensures Covers(StaleCopyRun(n).State().journal, Seq(n + 2))
    ensures EditsTracked(Counting(n).State().values, StaleCopy(n))
  {
    var h := StaleCopyRun(n);
    CountingCounts(n);
    CountingCounts(n + 1);
    CountingSteady(n + 1, Seq(n + 2));
    StaleCopyFacts(n);
    StaleCopyAccepted(n);
    StaleCopyDelta(h, Seq(n + 2));
    UnnamedKey(n);
    WorkingCopyStep(CountMap(n), CountMap(n + 1), StaleCopy(n));
    WorkingCopyConvergesExactly(h, CountMap(n), Seq(n + 2));
  }

  /** A container without a mark accepts edited copies. */
  lemma {:induction false} EditsAccepted<K, V>(h: History<K, V>, copy: Container<K, V>, stamp: SequenceNumber)
    requires ValidRun(h) && WorkingCopy(h.State(), copy) && copy.current != [] && copy.lastModified.IsValid()
    requires !h.State().lastProcessed.IsValid() && stamp.IsValid() && h.LastStamp().Lt(stamp)
    ensures ValidRun(Merged(h, copy, stamp)) && Merged(h, copy, stamp).Accepting()
    ensures Merged(h, copy, stamp).State().journal == PushJournal(h.State().journal, ChangeSet(stamp, copy.current))
  {
    MergeStep(Merged(h, copy, stamp));
  }

  lemma {:induction false} PushedCovers<K, V>(journal: seq<ChangeSet<K, V>>, entry: ChangeSet<K, V>,
                                              baseline: SequenceNumber)
    requires |journal| > 1 && forall i :: 0 <= i < |journal| ==> journal[i].stamp.Le(baseline)
    ensures Covers(PushJournal(journal, entry), baseline)
  {
  }

  lemma {:induction false} StaleCopyAccepted(n: nat)
    requires 0 < n < JOURNAL_SIZE
    ensures ValidRun(StaleCopyRun(n)) && StaleCopyRun(n).Accepting()
    ensures Covers(StaleCopyRun(n).State().journal, Seq(n + 2))
  {
    CountingCounts(n + 1);
    CountsJournal(Counting(n + 1), n + 1);
    StaleCopyFacts(n);
    EditsAccepted(Counting(n + 1), StaleCopy(n), Seq(n + 3));
    JournalUpTo(Counting(n + 1), Seq(n + 2));
    PushedCovers(Counting(n + 1).State().journal, ChangeSet(Seq(n + 3), StaleCopy(n).current), Seq(n + 2));
  }

  /** The edit of key 1 does not name the key merged in between. */
  lemma {:induction false} UnnamedKey(n: nat)
    requires 0 < n
    ensures !AgreeElsewhere(CountMap(n + 1), [Update(1, None, Invalid)], CountMap(n))
  {
    var change: Change<int, int> := Update(1, None, Invalid);
    assert LastMention([change], n + 1).None? by {
      assert [change][..0] == [];
    }
    CountMapHolds(n, n + 1);
    CountMapHolds(n + 1, n + 1);
  }

  /** A snapshot merged at 2 leaves an empty journal entry, so the delta since 1 leaves out what it brought. */
  function InitialisedRun(): History<int, int> {
    Merged(Merged(Start(Fresh()), SnapshotOf(Seq(1), map[1 := 10]), Seq(2)), DeltaOf([Update(2, Some(20), Seq(3))]),
           Seq(3))
  }

  lemma {:induction false} InitialisedFacts()
    ensures ValidRun(InitialisedRun()) && Unbroken(InitialisedRun()) && InitialisedRun().ValuesAsOf(Seq(1)) == map[]
    ensures var c := InitialisedRun().State();
            && c.values == map[1 := 10, 2 := 20]
            && c.journal == [ChangeSet(Seq(2), [])] + [ChangeSet(Seq(3), [Update(2, Some(20), Seq(3))])]
  {
    var h, change := InitialisedRun(), Update(2, Some(20), Seq(3));
    SnapshotMerge(Fresh(), Seq(1), map[1 := 10], Seq(2), false);
    MergeStep(h.before);
    DeltaMerge(h.before.State(), [change], Seq(3), false);
    SingleChange(map[1 := 10], change);
    MergeStep(h);
  }

  lemma {:induction false} TwoEntryDelta<K, V>(c: Container<K, V>, first: ChangeSet<K, V>, second: ChangeSet<K, V>,
                                               baseline: SequenceNumber)
    requires c.journal == [first] + [second] && c.current == [] && !c.initialize && baseline.IsValid()
    requires baseline.Lt(first.stamp) && baseline.Lt(second.stamp) && |first.changes| + |second.changes| < DELTA_LIMIT
    ensures DeltaSent(c, baseline, false) == first.changes + second.changes
  {
    SinceAppend([first], second, baseline);
    SinceAppend([], first, baseline);
    assert [] + [first] == [first];
  }

  lemma {:induction false} InitialisedDelta()
    ensures DeltaSent(InitialisedRun().State(), Seq(1), false) == [Update(2, Some(20), Seq(3))]
  {
    InitialisedFacts();
    MergedIsClean(InitialisedRun());
    TwoEntryDelta(InitialisedRun().State(), ChangeSet(Seq(2), []), ChangeSet(Seq(3), [Update(2, Some(20), Seq(3))]),
                  Seq(1));
  }

  lemma {:induction false} InitialiseLosesChange()
    ensures DeltaGoesWrong(InitialisedRun(), Seq(1)) && Unbroken(InitialisedRun()) && Steady(InitialisedRun(), Seq(1))
    ensures |InitialisedRun().State().journal| < JOURNAL_SIZE && !Covers(InitialisedRun().State().journal, Seq(1))
  {
    var change: Change<int, int> := Update(2, Some(20), Seq(3));
    InitialisedFacts();
    InitialisedDelta();
    assert LastMention([change], 1).None? by {
      assert [change][..0] == [];
    }
    WrongWhenUnmentioned(InitialisedRun(), Seq(1), 1);
  }

  /** A container marked 5 takes over one without a mark and loses its own. */
  lemma {:induction false} TakeoverLowersMark() returns (h: History<int, int>)
    ensures ValidRun(h) && h.TakenOver? && h.before.State().lastProcessed == Seq(5)
            && h.State().lastProcessed == Invalid
  {
    var change := Update(1, Some(1), Seq(7));
    h := TakenOver(Merged(Start(Fresh()), SnapshotOf(Seq(5), map[]), Seq(6)),
                   Merged(Start(Fresh()), DeltaOf([change]), Seq(7)), Seq(8));
    SnapshotMerge(Fresh<int, int>(), Seq(5), map[], Seq(6), false);
    DeltaAccepted(Fresh(), [change]);
    DeltaMerge(Fresh(), [change], Seq(7), false);
    MergeStep(h.before);
    MergeStep(h.other);
    MergeStamps(h.other);
    TakeoverStep(h);
  }

  // ----- marks and local edits -----

  /** A receiver that has taken the snapshot of a counting run: in sync, and marked. */
  function SnapshotReceiver(n: nat, at: SequenceNumber): Container<int, int>
    requires n < LONGEST
  {
    Merge(Fresh(), Fresh(), SnapshotOf(Counting(n).State().lastModified, CountMap(n)), at, false)
  }

  /** A fresh copy of a counting container, edited once and merged. */
  function EditedRun(n: nat): History<int, int>
    requires n < LONGEST
  {
    Merged(Counting(n), StaleCopy(n), Seq(n + 3))
  }

  lemma {:induction false} EditedRunFacts(n: nat)
    requires 1 < n < LONGEST
    ensures var h := EditedRun(n);
            && ValidRun(h) && Unbroken(h) && h.Accepting() && Covers(h.State().journal, Seq(n + 1))
            && Get(h.State().values, 1) == Some(11)
  {
    CountingCounts(n);
    CountsJournal(Counting(n), n);
    StaleCopyFacts(n);
    EditsAccepted(Counting(n), StaleCopy(n), Seq(n + 3));
    FreshCopyKeepsChain(EditedRun(n));
    JournalUpTo(Counting(n), Seq(n + 1));
    PushedCovers(Counting(n).State().journal, ChangeSet(Seq(n + 3), StaleCopy(n).current), Seq(n + 1));
  }

  /**
   An ordinary session goes stale. A new receiver takes the snapshot of a container, a fresh
   copy of the container is edited and merged, and the delta since the snapshot is sent:
   the receiver's mark drops it. The run is unbroken, the receiver in sync, the baseline the
   sender's own and covered.
   */
  lemma {:induction false} MergedEditsNeverArrive(n: nat, at: SequenceNumber)
    requires 1 < n < LONGEST
    ensures var h, receiver, baseline := EditedRun(n), SnapshotReceiver(n, at), Seq(n + 1);
            && ValidRun(h) && Unbroken(h) && Reached(h, baseline) && Steady(h, baseline)
            && Covers(h.State().journal, baseline)
            && receiver.values == h.ValuesAsOf(baseline) && IsDirty(h.State(), baseline)
            && DeltaSent(h.State(), baseline, false) == h.incoming.current
            && !Takes(receiver, PayloadStamp(h.State(), baseline, false))
            && receiver.values != h.State().values
  {
    var h := EditedRun(n);
    CountingCounts(n);
    CountingStamp(n);
    EditedRunFacts(n);
    StaleCopyFacts(n);
    CountingSteady(n, Seq(n + 1));
    SnapshotMerge(Fresh<int, int>(), Seq(n + 1), CountMap(n), at, false);
    StaleCopyDelta(h, Seq(n + 1));
    MergeStamps(h);
    EditsSince(h, Seq(n + 1));
    MarkedReceiverDropsMergedEdits(h, Seq(n + 1), false, SnapshotReceiver(n, at));
    CountMapHolds(n, 1);
  }

  lemma {:induction false} CountingStamp(n: nat)
    requires 0 < n < LONGEST
    ensures Counting(n).State().lastModified == Seq(n + 1) && Reached(Counting(n), Seq(n + 1))
  {
    CountingCounts(n - 1);
    OneMoreDelta(Counting(n), CountChange(n));
  }

  /** Edits touch neither the journal nor the marks, and their stamp is not a sequence. */
  lemma {:induction false} PushAllShape<K, V>(c: Container<K, V>, edits: seq<Edit<K, V>>)
    ensures var c' := PushAll(c, edits);
            && c'.journal == c.journal && c'.lastProcessed == c.lastProcessed && c'.lastFullMarshal == c.lastFullMarshal
            && (edits != [] ==> c'.lastModified == ValidNonSequence && !c'.pendingDelta)
  {
    if edits != [] {
      PushAllShape(c, edits[..|edits| - 1]);
    }
  }

  /** A container with a mark refuses copies whose edits carry no sequence, escalated or not. */
  lemma {:induction false} UnstampedRefused<K(!new), V>(prior: Container<K, V>, copy: Container<K, V>, start: map<K, V>)
    requires prior.lastProcessed.IsValid() && copy.journal == prior.journal && copy.lastFullMarshal == Invalid
    requires EditsTracked(start, copy)
    ensures !Accepts(prior, copy)
  {
    assert copy.current != [] ==> copy.current[|copy.current| - 1] in copy.current;
  }

  /**
   A merged container that has a mark, as every container initialised by a snapshot has,
   drops its own local edits when they are merged: whatever they are, the merge is refused,
   the values stay as they were, and the edits are gone from the copy.
   */
  lemma {:induction false} MarkedContainerLosesEdits<K(!new), V>(h: History<K, V>, edits: seq<Edit<K, V>>,
                                                                 stamp: SequenceNumber)
    requires ValidRun(h) && !h.Start? && h.State().lastProcessed.IsValid() && edits != []
    requires stamp.IsValid() && h.LastStamp().Lt(stamp)
    ensures var after := Merged(h, PushAll(h.State(), edits), stamp);
            && ValidRun(after) && !after.Accepting() && after.State().values == h.State().values
            && after.incoming.values == Apply(h.State().values, EagerLog(edits))
  {
    var c := h.State();
    var copy, after := PushAll(c, edits), Merged(h, PushAll(c, edits), stamp);
    MergedIsClean(h);
    PushAllShape(c, edits);
    PushAllKeepsTracking(c.values, c, edits);
    EagerLogReplays(c, edits);
    UnstampedRefused(c, copy, c.values);
    MergeStamps(after);
  }
}
