/**
 What local edits leave in a container, whatever it held before, and exactly when a
 merge takes them in.
 */
module ContainerEdits {
  import opened Wire
  import opened SequenceNumbers
  import opened ContainerModel
  import opened ContainerReplay

  /** Some edit finds more edits before it than it leaves values. */
  predicate Overtakes<K, V>(values: map<K, V>, edits: seq<Edit<K, V>>) {
    edits != [] &&
    var n := |edits| - 1;
    n > |Apply(values, EagerLog(edits))| || Overtakes(values, edits[..n])
  }

  /** The change says of the edit what it did and to which key, and nothing else. */
  predicate Records<K(==), V>(change: Change<K, V>, e: Edit<K, V>) {
    match e
    case PushAdd(k, _) => change.Add? && change.k == k && change.v.None? && change.s == Invalid
    case PushUpdate(k, _) => change.Update? && change.k == k && change.v.None? && change.s == Invalid
    case PushRemove(k) => change.Remove? && change.k == k && change.s == Invalid
  }

  /** One recorded change per edit, in order. */
  ghost predicate RecordsAll<K, V>(changes: seq<Change<K, V>>, edits: seq<Edit<K, V>>) {
    |changes| == |edits| && forall i :: 0 <= i < |edits| ==> Records(changes[i], edits[i])
  }

  /** One more edit on a container whose list is the edits so far. */
  lemma {:induction false} OneMoreRecorded<K, V>(c: Container<K, V>, before: seq<Edit<K, V>>, e: Edit<K, V>)
    requires !c.initialize && RecordsAll(c.current, before)
    ensures Push(c, e).initialize <==> |before| > |Push(c, e).values|
    ensures if |before| > |Push(c, e).values| then Push(c, e).current == []
            else RecordsAll(Push(c, e).current, before + [e])
  {
    assert Records(RecordedChange(e), e);
  }

  /**
   Escalation, exactly. A container without pending edits has escalated after a run of edits
   if and only if some edit found the list longer than the values; otherwise the list is the
   edits, in order and without values.
   */
  lemma {:induction false} EscalatesExactly<K, V>(c: Container<K, V>, edits: seq<Edit<K, V>>)
    requires c.current == [] && !c.initialize
    ensures PushAll(c, edits).initialize <==> Overtakes(c.values, edits)
    ensures if Overtakes(c.values, edits) then PushAll(c, edits).current == []
            else RecordsAll(PushAll(c, edits).current, edits)
  {
    if edits != [] {
      var before, e := edits[..|edits| - 1], edits[|edits| - 1];
      assert edits == before + [e];
      EscalatesExactly(c, before);
      EagerLogReplays(c, edits);
      if !Overtakes(c.values, before) {
        OneMoreRecorded(PushAll(c, before), before, e);
      }
    }
  }

  /** A container that initialises goes on doing so, with nothing listed. */
  lemma {:induction false} InitialisingStays<K, V>(c: Container<K, V>, edits: seq<Edit<K, V>>)
    requires c.current == [] && c.initialize
    ensures PushAll(c, edits).initialize && PushAll(c, edits).current == []
  {
    if edits != [] {
      InitialisingStays(c, edits[..|edits| - 1]);
    }
  }

  /** Edits stamp the container and leave its journal, marks and network flag alone. */
  lemma {:induction false} EditsStamp<K, V>(c: Container<K, V>, edits: seq<Edit<K, V>>)
    ensures var c' := PushAll(c, edits);
            && c'.lastFullMarshal == c.lastFullMarshal && c'.journal == c.journal
            && c'.lastProcessed == c.lastProcessed && c'.newNetworkData == c.newNetworkData
            && (edits != [] ==> c'.lastModified == ValidNonSequence && !c'.defaultValue && !c'.pendingDelta)
  {
    if edits != [] {
      EditsStamp(c, edits[..|edits| - 1]);
    }
  }

  /** Whether `prior` takes a container that initialises with nothing listed. */
  predicate TakesInitialise<K, V>(prior: Container<K, V>, incoming: Container<K, V>) {
    || !prior.lastProcessed.IsValid()
    || prior.lastProcessed.Lt(incoming.lastFullMarshal)
    || prior.End().Lt(incoming.End())
  }

  /** A stamped container that initialises replaces the values exactly then, as one empty change set. */
  lemma {:induction false} InitialiseArrivesExactly<K, V>(dest: Container<K, V>, prior: Container<K, V>,
                                                          incoming: Container<K, V>,
                                                          s: SequenceNumber, inherit: bool)
    requires incoming.initialize && incoming.current == [] && incoming.lastModified.IsValid()
    ensures Accepts(prior, incoming) <==> TakesInitialise(prior, incoming)
    ensures var merged := Merge(dest, prior, incoming, s, inherit);
            if TakesInitialise(prior, incoming) then
              && merged.values == incoming.values && merged.journal == [ChangeSet(s, [])]
              && merged.lastModified == s && merged.newNetworkData
            else
              && merged.values == prior.values && merged.journal == prior.journal
              && merged.newNetworkData == (inherit && prior.newNetworkData)
  {
  }

  lemma {:induction false} RecordedArriveExactly<K, V>(dest: Container<K, V>, prior: Container<K, V>,
                                                       edited: Container<K, V>, edits: seq<Edit<K, V>>,
                                                       s: SequenceNumber, inherit: bool)
    requires edits != [] && RecordsAll(edited.current, edits)
    requires !edited.initialize && !edited.pendingDelta && edited.lastModified.IsValid()
    ensures Merge(dest, prior, edited, s, inherit).values
         == if !prior.lastProcessed.IsValid() || prior.End().Lt(edited.End()) then edited.values else prior.values
  {
    assert Records(edited.current[|edits| - 1], edits[|edits| - 1]);
  }

  /**
   Exactly when edits arrive, whatever the container they were made on held and whatever it
   is merged onto: when the receiver has no mark, or the container's journal is newer, or the
   container initialises and was last decoded whole above the mark. Otherwise no value changes.
   */
  lemma {:induction false} EditsArriveExactly<K, V>(dest: Container<K, V>, prior: Container<K, V>, c: Container<K, V>,
                                                    edits: seq<Edit<K, V>>, s: SequenceNumber, inherit: bool)
    requires c.current == [] && edits != []
    ensures var escalated := c.initialize || Overtakes(c.values, edits);
            var taken := || !prior.lastProcessed.IsValid()
                         || (escalated && prior.lastProcessed.Lt(c.lastFullMarshal))
                         || prior.End().Lt(c.End());
            Merge(dest, prior, PushAll(c, edits), s, inherit).values
            == if taken then Apply(c.values, EagerLog(edits)) else prior.values
  {
    EditsStamp(c, edits);
    EagerLogReplays(c, edits);
    if c.initialize {
      InitialisingStays(c, edits);
    } else {
      EscalatesExactly(c, edits);
    }
    if c.initialize || Overtakes(c.values, edits) {
      InitialiseArrivesExactly(dest, prior, PushAll(c, edits), s, inherit);
    } else {
      RecordedArriveExactly(dest, prior, PushAll(c, edits), edits, s, inherit);
    }
  }

  /**
   So the first edits ever made on a container reach exactly the containers without a mark,
   and replace their values.
   */
  lemma {:induction false} FirstFillArrives<K, V>(dest: Container<K, V>, prior: Container<K, V>,
                                                  edits: seq<Edit<K, V>>,
                                                  s: SequenceNumber, inherit: bool)
    requires edits != []
    ensures Merge(dest, prior, PushAll(Fresh(), edits), s, inherit).values
         == if prior.lastProcessed.IsValid() then prior.values else Apply(map[], EagerLog(edits))
  {
    EditsArriveExactly(dest, prior, Fresh(), edits, s, inherit);
  }

  /**
   It arrives exactly when it is stamped and the receiver has no mark; edits made on it
   arrive in that case, stamped or not.
   */
  lemma {:induction false} BuiltValuesArrive<K, V>(dest: Container<K, V>, prior: Container<K, V>, stamp: SequenceNumber,
                                                   values: map<K, V>, edits: seq<Edit<K, V>>,
                                                   s: SequenceNumber,
                                                   inherit: bool)
    ensures Merge(dest, prior, PushAll(Holding(stamp, values), edits), s, inherit).values
         == if !prior.lastProcessed.IsValid() && (stamp.IsValid() || edits != [])
            then Apply(values, EagerLog(edits)) else prior.values
  {
    if edits == [] {
      assert EagerLog(edits) == [];
      assert PushAll(Holding(stamp, values), edits) == Holding(stamp, values);
    } else {
      EditsArriveExactly(dest, prior, Holding(stamp, values), edits, s, inherit);
    }
  }
}
