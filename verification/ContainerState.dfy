/** The mutable replicated container, proved step for step against `ContainerModel` and `ContainerWire`. */
module ContainerState {
  import opened Wire
  import opened SequenceNumbers
  import opened ContainerModel
  import ContainerWire
  import LiveMask
  import Vlq

  class ReplicatedContainer<K(==), V> {
    var lastModified: SequenceNumber
    var lastFullMarshal: SequenceNumber
    var values: map<K, V>
    var current: seq<Change<K, V>>
    var journal: seq<ChangeSet<K, V>>
    var initialize: bool
    var pendingDelta: bool
    var defaultValue: bool
    var newNetworkData: bool
    var lastProcessed: SequenceNumber

    function View(): Container<K, V>
      reads this
    {
      Container(lastModified, lastFullMarshal, values, current, journal, initialize, pendingDelta, defaultValue,
                newNetworkData, lastProcessed)
    }

    constructor ()
      ensures View() == Fresh()
    {
      lastModified, lastFullMarshal, lastProcessed := Invalid, Invalid, Invalid;
      values, current, journal := map[], [], [];
      initialize, pendingDelta, defaultValue, newNetworkData := true, false, false, false;
    }

    constructor Build(stamp: SequenceNumber, initial: map<K, V>)
      ensures View() == Holding(stamp, initial)
    {
      lastModified, lastFullMarshal, lastProcessed := stamp, Invalid, Invalid;
      values, current, journal := initial, [], [];
      initialize, pendingDelta, defaultValue, newNetworkData := true, false, false, false;
    }

    method PushAdd(key: K, value: V)
      modifies this
      ensures View() == Push(old(View()), Edit.PushAdd(key, value))
    {
      values := values[key := value];
      PushChange(Add(key, None, Invalid));
    }

    method PushUpdate(key: K, value: V)
      modifies this
      ensures View() == Push(old(View()), Edit.PushUpdate(key, value))
    {
      values := values[key := value];
      PushChange(Update(key, None, Invalid));
    }

    method PushRemove(key: K)
      modifies this
      ensures View() == Push(old(View()), Edit.PushRemove(key))
    {
      values := values - {key};
      PushChange(Remove(key, Invalid));
    }

    method PushChange(change: Change<K, V>)
      modifies this
      ensures View() == ContainerModel.PushChange(old(View()), change)
    {
      lastModified := ValidNonSequence;
      defaultValue := false;
      if !initialize {
        if |current| > |values| {
          PushInitializeChange();
        } else {
          current := current + [change];
        }
      }
      pendingDelta := false;
    }

    method PushInitializeChange()
      modifies this
      ensures View() == old(View()).(lastModified := ValidNonSequence, defaultValue := false, pendingDelta := false,
                        initialize := true, current := if old(initialize) then old(current) else [])
    {
      lastModified := ValidNonSequence;
      defaultValue := false;
      if !initialize {
        initialize := true;
        current := [];
      }
      pendingDelta := false;
    }

    method PushJournal(entry: ChangeSet<K, V>)
      modifies this
      ensures View() == old(View()).(journal := ContainerModel.PushJournal(old(journal), entry))
    {
      if |journal| == JOURNAL_SIZE {
        journal := journal[1..];
      }
      journal := journal + [entry];
    }

    method ApplyChanges(changes: seq<Change<K, V>>)
      modifies this`values
      ensures values == Apply(old(values), changes)
    {
      for i := 0 to |changes|
        invariant values == Apply(old(values), changes[..i])
      {
        assert changes[..i + 1][..i] == changes[..i];
        values := ApplyChange(values, changes[i]);
      }
      assert changes[..|changes|] == changes;
    }

    method ApplyChangeSet(stamp: SequenceNumber, changes: seq<Change<K, V>>)
      modifies this
      ensures View() == ContainerModel.ApplyChangeSet(old(View()), stamp, changes)
    {
      ApplyChanges(changes);
      PushJournal(ChangeSet(stamp, changes));
    }

    method MergeChangeSets(incoming: ReplicatedContainer<K, V>, stamp: SequenceNumber)
      requires incoming != this
      modifies this
      ensures View() == ContainerModel.MergeChangeSets(old(View()), old(incoming.View()), stamp)
    {
      var end := View().End();
      for i := 0 to |incoming.journal|
        invariant View() == ApplyNewerSets(old(View()), end, incoming.journal[..i])
      {
        assert incoming.journal[..i + 1][..i] == incoming.journal[..i];
        if end.Lt(incoming.journal[i].stamp) {
          ApplyChangeSet(incoming.journal[i].stamp, incoming.journal[i].changes);
        }
      }
      assert incoming.journal[..|incoming.journal|] == incoming.journal;
      if incoming.current != [] {
        ApplyChangeSet(stamp, incoming.current);
      }
    }

    method AcceptIncoming(prior: ReplicatedContainer<K, V>, incoming: ReplicatedContainer<K, V>, stamp: SequenceNumber)
      requires prior != this && incoming != this
      modifies this
      ensures View() == MergeAccepted(old(View()), old(prior.View()), old(incoming.View()), stamp)
    {
      ClearCurrentChanges();
      lastModified, newNetworkData := stamp, true;
      if incoming.initialize {
        CopyContainerFrom(incoming, []);
        PushJournal(ChangeSet(stamp, incoming.current));
      } else if !incoming.pendingDelta {
        if incoming.current == [] {
          CopyContainerFrom(incoming, incoming.journal);
        } else {
          CopyContainerFrom(incoming, prior.journal);
          PushJournal(ChangeSet(stamp, incoming.current));
        }
      } else {
        CopyContainerFrom(prior, prior.journal);
        MergeChangeSets(incoming, stamp);
      }
    }

    /** Merges a container that is both the old and the new one into this container. */
    method MergeSelf(source: ReplicatedContainer<K, V>, stamp: SequenceNumber)
      requires source != this
      modifies this
      ensures View() == ContainerModel.MergeSelf(old(View()), old(source.View()), stamp)
    {
      ClearCurrentChanges();
      journal, newNetworkData, lastProcessed := [], false, source.lastProcessed;
      if source.lastModified.IsValid() {
        lastModified := stamp;
        CopyContainerFrom(source, if source.initialize then [] else source.journal);
        PushJournal(ChangeSet(stamp, source.current));
        newNetworkData := true;
      }
    }

    /**
     Three-way merge of `incoming` onto `prior` into this container; the incoming edits are
     consumed. The two may be one object.
     */
    method MergeAndUpdateSequence(prior: ReplicatedContainer<K, V>, incoming: ReplicatedContainer<K, V>,
                                  stamp: SequenceNumber, inherit: bool) returns (detected: bool)
      requires prior != this && incoming != this
      modifies this, incoming
      ensures View() == if prior == incoming then ContainerModel.MergeSelf(old(View()), old(prior.View()), stamp)
                        else Merge(old(View()), old(prior.View()), old(incoming.View()), stamp, inherit)
      ensures incoming.View() == old(incoming.View()).(current := [], initialize := false)
      ensures detected == (prior == incoming || Accepts(old(prior.View()), old(incoming.View())))
    {
      if prior == incoming {
        MergeSelf(prior, stamp);
        detected := true;
      } else {
        detected := MergeOnto(prior, incoming, stamp, inherit);
      }
      ghost var merged := View();
      incoming.ClearCurrentChanges();
      assert View() == merged;
    }

    /** The merge of two distinct containers, before the incoming edits are cleared. */
    method MergeOnto(prior: ReplicatedContainer<K, V>, incoming: ReplicatedContainer<K, V>, stamp: SequenceNumber,
                     inherit: bool)
      returns (detected: bool)
      requires prior != this && incoming != this
      modifies this
      ensures View() == Merge(old(View()), old(prior.View()), old(incoming.View()), stamp, inherit)
      ensures detected == Accepts(old(prior.View()), old(incoming.View()))
    {
      detected := Accepts(prior.View(), incoming.View());
      if detected {
        AcceptIncoming(prior, incoming, stamp);
      } else {
        KeepPrior(prior, stamp, inherit);
      }
    }

    method KeepPrior(prior: ReplicatedContainer<K, V>, stamp: SequenceNumber, inherit: bool)
      requires prior != this
      modifies this
      ensures View() == old(View()).(current := [], initialize := false,
                        lastModified := stamp.Min(old(prior.lastModified)), values := old(prior.values),
                        lastProcessed := old(prior.lastProcessed), journal := old(prior.journal),
                        newNetworkData := inherit && old(prior.newNetworkData))
    {
      ClearCurrentChanges();
      lastModified := stamp.Min(prior.lastModified);
      CopyContainerFrom(prior, prior.journal);
      newNetworkData := inherit && prior.newNetworkData;
    }

    method CopyContainerFrom(other: ReplicatedContainer<K, V>, newJournal: seq<ChangeSet<K, V>>)
      requires other != this
      modifies this`values, this`lastProcessed, this`journal
      ensures values == other.values && lastProcessed == other.lastProcessed && journal == newJournal
    {
      values, lastProcessed, journal := other.values, other.lastProcessed, newJournal;
    }

    method ClearCurrentChanges()
      modifies this`current, this`initialize
      ensures current == [] && !initialize
    {
      current, initialize := [], false;
    }

    /** The changes a delta since `baseline` would carry, filled from the current values. */
    method SummarizeChanges(baseline: SequenceNumber, inefficient: bool) returns (changes: seq<Change<K, V>>)
      ensures changes == Summarize(View(), baseline, inefficient)
    {
      changes := [];
      if initialize {
        return;
      }
      for i := 0 to |journal|
        invariant changes == JournalSince(journal[..i], baseline)
      {
        assert journal[..i + 1][..i] == journal[..i];
        if baseline.Lt(journal[i].stamp) {
          changes := changes + journal[i].changes;
        }
      }
      assert journal[..|journal|] == journal;
      changes := changes + current;
      ghost var since := changes;
      for i := 0 to |changes|
        invariant |changes| == |since|
        invariant forall j :: 0 <= j < |changes| ==>
                                changes[j] == if j < i then Populate(values, since[j]) else since[j]
      {
        changes := changes[i := Populate(values, changes[i])];
      }
      assert changes == PopulateAll(values, since);
      if inefficient {
        changes := [];
      }
    }

    method MarshalSince(f: ContainerWire.Format<K, V>, baseline: SequenceNumber, inefficient: bool,
                                                entries: seq<(K, V)>) returns (out: seq<byte>)
      requires |entries| < 0x1_0000_0000
      ensures out == ContainerWire.MarshalSince(f, View(), baseline, inefficient, entries)
    {
      var changes := [];
      if baseline.IsValid() {
        changes := SummarizeChanges(baseline, inefficient);
      }
      if changes == [] || |changes| >= ContainerWire.DELTA_LIMIT {
        out := ContainerWire.EncodeSnapshot(f, lastModified, entries);
      } else {
        var batches := LiveMask.WriteLiveMaskBatches(ContainerWire.ChangeCodec(f, values), Invalid, changes);
        out := Vlq.EncodeU32(|changes|) + batches;
      }
    }

    /** Replaces this container by the one decoded from the front of `s`; a failed decode leaves it alone. */
    method UnmarshalField(f: ContainerWire.Format<K, V>, s: seq<byte>) returns (r: Decoded<()>)
      modifies this
      ensures match ContainerWire.DecodeContainer(f, s)
              case Ok(c, rest) => r == Ok((), rest) && View() == c
              case Err(e) => r == Err(e) && View() == old(View())
    {
      var decoded := Unmarshal(f, s);
      if decoded.Ok? {
        Assign(decoded.value);
        r := Ok((), decoded.rest);
      } else {
        r := Err(decoded.error);
      }
    }

    method Assign(c: Container<K, V>)
      modifies this
      ensures View() == c
    {
      lastModified, lastFullMarshal, lastProcessed := c.lastModified, c.lastFullMarshal, c.lastProcessed;
      values, current, journal := c.values, c.current, c.journal;
      initialize, pendingDelta := c.initialize, c.pendingDelta;
      defaultValue, newNetworkData := c.defaultValue, c.newNetworkData;
    }

    static method Unmarshal(f: ContainerWire.Format<K, V>, s: seq<byte>) returns (r: Decoded<Container<K, V>>)
      ensures r == ContainerWire.DecodeContainer(f, s)
    {
      var mode :- Vlq.DecodeU32(s);
      if mode.0 == 0 {
        var stamp :- Decode(mode.1);
        var count :- Vlq.DecodeU32(stamp.1);
        if count.0 > f.cap {
          return Err(ContainerOverflow(count.0, f.cap));
        }
        var entries := UnmarshalEntries(f, count.0, count.1);
        if entries.Err? {
          return Err(entries.error);
        }
        r := Ok(ContainerWire.SnapshotOf(stamp.0, entries.value), entries.rest);
      } else if mode.0 > f.cap {
        r := Err(ContainerOverflow(mode.0, f.cap));
      } else {
        var changes := LiveMask.ReadLiveMaskBatches(ContainerWire.ChangeCodec(f, map[]), Invalid, mode.0, mode.1);
        if changes.Err? {
          return Err(changes.error);
        }
        r := Ok(ContainerWire.DeltaOf(changes.value), changes.rest);
      }
    }

    static method UnmarshalEntries(f: ContainerWire.Format<K, V>, count: nat, s: seq<byte>)
      returns (r: Decoded<map<K, V>>)
      ensures r == ContainerWire.DecodeEntries(f, count, map[], s)
    {
      var decoded, rest := map[], s;
      for i := 0 to count
        invariant ContainerWire.DecodeEntries(f, count, map[], s)
               == ContainerWire.DecodeEntries(f, count - i, decoded, rest)
      {
        var key :- f.keys.decode(rest);
        var value :- f.items.decode(key.1);
        decoded, rest := decoded[key.0 := value.0], value.1;
      }
      r := Ok(decoded, rest);
    }
  }
}
