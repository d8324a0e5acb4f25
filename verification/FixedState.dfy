/** The fixed-state loops, and the state object they work on. */
module FixedState {
  import opened Wire
  import opened Bits
  import opened SequenceNumbers
  import opened Fields
  import opened GroupFlags
  import opened FixedModel
  import opened FixedWire
  import opened Sequences
  import Vlq

  // ----- writing -----

  /** First visit: one mask bit for each dirty field. */
  method VisitDirty<V>(fields: seq<Field<V>>, b: SequenceNumber) returns (mask: u64)
    requires |fields| <= 64
    ensures mask == FieldMask(fields, b)
  {
    var m := 0;
    for i := 0 to |fields|
      invariant m == MaskOf(DirtyBits(fields, b)[..i])
    {
      ghost var bits := DirtyBits(fields, b);
      MaskAppend(bits[..i], bits[i]);
      assert bits[..i + 1] == bits[..i] + [bits[i]];
      if fields[i].IsDirtySince(b) {
        m := m + Pow2(i);
      }
    }
    assert DirtyBits(fields, b)[..|fields|] == DirtyBits(fields, b);
    assert m == FieldMask(fields, b);
    mask := m;
  }

  /** Second visit: the bodies of the fields whose bit is set. */
  method MarshalVisitedFields<V>(specs: seq<FieldSpec<V>>, fields: seq<Field<V>>,
                                 b: SequenceNumber) returns (out: Option<seq<byte>>)
    requires |fields| == |specs| <= 64
    ensures out == GroupBytes(specs, fields, b)
  {
    var mask := VisitDirty(fields, b);
    if mask == 0 {
      return None;
    }
    var body := [];
    for i := 0 to |specs|
      invariant body + Bodies(specs, fields, b, mask, i) == Bodies(specs, fields, b, mask, 0)
    {
      var bytes := if Bit(mask, i) then FieldBytes(specs[i], fields[i], b) else [];
      Reassociate(body, bytes, Bodies(specs, fields, b, mask, i + 1));
      body := body + bytes;
    }
    assert body + [] == body;
    out := Some(Vlq.EncodeU64(mask) + body);
  }

  /** One group of the writing loop: hidden groups are skipped. */
  method MarshalGroup<V>(layout: Layout<V>, groups: seq<Group<V>>, mc: MarshalContext,
                         g: nat) returns (section: Option<seq<byte>>)
    requires Supported(layout) && Fits(layout, groups) && g < |layout|
    ensures section == Section(layout, groups, mc, g)
  {
    if mc.Hides(groups, g) {
      return None;
    }
    section := MarshalVisitedFields(layout[g], groups[g].fields, mc.BaselineFor(g));
  }

  /** One more section behind the bytes already written, and its flag behind the flags already set. */
  lemma {:induction false} SectionStep(sections: seq<Option<seq<byte>>>, g: nat, body: seq<byte>)
    requires g < |sections|
    ensures body + Joined(sections, g) == body + SectionBytes(sections[g]) + Joined(sections, g + 1)
    ensures PresentFlags(sections)[..g + 1] == PresentFlags(sections)[..g] + [sections[g].Some?]
  {
    Reassociate(body, SectionBytes(sections[g]), Joined(sections, g + 1));
  }

  method MarshalSections<V>(layout: Layout<V>, groups: seq<Group<V>>, mc: MarshalContext) returns (body: seq<byte>,
                                                                                                   present: seq<bool>)
    requires Supported(layout) && Fits(layout, groups)
    ensures body == Joined(Sections(layout, groups, mc), 0)
    ensures present == PresentFlags(Sections(layout, groups, mc))
  {
    ghost var sections := Sections(layout, groups, mc);
    body, present := [], [];
    for g := 0 to |layout|
      invariant present == PresentFlags(sections)[..g]
      invariant body + Joined(sections, g) == Joined(sections, 0)
    {
      var section := MarshalGroup(layout, groups, mc, g);
      SectionStep(sections, g, body);
      body, present := body + SectionBytes(section), present + [section.Some?];
    }
    assert body + [] == body;
  }

  method MarshalContents<V>(layout: Layout<V>, groups: seq<Group<V>>,
                            mc: MarshalContext) returns (out: Option<seq<byte>>)
    requires Supported(layout) && Fits(layout, groups)
    ensures out == Contents(layout, groups, mc)
  {
    var body, present := MarshalSections(layout, groups, mc);
    if true !in present {
      return None;
    }
    var flags := WriteGroupPresentFlags(present);
    out := Some(flags + body);
  }

  // ----- reading -----

  /** The visit decodes into the fields as it goes; on failure those before the failing one have arrived. */
  method UnmarshalVisitedFields<V>(specs: seq<FieldSpec<V>>, fields: seq<Field<V>>, s: seq<byte>)
    returns (r: Decoded<GroupRead<V>>, left: seq<Field<V>>)
    requires |fields| == |specs|
    ensures r == ReadGroup(specs, fields, s) && left == GroupLeft(specs, fields, s)
  {
    left := fields;
    if specs == [] {
      return Ok(GroupRead(fields, false), s), left;
    }
    var header := Vlq.DecodeU64(s);
    if header.Err? {
      return Err(header.error), left;
    }
    var mask, rest := header.value, header.rest;
    if mask == 0 {
      return Ok(GroupRead(fields, false), rest), left;
    }
    for i := 0 to |specs|
      invariant |left| == |specs|
      invariant ReadFields(specs, fields, mask, 0, header.rest) == ReadFields(specs, left, mask, i, rest)
      invariant FieldsLeft(specs, fields, mask, 0, header.rest) == FieldsLeft(specs, left, mask, i, rest)
    {
      if Bit(mask, i) {
        var value := specs[i].decode(rest);
        if value.Err? {
          return Err(value.error), left;
        }
        left, rest := left[i := Arrived(value.value)], value.rest;
      }
    }
    r := Ok(GroupRead(left, true), rest);
  }

  method UnmarshalContents<V>(layout: Layout<V>, groups: seq<Group<V>>, s: seq<byte>)
    returns (r: Decoded<StateRead<V>>, left: seq<Group<V>>)
    requires Fits(layout, groups)
    ensures r == ReadContents(layout, groups, s) && left == ContentsLeft(layout, groups, s)
  {
    left := groups;
    var header := ReadGroupPresentFlags(|layout|, s);
    if header.Err? {
      return Err(header.error), left;
    }
    var flags, rest, any := header.value, header.rest, false;
    for g := 0 to |layout|
      invariant Fits(layout, left)
      invariant ReadContents(layout, groups, s) == ReadGroups(layout, StateRead(left, any), flags, g, rest)
      invariant ContentsLeft(layout, groups, s) == GroupsLeft(layout, left, flags, g, rest)
    {
      if flags[g] {
        GroupLeftOnSuccess(layout[g], left[g].fields, rest);
        var group, fields := UnmarshalVisitedFields(layout[g], left[g].fields, rest);
        left := left[g := left[g].(fields := fields)];
        if group.Err? {
          return Err(group.error), left;
        }
        any, rest := any || group.value.readAny, group.rest;
      }
    }
    r := Ok(StateRead(left, any), rest);
  }

  // ----- merging -----

  lemma TallyPrefix(before: seq<Report>, reports: seq<Report>, i: nat)
    requires i < |reports|
    ensures Tally(before + reports[..i + 1]) == Tally(before + reports[..i]).Note(reports[i])
  {
    var longer := before + reports[..i + 1];
    assert longer[..|longer| - 1] == before + reports[..i];
  }

  /**
   Visits `count` fields, merging each, and adds their reports to the outcome of what came
   before; `merge` is the merge of the field with a given index.
   */
  method VisitForMerge<V>(count: nat, merge: nat --> Merged<V>, outcome: Outcome, ghost before: seq<Report>,
                          ghost all: seq<Merged<V>>)
    returns (fields: seq<Field<V>>, outcome': Outcome)
    requires |all| == count && forall i: nat :: i < count ==> merge.requires(i) && merge(i) == all[i]
    requires outcome == Tally(before)
    ensures fields == FieldsOf(all)
    ensures outcome' == Tally(before + ReportsOf(all))
  {
    fields, outcome' := [], outcome;
    ghost var reports := ReportsOf(all);
    assert before + reports[..0] == before;
    for i := 0 to count
      invariant |fields| == i && forall j :: 0 <= j < i ==> fields[j] == all[j].field
      invariant outcome' == Tally(before + reports[..i])
    {
      var merged := merge(i);
      TallyPrefix(before, reports, i);
      fields, outcome' := fields + [merged.field], outcome'.Note(ReportOf(merged));
    }
    assert reports[..count] == reports;
  }

  method MergeGroupFields<V(==)>(specs: seq<FieldSpec<V>>, prior: seq<Field<V>>, incoming: seq<Field<V>>,
                                 mc: MergeContext,
                                 outcome: Outcome, ghost before: seq<Report>)
    returns (fields: seq<Field<V>>, outcome': Outcome)
    requires |prior| == |incoming| == |specs| && outcome == Tally(before)
    ensures fields == FieldsOf(MergeFields(specs, prior, incoming, mc))
    ensures outcome' == Tally(before + ReportsOf(MergeFields(specs, prior, incoming, mc)))
  {
    var merge := (i: nat) requires i < |specs| => Merge(prior[i], incoming[i], mc.stamp, mc.inherit, specs[i].zero);
    fields, outcome' := VisitForMerge(|specs|, merge, outcome, before, MergeFields(specs, prior, incoming, mc));
  }

  method MergeAllFields<V(==)>(layout: Layout<V>, prior: seq<Group<V>>, incoming: seq<Group<V>>, mc: MergeContext)
    returns (fields: seq<seq<Field<V>>>, outcome: Outcome)
    requires Fits(layout, prior) && Fits(layout, incoming)
    ensures |fields| == |layout|
    ensures forall g :: 0 <= g < |layout|
                        ==> fields[g] == FieldsOf(MergeFields(layout[g], prior[g].fields, incoming[g].fields, mc))
    ensures outcome == Tally(FieldReports(layout, prior, incoming, mc, |layout|))
  {
    fields, outcome := [], NOTHING_SEEN;
    for g := 0 to |layout|
      invariant |fields| == g
      invariant forall k :: 0 <= k < g
                            ==> fields[k] == FieldsOf(MergeFields(layout[k], prior[k].fields, incoming[k].fields, mc))
      invariant outcome == Tally(FieldReports(layout, prior, incoming, mc, g))
    {
      var merged;
      merged, outcome := MergeGroupFields(layout[g], prior[g].fields, incoming[g].fields, mc, outcome,
                                          FieldReports(layout, prior, incoming, mc, g));
      fields := fields + [merged];
    }
  }

  method MergeWhitelists<V>(prior: seq<Group<V>>, incoming: seq<Group<V>>, mc: MergeContext, outcome: Outcome,
                            ghost before: seq<Report>)
    returns (lists: seq<Field<seq<Client>>>, outcome': Outcome)
    requires |prior| == |incoming| && outcome == Tally(before)
    ensures |lists| == |prior|
    ensures forall g :: 0 <= g < |prior|
                        ==> lists[g] == MergeWhitelist(prior[g].whitelist, incoming[g].whitelist, mc).field
    ensures outcome' == Tally(before + WhitelistReports(prior, incoming, mc, |prior|))
  {
    var merge := (g: nat) requires g < |prior|
                                == |incoming| => MergeWhitelist(prior[g].whitelist, incoming[g].whitelist, mc);
    ghost var all := seq(|prior|, g requires 0 <= g < |prior| => merge(g));
    assert WhitelistReports(prior, incoming, mc, |prior|) == ReportsOf(all);
    lists, outcome' := VisitForMerge(|prior|, merge, outcome, before, all);
  }

  /** Every field of every group, then every whitelist. */
  method MergeState<V(==)>(layout: Layout<V>, prior: seq<Group<V>>, incoming: seq<Group<V>>, mc: MergeContext)
    returns (groups: seq<Group<V>>, outcome: Outcome)
    requires Fits(layout, prior) && Fits(layout, incoming)
    ensures groups == MergeGroups(layout, prior, incoming, mc)
    ensures outcome == MergeOutcome(layout, prior, incoming, mc)
  {
    var fields, seen := MergeAllFields(layout, prior, incoming, mc);
    var lists;
    lists, outcome := MergeWhitelists(prior, incoming, mc, seen, FieldReports(layout, prior, incoming, mc, |layout|));
    groups := seq(|layout|, g requires 0 <= g < |layout| == |fields| == |lists| => Group(fields[g], lists[g]));
  }

  class FixedReplicatedState<V(==)> {
    const layout: Layout<V>
    const capacity: nat
    var groups: seq<Group<V>>
    var sequence: SequenceNumber
    var lastModified: SequenceNumber
    var fullyMerged: bool
    var newNetworkData: bool
    var detectedNewData: bool

    ghost predicate Valid()
      reads this
    {
      Supported(layout) && Fits(layout, groups)
    }

    constructor (layout: Layout<V>, capacity: nat)
      requires Supported(layout)
      ensures Valid() && this.layout == layout && this.capacity == capacity
      ensures groups == ConstructedGroups(layout)
      ensures sequence == Invalid && lastModified == Invalid && !fullyMerged && !newNetworkData && !detectedNewData
    {
      this.layout, this.capacity := layout, capacity;
      groups := ConstructedGroups(layout);
      sequence, lastModified := Invalid, Invalid;
      fullyMerged, newNetworkData, detectedNewData := false, false, false;
    }

    predicate IsFragmentDirty(b: SequenceNumber)
      reads this
    {
      b.Lt(lastModified)
    }

    /** Replaces one whitelist; out of range, nothing happens. */
    method ChangeWhitelist(g: nat, step: WhitelistStep) returns (changed: bool)
      requires Valid()
      modifies this`groups
      ensures Valid()
      ensures g >= |old(groups)| ==> groups == old(groups) && !changed
      ensures g < |old(groups)| ==>
                && groups == old(groups)[g := old(groups)[g].(whitelist := WhitelistAfter(old(groups)[g].whitelist,
                                                                                          step, capacity))]
                && (changed <==> Whitelisted(groups[g].whitelist) != Whitelisted(old(groups)[g].whitelist))
    {
      if g >= |groups| {
        return false;
      }
      var whitelist := WhitelistAfter(groups[g].whitelist, step, capacity);
      StepOnList(groups[g].whitelist, step, capacity);
      changed := Whitelisted(whitelist) != Whitelisted(groups[g].whitelist);
      groups := groups[g := groups[g].(whitelist := whitelist)];
    }

    /** Empties the owned group's whitelist, then adds the owner. */
    method SetOwningPlayer(owner: Client, g: nat)
      requires Valid() && g < |layout| && capacity > 0
      modifies this`groups
      ensures Valid()
      ensures groups == old(groups)[g := old(groups)[g].(whitelist := SetOwner(old(groups)[g].whitelist, owner,
                                                                               capacity))]
      ensures forall c :: ShouldSend(groups, c, g) <==> c == owner
    {
      var _ := ChangeWhitelist(g, Clear);
      var _ := ChangeWhitelist(g, Add(owner));
      assert SetOwner(old(groups)[g].whitelist, owner, capacity)
          == OwnerRun(old(groups)[g].whitelist, [owner], capacity) by {
        assert [owner][..0] == [];
      }
      forall c
        ensures ShouldSend(groups, c, g) <==> c == owner
      {
        OnlyLastOwnerAllowed(old(groups)[g].whitelist, [owner], capacity, c);
      }
    }

    method MarshalFixedContents(mc: MarshalContext, wb: WriteBuffer) returns (wrote: bool)
      requires Valid()
      modifies wb
      ensures wrote == Contents(layout, groups, mc).Some?
      ensures wb.data == old(wb.data) + SectionBytes(Contents(layout, groups, mc))
    {
      var out := MarshalContents(layout, groups, mc);
      wrote := out.Some?;
      if wrote {
        wb.WriteBytes(out.value);
      }
    }

    /** Decodes into this state; on failure it keeps what was decoded before. */
    method UnmarshalFixedContents(s: seq<byte>) returns (r: Decoded<bool>)
      requires Valid()
      modifies this`groups
      ensures Valid() && groups == ContentsLeft(layout, old(groups), s)
      ensures r == match ReadContents(layout, old(groups), s) case Ok(read, rest) => Ok(read.readAny,
                                                                                        rest) case Err(e) => Err(e)
      ensures r.Ok? ==> groups == ReadContents(layout, old(groups), s).value.groups
    {
      ContentsLeftOnSuccess(layout, groups, s);
      var read, left := UnmarshalContents(layout, groups, s);
      groups := left;
      match read
      case Ok(state, rest) => r := Ok(state.readAny, rest);
      case Err(e) => r := Err(e);
    }

    /** A new state holding the merge of this one and an incoming one; neither is changed. */
    method MergeFixedAndUpdateSequence(incoming: FixedReplicatedState<V>, mc: MergeContext)
      returns (merged: FixedReplicatedState<V>)
      requires Valid() && incoming.Valid() && incoming.layout == layout
      ensures fresh(merged) && merged.Valid() && merged.layout == layout && merged.capacity == capacity
      ensures merged.groups == MergeGroups(layout, groups, incoming.groups, mc)
      ensures merged.sequence == mc.stamp && merged.fullyMerged
      ensures forall b: SequenceNumber :: merged.IsFragmentDirty(b) <==> SomethingNewer(merged.groups, b)
      ensures merged.detectedNewData == MergeOutcome(layout, groups, incoming.groups, mc).detected
      ensures merged.newNetworkData == MergeOutcome(layout, groups, incoming.groups, mc).newNetworkData
    {
      merged := new FixedReplicatedState<V>(layout, capacity);
      var mergedGroups, outcome := MergeState(layout, groups, incoming.groups, mc);
      merged.groups, merged.sequence, merged.lastModified := mergedGroups, mc.stamp, outcome.lastModified;
      merged.fullyMerged, merged.newNetworkData, merged.detectedNewData := true, outcome.newNetworkData,
                                                                           outcome.detected;
      forall b: SequenceNumber
        ensures merged.IsFragmentDirty(b) <==> SomethingNewer(merged.groups, b)
      {
        DirtySummary(layout, groups, incoming.groups, mc, b);
      }
    }
  }
}
