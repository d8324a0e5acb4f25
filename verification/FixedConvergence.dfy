/**
 Convergence of fixed states: over every run of merges, what a sender writes for a client
 since a baseline, decoded into a new state and merged, brings a receiver that agreed with
 the sender at the baseline to the sender's current values.
 */
module FixedConvergence {
  import opened Wire
  import opened SequenceNumbers
  import opened Fields
  import opened FixedModel
  import opened FixedWire

  /** A state's groups and the merges run on them, oldest first. */
  datatype StateRun<V(==)> =
    | Start(groups: seq<Group<V>>)
    | Then(before: StateRun<V>, incoming: seq<Group<V>>, mc: MergeContext)
  {
    ghost predicate Fitting(layout: Layout<V>) {
      match this
      case Start(groups) => Fits(layout, groups)
      case Then(before, incoming, _) => before.Fitting(layout) && Fits(layout, incoming)
    }

    ghost function State(layout: Layout<V>): (r: seq<Group<V>>)
      requires Fitting(layout)
      ensures Fits(layout, r)
    {
      match this
      case Start(groups) => groups
      case Then(before, incoming, mc) => MergeGroups(layout, before.State(layout), incoming, mc)
    }

    /** The history of one field. */
    ghost function Project(layout: Layout<V>, g: nat, i: nat): Fields.FieldRun<V>
      requires Fitting(layout) && g < |layout| && i < |layout[g]|
    {
      match this
      case Start(groups) => Fields.FieldRun.Start(groups[g].fields[i])
      case Then(before, incoming, mc) =>
        Fields.FieldRun.Then(before.Project(layout, g, i), incoming[g].fields[i], mc.stamp, mc.inherit)
    }
  }

  /** Stamps come with values, and values are ones the field's codec admits. */
  ghost predicate WellFormedField<V>(spec: FieldSpec<V>, f: Field<V>) {
    WellStamped(f) && (f.value.Some? ==> spec.admits(f.value.value))
  }

  ghost predicate WellFormed<V>(layout: Layout<V>, groups: seq<Group<V>>) {
    && Fits(layout, groups)
    && forall g, i :: 0 <= g < |layout| && 0 <= i < |layout[g]| ==> WellFormedField(layout[g][i], groups[g].fields[i])
  }

  /** Runs of merges of well-formed states at valid sequences. */
  ghost predicate ValidStateRun<V>(layout: Layout<V>, run: StateRun<V>) {
    match run
    case Start(groups) => WellFormed(layout, groups)
    case Then(before, incoming, mc) => ValidStateRun(layout, before) && WellFormed(layout, incoming)
                                       && mc.stamp.IsValid()
  }

  lemma {:induction false} ValidRunsFit<V>(layout: Layout<V>, run: StateRun<V>)
    requires ValidStateRun(layout, run)
    ensures run.Fitting(layout)
  {
    if run.Then? {
      ValidRunsFit(layout, run.before);
    }
  }

  /** A supported layout of plain fields whose codecs read back. */
  ghost predicate LawfulLayout<V(!new)>(layout: Layout<V>) {
    && Supported(layout)
    && (forall g :: 0 <= g < |layout| ==> AllReadBack(layout[g]))
    && (forall g, i :: 0 <= g < |layout| && 0 <= i < |layout[g]| ==> IsPlain(layout[g][i]))
  }

  lemma MergeKeepsWellFormed<V>(spec: FieldSpec<V>, prior: Field<V>, incoming: Field<V>, mc: MergeContext)
    requires WellFormedField(spec, prior) && WellFormedField(spec, incoming) && spec.admits(spec.zero)
    ensures WellFormedField(spec, Merge(prior, incoming, mc.stamp, mc.inherit, spec.zero).field)
  {
  }

  /** A field of the merged state is what its own history makes of it, and stays well formed. */
  lemma {:induction false} Projection<V(!new)>(layout: Layout<V>, run: StateRun<V>, g: nat, i: nat)
    requires LawfulLayout(layout) && ValidStateRun(layout, run) && run.Fitting(layout)
    requires g < |layout| && i < |layout[g]|
    ensures run.Project(layout, g, i).State(layout[g][i].zero) == run.State(layout)[g].fields[i]
    ensures ValidFieldRun(run.Project(layout, g, i))
    ensures WellFormedField(layout[g][i], run.State(layout)[g].fields[i])
  {
    assert ReadsBackAdmitted(layout[g][i]);
    if run.Then? {
      Projection(layout, run.before, g, i);
      MergeKeepsWellFormed(layout[g][i], run.before.State(layout)[g].fields[i], run.incoming[g].fields[i], run.mc);
    }
  }

  lemma RunIsSendable<V(!new)>(layout: Layout<V>, run: StateRun<V>, mc: MarshalContext)
    requires LawfulLayout(layout) && ValidStateRun(layout, run) && run.Fitting(layout)
    ensures SendableGroups(layout, run.State(layout), mc)
  {
    forall g | 0 <= g < |layout|
      ensures Sendable(layout[g], run.State(layout)[g].fields, mc.BaselineFor(g))
    {
      forall i | 0 <= i < |layout[g]|
        ensures WellFormedField(layout[g][i], run.State(layout)[g].fields[i])
      {
        Projection(layout, run, g, i);
      }
    }
  }

  /** A visible field of a newly constructed state, after decoding, holds what was delivered for it. */
  lemma DeliveredField<V(!new)>(layout: Layout<V>, groups: seq<Group<V>>, mc: MarshalContext, g: nat, i: nat)
    requires Fits(layout, groups) && g < |layout| && i < |layout[g]| && !mc.Hides(groups, g)
    requires WellStamped(groups[g].fields[i]) && IsPlain(layout[g][i])
    ensures DeliveredGroups(layout, groups, ConstructedGroups(layout), mc, 0)[g].fields[i]
         == Delivered(groups[g].fields[i], mc.BaselineFor(g), layout[g][i].registered, layout[g][i].zero)
  {
  }

  /** The receiver shows, for every field the client may see, the sender's value as of that group's baseline. */
  ghost predicate InSyncAtBaselines<V>(layout: Layout<V>, run: StateRun<V>, receiver: seq<Group<V>>, mc: MarshalContext)
    requires run.Fitting(layout)
  {
    && Fits(layout, receiver)
    && forall g, i :: 0 <= g < |layout| && 0 <= i < |layout[g]| && !mc.Hides(run.State(layout), g) ==>
                        receiver[g].fields[i].Effective(layout[g][i].zero)
                        == run.Project(layout, g, i).EffectiveAsOf(mc.BaselineFor(g), layout[g][i].zero)
  }

  /** The receiver after one message: if there was one, it is decoded into a new state, which is merged. */
  ghost predicate Receives<V>(layout: Layout<V>, sent: Option<seq<byte>>, receiver: seq<Group<V>>, how: MergeContext,
                              after: seq<Group<V>>)
    requires Fits(layout, receiver)
  {
    if sent.None? then after == receiver
    else
      var got := ReadContents(layout, ConstructedGroups(layout), sent.value);
      got.Ok? && got.rest == [] && after == MergeGroups(layout, receiver, got.value.groups, how)
  }

  /** The condition under which field (g, i) is brought up to date by a message. */
  predicate BroughtUpToDate<V(==)>(layout: Layout<V>, groups: seq<Group<V>>, mc: MarshalContext, g: nat, i: nat)
    requires Fits(layout, groups) && g < |layout| && i < |layout[g]|
  {
    var f, spec := groups[g].fields[i], layout[g][i];
    f.IsDirtySince(mc.BaselineFor(g)) || spec.registered.None? || spec.registered.value == f.Effective(spec.zero)
  }

  lemma MessageDecodes<V(!new)>(layout: Layout<V>, run: StateRun<V>, mc: MarshalContext)
    requires LawfulLayout(layout) && ValidStateRun(layout, run) && run.Fitting(layout)
    ensures var sent, into := Contents(layout, run.State(layout), mc), ConstructedGroups(layout);
            var delivered := DeliveredGroups(layout, run.State(layout), into, mc, 0);
            if sent.Some? then ReadContents(layout, into, sent.value) == Ok(StateRead(delivered, true), [])
            else delivered == into
  {
    RunIsSendable(layout, run, mc);
    ContentsRoundTrip(layout, run.State(layout), ConstructedGroups(layout), mc, []);
    var sent := Contents(layout, run.State(layout), mc);
    if sent.Some? {
      assert sent.value + [] == sent.value;
    }
  }

  /**
   State convergence, for a message that was sent: every field of every group the client
   may see has the sender's value afterwards, exactly when it was dirty, has no registered
   default, or has that default as its value.
   */
  lemma StateConverges<V(!new)>(layout: Layout<V>, run: StateRun<V>, receiver: seq<Group<V>>, mc: MarshalContext,
                                how: MergeContext, after: seq<Group<V>>, g: nat, i: nat)
    requires LawfulLayout(layout) && ValidStateRun(layout, run) && run.Fitting(layout)
    requires InSyncAtBaselines(layout, run, receiver, mc)
    requires Contents(layout, run.State(layout), mc).Some?
    requires Receives(layout, Contents(layout, run.State(layout), mc), receiver, how, after)
    requires g < |layout| && i < |layout[g]| && !mc.Hides(run.State(layout), g)
    ensures after[g].fields[i].Effective(layout[g][i].zero)
         == run.State(layout)[g].fields[i].Effective(layout[g][i].zero)
       <==> BroughtUpToDate(layout, run.State(layout), mc, g, i)
  {
    MessageDecodes(layout, run, mc);
    Projection(layout, run, g, i);
    DeliveredField(layout, run.State(layout), mc, g, i);
    FieldConverges(run.Project(layout, g, i), mc.BaselineFor(g), receiver[g].fields[i], layout[g][i].registered,
                   how.stamp, how.inherit, layout[g][i].zero);
  }

  /** When nothing is sent, every field the client may see already has the sender's value. */
  lemma SilenceMeansInSync<V(!new)>(layout: Layout<V>, run: StateRun<V>, receiver: seq<Group<V>>, mc: MarshalContext,
                                    g: nat, i: nat)
    requires LawfulLayout(layout) && ValidStateRun(layout, run) && run.Fitting(layout)
    requires InSyncAtBaselines(layout, run, receiver, mc)
    requires Contents(layout, run.State(layout), mc).None?
    requires g < |layout| && i < |layout[g]| && !mc.Hides(run.State(layout), g)
    ensures receiver[g].fields[i].Effective(layout[g][i].zero)
         == run.State(layout)[g].fields[i].Effective(layout[g][i].zero)
  {
    ContentsPresent(layout, run.State(layout), mc);
    Projection(layout, run, g, i);
    CleanMeansUnchanged(run.Project(layout, g, i), mc.BaselineFor(g), layout[g][i].zero);
  }

  /**
   A message leaves a field of a group the client may not see with the receiver's value,
   exactly when the receiving constructor registers no other default for it.
   */
  lemma HiddenFieldsKept<V(!new)>(layout: Layout<V>, run: StateRun<V>, receiver: seq<Group<V>>, mc: MarshalContext,
                                  how: MergeContext, after: seq<Group<V>>, g: nat, i: nat)
    requires LawfulLayout(layout) && ValidStateRun(layout, run) && run.Fitting(layout) && Fits(layout, receiver)
    requires Contents(layout, run.State(layout), mc).Some?
    requires Receives(layout, Contents(layout, run.State(layout), mc), receiver, how, after)
    requires g < |layout| && i < |layout[g]| && mc.Hides(run.State(layout), g)
    ensures var spec, had := layout[g][i], receiver[g].fields[i].Effective(layout[g][i].zero);
            after[g].fields[i].Effective(spec.zero) == had <==> spec.registered.None? || spec.registered.value == had
    ensures layout[g][i].registered.None? ==> after[g].fields[i].value == receiver[g].fields[i].value
  {
    MessageDecodes(layout, run, mc);
    HiddenFieldMerges(layout, run.State(layout), receiver, mc, how, g, i);
  }

  lemma HiddenFieldMerges<V>(layout: Layout<V>, groups: seq<Group<V>>, receiver: seq<Group<V>>, mc: MarshalContext,
                             how: MergeContext, g: nat, i: nat)
    requires Fits(layout, groups) && Fits(layout, receiver) && g < |layout| && i < |layout[g]| && mc.Hides(groups, g)
    ensures MergeGroups(layout, receiver, DeliveredGroups(layout, groups, ConstructedGroups(layout), mc, 0),
                        how)[g].fields[i]
         == Merge(receiver[g].fields[i], Constructed(layout[g][i].registered), how.stamp, how.inherit,
                  layout[g][i].zero).field
  {
  }

  /** After a merge a group goes to whom the incoming state sends it, if its whitelist is stamped. */
  lemma MergeTakesIncomingWhitelist<V>(layout: Layout<V>, prior: seq<Group<V>>, incoming: seq<Group<V>>,
                                       mc: MergeContext, g: nat, c: Client)
    requires Fits(layout, prior) && Fits(layout, incoming) && g < |layout|
    requires WellStamped(incoming[g].whitelist) && incoming[g].whitelist.lastModified.IsValid()
    ensures ShouldSend(MergeGroups(layout, prior, incoming, mc), c, g) == ShouldSend(incoming, c, g)
  {
  }

  /**
   A new state's whitelists are stamped and empty, so merging any message opens every group
   of the receiver to every client.
   */
  lemma MessageOpensGroups<V(!new)>(layout: Layout<V>, run: StateRun<V>, receiver: seq<Group<V>>, mc: MarshalContext,
                                    how: MergeContext, after: seq<Group<V>>, g: nat, c: Client)
    requires LawfulLayout(layout) && ValidStateRun(layout, run) && run.Fitting(layout) && Fits(layout, receiver)
    requires Contents(layout, run.State(layout), mc).Some?
    requires Receives(layout, Contents(layout, run.State(layout), mc), receiver, how, after)
    requires g < |layout|
    ensures ShouldSend(after, c, g)
  {
    MessageDecodes(layout, run, mc);
    var into := ConstructedGroups(layout);
    var delivered := DeliveredGroups(layout, run.State(layout), into, mc, 0);
    assert delivered[g].whitelist == into[g].whitelist == Listed([]);
    MergeTakesIncomingWhitelist(layout, receiver, delivered, how, g, c);
  }

  // ----- ownership -----

  /** Group `g` handed to one owner after another; nothing else changes. */
  function OwnedBy<V>(groups: seq<Group<V>>, g: nat, owners: seq<Client>, capacity: nat): seq<Group<V>>
    requires g < |groups|
  {
    groups[g := groups[g].(whitelist := OwnerRun(groups[g].whitelist, owners, capacity))]
  }

  /**
   After any run of ownership changes the owned group reaches the last owner and no other
   client: what any other client is sent does not depend on the group's fields at all.
   */
  lemma OwnedGroupStaysPrivate<V>(layout: Layout<V>, groups: seq<Group<V>>, secret: seq<Field<V>>, g: nat,
                                  owners: seq<Client>, capacity: nat, mc: MarshalContext)
    requires Supported(layout) && Fits(layout, groups) && g < |layout| && |secret| == |layout[g]|
    requires owners != [] && capacity > 0 && mc.target.Some?
    ensures ShouldSend(OwnedBy(groups, g, owners, capacity), mc.target.value, g)
       <==> mc.target.value == owners[|owners| - 1]
    ensures var other := groups[g := groups[g].(fields := secret)];
            mc.target.value != owners[|owners| - 1] ==>
              Contents(layout, OwnedBy(groups, g, owners, capacity), mc)
              == Contents(layout, OwnedBy(other, g, owners, capacity), mc)
  {
    OnlyLastOwnerAllowed(groups[g].whitelist, owners, capacity, mc.target.value);
    var other := groups[g := groups[g].(fields := secret)];
    if mc.target.value != owners[|owners| - 1] {
      VisibilityNonInterference(layout, OwnedBy(groups, g, owners, capacity), OwnedBy(other, g, owners, capacity), mc);
    }
  }

  /** So a group that ownership changes had kept for one client is open to every other one after the next message. */
  lemma MessageUndoesOwnership<V(!new)>(layout: Layout<V>, run: StateRun<V>, groups: seq<Group<V>>, owners: seq<Client>,
                                        capacity: nat, mc: MarshalContext, how: MergeContext, after: seq<Group<V>>,
                                        g: nat, c: Client)
    requires LawfulLayout(layout) && ValidStateRun(layout, run) && run.Fitting(layout) && Fits(layout, groups)
    requires g < |layout| && owners != [] && capacity > 0 && c != owners[|owners| - 1]
    requires Contents(layout, run.State(layout), mc).Some?
    requires Receives(layout, Contents(layout, run.State(layout), mc), OwnedBy(groups, g, owners, capacity), how, after)
    ensures !ShouldSend(OwnedBy(groups, g, owners, capacity), c, g) && ShouldSend(after, c, g)
  {
    OnlyLastOwnerAllowed(groups[g].whitelist, owners, capacity, c);
    MessageOpensGroups(layout, run, OwnedBy(groups, g, owners, capacity), mc, how, after, g, c);
  }

  // ----- a registered default in a delta that leaves the field out -----

  /** A one-byte field. */
  function ByteField(registered: Option<int>): FieldSpec<int> {
    FieldSpec((x: int, _: SequenceNumber) => if 0 <= x < 0x100 then [x] else [],
              (s: seq<byte>) => match ReadByte(s) case Ok(b, rest) => Ok(b as int, rest) case Err(e) => Err(e),
              (x: int, _: SequenceNumber) => x, (x: int) => 0 <= x < 0x100, 0, registered)
  }

  /** One group of two one-byte fields, the first with a registered default. */
  function TwoFields(default_: byte): Layout<int> { [[ByteField(Some(default_)), ByteField(None)]] }

  function Pair(first: Field<int>, second: Field<int>): seq<Group<int>> { [Group([first, second], Listed([]))] }

  /** Both fields set at 1, and then the second alone at 3. */
  function TwoFieldRun(x: byte): StateRun<int> {
    StateRun.Then(StateRun.Start(Pair(Field(Some(x as int), Seq(1), None, true), Field(Some(8), Seq(1), None, true))),
                  Pair(FreshField(), Arrived(9)), MergeContext(Seq(3), false))
  }

  lemma ByteFieldReadsBack(registered: Option<int>)
    ensures ReadsBackAdmitted(ByteField(registered)) && IsPlain(ByteField(registered))
  {
    var spec := ByteField(registered);
    forall x: int, b: SequenceNumber, rest: seq<byte> | spec.admits(x)
      ensures spec.decode(spec.encode(x, b) + rest) == Ok(x, rest)
    {
      assert ([x] + rest)[1..] == rest;
    }
  }

  lemma TwoFieldsLawful(default_: byte)
    ensures LawfulLayout(TwoFields(default_))
  {
    ByteFieldReadsBack(Some(default_));
    ByteFieldReadsBack(None);
  }

  lemma TwoFieldRunFacts(x: byte, default_: byte)
    ensures ValidStateRun(TwoFields(default_), TwoFieldRun(x)) && TwoFieldRun(x).Fitting(TwoFields(default_))
    ensures TwoFieldRun(x).State(TwoFields(default_))[0].fields
         == [Field(Some(x as int), Seq(1), None, false), Field(Some(9), Seq(3), None, true)]
  {
    var layout, run := TwoFields(default_), TwoFieldRun(x);
    assert run.before.Fitting(layout);
    assert |run.State(layout)[0].fields| == 2;
  }

  lemma TwoFieldMessage(x: byte, default_: byte)
    ensures TwoFieldRun(x).Fitting(TwoFields(default_)) && Supported(TwoFields(default_))
    ensures var layout, run, mc := TwoFields(default_), TwoFieldRun(x), MarshalContext(Seq(2), None, None);
            Contents(layout, run.State(layout), mc).Some? && InSyncAtBaselines(layout, run, run.before.groups, mc)
  {
    var layout, run, mc := TwoFields(default_), TwoFieldRun(x), MarshalContext(Seq(2), None, None);
    TwoFieldRunFacts(x, default_);
    ContentsPresent(layout, run.State(layout), mc);
    assert run.State(layout)[0].fields[1].IsDirtySince(mc.BaselineFor(0));
  }

  /**
   A receiver in sync, an unrelated delta, and a first field whose registered default is not
   its value: the delta carries the second field only, and merging it sets the first to the
   default.
   */
  lemma UnrelatedDeltaResetsField(x: byte, default_: byte, how: MergeContext) returns (after: seq<Group<int>>)
    requires x != default_
    ensures var layout, run, mc := TwoFields(default_), TwoFieldRun(x), MarshalContext(Seq(2), None, None);
            && LawfulLayout(layout) && ValidStateRun(layout, run) && run.Fitting(layout)
            && InSyncAtBaselines(layout, run, run.before.groups, mc)
            && Receives(layout, Contents(layout, run.State(layout), mc), run.before.groups, how, after)
            && after[0].fields[0].Effective(0) != run.State(layout)[0].fields[0].Effective(0)
  {
    var layout, run, mc := TwoFields(default_), TwoFieldRun(x), MarshalContext(Seq(2), None, None);
    TwoFieldsLawful(default_);
    TwoFieldRunFacts(x, default_);
    TwoFieldMessage(x, default_);
    MessageDecodes(layout, run, mc);
    after := MergeGroups(layout, run.before.groups,
                         DeliveredGroups(layout, run.State(layout), ConstructedGroups(layout), mc, 0), how);
    StateConverges(layout, run, run.before.groups, mc, how, after, 0, 0);
  }
}
