/**
 Sessions of fixed states: a receiver that follows one sender through any number of rounds,
 for one client whose view of the groups may change from round to round. Each group has a
 baseline of its own, the last round in which the client could see it.
 */
module FixedSession {
  import opened Wire
  import opened SequenceNumbers
  import opened Fields
  import opened FixedModel
  import opened FixedWire
  import opened FixedConvergence

  ghost function LastStamp<V>(run: StateRun<V>): SequenceNumber { if run.Start? then Invalid else run.mc.stamp }

  /** The later run is the earlier one followed by merges newer than `last`. */
  ghost predicate ContinuesAfter<V>(later: StateRun<V>, earlier: StateRun<V>, last: SequenceNumber) {
    later == earlier || (later.Then? && last.Lt(later.mc.stamp) && ContinuesAfter(later.before, earlier, last))
  }

  /** Later merges do not change what a field showed at a sequence the sender has passed. */
  lemma {:induction false} PastIsFixed<V>(layout: Layout<V>, later: StateRun<V>, earlier: StateRun<V>,
                                          last: SequenceNumber,
                                          b: SequenceNumber, g: nat, i: nat)
    requires later.Fitting(layout) && earlier.Fitting(layout) && ContinuesAfter(later, earlier, last) && b.Le(last)
    requires g < |layout| && i < |layout[g]|
    ensures later.Project(layout, g, i).EffectiveAsOf(b, layout[g][i].zero)
         == earlier.Project(layout, g, i).EffectiveAsOf(b, layout[g][i].zero)
  {
    if later != earlier {
      PastIsFixed(layout, later.before, earlier, last, b, g, i);
    }
  }

  /**
   A receiver and the rounds it has been through, oldest first: the sender's run, the client,
   and how it was merged.
   */
  datatype Session<V(==)> =
    | Opened(receiver: seq<Group<V>>)
    | Round(earlier: Session<V>, run: StateRun<V>, target: Option<Client>, how: MergeContext)
  {
    /** The shapes fit throughout. */
    ghost predicate Shaped(layout: Layout<V>) {
      match this
      case Opened(receiver) => Supported(layout) && Fits(layout, receiver)
      case Round(earlier, run, _, _) => earlier.Shaped(layout) && run.Fitting(layout)
    }

    /** Per group, the sequence the receiver was last in sync at. */
    ghost function Baselines(layout: Layout<V>): (r: seq<SequenceNumber>)
      requires Shaped(layout)
      ensures |r| == |layout|
      decreases this, 1
    {
      if Opened? then seq(|layout|, _ => Invalid)
      else
        seq(|layout|, g requires 0 <= g < |layout| =>
          if Context(layout).Hides(run.State(layout), g) then earlier.Baselines(layout)[g] else LastStamp(run))
    }

    /** What this round is marshalled with. */
    ghost function Context(layout: Layout<V>): (mc: MarshalContext)
      requires Round? && Shaped(layout)
      ensures forall g :: 0 <= g < |layout| ==> mc.BaselineFor(g) == earlier.Baselines(layout)[g]
      decreases this, 0
    {
      MarshalContext(Invalid, target, Some(earlier.Baselines(layout)))
    }

    ghost function Sent(layout: Layout<V>): Option<seq<byte>>
      requires Round? && Shaped(layout) && Supported(layout)
    {
      Contents(layout, run.State(layout), Context(layout))
    }

    ghost function Receiver(layout: Layout<V>): (r: seq<Group<V>>)
      requires Shaped(layout) && Supported(layout)
      ensures Fits(layout, r)
    {
      if Opened? then receiver
      else if Sent(layout).None? then earlier.Receiver(layout)
      else
        match ReadContents(layout, ConstructedGroups(layout), Sent(layout).value)
        case Ok(got, _) => MergeGroups(layout, earlier.Receiver(layout), got.groups, how)
        case Err(_) => earlier.Receiver(layout)
    }
  }

  /** No field of the layout has a registered default. */
  ghost predicate Unregistered<V>(layout: Layout<V>) {
    forall g, i :: 0 <= g < |layout| && 0 <= i < |layout[g]| ==> layout[g][i].registered.None?
  }

  /** The receiver shows, for every field of every group, the sender's value as of that group's baseline. */
  ghost predicate InSync<V>(layout: Layout<V>, run: StateRun<V>, receiver: seq<Group<V>>,
                            baselines: seq<SequenceNumber>)
    requires run.Fitting(layout) && Fits(layout, receiver) && |baselines| == |layout|
  {
    forall g, i :: 0 <= g < |layout| && 0 <= i < |layout[g]| ==>
                     receiver[g].fields[i].Effective(layout[g][i].zero)
                     == run.Project(layout, g, i).EffectiveAsOf(baselines[g], layout[g][i].zero)
  }

  /** Each round's run continues the one before; the first receiver shows what the sender started with. */
  ghost predicate ValidSession<V(!new)>(layout: Layout<V>, s: Session<V>) {
    && LawfulLayout(layout) && s.Shaped(layout)
    && (s.Round? ==>
          && ValidStateRun(layout, s.run) && ValidSession(layout, s.earlier)
          && (if s.earlier.Opened? then InSync(layout, s.run, s.earlier.receiver, s.earlier.Baselines(layout))
              else ContinuesAfter(s.run, s.earlier.run, LastStamp(s.earlier.run))
                   && LastStamp(s.earlier.run).Le(LastStamp(s.run))))
  }

  lemma {:induction false} BaselinesBounded<V(!new)>(layout: Layout<V>, s: Session<V>, g: nat)
    requires s.Round? && ValidSession(layout, s) && g < |layout|
    ensures s.Baselines(layout)[g].Le(LastStamp(s.run))
  {
    if s.earlier.Round? {
      BaselinesBounded(layout, s.earlier, g);
    }
  }

  /** Before a round, against the run it is about to send. */
  lemma {:induction false} StillInSync<V(!new)>(layout: Layout<V>, s: Session<V>)
    requires s.Round? && ValidSession(layout, s)
    requires s.earlier.Round? ==> InSync(layout, s.earlier.run, s.earlier.Receiver(layout), s.earlier.Baselines(layout))
    ensures InSync(layout, s.run, s.earlier.Receiver(layout), s.earlier.Baselines(layout))
  {
    if s.earlier.Round? {
      forall g, i | 0 <= g < |layout| && 0 <= i < |layout[g]|
        ensures s.run.Project(layout, g, i).EffectiveAsOf(s.earlier.Baselines(layout)[g], layout[g][i].zero)
             == s.earlier.run.Project(layout, g, i).EffectiveAsOf(s.earlier.Baselines(layout)[g], layout[g][i].zero)
      {
        BaselinesBounded(layout, s.earlier, g);
        PastIsFixed(layout, s.run, s.earlier.run, LastStamp(s.earlier.run), s.earlier.Baselines(layout)[g], g, i);
      }
    }
  }

  /**
   What one round does to one field: it shows the sender's value if the client may see it,
   and else what it showed.
   */
  lemma {:induction false} RoundOutcome<V(!new)>(layout: Layout<V>, s: Session<V>, g: nat, i: nat)
    requires s.Round? && ValidSession(layout, s) && Unregistered(layout) && g < |layout| && i < |layout[g]|
    requires InSync(layout, s.run, s.earlier.Receiver(layout), s.earlier.Baselines(layout))
    ensures s.Receiver(layout)[g].fields[i].Effective(layout[g][i].zero)
         == if s.Context(layout).Hides(s.run.State(layout), g) then
              s.earlier.Receiver(layout)[g].fields[i].Effective(layout[g][i].zero)
            else s.run.State(layout)[g].fields[i].Effective(layout[g][i].zero)
  {
    var mc, receiver, after := s.Context(layout), s.earlier.Receiver(layout), s.Receiver(layout);
    MessageDecodes(layout, s.run, mc);
    if s.Sent(layout).Some? {
      if mc.Hides(s.run.State(layout), g) {
        HiddenFieldsKept(layout, s.run, receiver, mc, s.how, after, g, i);
      } else {
        StateConverges(layout, s.run, receiver, mc, s.how, after, g, i);
      }
    } else if !mc.Hides(s.run.State(layout), g) {
      SilenceMeansInSync(layout, s.run, receiver, mc, g, i);
    }
  }

  lemma {:induction false} EffectiveAtLast<V(!new)>(layout: Layout<V>, run: StateRun<V>, g: nat, i: nat)
    requires LawfulLayout(layout) && ValidStateRun(layout, run) && run.Fitting(layout) && g < |layout|
             && i < |layout[g]|
    ensures run.Project(layout, g, i).EffectiveAsOf(LastStamp(run), layout[g][i].zero)
         == run.State(layout)[g].fields[i].Effective(layout[g][i].zero)
  {
    Projection(layout, run, g, i);
  }

  /**
   A session stays in sync: after every round, every field of every group the client may see
   in it shows the sender's current value, and every field of any other group the value it
   had when the client last saw the group.
   */
  lemma {:induction false} SessionStaysInSync<V(!new)>(layout: Layout<V>, s: Session<V>)
    requires s.Round? && ValidSession(layout, s) && Unregistered(layout)
    ensures InSync(layout, s.run, s.Receiver(layout), s.Baselines(layout))
    ensures forall g, i :: 0 <= g < |layout| && 0 <= i < |layout[g]|
                           && !s.Context(layout).Hides(s.run.State(layout), g) ==>
                             s.Receiver(layout)[g].fields[i].Effective(layout[g][i].zero)
                             == s.run.State(layout)[g].fields[i].Effective(layout[g][i].zero)
  {
    if s.earlier.Round? {
      SessionStaysInSync(layout, s.earlier);
    }
    StillInSync(layout, s);
    forall g, i | 0 <= g < |layout| && 0 <= i < |layout[g]|
      ensures s.Receiver(layout)[g].fields[i].Effective(layout[g][i].zero)
           == s.run.Project(layout, g, i).EffectiveAsOf(s.Baselines(layout)[g], layout[g][i].zero)
      ensures !s.Context(layout).Hides(s.run.State(layout), g) ==>
                s.Receiver(layout)[g].fields[i].Effective(layout[g][i].zero)
                == s.run.State(layout)[g].fields[i].Effective(layout[g][i].zero)
    {
      RoundOutcome(layout, s, g, i);
      EffectiveAtLast(layout, s.run, g, i);
    }
  }
}
