/**
 Sessions: a receiver that follows one sender's container through any number of rounds, each
 sent against the last sequence at which the two were in sync.
 */
module ContainerSession {
  import opened Wire
  import opened SequenceNumbers
  import opened ContainerModel
  import opened ContainerHistory
  import opened ContainerWire
  import opened ContainerConvergence

  /** The later run is the earlier one followed by more merges. */
  ghost predicate Continues<K, V>(later: History<K, V>, earlier: History<K, V>) {
    later == earlier || (!later.Start? && Continues(later.before, earlier))
  }

  lemma {:induction false} ContinuingIsNewer<K, V>(later: History<K, V>, earlier: History<K, V>,
                                                   baseline: SequenceNumber)
    requires ValidRun(later) && Continues(later, earlier) && baseline.Le(earlier.LastStamp())
    ensures ExtendsSince(later, earlier, baseline) && ValidRun(earlier) && earlier.LastStamp().Le(later.LastStamp())
  {
    if later != earlier {
      ContinuingIsNewer(later.before, earlier, baseline);
    }
  }

  /** Later merges do not change what the container held at a sequence it has passed, nor that it passed it. */
  lemma {:induction false} PastIsFixed<K, V>(later: History<K, V>, earlier: History<K, V>, baseline: SequenceNumber)
    requires ValidRun(later) && Continues(later, earlier) && Reached(earlier, baseline)
    ensures later.ValuesAsOf(baseline) == earlier.ValuesAsOf(baseline) && Reached(later, baseline)
  {
    ValidPast(later, earlier);
    ReachedIsBounded(earlier, baseline);
    ContinuingIsNewer(later, earlier, baseline);
    ExtensionKeepsValues(later, earlier, baseline);
    ExtensionReaches(later, earlier, baseline, baseline);
  }

  lemma {:induction false} ValidPast<K, V>(later: History<K, V>, earlier: History<K, V>)
    requires ValidRun(later) && Continues(later, earlier)
    ensures ValidRun(earlier)
  {
    if later != earlier {
      ValidPast(later.before, earlier);
    }
  }

  /**
   What the sender has when a round is made, and the choices left open: the size test,
   iteration order, how it is merged.
   */
  datatype Sending<K, V> = Sending(h: History<K, V>, inefficient: bool, entries: seq<(K, V)>, at: SequenceNumber,
                                   inherit: bool)

  /** A receiver and the rounds it has been through, oldest first. */
  datatype Session<K, V> = Opened(receiver: Container<K, V>) | Round(earlier: Session<K, V>, sending: Sending<K, V>) {

    /** The last sequence at which the receiver was in sync, from which the next round is sent. */
    ghost function Synced(f: Format<K, V>): SequenceNumber
      decreases this, 2
    {
      if Opened? then Invalid else if UpToDate(f) then sending.h.LastStamp() else earlier.Synced(f)
    }

    /**
     This round left the receiver in sync: it took the payload, or there was nothing to send to
     a receiver in sync before.
     */
    ghost predicate UpToDate(f: Format<K, V>)
      requires Round?
      decreases this, 1
    {
      if Sent(f) then Taken(f) else earlier.Synced(f).IsValid()
    }

    /** The container was dirty, so this round sent something. */
    ghost predicate Sent(f: Format<K, V>)
      requires Round?
      decreases this, 0
    {
      IsDirty(sending.h.State(), earlier.Synced(f))
    }

    /** The receiver's mark let the payload of this round in. */
    ghost predicate Taken(f: Format<K, V>)
      requires Round?
      decreases this, 0
    {
      Takes(earlier.Receiver(f), PayloadStamp(sending.h.State(), earlier.Synced(f), sending.inefficient))
    }

    /** What came over the wire in this round. */
    ghost function Arrived(f: Format<K, V>): Decoded<Container<K, V>>
      requires Round?
      decreases this, 0
    {
      if |sending.entries| < 0x1_0000_0000 then
        DecodeContainer(f, MarshalSince(f, sending.h.State(), earlier.Synced(f), sending.inefficient, sending.entries))
      else Err(ContainerOverflow(|sending.entries|, f.cap))
    }

    ghost function Receiver(f: Format<K, V>): Container<K, V>
      decreases this, 1
    {
      if Opened? then receiver
      else if !Sent(f) || Arrived(f).Err? then earlier.Receiver(f)
      else Merge(Fresh(), earlier.Receiver(f), Arrived(f).value, sending.at, sending.inherit)
    }
  }

  /** The sender's side of a round: an unbroken run that only ever took over successors, within the format's caps. */
  ghost predicate Sendable<K(!new), V>(f: Format<K, V>, s: Sending<K, V>) {
    && ValidRun(s.h) && Unbroken(s.h) && TakesOverSuccessors(s.h) && !s.h.Start?
    && Enumerates(s.entries, s.h.State().values)
    && |s.h.State().values| <= f.cap && |s.h.State().values| < 0x1_0000_0000
  }

  /** Every round continues the run of the round before, and a delta is sent only for a baseline the journal covers. */
  ghost predicate ValidSession<K(!new), V(!new)>(f: Format<K, V>, s: Session<K, V>) {
    match s
    case Opened(_) => LawfulFormat(f)
    case Round(earlier, sending) =>
      && ValidSession(f, earlier) && Sendable(f, sending)
      && (earlier.Round? ==> Continues(sending.h, earlier.sending.h))
      && var sent := DeltaSent(sending.h.State(), earlier.Synced(f), sending.inefficient);
      sent != [] ==> |sent| <= f.cap && Covers(sending.h.State().journal, earlier.Synced(f))
  }

  /** The receiver holds the sender's values as of the last sequence they were in sync at. */
  ghost predicate Following<K(!new), V(!new)>(f: Format<K, V>, s: Session<K, V>)
    requires s.Round?
  {
    s.Synced(f).IsValid() ==>
      Reached(s.sending.h, s.Synced(f)) && s.Receiver(f).values == s.sending.h.ValuesAsOf(s.Synced(f))
  }

  /** Before a round, against the run it is about to send. */
  lemma {:induction false} StillFollowing<K(!new), V(!new)>(f: Format<K, V>, s: Session<K, V>)
    requires s.Round? && ValidSession(f, s) && (s.earlier.Round? ==> Following(f, s.earlier))
    ensures s.earlier.Synced(f).IsValid() ==>
              && Reached(s.sending.h, s.earlier.Synced(f)) && Steady(s.sending.h, s.earlier.Synced(f))
              && s.earlier.Receiver(f).values == s.sending.h.ValuesAsOf(s.earlier.Synced(f))
  {
    var b := s.earlier.Synced(f);
    if b.IsValid() {
      PastIsFixed(s.sending.h, s.earlier.sending.h, b);
      OwnBaselinesAreSteady(s.sending.h, b);
    }
  }

  /** What one sending does to a receiver that held the sender's values as of a valid baseline, or any without one. */
  lemma {:induction false} SendingOutcome<K(!new), V(!new)>(f: Format<K, V>, x: Sending<K, V>, b: SequenceNumber,
                                                            receiver: Container<K, V>)
    returns (payload: Container<K, V>)
    requires LawfulFormat(f) && Sendable(f, x)
    requires b.IsValid() ==> Steady(x.h, b) && receiver.values == x.h.ValuesAsOf(b)
    requires var sent := DeltaSent(x.h.State(), b, x.inefficient);
             sent != [] ==> |sent| <= f.cap && Covers(x.h.State().journal, b)
    ensures DecodeContainer(f, MarshalSince(f, x.h.State(), b, x.inefficient, x.entries)) == Ok(payload, [])
    ensures Outcome(receiver, payload, x.at, x.inherit, PayloadStamp(x.h.State(), b, x.inefficient), x.h.State().values)
  {
    var c := x.h.State();
    MergedIsClean(x.h);
    MergedRunSends(x.h);
    payload := ContainerConverges(f, x.h, c, b, x.inefficient, x.entries, receiver, x.at, x.inherit, []);
    var bytes := MarshalSince(f, c, b, x.inefficient, x.entries);
    assert bytes + [] == bytes;
  }

  /**
   A round that sends something gives the receiver exactly the sender's values if it takes
   it, and changes none if not.
   */
  lemma {:induction false} RoundOutcome<K(!new), V(!new)>(f: Format<K, V>, s: Session<K, V>)
    requires s.Round? && ValidSession(f, s) && (s.earlier.Round? ==> Following(f, s.earlier)) && s.Sent(f)
    ensures s.Receiver(f).values == if s.Taken(f) then s.sending.h.State().values else s.earlier.Receiver(f).values
  {
    StillFollowing(f, s);
    LawfulThroughout(f, s);
    var payload := SendingOutcome(f, s.sending, s.earlier.Synced(f), s.earlier.Receiver(f));
  }

  lemma {:induction false} LawfulThroughout<K(!new), V(!new)>(f: Format<K, V>, s: Session<K, V>)
    requires ValidSession(f, s)
    ensures LawfulFormat(f)
  {
    if s.Round? {
      LawfulThroughout(f, s.earlier);
    }
  }

  /**
   A session stays in sync: after every round that left the receiver up to date it holds
   exactly the sender's values, and after any other it still holds those of the last round
   that did, from which the next one is sent.
   */
  lemma {:induction false} SessionStaysInSync<K(!new), V(!new)>(f: Format<K, V>, s: Session<K, V>)
    requires s.Round? && ValidSession(f, s)
    ensures Following(f, s)
    ensures s.UpToDate(f) ==> s.Receiver(f).values == s.sending.h.State().values
  {
    if s.earlier.Round? {
      SessionStaysInSync(f, s.earlier);
    }
    StillFollowing(f, s);
    ValuesAtLast(s.sending.h, s.sending.h.LastStamp());
    if s.Sent(f) {
      RoundOutcome(f, s);
    } else if s.earlier.Synced(f).IsValid() {
      CleanMeansUnchanged(s.sending.h, s.earlier.Synced(f));
    }
  }
}
