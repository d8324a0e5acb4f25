/**
 Replicated containers over map storage: the values, the edits since the last merge,
 the ten-slot journal of merged change sets, and the three-way merge.

 The functions here are the specification; `ContainerState` holds the mutable class
 proved against them.
 */
module ContainerModel {
  import opened Wire
  import opened SequenceNumbers

  const JOURNAL_SIZE: nat := 10

  datatype Change<K, V> =
    | Add(k: K, v: Option<V>, s: SequenceNumber)
    | Update(k: K, v: Option<V>, s: SequenceNumber)
    | Remove(k: K, s: SequenceNumber)
  {
    function Key(): K { k }

    predicate IsLive() { !Remove? }

    function Value(): Option<V> { if Remove? then None else v }

    function Sequence(): SequenceNumber { s }

    /** A change that `ApplyChange` carries out: removals, and live changes that know their value. */
    predicate IsEffective() { Remove? || v.Some? }

    function FillValue(next: V): Change<K, V> {
      match this
      case Add(key, None, n) => Add(key, Some(next), n)
      case Update(key, None, n) => Update(key, Some(next), n)
      case _ => this
    }
  }

  /** No change carries the sequence that means "same as the one before" on the wire. */
  ghost predicate NoRepeatMarker<K, V>(changes: seq<Change<K, V>>) {
    forall c :: c in changes ==> !c.Sequence().Same(ValidNonSequence)
  }

  datatype ChangeSet<K, V> = ChangeSet(stamp: SequenceNumber, changes: seq<Change<K, V>>)

  datatype Container<K, V> = Container(
    lastModified: SequenceNumber,
    lastFullMarshal: SequenceNumber,
    values: map<K, V>,
    current: seq<Change<K, V>>,
    journal: seq<ChangeSet<K, V>>,
    initialize: bool,
    pendingDelta: bool,
    defaultValue: bool,
    newNetworkData: bool,
    lastProcessed: SequenceNumber)
  {
    function End(): SequenceNumber { if journal == [] then Invalid else journal[|journal| - 1].stamp }
  }

  function Fresh<K, V>(): Container<K, V> {
    Container(Invalid, Invalid, map[], [], [], true, false, false, false, Invalid)
  }

  /** A container built with its values. */
  function Holding<K, V>(stamp: SequenceNumber, values: map<K, V>): Container<K, V> {
    Fresh<K, V>().(lastModified := stamp, values := values)
  }

  function Get<K, V>(m: map<K, V>, k: K): Option<V> {
    if k in m then Some(m[k]) else None
  }

  // ----- storage -----

  /** Map storage: a live change without a value is skipped. */
  function ApplyChange<K, V>(values: map<K, V>, c: Change<K, V>): map<K, V> {
    match c
    case Add(k, Some(v), _) => values[k := v]
    case Update(k, Some(v), _) => values[k := v]
    case Remove(k, _) => values - {k}
    case _ => values
  }

  function Apply<K, V>(values: map<K, V>, changes: seq<Change<K, V>>): map<K, V> {
    if changes == [] then values
    else ApplyChange(Apply(values, changes[..|changes| - 1]), changes[|changes| - 1])
  }

  /** Fills the missing value of a live change from the values the container holds now. */
  function Populate<K, V>(values: map<K, V>, c: Change<K, V>): Change<K, V> {
    if c.IsLive() && c.Value().None? && c.Key() in values then c.FillValue(values[c.Key()]) else c
  }

  function PopulateAll<K, V>(values: map<K, V>, changes: seq<Change<K, V>>): (r: seq<Change<K, V>>)
    ensures |r| == |changes|
    ensures forall i :: 0 <= i < |r| ==> r[i] == Populate(values, changes[i])
  {
    seq(|changes|, i requires 0 <= i < |changes| => Populate(values, changes[i]))
  }

  // ----- local edits -----

  datatype Edit<K, V> = PushAdd(key: K, value: V) | PushUpdate(key: K, value: V) | PushRemove(key: K)

  /** The edit as it acts on the values. */
  function EagerChange<K, V>(e: Edit<K, V>): Change<K, V> {
    match e
    case PushAdd(k, v) => Add(k, Some(v), ValidNonSequence)
    case PushUpdate(k, v) => Update(k, Some(v), ValidNonSequence)
    case PushRemove(k) => Remove(k, ValidNonSequence)
  }

  /** The edit as it is recorded: by key only, with no sequence. */
  function RecordedChange<K, V>(e: Edit<K, V>): Change<K, V> {
    match e
    case PushAdd(k, _) => Add(k, None, Invalid)
    case PushUpdate(k, _) => Update(k, None, Invalid)
    case PushRemove(k) => Remove(k, Invalid)
  }

  /** Records a change, or escalates to an initialise once the list outgrows the container. */
  function PushChange<K, V>(c: Container<K, V>, change: Change<K, V>): Container<K, V> {
    var marked := c.(lastModified := ValidNonSequence, defaultValue := false, pendingDelta := false);
    if c.initialize then marked
    else if |c.current| > |c.values| then marked.(initialize := true, current := [])
    else marked.(current := c.current + [change])
  }

  function Push<K, V>(c: Container<K, V>, e: Edit<K, V>): Container<K, V> {
    PushChange(c.(values := ApplyChange(c.values, EagerChange(e))), RecordedChange(e))
  }

  function PushAll<K, V>(c: Container<K, V>, edits: seq<Edit<K, V>>): Container<K, V> {
    if edits == [] then c
    else Push(PushAll(c, edits[..|edits| - 1]), edits[|edits| - 1])
  }

  // ----- journal and merge -----

  function PushJournal<K, V>(journal: seq<ChangeSet<K, V>>, entry: ChangeSet<K, V>): seq<ChangeSet<K, V>> {
    if |journal| == JOURNAL_SIZE then journal[1..] + [entry] else journal + [entry]
  }

  function ApplyChangeSet<K, V>(c: Container<K, V>, s: SequenceNumber, changes: seq<Change<K, V>>): Container<K, V> {
    c.(values := Apply(c.values, changes), journal := PushJournal(c.journal, ChangeSet(s, changes)))
  }

  /** Applies every incoming change set newer than `end`, in order. */
  function ApplyNewerSets<K, V>(c: Container<K, V>, end: SequenceNumber, sets: seq<ChangeSet<K, V>>): Container<K, V> {
    if sets == [] then c
    else
      var before := ApplyNewerSets(c, end, sets[..|sets| - 1]);
      var last := sets[|sets| - 1];
      if end.Lt(last.stamp) then ApplyChangeSet(before, last.stamp, last.changes) else before
  }

  function MergeChangeSets<K, V>(c: Container<K, V>, incoming: Container<K, V>, s: SequenceNumber): Container<K, V> {
    var c' := ApplyNewerSets(c, c.End(), incoming.journal);
    if incoming.current == [] then c' else ApplyChangeSet(c', s, incoming.current)
  }

  /** Whether a merge finds anything in `new` that `prior` has not processed yet. */
  predicate HasNewValue<K, V>(prior: Container<K, V>, incoming: Container<K, V>) {
    var marked := prior.lastProcessed.IsValid();
    || (incoming.current != [] &&
        (marked ==> prior.lastProcessed.Lt(incoming.current[|incoming.current| - 1].Sequence())))
    || (incoming.initialize && (marked ==> prior.lastProcessed.Lt(incoming.lastFullMarshal)))
    || prior.End().Lt(incoming.End())
  }

  predicate Accepts<K, V>(prior: Container<K, V>, incoming: Container<K, V>) {
    incoming.lastModified.IsValid() && HasNewValue(prior, incoming)
  }

  /** The destination of an accepted merge; only the flags no branch sets come from `dest`. */
  function MergeAccepted<K, V>(dest: Container<K, V>, prior: Container<K, V>, incoming: Container<K, V>,
                               s: SequenceNumber): Container<K, V>
  {
    var accepted := dest.(current := [], initialize := false, lastModified := s, newNetworkData := true);
    if incoming.initialize then
      accepted.(values := incoming.values, lastProcessed := incoming.lastProcessed,
      journal := PushJournal([], ChangeSet(s, incoming.current)))
    else if !incoming.pendingDelta then
      accepted.(values := incoming.values, lastProcessed := incoming.lastProcessed,
      journal := if incoming.current == [] then incoming.journal
      else PushJournal(prior.journal, ChangeSet(s, incoming.current)))
    else
      MergeChangeSets(accepted.(values := prior.values, lastProcessed := prior.lastProcessed, journal := prior.journal),
                      incoming, s)
  }

  /** The destination of a merge of `incoming` onto `prior`. */
  function Merge<K, V>(dest: Container<K, V>, prior: Container<K, V>, incoming: Container<K, V>, s: SequenceNumber,
                       inherit: bool): Container<K, V>
  {
    if Accepts(prior, incoming) then MergeAccepted(dest, prior, incoming, s)
    else
      dest.(current := [], initialize := false, lastModified := s.Min(prior.lastModified), values := prior.values,
      lastProcessed := prior.lastProcessed, journal := prior.journal,
      newNetworkData := inherit && prior.newNetworkData)
  }

  /** A container merged with itself: its own edits become a journal entry, and that always counts as new data. */
  function MergeSelf<K, V>(dest: Container<K, V>, c: Container<K, V>, s: SequenceNumber): Container<K, V> {
    var cleared := dest.(current := [], initialize := false, journal := [], newNetworkData := false,
                   lastProcessed := c.lastProcessed);
    if !c.lastModified.IsValid() then cleared
    else
      cleared.(lastModified := s, values := c.values, newNetworkData := true,
      journal := PushJournal(if c.initialize then [] else c.journal, ChangeSet(s, c.current)))
  }

  // ----- outbound summary -----

  /** The journalled changes newer than the baseline, in journal order. */
  function JournalSince<K, V>(journal: seq<ChangeSet<K, V>>, baseline: SequenceNumber): seq<Change<K, V>> {
    if journal == [] then []
    else
      var before := JournalSince(journal[..|journal| - 1], baseline);
      var last := journal[|journal| - 1];
      if baseline.Lt(last.stamp) then before + last.changes else before
  }

  function ChangesSince<K, V>(c: Container<K, V>, baseline: SequenceNumber): seq<Change<K, V>> {
    JournalSince(c.journal, baseline) + c.current
  }

  /** The delta to send, empty when a snapshot must be sent; `inefficient` stands for the size comparison. */
  function Summarize<K, V>(c: Container<K, V>, baseline: SequenceNumber, inefficient: bool): seq<Change<K, V>> {
    if c.initialize || inefficient then [] else PopulateAll(c.values, ChangesSince(c, baseline))
  }
}
