/**
 Replicated fields: an optional value with an optional default, stamped with the sequence
 at which its effective value last changed, and merged three ways. `Effective` reads an
 absent value as the type's default, `zero`.
 */
module Fields {
  import opened Wire
  import opened SequenceNumbers

  datatype Field<T> = Field(value: Option<T>, lastModified: SequenceNumber, defaultValue: Option<T>,
                            newNetworkData: bool) {

    function Effective(zero: T): T { if value.Some? then value.value else zero }

    predicate IsDirtySince(baseline: SequenceNumber) { lastModified.IsValid() && baseline.Lt(lastModified) }
  }

  predicate IsDefaultValue<T(==)>(f: Field<T>) { f.defaultValue.Some? && f.value == f.defaultValue }

  function FreshField<T>(): Field<T> { Field(None, Invalid, None, false) }

  /** A field holding a value decoded from the wire: new, stamped, and no default. */
  function Arrived<T>(value: T): (r: Field<T>)
    ensures r.newNetworkData && r.IsDirtySince(Invalid) && r.defaultValue.None? && r.value == Some(value)
  {
    Field(Some(value), ValidNonSequence, None, true)
  }

  /** A local write of the default is stored but not stamped, so it is not sent. */
  function SetValue<T(==)>(f: Field<T>, value: T): Field<T> {
    f.(value := Some(value), lastModified := if f.defaultValue == Some(value) then Invalid else ValidNonSequence)
  }

  function SetDefaultValue<T>(f: Field<T>, value: T): Field<T> {
    if f.lastModified.IsValid() then f else f.(value := Some(value), defaultValue := Some(value))
  }

  /** An in-place edit: the callback returns the edited value and whether to mark it modified. */
  function Access<T>(f: Field<T>, zero: T, edit: T -> (T, bool)): Field<T> {
    var (edited, modified) := edit(f.Effective(zero));
    if f.value.Some? then
      f.(value := Some(edited), lastModified := if modified then ValidNonSequence else f.lastModified)
    else if modified then f.(value := Some(edited), lastModified := ValidNonSequence)
    else f
  }

  /** A merged field, and whether the merge saw new data. */
  datatype Merged<T> = Merged(field: Field<T>, detected: bool)

  /** A merge that saw nothing new. */
  function Kept<T>(value: Option<T>, stamp: SequenceNumber, default_: Option<T>, flag: bool): Merged<T> {
    Merged(Field(value, stamp, default_, flag), false)
  }

  function Merge<T(==)>(prior: Field<T>, incoming: Field<T>, stamp: SequenceNumber, inherit: bool, zero: T): Merged<T> {
    var default_ := if prior.defaultValue.Some? then prior.defaultValue else incoming.defaultValue;
    var same := incoming.Effective(zero) == prior.Effective(zero);
    var inherited := inherit && prior.newNetworkData;
    if IsDefaultValue(incoming) then
      var value := Some(incoming.Effective(zero));
      if !prior.lastModified.IsValid() && same then Kept(value, Invalid, default_, inherited)
      else if same then Kept(value, prior.lastModified, default_, prior.newNetworkData)
      else Merged(Field(value, stamp, default_, true), true)
    else if incoming.lastModified.IsValid() then
      if prior.lastModified.IsValid() && same then Kept(prior.value, prior.lastModified, default_, inherited)
      else Merged(Field(incoming.value, stamp, default_, true), true)
    else Kept(prior.value, prior.lastModified, default_, inherited)
  }

  /**
   A field merged with itself is stamped if it was, keeps the destination's default, and
   always counts as new data.
   */
  function MergeSelf<T>(dest: Field<T>, f: Field<T>, stamp: SequenceNumber): Field<T> {
    if f.lastModified.IsValid() then Field(f.value, stamp, dest.defaultValue, true)
    else dest.(value := if f.defaultValue.Some? then f.value else dest.value, newNetworkData := false)
  }

  /** A valid stamp always comes with a stored value. */
  predicate WellStamped<T>(f: Field<T>) { f.lastModified.IsValid() ==> f.value.Some? }

  /** The local writes a field sees before it is merged. */
  datatype Write<!T> = SetTo(value: T) | SetDefault(value: T) | EditWith(edit: T -> (T, bool)) | ClearValue

  ghost function Written<T>(f: Field<T>, writes: seq<Write<T>>, zero: T): Field<T> {
    if writes == [] then f
    else
      var before := Written(f, writes[..|writes| - 1], zero);
      match writes[|writes| - 1]
      case SetTo(v) => SetValue(before, v)
      case SetDefault(v) => SetDefaultValue(before, v)
      case EditWith(edit) => Access(before, zero, edit)
      case ClearValue => before.(value := None, lastModified := Invalid, newNetworkData := false)
  }

  /** Any run of local writes keeps stamps with values, so what it leaves may be merged into a run. */
  lemma {:induction false} WrittenIsWellStamped<T>(f: Field<T>, writes: seq<Write<T>>, zero: T)
    requires WellStamped(f)
    ensures WellStamped(Written(f, writes, zero))
  {
    if writes != [] {
      WrittenIsWellStamped(f, writes[..|writes| - 1], zero);
    }
  }

  /**
   What a merge reports and stamps. It reports no new data only if the effective value and
   the stamp are the old ones, and new data only if it stamped the merge sequence; so an
   effective change is always stamped. Well-stamped fields stay so.
   */
  lemma MergeReport<T>(prior: Field<T>, incoming: Field<T>, stamp: SequenceNumber, inherit: bool, zero: T)
    ensures var m := Merge(prior, incoming, stamp, inherit, zero);
            && (!m.detected ==> m.field.Effective(zero) == prior.Effective(zero)
                                && m.field.lastModified.Same(prior.lastModified))
            && (m.detected ==> m.field.lastModified == stamp && m.field.newNetworkData)
            && (m.field.Effective(zero) != prior.Effective(zero) ==> m.detected)
            && (WellStamped(prior) && WellStamped(incoming) ==> WellStamped(m.field))
  {
  }

  /** A field a merge must take note of: it is stamped, or it holds its own default. */
  predicate Announced<T(==)>(f: Field<T>) {
    f.lastModified.IsValid() || (f.value.Some? && f.value == f.defaultValue)
  }

  /**
   What every merge does, in full. The effective value is the incoming one exactly if the
   incoming field is announced. New data is detected exactly if that is a change, or the
   first stamp of a value that is no default; only then is the merge sequence stamped. The
   older default wins, and an undetected merge keeps the network flag if asked to, or if a
   stamped field was offered its value as the incoming default.
   */
  lemma MergeExactly<T>(prior: Field<T>, incoming: Field<T>, stamp: SequenceNumber, inherit: bool, zero: T)
    ensures var m := Merge(prior, incoming, stamp, inherit, zero);
            var atDefault := incoming.value.Some? && incoming.value == incoming.defaultValue;
            var same := prior.Effective(zero) == incoming.Effective(zero);
            && m.field.Effective(zero) == (if Announced(incoming) then incoming else prior).Effective(zero)
            && (WellStamped(prior) && WellStamped(incoming) ==>
                  m.field.value == (if Announced(incoming) then incoming else prior).value)
            && (m.detected <==> && Announced(incoming)
                                && (!same || (!prior.lastModified.IsValid() && !atDefault)))
            && m.field.lastModified.Same(if m.detected then stamp else prior.lastModified)
            && m.field.defaultValue == (if prior.defaultValue.Some? then prior else incoming).defaultValue
            && (m.field.newNetworkData <==>
                || m.detected
                || (prior.newNetworkData
                    && (inherit || (prior.lastModified.IsValid() && atDefault))))
  {
  }

  /** A stamped field offered the value it has keeps its stamp, and the merge detects nothing. */
  lemma EqualValueKeepsStamp<T>(prior: Field<T>, incoming: Field<T>, stamp: SequenceNumber, inherit: bool, zero: T)
    requires prior.lastModified.IsValid() && prior.Effective(zero) == incoming.Effective(zero)
    ensures var m := Merge(prior, incoming, stamp, inherit, zero);
            !m.detected && m.field.lastModified == prior.lastModified
  {
  }

  /**
   A field merged with itself shows its own value at the merge sequence; without a stamp,
   only its default carries over.
   */
  lemma SelfMergeExactly<T>(dest: Field<T>, f: Field<T>, stamp: SequenceNumber, zero: T)
    ensures var m := MergeSelf(dest, f, stamp);
            && (m.newNetworkData <==> f.lastModified.IsValid())
            && m.lastModified == (if f.lastModified.IsValid() then stamp else dest.lastModified)
            && m.defaultValue == dest.defaultValue
            && (Announced(f) ==> m.Effective(zero) == f.Effective(zero))
            && (!f.lastModified.IsValid() && f.defaultValue.None? ==> m.Effective(zero) == dest.Effective(zero))
  {
  }

  /** A written value is sent to a peer without a baseline exactly when it is not the default, and to no other yet. */
  lemma WrittenIsDirty<T>(f: Field<T>, v: T, baseline: SequenceNumber)
    ensures SetValue(f, v).IsDirtySince(baseline) <==> f.defaultValue != Some(v) && !baseline.IsValid()
  {
  }

  /** The value a write offers to a merge, if any. */
  function Offered<T(==)>(before: Field<T>, write: Write<T>, zero: T): Option<T> {
    match write
    case SetTo(v) => Some(v)
    case SetDefault(v) => Some(if before.lastModified.IsValid() then before.Effective(zero) else v)
    case EditWith(edit) =>
      var (edited, reported) := edit(before.Effective(zero));
      if reported || (before.value.Some? && (before.lastModified.IsValid() || before.defaultValue == Some(edited)))
      then Some(edited) else None
    case ClearValue => None
  }

  /**
   Exactly what a run of local writes brings about when it is merged: the last value set; the
   value an edit left, if it reported a change or the field was stamped already or is back
   at its default; a default, if it came in time; and after a clear, nothing.
   */
  lemma WritesArriveExactly<T>(f: Field<T>, writes: seq<Write<T>>, prior: Field<T>, stamp: SequenceNumber,
                               inherit: bool,
                               zero: T)
    requires WellStamped(f) && writes != []
    ensures var n := |writes| - 1;
            var offered := Offered(Written(f, writes[..n], zero), writes[n], zero);
            Merge(prior, Written(f, writes, zero), stamp, inherit, zero).field.Effective(zero)
            == if offered.Some? then offered.value else prior.Effective(zero)
  {
    WrittenIsWellStamped(f, writes[..|writes| - 1], zero);
    MergeExactly(prior, Written(f, writes, zero), stamp, inherit, zero);
  }

  /**
   What local writes leave alone: only a clear touches the network flag, and only a default
   that comes in time touches the default. A clear leaves no value.
   */
  lemma WritesBookkeeping<T>(f: Field<T>, writes: seq<Write<T>>, zero: T)
    requires writes != []
    ensures var n := |writes| - 1;
            var before, after := Written(f, writes[..n], zero), Written(f, writes, zero);
            && (after.newNetworkData <==> before.newNetworkData && !writes[n].ClearValue?)
            && after.defaultValue == (if writes[n].SetDefault? && !before.lastModified.IsValid()
                                      then Some(writes[n].value) else before.defaultValue)
            && (writes[n].ClearValue? ==> after.value.None? && !after.lastModified.IsValid())
  {
  }

  // ----- runs -----

  /** A field and the merges run on it, oldest first. */
  datatype FieldRun<T(==)> = Start(field: Field<T>) | Then(before: FieldRun<T>, incoming: Field<T>,
                                                           stamp: SequenceNumber, inherit: bool) {

    function State(zero: T): Field<T> {
      match this
      case Start(f) => f
      case Then(before, incoming, stamp, inherit) => Merge(before.State(zero), incoming, stamp, inherit, zero).field
    }

    /** The effective value once everything up to `baseline` had been merged. */
    function EffectiveAsOf(baseline: SequenceNumber, zero: T): T {
      match this
      case Start(f) => f.Effective(zero)
      case Then(before, _, stamp, _) =>
        if stamp.Le(baseline) then State(zero).Effective(zero) else before.EffectiveAsOf(baseline, zero)
    }
  }

  ghost predicate ValidFieldRun<T>(run: FieldRun<T>) {
    match run
    case Start(f) => WellStamped(f)
    case Then(before, incoming, stamp, _) => ValidFieldRun(before) && WellStamped(incoming) && stamp.IsValid()
  }

  /**
   A field that is not dirty since a baseline has the effective value it had then; a dirty
   one has a value to send.
   */
  lemma {:induction false} CleanMeansUnchanged<T>(run: FieldRun<T>, baseline: SequenceNumber, zero: T)
    requires ValidFieldRun(run)
    ensures WellStamped(run.State(zero))
    ensures !run.State(zero).IsDirtySince(baseline) ==>
              run.EffectiveAsOf(baseline, zero) == run.State(zero).Effective(zero)
  {
    if run.Then? {
      CleanMeansUnchanged(run.before, baseline, zero);
      MergeReport(run.before.State(zero), run.incoming, run.stamp, run.inherit, zero);
    }
  }

  /** A field as its state's constructor leaves it, with or without a registered default. */
  function Constructed<T>(registered: Option<T>): Field<T> {
    if registered.Some? then SetDefaultValue(FreshField(), registered.value) else FreshField()
  }

  /** What a freshly decoded state holds for a field: its value if it was dirty, else what the constructor put there. */
  function Delivered<T>(f: Field<T>, baseline: SequenceNumber, registered: Option<T>, zero: T): Field<T> {
    if f.IsDirtySince(baseline) then Arrived(f.Effective(zero)) else Constructed(registered)
  }

  /**
   Field convergence, exactly: a receiver that agreed with the sender as of the baseline
   agrees with it again once the delta since that baseline has been merged, if and only if
   the field was dirty, or its constructor registers no default, or the value is that
   default. A constructor's default is merged as if it had been sent.
   */
  lemma FieldConverges<T>(run: FieldRun<T>, baseline: SequenceNumber, receiver: Field<T>, registered: Option<T>,
                          stamp: SequenceNumber, inherit: bool, zero: T)
    requires ValidFieldRun(run)
    requires receiver.Effective(zero) == run.EffectiveAsOf(baseline, zero)
    ensures Merge(receiver, Delivered(run.State(zero), baseline, registered, zero), stamp, inherit,
                  zero).field.Effective(zero)
         == run.State(zero).Effective(zero)
       <==> run.State(zero).IsDirtySince(baseline) || registered.None?
            || registered.value == run.State(zero).Effective(zero)
  {
    CleanMeansUnchanged(run, baseline, zero);
  }

  /**
   A local write reaches the receivers. The sender writes `v` on any copy of its field and
   merges it at a sequence above the baseline; a receiver that agreed as of the baseline
   then shows `v` once the delta has been merged.
   */
  lemma WriteReachesReceiver<T>(run: FieldRun<T>, f: Field<T>, v: T, written: SequenceNumber, baseline: SequenceNumber,
                                receiver: Field<T>, stamp: SequenceNumber, inherit: bool,
                                zero: T)
    requires ValidFieldRun(run) && written.IsValid() && baseline.Lt(written)
    requires receiver.Effective(zero) == run.EffectiveAsOf(baseline, zero)
    ensures var sender := Then(run, SetValue(f, v), written, inherit).State(zero);
            Merge(receiver, Delivered(sender, baseline, None, zero), stamp, inherit, zero).field.Effective(zero) == v
  {
    var run' := Then(run, SetValue(f, v), written, inherit);
    MergeExactly(run.State(zero), SetValue(f, v), written, inherit, zero);
    FieldConverges(run', baseline, receiver, None, stamp, inherit, zero);
  }

  /** Every value the run starts from or merges satisfies `p`. */
  ghost predicate Throughout<T>(run: FieldRun<T>, p: T -> bool, zero: T) {
    match run
    case Start(f) => p(f.Effective(zero))
    case Then(before, incoming, _, _) => Throughout(before, p, zero) && p(incoming.Effective(zero))
  }

  /** A merge invents no value, so then the merged one does too. */
  lemma {:induction false} MergedValuesFromRun<T>(run: FieldRun<T>, p: T -> bool, zero: T)
    requires Throughout(run, p, zero)
    ensures p(run.State(zero).Effective(zero))
  {
    if run.Then? {
      MergedValuesFromRun(run.before, p, zero);
    }
  }
}
