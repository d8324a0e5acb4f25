/**
 Vector storage under the same late value fill. Keys are positions, and a removal shifts
 the positions behind it, so an earlier edit behind a removal is filled from the wrong
 place. Filling late is sound as long as no removal falls before an earlier live edit.
 */
module VectorStorage {
  import opened Wire
  import opened SequenceNumbers
  import opened ContainerModel
  import opened ContainerReplay
  import opened ContainerEdits

  /** Vector storage: positions below the length are replaced, the position at the length appends, others do nothing. */
  function ApplyAt<V>(values: seq<V>, c: Change<nat, V>): seq<V> {
    var i := c.Key();
    if c.IsLive() then
      match c.Value()
      case Some(v) => if i < |values| then values[i := v] else if i == |values| then values + [v] else values
      case None => values
    else if i < |values| then values[..i] + values[i + 1..]
    else values
  }

  function ApplyAllAt<V>(values: seq<V>, changes: seq<Change<nat, V>>): seq<V> {
    if changes == [] then values
    else ApplyAt(ApplyAllAt(values, changes[..|changes| - 1]), changes[|changes| - 1])
  }

  function PopulateAt<V>(values: seq<V>, c: Change<nat, V>): Change<nat, V> {
    if c.IsLive() && c.Value().None? && c.Key() < |values| then c.FillValue(values[c.Key()]) else c
  }

  function PopulateAllAt<V>(values: seq<V>, changes: seq<Change<nat, V>>): (r: seq<Change<nat, V>>)
    ensures |r| == |changes|
    ensures forall i :: 0 <= i < |r| ==> r[i] == PopulateAt(values, changes[i])
  {
    seq(|changes|, i requires 0 <= i < |changes| => PopulateAt(values, changes[i]))
  }

  /** The part of a container that local edits touch, over a vector. */
  datatype Edited<V> = Edited(values: seq<V>, current: seq<Change<nat, V>>, initialize: bool)

  function PushAt<V>(c: Edited<V>, e: Edit<nat, V>): Edited<V> {
    var values := ApplyAt(c.values, EagerChange(e));
    if c.initialize then c.(values := values)
    else if |c.current| > |values| then Edited(values, [], true)
    else Edited(values, c.current + [RecordedChange(e)], false)
  }

  function PushAllAt<V>(c: Edited<V>, edits: seq<Edit<nat, V>>): Edited<V> {
    if edits == [] then c
    else PushAt(PushAllAt(c, edits[..|edits| - 1]), edits[|edits| - 1])
  }

  /** The position a live edit sets or appends at; out of bounds, and for removals, -1. */
  function LivePosition<V>(values: seq<V>, e: Edit<nat, V>): int {
    if !e.PushRemove? && e.key <= |values| then e.key else -1
  }

  function Max(a: int, b: int): int { if a < b then b else a }

  /** The highest position any live edit has set or appended at so far, or -1. */
  function HighestLive<V>(c: Edited<V>, edits: seq<Edit<nat, V>>): int {
    if edits == [] then -1
    else
      var n := |edits| - 1;
      Max(HighestLive(c, edits[..n]), LivePosition(PushAllAt(c, edits[..n]).values, edits[n]))
  }

  /** No removal takes out a position below one that was edited live before. */
  predicate RemovesAbove<V>(c: Edited<V>, edits: seq<Edit<nat, V>>) {
    edits == [] ||
    var n := |edits| - 1;
    && RemovesAbove(c, edits[..n])
    && (edits[n].PushRemove? && edits[n].key < |PushAllAt(c, edits[..n]).values|
        ==> HighestLive(c, edits[..n]) <= edits[n].key)
  }

  /** Positions below the highest live edit are never removed. */
  lemma {:induction false} HighestStays<V>(c: Edited<V>, edits: seq<Edit<nat, V>>)
    requires RemovesAbove(c, edits)
    ensures HighestLive(c, edits) <= |PushAllAt(c, edits).values|
  {
    if edits != [] {
      HighestStays(c, edits[..|edits| - 1]);
    }
  }

  /**
   Between the real vector and a replay filled from the final one, when live edits have gone
   up to `high`. Positions at or behind the final length no longer matter once an edit has
   reached it, for only removals at or behind it can follow; the replay may lack one there.
   */
  ghost predicate Tracks<V>(replayed: seq<V>, actual: seq<V>, final: seq<V>, high: int) {
    && high <= |final| && high <= |actual|
    && (|replayed| == |actual| || (|replayed| == |final| == high && |actual| == |final| + 1))
    && forall j :: 0 <= j < |replayed| ==>
                     || (high == |final| && j >= |final|)
                     || replayed[j] == actual[j]
                     || (j <= high && j < |final| && replayed[j] == final[j])
  }

  /** One edit, and its recorded change filled from the final vector. */
  lemma {:induction false} TracksStep<V>(replayed: seq<V>, actual: seq<V>, final: seq<V>, high: int, e: Edit<nat, V>)
    requires Tracks(replayed, actual, final, high)
    requires Max(high, LivePosition(actual, e)) <= |final|
    requires e.PushRemove? && e.key < |actual| ==> high <= e.key
    ensures Tracks(ApplyAt(replayed, PopulateAt(final, RecordedChange(e))), ApplyAt(actual, EagerChange(e)), final,
                   Max(high, LivePosition(actual, e)))
  {
    if e.PushRemove? {
      assert PopulateAt(final, RecordedChange(e)) == RecordedChange(e);
    }
  }

  lemma {:induction false} ReplayTracks<V>(c: Edited<V>, edits: seq<Edit<nat, V>>, final: seq<V>)
    requires c.current == [] && !c.initialize && !PushAllAt(c, edits).initialize
    requires RemovesAbove(c, edits) && HighestLive(c, edits) <= |final|
    ensures var c' := PushAllAt(c, edits);
            Tracks(ApplyAllAt(c.values, PopulateAllAt(final, c'.current)), c'.values, final, HighestLive(c, edits))
  {
    if edits != [] {
      var n := |edits| - 1;
      var before, e := PushAllAt(c, edits[..n]), edits[n];
      ReplayTracks(c, edits[..n], final);
      var filled := PopulateAllAt(final, before.current + [RecordedChange(e)]);
      assert filled[..|filled| - 1] == PopulateAllAt(final, before.current);
      TracksStep(ApplyAllAt(c.values, PopulateAllAt(final, before.current)), before.values, final,
                 HighestLive(c, edits[..n]), e);
    }
  }

  lemma {:induction false} ListBound<V>(c: Edited<V>, edits: seq<Edit<nat, V>>)
    requires c.current == [] && !c.initialize
    ensures var c' := PushAllAt(c, edits);
            |c'.current| <= |c'.values| + 1 && (c'.initialize ==> c'.current == [])
  {
    if edits != [] {
      ListBound(c, edits[..|edits| - 1]);
    }
  }

  /** The values after a run of edits are the edits applied in order. */
  lemma {:induction false} EditsApplyAt<V>(c: Edited<V>, edits: seq<Edit<nat, V>>)
    ensures PushAllAt(c, edits).values == ApplyAllAt(c.values, EagerLog(edits))
  {
    if edits == [] {
      assert EagerLog(edits) == [];
    } else {
      var before, e := edits[..|edits| - 1], edits[|edits| - 1];
      EditsApplyAt(c, before);
      assert edits == before + [e];
      EagerLogSnoc(before, e);
      assert (EagerLog(before) + [EagerChange(e)])[..|before|] == EagerLog(before);
    }
  }

  /** Some edit finds more edits before it than it leaves elements. */
  predicate OvertakesVector<V>(values: seq<V>, edits: seq<Edit<nat, V>>) {
    edits != [] &&
    var n := |edits| - 1;
    n > |ApplyAllAt(values, EagerLog(edits))| || OvertakesVector(values, edits[..n])
  }

  /** A vector escalates exactly then; otherwise the list is the edits, in order and without values. */
  lemma {:induction false} VectorEscalatesExactly<V>(c: Edited<V>, edits: seq<Edit<nat, V>>)
    requires c.current == [] && !c.initialize
    ensures PushAllAt(c, edits).initialize <==> OvertakesVector(c.values, edits)
    ensures if OvertakesVector(c.values, edits) then PushAllAt(c, edits).current == []
            else RecordsAll(PushAllAt(c, edits).current, edits)
  {
    if edits != [] {
      var before, e := edits[..|edits| - 1], edits[|edits| - 1];
      VectorEscalatesExactly(c, before);
      EditsApplyAt(c, edits);
      assert edits == before + [e] && Records(RecordedChange(e), e);
    }
  }

  /**
   For a vector and any run of edits, either the list has escalated to an initialise and is
   empty, or it is at most one longer than the vector; and if no removal fell before an
   earlier live edit, filling it from the final values and replaying it gives the final
   values.
   */
  lemma VectorLateFill<V>(c: Edited<V>, edits: seq<Edit<nat, V>>)
    requires c.current == [] && !c.initialize
    ensures var c' := PushAllAt(c, edits);
            && |c'.current| <= |c'.values| + 1
            && (c'.initialize ==> c'.current == [])
            && (!c'.initialize && RemovesAbove(c, edits) ==>
                  ApplyAllAt(c.values, PopulateAllAt(c'.values, c'.current)) == c'.values)
  {
    var c' := PushAllAt(c, edits);
    ListBound(c, edits);
    if !c'.initialize && RemovesAbove(c, edits) {
      HighestStays(c, edits);
      ReplayTracks(c, edits, c'.values);
    }
  }

  lemma {:induction false} TwoEdits<V>(c: Edited<V>, e1: Edit<nat, V>, e2: Edit<nat, V>)
    ensures PushAllAt(c, [e1, e2]) == PushAt(PushAt(c, e1), e2)
  {
    assert [e1][..0] == [] && [e1, e2][..1] == [e1];
    assert PushAllAt(c, [e1]) == PushAt(c, e1);
  }

  lemma {:induction false} TwoChanges<V>(values: seq<V>, c1: Change<nat, V>, c2: Change<nat, V>)
    ensures ApplyAllAt(values, [c1, c2]) == ApplyAt(ApplyAt(values, c1), c2)
  {
    assert [c1][..0] == [] && [c1, c2][..1] == [c1];
    assert ApplyAllAt(values, [c1]) == ApplyAt(values, c1);
  }

  function Without<V>(values: seq<V>, p: nat): seq<V>
    requires p < |values|
  {
    values[..p] + values[p + 1..]
  }

  lemma {:induction false} UpdateThenRemove<V>(values: seq<V>, p: nat, q: nat, v: V)
    requires p < q < |values|
    ensures PushAllAt(Edited(values, [], false), [PushUpdate(q, v), PushRemove(p)])
         == Edited(Without(values[q := v], p), [Update(q, None, Invalid), Remove(p, Invalid)], false)
  {
    var c := Edited(values, [], false);
    var u: Change<nat, V> := Update(q, None, Invalid);
    TwoEdits(c, PushUpdate(q, v), PushRemove(p));
    assert PushAt(c, PushUpdate(q, v)) == Edited(values[q := v], [u], false);
  }

  /** Replaying an update filled too late, and then the removal. */
  lemma {:induction false} ShiftedFill<V>(values: seq<V>, p: nat, q: nat, v: V)
    requires p < q < |values|
    ensures var final := Without(values[q := v], p);
            var filled: Change<nat, V> := PopulateAt(final, Update(q, None, Invalid));
            ApplyAt(ApplyAt(values, filled), Remove(p, Invalid)) == final
            <==> v == if q + 1 < |values| then values[q + 1] else values[q]
  {
    var final := Without(values[q := v], p);
    var w := if q + 1 < |values| then values[q + 1] else values[q];
    var filled: Change<nat, V> := PopulateAt(final, Update(q, None, Invalid));
    assert ApplyAt(values, filled) == values[q := w];
    assert Without(values[q := w], p)[q - 1] == w && final[q - 1] == v;
  }

  /**
   One removal before an earlier update breaks it: the update is filled with the element that
   has moved up to its position, or not at all if there is none, so the replay is right
   exactly when the value written happens to be that one.
   */
  lemma {:induction false} RemovalBreaksLateFill<V>(values: seq<V>, p: nat, q: nat, v: V)
    requires p < q < |values|
    ensures var c := Edited(values, [], false);
            var c' := PushAllAt(c, [PushUpdate(q, v), PushRemove(p)]);
            && !c'.initialize && !RemovesAbove(c, [PushUpdate(q, v), PushRemove(p)])
            && (ApplyAllAt(values, PopulateAllAt(c'.values, c'.current)) == c'.values
                <==> v == if q + 1 < |values| then values[q + 1] else values[q])
  {
    var u, r: Change<nat, V> := Update(q, None, Invalid), Remove(p, Invalid);
    var final := Without(values[q := v], p);
    UpdateThenRemove(values, p, q, v);
    ShiftedFill(values, p, q, v);
    RemovalIsBelow(Edited(values, [], false), q, v, p);
    TwoChanges(values, PopulateAt(final, u), r);
    assert PopulateAllAt(final, [u, r]) == [PopulateAt(final, u), r];
  }

  lemma {:induction false} RemovalIsBelow<V>(c: Edited<V>, q: nat, v: V, p: nat)
    requires p < q < |c.values| && c.current == [] && !c.initialize
    ensures !RemovesAbove(c, [PushUpdate(q, v), PushRemove(p)])
  {
    var e1, e2: Edit<nat, V> := PushUpdate(q, v), PushRemove(p);
    assert [e1, e2][..1] == [e1] && [e1][..0] == [];
    assert PushAllAt(c, [e1]) == PushAt(c, e1);
    assert HighestLive(c, [e1]) == q;
  }
}
