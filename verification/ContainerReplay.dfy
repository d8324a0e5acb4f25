/**
 When a list of changes explains how one map became another.

 Local edits are recorded without values and filled in late from the container's
 current contents. What makes that sound is keyed on the last mention of each key:
 `Explains` states it, composes it, and shows that replaying the filled list gives the
 current contents.
 */
module ContainerReplay {
  import opened Wire
  import opened SequenceNumbers
  import opened ContainerModel

  function LastMention<K(==), V>(changes: seq<Change<K, V>>, k: K): (r: Option<Change<K, V>>)
    ensures r.Some? ==> r.value.Key() == k && r.value in changes
  {
    if changes == [] then None
    else if changes[|changes| - 1].Key() == k then Some(changes[|changes| - 1])
    else LastMention(changes[..|changes| - 1], k)
  }

  /** What the last mention of `k` must say about the step from `a` to `b`. */
  predicate Accounts<K(==), V(==)>(last: Option<Change<K, V>>, a: map<K, V>, b: map<K, V>, k: K) {
    match last
    case None => Get(a, k) == Get(b, k)
    case Some(Remove(_, _)) => k !in b
    case Some(c) => k in b && (c.Value().Some? ==> c.Value().value == b[k])
  }

  /** Every key the list does not mention is unchanged, and the last mention of every other key agrees with `b`. */
  ghost predicate Explains<K(!new), V>(a: map<K, V>, changes: seq<Change<K, V>>, b: map<K, V>) {
    forall k :: Accounts(LastMention(changes, k), a, b, k)
  }

  lemma {:induction false} LastMentionConcat<K(!new), V>(c1: seq<Change<K, V>>, c2: seq<Change<K, V>>, k: K)
    ensures LastMention(c1 + c2, k) == if LastMention(c2, k).Some? then LastMention(c2, k) else LastMention(c1, k)
  {
    if c2 == [] {
      assert c1 + c2 == c1;
    } else {
      var n := |c2| - 1;
      LastMentionConcat(c1, c2[..n], k);
      assert (c1 + c2)[..|c1 + c2| - 1] == c1 + c2[..n];
    }
  }

  /** Explanations compose: the second list wins on the keys it mentions and frames the others. */
  lemma ExplainsConcat<K(!new), V>(a: map<K, V>, c1: seq<Change<K, V>>, b: map<K, V>, c2: seq<Change<K, V>>,
                                   d: map<K, V>)
    requires Explains(a, c1, b) && Explains(b, c2, d)
    ensures Explains(a, c1 + c2, d)
  {
    forall k
      ensures Accounts(LastMention(c1 + c2, k), a, d, k)
    {
      LastMentionConcat(c1, c2, k);
      assert Accounts(LastMention(c1, k), a, b, k) && Accounts(LastMention(c2, k), b, d, k);
    }
  }

  /** The value of a key after a replay is decided by the last change that mentions it. */
  lemma {:induction false} ApplyLastMention<K(!new), V>(a: map<K, V>, changes: seq<Change<K, V>>, k: K)
    requires LastMention(changes, k).Some? ==> LastMention(changes, k).value.IsEffective()
    ensures Get(Apply(a, changes), k) ==
            match LastMention(changes, k)
            case None => Get(a, k)
            case Some(c) => c.Value()
  {
    if changes != [] && changes[|changes| - 1].Key() != k {
      ApplyLastMention(a, changes[..|changes| - 1], k);
    }
  }

  /** A rewriting of changes that keeps their keys commutes with taking the last mention. */
  lemma {:induction false} LastMentionMapped<K(!new), V>(c: seq<Change<K, V>>, d: seq<Change<K, V>>,
                                                         k: K) returns (i: int)
    requires |c| == |d| && forall i :: 0 <= i < |c| ==> c[i].Key() == d[i].Key()
    ensures LastMention(c, k).None? <==> LastMention(d, k).None?
    ensures LastMention(c, k).Some? ==> 0 <= i < |c| && LastMention(c, k) == Some(c[i])
                                        && LastMention(d, k) == Some(d[i])
  {
    i := |c| - 1;
    if c != [] && c[i].Key() != k {
      var n := i;
      i := LastMentionMapped(c[..n], d[..n], k);
    }
  }

  /** `sent` is `changes` with each key and kind kept, each known value kept, and missing values taken from `b`. */
  ghost predicate FilledFrom<K, V>(b: map<K, V>, changes: seq<Change<K, V>>, sent: seq<Change<K, V>>) {
    |sent| == |changes| &&
    forall i :: 0 <= i < |sent| ==>
                  && sent[i].Key() == changes[i].Key() && sent[i].IsLive() == changes[i].IsLive()
                  && (changes[i].Value().Some? ==> sent[i].Value() == changes[i].Value())
                  && (changes[i].IsLive() && changes[i].Value().None? && changes[i].Key() in b
                      ==> sent[i].Value() == Some(b[changes[i].Key()]))
  }

  /** Replaying an explaining list filled from `b` gives `b`. */
  lemma ReplayExplained<K(!new), V>(a: map<K, V>, changes: seq<Change<K, V>>, b: map<K, V>, sent: seq<Change<K, V>>)
    requires Explains(a, changes, b) && FilledFrom(b, changes, sent)
    ensures Apply(a, sent) == b
  {
    var r := Apply(a, sent);
    forall k
      ensures Get(r, k) == Get(b, k)
    {
      assert Accounts(LastMention(changes, k), a, b, k);
      var i := LastMentionMapped(changes, sent, k);
      ApplyLastMention(a, sent, k);
    }
    SameByGet(r, b);
  }

  /**
   Replaying a list that explains how some map became `b`, filled from `b`, on any map at
   all: mentioned keys get their value in `b`, the others keep what they had.
   */
  lemma ReplayFromAnywhere<K(!new), V>(a: map<K, V>, changes: seq<Change<K, V>>, b: map<K, V>, sent: seq<Change<K, V>>,
                                       r: map<K, V>, k: K)
    requires Explains(a, changes, b) && FilledFrom(b, changes, sent)
    ensures Get(Apply(r, sent), k) == if LastMention(changes, k).Some? then Get(b, k) else Get(r, k)
  {
    assert Accounts(LastMention(changes, k), a, b, k);
    var i := LastMentionMapped(changes, sent, k);
    ApplyLastMention(r, sent, k);
  }

  /** Two maps agree on every key the changes do not mention. */
  ghost predicate AgreeElsewhere<K(!new), V>(a: map<K, V>, changes: seq<Change<K, V>>, b: map<K, V>) {
    forall k :: LastMention(changes, k).None? ==> Get(a, k) == Get(b, k)
  }

  lemma SameByGet<K(!new), V>(a: map<K, V>, b: map<K, V>)
    requires forall k :: Get(a, k) == Get(b, k)
    ensures a == b
  {
    assert forall k :: k in a ==> Get(a, k).Some? && Get(b, k) == Some(a[k]);
    assert forall k :: k in b ==> Get(b, k).Some? && Get(a, k) == Some(b[k]);
  }

  /** A list of effective changes explains its own replay. */
  lemma ApplyExplained<K(!new), V>(a: map<K, V>, changes: seq<Change<K, V>>)
    requires forall c :: c in changes ==> c.IsEffective()
    ensures Explains(a, changes, Apply(a, changes))
  {
    forall k
      ensures Accounts(LastMention(changes, k), a, Apply(a, changes), k)
    {
      ApplyLastMention(a, changes, k);
    }
  }

  // ----- local edits -----

  /** What local edits keep true of a working copy that started from `start`. */
  ghost predicate EditsTracked<K(!new), V>(start: map<K, V>, c: Container<K, V>) {
    && |c.current| <= |c.values| + 1
    && (forall change :: change in c.current ==> change.Sequence() == Invalid)
    && if c.initialize then c.current == [] else Explains(start, c.current, c.values)
  }

  /** One recorded edit explains its own effect: the key it names is present exactly when the edit is live. */
  lemma EditExplained<K(!new), V>(values: map<K, V>, e: Edit<K, V>)
    ensures Explains(values, [RecordedChange(e)], ApplyChange(values, EagerChange(e)))
  {
    var changes := [RecordedChange(e)];
    assert changes[..0] == [];
    forall k
      ensures Accounts(LastMention(changes, k), values, ApplyChange(values, EagerChange(e)), k)
    {
      assert LastMention(changes, k) == if RecordedChange(e).Key() == k then Some(RecordedChange(e)) else None;
    }
  }

  lemma PushKeepsTracking<K(!new), V>(start: map<K, V>, c: Container<K, V>, e: Edit<K, V>)
    requires EditsTracked(start, c)
    ensures EditsTracked(start, Push(c, e))
  {
    if !Push(c, e).initialize {
      EditExplained(c.values, e);
      ExplainsConcat(start, c.current, c.values, [RecordedChange(e)], Push(c, e).values);
    }
  }

  lemma {:induction false} PushAllKeepsTracking<K(!new), V>(start: map<K, V>, c: Container<K, V>,
                                                            edits: seq<Edit<K, V>>)
    requires EditsTracked(start, c)
    ensures EditsTracked(start, PushAll(c, edits))
  {
    if edits != [] {
      PushAllKeepsTracking(start, c, edits[..|edits| - 1]);
      PushKeepsTracking(start, PushAll(c, edits[..|edits| - 1]), edits[|edits| - 1]);
    }
  }

  /** The edits written down with their values at the time they were made. */
  function EagerLog<K, V>(edits: seq<Edit<K, V>>): (r: seq<Change<K, V>>)
    ensures |r| == |edits|
  {
    seq(|edits|, i requires 0 <= i < |edits| => EagerChange(edits[i]))
  }

  lemma PushValues<K, V>(c: Container<K, V>, e: Edit<K, V>)
    ensures Push(c, e).values == ApplyChange(c.values, EagerChange(e))
  {
  }

  lemma ApplySnoc<K, V>(values: map<K, V>, changes: seq<Change<K, V>>, change: Change<K, V>)
    ensures Apply(values, changes + [change]) == ApplyChange(Apply(values, changes), change)
  {
    assert (changes + [change])[..|changes|] == changes;
  }

  lemma EagerLogSnoc<K, V>(edits: seq<Edit<K, V>>, e: Edit<K, V>)
    ensures EagerLog(edits + [e]) == EagerLog(edits) + [EagerChange(e)]
  {
  }

  lemma {:induction false} PushAllSnoc<K, V>(c: Container<K, V>, edits: seq<Edit<K, V>>, e: Edit<K, V>)
    ensures PushAll(c, edits + [e]) == Push(PushAll(c, edits), e)
  {
    assert (edits + [e])[..|edits|] == edits;
  }

  lemma {:induction false} EagerLogStep<K, V>(c: Container<K, V>, edits: seq<Edit<K, V>>, e: Edit<K, V>)
    requires PushAll(c, edits).values == Apply(c.values, EagerLog(edits))
    ensures PushAll(c, edits + [e]).values == Apply(c.values, EagerLog(edits + [e]))
  {
    PushAllSnoc(c, edits, e);
    PushValues(PushAll(c, edits), e);
    EagerLogSnoc(edits, e);
    ApplySnoc(c.values, EagerLog(edits), EagerChange(e));
  }

  lemma {:induction false} EagerLogReplays<K, V>(c: Container<K, V>, edits: seq<Edit<K, V>>)
    ensures PushAll(c, edits).values == Apply(c.values, EagerLog(edits))
  {
    if edits == [] {
      assert EagerLog(edits) == [];
    } else {
      var before, e := edits[..|edits| - 1], edits[|edits| - 1];
      assert edits == before + [e];
      EagerLogReplays(c, before);
      EagerLogStep(c, before, e);
    }
  }

  /**
   Late value fill refines eager logging. Any run of edits on a container with no
   pending edits either escalates to an initialise with an empty list, or leaves a list
   that, filled from the final values and replayed on the starting values, does what
   the eager log does. The list is never more than one longer than the container.
   */
  lemma LateFillRefinesEagerLog<K(!new), V>(c: Container<K, V>, edits: seq<Edit<K, V>>)
    requires c.current == [] && !c.initialize
    ensures var c' := PushAll(c, edits);
            && c'.values == Apply(c.values, EagerLog(edits))
            && |c'.current| <= |c'.values| + 1
            && (c'.initialize ==> c'.current == [])
            && (!c'.initialize ==> Apply(c.values, PopulateAll(c'.values, c'.current)) == c'.values)
  {
    PushAllKeepsTracking(c.values, c, edits);
    EagerLogReplays(c, edits);
    var c' := PushAll(c, edits);
    if !c'.initialize {
      ReplayExplained(c.values, c'.current, c'.values, PopulateAll(c'.values, c'.current));
    }
  }
}
