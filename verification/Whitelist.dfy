/** Ref-counted replication whitelists: a client is added and removed many times, and only the last removal drops it. */
module Whitelist {
  import opened Wire
  import FixedModel

  type Client = FixedModel.Client

  const MAX_FILTER_GROUPS: nat := 10

  datatype Entry = Entry(client: Client, refCount: u64)

  /** The first entry of a client, or the length. */
  function IndexOf(list: seq<Entry>, c: Client): (r: nat)
    ensures r <= |list|
    ensures r < |list| ==> list[r].client == c
    ensures forall i :: 0 <= i < r ==> list[i].client != c
  {
    if list == [] || list[0].client == c then 0 else 1 + IndexOf(list[1..], c)
  }

  function CountIn(list: seq<Entry>, c: Client): nat {
    var i := IndexOf(list, c);
    if i < |list| then list[i].refCount else 0
  }

  /** One entry a client, each counted at least once. */
  ghost predicate Tidy(list: seq<Entry>) {
    && (forall i, j :: 0 <= i < j < |list| ==> list[i].client != list[j].client)
    && forall i :: 0 <= i < |list| ==> list[i].refCount >= 1
  }

  function SaturatingIncrement(n: u64): u64 { if n == U64_MAX then n else n + 1 }

  function Added(list: seq<Entry>, c: Client): seq<Entry> {
    var i := IndexOf(list, c);
    if i < |list| then list[i := Entry(c, SaturatingIncrement(list[i].refCount))] else list + [Entry(c, 1)]
  }

  function Removed(list: seq<Entry>, c: Client): seq<Entry> {
    var i := IndexOf(list, c);
    if i == |list| then list
    else if list[i].refCount > 1 then list[i := Entry(c, list[i].refCount - 1)]
    else list[..i] + list[i + 1..]
  }

  lemma {:induction false} CountAt(list: seq<Entry>, i: nat)
    requires Tidy(list) && i < |list|
    ensures CountIn(list, list[i].client) == list[i].refCount
  {
  }

  lemma {:induction false} CountZero(list: seq<Entry>, c: Client)
    requires Tidy(list)
    ensures CountIn(list, c) == 0 <==> forall i :: 0 <= i < |list| ==> list[i].client != c
  {
  }

  /** Adding counts one more for that client, up to the largest u64, and leaves every other count alone. */
  lemma {:induction false} AddCounts(list: seq<Entry>, c: Client, d: Client)
    requires Tidy(list)
    ensures Tidy(Added(list, c))
    ensures CountIn(Added(list, c), d) == CountIn(list, d) + if c == d && CountIn(list, d) < U64_MAX then 1 else 0
  {
    if IndexOf(list, c) < |list| {
      IncrementCounts(list, c, d);
    } else {
      AppendCounts(list, c, d);
    }
  }

  lemma {:induction false} IncrementCounts(list: seq<Entry>, c: Client, d: Client)
    requires Tidy(list) && IndexOf(list, c) < |list|
    ensures Tidy(Added(list, c))
    ensures CountIn(Added(list, c), d) == CountIn(list, d) + if c == d && CountIn(list, d) < U64_MAX then 1 else 0
  {
    var i := IndexOf(list, c);
    var n := if list[i].refCount == U64_MAX then U64_MAX else list[i].refCount + 1;
    assert Added(list, c) == list[i := Entry(list[i].client, n)];
    assert CountIn(list, c) == list[i].refCount;
    RecountCounts(list, i, n, d);
  }

  lemma {:induction false} AppendCounts(list: seq<Entry>, c: Client, d: Client)
    requires Tidy(list) && IndexOf(list, c) == |list|
    ensures Tidy(list + [Entry(c, 1)])
    ensures CountIn(list + [Entry(c, 1)], d) == CountIn(list, d) + if c == d then 1 else 0
  {
    var list', k := list + [Entry(c, 1)], IndexOf(list, d);
    if k < |list| {
      CountAt(list', k);
    } else if c == d {
      CountAt(list', |list|);
    } else {
      CountZero(list', d);
    }
  }

  lemma {:induction false} DropCounts(list: seq<Entry>, i: nat, d: Client)
    requires Tidy(list) && i < |list|
    ensures Tidy(list[..i] + list[i + 1..])
    ensures CountIn(list[..i] + list[i + 1..], d) == if list[i].client == d then 0 else CountIn(list, d)
  {
    var list', k := list[..i] + list[i + 1..], IndexOf(list, d);
    assert forall j :: 0 <= j < |list'| ==> list'[j] == list[if j < i then j else j + 1];
    if k < |list| && k != i {
      CountAt(list', if k < i then k else k - 1);
    } else {
      CountZero(list', d);
    }
  }

  lemma {:induction false} RecountCounts(list: seq<Entry>, i: nat, n: u64, d: Client)
    requires Tidy(list) && i < |list| && n >= 1
    ensures Tidy(list[i := Entry(list[i].client, n)])
    ensures CountIn(list[i := Entry(list[i].client, n)], d) == if list[i].client == d then n else CountIn(list, d)
  {
    var list', k := list[i := Entry(list[i].client, n)], IndexOf(list, d);
    if k < |list| {
      CountAt(list', k);
    } else {
      CountZero(list', d);
    }
  }

  lemma {:induction false} RemoveCounts(list: seq<Entry>, c: Client, d: Client)
    requires Tidy(list)
    ensures Tidy(Removed(list, c))
    ensures CountIn(Removed(list, c), d) == if c == d
                                               && CountIn(list, d) > 0 then CountIn(list, d) - 1 else CountIn(list, d)
  {
    var i := IndexOf(list, c);
    if i < |list| {
      CountAt(list, i);
      if list[i].refCount > 1 {
        RecountCounts(list, i, list[i].refCount - 1, d);
      } else {
        DropCounts(list, i, d);
      }
    }
  }

  // ----- the header's groups -----

  datatype Step = Add(client: Client, group: nat) | Remove(client: Client,
                                                           group: nat) | Clear(group: nat) | Ensure(count: nat)

  function Ensured(groups: seq<seq<Entry>>, count: nat): (r: seq<seq<Entry>>)
    requires |groups| <= MAX_FILTER_GROUPS
    ensures |r| <= MAX_FILTER_GROUPS
    decreases MAX_FILTER_GROUPS - |groups|
  {
    if |groups| < count && |groups| < MAX_FILTER_GROUPS then Ensured(groups + [[]], count) else groups
  }

  /** A missing group is an empty list. */
  function ListOf(groups: seq<seq<Entry>>, g: nat): seq<Entry> { if g < |groups| then groups[g] else [] }

  lemma {:induction false} EnsuredLists(groups: seq<seq<Entry>>, count: nat)
    requires |groups| <= MAX_FILTER_GROUPS
    ensures |Ensured(groups, count)|
         == if |groups| >= count then |groups| else if count <= MAX_FILTER_GROUPS then count else MAX_FILTER_GROUPS
    ensures forall g: nat :: ListOf(Ensured(groups, count), g) == ListOf(groups, g)
    decreases MAX_FILTER_GROUPS - |groups|
  {
    if |groups| < count && |groups| < MAX_FILTER_GROUPS {
      EnsuredLists(groups + [[]], count);
      assert forall g: nat :: ListOf(groups + [[]], g) == ListOf(groups, g);
    }
  }

  function After(groups: seq<seq<Entry>>, step: Step): (r: seq<seq<Entry>>)
    requires |groups| <= MAX_FILTER_GROUPS
    ensures |r| <= MAX_FILTER_GROUPS
  {
    match step
    case Add(c, g) =>
      var groups' := Ensured(groups, g + 1);
      if g < |groups'| then groups'[g := Added(groups'[g], c)] else groups'
    case Remove(c, g) => if g < |groups| then groups[g := Removed(groups[g], c)] else groups
    case Clear(g) => if g < |groups| then groups[g := []] else groups
    case Ensure(n) => Ensured(groups, n)
  }

  function Run(steps: seq<Step>): (r: seq<seq<Entry>>)
    ensures |r| <= MAX_FILTER_GROUPS
  {
    if steps == [] then [] else After(Run(steps[..|steps| - 1]), steps[|steps| - 1])
  }

  predicate ShouldSend(groups: seq<seq<Entry>>, c: Client, g: nat) {
    g < MAX_FILTER_GROUPS && (g >= |groups| || groups[g] == [] || IndexOf(groups[g], c) < |groups[g]|)
  }

  /** How many adds of a client to a group are not yet taken back. */
  function Outstanding(steps: seq<Step>, g: nat, c: Client): nat {
    if steps == [] then 0
    else
      var before := Outstanding(steps[..|steps| - 1], g, c);
      match steps[|steps| - 1]
      case Add(d, h) => if d == c && h == g && g < 10 then before + 1 else before
      case Remove(d, h) => if d == c && h == g && before > 0 then before - 1 else before
      case Clear(h) => if h == g then 0 else before
      case Ensure(_) => before
  }

  function Adds(steps: seq<Step>): nat {
    if steps == [] then 0 else Adds(steps[..|steps| - 1]) + if steps[|steps| - 1].Add? then 1 else 0
  }

  lemma {:induction false} OutstandingBounded(steps: seq<Step>, g: nat, c: Client)
    ensures Outstanding(steps, g, c) <= Adds(steps)
  {
    if steps != [] {
      OutstandingBounded(steps[..|steps| - 1], g, c);
    }
  }

  /** The lists a step leaves: only its own group's list can differ. */
  lemma {:induction false} ListAfter(groups: seq<seq<Entry>>, step: Step, g: nat)
    requires |groups| <= MAX_FILTER_GROUPS
    ensures ListOf(After(groups, step), g)
         == match step
            case Add(c, h) => if h == g
                                 && g < MAX_FILTER_GROUPS then Added(ListOf(groups, g), c) else ListOf(groups, g)
            case Remove(c, h) => if h == g then Removed(ListOf(groups, g), c) else ListOf(groups, g)
            case Clear(h) => if h == g then [] else ListOf(groups, g)
            case Ensure(_) => ListOf(groups, g)
  {
    match step
    case Add(_, h) => EnsuredLists(groups, h + 1);
    case Ensure(n) => EnsuredLists(groups, n);
    case Remove(_, _) =>
    case Clear(_) =>
  }

  /** The recorded counts are the outstanding ones, in tidy lists. */
  lemma {:induction false} CountsAreOutstanding(steps: seq<Step>, g: nat, c: Client)
    requires Adds(steps) <= U64_MAX
    ensures Tidy(ListOf(Run(steps), g))
    ensures CountIn(ListOf(Run(steps), g), c) == Outstanding(steps, g, c)
  {
    if steps != [] {
      var before, step := steps[..|steps| - 1], steps[|steps| - 1];
      CountsAreOutstanding(before, g, c);
      ListAfter(Run(before), step, g);
      match step
      case Add(d, _) =>
        CountsAreOutstanding(before, g, d);
        OutstandingBounded(before, g, d);
        AddCounts(ListOf(Run(before), g), d, c);
      case Remove(d, _) =>
        RemoveCounts(ListOf(Run(before), g), d, c);
      case Clear(_) =>
      case Ensure(_) =>
    }
  }

  /**
   Refinement: after any run of adds, removes, clears and group creations, a client sees a
   group below the limit exactly when nobody has an outstanding add there or it has one.
   */
  lemma {:induction false} VisibleIffOutstanding(steps: seq<Step>, g: nat, c: Client)
    requires Adds(steps) <= U64_MAX
    ensures ShouldSend(Run(steps), c, g)
       <==> g < 10 && ((forall d :: Outstanding(steps, g, d) == 0) || Outstanding(steps, g, c) > 0)
  {
    var list := ListOf(Run(steps), g);
    CountsAreOutstanding(steps, g, c);
    CountZero(list, c);
    if list != [] {
      CountsAreOutstanding(steps, g, list[0].client);
      CountAt(list, 0);
    } else {
      forall d: Client
        ensures Outstanding(steps, g, d) == 0
      {
        CountsAreOutstanding(steps, g, d);
      }
    }
  }

  /** Creating missing groups changes nobody's view. */
  lemma {:induction false} EnsuringKeepsVisibility(groups: seq<seq<Entry>>, count: nat, c: Client, g: nat)
    requires |groups| <= MAX_FILTER_GROUPS
    ensures ShouldSend(Ensured(groups, count), c, g) == ShouldSend(groups, c, g)
  {
    EnsuredLists(groups, count);
    assert ListOf(Ensured(groups, count), g) == ListOf(groups, g);
  }

  class FilterGroups {
    var groups: seq<seq<Entry>>

    ghost predicate Valid()
      reads this
    {
      |groups| <= MAX_FILTER_GROUPS
    }

    constructor ()
      ensures Valid() && groups == Run([])
    {
      groups := [];
    }

    method EnsureFilterGroups(count: nat)
      requires Valid()
      modifies this
      ensures Valid() && groups == After(old(groups), Ensure(count))
    {
      var target := if count < MAX_FILTER_GROUPS then count else MAX_FILTER_GROUPS;
      while |groups| < target
        invariant |groups| <= MAX_FILTER_GROUPS
        invariant Ensured(groups, count) == Ensured(old(groups), count)
      {
        groups := groups + [[]];
      }
    }

    method AddClient(c: Client, g: nat)
      requires Valid()
      modifies this
      ensures Valid() && groups == After(old(groups), Add(c, g))
    {
      EnsureFilterGroups(g + 1);
      if g < |groups| {
        var list := groups[g];
        var i := IndexOf(list, c);
        if i < |list| {
          list := list[i := Entry(c, SaturatingIncrement(list[i].refCount))];
        } else {
          list := list + [Entry(c, 1)];
        }
        groups := groups[g := list];
      }
    }

    method RemoveClient(c: Client, g: nat)
      requires Valid()
      modifies this
      ensures Valid() && groups == After(old(groups), Remove(c, g))
    {
      if g < |groups| {
        var list := groups[g];
        var i := IndexOf(list, c);
        if i < |list| {
          if list[i].refCount > 1 {
            list := list[i := Entry(c, list[i].refCount - 1)];
          } else {
            list := list[..i] + list[i + 1..];
          }
        }
        groups := groups[g := list];
      }
    }

    method ClearClients(g: nat)
      requires Valid()
      modifies this
      ensures Valid() && groups == After(old(groups), Clear(g))
    {
      if g < |groups| {
        groups := groups[g := []];
      }
    }
  }
}
