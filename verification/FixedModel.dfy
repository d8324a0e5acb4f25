/**
 Fixed replicated states: groups of registered fields, each group with a client whitelist,
 merged field by field. Field values share one type `V`; each registered field says which
 values it admits and how they are written.
 */
module FixedModel {
  import opened Wire
  import opened Sequences
  import opened SequenceNumbers
  import opened Fields

  type Client = u64

  /**
   One registered field: how its value is written since a baseline, what is read back, its
   type's default, and the default its constructor registers, if any. `image` is what a
   receiver gets of a value: the value itself, or a delta of it.
   */
  datatype FieldSpec<!V> = FieldSpec(encode: (V, SequenceNumber) -> seq<byte>, decode: seq<byte> -> Decoded<V>,
                                     image: (V, SequenceNumber) -> V, admits: V -> bool, zero: V, registered: Option<V>)

  /** The codec of a registered field reads back the image of every admitted value and stops where it ends. */
  ghost predicate ReadsBackAdmitted<V(!new)>(spec: FieldSpec<V>) {
    && (forall x: V, b: SequenceNumber, rest: seq<byte> ::
          spec.admits(x) ==> spec.decode(spec.encode(x, b) + rest) == Ok(spec.image(x, b), rest))
    && spec.admits(spec.zero)
  }

  /** A field that is sent whole, whatever the baseline. */
  ghost predicate IsPlain<V(!new)>(spec: FieldSpec<V>) {
    forall x: V, b: SequenceNumber :: spec.image(x, b) == x && spec.encode(x, b) == spec.encode(x, Invalid)
  }

  /** The registered fields of each group. A group without fields is unregistered. */
  type Layout<!V> = seq<seq<FieldSpec<V>>>

  predicate Supported<V>(layout: Layout<V>) { forall g :: 0 <= g < |layout| ==> |layout[g]| <= 64 }

  datatype Group<V> = Group(fields: seq<Field<V>>, whitelist: Field<seq<Client>>)

  predicate Fits<V>(layout: Layout<V>, groups: seq<Group<V>>) {
    |groups| == |layout| && forall g :: 0 <= g < |layout| ==> |groups[g].fields| == |layout[g]|
  }

  /** A whitelist field holding a list, as a fresh state has an empty one. */
  function Listed(clients: seq<Client>): Field<seq<Client>> { Field(Some(clients), ValidNonSequence, None, false) }

  function ConstructedFields<V>(specs: seq<FieldSpec<V>>): (r: seq<Field<V>>)
    ensures |r| == |specs|
  {
    seq(|specs|, i requires 0 <= i < |specs| => Constructed(specs[i].registered))
  }

  /** The groups a state's constructor makes. */
  function ConstructedGroups<V>(layout: Layout<V>): (r: seq<Group<V>>)
    ensures Fits(layout, r)
  {
    seq(|layout|, g requires 0 <= g < |layout| => Group(ConstructedFields(layout[g]), Listed([])))
  }

  // ----- whitelists -----

  function Whitelisted(w: Field<seq<Client>>): seq<Client> { w.Effective([]) }

  /** An empty whitelist sends the group to every client. */
  predicate Allows(w: Field<seq<Client>>, client: Client) { Whitelisted(w) == [] || client in Whitelisted(w) }

  predicate ShouldSend<V>(groups: seq<Group<V>>, client: Client, g: nat) {
    g < |groups| && Allows(groups[g].whitelist, client)
  }

  function AddClient(w: Field<seq<Client>>, client: Client, capacity: nat): Field<seq<Client>> {
    if capacity == 0 then w
    else Access(w, [], (list: seq<Client>) =>
                  if client in list || |list| >= capacity then (list, false) else (list + [client], true))
  }

  function RemoveClient(w: Field<seq<Client>>, client: Client): Field<seq<Client>> {
    Access(w, [], (list: seq<Client>) =>
             var at := FirstIndex(list, client);
             if at == |list| then (list, false) else (list[..at] + list[at + 1..], true))
  }

  function ClearClients(w: Field<seq<Client>>): Field<seq<Client>> {
    Access(w, [], (list: seq<Client>) => ([], list != []))
  }

  datatype WhitelistStep = Add(client: Client) | Remove(client: Client) | Clear

  function WhitelistAfter(w: Field<seq<Client>>, step: WhitelistStep, capacity: nat): Field<seq<Client>> {
    match step
    case Add(c) => AddClient(w, c, capacity)
    case Remove(c) => RemoveClient(w, c)
    case Clear => ClearClients(w)
  }

  function WhitelistRun(w: Field<seq<Client>>, steps: seq<WhitelistStep>, capacity: nat): Field<seq<Client>> {
    if steps == [] then w
    else WhitelistAfter(WhitelistRun(w, steps[..|steps| - 1], capacity), steps[|steps| - 1], capacity)
  }

  /** What a fixed whitelist is: a set of at most `capacity` clients. Nothing counts how often a client was added. */
  function SetAfter(clients: set<Client>, step: WhitelistStep, capacity: nat): set<Client> {
    match step
    case Add(c) => if |clients| < capacity then clients + {c} else clients
    case Remove(c) => clients - {c}
    case Clear => {}
  }

  function ClientSet(steps: seq<WhitelistStep>, capacity: nat): set<Client> {
    if steps == [] then {} else SetAfter(ClientSet(steps[..|steps| - 1], capacity), steps[|steps| - 1], capacity)
  }

  ghost predicate Holds(list: seq<Client>, clients: set<Client>) {
    && (forall c :: c in list <==> c in clients)
    && |list| == |clients|
    && forall i, j :: 0 <= i < j < |list| ==> list[i] != list[j]
  }

  lemma HoldsAdd(list: seq<Client>, clients: set<Client>, c: Client)
    requires Holds(list, clients) && c !in list
    ensures Holds(list + [c], clients + {c})
  {
  }

  lemma HoldsRemove(list: seq<Client>, clients: set<Client>, at: nat)
    requires Holds(list, clients) && at < |list|
    ensures Holds(list[..at] + list[at + 1..], clients - {list[at]})
  {
    var left := list[..at] + list[at + 1..];
    forall c
      ensures c in left <==> c in clients - {list[at]}
    {
      if c in clients && c != list[at] {
        var k :| 0 <= k < |list| && list[k] == c;
        assert c == left[if k < at then k else k - 1];
      }
    }
  }

  /** The list an operation leaves, whether or not the field held one. */
  function ListAfter(list: seq<Client>, step: WhitelistStep, capacity: nat): seq<Client> {
    match step
    case Add(c) => if c in list || |list| >= capacity then list else list + [c]
    case Remove(c) => var at := FirstIndex(list, c); if at == |list| then list else list[..at] + list[at + 1..]
    case Clear => []
  }

  lemma StepOnList(w: Field<seq<Client>>, step: WhitelistStep, capacity: nat)
    ensures Whitelisted(WhitelistAfter(w, step, capacity)) == ListAfter(Whitelisted(w), step, capacity)
  {
  }

  lemma AddKeepsSet(list: seq<Client>, clients: set<Client>, c: Client, capacity: nat)
    requires Holds(list, clients) && |clients| <= capacity
    ensures Holds(ListAfter(list, Add(c), capacity), SetAfter(clients, Add(c), capacity))
  {
    if c in list {
      assert clients + {c} == clients;
    } else {
      HoldsAdd(list, clients, c);
    }
  }

  lemma RemoveKeepsSet(list: seq<Client>, clients: set<Client>, c: Client, capacity: nat)
    requires Holds(list, clients)
    ensures Holds(ListAfter(list, Remove(c), capacity), SetAfter(clients, Remove(c), capacity))
  {
    if c in list {
      HoldsRemove(list, clients, FirstIndex(list, c));
    } else {
      assert clients - {c} == clients;
    }
  }

  lemma ListKeepsSet(list: seq<Client>, clients: set<Client>, step: WhitelistStep, capacity: nat)
    requires Holds(list, clients) && |clients| <= capacity
    ensures Holds(ListAfter(list, step, capacity), SetAfter(clients, step, capacity))
    ensures |ListAfter(list, step, capacity)| <= capacity
  {
    match step
    case Add(c) => AddKeepsSet(list, clients, c, capacity);
    case Remove(c) => RemoveKeepsSet(list, clients, c, capacity);
    case Clear =>
  }

  /**
   Over every run on a fresh whitelist, the list holds exactly that set, without duplicates,
   and never exceeds its capacity.
   */
  lemma {:induction false} WhitelistIsBoundedSet(steps: seq<WhitelistStep>, capacity: nat)
    ensures |ClientSet(steps, capacity)| <= capacity
    ensures Holds(Whitelisted(WhitelistRun(Listed([]), steps, capacity)), ClientSet(steps, capacity))
  {
    if steps != [] {
      var before, last := steps[..|steps| - 1], steps[|steps| - 1];
      WhitelistIsBoundedSet(before, capacity);
      var w := WhitelistRun(Listed([]), before, capacity);
      StepOnList(w, last, capacity);
      ListKeepsSet(Whitelisted(w), ClientSet(before, capacity), last, capacity);
    }
  }

  /** Handing a group to one owner: the list is emptied, then the owner is added. */
  function SetOwner(w: Field<seq<Client>>, owner: Client, capacity: nat): Field<seq<Client>> {
    AddClient(ClearClients(w), owner, capacity)
  }

  function OwnerRun(w: Field<seq<Client>>, owners: seq<Client>, capacity: nat): Field<seq<Client>> {
    if owners == [] then w
    else SetOwner(OwnerRun(w, owners[..|owners| - 1], capacity), owners[|owners| - 1], capacity)
  }

  /** After any run of ownership changes, on any starting list, the group goes to the last owner and nobody else. */
  lemma OnlyLastOwnerAllowed(w: Field<seq<Client>>, owners: seq<Client>, capacity: nat, client: Client)
    requires owners != [] && capacity > 0
    ensures Allows(OwnerRun(w, owners, capacity), client) <==> client == owners[|owners| - 1]
  {
  }

  function ListRun(list: seq<Client>, steps: seq<WhitelistStep>, capacity: nat): seq<Client> {
    if steps == [] then list else ListAfter(ListRun(list, steps[..|steps| - 1], capacity), steps[|steps| - 1], capacity)
  }

  /** Some step changes the list. */
  predicate SomeStepChanges(list: seq<Client>, steps: seq<WhitelistStep>, capacity: nat) {
    steps != [] &&
    var before := ListRun(list, steps[..|steps| - 1], capacity);
    ListAfter(before, steps[|steps| - 1], capacity) != before || SomeStepChanges(list, steps[..|steps| - 1], capacity)
  }

  /** A run leaves the list of its steps, stamped exactly if it was before or a step has changed it. */
  lemma {:induction false} WhitelistRunStamps(w: Field<seq<Client>>, steps: seq<WhitelistStep>, capacity: nat)
    ensures var w' := WhitelistRun(w, steps, capacity);
            && Whitelisted(w') == ListRun(Whitelisted(w), steps, capacity)
            && w'.defaultValue == w.defaultValue
            && (w'.lastModified.IsValid()
                <==> w.lastModified.IsValid() || SomeStepChanges(Whitelisted(w), steps, capacity))
  {
    if steps != [] {
      WhitelistRunStamps(w, steps[..|steps| - 1], capacity);
      StepStamps(WhitelistRun(w, steps[..|steps| - 1], capacity), steps[|steps| - 1], capacity);
    }
  }

  lemma {:induction false} StepStamps(w: Field<seq<Client>>, step: WhitelistStep, capacity: nat)
    ensures var w' := WhitelistAfter(w, step, capacity);
            && Whitelisted(w') == ListAfter(Whitelisted(w), step, capacity)
            && w'.defaultValue == w.defaultValue
            && (w'.lastModified.IsValid() <==> w.lastModified.IsValid() || Whitelisted(w') != Whitelisted(w))
  {
    StepOnList(w, step, capacity);
    match step
    case Add(c) =>
    case Remove(c) =>
      var list := Whitelisted(w);
      var at := FirstIndex(list, c);
      if at < |list| {
        assert |list[..at] + list[at + 1..]| < |list|;
      }
    case Clear =>
  }

  /** So edits of a whitelist are merged exactly then; a state's own whitelists start out stamped. */
  lemma {:induction false} WhitelistEditsArrive(w: Field<seq<Client>>, steps: seq<WhitelistStep>, capacity: nat,
                                                prior: Field<seq<Client>>,
                                                mc: MergeContext)
    requires w.defaultValue.None?
    ensures Whitelisted(MergeWhitelist(prior, WhitelistRun(w, steps, capacity), mc).field)
         == if w.lastModified.IsValid() || SomeStepChanges(Whitelisted(w), steps, capacity)
            then ListRun(Whitelisted(w), steps, capacity) else Whitelisted(prior)
  {
    WhitelistRunStamps(w, steps, capacity);
    MergeExactly(prior, WhitelistRun(w, steps, capacity), mc.stamp, mc.inherit, []);
  }

  /** Ownership is merged whatever was there: afterwards the group goes to the last owner and nobody else. */
  lemma {:induction false} OwnerArrives(w: Field<seq<Client>>, owners: seq<Client>, capacity: nat,
                                        prior: Field<seq<Client>>, mc: MergeContext, client: Client)
    requires owners != [] && capacity > 0
    ensures Allows(MergeWhitelist(prior, OwnerRun(w, owners, capacity), mc).field, client)
       <==> client == owners[|owners| - 1]
  {
    OnlyLastOwnerAllowed(w, owners, capacity, client);
    MergeExactly(prior, OwnerRun(w, owners, capacity), mc.stamp, mc.inherit, []);
  }

  // ----- merging -----

  /** What one field's merge contributes to the state's summary. */
  datatype Report = Report(stamp: SequenceNumber, newNetworkData: bool, detected: bool)

  function ReportOf<T>(m: Merged<T>): Report { Report(m.field.lastModified, m.field.newNetworkData, m.detected) }

  datatype Outcome = Outcome(lastModified: SequenceNumber, newNetworkData: bool, detected: bool) {
    function Note(r: Report): Outcome {
      Outcome(lastModified.Max(r.stamp), newNetworkData || r.newNetworkData, detected || r.detected)
    }
  }

  const NOTHING_SEEN := Outcome(Invalid, false, false)

  function Tally(reports: seq<Report>): Outcome {
    if reports == [] then NOTHING_SEEN else Tally(reports[..|reports| - 1]).Note(reports[|reports| - 1])
  }

  ghost predicate Any(reports: seq<Report>, p: Report -> bool) { exists k :: 0 <= k < |reports| && p(reports[k]) }

  lemma AnyConcat(a: seq<Report>, b: seq<Report>, p: Report -> bool)
    ensures Any(a + b, p) <==> Any(a, p) || Any(b, p)
  {
    forall k | 0 <= k < |a|
      ensures (a + b)[k] == a[k]
    {
    }
    forall k | 0 <= k < |b|
      ensures (a + b)[|a| + k] == b[k]
    {
    }
  }

  /** The summary keeps the greatest stamp, and whether any field has or detected new data. */
  lemma {:induction false} TallySummarises(reports: seq<Report>, b: SequenceNumber)
    ensures b.Lt(Tally(reports).lastModified) <==> Any(reports, (r: Report) => b.Lt(r.stamp))
    ensures Tally(reports).detected <==> Any(reports, (r: Report) => r.detected)
    ensures Tally(reports).newNetworkData <==> Any(reports, (r: Report) => r.newNetworkData)
  {
    if reports != [] {
      var before := reports[..|reports| - 1];
      TallySummarises(before, b);
      assert reports == before + [reports[|reports| - 1]];
      assert forall k :: 0 <= k < |before| ==> before[k] == reports[k];
    }
  }

  /** The parameters every field of one merge shares. */
  datatype MergeContext = MergeContext(stamp: SequenceNumber, inherit: bool)

  function MergeFields<V(==)>(specs: seq<FieldSpec<V>>, prior: seq<Field<V>>, incoming: seq<Field<V>>, mc: MergeContext)
    : (r: seq<Merged<V>>)
    requires |prior| == |incoming| == |specs|
    ensures |r| == |specs|
  {
    seq(|specs|, i requires 0 <= i < |specs| => Merge(prior[i], incoming[i], mc.stamp, mc.inherit, specs[i].zero))
  }

  function MergeWhitelist(prior: Field<seq<Client>>, incoming: Field<seq<Client>>,
                          mc: MergeContext): Merged<seq<Client>> {
    Merge(prior, incoming, mc.stamp, mc.inherit, [])
  }

  function FieldsOf<V>(merged: seq<Merged<V>>): (r: seq<Field<V>>)
    ensures |r| == |merged|
  {
    seq(|merged|, i requires 0 <= i < |merged| => merged[i].field)
  }

  function ReportsOf<V>(merged: seq<Merged<V>>): (r: seq<Report>)
    ensures |r| == |merged|
  {
    seq(|merged|, i requires 0 <= i < |merged| => ReportOf(merged[i]))
  }

  function MergeGroups<V(==)>(layout: Layout<V>, prior: seq<Group<V>>, incoming: seq<Group<V>>, mc: MergeContext)
    : (r: seq<Group<V>>)
    requires Fits(layout, prior) && Fits(layout, incoming)
    ensures Fits(layout, r)
  {
    seq(|layout|, g requires 0 <= g < |layout| =>
      Group(FieldsOf(MergeFields(layout[g], prior[g].fields, incoming[g].fields, mc)),
            MergeWhitelist(prior[g].whitelist, incoming[g].whitelist, mc).field))
  }

  /** The reports of the fields of the first `count` groups, in merging order. */
  function FieldReports<V(==)>(layout: Layout<V>, prior: seq<Group<V>>, incoming: seq<Group<V>>, mc: MergeContext,
                               count: nat)
    : seq<Report>
    requires Fits(layout, prior) && Fits(layout, incoming) && count <= |layout|
  {
    if count == 0 then []
    else
      FieldReports(layout, prior, incoming, mc, count - 1)
      + ReportsOf(MergeFields(layout[count - 1], prior[count - 1].fields, incoming[count - 1].fields, mc))
  }

  function WhitelistReports<V>(prior: seq<Group<V>>, incoming: seq<Group<V>>, mc: MergeContext,
                               count: nat): (r: seq<Report>)
    requires count <= |prior| == |incoming|
    ensures |r| == count
  {
    seq(count, g requires 0 <= g < count => ReportOf(MergeWhitelist(prior[g].whitelist, incoming[g].whitelist, mc)))
  }

  /** Every field of every group is merged first, then every whitelist. */
  function MergeOutcome<V(==)>(layout: Layout<V>, prior: seq<Group<V>>, incoming: seq<Group<V>>,
                               mc: MergeContext): Outcome
    requires Fits(layout, prior) && Fits(layout, incoming)
  {
    Tally(FieldReports(layout, prior, incoming, mc, |layout|) + WhitelistReports(prior, incoming, mc, |layout|))
  }

  /** The field reports are the reports of the fields of the groups, and of nothing else. */
  lemma {:induction false} FieldReportsExact<V>(layout: Layout<V>, prior: seq<Group<V>>, incoming: seq<Group<V>>,
                                                mc: MergeContext, count: nat, p: Report -> bool)
    requires Fits(layout, prior) && Fits(layout, incoming) && count <= |layout|
    ensures Any(FieldReports(layout, prior, incoming, mc, count), p)
       <==> exists g :: 0 <= g < count
                        && Any(ReportsOf(MergeFields(layout[g], prior[g].fields, incoming[g].fields, mc)), p)
  {
    if count > 0 {
      FieldReportsExact(layout, prior, incoming, mc, count - 1, p);
      AnyConcat(FieldReports(layout, prior, incoming, mc, count - 1),
                ReportsOf(MergeFields(layout[count - 1], prior[count - 1].fields, incoming[count - 1].fields, mc)), p);
    }
  }

  /** Some field or whitelist was modified after the baseline. */
  ghost predicate SomethingNewer<V>(groups: seq<Group<V>>, b: SequenceNumber) {
    exists g :: 0 <= g < |groups| && (b.Lt(groups[g].whitelist.lastModified) || SomeFieldNewer(groups[g].fields, b))
  }

  ghost predicate SomeFieldNewer<V>(fields: seq<Field<V>>, b: SequenceNumber) {
    exists i :: 0 <= i < |fields| && b.Lt(fields[i].lastModified)
  }

  /** The reports of merged fields speak about those fields. */
  lemma ReportsSpeakOfFields<V>(merged: seq<Merged<V>>, b: SequenceNumber)
    ensures Any(ReportsOf(merged), (r: Report) => b.Lt(r.stamp)) <==> SomeFieldNewer(FieldsOf(merged), b)
  {
    var p := (r: Report) => b.Lt(r.stamp);
    assert forall i :: 0 <= i < |merged| ==> p(ReportsOf(merged)[i]) == b.Lt(FieldsOf(merged)[i].lastModified);
  }

  lemma WhitelistReportsExact<V>(prior: seq<Group<V>>, incoming: seq<Group<V>>, mc: MergeContext, p: Report -> bool)
    requires |prior| == |incoming|
    ensures Any(WhitelistReports(prior, incoming, mc, |prior|), p)
       <==> exists g :: 0 <= g < |prior|
                        && p(ReportOf(MergeWhitelist(prior[g].whitelist, incoming[g].whitelist, mc)))
  {
    var reports := WhitelistReports(prior, incoming, mc, |prior|);
    assert forall g :: 0 <= g < |prior|
                       ==> reports[g] == ReportOf(MergeWhitelist(prior[g].whitelist, incoming[g].whitelist, mc));
  }

  lemma OutcomeSplits<V>(layout: Layout<V>, prior: seq<Group<V>>, incoming: seq<Group<V>>, mc: MergeContext,
                         b: SequenceNumber)
    requires Fits(layout, prior) && Fits(layout, incoming)
    ensures b.Lt(MergeOutcome(layout, prior, incoming, mc).lastModified)
       <==> || Any(FieldReports(layout, prior, incoming, mc, |layout|), (r: Report) => b.Lt(r.stamp))
            || Any(WhitelistReports(prior, incoming, mc, |layout|), (r: Report) => b.Lt(r.stamp))
    ensures MergeOutcome(layout, prior, incoming, mc).detected
       <==> || Any(FieldReports(layout, prior, incoming, mc, |layout|), (r: Report) => r.detected)
            || Any(WhitelistReports(prior, incoming, mc, |layout|), (r: Report) => r.detected)
    ensures MergeOutcome(layout, prior, incoming, mc).newNetworkData
       <==> || Any(FieldReports(layout, prior, incoming, mc, |layout|), (r: Report) => r.newNetworkData)
            || Any(WhitelistReports(prior, incoming, mc, |layout|), (r: Report) => r.newNetworkData)
  {
    var fields := FieldReports(layout, prior, incoming, mc, |layout|);
    var lists := WhitelistReports(prior, incoming, mc, |layout|);
    TallySummarises(fields + lists, b);
    AnyConcat(fields, lists, (r: Report) => b.Lt(r.stamp));
    AnyConcat(fields, lists, (r: Report) => r.detected);
    AnyConcat(fields, lists, (r: Report) => r.newNetworkData);
  }

  /**
   Dirty summary: a merged state's last-modified stamp is newer than a baseline exactly when
   some field or whitelist is.
   */
  lemma DirtySummary<V>(layout: Layout<V>, prior: seq<Group<V>>, incoming: seq<Group<V>>, mc: MergeContext,
                        b: SequenceNumber)
    requires Fits(layout, prior) && Fits(layout, incoming)
    ensures b.Lt(MergeOutcome(layout, prior, incoming, mc).lastModified)
       <==> SomethingNewer(MergeGroups(layout, prior, incoming, mc), b)
  {
    var p := (r: Report) => b.Lt(r.stamp);
    var merged := MergeGroups(layout, prior, incoming, mc);
    OutcomeSplits(layout, prior, incoming, mc, b);
    FieldReportsExact(layout, prior, incoming, mc, |layout|, p);
    WhitelistReportsExact(prior, incoming, mc, p);
    forall g | 0 <= g < |layout|
      ensures Any(ReportsOf(MergeFields(layout[g], prior[g].fields, incoming[g].fields, mc)), p)
         <==> SomeFieldNewer(merged[g].fields, b)
    {
      ReportsSpeakOfFields(MergeFields(layout[g], prior[g].fields, incoming[g].fields, mc), b);
    }
  }

  /** Some field or whitelist has new network data. */
  ghost predicate SomethingNew<V>(groups: seq<Group<V>>) {
    exists g :: 0 <= g < |groups| && (groups[g].whitelist.newNetworkData || SomeFieldNew(groups[g].fields))
  }

  ghost predicate SomeFieldNew<V>(fields: seq<Field<V>>) {
    exists i :: 0 <= i < |fields| && fields[i].newNetworkData
  }

  lemma ReportsSpeakOfNews<V>(merged: seq<Merged<V>>)
    ensures Any(ReportsOf(merged), (r: Report) => r.newNetworkData) <==> SomeFieldNew(FieldsOf(merged))
  {
    var p := (r: Report) => r.newNetworkData;
    assert forall i :: 0 <= i < |merged| ==> p(ReportsOf(merged)[i]) == FieldsOf(merged)[i].newNetworkData;
  }

  /** News summary: a merged state reports new network data exactly when some field or whitelist has it. */
  lemma NewsSummary<V>(layout: Layout<V>, prior: seq<Group<V>>, incoming: seq<Group<V>>, mc: MergeContext)
    requires Fits(layout, prior) && Fits(layout, incoming)
    ensures MergeOutcome(layout, prior, incoming, mc).newNetworkData
       <==> SomethingNew(MergeGroups(layout, prior, incoming, mc))
  {
    var p := (r: Report) => r.newNetworkData;
    var merged := MergeGroups(layout, prior, incoming, mc);
    OutcomeSplits(layout, prior, incoming, mc, Invalid);
    FieldReportsExact(layout, prior, incoming, mc, |layout|, p);
    WhitelistReportsExact(prior, incoming, mc, p);
    forall g | 0 <= g < |layout|
      ensures Any(ReportsOf(MergeFields(layout[g], prior[g].fields, incoming[g].fields, mc)), p)
         <==> SomeFieldNew(merged[g].fields)
    {
      ReportsSpeakOfNews(MergeFields(layout[g], prior[g].fields, incoming[g].fields, mc));
    }
  }

  /** A field that changes its effective value makes the whole merge detect new data. */
  lemma ChangeIsDetected<V>(layout: Layout<V>, prior: seq<Group<V>>, incoming: seq<Group<V>>, mc: MergeContext, g: nat,
                            i: nat)
    requires Fits(layout, prior) && Fits(layout, incoming) && g < |layout| && i < |layout[g]|
    requires var zero := layout[g][i].zero;
             MergeGroups(layout, prior, incoming, mc)[g].fields[i].Effective(zero) != prior[g].fields[i].Effective(zero)
    ensures MergeOutcome(layout, prior, incoming, mc).detected
    ensures mc.stamp.Le(MergeOutcome(layout, prior, incoming, mc).lastModified)
  {
    var outcome, fields := MergeOutcome(layout, prior, incoming, mc),
                           MergeGroups(layout, prior, incoming, mc)[g].fields;
    if !outcome.detected {
      QuietMergeChangesNothing(layout, prior, incoming, mc, g);
    }
    MergeReport(prior[g].fields[i], incoming[g].fields[i], mc.stamp, mc.inherit, layout[g][i].zero);
    DirtySummary(layout, prior, incoming, mc, outcome.lastModified);
    assert fields[i].lastModified == mc.stamp;
    assert outcome.lastModified.Lt(mc.stamp) ==> SomeFieldNewer(fields, outcome.lastModified);
  }

  /** The merged field has the old effective value and the old stamp. */
  ghost predicate Untouched<T>(prior: Field<T>, merged: Field<T>, zero: T) {
    merged.Effective(zero) == prior.Effective(zero) && merged.lastModified.Same(prior.lastModified)
  }

  /** A merge that detects nothing new has changed no value and no stamp anywhere in the state. */
  lemma QuietMergeChangesNothing<V>(layout: Layout<V>, prior: seq<Group<V>>, incoming: seq<Group<V>>, mc: MergeContext,
                                    g: nat)
    requires Fits(layout, prior) && Fits(layout, incoming) && g < |layout|
    requires !MergeOutcome(layout, prior, incoming, mc).detected
    ensures var merged := MergeGroups(layout, prior, incoming, mc)[g];
            && Untouched(prior[g].whitelist, merged.whitelist, [])
            && forall i :: 0 <= i < |layout[g]| ==> Untouched(prior[g].fields[i], merged.fields[i], layout[g][i].zero)
  {
    var p := (r: Report) => r.detected;
    OutcomeSplits(layout, prior, incoming, mc, Invalid);
    FieldReportsExact(layout, prior, incoming, mc, |layout|, p);
    WhitelistReportsExact(prior, incoming, mc, p);
    var reports := ReportsOf(MergeFields(layout[g], prior[g].fields, incoming[g].fields, mc));
    assert !Any(reports, p);
    MergeReport(prior[g].whitelist, incoming[g].whitelist, mc.stamp, mc.inherit, []);
    forall i | 0 <= i < |layout[g]|
      ensures Untouched(prior[g].fields[i], MergeGroups(layout, prior, incoming, mc)[g].fields[i], layout[g][i].zero)
    {
      assert !p(reports[i]);
      MergeReport(prior[g].fields[i], incoming[g].fields[i], mc.stamp, mc.inherit, layout[g][i].zero);
    }
  }
}
