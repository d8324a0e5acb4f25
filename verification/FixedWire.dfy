/**
 Fixed-state contents on the wire: the group-present flags, then for each present group a
 field mask and the bodies of its dirty fields. Groups whose whitelist excludes the target
 client are left out.
 */
module FixedWire {
  import opened Wire
  import opened Bits
  import opened SequenceNumbers
  import opened Fields
  import opened GroupFlags
  import opened FixedModel
  import Vlq

  datatype MarshalContext = MarshalContext(baseline: SequenceNumber, target: Option<Client>,
                                           groupBaselines: Option<seq<SequenceNumber>>) {
    function BaselineFor(g: nat): SequenceNumber {
      if groupBaselines.Some? && g < |groupBaselines.value| then groupBaselines.value[g] else baseline
    }

    /** The client being served may not see group `g`. */
    predicate Hides<V>(groups: seq<Group<V>>, g: nat) { target.Some? && !ShouldSend(groups, target.value, g) }
  }

  // ----- one group -----

  function DirtyBits<V>(fields: seq<Field<V>>, b: SequenceNumber): (r: seq<bool>)
    ensures |r| == |fields|
    ensures forall i :: 0 <= i < |r| ==> r[i] == fields[i].IsDirtySince(b)
  {
    seq(|fields|, i requires 0 <= i < |fields| => fields[i].IsDirtySince(b))
  }

  function FieldMask<V>(fields: seq<Field<V>>, b: SequenceNumber): u64
    requires |fields| <= 64
  {
    MaskFitsU64(DirtyBits(fields, b), 64 - |fields|);
    MaskOf(DirtyBits(fields, b))
  }

  lemma FieldMaskBits<V>(fields: seq<Field<V>>, b: SequenceNumber, i: nat)
    requires |fields| <= 64 && i < |fields|
    ensures Bit(FieldMask(fields, b), i) <==> fields[i].IsDirtySince(b)
    ensures fields[i].IsDirtySince(b) ==> FieldMask(fields, b) != 0
  {
    MaskBit(DirtyBits(fields, b), i);
    MaskZero(DirtyBits(fields, b));
  }

  /** An absent value writes nothing. */
  function FieldBytes<V>(spec: FieldSpec<V>, f: Field<V>, b: SequenceNumber): seq<byte> {
    if f.value.Some? then spec.encode(f.value.value, b) else []
  }

  function Bodies<V>(specs: seq<FieldSpec<V>>, fields: seq<Field<V>>, b: SequenceNumber, mask: nat, i: nat): seq<byte>
    requires i <= |specs| == |fields|
    decreases |specs| - i
  {
    if i == |specs| then []
    else (if Bit(mask, i) then FieldBytes(specs[i], fields[i], b) else []) + Bodies(specs, fields, b, mask, i + 1)
  }

  function GroupBytes<V>(specs: seq<FieldSpec<V>>, fields: seq<Field<V>>, b: SequenceNumber): Option<seq<byte>>
    requires |fields| == |specs| <= 64
  {
    var mask := FieldMask(fields, b);
    if mask == 0 then None else Some(Vlq.EncodeU64(mask) + Bodies(specs, fields, b, mask, 0))
  }

  function ReadFields<V>(specs: seq<FieldSpec<V>>, fields: seq<Field<V>>, mask: nat, i: nat, s: seq<byte>)
    : (r: Decoded<seq<Field<V>>>)
    requires i <= |specs| == |fields|
    ensures r.Ok? ==> |r.value| == |fields|
    decreases |specs| - i
  {
    if i == |specs| then Ok(fields, s)
    else if Bit(mask, i) then
      var (v, rest) :- specs[i].decode(s);
      ReadFields(specs, fields[i := Arrived(v)], mask, i + 1, rest)
    else ReadFields(specs, fields, mask, i + 1, s)
  }

  /** The fields after decoding, and whether anything was read. */
  datatype GroupRead<V> = GroupRead(fields: seq<Field<V>>, readAny: bool)

  function ReadGroup<V>(specs: seq<FieldSpec<V>>, fields: seq<Field<V>>, s: seq<byte>): (r: Decoded<GroupRead<V>>)
    requires |fields| == |specs|
    ensures r.Ok? ==> |r.value.fields| == |fields|
  {
    if specs == [] then Ok(GroupRead(fields, false), s)
    else
      var (mask, rest) :- Vlq.DecodeU64(s);
      if mask == 0 then Ok(GroupRead(fields, false), rest)
      else
        var (fields', rest') :- ReadFields(specs, fields, mask, 0, rest);
        Ok(GroupRead(fields', true), rest')
  }

  /** The fields a failed read leaves: those decoded before the failure have arrived. */
  function FieldsLeft<V>(specs: seq<FieldSpec<V>>, fields: seq<Field<V>>, mask: nat, i: nat,
                         s: seq<byte>): (r: seq<Field<V>>)
    requires i <= |specs| == |fields|
    ensures |r| == |fields|
    decreases |specs| - i
  {
    if i == |specs| then fields
    else if !Bit(mask, i) then FieldsLeft(specs, fields, mask, i + 1, s)
    else
      match specs[i].decode(s)
      case Ok(v, rest) => FieldsLeft(specs, fields[i := Arrived(v)], mask, i + 1, rest)
      case Err(_) => fields
  }

  function GroupLeft<V>(specs: seq<FieldSpec<V>>, fields: seq<Field<V>>, s: seq<byte>): (r: seq<Field<V>>)
    requires |fields| == |specs|
    ensures |r| == |fields|
  {
    if specs == [] then fields
    else
      match Vlq.DecodeU64(s)
      case Ok(mask, rest) => if mask == 0 then fields else FieldsLeft(specs, fields, mask, 0, rest)
      case Err(_) => fields
  }

  lemma {:induction false} FieldsLeftOnSuccess<V>(specs: seq<FieldSpec<V>>, fields: seq<Field<V>>, mask: nat, i: nat,
                                                  s: seq<byte>)
    requires i <= |specs| == |fields|
    ensures var r := ReadFields(specs, fields, mask, i, s); r.Ok? ==> FieldsLeft(specs, fields, mask, i, s) == r.value
    decreases |specs| - i
  {
    if i < |specs| {
      if !Bit(mask, i) {
        FieldsLeftOnSuccess(specs, fields, mask, i + 1, s);
      } else if specs[i].decode(s).Ok? {
        FieldsLeftOnSuccess(specs, fields[i := Arrived(specs[i].decode(s).value)], mask, i + 1,
                            specs[i].decode(s).rest);
      }
    }
  }

  lemma GroupLeftOnSuccess<V>(specs: seq<FieldSpec<V>>, fields: seq<Field<V>>, s: seq<byte>)
    requires |fields| == |specs|
    ensures var r := ReadGroup(specs, fields, s); r.Ok? ==> GroupLeft(specs, fields, s) == r.value.fields
  {
    var header := Vlq.DecodeU64(s);
    if header.Ok? {
      FieldsLeftOnSuccess(specs, fields, header.value, 0, header.rest);
    }
  }

  /** A flagged group without registered fields takes no bytes, and one whose mask is zero only its mask. */
  lemma EmptySections<V>(specs: seq<FieldSpec<V>>, fields: seq<Field<V>>, rest: seq<byte>)
    requires |fields| == |specs|
    ensures specs == [] ==> ReadGroup(specs, fields, rest) == Ok(GroupRead(fields, false), rest)
    ensures specs != [] ==> ReadGroup(specs, fields, [0] + rest) == Ok(GroupRead(fields, false), rest)
  {
    Vlq.U64RoundTrip(0, rest);
  }

  /** Whether or not a read succeeds, it leaves every field as it was or with a value that arrived for its bit. */
  lemma {:induction false} ReadLeavesOrReplaces<V>(specs: seq<FieldSpec<V>>, fields: seq<Field<V>>, mask: nat, i: nat,
                                                   s: seq<byte>, j: nat)
    requires i <= |specs| == |fields| && j < |specs|
    ensures var left := FieldsLeft(specs, fields, mask, i, s)[j];
            left == fields[j] || (i <= j && Bit(mask, j) && left.value.Some? && left == Arrived(left.value.value))
    decreases |specs| - i
  {
    if i < |specs| {
      if !Bit(mask, i) {
        ReadLeavesOrReplaces(specs, fields, mask, i + 1, s, j);
      } else if specs[i].decode(s).Ok? {
        var v, rest := specs[i].decode(s).value, specs[i].decode(s).rest;
        ReadLeavesOrReplaces(specs, fields[i := Arrived(v)], mask, i + 1, rest, j);
      }
    }
  }

  /** Every dirty field has a value its codec admits. */
  ghost predicate Sendable<V>(specs: seq<FieldSpec<V>>, fields: seq<Field<V>>, b: SequenceNumber) {
    && |fields| == |specs| <= 64
    && forall i :: 0 <= i < |fields| && fields[i].IsDirtySince(b) ==> fields[i].value.Some?
                                                                      && specs[i].admits(fields[i].value.value)
  }

  ghost predicate AllReadBack<V(!new)>(specs: seq<FieldSpec<V>>) {
    forall i :: 0 <= i < |specs| ==> ReadsBackAdmitted(specs[i])
  }

  /** What the receiver's fields become: those from `i` on that were dirty arrive, the others stay. */
  function Overlaid<V>(specs: seq<FieldSpec<V>>, fields: seq<Field<V>>, into: seq<Field<V>>, b: SequenceNumber, i: nat)
    : (r: seq<Field<V>>)
    requires |specs| == |fields| == |into|
    ensures |r| == |into|
  {
    seq(|into|, j requires 0 <= j < |into| =>
      if i <= j && fields[j].IsDirtySince(b)
         && fields[j].value.Some? then Arrived(specs[j].image(fields[j].value.value, b)) else into[j])
  }

  lemma OverlayStep<V>(specs: seq<FieldSpec<V>>, fields: seq<Field<V>>, into: seq<Field<V>>, b: SequenceNumber, i: nat)
    requires i < |fields| == |into| == |specs|
    ensures var here := if fields[i].IsDirtySince(b) && fields[i].value.Some? then
                          Arrived(specs[i].image(fields[i].value.value, b)) else into[i];
            Overlaid(specs, fields, into[i := here], b, i + 1) == Overlaid(specs, fields, into, b, i)
  {
  }

  lemma {:induction false} ReadInvertsBodies<V(!new)>(specs: seq<FieldSpec<V>>, fields: seq<Field<V>>,
                                                      into: seq<Field<V>>,
                                                      b: SequenceNumber, i: nat, rest: seq<byte>)
    requires AllReadBack(specs) && Sendable(specs, fields, b)
    requires i <= |specs| == |into|
    ensures ReadFields(specs, into, FieldMask(fields, b), i, Bodies(specs, fields, b, FieldMask(fields, b), i) + rest)
         == Ok(Overlaid(specs, fields, into, b, i), rest)
    decreases |specs| - i
  {
    var mask := FieldMask(fields, b);
    if i == |specs| {
      assert [] + rest == rest;
      assert Overlaid(specs, fields, into, b, i) == into;
    } else {
      FieldMaskBits(fields, b, i);
      OverlayStep(specs, fields, into, b, i);
      var more := Bodies(specs, fields, b, mask, i + 1);
      if Bit(mask, i) {
        var v := fields[i].value.value;
        assert ReadsBackAdmitted(specs[i]);
        assert specs[i].encode(v, b) + more + rest == specs[i].encode(v, b) + (more + rest);
        var into' := into[i := Arrived(specs[i].image(v, b))];
        ReadInvertsBodies(specs, fields, into', b, i + 1, rest);
      } else {
        assert [] + more + rest == more + rest;
        ReadInvertsBodies(specs, fields, into, b, i + 1, rest);
        assert into[i := into[i]] == into;
      }
    }
  }

  /** A group's section reads back to the dirty fields laid over the receiver's; no section means nothing was dirty. */
  lemma GroupRoundTrip<V(!new)>(specs: seq<FieldSpec<V>>, fields: seq<Field<V>>, into: seq<Field<V>>, b: SequenceNumber,
                                rest: seq<byte>)
    requires AllReadBack(specs) && Sendable(specs, fields, b) && |into| == |specs|
    ensures var bytes := GroupBytes(specs, fields, b);
            if bytes.Some? then
              ReadGroup(specs, into, bytes.value + rest)
              == Ok(GroupRead(Overlaid(specs, fields, into, b, 0), true), rest)
            else Overlaid(specs, fields, into, b, 0) == into
  {
    var mask := FieldMask(fields, b);
    if mask == 0 {
      forall i | 0 <= i < |fields|
        ensures !fields[i].IsDirtySince(b)
      {
        FieldMaskBits(fields, b, i);
      }
      assert Overlaid(specs, fields, into, b, 0) == into;
    } else {
      var body := Bodies(specs, fields, b, mask, 0);
      MaskZero(DirtyBits(fields, b));
      assert Vlq.EncodeU64(mask) + body + rest == Vlq.EncodeU64(mask) + (body + rest);
      Vlq.U64RoundTrip(mask, body + rest);
      ReadInvertsBodies(specs, fields, into, b, 0, rest);
    }
  }

  // ----- all groups -----

  /** What group `g` contributes for this client: nothing if hidden or clean. */
  function Section<V>(layout: Layout<V>, groups: seq<Group<V>>, mc: MarshalContext, g: nat): Option<seq<byte>>
    requires Supported(layout) && Fits(layout, groups) && g < |layout|
  {
    if mc.Hides(groups, g) then None else GroupBytes(layout[g], groups[g].fields, mc.BaselineFor(g))
  }

  function Sections<V>(layout: Layout<V>, groups: seq<Group<V>>, mc: MarshalContext): (r: seq<Option<seq<byte>>>)
    requires Supported(layout) && Fits(layout, groups)
    ensures |r| == |layout| && forall g :: 0 <= g < |layout| ==> r[g] == Section(layout, groups, mc, g)
  {
    seq(|layout|, g requires 0 <= g < |layout| => Section(layout, groups, mc, g))
  }

  function PresentFlags(sections: seq<Option<seq<byte>>>): (r: seq<bool>)
    ensures |r| == |sections| && forall g :: 0 <= g < |r| ==> r[g] == sections[g].Some?
  {
    seq(|sections|, g requires 0 <= g < |sections| => sections[g].Some?)
  }

  function SectionBytes(section: Option<seq<byte>>): seq<byte> { if section.Some? then section.value else [] }

  function Joined(sections: seq<Option<seq<byte>>>, g: nat): seq<byte>
    requires g <= |sections|
    decreases |sections| - g
  {
    if g == |sections| then [] else SectionBytes(sections[g]) + Joined(sections, g + 1)
  }

  /** The flags and the sections present, or nothing when no group has anything to say. */
  function Assembled(sections: seq<Option<seq<byte>>>): Option<seq<byte>> {
    var flags := PresentFlags(sections);
    if true in flags then Some(EncodeFlags(flags) + Joined(sections, 0)) else None
  }

  /** The contents for one client. */
  function Contents<V>(layout: Layout<V>, groups: seq<Group<V>>, mc: MarshalContext): Option<seq<byte>>
    requires Supported(layout) && Fits(layout, groups)
  {
    Assembled(Sections(layout, groups, mc))
  }

  datatype StateRead<V> = StateRead(groups: seq<Group<V>>, readAny: bool)

  function ReadGroups<V>(layout: Layout<V>, sofar: StateRead<V>, flags: seq<bool>, g: nat,
                         s: seq<byte>): (r: Decoded<StateRead<V>>)
    requires Fits(layout, sofar.groups) && g <= |flags| == |layout|
    ensures r.Ok? ==> Fits(layout, r.value.groups)
    decreases |layout| - g
  {
    if g == |layout| then Ok(sofar, s)
    else if flags[g] then
      var (group, rest) :- ReadGroup(layout[g], sofar.groups[g].fields, s);
      ReadGroups(layout, StateRead(sofar.groups[g := sofar.groups[g].(fields := group.fields)], sofar.readAny
                                                                                                || group.readAny),
                 flags, g + 1, rest)
    else ReadGroups(layout, sofar, flags, g + 1, s)
  }

  function ReadContents<V>(layout: Layout<V>, groups: seq<Group<V>>, s: seq<byte>): (r: Decoded<StateRead<V>>)
    requires Fits(layout, groups)
    ensures r.Ok? ==> Fits(layout, r.value.groups)
  {
    var (flags, rest) :- DecodeFlags(|layout|, s);
    ReadGroups(layout, StateRead(groups, false), flags, 0, rest)
  }

  /** The groups a read leaves, whether or not it succeeds. */
  function GroupsLeft<V>(layout: Layout<V>, groups: seq<Group<V>>, flags: seq<bool>, g: nat,
                         s: seq<byte>): (r: seq<Group<V>>)
    requires Fits(layout, groups) && g <= |flags| == |layout|
    ensures Fits(layout, r)
    decreases |layout| - g
  {
    if g == |layout| then groups
    else if !flags[g] then GroupsLeft(layout, groups, flags, g + 1, s)
    else
      var groups' := groups[g := groups[g].(fields := GroupLeft(layout[g], groups[g].fields, s))];
      match ReadGroup(layout[g], groups[g].fields, s)
      case Ok(_, rest) => GroupsLeft(layout, groups', flags, g + 1, rest)
      case Err(_) => groups'
  }

  function ContentsLeft<V>(layout: Layout<V>, groups: seq<Group<V>>, s: seq<byte>): (r: seq<Group<V>>)
    requires Fits(layout, groups)
    ensures Fits(layout, r)
  {
    match DecodeFlags(|layout|, s)
    case Ok(flags, rest) => GroupsLeft(layout, groups, flags, 0, rest)
    case Err(_) => groups
  }

  lemma {:induction false} GroupsLeftOnSuccess<V>(layout: Layout<V>, sofar: StateRead<V>, flags: seq<bool>, g: nat,
                                                  s: seq<byte>)
    requires Fits(layout, sofar.groups) && g <= |flags| == |layout|
    ensures var r := ReadGroups(layout, sofar, flags, g, s);
            r.Ok? ==> GroupsLeft(layout, sofar.groups, flags, g, s) == r.value.groups
    decreases |layout| - g
  {
    if g < |layout| {
      if flags[g] {
        var r := ReadGroup(layout[g], sofar.groups[g].fields, s);
        GroupLeftOnSuccess(layout[g], sofar.groups[g].fields, s);
        if r.Ok? {
          var next := StateRead(sofar.groups[g := sofar.groups[g].(fields := r.value.fields)], sofar.readAny
                                                                                               || r.value.readAny);
          GroupsLeftOnSuccess(layout, next, flags, g + 1, r.rest);
        }
      } else {
        GroupsLeftOnSuccess(layout, sofar, flags, g + 1, s);
      }
    }
  }

  /** A successful read leaves the groups it reports. */
  lemma ContentsLeftOnSuccess<V>(layout: Layout<V>, groups: seq<Group<V>>, s: seq<byte>)
    requires Fits(layout, groups)
    ensures var r := ReadContents(layout, groups, s); r.Ok? ==> ContentsLeft(layout, groups, s) == r.value.groups
  {
    var header := DecodeFlags(|layout|, s);
    if header.Ok? {
      GroupsLeftOnSuccess(layout, StateRead(groups, false), header.value, 0, header.rest);
    }
  }

  ghost predicate SendableGroups<V(!new)>(layout: Layout<V>, groups: seq<Group<V>>, mc: MarshalContext) {
    && Supported(layout) && Fits(layout, groups)
    && forall g :: 0 <= g < |layout| ==> AllReadBack(layout[g])
                                         && Sendable(layout[g], groups[g].fields, mc.BaselineFor(g))
  }

  /** What a receiving state becomes: hidden groups untouched, dirty fields of the others arrived. */
  function DeliveredGroup<V>(specs: seq<FieldSpec<V>>, groups: seq<Group<V>>, into: Group<V>, mc: MarshalContext,
                             g: nat): Group<V>
    requires g < |groups| && |groups[g].fields| == |into.fields| == |specs|
  {
    if mc.Hides(groups, g) then into
    else into.(fields := Overlaid(specs, groups[g].fields, into.fields, mc.BaselineFor(g), 0))
  }

  function DeliveredGroups<V>(layout: Layout<V>, groups: seq<Group<V>>, into: seq<Group<V>>, mc: MarshalContext,
                              from: nat): (r: seq<Group<V>>)
    requires Fits(layout, groups) && Fits(layout, into)
    ensures Fits(layout, r)
  {
    seq(|layout|, g requires 0 <= g < |layout| => if from <= g then DeliveredGroup(layout[g], groups, into[g], mc, g)
      else into[g])
  }

  predicate AnyFrom(flags: seq<bool>, g: nat)
    requires g <= |flags|
    decreases |flags| - g
  {
    g < |flags| && (flags[g] || AnyFrom(flags, g + 1))
  }

  /** One group of the reading loop undoes one group of the writing loop. */
  lemma SectionRoundTrip<V(!new)>(layout: Layout<V>, groups: seq<Group<V>>, into: Group<V>, mc: MarshalContext, g: nat,
                                  rest: seq<byte>)
    requires SendableGroups(layout, groups, mc) && g < |layout| && |into.fields| == |layout[g]|
    ensures var section := Section(layout, groups, mc, g);
            if section.Some? then
              ReadGroup(layout[g], into.fields, section.value + rest)
              == Ok(GroupRead(DeliveredGroup(layout[g], groups, into, mc, g).fields, true), rest)
            else DeliveredGroup(layout[g], groups, into, mc, g) == into
  {
    GroupRoundTrip(layout[g], groups[g].fields, into.fields, mc.BaselineFor(g), rest);
  }

  lemma DeliverStep<V>(layout: Layout<V>, groups: seq<Group<V>>, into: seq<Group<V>>, mc: MarshalContext, g: nat)
    requires Fits(layout, groups) && Fits(layout, into) && g < |layout|
    ensures DeliveredGroups(layout, groups, into[g := DeliveredGroup(layout[g], groups, into[g], mc, g)], mc, g + 1)
         == DeliveredGroups(layout, groups, into, mc, g)
  {
  }

  lemma {:induction false} ReadInvertsSections<V(!new)>(layout: Layout<V>, groups: seq<Group<V>>, into: StateRead<V>,
                                                        mc: MarshalContext, sections: seq<Option<seq<byte>>>, g: nat,
                                                        rest: seq<byte>)
    requires SendableGroups(layout, groups, mc) && Fits(layout, into.groups) && g <= |layout|
    requires sections == Sections(layout, groups, mc)
    ensures ReadGroups(layout, into, PresentFlags(sections), g, Joined(sections, g) + rest)
         == Ok(StateRead(DeliveredGroups(layout, groups, into.groups, mc, g), into.readAny
                                                                              || AnyFrom(PresentFlags(sections), g)),
               rest)
    decreases |layout| - g
  {
    if g == |layout| {
      assert [] + rest == rest;
      assert DeliveredGroups(layout, groups, into.groups, mc, g) == into.groups;
    } else {
      var section, more := sections[g], Joined(sections, g + 1);
      assert SectionBytes(section) + more + rest == SectionBytes(section) + (more + rest);
      SectionRoundTrip(layout, groups, into.groups[g], mc, g, more + rest);
      DeliverStep(layout, groups, into.groups, mc, g);
      var here := DeliveredGroup(layout[g], groups, into.groups[g], mc, g);
      var into' := StateRead(into.groups[g := here], into.readAny || section.Some?);
      ReadInvertsSections(layout, groups, into', mc, sections, g + 1, rest);
      assert here == into.groups[g].(fields := here.fields);
      if section.None? {
        assert into.groups[g := here] == into.groups;
        assert [] + (more + rest) == more + rest;
      }
    }
  }

  lemma {:induction false} AnyFromIsMembership(flags: seq<bool>, g: nat)
    requires g <= |flags|
    ensures AnyFrom(flags, g) <==> true in flags[g..]
    decreases |flags| - g
  {
    if g < |flags| {
      AnyFromIsMembership(flags, g + 1);
      assert flags[g..] == [flags[g]] + flags[g + 1..];
    }
  }

  /**
   Contents round trip: a receiver that decodes what was written for a client gets exactly
   the dirty fields of the groups that client may see, consumes exactly the bytes written,
   and every other field is left as it was.
   */
  lemma ContentsRoundTrip<V(!new)>(layout: Layout<V>, groups: seq<Group<V>>, into: seq<Group<V>>, mc: MarshalContext,
                                   rest: seq<byte>)
    requires SendableGroups(layout, groups, mc) && Fits(layout, into)
    ensures var bytes := Contents(layout, groups, mc);
            var delivered := DeliveredGroups(layout, groups, into, mc, 0);
            if bytes.Some? then ReadContents(layout, into, bytes.value + rest) == Ok(StateRead(delivered, true), rest)
            else delivered == into
  {
    var sections := Sections(layout, groups, mc);
    var flags, body := PresentFlags(sections), Joined(sections, 0);
    AnyFromIsMembership(flags, 0);
    assert flags[0..] == flags;
    if true in flags {
      assert EncodeFlags(flags) + body + rest == EncodeFlags(flags) + (body + rest);
      FlagsRoundTrip(flags, body + rest);
      ReadInvertsSections(layout, groups, StateRead(into, false), mc, sections, 0, rest);
    } else {
      forall g | 0 <= g < |layout|
        ensures DeliveredGroup(layout[g], groups, into[g], mc, g) == into[g]
      {
        assert !flags[g];
        SectionRoundTrip(layout, groups, into[g], mc, g, rest);
      }
    }
  }

  /** Something is written exactly when some group the client may see has a dirty field. */
  lemma ContentsPresent<V>(layout: Layout<V>, groups: seq<Group<V>>, mc: MarshalContext)
    requires Supported(layout) && Fits(layout, groups)
    ensures Contents(layout, groups, mc).Some?
       <==> exists g, i :: 0 <= g < |layout| && !mc.Hides(groups, g) && 0 <= i < |groups[g].fields|
                           && groups[g].fields[i].IsDirtySince(mc.BaselineFor(g))
  {
    var flags := PresentFlags(Sections(layout, groups, mc));
    forall g | 0 <= g < |layout|
      ensures flags[g] <==> !mc.Hides(groups, g) && exists i :: 0 <= i < |groups[g].fields|
                                                                && groups[g].fields[i].IsDirtySince(mc.BaselineFor(g))
    {
      MaskZero(DirtyBits(groups[g].fields, mc.BaselineFor(g)));
    }
  }

  /** The client, if there is one, is on the group's list, or the list is empty. */
  predicate Sees<V>(groups: seq<Group<V>>, mc: MarshalContext, g: nat)
    requires g < |groups|
  {
    var list := groups[g].whitelist.value;
    mc.target.None? || list.None? || list.value == [] || mc.target.value in list.value
  }

  /** The field changed after the group's own baseline or, if it has none, after the message's. */
  predicate Newer<V>(f: Field<V>, mc: MarshalContext, g: nat) {
    && f.lastModified.IsValid()
    && (if mc.groupBaselines.Some? && g < |mc.groupBaselines.value| then mc.groupBaselines.value[g]
        else mc.baseline).Lt(f.lastModified)
  }

  /** Exactly which fields a message brings: those newer than the group's baseline, in the groups the client sees. */
  lemma {:induction false} FieldSentExactly<V(!new)>(layout: Layout<V>, groups: seq<Group<V>>, into: seq<Group<V>>,
                                                     mc: MarshalContext, g: nat, i: nat)
    requires SendableGroups(layout, groups, mc) && Fits(layout, into) && g < |layout| && i < |layout[g]|
    ensures var bytes, f := Contents(layout, groups, mc), groups[g].fields[i];
            if Sees(groups, mc, g) && Newer(f, mc, g) then
              && bytes.Some? && f.value.Some?
              && var r := ReadContents(layout, into, bytes.value);
              && r.Ok? && r.rest == [] && r.value.readAny
              && r.value.groups[g].fields[i] == Arrived(layout[g][i].image(f.value.value, mc.BaselineFor(g)))
            else bytes.Some? ==>
                   && ReadContents(layout, into, bytes.value).Ok?
                   && ReadContents(layout, into, bytes.value).value.groups[g].fields[i] == into[g].fields[i]
  {
    var bytes := Contents(layout, groups, mc);
    ContentsRoundTrip(layout, groups, into, mc, []);
    DeliveredExactly(layout, groups, into, mc, g, i);
    if bytes.Some? {
      assert bytes.value + [] == bytes.value;
    } else {
      SilentMeansClean(layout, groups, mc, g, i);
    }
  }

  lemma {:induction false} DeliveredExactly<V(!new)>(layout: Layout<V>, groups: seq<Group<V>>, into: seq<Group<V>>,
                                                     mc: MarshalContext, g: nat, i: nat)
    requires SendableGroups(layout, groups, mc) && Fits(layout, into) && g < |layout| && i < |layout[g]|
    ensures var got, f := DeliveredGroups(layout, groups, into, mc, 0)[g].fields[i], groups[g].fields[i];
            if Sees(groups, mc, g) && Newer(f, mc, g) then
              f.value.Some? && got == Arrived(layout[g][i].image(f.value.value, mc.BaselineFor(g)))
            else got == into[g].fields[i]
  {
    assert Sendable(layout[g], groups[g].fields, mc.BaselineFor(g));
    assert mc.Hides(groups, g) <==> !Sees(groups, mc, g);
    assert groups[g].fields[i].IsDirtySince(mc.BaselineFor(g)) <==> Newer(groups[g].fields[i], mc, g);
  }

  /** Without contents, no field of a group the client sees is newer than its baseline. */
  lemma {:induction false} SilentMeansClean<V>(layout: Layout<V>, groups: seq<Group<V>>, mc: MarshalContext, g: nat,
                                               i: nat)
    requires Supported(layout) && Fits(layout, groups) && g < |layout| && i < |layout[g]|
    requires Contents(layout, groups, mc).None?
    ensures !(Sees(groups, mc, g) && Newer(groups[g].fields[i], mc, g))
  {
    var sections := Sections(layout, groups, mc);
    assert PresentFlags(sections)[g] == sections[g].Some?;
    FieldMaskBits(groups[g].fields, mc.BaselineFor(g), i);
  }

  // ----- visibility -----

  /** Two states look the same to a client: same verdict on every group, same fields in the groups it may see. */
  ghost predicate LooksTheSame<V>(layout: Layout<V>, a: seq<Group<V>>, b: seq<Group<V>>, mc: MarshalContext) {
    && Fits(layout, a) && Fits(layout, b)
    && forall g :: 0 <= g < |layout| ==>
                     mc.Hides(a, g) == mc.Hides(b, g) && (!mc.Hides(a, g) ==> a[g].fields == b[g].fields)
  }

  /** Non-interference: states that look the same to a client are written to the same bytes for it. */
  lemma VisibilityNonInterference<V>(layout: Layout<V>, a: seq<Group<V>>, b: seq<Group<V>>, mc: MarshalContext)
    requires Supported(layout) && LooksTheSame(layout, a, b, mc)
    ensures Contents(layout, a, mc) == Contents(layout, b, mc)
  {
    assert Sections(layout, a, mc) == Sections(layout, b, mc);
  }

  /** In assembled contents, bit `g % 8` of byte `g / 8` says whether section `g` is there. */
  lemma AssembledFlag(sections: seq<Option<seq<byte>>>, g: nat)
    requires g < |sections| && Assembled(sections).Some?
    ensures g / 8 < |Assembled(sections).value|
    ensures Bit(Assembled(sections).value[g / 8], g % 8) == sections[g].Some?
  {
    var flags := PresentFlags(sections);
    FlagBitAt(flags, 0, g);
    assert (EncodeFlags(flags) + Joined(sections, 0))[g / 8] == EncodeFlags(flags)[g / 8];
  }

  /** A hidden group's bit is zero in the flag bytes that open the contents. */
  lemma HiddenGroupFlagIsZero<V>(layout: Layout<V>, groups: seq<Group<V>>, mc: MarshalContext, g: nat)
    requires Supported(layout) && Fits(layout, groups) && g < |layout| && mc.Hides(groups, g)
    requires Contents(layout, groups, mc).Some?
    ensures g / 8 < |Contents(layout, groups, mc).value|
    ensures !Bit(Contents(layout, groups, mc).value[g / 8], g % 8)
  {
    AssembledFlag(Sections(layout, groups, mc), g);
  }

  /** Decoding never touches a group whose flag is zero, whatever the bytes and even if it fails. */
  lemma {:induction false} UnflaggedGroupUntouched<V>(layout: Layout<V>, groups: seq<Group<V>>, flags: seq<bool>,
                                                      g: nat,
                                                      s: seq<byte>, k: nat)
    requires Fits(layout, groups) && g <= |flags| == |layout| && k < |layout|
    requires k < g || !flags[k]
    ensures GroupsLeft(layout, groups, flags, g, s)[k] == groups[k]
    decreases |layout| - g
  {
    if g < |layout| {
      if flags[g] {
        var groups' := groups[g := groups[g].(fields := GroupLeft(layout[g], groups[g].fields, s))];
        var r := ReadGroup(layout[g], groups[g].fields, s);
        if r.Ok? {
          UnflaggedGroupUntouched(layout, groups', flags, g + 1, r.rest, k);
        }
      } else {
        UnflaggedGroupUntouched(layout, groups, flags, g + 1, s, k);
      }
    }
  }
}
