/**
 Fixed states as bundle fragments. Their contents meet the law the bundle reader relies on,
 so a state's delta travels through a bundle buffer and still brings a receiver up to date.
 */
module FixedBundle {
  import opened Wire
  import opened Bits
  import opened SequenceNumbers
  import opened Fields
  import opened GroupFlags
  import opened FixedModel
  import opened FixedWire
  import opened FixedConvergence
  import opened BundleRecords
  import opened BundleWriter
  import Vlq

  // ----- writing a decoded delta again -----

  /** No baseline and no client: everything stamped is written. */
  const EVERYTHING := MarshalContext(Invalid, None, None)

  /** A plain field of a decoded delta is dirty exactly when the sender's was, and has the same bytes. */
  lemma ArrivedIsDirty<V(!new)>(specs: seq<FieldSpec<V>>, fields: seq<Field<V>>, b: SequenceNumber, i: nat)
    requires |fields| == |specs| && i < |specs| && WellStamped(fields[i]) && IsPlain(specs[i])
    ensures var got := Overlaid(specs, fields, ConstructedFields(specs), b, 0)[i];
            && got.IsDirtySince(Invalid) == fields[i].IsDirtySince(b)
            && (fields[i].IsDirtySince(b) ==> FieldBytes(specs[i], got, Invalid) == FieldBytes(specs[i], fields[i], b))
  {
  }

  lemma {:induction false} SameBodies<V>(specs: seq<FieldSpec<V>>, a: seq<Field<V>>, ba: SequenceNumber,
                                         b: seq<Field<V>>,
                                         bb: SequenceNumber, mask: nat, i: nat)
    requires i <= |specs| == |a| == |b|
    requires forall k :: i <= k < |specs| && Bit(mask, k)
                         ==> FieldBytes(specs[k], a[k], ba) == FieldBytes(specs[k], b[k], bb)
    ensures Bodies(specs, a, ba, mask, i) == Bodies(specs, b, bb, mask, i)
    decreases |specs| - i
  {
    if i < |specs| {
      SameBodies(specs, a, ba, b, bb, mask, i + 1);
    }
  }

  lemma SameGroupBytes<V(!new)>(specs: seq<FieldSpec<V>>, fields: seq<Field<V>>, b: SequenceNumber)
    requires |fields| == |specs| <= 64 && forall i :: 0 <= i < |fields| ==> WellStamped(fields[i]) && IsPlain(specs[i])
    ensures GroupBytes(specs, Overlaid(specs, fields, ConstructedFields(specs), b, 0), Invalid)
         == GroupBytes(specs, fields, b)
  {
    var got := Overlaid(specs, fields, ConstructedFields(specs), b, 0);
    forall i | 0 <= i < |fields|
      ensures got[i].IsDirtySince(Invalid) == fields[i].IsDirtySince(b)
      ensures fields[i].IsDirtySince(b) ==> FieldBytes(specs[i], got[i], Invalid) == FieldBytes(specs[i], fields[i], b)
    {
      ArrivedIsDirty(specs, fields, b, i);
    }
    assert DirtyBits(got, Invalid) == DirtyBits(fields, b);
    var mask := FieldMask(fields, b);
    forall i | 0 <= i < |fields| && Bit(mask, i)
      ensures FieldBytes(specs[i], got[i], Invalid) == FieldBytes(specs[i], fields[i], b)
    {
      FieldMaskBits(fields, b, i);
    }
    SameBodies(specs, got, Invalid, fields, b, mask, 0);
  }

  lemma ConstructedIsSilent<V>(specs: seq<FieldSpec<V>>)
    requires |specs| <= 64
    ensures GroupBytes(specs, ConstructedFields(specs), Invalid) == None
  {
    MaskZero(DirtyBits(ConstructedFields(specs), Invalid));
  }

  ghost predicate AllStamped<V>(groups: seq<Group<V>>) {
    forall g, i :: 0 <= g < |groups| && 0 <= i < |groups[g].fields| ==> WellStamped(groups[g].fields[i])
  }

  /** Relaying: a decoded delta, written again in full, has the bytes the sender wrote for the client. */
  lemma RelayWritesSameBytes<V(!new)>(layout: Layout<V>, groups: seq<Group<V>>, mc: MarshalContext)
    requires LawfulLayout(layout) && Fits(layout, groups) && AllStamped(groups)
    ensures Contents(layout, DeliveredGroups(layout, groups, ConstructedGroups(layout), mc, 0), EVERYTHING)
         == Contents(layout, groups, mc)
  {
    var got := DeliveredGroups(layout, groups, ConstructedGroups(layout), mc, 0);
    forall g | 0 <= g < |layout|
      ensures Section(layout, got, EVERYTHING, g) == Section(layout, groups, mc, g)
    {
      if mc.Hides(groups, g) {
        ConstructedIsSilent(layout[g]);
      } else {
        SameGroupBytes(layout[g], groups[g].fields, mc.BaselineFor(g));
      }
    }
    assert Sections(layout, got, EVERYTHING) == Sections(layout, groups, mc);
  }

  // ----- the body codec of fixed states -----

  /**
   Fragment bodies of fixed states, by type info: the bytes the state's decoder consumes.
   Types that are not registered do not decode.
   */
  function FixedCodec<V>(registry: TypeInfo -> Option<Layout<V>>): BodyCodec<seq<byte>> {
    BodyCodec((t: TypeInfo, body: seq<byte>) => body, (t: TypeInfo, s: seq<byte>) => DecodeBody(registry(t), s))
  }

  function DecodeBody<V>(layout: Option<Layout<V>>, s: seq<byte>): Decoded<seq<byte>> {
    if layout.None? then Err(UnknownFragmentType)
    else
      var (state, rest) :- ReadContents(layout.value, ConstructedGroups(layout.value), s);
      if |rest| <= |s| then Ok(s[..|s| - |rest|], rest) else Err(UnknownFragmentType)
  }

  /** Field decoders leave a suffix of what they were given. */
  ghost predicate FieldsAdvance<V>(specs: seq<FieldSpec<V>>) {
    forall i, s :: 0 <= i < |specs| && specs[i].decode(s).Ok? ==> SuffixOf(specs[i].decode(s).rest, s)
  }

  ghost predicate LayoutAdvances<V>(layout: Layout<V>) { forall g :: 0 <= g < |layout| ==> FieldsAdvance(layout[g]) }

  lemma {:induction false} ReadFieldsAdvances<V>(specs: seq<FieldSpec<V>>, fields: seq<Field<V>>, mask: nat, i: nat,
                                                 s: seq<byte>)
    requires FieldsAdvance(specs) && i <= |specs| == |fields|
    ensures var r := ReadFields(specs, fields, mask, i, s); r.Ok? ==> SuffixOf(r.rest, s)
    decreases |specs| - i
  {
    if i < |specs| {
      if Bit(mask, i) {
        var d := specs[i].decode(s);
        if d.Ok? {
          ReadFieldsAdvances(specs, fields[i := Arrived(d.value)], mask, i + 1, d.rest);
          var r := ReadFields(specs, fields[i := Arrived(d.value)], mask, i + 1, d.rest);
          if r.Ok? {
            SuffixTransitive(r.rest, d.rest, s);
          }
        }
      } else {
        ReadFieldsAdvances(specs, fields, mask, i + 1, s);
      }
    }
  }

  lemma ReadGroupAdvances<V>(specs: seq<FieldSpec<V>>, fields: seq<Field<V>>, s: seq<byte>)
    requires FieldsAdvance(specs) && |fields| == |specs|
    ensures var r := ReadGroup(specs, fields, s); r.Ok? ==> SuffixOf(r.rest, s)
  {
    var header := Vlq.DecodeU64(s);
    if specs != [] && header.Ok? && header.value != 0 {
      ReadFieldsAdvances(specs, fields, header.value, 0, header.rest);
      var r := ReadFields(specs, fields, header.value, 0, header.rest);
      if r.Ok? {
        SuffixTransitive(r.rest, header.rest, s);
      }
    }
  }

  lemma {:induction false} ReadGroupsAdvances<V>(layout: Layout<V>, sofar: StateRead<V>, flags: seq<bool>, g: nat,
                                                 s: seq<byte>)
    requires LayoutAdvances(layout) && Fits(layout, sofar.groups) && g <= |flags| == |layout|
    ensures var r := ReadGroups(layout, sofar, flags, g, s); r.Ok? ==> SuffixOf(r.rest, s)
    decreases |layout| - g
  {
    if g < |layout| {
      if flags[g] {
        ReadGroupAdvances(layout[g], sofar.groups[g].fields, s);
        var d := ReadGroup(layout[g], sofar.groups[g].fields, s);
        if d.Ok? {
          var next := StateRead(sofar.groups[g := sofar.groups[g].(fields := d.value.fields)], sofar.readAny
                                                                                               || d.value.readAny);
          ReadGroupsAdvances(layout, next, flags, g + 1, d.rest);
          var r := ReadGroups(layout, next, flags, g + 1, d.rest);
          if r.Ok? {
            SuffixTransitive(r.rest, d.rest, s);
          }
        }
      } else {
        ReadGroupsAdvances(layout, sofar, flags, g + 1, s);
      }
    }
  }

  lemma {:induction false} DecodeFlagsAdvances(flags: seq<bool>, count: nat, s: seq<byte>)
    requires |flags| <= count
    ensures var r := DecodeFrom(flags, count, s); r.Ok? ==> SuffixOf(r.rest, s)
    decreases count - |flags|
  {
    if s != [] {
      var end := FlagEnd(count, |flags|);
      var flags' := flags + BitsOf(s[0], end - |flags|);
      if end != count {
        DecodeFlagsAdvances(flags', count, s[1..]);
        var r := DecodeFrom(flags', count, s[1..]);
        if r.Ok? {
          SuffixTransitive(r.rest, s[1..], s);
        }
      }
    }
  }

  lemma ReadContentsAdvances<V>(layout: Layout<V>, groups: seq<Group<V>>, s: seq<byte>)
    requires LayoutAdvances(layout) && Fits(layout, groups)
    ensures var r := ReadContents(layout, groups, s); r.Ok? ==> SuffixOf(r.rest, s)
  {
    DecodeFlagsAdvances([], |layout|, s);
    var header := DecodeFlags(|layout|, s);
    if header.Ok? {
      ReadGroupsAdvances(layout, StateRead(groups, false), header.value, 0, header.rest);
      var r := ReadContents(layout, groups, s);
      if r.Ok? {
        SuffixTransitive(r.rest, header.rest, s);
      }
    }
  }

  ghost predicate RegistryAdvances<V(!new)>(registry: TypeInfo -> Option<Layout<V>>) {
    forall t: TypeInfo :: registry(t).Some? ==> LayoutAdvances(registry(t).value)
  }

  lemma FixedCodecAdvances<V(!new)>(registry: TypeInfo -> Option<Layout<V>>)
    requires RegistryAdvances(registry)
    ensures Advances(FixedCodec(registry))
  {
    forall t: TypeInfo, s: seq<byte>
      ensures var r := FixedCodec(registry).decode(t, s); r.Ok? ==> SuffixOf(r.rest, s)
    {
      if registry(t).Some? {
        ReadContentsAdvances(registry(t).value, ConstructedGroups(registry(t).value), s);
      }
    }
  }

  // ----- from sender to receiver -----

  /** Contents of whatever fields meet the bundle's law: their decoder stops exactly where they end. */
  lemma ContentsSelfDelimiting<V(!new)>(registry: TypeInfo -> Option<Layout<V>>, layout: Layout<V>,
                                        groups: seq<Group<V>>,
                                        mc: MarshalContext, key: u32, t: TypeInfo)
    requires SendableGroups(layout, groups, mc) && Contents(layout, groups, mc).Some?
    requires registry(t) == Some(layout) && t != TypeIndex(0)
    ensures SelfDelimiting(FixedCodec(registry), Fragment(key, t, Contents(layout, groups, mc).value))
  {
    var codec, bytes := FixedCodec(registry), Contents(layout, groups, mc).value;
    forall rest: seq<byte>
      ensures codec.decode(t, codec.encode(t, bytes) + rest) == Ok(bytes, rest)
    {
      ContentsRoundTrip(layout, groups, ConstructedGroups(layout), mc, rest);
      assert (bytes + rest)[..|bytes|] == bytes;
    }
  }

  /**
   End to end. A sender's delta for a client, kept as any fragment of any record of a bundle,
   is among what a reader of the bundle sees; and merging what its body decodes to brings
   every field of every group the client may see to the sender's value, exactly when the
   field was dirty or no other default is registered for it.
   */
  lemma BundleBringsUpToDate<V(!new)>(registry: TypeInfo -> Option<Layout<V>>, layout: Layout<V>, run: StateRun<V>,
                                      receiver: seq<Group<V>>, mc: MarshalContext, how: MergeContext,
                                      after: seq<Group<V>>,
                                      calls: seq<Call<seq<byte>>>, k: nat, f: Fragment<seq<byte>>, g: nat, i: nat)
    requires RegistryAdvances(registry) && registry(f.typeInfo) == Some(layout)
    requires LawfulLayout(layout) && ValidStateRun(layout, run) && run.Fitting(layout)
    requires InSyncAtBaselines(layout, run, receiver, mc) && Contents(layout, run.State(layout), mc) == Some(f.body)
    requires forall n :: 0 <= n < |calls| ==> Offerable(FixedCodec(registry), calls[n])
    requires k < |calls| && Keeps(WireFormat(FixedCodec(registry)), calls, k, f)
    requires Receives(layout, Some(f.body), receiver, how, after)
    requires g < |layout| && i < |layout[g]| && !mc.Hides(run.State(layout), g)
    ensures Advances(FixedCodec(registry))
    ensures var seen := ParseBundle(FixedCodec(registry), BufferRun(WireFormat(FixedCodec(registry)), calls));
            seen.error.None? && exists n :: 0 <= n < |seen.visits| && seen.visits[n].fragment == f
    ensures after[g].fields[i].Effective(layout[g][i].zero)
         == run.State(layout)[g].fields[i].Effective(layout[g][i].zero)
       <==> BroughtUpToDate(layout, run.State(layout), mc, g, i)
  {
    FixedCodecAdvances(registry);
    KeptFragmentsVisited(FixedCodec(registry), calls, k, f);
    StateConverges(layout, run, receiver, mc, how, after, g, i);
  }

  /**
   It is kept, and so arrives, whenever the call ends well and all of its fragments fit
   behind the earlier records.
   */
  lemma FittingBundleBringsUpToDate<V(!new)>(registry: TypeInfo -> Option<Layout<V>>, layout: Layout<V>,
                                             run: StateRun<V>, receiver: seq<Group<V>>, mc: MarshalContext,
                                             how: MergeContext, after: seq<Group<V>>, calls: seq<Call<seq<byte>>>,
                                             k: nat, f: Fragment<seq<byte>>, g: nat, i: nat)
    requires RegistryAdvances(registry) && registry(f.typeInfo) == Some(layout)
    requires LawfulLayout(layout) && ValidStateRun(layout, run) && run.Fitting(layout)
    requires InSyncAtBaselines(layout, run, receiver, mc) && Contents(layout, run.State(layout), mc) == Some(f.body)
    requires forall n :: 0 <= n < |calls| ==> Offerable(FixedCodec(registry), calls[n])
    requires k < |calls| && calls[k].verdict && f in FragmentsOf(calls[k].attempts)
    requires var format := WireFormat(FixedCodec(registry));
             AllFit(format, |BufferRun(format, calls[..k])| + HeaderLen(format, calls[k].interestId), calls[k].attempts)
    requires Receives(layout, Some(f.body), receiver, how, after)
    requires g < |layout| && i < |layout[g]| && !mc.Hides(run.State(layout), g)
    ensures Advances(FixedCodec(registry))
    ensures var seen := ParseBundle(FixedCodec(registry), BufferRun(WireFormat(FixedCodec(registry)), calls));
            seen.error.None? && exists n :: 0 <= n < |seen.visits| && seen.visits[n].fragment == f
    ensures after[g].fields[i].Effective(layout[g][i].zero)
         == run.State(layout)[g].fields[i].Effective(layout[g][i].zero)
       <==> BroughtUpToDate(layout, run.State(layout), mc, g, i)
  {
    FittingCallKeeps(WireFormat(FixedCodec(registry)), calls, k, f);
    BundleBringsUpToDate(registry, layout, run, receiver, mc, how, after, calls, k, f, g, i);
  }
}
