/**
 Containers as fields of a fixed state: a group's mask announces a dirty container, and its
 body is the container's snapshot or delta since the group's baseline.
 */
module ContainerField {
  import opened Wire
  import opened SequenceNumbers
  import opened LiveMask
  import opened ContainerModel
  import opened ContainerHistory
  import opened ContainerWire
  import opened ContainerConvergence
  import opened Fields
  import opened FixedModel
  import opened FixedWire
  import opened FixedBundle
  import opened BundleRecords
  import opened BundleWriter

  /**
   How containers are held among the values of a state, in what order they are enumerated,
   and what the size test says.
   */
  datatype Holder<!K, !W, !V> = Holder(format: ContainerWire.Format<K, W>, box: Container<K, W> -> V,
                                       unbox: V -> Container<K, W>,
                                       enumerate: map<K, W> -> seq<(K, W)>,
                                       inefficient: (Container<K, W>, SequenceNumber) -> bool)
  {
    function Written(x: V, b: SequenceNumber): seq<byte> {
      var c := unbox(x);
      if |enumerate(c.values)| < 0x1_0000_0000 then MarshalSince(format, c, b, inefficient(c, b), enumerate(c.values))
      else []
    }

    function Read(s: seq<byte>): Decoded<V> {
      var (c, rest) :- DecodeContainer(format, s);
      Ok(box(c), rest)
    }

    /** What a receiver gets of a container: the container its bytes decode to. */
    function Payload(x: V, b: SequenceNumber): V {
      match Read(Written(x, b))
      case Ok(payload, _) => payload
      case Err(_) => x
    }
  }

  /** A container within the caps of its format, whose deltas never carry the repeat marker. */
  ghost predicate Fitting<K, W, V>(h: Holder<K, W, V>, c: Container<K, W>) {
    && Enumerates(h.enumerate(c.values), c.values) && |c.values| <= h.format.cap && |c.values| < 0x1_0000_0000
    && forall b :: NoRepeatMarker(DeltaSent(c, b, h.inefficient(c, b)))
                   && |DeltaSent(c, b, h.inefficient(c, b))| <= h.format.cap
  }

  /** The registered field of a container. */
  ghost function ContainerSpec<K, W, V>(h: Holder<K, W, V>, zero: V): FieldSpec<V> {
    FieldSpec((x: V, b: SequenceNumber) => h.Written(x, b), (s: seq<byte>) => h.Read(s),
              (x: V, b: SequenceNumber) => h.Payload(x, b),
              (x: V) => Fitting(h, h.unbox(x)), zero, None)
  }

  /** What the bytes of a container decode to, whatever follows them. */
  ghost function Sent<K, W, V>(h: Holder<K, W, V>, c: Container<K, W>, b: SequenceNumber): Container<K, W> {
    var sent := DeltaSent(c, b, h.inefficient(c, b));
    if sent == [] then SnapshotOf(c.lastModified.Normal(), c.values)
    else DeltaOf(Images(Receiver(h.format, c.values), PopulateAll(c.values, sent)))
  }

  lemma {:induction false} MarshalledDecodes<K(!new), W(!new), V>(h: Holder<K, W, V>, c: Container<K, W>,
                                                                  b: SequenceNumber,
                                                                  rest: seq<byte>)
    requires LawfulFormat(h.format) && Fitting(h, c)
    ensures DecodeContainer(h.format, MarshalSince(h.format, c, b, h.inefficient(c, b), h.enumerate(c.values)) + rest)
         == Ok(Sent(h, c, b), rest)
  {
    var inefficient, entries := h.inefficient(c, b), h.enumerate(c.values);
    var sent := DeltaSent(c, b, inefficient);
    MarshalledForm(h.format, c, b, inefficient, entries);
    if sent == [] {
      SnapshotRoundTrip(h.format, c.lastModified, entries, c.values, rest);
    } else {
      var received := DeltaArrives(h.format, c.values, sent, rest);
    }
  }

  /** The payload does not depend on what follows the container on the wire. */
  lemma {:induction false} WrittenReadsBack<K(!new), W(!new), V>(h: Holder<K, W, V>, x: V, b: SequenceNumber,
                                                                 rest: seq<byte>)
    requires LawfulFormat(h.format) && Fitting(h, h.unbox(x))
    ensures h.Read(h.Written(x, b) + rest) == Ok(h.Payload(x, b), rest)
    ensures h.Payload(x, b) == h.box(Sent(h, h.unbox(x), b))
  {
    MarshalledDecodes(h, h.unbox(x), b, rest);
    MarshalledDecodes(h, h.unbox(x), b, []);
    assert h.Written(x, b) + [] == h.Written(x, b);
  }

  lemma {:induction false} ContainerSpecReadsBack<K(!new), W(!new), V(!new)>(h: Holder<K, W, V>, zero: V)
    requires LawfulFormat(h.format) && Fitting(h, h.unbox(zero))
    ensures ReadsBackAdmitted(ContainerSpec(h, zero))
  {
    var spec := ContainerSpec(h, zero);
    forall x: V, b: SequenceNumber, rest: seq<byte> | spec.admits(x)
      ensures spec.decode(spec.encode(x, b) + rest) == Ok(spec.image(x, b), rest)
    {
      WrittenReadsBack(h, x, b, rest);
    }
  }

  /** Field (g, i) of a state is a dirty container in a group the client may see. */
  ghost predicate SendsContainer<K, W, V>(h: Holder<K, W, V>, layout: Layout<V>, groups: seq<Group<V>>,
                                          mc: MarshalContext, g: nat, i: nat,
                                          c: Container<K, W>, zero: V)
  {
    && Fits(layout, groups) && g < |layout| && i < |layout[g]| && layout[g][i] == ContainerSpec(h, zero)
    && !mc.Hides(groups, g)
    && groups[g].fields[i].value == Some(h.box(c)) && h.unbox(h.box(c)) == c
    && groups[g].fields[i].lastModified == c.lastModified && IsDirty(c, mc.BaselineFor(g))
  }

  /** What arrives of a container brings a receiver to the sender's values if its mark lets it in. */
  lemma {:induction false} SentConverges<K(!new), W(!new), V>(h: Holder<K, W, V>, run: History<K, W>,
                                                              c: Container<K, W>, b: SequenceNumber,
                                                              receiver: Container<K, W>, at: SequenceNumber,
                                                              inherit: bool)
    requires LawfulFormat(h.format) && Fitting(h, c)
    requires DeltaSent(c, b, h.inefficient(c, b)) != [] ==>
               Sender(run, c) && Covers(c.journal, b) && Steady(run, b) && receiver.values == run.ValuesAsOf(b)
    ensures ContainerConvergence.Outcome(receiver, Sent(h, c, b), at, inherit,
                                         PayloadStamp(c, b, h.inefficient(c, b)), c.values)
  {
    var payload := ContainerConverges(h.format, run, c, b, h.inefficient(c, b), h.enumerate(c.values), receiver, at,
                                      inherit, []);
    MarshalledDecodes(h, c, b, []);
  }

  /** A dirty field of a visible group arrives as the image of its value. */
  lemma {:induction false} DirtySlotArrives<V>(layout: Layout<V>, groups: seq<Group<V>>, into: seq<Group<V>>,
                                               mc: MarshalContext, g: nat, i: nat)
    requires Fits(layout, groups) && Fits(layout, into) && g < |layout| && i < |layout[g]| && !mc.Hides(groups, g)
    requires groups[g].fields[i].IsDirtySince(mc.BaselineFor(g)) && groups[g].fields[i].value.Some?
    ensures DeliveredGroups(layout, groups, into, mc, 0)[g].fields[i]
         == Arrived(layout[g][i].image(groups[g].fields[i].value.value, mc.BaselineFor(g)))
  {
  }

  /**
   A container through a group mask. However many other fields travel with it, what arrives in
   its place is the payload its own marshalling makes; and merging that into a receiver's
   container gives the sender's values under the conditions of container convergence.
   */
  lemma {:induction false} ContainerThroughGroup<K(!new), W(!new), V(!new)>(
    h: Holder<K, W, V>, layout: Layout<V>, groups: seq<Group<V>>, into: seq<Group<V>>, mc: MarshalContext, g: nat,
    i: nat,
    zero: V, run: History<K, W>, c: Container<K, W>, receiver: Container<K, W>, at: SequenceNumber, inherit: bool,
    rest: seq<byte>)
    requires LawfulFormat(h.format) && SendableGroups(layout, groups, mc) && Fits(layout, into)
    requires SendsContainer(h, layout, groups, mc, g, i, c, zero)
    requires var b := mc.BaselineFor(g);
             DeltaSent(c, b, h.inefficient(c, b)) != [] ==>
               Sender(run, c) && Covers(c.journal, b) && Steady(run, b) && receiver.values == run.ValuesAsOf(b)
    ensures Contents(layout, groups, mc).Some?
    ensures var got := ReadContents(layout, into, Contents(layout, groups, mc).value + rest);
            got.Ok? && got.rest == rest
            && got.value.groups[g].fields[i] == Arrived(h.box(Sent(h, c, mc.BaselineFor(g))))
    ensures var b := mc.BaselineFor(g);
            ContainerConvergence.Outcome(receiver, Sent(h, c, b), at, inherit,
                                         PayloadStamp(c, b, h.inefficient(c, b)), c.values)
  {
    var b := mc.BaselineFor(g);
    SlotIsSendable(h, layout, groups, mc, g, i, c, zero);
    ContentsPresent(layout, groups, mc);
    ContentsRoundTrip(layout, groups, into, mc, rest);
    DirtySlotArrives(layout, groups, into, mc, g, i);
    WrittenReadsBack(h, h.box(c), b, []);
    SentConverges(h, run, c, b, receiver, at, inherit);
  }

  lemma {:induction false} SlotIsSendable<K, W, V(!new)>(h: Holder<K, W, V>, layout: Layout<V>, groups: seq<Group<V>>,
                                                         mc: MarshalContext,
                                                         g: nat, i: nat, c: Container<K, W>, zero: V)
    requires SendableGroups(layout, groups, mc) && SendsContainer(h, layout, groups, mc, g, i, c, zero)
    ensures groups[g].fields[i].IsDirtySince(mc.BaselineFor(g)) && Fitting(h, c)
  {
    assert Sendable(layout[g], groups[g].fields, mc.BaselineFor(g));
    assert groups[g].fields[i].IsDirtySince(mc.BaselineFor(g));
    assert layout[g][i].admits(h.box(c));
  }

  /**
   And through a bundle: the contents kept as any fragment of any record are seen by its
   reader, and decode to that payload.
   */
  lemma {:induction false} ContainerThroughBundle<K(!new), W(!new), V(!new)>(
    h: Holder<K, W, V>, registry: TypeInfo -> Option<Layout<V>>, layout: Layout<V>, groups: seq<Group<V>>,
    mc: MarshalContext,
    g: nat, i: nat, zero: V, c: Container<K, W>, calls: seq<Call<seq<byte>>>, k: nat, f: Fragment<seq<byte>>)
    requires LawfulFormat(h.format) && SendableGroups(layout, groups, mc)
             && SendsContainer(h, layout, groups, mc, g, i, c, zero)
    requires RegistryAdvances(registry) && registry(f.typeInfo) == Some(layout)
             && Contents(layout, groups, mc) == Some(f.body)
    requires forall n :: 0 <= n < |calls| ==> Offerable(FixedCodec(registry), calls[n])
    requires k < |calls| && Keeps(WireFormat(FixedCodec(registry)), calls, k, f)
    ensures Advances(FixedCodec(registry))
    ensures var seen := ParseBundle(FixedCodec(registry), BufferRun(WireFormat(FixedCodec(registry)), calls));
            seen.error.None? && exists n :: 0 <= n < |seen.visits| && seen.visits[n].fragment == f
    ensures var got := ReadContents(layout, ConstructedGroups(layout), f.body);
            got.Ok? && got.rest == [] && got.value.groups[g].fields[i] == Arrived(h.box(Sent(h, c, mc.BaselineFor(g))))
  {
    FixedCodecAdvances(registry);
    KeptFragmentsVisited(FixedCodec(registry), calls, k, f);
    SlotIsSendable(h, layout, groups, mc, g, i, c, zero);
    ContentsRoundTrip(layout, groups, ConstructedGroups(layout), mc, []);
    assert f.body + [] == f.body;
    DirtySlotArrives(layout, groups, ConstructedGroups(layout), mc, g, i);
    WrittenReadsBack(h, h.box(c), mc.BaselineFor(g), []);
  }
}
