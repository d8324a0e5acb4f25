# Replication engine: model and proofs

This project models how a New World Hub replicates state, and proves what the replication
relies on: a sender's state becomes a delta against a baseline, travels as bytes, and is
merged by a receiver that ends with the sender's values.

`dafny verify dfyconfig.toml` checks everything. The modules follow the engine:

- **Containers.** `ContainerModel` specifies a map-backed container with its pending edits,
  its ten-slot journal and the three-way merge; `ContainerReplay` says when a list of
  changes explains a step and why filling values in late is sound; `ContainerEdits` says
  what edits record and when a merge takes them in; `ContainerHistory`
  proves what the journal holds over every run of merges; `ContainerWire` is the snapshot
  and delta wire form over `LiveMask`; `ContainerConvergence` puts these together, and
  `ContainerFailures` holds the runs outside its conditions; `ContainerSession` is about many
  rounds, and `ContainerField` about containers inside states and bundles;
  `ContainerState` is the object the program updates in place, method by method equal to
  the specification; `VectorStorage` treats vectors.
- **Fields and fixed states.** `Fields` and `FieldState` are the sequence-stamped optional
  field and its object; `DeltaCompressed` the counter and the timer built from fields;
  `FixedModel`, `GroupFlags`, `FixedWire`, `FixedConvergence`, `FixedSession` and `FixedState`
  the groups of fields with their whitelists, wire form, merge and convergence; `Whitelist` the
  ref-counted whitelists of ordinary states.
- **Bundles.** `BundleRecords` is the format and its parse; `BundleWriter` the transactional
  record writer; `BundleReader` the visitor and the iterator; `BundleMessage` the bundle
  with its control block; `FixedBundle` carries fixed states through bundles, end to end.
- **Hub framing and primitives.** `Crc32`, `HubMessage` and `HubStream` are the envelopes and
  the stream parser, and `CrcRemainder` proves the checksum to be a remainder; `WireLayout`
  fixes where the bytes are; `Vlq`, `SequenceNumbers`, `Bits`, `Sequences` and `Wire` the codecs, buffers
  and what they share.

Objects that the program updates in place are classes whose methods are proved equal to a
function of the old state; loops over local buffers are methods proved equal to a function
of their inputs; the theorems are about those functions.

Conventions. Integers are unbounded and their widths are explicit subset types. Masks and
shifts are written as remainders and divisions, except in the timer, which uses bit-vectors.
The CRC register is a list of 32 bits. `debug_assert` is off, as in a release build.
Keys, values, field types and fragment bodies enter through codecs with one law: decoding
what was written gives it back and stops where it ends; `FixedBundle` proves that law for
fixed states rather than assuming it.

Where the code does not do what its surroundings rely on, the model follows the code. Each
case has an input that shows it and the condition under which it does not arise:

- A container baseline older than what the journal holds is not refused
  (`src/serialize/replicated_container.rs:665-697`): `EvictionLosesChange` and
  `InitialiseLosesChange`. A sender can check `Covers` first; `DeltaConvergesExactly` says for
  every baseline when the delta is right.
- A working copy's values are taken whole and never compared with what it is merged onto
  (`src/serialize/replicated_container.rs:1263-1275`), so a copy taken before a merge and merged
  after it silently drops what came in between: `StaleCopyLosesKey`.
  `WorkingCopyConvergesExactly` gives the exact condition, and nothing merged since the copy
  was taken is enough. The convergence results are about runs that meet it, called unbroken.
- A merged container with a newer journal is taken over whole
  (`src/serialize/replicated_container.rs:1249-1267`). The journal invariant survives, but a
  delta can be wrong when the histories differ (`StrangerTakeover`), or when they agree and
  the baseline lies between merges the sender had not run itself (`TakeoverSkipsBaseline`).
  `Steady` is the condition, met by `OwnBaselinesAreSteady`. A takeover can also lower the mark
  (`TakeoverLowersMark`); `MarkKeptExactly` says when a merge does not.
- Local edits keep the invalid sequence, in a copy and in the journal, so whoever has a mark
  refuses them (`src/serialize/replicated_container.rs:1236-1247`). A receiver drops every delta
  that ends in them (`MarkedReceiverDropsPendingEdits`, `MarkedReceiverDropsMergedEdits`): an
  ordinary session that starts with a snapshot goes stale at the first merged edit
  (`MergedEditsNeverArrive`). A container initialised by a snapshot refuses its own edits on
  merge, and they are cleared (`MarkedContainerLosesEdits`). Having no mark is the exact
  condition in each case. Edits not merged yet are dirty for receivers without a baseline
  only: `PendingEditsAreDirtyOnlyAtFirst`.
- A field whose constructor registers a default is merged to that default when a delta leaves
  it out (`src/serialize/replicated_field.rs:447-470`): `UnrelatedDeltaResetsField`;
  `FieldConverges` and `HiddenFieldsKept` are therefore if-and-only-if. Ordinary states such as
  `src/states/character/player.rs:266-282` register defaults; fixed states merge by the same code.
- Merging a state decoded from contents alone opens its whitelists
  (`src/hub/fixed_replicated_state.rs:66-71`): `MessageOpensGroups`, `MessageUndoesOwnership`.
- `Seq(u64::MAX)` is written as `Invalid` in one byte and charged ten
  (`src/hub/replicated_state_bundle.rs:102-108`): `TotalBundleSizeExact`.
- Late value fill is wrong for vectors when a removal falls before an earlier edit:
  `RemovalBreaksLateFill`.

## Model

| member | source | states |
|---|---|---|
| `ContainerConvergence.ContainerConverges` | src/serialize/replicated_container.rs:643-757 | the bytes of `marshal_since` decode, are consumed exactly, and merging them gives the sender's current values if the receiver's mark lets them in, and otherwise changes neither values nor mark: for a snapshot always, and for a delta after every unbroken run of merges at rising sequences, takeovers included, and any local edits, for a receiver that held the values of the baseline, if the journal covers the baseline and takeovers since then share it |
| `ContainerConvergence.DeltaConvergesExactly` | src/serialize/replicated_container.rs:665-697 | for every baseline of an unbroken run, covered or not, a delta that is let in brings the receiver to the sender's values if and only if the two agree on the keys the delta does not mention |
| `ContainerSession.SessionStaysInSync` | src/serialize/replicated_container.rs:643-757 | a receiver following a sender through any number of rounds, each gated by the dirty test and sent against the last sequence they were in sync at, holds exactly the sender's values after every round it takes or that had nothing to send, and those of the last such round otherwise |
| `ContainerSession.PastIsFixed` | src/serialize/replicated_container.rs:1213-1292 | later merges do not change what the container held at a sequence it has passed |
| `ContainerField.ContainerThroughGroup` | src/hub/fixed_replicated_state.rs:1109-1144 | a dirty container among the fields of a group arrives, behind the group mask, as the payload of its own marshalling, and merging that gives the sender's values under the conditions of container convergence |
| `ContainerField.ContainerThroughBundle` | src/hub/state_bundle_view.rs:95-113 | the same contents, kept as any fragment of any record of a bundle, are seen by its reader and decode to that payload |
| `ContainerField.ContainerSpecReadsBack` | src/serialize/replicated_container.rs:1188-1196 | the field codec of a container reads back its payload and stops where it ends, whatever follows |
| `ContainerHistory.ChainIffUnbroken` | src/serialize/replicated_container.rs:631-663 | over every run, the accepted change sets explain how each value came about if and only if every working copy merged since the last initialise met that condition, in the run of the container taken over where there was a takeover |
| `ContainerHistory.SinceBeforeAll` | src/serialize/replicated_container.rs:665-697 | since before every accepted set, the journal yields the changes of the latest ten sets and nothing of those before |
| `ContainerFailures.EvictionLosesChange` | src/serialize/replicated_container.rs:445-450 | runs of more than ten single changes, each of a new key, in which the delta since before them leaves out the first |
| `ContainerConvergence.MarkedReceiverDropsPendingEdits` | src/serialize/replicated_container.rs:1236-1247 | a delta that ends in edits not merged yet is taken if and only if the receiver has no mark |
| `ContainerConvergence.MarkedReceiverDropsMergedEdits` | src/serialize/replicated_container.rs:1236-1247 | right after a working copy was merged, every delta that carries its edits is taken if and only if the receiver has no mark |
| `ContainerConvergence.MarkedContainerRefusesEdits` | src/serialize/replicated_container.rs:1236-1247 | a container accepts an edited copy without a newer journal if and only if it has no mark itself |
| `ContainerFailures.MergedEditsNeverArrive` | src/serialize/replicated_container.rs:1236-1247 | ordinary sessions in which a receiver in sync through a snapshot drops the delta of a merged edit and stays stale |
| `ContainerFailures.MarkedContainerLosesEdits` | src/serialize/replicated_container.rs:1236-1290 | a merged container that has a mark refuses every run of its own local edits when they are merged, escalated or not, and its values stay as they were |
| `ContainerConvergence.WorkingCopyConvergesExactly` | src/serialize/replicated_container.rs:1263-1275 | a merged working copy reaches a receiver in sync just before it if and only if the values it was merged onto agree, on every key its edits do not name, with the values it was taken from |
| `ContainerHistory.WorkingCopyStep` | src/serialize/replicated_container.rs:1263-1275 | the journal entry of a working copy explains its merge under exactly that condition |
| `ContainerHistory.FreshCopyKeepsChain` | src/serialize/replicated_container.rs:1263-1275 | nothing merged since the copy was taken is enough for it |
| `ContainerHistory.OwnBaselinesAreSteady` | src/serialize/replicated_container.rs:1249-1267 | a baseline at which the sender itself was merged is shared by every takeover since, when only containers that ran the same merges and then more are taken over |
| `ContainerFailures.StaleCopyLosesKey` | src/serialize/replicated_container.rs:1263-1275 | runs in which a working copy taken before a merge is merged after it: a key is lost and the delta does not say so, although baseline, mark and journal are in order |
| `ContainerFailures.StrangerTakeover` | src/serialize/replicated_container.rs:1265-1267 | runs in which a container with another history is taken over and the delta since the sender's own baseline is wrong |
| `ContainerFailures.TakeoverSkipsBaseline` | src/serialize/replicated_container.rs:1265-1267 | runs in which a successor is taken over and the delta since a baseline between its extra merges is wrong |
| `ContainerFailures.InitialiseLosesChange` | src/serialize/replicated_container.rs:1257-1262 | a run in which an initialise leaves an empty journal entry and the delta since before it is wrong |
| `ContainerFailures.TakeoverLowersMark` | src/serialize/replicated_container.rs:1263-1267 | a run in which a takeover replaces a valid mark by an invalid one |
| `ContainerConvergence.MarkKeptExactly` | src/serialize/replicated_container.rs:1216-1290 | any merge keeps the last-processed mark from dropping if and only if it is refused, or is a pending delta that does not initialise, or brings a mark at least as high |
| `ContainerConvergence.SnapshotsNeverLowerMark` | src/serialize/replicated_container.rs:1109-1128 | snapshots never lower the mark |
| `ContainerConvergence.NewestSnapshotWins` | src/serialize/replicated_container.rs:1213-1292 | after snapshots in any order the receiver holds the values and the mark of the greatest sequence delivered, if that is above its mark, and else what it had |
| `ContainerConvergence.DeliveryOrderIrrelevant` | src/serialize/replicated_container.rs:1109-1128 | two deliveries of the same snapshots to alike receivers, in any orders and with any repeats, leave the same values and mark |
| `ContainerHistory.JournalInvariant` | src/serialize/replicated_container.rs:445-450 | after every run of payloads, working copies and takeovers the journal has at most ten entries, strictly rising sequences, and is exactly the latest accepted change sets since the last initialise, continuing the other container's after a takeover |
| `ContainerHistory.RunKeepsLedger` | src/serialize/replicated_container.rs:631-663 | the accepted change sets of every run have rising sequences up to the last merge and never carry the repeat marker, and the recorded values end in the current ones |
| `ContainerHistory.JournalCovers` | src/serialize/replicated_container.rs:665-697 | the changes since a baseline explain how the values of that time became the current ones, for every baseline at or after the journal's first entry, and for every earlier one while nothing was dropped or initialised |
| `ContainerHistory.AnyBaselineExplains` | src/serialize/replicated_container.rs:673-684 | whatever the baseline, the last mention of each key in the changes since it agrees with the current values |
| `ContainerHistory.CleanMeansUnchanged` | src/serialize/replicated_container.rs:1177-1179 | over every run, a container not dirty since a baseline has the values it had then |
| `ContainerHistory.PendingEditsAreDirtyOnlyAtFirst` | src/serialize/replicated_container.rs:1177-1179 | local edits not merged yet are dirty exactly for an invalid baseline, so a receiver with a baseline is not sent them |
| `VectorStorage.VectorLateFill` | src/serialize/replicated_container.rs:873-916 | over every run of edits on a vector the list escalates to an empty one or is at most one longer than the vector; and if no removal falls before an earlier live edit, late fill is sound |
| `VectorStorage.RemovalBreaksLateFill` | src/serialize/replicated_container.rs:883-916 | for every vector, an update followed by a removal before it replays right if and only if the value written is the one that moves up |
| `ContainerState.ReplicatedContainer.MergeAndUpdateSequence` | src/serialize/replicated_container.rs:1197-1292 | the merged object, its result and the incoming object's cleared edits are the specified ones, also when old and new are one object; `ContainerEdits.EditsArriveExactly` and `InitialiseArrivesExactly` say when the specified merge takes local edits in |
| `FieldState.ReplicatedFieldHandler.MergeAndUpdateSequence` | src/serialize/replicated_field.rs:424-501 | the merged object and the result are the specified ones, also when old and new are one object |
| `Fields.WrittenIsWellStamped` | src/serialize/replicated_field.rs:351-386 | any run of local writes keeps a valid stamp with a stored value |
| `DeltaCompressed.CounterConverges` | src/serialize/replicated_field.rs:915-951 | over any runs of merges of sound portions, a receiver that agreed at the baseline reads the sender's counter after merging the portions that arrived through the one-byte codecs |
| `FixedConvergence.HiddenFieldsKept` | src/hub/fixed_replicated_state.rs:1023-1029 | a message leaves a field of a group the client may not see with the receiver's value if and only if the receiving constructor registers no other default for it |
| `FixedConvergence.UnrelatedDeltaResetsField` | src/serialize/replicated_field.rs:447-470 | an in-sync receiver whose first field is reset to its registered default by a delta that carries the second field only |
| `FixedConvergence.MessageOpensGroups` | src/hub/fixed_replicated_state.rs:197-229 | after merging any message that was sent, every group of the receiver goes to every client |
| `FixedConvergence.MessageUndoesOwnership` | src/hub/fixed_replicated_state.rs:197-229 | so a group that ownership changes had kept for one client is open to the others after the next message |
| `FixedWire.UnflaggedGroupUntouched` | src/hub/fixed_replicated_state.rs:1053-1067 | decoding never touches a group whose flag is zero, whatever the bytes and even when it fails |
| `FixedWire.ContentsLeftOnSuccess` | src/hub/fixed_replicated_state.rs:1053-1067 | what a successful read reports is what it leaves in the state |
| `FixedState.UnmarshalVisitedFields` | src/hub/fixed_replicated_state.rs:1183-1214 | the visit replaces exactly the fields whose bit is set, up to the first that does not decode |
| `FixedState.UnmarshalContents` | src/hub/fixed_replicated_state.rs:1053-1067 | the group loop reads them, and on failure leaves what was decoded before |
| `FixedState.FixedReplicatedState.UnmarshalFixedContents` | src/hub/fixed_replicated_state.rs:1053-1067 | the object holds what the specified reader leaves, on success and on failure |
| `BundleMessage.ListsAreIndependent` | src/hub/replicated_state_bundle.rs:413-466 | over every run, each list is what a block that only saw that list's accepted steps would hold, and both are exactly the ids pushed while there was room since the last reset, in order, without the stop ids removed since |
| `ContainerReplay.LateFillRefinesEagerLog` | src/serialize/replicated_container.rs:547-611 | a run of edits does to the values what the eager log does, and either escalates to an initialise with an empty list, or its recorded list, filled late from the final values and replayed on the starting ones, gives the final values; the list is at most one longer than the container |
| `ContainerReplay.ReplayExplained` | src/serialize/replicated_container.rs:798-823 | replaying an explaining list filled from the current values gives the current values |
| `ContainerReplay.ExplainsConcat` | src/serialize/replicated_container.rs:631-663 | explanations compose along a run of change sets |
| `ContainerWire.DeltaRoundTrip` | src/serialize/replicated_container.rs:706-731 | every non-empty change list within the cap and without the repeat marker as a sequence reads back as the same list, adds as updates and missing live values filled, consuming exactly its bytes |
| `ContainerWire.SnapshotRoundTrip` | src/serialize/replicated_container.rs:1102-1130 | a snapshot written in any iteration order reads back as the same values and sequence, consuming exactly its bytes |
| `ContainerWire.ChangeFaithful` | src/serialize/replicated_container.rs:711-729 | one change, written after any previous sequence with repeat compression, reads back with the sequence the writer moves to |
| `ContainerWire.EnumerationRebuilds` | src/serialize/replicated_container.rs:934-955 | inserting the pairs of any duplicate-free enumeration rebuilds the map |
| `ContainerState.ReplicatedContainer.PushAdd` | src/serialize/replicated_container.rs:557-568 | the object after an add is the specified container |
| `ContainerState.ReplicatedContainer.PushUpdate` | src/serialize/replicated_container.rs:570-581 | the object after an update is the specified container |
| `ContainerState.ReplicatedContainer.PushRemove` | src/serialize/replicated_container.rs:583-593 | the object after a removal is the specified container |
| `ContainerState.ReplicatedContainer.PushJournal` | src/serialize/replicated_container.rs:445-450 | the oldest of ten entries is dropped when one is pushed |
| `ContainerState.ReplicatedContainer.MergeChangeSets` | src/serialize/replicated_container.rs:643-663 | the loop applies exactly the incoming sets newer than the journal's end, then the pending changes |
| `ContainerState.ReplicatedContainer.SummarizeChanges` | src/serialize/replicated_container.rs:665-697 | the loop over the journal yields the changes since the baseline, filled from the current values |
| `ContainerState.ReplicatedContainer.MarshalSince` | src/serialize/replicated_container.rs:733-757 | writes the snapshot or the delta as specified |
| `ContainerState.ReplicatedContainer.UnmarshalField` | src/serialize/replicated_container.rs:1102-1155 | decoding replaces the object by the decoded container, or reports the decoder's error |
| `ContainerEdits.EditsArriveExactly` | src/serialize/replicated_container.rs:1236-1275 | for every container without pending edits, every non-empty run of edits on it and every receiver, the merge gives the edited values if the receiver has no mark, or the container's journal is newer, or the container initialises and was last decoded whole above the mark, and otherwise changes no value |
| `ContainerEdits.FirstFillArrives` | src/serialize/replicated_container.rs:1238-1262 | the first edits ever made on a container replace the values of exactly the receivers without a mark |
| `ContainerEdits.BuiltValuesArrive` | src/serialize/replicated_container.rs:364-375 | a container built with values, edited or not, gives them exactly to receivers without a mark, if it was stamped or edited |
| `ContainerEdits.InitialiseArrivesExactly` | src/serialize/replicated_container.rs:1238-1262 | a stamped container that initialises is taken exactly by receivers without a mark, with an older mark, or with an older journal, and leaves one empty change set, the merge sequence and the network flag |
| `ContainerEdits.EscalatesExactly` | src/serialize/replicated_container.rs:595-611 | a run of edits has escalated if and only if some edit found the list longer than the values; otherwise the list is the edits in order, by key and kind, without values or sequences |
| `ContainerEdits.EditsStamp` | src/serialize/replicated_container.rs:595-611 | edits stamp the container, clear its default and delta flags, and leave journal, marks and network flag alone |
| `VectorStorage.VectorEscalatesExactly` | src/serialize/replicated_container.rs:595-611 | the same of a vector |
| `ContainerHistory.DeltaAppliesInOrder` | src/serialize/replicated_container.rs:643-663 | an accepted delta applies the incoming change sets newer than the container's last, in order, and then its own changes |
| `ContainerHistory.NewerSetsJournal` | src/serialize/replicated_container.rs:643-663 | replaying another journal leaves the latest ten of both journals' newer sets |
| `ContainerConvergence.SelfMergeConverges` | src/serialize/replicated_container.rs:1219-1234 | a container merged with itself keeps its values, and the delta since its older entries, replayed on the values its edits started from, gives them |
| `ContainerWire.DecodedShape` | src/serialize/replicated_container.rs:1102-1155 | whatever bytes decode to is stamped, flagged as new and without a journal, and is a snapshot that initialises with its sequence as mark or a pending delta of changes that know their values, within the cap |
| `ContainerWire.OverCapSnapshotRefused` | src/serialize/replicated_container.rs:1109-1117 | a snapshot over the receiver's cap is refused with both sizes |
| `ContainerWire.OverCapDeltaRefused` | src/serialize/replicated_container.rs:1131-1131 | a delta over the receiver's cap is refused with both sizes |
| `LiveMask.ReadInvertsWrite` | src/serialize/live_mask.rs:30-84 | entries of any number read back as their images across batches of eight, consuming exactly their bytes, whatever state the entry codec threads through |
| `LiveMask.WriteLiveMaskBatches` | src/serialize/live_mask.rs:59-84 | the batch loop writes a mask byte and the entries of each batch |
| `LiveMask.ReadLiveMaskBatches` | src/serialize/live_mask.rs:30-55 | the batch loop reads them back, stopping at the first entry that does not decode |
| `Fields.MergeReport` | src/serialize/replicated_field.rs:424-501 | a merge reports nothing new only if effective value and stamp are the old ones, and something new only if it stamped the merge sequence; every effective change is reported; a valid stamp keeps coming with a value |
| `Fields.CleanMeansUnchanged` | src/serialize/replicated_field.rs:291-294 | over every run of merges, a field not dirty since a baseline has the effective value it had then |
| `Fields.FieldConverges` | src/serialize/replicated_field.rs:447-501 | a receiver that agreed at the baseline agrees after merging what was delivered, if and only if the field was dirty, or no default is registered, or the value is that default |
| `FieldState.ReplicatedFieldHandler.SetValue` | src/serialize/replicated_field.rs:351-360 | the object after a write is the specified field, which `Fields.WrittenIsDirty` and `Fields.WritesArriveExactly` show to be stamped and merged |
| `FieldState.ReplicatedFieldHandler.SetDefaultValue` | src/serialize/replicated_field.rs:321-330 | a default is taken only while the field is unstamped |
| `FieldState.ReplicatedFieldHandler.Access` | src/serialize/replicated_field.rs:371-386 | an edit in place stamps the field only when the callback says so |
| `Fields.MergeExactly` | src/serialize/replicated_field.rs:424-501 | the effective value of a merge is the incoming one exactly if the incoming field is stamped or holds its default; new data is detected exactly if that is a change or a first stamp; only then the sequence is stamped; the older default wins; and the network flag is carried exactly as asked |
| `Fields.EqualValueKeepsStamp` | src/serialize/replicated_field.rs:476-486 | a stamped field offered the value it has keeps its stamp, and nothing is detected |
| `Fields.WrittenIsDirty` | src/serialize/replicated_field.rs:351-360 | a written value is dirty exactly for an invalid baseline and when it is not the default |
| `Fields.WritesArriveExactly` | src/serialize/replicated_field.rs:351-386 | for every run of local writes and every receiver, merging gives the last value set, or the edited value if the edit reported a change or the field was stamped or is at its default, or a default that came in time; after a clear, nothing changes |
| `Fields.WritesBookkeeping` | src/serialize/replicated_field.rs:283-386 | only a clear touches the network flag, only a default that comes in time touches the default, and a clear leaves no value |
| `Fields.WriteReachesReceiver` | src/serialize/replicated_field.rs:351-501 | a value written and merged at the sender above a baseline is what a receiver in sync at that baseline shows after the next delta |
| `Fields.SelfMergeExactly` | src/serialize/replicated_field.rs:437-445 | a field merged with itself shows its own value at the merge sequence; without a stamp only its default carries over |
| `DeltaCompressed.CounterAnchors` | src/serialize/replicated_field.rs:915-942 | a write leaves the anchor alone exactly when it is stamped and at most 255 below the value, and else moves it to the last multiple of 256; the offset is always written and stamped |
| `DeltaCompressed.TimerBytes` | src/serialize/replicated_field.rs:1190-1240 | whichever bytes a write touches, byte `k` of the timer holds byte `k` of the value |
| `DeltaCompressed.TimerTouches` | src/serialize/replicated_field.rs:1221-1240 | a valid timer rewrites a higher byte exactly when the value changed there or above; one that is not valid rewrites all four |
| `DeltaCompressed.CounterStaysSound` | src/serialize/replicated_field.rs:915-951 | over every run of writes and merges the anchor is a multiple of 256, the offset at most 255 and the value a u16; after a write it is the one written |
| `DeltaCompressed.OneByteCodecs` | src/serialize/replicated_field.rs:677-705 | the one-byte codecs lose nothing exactly on multiples of 256 and on values below 256 |
| `DeltaCompressed.TimerReassembles` | src/serialize/replicated_field.rs:1190-1240 | writing a quantised value into any timer, touching only the bytes required, reassembles to that value |
| `DeltaCompressed.BytesRequiredExact` | src/serialize/replicated_field.rs:1198-1209 | a byte is rewritten exactly when the value changed at that byte or above |
| `DeltaCompressed.TimerConverges` | src/serialize/replicated_field.rs:1190-1240 | a receiver showing the sender's time at the baseline shows its current time once the dirty bytes are merged |
| `DeltaCompressed.DeltaCompressedCounterHandler.SetValue` | src/serialize/replicated_field.rs:932-942 | the two portion objects are the specified ones, and the value is the one written |
| `DeltaCompressed.FloatTimerDeltaField.SetQuantized` | src/serialize/replicated_field.rs:1221-1240 | the four byte objects are the specified ones, and reassemble to the value written |
| `FixedConvergence.StateConverges` | src/hub/fixed_replicated_state.rs:902-949 | over every run of merges, what is sent to a client, decoded into a new state and merged, gives every field of every group the client may see the sender's value, exactly under the condition of `Fields.FieldConverges` |
| `FixedConvergence.SilenceMeansInSync` | src/hub/fixed_replicated_state.rs:1042-1045 | when nothing is sent, the receiver already has the sender's value in every field the client may see |
| `FixedConvergence.OwnedGroupStaysPrivate` | src/states/alc.rs:358-362 | after any run of ownership changes the owned group goes to the last owner only, and what any other client is sent does not depend on that group's fields |
| `FixedWire.VisibilityNonInterference` | src/hub/fixed_replicated_state.rs:1019-1050 | states that agree on the groups a client may see and on the verdict for every group marshal to identical bytes for it |
| `FixedWire.HiddenGroupFlagIsZero` | src/hub/fixed_replicated_state.rs:1317-1333 | a hidden group's bit is zero in the flag bytes |
| `FixedWire.ContentsRoundTrip` | src/hub/fixed_replicated_state.rs:1019-1067 | decoding gets exactly the dirty fields of the visible groups, consumes exactly the bytes written and leaves every other field alone |
| `FixedWire.ContentsPresent` | src/hub/fixed_replicated_state.rs:1042-1045 | something is written exactly when some visible group has a dirty field |
| `FixedWire.GroupRoundTrip` | src/hub/fixed_replicated_state.rs:1109-1214 | a group's mask and bodies read back to its dirty fields laid over the receiver's; no section means nothing was dirty |
| `FixedWire.FieldSentExactly` | src/hub/fixed_replicated_state.rs:1019-1067 | a message brings a field exactly when it is newer than its group's own baseline, or the message's where the group has none, and the client sees the group; every other field is left alone |
| `FixedWire.ReadLeavesOrReplaces` | src/hub/fixed_replicated_state.rs:1183-1214 | whether or not a read succeeds, every field is as it was or holds a value that arrived for its bit |
| `FixedWire.EmptySections` | src/hub/fixed_replicated_state.rs:1183-1214 | a flagged group without fields takes no bytes, and one with a zero mask only that |
| `FixedModel.NewsSummary` | src/hub/fixed_replicated_state.rs:884-949 | the merged header has new network data exactly when some field or whitelist has |
| `FixedModel.ChangeIsDetected` | src/hub/fixed_replicated_state.rs:884-949 | any effective change is detected and stamps the header at least at the merge sequence |
| `FixedModel.WhitelistEditsArrive` | src/hub/fixed_replicated_state.rs:348-413 | the list of any run of whitelist edits is merged exactly if the whitelist was stamped or a step changed it |
| `FixedModel.OwnerArrives` | src/hub/fixed_replicated_state.rs:197-229 | merged onto any whitelist, a run of ownership changes leaves the group to the last owner only |
| `GroupFlags.FlagsLength` | src/hub/fixed_replicated_state.rs:1317-1333 | there is one byte for every eight groups begun, and at least one |
| `FixedModel.DirtySummary` | src/hub/fixed_replicated_state.rs:884-949 | the merged header is newer than a baseline exactly when some field or whitelist is |
| `FixedModel.QuietMergeChangesNothing` | src/hub/fixed_replicated_state.rs:884-949 | a merge that detects nothing new has changed no effective value and no stamp in the state |
| `FixedModel.WhitelistIsBoundedSet` | src/hub/fixed_replicated_state.rs:348-413 | over every run a fixed whitelist is a duplicate-free set of at most its capacity, in which adds are not counted |
| `FixedModel.OnlyLastOwnerAllowed` | src/hub/fixed_replicated_state.rs:333-346 | after any run of clear-then-add the whitelist allows the last client added and nobody else |
| `FixedState.MarshalVisitedFields` | src/hub/fixed_replicated_state.rs:1109-1144 | the two visits write the field mask and the dirty bodies |
| `FixedState.MarshalContents` | src/hub/fixed_replicated_state.rs:1019-1050 | the group loop writes the specified contents |
| `FixedState.MergeState` | src/hub/fixed_replicated_state.rs:902-949 | the merge loops produce the specified groups and outcome |
| `FixedState.FixedReplicatedState.SetOwningPlayer` | src/states/alc.rs:358-362 | afterwards exactly the owner may see the group, and nothing else changed |
| `FixedState.FixedReplicatedState.ChangeWhitelist` | src/hub/fixed_replicated_state.rs:348-413 | adds, removes and clears change one whitelist as specified, report whether its list changed, and do nothing out of range |
| `FixedState.FixedReplicatedState.MarshalFixedContents` | src/hub/fixed_replicated_state.rs:1019-1050 | appends the specified contents, and reports whether there were any |
| `FixedState.FixedReplicatedState.MergeFixedAndUpdateSequence` | src/hub/fixed_replicated_state.rs:902-949 | a new object with the merged groups, which is dirty since a baseline exactly when some field or whitelist is newer |
| `GroupFlags.FlagsRoundTrip` | src/hub/fixed_replicated_state.rs:1317-1349 | any number of flags reads back, consuming exactly the flag bytes |
| `GroupFlags.FlagBitAt` | src/hub/fixed_replicated_state.rs:1317-1333 | group `g` is bit `g % 8` of byte `g / 8` |
| `GroupFlags.WriteGroupPresentFlags` | src/hub/fixed_replicated_state.rs:1317-1333 | the byte and bit loops write the specified bytes |
| `GroupFlags.ReadGroupPresentFlags` | src/hub/fixed_replicated_state.rs:1335-1349 | the byte and bit loops read them |
| `Whitelist.VisibleIffOutstanding` | src/hub/replicated_state.rs:406-472 | after any run of adds, removes, clears and group creations with at most 2^64 - 1 adds, a client sees a group below 10 exactly when nobody has an outstanding add there or it has one |
| `Whitelist.CountsAreOutstanding` | src/hub/replicated_state.rs:424-472 | the entry lists stay duplicate-free with counts of at least one, and each count is the number of outstanding adds |
| `Whitelist.AddCounts` | src/hub/replicated_state.rs:421-439 | an add counts one more for its client, up to the largest u64, and leaves every other count alone |
| `Whitelist.EnsuringKeepsVisibility` | src/hub/replicated_state.rs:290-296 | creating missing groups changes nobody's view |
| `Whitelist.FilterGroups.EnsureFilterGroups` | src/hub/replicated_state.rs:290-296 | the loop creates empty groups up to the count or the limit of 10 |
| `Whitelist.FilterGroups.AddClient` | src/hub/replicated_state.rs:424-442 | the groups after an add are the specified ones |
| `Whitelist.FilterGroups.RemoveClient` | src/hub/replicated_state.rs:444-463 | the groups after a removal are the specified ones |
| `Whitelist.FilterGroups.ClearClients` | src/hub/replicated_state.rs:465-474 | the groups after a clear are the specified ones |
| `BundleWriter.WriteStateRecord` | src/hub/replicated_state_bundle.rs:1293-1319 | the buffer becomes the old one followed by nothing, or by one record of exactly the fragments whose attempts returned `Written`; nothing is kept on failure or when nothing was written |
| `BundleWriter.StateRecordWriter.WriteFragment` | src/hub/replicated_state_bundle.rs:1364-1425 | a fragment is written and counted, or the buffer is as before and the outcome, which `BundleWriter.OutcomeExactly` pins down, says why |
| `BundleWriter.KeptAreWrittenOnes` | src/hub/replicated_state_bundle.rs:1322-1330 | the fragments of the kept record are those whose attempts returned `Written`, in order |
| `BundleWriter.OutcomeExactly` | src/hub/replicated_state_bundle.rs:1364-1425 | an attempt fails exactly after 255 fragments were written, is skipped exactly for want of a payload or because its bytes would pass 256000, and else is written |
| `BundleWriter.WholeRecordKept` | src/hub/replicated_state_bundle.rs:1293-1330 | a call that ends well and whose fragments all have a payload and fit leaves the record of exactly all of them, in order |
| `BundleWriter.RolledBackExactly` | src/hub/replicated_state_bundle.rs:1293-1319 | the buffer is left as it was exactly when the call ended badly or no attempt was written |
| `BundleRecords.BrokenHeaderStops` | src/hub/replicated_state_bundle.rs:874-894 | records followed by bytes that are no header are seen in full, and then the header's error |
| `BundleRecords.BrokenFragmentStops` | src/hub/replicated_state_bundle.rs:874-894 | a fragment that does not decode ends the parse with its error after every fragment before it |
| `BundleRecords.WideRecordIdRefused` | src/hub/replicated_state_bundle.rs:1194-1218 | a record id above 16 bits is refused with its range |
| `FixedBundle.FittingBundleBringsUpToDate` | src/hub/replicated_state_bundle.rs:1293-1330 | the delta is kept, and so arrives, whenever its call ends well and the call's fragments fit behind the earlier records |
| `BundleMessage.ControlHoldsOutstandingIds` | src/hub/replicated_state_bundle.rs:413-466 | over every run the block holds exactly the outstanding ids: pause ids pushed while fewer than a hundred were held since the last reset, and stop ids likewise without the earliest outstanding one for each removal |
| `BundleMessage.ControlRefusals` | src/hub/replicated_state_bundle.rs:488-514 | more than a hundred ids, or a split behind the end, is refused before any id is read |
| `BundleWriter.RecordKeepsCap` | src/hub/replicated_state_bundle.rs:1376-1383 | a buffer within the cap stays within it |
| `BundleWriter.BufferIsRecords` | src/hub/replicated_state_bundle.rs:712-721 | over any run of record writes the buffer is exactly the kept records one after another, within the cap |
| `BundleWriter.ParseInvertsWriting` | src/hub/replicated_state_bundle.rs:874-894 | parsing what any run of record writes left gives exactly the kept fragments, in order, without error |
| `BundleRecords.ParseInvertsRecords` | src/hub/replicated_state_bundle.rs:874-894 | a buffer of records reads back to exactly their fragments |
| `BundleRecords.FragmentRoundTrip` | src/hub/replicated_state_bundle.rs:1225-1257 | key, type info and a self-delimiting body read back, consuming exactly their bytes |
| `BundleRecords.TypeInfoRoundTrip` | src/hub/replicated_state_bundle.rs:1246-1270 | type info reads back exactly when it is not the index zero |
| `BundleRecords.RecordHeaderRoundTrip` | src/hub/replicated_state_bundle.rs:1194-1218 | a record header reads back, consuming exactly its bytes |
| `BundleReader.VisitBundleBufferFragments` | src/hub/replicated_state_bundle.rs:874-894 | on every buffer the nested loops see what the parse specifies, up to the first error |
| `BundleReader.StateFragmentIter.Next` | src/hub/state_bundle_view.rs:119-142 | yields the next fragment or error of the same parse, terminates, takes bytes for every fragment, and yields nothing once exhausted |
| `BundleReader.StateFragmentIter.ReadNextRecord` | src/hub/state_bundle_view.rs:76-93 | moves into the next record without changing what is still to come, or ends the iteration |
| `BundleReader.StateFragmentIter.ReadNextFragment` | src/hub/state_bundle_view.rs:95-113 | reads one fragment of the current record, or reports the error the parse has there |
| `BundleReader.Drain` | src/hub/state_bundle_view.rs:116-145 | draining the iterator gives what the visitor sees, on every buffer |
| `BundleMessage.BundleRoundTrip` | src/hub/replicated_state_bundle.rs:745-807 | a bundle within the cap reads back to itself with its sequence normalised, consuming exactly its bytes; one over the cap is refused |
| `BundleMessage.TotalBundleSizeExact` | src/hub/replicated_state_bundle.rs:694-705 | the computed size is the marshalled length for every bundle except those with sequence `Seq(u64::MAX)` |
| `BundleMessage.ControlRoundTrip` | src/hub/replicated_state_bundle.rs:473-514 | a control block within its capacity reads back with both lists |
| `BundleMessage.ControlStaysBounded` | src/hub/replicated_state_bundle.rs:413-466 | over every run the two lists together hold at most 100 ids |
| `BundleMessage.UnmarshalControl` | src/hub/replicated_state_bundle.rs:488-514 | the id loop reads the block, with the overflow and range errors |
| `BundleMessage.ReplicationControlData.PushStopReplicationId` | src/hub/replicated_state_bundle.rs:413-427 | one list with a split index behaves as the two lists |
| `BundleMessage.ReplicationControlData.PushPauseReplicationId` | src/hub/replicated_state_bundle.rs:434-447 | one list with a split index behaves as the two lists, which `BundleMessage.ControlHoldsOutstandingIds` shows to lose no id |
| `BundleMessage.ReplicationControlData.RemovePendingStopId` | src/hub/replicated_state_bundle.rs:454-466 | removes the first such stop id and says whether there was one |
| `BundleMessage.ReplicationControlData.ResetIds` | src/hub/replicated_state_bundle.rs:449-452 | both lists are emptied |
| `FixedBundle.BundleBringsUpToDate` | src/hub/state_bundle_view.rs:95-113 | a sender's delta kept as any fragment of any record of a bundle is among what its reader sees, and merging what its body decodes to brings the receiver up to date exactly as `FixedConvergence.StateConverges` says |
| `FixedBundle.ContentsSelfDelimiting` | src/hub/fixed_replicated_state.rs:1053-1067 | fixed-state contents, whatever their fields, meet the law the bundle reader relies on: their decoder stops exactly where they end |
| `FixedBundle.RelayWritesSameBytes` | src/hub/fixed_replicated_state.rs:1019-1050 | a decoded delta of plain fields written again without baseline or client has the bytes it was decoded from |
| `FixedSession.SessionStaysInSync` | src/hub/fixed_replicated_state.rs:1019-1067 | a receiver following a sender through any number of rounds, with a baseline for each group and a client whose view changes, shows after every round the sender's value in every field the client may see and the last value seen in every other, when no field has a registered default |
| `BundleWriter.KeptFragmentsVisited` | src/hub/replicated_state_bundle.rs:874-894 | every fragment any call of a run has kept is among what a reader of the buffer sees, without error |
| `HubMessage.BurstIsDetected` | crates/nw-gridmate/src/message.rs:465-505 | any alteration of correlation id and envelope confined to four consecutive bytes makes the correlated reader return the CRC mismatch, for frames of any length |
| `Crc32.BurstChangesChecksum` | crates/nw-gridmate/src/message.rs:596-611 | two messages that differ only within four consecutive bytes have equal checksums exactly when they are equal (CRC-32, section 8 of RFC 1952) |
| `Crc32.Crc32Chunks` | crates/nw-gridmate/src/message.rs:596-611 | the loops compute the checksum of the concatenation, which `CrcRemainder.ChecksumIsRemainder` shows to be its CRC-32 |
| `CrcRemainder.ChecksumIsRemainder` | crates/nw-gridmate/src/message.rs:596-611 | of all 32-bit numbers the checksum is exactly the one whose complement, read as a polynomial over GF(2), is congruent to the message, with its first 32 bits complemented and 32 zero bits behind it, modulo x^32 + x^26 + x^23 + x^22 + x^16 + x^12 + x^11 + x^10 + x^8 + x^7 + x^5 + x^4 + x^2 + x + 1 |
| `CrcRemainder.RegisterIsRemainder` | crates/nw-gridmate/src/message.rs:596-611 | after every byte the register holds that remainder |
| `CrcRemainder.PolyIsGenerator` | crates/nw-gridmate/src/message.rs:603-607 | bit `i` of the constant is the coefficient of x^(31 - i) |
| `HubMessage.EveryEnvelopeReadsBack` | crates/nw-gridmate/src/message.rs:411-462 | envelopes with either outer field, both or none, any free outer bits and a type by index or by id read back; zero flags are empty and flags above one invalid, whatever follows |
| `HubMessage.TruncatedCorrelatedRefused` | crates/nw-gridmate/src/message.rs:465-505 | a correlated frame cut short anywhere is not accepted |
| `HubMessage.TruncatedEnvelopeRefused` | crates/nw-gridmate/src/message.rs:481-486 | cut behind its header it is refused with the declared and the available length |
| `HubMessage.TruncatedSizedRefused` | crates/nw-gridmate/src/message.rs:510-522 | a sized frame cut behind its size is refused with both lengths |
| `HubMessage.ShortSizesRefused` | crates/nw-gridmate/src/message.rs:475-522 | a size that leaves no room for the id, and a size of zero, are refused |
| `HubStream.BrokenFrameReported` | crates/nw-gridmate/src/replay.rs:559-605 | bytes behind any frames that are no whole frame fail the stream with their error at the offset where they start |
| `HubStream.NoEnvelopesExactly` | crates/nw-gridmate/src/replay.rs:596-605 | a stream is refused for having no envelope exactly when it is empty |
| `HubMessage.CorrelatedRoundTrip` | crates/nw-gridmate/src/message.rs:465-549 | a correlated frame reads back to its envelope, consuming exactly its bytes |
| `HubMessage.CorrelatedAccepts` | crates/nw-gridmate/src/message.rs:465-505 | a frame whose CRC matches its id and envelope is accepted, any other is a CRC mismatch |
| `HubMessage.SizedRoundTrip` | crates/nw-gridmate/src/message.rs:510-561 | a sized frame reads back to its envelope, consuming exactly its bytes |
| `HubMessage.EnvelopeRoundTrip` | crates/nw-gridmate/src/message.rs:411-462 | typed and empty envelopes read back as such |
| `HubMessage.MarshalCorrelatedInto` | crates/nw-gridmate/src/message.rs:525-549 | the frame written with a back-patched CRC and size is the specified one |
| `HubStream.StreamInvertsFraming` | crates/nw-gridmate/src/replay.rs:559-605 | on either path, any non-empty list of frames parses to its typed envelopes in order and the number of empty ones |
| `HubStream.ParseLoop` | crates/nw-gridmate/src/replay.rs:564-595 | the loop yields the specified parse, and the branch that reports no advance is dead |
| `HubStream.ParseHubStream` | crates/nw-gridmate/src/replay.rs:559-605 | the stream parser is the loop followed by the test for an empty result |
| `WireLayout.U32Layout` | src/serialize/vlq.rs:149-219 | every u32 travels in the fewest bytes that hold it at seven bits a byte: leading ones for the bytes that follow, the lowest bits, then the rest least significant byte first |
| `WireLayout.U64Layout` | src/serialize/vlq.rs:341-503 | every u64 does too, in the fewest bytes but never in five, and nine when eight are too few |
| `WireLayout.BigEndianLayout` | src/serialize/buffer.rs:313-328 | fixed-width integers travel most significant byte first |
| `WireLayout.SequenceLayout` | src/hub/sequence_number.rs:137-157 | a sequence number is a zero, or a one and its raw value; the sentinels are raw 0 and the largest u64, and the order is by raw value with the invalid one lowest |
| `WireLayout.BatchLayout` | src/serialize/live_mask.rs:59-84 | a batch opens with a byte whose bit `i` is set exactly if entry `i` is live, and has eight entries unless fewer are left |
| `WireLayout.ChangeLayout` | src/serialize/replicated_container.rs:706-731 | a change is its key, its sequence or the marker for a repeated one, and its value if it is live |
| `WireLayout.SnapshotLayout` | src/serialize/replicated_container.rs:699-704 | a snapshot is a zero, its sequence, a count, and each key with its value behind it |
| `WireLayout.DeltaLayout` | src/serialize/replicated_container.rs:706-711 | a delta is its non-zero count and its batches, the first change after no sequence |
| `WireLayout.GroupLayout` | src/hub/fixed_replicated_state.rs:1109-1144 | a group opens with the mask whose bits are its dirty fields, and is left out exactly when that is zero |
| `WireLayout.ControlLayout` | src/hub/replicated_state_bundle.rs:473-486 | a control block is its number of ids, its number of stop ids and the ids, stops first, most significant byte first |
| `WireLayout.BundleLayout` | src/hub/replicated_state_bundle.rs:745-764 | a bundle is its sequence, context id, bandwidth mode, two flags, control block, buffer length and buffer |
| `WireLayout.RecordLayout` | src/hub/replicated_state_bundle.rs:1293-1425 | a record opens with its id and count, and its first fragment is its key, its type and its body |
| `WireLayout.FrameLayout` | crates/nw-gridmate/src/message.rs:525-561 | a correlated frame is the checksum of id and envelope, their length, the id and the envelope; a sized one its length and the envelope |
| `Vlq.TruncatedRefused` | src/serialize/vlq.rs:185-503 | an encoding cut short anywhere is refused |
| `Vlq.U16OverflowRefused` | src/serialize/vlq.rs:40-60 | the u16 decoder refuses values above 16 bits |
| `SequenceNumbers.MinMaxBounds` | src/hub/sequence_number.rs:113-135 | the smaller and the greater of two numbers bound both and are one of them |
| `Vlq.U16RoundTrip` | src/serialize/vlq.rs:24-60 | every u16 reads back, and is written as the u32 codec writes it |
| `Vlq.U32RoundTrip` | src/serialize/vlq.rs:149-219 | every u32 reads back with any bytes after it, in the length the sizer computes |
| `Vlq.U64RoundTrip` | src/serialize/vlq.rs:341-503 | every u64 reads back with any bytes after it, in the length the sizer computes, which is never five |
| `Vlq.U64DecoderReadsU32Encodings` | src/serialize/vlq.rs:415-503 | the u64 decoder reads every u32 encoding to the same value |
| `SequenceNumbers.RoundTrip` | src/hub/sequence_number.rs:137-157 | a sequence number reads back in normal form, consuming exactly its bytes |
| `SequenceNumbers.WireLenExact` | src/hub/replicated_state_bundle.rs:102-108 | the charged length is the written one exactly when the number is not `Seq(u64::MAX)` |
| `SequenceNumbers.NextAdvances` | src/hub/sequence_number.rs:61-69 | `next` is the least number above, until the last one before the sentinel |
| `SequenceNumbers.NormalForm` | src/hub/sequence_number.rs:71-135 | equality, order and normal form agree |

## Left out

- Merges of a container or field with itself are modelled as single steps and not part of the runs; `set_last_modified` and the field-metadata path, which can stamp an absent value, are not modelled.
- The 0.8 size comparison between delta and snapshot is an arbitrary choice, so every result holds for either; map iteration order is any duplicate-free enumeration.
- Container keys with custom hashing or equality, custom field equality policies and NaN: plain equality is used throughout.
- Float compression, half floats, quaternions and dynamic deltas: rounding decides what is true of them. The timer's quantised value is given.
- The five-byte arm of the u64 VLQ encoder, which no value reaches.
- Convergence of whitelist and default-bit attributes between hubs, and their wire form.
- Fixed states are one object holding its groups as values; field objects inside a group are not modelled as separate objects.
- Containers as fields of a fixed state travel and converge one by one; the state merge is modelled over plain fields, so a container's merge inside it is the container's own.
- Wire.ReadBuffer.Read: leaves the cursor in place on failure, where the source's compound reads leave it part-way; no caller reads on after a failure.
- A fixed group without fields is treated as unregistered; groups have at most 64 fields, as the source requires.
- Stamps of the ref-counted whitelist field: only who may see what is modelled.
- Byte positions inside record and fragment headers, and the borrowed body slices of the iterator's views.
- ContainerConvergence.ContainerConverges: `Covers` is what a sender can check and is not necessary, since an older baseline may still happen to give the right values; `DeltaConvergesExactly` is the exact form, key by key.
- VectorStorage.VectorLateFill: the condition on removals is sufficient and not necessary; an edit whose element is itself removed later does no harm.
- Type registries, derive macros, generated states and downcasts: fragment types are looked up in an abstract registry.
- `ReplicationControl` messages, performance counters, identifiers, fixed-width scalar codecs and client context maps, which would only add easy members.
- The server, transport, capture, dashboard and build code.
