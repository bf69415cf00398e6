# Array replicators

A model, in Dafny, of the array replicators of `assets/Script/sync/ArrayReplicator.ts`.
The replicators are a delta-replication engine. A source replicator keeps a private shadow of a
live array. When asked for the changes between two versions, it rescans the live array and answers
with a delta, or with `false` for "no change". A mirror replicator replays that delta on its own
copy of the array.

Three replicators are modelled, one module each, as classes whose methods update their fields:

- `SimpleArray` (class `SimpleArrayReplicator`) handles arrays of primitive values.
  - The shadow holds one `(version, value)` slot per index.
  - A delta is the live length followed by `(index, value)` pairs.
- `PositionalArray` (class `ArrayReplicator`) handles arrays of objects by position.
  - Each index has a nested replicator bound to the element at that index.
  - A delta is the live length followed by `(index, nested delta)` pairs.
- `LinkArray` (class `ArrayLinkReplicator`) handles arrays of objects by identity.
  - The source keeps a shadow with one entry per element, an index from elements to positions, and a
    log of rescans.
  - A rescan (`genActionSequence3`) describes the change of the live array as:
    - deletions, at descending positions;
    - insertions, at ascending positions;
    - swaps.
  - A delta is the concatenation of the log entries an observer has not seen, then one `Update`
    command with the nested deltas.
  - `Valid()` states the class invariant. `Synced()` is what `debugCheck` verifies.

Supporting modules:

- `Common` holds the shared vocabulary.
- `Actions` holds the command vocabulary. `Replay` gives the meaning of a command list on any
  sequence. The same definition describes the mirror's array, the mirror's shadow and the source's
  shadow.
- `LinkModel` holds the specification of one rescan.
- `LinkLog` holds the specification of the log. It proves what an observer gets when it replays an
  answer.

How the model represents the source:

- Live elements are opaque handles (`nat`), since the source compares objects by reference.
- A nested replicator is abstract:
  - what it reports for a version window is a function passed to `GenDiff`;
  - what a mirror hands to its nested replicators is returned as a list of calls.
- The JS `false` sentinel is `None`.
- Deltas are datatypes rather than flat JS arrays.
- `splice` beyond the end is modelled as JS behaves: a removal there does nothing, and an insertion
  there appends.

## Model

| member | source | states |
|---|---|---|
| SimpleArray.SimpleArrayReplicator.constructor | assets/Script/sync/ArrayReplicator.ts:33-43 | the shadow holds every live value, stamped version 0; all versions start at 0 |
| SimpleArray.SimpleArrayReplicator.GenDiff | assets/Script/sync/ArrayReplicator.ts:53-106 | inverted range → sentinel, state untouched; no rescan due and observer ahead of the last answer → sentinel; no rescan due → the cached answer filtered from the shadow, carrying the shadow's length (corrected, see Findings); rescan → shadow rescanned at `to`, `lastLengthVersion` moves when the length changed, the answer is the corrected `ScanDiffFixed` (see Findings), `lastVersion` moves only when a delta is returned |
| SimpleArray.RescanPass | assets/Script/sync/ArrayReplicator.ts:69-84 | the scanning loop ends with the shadow `Rescan` specifies and with the pairs of every rescanned slot whose version lies in `[from, to]`, new and changed slots included |
| SimpleArray.CachedPass | assets/Script/sync/ArrayReplicator.ts:94-99 | the cached loop yields the pairs of exactly the slots whose version lies in `[from, to]`, in index order |
| SimpleArray.SimpleArrayReplicator.ApplyDiff | assets/Script/sync/ArrayReplicator.ts:108-126 | the mirror becomes `ApplyOpt` of its old array: the sentinel changes nothing; otherwise it is cut to the length, then each pair overwrites or appends; versions and shadow untouched |
| SimpleArray.Rescan | assets/Script/sync/ArrayReplicator.ts:64-84 | after a rescan the shadow is as long as the live array and holds its values; unchanged slots keep their version; new or changed slots are stamped `to` |
| SimpleArray.EmittedShape | assets/Script/sync/ArrayReplicator.ts:73-99 | a delta's pairs have strictly increasing indices below the length and carry the shadow's values; an index has a pair exactly when its version lies in `[from, to]` |
| SimpleArray.ScanDiff | assets/Script/sync/ArrayReplicator.ts:63-90 | as written: a rescan answers the sentinel exactly when the live length equals the shadow length, the live array equals the shadow and no kept slot is stamped inside `[from, to]` |
| SimpleArray.ScanDiffFixed | assets/Script/sync/ArrayReplicator.ts:63-104 | corrected: a rescan answers the sentinel exactly when, in addition, the length last changed before `from`, the test the cached branch makes |
| SimpleArray.CachedDiff | assets/Script/sync/ArrayReplicator.ts:92-104 | without a rescan, whatever length the answer carries, the sentinel is answered exactly when the length last changed before `from` and no slot is stamped inside `[from, to]` |
| SimpleArray.PutAll | assets/Script/sync/ArrayReplicator.ts:116-124 | putting pairs never shortens the mirror and leaves every slot no pair names as it was |
| SimpleArray.ApplyOpt | assets/Script/sync/ArrayReplicator.ts:108-126 | the sentinel leaves the mirror alone; a delta keeps every slot below its length that none of its pairs names |
| SimpleArray.PutAllRebuilds | assets/Script/sync/ArrayReplicator.ts:116-124 | replaying increasing pairs rebuilds the live array from a mirror that already agrees wherever no pair lands |
| SimpleArray.ReplayFilteredDelta | assets/Script/sync/ArrayReplicator.ts:92-124 | a delta filtered from a shadow brings a mirror that agrees outside `[from, to]` to the live array |
| SimpleArray.ScanRoundTrip | assets/Script/sync/ArrayReplicator.ts:63-126 | as written, for a mirror as long as the pre-scan shadow that agrees with it outside `[from, to]`: the mirror ends equal to the live array after applying the answer, delta or sentinel |
| SimpleArray.ScanDeltaRebuilds | assets/Script/sync/ArrayReplicator.ts:63-126 | the pairs of a rescan bring every lagging mirror, whatever its length, to the live array |
| SimpleArray.ScanFixedRoundTrip | assets/Script/sync/ArrayReplicator.ts:63-126 | with the corrected sentinel, every lagging mirror, whatever its length, ends equal to the live array after applying the rescan's answer |
| SimpleArray.AbsorbedShrinkUnseen | assets/Script/sync/ArrayReplicator.ts:53-126 | as written: after a shrink that an earlier observer's rescan absorbed, a lagging observer with a longer mirror gets the sentinel and keeps the removed element; the corrected answer repairs it |
| SimpleArray.CachedRoundTrip | assets/Script/sync/ArrayReplicator.ts:92-126 | the corrected cached answer, carrying the shadow's length rather than the live length of line 94, brings every lagging mirror (agreeing with the shadow outside `[from, to]`, missing only slots stamped inside it, of another length only when the length changed at or after `from`) to the shadow's values |
| SimpleArray.LiveLengthCachedCut | assets/Script/sync/ArrayReplicator.ts:92-126 | as written, a cached answer after the live array shrank without a rescan cuts a lagging mirror `[1, 2, 9]` to the live length and then appends a shadow pair, ending `[1, 3]`, neither the shadow nor the live array; the shadow's length brings the same mirror to the shadow |
| PositionalArray.ArrayReplicator.constructor | assets/Script/sync/ArrayReplicator.ts:211-249 | one nested replicator per element, bound to it, stamped version 0, so shadow and array start in lockstep |
| PositionalArray.ArrayReplicator.GenDiff | assets/Script/sync/ArrayReplicator.ts:251-318 | inverted range, two empty arrays, or an observer ahead without a due rescan → sentinel and no change; no rescan due → the cached answer, shadow cut to the live length only when a delta is returned; rescan → answer `ScanDiff`, shadow rebound, extended with new replicators and cut only when a delta is returned; `lastVersion` moves only with a delta |
| PositionalArray.ArrayReplicator.ApplyDiff | assets/Script/sync/ArrayReplicator.ts:320-348 | the sentinel changes nothing; otherwise the mirror becomes `ApplyFixed` of its old state (array and shadow cut to the length, each pair placed and its delta forwarded), `ok` false when a pair names a missing entry; see Findings |
| PositionalArray.ScanPass | assets/Script/sync/ArrayReplicator.ts:268-288 | the rescan loop ends with the rebound shadow and the pairs `Items` specifies; replicator numbers advance by the number created |
| PositionalArray.CachedPass | assets/Script/sync/ArrayReplicator.ts:289-305 | the cached loop yields the pairs `Items` specifies, entries created after `from` being sent in full |
| PositionalArray.PlacePass | assets/Script/sync/ArrayReplicator.ts:328-346 | the placement loop ends where `PlaceAll` says, stopping at the first missing entry |
| PositionalArray.ReboundBindsLive | assets/Script/sync/ArrayReplicator.ts:270-282 | after a rescan every live index has a replicator bound to its element; old replicators are rebound, never recreated, and keep their version; new ones are numbered consecutively and stamped `to` |
| PositionalArray.ItemsShape | assets/Script/sync/ArrayReplicator.ts:268-305 | pairs in strictly increasing index order; a new entry is diffed from -1; an old one is sent only when its replicator reports a change; an index has a pair exactly when it is new or changed |
| PositionalArray.ScanDiff | assets/Script/sync/ArrayReplicator.ts:251-311 | a rescan answers the sentinel exactly when the length is unchanged and no rebound replicator reports a change |
| PositionalArray.CachedDiff | assets/Script/sync/ArrayReplicator.ts:289-311 | a cached answer is the sentinel exactly when no entry is newer than `from` and none reports a change |
| PositionalArray.PlaceAllKeepsLockstep | assets/Script/sync/ArrayReplicator.ts:328-346 | placing increasing pairs that cover the new tail keeps array and shadow in lockstep, keeps the existing entries and forwards each delta to the entry at its index |
| PositionalArray.PlaceAllKeeps | assets/Script/sync/ArrayReplicator.ts:328-346 | entries are only appended, never dropped; when no entry is missing, each pair's delta goes to the entry that ends at its index |
| PositionalArray.ApplyAsWritten | assets/Script/sync/ArrayReplicator.ts:320-346 | as written: every entry of the old shadow survives, past the new length too, and each delta goes to whatever entry sits at its index |
| PositionalArray.ApplyFixed | assets/Script/sync/ArrayReplicator.ts:320-346 | corrected: the entries below the new length survive and each delta goes to the entry that ends at its index |
| PositionalArray.FixedScanRoundTrip | assets/Script/sync/ArrayReplicator.ts:251-348 | a mirror in lockstep applies a rescan delta without error, ends as long as the live array and in lockstep, and hands each nested delta to the replicator at its index |
| PositionalArray.StaleReplicaAfterShrink | assets/Script/sync/ArrayReplicator.ts:320-346 | as written: after a shrink and a regrow, a new element's delta reaches the replicator of the removed element |
| PositionalArray.FixedAfterShrink | assets/Script/sync/ArrayReplicator.ts:320-346 | with the shadow cut as well, the same history hands the delta to the new element's replicator |
| PositionalArray.ShrinkThenGrowDiffs | assets/Script/sync/ArrayReplicator.ts:251-318 | the two deltas of that history are what a source actually sends |
| PositionalArray.LaggingMirrorMissed | assets/Script/sync/ArrayReplicator.ts:268-311 | as written: a rescan answers the sentinel to an observer that missed a shrink, or the creation of an entry after its `from`, which an earlier rescan already absorbed; the cached branch sends that entry in full |
| Actions.RemoveAt | assets/Script/sync/ArrayReplicator.ts:1060-1070 | `splice(i, 1)`: removes index `i`, or nothing past the end |
| Actions.InsertAt | assets/Script/sync/ArrayReplicator.ts:1048-1059 | `splice(i, 0, x)`: `x` lands at `i`, or is appended past the end |
| Actions.SwapAt | assets/Script/sync/ArrayReplicator.ts:1071-1082 | defined exactly when both indices are in range; exchanges them and changes nothing else |
| Actions.RemoveAll | assets/Script/sync/ArrayReplicator.ts:1060-1070 | the deletion loop never lengthens the array and leaves only elements that were there |
| Actions.SwapAll | assets/Script/sync/ArrayReplicator.ts:1071-1082 | the swap loop, when it succeeds, keeps the length and only rearranges elements |
| Actions.Replay | assets/Script/sync/ArrayReplicator.ts:1045-1095 | replaying commands that succeed yields only elements of the starting sequence or supplied ones; nothing is invented |
| Actions.SwapAllPrefixFails | assets/Script/sync/ArrayReplicator.ts:1071-1082 | once a swap of a list fails, the whole list fails |
| Actions.RemoveAllSnoc | assets/Script/sync/ArrayReplicator.ts:835-844 | deleting a list then one more index is deleting the longer list |
| Actions.InsertCountAppend | assets/Script/sync/ArrayReplicator.ts:1045-1059 | a command list without `Update` creates its elements before those of what follows it |
| Actions.ReplayAppend | assets/Script/sync/ArrayReplicator.ts:1005-1013 | replaying concatenated log entries is replaying them one after the other |
| Actions.ReplayMaps | assets/Script/sync/ArrayReplicator.ts:1045-1082 | replay ignores the elements: relabelling before or after gives the same result |
| Actions.InsertAtElems | assets/Script/sync/ArrayReplicator.ts:849-854 | one insertion adds exactly its element and keeps a repetition-free sequence repetition-free |
| Actions.InsertAllElems | assets/Script/sync/ArrayReplicator.ts:849-854 | insertions add exactly the inserted elements and keep a repetition-free sequence repetition-free |
| LinkModel.IndexOfFacts | assets/Script/sync/ArrayReplicator.ts:1107-1120 | an exact index of positions implies distinct elements and covers exactly them |
| LinkModel.KeepBounds | assets/Script/sync/ArrayReplicator.ts:830-844 | the entries that survive deletion are bound to exactly the old elements still live |
| LinkModel.DeadFromShape | assets/Script/sync/ArrayReplicator.ts:830-837 | the deletion list is strictly decreasing and lists exactly the positions whose element is gone |
| LinkModel.RemoveDeadIsKeep | assets/Script/sync/ArrayReplicator.ts:835-844 | deleting those positions from the highest down leaves exactly the live entries, in order |
| LinkModel.RemainingAreDead | assets/Script/sync/ArrayReplicator.ts:814-832 | what the old index still holds after the live elements are taken out are the dead positions |
| LinkModel.NewPositionsShape | assets/Script/sync/ArrayReplicator.ts:814-827 | the insertion list is strictly increasing and lists exactly the positions of elements the index did not know |
| LinkModel.NewEntriesBounds | assets/Script/sync/ArrayReplicator.ts:849-854 | the created entries are bound to distinct elements, exactly the new ones |
| LinkModel.ShadowAfterInserts | assets/Script/sync/ArrayReplicator.ts:835-857 | after deletions and insertions the shadow has one entry per live element, none twice; only the order may differ |
| LinkModel.ShadowAfterInsertsPlaced | assets/Script/sync/ArrayReplicator.ts:835-857 | each entry then is the one the rescan must end with at its element's position |
| LinkModel.PlacedInOrder | assets/Script/sync/ArrayReplicator.ts:866-889 | a reordering of those entries that lists the live elements in order is the rescanned shadow |
| LinkModel.ScanActions | assets/Script/sync/ArrayReplicator.ts:835-886 | a rescan's command list has no `Update` or `Clear`, creates one element per insertion, and is empty exactly when nothing changed |
| LinkModel.ReplayScanActions | assets/Script/sync/ArrayReplicator.ts:835-886 | replaying a rescan's commands deletes, then inserts the supplied elements, then swaps |
| LinkModel.CountDrops | assets/Script/sync/ArrayReplicator.ts:866-882 | fixing a misplaced position lowers the count of misplaced positions, which bounds the swap loop |
| LinkLog.FirstAtLeastIsLeast | assets/Script/sync/ArrayReplicator.ts:594-608 | entries before the search result are older than `v`; in an ordered log all from it on are at least `v` |
| LinkLog.FirstAtLeastUnique | assets/Script/sync/ArrayReplicator.ts:594-608 | only one position splits the log into older entries and the rest |
| LinkLog.FlattenSnoc | assets/Script/sync/ArrayReplicator.ts:1010-1013 | concatenating one more entry appends its commands |
| LinkLog.ChainedExtend | assets/Script/sync/ArrayReplicator.ts:993-998 | appending a rescan's entry keeps the log chained from shadow to shadow |
| LinkLog.ChainedClear | assets/Script/sync/ArrayReplicator.ts:989-995 | a log replaced by a single `Clear` is chained from any shadow to the empty one |
| LinkLog.OrderedExtend | assets/Script/sync/ArrayReplicator.ts:993-998 | appending an entry newer than all others keeps the log ordered |
| LinkLog.CatchUp | assets/Script/sync/ArrayReplicator.ts:1005-1013 | an observer whose shadow is the one before entry `k` reaches the current shadow by replaying entries `k` onwards |
| LinkLog.StickyFromMeaning | assets/Script/sync/ArrayReplicator.ts:1018-1022 | the `from` handed to an element is 0 exactly when some element up to it is stamped after `from` |
| LinkLog.UpdateItems | assets/Script/sync/ArrayReplicator.ts:1015-1030 | update pairs in increasing position order, each with its element's nested delta under the sticky `from`; every element reporting a change has a pair |
| LinkLog.AnswerReplays | assets/Script/sync/ArrayReplicator.ts:1005-1035 | replaying an answer on the shadow before entry `k` yields the source's current shadow |
| LinkLog.ClearCollapse | assets/Script/sync/ArrayReplicator.ts:984-1013 | after a `Clear` at `v`, every observer from before `v` is answered exactly `[Clear]` |
| LinkLog.Created | assets/Script/sync/ArrayReplicator.ts:1048-1059 | the mirror creates one entry per inserted position |
| LinkLog.CreatedHandles | assets/Script/sync/ArrayReplicator.ts:1048-1059 | the mirror's created objects are consecutive fresh ones |
| LinkLog.UpdatesOfAnswer | assets/Script/sync/ArrayReplicator.ts:1083-1090 | the mirror's `Update` loop gets exactly the trailing block's pairs |
| LinkLog.ForwardMeaning | assets/Script/sync/ArrayReplicator.ts:1083-1090 | forwarding succeeds exactly when every position is in range, and hands each delta to the element at its position |
| LinkLog.ReplayOrigins | assets/Script/sync/ArrayReplicator.ts:1045-1082 | a replay only moves entries: replaying a shadow is replaying the origins of its entries and of the created ones, then resolving them |
| LinkLog.MirrorReplays | assets/Script/sync/ArrayReplicator.ts:1040-1095 | a mirror as long as the source's shadow before entry `k` (any mirror when that entry starts with `Clear`) replays the answer; source and mirror end with, at each position, their own entries of the same origin: the one held at the same old position, or the one created at the same place of the run |
| LinkLog.MirrorRoundTrip | assets/Script/sync/ArrayReplicator.ts:1040-1095 | under the same conditions, each nested delta of the answer reaches the mirror's counterpart, by origin, of the source element it was generated for |
| LinkArray.IndexTarget | assets/Script/sync/ArrayReplicator.ts:814-827 | the first loop leaves the old index without the live elements, lists the new positions, and builds the exact new index |
| LinkArray.FirstScan | assets/Script/sync/ArrayReplicator.ts:501-506 | the constructor's loop gives one entry per element, stamped 0 and carrying its position, and an index mapping each element to its position and nothing else |
| LinkArray.DeadPositions | assets/Script/sync/ArrayReplicator.ts:830-837 | the positions left in the old index, in descending order, are the dead positions |
| LinkArray.SwapStep | assets/Script/sync/ArrayReplicator.ts:871-881 | one swap moves an entry to a later correct position, keeps the prefix correct and the elements distinct, and lowers the misplaced count |
| LinkArray.Repair | assets/Script/sync/ArrayReplicator.ts:866-882 | the swap loops end with every entry at its element's position, reached by replaying the recorded swaps, with at most one swap per position |
| LinkArray.DeletePass | assets/Script/sync/ArrayReplicator.ts:835-844 | the deletion loop removes the listed positions one after the other |
| LinkArray.InsertPass | assets/Script/sync/ArrayReplicator.ts:849-854 | the insertion loop splices in a fresh entry stamped `lastVersion` at each listed position |
| LinkArray.RescanShadow | assets/Script/sync/ArrayReplicator.ts:810-889 | a rescan of a non-empty array yields the specified command list and the rescanned shadow and exact index; replaying the commands on the old shadow gives the new one; at most one swap per element |
| LinkArray.CollectActions | assets/Script/sync/ArrayReplicator.ts:1005-1013 | the loop concatenates the commands of the entries from `fromIndex` |
| LinkArray.UpdatePass | assets/Script/sync/ArrayReplicator.ts:1015-1030 | the update loop yields the pairs `UpdateItems` specifies, with the sticky `from` |
| LinkArray.MirrorInsert | assets/Script/sync/ArrayReplicator.ts:1048-1059 | an `Insert` splices fresh objects and entries into the mirror's array and shadow |
| LinkArray.MirrorDelete | assets/Script/sync/ArrayReplicator.ts:1060-1070 | a `Delete` removes each listed position from array and shadow |
| LinkArray.MirrorMove | assets/Script/sync/ArrayReplicator.ts:1071-1082 | a `Move` succeeds exactly when all its swaps are in range, and then swaps array and shadow alike |
| LinkArray.MirrorForward | assets/Script/sync/ArrayReplicator.ts:1083-1090 | the `Update` loop succeeds exactly when forwarding does, with the same calls |
| LinkArray.MirrorReplay | assets/Script/sync/ArrayReplicator.ts:1045-1095 | the command loop succeeds exactly when the replays and the forwarding succeed; it ends where they end and advances the object counter by the number created |
| LinkArray.MirrorCommand | assets/Script/sync/ArrayReplicator.ts:1045-1082 | one structural command either keeps the mirror on the replay of the whole command list, one command further, or, for a `Move` that cannot be carried out, makes that replay fail |
| LinkArray.ClearedValid | assets/Script/sync/ArrayReplicator.ts:989-994 | a log reset to a single `Clear` at `to`, with an empty shadow and index, satisfies the invariant |
| LinkArray.RescannedValid | assets/Script/sync/ArrayReplicator.ts:986-1001 | logging a rescan's non-empty command list at a version newer than every logged one keeps the invariant; an empty list leaves the log as it is |
| LinkArray.ArrayLinkReplicator.constructor | assets/Script/sync/ArrayReplicator.ts:453-506 | one entry per element, stamped 0, exact index, empty log: valid and synced |
| LinkArray.ArrayLinkReplicator.GenActionSequence3 | assets/Script/sync/ArrayReplicator.ts:798-891 | empty array → `[Clear]` and everything emptied; otherwise deletions, insertions, swaps as specified, shadow rescanned and synced, and replaying the commands on the old shadow gives the new one |
| LinkArray.ArrayLinkReplicator.GetActionIndex | assets/Script/sync/ArrayReplicator.ts:594-608 | the binary search answers within `[0, length]`; on an ordered log it is the first entry at least `v` |
| LinkArray.ArrayLinkReplicator.ScanAndLog | assets/Script/sync/ArrayReplicator.ts:984-1003 | `Clear` replaces the log; other non-empty command lists are appended at `to`; the invariant is kept |
| LinkArray.ArrayLinkReplicator.Answer | assets/Script/sync/ArrayReplicator.ts:1005-1035 | the answer is the log from the first entry newer than `from` (the whole log when `from <= 0`), then the `Update` block |
| LinkArray.ArrayLinkReplicator.GenDiff | assets/Script/sync/ArrayReplicator.ts:973-1038 | sentinel on an inverted range or an observer ahead without a due rescan; `[Clear]` alone for an empty array; otherwise the log tail plus `Update`, an empty answer not being the sentinel; the log only grows by one entry; `lastVersion` moves only with a non-empty answer; the invariant is kept |
| LinkArray.ArrayLinkReplicator.ApplyDiff | assets/Script/sync/ArrayReplicator.ts:1040-1095 | the sentinel changes nothing; otherwise array and shadow end where the structural commands replay, and every `Update` pair is forwarded to the element at its position; fails exactly when a command cannot be carried out |

## Left out

- PositionalArray.ArrayReplicator.ApplyDiff: cuts the shadow together with the live array, which the source does not. The as-written behaviour is `PositionalArray.ApplyAsWritten` (see Findings).
- SimpleArray.SimpleArrayReplicator.GenDiff: the rescan branch answers the sentinel only when the length last changed before `from`, which the source does not check. The as-written answer is `SimpleArray.ScanDiff` (see Findings). The cached branch carries the shadow's length instead of the live length; the as-written answer is `SimpleArray.CachedDiff` with the live length (`SimpleArray.LiveLengthCachedCut`, see Findings).
- SimpleArray.CachedRoundTrip: states the round trip of the corrected cached answer only. With the live length of line 94, a live array mutated after the last scan breaks it (`SimpleArray.LiveLengthCachedCut`).
- SimpleArray.ScanRoundTrip: states the round trip of the as-written rescan only for a mirror as long as the pre-scan shadow, because for a longer or shorter mirror it fails (`SimpleArray.AbsorbedShrinkUnseen`). The corrected answer has the general round trip, `SimpleArray.ScanFixedRoundTrip`.
- PositionalArray.FixedScanRoundTrip: covers only a mirror in lockstep and as long as the source's shadow before the rescan, that is, one that applied the answer of every earlier rescan. An observer that lagged behind an earlier rescan answered to another observer can get the sentinel although it misses a shrink or an entry created after its `from` (`PositionalArray.LaggingMirrorMissed`). This replicator keeps no version of its last length change, so the model has no corrected rescan for it.
- The flat wire format is not modelled. Deltas are datatypes: `[length, i, v, ...]`, and `[Insert, count, ...]` and the other commands. Decoding a malformed flat array (reads of `undefined`) is not modelled.
- Nested replicators are not part of this model, and neither is `createReplicator` / `ReplicatorFactory.ts`. What a nested replicator reports is a function parameter. What the mirror asks of one is returned as a list of calls. Nested replicators are always created successfully, except that the positional mirror creates none for an element that did not land at its index, as the source does.
- Object construction (`getConsturctor`, `new this.ctor()`) is modelled as a counter of fresh handles.
- `getTarget`/`setTarget` are not modelled. Rebinding appears as the new binding of a shadow entry.
- PositionalArray.ArrayReplicator.ApplyDiff and LinkArray.ArrayLinkReplicator.ApplyDiff: when a command names a position past the end, the source writes holes or throws. The model reports `ok == false` and promises nothing about the state left behind.
- Negative indices in a delta cannot be expressed (positions are `nat`).
- LinkArray.ArrayLinkReplicator.ApplyDiff: leaves `dataIndexMap` as it was, as the source does, so a mirror instance is no longer `Valid()` after a structural command. Nothing is promised about that instance later generating deltas of its own (fanning out to further observers); by reading, its next `genActionSequence3` would take the elements it created for new ones and could spin in the swap loop as in the repeated-element case.
- LinkArray.ArrayLinkReplicator.GenActionSequence3, `ScanAndLog`, `GenDiff` and the constructor require the live array to be free of repetitions. With a repeated element (live `[a, a]` against shadow `[a]`), the swap loop of `genActionSequence3` never ends, and the identity index cannot hold both positions.
- The `oldIndex` array of `genActionSequence3` is written but never read, so it is not modelled.
- LinkArray.DeadPositions lists the positions left in the old index by scanning the shadow from the top down, instead of collecting the map's values and sorting them. The result is proved to be the same descending list.
- The number of swaps a rescan emits is bounded only by the live length. Minimality is not stated.
- Whether a nested replicator created by a rescan reports its element in full depends on that replicator. A new entry is stamped with the `lastVersion` of the rescan that created it, which an empty answer does not move. When an observer's `from` is at or after that stamp, the entry's replicator is asked for `genDiff(from, to)` rather than for its whole element, and what it answers then is not part of this model.
- `genActionSequence`, `genActionSequence2`, `genDeleteAction`, `genSwapAction`, `clearActionSequence` and `mergeActionSequence` are not modelled. They are older variants that `genDiff` does not call.
- Console output, `debugData` and `checkData` are diagnostics and are not modelled. `debugCheck` appears as the `Synced()` predicate.
- The test drivers (random operation sequences over a float-based generator) and the dynamic deep-equality `isEqual` are not modelled. Sequence equality of handles stands in for `isEqual`.
- Primitive values are modelled as `int`. The source's loose `!=` comparison between values of different JS types is not modelled.

## Findings

| source | as written | input that shows it | evidently intended | confidence | as-written member | corrected member |
|---|---|---|---|---|---|---|
| assets/Script/sync/ArrayReplicator.ts:320-346 | `ArrayReplicator.applyDiff` cuts `target` to the delta's length but leaves `data` (the nested replicators) at the old length. A later index past the live length appends a new object, but the delta goes to the stale replicator still stored at that index. | Mirror `[10, 11]` with replicators bound to 10 and 11. Delta `(1, [])`, then delta `(2, [(1, d)])`. The second delta appends object 20, but `data[1]` is still the replicator bound to 11, so `d` is applied to the removed object and 20 is never updated. | Cut `data` together with `target`, as the source side's `genDiff` cuts its shadow (lines 313-316). | high, not executed | PositionalArray.StaleReplicaAfterShrink | PositionalArray.FixedScanRoundTrip |
| assets/Script/sync/ArrayReplicator.ts:86-88 | The rescan branch of `SimpleArrayReplicator.genDiff` answers `false` when this rescan found no length change and no slot in `[fromVersion, toVersion]`. A length change already absorbed by an earlier rescan for another observer is not taken into account. | The source holds `[1, 2, 3]` at version 0, and the array becomes `[1, 2]`. Observer A's `genDiff(1, 2)` cuts the shadow and sets `lastLengthVersion` to 2. Observer B, still holding `[1, 2, 3]`, then asks `genDiff(1, 3)` and gets `false`, so it keeps the removed element. | Answer `false` only when `lastLengthVersion < fromVersion` as well, the test the cached branch makes at line 101. | medium, not executed | SimpleArray.AbsorbedShrinkUnseen | SimpleArray.ScanFixedRoundTrip |
| assets/Script/sync/ArrayReplicator.ts:92-104 | The cached branch of `SimpleArrayReplicator.genDiff` (no rescan due) sends the live `target.length` (line 94) with pairs filtered from the shadow. If the live array changed after the last rescan, the length and the pairs describe two different arrays. | The array goes from `[1, 2, 9]` to `[1, 2, 3]`, and a rescan at 5 stamps the last slot 5, with the length unchanged since 0. The live array then shrinks to `[1]`. `genDiff(4, 5)` takes the cached branch and answers length 1 with the pair `(2, 3)`. A mirror still at `[1, 2, 9]` is cut to `[1]`, then gets `3` appended, and ends as `[1, 3]`. | Send the shadow's length, as the positional replicator does in the same branch (lines 290-291), so that the answer describes the shadow alone. | medium, not executed | SimpleArray.LiveLengthCachedCut | SimpleArray.CachedRoundTrip |
