# ECS cache store — a Dafny model

This project models the in-memory cache store of the network package's cache worker
(`packages/network/src/workers/Cache`). The store materializes a stream of component
updates into a snapshot. It holds:

- two append-only interning tables, `components` and `entities`, each with a reverse
  index map;
- `state`, an insertion-ordered map from a packed (component index, entity index) key to
  the component's value;
- `blockNumber`, the watermark: the last block whose events are all reflected in `state`.

Four operations are modelled:

- `createCacheStore` returns an empty store.
- `storeEvent` interns the event's component and entity, writes the value under their
  packed key (last write wins, an overwritten key keeps its position), and sets the
  watermark to one less than the event's block number.
- `getCacheStoreEntries` reads the state back as update records. Each record carries
  the store's watermark, `lastEventInTx == false` and the transaction marker `"cache"`.
- `mergeCacheStores` replays every input's records, in input order, into a fresh store
  and then gives it the largest input watermark.

Files and modules:

- `outcomes.dfy` (`Outcomes`): the `RangeError` error, `Outcome`, `Result` and `Option`.
- `tuple_codec.dfy` (`TupleCodec`): the packed key. The component index takes the upper
  8 bits and the entity index the lower 24 bits. An index out of range is a `RangeError`.
- `interning.dfy` (`Interning`): one interning table and its invariant (the reverse map
  is the exact inverse of the name sequence).
- `ordered_maps.dfy` (`OrderedMaps`): a JavaScript-`Map`-like ordered map.
- `cache_model.dfy` (`CacheModel`): the store as a value, `storeEvent` as the function
  `StoreEventSpec`, `getCacheStoreEntries` as `Entries`, and what storing does to the
  records read back.
- `merge_model.dfy` (`MergeModel`): `mergeCacheStores` as the function `Merge`, which
  records win, the order of the merged records, and the merged watermark.
- `cache_store.dfy` (`CacheStores`): the store as a class whose fields the methods update
  in place. `StoreEvent` is proved against `StoreEventSpec`. `MergeCacheStores` and its
  loops are proved against `Merge`.
- `scenarios.dfy` (`Scenarios`): the repository's examples worked through the model with
  a concrete value type.

Three design choices:

- Records are read back in the state's insertion order, as a JavaScript `Map` iterates.
  A component-major packed-key order would agree with insertion order on every example in
  CacheStore.spec.ts, but not in general. The model follows the `Map`.
- `mergeCacheStores` overwrites the watermark after replaying. The model sets it once,
  after the whole replay, to the largest input watermark. storeEvent never reads the
  watermark, so this is the same as setting it to the running maximum after each input,
  which is what `MergeSnapshots` does through `MaxWatermarkStep`.
- When two inputs hold the same pair, the merge keeps the value of the later input in the
  input order, whatever the inputs' watermarks. The two inputs of the merge example in
  CacheStore.spec.ts:196-218 are already in watermark order, so that example cannot tell
  "later input wins" from "higher watermark wins". The model follows the input order of the
  replay.

## Model

| member | source | states |
|---|---|---|
| TupleCodec.Pack | packages/network/src/workers/Cache/CacheStore.spec.ts:49 | Packing succeeds exactly when both indices are in range, and otherwise raises RangeError. A packed key is within 32 bits and unpacks to the same indices. |
| TupleCodec.PackUnpack | packages/network/src/workers/Cache/CacheStore.spec.ts:68-71 | Every key the codec can produce is the packing of the indices it unpacks to. |
| TupleCodec.PackInjective | packages/network/src/workers/Cache/CacheStore.spec.ts:66-71 | Two in-range index pairs that pack to the same key are the same pair, so distinct pairs get distinct state entries. |
| TupleCodec.PackOrder | packages/network/src/workers/Cache/CacheStore.spec.ts:68-71 | Keys compare component-major: by component index, then by entity index. |
| Interning.Intern | packages/network/src/workers/Cache/CacheStore.spec.ts:43-46 | A new name is appended at index equal to its position. A known name leaves the table unchanged and keeps its index. The reverse map stays the exact inverse of the names. |
| Interning.NamesDistinct | packages/network/src/workers/Cache/CacheStore.spec.ts:61-65 | A valid table holds each name at most once. |
| Interning.IndexStable | packages/network/src/workers/Cache/CacheStore.spec.ts:61-65 | Extending a table never changes the index of a name it already held. |
| Interning.InternAllSize | packages/network/src/workers/Cache/CacheStore.spec.ts:59-65 | Interning a sequence of names grows the table by exactly the number of distinct names it did not hold. |
| Interning.IndexFresh | packages/network/src/workers/Cache/CacheStore.spec.ts:62-65 | A name new to the extended table gets an index past the end of the old table. |
| OrderedMaps.Set | packages/network/src/workers/Cache/CacheStore.spec.ts:119-139 | Last write wins. A new key is appended, so the size grows by one. An existing key keeps its position and the size is unchanged. |
| CacheModel.Empty | packages/network/src/workers/Cache/CacheStore.spec.ts:19-25 | A fresh store satisfies the store invariant. |
| CacheModel.EmptyIsEmpty | packages/network/src/workers/Cache/CacheStore.spec.ts:19-25 | Both tables and both reverse maps of a fresh store are empty. It reads back no records, holds no value for any pair and has watermark 0. |
| CacheModel.StoreEventSpec | packages/network/src/workers/Cache/CacheStore.spec.ts:40-49 | storeEvent keeps the store invariant and interns both names. It succeeds exactly when the interned indices are in range. On success the watermark becomes the event's block number minus one. On RangeError the state and the watermark are unchanged. |
| CacheModel.StoreEventInterns | packages/network/src/workers/Cache/CacheStore.spec.ts:59-65 | storeEvent appends a new component or entity at the end of its table and leaves a known one in place. Every index of a name already interned is unchanged. |
| CacheModel.StoreEventLookup | packages/network/src/workers/Cache/CacheStore.spec.ts:119-139 | After a successful storeEvent the event's pair holds the event's value. Every other pair holds what it held before. After a RangeError every pair holds what it held before. |
| CacheModel.StoreEventEntries | packages/network/src/workers/Cache/CacheStore.spec.ts:130-169 | After a successful storeEvent, each old record keeps its position and pair, takes the new value if it is the event's pair, and carries the new watermark. A new pair adds exactly one record, at the end. |
| CacheModel.StoreEventOldEntry | packages/network/src/workers/Cache/CacheStore.spec.ts:128-139 | A record already read back keeps its position and pair, takes the event's value if its pair is the event's, and carries the new watermark. |
| CacheModel.StoreEventNewEntry | packages/network/src/workers/Cache/CacheStore.spec.ts:150-169 | An event for a pair not held before appends one record at the end, with the event's entity, component and value. |
| CacheModel.StoreEventPairs | packages/network/src/workers/Cache/CacheStore.spec.ts:152-169 | The pairs read back after a successful storeEvent are the old ones in their order, followed by the event's pair if it was new. |
| CacheModel.StoreEventIgnoresTxFields | packages/network/src/workers/Cache/CacheStore.spec.ts:51-67 | storeEvent gives the same result whatever the event's lastEventInTx flag and transaction hash are. |
| CacheModel.StoreEventRoom | packages/network/src/workers/Cache/CacheStore.spec.ts:59-65 | storeEvent interns at most one new name per table. It cannot raise RangeError while both tables have room for one more name. |
| CacheModel.Entries | packages/network/src/workers/Cache/CacheStore.spec.ts:108-117 | getCacheStoreEntries yields one record per state entry. Every record has lastEventInTx false, the store's watermark and the transaction marker "cache". |
| CacheModel.EntriesSound | packages/network/src/workers/Cache/CacheStore.spec.ts:152-169 | Each record reports the value the store holds for the record's own pair. No pair is reported twice. |
| CacheModel.EntriesDistinct | packages/network/src/workers/Cache/CacheStore.spec.ts:152-169 | No two records name the same (component, entity) pair. |
| CacheModel.EntriesComplete | packages/network/src/workers/Cache/CacheStore.spec.ts:152-169 | Every pair the store holds a value for is reported by some record, with that value. |
| CacheModel.EntriesNamesFit | packages/network/src/workers/Cache/CacheStore.spec.ts:66-71 | The records of a valid store name at most 2^8 distinct components and at most 2^24 distinct entities. |
| CacheModel.InEntries | packages/network/src/workers/Cache/CacheStore.spec.ts:152-169 | A pair is reported by some record exactly when the store holds a value for it. |
| MergeModel.Replay | packages/network/src/workers/Cache/CacheStore.spec.ts:220 | Replaying updates keeps the store invariant. The only failure is RangeError. |
| MergeModel.ReplayAppend | packages/network/src/workers/Cache/CacheStore.spec.ts:220 | Replaying two runs of updates back to back is replaying the first and then the second. A RangeError in the first aborts the whole replay. |
| MergeModel.ReplayLookup | packages/network/src/workers/Cache/CacheStore.spec.ts:226-247 | After a replay each pair holds the value of the last update for it, or its old value if no update names it. |
| MergeModel.ReplayOrder | packages/network/src/workers/Cache/CacheStore.spec.ts:224-249 | After a replay the old pairs keep their positions. The new pairs follow, each once, in order of first occurrence among the updates. |
| MergeModel.ReplaySuccess | packages/network/src/workers/Cache/CacheStore.spec.ts:220-222 | A replay succeeds exactly when every update's indices are in the codec's range, reading its names in the tables that interning all the replay's names produces. |
| MergeModel.ReplaySucceeds | packages/network/src/workers/Cache/CacheStore.spec.ts:220-222 | A replay raises no RangeError when the distinct new component names it brings keep the component table within 2^8 entries and the distinct new entity names keep the entity table within 2^24 entries. |
| MergeModel.MaxWatermarkBounds | packages/network/src/workers/Cache/CacheStore.spec.ts:230-246 | The merged watermark is the maximum: no input watermark exceeds it, and some input reaches it. |
| MergeModel.Merge | packages/network/src/workers/Cache/CacheStore.spec.ts:220 | A successful merge is a valid store. The only failure is RangeError. Merging no stores gives a freshly created store. |
| MergeModel.MergeSucceeds | packages/network/src/workers/Cache/CacheStore.spec.ts:220-222 | A merge succeeds when the inputs' records name at most 2^8 distinct components and 2^24 distinct entities in all, however many records there are. |
| MergeModel.EntriesReplaySucceeds | packages/network/src/workers/Cache/CacheStore.spec.ts:220-222 | Replaying a valid store's own records into a fresh store never raises RangeError. |
| MergeModel.MergeOneSucceeds | packages/network/src/workers/Cache/CacheStore.spec.ts:220-222 | Merging a single valid store never raises RangeError. |
| MergeModel.MergeFailurePropagates | packages/network/src/workers/Cache/CacheStore.spec.ts:220 | Once replaying the records of the first inputs raises, the whole merge raises. |
| MergeModel.LatestSome | packages/network/src/workers/Cache/CacheStore.spec.ts:226-247 | The latest value for a pair exists exactly when one of the inputs holds the pair. |
| MergeModel.LatestLast | packages/network/src/workers/Cache/CacheStore.spec.ts:226-231 | The latest value for a pair is that of the last input holding it. |
| MergeModel.LastWriteOfAllEntries | packages/network/src/workers/Cache/CacheStore.spec.ts:226-247 | Across all inputs' records, the last write for a pair is the value of the last input holding it. |
| MergeModel.MergeLookup | packages/network/src/workers/Cache/CacheStore.spec.ts:224-249 | The merged store holds for each pair the value of the last input that holds it, and nothing for a pair no input holds. |
| MergeModel.MergeLaterWins | packages/network/src/workers/Cache/CacheStore.spec.ts:224-249 | The merged store holds a pair exactly when some input does. The value is that of the last input holding it. |
| MergeModel.MergeOrder | packages/network/src/workers/Cache/CacheStore.spec.ts:224-249 | The merged store reports the pairs of all the inputs' records, each once, in order of first occurrence. |
| MergeModel.MergeWatermark | packages/network/src/workers/Cache/CacheStore.spec.ts:230-246 | The merged watermark is the largest input watermark, no input is ahead of it, and every merged record reports it. |
| MergeModel.MergeSingleton | packages/network/src/workers/Cache/CacheStore.spec.ts:220-249 | Merging a single valid store succeeds and reads back exactly that store's records: same pairs, order, values and watermark. |
| MergeModel.MergeSingletonPairs | packages/network/src/workers/Cache/CacheStore.spec.ts:224-249 | Merging a single valid store succeeds and reports that store's pairs in that store's order. |
| CacheStores.CacheStore.constructor | packages/network/src/workers/Cache/CacheStore.spec.ts:19-25 | createCacheStore yields a valid store whose value is the empty store. |
| CacheStores.CacheStore.SetBlockNumber | packages/network/src/workers/Cache/CacheStore.spec.ts:230-246 | The merge's final write of the watermark changes the watermark and no other field, and keeps the invariant. |
| CacheStores.CacheStore.StoreEvent | packages/network/src/workers/Cache/CacheStore.spec.ts:40-71 | storeEvent updates the object's fields in place to StoreEventSpec of their old value, keeps the invariant, and reports StoreEventSpec's outcome. |
| CacheStores.ReplayInto | packages/network/src/workers/Cache/CacheStore.spec.ts:220 | The inner merge loop stores each record in turn. It succeeds exactly when Replay does, and then leaves Replay's store. |
| CacheStores.MergeRound | packages/network/src/workers/Cache/CacheStore.spec.ts:220 | One round of the merge extends the replay of the earlier inputs by one input. A RangeError in the round means the whole merge raises. |
| CacheStores.MergeSnapshots | packages/network/src/workers/Cache/CacheStore.spec.ts:220-222 | The merge loops succeed exactly when Merge does. They return a fresh store whose value is Merge's result. |
| CacheStores.MergeCacheStores | packages/network/src/workers/Cache/CacheStore.spec.ts:220-222 | mergeCacheStores succeeds exactly when Merge of the inputs' values does. It returns a fresh, valid store whose value is Merge's result. |
| Scenarios.FirstEvent | packages/network/src/workers/Cache/CacheStore.spec.ts:30-49 | The first event interns "Position" and "0x0" at index 0, writes one entry under key (0, 0) and sets the watermark to 0. |
| Scenarios.SecondEvent | packages/network/src/workers/Cache/CacheStore.spec.ts:51-71 | A second entity gets entity index 1 and a second entry under key (0, 1). The component table is unchanged and the watermark stays 0. |
| Scenarios.WatermarkFollowsLastEvent | packages/network/src/workers/Cache/CacheStore.spec.ts:74-90 | The watermark is 0 after an event of block 1, and 1 after a further event of block 2. |
| Scenarios.EntriesAfterFirst | packages/network/src/workers/Cache/CacheStore.spec.ts:106-117 | After one event the store reads back the one record at watermark 0. |
| Scenarios.OverwriteEvent | packages/network/src/workers/Cache/CacheStore.spec.ts:119-128 | The second event, for the same pair at block 2, succeeds on the store after the first event and leaves one entry, with the new value, at watermark 1. |
| Scenarios.EntriesAfterOverwrite | packages/network/src/workers/Cache/CacheStore.spec.ts:119-139 | storeEvent of the overwriting event on the store after the first event succeeds, and that store then reads back one record, with the new value and watermark 1. |
| Scenarios.ThirdEvent | packages/network/src/workers/Cache/CacheStore.spec.ts:141-150 | The third event, for entity 0x1 at block 3, succeeds on the overwritten store: entity 0x1 gets index 1 and a second entry follows the first, at watermark 2. |
| Scenarios.EntriesAfterThird | packages/network/src/workers/Cache/CacheStore.spec.ts:141-169 | storeEvent of the third event on the overwritten store succeeds, and the store then reads back the overwritten record first and the new entity's record second, both at watermark 2. |
| Scenarios.HealthEvent | packages/network/src/workers/Cache/CacheStore.spec.ts:187-197 | The first merge input after its two events: "Health" gets component index 1 and the watermark is 1. |
| Scenarios.SecondInputFirstEvent | packages/network/src/workers/Cache/CacheStore.spec.ts:199-206 | The first event of the second merge input, on a fresh store, succeeds: one Position entry under key 0, at watermark 2. |
| Scenarios.SecondInputSecondEvent | packages/network/src/workers/Cache/CacheStore.spec.ts:199-218 | The second merge input's two events, from a fresh store, both succeed: "Speed" gets component index 1 and the watermark is 3. |
| Scenarios.ExampleSucceeds | packages/network/src/workers/Cache/CacheStore.spec.ts:220-222 | The example merge raises no RangeError. |
| Scenarios.MergeExamplePairs | packages/network/src/workers/Cache/CacheStore.spec.ts:224-249 | The merge of the two inputs reports Position of 0x0, Health of 0x1 and Speed of 0x0, in that order. |
| Scenarios.MergeExampleValues | packages/network/src/workers/Cache/CacheStore.spec.ts:224-249 | The second input's Position value wins. Health and Speed keep the values of the one input holding them. |
| Scenarios.MergeExample | packages/network/src/workers/Cache/CacheStore.spec.ts:220-249 | The merge succeeds and reads back exactly the three expected records, all at watermark 3. |

## Left out

- The IndexedDB functions `getIndexDbECSCache`, `saveCacheStoreToIndexDb` and `loadIndexDbCacheStore` (CacheStore.spec.ts:253-291) are not modelled. They are asynchronous storage I/O. The closest value-level fact the model states is `MergeSingleton`: a store rebuilt from its own records reads back the same records.
- The implementation module `./CacheStore` is not part of this model. Its behaviour is taken from what CacheStore.spec.ts asserts.
- `packTuple` from `@latticexyz/utils` is not part of this model. `TupleCodec` stands in for it with an explicit injective layout (8-bit component index, 24-bit entity index) and an explicit range check. The state keys of the examples are therefore this layout's keys, not `packTuple`'s.
- Component values are opaque: a type parameter `V`. `Scenarios` uses a small `Value` datatype.
- `getCacheStoreEntries` returns a lazy iterator. The model returns the finite sequence it yields.
- Removing a state entry is not modelled: no example writes an absent value.
- Block numbers are unbounded integers. The source's JavaScript numbers are doubles, so the model does not capture precision loss above 2^53.
- A non-decreasing watermark is not modelled. storeEvent sets the watermark from every event, unconditionally, so it only rises when event block numbers do.
- On a RangeError, storeEvent has already interned the new names, and it leaves the state and the watermark untouched. No example exercises a RangeError, so this order is the model's choice.
