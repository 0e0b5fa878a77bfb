# indexDB-FrontendCache in Dafny

A model of two parts of the repository, with proofs.

- **`TsIndexDb`** is a promise-based wrapper around the browser's IndexedDB.
- **`FrontendCache`** is the TTL cache built on top of it.

The browser database is modelled as a value. It is a map from object-store names to tables. A table is a sequence of records whose primary keys are pairwise distinct, and the sequence order is the cursor order. That map lives in a `Disk` object. The `Disk` outlives any wrapper instance, as the browser's database outlives a page's connection.

The model has four modules:

- `Wrappers` (`wrappers.dfy`): `Option`.
- `Tables` (`tables.dfy`): the table operations every wrapper call reduces to, with their lemmas.
  - Cursor scans: `Filter`, `Reject`, `Images`, `MapWhere`.
  - Point reads: `Find`.
  - Upserts: `Put`, `PutAll`.
  - Removal by key: `DeleteKey`.
- `IndexDb` (`index_db.dfy`): the wrapper.
  - Each public operation becomes a constructor of `Op`: the task that `commitDb` builds.
  - `Apply` says what running one task does: a missing object store fails with `NoSuchTable`.
  - `Drain` is the `openDB` loop that pops the queue.
  - The class `TsIndexDb` holds `ready` (the connection `db` is set) and `queue`.
    - `Commit` either queues a task or runs it now.
    - `RunCursor` is the `cursorSuccess` recursion, written as a loop.
    - `Execute` runs one task against the disk.
  - `OpenDB` upgrades the stores and drains the queue; `CloseDB` drops the connection.
  - The class `Registry` holds the static `_instance` slot used by `getInstance`.
- `Cache` (`frontend_cache.dfy`): the cache.
  - Documents are `Doc(id, data, expiredAt)`.
  - `Data` has the three void values `Undefined`, `Null` and `NaN`.
  - Each cache operation is described twice:
    - as a function on the "Cache" table (`GetSpec`, `SetSpec`, …);
    - as a method of the class `FrontendCache`, which issues the same engine calls in the same order as the source (except `Increase` at the empty id, see Left out). Its contract ties the method to the function.
  - The frozen reference time is a constructor parameter of the cache.

Each method is proved against a function of the old state. The properties of the source are then proved as lemmas about those functions.

## Model

| member | source | states |
|---|---|---|
| Tables.FilterMembership | src/tsIndexDb.ts:302-311 | a cursor scan yields a record exactly when it is in the table and satisfies the condition |
| Tables.FilterPartition | src/tsIndexDb.ts:302-311 | the records a scan selects and the records it leaves make up the table, as a multiset |
| Tables.FilterBounded | src/tsIndexDb.ts:302-311 | a scan never yields more records than the table holds |
| Tables.FilterDistinct | src/tsIndexDb.ts:158-177 | removing records by cursor keeps primary keys distinct |
| Tables.FilterKeyIsFind | src/tsIndexDb.ts:158-177 | in a table with distinct keys, a scan for one key yields the stored record with that key, or nothing |
| Tables.PutFind | src/tsIndexDb.ts:150-152 | after a `put`, reading the record's key returns it, and other keys read as before |
| Tables.PutDistinct | src/tsIndexDb.ts:150-152 | a `put` keeps primary keys distinct |
| Tables.PutIdempotent | src/tsIndexDb.ts:150-152 | putting the same record twice leaves the table as one put left it |
| Tables.PutAllFind | src/tsIndexDb.ts:148-152 | after a batch of puts, a key reads as the batch's last record with it, or as before when the batch has none |
| Tables.DeleteKeyFind | src/tsIndexDb.ts:179-188 | after removing a key, that key reads as absent and every other key reads as before |
| IndexDb.ReverseAt | src/tsIndexDb.ts:200-202 | the reversed queue has the queue's length and its elements in the opposite order |
| IndexDb.DrainIsReversed | src/tsIndexDb.ts:196-205 | the `pop` loop gives the same final database and results as running the queue's tasks in reverse of push order |
| IndexDb.DrainRunsEachOnce | src/tsIndexDb.ts:200-202 | draining produces exactly one result per queued task |
| IndexDb.ApplyPreservesValid | src/tsIndexDb.ts:264-300 | no operation adds or removes object stores, and each keeps primary keys distinct when its handle keeps keys |
| IndexDb.QueryReadOnly | src/tsIndexDb.ts:64-78 | `query` succeeds on an existing store, changes nothing, and returns at most the table's size of records: exactly those that satisfy the condition |
| IndexDb.QueryAllReturnsTable | src/tsIndexDb.ts:48-62 | `queryAll` returns the whole table in cursor order and changes nothing |
| IndexDb.DeleteMatchesQuery | src/tsIndexDb.ts:158-177 | `delete` returns what `query` with the same condition returns; removed plus remaining is the old table, and exactly the non-matching records remain |
| IndexDb.UpdateRewritesMatches | src/tsIndexDb.ts:102-122 | `update` replaces each matching record by its image, leaves the others in place, and returns the images in cursor order |
| IndexDb.UpdateByKeySpec | src/tsIndexDb.ts:124-140 | `updateByPrimaryKey` on an absent key resolves null and changes nothing; on a present key it stores and returns `handle(current)`, and other keys are unchanged |
| IndexDb.InsertThenQueryByKey | src/tsIndexDb.ts:142-156 | after `insert`, `queryByPrimaryKey` of a key the batch wrote returns the batch's last record with that key; any other key reads as before |
| IndexDb.InsertOneRoundTrip | src/tsIndexDb.ts:91-100 | inserting one record and reading its key back returns that record |
| IndexDb.DeleteByKeySpec | src/tsIndexDb.ts:179-188 | `deleteByPrimaryKey` removes only that key, and is a no-op when the key is absent |
| IndexDb.DrainPair | src/tsIndexDb.ts:200-202 | a two-task queue runs the later task first |
| IndexDb.DrainLastWriterIsFirstPushed | src/tsIndexDb.ts:200-202 | when two queued inserts write one key, the record pushed first is the one that stays |
| IndexDb.QueuedInsertsBothLand | src/tsIndexDb.ts:294-298 | two inserts of different keys queued before the open are both stored after it |
| IndexDb.CreateTablesSpec | src/tsIndexDb.ts:207-211 | the upgrade creates every declared store that is missing, as an empty table, and leaves existing stores untouched |
| IndexDb.StoreValidAfterCreate | src/tsIndexDb.ts:255-262 | creating stores keeps every table's keys distinct |
| IndexDb.Disk.constructor | src/tsIndexDb.ts:192 | a database that was never opened has no stores and version 0 |
| IndexDb.Registry.constructor | src/tsIndexDb.ts:39 | the singleton slot starts empty |
| IndexDb.Registry.GetInstance | src/tsIndexDb.ts:41-46 | creates a new instance only when the slot is empty and options are given; otherwise returns the slot unchanged, possibly null |
| IndexDb.TsIndexDb.constructor | src/tsIndexDb.ts:27-37 | a new wrapper keeps its options and starts unopened, with an empty queue and its invariant holding over a valid disk |
| IndexDb.TsIndexDb.RunCursor | src/tsIndexDb.ts:302-311 | the cursor loop collects or rewrites or removes exactly the matching records, in cursor order, and passes every record |
| IndexDb.TsIndexDb.Execute | src/tsIndexDb.ts:48-188 | running one task changes the disk and resolves exactly as `Apply` says |
| IndexDb.TsIndexDb.Commit | src/tsIndexDb.ts:264-300 | before the open, the task joins the end of the queue and the database is unchanged; after it, the task runs at once and the queue is untouched |
| IndexDb.TsIndexDb.CreateTable | src/tsIndexDb.ts:255-262 | a store is created, empty, only when absent |
| IndexDb.TsIndexDb.OpenDB | src/tsIndexDb.ts:190-213 | a lower version is refused and nothing changes; otherwise missing stores are created on an upgrade, the connection is set, and the queue is emptied LIFO (last in, first out), giving the database and results of `Drain` |
| IndexDb.TsIndexDb.CloseDB | src/tsIndexDb.ts:215-230 | on an open database, the connection and the singleton slot are cleared; on an unopened one, the sentinel is returned and the slot is kept |
| Cache.IsVoid | src/index.ts:11-16 | void exactly for undefined, null and NaN |
| Cache.RejectIdSpec | src/index.ts:66-71 | the cursor delete on `_id === id` leaves no document with that id and changes no other id |
| Cache.GetReturnsOnlyLiveData | src/index.ts:57-73 | `get` returns data exactly when the document exists, its data is not void, and `expiredAt` is absent, 0 or later than the reference time, and then nothing changes; otherwise it returns null and no document with that id remains |
| Cache.SetStoresPayload | src/index.ts:80-101 | after `set`, the id holds exactly `{_id, data}`, plus `expiredAt = time + timeout` when the timeout is not 0; other ids are unchanged |
| Cache.SetIdempotent | src/index.ts:80-101 | repeating an identical `set` leaves the table unchanged |
| Cache.SetThenGet | src/index.ts:57-101 | `set(id, d, timeout)` with a timeout of 0 or more, then `get(id)`, returns `d` when `d` is not void and changes nothing more |
| Cache.SetThenGetAfterExpiry | src/index.ts:57-101 | once the reference time reaches a set document's expiry, `get` returns null and removes it |
| Cache.SetPaths | src/index.ts:83-100 | the update path, with or without the fallback insert, leaves the same table as the insert path |
| Cache.IncreaseAbsent | src/index.ts:116-123 | `increase` on an absent id stores `{_id, data: amount}` without expiry and returns `amount` |
| Cache.IncreasePresent | src/index.ts:104-114 | `increase` on a present id adds `amount`, keeps `expiredAt`, and returns what `get` then returns |
| Cache.IncreaseKeepsOtherIds | src/index.ts:103-125 | `increase` leaves every other id as it was, whether or not `id` existed |
| Cache.IncreaseTwice | src/index.ts:103-125 | a counter that starts absent returns x, then x + y |
| Cache.IncreaseAsWrittenDropsEmptyId | src/index.ts:113 | as written, `increase("", 2)` on `{_id: "", data: 1}` stores and returns 2, where the corrected definition gives 3 |
| Cache.IncreaseAsWrittenAgrees | src/index.ts:113 | for every non-empty id, the code as written and the corrected `increase` agree |
| Cache.RemovedIsStored | src/index.ts:128-133 | the delete on `_id === id` removes at most one document: the stored one |
| Cache.DeleteSpecHolds | src/index.ts:127-136 | `delete(id)` is true exactly when the id existed; afterwards none remains, and other ids are unchanged |
| Cache.PopSpecHolds | src/index.ts:138-146 | `pop(id)` returns the stored data, or null when it is absent, null or undefined; it leaves no document with that id, and a second `pop` returns null |
| Cache.SweepSpecHolds | src/index.ts:43-54 | the sweep keeps a document exactly when `expiredAt` is undefined or later than the reference time |
| Cache.SweepAgreesWithGet | src/index.ts:48 | the sweep and `get` agree on expiry, except for `expiredAt == 0`, which `get` treats as never expiring |
| Cache.CacheOpenCreatesTable | src/index.ts:24-41 | opening the cache database creates the "Cache" store when missing and keeps an existing one |
| Cache.FrontendCache.constructor | src/index.ts:18-23 | the cache keeps its open engine and its reference time |
| Cache.FrontendCache.Get | src/index.ts:57-73 | the point read, then the delete, change the table and answer as `GetSpec` says; a missing store fails |
| Cache.FrontendCache.Set | src/index.ts:80-101 | the update by key, then the fallback insert, leave the table as `SetSpec` says |
| Cache.FrontendCache.Increase | src/index.ts:103-125 | the update by key, then `get` or the insert, act as the corrected `IncreaseSpec` says |
| Cache.FrontendCache.Delete | src/index.ts:127-136 | the cursor delete, then the length test, act as `DeleteSpec` says |
| Cache.FrontendCache.Pop | src/index.ts:138-146 | the cursor delete, then `result[0]?.data ?? null`, act as `PopSpec` says |
| Cache.FrontendCache.Sweep | src/index.ts:43-54 | one sweep tick removes exactly what `SweepSpec` removes; a failure changes nothing |

## Left out

- Real IndexedDB I/O is not modelled: `indexedDB.open`, transactions, `onsuccess`/`onerror` callbacks and rejected promises. The database is a value, and the only failures are a missing object store and a version lower than the stored one.
- Promises and their scheduling are not modelled. A call made before the open is pending (`Commit` returns `None`), and its result appears in the list that `OpenDB` returns.
- The cache methods require that the engine is open (`FrontendCache.Valid`). A cache call before the initial open would wait on the queue, and that is left out.
- `deleteDB` is left out: it only forwards to `indexedDB.deleteDatabase`.
- `queryByKeyValue` is left out: it reads through a secondary index, and index internals are not modelled.
- Indexes, `createIndex` and `unique` constraints are not modelled. `TableSpec` keeps only index names.
- Cursor order is sequence order, and a `put` of a new key appends the record. Real IndexedDB orders records by key.
- All object stores of one wrapper share one key function. The source sets `keyPath` per store, and the cache has a single store.
- Handles that change the primary key are excluded by the precondition `WellFormed`: what IndexedDB does then is up to the browser.
- The `initDB` and `getInstance` exports (src/tsIndexDb.ts:314-323) are left out: the cache's constructor takes an engine that is already opened.
- The `setInterval` wiring, `console.log`, and `Date` capture are left out. The reference time is a constructor parameter; `Sweep` is one tick.
- JavaScript numbers are integers here: no floats, no NaN arithmetic beyond `Add`, and no objects or arrays as `data`.
- Cache.FrontendCache.Increase: follows the corrected definition (see Findings). The code as written is `Cache.IncreaseAsWritten`.
- FrontendCache.ts and lib/ are a concatenation and compiled copies of the two source files, so they hold no separate logic.

## Findings

| source | as written | input that shows it | evidently intended | confidence | as-written member | corrected member |
|---|---|---|---|---|---|---|
| src/index.ts:113 | `increase` decides on `result?._id`, which is falsy for the empty id, so a found document with `_id: ""` is overwritten by `{_id: "", data: amount}` | `increase("", 2)` on a table holding `{_id: "", data: 1}` stores 2 and returns 2 | decide on whether the update found a document: store and return 3 | not executed | Cache.IncreaseAsWrittenDropsEmptyId | Cache.FrontendCache.Increase |

The same truthiness test in `set` (src/index.ts:92) re-inserts the payload for the empty id. That is harmless: `Cache.SetPaths` shows that both paths leave the same table.
