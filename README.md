# Hexalith.EventStores key-value event store, modelled in Dafny

Hexalith.EventStores keeps each domain aggregate's events as an ordered stream. The stream lives in
a key-value backend. `KeyValueEventStore` stores event `k` of a stream under key `k`; versions are
dense and start at 1. Snapshots are stored under their version in a second key space.
A third key space holds the sorted list of snapshot versions under the key `"Versions"`.

Each open store holds a session. A session is an entry in a process-wide lock table, keyed by the
store id and holding the session id and an expiration time. Every operation first checks:
- that the store is not disposed;
- that it has a session;
- that the session is still in the table, is the store's own and has not expired.

`KeyValueEventStoreProvider` turns a (database, name, id) triple, or a message's metadata, into these
three key spaces. It builds a store over them and opens the store's session.

The model has these modules:

- `Errors`: `Option`, `Result` and `Outcome`, plus the exceptions of the source as an `Error` datatype.
- `Messages`: event messages and the metadata fields the store reads, including the optional
  sequence number.
- `KeyValueStorages`: the backend.
  - Key spaces are objects with a `data` map and a ghost log of the calls made on them.
  - The storage provider hands out the same key space for the same name.
- `StoreLocks`: the lock table (`SessionRegistry`), the session check and the lock step, as functions.
- `SnapshotIndex`: the snapshot-version index. It models `Append(v).Distinct().Order()` on the stored
  list, `Max()` and the first-snapshot path.
- `StreamSpec`: specification functions for version discovery, reads, appends and snapshot runs,
  and the lemmas about them.
- `EventStores`: the class `KeyValueEventStore`, whose methods change the key spaces and the lock
  table. Each method is proved against the `StreamSpec` / `StoreLocks` functions of the old state.
- `EventStoreProviders`: settings validation, space naming and the class
  `KeyValueEventStoreProvider`.

The model follows the code in every place where the code does something other than what its
interface documentation suggests. Those places are stated as lemmas:

- `AddAsync` advances its running version only for items that carry a sequence number. An item
  without one is written at the current version's own key (`UnsequencedItemKeepsRunningVersion`).
- The lock step refuses a store whose entry has expired and pre-empts a live one
  (`LockPreemptsLiveSession`, `ExpiredEntryRefusesLockForever`).
- A first snapshot on a stream creates an empty index. The version is not recorded
  (`FirstSnapshotIsNotRecorded`).
- A snapshot read on that empty index fails (`EmptyIndexFailsSnapshotRead`).
- A snapshot read uses a snapshot newer than the requested version (`SnapshotAboveVersionIsUsed`).
- `SnapshotAllAsync` passes an empty event list to the snapshot callback. The first version of a
  run on a new stream is lost from the index (`SnapshotRunLosesFirstVersion`).
- The store id joins the three name parts with `/`, so two different space names can share a store
  id and therefore a session (`StoreIdsOfSlashedNamesCollide`).

## Model

| member | source | states |
|---|---|---|
| StoreLocks.CheckPassesExactlyForLiveOwnSession | src/Hexalith.EventStores/KeyValueEventStore.cs:374-400 | The session check passes if and only if all of these hold: the store is not disposed, it has a non-empty session id, the lock table holds an entry for the store id with that session id, and the entry has not expired. |
| StoreLocks.CheckRejectionReasons | src/Hexalith.EventStores/KeyValueEventStore.cs:374-400 | Which error each failing case raises. Disposed raises ObjectDisposed. No session, or no entry for the store id, raises NotOpen. An entry that has expired raises SessionExpired. A live entry of another session raises InvalidSession. |
| StoreLocks.FreshLockPassesCheck | src/Hexalith.EventStores/KeyValueEventStore.cs:402-418 | After a lock with a fresh non-empty id, the session check passes at every later time up to now + timeout. |
| StoreLocks.LockPreemptsLiveSession | src/Hexalith.EventStores/KeyValueEventStore.cs:404-411 | While another session's lock is live, the lock is still granted, and the previous holder's next check fails with InvalidSession. |
| StoreLocks.ExpiredEntryRefusesLockForever | src/Hexalith.EventStores/KeyValueEventStore.cs:404-411 | An entry that has expired makes every lock attempt fail, now and at any later time. |
| StoreLocks.EvictionFreesStore | src/Hexalith.EventStores/KeyValueEventStore.cs:385-389 | A session check that finds the session expired removes the entry, after which the store can be locked again. |
| EventStores.StoreIdIsInjective | src/Hexalith.EventStores/KeyValueEventStore.cs:57 | When neither entity nor container contains '/', two space names give the same store id if and only if they are equal. |
| EventStores.StoreIdsOfSlashedNamesCollide | src/Hexalith.EventStores/KeyValueEventStore.cs:57 | Two different space names whose parts contain '/' give the same store id. |
| EventStores.KeyValueEventStore.constructor | src/Hexalith.EventStores/KeyValueEventStore.cs:41-55 | The store keeps the three key spaces and the lock table it is given. It starts not disposed and without a session. |
| EventStores.KeyValueEventStore.CheckSession | src/Hexalith.EventStores/KeyValueEventStore.cs:374-400 | Returns the session check of the old state. It removes the store's entry exactly when the check fails with SessionExpired, and changes nothing else. |
| StreamSpec.VersionFrom | src/Hexalith.EventStores/KeyValueEventStore.cs:290-301 | Probing upward from a stored prefix 1..v ends at a version r ≥ v such that 1..r are all stored and r + 1 is not. |
| StreamSpec.CurrentVersionIsLongestStoredPrefix | src/Hexalith.EventStores/KeyValueEventStore.cs:290-301 | The stream version is the unique k such that 1..k are stored and k + 1 is not, and 1..k are stored if and only if k ≤ version. |
| StreamSpec.ProbesAreInOrder | src/Hexalith.EventStores/KeyValueEventStore.cs:290-301 | Version discovery probes keys 1, 2, … in order, one call per key up to version + 1. |
| EventStores.KeyValueEventStore.Version | src/Hexalith.EventStores/KeyValueEventStore.cs:290-301 | After the session check, returns the stream version of the event key space. The backend sees exactly the probes 1..version + 1. |
| StreamSpec.GetCallsAreTheRange | src/Hexalith.EventStores/KeyValueEventStore.cs:183-190 | A range read issues one Get per key from first to last, in order, and no other call. |
| StreamSpec.ReadRangeSplits | src/Hexalith.EventStores/KeyValueEventStore.cs:165-172 | Reading first..last equals reading first..mid followed by reading mid+1..last. |
| StreamSpec.ReadRangeHoldsStoredMessages | src/Hexalith.EventStores/KeyValueEventStore.cs:183-190 | A message is in a range read if and only if it is the message stored at some key in the range. |
| StreamSpec.ReadRangeOfStoredRange | src/Hexalith.EventStores/KeyValueEventStore.cs:179-193 | When every key in the range is stored, the read has one message per key, in key order. |
| EventStores.KeyValueEventStore.GetSlice | src/Hexalith.EventStores/KeyValueEventStore.cs:179-193 | After the session check, returns the range read of the event key space, and the backend sees exactly its Get calls. |
| EventStores.KeyValueEventStore.ReadEvents | src/Hexalith.EventStores/KeyValueEventStore.cs:166-173 | The Get loop shared by both reads. It returns the range read and logs exactly one Get per key, in order. |
| StreamSpec.ReadWithoutSnapshotReplaysAll | src/Hexalith.EventStores/KeyValueEventStore.cs:146-176 | Without snapshots, a read up to a version replays events 1..version and touches neither snapshot space. |
| StreamSpec.SnapshotReadReplacesPrefix | src/Hexalith.EventStores/KeyValueEventStore.cs:150-172 | With a snapshot s where 0 < s ≤ version that is stored, the read is the snapshot message followed by events s+1..version. |
| StreamSpec.SnapshotAboveVersionIsUsed | src/Hexalith.EventStores/KeyValueEventStore.cs:154-163 | When the latest snapshot is above the requested version, the read returns that snapshot alone and no events. |
| StreamSpec.MissingSnapshotFallsBackToReplay | src/Hexalith.EventStores/KeyValueEventStore.cs:155-172 | When there is no positive snapshot version, or the snapshot is not stored, the read replays all events. |
| StreamSpec.EmptyIndexFailsSnapshotRead | src/Hexalith.EventStores/KeyValueEventStore.cs:154 | When the index list is empty, a snapshot read fails with EmptyIndex and reads nothing. |
| EventStores.KeyValueEventStore.GetUpTo | src/Hexalith.EventStores/KeyValueEventStore.cs:146-176 | After the session check, returns the stream read up to a version and logs exactly the backend calls that read makes. |
| EventStores.KeyValueEventStore.GetWithSnapshot | src/Hexalith.EventStores/KeyValueEventStore.cs:138-143 | Reads up to the current stream version, with or without snapshots. |
| EventStores.KeyValueEventStore.Get | src/Hexalith.EventStores/KeyValueEventStore.cs:131-135 | Reads up to the current stream version, using snapshots. |
| StreamSpec.AppendedContents | src/Hexalith.EventStores/KeyValueEventStore.cs:64-75 | Appending n items after version v stores item i under v+1+i. Every other key is kept unchanged. |
| StreamSpec.AddInSlotsWritesEveryItem | src/Hexalith.EventStores/KeyValueEventStore.cs:60-76 | When every item carries a sequence number equal to its slot v+1+i and the slots v+1..v+n are free, the append writes every item, issues one Add per item and returns v + n. |
| StreamSpec.AddStopsAtFirstMismatch | src/Hexalith.EventStores/KeyValueEventStore.cs:65-69 | The first item whose sequence number does not match its slot raises VersionMismatch with the slot. Only the earlier items are written. |
| StreamSpec.AddStep | src/Hexalith.EventStores/KeyValueEventStore.cs:65-73 | One item of the append loop: a mismatch ends the batch with VersionMismatch and no new call; a taken key ends it with DuplicateKey after one Add call; otherwise the item is written and the batch continues at the next running version. |
| StreamSpec.UnsequencedItemKeepsRunningVersion | src/Hexalith.EventStores/KeyValueEventStore.cs:67-72 | An item without a sequence number does not advance the running version v. On a non-empty stream its key v is taken, so the backend refuses it with DuplicateKey and nothing is written. On an empty stream it is written at key 0, which leaves the stream version at 0. |
| StreamSpec.AppendAdvancesVersion | src/Hexalith.EventStores/KeyValueEventStore.cs:60-76 | Appending n items at the current version v, each numbered with its slot, onto free slots v+1..v+n with key v+n+1 also free, returns v + n and makes the stream version v + n. |
| StreamSpec.AppendThenReplayReturnsBatch | src/Hexalith.EventStores/KeyValueEventStore.cs:60-76 | After a successful append, replaying 1..v+n yields the old replay followed by the batch. |
| EventStores.KeyValueEventStore.Add | src/Hexalith.EventStores/KeyValueEventStore.cs:60-76 | After the session check and version discovery, the result, data and call log are those of the append specification at the current version. |
| EventStores.KeyValueEventStore.AppendAt | src/Hexalith.EventStores/KeyValueEventStore.cs:64-75 | The per-item loop of the append: it ends with the result, data and log of the append specification. |
| EventStores.KeyValueEventStore.ClearSnapshot | src/Hexalith.EventStores/KeyValueEventStore.cs:79-85 | After the session check, removes exactly that version from the snapshot space. The index is left untouched. |
| EventStores.KeyValueEventStore.ClearSnapshots | src/Hexalith.EventStores/KeyValueEventStore.cs:88-103 | After the session check, removes the index key first and then every indexed version from the snapshot space, one Remove call each in that order. Without an index it changes nothing. |
| EventStores.KeyValueEventStore.Close | src/Hexalith.EventStores/KeyValueEventStore.cs:106-113 | With a session, it removes the store's entry, whoever holds it, and forgets the session id. Without a session it changes nothing. |
| EventStores.KeyValueEventStore.DisposeWith | src/Hexalith.EventStores/KeyValueEventStore.cs:307-340 | It marks the store disposed. The first disposing call also closes the session. |
| EventStores.KeyValueEventStore.Dispose | src/Hexalith.EventStores/KeyValueEventStore.cs:116-120 | Disposes with disposing = true. |
| EventStores.KeyValueEventStore.DisposeAsyncCore | src/Hexalith.EventStores/KeyValueEventStore.cs:342-372 | The first call removes the store's entry when it has a session but keeps the session id. It marks the store disposed. |
| EventStores.KeyValueEventStore.DisposeAsync | src/Hexalith.EventStores/KeyValueEventStore.cs:123-128 | Runs the asynchronous core and nothing else. |
| SnapshotIndex.Max | src/Hexalith.EventStores/KeyValueEventStore.cs:199 | The maximum of a non-empty list is in the list and bounds every element. |
| SnapshotIndex.LastSnapshotIsLargestRecorded | src/Hexalith.EventStores/KeyValueEventStore.cs:196-201 | The last snapshot is 0 without an index and fails with EmptyIndex exactly for an empty list. Otherwise it is the largest recorded version. |
| EventStores.KeyValueEventStore.LastSnapshotVersion | src/Hexalith.EventStores/KeyValueEventStore.cs:196-201 | After the session check, returns the last snapshot of the index space with one index read. |
| EventStores.KeyValueEventStore.SnapshotVersions | src/Hexalith.EventStores/KeyValueEventStore.cs:283-287 | After the session check, returns the recorded list, or the empty list without an index. |
| SnapshotIndex.DistinctKeepsEachElementOnce | src/Hexalith.EventStores/KeyValueEventStore.cs:277 | Distinct keeps exactly the elements of its input, once each. |
| SnapshotIndex.InsertKeepsAscending | src/Hexalith.EventStores/KeyValueEventStore.cs:277 | Inserting into an ascending list keeps it ascending and adds exactly that element. |
| SnapshotIndex.OrderSortsAndPermutes | src/Hexalith.EventStores/KeyValueEventStore.cs:277 | Order returns an ascending permutation of its input. |
| SnapshotIndex.WithVersionIsSortedSet | src/Hexalith.EventStores/KeyValueEventStore.cs:277 | Appending a version and applying Distinct then Order gives a strictly ascending list of exactly the old versions plus the new one. |
| SnapshotIndex.SnapshotKeepsSortedSet | src/Hexalith.EventStores/KeyValueEventStore.cs:268-279 | With an index present, a snapshot keeps the index key. The list stays strictly ascending and gains exactly the new version. |
| SnapshotIndex.SnapshotRecordsVersion | src/Hexalith.EventStores/KeyValueEventStore.cs:268-279 | With an index present, the last snapshot after a snapshot is the larger of the old last snapshot and the new version. |
| SnapshotIndex.FirstSnapshotIsNotRecorded | src/Hexalith.EventStores/KeyValueEventStore.cs:268-273 | Without an index, a snapshot creates an empty list, after which the last snapshot fails with EmptyIndex. |
| SnapshotIndex.SecondSnapshotIsOnlyOneRecorded | src/Hexalith.EventStores/KeyValueEventStore.cs:268-279 | On a new stream the second snapshot's version is the only one recorded. |
| EventStores.KeyValueEventStore.Snapshot | src/Hexalith.EventStores/KeyValueEventStore.cs:256-280 | After the session check, upserts the snapshot and updates the index by one snapshot step. |
| StreamSpec.SnapshotEachIsSequence | src/Hexalith.EventStores/KeyValueEventStore.cs:232-251 | A snapshot run over a list of versions is the snapshot steps applied one after another. |
| StreamSpec.SnapshotRunStep | src/Hexalith.EventStores/KeyValueEventStore.cs:236-246 | Moving the chunk loop from version k - 1 to k adds one snapshot step at k exactly when k is a multiple of the chunk size. |
| StreamSpec.MultiplesAreExact | src/Hexalith.EventStores/KeyValueEventStore.cs:234-241 | The chunk versions are exactly the multiples of the chunk size in 1..version, in strictly ascending order. |
| StreamSpec.UpsertedWritesExactly | src/Hexalith.EventStores/KeyValueEventStore.cs:240-246 | A snapshot run stores the snapshot under each chosen version and keeps every other stored snapshot. |
| StreamSpec.IndexedRecordsVersions | src/Hexalith.EventStores/KeyValueEventStore.cs:268-279 | With an index present, a run records exactly the old versions plus the run's versions, strictly ascending. |
| StreamSpec.SnapshotRunLosesFirstVersion | src/Hexalith.EventStores/KeyValueEventStore.cs:240-246 | On a new stream a snapshot run records every version of the run except the first. |
| EventStores.KeyValueEventStore.SnapshotAll | src/Hexalith.EventStores/KeyValueEventStore.cs:222-253 | After the session check, a chunk size ≤ 0 raises ArgumentError. Otherwise it discovers the version and snapshots every chunk multiple with the callback's result on the empty list. |
| EventStores.KeyValueEventStore.SnapshotChunks | src/Hexalith.EventStores/KeyValueEventStore.cs:232-251 | The chunk loop: it probes the stream and ends in the snapshot-run state for the multiples of the chunk size. |
| EventStores.KeyValueEventStore.LockStore | src/Hexalith.EventStores/KeyValueEventStore.cs:402-418 | Granted exactly when the lock test on the old table passes. When granted, the entry for the store id is the fresh session with expiration now + timeout. When refused, nothing changes. |
| EventStores.KeyValueEventStore.Open | src/Hexalith.EventStores/KeyValueEventStore.cs:204-219 | Passes exactly when the lock is granted. Otherwise it fails with OpenFailed and leaves the table and the session unchanged. |
| EventStoreProviders.AcceptSettings | src/libraries/Hexalith.EventStores/KeyValueEventStoreProvider.cs:39-51 | Settings are accepted if and only if storage and options are present and all three settings are defined. It keeps their values. A missing storage or options raises ArgumentNull; an undefined setting raises SettingsUndefined. |
| EventStoreProviders.DefaultSettingsAreAccepted | src/libraries/Hexalith.EventStores.Abstractions/Configurations/EventStoreSettings.cs:20-30 | The default settings are accepted as database "EventStores", open timeout 5 s and session timeout 60 s. |
| EventStoreProviders.SpaceNamesAreDistinct | src/libraries/Hexalith.EventStores/KeyValueEventStoreProvider.cs:70-73 | The event, snapshot and index spaces of one triple are pairwise distinct, and the snapshot space name determines the triple. |
| EventStoreProviders.SnapshotSpaceIsEventSpaceOfSuffixedDatabase | src/libraries/Hexalith.EventStores/KeyValueEventStoreProvider.cs:25 | The snapshot space of database d is the event space of database d + "__Snapshot". It differs from d's own event space. |
| EventStoreProviders.KeyValueEventStoreProvider.constructor | src/libraries/Hexalith.EventStores/KeyValueEventStoreProvider.cs:46-50 | Keeps the accepted settings, the storage and the lock table. |
| EventStoreProviders.KeyValueEventStoreProvider.Create | src/libraries/Hexalith.EventStores/KeyValueEventStoreProvider.cs:39-51 | Construction fails with the settings error, or yields a provider holding the accepted settings. |
| EventStoreProviders.KeyValueEventStoreProvider.CreateWithDefaults | src/libraries/Hexalith.EventStores/KeyValueEventStoreProvider.cs:58-61 | Without storage it raises ArgumentNull. Otherwise it yields a provider with the default settings. |
| EventStoreProviders.KeyValueEventStoreProvider.OpenStore | src/libraries/Hexalith.EventStores/KeyValueEventStoreProvider.cs:64-77 | Resolves the three spaces and keeps existing ones. It succeeds exactly when the lock on the event space's store id is granted, with a fresh open store over those spaces. Otherwise it raises OpenFailed and leaves the lock table unchanged. |
| EventStoreProviders.KeyValueEventStoreProvider.ResolveSpaces | src/libraries/Hexalith.EventStores/KeyValueEventStoreProvider.cs:70-73 | The three Create calls: they yield the storage's spaces for the triple's three names, keep existing spaces and add only those names. The event and snapshot spaces differ. |
| EventStoreProviders.KeyValueEventStoreProvider.OpenStoreFor | src/libraries/Hexalith.EventStores/KeyValueEventStoreProvider.cs:80-97 | For the partition id, domain name and domain id of the metadata: resolves the three spaces and keeps existing ones. It succeeds exactly when the lock on the event space's store id is granted, with a fresh, valid, undisposed store over those spaces holding the fresh session, and the lock table then holds that session with the configured session timeout. Otherwise it raises OpenFailed and leaves the lock table unchanged. |
| EventStoreProviders.KeyValueEventStoreProvider.OpenStoreDefault | src/libraries/Hexalith.EventStores/KeyValueEventStoreProvider.cs:100-105 | For the default database: resolves the three spaces and keeps existing ones. It succeeds exactly when the lock on the event space's store id is granted, with a fresh, valid, undisposed store over those spaces holding the fresh session, and the lock table then holds that session with the configured session timeout. Otherwise it raises OpenFailed and leaves the lock table unchanged. |

## Left out

- Asynchrony, cancellation tokens and `ConfigureAwait` are not modelled. Every operation is one
  sequential step.
- `Task.WhenAll` in `ClearSnapshotsAsync` and `SnapshotAllAsync` runs its tasks in creation order,
  without interleaving.
- Other threads touching the static lock table between two steps are not modelled.
- Clocks become parameters. `DateTimeOffset.UtcNow` (read by the session check) and the time provider
  (read by the lock step) are each a `now` argument. One call sees one reading, so the model does
  not capture time moving between the checks inside one call.
- `UniqueIdHelper.GenerateUniqueStringId` becomes a `freshId` argument.
- The key-value backend is foreign code, modelled as maps:
  - `Add` on an existing key fails with DuplicateKey and writes nothing.
  - Etags, serialisation and the disposal of the backing stores are not modelled.
- Dafny's item sequences, objects and callbacks cannot be null, so these ArgumentNullException
  paths are left out:
  - the engine constructor's checks of its three stores;
  - `AddAsync`'s check of its items;
  - `SnapshotAllAsync`'s check of its callback;
  - `SnapshotAsync`'s check of its snapshot message.
- `long` overflow of versions is not modelled: versions are unbounded integers.
- TimeSpan and string settings that are default or empty count as undefined. They are modelled as
  absent (`None`).
- EventStores.KeyValueEventStore.Open: it models a single lock attempt and requires
  sessionTimeout > 0.
  - The source retries when a lock is refused, but its retry condition makes the first refusal
    fatal; the result is the same.
  - `openTimeout` is never read; its retry wait is not modelled.
- EventStoreProviders.KeyValueEventStoreProvider.OpenStore: requires a positive session timeout,
  because it opens the store through Open. OpenStoreFor and OpenStoreDefault inherit that
  requirement.
- EventStores.KeyValueEventStore.constructor: it requires distinct event and snapshot key spaces.
  - GetUpTo, GetWithSnapshot, Get, SnapshotAll and SnapshotChunks require the same (`Valid()`).
  - The provider always passes distinct spaces (`SpaceNamesAreDistinct`).
  - Calls that alias the two spaces are not modelled.
- EventStores.KeyValueEventStore.SnapshotAll: the snapshot callback is a pure function.
  - The source calls it twice per chunk and discards the first result.
  - The model makes the same calls, but the discarded call has no observable effect.
- `AddAsync(items, expectedVersion)` is declared on the event store interface but has no
  implementation in the engine source, so it is not modelled.
- `EventStoreHelper` is not part of this model, and neither is
  `DuplicateEventStoreIdempotencyIdException`.
- Not modelled: the older provider copy at `src/Hexalith.EventStores/KeyValueEventStoreProvider.cs`
  and `IEventStoreProvider.GetStream`.
- Not modelled: the example programs and hosting code.
- A unit test of snapshot reads does not follow from the code, and the model follows the code.
  - The test mocks the event space's `Exists` to answer false, so the version probe gives 0.
  - Its snapshot index holds `[2]`, so the read at version 0 finds snapshot 2 above it.
  - The code then returns the snapshot alone (`SnapshotAboveVersionIsUsed`), while the test
    expects two items.
