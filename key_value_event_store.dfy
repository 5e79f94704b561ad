/** `KeyValueEventStore`: one event stream stored in three key spaces (events by version,
    snapshots by version, and the snapshot index), guarded by a session held in the
    process-wide registry. Every public operation first checks the session; each method
    states its result and new state through the functions of `StreamSpec`,
    `SnapshotIndex` and `StoreLocks`. The clock reading `now` of `CheckSession` and the
    reading of the engine's time provider used by `LockStore` are parameters. */
module EventStores {
  import opened Errors
  import opened Messages
  import opened KeyValueStorages
  import opened SnapshotIndex
  import opened StoreLocks
  import opened StreamSpec

  /** The registry key of a stream: "entity/container/database" of its event space. */
  function StoreIdOf(n: SpaceName): string
  {
    n.entity + "/" + n.container + "/" + n.database
  }

  /** Two strings joined by a separator that occurs in neither left part split back
      into the same parts. */
  lemma SplitAtSeparator(a: string, b: string, c: string, d: string)
    requires '/' !in a && '/' !in c && a + "/" + b == c + "/" + d
    ensures a == c && b == d
  {
    var s := a + "/" + b;
    assert s == c + "/" + d;
    assert s[|a|] == '/' && s[|c|] == '/';
    assert |a| == |c| by {
      assert forall i :: 0 <= i < |a| ==> s[i] == a[i];
      assert forall i :: 0 <= i < |c| ==> s[i] == c[i];
    }
    assert a == s[..|a|] && c == s[..|c|];
    assert b == s[|a| + 1..] && d == s[|c| + 1..];
  }

  /** Store ids tell streams apart as long as entity and container names hold no "/". */
  lemma {:induction false} StoreIdIsInjective(n: SpaceName, m: SpaceName)
    requires '/' !in n.entity && '/' !in n.container && '/' !in m.entity && '/' !in m.container
    ensures StoreIdOf(n) == StoreIdOf(m) <==> n == m
  {
    if StoreIdOf(n) == StoreIdOf(m) {
      assert StoreIdOf(n) == n.entity + "/" + (n.container + "/" + n.database);
      assert StoreIdOf(m) == m.entity + "/" + (m.container + "/" + m.database);
      SplitAtSeparator(n.entity, n.container + "/" + n.database, m.entity, m.container + "/" + m.database);
      SplitAtSeparator(n.container, n.database, m.container, m.database);
    }
  }

  /** Streams whose names hold "/" can share a store id, and with it a registry entry. */
  lemma StoreIdsOfSlashedNamesCollide()
    ensures StoreIdOf(SpaceName("d", "c", "a/b")) == StoreIdOf(SpaceName("d", "b/c", "a"))
    ensures SpaceName("d", "c", "a/b") != SpaceName("d", "b/c", "a")
  {
    assert StoreIdOf(SpaceName("d", "c", "a/b")) == "a/b/c/d";
    assert StoreIdOf(SpaceName("d", "b/c", "a")) == "a/b/c/d";
  }

  class KeyValueEventStore {
    const eventStore: EventKeySpace
    const snapshotStore: EventKeySpace
    const snapshotCollectionStore: IndexKeySpace
    const registry: SessionRegistry
    var disposed: bool
    var sessionId: Option<string>

    /** The event and snapshot spaces are distinct key spaces. */
    ghost predicate Valid()
    {
      eventStore != snapshotStore
    }

    constructor (eventStore: EventKeySpace, snapshotStore: EventKeySpace,
                 snapshotCollectionStore: IndexKeySpace, registry: SessionRegistry)
      requires eventStore != snapshotStore
      ensures Valid()
      ensures this.eventStore == eventStore && this.snapshotStore == snapshotStore
      ensures this.snapshotCollectionStore == snapshotCollectionStore && this.registry == registry
      ensures !disposed && sessionId == None
    {
      this.eventStore := eventStore;
      this.snapshotStore := snapshotStore;
      this.snapshotCollectionStore := snapshotCollectionStore;
      this.registry := registry;
      disposed := false;
      sessionId := None;
    }

    function StoreId(): string
    {
      StoreIdOf(eventStore.name)
    }

    /** What `CheckSession` decides at clock reading `now`. */
    function SessionCheck(now: int): Outcome
      reads this, registry
    {
      SessionOutcome(disposed, sessionId, registry.locks, StoreId(), now)
    }

    /** The registry changed only by the eviction of a session found expired. */
    twostate predicate CheckedRegistry(now: int)
      reads this, registry
    {
      registry.locks == LocksAfterCheck(old(registry.locks), StoreId(), old(SessionCheck(now)))
    }

    /** The snapshot and index key spaces, contents and call logs. */
    ghost function Stores(): SnapshotStores
      reads snapshotStore, snapshotCollectionStore
    {
      SnapshotStores(snapshotStore.data, snapshotCollectionStore.data, snapshotStore.log, snapshotCollectionStore.log)
    }

    /** `CheckSession`: the session guard of every operation. */
    method CheckSession(now: int) returns (r: Outcome)
      modifies registry
      ensures r == old(SessionCheck(now))
      ensures CheckedRegistry(now)
    {
      if disposed {
        return Fail(ObjectDisposed);
      }
      if !HasSession(sessionId) {
        return Fail(NotOpen);
      }
      var id := StoreId();
      if id in registry.locks {
        var session := registry.locks[id];
        if session.expiration < now {
          registry.locks := registry.locks - {id};
          return Fail(SessionExpired);
        }
        if session.sessionId != sessionId.value {
          return Fail(InvalidSession);
        }
        r := Pass;
      } else {
        r := Fail(NotOpen);
      }
    }

    /** `VersionAsync`: probes versions 1, 2, … until one is absent. */
    method Version(now: int) returns (r: Result<int>)
      modifies registry, eventStore`log
      ensures CheckedRegistry(now)
      ensures r == Guarded(old(SessionCheck(now)), Ok(CurrentVersion(eventStore.data)))
      ensures eventStore.log == old(eventStore.log) + if r.Ok? then ExistsProbes(r.value + 1) else []
    {
      var c := CheckSession(now);
      if c.Fail? {
        return Err(c.error);
      }
      var version: nat := 0;
      while true
        invariant Contiguous(eventStore.data, version)
        invariant eventStore.log == old(eventStore.log) + ExistsProbes(version)
        invariant registry.locks == old(registry.locks)
        decreases set k | k in eventStore.data && k > version
      {
        var found := eventStore.Exists(version + 1);
        if !found {
          break;
        }
        ghost var above := set k | k in eventStore.data && k > version;
        assert version + 1 in above;
        version := version + 1;
        assert (set k | k in eventStore.data && k > version) <= above - {version};
      }
      CurrentVersionIsLongestStoredPrefix(eventStore.data, version);
      r := Ok(version);
    }

    /** `AddAsync(items)`: appends a batch at the current version; see `AddItems`. */
    method Add(items: seq<EventMessage>, now: int) returns (r: Result<int>)
      modifies registry, eventStore
      ensures CheckedRegistry(now)
      ensures old(SessionCheck(now)).Fail? ==>
        r == Err(old(SessionCheck(now)).error) && eventStore.data == old(eventStore.data) && eventStore.log == old(eventStore.log)
      ensures old(SessionCheck(now)).Pass? ==>
        var v := CurrentVersion(old(eventStore.data));
        var a := AddItems(old(eventStore.data), items, v);
        && r == a.outcome && eventStore.data == a.data
        && eventStore.log == old(eventStore.log) + ExistsProbes(v + 1) + a.calls
    {
      var c := CheckSession(now);
      if c.Fail? {
        return Err(c.error);
      }
      var current := Version(now);
      r := AppendAt(items, current.value);
    }

    /** The `foreach` loop of `AddAsync`, from running version `version`. */
    method AppendAt(items: seq<EventMessage>, version: int) returns (r: Result<int>)
      modifies eventStore
      ensures var a := AddItems(old(eventStore.data), items, version);
        r == a.outcome && eventStore.data == a.data && eventStore.log == old(eventStore.log) + a.calls
    {
      ghost var spec := AddItems(old(eventStore.data), items, version);
      ghost var calls: seq<Call<int>> := [];
      var running := version;
      var i := 0;
      assert items[0..] == items;
      while i < |items|
        invariant 0 <= i <= |items|
        invariant eventStore.log == old(eventStore.log) + calls
        invariant var rest := AddItems(eventStore.data, items[i..], running);
          spec == AddResult(rest.data, calls + rest.calls, rest.outcome)
      {
        AddStep(eventStore.data, items, i, running, calls, spec);
        var item := items[i];
        var sn := SequenceNumber(item);
        // `sn != null && sn != ++version`: the increment happens only for a numbered item.
        var mismatch := false;
        if sn.Some? {
          running := running + 1;
          mismatch := sn.value != running;
        }
        if mismatch {
          return Err(VersionMismatch(running));
        }
        var added := eventStore.Add(running, EventState(item));
        calls := calls + [AddCall(running)];
        if added.Fail? {
          return Err(added.error);
        }
        i := i + 1;
      }
      assert items[i..] == [];
      r := Ok(running);
    }

    /** `ClearSnapshotAsync`: removes one snapshot; the index is left as it is. */
    method ClearSnapshot(version: int, now: int) returns (r: Outcome)
      modifies registry, snapshotStore
      ensures CheckedRegistry(now)
      ensures r == old(SessionCheck(now))
      ensures snapshotStore.data == if r.Pass? then old(snapshotStore.data) - {version} else old(snapshotStore.data)
      ensures snapshotStore.log == old(snapshotStore.log) + if r.Pass? then [RemoveCall(version)] else []
    {
      r := CheckSession(now);
      if r.Fail? {
        return;
      }
      var removed := snapshotStore.Remove(version);
    }

    /** `ClearSnapshotsAsync`: with an index record, removes it and every snapshot it
        lists; without one, does nothing. */
    method ClearSnapshots(now: int) returns (r: Outcome)
      modifies registry, snapshotStore, snapshotCollectionStore
      ensures CheckedRegistry(now)
      ensures r == old(SessionCheck(now))
      ensures r.Pass? && VersionsKey in old(snapshotCollectionStore.data) ==>
        var listed := old(snapshotCollectionStore.data)[VersionsKey];
        && snapshotCollectionStore.data == old(snapshotCollectionStore.data) - {VersionsKey}
        && snapshotStore.data == old(snapshotStore.data) - (set x | x in listed)
        && snapshotCollectionStore.log == old(snapshotCollectionStore.log) + [TryGetCall(VersionsKey), RemoveCall(VersionsKey)]
        && snapshotStore.log == old(snapshotStore.log) + seq(|listed|, i requires 0 <= i < |listed| => RemoveCall(listed[i]))
      ensures !(r.Pass? && VersionsKey in old(snapshotCollectionStore.data)) ==>
        && snapshotCollectionStore.data == old(snapshotCollectionStore.data)
        && snapshotStore.data == old(snapshotStore.data) && snapshotStore.log == old(snapshotStore.log)
        && snapshotCollectionStore.log == old(snapshotCollectionStore.log) + if r.Pass? then [TryGetCall(VersionsKey)] else []
    {
      r := CheckSession(now);
      if r.Fail? {
        return;
      }
      var snapshots := snapshotCollectionStore.TryGet(VersionsKey);
      if snapshots.Some? {
        var listed := snapshots.value;
        var removedIndex := snapshotCollectionStore.Remove(VersionsKey);
        ghost var data0 := snapshotStore.data;
        ghost var log0 := snapshotStore.log;
        var i := 0;
        while i < |listed|
          invariant 0 <= i <= |listed|
          invariant snapshotStore.data == data0 - (set x | x in listed[..i])
          invariant snapshotStore.log == log0 + seq(i, j requires 0 <= j < i => RemoveCall(listed[j]))
          invariant registry.locks == old(registry.locks)
          invariant snapshotCollectionStore.data == old(snapshotCollectionStore.data) - {VersionsKey}
          invariant snapshotCollectionStore.log == old(snapshotCollectionStore.log) + [TryGetCall(VersionsKey), RemoveCall(VersionsKey)]
        {
          var removed := snapshotStore.Remove(listed[i]);
          assert listed[..i + 1] == listed[..i] + [listed[i]];
          i := i + 1;
        }
        assert listed[..i] == listed;
      }
    }

    /** `Close`: with a session, removes the registry entry of the store, whoever holds
        it, and forgets the session. */
    method Close()
      modifies this, registry
      ensures disposed == old(disposed)
      ensures HasSession(old(sessionId)) ==> registry.locks == old(registry.locks) - {StoreId()} && sessionId == None
      ensures !HasSession(old(sessionId)) ==> registry.locks == old(registry.locks) && sessionId == old(sessionId)
    {
      if HasSession(sessionId) {
        registry.locks := registry.locks - {StoreId()};
        sessionId := None;
      }
    }

    /** `Dispose(bool disposing)`: the first call closes the store when `disposing` and
        marks it disposed; later calls do nothing. */
    method DisposeWith(disposing: bool)
      modifies this, registry
      ensures disposed
      ensures old(disposed) || !disposing ==> registry.locks == old(registry.locks) && sessionId == old(sessionId)
      ensures !old(disposed) && disposing && HasSession(old(sessionId)) ==>
        registry.locks == old(registry.locks) - {StoreId()} && sessionId == None
      ensures !old(disposed) && disposing && !HasSession(old(sessionId)) ==>
        registry.locks == old(registry.locks) && sessionId == old(sessionId)
    {
      if disposed {
        return;
      }
      if disposing {
        Close();
      }
      disposed := true;
    }

    /** `Dispose()`. */
    method Dispose()
      modifies this, registry
      ensures disposed
      ensures old(disposed) ==> registry.locks == old(registry.locks) && sessionId == old(sessionId)
      ensures !old(disposed) && HasSession(old(sessionId)) ==>
        registry.locks == old(registry.locks) - {StoreId()} && sessionId == None
      ensures !old(disposed) && !HasSession(old(sessionId)) ==>
        registry.locks == old(registry.locks) && sessionId == old(sessionId)
    {
      DisposeWith(true);
    }

    /** `DisposeAsyncCore`: the first call releases the registry entry when a session is
        held (keeping the session id) and marks the store disposed. */
    method DisposeAsyncCore()
      modifies this, registry
      ensures disposed && sessionId == old(sessionId)
      ensures !old(disposed) && HasSession(old(sessionId)) ==> registry.locks == old(registry.locks) - {StoreId()}
      ensures old(disposed) || !HasSession(old(sessionId)) ==> registry.locks == old(registry.locks)
    {
      if disposed {
        return;
      }
      if HasSession(sessionId) && StoreId() != "" {
        registry.locks := registry.locks - {StoreId()};
      }
      disposed := true;
    }

    /** `DisposeAsync`: the asynchronous release followed by `Dispose(false)`. */
    method DisposeAsync()
      modifies this, registry
      ensures disposed && sessionId == old(sessionId)
      ensures !old(disposed) && HasSession(old(sessionId)) ==> registry.locks == old(registry.locks) - {StoreId()}
      ensures old(disposed) || !HasSession(old(sessionId)) ==> registry.locks == old(registry.locks)
    {
      DisposeAsyncCore();
      DisposeWith(false);
    }

    /** `GetAsync(version, useSnapshot)`: reads from the latest snapshot when asked to and
        one exists, then the stored events up to `version`; see `ReadStream`. */
    method GetUpTo(version: int, useSnapshot: bool, now: int) returns (r: Result<seq<EventMessage>>)
      requires Valid()
      modifies registry, eventStore`log, snapshotStore`log, snapshotCollectionStore`log
      ensures CheckedRegistry(now)
      ensures r == Guarded(old(SessionCheck(now)),
                           ReadStream(eventStore.data, snapshotStore.data, snapshotCollectionStore.data, version, useSnapshot))
      ensures var pass := old(SessionCheck(now)).Pass?;
        && eventStore.log == old(eventStore.log) +
             (if pass then ReadEventCalls(snapshotStore.data, snapshotCollectionStore.data, version, useSnapshot) else [])
        && snapshotStore.log == old(snapshotStore.log) +
             (if pass then ReadSnapshotCalls(snapshotCollectionStore.data, useSnapshot) else [])
        && snapshotCollectionStore.log == old(snapshotCollectionStore.log) +
             (if pass then ReadIndexCalls(useSnapshot) else [])
    {
      var c := CheckSession(now);
      if c.Fail? {
        return Err(c.error);
      }
      var events: seq<EventMessage> := [];
      var startVersion := 1;
      if useSnapshot {
        var last := LastSnapshotVersion(now);
        if last.Err? {
          return Err(last.error);
        }
        var snapshotVersion := last.value;
        if snapshotVersion > 0 {
          var snapshot := snapshotStore.Get(snapshotVersion);
          if snapshot.Some? {
            events := [snapshot.value.value];
            startVersion := snapshotVersion + 1;
          }
        }
      }
      assert SnapshotBase(snapshotStore.data, snapshotCollectionStore.data, useSnapshot) == Ok(startVersion - 1);
      assert events == if startVersion > 1 then [snapshotStore.data[startVersion - 1].value] else [];
      var replayed := ReadEvents(startVersion, version);
      r := Ok(events + replayed);
    }

    /** `GetAsync(useSnapshot)`: reads the stream up to its current version. */
    method GetWithSnapshot(useSnapshot: bool, now: int) returns (r: Result<seq<EventMessage>>)
      requires Valid()
      modifies registry, eventStore`log, snapshotStore`log, snapshotCollectionStore`log
      ensures CheckedRegistry(now)
      ensures r == Guarded(old(SessionCheck(now)),
                           ReadStream(eventStore.data, snapshotStore.data, snapshotCollectionStore.data,
                                      CurrentVersion(eventStore.data), useSnapshot))
      ensures var pass := old(SessionCheck(now)).Pass?;
        var v := CurrentVersion(eventStore.data);
        && eventStore.log == old(eventStore.log) +
             (if pass then ExistsProbes(v + 1) + ReadEventCalls(snapshotStore.data, snapshotCollectionStore.data, v, useSnapshot) else [])
        && snapshotStore.log == old(snapshotStore.log) +
             (if pass then ReadSnapshotCalls(snapshotCollectionStore.data, useSnapshot) else [])
        && snapshotCollectionStore.log == old(snapshotCollectionStore.log) +
             (if pass then ReadIndexCalls(useSnapshot) else [])
    {
      var c := CheckSession(now);
      if c.Fail? {
        return Err(c.error);
      }
      var current := Version(now);
      r := GetUpTo(current.value, useSnapshot, now);
    }

    /** `GetAsync()`: reads the whole stream, from the latest snapshot. */
    method Get(now: int) returns (r: Result<seq<EventMessage>>)
      requires Valid()
      modifies registry, eventStore`log, snapshotStore`log, snapshotCollectionStore`log
      ensures CheckedRegistry(now)
      ensures r == Guarded(old(SessionCheck(now)),
                           ReadStream(eventStore.data, snapshotStore.data, snapshotCollectionStore.data,
                                      CurrentVersion(eventStore.data), true))
      ensures var pass := old(SessionCheck(now)).Pass?;
        var v := CurrentVersion(eventStore.data);
        && eventStore.log == old(eventStore.log) +
             (if pass then ExistsProbes(v + 1) + ReadEventCalls(snapshotStore.data, snapshotCollectionStore.data, v, true) else [])
        && snapshotStore.log == old(snapshotStore.log) +
             (if pass then ReadSnapshotCalls(snapshotCollectionStore.data, true) else [])
        && snapshotCollectionStore.log == old(snapshotCollectionStore.log) +
             (if pass then ReadIndexCalls(true) else [])
    {
      var c := CheckSession(now);
      if c.Fail? {
        return Err(c.error);
      }
      r := GetWithSnapshot(true, now);
    }

    /** `GetSliceAsync(first, last)`: the stored events of versions first..last. */
    method GetSlice(first: int, last: int, now: int) returns (r: Result<seq<EventMessage>>)
      modifies registry, eventStore`log
      ensures CheckedRegistry(now)
      ensures r == Guarded(old(SessionCheck(now)), Ok(ReadRange(eventStore.data, first, last)))
      ensures eventStore.log == old(eventStore.log) + if r.Ok? then GetCalls(first, last) else []
    {
      var c := CheckSession(now);
      if c.Fail? {
        return Err(c.error);
      }
      var events := ReadEvents(first, last);
      r := Ok(events);
    }

    /** The `for` loop shared by `GetAsync(version, useSnapshot)` and `GetSliceAsync`: gets
        each version first..last in turn and keeps the ones that are stored. */
    method ReadEvents(first: int, last: int) returns (events: seq<EventMessage>)
      modifies eventStore`log
      ensures events == ReadRange(eventStore.data, first, last)
      ensures eventStore.log == old(eventStore.log) + GetCalls(first, last)
    {
      events := [];
      var i := first;
      while i <= last
        invariant first <= i && (i <= last + 1 || i == first)
        invariant events == ReadRange(eventStore.data, first, i - 1)
        invariant eventStore.log == old(eventStore.log) + GetCalls(first, i - 1)
      {
        var state := eventStore.Get(i);
        if state.Some? {
          events := events + [state.value.value];
        }
        i := i + 1;
      }
    }

    /** `LastSnapshotVersionAsync`; see `LastSnapshot`. */
    method LastSnapshotVersion(now: int) returns (r: Result<int>)
      modifies registry, snapshotCollectionStore`log
      ensures CheckedRegistry(now)
      ensures r == Guarded(old(SessionCheck(now)), LastSnapshot(snapshotCollectionStore.data))
      ensures snapshotCollectionStore.log == old(snapshotCollectionStore.log) +
        if old(SessionCheck(now)).Pass? then [TryGetCall(VersionsKey)] else []
    {
      var c := CheckSession(now);
      if c.Fail? {
        return Err(c.error);
      }
      var snapshots := snapshotCollectionStore.TryGet(VersionsKey);
      if snapshots.None? {
        r := Ok(0);
      } else if snapshots.value == [] {
        r := Err(EmptyIndex);
      } else {
        r := Ok(Max(snapshots.value));
      }
    }

    /** `SnapshotVersionsAsync`: the index record, or nothing. */
    method SnapshotVersions(now: int) returns (r: Result<seq<int>>)
      modifies registry, snapshotCollectionStore`log
      ensures CheckedRegistry(now)
      ensures r == Guarded(old(SessionCheck(now)), Ok(Versions(snapshotCollectionStore.data)))
      ensures snapshotCollectionStore.log == old(snapshotCollectionStore.log) +
        if r.Ok? then [TryGetCall(VersionsKey)] else []
    {
      var c := CheckSession(now);
      if c.Fail? {
        return Err(c.error);
      }
      var snapshots := snapshotCollectionStore.TryGet(VersionsKey);
      r := Ok(if snapshots.Some? then snapshots.value else []);
    }

    /** `LockStore`: as written, refuses when the registry entry of the store has expired,
        and otherwise installs a new session for `timeout` ticks from `now`. */
    method LockStore(timeout: int, now: int, freshId: string) returns (locked: bool)
      modifies this, registry
      ensures disposed == old(disposed)
      ensures locked == LockGranted(old(registry.locks), StoreId(), now)
      ensures locked ==> registry.locks == LocksAfterLock(old(registry.locks), StoreId(), now, timeout, freshId)
                         && sessionId == Some(freshId)
      ensures !locked ==> registry.locks == old(registry.locks) && sessionId == old(sessionId)
    {
      var id := StoreId();
      if id in registry.locks {
        var session := registry.locks[id];
        if session.expiration < now {
          return false;
        }
        registry.locks := registry.locks - {id};
      }
      registry.locks := registry.locks[id := Session(freshId, now + timeout)];
      sessionId := Some(freshId);
      locked := true;
    }

    /** `OpenAsync` for a positive session timeout: as written, it gives up at the first
        refused lock, and the open timeout is not read. */
    method Open(sessionTimeout: int, openTimeout: int, now: int, freshId: string) returns (r: Outcome)
      requires sessionTimeout > 0
      modifies this, registry
      ensures disposed == old(disposed)
      ensures r.Pass? <==> LockGranted(old(registry.locks), StoreId(), now)
      ensures r.Fail? ==> r.error == OpenFailed && registry.locks == old(registry.locks) && sessionId == old(sessionId)
      ensures r.Pass? ==> registry.locks == LocksAfterLock(old(registry.locks), StoreId(), now, sessionTimeout, freshId)
                          && sessionId == Some(freshId)
    {
      var locked := LockStore(sessionTimeout, now, freshId);
      if !locked {
        return Fail(OpenFailed);
      }
      r := Pass;
    }

    /** `SnapshotAsync(version, snapshot)`; see `SnapshotStep`. */
    method Snapshot(version: int, snapshot: EventMessage, now: int) returns (r: Outcome)
      modifies registry, snapshotStore, snapshotCollectionStore
      ensures CheckedRegistry(now)
      ensures r == old(SessionCheck(now))
      ensures Stores() == if r.Pass? then SnapshotStep(old(Stores()), version, EventState(snapshot)) else old(Stores())
    {
      r := CheckSession(now);
      if r.Fail? {
        return;
      }
      snapshotStore.AddOrUpdate(version, EventState(snapshot));
      var snapshots := snapshotCollectionStore.TryGet(VersionsKey);
      if snapshots.None? {
        var added := snapshotCollectionStore.Add(VersionsKey, []);
      } else {
        snapshotCollectionStore.Set(VersionsKey, WithVersion(snapshots.value, version));
      }
    }

    /** `SnapshotAllAsync(chunkSize, snapshot)`: walks the stream and snapshots every
        version that is a multiple of the chunk size. As written the list handed to the
        callback is always empty, so every snapshot is `snapshot([])`. */
    method SnapshotAll(chunkSize: int, snapshot: seq<EventMessage> -> EventMessage, now: int) returns (r: Outcome)
      requires Valid()
      modifies registry, eventStore`log, snapshotStore, snapshotCollectionStore
      ensures CheckedRegistry(now)
      ensures old(SessionCheck(now)).Fail? ==>
        r == old(SessionCheck(now)) && Stores() == old(Stores()) && eventStore.log == old(eventStore.log)
      ensures old(SessionCheck(now)).Pass? && chunkSize <= 0 ==>
        r == Fail(ArgumentError) && Stores() == old(Stores()) && eventStore.log == old(eventStore.log)
      ensures old(SessionCheck(now)).Pass? && chunkSize > 0 ==>
        var v := CurrentVersion(eventStore.data);
        && r == Pass
        && eventStore.log == old(eventStore.log) + TryGetProbes(v + 1)
        && Stores() == SnapshotEach(old(Stores()), Multiples(chunkSize, v), EventState(snapshot([])))
    {
      r := CheckSession(now);
      if r.Fail? {
        return;
      }
      if chunkSize <= 0 {
        return Fail(ArgumentError);
      }
      SnapshotChunks(chunkSize, snapshot, now);
    }

    /** The `while` loop of `SnapshotAllAsync`, once the session and the chunk size are
        accepted: the snapshot calls of the source run one after another. */
    method SnapshotChunks(chunkSize: int, snapshot: seq<EventMessage> -> EventMessage, now: int)
      requires Valid() && chunkSize > 0 && SessionCheck(now) == Pass
      modifies registry, eventStore`log, snapshotStore, snapshotCollectionStore
      ensures registry.locks == old(registry.locks)
      ensures eventStore.log == old(eventStore.log) + TryGetProbes(CurrentVersion(eventStore.data) + 1)
      ensures Stores() == SnapshotEach(old(Stores()), Multiples(chunkSize, CurrentVersion(eventStore.data)),
                                       EventState(snapshot([])))
    {
      var events: seq<EventMessage> := [];
      ghost var e := EventState(snapshot(events));
      ghost var st0 := Stores();
      var version: nat := 0;
      SnapshotEachIsSequence(st0, [], 0, e);
      assert Multiples(chunkSize, 0) == [];
      while true
        invariant Contiguous(eventStore.data, version)
        invariant eventStore.log == old(eventStore.log) + TryGetProbes(version)
        invariant Stores() == SnapshotEach(st0, Multiples(chunkSize, version), e)
        invariant registry.locks == old(registry.locks) && SessionCheck(now) == Pass
        decreases set k | k in eventStore.data && k > version
      {
        var ev := eventStore.TryGet(version + 1);
        if ev.None? {
          break;
        }
        ghost var above := set k | k in eventStore.data && k > version;
        assert version + 1 in above;
        assert TryGetProbes(version + 1) == TryGetProbes(version) + [TryGetCall(version + 1)];
        version := version + 1;
        assert (set k | k in eventStore.data && k > version) <= above - {version};
        assert eventStore.log == old(eventStore.log) + TryGetProbes(version);
        SnapshotRunStep(st0, chunkSize, version, e);
        if version % chunkSize == 0 {
          var ignored := snapshot(events);
          var written := Snapshot(version, snapshot(events), now);
        }
      }
      CurrentVersionIsLongestStoredPrefix(eventStore.data, version);
    }
  }
}
