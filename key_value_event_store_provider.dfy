/** `KeyValueEventStoreProvider`: validates its settings once, then opens engines over
    three key spaces derived from a (database, name, id) triple. Times are milliseconds. */
module EventStoreProviders {
  import opened Errors
  import opened Messages
  import opened KeyValueStorages
  import opened StoreLocks
  import opened EventStores

  const SnapshotSuffix: string := "__Snapshot"
  const SnapshotIndexSuffix: string := "__Snapshot_Index"

  /** `EventStoreSettings`; a setting that is not defined is `None`. */
  datatype EventStoreSettings = EventStoreSettings(defaultDatabase: Option<string>,
                                                   defaultOpenTimeout: Option<int>,
                                                   defaultSessionTimeout: Option<int>)

  /** The settings' defaults: database "EventStores", open timeout 5 s, session timeout 1 min. */
  function DefaultSettings(): EventStoreSettings
  {
    EventStoreSettings(Some("EventStores"), Some(5 * 1000), Some(60 * 1000))
  }

  /** What the provider keeps from its settings. */
  datatype ProviderSettings = ProviderSettings(defaultDatabase: string, openTimeout: int, sessionTimeout: int)

  /** The constructor's checks, in the order the code makes them (the storage first, then
      the options, the open timeout, the session timeout and the database), and the
      values it then keeps. */
  function AcceptSettings(options: Option<EventStoreSettings>, hasStorage: bool): (r: Result<ProviderSettings>)
    ensures r.Ok? <==> hasStorage && options.Some? && options.value.defaultOpenTimeout.Some?
                       && options.value.defaultSessionTimeout.Some? && options.value.defaultDatabase.Some?
    ensures r.Ok? ==> && r.value.defaultDatabase == options.value.defaultDatabase.value
                      && r.value.openTimeout == options.value.defaultOpenTimeout.value
                      && r.value.sessionTimeout == options.value.defaultSessionTimeout.value
    ensures !hasStorage || options.None? ==> r == Err(ArgumentNull)
    ensures hasStorage && options.Some? && r.Err? ==> r == Err(SettingsUndefined)
  {
    if !hasStorage then Err(ArgumentNull)
    else if options.None? then Err(ArgumentNull)
    else if options.value.defaultOpenTimeout.None? then Err(SettingsUndefined)
    else if options.value.defaultSessionTimeout.None? then Err(SettingsUndefined)
    else if options.value.defaultDatabase.None? then Err(SettingsUndefined)
    else Ok(ProviderSettings(options.value.defaultDatabase.value, options.value.defaultOpenTimeout.value,
                             options.value.defaultSessionTimeout.value))
  }

  /** The default settings are accepted as "EventStores", 5000 ms and 60000 ms. */
  lemma DefaultSettingsAreAccepted()
    ensures AcceptSettings(Some(DefaultSettings()), true) == Ok(ProviderSettings("EventStores", 5000, 60000))
  {
  }

  /** The event space of a stream. */
  function EventSpaceName(database: string, name: string, id: string): SpaceName
  {
    SpaceName(database, name, id)
  }

  /** The snapshot space of a stream: the database name with the snapshot suffix. */
  function SnapshotSpaceName(database: string, name: string, id: string): SpaceName
  {
    SpaceName(database + SnapshotSuffix, name, id)
  }

  /** The snapshot index space of a stream: the database name with the index suffix. */
  function SnapshotIndexSpaceName(database: string, name: string, id: string): SpaceName
  {
    SpaceName(database + SnapshotIndexSuffix, name, id)
  }

  /** The three key spaces of a stream have pairwise distinct names, and the names
      determine the stream: two streams share an event space only if they are the same. */
  lemma SpaceNamesAreDistinct(database: string, name: string, id: string, database': string, name': string, id': string)
    ensures EventSpaceName(database, name, id) != SnapshotSpaceName(database, name, id)
    ensures EventSpaceName(database, name, id) != SnapshotIndexSpaceName(database, name, id)
    ensures SnapshotSpaceName(database, name, id) != SnapshotIndexSpaceName(database, name, id)
    ensures SnapshotSpaceName(database, name, id) == SnapshotSpaceName(database', name', id') ==>
      database == database' && name == name' && id == id'
  {
    var d := database + SnapshotSuffix;
    var d' := database' + SnapshotSuffix;
    if d == d' {
      assert database == d[..|database|] == d'[..|database'|] == database';
    }
  }

  /** The snapshot space of a stream is the event space of the stream with the same
      name and id in the database carrying the snapshot suffix. */
  lemma SnapshotSpaceIsEventSpaceOfSuffixedDatabase(database: string, name: string, id: string)
    ensures SnapshotSpaceName(database, name, id) == EventSpaceName(database + "__Snapshot", name, id)
    ensures SnapshotSpaceName(database, name, id) != EventSpaceName(database, name, id)
  {
  }

  class KeyValueEventStoreProvider {
    const defaultDatabase: string
    const openTimeout: int
    const sessionTimeout: int
    const storage: KeyValueProvider
    const registry: SessionRegistry

    constructor (settings: ProviderSettings, storage: KeyValueProvider, registry: SessionRegistry)
      ensures defaultDatabase == settings.defaultDatabase && openTimeout == settings.openTimeout
      ensures sessionTimeout == settings.sessionTimeout
      ensures this.storage == storage && this.registry == registry
    {
      defaultDatabase := settings.defaultDatabase;
      openTimeout := settings.openTimeout;
      sessionTimeout := settings.sessionTimeout;
      this.storage := storage;
      this.registry := registry;
    }

    /** `KeyValueEventStoreProvider(options, storage, timeProvider)`. */
    static method Create(options: Option<EventStoreSettings>, storage: KeyValueProvider?, registry: SessionRegistry)
      returns (r: Result<KeyValueEventStoreProvider>)
      ensures AcceptSettings(options, storage != null).Err? ==> r == Err(AcceptSettings(options, storage != null).error)
      ensures AcceptSettings(options, storage != null).Ok? ==>
        var s := AcceptSettings(options, storage != null).value;
        && r.Ok? && fresh(r.value)
        && r.value.defaultDatabase == s.defaultDatabase && r.value.openTimeout == s.openTimeout
        && r.value.sessionTimeout == s.sessionTimeout && r.value.storage == storage && r.value.registry == registry
    {
      var accepted := AcceptSettings(options, storage != null);
      if accepted.Err? {
        return Err(accepted.error);
      }
      var provider := new KeyValueEventStoreProvider(accepted.value, storage, registry);
      r := Ok(provider);
    }

    /** `KeyValueEventStoreProvider(storage, timeProvider)`: the default settings. */
    static method CreateWithDefaults(storage: KeyValueProvider?, registry: SessionRegistry)
      returns (r: Result<KeyValueEventStoreProvider>)
      ensures storage == null ==> r == Err(ArgumentNull)
      ensures storage != null ==>
        && r.Ok? && fresh(r.value) && r.value.storage == storage && r.value.registry == registry
        && r.value.defaultDatabase == "EventStores" && r.value.openTimeout == 5000 && r.value.sessionTimeout == 60000
    {
      r := Create(Some(DefaultSettings()), storage, registry);
    }

    /** The storage has resolved the three key spaces of the stream. */
    ghost predicate HoldsSpaces(database: string, name: string, id: string)
      reads storage
    {
      && EventSpaceName(database, name, id) in storage.eventSpaces
      && SnapshotSpaceName(database, name, id) in storage.eventSpaces
      && SnapshotIndexSpaceName(database, name, id) in storage.indexSpaces
    }

    /** The three `Create` calls of `OpenStoreAsync`: the event space of the triple, the
        event space of the snapshot database and the index space of the index database. */
    method ResolveSpaces(database: string, name: string, id: string)
      returns (eventSpace: EventKeySpace, snapshotSpace: EventKeySpace, indexSpace: IndexKeySpace)
      requires storage.Valid()
      modifies storage
      ensures storage.Valid()
      ensures var en := EventSpaceName(database, name, id);
        var sn := SnapshotSpaceName(database, name, id);
        var xn := SnapshotIndexSpaceName(database, name, id);
        && HoldsSpaces(database, name, id)
        && (forall n :: n in old(storage.eventSpaces) ==> n in storage.eventSpaces && storage.eventSpaces[n] == old(storage.eventSpaces)[n])
        && (forall n :: n in old(storage.indexSpaces) ==> n in storage.indexSpaces && storage.indexSpaces[n] == old(storage.indexSpaces)[n])
        && (forall n :: n in storage.eventSpaces ==> n in old(storage.eventSpaces) || n == en || n == sn)
        && (forall n :: n in storage.indexSpaces ==> n in old(storage.indexSpaces) || n == xn)
      ensures && eventSpace == storage.eventSpaces[EventSpaceName(database, name, id)]
              && snapshotSpace == storage.eventSpaces[SnapshotSpaceName(database, name, id)]
              && indexSpace == storage.indexSpaces[SnapshotIndexSpaceName(database, name, id)]
              && eventSpace != snapshotSpace
    {
      eventSpace := storage.CreateEventSpace(EventSpaceName(database, name, id));
      snapshotSpace := storage.CreateEventSpace(SnapshotSpaceName(database, name, id));
      indexSpace := storage.CreateIndexSpace(SnapshotIndexSpaceName(database, name, id));
      SpaceNamesAreDistinct(database, name, id, database, name, id);
    }

    /** `OpenStoreAsync(database, name, id)`: resolves the three key spaces, builds an
        engine over them and opens it; an open failure is raised and no engine returned. */
    method OpenStore(database: string, name: string, id: string, now: int, freshId: string)
      returns (r: Result<KeyValueEventStore>)
      requires storage.Valid() && sessionTimeout > 0
      modifies storage, registry
      ensures storage.Valid()
      ensures var en := EventSpaceName(database, name, id);
        var sn := SnapshotSpaceName(database, name, id);
        var xn := SnapshotIndexSpaceName(database, name, id);
        && HoldsSpaces(database, name, id)
        && (forall n :: n in old(storage.eventSpaces) ==> n in storage.eventSpaces && storage.eventSpaces[n] == old(storage.eventSpaces)[n])
        && (forall n :: n in old(storage.indexSpaces) ==> n in storage.indexSpaces && storage.indexSpaces[n] == old(storage.indexSpaces)[n])
        && (forall n :: n in storage.eventSpaces ==> n in old(storage.eventSpaces) || n == en || n == sn)
        && (forall n :: n in storage.indexSpaces ==> n in old(storage.indexSpaces) || n == xn)
      ensures var key := StoreIdOf(EventSpaceName(database, name, id));
        r.Ok? <==> LockGranted(old(registry.locks), key, now)
      ensures r.Err? ==> r.error == OpenFailed && registry.locks == old(registry.locks)
      ensures r.Ok? ==>
        var store := r.value;
        && fresh(store) && store.Valid() && !store.disposed && store.sessionId == Some(freshId)
        && store.eventStore == storage.eventSpaces[EventSpaceName(database, name, id)]
        && store.snapshotStore == storage.eventSpaces[SnapshotSpaceName(database, name, id)]
        && store.snapshotCollectionStore == storage.indexSpaces[SnapshotIndexSpaceName(database, name, id)]
        && store.registry == registry
        && registry.locks == LocksAfterLock(old(registry.locks), StoreIdOf(EventSpaceName(database, name, id)),
                                            now, sessionTimeout, freshId)
    {
      var eventSpace, snapshotSpace, indexSpace := ResolveSpaces(database, name, id);
      var store := new KeyValueEventStore(eventSpace, snapshotSpace, indexSpace, registry);
      var outcome := store.Open(sessionTimeout, openTimeout, now, freshId);
      if outcome.Fail? {
        return Err(outcome.error);
      }
      r := Ok(store);
    }

    /** `OpenStoreAsync(metadata)`: the stream of a message, in the database named by its
        partition. */
    method OpenStoreFor(metadata: Metadata, now: int, freshId: string) returns (r: Result<KeyValueEventStore>)
      requires storage.Valid() && sessionTimeout > 0
      modifies storage, registry
      ensures storage.Valid()
      ensures var en := EventSpaceName(metadata.context.partitionId, metadata.message.domain.name, metadata.message.domain.id);
        var sn := SnapshotSpaceName(metadata.context.partitionId, metadata.message.domain.name, metadata.message.domain.id);
        var xn := SnapshotIndexSpaceName(metadata.context.partitionId, metadata.message.domain.name, metadata.message.domain.id);
        && HoldsSpaces(metadata.context.partitionId, metadata.message.domain.name, metadata.message.domain.id)
        && (forall n :: n in old(storage.eventSpaces) ==> n in storage.eventSpaces && storage.eventSpaces[n] == old(storage.eventSpaces)[n])
        && (forall n :: n in old(storage.indexSpaces) ==> n in storage.indexSpaces && storage.indexSpaces[n] == old(storage.indexSpaces)[n])
        && (forall n :: n in storage.eventSpaces ==> n in old(storage.eventSpaces) || n == en || n == sn)
        && (forall n :: n in storage.indexSpaces ==> n in old(storage.indexSpaces) || n == xn)
      ensures var key := StoreIdOf(EventSpaceName(metadata.context.partitionId, metadata.message.domain.name, metadata.message.domain.id));
        r.Ok? <==> LockGranted(old(registry.locks), key, now)
      ensures r.Err? ==> r.error == OpenFailed && registry.locks == old(registry.locks)
      ensures r.Ok? ==>
        var store := r.value;
        && fresh(store) && store.Valid() && !store.disposed && store.sessionId == Some(freshId)
        && store.eventStore == storage.eventSpaces[EventSpaceName(metadata.context.partitionId, metadata.message.domain.name, metadata.message.domain.id)]
        && store.snapshotStore == storage.eventSpaces[SnapshotSpaceName(metadata.context.partitionId, metadata.message.domain.name, metadata.message.domain.id)]
        && store.snapshotCollectionStore == storage.indexSpaces[SnapshotIndexSpaceName(metadata.context.partitionId, metadata.message.domain.name, metadata.message.domain.id)]
        && store.registry == registry
        && registry.locks == LocksAfterLock(old(registry.locks), StoreIdOf(EventSpaceName(metadata.context.partitionId, metadata.message.domain.name, metadata.message.domain.id)),
                                            now, sessionTimeout, freshId)
    {
      r := OpenStore(metadata.context.partitionId, metadata.message.domain.name, metadata.message.domain.id, now, freshId);
    }

    /** `OpenStoreAsync(name, id)`: the stream in the default database. */
    method OpenStoreDefault(name: string, id: string, now: int, freshId: string) returns (r: Result<KeyValueEventStore>)
      requires storage.Valid() && sessionTimeout > 0
      modifies storage, registry
      ensures storage.Valid()
      ensures var en := EventSpaceName(defaultDatabase, name, id);
        var sn := SnapshotSpaceName(defaultDatabase, name, id);
        var xn := SnapshotIndexSpaceName(defaultDatabase, name, id);
        && HoldsSpaces(defaultDatabase, name, id)
        && (forall n :: n in old(storage.eventSpaces) ==> n in storage.eventSpaces && storage.eventSpaces[n] == old(storage.eventSpaces)[n])
        && (forall n :: n in old(storage.indexSpaces) ==> n in storage.indexSpaces && storage.indexSpaces[n] == old(storage.indexSpaces)[n])
        && (forall n :: n in storage.eventSpaces ==> n in old(storage.eventSpaces) || n == en || n == sn)
        && (forall n :: n in storage.indexSpaces ==> n in old(storage.indexSpaces) || n == xn)
      ensures var key := StoreIdOf(EventSpaceName(defaultDatabase, name, id));
        r.Ok? <==> LockGranted(old(registry.locks), key, now)
      ensures r.Err? ==> r.error == OpenFailed && registry.locks == old(registry.locks)
      ensures r.Ok? ==>
        var store := r.value;
        && fresh(store) && store.Valid() && !store.disposed && store.sessionId == Some(freshId)
        && store.eventStore == storage.eventSpaces[EventSpaceName(defaultDatabase, name, id)]
        && store.snapshotStore == storage.eventSpaces[SnapshotSpaceName(defaultDatabase, name, id)]
        && store.snapshotCollectionStore == storage.indexSpaces[SnapshotIndexSpaceName(defaultDatabase, name, id)]
        && store.registry == registry
        && registry.locks == LocksAfterLock(old(registry.locks), StoreIdOf(EventSpaceName(defaultDatabase, name, id)),
                                            now, sessionTimeout, freshId)
    {
      r := OpenStore(defaultDatabase, name, id, now, freshId);
    }
  }
}
