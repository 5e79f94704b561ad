/** The key-value backend the engine is built on, reduced to what the engine calls:
    a key space addressed by (database, container, entity) offering
    exists/get/tryGet/add/addOrUpdate/set/remove, and a provider that resolves a name
    to its key space. Each key space keeps a ghost log of the calls made on it, so that
    contracts can say which keys an operation reads and writes, and in what order. */
module KeyValueStorages {
  import opened Errors
  import opened Messages

  /** One backend call and the key it was made with. */
  datatype Call<K> =
    | ExistsCall(key: K)
    | GetCall(key: K)
    | TryGetCall(key: K)
    | AddCall(key: K)
    | AddOrUpdateCall(key: K)
    | SetCall(key: K)
    | RemoveCall(key: K)

  /** The address of a key space. */
  datatype SpaceName = SpaceName(database: string, container: string, entity: string)

  /** The value stored at `key`, or `None` when the key is absent. */
  function Lookup<K, V>(m: map<K, V>, key: K): (r: Option<V>)
    ensures r.Some? <==> key in m
    ensures r.Some? ==> r.value == m[key]
  {
    if key in m then Some(m[key]) else None
  }

  /** A key space of event states keyed by version (for events and for snapshots). */
  class EventKeySpace {
    const name: SpaceName
    var data: map<int, EventState>
    ghost var log: seq<Call<int>>

    constructor (name: SpaceName)
      ensures this.name == name && data == map[] && log == []
    {
      this.name := name;
      data := map[];
      log := [];
    }

    method Exists(key: int) returns (found: bool)
      modifies this`log
      ensures found == (key in data)
      ensures log == old(log) + [ExistsCall(key)]
    {
      found := key in data;
      log := log + [ExistsCall(key)];
    }

    method Get(key: int) returns (r: Option<EventState>)
      modifies this`log
      ensures r == Lookup(data, key)
      ensures log == old(log) + [GetCall(key)]
    {
      r := Lookup(data, key);
      log := log + [GetCall(key)];
    }

    method TryGet(key: int) returns (r: Option<EventState>)
      modifies this`log
      ensures r == Lookup(data, key)
      ensures log == old(log) + [TryGetCall(key)]
    {
      r := Lookup(data, key);
      log := log + [TryGetCall(key)];
    }

    /** Adds a new key; a key that already exists is refused with a duplicate-key
        error and nothing is written. */
    method Add(key: int, value: EventState) returns (r: Outcome)
      modifies this
      ensures r == if key in old(data) then Fail(DuplicateKey) else Pass
      ensures data == if r.Pass? then old(data)[key := value] else old(data)
      ensures log == old(log) + [AddCall(key)]
    {
      if key in data {
        r := Fail(DuplicateKey);
      } else {
        r := Pass;
        data := data[key := value];
      }
      log := log + [AddCall(key)];
    }

    method AddOrUpdate(key: int, value: EventState)
      modifies this
      ensures data == old(data)[key := value]
      ensures log == old(log) + [AddOrUpdateCall(key)]
    {
      data := data[key := value];
      log := log + [AddOrUpdateCall(key)];
    }

    method Remove(key: int) returns (removed: bool)
      modifies this
      ensures removed == (key in old(data))
      ensures data == old(data) - {key}
      ensures log == old(log) + [RemoveCall(key)]
    {
      removed := key in data;
      data := data - {key};
      log := log + [RemoveCall(key)];
    }
  }

  /** A key space of version lists keyed by string (for the snapshot index). */
  class IndexKeySpace {
    const name: SpaceName
    var data: map<string, seq<int>>
    ghost var log: seq<Call<string>>

    constructor (name: SpaceName)
      ensures this.name == name && data == map[] && log == []
    {
      this.name := name;
      data := map[];
      log := [];
    }

    method TryGet(key: string) returns (r: Option<seq<int>>)
      modifies this`log
      ensures r == Lookup(data, key)
      ensures log == old(log) + [TryGetCall(key)]
    {
      r := Lookup(data, key);
      log := log + [TryGetCall(key)];
    }

    /** Adds a new key; a key that already exists is refused with a duplicate-key
        error and nothing is written. */
    method Add(key: string, value: seq<int>) returns (r: Outcome)
      modifies this
      ensures r == if key in old(data) then Fail(DuplicateKey) else Pass
      ensures data == if r.Pass? then old(data)[key := value] else old(data)
      ensures log == old(log) + [AddCall(key)]
    {
      if key in data {
        r := Fail(DuplicateKey);
      } else {
        r := Pass;
        data := data[key := value];
      }
      log := log + [AddCall(key)];
    }

    method Set(key: string, value: seq<int>)
      modifies this
      ensures data == old(data)[key := value]
      ensures log == old(log) + [SetCall(key)]
    {
      data := data[key := value];
      log := log + [SetCall(key)];
    }

    method Remove(key: string) returns (removed: bool)
      modifies this
      ensures removed == (key in old(data))
      ensures data == old(data) - {key}
      ensures log == old(log) + [RemoveCall(key)]
    {
      removed := key in data;
      data := data - {key};
      log := log + [RemoveCall(key)];
    }
  }

  /** The storage provider: resolves a name to its key space, creating an empty one
      the first time, so that every later `Create` of the same name shares its data. */
  class KeyValueProvider {
    var eventSpaces: map<SpaceName, EventKeySpace>
    var indexSpaces: map<SpaceName, IndexKeySpace>

    /** Every key space is registered under its own name. */
    ghost predicate Valid()
      reads this
    {
      && (forall n :: n in eventSpaces ==> eventSpaces[n].name == n)
      && (forall n :: n in indexSpaces ==> indexSpaces[n].name == n)
    }

    constructor ()
      ensures Valid() && eventSpaces == map[] && indexSpaces == map[]
    {
      eventSpaces := map[];
      indexSpaces := map[];
    }

    method CreateEventSpace(name: SpaceName) returns (space: EventKeySpace)
      requires Valid()
      modifies this
      ensures Valid() && space.name == name && indexSpaces == old(indexSpaces)
      ensures name in old(eventSpaces) ==> space == old(eventSpaces)[name] && eventSpaces == old(eventSpaces)
      ensures name !in old(eventSpaces) ==>
        fresh(space) && space.data == map[] && space.log == [] && eventSpaces == old(eventSpaces)[name := space]
    {
      if name in eventSpaces {
        space := eventSpaces[name];
      } else {
        space := new EventKeySpace(name);
        eventSpaces := eventSpaces[name := space];
      }
    }

    method CreateIndexSpace(name: SpaceName) returns (space: IndexKeySpace)
      requires Valid()
      modifies this
      ensures Valid() && space.name == name && eventSpaces == old(eventSpaces)
      ensures name in old(indexSpaces) ==> space == old(indexSpaces)[name] && indexSpaces == old(indexSpaces)
      ensures name !in old(indexSpaces) ==>
        fresh(space) && space.data == map[] && space.log == [] && indexSpaces == old(indexSpaces)[name := space]
    {
      if name in indexSpaces {
        space := indexSpaces[name];
      } else {
        space := new IndexKeySpace(name);
        indexSpaces := indexSpaces[name := space];
      }
    }
  }
}
