/** What the engine's loops compute, as functions of the key-space contents: the probed
    stream version, the events a read returns, the effect of an append batch and of a
    sequence of snapshots, together with the backend calls each of them makes. */
module StreamSpec {
  import opened Errors
  import opened Messages
  import opened KeyValueStorages
  import opened SnapshotIndex

  // ---------------------------------------------------------------- version probe

  /** Versions 1..k are all stored. */
  ghost predicate Contiguous(events: map<int, EventState>, k: int)
  {
    forall i :: 1 <= i <= k ==> i in events
  }

  /** The probe of `VersionAsync` continued from a version whose prefix is stored. */
  function VersionFrom(events: map<int, EventState>, v: nat): (r: nat)
    requires Contiguous(events, v)
    ensures v <= r && Contiguous(events, r) && r + 1 !in events
    decreases set k | k in events && k > v
  {
    if v + 1 in events then
      var above := set k | k in events && k > v;
      var further := set k | k in events && k > v + 1;
      assert further <= above && v + 1 in above - further;
      VersionFrom(events, v + 1)
    else v
  }

  /** The stream version: the number of versions stored contiguously from 1. */
  function CurrentVersion(events: map<int, EventState>): nat
  {
    VersionFrom(events, 0)
  }

  /** The stream version is the one k whose versions 1..k are stored and k + 1 is not,
      so it is the largest k whose versions 1..k are all stored. */
  lemma {:induction false} CurrentVersionIsLongestStoredPrefix(events: map<int, EventState>, k: nat)
    ensures Contiguous(events, k) && k + 1 !in events <==> k == CurrentVersion(events)
    ensures Contiguous(events, k) <==> k <= CurrentVersion(events)
  {
    var r := CurrentVersion(events);
    assert k < r ==> k + 1 in events;
    assert Contiguous(events, k) && r < k ==> r + 1 in events;
  }

  /** The existence probes of `VersionAsync`: keys 1..n in order. */
  function ExistsProbes(n: nat): seq<Call<int>>
  {
    if n == 0 then [] else ExistsProbes(n - 1) + [ExistsCall(n)]
  }

  /** The `TryGet` probes of `SnapshotAllAsync`: keys 1..n in order. */
  function TryGetProbes(n: nat): seq<Call<int>>
  {
    if n == 0 then [] else TryGetProbes(n - 1) + [TryGetCall(n)]
  }

  /** The i-th probe is made with key i + 1. */
  lemma {:induction false} ProbesAreInOrder(n: nat)
    ensures |ExistsProbes(n)| == n && |TryGetProbes(n)| == n
    ensures forall i :: 0 <= i < n ==> ExistsProbes(n)[i] == ExistsCall(i + 1)
    ensures forall i :: 0 <= i < n ==> TryGetProbes(n)[i] == TryGetCall(i + 1)
  {
    if n > 0 {
      ProbesAreInOrder(n - 1);
    }
  }

  // ---------------------------------------------------------------- reads

  /** The message stored at version k, as a zero- or one-element sequence. */
  function Stored(events: map<int, EventState>, k: int): seq<EventMessage>
  {
    if k in events then [events[k].value] else []
  }

  /** The stored messages of versions first..last in ascending order; absent versions
      are skipped, and the range is empty when first > last. */
  function ReadRange(events: map<int, EventState>, first: int, last: int): seq<EventMessage>
    decreases last - first
  {
    if last < first then [] else ReadRange(events, first, last - 1) + Stored(events, last)
  }

  /** The `Get` calls of a read of versions first..last. */
  function GetCalls(first: int, last: int): seq<Call<int>>
    decreases last - first
  {
    if last < first then [] else GetCalls(first, last - 1) + [GetCall(last)]
  }

  /** A read of first..last gets exactly the keys first..last, each once, ascending. */
  lemma {:induction false} GetCallsAreTheRange(first: int, last: int)
    ensures |GetCalls(first, last)| == if last < first then 0 else last - first + 1
    ensures forall i :: 0 <= i < |GetCalls(first, last)| ==> GetCalls(first, last)[i] == GetCall(first + i)
    ensures forall k :: GetCall(k) in GetCalls(first, last) <==> first <= k <= last
    decreases last - first
  {
    if first <= last {
      GetCallsAreTheRange(first, last - 1);
      var g := GetCalls(first, last);
      forall k | GetCall(k) in g ensures first <= k <= last {
        var i :| 0 <= i < |g| && g[i] == GetCall(k);
      }
      forall k | first <= k <= last ensures GetCall(k) in g {
        assert g[k - first] == GetCall(k);
      }
    }
  }

  /** A read splits at any point of its range. */
  lemma {:induction false} ReadRangeSplits(events: map<int, EventState>, first: int, mid: int, last: int)
    requires first - 1 <= mid <= last
    ensures ReadRange(events, first, last) == ReadRange(events, first, mid) + ReadRange(events, mid + 1, last)
    decreases last - mid
  {
    if mid < last {
      ReadRangeSplits(events, first, mid, last - 1);
    }
  }

  /** A message is read exactly when it is stored at a version in the range. */
  lemma {:induction false} ReadRangeHoldsStoredMessages(events: map<int, EventState>, first: int, last: int,
                                                        m: EventMessage)
    ensures m in ReadRange(events, first, last) <==>
      exists k :: first <= k <= last && k in events && events[k].value == m
    decreases last - first
  {
    if first <= last {
      ReadRangeHoldsStoredMessages(events, first, last - 1, m);
      assert ReadRange(events, first, last) == ReadRange(events, first, last - 1) + Stored(events, last);
      if m in Stored(events, last) {
        assert last in events && events[last].value == m;
      }
    }
  }

  /** Over a stored range, the read returns one message per version, in version order. */
  lemma {:induction false} ReadRangeOfStoredRange(events: map<int, EventState>, first: int, last: int)
    requires forall k :: first <= k <= last ==> k in events
    ensures |ReadRange(events, first, last)| == if last < first then 0 else last - first + 1
    ensures forall i :: 0 <= i < |ReadRange(events, first, last)| ==>
      ReadRange(events, first, last)[i] == events[first + i].value
    decreases last - first
  {
    if first <= last {
      ReadRangeOfStoredRange(events, first, last - 1);
    }
  }

  /** The start of a read: `Ok(s)` with s > 0 when the read begins with snapshot s,
      `Ok(0)` when it replays from version 1, or the error of the last-snapshot query.
      As written the latest snapshot is chosen whatever the requested version. */
  function SnapshotBase(snapshots: map<int, EventState>, index: map<string, seq<int>>, useSnapshot: bool): Result<int>
  {
    if !useSnapshot then Ok(0)
    else match LastSnapshot(index)
      case Err(e) => Err(e)
      case Ok(s) => Ok(if s > 0 && s in snapshots then s else 0)
  }

  /** The result of `GetAsync(version, useSnapshot)`. */
  function ReadStream(events: map<int, EventState>, snapshots: map<int, EventState>,
                      index: map<string, seq<int>>, version: int, useSnapshot: bool): Result<seq<EventMessage>>
  {
    match SnapshotBase(snapshots, index, useSnapshot)
    case Err(e) => Err(e)
    case Ok(s) => Ok((if s > 0 && s in snapshots then [snapshots[s].value] else []) + ReadRange(events, s + 1, version))
  }

  /** The event-space calls of `GetAsync(version, useSnapshot)`. */
  function ReadEventCalls(snapshots: map<int, EventState>, index: map<string, seq<int>>,
                          version: int, useSnapshot: bool): seq<Call<int>>
  {
    match SnapshotBase(snapshots, index, useSnapshot)
    case Err(_) => []
    case Ok(s) => GetCalls(s + 1, version)
  }

  /** The snapshot-space calls of `GetAsync(version, useSnapshot)`. */
  function ReadSnapshotCalls(index: map<string, seq<int>>, useSnapshot: bool): seq<Call<int>>
  {
    if useSnapshot && LastSnapshot(index).Ok? && LastSnapshot(index).value > 0
    then [GetCall(LastSnapshot(index).value)] else []
  }

  /** The index-space calls of `GetAsync(version, useSnapshot)`. */
  function ReadIndexCalls(useSnapshot: bool): seq<Call<string>>
  {
    if useSnapshot then [TryGetCall(VersionsKey)] else []
  }

  /** Without snapshots a read is the full replay of versions 1..version. */
  lemma ReadWithoutSnapshotReplaysAll(events: map<int, EventState>, snapshots: map<int, EventState>,
                                      index: map<string, seq<int>>, version: int)
    ensures ReadStream(events, snapshots, index, version, false) == Ok(ReadRange(events, 1, version))
    ensures ReadEventCalls(snapshots, index, version, false) == GetCalls(1, version)
    ensures ReadSnapshotCalls(index, false) == [] && ReadIndexCalls(false) == []
  {
    assert SnapshotBase(snapshots, index, false) == Ok(0);
    assert [] + ReadRange(events, 1, version) == ReadRange(events, 1, version);
  }

  /** Snapshot/replay equivalence: a read from the latest snapshot s (s <= version) is the
      full replay with its prefix 1..s replaced by the snapshot record, and it gets no
      event key at or below s. */
  lemma SnapshotReadReplacesPrefix(events: map<int, EventState>, snapshots: map<int, EventState>,
                                   index: map<string, seq<int>>, version: int)
    requires LastSnapshot(index).Ok?
    requires var s := LastSnapshot(index).value; 0 < s <= version && s in snapshots
    ensures var s := LastSnapshot(index).value;
      && ReadStream(events, snapshots, index, version, true) == Ok([snapshots[s].value] + ReadRange(events, s + 1, version))
      && ReadRange(events, 1, version) == ReadRange(events, 1, s) + ReadRange(events, s + 1, version)
      && (forall k :: k <= s ==> GetCall(k) !in ReadEventCalls(snapshots, index, version, true))
      && ReadSnapshotCalls(index, true) == [GetCall(s)]
  {
    var s := LastSnapshot(index).value;
    ReadRangeSplits(events, 1, s, version);
    GetCallsAreTheRange(s + 1, version);
  }

  /** As written, a snapshot above the requested version is still used: the read returns
      that snapshot alone. */
  lemma SnapshotAboveVersionIsUsed(events: map<int, EventState>, snapshots: map<int, EventState>,
                                   index: map<string, seq<int>>, version: int)
    requires LastSnapshot(index).Ok?
    requires var s := LastSnapshot(index).value; 0 < s && version < s && s in snapshots
    ensures ReadStream(events, snapshots, index, version, true) == Ok([snapshots[LastSnapshot(index).value].value])
    ensures ReadEventCalls(snapshots, index, version, true) == []
  {
    var s := LastSnapshot(index).value;
    assert SnapshotBase(snapshots, index, true) == Ok(s);
    assert ReadRange(events, s + 1, version) == [];
    assert [snapshots[s].value] + [] == [snapshots[s].value];
  }

  /** A recorded snapshot whose record is missing falls back to the full replay, after
      a `Get` of that snapshot; no recorded snapshot reads nothing from the snapshot space. */
  lemma MissingSnapshotFallsBackToReplay(events: map<int, EventState>, snapshots: map<int, EventState>,
                                         index: map<string, seq<int>>, version: int)
    requires LastSnapshot(index).Ok?
    requires LastSnapshot(index).value <= 0 || LastSnapshot(index).value !in snapshots
    ensures ReadStream(events, snapshots, index, version, true) == Ok(ReadRange(events, 1, version))
    ensures ReadEventCalls(snapshots, index, version, true) == GetCalls(1, version)
    ensures ReadSnapshotCalls(index, true) == if LastSnapshot(index).value > 0 then [GetCall(LastSnapshot(index).value)] else []
  {
    assert SnapshotBase(snapshots, index, true) == Ok(0);
    assert [] + ReadRange(events, 1, version) == ReadRange(events, 1, version);
  }

  /** An empty index record makes every snapshot read fail, before any event is read. */
  lemma EmptyIndexFailsSnapshotRead(events: map<int, EventState>, snapshots: map<int, EventState>,
                                    index: map<string, seq<int>>, version: int)
    requires VersionsKey in index && index[VersionsKey] == []
    ensures ReadStream(events, snapshots, index, version, true) == Err(EmptyIndex)
    ensures ReadEventCalls(snapshots, index, version, true) == [] && ReadSnapshotCalls(index, true) == []
  {
  }

  // ---------------------------------------------------------------- append

  /** The effect of an append batch: the event-space contents afterwards, the `Add` calls
      made, and the returned version or the error raised. */
  datatype AddResult = AddResult(data: map<int, EventState>, calls: seq<Call<int>>, outcome: Result<int>)

  /** The loop of `AddAsync` from running version `version`. The running version is
      incremented only for an item that carries a sequence number (the increment sits on
      the right of a short-circuit `&&`), so an item without one is added at the unchanged
      running version. A mismatch raises VersionMismatch with the incremented version;
      earlier items stay written and later ones are not written. */
  function AddItems(events: map<int, EventState>, items: seq<EventMessage>, version: int): AddResult
    decreases |items|
  {
    if items == [] then AddResult(events, [], Ok(version))
    else
      var sn := SequenceNumber(items[0]);
      var next := if sn.Some? then version + 1 else version;
      if sn.Some? && sn.value != next then AddResult(events, [], Err(VersionMismatch(next)))
      else if next in events then AddResult(events, [AddCall(next)], Err(DuplicateKey))
      else
        var rest := AddItems(events[next := EventState(items[0])], items[1..], next);
        AddResult(rest.data, [AddCall(next)] + rest.calls, rest.outcome)
  }

  /** One step of the `AddAsync` loop: how a batch result whose first `i` items are already
      accounted for (their calls in `calls`) continues with item `i`. */
  lemma AddStep(events: map<int, EventState>, items: seq<EventMessage>, i: int, running: int,
                calls: seq<Call<int>>, total: AddResult)
    requires 0 <= i < |items|
    requires var rest := AddItems(events, items[i..], running);
      total == AddResult(rest.data, calls + rest.calls, rest.outcome)
    ensures var sn := SequenceNumber(items[i]);
      var next := if sn.Some? then running + 1 else running;
      && (sn.Some? && sn.value != next ==> total == AddResult(events, calls, Err(VersionMismatch(next))))
      && (!(sn.Some? && sn.value != next) && next in events ==>
            total == AddResult(events, calls + [AddCall(next)], Err(DuplicateKey)))
      && (!(sn.Some? && sn.value != next) && next !in events ==>
            var rest := AddItems(events[next := EventState(items[i])], items[i + 1..], next);
            total == AddResult(rest.data, (calls + [AddCall(next)]) + rest.calls, rest.outcome))
  {
    assert items[i..][0] == items[i] && items[i..][1..] == items[i + 1..];
    assert calls + [] == calls;
    var sn := SequenceNumber(items[i]);
    var next := if sn.Some? then running + 1 else running;
    var rest := AddItems(events[next := EventState(items[i])], items[i + 1..], next);
    assert calls + ([AddCall(next)] + rest.calls) == (calls + [AddCall(next)]) + rest.calls;
  }

  /** Item i carries the sequence number of its slot, version + 1 + i. */
  ghost predicate InSlots(items: seq<EventMessage>, version: int)
  {
    forall i :: 0 <= i < |items| ==> SequenceNumber(items[i]) == Some(version + 1 + i)
  }

  /** The events of `items` written at versions version + 1 … version + |items|. */
  function Appended(events: map<int, EventState>, items: seq<EventMessage>, version: int): map<int, EventState>
    decreases |items|
  {
    if items == [] then events
    else Appended(events[version + 1 := EventState(items[0])], items[1..], version + 1)
  }

  /** What `Appended` writes and keeps. */
  lemma {:induction false} AppendedContents(events: map<int, EventState>, items: seq<EventMessage>, version: int)
    ensures forall k :: k in Appended(events, items, version) <==> k in events || version + 1 <= k <= version + |items|
    ensures forall i :: 0 <= i < |items| ==> Appended(events, items, version)[version + 1 + i] == EventState(items[i])
    ensures forall k :: k in events && !(version + 1 <= k <= version + |items|) ==>
      Appended(events, items, version)[k] == events[k]
    decreases |items|
  {
    if items != [] {
      AppendedContents(events[version + 1 := EventState(items[0])], items[1..], version + 1);
      assert Appended(events, items, version)
          == Appended(events[version + 1 := EventState(items[0])], items[1..], version + 1);
      forall i | 0 <= i < |items|
        ensures Appended(events, items, version)[version + 1 + i] == EventState(items[i])
      {
        if i > 0 {
          assert items[1..][i - 1] == items[i];
        }
      }
    }
  }

  /** A batch whose items all carry their slot numbers, over free slots, writes item i at
      version + 1 + i, returns version + |items| and makes one `Add` per item, in order. */
  lemma {:induction false} AddInSlotsWritesEveryItem(events: map<int, EventState>, items: seq<EventMessage>, version: int)
    requires InSlots(items, version)
    requires forall k :: version + 1 <= k <= version + |items| ==> k !in events
    ensures AddItems(events, items, version) ==
      AddResult(Appended(events, items, version), seq(|items|, i => AddCall(version + 1 + i)), Ok(version + |items|))
    decreases |items|
  {
    if items != [] {
      assert SequenceNumber(items[0]) == Some(version + 1);
      var rest := items[1..];
      assert InSlots(rest, version + 1) by {
        forall i | 0 <= i < |rest| ensures SequenceNumber(rest[i]) == Some(version + 1 + 1 + i) {
          assert rest[i] == items[i + 1];
        }
      }
      AddInSlotsWritesEveryItem(events[version + 1 := EventState(items[0])], rest, version + 1);
      assert [AddCall(version + 1)] + seq(|rest|, i => AddCall(version + 1 + 1 + i))
          == seq(|items|, i => AddCall(version + 1 + i));
    }
  }

  /** The first item (index j) whose sequence number is not its slot number stops the
      batch with VersionMismatch(version + 1 + j); the j items before it are written and
      no `Add` is made for it or any later item. */
  lemma {:induction false} AddStopsAtFirstMismatch(events: map<int, EventState>, items: seq<EventMessage>,
                                                   version: int, j: nat)
    requires j < |items| && InSlots(items[..j], version)
    requires forall k :: version + 1 <= k <= version + j ==> k !in events
    requires SequenceNumber(items[j]).Some? && SequenceNumber(items[j]).value != version + 1 + j
    ensures AddItems(events, items, version) ==
      AddResult(Appended(events, items[..j], version), seq(j, i => AddCall(version + 1 + i)),
                Err(VersionMismatch(version + 1 + j)))
    decreases j
  {
    if j > 0 {
      assert SequenceNumber(items[0]) == Some(version + 1) by { assert items[..j][0] == items[0]; }
      var rest := items[1..];
      var prefix := rest[..j - 1];
      assert InSlots(prefix, version + 1) by {
        forall i | 0 <= i < |prefix| ensures SequenceNumber(prefix[i]) == Some(version + 1 + 1 + i) {
          assert prefix[i] == items[..j][i + 1];
        }
      }
      assert rest[j - 1] == items[j];
      AddStopsAtFirstMismatch(events[version + 1 := EventState(items[0])], rest, version + 1, j - 1);
      assert items[..j][1..] == rest[..j - 1];
      assert [AddCall(version + 1)] + seq(j - 1, i => AddCall(version + 1 + 1 + i))
          == seq(j, i => AddCall(version + 1 + i));
    }
  }

  /** An item without a sequence number does not advance the running version: on an empty
      stream it is written at key 0, which the version probe never looks at, and on a
      non-empty stream its key already exists, so the backend refuses it. */
  lemma UnsequencedItemKeepsRunningVersion(events: map<int, EventState>, items: seq<EventMessage>)
    requires items != [] && SequenceNumber(items[0]).None?
    ensures var v := CurrentVersion(events);
      v > 0 ==> AddItems(events, items, v) == AddResult(events, [AddCall(v)], Err(DuplicateKey))
    ensures var v := CurrentVersion(events);
      v == 0 && 0 !in events ==>
        && AddItems(events, items[..1], v) == AddResult(events[0 := EventState(items[0])], [AddCall(0)], Ok(0))
        && CurrentVersion(events[0 := EventState(items[0])]) == 0
  {
    var v := CurrentVersion(events);
    if v > 0 {
      assert 1 <= v <= v;
    }
    if v == 0 && 0 !in events {
      assert items[..1][1..] == [];
      CurrentVersionIsLongestStoredPrefix(events[0 := EventState(items[0])], 0);
    }
  }

  /** Contiguity: appending an in-slot batch at the stream version, onto free slots
      followed by a free key, advances the stream version by the batch size. */
  lemma AppendAdvancesVersion(events: map<int, EventState>, items: seq<EventMessage>)
    requires var v := CurrentVersion(events); InSlots(items, v)
    requires var v := CurrentVersion(events); forall k :: v + 1 <= k <= v + |items| + 1 ==> k !in events
    ensures var v := CurrentVersion(events);
      && AddItems(events, items, v).outcome == Ok(v + |items|)
      && CurrentVersion(AddItems(events, items, v).data) == v + |items|
  {
    var v := CurrentVersion(events);
    AddInSlotsWritesEveryItem(events, items, v);
    var after := Appended(events, items, v);
    AppendedContents(events, items, v);
    CurrentVersionIsLongestStoredPrefix(events, v);
    assert Contiguous(after, v + |items|) by {
      forall i | 1 <= i <= v + |items| ensures i in after {
        if i <= v { assert i in events; }
      }
    }
    CurrentVersionIsLongestStoredPrefix(after, v + |items|);
  }

  /** A read depends only on the versions in its range. */
  lemma {:induction false} ReadRangeDependsOnRange(e1: map<int, EventState>, e2: map<int, EventState>, first: int, last: int)
    requires forall k :: first <= k <= last ==> (k in e1 <==> k in e2) && (k in e1 ==> e1[k] == e2[k])
    ensures ReadRange(e1, first, last) == ReadRange(e2, first, last)
    decreases last - first
  {
    if first <= last {
      ReadRangeDependsOnRange(e1, e2, first, last - 1);
    }
  }

  /** The versions written by `Appended` read back as the batch. */
  lemma AppendedReadsBack(events: map<int, EventState>, items: seq<EventMessage>, version: int)
    ensures ReadRange(Appended(events, items, version), version + 1, version + |items|) == items
  {
    var after := Appended(events, items, version);
    AppendedContents(events, items, version);
    ReadRangeOfStoredRange(after, version + 1, version + |items|);
    var tail := ReadRange(after, version + 1, version + |items|);
    forall i | 0 <= i < |items| ensures tail[i] == items[i] {
      assert after[version + 1 + i] == EventState(items[i]);
    }
  }

  /** Round trip: after an in-slot batch is appended at the stream version, a full replay
      returns the old stream followed by the batch, in order. */
  lemma AppendThenReplayReturnsBatch(events: map<int, EventState>, items: seq<EventMessage>)
    requires var v := CurrentVersion(events); InSlots(items, v)
    requires var v := CurrentVersion(events); forall k :: v + 1 <= k <= v + |items| ==> k !in events
    ensures var v := CurrentVersion(events);
      ReadRange(AddItems(events, items, v).data, 1, v + |items|) == ReadRange(events, 1, v) + items
  {
    var v := CurrentVersion(events);
    AddInSlotsWritesEveryItem(events, items, v);
    var after := Appended(events, items, v);
    AppendedContents(events, items, v);
    ReadRangeSplits(after, 1, v, v + |items|);
    ReadRangeDependsOnRange(after, events, 1, v);
    AppendedReadsBack(events, items, v);
  }

  // ---------------------------------------------------------------- snapshots

  /** The snapshot and index key spaces: contents and call logs. */
  datatype SnapshotStores = SnapshotStores(snapshots: map<int, EventState>, index: map<string, seq<int>>,
                                           snapshotLog: seq<Call<int>>, indexLog: seq<Call<string>>)

  /** `SnapshotAsync(version, e)` after its session check: upsert the snapshot, then
      read the index record and add or replace it. */
  function SnapshotStep(st: SnapshotStores, version: int, e: EventState): SnapshotStores
  {
    SnapshotStores(st.snapshots[version := e], IndexAfterSnapshot(st.index, version),
                   st.snapshotLog + [AddOrUpdateCall(version)], st.indexLog + IndexCalls(st.index))
  }

  /** The snapshot contents after upserting `e` at each of `versions`. */
  function Upserted(snapshots: map<int, EventState>, versions: seq<int>, e: EventState): map<int, EventState>
    decreases |versions|
  {
    if versions == [] then snapshots
    else Upserted(snapshots, versions[..|versions| - 1], e)[versions[|versions| - 1] := e]
  }

  /** One `AddOrUpdate` per version, in order. */
  function UpsertCalls(versions: seq<int>): seq<Call<int>>
  {
    seq(|versions|, i requires 0 <= i < |versions| => AddOrUpdateCall(versions[i]))
  }

  /** The index contents after snapshots at each of `versions`. */
  function Indexed(index: map<string, seq<int>>, versions: seq<int>): map<string, seq<int>>
    decreases |versions|
  {
    if versions == [] then index
    else IndexAfterSnapshot(Indexed(index, versions[..|versions| - 1]), versions[|versions| - 1])
  }

  /** The index calls of snapshots at each of `versions`. */
  function IndexCallsEach(index: map<string, seq<int>>, versions: seq<int>): seq<Call<string>>
    decreases |versions|
  {
    if versions == [] then []
    else
      var init := versions[..|versions| - 1];
      IndexCallsEach(index, init) + IndexCalls(Indexed(index, init))
  }

  /** Snapshots taken one after another at `versions`, all with the record `e`. */
  function SnapshotEach(st: SnapshotStores, versions: seq<int>, e: EventState): SnapshotStores
  {
    SnapshotStores(Upserted(st.snapshots, versions, e), Indexed(st.index, versions),
                   st.snapshotLog + UpsertCalls(versions), st.indexLog + IndexCallsEach(st.index, versions))
  }

  /** A run of snapshots is the single snapshots one after another. */
  lemma SnapshotEachIsSequence(st: SnapshotStores, versions: seq<int>, v: int, e: EventState)
    ensures SnapshotEach(st, [], e) == st
    ensures SnapshotEach(st, versions + [v], e) == SnapshotStep(SnapshotEach(st, versions, e), v, e)
  {
    var all := versions + [v];
    var before := SnapshotEach(st, versions, e);
    assert all[..|all| - 1] == versions;
    assert Upserted(st.snapshots, all, e) == before.snapshots[v := e];
    assert Indexed(st.index, all) == IndexAfterSnapshot(before.index, v);
    assert IndexCallsEach(st.index, all) == IndexCallsEach(st.index, versions) + IndexCalls(before.index);
    assert st.snapshotLog + UpsertCalls(all) == before.snapshotLog + [AddOrUpdateCall(v)] by {
      assert UpsertCalls(all) == UpsertCalls(versions) + [AddOrUpdateCall(v)];
    }
    assert st.indexLog + IndexCallsEach(st.index, all) == before.indexLog + IndexCalls(before.index);
  }

  /** The multiples of `chunk` in 1..k, ascending. */
  function Multiples(chunk: int, k: int): seq<int>
    requires chunk > 0
    decreases k
  {
    if k < 1 then [] else Multiples(chunk, k - 1) + (if k % chunk == 0 then [k] else [])
  }

  /** Extending a snapshot run over the multiples of `chunk` from k - 1 to k adds one
      snapshot step exactly when k is a multiple. */
  lemma SnapshotRunStep(st: SnapshotStores, chunk: int, k: int, e: EventState)
    requires chunk > 0 && k >= 1
    ensures SnapshotEach(st, Multiples(chunk, k), e) ==
      if k % chunk == 0 then SnapshotStep(SnapshotEach(st, Multiples(chunk, k - 1), e), k, e)
      else SnapshotEach(st, Multiples(chunk, k - 1), e)
  {
    var done := Multiples(chunk, k - 1);
    if k % chunk == 0 {
      SnapshotEachIsSequence(st, done, k, e);
    } else {
      assert Multiples(chunk, k) == done + [];
      assert done + [] == done;
    }
  }

  /** `Multiples` holds exactly the multiples of the chunk size in 1..k, ascending. */
  lemma {:induction false} MultiplesAreExact(chunk: int, k: int)
    requires chunk > 0
    ensures forall v :: v in Multiples(chunk, k) <==> 1 <= v <= k && v % chunk == 0
    ensures StrictlyAscending(Multiples(chunk, k))
    decreases k
  {
    if k >= 1 {
      MultiplesAreExact(chunk, k - 1);
      var init := Multiples(chunk, k - 1);
      assert forall i :: 0 <= i < |init| ==> init[i] in init;
    }
  }

  /** Upserting writes the record at exactly the given versions and leaves every other
      snapshot untouched. */
  lemma {:induction false} UpsertedWritesExactly(snapshots: map<int, EventState>, versions: seq<int>, e: EventState)
    ensures forall k :: k in Upserted(snapshots, versions, e) <==> k in snapshots || k in versions
    ensures forall k :: k in versions ==> Upserted(snapshots, versions, e)[k] == e
    ensures forall k :: k in snapshots && k !in versions ==> Upserted(snapshots, versions, e)[k] == snapshots[k]
    decreases |versions|
  {
    if versions != [] {
      var init := versions[..|versions| - 1];
      var last := versions[|versions| - 1];
      UpsertedWritesExactly(snapshots, init, e);
      assert versions == init + [last];
      assert forall k :: k in versions <==> k in init || k == last;
    }
  }

  /** With an index record present, a run of snapshots keeps it, and once non-empty the
      run leaves it sorted, duplicate-free and holding exactly the old versions and the
      new ones. */
  lemma {:induction false} IndexedRecordsVersions(index: map<string, seq<int>>, versions: seq<int>)
    requires VersionsKey in index
    ensures VersionsKey in Indexed(index, versions)
    ensures versions != [] ==> StrictlyAscending(Versions(Indexed(index, versions)))
    ensures forall x :: x in Versions(Indexed(index, versions)) <==> x in Versions(index) || x in versions
    decreases |versions|
  {
    if versions != [] {
      var init := versions[..|versions| - 1];
      var last := versions[|versions| - 1];
      IndexedRecordsVersions(index, init);
      SnapshotKeepsSortedSet(Indexed(index, init), last);
      assert versions == init + [last];
      assert forall x :: x in versions <==> x in init || x == last;
    }
  }

  /** A run of index updates splits at any point. */
  lemma {:induction false} IndexedSplits(index: map<string, seq<int>>, a: seq<int>, b: seq<int>)
    ensures Indexed(index, a + b) == Indexed(Indexed(index, a), b)
    decreases |b|
  {
    if b == [] {
      assert a + b == a;
    } else {
      IndexedSplits(index, a, b[..|b| - 1]);
      assert (a + b)[..|a + b| - 1] == a + b[..|b| - 1];
    }
  }

  /** As written, a run of snapshots on a stream without an index record never records
      its first version, and records every later one. */
  lemma SnapshotRunLosesFirstVersion(index: map<string, seq<int>>, versions: seq<int>)
    requires VersionsKey !in index && versions != []
    ensures Versions(Indexed(index, versions[..1])) == []
    ensures forall x :: x in Versions(Indexed(index, versions)) <==> x in versions[1..]
  {
    var head := versions[..1];
    assert head[..0] == [];
    var first := Indexed(index, head);
    assert first == IndexAfterSnapshot(Indexed(index, []), versions[0]);
    assert first == index[VersionsKey := []];
    IndexedSplits(index, head, versions[1..]);
    assert head + versions[1..] == versions;
    IndexedRecordsVersions(first, versions[1..]);
  }
}
