/** The snapshot index: the list of snapshot versions stored under the key "Versions"
    of the snapshot-index key space, and the pure computations made on it. */
module SnapshotIndex {
  import opened Errors
  import opened KeyValueStorages

  /** The index record's key (`_snapshotVersions`). */
  const VersionsKey: string := "Versions"

  predicate NoDuplicates(s: seq<int>)
  {
    forall i, j :: 0 <= i < j < |s| ==> s[i] != s[j]
  }

  predicate Ascending(s: seq<int>)
  {
    forall i, j :: 0 <= i < j < |s| ==> s[i] <= s[j]
  }

  predicate StrictlyAscending(s: seq<int>)
  {
    forall i, j :: 0 <= i < j < |s| ==> s[i] < s[j]
  }

  /** `Enumerable.Distinct`: the first occurrence of every element, in order. */
  function Distinct(s: seq<int>): seq<int>
  {
    if s == [] then []
    else
      var d := Distinct(s[..|s| - 1]);
      if s[|s| - 1] in d then d else d + [s[|s| - 1]]
  }

  /** Inserts `x` before the first element not below it. */
  function Insert(x: int, s: seq<int>): seq<int>
  {
    if s == [] then [x]
    else if x <= s[0] then [x] + s
    else [s[0]] + Insert(x, s[1..])
  }

  /** `Enumerable.Order` on longs, as an insertion sort. */
  function Order(s: seq<int>): seq<int>
  {
    if s == [] then [] else Insert(s[0], Order(s[1..]))
  }

  /** `snapshots.Value.Append(version).Distinct().Order()`. */
  function WithVersion(versions: seq<int>, version: int): seq<int>
  {
    Order(Distinct(versions + [version]))
  }

  /** `Distinct` keeps every element once and no other. */
  lemma {:induction false} DistinctKeepsEachElementOnce(s: seq<int>)
    ensures NoDuplicates(Distinct(s))
    ensures forall x :: x in Distinct(s) <==> x in s
  {
    if s != [] {
      var init := s[..|s| - 1];
      var last := s[|s| - 1];
      DistinctKeepsEachElementOnce(init);
      assert s == init + [last];
      assert forall x :: x in s <==> x in init || x == last;
    }
  }

  /** An element placed before an ascending sequence that starts no lower keeps it ascending. */
  lemma PrependKeepsAscending(y: int, r: seq<int>)
    requires Ascending(r) && (r == [] || y <= r[0])
    ensures Ascending([y] + r)
  {
    var out := [y] + r;
    forall i, j | 0 <= i < j < |out| ensures out[i] <= out[j] {
      assert out[j] == r[j - 1];
      if i > 0 {
        assert out[i] == r[i - 1];
      } else {
        assert r[0] <= r[j - 1];
      }
    }
  }

  /** Inserting into an ascending sequence keeps it ascending and adds exactly `x`. */
  lemma {:induction false} InsertKeepsAscending(x: int, s: seq<int>)
    requires Ascending(s)
    ensures Ascending(Insert(x, s))
    ensures multiset(Insert(x, s)) == multiset(s) + multiset{x}
  {
    if s == [] {
    } else if x <= s[0] {
      PrependKeepsAscending(x, s);
    } else {
      var t := s[1..];
      assert s == [s[0]] + t;
      InsertKeepsAscending(x, t);
      var r := Insert(x, t);
      assert r[0] == if t == [] || x <= t[0] then x else t[0];
      assert t != [] ==> s[0] <= t[0];
      PrependKeepsAscending(s[0], r);
    }
  }

  /** `Order` returns the ascending permutation of its input. */
  lemma {:induction false} OrderSortsAndPermutes(s: seq<int>)
    ensures Ascending(Order(s))
    ensures multiset(Order(s)) == multiset(s)
  {
    if s != [] {
      OrderSortsAndPermutes(s[1..]);
      InsertKeepsAscending(s[0], Order(s[1..]));
      assert s == [s[0]] + s[1..];
    }
  }

  /** A permutation of a sequence without duplicates has none either. */
  lemma {:induction false} PermutationKeepsNoDuplicates(a: seq<int>, b: seq<int>)
    requires NoDuplicates(a) && multiset(a) == multiset(b)
    ensures NoDuplicates(b)
  {
    forall i, j | 0 <= i < j < |b|
      ensures b[i] != b[j]
    {
      if b[i] == b[j] {
        var x := b[i];
        assert multiset(b[..j])[x] >= 1 by { assert b[..j][i] == x; }
        assert b == b[..j] + [x] + b[j + 1..];
        assert multiset(b)[x] >= 2;
        MultiplicityAtMostOne(a, x);
      }
    }
  }

  /** In a sequence without duplicates every element occurs at most once. */
  lemma {:induction false} MultiplicityAtMostOne(a: seq<int>, x: int)
    requires NoDuplicates(a)
    ensures multiset(a)[x] <= 1
  {
    if a != [] {
      var last := a[|a| - 1];
      assert a == a[..|a| - 1] + [last];
      assert NoDuplicates(a[..|a| - 1]);
      MultiplicityAtMostOne(a[..|a| - 1], x);
      if x == last {
        assert x !in a[..|a| - 1] by {
          forall i | 0 <= i < |a| - 1 ensures a[i] != x {
            assert a[i] != a[|a| - 1];
          }
        }
        assert multiset(a[..|a| - 1])[x] == 0;
      }
    }
  }

  /** The index update after a snapshot keeps the index a strictly ascending list whose
      elements are exactly the old ones and the new version. */
  lemma WithVersionIsSortedSet(versions: seq<int>, version: int)
    ensures StrictlyAscending(WithVersion(versions, version))
    ensures forall x :: x in WithVersion(versions, version) <==> x in versions || x == version
  {
    var d := Distinct(versions + [version]);
    var r := Order(d);
    DistinctKeepsEachElementOnce(versions + [version]);
    OrderSortsAndPermutes(d);
    PermutationKeepsNoDuplicates(d, r);
    forall x ensures x in r <==> x in d {
      assert x in r <==> x in multiset(r);
      assert x in d <==> x in multiset(d);
    }
  }

  /** `Enumerable.Max`, defined only for a non-empty sequence. */
  function Max(s: seq<int>): (m: int)
    requires s != []
    ensures m in s && forall x :: x in s ==> x <= m
  {
    if |s| == 1 then s[0]
    else
      var rest := Max(s[1..]);
      assert s == [s[0]] + s[1..];
      if s[0] >= rest then s[0] else rest
  }

  /** `LastSnapshotVersionAsync` on the index contents: 0 without an index record,
      the maximum of the record otherwise, and the error of `Max()` on an empty record. */
  function LastSnapshot(index: map<string, seq<int>>): Result<int>
  {
    if VersionsKey !in index then Ok(0)
    else if index[VersionsKey] == [] then Err(EmptyIndex)
    else Ok(Max(index[VersionsKey]))
  }

  /** `SnapshotVersionsAsync` on the index contents. */
  function Versions(index: map<string, seq<int>>): seq<int>
  {
    if VersionsKey in index then index[VersionsKey] else []
  }

  /** The index after `SnapshotAsync(version, …)`. As written, when no record exists
      it creates an empty one: the version is not recorded. */
  function IndexAfterSnapshot(index: map<string, seq<int>>, version: int): map<string, seq<int>>
  {
    if VersionsKey in index then index[VersionsKey := WithVersion(index[VersionsKey], version)]
    else index[VersionsKey := []]
  }

  /** The index calls of `SnapshotAsync`: read the record, then add or replace it. */
  function IndexCalls(index: map<string, seq<int>>): seq<Call<string>>
  {
    [TryGetCall(VersionsKey), if VersionsKey in index then SetCall(VersionsKey) else AddCall(VersionsKey)]
  }

  /** The last snapshot version is 0 without an index, and otherwise the largest
      recorded version; it is an error exactly when the record is empty. */
  lemma LastSnapshotIsLargestRecorded(index: map<string, seq<int>>)
    ensures LastSnapshot(index).Err? <==> VersionsKey in index && index[VersionsKey] == []
    ensures LastSnapshot(index).Ok? && VersionsKey !in index ==> LastSnapshot(index).value == 0
    ensures LastSnapshot(index).Ok? && VersionsKey in index ==>
      && LastSnapshot(index).value in Versions(index)
      && forall v :: v in Versions(index) ==> v <= LastSnapshot(index).value
  {
  }

  /** With a record present, a snapshot at `version` keeps the record, sorted and
      duplicate-free, with `version` added to it. */
  lemma SnapshotKeepsSortedSet(index: map<string, seq<int>>, version: int)
    requires VersionsKey in index
    ensures VersionsKey in IndexAfterSnapshot(index, version)
    ensures StrictlyAscending(Versions(IndexAfterSnapshot(index, version)))
    ensures forall x :: x in Versions(IndexAfterSnapshot(index, version)) <==> x in Versions(index) || x == version
  {
    WithVersionIsSortedSet(index[VersionsKey], version);
  }

  /** With a record present, a snapshot at `version` keeps the record sorted and
      duplicate-free, adds `version` to it, and raises the last snapshot version to at
      least `version`. */
  lemma SnapshotRecordsVersion(index: map<string, seq<int>>, version: int)
    requires VersionsKey in index
    ensures StrictlyAscending(Versions(IndexAfterSnapshot(index, version)))
    ensures forall x :: x in Versions(IndexAfterSnapshot(index, version)) <==> x in Versions(index) || x == version
    ensures LastSnapshot(IndexAfterSnapshot(index, version)) ==
      Ok(if index[VersionsKey] == [] || Max(index[VersionsKey]) < version then version else Max(index[VersionsKey]))
  {
    WithVersionIsSortedSet(index[VersionsKey], version);
    var r := WithVersion(index[VersionsKey], version);
    assert version in r;
    var m := Max(r);
    if index[VersionsKey] != [] {
      var old_ := Max(index[VersionsKey]);
      assert old_ in r;
    }
  }

  /** As written, the first snapshot of a stream leaves an empty record behind, after
      which the last snapshot version is an error rather than that version. */
  lemma FirstSnapshotIsNotRecorded(index: map<string, seq<int>>, version: int)
    requires VersionsKey !in index
    ensures Versions(IndexAfterSnapshot(index, version)) == []
    ensures LastSnapshot(IndexAfterSnapshot(index, version)) == Err(EmptyIndex)
  {
  }

  /** As written, of two snapshots taken on a stream without an index, only the second
      is recorded. */
  lemma SecondSnapshotIsOnlyOneRecorded(index: map<string, seq<int>>, first: int, second: int)
    requires VersionsKey !in index
    ensures Versions(IndexAfterSnapshot(IndexAfterSnapshot(index, first), second)) == [second]
  {
    assert [] + [second] == [second];
    assert [second][..0] == [];
    assert Distinct([second]) == [second];
    assert Order([second]) == [second];
  }
}
