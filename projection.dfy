/** The web client's projection of the version stream (model.kt): the entity
    versions it holds, the append-only VersionStream with its expected-version
    guard and listeners, and the views derived from the list (the latest
    version per id, the next free id). */
module Projection {
  import opened Wrappers

  datatype FlavourVersion = FlavourVersion(id: int, version: int, name: string)

  datatype ProductVersion = ProductVersion(id: int, version: int, name: string, flavour: FlavourVersion)

  datatype ProductMeasurementVersion = ProductMeasurementVersion(
    id: int, version: int, productVersion: ProductVersion, tray: int, boxes: int, loose: int)

  datatype MeasurementVersion = MeasurementVersion(
    id: int, version: int, date: string, measurements: seq<ProductMeasurementVersion>)

  /** The concrete class of an EntityVersion, as filterIsInstance<T> sees it. */
  datatype Kind = FlavourKind | ProductKind | ProductMeasurementKind | MeasurementKind

  /** The EntityVersion interface: one of the four data classes. */
  datatype EntityVersion =
    | OfFlavour(flavour: FlavourVersion)
    | OfProduct(product: ProductVersion)
    | OfProductMeasurement(row: ProductMeasurementVersion)
    | OfMeasurement(measurement: MeasurementVersion)
  {
    function Id(): int
    {
      match this
      case OfFlavour(f) => f.id
      case OfProduct(p) => p.id
      case OfProductMeasurement(r) => r.id
      case OfMeasurement(m) => m.id
    }

    function Version(): int
    {
      match this
      case OfFlavour(f) => f.version
      case OfProduct(p) => p.version
      case OfProductMeasurement(r) => r.version
      case OfMeasurement(m) => m.version
    }

    function KindOf(): Kind
    {
      match this
      case OfFlavour(_) => FlavourKind
      case OfProduct(_) => ProductKind
      case OfProductMeasurement(_) => ProductMeasurementKind
      case OfMeasurement(_) => MeasurementKind
    }
  }

  /** An entity of class k with the given id. */
  predicate IsOf(e: EntityVersion, k: Kind, id: int)
  {
    e.KindOf() == k && e.Id() == id
  }

  /** getCurrent<T>(id): the last entity of class k with that id, or null. */
  function GetCurrent(s: seq<EntityVersion>, k: Kind, id: int): (r: Option<EntityVersion>)
    ensures r.Some? ==> IsOf(r.value, k, id) && r.value in s
  {
    if s == [] then None
    else if IsOf(s[|s| - 1], k, id) then Some(s[|s| - 1])
    else GetCurrent(s[..|s| - 1], k, id)
  }

  /** Position i holds the last entity of class k with that id. */
  predicate LastAt(s: seq<EntityVersion>, k: Kind, id: int, i: int)
  {
    0 <= i < |s| && IsOf(s[i], k, id) && forall j :: i < j < |s| ==> !IsOf(s[j], k, id)
  }

  /** getCurrent is null exactly when no entity of class k has the id. */
  lemma {:induction false} GetCurrentNone(s: seq<EntityVersion>, k: Kind, id: int)
    ensures GetCurrent(s, k, id).None? <==> forall i :: 0 <= i < |s| ==> !IsOf(s[i], k, id)
  {
    if s != [] {
      var n := |s| - 1;
      GetCurrentNone(s[..n], k, id);
      if GetCurrent(s, k, id).None? {
        forall i | 0 <= i < n ensures !IsOf(s[i], k, id) {
          assert s[i] == s[..n][i];
        }
      }
    }
  }

  /** Otherwise getCurrent is the entity at the last position holding one. */
  lemma {:induction false} GetCurrentIsLast(s: seq<EntityVersion>, k: Kind, id: int, i: int)
    requires LastAt(s, k, id, i)
    ensures GetCurrent(s, k, id) == Some(s[i])
  {
    var n := |s| - 1;
    if i < n {
      assert LastAt(s[..n], k, id, i);
      GetCurrentIsLast(s[..n], k, id, i);
    }
  }

  /** getCurrentAll<T>(): the entities of class k grouped by id, each id
      mapped to the last entity in its group. */
  function GetCurrentAll(s: seq<EntityVersion>, k: Kind): (r: map<int, EntityVersion>)
    ensures forall id :: id in r ==> IsOf(r[id], k, id)
  {
    if s == [] then map[]
    else
      var m := GetCurrentAll(s[..|s| - 1], k);
      var e := s[|s| - 1];
      if e.KindOf() == k then m[e.Id() := e] else m
  }

  /** The two views agree: getCurrentAll has a key exactly for the ids that
      getCurrent finds, and maps it to what getCurrent returns. */
  lemma {:induction false} CurrentAllAgrees(s: seq<EntityVersion>, k: Kind)
    ensures forall id :: id in GetCurrentAll(s, k) <==> GetCurrent(s, k, id).Some?
    ensures forall id :: id in GetCurrentAll(s, k) ==> GetCurrentAll(s, k)[id] == GetCurrent(s, k, id).value
  {
    if s != [] {
      CurrentAllAgrees(s[..|s| - 1], k);
    }
  }

  /** The keys of getCurrentAll are the ids of the entities of class k. */
  lemma CurrentAllKeys(s: seq<EntityVersion>, k: Kind)
    ensures forall id :: id in GetCurrentAll(s, k) <==> exists i :: 0 <= i < |s| && IsOf(s[i], k, id)
  {
    CurrentAllAgrees(s, k);
    forall id ensures GetCurrent(s, k, id).Some? <==> exists i :: 0 <= i < |s| && IsOf(s[i], k, id) {
      GetCurrentNone(s, k, id);
    }
  }

  /** After appending e, e is the current version of its id and every other
      (class, id) keeps its current version. */
  lemma AppendBecomesCurrent(s: seq<EntityVersion>, e: EntityVersion, k: Kind, id: int)
    ensures GetCurrent(s + [e], k, id) == if IsOf(e, k, id) then Some(e) else GetCurrent(s, k, id)
  {
    assert (s + [e])[..|s|] == s;
  }

  predicate IsSmallest(m: int, ids: set<int>)
  {
    m in ids && forall x :: x in ids ==> m <= x
  }

  lemma {:induction false} SmallestExists(ids: set<int>)
    requires ids != {}
    ensures exists m :: IsSmallest(m, ids)
    decreases |ids|
  {
    if forall y :: y !in ids { assert false; }
    var x :| x in ids;
    if ids != {x} {
      SmallestExists(ids - {x});
      var m :| IsSmallest(m, ids - {x});
      var least := if x < m then x else m;
      forall y | y in ids ensures least <= y {
        if y != x { assert y in ids - {x}; }
      }
      assert IsSmallest(least, ids);
    } else {
      assert IsSmallest(x, ids);
    }
  }

  /** A set of ids in ascending order. */
  function SortedIds(ids: set<int>): (r: seq<int>)
    ensures forall i, j :: 0 <= i < j < |r| ==> r[i] < r[j]
    ensures forall x :: x in r <==> x in ids
    decreases |ids|
  {
    if ids == {} then []
    else
      SmallestExists(ids);
      var m :| IsSmallest(m, ids);
      [m] + SortedIds(ids - {m})
  }

  /** getCurrentAll<T>().values.sortedBy { it.id }: the current entities of
      class k, ascending by id. */
  function SortedCurrent(s: seq<EntityVersion>, k: Kind): (r: seq<EntityVersion>)
    ensures forall i :: 0 <= i < |r| ==> r[i].KindOf() == k
    ensures forall i, j :: 0 <= i < j < |r| ==> r[i].Id() < r[j].Id()
  {
    var current := GetCurrentAll(s, k);
    var ids := SortedIds(current.Keys);
    seq(|ids|, i requires 0 <= i < |ids| => current[ids[i]])
  }

  lemma SortedCurrentValues(s: seq<EntityVersion>, k: Kind)
    ensures forall e :: e in SortedCurrent(s, k) <==> e in GetCurrentAll(s, k).Values
  {
    var current := GetCurrentAll(s, k);
    var ids := SortedIds(current.Keys);
    var r := SortedCurrent(s, k);
    forall e | e in current.Values ensures e in r {
      var id :| id in current && current[id] == e;
      var i :| 0 <= i < |ids| && ids[i] == id;
      assert r[i] == e;
    }
  }

  /** The sorted view holds exactly the current version of every id. */
  lemma SortedCurrentMembers(s: seq<EntityVersion>, k: Kind)
    ensures forall e :: e in SortedCurrent(s, k) <==> GetCurrent(s, k, e.Id()) == Some(e)
  {
    var current := GetCurrentAll(s, k);
    SortedCurrentValues(s, k);
    CurrentAllAgrees(s, k);
    forall e: EntityVersion | GetCurrent(s, k, e.Id()) == Some(e) ensures e in current.Values {
      assert current[e.Id()] == e;
    }
  }

  /** nextId<T>() as written: one more than the id of the LAST entity of
      class k, or 0 when there is none. */
  function NextId(s: seq<EntityVersion>, k: Kind): (r: int)
  {
    if s == [] then 0
    else if s[|s| - 1].KindOf() == k then s[|s| - 1].Id() + 1
    else NextId(s[..|s| - 1], k)
  }

  /** Position i holds the last entity of class k, whatever its id. */
  predicate LastOfKind(s: seq<EntityVersion>, k: Kind, i: int)
  {
    0 <= i < |s| && s[i].KindOf() == k && forall j :: i < j < |s| ==> s[j].KindOf() != k
  }

  /** nextId is 0 when the list holds no entity of class k. */
  lemma {:induction false} NextIdNone(s: seq<EntityVersion>, k: Kind)
    requires forall i :: 0 <= i < |s| ==> s[i].KindOf() != k
    ensures NextId(s, k) == 0
  {
    if s != [] {
      var n := |s| - 1;
      assert forall i :: 0 <= i < n ==> s[..n][i] == s[i];
      NextIdNone(s[..n], k);
    }
  }

  /** Otherwise it is one more than the id of the last one. */
  lemma {:induction false} NextIdIsLastPlusOne(s: seq<EntityVersion>, k: Kind, i: int)
    requires LastOfKind(s, k, i)
    ensures NextId(s, k) == s[i].Id() + 1
  {
    var n := |s| - 1;
    if i < n {
      assert LastOfKind(s[..n], k, i);
      NextIdIsLastPlusOne(s[..n], k, i);
    }
  }

  /** The evidently intended nextId: one more than the LARGEST id of class k,
      or 0 when there is none. */
  function NextFreeId(s: seq<EntityVersion>, k: Kind): (r: int)
    ensures r >= 0
    ensures forall i :: 0 <= i < |s| && s[i].KindOf() == k ==> s[i].Id() < r
  {
    if s == [] then 0
    else
      var n := NextFreeId(s[..|s| - 1], k);
      var e := s[|s| - 1];
      if e.KindOf() == k && e.Id() + 1 > n then e.Id() + 1 else n
  }

  /** The corrected id is fresh: no entity of class k in the list has it. */
  lemma NextFreeIdIsFresh(s: seq<EntityVersion>, k: Kind)
    ensures GetCurrent(s, k, NextFreeId(s, k)).None?
    ensures NextFreeId(s, k) !in GetCurrentAll(s, k)
  {
    GetCurrentNone(s, k, NextFreeId(s, k));
    CurrentAllAgrees(s, k);
  }

  /** When the last entity of class k carries the largest id of its class
      (ids handed out in increasing order), the written nextId agrees with the
      corrected one. */
  lemma NextIdAgreesWhenLastIsLargest(s: seq<EntityVersion>, k: Kind, i: int)
    requires LastOfKind(s, k, i) && s[i].Id() >= 0
    requires forall j :: 0 <= j < |s| && s[j].KindOf() == k ==> s[j].Id() <= s[i].Id()
    ensures NextId(s, k) == NextFreeId(s, k)
  {
    NextIdIsLastPlusOne(s, k, i);
    NextFreeIdAttained(s, k);
  }

  /** A positive corrected id is one more than some id of class k. */
  lemma {:induction false} NextFreeIdAttained(s: seq<EntityVersion>, k: Kind)
    ensures NextFreeId(s, k) == 0 || exists i :: 0 <= i < |s| && s[i].KindOf() == k && s[i].Id() + 1 == NextFreeId(s, k)
  {
    if s != [] {
      var n := |s| - 1;
      NextFreeIdAttained(s[..n], k);
      if NextFreeId(s, k) != 0 && NextFreeId(s, k) == NextFreeId(s[..n], k) {
        var i :| 0 <= i < n && s[..n][i].KindOf() == k && s[..n][i].Id() + 1 == NextFreeId(s[..n], k);
        assert s[i] == s[..n][i];
      }
    }
  }

  /** As written, nextId can hand out an id that is still in use: after
      products 0 and 1, re-versioning product 0 makes nextId answer 1. */
  lemma NextIdReusesId()
    ensures var f := FlavourVersion(0, 0, "green");
            var s := [OfProduct(ProductVersion(0, 0, "a", f)), OfProduct(ProductVersion(1, 0, "b", f)),
                      OfProduct(ProductVersion(0, 0, "a2", f))];
            && NextId(s, ProductKind) == 1
            && 1 in GetCurrentAll(s, ProductKind)
            && NextFreeId(s, ProductKind) == 2
  {
    var f := FlavourVersion(0, 0, "green");
    var s := [OfProduct(ProductVersion(0, 0, "a", f)), OfProduct(ProductVersion(1, 0, "b", f)),
              OfProduct(ProductVersion(0, 0, "a2", f))];
    assert s[..2][..1] == [s[0]] && s[..2] == [s[0], s[1]];
    assert NextFreeId(s[..2][..1], ProductKind) == 1;
    assert NextFreeId(s[..2], ProductKind) == 2;
    assert GetCurrentAll(s[..2], ProductKind) == GetCurrentAll([s[0]], ProductKind)[1 := s[1]];
  }

  /** A registered listener, an opaque handle for the closure. */
  datatype Listener = Listener(handle: nat)

  /** One call of a listener with an entity. */
  datatype Notification = Notification(listener: Listener, entity: EntityVersion)

  /** The IllegalStateException thrown on a version mismatch. */
  datatype StreamError = IllegalState

  /** The calls listeners.forEach { it(e) } makes, in order. */
  function Calls(ls: seq<Listener>, e: EntityVersion): (r: seq<Notification>)
    ensures |r| == |ls|
    ensures forall i :: 0 <= i < |ls| ==> r[i] == Notification(ls[i], e)
  {
    if ls == [] then [] else Calls(ls[..|ls| - 1], e) + [Notification(ls[|ls| - 1], e)]
  }

  /** Every entity in es carries version v. */
  predicate AllAt(es: seq<EntityVersion>, v: int)
  {
    forall i :: 0 <= i < |es| ==> es[i].Version() == v
  }

  class VersionStream {
    /** The append-only list of entity versions. */
    var stream: seq<EntityVersion>
    /** The version the next upsert must carry. */
    var nextVersion: int
    var listeners: seq<Listener>
    /** Every listener call made so far, in order. */
    var notifications: seq<Notification>

    constructor ()
      ensures stream == [] && nextVersion == 0 && listeners == [] && notifications == []
    {
      stream := [];
      nextVersion := 0;
      listeners := [];
      notifications := [];
    }

    /** upsert(entity): throws unless the entity carries nextVersion;
        otherwise appends it and calls every listener with it, in
        registration order. As written nextVersion is not advanced. */
    method Upsert(e: EntityVersion) returns (r: Result<(), StreamError>)
      modifies this
      ensures r.Err? <==> e.Version() != old(nextVersion)
      ensures r.Err? ==> stream == old(stream) && notifications == old(notifications)
      ensures r.Ok? ==> stream == old(stream) + [e] && notifications == old(notifications) + Calls(old(listeners), e)
      ensures listeners == old(listeners) && nextVersion == old(nextVersion)
    {
      if e.Version() != nextVersion {
        return Err(IllegalState);
      }
      stream := stream + [e];
      for i := 0 to |listeners|
        invariant stream == old(stream) + [e]
        invariant listeners == old(listeners) && nextVersion == old(nextVersion)
        invariant notifications == old(notifications) + Calls(listeners[..i], e)
      {
        assert listeners[..i + 1][..i] == listeners[..i];
        notifications := notifications + [Notification(listeners[i], e)];
      }
      assert listeners[..|listeners|] == listeners;
      return Ok(());
    }

    /** upsert(entities): checks every entity's version first and throws on
        the first mismatch, adding nothing; otherwise appends them all. No
        listener is called. */
    method UpsertAll(es: seq<EntityVersion>) returns (r: Result<(), StreamError>)
      modifies this
      ensures r.Ok? <==> AllAt(es, old(nextVersion))
      ensures r.Ok? ==> stream == old(stream) + es
      ensures r.Err? ==> stream == old(stream)
      ensures listeners == old(listeners) && nextVersion == old(nextVersion) && notifications == old(notifications)
    {
      for i := 0 to |es|
        invariant AllAt(es[..i], nextVersion)
      {
        if es[i].Version() != nextVersion {
          return Err(IllegalState);
        }
      }
      assert es[..|es|] == es;
      stream := stream + es;
      return Ok(());
    }

    /** onUpsert(fn): registers a listener after the existing ones. */
    method OnUpsert(l: Listener)
      modifies this
      ensures listeners == old(listeners) + [l]
      ensures stream == old(stream) && nextVersion == old(nextVersion) && notifications == old(notifications)
    {
      listeners := listeners + [l];
    }
  }

  /** As written, the guard accepts two successive entities at the same
      version: a fresh stream takes flavour 0 and then flavour 1, both at
      version 0. */
  method SameVersionAcceptedTwice() returns (first: Result<(), StreamError>, second: Result<(), StreamError>)
    ensures first.Ok? && second.Ok?
  {
    var vs := new VersionStream();
    first := vs.Upsert(OfFlavour(FlavourVersion(0, 0, "green")));
    second := vs.Upsert(OfFlavour(FlavourVersion(1, 0, "black")));
  }

  /** The list and expected version of a stream, for the corrected upsert. */
  datatype StreamState = StreamState(stream: seq<EntityVersion>, nextVersion: int)

  /** Every version in the list is below the expected one. */
  predicate VersionsBelow(st: StreamState)
  {
    forall i :: 0 <= i < |st.stream| ==> st.stream[i].Version() < st.nextVersion
  }

  /** The evidently intended upsert: after appending, the expected version
      moves on by one. */
  function UpsertAdvancing(st: StreamState, e: EntityVersion): Result<StreamState, StreamError>
  {
    if e.Version() != st.nextVersion then Err(IllegalState)
    else Ok(StreamState(st.stream + [e], st.nextVersion + 1))
  }

  /** Versions strictly increase along the list. */
  predicate VersionsIncrease(s: seq<EntityVersion>)
  {
    forall i, j :: 0 <= i < j < |s| ==> s[i].Version() < s[j].Version()
  }

  /** A run of corrected upserts, stopping at the first rejection. */
  function Replay(st: StreamState, es: seq<EntityVersion>): Result<StreamState, StreamError>
    decreases |es|
  {
    if es == [] then Ok(st)
    else
      var next :- UpsertAdvancing(st, es[0]);
      Replay(next, es[1..])
  }

  /** With the corrected upsert every accepted entity is newer than all the
      ones before it: a run that succeeds appends its entities and leaves the
      versions in the list strictly increasing. */
  lemma {:induction false} ReplayKeepsVersionsIncreasing(st: StreamState, es: seq<EntityVersion>)
    requires VersionsBelow(st) && VersionsIncrease(st.stream)
    ensures Replay(st, es).Ok? ==>
              && Replay(st, es).value.stream == st.stream + es
              && VersionsBelow(Replay(st, es).value)
              && VersionsIncrease(Replay(st, es).value.stream)
    decreases |es|
  {
    if es != [] && UpsertAdvancing(st, es[0]).Ok? {
      var next := UpsertAdvancing(st, es[0]).value;
      assert VersionsIncrease(next.stream);
      ReplayKeepsVersionsIncreasing(next, es[1..]);
      assert st.stream + [es[0]] + es[1..] == st.stream + es;
    }
  }

  /** The corrected upsert rejects a second entity at the version just used. */
  lemma ReplayRejectsReuse(st: StreamState, a: EntityVersion, b: EntityVersion)
    requires b.Version() == a.Version()
    ensures Replay(st, [a, b]).Err?
  {
    assert [a, b][1..] == [b];
  }
}
