/** VersionRepository (Repository.kt): the event log kept in one DynamoDB
    partition, one item per version slot. The table is a map from (pk, sk) to
    the item; `append` is a conditional put, `fetchAll` an ascending range
    query from the start version's key, `fetchLastVersion` a descending query
    for the highest stream key. */
module Repository {
  import opened Wrappers
  import opened Codec
  import opened Items
  import opened Listing

  /** (pk, sk), the primary key of an item. */
  type Key = (string, string)

  type Table = map<Key, Item>

  /** The put's condition `attribute_not_exists(pk)` was false. */
  datatype PutError = ConditionalCheckFailed

  /** The slot an entity is appended to. */
  function KeyOf(e: Entity): Key
  {
    (Partition, StreamKey(e.version))
  }

  /** putItem with the condition `attribute_not_exists(pk)`: the item is
      written only when no item has its (pk, sk). */
  function ConditionalPut(table: Table, key: Key, item: Item): (r: Result<Table, PutError>)
    ensures r.Ok? <==> key !in table
    ensures r.Ok? ==> r.value.Keys == table.Keys + {key} && r.value[key] == item
    ensures r.Ok? ==> forall k :: k in table ==> r.value[k] == table[k]
  {
    if key in table then Err(ConditionalCheckFailed) else Ok(table[key := item])
  }

  /** The put `append` issues for an entity: its slot and its item. */
  function PutOf(e: Entity): (Key, Item)
  {
    (KeyOf(e), EncodeItem(e))
  }

  /** The puts of a run of appends, in order. */
  function PutsOf(es: seq<Entity>): (puts: seq<(Key, Item)>)
    ensures |puts| == |es|
    ensures forall i :: 0 <= i < |es| ==> puts[i] == PutOf(es[i])
  {
    if es == [] then [] else [PutOf(es[0])] + PutsOf(es[1..])
  }

  /** A run of conditional puts from several writers; a failed put changes
      nothing and the run goes on. Returns the final table and which puts
      won. */
  function PutAll(table: Table, puts: seq<(Key, Item)>): (r: (Table, seq<bool>))
    ensures |r.1| == |puts|
    decreases |puts|
  {
    if puts == [] then (table, [])
    else
      var step := ConditionalPut(table, puts[0].0, puts[0].1);
      var next := if step.Ok? then step.value else table;
      var rest := PutAll(next, puts[1..]);
      (rest.0, [step.Ok?] + rest.1)
  }

  /** Write-once slots: an occupied slot keeps its item whatever is put
      afterwards, and no slot is ever emptied. */
  lemma {:induction false} OccupiedSlotNeverChanges(table: Table, puts: seq<(Key, Item)>, k: Key)
    requires k in table
    ensures k in PutAll(table, puts).0 && PutAll(table, puts).0[k] == table[k]
    decreases |puts|
  {
    if puts != [] {
      var step := ConditionalPut(table, puts[0].0, puts[0].1);
      var next := if step.Ok? then step.value else table;
      OccupiedSlotNeverChanges(next, puts[1..], k);
    }
  }

  /** The slot of the i-th put is free when it runs: neither the table nor an
      earlier put of the run took it. */
  predicate SlotFree(table: Table, puts: seq<(Key, Item)>, i: nat)
    requires i < |puts|
  {
    puts[i].0 !in table && forall j :: 0 <= j < i ==> puts[j].0 != puts[i].0
  }

  /** A put wins exactly when its slot is free. */
  lemma {:induction false} PutWinsIffSlotFree(table: Table, puts: seq<(Key, Item)>, i: nat)
    requires i < |puts|
    ensures PutAll(table, puts).1[i] <==> SlotFree(table, puts, i)
    decreases |puts|
  {
    var step := ConditionalPut(table, puts[0].0, puts[0].1);
    var next := if step.Ok? then step.value else table;
    var rest := PutAll(next, puts[1..]);
    assert PutAll(table, puts).1 == [step.Ok?] + rest.1;
    if i > 0 {
      var key := puts[i].0;
      assert key in next <==> key in table || (step.Ok? && puts[0].0 == key);
      PutWinsIffSlotFree(next, puts[1..], i - 1);
      assert puts[1..][i - 1] == puts[i];
      assert PutAll(table, puts).1[i] == rest.1[i - 1];
      if SlotFree(next, puts[1..], i - 1) {
        forall j | 0 <= j < i ensures puts[j].0 != key {
          if j > 0 { assert puts[1..][j - 1] == puts[j]; }
        }
      }
      if SlotFree(table, puts, i) {
        forall j | 0 <= j < i - 1 ensures puts[1..][j].0 != key {
          assert puts[1..][j] == puts[j + 1];
        }
      }
    }
  }

  /** Appends from several writers: the i-th wins exactly when no item in the
      table and no earlier append has its version. */
  lemma AppendWinsIffVersionFree(table: Table, es: seq<Entity>, i: nat)
    requires i < |es|
    ensures PutAll(table, PutsOf(es)).1[i] <==>
      KeyOf(es[i]) !in table && forall j :: 0 <= j < i ==> KeyOf(es[j]) != KeyOf(es[i])
  {
    PutWinsIffSlotFree(table, PutsOf(es), i);
  }

  /** Two writers that read the same tail and append the same version: the
      first wins, the second gets ConditionalCheckFailed, and the slot holds
      the first writer's item. */
  lemma RacingAppends(table: Table, first: Entity, second: Entity)
    requires KeyOf(first) !in table && first.version == second.version
    ensures PutAll(table, PutsOf([first, second])).1 == [true, false]
    ensures PutAll(table, PutsOf([first, second])).0 == table[KeyOf(first) := EncodeItem(first)]
  {
    var puts := PutsOf([first, second]);
    var after := table[KeyOf(first) := EncodeItem(first)];
    assert puts == [PutOf(first), PutOf(second)];
    assert ConditionalPut(table, KeyOf(first), EncodeItem(first)) == Ok(after);
    assert ConditionalPut(after, KeyOf(second), EncodeItem(second)).Err?;
    assert puts[1..] == [PutOf(second)] && [PutOf(second)][1..] == [];
    assert PutAll(after, []) == (after, []);
    assert [false] + [] == [false] && [true] + [false] == [true, false];
    assert PutAll(after, [PutOf(second)]) == (after, [false]);
  }

  // ------------------------------------------------------------- the queries

  /** `sk >= lower` within the log's partition. */
  function Selected(table: Table, lower: string): (keys: set<string>)
    ensures forall k :: k in keys <==> (Partition, k) in table && !LexLess(k, lower)
  {
    set k | k in table && k.0 == Partition && !LexLess(k.1, lower) :: k.1
  }

  /** `begins_with(sk, "stream-")` within the log's partition. */
  function StreamKeys(table: Table): (keys: set<string>)
    ensures forall k :: k in keys <==> (Partition, k) in table && StreamPrefix <= k
  {
    set k | k in table && k.0 == Partition && StreamPrefix <= k.1 :: k.1
  }

  /** The items at the given sort keys decoded in order; the first failure
      throws. */
  function DecodeAll(table: Table, keys: seq<string>): (r: Result<seq<Entity>, DecodeError>)
    requires forall k :: k in keys ==> (Partition, k) in table
    ensures r.Ok? ==> |r.value| == |keys|
  {
    if keys == [] then Ok([])
    else
      var e :- DecodeItem(table[(Partition, keys[0])]);
      var rest :- DecodeAll(table, keys[1..]);
      Ok([e] + rest)
  }

  /** Decoding one more key extends the decoded prefix or throws. */
  lemma {:induction false} DecodeAllSnoc(table: Table, a: seq<string>, m: string)
    requires forall k :: k in a ==> (Partition, k) in table
    requires (Partition, m) in table && DecodeAll(table, a).Ok?
    ensures var d := DecodeItem(table[(Partition, m)]);
      DecodeAll(table, a + [m]) == if d.Ok? then Ok(DecodeAll(table, a).value + [d.value]) else Err(d.error)
  {
    if a != [] {
      assert (a + [m])[0] == a[0] && (a + [m])[1..] == a[1..] + [m];
      DecodeAllSnoc(table, a[1..], m);
      var d := DecodeItem(table[(Partition, m)]);
      if d.Ok? {
        var first := DecodeItem(table[(Partition, a[0])]).value;
        assert [first] + (DecodeAll(table, a[1..]).value + [d.value])
            == ([first] + DecodeAll(table, a[1..]).value) + [d.value];
      }
    } else {
      assert a + [m] == [m] && [m][1..] == [];
      assert DecodeAll(table, []) == Ok([]);
      var d := DecodeItem(table[(Partition, m)]);
      if d.Ok? {
        assert DecodeAll(table, [m]) == Ok([d.value] + []);
        assert [d.value] + [] == [] + [d.value];
      }
    }
  }

  /** Once a prefix throws, so does every extension of it. */
  lemma {:induction false} DecodeAllErr(table: Table, a: seq<string>, b: seq<string>)
    requires forall k :: k in a + b ==> (Partition, k) in table
    requires DecodeAll(table, a).Err?
    ensures DecodeAll(table, a + b) == DecodeAll(table, a)
  {
    assert a != [];
    assert (a + b)[0] == a[0] && (a + b)[1..] == a[1..] + b;
    if DecodeItem(table[(Partition, a[0])]).Ok? {
      DecodeAllErr(table, a[1..], b);
    }
  }

  /** What `fetchAll(start)` returns: the items with
      sk >= "stream-" + sortableInt(start), in ascending key order, decoded. */
  ghost function FetchAllResult(table: Table, start: Int32): Result<seq<Entity>, DecodeError>
  {
    DecodeAll(table, Ascending(Selected(table, StreamKey(start))))
  }

  /** `split("-")[1].drop(1).toInt()` on the sort key of the highest item; an
      index out of bounds is a malformed key. */
  function KeyVersion(item: Item): Result<Int32, DecodeError>
  {
    var sk :- GetString(item, "sk");
    var pieces := Split(sk, '-');
    if |pieces| < 2 then Err(MalformedSortKey(sk)) else ParseVersion(pieces[1])
  }

  /** What `fetchLastVersion` returns: nothing on an empty log, otherwise the
      version of the item with the greatest stream key. */
  ghost function LastVersionResult(table: Table): Result<Option<Int32>, DecodeError>
  {
    var keys := StreamKeys(table);
    if keys == {} then Ok(None)
    else
      var v :- KeyVersion(table[(Partition, Greatest(keys))]);
      Ok(Some(v))
  }

  // ----------------------------------------------- the repository over a log

  /** The table holds exactly the items of the logged entities. */
  predicate Stores(table: Table, log: map<Key, Entity>)
  {
    table.Keys == log.Keys && forall k {:trigger table[k]} :: k in log ==> table[k] == EncodeItem(log[k])
  }

  /** Every logged entity sits in its own slot. */
  predicate InOwnSlots(log: map<Key, Entity>)
  {
    forall k :: k in log ==> k == KeyOf(log[k])
  }

  /** Every logged entity can be read back: its version is non-negative and
      its measurement rows are complete. */
  predicate Readable(log: map<Key, Entity>)
  {
    forall k :: k in log ==> log[k].version >= 0 && Complete(log[k])
  }

  lemma StreamKeyOrder(a: Int32, b: Int32)
    requires a >= 0 && b >= 0
    ensures LexLess(StreamKey(a), StreamKey(b)) <==> a < b
  {
    LexLessCommonPrefix(StreamPrefix, SortableInt(a), SortableInt(b));
    SortableIntOrder(a, b);
  }

  /** The logged entities at the given sort keys. */
  function LoggedAt(log: map<Key, Entity>, keys: seq<string>): (es: seq<Entity>)
    requires forall k :: k in keys ==> (Partition, k) in log
    ensures |es| == |keys|
    ensures forall i :: 0 <= i < |keys| ==> es[i] == log[(Partition, keys[i])]
  {
    if keys == [] then [] else [log[(Partition, keys[0])]] + LoggedAt(log, keys[1..])
  }

  lemma {:induction false} DecodeLogged(table: Table, log: map<Key, Entity>, keys: seq<string>)
    requires Stores(table, log) && Readable(log)
    requires forall k :: k in keys ==> (Partition, k) in log
    ensures DecodeAll(table, keys) == Ok(LoggedAt(log, keys))
  {
    if keys != [] {
      var e := log[(Partition, keys[0])];
      ItemRoundTrip(e);
      DecodeLogged(table, log, keys[1..]);
    }
  }

  /** On a log of non-negative versions, the range query from start selects
      the slots of exactly the versions >= start. */
  lemma SelectedFromLog(table: Table, log: map<Key, Entity>, start: Int32)
    requires Stores(table, log) && InOwnSlots(log) && start >= 0
    requires forall k :: k in log ==> log[k].version >= 0
    ensures forall k :: k in Selected(table, StreamKey(start)) <==>
      (Partition, k) in log && log[(Partition, k)].version >= start
  {
    forall k | (Partition, k) in log
      ensures !LexLess(k, StreamKey(start)) <==> log[(Partition, k)].version >= start
    {
      assert k == StreamKey(log[(Partition, k)].version);
      StreamKeyOrder(log[(Partition, k)].version, start);
    }
  }

  /** Ascending sort keys of logged entities carry ascending versions. */
  lemma LoggedAscending(log: map<Key, Entity>, keys: seq<string>)
    requires InOwnSlots(log) && StrictlyAscending(keys)
    requires forall k :: k in log ==> log[k].version >= 0
    requires forall k :: k in keys ==> (Partition, k) in log
    ensures var es := LoggedAt(log, keys);
      forall i, j :: 0 <= i < j < |es| ==> es[i].version < es[j].version
  {
    var es := LoggedAt(log, keys);
    forall i, j | 0 <= i < j < |es| ensures es[i].version < es[j].version {
      assert KeyOf(log[(Partition, keys[i])]) == (Partition, keys[i]);
      assert KeyOf(log[(Partition, keys[j])]) == (Partition, keys[j]);
      assert LexLess(keys[i], keys[j]);
      StreamKeyOrder(es[i].version, es[j].version);
    }
  }

  /** The logged entities at a listing of the log's sort keys are the logged
      entities whose slots the listing names. */
  lemma LoggedMembers(log: map<Key, Entity>, keys: seq<string>, e: Entity)
    requires InOwnSlots(log)
    requires forall k :: k in keys ==> (Partition, k) in log
    requires e in log.Values && KeyOf(e).1 in keys
    ensures e in LoggedAt(log, keys)
  {
    var k :| k in log && log[k] == e;
    var i :| 0 <= i < |keys| && keys[i] == k.1;
    assert LoggedAt(log, keys)[i] == e;
  }

  /** A listing of the slots holding versions >= start names exactly the
      logged entities with version >= start. */
  lemma LoggedFrom(log: map<Key, Entity>, keys: seq<string>, start: Int32)
    requires InOwnSlots(log)
    requires forall k :: k in keys <==> (Partition, k) in log && log[(Partition, k)].version >= start
    ensures forall e :: e in LoggedAt(log, keys) <==> e in log.Values && e.version >= start
  {
    var es := LoggedAt(log, keys);
    forall e | e in es ensures e in log.Values && e.version >= start {
      var i :| 0 <= i < |es| && es[i] == e;
      assert keys[i] in keys;
    }
    forall e | e in log.Values && e.version >= start ensures e in es {
      var k :| k in log && log[k] == e;
      assert KeyOf(e) == k;
      LoggedMembers(log, keys, e);
    }
  }

  /** fetchAll(start) on a log of readable entities returns exactly the
      logged entities with version >= start, in ascending version order. */
  lemma FetchAllReturnsLogFrom(table: Table, log: map<Key, Entity>, start: Int32)
    requires Stores(table, log) && InOwnSlots(log) && Readable(log) && start >= 0
    ensures var r := FetchAllResult(table, start);
      && r.Ok?
      && (forall i, j :: 0 <= i < j < |r.value| ==> r.value[i].version < r.value[j].version)
      && (forall e :: e in r.value <==> e in log.Values && e.version >= start)
  {
    var keys := Ascending(Selected(table, StreamKey(start)));
    SelectedFromLog(table, log, start);
    DecodeLogged(table, log, keys);
    LoggedAscending(log, keys);
    LoggedFrom(log, keys, start);
  }

  // ------------------------------------------- fetchAll from a negative start

  /** As written, a negative start makes the lower bound "stream-", a length
      letter, '-' and digits: the key of a version lies below it exactly when
      the version has fewer digits than the start's decimal text has
      characters, whatever the two numbers are. */
  lemma NegativeStartBound(v: Int32, start: Int32)
    requires v >= 0 && start < 0
    ensures LexLess(StreamKey(v), StreamKey(start)) <==> |Digits(v)| < |IntToString(start)|
  {
    var x, y := SortableInt(v), SortableInt(start);
    LexLessCommonPrefix(StreamPrefix, x, y);
    SortableIntShape(v);
    IntToStringLength(start);
    assert y[0] == ('a' as int + |IntToString(start)|) as char;
    assert y[1] == '-' by { assert y[1..] == IntToString(start); }
    assert IsDigit(x[1]) by { assert x[1] == Digits(v)[0]; }
    assert !LexLess(x[1..], y[1..]) by { assert x[1..][0] == x[1] && y[1..][0] == y[1]; }
  }

  /** fetchAll(-1) on a table holding only version 0 returns nothing,
      although 0 >= -1. */
  lemma FetchAllFromMinusOneMissesVersionZero()
    ensures var e := Flavour(0, 0, "x");
            var table := map[KeyOf(e) := EncodeItem(e)];
            e.version >= -1 && FetchAllResult(table, -1) == Ok([])
  {
    var e := Flavour(0, 0, "x");
    var table := map[KeyOf(e) := EncodeItem(e)];
    NegativeStartBound(0, -1);
    assert |Digits(0)| == 1;
    assert IntToString(-1) == "-" + Digits(1);
    assert Selected(table, StreamKey(-1)) == {};
    assert Ascending({}) == [];
  }

  /** The lower bound the query evidently intends: versions are never
      negative, so a negative start asks for everything. */
  function ClampedStart(start: Int32): Int32
  {
    if start < 0 then 0 else start
  }

  /** With the start clamped at 0, fetchAll(start) returns exactly the logged
      entities with version >= start, for every start. */
  lemma FetchAllClampedReturnsLogFrom(table: Table, log: map<Key, Entity>, start: Int32)
    requires Stores(table, log) && InOwnSlots(log) && Readable(log)
    ensures var r := FetchAllResult(table, ClampedStart(start));
      && r.Ok?
      && (forall i, j :: 0 <= i < j < |r.value| ==> r.value[i].version < r.value[j].version)
      && (forall e :: e in r.value <==> e in log.Values && e.version >= start)
  {
    FetchAllReturnsLogFrom(table, log, ClampedStart(start));
    forall e | e in log.Values ensures e.version >= 0 {
      var k :| k in log && log[k] == e;
    }
  }

  /** On a stored log, the stream keys of the table are the log's sort keys. */
  lemma StreamKeysFromLog(table: Table, log: map<Key, Entity>)
    requires Stores(table, log) && InOwnSlots(log)
    ensures forall k :: k in StreamKeys(table) <==> (Partition, k) in log
    ensures forall k :: k in log ==> k == (Partition, k.1)
  {
    forall k | (Partition, k) in log ensures StreamPrefix <= k {
      assert k == StreamPrefix + SortableInt(log[(Partition, k)].version);
    }
  }

  /** The sort key of a stored entity's item gives its version back. */
  lemma StoredKeyVersion(table: Table, log: map<Key, Entity>, k: Key)
    requires Stores(table, log) && InOwnSlots(log)
    requires k in log && log[k].version >= 0
    ensures KeyVersion(table[k]) == Ok(log[k].version)
  {
    var e := log[k];
    assert table[k] == EncodeItem(e);
    assert GetString(table[k], "sk") == Ok(StreamKey(e.version));
    StreamKeyDecodes(e.version);
  }

  /** The entity in the greatest slot has the highest version. */
  lemma GreatestKeyHighest(log: map<Key, Entity>, sk: string)
    requires InOwnSlots(log)
    requires forall k :: k in log ==> log[k].version >= 0
    requires (Partition, sk) in log
    requires forall k :: (Partition, k) in log ==> !LexLess(sk, k)
    ensures forall e :: e in log.Values ==> e.version <= log[(Partition, sk)].version
  {
    var top := log[(Partition, sk)];
    assert KeyOf(top) == (Partition, sk);
    forall e | e in log.Values ensures e.version <= top.version {
      var k :| k in log && log[k] == e;
      assert KeyOf(e) == k;
      StreamKeyOrder(top.version, e.version);
    }
  }

  /** fetchLastVersion on a log of non-negative versions returns nothing when
      the log is empty and otherwise the highest logged version. */
  lemma LastVersionIsHighest(table: Table, log: map<Key, Entity>)
    requires Stores(table, log) && InOwnSlots(log)
    requires forall k :: k in log ==> log[k].version >= 0
    ensures var r := LastVersionResult(table);
      && r.Ok?
      && (r.value.None? <==> log == map[])
      && (r.value.Some? ==> exists e :: e in log.Values && e.version == r.value.value)
      && (r.value.Some? ==> forall e :: e in log.Values ==> e.version <= r.value.value)
  {
    StreamKeysFromLog(table, log);
    if StreamKeys(table) != {} {
      LastVersionOfLog(table, log);
    } else {
      assert log.Keys == {};
    }
  }

  /** On a non-empty stored log, fetchLastVersion returns the version in the
      greatest slot, which is the highest logged version. */
  lemma LastVersionOfLog(table: Table, log: map<Key, Entity>)
    requires Stores(table, log) && InOwnSlots(log)
    requires forall k :: k in log ==> log[k].version >= 0
    requires forall k :: k in StreamKeys(table) <==> (Partition, k) in log
    requires StreamKeys(table) != {}
    ensures exists e ::
      && e in log.Values
      && LastVersionResult(table) == Ok(Some(e.version))
      && (forall x :: x in log.Values ==> x.version <= e.version)
  {
    var sk := Greatest(StreamKeys(table));
    var top := log[(Partition, sk)];
    assert LastVersionResult(table) == Ok(Some(top.version)) by {
      StoredKeyVersion(table, log, (Partition, sk));
    }
    GreatestKeyHighest(log, sk);
    assert top in log.Values;
  }

  /** Putting an entity's item into its free slot keeps the table and the
      log in step. */
  lemma StoresPut(table: Table, log: map<Key, Entity>, e: Entity)
    requires Stores(table, log) && InOwnSlots(log) && KeyOf(e) !in table
    ensures Stores(table[KeyOf(e) := EncodeItem(e)], log[KeyOf(e) := e])
    ensures InOwnSlots(log[KeyOf(e) := e])
  {
  }

  /** The state of the range query after reading the keys `done`: they are
      the start of the listing of `all`, the keys still `remaining` are the
      rest of it, and their items decoded to `entities`. */
  ghost predicate Progress(table: Table, all: set<string>, done: seq<string>,
                           remaining: set<string>, entities: seq<Entity>)
  {
    && (forall k :: k in all ==> (Partition, k) in table)
    && remaining <= all && (forall k :: k in done ==> k in all)
    && done + Ascending(remaining) == Ascending(all)
    && DecodeAll(table, done) == Ok(entities)
  }

  /** One step of the range query: the least remaining key is next in the
      listing; decoding its item either extends the decoded prefix or is the
      error the whole query throws. */
  lemma FetchStep(table: Table, all: set<string>, done: seq<string>, remaining: set<string>,
                  m: string, entities: seq<Entity>)
    requires Progress(table, all, done, remaining, entities)
    requires IsLeast(m, remaining)
    ensures var d := DecodeItem(table[(Partition, m)]);
      && (d.Err? ==> DecodeAll(table, Ascending(all)) == Err(d.error))
      && (d.Ok? ==> Progress(table, all, done + [m], remaining - {m}, entities + [d.value]))
  {
    var rest := Ascending(remaining - {m});
    assert done + [m] + rest == done + ([m] + rest);
    AscendingFirst(remaining, m);
    DecodeAllSnoc(table, done, m);
    if DecodeItem(table[(Partition, m)]).Err? {
      DecodeAllErr(table, done + [m], rest);
    }
  }

  /** The query starts with nothing read. */
  lemma FetchStart(table: Table, all: set<string>)
    requires forall k :: k in all ==> (Partition, k) in table
    ensures Progress(table, all, [], all, [])
  {
    assert [] + Ascending(all) == Ascending(all);
  }

  /** The query ends with the whole listing read. */
  lemma FetchEnd(table: Table, all: set<string>, done: seq<string>, entities: seq<Entity>)
    requires Progress(table, all, done, {}, entities)
    ensures DecodeAll(table, Ascending(all)) == Ok(entities)
  {
    assert Ascending({}) == [] && done + [] == done;
  }

  class VersionRepository {
    /** The DynamoDB table. */
    var table: Table
    /** The entity each successful append put in its slot. */
    ghost var log: map<Key, Entity>

    ghost predicate Valid()
      reads this
    {
      InOwnSlots(log) && Stores(table, log)
    }

    /** A repository over a fresh, empty table. */
    constructor ()
      ensures Valid() && table == map[] && log == map[]
    {
      table := map[];
      log := map[];
    }

    /** `append`: a conditional put of the entity's item into its slot; on an
        occupied slot the put fails and nothing changes. */
    method Append(e: Entity) returns (r: Result<(), PutError>)
      requires Valid()
      modifies this
      ensures Valid()
      ensures r.Ok? <==> KeyOf(e) !in old(table)
      ensures r.Ok? ==> table == old(table)[KeyOf(e) := EncodeItem(e)] && log == old(log)[KeyOf(e) := e]
      ensures r.Err? ==> table == old(table) && log == old(log)
    {
      var item := EncodeItem(e);
      var put := ConditionalPut(table, KeyOf(e), item);
      if put.Err? {
        return Err(put.error);
      }
      StoresPut(table, log, e);
      assert put.value == table[KeyOf(e) := item];
      table := put.value;
      log := log[KeyOf(e) := e];
      r := Ok(());
    }

    /** `fetchAll`: the range query from "stream-" + sortableInt(start),
        read in ascending key order, each item decoded in turn. */
    method FetchAll(start: Int32) returns (r: Result<seq<Entity>, DecodeError>)
      ensures r == FetchAllResult(table, start)
    {
      var remaining := Selected(table, StreamKey(start));
      ghost var all := remaining;
      ghost var done: seq<string> := [];
      var entities: seq<Entity> := [];
      FetchStart(table, all);
      while remaining != {}
        invariant Progress(table, all, done, remaining, entities)
        decreases |remaining|
      {
        LeastExists(remaining);
        var m :| IsLeast(m, remaining);
        var d := DecodeItem(table[(Partition, m)]);
        FetchStep(table, all, done, remaining, m, entities);
        if d.Err? {
          return Err(d.error);
        }
        entities := entities + [d.value];
        done := done + [m];
        remaining := remaining - {m};
      }
      FetchEnd(table, all, done, entities);
      r := Ok(entities);
    }

    /** `fetchLastVersion`: the item with the greatest stream key, if any, and
        the version parsed from its sort key. */
    method FetchLastVersion() returns (r: Result<Option<Int32>, DecodeError>)
      ensures r == LastVersionResult(table)
    {
      var remaining := StreamKeys(table);
      ghost var all := remaining;
      var best: Option<string> := None;
      while remaining != {}
        invariant remaining <= all
        invariant best.None? <==> remaining == all
        invariant best.Some? ==> IsGreatest(best.value, all - remaining)
        decreases |remaining|
      {
        var k :| k in remaining;
        if best.None? || LexLess(best.value, k) {
          if best.Some? {
            forall x | x in all - (remaining - {k}) ensures !LexLess(k, x) {
              if x == k {
                LexLessIrreflexive(k);
              } else if LexLess(k, x) {
                LexLessTransitive(best.value, k, x);
              }
            }
          } else {
            LexLessIrreflexive(k);
            assert all - (remaining - {k}) == {k};
          }
          best := Some(k);
        } else {
          LexLessTotal(best.value, k);
        }
        remaining := remaining - {k};
      }
      if best.None? {
        return Ok(None);
      }
      GreatestUnique(best.value, Greatest(all), all);
      var v :- KeyVersion(table[(Partition, best.value)]);
      r := Ok(Some(v));
    }
  }
}
