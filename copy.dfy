/** The production-to-development copy tool (CopyPrdToDev.kt): both tables'
    items keyed by (pk, sk), zipped over the union of their keys, and the
    rule that deletes what only the development table holds and puts every
    production item the development table lacks or holds differently. */
module Reconcile {
  import opened Wrappers
  import opened Items

  /** The (pk, sk) attribute pair that identifies an item. */
  type Key = (AttributeValue, AttributeValue)

  /** The lookup of a Kotlin map: null when the key is absent. */
  function Get<K, V>(m: map<K, V>, k: K): (r: Option<V>)
    ensures r.Some? <==> k in m
    ensures r.Some? ==> r.value == m[k]
  {
    if k in m then Some(m[k]) else None
  }

  /** it["pk"]!! to it["sk"]!!: the key of a scanned item; a missing
      attribute is the NullPointerException of `!!`. */
  function KeyOf(item: Item): (r: Result<Key, DecodeError>)
    ensures r.Ok? <==> "pk" in item && "sk" in item
    ensures r.Ok? ==> r.value == (item["pk"], item["sk"])
  {
    if "pk" !in item then Err(MissingAttribute("pk"))
    else if "sk" !in item then Err(MissingAttribute("sk"))
    else Ok((item["pk"], item["sk"]))
  }

  /** associateBy: the scanned items keyed by (pk, sk), a later item
      replacing an earlier one with the same key. */
  function AssociateBy(items: seq<Item>): (r: Result<map<Key, Item>, DecodeError>)
  {
    if items == [] then Ok(map[])
    else
      var m :- AssociateBy(items[..|items| - 1]);
      var k :- KeyOf(items[|items| - 1]);
      Ok(m[k := items[|items| - 1]])
  }

  /** Item i is the last one among the items with key k. */
  predicate LastWithKey(items: seq<Item>, k: Key, i: int)
  {
    && 0 <= i < |items| && KeyOf(items[i]) == Ok(k)
    && forall j :: i < j < |items| ==> KeyOf(items[j]) != Ok(k)
  }

  /** Keying fails exactly when some item lacks pk or sk. */
  lemma {:induction false} AssociateByFails(items: seq<Item>)
    ensures AssociateBy(items).Ok? <==> forall i :: 0 <= i < |items| ==> KeyOf(items[i]).Ok?
  {
    if items != [] {
      var n := |items| - 1;
      AssociateByFails(items[..n]);
      assert forall i :: 0 <= i < n ==> items[i] == items[..n][i];
    }
  }

  /** Otherwise it has a key for every item, and no other. */
  lemma {:induction false} AssociateByKeys(items: seq<Item>)
    requires AssociateBy(items).Ok?
    ensures forall k :: k in AssociateBy(items).value <==> exists i :: 0 <= i < |items| && KeyOf(items[i]) == Ok(k)
  {
    if items != [] {
      var n := |items| - 1;
      var front := items[..n];
      AssociateByKeys(front);
      forall k | k in AssociateBy(items).value ensures exists i :: 0 <= i < |items| && KeyOf(items[i]) == Ok(k) {
        if k in AssociateBy(front).value {
          var i :| 0 <= i < n && KeyOf(front[i]) == Ok(k);
          assert KeyOf(items[i]) == Ok(k);
        } else {
          assert KeyOf(items[n]) == Ok(k);
        }
      }
      forall k, i | 0 <= i < |items| && KeyOf(items[i]) == Ok(k) ensures k in AssociateBy(items).value {
        if i < n { assert KeyOf(front[i]) == Ok(k); }
      }
    }
  }

  /** The later item wins: each key maps to the last item carrying it. */
  lemma {:induction false} AssociateByLastWins(items: seq<Item>, k: Key, i: int)
    requires AssociateBy(items).Ok? && LastWithKey(items, k, i)
    ensures k in AssociateBy(items).value && AssociateBy(items).value[k] == items[i]
  {
    var n := |items| - 1;
    if i < n {
      assert LastWithKey(items[..n], k, i);
      AssociateByLastWins(items[..n], k, i);
    }
  }

  /** zip: every key of either map, with the pair of lookups. */
  function Zip<K, A, B>(m1: map<K, A>, m2: map<K, B>): (r: map<K, (Option<A>, Option<B>)>)
    ensures r.Keys == m1.Keys + m2.Keys
    ensures forall k :: k in r ==> r[k] == (Get(m1, k), Get(m2, k))
  {
    map k | k in m1.Keys + m2.Keys :: (Get(m1, k), Get(m2, k))
  }

  /** What main does for one key of the zipped tables. */
  datatype Action = Delete | Put(item: Item)

  /** The rule of main: delete when only dev holds the key, put prd's item
      when prd holds one that differs from dev's, and nothing otherwise. */
  function Decide(d: Option<Item>, p: Option<Item>): Option<Action>
  {
    if d.Some? && p.None? then Some(Delete)
    else if p.Some? && p != d then Some(Put(p.value))
    else None
  }

  /** The actions main issues, per key of zip(dev, prd). */
  function Plan(dev: map<Key, Item>, prd: map<Key, Item>): map<Key, Action>
  {
    var zipped := Zip(dev, prd);
    map k | k in zipped && Decide(zipped[k].0, zipped[k].1).Some? :: Decide(zipped[k].0, zipped[k].1).value
  }

  /** A delete is issued exactly for the keys only dev holds. */
  lemma PlanDeletes(dev: map<Key, Item>, prd: map<Key, Item>)
    ensures forall k :: (k in Plan(dev, prd) && Plan(dev, prd)[k] == Delete) <==> k in dev && k !in prd
  {
  }

  /** A put of prd's item is issued exactly where prd holds an item that dev
      lacks or holds differently. */
  lemma PlanPuts(dev: map<Key, Item>, prd: map<Key, Item>)
    ensures forall k :: (k in Plan(dev, prd) && Plan(dev, prd)[k].Put?) <==> k in prd && (k !in dev || dev[k] != prd[k])
    ensures forall k :: k in Plan(dev, prd) && Plan(dev, prd)[k].Put? ==> Plan(dev, prd)[k].item == prd[k]
  {
  }

  /** Keys whose items already agree, and keys neither table holds, get no
      action. */
  lemma PlanSkipsEqual(dev: map<Key, Item>, prd: map<Key, Item>)
    ensures forall k :: k !in Plan(dev, prd) <==> Get(dev, k) == Get(prd, k)
  {
  }

  /** Carrying out one decision on the dev table. */
  function Perform(table: map<Key, Item>, k: Key, action: Option<Action>): map<Key, Item>
  {
    match action
    case None => table
    case Some(Delete) => table - {k}
    case Some(Put(item)) => table[k := item]
  }

  /** What the loop has achieved: keys already visited hold prd's item, the
      others still hold dev's. */
  ghost predicate Synced(table: map<Key, Item>, dev: map<Key, Item>, prd: map<Key, Item>, remaining: set<Key>)
  {
    && (forall k :: k in table ==> k in dev || k in prd)
    && (forall k :: k !in remaining ==> Get(table, k) == Get(prd, k))
    && (forall k :: k in remaining ==> Get(table, k) == Get(dev, k))
  }

  lemma SyncStep(table: map<Key, Item>, dev: map<Key, Item>, prd: map<Key, Item>, remaining: set<Key>, k: Key)
    requires Synced(table, dev, prd, remaining) && k in remaining
    ensures Synced(Perform(table, k, Decide(Get(dev, k), Get(prd, k))), dev, prd, remaining - {k})
  {
    var next := Perform(table, k, Decide(Get(dev, k), Get(prd, k)));
    assert Get(next, k) == Get(prd, k);
    forall j | j != k ensures Get(next, j) == Get(table, j) {
    }
  }

  /** The actions issued so far: the plan's actions for the visited keys. */
  ghost predicate IssuedSoFar(issued: map<Key, Action>, dev: map<Key, Item>, prd: map<Key, Item>, remaining: set<Key>)
  {
    forall k :: Get(issued, k) == if k in remaining then None else Get(Plan(dev, prd), k)
  }

  lemma IssueStep(issued: map<Key, Action>, dev: map<Key, Item>, prd: map<Key, Item>, remaining: set<Key>, k: Key)
    requires IssuedSoFar(issued, dev, prd, remaining) && k in remaining
    ensures var action := Decide(Get(dev, k), Get(prd, k));
            IssuedSoFar(if action.Some? then issued[k := action.value] else issued, dev, prd, remaining - {k})
  {
    var action := Decide(Get(dev, k), Get(prd, k));
    var next := if action.Some? then issued[k := action.value] else issued;
    assert Get(next, k) == Get(Plan(dev, prd), k);
    forall j | j != k ensures Get(next, j) == Get(issued, j) {
    }
  }

  /** main: walks the zipped keys and deletes or puts on the dev table. It
      issues exactly the plan's actions, and the dev table ends up equal to
      the prd table. */
  method Sync(dev: map<Key, Item>, prd: map<Key, Item>) returns (table: map<Key, Item>, issued: map<Key, Action>)
    ensures issued == Plan(dev, prd)
    ensures table == prd
  {
    var zipped := Zip(dev, prd);
    table := dev;
    issued := map[];
    var remaining := zipped.Keys;
    while remaining != {}
      invariant Synced(table, dev, prd, remaining)
      invariant IssuedSoFar(issued, dev, prd, remaining)
      decreases remaining
    {
      var k :| k in remaining;
      SyncStep(table, dev, prd, remaining, k);
      IssueStep(issued, dev, prd, remaining, k);
      var (d, p) := zipped[k];
      var action := Decide(d, p);
      table := Perform(table, k, action);
      if action.Some? {
        issued := issued[k := action.value];
      }
      remaining := remaining - {k};
    }
    forall k | k in table || k in prd ensures k in table && k in prd && table[k] == prd[k] {
      assert Get(table, k) == Get(prd, k);
    }
    forall k | k in issued || k in Plan(dev, prd) ensures k in issued && k in Plan(dev, prd) && issued[k] == Plan(dev, prd)[k] {
      assert Get(issued, k) == Get(Plan(dev, prd), k);
    }
  }
}
