/** The ascending listing of a finite set of sort keys: what an ordered range
    query over a DynamoDB partition returns, given as a specification. */
module Listing {
  import opened Codec

  predicate StrictlyAscending(s: seq<string>)
  {
    forall i, j :: 0 <= i < j < |s| ==> LexLess(s[i], s[j])
  }

  predicate IsLeast(m: string, keys: set<string>)
  {
    m in keys && forall k :: k in keys ==> !LexLess(k, m)
  }

  predicate IsGreatest(m: string, keys: set<string>)
  {
    m in keys && forall k :: k in keys ==> !LexLess(m, k)
  }

  lemma {:induction false} LeastExists(keys: set<string>)
    requires keys != {}
    ensures exists m :: IsLeast(m, keys)
    decreases |keys|
  {
    var x :| x in keys;
    LexLessIrreflexive(x);
    if keys != {x} {
      LeastExists(keys - {x});
      var m :| IsLeast(m, keys - {x});
      if LexLess(x, m) {
        forall k | k in keys ensures !LexLess(k, x) {
          if k != x && LexLess(k, x) {
            LexLessTransitive(k, x, m);
          }
        }
        assert IsLeast(x, keys);
      } else {
        assert IsLeast(m, keys);
      }
    } else {
      assert IsLeast(x, keys);
    }
  }

  lemma {:induction false} GreatestExists(keys: set<string>)
    requires keys != {}
    ensures exists m :: IsGreatest(m, keys)
    decreases |keys|
  {
    var x :| x in keys;
    LexLessIrreflexive(x);
    if keys != {x} {
      GreatestExists(keys - {x});
      var m :| IsGreatest(m, keys - {x});
      if LexLess(m, x) {
        forall k | k in keys ensures !LexLess(x, k) {
          if k != x && LexLess(x, k) {
            LexLessTransitive(m, x, k);
          }
        }
        assert IsGreatest(x, keys);
      } else {
        assert IsGreatest(m, keys);
      }
    } else {
      assert IsGreatest(x, keys);
    }
  }

  /** The greatest key of a non-empty set. */
  ghost function Greatest(keys: set<string>): (m: string)
    requires keys != {}
    ensures IsGreatest(m, keys)
  {
    GreatestExists(keys);
    var m :| IsGreatest(m, keys);
    m
  }

  lemma LeastBelowOthers(m: string, keys: set<string>)
    requires IsLeast(m, keys)
    ensures forall k :: k in keys && k != m ==> LexLess(m, k)
  {
    forall k | k in keys && k != m ensures LexLess(m, k) {
      LexLessTotal(m, k);
    }
  }

  lemma LeastUnique(a: string, b: string, keys: set<string>)
    requires IsLeast(a, keys) && IsLeast(b, keys)
    ensures a == b
  {
    if a != b { LexLessTotal(a, b); }
  }

  lemma GreatestUnique(a: string, b: string, keys: set<string>)
    requires IsGreatest(a, keys) && IsGreatest(b, keys)
    ensures a == b
  {
    if a != b { LexLessTotal(a, b); }
  }

  /** The keys of a set in ascending order. */
  ghost function Ascending(keys: set<string>): (r: seq<string>)
    ensures StrictlyAscending(r)
    ensures forall k :: k in r <==> k in keys
    ensures |r| == |keys|
    decreases |keys|
  {
    if keys == {} then []
    else
      LeastExists(keys);
      var m :| IsLeast(m, keys);
      LeastBelowOthers(m, keys);
      [m] + Ascending(keys - {m})
  }

  /** The listing starts with the least key. */
  lemma AscendingFirst(keys: set<string>, m: string)
    requires IsLeast(m, keys)
    ensures Ascending(keys) == [m] + Ascending(keys - {m})
  {
    var r := Ascending(keys);
    assert r[0] in keys;
    forall k | k in keys ensures !LexLess(k, r[0]) {
      if k != r[0] {
        var j :| 0 <= j < |r| && r[j] == k;
        LexLessAsymmetric(r[0], r[j]);
      } else {
        LexLessIrreflexive(k);
      }
    }
    LeastUnique(r[0], m, keys);
  }
}
