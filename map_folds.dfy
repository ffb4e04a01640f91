/**
 * Folds over the ordered maps (`BTreeMap<_, i32>`) of the exposure calculator:
 * the smallest and largest key, the sum of the values, the positive values and
 * their maximum. Keys are visited in ascending order, as a `BTreeMap` iterates.
 */
module MapFolds {
  import opened Wrappers

  /** `*m.get(&k).unwrap_or(&0)` */
  function Get(m: map<nat, int>, k: nat): int {
    if k in m then m[k] else 0
  }

  /** A set that is not empty has an element. */
  lemma NonEmpty(s: set<int>)
    requires s != {}
    ensures exists x :: x in s
  {
    if forall x :: x !in s {
      assert false;
    }
  }

  lemma {:induction false} MinExists(s: set<int>)
    requires s != {}
    ensures exists k :: k in s && forall j :: j in s ==> k <= j
  {
    NonEmpty(s);
    var x :| x in s;
    if s != {x} {
      var rest := s - {x};
      MinExists(rest);
      var k :| k in rest && forall j :: j in rest ==> k <= j;
      if x < k {
        forall j | j in s ensures x <= j {
          if j != x { assert j in rest; }
        }
      } else {
        forall j | j in s ensures k <= j {
          if j != x { assert j in rest; }
        }
      }
    }
  }

  lemma {:induction false} MaxExists(s: set<int>)
    requires s != {}
    ensures exists k :: k in s && forall j :: j in s ==> j <= k
  {
    NonEmpty(s);
    var x :| x in s;
    if s != {x} {
      var rest := s - {x};
      MaxExists(rest);
      var k :| k in rest && forall j :: j in rest ==> j <= k;
      if k < x {
        forall j | j in s ensures j <= x {
          if j != x { assert j in rest; }
        }
      } else {
        forall j | j in s ensures j <= k {
          if j != x { assert j in rest; }
        }
      }
    }
  }

  /** The first key a `BTreeMap` iteration visits: `keys().next()`. */
  function SetMin(s: set<int>): (k: int)
    requires s != {}
    ensures k in s && forall j :: j in s ==> k <= j
  {
    MinExists(s);
    var k :| k in s && forall j :: j in s ==> k <= j; k
  }

  /** The last key: `keys().rev().next()`. */
  function SetMax(s: set<int>): (k: int)
    requires s != {}
    ensures k in s && forall j :: j in s ==> j <= k
  {
    MaxExists(s);
    var k :| k in s && forall j :: j in s ==> j <= k; k
  }

  /** `m.values().sum()`, adding the values in ascending key order. */
  function Sum(m: map<nat, int>): int
    decreases m.Keys
  {
    if m == map[] then 0
    else
      var k := SetMin(m.Keys);
      m[k] + Sum(m - {k})
  }

  /** Any key can be taken out of the sum first: the order of the fold does not matter. */
  lemma {:induction false} SumRemove(m: map<nat, int>, k: nat)
    requires k in m
    ensures Sum(m) == m[k] + Sum(m - {k})
    decreases m.Keys
  {
    var j := SetMin(m.Keys);
    if j != k {
      SumRemove(m - {j}, k);
      SumRemove(m - {k}, j);
      assert m - {j} - {k} == m - {k} - {j};
    }
  }

  /** Changing one entry changes the sum by the difference: the basis of incremental updates. */
  lemma SumUpdate(m: map<nat, int>, k: nat, v: int)
    ensures Sum(m[k := v]) == Sum(m) - Get(m, k) + v
  {
    SumRemove(m[k := v], k);
    assert m[k := v] - {k} == m - {k};
    if k in m {
      SumRemove(m, k);
    } else {
      assert m - {k} == m;
    }
  }

  /** `m.values().filter(|x| x.is_positive())`, keeping the keys. */
  function Positive(m: map<nat, int>): (r: map<nat, int>)
    ensures forall k :: k in r <==> k in m && m[k] > 0
    ensures forall k :: k in r ==> r[k] == m[k]
  {
    map k | k in m && m[k] > 0 :: m[k]
  }

  /**
   * Keeping only the positive values never lowers the sum, and that sum is
   * never negative.
   */
  lemma {:induction false} SumPositiveBounds(m: map<nat, int>)
    ensures 0 <= Sum(Positive(m))
    ensures Sum(m) <= Sum(Positive(m))
    decreases m.Keys
  {
    if m != map[] {
      var k := SetMin(m.Keys);
      var rest := m - {k};
      SumPositiveBounds(rest);
      SumRemove(m, k);
      if m[k] > 0 {
        SumRemove(Positive(m), k);
        assert Positive(m) - {k} == Positive(rest);
      } else {
        assert Positive(m) == Positive(rest);
      }
    }
  }

  /**
   * Changing one entry changes the sum of the positive values by the
   * difference of the entry's positive parts.
   */
  lemma SumPositiveUpdate(m: map<nat, int>, k: nat, v: int)
    ensures Sum(Positive(m[k := v]))
            == Sum(Positive(m)) - (if Get(m, k) > 0 then Get(m, k) else 0) + (if v > 0 then v else 0)
  {
    var p := Positive(m);
    if v > 0 {
      assert Positive(m[k := v]) == p[k := v];
      SumUpdate(p, k, v);
    } else {
      assert Positive(m[k := v]) == p - {k};
      if k in p {
        SumRemove(p, k);
      } else {
        assert p - {k} == p;
      }
    }
  }

  /** `m.values().max()`: `None` on an empty map. */
  function MaxValue(m: map<nat, int>): Option<int>
    decreases m.Keys
  {
    if m == map[] then None
    else
      var k := SetMin(m.Keys);
      var rest := MaxValue(m - {k});
      if rest.None? || rest.value < m[k] then Some(m[k]) else rest
  }

  /** `MaxValue` is the largest value of the map, and there is one exactly
    * when the map is not empty. */
  lemma {:induction false} MaxValueIsMax(m: map<nat, int>)
    ensures MaxValue(m).None? <==> m == map[]
    ensures MaxValue(m).Some? ==>
              (exists k :: k in m && m[k] == MaxValue(m).value) && forall k :: k in m ==> m[k] <= MaxValue(m).value
    decreases m.Keys
  {
    if m != map[] {
      var k := SetMin(m.Keys);
      MaxValueIsMax(m - {k});
      assert forall j :: j in m ==> j == k || j in m - {k};
    }
  }

}
