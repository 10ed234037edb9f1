/** Optional values, and totals over finite maps. */
module Basics {

  datatype Option<+T> = None | Some(value: T)

  /** The sum of a map's values. */
  ghost function Total<K(!new)>(m: map<K, int>): (n: int)
    decreases |m|
  {
    if m == map[] then 0
    else
      var k :| k in m;
      m[k] + Total(m - {k})
  }

  /** The order in which keys are visited does not matter. */
  lemma {:induction false} TotalSplit<K(!new)>(m: map<K, int>, k: K)
    requires k in m
    ensures Total(m) == m[k] + Total(m - {k})
    decreases |m|
  {
    var first :| first in m && Total(m) == m[first] + Total(m - {first});
    if first != k {
      TotalSplit(m - {first}, k);
      TotalSplit(m - {k}, first);
      assert m - {first} - {k} == m - {k} - {first};
    }
  }

  lemma TotalPut<K(!new)>(m: map<K, int>, k: K, v: int)
    ensures Total(m[k := v]) == Total(m) + v - (if k in m then m[k] else 0)
  {
    var n := m[k := v];
    TotalSplit(n, k);
    assert n - {k} == m - {k};
    if k in m {
      TotalSplit(m, k);
    } else {
      assert m - {k} == m;
    }
  }

  /** The part of a map whose keys lie in a set. */
  ghost function Only<K(!new), V>(m: map<K, V>, keys: set<K>): (r: map<K, V>) {
    map k | k in m && k in keys :: m[k]
  }

  lemma OnlyWithout<K(!new), V>(m: map<K, V>, keys: set<K>, k: K)
    requires k in m && k in keys
    ensures Only(m, keys) - {k} == Only(m - {k}, keys)
    ensures m - {k} - keys == m - keys
  {
  }

  lemma {:induction false} TotalPartition<K(!new)>(m: map<K, int>, keys: set<K>)
    ensures Total(m) == Total(Only(m, keys)) + Total(m - keys)
    decreases |m|
  {
    var inside := Only(m, keys);
    if inside == map[] {
      forall k | k in m ensures k !in keys {
        assert k in keys ==> k in inside;
      }
      assert (m - keys).Keys == m.Keys;
      assert m - keys == m;
    } else {
      var k :| k in inside;
      OnlyWithout(m, keys, k);
      TotalSplit(m, k);
      TotalSplit(inside, k);
      TotalPartition(m - {k}, keys);
    }
  }

  lemma {:induction false} TotalZero<K(!new)>(m: map<K, int>)
    requires forall k :: k in m ==> m[k] == 0
    ensures Total(m) == 0
    decreases |m|
  {
    if m != map[] {
      var k :| k in m;
      TotalSplit(m, k);
      TotalZero(m - {k});
    }
  }

  /** The value of a usage counter that starts at zero. */
  function Count<K>(m: map<K, int>, k: K): (n: int) {
    if k in m then m[k] else 0
  }
}
