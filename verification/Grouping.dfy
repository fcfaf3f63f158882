/** The `HashMap<K, HashSet<V>>` indexes of the pool: a set of values bucketed by a key. */
module Grouping {

  /** `m` buckets exactly the values of `s` by `key`, and keeps no empty bucket. */
  ghost predicate IsGrouping<K, V>(m: map<K, set<V>>, key: V -> K, s: set<V>) {
    && (forall k | k in m :: m[k] != {})
    && (forall k, v | k in m && v in m[k] :: v in s && key(v) == k)
    && (forall v | v in s :: key(v) in m && v in m[key(v)])
  }

  /** The grouping of a set. */
  ghost function GroupBy<K(!new), V>(key: V -> K, s: set<V>): map<K, set<V>> {
    map k | k in KeysOf(key, s) :: set v | v in s && key(v) == k
  }

  ghost function KeysOf<K, V>(key: V -> K, s: set<V>): set<K> {
    set v | v in s :: key(v)
  }

  lemma GroupByIsGrouping<K(!new), V>(key: V -> K, s: set<V>)
    ensures IsGrouping(GroupBy(key, s), key, s)
  {
    var m := GroupBy(key, s);
    forall k | k in m ensures m[k] != {} {
      var v :| v in s && key(v) == k;
      assert v in m[k];
    }
  }

  /** A set has only one grouping, so an index is determined by what it indexes. */
  lemma GroupingUnique<K, V(!new)>(m: map<K, set<V>>, n: map<K, set<V>>, key: V -> K, s: set<V>)
    requires IsGrouping(m, key, s) && IsGrouping(n, key, s)
    ensures m == n
  {
    BucketsAgree(m, n, key, s);
    BucketsAgree(n, m, key, s);
  }

  lemma BucketsAgree<K, V(!new)>(m: map<K, set<V>>, n: map<K, set<V>>, key: V -> K, s: set<V>)
    requires IsGrouping(m, key, s) && IsGrouping(n, key, s)
    ensures forall k | k in m :: k in n && m[k] == n[k]
  {
    forall k | k in m ensures k in n && m[k] == n[k] {
      var v :| v in m[k];
      assert v in s && key(v) == k;
      assert k in n;
      forall w ensures w in m[k] <==> w in n[k] {
        assert w in m[k] ==> w in s && key(w) == k;
        assert w in n[k] ==> w in s && key(w) == k;
      }
    }
  }

  /** Inserting into the bucket of its key adds exactly that value to what is indexed. */
  method MapSetInsert<K(==,!new), V(==,!new)>(m: map<K, set<V>>, k: K, v: V, ghost key: V -> K, ghost s: set<V>)
      returns (n: map<K, set<V>>)
    requires m == GroupBy(key, s) && k == key(v)
    ensures n == GroupBy(key, s + {v})
  {
    GroupByIsGrouping(key, s);
    var bucket := if k in m then m[k] else {};
    n := m[k := bucket + {v}];
    GroupByIsGrouping(key, s + {v});
    GroupingUnique(n, GroupBy(key, s + {v}), key, s + {v});
  }

  /** Removing from the bucket of its key, and closing the bucket when it becomes empty. */
  method MapSetRemove<K(==,!new), V(==,!new)>(m: map<K, set<V>>, k: K, v: V, ghost key: V -> K, ghost s: set<V>)
      returns (n: map<K, set<V>>)
    requires m == GroupBy(key, s) && k == key(v)
    ensures n == GroupBy(key, s - {v})
  {
    if k !in m {
      assert s - {v} == s;
      return m;
    }
    GroupByIsGrouping(key, s);
    var bucket := m[k] - {v};
    n := if bucket == {} then m - {k} else m[k := bucket];
    forall w | w in s - {v} ensures key(w) in n && w in n[key(w)] {
      if key(w) == k {
        assert w in bucket;
      }
    }
    GroupByIsGrouping(key, s - {v});
    GroupingUnique(n, GroupBy(key, s - {v}), key, s - {v});
  }
}
