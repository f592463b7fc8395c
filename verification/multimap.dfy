/** The `MultiMap` of `lab2/algos/multimap.py`: a `defaultdict(set)` from
    keys to sets of values.

    `insert(key, value)` adds the value to the key's set, creating an empty
    set first if the key is new.  `search(key)` returns the key's set; being
    a `defaultdict` lookup, it also creates an empty entry for a new key.
    Python returns the stored set object itself; the model returns its
    contents.
 */
module MultiMap {

  type MultiMap<K, V> = map<K, set<V>>

  /** `MultiMap()` */
  function Empty<K(!new), V(!new)>(): (m: MultiMap<K, V>)
    ensures forall k :: Values(m, k) == {}
  {
    map[]
  }

  /** The set a lookup of `k` sees: the stored set, or the default empty one. */
  function Values<K(!new), V(!new)>(m: MultiMap<K, V>, k: K): set<V> {
    if k in m then m[k] else {}
  }

  /** `insert(key, value)`: the key is present afterwards, its set has gained
      the value, and every other key is untouched. */
  function Insert<K(!new), V(!new)>(m: MultiMap<K, V>, k: K, v: V): (r: MultiMap<K, V>)
    ensures r.Keys == m.Keys + {k}
    ensures Values(r, k) == Values(m, k) + {v}
    ensures forall k' :: k' != k ==> Values(r, k') == Values(m, k')
  {
    m[k := Values(m, k) + {v}]
  }

  /** `search(key)`: the key's values; the map afterwards has the key (with
      an empty set if it was missing) and otherwise the same contents. */
  function Search<K(!new), V(!new)>(m: MultiMap<K, V>, k: K): (r: (MultiMap<K, V>, set<V>))
    ensures r.1 == Values(m, k)
    ensures r.0.Keys == m.Keys + {k}
    ensures forall k' :: Values(r.0, k') == Values(m, k')
  {
    if k in m then (m, m[k]) else (m[k := {}], {})
  }

  /** The (key, value) pairs the multimap holds. */
  ghost function Pairs<K(!new), V(!new)>(m: MultiMap<K, V>): set<(K, V)> {
    set k, v | k in m && v in m[k] :: (k, v)
  }

  /** `insert` adds exactly the one pair, and `search` none. */
  lemma InsertAddsPair<K(!new), V(!new)>(m: MultiMap<K, V>, k: K, v: V)
    ensures Pairs(Insert(m, k, v)) == Pairs(m) + {(k, v)}
    ensures Pairs(Search(m, k).0) == Pairs(m)
  {
    var r := Insert(m, k, v);
    forall p | p in Pairs(r) ensures p in Pairs(m) + {(k, v)} {
      var k', v' := p.0, p.1;
      assert k' in r && v' in r[k'];
      if k' != k {
        assert v' in Values(m, k');
      }
    }
  }

  /** Inserting a pair that is already there changes nothing visible, and two
      inserts can be done in either order. */
  lemma InsertIdempotentCommutes<K(!new), V(!new)>(m: MultiMap<K, V>, k: K, v: V, k2: K, v2: V)
    ensures Insert(Insert(m, k, v), k, v) == Insert(m, k, v)
    ensures Insert(Insert(m, k, v), k2, v2) == Insert(Insert(m, k2, v2), k, v)
  {
    var a, b := Insert(Insert(m, k, v), k2, v2), Insert(Insert(m, k2, v2), k, v);
    assert a.Keys == b.Keys;
    forall k' | k' in a ensures a[k'] == b[k'] {
      assert a[k'] == Values(a, k') && b[k'] == Values(b, k');
    }
  }

  /** Round trip: after inserting the pairs of `xs` into an empty multimap, a
      search for `q` returns exactly the values inserted under `q`. */
  lemma {:induction false} SearchAfterInserts<K(!new), V(!new)>(m: MultiMap<K, V>, xs: seq<(K, V)>, q: K)
    ensures Search(InsertAll(m, xs), q).1 == Values(m, q) + (set i | 0 <= i < |xs| && xs[i].0 == q :: xs[i].1)
    decreases |xs|
  {
    if |xs| > 0 {
      SearchAfterInserts(Insert(m, xs[0].0, xs[0].1), xs[1..], q);
      var rest := set i | 0 <= i < |xs[1..]| && xs[1..][i].0 == q :: xs[1..][i].1;
      var all := set i | 0 <= i < |xs| && xs[i].0 == q :: xs[i].1;
      assert all == (if xs[0].0 == q then {xs[0].1} else {}) + rest by {
        forall x | x in all ensures x in (if xs[0].0 == q then {xs[0].1} else {}) + rest {
          var i :| 0 <= i < |xs| && xs[i].0 == q && xs[i].1 == x;
          if i > 0 {
            assert xs[1..][i - 1] == xs[i];
          }
        }
        forall x | x in rest ensures x in all {
          var i :| 0 <= i < |xs[1..]| && xs[1..][i].0 == q && xs[1..][i].1 == x;
          assert xs[i + 1] == xs[1..][i];
        }
      }
    }
  }

  function InsertAll<K(!new), V(!new)>(m: MultiMap<K, V>, xs: seq<(K, V)>): MultiMap<K, V>
    decreases |xs|
  {
    if |xs| == 0 then m else InsertAll(Insert(m, xs[0].0, xs[0].1), xs[1..])
  }
}
