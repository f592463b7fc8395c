/** The chained hash table of `lab2/algos/hash.py`.

    `HashTable(size)` holds `size` buckets (Python's `range(size)` makes none
    when `size` is zero or negative).  A key goes to bucket
    `hash(key) % size`, with Python's floor modulo; `insert` appends the pair
    to that bucket and `search` returns the value of the first pair in it
    whose key equals the searched key, or `None`.  Python's `hash` is salted
    per process for strings, so it is a parameter here.  A zero size raises
    `ZeroDivisionError` in `hash_function`; a negative size leaves the table
    empty, and indexing it raises `IndexError`.
 */
module HashTable {
  import opened Wrappers
  import PyArith

  datatype Error = ZeroDivisionError | IndexError

  datatype Table<K, V> = Table(size: int, buckets: seq<seq<(K, V)>>)

  function Max0(n: int): nat {
    if n > 0 then n else 0
  }

  /** `HashTable(size)` */
  function Create<K, V>(size: int): (t: Table<K, V>)
    ensures Valid(t) && t.size == size
    ensures forall i :: 0 <= i < |t.buckets| ==> t.buckets[i] == []
  {
    Table(size, seq(Max0(size), _ => []))
  }

  /** What `__init__` establishes and no operation changes: one bucket per
      unit of a positive size, none otherwise. */
  ghost predicate Valid<K, V>(t: Table<K, V>) {
    |t.buckets| == Max0(t.size)
  }

  /** `hash_function(key)`: Python's `hash(key) % self.size`.  Zero size
      raises; a negative size gives a non-positive index. */
  function HashIndex<K, V>(t: Table<K, V>, key: K, hash: K -> int): (r: Result<int, Error>)
    ensures t.size == 0 <==> r == Err(ZeroDivisionError)
    ensures t.size > 0 ==> r.Ok? && 0 <= r.value < t.size
    ensures t.size < 0 ==> r.Ok? && t.size < r.value <= 0
  {
    if t.size == 0 then Err(ZeroDivisionError) else Ok(PyArith.Mod(hash(key), t.size))
  }

  /** Python list indexing `table[i]`: negative indices count from the end. */
  function ListIndex(n: nat, i: int): (r: Result<nat, Error>)
    ensures r.Ok? <==> -(n as int) <= i < n
    ensures r.Ok? ==> r.value < n && (r.value == i || r.value == n + i)
  {
    if 0 <= i < n then Ok(i)
    else if -(n as int) <= i < 0 then Ok(n + i)
    else Err(IndexError)
  }

  /** The bucket `self.table[self.hash_function(key)]` names. */
  function Slot<K, V>(t: Table<K, V>, key: K, hash: K -> int): (r: Result<nat, Error>)
    ensures r.Ok? ==> r.value < |t.buckets|
    ensures Valid(t) ==> (r.Ok? <==> t.size > 0)
    ensures Valid(t) && t.size > 0 ==> r == Ok(PyArith.Mod(hash(key), t.size))
    ensures t.size == 0 ==> r == Err(ZeroDivisionError)
  {
    match HashIndex(t, key, hash)
    case Err(e) => Err(e)
    case Ok(i) => ListIndex(|t.buckets|, i)
  }

  /** `insert(key, value)`: the pair is appended to its bucket. */
  function Insert<K, V>(t: Table<K, V>, key: K, value: V, hash: K -> int): (r: Result<Table<K, V>, Error>)
    ensures r.Ok? <==> Slot(t, key, hash).Ok?
    ensures r.Err? ==> r.error == Slot(t, key, hash).error
    ensures r.Ok? ==> r.value.size == t.size && |r.value.buckets| == |t.buckets|
    ensures r.Ok? ==> forall i :: 0 <= i < |t.buckets| && i != Slot(t, key, hash).value ==>
                        r.value.buckets[i] == t.buckets[i]
  {
    match Slot(t, key, hash)
    case Err(e) => Err(e)
    case Ok(i) => Ok(t.(buckets := t.buckets[i := t.buckets[i] + [(key, value)]]))
  }

  /** Position `j` holds the earliest pair of the bucket with the key. */
  ghost predicate FirstWith<K, V>(bucket: seq<(K, V)>, key: K, j: int) {
    && 0 <= j < |bucket| && bucket[j].0 == key
    && forall j' :: 0 <= j' < j ==> bucket[j'].0 != key
  }

  /** What a scan of a bucket for the key must give: `None` when no pair
      has the key, otherwise the value of the earliest pair that has it. */
  ghost predicate IsFirstValue<K, V>(bucket: seq<(K, V)>, key: K, r: Option<V>) {
    && (r.None? <==> forall j :: 0 <= j < |bucket| ==> bucket[j].0 != key)
    && (r.Some? ==> exists j :: FirstWith(bucket, key, j) && bucket[j].1 == r.value)
  }

  /** The loop of `search` over one bucket: the value of the first pair with
      the key, or `None`. */
  function FirstValue<K(==), V>(bucket: seq<(K, V)>, key: K): (r: Option<V>)
    ensures IsFirstValue(bucket, key, r)
    ensures r.Some? ==> (key, r.value) in bucket
  {
    if |bucket| == 0 then None
    else if bucket[0].0 == key then (assert FirstWith(bucket, key, 0); Some(bucket[0].1))
    else
      var r := FirstValue(bucket[1..], key);
      FirstValueSkip(bucket, key, r);
      r
  }

  /** A leading pair with another key does not change which pair is first. */
  lemma FirstValueSkip<K, V>(bucket: seq<(K, V)>, key: K, r: Option<V>)
    requires |bucket| > 0 && bucket[0].0 != key
    requires IsFirstValue(bucket[1..], key, r)
    ensures IsFirstValue(bucket, key, r)
  {
    if r.Some? {
      var j :| FirstWith(bucket[1..], key, j) && bucket[1..][j].1 == r.value;
      assert FirstWith(bucket, key, j + 1);
    } else {
      forall j | 0 <= j < |bucket| ensures bucket[j].0 != key {
        if j > 0 {
          assert bucket[j] == bucket[1..][j - 1];
        }
      }
    }
  }

  /** An earliest pair with the key is unique, so the scan's result is the
      only one meeting its contract. */
  lemma FirstValueIsUnique<K, V>(bucket: seq<(K, V)>, key: K, r1: Option<V>, r2: Option<V>)
    requires IsFirstValue(bucket, key, r1) && IsFirstValue(bucket, key, r2)
    ensures r1 == r2
  {
    if r1.Some? && r2.Some? {
      var j1 :| FirstWith(bucket, key, j1) && bucket[j1].1 == r1.value;
      var j2 :| FirstWith(bucket, key, j2) && bucket[j2].1 == r2.value;
      assert !(j1 < j2) && !(j2 < j1);
    }
  }

  /** `search(key)`: it fails exactly when the bucket index does; otherwise
      it gives `None` when no pair of the key's bucket has the key, and else
      the value of the earliest such pair. */
  function Search<K(==), V>(t: Table<K, V>, key: K, hash: K -> int): (r: Result<Option<V>, Error>)
    ensures r.Ok? <==> Slot(t, key, hash).Ok?
    ensures r.Err? ==> r.error == Slot(t, key, hash).error
    ensures r.Ok? ==> IsFirstValue(t.buckets[Slot(t, key, hash).value], key, r.value)
  {
    match Slot(t, key, hash)
    case Err(e) => Err(e)
    case Ok(i) => Ok(FirstValue(t.buckets[i], key))
  }

  /** Appending a pair to a bucket only matters to a search for its key, and
      then only when the key was not in the bucket yet. */
  lemma {:induction false} FirstValueAppend<K, V>(bucket: seq<(K, V)>, k: K, v: V, q: K)
    ensures FirstValue(bucket + [(k, v)], q)
         == if q == k && FirstValue(bucket, q).None? then Some(v) else FirstValue(bucket, q)
  {
    if |bucket| > 0 {
      assert (bucket + [(k, v)])[1..] == bucket[1..] + [(k, v)];
      FirstValueAppend(bucket[1..], k, v, q);
    }
  }

  /** After `insert(k, v)`, a search for `k` finds `v` unless an earlier pair
      with key `k` shadows it; a search for any other key is unchanged. */
  lemma SearchAfterInsert<K, V>(t: Table<K, V>, k: K, v: V, q: K, hash: K -> int)
    requires Insert(t, k, v, hash).Ok?
    ensures Search(Insert(t, k, v, hash).value, q, hash)
         == if q == k && Search(t, q, hash) == Ok(None) then Ok(Some(v)) else Search(t, q, hash)
  {
    var t' := Insert(t, k, v, hash).value;
    var i := Slot(t, k, hash).value;
    assert Slot(t', q, hash) == Slot(t, q, hash);
    if Slot(t, q, hash).Ok? && Slot(t, q, hash).value == i {
      FirstValueAppend(t.buckets[i], k, v, q);
    }
  }

  /** Inserting the pairs of `xs` in order; the first error stops the run. */
  function InsertAll<K, V>(t: Table<K, V>, xs: seq<(K, V)>, hash: K -> int): Result<Table<K, V>, Error>
    decreases |xs|
  {
    if |xs| == 0 then Ok(t)
    else
      match Insert(t, xs[0].0, xs[0].1, hash)
      case Err(e) => Err(e)
      case Ok(t') => InsertAll(t', xs[1..], hash)
  }

  /** Round trip: after inserting the pairs `xs` into a fresh table of positive
      size, a search for `q` returns the value of the first pair with key `q`
      among them (the table behaves like a map in which the first insertion
      wins). */
  lemma {:induction false} SearchAfterInserts<K, V>(t: Table<K, V>, xs: seq<(K, V)>, q: K, hash: K -> int)
    requires Valid(t) && t.size > 0
    ensures InsertAll(t, xs, hash).Ok?
    ensures Valid(InsertAll(t, xs, hash).value) && InsertAll(t, xs, hash).value.size == t.size
    ensures Search(InsertAll(t, xs, hash).value, q, hash)
         == if Search(t, q, hash) == Ok(None) then Ok(FirstValue(xs, q)) else Search(t, q, hash)
    decreases |xs|
  {
    if |xs| > 0 {
      var t' := Insert(t, xs[0].0, xs[0].1, hash).value;
      SearchAfterInsert(t, xs[0].0, xs[0].1, q, hash);
      SearchAfterInserts(t', xs[1..], q, hash);
      assert FirstValue(xs, q) == if xs[0].0 == q then Some(xs[0].1) else FirstValue(xs[1..], q);
    }
  }

  /** For a fresh table of positive size the round trip is exactly the
      first-insertion-wins map. */
  lemma SearchFresh<K, V>(size: int, xs: seq<(K, V)>, q: K, hash: K -> int)
    requires size > 0
    ensures InsertAll(Create(size), xs, hash).Ok?
    ensures Search(InsertAll(Create(size), xs, hash).value, q, hash) == Ok(FirstValue(xs, q))
  {
    var t: Table<K, V> := Create(size);
    SearchAfterInserts(t, xs, q, hash);
    assert t.buckets[Slot(t, q, hash).value] == [];
  }

  /** A table of zero size rejects every insert and search with
      `ZeroDivisionError`; a table built with a negative size has no bucket
      and rejects them with `IndexError`. */
  lemma BadSizes<K, V>(size: int, k: K, v: V, hash: K -> int)
    requires size <= 0
    ensures size == 0 ==> Insert(Create<K, V>(size), k, v, hash) == Err(ZeroDivisionError)
    ensures size < 0 ==> Insert(Create<K, V>(size), k, v, hash) == Err(IndexError)
    ensures size == 0 ==> Search(Create<K, V>(size), k, hash) == Err(ZeroDivisionError)
    ensures size < 0 ==> Search(Create<K, V>(size), k, hash) == Err(IndexError)
  {
  }

  // ---------------------------------------------------------------------
  // Entries and collisions

  /** All pairs of the table, bucket by bucket. */
  function Entries<K, V>(bs: seq<seq<(K, V)>>): seq<(K, V)>
    decreases |bs|
  {
    if |bs| == 0 then [] else Entries(bs[..|bs| - 1]) + bs[|bs| - 1]
  }

  /** Buckets holding at least one pair. */
  function NonEmpty<K, V>(bs: seq<seq<(K, V)>>): nat
    decreases |bs|
  {
    if |bs| == 0 then 0 else NonEmpty(bs[..|bs| - 1]) + (if |bs[|bs| - 1]| > 0 then 1 else 0)
  }

  /** The counting loop of `count_collisions`: every pair after the first in
      its bucket is a collision, so the count is the number of pairs minus the
      number of occupied buckets; it is zero exactly when no bucket holds two
      pairs. */
  method CountCollisions<K, V>(t: Table<K, V>) returns (collisions: int)
    ensures collisions == |Entries(t.buckets)| - NonEmpty(t.buckets)
    ensures 0 <= collisions <= |Entries(t.buckets)|
    ensures collisions == 0 <==> forall i :: 0 <= i < |t.buckets| ==> |t.buckets[i]| <= 1
  {
    collisions := 0;
    var i := 0;
    while i < |t.buckets|
      invariant 0 <= i <= |t.buckets|
      invariant collisions == |Entries(t.buckets[..i])| - NonEmpty(t.buckets[..i])
      invariant collisions >= 0
      invariant collisions == 0 <==> forall j :: 0 <= j < i ==> |t.buckets[j]| <= 1
    {
      var bucket := t.buckets[i];
      assert t.buckets[..i + 1][..i] == t.buckets[..i];
      if |bucket| > 1 {
        collisions := collisions + |bucket| - 1;
      }
      i := i + 1;
    }
    assert t.buckets[..i] == t.buckets;
  }

  /** `insert` adds exactly one pair to the table's contents. */
  lemma InsertAddsOneEntry<K, V>(t: Table<K, V>, k: K, v: V, hash: K -> int)
    requires Insert(t, k, v, hash).Ok?
    ensures multiset(Entries(Insert(t, k, v, hash).value.buckets))
         == multiset(Entries(t.buckets)) + multiset{(k, v)}
  {
    var i := Slot(t, k, hash).value;
    EntriesUpdate(t.buckets, i, t.buckets[i] + [(k, v)]);
    EntriesHas(t.buckets, i);
  }

  lemma {:induction false} EntriesUpdate<K, V>(bs: seq<seq<(K, V)>>, i: nat, b: seq<(K, V)>)
    requires i < |bs|
    ensures multiset(Entries(bs[i := b])) == multiset(Entries(bs)) - multiset(bs[i]) + multiset(b)
    decreases |bs|
  {
    var n := |bs| - 1;
    var c := bs[i := b];
    assert Entries(c) == Entries(c[..n]) + c[n];
    assert Entries(bs) == Entries(bs[..n]) + bs[n];
    var rest := multiset(Entries(bs[..n]));
    if i < n {
      assert c[..n] == bs[..n][i := b] && c[n] == bs[n];
      EntriesUpdate(bs[..n], i, b);
      EntriesHas(bs[..n], i);
      assert multiset(Entries(c)) == rest - multiset(bs[i]) + multiset(b) + multiset(bs[n]);
      MultisetReplace(rest, multiset(bs[i]), multiset(b), multiset(bs[n]));
    } else {
      assert c[..n] == bs[..n] && c[n] == b;
      assert multiset(Entries(c)) == rest + multiset(b);
      MultisetReplace(rest + multiset(bs[n]), multiset(bs[n]), multiset(b), multiset{});
    }
  }

  /** Replacing part `x` of a multiset by `y` commutes with adding `z`. */
  lemma MultisetReplace<T>(r: multiset<T>, x: multiset<T>, y: multiset<T>, z: multiset<T>)
    requires x <= r
    ensures r - x + y + z == r + z - x + y
  {
  }

  /** Each bucket's pairs are among the table's pairs. */
  lemma {:induction false} EntriesHas<K, V>(bs: seq<seq<(K, V)>>, i: nat)
    requires i < |bs|
    ensures multiset(bs[i]) <= multiset(Entries(bs))
    decreases |bs|
  {
    var n := |bs| - 1;
    if i < n {
      assert bs[..n][i] == bs[i];
      EntriesHas(bs[..n], i);
    }
  }

  /** Positions of the buckets that hold a pair. */
  ghost function Occupied<K, V>(bs: seq<seq<(K, V)>>): set<int> {
    set i | 0 <= i < |bs| && |bs[i]| > 0
  }

  lemma {:induction false} NonEmptyCountsOccupied<K, V>(bs: seq<seq<(K, V)>>)
    ensures NonEmpty(bs) == |Occupied(bs)|
    decreases |bs|
  {
    if |bs| > 0 {
      var n := |bs| - 1;
      NonEmptyCountsOccupied(bs[..n]);
      assert Occupied(bs) == Occupied(bs[..n]) + (if |bs[n]| > 0 then {n} else {});
      assert n !in Occupied(bs[..n]);
    }
  }

  /** The bucket indices `hash(key) % size` of the pairs' keys. */
  ghost function Indices<K, V>(xs: seq<(K, V)>, size: int, hash: K -> int): set<int>
    requires size > 0
    decreases |xs|
  {
    if |xs| == 0 then {} else {PyArith.Mod(hash(xs[0].0), size)} + Indices(xs[1..], size, hash)
  }

  lemma InsertOccupies<K, V>(t: Table<K, V>, k: K, v: V, hash: K -> int)
    requires Valid(t) && t.size > 0
    ensures Insert(t, k, v, hash).Ok?
    ensures Occupied(Insert(t, k, v, hash).value.buckets)
         == Occupied(t.buckets) + {PyArith.Mod(hash(k), t.size)}
  {
  }

  lemma {:induction false} InsertAllOccupies<K, V>(t: Table<K, V>, xs: seq<(K, V)>, hash: K -> int)
    requires Valid(t) && t.size > 0
    ensures InsertAll(t, xs, hash).Ok?
    ensures Occupied(InsertAll(t, xs, hash).value.buckets) == Occupied(t.buckets) + Indices(xs, t.size, hash)
    ensures |Entries(InsertAll(t, xs, hash).value.buckets)| == |Entries(t.buckets)| + |xs|
    decreases |xs|
  {
    if |xs| > 0 {
      var k, v := xs[0].0, xs[0].1;
      var t' := Insert(t, k, v, hash).value;
      InsertOccupies(t, k, v, hash);
      InsertAddsOneEntry(t, k, v, hash);
      assert |Entries(t'.buckets)| == |Entries(t.buckets)| + 1 by {
        assert |multiset(Entries(t'.buckets))| == |multiset(Entries(t.buckets))| + 1;
      }
      InsertAllOccupies(t', xs[1..], hash);
      assert InsertAll(t, xs, hash) == InsertAll(t', xs[1..], hash);
      assert Indices(xs, t.size, hash) == {PyArith.Mod(hash(k), t.size)} + Indices(xs[1..], t.size, hash);
    }
  }

  /** `count_collisions(size)` with the driver's `size` random pairs given as
      `xs`: a non-positive size inserts nothing and counts nothing; otherwise
      the count is the number of pairs minus the number of distinct bucket
      indices among their keys.  No error can occur. */
  method CountCollisionsAfter<K, V>(size: int, xs: seq<(K, V)>, hash: K -> int) returns (collisions: int)
    requires |xs| == Max0(size)
    ensures size <= 0 ==> collisions == 0
    ensures size > 0 ==> collisions == |xs| - |Indices(xs, size, hash)|
  {
    var t: Table<K, V> := Create(size);
    if size <= 0 {
      collisions := CountCollisions(t);
    } else {
      InsertAllOccupies(t, xs, hash);
      var filled := InsertAll(t, xs, hash).value;
      NonEmptyCountsOccupied(filled.buckets);
      assert Occupied(t.buckets) == {};
      assert |Entries(t.buckets)| == 0 by {
        NonEmptyCountsOccupied(t.buckets);
        EmptyBuckets(t.buckets);
      }
      collisions := CountCollisions(filled);
    }
  }

  lemma {:induction false} EmptyBuckets<K, V>(bs: seq<seq<(K, V)>>)
    requires forall i :: 0 <= i < |bs| ==> bs[i] == []
    ensures Entries(bs) == []
    decreases |bs|
  {
    if |bs| > 0 {
      EmptyBuckets(bs[..|bs| - 1]);
    }
  }
}
