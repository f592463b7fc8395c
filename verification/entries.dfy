/** The in-order contents of a search tree: a sequence of (key, data) entries.

    Both trees store every inserted pair in one node and never remove one, so
    what a tree "contains" is the sequence its in-order walk produces.  This
    module gives that sequence an ordering predicate, the filter a key search
    is measured against, and a reference insertion: list insertion after the
    last entry whose key is not greater than the new one.
 */
module Entries {
  import opened Orders

  /** In-order keys never decrease. */
  ghost predicate KeysSorted<K, D>(s: seq<(K, D)>, lt: (K, K) -> bool) {
    forall i, j :: 0 <= i < j < |s| ==> !lt(s[j].0, s[i].0)
  }

  /** The parts of a sorted sequence around one entry are sorted, and that
      entry's key bounds them from above and from below. */
  lemma KeysSortedSplit<K, D>(a: seq<(K, D)>, x: (K, D), b: seq<(K, D)>, lt: (K, K) -> bool)
    requires KeysSorted(a + [x] + b, lt)
    ensures KeysSorted(a, lt) && KeysSorted(b, lt)
    ensures forall i :: 0 <= i < |a| ==> !lt(x.0, a[i].0)
    ensures forall i :: 0 <= i < |b| ==> !lt(b[i].0, x.0)
  {
    var s := a + [x] + b;
    forall i, j | 0 <= i < j < |a| ensures !lt(a[j].0, a[i].0) {
      assert s[i] == a[i] && s[j] == a[j];
      assert !lt(s[j].0, s[i].0);
    }
    forall i, j | 0 <= i < j < |b| ensures !lt(b[j].0, b[i].0) {
      assert s[|a| + 1 + i] == b[i] && s[|a| + 1 + j] == b[j];
      assert !lt(s[|a| + 1 + j].0, s[|a| + 1 + i].0);
    }
    forall i | 0 <= i < |a| ensures !lt(x.0, a[i].0) {
      assert s[i] == a[i] && s[|a|] == x;
      assert !lt(s[|a|].0, s[i].0);
    }
    forall i | 0 <= i < |b| ensures !lt(b[i].0, x.0) {
      assert s[|a| + 1 + i] == b[i] && s[|a|] == x;
      assert !lt(s[|a| + 1 + i].0, s[|a|].0);
    }
  }

  /** Joining parts whose keys all lie above `k` gives such a part. */
  lemma AboveJoin<K, D>(b: seq<(K, D)>, x: (K, D), c: seq<(K, D)>, k: K, lt: (K, K) -> bool)
    requires forall i :: 0 <= i < |b| ==> lt(k, b[i].0)
    requires lt(k, x.0)
    requires forall i :: 0 <= i < |c| ==> lt(k, c[i].0)
    ensures forall i :: 0 <= i < |b + [x] + c| ==> lt(k, (b + [x] + c)[i].0)
  {
    var s := b + [x] + c;
    forall i | 0 <= i < |s| ensures lt(k, s[i].0) {
      if i < |b| {
        assert s[i] == b[i];
      } else if i > |b| {
        assert s[i] == c[i - |b| - 1];
      }
    }
  }

  /** Joining parts with no key above `k` gives such a part. */
  lemma NotAboveJoin<K, D>(a: seq<(K, D)>, x: (K, D), c: seq<(K, D)>, k: K, lt: (K, K) -> bool)
    requires forall i :: 0 <= i < |a| ==> !lt(k, a[i].0)
    requires !lt(k, x.0)
    requires forall i :: 0 <= i < |c| ==> !lt(k, c[i].0)
    ensures forall i :: 0 <= i < |a + [x] + c| ==> !lt(k, (a + [x] + c)[i].0)
  {
    var s := a + [x] + c;
    forall i | 0 <= i < |s| ensures !lt(k, s[i].0) {
      if i < |a| {
        assert s[i] == a[i];
      } else if i > |a| {
        assert s[i] == c[i - |a| - 1];
      }
    }
  }

  /** Keys not below a pivot above `k` are above `k`. */
  lemma AboveFromPivot<K(!new), D>(s: seq<(K, D)>, p: K, k: K, lt: (K, K) -> bool)
    requires StrictTotal(lt) && lt(k, p)
    requires forall i :: 0 <= i < |s| ==> !lt(s[i].0, p)
    ensures forall i :: 0 <= i < |s| ==> lt(k, s[i].0)
  {
    forall i | 0 <= i < |s| ensures lt(k, s[i].0) {
      var x := s[i].0;
      assert x == p || lt(p, x);
    }
  }

  /** Keys not above a pivot that is not above `k` are not above `k`. */
  lemma NotAboveFromPivot<K(!new), D>(s: seq<(K, D)>, p: K, k: K, lt: (K, K) -> bool)
    requires StrictTotal(lt) && !lt(k, p)
    requires forall i :: 0 <= i < |s| ==> !lt(p, s[i].0)
    ensures forall i :: 0 <= i < |s| ==> !lt(k, s[i].0)
  {
    forall i | 0 <= i < |s| ensures !lt(k, s[i].0) {
      var x := s[i].0;
      assert p == k || lt(p, k);
    }
  }

  /** The data stored under key `k`, in sequence order. */
  function DataWith<K(==), D>(s: seq<(K, D)>, k: K): (r: seq<D>)
    ensures |r| <= |s|
  {
    if |s| == 0 then []
    else (if s[0].0 == k then [s[0].1] else []) + DataWith(s[1..], k)
  }

  /** The first entry contributes its data (if its key matches) ahead of the
      rest, as a multiset. */
  lemma DataWithHead<K, D>(s: seq<(K, D)>, k: K)
    requires |s| > 0
    ensures multiset(DataWith(s, k))
         == (if s[0].0 == k then multiset{s[0].1} else multiset{}) + multiset(DataWith(s[1..], k))
  {
    var h := if s[0].0 == k then [s[0].1] else [];
    assert DataWith(s, k) == h + DataWith(s[1..], k);
    assert multiset(h) == if s[0].0 == k then multiset{s[0].1} else multiset{};
  }

  /** Bookkeeping for a run of inserts: when a store gains the first pair's
      data (if under `k`), what it holds plus what the remaining pairs will
      add is what it held plus what all the pairs add. */
  lemma HeadMoves<K, D>(before: multiset<D>, after: multiset<D>, s: seq<(K, D)>, k: K)
    requires |s| > 0
    requires after == before + (if k == s[0].0 then multiset{s[0].1} else multiset{})
    ensures after + multiset(DataWith(s[1..], k)) == before + multiset(DataWith(s, k))
  {
    DataWithHead(s, k);
    if k == s[0].0 {
      assert multiset(DataWith(s, k)) == multiset{s[0].1} + multiset(DataWith(s[1..], k));
    } else {
      assert multiset(DataWith(s, k)) == multiset(DataWith(s[1..], k));
    }
  }

  /** Reference insertion into a key-sorted sequence: the new entry goes
      before the first entry with a strictly greater key, that is, after every
      entry with an equal key. */
  function InsertSorted<K, D>(s: seq<(K, D)>, e: (K, D), lt: (K, K) -> bool): seq<(K, D)>
  {
    if |s| == 0 then [e]
    else if lt(e.0, s[0].0) then [e] + s
    else [s[0]] + InsertSorted(s[1..], e, lt)
  }

  lemma {:induction false} DataWithConcat<K, D>(a: seq<(K, D)>, b: seq<(K, D)>, k: K)
    ensures DataWith(a + b, k) == DataWith(a, k) + DataWith(b, k)
  {
    if |a| == 0 {
      assert a + b == b;
    } else {
      var h := if a[0].0 == k then [a[0].1] else [];
      assert (a + b)[0] == a[0];
      assert (a + b)[1..] == a[1..] + b;
      assert DataWith(a + b, k) == h + DataWith(a[1..] + b, k);
      DataWithConcat(a[1..], b, k);
      assert DataWith(a, k) == h + DataWith(a[1..], k);
      assert h + (DataWith(a[1..], k) + DataWith(b, k)) == (h + DataWith(a[1..], k)) + DataWith(b, k);
    }
  }

  lemma {:induction false} DataWithNone<K, D>(s: seq<(K, D)>, k: K)
    requires forall i :: 0 <= i < |s| ==> s[i].0 != k
    ensures DataWith(s, k) == []
  {
    if |s| > 0 {
      DataWithNone(s[1..], k);
    }
  }

  /** The filter depends only on the multiset of entries. */
  lemma {:induction false} DataWithMultiset<K, D>(s: seq<(K, D)>, k: K, e: (K, D))
    ensures multiset(DataWith(s + [e], k))
         == multiset(DataWith(s, k)) + (if e.0 == k then multiset{e.1} else multiset{})
  {
    DataWithConcat(s, [e], k);
    assert DataWith([e], k) == (if e.0 == k then [e.1] else []) + DataWith([e][1..], k);
  }

  /** An entry placed anywhere adds its data to the filter for its key. */
  lemma DataWithInsertedAt<K, D>(a: seq<(K, D)>, b: seq<(K, D)>, e: (K, D), k: K)
    ensures multiset(DataWith(a + [e] + b, k))
         == multiset(DataWith(a + b, k)) + (if e.0 == k then multiset{e.1} else multiset{})
  {
    var h := if e.0 == k then [e.1] else [];
    assert DataWith([e], k) == h + DataWith([e][1..], k);
    assert DataWith([e], k) == h;
    DataWithConcat(a + [e], b, k);
    DataWithConcat(a, [e], k);
    DataWithConcat(a, b, k);
    var da, db := DataWith(a, k), DataWith(b, k);
    assert DataWith(a + [e] + b, k) == da + h + db;
    assert multiset(da + h + db) == multiset(da) + multiset(h) + multiset(db);
    assert multiset(da + db) == multiset(da) + multiset(db);
  }

  /** Inserting into a sequence split into a part with keys not above `e.0`
      and a part with keys above it places `e` at the split. */
  lemma {:induction false} InsertSortedAtSplit<K, D>(l: seq<(K, D)>, r: seq<(K, D)>, e: (K, D), lt: (K, K) -> bool)
    requires forall i :: 0 <= i < |l| ==> !lt(e.0, l[i].0)
    requires forall i :: 0 <= i < |r| ==> lt(e.0, r[i].0)
    ensures InsertSorted(l + r, e, lt) == l + [e] + r
  {
    if |l| == 0 {
      assert l + r == r;
    } else {
      assert (l + r)[1..] == l[1..] + r;
      InsertSortedAtSplit(l[1..], r, e, lt);
    }
  }

  /** The reference insertion keeps a sorted sequence sorted and adds exactly
      the one entry. */
  lemma {:induction false} InsertSortedKeepsOrder<K(!new), D>(s: seq<(K, D)>, e: (K, D), lt: (K, K) -> bool)
    requires StrictTotal(lt)
    requires KeysSorted(s, lt)
    ensures KeysSorted(InsertSorted(s, e, lt), lt)
    ensures multiset(InsertSorted(s, e, lt)) == multiset(s) + multiset{e}
  {
    if |s| == 0 {
    } else if lt(e.0, s[0].0) {
      PrependKeepsSorted(e, s, lt);
    } else {
      var x, tail := s[0], s[1..];
      assert s == [x] + tail;
      TailKeepsSorted(s, lt);
      InsertSortedKeepsOrder(tail, e, lt);
      var t := InsertSorted(tail, e, lt);
      forall j | 0 <= j < |t| ensures !lt(t[j].0, x.0) {
        assert t[j] in multiset(tail) + multiset{e};
        if t[j] != e {
          var k :| 0 <= k < |tail| && tail[k] == t[j];
          assert !lt(s[k + 1].0, s[0].0);
        }
      }
      ConsKeepsSorted(x, t, lt);
    }
  }

  /** An entry whose key is below the first key of a sorted sequence can go
      in front of it. */
  lemma PrependKeepsSorted<K(!new), D>(e: (K, D), s: seq<(K, D)>, lt: (K, K) -> bool)
    requires StrictTotal(lt)
    requires KeysSorted(s, lt) && |s| > 0 && lt(e.0, s[0].0)
    ensures KeysSorted([e] + s, lt)
  {
    forall j | 0 < j < |s| ensures lt(e.0, s[j].0) {
      assert !lt(s[j].0, s[0].0);
      assert s[j].0 == s[0].0 || lt(s[0].0, s[j].0);
    }
    forall i, j | 0 <= i < j < |s| + 1 ensures !lt(([e] + s)[j].0, ([e] + s)[i].0) {
      if i == 0 {
        assert lt(e.0, s[j - 1].0);
      } else {
        assert !lt(s[j - 1].0, s[i - 1].0);
      }
    }
  }

  /** An entry whose key no key of a sorted sequence is below can go in
      front of it. */
  lemma ConsKeepsSorted<K, D>(x: (K, D), t: seq<(K, D)>, lt: (K, K) -> bool)
    requires KeysSorted(t, lt)
    requires forall j :: 0 <= j < |t| ==> !lt(t[j].0, x.0)
    ensures KeysSorted([x] + t, lt)
  {
    forall i, j | 0 <= i < j < |t| + 1 ensures !lt(([x] + t)[j].0, ([x] + t)[i].0) {
      assert ([x] + t)[j] == t[j - 1];
      if i > 0 {
        assert ([x] + t)[i] == t[i - 1];
      }
    }
  }

  lemma TailKeepsSorted<K, D>(s: seq<(K, D)>, lt: (K, K) -> bool)
    requires KeysSorted(s, lt) && |s| > 0
    ensures KeysSorted(s[1..], lt)
  {
    forall i, j | 0 <= i < j < |s| - 1 ensures !lt(s[1..][j].0, s[1..][i].0) {
      assert s[1..][j] == s[j + 1] && s[1..][i] == s[i + 1];
    }
  }
}
