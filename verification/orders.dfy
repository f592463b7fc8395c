/** Orders shared by the sorts and the search trees.

    Python compares with `<`, `==` and `>`.  A key type of the search trees is
    described by one function `lt` (Python's `<`) together with Dafny equality
    (Python's `==`, which is value equality on the strings the trees are used
    with).  The sorts run on objects whose `==` is a user-defined method, so they
    take all three operators in an `Ord` record.
 */
module Orders {

  /** `lt` is a strict total order with respect to value equality. */
  ghost predicate StrictTotal<K(!new)>(lt: (K, K) -> bool) {
    && (forall a :: !lt(a, a))
    && (forall a, b, c :: lt(a, b) && lt(b, c) ==> lt(a, c))
    && (forall a, b :: lt(a, b) || a == b || lt(b, a))
  }

  /** `lt` is a strict weak order: irreflexive, transitive, and "not less than"
      is transitive as well (so incomparability is an equivalence). */
  ghost predicate StrictWeak<T(!new)>(lt: (T, T) -> bool) {
    && (forall a :: !lt(a, a))
    && (forall a, b, c :: lt(a, b) && lt(b, c) ==> lt(a, c))
    && (forall a, b, c :: !lt(a, b) && !lt(b, c) ==> !lt(a, c))
  }

  lemma StrictTotalIsWeak<K(!new)>(lt: (K, K) -> bool)
    requires StrictTotal(lt)
    ensures StrictWeak(lt)
  {
    forall a, b, c | !lt(a, b) && !lt(b, c)
      ensures !lt(a, c)
    {
      // by totality b == a or b < a, and c == b or c < b
      assert lt(b, a) || a == b;
    }
  }

  /** The three comparison operators of a Python class. */
  datatype Ord<!T> = Ord(lt: (T, T) -> bool, eq: (T, T) -> bool, gt: (T, T) -> bool)

  /** The operators agree with each other: `<` is a strict weak order, `==`
      holds exactly when neither side is less, and `a > b` is `b < a`. */
  ghost predicate Lawful<T(!new)>(o: Ord<T>) {
    && StrictWeak(o.lt)
    && (forall a, b :: o.eq(a, b) <==> !o.lt(a, b) && !o.lt(b, a))
    && (forall a, b :: o.gt(a, b) <==> o.lt(b, a))
  }

  /** A sequence is sorted when no element is less than one before it. */
  ghost predicate Sorted<T>(s: seq<T>, lt: (T, T) -> bool) {
    forall i, j :: 0 <= i < j < |s| ==> !lt(s[j], s[i])
  }

  /** Under a strict total order a sequence is fixed by its elements once it
      is sorted: any two sorted arrangements of one multiset coincide. */
  lemma {:induction false} SortedUnique<T(!new)>(a: seq<T>, b: seq<T>, lt: (T, T) -> bool)
    requires StrictTotal(lt)
    requires Sorted(a, lt) && Sorted(b, lt) && multiset(a) == multiset(b)
    ensures a == b
    decreases |a|
  {
    if |a| > 0 {
      assert |b| > 0 by { assert a[0] in multiset(b); }
      SortedSameHead(a, b, lt);
      assert a == [a[0]] + a[1..] && b == [b[0]] + b[1..];
      assert multiset(a[1..]) == multiset(a) - multiset{a[0]};
      assert multiset(b[1..]) == multiset(b) - multiset{b[0]};
      SortedDropFirst(a, lt);
      SortedDropFirst(b, lt);
      SortedUnique(a[1..], b[1..], lt);
    }
  }

  /** Two sorted arrangements of the same elements start alike. */
  lemma SortedSameHead<T(!new)>(a: seq<T>, b: seq<T>, lt: (T, T) -> bool)
    requires StrictTotal(lt)
    requires Sorted(a, lt) && Sorted(b, lt) && multiset(a) == multiset(b) && |a| > 0 && |b| > 0
    ensures a[0] == b[0]
  {
    assert a[0] in multiset(b);
    var j :| 0 <= j < |b| && b[j] == a[0];
    assert b[0] in multiset(a);
    var i :| 0 <= i < |a| && a[i] == b[0];
    assert !lt(a[0], b[0]) by { assert j == 0 || !lt(b[j], b[0]); }
    assert !lt(b[0], a[0]) by { assert i == 0 || !lt(a[i], a[0]); }
  }

  lemma SortedDropFirst<T>(a: seq<T>, lt: (T, T) -> bool)
    requires Sorted(a, lt) && |a| > 0
    ensures Sorted(a[1..], lt)
  {
    forall i, j | 0 <= i < j < |a| - 1 ensures !lt(a[1..][j], a[1..][i]) {
      assert a[1..][j] == a[j + 1] && a[1..][i] == a[i + 1];
    }
  }

  /** Python's `<` on `str`: lexicographic on code points, a proper prefix
      being the smaller string. */
  function StrLess(a: string, b: string): bool {
    if |a| == 0 then |b| > 0
    else if |b| == 0 then false
    else if a[0] != b[0] then a[0] < b[0]
    else StrLess(a[1..], b[1..])
  }

  lemma {:induction false} StrLessIrreflexive(a: string)
    ensures !StrLess(a, a)
  {
    if |a| > 0 {
      StrLessIrreflexive(a[1..]);
    }
  }

  lemma {:induction false} StrLessTransitive(a: string, b: string, c: string)
    requires StrLess(a, b) && StrLess(b, c)
    ensures StrLess(a, c)
  {
    if |a| > 0 && a[0] == b[0] && b[0] == c[0] {
      StrLessTransitive(a[1..], b[1..], c[1..]);
    }
  }

  lemma {:induction false} StrLessTotal(a: string, b: string)
    ensures StrLess(a, b) || a == b || StrLess(b, a)
  {
    if |a| > 0 && |b| > 0 && a[0] == b[0] {
      StrLessTotal(a[1..], b[1..]);
      if a[1..] == b[1..] {
        assert a == [a[0]] + a[1..] && b == [b[0]] + b[1..];
      }
    }
  }

  /** String keys, as the tree driver and the demonstration use them, are
      strictly and totally ordered by Python's `<`. */
  lemma StrLessIsStrictTotal()
    ensures StrictTotal(StrLess)
  {
    forall a | true ensures !StrLess(a, a) { StrLessIrreflexive(a); }
    forall a, b, c | StrLess(a, b) && StrLess(b, c) ensures StrLess(a, c) {
      StrLessTransitive(a, b, c);
    }
    forall a, b | true ensures StrLess(a, b) || a == b || StrLess(b, a) {
      StrLessTotal(a, b);
    }
  }

  /** Python's built-in operators on `int`. */
  function IntOrd(): (o: Ord<int>)
    ensures Lawful(o)
  {
    Ord((a: int, b: int) => a < b, (a: int, b: int) => a == b, (a: int, b: int) => a > b)
  }

  /** Python's `<` on `int` is a strict total order. */
  lemma IntLessIsStrictTotal()
    ensures StrictTotal(IntOrd().lt)
  {
  }

  /** An `int` list whose neighbours increase is sorted. */
  lemma {:induction false} IncreasingIsSorted(s: seq<int>)
    requires forall i :: 0 < i < |s| ==> s[i - 1] < s[i]
    ensures Sorted(s, IntOrd().lt)
  {
    if |s| > 1 {
      IncreasingIsSorted(s[1..]);
      forall j | 0 < j < |s| ensures s[0] < s[j] {
        if j > 1 {
          assert s[1..][j - 1] == s[j] && s[1..][0] == s[1];
        }
      }
    }
  }
}
