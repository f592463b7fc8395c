/** `quick_sort` of `lab1/sorts/quicksort.py`: a list of length at most one
    is returned as it is; otherwise the middle element `arr[len(arr) // 2]` is
    the pivot, and the result is the sorted list of elements `< pivot`, then
    every element `== pivot` in input order, then the sorted list of elements
    `> pivot`.  The input list is not changed.
 */
module Quick {
  import opened Orders

  /** The three comprehensions: elements `< pivot`, `== pivot`, `> pivot`. */
  datatype Side = Below | Level | Above

  predicate On<T>(x: T, p: T, o: Ord<T>, side: Side) {
    match side
    case Below => o.lt(x, p)
    case Level => o.eq(x, p)
    case Above => o.gt(x, p)
  }

  /** The comprehension `[x for x in s if x <op> p]`, order kept. */
  function Part<T>(s: seq<T>, p: T, o: Ord<T>, side: Side): (r: seq<T>)
    ensures |r| <= |s|
    ensures forall i :: 0 <= i < |r| ==> On(r[i], p, o, side)
    ensures multiset(r) <= multiset(s)
  {
    if |s| == 0 then []
    else
      assert s == [s[0]] + s[1..];
      (if On(s[0], p, o, side) then [s[0]] else []) + Part(s[1..], p, o, side)
  }

  /** Under a lawful order every element passes exactly one of the three
      comprehensions, so together they keep every element once. */
  lemma PartitionKeepsAll<T(!new)>(s: seq<T>, p: T, o: Ord<T>)
    requires Lawful(o)
    ensures multiset(Part(s, p, o, Below)) + multiset(Part(s, p, o, Level))
          + multiset(Part(s, p, o, Above)) == multiset(s)
  {
    forall i | 0 <= i < |s| ensures ExactlyOne(s[i], p, o) {
      OnExactlyOne(s[i], p, o);
    }
    PartsCover(s, p, o);
  }

  /** `x` passes exactly one of the three comprehensions. */
  predicate ExactlyOne<T>(x: T, p: T, o: Ord<T>) {
    && (On(x, p, o, Below) || On(x, p, o, Level) || On(x, p, o, Above))
    && !(On(x, p, o, Below) && On(x, p, o, Level))
    && !(On(x, p, o, Below) && On(x, p, o, Above))
    && !(On(x, p, o, Level) && On(x, p, o, Above))
  }

  lemma OnExactlyOne<T(!new)>(x: T, p: T, o: Ord<T>)
    requires Lawful(o)
    ensures ExactlyOne(x, p, o)
  {
    assert !(o.lt(x, p) && o.lt(p, x));
  }

  lemma {:induction false} PartsCover<T>(s: seq<T>, p: T, o: Ord<T>)
    requires forall i :: 0 <= i < |s| ==> ExactlyOne(s[i], p, o)
    ensures multiset(Part(s, p, o, Below)) + multiset(Part(s, p, o, Level))
          + multiset(Part(s, p, o, Above)) == multiset(s)
  {
    if |s| > 0 {
      var x, t := s[0], s[1..];
      assert ExactlyOne(x, p, o);
      forall i | 0 <= i < |t| ensures ExactlyOne(t[i], p, o) {
        assert t[i] == s[i + 1];
      }
      PartsCover(t, p, o);
      assert s == [x] + t;
      assert multiset(s) == multiset{x} + multiset(t);
    }
  }

  /** `quick_sort`.  Termination rests on the pivot landing in the middle
      part, which needs `<` to be irreflexive: this is where a lawful order is
      required (with a `<` that holds of the pivot and itself, the Python
      function would recurse on a list as long as its input). */
  function QuickSort<T(!new)>(a: seq<T>, o: Ord<T>): (r: seq<T>)
    requires Lawful(o)
    ensures multiset(r) == multiset(a)
    ensures Sorted(r, o.lt)
    decreases |a|
  {
    if |a| <= 1 then a
    else
      var pivot := a[|a| / 2];
      PartsShorter(a, pivot, o);
      var sl := QuickSort(Part(a, pivot, o, Below), o);
      var sr := QuickSort(Part(a, pivot, o, Above), o);
      Assemble(a, pivot, o, sl, sr);
      var middle := Part(a, pivot, o, Level);
      sl + middle + sr
  }

  /** The outer comprehensions are strictly shorter than the list the pivot
      was taken from. */
  lemma PartsShorter<T(!new)>(a: seq<T>, p: T, o: Ord<T>)
    requires Lawful(o)
    requires p in multiset(a)
    ensures |Part(a, p, o, Below)| < |a| && |Part(a, p, o, Above)| < |a|
  {
    var left, middle, right := Part(a, p, o, Below), Part(a, p, o, Level), Part(a, p, o, Above);
    PartitionKeepsAll(a, p, o);
    PivotInMiddle(a, p, o);
    assert |multiset(left) + multiset(middle) + multiset(right)| == |multiset(a)|;
  }

  /** The sorted lower part, the middle part and the sorted upper part make a
      sorted permutation of the whole list. */
  lemma Assemble<T(!new)>(a: seq<T>, p: T, o: Ord<T>, sl: seq<T>, sr: seq<T>)
    requires Lawful(o)
    requires Sorted(sl, o.lt) && multiset(sl) == multiset(Part(a, p, o, Below))
    requires Sorted(sr, o.lt) && multiset(sr) == multiset(Part(a, p, o, Above))
    ensures multiset(sl + Part(a, p, o, Level) + sr) == multiset(a)
    ensures Sorted(sl + Part(a, p, o, Level) + sr, o.lt)
  {
    PartitionKeepsAll(a, p, o);
    SameElements(Part(a, p, o, Below), sl, p, o, Below);
    SameElements(Part(a, p, o, Above), sr, p, o, Above);
    JoinSorted(sl, Part(a, p, o, Level), sr, p, o);
  }

  /** A permutation of a comprehension passes the same test. */
  lemma SameElements<T>(part: seq<T>, t: seq<T>, p: T, o: Ord<T>, side: Side)
    requires forall i :: 0 <= i < |part| ==> On(part[i], p, o, side)
    requires multiset(t) == multiset(part)
    ensures forall k :: 0 <= k < |t| ==> On(t[k], p, o, side)
  {
    forall k | 0 <= k < |t| ensures On(t[k], p, o, side) {
      assert t[k] in multiset(part);
    }
  }

  lemma {:induction false} PivotInMiddle<T(!new)>(s: seq<T>, p: T, o: Ord<T>)
    requires Lawful(o)
    requires p in multiset(s)
    ensures p in multiset(Part(s, p, o, Level))
  {
    assert s == [s[0]] + s[1..];
    assert o.eq(p, p);
    if s[0] != p {
      PivotInMiddle(s[1..], p, o);
    }
  }

  /** Sorted parts below, level with, and above the pivot join into a sorted
      list. */
  lemma JoinSorted<T(!new)>(l: seq<T>, m: seq<T>, r: seq<T>, p: T, o: Ord<T>)
    requires Lawful(o)
    requires Sorted(l, o.lt) && Sorted(r, o.lt)
    requires forall i :: 0 <= i < |l| ==> o.lt(l[i], p)
    requires forall i :: 0 <= i < |m| ==> o.eq(m[i], p)
    requires forall i :: 0 <= i < |r| ==> o.gt(r[i], p)
    ensures Sorted(l + m + r, o.lt)
  {
    var s := l + m + r;
    forall i, j | 0 <= i < j < |s| ensures !o.lt(s[j], s[i]) {
      if j < |l| {
        assert s[i] == l[i] && s[j] == l[j];
      } else if i >= |l| + |m| {
        assert s[i] == r[i - |l| - |m|] && s[j] == r[j - |l| - |m|];
      } else {
        var x, y := s[i], s[j];
        assert i < |l| ==> x == l[i];
        assert |l| <= i ==> x == m[i - |l|];
        assert j < |l| + |m| ==> y == m[j - |l|];
        assert |l| + |m| <= j ==> y == r[j - |l| - |m|];
      }
    }
  }
}
