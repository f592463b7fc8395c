/** The docstring examples of the lab1 sorts, and the fact that on `int`
    lists (where `<` is total) all three sorts produce the same list. */
module SortExamples {
  import opened Orders
  import Heap
  import Selection
  import Quick

  /** `heap_sort([4, 10, 3, 5, 1])` leaves `[1, 3, 4, 5, 10]`. */
  method HeapSortExample() returns (r: seq<int>)
    ensures r == [1, 3, 4, 5, 10]
  {
    r := Heap.HeapSort([4, 10, 3, 5, 1], IntOrd().lt);
    HeapExampleElements();
    HeapExampleResult(r);
  }

  /** `selection_sort([4, 2, 6, 1, 5])` returns `[1, 2, 4, 5, 6]`. */
  method SelectionSortExample() returns (r: seq<int>)
    ensures r == [1, 2, 4, 5, 6]
  {
    r := Selection.SelectionSort([4, 2, 6, 1, 5], IntOrd().lt);
    SelectionExampleElements();
    SelectionExampleResult(r);
  }

  lemma HeapExampleResult(r: seq<int>)
    requires multiset(r) == multiset{1, 3, 4, 5, 10} && Sorted(r, IntOrd().lt)
    ensures r == [1, 3, 4, 5, 10]
  {
    var t: seq<int> := [1, 3, 4, 5, 10];
    HeapExpected(t);
    SortedIsIncreasing(r, t);
  }

  lemma SelectionExampleResult(r: seq<int>)
    requires multiset(r) == multiset{1, 2, 4, 5, 6} && Sorted(r, IntOrd().lt)
    ensures r == [1, 2, 4, 5, 6]
  {
    var t: seq<int> := [1, 2, 4, 5, 6];
    SelectionExpected(t);
    SortedIsIncreasing(r, t);
  }

  /** The expected lists are strictly increasing and hold the given
      elements. */
  lemma HeapExpected(t: seq<int>)
    requires t == [1, 3, 4, 5, 10]
    ensures forall i :: 0 < i < |t| ==> t[i - 1] < t[i]
    ensures multiset(t) == multiset{1, 3, 4, 5, 10}
  {
  }

  lemma SelectionExpected(t: seq<int>)
    requires t == [1, 2, 4, 5, 6]
    ensures forall i :: 0 < i < |t| ==> t[i - 1] < t[i]
    ensures multiset(t) == multiset{1, 2, 4, 5, 6}
  {
  }

  lemma HeapExampleElements()
    ensures multiset([4, 10, 3, 5, 1]) == multiset{1, 3, 4, 5, 10}
  {
  }

  lemma SelectionExampleElements()
    ensures multiset([4, 2, 6, 1, 5]) == multiset{1, 2, 4, 5, 6}
  {
  }

  /** A sorted `int` list holding the elements of a strictly increasing one
      is that list. */
  lemma SortedIsIncreasing(r: seq<int>, t: seq<int>)
    requires Sorted(r, IntOrd().lt) && multiset(r) == multiset(t)
    requires forall i :: 0 < i < |t| ==> t[i - 1] < t[i]
    ensures r == t
  {
    IntLessIsStrictTotal();
    IncreasingIsSorted(t);
    SortedUnique(r, t, IntOrd().lt);
  }

  /** With a total order the three sorts cannot differ: each result is the
      unique sorted arrangement of the input's elements. */
  method SortsAgree(a: seq<int>) returns (h: seq<int>, s: seq<int>, q: seq<int>)
    ensures h == s == q
    ensures multiset(q) == multiset(a) && Sorted(q, IntOrd().lt)
  {
    h := Heap.HeapSort(a, IntOrd().lt);
    s := Selection.SelectionSort(a, IntOrd().lt);
    q := Quick.QuickSort(a, IntOrd());
    IntLessIsStrictTotal();
    SortedUnique(h, s, IntOrd().lt);
    SortedUnique(s, q, IntOrd().lt);
  }
}
