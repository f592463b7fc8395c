/** `selection_sort` of `lab1/sorts/selection.py`: for each position `i` in
    turn, find the first position of a least element among positions `i`
    onward and swap it into `i`.  Python sorts the list in place and returns
    it; here the method returns the sorted contents.
 */
module Selection {
  import opened Orders

  /** The inner loop: the first position from `i` on whose element is least.
      Positions before it hold strictly greater elements, positions after it
      none smaller. */
  method MinIndex<T(!new)>(a: seq<T>, i: nat, lt: (T, T) -> bool) returns (m: nat)
    requires i < |a| && StrictWeak(lt)
    ensures i <= m < |a|
    ensures forall j :: i <= j < |a| ==> !lt(a[j], a[m])
    ensures forall j :: i <= j < m ==> lt(a[m], a[j])
  {
    m := i;
    var j := i + 1;
    while j < |a|
      invariant i <= m < j <= |a|
      invariant forall x :: i <= x < j ==> !lt(a[x], a[m])
      invariant forall x :: i <= x < m ==> lt(a[m], a[x])
    {
      if lt(a[j], a[m]) {
        m := j;
      }
      j := j + 1;
    }
  }

  /** The outer loop: after round `i` the first `i + 1` positions are sorted
      and hold elements no later element is less than. */
  method SelectionSort<T(!new)>(a: seq<T>, lt: (T, T) -> bool) returns (r: seq<T>)
    requires StrictWeak(lt)
    ensures multiset(r) == multiset(a)
    ensures Sorted(r, lt)
  {
    r := a;
    var i := 0;
    while i < |r|
      invariant |r| == |a| && multiset(r) == multiset(a)
      invariant i <= |r|
      invariant forall p, q :: 0 <= p < q < i ==> !lt(r[q], r[p])
      invariant forall p, q :: 0 <= p < i <= q < |r| ==> !lt(r[q], r[p])
    {
      var m := MinIndex(r, i, lt);
      var prev := r;
      r := r[i := r[m]][m := r[i]];
      SwapStep(prev, r, i, m, lt);
      i := i + 1;
    }
  }

  /** Swapping a least element of the unsorted part into position `i` keeps
      the elements and extends the sorted prefix by one. */
  lemma SwapStep<T>(prev: seq<T>, r: seq<T>, i: nat, m: nat, lt: (T, T) -> bool)
    requires i <= m < |prev|
    requires forall j :: i <= j < |prev| ==> !lt(prev[j], prev[m])
    requires forall p, q :: 0 <= p < q < i ==> !lt(prev[q], prev[p])
    requires forall p, q :: 0 <= p < i <= q < |prev| ==> !lt(prev[q], prev[p])
    requires r == prev[i := prev[m]][m := prev[i]]
    ensures |r| == |prev| && multiset(r) == multiset(prev)
    ensures forall p, q :: 0 <= p < q < i + 1 ==> !lt(r[q], r[p])
    ensures forall p, q :: 0 <= p < i + 1 <= q < |r| ==> !lt(r[q], r[p])
  {
    forall p, q | 0 <= p < q < i + 1 ensures !lt(r[q], r[p]) {
      assert r[p] == prev[p];
      if q == i {
        assert r[q] == prev[m];
      } else {
        assert r[q] == prev[q];
      }
    }
    forall p, q | 0 <= p < i + 1 <= q < |r| ensures !lt(r[q], r[p]) {
      if p == i {
        assert r[p] == prev[m];
        assert r[q] == prev[q] || (q == m && r[q] == prev[i]);
      } else {
        assert r[p] == prev[p];
        assert r[q] == prev[q] || (q == m && r[q] == prev[i]);
      }
    }
  }
}
