/** `heapify` and `heap_sort` of `lab1/sorts/heap.py`, on a list viewed as
    a binary max-heap: the children of position `p` are `2p + 1` and `2p + 2`.
    Python sorts the list in place and returns nothing; here each step takes
    the list's contents and returns the new contents.
 */
module Heap {
  import opened Orders

  function Parent(c: nat): int {
    (c - 1) / 2
  }

  /** Position `j` lies in the subtree rooted at position `i`: following
      parents up from `j` reaches `i`. */
  ghost predicate InSubtree(i: nat, j: nat)
    decreases j
  {
    j == i || (j > i && InSubtree(i, (j - 1) / 2))
  }

  /** The subtree of a child of `i` lies inside the subtree of `i`. */
  lemma {:induction false} ChildSubtree(i: nat, c: nat, j: nat)
    requires c > 0 && Parent(c) == i && InSubtree(c, j)
    ensures InSubtree(i, j)
    decreases j
  {
    if j == c {
      assert InSubtree(i, (j - 1) / 2);
    } else {
      ChildSubtree(i, c, (j - 1) / 2);
    }
  }

  /** Swapping `i` with a later position `c` and then changing only
      positions `c` to `n - 1` changes only positions `i` to `n - 1`. */
  lemma RangeFrame<T>(a: seq<T>, b: seq<T>, r: seq<T>, n: nat, i: nat, c: nat)
    requires i < c < n <= |a| && b == a[i := a[c]][c := a[i]] && |r| == |a|
    requires forall j :: 0 <= j < |b| && !(c <= j < n) ==> r[j] == b[j]
    ensures forall j :: 0 <= j < |a| && !(i <= j < n) ==> r[j] == a[j]
  {
  }

  /** Swapping `i` with its child `c` and then changing only `c`'s subtree
      changes only `i`'s subtree. */
  lemma SubtreeFrame<T>(a: seq<T>, b: seq<T>, r: seq<T>, i: nat, c: nat)
    requires c < |a| && i < |a| && c > 0 && Parent(c) == i
    requires b == a[i := a[c]][c := a[i]] && |r| == |a|
    requires forall j :: 0 <= j < |b| && !InSubtree(c, j) ==> r[j] == b[j]
    ensures forall j :: 0 <= j < |a| && !InSubtree(i, j) ==> r[j] == a[j]
  {
    assert InSubtree(i, c) by {
      assert InSubtree(i, (c - 1) / 2);
    }
    forall j | 0 <= j < |a| && !InSubtree(i, j) ensures r[j] == a[j] {
      if InSubtree(c, j) {
        ChildSubtree(i, c, j);
      }
    }
  }

  /** Among the first `n` positions, every position whose parent is at `lo`
      or later holds an element not greater than its parent's. */
  ghost predicate HeapFrom<T>(a: seq<T>, lo: int, n: int, lt: (T, T) -> bool)
    requires n <= |a|
  {
    forall c :: 0 < c < n && lo <= Parent(c) ==> !lt(a[Parent(c)], a[c])
  }

  /** The heap property from `lo` on, except below position `i`; and `i`'s
      children are not greater than `i`'s parent (when that parent is at `lo`
      or later), so the element moved down from `i` is the only one out of
      place. */
  ghost predicate HeapExcept<T>(a: seq<T>, lo: int, n: int, i: nat, lt: (T, T) -> bool)
    requires n <= |a|
  {
    && (forall c :: 0 < c < n && lo <= Parent(c) && Parent(c) != i ==> !lt(a[Parent(c)], a[c]))
    && (0 < i < n && lo <= Parent(i) ==>
          forall c :: 0 < c < n && Parent(c) == i ==> !lt(a[Parent(i)], a[c]))
  }

  /** `heapify(arr, n, i)`: the largest of position `i` and its children
      within the first `n` positions is swapped into `i` (a child is chosen
      only when the current choice is less than it, so ties keep `i`, then
      the left child), and the function goes on from that child.  Only
      positions `i` to `n - 1` of `i`'s subtree change, and the elements
      are kept; if only
      `i` was out of place in a heap, the result is a heap. */
  method Heapify<T(!new)>(a: seq<T>, n: nat, i: nat, lt: (T, T) -> bool, ghost lo: int) returns (r: seq<T>)
    requires n <= |a| && StrictWeak(lt)
    ensures |r| == |a| && multiset(r) == multiset(a)
    ensures forall j :: 0 <= j < |a| && !(i <= j < n) ==> r[j] == a[j]
    ensures forall j :: 0 <= j < |a| && !InSubtree(i, j) ==> r[j] == a[j]
    ensures multiset(r[..n]) == multiset(a[..n])
    ensures lo <= i && HeapExcept(a, lo, n, i, lt) ==> HeapFrom(r, lo, n, lt)
    decreases n - i
  {
    var largest := i;
    var left := 2 * i + 1;
    var right := 2 * i + 2;
    if left < n && lt(a[i], a[left]) {
      largest := left;
    }
    if right < n && lt(a[largest], a[right]) {
      largest := right;
    }
    if largest != i {
      var b := a[i := a[largest]][largest := a[i]];
      SwapKeepsElements(a, b, n, i, largest);
      if lo <= i && HeapExcept(a, lo, n, i, lt) {
        LargestIsMax(a, n, i, largest, lt);
        SwapKeepsHeapExcept(a, b, lo, n, i, largest, lt);
      }
      r := Heapify(b, n, largest, lt, lo);
      RangeFrame(a, b, r, n, i, largest);
      SubtreeFrame(a, b, r, i, largest);
    } else {
      r := a;
      if lo <= i && HeapExcept(a, lo, n, i, lt) {
        StayIsHeap(a, lo, n, i, lt);
      }
    }
  }

  /** The position the two tests of `heapify` pick holds an element no child
      of `i` is greater than. */
  lemma LargestIsMax<T(!new)>(a: seq<T>, n: nat, i: nat, m: nat, lt: (T, T) -> bool)
    requires StrictWeak(lt) && n <= |a| && i < m < n
    requires m == 2 * i + 1 ==> lt(a[i], a[m]) && !(2 * i + 2 < n && lt(a[m], a[2 * i + 2]))
    requires m == 2 * i + 2 ==>
      (if 2 * i + 1 < n && lt(a[i], a[2 * i + 1]) then lt(a[2 * i + 1], a[m]) else lt(a[i], a[m]))
    requires m == 2 * i + 1 || m == 2 * i + 2
    ensures lt(a[i], a[m])
    ensures forall c :: 0 < c < n && Parent(c) == i ==> !lt(a[m], a[c])
  {
    forall c | 0 < c < n && Parent(c) == i ensures !lt(a[m], a[c]) {
      assert c == 2 * i + 1 || c == 2 * i + 2;
    }
  }

  lemma SwapKeepsElements<T>(a: seq<T>, b: seq<T>, n: nat, i: nat, m: nat)
    requires i < m < n <= |a|
    requires b == a[i := a[m]][m := a[i]]
    ensures multiset(b) == multiset(a) && multiset(b[..n]) == multiset(a[..n])
  {
    assert b[..n] == a[..n][i := a[m]][m := a[i]];
  }

  /** When neither child is greater than position `i`, nothing is out of place. */
  lemma StayIsHeap<T>(a: seq<T>, lo: int, n: nat, i: nat, lt: (T, T) -> bool)
    requires n <= |a| && lo <= i
    requires HeapExcept(a, lo, n, i, lt)
    requires !(2 * i + 1 < n && lt(a[i], a[2 * i + 1]))
    requires !(2 * i + 2 < n && lt(a[i], a[2 * i + 2]))
    ensures HeapFrom(a, lo, n, lt)
  {
    forall c | 0 < c < n && lo <= Parent(c) ensures !lt(a[Parent(c)], a[c]) {
      if Parent(c) == i {
        assert c == 2 * i + 1 || c == 2 * i + 2;
      }
    }
  }

  /** After the swap of `i` with its larger child `m`, the only fault left is
      below `m`. */
  lemma SwapKeepsHeapExcept<T(!new)>(a: seq<T>, b: seq<T>, lo: int, n: nat, i: nat, m: nat, lt: (T, T) -> bool)
    requires StrictWeak(lt) && n <= |a| && lo <= i
    requires HeapExcept(a, lo, n, i, lt)
    requires m < n && Parent(m) == i
    requires lt(a[i], a[m])
    requires forall c :: 0 < c < n && Parent(c) == i ==> !lt(a[m], a[c])
    requires b == a[i := a[m]][m := a[i]]
    ensures HeapExcept(b, lo, n, m, lt)
  {
    forall c | 0 < c < n && lo <= Parent(c) && Parent(c) != m ensures !lt(b[Parent(c)], b[c]) {
      if c == m {
        // b[i] = a[m], b[m] = a[i], and a[i] < a[m]
      } else if Parent(c) == i {
        assert b[c] == a[c];
      } else if c == i {
        assert b[c] == a[m];
        assert !lt(a[Parent(i)], a[m]);
      } else {
        assert b[c] == a[c];
        assert Parent(c) != i && Parent(c) != m;
        assert b[Parent(c)] == a[Parent(c)];
      }
    }
    forall c | 0 < c < n && Parent(c) == m ensures !lt(b[Parent(m)], b[c]) {
      assert b[c] == a[c];
      assert b[Parent(m)] == a[m];
    }
  }

  /** In a heap on the first `n` positions, no element is greater than the
      one at position 0. */
  lemma {:induction false} RootIsMax<T(!new)>(a: seq<T>, n: nat, j: nat, lt: (T, T) -> bool)
    requires StrictWeak(lt) && n <= |a| && j < n
    requires HeapFrom(a, 0, n, lt)
    ensures !lt(a[0], a[j])
    decreases j
  {
    if j > 0 {
      RootIsMax(a, n, Parent(j), lt);
    }
  }

  /** Positions after `k` hold the largest elements, in sorted order. */
  ghost predicate SortedTail<T>(r: seq<T>, k: int, lt: (T, T) -> bool) {
    && (forall p, q :: 0 <= p <= k < q < |r| ==> !lt(r[q], r[p]))
    && (forall p, q :: 0 <= p < q < |r| && k < p ==> !lt(r[q], r[p]))
  }

  /** The first loop of `heap_sort`: `heapify(arr, n, i)` for `i` from
      `n // 2 - 1` down to 0 turns the whole list into a heap. */
  method BuildHeap<T(!new)>(a: seq<T>, lt: (T, T) -> bool) returns (r: seq<T>)
    requires StrictWeak(lt)
    ensures |r| == |a| && multiset(r) == multiset(a)
    ensures HeapFrom(r, 0, |r|, lt)
  {
    var n := |a|;
    r := a;
    var i := n / 2 - 1;
    while i >= 0
      invariant -1 <= i <= n / 2 - 1
      invariant |r| == n && multiset(r) == multiset(a)
      invariant HeapFrom(r, i + 1, n, lt)
    {
      r := Heapify(r, n, i, lt, i);
      i := i - 1;
    }
  }

  /** One round of the second loop: after swapping the maximum to position
      `k` and re-heapifying the first `k` positions, the heap is one shorter
      and the sorted tail one longer. */
  lemma ExtractStep<T(!new)>(prev: seq<T>, s: seq<T>, r: seq<T>, k: nat, lt: (T, T) -> bool)
    requires StrictWeak(lt) && 0 < k < |prev|
    requires HeapFrom(prev, 0, k + 1, lt) && SortedTail(prev, k, lt)
    requires s == prev[k := prev[0]][0 := prev[k]]
    requires |r| == |s| && multiset(r[..k]) == multiset(s[..k])
    requires forall j :: 0 <= j < |s| && !(0 <= j < k) ==> r[j] == s[j]
    ensures SortedTail(r, k - 1, lt)
  {
    forall j | 0 <= j <= k ensures !lt(prev[0], prev[j]) {
      RootIsMax(prev, k + 1, j, lt);
    }
    forall p | 0 <= p < k ensures exists p' :: 0 <= p' <= k && r[p] == prev[p'] {
      assert r[..k][p] == r[p];
      assert r[p] in multiset(s[..k]);
      var p' :| 0 <= p' < k && s[..k][p'] == r[p];
      if p' == 0 {
        assert r[p] == prev[k];
      } else {
        assert r[p] == prev[p'];
      }
    }
  }

  /** The heap of the first `k + 1` positions minus its root, with the old
      last leaf moved to the root, is a heap except at the root. */
  lemma SwapRootIsHeapExcept<T>(prev: seq<T>, s: seq<T>, k: nat, lt: (T, T) -> bool)
    requires 0 < k < |prev| && HeapFrom(prev, 0, k + 1, lt)
    requires s == prev[k := prev[0]][0 := prev[k]]
    ensures HeapExcept(s, 0, k, 0, lt)
  {
    forall c | 0 < c < k && Parent(c) != 0 ensures !lt(s[Parent(c)], s[c]) {
      assert s[c] == prev[c] && s[Parent(c)] == prev[Parent(c)];
    }
  }

  /** `heap_sort(arr)`: build the heap, then repeatedly swap the maximum to
      the end of the heap part and restore the heap on what is left. */
  method HeapSort<T(!new)>(a: seq<T>, lt: (T, T) -> bool) returns (r: seq<T>)
    requires StrictWeak(lt)
    ensures multiset(r) == multiset(a)
    ensures Sorted(r, lt)
  {
    r := BuildHeap(a, lt);
    var n := |a|;
    var k := n - 1;
    while k > 0
      invariant n == 0 || 0 <= k < n
      invariant |r| == n && multiset(r) == multiset(a)
      invariant n > 0 ==> HeapFrom(r, 0, k + 1, lt)
      invariant SortedTail(r, k, lt)
    {
      var prev := r;
      var s := prev[k := prev[0]][0 := prev[k]];
      SwapRootIsHeapExcept(prev, s, k, lt);
      r := Heapify(s, k, 0, lt, 0);
      ExtractStep(prev, s, r, k, lt);
      k := k - 1;
    }
  }
}
