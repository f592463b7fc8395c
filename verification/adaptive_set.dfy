/** The adaptive integer set of `lab4/main.cpp`.

    Three implementations keep the elements in insertion order:
     - `ArraySet`: a fixed array of 100 slots; `add` silently does nothing
       when all slots are used; `remove` moves the last element into the
       freed slot;
     - `VectorSet`: a growable vector; `remove` erases the first occurrence;
     - `ListSet`: a linked list; `remove` erases every occurrence.
    `Set` wraps one of them and, after every `add` and `remove`, rebuilds it
    with `switchImpl`: from the size `n` after the operation and an `element`
    of `+1` (add) or `-1` (remove), it picks an array when `n + element <= 100`,
    a vector when `n + element <= 1000`, and a list otherwise, then copies
    the elements over by index.  The sum is computed in `size_t`, so for an
    empty set and `-1` it wraps round to 2^64 - 1.
 */
module AdaptiveSet {
  import opened Wrappers

  /** `int data[100]` of `ArraySet`. */
  const ArrayCapacity: nat := 100
  /** The vector / list threshold of `switchImpl`. */
  const VectorLimit: nat := 1000
  /** `size_t` is 64 bits wide. */
  const SizeTModulus: nat := 0x1_0000_0000_0000_0000

  datatype Impl = ArraySet(elems: seq<int>) | VectorSet(elems: seq<int>) | ListSet(elems: seq<int>)

  datatype Error = OutOfRange

  predicate NoDup(s: seq<int>) {
    forall i, j :: 0 <= i < j < |s| ==> s[i] != s[j]
  }

  /** What every implementation keeps: no element twice, and an array never
      holds more than its 100 slots. */
  predicate ImplValid(impl: Impl) {
    NoDup(impl.elems) && (impl.ArraySet? ==> |impl.elems| <= ArrayCapacity)
  }

  function Elems(impl: Impl): set<int> {
    set x | x in impl.elems
  }

  /** The same implementation kind holding `xs`. */
  function WithElems(impl: Impl, xs: seq<int>): (r: Impl)
    ensures r.elems == xs
  {
    match impl
    case ArraySet(_) => ArraySet(xs)
    case VectorSet(_) => VectorSet(xs)
    case ListSet(_) => ListSet(xs)
  }

  /** The linear scan of `contains` / `std::find`: the first position of `v`,
      or -1. */
  function IndexOf(s: seq<int>, v: int): (r: int)
    ensures -1 <= r < |s|
    ensures r == -1 <==> v !in s
    ensures r >= 0 ==> s[r] == v && v !in s[..r]
  {
    if |s| == 0 then -1
    else if s[0] == v then 0
    else
      var r := IndexOf(s[1..], v);
      assert s[1..] == s[1..];
      if r == -1 then -1
      else
        assert s[..r + 1] == [s[0]] + s[1..][..r];
        r + 1
  }

  /** `contains(value)` of each implementation. */
  function Contains(impl: Impl, v: int): (r: bool)
    ensures r <==> v in Elems(impl)
  {
    IndexOf(impl.elems, v) >= 0
  }

  function Size(impl: Impl): nat {
    |impl.elems|
  }

  /** `get(index)`: the element at that position, or `std::out_of_range`. */
  function Get(impl: Impl, index: nat): (r: Result<int, Error>)
    ensures r.Ok? <==> index < Size(impl)
    ensures r.Ok? ==> r.value in Elems(impl) && r.value == impl.elems[index]
  {
    if index < |impl.elems| then Ok(impl.elems[index]) else Err(OutOfRange)
  }

  /** `add(value)` of each implementation: append when absent, except that a
      full array ignores the value. */
  function ImplAdd(impl: Impl, v: int): (r: Impl)
    ensures r.ArraySet? == impl.ArraySet? && r.VectorSet? == impl.VectorSet?
  {
    if Contains(impl, v) || (impl.ArraySet? && |impl.elems| >= ArrayCapacity) then impl
    else WithElems(impl, impl.elems + [v])
  }

  /** `std::list::remove`: every occurrence goes. */
  function RemoveAll(s: seq<int>, v: int): (r: seq<int>)
    ensures v !in r
    ensures forall x :: x in r <==> x in s && x != v
    ensures |r| <= |s|
    ensures v !in s ==> r == s
  {
    if |s| == 0 then []
    else (if s[0] == v then [] else [s[0]]) + RemoveAll(s[1..], v)
  }

  /** `remove(value)` of each implementation. */
  function ImplRemove(impl: Impl, v: int): (r: Impl)
    ensures r.ArraySet? == impl.ArraySet? && r.VectorSet? == impl.VectorSet?
  {
    match impl
    case ArraySet(e) =>
      var i := IndexOf(e, v);
      if i < 0 then impl else ArraySet(e[i := e[|e| - 1]][..|e| - 1])
    case VectorSet(e) =>
      var i := IndexOf(e, v);
      if i < 0 then impl else VectorSet(e[..i] + e[i + 1..])
    case ListSet(e) => ListSet(RemoveAll(e, v))
  }

  /** On a valid implementation `add` keeps it valid and adds the value,
      unless an array is full: then nothing changes. */
  lemma ImplAddSpec(impl: Impl, v: int)
    requires ImplValid(impl)
    ensures ImplValid(ImplAdd(impl, v))
    ensures impl.ArraySet? && |impl.elems| == ArrayCapacity && v !in impl.elems ==>
              ImplAdd(impl, v) == impl
    ensures !(impl.ArraySet? && |impl.elems| == ArrayCapacity) ==>
              Elems(ImplAdd(impl, v)) == Elems(impl) + {v}
    ensures Size(ImplAdd(impl, v)) == Size(impl) + (if v in Elems(ImplAdd(impl, v)) - Elems(impl) then 1 else 0)
  {
    var r := ImplAdd(impl, v);
    if r != impl {
      assert r.elems == impl.elems + [v];
      assert Elems(r) == Elems(impl) + {v};
    }
  }

  /** On a valid implementation `remove` keeps it valid, removes exactly the
      value, and shrinks the size by one exactly when the value was there. */
  lemma ImplRemoveSpec(impl: Impl, v: int)
    requires ImplValid(impl)
    ensures ImplValid(ImplRemove(impl, v))
    ensures Elems(ImplRemove(impl, v)) == Elems(impl) - {v}
    ensures Size(ImplRemove(impl, v)) == Size(impl) - (if v in Elems(impl) then 1 else 0)
    ensures !impl.ArraySet? ==> ImplRemove(impl, v).elems == RemoveAll(impl.elems, v)
  {
    var e := impl.elems;
    match impl
    case ArraySet(_) =>
      ArrayRemoveSpec(e, v);
      RemovesOneElems(impl, ImplRemove(impl, v), v);
    case VectorSet(_) =>
      VectorRemoveSpec(e, v);
      RemovesOneElems(impl, ImplRemove(impl, v), v);
    case ListSet(_) =>
      ListRemoveSpec(e, v);
      RemovesOneElems(impl, ImplRemove(impl, v), v);
  }

  lemma RemovesOneElems(impl: Impl, r: Impl, v: int)
    requires RemovesOne(impl.elems, r.elems, v)
    ensures Elems(r) == Elems(impl) - {v}
    ensures Size(r) == Size(impl) - (if v in Elems(impl) then 1 else 0)
  {
    forall x ensures x in Elems(r) <==> x in Elems(impl) - {v} {
      assert x in r.elems <==> x in impl.elems && x != v;
    }
  }

  /** What each implementation's removal does to the element sequence. */
  ghost predicate RemovesOne(e: seq<int>, r: seq<int>, v: int) {
    && NoDup(r)
    && (forall x :: x in r <==> x in e && x != v)
    && |r| == |e| - (if v in e then 1 else 0)
  }

  lemma ArrayRemoveSpec(e: seq<int>, v: int)
    requires NoDup(e)
    ensures RemovesOne(e, ImplRemove(ArraySet(e), v).elems, v)
  {
    var i := IndexOf(e, v);
    if i >= 0 {
      MoveLastSpec(e, i);
    }
  }

  lemma VectorRemoveSpec(e: seq<int>, v: int)
    requires NoDup(e)
    ensures RemovesOne(e, ImplRemove(VectorSet(e), v).elems, v)
    ensures ImplRemove(VectorSet(e), v).elems == RemoveAll(e, v)
  {
    var i := IndexOf(e, v);
    if i >= 0 {
      EraseSpec(e, i);
      EraseIsRemoveAll(e, v);
    }
  }

  lemma ListRemoveSpec(e: seq<int>, v: int)
    requires NoDup(e)
    ensures RemovesOne(e, ImplRemove(ListSet(e), v).elems, v)
  {
    if v in e {
      RemoveAllKeeps(e, v);
    }
  }

  /** Without duplicates, erasing the first occurrence is removing every
      occurrence: the vector and the list agree, and both keep the order of
      the remaining elements. */
  lemma {:induction false} EraseIsRemoveAll(e: seq<int>, v: int)
    requires NoDup(e) && v in e
    ensures var i := IndexOf(e, v); e[..i] + e[i + 1..] == RemoveAll(e, v)
  {
    if e[0] == v {
      EraseHead(e, v);
    } else {
      NoDupTail(e);
      assert v in e[1..] by { assert e == [e[0]] + e[1..]; }
      EraseIsRemoveAll(e[1..], v);
      EraseCons(e, v);
      SliceCons(e, IndexOf(e[1..], v));
    }
  }

  /** Erasing a first element that occurs nowhere else leaves the tail. */
  lemma EraseHead(e: seq<int>, v: int)
    requires NoDup(e) && |e| > 0 && e[0] == v
    ensures IndexOf(e, v) == 0 && e[..0] + e[1..] == RemoveAll(e, v)
  {
    assert v !in e[1..] by {
      forall j | 0 <= j < |e[1..]| ensures e[1..][j] != v {
        assert e[1..][j] == e[j + 1];
      }
    }
    assert RemoveAll(e, v) == [] + RemoveAll(e[1..], v);
  }

  /** Past a first element other than `v`, both removals keep that element
      and work on the tail. */
  lemma EraseCons(e: seq<int>, v: int)
    requires |e| > 0 && e[0] != v && v in e[1..]
    ensures IndexOf(e, v) == IndexOf(e[1..], v) + 1
    ensures RemoveAll(e, v) == [e[0]] + RemoveAll(e[1..], v)
  {
  }

  lemma SliceCons(e: seq<int>, i: nat)
    requires i + 1 < |e|
    ensures e[..i + 1] + e[i + 2..] == [e[0]] + (e[1..][..i] + e[1..][i + 1..])
  {
    assert e[..i + 1] == [e[0]] + e[1..][..i];
    assert e[i + 2..] == e[1..][i + 1..];
  }

  lemma NoDupTail(e: seq<int>)
    requires NoDup(e) && |e| > 0
    ensures NoDup(e[1..])
  {
    forall a, b | 0 <= a < b < |e[1..]| ensures e[1..][a] != e[1..][b] {
      assert e[1..][a] == e[a + 1] && e[1..][b] == e[b + 1];
    }
  }

  /** The array's removal: the last element moves into slot `i`. */
  lemma MoveLastSpec(e: seq<int>, i: nat)
    requires NoDup(e) && i < |e|
    ensures var r := e[i := e[|e| - 1]][..|e| - 1];
      NoDup(r) && |r| == |e| - 1 && forall x :: x in r <==> x in e && x != e[i]
  {
    var n := |e| - 1;
    var r := e[i := e[n]][..n];
    forall x ensures x in r <==> x in e && x != e[i] {
      if x in e && x != e[i] {
        var j :| 0 <= j < |e| && e[j] == x;
        if j == n { assert r[i] == x; } else { assert r[j] == x; }
      }
    }
    forall a, b | 0 <= a < b < |r| ensures r[a] != r[b] {
      if a == i { assert r[a] == e[n] && r[b] == e[b]; }
      else if b == i { assert r[b] == e[n] && r[a] == e[a]; }
      else { assert r[a] == e[a] && r[b] == e[b]; }
    }
  }

  /** The vector's removal: `erase` at position `i`. */
  lemma EraseSpec(e: seq<int>, i: nat)
    requires NoDup(e) && i < |e|
    ensures var r := e[..i] + e[i + 1..];
      NoDup(r) && |r| == |e| - 1 && forall x :: x in r <==> x in e && x != e[i]
  {
    var r := e[..i] + e[i + 1..];
    forall x ensures x in r <==> x in e && x != e[i] {
      if x in e && x != e[i] {
        var j :| 0 <= j < |e| && e[j] == x;
        if j < i { assert r[j] == x; } else { assert r[j - 1] == x; }
      }
      if x in r {
        var j :| 0 <= j < |r| && r[j] == x;
        if j < i { assert e[j] == x; } else { assert e[j + 1] == x; }
      }
    }
    forall a, b | 0 <= a < b < |r| ensures r[a] != r[b] {
      var a', b' := if a < i then a else a + 1, if b < i then b else b + 1;
      assert r[a] == e[a'] && r[b] == e[b'];
    }
  }

  lemma {:induction false} RemoveAllKeeps(s: seq<int>, v: int)
    requires NoDup(s) && v in s
    ensures NoDup(RemoveAll(s, v)) && |RemoveAll(s, v)| == |s| - 1
  {
    if s[0] == v {
      assert v !in s[1..];
      assert RemoveAll(s[1..], v) == s[1..];
    } else {
      RemoveAllKeeps(s[1..], v);
      var r := RemoveAll(s[1..], v);
      assert s[0] !in r;
      assert RemoveAll(s, v) == [s[0]] + r;
    }
  }

  // ---------------------------------------------------------------------
  // switchImpl

  /** The copy loop of `switchImpl`: `newImpl->add(impl->get(i))` for every
      index in order. */
  function Transfer(target: Impl, xs: seq<int>): Impl
    decreases |xs|
  {
    if |xs| == 0 then target else Transfer(ImplAdd(target, xs[0]), xs[1..])
  }

  /** Copying distinct elements into a vector or a list appends them all. */
  lemma {:induction false} TransferAppends(target: Impl, xs: seq<int>)
    requires !target.ArraySet? && NoDup(target.elems + xs)
    ensures Transfer(target, xs) == WithElems(target, target.elems + xs)
    decreases |xs|
  {
    if |xs| > 0 {
      var e := target.elems;
      FirstNotBefore(e, xs);
      var t' := ImplAdd(target, xs[0]);
      assert t'.elems + xs[1..] == e + xs;
      TransferAppends(t', xs[1..]);
    }
  }

  /** Copying distinct elements into an array keeps as many as there are
      free slots and drops the rest. */
  lemma {:induction false} TransferFills(e: seq<int>, xs: seq<int>)
    requires |e| <= ArrayCapacity && NoDup(e + xs)
    ensures Transfer(ArraySet(e), xs) == ArraySet(e + xs[..Min(|xs|, ArrayCapacity - |e|)])
    decreases |xs|
  {
    if |xs| > 0 {
      if |e| == ArrayCapacity {
        NoDupSkip(e, xs);
        TransferFills(e, xs[1..]);
        FillsFull(e, xs);
      } else {
        assert (e + [xs[0]]) + xs[1..] == e + xs;
        TransferFills(e + [xs[0]], xs[1..]);
        FirstNotBefore(e, xs);
        FillsFree(e, xs);
      }
    }
  }

  /** A full array ignores the next element. */
  lemma FillsFull(e: seq<int>, xs: seq<int>)
    requires |e| == ArrayCapacity && |xs| > 0
    requires Transfer(ArraySet(e), xs[1..]) == ArraySet(e + xs[1..][..Min(|xs| - 1, 0)])
    ensures Transfer(ArraySet(e), xs) == ArraySet(e + xs[..Min(|xs|, 0)])
  {
    assert ImplAdd(ArraySet(e), xs[0]) == ArraySet(e);
    assert e + xs[..0] == e + xs[1..][..0];
  }

  /** An array with a free slot takes the next element, which is new. */
  lemma FillsFree(e: seq<int>, xs: seq<int>)
    requires |e| < ArrayCapacity && |xs| > 0 && xs[0] !in e
    requires Transfer(ArraySet(e + [xs[0]]), xs[1..])
          == ArraySet(e + [xs[0]] + xs[1..][..Min(|xs| - 1, ArrayCapacity - |e| - 1)])
    ensures Transfer(ArraySet(e), xs) == ArraySet(e + xs[..Min(|xs|, ArrayCapacity - |e|)])
  {
    TransferFresh(e, xs);
    FillPrefix(e, xs);
  }

  lemma TransferFresh(e: seq<int>, xs: seq<int>)
    requires |e| < ArrayCapacity && |xs| > 0 && xs[0] !in e
    ensures Transfer(ArraySet(e), xs) == Transfer(ArraySet(e + [xs[0]]), xs[1..])
  {
    assert !Contains(ArraySet(e), xs[0]);
    assert ImplAdd(ArraySet(e), xs[0]) == ArraySet(e + [xs[0]]);
  }

  lemma FillPrefix(e: seq<int>, xs: seq<int>)
    requires |e| < ArrayCapacity && |xs| > 0
    ensures e + [xs[0]] + xs[1..][..Min(|xs| - 1, ArrayCapacity - |e| - 1)]
         == e + xs[..Min(|xs|, ArrayCapacity - |e|)]
  {
    var k := Min(|xs| - 1, ArrayCapacity - |e| - 1);
    assert Min(|xs|, ArrayCapacity - |e|) == k + 1;
    assert xs[..k + 1] == [xs[0]] + xs[1..][..k];
  }

  /** Skipping the first of the elements after `e` keeps them distinct. */
  lemma NoDupSkip(e: seq<int>, xs: seq<int>)
    requires NoDup(e + xs) && |xs| > 0
    ensures NoDup(e + xs[1..])
  {
    EraseSpec(e + xs, |e|);
    assert (e + xs)[..|e|] + (e + xs)[|e| + 1..] == e + xs[1..];
  }

  /** In a sequence without duplicates, what follows `e` is not in `e`. */
  lemma FirstNotBefore(e: seq<int>, xs: seq<int>)
    requires NoDup(e + xs) && |xs| > 0
    ensures xs[0] !in e
  {
    forall j | 0 <= j < |e| ensures e[j] != xs[0] {
      assert (e + xs)[j] == e[j] && (e + xs)[|e|] == xs[0];
    }
  }

  function Min(a: int, b: int): int {
    if a < b then a else b
  }

  /** The kind of implementation `switchImpl(element)` picks for `n`
      elements: the sum `n + element` is taken modulo 2^64. */
  function Pick(n: nat, element: int): Impl {
    var target := (n + element) % SizeTModulus;
    if target <= ArrayCapacity then ArraySet([])
    else if target <= VectorLimit then VectorSet([])
    else ListSet([])
  }

  /** `switchImpl(element)`: a fresh implementation of the picked kind with
      the elements copied over in index order; only an array can lose any,
      namely all past the first 100. */
  function SwitchImpl(impl: Impl, element: int): Impl {
    Transfer(Pick(|impl.elems|, element), impl.elems)
  }

  // ---------------------------------------------------------------------
  // Set

  datatype Set = Set(impl: Impl)

  /** `Set()` starts with an empty array. */
  function NewSet(): (s: Set)
    ensures ImplValid(s.impl) && Elems(s.impl) == {}
  {
    Set(ArraySet([]))
  }

  /** `Set::add` */
  function Add(s: Set, v: int): Set {
    Set(SwitchImpl(ImplAdd(s.impl, v), 1))
  }

  /** `Set::remove` as written. */
  function Remove(s: Set, v: int): Set {
    Set(SwitchImpl(ImplRemove(s.impl, v), -1))
  }

  function SetContains(s: Set, v: int): bool {
    Contains(s.impl, v)
  }

  function SetSize(s: Set): nat {
    Size(s.impl)
  }

  /** A copy of distinct elements keeps them all, in order, unless the
      picked implementation is an array and there are more than 100: then
      only the first 100 survive. */
  lemma SwitchKeeps(impl: Impl, element: int)
    requires NoDup(impl.elems)
    ensures ImplValid(SwitchImpl(impl, element))
    ensures SwitchImpl(impl, element) ==
              WithElems(Pick(|impl.elems|, element),
                        if Pick(|impl.elems|, element).ArraySet? && |impl.elems| > ArrayCapacity
                        then impl.elems[..ArrayCapacity] else impl.elems)
  {
    var e := impl.elems;
    var blank := Pick(|e|, element);
    if blank.ArraySet? {
      assert blank == ArraySet([]);
      SwitchToArray(e);
    } else {
      assert blank.elems + e == e;
      TransferAppends(blank, e);
    }
  }

  /** Copying distinct elements into an empty array keeps the first 100. */
  lemma SwitchToArray(e: seq<int>)
    requires NoDup(e)
    ensures var kept := if |e| > ArrayCapacity then e[..ArrayCapacity] else e;
      Transfer(ArraySet([]), e) == ArraySet(kept) && ImplValid(ArraySet(kept))
  {
    assert [] + e == e;
    TransferFills([], e);
    if |e| > ArrayCapacity {
      assert [] + e[..Min(|e|, ArrayCapacity)] == e[..ArrayCapacity];
      NoDupPrefix(e, ArrayCapacity);
    } else {
      assert [] + e[..Min(|e|, ArrayCapacity)] == e;
    }
  }

  lemma NoDupPrefix(e: seq<int>, k: nat)
    requires NoDup(e) && k <= |e|
    ensures NoDup(e[..k])
  {
    forall i, j | 0 <= i < j < k ensures e[..k][i] != e[..k][j] {
      assert e[..k][i] == e[i] && e[..k][j] == e[j];
    }
  }

  /** A set that can grow by one and still have its size plus one fit in a
      `size_t`: no set held in memory comes anywhere near that. */
  predicate Addressable(impl: Impl) {
    |impl.elems| + 2 < SizeTModulus
  }

  /** `Set::add` as written keeps the implementation valid and adds the value
      unless the set sits in a full array, in which case the value is lost. */
  lemma AddSpec(s: Set, v: int)
    requires ImplValid(s.impl) && Addressable(s.impl)
    ensures ImplValid(Add(s, v).impl)
    ensures !(s.impl.ArraySet? && |s.impl.elems| == ArrayCapacity) ==>
              Elems(Add(s, v).impl) == Elems(s.impl) + {v}
    ensures s.impl.ArraySet? && |s.impl.elems| == ArrayCapacity ==>
              Elems(Add(s, v).impl) == Elems(s.impl)
  {
    ImplAddSpec(s.impl, v);
    var a := ImplAdd(s.impl, v);
    SwitchKeeps(a, 1);
    var n := |a.elems|;
    assert n + 1 < SizeTModulus;
    assert (n + 1) % SizeTModulus == n + 1;
  }

  /** `Set::remove` as written keeps the implementation valid and removes the
      value, unless 101 elements remain: then the array `switchImpl(-1)`
      picks keeps only the first 100 and the last element is lost too. */
  lemma RemoveSpec(s: Set, v: int)
    requires ImplValid(s.impl) && Addressable(s.impl)
    ensures ImplValid(Remove(s, v).impl)
    ensures Size(ImplRemove(s.impl, v)) != ArrayCapacity + 1 ==>
              Elems(Remove(s, v).impl) == Elems(s.impl) - {v}
    ensures Size(ImplRemove(s.impl, v)) == ArrayCapacity + 1 ==>
              Remove(s, v).impl == ArraySet(ImplRemove(s.impl, v).elems[..ArrayCapacity])
    ensures !SetContains(Remove(s, v), v)
  {
    ImplRemoveSpec(s.impl, v);
    var r := ImplRemove(s.impl, v);
    SwitchKeeps(r, -1);
    if Pick(|r.elems|, -1).ArraySet? && |r.elems| > ArrayCapacity {
      assert |r.elems| == ArrayCapacity + 1;
    }
  }

  /** Removing from an empty set: `0 + (size_t)-1` wraps round to 2^64 - 1,
      so the empty set moves to a list. */
  lemma RemoveFromEmpty(v: int)
    ensures Remove(NewSet(), v) == Set(ListSet([]))
  {
  }

  // ---------------------------------------------------------------------
  // The lost elements, and the corrected `remove`

  /** `0, 1, ..., n - 1` */
  function Range(n: nat): (r: seq<int>)
    ensures |r| == n && forall i :: 0 <= i < n ==> r[i] == i
  {
    seq(n, i => i)
  }

  /** `add(0)`, `add(1)`, ..., `add(n - 1)` on a new set, as `main` does. */
  function AddRange(n: nat): Set {
    if n == 0 then NewSet() else Add(AddRange(n - 1), n - 1)
  }

  /** Adding `0 .. n-1` keeps every element: the set is an array while it
      has fewer than 100 elements and a vector from 100 up to 999. */
  lemma {:induction false} AddRangeShape(n: nat)
    requires n < VectorLimit
    ensures AddRange(n).impl == if n < ArrayCapacity then ArraySet(Range(n)) else VectorSet(Range(n))
  {
    if n > 0 {
      AddRangeShape(n - 1);
      AddRangeStep(AddRange(n - 1), n);
    }
  }

  /** One step of `AddRange`: adding `n - 1` to the set holding `0 .. n-2`. */
  lemma AddRangeStep(prev: Set, n: nat)
    requires 0 < n < VectorLimit
    requires prev.impl == if n - 1 < ArrayCapacity then ArraySet(Range(n - 1)) else VectorSet(Range(n - 1))
    ensures Add(prev, n - 1).impl == if n < ArrayCapacity then ArraySet(Range(n)) else VectorSet(Range(n))
  {
    assert n - 1 !in Range(n - 1);
    assert Range(n - 1) + [n - 1] == Range(n);
    AddNew(prev, n - 1);
    assert (n + 1) % SizeTModulus == n + 1;
    if n < ArrayCapacity {
      assert Pick(n, 1) == ArraySet([]);
    } else {
      assert Pick(n, 1) == VectorSet([]);
    }
  }

  /** Adding a new value to a set with a free slot appends it, then moves
      the elements to the kind `switchImpl(1)` picks. */
  lemma AddNew(s: Set, v: int)
    requires Good(s) && Addressable(s.impl) && v !in s.impl.elems
    ensures Add(s, v).impl == WithElems(Pick(|s.impl.elems| + 1, 1), s.impl.elems + [v])
  {
    var a := ImplAdd(s.impl, v);
    ImplAddSpec(s.impl, v);
    assert a.elems == s.impl.elems + [v];
    SwitchKeeps(a, 1);
    var n := |a.elems|;
    assert (n + 1) % SizeTModulus == n + 1;
  }

  /** As written: when a removal leaves 101 elements, `switchImpl(-1)`
      picks an array and the 101st element is lost.  `AddRange(101)` is such
      a set, with `500` as the removed value. */
  lemma RemoveLosesElement(s: Set, v: int)
    requires ImplValid(s.impl) && |s.impl.elems| == ArrayCapacity + 1 && v !in s.impl.elems
    ensures s.impl.elems[ArrayCapacity] in Elems(s.impl) - {v}
    ensures s.impl.elems[ArrayCapacity] !in Elems(Remove(s, v).impl)
    ensures Remove(s, v).impl == ArraySet(s.impl.elems[..ArrayCapacity])
  {
    RemoveSpec(s, v);
    var e := s.impl.elems;
    forall j | 0 <= j < ArrayCapacity ensures e[..ArrayCapacity][j] != e[ArrayCapacity] {
      assert e[..ArrayCapacity][j] == e[j];
    }
  }

  /** Adding `0 .. 100` to a new set reaches the case above. */
  lemma AddRangeReachesLoss()
    ensures ImplValid(AddRange(ArrayCapacity + 1).impl)
    ensures AddRange(ArrayCapacity + 1).impl.elems == Range(ArrayCapacity + 1)
    ensures 500 !in AddRange(ArrayCapacity + 1).impl.elems
  {
    AddRangeShape(ArrayCapacity + 1);
  }

  /** As written: the array that remains is full, so the next `add` of a new
      value is silently dropped. */
  lemma AddAfterRemoveIsLost(s: Set, v: int, w: int)
    requires ImplValid(s.impl) && |s.impl.elems| == ArrayCapacity + 1 && v !in s.impl.elems
    requires w !in s.impl.elems
    ensures w !in Elems(Add(Remove(s, v), w).impl)
  {
    RemoveLosesElement(s, v);
    var r := Remove(s, v);
    NoDupPrefix(s.impl.elems, ArrayCapacity);
    AddSpec(r, w);
    assert w !in s.impl.elems[..ArrayCapacity];
  }

  /** The corrected `Set::remove`: `switchImpl(1)` after the removal, as
      `Set::add` does, so that an array is picked only when it keeps a free
      slot. */
  function FixedRemove(s: Set, v: int): Set {
    Set(SwitchImpl(ImplRemove(s.impl, v), 1))
  }

  /** What `Set` keeps between calls once `remove` is corrected: a valid
      implementation, and an array only while it still has a free slot. */
  predicate Good(s: Set) {
    ImplValid(s.impl) && (s.impl.ArraySet? ==> |s.impl.elems| < ArrayCapacity)
  }

  lemma NewSetGood()
    ensures Good(NewSet())
  {
  }

  /** With the invariant, `add` adds exactly the value and keeps the invariant. */
  lemma AddGood(s: Set, v: int)
    requires Good(s) && Addressable(s.impl)
    ensures Good(Add(s, v))
    ensures Elems(Add(s, v).impl) == Elems(s.impl) + {v}
    ensures Size(Add(s, v).impl) == Size(s.impl) + (if v in Elems(s.impl) then 0 else 1)
  {
    ImplAddSpec(s.impl, v);
    SwitchUp(ImplAdd(s.impl, v));
  }

  /** `switchImpl(1)` on distinct elements keeps them all and picks an array
      exactly when one more element would still fit. */
  lemma SwitchUp(impl: Impl)
    requires NoDup(impl.elems) && |impl.elems| + 1 < SizeTModulus
    ensures SwitchImpl(impl, 1).elems == impl.elems
    ensures Elems(SwitchImpl(impl, 1)) == Elems(impl)
    ensures ImplValid(SwitchImpl(impl, 1))
    ensures SwitchImpl(impl, 1).ArraySet? <==> |impl.elems| < ArrayCapacity
  {
    var n := |impl.elems|;
    assert (n + 1) % SizeTModulus == n + 1;
    SwitchKeeps(impl, 1);
  }

  /** With the invariant, the corrected `remove` removes exactly the value,
      loses nothing else, and keeps the invariant. */
  lemma FixedRemoveGood(s: Set, v: int)
    requires Good(s) && Addressable(s.impl)
    ensures Good(FixedRemove(s, v))
    ensures Elems(FixedRemove(s, v).impl) == Elems(s.impl) - {v}
    ensures Size(FixedRemove(s, v).impl) == Size(s.impl) - (if v in Elems(s.impl) then 1 else 0)
  {
    ImplRemoveSpec(s.impl, v);
    SwitchUp(ImplRemove(s.impl, v));
  }

  /** Where the original loses an element, the corrected `remove` keeps
      them all. */
  lemma FixedRemoveKeepsElement(s: Set, v: int)
    requires ImplValid(s.impl) && |s.impl.elems| == ArrayCapacity + 1 && v !in s.impl.elems
    ensures Elems(FixedRemove(s, v).impl) == Elems(s.impl)
    ensures Size(FixedRemove(s, v).impl) == ArrayCapacity + 1
  {
    ImplRemoveSpec(s.impl, v);
    SwitchUp(ImplRemove(s.impl, v));
  }

  datatype Op = AddOp(value: int) | RemoveOp(value: int)

  /** A run of `add` and `remove` calls with the corrected `remove`. */
  function Run(s: Set, ops: seq<Op>): Set
    decreases |ops|
  {
    if |ops| == 0 then s
    else
      var s' := match ops[0]
        case AddOp(v) => Add(s, v)
        case RemoveOp(v) => FixedRemove(s, v);
      Run(s', ops[1..])
  }

  /** The same run on a mathematical set. */
  function Reference(a: set<int>, ops: seq<Op>): set<int>
    decreases |ops|
  {
    if |ops| == 0 then a
    else
      var a' := match ops[0]
        case AddOp(v) => a + {v}
        case RemoveOp(v) => a - {v};
      Reference(a', ops[1..])
  }

  /** Once `remove` is corrected, any run of calls (fewer than 2^64 - 2 of
      them) holds exactly the elements the mathematical set would. */
  lemma {:induction false} RunMatchesReference(s: Set, ops: seq<Op>)
    requires Good(s) && |s.impl.elems| + |ops| + 2 < SizeTModulus
    ensures Good(Run(s, ops))
    ensures Elems(Run(s, ops).impl) == Reference(Elems(s.impl), ops)
    decreases |ops|
  {
    if |ops| > 0 {
      match ops[0]
      case AddOp(v) =>
        AddGood(s, v);
        RunMatchesReference(Add(s, v), ops[1..]);
      case RemoveOp(v) =>
        FixedRemoveGood(s, v);
        RunMatchesReference(FixedRemove(s, v), ops[1..]);
    }
  }
}
