/** The unbalanced binary search tree multimap of `lab2/algos/bin_tree.py`.

    A key smaller than a node's key goes left, any other key (an equal one
    included) goes right, so duplicates are all kept.  A search collects the
    data of every node whose key equals the searched key: on a match it looks
    into both subtrees.  The Python object's `root is None` is `Leaf` here.
 */
module BinTree {
  import opened Orders
  import opened Entries

  datatype Tree<K, D> = Leaf | Node(left: Tree<K, D>, key: K, data: D, right: Tree<K, D>)

  /** The entries in in-order (left, node, right) sequence. */
  function InOrder<K, D>(t: Tree<K, D>): seq<(K, D)> {
    match t
    case Leaf => []
    case Node(l, k, d, r) => InOrder(l) + [(k, d)] + InOrder(r)
  }

  function Size<K, D>(t: Tree<K, D>): nat {
    match t
    case Leaf => 0
    case Node(l, _, _, r) => Size(l) + 1 + Size(r)
  }

  /** `r` is `t` with exactly one `Leaf` replaced by a new node holding
      (k, d): the `Leaf` reached by going left at every node whose key `k`
      is less than, and right at every other node.  Every node of `t` keeps
      its key, data and place. */
  ghost predicate AddsOneLeaf<K, D>(t: Tree<K, D>, r: Tree<K, D>, k: K, d: D, lt: (K, K) -> bool) {
    match t
    case Leaf => r == Node(Leaf, k, d, Leaf)
    case Node(l, nk, nd, rt) =>
      && r.Node? && r.key == nk && r.data == nd
      && (if lt(k, nk) then r.right == rt && AddsOneLeaf(l, r.left, k, d, lt)
          else r.left == l && AddsOneLeaf(rt, r.right, k, d, lt))
  }

  /** `insert` / `_insert`: an empty tree gets a single root; otherwise the
      key descends left iff it is smaller than the node's key. */
  function Insert<K, D>(t: Tree<K, D>, k: K, d: D, lt: (K, K) -> bool): (r: Tree<K, D>)
    ensures AddsOneLeaf(t, r, k, d, lt)
    ensures Size(r) == Size(t) + 1
  {
    match t
    case Leaf => Node(Leaf, k, d, Leaf)
    case Node(l, nk, nd, rt) =>
      if lt(k, nk) then Node(Insert(l, k, d, lt), nk, nd, rt)
      else Node(l, nk, nd, Insert(rt, k, d, lt))
  }

  /** `search` / `_search`: the node's own data, then the left matches, then
      the right matches.  Whatever the tree, only data stored under `k` is
      returned, each stored entry at most once. */
  function Search<K(==), D>(t: Tree<K, D>, k: K, lt: (K, K) -> bool): (r: seq<D>)
    ensures multiset(r) <= multiset(DataWith(InOrder(t), k))
  {
    match t
    case Leaf => []
    case Node(l, nk, nd, rt) =>
      DataWithNode(l, nk, nd, rt, k);
      if k == nk then [nd] + Search(l, k, lt) + Search(rt, k, lt)
      else if lt(k, nk) then Search(l, k, lt)
      else Search(rt, k, lt)
  }

  /** The data under `k` in a node's in-order walk: the left subtree's, the
      node's own, then the right subtree's. */
  lemma DataWithNode<K, D>(l: Tree<K, D>, nk: K, nd: D, rt: Tree<K, D>, k: K)
    ensures DataWith(InOrder(Node(l, nk, nd, rt)), k)
         == DataWith(InOrder(l), k) + (if nk == k then [nd] else []) + DataWith(InOrder(rt), k)
  {
    DataWithConcat(InOrder(l) + [(nk, nd)], InOrder(rt), k);
    DataWithConcat(InOrder(l), [(nk, nd)], k);
    assert DataWith([(nk, nd)], k) == (if nk == k then [nd] else []) + DataWith([(nk, nd)][1..], k);
  }

  /** Inserting the pairs of `xs` one after the other, as the driver does. */
  function InsertAll<K, D>(t: Tree<K, D>, xs: seq<(K, D)>, lt: (K, K) -> bool): Tree<K, D>
    decreases |xs|
  {
    if |xs| == 0 then t else InsertAll(Insert(t, xs[0].0, xs[0].1, lt), xs[1..], lt)
  }

  /** Whatever the tree, `insert` adds exactly the one (key, data) entry. */
  lemma {:induction false} InsertAddsOneEntry<K, D>(t: Tree<K, D>, k: K, d: D, lt: (K, K) -> bool)
    ensures multiset(InOrder(Insert(t, k, d, lt))) == multiset(InOrder(t)) + multiset{(k, d)}
  {
    match t
    case Leaf =>
    case Node(l, nk, nd, rt) =>
      if lt(k, nk) {
        InsertAddsOneEntry(l, k, d, lt);
        assert InOrder(Insert(t, k, d, lt)) == InOrder(Insert(l, k, d, lt)) + [(nk, nd)] + InOrder(rt);
      } else {
        InsertAddsOneEntry(rt, k, d, lt);
        assert InOrder(Insert(t, k, d, lt)) == InOrder(l) + [(nk, nd)] + InOrder(Insert(rt, k, d, lt));
      }
  }

  /** A sorted node's left keys are at most its key, its right keys at least. */
  lemma SortedParts<K, D>(l: Tree<K, D>, nk: K, nd: D, r: Tree<K, D>, lt: (K, K) -> bool)
    requires KeysSorted(InOrder(Node(l, nk, nd, r)), lt)
    ensures KeysSorted(InOrder(l), lt) && KeysSorted(InOrder(r), lt)
    ensures forall i :: 0 <= i < |InOrder(l)| ==> !lt(nk, InOrder(l)[i].0)
    ensures forall i :: 0 <= i < |InOrder(r)| ==> !lt(InOrder(r)[i].0, nk)
  {
    KeysSortedSplit(InOrder(l), (nk, nd), InOrder(r), lt);
  }

  /** On a tree whose in-order keys never decrease, `search` returns exactly
      the data stored under `k` (as a multiset; the order is the search's own). */
  lemma {:induction false} SearchFindsAll<K(!new), D>(t: Tree<K, D>, k: K, lt: (K, K) -> bool)
    requires StrictTotal(lt)
    requires KeysSorted(InOrder(t), lt)
    ensures multiset(Search(t, k, lt)) == multiset(DataWith(InOrder(t), k))
  {
    match t
    case Leaf =>
    case Node(l, nk, nd, rt) =>
      SortedParts(l, nk, nd, rt, lt);
      SearchFindsAll(l, k, lt);
      SearchFindsAll(rt, k, lt);
      DataWithNode(l, nk, nd, rt, k);
      if k != nk {
        if lt(k, nk) {
          forall i | 0 <= i < |InOrder(rt)| ensures InOrder(rt)[i].0 != k {
            assert !lt(InOrder(rt)[i].0, nk);
          }
          DataWithNone(InOrder(rt), k);
        } else {
          assert lt(nk, k);
          forall i | 0 <= i < |InOrder(l)| ensures InOrder(l)[i].0 != k {
            assert !lt(nk, InOrder(l)[i].0);
          }
          DataWithNone(InOrder(l), k);
        }
      }
  }

  /** The new entry lands after every entry whose key is not greater and
      before every entry whose key is greater. */
  lemma {:induction false} InsertSplit<K(!new), D>(t: Tree<K, D>, k: K, d: D, lt: (K, K) -> bool)
    returns (a: seq<(K, D)>, b: seq<(K, D)>)
    requires StrictTotal(lt)
    requires KeysSorted(InOrder(t), lt)
    ensures InOrder(t) == a + b
    ensures InOrder(Insert(t, k, d, lt)) == a + [(k, d)] + b
    ensures forall i :: 0 <= i < |a| ==> !lt(k, a[i].0)
    ensures forall i :: 0 <= i < |b| ==> lt(k, b[i].0)
  {
    match t
    case Leaf =>
      a, b := [], [];
    case Node(l, nk, nd, rt) =>
      SortedParts(l, nk, nd, rt, lt);
      if lt(k, nk) {
        var a', b' := InsertSplit(l, k, d, lt);
        AboveFromPivot(InOrder(rt), nk, k, lt);
        AboveJoin(b', (nk, nd), InOrder(rt), k, lt);
        a, b := a', b' + [(nk, nd)] + InOrder(rt);
      } else {
        var a', b' := InsertSplit(rt, k, d, lt);
        NotAboveFromPivot(InOrder(l), nk, k, lt);
        NotAboveJoin(InOrder(l), (nk, nd), a', k, lt);
        a, b := InOrder(l) + [(nk, nd)] + a', b';
      }
  }

  /** Insertion is the reference list insertion on the in-order sequence; in
      particular in-order keys stay non-decreasing and the entries grow by
      exactly the new pair. */
  lemma InsertIsSortedInsertion<K(!new), D>(t: Tree<K, D>, k: K, d: D, lt: (K, K) -> bool)
    requires StrictTotal(lt)
    requires KeysSorted(InOrder(t), lt)
    ensures InOrder(Insert(t, k, d, lt)) == InsertSorted(InOrder(t), (k, d), lt)
    ensures KeysSorted(InOrder(Insert(t, k, d, lt)), lt)
    ensures multiset(InOrder(Insert(t, k, d, lt))) == multiset(InOrder(t)) + multiset{(k, d)}
  {
    var a, b := InsertSplit(t, k, d, lt);
    InsertSortedAtSplit(a, b, (k, d), lt);
    InsertSortedKeepsOrder(InOrder(t), (k, d), lt);
  }

  /** After `insert(k, d)` a search for `k` finds one more `d`, and a search
      for any other key finds what it found before. */
  lemma SearchAfterInsert<K(!new), D>(t: Tree<K, D>, k: K, d: D, q: K, lt: (K, K) -> bool)
    requires StrictTotal(lt)
    requires KeysSorted(InOrder(t), lt)
    ensures multiset(Search(Insert(t, k, d, lt), q, lt))
         == multiset(Search(t, q, lt)) + (if q == k then multiset{d} else multiset{})
  {
    var a, b := InsertSplit(t, k, d, lt);
    InsertIsSortedInsertion(t, k, d, lt);
    SearchFindsAll(t, q, lt);
    SearchFindsAll(Insert(t, k, d, lt), q, lt);
    DataWithInsertedAt(a, b, (k, d), q);
  }

  /** Round trip over a run of inserts into a tree with non-decreasing keys:
      a search for `q` returns the old values plus exactly those inserted
      under `q`, and the keys stay non-decreasing. */
  lemma {:induction false} SearchAfterInserts<K(!new), D>(t: Tree<K, D>, xs: seq<(K, D)>, q: K, lt: (K, K) -> bool)
    requires StrictTotal(lt)
    requires KeysSorted(InOrder(t), lt)
    ensures KeysSorted(InOrder(InsertAll(t, xs, lt)), lt)
    ensures multiset(Search(InsertAll(t, xs, lt), q, lt))
         == multiset(Search(t, q, lt)) + multiset(DataWith(xs, q))
    decreases |xs|
  {
    if |xs| > 0 {
      var k, d := xs[0].0, xs[0].1;
      var t' := Insert(t, k, d, lt);
      assert InsertAll(t, xs, lt) == InsertAll(t', xs[1..], lt);
      InsertIsSortedInsertion(t, k, d, lt);
      SearchAfterInsert(t, k, d, q, lt);
      HeadMoves(multiset(Search(t, q, lt)), multiset(Search(t', q, lt)), xs, q);
      SearchAfterInserts(t', xs[1..], q, lt);
    }
  }
}
