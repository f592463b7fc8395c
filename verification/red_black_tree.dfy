/** The red-black tree multimap of `lab2/test.py`.

    The Python tree is a linked structure with parent pointers and a shared
    black `NIL` sentinel.  Here a tree is an immutable value (`Nil` plays the
    sentinel, and is black) and the parent chain of the node being fixed is an
    explicit path of frames, a zipper: `path[0]` is the parent of the focus,
    `path[1]` the grandparent, and the last frame is the root, whose parent is
    Python's `None`.  A rotation at the focus replaces the focus subtree and
    leaves the path alone, which is what re-pointing the parent's child link
    (or `self.root`) does in `left_rotate` / `right_rotate`.
 */
module RedBlackTree {
  import opened Orders
  import opened Entries
  import BinTree

  datatype Color = Red | Black

  datatype Tree<K, D> =
    | Nil
    | Node(color: Color, left: Tree<K, D>, key: K, data: D, right: Tree<K, D>)

  /** One step of the parent chain: the parent's colour, key and data and the
      child on the other side; the constructor says on which side the focus is. */
  datatype Frame<K, D> =
    | LeftOf(color: Color, key: K, data: D, right: Tree<K, D>)
    | RightOf(color: Color, left: Tree<K, D>, key: K, data: D)

  /** The colour test of the Python code: `NIL` is black. */
  predicate IsRed<K, D>(t: Tree<K, D>) {
    t.Node? && t.color == Red
  }

  function InOrder<K, D>(t: Tree<K, D>): seq<(K, D)> {
    match t
    case Nil => []
    case Node(_, l, k, d, r) => InOrder(l) + [(k, d)] + InOrder(r)
  }

  /** Forgetting colours gives a plain search tree with the same entries. */
  function Erase<K, D>(t: Tree<K, D>): (r: BinTree.Tree<K, D>)
    ensures BinTree.InOrder(r) == InOrder(t)
  {
    match t
    case Nil => BinTree.Leaf
    case Node(_, l, k, d, rt) => BinTree.Node(Erase(l), k, d, Erase(rt))
  }

  /** Setting the colour field of a node (`x.color = ...`). */
  function Paint<K, D>(t: Tree<K, D>, c: Color): (r: Tree<K, D>)
    ensures InOrder(r) == InOrder(t)
    ensures t.Node? ==> r.Node? && r.color == c
  {
    if t.Node? then t.(color := c) else t
  }

  /** `left_rotate(x)`: x's right child y takes x's place, y's left subtree
      becomes x's right subtree, x becomes y's left child.  Every node keeps
      its colour. */
  function RotateLeft<K, D>(x: Tree<K, D>): (r: Tree<K, D>)
    requires x.Node? && x.right.Node?
    ensures InOrder(r) == InOrder(x)
    ensures r.Node? && r.color == x.right.color && r.left.Node? && r.left.color == x.color
    ensures r.key == x.right.key && r.data == x.right.data && r.right == x.right.right
    ensures r.left.key == x.key && r.left.data == x.data
    ensures r.left.left == x.left && r.left.right == x.right.left
  {
    var y := x.right;
    Node(y.color, Node(x.color, x.left, x.key, x.data, y.left), y.key, y.data, y.right)
  }

  /** `right_rotate(x)`, the mirror image. */
  function RotateRight<K, D>(x: Tree<K, D>): (r: Tree<K, D>)
    requires x.Node? && x.left.Node?
    ensures InOrder(r) == InOrder(x)
    ensures r.Node? && r.color == x.left.color && r.right.Node? && r.right.color == x.color
    ensures r.key == x.left.key && r.data == x.left.data && r.left == x.left.left
    ensures r.right.key == x.key && r.right.data == x.data
    ensures r.right.right == x.right && r.right.left == x.left.right
  {
    var y := x.left;
    Node(y.color, y.left, y.key, y.data, Node(x.color, y.right, x.key, x.data, x.right))
  }

  /** The two rotations undo each other. */
  lemma RotationsAreInverse<K, D>(x: Tree<K, D>)
    requires x.Node? && x.right.Node?
    ensures RotateRight(RotateLeft(x)) == x
  {
  }

  function Sibling<K, D>(f: Frame<K, D>): Tree<K, D> {
    match f
    case LeftOf(_, _, _, r) => r
    case RightOf(_, l, _, _) => l
  }

  /** The parent's subtree, with `t` as the child on the frame's side. */
  function Attach<K, D>(f: Frame<K, D>, t: Tree<K, D>): Tree<K, D> {
    match f
    case LeftOf(c, k, d, r) => Node(c, t, k, d, r)
    case RightOf(c, l, k, d) => Node(c, l, k, d, t)
  }

  /** The whole tree, rebuilt from the focus up to the root. */
  function Plug<K, D>(t: Tree<K, D>, path: seq<Frame<K, D>>): (r: Tree<K, D>)
    ensures t.Node? ==> r.Node?
    ensures |path| > 0 ==> r.Node? && r.color == path[|path| - 1].color
    decreases |path|
  {
    if |path| == 0 then t else Plug(Attach(path[0], t), path[1..])
  }

  /** The descent loop of `insert`: `<` goes left, anything else goes right,
      until `NIL`; the frames passed on the way are pushed onto `path`. */
  function Descend<K, D>(t: Tree<K, D>, k: K, lt: (K, K) -> bool, path: seq<Frame<K, D>>): seq<Frame<K, D>>
  {
    match t
    case Nil => path
    case Node(c, l, nk, nd, r) =>
      if lt(k, nk) then Descend(l, k, lt, [LeftOf(c, nk, nd, r)] + path)
      else Descend(r, k, lt, [RightOf(c, l, nk, nd)] + path)
  }

  /** The `NIL` the descent reaches, replaced by `z`. */
  function Graft<K, D>(t: Tree<K, D>, k: K, z: Tree<K, D>, lt: (K, K) -> bool): Tree<K, D>
  {
    match t
    case Nil => z
    case Node(c, l, nk, nd, r) =>
      if lt(k, nk) then Node(c, Graft(l, k, z, lt), nk, nd, r)
      else Node(c, l, nk, nd, Graft(r, k, z, lt))
  }

  /** The root of the tree is black (`RedBlackTree.__init__` starts from the
      black `NIL` and every `insert` ends by blackening the root). */
  predicate RootBlack<K, D>(path: seq<Frame<K, D>>) {
    |path| == 0 || path[|path| - 1].color == Black
  }

  /** `fix_insert`.  The focus `z` is the node the loop calls `node`.  While
      `z` is not the root and its parent is red, the grandparent exists (a red
      parent is never the black root) and one of the three cases applies:
       - the uncle is red: parent and uncle turn black, the grandparent red,
         and the loop goes on from the grandparent;
       - the uncle is black and `z` is an inner grandchild: the parent is
         rotated so that the line is straight (then the outer case follows);
       - the uncle is black: the parent turns black, the grandparent red, and
         the grandparent is rotated the other way.
      After a rotation case the new parent of `node` is black, so the loop
      test fails and only the final `self.root.color = "black"` remains. */
  function Fix<K, D>(z: Tree<K, D>, path: seq<Frame<K, D>>): (r: Tree<K, D>)
    requires z.Node?
    requires RootBlack(path)
    ensures r.Node? && r.color == Black
    decreases |path|
  {
    if |path| == 0 || path[0].color == Black then
      Paint(Plug(z, path), Black)
    else
      var p, g := path[0], path[1];
      var pz := Attach(p, z);
      match g
      case LeftOf(_, gk, gd, uncle) =>
        if IsRed(uncle) then
          Fix(Node(Red, Paint(pz, Black), gk, gd, Paint(uncle, Black)), path[2..])
        else
          var s := if p.RightOf? then RotateLeft(pz) else pz;
          Paint(Plug(RotateRight(Node(Red, Paint(s, Black), gk, gd, uncle)), path[2..]), Black)
      case RightOf(_, uncle, gk, gd) =>
        if IsRed(uncle) then
          Fix(Node(Red, Paint(uncle, Black), gk, gd, Paint(pz, Black)), path[2..])
        else
          var s := if p.LeftOf? then RotateRight(pz) else pz;
          Paint(Plug(RotateLeft(Node(Red, uncle, gk, gd, Paint(s, Black))), path[2..]), Black)
  }

  /** `insert(key, data)`: descend, attach a red node, run `fix_insert`. */
  function Insert<K, D>(t: Tree<K, D>, k: K, d: D, lt: (K, K) -> bool): (r: Tree<K, D>)
    requires t.Nil? || t.color == Black
    ensures r.Node? && r.color == Black
  {
    var path := Descend(t, k, lt, []);
    PlugDescend(t, k, Nil, lt, []);
    GraftNil(t, k, lt);
    Fix(Node(Red, Nil, k, d, Nil), path)
  }

  /** `search` / `_search_tree`: on a match, the node's data, then the left
      matches, then the right matches; otherwise one side by `<`.  It is the
      plain search-tree search of the colour-erased tree. */
  function Search<K(==), D>(t: Tree<K, D>, k: K, lt: (K, K) -> bool): (r: seq<D>)
    ensures r == BinTree.Search(Erase(t), k, lt)
  {
    match t
    case Nil => []
    case Node(_, l, nk, nd, rt) =>
      if k == nk then [nd] + Search(l, k, lt) + Search(rt, k, lt)
      else if lt(k, nk) then Search(l, k, lt)
      else Search(rt, k, lt)
  }

  /** Inserting the pairs of `xs` one after the other. */
  function InsertAll<K, D>(t: Tree<K, D>, xs: seq<(K, D)>, lt: (K, K) -> bool): (r: Tree<K, D>)
    requires t.Nil? || t.color == Black
    ensures r.Nil? || r.color == Black
    decreases |xs|
  {
    if |xs| == 0 then t else InsertAll(Insert(t, xs[0].0, xs[0].1, lt), xs[1..], lt)
  }

  // ---------------------------------------------------------------------
  // The descent and the zipper

  lemma {:induction false} PlugDescend<K, D>(t: Tree<K, D>, k: K, z: Tree<K, D>, lt: (K, K) -> bool, path: seq<Frame<K, D>>)
    ensures Plug(z, Descend(t, k, lt, path)) == Plug(Graft(t, k, z, lt), path)
  {
    match t
    case Nil =>
    case Node(c, l, nk, nd, r) =>
      if lt(k, nk) {
        var f := LeftOf(c, nk, nd, r);
        PlugDescend(l, k, z, lt, [f] + path);
        assert ([f] + path)[1..] == path;
      } else {
        var f := RightOf(c, l, nk, nd);
        PlugDescend(r, k, z, lt, [f] + path);
        assert ([f] + path)[1..] == path;
      }
  }

  lemma {:induction false} GraftNil<K, D>(t: Tree<K, D>, k: K, lt: (K, K) -> bool)
    ensures Graft(t, k, Nil, lt) == t
  {
    match t
    case Nil =>
    case Node(c, l, nk, nd, r) =>
      GraftNil(l, k, lt);
      GraftNil(r, k, lt);
  }

  /** Before rebalancing, the attached red node sits exactly where the plain
      search tree would put the pair. */
  lemma {:induction false} GraftIsPlainInsert<K, D>(t: Tree<K, D>, k: K, d: D, lt: (K, K) -> bool)
    ensures Erase(Graft(t, k, Node(Red, Nil, k, d, Nil), lt)) == BinTree.Insert(Erase(t), k, d, lt)
  {
    match t
    case Nil =>
    case Node(c, l, nk, nd, r) =>
      GraftIsPlainInsert(l, k, d, lt);
      GraftIsPlainInsert(r, k, d, lt);
  }

  lemma {:induction false} PlugInOrder<K, D>(a: Tree<K, D>, b: Tree<K, D>, path: seq<Frame<K, D>>)
    requires InOrder(a) == InOrder(b)
    ensures InOrder(Plug(a, path)) == InOrder(Plug(b, path))
    decreases |path|
  {
    if |path| > 0 {
      PlugInOrder(Attach(path[0], a), Attach(path[0], b), path[1..]);
    }
  }

  // ---------------------------------------------------------------------
  // Fix-up keeps the entries

  /** `fix_insert` only recolours and rotates: the in-order sequence of
      (key, data) entries is unchanged. */
  lemma {:induction false} FixKeepsInOrder<K, D>(z: Tree<K, D>, path: seq<Frame<K, D>>)
    requires z.Node? && RootBlack(path)
    ensures InOrder(Fix(z, path)) == InOrder(Plug(z, path))
    decreases |path|
  {
    if |path| == 0 || path[0].color == Black {
    } else {
      var p, g := path[0], path[1];
      var pz := Attach(p, z);
      assert Plug(z, path) == Plug(Attach(g, pz), path[2..]) by {
        assert path[1..][0] == g && path[1..][1..] == path[2..];
      }
      match g
      case LeftOf(_, gk, gd, uncle) =>
        if IsRed(uncle) {
          var z' := Node(Red, Paint(pz, Black), gk, gd, Paint(uncle, Black));
          FixKeepsInOrder(z', path[2..]);
          PlugInOrder(z', Attach(g, pz), path[2..]);
        } else {
          var s := if p.RightOf? then RotateLeft(pz) else pz;
          var top := RotateRight(Node(Red, Paint(s, Black), gk, gd, uncle));
          PlugInOrder(top, Attach(g, pz), path[2..]);
        }
      case RightOf(_, uncle, gk, gd) =>
        if IsRed(uncle) {
          var z' := Node(Red, Paint(uncle, Black), gk, gd, Paint(pz, Black));
          FixKeepsInOrder(z', path[2..]);
          PlugInOrder(z', Attach(g, pz), path[2..]);
        } else {
          var s := if p.LeftOf? then RotateRight(pz) else pz;
          var top := RotateLeft(Node(Red, uncle, gk, gd, Paint(s, Black)));
          PlugInOrder(top, Attach(g, pz), path[2..]);
        }
    }
  }

  /** Insertion is plain search-tree insertion followed by a rebalancing that
      keeps the in-order sequence. */
  lemma InsertIsPlainInsertInOrder<K, D>(t: Tree<K, D>, k: K, d: D, lt: (K, K) -> bool)
    requires t.Nil? || t.color == Black
    ensures InOrder(Insert(t, k, d, lt)) == BinTree.InOrder(BinTree.Insert(Erase(t), k, d, lt))
  {
    var n := Node(Red, Nil, k, d, Nil);
    PlugDescend(t, k, n, lt, []);
    PlugDescend(t, k, Nil, lt, []);
    GraftNil(t, k, lt);
    FixKeepsInOrder(n, Descend(t, k, lt, []));
    GraftIsPlainInsert(t, k, d, lt);
  }

  /** `insert` adds exactly one (key, data) entry, whatever the tree. */
  lemma InsertAddsOneEntry<K, D>(t: Tree<K, D>, k: K, d: D, lt: (K, K) -> bool)
    requires t.Nil? || t.color == Black
    ensures multiset(InOrder(Insert(t, k, d, lt))) == multiset(InOrder(t)) + multiset{(k, d)}
  {
    InsertIsPlainInsertInOrder(t, k, d, lt);
    BinTree.InsertAddsOneEntry(Erase(t), k, d, lt);
  }

  /** On a tree with non-decreasing in-order keys, `insert` is the reference
      list insertion: the new entry follows every entry with an equal key.
      So in-order keys stay non-decreasing, although rotations may leave an
      equal key in a left subtree. */
  lemma InsertIsSortedInsertion<K(!new), D>(t: Tree<K, D>, k: K, d: D, lt: (K, K) -> bool)
    requires StrictTotal(lt)
    requires t.Nil? || t.color == Black
    requires KeysSorted(InOrder(t), lt)
    ensures InOrder(Insert(t, k, d, lt)) == InsertSorted(InOrder(t), (k, d), lt)
    ensures KeysSorted(InOrder(Insert(t, k, d, lt)), lt)
  {
    InsertIsPlainInsertInOrder(t, k, d, lt);
    BinTree.InsertIsSortedInsertion(Erase(t), k, d, lt);
  }

  // ---------------------------------------------------------------------
  // Search

  /** On a tree with non-decreasing in-order keys, `search(k)` returns exactly
      the data stored under `k`; an empty tree or an absent key gives `[]`. */
  lemma SearchFindsAll<K(!new), D>(t: Tree<K, D>, k: K, lt: (K, K) -> bool)
    requires StrictTotal(lt)
    requires KeysSorted(InOrder(t), lt)
    ensures multiset(Search(t, k, lt)) == multiset(DataWith(InOrder(t), k))
    ensures (forall i :: 0 <= i < |InOrder(t)| ==> InOrder(t)[i].0 != k) ==> Search(t, k, lt) == []
  {
    BinTree.SearchFindsAll(Erase(t), k, lt);
    if forall i :: 0 <= i < |InOrder(t)| ==> InOrder(t)[i].0 != k {
      DataWithNone(InOrder(t), k);
    }
  }

  /** After `insert(k, d)` a search for `k` finds one more `d`, and a search
      for any other key finds what it found before. */
  lemma SearchAfterInsert<K(!new), D>(t: Tree<K, D>, k: K, d: D, q: K, lt: (K, K) -> bool)
    requires StrictTotal(lt)
    requires t.Nil? || t.color == Black
    requires KeysSorted(InOrder(t), lt)
    ensures multiset(Search(Insert(t, k, d, lt), q, lt))
         == multiset(Search(t, q, lt)) + (if q == k then multiset{d} else multiset{})
  {
    var plain := BinTree.Insert(Erase(t), k, d, lt);
    InsertIsSortedInsertion(t, k, d, lt);
    InsertIsPlainInsertInOrder(t, k, d, lt);
    SearchFindsAll(Insert(t, k, d, lt), q, lt);
    BinTree.InsertIsSortedInsertion(Erase(t), k, d, lt);
    BinTree.SearchFindsAll(plain, q, lt);
    BinTree.SearchAfterInsert(Erase(t), k, d, q, lt);
  }

  /** Round trip over a run of inserts into a tree with non-decreasing keys:
      a search for `q` returns the old values plus exactly those inserted
      under `q`, and the keys stay non-decreasing. */
  lemma {:induction false} SearchAfterInserts<K(!new), D>(t: Tree<K, D>, xs: seq<(K, D)>, q: K, lt: (K, K) -> bool)
    requires StrictTotal(lt)
    requires t.Nil? || t.color == Black
    requires KeysSorted(InOrder(t), lt)
    ensures KeysSorted(InOrder(InsertAll(t, xs, lt)), lt)
    ensures multiset(Search(InsertAll(t, xs, lt), q, lt))
         == multiset(Search(t, q, lt)) + multiset(DataWith(xs, q))
    decreases |xs|
  {
    if |xs| > 0 {
      var k, d := xs[0].0, xs[0].1;
      var t' := Insert(t, k, d, lt);
      assert InsertAll(t, xs, lt) == InsertAll(t', xs[1..], lt);
      InsertIsSortedInsertion(t, k, d, lt);
      SearchAfterInsert(t, k, d, q, lt);
      HeadMoves(multiset(Search(t, q, lt)), multiset(Search(t', q, lt)), xs, q);
      SearchAfterInserts(t', xs[1..], q, lt);
    }
  }

  // ---------------------------------------------------------------------
  // The red-black invariants

  /** No red node has a red child. */
  predicate NoRedRed<K, D>(t: Tree<K, D>) {
    match t
    case Nil => true
    case Node(c, l, _, _, r) =>
      && (c == Red ==> !IsRed(l) && !IsRed(r))
      && NoRedRed(l) && NoRedRed(r)
  }

  /** Black nodes on the leftmost path below and including the root. */
  function BlackHeight<K, D>(t: Tree<K, D>): nat {
    match t
    case Nil => 0
    case Node(c, l, _, _, _) => BlackHeight(l) + (if c == Black then 1 else 0)
  }

  /** Every path from a node down to `NIL` has the same number of black nodes. */
  predicate Balanced<K, D>(t: Tree<K, D>) {
    match t
    case Nil => true
    case Node(_, l, _, _, r) => Balanced(l) && Balanced(r) && BlackHeight(l) == BlackHeight(r)
  }

  predicate IsRedBlack<K, D>(t: Tree<K, D>) {
    (t.Nil? || t.color == Black) && NoRedRed(t) && Balanced(t)
  }

  /** Along the path, no red-red link other than possibly the one between the
      focus and its parent. */
  predicate PathNoRedRed<K, D>(path: seq<Frame<K, D>>)
    decreases |path|
  {
    |path| == 0 ||
    (&& NoRedRed(Sibling(path[0]))
     && (path[0].color == Red ==> !IsRed(Sibling(path[0])))
     && (|path| > 1 && path[0].color == Red ==> path[1].color == Black)
     && PathNoRedRed(path[1..]))
  }

  /** Along the path, every other child is balanced with the black height the
      focus side has at that level, `h` being the focus's black height. */
  predicate PathBalanced<K, D>(path: seq<Frame<K, D>>, h: nat)
    decreases |path|
  {
    |path| == 0 ||
    (&& Balanced(Sibling(path[0])) && BlackHeight(Sibling(path[0])) == h
     && PathBalanced(path[1..], h + (if path[0].color == Black then 1 else 0)))
  }

  lemma {:induction false} PlugKeepsInvariants<K, D>(z: Tree<K, D>, path: seq<Frame<K, D>>)
    requires NoRedRed(z) && PathNoRedRed(path)
    requires |path| == 0 || path[0].color == Black || !IsRed(z)
    requires Balanced(z) && PathBalanced(path, BlackHeight(z))
    ensures NoRedRed(Plug(z, path)) && Balanced(Plug(z, path))
    decreases |path|
  {
    if |path| > 0 {
      PlugKeepsInvariants(Attach(path[0], z), path[1..]);
    }
  }

  lemma {:induction false} PlugParts<K, D>(z: Tree<K, D>, path: seq<Frame<K, D>>)
    requires NoRedRed(Plug(z, path)) && Balanced(Plug(z, path))
    ensures NoRedRed(z) && PathNoRedRed(path)
    ensures |path| == 0 || !(IsRed(z) && path[0].color == Red)
    ensures Balanced(z) && PathBalanced(path, BlackHeight(z))
    decreases |path|
  {
    if |path| > 0 {
      PlugParts(Attach(path[0], z), path[1..]);
    }
  }

  lemma PaintBlackKeepsInvariants<K, D>(t: Tree<K, D>)
    requires NoRedRed(t) && Balanced(t)
    ensures IsRedBlack(Paint(t, Black))
  {
  }

  /** A subtree the rotations may move: black-rooted (or `NIL`), free of
      red-red links, balanced, of black height `h`. */
  predicate BlackSub<K, D>(t: Tree<K, D>, h: nat) {
    !IsRed(t) && NoRedRed(t) && Balanced(t) && BlackHeight(t) == h
  }

  /** Both rotation cases end in a black node with two red children whose
      four subtrees are black-rooted red-black trees of one black height. */
  lemma BalancedTop<K, D>(top: Tree<K, D>, h: nat)
    requires top.Node? && top.color == Black && top.left.Node? && top.right.Node?
    requires top.left.color == Red && top.right.color == Red
    requires BlackSub(top.left.left, h) && BlackSub(top.left.right, h)
    requires BlackSub(top.right.left, h) && BlackSub(top.right.right, h)
    ensures NoRedRed(top) && Balanced(top) && BlackHeight(top) == h + 1
  {
  }

  /** The rotation case with the parent a left child: after at most one
      rotation at the parent and one at the grandparent, the subtree is a
      black node over two red ones, one black level higher than `z`'s
      children. */
  lemma RotateUnderLeftOf<K, D>(z: Tree<K, D>, p: Frame<K, D>, gk: K, gd: D, uncle: Tree<K, D>, h: nat)
    requires z.Node? && z.color == Red && p.color == Red
    requires BlackSub(z.left, h) && BlackSub(z.right, h) && BlackSub(Sibling(p), h) && BlackSub(uncle, h)
    ensures (var pz := Attach(p, z);
             var s := if p.RightOf? then RotateLeft(pz) else pz;
             var top := RotateRight(Node(Red, Paint(s, Black), gk, gd, uncle));
             top.color == Black && NoRedRed(top) && Balanced(top) && BlackHeight(top) == h + 1)
  {
    var pz := Attach(p, z);
    var s := if p.RightOf? then RotateLeft(pz) else pz;
    var top := RotateRight(Node(Red, Paint(s, Black), gk, gd, uncle));
    if p.RightOf? {
      assert top == Node(Black, Node(Red, Sibling(p), p.key, p.data, z.left), z.key, z.data,
                         Node(Red, z.right, gk, gd, uncle));
    } else {
      assert top == Node(Black, Node(Red, z.left, z.key, z.data, z.right), p.key, p.data,
                         Node(Red, Sibling(p), gk, gd, uncle));
    }
    BalancedTop(top, h);
  }

  /** The mirror image, with the parent a right child. */
  lemma RotateUnderRightOf<K, D>(z: Tree<K, D>, p: Frame<K, D>, gk: K, gd: D, uncle: Tree<K, D>, h: nat)
    requires z.Node? && z.color == Red && p.color == Red
    requires BlackSub(z.left, h) && BlackSub(z.right, h) && BlackSub(Sibling(p), h) && BlackSub(uncle, h)
    ensures (var pz := Attach(p, z);
             var s := if p.LeftOf? then RotateRight(pz) else pz;
             var top := RotateLeft(Node(Red, uncle, gk, gd, Paint(s, Black)));
             top.color == Black && NoRedRed(top) && Balanced(top) && BlackHeight(top) == h + 1)
  {
    var pz := Attach(p, z);
    var s := if p.LeftOf? then RotateRight(pz) else pz;
    var top := RotateLeft(Node(Red, uncle, gk, gd, Paint(s, Black)));
    if p.LeftOf? {
      assert top == Node(Black, Node(Red, uncle, gk, gd, z.left), z.key, z.data,
                         Node(Red, z.right, p.key, p.data, Sibling(p)));
    } else {
      assert top == Node(Black, Node(Red, uncle, gk, gd, Sibling(p)), p.key, p.data,
                         Node(Red, z.left, z.key, z.data, z.right));
    }
    BalancedTop(top, h);
  }

  /** What the invariants say around a red focus under a red parent: the
      grandparent exists and is black, the focus's children and sibling are
      black-rooted subtrees of the focus's black height, the uncle is
      balanced at that height, and the rest of the path is sound one level
      up. */
  lemma RedParentFacts<K, D>(z: Tree<K, D>, path: seq<Frame<K, D>>)
    requires z.Node? && RootBlack(path) && |path| > 0 && path[0].color == Red
    requires IsRed(z) && NoRedRed(z) && PathNoRedRed(path)
    requires Balanced(z) && PathBalanced(path, BlackHeight(z))
    ensures |path| >= 2 && path[1].color == Black
    ensures BlackSub(z.left, BlackHeight(z)) && BlackSub(z.right, BlackHeight(z))
    ensures BlackSub(Sibling(path[0]), BlackHeight(z))
    ensures NoRedRed(Sibling(path[1])) && Balanced(Sibling(path[1]))
    ensures BlackHeight(Sibling(path[1])) == BlackHeight(z)
    ensures RootBlack(path[2..]) && PathNoRedRed(path[2..]) && PathBalanced(path[2..], BlackHeight(z) + 1)
  {
    assert path[1..][0] == path[1] && path[1..][1..] == path[2..];
  }

  /** The recolouring case: with a red uncle, the grandparent's subtree,
      recoloured, is a red focus of black height one more than `z`'s
      children, with no fault inside. */
  lemma RecolorKeeps<K, D>(pz: Tree<K, D>, gk: K, gd: D, uncle: Tree<K, D>, h: nat, left: bool)
    requires pz.Node? && IsRed(uncle) && NoRedRed(uncle) && Balanced(uncle) && BlackHeight(uncle) == h
    requires Balanced(pz.left) && Balanced(pz.right) && BlackHeight(pz.left) == h && BlackHeight(pz.right) == h
    requires NoRedRed(pz.left) && NoRedRed(pz.right)
    ensures (var z' := if left then Node(Red, Paint(pz, Black), gk, gd, Paint(uncle, Black))
                      else Node(Red, Paint(uncle, Black), gk, gd, Paint(pz, Black));
             IsRed(z') && NoRedRed(z') && Balanced(z') && BlackHeight(z') == h + 1)
  {
  }

  /** `fix_insert` restores the red-black invariants when the only fault is a
      red focus under a red parent. */
  lemma {:induction false} FixKeepsRedBlack<K, D>(z: Tree<K, D>, path: seq<Frame<K, D>>)
    requires z.Node? && RootBlack(path)
    requires IsRed(z) && NoRedRed(z) && PathNoRedRed(path)
    requires Balanced(z) && PathBalanced(path, BlackHeight(z))
    ensures IsRedBlack(Fix(z, path))
    decreases |path|
  {
    if |path| == 0 || path[0].color == Black {
      PlugKeepsInvariants(z, path);
      PaintBlackKeepsInvariants(Plug(z, path));
    } else {
      RedParentFacts(z, path);
      var p, g := path[0], path[1];
      var pz := Attach(p, z);
      var h := BlackHeight(z);
      var rest := path[2..];
      match g
      case LeftOf(_, gk, gd, uncle) =>
        if IsRed(uncle) {
          RecolorKeeps(pz, gk, gd, uncle, h, true);
          FixKeepsRedBlack(Node(Red, Paint(pz, Black), gk, gd, Paint(uncle, Black)), rest);
        } else {
          RotateUnderLeftOf(z, p, gk, gd, uncle, h);
          var s := if p.RightOf? then RotateLeft(pz) else pz;
          var top := RotateRight(Node(Red, Paint(s, Black), gk, gd, uncle));
          PlugKeepsInvariants(top, rest);
          PaintBlackKeepsInvariants(Plug(top, rest));
        }
      case RightOf(_, uncle, gk, gd) =>
        if IsRed(uncle) {
          RecolorKeeps(pz, gk, gd, uncle, h, false);
          FixKeepsRedBlack(Node(Red, Paint(uncle, Black), gk, gd, Paint(pz, Black)), rest);
        } else {
          RotateUnderRightOf(z, p, gk, gd, uncle, h);
          var s := if p.LeftOf? then RotateRight(pz) else pz;
          var top := RotateLeft(Node(Red, uncle, gk, gd, Paint(s, Black)));
          PlugKeepsInvariants(top, rest);
          PaintBlackKeepsInvariants(Plug(top, rest));
        }
    }
  }

  /** After every `insert` the root is black, no red node has a red child,
      and all root-to-`NIL` paths have the same number of black nodes,
      provided the tree was a red-black tree before. */
  lemma InsertKeepsRedBlack<K, D>(t: Tree<K, D>, k: K, d: D, lt: (K, K) -> bool)
    requires IsRedBlack(t)
    ensures IsRedBlack(Insert(t, k, d, lt))
  {
    var path := Descend(t, k, lt, []);
    PlugDescend(t, k, Nil, lt, []);
    GraftNil(t, k, lt);
    PlugParts(Nil, path);
    FixKeepsRedBlack(Node(Red, Nil, k, d, Nil), path);
  }

  // ---------------------------------------------------------------------
  // The height bound the balancing buys

  /** Nodes on the longest root-to-`NIL` path. */
  function Height<K, D>(t: Tree<K, D>): nat {
    match t
    case Nil => 0
    case Node(_, l, _, _, r) => 1 + (if Height(l) < Height(r) then Height(r) else Height(l))
  }

  /** The number of nodes, one per stored entry. */
  function Size<K, D>(t: Tree<K, D>): nat {
    match t
    case Nil => 0
    case Node(_, l, _, _, r) => Size(l) + 1 + Size(r)
  }

  function Pow2(n: nat): (r: nat)
    ensures r >= 1
  {
    if n == 0 then 1 else 2 * Pow2(n - 1)
  }

  lemma {:induction false} Pow2Monotone(a: nat, b: nat)
    requires a <= b
    ensures Pow2(a) <= Pow2(b)
    decreases b
  {
    if a < b {
      Pow2Monotone(a, b - 1);
    }
  }

  lemma {:induction false} Pow2Add(a: nat, b: nat)
    ensures Pow2(a + b) == Pow2(a) * Pow2(b)
    decreases a
  {
    if a > 0 {
      Pow2Add(a - 1, b);
    }
  }

  lemma SquareMonotone(p: nat, n: nat)
    requires p <= n
    ensures p * p <= n * n
  {
    assert p * p <= p * n;
  }

  lemma {:induction false} SizeIsEntries<K, D>(t: Tree<K, D>)
    ensures Size(t) == |InOrder(t)|
  {
    match t
    case Nil =>
    case Node(_, l, _, _, r) =>
      SizeIsEntries(l);
      SizeIsEntries(r);
  }

  /** A balanced tree holds at least `2^bh - 1` nodes for its black height. */
  lemma {:induction false} SizeFromBlackHeight<K, D>(t: Tree<K, D>)
    requires Balanced(t)
    ensures Size(t) + 1 >= Pow2(BlackHeight(t))
  {
    match t
    case Nil =>
    case Node(c, l, _, _, r) =>
      SizeFromBlackHeight(l);
      SizeFromBlackHeight(r);
      if c == Black {
        assert Pow2(BlackHeight(t)) == 2 * Pow2(BlackHeight(l));
      }
  }

  /** With no red-red link, a path has at most one red node per black one,
      plus a red root. */
  lemma {:induction false} HeightFromBlackHeight<K, D>(t: Tree<K, D>)
    requires NoRedRed(t) && Balanced(t)
    ensures Height(t) <= 2 * BlackHeight(t) + (if IsRed(t) then 1 else 0)
  {
    match t
    case Nil =>
    case Node(c, l, _, _, r) =>
      HeightFromBlackHeight(l);
      HeightFromBlackHeight(r);
  }

  /** The point of the balancing: a red-black tree of `n` nodes has height
      at most `2 log2(n + 1)`, that is `2^height <= (n + 1)^2`; in
      particular `2^(height / 2) <= n + 1`. */
  lemma HeightIsLogarithmic<K, D>(t: Tree<K, D>)
    requires IsRedBlack(t)
    ensures Pow2(Height(t)) <= (Size(t) + 1) * (Size(t) + 1)
    ensures Pow2(Height(t) / 2) <= Size(t) + 1
  {
    var bh := BlackHeight(t);
    HeightFromBlackHeight(t);
    SizeFromBlackHeight(t);
    Pow2Monotone(Height(t) / 2, bh);
    Pow2Monotone(Height(t), bh + bh);
    Pow2Add(bh, bh);
    SquareMonotone(Pow2(bh), Size(t) + 1);
  }

  /** A run of `n` inserts into a red-black tree of `m` nodes leaves a
      red-black tree of `m + n` nodes. */
  lemma {:induction false} InsertsKeepRedBlack<K, D>(t: Tree<K, D>, xs: seq<(K, D)>, lt: (K, K) -> bool)
    requires IsRedBlack(t)
    ensures IsRedBlack(InsertAll(t, xs, lt))
    ensures Size(InsertAll(t, xs, lt)) == Size(t) + |xs|
    decreases |xs|
  {
    if |xs| > 0 {
      var t' := Insert(t, xs[0].0, xs[0].1, lt);
      InsertKeepsRedBlack(t, xs[0].0, xs[0].1, lt);
      InsertAddsOneEntry(t, xs[0].0, xs[0].1, lt);
      SizeIsEntries(t);
      SizeIsEntries(t');
      assert |multiset(InOrder(t'))| == |multiset(InOrder(t))| + 1;
      InsertsKeepRedBlack(t', xs[1..], lt);
    }
  }

  /** ... and its height is at most `2 log2(m + n + 1)`, that is
      `2^height <= (m + n + 1)^2`; from an empty tree, `2 log2(n + 1)`. */
  lemma InsertsKeepHeightLogarithmic<K, D>(t: Tree<K, D>, xs: seq<(K, D)>, lt: (K, K) -> bool)
    requires IsRedBlack(t)
    ensures IsRedBlack(InsertAll(t, xs, lt))
    ensures Size(InsertAll(t, xs, lt)) == Size(t) + |xs|
    ensures Pow2(Height(InsertAll(t, xs, lt))) <= (Size(t) + |xs| + 1) * (Size(t) + |xs| + 1)
    ensures Pow2(Height(InsertAll(t, xs, lt)) / 2) <= Size(t) + |xs| + 1
  {
    InsertsKeepRedBlack(t, xs, lt);
    HeightIsLogarithmic(InsertAll(t, xs, lt));
  }

  // ---------------------------------------------------------------------
  // The usage example at the end of the file

  /** The dictionaries `{"name": ..., "value": ...}` the example stores. */
  datatype Record = Record(name: string, value: int)

  function DemoTree(): (t: Tree<string, Record>)
    ensures IsRedBlack(t)
  {
    var xs := [("apple", Record("apple", 1)), ("banana", Record("banana", 2)), ("apple", Record("apple", 3))];
    InsertKeepsRedBlack(Nil, xs[0].0, xs[0].1, StrLess);
    var t1 := Insert(Nil, xs[0].0, xs[0].1, StrLess);
    InsertKeepsRedBlack(t1, xs[1].0, xs[1].1, StrLess);
    var t2 := Insert(t1, xs[1].0, xs[1].1, StrLess);
    InsertKeepsRedBlack(t2, xs[2].0, xs[2].1, StrLess);
    Insert(t2, xs[2].0, xs[2].1, StrLess)
  }

  /** The example's search for "apple" returns the record stored last first:
      the third insert rotates it to the root, with the first "apple" record
      as its left child.  So an equal key does end up in a left subtree. */
  lemma DemoSearch()
    ensures Search(DemoTree(), "apple", StrLess) == [Record("apple", 3), Record("apple", 1)]
    ensures DemoTree().key == "apple" && DemoTree().left.Node? && DemoTree().left.key == "apple"
  {
    var r1, r2, r3 := Record("apple", 1), Record("banana", 2), Record("apple", 3);
    DemoFirstInserts();
    DemoThirdInsert();
    var t3 := Node(Black, Node(Red, Nil, "apple", r1, Nil), "apple", r3, Node(Red, Nil, "banana", r2, Nil));
    assert DemoTree() == t3;
    DemoSearchSteps();
  }

  /** The first two inserts: "banana" goes right of the black root. */
  lemma DemoFirstInserts()
    ensures Insert(Insert(Nil, "apple", Record("apple", 1), StrLess), "banana", Record("banana", 2), StrLess)
         == Node(Black, Nil, "apple", Record("apple", 1), Node(Red, Nil, "banana", Record("banana", 2), Nil))
  {
    var r1, r2 := Record("apple", 1), Record("banana", 2);
    assert !StrLess("banana", "apple") && StrLess("apple", "banana");
    var t1 := Node(Black, Nil, "apple", r1, Nil);
    assert Insert(Nil, "apple", r1, StrLess) == t1;
    var f1 := RightOf(Black, Nil, "apple", r1);
    assert [f1] + [] == [f1];
    assert Descend(t1, "banana", StrLess, []) == [f1];
    assert Plug(Node(Red, Nil, "banana", r2, Nil), [f1]) == t1.(right := Node(Red, Nil, "banana", r2, Nil));
  }

  /** The third insert puts the second "apple" left of "banana", a red
      child of a red node, and the double rotation lifts it to the root. */
  lemma DemoThirdInsert()
    ensures Insert(Node(Black, Nil, "apple", Record("apple", 1), Node(Red, Nil, "banana", Record("banana", 2), Nil)),
                   "apple", Record("apple", 3), StrLess)
         == Node(Black, Node(Red, Nil, "apple", Record("apple", 1), Nil), "apple", Record("apple", 3),
                 Node(Red, Nil, "banana", Record("banana", 2), Nil))
  {
    var r1, r2, r3 := Record("apple", 1), Record("banana", 2), Record("apple", 3);
    assert !StrLess("apple", "apple") && StrLess("apple", "banana");
    var t2 := Node(Black, Nil, "apple", r1, Node(Red, Nil, "banana", r2, Nil));
    var f1 := RightOf(Black, Nil, "apple", r1);
    var f0 := LeftOf(Red, "banana", r2, Nil);
    assert Descend(t2, "apple", StrLess, []) == Descend(t2.right, "apple", StrLess, [f1]);
    assert Descend(t2.right, "apple", StrLess, [f1]) == [f0] + [f1];
    var path := [f0, f1];
    assert Fix(Node(Red, Nil, "apple", r3, Nil), path)
        == Node(Black, Node(Red, Nil, "apple", r1, Nil), "apple", r3, Node(Red, Nil, "banana", r2, Nil));
  }

  /** Searching the final tree for "apple" collects the root and its left child. */
  lemma DemoSearchSteps()
    ensures Search(Node(Black, Node(Red, Nil, "apple", Record("apple", 1), Nil), "apple", Record("apple", 3),
                        Node(Red, Nil, "banana", Record("banana", 2), Nil)), "apple", StrLess)
         == [Record("apple", 3), Record("apple", 1)]
  {
    var r2 := Record("banana", 2);
    assert !StrLess("apple", "apple") && !StrLess("banana", "apple") && StrLess("apple", "banana");
    assert Search(Node(Red, Nil, "banana", r2, Nil), "apple", StrLess) == [];
  }
}
