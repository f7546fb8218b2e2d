/** The self-balancing search tree of ds/avltree.go. Elements are distinct: an insert of a stored
    element is an error. Every node caches its height, a leaf having height 0 and an absent
    child counting as -1. On the way back up from an insert or a remove, each node on the path
    has its height recomputed from its children's cached heights and is rebalanced by a single
    or a double rotation when its children's heights differ by more than one. Nodes are values
    here: the recursive helpers return the new subtree, which the caller links in. */
module AvlTrees {
  import opened Outcome

  /** An `*AVLTreeNode`: nil, or an element, two subtrees and the cached height. */
  datatype Tree = Nil | Node(left: Tree, elem: int, right: Tree, height: int)

  const DuplicateError := "cannot insert a duplicate element"
  const NotFoundError := "element not found in the tree"

  function Max(a: int, b: int): int {
    if a < b then b else a
  }

  /** The height a subtree has: -1 when it is nil, one more than its taller child otherwise. */
  function TreeHeight(t: Tree): (h: int)
    ensures h >= -1
  {
    match t
    case Nil => -1
    case Node(l, _, r, _) => 1 + Max(TreeHeight(l), TreeHeight(r))
  }

  /** The height cached in a subtree's root; -1 for nil, as `getChildrenHeights` reads it. */
  function CachedHeight(t: Tree): int {
    if t.Nil? then -1 else t.height
  }

  /** Every cached height is one more than the larger cached height of the node's children. */
  ghost predicate Accurate(t: Tree) {
    match t
    case Nil => true
    case Node(l, _, r, h) =>
      Accurate(l) && Accurate(r) && h == 1 + Max(CachedHeight(l), CachedHeight(r))
  }

  /** A cached height that is kept accurate is the height of the subtree. */
  lemma {:induction false} AccurateHeight(t: Tree)
    ensures Accurate(t) ==> CachedHeight(t) == TreeHeight(t)
  {
    if t.Node? && Accurate(t) {
      AccurateHeight(t.left);
      AccurateHeight(t.right);
    }
  }

  /** `NewAVLTreeNode`: a leaf of height 0. */
  function NewNode(x: int): (n: Tree)
    ensures Accurate(n) && TreeHeight(n) == 0 && Elements(n) == {x}
  {
    Node(Nil, x, Nil, 0)
  }

  /** `getChildrenHeights`. */
  function ChildrenHeights(n: Tree): (int, int)
    requires n.Node?
  {
    (CachedHeight(n.left), CachedHeight(n.right))
  }

  /** `GetHeight`: one more than the taller child's cached height, so it lies above both. */
  function GetHeight(n: Tree): (h: int)
    requires n.Node?
    ensures h > CachedHeight(n.left) && h > CachedHeight(n.right)
    ensures h == CachedHeight(n.left) + 1 || h == CachedHeight(n.right) + 1
  {
    var hs := ChildrenHeights(n);
    Max(hs.0, hs.1) + 1
  }

  /** `GetBalanceFactor`: positive exactly when the left side is taller, negative exactly when
      the right side is. */
  function GetBalanceFactor(n: Tree): (b: int)
    requires n.Node?
    ensures b > 0 <==> CachedHeight(n.left) > CachedHeight(n.right)
    ensures b < 0 <==> CachedHeight(n.left) < CachedHeight(n.right)
  {
    var hs := ChildrenHeights(n);
    hs.0 - hs.1
  }

  /** Computed from accurate cached heights, the children's heights, GetHeight and
      GetBalanceFactor are the real heights and their difference. */
  lemma HeightsOfNode(n: Tree)
    requires n.Node? && Accurate(n.left) && Accurate(n.right)
    ensures ChildrenHeights(n) == (TreeHeight(n.left), TreeHeight(n.right))
    ensures GetHeight(n) == TreeHeight(n)
    ensures GetBalanceFactor(n) == TreeHeight(n.left) - TreeHeight(n.right)
  {
    AccurateHeight(n.left);
    AccurateHeight(n.right);
  }

  /** `root.height = root.GetHeight()`: the node keeps its children and its element. */
  function Refresh(n: Tree): (r: Tree)
    requires n.Node?
    ensures r.Node? && r.left == n.left && r.elem == n.elem && r.right == n.right
  {
    n.(height := GetHeight(n))
  }

  /** Refreshing a node whose children are accurate makes the node accurate, and its cached
      height its real height. */
  lemma RefreshMakesAccurate(n: Tree)
    requires n.Node? && Accurate(n.left) && Accurate(n.right)
    ensures Accurate(Refresh(n)) && Refresh(n).height == TreeHeight(Refresh(n))
  {
    HeightsOfNode(n);
  }

  /** Every node's children have cached heights that differ by at most one. */
  ghost predicate Balanced(t: Tree) {
    match t
    case Nil => true
    case Node(l, _, r, _) =>
      Balanced(l) && Balanced(r) && -1 <= CachedHeight(l) - CachedHeight(r) <= 1
  }

  /** The elements stored in a tree. */
  ghost function Elements(t: Tree): set<int> {
    match t
    case Nil => {}
    case Node(l, v, r, _) => Elements(l) + {v} + Elements(r)
  }

  /** The elements in the order of an in-order walk. */
  ghost function InOrder(t: Tree): seq<int> {
    match t
    case Nil => []
    case Node(l, v, r, _) => InOrder(l) + [v] + InOrder(r)
  }

  /** The number of nodes. */
  function NodeCount(t: Tree): nat {
    match t
    case Nil => 0
    case Node(l, _, r, _) => NodeCount(l) + 1 + NodeCount(r)
  }

  /** The search-tree order, strict on both sides. */
  ghost predicate Ordered(t: Tree) {
    match t
    case Nil => true
    case Node(l, v, r, _) =>
      && Ordered(l) && Ordered(r)
      && (forall y :: y in Elements(l) ==> y < v)
      && (forall y :: y in Elements(r) ==> v < y)
  }

  /** What `AVLTree` keeps of its root between calls. */
  ghost predicate Avl(t: Tree) {
    Ordered(t) && Accurate(t) && Balanced(t)
  }

  /** In an ordered tree the elements are distinct, so there are as many as there are nodes. */
  lemma {:induction false} NodeCountIsSize(t: Tree)
    ensures Ordered(t) ==> NodeCount(t) == |Elements(t)|
  {
    if t.Node? && Ordered(t) {
      NodeCountIsSize(t.left);
      NodeCountIsSize(t.right);
      var L, R := Elements(t.left), Elements(t.right);
      assert t.elem !in L && t.elem !in R;
      assert L !! R by {
        forall y | y in L ensures y !in R {
          assert y < t.elem;
        }
      }
      assert |L + {t.elem}| == |L| + 1;
    }
  }

  /** Moving a node up past its parent, or back, keeps the search-tree order: both shapes hold
      a, x, b, y, c in that order. */
  lemma RotationOrder(a: Tree, x: int, b: Tree, y: int, c: Tree, h1: int, h2: int, h3: int, h4: int)
    ensures Ordered(Node(a, x, Node(b, y, c, h1), h2)) <==> Ordered(Node(Node(a, x, b, h3), y, c, h4))
  {
    var A, B, C := Elements(a), Elements(b), Elements(c);
    assert Elements(Node(b, y, c, h1)) == B + {y} + C;
    assert Elements(Node(a, x, b, h3)) == A + {x} + B;
  }

  /** `leftRotation`: the right child becomes the subtree's root, with the old root as its left
      child, which takes over the right child's left subtree. Both heights are recomputed. */
  function LeftRotation(n: Tree): (r: Tree)
    requires n.Node? && n.right.Node?
    ensures r.Node? && r.left.Node?
    ensures InOrder(r) == InOrder(n) && Elements(r) == Elements(n)
    ensures Accurate(n.left) && Accurate(n.right) ==> Accurate(r)
  {
    var p := n.right;
    var root := Refresh(Node(n.left, n.elem, p.left, n.height));
    var r := Refresh(Node(root, p.elem, p.right, p.height));
    r
  }

  /** `rightRotation`: the mirror image of LeftRotation. */
  function RightRotation(n: Tree): (r: Tree)
    requires n.Node? && n.left.Node?
    ensures r.Node? && r.right.Node?
    ensures InOrder(r) == InOrder(n) && Elements(r) == Elements(n)
    ensures Accurate(n.left) && Accurate(n.right) ==> Accurate(r)
  {
    var p := n.left;
    var root := Refresh(Node(p.right, n.elem, n.right, n.height));
    var r := Refresh(Node(p.left, p.elem, root, p.height));
    r
  }

  /** `balance`: a right-heavy node (factor below -1) is rotated left, after its right child is
      rotated right when that child leans left; a left-heavy one is the mirror image. A child
      that is rotated exists, because a factor beyond one needs a taller child. */
  function Balance(n: Tree): (r: Tree)
    requires n.Node? && Accurate(n.left) && Accurate(n.right)
    ensures r.Node?
    ensures InOrder(r) == InOrder(n) && Elements(r) == Elements(n)
    ensures Accurate(n) ==> Accurate(r)
  {
    AccurateHeight(n.left);
    AccurateHeight(n.right);
    var bf := GetBalanceFactor(n);
    if bf < -1 then
      AccurateHeight(n.right.right);
      var root := if GetBalanceFactor(n.right) > 0 then n.(right := RightRotation(n.right)) else n;
      LeftRotation(root)
    else if bf > 1 then
      AccurateHeight(n.left.left);
      var root := if GetBalanceFactor(n.left) < 0 then n.(left := LeftRotation(n.left)) else n;
      RightRotation(root)
    else
      n
  }

  /** What `insert` and `remove` do to each node on the way back up: recompute its height,
      balance it, and recompute the height of the node that ends up on top. */
  function Rebuild(n: Tree): (r: Tree)
    requires n.Node? && Accurate(n.left) && Accurate(n.right)
    ensures r.Node? && Accurate(r)
    ensures InOrder(r) == InOrder(n) && Elements(r) == Elements(n)
  {
    Refresh(Balance(Refresh(n)))
  }

  /** The last step of `remove`: a subtree that is left is rebuilt, nil stays nil. */
  function Settle(t: Tree): (r: Tree)
    requires t.Node? ==> Accurate(t.left) && Accurate(t.right)
    ensures Accurate(r) && Elements(r) == Elements(t)
  {
    if t.Nil? then Nil else Rebuild(t)
  }

  /** A rotation keeps the search-tree order, and so does its undoing. */
  lemma RotationsOrdered(n: Tree)
    requires n.Node?
    ensures n.right.Node? ==> (Ordered(LeftRotation(n)) <==> Ordered(n))
    ensures n.left.Node? ==> (Ordered(RightRotation(n)) <==> Ordered(n))
  {
    if n.right.Node? {
      var p, r := n.right, LeftRotation(n);
      RotationOrder(n.left, n.elem, p.left, p.elem, p.right, p.height, n.height, r.left.height, r.height);
    }
    if n.left.Node? {
      var p, r := n.left, RightRotation(n);
      RotationOrder(p.left, p.elem, p.right, n.elem, n.right, r.right.height, r.height, p.height, n.height);
    }
  }

  /** Balancing, and so rebuilding, keeps the search-tree order. */
  lemma RebuildOrdered(n: Tree)
    requires n.Node? && Accurate(n.left) && Accurate(n.right) && Ordered(n)
    ensures Ordered(Balance(n)) && Ordered(Rebuild(n))
  {
    BalanceOrdered(n);
    assert Ordered(Refresh(n));
    BalanceOrdered(Refresh(n));
  }

  /** The rotations Balance chooses keep an ordered tree ordered. */
  lemma BalanceOrdered(m: Tree)
    requires m.Node? && Accurate(m.left) && Accurate(m.right) && Ordered(m)
    ensures Ordered(Balance(m))
  {
    HeightsOfNode(m);
    var bf := GetBalanceFactor(m);
    if bf < -1 {
      if GetBalanceFactor(m.right) > 0 {
        RotationsOrdered(m.right);
        assert Ordered(m.(right := RightRotation(m.right)));
        RotationsOrdered(m.(right := RightRotation(m.right)));
      } else {
        RotationsOrdered(m);
      }
    } else if bf > 1 {
      if GetBalanceFactor(m.left) < 0 {
        RotationsOrdered(m.left);
        assert Ordered(m.(left := LeftRotation(m.left)));
        RotationsOrdered(m.(left := LeftRotation(m.left)));
      } else {
        RotationsOrdered(m);
      }
    }
  }

  /** `contains`: the subtree whose root holds x, found by descending as the order directs, or
      nil. */
  function Search(t: Tree, x: int): (s: Tree)
    ensures s.Node? ==> s.elem == x
    ensures Ordered(t) ==> (s.Node? <==> x in Elements(t))
  {
    match t
    case Nil => t
    case Node(l, v, r, _) =>
      if x == v then t else if x < v then Search(l, x) else Search(r, x)
  }

  /** `findMin`: the leftmost node, which holds the smallest element; nil for nil. */
  function FindMin(t: Tree): (m: Tree)
    ensures m.Node? <==> t.Node?
    ensures m.Node? ==> m.elem in Elements(t)
    ensures m.Node? && Ordered(t) ==> forall y :: y in Elements(t) ==> m.elem <= y
  {
    if t.Nil? || t.left.Nil? then t else FindMin(t.left)
  }

  /** `insert`: x goes in as a new leaf where the search for it ends, and every node on the way
      back up is rebuilt. Meeting x on the way is an error, and the tree is then not changed. */
  function InsertTree(t: Tree, x: int): (r: Result<Tree>)
    requires Accurate(t)
    ensures r.Ok? ==> r.value.Node? && Accurate(r.value)
    ensures r.Ok? ==> Elements(r.value) == Elements(t) + {x}
    ensures r.Err? ==> r.msg == DuplicateError
  {
    match t
    case Nil => Ok(NewNode(x))
    case Node(l, v, rt, h) =>
      if x < v then
        match InsertTree(l, x)
        case Err(e) => Err(e)
        case Ok(nl) => Ok(Rebuild(Node(nl, v, rt, h)))
      else if x > v then
        match InsertTree(rt, x)
        case Err(e) => Err(e)
        case Ok(nr) => Ok(Rebuild(Node(l, v, nr, h)))
      else
        Err(DuplicateError)
  }

  /** `remove`: a node that holds x with at most one child gives way to that child; one with two
      children gives way to the leftmost node of its right subtree, which is first removed from
      there. Every node on the way back up is rebuilt. Not meeting x is an error. */
  function RemoveTree(t: Tree, x: int): (r: Result<Tree>)
    requires Accurate(t)
    ensures r.Ok? ==> Accurate(r.value) && Elements(r.value) <= Elements(t)
    ensures r.Err? ==> r.msg == NotFoundError
  {
    match t
    case Nil => Err(NotFoundError)
    case Node(l, v, rt, h) =>
      if x < v then
        match RemoveTree(l, x)
        case Err(e) => Err(e)
        case Ok(nl) => Ok(Settle(Refresh(Node(nl, v, rt, h))))
      else if x > v then
        match RemoveTree(rt, x)
        case Err(e) => Err(e)
        case Ok(nr) => Ok(Settle(Refresh(Node(l, v, nr, h))))
      else if l.Nil? then
        Ok(Settle(rt))
      else if rt.Nil? then
        Ok(Settle(l))
      else
        var m := FindMin(rt);
        match RemoveTree(rt, m.elem)
        case Err(e) => Err(e)
        case Ok(nr) => Ok(Settle(Node(l, m.elem, nr, m.height)))
  }

  /** Recomputing an accurate height changes nothing. */
  lemma RefreshAccurate(t: Tree)
    requires t.Node? && Accurate(t)
    ensures Refresh(t) == t
  {
  }

  /** A left-heavy node whose left child does not lean right: one right rotation balances it,
      and the result is one or two levels taller than the right child was. */
  lemma SingleRight(n: Tree)
    requires n.Node? && n.left.Node? && Accurate(n.left) && Accurate(n.right)
    requires Balanced(n.left) && Balanced(n.right)
    requires CachedHeight(n.left) == CachedHeight(n.right) + 2
    requires CachedHeight(n.left.left) >= CachedHeight(n.left.right)
    ensures var r := RightRotation(n);
      Balanced(r) && CachedHeight(n.right) + 2 <= CachedHeight(r) <= CachedHeight(n.right) + 3
  {
    var a, b, c := n.left.left, n.left.right, n.right;
    var hr := CachedHeight(c);
    assert CachedHeight(a) == hr + 1;
    var inner := Refresh(Node(b, n.elem, c, n.height));
    assert Balanced(inner) && hr + 1 <= inner.height <= hr + 2;
    var r := Refresh(Node(a, n.left.elem, inner, n.left.height));
    assert r == RightRotation(n);
    assert Balanced(r);
  }

  /** A left-heavy node whose left child leans right: rotating that child left and then the
      node right balances it, and the result is two levels taller than the right child was. */
  lemma DoubleRight(n: Tree)
    requires n.Node? && n.left.Node? && Accurate(n.left) && Accurate(n.right)
    requires Balanced(n.left) && Balanced(n.right)
    requires CachedHeight(n.left) == CachedHeight(n.right) + 2
    requires CachedHeight(n.left.left) < CachedHeight(n.left.right)
    ensures n.left.right.Node?
    ensures var r := RightRotation(n.(left := LeftRotation(n.left)));
      Balanced(r) && CachedHeight(r) == CachedHeight(n.right) + 2
  {
    var l, c := n.left, n.right;
    var a, b := l.left, l.right;
    var hr := CachedHeight(c);
    AccurateHeight(c);
    assert CachedHeight(b) == hr + 1 && CachedHeight(a) == hr;
    var b1, b2 := b.left, b.right;
    assert hr - 1 <= CachedHeight(b1) <= hr && hr - 1 <= CachedHeight(b2) <= hr;
    var lower := Refresh(Node(a, l.elem, b1, l.height));
    assert Balanced(lower) && lower.height == hr + 1;
    var upper := Refresh(Node(b2, n.elem, c, n.height));
    assert Balanced(upper) && upper.height == hr + 1;
    var top := Refresh(Node(lower, b.elem, b2, b.height));
    assert top == LeftRotation(l);
    var r := Refresh(Node(lower, b.elem, upper, top.height));
    assert r == RightRotation(n.(left := top));
    assert Balanced(r) && r.height == hr + 2;
  }

  /** A right-heavy node whose right child does not lean left: the mirror image of
      SingleRight. */
  lemma SingleLeft(n: Tree)
    requires n.Node? && n.right.Node? && Accurate(n.left) && Accurate(n.right)
    requires Balanced(n.left) && Balanced(n.right)
    requires CachedHeight(n.right) == CachedHeight(n.left) + 2
    requires CachedHeight(n.right.right) >= CachedHeight(n.right.left)
    ensures var r := LeftRotation(n);
      Balanced(r) && CachedHeight(n.left) + 2 <= CachedHeight(r) <= CachedHeight(n.left) + 3
  {
    var a, b, c := n.left, n.right.left, n.right.right;
    var hl := CachedHeight(a);
    assert CachedHeight(c) == hl + 1;
    var inner := Refresh(Node(a, n.elem, b, n.height));
    assert Balanced(inner) && hl + 1 <= inner.height <= hl + 2;
    var r := Refresh(Node(inner, n.right.elem, c, n.right.height));
    assert r == LeftRotation(n);
    assert Balanced(r);
  }

  /** A right-heavy node whose right child leans left: the mirror image of DoubleRight. */
  lemma DoubleLeft(n: Tree)
    requires n.Node? && n.right.Node? && Accurate(n.left) && Accurate(n.right)
    requires Balanced(n.left) && Balanced(n.right)
    requires CachedHeight(n.right) == CachedHeight(n.left) + 2
    requires CachedHeight(n.right.right) < CachedHeight(n.right.left)
    ensures n.right.left.Node?
    ensures var r := LeftRotation(n.(right := RightRotation(n.right)));
      Balanced(r) && CachedHeight(r) == CachedHeight(n.left) + 2
  {
    var a, rt := n.left, n.right;
    var b, c := rt.left, rt.right;
    var hl := CachedHeight(a);
    AccurateHeight(a);
    assert CachedHeight(b) == hl + 1 && CachedHeight(c) == hl;
    var b1, b2 := b.left, b.right;
    assert hl - 1 <= CachedHeight(b1) <= hl && hl - 1 <= CachedHeight(b2) <= hl;
    var lower := Refresh(Node(b2, rt.elem, c, rt.height));
    assert Balanced(lower) && lower.height == hl + 1;
    var upper := Refresh(Node(a, n.elem, b1, n.height));
    assert Balanced(upper) && upper.height == hl + 1;
    var top := Refresh(Node(b1, b.elem, lower, b.height));
    assert top == RightRotation(rt);
    var r := Refresh(Node(upper, b.elem, lower, top.height));
    assert r == LeftRotation(n.(right := top));
    assert Balanced(r) && r.height == hl + 2;
  }

  /** Rebuilding a node whose subtrees are balanced and differ in height by at most two gives a
      balanced subtree, as tall as its taller child or one level taller; when the subtrees
      differ by at most one, nothing is rotated and it is one level taller. */
  lemma RebuildBalanced(n: Tree)
    requires n.Node? && Accurate(n.left) && Accurate(n.right)
    requires Balanced(n.left) && Balanced(n.right)
    requires -2 <= CachedHeight(n.left) - CachedHeight(n.right) <= 2
    ensures var r, m := Rebuild(n), Max(CachedHeight(n.left), CachedHeight(n.right));
      Balanced(r) && m <= CachedHeight(r) <= m + 1
    ensures -1 <= CachedHeight(n.left) - CachedHeight(n.right) <= 1 ==>
      CachedHeight(Rebuild(n)) == Max(CachedHeight(n.left), CachedHeight(n.right)) + 1
  {
    AccurateHeight(n.left);
    AccurateHeight(n.right);
    var f := Refresh(n);
    var hl, hr := CachedHeight(n.left), CachedHeight(n.right);
    var b := Balance(f);
    if hl - hr > 1 {
      if CachedHeight(f.left.left) >= CachedHeight(f.left.right) {
        SingleRight(f);
      } else {
        DoubleRight(f);
      }
    } else if hl - hr < -1 {
      if CachedHeight(f.right.right) >= CachedHeight(f.right.left) {
        SingleLeft(f);
      } else {
        DoubleLeft(f);
      }
    } else {
      assert b == f;
    }
    RefreshAccurate(b);
  }

  /** A node whose left subtree grew by at most one level after an insert: rebuilt, it is an
      AVL tree at most one level taller than before. */
  lemma GrownLeft(l: Tree, v: int, r: Tree, nl: Tree, h: int)
    requires Avl(l) && Avl(r) && Avl(nl) && -1 <= CachedHeight(l) - CachedHeight(r) <= 1
    requires CachedHeight(l) <= CachedHeight(nl) <= CachedHeight(l) + 1
    requires (forall y :: y in Elements(nl) ==> y < v) && (forall y :: y in Elements(r) ==> v < y)
    ensures var res, m := Rebuild(Node(nl, v, r, h)), Max(CachedHeight(l), CachedHeight(r));
      Avl(res) && m + 1 <= CachedHeight(res) <= m + 2
  {
    var n := Node(nl, v, r, h);
    assert Ordered(n);
    RebuildBalanced(n);
    RebuildOrdered(n);
  }

  /** The mirror image of GrownLeft. */
  lemma GrownRight(l: Tree, v: int, r: Tree, nr: Tree, h: int)
    requires Avl(l) && Avl(r) && Avl(nr) && -1 <= CachedHeight(l) - CachedHeight(r) <= 1
    requires CachedHeight(r) <= CachedHeight(nr) <= CachedHeight(r) + 1
    requires (forall y :: y in Elements(l) ==> y < v) && (forall y :: y in Elements(nr) ==> v < y)
    ensures var res, m := Rebuild(Node(l, v, nr, h)), Max(CachedHeight(l), CachedHeight(r));
      Avl(res) && m + 1 <= CachedHeight(res) <= m + 2
  {
    var n := Node(l, v, nr, h);
    assert Ordered(n);
    RebuildBalanced(n);
    RebuildOrdered(n);
  }

  /** A node whose left subtree lost at most one level after a removal: rebuilt, it is an AVL
      tree at most one level shorter than before. */
  lemma ShrunkLeft(l: Tree, v: int, r: Tree, nl: Tree, h: int)
    requires Avl(l) && Avl(r) && Avl(nl) && -1 <= CachedHeight(l) - CachedHeight(r) <= 1
    requires CachedHeight(l) - 1 <= CachedHeight(nl) <= CachedHeight(l)
    requires (forall y :: y in Elements(nl) ==> y < v) && (forall y :: y in Elements(r) ==> v < y)
    ensures var res, m := Rebuild(Node(nl, v, r, h)), Max(CachedHeight(l), CachedHeight(r));
      Avl(res) && m <= CachedHeight(res) <= m + 1
  {
    var n := Node(nl, v, r, h);
    assert Ordered(n);
    RebuildBalanced(n);
    RebuildOrdered(n);
  }

  /** The mirror image of ShrunkLeft. */
  lemma ShrunkRight(l: Tree, v: int, r: Tree, nr: Tree, h: int)
    requires Avl(l) && Avl(r) && Avl(nr) && -1 <= CachedHeight(l) - CachedHeight(r) <= 1
    requires CachedHeight(r) - 1 <= CachedHeight(nr) <= CachedHeight(r)
    requires (forall y :: y in Elements(l) ==> y < v) && (forall y :: y in Elements(nr) ==> v < y)
    ensures var res, m := Rebuild(Node(l, v, nr, h)), Max(CachedHeight(l), CachedHeight(r));
      Avl(res) && m <= CachedHeight(res) <= m + 1
  {
    var n := Node(l, v, nr, h);
    assert Ordered(n);
    RebuildBalanced(n);
    RebuildOrdered(n);
  }

  /** Inserting into an AVL tree: an error exactly when x is already stored; otherwise the
      result is an AVL tree again, as tall as before or one level taller. */
  lemma {:induction false} InsertCorrect(t: Tree, x: int)
    requires Avl(t)
    ensures InsertTree(t, x).Err? <==> x in Elements(t)
    ensures InsertTree(t, x).Ok? ==> var r := InsertTree(t, x).value;
      Avl(r) && CachedHeight(t) <= CachedHeight(r) <= CachedHeight(t) + 1
  {
    match t
    case Nil =>
    case Node(l, v, rt, h) =>
      if x < v {
        InsertCorrect(l, x);
        assert x !in Elements(rt);
        if InsertTree(l, x).Ok? {
          GrownLeft(l, v, rt, InsertTree(l, x).value, h);
        }
      } else if x > v {
        InsertCorrect(rt, x);
        assert x !in Elements(l);
        if InsertTree(rt, x).Ok? {
          GrownRight(l, v, rt, InsertTree(rt, x).value, h);
        }
      }
  }

  /** What `remove` promises on an AVL tree: an error exactly when x is not stored; otherwise
      exactly x goes, and the result is an AVL tree again, as tall as before or one level
      shorter. */
  ghost predicate RemovesExactly(t: Tree, x: int)
    requires Accurate(t)
  {
    && (RemoveTree(t, x).Err? <==> x !in Elements(t))
    && (RemoveTree(t, x).Ok? ==> var r := RemoveTree(t, x).value;
      && Avl(r) && Elements(r) == Elements(t) - {x}
      && CachedHeight(t) - 1 <= CachedHeight(r) <= CachedHeight(t))
  }

  /** Removing from an AVL tree does what `remove` promises. */
  lemma {:induction false} RemoveCorrect(t: Tree, x: int)
    requires Avl(t)
    ensures RemovesExactly(t, x)
    decreases t
  {
    if t.Node? {
      if x < t.elem {
        RemoveCorrect(t.left, x);
        RemoveLeft(t, x);
      } else if x > t.elem {
        RemoveCorrect(t.right, x);
        RemoveRight(t, x);
      } else if t.left.Nil? || t.right.Nil? {
        RemoveOneChild(t);
      } else {
        RemoveCorrect(t.right, FindMin(t.right).elem);
        RemoveTwoChildren(t);
      }
    }
  }

  /** The step of RemoveCorrect that descends left. */
  lemma RemoveLeft(t: Tree, x: int)
    requires t.Node? && Avl(t) && x < t.elem && RemovesExactly(t.left, x)
    ensures RemovesExactly(t, x)
  {
    var l, v, rt, h := t.left, t.elem, t.right, t.height;
    assert x !in Elements(rt);
    if RemoveTree(l, x).Ok? {
      var nl := RemoveTree(l, x).value;
      var n := Refresh(Node(nl, v, rt, h));
      assert RemoveTree(t, x) == Ok(Rebuild(n));
      ShrunkLeft(l, v, rt, nl, n.height);
      assert Elements(n) == Elements(t) - {x};
    }
  }

  /** The step of RemoveCorrect that descends right. */
  lemma RemoveRight(t: Tree, x: int)
    requires t.Node? && Avl(t) && x > t.elem && RemovesExactly(t.right, x)
    ensures RemovesExactly(t, x)
  {
    var l, v, rt, h := t.left, t.elem, t.right, t.height;
    assert x !in Elements(l);
    if RemoveTree(rt, x).Ok? {
      var nr := RemoveTree(rt, x).value;
      var n := Refresh(Node(l, v, nr, h));
      assert RemoveTree(t, x) == Ok(Rebuild(n));
      ShrunkRight(l, v, rt, nr, n.height);
      assert Elements(n) == Elements(t) - {x};
    }
  }

  /** Removing the root of an AVL tree that has at most one child: that child takes its
      place. */
  lemma RemoveOneChild(t: Tree)
    requires t.Node? && Avl(t) && (t.left.Nil? || t.right.Nil?)
    ensures RemovesExactly(t, t.elem)
  {
    var l, v, rt := t.left, t.elem, t.right;
    assert v !in Elements(l) && v !in Elements(rt);
    AccurateHeight(l);
    AccurateHeight(rt);
    if l.Nil? {
      assert Ordered(rt) && Elements(rt) == Elements(t) - {v};
      assert Accurate(rt) && Balanced(rt);
      assert rt.Node? ==> Accurate(rt.left) && Accurate(rt.right);
      SettleBalanced(rt);
      assert RemoveTree(t, v) == Ok(rt);
    } else {
      assert Ordered(l) && Elements(l) == Elements(t) - {v};
      assert Accurate(l) && Balanced(l);
      assert Accurate(l.left) && Accurate(l.right);
      SettleBalanced(l);
      assert RemoveTree(t, v) == Ok(l);
    }
  }

  /** A tree that is already accurate and balanced is left as it is by Settle. */
  lemma SettleBalanced(t: Tree)
    requires Accurate(t) && Balanced(t)
    ensures Settle(t) == t
  {
    if t.Node? {
      RebuildUnrotated(t);
      assert Refresh(t) == t;
    }
  }

  /** Removing the root of an AVL tree that has two children: the smallest element of the
      right subtree is removed from there and takes the root's place. */
  lemma RemoveTwoChildren(t: Tree)
    requires t.Node? && Avl(t) && t.left.Node? && t.right.Node?
    requires RemovesExactly(t.right, FindMin(t.right).elem)
    ensures RemovesExactly(t, t.elem)
  {
    var l, v, rt := t.left, t.elem, t.right;
    assert v !in Elements(l) && v !in Elements(rt);
    var m := FindMin(rt);
    assert m.elem in Elements(rt) && Ordered(rt);
    var nr := RemoveTree(rt, m.elem).value;
    assert Avl(nr) && Elements(nr) == Elements(rt) - {m.elem};
    assert CachedHeight(rt) - 1 <= CachedHeight(nr) <= CachedHeight(rt);
    var n := Node(l, m.elem, nr, m.height);
    assert RemoveTree(t, v) == Ok(Settle(n));
    assert forall y :: y in Elements(l) ==> y < m.elem;
    forall y | y in Elements(nr)
      ensures m.elem < y
    {
      assert y in Elements(rt) && y != m.elem;
    }
    ShrunkRight(l, m.elem, rt, nr, m.height);
    assert Elements(n) == Elements(t) - {v};
  }

  /** An insert into an AVL tree adds one node exactly when it succeeds. */
  lemma InsertCounted(t: Tree, x: int)
    requires Avl(t)
    ensures InsertTree(t, x).Err? <==> x in Elements(t)
    ensures InsertTree(t, x).Ok? ==> var r := InsertTree(t, x).value;
      Avl(r) && NodeCount(r) == NodeCount(t) + 1
  {
    InsertCorrect(t, x);
    NodeCountIsSize(t);
    if InsertTree(t, x).Ok? {
      NodeCountIsSize(InsertTree(t, x).value);
    }
  }

  /** A removal from an AVL tree takes one node away exactly when it succeeds. */
  lemma RemoveCounted(t: Tree, x: int)
    requires Avl(t)
    ensures RemoveTree(t, x).Err? <==> x !in Elements(t)
    ensures RemoveTree(t, x).Ok? ==> var r := RemoveTree(t, x).value;
      Avl(r) && Elements(r) == Elements(t) - {x} && NodeCount(r) == NodeCount(t) - 1
  {
    RemoveCorrect(t, x);
    NodeCountIsSize(t);
    if RemoveTree(t, x).Ok? {
      NodeCountIsSize(RemoveTree(t, x).value);
    }
  }

  /** An `AVLTree`: the root and the element count that `Insert` and `remove` keep. */
  class AVLTree {
    var root: Tree
    var size: int

    /** The root is an AVL tree and size counts its nodes. */
    ghost predicate Valid()
      reads this
    {
      Avl(root) && size == NodeCount(root)
    }

    /** `NewAVLTree`: no root, size 0. */
    constructor ()
      ensures root == Nil && size == 0
      ensures Valid()
    {
      root := Nil;
      size := 0;
    }

    /** `Size`: the number of elements stored. */
    function Size(): (n: int)
      reads this
      ensures Valid() ==> n == |Elements(root)|
    {
      NodeCountIsSize(root);
      size
    }

    /** `Contains`: whether the search for x finds a node. */
    function Contains(x: int): (b: bool)
      reads this
      ensures Ordered(root) ==> (b <==> x in Elements(root))
      ensures root == Nil ==> !b
    {
      Search(root, x).Node?
    }

    /** `Insert`: on success the root becomes the rebuilt tree and size grows by one; a
        duplicate is an error that changes nothing. */
    method Insert(x: int) returns (err: Status)
      requires Accurate(root)
      modifies this
      ensures InsertTree(old(root), x).Ok? ==>
        root == InsertTree(old(root), x).value && size == old(size) + 1 && err == Done
      ensures InsertTree(old(root), x).Err? ==>
        root == old(root) && size == old(size) && err == Fail(DuplicateError)
      ensures old(Valid()) ==> Valid() && (err == Done <==> x !in old(Elements(root)))
      ensures old(Valid()) ==> Elements(root) == old(Elements(root)) + {x}
    {
      if Valid() {
        InsertCounted(root, x);
      }
      var r := InsertTree(root, x);
      if r.Err? {
        return Fail(r.msg);
      }
      root := r.value;
      size := size + 1;
      return Done;
    }

    /** `remove`: returns the new subtree and the error; on an error the subtree given is
        returned. The node that holds x lowers size; in the two-children case the inner removal
        lowers it too and `size++` makes up for it. */
    method RemoveAt(t: Tree, x: int) returns (r: Tree, err: Status)
      requires Accurate(t)
      modifies this
      ensures RemoveTree(t, x).Ok? ==> r == RemoveTree(t, x).value && err == Done
      ensures RemoveTree(t, x).Err? ==> r == t && err == Fail(NotFoundError)
      ensures size == old(size) - (if RemoveTree(t, x).Ok? then 1 else 0)
      ensures root == old(root)
      decreases t
    {
      if t == Nil {
        return t, Fail(NotFoundError);
      }
      var l, v, rt := t.left, t.elem, t.right;
      var n: Tree;
      if x < v {
        var nl, e := RemoveAt(l, x);
        if e.Fail? {
          return t, e;
        }
        n := Refresh(Node(nl, v, rt, t.height));
      } else if x > v {
        var nr, e := RemoveAt(rt, x);
        if e.Fail? {
          return t, e;
        }
        n := Refresh(Node(l, v, nr, t.height));
      } else {
        if l == Nil {
          n := rt;
        } else if rt == Nil {
          n := l;
        } else {
          var m := FindMin(rt);
          var nr, e := RemoveAt(rt, m.elem);
          if e.Fail? {
            return t, e;
          }
          n := Node(l, m.elem, nr, m.height);
          size := size + 1;
        }
        size := size - 1;
      }
      r := Settle(n);
      err := Done;
    }

    /** `Remove`: on success the root becomes the rebuilt tree and size drops by one; an absent
        element is an error that changes nothing. */
    method Remove(x: int) returns (err: Status)
      requires Accurate(root)
      modifies this
      ensures RemoveTree(old(root), x).Ok? ==>
        root == RemoveTree(old(root), x).value && size == old(size) - 1 && err == Done
      ensures RemoveTree(old(root), x).Err? ==>
        root == old(root) && size == old(size) && err == Fail(NotFoundError)
      ensures old(Valid()) ==> Valid() && (err == Done <==> x in old(Elements(root)))
      ensures old(Valid()) ==> Elements(root) == old(Elements(root)) - {x}
    {
      if Valid() {
        RemoveCounted(root, x);
      }
      var r, e := RemoveAt(root, x);
      if e.Fail? {
        return e;
      }
      root := r;
      return Done;
    }
  }

  /** A node whose children are accurate and differ in height by at most one is not rotated:
      rebuilding it only recomputes its height. */
  lemma RebuildUnrotated(n: Tree)
    requires n.Node? && Accurate(n.left) && Accurate(n.right)
    requires -1 <= CachedHeight(n.left) - CachedHeight(n.right) <= 1
    ensures Rebuild(n) == Refresh(n)
  {
    assert Balance(Refresh(n)) == Refresh(n);
  }
}
