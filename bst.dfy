/** The plain binary search tree of ds/bst.go. Smaller elements go left and the rest, duplicates
    included, go right. The tree object holds the root and a size that the recursive helpers
    bump. Nodes are values here. The node that `Root` points to is rewired in place by `remove`,
    and `Remove` reassigns `Root` only when `remove` fails. So the state of that node after the
    call is modelled separately, by InPlace. */
module BinarySearchTrees {
  import opened Outcome

  datatype Tree = Nil | Node(left: Tree, elem: int, right: Tree)

  const EmptyTreeError := "tree is empty"
  const NotFoundError := "element was not found"

  /** The elements stored in a tree, with their multiplicities. */
  ghost function Elements(t: Tree): multiset<int> {
    match t
    case Nil => multiset{}
    case Node(l, v, r) => Elements(l) + multiset{v} + Elements(r)
  }

  /** The search-tree order: every element of a left subtree is smaller than its node, every
      element of a right subtree is at least its node. */
  ghost predicate Ordered(t: Tree) {
    match t
    case Nil => true
    case Node(l, v, r) =>
      && Ordered(l) && Ordered(r)
      && (forall y :: y in Elements(l) ==> y < v)
      && (forall y :: y in Elements(r) ==> v <= y)
  }

  /** `insert`: the new element becomes a leaf, left of every node it is smaller than and right
      of every other. */
  function InsertTree(t: Tree, x: int): (r: Tree)
    ensures Elements(r) == Elements(t) + multiset{x}
    ensures Ordered(t) ==> Ordered(r)
    ensures r != Nil
  {
    match t
    case Nil => Node(Nil, x, Nil)
    case Node(l, v, rt) =>
      if x < v then Node(InsertTree(l, x), v, rt) else Node(l, v, InsertTree(rt, x))
  }

  /** `findMin`: the element of the leftmost node, which is the smallest element. */
  function MinElem(t: Tree): (m: int)
    requires t != Nil
    ensures m in Elements(t)
    ensures Ordered(t) ==> forall y :: y in Elements(t) ==> m <= y
  {
    if t.left == Nil then t.elem else MinElem(t.left)
  }

  /** What `remove` returns: the new subtree root, and whether the element was found (the
      error is nil). */
  datatype Removal = Removal(root: Tree, found: bool)

  /** `remove`: searches for x as an insertion would. A node holding x with at most one child
      is replaced by that child; one with two children is replaced by the minimum of its right
      subtree, which is removed from there and keeps both subtrees. Success is only ever
      reported for an element that is stored. */
  function RemoveTree(t: Tree, x: int): (r: Removal)
    ensures r.found ==> x in Elements(t)
  {
    match t
    case Nil => Removal(Nil, false)
    case Node(l, v, rt) =>
      if x < v then
        var s := RemoveTree(l, x);
        Removal(Node(s.root, v, rt), s.found)
      else if x > v then
        var s := RemoveTree(rt, x);
        Removal(Node(l, v, s.root), s.found)
      else if l == Nil then Removal(rt, true)
      else if rt == Nil then Removal(l, true)
      else
        var m := MinElem(rt);
        var s := RemoveTree(rt, m);
        Removal(Node(l, m, s.root), s.found)
  }

  /** In an ordered tree, `remove` finds x exactly when x is stored, and a failed search
      returns the tree unchanged. */
  lemma {:induction false} RemoveFinds(t: Tree, x: int)
    requires Ordered(t)
    ensures RemoveTree(t, x).found <==> x in Elements(t)
    ensures !RemoveTree(t, x).found ==> RemoveTree(t, x).root == t
  {
    match t
    case Nil =>
    case Node(l, v, rt) =>
      assert x in Elements(t) <==> x in Elements(l) || x == v || x in Elements(rt);
      if x < v {
        var s := RemoveTree(l, x);
        assert RemoveTree(t, x) == Removal(Node(s.root, v, rt), s.found);
        RemoveFinds(l, x);
        assert x !in Elements(rt);
      } else if x > v {
        var s := RemoveTree(rt, x);
        assert RemoveTree(t, x) == Removal(Node(l, v, s.root), s.found);
        RemoveFinds(rt, x);
        assert x !in Elements(l);
      } else if l != Nil && rt != Nil {
        var m := MinElem(rt);
        RemoveFinds(rt, m);
        assert RemoveTree(t, x).found;
      }
  }

  /** In an ordered tree, a successful `remove` takes out exactly one copy of x. */
  lemma {:induction false} RemoveTakesOne(t: Tree, x: int)
    requires Ordered(t) && x in Elements(t)
    ensures Elements(RemoveTree(t, x).root) == Elements(t) - multiset{x}
  {
    match t
    case Node(l, v, rt) =>
      if x < v {
        assert x in Elements(l);
        RemoveTakesOne(l, x);
        TakesOneLeft(t, x);
      } else if x > v {
        assert x in Elements(rt);
        RemoveTakesOne(rt, x);
        TakesOneRight(t, x);
      } else if l != Nil && rt != Nil {
        RemoveTakesOne(rt, MinElem(rt));
        TakesOneAtRoot(t);
      }
  }

  /** The step of RemoveTakesOne that goes left. */
  lemma TakesOneLeft(t: Tree, x: int)
    requires t.Node? && Ordered(t) && x < t.elem
    requires Elements(RemoveTree(t.left, x).root) == Elements(t.left) - multiset{x}
    requires x in Elements(t.left)
    ensures Elements(RemoveTree(t, x).root) == Elements(t) - multiset{x}
  {
    var s := RemoveTree(t.left, x);
    assert RemoveTree(t, x).root == Node(s.root, t.elem, t.right);
    TakeFromLeft(Elements(t.left), multiset{t.elem}, Elements(t.right), x);
  }

  /** The step of RemoveTakesOne that goes right. */
  lemma TakesOneRight(t: Tree, x: int)
    requires t.Node? && Ordered(t) && x > t.elem
    requires Elements(RemoveTree(t.right, x).root) == Elements(t.right) - multiset{x}
    requires x in Elements(t.right)
    ensures Elements(RemoveTree(t, x).root) == Elements(t) - multiset{x}
  {
    var s := RemoveTree(t.right, x);
    assert RemoveTree(t, x).root == Node(t.left, t.elem, s.root);
    TakeFromRight(Elements(t.left), multiset{t.elem}, Elements(t.right), x);
  }

  /** The step of RemoveTakesOne at a node with two children that holds the element. */
  lemma TakesOneAtRoot(t: Tree)
    requires t.Node? && t.left != Nil && t.right != Nil
    requires Elements(RemoveTree(t.right, MinElem(t.right)).root) == Elements(t.right) - multiset{MinElem(t.right)}
    ensures Elements(RemoveTree(t, t.elem).root) == Elements(t) - multiset{t.elem}
  {
    var m := MinElem(t.right);
    var s := RemoveTree(t.right, m);
    assert RemoveTree(t, t.elem).root == Node(t.left, m, s.root);
    ReplaceRoot(Elements(t.left), Elements(t.right), t.elem, m);
  }

  lemma TakeFromLeft(a: multiset<int>, b: multiset<int>, c: multiset<int>, x: int)
    requires x in a
    ensures (a - multiset{x}) + b + c == (a + b + c) - multiset{x}
  {
  }

  lemma TakeFromRight(a: multiset<int>, b: multiset<int>, c: multiset<int>, x: int)
    requires x in c
    ensures a + b + (c - multiset{x}) == (a + b + c) - multiset{x}
  {
  }

  lemma ReplaceRoot(a: multiset<int>, c: multiset<int>, v: int, m: int)
    requires m in c
    ensures a + multiset{m} + (c - multiset{m}) == (a + multiset{v} + c) - multiset{v}
  {
  }

  /** In an ordered tree, `remove` adds no element. */
  lemma RemoveShrinks(t: Tree, x: int)
    requires Ordered(t)
    ensures forall y :: y in Elements(RemoveTree(t, x).root) ==> y in Elements(t)
  {
    RemoveFinds(t, x);
    if x in Elements(t) {
      RemoveTakesOne(t, x);
    }
  }

  /** In an ordered tree, `remove` keeps the order. */
  lemma {:induction false} RemoveOrdered(t: Tree, x: int)
    requires Ordered(t)
    ensures Ordered(RemoveTree(t, x).root)
  {
    match t
    case Nil =>
    case Node(l, v, rt) =>
      if x < v {
        RemoveOrdered(l, x);
        RemoveShrinks(l, x);
      } else if x > v {
        RemoveOrdered(rt, x);
        RemoveShrinks(rt, x);
      } else if l != Nil && rt != Nil {
        var m := MinElem(rt);
        RemoveOrdered(rt, m);
        RemoveShrinks(rt, m);
      }
  }

  /** In an ordered tree, `remove` finds x exactly when x is stored, then takes out one copy
      of it, and keeps the order; a failed search changes nothing. */
  lemma RemoveTreeCorrect(t: Tree, x: int)
    requires Ordered(t)
    ensures var r := RemoveTree(t, x);
      && (r.found <==> x in Elements(t))
      && (r.found ==> Elements(r.root) == Elements(t) - multiset{x})
      && (!r.found ==> r.root == t)
      && Ordered(r.root)
  {
    RemoveFinds(t, x);
    if x in Elements(t) {
      RemoveTakesOne(t, x);
    }
    RemoveOrdered(t, x);
  }

  /** A successful `remove` leaves one element fewer. */
  lemma RemovalCount(t: Tree, x: int)
    requires Ordered(t)
    ensures var r := RemoveTree(t, x);
      |Elements(r.root)| == |Elements(t)| - (if r.found then 1 else 0)
  {
    RemoveTreeCorrect(t, x);
  }

  /** The state of the node passed to `remove` once the call returns. Below the matching node
      it is the returned subtree; the matching node itself keeps its element, and with two
      children its right field now holds the right subtree without its minimum. */
  function InPlace(t: Tree, x: int): (r: Tree)
    ensures t == Nil ==> r == Nil
    ensures t.Node? ==> r.Node? && r.elem == t.elem
  {
    match t
    case Nil => Nil
    case Node(l, v, rt) =>
      if x < v then Node(RemoveTree(l, x).root, v, rt)
      else if x > v then Node(l, v, RemoveTree(rt, x).root)
      else if l == Nil || rt == Nil then t
      else Node(l, v, RemoveTree(rt, MinElem(rt)).root)
  }

  /** Unless the root node holds x, the node passed in ends up as the subtree `remove` returns. */
  lemma InPlaceBelowRoot(t: Tree, x: int)
    requires t.Node? && t.elem != x
    ensures InPlace(t, x) == RemoveTree(t, x).root
  {
  }

  /** The node passed in stays ordered. */
  lemma InPlaceOrdered(t: Tree, x: int)
    requires Ordered(t)
    ensures Ordered(InPlace(t, x))
  {
    match t
    case Nil =>
    case Node(l, v, rt) =>
      if x < v {
        RemoveOrdered(l, x);
        RemoveShrinks(l, x);
      } else if x > v {
        RemoveOrdered(rt, x);
        RemoveShrinks(rt, x);
      } else if l != Nil && rt != Nil {
        RemoveOrdered(rt, MinElem(rt));
        RemoveShrinks(rt, MinElem(rt));
      }
  }

  /** A `BST`: the root and the count the helpers keep. */
  class BST {
    var root: Tree
    var size: int

    /** The root is ordered and size counts its elements. */
    ghost predicate Valid()
      reads this
    {
      Ordered(root) && size == |Elements(root)|
    }

    /** `NewBST`: no root, size 0. */
    constructor ()
      ensures root == Nil && size == 0
      ensures Valid()
    {
      root := Nil;
      size := 0;
    }

    /** `Size`. */
    function Size(): (n: int)
      reads this
      ensures Valid() ==> n == |Elements(root)|
    {
      size
    }

    /** `FindMin`: an error on an empty tree, otherwise the smallest element. */
    function FindMin(): (r: Result<int>)
      reads this
      ensures r.Err? <==> root == Nil
      ensures r.Err? ==> r.msg == EmptyTreeError
      ensures r.Ok? ==> r.value in Elements(root)
      ensures r.Ok? && Ordered(root) ==> forall y :: y in Elements(root) ==> r.value <= y
    {
      if root == Nil then Err(EmptyTreeError) else Ok(MinElem(root))
    }

    /** `insert`: the subtree with x added as a leaf; the new leaf bumps size. */
    method InsertAt(t: Tree, x: int) returns (r: Tree)
      modifies this
      ensures r == InsertTree(t, x)
      ensures size == old(size) + 1 && root == old(root)
    {
      if t == Nil {
        size := size + 1;
        return Node(Nil, x, Nil);
      }
      if x < t.elem {
        var l := InsertAt(t.left, x);
        r := Node(l, t.elem, t.right);
      } else {
        var rt := InsertAt(t.right, x);
        r := Node(t.left, t.elem, rt);
      }
    }

    /** `Insert`: always succeeds, duplicates included, and adds exactly x. */
    method Insert(x: int)
      modifies this
      ensures root == InsertTree(old(root), x) && size == old(size) + 1
      ensures Elements(root) == old(Elements(root)) + multiset{x}
      ensures old(Valid()) ==> Valid()
    {
      root := InsertAt(root, x);
    }

    /** `remove`: returns the new subtree root, the state the node t is left in, and the
        error. The matching node lowers size; in the two-children case the inner removal of
        the minimum lowers it too and `size++` makes up for it. */
    method RemoveAt(t: Tree, x: int) returns (r: Tree, top: Tree, err: Status)
      modifies this
      ensures r == RemoveTree(t, x).root && top == InPlace(t, x)
      ensures err == if RemoveTree(t, x).found then Done else Fail(NotFoundError)
      ensures size == old(size) - (if RemoveTree(t, x).found then 1 else 0)
      ensures root == old(root)
    {
      if t == Nil {
        return t, t, Fail(NotFoundError);
      }
      var l, v, rt := t.left, t.elem, t.right;
      if x < v {
        var nl, _, e := RemoveAt(l, x);
        r := Node(nl, v, rt);
        return r, r, e;
      } else if x > v {
        var nr, _, e := RemoveAt(rt, x);
        r := Node(l, v, nr);
        return r, r, e;
      }
      if l == Nil {
        r, top, err := rt, t, Done;
      } else if rt == Nil {
        r, top, err := l, t, Done;
      } else {
        var m := MinElem(rt);
        var nr, _, e := RemoveAt(rt, m);
        r, top, err := Node(l, m, nr), Node(l, v, nr), e;
        size := size + 1;
      }
      size := size - 1;
    }

    /** `Remove` as written: `Root` takes the returned subtree only when there was an error,
        so on success `Root` still points to the node that held the old root, rewired in
        place. Size still drops by one. */
    method Remove(x: int) returns (err: Status)
      modifies this
      ensures var rm := RemoveTree(old(root), x);
        && err == (if rm.found then Done else Fail(NotFoundError))
        && root == (if rm.found then InPlace(old(root), x) else rm.root)
        && size == old(size) - (if rm.found then 1 else 0)
      ensures Ordered(old(root)) ==> Ordered(root)
      ensures Ordered(old(root)) && err.Fail? ==> root == old(root)
    {
      if Ordered(root) {
        InPlaceOrdered(root, x);
        RemoveFinds(root, x);
      }
      var r, top, e := RemoveAt(root, x);
      root := top;
      if e.Fail? {
        root := r;
      }
      return e;
    }

    /** `Remove` with `Root` always taking the returned subtree: exactly one copy of a stored
        element goes, and an absent one is an error that changes nothing. */
    method RemoveCorrected(x: int) returns (err: Status)
      modifies this
      ensures err == if RemoveTree(old(root), x).found then Done else Fail(NotFoundError)
      ensures old(Valid()) ==> (err == Done <==> x in old(Elements(root)))
      ensures root == RemoveTree(old(root), x).root
      ensures old(Valid()) ==> Valid() && Elements(root) == old(Elements(root)) - multiset{x}
      ensures old(Valid()) && x !in old(Elements(root)) ==> root == old(root) && size == old(size)
    {
      ghost var t, valid := root, Valid();
      var r, _, e := RemoveAt(root, x);
      root := r;
      if valid {
        RemoveTreeCorrect(t, x);
        RemovalCount(t, x);
      }
      return e;
    }
  }

  /** The tree that holds 10 at its root and 20 to its right. */
  function TenTwenty(): Tree {
    Node(Nil, 10, Node(Nil, 20, Nil))
  }

  /** Removing the root's element from that tree: `remove` finds it and returns the right
      child, but the root node is left as it was, so 10 stays in the visible tree. */
  lemma RootRemovalKeepsElement()
    ensures RemoveTree(TenTwenty(), 10) == Removal(Node(Nil, 20, Nil), true)
    ensures InPlace(TenTwenty(), 10) == TenTwenty()
    ensures 10 in Elements(InPlace(TenTwenty(), 10))
  {
  }

  /** Insert 10 and 20, then remove 10 three times: every call succeeds, the visible tree
      never changes, and the size ends below zero. */
  method RootRemovalScenario() returns (tree: Tree, size: int, errs: seq<Status>)
    ensures tree == TenTwenty()
    ensures size == -1
    ensures errs == [Done, Done, Done]
  {
    var b := new BST();
    b.Insert(10);
    b.Insert(20);
    var e1 := b.Remove(10);
    var e2 := b.Remove(10);
    var e3 := b.Remove(10);
    tree, size, errs := b.root, b.size, [e1, e2, e3];
  }

  /** The tree the removal tests build by inserting 10, 5, 7, 17, 3, 24, 13, 15 and 6. */
  function ExampleTree(): Tree {
    var left := Node(Node(Nil, 3, Nil), 5, Node(Node(Nil, 6, Nil), 7, Nil));
    var right := Node(Node(Nil, 13, Node(Nil, 15, Nil)), 17, Node(Nil, 24, Nil));
    Node(left, 10, right)
  }

  /** The first five inserts of the tests. */
  lemma FirstInserts()
    ensures InsertTree(InsertTree(InsertTree(InsertTree(InsertTree(Nil, 10), 5), 7), 17), 3)
      == FiveInserted()
  {
    var t2 := Node(Node(Nil, 5, Nil), 10, Nil);
    assert InsertTree(InsertTree(Nil, 10), 5) == t2;
    var t3 := Node(Node(Nil, 5, Node(Nil, 7, Nil)), 10, Nil);
    assert InsertTree(t2, 7) == t3;
    var t4 := Node(Node(Nil, 5, Node(Nil, 7, Nil)), 10, Node(Nil, 17, Nil));
    assert InsertTree(t3, 17) == t4;
  }

  /** The last four inserts of the tests. */
  lemma LastInserts()
    ensures InsertTree(InsertTree(InsertTree(InsertTree(FiveInserted(), 24), 13), 15), 6)
      == ExampleTree()
  {
    var l := Node(Node(Nil, 3, Nil), 5, Node(Nil, 7, Nil));
    var t6 := Node(l, 10, Node(Nil, 17, Node(Nil, 24, Nil)));
    assert InsertTree(Node(l, 10, Node(Nil, 17, Nil)), 24) == t6;
    var t7 := Node(l, 10, Node(Node(Nil, 13, Nil), 17, Node(Nil, 24, Nil)));
    assert InsertTree(t6, 13) == t7;
    var t8 := Node(l, 10, ExampleTree().right);
    assert InsertTree(t7, 15) == t8;
  }

  /** The tree after the first five inserts of the tests. */
  function FiveInserted(): Tree {
    Node(Node(Node(Nil, 3, Nil), 5, Node(Nil, 7, Nil)), 10, Node(Nil, 17, Nil))
  }

  /** The first five inserts of the tests, into a new tree. */
  method InsertFirstFive(b: BST)
    requires b.root == Nil && b.size == 0
    modifies b
    ensures b.root == FiveInserted() && b.size == 5
  {
    FirstInserts();
    b.Insert(10);
    b.Insert(5);
    b.Insert(7);
    b.Insert(17);
    b.Insert(3);
  }

  /** The last four inserts of the tests. */
  method InsertLastFour(b: BST)
    requires b.root == FiveInserted() && b.size == 5
    modifies b
    ensures b.root == ExampleTree() && b.size == 9
  {
    LastInserts();
    b.Insert(24);
    b.Insert(13);
    b.Insert(15);
    b.Insert(6);
  }

  /** The nine inserts of the tests give that tree, and size 9. */
  method ExampleInserts() returns (tree: Tree, size: int)
    ensures tree == ExampleTree() && size == 9
  {
    var b := new BST();
    InsertFirstFive(b);
    InsertLastFour(b);
    tree, size := b.root, b.size;
  }

  /** Removing the leaf 6, and 7, which has only a left child. */
  lemma ExampleRemovalsLeft()
    ensures RemoveTree(ExampleTree(), 6).root.left.right == Node(Nil, 7, Nil)
    ensures RemoveTree(ExampleTree(), 7).root.left.right == Node(Nil, 6, Nil)
  {
  }

  /** Removing 13, which has only a right child, and 17, which has two: 24, the minimum of
      its right subtree, takes its place. */
  lemma ExampleRemovalsRight()
    ensures RemoveTree(ExampleTree(), 13).root.right.left == Node(Nil, 15, Nil)
    ensures RemoveTree(ExampleTree(), 17).root.right == Node(Node(Nil, 13, Node(Nil, 15, Nil)), 24, Nil)
  {
  }

  /** The FindMin test: the minimum is 3. */
  lemma ExampleMin()
    ensures MinElem(ExampleTree()) == 3
  {
  }
}
