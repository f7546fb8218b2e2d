/** The AVL tree scenarios of ds/avltree_test.go, worked through the model one insert at a
    time. Where an insert goes two levels down, the step below the root is its own lemma. */
module AvlTreeExamples {
  import opened Outcome
  import opened AvlTrees

  /** Inserting 10 into an empty tree gives a single leaf. */
  lemma FirstInsert()
    ensures InsertTree(Nil, 10) == Ok(NewNode(10))
  {
  }

  /** Then 5 becomes its left child. */
  lemma SecondInsertLeft()
    ensures InsertTree(NewNode(10), 5) == Ok(Node(NewNode(5), 10, Nil, 1))
  {
  }

  /** Or 15 becomes its right child. */
  lemma SecondInsertRight()
    ensures InsertTree(NewNode(10), 15) == Ok(Node(Nil, 10, NewNode(15), 1))
  {
    LeafInsertRight(10, 15);
  }

  /** 10, 5 and then 1: the root leans two levels left and is rotated right, so 5 is the new
      root with 1 and 10 below it. */
  lemma LeftHeavyInsert()
    ensures InsertTree(Node(NewNode(5), 10, Nil, 1), 1) == Ok(Node(NewNode(1), 5, NewNode(10), 1))
  {
    LeafInsert(5, 1);
    LeftHeavyRoot();
  }

  /** The root 10 over the chain 5, 1 is rotated right. */
  lemma LeftHeavyRoot()
    ensures Rebuild(Node(Node(NewNode(1), 5, Nil, 1), 10, Nil, 1)) == Node(NewNode(1), 5, NewNode(10), 1)
  {
    var n := Node(Node(NewNode(1), 5, Nil, 1), 10, Nil, 1);
    assert Refresh(n) == n.(height := 2);
    assert GetBalanceFactor(n.(height := 2)) == 2;
  }

  /** 10, 15 and then 17: the mirror image, a left rotation that puts 15 on top. */
  lemma RightHeavyInsert()
    ensures InsertTree(Node(Nil, 10, NewNode(15), 1), 17) == Ok(Node(NewNode(10), 15, NewNode(17), 1))
  {
    LeafInsertRight(15, 17);
    RightHeavyRoot();
  }

  /** The root 10 over the chain 15, 17 is rotated left. */
  lemma RightHeavyRoot()
    ensures Rebuild(Node(Nil, 10, Node(Nil, 15, NewNode(17), 1), 1)) == Node(NewNode(10), 15, NewNode(17), 1)
  {
    var n := Node(Nil, 10, Node(Nil, 15, NewNode(17), 1), 1);
    assert Refresh(n) == n.(height := 2);
    assert GetBalanceFactor(n.(height := 2)) == -2;
  }

  /** The tree after 10, 5, 15, 3 and 8 are inserted. */
  function FiveInserted(): Tree {
    Node(Node(NewNode(3), 5, NewNode(8), 1), 10, NewNode(15), 2)
  }

  /** After 10 and 5, inserting 15 fills the root's right side. */
  lemma ThirdInsert()
    ensures InsertTree(Node(NewNode(5), 10, Nil, 1), 15) == Ok(Node(NewNode(5), 10, NewNode(15), 1))
  {
  }

  /** Inserting 3 next grows the left side without rotating. */
  lemma FourthInsert()
    ensures InsertTree(Node(NewNode(5), 10, NewNode(15), 1), 3)
      == Ok(Node(Node(NewNode(3), 5, Nil, 1), 10, NewNode(15), 2))
  {
    LeafInsert(5, 3);
  }

  /** Inserting 8 next gives 10 at the root, with 5 (holding 3 and 8) and 15 below it. */
  lemma FifthInsert()
    ensures InsertTree(Node(Node(NewNode(3), 5, Nil, 1), 10, NewNode(15), 2), 8) == Ok(FiveInserted())
  {
    FilledBelowRoot(3, 5, 8);
  }

  /** Inserting beside a leaf hangs the new element on the side the order directs. */
  lemma LeafInsert(v: int, x: int)
    requires x < v
    ensures InsertTree(NewNode(v), x) == Ok(Node(NewNode(x), v, Nil, 1))
  {
  }

  /** The mirror image: a larger element goes to the right of the leaf. */
  lemma LeafInsertRight(v: int, x: int)
    requires v < x
    ensures InsertTree(NewNode(v), x) == Ok(Node(Nil, v, NewNode(x), 1))
  {
  }

  /** Filling the empty right side of a node whose left child is a leaf. */
  lemma FilledBelowRoot(a: int, v: int, x: int)
    requires a < v < x
    ensures InsertTree(Node(NewNode(a), v, Nil, 1), x) == Ok(Node(NewNode(a), v, NewNode(x), 1))
  {
  }

  /** Below the root, 1 goes left of 3, and 5 grows to height 2 without rotating. */
  lemma OneBelowRoot()
    ensures InsertTree(FiveInserted().left, 1)
      == Ok(Node(Node(NewNode(1), 3, Nil, 1), 5, NewNode(8), 2))
  {
    LeafInsert(3, 1);
  }

  /** The root, which now leans two levels left, is rotated right: 5 takes its place, and 8
      moves across to become the left child of 10. */
  lemma OneAtRoot()
    ensures Rebuild(Node(Node(Node(NewNode(1), 3, Nil, 1), 5, NewNode(8), 2), 10, NewNode(15), 2))
      == Node(Node(NewNode(1), 3, Nil, 1), 5, Node(NewNode(8), 10, NewNode(15), 1), 2)
  {
  }

  /** Inserting 1 last gives root 5, with 3 (holding 1) to its left and 10 (holding 8 and 15)
      to its right. */
  lemma SixthInsert()
    ensures InsertTree(FiveInserted(), 1)
      == Ok(Node(Node(NewNode(1), 3, Nil, 1), 5, Node(NewNode(8), 10, NewNode(15), 1), 2))
  {
    OneBelowRoot();
    OneAtRoot();
  }

  /** The tree after 10, 5, 15, 11 and 18 are inserted. */
  function MirrorFiveInserted(): Tree {
    Node(NewNode(5), 10, Node(NewNode(11), 15, NewNode(18), 1), 2)
  }

  /** After 10, 5 and 15, inserting 11 hangs it left of 15 without rotating. */
  lemma ElevenInsert()
    ensures InsertTree(Node(NewNode(5), 10, NewNode(15), 1), 11)
      == Ok(Node(NewNode(5), 10, Node(NewNode(11), 15, Nil, 1), 2))
  {
    LeafInsert(15, 11);
  }

  /** Inserting 18 next gives 10 at the root, with 5 and 15 (holding 11 and 18) below it. */
  lemma EighteenInsert()
    ensures InsertTree(Node(NewNode(5), 10, Node(NewNode(11), 15, Nil, 1), 2), 18)
      == Ok(MirrorFiveInserted())
  {
    FilledBelowRoot(11, 15, 18);
  }

  /** Below the root, 20 goes right of 18, and 15 grows to height 2. */
  lemma TwentyBelowRoot()
    ensures InsertTree(MirrorFiveInserted().right, 20)
      == Ok(Node(NewNode(11), 15, Node(Nil, 18, NewNode(20), 1), 2))
  {
    LeafInsertRight(18, 20);
  }

  /** The root, which now leans two levels right, is rotated left and 15 takes its place. */
  lemma TwentyAtRoot()
    ensures Rebuild(Node(NewNode(5), 10, Node(NewNode(11), 15, Node(Nil, 18, NewNode(20), 1), 2), 2))
      == Node(Node(NewNode(5), 10, NewNode(11), 1), 15, Node(Nil, 18, NewNode(20), 1), 2)
  {
    var n := Node(NewNode(5), 10, Node(NewNode(11), 15, Node(Nil, 18, NewNode(20), 1), 2), 2);
    assert Refresh(n) == n.(height := 3);
    assert GetBalanceFactor(n.(height := 3)) == -2;
  }

  /** Inserting 20 last gives root 15, with 10 (holding 5 and 11) to its left and 18 (holding
      20) to its right. */
  lemma MirrorSixthInsert()
    ensures InsertTree(MirrorFiveInserted(), 20)
      == Ok(Node(Node(NewNode(5), 10, NewNode(11), 1), 15, Node(Nil, 18, NewNode(20), 1), 2))
  {
    TwentyBelowRoot();
    TwentyAtRoot();
  }

  /** On a new tree: 10 is not found, so removing it fails; inserting it succeeds, and
      inserting it again fails as a duplicate and leaves one element. */
  method ErrorScenario() returns (found: bool, errs: seq<Status>, size: int)
    ensures !found && size == 1
    ensures errs == [Fail(NotFoundError), Done, Fail(DuplicateError)]
  {
    var b := new AVLTree();
    found := b.Contains(10);
    var e1 := b.Remove(10);
    var e2 := b.Insert(10);
    var e3 := b.Insert(10);
    errs, size := [e1, e2, e3], b.size;
  }
}
