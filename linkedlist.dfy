/** The singly linked list of ds/linkedlist.go. The ghost sequence `nodes` lists the nodes from the
    head on and `contents` their elements; `Valid` ties both to the `next` links, `head` and `size`. */
module SinglyLinkedList {
  import opened Outcome
  import opened Sequences

  const NotFoundError := "the specified element does not exist in the list"

  class LinkedListNode {
    var elem: int
    var next: LinkedListNode?

    /** `newLinkedListNode`: an unlinked node. */
    constructor (elem: int)
      ensures this.elem == elem && next == null
    {
      this.elem := elem;
      next := null;
    }
  }

  class LinkedList {
    var head: LinkedListNode?
    var size: int
    ghost var nodes: seq<LinkedListNode>
    ghost var contents: seq<int>
    ghost var Repr: set<object>

    /** The nodes are distinct, owned by the list and hold `contents`; `size` counts them. */
    ghost predicate Cells()
      reads this, Repr
    {
      && this in Repr
      && (forall i :: 0 <= i < |nodes| ==> nodes[i] in Repr)
      && |contents| == |nodes| == size
      && (forall i, j :: 0 <= i < j < |nodes| ==> nodes[i] != nodes[j])
      && (forall i :: 0 <= i < |nodes| ==> nodes[i].elem == contents[i])
    }

    ghost predicate Valid()
      reads this, Repr
    {
      && Cells()
      && (forall i {:trigger nodes[i].next} :: 0 <= i < |nodes| ==>
            nodes[i].next == if i + 1 < |nodes| then nodes[i + 1] else null)
      && head == (if nodes == [] then null else nodes[0])
    }

    /** After the links are turned around: every node points back at its predecessor, and the
        last node is the head. */
    ghost predicate LinksReversed()
      reads this, Repr
    {
      && Cells()
      && (forall i {:trigger nodes[i].next} :: 0 <= i < |nodes| ==>
            nodes[i].next == if i > 0 then nodes[i - 1] else null)
      && head == (if nodes == [] then null else nodes[|nodes| - 1])
    }

    /** `NewLinkedList`: the empty list. */
    constructor ()
      ensures Valid() && fresh(Repr)
      ensures contents == [] && head == null
    {
      head := null;
      size := 0;
      nodes := [];
      contents := [];
      Repr := {this};
    }

    /** `Size`: the number of elements. */
    function Size(): (n: int)
      reads this, Repr
      requires Valid()
      ensures n == |contents|
    {
      size
    }

    /** `Add`: the element becomes the first one. */
    method Add(elem: int)
      requires Valid()
      modifies Repr
      ensures Valid() && fresh(Repr - old(Repr))
      ensures contents == [elem] + old(contents)
    {
      var node := new LinkedListNode(elem);
      node.next := head;
      head := node;
      size := size + 1;
      nodes := [node] + nodes;
      contents := [elem] + contents;
      Repr := Repr + {node};
    }

    /** The found branch of `Remove`: unlink nodes[i], whose predecessor is `prevNode`. */
    method Unlink(prevNode: LinkedListNode?, node: LinkedListNode, ghost i: nat)
      requires Valid() && i < |nodes| && nodes[i] == node
      requires prevNode == if i == 0 then null else nodes[i - 1]
      modifies Repr
      ensures Valid() && Repr == old(Repr)
      ensures nodes == old(nodes[..i] + nodes[i + 1..])
      ensures contents == old(contents[..i] + contents[i + 1..])
    {
      if prevNode == null {
        head := head.next;
      } else {
        prevNode.next := node.next;
      }
      size := size - 1;
      nodes := nodes[..i] + nodes[i + 1..];
      contents := contents[..i] + contents[i + 1..];
    }

    /** `Remove`: unlinks the first node holding `elem` and returns it; an error, and no change,
        when there is none. */
    method Remove(elem: int) returns (r: Result<int>)
      requires Valid()
      modifies Repr
      ensures Valid() && Repr == old(Repr)
      ensures contents == RemoveFirst(old(contents), elem)
      ensures r == if elem in old(contents) then Ok(elem) else Err(NotFoundError)
    {
      var node := head;
      var prevNode: LinkedListNode? := null;
      ghost var i := 0;
      while node != null
        invariant Valid() && Repr == old(Repr) && contents == old(contents)
        invariant 0 <= i <= |nodes|
        invariant node == if i < |nodes| then nodes[i] else null
        invariant prevNode == if i == 0 then null else nodes[i - 1]
        invariant elem !in contents[..i]
        decreases |nodes| - i
      {
        if node.elem == elem {
          RemoveFirstAt(contents, elem, i);
          Unlink(prevNode, node, i);
          return Ok(elem);
        }
        assert contents[..i + 1] == contents[..i] + [contents[i]];
        prevNode := node;
        node := node.next;
        i := i + 1;
      }
      assert contents[..i] == contents;
      RemoveFirstAbsent(contents, elem);
      return Err(NotFoundError);
    }

    /** The loop of `Reverse`: each node in turn is pointed back at the one before it and becomes
        the head. */
    method ReverseLinks()
      requires Valid()
      modifies Repr
      ensures LinksReversed()
      ensures nodes == old(nodes) && contents == old(contents) && Repr == old(Repr)
    {
      ghost var ns := nodes;
      ghost var k := |nodes|;
      var node := head;
      var prevNode: LinkedListNode? := null;
      ghost var i := 0;
      while node != null
        invariant Cells() && nodes == ns && contents == old(contents) && Repr == old(Repr)
        invariant 0 <= i <= k
        invariant node == if i < k then ns[i] else null
        invariant prevNode == if i == 0 then null else ns[i - 1]
        invariant forall j {:trigger ns[j].next} :: i <= j < k ==> ns[j].next == if j + 1 < k then ns[j + 1] else null
        invariant forall j {:trigger ns[j].next} :: 0 <= j < i ==> ns[j].next == if j > 0 then ns[j - 1] else null
        invariant head == if i == 0 then old(head) else ns[i - 1]
        decreases k - i
      {
        var tmp := node.next;
        node.next := prevNode;
        head := node;
        prevNode := node;
        node := tmp;
        i := i + 1;
      }
    }

    /** `Reverse`: the elements in reverse order, in the same nodes. */
    method Reverse()
      requires Valid()
      modifies Repr
      ensures Valid() && Repr == old(Repr)
      ensures contents == Rev(old(contents)) && size == old(size)
    {
      ReverseLinks();
      nodes := Rev(nodes);
      contents := Rev(contents);
    }

    /** `reverseRecursive` on nodes[i]: the nodes after it are reversed first, then the link
        from nodes[i+1] is turned back to nodes[i]. The last node becomes the head. */
    method ReverseFrom(node: LinkedListNode, ghost i: nat)
      requires Cells() && i < |nodes| && nodes[i] == node
      requires forall j {:trigger nodes[j].next} :: i <= j < |nodes| ==>
        nodes[j].next == if j + 1 < |nodes| then nodes[j + 1] else null
      modifies Repr
      ensures Cells() && nodes == old(nodes) && contents == old(contents) && Repr == old(Repr)
      ensures forall j {:trigger nodes[j].next} :: i < j < |nodes| ==> nodes[j].next == nodes[j - 1]
      ensures node.next == null
      ensures forall j {:trigger nodes[j].next} :: 0 <= j < i ==> nodes[j].next == old(nodes[j].next)
      ensures head == nodes[|nodes| - 1]
      decreases |nodes| - i
    {
      if node.next == null {
        head := node;
        return;
      }
      ReverseFrom(node.next, i + 1);
      node.next.next := node;
      node.next := null;
    }

    /** `ReverseRecursive`: the same result as `Reverse`. The Go code dereferences the head
        without a check, so the list must not be empty. */
    method ReverseRecursive()
      requires Valid() && head != null
      modifies Repr
      ensures Valid() && Repr == old(Repr)
      ensures contents == Rev(old(contents)) && size == old(size)
    {
      ReverseFrom(head, 0);
      nodes := Rev(nodes);
      contents := Rev(contents);
    }
  }
}
