/** The doubly linked list of ds/list.go, over integer elements. The ghost sequence `nodes` lists
    the nodes from head to tail and `contents` their elements; `Valid` ties both to the `prev` and
    `next` links, the `head`/`tail` fields and `len`. */
module DoublyLinkedList {
  import opened Outcome
  import opened Sequences

  const EmptyListError := "attempted to remove from an empty list"
  const NotFoundError := "cannot find element"

  class ListNode {
    var elem: int
    var prev: ListNode?
    var next: ListNode?

    /** `newListNode`: an unlinked node. */
    constructor (elem: int)
      ensures this.elem == elem && prev == null && next == null
    {
      this.elem := elem;
      prev := null;
      next := null;
    }
  }

  class List {
    var head: ListNode?
    var tail: ListNode?
    var len: int
    ghost var nodes: seq<ListNode>
    ghost var contents: seq<int>
    ghost var Repr: set<object>

    /** Every link is right except possibly the head's `prev`. */
    ghost predicate Shape()
      reads this, Repr
    {
      && this in Repr
      && (forall i :: 0 <= i < |nodes| ==> nodes[i] in Repr)
      && |contents| == |nodes| == len
      && (forall i, j :: 0 <= i < j < |nodes| ==> nodes[i] != nodes[j])
      && (forall i :: 0 <= i < |nodes| ==> nodes[i].elem == contents[i])
      && (forall i {:trigger nodes[i].next} :: 0 <= i < |nodes| ==>
            nodes[i].next == if i + 1 < |nodes| then nodes[i + 1] else null)
      && (forall i {:trigger nodes[i].prev} :: 0 < i < |nodes| ==> nodes[i].prev == nodes[i - 1])
      && head == (if nodes == [] then null else nodes[0])
      && tail == (if nodes == [] then null else nodes[|nodes| - 1])
    }

    /** A well-formed list: every link is right, and in particular `Head.Prev` is nil. */
    ghost predicate Valid()
      reads this, Repr
    {
      Shape() && (nodes != [] ==> nodes[0].prev == null)
    }

    /** `NewList`: the empty list. */
    constructor ()
      ensures Valid() && fresh(Repr)
      ensures contents == [] && head == null && tail == null
    {
      head := null;
      tail := null;
      len := 0;
      nodes := [];
      contents := [];
      Repr := {this};
    }

    /** `Len`: the number of elements. */
    function Len(): (n: int)
      reads this, Repr
      requires Valid()
      ensures n == |contents|
    {
      len
    }

    /** `AddHead`: the element becomes the first one. */
    method AddHead(elem: int)
      requires Valid()
      modifies Repr
      ensures Valid() && fresh(Repr - old(Repr))
      ensures contents == [elem] + old(contents)
      ensures |contents| == 1 ==> tail == head
    {
      var node := new ListNode(elem);
      if len < 1 {
        head := node;
      } else {
        node.next := head;
        head.prev := node;
        head := node;
      }
      len := len + 1;
      if len < 2 {
        tail := head;
      }
      nodes := [node] + nodes;
      contents := [elem] + contents;
      Repr := Repr + {node};
    }

    /** `AddTail`: the element becomes the last one. */
    method AddTail(elem: int)
      requires Valid()
      modifies Repr
      ensures Valid() && fresh(Repr - old(Repr))
      ensures contents == old(contents) + [elem]
      ensures |contents| == 1 ==> head == tail
    {
      var node := new ListNode(elem);
      ghost var last := |nodes|;
      nodes, contents, Repr := nodes + [node], contents + [elem], Repr + {node};
      if len < 1 {
        tail := node;
      } else {
        node.prev := tail;
        tail.next := node;
        tail := node;
        assert nodes[last - 1].next == node && nodes[last].prev == nodes[last - 1];
      }
      len := len + 1;
      if len < 2 {
        head := tail;
      }
    }

    /** `RemoveHead`: the first element, taken out of the list; an error on an empty list. */
    method RemoveHead() returns (r: Result<int>)
      requires Valid()
      modifies Repr
      ensures Valid() && Repr == old(Repr)
      ensures old(contents) == [] ==> r == Err(EmptyListError) && contents == []
      ensures old(contents) != [] ==> r == Ok(old(contents)[0]) && contents == old(contents)[1..]
      ensures contents == [] ==> head == null && tail == null
    {
      var node := head;
      if node == null {
        return Err(EmptyListError);
      }
      var elem := node.elem;
      if node.next == null {
        head := null;
        tail := null;
      } else {
        node.next.prev := null;
        head := node.next;
        node.next := null;
      }
      len := len - 1;
      nodes := nodes[1..];
      contents := contents[1..];
      r := Ok(elem);
    }

    /** `RemoveTail`: the last element, taken out of the list; an error on an empty list. */
    method RemoveTail() returns (r: Result<int>)
      requires Valid()
      modifies Repr
      ensures Valid() && Repr == old(Repr)
      ensures old(contents) == [] ==> r == Err(EmptyListError) && contents == []
      ensures old(contents) != [] ==>
        r == Ok(old(contents)[|old(contents)| - 1]) && contents == old(contents)[..|old(contents)| - 1]
      ensures contents == [] ==> head == null && tail == null
    {
      var node := tail;
      if node == null {
        return Err(EmptyListError);
      }
      var elem := node.elem;
      if node.prev == null {
        head := null;
        tail := null;
      } else {
        node.prev.next := null;
        tail := node.prev;
        node.prev := null;
      }
      len := len - 1;
      nodes := nodes[..|nodes| - 1];
      contents := contents[..|contents| - 1];
      r := Ok(elem);
    }

    /** The branch of `Remove` for the only node of the list. */
    method UnlinkOnly(node: ListNode)
      requires Valid() && nodes == [node]
      modifies Repr
      ensures Valid() && Repr == old(Repr) && nodes == [] && contents == []
    {
      head := null;
      tail := null;
      len := len - 1;
      nodes := [];
      contents := [];
    }

    /** The branch of `Remove` for the head of a longer list. */
    method UnlinkHead(node: ListNode)
      requires Valid() && |nodes| > 1 && nodes[0] == node
      modifies Repr
      ensures Valid() && Repr == old(Repr)
      ensures nodes == old(nodes[1..]) && contents == old(contents[1..])
    {
      head := node.next;
      node.next.prev := null;
      node.next := null;
      node.prev := null;
      len := len - 1;
      nodes := nodes[1..];
      contents := contents[1..];
    }

    /** The branch of `Remove` for the tail of a longer list. */
    method UnlinkTail(node: ListNode)
      requires Valid() && |nodes| > 1 && nodes[|nodes| - 1] == node
      modifies Repr
      ensures Valid() && Repr == old(Repr)
      ensures nodes == old(nodes[..|nodes| - 1]) && contents == old(contents[..|contents| - 1])
    {
      tail := node.prev;
      tail.next := null;
      node.next := null;
      node.prev := null;
      len := len - 1;
      nodes := nodes[..|nodes| - 1];
      contents := contents[..|contents| - 1];
    }

    /** The branch of `Remove` for a node with neighbours on both sides: they are linked to each
        other, skipping it. */
    method UnlinkMiddle(node: ListNode, ghost i: nat)
      requires Valid() && 0 < i < |nodes| - 1 && nodes[i] == node
      modifies Repr
      ensures Valid() && Repr == old(Repr)
      ensures nodes == old(nodes[..i] + nodes[i + 1..])
      ensures contents == old(contents[..i] + contents[i + 1..])
    {
      node.prev.next := node.next;
      node.next.prev := node.prev;
      node.next := null;
      node.prev := null;
      len := len - 1;
      nodes := nodes[..i] + nodes[i + 1..];
      contents := contents[..i] + contents[i + 1..];
    }

    /** The four branches of `Remove` that take the node at index i out of the list, told apart by
        which of its neighbours are nil. */
    method Unlink(node: ListNode, ghost i: nat)
      requires Valid() && i < |nodes| && nodes[i] == node
      modifies Repr
      ensures Valid() && Repr == old(Repr)
      ensures nodes == old(nodes[..i] + nodes[i + 1..])
      ensures contents == old(contents[..i] + contents[i + 1..])
    {
      if node.prev == null && node.next == null {
        UnlinkOnly(node);
      } else if node.prev == null {
        UnlinkHead(node);
      } else if node.next == null {
        UnlinkTail(node);
      } else {
        UnlinkMiddle(node, i);
      }
    }

    /** `Remove`: walks from the head and unlinks the first node holding `elem`; an error when
        there is none, and then nothing changes. */
    method Remove(elem: int) returns (r: Result<int>)
      requires Valid()
      modifies Repr
      ensures Valid() && Repr == old(Repr)
      ensures contents == RemoveFirst(old(contents), elem)
      ensures r == if elem in old(contents) then Ok(elem) else Err(NotFoundError)
    {
      var node := head;
      ghost var i := 0;
      while node != null
        invariant Valid() && Repr == old(Repr) && contents == old(contents)
        invariant 0 <= i <= |nodes|
        invariant node == if i < |nodes| then nodes[i] else null
        invariant elem !in contents[..i]
        decreases |nodes| - i
      {
        if node.elem == elem {
          RemoveFirstAt(contents, elem, i);
          Unlink(node, i);
          return Ok(elem);
        }
        assert contents[..i + 1] == contents[..i] + [contents[i]];
        node := node.next;
        i := i + 1;
      }
      assert contents[..i] == contents;
      RemoveFirstAbsent(contents, elem);
      return Err(NotFoundError);
    }

    /** `Contains`: whether some node holds `elem`. */
    method Contains(elem: int) returns (found: bool)
      requires Valid()
      ensures found <==> elem in contents
    {
      var node := head;
      ghost var i := 0;
      while node != null
        invariant 0 <= i <= |nodes|
        invariant node == if i < |nodes| then nodes[i] else null
        invariant elem !in contents[..i]
        decreases |nodes| - i
      {
        if node.elem == elem {
          return true;
        }
        assert contents[..i + 1] == contents[..i] + [contents[i]];
        node := node.next;
        i := i + 1;
      }
      assert contents[..i] == contents;
      return false;
    }

    /** The loop of `Reverse`: walks from the head, swapping each node's links. A list of length 1
        is left alone. The last node, which becomes the head, keeps its `Prev`. */
    method SwapLinks()
      requires Valid()
      modifies Repr
      ensures nodes == old(nodes) && contents == old(contents) && Repr == old(Repr) && len == old(len)
      ensures forall j :: 0 <= j < |nodes| ==> nodes[j].elem == contents[j]
      ensures forall j {:trigger nodes[j].next} :: 0 <= j < |nodes| ==>
        nodes[j].next == if j > 0 then nodes[j - 1] else null
      ensures forall j {:trigger nodes[j].prev} :: 0 <= j < |nodes| ==>
        nodes[j].prev == if j + 1 < |nodes| then nodes[j + 1] else if j > 0 then nodes[j - 1] else null
      ensures head == (if nodes == [] then null else nodes[|nodes| - 1])
      ensures tail == (if nodes == [] then null else nodes[0])
    {
      ghost var ns := nodes;
      ghost var k := |nodes|;
      var node := head;
      ghost var i := 0;
      while node != null
        invariant nodes == ns && contents == old(contents) && Repr == old(Repr) && len == k
        invariant forall j :: 0 <= j < k ==> ns[j].elem == contents[j]
        invariant 0 <= i <= k
        invariant node == if i < k then ns[i] else null
        invariant forall j {:trigger ns[j].next} :: i <= j < k ==> ns[j].next == if j + 1 < k then ns[j + 1] else null
        invariant forall j {:trigger ns[j].prev} :: i <= j < k ==> ns[j].prev == if j > 0 then ns[j - 1] else null
        invariant forall j {:trigger ns[j].next} :: 0 <= j < i ==> ns[j].next == if j > 0 then ns[j - 1] else null
        invariant forall j {:trigger ns[j].prev} :: 0 <= j < i ==>
          ns[j].prev == if j + 1 < k then ns[j + 1] else if j > 0 then ns[j - 1] else null
        invariant i > 0 ==> tail == ns[0]
        invariant i < k ==> head == ns[0]
        invariant i == k && k > 0 ==> head == ns[k - 1]
        invariant i == 0 ==> head == old(head) && tail == old(tail)
        decreases k - i
      {
        var next := node.next;
        if node.prev == null && node.next == null {
          return;
        }
        if node.prev == null {
          tail := node;
          node.next := null;
        } else {
          node.next := node.prev;
        }
        if next == null {
          head := node;
        } else {
          node.prev := next;
        }
        node := next;
        i := i + 1;
      }
    }

    /** `Reverse` as written: the forward order is reversed, the old head becomes the tail and
        every link is right except that the new head's `Prev` is never cleared: it still points at
        its old predecessor, which is now the second node. */
    method Reverse()
      requires Valid()
      modifies Repr
      ensures Shape() && Repr == old(Repr)
      ensures nodes == Rev(old(nodes)) && contents == Rev(old(contents))
      ensures old(nodes) != [] ==> tail == old(head)
      ensures |nodes| >= 2 ==> head.prev == nodes[1]
      ensures |nodes| < 2 ==> Valid()
    {
      SwapLinks();
      nodes := Rev(nodes);
      contents := Rev(contents);
    }

    /** `Reverse` with the new head's `Prev` cleared as well, which keeps the list well formed. */
    method ReverseFixed()
      requires Valid()
      modifies Repr
      ensures Valid() && Repr == old(Repr)
      ensures contents == Rev(old(contents))
      ensures old(nodes) != [] ==> tail == old(head)
    {
      Reverse();
      if head != null {
        head.prev := null;
      }
    }
  }
}
