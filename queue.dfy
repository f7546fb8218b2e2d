/** The FIFO queue of ds/queue.go: a thin layer over the doubly linked list, which it owns.
    Elements enter at the tail and leave from the head. */
module Queues {
  import opened Outcome
  import opened DoublyLinkedList

  class Queue {
    var l: List
    ghost var Repr: set<object>

    ghost predicate Valid()
      reads this, Repr
    {
      this in Repr && l in Repr && l.Repr <= Repr && this !in l.Repr && l.Valid()
    }

    /** The elements from the front of the queue to its back. */
    ghost function Elements(): seq<int>
      reads this, l
    {
      l.contents
    }

    /** `NewQueue`: the empty queue. */
    constructor ()
      ensures Valid() && fresh(Repr) && Elements() == []
    {
      l := new List();
      new;
      Repr := {this} + l.Repr;
    }

    /** `Depth`: the number of queued elements. */
    function Depth(): (n: int)
      reads this, Repr
      requires Valid()
      ensures n == |Elements()|
    {
      l.Len()
    }

    /** `Enqueue`: the element joins the back of the queue. */
    method Enqueue(elem: int)
      requires Valid()
      modifies Repr
      ensures Valid() && fresh(Repr - old(Repr))
      ensures Elements() == old(Elements()) + [elem]
    {
      l.AddTail(elem);
      Repr := Repr + l.Repr;
    }

    /** `Dequeue`: the element at the front leaves the queue; an error when it is empty. */
    method Dequeue() returns (r: Result<int>)
      requires Valid()
      modifies Repr
      ensures Valid() && Repr == old(Repr)
      ensures old(Elements()) == [] ==> r == Err(EmptyListError) && Elements() == []
      ensures old(Elements()) != [] ==> r == Ok(old(Elements())[0]) && Elements() == old(Elements())[1..]
    {
      r := l.RemoveHead();
    }
  }

  /** First in, first out: after queueing a then b on a new queue, a comes out first, then b,
      then the queue is empty and reports an error. */
  method FirstInFirstOut(a: int, b: int) returns (first: Result<int>, second: Result<int>, third: Result<int>)
    ensures first == Ok(a) && second == Ok(b) && third == Err(EmptyListError)
  {
    var q := new Queue();
    q.Enqueue(a);
    q.Enqueue(b);
    first := q.Dequeue();
    second := q.Dequeue();
    third := q.Dequeue();
  }
}
