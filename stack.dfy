/** The LIFO stack of ds/stack.go: a thin layer over the doubly linked list, which it owns.
    Elements are pushed at and popped from the head. */
module Stacks {
  import opened Outcome
  import opened DoublyLinkedList

  class Stack {
    var l: List
    ghost var Repr: set<object>

    ghost predicate Valid()
      reads this, Repr
    {
      this in Repr && l in Repr && l.Repr <= Repr && this !in l.Repr && l.Valid()
    }

    /** The elements from the top of the stack down. */
    ghost function Elements(): seq<int>
      reads this, l
    {
      l.contents
    }

    /** `NewStack`: the empty stack. */
    constructor ()
      ensures Valid() && fresh(Repr) && Elements() == []
    {
      l := new List();
      new;
      Repr := {this} + l.Repr;
    }

    /** `Height`: the number of stacked elements. */
    function Height(): (n: int)
      reads this, Repr
      requires Valid()
      ensures n == |Elements()|
    {
      l.Len()
    }

    /** `Push`: the element goes on top. */
    method Push(elem: int)
      requires Valid()
      modifies Repr
      ensures Valid() && fresh(Repr - old(Repr))
      ensures Elements() == [elem] + old(Elements())
    {
      l.AddHead(elem);
      Repr := Repr + l.Repr;
    }

    /** `Pop`: the top element leaves the stack; an error when it is empty. */
    method Pop() returns (r: Result<int>)
      requires Valid()
      modifies Repr
      ensures Valid() && Repr == old(Repr)
      ensures old(Elements()) == [] ==> r == Err(EmptyListError) && Elements() == []
      ensures old(Elements()) != [] ==> r == Ok(old(Elements())[0]) && Elements() == old(Elements())[1..]
    {
      r := l.RemoveHead();
    }
  }

  /** Last in, first out: after pushing a then b on a new stack, b comes off first, then a, then
      the stack is empty and reports an error. */
  method LastInFirstOut(a: int, b: int) returns (first: Result<int>, second: Result<int>, third: Result<int>)
    ensures first == Ok(b) && second == Ok(a) && third == Err(EmptyListError)
  {
    var s := new Stack();
    s.Push(a);
    s.Push(b);
    first := s.Pop();
    second := s.Pop();
    third := s.Pop();
  }
}
