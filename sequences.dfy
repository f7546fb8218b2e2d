/** Sequence functions that specify the linked lists: what reversing and removing an element do
    to the sequence of elements read from head to tail. */
module Sequences {

  /** s back to front. */
  function Rev<T>(s: seq<T>): (r: seq<T>)
    ensures |r| == |s|
    ensures forall m :: 0 <= m < |s| ==> r[m] == s[|s| - 1 - m]
  {
    if s == [] then [] else Rev(s[1..]) + [s[0]]
  }

  /** Reversing twice gives back the original. */
  lemma RevRev<T>(s: seq<T>)
    ensures Rev(Rev(s)) == s
  {
    assert forall m :: 0 <= m < |s| ==> Rev(Rev(s))[m] == s[m];
  }

  /** Reversing keeps every element. */
  lemma {:induction false} RevValues<T>(s: seq<T>)
    ensures multiset(Rev(s)) == multiset(s)
  {
    if s != [] {
      RevValues(s[1..]);
      assert s == [s[0]] + s[1..];
    }
  }

  /** s without its first occurrence of x (s itself when x does not occur): one element shorter
      exactly when x occurs. */
  function RemoveFirst(s: seq<int>, x: int): (r: seq<int>)
    ensures |r| == if x in s then |s| - 1 else |s|
  {
    if s == [] then []
    else if s[0] == x then s[1..]
    else [s[0]] + RemoveFirst(s[1..], x)
  }

  /** Removing takes away exactly one copy of x when there is one, and nothing else. */
  lemma {:induction false} RemoveFirstValues(s: seq<int>, x: int)
    ensures multiset(RemoveFirst(s, x)) == multiset(s) - multiset{x}
    ensures |RemoveFirst(s, x)| == if x in s then |s| - 1 else |s|
  {
    if s != [] {
      assert s == [s[0]] + s[1..];
      if s[0] != x {
        RemoveFirstValues(s[1..], x);
      }
    }
  }

  /** When x does not occur, nothing is removed. */
  lemma {:induction false} RemoveFirstAbsent(s: seq<int>, x: int)
    requires x !in s
    ensures RemoveFirst(s, x) == s
  {
    if s != [] {
      RemoveFirstAbsent(s[1..], x);
      assert s == [s[0]] + s[1..];
    }
  }

  /** When the first x sits at index i, removing it cuts s at i. */
  lemma {:induction false} RemoveFirstAt(s: seq<int>, x: int, i: nat)
    requires i < |s| && s[i] == x && x !in s[..i]
    ensures RemoveFirst(s, x) == s[..i] + s[i + 1..]
  {
    if i > 0 {
      assert s[1..][..i - 1] == s[1..i];
      assert s[0] in s[..i];
      RemoveFirstAt(s[1..], x, i - 1);
      assert s[..i] == [s[0]] + s[1..][..i - 1];
    }
  }
}
