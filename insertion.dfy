/** Insertion sort of sort/insertion.go. `InPlaceInsertion` sorts the slice it is given;
    `Insertion` sorts a fresh copy and leaves its argument alone. */
module Insertion {
  import opened SortSpec

  /** While the value that started at index i sinks to index j: s[..i+1] is sorted except that
      s[j] may be smaller than what lies before it, and s[j] is at most everything after it. */
  ghost predicate Sinking(s: seq<int>, i: nat, j: nat) {
    && j <= i < |s|
    && (forall a, b :: 0 <= a < b <= i && a != j && b != j ==> s[a] <= s[b])
    && (forall b :: j < b <= i ==> s[j] <= s[b])
  }

  /** Swapping s[j-1] > s[j] moves the sinking value one place left. */
  lemma SinkStep(s: seq<int>, i: nat, j: nat)
    requires Sinking(s, i, j) && 0 < j && s[j - 1] > s[j]
    ensures Sinking(s[j - 1 := s[j]][j := s[j - 1]], i, j - 1)
    ensures multiset(s[j - 1 := s[j]][j := s[j - 1]]) == multiset(s)
  {
  }

  /** Once the sinking value meets a smaller-or-equal neighbour (or the front), s[..i+1] is sorted. */
  lemma SinkDone(s: seq<int>, i: nat, j: nat)
    requires Sinking(s, i, j) && (j == 0 || s[j - 1] <= s[j])
    ensures Sorted(s[..i + 1])
  {
    forall a, b | 0 <= a < b <= i ensures s[a] <= s[b] {
      if a == j || b == j {
        if b == j && a < j - 1 {
          assert s[a] <= s[j - 1];
        }
      }
    }
  }

  /** The loop body of the outer loop: sink list[i] into the sorted prefix list[..i]. */
  method Sink(list: array<int>, i: nat)
    requires i < list.Length && Sorted(list[..i])
    modifies list
    ensures Sorted(list[..i + 1])
    ensures multiset(list[..]) == old(multiset(list[..]))
    ensures list[i + 1..] == old(list[i + 1..])
  {
    var j: nat := i;
    while j > 0 && list[j - 1] > list[j]
      invariant Sinking(list[..], i, j)
      invariant multiset(list[..]) == old(multiset(list[..]))
      invariant list[i + 1..] == old(list[i + 1..])
    {
      ghost var s := list[..];
      SinkStep(s, i, j);
      list[j - 1], list[j] := list[j], list[j - 1];
      assert list[..] == s[j - 1 := s[j]][j := s[j - 1]];
      j := j - 1;
    }
    SinkDone(list[..], i, j);
  }

  /** `InPlaceInsertion`: after step i the prefix list[..i+1] is sorted; the same slice is returned. */
  method InPlaceInsertion(list: array<int>) returns (r: array<int>)
    modifies list
    ensures r == list
    ensures Sorted(list[..])
    ensures multiset(list[..]) == old(multiset(list[..]))
  {
    var i := 1;
    while i < list.Length
      invariant 1 <= i && (i <= list.Length || list.Length == 0)
      invariant list.Length > 0 ==> Sorted(list[..i])
      invariant multiset(list[..]) == old(multiset(list[..]))
    {
      Sink(list, i);
      i := i + 1;
    }
    assert list.Length > 0 ==> list[..i] == list[..];
    r := list;
  }

  /** `Insertion`: sorts a copy; the argument is only read. */
  method Insertion(list: array<int>) returns (cpy: array<int>)
    ensures fresh(cpy)
    ensures Sorted(cpy[..])
    ensures multiset(cpy[..]) == multiset(list[..])
  {
    cpy := new int[list.Length](i requires 0 <= i < list.Length reads list => list[i]);
    assert cpy[..] == list[..];
    cpy := InPlaceInsertion(cpy);
  }
}
