/** Bubble sort of sort/bubble.go. `InPlaceBubble` sorts the slice it is given; `Bubble` runs the
    same passes on a fresh copy and leaves its argument alone. */
module Bubble {
  import opened SortSpec

  /** Every value in s[..m] is at most every value in s[m..], and s[m..] is sorted: after k passes
      this holds for m = n - k, the largest k values having bubbled to the end. */
  ghost predicate SuffixPlaced(s: seq<int>, m: int)
    requires 0 <= m <= |s|
  {
    (forall a, b :: 0 <= a < m <= b < |s| ==> s[a] <= s[b]) &&
    (forall a, b :: m <= a < b < |s| ==> s[a] <= s[b])
  }

  /** s[j] is the largest of s[..j+1]. */
  ghost predicate MaxAt(s: seq<int>, j: int)
    requires 0 <= j < |s|
  {
    forall k :: 0 <= k <= j ==> s[k] <= s[j]
  }

  /** Swapping neighbours inside the unplaced prefix keeps the placed suffix placed. */
  lemma SwapKeepsPlaced(s: seq<int>, i: nat, m: nat)
    requires i + 1 < m <= |s| && SuffixPlaced(s, m)
    ensures SuffixPlaced(s[i := s[i + 1]][i + 1 := s[i]], m)
  {
  }

  /** After comparing (and perhaps swapping) s[i] and s[i+1], the larger sits at i+1. */
  lemma StepKeepsMax(s: seq<int>, t: seq<int>, i: nat)
    requires i + 1 < |s| && MaxAt(s, i)
    requires t == (if s[i] > s[i + 1] then s[i := s[i + 1]][i + 1 := s[i]] else s)
    ensures MaxAt(t, i + 1)
  {
  }

  /** Swapping two neighbours keeps the same values. */
  lemma SwapKeepsValues(s: seq<int>, i: nat)
    requires i + 1 < |s|
    ensures multiset(s[i := s[i + 1]][i + 1 := s[i]]) == multiset(s)
  {
  }

  /** Once the largest unplaced value sits at m-1, the placed suffix grows by one. */
  lemma ExtendPlaced(s: seq<int>, m: nat)
    requires 0 < m <= |s| && SuffixPlaced(s, m) && MaxAt(s, m - 1)
    ensures SuffixPlaced(s, m - 1)
  {
  }

  /** A pass cannot swap across or inside the placed suffix. */
  lemma NoSwapInPlaced(s: seq<int>, i: nat, m: nat)
    requires i + 1 < |s| && m <= |s| && SuffixPlaced(s, m)
    requires i + 1 >= m
    requires m > 0 && i + 1 == m ==> MaxAt(s, i)
    ensures s[i] <= s[i + 1]
  {
  }

  /** Comparing s[i] with s[i+1] and swapping them when out of order. */
  function Step(s: seq<int>, i: nat): (t: seq<int>)
    requires i + 1 < |s|
    ensures |t| == |s|
  {
    if s[i] > s[i + 1] then s[i := s[i + 1]][i + 1 := s[i]] else s
  }

  /** What holds after a pass has compared the pairs up to index i, starting from `orig`. */
  ghost predicate PassInv(orig: seq<int>, cur: seq<int>, i: nat, m: nat, swapped: bool) {
    && |cur| == |orig| && i < |cur| && m <= |cur|
    && multiset(cur) == multiset(orig)
    && SuffixPlaced(cur, m)
    && (i < m ==> MaxAt(cur, i))
    && (i >= m > 0 ==> MaxAt(cur, m - 1))
    && (!swapped ==> cur == orig && forall k :: 0 < k <= i ==> orig[k - 1] <= orig[k])
    && (swapped ==> m >= 2)
  }

  /** One comparison keeps the pass invariant. */
  lemma PassInvStep(orig: seq<int>, cur: seq<int>, i: nat, m: nat, swapped: bool)
    requires PassInv(orig, cur, i, m, swapped) && i + 1 < |cur|
    ensures PassInv(orig, Step(cur, i), i + 1, m, swapped || cur[i] > cur[i + 1])
  {
    if cur[i] > cur[i + 1] {
      if i + 1 >= m {
        NoSwapInPlaced(cur, i, m);
      }
      SwapKeepsPlaced(cur, i, m);
      SwapKeepsValues(cur, i);
    }
    if i + 1 < m {
      StepKeepsMax(cur, Step(cur, i), i);
    }
  }

  /** One pass: swap each out-of-order neighbouring pair, left to right. `swapped` is whether any
      swap happened. If nothing moved, the list was sorted; otherwise one more value is placed. */
  method Pass(list: array<int>, ghost m: nat) returns (swapped: bool)
    requires m <= list.Length && SuffixPlaced(list[..], m)
    modifies list
    ensures multiset(list[..]) == old(multiset(list[..]))
    ensures !swapped ==> list[..] == old(list[..]) && AdjacentSorted(list[..])
    ensures swapped ==> m >= 2
    ensures m > 0 ==> SuffixPlaced(list[..], m - 1)
  {
    var n := list.Length;
    swapped := false;
    if n == 0 {
      return;
    }
    ghost var orig := list[..];
    var i := 0;
    while i < n - 1
      invariant i <= n - 1
      invariant PassInv(orig, list[..], i, m, swapped)
    {
      ghost var cur := list[..];
      PassInvStep(orig, cur, i, m, swapped);
      if list[i] > list[i + 1] {
        list[i], list[i + 1] := list[i + 1], list[i];
        swapped := true;
      }
      assert list[..] == Step(cur, i);
      i := i + 1;
    }
    if m > 0 {
      ExtendPlaced(list[..], m);
    }
  }

  /** `InPlaceBubble`: repeat passes until one makes no swap; the same slice is returned. */
  method InPlaceBubble(list: array<int>) returns (r: array<int>)
    modifies list
    ensures r == list
    ensures Sorted(list[..])
    ensures multiset(list[..]) == old(multiset(list[..]))
  {
    var swap := true;
    ghost var m: nat := list.Length;
    while swap
      invariant m <= list.Length && SuffixPlaced(list[..], m)
      invariant multiset(list[..]) == old(multiset(list[..]))
      invariant !swap ==> AdjacentSorted(list[..])
      decreases if swap then m + 1 else 0
    {
      swap := Pass(list, m);
      m := if m > 0 then m - 1 else 0;
    }
    AdjacentSortedIsSorted(list[..]);
    r := list;
  }

  /** `Bubble`: sorts a copy; the argument is only read. */
  method Bubble(list: array<int>) returns (cpy: array<int>)
    ensures fresh(cpy)
    ensures Sorted(cpy[..])
    ensures multiset(cpy[..]) == multiset(list[..])
  {
    cpy := new int[list.Length](i requires 0 <= i < list.Length reads list => list[i]);
    assert cpy[..] == list[..];
    cpy := InPlaceBubble(cpy);
  }
}
