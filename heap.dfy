/** The max-heap of ds/heap.go over integers. Elements live in slots 1..size of the buffer `s`
    (slot 0 is unused), the parent of slot i being slot i/2. The buffer starts with 5 slots and
    doubles when a push finds it full. */
module Heap {
  import opened Outcome
  import opened SortSpec

  const EmptyPeekError := "cannot peek an empty heap"
  const EmptyPopError := "cannot pop an empty tree"

  /** `parentIndex`. */
  function ParentIndex(i: int): (p: int)
    requires i >= 1
    ensures 0 <= p < i
  {
    i / 2
  }

  /** `leftChildIndex`: the child whose parent is i. */
  function LeftChildIndex(i: int): (c: int)
    requires i >= 1
    ensures c > i && ParentIndex(c) == i
  {
    i * 2
  }

  /** `rightChildIndex`: the slot after the left child, also a child of i. */
  function RightChildIndex(i: int): (c: int)
    requires i >= 1
    ensures c == LeftChildIndex(i) + 1 && ParentIndex(c) == i
  {
    (i * 2) + 1
  }

  /** The children of c are exactly the slots whose parent is c. */
  lemma ChildrenOf(c: int, i: int)
    requires c >= 1 && i >= 1
    ensures ParentIndex(i) == c <==> i == LeftChildIndex(c) || i == RightChildIndex(c)
  {
  }

  /** The max-heap property over slots 1..n: no value exceeds its parent's. */
  ghost predicate HeapOrdered(a: seq<int>, n: int)
    requires n < |a|
  {
    forall i :: 2 <= i <= n ==> a[ParentIndex(i)] >= a[i]
  }

  /** Every slot outside 1..n holds the zero value. */
  ghost predicate ZeroOutside(a: seq<int>, n: int) {
    forall i :: 0 <= i < |a| && !(1 <= i <= n) ==> a[i] == 0
  }

  /** Every child of c in slots 1..n is at most v. */
  ghost predicate ChildrenAtMost(a: seq<int>, n: int, c: int, v: int)
    requires n < |a|
  {
    forall i :: 2 <= i <= n && ParentIndex(i) == c ==> a[i] <= v
  }

  /** During percolate-up: the heap property holds except between c and its parent, and c's
      parent is at least c's children. */
  ghost predicate HeapExceptUp(a: seq<int>, n: int, c: int) {
    && 1 <= c <= n < |a|
    && (forall i :: 2 <= i <= n && i != c ==> a[ParentIndex(i)] >= a[i])
    && (c >= 2 ==> ChildrenAtMost(a, n, c, a[ParentIndex(c)]))
  }

  /** During percolate-down: the heap property holds except between c and its children, and c's
      parent is at least c's children. */
  ghost predicate HeapExceptDown(a: seq<int>, n: int, c: int) {
    && 1 <= c < |a| && 0 <= n < |a|
    && (forall i :: 2 <= i <= n && ParentIndex(i) != c ==> a[ParentIndex(i)] >= a[i])
    && (c >= 2 ==> ChildrenAtMost(a, n, c, a[ParentIndex(c)]))
  }

  /** Swapping a value with a smaller parent moves the fault one level up. */
  lemma UpStep(a: seq<int>, n: int, c: int)
    requires HeapExceptUp(a, n, c) && c >= 2 && a[ParentIndex(c)] < a[c]
    ensures HeapExceptUp(Swap(a, ParentIndex(c), c), n, ParentIndex(c))
  {
    var p := ParentIndex(c);
    var b := Swap(a, p, c);
    forall i | 2 <= i <= n && i != p ensures b[ParentIndex(i)] >= b[i] {
      if i == c {
      } else if ParentIndex(i) == c {
        assert b[ParentIndex(i)] == a[p] && b[i] == a[i];
      } else if ParentIndex(i) == p {
        assert b[ParentIndex(i)] == a[c] && b[i] == a[i];
      } else {
        assert b[ParentIndex(i)] == a[ParentIndex(i)] && b[i] == a[i];
      }
    }
    if p >= 2 {
      var g := ParentIndex(p);
      forall i | 2 <= i <= n && ParentIndex(i) == p ensures b[i] <= b[g] {
        assert b[g] == a[g] && a[p] <= a[g];
      }
    }
  }

  /** Percolate-up ends at the root or below a parent at least as large: a heap again. */
  lemma UpDone(a: seq<int>, n: int, c: int)
    requires HeapExceptUp(a, n, c) && (c == 1 || a[ParentIndex(c)] >= a[c])
    ensures HeapOrdered(a, n)
  {
  }

  /** Percolate-up has ended, at the root or below a parent at least as large: what is left is a
      heap holding the values it started with, zero outside. */
  lemma Risen(s1: seq<int>, a: seq<int>, n: int, c: int)
    requires 0 <= n < |s1| && ZeroOutside(s1, n) && SegmentPerm(s1, a, 1, n)
    requires HeapExceptUp(a, n, c) && (c == 1 || a[ParentIndex(c)] >= a[c])
    ensures HeapOrdered(a, n) && ZeroOutside(a, n)
    ensures multiset(a[1..n + 1]) == multiset(s1[1..n + 1])
  {
    UpDone(a, n, c);
    PermKeepsZeros(s1, a, n);
  }

  /** Swapping a value with its larger child, when that child is larger than it, moves the fault
      one level down. */
  lemma DownStep(a: seq<int>, n: int, c: int, m: int)
    requires HeapExceptDown(a, n, c) && 2 <= m <= n && ParentIndex(m) == c
    requires ChildrenAtMost(a, n, c, a[m]) && a[c] < a[m]
    ensures HeapExceptDown(Swap(a, c, m), n, m)
  {
    var b := Swap(a, c, m);
    forall i | 2 <= i <= n && ParentIndex(i) != m ensures b[ParentIndex(i)] >= b[i] {
      if i == m {
      } else if i == c {
        assert b[ParentIndex(i)] == a[ParentIndex(c)] && b[i] == a[m];
      } else if ParentIndex(i) == c {
        assert b[ParentIndex(i)] == a[m] && b[i] == a[i];
      } else {
        assert b[ParentIndex(i)] == a[ParentIndex(i)] && b[i] == a[i];
      }
    }
    forall i | 2 <= i <= n && ParentIndex(i) == m ensures b[i] <= b[c] {
      assert b[i] == a[i] && b[c] == a[m];
    }
  }

  /** The child `Pop` picks, the right one when it is in the heap and larger than the left one,
      is at least every child of c. */
  lemma LargerChild(a: seq<int>, n: int, c: int, m: int)
    requires c >= 1 && n < |a| && 2 <= LeftChildIndex(c) <= n
    requires m == if RightChildIndex(c) <= n && a[RightChildIndex(c)] > a[LeftChildIndex(c)]
      then RightChildIndex(c) else LeftChildIndex(c)
    ensures ChildrenAtMost(a, n, c, a[m])
  {
    forall i | 2 <= i <= n && ParentIndex(i) == c ensures a[i] <= a[m] {
      ChildrenOf(c, i);
    }
  }

  /** A slot whose left child is past n has no children in slots 1..n. */
  lemma NoChildren(n: int, c: int)
    requires c >= 1 && LeftChildIndex(c) > n
    ensures forall i :: 2 <= i <= n ==> ParentIndex(i) != c
  {
    forall i | 2 <= i <= n ensures ParentIndex(i) != c {
      ChildrenOf(c, i);
    }
  }

  /** Percolate-down ends when no child is larger: a heap again. */
  lemma DownDone(a: seq<int>, n: int, c: int)
    requires HeapExceptDown(a, n, c) && c < |a| && ChildrenAtMost(a, n, c, a[c])
    ensures HeapOrdered(a, n)
  {
  }

  /** Percolate-down has ended, either because c has no children or because none is larger:
      what is left is a heap holding the values it started with, zero outside. */
  lemma Settled(s1: seq<int>, a: seq<int>, n: int, c: int)
    requires 0 <= n < |s1| && ZeroOutside(s1, n) && SegmentPerm(s1, a, 1, n)
    requires HeapExceptDown(a, n, c)
    requires LeftChildIndex(c) > n || ChildrenAtMost(a, n, c, a[c])
    ensures HeapOrdered(a, n) && ZeroOutside(a, n)
    ensures multiset(a[1..n + 1]) == multiset(s1[1..n + 1])
  {
    if LeftChildIndex(c) > n {
      NoChildren(n, c);
    }
    DownDone(a, n, c);
    PermKeepsZeros(s1, a, n);
  }

  /** Every value of a heap is at most the root's. */
  lemma {:induction false} RootIsMax(a: seq<int>, n: int, i: int)
    requires n < |a| && HeapOrdered(a, n) && 1 <= i <= n
    ensures a[i] <= a[1]
    decreases i
  {
    if i > 1 {
      RootIsMax(a, n, ParentIndex(i));
    }
  }

  /** The root is the largest value held in slots 1..n. */
  lemma RootIsMaxOfAll(a: seq<int>, n: int, m: multiset<int>)
    requires 1 <= n < |a| && HeapOrdered(a, n) && m == multiset(a[1..n + 1])
    ensures a[1] in m
    ensures forall x :: x in m ==> x <= a[1]
  {
    assert a[1..n + 1][0] == a[1];
    forall x | x in m ensures x <= a[1] {
      var k :| 0 <= k < n && a[1..n + 1][k] == x;
      RootIsMax(a, n, k + 1);
    }
  }

  /** Moving the last value to the root and clearing its slot removes one copy of the root. */
  lemma MoveLastToRoot(a: seq<int>, n: int)
    requires 1 <= n < |a|
    ensures multiset(a[1 := a[n]][n := 0][1..n]) == multiset(a[1..n + 1]) - multiset{a[1]}
  {
    var b := a[1 := a[n]][n := 0];
    if n > 1 {
      assert b[1..n] == [a[n]] + a[2..n];
      assert a[1..n + 1] == [a[1]] + a[2..n] + [a[n]];
    } else {
      assert a[1..n + 1] == [a[1]];
    }
  }

  /** The same move keeps the zero slots and leaves a heap except below the root. */
  lemma MoveLastKeepsOrder(a: seq<int>, n: int, b: seq<int>)
    requires 1 <= n < |a| && HeapOrdered(a, n) && b == a[1 := a[n]][n := 0]
    requires ZeroOutside(a, n)
    ensures HeapExceptDown(b, n - 1, 1) && ZeroOutside(b, n - 1)
  {
    forall i | 2 <= i <= n - 1 && ParentIndex(i) != 1 ensures b[ParentIndex(i)] >= b[i] {
      assert b[ParentIndex(i)] == a[ParentIndex(i)] && b[i] == a[i];
    }
  }

  /** Writing a value into the first free slot leaves a heap except above that slot. */
  lemma PlaceLast(a: seq<int>, n: int, v: int)
    requires 1 <= n < |a| && HeapOrdered(a, n - 1) && ZeroOutside(a, n - 1)
    ensures HeapExceptUp(a[n := v], n, n) && ZeroOutside(a[n := v], n)
    ensures multiset(a[n := v][1..n + 1]) == multiset(a[1..n]) + multiset{v}
  {
    var b := a[n := v];
    assert b[1..n + 1] == a[1..n] + [v];
    forall i | 2 <= i <= n && i != n ensures b[ParentIndex(i)] >= b[i] {
      assert b[ParentIndex(i)] == a[ParentIndex(i)] && b[i] == a[i];
    }
    forall i | 2 <= i <= n ensures ParentIndex(i) != n {
      ChildrenOf(n, i);
    }
  }

  /** The zero slots outside a segment survive a permutation of the segment. */
  lemma PermKeepsZeros(a: seq<int>, b: seq<int>, n: int)
    requires 0 <= n < |a| && SegmentPerm(a, b, 1, n) && ZeroOutside(a, n)
    ensures ZeroOutside(b, n)
  {
  }

  /** Copying the buffer into a longer one padded with zero values keeps the heap. */
  lemma Widened(a: seq<int>, b: seq<int>, n: int)
    requires 0 <= n < |a| <= |b| && HeapOrdered(a, n) && ZeroOutside(a, n)
    requires forall k :: 0 <= k < |a| ==> b[k] == a[k]
    requires forall k :: |a| <= k < |b| ==> b[k] == 0
    ensures HeapOrdered(b, n) && ZeroOutside(b, n) && b[1..n + 1] == a[1..n + 1]
  {
  }

  /** `make` of a buffer of n zero values followed by `copy` of a into it. */
  method CopyInto(a: array<int>, n: nat) returns (b: array<int>)
    requires a.Length <= n
    ensures fresh(b) && b.Length == n
    ensures forall k :: 0 <= k < a.Length ==> b[k] == a[k]
    ensures forall k :: a.Length <= k < n ==> b[k] == 0
  {
    b := new int[n](_ => 0);
    forall k | 0 <= k < a.Length {
      b[k] := a[k];
    }
  }

  /** The loop of `Push`: swap the value at childIndex with its parent while the parent is
      smaller. Slots 1..n of `a` are the heap. */
  method SiftUp(a: array<int>, n: int, childIndex: int)
    requires 0 <= n < a.Length
    requires HeapExceptUp(a[..], n, childIndex) && ZeroOutside(a[..], n)
    modifies a
    ensures HeapOrdered(a[..], n) && ZeroOutside(a[..], n)
    ensures multiset(a[..][1..n + 1]) == multiset(old(a[..])[1..n + 1])
  {
    ghost var s1 := a[..];
    var childIndex := childIndex;
    var parentIndex := ParentIndex(childIndex);
    while parentIndex > 0
      invariant HeapExceptUp(a[..], n, childIndex)
      invariant parentIndex == ParentIndex(childIndex)
      invariant SegmentPerm(s1, a[..], 1, n)
      decreases childIndex
    {
      if a[parentIndex] < a[childIndex] {
        ghost var cur := a[..];
        UpStep(cur, n, childIndex);
        SwapInSegment(cur, parentIndex, childIndex, 1, n);
        PermTrans(s1, cur, Swap(cur, parentIndex, childIndex), 1, n);
        a[parentIndex], a[childIndex] := a[childIndex], a[parentIndex];
        assert a[..] == Swap(cur, parentIndex, childIndex);
        childIndex := parentIndex;
        parentIndex := ParentIndex(parentIndex);
      } else {
        break;
      }
    }
    ghost var fin := a[..];
    Risen(s1, fin, n, childIndex);
  }

  /** One round of the loop of `Pop`: pick the larger child of currIndex and swap it up when it
      is larger than the value at currIndex. Returns the slot the value moved to, or currIndex
      itself when it stays. */
  method SiftStep(a: array<int>, n: int, currIndex: int) returns (next: int)
    requires 0 <= n < a.Length
    requires HeapExceptDown(a[..], n, currIndex) && LeftChildIndex(currIndex) <= n
    modifies a
    ensures SegmentPerm(old(a[..]), a[..], 1, n)
    ensures next == currIndex ==> a[..] == old(a[..]) && ChildrenAtMost(a[..], n, currIndex, a[currIndex])
    ensures next != currIndex ==> currIndex < next <= n && HeapExceptDown(a[..], n, next)
  {
    var left := LeftChildIndex(currIndex);
    var right := RightChildIndex(currIndex);
    var minChildIndex;
    if right <= n && a[right] > a[left] {
      minChildIndex := right;
    } else if left <= n {
      minChildIndex := left;
    } else {
      return currIndex;
    }
    ghost var cur := a[..];
    LargerChild(cur, n, currIndex, minChildIndex);
    if a[currIndex] < a[minChildIndex] {
      DownStep(cur, n, currIndex, minChildIndex);
      SwapInSegment(cur, currIndex, minChildIndex, 1, n);
      a[currIndex], a[minChildIndex] := a[minChildIndex], a[currIndex];
      assert a[..] == Swap(cur, currIndex, minChildIndex);
      return minChildIndex;
    }
    return currIndex;
  }

  /** The loop of `Pop`: swap the value at the root with its larger child while that child is
      larger. Slots 1..n of `a` are the heap. */
  method SiftDown(a: array<int>, n: int)
    requires 0 <= n < a.Length
    requires HeapExceptDown(a[..], n, 1) && ZeroOutside(a[..], n)
    modifies a
    ensures HeapOrdered(a[..], n) && ZeroOutside(a[..], n)
    ensures multiset(a[..][1..n + 1]) == multiset(old(a[..])[1..n + 1])
  {
    ghost var s1 := a[..];
    var currIndex := 1;
    while LeftChildIndex(currIndex) <= n
      invariant HeapExceptDown(a[..], n, currIndex)
      invariant SegmentPerm(s1, a[..], 1, n)
      decreases n - currIndex
    {
      ghost var cur := a[..];
      var next := SiftStep(a, n, currIndex);
      PermTrans(s1, cur, a[..], 1, n);
      if next == currIndex {
        break;
      }
      currIndex := next;
    }
    ghost var fin := a[..];
    Settled(s1, fin, n, currIndex);
  }

  class MaxHeap {
    var s: array<int>
    var lastIndex: int
    var size: int

    /** `lastIndex` and `size` agree, the buffer always has a free slot, slots 1..size form a
        max-heap and every other slot holds the zero value. */
    ghost predicate Valid()
      reads this, s
    {
      && lastIndex == size
      && 0 <= size < s.Length
      && HeapOrdered(s[..], size)
      && ZeroOutside(s[..], size)
    }

    /** The values held by the heap. */
    ghost function Elements(): multiset<int>
      reads this, s
      requires 0 <= size < s.Length
    {
      multiset(s[..][1..size + 1])
    }

    /** `NewMaxHeap`: an empty heap over a buffer of 5 slots. */
    constructor ()
      ensures Valid() && fresh(s) && s.Length == 5 && size == 0 && Elements() == multiset{}
    {
      s := new int[5](_ => 0);
      lastIndex := 0;
      size := 0;
    }

    /** `Size`: the number of elements. */
    function Size(): (n: int)
      reads this, s
      requires Valid()
      ensures n == |Elements()|
    {
      size
    }

    /** `Peek`: the largest element, or an error on an empty heap. Nothing changes. */
    function Peek(): (r: Result<int>)
      reads this, s
      requires Valid()
      ensures size == 0 <==> r == Err(EmptyPeekError)
      ensures r.Ok? ==> r.value in Elements() && forall x :: x in Elements() ==> x <= r.value
    {
      if Size() == 0 then Err(EmptyPeekError)
      else
        assert s[..][1..size + 1] == s[1..size + 1];
        RootIsMaxOfAll(s[..], size, Elements());
        Ok(s[1])
    }

    /** The start of `Push`: when the buffer is full, move its contents to one twice as long. */
    method Grow()
      requires Valid()
      modifies this
      ensures Valid() && size == old(size) && Elements() == old(Elements())
      ensures old(size) == old(s.Length) - 1 ==> fresh(s) && s.Length == 2 * old(s.Length)
      ensures old(size) != old(s.Length) - 1 ==> s == old(s)
      ensures size < s.Length - 1
    {
      if size == s.Length - 1 {
        var bigger := CopyInto(s, s.Length * 2);
        Widened(s[..], bigger[..], size);
        s := bigger;
      }
    }

    /** The rest of `Push`, once there is room: the element goes into the first free slot, then
        is swapped with its parent for as long as the parent is smaller. */
    method Insert(elem: int)
      requires Valid() && size < s.Length - 1
      modifies this, s
      ensures Valid() && s == old(s) && size == old(size) + 1
      ensures Elements() == old(Elements()) + multiset{elem}
    {
      ghost var pre := s[..];
      assert Elements() == multiset(pre[1..size + 1]);
      lastIndex := lastIndex + 1;
      s[lastIndex] := elem;
      size := size + 1;
      ghost var s1 := s[..];
      assert s1 == pre[size := elem];
      PlaceLast(pre, size, elem);
      SiftUp(s, size, lastIndex);
    }

    /** `Push`: adds the element, doubling the buffer first when it is full, and keeps the heap
        property. */
    method Push(elem: int)
      requires Valid()
      modifies this, s
      ensures Valid() && size == old(size) + 1
      ensures Elements() == old(Elements()) + multiset{elem}
      ensures old(size) == old(s.Length) - 1 ==> fresh(s) && s.Length == 2 * old(s.Length)
      ensures old(size) != old(s.Length) - 1 ==> s == old(s)
    {
      Grow();
      Insert(elem);
    }

    /** The middle of `Pop`: the count drops, the last element moves to the root and its slot is
        cleared. */
    method MoveLastToTop()
      requires Valid() && size > 0
      modifies this, s
      ensures s == old(s) && size == old(size) - 1 && lastIndex == size
      ensures HeapExceptDown(s[..], size, 1) && ZeroOutside(s[..], size)
      ensures multiset(s[..][1..size + 1]) == multiset(old(s[..])[1..old(size) + 1]) - multiset{old(s[1])}
    {
      ghost var s0 := s[..];
      size := size - 1;
      s[1] := s[lastIndex];
      s[lastIndex] := 0;
      lastIndex := lastIndex - 1;
      assert s[..] == s0[1 := s0[size + 1]][size + 1 := 0];
      MoveLastToRoot(s0, size + 1);
      MoveLastKeepsOrder(s0, size + 1, s[..]);
    }

    /** The non-empty case of `Pop`: takes the root out, moves the last element into its place
        and clears the last slot, then sifts that element down. */
    method TakeTop() returns (elem: int)
      requires Valid() && size > 0
      modifies this, s
      ensures Valid() && s == old(s) && size == old(size) - 1
      ensures elem == old(s[1]) && Elements() == old(Elements()) - multiset{elem}
    {
      ghost var m0 := Elements();
      elem := s[1];
      MoveLastToTop();
      ghost var m1 := multiset(s[..][1..size + 1]);
      assert m1 == m0 - multiset{elem};
      SiftDown(s, size);
      assert Elements() == m1;
    }

    /** `Pop`: the largest element, taken out of the heap; an error, and no change, on an empty
        heap. */
    method Pop() returns (r: Result<int>)
      requires Valid()
      modifies this, s
      ensures Valid() && s == old(s)
      ensures old(size) == 0 ==> r == Err(EmptyPopError) && size == 0
      ensures old(size) > 0 ==> r == old(Peek()) && size == old(size) - 1
      ensures Elements() == if r.Ok? then old(Elements()) - multiset{r.value} else old(Elements())
    {
      if Size() < 1 {
        return Err(EmptyPopError);
      }
      var elem := TakeTop();
      return Ok(elem);
    }
  }

  /** The largest value of a multiset is the only one that every value is at most. */
  lemma LargestIsUnique(m: multiset<int>, v: int, w: int)
    requires v in m && w in m
    requires forall x :: x in m ==> x <= v
    requires forall x :: x in m ==> x <= w
    ensures v == w
  {
  }

  /** The first pushes of the pop scenario: 10, 5 and 2 fit in the initial buffer of 5 slots. */
  method PushThree() returns (h: MaxHeap)
    ensures fresh(h) && fresh(h.s) && h.Valid()
    ensures h.Elements() == multiset{10, 5, 2} && h.size == 3 && h.s.Length == 5
  {
    h := new MaxHeap();
    h.Push(10);
    h.Push(5);
    assert h.Elements() == multiset{10, 5};
    h.Push(2);
  }

  /** The heap of the pop scenario: 10, 5, 2, 100 and 50 pushed in turn; the fifth push finds
      the initial buffer of 5 slots full and doubles it. */
  method PushFive() returns (h: MaxHeap)
    ensures fresh(h) && fresh(h.s) && h.Valid()
    ensures h.Elements() == multiset{10, 5, 2, 100, 50} && h.s.Length == 10
  {
    h := PushThree();
    h.Push(100);
    assert h.Elements() == multiset{10, 5, 2, 100};
    h.Push(50);
  }

  /** One step of the pop scenario: the heap holds `top` and `rest`, nothing in `rest` exceeds
      `top`, so `Pop` returns `top` and leaves `rest`. */
  method PopExpecting(h: MaxHeap, top: int, ghost rest: multiset<int>) returns (r: Result<int>)
    requires h.Valid() && h.Elements() == rest + multiset{top}
    requires forall x :: x in rest ==> x <= top
    modifies h, h.s
    ensures h.Valid() && h.s == old(h.s) && h.Elements() == rest && r == Ok(top)
  {
    var p := h.Peek();
    LargestIsUnique(h.Elements(), p.value, top);
    r := h.Pop();
  }

  /** The last pops of the pop scenario: 10, 5 and 2 come out in that order, then the empty
      heap reports an error. */
  method PopLastThree(h: MaxHeap) returns (popped: seq<Result<int>>)
    requires h.Valid() && h.Elements() == multiset{10, 5, 2}
    modifies h, h.s
    ensures popped == [Ok(10), Ok(5), Ok(2), Err(EmptyPopError)]
  {
    var r3 := PopExpecting(h, 10, multiset{5, 2});
    var r4 := PopExpecting(h, 5, multiset{2});
    var r5 := PopExpecting(h, 2, multiset{});
    var r6 := h.Pop();
    popped := [r3, r4, r5, r6];
  }

  /** The scenario of the heap tests: after 10, 5, 2, 100 and 50 are pushed, pops return them
      largest first, and one more pop on the now empty heap is an error. */
  method PopsLargestFirst() returns (popped: seq<Result<int>>, capacity: int)
    ensures popped == [Ok(100), Ok(50), Ok(10), Ok(5), Ok(2), Err(EmptyPopError)]
    ensures capacity == 10
  {
    var h := PushFive();
    capacity := h.s.Length;
    var r1 := PopExpecting(h, 100, multiset{10, 5, 2, 50});
    var r2 := PopExpecting(h, 50, multiset{10, 5, 2});
    var rest := PopLastThree(h);
    popped := [r1, r2, rest[0], rest[1], rest[2], rest[3]];
  }
}
