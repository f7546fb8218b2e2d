/** Quick sort of sort/quick.go. The random pivot of `partition` is modelled as an arbitrary index
    of the segment: the proofs hold whichever index the random source picks. */
module QuickSort {
  import opened SortSpec

  /** Every value of s is below v. */
  ghost predicate AllBelow(s: seq<int>, v: int) {
    forall x :: x in s ==> x < v
  }

  /** Every value of s is at least v. */
  ghost predicate AllAtLeast(s: seq<int>, v: int) {
    forall x :: x in s ==> v <= x
  }

  /** A permutation of an inner segment [a, b] is a permutation of any segment around it. */
  lemma PermWiden(s: seq<int>, t: seq<int>, low: int, high: int, a: int, b: int)
    requires 0 <= low <= a <= b + 1 <= high + 1 <= |s|
    requires SegmentPerm(s, t, a, b)
    ensures SegmentPerm(s, t, low, high)
  {
    assert s[low..high + 1] == s[low..a] + s[a..b + 1] + s[b + 1..high + 1];
    assert t[low..high + 1] == t[low..a] + t[a..b + 1] + t[b + 1..high + 1];
    assert t[low..a] == s[low..a];
    assert t[b + 1..high + 1] == s[b + 1..high + 1];
  }

  /** Bounds on every value survive a permutation. */
  lemma PermKeepsBounds(a: seq<int>, b: seq<int>, v: int)
    requires multiset(a) == multiset(b)
    ensures AllBelow(a, v) ==> AllBelow(b, v)
    ensures AllAtLeast(a, v) ==> AllAtLeast(b, v)
  {
    forall x | x in b ensures x in a {
      assert x in multiset(b);
    }
  }

  /** A sorted list of values below p, then p, then a sorted list of values at least p, is sorted. */
  lemma JoinSorted(l: seq<int>, p: int, r: seq<int>)
    requires Sorted(l) && Sorted(r) && AllBelow(l, p) && AllAtLeast(r, p)
    ensures Sorted(l + [p] + r)
  {
    var s := l + [p] + r;
    forall i, j | 0 <= i < j < |s| ensures s[i] <= s[j] {
      if i < |l| {
        assert l[i] in l;
      }
      if j > |l| {
        assert r[j - |l| - 1] in r;
      }
    }
  }

  /** What holds in `partition`'s loop: the pivot value waits at `high`, values below it have been
      gathered in [low, j), and [j, i) holds values at least the pivot. */
  ghost predicate PartInv(s0: seq<int>, s: seq<int>, low: int, high: int, i: int, j: int, pv: int)
    requires 0 <= low <= high < |s0|
  {
    && SegmentPerm(s0, s, low, high)
    && low <= j <= i <= high
    && s[high] == pv
    && (forall k :: low <= k < j ==> s[k] < pv)
    && (forall k :: j <= k < i ==> pv <= s[k])
  }

  /** One step of the loop keeps its invariant. */
  lemma PartStep(s0: seq<int>, s: seq<int>, low: int, high: int, i: int, j: int, pv: int)
    requires 0 <= low <= high < |s0|
    requires PartInv(s0, s, low, high, i, j, pv) && i < high
    ensures s[i] < pv ==> PartInv(s0, Swap(s, i, j), low, high, i + 1, j + 1, pv)
    ensures pv <= s[i] ==> PartInv(s0, s, low, high, i + 1, j, pv)
  {
    if s[i] < pv {
      SwapInSegment(s, i, j, low, high);
      PermTrans(s0, s, Swap(s, i, j), low, high);
    }
  }

  /** The final swap puts the pivot value between the two parts. */
  lemma PartDone(s0: seq<int>, s: seq<int>, low: int, high: int, j: int, pv: int)
    requires 0 <= low <= high < |s0|
    requires PartInv(s0, s, low, high, high, j, pv)
    ensures var t := Swap(s, j, high);
      && SegmentPerm(s0, t, low, high)
      && (forall k :: low <= k < j ==> t[k] < t[j])
      && (forall k :: j < k <= high ==> t[j] <= t[k])
  {
    SwapInSegment(s, j, high, low, high);
    PermTrans(s0, s, Swap(s, j, high), low, high);
  }

  /** The loop of `partition`: with the pivot value at `high`, swap every smaller value of
      list[low..high] to the front, behind the cursor j. */
  method Gather(list: array<int>, low: int, high: int, pivotValue: int, ghost s0: seq<int>)
    returns (j: int)
    requires 0 <= low <= high < list.Length == |s0|
    requires PartInv(s0, list[..], low, high, low, low, pivotValue)
    modifies list
    ensures PartInv(s0, list[..], low, high, high, j, pivotValue)
  {
    j := low;
    var i := low;
    while i < high
      invariant PartInv(s0, list[..], low, high, i, j, pivotValue)
    {
      ghost var cur := list[..];
      PartStep(s0, cur, low, high, i, j, pivotValue);
      if list[i] < pivotValue {
        list[i], list[j] := list[j], list[i];
        assert list[..] == Swap(cur, i, j);
        j := j + 1;
      }
      i := i + 1;
    }
  }

  /** The start of `partition`: pick a pivot index in [low, high] (at random in the source; here
      any index) and move its value to `high`. */
  method MovePivot(list: array<int>, low: int, high: int) returns (pivotValue: int)
    requires 0 <= low <= high < list.Length
    modifies list
    ensures PartInv(old(list[..]), list[..], low, high, low, low, pivotValue)
  {
    ghost var s0 := list[..];
    var pivotIndex :| low <= pivotIndex <= high;
    pivotValue := list[pivotIndex];
    if pivotIndex != high {
      SwapInSegment(s0, pivotIndex, high, low, high);
      list[pivotIndex], list[high] := list[high], list[pivotIndex];
      assert list[..] == Swap(s0, pivotIndex, high);
    }
  }

  /** `partition`: move a pivot value to `high`, gather the smaller values at the front, then put
      the pivot right after them and return its index. */
  method Partition(list: array<int>, low: int, high: int) returns (j: int)
    requires 0 <= low <= high < list.Length
    modifies list
    ensures low <= j <= high
    ensures SegmentPerm(old(list[..]), list[..], low, high)
    ensures forall k :: low <= k < j ==> list[k] < list[j]
    ensures forall k :: j < k <= high ==> list[j] <= list[k]
  {
    ghost var s0 := list[..];
    var pivotValue := MovePivot(list, low, high);
    j := Gather(list, low, high, pivotValue, s0);
    ghost var cur := list[..];
    PartDone(s0, cur, low, high, j, pivotValue);
    list[j], list[high] := list[high], list[j];
    assert list[..] == Swap(cur, j, high);
  }

  /** The sorted segment is assembled from the two sorted sides of the pivot. */
  lemma Assemble(s1: seq<int>, s2: seq<int>, s3: seq<int>, low: int, p: int, high: int)
    requires 0 <= low <= p <= high < |s1|
    requires forall k :: low <= k < p ==> s1[k] < s1[p]
    requires forall k :: p < k <= high ==> s1[p] <= s1[k]
    requires SegmentPerm(s1, s2, low, p - 1) && Sorted(s2[low..p])
    requires SegmentPerm(s2, s3, p + 1, high) && Sorted(s3[p + 1..high + 1])
    ensures Sorted(s3[low..high + 1])
    ensures SegmentPerm(s1, s3, low, high)
  {
    assert AllBelow(s1[low..p], s1[p]);
    assert AllAtLeast(s1[p + 1..high + 1], s1[p]);
    PermKeepsBounds(s1[low..p], s2[low..p], s1[p]);
    assert s2[p + 1..high + 1] == s1[p + 1..high + 1];
    PermKeepsBounds(s1[p + 1..high + 1], s3[p + 1..high + 1], s1[p]);
    assert s3[low..p] == s2[low..p];
    assert s3[low..high + 1] == s3[low..p] + [s1[p]] + s3[p + 1..high + 1];
    JoinSorted(s3[low..p], s1[p], s3[p + 1..high + 1]);
    PermWiden(s1, s2, low, high, low, p - 1);
    PermWiden(s2, s3, low, high, p + 1, high);
  }

  /** `quickHelper`: sorts list[low..high+1] in place and leaves the rest of the list alone. */
  method QuickHelper(list: array<int>, low: int, high: int)
    requires 0 <= low <= high + 1 <= list.Length
    modifies list
    ensures Sorted(list[low..high + 1])
    ensures SegmentPerm(old(list[..]), list[..], low, high)
    decreases high - low
  {
    if high <= low {
      return;
    }
    ghost var s0 := list[..];
    var pivot := Partition(list, low, high);
    ghost var s1 := list[..];
    QuickHelper(list, low, pivot - 1);
    ghost var s2 := list[..];
    QuickHelper(list, pivot + 1, high);
    Assemble(s1, s2, list[..], low, pivot, high);
    PermTrans(s0, s1, list[..], low, high);
  }

  /** `Quick`: sorts a copy; the argument is only read. */
  method Quick(list: array<int>) returns (cpy: array<int>)
    ensures fresh(cpy)
    ensures Sorted(cpy[..])
    ensures multiset(cpy[..]) == multiset(list[..])
  {
    cpy := new int[list.Length](i requires 0 <= i < list.Length reads list => list[i]);
    ghost var s0 := cpy[..];
    assert s0 == list[..] && s0[0..cpy.Length] == s0;
    QuickHelper(cpy, 0, cpy.Length - 1);
    assert cpy[..] == cpy[0..cpy.Length];
  }
}
