/** What "sorted" means for the sorting and searching routines (ascending with repetitions), and
    the swaps that the in-place algorithms are built from. */
module SortSpec {

  predicate Sorted(s: seq<int>) {
    forall i, j :: 0 <= i < j < |s| ==> s[i] <= s[j]
  }

  /** Each neighbouring pair in order, which is all that bubble and insertion sort ever check. */
  predicate AdjacentSorted(s: seq<int>) {
    forall i :: 0 < i < |s| ==> s[i - 1] <= s[i]
  }

  /** Ordered neighbours make the whole sequence ordered. */
  lemma {:induction false} AdjacentSortedIsSorted(s: seq<int>)
    requires AdjacentSorted(s)
    ensures Sorted(s)
  {
    if |s| > 1 {
      AdjacentSortedIsSorted(s[..|s| - 1]);
      assert forall i :: 0 <= i < |s| - 1 ==> s[i] <= s[|s| - 2] by {
        forall i | 0 <= i < |s| - 1 ensures s[i] <= s[|s| - 2] {
          assert s[..|s| - 1][i] == s[i];
        }
      }
    }
  }

  /** t agrees with s outside s[low..high+1] and holds the same values inside it. */
  ghost predicate SegmentPerm(s: seq<int>, t: seq<int>, low: int, high: int)
    requires 0 <= low <= high + 1 <= |s|
  {
    && |t| == |s|
    && multiset(t[low..high + 1]) == multiset(s[low..high + 1])
    && forall k :: 0 <= k < |s| && (k < low || high < k) ==> t[k] == s[k]
  }

  /** s with the values at a and b exchanged. */
  function Swap(s: seq<int>, a: int, b: int): (t: seq<int>)
    requires 0 <= a < |s| && 0 <= b < |s|
    ensures |t| == |s| && t[a] == s[b] && t[b] == s[a]
    ensures forall k :: 0 <= k < |s| && k != a && k != b ==> t[k] == s[k]
  {
    s[a := s[b]][b := s[a]]
  }

  /** Swapping two positions inside the segment is a segment permutation. */
  lemma SwapInSegment(s: seq<int>, a: int, b: int, low: int, high: int)
    requires 0 <= low <= a <= high < |s| && low <= b <= high
    ensures SegmentPerm(s, Swap(s, a, b), low, high)
  {
    var seg, t := s[low..high + 1], Swap(s, a, b);
    assert t[low..high + 1] == seg[a - low := seg[b - low]][b - low := seg[a - low]];
  }

  /** Segment permutations compose. */
  lemma PermTrans(s: seq<int>, t: seq<int>, u: seq<int>, low: int, high: int)
    requires 0 <= low <= high + 1 <= |s|
    requires SegmentPerm(s, t, low, high) && SegmentPerm(t, u, low, high)
    ensures SegmentPerm(s, u, low, high)
  {
  }
}
