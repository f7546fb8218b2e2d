/** Binary search of search/binary.go over a read-only slice of ordered values (modelled as
    integers). The zero value returned with `false` is 0. */
module BinarySearch {
  import opened SortSpec

  method Binary(l: seq<int>, t: int) returns (elem: int, found: bool)
    ensures found ==> elem == t && t in l
    ensures !found ==> elem == 0
    ensures Sorted(l) && t in l ==> found
  {
    var low, high := 0, |l| - 1;
    while low <= high
      invariant 0 <= low && high < |l| && low <= high + 1
      invariant Sorted(l) ==> forall k :: 0 <= k < |l| && l[k] == t ==> low <= k <= high
    {
      var mid := (low + high) / 2;
      assert low <= mid <= high;
      if t < l[mid] {
        high := mid - 1;
      } else if t > l[mid] {
        low := mid + 1;
      } else {
        return l[mid], true;
      }
    }
    return 0, false;
  }
}
