/** Merge sort of sort/merge.go. `mergeHelper` is modelled on sequence values: the Go code only
    reads the sub-slices it recurses on and always builds its result in a fresh slice (or returns
    a slice of length < 2 as it is). */
module MergeSort {
  import opened SortSpec

  /** The merge of two lists that `mergeSortedLists` computes: repeatedly take the smaller head,
      the LEFT head on ties. It is as long as the two lists together. */
  function Merged(left: seq<int>, right: seq<int>): (r: seq<int>)
    ensures |r| == |left| + |right|
    decreases |left| + |right|
  {
    if left == [] then right
    else if right == [] then left
    else if left[0] <= right[0] then [left[0]] + Merged(left[1..], right)
    else [right[0]] + Merged(left, right[1..])
  }

  /** The merge keeps every value of both inputs, and nothing else. */
  lemma {:induction false} MergedValues(left: seq<int>, right: seq<int>)
    ensures multiset(Merged(left, right)) == multiset(left) + multiset(right)
    ensures |Merged(left, right)| == |left| + |right|
    decreases |left| + |right|
  {
    if left != [] && right != [] {
      if left[0] <= right[0] {
        var tl := left[1..];
        var rest := Merged(tl, right);
        assert Merged(left, right) == [left[0]] + rest;
        MergedValues(tl, right);
        ConsValues(left[0], tl, rest, right);
        assert left == [left[0]] + tl;
      } else {
        var tl := right[1..];
        var rest := Merged(left, tl);
        assert Merged(left, right) == [right[0]] + rest;
        MergedValues(left, tl);
        ConsValues(right[0], tl, rest, left);
        assert right == [right[0]] + tl;
      }
    }
  }

  /** Putting one value in front of both sides keeps a multiset equation. */
  lemma ConsValues(h: int, t: seq<int>, rest: seq<int>, other: seq<int>)
    requires multiset(rest) == multiset(t) + multiset(other)
    ensures multiset([h] + rest) == multiset([h] + t) + multiset(other)
  {
  }

  /** The first value of a merge is one of the two heads. */
  lemma MergedHead(left: seq<int>, right: seq<int>)
    requires left != [] || right != []
    ensures Merged(left, right) != []
    ensures Merged(left, right)[0] == (if left == [] then right[0] else if right == [] then left[0]
                                       else if left[0] <= right[0] then left[0] else right[0])
  {
  }

  /** Two sorted lists merge into a sorted list. */
  lemma {:induction false} MergedSorted(left: seq<int>, right: seq<int>)
    requires Sorted(left) && Sorted(right)
    ensures Sorted(Merged(left, right))
    decreases |left| + |right|
  {
    if left != [] && right != [] {
      var m := Merged(left, right);
      if left[0] <= right[0] {
        var rest := Merged(left[1..], right);
        MergedSorted(left[1..], right);
        if rest != [] {
          MergedHead(left[1..], right);
          assert left[0] <= rest[0];
        }
        assert m == [left[0]] + rest;
      } else {
        var rest := Merged(left, right[1..]);
        MergedSorted(left, right[1..]);
        if rest != [] {
          MergedHead(left, right[1..]);
          assert right[0] <= rest[0];
        }
        assert m == [right[0]] + rest;
      }
    }
  }

  /** Ties go to the left list: merging a value with an equal one puts the left copy first. */
  lemma MergedPrefersLeftOnTies(x: int, left: seq<int>, right: seq<int>)
    ensures Merged([x] + left, [x] + right) == [x] + Merged(left, [x] + right)
  {
    assert ([x] + left)[1..] == left;
  }

  /** Unfolding the merge of two suffixes by one step. */
  lemma MergedStep(left: seq<int>, right: seq<int>, li: nat, ri: nat)
    requires li < |left| || ri < |right|
    requires li <= |left| && ri <= |right|
    ensures Merged(left[li..], right[ri..]) ==
      if ri == |right| || (li < |left| && left[li] <= right[ri])
      then [left[li]] + Merged(left[li + 1..], right[ri..])
      else [right[ri]] + Merged(left[li..], right[ri + 1..])
  {
    if li < |left| {
      assert left[li..][1..] == left[li + 1..];
    }
    if ri < |right| {
      assert right[ri..][1..] == right[ri + 1..];
    }
  }

  /** Moving the next merged value from the pending part to the written part. */
  lemma TakeNext(done: seq<int>, x: int, rest: seq<int>, whole: seq<int>)
    requires done + ([x] + rest) == whole
    ensures (done + [x]) + rest == whole
  {
    assert (done + [x]) + rest == done + ([x] + rest);
  }

  /** After writing `done`, what remains to be written is the merge of the unread suffixes. */
  ghost predicate Progress(left: seq<int>, right: seq<int>, li: nat, ri: nat, done: seq<int>) {
    li <= |left| && ri <= |right| && done + Merged(left[li..], right[ri..]) == Merged(left, right)
  }

  /** Writing the smaller head (the left one on ties) keeps the progress invariant. */
  lemma ProgressStep(left: seq<int>, right: seq<int>, li: nat, ri: nat, done: seq<int>)
    requires Progress(left, right, li, ri, done) && li < |left| && ri < |right|
    ensures left[li] <= right[ri] ==> Progress(left, right, li + 1, ri, done + [left[li]])
    ensures left[li] > right[ri] ==> Progress(left, right, li, ri + 1, done + [right[ri]])
  {
    MergedStep(left, right, li, ri);
    if left[li] <= right[ri] {
      TakeNext(done, left[li], Merged(left[li + 1..], right[ri..]), Merged(left, right));
    } else {
      TakeNext(done, right[ri], Merged(left[li..], right[ri + 1..]), Merged(left, right));
    }
  }

  /** When the loop stops, the rest of the merge is the two unread suffixes one after the other. */
  lemma ProgressDone(left: seq<int>, right: seq<int>, li: nat, ri: nat, done: seq<int>)
    requires Progress(left, right, li, ri, done) && (li == |left| || ri == |right|)
    ensures done + (left[li..] + right[ri..]) == Merged(left, right)
  {
    MergedExhausted(left[li..], right[ri..]);
  }

  /** Once one input is used up, the merge is the other input. */
  lemma MergedExhausted(left: seq<int>, right: seq<int>)
    requires left == [] || right == []
    ensures Merged(left, right) == left + right
  {
  }

  /** The written prefix followed by the two copied remainders. */
  lemma Assembled(out: seq<int>, done: seq<int>, a: seq<int>, b: seq<int>)
    requires |out| == |done| + |a| + |b|
    requires forall k :: 0 <= k < |done| ==> out[k] == done[k]
    requires forall k :: |done| <= k < |done| + |a| ==> out[k] == a[k - |done|]
    requires forall k :: |done| + |a| <= k < |out| ==> out[k] == b[k - |done| - |a|]
    ensures out == done + (a + b)
  {
  }

  /** The two trailing loops of `mergeSortedLists`: copy what is left of one input, src[from..],
      to out[at..], keeping what was already written before `at`. */
  method CopyRemaining(src: seq<int>, from: nat, out: array<int>, at: nat) returns (end: nat)
    requires from <= |src| && at + (|src| - from) <= out.Length
    modifies out
    ensures end == at + (|src| - from)
    ensures forall k :: 0 <= k < at ==> out[k] == old(out[k])
    ensures forall k :: at <= k < end ==> out[k] == src[k - at + from]
  {
    var i, j := at, from;
    while j < |src|
      invariant from <= j <= |src| && i == at + (j - from)
      invariant forall k :: 0 <= k < at ==> out[k] == old(out[k])
      invariant forall k :: at <= k < i ==> out[k] == src[k - at + from]
    {
      out[i] := src[j];
      j := j + 1;
      i := i + 1;
    }
    end := i;
  }

  /** The first loop of `mergeSortedLists`: while both inputs have values left, write the smaller
      head (the left one on ties) to `out`. The ghost `done` is what has been written to out[..i]. */
  method MergeHeads(left: seq<int>, right: seq<int>, out: array<int>)
    returns (i: nat, li: nat, ri: nat, ghost done: seq<int>)
    requires out.Length == |left| + |right|
    modifies out
    ensures i == li + ri == |done|
    ensures Progress(left, right, li, ri, done)
    ensures li == |left| || ri == |right|
    ensures forall k :: 0 <= k < i ==> out[k] == done[k]
  {
    i, li, ri := 0, 0, 0;
    done := [];
    while li < |left| && ri < |right|
      invariant i == li + ri == |done|
      invariant Progress(left, right, li, ri, done)
      invariant out[..i] == done
    {
      ProgressStep(left, right, li, ri, done);
      var next := if left[li] <= right[ri] then left[li] else right[ri];
      out[i] := next;
      assert out[..i + 1] == done + [next];
      done := done + [next];
      if left[li] <= right[ri] {
        li := li + 1;
      } else {
        ri := ri + 1;
      }
      i := i + 1;
    }
    assert forall k :: 0 <= k < i ==> out[k] == out[..i][k];
  }

  /** `mergeSortedLists`: merge the heads into a fresh output, then copy what is left of each input. */
  method MergeSortedLists(left: seq<int>, right: seq<int>) returns (sorted: seq<int>)
    ensures sorted == Merged(left, right)
  {
    var out := new int[|left| + |right|];
    var i, li, ri, done := MergeHeads(left, right, out);
    ProgressDone(left, right, li, ri, done);
    var mid := CopyRemaining(left, li, out, i);
    var end := CopyRemaining(right, ri, out, mid);
    Assembled(out[..], done, left[li..], right[ri..]);
    sorted := out[..];
  }

  /** `mergeHelper`: lists shorter than 2 come back as they are; otherwise both halves are sorted
      recursively and merged. */
  method MergeHelper(list: seq<int>) returns (r: seq<int>)
    ensures Sorted(r)
    ensures multiset(r) == multiset(list)
    ensures |list| < 2 ==> r == list
    decreases |list|
  {
    if |list| < 2 {
      return list;
    }
    var midpoint := |list| / 2;
    var sortedLeft := MergeHelper(list[0..midpoint]);
    var sortedRight := MergeHelper(list[midpoint..]);
    r := MergeSortedLists(sortedLeft, sortedRight);
    MergedSorted(sortedLeft, sortedRight);
    MergedValues(sortedLeft, sortedRight);
    assert list == list[0..midpoint] + list[midpoint..];
  }

  /** `Merge`: sorts a copy of the list; the argument is only read. */
  method Merge(list: array<int>) returns (r: seq<int>)
    ensures Sorted(r)
    ensures multiset(r) == multiset(list[..])
  {
    r := MergeHelper(list[..]);
  }

  /** `InPlaceMerge`: despite its name it does not write into the list it is given (there is no
      modifies clause); it returns the sorted result as a new list. */
  method InPlaceMerge(list: array<int>) returns (r: seq<int>)
    ensures Sorted(r)
    ensures multiset(r) == multiset(list[..])
  {
    r := MergeHelper(list[..]);
  }
}
