/** Counting sort of sort/counting.go over unsigned values. The bucket has one slot per element
    of the list, so the Go code indexes out of range (and panics) when a value is not below the
    length of the list: that is this model's precondition. */
module CountingSort {
  import opened SortSpec

  /** The bucket the first loop of `counting` fills: slot v holds how often v occurs in s. */
  function CountsOf(s: seq<nat>, n: nat): (c: seq<nat>)
    ensures |c| == n
    ensures forall v :: 0 <= v < n ==> c[v] == multiset(s)[v]
  {
    seq(n, v requires 0 <= v => multiset(s)[v])
  }

  /** k copies of v. */
  function Repeat(v: nat, k: nat): (r: seq<nat>)
    ensures |r| == k
    ensures forall i :: 0 <= i < k ==> r[i] == v
  {
    if k == 0 then [] else [v] + Repeat(v, k - 1)
  }

  /** What the second loop writes from slot e of the bucket on: c[e] copies of e, then c[e+1]
      copies of e+1, and so on. */
  function FillFrom(c: seq<nat>, e: nat): seq<nat>
    decreases |c| - e
  {
    if e >= |c| then [] else Repeat(e, c[e]) + FillFrom(c, e + 1)
  }

  /** Repeat holds k copies of v and nothing else. */
  lemma {:induction false} RepeatCount(v: nat, k: nat, x: nat)
    ensures multiset(Repeat(v, k))[x] == if x == v then k else 0
  {
    if k > 0 {
      RepeatCount(v, k - 1, x);
    }
  }

  /** The fill from slot e holds c[x] copies of each x in [e, |c|) and nothing else. */
  lemma {:induction false} FillFromCount(c: seq<nat>, e: nat, x: nat)
    ensures multiset(FillFrom(c, e))[x] == if e <= x < |c| then c[x] else 0
    decreases |c| - e
  {
    if e < |c| {
      var r, rest := Repeat(e, c[e]), FillFrom(c, e + 1);
      assert multiset(FillFrom(c, e)) == multiset(r) + multiset(rest);
      FillFromCount(c, e + 1, x);
      RepeatCount(e, c[e], x);
    }
  }

  /** The fill from slot e is sorted and holds no value below e. */
  lemma {:induction false} FillFromSorted(c: seq<nat>, e: nat)
    ensures Sorted(FillFrom(c, e))
    ensures forall i :: 0 <= i < |FillFrom(c, e)| ==> e <= FillFrom(c, e)[i]
    decreases |c| - e
  {
    if e < |c| {
      FillFromSorted(c, e + 1);
      var r, rest := Repeat(e, c[e]), FillFrom(c, e + 1);
      assert FillFrom(c, e) == r + rest;
      forall i | 0 <= i < |r| + |rest| ensures e <= (r + rest)[i] {
        if i >= |r| {
          assert (r + rest)[i] == rest[i - |r|];
        }
      }
    }
  }

  /** Counting sort is correct: rewriting the list from its counts sorts it and keeps its values. */
  lemma CountingSorts(s: seq<nat>)
    requires forall i :: 0 <= i < |s| ==> s[i] < |s|
    ensures Sorted(FillFrom(CountsOf(s, |s|), 0))
    ensures multiset(FillFrom(CountsOf(s, |s|), 0)) == multiset(s)
    ensures |FillFrom(CountsOf(s, |s|), 0)| == |s|
  {
    var c := CountsOf(s, |s|);
    FillFromSorted(c, 0);
    forall x: nat ensures multiset(FillFrom(c, 0))[x] == multiset(s)[x] {
      FillFromCount(c, 0, x);
      if x >= |s| {
        assert x !in s;
      }
    }
    assert multiset(FillFrom(c, 0)) == multiset(s);
    assert |multiset(FillFrom(c, 0))| == |multiset(s)|;
  }

  /** The first loop of `counting`: count the occurrences of each value in a fresh bucket. */
  method Tally(list: array<nat>) returns (bucket: array<nat>)
    requires forall i :: 0 <= i < list.Length ==> list[i] < list.Length
    ensures fresh(bucket)
    ensures bucket[..] == CountsOf(list[..], list.Length)
  {
    var n := list.Length;
    bucket := new nat[n](_ => 0);
    var i := 0;
    while i < n
      invariant 0 <= i <= n && bucket.Length == n
      invariant forall v :: 0 <= v < n ==> bucket[v] == multiset(list[..i])[v]
    {
      assert list[..i + 1] == list[..i] + [list[i]];
      bucket[list[i]] := bucket[list[i]] + 1;
      i := i + 1;
    }
    assert list[..i] == list[..];
  }

  /** Unfolding the fill by one copy of e. */
  lemma TakeCopy(done: seq<nat>, e: nat, j: nat, rest: seq<nat>, whole: seq<nat>)
    requires j > 0 && done + (Repeat(e, j) + rest) == whole
    ensures (done + [e]) + (Repeat(e, j - 1) + rest) == whole
  {
    assert Repeat(e, j) == [e] + Repeat(e, j - 1);
  }

  /** The inner loop of `counting`'s second loop: write e `count` times from index i on. */
  method WriteCopies(list: array<nat>, e: nat, count: nat, i: nat, ghost done: seq<nat>,
                     ghost rest: seq<nat>, ghost whole: seq<nat>)
    returns (i': nat, ghost done': seq<nat>)
    requires |whole| == list.Length && i == |done|
    requires done + (Repeat(e, count) + rest) == whole
    requires forall k :: 0 <= k < i ==> list[k] == done[k]
    modifies list
    ensures done' + rest == whole && i' == |done'|
    ensures forall k :: 0 <= k < i' ==> list[k] == done'[k]
  {
    i', done' := i, done;
    var j := count;
    while j > 0
      invariant done' + (Repeat(e, j) + rest) == whole
      invariant i' == |done'|
      invariant forall k :: 0 <= k < i' ==> list[k] == done'[k]
    {
      TakeCopy(done', e, j, rest, whole);
      list[i'] := e;
      done' := done' + [e];
      i' := i' + 1;
      j := j - 1;
    }
  }

  /** The second loop of `counting`: for each slot e of the bucket, write e as many times as it
      was counted, left to right over the list. */
  method Rewrite(list: array<nat>, bucket: array<nat>)
    requires list != bucket
    requires |FillFrom(bucket[..], 0)| == list.Length
    modifies list
    ensures list[..] == FillFrom(bucket[..], 0)
  {
    ghost var c := bucket[..];
    ghost var whole := FillFrom(c, 0);
    ghost var done: seq<nat> := [];
    var i := 0;
    var e := 0;
    while e < bucket.Length
      invariant 0 <= e <= bucket.Length && i == |done| && bucket[..] == c
      invariant done + FillFrom(c, e) == whole
      invariant forall k :: 0 <= k < i ==> list[k] == done[k]
    {
      i, done := WriteCopies(list, e, bucket[e], i, done, FillFrom(c, e + 1), whole);
      e := e + 1;
    }
    assert list[..] == done;
  }

  /** `counting`: sorts the list in place and returns it. */
  method CountingHelper(list: array<nat>) returns (r: array<nat>)
    requires forall i :: 0 <= i < list.Length ==> list[i] < list.Length
    modifies list
    ensures r == list
    ensures Sorted(list[..])
    ensures multiset(list[..]) == old(multiset(list[..]))
  {
    CountingSorts(list[..]);
    var bucket := Tally(list);
    Rewrite(list, bucket);
    r := list;
  }

  /** `Counting`: sorts a copy; the argument is only read. */
  method Counting(list: array<nat>) returns (cpy: array<nat>)
    requires forall i :: 0 <= i < list.Length ==> list[i] < list.Length
    ensures fresh(cpy)
    ensures Sorted(cpy[..])
    ensures multiset(cpy[..]) == multiset(list[..])
  {
    cpy := new nat[list.Length](i requires 0 <= i < list.Length reads list => list[i]);
    assert cpy[..] == list[..];
    cpy := CountingHelper(cpy);
  }

  /** `InPlaceCounting`: sorts the list it is given and returns it. */
  method InPlaceCounting(list: array<nat>) returns (r: array<nat>)
    requires forall i :: 0 <= i < list.Length ==> list[i] < list.Length
    modifies list
    ensures r == list
    ensures Sorted(list[..])
    ensures multiset(list[..]) == old(multiset(list[..]))
  {
    r := CountingHelper(list);
  }
}
