/** The three Fibonacci variants of a/fibonacci/fibonacci.go. Go's `int` is modelled as an
    unbounded integer (the source wraps around past fib(92)). */
module Fibonacci {

  /** Plain recursion: `n` itself for n <= 1 (negative arguments included), else the sum of the
      two previous values. This is also the reference the other two variants are proved against.
      The result is negative exactly for a negative argument. */
  function BruteForce(n: int): (f: int)
    ensures f < 0 <==> n < 0
    decreases if n < 0 then 0 else n
  {
    if n <= 1 then n else BruteForce(n - 1) + BruteForce(n - 2)
  }

  /** Every Fibonacci number from index 1 on is positive, so a zero cache cell in `memoization`
      can safely mean "not computed yet". */
  lemma {:induction false} BruteForcePositive(n: int)
    requires n >= 1
    ensures BruteForce(n) >= 1
    decreases n
  {
    if n > 2 {
      BruteForcePositive(n - 1);
      BruteForcePositive(n - 2);
    }
  }

  /** The sequence grows: each value from index 1 on is at least the one before it. */
  lemma {:induction false} BruteForceMonotone(n: int)
    requires n >= 1
    ensures BruteForce(n - 1) <= BruteForce(n)
  {
    if n >= 3 {
      BruteForcePositive(n - 2);
    }
  }

  /** Values listed in a/fibonacci/fibonacci_test.go. */
  lemma BruteForceExamples()
    ensures BruteForce(0) == 0 && BruteForce(1) == 1 && BruteForce(5) == 5
    ensures BruteForce(7) == 13 && BruteForce(10) == 55
  {
  }

  /** The memo table is sound: every cell holds 0 ("unset") or the right Fibonacci number. */
  ghost predicate CacheSound(cache: array<int>)
    reads cache
  {
    forall i :: 0 <= i < cache.Length ==> cache[i] == 0 || cache[i] == BruteForce(i)
  }

  /** `memoization(n, cache)`: recursion that reads and fills the shared cache. */
  method Memoize(n: int, cache: array<int>) returns (r: int)
    requires n < cache.Length
    requires CacheSound(cache)
    modifies cache
    ensures CacheSound(cache)
    ensures r == BruteForce(n)
    decreases if n < 0 then 0 else n
  {
    if n <= 1 {
      return n;
    }
    if cache[n] > 0 {
      return cache[n];
    }
    var a := Memoize(n - 1, cache);
    var b := Memoize(n - 2, cache);
    cache[n] := a + b;
    r := cache[n];
  }

  /** `Memoization(n)`: allocates a cache of n+1 zeroed cells, so n must be at least -1 (a
      negative length makes `make` panic). */
  method Memoization(n: int) returns (r: int)
    requires n >= -1
    ensures r == BruteForce(n)
  {
    var cache := new int[n + 1](_ => 0);
    r := Memoize(n, cache);
  }

  /** `BottomUp(n)`: a two-cell window slides up from [fib(0), fib(1)]. */
  method BottomUp(n: int) returns (r: int)
    ensures r == BruteForce(n)
  {
    if n <= 1 {
      return n;
    }
    var s := new int[2];
    s[0], s[1] := 0, 1;
    var i := 2;
    while i <= n
      invariant 2 <= i <= n + 1
      invariant s[0] == BruteForce(i - 2) && s[1] == BruteForce(i - 1)
    {
      var tmp := s[1];
      s[1] := s[0] + s[1];
      s[0] := tmp;
      i := i + 1;
    }
    r := s[1];
  }
}
