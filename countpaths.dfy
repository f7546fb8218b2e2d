/** Lattice path counting of a/countpaths/countpaths.go: paths that only move down (r+1) or right
    (c+1) inside a possibly ragged grid. Only the grid's shape is ever consulted. Rows are natural
    numbers: a negative row makes the Go code panic on `grid[r]`. */
module CountPaths {

  /** True when (r, c) lies outside the grid; rows may have different lengths. */
  predicate OutOfBounds(r: nat, c: nat, grid: seq<seq<int>>) {
    r >= |grid| || c >= |grid[r]|
  }

  /** `BruteForce`: stops with 1 as soon as the row OR the column of the destination is reached.
      The column is never used as an index, so a negative column is walked like any other. */
  function BruteForce(r: nat, c: int, destR: int, destC: int, grid: seq<seq<int>>): (n: nat)
    ensures c >= 0 ==> Paths(r, c, destR, destC, grid) <= n
    decreases |grid| - r, if r < |grid| then |grid[r]| - c else 0
  {
    if r >= |grid| || c >= |grid[r]| then 0
    else if r == destR || c == destC then
      PathsOnDestinationLine(r, c, destR, destC, grid);
      1
    else BruteForce(r + 1, c, destR, destC, grid) + BruteForce(r, c + 1, destR, destC, grid)
  }

  /** The lattice recurrence that `topDown` memoises: 1 exactly at the destination, 0 outside the
      grid, otherwise the paths through the cell below plus those through the cell to the right. */
  function Paths(r: nat, c: nat, destR: int, destC: int, grid: seq<seq<int>>): (n: nat)
    ensures n > 0 ==> r <= destR && c <= destC && destR < |grid| && 0 <= destC < |grid[destR]|
    decreases |grid| - r, if r < |grid| then |grid[r]| - c else 0
  {
    if OutOfBounds(r, c, grid) then 0
    else if r == destR && c == destC then 1
    else Paths(r + 1, c, destR, destC, grid) + Paths(r, c + 1, destR, destC, grid)
  }

  /** On the destination's row or column at most one path is left: the straight run to it. */
  lemma {:induction false} PathsOnDestinationLine(r: nat, c: int, destR: int, destC: int, grid: seq<seq<int>>)
    requires r == destR || c == destC
    ensures c >= 0 ==> Paths(r, c, destR, destC, grid) <= 1
    decreases |grid| - r, if r < |grid| then |grid[r]| - c else 0
  {
    if c >= 0 && !OutOfBounds(r, c, grid) && !(r == destR && c == destC) {
      if r == destR {
        PathsOnDestinationLine(r, c + 1, destR, destC, grid);
      } else {
        PathsOnDestinationLine(r + 1, c, destR, destC, grid);
      }
    }
  }

  /** Binomial coefficient by Pascal's rule: the independent count of monotone lattice paths. */
  function Choose(n: nat, k: nat): nat
    decreases n
  {
    if k == 0 || k == n then 1
    else if k > n then 0
    else Choose(n - 1, k - 1) + Choose(n - 1, k)
  }

  /** Every row of the grid has exactly `width` cells. */
  predicate Rectangular(grid: seq<seq<int>>, width: nat) {
    forall i :: 0 <= i < |grid| ==> |grid[i]| == width
  }

  /** Two grids with the same row count and the same row lengths. */
  predicate SameShape(g: seq<seq<int>>, h: seq<seq<int>>) {
    |g| == |h| && forall i :: 0 <= i < |g| ==> |g[i]| == |h[i]|
  }

  /** Cell values are never read: `Paths` depends on the grid's shape only. */
  lemma {:induction false} PathsIgnoresCells(r: nat, c: nat, destR: int, destC: int, g: seq<seq<int>>, h: seq<seq<int>>)
    requires SameShape(g, h)
    ensures Paths(r, c, destR, destC, g) == Paths(r, c, destR, destC, h)
    decreases |g| - r, if r < |g| then |g[r]| - c else 0
  {
    if !OutOfBounds(r, c, g) && !(r == destR && c == destC) {
      PathsIgnoresCells(r + 1, c, destR, destC, g, h);
      PathsIgnoresCells(r, c + 1, destR, destC, g, h);
    }
  }

  /** Moving away from the destination (below it or to its right) leaves no path. */
  lemma {:induction false} PathsPastDestination(r: nat, c: nat, destR: int, destC: int, grid: seq<seq<int>>)
    requires r > destR || c > destC
    ensures Paths(r, c, destR, destC, grid) == 0
    decreases |grid| - r, if r < |grid| then |grid[r]| - c else 0
  {
    if !OutOfBounds(r, c, grid) {
      PathsPastDestination(r + 1, c, destR, destC, grid);
      PathsPastDestination(r, c + 1, destR, destC, grid);
    }
  }

  /** In a rectangular grid that contains the destination, the number of paths from a cell above
      and to the left of it is the binomial coefficient C(dr + dc, dr). */
  lemma {:induction false} PathsIsBinomial(r: nat, c: nat, destR: nat, destC: nat, grid: seq<seq<int>>, width: nat)
    requires Rectangular(grid, width) && destR < |grid| && destC < width
    requires r <= destR && c <= destC
    ensures Paths(r, c, destR, destC, grid) == Choose((destR - r) + (destC - c), destR - r)
    decreases (destR - r) + (destC - c)
  {
    if r == destR && c == destC {
    } else if r == destR {
      PathsIsBinomial(r, c + 1, destR, destC, grid, width);
      PathsPastDestination(r + 1, c, destR, destC, grid);
    } else if c == destC {
      PathsIsBinomial(r + 1, c, destR, destC, grid, width);
      PathsPastDestination(r, c + 1, destR, destC, grid);
    } else {
      PathsIsBinomial(r + 1, c, destR, destC, grid, width);
      PathsIsBinomial(r, c + 1, destR, destC, grid, width);
    }
  }

  /** From a cell above and to the left of the destination, the `||` shortcut of `BruteForce` is
      harmless: on the destination's row (or column) exactly one path is left. */
  lemma {:induction false} BruteForceAgreesInsideRectangle(r: nat, c: nat, destR: nat, destC: nat, grid: seq<seq<int>>, width: nat)
    requires Rectangular(grid, width) && destR < |grid| && destC < width
    requires r <= destR && c <= destC
    ensures BruteForce(r, c, destR, destC, grid) == Paths(r, c, destR, destC, grid)
    decreases (destR - r) + (destC - c)
  {
    if r == destR && c == destC {
    } else if r == destR {
      PathsIsBinomial(r, c, destR, destC, grid, width);
    } else if c == destC {
      PathsIsBinomial(r, c, destR, destC, grid, width);
    } else {
      BruteForceAgreesInsideRectangle(r + 1, c, destR, destC, grid, width);
      BruteForceAgreesInsideRectangle(r, c + 1, destR, destC, grid, width);
    }
  }

  /** Outside that region the two variants differ: on the destination's row but to its right,
      `BruteForce` reports a path where there is none. */
  lemma BruteForceDivergesRightOfDestination()
    ensures BruteForce(0, 1, 0, 0, [[0, 0]]) == 1
    ensures Paths(0, 1, 0, 0, [[0, 0]]) == 0
  {
  }

  /** A negative start column is in bounds for `BruteForce`: on two one-cell rows towards (1, 5),
      from column -2 it walks right through -1 and 0 and counts three paths. */
  lemma BruteForceWalksNegativeColumns()
    ensures BruteForce(0, -2, 1, 5, [[0], [0]]) == 3
  {
    assert BruteForce(0, 0, 1, 5, [[0], [0]]) == 1;
    assert BruteForce(0, -1, 1, 5, [[0], [0]]) == 2;
  }

  /** Values listed in a/countpaths/countpaths_test.go, on a full 4x4 grid towards (3, 3). */
  lemma TopDownExamples(grid: seq<seq<int>>)
    requires |grid| == 4 && Rectangular(grid, 4)
    ensures Paths(2, 2, 3, 3, grid) == 2
    ensures Paths(1, 1, 3, 3, grid) == 6
    ensures Paths(0, 0, 3, 3, grid) == 20
  {
    PathsIsBinomial(2, 2, 3, 3, grid, 4);
    PathsIsBinomial(1, 1, 3, 3, grid, 4);
    PathsIsBinomial(0, 0, 3, 3, grid, 4);
  }

  /** The cache has one row per grid row, wide enough for the longest row. */
  ghost predicate CacheShaped(cache: array2<int>, grid: seq<seq<int>>) {
    cache.Length0 == |grid| && forall i :: 0 <= i < |grid| ==> |grid[i]| <= cache.Length1
  }

  /** Every cache cell inside the grid is 0 ("unset") or the number of paths from that cell. */
  ghost predicate CacheSound(cache: array2<int>, destR: int, destC: int, grid: seq<seq<int>>)
    reads cache
    requires CacheShaped(cache, grid)
  {
    forall i, j :: 0 <= i < |grid| && 0 <= j < |grid[i]| ==>
      cache[i, j] == 0 || cache[i, j] == Paths(i, j, destR, destC, grid)
  }

  /** `topDown`: the memoised recursion over the shared cache. */
  method TopDownRec(r: nat, c: nat, destR: int, destC: int, grid: seq<seq<int>>, cache: array2<int>) returns (n: int)
    requires CacheShaped(cache, grid) && CacheSound(cache, destR, destC, grid)
    modifies cache
    ensures CacheSound(cache, destR, destC, grid)
    ensures n == Paths(r, c, destR, destC, grid)
    decreases |grid| - r, if r < |grid| then |grid[r]| - c else 0
  {
    if OutOfBounds(r, c, grid) {
      return 0;
    }
    if r == destR && c == destC {
      return 1;
    }
    if cache[r, c] > 0 {
      return cache[r, c];
    }
    var down := TopDownRec(r + 1, c, destR, destC, grid, cache);
    var right := TopDownRec(r, c + 1, destR, destC, grid, cache);
    cache[r, c] := down + right;
    n := cache[r, c];
  }

  /** The widest row of the grid. */
  function MaxWidth(grid: seq<seq<int>>): (w: nat)
    ensures forall i :: 0 <= i < |grid| ==> |grid[i]| <= w
  {
    if grid == [] then 0
    else var w := MaxWidth(grid[1..]); if |grid[0]| > w then |grid[0]| else w
  }

  /** `TopDown`: a zeroed cache shaped like the grid, then the memoised recursion. */
  method TopDown(r: nat, c: nat, destR: int, destC: int, grid: seq<seq<int>>) returns (n: int)
    ensures n == Paths(r, c, destR, destC, grid)
  {
    var cache := new int[|grid|, MaxWidth(grid)]((_, _) => 0);
    n := TopDownRec(r, c, destR, destC, grid, cache);
  }
}
