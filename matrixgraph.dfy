/** The grid graph of ds/matrixgraph.go: a matrix of booleans, `true` for a cell that can be
    walked on, whose neighbours are the four cells above, below, left and right. Rows may have
    different lengths. The graph is never changed after `NewMatrixGraph`, so it is a value. */
module MatrixGraphs {
  import opened PathSets

  datatype MatrixGraph = MatrixGraph(matrix: seq<seq<bool>>)

  /** `NewMatrixGraph`: the graph over the given matrix, which it keeps as it is. */
  function NewMatrixGraph(matrix: seq<seq<bool>>): (g: MatrixGraph)
    ensures g.matrix == matrix
  {
    MatrixGraph(matrix)
  }

  // ----- Stringify -----

  function CellText(b: bool): string {
    if b then "1 " else "0 "
  }

  /** The cells of one row, "1 " or "0 " each. */
  function RowText(row: seq<bool>): string {
    if row == [] then "" else CellText(row[0]) + RowText(row[1..])
  }

  /** The whole matrix, row after row, each row followed by a newline. */
  function Render(rows: seq<seq<bool>>): string {
    if rows == [] then "" else RowText(rows[0]) + "\n" + Render(rows[1..])
  }

  lemma {:induction false} RowTextSnoc(row: seq<bool>, b: bool)
    ensures RowText(row + [b]) == RowText(row) + CellText(b)
  {
    if row != [] {
      assert (row + [b])[1..] == row[1..] + [b];
      RowTextSnoc(row[1..], b);
    }
  }

  lemma {:induction false} RenderSnoc(rows: seq<seq<bool>>, row: seq<bool>)
    ensures Render(rows + [row]) == Render(rows) + RowText(row) + "\n"
  {
    if rows != [] {
      assert (rows + [row])[1..] == rows[1..] + [row];
      RenderSnoc(rows[1..], row);
    }
  }

  /** The inner loop of `Stringify`: "1 " or "0 " appended for each cell of the row. */
  method AppendCells(str: string, row: seq<bool>) returns (out: string)
    ensures out == str + RowText(row)
  {
    out := str;
    var j := 0;
    while j < |row|
      invariant 0 <= j <= |row| && out == str + RowText(row[..j])
    {
      RowTextSnoc(row[..j], row[j]);
      assert row[..j + 1] == row[..j] + [row[j]];
      if row[j] {
        out := out + "1 ";
      } else {
        out := out + "0 ";
      }
      j := j + 1;
    }
    assert row[..j] == row;
  }

  /** `Stringify`: each row's cells, then a newline, row after row. */
  method Stringify(g: MatrixGraph) returns (str: string)
    ensures str == Render(g.matrix)
  {
    var m := g.matrix;
    str := "";
    var i := 0;
    while i < |m|
      invariant 0 <= i <= |m| && str == Render(m[..i])
    {
      str := AppendCells(str, m[i]);
      str := str + "\n";
      RenderSnoc(m[..i], m[i]);
      assert m[..i + 1] == m[..i] + [m[i]];
      i := i + 1;
    }
    assert m[..i] == m;
  }

  /** Reads one row back: a cell per two characters, up to and past the newline. */
  function ParseRow(s: string): (r: (seq<bool>, string))
    ensures s != [] ==> |r.1| < |s|
    decreases |s|
  {
    if s == [] then ([], [])
    else if s[0] == '\n' then ([], s[1..])
    else if |s| == 1 then ([], [])
    else
      var rest := ParseRow(s[2..]);
      ([s[0] == '1'] + rest.0, rest.1)
  }

  /** Reads the rows back. */
  function ParseRows(s: string): seq<seq<bool>>
    decreases |s|
  {
    if s == [] then [] else var r := ParseRow(s); [r.0] + ParseRows(r.1)
  }

  lemma {:induction false} ParseRowText(row: seq<bool>, rest: string)
    ensures ParseRow(RowText(row) + "\n" + rest) == (row, rest)
  {
    var s := RowText(row) + "\n" + rest;
    if row == [] {
      assert s == "\n" + rest;
    } else {
      assert s == CellText(row[0]) + (RowText(row[1..]) + "\n" + rest);
      assert s[0] == (if row[0] then '1' else '0');
      assert s[2..] == RowText(row[1..]) + "\n" + rest;
      ParseRowText(row[1..], rest);
      assert [row[0]] + row[1..] == row;
    }
  }

  /** The text `Stringify` produces determines the matrix: reading it back gives the matrix. */
  lemma {:induction false} StringifyRoundTrip(rows: seq<seq<bool>>)
    ensures ParseRows(Render(rows)) == rows
  {
    if rows != [] {
      ParseRowText(rows[0], Render(rows[1..]));
      StringifyRoundTrip(rows[1..]);
    }
  }

  /** The grid of the matrix graph tests. */
  function ExampleGrid(): seq<seq<bool>> {
    [ [true, true, true, true],
      [false, false, true, true],
      [true, true, true, false],
      [true, false, true, true] ]
  }

  /** A row of four cells renders as its four cells. */
  lemma RowTextFour(x0: bool, x1: bool, x2: bool, x3: bool)
    ensures RowText([x0, x1, x2, x3]) == CellText(x0) + (CellText(x1) + (CellText(x2) + CellText(x3)))
  {
    var r1, r2, r3 := [x3], [x2, x3], [x1, x2, x3];
    assert r1[0] == x3 && r1[1..] == [];
    assert RowText(r1) == CellText(x3);
    assert r2[0] == x2 && r2[1..] == r1;
    assert RowText(r2) == CellText(x2) + CellText(x3);
    assert r3[0] == x1 && r3[1..] == r2;
    assert RowText(r3) == CellText(x1) + (CellText(x2) + CellText(x3));
    assert [x0, x1, x2, x3][1..] == r3;
  }

  /** The line of the first row of the example grid. */
  lemma FirstLine()
    ensures RowText([true, true, true, true]) + "\n" == "1 1 1 1 \n"
  {
    RowTextFour(true, true, true, true);
  }

  /** The line of the second row. */
  lemma SecondLine()
    ensures RowText([false, false, true, true]) + "\n" == "0 0 1 1 \n"
  {
    RowTextFour(false, false, true, true);
  }

  /** The line of the third row. */
  lemma ThirdLine()
    ensures RowText([true, true, true, false]) + "\n" == "1 1 1 0 \n"
  {
    RowTextFour(true, true, true, false);
  }

  /** The line of the fourth row. */
  lemma FourthLine()
    ensures RowText([true, false, true, true]) + "\n" == "1 0 1 1 \n"
  {
    RowTextFour(true, false, true, true);
  }

  /** A grid renders as its first row's line followed by the rest. */
  lemma RenderCons(rows: seq<seq<bool>>)
    requires rows != []
    ensures Render(rows) == (RowText(rows[0]) + "\n") + Render(rows[1..])
  {
  }

  /** The text the Stringify test expects for that grid: its four lines one after another. */
  lemma StringifyExample()
    ensures Render(ExampleGrid()) == "1 1 1 1 \n" + ("0 0 1 1 \n" + ("1 1 1 0 \n" + "1 0 1 1 \n"))
  {
    var g := ExampleGrid();
    FirstLine();
    SecondLine();
    ThirdLine();
    FourthLine();
    var g1, g2, g3 := g[1..], g[2..], g[3..];
    assert g3[0] == [true, false, true, true] && g3[1..] == [];
    RenderCons(g3);
    assert g2[0] == [true, true, true, false] && g2[1..] == g3;
    RenderCons(g2);
    assert g1[0] == [false, false, true, true] && g1[1..] == g2;
    RenderCons(g1);
    assert g[0] == [true, true, true, true];
    RenderCons(g);
  }

  // ----- nodeKey -----

  function DigitChar(d: int): char
    requires 0 <= d < 10
  {
    ('0' as int + d) as char
  }

  /** `%d` of a non-negative number: its decimal digits, most significant first. */
  function Digits(n: nat): (s: string)
    ensures |s| >= 1 && forall i :: 0 <= i < |s| ==> '0' <= s[i] <= '9'
  {
    if n < 10 then [DigitChar(n)] else Digits(n / 10) + [DigitChar(n % 10)]
  }

  /** Different numbers print differently. */
  lemma {:induction false} DigitsInjective(a: nat, b: nat)
    requires Digits(a) == Digits(b)
    ensures a == b
  {
    DigitsOfSmall(a);
    DigitsOfSmall(b);
    if a >= 10 && b >= 10 {
      var da, db := Digits(a / 10), Digits(b / 10);
      assert Digits(a)[..|da|] == da && Digits(b)[..|db|] == db;
      DigitsInjective(a / 10, b / 10);
    }
  }

  /** One digit exactly for the numbers below ten. */
  lemma DigitsOfSmall(n: nat)
    ensures |Digits(n)| == 1 <==> n < 10
  {
    if n >= 10 {
      assert |Digits(n / 10)| >= 1;
    }
  }

  /** `nodeKey`, as written: `"%d%d"`, the two numbers printed with nothing between them. The
      search only asks for keys of cells inside the grid, whose coordinates are never negative.
      The key is all digits, at least two of them, and exactly two for one-digit coordinates. */
  function NodeKey(row: nat, col: nat): (k: string)
    ensures |k| >= 2 && forall i :: 0 <= i < |k| ==> '0' <= k[i] <= '9'
    ensures row < 10 && col < 10 ==> |k| == 2
  {
    Digits(row) + Digits(col)
  }

  /** Different cells can share a key: (1, 23) and (12, 3) both print as "123", so visiting one
      marks the other visited as well. */
  lemma NodeKeyCollides()
    ensures (1, 23) != (12, 3) && NodeKey(1, 23) == NodeKey(12, 3) == "123"
  {
  }

  /** `nodeKey`, corrected: the numbers separated by a character no number prints. */
  function CellKey(row: nat, col: nat): string {
    Digits(row) + "," + Digits(col)
  }

  /** Two strings without commas are recovered from their comma-joined form. */
  lemma SplitAtComma(a: string, b: string, c: string, d: string)
    requires ',' !in a && ',' !in c && a + "," + b == c + "," + d
    ensures a == c && b == d
  {
    var s := a + "," + b;
    FirstComma(a, b);
    FirstComma(c, d);
    assert |a| == |c|;
    assert a == s[..|a|] && c == s[..|c|];
    assert b == s[|a| + 1..] && d == s[|c| + 1..];
  }

  /** In a + "," + b, with no comma in a, the first comma is at |a|. */
  lemma FirstComma(a: string, b: string)
    requires ',' !in a
    ensures (a + "," + b)[|a|] == ','
    ensures forall i :: 0 <= i < |a| ==> (a + "," + b)[i] != ','
  {
    forall i | 0 <= i < |a| ensures (a + "," + b)[i] != ',' {
      assert (a + "," + b)[i] == a[i];
    }
  }

  /** The corrected key tells every cell apart. */
  lemma CellKeyInjective(a: nat, b: nat, c: nat, d: nat)
    requires CellKey(a, b) == CellKey(c, d)
    ensures a == c && b == d
  {
    assert ',' !in Digits(a) && ',' !in Digits(c);
    SplitAtComma(Digits(a), Digits(b), Digits(c), Digits(d));
    DigitsInjective(a, c);
    DigitsInjective(b, d);
  }

  // ----- numPaths -----

  type Cell = (int, int)

  /** (r, c) is inside the grid and can be walked on. */
  predicate Open(m: seq<seq<bool>>, r: int, c: int) {
    0 <= r < |m| && 0 <= c < |m[r]| && m[r][c]
  }

  /** Every cell inside the grid. */
  ghost function Cells(m: seq<seq<bool>>): set<Cell> {
    set r, c | 0 <= r < |m| && 0 <= c < |m[r]| :: (r, c)
  }

  /** The number of paths `numPaths` counts from (r, c) when the cells of V are on the current
      path: none from a cell outside the grid, blocked or already on the path; one at the
      destination; otherwise those through the cells below, above, right and left, in turn,
      with (r, c) added to the path. */
  ghost function Count(m: seq<seq<bool>>, dest: Cell, r: int, c: int, V: set<Cell>): nat
    decreases |Cells(m) - V|
  {
    if !Open(m, r, c) || (r, c) in V then 0
    else if (r, c) == dest then 1
    else
      assert (r, c) in Cells(m);
      MarkShrinks(Cells(m), V, (r, c));
      var W := V + {(r, c)};
      Count(m, dest, r + 1, c, W) + Count(m, dest, r - 1, c, W)
        + Count(m, dest, r, c + 1, W) + Count(m, dest, r, c - 1, W)
  }

  /** The same recursion collecting the paths themselves instead of counting them. */
  ghost function PathsFrom(m: seq<seq<bool>>, dest: Cell, r: int, c: int, V: set<Cell>): set<seq<Cell>>
    decreases |Cells(m) - V|
  {
    if !Open(m, r, c) || (r, c) in V then {}
    else if (r, c) == dest then {[(r, c)]}
    else
      assert (r, c) in Cells(m);
      MarkShrinks(Cells(m), V, (r, c));
      var W := V + {(r, c)};
      Prepend((r, c), PathsFrom(m, dest, r + 1, c, W)) + Prepend((r, c), PathsFrom(m, dest, r - 1, c, W))
        + Prepend((r, c), PathsFrom(m, dest, r, c + 1, W)) + Prepend((r, c), PathsFrom(m, dest, r, c - 1, W))
  }

  ghost predicate Adjacent(a: Cell, b: Cell) {
    b == (a.0 + 1, a.1) || b == (a.0 - 1, a.1) || b == (a.0, a.1 + 1) || b == (a.0, a.1 - 1)
  }

  /** A simple path to dest avoiding V: open cells outside V, each next to the one before, none
      twice, ending at dest. */
  ghost predicate SimplePath(m: seq<seq<bool>>, dest: Cell, p: seq<Cell>, V: set<Cell>) {
    && |p| >= 1 && p[|p| - 1] == dest
    && (forall i :: 0 <= i < |p| ==> Open(m, p[i].0, p[i].1) && p[i] !in V)
    && (forall i, j :: 0 <= i < j < |p| ==> p[i] != p[j])
    && (forall i :: 0 < i < |p| ==> Adjacent(p[i - 1], p[i]))
  }

  /** A simple path from x with one more cell in front is a simple path when that cell is
      open, outside V and next to x. */
  lemma PrependSimple(m: seq<seq<bool>>, dest: Cell, x: Cell, q: seq<Cell>, V: set<Cell>)
    requires Open(m, x.0, x.1) && x !in V
    requires SimplePath(m, dest, q, V + {x}) && Adjacent(x, q[0])
    ensures SimplePath(m, dest, [x] + q, V)
  {
    var p := [x] + q;
    forall i, j | 0 <= i < j < |p| ensures p[i] != p[j] {
      if i > 0 {
        assert p[i] == q[i - 1] && p[j] == q[j - 1];
      } else {
        assert p[j] == q[j - 1];
      }
    }
    forall i | 0 < i < |p| ensures Adjacent(p[i - 1], p[i]) {
      if i > 1 {
        assert p[i - 1] == q[i - 2] && p[i] == q[i - 1];
      }
    }
  }

  /** Dropping the first cell of a simple path that does not start at dest leaves a simple path
      from a neighbour, avoiding the dropped cell too. */
  lemma TailSimple(m: seq<seq<bool>>, dest: Cell, p: seq<Cell>, V: set<Cell>)
    requires SimplePath(m, dest, p, V) && p[0] != dest
    ensures |p| >= 2 && Adjacent(p[0], p[1]) && SimplePath(m, dest, p[1..], V + {p[0]})
  {
    var q := p[1..];
    forall i | 0 <= i < |q| ensures q[i] != p[0] {
      assert q[i] == p[i + 1];
    }
    forall i | 0 < i < |q| ensures Adjacent(q[i - 1], q[i]) {
      assert q[i - 1] == p[i] && q[i] == p[i + 1];
    }
  }

  /** What a simple path says about its first cell, and that dest comes only at its end. */
  lemma SimpleFacts(m: seq<seq<bool>>, dest: Cell, p: seq<Cell>, V: set<Cell>)
    requires SimplePath(m, dest, p, V)
    ensures Open(m, p[0].0, p[0].1) && p[0] !in V
    ensures forall i :: 0 <= i < |p| - 1 ==> p[i] != dest
  {
  }

  /** At an open destination outside V, the one-cell path is the only simple path. */
  lemma OnlyPathAtDest(m: seq<seq<bool>>, dest: Cell, p: seq<Cell>, V: set<Cell>)
    requires Open(m, dest.0, dest.1) && dest !in V
    ensures SimplePath(m, dest, p, V) && p[0] == dest <==> p == [dest]
  {
    if SimplePath(m, dest, p, V) && p[0] == dest {
      SimpleFacts(m, dest, p, V);
      assert |p| == 1;
      assert p == [dest];
    }
  }

  /** A path collected at an open, unvisited cell other than dest goes on through one of the
      cell's four neighbours. */
  lemma StepOut(m: seq<seq<bool>>, dest: Cell, r: int, c: int, V: set<Cell>, p: seq<Cell>) returns (nb: Cell)
    requires Open(m, r, c) && (r, c) !in V && (r, c) != dest
    requires p in PathsFrom(m, dest, r, c, V)
    ensures Adjacent((r, c), nb) && p in Prepend((r, c), PathsFrom(m, dest, nb.0, nb.1, V + {(r, c)}))
  {
    var x, W := (r, c), V + {(r, c)};
    var down, up := Prepend(x, PathsFrom(m, dest, r + 1, c, W)), Prepend(x, PathsFrom(m, dest, r - 1, c, W));
    var right, left := Prepend(x, PathsFrom(m, dest, r, c + 1, W)), Prepend(x, PathsFrom(m, dest, r, c - 1, W));
    assert PathsFrom(m, dest, r, c, V) == down + up + right + left;
    if p in down {
      nb := (r + 1, c);
    } else if p in up {
      nb := (r - 1, c);
    } else if p in right {
      nb := (r, c + 1);
    } else {
      nb := (r, c - 1);
    }
  }

  /** At an open, unvisited cell other than dest, a path through any neighbour is collected. */
  lemma StepIn(m: seq<seq<bool>>, dest: Cell, r: int, c: int, nb: Cell, V: set<Cell>, p: seq<Cell>)
    requires Open(m, r, c) && (r, c) !in V && (r, c) != dest && Adjacent((r, c), nb)
    requires p in Prepend((r, c), PathsFrom(m, dest, nb.0, nb.1, V + {(r, c)}))
    ensures p in PathsFrom(m, dest, r, c, V)
  {
    var x, W := (r, c), V + {(r, c)};
    var down, up := Prepend(x, PathsFrom(m, dest, r + 1, c, W)), Prepend(x, PathsFrom(m, dest, r - 1, c, W));
    var right, left := Prepend(x, PathsFrom(m, dest, r, c + 1, W)), Prepend(x, PathsFrom(m, dest, r, c - 1, W));
    assert PathsFrom(m, dest, r, c, V) == down + up + right + left;
    assert p in down || p in up || p in right || p in left;
  }

  /** Every path PathsFrom collects is a simple path from (r, c). */
  lemma {:induction false} PathsFromSound(m: seq<seq<bool>>, dest: Cell, r: int, c: int, V: set<Cell>, p: seq<Cell>)
    requires p in PathsFrom(m, dest, r, c, V)
    ensures SimplePath(m, dest, p, V) && p[0] == (r, c)
    decreases |Cells(m) - V|, 1
  {
    var x := (r, c);
    if Open(m, r, c) && x !in V && x != dest {
      var nb := StepOut(m, dest, r, c, V, p);
      ViaNeighbour(m, dest, x, nb, V, p);
    }
  }

  /** Every simple path from (r, c) is collected by PathsFrom. */
  lemma {:induction false} PathsFromComplete(m: seq<seq<bool>>, dest: Cell, r: int, c: int, V: set<Cell>, p: seq<Cell>)
    requires SimplePath(m, dest, p, V) && p[0] == (r, c)
    ensures p in PathsFrom(m, dest, r, c, V)
    decreases |Cells(m) - V|, 1
  {
    var x := (r, c);
    SimpleFacts(m, dest, p, V);
    if x == dest {
      OnlyPathAtDest(m, dest, p, V);
    } else {
      TailSimple(m, dest, p, V);
      BackViaNeighbour(m, dest, x, p[1], V, p);
      StepIn(m, dest, r, c, p[1], V, p);
    }
  }

  /** PathsFrom holds exactly the simple paths from (r, c) to dest avoiding V. */
  lemma PathsFromExactly(m: seq<seq<bool>>, dest: Cell, r: int, c: int, V: set<Cell>, p: seq<Cell>)
    ensures p in PathsFrom(m, dest, r, c, V) <==> SimplePath(m, dest, p, V) && p[0] == (r, c)
  {
    if p in PathsFrom(m, dest, r, c, V) {
      PathsFromSound(m, dest, r, c, V, p);
    }
    if SimplePath(m, dest, p, V) && p[0] == (r, c) {
      PathsFromComplete(m, dest, r, c, V, p);
    }
  }

  /** A collected path through neighbour nb is a simple path from x. */
  lemma {:induction false} ViaNeighbour(m: seq<seq<bool>>, dest: Cell, x: Cell, nb: Cell, V: set<Cell>, p: seq<Cell>)
    requires Open(m, x.0, x.1) && x !in V && Adjacent(x, nb)
    requires p in Prepend(x, PathsFrom(m, dest, nb.0, nb.1, V + {x}))
    ensures SimplePath(m, dest, p, V) && p[0] == x
    decreases |Cells(m) - V|, 0
  {
    assert x in Cells(m);
    MarkShrinks(Cells(m), V, x);
    Unprepend(x, PathsFrom(m, dest, nb.0, nb.1, V + {x}), p);
    PathsFromSound(m, dest, nb.0, nb.1, V + {x}, p[1..]);
    assert p == [x] + p[1..];
    PrependSimple(m, dest, x, p[1..], V);
  }

  /** A simple path from x whose second cell is nb is collected through nb. */
  lemma {:induction false} BackViaNeighbour(m: seq<seq<bool>>, dest: Cell, x: Cell, nb: Cell, V: set<Cell>, p: seq<Cell>)
    requires Open(m, x.0, x.1) && x !in V && |p| >= 2 && p[0] == x && p[1] == nb
    requires SimplePath(m, dest, p[1..], V + {x})
    ensures p in Prepend(x, PathsFrom(m, dest, nb.0, nb.1, V + {x}))
    decreases |Cells(m) - V|, 0
  {
    assert x in Cells(m);
    MarkShrinks(Cells(m), V, x);
    PathsFromComplete(m, dest, nb.0, nb.1, V + {x}, p[1..]);
    assert p == [x] + p[1..];
  }

  /** Every path the recursion collects from (r, c) starts there. */
  lemma PathsStartAt(m: seq<seq<bool>>, dest: Cell, r: int, c: int, V: set<Cell>, q: seq<Cell>)
    requires q in PathsFrom(m, dest, r, c, V)
    ensures |q| >= 1 && q[0] == (r, c)
  {
    PathsFromExactly(m, dest, r, c, V, q);
  }

  /** The paths collected through neighbour a all have a as their second cell. */
  lemma SecondCell(m: seq<seq<bool>>, dest: Cell, x: Cell, a: Cell, W: set<Cell>)
    ensures forall p :: p in Prepend(x, PathsFrom(m, dest, a.0, a.1, W)) ==> |p| >= 2 && p[1] == a
  {
    forall p | p in Prepend(x, PathsFrom(m, dest, a.0, a.1, W)) ensures |p| >= 2 && p[1] == a {
      Unprepend(x, PathsFrom(m, dest, a.0, a.1, W), p);
      PathsStartAt(m, dest, a.0, a.1, W, p[1..]);
    }
  }

  /** `numPaths` counts exactly the paths the recursion collects. */
  lemma {:induction false} CountIsNumberOfPaths(m: seq<seq<bool>>, dest: Cell, r: int, c: int, V: set<Cell>)
    ensures Count(m, dest, r, c, V) == |PathsFrom(m, dest, r, c, V)|
    decreases |Cells(m) - V|
  {
    var x := (r, c);
    if Open(m, r, c) && x !in V && x != dest {
      assert x in Cells(m);
      MarkShrinks(Cells(m), V, x);
      var W := V + {x};
      var d, u, rt, lt := (r + 1, c), (r - 1, c), (r, c + 1), (r, c - 1);
      var A, B := Prepend(x, PathsFrom(m, dest, d.0, d.1, W)), Prepend(x, PathsFrom(m, dest, u.0, u.1, W));
      var C, D := Prepend(x, PathsFrom(m, dest, rt.0, rt.1, W)), Prepend(x, PathsFrom(m, dest, lt.0, lt.1, W));
      CountIsNumberOfPaths(m, dest, d.0, d.1, W);
      CountIsNumberOfPaths(m, dest, u.0, u.1, W);
      CountIsNumberOfPaths(m, dest, rt.0, rt.1, W);
      CountIsNumberOfPaths(m, dest, lt.0, lt.1, W);
      PrependCard(x, PathsFrom(m, dest, d.0, d.1, W));
      PrependCard(x, PathsFrom(m, dest, u.0, u.1, W));
      PrependCard(x, PathsFrom(m, dest, rt.0, rt.1, W));
      PrependCard(x, PathsFrom(m, dest, lt.0, lt.1, W));
      SecondCell(m, dest, x, d, W);
      SecondCell(m, dest, x, u, W);
      SecondCell(m, dest, x, rt, W);
      SecondCell(m, dest, x, lt, W);
      assert A !! B && A !! C && A !! D && B !! C && B !! D && C !! D;
      assert |A + B| == |A| + |B|;
      assert |A + B + C| == |A + B| + |C|;
      assert |A + B + C + D| == |A + B + C| + |D|;
    }
  }

  // ----- the search, over a key function -----

  /** A function giving a cell inside the grid its key in the visited set. `nodeKey` is one,
      `CellKey` another. */
  type KeyFn = (nat, nat) -> string

  /** The keys of the cells of V that can lie inside a grid. */
  ghost function KeysOf(key: KeyFn, V: set<Cell>): set<string> {
    set x | x in V && x.0 >= 0 && x.1 >= 0 :: key(x.0, x.1)
  }

  /** The keys of all the cells of the grid. */
  ghost function GridKeys(m: seq<seq<bool>>, key: KeyFn): set<string> {
    KeysOf(key, Cells(m))
  }

  /** The key function gives different cells of the grid different keys. */
  ghost predicate KeysApart(m: seq<seq<bool>>, key: KeyFn) {
    forall x, y ::
      (x in Cells(m) && y in Cells(m) && x.0 >= 0 && x.1 >= 0 && y.0 >= 0 && y.1 >= 0
       && key(x.0, x.1) == key(y.0, y.1)) ==> x == y
  }

  /** The count `numPaths` returns from (r, c) when K holds the keys marked visited: none from a
      cell outside the grid or blocked, or whose key is marked, whichever cell marked it; one at
      the destination; otherwise those through the cells below, above, right and left, in turn,
      with the key of (r, c) marked. */
  ghost function KeyedCount(m: seq<seq<bool>>, key: KeyFn, dest: Cell, r: int, c: int, K: set<string>): nat
    decreases |GridKeys(m, key) - K|
  {
    if !Open(m, r, c) || key(r, c) in K then 0
    else if (r, c) == dest then 1
    else
      assert (r, c) in Cells(m);
      assert key(r, c) in GridKeys(m, key);
      MarkShrinks(GridKeys(m, key), K, key(r, c));
      var L := K + {key(r, c)};
      KeyedCount(m, key, dest, r + 1, c, L) + KeyedCount(m, key, dest, r - 1, c, L)
        + KeyedCount(m, key, dest, r, c + 1, L) + KeyedCount(m, key, dest, r, c - 1, L)
  }

  /** One level of KeyedCount at an open cell that is not the destination and whose key is not
      marked: the sum over the four neighbours with the key marked, which leaves fewer keys of
      the grid unmarked. */
  lemma KeyedStep(m: seq<seq<bool>>, key: KeyFn, dest: Cell, r: nat, c: nat, K: set<string>)
    requires Open(m, r, c) && key(r, c) !in K && (r, c) != dest
    ensures var L := K + {key(r, c)};
      && |GridKeys(m, key) - L| < |GridKeys(m, key) - K|
      && KeyedCount(m, key, dest, r, c, K) == KeyedCount(m, key, dest, r + 1, c, L)
           + KeyedCount(m, key, dest, r - 1, c, L) + KeyedCount(m, key, dest, r, c + 1, L)
           + KeyedCount(m, key, dest, r, c - 1, L)
  {
    assert (r, c) in Cells(m);
    assert key(r, c) in GridKeys(m, key);
    MarkShrinks(GridKeys(m, key), K, key(r, c));
  }

  /** A destination outside the grid or blocked is never reached. */
  lemma {:induction false} ClosedDestinationUnreachable(m: seq<seq<bool>>, key: KeyFn, dest: Cell, r: int, c: int, K: set<string>)
    requires !Open(m, dest.0, dest.1)
    ensures KeyedCount(m, key, dest, r, c, K) == 0
    decreases |GridKeys(m, key) - K|
  {
    if Open(m, r, c) && key(r, c) !in K {
      KeyedStep(m, key, dest, r, c, K);
      var L := K + {key(r, c)};
      ClosedDestinationUnreachable(m, key, dest, r + 1, c, L);
      ClosedDestinationUnreachable(m, key, dest, r - 1, c, L);
      ClosedDestinationUnreachable(m, key, dest, r, c + 1, L);
      ClosedDestinationUnreachable(m, key, dest, r, c - 1, L);
    }
  }

  /** Once the destination's key is marked, the destination is never reached: the visited test
      comes before the destination test. */
  lemma {:induction false} MarkedDestinationUnreachable(m: seq<seq<bool>>, key: KeyFn, destRow: nat, destCol: nat,
                                                        r: int, c: int, K: set<string>)
    requires key(destRow, destCol) in K
    ensures KeyedCount(m, key, (destRow, destCol), r, c, K) == 0
    decreases |GridKeys(m, key) - K|
  {
    if Open(m, r, c) && key(r, c) !in K {
      var dest := (destRow, destCol);
      KeyedStep(m, key, dest, r, c, K);
      var L := K + {key(r, c)};
      MarkedDestinationUnreachable(m, key, destRow, destCol, r + 1, c, L);
      MarkedDestinationUnreachable(m, key, destRow, destCol, r - 1, c, L);
      MarkedDestinationUnreachable(m, key, destRow, destCol, r, c + 1, L);
      MarkedDestinationUnreachable(m, key, destRow, destCol, r, c - 1, L);
    }
  }

  /** With a key function that tells the grid's cells apart, a cell's key is marked exactly when
      the cell is on the path. */
  lemma KeyLookup(m: seq<seq<bool>>, key: KeyFn, V: set<Cell>, r: nat, c: nat)
    requires KeysApart(m, key) && V <= Cells(m) && (r, c) in Cells(m)
    ensures key(r, c) in KeysOf(key, V) <==> (r, c) in V
  {
    if key(r, c) in KeysOf(key, V) {
      var x :| x in V && x.0 >= 0 && x.1 >= 0 && key(x.0, x.1) == key(r, c);
      assert x == (r, c);
    }
  }

  /** Putting a cell on the path marks its key. */
  lemma KeysOfMark(key: KeyFn, V: set<Cell>, r: nat, c: nat)
    ensures KeysOf(key, V + {(r, c)}) == KeysOf(key, V) + {key(r, c)}
  {
  }

  /** One level of Count at an open, unvisited cell that is not the destination: the sum over
      the four neighbours with the cell marked, which leaves fewer cells unmarked. */
  lemma CountStep(m: seq<seq<bool>>, dest: Cell, r: int, c: int, V: set<Cell>)
    requires V <= Cells(m) && Open(m, r, c) && (r, c) !in V && (r, c) != dest
    ensures var W := V + {(r, c)};
      && W <= Cells(m) && |Cells(m) - W| < |Cells(m) - V|
      && Count(m, dest, r, c, V) == Count(m, dest, r + 1, c, W) + Count(m, dest, r - 1, c, W)
           + Count(m, dest, r, c + 1, W) + Count(m, dest, r, c - 1, W)
  {
    assert (r, c) in Cells(m);
    MarkShrinks(Cells(m), V, (r, c));
  }

  /** With keys that tell the grid's cells apart, the search over keys counts what Count does,
      and so the simple paths. */
  lemma {:induction false} KeyedIsCount(m: seq<seq<bool>>, key: KeyFn, dest: Cell, r: int, c: int, V: set<Cell>)
    requires KeysApart(m, key) && V <= Cells(m)
    ensures KeyedCount(m, key, dest, r, c, KeysOf(key, V)) == Count(m, dest, r, c, V)
    decreases |Cells(m) - V|
  {
    if Open(m, r, c) {
      assert (r, c) in Cells(m);
      KeyLookup(m, key, V, r, c);
      if (r, c) !in V && (r, c) != dest {
        CountStep(m, dest, r, c, V);
        var W := V + {(r, c)};
        KeyedIsCount(m, key, dest, r + 1, c, W);
        KeyedIsCount(m, key, dest, r - 1, c, W);
        KeyedIsCount(m, key, dest, r, c + 1, W);
        KeyedIsCount(m, key, dest, r, c - 1, W);
        KeyedStepAgrees(m, key, dest, r, c, V);
      }
    }
  }

  /** The step of KeyedIsCount: when the four neighbours agree with the cell marked, so does the
      cell. */
  lemma KeyedStepAgrees(m: seq<seq<bool>>, key: KeyFn, dest: Cell, r: nat, c: nat, V: set<Cell>)
    requires Open(m, r, c) && (r, c) !in V && (r, c) != dest && key(r, c) !in KeysOf(key, V)
    requires V <= Cells(m)
    requires var W, L := V + {(r, c)}, KeysOf(key, V + {(r, c)});
      && KeyedCount(m, key, dest, r + 1, c, L) == Count(m, dest, r + 1, c, W)
      && KeyedCount(m, key, dest, r - 1, c, L) == Count(m, dest, r - 1, c, W)
      && KeyedCount(m, key, dest, r, c + 1, L) == Count(m, dest, r, c + 1, W)
      && KeyedCount(m, key, dest, r, c - 1, L) == Count(m, dest, r, c - 1, W)
    ensures KeyedCount(m, key, dest, r, c, KeysOf(key, V)) == Count(m, dest, r, c, V)
  {
    CountStep(m, dest, r, c, V);
    KeyedStep(m, key, dest, r, c, KeysOf(key, V));
    KeysOfMark(key, V, r, c);
  }

  /** The corrected key tells the cells of every grid apart. */
  lemma CellKeysApart(m: seq<seq<bool>>)
    ensures KeysApart(m, CellKey)
  {
    forall x, y | x in Cells(m) && y in Cells(m) && x.0 >= 0 && x.1 >= 0 && y.0 >= 0 && y.1 >= 0
      && CellKey(x.0, x.1) == CellKey(y.0, y.1)
      ensures x == y
    {
      CellKeyInjective(x.0, x.1, y.0, y.1);
    }
  }

  /** A number below ten prints as one digit. */
  lemma OneDigit(n: nat)
    requires n < 10
    ensures Digits(n) == [DigitChar(n)]
  {
  }

  /** `nodeKey` tells cells apart when every row and column number is below ten: each key is
      then two digits. */
  lemma SmallGridKeysApart(m: seq<seq<bool>>)
    requires |m| <= 10 && forall r :: 0 <= r < |m| ==> |m[r]| <= 10
    ensures KeysApart(m, NodeKey)
  {
    forall x, y | x in Cells(m) && y in Cells(m) && x.0 >= 0 && x.1 >= 0 && y.0 >= 0 && y.1 >= 0
      && NodeKey(x.0, x.1) == NodeKey(y.0, y.1)
      ensures x == y
    {
      OneDigit(x.0);
      OneDigit(x.1);
      OneDigit(y.0);
      OneDigit(y.1);
      var k, l := NodeKey(x.0, x.1), NodeKey(y.0, y.1);
      assert k[0] == l[0] && k[1] == l[1];
    }
  }

  /** The four recursive calls of `numPaths` on the neighbours of (row, col), in the source's
      order, summed; the visited set is as it was afterwards. */
  method NeighbourPaths(g: MatrixGraph, key: KeyFn, destRow: int, destCol: int, row: int, col: int,
                        visited: KeySet) returns (count: int)
    modifies visited
    ensures visited.keys == old(visited.keys)
    ensures var K := old(visited.keys);
      count == KeyedCount(g.matrix, key, (destRow, destCol), row + 1, col, K)
        + KeyedCount(g.matrix, key, (destRow, destCol), row - 1, col, K)
        + KeyedCount(g.matrix, key, (destRow, destCol), row, col + 1, K)
        + KeyedCount(g.matrix, key, (destRow, destCol), row, col - 1, K)
    decreases |GridKeys(g.matrix, key) - visited.keys|, 2
  {
    count := 0;
    var n := NumPathsFrom(g, key, destRow, destCol, row + 1, col, visited);
    count := count + n;
    n := NumPathsFrom(g, key, destRow, destCol, row - 1, col, visited);
    count := count + n;
    n := NumPathsFrom(g, key, destRow, destCol, row, col + 1, visited);
    count := count + n;
    n := NumPathsFrom(g, key, destRow, destCol, row, col - 1, visited);
    count := count + n;
  }

  /** `numPaths`: the depth-first search from (row, col). Cells off the grid and blocked cells
      count no path; an open cell is handed to VisitOpen. */
  method NumPathsFrom(g: MatrixGraph, key: KeyFn, destRow: int, destCol: int, row: int, col: int,
                      visited: KeySet) returns (count: int)
    modifies visited
    ensures visited.keys == old(visited.keys)
    ensures count == KeyedCount(g.matrix, key, (destRow, destCol), row, col, old(visited.keys))
    decreases |GridKeys(g.matrix, key) - visited.keys|, 1
  {
    var m := g.matrix;
    var width := |m|;
    if row < 0 || row >= width {
      return 0;
    }
    var height := |m[row]|;
    if col < 0 || col >= height {
      return 0;
    }
    if !m[row][col] {
      return 0;
    }
    count := VisitOpen(g, key, destRow, destCol, row, col, visited);
  }

  /** The rest of `numPaths` at an open cell: a cell whose key is marked counts no path, the
      destination counts one, and any other cell has its key marked while its neighbours are
      explored and unmarked afterwards. */
  method VisitOpen(g: MatrixGraph, key: KeyFn, destRow: int, destCol: int, row: nat, col: nat,
                   visited: KeySet) returns (count: int)
    requires Open(g.matrix, row, col)
    modifies visited
    ensures visited.keys == old(visited.keys)
    ensures count == KeyedCount(g.matrix, key, (destRow, destCol), row, col, old(visited.keys))
    decreases |GridKeys(g.matrix, key) - visited.keys|, 0
  {
    var k := key(row, col);
    if k in visited.keys {
      return 0;
    }
    if row == destRow && col == destCol {
      return 1;
    }
    KeyedStep(g.matrix, key, (destRow, destCol), row, col, visited.keys);
    visited.keys := visited.keys + {k};
    count := NeighbourPaths(g, key, destRow, destCol, row, col, visited);
    visited.keys := visited.keys - {k};
    assert visited.keys == old(visited.keys);
  }

  /** `NumPaths`: the search from the start cell with nothing visited, keyed by `nodeKey`. It
      counts the simple paths from the start to the destination whenever `nodeKey` tells the
      grid's cells apart, and finds none when either end is closed or outside. */
  method NumPaths(g: MatrixGraph, startRow: int, startCol: int, destRow: int, destCol: int)
    returns (n: int)
    ensures n == KeyedCount(g.matrix, NodeKey, (destRow, destCol), startRow, startCol, {})
    ensures KeysApart(g.matrix, NodeKey) ==>
      n == Count(g.matrix, (destRow, destCol), startRow, startCol, {})
        == |PathsFrom(g.matrix, (destRow, destCol), startRow, startCol, {})|
    ensures !Open(g.matrix, startRow, startCol) ==> n == 0
    ensures !Open(g.matrix, destRow, destCol) ==> n == 0
  {
    var visited := new KeySet();
    n := NumPathsFrom(g, NodeKey, destRow, destCol, startRow, startCol, visited);
    CountIsNumberOfPaths(g.matrix, (destRow, destCol), startRow, startCol, {});
    if KeysApart(g.matrix, NodeKey) {
      assert KeysOf(NodeKey, {}) == {};
      KeyedIsCount(g.matrix, NodeKey, (destRow, destCol), startRow, startCol, {});
    }
    if !Open(g.matrix, destRow, destCol) {
      ClosedDestinationUnreachable(g.matrix, NodeKey, (destRow, destCol), startRow, startCol, {});
    }
  }

  /** `NumPaths` with the corrected key: the number of simple paths from the start to the
      destination, on every grid. */
  method CorrectedNumPaths(g: MatrixGraph, startRow: int, startCol: int, destRow: int, destCol: int)
    returns (n: int)
    ensures n == |PathsFrom(g.matrix, (destRow, destCol), startRow, startCol, {})|
    ensures !Open(g.matrix, startRow, startCol) ==> n == 0
    ensures !Open(g.matrix, destRow, destCol) ==> n == 0
  {
    var visited := new KeySet();
    n := NumPathsFrom(g, CellKey, destRow, destCol, startRow, startCol, visited);
    CellKeysApart(g.matrix);
    assert KeysOf(CellKey, {}) == {};
    KeyedIsCount(g.matrix, CellKey, (destRow, destCol), startRow, startCol, {});
    CountIsNumberOfPaths(g.matrix, (destRow, destCol), startRow, startCol, {});
    if !Open(g.matrix, destRow, destCol) {
      ClosedDestinationUnreachable(g.matrix, CellKey, (destRow, destCol), startRow, startCol, {});
    }
  }

  // ----- a grid on which the key collision loses a path -----

  /** Twelve rows: row 1 holds eleven open cells, rows 2 to 11 one open cell each, row 0 a
      blocked one. */
  function CollidingGrid(): seq<seq<bool>> {
    seq(12, r => if r == 1 then seq(11, _ => true) else [r >= 2])
  }

  /** Along row 1 from (1, 10) to (1, 0), then down column 0 to (11, 0). */
  function CollidingPath(): seq<Cell> {
    seq(21, i => if i <= 10 then (1, 10 - i) else (i - 9, 0))
  }

  /** That walk is a simple path from (1, 10) to (11, 0). */
  lemma CollidingPathIsSimple()
    ensures SimplePath(CollidingGrid(), (11, 0), CollidingPath(), {}) && CollidingPath()[0] == (1, 10)
  {
    var m, p := CollidingGrid(), CollidingPath();
    forall i | 0 <= i < |p| ensures Open(m, p[i].0, p[i].1) {
      if i <= 10 {
        assert m[1] == seq(11, _ => true);
      }
    }
    forall i, j | 0 <= i < j < |p| ensures p[i] != p[j] {
    }
    forall i | 0 < i < |p| ensures Adjacent(p[i - 1], p[i]) {
    }
  }

  /** The start (1, 10) and the destination (11, 0) share the key "110". */
  lemma CollidingKeys()
    ensures NodeKey(1, 10) == NodeKey(11, 0) == "110"
  {
    assert Digits(10) == Digits(1) + [DigitChar(0)];
    assert Digits(11) == Digits(1) + [DigitChar(1)];
  }

  /** On that grid a simple path leads from (1, 10) to (11, 0), yet the search keyed by `nodeKey`
      finds none: the start's key "110" is marked first, so when the search reaches (11, 0) it
      takes the destination for a visited cell. */
  lemma NodeKeyLosesPath()
    ensures |PathsFrom(CollidingGrid(), (11, 0), 1, 10, {})| >= 1
    ensures KeyedCount(CollidingGrid(), NodeKey, (11, 0), 1, 10, {}) == 0
  {
    var m := CollidingGrid();
    CollidingPathIsSimple();
    PathsFromExactly(m, (11, 0), 1, 10, {}, CollidingPath());
    assert m[1] == seq(11, _ => true);
    assert Open(m, 1, 10);
    CollidingKeys();
    KeyedStep(m, NodeKey, (11, 0), 1, 10, {});
    var L := {"110"};
    MarkedDestinationUnreachable(m, NodeKey, 11, 0, 2, 10, L);
    MarkedDestinationUnreachable(m, NodeKey, 11, 0, 0, 10, L);
    MarkedDestinationUnreachable(m, NodeKey, 11, 0, 1, 11, L);
    MarkedDestinationUnreachable(m, NodeKey, 11, 0, 1, 9, L);
  }

  /** `NumPaths` on that grid returns 0, while the corrected search returns a positive count. */
  method CollisionScenario() returns (asWritten: int, corrected: int)
    ensures asWritten == 0 && corrected >= 1
  {
    var g := NewMatrixGraph(CollidingGrid());
    asWritten := NumPaths(g, 1, 10, 11, 0);
    corrected := CorrectedNumPaths(g, 1, 10, 11, 0);
    NodeKeyLosesPath();
  }

  /** A 2x2 grid with every cell open. */
  function OpenSquare(): seq<seq<bool>> {
    [[true, true], [true, true]]
  }

  /** From the corner (1, 0), with (0, 0) already visited, one path reaches (1, 1). */
  lemma LowerCornerCount()
    ensures Count(OpenSquare(), (1, 1), 1, 0, {(0, 0)}) == 1
  {
    var m, dest, V := OpenSquare(), (1, 1), {(0, 0)};
    assert (0, 0) in Cells(m);
    CountStep(m, dest, 1, 0, V);
    var W := V + {(1, 0)};
    assert !Open(m, 2, 0) && !Open(m, 1, -1);
    assert Count(m, dest, 2, 0, W) == 0 && Count(m, dest, 1, -1, W) == 0;
    assert Count(m, dest, 1, 1, W) == 1;
    assert Count(m, dest, 0, 0, W) == 0;
  }

  /** From the corner (0, 1), with (0, 0) already visited, one path reaches (1, 1). */
  lemma UpperCornerCount()
    ensures Count(OpenSquare(), (1, 1), 0, 1, {(0, 0)}) == 1
  {
    var m, dest, V := OpenSquare(), (1, 1), {(0, 0)};
    assert (0, 0) in Cells(m);
    CountStep(m, dest, 0, 1, V);
    var W := V + {(0, 1)};
    assert !Open(m, -1, 1) && !Open(m, 0, 2);
    assert Count(m, dest, -1, 1, W) == 0 && Count(m, dest, 0, 2, W) == 0;
    assert Count(m, dest, 1, 1, W) == 1;
    assert Count(m, dest, 0, 0, W) == 0;
  }

  /** In the open 2x2 grid there are two simple paths from one corner to the opposite one:
      down then right, and right then down. */
  lemma OpenSquareHasTwoPaths()
    ensures |PathsFrom(OpenSquare(), (1, 1), 0, 0, {})| == 2
  {
    var m, dest := OpenSquare(), (1, 1);
    CountStep(m, dest, 0, 0, {});
    LowerCornerCount();
    UpperCornerCount();
    CountIsNumberOfPaths(m, dest, 0, 0, {});
  }

  /** The calls of the tests whose start or destination lies off the grid or on a blocked
      cell: each finds no path. */
  method BlockedEndsFindNothing() returns (offStart: int, offDest: int, blockedStart: int)
    ensures offStart == 0 && offDest == 0 && blockedStart == 0
  {
    var g := MatrixGraph(ExampleGrid());
    offStart := NumPaths(g, -1, -1, 3, 3);
    offDest := NumPaths(g, 0, 0, 10, 10);
    blockedStart := NumPaths(g, 1, 1, 10, 10);
  }

  // ----- the counts of the tests' grid -----

  /** The cell y is blocked or off the grid, or it lies in P or in G. */
  ghost predicate Shut(m: seq<seq<bool>>, P: set<Cell>, G: set<Cell>, y: Cell) {
    !Open(m, y.0, y.1) || y in P || y in G
  }

  /** Every neighbour of a cell of P is blocked, off the grid, in P, or in G. */
  ghost predicate Enclosed(m: seq<seq<bool>>, P: set<Cell>, G: set<Cell>) {
    forall x :: x in P ==>
      Shut(m, P, G, (x.0 + 1, x.1)) && Shut(m, P, G, (x.0 - 1, x.1))
      && Shut(m, P, G, (x.0, x.1 + 1)) && Shut(m, P, G, (x.0, x.1 - 1))
  }

  /** A region that does not hold the destination, and whose only ways out lead through cells
      already on the path, holds no path to the destination. */
  lemma {:induction false} EnclosedCountsNothing(m: seq<seq<bool>>, dest: Cell, P: set<Cell>, G: set<Cell>,
                                                 r: int, c: int, V: set<Cell>)
    requires Enclosed(m, P, G) && dest !in P && G <= V && Shut(m, P, G, (r, c))
    ensures Count(m, dest, r, c, V) == 0
    decreases |Cells(m) - V|
  {
    if Open(m, r, c) && (r, c) !in V {
      assert (r, c) in Cells(m);
      MarkShrinks(Cells(m), V, (r, c));
      var W := V + {(r, c)};
      EnclosedCountsNothing(m, dest, P, G, r + 1, c, W);
      EnclosedCountsNothing(m, dest, P, G, r - 1, c, W);
      EnclosedCountsNothing(m, dest, P, G, r, c + 1, W);
      EnclosedCountsNothing(m, dest, P, G, r, c - 1, W);
    }
  }

  /** The dead end (2, 1), (2, 0), (3, 0) of the tests' grid, left through (2, 2) only. */
  lemma LeftPocket()
    ensures Enclosed(ExampleGrid(), {(2, 1), (2, 0), (3, 0)}, {(2, 2)})
  {
    var m, P, G := ExampleGrid(), {(2, 1), (2, 0), (3, 0)}, {(2, 2)};
    forall x | x in P
      ensures Shut(m, P, G, (x.0 + 1, x.1)) && Shut(m, P, G, (x.0 - 1, x.1))
      ensures Shut(m, P, G, (x.0, x.1 + 1)) && Shut(m, P, G, (x.0, x.1 - 1))
    {
      if x == (2, 1) {
        assert !Open(m, 3, 1) && !Open(m, 1, 1);
      } else if x == (2, 0) {
        assert !Open(m, 1, 0) && !Open(m, 2, -1);
      } else {
        assert x == (3, 0) && !Open(m, 4, 0) && !Open(m, 3, 1) && !Open(m, 3, -1);
      }
    }
  }

  /** The top-left dead end (0, 1), (0, 0), left through (0, 2) only. */
  lemma CornerPocket()
    ensures Enclosed(ExampleGrid(), {(0, 1), (0, 0)}, {(0, 2)})
  {
  }

  /** The cells (1, 3) and (0, 3), left through (0, 2) or (1, 2) only. */
  lemma RightPocket()
    ensures Enclosed(ExampleGrid(), {(1, 3), (0, 3)}, {(0, 2), (1, 2)})
  {
  }

  /** The top of the grid, left through (1, 2) only. */
  lemma TopPocket()
    ensures Enclosed(ExampleGrid(), {(0, 0), (0, 1), (0, 2), (0, 3), (1, 3)}, {(1, 2)})
  {
    var m, P, G := ExampleGrid(), {(0, 0), (0, 1), (0, 2), (0, 3), (1, 3)}, {(1, 2)};
    forall x | x in P
      ensures Shut(m, P, G, (x.0 + 1, x.1)) && Shut(m, P, G, (x.0 - 1, x.1))
      ensures Shut(m, P, G, (x.0, x.1 + 1)) && Shut(m, P, G, (x.0, x.1 - 1))
    {
      if x == (0, 0) || x == (0, 1) {
        assert !Open(m, 1, x.1) && !Open(m, -1, x.1);
      } else if x == (0, 2) || x == (0, 3) {
        assert !Open(m, -1, x.1) && !Open(m, 0, 4);
      } else {
        assert x == (1, 3) && !Open(m, 2, 3) && !Open(m, 1, 4);
      }
    }
  }

  /** From (3, 2), coming from (2, 2), one path: the step right onto (3, 3). */
  lemma FromBottom(V: set<Cell>)
    requires (2, 2) in V && (3, 2) !in V && (3, 3) !in V
    ensures Count(ExampleGrid(), (3, 3), 3, 2, V) == 1
  {
    var m, W := ExampleGrid(), V + {(3, 2)};
    assert Count(m, (3, 3), 3, 3, W) == 1;
    assert Count(m, (3, 3), 2, 2, W) == 0;
  }

  /** From (2, 2), coming from (1, 2), one path: down to (3, 2), then right. */
  lemma FromCentre(V: set<Cell>)
    requires (1, 2) in V && (2, 2) !in V && (3, 2) !in V && (3, 3) !in V
    ensures Count(ExampleGrid(), (3, 3), 2, 2, V) == 1
  {
    var m, W := ExampleGrid(), V + {(2, 2)};
    FromBottom(W);
    LeftPocket();
    EnclosedCountsNothing(m, (3, 3), {(2, 1), (2, 0), (3, 0)}, {(2, 2)}, 2, 1, W);
    assert Count(m, (3, 3), 1, 2, W) == 0;
    assert Count(m, (3, 3), 2, 3, W) == 0;
  }

  /** From (1, 2), coming from (0, 2), one path: down through (2, 2). */
  lemma DownFromTop(V: set<Cell>)
    requires (0, 2) in V && (1, 2) !in V && (2, 2) !in V && (3, 2) !in V && (3, 3) !in V
    ensures Count(ExampleGrid(), (3, 3), 1, 2, V) == 1
  {
    var m, W := ExampleGrid(), V + {(1, 2)};
    FromCentre(W);
    RightPocket();
    EnclosedCountsNothing(m, (3, 3), {(1, 3), (0, 3)}, {(0, 2), (1, 2)}, 1, 3, W);
    assert Count(m, (3, 3), 0, 2, W) == 0;
    assert Count(m, (3, 3), 1, 1, W) == 0;
  }

  /** From (1, 3), coming from (0, 3) after (0, 2), one path: left to (1, 2), then down. */
  lemma AroundTheRight(V: set<Cell>)
    requires (0, 2) in V && (0, 3) in V
    requires (1, 3) !in V && (1, 2) !in V && (2, 2) !in V && (3, 2) !in V && (3, 3) !in V
    ensures Count(ExampleGrid(), (3, 3), 1, 3, V) == 1
  {
    var m, W := ExampleGrid(), V + {(1, 3)};
    DownFromTop(W);
    assert Count(m, (3, 3), 0, 3, W) == 0;
    assert Count(m, (3, 3), 2, 3, W) == 0;
  }

  /** From (0, 3), coming from (0, 2), one path: down to (1, 3) and round through (1, 2). */
  lemma FromTopRight(V: set<Cell>)
    requires (0, 2) in V && (0, 3) !in V
    requires (1, 3) !in V && (1, 2) !in V && (2, 2) !in V && (3, 2) !in V && (3, 3) !in V
    ensures Count(ExampleGrid(), (3, 3), 0, 3, V) == 1
  {
    var m, W := ExampleGrid(), V + {(0, 3)};
    AroundTheRight(W);
    assert Count(m, (3, 3), 0, 2, W) == 0;
  }

  /** From (0, 2) two paths: straight down, or right and round. */
  lemma FromTopMiddle(V: set<Cell>)
    requires (0, 2) !in V && (0, 3) !in V
    requires (1, 3) !in V && (1, 2) !in V && (2, 2) !in V && (3, 2) !in V && (3, 3) !in V
    ensures Count(ExampleGrid(), (3, 3), 0, 2, V) == 2
  {
    var m, W := ExampleGrid(), V + {(0, 2)};
    DownFromTop(W);
    FromTopRight(W);
    CornerPocket();
    EnclosedCountsNothing(m, (3, 3), {(0, 1), (0, 0)}, {(0, 2)}, 0, 1, W);
  }

  /** The test's first call: two paths from (0, 0), both along the top row to (0, 2). */
  lemma FromTopLeft()
    ensures Count(ExampleGrid(), (3, 3), 0, 0, {}) == 2
  {
    var m, V0 := ExampleGrid(), {};
    var V1 := V0 + {(0, 0)};
    var V2 := V1 + {(0, 1)};
    FromTopMiddle(V2);
    assert Count(m, (3, 3), 0, 1, V1) == 2;
  }

  /** From (0, 3), coming from (1, 3), one path: left to (0, 2) and down through (1, 2). */
  lemma UpAndRound()
    ensures Count(ExampleGrid(), (3, 3), 0, 3, {} + {(1, 3)}) == 1
  {
    var m, V0 := ExampleGrid(), {};
    var V1 := V0 + {(1, 3)};
    var V2 := V1 + {(0, 3)};
    var V3 := V2 + {(0, 2)};
    DownFromTop(V3);
    CornerPocket();
    EnclosedCountsNothing(m, (3, 3), {(0, 1), (0, 0)}, {(0, 2)}, 0, 1, V3);
    assert Count(m, (3, 3), 0, 2, V2) == 1;
  }

  /** From (1, 2), coming from (1, 3), one path: straight down. */
  lemma LeftAndDown(V: set<Cell>)
    requires (1, 3) in V && (1, 2) !in V && (2, 2) !in V && (3, 2) !in V && (3, 3) !in V
    ensures Count(ExampleGrid(), (3, 3), 1, 2, V) == 1
  {
    var m, W := ExampleGrid(), V + {(1, 2)};
    FromCentre(W);
    TopShut(W);
    assert Count(m, (3, 3), 1, 3, W) == 0;
    assert Count(m, (3, 3), 1, 1, W) == 0;
  }

  /** Once (1, 2) is on the path, (0, 2) leads only into the top of the grid. */
  lemma TopShut(W: set<Cell>)
    requires (1, 2) in W
    ensures Count(ExampleGrid(), (3, 3), 0, 2, W) == 0
  {
    TopPocket();
    EnclosedCountsNothing(ExampleGrid(), (3, 3), {(0, 0), (0, 1), (0, 2), (0, 3), (1, 3)}, {(1, 2)}, 0, 2, W);
  }

  /** The test's third call: two paths from (1, 3), up and round through (0, 2), or left. */
  lemma FromRightEdge()
    ensures Count(ExampleGrid(), (3, 3), 1, 3, {}) == 2
  {
    UpAndRound();
    LeftAndDown({} + {(1, 3)});
  }

  /** The test's fourth call: one path from (1, 2), straight down. */
  lemma FromUpperMiddle()
    ensures Count(ExampleGrid(), (3, 3), 1, 2, {}) == 1
  {
    var m, V0 := ExampleGrid(), {};
    var V1 := V0 + {(1, 2)};
    var top := {(0, 0), (0, 1), (0, 2), (0, 3), (1, 3)};
    FromCentre(V1);
    TopPocket();
    EnclosedCountsNothing(m, (3, 3), top, {(1, 2)}, 0, 2, V1);
    EnclosedCountsNothing(m, (3, 3), top, {(1, 2)}, 1, 3, V1);
  }

  /** The four path counts of the tests' grid: 2 from (0, 0), 2 from (0, 2), 2 from (1, 3) and 1
      from (1, 2), each to (3, 3). Every row and column number is below ten, so `nodeKey` does
      not collide there. */
  method ExampleCounts() returns (a: int, b: int, c: int, d: int)
    ensures a == 2 && b == 2 && c == 2 && d == 1
  {
    var g := NewMatrixGraph(ExampleGrid());
    SmallGridKeysApart(g.matrix);
    a := NumPaths(g, 0, 0, 3, 3);
    b := NumPaths(g, 0, 2, 3, 3);
    c := NumPaths(g, 1, 3, 3, 3);
    d := NumPaths(g, 1, 2, 3, 3);
    FromTopLeft();
    FromTopMiddle({});
    FromRightEdge();
    FromUpperMiddle();
  }
}
