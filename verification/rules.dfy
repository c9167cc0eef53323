/**
  The rules of standard 9x9 Sudoku, stated on grid values.

  A grid is nine rows of nine cells; a cell holds 0 (empty) or a digit 1..9.
  Rows, columns and the nine non-overlapping 3x3 blocks are the "units".
  Everything here is a pure value-level specification that the in-place
  solver in module SudokuBoard is proved against.
 */
module SudokuRules {

  /** Row-major grid of cell values; 0 marks an empty cell. */
  type Grid = seq<seq<int>>

  /** A cell position (row, column). */
  datatype Pos = Pos(row: int, col: int)

  predicate InBounds(r: int, c: int) {
    0 <= r < 9 && 0 <= c < 9
  }

  /** Nine rows of nine cells, each cell in 0..9. */
  ghost predicate WellFormed(g: Grid) {
    |g| == 9 &&
    forall r :: 0 <= r < 9 ==> |g[r]| == 9 && forall c :: 0 <= c < 9 ==> 0 <= g[r][c] <= 9
  }

  /** The grid `g` with the cell at (r, c) set to `v`. */
  function Place(g: Grid, r: int, c: int, v: int): (h: Grid)
    requires 0 <= r < |g| && 0 <= c < |g[r]|
    ensures |h| == |g| && |h[r]| == |g[r]| && h[r][c] == v
    ensures forall r2, c2 :: 0 <= r2 < |g| && 0 <= c2 < |g[r2]| && (r2 != r || c2 != c) ==>
              c2 < |h[r2]| && h[r2][c2] == g[r2][c2]
    ensures WellFormed(g) && 0 <= v <= 9 ==> WellFormed(h)
  {
    g[r := g[r][c := v]]
  }

  // ---------------------------------------------------------------------
  // Blocks

  /** Band 0, 1 or 2 of a row or column index in 0..8: which third of the grid it lies in. */
  function Band(i: int): int {
    if i < 3 then 0 else if i < 6 then 1 else 2
  }

  /** First row (or column) of the block that holds index `i`, computed as the source does. */
  function BlockStart(i: int): (s: int)
    requires 0 <= i < 9
    ensures s == 3 * Band(i)
    ensures 0 <= s <= i < s + 3 <= 9
  {
    (i / 3) * 3
  }

  /** (r1, c1) and (r2, c2) lie in the same 3x3 block. */
  predicate SameBlock(r1: int, c1: int, r2: int, c2: int) {
    Band(r1) == Band(r2) && Band(c1) == Band(c2)
  }

  /** (r2, c2) is in the same row, column or block as (r1, c1) (possibly the cell itself). */
  predicate SameUnit(r1: int, c1: int, r2: int, c2: int) {
    r1 == r2 || c1 == c2 || SameBlock(r1, c1, r2, c2)
  }

  /** Two different cells that share a row, column or block. */
  predicate Peers(r1: int, c1: int, r2: int, c2: int) {
    (r1 != r2 || c1 != c2) && SameUnit(r1, c1, r2, c2)
  }

  // ---------------------------------------------------------------------
  // Placement rules

  /** `num` occurs nowhere in row `row`. */
  ghost predicate RowFree(g: Grid, row: int, num: int)
    requires WellFormed(g) && 0 <= row < 9
  {
    num !in g[row]
  }

  /** `num` occurs nowhere in column `col`. */
  ghost predicate ColFree(g: Grid, col: int, num: int)
    requires WellFormed(g) && 0 <= col < 9
  {
    forall r :: 0 <= r < 9 ==> g[r][col] != num
  }

  /** `num` occurs nowhere in the 3x3 block that contains (row, col). */
  ghost predicate BlockFree(g: Grid, row: int, col: int, num: int)
    requires WellFormed(g) && InBounds(row, col)
  {
    forall r, c :: InBounds(r, c) && SameBlock(row, col, r, c) ==> g[r][c] != num
  }

  /** Writing `num` at (row, col) breaks no row, column or block rule. */
  ghost predicate Placeable(g: Grid, row: int, col: int, num: int)
    requires WellFormed(g) && InBounds(row, col)
  {
    RowFree(g, row, num) && ColFree(g, col, num) && BlockFree(g, row, col, num)
  }

  // ---------------------------------------------------------------------
  // Whole-grid states

  /** No cell is empty. */
  ghost predicate Filled(g: Grid)
    requires WellFormed(g)
  {
    forall r, c :: InBounds(r, c) ==> g[r][c] != 0
  }

  /** No nonzero value is repeated among peers. */
  ghost predicate Consistent(g: Grid)
    requires WellFormed(g)
  {
    forall r1, c1, r2, c2 ::
      InBounds(r1, c1) && InBounds(r2, c2) && Peers(r1, c1, r2, c2) && g[r1][c1] != 0 ==>
        g[r1][c1] != g[r2][c2]
  }

  /** `s` keeps every given (nonzero cell) of `g`. */
  ghost predicate Extends(s: Grid, g: Grid)
    requires WellFormed(s) && WellFormed(g)
  {
    forall r, c :: InBounds(r, c) && g[r][c] != 0 ==> s[r][c] == g[r][c]
  }

  // ---------------------------------------------------------------------
  // Solutions

  /** Exactly one cell of row `r` holds `v`. */
  ghost predicate OnceInRow(g: Grid, r: int, v: int)
    requires WellFormed(g) && 0 <= r < 9
  {
    exists c :: 0 <= c < 9 && g[r][c] == v &&
      forall c2 :: 0 <= c2 < 9 && g[r][c2] == v ==> c2 == c
  }

  /** Exactly one cell of column `c` holds `v`. */
  ghost predicate OnceInCol(g: Grid, c: int, v: int)
    requires WellFormed(g) && 0 <= c < 9
  {
    exists r :: 0 <= r < 9 && g[r][c] == v &&
      forall r2 :: 0 <= r2 < 9 && g[r2][c] == v ==> r2 == r
  }

  /** Exactly one cell of the block that holds (r, c) holds `v`. */
  ghost predicate OnceInBlock(g: Grid, r: int, c: int, v: int)
    requires WellFormed(g) && InBounds(r, c)
  {
    exists r1, c1 :: InBounds(r1, c1) && SameBlock(r, c, r1, c1) && g[r1][c1] == v &&
      forall r2, c2 :: InBounds(r2, c2) && SameBlock(r, c, r2, c2) && g[r2][c2] == v ==>
        r2 == r1 && c2 == c1
  }

  /** A completed Sudoku: every row, column and block holds each of 1..9 exactly once. */
  ghost predicate IsSolution(g: Grid) {
    WellFormed(g) && Filled(g) &&
    (forall r, v :: 0 <= r < 9 && 1 <= v <= 9 ==> OnceInRow(g, r, v)) &&
    (forall c, v :: 0 <= c < 9 && 1 <= v <= 9 ==> OnceInCol(g, c, v)) &&
    (forall r, c, v :: InBounds(r, c) && 1 <= v <= 9 ==> OnceInBlock(g, r, c, v))
  }

  /** `s` is a solution of the puzzle `g`. */
  ghost predicate SolutionOf(s: Grid, g: Grid) {
    IsSolution(s) && WellFormed(g) && Extends(s, g)
  }

  /** Some solution keeps all the givens of `g`. */
  ghost predicate Solvable(g: Grid) {
    exists s :: SolutionOf(s, g)
  }

  // ---------------------------------------------------------------------
  // Counting empty cells: the solver's termination measure

  function ZerosIn(row: seq<int>): nat {
    if row == [] then 0 else (if row[0] == 0 then 1 else 0) + ZerosIn(row[1..])
  }

  /** Number of empty cells in the grid. */
  function ZeroCount(g: Grid): nat {
    if g == [] then 0 else ZerosIn(g[0]) + ZeroCount(g[1..])
  }

  lemma {:induction false} ZerosInFill(row: seq<int>, c: int, v: int)
    requires 0 <= c < |row| && row[c] == 0 && v != 0
    ensures ZerosIn(row[c := v]) + 1 == ZerosIn(row)
  {
    if c == 0 {
      assert row[c := v][1..] == row[1..];
    } else {
      assert row[c := v][1..] == row[1..][c - 1 := v];
      ZerosInFill(row[1..], c - 1, v);
    }
  }

  /** Writing a nonzero value into an empty cell removes exactly one empty cell. */
  lemma {:induction false} PlaceDecreasesZeroCount(g: Grid, r: int, c: int, v: int)
    requires 0 <= r < |g| && 0 <= c < |g[r]| && g[r][c] == 0 && v != 0
    ensures ZeroCount(Place(g, r, c, v)) + 1 == ZeroCount(g)
  {
    if r == 0 {
      assert Place(g, r, c, v)[1..] == g[1..];
      ZerosInFill(g[0], c, v);
    } else {
      assert Place(g, r, c, v)[1..] == Place(g[1..], r - 1, c, v);
      PlaceDecreasesZeroCount(g[1..], r - 1, c, v);
    }
  }

  // ---------------------------------------------------------------------
  // Solutions are exactly the filled, consistent grids

  /** In a solution no two peers hold the same value. */
  lemma SolutionIsConsistent(s: Grid)
    requires IsSolution(s)
    ensures Consistent(s)
  {
    forall r1, c1, r2, c2 |
      InBounds(r1, c1) && InBounds(r2, c2) && Peers(r1, c1, r2, c2) && s[r1][c1] != 0
      ensures s[r1][c1] != s[r2][c2]
    {
      var v := s[r1][c1];
      if r1 == r2 {
        assert OnceInRow(s, r1, v);
      } else if c1 == c2 {
        assert OnceInCol(s, c1, v);
      } else {
        assert OnceInBlock(s, r1, c1, v);
      }
    }
  }

  /** n distinct values drawn from an n-element set take every value of it. */
  lemma {:induction false} Pigeonhole(vals: seq<int>, digits: set<int>)
    requires |vals| == |digits|
    requires forall i :: 0 <= i < |vals| ==> vals[i] in digits
    requires forall i, j :: 0 <= i < j < |vals| ==> vals[i] != vals[j]
    ensures forall d :: d in digits ==> d in vals
  {
    if vals != [] {
      var rest := digits - {vals[0]};
      Pigeonhole(vals[1..], rest);
      forall d | d in digits ensures d in vals {
        if d != vals[0] {
          assert d in vals[1..];
        }
      }
    }
  }

  /** Nine distinct digits are all of 1..9. */
  lemma DistinctDigitsCoverAll(vals: seq<int>)
    requires |vals| == 9
    requires forall i :: 0 <= i < 9 ==> 1 <= vals[i] <= 9
    requires forall i, j :: 0 <= i < j < 9 ==> vals[i] != vals[j]
    ensures forall v :: 1 <= v <= 9 ==> v in vals
  {
    Pigeonhole(vals, {1, 2, 3, 4, 5, 6, 7, 8, 9});
  }

  /** Cell number i (0..8, row-major) of the block that holds (r, c). */
  function BlockCell(r: int, c: int, i: int): Pos {
    Pos(3 * Band(r) + Band(i), 3 * Band(c) + (i - 3 * Band(i)))
  }

  /** The nine cells BlockCell(r, c, 0..8) are distinct cells of the block that holds (r, c). */
  lemma BlockCells(r: int, c: int)
    requires InBounds(r, c)
    ensures forall i :: 0 <= i < 9 ==>
      InBounds(BlockCell(r, c, i).row, BlockCell(r, c, i).col) &&
      SameBlock(r, c, BlockCell(r, c, i).row, BlockCell(r, c, i).col)
    ensures forall i, j :: 0 <= i < j < 9 ==>
      Peers(BlockCell(r, c, i).row, BlockCell(r, c, i).col, BlockCell(r, c, j).row, BlockCell(r, c, j).col)
  {
  }

  lemma FilledRowOnce(g: Grid, r: int, v: int)
    requires WellFormed(g) && Filled(g) && Consistent(g) && 0 <= r < 9 && 1 <= v <= 9
    ensures OnceInRow(g, r, v)
  {
    forall i, j | 0 <= i < j < 9 ensures g[r][i] != g[r][j] {
      assert Peers(r, i, r, j);
    }
    DistinctDigitsCoverAll(g[r]);
    assert v in g[r];
    var c :| 0 <= c < 9 && g[r][c] == v;
    assert forall c2 :: 0 <= c2 < 9 && g[r][c2] == v ==> c2 == c;
  }

  lemma FilledColOnce(g: Grid, c: int, v: int)
    requires WellFormed(g) && Filled(g) && Consistent(g) && 0 <= c < 9 && 1 <= v <= 9
    ensures OnceInCol(g, c, v)
  {
    var vals := seq(9, i requires 0 <= i < 9 => g[i][c]);
    forall i, j | 0 <= i < j < 9 ensures vals[i] != vals[j] {
      assert Peers(i, c, j, c);
    }
    DistinctDigitsCoverAll(vals);
    assert v in vals;
    var r :| 0 <= r < 9 && vals[r] == v;
    assert forall r2 :: 0 <= r2 < 9 && g[r2][c] == v ==> r2 == r;
  }

  /** The cells of a block of a filled, consistent grid hold distinct values. */
  lemma BlockValuesDistinct(g: Grid, r: int, c: int)
    requires WellFormed(g) && Filled(g) && Consistent(g) && InBounds(r, c)
    ensures forall i, j :: 0 <= i < j < 9 ==>
      g[BlockCell(r, c, i).row][BlockCell(r, c, i).col] != g[BlockCell(r, c, j).row][BlockCell(r, c, j).col]
  {
    BlockCells(r, c);
  }

  /** In a consistent grid, a nonzero value held by cell p of a block is held by no other cell of it. */
  lemma OnlyHolderInBlock(g: Grid, r: int, c: int, p: Pos)
    requires WellFormed(g) && Consistent(g) && InBounds(r, c)
    requires InBounds(p.row, p.col) && SameBlock(r, c, p.row, p.col) && g[p.row][p.col] != 0
    ensures forall r2, c2 :: InBounds(r2, c2) && SameBlock(r, c, r2, c2) && g[r2][c2] == g[p.row][p.col] ==>
      r2 == p.row && c2 == p.col
  {
  }

  lemma FilledBlockOnce(g: Grid, r: int, c: int, v: int)
    requires WellFormed(g) && Filled(g) && Consistent(g) && InBounds(r, c) && 1 <= v <= 9
    ensures OnceInBlock(g, r, c, v)
  {
    BlockCells(r, c);
    BlockValuesDistinct(g, r, c);
    var vals := seq(9, i requires 0 <= i < 9 => g[BlockCell(r, c, i).row][BlockCell(r, c, i).col]);
    DistinctDigitsCoverAll(vals);
    assert v in vals;
    var i :| 0 <= i < 9 && vals[i] == v;
    var p := BlockCell(r, c, i);
    OnlyHolderInBlock(g, r, c, p);
    assert InBounds(p.row, p.col) && SameBlock(r, c, p.row, p.col) && g[p.row][p.col] == v;
  }

  /** A filled grid without repeated values among peers is a solution. */
  lemma FilledConsistentIsSolution(g: Grid)
    requires WellFormed(g) && Filled(g) && Consistent(g)
    ensures IsSolution(g)
  {
    forall r, v | 0 <= r < 9 && 1 <= v <= 9 ensures OnceInRow(g, r, v) {
      FilledRowOnce(g, r, v);
    }
    forall c, v | 0 <= c < 9 && 1 <= v <= 9 ensures OnceInCol(g, c, v) {
      FilledColOnce(g, c, v);
    }
    forall r, c, v | InBounds(r, c) && 1 <= v <= 9 ensures OnceInBlock(g, r, c, v) {
      FilledBlockOnce(g, r, c, v);
    }
  }

  // ---------------------------------------------------------------------
  // What one placement does to consistency and to the set of solutions

  /** Placing a value that breaks no rule into an empty cell keeps the grid consistent. */
  lemma PlacingKeepsConsistent(g: Grid, r: int, c: int, v: int)
    requires WellFormed(g) && Consistent(g) && InBounds(r, c) && g[r][c] == 0
    requires 1 <= v <= 9 && Placeable(g, r, c, v)
    ensures WellFormed(Place(g, r, c, v)) && Consistent(Place(g, r, c, v))
  {
    var h := Place(g, r, c, v);
    forall r1, c1, r2, c2 |
      InBounds(r1, c1) && InBounds(r2, c2) && Peers(r1, c1, r2, c2) && h[r1][c1] != 0
      ensures h[r1][c1] != h[r2][c2]
    {
      if r1 == r && c1 == c {
        assert g[r][c2] in g[r];
      } else if r2 == r && c2 == c {
        assert g[r][c1] in g[r];
      }
    }
  }

  /** A value that breaks a rule of `g` at an empty cell is not in that cell of any solution of `g`. */
  lemma NotPlaceableRulesOut(g: Grid, s: Grid, r: int, c: int, v: int)
    requires SolutionOf(s, g) && InBounds(r, c) && g[r][c] == 0 && !Placeable(g, r, c, v)
    ensures s[r][c] != v
  {
    SolutionIsConsistent(s);
    if v != 0 {
      if !RowFree(g, r, v) {
        var c2 :| 0 <= c2 < 9 && g[r][c2] == v;
        assert Peers(r, c2, r, c);
      } else if !ColFree(g, c, v) {
        var r2 :| 0 <= r2 < 9 && g[r2][c] == v;
        assert Peers(r2, c, r, c);
      } else {
        var r2, c2 :| InBounds(r2, c2) && SameBlock(r, c, r2, c2) && g[r2][c2] == v;
        assert Peers(r2, c2, r, c);
      }
    }
  }

  /** A solution of `g` is also a solution of `g` with one empty cell set to its value there. */
  lemma SolutionThroughPlace(s: Grid, g: Grid, r: int, c: int)
    requires SolutionOf(s, g) && InBounds(r, c)
    ensures SolutionOf(s, Place(g, r, c, s[r][c]))
  {
  }

  /** If `g` with `v` written at (r, c) has no solution, no solution of `g` has `v` at (r, c). */
  lemma FailedGuessRulesOut(g: Grid, r: int, c: int, v: int)
    requires WellFormed(g) && InBounds(r, c) && !Solvable(Place(g, r, c, v))
    ensures forall s :: SolutionOf(s, g) ==> s[r][c] != v
  {
    forall s | SolutionOf(s, g) ensures s[r][c] != v {
      SolutionThroughPlace(s, g, r, c);
    }
  }

  /** Keeping the givens of `g` with one more cell filled keeps the givens of `g`. */
  lemma ExtendsThroughPlace(s: Grid, g: Grid, r: int, c: int, v: int)
    requires WellFormed(s) && WellFormed(g) && InBounds(r, c) && g[r][c] == 0 && 0 <= v <= 9
    requires Extends(s, Place(g, r, c, v))
    ensures Extends(s, g)
  {
  }

  // ---------------------------------------------------------------------
  // Row-major order: which empty cell comes first, which solution comes first

  /** (r, c) comes strictly before `p` in row-major order. */
  predicate RowMajorBefore(r: int, c: int, p: Pos) {
    r < p.row || (r == p.row && c < p.col)
  }

  /** `p` is the first empty cell of `g` in row-major order. */
  ghost predicate IsFirstEmpty(g: Grid, p: Pos)
    requires WellFormed(g)
  {
    InBounds(p.row, p.col) && g[p.row][p.col] == 0 &&
    forall r, c :: InBounds(r, c) && RowMajorBefore(r, c, p) ==> g[r][c] != 0
  }

  /** `a` and `b` agree on every cell before `p` and `a` is smaller at `p`. */
  ghost predicate SmallerAt(a: Grid, b: Grid, p: Pos)
    requires WellFormed(a) && WellFormed(b)
  {
    InBounds(p.row, p.col) && a[p.row][p.col] < b[p.row][p.col] &&
    forall r, c :: InBounds(r, c) && RowMajorBefore(r, c, p) ==> a[r][c] == b[r][c]
  }

  /** `a` comes before `b` when their cells are compared in row-major order. */
  ghost predicate LexLess(a: Grid, b: Grid)
    requires WellFormed(a) && WellFormed(b)
  {
    exists p :: SmallerAt(a, b, p)
  }

  ghost predicate LexLeq(a: Grid, b: Grid)
    requires WellFormed(a) && WellFormed(b)
  {
    a == b || LexLess(a, b)
  }

  /** `s` is the solution of `g` that comes first in row-major order. */
  ghost predicate IsLeastSolution(s: Grid, g: Grid) {
    SolutionOf(s, g) && forall t :: SolutionOf(t, g) ==> LexLeq(s, t)
  }

  /** Row-major order on grids is asymmetric. */
  lemma LexLessAsymmetric(a: Grid, b: Grid)
    requires WellFormed(a) && WellFormed(b)
    ensures !(LexLess(a, b) && LexLess(b, a))
  {
    forall p, q ensures !(SmallerAt(a, b, p) && SmallerAt(b, a, q)) {
      if !InBounds(p.row, p.col) || !InBounds(q.row, q.col) {
      } else if RowMajorBefore(p.row, p.col, q) {
        assert SmallerAt(b, a, q) ==> a[p.row][p.col] == b[p.row][p.col];
      } else if RowMajorBefore(q.row, q.col, p) {
        assert SmallerAt(a, b, p) ==> a[q.row][q.col] == b[q.row][q.col];
      }
    }
  }

  /** A puzzle has at most one first solution, so the solver's answer is determined by its input. */
  lemma LeastSolutionUnique(g: Grid, a: Grid, b: Grid)
    requires IsLeastSolution(a, g) && IsLeastSolution(b, g)
    ensures a == b
  {
    assert LexLeq(a, b) && LexLeq(b, a);
    LexLessAsymmetric(a, b);
  }

  /** Two grids that keep the givens of `g` are ordered by the first empty cell of `g` if they differ there. */
  lemma FirstEmptyDecides(g: Grid, a: Grid, b: Grid, p: Pos)
    requires WellFormed(g) && IsFirstEmpty(g, p)
    requires WellFormed(a) && WellFormed(b) && Extends(a, g) && Extends(b, g)
    requires a[p.row][p.col] < b[p.row][p.col]
    ensures LexLess(a, b)
  {
    assert SmallerAt(a, b, p);
  }

  /**
    The search step: if no solution of `g` has a value below `v` at its first empty
    cell `p`, the least solution of `g` with `v` written at `p` is the least solution of `g`.
   */
  lemma LeastSolutionThroughGuess(g: Grid, p: Pos, v: int, s: Grid)
    requires WellFormed(g) && IsFirstEmpty(g, p) && 1 <= v <= 9
    requires forall t :: SolutionOf(t, g) ==> t[p.row][p.col] >= v
    requires IsLeastSolution(s, Place(g, p.row, p.col, v))
    ensures IsLeastSolution(s, g)
  {
    var h := Place(g, p.row, p.col, v);
    ExtendsThroughPlace(s, g, p.row, p.col, v);
    forall t | SolutionOf(t, g) ensures LexLeq(s, t) {
      if t[p.row][p.col] == v {
        SolutionThroughPlace(t, g, p.row, p.col);
      } else {
        FirstEmptyDecides(g, s, t, p);
      }
    }
  }

  /** The only grid that keeps all the givens of a filled grid is that grid. */
  lemma ExtendsFilled(s: Grid, g: Grid)
    requires WellFormed(s) && WellFormed(g) && Filled(g) && Extends(s, g)
    ensures s == g
  {
    forall r | 0 <= r < 9 ensures s[r] == g[r] {
      assert forall c :: 0 <= c < 9 ==> s[r][c] == g[r][c];
    }
  }
}
