/**
  The in-place backtracking solver: class Board over a 9x9 array of cells.

  The ghost field `grid` is the value-level view of `cells`; Valid() keeps the
  two equal, so every operation is specified against module SudokuRules.
 */
module SudokuBoard {
  import opened SudokuRules

  datatype Option<T> = None | Some(value: T)

  /** The contents of a 9x9 array as a grid value. */
  ghost function Contents(a: array2<int>): (g: Grid)
    reads a
    requires a.Length0 == 9 && a.Length1 == 9
    ensures |g| == 9 && forall r :: 0 <= r < 9 ==> |g[r]| == 9
    ensures forall r, c :: InBounds(r, c) ==> g[r][c] == a[r, c]
  {
    seq(9, r requires 0 <= r < 9 reads a =>
      seq(9, c requires 0 <= c < 9 reads a => a[r, c]))
  }

  class Board {
    /** The caller's 9x9 array; the solver writes into it in place. */
    const cells: array2<int>
    /** The abstract grid that `cells` holds. */
    ghost var grid: Grid

    ghost predicate Valid()
      reads this, cells
    {
      cells.Length0 == 9 && cells.Length1 == 9 && WellFormed(grid) &&
      forall r, c :: InBounds(r, c) ==> cells[r, c] == grid[r][c]
    }

    /** Wraps the caller's array without copying it. */
    constructor (board: array2<int>)
      requires board.Length0 == 9 && board.Length1 == 9
      requires forall r, c :: InBounds(r, c) ==> 0 <= board[r, c] <= 9
      ensures Valid() && cells == board && grid == Contents(board)
    {
      cells := board;
      grid := Contents(board);
    }

    /** Scans rows top to bottom and, in each row, columns left to right for a 0. */
    method FindEmptyCell() returns (next: Option<Pos>)
      requires Valid()
      ensures next.None? <==> Filled(grid)
      ensures next.Some? ==> IsFirstEmpty(grid, next.value)
    {
      var row := 0;
      while row < 9
        invariant 0 <= row <= 9
        invariant forall r, c :: 0 <= r < row && 0 <= c < 9 ==> grid[r][c] != 0
      {
        var col := 0;
        while col < 9
          invariant 0 <= col <= 9
          invariant forall c :: 0 <= c < col ==> grid[row][c] != 0
        {
          if cells[row, col] == 0 {
            return Some(Pos(row, col));
          }
          col := col + 1;
        }
        row := row + 1;
      }
      return None;
    }

    /** `num` is absent from row `row`. */
    predicate ValidInRow(row: int, num: int)
      reads this, cells
      requires Valid() && 0 <= row < 9
      ensures ValidInRow(row, num) <==> RowFree(grid, row, num)
    {
      forall c :: 0 <= c < 9 ==> cells[row, c] != num
    }

    /** `num` is absent from column `col`. */
    predicate ValidInCol(col: int, num: int)
      reads this, cells
      requires Valid() && 0 <= col < 9
      ensures ValidInCol(col, num) <==> ColFree(grid, col, num)
    {
      forall r :: 0 <= r < 9 ==> cells[r, col] != num
    }

    /** Scans the 3x3 block that holds (row, col), returning false at the first `num`. */
    method ValidInSquare(row: int, col: int, num: int) returns (ok: bool)
      requires Valid() && InBounds(row, col)
      ensures ok <==> BlockFree(grid, row, col, num)
    {
      var rowStart := BlockStart(row);
      var colStart := BlockStart(col);
      for rowNo := rowStart to rowStart + 3
        invariant forall r, c :: rowStart <= r < rowNo && colStart <= c < colStart + 3 ==> grid[r][c] != num
      {
        for colNo := colStart to colStart + 3
          invariant forall c :: colStart <= c < colNo ==> grid[rowNo][c] != num
        {
          if cells[rowNo, colNo] == num {
            return false;
          }
        }
      }
      return true;
    }

    /** Whether `num` may be written at `empty`: the row, column and block checks together. */
    method IsValid(empty: Pos, num: int) returns (ok: bool)
      requires Valid() && InBounds(empty.row, empty.col)
      ensures ok <==> Placeable(grid, empty.row, empty.col, num)
    {
      var row, col := empty.row, empty.col;
      var inRow := ValidInRow(row, num);
      var inCol := ValidInCol(col, num);
      var inSquare := ValidInSquare(row, col, num);
      ok := inRow && inCol && inSquare;
    }

    /**
      Backtracking search: fill the first empty cell with each value 1..9 that
      breaks no rule, recurse, and reset the cell to 0 when the branch fails.
     */
    method Solver() returns (solved: bool)
      requires Valid()
      modifies this, cells
      decreases ZeroCount(grid)
      ensures Valid()
      ensures solved ==> Filled(grid) && Extends(grid, old(grid))
      ensures solved && Consistent(old(grid)) ==> IsLeastSolution(grid, old(grid))
      ensures !solved ==> grid == old(grid) && !Solvable(old(grid))
      ensures Consistent(old(grid)) ==> (solved <==> Solvable(old(grid)))
    {
      var next := FindEmptyCell();
      if next.None? {
        if Consistent(grid) {
          FilledConsistentIsSolution(grid);
          forall s | SolutionOf(s, grid) ensures s == grid {
            ExtendsFilled(s, grid);
          }
          assert SolutionOf(grid, grid);
        }
        return true;
      }
      var empty := next.value;
      var row, col := empty.row, empty.col;
      ghost var g0 := grid;
      for guess := 1 to 10
        invariant Valid() && grid == g0
        invariant forall s :: SolutionOf(s, g0) ==> s[row][col] >= guess
      {
        var ok := IsValid(empty, guess);
        if ok {
          cells[row, col] := guess;
          grid := Place(g0, row, col, guess);
          PlaceDecreasesZeroCount(g0, row, col, guess);
          solved := Solver();
          if solved {
            ExtendsThroughPlace(grid, g0, row, col, guess);
            if Consistent(g0) {
              PlacingKeepsConsistent(g0, row, col, guess);
              LeastSolutionThroughGuess(g0, empty, guess, grid);
            }
            return;
          }
          cells[row, col] := 0;
          grid := g0;
          FailedGuessRulesOut(g0, row, col, guess);
        } else {
          forall s | SolutionOf(s, g0) ensures s[row][col] != guess {
            NotPlaceableRulesOut(g0, s, row, col, guess);
          }
        }
      }
      return false;
    }
  }

  /** Wraps the caller's array in a Board and runs the solver on it; the board is returned either way. */
  method SolveSudoku(board: array2<int>) returns (game: Board)
    requires board.Length0 == 9 && board.Length1 == 9
    requires forall r, c :: InBounds(r, c) ==> 0 <= board[r, c] <= 9
    modifies board
    ensures fresh(game) && game.Valid() && game.cells == board
    ensures var given := old(Contents(board));
      (Filled(game.grid) && Extends(game.grid, given) && (Consistent(given) ==> IsLeastSolution(game.grid, given))) ||
      (game.grid == given && !Solvable(given))
  {
    game := new Board(board);
    var _ := game.Solver();
  }
}
