# Sudoku backtracking solver — Dafny model

This project models the `Board` class of a small Python Sudoku solver (`main.py`).
A board is a 9x9 grid of integers in which 0 marks an empty cell. The class has:

- an empty-cell locator that scans the grid in row-major order (`find_empty_cell`);
- three uniqueness checks, for the row, the column and the 3x3 block of a cell,
  combined into `is_valid`;
- `solver`, a recursive backtracking search. It tries 1..9 in ascending order in
  the first empty cell and recurses. When a branch fails it resets the cell to 0.

Two modules make up the model:

- `SudokuRules` (`rules.dfy`) states the rules of Sudoku on grid values
  (`Grid = seq<seq<int>>`). A grid is well formed when it has nine rows of nine
  cells in 0..9. It is consistent when no two peers (different cells sharing a
  row, column or block) hold the same nonzero value. It is a solution when every
  row, column and block holds each of 1..9 exactly once. `SolutionOf(s, g)` says
  that `s` is a solution keeping every given (nonzero cell) of `g`. `Solvable(g)`
  says that such an `s` exists. The module also defines row-major order on
  cells and on grids and the count of empty cells. The lemmas about these
  notions are what the solver's proof uses.
- `SudokuBoard` (`board.dfy`) holds the class `Board`. Its field `cells` is the
  caller's `array2<int>`, written in place. A ghost field `grid` is its value
  view, and `Valid()` keeps the two equal cell by cell. The read-only checks and
  the locator are methods and predicates without a `modifies` clause, so Dafny
  checks that they leave the board unchanged. `Solver` is a recursive method that
  `modifies` the array. It terminates with the count of empty cells as its
  `decreases` measure.

What the solver's contract says, with input grid `g`:

- `False` means the board is identical to `g` cell for cell, and no solution
  keeps the givens of `g`. This holds even when the givens already repeat a
  value.
- `True` means no cell is 0, every given keeps its value, and every cell holds
  a value in 1..9 (from `Valid()`).
- If `g` is consistent, `True` is returned exactly when `g` is solvable. The
  board then holds the least solution of `g` in row-major order: the first one
  the ascending search reaches. `LeastSolutionUnique` shows that this solution
  is unique, so the result depends only on the input.

Preconditions model what the Python code assumes of its caller: a 9x9 grid, every
cell in 0..9, and row and column indices in 0..8.

## Model

| member | source | states |
|---|---|---|
| `SudokuBoard.Board.constructor` | main.py:18-25 | The board wraps the caller's own array without copying it (`cells == board`), and its grid view equals the array's contents. |
| `SudokuBoard.Board.FindEmptyCell` | main.py:41-55 | Returns None exactly when no cell is 0. Otherwise it returns the first 0 cell in row-major order: that cell is 0 and every cell before it is nonzero. |
| `SudokuBoard.Board.ValidInRow` | main.py:57-68 | True iff `num` occurs nowhere in row `row`. |
| `SudokuBoard.Board.ValidInCol` | main.py:70-81 | True iff `board[r][col] != num` for every r in 0..8. |
| `SudokuBoard.Board.ValidInSquare` | main.py:83-102 | Scans the block whose corner is `((row//3)*3, (col//3)*3)`. Returns true iff no cell in the same 3x3 block as (row, col) holds `num`. |
| `SudokuRules.BlockStart` | main.py:95-96 | The block corner `(i//3)*3` is the first index of the band (0..2, 3..5 or 6..8) that holds `i`, so `i` lies within the three rows (or columns) starting there. |
| `SudokuBoard.Board.IsValid` | main.py:104-120 | True iff the row, column and block checks all pass, so `num` can be written without repeating a value in any unit of the cell. |
| `SudokuBoard.Board.Solver` | main.py:122-138 | Terminates. False: the board is unchanged and no solution keeps the givens. True: no cell is 0 and the givens are kept. Consistent input: True iff solvable, and the result is the least solution in row-major order. |
| `SudokuBoard.SolveSudoku` | main.py:141-157 | Returns the board built on the caller's array after solving. Either it is filled with the givens kept (the least solution when the input is consistent), or it is unchanged and the puzzle has no solution. |
| `SudokuRules.PlaceDecreasesZeroCount` | main.py:131-135 | Writing a nonzero guess into a 0 cell lowers the number of empty cells by exactly one. This is the solver's termination measure. |
| `SudokuRules.FilledConsistentIsSolution` | main.py:129-130 | A filled grid with no value repeated among peers has each of 1..9 exactly once in every row, column and block. So returning True when no empty cell is left yields a solved puzzle. |
| `SudokuRules.SolutionIsConsistent` | main.py:122-127 | In a solved puzzle no two cells of a row, column or block hold the same value. |
| `SudokuRules.Pigeonhole` | main.py:122-127 | Nine distinct values drawn from a nine-element set take every value of it. This is the counting step behind "each digit exactly once". |
| `SudokuRules.PlacingKeepsConsistent` | main.py:132-134 | Writing a guess that passes `is_valid` into an empty cell of a consistent grid keeps the grid consistent. |
| `SudokuRules.NotPlaceableRulesOut` | main.py:131-132 | A guess that fails `is_valid` at an empty cell is not the value of that cell in any solution, so skipping it loses no solution. |
| `SudokuRules.SolutionThroughPlace` | main.py:133-137 | A solution of the grid is a solution of the grid with one empty cell set to the solution's value there. So a failed recursive call on guess v rules out every solution with v in that cell. |
| `SudokuRules.FailedGuessRulesOut` | main.py:133-137 | When the grid with guess v at (row, col) has no solution, no solution of the grid has v at (row, col). This is what lets the loop move on to the next guess. |
| `SudokuRules.LeastSolutionThroughGuess` | main.py:131-136 | The search step. Suppose no solution has a value below v at the first empty cell. Then the least solution of the grid with v written there is the least solution of the grid. |
| `SudokuRules.ExtendsThroughPlace` | main.py:134-136 | A grid that keeps the givens after one more cell was filled keeps the original givens. |
| `SudokuRules.FirstEmptyDecides` | main.py:129-135 | Two grids that keep the same givens are ordered by their values at the first empty cell. So a smaller successful guess gives a result before every solution with a larger value there. |
| `SudokuRules.ExtendsFilled` | main.py:129-130 | The only grid that keeps every given of a filled grid is that grid itself. |
| `SudokuRules.LexLessAsymmetric` | main.py:131 | Row-major order on grids is asymmetric. |
| `SudokuRules.LeastSolutionUnique` | main.py:129-138 | A puzzle has at most one least solution. The solver's result on a consistent input is therefore determined by that input. |

## Left out

- `Board.__str__` (main.py:27-39) is presentation only and is not modelled.
- The console output of `solve_sudoku` (main.py:152-156) is not modelled. Only
  its construction of the board and its call to `solver` are.
- Python lists of lists may share rows, as in `[[0] * 9] * 9`. A write to one
  cell would then change a whole column. An `array2` has 81 independent cells,
  so the model assumes rows that are not shared. The aliasing of the caller's
  grid as a whole is modelled: the board writes into the caller's array.
- Ragged grids, grids that are not 9x9, cell values outside 0..9 and negative
  indices (which Python reads from the end of a list) are excluded by
  preconditions. The solver never produces any of them.
- The `try`/`except ValueError` around `list.index` in `find_empty_cell` is
  modelled as a plain left-to-right scan of each row.
- SudokuBoard.Board.Solver: when the givens already repeat a value, a True result
  is only said to be filled and to keep the givens. It is not said to be a
  solution, because the code does not check its input and may then return such
  a grid.
- Recursion depth and running time are not modelled.
