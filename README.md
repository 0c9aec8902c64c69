# A verified model of `sudokusolver.py`

`sudokusolver.py` solves 9x9 Sudoku puzzles. It combines constraint propagation with
depth-first backtracking. The board is one 9x9x9 boolean array `possibilities[row, col, digit - 1]`:
flag k of a cell says whether digit k + 1 is still possible there.

- `setval(x, y, num)` puts a digit in a cell. It clears `num` from the row, the column
  and the 3x3 box, then makes `num` the only candidate of the cell.
- `update` repeats passes over the solved cells until a pass leaves the total number of
  candidates unchanged. Each pass assigns, in row-major order, the cells that were solved
  when the pass began. It checks `is_valid` before each one and returns from `update` as
  soon as a check fails.
- `solve` returns a finished board as it is. It abandons an invalid board. Otherwise it tries
  every candidate of every cell whose count equals the second-smallest distinct count, each on
  a copy that gets `setval` and `update`, and it recurses on that copy.

The model has two layers.

- A value layer works on `Grid = seq<seq<Cell>>` with `Cell = seq<bool>` of length 9.
  - `Grids`: the queries `possibility_count`, `count_filled`, `is_finished`, `is_valid`,
    `get_possibilities`, plus `np.argwhere(counts == n)`, `np.unique` and `np.sum`.
  - `Assignment`: `setval`, as its four slice assignments.
  - `Propagation`: `update`.
  - `Clues`: the clue loop of the constructor.
  - `Backtracking`: `solve`, as the functions `Search`, `TryCells`, `TryChoices` and `Attempt`.
    These call one another recursively and return a `Verdict`.
- An object layer covers the parts of the program that change state in place.
  - `SudokuBoard.Sudoku` is a class over an `array3<bool>`. Its methods use `forall`
    statements for the slice assignments, nested `for` loops for the clue loop, and a
    `while true` loop for `update`. Each method is proved to leave in its ghost field
    `model` exactly what the matching value-layer function computes.
  - `Solver.Solve` is `solve` over `Sudoku` objects, with its two `for` loops. It is proved
    to return what `Backtracking.Search` says, and never to change the board it is given.
  - The pure queries of the class are the `Grids` functions applied to `Sudoku.Board()`,
    the grid read out of the array.

Where the code and its usual description disagree, the model follows the code.

- **Branching cells.** `solve` does not branch on one cell with the fewest candidates. It uses
  `np.unique(counts)[1]`, the second-smallest distinct count. It then loops over every cell
  with that count, in row-major order, before it gives up.
  - When some cell is solved, that count is the fewest candidates of any unsolved cell
    (`BranchingIsFewestWhenSolvedCell`).
  - When no cell is solved, it is not the fewest (`BranchingSkipsFewestWithoutSolvedCell`).
- **IndexError.** On a valid, unfinished board whose cells all have the same count, `np.unique(...)[1]` raises `IndexError`.
  The model keeps this as a third outcome, next to a solution and `None`
  (`Verdict.IndexError`, `Answer.Raised`). `SearchIndexError` says exactly when it happens.
  `EmptyBoardRaises` shows that the board the constructor builds from an all-zero array
  raises it. A board
  produced inside the search never raises it (`ChildHasTwoCounts`).
- **Clue order matters.** Clues are placed in row-major order. A later clue in the same row,
  column or box with the same digit empties the cell of an earlier clue
  (`ClueCellCandidates`, `RepeatedClueEmptiesCell`).
- **Non-positive clues.** A clue value of 0 or below is skipped (`arr[i, j] > 0`).

## Model

| member | source | states |
|---|---|---|
| Grids.Count | sudokusolver.py:68-70 | a cell's `possibility_count` is at most the number of its flags, so it lies in 0..9 |
| Grids.Candidates | sudokusolver.py:84-86 | `get_possibilities` is strictly ascending, has as many digits as the cell's count, holds digit d exactly when flag d - 1 is set, and every digit it holds is a candidate |
| Grids.ValidIffNoEmptyCell | sudokusolver.py:80-82 | `is_valid` (no cell has count 0) holds exactly when the scan for count 0 finds no cell (`0 not in possibility_count()`) |
| Grids.IsFinished | sudokusolver.py:76-78 | a finished board (every count 1) is valid |
| Grids.CountFilled | sudokusolver.py:72-74 | `count_filled` is at most 81, and is 81 exactly when the board is finished |
| Grids.CellsWithCount | sudokusolver.py:47 | `np.argwhere(counts == n)` lists a cell exactly when its count is n, in row-major order |
| Grids.OccursIff | sudokusolver.py:103 | a count occurs on the board exactly when some cell has it, and the first cell listed for it has it |
| Grids.Unique | sudokusolver.py:103 | `np.unique(counts)` is strictly ascending and holds exactly the counts that occur |
| Grids.WithinTotal | sudokusolver.py:46-54 | removing candidates never raises `np.sum(counts)`, and leaves it equal only when nothing was removed |
| Grids.CountMonotone | sudokusolver.py:68-70 | removing flags from a cell never raises its count, and keeps it only when no flag was removed |
| Grids.AllSolvedFound | sudokusolver.py:72-78 | the scan for solved cells finds all 81 exactly when the board is finished |
| Assignment.OneHot | sudokusolver.py:39-41 | the array written into the target cell has one flag, count 1, and the single candidate `num` |
| Assignment.SetValEffect | sudokusolver.py:29-41 | after `setval(x, y, num)` the target (y, x) holds `num` alone, `num` is cleared from every other cell of row y, column x and the box of (y, x), and every other flag is unchanged |
| Assignment.SetValTarget | sudokusolver.py:39-41 | the target cell has count 1 and candidates `[num]`, whatever it held before |
| Assignment.SetValIdempotent | sudokusolver.py:29-41 | calling `setval` twice with the same arguments gives the board of one call |
| Assignment.SetValShrinks | sudokusolver.py:29-41 | setting a digit that is still a candidate only removes candidates, and lowers the total when the target had two or more |
| Assignment.SetValStable | sudokusolver.py:29-41 | on a cell solved to `num`, `setval` changes nothing exactly when no peer still has `num` |
| Propagation.Forced | sudokusolver.py:49 | `get_possibilities(x, y)[0]` on a valid board is a candidate of the cell, and no smaller digit is one |
| Propagation.Pass | sudokusolver.py:47-51 | one pass only removes candidates, and when it returns early the board is invalid |
| Propagation.Propagate | sudokusolver.py:43-54 | `update` only removes candidates: every cell ends up with a subset of its candidates |
| Propagation.ForcedCellIsSolved | sudokusolver.py:47-49 | while the board is valid, the cell whose turn has come in the snapshot has exactly one candidate, and assigning it keeps the rest of the snapshot at one or fewer |
| Propagation.PassAssignsSolved | sudokusolver.py:47-51 | in a pass over a snapshot of cells with one candidate or none, every cell assigned while the board is still valid has exactly one candidate at its turn |
| Propagation.UpdateAssignsSolved | sudokusolver.py:46-51 | every cell `update`'s pass assigns has exactly one candidate when it is assigned |
| Propagation.PropagateInvalid | sudokusolver.py:44-54 | on an invalid board `update` changes nothing |
| Propagation.PropagateStep | sudokusolver.py:45-54 | after one pass, an early return or an unchanged total ends `update` with that board; otherwise the total has gone down and `update` goes on from the new board |
| Propagation.PassUnchanged | sudokusolver.py:47-51 | a pass that ends where it started made no change with any of its assignments |
| Propagation.PassStable | sudokusolver.py:47-51 | on a valid board, a pass whose assignments change nothing completes without a change |
| Propagation.PropagateIdempotent | sudokusolver.py:43-54 | a second `update` changes nothing |
| Propagation.StableIsConsistent | sudokusolver.py:47-49 | when no solved cell's assignment changes a valid board, no solved digit remains in any peer |
| Propagation.ConsistentIsStable | sudokusolver.py:47-49 | on a valid board where no solved digit remains in a peer, no solved cell's assignment changes anything |
| Propagation.PropagateFixedPoint | sudokusolver.py:53-54 | on a valid board `update` changes nothing exactly when no solved cell's digit is left in one of its peers |
| Propagation.PropagateConsistent | sudokusolver.py:43-54 | what `update` returns is invalid, or no solved cell's digit is left in one of its peers |
| Clues.PlaceRowsReached | sudokusolver.py:24-27 | after the clue loop has passed row i, every flag is as the clues before row i dictate |
| Clues.PlacedEffect | sudokusolver.py:24-27 | every flag after the whole clue loop, as a function of the clues and the starting board |
| Clues.OpenCellCandidates | sudokusolver.py:24-27 | a cell without a clue keeps digit d exactly when no cell of its row, column or box has clue d |
| Clues.ClueCellCandidates | sudokusolver.py:24-27 | a clue cell keeps digit d exactly when d is its clue and no later cell of its row, column or box repeats it |
| Clues.ProperCluesKept | sudokusolver.py:24-27 | with no repeated clue in a row, column or box, every clue cell ends up solved to its clue |
| Clues.RepeatedClueEmptiesCell | sudokusolver.py:24-27 | two equal clues side by side leave the first cell with no candidate, so the board is invalid |
| Clues.NoCluesNoChange | sudokusolver.py:24-27 | an array without positive clues leaves the given board unchanged |
| SudokuBoard.Sudoku.constructor | sudokusolver.py:5-27 | `Sudoku(arr)` allocates a fresh all-true array and leaves the board the clue loop builds on it |
| SudokuBoard.Sudoku.Adopt | sudokusolver.py:13-27 | `Sudoku(arr, possibilities)` takes the given array itself as its state and places the clues on it |
| SudokuBoard.Sudoku.PlaceClues | sudokusolver.py:24-27 | the nested clue loop leaves exactly the board of the clue placement function |
| SudokuBoard.Sudoku.SetVal | sudokusolver.py:29-41 | the four in-place slice assignments leave exactly the board of `Assignment.SetVal`, in the same array |
| SudokuBoard.Sudoku.Update | sudokusolver.py:43-54 | the `while true` loop ends, in the same array, with exactly the board `Propagate` computes |
| SudokuBoard.Sudoku.Round | sudokusolver.py:45-54 | one iteration either ends `update` with its result, or lowers the total and keeps the result to come |
| SudokuBoard.Sudoku.RunPass | sudokusolver.py:47-51 | the for loop of one pass ends as `Pass` says: completed with its board, or returned early on an invalid board |
| SudokuBoard.Sudoku.Copy | sudokusolver.py:88-89 | `copy` returns a new board over a fresh array with the same candidates |
| Backtracking.Search | sudokusolver.py:92-112 | a solution is finished, only removes candidates, and is the given board or a board with no solved digit left in a peer; `IndexError` only on a valid, unfinished board with one distinct count; a finished board is returned as it is; an invalid one gives `None` |
| Backtracking.TryCells | sudokusolver.py:102-112 | the loop over the branching cells never raises, and any solution it returns is finished, within the board, and has no solved digit left in a peer |
| Backtracking.TryChoices | sudokusolver.py:105-112 | the same for the loop over one cell's candidates |
| Backtracking.Attempt | sudokusolver.py:106-110 | the same for one trial on a copy |
| Backtracking.BranchCountUnsolved | sudokusolver.py:99-104 | on a valid board with two distinct counts the smallest is at least 1 and the branching count at least 2, so the branching cells are unsolved |
| Backtracking.ChildSmaller | sudokusolver.py:106-110 | the board of a trial has fewer candidates in total than its parent: the recursion terminates |
| Backtracking.ChildFacts | sudokusolver.py:106-110 | the board of a trial is within its parent and smaller; when valid it has no solved digit in a peer, and when also unfinished it has two distinct counts |
| Backtracking.ChildHasTwoCounts | sudokusolver.py:103-110 | a valid, unfinished trial board has at least two distinct counts, so it never raises `IndexError` |
| Backtracking.TwoCounts | sudokusolver.py:103 | two cells with different counts give `np.unique` at least two entries |
| Backtracking.OneCount | sudokusolver.py:103 | with fewer than two distinct counts every cell has the count of (0, 0) |
| Backtracking.SomeOtherCount | sudokusolver.py:103 | with two distinct counts some cell's count differs from that of (0, 0) |
| Backtracking.SearchIndexError | sudokusolver.py:96-104 | `solve` raises `IndexError` exactly on valid, unfinished boards whose cells all have the same count |
| Backtracking.EmptyBoardRaises | sudokusolver.py:103 | `solve` on the all-open board, and on the board the constructor builds from an all-zero array, raises `IndexError` |
| Backtracking.BranchingIsFewestWhenSolvedCell | sudokusolver.py:100-104 | with a solved cell, the branching count is the fewest candidates of any unsolved cell |
| Backtracking.BranchingSkipsFewestWithoutSolvedCell | sudokusolver.py:100-104 | without a solved cell, the smallest count occurs on an unsolved cell and is below the branching count |
| Backtracking.SolutionFollowsRules | sudokusolver.py:96-112 | a finished board with no solved digit left in a peer has different digits in any two cells of a row, column or box |
| Backtracking.SearchKeepsSolvedCells | sudokusolver.py:92-112 | a solution keeps every cell that was already solved on the given board |
| Solver.Solve | sudokusolver.py:92-112 | `solve` returns the board `Search` describes, `None` or `IndexError` exactly as `Search` says, and leaves the given board unchanged |
| Solver.TryCell | sudokusolver.py:105-112 | the inner for loop returns the outcome `TryChoices` describes and leaves the board unchanged |
| Solver.Trial | sudokusolver.py:106-110 | one trial (copy, `setval`, `update`, recurse) returns the outcome `Attempt` describes and leaves the board unchanged |

## Left out

- `__str__` (sudokusolver.py:56-66): text formatting only.
- The `__main__` block (sudokusolver.py:115 on): demonstration puzzles and `print`.
- numpy itself. The array is an `array3<bool>` or a `Grid`. `argwhere` is a row-major scan.
  `np.unique` is the ascending list of the counts that occur. `np.sum` is a fold over the rows.
- Clue values above 9 are excluded by a precondition (`Clues.WellFormed`). In the source they
  make `num - 1` index past the digit axis and raise. Float clue arrays (the `np.zeros`
  default) are modelled as integer arrays.
- The `depth` parameter of `solve` is never read and is left out.
- `possibility_count`, `count_filled`, `is_finished`, `is_valid` and `get_possibilities` are
  not repeated as members of the class. They are the `Grids` functions applied to `Board()`.
- Solver.Solve: the Python truthiness test `if solution:` is modelled as "the result is not
  `None`"; a `Sudoku` object has no `__bool__` or `__len__`, so every board counts as true.
- Full Sudoku soundness and completeness are not claimed. `SolutionFollowsRules` and
  `SearchKeepsSolvedCells` state what a returned board satisfies. Nothing is proved about
  whether `solve` finds a solution when one exists.
