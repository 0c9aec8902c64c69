/** `solve` on `Sudoku` objects: a depth-first search that copies the board before every
    trial, so the board it is given is never changed. */
module Solver {
  import opened Grids
  import opened Propagation
  import opened Backtracking
  import opened SudokuBoard

  /** What `solve` hands back: a finished board, `None`, or the `IndexError` it raises. */
  datatype Answer = Found(board: Sudoku) | NotFound | Raised

  /** `solve(sudoku)`: return the board itself when it is finished; on a valid board, try
      every candidate of every cell whose count is the second-smallest distinct count, each
      on a copy that gets `setval` and `update`, and return the first solution found. */
  method Solve(s: Sudoku) returns (a: Answer)
    requires s.Valid()
    ensures a.Found? ==> a.board.Valid() && Search(s.model) == Solved(a.board.model)
    ensures a.NotFound? ==> Search(s.model) == Unsolvable
    ensures a.Raised? ==> Search(s.model) == IndexError
    ensures unchanged(s, s.possibilities)
    decreases Total(s.model), 2
  {
    var g := s.Board();
    if IsFinished(g) {
      return Found(s);
    }
    if !IsValid(g) {
      return NotFound;
    }
    var u := Unique(g);
    if |u| < 2 {
      return Raised;
    }
    BranchCountUnsolved(g);
    var cells := CellsWithCount(g, u[1]);
    for i := 0 to |cells|
      invariant Search(g) == TryCells(g, u[1], i)
    {
      assert cells[i] in cells;
      a := TryCell(s, cells[i]);
      if !a.NotFound? {
        return;
      }
    }
    return NotFound;
  }

  /** The inner for loop of `solve`: every candidate of `p`, in ascending order. */
  method TryCell(s: Sudoku, p: Pos) returns (a: Answer)
    requires s.Valid() && IsValid(s.model) && Count(At(s.model, p)) >= 2
    ensures a.Found? ==> a.board.Valid() && ChoicesFrom(s.model, p, 0) == Solved(a.board.model)
    ensures a.NotFound? ==> ChoicesFrom(s.model, p, 0) == Unsolvable
    ensures a.Raised? ==> ChoicesFrom(s.model, p, 0) == IndexError
    ensures unchanged(s, s.possibilities)
    decreases Total(s.model), 1
  {
    var ds := Candidates(At(s.Board(), p));
    for j := 0 to |ds|
      invariant ChoicesFrom(s.model, p, 0) == ChoicesFrom(s.model, p, j)
    {
      a := Trial(s, p, ds[j]);
      if !a.NotFound? {
        return;
      }
    }
    return NotFound;
  }

  /** The outcome of the inner loop over `p` from its `j`-th iteration on (`TryChoices`);
      the loop's specification is stated through it so that it stays one step deep. */
  ghost function ChoicesFrom(g: Grid, p: Pos, j: nat): Verdict
    requires IsValid(g) && Count(At(g, p)) >= 2
  {
    TryChoices(g, p, j)
  }

  /** The body of `solve`'s inner loop: copy the board, `setval` the choice on the copy,
      `update` the copy and solve it. */
  method Trial(s: Sudoku, p: Pos, d: Digit) returns (a: Answer)
    requires s.Valid() && Count(At(s.model, p)) >= 2 && At(s.model, p)[d - 1]
    ensures a.Found? ==> a.board.Valid() && Attempt(s.model, p, d) == Solved(a.board.model)
    ensures a.NotFound? ==> Attempt(s.model, p, d) == Unsolvable
    ensures a.Raised? ==> Attempt(s.model, p, d) == IndexError
    ensures unchanged(s, s.possibilities)
    decreases Total(s.model), 0, 0
  {
    var c := s.Copy();
    c.SetVal(p.col, p.row, d);
    c.Update();
    ChildFacts(s.model, p, d);
    a := Solve(c);
  }

}
