/** `solve` on the grid value: depth-first search over copies of the board, branching on
    the cells whose count is the second-smallest distinct count. */
module Backtracking {
  import opened Grids
  import opened Assignment
  import opened Propagation
  import opened Clues

  /** How `solve` ends: a finished board, `None`, or the `IndexError` raised by
      `np.unique(...)[1]` when every cell has the same count. */
  datatype Verdict = Solved(grid: Grid) | Unsolvable | IndexError

  /** The board a trial works on: `copy`, `setval(x, y, choice)`, `update`. */
  function Child(g: Grid, p: Pos, d: Digit): Grid
  {
    Propagate(SetVal(g, p.col, p.row, d))
  }

  /** `solve(sudoku)`. */
  function Search(g: Grid): (v: Verdict)
    ensures v.Solved? ==> IsFinished(v.grid) && Within(v.grid, g) && (v.grid == g || IsConsistent(v.grid))
    ensures v.IndexError? ==> IsValid(g) && !IsFinished(g) && |Unique(g)| < 2
    ensures IsFinished(g) ==> v == Solved(g)
    ensures !IsValid(g) ==> v == Unsolvable
    decreases Total(g), 2, 0
  {
    if IsFinished(g) then Solved(g)
    else if !IsValid(g) then Unsolvable
    else
      var u := Unique(g);
      if |u| < 2 then IndexError
      else
        BranchCountUnsolved(g);
        TryCells(g, u[1], 0)
  }

  /** The outer for loop of `solve` from its `i`-th iteration on: the cells with count `n`
      in row-major order, the first success wins. */
  function TryCells(g: Grid, n: nat, i: nat): (v: Verdict)
    requires IsValid(g) && n >= 2
    ensures v.Solved? ==> IsFinished(v.grid) && Within(v.grid, g) && IsConsistent(v.grid)
    ensures !v.IndexError?
    decreases Total(g), 1, |CellsWithCount(g, n)| - i
  {
    var cells := CellsWithCount(g, n);
    if i >= |cells| then Unsolvable
    else
      assert cells[i] in cells;
      var v := TryChoices(g, cells[i], 0);
      if v.Unsolvable? then TryCells(g, n, i + 1) else v
  }

  /** The inner for loop of `solve` from its `j`-th iteration on: the candidates of `p` in
      ascending order, each tried on its own child board, the first success wins. */
  function TryChoices(g: Grid, p: Pos, j: nat): (v: Verdict)
    requires IsValid(g) && Count(At(g, p)) >= 2
    ensures v.Solved? ==> IsFinished(v.grid) && Within(v.grid, g) && IsConsistent(v.grid)
    ensures !v.IndexError?
    decreases Total(g), 0, |Candidates(At(g, p))| - j
  {
    var ds := Candidates(At(g, p));
    if j >= |ds| then Unsolvable
    else
      var v := Attempt(g, p, ds[j]);
      if v.Unsolvable? then TryChoices(g, p, j + 1) else v
  }

  /** One iteration of the inner loop: solve the child board of choice `d` at `p`. */
  function Attempt(g: Grid, p: Pos, d: Digit): (v: Verdict)
    requires Count(At(g, p)) >= 2 && At(g, p)[d - 1]
    ensures v.Solved? ==> IsFinished(v.grid) && Within(v.grid, g) && IsConsistent(v.grid)
    ensures !v.IndexError?
    decreases Total(g), 0, 0
  {
    var child := Child(g, p, d);
    ChildFacts(g, p, d);
    var v := Search(child);
    if v.Solved? then
      WithinTransitive(v.grid, child, g);
      v
    else v
  }

  /** On a valid board every distinct count is at least 1, so the second one is at least 2:
      the cells `solve` branches on are unsolved. */
  lemma BranchCountUnsolved(g: Grid)
    requires IsValid(g) && |Unique(g)| >= 2
    ensures Unique(g)[0] >= 1 && Unique(g)[1] >= 2
  {
    var u := Unique(g);
    assert u[0] in u;
    OccursIff(g, u[0], Pos(0, 0));
    var q := CellsWithCount(g, u[0])[0];
    assert Count(g[q.row][q.col]) != 0;
  }

  /** A trial only removes candidates, and at least one: its total is below the parent's. */
  lemma ChildSmaller(g: Grid, p: Pos, d: Digit)
    requires Count(At(g, p)) >= 2 && At(g, p)[d - 1]
    ensures Within(Child(g, p, d), g)
    ensures Total(Child(g, p, d)) < Total(g)
  {
    var s := SetVal(g, p.col, p.row, d);
    SetValShrinks(g, p.col, p.row, d);
    WithinTotal(Child(g, p, d), s);
    WithinTransitive(Child(g, p, d), s, g);
  }

  /** What a trial board inherits from the parent: it is smaller, consistent when valid,
      and has two distinct counts when valid and unfinished. */
  lemma ChildFacts(g: Grid, p: Pos, d: Digit)
    requires Count(At(g, p)) >= 2 && At(g, p)[d - 1]
    ensures Within(Child(g, p, d), g) && Total(Child(g, p, d)) < Total(g)
    ensures IsValid(Child(g, p, d)) ==> IsConsistent(Child(g, p, d))
    ensures IsValid(Child(g, p, d)) && !IsFinished(Child(g, p, d)) ==> |Unique(Child(g, p, d))| >= 2
  {
    ChildSmaller(g, p, d);
    ChildHasTwoCounts(g, p, d);
    PropagateConsistent(SetVal(g, p.col, p.row, d));
  }

  /** Two cells with different counts give `np.unique` at least two entries. */
  lemma TwoCounts(g: Grid, p: Pos, q: Pos)
    requires Count(At(g, p)) != Count(At(g, q))
    ensures |Unique(g)| >= 2
  {
    var u := Unique(g);
    OccursIff(g, Count(At(g, p)), p);
    OccursIff(g, Count(At(g, q)), q);
    var i :| 0 <= i < |u| && u[i] == Count(At(g, p));
    var j :| 0 <= j < |u| && u[j] == Count(At(g, q));
    assert i != j;
  }

  /** A child board never reaches the `IndexError`: its branching cell is solved, so a valid,
      unfinished child has the count 1 and some count above it. */
  lemma ChildHasTwoCounts(g: Grid, p: Pos, d: Digit)
    ensures IsValid(Child(g, p, d)) && !IsFinished(Child(g, p, d)) ==> |Unique(Child(g, p, d))| >= 2
  {
    var s := SetVal(g, p.col, p.row, d);
    var h := Child(g, p, d);
    if IsValid(h) && !IsFinished(h) {
      SetValTarget(g, p.col, p.row, d);
      CountMonotone(At(h, p), At(s, p));
      assert Count(At(h, p)) == 1;
      var r: Idx, c: Idx :| Count(h[r][c]) != 1;
      TwoCounts(h, p, Pos(r, c));
    }
  }

  /** With at most one distinct count, every cell has the count of the first one. */
  lemma OneCount(g: Grid)
    requires |Unique(g)| < 2
    ensures forall r: Idx, c: Idx :: Count(g[r][c]) == Count(g[0][0])
  {
    forall r: Idx, c: Idx ensures Count(g[r][c]) == Count(g[0][0]) {
      if Count(g[r][c]) != Count(g[0][0]) {
        TwoCounts(g, Pos(r, c), Pos(0, 0));
      }
    }
  }

  /** `solve` raises `IndexError` exactly on valid, unfinished boards whose cells all have
      the same count. */
  lemma SearchIndexError(g: Grid)
    ensures Search(g) == IndexError <==>
      IsValid(g) && !IsFinished(g) && forall r: Idx, c: Idx :: Count(g[r][c]) == Count(g[0][0])
  {
    if IsValid(g) && !IsFinished(g) {
      if |Unique(g)| < 2 {
        OneCount(g);
        assert Search(g) == IndexError;
      } else {
        BranchCountUnsolved(g);
        assert Search(g) == TryCells(g, Unique(g)[1], 0);
        SomeOtherCount(g);
      }
    }
  }

  /** With two distinct counts, some cell's count differs from that of (0, 0). */
  lemma SomeOtherCount(g: Grid)
    requires |Unique(g)| >= 2
    ensures !forall r: Idx, c: Idx :: Count(g[r][c]) == Count(g[0][0])
  {
    var u := Unique(g);
    assert u[0] in u && u[1] in u;
    OccursIff(g, u[0], Pos(0, 0));
    OccursIff(g, u[1], Pos(0, 0));
    var p, q := CellsWithCount(g, u[0])[0], CellsWithCount(g, u[1])[0];
    assert Count(g[p.row][p.col]) != Count(g[q.row][q.col]);
  }

  /** `solve` on the all-open board, which is also the board the constructor builds from an
      array without clues, raises `IndexError`: all 81 counts are 9. */
  lemma EmptyBoardRaises()
    ensures Search(AllOpen()) == IndexError
    ensures Search(FromClues(NoClues())) == IndexError
  {
    NoCluesNoChange(AllOpen(), NoClues());
    var g := AllOpen();
    forall r: Idx, c: Idx ensures Count(g[r][c]) == 9 {
      CountAll(g[r][c]);
    }
    assert !IsFinished(g) by {
      assert Count(g[0][0]) == 9;
    }
    SearchIndexError(g);
  }

  /** When some cell is solved, the branching count is the fewest candidates of any
      unsolved cell: the rule coincides with "minimum remaining values". */
  lemma BranchingIsFewestWhenSolvedCell(g: Grid, q: Pos)
    requires IsValid(g) && |Unique(g)| >= 2 && Count(At(g, q)) == 1
    ensures Unique(g)[1] >= 2
    ensures forall r: Idx, c: Idx :: Count(g[r][c]) >= 2 ==> Unique(g)[1] <= Count(g[r][c])
  {
    var u := Unique(g);
    BranchCountUnsolved(g);
    OccursIff(g, 1, q);
    assert u[0] == 1 by {
      var i :| 0 <= i < |u| && u[i] == 1;
      assert u[0] <= u[i];
    }
    forall r: Idx, c: Idx | Count(g[r][c]) >= 2 ensures u[1] <= Count(g[r][c]) {
      OccursIff(g, Count(g[r][c]), Pos(r, c));
      var j :| 0 <= j < |u| && u[j] == Count(g[r][c]);
      assert j != 0 && u[1] <= u[j];
    }
  }

  /** When no cell is solved, the branching count is not the fewest: the smallest count
      occurs on some unsolved cell and is below the count of every cell `solve` branches on. */
  lemma BranchingSkipsFewestWithoutSolvedCell(g: Grid)
    requires IsValid(g) && |Unique(g)| >= 2
    requires forall r: Idx, c: Idx :: Count(g[r][c]) != 1
    ensures Occurs(g, Unique(g)[0]) && 2 <= Unique(g)[0] < Unique(g)[1]
  {
    var u := Unique(g);
    BranchCountUnsolved(g);
    assert u[0] in u;
    OccursIff(g, u[0], Pos(0, 0));
    var q := CellsWithCount(g, u[0])[0];
    assert Count(g[q.row][q.col]) != 1;
  }

  /** A finished, consistent board is a Sudoku solution: no two cells that share a row,
      column or box hold the same digit. */
  lemma SolutionFollowsRules(h: Grid)
    requires IsFinished(h) && IsConsistent(h)
    ensures forall r: Idx, c: Idx, r2: Idx, c2: Idx :: Peer(r2, c2, r, c) ==>
      Candidates(h[r][c]) != Candidates(h[r2][c2])
  {
    forall r: Idx, c: Idx, r2: Idx, c2: Idx | Peer(r2, c2, r, c)
      ensures Candidates(h[r][c]) != Candidates(h[r2][c2])
    {
      var ds := Candidates(h[r][c]);
      assert |ds| == 1;
      assert ds[0] in ds;
      var d := ds[0];
      assert h[r][c][d - 1];
      assert !h[r2][c2][d - 1];
    }
  }

  /** A solution returned by `solve` keeps every cell that was already solved on the board
      it was given (in particular every clue that survived construction). */
  lemma SearchKeepsSolvedCells(g: Grid, r: Idx, c: Idx)
    requires Search(g).Solved? && Count(g[r][c]) == 1
    ensures Search(g).grid[r][c] == g[r][c]
  {
    var h := Search(g).grid;
    CountMonotone(h[r][c], g[r][c]);
  }
}
