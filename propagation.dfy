/** `Sudoku.update` on the grid value: naked-single propagation to a fixed point. */
module Propagation {
  import opened Grids
  import opened Assignment

  /** How one pass of `update`'s for loop ends: it went through its whole snapshot,
      or it found the board invalid before a forced assignment and returned. */
  datatype PassEnd = Completed(grid: Grid) | Aborted(grid: Grid)

  /** The digit a solved (or over-solved) cell is forced to: `get_possibilities(x, y)[0]`,
      the smallest of its candidates. */
  function Forced(g: Grid, p: Pos): (num: Digit)
    requires IsValid(g)
    ensures At(g, p)[num - 1]
    ensures forall k: Idx :: At(g, p)[k] ==> num <= k + 1
  {
    var ds := Candidates(At(g, p));
    assert |ds| == Count(g[p.row][p.col]) != 0;
    assert ds[0] in ds;
    forall k: Idx | At(g, p)[k] ensures ds[0] <= k + 1 {
      assert k + 1 in Candidates(At(g, p));
    }
    ds[0]
  }

  /** One pass of the for loop over the snapshot `todo`: check `is_valid`, then
      `setval` the cell to its first candidate; stop at the first failed check. */
  function Pass(g: Grid, todo: seq<Pos>): (e: PassEnd)
    ensures Within(e.grid, g)
    ensures e.Aborted? ==> !IsValid(e.grid)
    decreases |todo|
  {
    if todo == [] then Completed(g)
    else if !IsValid(g) then Aborted(g)
    else
      var p := todo[0];
      var next := SetVal(g, p.col, p.row, Forced(g, p));
      SetValShrinks(g, p.col, p.row, Forced(g, p));
      var e := Pass(next, todo[1..]);
      WithinTransitive(e.grid, next, g);
      e
  }

  /** `update`: repeat passes over the cells that have one candidate until a pass leaves
      the total count unchanged, or a pass finds the board invalid. */
  function Propagate(g: Grid): (h: Grid)
    ensures Within(h, g)
    decreases Total(g)
  {
    match Pass(g, CellsWithCount(g, 1))
    case Aborted(h) => h
    case Completed(h) =>
      WithinTotal(h, g);
      if Total(h) == Total(g) then h
      else
        var r := Propagate(h);
        WithinTransitive(r, h, g);
        r
  }

  /** One step of `update`'s outer loop: an aborted pass ends it with the board as the pass
      left it; a completed pass ends it when the total is unchanged, and otherwise has
      lowered the total and starts over. */
  lemma PropagateStep(g: Grid, h: Grid, completed: bool)
    requires Pass(g, CellsWithCount(g, 1)) == (if completed then Completed(h) else Aborted(h))
    ensures !completed ==> Propagate(g) == h
    ensures completed && Total(h) == Total(g) ==> Propagate(g) == h
    ensures completed && Total(h) != Total(g) ==> Total(h) < Total(g) && Propagate(g) == Propagate(h)
  {
    WithinTotal(h, g);
  }

  /** Every solved cell's digit is absent from all of its peers. */
  ghost predicate IsConsistent(g: Grid)
  {
    forall r: Idx, c: Idx, r2: Idx, c2: Idx, k: Idx ::
      Count(g[r][c]) == 1 && g[r][c][k] && Peer(r2, c2, r, c) ==> !g[r2][c2][k]
  }

  /** The snapshot holds cells with (at most) one candidate. As long as the board is valid,
      the cell whose turn has come still has exactly one, and its assignment keeps the rest
      of the snapshot at (at most) one. */
  lemma {:induction false} ForcedCellIsSolved(g: Grid, todo: seq<Pos>)
    requires forall p :: p in todo ==> Count(At(g, p)) <= 1
    requires todo != [] && IsValid(g)
    ensures Count(At(g, todo[0])) == 1
    ensures forall p :: p in todo[1..] ==>
      Count(At(SetVal(g, todo[0].col, todo[0].row, Forced(g, todo[0])), p)) <= 1
  {
    var q := todo[0];
    assert q in todo;
    var next := SetVal(g, q.col, q.row, Forced(g, q));
    SetValShrinks(g, q.col, q.row, Forced(g, q));
    forall p | p in todo[1..] ensures Count(At(next, p)) <= 1 {
      assert p in todo;
      assert forall k :: 0 <= k < 9 && At(next, p)[k] ==> At(g, p)[k];
      CountMonotone(At(next, p), At(g, p));
    }
  }

  /** Every cell a pass over `todo` assigns has exactly one candidate when its turn comes:
      the pass stops at its first failed validity check, so only assignments made on a
      valid board are looked at. */
  ghost predicate AssignsSolved(g: Grid, todo: seq<Pos>)
    decreases |todo|
  {
    todo == [] || !IsValid(g) ||
    (Count(At(g, todo[0])) == 1 && AssignsSolved(SetVal(g, todo[0].col, todo[0].row, Forced(g, todo[0])), todo[1..]))
  }

  /** A pass over a snapshot of cells with at most one candidate assigns only solved cells. */
  lemma {:induction false} PassAssignsSolved(g: Grid, todo: seq<Pos>)
    requires forall p :: p in todo ==> Count(At(g, p)) <= 1
    ensures AssignsSolved(g, todo)
    decreases |todo|
  {
    if todo != [] && IsValid(g) {
      ForcedCellIsSolved(g, todo);
      PassAssignsSolved(SetVal(g, todo[0].col, todo[0].row, Forced(g, todo[0])), todo[1..]);
    }
  }

  /** Every cell `update`'s first pass assigns still has exactly one candidate when assigned. */
  lemma UpdateAssignsSolved(g: Grid)
    ensures AssignsSolved(g, CellsWithCount(g, 1))
  {
    PassAssignsSolved(g, CellsWithCount(g, 1));
  }

  /** On an invalid board `update` changes nothing. */
  lemma PropagateInvalid(g: Grid)
    requires !IsValid(g)
    ensures Propagate(g) == g
  {
    var todo := CellsWithCount(g, 1);
    assert Pass(g, todo).grid == g;
  }

  /** A pass that ends where it started made no change with any of its assignments. */
  lemma {:induction false} PassUnchanged(g: Grid, todo: seq<Pos>)
    requires Pass(g, todo) == Completed(g)
    ensures forall p :: p in todo ==> IsValid(g) && SetVal(g, p.col, p.row, Forced(g, p)) == g
    decreases |todo|
  {
    if todo != [] {
      var q := todo[0];
      var next := SetVal(g, q.col, q.row, Forced(g, q));
      SetValShrinks(g, q.col, q.row, Forced(g, q));
      WithinAntisymmetric(next, g);
      PassUnchanged(g, todo[1..]);
    }
  }

  /** A pass over cells whose assignments change nothing leaves a valid board as it is. */
  lemma {:induction false} PassStable(g: Grid, todo: seq<Pos>)
    requires IsValid(g)
    requires forall p :: p in todo ==> SetVal(g, p.col, p.row, Forced(g, p)) == g
    ensures Pass(g, todo) == Completed(g)
    decreases |todo|
  {
    if todo != [] {
      PassStable(g, todo[1..]);
    }
  }

  /** Running `update` a second time changes nothing: its result is a fixed point. */
  lemma {:induction false} PropagateIdempotent(g: Grid)
    ensures Propagate(Propagate(g)) == Propagate(g)
    decreases Total(g)
  {
    match Pass(g, CellsWithCount(g, 1))
    case Aborted(h) =>
      PropagateInvalid(h);
    case Completed(h) =>
      WithinTotal(h, g);
      if Total(h) != Total(g) {
        PropagateIdempotent(h);
      }
  }

  /** The cells `update` snapshots are exactly the solved ones. */
  lemma SolvedListed(g: Grid, p: Pos)
    ensures p in CellsWithCount(g, 1) <==> Count(g[p.row][p.col]) == 1
  {
  }

  /** On a valid board, if no solved cell's assignment changes anything, the board is consistent. */
  lemma StableIsConsistent(g: Grid)
    requires IsValid(g)
    requires forall p :: p in CellsWithCount(g, 1) ==> SetVal(g, p.col, p.row, Forced(g, p)) == g
    ensures IsConsistent(g)
  {
    forall r: Idx, c: Idx, r2: Idx, c2: Idx, k: Idx
      | Count(g[r][c]) == 1 && g[r][c][k] && Peer(r2, c2, r, c)
      ensures !g[r2][c2][k]
    {
      var p := Pos(r, c);
      SolvedListed(g, p);
      SolvedCell(g[r][c], k);
      assert Forced(g, p) == k + 1;
      SetValStable(g, c, r, k + 1);
    }
  }

  /** On a consistent board no solved cell's assignment changes anything. */
  lemma ConsistentIsStable(g: Grid)
    requires IsValid(g) && IsConsistent(g)
    ensures forall p :: p in CellsWithCount(g, 1) ==> SetVal(g, p.col, p.row, Forced(g, p)) == g
  {
    forall p | p in CellsWithCount(g, 1) ensures SetVal(g, p.col, p.row, Forced(g, p)) == g {
      SolvedListed(g, p);
      var num := Forced(g, p);
      assert Count(g[p.row][p.col]) == 1 && g[p.row][p.col][num - 1];
      SetValStable(g, p.col, p.row, num);
    }
  }

  /** `update` leaves a valid, consistent board as it is. */
  lemma ConsistentIsFixed(g: Grid)
    requires IsValid(g) && IsConsistent(g)
    ensures Propagate(g) == g
  {
    var todo := CellsWithCount(g, 1);
    ConsistentIsStable(g);
    PassStable(g, todo);
  }

  /** When `update` leaves a valid board as it is, its first pass already changed nothing. */
  lemma FixedPass(g: Grid)
    requires IsValid(g) && Propagate(g) == g
    ensures Pass(g, CellsWithCount(g, 1)) == Completed(g)
  {
    var e := Pass(g, CellsWithCount(g, 1));
    if e.Completed? {
      var h := e.grid;
      WithinTotal(h, g);
      if Total(h) != Total(g) {
        WithinTotal(Propagate(h), h);
      }
    }
  }

  /** A valid board that `update` leaves as it is is consistent. */
  lemma FixedIsConsistent(g: Grid)
    requires IsValid(g) && Propagate(g) == g
    ensures IsConsistent(g)
  {
    FixedPass(g);
    PassUnchanged(g, CellsWithCount(g, 1));
    StableIsConsistent(g);
  }

  /** A valid board is left unchanged by `update` exactly when it is consistent:
      the valid fixed points of propagation are the consistent boards. */
  lemma PropagateFixedPoint(g: Grid)
    requires IsValid(g)
    ensures Propagate(g) == g <==> IsConsistent(g)
  {
    if IsConsistent(g) {
      ConsistentIsFixed(g);
    }
    if Propagate(g) == g {
      FixedIsConsistent(g);
    }
  }

  /** Whatever `update` returns is either invalid or consistent. */
  lemma {:induction false} PropagateConsistent(g: Grid)
    ensures IsValid(Propagate(g)) ==> IsConsistent(Propagate(g))
    decreases Total(g)
  {
    var todo := CellsWithCount(g, 1);
    match Pass(g, todo)
    case Aborted(h) =>
    case Completed(h) =>
      WithinTotal(h, g);
      if Total(h) == Total(g) {
        if IsValid(g) {
          PassUnchanged(g, todo);
          StableIsConsistent(g);
        }
      } else {
        PropagateConsistent(h);
      }
  }
}
