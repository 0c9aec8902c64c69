/** The `Sudoku` class: a 9x9x9 array of candidate flags that `setval` and
    `update` change in place. */
module SudokuBoard {
  import opened Grids
  import Assignment
  import opened Propagation
  import opened Clues

  class Sudoku {
    /** `possibilities[row, col, digit - 1]`. */
    var possibilities: array3<bool>
    /** The flags as a grid value. */
    ghost var model: Grid

    ghost predicate Valid()
      reads this, possibilities
    {
      possibilities.Length0 == 9 && possibilities.Length1 == 9 && possibilities.Length2 == 9 &&
      forall r: Idx, c: Idx, k: Idx :: possibilities[r, c, k] == model[r][c][k]
    }

    /** The flags read out of the array, as the queries of the class see them. */
    function Board(): (g: Grid)
      requires Valid()
      reads this, possibilities
      ensures g == model
    {
      ContentsMatch(possibilities, model);
      Contents(possibilities)
    }

    /** `Sudoku(arr)`: a fresh array with every flag set, then the clues of `arr`. */
    constructor (arr: seq<seq<int>>)
      requires WellFormed(arr)
      ensures Valid() && fresh(possibilities)
      ensures model == FromClues(arr)
    {
      possibilities := new bool[9, 9, 9]((r, c, k) => true);
      model := AllOpen();
      new;
      PlaceClues(arr);
    }

    /** `Sudoku(arr, possibilities)`: the given array itself (not a copy) becomes the state,
        then the clues of `arr` are placed on it. */
    constructor Adopt(arr: seq<seq<int>>, possibilities: array3<bool>)
      requires WellFormed(arr)
      requires possibilities.Length0 == 9 && possibilities.Length1 == 9 && possibilities.Length2 == 9
      modifies possibilities
      ensures Valid() && this.possibilities == possibilities
      ensures model == PlaceRows(old(Contents(possibilities)), arr, 9)
    {
      this.possibilities := possibilities;
      model := Contents(possibilities);
      new;
      PlaceClues(arr);
    }

    /** The clue loop of the constructor: `setval(j, i, arr[i, j])` for every positive clue. */
    method PlaceClues(arr: seq<seq<int>>)
      requires Valid() && WellFormed(arr)
      modifies this, possibilities
      ensures Valid() && possibilities == old(possibilities)
      ensures model == PlaceRows(old(model), arr, 9)
    {
      for i := 0 to 9
        invariant Valid() && possibilities == old(possibilities)
        invariant model == PlaceRows(old(model), arr, i)
      {
        ghost var rowStart := model;
        for j := 0 to 9
          invariant Valid() && possibilities == old(possibilities)
          invariant model == PlaceRow(rowStart, arr, i, j)
        {
          if arr[i][j] > 0 {
            SetVal(j, i, arr[i][j]);
          }
        }
      }
    }

    /** `setval(x, y, num)`: clear `num` from row y, column x and their box, then make
        it the only candidate of (y, x). */
    method SetVal(x: Idx, y: Idx, num: Digit)
      requires Valid()
      modifies this, possibilities
      ensures Valid() && possibilities == old(possibilities)
      ensures model == Assignment.SetVal(old(model), x, y, num)
    {
      var k := num - 1;
      forall c | 0 <= c < 9 {
        possibilities[y, c, k] := false;
      }
      forall r | 0 <= r < 9 {
        possibilities[r, x, k] := false;
      }
      var top, left := y - y % 3, x - x % 3;
      forall r, c | top <= r < top + 3 && left <= c < left + 3 {
        possibilities[r, c, k] := false;
      }
      forall i | 0 <= i < 9 {
        possibilities[y, x, i] := i == k;
      }
      forall r: Idx, c: Idx, i: Idx
        ensures possibilities[r, c, i] == Assignment.Assigned(model, x, y, num, r, c, i)
      {
        assert Assignment.InBox(r, c, y, x) == (top <= r < top + 3 && left <= c < left + 3);
      }
      Assignment.SetValEffect(model, x, y, num);
      model := Assignment.SetVal(model, x, y, num);
    }

    /** `update`: passes over the solved cells until a pass changes no count, returning
        early when a validity check before an assignment fails. */
    method Update()
      requires Valid()
      modifies this, possibilities
      ensures Valid() && possibilities == old(possibilities)
      ensures model == Propagate(old(model))
    {
      while true
        invariant Valid() && possibilities == old(possibilities)
        invariant Propagate(model) == Propagate(old(model))
        decreases Total(model)
      {
        var done := Round();
        if done {
          return;
        }
      }
    }

    /** One round of `update`'s while loop: take `precount`, run a pass over the cells that
        are solved now, and report whether the loop ends (an aborted pass, or an unchanged
        total); otherwise the total has gone down and the outcome of `update` is the same. */
    method Round() returns (done: bool)
      requires Valid()
      modifies this, possibilities
      ensures Valid() && possibilities == old(possibilities)
      ensures done ==> model == Propagate(old(model))
      ensures !done ==> Total(model) < Total(old(model)) && Propagate(model) == Propagate(old(model))
    {
      var start := Board();
      var precount := Total(start);
      var completed := RunPass(CellsWithCount(start, 1));
      var now := Board();
      PropagateStep(start, now, completed);
      done := !completed || precount == Total(now);
    }

    /** The for loop of one `update` pass over the snapshot `todo`: before each assignment,
        check `is_valid` and stop (reporting `false`) when it fails. */
    method RunPass(todo: seq<Pos>) returns (completed: bool)
      requires Valid()
      modifies this, possibilities
      ensures Valid() && possibilities == old(possibilities)
      ensures Pass(old(model), todo) == (if completed then Completed(model) else Aborted(model))
    {
      for i := 0 to |todo|
        invariant Valid() && possibilities == old(possibilities)
        invariant Pass(old(model), todo) == Pass(model, todo[i..])
      {
        var g := Board();
        if !IsValid(g) {
          return false;
        }
        var p := todo[i];
        assert todo[i..][1..] == todo[i + 1..];
        SetVal(p.col, p.row, Forced(g, p));
      }
      assert todo[|todo|..] == [];
      return true;
    }

    /** `copy`: a new board over a fresh copy of the flags. */
    method Copy() returns (s: Sudoku)
      requires Valid()
      ensures fresh(s) && fresh(s.possibilities) && s.Valid()
      ensures s.model == model
    {
      var flags := new bool[9, 9, 9];
      forall r, c, k | 0 <= r < 9 && 0 <= c < 9 && 0 <= k < 9 {
        flags[r, c, k] := possibilities[r, c, k];
      }
      var none := NoClues();
      ContentsMatch(flags, model);
      s := new Sudoku.Adopt(none, flags);
      NoCluesNoChange(model, none);
    }
  }

  /** The grid value of a 9x9x9 flag array. */
  function Contents(a: array3<bool>): Grid
    requires a.Length0 == 9 && a.Length1 == 9 && a.Length2 == 9
    reads a
  {
    seq(9, r requires 0 <= r < 9 reads a =>
      seq(9, c requires 0 <= c < 9 reads a =>
        seq(9, k requires 0 <= k < 9 reads a => a[r, c, k])))
  }

  /** An array whose flags agree with a grid one by one reads out as that grid. */
  lemma ContentsMatch(a: array3<bool>, g: Grid)
    requires a.Length0 == 9 && a.Length1 == 9 && a.Length2 == 9
    requires forall r: Idx, c: Idx, k: Idx :: a[r, c, k] == g[r][c][k]
    ensures Contents(a) == g
  {
    var h := Contents(a);
    forall r: Idx, c: Idx, k: Idx ensures h[r][c][k] == g[r][c][k] {
      assert h[r][c][k] == a[r, c, k];
    }
    GridExt(h, g);
  }
}
