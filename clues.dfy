/** The clue loop of `Sudoku.__init__` on the grid value: every positive clue is
    placed with `setval`, row by row and left to right within a row. */
module Clues {
  import opened Grids
  import opened Assignment

  /** A 9x9 clue array whose entries `setval` can take: a value of 0 or below is an
      empty cell (the loop skips it), and no value is above 9. */
  predicate WellFormed(arr: seq<seq<int>>)
  {
    |arr| == 9 && forall i :: 0 <= i < 9 ==> |arr[i]| == 9 && forall j :: 0 <= j < 9 ==> arr[i][j] <= 9
  }

  /** One iteration of the inner loop: `if arr[i, j] > 0: setval(j, i, arr[i, j])`. */
  function Place(g: Grid, v: int, i: Idx, j: Idx): Grid
    requires v <= 9
  {
    if v > 0 then SetVal(g, j, i, v) else g
  }

  /** The clues of row `i` in the columns before `j`, placed on `g` from left to right. */
  function PlaceRow(g: Grid, arr: seq<seq<int>>, i: Idx, j: nat): Grid
    requires WellFormed(arr) && j <= 9
  {
    if j == 0 then g else Place(PlaceRow(g, arr, i, j - 1), arr[i][j - 1], i, j - 1)
  }

  /** The clues of the rows before `i`, placed on `g` from the top row down. */
  function PlaceRows(g: Grid, arr: seq<seq<int>>, i: nat): Grid
    requires WellFormed(arr) && i <= 9
  {
    if i == 0 then g else PlaceRow(PlaceRows(g, arr, i - 1), arr, i - 1, 9)
  }

  /** All clues of `arr` placed on the grid in which everything is possible. */
  function FromClues(arr: seq<seq<int>>): Grid
    requires WellFormed(arr)
  {
    PlaceRows(AllOpen(), arr, 9)
  }

  /** (r, c) has been visited once the loop has reached (i, j). */
  predicate Done(r: Idx, c: Idx, i: int, j: int)
  {
    r < i || (r == i && c < j)
  }

  /** No clue placed before (i, j) at a peer of (r, c) is `v`; when `lateOnly`,
      only the peers visited after (r, c) itself are considered. */
  ghost predicate Unopposed(arr: seq<seq<int>>, i: int, j: int, r: Idx, c: Idx, v: int, lateOnly: bool)
    requires WellFormed(arr)
  {
    forall r2: Idx, c2: Idx ::
      Done(r2, c2, i, j) && Peer(r2, c2, r, c) && (lateOnly ==> Before(Pos(r, c), Pos(r2, c2)))
      ==> arr[r2][c2] != v
  }

  /** Flag k of cell (r, c) once the clues before (i, j) are placed on `g0`: a visited
      clue cell holds its own clue unless a later peer clue repeats it; every other cell
      keeps the flags of `g0` that no placed peer clue has taken. */
  ghost predicate Expected(g0: Grid, arr: seq<seq<int>>, i: int, j: int, r: Idx, c: Idx, k: Idx)
    requires WellFormed(arr)
  {
    if Done(r, c, i, j) && arr[r][c] > 0 then
      k == arr[r][c] - 1 && Unopposed(arr, i, j, r, c, arr[r][c], true)
    else
      g0[r][c][k] && Unopposed(arr, i, j, r, c, k + 1, false)
  }

  /** `g` is what placing the clues before (i, j) on `g0` leaves, flag by flag. */
  ghost predicate Reached(g: Grid, g0: Grid, arr: seq<seq<int>>, i: int, j: int)
    requires WellFormed(arr)
  {
    forall r: Idx, c: Idx, k: Idx :: g[r][c][k] == Expected(g0, arr, i, j, r, c, k)
  }

  /** Sharing a row, column or box is symmetric. */
  lemma PeerSymmetric(r: Idx, c: Idx, y: Idx, x: Idx)
    ensures Peer(r, c, y, x) == Peer(y, x, r, c)
  {
    assert InBox(r, c, y, x) == (r / 3 == y / 3 && c / 3 == x / 3);
    assert InBox(y, x, r, c) == (r / 3 == y / 3 && c / 3 == x / 3);
  }

  /** Placing the clue at (i, j) moves the description from (i, j) to (i, j + 1). */
  lemma PlaceStep(g: Grid, g0: Grid, arr: seq<seq<int>>, i: Idx, j: Idx)
    requires WellFormed(arr) && Reached(g, g0, arr, i, j)
    ensures Reached(Place(g, arr[i][j], i, j), g0, arr, i, j + 1)
  {
    var v := arr[i][j];
    var h := Place(g, v, i, j);
    if v > 0 {
      SetValEffect(g, j, i, v);
    }
    forall r: Idx, c: Idx, k: Idx ensures h[r][c][k] == Expected(g0, arr, i, j + 1, r, c, k) {
      PeerSymmetric(r, c, i, j);
      if v <= 0 {
        assert h[r][c][k] == g[r][c][k];
      } else if r == i && c == j {
        assert h[r][c][k] == (k == v - 1);
      } else if Peer(r, c, i, j) && k == v - 1 {
        assert !h[r][c][k];
        assert Done(i, j, i, j + 1) && Peer(i, j, r, c) && arr[i][j] == v;
      } else {
        assert h[r][c][k] == g[r][c][k];
      }
    }
  }

  /** Placing a row's clues up to column `j`. */
  lemma {:induction false} PlaceRowReached(g: Grid, g0: Grid, arr: seq<seq<int>>, i: Idx, j: nat)
    requires WellFormed(arr) && j <= 9 && Reached(g, g0, arr, i, 0)
    ensures Reached(PlaceRow(g, arr, i, j), g0, arr, i, j)
  {
    if j > 0 {
      PlaceRowReached(g, g0, arr, i, j - 1);
      PlaceStep(PlaceRow(g, arr, i, j - 1), g0, arr, i, j - 1);
    }
  }

  /** A finished row is the start of the next one. */
  lemma RowBoundary(g: Grid, g0: Grid, arr: seq<seq<int>>, i: Idx)
    requires WellFormed(arr) && Reached(g, g0, arr, i, 9)
    ensures Reached(g, g0, arr, i + 1, 0)
  {
    forall r: Idx, c: Idx, k: Idx ensures Expected(g0, arr, i, 9, r, c, k) == Expected(g0, arr, i + 1, 0, r, c, k) {
      forall v, late ensures Unopposed(arr, i, 9, r, c, v, late) == Unopposed(arr, i + 1, 0, r, c, v, late) {
        assert forall r2: Idx, c2: Idx :: Done(r2, c2, i, 9) == Done(r2, c2, i + 1, 0);
      }
    }
  }

  /** Placing the rows before `i`. */
  lemma {:induction false} PlaceRowsReached(g0: Grid, arr: seq<seq<int>>, i: nat)
    requires WellFormed(arr) && i <= 9
    ensures Reached(PlaceRows(g0, arr, i), g0, arr, i, 0)
  {
    if i > 0 {
      PlaceRowsReached(g0, arr, i - 1);
      PlaceRowReached(PlaceRows(g0, arr, i - 1), g0, arr, i - 1, 9);
      RowBoundary(PlaceRow(PlaceRows(g0, arr, i - 1), arr, i - 1, 9), g0, arr, i - 1);
    }
  }

  /** What the whole clue loop leaves in every flag when it starts from `g0`. */
  lemma {:induction false} PlacedEffect(g0: Grid, arr: seq<seq<int>>)
    requires WellFormed(arr)
    ensures forall r: Idx, c: Idx, k: Idx :: PlaceRows(g0, arr, 9)[r][c][k] == Expected(g0, arr, 9, 0, r, c, k)
  {
    PlaceRowsReached(g0, arr, 9);
  }

  /** A cell without a clue keeps exactly the digits that no clue in its row, column or box takes. */
  lemma OpenCellCandidates(arr: seq<seq<int>>, r: Idx, c: Idx, d: Digit)
    requires WellFormed(arr) && arr[r][c] <= 0
    ensures FromClues(arr)[r][c][d - 1] <==>
      forall r2: Idx, c2: Idx :: Peer(r2, c2, r, c) ==> arr[r2][c2] != d
  {
    PlacedEffect(AllOpen(), arr);
    assert FromClues(arr)[r][c][d - 1] == Expected(AllOpen(), arr, 9, 0, r, c, d - 1);
  }

  /** A clue cell keeps its own clue alone, and loses even that when a peer visited later
      in the row-major loop holds the same clue: placement depends on the visiting order. */
  lemma ClueCellCandidates(arr: seq<seq<int>>, r: Idx, c: Idx, d: Digit)
    requires WellFormed(arr) && arr[r][c] > 0
    ensures FromClues(arr)[r][c][d - 1] <==>
      d == arr[r][c] &&
      forall r2: Idx, c2: Idx :: Peer(r2, c2, r, c) && Before(Pos(r, c), Pos(r2, c2)) ==> arr[r2][c2] != d
  {
    PlacedEffect(AllOpen(), arr);
    assert FromClues(arr)[r][c][d - 1] == Expected(AllOpen(), arr, 9, 0, r, c, d - 1);
  }

  /** No two cells of a row, column or box hold the same clue. */
  ghost predicate Proper(arr: seq<seq<int>>)
    requires WellFormed(arr)
  {
    forall r: Idx, c: Idx, r2: Idx, c2: Idx :: arr[r][c] > 0 && Peer(r2, c2, r, c) ==> arr[r2][c2] != arr[r][c]
  }

  /** When the clues are proper, every clue cell ends up solved to its clue. */
  lemma ProperCluesKept(arr: seq<seq<int>>, r: Idx, c: Idx)
    requires WellFormed(arr) && Proper(arr) && arr[r][c] > 0
    ensures Count(FromClues(arr)[r][c]) == 1
    ensures Candidates(FromClues(arr)[r][c]) == [arr[r][c]]
  {
    var cell := FromClues(arr)[r][c];
    var v := arr[r][c];
    forall k: Idx ensures cell[k] == OneHot(v - 1)[k] {
      ClueCellCandidates(arr, r, c, k + 1);
    }
    assert cell == OneHot(v - 1);
  }

  /** Two equal clues side by side in the top row: the first is wiped out by the second,
      so the constructed board is not valid. */
  lemma RepeatedClueEmptiesCell()
    ensures var arr := seq(9, i requires 0 <= i < 9 => seq(9, j requires 0 <= j < 9 => if i == 0 && j < 2 then 1 else 0));
      WellFormed(arr) && Count(FromClues(arr)[0][0]) == 0 && !IsValid(FromClues(arr))
  {
    var arr := seq(9, i requires 0 <= i < 9 => seq(9, j requires 0 <= j < 9 => if i == 0 && j < 2 then 1 else 0));
    var cell := FromClues(arr)[0][0];
    forall k: Idx ensures !cell[k] {
      ClueCellCandidates(arr, 0, 0, k + 1);
      assert Peer(0, 1, 0, 0) && Before(Pos(0, 0), Pos(0, 1));
    }
    CountNone(cell);
  }

  /** The clue array with no clue at all (`copy` passes no clues to the constructor). */
  function NoClues(): (arr: seq<seq<int>>)
    ensures WellFormed(arr) && forall i: Idx, j: Idx :: arr[i][j] <= 0
  {
    seq(9, _ => seq(9, _ => 0))
  }

  /** An array without positive clues leaves the starting grid as it is
      (`copy` builds its board this way). */
  lemma NoCluesNoChange(g0: Grid, arr: seq<seq<int>>)
    requires WellFormed(arr) && forall i: Idx, j: Idx :: arr[i][j] <= 0
    ensures PlaceRows(g0, arr, 9) == g0
  {
    PlacedEffect(g0, arr);
    GridExt(PlaceRows(g0, arr, 9), g0);
  }
}
