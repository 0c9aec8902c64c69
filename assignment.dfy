/** `Sudoku.setval` on the grid value: the four in-place updates it performs,
    one function each, and what their composition does to every flag. */
module Assignment {
  import opened Grids

  /** (r, c) lies in the 3x3 box whose corner is (y - y % 3, x - x % 3). */
  predicate InBox(r: int, c: int, y: Idx, x: Idx)
  {
    y - y % 3 <= r < y - y % 3 + 3 && x - x % 3 <= c < x - x % 3 + 3
  }

  /** (r, c) is another cell in the row, column or box of (y, x). */
  predicate Peer(r: int, c: int, y: Idx, x: Idx)
  {
    (r != y || c != x) && (r == y || c == x || InBox(r, c, y, x))
  }

  /** The flags of a cell whose only candidate is digit `k + 1`. */
  function OneHot(k: Idx): (cell: Cell)
    ensures forall i :: 0 <= i < 9 ==> (cell[i] <==> i == k)
    ensures Count(cell) == 1
    ensures Candidates(cell) == [k + 1]
  {
    var cell := seq(9, i requires 0 <= i < 9 => i == k);
    CountOneHot(cell, k);
    var ds := Candidates(cell);
    assert k + 1 in ds;
    assert ds == [ds[0]];
    cell
  }

  /** `possibilities[y, :, k] = 0`. */
  function ClearRow(g: Grid, y: Idx, k: Idx): Grid
  {
    seq(9, r requires 0 <= r < 9 =>
      seq(9, c requires 0 <= c < 9 => if r == y then g[r][c][k := false] else g[r][c]))
  }

  /** `possibilities[:, x, k] = 0`. */
  function ClearColumn(g: Grid, x: Idx, k: Idx): Grid
  {
    seq(9, r requires 0 <= r < 9 =>
      seq(9, c requires 0 <= c < 9 => if c == x then g[r][c][k := false] else g[r][c]))
  }

  /** `possibilities[y - y % 3 : y - y % 3 + 3, x - x % 3 : x - x % 3 + 3, k] = 0`. */
  function ClearBox(g: Grid, y: Idx, x: Idx, k: Idx): Grid
  {
    seq(9, r requires 0 <= r < 9 =>
      seq(9, c requires 0 <= c < 9 => if InBox(r, c, y, x) then g[r][c][k := false] else g[r][c]))
  }

  /** `possibilities[y, x] = <one-hot k>`. */
  function Fix(g: Grid, y: Idx, x: Idx, k: Idx): Grid
  {
    seq(9, r requires 0 <= r < 9 =>
      seq(9, c requires 0 <= c < 9 => if r == y && c == x then OneHot(k) else g[r][c]))
  }

  /** `setval(x, y, num)`: x is the column and y the row. */
  function SetVal(g: Grid, x: Idx, y: Idx, num: Digit): Grid
  {
    var k := num - 1;
    Fix(ClearBox(ClearColumn(ClearRow(g, y, k), x, k), y, x, k), y, x, k)
  }

  /** What `setval(x, y, num)` leaves in flag k of cell (r, c): the target cell holds
      `num` alone, `num` is gone from every peer, and every other flag is as before. */
  function Assigned(g: Grid, x: Idx, y: Idx, num: Digit, r: Idx, c: Idx, k: Idx): bool
  {
    if r == y && c == x then k == num - 1
    else if Peer(r, c, y, x) && k == num - 1 then false
    else g[r][c][k]
  }

  /** The four updates of `setval` together have exactly the effect `Assigned` describes. */
  lemma SetValEffect(g: Grid, x: Idx, y: Idx, num: Digit)
    ensures forall r: Idx, c: Idx, k: Idx :: SetVal(g, x, y, num)[r][c][k] == Assigned(g, x, y, num, r, c, k)
  {
    var d := num - 1;
    var g1 := ClearRow(g, y, d);
    var g2 := ClearColumn(g1, x, d);
    var g3 := ClearBox(g2, y, x, d);
    var h := Fix(g3, y, x, d);
    assert h == SetVal(g, x, y, num);
    forall r: Idx, c: Idx, k: Idx ensures h[r][c][k] == Assigned(g, x, y, num, r, c, k) {
      assert g1[r][c][k] == (if r == y && k == d then false else g[r][c][k]);
      assert g2[r][c][k] == (if c == x && k == d then false else g1[r][c][k]);
      assert g3[r][c][k] == (if InBox(r, c, y, x) && k == d then false else g2[r][c][k]);
      if r == y && c == x {
        assert h[r][c] == OneHot(d);
        assert h[r][c][k] == (k == d);
      } else {
        assert h[r][c] == g3[r][c];
        if k == d && Peer(r, c, y, x) {
          assert !h[r][c][k];
        } else {
          assert h[r][c][k] == g[r][c][k];
        }
      }
    }
  }

  /** After `setval` the target cell has exactly one candidate, `num`, whatever it held before. */
  lemma SetValTarget(g: Grid, x: Idx, y: Idx, num: Digit)
    ensures Count(SetVal(g, x, y, num)[y][x]) == 1
    ensures Candidates(SetVal(g, x, y, num)[y][x]) == [num]
  {
    assert SetVal(g, x, y, num)[y][x] == OneHot(num - 1);
  }

  /** Setting the same value twice is the same as setting it once. */
  lemma SetValIdempotent(g: Grid, x: Idx, y: Idx, num: Digit)
    ensures SetVal(SetVal(g, x, y, num), x, y, num) == SetVal(g, x, y, num)
  {
    var once := SetVal(g, x, y, num);
    SetValEffect(g, x, y, num);
    SetValEffect(once, x, y, num);
    GridExt(SetVal(once, x, y, num), once);
  }

  /** Setting a digit that is still a candidate of the target only removes candidates,
      and removes at least one when the target had more than one. */
  lemma SetValShrinks(g: Grid, x: Idx, y: Idx, num: Digit)
    requires g[y][x][num - 1]
    ensures Within(SetVal(g, x, y, num), g)
    ensures Count(g[y][x]) >= 2 ==> Total(SetVal(g, x, y, num)) < Total(g)
  {
    var h := SetVal(g, x, y, num);
    SetValEffect(g, x, y, num);
    WithinTotal(h, g);
    SetValTarget(g, x, y, num);
  }

  /** On a cell solved to `num`, `setval` changes nothing exactly when no peer still has `num`. */
  lemma SetValStable(g: Grid, x: Idx, y: Idx, num: Digit)
    requires Count(g[y][x]) == 1 && g[y][x][num - 1]
    ensures SetVal(g, x, y, num) == g <==>
      forall r: Idx, c: Idx :: Peer(r, c, y, x) ==> !g[r][c][num - 1]
  {
    var d := num - 1;
    var h := SetVal(g, x, y, num);
    SetValEffect(g, x, y, num);
    SolvedCell(g[y][x], d);
    if h == g {
      forall r: Idx, c: Idx | Peer(r, c, y, x) ensures !g[r][c][d] {
        assert h[r][c][d] == Assigned(g, x, y, num, r, c, d);
      }
    }
    if forall r: Idx, c: Idx :: Peer(r, c, y, x) ==> !g[r][c][d] {
      forall r: Idx, c: Idx, k: Idx ensures h[r][c][k] == g[r][c][k] {
        assert h[r][c][k] == Assigned(g, x, y, num, r, c, k);
      }
      GridExt(h, g);
    }
  }
}
