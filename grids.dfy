/** The candidate grid of a 9x9 Sudoku and the read-only queries over it.
    A grid holds, for every (row, column), nine flags; flag k says whether
    digit k + 1 is still possible in that cell. */
module Grids {

  /** A row, column or flag index. */
  type Idx = i: int | 0 <= i < 9

  /** A Sudoku digit. */
  type Digit = d: int | 1 <= d <= 9 witness 1

  /** The candidate flags of one cell. */
  type Cell = s: seq<bool> | |s| == 9 witness [true, true, true, true, true, true, true, true, true]

  /** Nine rows of nine cells. */
  type Grid = g: seq<seq<Cell>> | |g| == 9 && forall r :: 0 <= r < |g| ==> |g[r]| == 9
    witness seq(9, _ => seq(9, _ => [true, true, true, true, true, true, true, true, true]))

  /** A cell position; `row` is the first numpy axis, `col` the second. */
  datatype Pos = Pos(row: Idx, col: Idx)

  /** `p` comes before `q` in a row-major scan of the grid. */
  predicate Before(p: Pos, q: Pos)
  {
    p.row < q.row || (p.row == q.row && p.col < q.col)
  }

  /** The grid in which every digit is still possible everywhere. */
  function AllOpen(): (g: Grid)
    ensures forall r: Idx, c: Idx, k: Idx :: g[r][c][k]
  {
    seq(9, _ => seq(9, _ => [true, true, true, true, true, true, true, true, true]))
  }

  function At(g: Grid, p: Pos): Cell
  {
    g[p.row][p.col]
  }

  /** Number of flags set (`possibility_count` of one cell). */
  function Count(s: seq<bool>): (n: nat)
    ensures n <= |s|
  {
    if s == [] then 0 else (if s[0] then 1 else 0) + Count(s[1..])
  }

  /** The digits still possible in `cell` above `k`, in ascending order. */
  function CandidatesFrom(cell: Cell, k: nat): (ds: seq<Digit>)
    requires k <= 9
    ensures forall i, j :: 0 <= i < j < |ds| ==> ds[i] < ds[j]
    ensures forall d :: d in ds <==> k < d <= 9 && cell[d - 1]
    decreases |cell| - k
  {
    if k == 9 then []
    else
      var rest := CandidatesFrom(cell, k + 1);
      if cell[k] then
        assert forall i :: 0 <= i < |rest| ==> k + 1 < rest[i] by {
          forall i | 0 <= i < |rest| ensures k + 1 < rest[i] {
            assert rest[i] in rest;
          }
        }
        [k + 1] + rest
      else rest
  }

  /** There are as many candidates above `k` as flags set from index `k` on. */
  lemma {:induction false} CandidatesFromCount(cell: Cell, k: nat)
    requires k <= 9
    ensures |CandidatesFrom(cell, k)| == Count(cell[k..])
    decreases |cell| - k
  {
    if k < 9 {
      CandidatesFromCount(cell, k + 1);
      assert cell[k..][1..] == cell[k + 1..];
    }
  }

  /** `get_possibilities`: the digits still possible in `cell`, ascending. */
  function Candidates(cell: Cell): (ds: seq<Digit>)
    ensures |ds| == Count(cell)
    ensures forall i :: 0 <= i < |ds| ==> cell[ds[i] - 1]
    ensures forall i, j :: 0 <= i < j < |ds| ==> ds[i] < ds[j]
    ensures forall d :: d in ds <==> 1 <= d <= 9 && cell[d - 1]
  {
    assert cell[0..] == cell;
    CandidatesFromCount(cell, 0);
    var ds := CandidatesFrom(cell, 0);
    assert forall i :: 0 <= i < |ds| ==> cell[ds[i] - 1] by {
      forall i | 0 <= i < |ds| ensures cell[ds[i] - 1] {
        assert ds[i] in ds;
      }
    }
    ds
  }

  /** `is_valid`: no cell has run out of candidates. */
  predicate IsValid(g: Grid)
  {
    forall r, c | 0 <= r < 9 && 0 <= c < 9 :: Count(g[r][c]) != 0
  }

  /** `is_finished`: every cell has exactly one candidate. */
  predicate IsFinished(g: Grid)
    ensures IsFinished(g) ==> IsValid(g)
  {
    forall r, c | 0 <= r < 9 && 0 <= c < 9 :: Count(g[r][c]) == 1
  }

  /** Every cell of row `r` from column `c` on has count `n`. */
  predicate RowAll(g: Grid, n: nat, r: Idx, c: nat)
  {
    forall j :: c <= j < 9 ==> Count(g[r][j]) == n
  }

  /** Positions of row `r` from column `c` on whose count is `n`, left to right. */
  function CellsInRow(g: Grid, n: nat, r: Idx, c: nat): (ps: seq<Pos>)
    requires c <= 9
    ensures |ps| <= 9 - c
    ensures forall p :: p in ps <==> p.row == r && c <= p.col && Count(At(g, p)) == n
    ensures forall a, b :: 0 <= a < b < |ps| ==> Before(ps[a], ps[b])
    decreases |g[r]| - c
  {
    if c == 9 then []
    else
      var rest := CellsInRow(g, n, r, c + 1);
      if Count(g[r][c]) == n then [Pos(r, c)] + rest else rest
  }

  /** Positions of rows `r` and below whose count is `n`, in row-major order. */
  function CellsFrom(g: Grid, n: nat, r: nat): (ps: seq<Pos>)
    requires r <= 9
    ensures |ps| <= 81 - 9 * r
    ensures forall p :: p in ps <==> r <= p.row && Count(At(g, p)) == n
    ensures forall a, b :: 0 <= a < b < |ps| ==> Before(ps[a], ps[b])
    decreases |g| - r
  {
    if r == 9 then [] else CellsInRow(g, n, r, 0) + CellsFrom(g, n, r + 1)
  }

  /** The row scan finds every remaining column exactly when all of them have count `n`. */
  lemma {:induction false} CellsInRowFull(g: Grid, n: nat, r: Idx, c: nat)
    requires c <= 9
    ensures |CellsInRow(g, n, r, c)| == 9 - c <==> RowAll(g, n, r, c)
    decreases 9 - c
  {
    if c < 9 {
      CellsInRowFull(g, n, r, c + 1);
    }
  }

  /** The grid scan finds every remaining cell exactly when all of them have count `n`. */
  lemma {:induction false} CellsFromFull(g: Grid, n: nat, r: nat)
    requires r <= 9
    ensures |CellsFrom(g, n, r)| == 81 - 9 * r <==> forall i :: r <= i < 9 ==> RowAll(g, n, i, 0)
    decreases 9 - r
  {
    if r < 9 {
      CellsInRowFull(g, n, r, 0);
      CellsFromFull(g, n, r + 1);
      var row, rest := CellsInRow(g, n, r, 0), CellsFrom(g, n, r + 1);
      assert CellsFrom(g, n, r) == row + rest;
      assert |row| <= 9 && |rest| <= 81 - 9 * (r + 1);
      if forall i :: r <= i < 9 ==> RowAll(g, n, i, 0) {
        assert RowAll(g, n, r, 0);
      } else {
        var i :| r <= i < 9 && !RowAll(g, n, i, 0);
        assert i == r || (r + 1 <= i < 9 && !RowAll(g, n, i, 0));
      }
    }
  }

  /** `np.argwhere(possibility_count() == n)`: the cells whose count is `n`, row-major. */
  function CellsWithCount(g: Grid, n: nat): (ps: seq<Pos>)
    ensures forall p :: p in ps <==> Count(At(g, p)) == n
    ensures forall a, b :: 0 <= a < b < |ps| ==> Before(ps[a], ps[b])
  {
    CellsFrom(g, n, 0)
  }

  /** A grid is finished exactly when every row has count 1 throughout. */
  lemma FinishedByRows(g: Grid)
    ensures IsFinished(g) <==> forall i :: 0 <= i < 9 ==> RowAll(g, 1, i, 0)
  {
    if forall i :: 0 <= i < 9 ==> RowAll(g, 1, i, 0) {
      forall r, c | 0 <= r < 9 && 0 <= c < 9 ensures Count(g[r][c]) == 1 {
        assert RowAll(g, 1, r, 0);
      }
    }
  }

  /** The scan for solved cells finds all 81 exactly when the grid is finished. */
  lemma AllSolvedFound(g: Grid)
    ensures |CellsFrom(g, 1, 0)| == 81 <==> IsFinished(g)
  {
    CellsFromFull(g, 1, 0);
    FinishedByRows(g);
  }

  /** `count_filled`: the number of cells with exactly one candidate. */
  function CountFilled(g: Grid): (n: nat)
    ensures n <= 81
    ensures n == 81 <==> IsFinished(g)
  {
    AllSolvedFound(g);
    |CellsFrom(g, 1, 0)|
  }

  /** `x in possibility_count()`: the scan for count `x` finds some cell. */
  predicate Occurs(g: Grid, x: nat)
  {
    CellsWithCount(g, x) != []
  }

  /** A count occurs exactly when some cell has it. */
  lemma OccursIff(g: Grid, x: nat, p: Pos)
    ensures Count(At(g, p)) == x ==> Occurs(g, x)
    ensures Occurs(g, x) ==> Count(At(g, CellsWithCount(g, x)[0])) == x && x <= 9
  {
    if Occurs(g, x) {
      assert CellsWithCount(g, x)[0] in CellsWithCount(g, x);
    }
  }

  /** `is_valid` as the source writes it, `0 not in possibility_count()`: no scan for an
      empty cell finds one. */
  lemma ValidIffNoEmptyCell(g: Grid)
    ensures IsValid(g) <==> !Occurs(g, 0)
  {
    if !IsValid(g) {
      var r, c :| 0 <= r < 9 && 0 <= c < 9 && Count(g[r][c]) == 0;
      OccursIff(g, 0, Pos(r, c));
    }
    if Occurs(g, 0) {
      OccursIff(g, 0, Pos(0, 0));
    }
  }

  /** The indices from `v` on whose flag is set in `present`, ascending. */
  function Flagged(present: seq<bool>, v: nat): (u: seq<nat>)
    requires v <= |present|
    ensures forall i, j :: 0 <= i < j < |u| ==> u[i] < u[j]
    ensures forall x :: x in u <==> v <= x < |present| && present[x]
    decreases |present| - v
  {
    if v == |present| then []
    else
      var rest := Flagged(present, v + 1);
      if present[v] then
        assert forall j :: 0 <= j < |rest| ==> v < rest[j] by {
          forall j | 0 <= j < |rest| ensures v < rest[j] {
            assert rest[j] in rest;
          }
        }
        [v] + rest
      else rest
  }

  /** `np.unique(possibility_count())`: the distinct counts of the grid, ascending. */
  function Unique(g: Grid): (u: seq<nat>)
    ensures forall i, j :: 0 <= i < j < |u| ==> u[i] < u[j]
    ensures forall x :: x in u <==> Occurs(g, x)
  {
    var present := seq(10, x requires 0 <= x < 10 => Occurs(g, x));
    assert forall x :: Occurs(g, x) ==> x < 10 by {
      forall x | Occurs(g, x) ensures x < 10 {
        OccursIff(g, x, Pos(0, 0));
      }
    }
    Flagged(present, 0)
  }

  /** Sum of the counts of a run of cells. */
  function CellsTotal(cells: seq<Cell>): nat
  {
    if cells == [] then 0 else Count(cells[0]) + CellsTotal(cells[1..])
  }

  /** Sum of the counts of a run of rows. */
  function RowsTotal(rows: seq<seq<Cell>>): nat
  {
    if rows == [] then 0 else CellsTotal(rows[0]) + RowsTotal(rows[1..])
  }

  /** `np.sum(possibility_count())`: the number of candidates left in the grid. */
  function Total(g: Grid): nat
  {
    RowsTotal(g)
  }

  /** Every candidate of `h` is a candidate of `g`: `h` is `g` with some candidates removed. */
  ghost predicate Within(h: Grid, g: Grid)
  {
    forall r: Idx, c: Idx, k: Idx :: h[r][c][k] ==> g[r][c][k]
  }

  /** Grids that agree on every flag are equal. */
  lemma GridExt(h: Grid, g: Grid)
    requires forall r: Idx, c: Idx, k: Idx :: h[r][c][k] == g[r][c][k]
    ensures h == g
  {
    forall r: Idx ensures h[r] == g[r] {
      forall c: Idx ensures h[r][c] == g[r][c] {
        assert forall k: Idx :: h[r][c][k] == g[r][c][k];
      }
    }
  }

  /** `Within` is antisymmetric. */
  lemma WithinAntisymmetric(h: Grid, g: Grid)
    requires Within(h, g) && Within(g, h)
    ensures h == g
  {
    GridExt(h, g);
  }

  /** `Within` is transitive. */
  lemma WithinTransitive(a: Grid, b: Grid, c: Grid)
    requires Within(a, b) && Within(b, c)
    ensures Within(a, c)
  {
  }

  /** Removing flags never raises the count, and keeps it only when nothing was removed. */
  lemma {:induction false} CountMonotone(a: seq<bool>, b: seq<bool>)
    requires |a| == |b|
    requires forall i :: 0 <= i < |a| && a[i] ==> b[i]
    ensures Count(a) <= Count(b)
    ensures Count(a) == Count(b) ==> a == b
  {
    if a != [] {
      CountMonotone(a[1..], b[1..]);
      if Count(a) == Count(b) {
        assert a[0] == b[0];
        assert a == [a[0]] + a[1..] && b == [b[0]] + b[1..];
      }
    }
  }

  /** A flag sequence with exactly one flag set has count 1. */
  lemma {:induction false} CountOneHot(s: seq<bool>, k: int)
    requires 0 <= k < |s|
    requires forall i :: 0 <= i < |s| ==> (s[i] <==> i == k)
    ensures Count(s) == 1
  {
    if k == 0 {
      CountNone(s[1..]);
    } else {
      CountOneHot(s[1..], k - 1);
    }
  }

  /** A flag sequence with no flag set has count 0. */
  lemma {:induction false} CountNone(s: seq<bool>)
    requires forall i :: 0 <= i < |s| ==> !s[i]
    ensures Count(s) == 0
  {
    if s != [] {
      CountNone(s[1..]);
    }
  }

  /** A flag sequence with every flag set has full count. */
  lemma {:induction false} CountAll(s: seq<bool>)
    requires forall i :: 0 <= i < |s| ==> s[i]
    ensures Count(s) == |s|
  {
    if s != [] {
      CountAll(s[1..]);
    }
  }

  /** Removing flags from a run of cells never raises its total, and keeps it only when
      nothing was removed. */
  lemma {:induction false} CellsTotalMonotone(a: seq<Cell>, b: seq<Cell>)
    requires |a| == |b|
    requires forall i, k :: 0 <= i < |a| && 0 <= k < 9 && a[i][k] ==> b[i][k]
    ensures CellsTotal(a) <= CellsTotal(b)
    ensures CellsTotal(a) == CellsTotal(b) ==> a == b
  {
    if a != [] {
      CountMonotone(a[0], b[0]);
      CellsTotalMonotone(a[1..], b[1..]);
      if CellsTotal(a) == CellsTotal(b) {
        assert a == [a[0]] + a[1..] && b == [b[0]] + b[1..];
      }
    }
  }

  /** The same for a run of rows of equal lengths. */
  lemma {:induction false} RowsTotalMonotone(a: seq<seq<Cell>>, b: seq<seq<Cell>>)
    requires |a| == |b| && forall i :: 0 <= i < |a| ==> |a[i]| == |b[i]|
    requires forall i, j, k :: 0 <= i < |a| && 0 <= j < |a[i]| && 0 <= k < 9 && a[i][j][k] ==> b[i][j][k]
    ensures RowsTotal(a) <= RowsTotal(b)
    ensures RowsTotal(a) == RowsTotal(b) ==> a == b
  {
    if a != [] {
      CellsTotalMonotone(a[0], b[0]);
      RowsTotalMonotone(a[1..], b[1..]);
      if RowsTotal(a) == RowsTotal(b) {
        assert a == [a[0]] + a[1..] && b == [b[0]] + b[1..];
      }
    }
  }

  /** Removing candidates never raises the total, and keeps it only when nothing was removed:
      the measure by which propagation and search terminate. */
  lemma WithinTotal(h: Grid, g: Grid)
    requires Within(h, g)
    ensures Total(h) <= Total(g)
    ensures Total(h) == Total(g) ==> h == g
  {
    RowsTotalMonotone(h, g);
  }

  /** A cell with count 1 that holds digit `d + 1` holds nothing else. */
  lemma SolvedCell(cell: Cell, d: Idx)
    requires Count(cell) == 1 && cell[d]
    ensures forall k :: 0 <= k < 9 ==> (cell[k] <==> k == d)
  {
    var ds := Candidates(cell);
    assert d + 1 in ds;
    forall k | 0 <= k < 9 && cell[k] ensures k == d {
      assert k + 1 in ds;
    }
  }
}
