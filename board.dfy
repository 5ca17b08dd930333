/** The 9×9 board as a value: cells, rows, columns and 3×3 boxes, the row-major scan for the
    first empty cell, the Sudoku uniqueness rules and the count of empty cells. */
module Board {

  datatype Option<T> = None | Some(value: T)

  /** A board in row-major order: `g[r][c]` is the cell in row `r`, column `c`; 0 is the
      sentinel of an empty cell. */
  type Grid = seq<seq<int>>

  /** Nine rows of nine cells. */
  predicate IsGrid(g: Grid) {
    |g| == 9 && forall r :: 0 <= r < 9 ==> |g[r]| == 9
  }

  /** The board the solver accepts: every cell holds 0 (empty) or a digit 1..9. */
  predicate IsBoard(g: Grid) {
    IsGrid(g) && forall r, c :: 0 <= r < 9 && 0 <= c < 9 ==> 0 <= g[r][c] <= 9
  }

  /** The box of cell (r, c), `(r / 3) * 3 + c / 3`: boxes are numbered row-major, and the
      index records the cell's band of rows (`k / 3`) and stack of columns (`k % 3`). */
  function BoxIndex(r: int, c: int): (k: int)
    requires 0 <= r < 9 && 0 <= c < 9
    ensures 0 <= k < 9
    ensures k / 3 == r / 3 && k % 3 == c / 3
  {
    (r / 3) * 3 + c / 3
  }

  /** Two cells share a box exactly when they share a band and a stack. */
  lemma SameBox(r1: int, c1: int, r2: int, c2: int)
    requires 0 <= r1 < 9 && 0 <= c1 < 9 && 0 <= r2 < 9 && 0 <= c2 < 9
    ensures BoxIndex(r1, c1) == BoxIndex(r2, c2) <==> r1 / 3 == r2 / 3 && c1 / 3 == c2 / 3
  {
    var k1, k2 := BoxIndex(r1, c1), BoxIndex(r2, c2);
    if r1 / 3 == r2 / 3 && c1 / 3 == c2 / 3 {
      assert k1 == (k1 / 3) * 3 + k1 % 3 && k2 == (k2 / 3) * 3 + k2 % 3;
    }
  }

  /** Cell (r1, c1) comes strictly before cell (r2, c2) in row-major order. */
  predicate Before(r1: int, c1: int, r2: int, c2: int) {
    r1 < r2 || (r1 == r2 && c1 < c2)
  }

  /** Every cell is filled. */
  predicate Complete(g: Grid)
    requires IsGrid(g)
  {
    forall r, c :: 0 <= r < 9 && 0 <= c < 9 ==> g[r][c] != 0
  }

  /** (r, c) is empty and every cell before it in row-major order is filled. */
  ghost predicate IsFirstEmpty(g: Grid, r: int, c: int)
    requires IsGrid(g)
  {
    0 <= r < 9 && 0 <= c < 9 && g[r][c] == 0 &&
    forall r', c' :: 0 <= r' < 9 && 0 <= c' < 9 && Before(r', c', r, c) ==> g[r'][c'] != 0
  }

  /** The row-major scan for a 0 cell, resumed at (r, c): it finds the first empty cell at or
      after (r, c), or reports that there is none. */
  function FirstEmptyFrom(g: Grid, r: nat, c: nat): (res: Option<(int, int)>)
    requires IsGrid(g) && r <= 9 && c <= 9
    ensures res.Some? ==>
      var (er, ec) := res.value;
      0 <= er < 9 && 0 <= ec < 9 && g[er][ec] == 0 && !Before(er, ec, r, c) &&
      forall r', c' :: 0 <= r' < 9 && 0 <= c' < 9 && !Before(r', c', r, c) && Before(r', c', er, ec) ==> g[r'][c'] != 0
    ensures res.None? <==>
      forall r', c' :: 0 <= r' < 9 && 0 <= c' < 9 && !Before(r', c', r, c) ==> g[r'][c'] != 0
    decreases 9 - r, 9 - c
  {
    if r == 9 then None
    else if c == 9 then FirstEmptyFrom(g, r + 1, 0)
    else if g[r][c] == 0 then Some((r, c))
    else FirstEmptyFrom(g, r, c + 1)
  }

  /** The scan over the whole board, `find_empty`: the first empty cell in row-major order, or
      None exactly when the board is complete. */
  function FirstEmpty(g: Grid): (res: Option<(int, int)>)
    requires IsGrid(g)
    ensures res.Some? ==> IsFirstEmpty(g, res.value.0, res.value.1)
    ensures res.None? <==> Complete(g)
  {
    FirstEmptyFrom(g, 0, 0)
  }

  /** Only one cell can be the first empty one. */
  lemma FirstEmptyUnique(g: Grid, r1: int, c1: int, r2: int, c2: int)
    requires IsGrid(g) && IsFirstEmpty(g, r1, c1) && IsFirstEmpty(g, r2, c2)
    ensures r1 == r2 && c1 == c2
  {
  }

  /** Digit `n` appears in row `r`. */
  ghost predicate InRow(g: Grid, r: int, n: int)
    requires IsGrid(g) && 0 <= r < 9
  {
    exists c :: 0 <= c < 9 && g[r][c] == n
  }

  /** Digit `n` appears in column `c`. */
  ghost predicate InCol(g: Grid, c: int, n: int)
    requires IsGrid(g) && 0 <= c < 9
  {
    exists r :: 0 <= r < 9 && g[r][c] == n
  }

  /** Digit `n` appears in box `k`. */
  ghost predicate InBox(g: Grid, k: int, n: int)
    requires IsGrid(g)
  {
    exists r, c :: 0 <= r < 9 && 0 <= c < 9 && BoxIndex(r, c) == k && g[r][c] == n
  }

  /** The three kinds of unit a digit may appear in only once. */
  datatype Unit = Row | Col | Box

  /** The index, among the nine units of kind `u`, of the unit that holds cell (r, c). */
  function UnitIndex(u: Unit, r: int, c: int): (i: int)
    requires 0 <= r < 9 && 0 <= c < 9
    ensures 0 <= i < 9
  {
    match u
    case Row => r
    case Col => c
    case Box => BoxIndex(r, c)
  }

  /** Digit `n` appears in unit `i` of kind `u`. */
  ghost predicate InUnit(g: Grid, u: Unit, i: int, n: int)
    requires IsGrid(g) && 0 <= i < 9
  {
    match u
    case Row => InRow(g, i, n)
    case Col => InCol(g, i, n)
    case Box => InBox(g, i, n)
  }

  /** No filled cell repeats a digit of another cell in its row, column or box. */
  ghost predicate NoConflict(g: Grid)
    requires IsGrid(g)
  {
    (forall r, c1, c2 :: 0 <= r < 9 && 0 <= c1 < 9 && 0 <= c2 < 9 && c1 != c2 && g[r][c1] != 0 ==>
       g[r][c1] != g[r][c2]) &&
    (forall c, r1, r2 :: 0 <= c < 9 && 0 <= r1 < 9 && 0 <= r2 < 9 && r1 != r2 && g[r1][c] != 0 ==>
       g[r1][c] != g[r2][c]) &&
    (forall r1, c1, r2, c2 ::
       0 <= r1 < 9 && 0 <= c1 < 9 && 0 <= r2 < 9 && 0 <= c2 < 9 && (r1 != r2 || c1 != c2) &&
       BoxIndex(r1, c1) == BoxIndex(r2, c2) && g[r1][c1] != 0 ==>
       g[r1][c1] != g[r2][c2])
  }

  /** A solved Sudoku: every cell holds a digit 1..9 and no row, column or box repeats one. */
  ghost predicate Solved(g: Grid) {
    IsBoard(g) && Complete(g) && NoConflict(g)
  }

  /** `s` keeps every filled cell of `g`. */
  ghost predicate Extends(s: Grid, g: Grid)
    requires IsGrid(s) && IsGrid(g)
  {
    forall r, c :: 0 <= r < 9 && 0 <= c < 9 && g[r][c] != 0 ==> s[r][c] == g[r][c]
  }

  /** The board with cell (r, c) set to `v`, the assignment `b[r][c] = v`. */
  function Place(g: Grid, r: int, c: int, v: int): (g': Grid)
    requires IsGrid(g) && 0 <= r < 9 && 0 <= c < 9
    ensures IsGrid(g')
    ensures forall i, j :: 0 <= i < 9 && 0 <= j < 9 ==> g'[i][j] == if i == r && j == c then v else g[i][j]
  {
    g[r := g[r][c := v]]
  }

  /** Boards with equal cells are equal. */
  lemma GridExt(g1: Grid, g2: Grid)
    requires IsGrid(g1) && IsGrid(g2)
    requires forall r, c :: 0 <= r < 9 && 0 <= c < 9 ==> g1[r][c] == g2[r][c]
    ensures g1 == g2
  {
    forall r | 0 <= r < 9
      ensures g1[r] == g2[r]
    {
      assert forall c :: 0 <= c < 9 ==> g1[r][c] == g2[r][c];
    }
  }

  /** Writing back a cell's old value undoes a placement. */
  lemma PlaceUndo(g: Grid, r: int, c: int, v: int)
    requires IsGrid(g) && 0 <= r < 9 && 0 <= c < 9
    ensures Place(Place(g, r, c, v), r, c, g[r][c]) == g
  {
    GridExt(Place(Place(g, r, c, v), r, c, g[r][c]), g);
  }

  /** Filling an empty cell with a digit adds exactly that digit to its row, column and box,
      and leaves every other row, column and box as it was. */
  lemma PlaceUnits(g: Grid, r: int, c: int, n: int, m: int)
    requires IsGrid(g) && 0 <= r < 9 && 0 <= c < 9 && g[r][c] == 0 && m != 0
    ensures forall i :: 0 <= i < 9 ==> (InRow(Place(g, r, c, n), i, m) <==> InRow(g, i, m) || (i == r && m == n))
    ensures forall j :: 0 <= j < 9 ==> (InCol(Place(g, r, c, n), j, m) <==> InCol(g, j, m) || (j == c && m == n))
    ensures forall k :: 0 <= k < 9 ==>
      (InBox(Place(g, r, c, n), k, m) <==> InBox(g, k, m) || (k == BoxIndex(r, c) && m == n))
  {
    var g' := Place(g, r, c, n);
    forall i | 0 <= i < 9
      ensures InRow(g', i, m) <==> InRow(g, i, m) || (i == r && m == n)
    {
      if i == r && m == n { assert g'[r][c] == m; }
      if InRow(g, i, m) { var c' :| 0 <= c' < 9 && g[i][c'] == m; assert g'[i][c'] == m; }
    }
    forall j | 0 <= j < 9
      ensures InCol(g', j, m) <==> InCol(g, j, m) || (j == c && m == n)
    {
      if j == c && m == n { assert g'[r][c] == m; }
      if InCol(g, j, m) { var r' :| 0 <= r' < 9 && g[r'][j] == m; assert g'[r'][j] == m; }
    }
    forall k | 0 <= k < 9
      ensures InBox(g', k, m) <==> InBox(g, k, m) || (k == BoxIndex(r, c) && m == n)
    {
      if k == BoxIndex(r, c) && m == n { assert g'[r][c] == m; }
      if InBox(g, k, m) {
        var r', c' :| 0 <= r' < 9 && 0 <= c' < 9 && BoxIndex(r', c') == k && g[r'][c'] == m;
        assert g'[r'][c'] == m;
      }
    }
  }

  /** The same, for one unit: filling an empty cell adds its digit to the three units that
      hold the cell and to no other. */
  lemma PlaceUnit(g: Grid, r: int, c: int, n: int, u: Unit, i: int, m: int)
    requires IsGrid(g) && 0 <= r < 9 && 0 <= c < 9 && g[r][c] == 0 && m != 0 && 0 <= i < 9
    ensures InUnit(Place(g, r, c, n), u, i, m) <==> InUnit(g, u, i, m) || (i == UnitIndex(u, r, c) && m == n)
  {
    PlaceUnits(g, r, c, n, m);
  }

  /** The board as the row-major scan has seen it when it reaches cell (r, c): the cells before
      (r, c) as in `g`, the others empty. */
  function Prefix(g: Grid, r: int, c: int): (p: Grid)
    requires IsGrid(g)
    ensures IsGrid(p)
    ensures forall i, j :: 0 <= i < 9 && 0 <= j < 9 ==> p[i][j] == if Before(i, j, r, c) then g[i][j] else 0
  {
    seq(9, i requires 0 <= i < 9 => seq(9, j requires 0 <= j < 9 => if Before(i, j, r, c) then g[i][j] else 0))
  }

  /** Before the scan nothing is seen; after it the whole board is. */
  lemma PrefixEnds(g: Grid)
    requires IsGrid(g)
    ensures forall i, j :: 0 <= i < 9 && 0 <= j < 9 ==> Prefix(g, 0, 0)[i][j] == 0
    ensures Prefix(g, 9, 0) == g
  {
    GridExt(Prefix(g, 9, 0), g);
  }

  /** One step of the scan: an empty cell leaves the seen board as it was, a filled one is
      placed on it; the end of a row is the start of the next. */
  lemma PrefixStep(g: Grid, r: int, c: int)
    requires IsGrid(g) && 0 <= r < 9 && 0 <= c < 9
    ensures Prefix(g, r, c)[r][c] == 0
    ensures Prefix(g, r, c + 1) == if g[r][c] == 0 then Prefix(g, r, c) else Place(Prefix(g, r, c), r, c, g[r][c])
    ensures Prefix(g, r, 9) == Prefix(g, r + 1, 0)
  {
    var p := Prefix(g, r, c);
    if g[r][c] == 0 {
      GridExt(Prefix(g, r, c + 1), p);
    } else {
      GridExt(Prefix(g, r, c + 1), Place(p, r, c, g[r][c]));
    }
    GridExt(Prefix(g, r, 9), Prefix(g, r + 1, 0));
  }

  /** Filling an empty cell with a digit absent from its row, column and box keeps the board
      free of conflicts. */
  lemma PlaceKeepsNoConflict(g: Grid, r: int, c: int, n: int)
    requires IsGrid(g) && 0 <= r < 9 && 0 <= c < 9 && g[r][c] == 0 && 1 <= n <= 9
    requires NoConflict(g)
    requires !InRow(g, r, n) && !InCol(g, c, n) && !InBox(g, BoxIndex(r, c), n)
    ensures NoConflict(Place(g, r, c, n))
  {
    var g' := Place(g, r, c, n);
    forall i, c1, c2 | 0 <= i < 9 && 0 <= c1 < 9 && 0 <= c2 < 9 && c1 != c2 && g'[i][c1] != 0
      ensures g'[i][c1] != g'[i][c2]
    {
      if i == r && c1 == c { assert g[r][c2] != n; }
      else if i == r && c2 == c { assert g[r][c1] != n; }
    }
    forall j, r1, r2 | 0 <= j < 9 && 0 <= r1 < 9 && 0 <= r2 < 9 && r1 != r2 && g'[r1][j] != 0
      ensures g'[r1][j] != g'[r2][j]
    {
      if j == c && r1 == r { assert g[r2][c] != n; }
      else if j == c && r2 == r { assert g[r1][c] != n; }
    }
    forall r1, c1, r2, c2 |
      0 <= r1 < 9 && 0 <= c1 < 9 && 0 <= r2 < 9 && 0 <= c2 < 9 && (r1 != r2 || c1 != c2) &&
      BoxIndex(r1, c1) == BoxIndex(r2, c2) && g'[r1][c1] != 0
      ensures g'[r1][c1] != g'[r2][c2]
    {
      if r1 == r && c1 == c { assert g[r2][c2] != n; }
      else if r2 == r && c2 == c { assert g[r1][c1] != n; }
    }
  }

  /** In a solved board that extends `g`, the digit at an empty cell of `g` is absent from that
      cell's row, column and box in `g`. */
  lemma SolutionDigitIsFree(g: Grid, s: Grid, r: int, c: int)
    requires IsGrid(g) && Solved(s) && Extends(s, g)
    requires 0 <= r < 9 && 0 <= c < 9 && g[r][c] == 0
    ensures 1 <= s[r][c] <= 9
    ensures !InRow(g, r, s[r][c]) && !InCol(g, c, s[r][c]) && !InBox(g, BoxIndex(r, c), s[r][c])
    ensures Extends(s, Place(g, r, c, s[r][c]))
  {
  }

  /** The number of empty cells of a row. */
  function Zeros(s: seq<int>): nat {
    if s == [] then 0 else (if s[0] == 0 then 1 else 0) + Zeros(s[1..])
  }

  /** The number of empty cells of a board. */
  function EmptyCount(g: Grid): nat {
    if g == [] then 0 else Zeros(g[0]) + EmptyCount(g[1..])
  }

  lemma {:induction false} ZerosUpdate(s: seq<int>, i: int, v: int)
    requires 0 <= i < |s|
    ensures Zeros(s[i := v]) == Zeros(s) - (if s[i] == 0 then 1 else 0) + (if v == 0 then 1 else 0)
  {
    if i > 0 {
      assert s[i := v][1..] == s[1..][i - 1 := v];
      ZerosUpdate(s[1..], i - 1, v);
    } else {
      assert s[i := v][1..] == s[1..];
    }
  }

  lemma {:induction false} EmptyCountUpdate(g: Grid, r: int, row: seq<int>)
    requires 0 <= r < |g|
    ensures EmptyCount(g[r := row]) == EmptyCount(g) - Zeros(g[r]) + Zeros(row)
  {
    if r > 0 {
      assert g[r := row][1..] == g[1..][r - 1 := row];
      EmptyCountUpdate(g[1..], r - 1, row);
    } else {
      assert g[r := row][1..] == g[1..];
    }
  }

  /** Filling an empty cell with a digit leaves exactly one empty cell fewer: the measure by
      which the search terminates. */
  lemma PlaceDecrements(g: Grid, r: int, c: int, n: int)
    requires IsGrid(g) && 0 <= r < 9 && 0 <= c < 9 && g[r][c] == 0 && n != 0
    ensures EmptyCount(Place(g, r, c, n)) == EmptyCount(g) - 1
  {
    ZerosUpdate(g[r], c, n);
    EmptyCountUpdate(g, r, g[r][c := n]);
  }
}
