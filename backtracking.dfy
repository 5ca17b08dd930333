/** The backtracking search of `solve` as a function of the solver's state. It follows the
    steps of the source: find the first empty cell, compute the union of the used digits once,
    try the digits 1..9 in ascending order, place a free digit (write it and set its bit in
    the three masks), recurse, and on failure write 0 back and toggle the three bits off. */
module Backtracking {
  import opened Masks
  import opened Board

  /** Everything `solve` reads and writes: the board and the masks of the nine rows, nine
      columns and nine boxes. */
  datatype State = State(grid: Grid, rows: seq<Mask>, cols: seq<Mask>, boxes: seq<Mask>)

  predicate WellFormed(st: State) {
    IsBoard(st.grid) && |st.rows| == 9 && |st.cols| == 9 && |st.boxes| == 9
  }

  /** The mask table `ms` describes the units of kind `u` of board `g`: bit `n` of `ms[i]` is
      set exactly when digit `n` appears in unit `i`, and no mask has bit 0 or a bit above 9. */
  ghost predicate Describes(ms: seq<Mask>, g: Grid, u: Unit)
    requires IsGrid(g)
  {
    |ms| == 9 &&
    (forall i :: 0 <= i < 9 ==> Stray(ms[i]) == 0) &&
    (forall i, n :: 0 <= i < 9 && 1 <= n <= 9 ==> (Test(ms[i], n) != 0 <==> InUnit(g, u, i, n)))
  }

  /** The masks agree with the board: the invariant `solve` keeps between placements. */
  ghost predicate Agree(st: State)
    requires WellFormed(st)
  {
    Describes(st.rows, st.grid, Row) && Describes(st.cols, st.grid, Col) && Describes(st.boxes, st.grid, Box)
  }

  /** The digits used in the row, column and box of cell (r, c):
      `rows[r] | cols[c] | boxes[box]`. */
  function Illegal(st: State, r: int, c: int): (illegal: Mask)
    requires WellFormed(st) && 0 <= r < 9 && 0 <= c < 9
    ensures Stray(illegal) == 0 <==>
      Stray(st.rows[r]) == 0 && Stray(st.cols[c]) == 0 && Stray(st.boxes[BoxIndex(r, c)]) == 0
  {
    Union(st.rows[r], st.cols[c], st.boxes[BoxIndex(r, c)])
  }

  /** The placement step: the cell gets `n` and its bit is OR-ed into the three masks. */
  function Placed(st: State, r: int, c: int, n: nat): (st': State)
    requires WellFormed(st) && 0 <= r < 9 && 0 <= c < 9 && 1 <= n <= 9
    ensures WellFormed(st') && st'.grid == Place(st.grid, r, c, n)
    ensures Test(st'.rows[r], n) == Bit(n) && Test(st'.cols[c], n) == Bit(n)
    ensures Test(st'.boxes[BoxIndex(r, c)], n) == Bit(n)
    ensures forall i :: 0 <= i < 9 && i != r ==> st'.rows[i] == st.rows[i]
    ensures forall j :: 0 <= j < 9 && j != c ==> st'.cols[j] == st.cols[j]
    ensures forall k :: 0 <= k < 9 && k != BoxIndex(r, c) ==> st'.boxes[k] == st.boxes[k]
  {
    var k := BoxIndex(r, c);
    State(Place(st.grid, r, c, n),
          st.rows[r := With(st.rows[r], n)],
          st.cols[c := With(st.cols[c], n)],
          st.boxes[k := With(st.boxes[k], n)])
  }

  /** The undo step: the cell gets 0 back and the bit of `n` is XOR-ed in the three masks. */
  function Undone(st: State, r: int, c: int, n: nat): (st': State)
    requires WellFormed(st) && 0 <= r < 9 && 0 <= c < 9 && 1 <= n <= 9
    ensures WellFormed(st') && st'.grid == Place(st.grid, r, c, 0)
    ensures Test(st'.rows[r], n) == 0 <==> Test(st.rows[r], n) != 0
    ensures Test(st'.cols[c], n) == 0 <==> Test(st.cols[c], n) != 0
    ensures Test(st'.boxes[BoxIndex(r, c)], n) == 0 <==> Test(st.boxes[BoxIndex(r, c)], n) != 0
    ensures forall i :: 0 <= i < 9 && i != r ==> st'.rows[i] == st.rows[i]
    ensures forall j :: 0 <= j < 9 && j != c ==> st'.cols[j] == st.cols[j]
    ensures forall k :: 0 <= k < 9 && k != BoxIndex(r, c) ==> st'.boxes[k] == st.boxes[k]
  {
    var k := BoxIndex(r, c);
    State(Place(st.grid, r, c, 0),
          st.rows[r := Toggle(st.rows[r], n)],
          st.cols[c := Toggle(st.cols[c], n)],
          st.boxes[k := Toggle(st.boxes[k], n)])
  }

  /** A digit whose bit is clear in `illegal` has its bit clear in the cell's row, column and
      box masks, and, when the masks agree with the board, is absent from its row, column and
      box. */
  lemma FreeDigit(st: State, r: int, c: int, n: nat)
    requires WellFormed(st) && 0 <= r < 9 && 0 <= c < 9 && 1 <= n <= 9
    requires Test(Illegal(st, r, c), n) == 0
    ensures Test(st.rows[r], n) == 0 && Test(st.cols[c], n) == 0 && Test(st.boxes[BoxIndex(r, c)], n) == 0
    ensures Agree(st) ==> !InRow(st.grid, r, n) && !InCol(st.grid, c, n) && !InBox(st.grid, BoxIndex(r, c), n)
  {
    UnionBits(st.rows[r], st.cols[c], st.boxes[BoxIndex(r, c)], n);
  }

  /** A digit whose bit is set in `illegal` is already used in the cell's row, column or box,
      when the masks agree with the board. */
  lemma UsedDigit(st: State, r: int, c: int, n: nat)
    requires WellFormed(st) && Agree(st) && 0 <= r < 9 && 0 <= c < 9 && 1 <= n <= 9
    requires Test(Illegal(st, r, c), n) != 0
    ensures InRow(st.grid, r, n) || InCol(st.grid, c, n) || InBox(st.grid, BoxIndex(r, c), n)
  {
    UnionBits(st.rows[r], st.cols[c], st.boxes[BoxIndex(r, c)], n);
  }

  /** `ms[i] |= 1 << n` keeps a mask table describing the board after `n` is placed in a cell
      of unit `i`. */
  lemma WithDescribes(ms: seq<Mask>, g: Grid, r: int, c: int, n: nat, u: Unit)
    requires IsGrid(g) && 0 <= r < 9 && 0 <= c < 9 && g[r][c] == 0 && 1 <= n <= 9
    requires Describes(ms, g, u)
    ensures Describes(ms[UnitIndex(u, r, c) := With(ms[UnitIndex(u, r, c)], n)], Place(g, r, c, n), u)
  {
    var i := UnitIndex(u, r, c);
    var ms', g' := ms[i := With(ms[i], n)], Place(g, r, c, n);
    AddKeepsStray(ms[i], n);
    forall j, m | 0 <= j < 9 && 1 <= m <= 9
      ensures Test(ms'[j], m) != 0 <==> InUnit(g', u, j, m)
    {
      PlaceUnit(g, r, c, n, u, j, m);
      if j == i {
        AddBits(ms[i], n, m);
      }
    }
  }

  /** Placing a digit in an empty cell keeps the masks agreeing with the board, whether or not
      the digit was already used: bits are set, never counted. */
  lemma PlacedAgrees(st: State, r: int, c: int, n: nat)
    requires WellFormed(st) && Agree(st) && 0 <= r < 9 && 0 <= c < 9 && 1 <= n <= 9 && st.grid[r][c] == 0
    ensures Agree(Placed(st, r, c, n))
  {
    WithDescribes(st.rows, st.grid, r, c, n, Row);
    WithDescribes(st.cols, st.grid, r, c, n, Col);
    WithDescribes(st.boxes, st.grid, r, c, n, Box);
  }

  /** The undo restores the state before the placement exactly, because the placement happens
      only when the digit's bit is clear in the union of the three masks. */
  lemma UndoPlaced(st: State, r: int, c: int, n: nat)
    requires WellFormed(st) && 0 <= r < 9 && 0 <= c < 9 && 1 <= n <= 9 && st.grid[r][c] == 0
    requires Test(Illegal(st, r, c), n) == 0
    ensures Undone(Placed(st, r, c, n), r, c, n) == st
  {
    var k := BoxIndex(r, c);
    FreeDigit(st, r, c, n);
    ToggleUndoAt(st.rows, r, n);
    ToggleUndoAt(st.cols, c, n);
    ToggleUndoAt(st.boxes, k, n);
    PlaceUndo(st.grid, r, c, n);
  }

  lemma ToggleUndoAt(ms: seq<Mask>, i: int, n: nat)
    requires 0 <= i < |ms| && n <= 9 && Test(ms[i], n) == 0
    ensures ms[i := With(ms[i], n)][i := Toggle(With(ms[i], n), n)] == ms
  {
    ToggleUndo(ms[i], n);
    RewriteRestores(ms, i, With(ms[i], n), ms[i]);
  }

  /** Writing an element's old value back over a new one restores the sequence. */
  lemma RewriteRestores<T>(s: seq<T>, i: int, a: T, b: T)
    requires 0 <= i < |s| && b == s[i]
    ensures s[i := a][i := b] == s
  {
  }

  /** Search from a state: `(true, s)` when the search fills the board, ending in state `s`;
      `(false, st)` when every candidate failed, all placements undone. */
  function Search(st: State): (res: (bool, State))
    requires WellFormed(st)
    ensures WellFormed(res.1)
    ensures !res.0 ==> res.1 == st
    decreases EmptyCount(st.grid), 1
  {
    match FirstEmpty(st.grid)
    case None => (true, st)
    case Some((r, c)) => TryDigits(st, r, c, Illegal(st, r, c), 1)
  }

  /** The digit loop at the empty cell (r, c), from candidate `num` on; `illegal` is the union
      of used digits computed once on entry. */
  function TryDigits(st: State, r: int, c: int, illegal: Mask, num: nat): (res: (bool, State))
    requires WellFormed(st) && 0 <= r < 9 && 0 <= c < 9 && st.grid[r][c] == 0
    requires illegal == Illegal(st, r, c) && 1 <= num <= 10
    ensures WellFormed(res.1)
    ensures !res.0 ==> res.1 == st
    decreases EmptyCount(st.grid), 0, 10 - num
  {
    if num > 9 then (false, st)
    else if Test(illegal, num) != 0 then TryDigits(st, r, c, illegal, num + 1)
    else
      var placed := Placed(st, r, c, num);
      PlaceDecrements(st.grid, r, c, num);
      var (found, after) := Search(placed);
      if found then (true, after)
      else
        UndoPlaced(st, r, c, num);
        TryDigits(Undone(after, r, c, num), r, c, illegal, num + 1)
  }

  /** One turn of the digit loop of `solve`, in the value-level model: a digit whose bit is
      set is skipped; a placement whose search succeeds ends the loop with that search's
      result; one whose search fails is undone exactly and the loop moves on. */
  lemma TryDigitsStep(st: State, r: int, c: int, illegal: Mask, num: nat)
    requires WellFormed(st) && 0 <= r < 9 && 0 <= c < 9 && st.grid[r][c] == 0
    requires illegal == Illegal(st, r, c) && 1 <= num <= 9
    ensures Test(illegal, num) != 0 ==> TryDigits(st, r, c, illegal, num) == TryDigits(st, r, c, illegal, num + 1)
    ensures Test(illegal, num) == 0 && Search(Placed(st, r, c, num)).0 ==>
      TryDigits(st, r, c, illegal, num) == Search(Placed(st, r, c, num))
    ensures Test(illegal, num) == 0 && !Search(Placed(st, r, c, num)).0 ==>
      Undone(Placed(st, r, c, num), r, c, num) == st &&
      TryDigits(st, r, c, illegal, num) == TryDigits(st, r, c, illegal, num + 1)
  {
    if Test(illegal, num) == 0 {
      PlaceDecrements(st.grid, r, c, num);
      UndoPlaced(st, r, c, num);
    }
  }

  /** A successful search leaves no empty cell and keeps every cell that was filled before. */
  lemma {:induction false} SearchFills(st: State)
    requires WellFormed(st)
    ensures Search(st).0 ==> Complete(Search(st).1.grid) && Extends(Search(st).1.grid, st.grid)
    decreases EmptyCount(st.grid), 1
  {
    match FirstEmpty(st.grid)
    case None =>
    case Some((r, c)) => TryDigitsFills(st, r, c, Illegal(st, r, c), 1);
  }

  /** The same for the digit loop; the cell it works on ends up holding the digit that
      succeeded, one of the candidates from `num` on. */
  lemma {:induction false} TryDigitsFills(st: State, r: int, c: int, illegal: Mask, num: nat)
    requires WellFormed(st) && 0 <= r < 9 && 0 <= c < 9 && st.grid[r][c] == 0
    requires illegal == Illegal(st, r, c) && 1 <= num <= 10
    ensures var res := TryDigits(st, r, c, illegal, num);
      res.0 ==> Complete(res.1.grid) && Extends(res.1.grid, st.grid) && num <= res.1.grid[r][c] <= 9
    decreases EmptyCount(st.grid), 0, 10 - num
  {
    if num <= 9 {
      if Test(illegal, num) != 0 {
        TryDigitsFills(st, r, c, illegal, num + 1);
      } else {
        var placed := Placed(st, r, c, num);
        PlaceDecrements(st.grid, r, c, num);
        SearchFills(placed);
        if !Search(placed).0 {
          UndoPlaced(st, r, c, num);
          TryDigitsFills(st, r, c, illegal, num + 1);
        }
      }
    }
  }

  /** Started from masks that agree with a board without conflicts, a successful search ends
      in a board without conflicts whose masks still agree with it. */
  lemma {:induction false} SearchSound(st: State)
    requires WellFormed(st) && Agree(st) && NoConflict(st.grid)
    ensures Search(st).0 ==> NoConflict(Search(st).1.grid) && Agree(Search(st).1)
    decreases EmptyCount(st.grid), 1
  {
    match FirstEmpty(st.grid)
    case None =>
    case Some((r, c)) => TryDigitsSound(st, r, c, Illegal(st, r, c), 1);
  }

  lemma {:induction false} TryDigitsSound(st: State, r: int, c: int, illegal: Mask, num: nat)
    requires WellFormed(st) && 0 <= r < 9 && 0 <= c < 9 && st.grid[r][c] == 0
    requires illegal == Illegal(st, r, c) && 1 <= num <= 10
    requires Agree(st) && NoConflict(st.grid)
    ensures var res := TryDigits(st, r, c, illegal, num);
      res.0 ==> NoConflict(res.1.grid) && Agree(res.1)
    decreases EmptyCount(st.grid), 0, 10 - num
  {
    if num <= 9 {
      if Test(illegal, num) != 0 {
        TryDigitsSound(st, r, c, illegal, num + 1);
      } else {
        var placed := Placed(st, r, c, num);
        PlaceDecrements(st.grid, r, c, num);
        FreeDigit(st, r, c, num);
        PlaceKeepsNoConflict(st.grid, r, c, num);
        PlacedAgrees(st, r, c, num);
        SearchSound(placed);
        if !Search(placed).0 {
          UndoPlaced(st, r, c, num);
          TryDigitsSound(st, r, c, illegal, num + 1);
        }
      }
    }
  }

  /** A solved Sudoku extending the board. */
  ghost predicate HasSolution(g: Grid)
    requires IsGrid(g)
  {
    exists s :: Solved(s) && Extends(s, g)
  }

  /** When the masks agree with the board, a failed search means that no solved Sudoku keeps
      the board's filled cells. */
  lemma {:induction false} SearchComplete(st: State)
    requires WellFormed(st) && Agree(st)
    ensures !Search(st).0 ==> !HasSolution(st.grid)
    decreases EmptyCount(st.grid), 1
  {
    match FirstEmpty(st.grid)
    case None =>
    case Some((r, c)) =>
      TryDigitsComplete(st, r, c, Illegal(st, r, c), 1);
  }

  /** A failed digit loop from `num` on means every solution extending the board holds a
      digit below `num` at the cell. */
  lemma {:induction false} TryDigitsComplete(st: State, r: int, c: int, illegal: Mask, num: nat)
    requires WellFormed(st) && 0 <= r < 9 && 0 <= c < 9 && st.grid[r][c] == 0
    requires illegal == Illegal(st, r, c) && 1 <= num <= 10
    requires Agree(st)
    ensures !TryDigits(st, r, c, illegal, num).0 ==>
      forall s :: Solved(s) && Extends(s, st.grid) ==> s[r][c] < num
    decreases EmptyCount(st.grid), 0, 10 - num
  {
    if num <= 9 && !TryDigits(st, r, c, illegal, num).0 {
      forall s | Solved(s) && Extends(s, st.grid)
        ensures s[r][c] != num
      {
        SolutionDigitIsFree(st.grid, s, r, c);
        if s[r][c] == num {
          if Test(illegal, num) != 0 {
            UsedDigit(st, r, c, num);
          } else {
            var placed := Placed(st, r, c, num);
            PlaceDecrements(st.grid, r, c, num);
            PlacedAgrees(st, r, c, num);
            SearchComplete(placed);
            assert HasSolution(placed.grid);
          }
        }
      }
      if Test(illegal, num) != 0 {
        TryDigitsComplete(st, r, c, illegal, num + 1);
      } else {
        PlaceDecrements(st.grid, r, c, num);
        UndoPlaced(st, r, c, num);
        TryDigitsComplete(st, r, c, illegal, num + 1);
      }
    }
  }

  /** From masks that agree with a board without conflicts, the search succeeds exactly when
      the board can be completed to a solved Sudoku, and then it returns one. */
  lemma SearchDecides(st: State)
    requires WellFormed(st) && Agree(st) && NoConflict(st.grid)
    ensures Search(st).0 <==> HasSolution(st.grid)
    ensures Search(st).0 ==> Solved(Search(st).1.grid) && Extends(Search(st).1.grid, st.grid)
  {
    SearchFills(st);
    SearchSound(st);
    SearchComplete(st);
  }

  /** When the digit loop succeeds, its result is the result of the search after placing the
      digit the cell ends up holding, and that digit was absent from the cell's row, column
      and box when it was placed. */
  lemma {:induction false} TryDigitsFirst(st: State, r: int, c: int, illegal: Mask, num: nat)
    requires WellFormed(st) && 0 <= r < 9 && 0 <= c < 9 && st.grid[r][c] == 0
    requires illegal == Illegal(st, r, c) && 1 <= num <= 10
    ensures var res := TryDigits(st, r, c, illegal, num);
      res.0 ==>
        var v := res.1.grid[r][c];
        num <= v <= 9 && res == Search(Placed(st, r, c, v)) &&
        (Agree(st) ==> !InRow(st.grid, r, v) && !InCol(st.grid, c, v) && !InBox(st.grid, BoxIndex(r, c), v))
    decreases 10 - num
  {
    if num <= 9 {
      if Test(illegal, num) != 0 {
        assert TryDigits(st, r, c, illegal, num) == TryDigits(st, r, c, illegal, num + 1);
        TryDigitsFirst(st, r, c, illegal, num + 1);
      } else {
        var placed := Placed(st, r, c, num);
        PlaceDecrements(st.grid, r, c, num);
        if Search(placed).0 {
          SearchFills(placed);
          FreeDigit(st, r, c, num);
          assert TryDigits(st, r, c, illegal, num) == Search(placed);
        } else {
          UndoPlaced(st, r, c, num);
          assert TryDigits(st, r, c, illegal, num) == TryDigits(st, r, c, illegal, num + 1);
          TryDigitsFirst(st, r, c, illegal, num + 1);
        }
      }
    }
  }

  /** The digits are tried in ascending order: if placing a free candidate `m` (from `num` on)
      leads to a solution, the loop succeeds too, with a digit no larger than `m`. With
      TryDigitsFirst, the loop keeps the smallest free digit whose search succeeds. */
  lemma {:induction false} TryDigitsLeast(st: State, r: int, c: int, illegal: Mask, num: nat, m: nat)
    requires WellFormed(st) && 0 <= r < 9 && 0 <= c < 9 && st.grid[r][c] == 0
    requires illegal == Illegal(st, r, c) && 1 <= num <= m <= 9
    requires Test(illegal, m) == 0 && Search(Placed(st, r, c, m)).0
    ensures TryDigits(st, r, c, illegal, num).0 && TryDigits(st, r, c, illegal, num).1.grid[r][c] <= m
    decreases m - num
  {
    PlaceDecrements(st.grid, r, c, num);
    if num == m {
      SearchFills(Placed(st, r, c, num));
      assert TryDigits(st, r, c, illegal, num) == Search(Placed(st, r, c, num));
    } else if Test(illegal, num) != 0 {
      assert TryDigits(st, r, c, illegal, num) == TryDigits(st, r, c, illegal, num + 1);
      TryDigitsLeast(st, r, c, illegal, num + 1, m);
    } else if Search(Placed(st, r, c, num)).0 {
      SearchFills(Placed(st, r, c, num));
      assert TryDigits(st, r, c, illegal, num) == Search(Placed(st, r, c, num));
    } else {
      UndoPlaced(st, r, c, num);
      assert TryDigits(st, r, c, illegal, num) == TryDigits(st, r, c, illegal, num + 1);
      TryDigitsLeast(st, r, c, illegal, num + 1, m);
    }
  }

  /** On a board with no empty cell the search succeeds at once and changes nothing: no
      digit is placed. */
  lemma SearchOnComplete(st: State)
    requires WellFormed(st) && Complete(st.grid)
    ensures Search(st) == (true, st)
  {
  }
}
