/** The solver as the source runs it: the board is a 9×9 array updated in place, the row,
    column and box masks are three arrays of nine masks, and `find_empty`, `prepare_masks`
    and `solve` are methods over them. Each method is proved against the value-level model:
    FindEmpty against Board.FirstEmpty, PrepareMasks against Backtracking.Agree and Solve
    against Backtracking.Search. */
module Solver {
  import opened Masks
  import opened Board
  import opened Backtracking

  /** The shapes the source's types fix: a 9×9 board and three distinct tables of nine
      masks. */
  predicate Shaped(b: array2<int>, rows: array<Mask>, cols: array<Mask>, boxes: array<Mask>) {
    b.Length0 == 9 && b.Length1 == 9 && rows.Length == 9 && cols.Length == 9 && boxes.Length == 9 &&
    rows != cols && rows != boxes && cols != boxes
  }

  /** The board array as a grid value. */
  ghost function GridOf(b: array2<int>): (g: Grid)
    reads b
    requires b.Length0 == 9 && b.Length1 == 9
    ensures IsGrid(g)
  {
    seq(9, r requires 0 <= r < 9 reads b => seq(9, c requires 0 <= c < 9 reads b => b[r, c]))
  }

  /** Cell (r, c) of the grid is `b[r][c]`. */
  lemma GridOfCells(b: array2<int>)
    requires b.Length0 == 9 && b.Length1 == 9
    ensures forall r, c :: 0 <= r < 9 && 0 <= c < 9 ==> GridOf(b)[r][c] == b[r, c]
  {
  }

  /** The board and the three mask tables as a solver state. */
  ghost function StateOf(b: array2<int>, rows: array<Mask>, cols: array<Mask>, boxes: array<Mask>): State
    reads b, rows, cols, boxes
    requires Shaped(b, rows, cols, boxes)
  {
    State(GridOf(b), rows[..], cols[..], boxes[..])
  }

  /** `find_empty`: the row-major scan for the first cell holding 0. */
  method FindEmpty(b: array2<int>) returns (res: Option<(int, int)>)
    requires b.Length0 == 9 && b.Length1 == 9
    ensures res == FirstEmpty(GridOf(b))
  {
    ghost var g := GridOf(b);
    GridOfCells(b);
    for r := 0 to 9
      invariant forall i, j :: 0 <= i < r && 0 <= j < 9 ==> g[i][j] != 0
    {
      for c := 0 to 9
        invariant forall i, j :: 0 <= i < 9 && 0 <= j < 9 && Before(i, j, r, c) ==> g[i][j] != 0
      {
        if b[r, c] == 0 {
          FirstEmptyUnique(g, r, c, FirstEmpty(g).value.0, FirstEmpty(g).value.1);
          return Some((r, c));
        }
      }
    }
    return None;
  }

  /** `rows.fill(0)`. */
  method Fill(a: array<Mask>)
    modifies a
    ensures forall i :: 0 <= i < a.Length ==> a[i] == 0
  {
    for i := 0 to a.Length
      invariant forall j :: 0 <= j < i ==> a[j] == 0
    {
      a[i] := 0;
    }
  }

  /** `prepare_masks`: clear the three tables, then scan the board and set the bit of every
      filled cell's digit in its row, column and box mask. Afterwards the masks agree with
      the board (bit `n` set exactly where `n` appears, bit 0 never set), whether or not the
      board repeats a digit. */
  method PrepareMasks(b: array2<int>, rows: array<Mask>, cols: array<Mask>, boxes: array<Mask>)
    requires Shaped(b, rows, cols, boxes) && IsBoard(GridOf(b))
    modifies rows, cols, boxes
    ensures WellFormed(StateOf(b, rows, cols, boxes)) && Agree(StateOf(b, rows, cols, boxes))
  {
    ghost var g := GridOf(b);
    GridOfCells(b);
    Fill(rows);
    Fill(cols);
    Fill(boxes);
    PrefixEnds(g);
    ZeroesAgree(Prefix(g, 0, 0), rows[..], cols[..], boxes[..]);
    for r := 0 to 9
      invariant Agree(State(Prefix(g, r, 0), rows[..], cols[..], boxes[..]))
    {
      for c := 0 to 9
        invariant Agree(State(Prefix(g, r, c), rows[..], cols[..], boxes[..]))
      {
        PrefixStep(g, r, c);
        var n := b[r, c];
        if n == 0 {
          continue;
        }
        ghost var before := State(Prefix(g, r, c), rows[..], cols[..], boxes[..]);
        rows[r] := With(rows[r], n);
        cols[c] := With(cols[c], n);
        var box := BoxIndex(r, c);
        boxes[box] := With(boxes[box], n);
        PlacedAgrees(before, r, c, n);
        assert State(Prefix(g, r, c + 1), rows[..], cols[..], boxes[..]) == Placed(before, r, c, n);
      }
      PrefixStep(g, r, 0);
    }
    assert GridOf(b) == g;
  }

  /** All-zero tables agree with the empty board. */
  lemma ZeroesAgree(g: Grid, rows: seq<Mask>, cols: seq<Mask>, boxes: seq<Mask>)
    requires IsGrid(g) && forall i, j :: 0 <= i < 9 && 0 <= j < 9 ==> g[i][j] == 0
    requires |rows| == 9 && |cols| == 9 && |boxes| == 9
    requires forall i :: 0 <= i < 9 ==> rows[i] == 0 && cols[i] == 0 && boxes[i] == 0
    ensures WellFormed(State(g, rows, cols, boxes)) && Agree(State(g, rows, cols, boxes))
  {
    forall n | 1 <= n <= 9 ensures Test(0, n) == 0 && Stray(0) == 0 {
      ZeroBits(n);
    }
  }

  /** The placement of `solve`: `b[r][c] = num` and the digit's bit OR-ed into the cell's row,
      column and box masks. */
  method PlaceDigit(b: array2<int>, rows: array<Mask>, cols: array<Mask>, boxes: array<Mask>, r: int, c: int, box: int, num: nat)
    requires Shaped(b, rows, cols, boxes) && WellFormed(StateOf(b, rows, cols, boxes))
    requires 0 <= r < 9 && 0 <= c < 9 && box == BoxIndex(r, c) && 1 <= num <= 9
    modifies b, rows, cols, boxes
    ensures StateOf(b, rows, cols, boxes) == Placed(old(StateOf(b, rows, cols, boxes)), r, c, num)
  {
    SetCell(b, r, c, num);
    GridOfCells(b);
    ghost var cells := GridOf(b);
    rows[r] := With(rows[r], num);
    cols[c] := With(cols[c], num);
    boxes[box] := With(boxes[box], num);
    GridOfCells(b);
    GridExt(GridOf(b), cells);
  }

  /** The undo of `solve`: `b[r][c] = 0` and the digit's bit XOR-ed in the cell's row, column
      and box masks. */
  method UndoDigit(b: array2<int>, rows: array<Mask>, cols: array<Mask>, boxes: array<Mask>, r: int, c: int, box: int, num: nat)
    requires Shaped(b, rows, cols, boxes) && WellFormed(StateOf(b, rows, cols, boxes))
    requires 0 <= r < 9 && 0 <= c < 9 && box == BoxIndex(r, c) && 1 <= num <= 9
    modifies b, rows, cols, boxes
    ensures StateOf(b, rows, cols, boxes) == Undone(old(StateOf(b, rows, cols, boxes)), r, c, num)
  {
    SetCell(b, r, c, 0);
    GridOfCells(b);
    ghost var cells := GridOf(b);
    rows[r] := Toggle(rows[r], num);
    cols[c] := Toggle(cols[c], num);
    boxes[box] := Toggle(boxes[box], num);
    GridOfCells(b);
    GridExt(GridOf(b), cells);
  }

  /** `solve`: find the first empty cell, compute the digits its row, column and box already
      use, and try the others in turn. The outcome and the new board and masks are those of
      the value-level search from the old ones. */
  method Solve(b: array2<int>, rows: array<Mask>, cols: array<Mask>, boxes: array<Mask>) returns (solved: bool)
    requires Shaped(b, rows, cols, boxes) && WellFormed(StateOf(b, rows, cols, boxes))
    modifies b, rows, cols, boxes
    ensures WellFormed(StateOf(b, rows, cols, boxes))
    ensures (solved, StateOf(b, rows, cols, boxes)) == Search(old(StateOf(b, rows, cols, boxes)))
    decreases EmptyCount(GridOf(b)), 1
  {
    ghost var st := StateOf(b, rows, cols, boxes);
    var empty := FindEmpty(b);
    if empty.None? {
      return true;
    }
    var r, c := empty.value.0, empty.value.1;
    var box := BoxIndex(r, c);
    var illegal := Union(rows[r], cols[c], boxes[box]);
    solved := TryCandidates(b, rows, cols, boxes, r, c, box, illegal);
  }

  /** The digit loop of `solve` at the empty cell (r, c): for each digit 1..9 whose bit is
      clear in `illegal`, place it, recurse, and return true if the recursion succeeds, or
      undo the placement and go on; false once the digits run out. */
  method TryCandidates(b: array2<int>, rows: array<Mask>, cols: array<Mask>, boxes: array<Mask>, r: int, c: int, box: int,
      illegal: Mask) returns (solved: bool)
    requires Shaped(b, rows, cols, boxes) && WellFormed(StateOf(b, rows, cols, boxes))
    requires 0 <= r < 9 && 0 <= c < 9 && box == BoxIndex(r, c) && b[r, c] == 0
    requires illegal == Illegal(StateOf(b, rows, cols, boxes), r, c)
    modifies b, rows, cols, boxes
    ensures WellFormed(StateOf(b, rows, cols, boxes))
    ensures (solved, StateOf(b, rows, cols, boxes)) == TryDigits(old(StateOf(b, rows, cols, boxes)), r, c, illegal, 1)
    decreases EmptyCount(GridOf(b)), 0
  {
    ghost var st := StateOf(b, rows, cols, boxes);
    ghost var outcome := TryDigits(st, r, c, illegal, 1);
    for num := 1 to 10
      invariant StateOf(b, rows, cols, boxes) == st
      invariant outcome == TryDigits(st, r, c, illegal, num)
    {
      if Test(illegal, num) != 0 {
        TryDigitsStep(st, r, c, illegal, num);
        continue;
      }
      PlaceDigit(b, rows, cols, boxes, r, c, box, num);
      PlaceDecrements(st.grid, r, c, num);
      var found := Solve(b, rows, cols, boxes);
      TryDigitsStep(st, r, c, illegal, num);
      if found {
        return true;
      }
      UndoDigit(b, rows, cols, boxes, r, c, box, num);
    }
    return false;
  }

  /** The glue of `main`: build the masks of a board with `prepare_masks`, then run `solve`
      on it. On a board whose presets do not conflict, it succeeds exactly when the board can
      be completed to a solved Sudoku and then leaves one in the array, keeping every preset;
      on failure the board is as it was. */
  method SolvePuzzle(b: array2<int>) returns (solved: bool)
    requires b.Length0 == 9 && b.Length1 == 9 && IsBoard(GridOf(b))
    modifies b
    ensures IsBoard(GridOf(b))
    ensures solved ==> Complete(GridOf(b)) && Extends(GridOf(b), old(GridOf(b)))
    ensures !solved ==> GridOf(b) == old(GridOf(b))
    ensures NoConflict(old(GridOf(b))) ==> (solved <==> HasSolution(old(GridOf(b))))
    ensures NoConflict(old(GridOf(b))) && solved ==> Solved(GridOf(b))
  {
    var rows := new Mask[9];
    var cols := new Mask[9];
    var boxes := new Mask[9];
    PrepareMasks(b, rows, cols, boxes);
    ghost var st := StateOf(b, rows, cols, boxes);
    solved := Solve(b, rows, cols, boxes);
    SearchFills(st);
    if NoConflict(st.grid) {
      SearchDecides(st);
    }
  }

  /** `b[r][c] = v`: the write of one cell, a Place on the grid the board holds. */
  method SetCell(b: array2<int>, r: int, c: int, v: int)
    requires b.Length0 == 9 && b.Length1 == 9 && 0 <= r < 9 && 0 <= c < 9
    modifies b
    ensures GridOf(b) == Place(old(GridOf(b)), r, c, v)
  {
    ghost var g := old(GridOf(b));
    b[r, c] := v;
    GridOfCells(b);
    GridExt(GridOf(b), Place(g, r, c, v));
  }
}
