/** Concrete boards: the puzzle of `load_board`, and a board whose presets repeat a digit. */
module Scenarios {
  import opened Masks
  import opened Board
  import opened Backtracking

  /** The puzzle literal of `load_board`. */
  function LoadBoard(): Grid {
    [[5, 3, 0, 0, 7, 0, 0, 0, 0],
     [6, 0, 0, 1, 9, 5, 0, 0, 0],
     [0, 9, 8, 0, 0, 0, 0, 6, 0],
     [8, 0, 0, 0, 6, 0, 0, 0, 3],
     [4, 0, 0, 8, 0, 3, 0, 0, 1],
     [7, 0, 0, 0, 2, 0, 0, 0, 6],
     [0, 6, 0, 0, 0, 0, 2, 8, 0],
     [0, 0, 0, 4, 1, 9, 0, 0, 5],
     [0, 0, 0, 0, 8, 0, 0, 7, 9]]
  }

  /** The literal is a board the solver accepts. */
  lemma LoadBoardIsBoard()
    ensures IsBoard(LoadBoard())
  {
  }

  /** Its first empty cell is row 0, column 2. */
  lemma LoadBoardFirstEmpty()
    ensures FirstEmpty(LoadBoard()) == Some((0, 2))
  {
    var g := LoadBoard();
    assert FirstEmptyFrom(g, 0, 0) == FirstEmptyFrom(g, 0, 1) == FirstEmptyFrom(g, 0, 2);
  }

  /** A board holding 5 in every cell. */
  function AllFives(): Grid {
    seq(9, _ => seq(9, _ => 5))
  }

  /** The presets are not checked: on a board whose every row repeats the digit 5, the search
      reports success, although the board is not a solved Sudoku. */
  lemma RepeatedPresetsAccepted(rows: seq<Mask>, cols: seq<Mask>, boxes: seq<Mask>)
    requires |rows| == 9 && |cols| == 9 && |boxes| == 9
    ensures WellFormed(State(AllFives(), rows, cols, boxes))
    ensures Search(State(AllFives(), rows, cols, boxes)).0
    ensures !Solved(Search(State(AllFives(), rows, cols, boxes)).1.grid)
  {
    var g := AllFives();
    assert Complete(g);
    SearchOnComplete(State(g, rows, cols, boxes));
    assert g[0][0] == g[0][1];
  }
}
