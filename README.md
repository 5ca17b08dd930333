# Constraint-tracked backtracking Sudoku solver, modelled in Dafny

This project models the solver core of `solver.cpp`, a C++ 9×9 Sudoku solver. The board is a
9×9 grid of digits, with 0 marking an empty cell. Three tables of nine bitmasks (`rows`,
`cols`, `boxes`) record which digits each row, column and 3×3 box already uses: bit `n` is
set when digit `n` is used. The core has three functions:

- `find_empty` scans the board in row-major order for the first empty cell.
- `prepare_masks` clears the three tables and builds them in one pass over the 81 cells.
- `solve` fills the board in place by depth-first backtracking. It takes the first empty
  cell and computes the union of the three masks of that cell once (`illegal`). It then tries
  the digits 1..9 in ascending order, skipping those in `illegal`. For each remaining digit it
  writes the cell, sets the bit in the three masks and recurses. If the recursion fails, it
  clears the cell and XORs the bit back out.

The modules follow that structure:

- `Masks` (`masks.dfy`) — a mask is a `bv32`, the C++ `int`. The source's mask operations
  are named functions: `|= bit` is `With`, `^= bit` is `Toggle`, `& bit` is `Test` and the
  three-way `|` is `Union`. Their bit-level facts are proved once, as lemmas.
- `Board` (`board.dfy`) — the board as a value (`seq<seq<int>>`):
  - the box formula;
  - the first-empty-cell specification;
  - row, column and box membership;
  - what a valid solution is;
  - the count of empty cells that makes the recursion terminate.
- `Backtracking` (`backtracking.dfy`) — a pure model of `solve` over a `State` that holds the
  board and the three mask tables:
  - `Search` is one call of `solve`;
  - `TryDigits` is its digit loop, from a given digit upward, with the same place, recurse and
    undo steps.

  All properties of the algorithm are proved here, as lemmas about these two functions.
- `Solver` (`solver.dfy`) — the imperative code. The board is an `array2<int>` and the mask
  tables are `array<Mask>`s, all updated in place. Each method is proved equal to the pure
  model:
  - `FindEmpty` and `PrepareMasks` have the source's nested loops.
  - `Solve` and its digit loop `TryCandidates` return exactly the outcome and final state
    that `Search` and `TryDigits` give.
  - `SolvePuzzle` is the sequence in `main`: `prepare_masks` followed by `solve`.
- `Scenarios` (`scenarios.dfy`) — facts about concrete boards:
  - the puzzle literal of `load_board`;
  - a board whose presets repeat a digit.

The body of `solve` is split over the methods `Solve`, `TryCandidates` (the `for` loop),
`PlaceDigit` (lines 56-59), `UndoDigit` (lines 63-66) and `SetCell` (one cell write). The
statements and their order are those of the source. The box index is computed once, in
`Solve` (line 49), and passed on to the helpers.

Input validation: nothing in the source checks the presets for a repeated digit. A reading in
which two equal presets in one row make `solve` report failure does not match the code. When
the board has no empty cell, `solve` returns `true` at once, whatever the presets are
(`Scenarios.RepeatedPresetsAccepted`). The model follows the code. Every property that
speaks of valid solutions therefore assumes `NoConflict` of the initial board.

## Model

| member | source | states |
|---|---|---|
| Masks.BitValues | solver.cpp:53 | `1 << n` is the single bit 2^n for each digit 1..9 |
| Masks.With | solver.cpp:57-59 | `m \| (1 << n)`: afterwards the bit of `n` is set |
| Masks.Toggle | solver.cpp:64-66 | `m ^ (1 << n)`: flips the bit of `n`, so it is clear afterwards iff it was set before |
| Masks.Test | solver.cpp:54 | `m & (1 << n)` is either 0 or exactly the bit of `n` |
| Masks.Union | solver.cpp:50 | `x \| y \| z` has no bit outside 1..9 iff none of the three masks has one |
| Masks.ZeroBits | solver.cpp:72-74 | a cleared mask holds no digit and no stray bit |
| Masks.AddBits | solver.cpp:57-59 | after `m \|= 1 << n`, digit `k` is in the mask iff it was before or `k == n` |
| Masks.UnionBits | solver.cpp:50 | the union of three masks holds a digit iff one of the three holds it |
| Masks.AddKeepsStray | solver.cpp:78-82 | adding a digit 1..9 never sets bit 0 or a bit above 9, since empty cells are skipped |
| Masks.ToggleUndo | solver.cpp:64-66 | if the bit was clear before the `\|=`, the `^=` restores the mask exactly |
| Masks.ToggleNeedsClearBit | solver.cpp:54-66 | if the bit was already set, set-then-XOR does not restore the mask, so the undo relies on the skip at line 54 |
| Board.BoxIndex | solver.cpp:49 | `(r/3)*3 + c/3` lies in 0..8, and its band and stack are `r/3` and `c/3` |
| Board.SameBox | solver.cpp:82 | two cells get the same box index iff they are in the same 3-row band and 3-column stack |
| Board.FirstEmptyFrom | solver.cpp:36-42 | the row-major scan from a position finds the first empty cell at or after it, and finds none iff no later cell is empty |
| Board.FirstEmpty | solver.cpp:36-42 | the result is an empty cell with no empty cell before it in row-major order; none iff the board has no zero |
| Board.FirstEmptyUnique | solver.cpp:36-42 | the first empty cell is unique |
| Board.Place | solver.cpp:56 | writing one cell changes that cell and no other |
| Board.PlaceUndo | solver.cpp:56-63 | writing a cell and then writing back its old value restores the board |
| Board.PlaceUnits | solver.cpp:56-59 | filling an empty cell with `n` adds `n` to its row, column and box and changes no other unit |
| Board.PlaceUnit | solver.cpp:56-59 | the same, for one unit (row, column or box) chosen by a parameter |
| Board.Prefix | solver.cpp:75-83 | the board restricted to the cells the scan has visited; the other cells are 0 |
| Board.PrefixEnds | solver.cpp:72-75 | before the scan no cell has been visited; after it the whole board has |
| Board.PrefixStep | solver.cpp:76-83 | one scan step adds the current cell when it is non-zero (`continue` at line 78), and a row end moves to the next row |
| Board.PlaceKeepsNoConflict | solver.cpp:50-56 | placing a digit absent from the cell's row, column and box keeps the board free of repeats |
| Board.SolutionDigitIsFree | solver.cpp:52-56 | a valid completion's digit at an empty cell is one the loop does not skip, and placing it keeps that completion reachable |
| Board.PlaceDecrements | solver.cpp:56-61 | each placement lowers the number of empty cells by exactly one, so the recursion terminates |
| Backtracking.FreeDigit | solver.cpp:50-56 | a digit absent from `illegal` is absent from each of the three masks and, when masks agree with the board, from the cell's row, column and box |
| Backtracking.Illegal | solver.cpp:49-50 | `rows[r] \| cols[c] \| boxes[box]` has no bit outside 1..9 iff the three masks have none; which digits it holds is stated by `FreeDigit` and `UsedDigit` |
| Backtracking.Placed | solver.cpp:56-59 | the cell gets `n`, the bit of `n` is set in the cell's row, column and box masks, and every other mask entry is unchanged |
| Backtracking.Undone | solver.cpp:63-66 | the cell gets 0, the bit of `n` is flipped in the cell's row, column and box masks, and every other mask entry is unchanged |
| Backtracking.UsedDigit | solver.cpp:50-54 | a digit the loop skips already occurs in the cell's row, column or box |
| Backtracking.WithDescribes | solver.cpp:57-59 | setting a digit's bit in one table keeps that table exactly describing the board after the placement |
| Backtracking.PlacedAgrees | solver.cpp:56-59 | masks that agree with the board still agree after a placement in an empty cell |
| Backtracking.UndoPlaced | solver.cpp:54-66 | undoing a placement of a digit absent from `illegal` restores board and masks exactly |
| Backtracking.ToggleUndoAt | solver.cpp:64-66 | the `\|=`/`^=` pair on one table entry leaves the table as it was |
| Backtracking.Search | solver.cpp:44-69 | `solve`; on failure, board and masks are returned unchanged |
| Backtracking.TryDigits | solver.cpp:52-68 | the digit loop from `num`; on failure, the state is unchanged |
| Backtracking.TryDigitsStep | solver.cpp:52-66 | one loop turn: a digit in `illegal` is skipped; otherwise the result is the recursive search's success or, after the undo, the next turn |
| Backtracking.SearchFills | solver.cpp:45-46 | on success the board has no empty cell and every preset is kept |
| Backtracking.TryDigitsFills | solver.cpp:52-61 | on success the tried cell holds a digit in `num..9`, no cell is empty and every filled cell is kept |
| Backtracking.SearchSound | solver.cpp:50-61 | from a repeat-free board with agreeing masks, success yields a repeat-free board with agreeing masks |
| Backtracking.TryDigitsSound | solver.cpp:52-61 | the same, for the digit loop |
| Backtracking.SearchComplete | solver.cpp:44-69 | with agreeing masks, failure means no valid solution extends the presets |
| Backtracking.TryDigitsComplete | solver.cpp:52-68 | when the loop from `num` fails, every valid solution extending the board has a digit below `num` at the cell |
| Backtracking.SearchDecides | solver.cpp:44-69 | from a repeat-free board with agreeing masks, `solve` succeeds iff a valid solution extends the presets, and then leaves one |
| Backtracking.TryDigitsFirst | solver.cpp:52-61 | on success the cell holds a digit `v` in `num..9` that is free in its row, column and box, and the result is the recursive search after placing `v` |
| Backtracking.TryDigitsLeast | solver.cpp:52-61 | if placing a free digit `m` leads to success, the loop succeeds with a digit at most `m`: digits are tried in ascending order |
| Backtracking.SearchOnComplete | solver.cpp:45-46 | a board without empty cells returns `true` at once, with the state unchanged |
| Solver.FindEmpty | solver.cpp:36-42 | the nested scan returns exactly `FirstEmpty` of the board |
| Solver.Fill | solver.cpp:72-74 | `fill(0)` zeroes every entry |
| Solver.ZeroesAgree | solver.cpp:72-74 | zero tables describe the all-empty board |
| Solver.PrepareMasks | solver.cpp:71-84 | afterwards, each table has nine entries with no bit outside 1..9, and bit `n` of `rows[r]`, `cols[c]`, `boxes[k]` is set iff digit `n` occurs in that row, column or box |
| Solver.PlaceDigit | solver.cpp:56-59 | the new board and masks are `Placed` of the old ones |
| Solver.UndoDigit | solver.cpp:63-66 | the new board and masks are `Undone` of the old ones |
| Solver.SetCell | solver.cpp:56 | the array board after the write is `Place` of the old grid |
| Solver.Solve | solver.cpp:44-69 | the result and the final board and masks are those of `Search` on the initial state |
| Solver.TryCandidates | solver.cpp:52-68 | the loop's result and final state are those of `TryDigits` from digit 1 |
| Solver.SolvePuzzle | solver.cpp:102-106 | on success the board is full and keeps the presets; on failure it is unchanged; for a repeat-free input, success iff a valid solution exists, and the result is then valid |
| Scenarios.LoadBoardIsBoard | solver.cpp:11-23 | the compiled-in puzzle is a 9×9 board of digits 0..9 |
| Scenarios.LoadBoardFirstEmpty | solver.cpp:11-23 | its first empty cell is row 0, column 2 |
| Scenarios.RepeatedPresetsAccepted | solver.cpp:44-46 | a full board of repeated 5s makes `solve` return `true` though it is no valid solution |

## Left out

- `print_board`, and the file input, console output and file output of `main`
  (solver.cpp:25-34 and 86-121): presentation and I/O only. `SolvePuzzle` models only the
  two core calls of `main`.
- `load_board` as an operation: its literal is used only as a concrete board in `Scenarios`.
- Cells outside 0..9 and short or malformed input: the models of `prepare_masks` and `solve`
  require a 9×9 board of digits 0..9 (`IsBoard`), which the source does not check. In C++,
  a cell value of 10..30 makes `prepare_masks` set a bit above 9 (solver.cpp:79). `solve`
  never shifts by a cell's value and only tests bits 1..9 (lines 53-54), so such a cell acts
  as a filled cell that conflicts with nothing. A value of 31 overflows the signed `int`, and
  a negative value or one of 32 or more is an undefined shift. `IsBoard` excludes all of
  these inputs from the model.
- Backtracking.TryDigitsLeast: ascending order is stated pointwise, against one working
  digit `m`, not as "the least digit for which the search succeeds".
- Determinism: it is not stated as a lemma. `Search` is a function, so equal inputs give
  equal results by construction.
- End-to-end solutions of the classic puzzle and of the empty board: these are not proved
  for concrete boards. `SearchDecides` covers them in general, given a valid solution as a
  witness.
- The upper bound on the number of recursive calls: termination is proved by the empty-cell
  count, which drops by one on every descent (`PlaceDecrements`). No explicit count of calls
  is given.
- That masks agreeing with a board are unique: `Agree` fixes every bit 1..9 and excludes the
  other bits, but equality of two such tables is not stated.
