# Backtracking Sudoku solver

This project models and proves the solving core of a small JavaFX Sudoku
solver. The board is an `int[9][9]` in which 0 marks an empty cell. Four
static routines act on it:

- `getColumn` and `getQuadrant` copy out a column and a 3x3 box.
- `getPossibilities` computes the candidate digits of one cell from its
  row, column and box.
- `solve` is a recursive backtracking search. It fills the board in place.
  Its cursor `(x, y)` visits `board[x][y]` with `x` advancing fastest.

The repository holds two revisions of the class, and both are modelled:

- `src/SudokuSolver.java`, the final revision (modules `Solver` and
  `SolverLemmas`). Its `solve` returns a code:
  - 1: solved;
  - 0: backtrack, no solution from here;
  - -1: a given that clashes with its peers, met by the leading loop.
- `src/Solver/SudokuSolver.java`, the earlier revision (modules `SolverV1`
  and `SolverV1Lemmas`). Its `solve` returns a boolean. Its
  `getPossibilities` appends the digit of the mirrored cell `board[x][y]`.
  That cell is not the one it examined, which is `board[y][x]`.

Modules:

- `DigitList`: the candidate list and its removal loop. The source keeps
  the list as a digit string; here it is the sequence of those digits.
- `Board`:
  - the board's shape and cursor;
  - the row/column/box vocabulary;
  - `getColumn` and `getQuadrant`, which are identical in both revisions.
- `Solver`, `SolverV1`: the imperative routines. Each is proved against a
  specification function on a value snapshot of the board:
  - `GetPossibilities` against `Candidates` / `CandidatesV1`;
  - `Solve` against `Search` / `SearchV1`;
  - the candidate loop against `TryAll` / `TryAllV1`.
- `SolverLemmas`, `SolverV1Lemmas`: the properties of the two searches.
- `Scenarios`: concrete boards. They show the full search succeeding and
  exhibit the earlier revision's faults.

The board is a Dafny `array2<int>`, first index `x`, second index `y`, as
in `board[x][y]`. `Board.Snapshot` reads it as a `seq<seq<int>>`.

## Model

| member | source | states |
|---|---|---|
| Board.Set | src/SudokuSolver.java:118-121 | The statement `board[x][y] = v` changes that cell to `v`, leaves every other cell as it was, and keeps a 9x9 board with values in 0..9. |
| Board.Next | src/SudokuSolver.java:104-105 | One cursor step stays on the board (or one past it) and advances the rank `9*y + x` by exactly one. |
| Board.SkipFilled | src/SudokuSolver.java:110-115 | The cursor loop stops at the first empty cell at or after its start, or past the last cell. Every cell it skips is filled. |
| Board.GetColumn | src/SudokuSolver.java:197-203 | Returns a freshly allocated array of length 9. Entry i is `board[i][x]`. |
| Board.Times3 | src/SudokuSolver.java:176-177 | The Java product `x * 3` lies in the 32-bit range, and equals the exact triple whenever that triple fits. |
| Board.QuadrantAsWritten | src/SudokuSolver.java:175-189 | `getQuadrant` as written, on Java ints. The triples wrap through `Times3`. A triple outside 0..9 gives nine zeros, and a triple of 7, 8 or 9 faults (`None`). Otherwise it returns the block at the wrapped corner. Its own contract states only that a returned array has nine entries; its facts are `QuadrantAsWrittenFaults` and `QuadrantAsWrittenWraps`. |
| Board.QuadrantAsWrittenFaults | src/SudokuSolver.java:179 | Where `x * 3` and `y * 3` do not overflow, the code as written faults exactly when one box index is 3 and the other lies in 0..3. |
| Board.QuadrantAsWrittenWraps | src/SudokuSolver.java:176-186 | Where the triple overflows, the guard no longer separates box indices. `x = 1431655768` wraps to 8 and faults. `x = 1431655766` wraps to 2 and returns the block whose corner is `board[0][2]`. |
| Board.GetQuadrant | src/SudokuSolver.java:175-189 | With the guard corrected to `>=` and the triple taken without overflow, it returns a freshly allocated array. For box indices in 0..2, entry `i*3+j` is `board[3*y+i][3*x+j]`; otherwise all nine entries are zero. Wherever the code as written neither faults nor overflows, the two agree. |
| Board.UnitsMembers | src/SudokuSolver.java:145-147 | A value occurs in the concatenated column, row and box of a cell exactly when some cell of that row, column or box holds it. |
| Board.ZeroedUnitsMembers | src/SudokuSolver.java:140-147 | With the cell zeroed, a nonzero value occurs in its units exactly when a peer holds it. |
| DigitList.Without | src/SudokuSolver.java:150-151 | `replace(v, "")` keeps exactly the members other than `v`. |
| DigitList.KeepAbsent | src/SudokuSolver.java:149-159 | Filtering by a list of unit values keeps exactly the members absent from it. |
| DigitList.WithoutKeepAbsent | src/SudokuSolver.java:149-159 | Removing one more value equals filtering by one more unit value. |
| DigitList.WithoutAbsent | src/SudokuSolver.java:150 | Removing a value that is not present leaves the list unchanged, which justifies the `contains` guard. |
| DigitList.KeepAbsentAscending | src/SudokuSolver.java:139 | Filtering an ascending list keeps it strictly ascending. |
| DigitList.KeepAbsentSameMembers | src/SudokuSolver.java:149-159 | The filter depends only on which values the units hold, not on their order or repetition. |
| DigitList.Drop | src/SudokuSolver.java:150-158 | One guarded `replace` returns the list without that value. |
| DigitList.RemoveUnitValues | src/SudokuSolver.java:149-159 | The removal loop returns the start list filtered by every column, row and box value. |
| Solver.Candidates | src/SudokuSolver.java:136-166 | Every candidate is a digit in 1..9. |
| Solver.CandidatesMembers | src/SudokuSolver.java:139-159 | d is a candidate exactly when d is in 1..9, no peer holds d, and the cell is empty or holds d. |
| Solver.CandidatesOfEmptyCell | src/SudokuSolver.java:139-162 | For an empty cell: exactly the digits no peer holds, strictly ascending. |
| Solver.CandidatesOfFilledCell | src/SudokuSolver.java:140-159 | For a cell holding d: `[d]` if no peer holds d, `[]` otherwise. |
| Solver.GetPossibilities | src/SudokuSolver.java:136-166 | The board ends exactly as it began, since the zeroed cell is restored. The result is the cell's candidates. |
| Solver.Scan | src/SudokuSolver.java:100-106 | When the leading loop stops without a conflict, it stops where the cursor loop over filled cells would. |
| Solver.ScanFilled | src/SudokuSolver.java:100-106 | The leading loop leaves the board unchanged and returns what `Scan` describes. On a stop, the cursor is on an empty cell or past the last one. |
| Solver.NextEmpty | src/SudokuSolver.java:110-115 | `newx`/`newy` is the first empty cell strictly after the cursor, or past the last cell. |
| Solver.Search | src/SudokuSolver.java:99-127 | `solve` as a function of the entry board: the code and the board it leaves. The contract states only that the board left is 9x9 with values in 0..9. `Solver.Solve` ties the method to it, and `SolverLemmas` proves what it returns. |
| Solver.TryAll | src/SudokuSolver.java:117-126 | The candidate loop as a function: assign each candidate, search on, reset on 0, return any other code. The contract states only that the board left is 9x9 with values in 0..9. Its promises are `SolverLemmas.TryAllRestores`, `TryAllKeeps`, `TryAllFills` and `TryAllFirstSuccess`. |
| Solver.Solve | src/SudokuSolver.java:99-127 | The code returned and the board left are those of `Search` on the entry board. |
| SolverLemmas.SearchRestores | src/SudokuSolver.java:100-126 | The code is -1, 0 or 1. It is -1 exactly when the leading loop meets a conflict. On 0 or -1 the board equals the entry board. |
| SolverLemmas.TryAllRestores | src/SudokuSolver.java:117-126 | The candidate loop returns 0 or 1. On 0 the board equals its entry state. |
| SolverLemmas.SearchKeeps | src/SudokuSolver.java:100-121 | `solve` never changes a cell that was filled on entry, nor any cell before its starting cursor. |
| SolverLemmas.TryAllKeeps | src/SudokuSolver.java:117-125 | The candidate loop writes neither given cells nor cells before its own. |
| SolverLemmas.SearchFills | src/SudokuSolver.java:107-124 | On code 1, every cell from the start cursor on is filled, and every cell `solve` filled avoids all its peers. |
| SolverLemmas.TryAllFills | src/SudokuSolver.java:116-124 | On 1, the candidate loop has filled its cell and every later cell. Each filled cell avoids its peers. |
| SolverLemmas.AssignedCellAvoidsPeers | src/SudokuSolver.java:118-119 | Suppose the digit written into an empty cell is held by no peer, and the deeper search keeps the givens and every cell it filled avoids its peers. Then the filled cells, that one included, avoid their peers. |
| SolverLemmas.ScanConflictIff | src/SudokuSolver.java:100-103 | The leading loop reports a conflict exactly when some filled cell it scans has a peer holding the same digit. |
| SolverLemmas.SearchConflictIff | src/SudokuSolver.java:100-103 | `solve` returns -1 exactly when a filled cell before the first empty cell clashes with a peer. The board is then untouched. |
| SolverLemmas.ConsistentGivensNoConflict | src/SudokuSolver.java:100-103 | With conflict-free givens, `solve` never returns -1. |
| SolverLemmas.FilledBoardIsValid | src/SudokuSolver.java:107-108 | Conflict-free givens that are kept, a fully filled board, and filled cells that avoid their peers together make a complete valid grid. |
| SolverLemmas.SolvedBoardIsValid | src/SudokuSolver.java:107-124 | With conflict-free givens, code 1 from `solve(board, 0, 0)` leaves a complete valid grid that keeps every given. |
| SolverLemmas.ExtendableIsConsistent | src/SudokuSolver.java:100-103 | Givens that some solved grid extends are conflict-free. |
| SolverLemmas.SearchComplete | src/SudokuSolver.java:99-127 | If some solved grid keeps the givens, `solve` returns 1 from any cursor. |
| SolverLemmas.TryAllComplete | src/SudokuSolver.java:117-125 | If the solved grid's digit for the cell is among the candidates, the candidate loop returns 1. |
| SolverLemmas.FailsBeforeShift | src/SudokuSolver.java:117-121 | A 0 from the first candidate extends a run of 0s over the rest by one. |
| SolverLemmas.TryAllFirstSuccess | src/SudokuSolver.java:117-126 | The loop returns the outcome of the first candidate whose deeper search is not 0; every earlier one returned 0. If all return 0, it returns 0. |
| SolverLemmas.TryAllPicksLeast | src/SudokuSolver.java:117-124 | On success over an ascending list, the cell holds the least candidate whose deeper search succeeds. |
| SolverLemmas.SearchTriesAscending | src/SudokuSolver.java:116-124 | On code 1, the digit in the first empty cell is the smallest of its candidates whose deeper search succeeds. Every smaller candidate was tried and returned 0. |
| SolverV1.CandidatesV1 | src/Solver/SudokuSolver.java:151-174 | Every entry is a digit in 1..9. |
| SolverV1.GetPossibilities | src/Solver/SudokuSolver.java:151-174 | It does not write the board (no `modifies`) and returns `CandidatesV1` of the examined cell. |
| SolverV1.CandidatesV1Members | src/Solver/SudokuSolver.java:152-168 | d is offered exactly when it is in 1..9 and absent from the cell's row, column and box (its own digit included), or when d is the nonzero digit of the mirrored cell. The part before the append is strictly ascending. |
| SolverV1.CandidatesV1OwnDigit | src/Solver/SudokuSolver.java:151-168 | A filled cell's own digit is offered exactly when the mirrored cell holds the same digit. |
| SolverV1.ScanV1 | src/Solver/SudokuSolver.java:100-106 | When the leading loop stops without a conflict, it stops at the first empty cell or past the last. |
| SolverV1.ScanFilled | src/Solver/SudokuSolver.java:100-106 | The leading loop only reads the board and returns what `ScanV1` describes. |
| SolverV1.SearchV1 | src/Solver/SudokuSolver.java:99-126 | The earlier `solve` as a function of the entry board: the boolean and the board it leaves. The contract states only that the board left is 9x9 with values in 0..9. `SolverV1.Solve` ties the method to it, and `SolverV1Lemmas` proves what it returns. |
| SolverV1.TryAllV1 | src/Solver/SudokuSolver.java:117-125 | The earlier candidate loop as a function: reset on false, return on true. The contract states only that the board left is 9x9 with values in 0..9. Its promises are `SolverV1Lemmas.TryAllV1Restores`, `TryAllV1Keeps`, `TryAllV1Fills` and `TryAllV1FirstSuccess`. |
| SolverV1.Solve | src/Solver/SudokuSolver.java:99-126 | The boolean returned and the board left are those of `SearchV1` on the entry board. |
| SolverV1Lemmas.SearchV1Restores | src/Solver/SudokuSolver.java:100-125 | When `solve` returns false, the board equals the entry board. |
| SolverV1Lemmas.TryAllV1Restores | src/Solver/SudokuSolver.java:117-125 | A candidate loop that returns false has reset its cell to 0. |
| SolverV1Lemmas.SearchV1Keeps | src/Solver/SudokuSolver.java:100-120 | `solve` never changes a cell that was filled on entry, nor any cell before its start cursor. |
| SolverV1Lemmas.TryAllV1Keeps | src/Solver/SudokuSolver.java:117-124 | The candidate loop writes neither given cells nor cells before its own. |
| SolverV1Lemmas.SearchV1Fills | src/Solver/SudokuSolver.java:107-118 | When `solve` returns true, every cell from its start cursor on is filled. |
| SolverV1Lemmas.TryAllV1Fills | src/Solver/SudokuSolver.java:117-124 | A candidate loop that returns true has filled its cell and every later cell. |
| SolverV1Lemmas.ScanV1ConflictIff | src/Solver/SudokuSolver.java:100-168 | The earlier leading loop rejects exactly when a scanned filled cell differs from its mirrored cell. Its peers play no part. |
| SolverV1Lemmas.FailsBeforeV1Shift | src/Solver/SudokuSolver.java:117-120 | A false from the first candidate extends a run of failures over the rest by one. |
| SolverV1Lemmas.TryAllV1FirstSuccess | src/Solver/SudokuSolver.java:117-125 | Candidates are tried in list order. The loop stops at the first deeper success and returns its outcome, or returns false when all fail. |
| Scenarios.LatinIsSolved | src/SudokuSolver.java:107-108 | A concrete complete grid satisfies the validity predicate, so that predicate can be met. |
| Scenarios.EmptyBoardSolved | src/SudokuSolver.java:99-127 | On the empty board, `solve(board, 0, 0)` returns 1 and leaves a complete valid grid. |
| Scenarios.V1RejectsSolvablePuzzle | src/Solver/SudokuSolver.java:99-168 | Take two consistent givens, one of them (4 at `board[1][0]`) off the diagonal with an empty mirrored cell. The final revision solves the board, and the earlier revision returns false. |
| Scenarios.V1OffersClashingDigit | src/Solver/SudokuSolver.java:167-168 | The earlier revision offers an empty cell a digit that a peer already holds. The final revision does not. |
| Scenarios.V1RepeatsDigit | src/Solver/SudokuSolver.java:152-168 | The earlier revision's candidate list can hold a digit twice. |

## Left out

- JavaFX `start`, the button handlers and `main` (lines 20-90 of both files): window set-up, text fields and alerts. This includes parsing the text fields with `Integer.parseInt`, blank-to-"0" conversion, and the handler treating only code -1 as failure. The board is taken as already holding integers.
- `show` (src/SudokuSolver.java:228-235, src/Solver/SudokuSolver.java:136-143): it only prints to standard output.
- The `Result` message strings (src/SudokuSolver.java:102, 108, 126, 204-218): only the integer code is kept.
- The string form of the candidate list (`replace`, `concat`, `Arrays.toString(...).contains`, the `parseInt` conversion loop): modelled as a sequence of the same digits in the same order. For the single digits involved, string membership is sequence membership.
- The returned `int[]` of `getPossibilities`: modelled as a `seq<int>`.
- The board as an array of row arrays: modelled as `array2<int>`, so rows cannot alias one another. The 9x9 shape and values in 0..9 are preconditions; a board typed into the GUI with other numbers is not modelled.
- Solver.ScanFilled, Solver.NextEmpty, Solver.Assign, SolverV1.ScanFilled and DigitList.RemoveUnitValues are statements of `solve` and `getPossibilities` written as helper methods, so that each proof stays small. The behaviour is the same. `Solver.Assign` is the single statement `board[x][y] = v`.
- The bound of 81 on recursion depth is the termination measure `81 - (9*y + x)` of `Solve`. It is not stated as a separate depth lemma.
- The earlier revision's search has no lemma that filled cells avoid their peers. Its `getPossibilities` can offer a digit that a peer holds (`Scenarios.V1OffersClashingDigit`). No scenario is given in which the earlier `solve` returns true on a board with a clash.
- Out-of-range cursors and column indices: `GetColumn` requires `0 <= x < 9`, both `GetPossibilities` require a cell on the board, and both `Solve` require `0 <= x < 9` and `0 <= y <= 9`. On other values Java throws ArrayIndexOutOfBoundsException. One exception is `solve(board, x, 9)`, which returns at once for any `x`. The only external call is `solve(grid, 0, 0)`, and every internal call stays in these ranges.

## Findings

| source | as written | input that shows it | evidently intended | confidence | as-written member | corrected member |
|---|---|---|---|---|---|---|
| src/SudokuSolver.java:179 (and src/Solver/SudokuSolver.java:187) | The guard of `getQuadrant` compares with `>`, so box index 3 (trueX or trueY = 9) passes it and the loop reads row or column 9. The triple is also computed in 32-bit `int`, so a huge box index can wrap into 0..9. | `getQuadrant(3, 0, board)` reads `board[0][9]` and throws ArrayIndexOutOfBoundsException instead of returning nine zeros. | `>=` on a triple that does not overflow: any box index outside 0..2 yields nine zeros. `solve` only passes 0..2, so the search is unaffected. | not executed | Board.QuadrantAsWrittenFaults | Board.GetQuadrant |
| src/Solver/SudokuSolver.java:167-168 | The digit appended to the candidates is `board[x][y]`, taken with the parameters transposed. The cell examined is `board[y][x]`. | Board with 7 at `board[1][0]` only. For the empty cell `board[0][1]`, 7 is offered although its peer `board[1][0]` holds it. | Append the examined cell's own digit, provided no peer holds it, as the final revision does. | not executed | Scenarios.V1OffersClashingDigit | Solver.CandidatesMembers |
| src/Solver/SudokuSolver.java:101 with 167-168 | The leading loop accepts a filled cell only when its mirrored cell holds the same digit. | Empty board with 1 at `board[0][0]` and 4 at `board[1][0]`: the givens are consistent, but `solve(board, 0, 0)` returns false. | Reject only a given that a peer repeats. The final revision does this and then solves every board some solved grid extends. | not executed | Scenarios.V1RejectsSolvablePuzzle | SolverLemmas.SearchComplete |
