/** The earlier, boolean revision of the solver (src/Solver/SudokuSolver.java).
    It differs from the final revision in two places:
    - getPossibilities never writes the board, so a filled cell's own digit
      is removed together with its row;
    - it then appends board[x][y] with the parameters transposed, that is
      the digit of the mirrored cell, whenever that digit is nonzero.
    solve returns true or false instead of a code. getColumn and getQuadrant
    are the same as in the final revision (module Board), and so are the
    cursor loop that finds the next empty cell (Solver.NextEmpty) and the
    single assignment board[x][y] = v (Solver.Assign). */
module SolverV1 {
  import opened DigitList
  import opened Board
  import Solver

  // ---------------------------------------------------------------------
  // getPossibilities

  /** The candidates getPossibilities(y, x, board) returns for the cell at
      row r = y and column c = x: the digits 1..9, in order, that occur
      nowhere in the cell's column, row and box (its own digit included),
      followed by board[c][r] when that is nonzero. */
  function CandidatesV1(g: Grid, r: int, c: int): (cands: seq<int>)
    requires IsBoard(g) && 0 <= r < 9 && 0 <= c < 9
    ensures AllDigits(cands)
  {
    var base := KeepAbsent(Digits(), Units(g, r, c));
    var cands := base + (if g[c][r] != 0 then [g[c][r]] else []);
    assert forall i :: 0 <= i < |base| ==> base[i] in base;
    cands
  }

  /** getPossibilities(y, x, board) of the earlier revision. It only reads
      the board. */
  method GetPossibilities(board: array2<int>, y: int, x: int) returns (possibilities: seq<int>)
    requires board.Length0 == 9 && board.Length1 == 9 && IsBoard(Snapshot(board))
    requires 0 <= y < 9 && 0 <= x < 9
    ensures possibilities == CandidatesV1(Snapshot(board), y, x)
  {
    ghost var g := Snapshot(board);
    // the cell's row, read from the board
    var row := seq(9, j requires 0 <= j < 9 reads board => board[y, j]);
    var column := GetColumn(board, x);
    var quadrant := GetQuadrant(board, x / 3, y / 3);
    assert row == g[y] && column[..] == Column(g, x) && quadrant[..] == Box(g, x / 3, y / 3);
    possibilities := RemoveUnitValues(Digits(), column[..], row, quadrant[..]);
    if board[x, y] != 0 {
      possibilities := possibilities + [board[x, y]];
    }
  }

  /** A digit is offered exactly when it is absent from the cell's column,
      row and box, or it is the nonzero digit of the mirrored cell; the
      part before the appended digit is ascending without repetition. */
  lemma CandidatesV1Members(g: Grid, r: int, c: int, d: int)
    requires IsBoard(g) && 0 <= r < 9 && 0 <= c < 9
    ensures d in CandidatesV1(g, r, c) <==>
      (1 <= d <= 9 && !UnitHolds(g, r, c, d)) || (d != 0 && d == g[c][r])
    ensures StrictlyAscending(KeepAbsent(Digits(), Units(g, r, c)))
  {
    UnitsMembers(g, r, c, d);
    KeepAbsentAscending(Digits(), Units(g, r, c));
  }

  /** For a filled cell, its own digit is offered exactly when the mirrored
      cell holds the same digit, whatever its peers hold. */
  lemma CandidatesV1OwnDigit(g: Grid, r: int, c: int)
    requires IsBoard(g) && 0 <= r < 9 && 0 <= c < 9 && g[r][c] != 0
    ensures g[r][c] in CandidatesV1(g, r, c) <==> g[c][r] == g[r][c]
  {
    CandidatesV1Members(g, r, c, g[r][c]);
    assert SameUnit(r, c, r, c);
  }

  // ---------------------------------------------------------------------
  // solve, as specification functions

  /** The leading loop of solve with the earlier getPossibilities. */
  function ScanV1(g: Grid, x: int, y: int): (s: Solver.ScanResult)
    requires IsBoard(g) && 0 <= x < 9 && 0 <= y <= 9
    ensures s.Stop? ==> (s.x, s.y) == SkipFilled(g, x, y)
    decreases 81 - Pos(x, y)
  {
    if y == 9 || g[x][y] == 0 then Solver.Stop(x, y)
    else if g[x][y] !in CandidatesV1(g, x, y) then Solver.Conflict
    else
      var next := Next(x, y);
      ScanV1(g, next.0, next.1)
  }

  /** What the boolean solve returns, and the board it leaves. */
  datatype OutcomeV1 = OutcomeV1(solved: bool, grid: Grid)

  /** The leading loop of solve: while the cursor's cell is filled, return
      Conflict when its digit is not among its candidates, else step on. It
      only reads the board. */
  method ScanFilled(board: array2<int>, x0: int, y0: int) returns (s: Solver.ScanResult)
    requires board.Length0 == 9 && board.Length1 == 9 && IsBoard(Snapshot(board))
    requires 0 <= x0 < 9 && 0 <= y0 <= 9
    ensures s == ScanV1(Snapshot(board), x0, y0)
    ensures s.Stop? ==> 0 <= s.x < 9 && 0 <= s.y <= 9 && (s.y == 9 || board[s.x, s.y] == 0)
  {
    ghost var g := Snapshot(board);
    var x, y := x0, y0;
    while y != 9 && board[x, y] != 0
      invariant 0 <= x < 9 && 0 <= y <= 9
      invariant ScanV1(g, x, y) == ScanV1(g, x0, y0)
      decreases 81 - Pos(x, y)
    {
      var possible := GetPossibilities(board, x, y);
      if board[x, y] !in possible {
        return Solver.Conflict;
      }
      x := (x + 1) % 9;
      y := if x == 0 then y + 1 else y;
    }
    return Solver.Stop(x, y);
  }

  /** solve(board, x, y) of the earlier revision. */
  function SearchV1(g: Grid, x: int, y: int): (o: OutcomeV1)
    requires IsBoard(g) && 0 <= x < 9 && 0 <= y <= 9
    ensures IsBoard(o.grid)
    decreases 81 - Pos(x, y), 1, 0
  {
    match ScanV1(g, x, y)
    case Conflict => OutcomeV1(false, g)
    case Stop(sx, sy) =>
      if sy == 9 then OutcomeV1(true, g)
      else
        var after := Next(sx, sy);
        var next := SkipFilled(g, after.0, after.1);
        TryAllV1(g, sx, sy, next.0, next.1, CandidatesV1(g, sx, sy))
  }

  /** The candidate loop of the earlier solve: on false reset the cell to 0
      and go on, on true return at once. */
  function TryAllV1(g: Grid, x: int, y: int, nx: int, ny: int, cands: seq<int>): (o: OutcomeV1)
    requires IsBoard(g) && 0 <= x < 9 && 0 <= y < 9 && 0 <= nx < 9 && 0 <= ny <= 9
    requires Pos(x, y) < Pos(nx, ny)
    requires AllDigits(cands)
    ensures IsBoard(o.grid)
    decreases 81 - Pos(x, y), 0, |cands|
  {
    if cands == [] then OutcomeV1(false, g)
    else
      var o := SearchV1(Set(g, x, y, cands[0]), nx, ny);
      if !o.solved then TryAllV1(Set(o.grid, x, y, 0), x, y, nx, ny, cands[1..])
      else o
  }

  /** One round of the candidate loop. */
  lemma TryAllV1Step(g: Grid, x: int, y: int, nx: int, ny: int, cands: seq<int>)
    requires IsBoard(g) && 0 <= x < 9 && 0 <= y < 9 && 0 <= nx < 9 && 0 <= ny <= 9
    requires Pos(x, y) < Pos(nx, ny)
    requires cands != [] && AllDigits(cands)
    ensures 1 <= cands[0] <= 9 && AllDigits(cands[1..])
    ensures TryAllV1(g, x, y, nx, ny, cands) ==
      var o := SearchV1(Set(g, x, y, cands[0]), nx, ny);
      if !o.solved then TryAllV1(Set(o.grid, x, y, 0), x, y, nx, ny, cands[1..]) else o
  {
  }

  // ---------------------------------------------------------------------
  // solve, as the imperative method

  /** solve(board, x, y) of the earlier revision, proved to return the
      result and leave the board that SearchV1 describes. */
  method Solve(board: array2<int>, x0: int, y0: int) returns (solved: bool)
    requires board.Length0 == 9 && board.Length1 == 9 && IsBoard(Snapshot(board))
    requires 0 <= x0 < 9 && 0 <= y0 <= 9
    modifies board
    ensures solved == SearchV1(old(Snapshot(board)), x0, y0).solved
    ensures Snapshot(board) == SearchV1(old(Snapshot(board)), x0, y0).grid
    decreases 81 - Pos(x0, y0)
  {
    ghost var g := Snapshot(board);
    var stop := ScanFilled(board, x0, y0);
    if stop.Conflict? {
      return false;
    }
    var x, y := stop.x, stop.y;
    if y == 9 {
      return true;
    }
    var newx, newy := Solver.NextEmpty(board, x, y);
    var possible := GetPossibilities(board, x, y);
    for k := 0 to |possible|
      invariant IsBoard(Snapshot(board))
      invariant AllDigits(possible[k..])
      invariant TryAllV1(Snapshot(board), x, y, newx, newy, possible[k..]) == SearchV1(g, x0, y0)
    {
      ghost var before := Snapshot(board);
      TryAllV1Step(before, x, y, newx, newy, possible[k..]);
      assert possible[k..][1..] == possible[k + 1..];
      Solver.Assign(board, x, y, possible[k]);
      var deeper := Solve(board, newx, newy);
      if !deeper {
        Solver.Assign(board, x, y, 0);
      } else {
        return true;
      }
    }
    return false;
  }
}
