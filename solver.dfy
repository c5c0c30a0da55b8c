/** The final revision of the solver (src/SudokuSolver.java): getPossibilities,
    which zeroes the examined cell for the duration of the call, and the
    recursive solve, which returns 1 (solved), 0 (backtrack, no solution from
    here) or -1 (a conflict met by its leading loop). The Result message
    string is left out; only the code is kept.

    Each imperative routine is proved against a specification function:
    GetPossibilities against Candidates, Solve against Search (with TryAll
    for its candidate loop). The properties of the solver are lemmas about
    those functions. */
module Solver {
  import opened DigitList
  import opened Board

  // ---------------------------------------------------------------------
  // getPossibilities

  /** The candidates of cell (r, c): starting from "123456789" for an empty
      cell, or from its own digit for a filled one, drop every value of the
      cell's column, row and box, read with the cell itself set to 0. */
  function Candidates(g: Grid, r: int, c: int): (cands: seq<int>)
    requires IsBoard(g) && 0 <= r < 9 && 0 <= c < 9
    ensures AllDigits(cands)
  {
    var current := g[r][c];
    var cands := KeepAbsent(if current != 0 then [current] else Digits(), Units(Set(g, r, c, 0), r, c));
    assert forall i :: 0 <= i < |cands| ==> cands[i] in cands;
    cands
  }

  /** A digit is a candidate of (r, c) exactly when it is in 1..9, no peer
      holds it, and the cell is empty or already holds that digit. */
  lemma CandidatesMembers(g: Grid, r: int, c: int, d: int)
    requires IsBoard(g) && 0 <= r < 9 && 0 <= c < 9
    ensures d in Candidates(g, r, c) <==>
      1 <= d <= 9 && !PeerHolds(g, r, c, d) && (g[r][c] == 0 || g[r][c] == d)
  {
    if d != 0 {
      ZeroedUnitsMembers(g, r, c, d);
    }
  }

  /** Empty cell: the candidates are exactly the digits 1..9 that no cell of
      its row, column or box holds, in ascending order without repetition. */
  lemma CandidatesOfEmptyCell(g: Grid, r: int, c: int)
    requires IsBoard(g) && 0 <= r < 9 && 0 <= c < 9 && g[r][c] == 0
    ensures forall d :: d in Candidates(g, r, c) <==> 1 <= d <= 9 && !PeerHolds(g, r, c, d)
    ensures StrictlyAscending(Candidates(g, r, c))
  {
    forall d ensures d in Candidates(g, r, c) <==> 1 <= d <= 9 && !PeerHolds(g, r, c, d) {
      CandidatesMembers(g, r, c, d);
    }
    KeepAbsentAscending(Digits(), Units(Set(g, r, c, 0), r, c));
  }

  /** Filled cell holding d: the candidates are [d] when no peer holds d and
      [] when one does. */
  lemma CandidatesOfFilledCell(g: Grid, r: int, c: int)
    requires IsBoard(g) && 0 <= r < 9 && 0 <= c < 9 && g[r][c] != 0
    ensures Candidates(g, r, c) == if PeerHolds(g, r, c, g[r][c]) then [] else [g[r][c]]
  {
    var d := g[r][c];
    var units := Units(Set(g, r, c, 0), r, c);
    ZeroedUnitsMembers(g, r, c, d);
    assert [d][1..] == [];
    assert Candidates(g, r, c) == (if d in units then [] else [d]) + KeepAbsent([], units);
  }

  /** getPossibilities(y, x, board) of the final revision; it examines
      board[y][x]. The cell is set to 0 while its units are read and is
      restored before returning, so the board ends as it began. */
  method GetPossibilities(board: array2<int>, y: int, x: int) returns (possibilities: seq<int>)
    requires board.Length0 == 9 && board.Length1 == 9 && IsBoard(Snapshot(board))
    requires 0 <= y < 9 && 0 <= x < 9
    modifies board
    ensures Snapshot(board) == old(Snapshot(board))
    ensures possibilities == Candidates(old(Snapshot(board)), y, x)
  {
    ghost var g := Snapshot(board);
    possibilities := Digits();
    var current := board[y, x];
    if current != 0 {
      possibilities := [current];
      board[y, x] := 0;
    }
    ghost var start := possibilities;
    ghost var g0 := Set(g, y, x, 0);
    SnapshotIs(board, g0);
    var column := GetColumn(board, x);
    var quadrant := GetQuadrant(board, x / 3, y / 3);
    assert column[..] == Column(g0, x) && quadrant[..] == Box(g0, x / 3, y / 3);
    // the cell's row is read from the board itself, so it sees the zeroed cell
    var row := seq(9, j requires 0 <= j < 9 reads board => board[y, j]);
    assert row == g0[y];
    possibilities := RemoveUnitValues(possibilities, column[..], row, quadrant[..]);
    board[y, x] := current;
    SnapshotIs(board, g);
  }

  // ---------------------------------------------------------------------
  // solve, as specification functions

  /** How solve's leading loop ends: at a conflict, or with the cursor on an
      empty cell or past the last cell. */
  datatype ScanResult = Conflict | Stop(x: int, y: int)

  /** The leading loop of solve: while the cursor's cell is filled, check
      that its own digit is among its candidates, then step the cursor. */
  function Scan(g: Grid, x: int, y: int): (s: ScanResult)
    requires IsBoard(g) && 0 <= x < 9 && 0 <= y <= 9
    ensures s.Stop? ==> (s.x, s.y) == SkipFilled(g, x, y)
    decreases 81 - Pos(x, y)
  {
    if y == 9 || g[x][y] == 0 then Stop(x, y)
    else if g[x][y] !in Candidates(g, x, y) then Conflict
    else
      var next := Next(x, y);
      Scan(g, next.0, next.1)
  }

  /** What solve returns: the code and the board it leaves. */
  datatype Outcome = Outcome(code: int, grid: Grid)

  /** solve(board, x, y). */
  function Search(g: Grid, x: int, y: int): (o: Outcome)
    requires IsBoard(g) && 0 <= x < 9 && 0 <= y <= 9
    ensures IsBoard(o.grid)
    decreases 81 - Pos(x, y), 1, 0
  {
    match Scan(g, x, y)
    case Conflict => Outcome(-1, g)
    case Stop(sx, sy) =>
      if sy == 9 then Outcome(1, g)
      else
        var after := Next(sx, sy);
        var next := SkipFilled(g, after.0, after.1);
        TryAll(g, sx, sy, next.0, next.1, Candidates(g, sx, sy))
  }

  /** The candidate loop of solve at cell (x, y), whose successor empty cell
      is (nx, ny): assign each candidate in turn and search on; reset the
      cell to 0 after a 0 result, return any other result at once. */
  function TryAll(g: Grid, x: int, y: int, nx: int, ny: int, cands: seq<int>): (o: Outcome)
    requires IsBoard(g) && 0 <= x < 9 && 0 <= y < 9 && 0 <= nx < 9 && 0 <= ny <= 9
    requires Pos(x, y) < Pos(nx, ny)
    requires AllDigits(cands)
    ensures IsBoard(o.grid)
    decreases 81 - Pos(x, y), 0, |cands|
  {
    if cands == [] then Outcome(0, g)
    else
      var o := Search(Set(g, x, y, cands[0]), nx, ny);
      if o.code == 0 then TryAll(Set(o.grid, x, y, 0), x, y, nx, ny, cands[1..])
      else o
  }

  /** One round of the candidate loop. */
  lemma TryAllStep(g: Grid, x: int, y: int, nx: int, ny: int, cands: seq<int>)
    requires IsBoard(g) && 0 <= x < 9 && 0 <= y < 9 && 0 <= nx < 9 && 0 <= ny <= 9
    requires Pos(x, y) < Pos(nx, ny)
    requires cands != [] && AllDigits(cands)
    ensures 1 <= cands[0] <= 9 && AllDigits(cands[1..])
    ensures TryAll(g, x, y, nx, ny, cands) ==
      var o := Search(Set(g, x, y, cands[0]), nx, ny);
      if o.code == 0 then TryAll(Set(o.grid, x, y, 0), x, y, nx, ny, cands[1..]) else o
  {
  }

  // ---------------------------------------------------------------------
  // solve, as the imperative method

  /** The second loop of solve: from the cell after (x, y), move the cursor
      over filled cells to the next empty one (or past the last cell). */
  method NextEmpty(board: array2<int>, x: int, y: int) returns (newx: int, newy: int)
    requires board.Length0 == 9 && board.Length1 == 9 && IsBoard(Snapshot(board))
    requires 0 <= x < 9 && 0 <= y < 9
    ensures Pos(x, y) < Pos(newx, newy) && 0 <= newx < 9 && 0 <= newy <= 9
    ensures newy == 9 || board[newx, newy] == 0
    ensures (newx, newy) == SkipFilled(Snapshot(board), Next(x, y).0, Next(x, y).1)
  {
    ghost var g := Snapshot(board);
    newx := (x + 1) % 9;
    newy := if newx == 0 then y + 1 else y;
    while newy != 9 && board[newx, newy] != 0
      invariant 0 <= newx < 9 && 0 <= newy <= 9
      invariant SkipFilled(g, newx, newy) == SkipFilled(g, Next(x, y).0, Next(x, y).1)
      decreases 81 - Pos(newx, newy)
    {
      assert SkipFilled(g, newx, newy) == SkipFilled(g, Next(newx, newy).0, Next(newx, newy).1);
      newx := (newx + 1) % 9;
      newy := if newx == 0 then newy + 1 else newy;
    }
  }

  /** The statement `board[x][y] = v`. */
  method Assign(board: array2<int>, x: int, y: int, v: int)
    requires board.Length0 == 9 && board.Length1 == 9 && IsBoard(Snapshot(board))
    requires 0 <= x < 9 && 0 <= y < 9 && 0 <= v <= 9
    modifies board
    ensures Snapshot(board) == Set(old(Snapshot(board)), x, y, v)
  {
    ghost var g := Snapshot(board);
    board[x, y] := v;
    SnapshotIs(board, Set(g, x, y, v));
  }

  /** The leading loop of solve: while the cursor's cell is filled, return
      Conflict when its digit is not among its candidates, else step on.
      getPossibilities writes the board but restores it, so the board ends
      as it began. */
  method ScanFilled(board: array2<int>, x0: int, y0: int) returns (s: ScanResult)
    requires board.Length0 == 9 && board.Length1 == 9 && IsBoard(Snapshot(board))
    requires 0 <= x0 < 9 && 0 <= y0 <= 9
    modifies board
    ensures Snapshot(board) == old(Snapshot(board))
    ensures s == Scan(old(Snapshot(board)), x0, y0)
    ensures s.Stop? ==> 0 <= s.x < 9 && 0 <= s.y <= 9 && (s.y == 9 || board[s.x, s.y] == 0)
  {
    ghost var g := Snapshot(board);
    var x, y := x0, y0;
    while y != 9 && board[x, y] != 0
      invariant 0 <= x < 9 && 0 <= y <= 9
      invariant Snapshot(board) == g
      invariant Scan(g, x, y) == Scan(g, x0, y0)
      decreases 81 - Pos(x, y)
    {
      var possible := GetPossibilities(board, x, y);
      if board[x, y] !in possible {
        return Conflict;
      }
      x := (x + 1) % 9;
      y := if x == 0 then y + 1 else y;
    }
    return Stop(x, y);
  }

  /** solve(board, x, y) of the final revision, proved to return the code and
      leave the board that Search describes. The recursion is bounded by the
      cursor, which strictly advances. */
  method Solve(board: array2<int>, x0: int, y0: int) returns (code: int)
    requires board.Length0 == 9 && board.Length1 == 9 && IsBoard(Snapshot(board))
    requires 0 <= x0 < 9 && 0 <= y0 <= 9
    modifies board
    ensures code == Search(old(Snapshot(board)), x0, y0).code
    ensures Snapshot(board) == Search(old(Snapshot(board)), x0, y0).grid
    decreases 81 - Pos(x0, y0)
  {
    ghost var g := Snapshot(board);
    var stop := ScanFilled(board, x0, y0);
    if stop.Conflict? {
      return -1;
    }
    var x, y := stop.x, stop.y;
    if y == 9 {
      return 1;
    }
    var newx, newy := NextEmpty(board, x, y);
    var possible := GetPossibilities(board, x, y);
    for k := 0 to |possible|
      invariant IsBoard(Snapshot(board))
      invariant AllDigits(possible[k..])
      invariant TryAll(Snapshot(board), x, y, newx, newy, possible[k..]) == Search(g, x0, y0)
    {
      ghost var before := Snapshot(board);
      TryAllStep(before, x, y, newx, newy, possible[k..]);
      assert possible[k..][1..] == possible[k + 1..];
      Assign(board, x, y, possible[k]);
      var returnCode := Solve(board, newx, newy);
      if returnCode == 0 {
        Assign(board, x, y, 0);
      } else {
        return returnCode;
      }
    }
    return 0;
  }
}
