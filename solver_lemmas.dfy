/** What solve of the final revision (src/SudokuSolver.java) guarantees,
    stated and proved about its specification Search / TryAll. */
module SolverLemmas {
  import opened DigitList
  import opened Board
  import opened Solver

  /** The state in which solve enters its candidate loop at cell (x, y): the
      cell is empty, (nx, ny) is the next empty cell or past the last cell,
      every cell strictly between them is filled, and every candidate is a
      digit that no peer of (x, y) holds. */
  predicate LoopEntry(g: Grid, x: int, y: int, nx: int, ny: int, cands: seq<int>)
  {
    NextEmptyAfter(g, x, y, nx, ny) && AllDigits(cands) &&
    forall k :: 0 <= k < |cands| ==> !PeerHolds(g, x, y, cands[k])
  }

  /** Writing a digit into an empty cell and then 0 again gives the board back. */
  lemma SetThenClear(g: Grid, x: int, y: int, v: int)
    requires IsBoard(g) && 0 <= x < 9 && 0 <= y < 9 && 0 <= v <= 9 && g[x][y] == 0
    ensures Set(Set(g, x, y, v), x, y, 0) == g
  {
    GridExt(Set(Set(g, x, y, v), x, y, 0), g);
  }

  /** When Search does not stop at a conflict or at the end, it runs the
      candidate loop of the cell it stopped at, from a proper loop entry. */
  lemma SearchEntersLoop(g: Grid, x: int, y: int)
    requires IsBoard(g) && 0 <= x < 9 && 0 <= y <= 9
    requires Scan(g, x, y).Stop? && Scan(g, x, y).y != 9
    ensures var s := Scan(g, x, y);
      var after := Next(s.x, s.y);
      var next := SkipFilled(g, after.0, after.1);
      LoopEntry(g, s.x, s.y, next.0, next.1, Candidates(g, s.x, s.y)) &&
      Search(g, x, y) == TryAll(g, s.x, s.y, next.0, next.1, Candidates(g, s.x, s.y))
  {
    var s := Scan(g, x, y);
    var cands := Candidates(g, s.x, s.y);
    forall k | 0 <= k < |cands| ensures !PeerHolds(g, s.x, s.y, cands[k]) {
      CandidatesMembers(g, s.x, s.y, cands[k]);
    }
  }

  /** The deeper call of the candidate loop starts on an empty cell (or past
      the end), so its leading loop stops at once and cannot report a conflict. */
  lemma InnerScanStops(g: Grid, x: int, y: int, nx: int, ny: int, cands: seq<int>, v: int)
    requires LoopEntry(g, x, y, nx, ny, cands) && 1 <= v <= 9
    ensures Scan(Set(g, x, y, v), nx, ny) == Stop(nx, ny)
  {
    PosInjective();
  }

  // ---------------------------------------------------------------------
  // Result codes, and the board after a failed search

  /** Search returns -1, 0 or 1; -1 exactly when its leading loop meets a
      conflict; and on any result other than 1 the board is as it was. */
  lemma {:induction false} SearchRestores(g: Grid, x: int, y: int)
    requires IsBoard(g) && 0 <= x < 9 && 0 <= y <= 9
    ensures var o := Search(g, x, y);
      (o.code == -1 || o.code == 0 || o.code == 1) &&
      (o.code == -1 <==> Scan(g, x, y) == Conflict) &&
      (o.code != 1 ==> o.grid == g)
    decreases 81 - Pos(x, y), 1, 0
  {
    var s := Scan(g, x, y);
    if s.Stop? && s.y != 9 {
      SearchEntersLoop(g, x, y);
      var after := Next(s.x, s.y);
      var next := SkipFilled(g, after.0, after.1);
      TryAllRestores(g, s.x, s.y, next.0, next.1, Candidates(g, s.x, s.y));
    }
  }

  /** The candidate loop returns 0 or 1, and on 0 the board is as it was:
      each tried digit is reset to 0 after its deeper call fails. */
  lemma {:induction false} TryAllRestores(g: Grid, x: int, y: int, nx: int, ny: int, cands: seq<int>)
    requires LoopEntry(g, x, y, nx, ny, cands)
    ensures var o := TryAll(g, x, y, nx, ny, cands);
      (o.code == 0 || o.code == 1) && (o.code == 0 ==> o.grid == g)
    decreases 81 - Pos(x, y), 0, |cands|
  {
    if cands != [] {
      TryAllStep(g, x, y, nx, ny, cands);
      var h := Set(g, x, y, cands[0]);
      InnerScanStops(g, x, y, nx, ny, cands, cands[0]);
      SearchRestores(h, nx, ny);
      var o := Search(h, nx, ny);
      if o.code == 0 {
        SetThenClear(g, x, y, cands[0]);
        assert LoopEntry(g, x, y, nx, ny, cands[1..]);
        TryAllRestores(g, x, y, nx, ny, cands[1..]);
      }
    }
  }

  // ---------------------------------------------------------------------
  // Which cells a search may write

  /** Search never changes a cell that was filled on entry, nor any cell
      before its starting cursor. */
  lemma {:induction false} SearchKeeps(g: Grid, x: int, y: int)
    requires IsBoard(g) && 0 <= x < 9 && 0 <= y <= 9
    ensures KeepsGivens(g, Search(g, x, y).grid) && KeepsBefore(g, Search(g, x, y).grid, x, y)
    decreases 81 - Pos(x, y), 1, 0
  {
    var s := Scan(g, x, y);
    if s.Stop? && s.y != 9 {
      SearchEntersLoop(g, x, y);
      var after := Next(s.x, s.y);
      var next := SkipFilled(g, after.0, after.1);
      TryAllKeeps(g, s.x, s.y, next.0, next.1, Candidates(g, s.x, s.y));
    }
  }

  /** The candidate loop writes only its own cell and cells after it, and
      never a cell that was filled on entry. */
  lemma {:induction false} TryAllKeeps(g: Grid, x: int, y: int, nx: int, ny: int, cands: seq<int>)
    requires LoopEntry(g, x, y, nx, ny, cands)
    ensures KeepsGivens(g, TryAll(g, x, y, nx, ny, cands).grid)
    ensures KeepsBefore(g, TryAll(g, x, y, nx, ny, cands).grid, x, y)
    decreases 81 - Pos(x, y), 0, |cands|
  {
    if cands != [] {
      TryAllStep(g, x, y, nx, ny, cands);
      var h := Set(g, x, y, cands[0]);
      InnerScanStops(g, x, y, nx, ny, cands, cands[0]);
      SearchRestores(h, nx, ny);
      SearchKeeps(h, nx, ny);
      var o := Search(h, nx, ny);
      if o.code == 0 {
        SetThenClear(g, x, y, cands[0]);
        assert LoopEntry(g, x, y, nx, ny, cands[1..]);
        TryAllKeeps(g, x, y, nx, ny, cands[1..]);
      }
    }
  }

  // ---------------------------------------------------------------------
  // What a successful search leaves

  /** A digit written into an empty cell that no peer held, followed by a
      search that keeps the board's filled cells and fills cells only with
      digits their peers avoid, leaves every newly filled cell (the written
      one included) avoiding its peers. */
  lemma AssignedCellAvoidsPeers(g: Grid, k: Grid, x: int, y: int, c: int)
    requires IsBoard(g) && IsBoard(k) && 0 <= x < 9 && 0 <= y < 9 && 1 <= c <= 9
    requires g[x][y] == 0 && !PeerHolds(g, x, y, c)
    requires KeepsGivens(Set(g, x, y, c), k) && FilledAvoidPeers(Set(g, x, y, c), k)
    ensures FilledAvoidPeers(g, k)
  {
    var h := Set(g, x, y, c);
    assert k[x][y] == c;
    if PeerHolds(k, x, y, c) {
      var p, q :| 0 <= p < 9 && 0 <= q < 9 && Peer(x, y, p, q) && k[p][q] == c;
      if h[p][q] == 0 {
        assert Peer(p, q, x, y);
      }
    }
  }

  /** On success Search has filled every cell from its starting cursor on,
      and every cell it filled holds a digit none of its peers holds. */
  lemma {:induction false} SearchFills(g: Grid, x: int, y: int)
    requires IsBoard(g) && 0 <= x < 9 && 0 <= y <= 9
    ensures Search(g, x, y).code == 1 ==>
      FilledFrom(Search(g, x, y).grid, x, y) && FilledAvoidPeers(g, Search(g, x, y).grid)
    decreases 81 - Pos(x, y), 1, 0
  {
    var s := Scan(g, x, y);
    if s.Stop? {
      if s.y != 9 {
        SearchEntersLoop(g, x, y);
        var after := Next(s.x, s.y);
        var next := SkipFilled(g, after.0, after.1);
        TryAllFills(g, s.x, s.y, next.0, next.1, Candidates(g, s.x, s.y));
        TryAllKeeps(g, s.x, s.y, next.0, next.1, Candidates(g, s.x, s.y));
      }
    }
  }

  /** On success the candidate loop has filled its cell and every cell after
      it, and every cell it filled avoids its peers. */
  lemma {:induction false} TryAllFills(g: Grid, x: int, y: int, nx: int, ny: int, cands: seq<int>)
    requires LoopEntry(g, x, y, nx, ny, cands)
    ensures TryAll(g, x, y, nx, ny, cands).code == 1 ==>
      FilledFrom(TryAll(g, x, y, nx, ny, cands).grid, x, y) &&
      FilledAvoidPeers(g, TryAll(g, x, y, nx, ny, cands).grid)
    decreases 81 - Pos(x, y), 0, |cands|
  {
    if cands != [] {
      TryAllStep(g, x, y, nx, ny, cands);
      var c := cands[0];
      var h := Set(g, x, y, c);
      InnerScanStops(g, x, y, nx, ny, cands, c);
      SearchRestores(h, nx, ny);
      var o := Search(h, nx, ny);
      if o.code == 0 {
        SetThenClear(g, x, y, c);
        assert LoopEntry(g, x, y, nx, ny, cands[1..]);
        TryAllFills(g, x, y, nx, ny, cands[1..]);
      } else {
        SearchFills(h, nx, ny);
        SearchKeeps(h, nx, ny);
        assert !PeerHolds(g, x, y, c);
        AssignedCellAvoidsPeers(g, o.grid, x, y, c);
      }
    }
  }

  // ---------------------------------------------------------------------
  // The conflict code

  /** Some filled cell from cursor (x, y) up to, and not including, cursor
      (ex, ey) shares its digit with one of its peers. */
  predicate ClashIn(g: Grid, x: int, y: int, ex: int, ey: int)
    requires IsBoard(g)
  {
    exists i, j :: 0 <= i < 9 && 0 <= j < 9 && Pos(x, y) <= Pos(i, j) < Pos(ex, ey) &&
      g[i][j] != 0 && PeerHolds(g, i, j, g[i][j])
  }

  /** The leading loop reports a conflict exactly when one of the filled
      cells it walks over, before the first empty cell, has a peer holding
      its digit. Later cells are not examined. */
  lemma {:induction false} ScanConflictIff(g: Grid, x: int, y: int)
    requires IsBoard(g) && 0 <= x < 9 && 0 <= y <= 9
    ensures Scan(g, x, y) == Conflict <==> ClashIn(g, x, y, SkipFilled(g, x, y).0, SkipFilled(g, x, y).1)
    decreases 81 - Pos(x, y)
  {
    var e := SkipFilled(g, x, y);
    if y != 9 && g[x][y] != 0 {
      CandidatesOfFilledCell(g, x, y);
      var n := Next(x, y);
      assert e == SkipFilled(g, n.0, n.1);
      if PeerHolds(g, x, y, g[x][y]) {
        assert Pos(x, y) < Pos(e.0, e.1);
        assert ClashIn(g, x, y, e.0, e.1);
      } else {
        ScanConflictIff(g, n.0, n.1);
        PosInjective();
      }
    }
  }

  /** solve returns -1 exactly when a filled cell before the first empty cell
      at or after its cursor shares its digit with a peer. */
  lemma SearchConflictIff(g: Grid, x: int, y: int)
    requires IsBoard(g) && 0 <= x < 9 && 0 <= y <= 9
    ensures Search(g, x, y).code == -1 <==> ClashIn(g, x, y, SkipFilled(g, x, y).0, SkipFilled(g, x, y).1)
    ensures Search(g, x, y).code == -1 ==> Search(g, x, y).grid == g
  {
    SearchRestores(g, x, y);
    ScanConflictIff(g, x, y);
  }

  /** With conflict-free givens, solve never returns -1. */
  lemma ConsistentGivensNoConflict(g: Grid, x: int, y: int)
    requires IsBoard(g) && GivensConsistent(g) && 0 <= x < 9 && 0 <= y <= 9
    ensures Search(g, x, y).code != -1
  {
    SearchConflictIff(g, x, y);
  }

  // ---------------------------------------------------------------------
  // Soundness and completeness of the whole search

  /** One cell of the board a successful search from (0, 0) leaves. */
  lemma FinalCellValid(g: Grid, h: Grid, i: int, j: int)
    requires IsBoard(g) && IsBoard(h) && GivensConsistent(g) && 0 <= i < 9 && 0 <= j < 9
    requires KeepsGivens(g, h) && FilledFrom(h, 0, 0) && FilledAvoidPeers(g, h)
    ensures h[i][j] != 0 && !PeerHolds(h, i, j, h[i][j])
  {
    assert Pos(0, 0) <= Pos(i, j);
  }

  /** A board that keeps conflict-free givens, is filled everywhere, and whose
      every newly filled cell avoids its peers, is a complete valid grid. */
  lemma FilledBoardIsValid(g: Grid, h: Grid)
    requires IsBoard(g) && IsBoard(h) && GivensConsistent(g)
    requires KeepsGivens(g, h) && FilledFrom(h, 0, 0) && FilledAvoidPeers(g, h)
    ensures IsSolved(h)
  {
    forall i, j | 0 <= i < 9 && 0 <= j < 9 ensures h[i][j] != 0 && !PeerHolds(h, i, j, h[i][j]) {
      FinalCellValid(g, h, i, j);
    }
  }

  /** solve(board, 0, 0) with conflict-free givens that returns 1 leaves a
      complete, valid grid that keeps every given. */
  lemma SolvedBoardIsValid(g: Grid)
    requires IsBoard(g) && GivensConsistent(g) && Search(g, 0, 0).code == 1
    ensures IsSolved(Search(g, 0, 0).grid) && KeepsGivens(g, Search(g, 0, 0).grid)
  {
    SearchKeeps(g, 0, 0);
    SearchFills(g, 0, 0);
    FilledBoardIsValid(g, Search(g, 0, 0).grid);
  }

  /** A board whose givens some solved grid extends has no conflicting givens. */
  lemma ExtendableIsConsistent(g: Grid, s: Grid)
    requires IsBoard(g) && IsSolved(s) && KeepsGivens(g, s)
    ensures GivensConsistent(g)
    ensures forall i, j, d :: 0 <= i < 9 && 0 <= j < 9 && d != 0 && PeerHolds(g, i, j, d) ==> PeerHolds(s, i, j, d)
  {
    forall i, j, d | 0 <= i < 9 && 0 <= j < 9 && d != 0 && PeerHolds(g, i, j, d)
      ensures PeerHolds(s, i, j, d)
    {
      var p, q :| 0 <= p < 9 && 0 <= q < 9 && Peer(i, j, p, q) && g[p][q] == d;
      assert s[p][q] == d;
    }
  }

  /** If some solved grid keeps every given of the board, solve returns 1
      from any cursor: the backtracking search misses no solution. */
  lemma {:induction false} SearchComplete(g: Grid, x: int, y: int, s: Grid)
    requires IsBoard(g) && 0 <= x < 9 && 0 <= y <= 9
    requires IsSolved(s) && KeepsGivens(g, s)
    ensures Search(g, x, y).code == 1
    decreases 81 - Pos(x, y), 1, 0
  {
    ExtendableIsConsistent(g, s);
    SearchConflictIff(g, x, y);
    var sc := Scan(g, x, y);
    if sc.y != 9 {
      SearchEntersLoop(g, x, y);
      var after := Next(sc.x, sc.y);
      var next := SkipFilled(g, after.0, after.1);
      CandidatesMembers(g, sc.x, sc.y, s[sc.x][sc.y]);
      TryAllComplete(g, sc.x, sc.y, next.0, next.1, Candidates(g, sc.x, sc.y), s);
    }
  }

  /** The candidate loop succeeds when the digit a solved extension of the
      board puts in its cell is among its candidates. */
  lemma {:induction false} TryAllComplete(g: Grid, x: int, y: int, nx: int, ny: int, cands: seq<int>, s: Grid)
    requires LoopEntry(g, x, y, nx, ny, cands)
    requires IsSolved(s) && KeepsGivens(g, s) && s[x][y] in cands
    ensures TryAll(g, x, y, nx, ny, cands).code == 1
    decreases 81 - Pos(x, y), 0, |cands|
  {
    TryAllStep(g, x, y, nx, ny, cands);
    var c := cands[0];
    var h := Set(g, x, y, c);
    InnerScanStops(g, x, y, nx, ny, cands, c);
    SearchRestores(h, nx, ny);
    if c == s[x][y] {
      SearchComplete(h, nx, ny, s);
    } else if Search(h, nx, ny).code == 0 {
      SetThenClear(g, x, y, c);
      assert LoopEntry(g, x, y, nx, ny, cands[1..]);
      TryAllComplete(g, x, y, nx, ny, cands[1..], s);
    }
  }

  // ---------------------------------------------------------------------
  // Order of the candidates

  /** The deeper searches after the first n candidates all returned 0. */
  predicate FailsBefore(g: Grid, x: int, y: int, nx: int, ny: int, cands: seq<int>, n: int)
    requires LoopEntry(g, x, y, nx, ny, cands) && 0 <= n <= |cands|
  {
    forall j :: 0 <= j < n ==> Search(Set(g, x, y, cands[j]), nx, ny).code == 0
  }

  /** A 0 from the first candidate extends a run of 0s from the rest by one. */
  lemma FailsBeforeShift(g: Grid, x: int, y: int, nx: int, ny: int, cands: seq<int>, n: int)
    requires LoopEntry(g, x, y, nx, ny, cands) && cands != [] && 0 <= n < |cands|
    requires LoopEntry(g, x, y, nx, ny, cands[1..]) && FailsBefore(g, x, y, nx, ny, cands[1..], n)
    requires Search(Set(g, x, y, cands[0]), nx, ny).code == 0
    ensures FailsBefore(g, x, y, nx, ny, cands, n + 1)
  {
    forall j | 0 <= j < n + 1 ensures Search(Set(g, x, y, cands[j]), nx, ny).code == 0 {
      if j > 0 {
        assert cands[j] == cands[1..][j - 1];
      }
    }
  }

  /** The candidate loop returns the outcome of the first candidate whose
      deeper search does not return 0, every earlier candidate having
      returned 0; it returns 0 when all of them do. */
  lemma {:induction false} TryAllFirstSuccess(g: Grid, x: int, y: int, nx: int, ny: int, cands: seq<int>)
    requires LoopEntry(g, x, y, nx, ny, cands)
    ensures TryAll(g, x, y, nx, ny, cands).code == 0 ==> FailsBefore(g, x, y, nx, ny, cands, |cands|)
    ensures TryAll(g, x, y, nx, ny, cands).code != 0 ==>
      exists k :: 0 <= k < |cands| && FailsBefore(g, x, y, nx, ny, cands, k) &&
        TryAll(g, x, y, nx, ny, cands) == Search(Set(g, x, y, cands[k]), nx, ny)
    decreases |cands|
  {
    if cands != [] {
      TryAllStep(g, x, y, nx, ny, cands);
      var h := Set(g, x, y, cands[0]);
      InnerScanStops(g, x, y, nx, ny, cands, cands[0]);
      SearchRestores(h, nx, ny);
      if Search(h, nx, ny).code == 0 {
        SetThenClear(g, x, y, cands[0]);
        var rest := cands[1..];
        assert LoopEntry(g, x, y, nx, ny, rest);
        TryAllFirstSuccess(g, x, y, nx, ny, rest);
        if TryAll(g, x, y, nx, ny, rest).code != 0 {
          var k :| 0 <= k < |rest| && FailsBefore(g, x, y, nx, ny, rest, k) &&
            TryAll(g, x, y, nx, ny, rest) == Search(Set(g, x, y, rest[k]), nx, ny);
          FailsBeforeShift(g, x, y, nx, ny, cands, k);
          assert rest[k] == cands[k + 1];
        } else {
          FailsBeforeShift(g, x, y, nx, ny, cands, |rest|);
        }
      } else {
        assert FailsBefore(g, x, y, nx, ny, cands, 0);
      }
    }
  }

  /** On success of a candidate loop over an ascending list, the digit left
      in the cell is the smallest candidate whose deeper search succeeds. */
  lemma TryAllPicksLeast(g: Grid, x: int, y: int, nx: int, ny: int, cands: seq<int>)
    requires LoopEntry(g, x, y, nx, ny, cands) && StrictlyAscending(cands)
    requires TryAll(g, x, y, nx, ny, cands).code == 1
    ensures var o := TryAll(g, x, y, nx, ny, cands);
      o.grid[x][y] in cands && Search(Set(g, x, y, o.grid[x][y]), nx, ny) == o &&
      forall e :: e in cands && e < o.grid[x][y] ==> Search(Set(g, x, y, e), nx, ny).code == 0
  {
    TryAllFirstSuccess(g, x, y, nx, ny, cands);
    var k :| 0 <= k < |cands| && FailsBefore(g, x, y, nx, ny, cands, k) &&
      TryAll(g, x, y, nx, ny, cands) == Search(Set(g, x, y, cands[k]), nx, ny);
    SearchKeeps(Set(g, x, y, cands[k]), nx, ny);
    assert TryAll(g, x, y, nx, ny, cands).grid[x][y] == cands[k];
    forall e | e in cands && e < cands[k]
      ensures Search(Set(g, x, y, e), nx, ny).code == 0
    {
      var j :| 0 <= j < |cands| && cands[j] == e;
      assert j < k;
    }
  }

  /** On success, the digit solve leaves in the first empty cell is the
      smallest candidate of that cell whose deeper search succeeds: every
      smaller candidate was tried first and its search returned 0. */
  lemma SearchTriesAscending(g: Grid, x: int, y: int)
    requires IsBoard(g) && 0 <= x < 9 && 0 <= y <= 9 && Search(g, x, y).code == 1
    requires Scan(g, x, y).Stop? && Scan(g, x, y).y != 9
    ensures var s := Scan(g, x, y);
      var o := Search(g, x, y);
      var d := o.grid[s.x][s.y];
      var after := Next(s.x, s.y);
      var next := SkipFilled(g, after.0, after.1);
      d in Candidates(g, s.x, s.y) &&
      Search(Set(g, s.x, s.y, d), next.0, next.1) == o &&
      forall e :: e in Candidates(g, s.x, s.y) && e < d ==> Search(Set(g, s.x, s.y, e), next.0, next.1).code == 0
  {
    var s := Scan(g, x, y);
    var after := Next(s.x, s.y);
    var next := SkipFilled(g, after.0, after.1);
    SearchEntersLoop(g, x, y);
    CandidatesOfEmptyCell(g, s.x, s.y);
    TryAllPicksLeast(g, s.x, s.y, next.0, next.1, Candidates(g, s.x, s.y));
  }
}
