/** What solve of the earlier revision (src/Solver/SudokuSolver.java)
    guarantees, stated and proved about its specification SearchV1 /
    TryAllV1. Unlike the final revision, nothing here says that filled cells
    avoid their peers: the appended mirrored digit can break that. */
module SolverV1Lemmas {
  import opened DigitList
  import opened Board
  import Solver
  import opened SolverV1
  import opened SolverLemmas

  /** The state in which solve enters its candidate loop at cell (x, y). */
  predicate LoopEntryV1(g: Grid, x: int, y: int, nx: int, ny: int, cands: seq<int>)
  {
    NextEmptyAfter(g, x, y, nx, ny) && AllDigits(cands)
  }

  /** When SearchV1 does not stop at a conflict or at the end, it runs the
      candidate loop of the cell it stopped at, from a proper loop entry. */
  lemma SearchV1EntersLoop(g: Grid, x: int, y: int)
    requires IsBoard(g) && 0 <= x < 9 && 0 <= y <= 9
    requires ScanV1(g, x, y).Stop? && ScanV1(g, x, y).y != 9
    ensures var s := ScanV1(g, x, y);
      var after := Next(s.x, s.y);
      var next := SkipFilled(g, after.0, after.1);
      LoopEntryV1(g, s.x, s.y, next.0, next.1, CandidatesV1(g, s.x, s.y)) &&
      SearchV1(g, x, y) == TryAllV1(g, s.x, s.y, next.0, next.1, CandidatesV1(g, s.x, s.y))
  {
  }

  // ---------------------------------------------------------------------
  // The board after a failed search

  /** When solve returns false the board is as it was on entry. */
  lemma {:induction false} SearchV1Restores(g: Grid, x: int, y: int)
    requires IsBoard(g) && 0 <= x < 9 && 0 <= y <= 9
    ensures !SearchV1(g, x, y).solved ==> SearchV1(g, x, y).grid == g
    decreases 81 - Pos(x, y), 1, 0
  {
    var s := ScanV1(g, x, y);
    if s.Stop? && s.y != 9 {
      SearchV1EntersLoop(g, x, y);
      var after := Next(s.x, s.y);
      var next := SkipFilled(g, after.0, after.1);
      TryAllV1Restores(g, s.x, s.y, next.0, next.1, CandidatesV1(g, s.x, s.y));
    }
  }

  /** A candidate loop that returns false has reset its cell to 0. */
  lemma {:induction false} TryAllV1Restores(g: Grid, x: int, y: int, nx: int, ny: int, cands: seq<int>)
    requires LoopEntryV1(g, x, y, nx, ny, cands)
    ensures !TryAllV1(g, x, y, nx, ny, cands).solved ==> TryAllV1(g, x, y, nx, ny, cands).grid == g
    decreases 81 - Pos(x, y), 0, |cands|
  {
    if cands != [] {
      TryAllV1Step(g, x, y, nx, ny, cands);
      var h := Set(g, x, y, cands[0]);
      SearchV1Restores(h, nx, ny);
      if !SearchV1(h, nx, ny).solved {
        SetThenClear(g, x, y, cands[0]);
        TryAllV1Restores(g, x, y, nx, ny, cands[1..]);
      }
    }
  }

  // ---------------------------------------------------------------------
  // Which cells a search may write

  /** solve never changes a cell that was filled on entry, nor any cell
      before its starting cursor. */
  lemma {:induction false} SearchV1Keeps(g: Grid, x: int, y: int)
    requires IsBoard(g) && 0 <= x < 9 && 0 <= y <= 9
    ensures KeepsGivens(g, SearchV1(g, x, y).grid) && KeepsBefore(g, SearchV1(g, x, y).grid, x, y)
    decreases 81 - Pos(x, y), 1, 0
  {
    var s := ScanV1(g, x, y);
    if s.Stop? && s.y != 9 {
      SearchV1EntersLoop(g, x, y);
      var after := Next(s.x, s.y);
      var next := SkipFilled(g, after.0, after.1);
      TryAllV1Keeps(g, s.x, s.y, next.0, next.1, CandidatesV1(g, s.x, s.y));
    }
  }

  /** The candidate loop writes only its own cell and cells after it, and
      never a cell that was filled on entry. */
  lemma {:induction false} TryAllV1Keeps(g: Grid, x: int, y: int, nx: int, ny: int, cands: seq<int>)
    requires LoopEntryV1(g, x, y, nx, ny, cands)
    ensures KeepsGivens(g, TryAllV1(g, x, y, nx, ny, cands).grid)
    ensures KeepsBefore(g, TryAllV1(g, x, y, nx, ny, cands).grid, x, y)
    decreases 81 - Pos(x, y), 0, |cands|
  {
    if cands != [] {
      TryAllV1Step(g, x, y, nx, ny, cands);
      var h := Set(g, x, y, cands[0]);
      SearchV1Restores(h, nx, ny);
      SearchV1Keeps(h, nx, ny);
      if !SearchV1(h, nx, ny).solved {
        SetThenClear(g, x, y, cands[0]);
        TryAllV1Keeps(g, x, y, nx, ny, cands[1..]);
      }
    }
  }

  // ---------------------------------------------------------------------
  // What a successful search leaves

  /** When solve returns true every cell from its starting cursor on is
      filled (the cursor passed the last cell). */
  lemma {:induction false} SearchV1Fills(g: Grid, x: int, y: int)
    requires IsBoard(g) && 0 <= x < 9 && 0 <= y <= 9
    ensures SearchV1(g, x, y).solved ==> FilledFrom(SearchV1(g, x, y).grid, x, y)
    decreases 81 - Pos(x, y), 1, 0
  {
    var s := ScanV1(g, x, y);
    if s.Stop? && s.y != 9 {
      SearchV1EntersLoop(g, x, y);
      var after := Next(s.x, s.y);
      var next := SkipFilled(g, after.0, after.1);
      TryAllV1Fills(g, s.x, s.y, next.0, next.1, CandidatesV1(g, s.x, s.y));
      TryAllV1Keeps(g, s.x, s.y, next.0, next.1, CandidatesV1(g, s.x, s.y));
    }
  }

  /** A candidate loop that returns true has filled its cell and every cell
      after it. */
  lemma {:induction false} TryAllV1Fills(g: Grid, x: int, y: int, nx: int, ny: int, cands: seq<int>)
    requires LoopEntryV1(g, x, y, nx, ny, cands)
    ensures TryAllV1(g, x, y, nx, ny, cands).solved ==> FilledFrom(TryAllV1(g, x, y, nx, ny, cands).grid, x, y)
    decreases 81 - Pos(x, y), 0, |cands|
  {
    if cands != [] {
      TryAllV1Step(g, x, y, nx, ny, cands);
      var h := Set(g, x, y, cands[0]);
      SearchV1Restores(h, nx, ny);
      if !SearchV1(h, nx, ny).solved {
        SetThenClear(g, x, y, cands[0]);
        TryAllV1Fills(g, x, y, nx, ny, cands[1..]);
      } else {
        SearchV1Fills(h, nx, ny);
        SearchV1Keeps(h, nx, ny);
      }
    }
  }

  // ---------------------------------------------------------------------
  // The leading check

  /** Some filled cell from cursor (x, y) up to, not including, cursor
      (ex, ey) differs from its mirrored cell. */
  predicate MirrorMismatchIn(g: Grid, x: int, y: int, ex: int, ey: int)
    requires IsBoard(g)
  {
    exists i, j :: 0 <= i < 9 && 0 <= j < 9 && Pos(x, y) <= Pos(i, j) < Pos(ex, ey) &&
      g[i][j] != 0 && g[j][i] != g[i][j]
  }

  /** The earlier leading loop rejects a filled cell exactly when its mirrored
      cell holds a different digit: the peers of the cell play no part. */
  lemma {:induction false} ScanV1ConflictIff(g: Grid, x: int, y: int)
    requires IsBoard(g) && 0 <= x < 9 && 0 <= y <= 9
    ensures ScanV1(g, x, y) == Solver.Conflict <==>
      MirrorMismatchIn(g, x, y, SkipFilled(g, x, y).0, SkipFilled(g, x, y).1)
    decreases 81 - Pos(x, y)
  {
    var e := SkipFilled(g, x, y);
    if y != 9 && g[x][y] != 0 {
      CandidatesV1OwnDigit(g, x, y);
      var n := Next(x, y);
      assert e == SkipFilled(g, n.0, n.1);
      if g[y][x] != g[x][y] {
        assert Pos(x, y) < Pos(e.0, e.1);
        assert MirrorMismatchIn(g, x, y, e.0, e.1);
      } else {
        ScanV1ConflictIff(g, n.0, n.1);
        PosInjective();
      }
    }
  }

  // ---------------------------------------------------------------------
  // Order of the candidates

  /** The deeper searches after the first n candidates all returned false. */
  predicate FailsBeforeV1(g: Grid, x: int, y: int, nx: int, ny: int, cands: seq<int>, n: int)
    requires LoopEntryV1(g, x, y, nx, ny, cands) && 0 <= n <= |cands|
  {
    forall j :: 0 <= j < n ==> !SearchV1(Set(g, x, y, cands[j]), nx, ny).solved
  }

  lemma FailsBeforeV1Shift(g: Grid, x: int, y: int, nx: int, ny: int, cands: seq<int>, n: int)
    requires LoopEntryV1(g, x, y, nx, ny, cands) && cands != [] && 0 <= n < |cands|
    requires LoopEntryV1(g, x, y, nx, ny, cands[1..]) && FailsBeforeV1(g, x, y, nx, ny, cands[1..], n)
    requires !SearchV1(Set(g, x, y, cands[0]), nx, ny).solved
    ensures FailsBeforeV1(g, x, y, nx, ny, cands, n + 1)
  {
    forall j | 0 <= j < n + 1 ensures !SearchV1(Set(g, x, y, cands[j]), nx, ny).solved {
      if j > 0 {
        assert cands[j] == cands[1..][j - 1];
      }
    }
  }

  /** The candidate loop tries the candidates in list order and stops at the
      first whose deeper search returns true, returning that search's
      outcome; it returns false when every one of them fails. */
  lemma {:induction false} TryAllV1FirstSuccess(g: Grid, x: int, y: int, nx: int, ny: int, cands: seq<int>)
    requires LoopEntryV1(g, x, y, nx, ny, cands)
    ensures !TryAllV1(g, x, y, nx, ny, cands).solved ==> FailsBeforeV1(g, x, y, nx, ny, cands, |cands|)
    ensures TryAllV1(g, x, y, nx, ny, cands).solved ==>
      exists k :: 0 <= k < |cands| && FailsBeforeV1(g, x, y, nx, ny, cands, k) &&
        TryAllV1(g, x, y, nx, ny, cands) == SearchV1(Set(g, x, y, cands[k]), nx, ny)
    decreases |cands|
  {
    if cands != [] {
      TryAllV1Step(g, x, y, nx, ny, cands);
      var h := Set(g, x, y, cands[0]);
      SearchV1Restores(h, nx, ny);
      if !SearchV1(h, nx, ny).solved {
        SetThenClear(g, x, y, cands[0]);
        var rest := cands[1..];
        TryAllV1FirstSuccess(g, x, y, nx, ny, rest);
        if TryAllV1(g, x, y, nx, ny, rest).solved {
          var k :| 0 <= k < |rest| && FailsBeforeV1(g, x, y, nx, ny, rest, k) &&
            TryAllV1(g, x, y, nx, ny, rest) == SearchV1(Set(g, x, y, rest[k]), nx, ny);
          FailsBeforeV1Shift(g, x, y, nx, ny, cands, k);
          assert rest[k] == cands[k + 1];
        } else {
          FailsBeforeV1Shift(g, x, y, nx, ny, cands, |rest|);
        }
      } else {
        assert FailsBeforeV1(g, x, y, nx, ny, cands, 0);
      }
    }
  }
}
