/** Concrete boards: a complete grid, the empty board, and the small boards
    on which the two revisions of getPossibilities and solve part ways. */
module Scenarios {
  import opened DigitList
  import opened Board
  import Solver
  import SolverLemmas
  import SolverV1
  import SolverV1Lemmas

  /** Digit of cell (i, j) in a complete grid built by shifting the row
      1..9 by 3 per row inside a band and by 1 per band. */
  function Latin(i: int, j: int): int
  {
    (3 * (i % 3) + i / 3 + j) % 9 + 1
  }

  function LatinGrid(): Grid
  {
    seq(9, i => seq(9, j => Latin(i, j)))
  }

  function Empty(): Grid
  {
    seq(9, i => seq(9, j => 0))
  }

  /** Two numbers less than 9 apart that differ leave different remainders. */
  lemma ModNineDistinct(u: int, v: int)
    requires 0 <= u && 0 <= v && u != v && -9 < u - v < 9
    ensures u % 9 != v % 9
  {
  }

  /** The row shift 3 * (i % 3) + i / 3 takes each value 0..8 once. */
  lemma ShiftInjective(i: int, p: int)
    requires 0 <= i < 9 && 0 <= p < 9 && i != p
    ensures 3 * (i % 3) + i / 3 != 3 * (p % 3) + p / 3
  {
  }

  lemma LatinPeersDiffer(i: int, j: int, p: int, q: int)
    requires 0 <= i < 9 && 0 <= j < 9 && 0 <= p < 9 && 0 <= q < 9 && Peer(i, j, p, q)
    ensures Latin(i, j) != Latin(p, q)
  {
    var a, b := 3 * (i % 3) + i / 3, 3 * (p % 3) + p / 3;
    if p == i {
      ModNineDistinct(a + j, b + q);
    } else {
      ShiftInjective(i, p);
      if q == j {
        ModNineDistinct(a + j, b + q);
      } else {
        assert i / 3 == p / 3 && j / 3 == q / 3;
        ModNineDistinct(a + j, b + q);
      }
    }
  }

  /** The grid above is a complete, valid Sudoku grid. */
  lemma LatinIsSolved()
    ensures IsSolved(LatinGrid())
  {
    var s := LatinGrid();
    forall i, j | 0 <= i < 9 && 0 <= j < 9 ensures s[i][j] != 0 && !PeerHolds(s, i, j, s[i][j]) {
      if PeerHolds(s, i, j, s[i][j]) {
        var p, q :| 0 <= p < 9 && 0 <= q < 9 && Peer(i, j, p, q) && s[p][q] == s[i][j];
        LatinPeersDiffer(i, j, p, q);
      }
    }
  }

  /** solve(board, 0, 0) of the final revision fills the empty board with a
      complete, valid grid. */
  lemma EmptyBoardSolved()
    ensures Solver.Search(Empty(), 0, 0).code == 1
    ensures IsSolved(Solver.Search(Empty(), 0, 0).grid)
  {
    LatinIsSolved();
    SolverLemmas.SearchComplete(Empty(), 0, 0, LatinGrid());
    SolverLemmas.SolvedBoardIsValid(Empty());
  }

  // ---------------------------------------------------------------------
  // Where the earlier revision goes wrong

  /** Two consistent givens: 1 at board[0][0] and 4 at board[1][0]. */
  function TwoGivens(): Grid
  {
    Set(Set(Empty(), 0, 0, 1), 1, 0, 4)
  }

  /** The earlier solve returns false on a board that has a solution, because
      its leading check compares board[1][0] with the mirrored board[0][1];
      the final revision solves the same board. */
  lemma V1RejectsSolvablePuzzle()
    ensures GivensConsistent(TwoGivens())
    ensures Solver.Search(TwoGivens(), 0, 0).code == 1
    ensures !SolverV1.SearchV1(TwoGivens(), 0, 0).solved
  {
    var g := TwoGivens();
    LatinIsSolved();
    assert KeepsGivens(g, LatinGrid());
    SolverLemmas.ExtendableIsConsistent(g, LatinGrid());
    SolverLemmas.SearchComplete(g, 0, 0, LatinGrid());
    SolverV1.CandidatesV1OwnDigit(g, 0, 0);
    SolverV1.CandidatesV1OwnDigit(g, 1, 0);
    assert SolverV1.ScanV1(g, 0, 0) == SolverV1.ScanV1(g, 1, 0) == Solver.Conflict;
  }

  /** A single given 7 at board[1][0]. */
  function MirrorClash(): Grid
  {
    Set(Empty(), 1, 0, 7)
  }

  /** The earlier getPossibilities offers 7 for the empty cell board[0][1],
      whose box already holds 7 at board[1][0]; the final revision does not. */
  lemma V1OffersClashingDigit()
    ensures MirrorClash()[0][1] == 0 && PeerHolds(MirrorClash(), 0, 1, 7)
    ensures 7 in SolverV1.CandidatesV1(MirrorClash(), 0, 1)
    ensures 7 !in Solver.Candidates(MirrorClash(), 0, 1)
  {
    var g := MirrorClash();
    assert Peer(0, 1, 1, 0) && g[1][0] == 7;
    SolverV1.CandidatesV1Members(g, 0, 1, 7);
    Solver.CandidatesMembers(g, 0, 1, 7);
  }

  /** A single given 7 at board[5][0]. */
  function MirrorRepeat(): Grid
  {
    Set(Empty(), 5, 0, 7)
  }

  /** The earlier getPossibilities for board[0][5] returns 1..9 followed by
      the mirrored 7 again: the list repeats a digit. */
  lemma V1RepeatsDigit()
    ensures SolverV1.CandidatesV1(MirrorRepeat(), 0, 5) == Digits() + [7]
  {
    var g := MirrorRepeat();
    var units := Units(g, 0, 5);
    assert forall k :: 0 <= k < |units| ==> units[k] == 0;
    KeepAbsentNone(Digits(), units);
  }
}
