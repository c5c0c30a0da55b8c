/** The 9x9 board shared by both revisions of the solver, its accessors
    getColumn and getQuadrant (identical in src/SudokuSolver.java and
    src/Solver/SudokuSolver.java), the solver's cursor, and the Sudoku peer
    relation that the solver's contracts are stated in.

    The Java board is `int[9][9]`, indexed `board[x][y]` by the solver's
    cursor. It is modelled as an `array2<int>`; `Snapshot` reads it as a
    value of type `Grid`, with `g[x][y] == board[x, y]`. A value 0 is an
    empty cell. Inside getPossibilities the first index is called the row
    and the second the column; the same words are used here. */
module Board {

  /** The board as a value: g[x][y] is board[x][y]. */
  type Grid = seq<seq<int>>

  datatype Option<T> = None | Some(value: T)

  predicate HasShape(g: Grid)
  {
    |g| == 9 && forall i :: 0 <= i < 9 ==> |g[i]| == 9
  }

  /** A 9x9 board whose every value lies in 0..9. */
  predicate IsBoard(g: Grid)
  {
    HasShape(g) && forall i, j :: 0 <= i < 9 && 0 <= j < 9 ==> 0 <= g[i][j] <= 9
  }

  /** The board with cell (i, j) set to v (`board[i][j] = v`). */
  function Set(g: Grid, i: int, j: int, v: int): (h: Grid)
    requires IsBoard(g) && 0 <= i < 9 && 0 <= j < 9 && 0 <= v <= 9
    ensures IsBoard(h)
    ensures forall p, q :: 0 <= p < 9 && 0 <= q < 9 ==> h[p][q] == (if p == i && q == j then v else g[p][q])
  {
    g[i := g[i][j := v]]
  }

  /** Two boards that agree on every cell are the same board. */
  lemma GridExt(g: Grid, h: Grid)
    requires HasShape(g) && HasShape(h)
    requires forall i, j :: 0 <= i < 9 && 0 <= j < 9 ==> g[i][j] == h[i][j]
    ensures g == h
  {
    forall i | 0 <= i < 9 ensures g[i] == h[i] {
      assert |g[i]| == |h[i]| == 9;
    }
  }

  /** The current contents of the array as a value. */
  ghost function Snapshot(a: array2<int>): (g: Grid)
    requires a.Length0 == 9 && a.Length1 == 9
    reads a
    ensures HasShape(g)
    ensures forall i, j :: 0 <= i < 9 && 0 <= j < 9 ==> g[i][j] == a[i, j]
  {
    seq(9, i requires 0 <= i < 9 reads a => seq(9, j requires 0 <= j < 9 reads a => a[i, j]))
  }

  lemma SnapshotIs(a: array2<int>, g: Grid)
    requires a.Length0 == 9 && a.Length1 == 9 && HasShape(g)
    requires forall i, j :: 0 <= i < 9 && 0 <= j < 9 ==> a[i, j] == g[i][j]
    ensures Snapshot(a) == g
  {
    GridExt(Snapshot(a), g);
  }

  // ---------------------------------------------------------------------
  // The cursor

  /** Rank of cursor (x, y) in the solver's traversal, in which x advances
      fastest; y == 9 means the cursor has passed the last cell. */
  function Pos(x: int, y: int): int
  {
    9 * y + x
  }

  lemma PosInjective()
    ensures forall i, j, p, q :: 0 <= i < 9 && 0 <= p < 9 && Pos(i, j) == Pos(p, q) ==> i == p && j == q
  {
  }

  /** One step of the cursor: x advances and wraps from 8 to 0, and y
      advances only when x wraps. */
  function Next(x: int, y: int): (n: (int, int))
    requires 0 <= x < 9 && 0 <= y < 9
    ensures 0 <= n.0 < 9 && 0 <= n.1 <= 9
    ensures Pos(n.0, n.1) == Pos(x, y) + 1
  {
    var nx := (x + 1) % 9;
    (nx, if nx == 0 then y + 1 else y)
  }

  /** The loop that moves the cursor over filled cells without looking at
      them: it stops at the first empty cell at or after (x, y), or past the
      last cell. */
  function SkipFilled(g: Grid, x: int, y: int): (n: (int, int))
    requires IsBoard(g) && 0 <= x < 9 && 0 <= y <= 9
    ensures 0 <= n.0 < 9 && 0 <= n.1 <= 9 && Pos(x, y) <= Pos(n.0, n.1)
    ensures n.1 == 9 || g[n.0][n.1] == 0
    ensures forall i, j :: 0 <= i < 9 && 0 <= j < 9 && Pos(x, y) <= Pos(i, j) < Pos(n.0, n.1) ==> g[i][j] != 0
    decreases 81 - Pos(x, y)
  {
    if y == 9 || g[x][y] == 0 then (x, y)
    else
      var next := Next(x, y);
      PosInjective();
      SkipFilled(g, next.0, next.1)
  }

  /** (x, y) is an empty cell and (nx, ny) is the next empty cell after it
      in cursor order, or past the last cell: every cell in between is filled. */
  predicate NextEmptyAfter(g: Grid, x: int, y: int, nx: int, ny: int)
  {
    IsBoard(g) && 0 <= x < 9 && 0 <= y < 9 && 0 <= nx < 9 && 0 <= ny <= 9 &&
    Pos(x, y) < Pos(nx, ny) && g[x][y] == 0 && (ny == 9 || g[nx][ny] == 0) &&
    forall i, j :: 0 <= i < 9 && 0 <= j < 9 && Pos(x, y) < Pos(i, j) < Pos(nx, ny) ==> g[i][j] != 0
  }

  // ---------------------------------------------------------------------
  // Rows, columns, boxes and peers

  /** Cell (p, q) lies in the row, the column or the 3x3 box of cell (i, j)
      (the cell itself included). */
  predicate SameUnit(i: int, j: int, p: int, q: int)
  {
    p == i || q == j || (p / 3 == i / 3 && q / 3 == j / 3)
  }

  /** Cell (p, q) is a peer of cell (i, j): another cell of its row, column or box. */
  predicate Peer(i: int, j: int, p: int, q: int)
  {
    (p != i || q != j) && SameUnit(i, j, p, q)
  }

  /** Some cell of the row, column or box of (i, j), the cell itself included, holds d. */
  predicate UnitHolds(g: Grid, i: int, j: int, d: int)
    requires HasShape(g)
  {
    exists p, q :: 0 <= p < 9 && 0 <= q < 9 && SameUnit(i, j, p, q) && g[p][q] == d
  }

  /** Some peer of (i, j) holds d. */
  predicate PeerHolds(g: Grid, i: int, j: int, d: int)
    requires HasShape(g)
  {
    exists p, q :: 0 <= p < 9 && 0 <= q < 9 && Peer(i, j, p, q) && g[p][q] == d
  }

  /** Every given (nonzero) cell differs from all its peers. */
  predicate GivensConsistent(g: Grid)
    requires IsBoard(g)
  {
    forall i, j :: 0 <= i < 9 && 0 <= j < 9 && g[i][j] != 0 ==> !PeerHolds(g, i, j, g[i][j])
  }

  /** A complete, valid Sudoku grid. */
  predicate IsSolved(g: Grid)
  {
    IsBoard(g) &&
    forall i, j :: 0 <= i < 9 && 0 <= j < 9 ==> g[i][j] != 0 && !PeerHolds(g, i, j, g[i][j])
  }

  /** h keeps every given cell of g. */
  predicate KeepsGivens(g: Grid, h: Grid)
    requires IsBoard(g) && IsBoard(h)
  {
    forall i, j :: 0 <= i < 9 && 0 <= j < 9 && g[i][j] != 0 ==> h[i][j] == g[i][j]
  }

  /** h agrees with g on every cell before cursor (x, y). */
  predicate KeepsBefore(g: Grid, h: Grid, x: int, y: int)
    requires IsBoard(g) && IsBoard(h)
  {
    forall i, j :: 0 <= i < 9 && 0 <= j < 9 && Pos(i, j) < Pos(x, y) ==> h[i][j] == g[i][j]
  }

  /** Every cell at or after cursor (x, y) is filled. */
  predicate FilledFrom(h: Grid, x: int, y: int)
    requires IsBoard(h)
  {
    forall i, j :: 0 <= i < 9 && 0 <= j < 9 && Pos(x, y) <= Pos(i, j) ==> h[i][j] != 0
  }

  /** Every cell empty in g and filled in h differs from all its peers in h. */
  predicate FilledAvoidPeers(g: Grid, h: Grid)
    requires IsBoard(g) && IsBoard(h)
  {
    forall i, j :: 0 <= i < 9 && 0 <= j < 9 && g[i][j] == 0 && h[i][j] != 0 ==> !PeerHolds(h, i, j, h[i][j])
  }

  /** The column that getColumn returns, as a value. */
  function Column(g: Grid, c: int): seq<int>
    requires HasShape(g) && 0 <= c < 9
  {
    seq(9, i requires 0 <= i < 9 => g[i][c])
  }

  /** The 3x3 box (x, y) that getQuadrant returns, as a value: entry
      i*3 + j is g[3*y + i][3*x + j]. */
  function Box(g: Grid, x: int, y: int): seq<int>
    requires HasShape(g) && 0 <= x < 3 && 0 <= y < 3
  {
    seq(9, k requires 0 <= k < 9 => g[3 * y + k / 3][3 * x + k % 3])
  }

  /** The values getPossibilities compares a cell against: its column, its
      row and its box, in the order of the three removals. */
  function Units(g: Grid, r: int, c: int): seq<int>
    requires HasShape(g) && 0 <= r < 9 && 0 <= c < 9
  {
    Column(g, c) + g[r] + Box(g, c / 3, r / 3)
  }

  /** Entry k of the box of (r, c) is a cell of that box. */
  lemma BoxEntry(g: Grid, r: int, c: int, k: int)
    requires HasShape(g) && 0 <= r < 9 && 0 <= c < 9 && 0 <= k < 9
    ensures var p, q := 3 * (r / 3) + k / 3, 3 * (c / 3) + k % 3;
      0 <= p < 9 && 0 <= q < 9 && SameUnit(r, c, p, q) && Box(g, c / 3, r / 3)[k] == g[p][q]
  {
  }

  /** Every cell of the box of (r, c) is one of its nine entries. */
  lemma BoxIndex(g: Grid, r: int, c: int, p: int, q: int)
    requires HasShape(g) && 0 <= r < 9 && 0 <= c < 9 && 0 <= p < 9 && 0 <= q < 9
    requires p / 3 == r / 3 && q / 3 == c / 3
    ensures Box(g, c / 3, r / 3)[3 * (p % 3) + q % 3] == g[p][q]
  {
    var k := 3 * (p % 3) + q % 3;
    assert k / 3 == p % 3 && k % 3 == q % 3;
  }

  /** A value occurs among Units(g, r, c) exactly when some cell of the row,
      column or box of (r, c) holds it. */
  lemma UnitsMembers(g: Grid, r: int, c: int, v: int)
    requires HasShape(g) && 0 <= r < 9 && 0 <= c < 9
    ensures v in Units(g, r, c) <==> UnitHolds(g, r, c, v)
  {
    var col, row, box := Column(g, c), g[r], Box(g, c / 3, r / 3);
    assert Units(g, r, c) == col + row + box;
    if v in col {
      var i :| 0 <= i < 9 && col[i] == v;
      assert SameUnit(r, c, i, c) && g[i][c] == v;
    } else if v in row {
      var j :| 0 <= j < 9 && row[j] == v;
      assert SameUnit(r, c, r, j) && g[r][j] == v;
    } else if v in box {
      var k :| 0 <= k < 9 && box[k] == v;
      BoxEntry(g, r, c, k);
    }
    if UnitHolds(g, r, c, v) {
      var p, q :| 0 <= p < 9 && 0 <= q < 9 && SameUnit(r, c, p, q) && g[p][q] == v;
      if p == r {
        assert row[q] == v;
      } else if q == c {
        assert col[p] == v;
      } else {
        BoxIndex(g, r, c, p, q);
      }
    }
  }

  /** A nonzero value among the units of (r, c) with the cell itself zeroed
      is exactly a value held by a peer of (r, c). */
  lemma ZeroedUnitsMembers(g: Grid, r: int, c: int, v: int)
    requires IsBoard(g) && 0 <= r < 9 && 0 <= c < 9 && v != 0
    ensures v in Units(Set(g, r, c, 0), r, c) <==> PeerHolds(g, r, c, v)
  {
    var g0 := Set(g, r, c, 0);
    UnitsMembers(g0, r, c, v);
    if UnitHolds(g0, r, c, v) {
      var p, q :| 0 <= p < 9 && 0 <= q < 9 && SameUnit(r, c, p, q) && g0[p][q] == v;
      assert Peer(r, c, p, q) && g[p][q] == v;
    }
    if PeerHolds(g, r, c, v) {
      var p, q :| 0 <= p < 9 && 0 <= q < 9 && Peer(r, c, p, q) && g[p][q] == v;
      assert SameUnit(r, c, p, q) && g0[p][q] == v;
    }
  }

  // ---------------------------------------------------------------------
  // getColumn and getQuadrant

  /** getColumn: a fresh array holding board[0][x] .. board[8][x]. */
  method GetColumn(board: array2<int>, x: int) returns (column: array<int>)
    requires board.Length0 == 9 && board.Length1 == 9 && 0 <= x < 9
    ensures fresh(column) && column.Length == 9
    ensures forall i :: 0 <= i < 9 ==> column[i] == board[i, x]
    ensures column[..] == Column(Snapshot(board), x)
  {
    column := new int[9];
    for i := 0 to 9
      invariant forall k :: 0 <= k < i ==> column[k] == board[k, x]
    {
      column[i] := board[i, x];
    }
  }

  /** A value of Java's 32-bit `int`. */
  predicate IsInt32(v: int)
  {
    -0x8000_0000 <= v < 0x8000_0000
  }

  /** An `int` whose triple does not overflow. */
  predicate TripleFits(v: int)
  {
    -715827882 <= v <= 715827882
  }

  /** `v * 3` on Java ints: the exact product wrapped into the 32-bit range. */
  function Times3(v: int): (r: int)
    ensures IsInt32(r)
    ensures TripleFits(v) ==> r == 3 * v
  {
    (3 * v + 0x8000_0000) % 0x1_0000_0000 - 0x8000_0000
  }

  /** The nine cells whose top-left corner is board[ty][tx], in the order
      entry i*3 + j = board[ty + i][tx + j]. */
  function Block(g: Grid, tx: int, ty: int): seq<int>
    requires HasShape(g) && 0 <= tx <= 6 && 0 <= ty <= 6
  {
    seq(9, k requires 0 <= k < 9 => g[ty + k / 3][tx + k % 3])
  }

  /** getQuadrant exactly as written, on Java ints. trueX and trueY are the
      wrapped triples of the box indices. The guard compares with `>`, so
      a triple of 9 passes it. The loop then reads index trueX + 2 and
      trueY + 2, and a triple of 7, 8 or 9 throws
      ArrayIndexOutOfBoundsException (None). A triple outside 0..9 leaves
      the nine zeros of the fresh array. */
  function QuadrantAsWritten(g: Grid, x: int, y: int): (r: Option<seq<int>>)
    requires HasShape(g) && IsInt32(x) && IsInt32(y)
    ensures r.Some? ==> |r.value| == 9
  {
    var trueX, trueY := Times3(x), Times3(y);
    if trueX > 9 || trueX < 0 || trueY > 9 || trueY < 0 then Some(seq(9, _ => 0))
    else if trueX > 6 || trueY > 6 then None
    else Some(Block(g, trueX, trueY))
  }

  /** The guard's off-by-one: where the triples do not overflow, box index 3
      in either coordinate faults, and only those indices do. */
  lemma QuadrantAsWrittenFaults(g: Grid, x: int, y: int)
    requires HasShape(g) && TripleFits(x) && TripleFits(y)
    ensures QuadrantAsWritten(g, x, y) == None <==> (x == 3 && 0 <= y <= 3) || (y == 3 && 0 <= x <= 3)
  {
  }

  /** Where the triple overflows, the guard no longer separates box indices:
      1431655768 wraps to 8 and faults, and 1431655766 wraps to 2 and
      returns the block whose corner is board[0][2]. */
  lemma QuadrantAsWrittenWraps(g: Grid)
    requires HasShape(g)
    ensures QuadrantAsWritten(g, 1431655768, 0) == None
    ensures QuadrantAsWritten(g, 1431655766, 0) == Some(Block(g, 2, 0))
  {
  }

  /** getQuadrant with the guard corrected to `>=` and the triple taken
      without overflow: nine entries, entry i*3 + j (k below) holding
      board[3*y + i][3*x + j] for a box index in 0..2, and all zero
      otherwise. Wherever the code as written does not fault and its
      triples do not overflow, the two agree. */
  method GetQuadrant(board: array2<int>, x: int, y: int) returns (quadrant: array<int>)
    requires board.Length0 == 9 && board.Length1 == 9
    ensures fresh(quadrant) && quadrant.Length == 9
    ensures 0 <= x < 3 && 0 <= y < 3 ==>
      forall k :: 0 <= k < 9 ==> quadrant[k] == board[3 * y + k / 3, 3 * x + k % 3]
    ensures !(0 <= x < 3 && 0 <= y < 3) ==> forall k :: 0 <= k < 9 ==> quadrant[k] == 0
    ensures 0 <= x < 3 && 0 <= y < 3 ==> quadrant[..] == Box(Snapshot(board), x, y)
    ensures TripleFits(x) && TripleFits(y) && QuadrantAsWritten(Snapshot(board), x, y) != None ==>
      QuadrantAsWritten(Snapshot(board), x, y) == Some(quadrant[..])
  {
    var trueX := x * 3;
    var trueY := y * 3;
    quadrant := new int[9](_ => 0);
    if !(trueX >= board.Length1 || trueX < 0 || trueY >= board.Length0 || trueY < 0) {
      for i := 0 to 3
        invariant forall k :: 0 <= k < 3 * i ==> quadrant[k] == board[trueY + k / 3, trueX + k % 3]
      {
        for j := 0 to 3
          invariant forall k :: 0 <= k < 3 * i + j ==> quadrant[k] == board[trueY + k / 3, trueX + k % 3]
        {
          quadrant[i * 3 + j] := board[trueY + i, trueX + j];
        }
      }
    }
    if 0 <= x < 3 && 0 <= y < 3 {
      assert quadrant[..] == Block(Snapshot(board), trueX, trueY);
    } else {
      assert quadrant[..] == seq(9, _ => 0);
    }
  }
}
