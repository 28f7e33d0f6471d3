/** The board vocabulary of the tic-tac-toe engine (logic.py) and its pure
    queries: line scoring, free-cell detection and the empty-cell count that
    bounds the game tree. */
module Rules {

  /** The two movers. The source spells their marks 'X' (PLAYER) and 'O' (AI). */
  datatype Side = Player | Ai

  /** A cell is EMPTY ('') or holds the mark of one side. */
  datatype Cell = Empty | Mark(side: Side)

  /** A row or column index. */
  type Coord = x: int | 0 <= x < 3

  /** The 3x3 grid, as a list of three rows of three cells. */
  type Board = b: seq<seq<Cell>> | |b| == 3 && forall r :: 0 <= r < 3 ==> |b[r]| == 3
    witness [[Empty, Empty, Empty], [Empty, Empty, Empty], [Empty, Empty, Empty]]

  /** The board a new or reset game starts from. */
  function EmptyBoard(): Board
  {
    seq(3, _ => seq(3, _ => Empty))
  }

  /** The board with cell (i, j) overwritten by m. */
  function Place(b: Board, i: Coord, j: Coord, m: Cell): Board
  {
    b[i := b[i][j := m]]
  }

  /** Writing EMPTY back over a mark placed on an empty cell restores the board. */
  lemma PlaceUndo(b: Board, i: Coord, j: Coord, m: Cell)
    requires b[i][j] == Empty
    ensures Place(Place(b, i, j, m), i, j, Empty) == b
  {
    assert b[i][j := m][j := Empty] == b[i];
  }

  // ---------------------------------------------------------------------
  // Lines and scoring
  // ---------------------------------------------------------------------

  datatype Pos = Pos(row: Coord, col: Coord)

  /** Three cells that win when they hold the same mark. */
  datatype Line = Line(p: Pos, q: Pos, r: Pos)

  /** The k-th line in the order the engine scans them: the three rows, then
      the three columns, then the main diagonal, then the anti-diagonal. */
  function LineAt(k: nat): Line
    requires k < 8
  {
    if k < 3 then Line(Pos(k, 0), Pos(k, 1), Pos(k, 2))
    else if k < 6 then Line(Pos(0, k - 3), Pos(1, k - 3), Pos(2, k - 3))
    else if k == 6 then Line(Pos(0, 0), Pos(1, 1), Pos(2, 2))
    else Line(Pos(0, 2), Pos(1, 1), Pos(2, 0))
  }

  function At(b: Board, p: Pos): Cell
  {
    b[p.row][p.col]
  }

  /** All three cells of the line hold the same non-empty mark. */
  predicate Complete(b: Board, l: Line)
  {
    At(b, l.p) != Empty && At(b, l.p) == At(b, l.q) == At(b, l.r)
  }

  /** The score of a line won by s: 10 for the AI, -10 for the player. */
  function Points(s: Side): int
  {
    if s == Ai then 10 else -10
  }

  /** The score decided by the first complete line among lines k..7. */
  function ScanFrom(b: Board, k: nat): int
    requires k <= 8
    decreases 8 - k
  {
    if k == 8 then 0
    else if Complete(b, LineAt(k)) then Points(At(b, LineAt(k).p).side)
    else ScanFrom(b, k + 1)
  }

  /** The static evaluation of a board: the sign of the first complete line
      in scan order, or 0 when no line is complete. */
  function Score(b: Board): int
  {
    ScanFrom(b, 0)
  }

  /** Some row, column or diagonal holds three marks of s (stated
      independently of the scan order). */
  predicate ThreeInARow(b: Board, s: Side)
  {
    var m := Mark(s);
    (exists r :: 0 <= r < 3 && b[r][0] == m && b[r][1] == m && b[r][2] == m) ||
    (exists c :: 0 <= c < 3 && b[0][c] == m && b[1][c] == m && b[2][c] == m) ||
    (b[0][0] == m && b[1][1] == m && b[2][2] == m) ||
    (b[0][2] == m && b[1][1] == m && b[2][0] == m)
  }

  /** A complete line in the scan table is a three-in-a-row of its owner. */
  lemma CompleteLineIsThree(b: Board, k: nat)
    requires k < 8 && Complete(b, LineAt(k))
    ensures ThreeInARow(b, At(b, LineAt(k).p).side)
  {
    var m := At(b, LineAt(k).p);
    if k < 3 {
      assert b[k][0] == m && b[k][1] == m && b[k][2] == m;
    } else if k < 6 {
      var c := k - 3;
      assert b[0][c] == m && b[1][c] == m && b[2][c] == m;
    }
  }

  /** Every three-in-a-row appears in the scan table. */
  lemma ThreeIsCompleteLine(b: Board, s: Side)
    requires ThreeInARow(b, s)
    ensures exists k :: 0 <= k < 8 && Complete(b, LineAt(k)) && At(b, LineAt(k).p) == Mark(s)
  {
    var m := Mark(s);
    if exists r :: 0 <= r < 3 && b[r][0] == m && b[r][1] == m && b[r][2] == m {
      var r :| 0 <= r < 3 && b[r][0] == m && b[r][1] == m && b[r][2] == m;
      assert Complete(b, LineAt(r)) && At(b, LineAt(r).p) == m;
    } else if exists c :: 0 <= c < 3 && b[0][c] == m && b[1][c] == m && b[2][c] == m {
      var c :| 0 <= c < 3 && b[0][c] == m && b[1][c] == m && b[2][c] == m;
      assert Complete(b, LineAt(c + 3)) && At(b, LineAt(c + 3).p) == m;
    } else if b[0][0] == m && b[1][1] == m && b[2][2] == m {
      assert Complete(b, LineAt(6)) && At(b, LineAt(6).p) == m;
    } else {
      assert Complete(b, LineAt(7)) && At(b, LineAt(7).p) == m;
    }
  }

  /** ScanFrom(b, k) is 0 exactly when no line from k on is complete, and
      otherwise is the score of some complete line from k on. */
  lemma {:induction false} ScanFound(b: Board, k: nat)
    requires k <= 8
    decreases 8 - k
    ensures ScanFrom(b, k) == 0 <==> forall e :: k <= e < 8 ==> !Complete(b, LineAt(e))
    ensures ScanFrom(b, k) != 0 ==>
      exists e :: k <= e < 8 && Complete(b, LineAt(e)) && ScanFrom(b, k) == Points(At(b, LineAt(e).p).side)
  {
    if k < 8 {
      ScanFound(b, k + 1);
    }
  }

  /** Lines without a complete one among them do not affect the scan. */
  lemma {:induction false} ScanSkip(b: Board, e: nat, k: nat)
    requires e <= k <= 8
    requires forall n :: e <= n < k ==> !Complete(b, LineAt(n))
    decreases k - e
    ensures ScanFrom(b, e) == ScanFrom(b, k)
  {
    if e < k {
      ScanSkip(b, e + 1, k);
    }
  }

  /** The score is only ever 10, -10 or 0; 10 and -10 mean that the AI,
      respectively the player, has three in a row; 0 means nobody has. */
  lemma ScoreMeaning(b: Board)
    ensures Score(b) == 10 || Score(b) == -10 || Score(b) == 0
    ensures Score(b) == 10 ==> ThreeInARow(b, Ai)
    ensures Score(b) == -10 ==> ThreeInARow(b, Player)
    ensures Score(b) == 0 <==> !ThreeInARow(b, Ai) && !ThreeInARow(b, Player)
    ensures ThreeInARow(b, Ai) && !ThreeInARow(b, Player) ==> Score(b) == 10
    ensures ThreeInARow(b, Player) && !ThreeInARow(b, Ai) ==> Score(b) == -10
  {
    ScanFound(b, 0);
    if Score(b) != 0 {
      var e :| 0 <= e < 8 && Complete(b, LineAt(e)) && Score(b) == Points(At(b, LineAt(e).p).side);
      CompleteLineIsThree(b, e);
    }
    if ThreeInARow(b, Ai) {
      ThreeIsCompleteLine(b, Ai);
    }
    if ThreeInARow(b, Player) {
      ThreeIsCompleteLine(b, Player);
    }
  }

  /** When several lines are complete, the first in scan order (rows, then
      columns, then the main diagonal, then the anti-diagonal) decides. */
  lemma ScoreFirstLine(b: Board, k: nat)
    requires k < 8 && Complete(b, LineAt(k))
    requires forall e :: 0 <= e < k ==> !Complete(b, LineAt(e))
    ensures Score(b) == Points(At(b, LineAt(k).p).side)
  {
    ScanSkip(b, 0, k);
  }

  // ---------------------------------------------------------------------
  // Free cells
  // ---------------------------------------------------------------------

  /** Some cell of some row is EMPTY. */
  predicate FreeCellsExist(b: Board)
  {
    exists row :: row in b && Empty in row
  }

  /** The number of EMPTY cells in a row. */
  function EmptyIn(row: seq<Cell>): nat
  {
    if row == [] then 0 else (if row[0] == Empty then 1 else 0) + EmptyIn(row[1..])
  }

  /** The number of EMPTY cells on the board: the depth still open to the search. */
  function EmptyCount(b: Board): nat
  {
    EmptyIn(b[0]) + EmptyIn(b[1]) + EmptyIn(b[2])
  }

  lemma {:induction false} EmptyInPositive(row: seq<Cell>)
    ensures EmptyIn(row) > 0 <==> Empty in row
  {
    if row != [] {
      EmptyInPositive(row[1..]);
      assert row == [row[0]] + row[1..];
    }
  }

  lemma {:induction false} EmptyInUpdate(row: seq<Cell>, j: nat, m: Cell)
    requires j < |row| && row[j] == Empty && m != Empty
    ensures EmptyIn(row[j := m]) == EmptyIn(row) - 1
  {
    if j > 0 {
      EmptyInUpdate(row[1..], j - 1, m);
      assert row[j := m][1..] == row[1..][j - 1 := m];
    }
  }

  /** free_cells_exist: some cell (i, j) is EMPTY, equivalently the count of
      EMPTY cells is positive. */
  lemma FreeCellsExistIff(b: Board)
    ensures FreeCellsExist(b) <==> exists i, j :: 0 <= i < 3 && 0 <= j < 3 && b[i][j] == Empty
    ensures FreeCellsExist(b) <==> EmptyCount(b) > 0
  {
    EmptyInPositive(b[0]);
    EmptyInPositive(b[1]);
    EmptyInPositive(b[2]);
    if exists i, j :: 0 <= i < 3 && 0 <= j < 3 && b[i][j] == Empty {
      var i, j :| 0 <= i < 3 && 0 <= j < 3 && b[i][j] == Empty;
      assert b[i] in b && Empty in b[i];
    }
  }

  /** Marking an empty cell takes exactly one EMPTY cell away. */
  lemma PlaceCountsDown(b: Board, i: Coord, j: Coord, m: Cell)
    requires b[i][j] == Empty && m != Empty
    ensures EmptyCount(Place(b, i, j, m)) == EmptyCount(b) - 1
  {
    EmptyInUpdate(b[i], j, m);
  }
}
