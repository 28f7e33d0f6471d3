/** The game engine object of logic.py: the board and the turn, the queries
    over them, the alpha-beta search that marks and unmarks the board in
    place, and the two move operations. */
module Game {
  import opened Rules
  import opened Search

  /** What winner() reports: the winning side ('O' or 'X'), "DRAW", or None
      while the game goes on. */
  datatype Outcome = Won(side: Side) | Draw | Ongoing

  class TicTacToe {
    var board: Board
    /** Whose turn it is now. */
    var turn: Side

    /** A fresh engine: every cell EMPTY and `starter` to move. */
    constructor (starter: Side)
      ensures board == EmptyBoard() && turn == starter
      ensures forall i, j :: 0 <= i < 3 && 0 <= j < 3 ==> board[i][j] == Empty
    {
      board := EmptyBoard();
      turn := starter;
    }

    /** Clears the board and sets who starts. */
    method Reset(starter: Side)
      modifies this
      ensures board == EmptyBoard() && turn == starter
      ensures forall i, j :: 0 <= i < 3 && 0 <= j < 3 ==> board[i][j] == Empty
    {
      board := EmptyBoard();
      turn := starter;
    }

    /** _score_position: scans the rows, then the columns, then the main
        diagonal, then the anti-diagonal, and scores the first complete one. */
    method ScorePosition() returns (s: int)
      ensures s == Score(board)
      ensures s == 10 || s == -10 || s == 0
    {
      ScoreMeaning(board);
      var b := board;
      for r := 0 to 3
        invariant Score(b) == ScanFrom(b, r)
      {
        var row := b[r];
        if row[0] != Empty && row[0] == row[1] == row[2] {
          return if row[0] == Mark(Ai) then 10 else -10;
        }
      }
      for c := 0 to 3
        invariant Score(b) == ScanFrom(b, 3 + c)
      {
        if b[0][c] != Empty && b[0][c] == b[1][c] == b[2][c] {
          return if b[0][c] == Mark(Ai) then 10 else -10;
        }
      }
      if b[0][0] != Empty && b[0][0] == b[1][1] == b[2][2] {
        return if b[0][0] == Mark(Ai) then 10 else -10;
      }
      if b[0][2] != Empty && b[0][2] == b[1][1] == b[2][0] {
        return if b[0][2] == Mark(Ai) then 10 else -10;
      }
      return 0;
    }

    /** winner: the AI has won iff the score is 10, the player iff it is -10,
        a draw iff nobody has three in a row and no cell is EMPTY, otherwise
        the game goes on. Reads the board without changing it. */
    method Winner() returns (w: Outcome)
      ensures w == Won(Ai) <==> Score(board) == 10
      ensures w == Won(Player) <==> Score(board) == -10
      ensures w == Draw <==> Score(board) == 0 && !FreeCellsExist(board)
      ensures w == Ongoing <==> Score(board) == 0 && FreeCellsExist(board)
      ensures w.Won? ==> ThreeInARow(board, w.side)
      ensures w == Draw ==> !ThreeInARow(board, Ai) && !ThreeInARow(board, Player)
    {
      ScoreMeaning(board);
      var score := ScorePosition();
      if score == 10 {
        return Won(Ai);
      }
      if score == -10 {
        return Won(Player);
      }
      if !FreeCellsExist(board) {
        return Draw;
      }
      return Ongoing;
    }

    /** _minimax: alpha-beta search from the current board, marking each
        empty cell in turn, searching, and writing EMPTY back. The board is
        restored on every exit, pruning cuts included; the result is a game
        value, it meets the fail-soft alpha-beta contract against the plain
        minimax value, and with the full window it is that value. */
    method Minimax(isMax: bool, alpha: int, beta: int) returns (v: int)
      modifies this`board
      decreases EmptyCount(board)
      ensures board == old(board)
      ensures IsScore(v)
      ensures alpha < beta ==> FailSoft(v, alpha, beta, Value(old(board), isMax))
      ensures alpha == -Infinity && beta == Infinity ==> v == Value(old(board), isMax)
    {
      var score := ScorePosition();
      if score != 0 || !FreeCellsExist(board) {
        return score;
      }
      ghost var b0 := board;
      FreeCellsExistIff(b0);
      var lo, hi := alpha, beta;
      if isMax {
        var best := -Infinity;
        for i := 0 to 3
          invariant board == b0 && hi == beta
          invariant MaxScanned(b0, i, 0, alpha, beta, lo, best)
        {
          for j := 0 to 3
            invariant board == b0 && hi == beta
            invariant MaxScanned(b0, i, j, alpha, beta, lo, best)
          {
            if board[i][j] == Empty {
              PlaceCountsDown(b0, i, j, Mark(Ai));
              board := Place(board, i, j, Mark(Ai));
              var value := Minimax(false, lo, hi);
              PlaceUndo(b0, i, j, Mark(Ai));
              board := Place(board, i, j, Empty);
              MaxStep(b0, i, j, alpha, beta, lo, best, value);
              best := Max(best, value);
              lo := Max(lo, best);
              if hi <= lo {
                return best;
              }
            } else {
              MaxStep(b0, i, j, alpha, beta, lo, best, 0);
            }
          }
        }
        MaxDone(b0, alpha, beta, lo, best);
        return best;
      } else {
        var best := Infinity;
        for i := 0 to 3
          invariant board == b0 && lo == alpha
          invariant MinScanned(b0, i, 0, alpha, beta, hi, best)
        {
          for j := 0 to 3
            invariant board == b0 && lo == alpha
            invariant MinScanned(b0, i, j, alpha, beta, hi, best)
          {
            if board[i][j] == Empty {
              PlaceCountsDown(b0, i, j, Mark(Player));
              board := Place(board, i, j, Mark(Player));
              var value := Minimax(true, lo, hi);
              PlaceUndo(b0, i, j, Mark(Player));
              board := Place(board, i, j, Empty);
              MinStep(b0, i, j, alpha, beta, hi, best, value);
              best := Min(best, value);
              hi := Min(hi, best);
              if hi <= lo {
                return best;
              }
            } else {
              MinStep(b0, i, j, alpha, beta, hi, best, 0);
            }
          }
        }
        MinDone(b0, alpha, beta, hi, best);
        return best;
      }
    }

    /** best_move_for_ai: tries every empty cell for the AI, searches the
        reply with the full window, writes EMPTY back, and keeps the first
        cell with a strictly greater value. (-1, -1) iff no cell is EMPTY;
        the board is left as it was. */
    method BestMoveForAi() returns (move: (int, int))
      modifies this`board
      ensures board == old(board)
      ensures move == (-1, -1) <==> !FreeCellsExist(board)
      ensures move != (-1, -1) ==> IsBestMove(board, move.0, move.1)
    {
      ghost var b0 := board;
      FreeCellsExistIff(b0);
      var bestVal := -Infinity;
      move := (-1, -1);
      for i := 0 to 3
        invariant board == b0
        invariant Kept(b0, i, 0, move, bestVal)
      {
        for j := 0 to 3
          invariant board == b0
          invariant Kept(b0, i, j, move, bestVal)
        {
          KeptStep(b0, i, j, move, bestVal);
          if board[i][j] == Empty {
            board := Place(board, i, j, Mark(Ai));
            var value := Minimax(false, -Infinity, Infinity);
            PlaceUndo(b0, i, j, Mark(Ai));
            board := Place(board, i, j, Empty);
            if value > bestVal {
              bestVal, move := value, (i, j);
            }
          }
        }
      }
    }

    /** player_move: succeeds iff it is the player's turn and (i, j) is
        EMPTY; then exactly that cell gets the player's mark and the turn
        passes to the AI. Otherwise nothing changes. */
    method PlayerMove(i: int, j: int) returns (ok: bool)
      requires 0 <= i < 3 && 0 <= j < 3
      modifies this
      ensures ok <==> old(turn) == Player && old(board)[i][j] == Empty
      ensures ok ==> board == Place(old(board), i, j, Mark(Player)) && turn == Ai
      ensures !ok ==> board == old(board) && turn == old(turn)
    {
      if turn == Player && board[i][j] == Empty {
        board := Place(board, i, j, Mark(Player));
        turn := Ai;
        return true;
      }
      return false;
    }

    /** ai_move: does nothing unless it is the AI's turn. Then it marks the
        chosen cell for the AI, if any cell is EMPTY, and passes the turn to
        the player in every case. */
    method AiMove()
      modifies this
      ensures old(turn) != Ai ==> board == old(board) && turn == old(turn)
      ensures old(turn) == Ai ==> turn == Player
      ensures old(turn) == Ai && !FreeCellsExist(old(board)) ==> board == old(board)
      ensures old(turn) == Ai && FreeCellsExist(old(board)) ==>
        exists i: Coord, j: Coord :: IsBestMove(old(board), i, j) && board == Place(old(board), i, j, Mark(Ai))
    {
      if turn == Ai {
        var move := BestMoveForAi();
        var (i, j) := move;
        if i != -1 {
          board := Place(board, i, j, Mark(Ai));
        }
        turn := Player;
      }
    }
  }
}
