/** The game-tree values the engine's search computes: the plain (unpruned)
    minimax value of a board, the alpha-beta contract that relates a pruned
    result to it, and the choice of the AI's move. */
module Search {
  import opened Rules

  /** Stands for math.inf, the search's starting best value and its full
      window; any magnitude above 10 behaves alike. */
  const Infinity: int := 1000

  function Max(a: int, b: int): int { if a >= b then a else b }

  function Min(a: int, b: int): int { if a <= b then a else b }

  /** A value a finished game can have. */
  predicate IsScore(v: int) { v == 10 || v == 0 || v == -10 }

  /** The side whose mark is tried at a maximizing (AI) or minimizing
      (player) node. */
  function Mover(maximizing: bool): Side { if maximizing then Ai else Player }

  /** The search stops at a decided board or at a full one. */
  predicate Terminal(b: Board) { Score(b) != 0 || !FreeCellsExist(b) }

  /** Cell (r, c) comes before cell (i, j) in row-major order; (i, 3) and
      (i + 1, 0) both mean "all of row i and the rows above it". */
  predicate Before(r: int, c: int, i: int, j: int) { r < i || (r == i && c < j) }

  /** The plain minimax value of b: the score at a terminal board; otherwise
      the maximum over AI placements (maximizing) or the minimum over player
      placements of the value with the other side to move. No depth
      discount. */
  function Value(b: Board, maximizing: bool): int
    decreases EmptyCount(b), 1, 0, 0
  {
    if Terminal(b) then Score(b) else Extremum(b, maximizing, 3, 0)
  }

  /** The maximum (or minimum) of the children's values over the empty cells
      before (i, j), starting from -Infinity (or +Infinity). */
  function Extremum(b: Board, maximizing: bool, i: nat, j: nat): int
    requires (i < 3 && j <= 3) || (i == 3 && j == 0)
    decreases EmptyCount(b), 0, i, j
  {
    if j == 0 then
      if i == 0 then (if maximizing then -Infinity else Infinity)
      else Extremum(b, maximizing, i - 1, 3)
    else
      var prev := Extremum(b, maximizing, i, j - 1);
      if b[i][j - 1] != Empty then prev
      else
        PlaceCountsDown(b, i, j - 1, Mark(Mover(maximizing)));
        var v := Value(Place(b, i, j - 1, Mark(Mover(maximizing))), !maximizing);
        if maximizing then Max(prev, v) else Min(prev, v)
  }

  /** The value of trying cell (r, c) for the side to move. */
  function ChildValue(b: Board, maximizing: bool, r: Coord, c: Coord): int
  {
    Value(Place(b, r, c, Mark(Mover(maximizing))), !maximizing)
  }

  /** Extremum is an upper (maximizing) or lower (minimizing) bound of the
      value of every empty cell before (i, j). */
  lemma {:induction false} ExtremumBound(b: Board, maximizing: bool, i: nat, j: nat, r: Coord, c: Coord)
    requires (i < 3 && j <= 3) || (i == 3 && j == 0)
    requires Before(r, c, i, j) && b[r][c] == Empty
    decreases i, j
    ensures maximizing ==> ChildValue(b, maximizing, r, c) <= Extremum(b, maximizing, i, j)
    ensures !maximizing ==> ChildValue(b, maximizing, r, c) >= Extremum(b, maximizing, i, j)
  {
    if j == 0 {
      ExtremumBound(b, maximizing, i - 1, 3, r, c);
    } else if r != i || c != j - 1 {
      ExtremumBound(b, maximizing, i, j - 1, r, c);
    }
  }

  /** Extremum is the least such bound: any bound of the starting value and
      of every empty cell's value before (i, j) bounds Extremum too. */
  lemma {:induction false} ExtremumLeast(b: Board, maximizing: bool, i: nat, j: nat, bound: int)
    requires (i < 3 && j <= 3) || (i == 3 && j == 0)
    requires maximizing ==> -Infinity <= bound
    requires !maximizing ==> Infinity >= bound
    requires forall r: Coord, c: Coord | Before(r, c, i, j) && b[r][c] == Empty ::
      if maximizing then ChildValue(b, maximizing, r, c) <= bound
      else ChildValue(b, maximizing, r, c) >= bound
    decreases i, j
    ensures maximizing ==> Extremum(b, maximizing, i, j) <= bound
    ensures !maximizing ==> Extremum(b, maximizing, i, j) >= bound
  {
    if j == 0 {
      if i > 0 {
        ExtremumLeast(b, maximizing, i - 1, 3, bound);
      }
    } else {
      ExtremumLeast(b, maximizing, i, j - 1, bound);
    }
  }

  /** Every minimax value is 10, 0 or -10. */
  lemma {:induction false} ValueRange(b: Board, maximizing: bool)
    decreases EmptyCount(b), 1, 0, 0
    ensures IsScore(Value(b, maximizing))
  {
    ScoreMeaning(b);
    if !Terminal(b) {
      FreeCellsExistIff(b);
      var i, j :| 0 <= i < 3 && 0 <= j < 3 && b[i][j] == Empty;
      PlaceCountsDown(b, i, j, Mark(Mover(maximizing)));
      ValueRange(Place(b, i, j, Mark(Mover(maximizing))), !maximizing);
      ExtremumRange(b, maximizing, 3, 0);
      ExtremumBound(b, maximizing, 3, 0, i, j);
    }
  }

  /** Extremum is still its starting value or is a game value. */
  lemma {:induction false} ExtremumRange(b: Board, maximizing: bool, i: nat, j: nat)
    requires (i < 3 && j <= 3) || (i == 3 && j == 0)
    decreases EmptyCount(b), 0, i, j
    ensures Extremum(b, maximizing, i, j) == (if maximizing then -Infinity else Infinity)
         || IsScore(Extremum(b, maximizing, i, j))
  {
    if j == 0 {
      if i > 0 {
        ExtremumRange(b, maximizing, i - 1, 3);
      }
    } else {
      ExtremumRange(b, maximizing, i, j - 1);
      if b[i][j - 1] == Empty {
        PlaceCountsDown(b, i, j - 1, Mark(Mover(maximizing)));
        ValueRange(Place(b, i, j - 1, Mark(Mover(maximizing))), !maximizing);
      }
    }
  }

  /** The alpha-beta contract of a fail-soft search with window
      (alpha, beta): a result at or below alpha bounds the exact value from
      above, one at or above beta bounds it from below, and one strictly
      inside the window is the exact value. */
  predicate FailSoft(v: int, alpha: int, beta: int, exact: int)
  {
    (v <= alpha ==> exact <= v) &&
    (v >= beta ==> exact >= v) &&
    (alpha < v < beta ==> exact == v)
  }

  /** What a maximizing alpha-beta node knows after scanning the cells before
      (i, j) of b without a cut: `best` is the greatest result so far (the
      sentinel until an empty cell is met), `lo` the raised alpha, and, when
      the window (alpha, beta) is not empty, `best` bounds the children's
      exact maximum so far from above and equals it once above alpha. */
  predicate MaxScanned(b: Board, i: nat, j: nat, alpha: int, beta: int, lo: int, best: int)
    requires (i < 3 && j <= 3) || (i == 3 && j == 0)
  {
    lo == (if best == -Infinity then alpha else Max(alpha, best)) &&
    (best == -Infinity || IsScore(best)) &&
    (best == -Infinity ==> forall r: Coord, c: Coord | Before(r, c, i, j) :: b[r][c] != Empty) &&
    (alpha < beta ==> lo < beta && Extremum(b, true, i, j) <= best) &&
    (alpha < beta && best > alpha ==> Extremum(b, true, i, j) == best)
  }

  /** One cell of a maximizing node: an occupied cell changes nothing; an
      empty one whose search met the alpha-beta contract in the window
      (lo, beta) either causes a cut whose result meets the contract for the
      whole node, or leaves the scan consistent one cell further on. */
  lemma MaxStep(b: Board, i: Coord, j: Coord, alpha: int, beta: int, lo: int, best: int, value: int)
    requires !Terminal(b)
    requires MaxScanned(b, i, j, alpha, beta, lo, best)
    requires IsScore(value)
    requires b[i][j] == Empty ==> (lo < beta ==> FailSoft(value, lo, beta, ChildValue(b, true, i, j)))
    ensures b[i][j] != Empty ==> MaxScanned(b, i, j + 1, alpha, beta, lo, best)
    ensures b[i][j] == Empty && beta <= Max(lo, Max(best, value)) ==>
      IsScore(Max(best, value)) &&
      (alpha < beta ==> FailSoft(Max(best, value), alpha, beta, Value(b, true)))
    ensures b[i][j] == Empty && beta > Max(lo, Max(best, value)) ==>
      MaxScanned(b, i, j + 1, alpha, beta, Max(lo, Max(best, value)), Max(best, value))
  {
    if b[i][j] == Empty {
      ExtremumBound(b, true, 3, 0, i, j);
    }
  }

  /** A maximizing node that scanned every cell without a cut returns a game
      value that meets the alpha-beta contract. */
  lemma MaxDone(b: Board, alpha: int, beta: int, lo: int, best: int)
    requires !Terminal(b)
    requires MaxScanned(b, 3, 0, alpha, beta, lo, best)
    ensures IsScore(best)
    ensures alpha < beta ==> FailSoft(best, alpha, beta, Value(b, true))
  {
    FreeCellsExistIff(b);
  }

  /** The minimizing counterpart of MaxScanned: `best` is the least result
      so far and `hi` the lowered beta. */
  predicate MinScanned(b: Board, i: nat, j: nat, alpha: int, beta: int, hi: int, best: int)
    requires (i < 3 && j <= 3) || (i == 3 && j == 0)
  {
    hi == (if best == Infinity then beta else Min(beta, best)) &&
    (best == Infinity || IsScore(best)) &&
    (best == Infinity ==> forall r: Coord, c: Coord | Before(r, c, i, j) :: b[r][c] != Empty) &&
    (alpha < beta ==> alpha < hi && Extremum(b, false, i, j) >= best) &&
    (alpha < beta && best < beta ==> Extremum(b, false, i, j) == best)
  }

  /** One cell of a minimizing node (see MaxStep). */
  lemma MinStep(b: Board, i: Coord, j: Coord, alpha: int, beta: int, hi: int, best: int, value: int)
    requires !Terminal(b)
    requires MinScanned(b, i, j, alpha, beta, hi, best)
    requires IsScore(value)
    requires b[i][j] == Empty ==> (alpha < hi ==> FailSoft(value, alpha, hi, ChildValue(b, false, i, j)))
    ensures b[i][j] != Empty ==> MinScanned(b, i, j + 1, alpha, beta, hi, best)
    ensures b[i][j] == Empty && Min(hi, Min(best, value)) <= alpha ==>
      IsScore(Min(best, value)) &&
      (alpha < beta ==> FailSoft(Min(best, value), alpha, beta, Value(b, false)))
    ensures b[i][j] == Empty && Min(hi, Min(best, value)) > alpha ==>
      MinScanned(b, i, j + 1, alpha, beta, Min(hi, Min(best, value)), Min(best, value))
  {
    if b[i][j] == Empty {
      ExtremumBound(b, false, 3, 0, i, j);
    }
  }

  /** A minimizing node that scanned every cell without a cut (see MaxDone). */
  lemma MinDone(b: Board, alpha: int, beta: int, hi: int, best: int)
    requires !Terminal(b)
    requires MinScanned(b, 3, 0, alpha, beta, hi, best)
    ensures IsScore(best)
    ensures alpha < beta ==> FailSoft(best, alpha, beta, Value(b, false))
  {
    FreeCellsExistIff(b);
  }

  /** m is the cell the AI's move search has kept after scanning the cells
      before (i, j): an empty cell whose value is maximal among them, and
      strictly greater than that of every empty cell before it. */
  predicate FirstBestBefore(b: Board, i: int, j: int, m: (int, int))
  {
    0 <= m.0 < 3 && 0 <= m.1 < 3 && Before(m.0, m.1, i, j) && b[m.0][m.1] == Empty &&
    (forall r: Coord, c: Coord | Before(r, c, i, j) && b[r][c] == Empty ::
       ChildValue(b, true, r, c) <= ChildValue(b, true, m.0, m.1)) &&
    (forall r: Coord, c: Coord | Before(r, c, m.0, m.1) && b[r][c] == Empty ::
       ChildValue(b, true, r, c) < ChildValue(b, true, m.0, m.1))
  }

  /** What the AI's move search knows after scanning the cells before (i, j):
      either it has met no empty cell and still holds the sentinel, or it
      holds the first best cell so far together with that cell's value. */
  predicate Kept(b: Board, i: int, j: int, move: (int, int), bestVal: int)
  {
    (move == (-1, -1) && bestVal == -Infinity &&
     forall r: Coord, c: Coord | Before(r, c, i, j) :: b[r][c] != Empty) ||
    (FirstBestBefore(b, i, j, move) && bestVal == ChildValue(b, true, move.0, move.1))
  }

  /** One step of the AI's move search: on an empty cell whose value beats
      the kept one strictly, that cell is kept instead; otherwise the kept
      cell stays, and the scan moves past (i, j). */
  lemma KeptStep(b: Board, i: Coord, j: Coord, move: (int, int), bestVal: int)
    requires Kept(b, i, j, move, bestVal)
    ensures b[i][j] != Empty ==> Kept(b, i, j + 1, move, bestVal)
    ensures b[i][j] == Empty && ChildValue(b, true, i, j) > bestVal ==> Kept(b, i, j + 1, (i, j), ChildValue(b, true, i, j))
    ensures b[i][j] == Empty && ChildValue(b, true, i, j) <= bestVal ==> Kept(b, i, j + 1, move, bestVal)
  {
    ValueRange(Place(b, i, j, Mark(Ai)), false);
    if b[i][j] == Empty && ChildValue(b, true, i, j) > bestVal {
      assert FirstBestBefore(b, i, j + 1, (i, j));
    }
  }

  /** (i, j) is the AI's move on b: the first empty cell, in row-major order,
      whose value is maximal. */
  predicate IsBestMove(b: Board, i: int, j: int)
  {
    FirstBestBefore(b, 3, 0, (i, j))
  }

  /** The chosen move is unique. */
  lemma BestMoveUnique(b: Board, i: int, j: int, i': int, j': int)
    requires IsBestMove(b, i, j) && IsBestMove(b, i', j')
    ensures i == i' && j == j'
  {
  }

  /** On an undecided board the chosen move keeps the minimax value: the
      board it leads to has, with the player to move, the value the AI
      could secure before moving. */
  lemma BestMoveKeepsValue(b: Board, i: Coord, j: Coord)
    requires !Terminal(b) && IsBestMove(b, i, j)
    ensures Value(Place(b, i, j, Mark(Ai)), false) == Value(b, true)
  {
    ExtremumBound(b, true, 3, 0, i, j);
    ValueRange(Place(b, i, j, Mark(Ai)), false);
    ExtremumLeast(b, true, 3, 0, ChildValue(b, true, i, j));
  }
}
