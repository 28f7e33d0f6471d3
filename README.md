# Tic-tac-toe engine with alpha-beta minimax, modelled in Dafny

This project models the game-logic engine of a human-versus-computer
tic-tac-toe game: the `TicTacToe` class of `logic.py`. The engine owns a 3×3
board of cells and a turn indicator. It scores a board by scanning its eight
lines, detects free cells and the game's result, and chooses the computer's
move by a minimax search with alpha-beta pruning. The search marks the board
in place, recurses, and writes EMPTY back.

Files:

- `rules.dfy` (module `Rules`): sides, cells and the board. Also the line
  table in the engine's scan order, the score, free-cell detection, the
  count of empty cells, and the lemmas about them.
- `search.dfy` (module `Search`): the plain (unpruned) minimax value
  `Value`, the fail-soft alpha-beta contract `FailSoft`, and the
  characterisation `IsBestMove` of the AI's move choice. It also holds the
  loop-step lemmas used by the search methods.
- `game.dfy` (module `Game`): the class `TicTacToe`, with the fields `board`
  and `turn`. Its constructor and methods are `Reset`, `ScorePosition`,
  `Winner`, `Minimax`, `BestMoveForAi`, `PlayerMove` and `AiMove`.

Modelling choices:

- The board is a list of three rows of three cells, as in the source. It is
  a field of type `Board` (a subset type of `seq<seq<Cell>>`). Marking and
  unmarking a cell reassigns that field with `Place`.
- A cell is `Empty` or `Mark(side)`. The turn is a `Side`, `Player` or `Ai`.
  `winner()`'s `'O'`, `'X'`, `"DRAW"` and `None` become `Won(Ai)`,
  `Won(Player)`, `Draw` and `Ongoing`.
- `math.inf` is the integer constant `Infinity` (1000). The search only uses
  it as a sentinel and as the full window, and every game value lies in
  -10..10.
- `Minimax` is proved against `Value`. On every exit, pruning cuts
  included, it restores the board. It returns 10, 0 or -10. For any
  non-empty window it meets the fail-soft alpha-beta contract against
  `Value`, and with the full window it returns `Value` exactly.
- The scan order matters when lines of both sides are complete at once.
  A single move cannot complete lines of both sides, so a game that stops
  at its first win never reaches such a board. The code scans rows, then
  columns, then the main diagonal, then the anti-diagonal, and the first
  complete line decides.
  The model follows the code: `ScoreFirstLine`.
- The engine does not refuse moves once the game is decided. The model keeps
  that: `PlayerMove` and `AiMove` do not look at the result.

## Model

| member | source | states |
|---|---|---|
| Game.TicTacToe.constructor | logic.py:15-19 | a new engine has all nine cells EMPTY and the given side to move |
| Game.TicTacToe.Reset | logic.py:24-26 | after a reset all nine cells are EMPTY and the given side is to move |
| Rules.FreeCellsExistIff | logic.py:28-30 | free cells exist iff some cell (i, j) is EMPTY, iff the count of EMPTY cells is positive |
| Game.TicTacToe.ScorePosition | logic.py:35-60 | the scan over rows, columns, main diagonal and anti-diagonal returns the score of the first complete line (10 for the AI, -10 for the player), else 0; only 10, -10 or 0 |
| Rules.ScoreMeaning | logic.py:35-60 | the score is 10, -10 or 0; 10 means the AI has three in a row, -10 the player; 0 iff neither has; if exactly one side has three in a row, the score is that side's |
| Rules.ScoreFirstLine | logic.py:44-58 | when the k-th line in scan order is the first complete one, it alone decides the score |
| Rules.ScanFound | logic.py:44-60 | the scan from line k returns 0 iff no later line is complete, otherwise the score of a complete later line |
| Rules.CompleteLineIsThree | logic.py:44-58 | each line the scan accepts is a genuine row, column or diagonal of three equal marks |
| Rules.ThreeIsCompleteLine | logic.py:44-58 | every row, column or diagonal of three equal marks is one of the eight lines scanned |
| Game.TicTacToe.Winner | logic.py:62-74 | the AI has won iff the score is 10, the player iff -10, a draw iff the score is 0 and no cell is EMPTY, otherwise the game goes on; a reported winner has three in a row; it reads the board only |
| Rules.PlaceCountsDown | logic.py:89-90 | marking an EMPTY cell lowers the count of EMPTY cells by one, which bounds the recursion depth |
| Rules.PlaceUndo | logic.py:90-92 | writing EMPTY back over the mark just placed restores the board exactly |
| Game.TicTacToe.Minimax | logic.py:79-108 | the board is unchanged on every exit, pruning returns included; the result is 10, 0 or -10; for alpha < beta it meets the fail-soft alpha-beta contract against the plain minimax value; with the full window it equals that value |
| Search.ValueRange | logic.py:79-108 | the plain minimax value of every board is 10, 0 or -10 |
| Search.ExtremumRange | logic.py:86-108 | the running maximum (minimum) over children is still the sentinel or is a game value |
| Search.ExtremumBound | logic.py:87-96 | the running maximum (minimum) bounds the value of every empty cell already tried |
| Search.ExtremumLeast | logic.py:87-96 | the running maximum (minimum) is the least such bound |
| Search.MaxStep | logic.py:85-96 | one cell of the AI branch: a cut returns a result that meets the alpha-beta contract for the whole node; otherwise the running best, raised alpha and exact maximum stay related |
| Search.MaxDone | logic.py:96 | the AI branch, finished without a cut, returns a game value that meets the alpha-beta contract |
| Search.MinStep | logic.py:97-108 | one cell of the player branch, symmetric to MaxStep with beta lowered |
| Search.MinDone | logic.py:108 | the player branch, finished without a cut, returns a game value that meets the alpha-beta contract |
| Game.TicTacToe.BestMoveForAi | logic.py:110-122 | the board is unchanged; the result is (-1, -1) iff no cell is EMPTY, otherwise the first EMPTY cell in row-major order whose full-window minimax value is maximal |
| Search.KeptStep | logic.py:114-121 | one cell of the move search: a strictly greater value replaces the kept cell, an equal or smaller one keeps it, so the first maximal cell survives |
| Search.BestMoveUnique | logic.py:120-121 | at most one cell meets the best-move characterisation |
| Search.BestMoveKeepsValue | logic.py:110-122 | on an undecided board the chosen cell leads to a board whose value, with the player to move, is the minimax value the AI had before moving |
| Game.TicTacToe.PlayerMove | logic.py:127-133 | succeeds iff it is the player's turn and (i, j) is EMPTY; on success exactly that cell gets the player's mark and the turn passes to the AI; on failure nothing changes |
| Game.TicTacToe.AiMove | logic.py:135-141 | nothing changes unless it is the AI's turn; then the turn passes to the player, and the AI's mark is put on the best-move cell if some cell is EMPTY, otherwise the board stays as it was |

## Left out

- gui.py is not part of this model. It is the Tkinter window, its buttons and labels, and the timed scheduling of the AI's move, and it only forwards to the engine's operations.
- Marks and turns as strings: cells and turns are datatypes, so a `starter` other than the two sides cannot be expressed.
- Game.TicTacToe.PlayerMove: requires 0 <= i, j < 3. Python's negative-index wrap-around and `IndexError` on other coordinates are not modelled.
- Game.TicTacToe.constructor, Game.TicTacToe.Reset: the default `starter=PLAYER` is not modelled; callers pass the side.
- Game.TicTacToe.Minimax: the default arguments `alpha=-inf, beta=inf` are not modelled; callers pass the window. For a window with alpha >= beta, which the engine never passes, the contract says only that the result is a game value and the board is restored.
- Floating point: `math.inf` is the integer `Infinity`, which behaves the same because all game values lie in -10..10.
- The board's rows as shared mutable Python lists (aliasing by a caller holding `game.board`) are not modelled: the board is a value reassigned on every write.
- The theorem that the AI never loses against any play is not proved. `BestMoveKeepsValue` states the one-move version: the AI's choice keeps the minimax value.
- Pruning effectiveness and running time are not modelled.
