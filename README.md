# Tic-tac-toe game state and minimax search, modelled in Dafny

This project models the `TicTacToe` class of a small command-line noughts-and-crosses
game. The class owns a 3x3 grid of cells (blank, `X` or `O`) and the player whose turn
it is. It places marks, switches the turn, detects a completed line and a full grid, and
lets the computer (always `O`) pick its move by exhaustive minimax search. In that search
O maximises, X minimises, and a position scores 1, -1 or 0. The search runs on the one
shared grid: it marks a cell, recurses, then blanks the cell again.

Layout:

- `board.dfy`, module `TicTacToeBoard`: the pure part of the class. `Mark`, `Player`,
  `Board` (nine cells, row-major, cell (row, col) at `3 * row + col`), the line test
  `Wins` (check_winner), the full-grid test `IsFull` (check_tie), the fresh grid
  `InitialBoard` (initialize_board), the turn change `Other` and `Move`, which gives the
  grid after a move as a value. `WinningLines` is an independent list of the eight lines,
  and `Wins` is proved equal to it.
- `search.dfy`, module `MinimaxSearch`: the meaning of the search, as functions over
  `Board`. `Value(b, maximizing)` is what `minimax` returns. `Scan` is its row-major loop
  over the cells, tail-recursive, and mutually recursive with `Value`; it terminates
  because each placement removes one blank. `CellScores` is the score `best_move`
  computes for each cell; `BestFrom`/`BestMove` is its loop over those scores, and
  `ChoiceSoFar` says what its running score and move mean. The lemmas prove the score range, the base-case order, that the result is
  the max/min over the blank cells, and the tie-break of `best_move`.
- `game.dfy`, module `TicTacToeGame`: class `Game`, with the grid held in place in an
  `array<Mark>` of length 9 and the turn marker `currentPlayer`. `MakeMove` and
  `SwitchPlayer` update them. `Minimax` is a recursive method and `BestMove` calls it;
  both have nested `row`/`col` loops that mark a cell of the shared array, run
  `Minimax` on it and blank the cell again. Each promises that the
  array afterwards equals the array before the call, and that its result equals the
  matching function of `search.dfy`.
- `scenarios.dfy`, module `TicTacToeScenarios`: the positions of the repository's unit
  tests, as lemmas, plus client methods that drive a `Game` through the same steps.

The source's `-float('inf')` and `float('inf')` starting scores are only sentinels. Here
they are the integers `NegInf = -2` and `PosInf = 2`, which lie outside every score.
`ValueRange` proves that they never reach a result.

## Model

| member | source | states |
|---|---|---|
| TicTacToeBoard.InitialBoard | src/tictactoe.py:15-22 | the fresh grid has all nine cells blank, is not full, and holds no line for X or for O |
| TicTacToeGame.Game.constructor | src/tictactoe.py:8-13 | a new game holds a fresh array equal to the initial grid, and X is to play |
| TicTacToeBoard.WinsIffCompleteLine | src/tictactoe.py:32-52 | check_winner(p) is true iff one of the eight lines (3 rows, 3 columns, both diagonals), listed independently, has all three cells equal to p |
| TicTacToeBoard.WinsHasCompleteLine | src/tictactoe.py:42-52 | each early `return True` of check_winner (a row, a column, the diagonal, the anti-diagonal) comes from one of the eight lines |
| TicTacToeBoard.Wins | src/tictactoe.py:32-52 | check_winner itself: the three rows, the three columns, the diagonal and the anti-diagonal, tested in the source's order; the definition is the model, and WinsIffCompleteLine and WinsHasCompleteLine state what it means |
| TicTacToeBoard.IsFullIffNoBlank | src/tictactoe.py:54-61 | check_tie is true iff the number of blank cells is zero |
| TicTacToeBoard.IsFull | src/tictactoe.py:54-61 | check_tie itself: no cell holds the blank; the definition is the model, and IsFullIffNoBlank states what it means |
| TicTacToeBoard.EmptyCountPlace | src/tictactoe.py:106-108 | marking a blank cell leaves exactly one blank fewer, which is why the search terminates |
| TicTacToeBoard.Other | src/tictactoe.py:63-67 | the player after a switch is never the player before it |
| TicTacToeBoard.OtherTwice | src/tictactoe.py:67 | switching twice restores the original player |
| TicTacToeGame.Game.SwitchPlayer | src/tictactoe.py:63-67 | the turn marker becomes the other player and nothing else changes |
| TicTacToeBoard.Move | src/tictactoe.py:69-83 | a move succeeds iff the cell is blank; it then holds the player's mark, every other cell is unchanged, and one blank fewer remains |
| TicTacToeGame.Game.MakeMove | src/tictactoe.py:69-83 | returns true iff the cell was blank; on true the array is the grid Move gives for the current player, on false the array is unchanged; the turn marker is never changed |
| MinimaxSearch.Value | src/tictactoe.py:85-121 | minimax itself: the three base cases in order, otherwise the cell loop from the infinite start score; the definition is the model, and ValueBaseCases, ValueRange and ValueIsOptimal state what it means |
| MinimaxSearch.Scan | src/tictactoe.py:102-121 | the row-major cell loop of minimax: each blank cell is marked for the side to move, scored by the opponent's minimax, and folded in with max or min; the definition is the model, and ScanIsBest states what it means |
| MinimaxSearch.ValueBaseCases | src/tictactoe.py:95-100 | O's line gives 1; otherwise X's line gives -1; otherwise a full grid gives 0, in that order of precedence |
| MinimaxSearch.ScanIsBest | src/tictactoe.py:102-121 | the running best score of the cell loop is at least as good as its start and as every blank cell's score from there on, and equals one of them |
| MinimaxSearch.ValueRange | src/tictactoe.py:95-121 | minimax always returns -1, 0 or 1; the infinite start score never survives |
| MinimaxSearch.ValueIsOptimal | src/tictactoe.py:102-121 | away from the base cases, minimax returns the max (maximising) or min (minimising) of its blank cells' scores: no blank cell beats it and some blank cell attains it |
| TicTacToeGame.Game.Minimax | src/tictactoe.py:85-121 | the place/recurse/revert method leaves the array exactly as it found it and returns the value of the position it was given |
| MinimaxSearch.CellScores | src/tictactoe.py:134-137 | the score best_move computes for each cell: minimax(False) once O marks a blank cell, and none for a taken cell, which it skips; the definition is the model, and BestMoveIsFirstMaximal and BestMoveAttainsValue state what best_move does with these scores |
| MinimaxSearch.BestFrom | src/tictactoe.py:130-141 | the loop of best_move over those scores, replacing the running pair only on a strictly greater score; the definition is the model, and BestFromKeepsChoice states what it computes |
| MinimaxSearch.BestMove | src/tictactoe.py:123-141 | best_move itself: the loop from score -inf and no move over the grid's cell scores; the definition is the model, and BestMoveNoneIffFull, BestMoveIsFirstMaximal and BestMoveAttainsValue state what it returns |
| MinimaxSearch.ChoiceTake | src/tictactoe.py:134-140 | a blank cell whose score is strictly greater than the running best becomes the running choice, with its score |
| MinimaxSearch.NoneScoredStep | src/tictactoe.py:132-134 | a taken cell is skipped by the loop, so a scan in which every cell so far was taken stays that way |
| MinimaxSearch.FirstBestKeep | src/tictactoe.py:138-140 | a cell that does not score strictly more than the running best leaves the earlier best cell as the first maximal one |
| MinimaxSearch.ChoiceSkip | src/tictactoe.py:134-140 | a taken cell, or a blank cell whose score is not strictly greater, leaves the running choice and score as they were, so the earlier of two equal cells is kept |
| MinimaxSearch.BestFromKeepsChoice | src/tictactoe.py:130-141 | the running score and move of best_move's loop keep their meaning to the end: no move while no cell was blank, otherwise the first strictly best blank cell so far, with its score |
| MinimaxSearch.CellScoresAboveSentinel | src/tictactoe.py:130-138 | no cell's score is as low as the -inf start, so the first blank cell always replaces `None` |
| MinimaxSearch.ChoiceIsBestMove | src/tictactoe.py:130-141 | any scan result with that meaning is the move best_move returns: the meaning fixes the answer |
| MinimaxSearch.BestMoveNoneIffFull | src/tictactoe.py:130-141 | best_move returns None iff no cell is blank |
| MinimaxSearch.BestMoveIsFirstMaximal | src/tictactoe.py:132-141 | a returned cell was blank and its score after O marks it is maximal; every blank cell before it in row-major order scores strictly less (the strict `>` tie-break) |
| MinimaxSearch.BestMoveAttainsValue | src/tictactoe.py:102-141 | on a position that is not over, best_move returns a cell whose score equals minimax(True) of the position |
| TicTacToeGame.Game.BestMove | src/tictactoe.py:123-141 | the method leaves the array exactly as it found it and returns the move best_move specifies for the grid it was given; a returned cell is in range and was blank, so it can be passed to MakeMove; its loops keep the meaning of the running score and move |
| TicTacToeScenarios.NewGameScenario | tests/test_tictactoe.py:15-19 | a new Game's array holds nine blanks and X is to play |
| TicTacToeScenarios.SwitchPlayerScenario | tests/test_tictactoe.py:21-28 | switching a new Game's turn gives O, and switching again gives X |
| TicTacToeScenarios.CheckWinnerExample | tests/test_tictactoe.py:30-40 | on the grid with X's top row, X has won and O has not |
| TicTacToeScenarios.CheckTieExample | tests/test_tictactoe.py:42-53 | the drawn grid is full with no winner; blanking its top-left cell makes it not full |
| TicTacToeScenarios.ComputerMoveExample | tests/test_tictactoe.py:55-65 | with only the centre blank, best_move returns (1, 1) |
| TicTacToeScenarios.ComputerMoveScenario | tests/test_tictactoe.py:55-65 | Game.BestMove on the array with only the centre blank returns (1, 1) and leaves the array as it was |
| TicTacToeScenarios.MakeMoveScenario | tests/test_tictactoe.py:67-73 | on a new Game, X's move on (0, 0) succeeds and marks the cell; a second move there fails |

## Left out

- `display_board` (src/tictactoe.py:24-30) prints the grid. It is console output with no logic.
- `play` (src/tictactoe.py:143-179) is the interactive loop. It reads with `input()`,
  parses with `int()`, catches `ValueError` and prints. Its range check on row and column
  (line 160) becomes the precondition `row < 3 && col < 3` of `MakeMove` and `Move`, so
  Python's negative or out-of-range indexing is not modelled.
- `import random` (src/tictactoe.py:1) is unused.
- The grid is a nested Python list (`board[row][col]`). Here it is one array of nine
  cells in row-major order. Nothing in the source shares or aliases rows, so no
  behaviour is lost.
- The floating-point infinities are integer sentinels; no floating-point arithmetic is modelled.
- `check_winner` accepts any string. Here it accepts any `Mark`, blank included. The
  turn marker and every placed mark are restricted to the type `Player` (`X` or `O`),
  which the source keeps by construction.
- Grids on which both players have a line are not treated specially. As in the source,
  `minimax` checks O first and gives such a grid 1.
- Nothing is claimed about which move is optimal on the empty grid.
- `make_move` (src/tictactoe.py:69-83) places `current_player` and takes no player
  argument; so does `MakeMove`. On a full grid `best_move` returns `None` (line 131 sets
  `move = None`, line 141 returns it), and so does the model.
