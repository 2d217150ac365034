# Tic-Tac-Toe with a minimax opponent, modelled in Dafny

This project models `game.py`'s `TicTacToeGame` without its tkinter view. Two
players, X for the human and O for the computer, place marks on a 3x3 board.
The computer chooses its reply by a fixed-depth minimax search that writes
marks into the board and clears them again.

The model has three modules.

- `Board` (`board.dfy`) holds the board as a value, a `Grid` of `Cell`s
  (`Empty`, `X`, `O`). It defines:
  - the eight winning lines;
  - the terminal tests `Wins`, `Full` and `Over`;
  - the static score `Value`;
  - the possible moves `Moves`, the empty cells in row-major order;
  - cell counts;
  - `Place`, which writes one cell.
- `Search` (`search.dfy`) is the decision engine as pure functions:
  - `Minimax`, with its two loops `MaxOver` and `MinOver`;
  - `Score`, the value `get_best_move` gives a candidate: X placed there,
    then `minimax(3, False)`;
  - `BestMove`, the `get_best_move` loop, which keeps a candidate only if
    its score is strictly greater;
  - the lemmas saying what these compute.
- `Game` (`game.dfy`) holds:
  - `Play`, a pure function with the meaning of `make_move`, together with
    the invariants of play;
  - the class `TicTacToeGame`, with the fields `board`, an `array2<Cell>`,
    and `currentPlayer`.

The methods of `TicTacToeGame` do what the Python does, step by step:

- `Minimax` writes a mark into the array, searches below it and clears the
  cell again;
- `GetBestMove` runs the same write, search and clear loop;
- `MakeMove` places a mark and recurses once for the computer's reply.

Each method is proved to return the value of its pure counterpart, and the
search methods are proved to leave the array exactly as they found it.

`Cells()` reads the array as a `Grid`. The pure functions and the lemmas
talk about that value.

Points where the model follows the code:

- `get_best_move` places **X** at each candidate and then calls
  `minimax(3, False)` (game.py:146-147), even though the computer plays O.
  The model keeps this. `Score` is defined that way, and `BestMoveSpec`
  states the choice in terms of it.
- The chosen move is the first candidate of greatest score in row-major
  order, because the comparison at game.py:149 is a strict `>`.
- `game.py` has no error results. A move on an occupied cell is silently
  ignored (game.py:39). Coordinates are never checked (they come from the
  fixed button grid, game.py:20-22). The model follows this:
  - an occupied cell is a no-op;
  - coordinates have the type `Coord` (0..2).
- `check_game_status` (game.py:54-65) decides exactly what `is_game_over`
  (game.py:97-99) decides; apart from that it only displays the outcome.
  `MakeMove` therefore uses `IsGameOver`.

## Model

| member | source | states |
|---|---|---|
| Board.Place | game.py:41 | writing cell p sets p to the given cell value and leaves every other cell as it was |
| Board.PlaceUndo | game.py:125-127 | writing a mark and then writing back the old content restores the board exactly (the apply/undo pair of the search) |
| Board.Value | game.py:154-161 | the static score is always -1, 0 or 1 |
| Board.WinsIffLine | game.py:67-79 | a player wins exactly when some row, some column, the main diagonal or the anti-diagonal holds three of their marks |
| Board.PlaceNoNewLine | game.py:41 | placing one player's mark never completes a line for the other player |
| Board.NoDoubleWin | game.py:41-43 | from a board where nobody has a line, one placement cannot give both players a line |
| Board.MovesExact | game.py:107-114 | the possible moves are exactly the empty cells, in strictly increasing row-major order, so each appears once |
| Board.MovesOrder | game.py:110-113 | two moves appear in the list in the row-major order of their cells |
| Board.MoveIsEmpty | game.py:112-113 | every listed move is an empty cell |
| Board.FullIffNoMoves | game.py:81-83 | the board is full exactly when there is no possible move |
| Board.MovesCount | game.py:107-114 | the number of possible moves is the number of empty cells, and it plus the occupied cells is 9 |
| Board.PlaceCounts | game.py:41 | a placement on an empty cell raises that mark's count by one, lowers the empty count by one and keeps the other mark's count |
| Board.PlaceShrinksMoves | game.py:41-47 | each real placement removes exactly one possible move, which bounds make_move's recursion |
| Search.NotOverHasMoves | game.py:118-123 | a board that is not over has a possible move |
| Search.MinimaxRange | game.py:116-138 | every minimax value is -1, 0 or 1; the infinite starting values never escape |
| Search.MaxOverIsMax | game.py:121-129 | the max_eval loop ends at a value at least its start and at least every move's score, and equal to the start or to one of those scores |
| Search.MinOverIsMin | game.py:130-138 | the min_eval loop ends at a value at most its start and at most every move's score, and equal to the start or to one of those scores |
| Search.MaximizingIsMax | game.py:118-129 | away from a terminal board or depth 0, minimax with X to place is the maximum of the child values over all empty cells, and some empty cell attains it |
| Search.MinimizingIsMin | game.py:118-138 | away from a terminal board or depth 0, minimax with O to place is the minimum of the child values over all empty cells, and some empty cell attains it |
| Search.ScoresAt | game.py:144-147 | the k-th score is the score of the k-th candidate |
| Search.PickKeeps | game.py:149-151 | if no later score beats the best so far, the best move stays |
| Search.PickFirstMax | game.py:144-152 | if some score beats the best so far, the loop returns the move of the first greatest score |
| Search.BestMoveSpec | game.py:140-152 | get_best_move returns None exactly when no move exists; otherwise an empty cell whose score (X there, then minimax(3, False)) is the greatest over all empty cells, and every earlier cell in row-major order scores strictly less |
| Game.Other | game.py:49-51 | switching the player always gives the other mark |
| Game.PlayFrame | game.py:36-47 | make_move on an occupied cell changes nothing; on an empty cell that cell gets the current mark, no mark is ever overwritten, and at most one other cell changes, from empty to O |
| Game.PlayTurn | game.py:36-47 | after a placement the turn stays if the game is over; it passes O to X; from X it passes to O, whose reply is one O on the empty cell get_best_move chooses, and then the turn is X's unless the reply ended the game |
| Game.ResetConsistent | game.py:11-14 | the starting board with X to move is a consistent state |
| Game.PlaceConsistent | game.py:41 | a placement in a consistent ongoing game creates no double win and adds one to the mover's count |
| Game.PlayConsistent | game.py:36-47 | make_move keeps play consistent: nobody has a double win, and while the game goes on X is to move with both counts equal |
| Game.TicTacToeGame.constructor | game.py:11-14 | a fresh 3x3 array, every cell empty, X to move |
| Game.TicTacToeGame.CheckWin | game.py:67-79 | check_win(m) holds exactly when m has a line on the array |
| Game.TicTacToeGame.CheckTie | game.py:81-83 | check_tie holds exactly when the board is full, that is when there is no possible move |
| Game.TicTacToeGame.IsGameOver | game.py:97-99 | is_game_over is a win for X, a win for O or a full board |
| Game.TicTacToeGame.Evaluate | game.py:154-161 | the result is 1 exactly when X has a line, -1 exactly when O has one and X does not, 0 exactly when neither has one |
| Game.TicTacToeGame.GetPossibleMoves | game.py:107-114 | the nested loops build exactly Moves of the array, without changing it |
| Game.TicTacToeGame.SetCell | game.py:125 | one array write holds Place of the old board |
| Game.TicTacToeGame.TryMove | game.py:124-127 | placing a mark, searching and clearing returns the minimax value of the board with that mark, and leaves the array as it was |
| Game.TicTacToeGame.Minimax | game.py:116-138 | the in-place search returns the pure minimax value, evaluate() at a terminal board or depth 0, and leaves the array as it was |
| Game.TicTacToeGame.MaxEval | game.py:121-129 | the maximizing loop returns the pure max_eval fold over the possible moves, and leaves the array as it was |
| Game.TicTacToeGame.MinEval | game.py:130-138 | the minimizing loop returns the pure min_eval fold over the possible moves, and leaves the array as it was |
| Game.TicTacToeGame.MaxStep | game.py:124-128 | one turn of the maximizing loop advances the fold by one move and restores the array |
| Game.TicTacToeGame.MinStep | game.py:133-137 | one turn of the minimizing loop advances the fold by one move and restores the array |
| Game.TicTacToeGame.ScoreMove | game.py:145-148 | one turn of get_best_move's loop gives the candidate's score and restores the array |
| Game.TicTacToeGame.GetBestMove | game.py:140-152 | the in-place loop returns BestMove of the board (see Search.BestMoveSpec) and leaves the array as it was |
| Game.TicTacToeGame.SwitchPlayer | game.py:49-51 | the current player becomes the other mark |
| Game.TicTacToeGame.MakeMove | game.py:36-47 | the board and turn afterwards are those of Play on the board and turn before, the reply included |
| Game.TicTacToeGame.ResetGame | game.py:168-171 | a fresh empty 3x3 board with X to move |

## Left out

- The tkinter view is not modelled: the window, labels, buttons and fonts
  (game.py:1-8, 15-34), the label text in switch_player (52), show_winner
  and show_tie (85-95), disable_buttons (101-105), the button and label
  resets (165-167, 169-170), start_game with its main loop (174-176) and the
  entry point (179-182).
- check_game_status (game.py:54-65) is modelled by IsGameOver. Its
  display side effects are left out, as above.
- The button text test at game.py:39 is modelled as a test of the board
  cell. Button text and board are written together (40-41).
- `float('-inf')` and `float('inf')` (game.py:122, 131, 143) are only
  sentinels. They are modelled as the integers -2 and 2, below and above
  every real score (Search.MinimaxRange).
- `best_move = None` (game.py:142) is an `Option` result. It is proved to be
  `Some` whenever a move exists.
- Out-of-range coordinates are excluded by the `Coord` type (0..2) rather
  than given an error path. The Python never checks them.
- MakeMove keeps the source's recursion for the computer's reply. The
  recursion is bounded by the number of empty cells.
- A make_move call on a board that is already over still places on an
  empty cell, as the Python would. The user interface
  disables the buttons then, and the model does not capture that.
- The loop bodies of minimax and get_best_move are split into the helper
  methods MaxEval, MinEval, MaxStep, MinStep, ScoreMove and TryMove. Each one
  performs the same writes and clears in the same order.
