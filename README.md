# Tic-tac-toe GameManager in Dafny

A model of the game logic of the Unity tic-tac-toe game `GameManager`. The
board is an `int[,]` in which 0 is an empty cell and 1 / -1 are the two sides.
The model covers:

- the two terminal-state queries, `CheckWinner` (three rows, three columns,
  two diagonals) and `IsBoardFull`;
- the minimax search, `Minimax`, which places speculative marks on the one
  shared board and clears them again;
- `GetBestMove`, which picks the computer's cell;
- the moves themselves: `PlayerMove`, `EnemyMove` and `InitializeBoard`.

The project has four modules:

- `Board` (board.dfy): the board as a value, `Grid = seq<seq<int>>`.
  `Winner` models CheckWinner: the first complete line in CheckWinner's own
  order. `IsFull` and `Empties` cover the full board and the number of empty
  cells. `HasLine` is an independent definition of "a side holds a line",
  which the lemmas relate to `Winner`.
- `Search` (search.dfy): the search as functions on board values.
  `MinimaxValue` is the score of a position. `SearchFrom` is the nested
  row-major loop over the empty cells. `BestMove` is the cell `GetBestMove`
  returns. The lemmas state what these compute: terminal scores, the best
  child, bounds, the first maximal cell, taking a win, blocking a loss.
- `Turns` (turns.dfy): one click of the human and the computer's reply, as
  functions from a board to the next board and an `Outcome`.
- `TicTacToe` (game_manager.dfy): the imperative model on `array2<int>`.
  `CheckWinner` and `IsBoardFull` scan the array. `Minimax` and `GetBestMove`
  write into the array and restore it. The class `GameManager` holds the
  board and the side flags. Each method is proved equal to the matching
  function above, through the ghost function `Cells` (the array's contents
  as a `Grid`).

Boards are `rows x cols` with `rows, cols >= 3`. The winner check reads only
rows and columns 0..2, and the model keeps that as written. On a 3x3 board it
is exactly the tic-tac-toe rule. On a larger board it looks only at the
top-left 3x3 block.

Behaviour of the code that the model keeps:

- `GetBestMove` scores a placement with `Minimax(state, 0, false, aiVal)` at
  depth 0, so an immediate win scores 10.
- A click on an occupied cell is silently ignored. No error is raised.
- No size check is made when the board is created.
- Any non-zero winner other than `aiVal` scores as a loss.

## Model

| member | source | states |
|---|---|---|
| Board.Place | Assets/Script/GameManager.cs:84 | Writing a mark changes exactly the one addressed cell and keeps the board's shape. |
| Board.PlaceUndo | Assets/Script/GameManager.cs:231-239 | Placing a mark and then writing the cell's earlier value back gives the original board, cell for cell. |
| Board.WinnerSpec | Assets/Script/GameManager.cs:269-290 | A non-zero result of the winner check is a side holding a complete row, column or diagonal of the 3x3 block. The result is 0 exactly when no non-zero value holds such a line. |
| Board.EmptyGridHasNoWinner | Assets/Script/GameManager.cs:269-290 | The all-zero board has no winner. |
| Board.CompletingFirstRowWins | Assets/Script/GameManager.cs:271-275 | Row 0 is checked first, so filling (0,2) next to two equal marks at (0,0) and (0,1) makes that side the winner, whatever else is on the board. |
| Board.PlaceWinner | Assets/Script/GameManager.cs:269-290 | On a board without a winner, placing `v` leaves either no winner or winner `v`. A move never makes the other side win. |
| Board.FullIffNoEmpties | Assets/Script/GameManager.cs:292-303 | The board is full exactly when its count of empty cells is 0. This count is the measure that makes the search terminate. |
| Search.MinimaxTerminal | Assets/Script/GameManager.cs:209-222 | On a board of 0/1/-1: a line held only by `aiVal` scores `10 - depth`; a line held only by `-aiVal` scores `depth - 10`; a full board with no line scores 0. |
| Search.SearchFromIsBest | Assets/Script/GameManager.cs:224-266 | The row-major scan ends at least as good as its start value and as every child it meets. Its result is the start value or one of those child scores. |
| Search.MinimaxIsBestChild | Assets/Script/GameManager.cs:224-266 | On a board with no winner that is not full, the score is the maximum (maximiser) or minimum (minimiser) of the child scores over all empty cells, and some empty cell attains it. The score lies strictly between int.MinValue and int.MaxValue, so a starting sentinel is never returned. |
| Search.MinimaxBounds | Assets/Script/GameManager.cs:207-267 | Every score lies within abs(10 - depth) + (number of empty cells) of 0. So int.MinValue / int.MaxValue never escape the search. |
| Search.MinimaxRange | Assets/Script/GameManager.cs:207-267 | When depth + (number of empty cells) <= 10, as in every 3x3 search, the score lies in [depth - 10, 10 - depth]. |
| Search.BestMoveSpec | Assets/Script/GameManager.cs:182-205 | `GetBestMove` returns (-1,-1) exactly when the board is full. Otherwise it returns an in-bounds empty cell whose score is the maximum over all empty cells, and it is the first such cell in row-major order. |
| Search.ScoreTenIsWin | Assets/Script/GameManager.cs:207-222 | At depth 0 with the human to move, a score of 10 means the computer has already won the position. Proved on boards with at most 10 empty cells, which includes every position GetBestMove scores on 3x3. |
| Search.BestMoveTakesWin | Assets/Script/GameManager.cs:182-205 | If some empty cell wins at once for the computer, the chosen cell also wins at once. Proved on boards with at most 11 empty cells, which includes every 3x3 board. |
| Search.BestMoveBlocks | Assets/Script/GameManager.cs:182-205 | If some empty cell leaves the human no immediate win, the chosen cell either wins at once or also leaves the human no immediate win. Proved on boards with at most 11 empty cells, which includes every 3x3 board. |
| Turns.VerdictSpec | Assets/Script/GameManager.cs:87-98 | After a move, `GameOver(w)` with w != 0 is reported only for a side holding a line. `GameOver(0)` is reported exactly when the board is full and no side has a line. Play goes on exactly when the board has an empty cell and no side has a line. |
| Turns.EnemyTurnSpec | Assets/Script/GameManager.cs:106-137 | The computer's move fills exactly one empty cell with `aiVal` and changes no other cell. It keeps a board of 0/1/-1 one. The outcome reported is `Verdict` of the new board. |
| Turns.PlayerTurnSpec | Assets/Script/GameManager.cs:67-104 | A click on an occupied cell changes nothing (`Ignored`). On an empty cell: that cell gets the human's value; filled cells never change; the only other change is the computer's reply, when there is one, which fills one empty cell with `aiVal`. So the empty count drops by 1, or by 2 with a reply. On an empty cell the outcome reported is `Verdict` of the final board. |
| TicTacToe.CheckWinner | Assets/Script/GameManager.cs:269-290 | The loop over i = 0..2 (row i, then column i) followed by the two diagonal checks returns `Winner` of the array's contents. |
| TicTacToe.IsBoardFull | Assets/Script/GameManager.cs:292-303 | The nested scan returns true exactly when no cell of the rows x cols array holds 0. |
| TicTacToe.Minimax | Assets/Script/GameManager.cs:207-267 | Returns `MinimaxValue` of the board on entry. On return the array equals its entry contents cell for cell, because every speculative mark is cleared after its recursive call. |
| TicTacToe.MinimaxRow | Assets/Script/GameManager.cs:229-241 | The inner `for c` loop of Minimax over row r: the array holds the same board afterwards, and the running best score it hands on is the one the row-major scan `SearchFrom` reaches at the start of row r + 1. |
| TicTacToe.TryMark | Assets/Script/GameManager.cs:231-239 | One cell of Minimax's loops: the side to move fills the empty cell, the recursive call scores it, and the cell is cleared. The score is the child's minimax value, and the array again holds exactly the board it held before. |
| TicTacToe.GetBestMove | Assets/Script/GameManager.cs:182-205 | Returns `BestMove` of the board on entry, and leaves the array as it came. |
| TicTacToe.BestMoveInRow | Assets/Script/GameManager.cs:189-202 | The inner `for c` loop of GetBestMove over row r: the array holds the same board afterwards, and the best score and move it hands on are those the scan `BestMoveFrom` reaches at the start of row r + 1. |
| TicTacToe.ScoreMove | Assets/Script/GameManager.cs:191-195 | One cell of GetBestMove's loops: `aiVal` fills the empty cell, Minimax scores it from depth 0 with the human to move, and the cell is cleared. The score is that cell's `MoveScore`, and the array again holds exactly the board it held before. |
| TicTacToe.GameManager.constructor | Assets/Script/GameManager.cs:21-27 | Start: a fresh rows x cols array with every cell 0. |
| TicTacToe.GameManager.InitializeBoard | Assets/Script/GameManager.cs:169-180 | Every cell of the rows x cols board becomes 0. |
| TicTacToe.GameManager.EnemyMove | Assets/Script/GameManager.cs:106-137 | The new board and outcome are `EnemyTurn` of the old board, with `aiVal` = -1 when `isPlayerTurn`, else 1. |
| TicTacToe.GameManager.PlayerMove | Assets/Script/GameManager.cs:67-104 | The new board and outcome are `PlayerTurn` of the old board: occupied cell ignored; otherwise place, check winner, check full, then the enemy's move when `isEnemyTurn`. |

The pure functions these rows speak about model the source functions directly:
`Board.Winner` (CheckWinner, lines 269-290), `Board.IsFull` (IsBoardFull,
292-303), `Search.MinimaxValue` (Minimax, 207-267), `Search.BestMove`
(GetBestMove, 182-205), `Turns.Verdict` (the winner and full-board tests at
87-98 and 124-136), `Turns.EnemyTurn` (EnemyMove, 106-137) and
`Turns.PlayerTurn` (PlayerMove, 67-104). Each except `Turns.Verdict` is proved
equal to the matching `TicTacToe` method above. `Turns.Verdict` has no method
of its own: it is the outcome `EnemyMove` and `PlayerMove` report, proved as
part of those two methods, and `Turns.EnemyTurnSpec` / `Turns.PlayerTurnSpec`
state that the outcome is `Verdict` of the new board.

## Left out

- Tile.cs is not part of this model. It selects sprites and forwards mouse clicks to `PlayerMove`.
- `CreateBoard` is modelled only by its effect on the board: the constructor allocates a zero-filled array. Prefab instantiation, `Transform` parenting and float tile positions are presentation code.
- `SetSymbol` calls and the `result.text` strings are left out. `OnGameOver(w)` becomes the returned `Outcome` `GameOver(w)`. The delayed reset `Invoke(nameof(InitializeBoard), 1.5f)` belongs to the Unity scheduler, so calling `InitializeBoard` after a round is left to the caller.
- `isPlayerTurn` / `isEnemyTurn` are modelled as constants fixed at construction. The code never reassigns them.
- 32-bit arithmetic is not modelled: scores and depths are unbounded integers. `Valid()` requires `rows * cols <= int.MaxValue - 10`, so every score fits an int (`MinimaxBounds`). .NET cannot allocate a board larger than that anyway.
- Boards smaller than 3x3 are excluded by a precondition. The winner check indexes 0..2 unconditionally and would fail on them.
- `PlayerMove` requires an in-bounds cell. Tiles only pass their own coordinates; an out-of-range index would be a runtime exception.
- `EnemyMove` requires a board with an empty cell. Its only caller checks this first. On a full board, `GetBestMove` returns (-1,-1) and the write would throw.
- The maximising and minimising loops of `Minimax` are one loop in the model. The mark placed and the comparison depend on `isMaximizing`. Behaviour is unchanged.
- The inner loops of `Minimax` and `GetBestMove` are separate methods, `MinimaxRow` and `BestMoveInRow`. So are their per-cell steps, `TryMark` and `ScoreMove`.
- In `Minimax`, the model clears the cell before comparing the score, not after. The score and the board are unchanged by this.
- MinimaxRange: the bound [depth - 10, 10 - depth] is proved only when depth + (number of empty cells) <= 10. This covers every 3x3 search. On larger boards a terminal deeper than 10 makes `10 - depth` negative, so the code's scoring then ranks slow wins below draws; the model keeps that scoring as written.
- ScoreTenIsWin: proved only on boards with at most 10 empty cells, which includes every position GetBestMove scores on a 3x3 board. On larger boards the sign change above voids it.
- BestMoveTakesWin: proved only on boards with at most 11 empty cells. Every 3x3 board satisfies this. On larger boards the sign change above voids it.
- BestMoveBlocks: proved only on boards with at most 11 empty cells. Every 3x3 board satisfies this. On larger boards the sign change above voids it.
- Whole-game claims are not proved: "optimal against optimal from the empty board is a draw", "the reply to (0,0) is (1,1)". They need the full game tree evaluated inside the verifier.
- Determinism needs no lemma: every search result is a function of the board, the depth, the side to move and `aiVal`.
