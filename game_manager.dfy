/** GameManager itself: the board is an `array2<int>` updated in place. The
 *  queries scan it, the search writes speculative marks into it and clears
 *  them again, and the turn methods commit moves. Each method is proved
 *  against the board functions of modules Board, Search and Turns. */
module TicTacToe {
  import opened Board
  import opened Search
  import opened Turns

  /** The value the array holds: `Cells(a)[r][c] == a[r, c]`. */
  ghost function Cells(a: array2<int>): (g: Grid)
    reads a
    ensures |g| == a.Length0 && forall i :: 0 <= i < |g| ==> |g[i]| == a.Length1
    ensures forall i, j :: 0 <= i < a.Length0 && 0 <= j < a.Length1 ==> g[i][j] == a[i, j]
  {
    seq(a.Length0, i requires 0 <= i < a.Length0 reads a =>
      seq(a.Length1, j requires 0 <= j < a.Length1 reads a => a[i, j]))
  }

  /** The array holds exactly the board `g`. */
  ghost predicate Stores(a: array2<int>, g: Grid)
    reads a
  {
    && |g| == a.Length0
    && (forall i :: 0 <= i < |g| ==> |g[i]| == a.Length1)
    && forall i, j :: 0 <= i < a.Length0 && 0 <= j < a.Length1 ==> a[i, j] == g[i][j]
  }

  lemma StoresCells(a: array2<int>, g: Grid)
    requires Stores(a, g)
    ensures Cells(a) == g
  {
    var h := Cells(a);
    assert forall i :: 0 <= i < |g| ==> h[i] == g[i];
  }

  /** The winner check reads rows and columns 0..2. */
  predicate Shaped(a: array2<int>) {
    a.Length0 >= 3 && a.Length1 >= 3
  }

  /** CheckWinner: rows and columns 0..2 in turn, then the two diagonals; the
   *  value of the first line whose three cells are equal and non-zero, else 0. */
  method CheckWinner(state: array2<int>) returns (winner: int)
    requires Shaped(state)
    ensures WellFormed(Cells(state)) && winner == Winner(Cells(state))
  {
    ghost var g := Cells(state);
    for i := 0 to 3
      invariant FirstComplete(g, 2 * i) == Winner(g)
    {
      assert Lines[2 * i] == RowLine(i) && Lines[2 * i + 1] == ColumnLine(i) by {
        if i == 0 { } else if i == 1 { } else { }
      }
      // Row
      if state[i, 0] != 0 && state[i, 0] == state[i, 1] && state[i, 1] == state[i, 2] {
        return state[i, 0];
      }
      // Column
      if state[0, i] != 0 && state[0, i] == state[1, i] && state[1, i] == state[2, i] {
        return state[0, i];
      }
    }
    // Diagonals
    assert Lines[6] == Line(Coord(0, 0), Coord(1, 1), Coord(2, 2));
    assert Lines[7] == Line(Coord(0, 2), Coord(1, 1), Coord(2, 0));
    if state[0, 0] != 0 && state[0, 0] == state[1, 1] && state[1, 1] == state[2, 2] {
      return state[0, 0];
    }
    if state[0, 2] != 0 && state[0, 2] == state[1, 1] && state[1, 1] == state[2, 0] {
      return state[0, 2];
    }
    return 0;
  }

  /** IsBoardFull: false at the first cell holding 0, true if there is none. */
  method IsBoardFull(state: array2<int>) returns (full: bool)
    ensures full <==> IsFull(Cells(state))
  {
    for r := 0 to state.Length0
      invariant forall i, j :: 0 <= i < r && 0 <= j < state.Length1 ==> state[i, j] != 0
    {
      for c := 0 to state.Length1
        invariant forall j :: 0 <= j < c ==> state[r, j] != 0
      {
        if state[r, c] == 0 {
          return false;
        }
      }
    }
    return true;
  }

  /** Minimax with mutate-then-undo on the one shared board: the score is the
   *  value MinimaxValue gives the board on entry, and every speculative mark
   *  is cleared again, so the board is returned as it came. */
  method Minimax(state: array2<int>, depth: nat, isMaximizing: bool, aiVal: int) returns (score: int)
    requires Shaped(state) && IsSide(aiVal)
    modifies state
    ensures Cells(state) == old(Cells(state))
    ensures score == MinimaxValue(old(Cells(state)), depth, isMaximizing, aiVal)
    decreases Empties(Cells(state)), 2
  {
    ghost var g := Cells(state);
    var winner := CheckWinner(state);
    if winner != 0 {
      if winner == aiVal {
        return 10 - depth;
      } else {
        return depth - 10;
      }
    }
    var full := IsBoardFull(state);
    if full {
      return 0;
    }

    // GameManager.Minimax writes the maximising and the minimising loop out separately;
    // they differ only in the mark placed and the comparison, kept here as
    // `mark` (inside TryMark) and `Improves`.
    var bestScore := if isMaximizing then IntMin else IntMax;
    ghost var total := SearchFrom(g, depth, isMaximizing, aiVal, 0, 0, bestScore);
    for r := 0 to state.Length0
      invariant Stores(state, g)
      invariant SearchFrom(g, depth, isMaximizing, aiVal, r, 0, bestScore) == total
    {
      bestScore := MinimaxRow(state, g, depth, isMaximizing, aiVal, r, bestScore);
    }
    StoresCells(state, g);
    return bestScore;
  }

  /** The inner loop of Minimax, over the columns of row r. */
  method MinimaxRow(state: array2<int>, ghost g: Grid, depth: nat, isMaximizing: bool, aiVal: int, r: int, bestScore: int)
    returns (newBest: int)
    requires Shaped(state) && IsSide(aiVal) && Stores(state, g) && 0 <= r < state.Length0
    modifies state
    ensures Stores(state, g)
    ensures SearchFrom(g, depth, isMaximizing, aiVal, r + 1, 0, newBest) == SearchFrom(g, depth, isMaximizing, aiVal, r, 0, bestScore)
    decreases Empties(g), 1
  {
    newBest := bestScore;
    for c := 0 to state.Length1
      invariant Stores(state, g)
      invariant SearchFrom(g, depth, isMaximizing, aiVal, r, c, newBest) == SearchFrom(g, depth, isMaximizing, aiVal, r, 0, bestScore)
    {
      if state[r, c] == 0 {
        var s := TryMark(state, g, depth, isMaximizing, aiVal, r, c);
        if Improves(isMaximizing, s, newBest) {
          newBest := s;
        }
      }
    }
  }

  /** One step of Minimax's loops: the side to move fills the empty cell (r, c),
   *  the search recurses with the other side to move, and the cell is cleared
   *  again. The score is ChildValue, and the array holds `g` again afterwards. */
  method TryMark(state: array2<int>, ghost g: Grid, depth: nat, isMaximizing: bool, aiVal: int, r: int, c: int)
    returns (score: int)
    requires Shaped(state) && IsSide(aiVal) && Stores(state, g) && IsEmptyAt(g, r, c)
    modifies state
    ensures Stores(state, g)
    ensures score == ChildValue(g, depth, isMaximizing, aiVal, r, c)
    decreases Empties(g), 0
  {
    var mark := Mover(isMaximizing, aiVal);
    ghost var child := Place(g, r, c, mark);
    state[r, c] := mark;
    assert Stores(state, child);
    StoresCells(state, child);
    PlaceEmpties(g, r, c, mark);
    score := Minimax(state, depth + 1, !isMaximizing, aiVal);
    assert Stores(state, child);
    state[r, c] := 0;
    assert Stores(state, Place(child, r, c, 0));
    PlaceUndo(g, r, c, mark);
  }

  /** GetBestMove: fill each empty cell in row-major order with `aiVal`, score
   *  it with Minimax from depth 0 with the human to move, clear it, and keep
   *  the first cell with a strictly greater score. The result is BestMove of
   *  the board on entry, and the board is returned as it came. */
  method GetBestMove(state: array2<int>, aiVal: int) returns (bestMove: Move)
    requires Shaped(state) && IsSide(aiVal)
    modifies state
    ensures Cells(state) == old(Cells(state))
    ensures bestMove == BestMove(old(Cells(state)), aiVal)
  {
    ghost var g := Cells(state);
    var bestScore := IntMin;
    bestMove := Move(-1, -1);
    for r := 0 to state.Length0
      invariant Stores(state, g)
      invariant BestMoveFrom(g, aiVal, r, 0, bestScore, bestMove) == BestMove(g, aiVal)
    {
      bestScore, bestMove := BestMoveInRow(state, g, aiVal, r, bestScore, bestMove);
    }
    StoresCells(state, g);
  }

  /** The inner loop of GetBestMove, over the columns of row r. */
  method BestMoveInRow(state: array2<int>, ghost g: Grid, aiVal: int, r: int, bestScore: int, bestMove: Move)
    returns (newScore: int, newMove: Move)
    requires Shaped(state) && IsSide(aiVal) && Stores(state, g) && 0 <= r < state.Length0
    modifies state
    ensures Stores(state, g)
    ensures BestMoveFrom(g, aiVal, r + 1, 0, newScore, newMove) == BestMoveFrom(g, aiVal, r, 0, bestScore, bestMove)
  {
    newScore, newMove := bestScore, bestMove;
    for c := 0 to state.Length1
      invariant Stores(state, g)
      invariant BestMoveFrom(g, aiVal, r, c, newScore, newMove) == BestMoveFrom(g, aiVal, r, 0, bestScore, bestMove)
    {
      if state[r, c] == 0 {
        var score := ScoreMove(state, g, aiVal, r, c);
        if score > newScore {
          newScore := score;
          newMove := Move(r, c);
        }
      }
    }
  }

  /** One step of GetBestMove's loops: the computer's value goes into the empty
   *  cell (r, c), Minimax scores the position from depth 0 with the human to
   *  move, and the cell is cleared. The score is MoveScore, and the array holds
   *  `g` again afterwards. */
  method ScoreMove(state: array2<int>, ghost g: Grid, aiVal: int, r: int, c: int) returns (score: int)
    requires Shaped(state) && IsSide(aiVal) && Stores(state, g) && IsEmptyAt(g, r, c)
    modifies state
    ensures Stores(state, g)
    ensures score == MoveScore(g, aiVal, r, c)
  {
    ghost var child := Place(g, r, c, aiVal);
    state[r, c] := aiVal;
    assert Stores(state, child);
    StoresCells(state, child);
    score := Minimax(state, 0, false, aiVal);
    assert Stores(state, child);
    state[r, c] := 0;
    assert Stores(state, Place(child, r, c, 0));
    PlaceUndo(g, r, c, aiVal);
  }

  /** The game object. `rows`, `cols` and the side flags are fixed when the
   *  object is set up; the board array is written in place. */
  class GameManager {
    const rows: nat
    const cols: nat
    const board: array2<int>
    const isPlayerTurn: bool
    const isEnemyTurn: bool

    /** The board has the configured size, at least 3x3, and few enough cells
     *  for every score to fit a 32-bit int. */
    predicate Valid() {
      && board.Length0 == rows && board.Length1 == cols
      && rows >= 3 && cols >= 3
      && rows * cols <= MaxCells
    }

    /** The board of a Valid game is a well-formed grid whose search scores fit an int. */
    lemma ValidBoard()
      requires Valid()
      ensures WellFormed(Cells(board)) && Empties(Cells(board)) <= MaxCells
    {
      EmptiesAtMost(Cells(board), cols);
    }

    /** Start: a rows x cols board, every cell empty. */
    constructor (rows: nat, cols: nat, isPlayerTurn: bool, isEnemyTurn: bool)
      requires rows >= 3 && cols >= 3 && rows * cols <= MaxCells
      ensures Valid() && fresh(board)
      ensures this.rows == rows && this.cols == cols
      ensures this.isPlayerTurn == isPlayerTurn && this.isEnemyTurn == isEnemyTurn
      ensures Cells(board) == EmptyGrid(rows, cols)
    {
      this.rows := rows;
      this.cols := cols;
      this.isPlayerTurn := isPlayerTurn;
      this.isEnemyTurn := isEnemyTurn;
      board := new int[rows, cols]((_, _) => 0);
      new;
      StoresCells(board, EmptyGrid(rows, cols));
    }

    /** InitializeBoard: every cell back to 0. */
    method InitializeBoard()
      requires Valid()
      modifies board
      ensures Cells(board) == EmptyGrid(rows, cols)
    {
      for r := 0 to rows
        invariant forall i, j :: 0 <= i < r && 0 <= j < cols ==> board[i, j] == 0
      {
        for c := 0 to cols
          invariant forall i, j :: 0 <= i < r && 0 <= j < cols ==> board[i, j] == 0
          invariant forall j :: 0 <= j < c ==> board[r, j] == 0
        {
          board[r, c] := 0;
        }
      }
      StoresCells(board, EmptyGrid(rows, cols));
    }

    /** EnemyMove: commit GetBestMove's cell with the computer's value, then
     *  check winner and full board. Only called on a board with an empty cell. */
    method EnemyMove() returns (outcome: Outcome)
      requires Valid() && !IsFull(Cells(board))
      modifies board
      ensures (Cells(board), outcome) == EnemyTurn(old(Cells(board)), AiVal(isPlayerTurn))
    {
      ValidBoard();
      ghost var g := Cells(board);
      var aiVal;
      if isPlayerTurn {
        aiVal := -1;
      } else {
        aiVal := 1;
      }
      var move := GetBestMove(board, aiVal);
      BestMoveSpec(g, aiVal);
      board[move.row, move.col] := aiVal;
      assert Stores(board, Place(g, move.row, move.col, aiVal));
      StoresCells(board, Place(g, move.row, move.col, aiVal));
      var winner := CheckWinner(board);
      if winner != 0 {
        return GameOver(winner);
      }
      var full := IsBoardFull(board);
      if full {
        return GameOver(0);
      }
      return Ongoing;
    }

    /** PlayerMove: ignore a click on an occupied cell; otherwise place the
     *  human's value, end the round on a winner or a full board, and else let
     *  the computer reply when the enemy is enabled. */
    method PlayerMove(r: int, c: int) returns (outcome: Outcome)
      requires Valid() && 0 <= r < rows && 0 <= c < cols
      modifies board
      ensures (Cells(board), outcome) == PlayerTurn(old(Cells(board)), r, c, isPlayerTurn, isEnemyTurn)
    {
      ghost var g := Cells(board);
      if board[r, c] != 0 {
        return Ignored;
      }
      var playerVal;
      if isPlayerTurn {
        playerVal := 1;
      } else {
        playerVal := -1;
      }
      board[r, c] := playerVal;
      ghost var h := Place(g, r, c, playerVal);
      assert Stores(board, h);
      StoresCells(board, h);

      var winner := CheckWinner(board);
      if winner != 0 {
        return GameOver(winner);
      }
      var full := IsBoardFull(board);
      if full {
        return GameOver(0);
      }
      if isEnemyTurn {
        outcome := EnemyMove();
        return;
      }
      return Ongoing;
    }
  }
}
