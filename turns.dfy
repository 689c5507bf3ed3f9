/** One turn of the game as a function on board values: the human's click
 *  (PlayerMove) and the computer's reply (EnemyMove), each followed by the
 *  CheckWinner and IsBoardFull tests that decide whether the round is over. */
module Turns {
  import opened Board
  import opened Search

  /** How a move ends: `Ignored` for a click on an occupied cell, `GameOver(w)`
   *  where the game calls OnGameOver(w) (w == 0 is a draw), `Ongoing` otherwise. */
  datatype Outcome = Ignored | Ongoing | GameOver(winner: int)

  /** The human plays 1 while isPlayerTurn holds, else -1. */
  function PlayerVal(isPlayerTurn: bool): int {
    if isPlayerTurn then 1 else -1
  }

  /** The computer plays the other value. */
  function AiVal(isPlayerTurn: bool): int {
    if isPlayerTurn then -1 else 1
  }

  /** The CheckWinner and IsBoardFull tests after every committed move: a winner
   *  ends the round, then a full board. */
  function Verdict(h: Grid): Outcome
    requires WellFormed(h)
  {
    var winner := Winner(h);
    if winner != 0 then GameOver(winner)
    else if IsFull(h) then GameOver(0)
    else Ongoing
  }

  /** A win is reported only for a side holding a line; a draw exactly when the
   *  board is full and no side holds a line; play goes on exactly when the board
   *  has an empty cell and no side holds a line. */
  lemma VerdictSpec(h: Grid)
    requires WellFormed(h)
    ensures Verdict(h) != Ignored
    ensures Verdict(h).GameOver? && Verdict(h).winner != 0 ==> HasLine(h, Verdict(h).winner)
    ensures Verdict(h) == GameOver(0) <==> IsFull(h) && forall v :: v != 0 ==> !HasLine(h, v)
    ensures Verdict(h) == Ongoing <==> !IsFull(h) && forall v :: v != 0 ==> !HasLine(h, v)
  {
    WinnerSpec(h);
  }

  /** EnemyMove: commit the move GetBestMove picks, then check the board. */
  function EnemyTurn(g: Grid, aiVal: int): (Grid, Outcome)
    requires WellFormed(g) && IsSide(aiVal) && !IsFull(g) && |g| * Cols(g) <= MaxCells
  {
    EmptiesAtMost(g, Cols(g));
    BestMoveSpec(g, aiVal);
    var m := BestMove(g, aiVal);
    var h := Place(g, m.row, m.col, aiVal);
    (h, Verdict(h))
  }

  /** The computer answers a click when the enemy is enabled and the click did not end the round. */
  predicate EnemyReplies(g: Grid, r: int, c: int, isPlayerTurn: bool, isEnemyTurn: bool)
    requires WellFormed(g) && InBounds(g, r, c)
  {
    isEnemyTurn && Verdict(Place(g, r, c, PlayerVal(isPlayerTurn))) == Ongoing
  }

  /** PlayerMove: a click on an occupied cell is ignored; otherwise the human's
   *  mark goes there, the board is checked, and the computer may reply. */
  function PlayerTurn(g: Grid, r: int, c: int, isPlayerTurn: bool, isEnemyTurn: bool): (Grid, Outcome)
    requires WellFormed(g) && InBounds(g, r, c) && |g| * Cols(g) <= MaxCells
  {
    if g[r][c] != 0 then (g, Ignored)
    else
      var h := Place(g, r, c, PlayerVal(isPlayerTurn));
      if !EnemyReplies(g, r, c, isPlayerTurn, isEnemyTurn) then (h, Verdict(h))
      else EnemyTurn(h, AiVal(isPlayerTurn))
  }

  /** The computer's reply fills one empty cell with its own value and changes
   *  nothing else, so a board of 0, 1 and -1 stays one. */
  lemma EnemyTurnSpec(g: Grid, aiVal: int)
    requires WellFormed(g) && IsSide(aiVal) && !IsFull(g) && |g| * Cols(g) <= MaxCells
    ensures var (h, outcome) := EnemyTurn(g, aiVal);
      && WellFormed(h) && |h| == |g|
      && Empties(h) == Empties(g) - 1
      && (forall i, j :: InBounds(g, i, j) && h[i][j] != g[i][j] ==> g[i][j] == 0 && h[i][j] == aiVal)
      && (Marks(g) ==> Marks(h))
      && outcome == Verdict(h) && outcome != Ignored
  {
    EmptiesAtMost(g, Cols(g));
    BestMoveSpec(g, aiVal);
    var m := BestMove(g, aiVal);
    PlaceEmpties(g, m.row, m.col, aiVal);
  }

  /** A click on an occupied cell changes nothing. A click on an empty cell puts
   *  the human's value there; filled cells never change; besides that cell only
   *  the computer's reply, when there is one, changes a cell, from empty to the
   *  computer's value. */
  lemma PlayerTurnSpec(g: Grid, r: int, c: int, isPlayerTurn: bool, isEnemyTurn: bool)
    requires WellFormed(g) && InBounds(g, r, c) && |g| * Cols(g) <= MaxCells
    ensures g[r][c] != 0 ==> PlayerTurn(g, r, c, isPlayerTurn, isEnemyTurn) == (g, Ignored)
    ensures g[r][c] == 0 ==> var (h, outcome) := PlayerTurn(g, r, c, isPlayerTurn, isEnemyTurn);
      && WellFormed(h) && |h| == |g|
      && h[r][c] == PlayerVal(isPlayerTurn)
      && Empties(h) == Empties(g) - (if EnemyReplies(g, r, c, isPlayerTurn, isEnemyTurn) then 2 else 1)
      && (forall i, j :: InBounds(g, i, j) && h[i][j] != g[i][j] ==>
            g[i][j] == 0 && ((i == r && j == c) || h[i][j] == AiVal(isPlayerTurn)))
      && (Marks(g) ==> Marks(h))
      && outcome == Verdict(h) && outcome != Ignored
  {
    if g[r][c] == 0 {
      var h := Place(g, r, c, PlayerVal(isPlayerTurn));
      PlaceEmpties(g, r, c, PlayerVal(isPlayerTurn));
      VerdictSpec(h);
      if EnemyReplies(g, r, c, isPlayerTurn, isEnemyTurn) {
        EnemyTurnSpec(h, AiVal(isPlayerTurn));
      }
    }
  }
}
