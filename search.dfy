/** The minimax search of GameManager as functions on board values: the score
 *  of a position (Minimax), and the move the computer picks (GetBestMove). */
module Search {
  import opened Board

  /** int.MinValue and int.MaxValue, the sentinels the search starts from. */
  const IntMin: int := -0x8000_0000
  const IntMax: int := 0x7fff_ffff

  /** Boards whose empty cells, plus the depth offset 10, still fit a 32-bit score. */
  const MaxCells: int := IntMax - 10

  /** The two sides are 1 and -1; the computer plays `aiVal`, the human `-aiVal`. */
  predicate IsSide(v: int) {
    v == 1 || v == -1
  }

  /** The maximiser places `aiVal`, the minimiser places `-aiVal`. */
  function Mover(maximizing: bool, aiVal: int): int {
    if maximizing then aiVal else -aiVal
  }

  /** The running best is replaced by a strictly greater score (maximiser) or a
   *  strictly smaller one (minimiser). */
  predicate Improves(maximizing: bool, score: int, best: int) {
    if maximizing then score > best else score < best
  }

  /** Cell (r, c) comes at or after (r0, c0) in row-major order. */
  predicate AtOrAfter(r: int, c: int, r0: int, c0: int) {
    r > r0 || (r == r0 && c >= c0)
  }

  /** Cell (r, c) comes strictly before (r0, c0) in row-major order. */
  predicate Before(r: int, c: int, r0: int, c0: int) {
    r < r0 || (r == r0 && c < c0)
  }

  /** Minimax: a win for `aiVal` scores 10 - depth, a win for any other value
   *  depth - 10, a full board 0; otherwise the best child score for the side to move. */
  function MinimaxValue(g: Grid, depth: nat, maximizing: bool, aiVal: int): int
    requires WellFormed(g) && IsSide(aiVal)
    decreases Empties(g), 1, 0, 0
  {
    var winner := Winner(g);
    if winner != 0 then
      (if winner == aiVal then 10 - depth else depth - 10)
    else if IsFull(g) then 0
    else SearchFrom(g, depth, maximizing, aiVal, 0, 0, if maximizing then IntMin else IntMax)
  }

  /** The score of the position after the side to move fills the empty cell (r, c). */
  function ChildValue(g: Grid, depth: nat, maximizing: bool, aiVal: int, r: int, c: int): int
    requires WellFormed(g) && IsSide(aiVal) && IsEmptyAt(g, r, c)
    decreases Empties(g), 0, 0, 0
  {
    PlaceEmpties(g, r, c, Mover(maximizing, aiVal));
    MinimaxValue(Place(g, r, c, Mover(maximizing, aiVal)), depth + 1, !maximizing, aiVal)
  }

  /** The nested row-major loop over the empty cells from (r, c) on, with `best`
   *  the running best score so far. */
  function SearchFrom(g: Grid, depth: nat, maximizing: bool, aiVal: int, r: nat, c: nat, best: int): int
    requires WellFormed(g) && IsSide(aiVal) && r <= |g| && c <= Cols(g)
    decreases Empties(g), 0, |g| - r, Cols(g) - c
  {
    if r == |g| then best
    else if c == Cols(g) then SearchFrom(g, depth, maximizing, aiVal, r + 1, 0, best)
    else if g[r][c] != 0 then SearchFrom(g, depth, maximizing, aiVal, r, c + 1, best)
    else
      var score := ChildValue(g, depth, maximizing, aiVal, r, c);
      SearchFrom(g, depth, maximizing, aiVal, r, c + 1, if Improves(maximizing, score, best) then score else best)
  }

  /** The scan from (r, c) ends with a value no worse than `best` and no worse
   *  than any child it meets, and that value is `best` or one of those children. */
  lemma {:induction false} SearchFromIsBest(g: Grid, depth: nat, maximizing: bool, aiVal: int, r: nat, c: nat, best: int)
    requires WellFormed(g) && IsSide(aiVal) && r <= |g| && c <= Cols(g)
    ensures maximizing ==> best <= SearchFrom(g, depth, maximizing, aiVal, r, c, best)
    ensures !maximizing ==> SearchFrom(g, depth, maximizing, aiVal, r, c, best) <= best
    ensures forall i, j :: IsEmptyAt(g, i, j) && AtOrAfter(i, j, r, c) ==>
      if maximizing then ChildValue(g, depth, maximizing, aiVal, i, j) <= SearchFrom(g, depth, maximizing, aiVal, r, c, best)
      else SearchFrom(g, depth, maximizing, aiVal, r, c, best) <= ChildValue(g, depth, maximizing, aiVal, i, j)
    ensures SearchFrom(g, depth, maximizing, aiVal, r, c, best) == best ||
      exists i, j :: IsEmptyAt(g, i, j) && AtOrAfter(i, j, r, c) &&
        SearchFrom(g, depth, maximizing, aiVal, r, c, best) == ChildValue(g, depth, maximizing, aiVal, i, j)
    decreases |g| - r, Cols(g) - c
  {
    if r == |g| {
    } else if c == Cols(g) {
      SearchFromIsBest(g, depth, maximizing, aiVal, r + 1, 0, best);
    } else if g[r][c] != 0 {
      SearchFromIsBest(g, depth, maximizing, aiVal, r, c + 1, best);
    } else {
      var score := ChildValue(g, depth, maximizing, aiVal, r, c);
      var best' := if Improves(maximizing, score, best) then score else best;
      SearchFromIsBest(g, depth, maximizing, aiVal, r, c + 1, best');
    }
  }

  /** |10 - depth|: how far a terminal score at this depth is from 0. */
  function Dist(depth: nat): nat {
    if depth <= 10 then 10 - depth else depth - 10
  }

  /** Every score lies within |10 - depth| plus the number of empty cells of 0;
   *  in particular the search never returns its int.MinValue or int.MaxValue
   *  sentinel on a board whose empty cells fit an int. */
  lemma {:induction false} MinimaxBounds(g: Grid, depth: nat, maximizing: bool, aiVal: int)
    requires WellFormed(g) && IsSide(aiVal)
    ensures -(Dist(depth) + Empties(g)) <= MinimaxValue(g, depth, maximizing, aiVal) <= Dist(depth) + Empties(g)
    decreases Empties(g)
  {
    if Winner(g) == 0 && !IsFull(g) {
      var init := if maximizing then IntMin else IntMax;
      forall i, j | IsEmptyAt(g, i, j)
        ensures -(Dist(depth) + Empties(g)) <= ChildValue(g, depth, maximizing, aiVal, i, j) <= Dist(depth) + Empties(g)
      {
        PlaceEmpties(g, i, j, Mover(maximizing, aiVal));
        MinimaxBounds(Place(g, i, j, Mover(maximizing, aiVal)), depth + 1, !maximizing, aiVal);
      }
      SearchFromIsBest(g, depth, maximizing, aiVal, 0, 0, init);
      var i0, j0 :| 0 <= i0 < |g| && 0 <= j0 < |g[i0]| && g[i0][j0] == 0;
      assert IsEmptyAt(g, i0, j0) && AtOrAfter(i0, j0, 0, 0);
    }
  }

  /** On a board no one has won and that is not full, the score is the largest
   *  child score (maximiser) or the smallest (minimiser) over all empty cells. */
  lemma MinimaxIsBestChild(g: Grid, depth: nat, maximizing: bool, aiVal: int)
    requires WellFormed(g) && IsSide(aiVal)
    requires Winner(g) == 0 && !IsFull(g)
    requires Dist(depth) + Empties(g) < IntMax
    ensures forall i, j :: IsEmptyAt(g, i, j) ==>
      if maximizing then ChildValue(g, depth, maximizing, aiVal, i, j) <= MinimaxValue(g, depth, maximizing, aiVal)
      else MinimaxValue(g, depth, maximizing, aiVal) <= ChildValue(g, depth, maximizing, aiVal, i, j)
    ensures exists i, j :: IsEmptyAt(g, i, j) && MinimaxValue(g, depth, maximizing, aiVal) == ChildValue(g, depth, maximizing, aiVal, i, j)
    ensures IntMin < MinimaxValue(g, depth, maximizing, aiVal) < IntMax
  {
    var init := if maximizing then IntMin else IntMax;
    var v := SearchFrom(g, depth, maximizing, aiVal, 0, 0, init);
    assert MinimaxValue(g, depth, maximizing, aiVal) == v;
    SearchFromIsBest(g, depth, maximizing, aiVal, 0, 0, init);
    var i0, j0 :| 0 <= i0 < |g| && 0 <= j0 < |g[i0]| && g[i0][j0] == 0;
    assert IsEmptyAt(g, i0, j0) && AtOrAfter(i0, j0, 0, 0);
    // The child at (i0, j0) lies strictly between the sentinels, so the scan moved off `init`.
    ChildWithinSentinels(g, depth, maximizing, aiVal, i0, j0);
    var i1, j1 :| IsEmptyAt(g, i1, j1) && v == ChildValue(g, depth, maximizing, aiVal, i1, j1);
    ChildWithinSentinels(g, depth, maximizing, aiVal, i1, j1);
  }

  /** A child score lies strictly between int.MinValue and int.MaxValue. */
  lemma ChildWithinSentinels(g: Grid, depth: nat, maximizing: bool, aiVal: int, i: int, j: int)
    requires WellFormed(g) && IsSide(aiVal) && IsEmptyAt(g, i, j)
    requires Dist(depth) + Empties(g) < IntMax
    ensures IntMin < ChildValue(g, depth, maximizing, aiVal, i, j) < IntMax
  {
    var child := Place(g, i, j, Mover(maximizing, aiVal));
    PlaceEmpties(g, i, j, Mover(maximizing, aiVal));
    MinimaxBounds(child, depth + 1, !maximizing, aiVal);
  }

  /** While the deepest reachable terminal is at depth 10 or less (every 3x3
   *  position), the score lies in [depth - 10, 10 - depth]. */
  lemma {:induction false} MinimaxRange(g: Grid, depth: nat, maximizing: bool, aiVal: int)
    requires WellFormed(g) && IsSide(aiVal)
    requires depth + Empties(g) <= 10
    ensures depth - 10 <= MinimaxValue(g, depth, maximizing, aiVal) <= 10 - depth
    decreases Empties(g)
  {
    if Winner(g) == 0 && !IsFull(g) {
      forall i, j | IsEmptyAt(g, i, j)
        ensures depth + 1 - 10 <= ChildValue(g, depth, maximizing, aiVal, i, j) <= 10 - depth - 1
      {
        PlaceEmpties(g, i, j, Mover(maximizing, aiVal));
        MinimaxRange(Place(g, i, j, Mover(maximizing, aiVal)), depth + 1, !maximizing, aiVal);
      }
      MinimaxIsBestChild(g, depth, maximizing, aiVal);
    }
  }

  /** Terminal positions: a line held by the computer alone scores 10 - depth, a
   *  line held by the human alone depth - 10, a full board without a line 0. */
  lemma MinimaxTerminal(g: Grid, depth: nat, maximizing: bool, aiVal: int)
    requires WellFormed(g) && IsSide(aiVal) && Marks(g)
    ensures HasLine(g, aiVal) && !HasLine(g, -aiVal) ==> MinimaxValue(g, depth, maximizing, aiVal) == 10 - depth
    ensures HasLine(g, -aiVal) && !HasLine(g, aiVal) ==> MinimaxValue(g, depth, maximizing, aiVal) == depth - 10
    ensures !HasLine(g, 1) && !HasLine(g, -1) && IsFull(g) ==> MinimaxValue(g, depth, maximizing, aiVal) == 0
  {
    WinnerSpec(g);
    var w := Winner(g);
    if w != 0 {
      var k :| 0 <= k < |Lines| && Owns(g, Lines[k], w);
      assert -1 <= Cell(g, Lines[k].a) <= 1;
    }
  }

  // ---------------------------------------------------------------------------
  // The computer's move

  /** A board coordinate; (-1, -1) stands for "no move". */
  datatype Move = Move(row: int, col: int)

  const NoMove: Move := Move(-1, -1)

  /** The score GetBestMove gives the empty cell (r, c): the computer fills it,
   *  then the human minimises from depth 0. */
  function MoveScore(g: Grid, aiVal: int, r: int, c: int): int
    requires WellFormed(g) && IsSide(aiVal) && IsEmptyAt(g, r, c)
  {
    MinimaxValue(Place(g, r, c, aiVal), 0, false, aiVal)
  }

  /** The row-major scan of GetBestMove from (r, c) on, keeping the first cell
   *  with a strictly greater score. */
  function BestMoveFrom(g: Grid, aiVal: int, r: nat, c: nat, bestScore: int, bestMove: Move): Move
    requires WellFormed(g) && IsSide(aiVal) && r <= |g| && c <= Cols(g)
    decreases |g| - r, Cols(g) - c
  {
    if r == |g| then bestMove
    else if c == Cols(g) then BestMoveFrom(g, aiVal, r + 1, 0, bestScore, bestMove)
    else if g[r][c] != 0 then BestMoveFrom(g, aiVal, r, c + 1, bestScore, bestMove)
    else
      var score := MoveScore(g, aiVal, r, c);
      if score > bestScore then BestMoveFrom(g, aiVal, r, c + 1, score, Move(r, c))
      else BestMoveFrom(g, aiVal, r, c + 1, bestScore, bestMove)
  }

  /** GetBestMove: the scan from the top-left cell, from int.MinValue and no move. */
  function BestMove(g: Grid, aiVal: int): Move
    requires WellFormed(g) && IsSide(aiVal)
  {
    BestMoveFrom(g, aiVal, 0, 0, IntMin, NoMove)
  }

  /** What the scan has established once it reaches (r, c): `bestScore` bounds
   *  every empty cell before (r, c); `bestMove` is no move while no empty cell
   *  has been met, and otherwise the first empty cell scoring `bestScore`. */
  ghost predicate Scanned(g: Grid, aiVal: int, r: int, c: int, bestScore: int, bestMove: Move)
    requires WellFormed(g) && IsSide(aiVal)
  {
    && (forall i, j :: IsEmptyAt(g, i, j) && Before(i, j, r, c) ==> MoveScore(g, aiVal, i, j) <= bestScore)
    && (bestMove == NoMove ==>
          bestScore == IntMin && forall i, j :: IsEmptyAt(g, i, j) ==> !Before(i, j, r, c))
    && (bestMove != NoMove ==>
          && IsEmptyAt(g, bestMove.row, bestMove.col)
          && Before(bestMove.row, bestMove.col, r, c)
          && bestScore == MoveScore(g, aiVal, bestMove.row, bestMove.col)
          && forall i, j :: IsEmptyAt(g, i, j) && Before(i, j, bestMove.row, bestMove.col) ==>
               MoveScore(g, aiVal, i, j) < bestScore)
  }

  /** The move the scan returns is (-1, -1) exactly when the board has no empty
   *  cell, and otherwise the first empty cell in row-major order whose score
   *  is the largest. */
  ghost predicate IsFirstBest(g: Grid, aiVal: int, m: Move)
    requires WellFormed(g) && IsSide(aiVal)
  {
    && (m == NoMove <==> IsFull(g))
    && (m != NoMove ==>
          && IsEmptyAt(g, m.row, m.col)
          && (forall i, j :: IsEmptyAt(g, i, j) ==> MoveScore(g, aiVal, i, j) <= MoveScore(g, aiVal, m.row, m.col))
          && (forall i, j :: IsEmptyAt(g, i, j) && Before(i, j, m.row, m.col) ==>
                MoveScore(g, aiVal, i, j) < MoveScore(g, aiVal, m.row, m.col)))
  }

  lemma ScannedAtEnd(g: Grid, aiVal: int, c: nat, bestScore: int, bestMove: Move)
    requires WellFormed(g) && IsSide(aiVal)
    requires Scanned(g, aiVal, |g|, c, bestScore, bestMove)
    ensures IsFirstBest(g, aiVal, bestMove)
  {
    if !IsFull(g) {
      var i0, j0 :| 0 <= i0 < |g| && 0 <= j0 < |g[i0]| && g[i0][j0] == 0;
      assert IsEmptyAt(g, i0, j0) && Before(i0, j0, |g|, c);
    }
  }

  lemma ScannedNextRow(g: Grid, aiVal: int, r: nat, bestScore: int, bestMove: Move)
    requires WellFormed(g) && IsSide(aiVal) && r < |g|
    requires Scanned(g, aiVal, r, Cols(g), bestScore, bestMove)
    ensures Scanned(g, aiVal, r + 1, 0, bestScore, bestMove)
  {
    assert forall i, j :: IsEmptyAt(g, i, j) ==> (Before(i, j, r, Cols(g)) <==> Before(i, j, r + 1, 0));
  }

  lemma ScannedTake(g: Grid, aiVal: int, r: nat, c: nat, bestScore: int, bestMove: Move)
    requires WellFormed(g) && IsSide(aiVal) && IsEmptyAt(g, r, c)
    requires Scanned(g, aiVal, r, c, bestScore, bestMove)
    requires MoveScore(g, aiVal, r, c) > bestScore
    ensures Scanned(g, aiVal, r, c + 1, MoveScore(g, aiVal, r, c), Move(r, c))
  {
  }

  lemma ScannedKeep(g: Grid, aiVal: int, r: nat, c: nat, bestScore: int, bestMove: Move)
    requires WellFormed(g) && IsSide(aiVal) && IsEmptyAt(g, r, c)
    requires Scanned(g, aiVal, r, c, bestScore, bestMove)
    requires IntMin < MoveScore(g, aiVal, r, c) <= bestScore
    ensures Scanned(g, aiVal, r, c + 1, bestScore, bestMove)
  {
  }

  lemma ScannedSkip(g: Grid, aiVal: int, r: nat, c: nat, bestScore: int, bestMove: Move)
    requires WellFormed(g) && IsSide(aiVal) && InBounds(g, r, c) && g[r][c] != 0
    requires Scanned(g, aiVal, r, c, bestScore, bestMove)
    ensures Scanned(g, aiVal, r, c + 1, bestScore, bestMove)
  {
  }

  lemma {:induction false} BestMoveFromSpec(g: Grid, aiVal: int, r: nat, c: nat, bestScore: int, bestMove: Move)
    requires WellFormed(g) && IsSide(aiVal) && r <= |g| && c <= Cols(g)
    requires forall i, j :: IsEmptyAt(g, i, j) ==> MoveScore(g, aiVal, i, j) > IntMin
    requires Scanned(g, aiVal, r, c, bestScore, bestMove)
    ensures IsFirstBest(g, aiVal, BestMoveFrom(g, aiVal, r, c, bestScore, bestMove))
    decreases |g| - r, Cols(g) - c, 1
  {
    if r == |g| {
      ScannedAtEnd(g, aiVal, c, bestScore, bestMove);
    } else if c == Cols(g) {
      ScannedNextRow(g, aiVal, r, bestScore, bestMove);
      BestMoveFromSpec(g, aiVal, r + 1, 0, bestScore, bestMove);
    } else {
      BestMoveFromCell(g, aiVal, r, c, bestScore, bestMove);
    }
  }

  /** The step of BestMoveFromSpec at an in-bounds cell (r, c). */
  lemma {:induction false} BestMoveFromCell(g: Grid, aiVal: int, r: nat, c: nat, bestScore: int, bestMove: Move)
    requires WellFormed(g) && IsSide(aiVal) && r < |g| && c < Cols(g)
    requires forall i, j :: IsEmptyAt(g, i, j) ==> MoveScore(g, aiVal, i, j) > IntMin
    requires Scanned(g, aiVal, r, c, bestScore, bestMove)
    ensures IsFirstBest(g, aiVal, BestMoveFrom(g, aiVal, r, c, bestScore, bestMove))
    decreases |g| - r, Cols(g) - c, 0
  {
    var nextScore, nextMove := bestScore, bestMove;
    if g[r][c] != 0 {
      ScannedSkip(g, aiVal, r, c, bestScore, bestMove);
    } else {
      assert IsEmptyAt(g, r, c);
      var score := MoveScore(g, aiVal, r, c);
      if score > bestScore {
        ScannedTake(g, aiVal, r, c, bestScore, bestMove);
        nextScore, nextMove := score, Move(r, c);
      } else {
        ScannedKeep(g, aiVal, r, c, bestScore, bestMove);
      }
    }
    assert BestMoveFrom(g, aiVal, r, c, bestScore, bestMove) == BestMoveFrom(g, aiVal, r, c + 1, nextScore, nextMove);
    BestMoveFromSpec(g, aiVal, r, c + 1, nextScore, nextMove);
  }

  /** GetBestMove returns (-1, -1) exactly on a full board; otherwise an empty
   *  in-bounds cell whose score is the maximum over all empty cells, and the
   *  first such cell in row-major order (the update uses a strict >). */
  lemma BestMoveSpec(g: Grid, aiVal: int)
    requires WellFormed(g) && IsSide(aiVal) && Empties(g) <= MaxCells
    ensures IsFirstBest(g, aiVal, BestMove(g, aiVal))
  {
    forall i, j | IsEmptyAt(g, i, j) ensures MoveScore(g, aiVal, i, j) > IntMin {
      PlaceEmpties(g, i, j, aiVal);
      MinimaxBounds(Place(g, i, j, aiVal), 0, false, aiVal);
    }
    BestMoveFromSpec(g, aiVal, 0, 0, IntMin, NoMove);
  }

  /** A position the minimiser must answer at depth 0 scores 10 only when the
   *  computer has already won it. */
  lemma ScoreTenIsWin(h: Grid, aiVal: int)
    requires WellFormed(h) && IsSide(aiVal) && Empties(h) <= 10
    requires MinimaxValue(h, 0, false, aiVal) == 10
    ensures Winner(h) == aiVal
  {
    if Winner(h) == 0 && !IsFull(h) {
      MinimaxIsBestChild(h, 0, false, aiVal);
      var i, j :| IsEmptyAt(h, i, j) && MinimaxValue(h, 0, false, aiVal) == ChildValue(h, 0, false, aiVal, i, j);
      PlaceEmpties(h, i, j, -aiVal);
      MinimaxRange(Place(h, i, j, -aiVal), 1, true, aiVal);
    }
  }

  /** When some empty cell wins at once, the computer's move wins at once too. */
  lemma BestMoveTakesWin(g: Grid, aiVal: int, r: int, c: int)
    requires WellFormed(g) && IsSide(aiVal) && Empties(g) <= 11
    requires IsEmptyAt(g, r, c) && Winner(Place(g, r, c, aiVal)) == aiVal
    ensures IsEmptyAt(g, BestMove(g, aiVal).row, BestMove(g, aiVal).col)
    ensures Winner(Place(g, BestMove(g, aiVal).row, BestMove(g, aiVal).col, aiVal)) == aiVal
  {
    BestMoveSpec(g, aiVal);
    var m := BestMove(g, aiVal);
    assert MoveScore(g, aiVal, r, c) == 10;
    PlaceEmpties(g, m.row, m.col, aiVal);
    MinimaxRange(Place(g, m.row, m.col, aiVal), 0, false, aiVal);
    ScoreTenIsWin(Place(g, m.row, m.col, aiVal), aiVal);
  }

  /** After the computer fills a cell, the human can complete a line at once. */
  ghost predicate LosesNext(h: Grid, aiVal: int)
    requires WellFormed(h)
  {
    exists i, j :: IsEmptyAt(h, i, j) && Winner(Place(h, i, j, -aiVal)) == -aiVal
  }

  /** A cell after which the human cannot win at once scores at least -8. */
  lemma SafeMoveScore(g: Grid, aiVal: int, r: int, c: int)
    requires WellFormed(g) && IsSide(aiVal) && Empties(g) <= 11 && Winner(g) == 0
    requires IsEmptyAt(g, r, c) && !LosesNext(Place(g, r, c, aiVal), aiVal)
    ensures MoveScore(g, aiVal, r, c) >= -8
  {
    var h := Place(g, r, c, aiVal);
    PlaceEmpties(g, r, c, aiVal);
    PlaceWinner(g, r, c, aiVal);
    if Winner(h) == 0 && !IsFull(h) {
      MinimaxIsBestChild(h, 0, false, aiVal);
      var i, j :| IsEmptyAt(h, i, j) && MinimaxValue(h, 0, false, aiVal) == ChildValue(h, 0, false, aiVal, i, j);
      PlaceEmpties(h, i, j, -aiVal);
      PlaceWinner(h, i, j, -aiVal);
      ReplyScore(Place(h, i, j, -aiVal), aiVal);
    }
  }

  /** After a human reply that does not win, with at most 9 empty cells left,
   *  the computer to move at depth 1 scores at least -8. */
  lemma ReplyScore(child: Grid, aiVal: int)
    requires WellFormed(child) && IsSide(aiVal) && Empties(child) <= 9 && Winner(child) == 0
    ensures MinimaxValue(child, 1, true, aiVal) >= -8
  {
    if !IsFull(child) {
      MinimaxIsBestChild(child, 1, true, aiVal);
      var i, j :| 0 <= i < |child| && 0 <= j < |child[i]| && child[i][j] == 0;
      assert IsEmptyAt(child, i, j);
      PlaceEmpties(child, i, j, aiVal);
      MinimaxRange(Place(child, i, j, aiVal), 2, false, aiVal);
    }
  }

  /** A cell after which the human can win at once, and that does not win
   *  itself, scores at most -9. */
  lemma LosingMoveScore(g: Grid, aiVal: int, r: int, c: int)
    requires WellFormed(g) && IsSide(aiVal) && Empties(g) <= MaxCells && Winner(g) == 0
    requires IsEmptyAt(g, r, c) && Winner(Place(g, r, c, aiVal)) != aiVal
    requires LosesNext(Place(g, r, c, aiVal), aiVal)
    ensures MoveScore(g, aiVal, r, c) <= -9
  {
    var h := Place(g, r, c, aiVal);
    PlaceEmpties(g, r, c, aiVal);
    PlaceWinner(g, r, c, aiVal);
    var i, j :| IsEmptyAt(h, i, j) && Winner(Place(h, i, j, -aiVal)) == -aiVal;
    assert !IsFull(h);
    MinimaxIsBestChild(h, 0, false, aiVal);
    assert ChildValue(h, 0, false, aiVal, i, j) == -9;
  }

  /** When some cell leaves the human no immediate win, the computer's move
   *  wins at once or also leaves the human no immediate win: it blocks. */
  lemma BestMoveBlocks(g: Grid, aiVal: int, r: int, c: int)
    requires WellFormed(g) && IsSide(aiVal) && Empties(g) <= 11 && Winner(g) == 0
    requires IsEmptyAt(g, r, c) && !LosesNext(Place(g, r, c, aiVal), aiVal)
    ensures IsEmptyAt(g, BestMove(g, aiVal).row, BestMove(g, aiVal).col)
    ensures Winner(Place(g, BestMove(g, aiVal).row, BestMove(g, aiVal).col, aiVal)) == aiVal ||
      !LosesNext(Place(g, BestMove(g, aiVal).row, BestMove(g, aiVal).col, aiVal), aiVal)
  {
    BestMoveSpec(g, aiVal);
    var m := BestMove(g, aiVal);
    SafeMoveScore(g, aiVal, r, c);
    if Winner(Place(g, m.row, m.col, aiVal)) != aiVal && LosesNext(Place(g, m.row, m.col, aiVal), aiVal) {
      LosingMoveScore(g, aiVal, m.row, m.col);
    }
  }
}
