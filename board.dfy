/** The tic-tac-toe board of GameManager as a value, and its two terminal-state
 *  queries: CheckWinner (some line held by one side) and IsBoardFull.
 *  A cell holds 0 when empty and the value of a side (1 or -1) otherwise. */
module Board {

  /** `board[r, c]` of the game is `g[r][c]` here. */
  type Grid = seq<seq<int>>

  /** A board has at least three rows and three columns, all rows of one length:
   *  CheckWinner reads rows and columns 0..2 whatever the size. */
  predicate WellFormed(g: Grid) {
    |g| >= 3 && |g[0]| >= 3 && forall i :: 0 <= i < |g| ==> |g[i]| == |g[0]|
  }

  function Cols(g: Grid): nat
    requires |g| > 0
  {
    |g[0]|
  }

  predicate InBounds(g: Grid, r: int, c: int) {
    0 <= r < |g| && 0 <= c < |g[r]|
  }

  predicate IsEmptyAt(g: Grid, r: int, c: int) {
    InBounds(g, r, c) && g[r][c] == 0
  }

  /** Every cell is empty or holds the value of one of the two sides. */
  predicate Marks(g: Grid) {
    forall i, j :: 0 <= i < |g| && 0 <= j < |g[i]| ==> -1 <= g[i][j] <= 1
  }

  /** Writing `v` into one cell: the only way the game changes a board. */
  function Place(g: Grid, r: int, c: int, v: int): (h: Grid)
    requires InBounds(g, r, c)
    ensures |h| == |g| && forall i :: 0 <= i < |g| ==> |h[i]| == |g[i]|
    ensures WellFormed(g) ==> WellFormed(h)
    ensures h[r][c] == v
    ensures forall i, j :: InBounds(g, i, j) && (i != r || j != c) ==> h[i][j] == g[i][j]
  {
    g[r := g[r][c := v]]
  }

  /** Writing a cell's earlier value back undoes a write: the search's
   *  place-then-clear leaves the board as it found it. */
  lemma PlaceUndo(g: Grid, r: int, c: int, v: int)
    requires InBounds(g, r, c)
    ensures Place(Place(g, r, c, v), r, c, g[r][c]) == g
  {
    assert Place(Place(g, r, c, v), r, c, g[r][c])[r] == g[r];
  }

  /** The board every round starts from. */
  function EmptyGrid(rows: nat, cols: nat): (g: Grid)
    ensures |g| == rows && forall i :: 0 <= i < rows ==> |g[i]| == cols
    ensures forall i, j :: 0 <= i < rows && 0 <= j < cols ==> g[i][j] == 0
  {
    seq(rows, _ => seq(cols, _ => 0))
  }

  // ---------------------------------------------------------------------------
  // Lines and the winner

  /** A row or column index inside the 3x3 block the winner check reads. */
  type Idx = i: int | 0 <= i < 3

  datatype Coord = Coord(r: Idx, c: Idx)

  /** Three cells that win when one side holds them all. */
  datatype Line = Line(a: Coord, b: Coord, c: Coord)

  function RowLine(i: Idx): Line {
    Line(Coord(i, 0), Coord(i, 1), Coord(i, 2))
  }

  function ColumnLine(i: Idx): Line {
    Line(Coord(0, i), Coord(1, i), Coord(2, i))
  }

  /** The eight lines in the order CheckWinner inspects them: row i, then column i,
   *  for i = 0, 1, 2; then the main diagonal; then the anti-diagonal. */
  const Lines: seq<Line> := [
    RowLine(0), ColumnLine(0), RowLine(1), ColumnLine(1), RowLine(2), ColumnLine(2),
    Line(Coord(0, 0), Coord(1, 1), Coord(2, 2)),
    Line(Coord(0, 2), Coord(1, 1), Coord(2, 0))
  ]

  function Cell(g: Grid, p: Coord): int
    requires WellFormed(g)
  {
    g[p.r][p.c]
  }

  /** CheckWinner's own test of a line: first cell non-empty, equal to the second,
   *  the second equal to the third. */
  predicate Complete(g: Grid, l: Line)
    requires WellFormed(g)
  {
    Cell(g, l.a) != 0 && Cell(g, l.a) == Cell(g, l.b) && Cell(g, l.b) == Cell(g, l.c)
  }

  /** Side `v` holds all three cells of `l`. */
  predicate Owns(g: Grid, l: Line, v: int)
    requires WellFormed(g)
  {
    Cell(g, l.a) == v && Cell(g, l.b) == v && Cell(g, l.c) == v
  }

  /** Side `v` holds some complete row, column or diagonal of the 3x3 block. */
  predicate HasLine(g: Grid, v: int)
    requires WellFormed(g)
  {
    exists k :: 0 <= k < |Lines| && Owns(g, Lines[k], v)
  }

  /** The value of the first complete line from `Lines[k]` on, 0 if there is none. */
  function FirstComplete(g: Grid, k: nat): int
    requires WellFormed(g) && k <= |Lines|
    decreases |Lines| - k
  {
    if k == |Lines| then 0
    else if Complete(g, Lines[k]) then Cell(g, Lines[k].a)
    else FirstComplete(g, k + 1)
  }

  /** CheckWinner: the side holding the first complete line, or 0. */
  function Winner(g: Grid): int
    requires WellFormed(g)
  {
    FirstComplete(g, 0)
  }

  lemma {:induction false} FirstCompleteSpec(g: Grid, k: nat)
    requires WellFormed(g) && k <= |Lines|
    ensures FirstComplete(g, k) != 0 ==>
      exists k' :: k <= k' < |Lines| && Owns(g, Lines[k'], FirstComplete(g, k))
    ensures FirstComplete(g, k) == 0 ==>
      forall k', v :: k <= k' < |Lines| && v != 0 ==> !Owns(g, Lines[k'], v)
    decreases |Lines| - k
  {
    if k < |Lines| && !Complete(g, Lines[k]) {
      FirstCompleteSpec(g, k + 1);
    }
  }

  /** The winner check answers "which side holds a line": a non-zero answer is
   *  a side that holds one, and 0 means that no side holds one. */
  lemma WinnerSpec(g: Grid)
    requires WellFormed(g)
    ensures Winner(g) != 0 ==> HasLine(g, Winner(g))
    ensures Winner(g) == 0 <==> forall v :: v != 0 ==> !HasLine(g, v)
  {
    FirstCompleteSpec(g, 0);
    if Winner(g) != 0 {
      assert HasLine(g, Winner(g));
    }
  }

  /** A fresh board has no winner. */
  lemma EmptyGridHasNoWinner(rows: nat, cols: nat)
    requires rows >= 3 && cols >= 3
    ensures WellFormed(EmptyGrid(rows, cols)) && Winner(EmptyGrid(rows, cols)) == 0
  {
    var g := EmptyGrid(rows, cols);
    FirstCompleteSpec(g, 0);
  }

  /** Row 0 is the first line checked: completing it names its owner whatever
   *  else is on the board. */
  lemma CompletingFirstRowWins(g: Grid, v: int)
    requires WellFormed(g) && v != 0 && g[0][0] == v && g[0][1] == v
    ensures Winner(Place(g, 0, 2, v)) == v
  {
    var h := Place(g, 0, 2, v);
    assert Lines[0] == RowLine(0);
    assert Complete(h, Lines[0]);
  }

  /** Writing `v` into a cell gives no other value a new line. */
  lemma PlaceKeepsOtherLines(g: Grid, r: int, c: int, v: int, u: int)
    requires WellFormed(g) && InBounds(g, r, c) && u != v
    ensures HasLine(Place(g, r, c, v), u) ==> HasLine(g, u)
  {
    var h := Place(g, r, c, v);
    if HasLine(h, u) {
      var k :| 0 <= k < |Lines| && Owns(h, Lines[k], u);
      assert Owns(g, Lines[k], u);
    }
  }

  /** On a board without a winner, a move can make only its own side the winner. */
  lemma PlaceWinner(g: Grid, r: int, c: int, v: int)
    requires WellFormed(g) && InBounds(g, r, c) && Winner(g) == 0
    ensures Winner(Place(g, r, c, v)) == 0 || Winner(Place(g, r, c, v)) == v
  {
    var h := Place(g, r, c, v);
    WinnerSpec(g);
    WinnerSpec(h);
    if Winner(h) != 0 && Winner(h) != v {
      PlaceKeepsOtherLines(g, r, c, v, Winner(h));
    }
  }

  // ---------------------------------------------------------------------------
  // Full board and the number of empty cells

  /** IsBoardFull: no cell holds 0. */
  predicate IsFull(g: Grid) {
    forall i, j :: 0 <= i < |g| && 0 <= j < |g[i]| ==> g[i][j] != 0
  }

  function CountEmpty(row: seq<int>): nat {
    if row == [] then 0 else (if row[0] == 0 then 1 else 0) + CountEmpty(row[1..])
  }

  /** The number of empty cells: each move of the game or of the search lowers it. */
  function Empties(g: Grid): nat {
    if g == [] then 0 else CountEmpty(g[0]) + Empties(g[1..])
  }

  lemma {:induction false} CountEmptyZero(row: seq<int>)
    ensures CountEmpty(row) == 0 <==> forall j :: 0 <= j < |row| ==> row[j] != 0
  {
    if row != [] {
      CountEmptyZero(row[1..]);
      assert forall j :: 1 <= j < |row| ==> row[j] == row[1..][j - 1];
    }
  }

  lemma {:induction false} CountEmptyBound(row: seq<int>)
    ensures CountEmpty(row) <= |row|
  {
    if row != [] {
      CountEmptyBound(row[1..]);
    }
  }

  lemma {:induction false} CountEmptyWrite(row: seq<int>, c: nat, v: int)
    requires c < |row| && row[c] == 0 && v != 0
    ensures CountEmpty(row[c := v]) == CountEmpty(row) - 1
  {
    if c == 0 {
      assert row[c := v][1..] == row[1..];
    } else {
      CountEmptyWrite(row[1..], c - 1, v);
      assert row[c := v][1..] == row[1..][c - 1 := v];
    }
  }

  /** A board is full exactly when it has no empty cell left to count. */
  lemma {:induction false} FullIffNoEmpties(g: Grid)
    ensures IsFull(g) <==> Empties(g) == 0
  {
    if g != [] {
      FullIffNoEmpties(g[1..]);
      CountEmptyZero(g[0]);
      if Empties(g) == 0 {
        forall i, j | 0 <= i < |g| && 0 <= j < |g[i]| ensures g[i][j] != 0 {
          if i > 0 {
            assert g[i] == g[1..][i - 1];
          }
        }
      }
      if IsFull(g) {
        assert forall i, j :: 0 <= i < |g[1..]| && 0 <= j < |g[1..][i]| ==> g[1..][i][j] == g[i + 1][j];
      }
    }
  }

  /** Filling an empty cell leaves exactly one empty cell fewer. */
  lemma {:induction false} PlaceEmpties(g: Grid, r: int, c: int, v: int)
    requires IsEmptyAt(g, r, c) && v != 0
    ensures Empties(Place(g, r, c, v)) == Empties(g) - 1
  {
    if r == 0 {
      CountEmptyWrite(g[0], c, v);
      assert Place(g, r, c, v)[1..] == g[1..];
    } else {
      PlaceEmpties(g[1..], r - 1, c, v);
      assert Place(g, r, c, v)[1..] == Place(g[1..], r - 1, c, v);
    }
  }

  /** A board of rows x cols cells has at most rows * cols empty ones. */
  lemma {:induction false} EmptiesAtMost(g: Grid, cols: nat)
    requires forall i :: 0 <= i < |g| ==> |g[i]| == cols
    ensures Empties(g) <= |g| * cols
  {
    if g != [] {
      CountEmptyBound(g[0]);
      EmptiesAtMost(g[1..], cols);
      assert |g| * cols == cols + |g[1..]| * cols;
    }
  }
}
