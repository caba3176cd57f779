/** Cells, boards and winner detection of the tic-tac-toe game. */
module Boards {

  /** One square of the board. The original stores `null`, 'X' or 'O';
      `Empty` stands for `null`, the only falsy value a square can hold. */
  datatype Cell = Empty | X | O

  /** A square index, 0..8 in row-major order. */
  type Index = i: int | 0 <= i < 9

  /** A board always holds exactly nine squares. */
  type Board = s: seq<Cell> | |s| == 9
    witness [Empty, Empty, Empty, Empty, Empty, Empty, Empty, Empty, Empty]

  const EmptyBoard: Board := [Empty, Empty, Empty, Empty, Empty, Empty, Empty, Empty, Empty]

  /** The mark the player whose turn it is writes. */
  function Mark(xIsNext: bool): (m: Cell)
    ensures m != Empty
    ensures m == X <==> xIsNext
  {
    if xIsNext then X else O
  }

  // ---------------------------------------------------------------------
  // Coordinates

  /** The square at row `row` and column `col`. */
  function IndexAt(row: nat, col: nat): (i: Index)
    requires row < 3 && col < 3
  {
    row * 3 + col
  }

  /** The coordinates recorded for a move on square `i`. */
  function ColOf(i: Index): (col: nat) { i % 3 }

  function RowOf(i: Index): (row: nat) { i / 3 }

  /** The coordinates recorded for a square lie on the grid and name that
      square again. */
  lemma IndexOfCoordinates(i: Index)
    ensures RowOf(i) < 3 && ColOf(i) < 3
    ensures IndexAt(RowOf(i), ColOf(i)) == i
  {
  }

  /** A grid position is recovered from the square it names. */
  lemma CoordinatesOfIndex(row: nat, col: nat)
    requires row < 3 && col < 3
    ensures RowOf(IndexAt(row, col)) == row && ColOf(IndexAt(row, col)) == col
  {
  }

  // ---------------------------------------------------------------------
  // Lines and the winner

  /** Three squares that win when they hold the same mark. */
  datatype Line = Line(a: Index, b: Index, c: Index)

  /** The eight lines in scan order: rows top to bottom, columns left to
      right, then the two diagonals. */
  const Lines: seq<Line> := [
    Line(0, 1, 2), Line(3, 4, 5), Line(6, 7, 8),
    Line(0, 3, 6), Line(1, 4, 7), Line(2, 5, 8),
    Line(0, 4, 8), Line(2, 4, 6)
  ]

  /** The `k`-th square of line `l`, for `k` in 0..2. */
  function SquareOf(l: Line, k: int): (i: Index) {
    if k == 0 then l.a else if k == 1 then l.b else l.c
  }

  /** The first three lines are the rows top to bottom, the next three the
      columns left to right, and the last two the main diagonal and the
      anti-diagonal of the 3x3 grid. */
  lemma LinesAreRowsColumnsDiagonals()
    ensures |Lines| == 8
    ensures forall r, k :: 0 <= r < 3 && 0 <= k < 3 ==> SquareOf(Lines[r], k) == IndexAt(r, k)
    ensures forall c, k :: 0 <= c < 3 && 0 <= k < 3 ==> SquareOf(Lines[3 + c], k) == IndexAt(k, c)
    ensures forall k :: 0 <= k < 3 ==> SquareOf(Lines[6], k) == IndexAt(k, k)
    ensures forall k :: 0 <= k < 3 ==> SquareOf(Lines[7], k) == IndexAt(k, 2 - k)
  {
  }

  /** A line is complete when its first square is marked (truthy) and the
      other two hold the same mark. */
  predicate Complete(squares: Board, l: Line) {
    squares[l.a] != Empty && squares[l.a] == squares[l.b] && squares[l.a] == squares[l.c]
  }

  /** Line `k` is the first complete line in scan order. */
  predicate FirstComplete(squares: Board, k: int) {
    && 0 <= k < |Lines|
    && Complete(squares, Lines[k])
    && forall j :: 0 <= j < k ==> !Complete(squares, Lines[j])
  }

  /** The scan of `Lines` from position `k` on. */
  function ScanFrom(squares: Board, k: nat): (r: Cell)
    requires k <= |Lines|
    ensures r == Empty <==> forall j :: k <= j < |Lines| ==> !Complete(squares, Lines[j])
    ensures forall j ::
      k <= j < |Lines| && Complete(squares, Lines[j]) &&
      (forall m :: k <= m < j ==> !Complete(squares, Lines[m]))
      ==> r == squares[Lines[j].a]
    decreases |Lines| - k
  {
    if k == |Lines| then Empty
    else if Complete(squares, Lines[k]) then squares[Lines[k].a]
    else ScanFrom(squares, k + 1)
  }

  /** The mark of the first complete line, or `Empty` (`null`) when no line
      is complete. */
  function CalculateWinner(squares: Board): (r: Cell)
    ensures r == Empty <==> forall k :: 0 <= k < |Lines| ==> !Complete(squares, Lines[k])
    ensures forall k :: FirstComplete(squares, k) ==> r == squares[Lines[k].a]
  {
    ScanFrom(squares, 0)
  }

  /** A winner is always the mark of some complete line. */
  lemma WinnerOwnsALine(squares: Board)
    requires CalculateWinner(squares) != Empty
    ensures exists k :: FirstComplete(squares, k) && squares[Lines[k].a] == CalculateWinner(squares)
  {
    var k := FirstCompleteFrom(squares, 0);
  }

  /** The first complete line at or after `k`, when there is one. */
  function FirstCompleteFrom(squares: Board, k: nat): (r: nat)
    requires k <= |Lines|
    requires forall j :: 0 <= j < k ==> !Complete(squares, Lines[j])
    requires exists j :: k <= j < |Lines| && Complete(squares, Lines[j])
    ensures FirstComplete(squares, r)
    decreases |Lines| - k
  {
    if Complete(squares, Lines[k]) then k else FirstCompleteFrom(squares, k + 1)
  }

  /** When some line is complete and every complete line belongs to the
      same player, the scan returns that player. */
  lemma SoleMarkWins(squares: Board, p: Cell)
    requires p != Empty
    requires exists k :: 0 <= k < |Lines| && Complete(squares, Lines[k])
    requires forall k :: 0 <= k < |Lines| && Complete(squares, Lines[k]) ==> squares[Lines[k].a] == p
    ensures CalculateWinner(squares) == p
  {
    WinnerOwnsALine(squares);
  }

  /** The empty board has no winner. */
  lemma EmptyBoardHasNoWinner()
    ensures CalculateWinner(EmptyBoard) == Empty
  {
  }

  // ---------------------------------------------------------------------
  // Counting marks

  /** How many squares of `s` hold `c`. */
  function Count(s: seq<Cell>, c: Cell): (n: nat)
    ensures n <= |s|
  {
    if |s| == 0 then 0 else (if s[0] == c then 1 else 0) + Count(s[1..], c)
  }

  /** `Count` agrees with the multiset of the squares. */
  lemma {:induction false} CountIsMultiplicity(s: seq<Cell>, c: Cell)
    ensures Count(s, c) == multiset(s)[c]
  {
    if |s| > 0 {
      CountIsMultiplicity(s[1..], c);
      assert s == [s[0]] + s[1..];
    }
  }

  /** Every square is empty, X or O. */
  lemma {:induction false} CountsAddUp(s: seq<Cell>)
    ensures Count(s, Empty) + Count(s, X) + Count(s, O) == |s|
  {
    if |s| > 0 {
      CountsAddUp(s[1..]);
    }
  }

  /** Writing `m` into square `i` moves one unit of count from the old
      content of that square to `m`, and leaves the other counts alone. */
  lemma {:induction false} CountAfterWrite(s: seq<Cell>, i: nat, m: Cell, c: Cell)
    requires i < |s|
    ensures Count(s[i := m], c)
         == Count(s, c) - (if s[i] == c then 1 else 0) + (if m == c then 1 else 0)
  {
    if i > 0 {
      CountAfterWrite(s[1..], i - 1, m, c);
      assert s[i := m][1..] == s[1..][i - 1 := m];
    } else {
      assert s[i := m][1..] == s[1..];
    }
  }
}
