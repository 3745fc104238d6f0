/**
 * One board of tic-tac-toe: nine cells, the eight winning lines and the search
 * for the first complete one, the guarded single-cell update a click makes, and
 * the classification of a board as won, in progress or drawn.
 */
module TicTacToe {
  import opened Wrappers

  datatype Player = X | O

  /** A cell is empty (null in the original) or holds a player's mark. */
  datatype Cell = Empty | Marked(player: Player)

  /** A cell index, row-major: row i / 3, column i % 3. */
  type Index = i: int | 0 <= i < 9

  /** One snapshot of the board: exactly nine cells. */
  type Board = b: seq<Cell> | |b| == 9
    witness [Empty, Empty, Empty, Empty, Empty, Empty, Empty, Empty, Empty]

  /** The board a game starts from. */
  const EmptyBoard: Board := [Empty, Empty, Empty, Empty, Empty, Empty, Empty, Empty, Empty]

  /** The mark placed by the player whose turn it is. */
  function Mover(xIsNext: bool): Player
  {
    if xIsNext then X else O
  }

  // ---------------------------------------------------------------------------
  // Win detection
  // ---------------------------------------------------------------------------

  /** A winning line: three cell indices. */
  datatype Line = Line(a: Index, b: Index, c: Index)

  /** The eight lines in the order they are searched: rows, columns, diagonals. */
  const Lines: seq<Line> := [
    Line(0, 1, 2), Line(3, 4, 5), Line(6, 7, 8),
    Line(0, 3, 6), Line(1, 4, 7), Line(2, 5, 8),
    Line(0, 4, 8), Line(2, 4, 6)
  ]

  /** The three cells of line l on board b are non-empty and equal. */
  predicate Complete(b: Board, l: Line)
  {
    b[l.a] != Empty && b[l.a] == b[l.b] && b[l.a] == b[l.c]
  }

  /** None of the eight lines of b is complete. */
  predicate NoCompleteLine(b: Board)
  {
    forall j :: 0 <= j < |Lines| ==> !Complete(b, Lines[j])
  }

  /** The position in Lines of the first complete line at or after k, or |Lines| if none. */
  function FirstComplete(b: Board, k: nat): (r: nat)
    requires k <= |Lines|
    ensures k <= r <= |Lines|
    ensures r < |Lines| ==> Complete(b, Lines[r])
    ensures forall j :: k <= j < r ==> !Complete(b, Lines[j])
    decreases |Lines| - k
  {
    if k == |Lines| then k
    else if Complete(b, Lines[k]) then k
    else FirstComplete(b, k + 1)
  }

  /** The first complete line in search order, or None when no line is complete. */
  function CalculateWinner(b: Board): (r: Option<Line>)
    ensures r.Some? ==> r.value in Lines && Complete(b, r.value)
    ensures r.None? <==> NoCompleteLine(b)
  {
    var k := FirstComplete(b, 0);
    if k < |Lines| then Some(Lines[k]) else None
  }

  /** Ties are broken by search order: a complete line with no complete line
      before it is exactly the line CalculateWinner returns. */
  lemma WinnerIsFirstComplete(b: Board, i: nat)
    requires i < |Lines| && Complete(b, Lines[i])
    ensures CalculateWinner(b) == Some(Lines[i]) <==> forall j :: 0 <= j < i ==> !Complete(b, Lines[j])
  {
  }

  // ---------------------------------------------------------------------------
  // A click: the guarded single-cell update
  // ---------------------------------------------------------------------------

  /** next is prev with the previously empty cell i now holding p's mark and
      every other cell unchanged. */
  predicate IsMoveAt(prev: Board, next: Board, i: Index, p: Player)
  {
    prev[i] == Empty && next[i] == Marked(p) &&
    forall j: Index :: j != i ==> next[j] == prev[j]
  }

  /** A legal move by p: prev has no winner and next fills one empty cell with p's mark. */
  ghost predicate LegalMove(prev: Board, next: Board, p: Player)
  {
    CalculateWinner(prev).None? && exists i: Index :: IsMoveAt(prev, next, i, p)
  }

  /** A click on cell i is refused: the board already has a winner or the cell is taken. */
  predicate Refused(squares: Board, i: Index)
  {
    CalculateWinner(squares).Some? || squares[i] != Empty
  }

  /** A click on cell i of squares: refused (None) when the board is already won
      or the cell is taken, otherwise the copied board with cell i set to the
      mark of the player whose turn it is. */
  method HandleClick(squares: Board, xIsNext: bool, i: Index) returns (next: Option<Board>)
    ensures next.None? <==> Refused(squares, i)
    ensures next.Some? ==> IsMoveAt(squares, next.value, i, Mover(xIsNext))
    ensures next.Some? ==> LegalMove(squares, next.value, Mover(xIsNext))
  {
    if CalculateWinner(squares).Some? || squares[i] != Empty {
      return None;
    }
    var nextSquares := squares;
    if xIsNext {
      nextSquares := nextSquares[i := Marked(X)];
    } else {
      nextSquares := nextSquares[i := Marked(O)];
    }
    assert IsMoveAt(squares, nextSquares, i, Mover(xIsNext));
    next := Some(nextSquares);
  }

  // ---------------------------------------------------------------------------
  // Status
  // ---------------------------------------------------------------------------

  /** All three cells of line l hold p's mark. */
  predicate WonBy(b: Board, l: Line, p: Player)
  {
    b[l.a] == Marked(p) && b[l.b] == Marked(p) && b[l.c] == Marked(p)
  }

  datatype Status = Winner(mark: Player) | NextPlayer(mark: Player) | Draw

  /** The status of a board: the winner's mark, taken from the first cell of
      the winning line; otherwise a draw when no cell is empty; otherwise the
      player whose turn it is. */
  function Classify(squares: Board, xIsNext: bool): (s: Status)
    ensures s.Winner? <==> CalculateWinner(squares).Some?
    ensures s.Winner? ==> WonBy(squares, CalculateWinner(squares).value, s.mark)
    ensures s == Draw <==> CalculateWinner(squares).None? && Empty !in squares
    ensures s.NextPlayer? <==> CalculateWinner(squares).None? && Empty in squares
    ensures s.NextPlayer? ==> s.mark == Mover(xIsNext)
  {
    var winner := CalculateWinner(squares);
    if winner.Some? then Winner(squares[winner.value.a].player)
    else if Empty in squares then NextPlayer(Mover(xIsNext))
    else Draw
  }

  /** The status computed as the original does: a scan that raises a flag on
      finding an empty cell. */
  method ComputeStatus(squares: Board, xIsNext: bool) returns (status: Status)
    ensures status == Classify(squares, xIsNext)
  {
    var winner := CalculateWinner(squares);
    if winner.Some? {
      return Winner(squares[winner.value.a].player);
    }
    var emptySpace := false;
    for k := 0 to |squares|
      invariant emptySpace <==> Empty in squares[..k]
    {
      if squares[k] == Empty {
        emptySpace := true;
      }
    }
    assert squares[..|squares|] == squares;
    if emptySpace {
      status := NextPlayer(Mover(xIsNext));
    } else {
      status := Draw;
    }
  }

  /** A won or drawn board refuses every click. */
  lemma FinishedBoardRefusesClicks(squares: Board, xIsNext: bool, i: Index)
    requires !Classify(squares, xIsNext).NextPlayer?
    ensures Refused(squares, i)
  {
  }
}
