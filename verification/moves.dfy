/**
 * The description of a move in the history list: the 1-based row and column
 * of the first cell in which a snapshot differs from the one before it.
 */
module MovePositions {
  import opened TicTacToe

  /** GameStart stands for the original's undefined (move 0 has no previous
      snapshot), NoDifference for its null (no cell differs). */
  datatype Position = GameStart | At(row: int, col: int) | NoDifference

  /** The cell index of a 1-based row and column. */
  function CellIndex(row: int, col: int): int
  {
    (row - 1) * 3 + (col - 1)
  }

  /** The 1-based row and column of cell i; CellIndex takes them back to i. */
  function RowCol(i: Index): (rc: (int, int))
    ensures 1 <= rc.0 <= 3 && 1 <= rc.1 <= 3
    ensures CellIndex(rc.0, rc.1) == i
  {
    (i / 3 + 1, i % 3 + 1)
  }

  /** i is the first cell in which p and q differ. */
  predicate FirstChangeAt(p: Board, q: Board, i: Index)
  {
    p[i] != q[i] && forall j :: 0 <= j < i ==> p[j] == q[j]
  }

  /** The first cell at or after k in which p and q differ, or 9 if none does. */
  function FirstDifference(p: Board, q: Board, k: nat): (r: nat)
    requires k <= 9
    ensures k <= r <= 9
    ensures r < 9 ==> p[r] != q[r]
    ensures forall j :: k <= j < r ==> p[j] == q[j]
    decreases 9 - k
  {
    if k == 9 then 9
    else if p[k] != q[k] then k
    else FirstDifference(p, q, k + 1)
  }

  /** Where move `move` of the history was played: nothing for the start of
      the game, the row and column of the first differing cell, or
      NoDifference when the two snapshots are equal. */
  function CalculateMovePosition(history: seq<Board>, move: int): (r: Position)
    requires move < |history|
    ensures r == GameStart <==> move < 1
    ensures r.At? ==>
      1 <= r.row <= 3 && 1 <= r.col <= 3 &&
      FirstChangeAt(history[move - 1], history[move], CellIndex(r.row, r.col))
    ensures r == NoDifference <==> 1 <= move && history[move - 1] == history[move]
  {
    if move < 1 then GameStart
    else
      var lastMoves, currentMoves := history[move - 1], history[move];
      var i := FirstDifference(lastMoves, currentMoves, 0);
      if i < 9 then
        var rc := RowCol(i);
        At(rc.0, rc.1)
      else
        NoDifference
  }

  /** When a move changes exactly cell i, the position shown is i's row and column. */
  lemma PositionOfMove(history: seq<Board>, move: int, i: Index, p: Player)
    requires 1 <= move < |history|
    requires IsMoveAt(history[move - 1], history[move], i, p)
    ensures CalculateMovePosition(history, move) == At(RowCol(i).0, RowCol(i).1)
  {
    var prev, next := history[move - 1], history[move];
    var k := FirstDifference(prev, next, 0);
    assert k == i by {
      assert prev[i] != next[i];
    }
  }
}
