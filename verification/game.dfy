/**
 * The game: the history of board snapshots, the move currently shown and the
 * order the move list is displayed in, with the operations that change them.
 */
module GameState {
  import opened Wrappers
  import opened TicTacToe
  import opened MovePositions

  /** The player who makes move number `move` + 1: X after an even number of moves. */
  function MoverAt(move: nat): Player
  {
    Mover(move % 2 == 0)
  }

  /** A history every game produces: it starts from the empty board and each
      snapshot follows from the one before by a legal move of the player whose
      turn it was. */
  ghost predicate ConsistentHistory(h: seq<Board>)
  {
    |h| >= 1 && h[0] == EmptyBoard &&
    forall k :: 1 <= k < |h| ==> LegalMove(h[k - 1], h[k], MoverAt(k - 1))
  }

  /** The number of cells of b equal to c. */
  function Count(b: seq<Cell>, c: Cell): (n: nat)
    ensures n <= |b|
  {
    if b == [] then 0 else (if b[0] == c then 1 else 0) + Count(b[1..], c)
  }

  /** Overwriting one cell changes each count by what left and what arrived. */
  lemma {:induction false} CountUpdate(b: seq<Cell>, i: nat, v: Cell, c: Cell)
    requires i < |b|
    ensures Count(b[i := v], c) ==
      Count(b, c) - (if b[i] == c then 1 else 0) + (if v == c then 1 else 0)
  {
    if i == 0 {
      assert b[i := v][1..] == b[1..];
    } else {
      assert b[i := v][1..] == b[1..][i - 1 := v];
      CountUpdate(b[1..], i - 1, v, c);
    }
  }

  lemma EmptyBoardCounts()
    ensures Count(EmptyBoard, Empty) == 9
    ensures Count(EmptyBoard, Marked(X)) == 0 && Count(EmptyBoard, Marked(O)) == 0
  {
  }

  /** In a consistent history the k-th snapshot holds (k + 1) / 2 marks of X,
      k / 2 marks of O and 9 - k empty cells; so X is next exactly when both
      players have played equally often, and no history is longer than ten. */
  lemma {:induction false} MarksMatchTurn(h: seq<Board>, k: nat)
    requires ConsistentHistory(h) && k < |h|
    ensures Count(h[k], Marked(X)) == (k + 1) / 2
    ensures Count(h[k], Marked(O)) == k / 2
    ensures Count(h[k], Empty) == 9 - k
    ensures MoverAt(k) == X <==> Count(h[k], Marked(X)) == Count(h[k], Marked(O))
  {
    if k == 0 {
      EmptyBoardCounts();
    } else {
      MarksMatchTurn(h, k - 1);
      assert LegalMove(h[k - 1], h[k], MoverAt(k - 1));
      var i: Index :| IsMoveAt(h[k - 1], h[k], i, MoverAt(k - 1));
      assert h[k] == h[k - 1][i := Marked(MoverAt(k - 1))];
      CountUpdate(h[k - 1], i, Marked(MoverAt(k - 1)), Marked(X));
      CountUpdate(h[k - 1], i, Marked(MoverAt(k - 1)), Marked(O));
      CountUpdate(h[k - 1], i, Marked(MoverAt(k - 1)), Empty);
    }
  }

  /** A consistent history holds at most ten snapshots: nine moves fill the board. */
  lemma HistoryAtMostTen(h: seq<Board>)
    requires ConsistentHistory(h)
    ensures |h| <= 10
  {
    MarksMatchTurn(h, |h| - 1);
  }

  /** In a consistent history every move after the first snapshot has a
      position, and that cell was empty before and holds the mover's mark after. */
  lemma ConsistentPositions(h: seq<Board>, move: nat)
    requires ConsistentHistory(h) && 1 <= move < |h|
    ensures CalculateMovePosition(h, move).At?
    ensures h[move - 1][CellIndex(CalculateMovePosition(h, move).row, CalculateMovePosition(h, move).col)] == Empty
    ensures h[move][CellIndex(CalculateMovePosition(h, move).row, CalculateMovePosition(h, move).col)] == Marked(MoverAt(move - 1))
  {
    assert LegalMove(h[move - 1], h[move], MoverAt(move - 1));
    var i: Index :| IsMoveAt(h[move - 1], h[move], i, MoverAt(move - 1));
    PositionOfMove(h, move, i, MoverAt(move - 1));
  }

  class Game {
    var history: seq<Board>
    var currentMove: nat
    var isHistoryReverse: bool

    /** The index invariant: the move shown is one of the history's snapshots. */
    ghost predicate Valid()
      reads this
    {
      currentMove < |history|
    }

    /** A new game: one empty board, move 0 shown, ascending order. */
    constructor ()
      ensures Valid() && ConsistentHistory(history)
      ensures history == [EmptyBoard] && currentMove == 0 && !isHistoryReverse
    {
      history := [EmptyBoard];
      currentMove := 0;
      isHistoryReverse := false;
    }

    /** X moves next when the move shown is even: in a consistent history,
        exactly when both players have the same number of marks on the board shown. */
    function XIsNext(): (r: bool)
      reads this
      ensures Valid() && ConsistentHistory(history) ==>
        (r <==> Count(history[currentMove], Marked(X)) == Count(history[currentMove], Marked(O)))
    {
      assert Valid() && ConsistentHistory(history) ==>
        (currentMove % 2 == 0 <==> Count(history[currentMove], Marked(X)) == Count(history[currentMove], Marked(O))) by {
        if Valid() && ConsistentHistory(history) {
          MarksMatchTurn(history, currentMove);
        }
      }
      currentMove % 2 == 0
    }

    /** The board shown: in a consistent history, the position after
        currentMove moves, with 9 - currentMove empty cells. */
    function CurrentSquares(): (b: Board)
      reads this
      requires Valid()
      ensures ConsistentHistory(history) ==> Count(b, Empty) == 9 - currentMove
    {
      assert ConsistentHistory(history) ==> Count(history[currentMove], Empty) == 9 - currentMove by {
        if ConsistentHistory(history) {
          MarksMatchTurn(history, currentMove);
        }
      }
      history[currentMove]
    }

    /** Records a new board: keeps the history up to and including the move
        shown, discards every later snapshot, appends nextSquares and shows it. */
    method HandlePlay(nextSquares: Board)
      requires Valid()
      modifies this`history, this`currentMove
      ensures Valid()
      ensures history == old(history)[..old(currentMove) + 1] + [nextSquares]
      ensures currentMove == |history| - 1 == old(currentMove) + 1
      ensures XIsNext() == !old(XIsNext())
      ensures old(ConsistentHistory(history)) &&
              LegalMove(old(CurrentSquares()), nextSquares, MoverAt(old(currentMove)))
              ==> ConsistentHistory(history)
    {
      var nextHistory := history[..currentMove + 1] + [nextSquares];
      history := nextHistory;
      currentMove := |nextHistory| - 1;
    }

    /** A click on cell i of the board shown: nothing changes when that board
        is already won or the cell is taken; otherwise the mover's mark is
        placed there and the result recorded by HandlePlay. */
    method Click(i: Index)
      requires Valid()
      modifies this`history, this`currentMove
      ensures Valid()
      ensures old(Refused(CurrentSquares(), i)) ==>
        history == old(history) && currentMove == old(currentMove)
      ensures !old(Refused(CurrentSquares(), i)) ==>
        history[..|history| - 1] == old(history)[..old(currentMove) + 1] &&
        currentMove == |history| - 1 == old(currentMove) + 1 &&
        IsMoveAt(old(CurrentSquares()), CurrentSquares(), i, Mover(old(XIsNext())))
      ensures old(ConsistentHistory(history)) ==> ConsistentHistory(history)
    {
      var next := HandleClick(CurrentSquares(), XIsNext(), i);
      if next.Some? {
        HandlePlay(next.value);
      }
    }

    /** Shows move nextMove; the history and the display order stay as they are. */
    method JumpTo(nextMove: nat)
      requires Valid() && nextMove < |history|
      modifies this`currentMove
      ensures Valid() && currentMove == nextMove
      ensures history == old(history) && isHistoryReverse == old(isHistoryReverse)
    {
      currentMove := nextMove;
    }

    /** Flips the order the move list is displayed in; nothing else changes. */
    method Reverse()
      requires Valid()
      modifies this`isHistoryReverse
      ensures Valid()
      ensures isHistoryReverse == !old(isHistoryReverse)
      ensures history == old(history) && currentMove == old(currentMove)
    {
      isHistoryReverse := !isHistoryReverse;
    }
  }

  /** Reversing twice restores the display order. */
  method ReverseTwice(g: Game)
    requires g.Valid()
    modifies g`isHistoryReverse
    ensures g.isHistoryReverse == old(g.isHistoryReverse)
  {
    g.Reverse();
    g.Reverse();
  }

  /** Playing the centre on a new board, then jumping back to the start and
      playing elsewhere, discards the first branch. */
  method BranchDiscardScenario()
  {
    var g := new Game();
    g.Click(4);
    assert g.history[1][4] == Marked(X) && !g.XIsNext();
    g.JumpTo(0);
    g.Click(0);
    assert |g.history| == 2 && g.history[1][0] == Marked(X) && g.history[1][4] == Empty;
  }

  /** X completes the top row: the winner is that row, the status names X,
      the move is shown at row 1, column 3, and a further click is refused. */
  method TopRowScenario()
  {
    var before: Board := [Marked(X), Marked(X), Empty, Marked(O), Marked(O), Empty, Empty, Empty, Empty];
    assert CalculateWinner(before) == None by { assert NoCompleteLine(before); }
    var next := HandleClick(before, true, 2);
    var after: Board := [Marked(X), Marked(X), Marked(X), Marked(O), Marked(O), Empty, Empty, Empty, Empty];
    assert next.value == after;
    WinnerIsFirstComplete(after, 0);
    var status := ComputeStatus(after, false);
    assert status == Winner(X);
    var refused := HandleClick(after, false, 8);
    assert refused == None;
    PositionOfMove([before, after], 1, 2, X);
    assert CalculateMovePosition([before, after], 1) == At(1, 3);
    assert RowCol(5) == (2, 3);
  }

  /** A full board without a complete line is a draw and refuses every click. */
  method DrawScenario()
  {
    var full: Board := [Marked(X), Marked(O), Marked(X), Marked(X), Marked(O), Marked(O), Marked(O), Marked(X), Marked(X)];
    assert CalculateWinner(full) == None by { assert NoCompleteLine(full); }
    var status := ComputeStatus(full, true);
    assert status == Draw;
    var refused := HandleClick(full, true, 5);
    assert refused == None;
  }
}
