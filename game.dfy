/** Move legality and the game history: the board's click rule, the
    history of boards with a current-move pointer, and the automatic O
    move, as plain state transitions. */
module GameState {
  import opened Rules
  import opened Search

  const EmptyBoard: seq<Cell> := [Empty, Empty, Empty, Empty, Empty, Empty, Empty, Empty, Empty]

  /** `handleClick` on square `i`: no new board when the game is already won
      or the square is taken; otherwise the board with the mover's mark on
      `i` and every other square as it was. */
  function ClickResult(squares: seq<Cell>, xIsNext: bool, i: Index): (r: Option<seq<Cell>>)
    requires |squares| == 9
    ensures r.None? <==> Winner(squares) != Empty || squares[i] != Empty
    ensures r.Some? ==>
      |r.value| == 9 && r.value[i] == Mark(xIsNext) &&
      forall j :: 0 <= j < 9 && j != i ==> r.value[j] == squares[j]
  {
    if Winner(squares) != Empty || squares[i] != Empty then None
    else Some(squares[i := Mark(xIsNext)])
  }

  /** `next` is `prev` with one more mark, of the given side, on a square
      that was empty. */
  ghost predicate Steps(prev: seq<Cell>, next: seq<Cell>, xMoved: bool)
  {
    |prev| == 9 && exists c: Index :: prev[c] == Empty && next == prev[c := Mark(xMoved)]
  }

  /** A history as the game builds it: it starts from the empty board, and
      entry k+1 adds one mark to entry k, X's on even k and O's on odd k. */
  ghost predicate WellFormed(h: seq<seq<Cell>>)
  {
    && |h| > 0
    && h[0] == EmptyBoard
    && (forall k :: 0 <= k < |h| ==> |h[k]| == 9)
    && (forall k :: 0 <= k < |h| - 1 ==> Steps(h[k], h[k + 1], k % 2 == 0))
  }

  /** Placing mark `m` on the empty square `c` turns one empty square into
      an `m` and leaves the other counts alone. */
  lemma CountAfterPlace(b: seq<Cell>, c: Index, m: Cell)
    requires |b| == 9 && b[c] == Empty && m != Empty
    ensures Count(b[c := m], Empty) == Count(b, Empty) - 1
    ensures Count(b[c := m], m) == Count(b, m) + 1
    ensures forall d :: d != Empty && d != m ==> Count(b[c := m], d) == Count(b, d)
  {
    assert multiset(b[c := m]) == multiset(b) - multiset{Empty} + multiset{m};
  }

  /** The empty board holds nine empty squares and no mark. */
  lemma EmptyBoardCounts()
    ensures Count(EmptyBoard, Empty) == 9
    ensures Count(EmptyBoard, X) == 0 && Count(EmptyBoard, O) == 0
  {
    assert multiset(EmptyBoard) == multiset{Empty, Empty, Empty, Empty, Empty, Empty, Empty, Empty, Empty};
  }

  /** One step of play adds one mark of the side that moved and uses up
      one empty square. */
  lemma StepCounts(prev: seq<Cell>, next: seq<Cell>, xMoved: bool)
    requires Steps(prev, next, xMoved)
    ensures Count(next, Empty) == Count(prev, Empty) - 1
    ensures Count(next, X) == Count(prev, X) + (if xMoved then 1 else 0)
    ensures Count(next, O) == Count(prev, O) + (if xMoved then 0 else 1)
  {
    var c: Index :| prev[c] == Empty && next == prev[c := Mark(xMoved)];
    CountAfterPlace(prev, c, Mark(xMoved));
  }

  /** Board k of a well-formed history holds (k+1)/2 X's, k/2 O's and 9-k
      empty squares, so X is to move exactly when the counts are equal:
      the parity rule `currentMove % 2 == 0` agrees with the board. */
  lemma {:induction false} MarksMatchTurn(h: seq<seq<Cell>>, k: nat)
    requires WellFormed(h) && k < |h|
    ensures Count(h[k], X) == (k + 1) / 2
    ensures Count(h[k], O) == k / 2
    ensures Count(h[k], Empty) == 9 - k
    ensures k <= 9
    ensures k % 2 == 0 <==> Count(h[k], X) == Count(h[k], O)
  {
    if k == 0 {
      EmptyBoardCounts();
    } else {
      MarksMatchTurn(h, k - 1);
      StepCounts(h[k - 1], h[k], (k - 1) % 2 == 0);
    }
  }

  /** `handlePlay` from entry `cm` keeps a history well formed when the new
      board comes from an accepted click of the side whose turn it is. */
  lemma ClickExtends(h: seq<seq<Cell>>, cm: nat, i: Index)
    requires WellFormed(h) && cm < |h|
    requires ClickResult(h[cm], cm % 2 == 0, i).Some?
    ensures WellFormed(h[..cm + 1] + [ClickResult(h[cm], cm % 2 == 0, i).value])
  {
  }

  /** The automatic O move keeps a history well formed when O is to move
      and some square is empty: it places one O on an empty square. */
  lemma AutoMoveExtends(h: seq<seq<Cell>>, cm: nat)
    requires WellFormed(h) && cm < |h| && cm % 2 == 1 && !Full(h[cm])
    ensures var m := BestMove(h[cm], false);
      0 <= m < 9 && h[cm][m] == Empty && WellFormed(h[..cm + 1] + [h[cm][m := O]])
  {
    BestMoveLegal(h[cm], false);
    var m := BestMove(h[cm], false);
    var next := h[cm][m := O];
    var h' := h[..cm + 1] + [next];
    assert h'[cm] == h[cm] && h'[cm + 1] == next;
    assert Steps(h[cm], next, cm % 2 == 0);
    forall k | 0 <= k < |h'| - 1
      ensures Steps(h'[k], h'[k + 1], k % 2 == 0)
    {
      if k < cm {
        assert h'[k] == h[k] && h'[k + 1] == h[k + 1];
      }
    }
  }

  /** The `Game` component's state: the board history and the index of the
      board on display. Whose turn it is follows from the index. */
  class Game {
    var history: seq<seq<Cell>>
    var currentMove: nat

    ghost predicate Valid()
      reads this
    {
      && |history| > 0
      && currentMove < |history|
      && forall k :: 0 <= k < |history| ==> |history[k]| == 9
    }

    /** A new game: one empty board, move 0 on display. */
    constructor ()
      ensures Valid() && WellFormed(history)
      ensures history == [EmptyBoard] && currentMove == 0
    {
      history := [EmptyBoard];
      currentMove := 0;
    }

    /** `xIsNext`: X moves on even move numbers. */
    function XIsNext(): bool
      reads this
    {
      currentMove % 2 == 0
    }

    /** In a history built by play, `XIsNext` gives X the move exactly when
      the board on display holds as many X's as O's. */
    lemma TurnMatchesBoard()
      requires Valid() && WellFormed(history)
      ensures XIsNext() <==> Count(CurrentSquares(), X) == Count(CurrentSquares(), O)
    {
      MarksMatchTurn(history, currentMove);
    }

    /** The board on display. */
    function CurrentSquares(): (s: seq<Cell>)
      reads this
      requires Valid()
      ensures |s| == 9
    {
      history[currentMove]
    }

    /** `handlePlay`: drops every board after the one on display, appends
      `nextSquares`, and displays it. */
    method HandlePlay(nextSquares: seq<Cell>)
      requires Valid() && |nextSquares| == 9
      modifies this
      ensures Valid()
      ensures history == old(history[..currentMove + 1]) + [nextSquares]
      ensures currentMove == |history| - 1 == old(currentMove) + 1
    {
      history := history[..currentMove + 1] + [nextSquares];
      currentMove := |history| - 1;
    }

    /** `jumpTo`: displays an earlier (or later) board of the history; the
      history itself is kept. */
    method JumpTo(nextMove: nat)
      requires Valid() && nextMove < |history|
      modifies this
      ensures Valid()
      ensures history == old(history) && currentMove == nextMove
    {
      currentMove := nextMove;
    }

    /** A click on square `i` of the board on display: ignored when the
      game is won or the square is taken, otherwise played through
      `HandlePlay` with the mark of the side to move. */
    method HandleClick(i: Index)
      requires Valid()
      modifies this
      ensures Valid()
      ensures var r := ClickResult(old(history[currentMove]), old(currentMove) % 2 == 0, i);
        && (r.None? ==> history == old(history) && currentMove == old(currentMove))
        && (r.Some? ==> history == old(history[..currentMove + 1]) + [r.value] &&
                        currentMove == old(currentMove) + 1)
      ensures old(WellFormed(history)) ==> WellFormed(history)
    {
      var squares := CurrentSquares();
      var r := ClickResult(squares, XIsNext(), i);
      if r.Some? {
        ghost var h, cm := history, currentMove;
        HandlePlay(r.value);
        if WellFormed(h) {
          ClickExtends(h, cm, i);
        }
      }
    }

    /** The automatic O move: when O is to move, play `FindBestMove` for O
      on a copy of the board on display. On a full board the search answers
      -1; writing O at index -1 leaves all nine squares alone, so an
      unchanged copy of the board is appended. */
    method AutoMove()
      requires Valid() && !XIsNext()
      modifies this
      ensures Valid()
      ensures var cur := old(history[currentMove]); var m := BestMove(cur, false);
        && history == old(history[..currentMove + 1]) + [if 0 <= m < 9 then cur[m := O] else cur]
        && currentMove == old(currentMove) + 1
      ensures old(WellFormed(history)) && !Full(old(history[currentMove])) ==> WellFormed(history)
    {
      var cur := CurrentSquares();
      var squares := new Cell[9](k => if 0 <= k < |cur| then cur[k] else Empty);
      assert squares[..] == cur;
      var best := FindBestMove(squares, false);
      BestMoveLegal(cur, false);
      var next := if best == -1 then cur else cur[best := O];
      ghost var h, cm := history, currentMove;
      HandlePlay(next);
      if WellFormed(h) && !Full(cur) {
        AutoMoveExtends(h, cm);
      }
    }
  }
}
