/** The move-search engine: unpruned minimax over the nine squares, and the
    two-phase move choice (take an immediate win, otherwise search the
    squares in a fixed preference order). */
module Search {
  import opened Rules

  /** Preference order of phase 2: centre, corners, edges. */
  const Order: seq<Index> := [4, 0, 2, 6, 8, 1, 3, 5, 7]

  /** Where square `j` stands in `Order`. */
  function Rank(j: Index): (k: nat)
    ensures k < |Order| && Order[k] == j
  {
    match j
    case 4 => 0
    case 0 => 1
    case 2 => 2
    case 6 => 3
    case 8 => 4
    case 1 => 5
    case 3 => 6
    case 5 => 7
    case 7 => 8
  }

  /** Starting value of a running best score: worse for the mover than any
      real score (stands in for -Infinity / +Infinity). */
  function Sentinel(maximizing: bool): int
  {
    if maximizing then -2 else 2
  }

  /** Score `s` is at least as good as `t` for the side that maximizes
      (X) or minimizes (O). */
  predicate AtLeastAsGood(maximizing: bool, s: int, t: int)
  {
    if maximizing then s >= t else s <= t
  }

  /** Score `s` is strictly better than `t` for the mover. */
  predicate StrictlyBetter(maximizing: bool, s: int, t: int)
  {
    if maximizing then s > t else s < t
  }

  function Max(a: int, b: int): int { if a >= b then a else b }

  function Min(a: int, b: int): int { if a <= b then a else b }

  /** Number of empty squares: what each recursive call uses up. */
  function Vacancies(b: seq<Cell>): nat
  {
    Count(b, Empty)
  }

  lemma FillingDecreasesVacancies(b: seq<Cell>, i: Index, c: Cell)
    requires |b| == 9 && b[i] == Empty && c != Empty
    ensures Vacancies(b[i := c]) < Vacancies(b)
  {
  }

  /** The minimax score of a board with X maximizing and O minimizing:
      +1 when X has won, -1 when O has won, 0 on a full board, otherwise
      the best score of the children for the side to move. */
  function Value(b: seq<Cell>, maximizing: bool): (score: int)
    requires |b| == 9
    ensures -1 <= score <= 1
    decreases Vacancies(b), 1
  {
    var w := Winner(b);
    if w != Empty then (if w == X then 1 else -1)
    else if Full(b) then 0
    else Best(b, maximizing, 9)
  }

  /** The running best score of the minimax loop after it has looked at
      squares 0 .. n-1: the sentinel until an empty square is met, then the
      maximum (X) or minimum (O) of the children seen so far. */
  function Best(b: seq<Cell>, maximizing: bool, n: nat): (score: int)
    requires |b| == 9 && n <= 9
    ensures score == Sentinel(maximizing) || -1 <= score <= 1
    ensures score == Sentinel(maximizing) <==> forall j :: 0 <= j < n ==> b[j] != Empty
    decreases Vacancies(b), 0, n
  {
    if n == 0 then Sentinel(maximizing)
    else
      var acc := Best(b, maximizing, n - 1);
      if b[n - 1] != Empty then acc
      else
        var s := Child(b, n - 1, maximizing);
        if maximizing then Max(s, acc) else Min(s, acc)
  }

  /** The score of playing the mover's mark on the empty square `i`. */
  function Child(b: seq<Cell>, i: Index, maximizing: bool): (score: int)
    requires |b| == 9 && b[i] == Empty
    ensures -1 <= score <= 1
    decreases Vacancies(b), 0, 0
  {
    FillingDecreasesVacancies(b, i, Mark(maximizing));
    Value(b[i := Mark(maximizing)], !maximizing)
  }

  /** One step of the minimax loop: an occupied square leaves the running
      best alone; an empty one folds its child's score in. */
  lemma BestStep(b: seq<Cell>, maximizing: bool, n: nat)
    requires |b| == 9 && 0 < n <= 9
    ensures b[n - 1] != Empty ==> Best(b, maximizing, n) == Best(b, maximizing, n - 1)
    ensures b[n - 1] == Empty ==>
      var s, acc := Child(b, n - 1, maximizing), Best(b, maximizing, n - 1);
      Best(b, maximizing, n) == if maximizing then Max(s, acc) else Min(s, acc)
  {
  }

  /** No child among squares 0 .. n-1 beats `score` for the mover. */
  predicate BeatsChildren(b: seq<Cell>, maximizing: bool, n: nat, score: int)
    requires |b| == 9 && n <= 9
  {
    forall j {:trigger Child(b, j, maximizing)} :: 0 <= j < n && b[j] == Empty ==>
      AtLeastAsGood(maximizing, score, Child(b, j, maximizing))
  }

  /** Some child among squares 0 .. n-1 scores exactly `score`. */
  predicate AttainedBelow(b: seq<Cell>, maximizing: bool, n: nat, score: int)
    requires |b| == 9 && n <= 9
  {
    exists j {:trigger Child(b, j, maximizing)} :: 0 <= j < n && b[j] == Empty && Child(b, j, maximizing) == score
  }

  /** The running best is an extremum of the children seen: no child beats
      it, and once an empty square has been seen some child attains it. */
  lemma {:induction false} BestIsExtremum(b: seq<Cell>, maximizing: bool, n: nat)
    requires |b| == 9 && n <= 9
    ensures BeatsChildren(b, maximizing, n, Best(b, maximizing, n))
    ensures (exists j :: 0 <= j < n && b[j] == Empty) ==> AttainedBelow(b, maximizing, n, Best(b, maximizing, n))
  {
    if n > 0 {
      BestIsExtremum(b, maximizing, n - 1);
      BestStep(b, maximizing, n);
      var acc := Best(b, maximizing, n - 1);
      var r := Best(b, maximizing, n);
      if b[n - 1] == Empty {
        var s := Child(b, n - 1, maximizing);
        assert AtLeastAsGood(maximizing, r, acc) && AtLeastAsGood(maximizing, r, s);
        if r == s {
          assert AttainedBelow(b, maximizing, n, r);
        } else {
          assert r == acc && acc != Sentinel(maximizing);
          var j :| 0 <= j < n - 1 && b[j] == Empty && Child(b, j, maximizing) == acc;
          assert AttainedBelow(b, maximizing, n, r);
        }
      } else {
        assert r == acc;
        if exists j :: 0 <= j < n && b[j] == Empty {
          var j :| 0 <= j < n - 1 && b[j] == Empty && Child(b, j, maximizing) == acc;
          assert AttainedBelow(b, maximizing, n, r);
        }
      }
    }
  }

  /** A board that nobody has won yet is worth exactly the best child for
      the side to move. */
  lemma ValueIsBestChild(b: seq<Cell>, maximizing: bool)
    requires |b| == 9 && Winner(b) == Empty && !Full(b)
    ensures BeatsChildren(b, maximizing, 9, Value(b, maximizing))
    ensures AttainedBelow(b, maximizing, 9, Value(b, maximizing))
  {
    BestIsExtremum(b, maximizing, 9);
  }

  /** The terminal scores: +1 when X has won, -1 when O has won, 0 on a full
      board with no winner. */
  lemma ValueAtTerminal(b: seq<Cell>, maximizing: bool)
    requires |b| == 9
    ensures Winner(b) == X ==> Value(b, maximizing) == 1
    ensures Winner(b) == O ==> Value(b, maximizing) == -1
    ensures Winner(b) == Empty && Full(b) ==> Value(b, maximizing) == 0
  {
  }

  /** `minimax`: tries every empty square in place, recurses for the other
      side, undoes the move, and keeps the maximum (X) or minimum (O). */
  method Minimax(board: array<Cell>, maximizing: bool) returns (score: int)
    requires board.Length == 9
    modifies board
    ensures board[..] == old(board[..])
    ensures score == Value(old(board[..]), maximizing)
    decreases Vacancies(board[..])
  {
    var winner := CalculateWinner(board);
    if winner != Empty {
      return if winner == X then 1 else -1;
    }
    if Full(board[..]) {
      return 0;
    }
    ghost var b := board[..];
    score := Sentinel(maximizing);
    var i := 0;
    while i < board.Length
      invariant 0 <= i <= 9
      invariant board[..] == b
      invariant score == Best(b, maximizing, i)
    {
      if board[i] == Empty {
        board[i] := Mark(maximizing);
        FillingDecreasesVacancies(b, i, Mark(maximizing));
        assert board[..] == b[i := Mark(maximizing)];
        var s := Minimax(board, !maximizing);
        board[i] := Empty;
        assert board[..] == b;
        if maximizing {
          score := Max(s, score);
        } else {
          score := Min(s, score);
        }
      }
      i := i + 1;
    }
  }

  /** Playing `mark` on square `i` wins outright. */
  predicate WinsAt(b: seq<Cell>, i: Index, mark: Cell)
    requires |b| == 9
  {
    b[i] == Empty && Winner(b[i := mark]) == mark
  }

  /** Phase 1: the lowest square at or after `i` where `mark` wins at once. */
  function FirstWin(b: seq<Cell>, mark: Cell, i: nat): (r: Option<Index>)
    requires |b| == 9 && i <= 9
    ensures r.None? <==> forall j :: i <= j < 9 ==> !WinsAt(b, j, mark)
    ensures r.Some? ==>
      i <= r.value && WinsAt(b, r.value, mark) &&
      forall j :: i <= j < r.value ==> !WinsAt(b, j, mark)
    decreases 9 - i
  {
    if i == 9 then None
    else if WinsAt(b, i, mark) then Some(i)
    else FirstWin(b, mark, i + 1)
  }

  /** The pair (bestMove, bestScore) kept by phase 2. */
  datatype Choice = Choice(move: int, score: int)

  /** Phase 2 after the first `n` squares of `Order`: a candidate replaces
      the current choice only when its score is strictly better. */
  function Phase2(b: seq<Cell>, maximizing: bool, n: nat): Choice
    requires |b| == 9 && n <= |Order|
  {
    if n == 0 then Choice(-1, Sentinel(maximizing))
    else
      var c := Phase2(b, maximizing, n - 1);
      var idx := Order[n - 1];
      if b[idx] != Empty then c
      else
        var s := Child(b, idx, maximizing);
        if StrictlyBetter(maximizing, s, c.score) then Choice(idx, s) else c
  }

  /** `findBestMove`'s answer on board `b`: the phase-1 win if there is one,
      otherwise the phase-2 choice (-1 when no square is empty). */
  function BestMove(b: seq<Cell>, maximizing: bool): int
    requires |b| == 9
  {
    match FirstWin(b, Mark(maximizing), 0)
    case Some(i) => i
    case None => Phase2(b, maximizing, |Order|).move
  }

  /** One step of phase 2: an occupied candidate leaves the choice alone;
      an empty one replaces it exactly when its score is strictly better. */
  lemma Phase2Step(b: seq<Cell>, maximizing: bool, n: nat)
    requires |b| == 9 && 0 < n <= |Order|
    ensures var c, idx := Phase2(b, maximizing, n - 1), Order[n - 1];
      Phase2(b, maximizing, n) ==
        if b[idx] == Empty && StrictlyBetter(maximizing, Child(b, idx, maximizing), c.score)
        then Choice(idx, Child(b, idx, maximizing)) else c
  {
  }

  /** No empty candidate among the first `n` of `Order` scores better than
      `score` for the mover. */
  predicate Dominates(b: seq<Cell>, maximizing: bool, n: nat, score: int)
    requires |b| == 9 && n <= |Order|
  {
    forall k {:trigger Child(b, Order[k], maximizing)} :: 0 <= k < n && b[Order[k]] == Empty ==>
      AtLeastAsGood(maximizing, score, Child(b, Order[k], maximizing))
  }

  /** Candidate `p` of `Order` is empty, scores `score`, and every empty
      candidate before it scores strictly worse. */
  predicate FirstBestAt(b: seq<Cell>, maximizing: bool, p: nat, score: int)
    requires |b| == 9 && p < |Order|
  {
    && b[Order[p]] == Empty
    && score == Child(b, Order[p], maximizing)
    && forall k {:trigger Child(b, Order[k], maximizing)} :: 0 <= k < p && b[Order[k]] == Empty ==>
         StrictlyBetter(maximizing, score, Child(b, Order[k], maximizing))
  }

  /** Phase 2 keeps the first strictly best candidate of `Order` seen so far:
      -1 only while no empty square has been seen; otherwise an empty square
      whose score is at least as good as every candidate seen and strictly
      better than every earlier one. */
  lemma {:induction false} Phase2Optimal(b: seq<Cell>, maximizing: bool, n: nat)
    requires |b| == 9 && n <= |Order|
    ensures var c := Phase2(b, maximizing, n);
      && (c.move == -1 <==> forall k :: 0 <= k < n ==> b[Order[k]] != Empty)
      && (c.move == -1 ==> c.score == Sentinel(maximizing))
      && (c.move != -1 ==> exists p: nat :: p < n && Order[p] == c.move && FirstBestAt(b, maximizing, p, c.score))
      && Dominates(b, maximizing, n, c.score)
  {
    if n > 0 {
      Phase2Optimal(b, maximizing, n - 1);
      Phase2Step(b, maximizing, n);
      var c := Phase2(b, maximizing, n - 1);
      var idx := Order[n - 1];
      if b[idx] == Empty {
        var s := Child(b, idx, maximizing);
        if StrictlyBetter(maximizing, s, c.score) {
          assert Phase2(b, maximizing, n) == Choice(idx, s);
          forall k | 0 <= k < n - 1 && b[Order[k]] == Empty
            ensures StrictlyBetter(maximizing, s, Child(b, Order[k], maximizing))
          {
            assert AtLeastAsGood(maximizing, c.score, Child(b, Order[k], maximizing));
          }
          assert FirstBestAt(b, maximizing, n - 1, s);
        } else {
          assert c.move != -1;
          var p: nat :| p < n - 1 && Order[p] == c.move && FirstBestAt(b, maximizing, p, c.score);
          assert Phase2(b, maximizing, n) == c;
          assert FirstBestAt(b, maximizing, p, c.score);
        }
      }
    }
  }

  /** `findBestMove`: phase 1 returns the lowest square that wins at once
      for the mover; phase 2 runs minimax over the squares in `Order` and
      keeps the first strictly best one. Every trial move is undone. */
  method FindBestMove(squares: array<Cell>, maximizing: bool) returns (move: int)
    requires squares.Length == 9
    modifies squares
    ensures squares[..] == old(squares[..])
    ensures move == BestMove(old(squares[..]), maximizing)
  {
    ghost var b := squares[..];
    var mark := Mark(maximizing);
    var i := 0;
    while i < squares.Length
      invariant 0 <= i <= 9
      invariant squares[..] == b
      invariant FirstWin(b, mark, i) == FirstWin(b, mark, 0)
    {
      if squares[i] == Empty {
        squares[i] := mark;
        assert squares[..] == b[i := mark];
        var w := CalculateWinner(squares);
        squares[i] := Empty;
        assert squares[..] == b;
        if w == mark {
          return i;
        }
      }
      i := i + 1;
    }

    var bestMove: int := -1;
    var bestScore := Sentinel(maximizing);
    var k := 0;
    while k < |Order|
      invariant 0 <= k <= |Order|
      invariant squares[..] == b
      invariant Choice(bestMove, bestScore) == Phase2(b, maximizing, k)
    {
      var idx := Order[k];
      if squares[idx] == Empty {
        squares[idx] := mark;
        assert squares[..] == b[idx := mark];
        var score := Minimax(squares, !maximizing);
        squares[idx] := Empty;
        assert squares[..] == b;
        if maximizing && score > bestScore {
          bestScore := score;
          bestMove := idx;
        } else if !maximizing && score < bestScore {
          bestScore := score;
          bestMove := idx;
        }
      }
      k := k + 1;
    }
    return bestMove;
  }

  /** The move is -1 exactly when the board is full; otherwise it names an
      empty square. */
  lemma BestMoveLegal(b: seq<Cell>, maximizing: bool)
    requires |b| == 9
    ensures BestMove(b, maximizing) == -1 <==> Full(b)
    ensures BestMove(b, maximizing) != -1 ==>
      0 <= BestMove(b, maximizing) < 9 && b[BestMove(b, maximizing)] == Empty
  {
    if FirstWin(b, Mark(maximizing), 0).None? {
      Phase2Optimal(b, maximizing, |Order|);
      if !Full(b) {
        var j :| 0 <= j < 9 && b[j] == Empty;
        assert b[Order[Rank(j)]] == Empty;
      }
    }
  }

  /** When some square wins at once for the mover, the move is the lowest
      such square. */
  lemma BestMoveTakesFirstWin(b: seq<Cell>, maximizing: bool, i: Index)
    requires |b| == 9 && WinsAt(b, i, Mark(maximizing))
    ensures var m := BestMove(b, maximizing);
      0 <= m <= i && WinsAt(b, m, Mark(maximizing)) &&
      forall j :: 0 <= j < m ==> !WinsAt(b, j, Mark(maximizing))
  {
  }

  /** With no immediate win and a square left, the move has the best
      minimax score among all empty squares, and every square before it in
      `Order` scores strictly worse. */
  lemma BestMoveOptimal(b: seq<Cell>, maximizing: bool)
    requires |b| == 9 && !Full(b)
    requires forall j :: 0 <= j < 9 ==> !WinsAt(b, j, Mark(maximizing))
    ensures var m := BestMove(b, maximizing);
      && 0 <= m < 9 && b[m] == Empty
      && (forall j {:trigger Child(b, j, maximizing)} :: 0 <= j < 9 && b[j] == Empty ==>
            AtLeastAsGood(maximizing, Child(b, m, maximizing), Child(b, j, maximizing)))
      && Order[Rank(m)] == m
      && (forall k {:trigger Child(b, Order[k], maximizing)} :: 0 <= k < Rank(m) && b[Order[k]] == Empty ==>
            StrictlyBetter(maximizing, Child(b, m, maximizing), Child(b, Order[k], maximizing)))
  {
    BestMoveLegal(b, maximizing);
    Phase2Optimal(b, maximizing, |Order|);
    var m := BestMove(b, maximizing);
    forall j | 0 <= j < 9 && b[j] == Empty
      ensures AtLeastAsGood(maximizing, Child(b, m, maximizing), Child(b, j, maximizing))
    {
      assert Order[Rank(j)] == j;
    }
  }

  /** On a board still in play the chosen move attains the minimax value of
      the position: phase 1 and phase 2 both pick an optimal move. */
  lemma BestMoveAttainsValue(b: seq<Cell>, maximizing: bool)
    requires |b| == 9 && Winner(b) == Empty && !Full(b)
    ensures var m := BestMove(b, maximizing);
      0 <= m < 9 && b[m] == Empty && Child(b, m, maximizing) == Value(b, maximizing)
  {
    BestMoveLegal(b, maximizing);
    ValueIsBestChild(b, maximizing);
    var m := BestMove(b, maximizing);
    var mark := Mark(maximizing);
    if FirstWin(b, mark, 0).Some? {
      assert Winner(b[m := mark]) == mark;
      var j :| 0 <= j < 9 && b[j] == Empty && Child(b, j, maximizing) == Value(b, maximizing);
    } else {
      BestMoveOptimal(b, maximizing);
      var j :| 0 <= j < 9 && b[j] == Empty && Child(b, j, maximizing) == Value(b, maximizing);
    }
  }

  /** X holds squares 0 and 1 with square 2 free: X completes the top row
      at once, and O, to move on the same board, completes the middle row. */
  lemma TakesTheOpenRow()
    ensures BestMove([X, X, Empty, O, O, Empty, Empty, Empty, Empty], true) == 2
    ensures BestMove([X, X, Empty, O, O, Empty, Empty, Empty, Empty], false) == 5
  {
    var b := [X, X, Empty, O, O, Empty, Empty, Empty, Empty];
    assert LineWins(b[2 := X], 0);
    assert !WinsAt(b, 2, O) by { assert !LineWins(b[2 := O], 0); }
    assert LineWins(b[5 := O], 1);
  }

  /** A drawn board: nobody has won, no square is left, the score is 0 and
      the search answers -1. */
  lemma DrawnBoard()
    ensures var b := [X, O, X, X, O, O, O, X, X];
      Winner(b) == Empty && Full(b) && Value(b, true) == 0 && BestMove(b, false) == -1
  {
  }
}
