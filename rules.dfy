/** Board representation and win detection for 3x3 tic-tac-toe.
    A board is a row-major sequence of nine cells; `Empty` stands for the
    `null` of an unplayed square. */
module Rules {

  datatype Option<T> = None | Some(value: T)

  datatype Cell = Empty | X | O

  /** A square of the board, numbered 0..8 row by row. */
  type Index = i: int | 0 <= i < 9

  /** The eight winning triples: three rows, three columns, two diagonals,
      in the order in which they are scanned. */
  const Lines: seq<(Index, Index, Index)> :=
    [(0, 1, 2), (3, 4, 5), (6, 7, 8),
     (0, 3, 6), (1, 4, 7), (2, 5, 8),
     (0, 4, 8), (2, 4, 6)]

  /** The mark placed by the side to move. */
  function Mark(xIsNext: bool): (c: Cell)
    ensures c != Empty
    ensures c == X <==> xIsNext
  {
    if xIsNext then X else O
  }

  /** Line `k` holds three equal marks. */
  predicate LineWins(b: seq<Cell>, k: nat)
    requires |b| == 9 && k < |Lines|
  {
    var (p, q, r) := Lines[k];
    b[p] != Empty && b[p] == b[q] && b[p] == b[r]
  }

  /** The mark held by the first cell of line `k`. */
  function LineMark(b: seq<Cell>, k: nat): Cell
    requires |b| == 9 && k < |Lines|
  {
    b[Lines[k].0]
  }

  /** The mark of the first winning line at or after line `k`, or `Empty`
      when none of them wins. */
  function WinnerFrom(b: seq<Cell>, k: nat): Cell
    requires |b| == 9 && k <= |Lines|
    decreases |Lines| - k
  {
    if k == |Lines| then Empty
    else if LineWins(b, k) then LineMark(b, k)
    else WinnerFrom(b, k + 1)
  }

  /** The scan reports `Empty` exactly when no line from `k` on wins, and
      otherwise the mark of the first line from `k` on that wins. */
  lemma {:induction false} WinnerFromIsFirstLine(b: seq<Cell>, k: nat)
    requires |b| == 9 && k <= |Lines|
    ensures WinnerFrom(b, k) == Empty <==> forall j :: k <= j < |Lines| ==> !LineWins(b, j)
    ensures WinnerFrom(b, k) != Empty ==>
      exists j :: k <= j < |Lines| && LineWins(b, j) && LineMark(b, j) == WinnerFrom(b, k) &&
        forall i :: k <= i < j ==> !LineWins(b, i)
    decreases |Lines| - k
  {
    if k < |Lines| {
      WinnerFromIsFirstLine(b, k + 1);
    }
  }

  /** The winner of a board as `calculateWinner` reports it. */
  function Winner(b: seq<Cell>): Cell
    requires |b| == 9
  {
    WinnerFrom(b, 0)
  }

  /** Every square holds a mark. */
  predicate Full(b: seq<Cell>)
  {
    forall j :: 0 <= j < |b| ==> b[j] != Empty
  }

  /** Number of squares holding `c`. */
  function Count(b: seq<Cell>, c: Cell): nat
  {
    multiset(b)[c]
  }

  /** `calculateWinner`: scans the lines in order and returns the mark of
      the first one whose three squares agree, or `Empty`. */
  method CalculateWinner(squares: array<Cell>) returns (w: Cell)
    requires squares.Length == 9
    ensures w == Winner(squares[..])
  {
    var i := 0;
    while i < |Lines|
      invariant 0 <= i <= |Lines|
      invariant WinnerFrom(squares[..], i) == Winner(squares[..])
    {
      var (a, b, c) := Lines[i];
      if squares[a] != Empty && squares[a] == squares[b] && squares[a] == squares[c] {
        return squares[a];
      }
      i := i + 1;
    }
    return Empty;
  }
}
