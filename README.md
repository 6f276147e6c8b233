# Tic-tac-toe rules and move search, in Dafny

This project models the game engine of a React tic-tac-toe app (`Unknown/src/App.js`):

- win detection over the eight fixed lines of a 3×3 board (`calculateWinner`);
- the unpruned minimax search (`minimax`);
- the two-phase move choice of the computer player (`findBestMove`). Phase 1 takes the lowest square that wins at once. Phase 2 runs minimax over the squares in the order centre, corners, edges, and keeps the first strictly best one;
- the click rule of the `Board` component;
- the `Game` component's history of boards, its current-move pointer, the turn rule and the automatic O move.

A board is a sequence of nine `Cell`s (`Empty`, `X`, `O`), numbered row by row. `Empty` stands for the source's `null`.

Files:

- `rules.dfy` (module `Rules`): cells, the line table, `Winner` and the `CalculateWinner` loop.
- `search.dfy` (module `Search`): the minimax score `Value` and the `Minimax` method that computes it in place on an array, with every trial move undone. It also holds the phase-1 and phase-2 specifications, `BestMove`, the `FindBestMove` method on an array, and the lemmas about the chosen move.
- `game.dfy` (module `GameState`): the click rule `ClickResult`, the well-formedness of a history, and the class `Game` with `HandlePlay`, `JumpTo`, `HandleClick` and `AutoMove`.

The methods that work in place (`Minimax`, `FindBestMove`) are proved to leave their array as they found it. They are also proved to return what the specification functions `Value` and `BestMove` say. The lemmas then state what those functions promise:

- the score range;
- the move is legal;
- the move is the lowest immediate win;
- the move is optimal and the earliest in the preference order among ties;
- the move attains the minimax value of the position.

The model follows the code on three points where a more general design might differ:

- Only the fixed 3×3 board exists. There is no variable board size, win length or resize.
- `findBestMove` answers -1 on a full board. It does not raise an error.
- The automatic O move does not test whether the game is already won. It only requires that O is to move.

## Model

| member | source | states |
|---|---|---|
| `Rules.Mark` | Unknown/src/App.js:106-110 | the mark played is never empty, and it is X exactly when X is next |
| `Rules.WinnerFromIsFirstLine` | Unknown/src/App.js:5-21 | the winner is `Empty` exactly when no triple holds three equal marks; otherwise it is the mark of the first such triple in table order |
| `Rules.CalculateWinner` | Unknown/src/App.js:4-22 | the scanning loop returns exactly the winner of the board |
| `Search.Rank` | Unknown/src/App.js:53 | every square 0..8 appears in the preference order, so phase 2 looks at every empty square |
| `Search.FillingDecreasesVacancies` | Unknown/src/App.js:36-38 | a trial move on an empty square leaves fewer empty squares, so the recursion of minimax terminates |
| `Search.Value` | Unknown/src/App.js:25-49 | the minimax score always lies in {-1, 0, +1} |
| `Search.ValueAtTerminal` | Unknown/src/App.js:26-32 | an X win scores +1, an O win -1, and a full board with no winner 0 |
| `Search.Best` | Unknown/src/App.js:34-47 | the running best keeps the ±infinity sentinel exactly until an empty square has been tried; after that it lies in {-1, 0, +1} |
| `Search.Child` | Unknown/src/App.js:37-38 | the score of one trial move lies in {-1, 0, +1} |
| `Search.BestIsExtremum` | Unknown/src/App.js:34-48 | the running best is at least as good for the mover as every child tried, and some tried child attains it |
| `Search.ValueIsBestChild` | Unknown/src/App.js:34-48 | an open board is worth exactly the best child for the side to move |
| `Search.Minimax` | Unknown/src/App.js:25-49 | every trial move is undone, so the board is unchanged afterwards, and the returned score is the board's minimax value |
| `Search.FirstWin` | Unknown/src/App.js:58-67 | phase 1 finds no square exactly when none wins at once; otherwise it finds a winning square with no winning square before it |
| `Search.Phase2Optimal` | Unknown/src/App.js:69-85 | phase 2 answers -1 exactly when it has met no empty square. Otherwise its square is empty and at least as good as every candidate, and every earlier empty candidate is strictly worse |
| `Search.FindBestMove` | Unknown/src/App.js:52-88 | the board is unchanged on every return path, including the early return of phase 1, and the move is `BestMove` of the board |
| `Search.BestMoveLegal` | Unknown/src/App.js:54-87 | the move is -1 exactly when the board is full; otherwise it is an index 0..8 of an empty square |
| `Search.BestMoveTakesFirstWin` | Unknown/src/App.js:58-66 | when some square wins at once for the mover, the move is the lowest such square |
| `Search.BestMoveOptimal` | Unknown/src/App.js:53-85 | with no immediate win, the move's score is the best for the mover (max for X, min for O) among all empty squares, and every empty square before it in the order scores strictly worse |
| `Search.BestMoveAttainsValue` | Unknown/src/App.js:52-88 | on a board nobody has won with a square left, the chosen move, from either phase, attains the minimax value of the position |
| `Search.TakesTheOpenRow` | Unknown/src/App.js:58-66 | on X X _ / O O _ / _ _ _ the move is 2 for X and 5 for O |
| `Search.DrawnBoard` | Unknown/src/App.js:17-87 | on the drawn board X O X / X O O / O X X there is no winner, the board is full, the score is 0 and the search answers -1 |
| `GameState.ClickResult` | Unknown/src/App.js:101-111 | a click gives no new board when there is a winner or the square is taken. Otherwise the new board has the mover's mark on the square and every other square unchanged |
| `GameState.MarksMatchTurn` | Unknown/src/App.js:150 | in a history built by play, board k holds (k+1)/2 X's, k/2 O's and 9-k empty squares. So the parity rule gives X the move exactly when the counts are equal, and there are at most ten boards |
| `GameState.ClickExtends` | Unknown/src/App.js:101-111 | an accepted click followed by `handlePlay` keeps the history well formed |
| `GameState.AutoMoveExtends` | Unknown/src/App.js:175-180 | with O to move and a square left, the automatic move places one O on an empty square and keeps the history well formed |
| `GameState.Game.constructor` | Unknown/src/App.js:146-147 | a new game is a one-board history holding the empty board, with move 0 on display |
| `GameState.Game.TurnMatchesBoard` | Unknown/src/App.js:150 | in a history built by play, `XIsNext` (`currentMove % 2 === 0`) holds exactly when the board on display has as many X's as O's |
| `GameState.Game.CurrentSquares` | Unknown/src/App.js:151 | the board on display has nine squares |
| `GameState.Game.HandlePlay` | Unknown/src/App.js:164-168 | the history becomes its boards 0..currentMove followed by the new board, and the new board is on display |
| `GameState.Game.JumpTo` | Unknown/src/App.js:170-172 | the pointer moves and the history is kept |
| `GameState.Game.HandleClick` | Unknown/src/App.js:101-112 | a rejected click changes nothing; an accepted one is played through `HandlePlay` |
| `GameState.Game.AutoMove` | Unknown/src/App.js:175-180 | with O to move, the board with O on `findBestMove`'s square is appended (an unchanged copy on a full board). When a square is left, a well-formed history stays well formed |

## Left out

- The JSX rendering is not modelled: `Square`, the markup and status line of `Board`, and the move-list buttons of `Game` (`Unknown/src/App.js:91-97`, `114-141`, `182-209`). It holds no game logic.
- The `score` and `bestScore` state and the `useEffect` that sets them are not modelled (`Unknown/src/App.js:148-149`, `153-162`). They re-derive the winner and the full-board check; `Search.ValueAtTerminal` states the same scores.
- React state hooks and re-rendering are not modelled. `Game` is a plain class whose methods are the state changes. `AutoMove` is an explicit step the caller takes when O is to move. The source runs it during every render in which O is to move.
- The unused `depth` parameter of `minimax` is dropped.
- `±Infinity` is modelled as the integers ±2. They serve only as starting values of a running best score.
- Aliasing is not modelled. In the source, `findBestMove` writes trial moves into the history's own array and undoes them. The model copies the board on display into a fresh array, so history boards are values.
- On a full board the source writes `'O'` at index -1 of the copied array. That adds a property and leaves the nine squares alone. `GameState.Game.AutoMove` models this as appending an unchanged copy of the board, without the extra property. After move 9 (full board, O to move, drawn or won by X) the history therefore gains an eleventh entry, move 10, that repeats the full board. That history no longer adds one mark per step, so `GameState.Game.AutoMove` promises a well-formed history only when a square is left.
- `GameState.Game.JumpTo` requires the target move to be in the history. The source trusts its move-list buttons, which only offer such moves.
- The boards in the source may hold any JavaScript value. The model admits only `Empty`, `X` and `O`.
- There are no boards of other sizes, no variable win length and no resize, because the code has none.
- It is not proved that O answers X's centre opening in a corner (square 0). That needs the minimax value of the whole game tree.
