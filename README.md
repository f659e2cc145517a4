# Tic-tac-toe game state

A Dafny model of `GameState`, the state machine at the heart of the
tic-tac-toe application. It owns:
- a 3x3 grid of marks;
- the player to move;
- the number of completed turns;
- a finished flag.

It offers:
- a move guard (`CanMakeMove`);
- a move (`MakeMove`) that checks for a win on the lines through the played
  cell before it checks for a tie;
- a reset.

Observers are notified of three events: `MoveMade`, `GameFinished` and
`GameRestarted`.

The model has three modules:

- `Grid` describes the board as a value:
  - `Player` is one of `None`, `X` and `O`.
  - Boards are `seq<seq<Player>>`.
  - `Line` names the eight lines of three.
  - `Complete`, `HasThree` and `NoThree` are the reference meaning of
    "three in a row".
  - `Filled` counts the marked cells.
  - Lemmas cover what writing one mark can change.
- `Rules` covers the game logic on values:
  - the result datatypes (`EndType`, `EndInfo`, `GameResult`) and the
    `Event` notifications;
  - `CheckLine` and `CheckForWin`, which mirror the source's private
    helpers;
  - `AfterMove`, the transition a legal move makes, on a value `Game`;
  - `Consistent`, the invariant of every reachable state;
  - the lemmas that the win check is sound, complete and ordered, that moves
    and restarts preserve `Consistent`, and that turns are counted as the
    source counts them.
- `TicTacToe` holds the class `GameState`:
  - Its fields are `gameGrid: array2<Player>`, `currentPlayer`,
    `turnsPassed` and `isFinished`, updated in place by its methods.
  - It has a ghost field `events` that records, in firing order, every
    notification the object fires.
  - `Abstract()` maps the object to a `Game`.
  - `Valid()` is `Shaped() && Consistent(Abstract())`: the grid is 3x3 and
    the abstract state is consistent.
  - `MakeMove` is proved to be a no-op when `CanMakeMove` rejects the move,
    and to be exactly `AfterMove` otherwise.

Two consequences of the code worth stating:

- **Turn count after a win.** A winning move does not count its turn:
  `GameState.cs:37-41` returns before `TurnsPassed++`. So after a win the
  board holds one mark more than `turnsPassed`; `TurnCount` states this.
- **Reset.** `Reset` allocates a fresh grid (`GameState.cs:126`) rather than
  clearing the old one; `Reset` ensures `fresh(gameGrid)`.

## Model

| member | source | states |
|---|---|---|
| Grid.EmptyBoard | L3/TicTacToe/TicTacToe/GameState.cs:16 | a freshly allocated grid is a 3x3 board whose every cell is `None` |
| Grid.Place | L3/TicTacToe/TicTacToe/GameState.cs:34 | writing a mark sets exactly that cell and leaves the other eight unchanged |
| Grid.LinesThrough | L3/TicTacToe/TicTacToe/GameState.cs:55-58 | some of the eight lines pass through a cell. They are exactly its row and its column, plus the main diagonal when `r == c` and the anti-diagonal when `r + c == 2` |
| Grid.NewLineThroughMove | L3/TicTacToe/TicTacToe/GameState.cs:37 | writing one mark can complete a line only for the writer, and only on a line through the written cell |
| Grid.OtherGainsNoLine | L3/TicTacToe/TicTacToe/GameState.cs:34-41 | a player who held no line before the opponent's move holds none after it |
| Grid.LocalizedCheckSuffices | L3/TicTacToe/TicTacToe/GameState.cs:53-87 | checking only the lines through the played cell is enough. If nobody held a line before and the mover holds none through the cell, nobody holds any line afterwards |
| Grid.PlaceAddsMark | L3/TicTacToe/TicTacToe/GameState.cs:34 | marking an empty cell adds exactly one to the number of filled cells |
| Grid.FullBoard | L3/TicTacToe/TicTacToe/GameState.cs:43-47 | nine filled cells means no empty cell is left, and conversely |
| Grid.EmptyBoardIsClean | L3/TicTacToe/TicTacToe/GameState.cs:14-20 | the empty board has no marks and no line for either player |
| Rules.OneFinishPerGame | L3/TicTacToe/TicTacToe/GameState.cs:29-32 | in a consistent log, any two `GameFinished` events have a `GameRestarted` between them. `GameFinished` fires at most once between resets |
| Rules.CheckLine | L3/TicTacToe/TicTacToe/GameState.cs:117-122 | true exactly when every one of the three given cells holds the player |
| Rules.CheckLineHolds | L3/TicTacToe/TicTacToe/GameState.cs:117-122 | checking a line's cell triple is the same as the player holding that line. This holds by definition, since `Complete` is the same three-cell test on `Cells(l)`; the independent reference is `HasThree`/`NoThree` over all eight lines, reached through `LinesThrough` and `LocalizedCheckSuffices` |
| Rules.CheckForWin | L3/TicTacToe/TicTacToe/GameState.cs:53-87 | reports a win exactly when the end type is not `Tie`; no win is `(Tie, -1)`. Index is `r` for `Row`, `c` for `Column`. `MajorDiagonal` comes with index 0 and `r == c`, `MinorDiagonal` with index 2 and `r + c == 2` |
| Rules.WinCheckSound | L3/TicTacToe/TicTacToe/GameState.cs:53-87 | a reported win names a line through the played cell that the player holds completely |
| Rules.WinCheckComplete | L3/TicTacToe/TicTacToe/GameState.cs:53-87 | when no win is reported, the player holds no line through the played cell |
| Rules.WinCheckOrder | L3/TicTacToe/TicTacToe/GameState.cs:60-83 | lines are tried row, column, main diagonal, anti-diagonal. The reported line is the first of them the player holds |
| Rules.Opponent | L3/TicTacToe/TicTacToe/GameState.cs:50 | the player after X is O and after O is X: always X or O, and never the player itself when that is X or O |
| Rules.AfterMove | L3/TicTacToe/TicTacToe/GameState.cs:34-50 | the legal-move transition. It writes the mark and appends `MoveMade`. On a win it finishes without counting the turn and appends `GameFinished` with the mover as winner; otherwise it counts the turn, ties on the ninth and else passes the turn. Its properties are stated by `MoveEffects`, `CompletedLineWins`, `NoLineCountsTurn` and `MoveConsistent` |
| Rules.NewGameConsistent | L3/TicTacToe/TicTacToe/GameState.cs:14-20 | the initial state satisfies the invariant |
| Rules.RestartConsistent | L3/TicTacToe/TicTacToe/GameState.cs:124-132 | restarting from any consistent state, finished or not, gives a consistent new game whose log ends in `GameRestarted` |
| Rules.WinningMoveWon | L3/TicTacToe/TicTacToe/GameState.cs:37-41 | a move reported as a win finishes the game as won, and the turn is neither counted nor passed. The log ends `MoveMade`, then `GameFinished` with the mover as winner on a line they hold through the move's cell. The opponent holds no line |
| Rules.WinningMoveConsistent | L3/TicTacToe/TicTacToe/GameState.cs:37-41 | a winning move preserves the invariant |
| Rules.NonWinningMoveConsistent | L3/TicTacToe/TicTacToe/GameState.cs:43-50 | a non-winning move preserves the invariant, whether it is the tying ninth turn or passes the turn |
| Rules.MoveConsistent | L3/TicTacToe/TicTacToe/GameState.cs:27-51 | every legal move preserves the invariant |
| Rules.FinishedGameReport | L3/TicTacToe/TicTacToe/GameState.cs:89-115 | a finished game's last event is `GameFinished`. Either its winner is the player to move, who holds a line while the opponent holds none, or it is `None` with `(Tie, -1)` on a full board where nobody holds a line |
| Rules.MoveEffects | L3/TicTacToe/TicTacToe/GameState.cs:34-35 | a move writes the mover's mark at its cell and nowhere else, and fires `MoveMade` first. It adds one event, or two when the game finishes, and then the second is `GameFinished` |
| Rules.CompletedLineWins | L3/TicTacToe/TicTacToe/GameState.cs:37-47 | win before tie: completing any line through the cell finishes the game with the mover as winner, without counting the turn, even on the ninth mark |
| Rules.NoLineCountsTurn | L3/TicTacToe/TicTacToe/GameState.cs:43-50 | a move completing no line counts the turn. The ninth turn ends in a tie with exactly `MoveMade` plus `GameFinished(None, Tie, -1)` appended; otherwise the opponent is to move and only `MoveMade` is appended |
| Rules.TurnCount | L3/TicTacToe/TicTacToe/GameState.cs:43-50 | in a game under way the turn count is the number of marks, and X is to move exactly when it is even. After a win there is one mark more than counted turns |
| Rules.RowWinExample | L3/TicTacToe/TicTacToe/GameState.cs:27-87 | a concrete game: X at (0,0), (0,1), (0,2) against O at (1,0), (1,1) ends on the fifth move, reported as `(Row, 0)` for X after four counted turns |
| TicTacToe.GameState.constructor | L3/TicTacToe/TicTacToe/GameState.cs:14-20 | a fresh empty grid, X to move, no turns, not finished, and no events; the object is valid |
| TicTacToe.GameState.CanMakeMove | L3/TicTacToe/TicTacToe/GameState.cs:22-25 | true iff the game is not finished and the cell is empty. When true, fewer than nine turns are counted and a cell is free |
| TicTacToe.GameState.HandleWinGame | L3/TicTacToe/TicTacToe/GameState.cs:89-101 | sets finished and fires `GameFinished` with the current player as winner and the given end info; the grid is unchanged |
| TicTacToe.GameState.HandleTieGame | L3/TicTacToe/TicTacToe/GameState.cs:103-115 | sets finished and fires `GameFinished(None, Tie, -1)`; the grid is unchanged |
| TicTacToe.GameState.MoveKeepsValid | L3/TicTacToe/TicTacToe/GameState.cs:27-51 | an object whose state is the `AfterMove` of a legal move from a consistent game is valid |
| TicTacToe.GameState.MakeMove | L3/TicTacToe/TicTacToe/GameState.cs:27-51 | validity is kept. A move that `CanMakeMove` rejects changes no field and fires nothing. Any other move takes the state to `AfterMove` of the old state |
| TicTacToe.GameState.Reset | L3/TicTacToe/TicTacToe/GameState.cs:124-132 | the state is a new game on a fresh grid, whose log is the old log plus exactly one `GameRestarted`. Validity is kept from any valid state, including a game under way |

## Left out

- The window code (`L3/TicTacToe/TicTacToe/MainWindow.xaml.cs`, and the text
  editor in `L2/Lr2/Lr2/MainWindow.xaml.cs`) is not part of this model.
  It covers rendering, pointer geometry and animation delays.
- Event delegates are not modelled. The three events are a ghost log of the
  notifications fired, in order. No observer is run, so re-entrant calls
  from an observer into the object are not modelled. A C# event with no
  subscriber, which `?.Invoke` skips, is logged like any other.
- The public setters of `GameGrid`, `CurrentPlayer`, `TurnsPassed` and
  `IsFinished` are left out. They let a caller put the object in any state.
  The model keeps the fields behind the class's own methods, so `Valid()`
  holds. Callers that keep the grid array returned by the getter and write
  to it are left out too, for the same reason.
- Coordinates outside 0..2 are a precondition (`InRange`) of `CanMakeMove`
  and `MakeMove`. In C# they throw `IndexOutOfRangeException`, which the
  source does not catch.
- `CheckForWin` and `CheckLine` read the grid array directly in the source.
  In the model they are functions on a value snapshot of the grid,
  `Board()`, taken after the mark is written. That snapshot holds the same
  cells, because nothing writes the grid between the move and the check.
- `CheckLine` takes its three cells as a sequence of (row, column) pairs
  rather than a C# `int[,]`.
- The definitions of `Player`, `EndType`, `EndInfo` and `GameResult` live in
  other files of the application. Those files are not part of this model;
  their values are taken from how `GameState.cs` uses them.
