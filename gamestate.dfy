/** The game state object: the grid array, the player to move, the turn
    count and the finished flag, updated in place by its methods, with the
    notifications it fires recorded in a ghost event log. */
module TicTacToe {
  import opened Grid
  import opened Rules

  /** A 3x3 array that differs from the board `before` only in cell
      (`r`, `c`), which holds `p`, holds `before` with `p` placed there. */
  lemma WrittenCell(a: array2<Player>, before: Board, r: int, c: int, p: Player)
    requires a.Length0 == 3 && a.Length1 == 3 && IsGrid(before) && InRange(r, c)
    requires a[r, c] == p
    requires forall i, j :: InRange(i, j) && (i != r || j != c) ==> a[i, j] == before[i][j]
    ensures Snapshot(a) == Place(before, r, c, p)
  {
    SameCells(Snapshot(a), Place(before, r, c, p));
  }

  class GameState {
    var gameGrid: array2<Player>
    var currentPlayer: Player
    var turnsPassed: int
    var isFinished: bool
    /** Every event fired so far, oldest first. */
    ghost var events: seq<Event>

    ghost predicate Shaped()
      reads this`gameGrid
    {
      gameGrid.Length0 == 3 && gameGrid.Length1 == 3
    }

    /** The grid's current contents as a value. */
    function Board(): (b: Board)
      reads this`gameGrid, gameGrid
      requires Shaped()
      ensures IsGrid(b)
    {
      Snapshot(gameGrid)
    }

    /** The state as a value. */
    ghost function Abstract(): Game
      reads this, gameGrid
      requires Shaped()
    {
      Game(Board(), currentPlayer, turnsPassed, isFinished, events)
    }

    /** The invariant of every reachable game state. */
    ghost predicate Valid()
      reads this, gameGrid
    {
      Shaped() && Consistent(Abstract())
    }

    /** A new game: an empty grid, X to move, no turns taken, no events. */
    constructor ()
      ensures Valid() && fresh(gameGrid)
      ensures Abstract() == NewGame([])
    {
      gameGrid := new Player[3, 3]((_, _) => None);
      currentPlayer := X;
      turnsPassed := 0;
      isFinished := false;
      events := [];
      new;
      SameCells(Board(), EmptyBoard());
      NewGameConsistent();
    }

    /** A move at (`row`, `column`) is accepted exactly when the game is not
        finished and the cell is empty; then fewer than nine turns were
        taken and the board still has an empty cell. */
    function CanMakeMove(row: int, column: int): (ok: bool)
      reads this, gameGrid
      requires Valid() && InRange(row, column)
      ensures ok <==> !isFinished && Board()[row][column] == None
      ensures ok ==> turnsPassed < 9 && Filled(Board()) < 9
    {
      !isFinished && gameGrid[row, column] == None
    }

    /** Ends the game as a win for `currentPlayer`. */
    method HandleWinGame(endType: EndType, index: int)
      requires Shaped()
      modifies this`isFinished, this`events
      ensures Board() == old(Board())
      ensures isFinished
      ensures events == old(events) + [GameFinished(GameResult(currentPlayer, EndInfo(endType, index)))]
    {
      isFinished := true;
      events := events + [GameFinished(GameResult(currentPlayer, EndInfo(endType, index)))];
    }

    /** Ends the game as a tie. */
    method HandleTieGame()
      requires Shaped()
      modifies this`isFinished, this`events
      ensures Board() == old(Board())
      ensures isFinished
      ensures events == old(events) + [GameFinished(GameResult(None, EndInfo(Tie, -1)))]
    {
      isFinished := true;
      events := events + [GameFinished(GameResult(None, EndInfo(Tie, -1)))];
    }

    /** A legal move from the consistent game `g` that reaches the state
        `AfterMove` describes leaves the object valid. */
    lemma MoveKeepsValid(g: Game, r: int, c: int)
      requires Shaped() && Consistent(g) && !g.finished && InRange(r, c) && g.board[r][c] == None
      requires Abstract() == AfterMove(g, r, c)
      ensures Valid()
    {
      MoveConsistent(g, r, c);
    }

    /** Plays `currentPlayer` at (`row`, `column`).  A move `CanMakeMove`
        rejects changes nothing and fires nothing; any other is the
        transition `AfterMove`. */
    method MakeMove(row: int, column: int)
      requires Valid() && InRange(row, column)
      modifies this`currentPlayer, this`turnsPassed, this`isFinished, this`events, gameGrid
      ensures Valid()
      ensures Abstract() == if old(CanMakeMove(row, column)) then AfterMove(old(Abstract()), row, column)
                            else old(Abstract())
    {
      if !CanMakeMove(row, column) {
        return;
      }
      ghost var g := Abstract();
      gameGrid[row, column] := currentPlayer;
      events := events + [MoveMade(row, column)];
      WrittenCell(gameGrid, g.board, row, column, currentPlayer);

      var (won, info) := CheckForWin(Board(), row, column, currentPlayer);
      if won {
        HandleWinGame(info.endType, info.index);
        MoveKeepsValid(g, row, column);
        return;
      }

      turnsPassed := turnsPassed + 1;
      if turnsPassed == 9 {
        HandleTieGame();
        MoveKeepsValid(g, row, column);
        return;
      }

      currentPlayer := Opponent(currentPlayer);
      MoveKeepsValid(g, row, column);
    }

    /** Starts a new game on a fresh grid and fires `GameRestarted`; allowed
        at any time, a game under way is dropped without notice. */
    method Reset()
      requires Valid()
      modifies this
      ensures Valid() && fresh(gameGrid)
      ensures Abstract() == NewGame(old(events) + [GameRestarted])
    {
      RestartConsistent(Abstract());
      gameGrid := new Player[3, 3]((_, _) => None);
      currentPlayer := X;
      turnsPassed := 0;
      isFinished := false;
      events := events + [GameRestarted];
      SameCells(Board(), EmptyBoard());
    }
  }
}
