/** The tic-tac-toe game state machine: a 3x3 grid of marks, the player to
    move, the number of completed turns and a finished flag, with a move
    guard, a move that detects a win on the lines through the played cell
    before it detects a tie, and a reset.  The three notifications the game
    fires are recorded, in firing order, in a ghost event log. */
module Rules {
  import opened Grid

  /** How a game ended: on which kind of line, or in a tie. */
  datatype EndType = Row | Column | MajorDiagonal | MinorDiagonal | Tie

  /** `index` is the row for `Row`, the column for `Column`, and the fixed
      values 0 for `MajorDiagonal`, 2 for `MinorDiagonal`, -1 for `Tie`. */
  datatype EndInfo = EndInfo(endType: EndType, index: int)

  /** `winner` is `None` for a tie. */
  datatype GameResult = GameResult(winner: Player, endInfo: EndInfo)

  /** The notifications a game fires. */
  datatype Event = MoveMade(row: int, column: int) | GameFinished(result: GameResult) | GameRestarted

  /** The line an end-of-game report designates. */
  function StruckLine(info: EndInfo): (l: Line)
    requires info.endType != Tie
    requires info.endType == Row || info.endType == Column ==> 0 <= info.index < 3
    ensures IsLine(l)
  {
    match info.endType
    case Row => RowOf(info.index)
    case Column => ColumnOf(info.index)
    case MajorDiagonal => Diagonal
    case MinorDiagonal => AntiDiagonal
  }

  /** The player who moves after `p`. */
  function Opponent(p: Player): (q: Player)
    ensures q == X || q == O
    ensures p == X || p == O ==> q != p
  {
    if p == X then O else X
  }

  /** The board held by a 3x3 array. */
  function Snapshot(a: array2<Player>): (b: Board)
    reads a
    requires a.Length0 == 3 && a.Length1 == 3
    ensures IsGrid(b) && forall r, c :: InRange(r, c) ==> b[r][c] == a[r, c]
  {
    [[a[0, 0], a[0, 1], a[0, 2]], [a[1, 0], a[1, 1], a[1, 2]], [a[2, 0], a[2, 1], a[2, 2]]]
  }

  /** In the log, a `GameFinished` is the last event or is followed by a
      `GameRestarted`: nothing happens in a finished game but a restart. */
  ghost predicate FinishEndsGame(log: seq<Event>) {
    forall i :: 0 <= i < |log| - 1 && log[i].GameFinished? ==> log[i + 1] == GameRestarted
  }

  /** Between any two `GameFinished` events of such a log lies a `GameRestarted`:
      a game finishes at most once between restarts. */
  lemma OneFinishPerGame(log: seq<Event>, i: int, j: int)
    requires FinishEndsGame(log)
    requires 0 <= i < j < |log| && log[i].GameFinished? && log[j].GameFinished?
    ensures exists k :: i < k < j && log[k] == GameRestarted
  {
    assert log[i + 1] == GameRestarted;
  }

  /** Whether `player` holds every cell of `line`, a list of three
      (row, column) pairs on the board. */
  function CheckLine(b: Board, line: seq<(int, int)>, player: Player): (full: bool)
    requires IsGrid(b)
    requires |line| == 3 && forall k :: 0 <= k < 3 ==> 0 <= line[k].0 < 3 && 0 <= line[k].1 < 3
    ensures full <==> forall k :: 0 <= k < |line| ==> b[line[k].0][line[k].1] == player
  {
    b[line[0].0][line[0].1] == player &&
    b[line[1].0][line[1].1] == player &&
    b[line[2].0][line[2].1] == player
  }

  /** Checking the cells of a line is checking that the player holds it. */
  lemma CheckLineHolds(b: Board, l: Line, player: Player)
    requires IsGrid(b) && IsLine(l)
    ensures CheckLine(b, Cells(l), player) <==> Complete(b, l, player)
  {
  }

  /** The localized win check for a mark of `player` at (`r`, `c`).  It
      reports a win exactly when it names a line; a row by its row `r`, a
      column by its column `c`, the main diagonal by 0 when `r == c`, the
      anti-diagonal by 2 when `r + c == 2`, and no win as `(Tie, -1)`. */
  function CheckForWin(b: Board, r: int, c: int, player: Player): (res: (bool, EndInfo))
    requires IsGrid(b) && InRange(r, c)
    ensures res.0 <==> res.1.endType != Tie
    ensures !res.0 ==> res.1 == EndInfo(Tie, -1)
    ensures res.1.endType == Row ==> res.1.index == r
    ensures res.1.endType == Column ==> res.1.index == c
    ensures res.1.endType == MajorDiagonal ==> res.1.index == 0 && r == c
    ensures res.1.endType == MinorDiagonal ==> res.1.index == 2 && r + c == 2
  {
    var row := [(r, 0), (r, 1), (r, 2)];
    var column := [(0, c), (1, c), (2, c)];
    var majorDiagonal := [(0, 0), (1, 1), (2, 2)];
    var minorDiagonal := [(0, 2), (1, 1), (2, 0)];
    if CheckLine(b, row, player) then
      (true, EndInfo(Row, r))
    else if CheckLine(b, column, player) then
      (true, EndInfo(Column, c))
    else if r == c && CheckLine(b, majorDiagonal, player) then
      (true, EndInfo(MajorDiagonal, 0))
    else if ((r == 1 && c == 1) || r + c == 2) && CheckLine(b, minorDiagonal, player) then
      (true, EndInfo(MinorDiagonal, 2))
    else
      (false, EndInfo(Tie, -1))
  }

  /** A reported win is real: the named line passes through (`r`, `c`)
      and `player` holds all three of its cells. */
  lemma WinCheckSound(b: Board, r: int, c: int, player: Player)
    requires IsGrid(b) && InRange(r, c)
    ensures var (won, info) := CheckForWin(b, r, c, player);
            won ==>
              (info.endType == Row || info.endType == Column ==> 0 <= info.index < 3) &&
              Through(StruckLine(info), r, c) && Complete(b, StruckLine(info), player)
  {
    var (won, info) := CheckForWin(b, r, c, player);
    if won {
      LinesThrough(r, c);
      CheckLineHolds(b, StruckLine(info), player);
    }
  }

  /** A win is never missed: when none is reported, `player` holds no
      line through (`r`, `c`) at all. */
  lemma WinCheckComplete(b: Board, r: int, c: int, player: Player)
    requires IsGrid(b) && InRange(r, c)
    ensures !CheckForWin(b, r, c, player).0 ==>
              forall l :: IsLine(l) && Through(l, r, c) ==> !Complete(b, l, player)
  {
    LinesThrough(r, c);
    CheckLineHolds(b, RowOf(r), player);
    CheckLineHolds(b, ColumnOf(c), player);
    CheckLineHolds(b, Diagonal, player);
    CheckLineHolds(b, AntiDiagonal, player);
  }

  /** The lines are tried in the order row, column, main diagonal,
      anti-diagonal: a reported line is the first of them through
      (`r`, `c`) that `player` holds. */
  lemma WinCheckOrder(b: Board, r: int, c: int, player: Player)
    requires IsGrid(b) && InRange(r, c)
    ensures var info := CheckForWin(b, r, c, player).1;
            (Complete(b, RowOf(r), player) ==> info.endType == Row) &&
            (info.endType == Column ==> !Complete(b, RowOf(r), player)) &&
            (info.endType == MajorDiagonal ==>
               !Complete(b, RowOf(r), player) && !Complete(b, ColumnOf(c), player)) &&
            (info.endType == MinorDiagonal ==>
               !Complete(b, RowOf(r), player) && !Complete(b, ColumnOf(c), player) &&
               !(r == c && Complete(b, Diagonal, player)))
  {
    CheckLineHolds(b, RowOf(r), player);
    CheckLineHolds(b, ColumnOf(c), player);
    CheckLineHolds(b, Diagonal, player);
  }

  /** A game state as a value: the board, the player to move, the number
      of completed turns, whether the game is over, and the events fired. */
  datatype Game = Game(board: Board, player: Player, turns: int, finished: bool, log: seq<Event>)

  /** A fresh game after the events `log`. */
  function NewGame(log: seq<Event>): Game {
    Game(EmptyBoard(), X, 0, false, log)
  }

  /** The game after its player marks the empty cell (`r`, `c`) of a game
      under way.  The win check runs on the board holding the new mark: a
      win ends the game without counting the turn or passing it on, and is
      reported after the move; otherwise the turn is counted, the ninth
      ends the game as a tie, and any other passes the turn. */
  function AfterMove(g: Game, r: int, c: int): Game
    requires IsGrid(g.board) && InRange(r, c)
  {
    var b := Place(g.board, r, c, g.player);
    var log := g.log + [MoveMade(r, c)];
    var (won, info) := CheckForWin(b, r, c, g.player);
    if won then
      Game(b, g.player, g.turns, true, log + [GameFinished(GameResult(g.player, info))])
    else if g.turns + 1 == 9 then
      Game(b, g.player, g.turns + 1, true, log + [GameFinished(GameResult(None, EndInfo(Tie, -1)))])
    else
      Game(b, Opponent(g.player), g.turns + 1, false, log)
  }

  /** The game is under way: every completed turn left one mark and
      nobody holds a line. */
  ghost predicate InProgress(g: Game)
    requires IsGrid(g.board)
  {
    g.turns < 9 && Filled(g.board) == g.turns && NoThree(g.board)
  }

  /** The player to move won with the move logged last: that turn was not
      counted, the opponent holds no line, and the last event reports the
      player as winner on a line through the move's cell that they hold. */
  ghost predicate Won(g: Game)
    requires IsGrid(g.board)
  {
    var log := g.log;
    g.turns < 9 && Filled(g.board) == g.turns + 1 && !HasThree(g.board, Opponent(g.player)) &&
    |log| >= 2 && log[|log| - 2].MoveMade? && log[|log| - 1].GameFinished? &&
    var move := log[|log| - 2];
    var result := log[|log| - 1].result;
    var info := result.endInfo;
    InRange(move.row, move.column) && result.winner == g.player &&
    info.endType != Tie && (info.endType == Row || info.endType == Column ==> 0 <= info.index < 3) &&
    Through(StruckLine(info), move.row, move.column) && Complete(g.board, StruckLine(info), g.player)
  }

  /** The ninth turn filled the board without a line, and the last event
      reports a tie. */
  ghost predicate Tied(g: Game)
    requires IsGrid(g.board)
  {
    g.turns == 9 && Filled(g.board) == 9 && NoThree(g.board) &&
    |g.log| > 0 && g.log[|g.log| - 1] == GameFinished(GameResult(None, EndInfo(Tie, -1)))
  }

  /** How the parts of a reachable game state fit together: X moves on
      even turn counts, a finished game is exactly one whose last event is
      `GameFinished`, and the game is under way, won or tied. */
  ghost predicate Consistent(g: Game) {
    IsGrid(g.board) &&
    (g.player == X || g.player == O) &&
    0 <= g.turns <= 9 &&
    (g.turns < 9 ==> (g.player == X <==> g.turns % 2 == 0)) &&
    (g.turns == 9 ==> g.player == X) &&
    FinishEndsGame(g.log) &&
    (g.finished <==> |g.log| > 0 && g.log[|g.log| - 1].GameFinished?) &&
    (if g.finished then Won(g) || Tied(g) else InProgress(g))
  }

  /** A game that has just been created is consistent. */
  lemma NewGameConsistent()
    ensures Consistent(NewGame([]))
  {
    EmptyBoardIsClean();
  }

  /** Appending events to a log keeps every `GameFinished` followed by a
      `GameRestarted`, provided the appended events keep it among
      themselves and start with a restart when the log ends in a finish. */
  lemma FinishEndsGameAppend(log: seq<Event>, tail: seq<Event>)
    requires FinishEndsGame(log) && FinishEndsGame(tail)
    requires |log| > 0 && log[|log| - 1].GameFinished? && |tail| > 0 ==> tail[0] == GameRestarted
    ensures FinishEndsGame(log + tail)
  {
    var all := log + tail;
    forall i | 0 <= i < |all| - 1 && all[i].GameFinished? ensures all[i + 1] == GameRestarted {
      if i < |log| - 1 {
        assert all[i] == log[i] && all[i + 1] == log[i + 1];
      } else if i == |log| - 1 {
        assert all[i] == log[i] && all[i + 1] == tail[0];
      } else {
        assert all[i] == tail[i - |log|] && all[i + 1] == tail[i + 1 - |log|];
      }
    }
  }

  /** Restarting a consistent game gives a consistent new game. */
  lemma RestartConsistent(g: Game)
    requires Consistent(g)
    ensures Consistent(NewGame(g.log + [GameRestarted]))
  {
    EmptyBoardIsClean();
    FinishEndsGameAppend(g.log, [GameRestarted]);
  }

  /** A move on an empty cell of a game under way that the win check
      reports as a win leaves a won game: the mover holds the reported line
      through the cell and the opponent holds none. */
  lemma WinningMoveWon(g: Game, r: int, c: int)
    requires IsGrid(g.board) && (g.player == X || g.player == O) && InProgress(g)
    requires InRange(r, c) && g.board[r][c] == None
    requires CheckForWin(Place(g.board, r, c, g.player), r, c, g.player).0
    ensures AfterMove(g, r, c).finished && Won(AfterMove(g, r, c))
  {
    var b := Place(g.board, r, c, g.player);
    var info := CheckForWin(b, r, c, g.player).1;
    var log := g.log + [MoveMade(r, c)] + [GameFinished(GameResult(g.player, info))];
    assert AfterMove(g, r, c) == Game(b, g.player, g.turns, true, log);
    PlaceAddsMark(g.board, r, c, g.player);
    OtherGainsNoLine(g.board, r, c, g.player, Opponent(g.player));
    WinCheckSound(b, r, c, g.player);
    assert log[|log| - 2] == MoveMade(r, c) && log[|log| - 1] == GameFinished(GameResult(g.player, info));
    assert Won(Game(b, g.player, g.turns, true, log));
  }

  /** A move on an empty cell of a game under way that the win check
      reports as a win ends the game consistently. */
  lemma WinningMoveConsistent(g: Game, r: int, c: int)
    requires Consistent(g) && !g.finished && InRange(r, c) && g.board[r][c] == None
    requires CheckForWin(Place(g.board, r, c, g.player), r, c, g.player).0
    ensures Consistent(AfterMove(g, r, c))
  {
    var info := CheckForWin(Place(g.board, r, c, g.player), r, c, g.player).1;
    WinningMoveWon(g, r, c);
    FinishEndsGameAppend(g.log, [MoveMade(r, c), GameFinished(GameResult(g.player, info))]);
    assert g.log + [MoveMade(r, c)] + [GameFinished(GameResult(g.player, info))]
        == g.log + [MoveMade(r, c), GameFinished(GameResult(g.player, info))];
  }

  /** A move on an empty cell of a game under way that the win check does
      not report as a win keeps the game consistent, whether it is the
      ninth turn (a tie) or not (the turn passes). */
  lemma NonWinningMoveConsistent(g: Game, r: int, c: int)
    requires Consistent(g) && !g.finished && InRange(r, c) && g.board[r][c] == None
    requires !CheckForWin(Place(g.board, r, c, g.player), r, c, g.player).0
    ensures Consistent(AfterMove(g, r, c))
  {
    var b := Place(g.board, r, c, g.player);
    PlaceAddsMark(g.board, r, c, g.player);
    WinCheckComplete(b, r, c, g.player);
    LocalizedCheckSuffices(g.board, r, c, g.player);
    if g.turns + 1 == 9 {
      FinishEndsGameAppend(g.log, [MoveMade(r, c), GameFinished(GameResult(None, EndInfo(Tie, -1)))]);
      assert g.log + [MoveMade(r, c)] + [GameFinished(GameResult(None, EndInfo(Tie, -1)))]
          == g.log + [MoveMade(r, c), GameFinished(GameResult(None, EndInfo(Tie, -1)))];
    } else {
      FinishEndsGameAppend(g.log, [MoveMade(r, c)]);
    }
  }

  /** A move on an empty cell of a game under way keeps the game
      consistent, whether it wins, ties or passes the turn. */
  lemma MoveConsistent(g: Game, r: int, c: int)
    requires Consistent(g) && !g.finished && InRange(r, c) && g.board[r][c] == None
    ensures Consistent(AfterMove(g, r, c))
  {
    if CheckForWin(Place(g.board, r, c, g.player), r, c, g.player).0 {
      WinningMoveConsistent(g, r, c);
    } else {
      NonWinningMoveConsistent(g, r, c);
    }
  }

  /** What a finished consistent game reports: a winner who is the player
      who moved last and holds a line, or no winner on a full board on
      which nobody holds a line. */
  lemma FinishedGameReport(g: Game)
    requires Consistent(g) && g.finished
    ensures g.log[|g.log| - 1].GameFinished?
    ensures var result := g.log[|g.log| - 1].result;
            if result.winner == None then
              result.endInfo == EndInfo(Tie, -1) && NoThree(g.board) &&
              forall r, c :: InRange(r, c) ==> g.board[r][c] != None
            else
              result.winner == g.player && HasThree(g.board, g.player) &&
              !HasThree(g.board, Opponent(g.player))
  {
    FullBoard(g.board);
  }

  /** A move writes the mover's mark at (`r`, `c`) and nowhere else and
      fires `MoveMade(r, c)` first; the one event that may follow it is a
      `GameFinished`, fired exactly when the move ends the game. */
  lemma MoveEffects(g: Game, r: int, c: int)
    requires IsGrid(g.board) && InRange(r, c)
    ensures var g' := AfterMove(g, r, c);
            IsGrid(g'.board) && g'.board[r][c] == g.player &&
            (forall i, j :: InRange(i, j) && (i != r || j != c) ==> g'.board[i][j] == g.board[i][j]) &&
            |g'.log| == |g.log| + (if g'.finished then 2 else 1) &&
            g'.log[..|g.log| + 1] == g.log + [MoveMade(r, c)] &&
            (g'.finished ==> g'.log[|g'.log| - 1].GameFinished?)
  {
    var g' := AfterMove(g, r, c);
    assert g'.log[..|g.log| + 1] == g.log + [MoveMade(r, c)];
  }

  /** Win before tie: a mark that completes any line through its cell ends
      the game with the mover as winner, without counting the turn or
      passing it on, even when it is the ninth mark. */
  lemma CompletedLineWins(g: Game, r: int, c: int, l: Line)
    requires IsGrid(g.board) && InRange(r, c) && IsLine(l) && Through(l, r, c)
    requires Complete(Place(g.board, r, c, g.player), l, g.player)
    ensures var g' := AfterMove(g, r, c);
            g'.finished && g'.turns == g.turns && g'.player == g.player &&
            g'.log[|g'.log| - 1].GameFinished? && g'.log[|g'.log| - 1].result.winner == g.player
  {
    WinCheckComplete(Place(g.board, r, c, g.player), r, c, g.player);
  }

  /** A mark that completes no line through its cell counts the turn; the
      ninth counted turn ends the game in a tie reported as `(Tie, -1)`,
      and any other passes the turn to the opponent. */
  lemma NoLineCountsTurn(g: Game, r: int, c: int)
    requires IsGrid(g.board) && InRange(r, c)
    requires forall l :: IsLine(l) && Through(l, r, c) ==> !Complete(Place(g.board, r, c, g.player), l, g.player)
    ensures var g' := AfterMove(g, r, c);
            g'.turns == g.turns + 1 &&
            (g'.turns == 9 ==>
               g'.finished && g'.player == g.player &&
               g'.log == g.log + [MoveMade(r, c), GameFinished(GameResult(None, EndInfo(Tie, -1)))]) &&
            (g'.turns != 9 ==>
               !g'.finished && g'.player == Opponent(g.player) && g'.log == g.log + [MoveMade(r, c)])
  {
    var b := Place(g.board, r, c, g.player);
    WinCheckSound(b, r, c, g.player);
    assert g.log + [MoveMade(r, c)] + [GameFinished(GameResult(None, EndInfo(Tie, -1)))]
        == g.log + [MoveMade(r, c), GameFinished(GameResult(None, EndInfo(Tie, -1)))];
  }

  /** Turn counting: in a consistent game under way the turn count is the
      number of marks and X is to move exactly on an even count; after a
      win there is one mark more than counted turns. */
  lemma TurnCount(g: Game)
    requires Consistent(g)
    ensures !g.finished ==> Filled(g.board) == g.turns && (g.player == X <==> g.turns % 2 == 0)
    ensures g.finished && g.log[|g.log| - 1].result.winner != None ==> Filled(g.board) == g.turns + 1
  {
  }

  /** X completes the top row with its third mark while O plays the middle
      row: the game ends on that move, reported as a win for X on row 0. */
  lemma RowWinExample()
    ensures var g := AfterMove(AfterMove(AfterMove(AfterMove(AfterMove(
                       NewGame([]), 0, 0), 1, 0), 0, 1), 1, 1), 0, 2);
            g.finished && g.turns == 4 && g.player == X &&
            g.log[|g.log| - 1] == GameFinished(GameResult(X, EndInfo(Row, 0)))
  {
  }
}
