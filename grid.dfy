/** The 3x3 tic-tac-toe board as a value: the marks a cell can hold, the
    eight lines of three, what it means for a player to hold a line, and how
    many cells carry a mark.  These are the reference definitions against
    which the game state's localized win check is proved. */
module Grid {

  /** A cell's content; `None` marks an empty cell. */
  datatype Player = None | X | O

  /** Row-major: `b[r][c]` is the cell in row `r`, column `c`. */
  type Board = seq<seq<Player>>

  predicate InRange(r: int, c: int) {
    0 <= r < 3 && 0 <= c < 3
  }

  predicate IsGrid(b: Board) {
    |b| == 3 && forall i :: 0 <= i < 3 ==> |b[i]| == 3
  }

  /** The board with every cell empty. */
  function EmptyBoard(): (b: Board)
    ensures IsGrid(b)
    ensures forall r, c :: InRange(r, c) ==> b[r][c] == None
  {
    seq(3, _ => seq(3, _ => None))
  }

  /** The board `b` with player `p`'s mark written at (`r`, `c`). */
  function Place(b: Board, r: int, c: int, p: Player): (b': Board)
    requires IsGrid(b) && InRange(r, c)
    ensures IsGrid(b')
    ensures b'[r][c] == p
    ensures forall i, j :: InRange(i, j) && (i != r || j != c) ==> b'[i][j] == b[i][j]
  {
    b[r := b[r][c := p]]
  }

  /** The eight lines of three: three rows, three columns, two diagonals. */
  datatype Line = RowOf(r: int) | ColumnOf(c: int) | Diagonal | AntiDiagonal

  predicate IsLine(l: Line) {
    match l
    case RowOf(r) => 0 <= r < 3
    case ColumnOf(c) => 0 <= c < 3
    case _ => true
  }

  /** The three cells of a line, as (row, column) pairs. */
  function Cells(l: Line): (cs: seq<(int, int)>)
    requires IsLine(l)
    ensures |cs| == 3
    ensures forall k :: 0 <= k < 3 ==> InRange(cs[k].0, cs[k].1)
  {
    match l
    case RowOf(r) => [(r, 0), (r, 1), (r, 2)]
    case ColumnOf(c) => [(0, c), (1, c), (2, c)]
    case Diagonal => [(0, 0), (1, 1), (2, 2)]
    case AntiDiagonal => [(0, 2), (1, 1), (2, 0)]
  }

  /** Line `l` passes through cell (`r`, `c`). */
  predicate Through(l: Line, r: int, c: int)
    requires IsLine(l)
  {
    (r, c) in Cells(l)
  }

  /** All three cells of line `l` hold `p`. */
  predicate Complete(b: Board, l: Line, p: Player)
    requires IsGrid(b) && IsLine(l)
  {
    var cs := Cells(l);
    b[cs[0].0][cs[0].1] == p && b[cs[1].0][cs[1].1] == p && b[cs[2].0][cs[2].1] == p
  }

  /** Player `p` holds some line of three on `b`. */
  ghost predicate HasThree(b: Board, p: Player)
    requires IsGrid(b)
  {
    exists l :: IsLine(l) && Complete(b, l, p)
  }

  /** Neither player holds a line of three. */
  ghost predicate NoThree(b: Board)
    requires IsGrid(b)
  {
    !HasThree(b, X) && !HasThree(b, O)
  }

  /** The number of marked (non-`None`) entries of `s`. */
  function Marks(s: seq<Player>): (n: nat)
    ensures n <= |s|
  {
    if |s| == 0 then 0 else (if s[0] != None then 1 else 0) + Marks(s[1..])
  }

  /** The number of marked cells on the board. */
  function Filled(b: Board): nat
    requires IsGrid(b)
  {
    Marks(b[0]) + Marks(b[1]) + Marks(b[2])
  }

  /** The lines through a cell are exactly its row, its column, the main
      diagonal when `r == c` and the anti-diagonal when `r + c == 2`. */
  lemma LinesThrough(r: int, c: int)
    requires InRange(r, c)
    ensures forall l :: IsLine(l) ==>
              (Through(l, r, c) <==>
                 l == RowOf(r) || l == ColumnOf(c) ||
                 (l == Diagonal && r == c) || (l == AntiDiagonal && r + c == 2))
  {
    forall l | IsLine(l)
      ensures Through(l, r, c) <==>
                l == RowOf(r) || l == ColumnOf(c) ||
                (l == Diagonal && r == c) || (l == AntiDiagonal && r + c == 2)
    {
      match l
      case RowOf(i) =>
      case ColumnOf(j) =>
      case Diagonal =>
      case AntiDiagonal =>
    }
  }

  /** Two boards with the same cells are the same board. */
  lemma SameCells(a: Board, b: Board)
    requires IsGrid(a) && IsGrid(b)
    requires forall r, c :: InRange(r, c) ==> a[r][c] == b[r][c]
    ensures a == b
  {
    forall i | 0 <= i < 3 ensures a[i] == b[i] {
      assert forall j :: 0 <= j < 3 ==> a[i][j] == b[i][j];
    }
  }

  /** Writing one mark can complete a line of three only for the player who
      wrote it, and only on a line through the written cell: a line that
      `q` holds after the write but did not hold before passes through
      (`r`, `c`) and `q` is `p`. */
  lemma NewLineThroughMove(b: Board, r: int, c: int, p: Player, q: Player, l: Line)
    requires IsGrid(b) && InRange(r, c) && IsLine(l)
    requires !Complete(b, l, q)
    requires Complete(Place(b, r, c, p), l, q)
    ensures Through(l, r, c) && q == p
  {
    var b' := Place(b, r, c, p);
    var cs := Cells(l);
    if !Through(l, r, c) {
      assert forall k :: 0 <= k < 3 ==> b'[cs[k].0][cs[k].1] == b[cs[k].0][cs[k].1];
      assert false;
    }
    var k :| 0 <= k < 3 && cs[k] == (r, c);
    assert b'[cs[k].0][cs[k].1] == q;
  }

  /** A player `q` who held no line before `p`'s write holds none after
      it, unless `q` is `p`. */
  lemma OtherGainsNoLine(b: Board, r: int, c: int, p: Player, q: Player)
    requires IsGrid(b) && InRange(r, c) && q != p && !HasThree(b, q)
    ensures !HasThree(Place(b, r, c, p), q)
  {
    forall l | IsLine(l) && Complete(Place(b, r, c, p), l, q) ensures false {
      NewLineThroughMove(b, r, c, p, q, l);
    }
  }

  /** The localized check suffices: if nobody held a line before the write
      and `p` holds no line through (`r`, `c`) after it, then nobody holds
      a line after it. */
  lemma LocalizedCheckSuffices(b: Board, r: int, c: int, p: Player)
    requires IsGrid(b) && InRange(r, c) && NoThree(b)
    requires forall l :: IsLine(l) && Through(l, r, c) ==> !Complete(Place(b, r, c, p), l, p)
    ensures NoThree(Place(b, r, c, p))
  {
    var b' := Place(b, r, c, p);
    forall q, l | (q == X || q == O) && IsLine(l) && Complete(b', l, q) ensures false {
      NewLineThroughMove(b, r, c, p, q, l);
    }
  }

  /** Marking one empty entry adds one to the count. */
  lemma {:induction false} MarksPlace(s: seq<Player>, j: int, p: Player)
    requires 0 <= j < |s| && s[j] == None && p != None
    ensures Marks(s[j := p]) == Marks(s) + 1
  {
    if j == 0 {
      assert s[j := p][1..] == s[1..];
    } else {
      assert s[j := p][1..] == s[1..][j - 1 := p];
      MarksPlace(s[1..], j - 1, p);
    }
  }

  /** Marking an empty cell adds one to the number of filled cells. */
  lemma PlaceAddsMark(b: Board, r: int, c: int, p: Player)
    requires IsGrid(b) && InRange(r, c) && b[r][c] == None && p != None
    ensures Filled(Place(b, r, c, p)) == Filled(b) + 1
  {
    var b' := Place(b, r, c, p);
    MarksPlace(b[r], c, p);
    assert b'[r] == b[r][c := p];
    forall i | 0 <= i < 3 && i != r ensures b'[i] == b[i] { }
  }

  /** A sequence whose every entry is marked has as many marks as entries,
      and only then. */
  lemma {:induction false} MarksAll(s: seq<Player>)
    ensures Marks(s) == |s| <==> forall k :: 0 <= k < |s| ==> s[k] != None
  {
    if |s| > 0 {
      MarksAll(s[1..]);
      assert forall k :: 1 <= k < |s| ==> s[k] == s[1..][k - 1];
    }
  }

  /** Nine filled cells means no cell is empty, and conversely. */
  lemma FullBoard(b: Board)
    requires IsGrid(b)
    ensures Filled(b) == 9 <==> forall r, c :: InRange(r, c) ==> b[r][c] != None
  {
    MarksAll(b[0]);
    MarksAll(b[1]);
    MarksAll(b[2]);
  }

  /** The empty board has no marks and no line for either player. */
  lemma EmptyBoardIsClean()
    ensures Filled(EmptyBoard()) == 0
    ensures NoThree(EmptyBoard())
  {
    var e := EmptyBoard();
    assert e[0] == [None, None, None] && e[1] == e[0] && e[2] == e[0];
    assert [None, None, None][1..] == [None, None] && [None, None][1..] == [None];
    assert Marks([None]) == 0 && Marks([None, None]) == 0 && Marks(e[0]) == 0;
    forall l | IsLine(l) ensures !Complete(e, l, X) && !Complete(e, l, O) {
      var cs := Cells(l);
      assert e[cs[0].0][cs[0].1] == None;
    }
  }
}
