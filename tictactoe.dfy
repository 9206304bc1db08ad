/**
 * The tic-tac-toe engine: a nine-square board filled in turn by X and O, a winner found by
 * scanning the eight lines, and a draw when the board fills without one.
 */
module TicTacToe {

  import opened Wrappers

  datatype Player = X | O

  /** A square of the board, empty or holding a mark. */
  datatype Square = Empty | Mark(player: Player)

  /** A board position 0..8, row by row. */
  type Index = i: int | 0 <= i < 9

  /** The eight lines: three rows, three columns, two diagonals, in the order they are scanned. */
  const Lines: seq<(Index, Index, Index)> := [
    (0, 1, 2), (3, 4, 5), (6, 7, 8),
    (0, 3, 6), (1, 4, 7), (2, 5, 8),
    (0, 4, 8), (2, 4, 6)
  ]

  /** Row and column of a square, row by row from the top left. */
  function RowOf(i: Index): int { i / 3 }
  function ColOf(i: Index): int { i % 3 }

  /**
   * Three squares on a straight line of the 3x3 grid, in order: equal steps across a row, down a
   * column, or along one of the two diagonals.
   */
  predicate Straight(t: (Index, Index, Index)) {
    var (i, j, k) := t;
    var dr, dc := RowOf(j) - RowOf(i), ColOf(j) - ColOf(i);
    RowOf(k) - RowOf(j) == dr && ColOf(k) - ColOf(j) == dc &&
    ((dr == 0 && dc == 1) || (dr == 1 && dc == 0) || (dr == 1 && dc == 1) || (dr == 1 && dc == -1))
  }

  lemma StraightAt(l: int)
    requires 0 <= l < |Lines|
    ensures Straight(Lines[l])
  {
    if l == 0 {} else if l == 1 {} else if l == 2 {} else if l == 3 {}
    else if l == 4 {} else if l == 5 {} else if l == 6 {} else {}
  }

  /**
   * The table holds eight different straight lines of the grid: each entry steps evenly along
   * a row, a column or a diagonal.
   */
  lemma LinesAreTheStraightLines()
    ensures |Lines| == 8
    ensures forall l :: 0 <= l < |Lines| ==> Straight(Lines[l])
    ensures forall l, m :: 0 <= l < m < |Lines| ==> Lines[l] != Lines[m]
  {
    forall l | 0 <= l < |Lines| ensures Straight(Lines[l]) {
      StraightAt(l);
    }
  }

  /** Line `l` holds three equal marks. */
  predicate Uniform(b: seq<Square>, l: int)
    requires |b| == 9 && 0 <= l < |Lines|
  {
    var (i, j, k) := Lines[l];
    b[i] != Empty && b[i] == b[j] && b[i] == b[k]
  }

  /** Line `l` holds three marks of `p`. */
  predicate WonBy(b: seq<Square>, l: int, p: Player)
    requires |b| == 9 && 0 <= l < |Lines|
  {
    var (i, j, k) := Lines[l];
    b[i] == Mark(p) && b[j] == Mark(p) && b[k] == Mark(p)
  }

  predicate NoLine(b: seq<Square>)
    requires |b| == 9
  {
    forall l :: 0 <= l < |Lines| ==> !Uniform(b, l)
  }

  /** Every square holds a mark. */
  predicate Full(b: seq<Square>) {
    forall i :: 0 <= i < |b| ==> b[i] != Empty
  }

  /** The mark placed by the player whose turn it is. */
  function ToMove(xIsNext: bool): Player {
    if xIsNext then X else O
  }

  /** Number of squares of `b` that hold `s`. */
  function Count(b: seq<Square>, s: Square): nat {
    if b == [] then 0 else (if b[0] == s then 1 else 0) + Count(b[1..], s)
  }

  const EmptyBoard: seq<Square> := seq(9, _ => Empty)

  /**
   * The winner of `squares`: the mark on the first uniform line in scan order, or None
   * exactly when no line is uniform.
   */
  method CalculateWinner(squares: seq<Square>) returns (w: Option<Player>)
    requires |squares| == 9
    ensures w.None? <==> NoLine(squares)
    ensures w.Some? ==> exists l :: 0 <= l < |Lines| && WonBy(squares, l, w.value) &&
                                    (forall m :: 0 <= m < l ==> !Uniform(squares, m))
  {
    for l := 0 to |Lines|
      invariant forall m :: 0 <= m < l ==> !Uniform(squares, m)
    {
      var (a, b, c) := Lines[l];
      if squares[a] != Empty && squares[a] == squares[b] && squares[a] == squares[c] {
        assert Uniform(squares, l) && WonBy(squares, l, squares[a].player);
        return Some(squares[a].player);
      }
    }
    return None;
  }

  /**
   * A board with no uniform line that gets one more mark `p` can only gain lines of `p`,
   * and only lines through the new square.
   */
  lemma NewLineIsMover(b: seq<Square>, i: Index, p: Player, l: int)
    requires |b| == 9 && NoLine(b) && 0 <= l < |Lines|
    requires Uniform(b[i := Mark(p)], l)
    ensures WonBy(b[i := Mark(p)], l, p)
    ensures i == Lines[l].0 || i == Lines[l].1 || i == Lines[l].2
  {
    assert !Uniform(b, l);
  }

  /** Placing `p` on an empty square adds one `p`, takes away one empty square, and keeps the other mark. */
  lemma {:induction false} CountAfterPlace(b: seq<Square>, i: int, p: Player, s: Square)
    requires 0 <= i < |b| && b[i] == Empty
    ensures Count(b[i := Mark(p)], s) ==
      Count(b, s) + (if s == Mark(p) then 1 else 0) - (if s == Empty then 1 else 0)
  {
    if i > 0 {
      assert b[i := Mark(p)][1..] == b[1..][i - 1 := Mark(p)];
      CountAfterPlace(b[1..], i - 1, p, s);
    } else {
      assert b[i := Mark(p)][1..] == b[1..];
    }
  }

  /** The state of one tic-tac-toe game. */
  class TicTacToeGame {
    var board: seq<Square>
    var xIsNext: bool
    var winner: Option<Player>
    var isDraw: bool

    /**
     * What every reachable state satisfies: X has as many marks as O, or one more when O is to
     * move; a winner owns a line and moved last; without a winner no line is uniform; the draw
     * flag is set exactly when the board is full and nobody won.
     */
    ghost predicate Valid()
      reads this
    {
      |board| == 9 &&
      Count(board, Mark(X)) == Count(board, Mark(O)) + (if xIsNext then 0 else 1) &&
      (winner.Some? ==>
        winner.value == ToMove(!xIsNext) && exists l :: 0 <= l < |Lines| && WonBy(board, l, winner.value)) &&
      (winner.Some? ==> forall l :: 0 <= l < |Lines| && Uniform(board, l) ==> WonBy(board, l, winner.value)) &&
      (winner.None? ==> NoLine(board)) &&
      (isDraw <==> winner.None? && Full(board))
    }

    constructor ()
      ensures Valid()
      ensures board == EmptyBoard && xIsNext && winner == None && !isDraw
    {
      board := EmptyBoard;
      xIsNext := true;
      winner := None;
      isDraw := false;
      EmptyBoardCounts();
    }

    /**
     * A click on square `index`. Rejected once there is a winner or when the square is taken;
     * otherwise the current mark goes there, the winner and the draw flag are recomputed, and
     * the turn passes, even after a winning move.
     */
    method HandleClick(index: int)
      requires Valid() && 0 <= index < 9
      modifies this
      ensures Valid()
      ensures old(winner.Some? || board[index] != Empty) ==> unchanged(this)
      ensures old(winner.None? && board[index] == Empty) ==>
        board == old(board)[index := Mark(ToMove(old(xIsNext)))] &&
        xIsNext == !old(xIsNext) &&
        (winner.Some? ==> winner.value == ToMove(old(xIsNext))) &&
        (winner.None? <==> NoLine(board)) &&
        (isDraw <==> winner.None? && Full(board))
    {
      if winner.Some? || board[index] != Empty {
        return;
      }
      var mark := ToMove(xIsNext);
      ghost var before := board;
      var newBoard := board[index := Mark(mark)];
      board := newBoard;
      var win := CalculateWinner(newBoard);
      if win.Some? {
        var l :| 0 <= l < |Lines| && WonBy(newBoard, l, win.value);
        assert Uniform(newBoard, l);
        forall m | 0 <= m < |Lines| && Uniform(newBoard, m) ensures WonBy(newBoard, m, mark) {
          NewLineIsMover(before, index, mark, m);
        }
        winner := win;
      } else if forall i :: 0 <= i < |newBoard| ==> newBoard[i] != Empty {
        isDraw := true;
      }
      CountAfterPlace(before, index, mark, Mark(X));
      CountAfterPlace(before, index, mark, Mark(O));
      xIsNext := !xIsNext;
    }

    /** A fresh game: empty board, X to move, no winner, no draw. */
    method Restart()
      modifies this
      ensures Valid()
      ensures board == EmptyBoard && xIsNext && winner == None && !isDraw
    {
      board := EmptyBoard;
      xIsNext := true;
      winner := None;
      isDraw := false;
      EmptyBoardCounts();
    }
  }

  /** The empty board holds no mark and no line. */
  lemma EmptyBoardCounts()
    ensures Count(EmptyBoard, Mark(X)) == 0 && Count(EmptyBoard, Mark(O)) == 0
    ensures NoLine(EmptyBoard) && !Full(EmptyBoard)
  {
    CountAbsent(EmptyBoard, Mark(X));
    CountAbsent(EmptyBoard, Mark(O));
    assert EmptyBoard[0] == Empty;
  }

  /** A square value that appears nowhere is counted zero times. */
  lemma {:induction false} CountAbsent(b: seq<Square>, s: Square)
    requires forall i :: 0 <= i < |b| ==> b[i] != s
    ensures Count(b, s) == 0
  {
    if b != [] {
      CountAbsent(b[1..], s);
    }
  }

  /** `NoLine` unrolled over the eight lines, for boards given square by square. */
  lemma NoLineByCases(b: seq<Square>)
    requires |b| == 9
    requires !Uniform(b, 0) && !Uniform(b, 1) && !Uniform(b, 2) && !Uniform(b, 3)
    requires !Uniform(b, 4) && !Uniform(b, 5) && !Uniform(b, 6) && !Uniform(b, 7)
    ensures NoLine(b)
  {
  }

  /** The game X:0, O:1, X:4, O:2, X:8 is won by X on the diagonal 0, 4, 8. */
  method WorkedExample() returns (w: Option<Player>, draw: bool)
    ensures w == Some(X) && !draw
  {
    var g := new TicTacToeGame();
    g.HandleClick(0);
    NoLineByCases(g.board);
    g.HandleClick(1);
    NoLineByCases(g.board);
    g.HandleClick(4);
    NoLineByCases(g.board);
    g.HandleClick(2);
    assert g.board == [Mark(X), Mark(O), Mark(O), Empty, Mark(X), Empty, Empty, Empty, Empty];
    NoLineByCases(g.board);
    assert g.winner == None;
    g.HandleClick(8);
    assert WonBy(g.board, 6, X) && Uniform(g.board, 6);
    w, draw := g.winner, g.isDraw;
  }
}
