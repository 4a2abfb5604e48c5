/** Board state of the 3x3 game: the marks, the grid, placing a mark,
    switching the turn and the two terminal tests (a completed line, a full grid). */
module TicTacToeBoard {

  /** The content of one cell: blank (the string " " in the source), or a player's mark. */
  datatype Mark = Empty | X | O

  /** A player's mark. The turn marker and every mark placed by a move is one of these. */
  type Player = m: Mark | m != Empty witness X

  /** The grid in row-major order: cell (row, col) is element 3 * row + col. */
  type Board = s: seq<Mark> | |s| == 9
    witness [Empty, Empty, Empty, Empty, Empty, Empty, Empty, Empty, Empty]

  datatype Option<+T> = None | Some(value: T)

  /** Position of cell (row, col) in the row-major grid. */
  function Index(row: nat, col: nat): (i: nat)
    requires row < 3 && col < 3
    ensures i < 9
  {
    3 * row + col
  }

  /** The mark in cell (row, col). The position is spelled out rather than taken from
      Index, which keeps the proofs about the eight lines small. */
  function At(b: Board, row: nat, col: nat): Mark
    requires row < 3 && col < 3
  {
    b[3 * row + col]
  }

  /** Number of blank cells in a sequence of cells. */
  function EmptyCount(s: seq<Mark>): (n: nat)
    ensures n <= |s|
  {
    if s == [] then 0 else (if s[0] == Empty then 1 else 0) + EmptyCount(s[1..])
  }

  lemma {:induction false} EmptyCountZero(s: seq<Mark>)
    ensures EmptyCount(s) == 0 <==> forall i :: 0 <= i < |s| ==> s[i] != Empty
  {
    if s != [] {
      EmptyCountZero(s[1..]);
      assert forall i :: 1 <= i < |s| ==> s[i] == s[1..][i - 1];
    }
  }

  /** Marking a blank cell removes exactly one blank. */
  lemma {:induction false} EmptyCountPlace(s: seq<Mark>, i: nat, p: Player)
    requires i < |s| && s[i] == Empty
    ensures EmptyCount(s[i := p]) == EmptyCount(s) - 1
  {
    if i == 0 {
      assert s[i := p][1..] == s[1..];
    } else {
      EmptyCountPlace(s[1..], i - 1, p);
      assert s[i := p][1..] == s[1..][i - 1 := p];
    }
  }

  /** The grid of a new game (initialize_board): nine blanks. */
  function InitialBoard(): (b: Board)
    ensures forall i :: 0 <= i < 9 ==> b[i] == Empty
    ensures !IsFull(b) && !Wins(b, X) && !Wins(b, O)
  {
    var b: Board := [Empty, Empty, Empty, Empty, Empty, Empty, Empty, Empty, Empty];
    assert b[0] == Empty;
    b
  }

  predicate Row(b: Board, row: nat, p: Mark)
    requires row < 3
  {
    At(b, row, 0) == p && At(b, row, 1) == p && At(b, row, 2) == p
  }

  predicate Column(b: Board, col: nat, p: Mark)
    requires col < 3
  {
    At(b, 0, col) == p && At(b, 1, col) == p && At(b, 2, col) == p
  }

  predicate Diagonal(b: Board, p: Mark)
  {
    At(b, 0, 0) == p && At(b, 1, 1) == p && At(b, 2, 2) == p
  }

  predicate AntiDiagonal(b: Board, p: Mark)
  {
    At(b, 0, 2) == p && At(b, 1, 1) == p && At(b, 2, 0) == p
  }

  /** check_winner: some row, then some column, then the main diagonal,
      then the anti-diagonal, holds p in all three of its cells. */
  predicate Wins(b: Board, p: Mark)
  {
    Row(b, 0, p) || Row(b, 1, p) || Row(b, 2, p) ||
    Column(b, 0, p) || Column(b, 1, p) || Column(b, 2, p) ||
    Diagonal(b, p) || AntiDiagonal(b, p)
  }

  /** The eight lines of the grid as triples of cell positions, listed independently of Wins. */
  const WinningLines: set<(nat, nat, nat)> :=
    {(0, 1, 2), (3, 4, 5), (6, 7, 8),
     (0, 3, 6), (1, 4, 7), (2, 5, 8),
     (0, 4, 8), (2, 4, 6)}

  predicate Complete(b: Board, line: (nat, nat, nat), p: Mark)
  {
    line.0 < 9 && line.1 < 9 && line.2 < 9 &&
    b[line.0] == p && b[line.1] == p && b[line.2] == p
  }

  lemma {:induction false} CompleteLineWins(b: Board, p: Mark, line: (nat, nat, nat))
    requires line in WinningLines && Complete(b, line, p)
    ensures Wins(b, p)
  {
  }

  lemma {:induction false} WinsHasCompleteLine(b: Board, p: Mark)
    requires Wins(b, p)
    ensures exists line :: line in WinningLines && Complete(b, line, p)
  {
    if Row(b, 0, p) { assert Complete(b, (0, 1, 2), p); }
    else if Row(b, 1, p) { assert Complete(b, (3, 4, 5), p); }
    else if Row(b, 2, p) { assert Complete(b, (6, 7, 8), p); }
    else if Column(b, 0, p) { assert Complete(b, (0, 3, 6), p); }
    else if Column(b, 1, p) { assert Complete(b, (1, 4, 7), p); }
    else if Column(b, 2, p) { assert Complete(b, (2, 5, 8), p); }
    else if Diagonal(b, p) { assert Complete(b, (0, 4, 8), p); }
    else { assert Complete(b, (2, 4, 6), p); }
  }

  /** A player has won exactly when one of the eight lines is all theirs. */
  lemma {:induction false} WinsIffCompleteLine(b: Board, p: Mark)
    ensures Wins(b, p) <==> exists line :: line in WinningLines && Complete(b, line, p)
  {
    if Wins(b, p) {
      WinsHasCompleteLine(b, p);
    }
    if line :| line in WinningLines && Complete(b, line, p) {
      CompleteLineWins(b, p, line);
    }
  }

  /** check_tie: no cell is blank. */
  predicate IsFull(b: Board)
  {
    forall i :: 0 <= i < 9 ==> b[i] != Empty
  }

  lemma IsFullIffNoBlank(b: Board)
    ensures IsFull(b) <==> EmptyCount(b) == 0
  {
    EmptyCountZero(b);
  }

  /** switch_player: X hands over to O and O back to X. */
  function Other(p: Player): (q: Player)
    ensures q != p
  {
    if p == X then O else X
  }

  lemma OtherTwice(p: Player)
    ensures Other(Other(p)) == p
  {
  }

  /** make_move as a value: the grid after p marks (row, col), or None when the cell is taken. */
  function Move(b: Board, row: nat, col: nat, p: Player): (r: Option<Board>)
    requires row < 3 && col < 3
    ensures r.Some? <==> At(b, row, col) == Empty
    ensures r.Some? ==> At(r.value, row, col) == p
    ensures r.Some? ==> forall i :: 0 <= i < 9 && i != Index(row, col) ==> r.value[i] == b[i]
    ensures r.Some? ==> EmptyCount(r.value) == EmptyCount(b) - 1
  {
    var i := Index(row, col);
    if b[i] == Empty then
      EmptyCountPlace(b, i, p);
      Some(b[i := p])
    else
      None
  }
}
