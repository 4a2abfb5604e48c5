/** The game object: the grid, held in place in a nine-cell array, and the turn
    marker, with the moves that update them and the search that runs on the
    shared grid by placing a mark, recursing and taking the mark back. */
module TicTacToeGame {
  import opened TicTacToeBoard
  import opened MinimaxSearch

  class Game {
    /** The grid in row-major order: cell (row, col) is board[3 * row + col]. */
    var board: array<Mark>
    var currentPlayer: Player

    ghost predicate Valid()
      reads this
    {
      board.Length == 9
    }

    /** The grid as a value. */
    ghost function Cells(): Board
      reads this, board
      requires Valid()
    {
      board[..]
    }

    /** A new game: a blank grid, X to play. */
    constructor ()
      ensures Valid() && fresh(board)
      ensures Cells() == InitialBoard() && currentPlayer == X
    {
      board := new Mark[9] (_ => Empty);
      currentPlayer := X;
    }

    /** Hands the turn to the other player; the grid is untouched. */
    method SwitchPlayer()
      modifies this`currentPlayer
      ensures currentPlayer == Other(old(currentPlayer))
    {
      currentPlayer := Other(currentPlayer);
    }

    /** Marks (row, col) for the player to move if that cell is blank; reports
        whether it was. The turn marker is not changed. */
    method MakeMove(row: nat, col: nat) returns (ok: bool)
      requires Valid() && row < 3 && col < 3
      modifies board
      ensures Valid()
      ensures ok <==> old(board[Index(row, col)]) == Empty
      ensures ok ==> Move(old(Cells()), row, col, currentPlayer) == Some(Cells())
      ensures !ok ==> Cells() == old(Cells())
    {
      if board[Index(row, col)] == Empty {
        board[Index(row, col)] := currentPlayer;
        ok := true;
      } else {
        ok := false;
      }
    }

    /** minimax(maximizing): the value of the position for the side to move, computed
        by marking each blank cell in turn, recursing and blanking it again. */
    method Minimax(maximizing: bool) returns (score: int)
      requires Valid()
      modifies board
      ensures Cells() == old(Cells())
      ensures score == Value(old(Cells()), maximizing)
      decreases EmptyCount(board[..])
    {
      ghost var start := Cells();
      if Wins(board[..], O) {
        return 1;
      }
      if Wins(board[..], X) {
        return -1;
      }
      if IsFull(board[..]) {
        return 0;
      }
      var mark := MarkFor(maximizing);
      var best := if maximizing then NegInf else PosInf;
      var row := 0;
      while row < 3
        invariant 0 <= row <= 3
        invariant Cells() == start
        invariant Scan(start, maximizing, 3 * row, best) == Value(start, maximizing)
      {
        var col := 0;
        while col < 3
          invariant 0 <= col <= 3
          invariant Cells() == start
          invariant Scan(start, maximizing, 3 * row + col, best) == Value(start, maximizing)
        {
          var i := Index(row, col);
          if board[i] == Empty {
            board[i] := mark;
            EmptyCountPlace(start, i, mark);
            var s := Minimax(!maximizing);
            board[i] := Empty;
            assert Cells() == start;
            best := if maximizing then Max(s, best) else Min(s, best);
          }
          col := col + 1;
        }
        row := row + 1;
      }
      score := best;
    }

    /** best_move: the first blank cell, in row-major order, whose score is highest
        once O marks it, found by the same place, recurse, take back discipline;
        None when no cell is blank. */
    method BestMove() returns (move: Option<Cell>)
      requires Valid()
      modifies board
      ensures Cells() == old(Cells())
      ensures move.Some? ==>
        move.value.0 < 3 && move.value.1 < 3 && old(board[Index(move.value.0, move.value.1)]) == Empty
      ensures move == MinimaxSearch.BestMove(old(Cells()))
    {
      ghost var start := Cells();
      ghost var scores := CellScores(start);
      CellScoresAboveSentinel(start);
      CellScoresAt(start);
      var bestScore := NegInf;
      move := None;
      var row := 0;
      while row < 3
        invariant 0 <= row <= 3
        invariant Cells() == start
        invariant ChoiceSoFar(scores, 3 * row, bestScore, move)
      {
        var col := 0;
        while col < 3
          invariant 0 <= col <= 3
          invariant Cells() == start
          invariant ChoiceSoFar(scores, 3 * row + col, bestScore, move)
        {
          var i := Index(row, col);
          if board[i] == Empty {
            board[i] := O;
            var score := Minimax(false);
            board[i] := Empty;
            assert Cells() == start;
            assert scores[i] == Some(score);
            if score > bestScore {
              ChoiceTake(scores, i, bestScore, move);
              bestScore := score;
              move := Some((row, col));
              assert CellAt(i) == (row, col);
            } else {
              ChoiceSkip(scores, i, bestScore, move);
            }
          } else {
            assert scores[i] == None;
            ChoiceSkip(scores, i, bestScore, move);
          }
          col := col + 1;
        }
        row := row + 1;
      }
      ChoiceIsBestMove(start, bestScore, move);
      if move.Some? {
        BestMoveIsFirstMaximal(start, move.value.0, move.value.1);
      }
    }
  }
}
