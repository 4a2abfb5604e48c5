/** The concrete positions of the repository's test suite, stated as lemmas about the
    model, and client code that drives a Game through the same steps. */
module TicTacToeScenarios {
  import opened TicTacToeBoard
  import opened MinimaxSearch
  import opened TicTacToeGame

  /** X has completed the top row; O has no line. */
  const XTopRow: Board := [X, X, X, Empty, O, Empty, O, Empty, Empty]

  /** A full grid with no line for either player. */
  const DrawnGrid: Board := [X, O, X, X, X, O, O, X, O]

  /** Every cell taken except the centre. */
  const CentreOpen: Board := [X, O, X, X, Empty, O, O, X, O]

  lemma CheckWinnerExample()
    ensures Wins(XTopRow, X) && !Wins(XTopRow, O)
  {
  }

  /** The drawn grid is full, and blanking its top-left cell makes it not full. */
  lemma CheckTieExample()
    ensures IsFull(DrawnGrid) && !Wins(DrawnGrid, X) && !Wins(DrawnGrid, O)
    ensures !IsFull(DrawnGrid[0 := Empty])
  {
    assert DrawnGrid[0 := Empty][0] == Empty;
  }

  /** With only the centre blank, best_move picks the centre. */
  lemma {:induction false} ComputerMoveExample()
    ensures BestMove(CentreOpen) == Some((1, 1))
  {
    var filled := CentreOpen[4 := O];
    assert filled == DrawnGrid[4 := O];
    assert IsFull(filled) && !Wins(filled, O) && !Wins(filled, X);
    assert ChildValue(CentreOpen, true, 4) == 0;
    var scores := CellScores(CentreOpen);
    assert BestFrom(scores, 5, 0, Some((1, 1))) == (0, Some((1, 1)));
    assert BestFrom(scores, 0, NegInf, None) == BestFrom(scores, 4, NegInf, None);
  }

  /** test_initialize_board: a new game has nine blank cells and X to play. */
  method NewGameScenario() returns (cells: Board, player: Player)
    ensures forall i :: 0 <= i < 9 ==> cells[i] == Empty
    ensures player == X
  {
    var game := new Game();
    cells := game.board[..];
    player := game.currentPlayer;
  }

  /** test_switch_player: the turn goes to O, then back to X. */
  method SwitchPlayerScenario() returns (afterOne: Player, afterTwo: Player)
    ensures afterOne == O && afterTwo == X
  {
    var game := new Game();
    game.SwitchPlayer();
    afterOne := game.currentPlayer;
    game.SwitchPlayer();
    afterTwo := game.currentPlayer;
  }

  /** test_make_move: X's first move on (0, 0) succeeds and marks it; a second move there fails. */
  method MakeMoveScenario() returns (first: bool, cell: Mark, second: bool)
    ensures first && cell == X && !second
  {
    var game := new Game();
    first := game.MakeMove(0, 0);
    cell := game.board[0];
    second := game.MakeMove(0, 0);
  }

  /** test_computer_move: on the grid with only the centre blank, the game's search picks the
      centre and leaves the grid as it was. */
  method ComputerMoveScenario() returns (move: Option<Cell>, cells: Board)
    ensures move == Some((1, 1)) && cells == CentreOpen
  {
    var game := new Game();
    game.board := new Mark[9] [X, O, X, X, Empty, O, O, X, O];
    assert game.Cells() == CentreOpen;
    move := game.BestMove();
    ComputerMoveExample();
    cells := game.board[..];
  }
}
