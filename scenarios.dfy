/**
 * Clients of the Game class that play three example games; each
 * fact asserted follows from the contracts of the operations alone.
 */
module Scenarios {
  import opened Wrappers
  import opened Rules
  import opened Board
  import opened TicTacToe

  /** X plays the corner, O the centre, then the player jumps back to the start. */
  method PlayThenJumpBack() {
    var g := new Game();
    assert Winner(EmptySquares) == None;
    g.Click(0);
    assert g.CurrentSquares() == [X, Empty, Empty, Empty, Empty, Empty, Empty, Empty, Empty];
    assert !g.XIsNext();
    g.Click(4);
    assert g.CurrentSquares()[4] == O && g.XIsNext();
    g.JumpTo(0);
    assert g.CurrentSquares() == EmptySquares;
    assert g.Moves()[0] == StatusText(GameStart);
    assert |g.history| == 3;
  }

  /** The first two moves of the top-row game: X plays 0, O plays 3. */
  method OpenTopRow() returns (g: Game)
    ensures fresh(g) && g.Valid()
    ensures g.CurrentSquares() == [X, Empty, Empty, O, Empty, Empty, Empty, Empty, Empty]
    ensures g.currentMove == 2 == |g.history| - 1
  {
    g := new Game();
    assert Winner(EmptySquares) == None;
    g.Click(0);
    assert g.CurrentSquares() == [X, Empty, Empty, Empty, Empty, Empty, Empty, Empty, Empty];
    assert Winner([X, Empty, Empty, Empty, Empty, Empty, Empty, Empty, Empty]) == None;
    g.Click(3);
  }

  /** The rest of the top-row game: X plays 1, O plays 4, X plays 2. */
  method PlayTopRow() returns (g: Game)
    ensures fresh(g) && g.Valid()
    ensures g.CurrentSquares() == [X, X, X, O, O, Empty, Empty, Empty, Empty]
    ensures g.currentMove == 5 == |g.history| - 1
  {
    g := OpenTopRow();
    assert Winner([X, Empty, Empty, O, Empty, Empty, Empty, Empty, Empty]) == None;
    g.Click(1);
    assert g.CurrentSquares() == [X, X, Empty, O, Empty, Empty, Empty, Empty, Empty];
    assert Winner([X, X, Empty, O, Empty, Empty, Empty, Empty, Empty]) == None;
    g.Click(4);
    assert g.CurrentSquares() == [X, X, Empty, O, O, Empty, Empty, Empty, Empty];
    assert Winner([X, X, Empty, O, O, Empty, Empty, Empty, Empty]) == None;
    g.Click(2);
  }

  /** X completes the top row on move 5; a later click is ignored. */
  method TopRowWins() {
    var g := PlayTopRow();
    assert Winner(g.CurrentSquares()) == Some(Verdict(X, Line(0, 1, 2)));
    ghost var before := g.history;
    g.Click(8);
    assert g.history == before && g.currentMove == 5;
  }

  /** Toggling the order twice restores the rendered list. */
  method ToggleTwice() {
    var g := new Game();
    g.Click(6);
    ghost var shown := g.Moves();
    g.ReverseOrder();
    assert g.Moves() == [StatusText(Move(1, Location(2, 0))), JumpButton(0, GameStart)];
    g.ReverseOrder();
    assert g.Moves() == shown;
  }
}
