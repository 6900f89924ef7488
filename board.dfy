/**
 * The logic of the `Board` component: where a cell sits on the grid, and what
 * a click on a cell produces (`handleClick`).
 */
module Board {
  import opened Wrappers
  import opened Rules

  /** A row or column number. */
  type Coord = c: int | 0 <= c < 3

  /** The move location recorded with each snapshot. */
  datatype Location = Location(row: Coord, col: Coord)

  /** A history entry: the board after a move and where that move was played
      (None for the initial, pre-game entry). */
  datatype Step = Step(squares: Squares, moveLocation: Option<Location>)

  /** The location reported for a click on cell `i`; the grid rendering puts
      cell `row * 3 + col` there, so the two agree. */
  function LocationOf(i: Idx): (loc: Location)
    ensures loc.row * 3 + loc.col == i
  {
    Location(i / 3, i % 3)
  }

  /** The cell rendered at `loc` (`i = row * 3 + col`), the inverse of LocationOf. */
  function IndexOf(loc: Location): (i: Idx)
    ensures LocationOf(i) == loc
  {
    loc.row * 3 + loc.col
  }

  /** The mark the player to move places. */
  function MarkFor(xIsNext: bool): (p: Cell)
    ensures p != Empty
    ensures p == X <==> xIsNext
  {
    if xIsNext then X else O
  }

  /**
   * `handleClick(i)`: a click on an occupied cell, or on a board that already
   * has a winner, is ignored (None); otherwise the snapshot passed to `onPlay`:
   * a copy of the board with cell `i` marked for the player to move, and the
   * location of the click. The input board is only read.
   */
  method HandleClick(squares: Squares, i: Idx, xIsNext: bool) returns (next: Option<Step>)
    ensures next.None? <==> squares[i] != Empty || Winner(squares).Some?
    ensures next.Some? ==>
      && next.value.squares[i] == MarkFor(xIsNext)
      && (forall j :: 0 <= j < 9 && j != i ==> next.value.squares[j] == squares[j])
      && next.value.moveLocation == Some(LocationOf(i))
  {
    var result := CalculateWinner(squares);
    if squares[i] != Empty || result.Some? {
      return None;
    }
    var nextSquares := new Cell[9](j requires 0 <= j < 9 => squares[j]);
    if xIsNext {
      nextSquares[i] := X;
    } else {
      nextSquares[i] := O;
    }
    var row := i / 3;
    var col := i % 3;
    return Some(Step(nextSquares[..], Some(Location(row, col))));
  }
}
