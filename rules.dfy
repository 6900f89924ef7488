/**
 * The rules of the game that do not depend on the controller: what a cell
 * holds, the eight winning lines, and win detection (`calculateWinner`).
 */
module Rules {
  import opened Wrappers

  /** A square is empty (`null`), or holds the mark "X" or "O". */
  datatype Cell = Empty | X | O

  /** An index into the 3x3 grid, numbered row by row. */
  type Idx = i: int | 0 <= i < 9

  /** A board snapshot: nine cells. */
  type Squares = s: seq<Cell> | |s| == 9 witness EmptySquares

  const EmptySquares: seq<Cell> := [Empty, Empty, Empty, Empty, Empty, Empty, Empty, Empty, Empty]

  /** Three cell indices that win when they hold the same mark. */
  datatype Line = Line(a: Idx, b: Idx, c: Idx)

  /** The winning lines in the order they are scanned: rows, columns, diagonals. */
  const Lines: seq<Line> := [
    Line(0, 1, 2), Line(3, 4, 5), Line(6, 7, 8),
    Line(0, 3, 6), Line(1, 4, 7), Line(2, 5, 8),
    Line(0, 4, 8), Line(2, 4, 6)
  ]

  /** The winner and the line it completed. */
  datatype Verdict = Verdict(winner: Cell, line: Line)

  /** The three cells of `l` all hold the same mark, and it is not empty. */
  predicate Marked(squares: Squares, l: Line) {
    squares[l.a] != Empty && squares[l.a] == squares[l.b] && squares[l.a] == squares[l.c]
  }

  /** The declarative reading: `p` is a mark and every cell of `l` holds it. */
  predicate FullyMarkedBy(squares: Squares, l: Line, p: Cell) {
    p != Empty && squares[l.a] == p && squares[l.b] == p && squares[l.c] == p
  }

  /** No winning line is marked. */
  predicate NoLineMarked(squares: Squares) {
    forall j :: 0 <= j < |Lines| ==> !Marked(squares, Lines[j])
  }

  /** The first marked line among `Lines[k..]`, or None (see WinnerFromSpec). */
  function WinnerFrom(squares: Squares, k: nat): Option<Verdict>
    requires k <= |Lines|
    decreases |Lines| - k
  {
    if k == |Lines| then None
    else if Marked(squares, Lines[k]) then Some(Verdict(squares[Lines[k].a], Lines[k]))
    else WinnerFrom(squares, k + 1)
  }

  /** What `calculateWinner` returns for `squares`. A verdict names one of the
      eight lines, its winner is a mark, and all three cells of the line hold
      it; there is no verdict exactly when no line is marked. */
  function Winner(squares: Squares): (r: Option<Verdict>)
    ensures r.Some? ==> r.value.line in Lines && FullyMarkedBy(squares, r.value.line, r.value.winner)
    ensures r.None? <==> NoLineMarked(squares)
  {
    WinnerFromSpec(squares, 0);
    WinnerFrom(squares, 0)
  }

  /** `calculateWinner`: scans the lines in order and stops at the first marked one. */
  method CalculateWinner(squares: Squares) returns (result: Option<Verdict>)
    ensures result == Winner(squares)
  {
    var lines := Lines;
    for i := 0 to |lines|
      invariant WinnerFrom(squares, i) == Winner(squares)
    {
      var Line(a, b, c) := lines[i];
      if squares[a] != Empty && squares[a] == squares[b] && squares[a] == squares[c] {
        return Some(Verdict(squares[a], lines[i]));
      }
    }
    return None;
  }

  /** The scan from `k` finds a line exactly when some line from `k` on is marked,
      and what it finds is the first such line, with the mark that fills it. */
  lemma {:induction false} WinnerFromSpec(squares: Squares, k: nat)
    requires k <= |Lines|
    ensures WinnerFrom(squares, k).None? <==> forall j :: k <= j < |Lines| ==> !Marked(squares, Lines[j])
    ensures WinnerFrom(squares, k).Some? ==>
      exists j :: k <= j < |Lines| && Marked(squares, Lines[j])
        && WinnerFrom(squares, k).value == Verdict(squares[Lines[j].a], Lines[j])
        && forall m :: k <= m < j ==> !Marked(squares, Lines[m])
    decreases |Lines| - k
  {
    if k < |Lines| && !Marked(squares, Lines[k]) {
      WinnerFromSpec(squares, k + 1);
    }
  }

  /** No verdict exactly when no line is fully marked with one mark. */
  lemma WinnerNone(squares: Squares)
    ensures Winner(squares).None? <==> NoLineMarked(squares)
    ensures Winner(squares).None? <==>
      forall j, p :: 0 <= j < |Lines| ==> !FullyMarkedBy(squares, Lines[j], p)
  {
    WinnerFromSpec(squares, 0);
    if Winner(squares).Some? {
      var j :| 0 <= j < |Lines| && Marked(squares, Lines[j]);
      assert FullyMarkedBy(squares, Lines[j], squares[Lines[j].a]);
    }
  }

  /** Tie-break: when line `k` is the first marked one in list order, it is the line reported. */
  lemma WinnerFirst(squares: Squares, k: nat)
    requires k < |Lines| && Marked(squares, Lines[k])
    requires forall j :: 0 <= j < k ==> !Marked(squares, Lines[j])
    ensures Winner(squares) == Some(Verdict(squares[Lines[k].a], Lines[k]))
  {
    WinnerFromSpec(squares, 0);
    var j :| 0 <= j < |Lines| && Marked(squares, Lines[j])
      && Winner(squares).value == Verdict(squares[Lines[j].a], Lines[j])
      && forall m :: 0 <= m < j ==> !Marked(squares, Lines[m]);
    assert !(j < k) && !(k < j);
  }

  /** The number of cells of `s` that hold `p`. */
  function Count(s: seq<Cell>, p: Cell): nat {
    if s == [] then 0 else (if s[0] == p then 1 else 0) + Count(s[1..], p)
  }

  /** An empty board holds no marks. */
  lemma {:induction false} CountNone(s: seq<Cell>, p: Cell)
    requires p != Empty
    requires forall j :: 0 <= j < |s| ==> s[j] == Empty
    ensures Count(s, p) == 0
  {
    if s != [] {
      CountNone(s[1..], p);
    }
  }

  /** Placing `p` on an empty cell adds one `p` and leaves the count of every other mark alone. */
  lemma {:induction false} CountPlace(s: seq<Cell>, i: nat, p: Cell, q: Cell)
    requires i < |s| && s[i] == Empty && p != Empty
    ensures Count(s[i := p], q) == Count(s, q) + (if q == p then 1 else 0) - (if q == Empty then 1 else 0)
  {
    if i == 0 {
      assert s[i := p][1..] == s[1..];
    } else {
      assert s[i := p][1..] == s[1..][i - 1 := p];
      CountPlace(s[1..], i - 1, p, q);
    }
  }
}
