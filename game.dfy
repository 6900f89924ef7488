/**
 * The `Game` component: the history of snapshots, the move being viewed, the
 * order of the move list, and the move list itself.
 */
module TicTacToe {
  import opened Wrappers
  import opened Rules
  import opened Board

  /** The entry the history is seeded with: an empty board, no location. */
  function Start(): (s: Step)
    ensures s.moveLocation.None?
    ensures forall j :: 0 <= j < 9 ==> s.squares[j] == Empty
  {
    Step(EmptySquares, None)
  }

  /** `next` is what a click accepted on `prev` produces when `move` moves have been played. */
  ghost predicate LegalMove(prev: Step, next: Step, move: nat) {
    && next.moveLocation.Some?
    && var i := IndexOf(next.moveLocation.value);
    && prev.squares[i] == Empty
    && NoLineMarked(prev.squares)
    && next.squares == prev.squares[i := MarkFor(move % 2 == 0)]
  }

  /** The history starts with the empty board, and every later entry was
      produced from the one before it by an accepted click. */
  ghost predicate Played(history: seq<Step>) {
    && |history| > 0
    && history[0] == Start()
    && forall k :: 0 <= k < |history| - 1 ==> LegalMove(history[k], history[k + 1], k)
  }

  /** A click adds one mark, X on even move numbers and O on odd ones, and nothing else. */
  lemma LegalMoveCounts(prev: Step, next: Step, move: nat)
    requires LegalMove(prev, next, move)
    ensures Count(next.squares, X) == Count(prev.squares, X) + (if move % 2 == 0 then 1 else 0)
    ensures Count(next.squares, O) == Count(prev.squares, O) + (if move % 2 == 0 then 0 else 1)
  {
    var i := IndexOf(next.moveLocation.value);
    var p := MarkFor(move % 2 == 0);
    CountPlace(prev.squares, i, p, X);
    CountPlace(prev.squares, i, p, O);
  }

  /** Keeping the first `n` entries of a played history and appending a legal
      move from the last of them, as `handlePlay` does, gives a played history. */
  lemma PlayedBranch(history: seq<Step>, n: nat, next: Step)
    requires Played(history) && 0 < n <= |history|
    requires LegalMove(history[n - 1], next, n - 1)
    ensures Played(history[..n] + [next])
  {
    var branched := history[..n] + [next];
    forall k | 0 <= k < |branched| - 1
      ensures LegalMove(branched[k], branched[k + 1], k)
    {
      if k + 1 < n {
        assert branched[k] == history[k] && branched[k + 1] == history[k + 1];
      } else {
        assert branched[k] == history[n - 1] && branched[k + 1] == next;
      }
    }
  }

  /** A click accepted by the gate of `handleClick` is a legal move. */
  lemma ClickIsLegal(prev: Step, i: Idx, move: nat)
    requires prev.squares[i] == Empty && Winner(prev.squares).None?
    ensures LegalMove(prev, Step(prev.squares[i := MarkFor(move % 2 == 0)], Some(LocationOf(i))), move)
  {
    assert IndexOf(LocationOf(i)) == i;
    WinnerNone(prev.squares);
  }

  /** An accepted click on the viewed board of a played history, followed by
      `handlePlay`'s truncate-and-append, gives a played history again: the
      history Game.Click leaves behind stays a sequence of legal moves. */
  lemma ClickKeepsPlayed(history: seq<Step>, currentMove: nat, i: Idx)
    requires Played(history) && currentMove < |history|
    requires history[currentMove].squares[i] == Empty && Winner(history[currentMove].squares).None?
    ensures Played(history[..currentMove + 1]
      + [Step(history[currentMove].squares[i := MarkFor(currentMove % 2 == 0)], Some(LocationOf(i)))])
  {
    ClickIsLegal(history[currentMove], i, currentMove);
    PlayedBranch(history, currentMove + 1,
      Step(history[currentMove].squares[i := MarkFor(currentMove % 2 == 0)], Some(LocationOf(i))));
  }

  /** Along a played history the marks alternate: after `k` moves the board holds
      `(k + 1) / 2` X's and `k / 2` O's, so the player to move is given by parity. */
  lemma {:induction false} PlayedCounts(history: seq<Step>, k: nat)
    requires Played(history) && k < |history|
    ensures Count(history[k].squares, X) == (k + 1) / 2
    ensures Count(history[k].squares, O) == k / 2
    ensures Count(history[k].squares, X) == Count(history[k].squares, O) <==> k % 2 == 0
  {
    if k == 0 {
      CountNone(EmptySquares, X);
      CountNone(EmptySquares, O);
    } else {
      PlayedCounts(history, k - 1);
      LegalMoveCounts(history[k - 1], history[k], k - 1);
    }
  }

  /** Along a played history no board but possibly the last has a winner:
      a won board accepts no further click. */
  lemma PlayedOnlyLastWon(history: seq<Step>, k: nat)
    requires Played(history) && k < |history| - 1
    ensures Winner(history[k].squares).None?
  {
    assert LegalMove(history[k], history[k + 1], k);
    WinnerNone(history[k].squares);
  }

  /** What the move list shows for an entry: the game start, or a move number and its location. */
  datatype Description = GameStart | Move(number: nat, location: Location)

  /** A move-list item: a button that jumps to `target`, or the plain status
      text shown for the move being viewed. */
  datatype MoveItem = JumpButton(target: nat, description: Description) | StatusText(description: Description)

  /** Every entry but the first records where its move was played. */
  predicate Located(history: seq<Step>) {
    forall k :: 0 < k < |history| ==> history[k].moveLocation.Some?
  }

  /** The description of entry `k`: the game start for the seed entry, and
      for every later entry its own move number and the location it records. */
  function DescriptionOf(history: seq<Step>, k: nat): (d: Description)
    requires Located(history) && k < |history|
    ensures d.GameStart? <==> k == 0
    ensures d.Move? ==> d.number == k && Some(d.location) == history[k].moveLocation
  {
    if k > 0 then Move(k, history[k].moveLocation.value) else GameStart
  }

  /** `history.map(...)`: one item per entry; the entry being viewed is status
      text, every other entry a button that jumps to its own index. */
  function MoveList(history: seq<Step>, currentMove: nat): (moves: seq<MoveItem>)
    requires Located(history)
    ensures |moves| == |history|
    ensures forall k :: 0 <= k < |moves| ==> (moves[k].StatusText? <==> k == currentMove)
    ensures forall k :: 0 <= k < |moves| && moves[k].JumpButton? ==> moves[k].target == k
    ensures forall k :: 0 <= k < |moves| ==> (moves[k].description.GameStart? <==> k == 0)
    ensures forall k :: 0 < k < |moves| ==> moves[k].description == Move(k, history[k].moveLocation.value)
  {
    seq(|history|, k requires 0 <= k < |history| =>
      if k == currentMove then StatusText(DescriptionOf(history, k))
      else JumpButton(k, DescriptionOf(history, k)))
  }

  /** `[...s].reverse()`: entry `k` of the result is entry `|s| - 1 - k` of `s`. */
  function Reversed<T>(s: seq<T>): (r: seq<T>)
    ensures |r| == |s|
    ensures forall k :: 0 <= k < |s| ==> r[k] == s[|s| - 1 - k]
  {
    if s == [] then [] else Reversed(s[1..]) + [s[0]]
  }

  /** Reversing twice gives back the original list. */
  lemma ReversedTwice<T>(s: seq<T>)
    ensures Reversed(Reversed(s)) == s
  {
  }

  /** The list as rendered: in order, or in exactly the reverse order when `isReversed`. */
  function Displayed<T>(moves: seq<T>, isReversed: bool): (shown: seq<T>)
    ensures |shown| == |moves|
    ensures forall k :: 0 <= k < |moves| ==> shown[k] == moves[if isReversed then |moves| - 1 - k else k]
  {
    if isReversed then Reversed(moves) else moves
  }

  /** The turn derived from the move number agrees with the board being
      viewed: on a played history X is next exactly when the board holds as
      many X's as O's. */
  lemma GameTurn(g: Game)
    requires g.Valid() && Played(g.history)
    ensures g.XIsNext() <==> Count(g.CurrentSquares(), X) == Count(g.CurrentSquares(), O)
  {
    PlayedCounts(g.history, g.currentMove);
  }

  /** On a played history the viewed board holds one mark per move played up
      to it, alternating from X, and it has a winner only if it is the latest
      entry. */
  lemma ViewedBoard(g: Game)
    requires g.Valid() && Played(g.history)
    ensures Count(g.CurrentSquares(), X) == (g.currentMove + 1) / 2
    ensures Count(g.CurrentSquares(), O) == g.currentMove / 2
    ensures Winner(g.CurrentSquares()).Some? ==> g.currentMove == |g.history| - 1
  {
    PlayedCounts(g.history, g.currentMove);
    if g.currentMove < |g.history| - 1 {
      PlayedOnlyLastWon(g.history, g.currentMove);
    }
  }

  /** The state of the `Game` component. */
  class Game {
    var history: seq<Step>
    var currentMove: nat
    var isReversed: bool

    /** The history is never empty, starts with the empty board, records a
        location for every move, and the viewed move is one of its entries. */
    ghost predicate Valid()
      reads this
    {
      && |history| > 0
      && history[0] == Start()
      && Located(history)
      && currentMove < |history|
    }

    constructor ()
      ensures Valid() && Played(history)
      ensures history == [Start()] && currentMove == 0 && !isReversed
    {
      history := [Start()];
      currentMove := 0;
      isReversed := false;
    }

    /** X moves on even move numbers (see GameTurn for what this means on the board). */
    function XIsNext(): bool
      reads this
    {
      currentMove % 2 == 0
    }

    /** The board being viewed (see ViewedBoard for what it holds). */
    function CurrentSquares(): Squares
      reads this
      requires Valid()
    {
      history[currentMove].squares
    }

    /** `handlePlay`: drops every entry after the viewed one, appends `nextState`
        and views it; the player to move flips. */
    method HandlePlay(nextState: Step)
      requires Valid() && nextState.moveLocation.Some?
      modifies this
      ensures Valid()
      ensures history == old(history[..currentMove + 1]) + [nextState]
      ensures |history| == old(currentMove) + 2
      ensures forall k :: 0 <= k <= old(currentMove) ==> history[k] == old(history[k])
      ensures currentMove == old(currentMove) + 1 == |history| - 1
      ensures XIsNext() == !old(XIsNext())
      ensures isReversed == old(isReversed)
    {
      var nextHistory := history[..currentMove + 1] + [nextState];
      history := nextHistory;
      currentMove := |nextHistory| - 1;
    }

    /** `jumpTo`: views another entry; nothing else changes. */
    method JumpTo(nextMove: nat)
      requires Valid() && nextMove < |history|
      modifies this
      ensures Valid()
      ensures currentMove == nextMove
      ensures history == old(history) && isReversed == old(isReversed)
    {
      currentMove := nextMove;
    }

    /** `reverseOrder`: flips the order of the move list; nothing else changes. */
    method ReverseOrder()
      requires Valid()
      modifies this
      ensures Valid()
      ensures isReversed == !old(isReversed)
      ensures history == old(history) && currentMove == old(currentMove)
    {
      isReversed := !isReversed;
    }

    /** A click on cell `i` of the viewed board: `Board.handleClick` with the
        board and turn the game passes down, then `handlePlay` if the click is
        accepted. A click on an occupied cell or a won board changes nothing. */
    method Click(i: Idx)
      requires Valid()
      modifies this
      ensures Valid() && isReversed == old(isReversed)
      ensures old(CurrentSquares()[i] != Empty || Winner(CurrentSquares()).Some?) ==>
        history == old(history) && currentMove == old(currentMove)
      ensures old(CurrentSquares()[i] == Empty && Winner(CurrentSquares()).None?) ==>
        && history == old(history[..currentMove + 1])
             + [Step(old(CurrentSquares())[i := MarkFor(old(XIsNext()))], Some(LocationOf(i)))]
        && currentMove == old(currentMove) + 1
    {
      var next := HandleClick(CurrentSquares(), i, XIsNext());
      if next.Some? {
        assert next.value.squares == CurrentSquares()[i := MarkFor(XIsNext())];
        HandlePlay(next.value);
      }
    }

    /** The move list as rendered. The viewed entry is the only status text, and
        every button jumps to another valid entry, so JumpTo's requirement holds
        for every jump the list offers. */
    function Moves(): (shown: seq<MoveItem>)
      reads this
      requires Valid()
      ensures |shown| == |history|
      ensures shown[if isReversed then |history| - 1 - currentMove else currentMove].StatusText?
      ensures forall k :: 0 <= k < |shown| && shown[k].StatusText? ==>
        k == (if isReversed then |history| - 1 - currentMove else currentMove)
      ensures forall k :: 0 <= k < |shown| && shown[k].JumpButton? ==>
        shown[k].target < |history| && shown[k].target != currentMove
    {
      Displayed(MoveList(history, currentMove), isReversed)
    }
  }
}
