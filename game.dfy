/**
 * The game component: the four pieces of state it keeps, the three handlers
 * that change them, and the derivation of what it shows. Each handler is one
 * atomic update of the fields and is proved to perform the transition of the
 * same name in module History; the invariant of that module is the class
 * invariant.
 */
module GameComponent {
  import opened Options
  import opened Squares
  import opened History
  import opened Presentation

  class Game {
    var history: seq<Snapshot>
    var stepNumber: nat
    var xIsNext: bool
    var ascendingSort: bool

    /** The fields as one value. */
    ghost function State(): GameState
      reads this
    {
      GameState(history, stepNumber, xIsNext, ascendingSort)
    }

    ghost predicate Valid()
      reads this
    {
      Inv(State())
    }

    /** A new game: the empty board with sentinel coordinates, cursor 0, X to play, ascending order. */
    constructor ()
      ensures Valid() && State() == Initial()
    {
      history := [INITIAL_SNAPSHOT];
      stepNumber := 0;
      xIsNext := true;
      ascendingSort := true;
      InitialSatisfiesInv();
    }

    /**
     * Cell `i` was activated. The board is copied into a fresh array before
     * the mark is written, so no stored snapshot is changed.
     */
    method HandleClick(i: Index)
      requires Valid()
      modifies this
      ensures Valid()
      ensures State() == Click(old(State()), i)
    {
      var currentHistory := history[..stepNumber + 1];
      var current := currentHistory[|currentHistory| - 1];
      var squares := new Cell[9](j requires 0 <= j < 9 => current.squares[j]);
      assert squares[..] == current.squares;
      if Winner(squares[..]).Some? || squares[i] != Empty {
        return;
      }
      squares[i] := if xIsNext then Marked(X) else Marked(O);
      history := currentHistory + [Snapshot(squares[..], i / 3 + 1, i % 3 + 1)];
      stepNumber := |currentHistory|;
      xIsNext := !xIsNext;
      ClickPreservesInv(old(State()), i);
    }

    /** History entry `step` was activated. */
    method JumpTo(step: nat)
      requires Valid() && step < |history|
      modifies this
      ensures Valid()
      ensures State() == Jump(old(State()), step)
    {
      stepNumber := step;
      xIsNext := step % 2 == 0;
    }

    /** The sort toggle was activated. */
    method ToggleSortHandler()
      requires Valid()
      modifies this
      ensures Valid()
      ensures State() == ToggleSort(old(State()))
    {
      ascendingSort := !ascendingSort;
    }

    /**
     * What the component shows: the board at the cursor, the status line for
     * it, and the history list in the chosen order (built in stored order,
     * then reversed in place when descending).
     */
    method Render() returns (squares: Board, status: string, moves: seq<MoveEntry>)
      requires stepNumber < |history|
      ensures squares == history[stepNumber].squares
      ensures status == Status(Winner(squares), xIsNext)
      ensures moves == Presented(State())
    {
      var current := history[stepNumber];
      var winner := Winner(current.squares);
      var entries := Entries(history, stepNumber);
      var list := new MoveEntry[|entries|](k requires 0 <= k < |entries| => entries[k]);
      assert list[..] == entries;
      if !ascendingSort {
        ReverseInPlace(list);
      }
      moves := list[..];
      status := Status(winner, xIsNext);
      squares := current.squares;
    }
  }

  /**
   * A client of the class: after two moves, a jump back to the first one and
   * a different reply, the second move is gone, the history holds three
   * entries and O's second-move board shows the new reply.
   */
  method BranchAfterJumpBack() {
    var game := new Game();
    EmptyBoardHasNoWinner();
    game.HandleClick(4);
    assert game.history[1].squares == EMPTY_BOARD[4 := Marked(X)];
    NoCompletedLineNoWinner(game.history[1].squares);
    game.HandleClick(0);
    assert |game.history| == 3 && game.stepNumber == 2;
    game.JumpTo(1);
    assert !game.xIsNext;
    game.HandleClick(8);
    assert |game.history| == 3 && game.stepNumber == 2;
    assert game.history[2].squares[8] == Marked(O) && game.history[2].squares[0] == Empty;
    var squares, status, moves := game.Render();
    assert status == Status(Winner(squares), true);
  }
}
