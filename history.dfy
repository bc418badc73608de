/**
 * The game state and its transitions, as values.
 *
 * The state is the list of board snapshots (`history`), the cursor into it
 * (`stepNumber`), whose turn it is (`xIsNext`) and the order in which the
 * history list is shown (`ascendingSort`). Each handler of the game component
 * is one atomic transition of this state; the class in module GameComponent
 * performs them in place and is proved to agree with the functions here.
 */
module History {
  import opened Options
  import opened Squares

  /** One entry of the history: a board and the 1-based row and column of the move that made it. */
  datatype Snapshot = Snapshot(squares: Board, playedRow: int, playedCol: int)

  /** The first snapshot: an empty board with the sentinel coordinates (-1, -1). */
  const INITIAL_SNAPSHOT: Snapshot := Snapshot(EMPTY_BOARD, -1, -1)

  datatype GameState = GameState(history: seq<Snapshot>, stepNumber: nat, xIsNext: bool, ascendingSort: bool)

  /** The state the game starts in: one snapshot, cursor 0, X to play, ascending order. */
  function Initial(): (g: GameState)
    ensures g.history == [INITIAL_SNAPSHOT]
    ensures g.history[0].squares == EMPTY_BOARD && g.history[0].playedRow == -1 && g.history[0].playedCol == -1
    ensures g.stepNumber == 0 && g.xIsNext && g.ascendingSort
  {
    GameState([INITIAL_SNAPSHOT], 0, true, true)
  }

  /** The mark written by the move that leaves the cursor at `k + 1`: X after an even cursor, O after an odd one. */
  function MarkAfter(k: nat): (m: Mark)
    ensures m == X <==> k % 2 == 0
  {
    if k % 2 == 0 then X else O
  }

  function MarkOf(xIsNext: bool): (m: Mark)
    ensures m == X <==> xIsNext
  {
    if xIsNext then X else O
  }

  /** The cell a snapshot's 1-based row and column point at. */
  function PlayedCell(s: Snapshot): (i: Index)
    requires 1 <= s.playedRow <= 3 && 1 <= s.playedCol <= 3
    ensures i / 3 + 1 == s.playedRow && i % 3 + 1 == s.playedCol
  {
    (s.playedRow - 1) * 3 + (s.playedCol - 1)
  }

  /**
   * `next` follows `prev` by one move of mark `m`: `prev` has no winner, the
   * recorded coordinates lie in 1..3 and name a cell that was empty in `prev`,
   * and `next`'s board is `prev`'s with just that cell set to `m`.
   */
  ghost predicate IsMove(prev: Snapshot, next: Snapshot, m: Mark) {
    && Winner(prev.squares) == None
    && 1 <= next.playedRow <= 3 && 1 <= next.playedCol <= 3
    && prev.squares[PlayedCell(next)] == Empty
    && next.squares == prev.squares[PlayedCell(next) := Marked(m)]
  }

  /**
   * A history as the game builds it: it starts with the initial snapshot and
   * each later snapshot follows its predecessor by one move, X and O taking
   * turns starting with X.
   */
  ghost predicate WellFormed(h: seq<Snapshot>) {
    && |h| >= 1
    && h[0] == INITIAL_SNAPSHOT
    && forall k :: 0 <= k < |h| - 1 ==> IsMove(h[k], h[k + 1], MarkAfter(k))
  }

  /** The invariant of the game state. */
  ghost predicate Inv(g: GameState) {
    && WellFormed(g.history)
    && g.stepNumber < |g.history|
    && g.xIsNext == (g.stepNumber % 2 == 0)
  }

  /** The snapshot the cursor points at. */
  function Current(g: GameState): (s: Snapshot)
    requires g.stepNumber < |g.history|
    ensures s in g.history
  {
    g.history[g.stepNumber]
  }

  /** A click on cell `i` is rejected when the current board has a winner or the cell is taken. */
  predicate Rejects(g: GameState, i: Index)
    requires g.stepNumber < |g.history|
  {
    Winner(Current(g).squares).Some? || Current(g).squares[i] != Empty
  }

  /**
   * A click on cell `i`: drop the snapshots after the cursor; if the current
   * board is won or the cell is taken, change nothing; otherwise append a copy
   * of the current board with cell `i` set to the mark of the player whose turn
   * the stored flag says it is, move the cursor to it and pass the turn.
   */
  function Click(g: GameState, i: Index): (g': GameState)
    requires g.stepNumber < |g.history|
    ensures g'.stepNumber < |g'.history|
    ensures g'.ascendingSort == g.ascendingSort
  {
    var currentHistory := g.history[..g.stepNumber + 1];
    var squares := currentHistory[|currentHistory| - 1].squares;
    if Winner(squares).Some? || squares[i] != Empty then g
    else
      var played := Snapshot(squares[i := Marked(MarkOf(g.xIsNext))], i / 3 + 1, i % 3 + 1);
      GameState(currentHistory + [played], |currentHistory|, !g.xIsNext, g.ascendingSort)
  }

  /** Moving the cursor to `step`; whose turn it is follows from the parity of `step`. */
  function Jump(g: GameState, step: nat): (g': GameState)
    requires step < |g.history|
    ensures g'.stepNumber < |g'.history|
  {
    g.(stepNumber := step, xIsNext := step % 2 == 0)
  }

  /** Flipping the order in which the history list is shown. */
  function ToggleSort(g: GameState): (g': GameState)
    ensures g'.ascendingSort != g.ascendingSort
  {
    g.(ascendingSort := !g.ascendingSort)
  }

  // ----- the invariant holds from the start and every transition keeps it -----

  lemma InitialSatisfiesInv()
    ensures Inv(Initial())
  {
  }

  lemma ClickPreservesInv(g: GameState, i: Index)
    requires Inv(g)
    ensures Inv(Click(g, i))
  {
    if Rejects(g, i) {
      ClickChangesStateIffAccepted(g, i);
    } else {
      var h, s := g.history, g.stepNumber;
      var next := Current(Click(g, i));
      AcceptedClickAppends(g, i);
      assert Click(g, i).history == h[..s + 1] + [next];
      AcceptedClickIsMove(g, i);
      WellFormedExtend(h, s, next);
    }
  }

  /** Cutting a well-formed history after entry `s` and appending a move from entry `s` keeps it well formed. */
  lemma WellFormedExtend(h: seq<Snapshot>, s: nat, next: Snapshot)
    requires WellFormed(h) && s < |h|
    requires IsMove(h[s], next, MarkAfter(s))
    ensures WellFormed(h[..s + 1] + [next])
  {
    var h' := h[..s + 1] + [next];
    forall k | 0 <= k < |h'| - 1
      ensures IsMove(h'[k], h'[k + 1], MarkAfter(k))
    {
      if k < s {
        assert h'[k] == h[k] && h'[k + 1] == h[k + 1];
      } else {
        assert h'[k] == h[s] && h'[k + 1] == next;
      }
    }
  }

  /** The snapshot an accepted click appends follows the current one by a move of the mark the parity names. */
  lemma AcceptedClickIsMove(g: GameState, i: Index)
    requires Inv(g) && !Rejects(g, i)
    ensures IsMove(Current(g), Current(Click(g, i)), MarkAfter(g.stepNumber))
  {
    var next := Current(Click(g, i));
    assert next.playedRow == i / 3 + 1 && next.playedCol == i % 3 + 1;
    assert PlayedCell(next) == i;
  }

  lemma JumpPreservesInv(g: GameState, step: nat)
    requires Inv(g) && step < |g.history|
    ensures Inv(Jump(g, step))
  {
  }

  lemma ToggleSortPreservesInv(g: GameState)
    requires Inv(g)
    ensures Inv(ToggleSort(g))
  {
  }

  // ----- what a click does -----

  /** A click changes the state exactly when it is not rejected; a rejected click leaves everything as it was. */
  lemma ClickChangesStateIffAccepted(g: GameState, i: Index)
    requires g.stepNumber < |g.history|
    ensures Click(g, i) == g <==> Rejects(g, i)
  {
  }

  /** Once the board shown has a winner, every click is rejected: the game has no end state, only this. */
  lemma WonBoardRejectsEveryClick(g: GameState, i: Index)
    requires g.stepNumber < |g.history| && Winner(Current(g).squares).Some?
    ensures Click(g, i) == g
  {
    assert g.history[..g.stepNumber + 1][g.stepNumber] == Current(g);
  }

  /**
   * An accepted click keeps the history up to the cursor, discards what lay
   * beyond it, and appends one snapshot; the cursor moves to that new last
   * entry and the turn passes.
   */
  lemma AcceptedClickAppends(g: GameState, i: Index)
    requires g.stepNumber < |g.history| && !Rejects(g, i)
    ensures var g' := Click(g, i);
      && |g'.history| == g.stepNumber + 2
      && g'.history[..g.stepNumber + 1] == g.history[..g.stepNumber + 1]
      && g'.stepNumber == g.stepNumber + 1 == |g'.history| - 1
      && g'.xIsNext == !g.xIsNext
  {
    var g' := Click(g, i);
    assert g'.history[..g.stepNumber + 1] == g.history[..g.stepNumber + 1];
  }

  /**
   * In the snapshot an accepted click appends, cell `i` (empty before) holds
   * X when it was X's turn and O otherwise, every other cell is as on the
   * current board, and the recorded row and column are those of cell `i`.
   */
  lemma AcceptedClickSnapshot(g: GameState, i: Index)
    requires g.stepNumber < |g.history| && !Rejects(g, i)
    ensures var s := Current(Click(g, i));
      && Current(g).squares[i] == Empty
      && s.squares[i] == (if g.xIsNext then Marked(X) else Marked(O))
      && (forall j :: 0 <= j < 9 && j != i ==> s.squares[j] == Current(g).squares[j])
      && 1 <= s.playedRow <= 3 && 1 <= s.playedCol <= 3
      && PlayedCell(s) == i
  {
  }

  /**
   * After a jump back to `step` and an accepted click, the history has
   * `step + 2` entries: the first `step + 1` are the old ones and everything
   * that lay after `step` is gone.
   */
  lemma BranchingDiscardsFuture(g: GameState, step: nat, i: Index)
    requires Inv(g) && step < |g.history|
    requires !Rejects(Jump(g, step), i)
    ensures var g' := Click(Jump(g, step), i);
      && |g'.history| == step + 2
      && g'.history[..step + 1] == g.history[..step + 1]
      && g'.stepNumber == step + 1
      && g'.xIsNext == (g'.stepNumber % 2 == 0)
  {
    AcceptedClickAppends(Jump(g, step), i);
  }

  // ----- what a jump and a sort toggle do -----

  /** A jump touches only the cursor and the turn flag, which it sets from the parity of the step. */
  lemma JumpSetsCursorAndTurn(g: GameState, step: nat)
    requires step < |g.history|
    ensures var g' := Jump(g, step);
      && g'.stepNumber == step && g'.xIsNext == (step % 2 == 0)
      && g'.history == g.history && g'.ascendingSort == g.ascendingSort
  {
  }

  /** Jumping back to the start shows the empty board with X to play. */
  lemma JumpToStartShowsEmptyBoard(g: GameState)
    requires Inv(g)
    ensures Current(Jump(g, 0)).squares == EMPTY_BOARD
    ensures Jump(g, 0).xIsNext
    ensures |Jump(g, 0).history| == |g.history|
  {
  }

  /** Toggling the order touches nothing else, and toggling twice restores the state. */
  lemma ToggleSortTwiceRestores(g: GameState)
    ensures ToggleSort(g).history == g.history && ToggleSort(g).stepNumber == g.stepNumber
    ensures ToggleSort(g).xIsNext == g.xIsNext
    ensures ToggleSort(ToggleSort(g)) == g
  {
  }

  // ----- consequences of the invariant -----

  /**
   * Consecutive boards of a well-formed history differ in exactly one cell,
   * the one the later snapshot records, and that cell was empty before.
   */
  lemma ConsecutiveBoardsDifferInOneCell(h: seq<Snapshot>, k: nat)
    requires WellFormed(h) && 0 < k < |h|
    ensures 1 <= h[k].playedRow <= 3 && 1 <= h[k].playedCol <= 3
    ensures h[k - 1].squares[PlayedCell(h[k])] == Empty
    ensures (set j | 0 <= j < 9 && h[k - 1].squares[j] != h[k].squares[j]) == {PlayedCell(h[k])}
  {
    assert IsMove(h[k - 1], h[k], MarkAfter(k - 1));
    var c := PlayedCell(h[k]);
    var diff := set j | 0 <= j < 9 && h[k - 1].squares[j] != h[k].squares[j];
    assert c in diff;
    assert forall j :: j in diff ==> j == c;
  }

  /** Board `k` of a well-formed history has exactly `k` filled cells. */
  lemma {:induction false} FilledCountIsIndex(h: seq<Snapshot>, k: nat)
    requires WellFormed(h) && k < |h|
    ensures FilledCount(h[k].squares) == k
  {
    if k == 0 {
      EmptyBoardIsUnfilled();
    } else {
      FilledCountIsIndex(h, k - 1);
      assert IsMove(h[k - 1], h[k], MarkAfter(k - 1));
      MarkingFillsOneCell(h[k - 1].squares, PlayedCell(h[k]), MarkAfter(k - 1));
    }
  }

  /** A game never holds more than ten snapshots: the start and at most nine moves. */
  lemma HistoryHoldsAtMostTenSnapshots(g: GameState)
    requires Inv(g)
    ensures |g.history| <= 10
  {
    FilledCountIsIndex(g.history, |g.history| - 1);
  }

  /** Only the last snapshot of a history can be won: play stops at the first win. */
  lemma OnlyLastSnapshotCanBeWon(h: seq<Snapshot>, k: nat)
    requires WellFormed(h) && k < |h| - 1
    ensures Winner(h[k].squares) == None
  {
    assert IsMove(h[k], h[k + 1], MarkAfter(k));
  }

  /** The stored turn flag always names the mark the next accepted click writes, X on even cursors. */
  lemma TurnFollowsCursorParity(g: GameState, i: Index)
    requires Inv(g) && !Rejects(g, i)
    ensures Current(Click(g, i)).squares[i] == Marked(MarkAfter(g.stepNumber))
  {
  }

  // ----- a game played out -----

  /** The clicks on `cells`, one after another; a game in its invariant stays in it. */
  function ClickAll(g: GameState, cells: seq<Index>): (g': GameState)
    requires g.stepNumber < |g.history|
    ensures g'.stepNumber < |g'.history|
    ensures Inv(g) ==> Inv(g')
    decreases cells
  {
    if cells == [] then g
    else
      var next := Click(g, cells[0]);
      assert Inv(g) ==> Inv(next) by {
        if Inv(g) { ClickPreservesInv(g, cells[0]); }
      }
      ClickAll(next, cells[1..])
  }

  /**
   * When the board shown has X down the first column (and nothing completed
   * before it in the scan), X is the winner and a click on cell 7, like any
   * other click, is rejected.
   */
  lemma FirstColumnWinStopsPlay(g: GameState)
    requires g.stepNumber < |g.history|
    requires Current(g).squares == [Marked(X), Empty, Empty, Marked(X), Marked(O), Marked(O), Marked(X), Empty, Empty]
    ensures Winner(Current(g).squares) == Some(X)
    ensures Click(g, 7) == g
  {
    var b := Current(g).squares;
    assert FirstCompleted(b, 3) by {
      assert !Completes(b, LINES[0]) && !Completes(b, LINES[1]) && !Completes(b, LINES[2]);
    }
    WinnerIsFirstCompletedLine(b, 3);
    WonBoardRejectsEveryClick(g, 7);
  }

  /** An accepted click from a state whose cursor is at the end appends the marked board. */
  lemma ClickAtEnd(g: GameState, i: Index)
    requires g.stepNumber == |g.history| - 1 && !Rejects(g, i)
    ensures Click(g, i) == GameState(
      g.history + [Snapshot(Current(g).squares[i := Marked(MarkOf(g.xIsNext))], i / 3 + 1, i % 3 + 1)],
      g.stepNumber + 1, !g.xIsNext, g.ascendingSort)
    ensures Click(g, i).stepNumber == |Click(g, i).history| - 1 == |g.history|
    ensures Current(Click(g, i)).squares == Current(g).squares[i := Marked(MarkOf(g.xIsNext))]
    ensures Click(g, i).xIsNext == !g.xIsNext
  {
    assert g.history[..g.stepNumber + 1] == g.history;
  }

  /**
   * X plays 0, O plays 4, X plays 3, O plays 5, X plays 6: the history holds
   * the start and the five moves, and the board shown has X down the first
   * column (which FirstColumnWinStopsPlay takes from there).
   */
  lemma FirstColumnWinScenario(g0: GameState, cells: seq<Index>)
    requires g0 == Initial() && cells == [0, 4, 3, 5, 6]
    ensures var g := ClickAll(g0, cells);
      && Current(g).squares == [Marked(X), Empty, Empty, Marked(X), Marked(O), Marked(O), Marked(X), Empty, Empty]
      && |g.history| == 6 && g.stepNumber == 5
  {
    var e, x, o := Empty, Marked(X), Marked(O);
    EmptyBoardHasNoWinner();
    ClickAtEnd(g0, 0);
    var g1 := Click(g0, 0);
    assert Current(g1).squares == [x, e, e, e, e, e, e, e, e];
    NoCompletedLineNoWinner(Current(g1).squares);
    ClickAtEnd(g1, 4);
    var g2 := Click(g1, 4);
    assert Current(g2).squares == [x, e, e, e, o, e, e, e, e];
    NoCompletedLineNoWinner(Current(g2).squares);
    ClickAtEnd(g2, 3);
    var g3 := Click(g2, 3);
    assert Current(g3).squares == [x, e, e, x, o, e, e, e, e];
    NoCompletedLineNoWinner(Current(g3).squares);
    ClickAtEnd(g3, 5);
    var g4 := Click(g3, 5);
    assert Current(g4).squares == [x, e, e, x, o, o, e, e, e];
    NoCompletedLineNoWinner(Current(g4).squares);
    ClickAtEnd(g4, 6);
    var g5 := Click(g4, 6);
    assert Current(g5).squares == [x, e, e, x, o, o, x, e, e];
    var c1, c2, c3, c4 := cells[1..], cells[2..], cells[3..], cells[4..];
    assert c1[1..] == c2 && c2[1..] == c3 && c3[1..] == c4 && c4[1..] == [];
    assert ClickAll(g4, c4) == g5;
    assert ClickAll(g3, c3) == g5;
    assert ClickAll(g2, c2) == g5;
    assert ClickAll(g1, c1) == g5;
  }
}
