/**
 * The 3x3 board and win detection.
 *
 * A board is nine cells in row-major order (index = row * 3 + column, both
 * 0-based). The source types a cell as "X" | "O", but the starting board is
 * filled with `null`, so a cell is really one of empty, X or O.
 */
module Squares {
  import opened Options

  datatype Mark = X | O

  datatype Cell = Empty | Marked(mark: Mark)

  /** A cell index, 0..8. */
  type Index = i: int | 0 <= i < 9

  /** A board always has exactly nine cells. */
  type Board = b: seq<Cell> | |b| == 9 witness [Empty, Empty, Empty, Empty, Empty, Empty, Empty, Empty, Empty]

  const EMPTY_BOARD: Board := [Empty, Empty, Empty, Empty, Empty, Empty, Empty, Empty, Empty]

  /** Three cell indices that form a row, a column or a diagonal. */
  datatype Line = Line(a: Index, b: Index, c: Index)

  /** The eight lines, in the order the winner scan visits them: rows, columns, diagonals. */
  const LINES: seq<Line> := [
    Line(0, 1, 2), Line(3, 4, 5), Line(6, 7, 8),
    Line(0, 3, 6), Line(1, 4, 7), Line(2, 5, 8),
    Line(0, 4, 8), Line(2, 4, 6)
  ]

  /** The three cells of line `l` are non-empty and hold the same mark. */
  predicate Completes(b: Board, l: Line) {
    b[l.a] != Empty && b[l.a] == b[l.b] && b[l.a] == b[l.c]
  }

  /** Line number `j` is completed and no line before it in the scan order is. */
  predicate FirstCompleted(b: Board, j: int) {
    0 <= j < |LINES| && Completes(b, LINES[j]) &&
    forall j' :: 0 <= j' < j ==> !Completes(b, LINES[j'])
  }

  /**
   * The scan of the lines from number `k` on, in order: the mark of the first
   * completed line, or None when it reaches the end.
   */
  function WinnerFrom(b: Board, k: nat): Option<Mark>
    requires k <= |LINES|
    decreases |LINES| - k
  {
    if k == |LINES| then None
    else if Completes(b, LINES[k]) then Some(b[LINES[k].a].mark)
    else WinnerFrom(b, k + 1)
  }

  /** The winner of a board: the scan over all eight lines. */
  function Winner(b: Board): Option<Mark> {
    WinnerFrom(b, 0)
  }

  /**
   * The scan from line `k` on finds nothing exactly when no line from `k` on
   * is completed, and otherwise returns the mark of the first completed one.
   */
  lemma {:induction false} WinnerFromSpec(b: Board, k: nat)
    requires k <= |LINES|
    ensures WinnerFrom(b, k).None? <==> forall j :: k <= j < |LINES| ==> !Completes(b, LINES[j])
    ensures WinnerFrom(b, k).Some? ==>
      exists j :: k <= j < |LINES| && Completes(b, LINES[j]) && b[LINES[j].a] == Marked(WinnerFrom(b, k).value) &&
        forall j' :: k <= j' < j ==> !Completes(b, LINES[j'])
    decreases |LINES| - k
  {
    if k < |LINES| && !Completes(b, LINES[k]) {
      WinnerFromSpec(b, k + 1);
    }
  }

  /**
   * A board has no winner exactly when none of its eight lines is completed;
   * otherwise the winner is the mark of the first completed line in the order
   * rows, columns, diagonals.
   */
  lemma WinnerSpec(b: Board)
    ensures Winner(b).None? <==> forall j :: 0 <= j < |LINES| ==> !Completes(b, LINES[j])
    ensures Winner(b).Some? ==> exists j :: FirstCompleted(b, j) && b[LINES[j].a] == Marked(Winner(b).value)
  {
    WinnerFromSpec(b, 0);
  }

  /** The winner is exactly the mark of the first completed line. */
  lemma WinnerIsFirstCompletedLine(b: Board, j: int)
    requires FirstCompleted(b, j)
    ensures Winner(b) == Some(b[LINES[j].a].mark)
  {
    WinnerSpec(b);
    var r := Winner(b);
    assert r.Some?;
    var j0 :| FirstCompleted(b, j0) && b[LINES[j0].a] == Marked(r.value);
  }

  /** When only one mark completes any line, that mark is the winner. */
  lemma SoleCompletingMarkWins(b: Board, m: Mark, j: int)
    requires 0 <= j < |LINES| && Completes(b, LINES[j]) && b[LINES[j].a] == Marked(m)
    requires forall k :: 0 <= k < |LINES| && Completes(b, LINES[k]) ==> b[LINES[k].a] == Marked(m)
    ensures Winner(b) == Some(m)
  {
    WinnerSpec(b);
    var r := Winner(b);
    assert r.Some?;
    var j0 :| FirstCompleted(b, j0) && b[LINES[j0].a] == Marked(r.value);
  }

  /** The starting board has no winner. */
  lemma EmptyBoardHasNoWinner()
    ensures Winner(EMPTY_BOARD) == None
  {
    WinnerSpec(EMPTY_BOARD);
    forall j | 0 <= j < |LINES| ensures !Completes(EMPTY_BOARD, LINES[j]) {
      assert EMPTY_BOARD[LINES[j].a] == Empty;
    }
  }

  /** A board on which no line is completed has no winner. */
  lemma NoCompletedLineNoWinner(b: Board)
    requires !Completes(b, LINES[0]) && !Completes(b, LINES[1]) && !Completes(b, LINES[2]) && !Completes(b, LINES[3])
    requires !Completes(b, LINES[4]) && !Completes(b, LINES[5]) && !Completes(b, LINES[6]) && !Completes(b, LINES[7])
    ensures Winner(b) == None
  {
    WinnerSpec(b);
    forall j | 0 <= j < |LINES| ensures !Completes(b, LINES[j]) {
      if j == 0 {} else if j == 1 {} else if j == 2 {} else if j == 3 {}
      else if j == 4 {} else if j == 5 {} else if j == 6 {} else {}
    }
  }

  /** The number of non-empty cells of a sequence of cells. */
  function FilledCount(cells: seq<Cell>): (n: nat)
    ensures n <= |cells|
  {
    if cells == [] then 0
    else (if cells[0] == Empty then 0 else 1) + FilledCount(cells[1..])
  }

  /** Marking an empty cell fills exactly one more cell. */
  lemma {:induction false} MarkingFillsOneCell(cells: seq<Cell>, i: nat, m: Mark)
    requires i < |cells| && cells[i] == Empty
    ensures FilledCount(cells[i := Marked(m)]) == FilledCount(cells) + 1
  {
    var cells' := cells[i := Marked(m)];
    if i == 0 {
      assert cells'[1..] == cells[1..];
    } else {
      assert cells'[1..] == cells[1..][i - 1 := Marked(m)];
      MarkingFillsOneCell(cells[1..], i - 1, m);
    }
  }

  /** The starting board has no filled cell. */
  lemma EmptyBoardIsUnfilled()
    ensures FilledCount(EMPTY_BOARD) == 0
  {
    assert EMPTY_BOARD[1..][1..][1..][1..][1..][1..][1..][1..][1..] == [];
  }
}
