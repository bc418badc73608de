/**
 * What the game shows besides the board: the list of history entries (a
 * label each, one of them marked active, in ascending or descending order)
 * and the status line.
 */
module Presentation {
  import opened Options
  import opened Squares
  import opened Decimal
  import opened History

  /** One entry of the history list: the step it jumps to, its label, and whether it is the active one. */
  datatype MoveEntry = MoveEntry(step: nat, desc: string, active: bool)

  const START_LABEL := "Go to game start"
  const MOVE_PREFIX := "Go to move #"
  const ROW_INFIX := ", played row #"
  const COL_INFIX := ", column#"

  /**
   * The label of history entry `move`: the start entry reads "Go to game
   * start"; a later one gives its index and the row and column the snapshot
   * itself records.
   */
  function MoveLabel(move: nat, s: Snapshot): (desc: string)
    ensures move == 0 <==> desc == START_LABEL
    ensures move > 0 ==> |desc| > |MOVE_PREFIX| && desc[..|MOVE_PREFIX|] == MOVE_PREFIX
  {
    if move == 0 then START_LABEL
    else
      var desc := MOVE_PREFIX + NatToText(move) + ROW_INFIX + IntToText(s.playedRow) + COL_INFIX + IntToText(s.playedCol);
      assert desc[..|MOVE_PREFIX|] == MOVE_PREFIX;
      assert desc[6] == 'm' != START_LABEL[6];
      desc
  }

  /** What a label says: the start entry, or a move's index with the row and column it played. */
  datatype LabelParts = StartParts | MoveParts(move: nat, row: int, col: int)

  /** `s` without its prefix `p`, or None when `s` does not start with `p`. */
  function DropPrefix(p: string, s: string): (r: Option<string>)
    ensures r.Some? <==> |p| <= |s| && s[..|p|] == p
    ensures r.Some? ==> s == p + r.value
  {
    if |p| <= |s| && s[..|p|] == p then
      assert s == s[..|p|] + s[|p|..];
      Some(s[|p|..])
    else None
  }

  /** Dropping a prefix from text that starts with it leaves the rest. */
  lemma DropPrefixOf(p: string, rest: string)
    ensures DropPrefix(p, p + rest) == Some(rest)
  {
    assert (p + rest)[..|p|] == p;
  }

  /** Reads a label back into its parts; None for text that is not a label. */
  function ParseLabel(desc: string): Option<LabelParts> {
    if desc == START_LABEL then Some(StartParts)
    else match DropPrefix(MOVE_PREFIX, desc)
      case None => None
      case Some(s1) => match ReadNat(s1)
        case None => None
        case Some((move, s2)) => match DropPrefix(ROW_INFIX, s2)
          case None => None
          case Some(s3) => match ReadInt(s3)
            case None => None
            case Some((row, s4)) => match DropPrefix(COL_INFIX, s4)
              case None => None
              case Some(s5) => match ReadInt(s5)
                case None => None
                case Some((col, s6)) => if s6 == [] then Some(MoveParts(move, row, col)) else None
  }

  /** Every label reads back as what it was made from: its index and, after the start, the snapshot's row and column. */
  lemma ParseLabelRoundTrip(move: nat, s: Snapshot)
    ensures ParseLabel(MoveLabel(move, s)) == Some(if move == 0 then StartParts else MoveParts(move, s.playedRow, s.playedCol))
  {
    if move > 0 {
      var row, col := IntToText(s.playedRow), IntToText(s.playedCol);
      var s5 := col;
      var s4 := COL_INFIX + s5;
      var s3 := row + s4;
      var s2 := ROW_INFIX + s3;
      var s1 := NatToText(move) + s2;
      assert MoveLabel(move, s) == MOVE_PREFIX + s1;
      DropPrefixOf(MOVE_PREFIX, s1);
      ReadNatRoundTrip(move, s2);
      DropPrefixOf(ROW_INFIX, s3);
      ReadIntRoundTrip(s.playedRow, s4);
      DropPrefixOf(COL_INFIX, s5);
      assert s5 + [] == s5;
      ReadIntRoundTrip(s.playedCol, []);
    }
  }

  /** Entries with different indices never share a label. */
  lemma LabelsAreDistinct(m: nat, n: nat, s: Snapshot, t: Snapshot)
    requires m != n
    ensures MoveLabel(m, s) != MoveLabel(n, t)
  {
    ParseLabelRoundTrip(m, s);
    ParseLabelRoundTrip(n, t);
  }

  /** The label of a move determines the row and column its snapshot records. */
  lemma LabelDeterminesCoords(k: nat, s: Snapshot, t: Snapshot)
    requires k > 0 && MoveLabel(k, s) == MoveLabel(k, t)
    ensures s.playedRow == t.playedRow && s.playedCol == t.playedCol
  {
    ParseLabelRoundTrip(k, s);
    ParseLabelRoundTrip(k, t);
  }

  /** The history list in stored order: one entry per snapshot, active where the index is the cursor. */
  function Entries(h: seq<Snapshot>, stepNumber: nat): (es: seq<MoveEntry>)
    ensures |es| == |h|
    ensures forall k :: 0 <= k < |h| ==> es[k].step == k && es[k].desc == MoveLabel(k, h[k])
  {
    seq(|h|, k requires 0 <= k < |h| => MoveEntry(k, MoveLabel(k, h[k]), k == stepNumber))
  }

  /** The indices of the active entries of a list. */
  function ActivePositions(es: seq<MoveEntry>): set<nat> {
    set k: nat | k < |es| && es[k].active
  }

  /** When the cursor is inside the history, exactly one entry is active: the cursor's. */
  lemma ExactlyOneActiveEntry(h: seq<Snapshot>, stepNumber: nat)
    requires stepNumber < |h|
    ensures ActivePositions(Entries(h, stepNumber)) == {stepNumber}
  {
    var es := Entries(h, stepNumber);
    assert es[stepNumber].active;
  }

  /** `s` in the opposite order. */
  function Reverse<T>(s: seq<T>): (r: seq<T>)
    ensures |r| == |s|
  {
    seq(|s|, k requires 0 <= k < |s| => s[|s| - 1 - k])
  }

  /** Reversing twice gives the list back. */
  lemma ReverseReverse<T>(s: seq<T>)
    ensures Reverse(Reverse(s)) == s
  {
  }

  /** Reversal keeps the elements and their counts. */
  lemma {:induction false} ReverseIsPermutation<T>(s: seq<T>)
    ensures multiset(Reverse(s)) == multiset(s)
  {
    if s != [] {
      var n := |s|;
      assert Reverse(s) == Reverse(s[1..]) + [s[0]];
      ReverseIsPermutation(s[1..]);
      assert s == [s[0]] + s[1..];
    }
  }

  /** Reverses the list `a` in place, as Array.prototype.reverse does. */
  method ReverseInPlace<T>(a: array<T>)
    modifies a
    ensures a[..] == Reverse(old(a[..]))
  {
    var lo, hi := 0, a.Length - 1;
    while lo < hi
      invariant 0 <= lo <= a.Length && -1 <= hi < a.Length && lo + hi == a.Length - 1
      invariant forall k :: 0 <= k < lo ==> a[k] == old(a[a.Length - 1 - k])
      invariant forall k :: hi < k < a.Length ==> a[k] == old(a[a.Length - 1 - k])
      invariant forall k :: lo <= k <= hi ==> a[k] == old(a[k])
    {
      a[lo], a[hi] := a[hi], a[lo];
      lo, hi := lo + 1, hi - 1;
    }
  }

  /** The history list as shown: stored order when ascending, that list reversed when descending. */
  function Presented(g: GameState): (es: seq<MoveEntry>)
    ensures |es| == |g.history|
  {
    var entries := Entries(g.history, g.stepNumber);
    if g.ascendingSort then entries else Reverse(entries)
  }

  /**
   * Toggling the order shows the same list reversed; toggling twice shows the
   * original list; the shown entries are those of the stored history, in some order.
   */
  lemma ToggleSortReversesPresentation(g: GameState)
    ensures Presented(ToggleSort(g)) == Reverse(Presented(g))
    ensures Presented(ToggleSort(ToggleSort(g))) == Presented(g)
    ensures multiset(Presented(g)) == multiset(Entries(g.history, g.stepNumber))
  {
    ReverseReverse(Entries(g.history, g.stepNumber));
    ReverseIsPermutation(Entries(g.history, g.stepNumber));
  }

  /** Reversing a list with one active entry at `p` moves that entry to `|es| - 1 - p`. */
  lemma ReversedActivePosition(es: seq<MoveEntry>, p: nat)
    requires p < |es| && ActivePositions(es) == {p}
    ensures ActivePositions(Reverse(es)) == {|es| - 1 - p}
    ensures Reverse(es)[|es| - 1 - p] == es[p]
  {
    var r := Reverse(es);
    assert r[|es| - 1 - p] == es[p];
    forall k: nat | k < |r| && r[k].active ensures k == |es| - 1 - p {
      assert r[k] == es[|es| - 1 - k];
      assert |es| - 1 - k in ActivePositions(es);
    }
  }

  /**
   * In the list as shown, exactly one entry is active, and it is the entry
   * of the cursor: at position stepNumber when ascending, counted from the
   * end when descending.
   */
  lemma ShownActiveEntry(g: GameState)
    requires g.stepNumber < |g.history|
    ensures var pos := if g.ascendingSort then g.stepNumber else |g.history| - 1 - g.stepNumber;
      && ActivePositions(Presented(g)) == {pos}
      && Presented(g)[pos].step == g.stepNumber
  {
    var es := Entries(g.history, g.stepNumber);
    ExactlyOneActiveEntry(g.history, g.stepNumber);
    assert es[g.stepNumber].step == g.stepNumber;
    if !g.ascendingSort {
      ReversedActivePosition(es, g.stepNumber);
    }
  }

  function MarkText(m: Mark): (s: string)
    ensures |s| == 1
  {
    if m == X then "X" else "O"
  }

  /** The status line: the winner when there is one, otherwise the player whose turn the flag says it is. */
  function Status(winner: Option<Mark>, xIsNext: bool): (s: string)
    ensures winner.Some? <==> |s| >= 8 && s[..8] == "Winner: "
  {
    if winner.Some? then
      var s := "Winner: " + MarkText(winner.value);
      assert s[..8] == "Winner: ";
      s
    else
      var s := "Next player: " + (if xIsNext then "X" else "O");
      assert s[0] == 'N' != 'W';
      s
  }

  /** Two equal status lines come from the same winner, and, when there is none, from the same turn. */
  lemma StatusIsUnambiguous(w: Option<Mark>, x: bool, w': Option<Mark>, x': bool)
    requires Status(w, x) == Status(w', x')
    ensures w == w'
    ensures w.None? ==> x == x'
  {
    var s := Status(w, x);
    if w.Some? && w'.Some? {
      assert s[8] == MarkText(w.value)[0] && s[8] == MarkText(w'.value)[0];
    } else if w.None? && w'.None? {
      assert s[13] == MarkText(MarkOf(x))[0] && s[13] == MarkText(MarkOf(x'))[0];
    }
  }

  /** The status line of a game in its invariant: with no winner it names X on an even cursor and O on an odd one. */
  lemma StatusFollowsCursorParity(g: GameState)
    requires Inv(g) && Winner(Current(g).squares).None?
    ensures Status(Winner(Current(g).squares), g.xIsNext) == "Next player: " + MarkText(MarkAfter(g.stepNumber))
  {
  }

  /** Jumping back to the start always shows "Next player: X". */
  lemma JumpToStartStatus(g: GameState)
    requires Inv(g)
    ensures var g' := Jump(g, 0); Status(Winner(Current(g').squares), g'.xIsNext) == "Next player: X"
  {
    JumpToStartShowsEmptyBoard(g);
    EmptyBoardHasNoWinner();
  }
}
