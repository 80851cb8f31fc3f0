/**
 * `select_line`: every selection grows to the whole lines it touches, with
 * the caret placed at the beginning.  Line boundaries are buffer rows here
 * (soft wrap and folds are not modelled), so the previous line boundary of
 * a point is the start of its row and the next one is the end of its row.
 */
module LineSelection {
  import opened Buffer
  import opened Host

  /**
   * Whether a selection already ends with a whole line: it spans more than
   * one row, its end sits at the very start of a row, and its caret is at
   * its start.  Such a selection is not extended to the row holding its end.
   */
  predicate EndsOnLineStart(s: Selection) {
    s.start.row != s.end.row && s.end.column == 0 && s.reversed
  }

  /** The last row whose line the selection takes in. */
  function LastRow(s: Selection): (r: nat)
    requires s.WellFormed()
    ensures s.start.row <= r <= s.end.row
    ensures r < s.end.row <==> EndsOnLineStart(s)
  {
    if EndsOnLineStart(s) then s.end.row - 1 else s.end.row
  }

  /**
   * One selection snapped to lines: from the start of its first row to the
   * start of the row after its last one, or to the end of the buffer when
   * there is no such row; reversed, goal kept.
   */
  function SnapToLines(lines: seq<Line>, s: Selection): (t: Selection)
    requires |lines| > 0 && s.WellFormed()
    ensures t.start == Point(s.start.row, 0)
    ensures t.reversed && t.goal == s.goal
    ensures t.end == MaxPoint(lines) || t.end == Point(LastRow(s) + 1, 0)
    ensures Le(t.end, MaxPoint(lines)) && Le(t.end, Point(LastRow(s) + 1, 0))
  {
    var rowsStart := s.start.row;
    var rowsEnd := LastRow(s) + 1;
    Selection(Point(rowsStart, 0), MinPoint(MaxPoint(lines), Point(rowsEnd, 0)), true, s.goal)
  }

  /**
   * The snapped selection lies in the buffer, contains the original one and
   * every point of the rows from its first to its last row, and includes
   * the line break after the last row whenever that row is not the last of
   * the buffer.
   */
  lemma SnapCoversWholeLines(lines: seq<Line>, s: Selection)
    requires |lines| > 0 && s.WellFormed()
    requires InBuffer(lines, s.start) && InBuffer(lines, s.end)
    ensures var t := SnapToLines(lines, s);
      && t.WellFormed()
      && InBuffer(lines, t.start) && InBuffer(lines, t.end)
      && Le(t.start, s.start) && Le(s.end, t.end)
      && (forall q :: InBuffer(lines, q) && s.start.row <= q.row <= LastRow(s) ==> Le(t.start, q) && Le(q, t.end))
      && (LastRow(s) + 1 < |lines| ==> t.end == Point(LastRow(s) + 1, 0))
  {
    var t := SnapToLines(lines, s);
    var m := MaxPoint(lines);
    if LastRow(s) + 1 < |lines| {
      assert InBuffer(lines, Point(LastRow(s) + 1, 0));
      assert t.end == Point(LastRow(s) + 1, 0);
    } else {
      assert t.end == m;
    }
  }

  /** Selecting lines twice selects the same lines as selecting them once. */
  lemma SnapIdempotent(lines: seq<Line>, s: Selection)
    requires |lines| > 0 && s.WellFormed()
    requires InBuffer(lines, s.start) && InBuffer(lines, s.end)
    ensures SnapToLines(lines, SnapToLines(lines, s)) == SnapToLines(lines, s)
  {
    var t := SnapToLines(lines, s);
    SnapCoversWholeLines(lines, s);
    var m := MaxPoint(lines);
    if LastRow(s) + 1 < |lines| {
      assert t.end == Point(LastRow(s) + 1, 0);
      assert EndsOnLineStart(t);
      assert LastRow(t) == LastRow(s);
    } else {
      assert t.end == m;
      if EndsOnLineStart(t) {
        assert LastRow(t) + 1 == |lines| - 1;
      } else {
        assert LastRow(t) == |lines| - 1;
      }
    }
  }

  /**
   * A whole line selected with the caret at its start stays as it is, while
   * the same selection with the caret at its end takes in the next line too.
   */
  lemma CaretSideDecidesExtension(lines: seq<Line>, row: nat, goal: SelectionGoal)
    requires row + 2 < |lines|
    ensures var s := Selection(Point(row, 0), Point(row + 1, 0), true, goal);
      SnapToLines(lines, s) == s
    ensures var s := Selection(Point(row, 0), Point(row + 1, 0), false, goal);
      SnapToLines(lines, s).end == Point(row + 2, 0)
  {
    assert InBuffer(lines, Point(row + 1, 0)) && InBuffer(lines, Point(row + 2, 0));
  }

  /** The loop of `select_line`: every selection is snapped in place. */
  method SnapSelections(lines: seq<Line>, sels: seq<Selection>) returns (snapped: seq<Selection>)
    requires |lines| > 0
    requires forall i :: 0 <= i < |sels| ==> sels[i].WellFormed()
    ensures |snapped| == |sels|
    ensures forall i :: 0 <= i < |sels| ==> snapped[i] == SnapToLines(lines, sels[i])
  {
    snapped := sels;
    for i := 0 to |sels|
      invariant |snapped| == |sels|
      invariant forall k :: 0 <= k < i ==> snapped[k] == SnapToLines(lines, sels[k])
      invariant forall k :: i <= k < |sels| ==> snapped[k] == sels[k]
    {
      var selection := snapped[i];
      var start := selection.start;
      var end := selection.end;
      if start.row != end.row && end.column == 0 && selection.reversed {
        end := Point(end.row - 1, end.column);
      }
      var rowsStart, rowsEnd := start.row, end.row + 1;
      selection := selection.(start := Point(rowsStart, 0), end := MinPoint(MaxPoint(lines), Point(rowsEnd, 0)), reversed := true);
      snapped := snapped[i := selection];
    }
  }

  /** The `select_line` command: the snapped selections replace the old ones. */
  method SelectLine(e: Editor)
    requires e.Valid() && AllInBuffer(e.lines, e.selections)
    modifies e
    ensures e.Valid() && AllInBuffer(e.lines, e.selections)
    ensures |e.selections| == |old(e.selections)|
    ensures forall i :: 0 <= i < |e.selections| ==> e.selections[i] == SnapToLines(e.lines, old(e.selections)[i])
    ensures e.kind == old(e.kind) && e.lines == old(e.lines) && e.readOnly == old(e.readOnly)
    ensures e.cursorShape == old(e.cursorShape) && e.calls == old(e.calls)
  {
    var selections := SnapSelections(e.lines, e.selections);
    forall i | 0 <= i < |selections|
      ensures selections[i].WellFormed() && InBuffer(e.lines, selections[i].start) && InBuffer(e.lines, selections[i].end)
    {
      SnapCoversWholeLines(e.lines, e.selections[i]);
    }
    e.selections := selections;
  }
}
