/**
 * `move_to_beginning_of_line` and `move_to_end_of_line`: when every
 * selection is a bare caret the host's own line motion runs; otherwise the
 * first press collapses each selection to its start (or end) without
 * moving any further.
 */
module LineMotions {
  import opened Buffer
  import opened Host

  /** `all_selections_are_empty`: no selection holds any text. */
  function AllSelectionsAreEmpty(sels: seq<Selection>): (b: bool)
    ensures b <==> forall i :: 0 <= i < |sels| ==> sels[i].IsEmpty()
  {
    if sels == [] then true else sels[0].IsEmpty() && AllSelectionsAreEmpty(sels[1..])
  }

  /** The host's `collapse_to`: a caret at `p`, forward, with the given goal. */
  function CollapseTo(s: Selection, p: Point, goal: SelectionGoal): (t: Selection)
    ensures t.IsEmpty() && t.start == p && !t.reversed && t.goal == goal
  {
    s.(start := p, end := p, goal := goal, reversed := false)
  }

  /** Which end of a selection a collapse keeps. */
  datatype Side = StartSide | EndSide

  function SideOf(s: Selection, side: Side): Point {
    if side.StartSide? then s.start else s.end
  }

  /**
   * The `move_with` pass: every selection is collapsed in place to the
   * chosen end, dropping its goal.
   */
  method CollapseAll(sels: seq<Selection>, side: Side) returns (collapsed: seq<Selection>)
    ensures |collapsed| == |sels|
    ensures forall i :: 0 <= i < |sels| ==> collapsed[i] == CollapseTo(sels[i], SideOf(sels[i], side), NoGoal)
  {
    collapsed := sels;
    for i := 0 to |sels|
      invariant |collapsed| == |sels|
      invariant forall k :: 0 <= k < i ==> collapsed[k] == CollapseTo(sels[k], SideOf(sels[k], side), NoGoal)
      invariant forall k :: i <= k < |sels| ==> collapsed[k] == sels[k]
    {
      var selection := collapsed[i];
      var point := if side.StartSide? then selection.start else selection.end;
      selection := CollapseTo(selection, point, NoGoal);
      collapsed := collapsed[i := selection];
    }
  }

  /** The selections a collapse leaves, as a function of the old ones. */
  function Collapsed(sels: seq<Selection>, side: Side): (r: seq<Selection>)
    ensures |r| == |sels|
    ensures forall i :: 0 <= i < |sels| ==> r[i] == CollapseTo(sels[i], SideOf(sels[i], side), NoGoal)
  {
    if sels == [] then []
    else [CollapseTo(sels[0], SideOf(sels[0], side), NoGoal)] + Collapsed(sels[1..], side)
  }

  /**
   * After a collapse every selection is empty, so pressing the same key
   * again hands over to the host's line motion.
   */
  lemma CollapseLeavesOnlyCarets(sels: seq<Selection>, side: Side)
    ensures AllSelectionsAreEmpty(Collapsed(sels, side))
  {
  }

  /**
   * A collapse keeps the host's order and keeps every caret inside the
   * buffer: the carets sit where selections already started (or ended).
   */
  lemma CollapseKeepsOrderAndBounds(lines: seq<Line>, sels: seq<Selection>, side: Side)
    requires Sorted(sels)
    ensures Sorted(Collapsed(sels, side))
    ensures AllInBuffer(lines, sels) ==> AllInBuffer(lines, Collapsed(sels, side))
  {
    var r := Collapsed(sels, side);
    forall i | 0 < i < |r|
      ensures Le(r[i - 1].start, r[i].start) && Le(r[i - 1].end, r[i].end)
    {
      assert Le(sels[i - 1].start, sels[i].start) && Le(sels[i - 1].end, sels[i].end);
    }
  }

  /** A collapse changes nothing when every selection is already a forward caret without a goal. */
  lemma CollapseFixesPlainCarets(sels: seq<Selection>, side: Side)
    requires forall i :: 0 <= i < |sels| ==> sels[i].IsEmpty() && !sels[i].reversed && sels[i].goal == NoGoal
    ensures Collapsed(sels, side) == sels
  {
  }

  /** `move_to_beginning_of_line`. */
  method MoveToBeginningOfLine(e: Editor)
    modifies e
    ensures AllSelectionsAreEmpty(old(e.selections)) ==>
      e.calls == old(e.calls) + [NativeMoveToBeginningOfLine(true, true)] && e.selections == old(e.selections)
    ensures !AllSelectionsAreEmpty(old(e.selections)) ==>
      e.selections == Collapsed(old(e.selections), StartSide) && e.calls == old(e.calls)
    ensures e.kind == old(e.kind) && e.lines == old(e.lines) && e.readOnly == old(e.readOnly)
    ensures e.cursorShape == old(e.cursorShape)
  {
    if AllSelectionsAreEmpty(e.selections) {
      e.calls := e.calls + [NativeMoveToBeginningOfLine(true, true)];
    } else {
      e.selections := CollapseAll(e.selections, StartSide);
    }
  }

  /** `move_to_end_of_line`. */
  method MoveToEndOfLine(e: Editor)
    modifies e
    ensures AllSelectionsAreEmpty(old(e.selections)) ==>
      e.calls == old(e.calls) + [NativeMoveToEndOfLine(true)] && e.selections == old(e.selections)
    ensures !AllSelectionsAreEmpty(old(e.selections)) ==>
      e.selections == Collapsed(old(e.selections), EndSide) && e.calls == old(e.calls)
    ensures e.kind == old(e.kind) && e.lines == old(e.lines) && e.readOnly == old(e.readOnly)
    ensures e.cursorShape == old(e.cursorShape)
  {
    if AllSelectionsAreEmpty(e.selections) {
      e.calls := e.calls + [NativeMoveToEndOfLine(true)];
    } else {
      e.selections := CollapseAll(e.selections, EndSide);
    }
  }
}
