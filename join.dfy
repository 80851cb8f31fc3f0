/**
 * `join_lines`: every row of the merged row ranges is joined with the row
 * after it, bottom-up, each edit measured on one snapshot taken before the
 * first edit; the cursor ranges recorded on the way become the selections.
 */
module JoinEngine {
  import opened Buffer
  import opened Host
  import opened RowRanges

  /** A buffer edit: replace the text between two points by `text`. */
  datatype Edit = Edit(from: Point, to: Point, text: seq<char>)

  /** The two positions recorded for one new selection, as clipped snapshot points. */
  datatype CursorSpan = CursorSpan(start: Point, end: Point)

  /**
   * The edit that joins `row` with the row below it, measured on the
   * snapshot: it spans the line break and the next row's indentation, and
   * puts one space in its place exactly when the next row holds more than
   * indentation.
   */
  function JoinEdit(snap: seq<Line>, row: nat): (e: Edit)
    ensures e.from == Point(row, LineLen(snap, row))
    ensures e.to == Point(row + 1, IndentLen(snap, row + 1))
    ensures Lt(e.from, e.to)
    ensures e.text == " " || e.text == ""
    ensures e.text == " " <==> HasContent(snap, row + 1)
  {
    HasContentIffLongerThanIndent(snap, row + 1);
    var endOfLine := Point(row, LineLen(snap, row));
    var nextLineRow := row + 1;
    var indent := IndentLen(snap, nextLineRow);
    var startOfNextLine := Point(nextLineRow, indent);
    var replace := if LineLen(snap, nextLineRow) > indent then " " else "";
    Edit(endOfLine, startOfNextLine, replace)
  }

  /**
   * The cursor range recorded for `row`: from the end of the row to the
   * start of the next, both points clipped into the snapshot.  Below the
   * last row this spans the line break; on the last row (or past it) both
   * ends fall on the end of the buffer and the range is an empty caret.
   */
  function CursorRange(snap: Lines, row: nat): CursorSpan {
    CursorSpan(Clip(snap, Point(row, LineLen(snap, row))), Clip(snap, Point(row + 1, 0)))
  }

  /** Where the cursor range recorded for `row` lies. */
  lemma CursorRangeSpan(snap: Lines, row: nat)
    ensures var c := CursorRange(snap, row);
      && InBuffer(snap, c.start) && InBuffer(snap, c.end) && Le(c.start, c.end)
      && (row < |snap| ==> c.start == Point(row, |snap[row]|))
      && (row + 1 < |snap| ==> c.end == Point(row + 1, 0) && Lt(c.start, c.end))
      && (row + 1 >= |snap| ==> c.start == c.end == MaxPoint(snap))
  {
    ClipMonotone(snap, Point(row, LineLen(snap, row)), Point(row + 1, 0));
  }

  /** The live buffer after the edit for `row`, measured on `snap`, is applied to it. */
  function JoinAt(snap: seq<Line>, live: Lines, row: nat): (r: Lines)
    ensures |r| <= |live|
  {
    var e := JoinEdit(snap, row);
    ApplyEdit(live, e.from, e.to, e.text)
  }

  /** One step of a traversal: the buffer after the work for one row. */
  type Step = (Lines, nat) -> Lines

  /** The buffer after `step` for each of `rows`, in that order. */
  function Fold(step: Step, live: Lines, rows: seq<nat>): Lines {
    if rows == [] then live else step(Fold(step, live, rows[..|rows| - 1]), rows[|rows| - 1])
  }

  /** The buffer after `step` for rows `hi - 1` down to `lo`, in that order. */
  function FoldDown(step: Step, live: Lines, lo: nat, hi: nat): Lines
    decreases hi
  {
    if lo < hi then FoldDown(step, step(live, hi - 1), lo, hi - 1) else live
  }

  /** The join edit of `join_lines` as a traversal step. */
  function JoinStep(snap: seq<Line>): Step {
    (live: Lines, row: nat) => JoinAt(snap, live, row)
  }

  /** The buffer after the edits for `rows`, in that order, all measured on `snap`. */
  function JoinRows(snap: Lines, rows: seq<nat>): Lines {
    Fold(JoinStep(snap), snap, rows)
  }

  /** The rows of a range, highest first (`iter_rows().rev()`). */
  function RowsDown(rg: RowRange): (s: seq<nat>)
    ensures |s| == if rg.start < rg.end then rg.end - rg.start else 0
    ensures forall i :: 0 <= i < |s| ==> s[i] == rg.end - 1 - i
    decreases rg.end
  {
    if rg.start < rg.end then [rg.end - 1] + RowsDown(RowRange(rg.start, rg.end - 1)) else []
  }

  lemma FoldStep(step: Step, live: Lines, rows: seq<nat>, row: nat)
    ensures Fold(step, live, rows + [row]) == step(Fold(step, live, rows), row)
  {
    assert (rows + [row])[..|rows|] == rows;
  }

  lemma VisitStep(snap: Lines, rows: seq<nat>, row: nat)
    ensures JoinRows(snap, rows + [row]) == JoinAt(snap, JoinRows(snap, rows), row)
  {
    FoldStep(JoinStep(snap), snap, rows, row);
  }

  /** The rows in the order the traversal visits them: ranges last to first, each highest row first. */
  function Visit(rs: seq<RowRange>): seq<nat> {
    if rs == [] then [] else Visit(rs[1..]) + RowsDown(rs[0])
  }

  /** What the traversal records for one row. */
  type Record = nat -> CursorSpan

  /** The cursor range of `join_lines` as a record. */
  function CursorRecord(snap: Lines): Record {
    (row: nat) => CursorRange(snap, row)
  }

  /** The records for `rows`, in visiting order. */
  function CursorRanges(rec: Record, rows: seq<nat>): (cs: seq<CursorSpan>)
    ensures |cs| == |rows|
    ensures forall i :: 0 <= i < |rows| ==> cs[i] == rec(rows[i])
  {
    if rows == [] then [] else CursorRanges(rec, rows[..|rows| - 1]) + [rec(rows[|rows| - 1])]
  }

  function Reversed<T>(s: seq<T>): (r: seq<T>)
    ensures |r| == |s|
    ensures forall i :: 0 <= i < |s| ==> r[i] == s[|s| - 1 - i]
  {
    seq(|s|, i requires 0 <= i < |s| => s[|s| - 1 - i])
  }

  /** The host's `select_anchor_ranges`: each range becomes a forward selection without a goal. */
  function SelectAnchorRanges(ranges: seq<CursorSpan>): (sels: seq<Selection>)
    ensures |sels| == |ranges|
    ensures forall i :: 0 <= i < |ranges| ==> sels[i] == Selection(ranges[i].start, ranges[i].end, false, NoGoal)
  {
    seq(|ranges|, i requires 0 <= i < |ranges| => Selection(ranges[i].start, ranges[i].end, false, NoGoal))
  }

  /** The selections `join_lines` installs after visiting `rows`. */
  function JoinedSelections(snap: Lines, rows: seq<nat>): seq<Selection> {
    SelectAnchorRanges(Reversed(CursorRanges(CursorRecord(snap), rows)))
  }

  predicate AllIndent(s: seq<char>) {
    forall i :: 0 <= i < |s| ==> IsIndentChar(s[i])
  }

  predicate StrictlyDecreasing(s: seq<nat>) {
    forall i, j :: 0 <= i < j < |s| ==> s[i] > s[j]
  }

  /**
   * What the edit for `row` relies on still holds in the live buffer: rows
   * up to `row` are as in the snapshot, the snapshot's next row is a prefix
   * of the live one, and no row was added.
   */
  predicate Agrees(snap: seq<Line>, live: seq<Line>, row: nat) {
    && row < |live| <= |snap|
    && live[..row + 1] == snap[..row + 1]
    && (row + 1 < |snap| ==> row + 1 < |live| && snap[row + 1] <= live[row + 1])
  }

  /**
   * Where the snapshot still agrees with the live buffer, the edit for
   * `row` removes exactly the line break after the live row and the
   * snapshot's indentation at the start of the live next row, puts the
   * replacement there, and leaves every other row alone; on the last row it
   * changes nothing.
   */
  lemma JoinAtEffect(snap: seq<Line>, live: seq<Line>, row: nat)
    requires Agrees(snap, live, row)
    ensures var e := JoinEdit(snap, row);
      && (row + 1 < |live| ==>
            && JoinAt(snap, live, row) == live[..row] + [live[row] + e.text + live[row + 1][e.to.column..]] + live[row + 2..]
            && e.to.column <= |live[row + 1]|
            && live[row + 1][..e.to.column] == snap[row + 1][..e.to.column]
            && AllIndent(live[row + 1][..e.to.column]))
      && (row + 1 >= |live| ==> JoinAt(snap, live, row) == live)
  {
    var e := JoinEdit(snap, row);
    assert live[row] == snap[row] by {
      assert live[..row + 1][row] == snap[..row + 1][row];
    }
    if row + 1 < |live| {
      assert snap[row + 1] <= live[row + 1];
      var indent := e.to.column;
      assert Clip(live, e.from) == e.from;
      assert Clip(live, e.to) == e.to;
      ReplaceSplices(live, e.from, e.to, e.text);
      assert live[row][..e.from.column] == live[row];
      assert live[row + 1][..indent] == snap[row + 1][..indent];
    } else {
      assert row + 1 >= |snap|;
      assert e.text == "";
      var a := Point(row, |live[row]|);
      assert Clip(live, e.from) == a;
      assert Clip(live, e.to) == a;
      ReplaceSplices(live, a, a, e.text);
      assert live[row][..a.column] == live[row] && live[row][a.column..] == [];
      assert live[row + 1..] == [];
      assert live == live[..row] + [live[row]];
      var mid := live[row][..a.column] + e.text + live[row][a.column..];
      assert mid == live[row];
      assert live == live[..row] + [mid] + live[row + 1..];
    }
  }

  /** A descending edit keeps the agreement that every lower row's edit relies on. */
  lemma AgreesAfterJoin(snap: seq<Line>, live: seq<Line>, row: nat, next: nat)
    requires Agrees(snap, live, row) && next < row
    ensures Agrees(snap, JoinAt(snap, live, row), next)
  {
    JoinAtEffect(snap, live, row);
    if row + 1 < |live| {
      var e := JoinEdit(snap, row);
      AgreesAfterSplice(snap, live, JoinAt(snap, live, row), row, next, e.text, e.to.column);
    } else {
      AgreesBelow(snap, live, row, next);
    }
  }

  /** Agreement up to a row gives agreement up to any lower row. */
  lemma AgreesBelow(snap: seq<Line>, live: seq<Line>, row: nat, next: nat)
    requires Agrees(snap, live, row) && next < row
    ensures Agrees(snap, live, next)
  {
    assert live[..next + 1] == live[..row + 1][..next + 1];
    assert snap[..next + 1] == snap[..row + 1][..next + 1];
    assert live[..row + 1][next + 1] == snap[..row + 1][next + 1];
  }

  /** Joining `row` with the next row keeps every row above `row` as it was. */
  lemma AgreesAfterSplice(snap: seq<Line>, live: seq<Line>, live': seq<Line>, row: nat, next: nat, text: seq<char>, col: nat)
    requires Agrees(snap, live, row) && next < row && row + 1 < |live| && col <= |live[row + 1]|
    requires live' == live[..row] + [live[row] + text + live[row + 1][col..]] + live[row + 2..]
    ensures Agrees(snap, live', next)
  {
    assert live[row] == snap[row] by {
      assert live[..row + 1][row] == snap[..row + 1][row];
    }
    assert live'[..next + 1] == live[..next + 1] == snap[..next + 1];
    if next + 1 < row {
      assert live'[next + 1] == live[next + 1] == snap[next + 1] by {
        assert live[..row + 1][next + 1] == snap[..row + 1][next + 1];
      }
    } else {
      assert live'[row] == live[row] + text + live[row + 1][col..];
    }
  }

  /**
   * The frozen snapshot is safe: when the rows are visited in strictly
   * descending order, every edit finds the live buffer agreeing with the
   * snapshot on the rows it measured.
   */
  lemma {:induction false} JoinTraversalSafe(snap: seq<Line>, rows: seq<nat>, i: nat)
    requires |snap| > 0 && StrictlyDecreasing(rows)
    requires forall k :: 0 <= k < |rows| ==> rows[k] < |snap|
    requires i < |rows|
    ensures Agrees(snap, JoinRows(snap, rows[..i]), rows[i])
  {
    if i == 0 {
      assert rows[..0] == [];
    } else {
      JoinTraversalSafe(snap, rows, i - 1);
      assert rows[..i][..i - 1] == rows[..i - 1];
      AgreesAfterJoin(snap, JoinRows(snap, rows[..i - 1]), rows[i - 1], rows[i]);
    }
  }

  lemma CoversCons(rs: seq<RowRange>, r: nat)
    requires |rs| > 0
    ensures Covers(rs, r) <==> rs[0].Contains(r) || Covers(rs[1..], r)
  {
    if Covers(rs, r) {
      var k :| 0 <= k < |rs| && rs[k].Contains(r);
      if k > 0 {
        assert rs[1..][k - 1] == rs[k];
      }
    }
    if Covers(rs[1..], r) {
      var k :| 0 <= k < |rs| - 1 && rs[1..][k].Contains(r);
      assert rs[k + 1] == rs[1..][k];
    }
  }

  /**
   * For separated, non-empty ranges the traversal visits rows in strictly
   * descending order (so each row once), and exactly the rows of the ranges.
   */
  lemma {:induction false} VisitOrder(rs: seq<RowRange>)
    requires Separated(rs) && NonEmptyRanges(rs)
    ensures StrictlyDecreasing(Visit(rs))
    ensures forall r: nat :: r in Visit(rs) <==> Covers(rs, r)
    ensures |rs| > 0 ==> forall k :: 0 <= k < |Visit(rs)| ==> rs[0].start <= Visit(rs)[k]
  {
    if rs != [] {
      var tail := rs[1..];
      assert Separated(tail) && NonEmptyRanges(tail) by {
        forall k | 0 <= k < |tail| ensures tail[k] == rs[k + 1] { }
      }
      VisitOrder(tail);
      var a, b := Visit(tail), RowsDown(rs[0]);
      assert Visit(rs) == a + b;
      forall i, j | 0 <= i < j < |a + b| ensures (a + b)[i] > (a + b)[j] {
        if i < |a| && j >= |a| {
          assert rs[1].start > rs[0].end;
        }
      }
      forall r: nat ensures r in a + b <==> Covers(rs, r) {
        CoversCons(rs, r);
        if r in b {
          var k :| 0 <= k < |b| && b[k] == r;
        }
        if rs[0].Contains(r) {
          assert b[rs[0].end - 1 - r] == r;
        }
      }
      forall k | 0 <= k < |a + b| ensures rs[0].start <= (a + b)[k] {
        if k < |a| {
          assert rs[1].start > rs[0].end;
        }
      }
    }
  }

  /**
   * For the host's sorted selections inside the buffer, the traversal of
   * `join_lines` visits, in strictly descending order, exactly the rows the
   * selections ask to join, all inside the snapshot, and every one of its
   * edits finds the live buffer agreeing with the snapshot.
   */
  lemma JoinLinesSafe(snap: seq<Line>, sels: seq<Selection>)
    requires |snap| > 0 && Sorted(sels) && AllInBuffer(snap, sels)
    ensures var rows := Visit(Merge(RowsOf(sels)));
      && StrictlyDecreasing(rows)
      && (forall r: nat :: r in rows <==> exists i :: 0 <= i < |sels| && SelectionRows(sels[i]).Contains(r))
      && (forall k :: 0 <= k < |rows| ==> rows[k] < |snap|)
      && (forall k :: 0 <= k < |rows| ==> Agrees(snap, JoinRows(snap, rows[..k]), rows[k]))
  {
    var m := Merge(RowsOf(sels));
    NormalizedRowRanges(sels);
    VisitOrder(m);
    var rows := Visit(m);
    forall k | 0 <= k < |rows| ensures rows[k] < |snap| {
      assert rows[k] in rows;
      var i :| 0 <= i < |sels| && SelectionRows(sels[i]).Contains(rows[k]);
      assert sels[i].WellFormed();
    }
    forall k | 0 <= k < |rows| ensures Agrees(snap, JoinRows(snap, rows[..k]), rows[k]) {
      JoinTraversalSafe(snap, rows, k);
    }
  }

  /** Reversing the descending cursor list leaves the selections in strictly ascending row order. */
  lemma JoinedSelectionsAscending(snap: Lines, rows: seq<nat>)
    requires StrictlyDecreasing(rows)
    requires forall k :: 0 <= k < |rows| ==> rows[k] < |snap|
    ensures var s := JoinedSelections(snap, rows);
      && |s| == |rows|
      && (forall i, j :: 0 <= i < j < |s| ==> s[i].start.row < s[j].start.row)
      && (forall i :: 0 <= i < |s| ==> s[i].start.row in rows && Le(s[i].start, s[i].end) && !s[i].reversed)
      && (forall i :: 0 <= i < |s| ==> (s[i].start.row + 1 < |snap| <==> Lt(s[i].start, s[i].end)))
  {
    var s := JoinedSelections(snap, rows);
    var cs := CursorRanges(CursorRecord(snap), rows);
    forall i | 0 <= i < |s|
      ensures s[i].start.row == rows[|rows| - 1 - i] && s[i].start.row in rows
      ensures Le(s[i].start, s[i].end) && !s[i].reversed
      ensures s[i].start.row + 1 < |snap| <==> Lt(s[i].start, s[i].end)
    {
      var row := rows[|rows| - 1 - i];
      assert s[i] == Selection(cs[|rows| - 1 - i].start, cs[|rows| - 1 - i].end, false, NoGoal);
      CursorRangeSpan(snap, row);
    }
  }

  /** Joining the only row of a one-line buffer leaves an empty caret at the end of the buffer. */
  lemma LastRowGivesCaret()
    ensures JoinedSelections(["ab"], [0]) == [Selection(Point(0, 2), Point(0, 2), false, NoGoal)]
  {
    var c := CursorRange(["ab"], 0);
    assert CursorRanges(CursorRecord(["ab"]), [0]) == [c];
  }

  /** For sorted selections inside the buffer, the selections `join_lines` installs ascend strictly by row. */
  lemma JoinLinesAscending(snap: Lines, sels: seq<Selection>)
    requires Sorted(sels) && AllInBuffer(snap, sels)
    ensures var s := JoinedSelections(snap, Visit(Merge(RowsOf(sels))));
      forall i, j :: 0 <= i < j < |s| ==> s[i].start.row < s[j].start.row
  {
    JoinLinesSafe(snap, sels);
    JoinedSelectionsAscending(snap, Visit(Merge(RowsOf(sels))));
  }

  /** Every selection `join_lines` installs is well formed, whatever rows were visited. */
  lemma JoinedSelectionsWellFormed(snap: Lines, rows: seq<nat>)
    ensures forall i :: 0 <= i < |JoinedSelections(snap, rows)| ==> JoinedSelections(snap, rows)[i].WellFormed()
  {
    var s := JoinedSelections(snap, rows);
    var cs := CursorRanges(CursorRecord(snap), rows);
    forall i | 0 <= i < |s| ensures s[i].WellFormed() {
      assert s[i] == Selection(cs[|rows| - 1 - i].start, cs[|rows| - 1 - i].end, false, NoGoal);
      CursorRangeSpan(snap, rows[|rows| - 1 - i]);
    }
  }

  /** Stepping through one range downwards continues a traversal by the range's rows, highest first. */
  lemma {:induction false} FoldDownExtends(step: Step, live: Lines, before: seq<nat>, lo: nat, hi: nat)
    ensures FoldDown(step, Fold(step, live, before), lo, hi) == Fold(step, live, before + RowsDown(RowRange(lo, hi)))
    decreases hi
  {
    if lo < hi {
      var next := before + [hi - 1];
      assert before + RowsDown(RowRange(lo, hi)) == next + RowsDown(RowRange(lo, hi - 1));
      FoldStep(step, live, before, hi - 1);
      FoldDownExtends(step, live, next, lo, hi - 1);
    } else {
      assert before + RowsDown(RowRange(lo, hi)) == before;
    }
  }

  /** The records for rows `hi - 1` down to `lo`, in that order. */
  function CursorsDown(rec: Record, lo: nat, hi: nat): (cs: seq<CursorSpan>)
    decreases hi
  {
    if lo < hi then [rec(hi - 1)] + CursorsDown(rec, lo, hi - 1) else []
  }

  /** Entry `i` of the downward list belongs to row `hi - 1 - i`. */
  lemma {:induction false} CursorsDownAt(rec: Record, lo: nat, hi: nat)
    ensures |CursorsDown(rec, lo, hi)| == if lo < hi then hi - lo else 0
    ensures forall i :: 0 <= i < |CursorsDown(rec, lo, hi)| ==> CursorsDown(rec, lo, hi)[i] == rec(hi - 1 - i)
    decreases hi
  {
    if lo < hi {
      CursorsDownAt(rec, lo, hi - 1);
      var rest := CursorsDown(rec, lo, hi - 1);
      var cs := [rec(hi - 1)] + rest;
      assert CursorsDown(rec, lo, hi) == cs;
      forall i | 0 < i < |cs| ensures cs[i] == rec(hi - 1 - i) {
        assert cs[i] == rest[i - 1];
      }
    }
  }

  /** Recording one range downwards continues the list by the range's rows, highest first. */
  lemma CursorsDownExtendVisit(rec: Record, before: seq<nat>, lo: nat, hi: nat)
    ensures CursorRanges(rec, before) + CursorsDown(rec, lo, hi) == CursorRanges(rec, before + RowsDown(RowRange(lo, hi)))
  {
    CursorsDownAt(rec, lo, hi);
    var front, down := CursorRanges(rec, before), CursorsDown(rec, lo, hi);
    var below := RowsDown(RowRange(lo, hi));
    var rows := before + below;
    var r := CursorRanges(rec, rows);
    assert |front + down| == |r|;
    forall i | 0 <= i < |r| ensures (front + down)[i] == r[i] {
      if i < |before| {
        assert rows[i] == before[i];
        assert (front + down)[i] == front[i] == rec(before[i]);
      } else {
        var j := i - |before|;
        assert rows[i] == below[j] == hi - 1 - j;
        assert (front + down)[i] == down[j] == rec(hi - 1 - j);
      }
    }
  }

  /**
   * The inner loop of `join_lines` over one range, highest row first: each
   * row records its cursor range and then receives the edit measured on
   * the snapshot.
   */
  method EditRange(snapshot: Lines, rowRange: RowRange, live0: Lines, cursors0: seq<CursorSpan>)
    returns (live: Lines, cursorPositions: seq<CursorSpan>)
    ensures live == FoldDown(JoinStep(snapshot), live0, rowRange.start, rowRange.end)
    ensures cursorPositions == cursors0 + CursorsDown(CursorRecord(snapshot), rowRange.start, rowRange.end)
  {
    live, cursorPositions := live0, cursors0;
    var row: nat := rowRange.end;
    while row > rowRange.start
      invariant FoldDown(JoinStep(snapshot), live, rowRange.start, row) == FoldDown(JoinStep(snapshot), live0, rowRange.start, rowRange.end)
      invariant cursorPositions + CursorsDown(CursorRecord(snapshot), rowRange.start, row) == cursors0 + CursorsDown(CursorRecord(snapshot), rowRange.start, rowRange.end)
    {
      var above := row;
      row := row - 1;
      live, cursorPositions := JoinRow(snapshot, rowRange.start, row, above, live, cursorPositions);
    }
    assert cursorPositions + CursorsDown(CursorRecord(snapshot), rowRange.start, row) == cursorPositions;
  }

  /**
   * The body of the inner loop for one row: record its cursor range, then
   * apply its edit.  What is left to do for the rows below is unchanged.
   */
  method JoinRow(snapshot: Lines, lo: nat, row: nat, above: nat, live0: Lines, cursors0: seq<CursorSpan>)
    returns (live: Lines, cursorPositions: seq<CursorSpan>)
    requires lo <= row && above == row + 1
    ensures live == JoinAt(snapshot, live0, row)
    ensures FoldDown(JoinStep(snapshot), live, lo, row) == FoldDown(JoinStep(snapshot), live0, lo, above)
    ensures cursorPositions == cursors0 + [CursorRange(snapshot, row)]
    ensures cursorPositions + CursorsDown(CursorRecord(snapshot), lo, row) == cursors0 + CursorsDown(CursorRecord(snapshot), lo, above)
  {
    var start := Clip(snapshot, Point(row, LineLen(snapshot, row)));
    var end := Clip(snapshot, Point(row + 1, 0));
    cursorPositions := cursors0 + [CursorSpan(start, end)];
    var edit := JoinEdit(snapshot, row);
    live := ApplyEdit(live0, edit.from, edit.to, edit.text);
    assert cursors0 + CursorsDown(CursorRecord(snapshot), lo, above) == cursorPositions + CursorsDown(CursorRecord(snapshot), lo, row);
  }

  /**
   * The transaction of `join_lines`: ranges last to first, each through
   * `EditRange`.  Returns the edited buffer and the cursor ranges in
   * visiting order.
   */
  method EditRows(snapshot: Lines, rowRanges: seq<RowRange>) returns (live: Lines, cursorPositions: seq<CursorSpan>)
    ensures live == JoinRows(snapshot, Visit(rowRanges))
    ensures cursorPositions == CursorRanges(CursorRecord(snapshot), Visit(rowRanges))
  {
    live := snapshot;
    cursorPositions := [];
    var k := |rowRanges|;
    while k > 0
      invariant 0 <= k <= |rowRanges|
      invariant live == JoinRows(snapshot, Visit(rowRanges[k..]))
      invariant cursorPositions == CursorRanges(CursorRecord(snapshot), Visit(rowRanges[k..]))
    {
      k := k - 1;
      assert rowRanges[k..][1..] == rowRanges[k + 1..];
      FoldDownExtends(JoinStep(snapshot), snapshot, Visit(rowRanges[k + 1..]), rowRanges[k].start, rowRanges[k].end);
      CursorsDownExtendVisit(CursorRecord(snapshot), Visit(rowRanges[k + 1..]), rowRanges[k].start, rowRanges[k].end);
      live, cursorPositions := EditRange(snapshot, rowRanges[k], live, cursorPositions);
    }
    assert rowRanges[0..] == rowRanges;
  }

  /**
   * The work of `join_lines` on the buffer and the selections: build the
   * row ranges, apply the edits on the way, and turn the cursor ranges into
   * the new selections.
   */
  method JoinedBuffer(snapshot: Lines, sels: seq<Selection>) returns (lines: Lines, selections: seq<Selection>)
    ensures lines == JoinRows(snapshot, Visit(Merge(RowsOf(sels))))
    ensures selections == JoinedSelections(snapshot, Visit(Merge(RowsOf(sels))))
    ensures forall i :: 0 <= i < |selections| ==> selections[i].WellFormed()
    ensures Sorted(sels) && AllInBuffer(snapshot, sels) ==>
      forall i, j :: 0 <= i < j < |selections| ==> selections[i].start.row < selections[j].start.row
  {
    var rowRanges := BuildRowRanges(sels);
    var cursorPositions;
    lines, cursorPositions := EditRows(snapshot, rowRanges);
    cursorPositions := Reversed(cursorPositions);
    selections := SelectAnchorRanges(cursorPositions);
    JoinedSelectionsWellFormed(snapshot, Visit(rowRanges));
    if Sorted(sels) && AllInBuffer(snapshot, sels) {
      JoinLinesAscending(snapshot, sels);
    }
  }

  /**
   * The `join_lines` command.  A read-only editor is left alone.  Otherwise
   * every row of the merged ranges is joined with the next one, and the
   * selections become the spans between the joined rows, in ascending order.
   */
  method JoinLines(e: Editor)
    requires e.Valid()
    modifies e
    ensures e.Valid()
    ensures old(e.readOnly) ==> unchanged(e)
    ensures !old(e.readOnly) ==>
      var rows := Visit(Merge(RowsOf(old(e.selections))));
      && e.lines == JoinRows(old(e.lines), rows)
      && e.selections == JoinedSelections(old(e.lines), rows)
      && e.kind == old(e.kind) && e.readOnly == old(e.readOnly) && e.cursorShape == old(e.cursorShape) && e.calls == old(e.calls)
    ensures !old(e.readOnly) && Sorted(old(e.selections)) && AllInBuffer(old(e.lines), old(e.selections)) ==>
      forall i, j :: 0 <= i < j < |e.selections| ==> e.selections[i].start.row < e.selections[j].start.row
  {
    if e.readOnly {
      return;
    }
    var lines, selections := JoinedBuffer(e.lines, e.selections);
    e.lines := lines;
    e.selections := selections;
  }
}
