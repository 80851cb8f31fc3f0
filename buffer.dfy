/**
 * The host's buffer as the command layer sees it through one snapshot:
 * lines of text, (row, column) points ordered lexicographically, line
 * metrics (length, indentation) and selections.
 *
 * Columns count characters.  A line is stored without its line break.
 */
module Buffer {

  type Line = seq<char>

  /** The text of a buffer: it always has at least one line, possibly empty. */
  type Lines = s: seq<Line> | |s| > 0 witness [[]]

  /** A position in a snapshot. */
  datatype Point = Point(row: nat, column: nat)

  /** The lexicographic order on points used by the host. */
  predicate Le(a: Point, b: Point) {
    a.row < b.row || (a.row == b.row && a.column <= b.column)
  }

  predicate Lt(a: Point, b: Point) {
    Le(a, b) && a != b
  }

  /** `std::cmp::min` on points. */
  function MinPoint(a: Point, b: Point): (m: Point)
    ensures Le(m, a) && Le(m, b)
    ensures m == a || m == b
  {
    if Le(a, b) then a else b
  }

  /** The remembered horizontal position of a selection (the host keeps a float; here an integer). */
  datatype SelectionGoal = NoGoal | HorizontalPosition(x: int) | HorizontalRange(startX: int, endX: int)

  /** A selection: `reversed` means the caret sits at `start`. */
  datatype Selection = Selection(start: Point, end: Point, reversed: bool, goal: SelectionGoal) {
    predicate IsEmpty() {
      start == end
    }

    /** The host keeps every selection with its start before its end. */
    predicate WellFormed() {
      Le(start, end)
    }
  }

  /**
   * The order in which the host keeps selections: starts and ends both
   * non-decreasing, each selection well formed.
   */
  predicate Sorted(sels: seq<Selection>) {
    && (forall i :: 0 <= i < |sels| ==> sels[i].WellFormed())
    && (forall i :: 0 < i < |sels| ==> Le(sels[i - 1].start, sels[i].start) && Le(sels[i - 1].end, sels[i].end))
  }

  predicate InBuffer(lines: seq<Line>, p: Point) {
    p.row < |lines| && p.column <= |lines[p.row]|
  }

  /** Every selection lies inside the buffer. */
  predicate AllInBuffer(lines: seq<Line>, sels: seq<Selection>) {
    forall i :: 0 <= i < |sels| ==> InBuffer(lines, sels[i].start) && InBuffer(lines, sels[i].end)
  }

  /** The end of the buffer: the greatest point inside it. */
  function MaxPoint(lines: seq<Line>): (p: Point)
    requires |lines| > 0
    ensures InBuffer(lines, p)
    ensures forall q :: InBuffer(lines, q) ==> Le(q, p)
  {
    Point(|lines| - 1, |lines[|lines| - 1]|)
  }

  /** Point clipping: a point past the end of a line or of the buffer moves back inside it. */
  function Clip(lines: seq<Line>, p: Point): (c: Point)
    requires |lines| > 0
    ensures InBuffer(lines, c)
    ensures InBuffer(lines, p) ==> c == p
    ensures p.row < |lines| ==> c.row == p.row
  {
    if p.row >= |lines| then MaxPoint(lines)
    else if p.column <= |lines[p.row]| then p
    else Point(p.row, |lines[p.row]|)
  }

  lemma ClipMonotone(lines: seq<Line>, a: Point, b: Point)
    requires |lines| > 0 && Le(a, b)
    ensures Le(Clip(lines, a), Clip(lines, b))
  {
  }

  predicate IsIndentChar(c: char) {
    c == ' ' || c == '\t'
  }

  /** Length of the leading run of spaces and tabs of a line. */
  function IndentOf(line: Line): (n: nat)
    ensures n <= |line|
    ensures forall i :: 0 <= i < n ==> IsIndentChar(line[i])
    ensures n < |line| ==> !IsIndentChar(line[n])
  {
    if |line| > 0 && IsIndentChar(line[0]) then 1 + IndentOf(line[1..]) else 0
  }

  /** Length of a row; a row past the end of the buffer measures 0. */
  function LineLen(lines: seq<Line>, row: nat): nat {
    if row < |lines| then |lines[row]| else 0
  }

  /** Indentation of a row; a row past the end of the buffer has none. */
  function IndentLen(lines: seq<Line>, row: nat): (n: nat)
    ensures n <= LineLen(lines, row)
  {
    if row < |lines| then IndentOf(lines[row]) else 0
  }

  /** A row holds something besides indentation. */
  predicate HasContent(lines: seq<Line>, row: nat) {
    row < |lines| && exists i :: 0 <= i < |lines[row]| && !IsIndentChar(lines[row][i])
  }

  lemma HasContentIffLongerThanIndent(lines: seq<Line>, row: nat)
    ensures HasContent(lines, row) <==> LineLen(lines, row) > IndentLen(lines, row)
  {
    if row < |lines| && LineLen(lines, row) > IndentLen(lines, row) {
      assert !IsIndentChar(lines[row][IndentOf(lines[row])]);
    }
  }

  /**
   * The host's edit primitive: replace the text between two points of the
   * buffer by `text`, which holds no line break.  The rows before `a` are
   * kept one by one; at `a` the row is cut and joined with what follows `b`.
   */
  function Replace(lines: seq<Line>, a: Point, b: Point, text: seq<char>): (r: seq<Line>)
    requires InBuffer(lines, a) && InBuffer(lines, b) && Le(a, b)
    ensures |r| == |lines| - (b.row - a.row)
    decreases a.row
  {
    if a.row == 0 then
      [lines[0][..a.column] + text + lines[b.row][b.column..]] + lines[b.row + 1..]
    else
      [lines[0]] + Replace(lines[1..], Point(a.row - 1, a.column), Point(b.row - 1, b.column), text)
  }

  /** The replacement as one splice: the rows before `a`, the joined row, the rows after `b`. */
  lemma {:induction false} ReplaceSplices(lines: seq<Line>, a: Point, b: Point, text: seq<char>)
    requires InBuffer(lines, a) && InBuffer(lines, b) && Le(a, b)
    ensures Replace(lines, a, b, text)
      == lines[..a.row] + [lines[a.row][..a.column] + text + lines[b.row][b.column..]] + lines[b.row + 1..]
    decreases a.row
  {
    if a.row > 0 {
      var a', b' := Point(a.row - 1, a.column), Point(b.row - 1, b.column);
      ReplaceSplices(lines[1..], a', b', text);
      assert lines[1..][..a'.row] == lines[1..a.row];
      assert lines[1..][b'.row + 1..] == lines[b.row + 1..];
      assert [lines[0]] + lines[1..a.row] == lines[..a.row];
    }
  }

  /** `buffer.edit` with points: both ends are clipped to the buffer first. */
  function ApplyEdit(lines: seq<Line>, from: Point, to: Point, text: seq<char>): (r: seq<Line>)
    requires |lines| > 0 && Le(from, to)
    ensures 0 < |r| <= |lines|
  {
    ClipMonotone(lines, from, to);
    Replace(lines, Clip(lines, from), Clip(lines, to), text)
  }
}
