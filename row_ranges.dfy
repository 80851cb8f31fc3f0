/**
 * The row ranges that `join_lines` builds from the selections, and the
 * single left-to-right pass that merges them.
 */
module RowRanges {
  import opened Buffer

  /** The half-open row interval `[start, end)`. */
  datatype RowRange = RowRange(start: nat, end: nat) {
    predicate Contains(r: nat) {
      start <= r < end
    }
  }

  /**
   * The rows a selection asks to join with their successor: the selection's
   * own row when it spans one row, otherwise every row but its last.
   */
  function SelectionRows(s: Selection): (rg: RowRange)
    ensures rg.start == s.start.row
    ensures s.WellFormed() ==> rg.start < rg.end
    ensures s.WellFormed() ==>
      forall r: nat :: rg.Contains(r) <==> r == s.start.row || s.start.row <= r < s.end.row
  {
    RowRange(s.start.row, if s.start.row == s.end.row then s.start.row + 1 else s.end.row)
  }

  function RowsOf(sels: seq<Selection>): (rs: seq<RowRange>)
    ensures |rs| == |sels|
    ensures forall i :: 0 <= i < |sels| ==> rs[i] == SelectionRows(sels[i])
  {
    seq(|sels|, i requires 0 <= i < |sels| => SelectionRows(sels[i]))
  }

  /** One step of the pass: a range starting at or before the last end overwrites that end. */
  function Push(acc: seq<RowRange>, rg: RowRange): seq<RowRange> {
    if |acc| > 0 && rg.start <= acc[|acc| - 1].end then
      acc[..|acc| - 1] + [RowRange(acc[|acc| - 1].start, rg.end)]
    else
      acc + [rg]
  }

  /** The ranges left after the pass over `rs`, as the code computes them. */
  function Merge(rs: seq<RowRange>): seq<RowRange> {
    if rs == [] then [] else Push(Merge(rs[..|rs| - 1]), rs[|rs| - 1])
  }

  /** The same pass with the merge taking the larger end, the textbook normalizer. */
  function PushMax(acc: seq<RowRange>, rg: RowRange): seq<RowRange> {
    if |acc| > 0 && rg.start <= acc[|acc| - 1].end then
      var last := acc[|acc| - 1];
      acc[..|acc| - 1] + [RowRange(last.start, if last.end < rg.end then rg.end else last.end)]
    else
      acc + [rg]
  }

  function MergeMax(rs: seq<RowRange>): seq<RowRange> {
    if rs == [] then [] else PushMax(MergeMax(rs[..|rs| - 1]), rs[|rs| - 1])
  }

  /** Each range starts after the previous one ends: disjoint, non-adjacent, ascending. */
  predicate Separated(rs: seq<RowRange>) {
    forall k :: 0 < k < |rs| ==> rs[k - 1].end < rs[k].start
  }

  predicate NonEmptyRanges(rs: seq<RowRange>) {
    forall k :: 0 <= k < |rs| ==> rs[k].start < rs[k].end
  }

  /** Non-empty ranges whose starts and ends both never decrease. */
  predicate Ascending(rs: seq<RowRange>) {
    && NonEmptyRanges(rs)
    && forall k :: 0 < k < |rs| ==> rs[k - 1].start <= rs[k].start && rs[k - 1].end <= rs[k].end
  }

  /** Row `r` lies in one of the ranges. */
  predicate Covers(rs: seq<RowRange>, r: nat) {
    exists k :: 0 <= k < |rs| && rs[k].Contains(r)
  }

  lemma CoversAppend(a: seq<RowRange>, x: RowRange, r: nat)
    ensures Covers(a + [x], r) <==> Covers(a, r) || x.Contains(r)
  {
    if Covers(a + [x], r) {
      var k :| 0 <= k < |a| + 1 && (a + [x])[k].Contains(r);
      if k < |a| {
        assert a[k].Contains(r);
      }
    }
    if Covers(a, r) {
      var k :| 0 <= k < |a| && a[k].Contains(r);
      assert (a + [x])[k] == a[k];
    }
    if x.Contains(r) {
      assert (a + [x])[|a|] == x;
    }
  }

  /** What the pass guarantees for any input: it never grows, and its output is separated. */
  lemma {:induction false} MergeShape(rs: seq<RowRange>)
    ensures |Merge(rs)| <= |rs|
    ensures Separated(Merge(rs))
    ensures |rs| > 0 ==> |Merge(rs)| > 0 && Merge(rs)[|Merge(rs)| - 1].end == rs[|rs| - 1].end
  {
    if rs != [] {
      var p := rs[..|rs| - 1];
      MergeShape(p);
    }
  }

  /** Two ranges that overlap or touch, the first starting no later, cover what their hull covers. */
  lemma HullCovers(front: seq<RowRange>, last: RowRange, x: RowRange, r: nat)
    requires last.start <= x.start <= last.end <= x.end
    ensures Covers(front + [RowRange(last.start, x.end)], r) <==> Covers(front + [last] + [x], r)
  {
    CoversAppend(front, RowRange(last.start, x.end), r);
    CoversAppend(front + [last], x, r);
    CoversAppend(front, last, r);
  }

  lemma AscendingPrefix(rs: seq<RowRange>)
    requires Ascending(rs) && |rs| > 0
    ensures Ascending(rs[..|rs| - 1])
  {
    var p := rs[..|rs| - 1];
    forall k | 0 <= k < |p| ensures p[k] == rs[k] { }
  }

  /** For ascending input the pass keeps every range non-empty. */
  lemma {:induction false} MergeAscending(rs: seq<RowRange>)
    requires Ascending(rs)
    ensures NonEmptyRanges(Merge(rs))
    ensures |rs| > 0 ==> |Merge(rs)| > 0 && Merge(rs)[|Merge(rs)| - 1].start <= rs[|rs| - 1].start
  {
    if rs != [] {
      var p, x := rs[..|rs| - 1], rs[|rs| - 1];
      AscendingPrefix(rs);
      MergeAscending(p);
      MergeShape(p);
      var m := Merge(p);
      assert Merge(rs) == Push(m, x);
      PushNonEmpty(m, x);
    }
  }

  lemma PushNonEmpty(acc: seq<RowRange>, x: RowRange)
    requires NonEmptyRanges(acc) && x.start < x.end
    requires |acc| > 0 ==> acc[|acc| - 1].start <= x.start
    ensures var r := Push(acc, x); NonEmptyRanges(r) && |r| > 0 && r[|r| - 1].start <= x.start
  {
    var r := Push(acc, x);
    if |acc| > 0 && x.start <= acc[|acc| - 1].end {
      forall k | 0 <= k < |r| ensures r[k].start < r[k].end {
        if k < |acc| - 1 {
          assert r[k] == acc[k];
        }
      }
    } else {
      forall k | 0 <= k < |r| ensures r[k].start < r[k].end {
        if k < |acc| {
          assert r[k] == acc[k];
        }
      }
    }
  }

  /** For ascending input overwriting the last end is the same as taking the larger one. */
  lemma {:induction false} MergeIsMergeMax(rs: seq<RowRange>)
    requires Ascending(rs)
    ensures Merge(rs) == MergeMax(rs)
  {
    if rs != [] {
      var p, x := rs[..|rs| - 1], rs[|rs| - 1];
      AscendingPrefix(rs);
      MergeIsMergeMax(p);
      MergeShape(p);
      var m := Merge(p);
      assert rs[..|rs| - 1] == p;
      assert Merge(rs) == Push(m, x);
      assert MergeMax(rs) == PushMax(m, x);
      if |m| > 0 && x.start <= m[|m| - 1].end {
        assert m[|m| - 1].end == p[|p| - 1].end <= x.end;
      }
      PushIsPushMax(m, x);
    }
  }

  /** The two pushes differ only when the new range ends before the last one. */
  lemma PushIsPushMax(acc: seq<RowRange>, x: RowRange)
    requires |acc| > 0 && x.start <= acc[|acc| - 1].end ==> acc[|acc| - 1].end <= x.end
    ensures Push(acc, x) == PushMax(acc, x)
  {
  }

  /** For ascending input the pass covers exactly the rows of its input. */
  lemma {:induction false} MergeCovers(rs: seq<RowRange>)
    requires Ascending(rs)
    ensures forall r: nat :: Covers(Merge(rs), r) <==> Covers(rs, r)
  {
    if rs != [] {
      var p, x := rs[..|rs| - 1], rs[|rs| - 1];
      assert rs == p + [x];
      AscendingPrefix(rs);
      MergeCovers(p);
      MergeAscending(p);
      MergeShape(p);
      var m := Merge(p);
      if |m| > 0 && x.start <= m[|m| - 1].end {
        var last := m[|m| - 1];
        var front := m[..|m| - 1];
        assert m == front + [last];
        forall r: nat ensures Covers(Merge(rs), r) <==> Covers(rs, r) {
          HullCovers(front, last, x, r);
          CoversAppend(m, x, r);
          CoversAppend(p, x, r);
        }
      } else {
        forall r: nat ensures Covers(Merge(rs), r) <==> Covers(rs, r) {
          CoversAppend(m, x, r);
          CoversAppend(p, x, r);
        }
      }
    }
  }

  /** Sorted selections give ascending row ranges. */
  lemma SortedSelectionsGiveAscendingRanges(sels: seq<Selection>)
    requires Sorted(sels)
    ensures Ascending(RowsOf(sels))
  {
    var rs := RowsOf(sels);
    forall k | 0 < k < |rs|
      ensures rs[k - 1].start <= rs[k].start && rs[k - 1].end <= rs[k].end
    {
      var a, b := sels[k - 1], sels[k];
      assert Le(a.start, b.start) && Le(a.end, b.end);
      assert a.WellFormed() && b.WellFormed();
    }
  }

  /**
   * The normalizer on the selection set: ranges that are separated (pairwise
   * disjoint, non-adjacent, ascending), non-empty, no more numerous than the
   * selections, covering exactly the rows the selections ask to join, and
   * equal to the max-taking normalizer.
   */
  lemma NormalizedRowRanges(sels: seq<Selection>)
    requires Sorted(sels)
    ensures var m := Merge(RowsOf(sels));
      && Separated(m)
      && NonEmptyRanges(m)
      && |m| <= |sels|
      && m == MergeMax(RowsOf(sels))
      && forall r: nat :: Covers(m, r) <==> exists i :: 0 <= i < |sels| && SelectionRows(sels[i]).Contains(r)
  {
    SortedSelectionsGiveAscendingRanges(sels);
    MergeShape(RowsOf(sels));
    MergeAscending(RowsOf(sels));
    MergeIsMergeMax(RowsOf(sels));
    MergeCovers(RowsOf(sels));
  }

  /** Out of order input is where overwriting and taking the maximum part ways. */
  lemma OverwriteNeedsSortedInput()
    ensures Merge([RowRange(0, 5), RowRange(1, 2)]) == [RowRange(0, 2)]
    ensures MergeMax([RowRange(0, 5), RowRange(1, 2)]) == [RowRange(0, 5)]
  {
    assert [RowRange(0, 5), RowRange(1, 2)][..1] == [RowRange(0, 5)];
    assert [RowRange(0, 5)][..0] == [];
  }

  /** The loop of `join_lines` that builds and merges the row ranges. */
  method BuildRowRanges(sels: seq<Selection>) returns (rowRanges: seq<RowRange>)
    ensures rowRanges == Merge(RowsOf(sels))
    ensures |rowRanges| <= |sels| && Separated(rowRanges)
  {
    rowRanges := [];
    for i := 0 to |sels|
      invariant rowRanges == Merge(RowsOf(sels[..i]))
    {
      assert RowsOf(sels[..i + 1])[..i] == RowsOf(sels[..i]);
      var start := sels[i].start.row;
      var end := if sels[i].start.row == sels[i].end.row then sels[i].start.row + 1 else sels[i].end.row;
      if |rowRanges| > 0 {
        var last := rowRanges[|rowRanges| - 1];
        if start <= last.end {
          rowRanges := rowRanges[..|rowRanges| - 1] + [RowRange(last.start, end)];
          continue;
        }
      }
      rowRanges := rowRanges + [RowRange(start, end)];
    }
    assert sels[..|sels|] == sels;
    MergeShape(RowsOf(sels));
  }
}
