/** The fresh-stack and empty-input cases of the stack's unit tests, on the pure row functions. */
module StackExamples {
  import opened GenomicCoordinates
  import opened Alignments
  import opened StackRows
  import opened Wrappers
  import opened AlignmentExamples

  /** The five alignments of the fresh-stack test, in (start, id) and (end, id) order. */
  function FreshItems(): seq<Alignment<()>>
  {
    [Al("0", 0, 10), Al("1", 1, 11), Al("2", 2, 12), Al("3", 10, 20), Al("4", 11, 22)]
  }

  lemma FreshItemsSorted()
    ensures Sorted(ByStart, FreshItems()) && Sorted(ByEnd, FreshItems())
  {
    SortedFromAdjacent(ByStart, FreshItems());
    SortedFromAdjacent(ByEnd, FreshItems());
  }

  /**
   * Opening a new row for a pool whose last alignment is the only one that fits:
   * the row holds just that alignment.
   */
  lemma OpenSingleRow(rows: Rows<()>, pool: seq<Alignment<()>>)
    requires NoEmptyRow(rows) && pool != []
    requires forall j :: 0 <= j < |pool| - 1 ==> pool[j].End() > SaturatingSub(pool[|pool| - 1].Start(), PADDING)
    ensures LeftStep(rows, pool, |rows|) == (rows + [[pool[|pool| - 1]]], pool[..|pool| - 1])
  {
    var last := |pool| - 1;
    var rest := RemoveAt(pool, last);
    assert rest == pool[..last];
    var maxEnd := SaturatingSub(pool[last].Start(), PADDING);
    EndSortedList<()>.LastAtOrBeforeUnique(rest, maxEnd, None);
    assert LastAtOrBefore(pool, U64_MAX) == last;
    assert [pool[last]] + [] == [pool[last]];
    assert ExtendRowLeft([pool[last]], rest, maxEnd) == ([pool[last]], rest);
    assert ExtendRowLeft([], pool, U64_MAX) == ([pool[last]], rest);
  }

  lemma ExtendLeftUnfold<P>(rows: Rows<P>, pool: seq<Alignment<P>>, rowIdx: nat)
    requires rowIdx <= |rows| && NoEmptyRow(rows) && pool != []
    ensures ExtendLeft(rows, pool, rowIdx) ==
      ExtendLeft(LeftStep(rows, pool, rowIdx).0, LeftStep(rows, pool, rowIdx).1, rowIdx + 1)
  {
  }

  lemma NewRowStep<P>(rows: Rows<P>, pool: seq<Alignment<P>>)
    requires NoEmptyRow(rows) && pool != []
    ensures var ext := ExtendRowLeft([], pool, U64_MAX);
      LeftStep(rows, pool, |rows|) == (rows + [ext.0], ext.1)
  {
  }

  /** Row 0 takes "4" (the last end), then "0", which ends before "4" starts. */
  lemma FreshFirstRow(s: seq<Alignment<()>>)
    requires s == FreshItems()
    ensures ExtendRowLeft([], s, U64_MAX) == ([s[0], s[4]], [s[1], s[2], s[3]])
  {
    var p1 := RemoveAt(s, 4);
    assert p1 == s[..4];
    assert p1[0].End() <= 10;
    EndSortedList<()>.LastAtOrBeforeUnique(p1, 10, Some(0));
    var p2 := RemoveAt(p1, 0);
    assert p2 == [s[1], s[2], s[3]];
    EndSortedList<()>.LastAtOrBeforeUnique(p2, 0, None);
    assert [p1[0]] + [s[4]] == [s[0], s[4]];
    assert SaturatingSub(p1[0].Start(), PADDING) == 0;
    assert ExtendRowLeft([s[0], s[4]], p2, 0) == ([s[0], s[4]], p2);
    assert ExtendRowLeft([s[4]], p1, 10) == ([s[0], s[4]], p2);
    assert LastAtOrBefore(s, U64_MAX) == 4;
    assert [s[4]] + [] == [s[4]];
    assert SaturatingSub(s[4].Start(), PADDING) == 10;
  }

  /** Rows 1 to 3 take one alignment each, from the latest end down. */
  lemma FreshLaterRows(s: seq<Alignment<()>>)
    requires s == FreshItems()
    ensures ExtendLeft([[s[0], s[4]]], [s[1], s[2], s[3]], 1) == [[s[0], s[4]], [s[3]], [s[2]], [s[1]]]
  {
    var rows1 := [[s[0], s[4]]];
    var p2 := [s[1], s[2], s[3]];
    OpenSingleRow(rows1, p2);
    var rows2 := rows1 + [[s[3]]];
    OpenSingleRow(rows2, [s[1], s[2]]);
    var rows3 := rows2 + [[s[2]]];
    OpenSingleRow(rows3, [s[1]]);
    var rows4 := rows3 + [[s[1]]];
    assert [s[1]][..0] == [] && [s[1], s[2]][..1] == [s[1]] && p2[..2] == [s[1], s[2]];
    ExtendLeftUnfold(rows3, [s[1]], 3);
    ExtendLeftUnfold(rows2, [s[1], s[2]], 2);
    ExtendLeftUnfold(rows1, p2, 1);
  }

  /** Left extension of an empty stack packs the test's alignments into four rows. */
  lemma FreshExtendLeft(s: seq<Alignment<()>>)
    requires s == FreshItems()
    ensures ExtendLeft([], s, 0) == [[s[0], s[4]], [s[3]], [s[2]], [s[1]]]
  {
    FreshFirstRow(s);
    FreshLaterRows(s);
    var empty: Rows<()> := [];
    NewRowStep(empty, s);
    assert empty + [[s[0], s[4]]] == [[s[0], s[4]]];
    ExtendLeftUnfold(empty, s, 0);
  }

  /** With no rows there is nothing to replace: every incoming alignment is forwarded. */
  lemma {:induction false} ReconcileWithoutItems<P>(rows: Rows<P>, incoming: seq<Alignment<P>>)
    ensures Reconcile(rows, [], incoming, 0) == (rows, incoming)
    decreases |incoming|
  {
    if incoming != [] {
      ReconcileWithoutItems(rows, incoming[1..]);
      assert [incoming[0]] + incoming[1..] == incoming;
    }
  }

  /** On a fresh stack, alignments already in both orders are stacked by left extension alone. */
  lemma UpdateFreshRows<P>(region: GenomicRegion, empty: Rows<P>, s: seq<Alignment<P>>)
    requires empty == [] && Sorted(ByStart, s) && Sorted(ByEnd, s)
    ensures UpdateRows(region, empty, s) == ExtendLeft(empty, s, 0)
  {
    SortByOfSorted(ByStart, s);
    SortByOfSorted(ByEnd, s);
    assert TrimRows(region, empty) == empty;
    assert PositionsFrom(empty, 0, 0) == [];
    assert StackItems(empty) == [];
    ReconcileWithoutItems(empty, s);
    assert ExtendRight(empty, s, 0) == (empty, s);
  }

  /** `test_update_fresh_stack`: a fresh stack packs the five alignments into four rows. */
  lemma FreshStackUpdate(region: GenomicRegion, s: seq<Alignment<()>>)
    requires s == FreshItems()
    ensures UpdateRows(region, [], s) == [[s[0], s[4]], [s[3]], [s[2]], [s[1]]]
  {
    FreshItemsSorted();
    UpdateFreshRows(region, [], s);
    FreshExtendLeft(s);
  }

  /** `test_update_stack_with_empty_input`: nothing in, nothing stacked. */
  lemma EmptyUpdate<P>(region: GenomicRegion, none: seq<Alignment<P>>)
    requires none == []
    ensures UpdateRows(region, [], none) == []
  {
    var empty: Rows<P> := [];
    assert TrimRows(region, empty) == empty;
    assert Reconcile(empty, StackItems(empty), SortBy(ByStart, none), 0) == (empty, []);
    assert ExtendRight(empty, none, 0) == (empty, none);
  }
}
