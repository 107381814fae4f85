/**
 * `AlignmentStack`: the rows of alignments shown for one track, updated in place
 * as the buffered region changes. Each method is proved against the pure row
 * functions of StackRows.
 */
module Stack {
  import opened Wrappers
  import opened GenomicCoordinates
  import opened Alignments
  import opened StackRows

  /** A stack's identifier; the random v4 UUID is supplied by the caller. */
  datatype StackId = StackId(uuid: nat)

  class AlignmentStack<P> {
    var id: StackId
    var rows: Rows<P>
    var bufferedRegion: GenomicRegion

    /** No row is empty, and `end + PADDING` never overflows for a stacked alignment. */
    ghost predicate Valid()
      reads this
    {
      NoEmptyRow(rows) && EndsBelowMax(Flatten(rows))
    }

    /** `new`: an empty stack over the buffered region. */
    constructor (id: StackId, bufferedRegion: GenomicRegion)
      ensures Valid()
      ensures this.id == id && this.bufferedRegion == bufferedRegion && rows == []
    {
      this.id := id;
      this.bufferedRegion := bufferedRegion;
      rows := [];
    }

    /** `count_alignments`: the number of alignments over all rows. */
    function CountAlignments(): (n: nat)
      reads this
      ensures n == |Flatten(rows)|
    {
      RowLengthSum(rows)
    }

    /** `trim`: keep only the alignments overlapping the buffered region, then drop empty rows. */
    method Trim()
      modifies this
      ensures rows == TrimRows(bufferedRegion, old(rows))
      ensures id == old(id) && bufferedRegion == old(bufferedRegion)
    {
      var retained := RetainEachRow(bufferedRegion, rows);
      rows := DropEmptyRows(bufferedRegion, rows, retained);
    }

    /** The first loop of `trim`: filter every row down to the alignments overlapping `region`. */
    static method RetainEachRow(region: GenomicRegion, original: Rows<P>) returns (stack: Rows<P>)
      ensures |stack| == |original|
      ensures forall k :: 0 <= k < |stack| ==> stack[k] == RetainOverlapping(region, original[k])
    {
      stack := original;
      var i := 0;
      while i < |stack|
        invariant 0 <= i <= |stack| == |original|
        invariant forall k :: 0 <= k < i ==> stack[k] == RetainOverlapping(region, original[k])
        invariant forall k :: i <= k < |stack| ==> stack[k] == original[k]
      {
        stack := stack[i := RetainOverlapping(region, stack[i])];
        i := i + 1;
      }
    }

    /** The second loop of `trim`: keep the rows that are still non-empty, in order. */
    static method DropEmptyRows(region: GenomicRegion, original: Rows<P>, stack: Rows<P>) returns (kept: Rows<P>)
      requires |stack| == |original|
      requires forall k :: 0 <= k < |stack| ==> stack[k] == RetainOverlapping(region, original[k])
      ensures kept == TrimRows(region, original)
    {
      kept := [];
      var i := 0;
      while i < |stack|
        invariant 0 <= i <= |stack|
        invariant kept == TrimRows(region, original[..i])
      {
        TrimRowsSnoc(region, original[..i], original[i]);
        assert original[..i + 1] == original[..i] + [original[i]];
        if |stack[i]| > 0 {
          kept := kept + [stack[i]];
        }
        i := i + 1;
      }
      assert original[..i] == original;
    }

    /**
     * `replace_duplicates`: overwrite, in place, every stacked alignment that an
     * incoming one re-reads (same id, reached in (start, id) order) and return
     * the other incoming alignments as a new start-sorted list.
     */
    method ReplaceDuplicates(alignments: StartSortedList<P>) returns (updated: StartSortedList<P>)
      requires alignments.Valid()
      modifies this
      ensures fresh(updated) && updated.Valid()
      ensures var rec := Reconcile(old(rows), StackItems(old(rows)), alignments.inner, 0);
        rows == rec.0 && updated.inner == rec.1
      ensures id == old(id) && bufferedRegion == old(bufferedRegion)
    {
      updated := new StartSortedList<P>.WithCapacity(|alignments.inner|);
      var items := StackItems(rows);
      var replaced, forwarded := ReplaceInRows(rows, items, alignments.inner);
      ReconcileForwards(rows, items, alignments.inner, 0);
      rows := replaced;
      updated.inner := forwarded;
    }

    /**
     * The loop of `replace_duplicates` over the stacked alignments' positions
     * `items`, sorted by (start, id): for each incoming alignment, skip the items
     * that start before it, then overwrite the reached item if the ids agree or
     * push the alignment onto the forwarded ones. Each push is in (start, id)
     * order, so the list's push never fails.
     */
    static method ReplaceInRows(stack: Rows<P>, items: seq<Pos>, incoming: seq<Alignment<P>>)
      returns (replaced: Rows<P>, forwarded: seq<Alignment<P>>)
      requires AllValid(stack, items) && Sorted(ByStart, incoming)
      ensures (replaced, forwarded) == Reconcile(stack, items, incoming, 0)
    {
      ghost var rec := Reconcile(stack, items, incoming, 0);
      replaced, forwarded := stack, [];
      var numExisting := |items|;
      var stackIdx: nat := 0;
      var todo := incoming;
      ghost var pending := rec.1;
      while todo != []
        invariant stackIdx <= |items| && AllValid(replaced, items)
        invariant Reconcile(replaced, items, todo, stackIdx) == (rec.0, pending)
        invariant forwarded + pending == rec.1
        decreases |todo|
      {
        ghost var before, from := todo, stackIdx;
        var alignment := todo[0];
        todo := todo[1..];
        stackIdx := SkipEarlier(replaced, items, alignment.Start(), stackIdx);
        if stackIdx != numExisting && alignment.id == At(replaced, items[stackIdx]).id {
          ReconcileReplaces(replaced, items, before, from, stackIdx, rec.0, pending);
          replaced := Overwrite(replaced, items[stackIdx], alignment);
        } else {
          ReconcileForwardsHead(replaced, items, before, from, stackIdx, rec.0, pending);
          pending := Reconcile(replaced, items, todo, stackIdx).1;
          ForwardedInOrder(stack, items, incoming, forwarded, alignment, pending);
          forwarded := forwarded + [alignment];
        }
      }
      assert pending == [] && forwarded + pending == forwarded;
    }

    /**
     * The inner loop of `replace_duplicates`: move past every stacked alignment
     * (in the `items` order) that starts before `start`.
     */
    static method SkipEarlier(stack: Rows<P>, items: seq<Pos>, start: uint64, from: nat) returns (idx: nat)
      requires from <= |items| && AllValid(stack, items)
      ensures idx == Skip(stack, items, start, from)
    {
      idx := from;
      while idx < |items| && At(stack, items[idx]).Start() < start
        invariant from <= idx <= |items|
        invariant Skip(stack, items, start, idx) == Skip(stack, items, start, from)
        decreases |items| - idx
      {
        idx := idx + 1;
      }
    }

    /** An incoming alignment whose id matches the item it reaches overwrites that item. */
    static lemma ReconcileReplaces(rows: Rows<P>, items: seq<Pos>, todo: seq<Alignment<P>>, idx: nat, i: nat,
                                   done: Rows<P>, pending: seq<Alignment<P>>)
      requires todo != [] && idx <= |items| && AllValid(rows, items)
      requires i == Skip(rows, items, todo[0].Start(), idx)
      requires i < |items| && todo[0].id == At(rows, items[i]).id
      requires Reconcile(rows, items, todo, idx) == (done, pending)
      ensures AllValid(Overwrite(rows, items[i], todo[0]), items)
      ensures Reconcile(Overwrite(rows, items[i], todo[0]), items, todo[1..], i) == (done, pending)
    {
      assert AllValid(Overwrite(rows, items[i], todo[0]), items);
    }

    /** Any other incoming alignment is forwarded, ahead of those forwarded after it. */
    static lemma ReconcileForwardsHead(rows: Rows<P>, items: seq<Pos>, todo: seq<Alignment<P>>, idx: nat, i: nat,
                                       done: Rows<P>, pending: seq<Alignment<P>>)
      requires todo != [] && idx <= |items| && AllValid(rows, items)
      requires i == Skip(rows, items, todo[0].Start(), idx)
      requires !(i < |items| && todo[0].id == At(rows, items[i]).id)
      requires Reconcile(rows, items, todo, idx) == (done, pending)
      ensures Reconcile(rows, items, todo[1..], i).0 == done
      ensures pending == [todo[0]] + Reconcile(rows, items, todo[1..], i).1
    {
    }

    /** Each forwarded alignment comes, by (start, id), after the ones forwarded before it. */
    static lemma ForwardedInOrder(stack: Rows<P>, items: seq<Pos>, incoming: seq<Alignment<P>>,
                                  front: seq<Alignment<P>>, x: Alignment<P>, rest: seq<Alignment<P>>)
      requires AllValid(stack, items) && Sorted(ByStart, incoming)
      requires front + ([x] + rest) == Reconcile(stack, items, incoming, 0).1
      ensures front == [] || Le(ByStart, front[|front| - 1], x)
      ensures (front + [x]) + rest == Reconcile(stack, items, incoming, 0).1
    {
      assert (front + [x]) + rest == front + ([x] + rest);
      ReconcileForwards(stack, items, incoming, 0);
      var all := Reconcile(stack, items, incoming, 0).1;
      if front != [] {
        assert all[|front| - 1] == front[|front| - 1] && all[|front|] == x;
      }
    }

    /**
     * `update`: take the new region, trim, replace re-read alignments and stack
     * the rest. Never fails.
     */
    method Update(alignments: seq<Alignment<P>>, updatedRegion: GenomicRegion) returns (r: Result<()>)
      requires Valid() && EndsBelowMax(alignments)
      modifies this
      ensures Valid() && r.Ok?
      ensures rows == UpdateRows(updatedRegion, old(rows), alignments)
      ensures bufferedRegion == updatedRegion && id == old(id)
    {
      ghost var original := rows;
      bufferedRegion := updatedRegion;
      Trim();
      var list := new StartSortedList<P>.FromVec(alignments);
      var novel := ReplaceDuplicates(list);
      ReconciledReady(updatedRegion, original, alignments);
      r := ExtendStack(novel);
      UpdateEndsBelowMax(updatedRegion, original, alignments);
    }

    /** `clear`: take the new region and drop every row. */
    method Clear(updatedRegion: GenomicRegion)
      modifies this
      ensures Valid()
      ensures rows == [] && bufferedRegion == updatedRegion && id == old(id)
    {
      bufferedRegion := updatedRegion;
      rows := [];
    }

    /**
     * `extend_stack_right`: for each row in turn, pop the first alignment that
     * starts PADDING past the row's last end and append it, until none fits.
     */
    method ExtendStackRight(newAlignments: StartSortedList<P>)
      requires newAlignments.Valid()
      requires EndsBelowMax(Flatten(rows)) && EndsBelowMax(newAlignments.inner)
      modifies this, newAlignments
      ensures newAlignments.Valid()
      ensures (rows, newAlignments.inner) == ExtendRight(old(rows), old(newAlignments.inner), 0)
      ensures id == old(id) && bufferedRegion == old(bufferedRegion)
    {
      ghost var original := rows;
      var rowIdx := 0;
      while rowIdx < |rows|
        invariant rowIdx <= |rows| == |original|
        invariant newAlignments.Valid() && EndsBelowMax(newAlignments.inner)
        invariant forall r :: rowIdx <= r < |rows| ==> rows[r] == original[r]
        invariant ExtendRight(rows, newAlignments.inner, rowIdx) == ExtendRight(original, old(newAlignments.inner), 0)
        invariant id == old(id) && bufferedRegion == old(bufferedRegion)
      {
        if original[rowIdx] != [] {
          LastEndBelowMax(original, rowIdx);
        }
        ExtendRowAt(newAlignments, rowIdx);
        rowIdx := rowIdx + 1;
      }
    }

    /** One pass of the outer loop of `extend_stack_right`: extend row `rowIdx` at the back. */
    method ExtendRowAt(newAlignments: StartSortedList<P>, rowIdx: nat)
      requires rowIdx < |rows| && newAlignments.Valid() && EndsBelowMax(newAlignments.inner)
      requires rows[rowIdx] != [] ==> rows[rowIdx][|rows[rowIdx]| - 1].End() < U64_MAX
      modifies this, newAlignments
      ensures newAlignments.Valid() && EndsBelowMax(newAlignments.inner)
      ensures |rows| == |old(rows)| && rows == old(rows)[rowIdx := rows[rowIdx]]
      ensures ExtendRight(old(rows), old(newAlignments.inner), rowIdx) == ExtendRight(rows, newAlignments.inner, rowIdx + 1)
      ensures id == old(id) && bufferedRegion == old(bufferedRegion)
    {
      var row := rows[rowIdx];
      var minStart: uint64 := 0;
      if |row| > 0 {
        minStart := row[|row| - 1].End() + PADDING;
      }
      ghost var before, pool := rows, newAlignments.inner;
      AppendFitting(newAlignments, rowIdx, minStart);
      RightRowStep(before, pool, rowIdx, rows[rowIdx], newAlignments.inner);
    }

    /**
     * The inner loop of `extend_stack_right`: append to row `rowIdx` the first
     * alignment starting at or after `minStart`, then require PADDING after its
     * end, until none is left.
     */
    method AppendFitting(newAlignments: StartSortedList<P>, rowIdx: nat, minStart: uint64)
      requires rowIdx < |rows| && newAlignments.Valid() && EndsBelowMax(newAlignments.inner)
      modifies this, newAlignments
      ensures newAlignments.Valid() && EndsBelowMax(newAlignments.inner)
      ensures |rows| == |old(rows)| && rows == old(rows)[rowIdx := rows[rowIdx]]
      ensures (rows[rowIdx], newAlignments.inner) == ExtendRowRight(old(rows)[rowIdx], old(newAlignments.inner), minStart)
      ensures id == old(id) && bufferedRegion == old(bufferedRegion)
    {
      var bound: uint64 := minStart;
      while true
        invariant newAlignments.Valid() && EndsBelowMax(newAlignments.inner)
        invariant |rows| == |old(rows)| && rows == old(rows)[rowIdx := rows[rowIdx]]
        invariant ExtendRowRight(rows[rowIdx], newAlignments.inner, bound) ==
                  ExtendRowRight(old(rows)[rowIdx], old(newAlignments.inner), minStart)
        invariant id == old(id) && bufferedRegion == old(bufferedRegion)
        decreases |newAlignments.inner|
      {
        ghost var left := newAlignments.inner;
        var next := newAlignments.PopAfter(bound);
        if next.None? {
          assert ExtendRowRight(rows[rowIdx], newAlignments.inner, bound) == (rows[rowIdx], newAlignments.inner);
          break;
        }
        var alignment := next.value;
        PopAfterStep(rows[rowIdx], left, bound);
        bound := alignment.End() + PADDING;
        rows := rows[rowIdx := rows[rowIdx] + [alignment]];
      }
    }

    /** The last alignment of a row is one of the stack's, so it ends below `u64::MAX`. */
    static lemma LastEndBelowMax(rows: Rows<P>, r: nat)
      requires EndsBelowMax(Flatten(rows)) && r < |rows| && rows[r] != []
      ensures rows[r][|rows[r]| - 1].End() < U64_MAX
    {
      FlattenMembership(rows, rows[r][|rows[r]| - 1]);
      var x := rows[r][|rows[r]| - 1];
      var k :| 0 <= k < |Flatten(rows)| && Flatten(rows)[k] == x;
    }

    /** One pop of the inner loop of `extend_stack_right` is one step of `ExtendRowRight`. */
    static lemma PopAfterStep(row: seq<Alignment<P>>, pool: seq<Alignment<P>>, minStart: int)
      requires EndsBelowMax(pool) && FirstAtOrAfter(pool, minStart) < |pool|
      ensures pool[FirstAtOrAfter(pool, minStart)].End() < U64_MAX
      ensures EndsBelowMax(RemoveAt(pool, FirstAtOrAfter(pool, minStart)))
      ensures ExtendRowRight(row, pool, minStart) ==
        ExtendRowRight(row + [pool[FirstAtOrAfter(pool, minStart)]], RemoveAt(pool, FirstAtOrAfter(pool, minStart)),
                       pool[FirstAtOrAfter(pool, minStart)].End() + PADDING)
    {
      RemoveAtSpec(pool, FirstAtOrAfter(pool, minStart));
    }

    /** A row whose inner loop has stopped is one step of `ExtendRight`. */
    static lemma RightRowStep(rows: Rows<P>, pool: seq<Alignment<P>>, rowIdx: nat, row: seq<Alignment<P>>,
                              left: seq<Alignment<P>>)
      requires rowIdx < |rows|
      requires ExtendRowRight(rows[rowIdx], pool,
                 if |rows[rowIdx]| > 0 then rows[rowIdx][|rows[rowIdx]| - 1].End() + PADDING else 0) == (row, left)
      ensures ExtendRight(rows, pool, rowIdx) == ExtendRight(rows[rowIdx := row], left, rowIdx + 1)
    {
    }

    /**
     * `extend_stack_left`: while alignments remain, pop into the front of the
     * next row the last one that ends PADDING before the row's first start,
     * opening a new row (bound `u64::MAX`) past the last.
     */
    method ExtendStackLeft(newAlignments: EndSortedList<P>)
      requires newAlignments.Valid() && NoEmptyRow(rows)
      modifies this, newAlignments
      ensures newAlignments.inner == []
      ensures rows == ExtendLeft(old(rows), old(newAlignments.inner), 0)
      ensures id == old(id) && bufferedRegion == old(bufferedRegion)
    {
      ghost var original := rows;
      var rowIdx := 0;
      while |newAlignments.inner| > 0
        invariant rowIdx <= |rows| && NoEmptyRow(rows) && newAlignments.Valid()
        invariant ExtendLeft(rows, newAlignments.inner, rowIdx) == ExtendLeft(original, old(newAlignments.inner), 0)
        invariant id == old(id) && bufferedRegion == old(bufferedRegion)
        decreases |newAlignments.inner| + |rows| - rowIdx
      {
        ghost var before := rows;
        ghost var pool := newAlignments.inner;
        var maxEnd: uint64;
        if |rows| <= rowIdx {
          rows := rows + [[]];
          maxEnd := U64_MAX;
        } else {
          maxEnd := SaturatingSub(rows[rowIdx][0].Start(), PADDING);
        }
        ghost var widened := rows;
        PrependFitting(newAlignments, rowIdx, maxEnd);
        LeftStepOfLoop(before, pool, rowIdx, widened, maxEnd, rows, newAlignments.inner);
        rowIdx := rowIdx + 1;
      }
      assert ExtendLeft(rows, [], rowIdx) == rows;
    }

    /**
     * The inner loop of `extend_stack_left`: put at the front of row `rowIdx`
     * the last alignment ending at or before `maxEnd`, then require its start
     * minus PADDING (saturating at 0), until none is left.
     */
    method PrependFitting(newAlignments: EndSortedList<P>, rowIdx: nat, maxEnd: uint64)
      requires rowIdx < |rows| && newAlignments.Valid()
      modifies this, newAlignments
      ensures newAlignments.Valid()
      ensures |rows| == |old(rows)| && rows == old(rows)[rowIdx := rows[rowIdx]]
      ensures (rows[rowIdx], newAlignments.inner) == ExtendRowLeft(old(rows)[rowIdx], old(newAlignments.inner), maxEnd)
      ensures id == old(id) && bufferedRegion == old(bufferedRegion)
    {
      var bound := maxEnd;
      while true
        invariant newAlignments.Valid()
        invariant |rows| == |old(rows)| && rows == old(rows)[rowIdx := rows[rowIdx]]
        invariant ExtendRowLeft(rows[rowIdx], newAlignments.inner, bound) ==
                  ExtendRowLeft(old(rows)[rowIdx], old(newAlignments.inner), maxEnd)
        invariant id == old(id) && bufferedRegion == old(bufferedRegion)
        decreases |newAlignments.inner|
      {
        ghost var left := newAlignments.inner;
        var next := newAlignments.PopBefore(bound);
        if next.None? {
          assert ExtendRowLeft(rows[rowIdx], newAlignments.inner, bound) == (rows[rowIdx], newAlignments.inner);
          break;
        }
        var alignment := next.value;
        PopBeforeStep(rows[rowIdx], left, bound);
        bound := SaturatingSub(alignment.Start(), PADDING);
        rows := rows[rowIdx := [alignment] + rows[rowIdx]];
      }
    }

    /** One pop of the inner loop of `extend_stack_left` is one step of `ExtendRowLeft`. */
    static lemma PopBeforeStep(row: seq<Alignment<P>>, pool: seq<Alignment<P>>, maxEnd: int)
      requires LastAtOrBefore(pool, maxEnd) >= 0
      ensures ExtendRowLeft(row, pool, maxEnd) ==
        ExtendRowLeft([pool[LastAtOrBefore(pool, maxEnd)]] + row, RemoveAt(pool, LastAtOrBefore(pool, maxEnd)),
                      SaturatingSub(pool[LastAtOrBefore(pool, maxEnd)].Start(), PADDING))
    {
    }

    /** One pass of the outer loop of `extend_stack_left` is one `LeftStep`. */
    static lemma LeftStepOfLoop(before: Rows<P>, pool: seq<Alignment<P>>, rowIdx: nat, widened: Rows<P>,
                                endBound: uint64, rows: Rows<P>, left: seq<Alignment<P>>)
      requires rowIdx <= |before| && NoEmptyRow(before) && pool != []
      requires widened == (if |before| <= rowIdx then before + [[]] else before)
      requires endBound == if |before| <= rowIdx then U64_MAX else SaturatingSub(before[rowIdx][0].Start(), PADDING)
      requires rowIdx < |rows| && |rows| == |widened| && rows == widened[rowIdx := rows[rowIdx]]
      requires ExtendRowLeft(widened[rowIdx], pool, endBound) == (rows[rowIdx], left)
      ensures LeftStep(before, pool, rowIdx) == (rows, left)
    {
      if |before| <= rowIdx {
        assert rows == before + [rows[rowIdx]];
      }
    }

    /**
     * `extend_stack`: extend at the back, sort the leftovers by (end, id), then
     * extend at the front and open new rows. Never fails.
     */
    method ExtendStack(newAlignments: StartSortedList<P>) returns (r: Result<()>)
      requires newAlignments.Valid() && NoEmptyRow(rows)
      requires EndsBelowMax(Flatten(rows)) && EndsBelowMax(newAlignments.inner)
      modifies this, newAlignments
      ensures r.Ok? && NoEmptyRow(rows)
      ensures rows == ExtendStackRows(old(rows), old(newAlignments.inner))
      ensures id == old(id) && bufferedRegion == old(bufferedRegion)
    {
      ExtendRightPrefix(rows, newAlignments.inner, 0);
      ExtendStackRight(newAlignments);
      assert NoEmptyRow(rows) by {
        assert forall i :: 0 <= i < |rows| ==> |old(rows)[i]| <= |rows[i]|;
      }
      var endSorted := newAlignments.SortByEnd();
      ExtendStackLeft(endSorted);
      r := Ok(());
    }
  }
}
