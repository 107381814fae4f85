/**
 * The row layout of an alignment stack as pure functions: trimming to a region,
 * replacing re-read alignments that share an id, greedy right extension of the
 * existing rows and left extension that opens new rows for what remains.
 */
module StackRows {
  import opened Wrappers
  import opened GenomicCoordinates
  import opened Ordering
  import opened Alignments

  /** Gap kept between adjacent alignments of a row so that they do not appear merged. */
  const PADDING: uint64 := 1

  type Rows<P> = seq<seq<Alignment<P>>>

  /** All alignments of the rows, row after row. */
  function Flatten<P>(rows: Rows<P>): seq<Alignment<P>>
  {
    if rows == [] then [] else rows[0] + Flatten(rows[1..])
  }

  lemma {:induction false} FlattenMembership<P>(rows: Rows<P>, x: Alignment<P>)
    ensures x in Flatten(rows) <==> exists i :: 0 <= i < |rows| && x in rows[i]
  {
    if rows != [] {
      FlattenMembership(rows[1..], x);
      if x in Flatten(rows[1..]) {
        var i :| 0 <= i < |rows[1..]| && x in rows[1..][i];
        assert x in rows[i + 1];
      }
      if exists i :: 0 <= i < |rows| && x in rows[i] {
        var i :| 0 <= i < |rows| && x in rows[i];
        if i > 0 {
          assert x in rows[1..][i - 1];
        }
      }
    }
  }

  lemma {:induction false} FlattenAppend<P>(rows: Rows<P>, row: seq<Alignment<P>>)
    ensures Flatten(rows + [row]) == Flatten(rows) + row
  {
    if rows != [] {
      assert (rows + [row])[1..] == rows[1..] + [row];
      FlattenAppend(rows[1..], row);
    }
  }

  /** Replacing one row changes the flattened contents by exactly that row. */
  lemma {:induction false} FlattenUpdate<P>(rows: Rows<P>, i: nat, row: seq<Alignment<P>>)
    requires i < |rows|
    ensures multiset(Flatten(rows[i := row])) + multiset(rows[i]) == multiset(Flatten(rows)) + multiset(row)
  {
    if i == 0 {
      assert rows[i := row][1..] == rows[1..];
    } else {
      var updated := rows[i := row];
      assert updated[1..] == rows[1..][i - 1 := row];
      FlattenUpdate(rows[1..], i - 1, row);
      assert updated[0] == rows[0];
      assert Flatten(updated) == rows[0] + Flatten(updated[1..]);
      assert Flatten(rows) == rows[0] + Flatten(rows[1..]);
      assert rows[i] == rows[1..][i - 1];
      calc {
        multiset(Flatten(updated)) + multiset(rows[i]);
        multiset(rows[0]) + multiset(Flatten(rows[1..][i - 1 := row])) + multiset(rows[1..][i - 1]);
        multiset(rows[0]) + (multiset(Flatten(rows[1..][i - 1 := row])) + multiset(rows[1..][i - 1]));
        multiset(rows[0]) + (multiset(Flatten(rows[1..])) + multiset(row));
        multiset(Flatten(rows)) + multiset(row);
      }
    }
  }

  /** `count_alignments`: the row lengths summed. */
  function RowLengthSum<P>(rows: Rows<P>): (n: nat)
    ensures n == |Flatten(rows)|
  {
    if rows == [] then 0 else |rows[0]| + RowLengthSum(rows[1..])
  }

  // ---------------------------------------------------------------------------
  // Row shape predicates.

  /** Within a row, each alignment ends at least PADDING before any later one starts. */
  predicate Separated<P>(row: seq<Alignment<P>>)
  {
    forall i, j :: 0 <= i < j < |row| ==> row[i].End() + PADDING <= row[j].Start()
  }

  predicate AllSeparated<P>(rows: Rows<P>)
  {
    forall i :: 0 <= i < |rows| ==> Separated(rows[i])
  }

  predicate NoEmptyRow<P>(rows: Rows<P>)
  {
    forall i :: 0 <= i < |rows| ==> rows[i] != []
  }

  /** No alignment ends at `u64::MAX`, so that `end + PADDING` fits in 64 bits. */
  predicate EndsBelowMax<P>(s: seq<Alignment<P>>)
  {
    forall k :: 0 <= k < |s| ==> s[k].End() < U64_MAX
  }

  /** Every alignment has start <= end, as GenomicInterval::new guarantees. */
  predicate WellFormed<P>(s: seq<Alignment<P>>)
  {
    forall i :: 0 <= i < |s| ==> s[i].interval.Valid()
  }

  predicate AllWellFormed<P>(rows: Rows<P>)
  {
    forall i :: 0 <= i < |rows| ==> WellFormed(rows[i])
  }

  lemma RowsShapeUpdate<P>(rows: Rows<P>, i: nat, row: seq<Alignment<P>>)
    requires i < |rows| && AllSeparated(rows) && AllWellFormed(rows) && Separated(row) && WellFormed(row)
    ensures AllSeparated(rows[i := row]) && AllWellFormed(rows[i := row])
  {
  }

  lemma RowsShapeAppend<P>(rows: Rows<P>, row: seq<Alignment<P>>)
    requires AllSeparated(rows) && AllWellFormed(rows) && Separated(row) && WellFormed(row)
    ensures AllSeparated(rows + [row]) && AllWellFormed(rows + [row])
  {
  }

  // ---------------------------------------------------------------------------
  // trim

  /** The retain condition of `trim`: the alignment overlaps the region, both bounds inclusive. */
  predicate OverlapsRegion<P>(region: GenomicRegion, a: Alignment<P>)
  {
    region.Start() <= a.End() && region.End() >= a.Start()
  }

  /** `row.retain(..)`: the alignments of the row that overlap the region, in row order. */
  function RetainOverlapping<P>(region: GenomicRegion, row: seq<Alignment<P>>): (r: seq<Alignment<P>>)
    ensures |r| <= |row|
    ensures forall i :: 0 <= i < |r| ==> r[i] in row && OverlapsRegion(region, r[i])
    ensures forall j :: 0 <= j < |row| && OverlapsRegion(region, row[j]) ==> row[j] in r
  {
    if row == [] then []
    else
      var rest := RetainOverlapping(region, row[1..]);
      assert forall j :: 1 <= j < |row| ==> row[j] == row[1..][j - 1];
      if OverlapsRegion(region, row[0]) then [row[0]] + rest else rest
  }

  /** Prepending an alignment that ends PADDING before every other one keeps a row separated. */
  lemma SeparatedCons<P>(x: Alignment<P>, row: seq<Alignment<P>>)
    requires Separated(row)
    requires forall k :: 0 <= k < |row| ==> x.End() + PADDING <= row[k].Start()
    ensures Separated([x] + row)
  {
    var r := [x] + row;
    forall a, b | 0 <= a < b < |r|
      ensures r[a].End() + PADDING <= r[b].Start()
    {
      assert r[b] == row[b - 1];
      if a > 0 {
        assert r[a] == row[a - 1];
      }
    }
  }

  /** Retaining keeps a row separated. */
  lemma {:induction false} RetainOverlappingSeparated<P>(region: GenomicRegion, row: seq<Alignment<P>>)
    requires Separated(row)
    ensures Separated(RetainOverlapping(region, row))
  {
    if row != [] {
      var tail := row[1..];
      assert Separated(tail);
      RetainOverlappingSeparated(region, tail);
      var rest := RetainOverlapping(region, tail);
      if OverlapsRegion(region, row[0]) {
        forall k | 0 <= k < |rest|
          ensures row[0].End() + PADDING <= rest[k].Start()
        {
          var j :| 0 <= j < |tail| && tail[j] == rest[k];
          assert tail[j] == row[j + 1];
        }
        SeparatedCons(row[0], rest);
      }
    }
  }

  /** Retaining keeps a row well formed. */
  lemma RetainOverlappingWellFormed<P>(region: GenomicRegion, row: seq<Alignment<P>>)
    requires WellFormed(row)
    ensures WellFormed(RetainOverlapping(region, row))
  {
    var r := RetainOverlapping(region, row);
    forall k | 0 <= k < |r|
      ensures r[k].interval.Valid()
    {
      var j :| 0 <= j < |row| && row[j] == r[k];
    }
  }

  /** `trim`: retain the overlapping alignments of every row, then drop the rows left empty. */
  function TrimRows<P>(region: GenomicRegion, rows: Rows<P>): (r: Rows<P>)
    ensures |r| <= |rows|
    ensures NoEmptyRow(r)
  {
    if rows == [] then []
    else
      var row := RetainOverlapping(region, rows[0]);
      (if row == [] then [] else [row]) + TrimRows(region, rows[1..])
  }

  /** Trimming one more row appends that row's overlapping alignments, if any. */
  lemma {:induction false} TrimRowsSnoc<P>(region: GenomicRegion, rows: Rows<P>, row: seq<Alignment<P>>)
    ensures var kept := RetainOverlapping(region, row);
      TrimRows(region, rows + [row]) == TrimRows(region, rows) + (if kept == [] then [] else [kept])
  {
    if rows != [] {
      assert (rows + [row])[1..] == rows[1..] + [row];
      TrimRowsSnoc(region, rows[1..], row);
    } else {
      assert TrimRows(region, [row]) == (if RetainOverlapping(region, row) == [] then [] else [RetainOverlapping(region, row)]) + TrimRows(region, []);
    }
  }

  /** Trimming keeps every row separated and well formed. */
  lemma {:induction false} TrimRowsShape<P>(region: GenomicRegion, rows: Rows<P>)
    requires AllSeparated(rows) && AllWellFormed(rows)
    ensures AllSeparated(TrimRows(region, rows)) && AllWellFormed(TrimRows(region, rows))
  {
    if rows != [] {
      var row := RetainOverlapping(region, rows[0]);
      RetainOverlappingSeparated(region, rows[0]);
      RetainOverlappingWellFormed(region, rows[0]);
      assert AllSeparated(rows[1..]) && AllWellFormed(rows[1..]);
      TrimRowsShape(region, rows[1..]);
      var tail := TrimRows(region, rows[1..]);
      if row != [] {
        assert TrimRows(region, rows) == [row] + tail;
        assert forall k :: 1 <= k < |[row] + tail| ==> ([row] + tail)[k] == tail[k - 1];
      }
    }
  }

  /** `trim` keeps exactly the alignments that overlap the region. */
  lemma {:induction false} TrimRowsKeepsOverlapping<P>(region: GenomicRegion, rows: Rows<P>, x: Alignment<P>)
    ensures x in Flatten(TrimRows(region, rows)) <==> x in Flatten(rows) && OverlapsRegion(region, x)
  {
    if rows != [] {
      TrimRowsKeepsOverlapping(region, rows[1..], x);
      var row := RetainOverlapping(region, rows[0]);
      var tail := TrimRows(region, rows[1..]);
      if row == [] {
        assert TrimRows(region, rows) == tail;
      } else {
        assert TrimRows(region, rows) == [row] + tail;
        assert ([row] + tail)[1..] == tail;
        assert Flatten(TrimRows(region, rows)) == row + Flatten(tail);
      }
      assert Flatten(rows) == rows[0] + Flatten(rows[1..]);
      if x in rows[0] && OverlapsRegion(region, x) {
        var j :| 0 <= j < |rows[0]| && rows[0][j] == x;
      }
    }
  }

  /** Trimming rows that all overlap the region changes nothing. */
  lemma {:induction false} TrimRowsOfOverlapping<P>(region: GenomicRegion, rows: Rows<P>)
    requires NoEmptyRow(rows)
    requires forall i, j :: 0 <= i < |rows| && 0 <= j < |rows[i]| ==> OverlapsRegion(region, rows[i][j])
    ensures TrimRows(region, rows) == rows
  {
    if rows != [] {
      RetainAllOverlapping(region, rows[0]);
      TrimRowsOfOverlapping(region, rows[1..]);
      assert rows == [rows[0]] + rows[1..];
    }
  }

  lemma {:induction false} RetainAllOverlapping<P>(region: GenomicRegion, row: seq<Alignment<P>>)
    requires forall j :: 0 <= j < |row| ==> OverlapsRegion(region, row[j])
    ensures RetainOverlapping(region, row) == row
  {
    if row != [] {
      RetainAllOverlapping(region, row[1..]);
      assert row == [row[0]] + row[1..];
    }
  }

  // ---------------------------------------------------------------------------
  // replace_duplicates

  /** A row and column in the rows: what the `&mut T` references of `stack_items` point to. */
  datatype Pos = Pos(row: nat, col: nat)

  predicate ValidPos<P>(rows: Rows<P>, p: Pos)
  {
    p.row < |rows| && p.col < |rows[p.row]|
  }

  function At<P>(rows: Rows<P>, p: Pos): Alignment<P>
    requires ValidPos(rows, p)
  {
    rows[p.row][p.col]
  }

  predicate AllValid<P>(rows: Rows<P>, ps: seq<Pos>)
  {
    forall k :: 0 <= k < |ps| ==> ValidPos(rows, ps[k])
  }

  /** Same number of rows and the same length in every row. */
  predicate SameShape<P>(a: Rows<P>, b: Rows<P>)
  {
    |a| == |b| && forall i :: 0 <= i < |a| ==> |a[i]| == |b[i]|
  }

  /** Overwriting one alignment keeps the shape of the rows. */
  function Overwrite<P>(rows: Rows<P>, p: Pos, a: Alignment<P>): (r: Rows<P>)
    requires ValidPos(rows, p)
    ensures SameShape(r, rows)
    ensures forall q :: ValidPos(rows, q) ==> At(r, q) == if q == p then a else At(rows, q)
  {
    rows[p.row := rows[p.row][p.col := a]]
  }

  /** The positions of all alignments from (r, c) on, row after row. */
  function PositionsFrom<P>(rows: Rows<P>, r: nat, c: nat): (ps: seq<Pos>)
    requires r <= |rows| && (r < |rows| ==> c <= |rows[r]|)
    ensures AllValid(rows, ps)
    decreases |rows| - r, if r < |rows| then |rows[r]| - c else 0
  {
    if r == |rows| then []
    else if c == |rows[r]| then PositionsFrom(rows, r + 1, 0)
    else [Pos(r, c)] + PositionsFrom(rows, r, c + 1)
  }

  /** The alignment at each position, with the position as its payload. */
  function Tag<P>(rows: Rows<P>, ps: seq<Pos>): (t: seq<Alignment<Pos>>)
    requires AllValid(rows, ps)
    ensures |t| == |ps|
    ensures forall k :: 0 <= k < |t| ==> t[k].payload == ps[k]
  {
    seq(|ps|, k requires 0 <= k < |ps| => Alignment(At(rows, ps[k]).id, At(rows, ps[k]).interval, ps[k]))
  }

  /**
   * `stack_items`: the positions of all alignments of the rows, sorted stably by
   * the (start, id) of the alignment each one holds.
   */
  function StackItems<P>(rows: Rows<P>): (items: seq<Pos>)
    ensures AllValid(rows, items)
  {
    var tagged := Tag(rows, PositionsFrom(rows, 0, 0));
    var sorted := SortBy(ByStart, tagged);
    assert forall k :: 0 <= k < |sorted| ==> ValidPos(rows, sorted[k].payload) by {
      forall k | 0 <= k < |sorted|
        ensures ValidPos(rows, sorted[k].payload)
      {
        assert sorted[k] in multiset(tagged);
        var j :| 0 <= j < |tagged| && tagged[j] == sorted[k];
      }
    }
    seq(|sorted|, k requires 0 <= k < |sorted| => sorted[k].payload)
  }

  /**
   * The inner `while` of `replace_duplicates`: advance past the items whose
   * current alignment starts before `start`.
   */
  function Skip<P>(rows: Rows<P>, items: seq<Pos>, start: int, idx: nat): (r: nat)
    requires idx <= |items| && AllValid(rows, items)
    ensures idx <= r <= |items|
    ensures forall k :: idx <= k < r ==> At(rows, items[k]).Start() < start
    ensures r < |items| ==> At(rows, items[r]).Start() >= start
    decreases |items| - idx
  {
    if idx < |items| && At(rows, items[idx]).Start() < start then Skip(rows, items, start, idx + 1)
    else idx
  }

  /**
   * The `for` loop of `replace_duplicates` from `idx` on: each incoming alignment
   * either overwrites the item reached by `Skip` when their ids agree, or is
   * forwarded. Returns the rows and the forwarded alignments.
   */
  function Reconcile<P>(rows: Rows<P>, items: seq<Pos>, incoming: seq<Alignment<P>>, idx: nat)
    : (res: (Rows<P>, seq<Alignment<P>>))
    requires idx <= |items| && AllValid(rows, items)
    ensures SameShape(res.0, rows)
    decreases |incoming|
  {
    if incoming == [] then (rows, [])
    else
      var al := incoming[0];
      var i := Skip(rows, items, al.Start(), idx);
      if i != |items| && al.id == At(rows, items[i]).id then
        var next := Overwrite(rows, items[i], al);
        assert AllValid(next, items);
        var rest := Reconcile(next, items, incoming[1..], i);
        (rest.0, rest.1)
      else
        var rest := Reconcile(rows, items, incoming[1..], i);
        (rest.0, [al] + rest.1)
  }

  /**
   * Every position keeps the id it had; it holds either its old alignment or an
   * incoming one.
   */
  lemma {:induction false} ReconcileKeepsIds<P>(rows: Rows<P>, items: seq<Pos>, incoming: seq<Alignment<P>>, idx: nat, p: Pos)
    requires idx <= |items| && AllValid(rows, items) && ValidPos(rows, p)
    ensures var r := Reconcile(rows, items, incoming, idx).0;
      ValidPos(r, p) && At(r, p).id == At(rows, p).id && (At(r, p) == At(rows, p) || At(r, p) in incoming)
    decreases |incoming|
  {
    if incoming != [] {
      var al := incoming[0];
      var i := Skip(rows, items, al.Start(), idx);
      if i != |items| && al.id == At(rows, items[i]).id {
        var next := Overwrite(rows, items[i], al);
        assert AllValid(next, items);
        ReconcileKeepsIds(next, items, incoming[1..], i, p);
      } else {
        ReconcileKeepsIds(rows, items, incoming[1..], i, p);
      }
    }
  }

  /** The forwarded alignments are incoming ones, in incoming order. */
  lemma ReconcileForwards<P>(rows: Rows<P>, items: seq<Pos>, incoming: seq<Alignment<P>>, idx: nat)
    requires idx <= |items| && AllValid(rows, items)
    ensures var fwd := Reconcile(rows, items, incoming, idx).1;
      (forall k :: 0 <= k < |fwd| ==> fwd[k] in incoming) &&
      (Sorted(ByStart, incoming) ==> Sorted(ByStart, fwd))
  {
    ReconcileForwardsFrom(rows, items, incoming, idx);
    if Sorted(ByStart, incoming) {
      ReconcileForwardsSorted(rows, items, incoming, idx);
    }
  }

  /** Every forwarded alignment is an incoming one. */
  lemma {:induction false} ReconcileForwardsFrom<P>(rows: Rows<P>, items: seq<Pos>, incoming: seq<Alignment<P>>, idx: nat)
    requires idx <= |items| && AllValid(rows, items)
    ensures forall x :: x in Reconcile(rows, items, incoming, idx).1 ==> x in incoming
    decreases |incoming|
  {
    if incoming != [] {
      var al, tail := incoming[0], incoming[1..];
      assert incoming == [al] + tail;
      var i := Skip(rows, items, al.Start(), idx);
      var next := if i != |items| && al.id == At(rows, items[i]).id then Overwrite(rows, items[i], al) else rows;
      assert AllValid(next, items);
      ReconcileForwardsFrom(next, items, tail, i);
      var rest := Reconcile(next, items, tail, i).1;
      var fwd := Reconcile(rows, items, incoming, idx).1;
      assert fwd == rest || fwd == [al] + rest;
    }
  }

  /** Forwarding keeps the incoming (start, id) order. */
  lemma {:induction false} ReconcileForwardsSorted<P>(rows: Rows<P>, items: seq<Pos>, incoming: seq<Alignment<P>>, idx: nat)
    requires idx <= |items| && AllValid(rows, items) && Sorted(ByStart, incoming)
    ensures Sorted(ByStart, Reconcile(rows, items, incoming, idx).1)
    decreases |incoming|
  {
    if incoming != [] {
      var al, tail := incoming[0], incoming[1..];
      var i := Skip(rows, items, al.Start(), idx);
      var next := if i != |items| && al.id == At(rows, items[i]).id then Overwrite(rows, items[i], al) else rows;
      assert AllValid(next, items);
      assert Sorted(ByStart, tail);
      ReconcileForwardsSorted(next, items, tail, i);
      var rest := Reconcile(next, items, tail, i).1;
      var fwd := Reconcile(rows, items, incoming, idx).1;
      if fwd != rest {
        assert fwd == [al] + rest;
        ReconcileForwardsFrom(next, items, tail, i);
        forall k | 0 <= k < |rest|
          ensures Le(ByStart, al, rest[k])
        {
          assert rest[k] in tail;
          var j :| 0 <= j < |tail| && tail[j] == rest[k];
          assert incoming[j + 1] == rest[k];
        }
        forall a, b | 0 <= a < b < |fwd|
          ensures Le(ByStart, fwd[a], fwd[b])
        {
          assert fwd[b] == rest[b - 1];
          if a > 0 {
            assert fwd[a] == rest[a - 1];
          }
        }
      }
    }
  }

  /** Alignments of the sequence that share an id are the same alignment. */
  predicate DistinctIds<P(==)>(s: seq<Alignment<P>>)
  {
    forall a, b :: a in s && b in s && a.id == b.id ==> a == b
  }

  /** The alignment sits at some position of the rows. */
  ghost predicate Placed<P>(rows: Rows<P>, x: Alignment<P>)
  {
    exists p :: ValidPos(rows, p) && At(rows, p) == x
  }

  /**
   * With distinct incoming ids, every incoming alignment is either forwarded or
   * written into the rows (a later alignment never overwrites it).
   */
  lemma {:induction false} ReconcileLandsEverything<P>(rows: Rows<P>, items: seq<Pos>, incoming: seq<Alignment<P>>, idx: nat)
    requires idx <= |items| && AllValid(rows, items) && DistinctIds(incoming)
    ensures var res := Reconcile(rows, items, incoming, idx);
      forall k :: 0 <= k < |incoming| ==> incoming[k] in res.1 || Placed(res.0, incoming[k])
    decreases |incoming|
  {
    if incoming != [] {
      var al := incoming[0];
      var tail := incoming[1..];
      assert DistinctIds(tail);
      var i := Skip(rows, items, al.Start(), idx);
      var res := Reconcile(rows, items, incoming, idx);
      if i != |items| && al.id == At(rows, items[i]).id {
        var p := items[i];
        var next := Overwrite(rows, p, al);
        assert AllValid(next, items);
        ReconcileLandsEverything(next, items, tail, i);
        ReconcileKeepsIds(next, items, tail, i, p);
        var r := res.0;
        assert At(r, p) == al;
        forall k | 0 <= k < |incoming|
          ensures incoming[k] in res.1 || Placed(res.0, incoming[k])
        {
          if k > 0 {
            assert incoming[k] == tail[k - 1];
          }
        }
      } else {
        ReconcileLandsEverything(rows, items, tail, i);
        forall k | 0 <= k < |incoming|
          ensures incoming[k] in res.1 || Placed(res.0, incoming[k])
        {
          if k > 0 {
            assert incoming[k] == tail[k - 1];
          }
        }
      }
    }
  }

  // ---------------------------------------------------------------------------
  // extend_stack_right

  /**
   * The inner loop of `extend_stack_right` for one row: repeatedly pop the
   * alignment with the smallest start at or after `minStart`, append it, and
   * require the next one to start PADDING after its end.
   */
  function ExtendRowRight<P>(row: seq<Alignment<P>>, pool: seq<Alignment<P>>, minStart: int)
    : (res: (seq<Alignment<P>>, seq<Alignment<P>>))
    ensures |row| <= |res.0| && res.0[..|row|] == row
    decreases |pool|
  {
    var i := FirstAtOrAfter(pool, minStart);
    if i == |pool| then (row, pool)
    else
      var res := ExtendRowRight(row + [pool[i]], RemoveAt(pool, i), pool[i].End() + PADDING);
      assert res.0[..|row|] == (row + [pool[i]])[..|row|];
      res
  }

  /** Right extension only moves alignments from the pool into the row. */
  lemma {:induction false} ExtendRowRightConserves<P>(row: seq<Alignment<P>>, pool: seq<Alignment<P>>, minStart: int)
    ensures var res := ExtendRowRight(row, pool, minStart);
      multiset(res.0) + multiset(res.1) == multiset(row) + multiset(pool) &&
      multiset(res.1) <= multiset(pool)
    decreases |pool|
  {
    var i := FirstAtOrAfter(pool, minStart);
    if i < |pool| {
      var x, rest := pool[i], RemoveAt(pool, i);
      assert ExtendRowRight(row, pool, minStart) == ExtendRowRight(row + [x], rest, x.End() + PADDING);
      RemoveAtSpec(pool, i);
      ExtendRowRightConserves(row + [x], rest, x.End() + PADDING);
      var res := ExtendRowRight(row + [x], rest, x.End() + PADDING);
      assert multiset(row + [x]) + multiset(rest) == multiset(row) + multiset(pool);
      MultisetSubTransitive(multiset(res.1), multiset(rest), multiset(pool));
    }
  }

  /** Appending an alignment that starts PADDING after every other one ends keeps a row separated. */
  lemma SeparatedSnoc<P>(row: seq<Alignment<P>>, x: Alignment<P>)
    requires Separated(row)
    requires forall k :: 0 <= k < |row| ==> row[k].End() + PADDING <= x.Start()
    ensures Separated(row + [x])
  {
  }

  /** A separated, well-formed row: every alignment ends PADDING before the last one starts or ends. */
  lemma SeparatedBelowLast<P>(row: seq<Alignment<P>>, k: int)
    requires Separated(row) && WellFormed(row) && 0 <= k < |row|
    ensures row[k].End() <= row[|row| - 1].End()
  {
  }

  /** Right extension keeps a row separated and well formed, and leaves the pool sorted. */
  lemma {:induction false} ExtendRowRightShape<P>(row: seq<Alignment<P>>, pool: seq<Alignment<P>>, minStart: int)
    requires Separated(row) && WellFormed(row) && WellFormed(pool)
    requires row != [] ==> row[|row| - 1].End() + PADDING <= minStart
    ensures var res := ExtendRowRight(row, pool, minStart);
      Separated(res.0) && WellFormed(res.0) && WellFormed(res.1) &&
      (Sorted(ByStart, pool) ==> Sorted(ByStart, res.1))
    decreases |pool|
  {
    var i := FirstAtOrAfter(pool, minStart);
    if i < |pool| {
      var x, rest := pool[i], RemoveAt(pool, i);
      assert ExtendRowRight(row, pool, minStart) == ExtendRowRight(row + [x], rest, x.End() + PADDING);
      RowRightStepShape(row, pool, minStart);
      ExtendRowRightShape(row + [x], rest, x.End() + PADDING);
    }
  }

  /** One append of right extension keeps the row's and the pool's shape. */
  lemma RowRightStepShape<P>(row: seq<Alignment<P>>, pool: seq<Alignment<P>>, minStart: int)
    requires Separated(row) && WellFormed(row) && WellFormed(pool)
    requires row != [] ==> row[|row| - 1].End() + PADDING <= minStart
    requires FirstAtOrAfter(pool, minStart) < |pool|
    ensures var i := FirstAtOrAfter(pool, minStart);
      var rest := RemoveAt(pool, i);
      Separated(row + [pool[i]]) && WellFormed(row + [pool[i]]) && WellFormed(rest) &&
      (Sorted(ByStart, pool) ==> Sorted(ByStart, rest))
  {
    var i := FirstAtOrAfter(pool, minStart);
    FirstAtOrAfterSpec(pool, minStart);
    var x := pool[i];
    forall k | 0 <= k < |row|
      ensures row[k].End() + PADDING <= x.Start()
    {
      SeparatedBelowLast(row, k);
    }
    SeparatedSnoc(row, x);
    RemoveAtSpec(pool, i);
    if Sorted(ByStart, pool) {
      SortedRemoveAt(ByStart, pool, i);
    }
  }

  predicate AllStartBefore<P>(s: seq<Alignment<P>>, bound: int)
  {
    forall k :: 0 <= k < |s| ==> s[k].Start() < bound
  }

  /** The smallest start the extended row would accept next. */
  function NextMinStart<P>(row: seq<Alignment<P>>, extended: seq<Alignment<P>>, minStart: int): int
    requires |row| <= |extended|
  {
    if |extended| > |row| then extended[|extended| - 1].End() + PADDING else minStart
  }

  /** Right extension is greedy: every alignment left in the pool starts before the next accepted start. */
  lemma {:induction false} ExtendRowRightGreedy<P>(row: seq<Alignment<P>>, pool: seq<Alignment<P>>, minStart: int)
    ensures AllStartBefore(ExtendRowRight(row, pool, minStart).1,
                           NextMinStart(row, ExtendRowRight(row, pool, minStart).0, minStart))
    decreases |pool|
  {
    var i := FirstAtOrAfter(pool, minStart);
    if i < |pool| {
      var grown := row + [pool[i]];
      var bound := pool[i].End() + PADDING;
      ExtendRowRightGreedy(grown, RemoveAt(pool, i), bound);
      var res := ExtendRowRight(grown, RemoveAt(pool, i), bound);
      assert res == ExtendRowRight(row, pool, minStart);
      assert res.0[..|grown|] == grown;
      assert NextMinStart(row, res.0, minStart) == NextMinStart(grown, res.0, bound) by {
        if |res.0| == |grown| {
          assert res.0[|row|] == grown[|row|];
        }
      }
    } else {
      FirstAtOrAfterSpec(pool, minStart);
      assert ExtendRowRight(row, pool, minStart) == (row, pool);
    }
  }

  /** `extend_stack_right` from row `rowIdx` on: extend every row, in order, at the back. */
  function ExtendRight<P>(rows: Rows<P>, pool: seq<Alignment<P>>, rowIdx: nat): (res: (Rows<P>, seq<Alignment<P>>))
    requires rowIdx <= |rows|
    ensures |res.0| == |rows|
    decreases |rows| - rowIdx
  {
    if rowIdx == |rows| then (rows, pool)
    else
      var row := rows[rowIdx];
      var minStart := if |row| > 0 then row[|row| - 1].End() + PADDING else 0;
      var ext := ExtendRowRight(row, pool, minStart);
      ExtendRight(rows[rowIdx := ext.0], ext.1, rowIdx + 1)
  }

  /** Bookkeeping for moving alignments between a row, the other rows and the pool. */
  lemma MultisetShuffle<T>(res: multiset<T>, left: multiset<T>, next: multiset<T>, extLeft: multiset<T>,
                           row: multiset<T>, rows: multiset<T>, extRow: multiset<T>, pool: multiset<T>)
    requires res + left == next + extLeft
    requires next + row == rows + extRow
    requires extRow + extLeft == row + pool
    ensures res + left == rows + pool
  {
    forall x
      ensures (res + left)[x] == (rows + pool)[x]
    {
      assert (res + left)[x] == (next + extLeft)[x];
      assert (next + row)[x] == (rows + extRow)[x];
      assert (extRow + extLeft)[x] == (row + pool)[x];
    }
  }

  lemma MultisetSubTransitive<T>(a: multiset<T>, b: multiset<T>, c: multiset<T>)
    requires a <= b && b <= c
    ensures a <= c
  {
  }

  /** Every row keeps its alignments as a prefix. */
  lemma {:induction false} ExtendRightPrefix<P>(rows: Rows<P>, pool: seq<Alignment<P>>, rowIdx: nat)
    requires rowIdx <= |rows|
    ensures var res := ExtendRight(rows, pool, rowIdx).0;
      forall r :: 0 <= r < |rows| ==> |rows[r]| <= |res[r]| && res[r][..|rows[r]|] == rows[r]
    decreases |rows| - rowIdx
  {
    if rowIdx < |rows| {
      var next, left := ExtendRightUnfold(rows, pool, rowIdx);
      ExtendRightPrefix(next, left, rowIdx + 1);
      var res := ExtendRight(next, left, rowIdx + 1).0;
      forall r | 0 <= r < |rows|
        ensures |rows[r]| <= |res[r]| && res[r][..|rows[r]|] == rows[r]
      {
        if r == rowIdx {
          assert res[r][..|rows[r]|] == res[r][..|next[r]|][..|rows[r]|];
        }
      }
    }
  }

  /** Right extension only moves alignments from the pool into the rows. */
  lemma {:induction false} ExtendRightConserves<P>(rows: Rows<P>, pool: seq<Alignment<P>>, rowIdx: nat)
    requires rowIdx <= |rows|
    ensures var res := ExtendRight(rows, pool, rowIdx);
      multiset(Flatten(res.0)) + multiset(res.1) == multiset(Flatten(rows)) + multiset(pool) &&
      multiset(res.1) <= multiset(pool)
    decreases |rows| - rowIdx
  {
    if rowIdx < |rows| {
      var row := rows[rowIdx];
      var minStart := if |row| > 0 then row[|row| - 1].End() + PADDING else 0;
      var ext := ExtendRowRight(row, pool, minStart);
      var next := rows[rowIdx := ext.0];
      var res := ExtendRight(next, ext.1, rowIdx + 1);
      assert ExtendRight(rows, pool, rowIdx) == res;
      ExtendRowRightConserves(row, pool, minStart);
      FlattenUpdate(rows, rowIdx, ext.0);
      ExtendRightConserves(next, ext.1, rowIdx + 1);
      MultisetShuffle(multiset(Flatten(res.0)), multiset(res.1), multiset(Flatten(next)), multiset(ext.1),
        multiset(row), multiset(Flatten(rows)), multiset(ext.0), multiset(pool));
      MultisetSubTransitive(multiset(res.1), multiset(ext.1), multiset(pool));
    }
  }

  /** Right extension keeps rows separated and well formed, and leaves the pool sorted. */
  lemma {:induction false} ExtendRightShape<P>(rows: Rows<P>, pool: seq<Alignment<P>>, rowIdx: nat)
    requires rowIdx <= |rows|
    requires AllSeparated(rows) && AllWellFormed(rows) && WellFormed(pool)
    ensures var res := ExtendRight(rows, pool, rowIdx);
      AllSeparated(res.0) && AllWellFormed(res.0) && WellFormed(res.1) &&
      (Sorted(ByStart, pool) ==> Sorted(ByStart, res.1))
    decreases |rows| - rowIdx
  {
    if rowIdx < |rows| {
      var row := rows[rowIdx];
      var minStart := if |row| > 0 then row[|row| - 1].End() + PADDING else 0;
      ExtendRowRightShape(row, pool, minStart);
      var next, left := ExtendRightUnfold(rows, pool, rowIdx);
      ExtendRightShape(next, left, rowIdx + 1);
    }
  }

  /**
   * No alignment left in the pool could still be appended to a row from `from` on:
   * each starts before the row's last end plus PADDING.
   */
  predicate NothingFitsRight<P>(rows: Rows<P>, pool: seq<Alignment<P>>, from: nat)
  {
    forall r, k :: from <= r < |rows| && rows[r] != [] && 0 <= k < |pool| ==>
      pool[k].Start() < rows[r][|rows[r]| - 1].End() + PADDING
  }

  /** Right extension is greedy: afterwards nothing left in the pool fits at the back of a row. */
  lemma {:induction false} ExtendRightGreedy<P>(rows: Rows<P>, pool: seq<Alignment<P>>, rowIdx: nat)
    requires rowIdx <= |rows|
    ensures NothingFitsRight(ExtendRight(rows, pool, rowIdx).0, ExtendRight(rows, pool, rowIdx).1, rowIdx)
    decreases |rows| - rowIdx
  {
    if rowIdx < |rows| {
      var next, left := ExtendRightUnfold(rows, pool, rowIdx);
      ExtendRightGreedy(next, left, rowIdx + 1);
      ExtendRightGreedyHead(rows, pool, rowIdx);
      var res := ExtendRight(rows, pool, rowIdx);
      NothingFitsRightStep(res.0, res.1, rowIdx);
    }
  }

  /** One step of right extension: row `rowIdx` is extended from the pool, then the later rows from what is left. */
  lemma {:induction false} ExtendRightUnfold<P>(rows: Rows<P>, pool: seq<Alignment<P>>, rowIdx: nat)
    returns (next: Rows<P>, left: seq<Alignment<P>>)
    requires rowIdx < |rows|
    ensures var row := rows[rowIdx];
      var ext := ExtendRowRight(row, pool, if |row| > 0 then row[|row| - 1].End() + PADDING else 0);
      next == rows[rowIdx := ext.0] && left == ext.1
    ensures ExtendRight(rows, pool, rowIdx) == ExtendRight(next, left, rowIdx + 1)
  {
    var row := rows[rowIdx];
    var ext := ExtendRowRight(row, pool, if |row| > 0 then row[|row| - 1].End() + PADDING else 0);
    next, left := rows[rowIdx := ext.0], ext.1;
  }

  /** After right extension nothing left in the pool fits at the back of row `rowIdx`. */
  lemma {:induction false} ExtendRightGreedyHead<P>(rows: Rows<P>, pool: seq<Alignment<P>>, rowIdx: nat)
    requires rowIdx < |rows|
    ensures var res := ExtendRight(rows, pool, rowIdx);
      res.0[rowIdx] != [] ==> AllStartBefore(res.1, res.0[rowIdx][|res.0[rowIdx]| - 1].End() + PADDING)
  {
    var row := rows[rowIdx];
    var minStart := if |row| > 0 then row[|row| - 1].End() + PADDING else 0;
    var ext := ExtendRowRight(row, pool, minStart);
    ExtendRowRightGreedy(row, pool, minStart);
    var next, left := ExtendRightUnfold(rows, pool, rowIdx);
    ExtendRightKeepsEarlierRows(next, left, rowIdx + 1, rowIdx);
    ExtendRightLeftovers(next, left, rowIdx + 1);
    var res := ExtendRight(next, left, rowIdx + 1);
    GreedyRowBound(row, ext.0, ext.1, res.1, minStart);
  }

  /** The bound a row's right extension leaves on the pool carries over to any part of the leftovers. */
  lemma GreedyRowBound<P>(row: seq<Alignment<P>>, extended: seq<Alignment<P>>, leftover: seq<Alignment<P>>,
                          later: seq<Alignment<P>>, minStart: int)
    requires |row| <= |extended| && extended[..|row|] == row
    requires minStart == if |row| > 0 then row[|row| - 1].End() + PADDING else 0
    requires AllStartBefore(leftover, NextMinStart(row, extended, minStart))
    requires forall k :: 0 <= k < |later| ==> later[k] in leftover
    ensures extended != [] ==> AllStartBefore(later, extended[|extended| - 1].End() + PADDING)
  {
    if |extended| == |row| {
      assert extended == extended[..|row|];
    }
    AllStartBeforeSubset(later, leftover, NextMinStart(row, extended, minStart));
  }

  lemma NothingFitsRightStep<P>(rows: Rows<P>, pool: seq<Alignment<P>>, i: nat)
    requires i < |rows| && NothingFitsRight(rows, pool, i + 1)
    requires rows[i] != [] ==> AllStartBefore(pool, rows[i][|rows[i]| - 1].End() + PADDING)
    ensures NothingFitsRight(rows, pool, i)
  {
  }

  lemma AllStartBeforeSubset<P>(a: seq<Alignment<P>>, b: seq<Alignment<P>>, bound: int)
    requires AllStartBefore(b, bound)
    requires forall k :: 0 <= k < |a| ==> a[k] in b
    ensures AllStartBefore(a, bound)
  {
  }

  /** What is left in the pool was in the pool. */
  lemma ExtendRightLeftovers<P>(rows: Rows<P>, pool: seq<Alignment<P>>, rowIdx: nat)
    requires rowIdx <= |rows|
    ensures forall k :: 0 <= k < |ExtendRight(rows, pool, rowIdx).1| ==> ExtendRight(rows, pool, rowIdx).1[k] in pool
  {
    var left := ExtendRight(rows, pool, rowIdx).1;
    ExtendRightConserves(rows, pool, rowIdx);
    forall k | 0 <= k < |left|
      ensures left[k] in pool
    {
      assert left[k] in multiset(left);
    }
  }

  /** Rows before `rowIdx` are not touched. */
  lemma {:induction false} ExtendRightKeepsEarlierRows<P>(rows: Rows<P>, pool: seq<Alignment<P>>, rowIdx: nat, r: nat)
    requires rowIdx <= |rows| && r < rowIdx
    ensures ExtendRight(rows, pool, rowIdx).0[r] == rows[r]
    decreases |rows| - rowIdx
  {
    if rowIdx < |rows| {
      var row := rows[rowIdx];
      var minStart := if |row| > 0 then row[|row| - 1].End() + PADDING else 0;
      var ext := ExtendRowRight(row, pool, minStart);
      ExtendRightKeepsEarlierRows(rows[rowIdx := ext.0], ext.1, rowIdx + 1, r);
    }
  }

  // ---------------------------------------------------------------------------
  // extend_stack_left

  /**
   * The inner `while let` of `extend_stack_left` for one row: repeatedly pop the
   * last alignment (in (end, id) order) ending at or before `maxEnd`, put it at
   * the front of the row, and require the next one to end PADDING before its
   * start, saturating at 0.
   */
  function ExtendRowLeft<P>(row: seq<Alignment<P>>, pool: seq<Alignment<P>>, maxEnd: int)
    : (res: (seq<Alignment<P>>, seq<Alignment<P>>))
    ensures |res.0| + |res.1| == |row| + |pool|
    ensures LastAtOrBefore(pool, maxEnd) >= 0 ==> |res.1| < |pool|
    decreases |pool|
  {
    var i := LastAtOrBefore(pool, maxEnd);
    if i < 0 then (row, pool)
    else ExtendRowLeft([pool[i]] + row, RemoveAt(pool, i), SaturatingSub(pool[i].Start(), PADDING))
  }

  /** Extending a row at the front keeps the row itself as the suffix of the result. */
  lemma {:induction false} ExtendRowLeftSuffix<P>(row: seq<Alignment<P>>, pool: seq<Alignment<P>>, maxEnd: int)
    ensures var res := ExtendRowLeft(row, pool, maxEnd);
      |row| <= |res.0| && res.0[|res.0| - |row|..] == row
    decreases |pool|
  {
    var i := LastAtOrBefore(pool, maxEnd);
    if i >= 0 {
      var grown := [pool[i]] + row;
      ExtendRowLeftSuffix(grown, RemoveAt(pool, i), SaturatingSub(pool[i].Start(), PADDING));
      var res := ExtendRowLeft(row, pool, maxEnd);
      assert res.0[|res.0| - |row|..] == res.0[|res.0| - |grown|..][1..];
    }
  }

  /** Left extension only moves alignments from the pool into the row. */
  lemma {:induction false} ExtendRowLeftConserves<P>(row: seq<Alignment<P>>, pool: seq<Alignment<P>>, maxEnd: int)
    ensures var res := ExtendRowLeft(row, pool, maxEnd);
      multiset(res.0) + multiset(res.1) == multiset(row) + multiset(pool)
    decreases |pool|
  {
    var i := LastAtOrBefore(pool, maxEnd);
    if i >= 0 {
      RemoveAtSpec(pool, i);
      ExtendRowLeftConserves([pool[i]] + row, RemoveAt(pool, i), SaturatingSub(pool[i].Start(), PADDING));
    }
  }

  /** No alignment of the sequence ends at position 0. */
  predicate PositiveEnds<P>(s: seq<Alignment<P>>)
  {
    forall k :: 0 <= k < |s| ==> s[k].End() > 0
  }

  /** A separated, well-formed row: every alignment starts at or after the first one's start. */
  lemma SeparatedAboveFirst<P>(row: seq<Alignment<P>>, k: int)
    requires Separated(row) && WellFormed(row) && 0 <= k < |row|
    ensures row[0].Start() <= row[k].Start()
  {
  }

  /**
   * Left extension keeps a row separated and well formed, provided no pool
   * alignment ends at 0 (the bound saturates there, see `ZeroEndSqueezesIn`).
   */
  lemma {:induction false} ExtendRowLeftShape<P>(row: seq<Alignment<P>>, pool: seq<Alignment<P>>, maxEnd: int)
    requires Separated(row) && WellFormed(row) && WellFormed(pool) && PositiveEnds(pool)
    requires row != [] ==> maxEnd + PADDING <= row[0].Start() || maxEnd <= 0
    ensures var res := ExtendRowLeft(row, pool, maxEnd);
      Separated(res.0) && WellFormed(res.0) && WellFormed(res.1) && PositiveEnds(res.1)
    decreases |pool|
  {
    var i := LastAtOrBefore(pool, maxEnd);
    LastAtOrBeforeSpec(pool, maxEnd);
    if i >= 0 {
      var x := pool[i];
      forall k | 0 <= k < |row|
        ensures x.End() + PADDING <= row[k].Start()
      {
        SeparatedAboveFirst(row, k);
      }
      SeparatedCons(x, row);
      var rest := RemoveAt(pool, i);
      RemoveAtSpec(pool, i);
      assert WellFormed(rest) && PositiveEnds(rest);
      var grown := [x] + row;
      assert WellFormed(grown) by {
        assert forall k :: 1 <= k < |grown| ==> grown[k] == row[k - 1];
      }
      ExtendRowLeftShape(grown, rest, SaturatingSub(x.Start(), PADDING));
    }
  }

  /**
   * The saturating bound lets an alignment that ends at 0 in front of a row that
   * starts at 0, with no gap between them.
   */
  lemma ZeroEndSqueezesIn()
    ensures var row := [Alignment("b", GenomicInterval(0, 5), ())];
      var res := ExtendRowLeft(row, [Alignment("a", GenomicInterval(0, 0), ())], SaturatingSub(row[0].Start(), PADDING));
      |res.0| == 2 && !Separated(res.0)
  {
    var a := Alignment("a", GenomicInterval(0, 0), ());
    var row := [Alignment("b", GenomicInterval(0, 5), ())];
    assert LastAtOrBefore([a], 0) == 0;
    assert RemoveAt([a], 0) == [];
    assert LastAtOrBefore<()>([], 0) == -1;
    assert ExtendRowLeft([a] + row, [], 0) == ([a] + row, []);
    assert SaturatingSub(row[0].Start(), PADDING) == 0;
    var res := ExtendRowLeft(row, [a], 0);
    assert res.0 == [a] + row;
    assert res.0[0].End() + PADDING > res.0[1].Start();
  }

  /**
   * `ExtendRowLeft` with the bound evidently intended: an alignment goes in
   * front of the row only when it ends at least PADDING before the row's
   * start, so when the row starts below PADDING the bound is negative and
   * nothing more fits.
   */
  function ExtendRowLeftIntended<P>(row: seq<Alignment<P>>, pool: seq<Alignment<P>>, maxEnd: int)
    : (res: (seq<Alignment<P>>, seq<Alignment<P>>))
    ensures |res.0| + |res.1| == |row| + |pool|
    decreases |pool|
  {
    var i := LastAtOrBefore(pool, maxEnd);
    if i < 0 then (row, pool)
    else ExtendRowLeftIntended([pool[i]] + row, RemoveAt(pool, i), pool[i].Start() - PADDING)
  }

  /** With the intended bound a row stays separated and well formed for every well-formed pool. */
  lemma {:induction false} ExtendRowLeftIntendedShape<P>(row: seq<Alignment<P>>, pool: seq<Alignment<P>>, maxEnd: int)
    requires Separated(row) && WellFormed(row) && WellFormed(pool)
    requires row != [] ==> maxEnd + PADDING <= row[0].Start()
    ensures var res := ExtendRowLeftIntended(row, pool, maxEnd);
      Separated(res.0) && WellFormed(res.0) && WellFormed(res.1)
    decreases |pool|
  {
    var i := LastAtOrBefore(pool, maxEnd);
    LastAtOrBeforeSpec(pool, maxEnd);
    if i >= 0 {
      var x := pool[i];
      forall k | 0 <= k < |row|
        ensures x.End() + PADDING <= row[k].Start()
      {
        SeparatedAboveFirst(row, k);
      }
      SeparatedCons(x, row);
      var rest := RemoveAt(pool, i);
      RemoveAtSpec(pool, i);
      assert WellFormed(rest);
      var grown := [x] + row;
      assert WellFormed(grown) by {
        assert forall k :: 1 <= k < |grown| ==> grown[k] == row[k - 1];
      }
      ExtendRowLeftIntendedShape(grown, rest, x.Start() - PADDING);
    }
  }

  /** No alignment with a positive end ends at or before 0. */
  lemma {:induction false} NoneEndsAtZero<P>(pool: seq<Alignment<P>>, maxEnd: int)
    requires PositiveEnds(pool) && maxEnd <= 0
    ensures LastAtOrBefore(pool, maxEnd) == -1
  {
    if pool != [] {
      assert pool[|pool| - 1].End() > 0;
      NoneEndsAtZero(pool[..|pool| - 1], maxEnd);
    }
  }

  /**
   * The saturating bound and the intended one differ only for alignments that
   * end at 0: on a pool without them the two extensions agree.
   */
  lemma {:induction false} ExtendRowLeftAgreesOnPositiveEnds<P>(row: seq<Alignment<P>>, pool: seq<Alignment<P>>, maxEnd: int)
    requires PositiveEnds(pool) && -1 <= maxEnd
    ensures ExtendRowLeft(row, pool, if maxEnd < 0 then 0 else maxEnd) == ExtendRowLeftIntended(row, pool, maxEnd)
    decreases |pool|
  {
    if maxEnd < 0 {
      NoneEndsAtZero(pool, 0);
      NoneEndsAtZero(pool, maxEnd);
    } else {
      var i := LastAtOrBefore(pool, maxEnd);
      if i >= 0 {
        var x, rest := pool[i], RemoveAt(pool, i);
        assert PositiveEnds(rest) by {
          RemoveAtSpec(pool, i);
        }
        var next := x.Start() - PADDING;
        assert SaturatingSub(x.Start(), PADDING) == if next < 0 then 0 else next;
        ExtendRowLeftAgreesOnPositiveEnds([x] + row, rest, next);
      }
    }
  }

  /** With the intended bound the zero-length alignment of `ZeroEndSqueezesIn` stays in the pool. */
  lemma ZeroEndStaysOutIntended()
    ensures var row := [Alignment("b", GenomicInterval(0, 5), ())];
      var a := Alignment("a", GenomicInterval(0, 0), ());
      ExtendRowLeftIntended(row, [a], row[0].Start() - PADDING) == (row, [a])
  {
    var a := Alignment("a", GenomicInterval(0, 0), ());
    assert a.End() > -1;
    assert LastAtOrBefore([a], -1) == LastAtOrBefore<()>([], -1);
  }

  /**
   * One pass of the outer loop of `extend_stack_left`: extend row `rowIdx` at the
   * front, or open a new row with bound `u64::MAX` when `rowIdx` is past the last.
   */
  function LeftStep<P>(rows: Rows<P>, pool: seq<Alignment<P>>, rowIdx: nat): (res: (Rows<P>, seq<Alignment<P>>))
    requires rowIdx <= |rows| && NoEmptyRow(rows) && pool != []
    ensures rowIdx < |res.0| && NoEmptyRow(res.0)
    ensures |res.0| + |res.1| <= |rows| + |pool|
  {
    if |rows| <= rowIdx then
      LastAtOrBeforeSpec(pool, U64_MAX);
      var ext := ExtendRowLeft([], pool, U64_MAX);
      (rows + [ext.0], ext.1)
    else
      var ext := ExtendRowLeft(rows[rowIdx], pool, SaturatingSub(rows[rowIdx][0].Start(), PADDING));
      (rows[rowIdx := ext.0], ext.1)
  }

  /** `extend_stack_left` from row `rowIdx` on: run `LeftStep` until the pool is empty. */
  function ExtendLeft<P>(rows: Rows<P>, pool: seq<Alignment<P>>, rowIdx: nat): (res: Rows<P>)
    requires rowIdx <= |rows| && NoEmptyRow(rows)
    ensures NoEmptyRow(res)
    decreases |pool| + |rows| - rowIdx
  {
    if pool == [] then rows
    else
      var next := LeftStep(rows, pool, rowIdx);
      ExtendLeft(next.0, next.1, rowIdx + 1)
  }

  /** One step moves alignments from the pool into row `rowIdx` and loses none. */
  lemma LeftStepConserves<P>(rows: Rows<P>, pool: seq<Alignment<P>>, rowIdx: nat)
    requires rowIdx <= |rows| && NoEmptyRow(rows) && pool != []
    ensures var next := LeftStep(rows, pool, rowIdx);
      multiset(Flatten(next.0)) + multiset(next.1) == multiset(Flatten(rows)) + multiset(pool)
  {
    if |rows| <= rowIdx {
      var ext := ExtendRowLeft([], pool, U64_MAX);
      assert LeftStep(rows, pool, rowIdx) == (rows + [ext.0], ext.1);
      ExtendRowLeftConserves([], pool, U64_MAX);
      FlattenAppend(rows, ext.0);
      MultisetShuffle<Alignment<P>>(multiset(Flatten(rows + [ext.0])), multiset(ext.1),
        multiset(Flatten(rows + [ext.0])), multiset(ext.1), multiset{}, multiset(Flatten(rows)),
        multiset(ext.0), multiset(pool));
    } else {
      var row := rows[rowIdx];
      var maxEnd := SaturatingSub(row[0].Start(), PADDING);
      var ext := ExtendRowLeft(row, pool, maxEnd);
      assert LeftStep(rows, pool, rowIdx) == (rows[rowIdx := ext.0], ext.1);
      ExtendRowLeftConserves(row, pool, maxEnd);
      FlattenUpdate(rows, rowIdx, ext.0);
      MultisetShuffle<Alignment<P>>(multiset(Flatten(rows[rowIdx := ext.0])), multiset(ext.1),
        multiset(Flatten(rows[rowIdx := ext.0])), multiset(ext.1), multiset(row), multiset(Flatten(rows)),
        multiset(ext.0), multiset(pool));
    }
  }


  /** Left extension places every pool alignment in the rows and loses none. */
  lemma {:induction false} ExtendLeftConserves<P>(rows: Rows<P>, pool: seq<Alignment<P>>, rowIdx: nat)
    requires rowIdx <= |rows| && NoEmptyRow(rows)
    ensures multiset(Flatten(ExtendLeft(rows, pool, rowIdx))) == multiset(Flatten(rows)) + multiset(pool)
    decreases |pool| + |rows| - rowIdx
  {
    if pool != [] {
      var next := LeftStep(rows, pool, rowIdx);
      LeftStepConserves(rows, pool, rowIdx);
      ExtendLeftConserves(next.0, next.1, rowIdx + 1);
    }
  }

  /** `a` is the back of `b`. */
  predicate IsSuffix<T(==)>(a: seq<T>, b: seq<T>)
  {
    |a| <= |b| && b[|b| - |a|..] == a
  }

  /** One step only grows row `rowIdx` at its front, or appends a row. */
  lemma LeftStepKeepsRows<P>(rows: Rows<P>, pool: seq<Alignment<P>>, rowIdx: nat, r: nat)
    requires rowIdx <= |rows| && NoEmptyRow(rows) && pool != [] && r < |rows|
    ensures var next := LeftStep(rows, pool, rowIdx).0;
      r < |next| && IsSuffix(rows[r], next[r]) && (r != rowIdx ==> next[r] == rows[r])
  {
    var next := LeftStep(rows, pool, rowIdx).0;
    if r != rowIdx {
      assert rows[r][|rows[r]| - |rows[r]|..] == rows[r];
    } else {
      ExtendRowLeftSuffix(rows[r], pool, SaturatingSub(rows[r][0].Start(), PADDING));
    }
  }


  /** Suffixes compose: a suffix of a suffix is a suffix. */
  lemma SuffixTransitive<T>(a: seq<T>, b: seq<T>, c: seq<T>)
    requires IsSuffix(a, b) && IsSuffix(b, c)
    ensures IsSuffix(a, c)
  {
    assert c[|c| - |a|..] == c[|c| - |b|..][|b| - |a|..];
  }

  /** Every existing row keeps its alignments, in order, at its back; rows before `rowIdx` are untouched. */
  lemma {:induction false} ExtendLeftKeepsRows<P>(rows: Rows<P>, pool: seq<Alignment<P>>, rowIdx: nat, r: nat)
    requires rowIdx <= |rows| && NoEmptyRow(rows) && r < |rows|
    ensures var res := ExtendLeft(rows, pool, rowIdx);
      r < |res| && IsSuffix(rows[r], res[r]) && (r < rowIdx ==> res[r] == rows[r])
    decreases |pool| + |rows| - rowIdx
  {
    if pool != [] {
      var step := LeftStep(rows, pool, rowIdx);
      LeftStepKeepsRows(rows, pool, rowIdx, r);
      ExtendLeftKeepsRows(step.0, step.1, rowIdx + 1, r);
      var res := ExtendLeft(step.0, step.1, rowIdx + 1);
      assert res == ExtendLeft(rows, pool, rowIdx);
      SuffixTransitive(rows[r], step.0[r], res[r]);
    } else {
      assert rows[r][|rows[r]| - |rows[r]|..] == rows[r];
    }
  }


  /** One step keeps rows separated, well formed and the pool free of alignments ending at 0. */
  lemma LeftStepShape<P>(rows: Rows<P>, pool: seq<Alignment<P>>, rowIdx: nat)
    requires rowIdx <= |rows| && NoEmptyRow(rows) && pool != []
    requires AllSeparated(rows) && AllWellFormed(rows) && WellFormed(pool) && PositiveEnds(pool)
    ensures var next := LeftStep(rows, pool, rowIdx);
      AllSeparated(next.0) && AllWellFormed(next.0) && WellFormed(next.1) && PositiveEnds(next.1)
  {
    if |rows| <= rowIdx {
      ExtendRowLeftShape([], pool, U64_MAX);
      var ext := ExtendRowLeft([], pool, U64_MAX);
      RowsShapeAppend(rows, ext.0);
    } else {
      var row := rows[rowIdx];
      var maxEnd := SaturatingSub(row[0].Start(), PADDING);
      ExtendRowLeftShape(row, pool, maxEnd);
      var ext := ExtendRowLeft(row, pool, maxEnd);
      RowsShapeUpdate(rows, rowIdx, ext.0);
    }
  }

  /**
   * Left extension keeps rows separated, well formed and non-empty, provided no
   * pool alignment ends at 0.
   */
  lemma {:induction false} ExtendLeftShape<P>(rows: Rows<P>, pool: seq<Alignment<P>>, rowIdx: nat)
    requires rowIdx <= |rows| && NoEmptyRow(rows) && AllSeparated(rows) && AllWellFormed(rows)
    requires WellFormed(pool) && PositiveEnds(pool)
    ensures var res := ExtendLeft(rows, pool, rowIdx);
      NoEmptyRow(res) && AllSeparated(res) && AllWellFormed(res)
    decreases |pool| + |rows| - rowIdx
  {
    if pool != [] {
      var next := LeftStep(rows, pool, rowIdx);
      LeftStepShape(rows, pool, rowIdx);
      ExtendLeftShape(next.0, next.1, rowIdx + 1);
    }
  }

  // ---------------------------------------------------------------------------
  // extend_stack and update

  /**
   * `extend_stack`: extend the rows at the back from the start-sorted pool, sort
   * what is left by (end, id), then extend at the front and open new rows.
   */
  function ExtendStackRows<P>(rows: Rows<P>, pool: seq<Alignment<P>>): (res: Rows<P>)
    requires NoEmptyRow(rows)
    ensures NoEmptyRow(res)
  {
    var right := ExtendRight(rows, pool, 0);
    ExtendRightPrefix(rows, pool, 0);
    assert NoEmptyRow(right.0) by {
      forall r | 0 <= r < |right.0|
        ensures right.0[r] != []
      {
        assert |rows[r]| <= |right.0[r]|;
      }
    }
    ExtendLeft(right.0, SortBy(ByEnd, right.1), 0)
  }

  /** Extending the stack places every pool alignment and loses no alignment of the rows. */
  lemma ExtendStackRowsConserves<P>(rows: Rows<P>, pool: seq<Alignment<P>>)
    requires NoEmptyRow(rows)
    ensures multiset(Flatten(ExtendStackRows(rows, pool))) == multiset(Flatten(rows)) + multiset(pool)
  {
    var right := ExtendRight(rows, pool, 0);
    ExtendRightPrefix(rows, pool, 0);
    ExtendRightConserves(rows, pool, 0);
    var sorted := SortBy(ByEnd, right.1);
    ExtendLeftConserves(right.0, sorted, 0);
  }

  /** `b` holds `a` contiguously from index `i` on. */
  ghost predicate WithinAt<T>(a: seq<T>, b: seq<T>, i: int)
  {
    0 <= i && i + |a| <= |b| && b[i..i + |a|] == a
  }

  /** `b` holds `a` contiguously, at some offset. */
  ghost predicate Within<T>(a: seq<T>, b: seq<T>)
  {
    exists i :: WithinAt(a, b, i)
  }

  /**
   * Extending the stack keeps every alignment in its row, in order and
   * contiguous: new alignments only go to either end of a row or into new rows.
   */
  lemma ExtendStackRowsKeepsRows<P>(rows: Rows<P>, pool: seq<Alignment<P>>, r: nat)
    requires NoEmptyRow(rows) && r < |rows|
    ensures r < |ExtendStackRows(rows, pool)| && Within(rows[r], ExtendStackRows(rows, pool)[r])
  {
    var right := ExtendRight(rows, pool, 0);
    ExtendRightPrefix(rows, pool, 0);
    var res := ExtendStackRows(rows, pool);
    ExtendLeftKeepsRows(right.0, SortBy(ByEnd, right.1), 0, r);
    PrefixOfSuffixWithin(rows[r], right.0[r], res[r]);
  }

  /** A prefix of a suffix of `c` sits in `c` where the suffix starts. */
  lemma PrefixOfSuffixWithin<T>(a: seq<T>, b: seq<T>, c: seq<T>)
    requires |a| <= |b| && b[..|a|] == a && IsSuffix(b, c)
    ensures WithinAt(a, c, |c| - |b|)
  {
    var offset := |c| - |b|;
    assert c[offset..offset + |a|] == c[offset..][..|a|];
  }

  /** Every element of `a` is in `b`. */
  lemma MultisetMembers<T>(a: seq<T>, b: seq<T>)
    requires multiset(a) <= multiset(b)
    ensures forall k :: 0 <= k < |a| ==> a[k] in b
  {
    forall k | 0 <= k < |a|
      ensures a[k] in b
    {
      assert a[k] in multiset(a);
    }
  }

  /**
   * Extending keeps rows separated, well formed and non-empty, provided no pool
   * alignment ends at 0.
   */
  lemma ExtendStackRowsShape<P>(rows: Rows<P>, pool: seq<Alignment<P>>)
    requires NoEmptyRow(rows) && AllSeparated(rows) && AllWellFormed(rows)
    requires WellFormed(pool) && PositiveEnds(pool)
    ensures var res := ExtendStackRows(rows, pool);
      NoEmptyRow(res) && AllSeparated(res) && AllWellFormed(res)
  {
    var right := ExtendRight(rows, pool, 0);
    ExtendRightPrefix(rows, pool, 0);
    ExtendRightShape(rows, pool, 0);
    ExtendRightLeftovers(rows, pool, 0);
    var sorted := SortBy(ByEnd, right.1);
    MultisetMembers(sorted, right.1);
    assert WellFormed(sorted) && PositiveEnds(sorted) by {
      forall k | 0 <= k < |sorted|
        ensures sorted[k].interval.Valid() && sorted[k].End() > 0
      {
        var j :| 0 <= j < |right.1| && right.1[j] == sorted[k];
        assert right.1[j] in pool;
      }
    }
    ExtendLeftShape(right.0, sorted, 0);
  }

  /**
   * `update`: trim the rows to the new region, sort the incoming alignments by
   * (start, id), overwrite alignments that share an id with an incoming one,
   * and stack the rest.
   */
  function UpdateRows<P>(region: GenomicRegion, rows: Rows<P>, incoming: seq<Alignment<P>>): (res: Rows<P>)
    ensures NoEmptyRow(res)
  {
    var trimmed := TrimRows(region, rows);
    var rec := Reconcile(trimmed, StackItems(trimmed), SortBy(ByStart, incoming), 0);
    assert NoEmptyRow(rec.0) by {
      assert forall i :: 0 <= i < |rec.0| ==> |rec.0[i]| == |trimmed[i]|;
    }
    ExtendStackRows(rec.0, rec.1)
  }

  /** An alignment is in the flattened rows exactly when it sits at some position. */
  lemma FlattenPlaced<P>(rows: Rows<P>, x: Alignment<P>)
    ensures x in Flatten(rows) <==> Placed(rows, x)
  {
    FlattenMembership(rows, x);
    if x in Flatten(rows) {
      var i :| 0 <= i < |rows| && x in rows[i];
      var j :| 0 <= j < |rows[i]| && rows[i][j] == x;
      assert ValidPos(rows, Pos(i, j)) && At(rows, Pos(i, j)) == x;
    }
    if Placed(rows, x) {
      var p :| ValidPos(rows, p) && At(rows, p) == x;
      assert x in rows[p.row];
    }
  }

  /** Reordering keeps ids distinct. */
  lemma DistinctIdsPermutation<P>(a: seq<Alignment<P>>, b: seq<Alignment<P>>)
    requires multiset(a) == multiset(b) && DistinctIds(a)
    ensures DistinctIds(b)
  {
    forall x, y | x in b && y in b && x.id == y.id
      ensures x == y
    {
      assert x in multiset(b) && y in multiset(b);
    }
  }

  /** After an update the stack holds the reconciled rows plus the forwarded alignments. */
  lemma UpdateContents<P>(region: GenomicRegion, rows: Rows<P>, incoming: seq<Alignment<P>>)
    ensures var trimmed := TrimRows(region, rows);
      var rec := Reconcile(trimmed, StackItems(trimmed), SortBy(ByStart, incoming), 0);
      multiset(Flatten(UpdateRows(region, rows, incoming))) == multiset(Flatten(rec.0)) + multiset(rec.1)
  {
    var trimmed := TrimRows(region, rows);
    var rec := Reconcile(trimmed, StackItems(trimmed), SortBy(ByStart, incoming), 0);
    assert NoEmptyRow(rec.0) by {
      assert forall i :: 0 <= i < |rec.0| ==> |rec.0[i]| == |trimmed[i]|;
    }
    ExtendStackRowsConserves(rec.0, rec.1);
  }

  /** With distinct ids, an incoming alignment ends up in the stack. */
  lemma UpdatePlacesIncoming<P>(region: GenomicRegion, rows: Rows<P>, incoming: seq<Alignment<P>>, x: Alignment<P>)
    requires DistinctIds(incoming) && x in incoming
    ensures x in Flatten(UpdateRows(region, rows, incoming))
  {
    var trimmed := TrimRows(region, rows);
    var rec := Reconcile(trimmed, StackItems(trimmed), SortBy(ByStart, incoming), 0);
    ReconcileKeepsIncoming(trimmed, incoming, x);
    UpdateContents(region, rows, incoming);
    assert x in multiset(Flatten(rec.0)) + multiset(rec.1);
    assert x in multiset(Flatten(UpdateRows(region, rows, incoming)));
  }

  /** Reconciling distinct incoming alignments either forwards or places each of them. */
  lemma ReconcileKeepsIncoming<P>(trimmed: Rows<P>, incoming: seq<Alignment<P>>, x: Alignment<P>)
    requires DistinctIds(incoming) && x in incoming
    ensures var rec := Reconcile(trimmed, StackItems(trimmed), SortBy(ByStart, incoming), 0);
      x in rec.1 || x in Flatten(rec.0)
  {
    var items := StackItems(trimmed);
    var sorted := SortBy(ByStart, incoming);
    DistinctIdsPermutation(incoming, sorted);
    assert x in multiset(sorted);
    ReconcileLandsEverything(trimmed, items, sorted, 0);
    var rec := Reconcile(trimmed, items, sorted, 0);
    var j :| 0 <= j < |sorted| && sorted[j] == x;
    assert x in rec.1 || Placed(rec.0, x);
    FlattenPlaced(rec.0, x);
  }

  /**
   * The stack holds nothing but incoming alignments and earlier alignments that
   * overlap the new region.
   */
  lemma UpdateKeepsOnlyKnown<P>(region: GenomicRegion, rows: Rows<P>, incoming: seq<Alignment<P>>, x: Alignment<P>)
    requires x in Flatten(UpdateRows(region, rows, incoming))
    ensures x in incoming || (x in Flatten(rows) && OverlapsRegion(region, x))
  {
    var trimmed := TrimRows(region, rows);
    var sorted := SortBy(ByStart, incoming);
    var rec := Reconcile(trimmed, StackItems(trimmed), sorted, 0);
    UpdateContents(region, rows, incoming);
    assert x in multiset(Flatten(UpdateRows(region, rows, incoming)));
    assert x in multiset(Flatten(rec.0)) + multiset(rec.1);
    ReconcileOnlyKnown(trimmed, sorted, x);
    if x in sorted {
      assert x in multiset(sorted);
    } else {
      TrimRowsKeepsOverlapping(region, rows, x);
    }
  }

  /** Reconciliation holds nothing but the stack's and the incoming alignments. */
  lemma ReconcileOnlyKnown<P>(trimmed: Rows<P>, sorted: seq<Alignment<P>>, x: Alignment<P>)
    ensures var rec := Reconcile(trimmed, StackItems(trimmed), sorted, 0);
      x in Flatten(rec.0) || x in rec.1 ==> x in sorted || x in Flatten(trimmed)
  {
    var items := StackItems(trimmed);
    var rec := Reconcile(trimmed, items, sorted, 0);
    if x in rec.1 {
      ReconcileForwardsFrom(trimmed, items, sorted, 0);
    } else if x in Flatten(rec.0) {
      FlattenPlaced(rec.0, x);
      var p :| ValidPos(rec.0, p) && At(rec.0, p) == x;
      ReconcileKeepsIds(trimmed, items, sorted, 0, p);
      if x == At(trimmed, p) {
        FlattenPlaced(trimmed, x);
      }
    }
  }

  /**
   * An earlier alignment that overlaps the new region stays in the stack unless
   * an incoming alignment with its id replaced it.
   */
  lemma UpdateKeepsOverlapping<P>(region: GenomicRegion, rows: Rows<P>, incoming: seq<Alignment<P>>, x: Alignment<P>)
    requires x in Flatten(rows) && OverlapsRegion(region, x)
    ensures x in Flatten(UpdateRows(region, rows, incoming)) ||
            exists k :: 0 <= k < |incoming| && incoming[k].id == x.id
  {
    var trimmed := TrimRows(region, rows);
    var items := StackItems(trimmed);
    var sorted := SortBy(ByStart, incoming);
    var rec := Reconcile(trimmed, items, sorted, 0);
    TrimRowsKeepsOverlapping(region, rows, x);
    FlattenPlaced(trimmed, x);
    var p :| ValidPos(trimmed, p) && At(trimmed, p) == x;
    ReconcileKeepsIds(trimmed, items, sorted, 0, p);
    var y := At(rec.0, p);
    if y == x {
      FlattenPlaced(rec.0, x);
      UpdateContents(region, rows, incoming);
      assert x in multiset(Flatten(rec.0)) + multiset(rec.1);
      assert x in multiset(Flatten(UpdateRows(region, rows, incoming)));
    } else {
      assert y in multiset(sorted);
      var k :| 0 <= k < |incoming| && incoming[k] == y;
    }
  }

  /** A sequence whose alignments all come from two sequences that end below `u64::MAX` does too. */
  lemma EndsBelowMaxFromMembers<P>(a: seq<Alignment<P>>, b: seq<Alignment<P>>, c: seq<Alignment<P>>)
    requires EndsBelowMax(b) && EndsBelowMax(c)
    requires forall x :: x in a ==> x in b || x in c
    ensures EndsBelowMax(a)
  {
    forall k | 0 <= k < |a|
      ensures a[k].End() < U64_MAX
    {
      assert a[k] in a;
    }
  }

  /** The rows and the forwarded alignments after reconciling hold only earlier or incoming alignments. */
  lemma ReconcileMembers<P>(rows: Rows<P>, items: seq<Pos>, incoming: seq<Alignment<P>>, idx: nat, x: Alignment<P>)
    requires idx <= |items| && AllValid(rows, items)
    ensures var rec := Reconcile(rows, items, incoming, idx);
      (x in Flatten(rec.0) ==> x in Flatten(rows) || x in incoming) && (x in rec.1 ==> x in incoming)
  {
    var rec := Reconcile(rows, items, incoming, idx);
    ReconcileForwards(rows, items, incoming, idx);
    if x in rec.1 {
      var k :| 0 <= k < |rec.1| && rec.1[k] == x;
    }
    if x in Flatten(rec.0) {
      FlattenPlaced(rec.0, x);
      var p :| ValidPos(rec.0, p) && At(rec.0, p) == x;
      ReconcileKeepsIds(rows, items, incoming, idx, p);
      if x == At(rows, p) {
        FlattenPlaced(rows, x);
      }
    }
  }

  /** What `extend_stack` needs of the rows and the alignments it stacks. */
  predicate ReadyToExtend<P>(rows: Rows<P>, pool: seq<Alignment<P>>)
  {
    NoEmptyRow(rows) && EndsBelowMax(Flatten(rows)) && EndsBelowMax(pool)
  }

  /**
   * After trimming and replacing duplicates, the rows and the forwarded
   * alignments are ready to be stacked, and stacking them is `UpdateRows`.
   */
  lemma ReconciledReady<P>(region: GenomicRegion, rows: Rows<P>, incoming: seq<Alignment<P>>)
    requires EndsBelowMax(Flatten(rows)) && EndsBelowMax(incoming)
    ensures ReadyToExtend(
      Reconcile(TrimRows(region, rows), StackItems(TrimRows(region, rows)), SortBy(ByStart, incoming), 0).0,
      Reconcile(TrimRows(region, rows), StackItems(TrimRows(region, rows)), SortBy(ByStart, incoming), 0).1)
    ensures UpdateRows(region, rows, incoming) == ExtendStackRows(
      Reconcile(TrimRows(region, rows), StackItems(TrimRows(region, rows)), SortBy(ByStart, incoming), 0).0,
      Reconcile(TrimRows(region, rows), StackItems(TrimRows(region, rows)), SortBy(ByStart, incoming), 0).1)
  {
    var trimmed := TrimRows(region, rows);
    var items := StackItems(trimmed);
    var sorted := SortBy(ByStart, incoming);
    var rec := Reconcile(trimmed, items, sorted, 0);
    assert NoEmptyRow(rec.0) by {
      assert forall i :: 0 <= i < |rec.0| ==> |rec.0[i]| == |trimmed[i]|;
    }
    forall x | x in Flatten(rec.0)
      ensures x in Flatten(rows) || x in incoming
    {
      ReconcileMembers(trimmed, items, sorted, 0, x);
      TrimRowsKeepsOverlapping(region, rows, x);
      if x in sorted {
        assert x in multiset(sorted);
      }
    }
    EndsBelowMaxFromMembers(Flatten(rec.0), Flatten(rows), incoming);
    forall x | x in rec.1
      ensures x in Flatten(rows) || x in incoming
    {
      ReconcileMembers(trimmed, items, sorted, 0, x);
      assert x in multiset(sorted);
    }
    EndsBelowMaxFromMembers(rec.1, Flatten(rows), incoming);
  }

  /** Updating keeps every alignment of the stack below `u64::MAX` at its end. */
  lemma UpdateEndsBelowMax<P>(region: GenomicRegion, rows: Rows<P>, incoming: seq<Alignment<P>>)
    requires EndsBelowMax(Flatten(rows)) && EndsBelowMax(incoming)
    ensures EndsBelowMax(Flatten(UpdateRows(region, rows, incoming)))
  {
    var res := Flatten(UpdateRows(region, rows, incoming));
    forall x | x in res
      ensures x in Flatten(rows) || x in incoming
    {
      UpdateKeepsOnlyKnown(region, rows, incoming, x);
    }
    EndsBelowMaxFromMembers(res, Flatten(rows), incoming);
  }
}
