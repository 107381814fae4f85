/**
 * Generic alignments (anything with an id and a genomic interval) and the
 * AlignmentSearchList: a list kept sorted by (start, id) or by (end, id) that
 * supports guarded appends and binary searches for the next alignment starting
 * at or after, or ending at or before, a coordinate.
 */
module Alignments {
  import opened Wrappers
  import opened GenomicCoordinates
  import opened Ordering

  /**
   * A record exposing an id (stable across re-reads of the same record) and an
   * interval; `payload` stands for the rest of the record.
   */
  datatype Alignment<P> = Alignment(id: string, interval: GenomicInterval, payload: P)
  {
    function Start(): uint64 { interval.start }
    function End(): uint64 { interval.end }
  }

  /** Which coordinate a list is sorted by: the SortStart and SortEnd marker types. */
  datatype SortOrder = ByStart | ByEnd

  function Key<P>(order: SortOrder, a: Alignment<P>): uint64
  {
    match order
    case ByStart => a.Start()
    case ByEnd => a.End()
  }

  /** `(key(a), a.id) <= (key(b), b.id)` as a tuple comparison. */
  predicate Le<P>(order: SortOrder, a: Alignment<P>, b: Alignment<P>)
  {
    Key(order, a) < Key(order, b) || (Key(order, a) == Key(order, b) && StrLe(a.id, b.id))
  }

  predicate Sorted<P>(order: SortOrder, s: seq<Alignment<P>>)
  {
    forall i, j :: 0 <= i < j < |s| ==> Le(order, s[i], s[j])
  }

  lemma LeTransitive<P>(order: SortOrder, a: Alignment<P>, b: Alignment<P>, c: Alignment<P>)
    requires Le(order, a, b) && Le(order, b, c)
    ensures Le(order, a, c)
  {
    StrLeTotalOrder(a.id, b.id, c.id);
  }

  lemma LeTotal<P>(order: SortOrder, a: Alignment<P>, b: Alignment<P>)
    ensures Le(order, a, b) || Le(order, b, a)
  {
    StrLeTotalOrder(a.id, b.id, a.id);
  }

  lemma LeReflexive<P>(order: SortOrder, a: Alignment<P>)
    ensures Le(order, a, a)
  {
    StrLeTotalOrder(a.id, a.id, a.id);
  }

  /** A list sorted by a key has non-decreasing keys. */
  lemma SortedKeys<P>(order: SortOrder, s: seq<Alignment<P>>, i: int, j: int)
    requires Sorted(order, s) && 0 <= i <= j < |s|
    ensures Key(order, s[i]) <= Key(order, s[j])
  {
  }

  /** Sortedness follows from each element being at most its successor. */
  lemma {:induction false} SortedFromAdjacent<P>(order: SortOrder, s: seq<Alignment<P>>)
    requires forall i :: 0 <= i < |s| - 1 ==> Le(order, s[i], s[i + 1])
    ensures Sorted(order, s)
  {
    if |s| > 1 {
      var init := s[..|s| - 1];
      assert forall i :: 0 <= i < |init| - 1 ==> Le(order, init[i], init[i + 1]);
      SortedFromAdjacent(order, init);
      forall i, j | 0 <= i < j < |s|
        ensures Le(order, s[i], s[j])
      {
        if j == |s| - 1 && i < j - 1 {
          assert Le(order, init[i], init[j - 1]);
          LeTransitive(order, s[i], s[j - 1], s[j]);
        } else if j < |s| - 1 {
          assert Le(order, init[i], init[j]);
        }
      }
    }
  }

  /** Appending an element not below the last one keeps a list sorted. */
  lemma SortedAppend<P>(order: SortOrder, s: seq<Alignment<P>>, x: Alignment<P>)
    requires Sorted(order, s)
    requires s == [] || Le(order, s[|s| - 1], x)
    ensures Sorted(order, s + [x])
  {
    var t := s + [x];
    forall i, j | 0 <= i < j < |t|
      ensures Le(order, t[i], t[j])
    {
      if j == |s| && i < |s| - 1 {
        LeTransitive(order, s[i], s[|s| - 1], x);
      }
    }
  }

  /** `Vec::remove(i)` on the list's contents. */
  function RemoveAt<T>(s: seq<T>, i: nat): (r: seq<T>)
    requires i < |s|
    ensures |r| == |s| - 1
  {
    s[..i] + s[i + 1..]
  }

  /** Removing index i shifts the later elements down by one and drops exactly s[i]. */
  lemma RemoveAtSpec<T>(s: seq<T>, i: nat)
    requires i < |s|
    ensures forall k :: 0 <= k < i ==> RemoveAt(s, i)[k] == s[k]
    ensures forall k :: i <= k < |s| - 1 ==> RemoveAt(s, i)[k] == s[k + 1]
    ensures multiset(RemoveAt(s, i)) + multiset{s[i]} == multiset(s)
  {
    assert s == s[..i] + [s[i]] + s[i + 1..];
  }

  /** Removing an element keeps a list sorted. */
  lemma SortedRemoveAt<P>(order: SortOrder, s: seq<Alignment<P>>, i: nat)
    requires Sorted(order, s) && i < |s|
    ensures Sorted(order, RemoveAt(s, i))
  {
    var r := RemoveAt(s, i);
    RemoveAtSpec(s, i);
    forall a, b | 0 <= a < b < |r|
      ensures Le(order, r[a], r[b])
    {
      var a' := if a < i then a else a + 1;
      var b' := if b < i then b else b + 1;
      assert r[a] == s[a'] && r[b] == s[b'];
    }
  }

  // ---------------------------------------------------------------------------
  // Sorting: `sort_by_key(|al| (key(al), al.id()))`, a stable sort.

  /** Insert `x` after every element of `s` that is at most `x`. */
  function Insert<P>(order: SortOrder, s: seq<Alignment<P>>, x: Alignment<P>): (r: seq<Alignment<P>>)
    requires Sorted(order, s)
    ensures Sorted(order, r)
    ensures multiset(r) == multiset(s) + multiset{x}
    ensures |r| == |s| + 1
  {
    if s == [] then [x]
    else if Le(order, s[0], x) then
      var rest := Insert(order, s[1..], x);
      InsertBehindHead(order, s, x, rest);
      [s[0]] + rest
    else
      InsertAtHead(order, s, x);
      [x] + s
  }

  /** The head of `s`, at most `x`, stays in front of `x` inserted into the tail. */
  lemma InsertBehindHead<P>(order: SortOrder, s: seq<Alignment<P>>, x: Alignment<P>, rest: seq<Alignment<P>>)
    requires Sorted(order, s) && s != [] && Le(order, s[0], x)
    requires Sorted(order, rest) && multiset(rest) == multiset(s[1..]) + multiset{x}
    ensures Sorted(order, [s[0]] + rest)
    ensures multiset([s[0]] + rest) == multiset(s) + multiset{x}
  {
    assert s == [s[0]] + s[1..];
    forall k | 0 <= k < |rest|
      ensures Le(order, s[0], rest[k])
    {
      assert rest[k] in multiset(rest);
      if rest[k] != x {
        assert rest[k] in s[1..];
      }
    }
    var r := [s[0]] + rest;
    forall i, j | 0 <= i < j < |r|
      ensures Le(order, r[i], r[j])
    {
      assert r[j] == rest[j - 1];
      if i > 0 {
        assert r[i] == rest[i - 1];
      }
    }
  }

  /** An `x` below the head of `s` goes in front. */
  lemma InsertAtHead<P>(order: SortOrder, s: seq<Alignment<P>>, x: Alignment<P>)
    requires Sorted(order, s) && s != [] && !Le(order, s[0], x)
    ensures Sorted(order, [x] + s)
  {
    LeTotal(order, s[0], x);
    var r := [x] + s;
    forall i, j | 0 <= i < j < |r|
      ensures Le(order, r[i], r[j])
    {
      assert r[j] == s[j - 1];
      if i == 0 {
        if j > 1 {
          LeTransitive(order, x, s[0], s[j - 1]);
        }
      } else {
        assert r[i] == s[i - 1];
      }
    }
  }

  /** The list sorted by (key, id); elements with equal key and id keep their input order. */
  function SortBy<P>(order: SortOrder, s: seq<Alignment<P>>): (r: seq<Alignment<P>>)
    ensures Sorted(order, r)
    ensures multiset(r) == multiset(s)
    ensures |r| == |s|
  {
    if s == [] then []
    else
      assert s == s[..|s| - 1] + [s[|s| - 1]];
      Insert(order, SortBy(order, s[..|s| - 1]), s[|s| - 1])
  }

  /** Inserting an element that is not below any element appends it. */
  lemma {:induction false} InsertLargest<P>(order: SortOrder, s: seq<Alignment<P>>, x: Alignment<P>)
    requires Sorted(order, s)
    requires forall k :: 0 <= k < |s| ==> Le(order, s[k], x)
    ensures Insert(order, s, x) == s + [x]
  {
    if s != [] {
      InsertLargest(order, s[1..], x);
      assert s == [s[0]] + s[1..];
    }
  }

  lemma SortedPrefix<P>(order: SortOrder, s: seq<Alignment<P>>)
    requires Sorted(order, s) && s != []
    ensures Sorted(order, s[..|s| - 1])
    ensures forall k :: 0 <= k < |s| - 1 ==> Le(order, s[k], s[|s| - 1])
  {
  }

  /** Sorting an already sorted list leaves it unchanged. */
  lemma {:induction false} SortByOfSorted<P>(order: SortOrder, s: seq<Alignment<P>>)
    requires Sorted(order, s)
    ensures SortBy(order, s) == s
  {
    if s != [] {
      var init, last := s[..|s| - 1], s[|s| - 1];
      assert init + [last] == s;
      SortedPrefix(order, s);
      SortByOfSorted(order, init);
      InsertLargest(order, init, last);
      calc {
        SortBy(order, s);
        Insert(order, SortBy(order, init), last);
        Insert(order, init, last);
      }
    }
  }

  // ---------------------------------------------------------------------------
  // Search specifications.

  /** The index of the first element starting at or after `minStart`, or |s| if there is none. */
  function FirstAtOrAfter<P>(s: seq<Alignment<P>>, minStart: int): (i: nat)
    ensures i <= |s|
  {
    if s == [] then 0
    else if s[0].Start() >= minStart then 0
    else 1 + FirstAtOrAfter(s[1..], minStart)
  }

  /** Every element before the found index starts before `minStart`; the found one does not. */
  lemma {:induction false} FirstAtOrAfterSpec<P>(s: seq<Alignment<P>>, minStart: int)
    ensures forall j :: 0 <= j < FirstAtOrAfter(s, minStart) ==> s[j].Start() < minStart
    ensures FirstAtOrAfter(s, minStart) < |s| ==> s[FirstAtOrAfter(s, minStart)].Start() >= minStart
  {
    if s != [] && s[0].Start() < minStart {
      FirstAtOrAfterSpec(s[1..], minStart);
      assert forall j :: 1 <= j < |s| ==> s[j] == s[1..][j - 1];
    }
  }

  /** The index of the last element ending at or before `maxEnd`, or -1 if there is none. */
  function LastAtOrBefore<P>(s: seq<Alignment<P>>, maxEnd: int): (i: int)
    ensures -1 <= i < |s|
  {
    if s == [] then -1
    else if s[|s| - 1].End() <= maxEnd then |s| - 1
    else LastAtOrBefore(s[..|s| - 1], maxEnd)
  }

  /** Every element after the found index ends after `maxEnd`; the found one does not. */
  lemma {:induction false} LastAtOrBeforeSpec<P>(s: seq<Alignment<P>>, maxEnd: int)
    ensures forall j :: LastAtOrBefore(s, maxEnd) < j < |s| ==> s[j].End() > maxEnd
    ensures LastAtOrBefore(s, maxEnd) >= 0 ==> s[LastAtOrBefore(s, maxEnd)].End() <= maxEnd
  {
    if s != [] && s[|s| - 1].End() > maxEnd {
      LastAtOrBeforeSpec(s[..|s| - 1], maxEnd);
    }
  }

  // ---------------------------------------------------------------------------

  /** AlignmentSearchList<T, SortStart>. */
  class StartSortedList<P> {
    var inner: seq<Alignment<P>>

    ghost predicate Valid()
      reads this
    {
      Sorted(ByStart, inner)
    }

    /** `From<Vec<T>>`: sorts its input by (start, id). */
    constructor FromVec(items: seq<Alignment<P>>)
      ensures Valid()
      ensures inner == SortBy(ByStart, items)
    {
      inner := SortBy(ByStart, items);
    }

    constructor WithCapacity(capacity: nat)
      ensures Valid() && inner == []
    {
      inner := [];
    }

    /** Append `value`; fails and leaves the list unchanged if that would unsort it. */
    method Push(value: Alignment<P>) returns (r: Result<()>)
      requires Valid()
      modifies this
      ensures Valid()
      ensures r.Ok? <==> (old(inner) == [] || Le(ByStart, old(inner)[|old(inner)| - 1], value))
      ensures r.Ok? ==> inner == old(inner) + [value]
      ensures r.Err? ==> inner == old(inner) && r.error == UnsortedPush
    {
      if |inner| > 0 {
        var last := inner[|inner| - 1];
        if value.Start() < last.Start() || (value.Start() == last.Start() && StrLt(value.id, last.id)) {
          return Err(UnsortedPush);
        }
      }
      SortedAppend(ByStart, inner, value);
      inner := inner + [value];
      return Ok(());
    }

    /** Binary search for the first alignment whose start is at least `minStart`. */
    method SearchAfter(minStart: uint64) returns (r: Option<nat>)
      requires Valid()
      ensures r.None? <==> (inner == [] || inner[|inner| - 1].Start() < minStart)
      ensures r.None? <==> forall j :: 0 <= j < |inner| ==> inner[j].Start() < minStart
      ensures r.Some? ==> r.value < |inner| && inner[r.value].Start() >= minStart
      ensures r.Some? ==> forall j :: 0 <= j < r.value ==> inner[j].Start() < minStart
    {
      if |inner| > 0 {
        if inner[|inner| - 1].Start() < minStart {
          SortedBelow(inner, minStart);
          return None;
        }
      } else if |inner| == 0 {
        return None;
      }

      var low: nat := 0;
      var high: nat := |inner| - 1;
      while low < high
        invariant low <= high < |inner|
        invariant forall j :: 0 <= j < low ==> inner[j].Start() < minStart
        invariant inner[high].Start() >= minStart
      {
        var mid := (low + high) / 2;
        if inner[mid].Start() < minStart {
          SortedBelow(inner[..mid + 1], minStart);
          low := mid + 1;
        } else {
          high := mid;
        }
      }
      return Some(low);
    }

    /** If the last element of a start-sorted list starts before `x`, they all do. */
    static lemma SortedBelow(s: seq<Alignment<P>>, x: int)
      requires Sorted(ByStart, s) && s != [] && s[|s| - 1].Start() < x
      ensures forall j :: 0 <= j < |s| ==> s[j].Start() < x
    {
      forall j | 0 <= j < |s|
        ensures s[j].Start() < x
      {
        SortedKeys(ByStart, s, j, |s| - 1);
      }
    }

    /** Remove and return the first alignment whose start is at least `minStart`. */
    method PopAfter(minStart: uint64) returns (r: Option<Alignment<P>>)
      requires Valid()
      modifies this
      ensures Valid()
      ensures var i := FirstAtOrAfter(old(inner), minStart);
        if i == |old(inner)| then r.None? && inner == old(inner)
        else r == Some(old(inner)[i]) && inner == RemoveAt(old(inner), i)
    {
      var found := SearchAfter(minStart);
      FirstAtOrAfterUnique(inner, minStart, found);
      match found
      case None =>
        r := None;
      case Some(i) =>
        r := Some(inner[i]);
        SortedRemoveAt(ByStart, inner, i);
        inner := RemoveAt(inner, i);
    }

    /** The declarative search result determines `FirstAtOrAfter`. */
    static lemma FirstAtOrAfterUnique(s: seq<Alignment<P>>, x: int, found: Option<nat>)
      requires found.None? <==> forall j :: 0 <= j < |s| ==> s[j].Start() < x
      requires found.Some? ==> found.value < |s| && s[found.value].Start() >= x
      requires found.Some? ==> forall j :: 0 <= j < found.value ==> s[j].Start() < x
      ensures found.None? ==> FirstAtOrAfter(s, x) == |s|
      ensures found.Some? ==> FirstAtOrAfter(s, x) == found.value
    {
      var i := FirstAtOrAfter(s, x);
      FirstAtOrAfterSpec(s, x);
      if i < |s| {
        assert s[i].Start() >= x;
      }
    }

    /** `sort_by_end`: the same alignments, re-sorted by (end, id). */
    method SortByEnd() returns (l: EndSortedList<P>)
      ensures fresh(l) && l.Valid()
      ensures l.inner == SortBy(ByEnd, inner)
      ensures multiset(l.inner) == multiset(inner)
    {
      l := new EndSortedList.FromVec(inner);
    }
  }

  /** AlignmentSearchList<T, SortEnd>. */
  class EndSortedList<P> {
    var inner: seq<Alignment<P>>

    ghost predicate Valid()
      reads this
    {
      Sorted(ByEnd, inner)
    }

    /** `From<Vec<T>>`: sorts its input by (end, id). */
    constructor FromVec(items: seq<Alignment<P>>)
      ensures Valid()
      ensures inner == SortBy(ByEnd, items)
    {
      inner := SortBy(ByEnd, items);
    }

    /** Append `value`; fails and leaves the list unchanged if that would unsort it. */
    method Push(value: Alignment<P>) returns (r: Result<()>)
      requires Valid()
      modifies this
      ensures Valid()
      ensures r.Ok? <==> (old(inner) == [] || Le(ByEnd, old(inner)[|old(inner)| - 1], value))
      ensures r.Ok? ==> inner == old(inner) + [value]
      ensures r.Err? ==> inner == old(inner) && r.error == UnsortedPush
    {
      if |inner| > 0 {
        var last := inner[|inner| - 1];
        if value.End() < last.End() || (value.End() == last.End() && StrLt(value.id, last.id)) {
          return Err(UnsortedPush);
        }
      }
      SortedAppend(ByEnd, inner, value);
      inner := inner + [value];
      return Ok(());
    }

    /** Binary search for the last alignment whose end is at most `maxEnd`. */
    method SearchBefore(maxEnd: uint64) returns (r: Option<nat>)
      requires Valid()
      ensures r.None? <==> (inner == [] || inner[0].End() > maxEnd)
      ensures r.None? <==> forall j :: 0 <= j < |inner| ==> inner[j].End() > maxEnd
      ensures r.Some? ==> r.value < |inner| && inner[r.value].End() <= maxEnd
      ensures r.Some? ==> forall j :: r.value < j < |inner| ==> inner[j].End() > maxEnd
    {
      if |inner| > 0 {
        if inner[0].End() > maxEnd {
          SortedAbove(inner, maxEnd);
          return None;
        }
      } else if |inner| == 0 {
        return None;
      }

      var low: nat := 0;
      var high: nat := |inner| - 1;
      while low < high
        invariant low <= high < |inner|
        invariant inner[low].End() <= maxEnd
        invariant forall j :: high < j < |inner| ==> inner[j].End() > maxEnd
      {
        var mid := ((low + high) / 2) + 1;
        if inner[mid].End() > maxEnd {
          SortedAbove(inner[mid..], maxEnd);
          high := mid - 1;
        } else {
          low := mid;
        }
      }
      return Some(low);
    }

    /** If the first element of an end-sorted list ends after `x`, they all do. */
    static lemma SortedAbove(s: seq<Alignment<P>>, x: int)
      requires Sorted(ByEnd, s) && s != [] && s[0].End() > x
      ensures forall j :: 0 <= j < |s| ==> s[j].End() > x
    {
      forall j | 0 <= j < |s|
        ensures s[j].End() > x
      {
        SortedKeys(ByEnd, s, 0, j);
      }
    }

    /** Remove and return the last alignment whose end is at most `maxEnd`. */
    method PopBefore(maxEnd: uint64) returns (r: Option<Alignment<P>>)
      requires Valid()
      modifies this
      ensures Valid()
      ensures var i := LastAtOrBefore(old(inner), maxEnd);
        if i < 0 then r.None? && inner == old(inner)
        else r == Some(old(inner)[i]) && inner == RemoveAt(old(inner), i)
    {
      var found := SearchBefore(maxEnd);
      LastAtOrBeforeUnique(inner, maxEnd, found);
      match found
      case None =>
        r := None;
      case Some(i) =>
        r := Some(inner[i]);
        SortedRemoveAt(ByEnd, inner, i);
        inner := RemoveAt(inner, i);
    }

    /** The declarative search result determines `LastAtOrBefore`. */
    static lemma LastAtOrBeforeUnique(s: seq<Alignment<P>>, x: int, found: Option<nat>)
      requires found.None? <==> forall j :: 0 <= j < |s| ==> s[j].End() > x
      requires found.Some? ==> found.value < |s| && s[found.value].End() <= x
      requires found.Some? ==> forall j :: found.value < j < |s| ==> s[j].End() > x
      ensures found.None? ==> LastAtOrBefore(s, x) == -1
      ensures found.Some? ==> LastAtOrBefore(s, x) == found.value
    {
      var i := LastAtOrBefore(s, x);
      LastAtOrBeforeSpec(s, x);
      if i >= 0 {
        assert s[i].End() <= x;
      }
    }

    /** `sort_by_start`: the same alignments, re-sorted by (start, id). */
    method SortByStart() returns (l: StartSortedList<P>)
      ensures fresh(l) && l.Valid()
      ensures l.inner == SortBy(ByStart, inner)
      ensures multiset(l.inner) == multiset(inner)
    {
      l := new StartSortedList.FromVec(inner);
    }
  }
}

module AlignmentExamples {
  import opened Wrappers
  import opened GenomicCoordinates
  import opened Alignments
  import opened Ordering

  function Al(id: string, start: uint64, end: uint64): Alignment<()>
  {
    Alignment(id, GenomicInterval(start, end), ())
  }

  /** The alignments of the search tests, already in (start, id) and (end, id) order. */
  function SearchItems(): seq<Alignment<()>>
  {
    [Al("0", 0, 10), Al("1", 1, 11), Al("2", 1, 12), Al("3", 10, 20), Al("4", 11, 22)]
  }

  lemma SearchItemsSorted()
    ensures Sorted(ByStart, SearchItems()) && Sorted(ByEnd, SearchItems())
  {
    var s := SearchItems();
    assert StrLe("1", "2") by {
      assert StrLt("1", "2");
    }
    SortedFromAdjacent(ByStart, s);
    SortedFromAdjacent(ByEnd, s);
  }

  /** A list built from alignments already in (start, id) order holds them as given. */
  method FromSorted(items: seq<Alignment<()>>) returns (l: StartSortedList<()>)
    requires Sorted(ByStart, items)
    ensures fresh(l) && l.Valid() && l.inner == items
  {
    SortByOfSorted(ByStart, items);
    l := new StartSortedList.FromVec(items);
  }

  /** A list built from alignments already in (end, id) order holds them as given. */
  method FromSortedEnds(items: seq<Alignment<()>>) returns (l: EndSortedList<()>)
    requires Sorted(ByEnd, items)
    ensures fresh(l) && l.Valid() && l.inner == items
  {
    SortByOfSorted(ByEnd, items);
    l := new EndSortedList.FromVec(items);
  }

  /** The start-side searches of the unit tests, run through the list methods. */
  method SearchAfterExamples() returns (after: seq<Option<nat>>)
    ensures after == [Some(0), Some(1), Some(3), Some(4)]
  {
    var items := SearchItems();
    SearchItemsSorted();
    var starts := FromSorted(items);
    var a0 := starts.SearchAfter(0);
    assert starts.inner[0].Start() == 0;
    assert a0 == Some(0);
    var a1 := starts.SearchAfter(1);
    assert starts.inner[0].Start() < 1 <= starts.inner[1].Start();
    assert a1 == Some(1);
    var a2 := starts.SearchAfter(2);
    assert starts.inner[2].Start() < 2 <= starts.inner[3].Start();
    assert a2 == Some(3);
    var a11 := starts.SearchAfter(11);
    assert starts.inner[3].Start() < 11 <= starts.inner[4].Start();
    assert a11 == Some(4);
    after := [a0, a1, a2, a11];
  }

  /** A position past every start of a two-item list has no later alignment. */
  method SearchAfterMissing() returns (missing: Option<nat>)
    ensures missing == None
  {
    var items := SearchItems();
    SearchItemsSorted();
    assert Sorted(ByStart, items[..2]);
    var short := FromSorted(items[..2]);
    missing := short.SearchAfter(2);
  }

  /** The end-side searches of the unit tests, run through the list methods. */
  method SearchBeforeExamples() returns (before: seq<Option<nat>>)
    ensures before == [Some(0), Some(1), Some(2), Some(3), None]
  {
    var items := SearchItems();
    SearchItemsSorted();
    var ends := FromSortedEnds(items);
    var b10 := ends.SearchBefore(10);
    assert ends.inner[0].End() <= 10 < ends.inner[1].End();
    assert b10 == Some(0);
    var b11 := ends.SearchBefore(11);
    assert ends.inner[1].End() <= 11 < ends.inner[2].End();
    assert b11 == Some(1);
    var b12 := ends.SearchBefore(12);
    assert ends.inner[2].End() <= 12 < ends.inner[3].End();
    assert b12 == Some(2);
    var b20 := ends.SearchBefore(20);
    assert ends.inner[3].End() <= 20 < ends.inner[4].End();
    assert b20 == Some(3);
    var b8 := ends.SearchBefore(8);
    assert b8 == None;
    before := [b10, b11, b12, b20, b8];
  }
}
