/**
 * Half-open, 0-based genomic intervals and regions (a contig name plus an interval).
 * Coordinates are unsigned 64-bit integers; the arithmetic that would overflow or
 * underflow in the source (and so panic) is excluded by preconditions.
 */
module GenomicCoordinates {
  import opened Wrappers

  const U64_MAX: int := 0xFFFF_FFFF_FFFF_FFFF
  type uint64 = x: int | 0 <= x <= U64_MAX

  /** `a.saturating_sub(b)` on u64. */
  function SaturatingSub(a: uint64, b: uint64): (r: uint64)
    ensures r <= a
    ensures r == 0 || r + b == a
    ensures b <= a ==> r + b == a
  {
    if b <= a then a - b else 0
  }

  datatype GenomicInterval = GenomicInterval(start: uint64, end: uint64)
  {
    /** The invariant `GenomicInterval::new` enforces. */
    predicate Valid() { start <= end }

    function Len(): (r: uint64)
      requires Valid()
      ensures start + r == end
    {
      end - start
    }

    /** Grow by `delta` on each side; the start saturates at 0. */
    function Expand(delta: uint64): (r: Result<GenomicInterval>)
      requires end + delta <= U64_MAX
      ensures Valid() ==> r.Ok?
      ensures r.Ok? ==> r.value.end == end + delta && r.value.start == SaturatingSub(start, delta)
    {
      NewInterval(SaturatingSub(start, delta), end + delta)
    }

    /** Shrink by `delta` on each side; fails if the result would be inverted. */
    function Contract(delta: uint64): (r: Result<GenomicInterval>)
      requires start + delta <= U64_MAX && delta <= end
      ensures r.Ok? <==> start + delta <= end - delta
      ensures r.Ok? ==> r.value.start == start + delta && r.value.end + delta == end
    {
      NewInterval(start + delta, end - delta)
    }

    /** Subset test. */
    predicate Contains(other: GenomicInterval) {
      start <= other.start && end >= other.end
    }

    /** The overlap test exactly as written: its second conjunct compares `self.end` with itself. */
    predicate Overlaps(other: GenomicInterval) {
      start <= other.end && end <= end
    }

    /** Position `p` lies in the closed interval [start, end]. */
    predicate Covers(p: int) { start <= p <= end }

    /** The overlap test the method name promises: the closed intervals share a position. */
    predicate OverlapsIntended(other: GenomicInterval) {
      start <= other.end && other.start <= end
    }
  }

  function NewInterval(start: uint64, end: uint64): (r: Result<GenomicInterval>)
    ensures r.Ok? <==> start <= end
    ensures r.Ok? ==> r.value.start == start && r.value.end == end && r.value.Valid()
    ensures r.Err? ==> r.error == InvalidCoordinates
  {
    if end < start then Err(InvalidCoordinates) else Ok(GenomicInterval(start, end))
  }

  datatype GenomicRegion = GenomicRegion(seqName: string, interval: GenomicInterval)
  {
    predicate Valid() { interval.Valid() }

    function Start(): uint64 { interval.start }

    function End(): uint64 { interval.end }

    function Len(): (r: uint64)
      requires Valid()
      ensures Start() + r == End()
    {
      interval.Len()
    }

    function Expand(delta: uint64): (r: Result<GenomicRegion>)
      requires End() + delta <= U64_MAX
      ensures Valid() ==> r.Ok?
      ensures r.Ok? ==> r.value.seqName == seqName && interval.Expand(delta) == Ok(r.value.interval)
    {
      match interval.Expand(delta)
      case Err(e) => Err(e)
      case Ok(expanded) => NewRegion(seqName, expanded.start, expanded.end)
    }

    function Contract(delta: uint64): (r: Result<GenomicRegion>)
      requires Start() + delta <= U64_MAX && delta <= End()
      ensures r.Ok? <==> interval.Contract(delta).Ok?
      ensures r.Ok? ==> r.value.seqName == seqName && interval.Contract(delta) == Ok(r.value.interval)
    {
      match interval.Contract(delta)
      case Err(e) => Err(e)
      case Ok(contracted) => NewRegion(seqName, contracted.start, contracted.end)
    }

    predicate Contains(region: GenomicRegion) {
      region.seqName == seqName && interval.Contains(region.interval)
    }
  }

  function NewRegion(seqName: string, start: uint64, end: uint64): (r: Result<GenomicRegion>)
    ensures r.Ok? <==> start <= end
    ensures r.Ok? ==> r.value == GenomicRegion(seqName, GenomicInterval(start, end)) && r.value.Valid()
    ensures r.Err? ==> r.error == InvalidCoordinates
  {
    if end < start then Err(InvalidCoordinates)
    else
      match NewInterval(start, end)
      case Err(e) => Err(e)
      case Ok(interval) => Ok(GenomicRegion(seqName, interval))
  }

  // ---------------------------------------------------------------------------
  // Properties

  /** `Contains` is a partial order on intervals: reflexive and transitive. */
  lemma ContainsReflexive(a: GenomicInterval)
    ensures a.Contains(a)
  {
  }

  lemma ContainsTransitive(a: GenomicInterval, b: GenomicInterval, c: GenomicInterval)
    requires a.Contains(b) && b.Contains(c)
    ensures a.Contains(c)
  {
  }

  lemma RegionContainsTransitive(a: GenomicRegion, b: GenomicRegion, c: GenomicRegion)
    requires a.Contains(b) && b.Contains(c)
    ensures a.Contains(c)
  {
  }

  /** An expanded interval contains the original one, and its length grows by at most 2*delta. */
  lemma ExpandContainsOriginal(a: GenomicInterval, delta: uint64)
    requires a.Valid() && a.end + delta <= U64_MAX
    ensures a.Expand(delta).Ok?
    ensures a.Expand(delta).value.Contains(a)
    ensures a.Expand(delta).value.Len() <= a.Len() + 2 * delta
  {
  }

  /** Contracting undoes expanding when the start did not saturate. */
  lemma ContractUndoesExpand(a: GenomicInterval, delta: uint64)
    requires a.Valid() && a.end + delta <= U64_MAX && delta <= a.start
    ensures a.Expand(delta).Ok?
    ensures a.Expand(delta).value.Contract(delta) == Ok(a)
  {
  }

  /** A successful contraction is contained in the original interval. */
  lemma ContractContainedInOriginal(a: GenomicInterval, delta: uint64)
    requires a.start + delta <= U64_MAX && delta <= a.end
    requires a.Contract(delta).Ok?
    ensures a.Contains(a.Contract(delta).value)
  {
  }

  /** The overlap test as written ignores both the other interval's start and its own end. */
  lemma OverlapsIgnoresOtherStart(a: GenomicInterval, b: GenomicInterval)
    ensures a.Overlaps(b) <==> a.start <= b.end
  {
  }

  /** Counterexample: 0-1 "overlaps" the disjoint 5-6 as written, but not as intended. */
  lemma OverlapsAcceptsDisjoint()
    ensures GenomicInterval(0, 1).Overlaps(GenomicInterval(5, 6))
    ensures !GenomicInterval(0, 1).OverlapsIntended(GenomicInterval(5, 6))
  {
  }

  /** The intended overlap test is symmetric and holds exactly when the closed intervals share a position. */
  lemma OverlapsIntendedMeansCommonPosition(a: GenomicInterval, b: GenomicInterval)
    requires a.Valid() && b.Valid()
    ensures a.OverlapsIntended(b) == b.OverlapsIntended(a)
    ensures a.OverlapsIntended(b) <==> exists p: int :: a.Covers(p) && b.Covers(p)
  {
    if a.OverlapsIntended(b) {
      var p := if a.start <= b.start then b.start else a.start;
      assert a.Covers(p) && b.Covers(p);
    }
  }
}
