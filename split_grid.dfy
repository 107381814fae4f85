/**
 * The split grid's view logic: how far a pan moves the focused region, and
 * which events an update of the focused region announces for each bound
 * state of the new region.
 */
module SplitGrid {
  import opened Wrappers
  import opened GenomicCoordinates

  datatype Direction = Left | Right

  /** Where a new focused region lies relative to what the split has buffered. */
  datatype BoundState = WithinRefreshBound | OutsideRefreshBound | OutsideBuffered | OutsideRenderRange

  datatype Event =
    | FocusedRegionUpdated
    | RegionPanned
    | RegionZoomed
    | RegionBuffering
    | FocusedSequenceUpdated
    | FocusedSequenceUpdateQueued
    | AlignmentsUpdated
    | AlignmentsUpdateQueued

  function Min(a: int, b: int): int { if a <= b then a else b }

  function Max(a: int, b: int): int { if a <= b then b else a }

  /** How far a pan moves a region: a tenth of its length, rounded down. */
  function PanStep(region: GenomicRegion): (r: uint64)
    requires region.Valid()
    ensures r * 10 <= region.Len() < r * 10 + 10
  {
    region.Len() / 10
  }

  /**
   * What the arithmetic of a pan may not overflow: a right pan adds the step
   * to the end, and subtracts the end from the contig length when that sum
   * passes it.
   */
  predicate CanPan(region: GenomicRegion, direction: Direction, seqLength: uint64)
  {
    region.Valid() &&
    (direction == Right ==>
       region.End() + PanStep(region) <= U64_MAX &&
       (region.End() + PanStep(region) > seqLength ==> region.End() <= seqLength))
  }

  /**
   * The panned region: the same contig and length, moved by one step, but a
   * left pan stops at position 0 and a right pan at the contig's end.
   */
  function Panned(region: GenomicRegion, direction: Direction, seqLength: uint64): (r: GenomicRegion)
    requires CanPan(region, direction, seqLength)
  {
    var step := PanStep(region);
    match direction
    case Left =>
      var start := Max(region.Start() - step, 0);
      region.(interval := GenomicInterval(start, start + region.Len()))
    case Right =>
      var end := Min(region.End() + step, seqLength);
      region.(interval := GenomicInterval(end - region.Len(), end))
  }

  /**
   * The offset arithmetic of `pan_focused_split`: the shift is a tenth of the
   * length, cut to the start when a left pan would saturate at 0 and to the
   * room left before the contig's end when a right pan would pass it.
   */
  method PanFocusedRegion(region: GenomicRegion, direction: Direction, seqLength: uint64)
    returns (updated: GenomicRegion)
    requires CanPan(region, direction, seqLength)
    ensures updated == Panned(region, direction, seqLength)
  {
    updated := region;
    var pannedBp: uint64 := region.Len() / 10;
    match direction {
      case Left =>
        if SaturatingSub(updated.Start(), pannedBp) == 0 {
          pannedBp := updated.Start();
        }
        updated := updated.(interval := updated.interval.(start := updated.Start() - pannedBp));
        updated := updated.(interval := updated.interval.(end := updated.End() - pannedBp));
      case Right =>
        if updated.End() + pannedBp > seqLength {
          pannedBp := seqLength - updated.End();
        }
        updated := updated.(interval := updated.interval.(start := updated.Start() + pannedBp));
        updated := updated.(interval := updated.interval.(end := updated.End() + pannedBp));
    }
  }

  /** A pan keeps the contig and the length of the region. */
  lemma PanPreservesRegion(region: GenomicRegion, direction: Direction, seqLength: uint64)
    requires CanPan(region, direction, seqLength)
    ensures var r := Panned(region, direction, seqLength);
      r.seqName == region.seqName && r.Valid() && r.Len() == region.Len()
  {
  }

  /** A region shorter than 10 bp has a zero step and never moves. */
  lemma ShortRegionsStayPut(region: GenomicRegion, direction: Direction, seqLength: uint64)
    requires CanPan(region, direction, seqLength) && region.Len() < 10
    ensures Panned(region, direction, seqLength) == region
  {
    assert PanStep(region) == 0;
  }

  /**
   * A left pan moves by the whole step unless that would pass position 0, and
   * then it lands exactly on 0.
   */
  lemma PanLeftStopsAtZero(region: GenomicRegion, seqLength: uint64)
    requires CanPan(region, Left, seqLength)
    ensures var r := Panned(region, Left, seqLength);
      (region.Start() >= PanStep(region) ==> r.Start() + PanStep(region) == region.Start()) &&
      (region.Start() <= PanStep(region) ==> r.Start() == 0)
  {
  }

  /**
   * A right pan moves by the whole step unless that would pass the contig's
   * end, and then it ends exactly there; a region inside the contig stays inside.
   */
  lemma PanRightStopsAtEnd(region: GenomicRegion, seqLength: uint64)
    requires CanPan(region, Right, seqLength)
    ensures var r := Panned(region, Right, seqLength);
      (region.End() + PanStep(region) <= seqLength ==> r.End() == region.End() + PanStep(region)) &&
      (region.End() + PanStep(region) >= seqLength ==> r.End() == seqLength) &&
      (region.End() <= seqLength ==> r.End() <= seqLength && region.Start() <= r.Start())
  {
  }

  /** A right pan that was not cut short is undone by a left pan. */
  lemma PanRightThenLeft(region: GenomicRegion, seqLength: uint64)
    requires CanPan(region, Right, seqLength) && region.End() + PanStep(region) <= seqLength
    ensures CanPan(Panned(region, Right, seqLength), Left, seqLength)
    ensures Panned(Panned(region, Right, seqLength), Left, seqLength) == region
  {
    var r := Panned(region, Right, seqLength);
    assert r.Len() == region.Len();
    assert PanStep(r) == PanStep(region);
  }

  /** A left pan that was not cut short is undone by a right pan, inside the contig. */
  lemma PanLeftThenRight(region: GenomicRegion, seqLength: uint64)
    requires CanPan(region, Left, seqLength) && PanStep(region) <= region.Start()
    requires region.End() <= seqLength
    ensures CanPan(Panned(region, Left, seqLength), Right, seqLength)
    ensures Panned(Panned(region, Left, seqLength), Right, seqLength) == region
  {
    var l := Panned(region, Left, seqLength);
    assert l.Len() == region.Len();
    assert PanStep(l) == PanStep(region);
  }

  /** Whether the frontend's cache already holds the alignments of the new region. */
  predicate InRefreshBound(boundState: BoundState)
  {
    boundState == WithinRefreshBound || boundState == OutsideRefreshBound
  }

  /**
   * The zoom, pan or buffering event of `update_focused_region`: inside the
   * refresh bounds a same-length region is a pan and any other a zoom, outside
   * the buffer the split announces buffering, and past the render range nothing.
   */
  function RegionEvent(boundState: BoundState, newLen: uint64, prevLen: uint64): (r: Option<Event>)
    ensures r == Some(RegionPanned) <==> InRefreshBound(boundState) && newLen == prevLen
    ensures r == Some(RegionZoomed) <==> InRefreshBound(boundState) && newLen != prevLen
    ensures r == Some(RegionBuffering) <==> boundState == OutsideBuffered
    ensures r.None? <==> boundState == OutsideRenderRange
  {
    match boundState
    case WithinRefreshBound | OutsideRefreshBound =>
      if newLen == prevLen then Some(RegionPanned) else Some(RegionZoomed)
    case OutsideBuffered => Some(RegionBuffering)
    case _ => None
  }

  /**
   * The sequence event: sent outside the buffer or the render range, queued
   * outside the refresh bound, and none inside it.
   */
  function SequenceEvent(boundState: BoundState): (r: Option<Event>)
    ensures r == Some(FocusedSequenceUpdated) <==> boundState == OutsideBuffered || boundState == OutsideRenderRange
    ensures r == Some(FocusedSequenceUpdateQueued) <==> boundState == OutsideRefreshBound
    ensures r.None? <==> boundState == WithinRefreshBound
  {
    match boundState
    case OutsideBuffered | OutsideRenderRange => Some(FocusedSequenceUpdated)
    case OutsideRefreshBound => Some(FocusedSequenceUpdateQueued)
    case WithinRefreshBound => None
  }

  /** The alignments event each track gets, by the same table as the sequence event. */
  function AlignmentsEvent(boundState: BoundState): (r: Option<Event>)
    ensures r == Some(AlignmentsUpdated) <==> boundState == OutsideBuffered || boundState == OutsideRenderRange
    ensures r == Some(AlignmentsUpdateQueued) <==> boundState == OutsideRefreshBound
    ensures r.None? <==> boundState == WithinRefreshBound
  {
    match boundState
    case OutsideBuffered | OutsideRenderRange => Some(AlignmentsUpdated)
    case OutsideRefreshBound => Some(AlignmentsUpdateQueued)
    case WithinRefreshBound => None
  }

  function Events(e: Option<Event>): seq<Event>
  {
    if e.Some? then [e.value] else []
  }

  /** One copy of the alignments event per track. */
  function PerTrack(e: Option<Event>, tracks: nat): (r: seq<Event>)
    ensures |r| == if e.Some? then tracks else 0
    ensures forall k :: 0 <= k < |r| ==> r[k] == e.value
  {
    if tracks == 0 || e.None? then [] else PerTrack(e, tracks - 1) + [e.value]
  }

  /**
   * The events `update_focused_region` emits, in order: none when the region
   * is unchanged; otherwise the focused-region update, the region event, the
   * sequence event and the alignments event of each track.
   */
  function UpdateEvents(current: GenomicRegion, region: GenomicRegion, boundState: BoundState, tracks: nat): seq<Event>
    requires current.Valid() && region.Valid()
  {
    if current == region then []
    else
      [FocusedRegionUpdated] + Events(RegionEvent(boundState, region.Len(), current.Len())) +
      Events(SequenceEvent(boundState)) + PerTrack(AlignmentsEvent(boundState), tracks)
  }

  /** The sequence and the alignments are refreshed, or queued, together. */
  lemma SequenceAndAlignmentsInStep(boundState: BoundState)
    ensures SequenceEvent(boundState).None? <==> AlignmentsEvent(boundState).None?
    ensures SequenceEvent(boundState) == Some(FocusedSequenceUpdateQueued) <==>
            AlignmentsEvent(boundState) == Some(AlignmentsUpdateQueued)
  {
  }

  /** The events of a changed region before the per-track ones. */
  function LeadingEvents(boundState: BoundState, newLen: uint64, prevLen: uint64): seq<Event>
  {
    [FocusedRegionUpdated] + Events(RegionEvent(boundState, newLen, prevLen)) + Events(SequenceEvent(boundState))
  }

  /** A changed region's events are the leading ones, then one alignments event per track. */
  lemma UpdateEventsSplit(current: GenomicRegion, region: GenomicRegion, boundState: BoundState, tracks: nat)
    requires current.Valid() && region.Valid() && current != region
    ensures UpdateEvents(current, region, boundState, tracks) ==
      LeadingEvents(boundState, region.Len(), current.Len()) + PerTrack(AlignmentsEvent(boundState), tracks)
  {
  }

  /**
   * What an update announces: nothing exactly when the region is unchanged;
   * otherwise the focused-region update comes first, a pan or zoom only inside
   * the refresh bounds, buffering only outside the buffer, and the new
   * sequence only outside the buffer or the render range.
   */
  lemma UpdateEventsCases(current: GenomicRegion, region: GenomicRegion, boundState: BoundState, tracks: nat)
    requires current.Valid() && region.Valid()
    ensures var events := UpdateEvents(current, region, boundState, tracks);
      (events == [] <==> current == region) &&
      (current != region ==> events[0] == FocusedRegionUpdated) &&
      (RegionPanned in events <==> current != region && InRefreshBound(boundState) && region.Len() == current.Len()) &&
      (RegionZoomed in events <==> current != region && InRefreshBound(boundState) && region.Len() != current.Len()) &&
      (RegionBuffering in events <==> current != region && boundState == OutsideBuffered) &&
      (FocusedSequenceUpdated in events <==>
         current != region && (boundState == OutsideBuffered || boundState == OutsideRenderRange))
  {
    if current != region {
      UpdateEventsSplit(current, region, boundState, tracks);
      var head := LeadingEvents(boundState, region.Len(), current.Len());
      var tail := PerTrack(AlignmentsEvent(boundState), tracks);
      assert RegionPanned !in tail && RegionZoomed !in tail && RegionBuffering !in tail;
      assert FocusedSequenceUpdated !in tail;
    }
  }

  /** Outside the buffer or the render range every track gets exactly one alignments update. */
  lemma UpdateEventsPerTrack(current: GenomicRegion, region: GenomicRegion, boundState: BoundState, tracks: nat)
    requires current.Valid() && region.Valid() && current != region
    requires boundState == OutsideBuffered || boundState == OutsideRenderRange
    ensures multiset(UpdateEvents(current, region, boundState, tracks))[AlignmentsUpdated] == tracks
  {
    UpdateEventsSplit(current, region, boundState, tracks);
    var head := LeadingEvents(boundState, region.Len(), current.Len());
    assert AlignmentsUpdated !in head;
    PerTrackCount(AlignmentsUpdated, tracks);
  }

  /** Every copy of a per-track event counts. */
  lemma {:induction false} PerTrackCount(e: Event, tracks: nat)
    ensures multiset(PerTrack(Some(e), tracks))[e] == tracks
  {
    if tracks > 0 {
      PerTrackCount(e, tracks - 1);
      assert PerTrack(Some(e), tracks) == PerTrack(Some(e), tracks - 1) + [e];
    }
  }

  /**
   * An illustration of the zoom case of `update_focused_region`: the grid setup that
   * fixes the bound state is not modelled, so the bound state here is chosen, not taken
   * from the test. A change of length inside the refresh bound is a zoom.
   */
  lemma ZoomExample()
    ensures var prev := GenomicRegion("euk_genes", GenomicInterval(0, 100));
      var next := GenomicRegion("euk_genes", GenomicInterval(800, 2200));
      UpdateEvents(prev, next, WithinRefreshBound, 1) == [FocusedRegionUpdated, RegionZoomed]
  {
  }

  /**
   * An illustration of the pan case, with the bound state chosen as outside the refresh
   * bound: 0-100 to 50-150 keeps the length, so it is a pan, and both updates are queued.
   */
  lemma PanExample()
    ensures var prev := GenomicRegion("euk_genes", GenomicInterval(0, 100));
      var next := GenomicRegion("euk_genes", GenomicInterval(50, 150));
      UpdateEvents(prev, next, OutsideRefreshBound, 1) ==
        [FocusedRegionUpdated, RegionPanned, FocusedSequenceUpdateQueued, AlignmentsUpdateQueued]
  {
  }

  /** Panning 0-100 left stays put at 0; panning it right moves it by 10 bp. */
  method PanExamples() returns (left: GenomicRegion, right: GenomicRegion)
    ensures left == GenomicRegion("euk_genes", GenomicInterval(0, 100))
    ensures right == GenomicRegion("euk_genes", GenomicInterval(10, 110))
  {
    var region := GenomicRegion("euk_genes", GenomicInterval(0, 100));
    left := PanFocusedRegion(region, Left, 1000);
    right := PanFocusedRegion(region, Right, 1000);
  }
}
