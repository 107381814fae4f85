/**
 * `DiffAlignments`: the differences between an aligned read and the reference
 * sequence, found by walking the read's aligned pairs (see the Cigar module)
 * and collapsing runs of one CIGAR operation into a single difference.
 *
 * The iterator is modelled twice: as functions over the pairs (`Collapse`,
 * `NextFrom`, `DiffsFrom`), which carry the properties, and as the class
 * `DiffAlignments`, whose methods step the same state as the source and are
 * proved to agree with those functions.
 */
module SequenceDiffs {
  import opened Wrappers
  import opened GenomicCoordinates
  import opened Sequence
  import Cigar
  import Records

  /** A difference between the read and the reference. */
  datatype SequenceDiff =
    | Mismatch(interval: GenomicInterval, sequence: seq<uint8>)  // an `M` or `X` base unlike the reference base
    | Ins(interval: GenomicInterval, sequence: seq<uint8>)       // bases absent from the reference (`I`)
    | Del(interval: GenomicInterval)                             // reference bases absent from the read (`D`)
    | SoftClip(interval: GenomicInterval, sequence: seq<uint8>)  // soft-clipped bases (`S`)
    | RefSkip(interval: GenomicInterval)                         // skipped reference bases, e.g. introns (`N`)

  /**
   * The pairs can be walked without a panic: every read position indexes the
   * read's bases, and every reference position leaves room for the `+ 1` of
   * an interval end.
   */
  predicate Fits(pairs: seq<Cigar.AlignedPair>, bases: seq<uint8>)
  {
    forall k :: 0 <= k < |pairs| ==>
      (pairs[k].readPos.Some? ==> pairs[k].readPos.value < |bases|) &&
      (pairs[k].refPos.Some? ==> pairs[k].refPos.value < U64_MAX)
  }

  /** The operations whose runs `collapse_diff` merges into one difference. */
  predicate Collapsible(k: Cigar.CigarKind)
  {
    k == Cigar.Ins || k == Cigar.SoftClip || k == Cigar.Del || k == Cigar.RefSkip
  }

  /** Where the collapse loop stopped: the last pair it took, the bases it gathered, the last reference position. */
  datatype Acc = Acc(last: nat, sequence: seq<uint8>, refPos: nat)

  /**
   * The `match` of the collapse loop: an inserted base adds its read base, a
   * deleted or skipped base moves the reference position, a soft-clipped base
   * with a reference position does both; any other pair ends the diff.
   */
  function Absorb(p: Cigar.AlignedPair, bases: seq<uint8>, sequence: seq<uint8>, cur: nat): Option<(seq<uint8>, nat)>
    requires p.readPos.Some? ==> p.readPos.value < |bases|
  {
    match p.op.kind
    case Ins => if p.readPos.Some? && p.refPos.None? then Some((sequence + [bases[p.readPos.value]], cur)) else None
    case Del | RefSkip => if p.refPos.Some? then Some((sequence, p.refPos.value)) else None
    case SoftClip =>
      if p.readPos.Some? && p.refPos.Some? then Some((sequence + [bases[p.readPos.value]], p.refPos.value)) else None
    case _ => None
  }

  /**
   * The collapse loop from pair `j` on, for a diff of operation `kind`: absorb
   * pair `j`, then move on while the next pair has the same operation.
   */
  function Collapse(pairs: seq<Cigar.AlignedPair>, bases: seq<uint8>, kind: Cigar.CigarKind, j: nat,
                    sequence: seq<uint8>, cur: nat): (c: Acc)
    requires j < |pairs| && Fits(pairs, bases)
    ensures j <= c.last < |pairs|
    ensures cur < U64_MAX ==> c.refPos < U64_MAX
    decreases |pairs| - j
  {
    var step := Absorb(pairs[j], bases, sequence, cur);
    if step.None? then Acc(j, sequence, cur)
    else if j + 1 >= |pairs| || pairs[j + 1].op.kind != kind then Acc(j, step.value.0, step.value.1)
    else Collapse(pairs, bases, kind, j + 1, step.value.0, step.value.1)
  }

  /** The diff a collapsed run makes; the interval is built with `try_into`, so an inverted one is an error. */
  function CollapsedDiff(kind: Cigar.CigarKind, start: uint64, c: Acc): (r: Result<SequenceDiff>)
    requires Collapsible(kind) && c.refPos < U64_MAX
    ensures r.Ok? ==> r.value.interval.Valid() && r.value.interval.start == start
  {
    var interval := NewInterval(start, if kind == Cigar.Ins then c.refPos else c.refPos + 1);
    if interval.Err? then Err(interval.error)
    else Ok(match kind
            case Ins => Ins(interval.value, c.sequence)
            case SoftClip => SoftClip(interval.value, c.sequence)
            case Del => Del(interval.value)
            case _ => RefSkip(interval.value))
  }

  /**
   * `handle_possible_mismatch`: a mismatch exactly when the read base differs
   * from the reference base, spanning that one reference base.
   */
  function MismatchAt(refseq: SequenceView, bases: seq<uint8>, readPos: nat, refPos: uint64): (d: Option<SequenceDiff>)
    requires readPos < |bases| && refseq.Contains(refPos) && refPos < U64_MAX
    ensures d.Some? <==> bases[readPos] != refseq.sequence[refPos - refseq.offset]
    ensures d.Some? ==> d.value == Mismatch(GenomicInterval(refPos, refPos + 1), [bases[readPos]])
  {
    var readBase := bases[readPos];
    var refBase := refseq.At(refPos);
    if readBase != refBase then Some(Mismatch(NewInterval(refPos, refPos + 1).value, [readBase])) else None
  }

  /** What one call of `next` returns, and the iterator's index and diff start afterwards. */
  datatype Step = Step(item: Option<Result<SequenceDiff>>, index: nat, start: uint64)

  /**
   * `next` from pair `idx` with diff start `start`: pairs whose reference
   * position is outside the view are skipped; a pair with a reference position
   * becomes the start of the next diff; `I`, `S`, `D` and `N` pairs are
   * collapsed; `M` and `X` pairs may be a mismatch; `=` pairs yield nothing.
   */
  function NextFrom(refseq: SequenceView, bases: seq<uint8>, pairs: seq<Cigar.AlignedPair>, idx: nat, start: uint64): (s: Step)
    requires Fits(pairs, bases) && start < U64_MAX && idx <= |pairs|
    ensures idx <= s.index <= |pairs| && s.start < U64_MAX
    ensures s.item.Some? ==> s.index > idx
    ensures s.item.None? ==> s.index == |pairs|
    decreases |pairs| - idx
  {
    if idx == |pairs| then Step(None, idx, start)
    else
      var p := pairs[idx];
      if p.refPos.Some? && !refseq.Contains(p.refPos.value) then NextFrom(refseq, bases, pairs, idx + 1, start)
      else
        var start' := if p.refPos.Some? then p.refPos.value else start;
        if Collapsible(p.op.kind) then
          var c := Collapse(pairs, bases, p.op.kind, idx, [], start');
          Step(Some(CollapsedDiff(p.op.kind, start', c)), c.last + 1, start')
        else if (p.op.kind == Cigar.Match || p.op.kind == Cigar.Diff) && p.readPos.Some? && p.refPos.Some? then
          var m := MismatchAt(refseq, bases, p.readPos.value, p.refPos.value);
          if m.Some? then Step(Some(Ok(m.value)), idx + 1, start')
          else NextFrom(refseq, bases, pairs, idx + 1, start')
        else NextFrom(refseq, bases, pairs, idx + 1, start')
  }

  /** `collect::<Result<Vec<_>>>()` from pair `idx`: every diff, or the first error. */
  function DiffsFrom(refseq: SequenceView, bases: seq<uint8>, pairs: seq<Cigar.AlignedPair>, idx: nat, start: uint64)
    : Result<seq<SequenceDiff>>
    requires Fits(pairs, bases) && start < U64_MAX && idx <= |pairs|
    decreases |pairs| - idx
  {
    var s := NextFrom(refseq, bases, pairs, idx, start);
    if s.item.None? then Ok([])
    else if s.item.value.Err? then Err(s.item.value.error)
    else
      var rest := DiffsFrom(refseq, bases, pairs, s.index, s.start);
      if rest.Err? then rest else Ok([s.item.value.value] + rest.value)
  }

  /** A collected prefix in front of the diffs still to come. */
  function Prepend(diffs: seq<SequenceDiff>, rest: Result<seq<SequenceDiff>>): Result<seq<SequenceDiff>>
  {
    if rest.Err? then rest else Ok(diffs + rest.value)
  }

  /**
   * The records the iterator can walk: a non-negative position, a CIGAR the
   * pair iterator accepts, at least as many bases as the CIGAR reads, and
   * reference positions that fit a `u64` interval end.
   */
  predicate DiffReady(record: Records.Record)
  {
    0 <= record.pos <= Records.I64_MAX && Cigar.Supported(record.cigar) &&
    Cigar.ReadLen(record.cigar) <= |record.bases| &&
    record.pos + Cigar.RefLen(record.cigar) <= U64_MAX
  }

  lemma {:induction false} ReadyFits(record: Records.Record)
    requires DiffReady(record)
    ensures Fits(Cigar.PairsOf(record.cigar, 0, record.pos), record.bases)
  {
    Cigar.PairsWithin(record.cigar, 0, record.pos);
  }

  /** `iter_sequence_diffs(record, refseq).collect()`. */
  function SequenceDiffsOf(record: Records.Record, refseq: SequenceView): Result<seq<SequenceDiff>>
    requires DiffReady(record)
  {
    ReadyFits(record);
    DiffsFrom(refseq, record.bases, Cigar.PairsOf(record.cigar, 0, record.pos), 0, record.pos)
  }

  /** Every diff spans a valid interval: its start is at most its end. */
  predicate ValidDiffs(diffs: seq<SequenceDiff>)
  {
    forall k :: 0 <= k < |diffs| ==> diffs[k].interval.Valid()
  }

  /** The diff one call of `next` yields has a valid interval. */
  lemma {:induction false} NextFromValid(refseq: SequenceView, bases: seq<uint8>, pairs: seq<Cigar.AlignedPair>,
                                         idx: nat, start: uint64)
    requires Fits(pairs, bases) && start < U64_MAX && idx <= |pairs|
    ensures var s := NextFrom(refseq, bases, pairs, idx, start);
      s.item.Some? && s.item.value.Ok? ==> s.item.value.value.interval.Valid()
    decreases |pairs| - idx
  {
    if idx < |pairs| {
      var p := pairs[idx];
      if p.refPos.Some? && !refseq.Contains(p.refPos.value) {
        NextFromValid(refseq, bases, pairs, idx + 1, start);
      } else if !Collapsible(p.op.kind) {
        NextFromValid(refseq, bases, pairs, idx + 1, if p.refPos.Some? then p.refPos.value else start);
      }
    }
  }

  /** Every collected diff has a valid interval. */
  lemma {:induction false} DiffsFromValid(refseq: SequenceView, bases: seq<uint8>, pairs: seq<Cigar.AlignedPair>,
                                          idx: nat, start: uint64)
    requires Fits(pairs, bases) && start < U64_MAX && idx <= |pairs|
    ensures DiffsFrom(refseq, bases, pairs, idx, start).Ok? ==> ValidDiffs(DiffsFrom(refseq, bases, pairs, idx, start).value)
    decreases |pairs| - idx
  {
    var s := NextFrom(refseq, bases, pairs, idx, start);
    NextFromValid(refseq, bases, pairs, idx, start);
    if s.item.Some? && s.item.value.Ok? {
      DiffsFromValid(refseq, bases, pairs, s.index, s.start);
    }
  }

  /** The diffs of a record all have valid intervals. */
  lemma SequenceDiffsValid(record: Records.Record, refseq: SequenceView)
    requires DiffReady(record)
    ensures SequenceDiffsOf(record, refseq).Ok? ==> ValidDiffs(SequenceDiffsOf(record, refseq).value)
  {
    ReadyFits(record);
    DiffsFromValid(refseq, record.bases, Cigar.PairsOf(record.cigar, 0, record.pos), 0, record.pos);
  }

  class DiffAlignments {
    const refseq: SequenceView
    var currentDiffRefStart: uint64
    const recordSequence: seq<uint8>
    var alignedPairIndex: nat
    const alignedPairs: seq<Cigar.AlignedPair>

    ghost predicate Valid()
      reads this
    {
      Fits(alignedPairs, recordSequence) && currentDiffRefStart < U64_MAX && alignedPairIndex <= |alignedPairs|
    }

    /** `DiffAlignments::new`: the diff start is the record's position and the pairs are all collected up front. */
    constructor(record: Records.Record, refseq: SequenceView)
      requires DiffReady(record)
      ensures Valid()
      ensures this.refseq == refseq && recordSequence == record.bases
      ensures currentDiffRefStart == record.pos && alignedPairIndex == 0
      ensures alignedPairs == Cigar.PairsOf(record.cigar, 0, record.pos)
    {
      var pairs := Cigar.CollectPairs(record.pos, record.cigar);
      ReadyFits(record);
      this.refseq := refseq;
      currentDiffRefStart := record.pos;
      recordSequence := record.bases;
      alignedPairIndex := 0;
      alignedPairs := pairs;
    }

    /** `collapse_diff`: merge the run that starts at the current pair; the index is left on its last pair. */
    method CollapseDiff() returns (r: Result<SequenceDiff>)
      requires Valid() && alignedPairIndex < |alignedPairs| && Collapsible(alignedPairs[alignedPairIndex].op.kind)
      modifies this
      ensures Valid() && currentDiffRefStart == old(currentDiffRefStart)
      ensures var kind := alignedPairs[old(alignedPairIndex)].op.kind;
        var c := Collapse(alignedPairs, recordSequence, kind, old(alignedPairIndex), [], currentDiffRefStart);
        alignedPairIndex == c.last && r == CollapsedDiff(kind, currentDiffRefStart, c)
    {
      var last;
      r, last := CollapseRun(alignedPairs, recordSequence, alignedPairIndex, currentDiffRefStart);
      alignedPairIndex := last;
    }

    /** The loop of `collapse_diff` on the iterator's fields. */
    static method CollapseRun(pairs: seq<Cigar.AlignedPair>, bases: seq<uint8>, idx: nat, start: uint64)
      returns (r: Result<SequenceDiff>, last: nat)
      requires Fits(pairs, bases) && start < U64_MAX && idx < |pairs| && Collapsible(pairs[idx].op.kind)
      ensures var c := Collapse(pairs, bases, pairs[idx].op.kind, idx, [], start);
        last == c.last && r == CollapsedDiff(pairs[idx].op.kind, start, c)
    {
      var initial := pairs[idx];
      var pair := initial;
      var sequence: seq<uint8> := [];
      var cur: nat := start;
      last := idx;
      ghost var target := Collapse(pairs, bases, initial.op.kind, idx, [], start);
      while true
        invariant idx <= last < |pairs| && pair == pairs[last] && cur < U64_MAX
        invariant Collapse(pairs, bases, initial.op.kind, last, sequence, cur) == target
        decreases |pairs| - last
      {
        if pair.op.kind == Cigar.Ins && pair.readPos.Some? && pair.refPos.None? {
          sequence := sequence + [bases[pair.readPos.value]];
        } else if (pair.op.kind == Cigar.Del || pair.op.kind == Cigar.RefSkip) && pair.refPos.Some? {
          cur := pair.refPos.value;
        } else if pair.op.kind == Cigar.SoftClip && pair.readPos.Some? && pair.refPos.Some? {
          sequence := sequence + [bases[pair.readPos.value]];
          cur := pair.refPos.value;
        } else {
          break;
        }
        if last + 1 >= |pairs| {
          break;
        }
        pair := pairs[last + 1];
        if pair.op.kind != initial.op.kind {
          break;
        }
        last := last + 1;
      }
      r := MakeDiff(initial.op.kind, start, Acc(last, sequence, cur));
    }

    /** The end of `collapse_diff`: the interval from the diff start, and the diff of the run's operation. */
    static method MakeDiff(kind: Cigar.CigarKind, start: uint64, c: Acc) returns (r: Result<SequenceDiff>)
      requires Collapsible(kind) && c.refPos < U64_MAX
      ensures r == CollapsedDiff(kind, start, c)
    {
      var interval := NewInterval(start, if kind == Cigar.Ins then c.refPos else c.refPos + 1);
      if interval.Err? {
        return Err(interval.error);
      }
      match kind {
        case Ins => r := Ok(Ins(interval.value, c.sequence));
        case SoftClip => r := Ok(SoftClip(interval.value, c.sequence));
        case Del => r := Ok(Del(interval.value));
        case RefSkip => r := Ok(RefSkip(interval.value));
      }
    }

    /** `handle_possible_mismatch`: compare the read base with the reference base. */
    method HandlePossibleMismatch(readPos: nat, refPos: uint64) returns (d: Option<SequenceDiff>)
      requires readPos < |recordSequence| && refseq.Contains(refPos) && refPos < U64_MAX
      ensures d == MismatchAt(refseq, recordSequence, readPos, refPos)
    {
      var readBase := recordSequence[readPos];
      var refBase := refseq.At(refPos);
      if readBase != refBase {
        var interval := NewInterval(refPos, refPos + 1);
        return Some(Mismatch(interval.value, [readBase]));
      }
      return None;
    }

    /** `next`: the next diff, or None once every pair has been visited. */
    method Next() returns (item: Option<Result<SequenceDiff>>)
      requires Valid()
      modifies this
      ensures Valid()
      ensures Step(item, alignedPairIndex, currentDiffRefStart) ==
        NextFrom(refseq, recordSequence, alignedPairs, old(alignedPairIndex), old(currentDiffRefStart))
    {
      var idx, start;
      item, idx, start := NextRun(refseq, recordSequence, alignedPairs, alignedPairIndex, currentDiffRefStart);
      alignedPairIndex, currentDiffRefStart := idx, start;
    }

    /** The loop of `next` on the iterator's fields. */
    static method NextRun(refseq: SequenceView, bases: seq<uint8>, pairs: seq<Cigar.AlignedPair>, from: nat, start: uint64)
      returns (item: Option<Result<SequenceDiff>>, idx: nat, diffStart: uint64)
      requires Fits(pairs, bases) && start < U64_MAX && from <= |pairs|
      ensures Step(item, idx, diffStart) == NextFrom(refseq, bases, pairs, from, start)
    {
      idx, diffStart := from, start;
      ghost var target := NextFrom(refseq, bases, pairs, from, start);
      while idx < |pairs|
        invariant idx <= |pairs| && diffStart < U64_MAX
        invariant NextFrom(refseq, bases, pairs, idx, diffStart) == target
        decreases |pairs| - idx
      {
        var pair := pairs[idx];
        if pair.refPos.Some? {
          if !refseq.Contains(pair.refPos.value) {
            idx := idx + 1;
            continue;
          }
          diffStart := pair.refPos.value;
        }
        var maybeDiff: Option<Result<SequenceDiff>> := None;
        if Collapsible(pair.op.kind) {
          var d, last := CollapseRun(pairs, bases, idx, diffStart);
          maybeDiff, idx := Some(d), last;
        } else if (pair.op.kind == Cigar.Match || pair.op.kind == Cigar.Diff) && pair.readPos.Some? && pair.refPos.Some? {
          var m := MismatchAt(refseq, bases, pair.readPos.value, pair.refPos.value);
          if m.Some? {
            maybeDiff := Some(Ok(m.value));
          }
        }
        idx := idx + 1;
        if maybeDiff.Some? {
          return maybeDiff, idx, diffStart;
        }
      }
      return None, idx, diffStart;
    }

    /** `collect::<Result<Vec<SequenceDiff>>>()`: drain the iterator, stopping at the first error. */
    method Collect() returns (r: Result<seq<SequenceDiff>>)
      requires Valid()
      modifies this
      ensures r == DiffsFrom(refseq, recordSequence, alignedPairs, old(alignedPairIndex), old(currentDiffRefStart))
    {
      var diffs: seq<SequenceDiff> := [];
      ghost var target := DiffsFrom(refseq, recordSequence, alignedPairs, alignedPairIndex, currentDiffRefStart);
      assert diffs + (if target.Ok? then target.value else []) == (if target.Ok? then target.value else []);
      while true
        invariant Valid()
        invariant target == Prepend(diffs, DiffsFrom(refseq, recordSequence, alignedPairs, alignedPairIndex, currentDiffRefStart))
        decreases |alignedPairs| - alignedPairIndex
      {
        ghost var rest := DiffsFrom(refseq, recordSequence, alignedPairs, alignedPairIndex, currentDiffRefStart);
        var item := Next();
        if item.None? {
          assert diffs + [] == diffs;
          return Ok(diffs);
        }
        if item.value.Err? {
          return Err(item.value.error);
        }
        ghost var tail := DiffsFrom(refseq, recordSequence, alignedPairs, alignedPairIndex, currentDiffRefStart);
        if tail.Ok? {
          Cigar.Assoc(diffs, [item.value.value], tail.value);
        }
        diffs := diffs + [item.value.value];
      }
    }
  }

  /** `iter_sequence_diffs(record, refseq).collect()` run on the iterator object. */
  method CollectDiffs(record: Records.Record, refseq: SequenceView) returns (r: Result<seq<SequenceDiff>>)
    requires DiffReady(record)
    ensures r == SequenceDiffsOf(record, refseq)
  {
    var diffs := new DiffAlignments(record, refseq);
    r := diffs.Collect();
  }

  /**
   * A run of `n` deleted or skipped reference bases starting at `g`, followed
   * by another operation or the end, collapses onto its last pair and moves
   * the reference position to `g + n - 1`, gathering no bases.
   */
  lemma {:induction false} DelRunCollapses(pairs: seq<Cigar.AlignedPair>, bases: seq<uint8>, op: Cigar.CigarOp,
                                           j: nat, n: nat, g: nat, sequence: seq<uint8>, cur: nat)
    requires Fits(pairs, bases) && (op.kind == Cigar.Del || op.kind == Cigar.RefSkip)
    requires 1 <= n && j + n <= |pairs| && pairs[j..j + n] == Cigar.DelRun(op, n, g)
    requires j + n == |pairs| || pairs[j + n].op.kind != op.kind
    ensures Collapse(pairs, bases, op.kind, j, sequence, cur) == Acc(j + n - 1, sequence, g + n - 1)
    decreases n
  {
    assert pairs[j] == pairs[j..j + n][0];
    if n > 1 {
      assert pairs[j + 1..j + n] == pairs[j..j + n][1..];
      assert pairs[j + 1] == pairs[j + 1..j + n][0];
      DelRunCollapses(pairs, bases, op, j + 1, n - 1, g + 1, sequence, g);
    }
  }

  /**
   * A run of `n` inserted bases read from position `r`, followed by another
   * operation or the end, collapses onto its last pair, gathers exactly the
   * read bases `r .. r + n` and leaves the reference position alone.
   */
  lemma {:induction false} InsRunCollapses(pairs: seq<Cigar.AlignedPair>, bases: seq<uint8>, op: Cigar.CigarOp,
                                           j: nat, n: nat, r: nat, sequence: seq<uint8>, cur: nat)
    requires Fits(pairs, bases) && op.kind == Cigar.Ins
    requires 1 <= n && j + n <= |pairs| && pairs[j..j + n] == Cigar.InsRun(op, n, r)
    requires j + n == |pairs| || pairs[j + n].op.kind != op.kind
    ensures r + n <= |bases|
    ensures Collapse(pairs, bases, op.kind, j, sequence, cur) == Acc(j + n - 1, sequence + bases[r..r + n], cur)
    decreases n
  {
    assert pairs[j] == pairs[j..j + n][0];
    assert r < |bases|;
    if n == 1 {
      assert bases[r..r + n] == [bases[r]];
    } else {
      assert pairs[j + 1..j + n] == pairs[j..j + n][1..];
      assert pairs[j + 1] == pairs[j + 1..j + n][0];
      InsRunCollapses(pairs, bases, op, j + 1, n - 1, r + 1, sequence + [bases[r]], cur);
      assert bases[r..r + n] == [bases[r]] + bases[r + 1..r + n];
      Cigar.Assoc(sequence, [bases[r]], bases[r + 1..r + n]);
    }
  }

  /**
   * `next` on a deletion (or reference skip) of `n` bases at `g` inside the
   * view yields one diff spanning `g .. g + n` and moves past the whole run.
   */
  lemma {:induction false} DelRunIsOneDiff(refseq: SequenceView, pairs: seq<Cigar.AlignedPair>, bases: seq<uint8>,
                                           op: Cigar.CigarOp, idx: nat, n: nat, g: nat, start: uint64)
    requires Fits(pairs, bases) && start < U64_MAX && (op.kind == Cigar.Del || op.kind == Cigar.RefSkip)
    requires 1 <= n && idx + n <= |pairs| && pairs[idx..idx + n] == Cigar.DelRun(op, n, g)
    requires idx + n == |pairs| || pairs[idx + n].op.kind != op.kind
    requires g < U64_MAX && refseq.Contains(g)
    ensures g + n <= U64_MAX
    ensures var interval := GenomicInterval(g, g + n);
      NextFrom(refseq, bases, pairs, idx, start) ==
        Step(Some(Ok(if op.kind == Cigar.Del then Del(interval) else RefSkip(interval))), idx + n, g)
  {
    assert pairs[idx] == pairs[idx..idx + n][0];
    DelRunCollapses(pairs, bases, op, idx, n, g, [], g);
  }

  /**
   * `next` on an insertion of `n` bases read from `r` yields one empty
   * interval at the current diff start holding exactly those bases.
   */
  lemma {:induction false} InsRunIsOneDiff(refseq: SequenceView, pairs: seq<Cigar.AlignedPair>, bases: seq<uint8>,
                                           op: Cigar.CigarOp, idx: nat, n: nat, r: nat, start: uint64)
    requires Fits(pairs, bases) && start < U64_MAX && op.kind == Cigar.Ins
    requires 1 <= n && idx + n <= |pairs| && pairs[idx..idx + n] == Cigar.InsRun(op, n, r)
    requires idx + n == |pairs| || pairs[idx + n].op.kind != op.kind
    ensures r + n <= |bases|
    ensures NextFrom(refseq, bases, pairs, idx, start) ==
      Step(Some(Ok(Ins(GenomicInterval(start, start), bases[r..r + n]))), idx + n, start)
  {
    assert pairs[idx] == pairs[idx..idx + n][0];
    InsRunCollapses(pairs, bases, op, idx, n, r, [], start);
    assert [] + bases[r..r + n] == bases[r..r + n];
  }

  /**
   * A pair that can never give a diff: its reference base lies outside the
   * view, or it is an `=` or `H` pair, or an `M`/`X` pair whose read base
   * equals the reference base.
   */
  predicate Silent(refseq: SequenceView, bases: seq<uint8>, p: Cigar.AlignedPair)
    requires p.readPos.Some? ==> p.readPos.value < |bases|
    requires p.refPos.Some? ==> p.refPos.value < U64_MAX
  {
    (p.refPos.Some? && !refseq.Contains(p.refPos.value)) ||
    p.op.kind == Cigar.Equal || p.op.kind == Cigar.HardClip ||
    ((p.op.kind == Cigar.Match || p.op.kind == Cigar.Diff) && p.readPos.Some? && p.refPos.Some? &&
     refseq.Contains(p.refPos.value) && bases[p.readPos.value] == refseq.sequence[p.refPos.value - refseq.offset])
  }

  /** When every pair left is silent the iterator is exhausted: there are no more diffs. */
  lemma {:induction false} SilentPairsGiveNoDiffs(refseq: SequenceView, bases: seq<uint8>, pairs: seq<Cigar.AlignedPair>,
                                                  idx: nat, start: uint64)
    requires Fits(pairs, bases) && start < U64_MAX && idx <= |pairs|
    requires forall k :: idx <= k < |pairs| ==> Silent(refseq, bases, pairs[k])
    ensures NextFrom(refseq, bases, pairs, idx, start) == Step(None, |pairs|, NextFrom(refseq, bases, pairs, idx, start).start)
    ensures DiffsFrom(refseq, bases, pairs, idx, start) == Ok([])
    decreases |pairs| - idx
  {
    if idx < |pairs| {
      var p := pairs[idx];
      assert Silent(refseq, bases, p);
      var start' := if p.refPos.Some? && refseq.Contains(p.refPos.value) then p.refPos.value else start;
      SilentPairsGiveNoDiffs(refseq, bases, pairs, idx + 1, start');
    }
  }

  /**
   * `next` walks over silent pairs without yielding: starting at `idx` is the
   * same as starting at `stop`, with the diff start moved to the last
   * reference position seen inside the view.
   */
  lemma {:induction false} SkipSilent(refseq: SequenceView, bases: seq<uint8>, pairs: seq<Cigar.AlignedPair>,
                                      idx: nat, stop: nat, start: uint64) returns (start': uint64)
    requires Fits(pairs, bases) && start < U64_MAX && idx <= stop <= |pairs|
    requires forall k :: idx <= k < stop ==> Silent(refseq, bases, pairs[k])
    ensures start' < U64_MAX && (idx == stop ==> start' == start)
    ensures idx < stop && pairs[stop - 1].refPos.Some? && refseq.Contains(pairs[stop - 1].refPos.value) ==>
      start' == pairs[stop - 1].refPos.value
    ensures NextFrom(refseq, bases, pairs, idx, start) == NextFrom(refseq, bases, pairs, stop, start')
    ensures DiffsFrom(refseq, bases, pairs, idx, start) == DiffsFrom(refseq, bases, pairs, stop, start')
    decreases stop - idx
  {
    if idx == stop {
      start' := start;
    } else {
      assert Silent(refseq, bases, pairs[idx]);
      var next := SilentStep(refseq, bases, pairs, idx, start);
      start' := SkipSilent(refseq, bases, pairs, idx + 1, stop, next);
    }
  }

  /** One silent pair: `next` passes it, taking its reference position as the diff start when it lies in the view. */
  lemma {:induction false} SilentStep(refseq: SequenceView, bases: seq<uint8>, pairs: seq<Cigar.AlignedPair>,
                                      idx: nat, start: uint64) returns (next: uint64)
    requires Fits(pairs, bases) && start < U64_MAX && idx < |pairs| && Silent(refseq, bases, pairs[idx])
    ensures next < U64_MAX
    ensures next == if pairs[idx].refPos.Some? && refseq.Contains(pairs[idx].refPos.value) then pairs[idx].refPos.value else start
    ensures NextFrom(refseq, bases, pairs, idx, start) == NextFrom(refseq, bases, pairs, idx + 1, next)
    ensures DiffsFrom(refseq, bases, pairs, idx, start) == DiffsFrom(refseq, bases, pairs, idx + 1, next)
  {
    var p := pairs[idx];
    next := if p.refPos.Some? && refseq.Contains(p.refPos.value) then p.refPos.value else start;
    assert NextFrom(refseq, bases, pairs, idx, start) == NextFrom(refseq, bases, pairs, idx + 1, next);
  }

  /**
   * A soft clip of two or more bases, as written: the loop absorbs the first
   * pair, steps onto the second and stops there, because that pair has no
   * reference position; the diff holds the first base only, and `next` then
   * steps past the second pair without reading it.
   */
  lemma {:induction false} SoftClipCollapsesAsWritten(pairs: seq<Cigar.AlignedPair>, bases: seq<uint8>,
                                                      op: Cigar.CigarOp, j: nat, r: nat, g: nat)
    requires Fits(pairs, bases) && op.kind == Cigar.SoftClip && op.len >= 2
    requires j + op.len <= |pairs| && pairs[j..j + op.len] == Cigar.OpPairs(op, r, g)
    ensures g < U64_MAX && r + 1 < |bases|
    ensures Collapse(pairs, bases, Cigar.SoftClip, j, [], g) == Acc(j + 1, [bases[r]], g)
    ensures CollapsedDiff(Cigar.SoftClip, g, Collapse(pairs, bases, Cigar.SoftClip, j, [], g)) ==
      Ok(SoftClip(GenomicInterval(g, g + 1), [bases[r]]))
  {
    Cigar.SoftClipPairs(op, r, g);
    assert pairs[j] == pairs[j..j + op.len][0];
    assert pairs[j + 1] == pairs[j..j + op.len][1];
  }

  /**
   * The collapse step as evidently intended for soft clips: every clipped base
   * joins the diff, and only a pair with a reference position moves it.
   */
  function AbsorbIntended(p: Cigar.AlignedPair, bases: seq<uint8>, sequence: seq<uint8>, cur: nat): Option<(seq<uint8>, nat)>
    requires p.readPos.Some? ==> p.readPos.value < |bases|
  {
    if p.op.kind == Cigar.SoftClip then
      if p.readPos.Some? then Some((sequence + [bases[p.readPos.value]], if p.refPos.Some? then p.refPos.value else cur))
      else None
    else Absorb(p, bases, sequence, cur)
  }

  /** The collapse loop with the intended soft-clip step. */
  function CollapseIntended(pairs: seq<Cigar.AlignedPair>, bases: seq<uint8>, kind: Cigar.CigarKind, j: nat,
                            sequence: seq<uint8>, cur: nat): (c: Acc)
    requires j < |pairs| && Fits(pairs, bases)
    ensures j <= c.last < |pairs|
    ensures cur < U64_MAX ==> c.refPos < U64_MAX
    decreases |pairs| - j
  {
    var step := AbsorbIntended(pairs[j], bases, sequence, cur);
    if step.None? then Acc(j, sequence, cur)
    else if j + 1 >= |pairs| || pairs[j + 1].op.kind != kind then Acc(j, step.value.0, step.value.1)
    else CollapseIntended(pairs, bases, kind, j + 1, step.value.0, step.value.1)
  }

  /** The clipped bases after the first, gathered one each without moving the reference position. */
  lemma {:induction false} ClipTailCollapsesIntended(pairs: seq<Cigar.AlignedPair>, bases: seq<uint8>, op: Cigar.CigarOp,
                                                     j: nat, n: nat, r: nat, sequence: seq<uint8>, cur: nat)
    requires Fits(pairs, bases) && op.kind == Cigar.SoftClip
    requires 1 <= n && j + n <= |pairs| && pairs[j..j + n] == Cigar.InsRun(op, n, r)
    requires j + n == |pairs| || pairs[j + n].op.kind != op.kind
    ensures r + n <= |bases|
    ensures CollapseIntended(pairs, bases, op.kind, j, sequence, cur) == Acc(j + n - 1, sequence + bases[r..r + n], cur)
    decreases n
  {
    assert pairs[j] == pairs[j..j + n][0];
    assert r < |bases|;
    if n == 1 {
      assert bases[r..r + n] == [bases[r]];
    } else {
      assert pairs[j + 1..j + n] == pairs[j..j + n][1..];
      assert pairs[j + 1] == pairs[j + 1..j + n][0];
      ClipTailCollapsesIntended(pairs, bases, op, j + 1, n - 1, r + 1, sequence + [bases[r]], cur);
      assert bases[r..r + n] == [bases[r]] + bases[r + 1..r + n];
      Cigar.Assoc(sequence, [bases[r]], bases[r + 1..r + n]);
    }
  }

  /**
   * With the intended step, a soft clip of `n` bases read from `r`, followed
   * by another operation or the end, collapses onto its last pair, gathering
   * every clipped base exactly once, in read order, and keeping the first
   * clipped base's reference position.
   */
  lemma {:induction false} SoftClipCollapsesIntended(pairs: seq<Cigar.AlignedPair>, bases: seq<uint8>,
                                                     op: Cigar.CigarOp, j: nat, r: nat, g: nat)
    requires Fits(pairs, bases) && op.kind == Cigar.SoftClip && op.len >= 1
    requires j + op.len <= |pairs| && pairs[j..j + op.len] == Cigar.OpPairs(op, r, g)
    requires j + op.len == |pairs| || pairs[j + op.len].op.kind != op.kind
    ensures g < U64_MAX && r + op.len <= |bases|
    ensures CollapseIntended(pairs, bases, Cigar.SoftClip, j, [], g) == Acc(j + op.len - 1, bases[r..r + op.len], g)
  {
    var n := op.len;
    assert pairs[j] == pairs[j..j + n][0];
    assert r < |bases| && g < U64_MAX;
    assert [] + [bases[r]] == [bases[r]];
    if n == 1 {
      assert bases[r..r + n] == [bases[r]];
    } else {
      assert pairs[j + 1..j + n] == pairs[j..j + n][1..];
      assert pairs[j + 1] == pairs[j + 1..j + n][0];
      ClipTailCollapsesIntended(pairs, bases, op, j + 1, n - 1, r + 1, [bases[r]], g);
      assert bases[r..r + n] == [bases[r]] + bases[r + 1..r + n];
    }
  }

  /**
   * The diff the intended collapse makes of such a soft clip: one base wide at
   * the first clipped base's reference position, holding all clipped bases.
   */
  lemma SoftClipDiffIntended(pairs: seq<Cigar.AlignedPair>, bases: seq<uint8>, op: Cigar.CigarOp, j: nat, r: nat, g: nat)
    requires Fits(pairs, bases) && op.kind == Cigar.SoftClip && op.len >= 1
    requires j + op.len <= |pairs| && pairs[j..j + op.len] == Cigar.OpPairs(op, r, g)
    requires j + op.len == |pairs| || pairs[j + op.len].op.kind != op.kind
    ensures g < U64_MAX && r + op.len <= |bases|
    ensures CollapsedDiff(Cigar.SoftClip, g, CollapseIntended(pairs, bases, Cigar.SoftClip, j, [], g)) ==
      Ok(SoftClip(GenomicInterval(g, g + 1), bases[r..r + op.len]))
  {
    SoftClipCollapsesIntended(pairs, bases, op, j, r, g);
  }
}
