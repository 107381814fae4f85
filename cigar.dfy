/**
 * CIGAR interpretation (the CIGAR field of section 1.4 of the SAMv1
 * specification) as done by `IterAlignedPairsCigar`: each operation becomes a
 * run of (operation, read position, reference position) pairs.
 *
 * One deliberate deviation from SAMv1 is kept: the first base of a soft clip
 * consumes a reference position, so that the clip can be drawn on the reference.
 */
module Cigar {
  import opened Wrappers

  /** The operations `MIDNSHP=X`. */
  datatype CigarKind = Match | Ins | Del | RefSkip | SoftClip | HardClip | Pad | Equal | Diff

  datatype CigarOp = CigarOp(kind: CigarKind, len: uint32)

  /** One item of the iterator: the operation, the read position, the reference position. */
  datatype AlignedPair = AlignedPair(op: CigarOp, readPos: Option<nat>, refPos: Option<nat>)

  predicate ConsumesBoth(k: CigarKind) { k == Match || k == Equal || k == Diff }

  /**
   * The operations the iterator can walk: no padding (it panics on `P`), and
   * every operation it steps through has a positive length (it computes `len - 1`).
   */
  predicate Supported(cigar: seq<CigarOp>)
  {
    forall i :: 0 <= i < |cigar| ==> cigar[i].kind != Pad && (cigar[i].kind != HardClip ==> cigar[i].len >= 1)
  }

  /** How far an operation moves the read position. */
  function ReadAdvance(op: CigarOp): nat
  {
    match op.kind
    case Match | Equal | Diff | Ins | SoftClip => op.len
    case Del | RefSkip | HardClip | Pad => 0
  }

  /** How far an operation moves the reference position; a soft clip moves it by one. */
  function RefAdvance(op: CigarOp): nat
  {
    match op.kind
    case Match | Equal | Diff | Del | RefSkip => op.len
    case SoftClip => if op.len == 0 then 0 else 1
    case Ins | HardClip | Pad => 0
  }

  function ReadLen(cigar: seq<CigarOp>): nat
  {
    if cigar == [] then 0 else ReadAdvance(cigar[0]) + ReadLen(cigar[1..])
  }

  function RefLen(cigar: seq<CigarOp>): nat
  {
    if cigar == [] then 0 else RefAdvance(cigar[0]) + RefLen(cigar[1..])
  }

  /**
   * The reference span of section 1.4 of the SAMv1 specification (what htslib's
   * `end_pos` adds to the position): the lengths of the `M`, `D`, `N`, `=` and
   * `X` operations. Unlike `RefLen` it gives soft clips no reference base.
   */
  function SpanLen(cigar: seq<CigarOp>): nat
  {
    if cigar == [] then 0
    else (match cigar[0].kind
          case Match | Del | RefSkip | Equal | Diff => cigar[0].len
          case _ => 0) + SpanLen(cigar[1..])
  }

  /** The reference span never exceeds the reference length the pair iterator walks. */
  lemma {:induction false} SpanWithinRefLen(cigar: seq<CigarOp>)
    ensures SpanLen(cigar) <= RefLen(cigar)
  {
    if cigar != [] {
      SpanWithinRefLen(cigar[1..]);
    }
  }

  /**
   * Pair `p` carries a read position, if any, in `[r0, r1)` and a reference
   * position, if any, in `[g0, g1)`.
   */
  predicate Within(p: AlignedPair, r0: nat, r1: nat, g0: nat, g1: nat)
  {
    (p.readPos.Some? ==> r0 <= p.readPos.value < r1) &&
    (p.refPos.Some? ==> g0 <= p.refPos.value < g1)
  }

  /** `n` pairs advancing both positions. */
  function MatchRun(op: CigarOp, n: nat, r: nat, g: nat): seq<AlignedPair>
  {
    if n == 0 then [] else [AlignedPair(op, Some(r), Some(g))] + MatchRun(op, n - 1, r + 1, g + 1)
  }

  /** `n` pairs with read positions only. */
  function InsRun(op: CigarOp, n: nat, r: nat): seq<AlignedPair>
  {
    if n == 0 then [] else [AlignedPair(op, Some(r), None)] + InsRun(op, n - 1, r + 1)
  }

  /** `n` pairs with reference positions only. */
  function DelRun(op: CigarOp, n: nat, g: nat): seq<AlignedPair>
  {
    if n == 0 then [] else [AlignedPair(op, None, Some(g))] + DelRun(op, n - 1, g + 1)
  }

  /** The pairs one operation yields when it starts at read position `r` and reference position `g`. */
  function OpPairs(op: CigarOp, r: nat, g: nat): seq<AlignedPair>
  {
    match op.kind
    case Match | Equal | Diff => MatchRun(op, op.len, r, g)
    case Ins => InsRun(op, op.len, r)
    case SoftClip => if op.len == 0 then [] else [AlignedPair(op, Some(r), Some(g))] + InsRun(op, op.len - 1, r + 1)
    case Del | RefSkip => DelRun(op, op.len, g)
    case HardClip | Pad => []
  }

  /** Every pair the iterator yields for `cigar` started at read position `r` and reference position `g`. */
  function PairsOf(cigar: seq<CigarOp>, r: nat, g: nat): seq<AlignedPair>
  {
    if cigar == [] then []
    else OpPairs(cigar[0], r, g) + PairsOf(cigar[1..], r + ReadAdvance(cigar[0]), g + RefAdvance(cigar[0]))
  }

  /**
   * Each read position of a pair lies in `[r, r + ReadLen)` and each reference
   * position in `[g, g + RefLen)`.
   */
  lemma {:induction false} PairsWithin(cigar: seq<CigarOp>, r: nat, g: nat)
    ensures var ps := PairsOf(cigar, r, g);
      forall k :: 0 <= k < |ps| ==> Within(ps[k], r, r + ReadLen(cigar), g, g + RefLen(cigar))
  {
    if cigar != [] {
      PairsWithin(cigar[1..], r + ReadAdvance(cigar[0]), g + RefAdvance(cigar[0]));
      OpWithin(cigar[0], r, g);
      PairsCons(cigar, r, g);
    }
  }

  /** The pairs of one operation stay within the positions it advances over. */
  lemma {:induction false} OpWithin(op: CigarOp, r: nat, g: nat)
    ensures var ps := OpPairs(op, r, g);
      forall k :: 0 <= k < |ps| ==> Within(ps[k], r, r + ReadAdvance(op), g, g + RefAdvance(op))
  {
    match op.kind
    case Match | Equal | Diff =>
      MatchRunWithin(op, op.len, r, g);
    case Ins =>
      InsRunWithin(op, op.len, r);
    case SoftClip =>
      if op.len > 0 {
        InsRunWithin(op, op.len - 1, r + 1);
      }
    case Del | RefSkip =>
      DelRunWithin(op, op.len, g);
    case HardClip | Pad =>
  }

  lemma {:induction false} MatchRunWithin(op: CigarOp, n: nat, r: nat, g: nat)
    ensures var ps := MatchRun(op, n, r, g);
      |ps| == n && forall k :: 0 <= k < n ==> Within(ps[k], r, r + n, g, g + n)
  {
    if n > 0 {
      MatchRunWithin(op, n - 1, r + 1, g + 1);
    }
  }

  /** An insertion run has no reference positions: its reference range is empty. */
  lemma {:induction false} InsRunWithin(op: CigarOp, n: nat, r: nat)
    ensures var ps := InsRun(op, n, r);
      |ps| == n && forall k :: 0 <= k < n ==> Within(ps[k], r, r + n, 0, 0)
  {
    if n > 0 {
      InsRunWithin(op, n - 1, r + 1);
    }
  }

  /** A deletion run has no read positions: its read range is empty. */
  lemma {:induction false} DelRunWithin(op: CigarOp, n: nat, g: nat)
    ensures var ps := DelRun(op, n, g);
      |ps| == n && forall k :: 0 <= k < n ==> Within(ps[k], 0, 0, g, g + n)
  {
    if n > 0 {
      DelRunWithin(op, n - 1, g + 1);
    }
  }

  /** Concatenation is associative. */
  lemma {:induction false} Assoc<T>(a: seq<T>, b: seq<T>, c: seq<T>)
    ensures (a + b) + c == a + (b + c)
  {
  }

  /** A hard clip yields no pair and moves neither position. */
  lemma {:induction false} HardClipYieldsNothing(cigar: seq<CigarOp>, r: nat, g: nat, len: uint32)
    ensures PairsOf([CigarOp(HardClip, len)] + cigar, r, g) == PairsOf(cigar, r, g)
  {
    assert ([CigarOp(HardClip, len)] + cigar)[1..] == cigar;
  }

  /**
   * A soft clip of `n` bases yields `n` pairs, only the first of which has a
   * reference position.
   */
  lemma {:induction false} SoftClipPairs(op: CigarOp, r: nat, g: nat)
    requires op.kind == SoftClip && op.len >= 1
    ensures var ps := OpPairs(op, r, g);
      |ps| == op.len && ps[0].refPos == Some(g) &&
      forall k :: 1 <= k < |ps| ==> ps[k].refPos.None? && ps[k].readPos == Some(r + k)
  {
    InsRunAt(op, op.len - 1, r + 1);
    var ps := OpPairs(op, r, g);
    forall k | 1 <= k < |ps|
      ensures ps[k].refPos.None? && ps[k].readPos == Some(r + k)
    {
      assert ps[k] == InsRun(op, op.len - 1, r + 1)[k - 1];
    }
  }

  lemma {:induction false} InsRunAt(op: CigarOp, n: nat, r: nat)
    ensures |InsRun(op, n, r)| == n
    ensures forall k :: 0 <= k < n ==> InsRun(op, n, r)[k] == AlignedPair(op, Some(r + k), None)
  {
    if n > 0 {
      InsRunAt(op, n - 1, r + 1);
      var s := InsRun(op, n, r);
      assert s == [AlignedPair(op, Some(r), None)] + InsRun(op, n - 1, r + 1);
      forall k | 0 < k < n
        ensures s[k] == AlignedPair(op, Some(r + k), None)
      {
        assert s[k] == InsRun(op, n - 1, r + 1)[k - 1];
      }
    }
  }

  /**
   * The iterator's counters are consistent: at most one is non-zero, and only
   * after some operation (the one at `idx - 1`) has been entered.
   */
  predicate CountersOk(cigar: seq<CigarOp>, idx: nat, m: nat, i: nat, d: nat)
  {
    Supported(cigar) && idx <= |cigar| &&
    (m > 0 || i > 0 || d > 0 ==> idx > 0) &&
    (m > 0 ==> i == 0 && d == 0) && (i > 0 ==> d == 0)
  }

  /**
   * Every pair still to come from an iterator at CIGAR index `idx` with `m`
   * match, `i` insertion and `d` deletion bases pending, at read position `r`
   * and reference position `g`.
   */
  function PairsLeft(cigar: seq<CigarOp>, idx: nat, m: nat, i: nat, d: nat, r: nat, g: nat): seq<AlignedPair>
    requires CountersOk(cigar, idx, m, i, d)
  {
    if m > 0 then MatchRun(cigar[idx - 1], m, r, g) + PairsOf(cigar[idx..], r + m, g + m)
    else if i > 0 then InsRun(cigar[idx - 1], i, r) + PairsOf(cigar[idx..], r + i, g)
    else if d > 0 then DelRun(cigar[idx - 1], d, g) + PairsOf(cigar[idx..], r, g + d)
    else PairsOf(cigar[idx..], r, g)
  }

  /**
   * `IterAlignedPairsCigar`: a state machine over the CIGAR. The counters hold
   * what is left of the operation at `cigarIndex - 1`.
   */
  class IterAlignedPairsCigar {
    var genomePos: nat
    var readPos: nat
    const cigar: seq<CigarOp>
    var remainingMatchBp: nat
    var remainingInsBp: nat
    var remainingDelBp: nat
    var cigarIndex: nat

    ghost predicate Valid()
      reads this
    {
      CountersOk(cigar, cigarIndex, remainingMatchBp, remainingInsBp, remainingDelBp)
    }

    /** Every pair the iterator has still to yield. */
    ghost function Remaining(): seq<AlignedPair>
      reads this
      requires Valid()
    {
      PairsLeft(cigar, cigarIndex, remainingMatchBp, remainingInsBp, remainingDelBp, readPos, genomePos)
    }

    /** `IterAlignedPairsCigar::new`: read position 0, nothing pending. */
    constructor(genomePos: nat, cigar: seq<CigarOp>)
      requires Supported(cigar)
      ensures Valid() && Remaining() == PairsOf(cigar, 0, genomePos)
      ensures this.cigar == cigar && this.genomePos == genomePos && readPos == 0 && cigarIndex == 0
    {
      this.genomePos := genomePos;
      this.readPos := 0;
      this.cigar := cigar;
      remainingMatchBp, remainingInsBp, remainingDelBp := 0, 0, 0;
      cigarIndex := 0;
    }

    /** `next`: yield the first remaining pair, or None once the CIGAR is exhausted. */
    method Next() returns (r: Option<AlignedPair>)
      requires Valid()
      modifies this
      ensures Valid()
      ensures old(Remaining()) == [] ==> r.None? && Remaining() == []
      ensures old(Remaining()) != [] ==> r.Some? && old(Remaining()) == [r.value] + Remaining()
    {
      if remainingMatchBp > 0 {
        r := TakeMatch();
      } else if remainingInsBp > 0 {
        r := TakeIns();
      } else if remainingDelBp > 0 {
        r := TakeDel();
      } else {
        r := Enter();
      }
    }

    /** The first branch of `next`: one more base of a pending M, = or X run. */
    method TakeMatch() returns (r: Option<AlignedPair>)
      requires Valid() && remainingMatchBp > 0
      modifies this
      ensures Valid() && r.Some? && old(Remaining()) == [r.value] + Remaining()
    {
      MatchStep(cigar, cigarIndex, remainingMatchBp, readPos, genomePos);
      remainingMatchBp := remainingMatchBp - 1;
      genomePos := genomePos + 1;
      readPos := readPos + 1;
      r := Some(AlignedPair(cigar[cigarIndex - 1], Some(readPos - 1), Some(genomePos - 1)));
    }

    /** The second branch of `next`: one more base of a pending insertion or soft clip. */
    method TakeIns() returns (r: Option<AlignedPair>)
      requires Valid() && remainingMatchBp == 0 && remainingInsBp > 0
      modifies this
      ensures Valid() && r.Some? && old(Remaining()) == [r.value] + Remaining()
    {
      InsStep(cigar, cigarIndex, remainingInsBp, readPos, genomePos);
      remainingInsBp := remainingInsBp - 1;
      readPos := readPos + 1;
      r := Some(AlignedPair(cigar[cigarIndex - 1], Some(readPos - 1), None));
    }

    /** The third branch of `next`: one more base of a pending deletion or reference skip. */
    method TakeDel() returns (r: Option<AlignedPair>)
      requires Valid() && remainingMatchBp == 0 && remainingInsBp == 0 && remainingDelBp > 0
      modifies this
      ensures Valid() && r.Some? && old(Remaining()) == [r.value] + Remaining()
    {
      DelStep(cigar, cigarIndex, remainingDelBp, readPos, genomePos);
      remainingDelBp := remainingDelBp - 1;
      genomePos := genomePos + 1;
      r := Some(AlignedPair(cigar[cigarIndex - 1], None, Some(genomePos - 1)));
    }

    /** The `while` loop of `next`: enter the next operation that yields pairs, skipping hard clips. */
    method Enter() returns (r: Option<AlignedPair>)
      requires Valid() && remainingMatchBp == 0 && remainingInsBp == 0 && remainingDelBp == 0
      modifies this
      ensures Valid()
      ensures old(Remaining()) == [] ==> r.None? && Remaining() == []
      ensures old(Remaining()) != [] ==> r.Some? && old(Remaining()) == [r.value] + Remaining()
    {
      var pair, idx, m, i, d, nextRead, nextGenome := EnterFrom(cigar, cigarIndex, readPos, genomePos);
      cigarIndex, remainingMatchBp, remainingInsBp, remainingDelBp := idx, m, i, d;
      readPos, genomePos := nextRead, nextGenome;
      r := pair;
    }

    /**
     * The loop of `next` without the object: skip hard clips, then enter the
     * next operation if there is one.
     */
    static method EnterFrom(cigar: seq<CigarOp>, from: nat, r: nat, g: nat)
      returns (pair: Option<AlignedPair>, idx: nat, m: nat, i: nat, d: nat, r': nat, g': nat)
      requires CountersOk(cigar, from, 0, 0, 0)
      ensures CountersOk(cigar, idx, m, i, d)
      ensures pair.None? ==> PairsOf(cigar[from..], r, g) == [] && PairsLeft(cigar, idx, m, i, d, r', g') == []
      ensures pair.Some? ==> PairsOf(cigar[from..], r, g) == [pair.value] + PairsLeft(cigar, idx, m, i, d, r', g')
    {
      var next := SkipHardClips(cigar, from, r, g);
      if next == |cigar| {
        assert cigar[next..] == [];
        return None, next, 0, 0, 0, r, g;
      }
      var first;
      first, m, i, d, r', g' := EnterOp(cigar, next, r, g);
      pair, idx := Some(first), next + 1;
    }

    /**
     * The `match` of `next` on a newly entered operation: its first pair, the
     * counters it leaves, and the positions after that first pair.
     */
    static method EnterOp(cigar: seq<CigarOp>, idx: nat, r: nat, g: nat)
      returns (pair: AlignedPair, m: nat, i: nat, d: nat, r': nat, g': nat)
      requires CountersOk(cigar, idx, 0, 0, 0) && idx < |cigar| && cigar[idx].kind != HardClip
      ensures CountersOk(cigar, idx + 1, m, i, d)
      ensures PairsOf(cigar[idx..], r, g) == [pair] + PairsLeft(cigar, idx + 1, m, i, d, r', g')
    {
      var entry := cigar[idx];
      EnterCounters(cigar, idx);
      match entry.kind {
        case Match | Equal | Diff =>
          EnterMatch(cigar, idx, r, g);
          pair, m, i, d, r', g' := AlignedPair(entry, Some(r), Some(g)), entry.len - 1, 0, 0, r + 1, g + 1;
        case Ins =>
          EnterIns(cigar, idx, r, g);
          pair, m, i, d, r', g' := AlignedPair(entry, Some(r), None), 0, entry.len - 1, 0, r + 1, g;
        case SoftClip =>
          EnterSoftClip(cigar, idx, r, g);
          pair, m, i, d, r', g' := AlignedPair(entry, Some(r), Some(g)), 0, entry.len - 1, 0, r + 1, g + 1;
        case Del | RefSkip =>
          EnterDel(cigar, idx, r, g);
          pair, m, i, d, r', g' := AlignedPair(entry, None, Some(g)), 0, 0, entry.len - 1, r, g + 1;
      }
    }

    /** The `while` loop of `next` stepping over hard clips, which yield nothing and advance nothing. */
    static method SkipHardClips(cigar: seq<CigarOp>, from: nat, r: nat, g: nat) returns (idx: nat)
      requires from <= |cigar|
      ensures from <= idx <= |cigar|
      ensures idx < |cigar| ==> cigar[idx].kind != HardClip
      ensures PairsOf(cigar[idx..], r, g) == PairsOf(cigar[from..], r, g)
    {
      ghost var pairs := PairsOf(cigar[from..], r, g);
      idx := from;
      while idx < |cigar| && cigar[idx].kind == HardClip
        invariant from <= idx <= |cigar|
        invariant PairsOf(cigar[idx..], r, g) == pairs
      {
        SkipHardClip(cigar, idx, r, g);
        idx := idx + 1;
      }
    }
  }

  /** A hard clip yields nothing and moves neither position. */
  lemma {:induction false} SkipHardClip(cigar: seq<CigarOp>, idx: nat, r: nat, g: nat)
    requires idx < |cigar| && cigar[idx].kind == HardClip
    ensures PairsOf(cigar[idx..], r, g) == PairsOf(cigar[idx + 1..], r, g)
  {
    var tail := cigar[idx..];
    PairsCons(tail, r, g);
    assert tail[1..] == cigar[idx + 1..];
    assert OpPairs(tail[0], r, g) == [];
  }

  /** A run of match pairs followed by `rest` starts with its first pair. */
  lemma {:induction false} MatchHead(op: CigarOp, n: nat, r: nat, g: nat, rest: seq<AlignedPair>)
    requires n > 0
    ensures MatchRun(op, n, r, g) + rest == [AlignedPair(op, Some(r), Some(g))] +
      (if n == 1 then rest else MatchRun(op, n - 1, r + 1, g + 1) + rest)
  {
    Assoc([AlignedPair(op, Some(r), Some(g))], MatchRun(op, n - 1, r + 1, g + 1), rest);
    if n == 1 {
      assert MatchRun(op, 0, r + 1, g + 1) + rest == rest;
    }
  }

  /** A run of read-only pairs followed by `rest` starts with its first pair. */
  lemma {:induction false} InsHead(op: CigarOp, n: nat, r: nat, rest: seq<AlignedPair>)
    requires n > 0
    ensures InsRun(op, n, r) + rest == [AlignedPair(op, Some(r), None)] +
      (if n == 1 then rest else InsRun(op, n - 1, r + 1) + rest)
  {
    Assoc([AlignedPair(op, Some(r), None)], InsRun(op, n - 1, r + 1), rest);
    if n == 1 {
      assert InsRun(op, 0, r + 1) + rest == rest;
    }
  }

  /** A run of reference-only pairs followed by `rest` starts with its first pair. */
  lemma {:induction false} DelHead(op: CigarOp, n: nat, g: nat, rest: seq<AlignedPair>)
    requires n > 0
    ensures DelRun(op, n, g) + rest == [AlignedPair(op, None, Some(g))] +
      (if n == 1 then rest else DelRun(op, n - 1, g + 1) + rest)
  {
    Assoc([AlignedPair(op, None, Some(g))], DelRun(op, n - 1, g + 1), rest);
    if n == 1 {
      assert DelRun(op, 0, g + 1) + rest == rest;
    }
  }

  /** A pending match base is the next pair; the run shrinks by one. */
  lemma {:induction false} MatchStep(cigar: seq<CigarOp>, idx: nat, m: nat, r: nat, g: nat)
    requires CountersOk(cigar, idx, m, 0, 0) && m > 0
    ensures PairsLeft(cigar, idx, m, 0, 0, r, g) ==
      [AlignedPair(cigar[idx - 1], Some(r), Some(g))] + PairsLeft(cigar, idx, m - 1, 0, 0, r + 1, g + 1)
  {
    MatchHead(cigar[idx - 1], m, r, g, PairsOf(cigar[idx..], r + m, g + m));
  }

  /** A pending inserted (or clipped) base is the next pair. */
  lemma {:induction false} InsStep(cigar: seq<CigarOp>, idx: nat, i: nat, r: nat, g: nat)
    requires CountersOk(cigar, idx, 0, i, 0) && i > 0
    ensures PairsLeft(cigar, idx, 0, i, 0, r, g) ==
      [AlignedPair(cigar[idx - 1], Some(r), None)] + PairsLeft(cigar, idx, 0, i - 1, 0, r + 1, g)
  {
    InsHead(cigar[idx - 1], i, r, PairsOf(cigar[idx..], r + i, g));
  }

  /** A pending deleted (or skipped) reference base is the next pair. */
  lemma {:induction false} DelStep(cigar: seq<CigarOp>, idx: nat, d: nat, r: nat, g: nat)
    requires CountersOk(cigar, idx, 0, 0, d) && d > 0
    ensures PairsLeft(cigar, idx, 0, 0, d, r, g) ==
      [AlignedPair(cigar[idx - 1], None, Some(g))] + PairsLeft(cigar, idx, 0, 0, d - 1, r, g + 1)
  {
    DelHead(cigar[idx - 1], d, g, PairsOf(cigar[idx..], r, g + d));
  }

  /** The pairs from entry `idx` on are that entry's pairs followed by the rest of the CIGAR's. */
  lemma {:induction false} EntryPairs(cigar: seq<CigarOp>, idx: nat, r: nat, g: nat)
    requires idx < |cigar|
    ensures PairsOf(cigar[idx..], r, g) ==
      OpPairs(cigar[idx], r, g) + PairsOf(cigar[idx + 1..], r + ReadAdvance(cigar[idx]), g + RefAdvance(cigar[idx]))
  {
    var tail := cigar[idx..];
    PairsCons(tail, r, g);
    assert tail[1..] == cigar[idx + 1..];
  }

  /** `PairsOf` on a non-empty CIGAR: the first operation's pairs, then the others'. */
  lemma {:induction false} PairsCons(cigar: seq<CigarOp>, r: nat, g: nat)
    requires cigar != []
    ensures PairsOf(cigar, r, g) ==
      OpPairs(cigar[0], r, g) + PairsOf(cigar[1..], r + ReadAdvance(cigar[0]), g + RefAdvance(cigar[0]))
  {
  }

  /** Entering an operation leaves any one of the counters at its length less one. */
  lemma {:induction false} EnterCounters(cigar: seq<CigarOp>, idx: nat)
    requires CountersOk(cigar, idx, 0, 0, 0) && idx < |cigar| && cigar[idx].kind != HardClip
    ensures cigar[idx].len >= 1
    ensures CountersOk(cigar, idx + 1, cigar[idx].len - 1, 0, 0)
    ensures CountersOk(cigar, idx + 1, 0, cigar[idx].len - 1, 0)
    ensures CountersOk(cigar, idx + 1, 0, 0, cigar[idx].len - 1)
  {
  }

  /** Entering a match operation yields its first pair and leaves the rest of its run pending. */
  lemma {:induction false} EnterMatch(cigar: seq<CigarOp>, idx: nat, r: nat, g: nat)
    requires CountersOk(cigar, idx, 0, 0, 0) && idx < |cigar| && cigar[idx].len >= 1 && ConsumesBoth(cigar[idx].kind)
    ensures PairsOf(cigar[idx..], r, g) ==
      [AlignedPair(cigar[idx], Some(r), Some(g))] + PairsLeft(cigar, idx + 1, cigar[idx].len - 1, 0, 0, r + 1, g + 1)
  {
    var op := cigar[idx];
    var m := op.len - 1;
    var rest := PairsOf(cigar[idx + 1..], r + op.len, g + op.len);
    EntryPairs(cigar, idx, r, g);
    MatchHead(op, op.len, r, g, rest);
  }

  /** Entering an insertion yields its first pair and leaves the rest of it pending. */
  lemma {:induction false} EnterIns(cigar: seq<CigarOp>, idx: nat, r: nat, g: nat)
    requires CountersOk(cigar, idx, 0, 0, 0) && idx < |cigar| && cigar[idx].len >= 1 && cigar[idx].kind == Ins
    ensures PairsOf(cigar[idx..], r, g) ==
      [AlignedPair(cigar[idx], Some(r), None)] + PairsLeft(cigar, idx + 1, 0, cigar[idx].len - 1, 0, r + 1, g)
  {
    var op := cigar[idx];
    EntryPairs(cigar, idx, r, g);
    InsHead(op, op.len, r, PairsOf(cigar[idx + 1..], r + op.len, g));
  }

  /**
   * Entering a soft clip yields a pair with both positions, then leaves the
   * clip's other bases pending as read-only pairs.
   */
  lemma {:induction false} EnterSoftClip(cigar: seq<CigarOp>, idx: nat, r: nat, g: nat)
    requires CountersOk(cigar, idx, 0, 0, 0) && idx < |cigar| && cigar[idx].len >= 1 && cigar[idx].kind == SoftClip
    ensures PairsOf(cigar[idx..], r, g) ==
      [AlignedPair(cigar[idx], Some(r), Some(g))] + PairsLeft(cigar, idx + 1, 0, cigar[idx].len - 1, 0, r + 1, g + 1)
  {
    var op := cigar[idx];
    var rest := PairsOf(cigar[idx + 1..], r + op.len, g + 1);
    EntryPairs(cigar, idx, r, g);
    Assoc([AlignedPair(op, Some(r), Some(g))], InsRun(op, op.len - 1, r + 1), rest);
    if op.len == 1 {
      assert InsRun(op, 0, r + 1) + rest == rest;
    }
  }

  /** Entering a deletion or reference skip yields its first pair and leaves the rest of it pending. */
  lemma {:induction false} EnterDel(cigar: seq<CigarOp>, idx: nat, r: nat, g: nat)
    requires CountersOk(cigar, idx, 0, 0, 0) && idx < |cigar| && cigar[idx].len >= 1 && (cigar[idx].kind == Del || cigar[idx].kind == RefSkip)
    ensures PairsOf(cigar[idx..], r, g) ==
      [AlignedPair(cigar[idx], None, Some(g))] + PairsLeft(cigar, idx + 1, 0, 0, cigar[idx].len - 1, r, g + 1)
  {
    var op := cigar[idx];
    EntryPairs(cigar, idx, r, g);
    assert OpPairs(op, r, g) == DelRun(op, op.len, g);
    assert ReadAdvance(op) == 0 && RefAdvance(op) == op.len;
    DelHead(op, op.len, g, PairsOf(cigar[idx + 1..], r, g + op.len));
  }

  /** `iter_aligned_pairs_cigar(record).collect()`: every pair of the CIGAR started at `genomePos`. */
  method CollectPairs(genomePos: nat, cigar: seq<CigarOp>) returns (pairs: seq<AlignedPair>)
    requires Supported(cigar)
    ensures pairs == PairsOf(cigar, 0, genomePos)
  {
    var iter := new IterAlignedPairsCigar(genomePos, cigar);
    ghost var target := PairsOf(cigar, 0, genomePos);
    pairs := [];
    assert pairs + iter.Remaining() == iter.Remaining();
    while true
      invariant iter.Valid() && pairs + iter.Remaining() == target
      decreases |iter.Remaining()|
    {
      var next := iter.Next();
      if next.None? {
        assert pairs + [] == pairs;
        break;
      }
      Assoc(pairs, [next.value], iter.Remaining());
      pairs := pairs + [next.value];
    }
  }
}
