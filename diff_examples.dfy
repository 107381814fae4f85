/**
 * The diff iterator's unit tests: a read at 1003 against the view
 * "TTTAGCTAAA" at 1000.
 */
module SequenceDiffExamples {
  import opened Wrappers
  import opened GenomicCoordinates
  import opened Sequence
  import opened Cigar
  import Records
  import SequenceDiffs

  const A: uint8 := 65
  const C: uint8 := 67
  const G: uint8 := 71
  const T: uint8 := 84

  function TestView(): SequenceView
  {
    SequenceView([T, T, T, A, G, C, T, A, A, A], 1000)
  }

  /** The test record builder: name "read", position 1003, tid 0, no mate. */
  function TestRecord(cigar: seq<CigarOp>, bases: seq<uint8>): Records.Record
  {
    Records.Record("read", 1003, 0, -1, -1, cigar, bases, false, false)
  }

  function Op(kind: CigarKind, len: uint32): CigarOp { CigarOp(kind, len) }

  lemma NoDiffsWithMatchCigar()
    ensures SequenceDiffs.DiffReady(TestRecord([Op(Match, 4)], [A, G, C, T]))
    ensures SequenceDiffs.SequenceDiffsOf(TestRecord([Op(Match, 4)], [A, G, C, T]), TestView()) ==
      Ok([])
  {
    var record := TestRecord([Op(Match, 4)], [A, G, C, T]);
    SequenceDiffs.ReadyFits(record);
    NoDiffsWithMatchCigarPairs();
    NoDiffsWithMatchCigarDiffs(PairsOf(record.cigar, 0, 1003), record.bases);
  }

  lemma NoDiffsWithMatchCigarPairs()
    ensures var m := Op(Match, 4);
      PairsOf([Op(Match, 4)], 0, 1003) == [AlignedPair(m, Some(0), Some(1003)), AlignedPair(m, Some(1), Some(1004)),
         AlignedPair(m, Some(2), Some(1005)), AlignedPair(m, Some(3), Some(1006))]
  {
  }

  lemma {:induction false} NoDiffsWithMatchCigarDiffs(pairs: seq<AlignedPair>, bases: seq<uint8>)
    requires var m := Op(Match, 4);
      pairs == [AlignedPair(m, Some(0), Some(1003)), AlignedPair(m, Some(1), Some(1004)),
         AlignedPair(m, Some(2), Some(1005)), AlignedPair(m, Some(3), Some(1006))]
    requires bases == [A, G, C, T] && SequenceDiffs.Fits(pairs, bases)
    ensures SequenceDiffs.DiffsFrom(TestView(), bases, pairs, 0, 1003) == Ok([])
  {
    SequenceDiffs.SilentPairsGiveNoDiffs(TestView(), bases, pairs, 0, 1003);
  }

  lemma NoDiffsWithEqualCigar()
    ensures SequenceDiffs.DiffReady(TestRecord([Op(Equal, 4)], [A, G, C, T]))
    ensures SequenceDiffs.SequenceDiffsOf(TestRecord([Op(Equal, 4)], [A, G, C, T]), TestView()) ==
      Ok([])
  {
    var record := TestRecord([Op(Equal, 4)], [A, G, C, T]);
    SequenceDiffs.ReadyFits(record);
    NoDiffsWithEqualCigarPairs();
    NoDiffsWithEqualCigarDiffs(PairsOf(record.cigar, 0, 1003), record.bases);
  }

  lemma NoDiffsWithEqualCigarPairs()
    ensures var e := Op(Equal, 4);
      PairsOf([Op(Equal, 4)], 0, 1003) == [AlignedPair(e, Some(0), Some(1003)), AlignedPair(e, Some(1), Some(1004)),
         AlignedPair(e, Some(2), Some(1005)), AlignedPair(e, Some(3), Some(1006))]
  {
  }

  lemma {:induction false} NoDiffsWithEqualCigarDiffs(pairs: seq<AlignedPair>, bases: seq<uint8>)
    requires var e := Op(Equal, 4);
      pairs == [AlignedPair(e, Some(0), Some(1003)), AlignedPair(e, Some(1), Some(1004)),
         AlignedPair(e, Some(2), Some(1005)), AlignedPair(e, Some(3), Some(1006))]
    requires bases == [A, G, C, T] && SequenceDiffs.Fits(pairs, bases)
    ensures SequenceDiffs.DiffsFrom(TestView(), bases, pairs, 0, 1003) == Ok([])
  {
    SequenceDiffs.SilentPairsGiveNoDiffs(TestView(), bases, pairs, 0, 1003);
  }

  lemma SnvWithMatchCigar()
    ensures SequenceDiffs.DiffReady(TestRecord([Op(Match, 4)], [T, G, C, T]))
    ensures SequenceDiffs.SequenceDiffsOf(TestRecord([Op(Match, 4)], [T, G, C, T]), TestView()) ==
      Ok([SequenceDiffs.Mismatch(GenomicInterval(1003, 1004), [T])])
  {
    var record := TestRecord([Op(Match, 4)], [T, G, C, T]);
    SequenceDiffs.ReadyFits(record);
    SnvWithMatchCigarPairs();
    SnvWithMatchCigarDiffs(PairsOf(record.cigar, 0, 1003), record.bases);
  }

  lemma SnvWithMatchCigarPairs()
    ensures var m := Op(Match, 4);
      PairsOf([Op(Match, 4)], 0, 1003) == [AlignedPair(m, Some(0), Some(1003)), AlignedPair(m, Some(1), Some(1004)),
         AlignedPair(m, Some(2), Some(1005)), AlignedPair(m, Some(3), Some(1006))]
  {
  }

  lemma {:induction false} SnvWithMatchCigarDiffs(pairs: seq<AlignedPair>, bases: seq<uint8>)
    requires var m := Op(Match, 4);
      pairs == [AlignedPair(m, Some(0), Some(1003)), AlignedPair(m, Some(1), Some(1004)),
         AlignedPair(m, Some(2), Some(1005)), AlignedPair(m, Some(3), Some(1006))]
    requires bases == [T, G, C, T] && SequenceDiffs.Fits(pairs, bases)
    ensures SequenceDiffs.DiffsFrom(TestView(), bases, pairs, 0, 1003) == Ok([SequenceDiffs.Mismatch(GenomicInterval(1003, 1004), [T])])
  {
    var snv := SequenceDiffs.Mismatch(GenomicInterval(1003, 1004), [T]);
    assert SequenceDiffs.NextFrom(TestView(), bases, pairs, 0, 1003) == SequenceDiffs.Step(Some(Ok(snv)), 1, 1003);
    SequenceDiffs.SilentPairsGiveNoDiffs(TestView(), bases, pairs, 1, 1003);
    assert SequenceDiffs.DiffsFrom(TestView(), bases, pairs, 0, 1003) == Ok([snv] + []);
    assert [snv] + [] == [snv];
  }

  lemma SnvWithDiffCigar()
    ensures SequenceDiffs.DiffReady(TestRecord([Op(Diff, 1), Op(Equal, 3)], [T, G, C, T]))
    ensures SequenceDiffs.SequenceDiffsOf(TestRecord([Op(Diff, 1), Op(Equal, 3)], [T, G, C, T]), TestView()) ==
      Ok([SequenceDiffs.Mismatch(GenomicInterval(1003, 1004), [T])])
  {
    var record := TestRecord([Op(Diff, 1), Op(Equal, 3)], [T, G, C, T]);
    SequenceDiffs.ReadyFits(record);
    SnvWithDiffCigarPairs();
    SnvWithDiffCigarDiffs(PairsOf(record.cigar, 0, 1003), record.bases);
  }

  lemma SnvWithDiffCigarPairs()
    ensures var x, e := Op(Diff, 1), Op(Equal, 3);
      PairsOf([Op(Diff, 1), Op(Equal, 3)], 0, 1003) == [AlignedPair(x, Some(0), Some(1003)), AlignedPair(e, Some(1), Some(1004)),
         AlignedPair(e, Some(2), Some(1005)), AlignedPair(e, Some(3), Some(1006))]
  {
  }

  lemma {:induction false} SnvWithDiffCigarDiffs(pairs: seq<AlignedPair>, bases: seq<uint8>)
    requires var x, e := Op(Diff, 1), Op(Equal, 3);
      pairs == [AlignedPair(x, Some(0), Some(1003)), AlignedPair(e, Some(1), Some(1004)),
         AlignedPair(e, Some(2), Some(1005)), AlignedPair(e, Some(3), Some(1006))]
    requires bases == [T, G, C, T] && SequenceDiffs.Fits(pairs, bases)
    ensures SequenceDiffs.DiffsFrom(TestView(), bases, pairs, 0, 1003) == Ok([SequenceDiffs.Mismatch(GenomicInterval(1003, 1004), [T])])
  {
    var snv := SequenceDiffs.Mismatch(GenomicInterval(1003, 1004), [T]);
    assert SequenceDiffs.NextFrom(TestView(), bases, pairs, 0, 1003) == SequenceDiffs.Step(Some(Ok(snv)), 1, 1003);
    SequenceDiffs.SilentPairsGiveNoDiffs(TestView(), bases, pairs, 1, 1003);
    assert SequenceDiffs.DiffsFrom(TestView(), bases, pairs, 0, 1003) == Ok([snv] + []);
    assert [snv] + [] == [snv];
  }

  lemma Deletion()
    ensures SequenceDiffs.DiffReady(TestRecord([Op(Match, 3), Op(Del, 1)], [A, G, C]))
    ensures SequenceDiffs.SequenceDiffsOf(TestRecord([Op(Match, 3), Op(Del, 1)], [A, G, C]), TestView()) ==
      Ok([SequenceDiffs.Del(GenomicInterval(1006, 1007))])
  {
    var record := TestRecord([Op(Match, 3), Op(Del, 1)], [A, G, C]);
    SequenceDiffs.ReadyFits(record);
    DeletionPairs();
    DeletionDiffs(PairsOf(record.cigar, 0, 1003), record.bases);
  }

  lemma DeletionPairs()
    ensures var m, d := Op(Match, 3), Op(Del, 1);
      PairsOf([Op(Match, 3), Op(Del, 1)], 0, 1003) == [AlignedPair(m, Some(0), Some(1003)), AlignedPair(m, Some(1), Some(1004)),
         AlignedPair(m, Some(2), Some(1005)), AlignedPair(d, None, Some(1006))]
  {
  }

  lemma {:induction false} DeletionDiffs(pairs: seq<AlignedPair>, bases: seq<uint8>)
    requires var m, d := Op(Match, 3), Op(Del, 1);
      pairs == [AlignedPair(m, Some(0), Some(1003)), AlignedPair(m, Some(1), Some(1004)),
         AlignedPair(m, Some(2), Some(1005)), AlignedPair(d, None, Some(1006))]
    requires bases == [A, G, C] && SequenceDiffs.Fits(pairs, bases)
    ensures SequenceDiffs.DiffsFrom(TestView(), bases, pairs, 0, 1003) == Ok([SequenceDiffs.Del(GenomicInterval(1006, 1007))])
  {
    var d := Op(Del, 1);
    var start := SequenceDiffs.SkipSilent(TestView(), bases, pairs, 0, 3, 1003);
    assert pairs[3..4] == DelRun(d, 1, 1006);
    SequenceDiffs.DelRunIsOneDiff(TestView(), pairs, bases, d, 3, 1, 1006, start);
    var del := SequenceDiffs.Del(GenomicInterval(1006, 1007));
    assert SequenceDiffs.DiffsFrom(TestView(), bases, pairs, 4, 1006) == Ok([]);
    assert SequenceDiffs.DiffsFrom(TestView(), bases, pairs, 3, start) == Ok([del] + []);
    assert [del] + [] == [del];
  }

  lemma Insertion()
    ensures SequenceDiffs.DiffReady(TestRecord([Op(Match, 2), Op(Ins, 1), Op(Match, 2)], [A, G, T, C, T]))
    ensures SequenceDiffs.SequenceDiffsOf(TestRecord([Op(Match, 2), Op(Ins, 1), Op(Match, 2)], [A, G, T, C, T]), TestView()) ==
      Ok([SequenceDiffs.Ins(GenomicInterval(1004, 1004), [T])])
  {
    var record := TestRecord([Op(Match, 2), Op(Ins, 1), Op(Match, 2)], [A, G, T, C, T]);
    SequenceDiffs.ReadyFits(record);
    InsertionPairs();
    InsertionDiffs(PairsOf(record.cigar, 0, 1003), record.bases);
  }

  lemma InsertionPairs()
    ensures var m, i := Op(Match, 2), Op(Ins, 1);
      PairsOf([Op(Match, 2), Op(Ins, 1), Op(Match, 2)], 0, 1003) == [AlignedPair(m, Some(0), Some(1003)), AlignedPair(m, Some(1), Some(1004)), AlignedPair(i, Some(2), None),
         AlignedPair(m, Some(3), Some(1005)), AlignedPair(m, Some(4), Some(1006))]
  {
    var m, i := Op(Match, 2), Op(Ins, 1);
    assert PairsOf([m], 3, 1005) == MatchRun(m, 2, 3, 1005);
    assert PairsOf([i, m], 2, 1005) == InsRun(i, 1, 2) + PairsOf([m], 3, 1005);
  }

  lemma {:induction false} InsertionDiffs(pairs: seq<AlignedPair>, bases: seq<uint8>)
    requires var m, i := Op(Match, 2), Op(Ins, 1);
      pairs == [AlignedPair(m, Some(0), Some(1003)), AlignedPair(m, Some(1), Some(1004)), AlignedPair(i, Some(2), None),
         AlignedPair(m, Some(3), Some(1005)), AlignedPair(m, Some(4), Some(1006))]
    requires bases == [A, G, T, C, T] && SequenceDiffs.Fits(pairs, bases)
    ensures SequenceDiffs.DiffsFrom(TestView(), bases, pairs, 0, 1003) == Ok([SequenceDiffs.Ins(GenomicInterval(1004, 1004), [T])])
  {
    var i := Op(Ins, 1);
    var start := SequenceDiffs.SkipSilent(TestView(), bases, pairs, 0, 2, 1003);
    assert pairs[2..3] == InsRun(i, 1, 2);
    SequenceDiffs.InsRunIsOneDiff(TestView(), pairs, bases, i, 2, 1, 2, start);
    assert bases[2..3] == [T];
    SequenceDiffs.SilentPairsGiveNoDiffs(TestView(), bases, pairs, 3, start);
    var ins := SequenceDiffs.Ins(GenomicInterval(1004, 1004), [T]);
    assert SequenceDiffs.DiffsFrom(TestView(), bases, pairs, 2, start) == Ok([ins] + []);
    assert [ins] + [] == [ins];
  }

  lemma SoftClipAtStart()
    ensures SequenceDiffs.DiffReady(TestRecord([Op(SoftClip, 1), Op(Match, 3)], [T, G, C, T]))
    ensures SequenceDiffs.SequenceDiffsOf(TestRecord([Op(SoftClip, 1), Op(Match, 3)], [T, G, C, T]), TestView()) ==
      Ok([SequenceDiffs.SoftClip(GenomicInterval(1003, 1004), [T])])
  {
    var record := TestRecord([Op(SoftClip, 1), Op(Match, 3)], [T, G, C, T]);
    SequenceDiffs.ReadyFits(record);
    SoftClipAtStartPairs();
    SoftClipAtStartDiffs(PairsOf(record.cigar, 0, 1003), record.bases);
  }

  lemma SoftClipAtStartPairs()
    ensures var sc, m := Op(SoftClip, 1), Op(Match, 3);
      PairsOf([Op(SoftClip, 1), Op(Match, 3)], 0, 1003) == [AlignedPair(sc, Some(0), Some(1003)), AlignedPair(m, Some(1), Some(1004)),
         AlignedPair(m, Some(2), Some(1005)), AlignedPair(m, Some(3), Some(1006))]
  {
  }

  lemma {:induction false} SoftClipAtStartDiffs(pairs: seq<AlignedPair>, bases: seq<uint8>)
    requires var sc, m := Op(SoftClip, 1), Op(Match, 3);
      pairs == [AlignedPair(sc, Some(0), Some(1003)), AlignedPair(m, Some(1), Some(1004)),
         AlignedPair(m, Some(2), Some(1005)), AlignedPair(m, Some(3), Some(1006))]
    requires bases == [T, G, C, T] && SequenceDiffs.Fits(pairs, bases)
    ensures SequenceDiffs.DiffsFrom(TestView(), bases, pairs, 0, 1003) == Ok([SequenceDiffs.SoftClip(GenomicInterval(1003, 1004), [T])])
  {
    assert SequenceDiffs.Collapse(pairs, bases, SoftClip, 0, [], 1003) == SequenceDiffs.Acc(0, [T], 1003);
    var clip := SequenceDiffs.SoftClip(GenomicInterval(1003, 1004), [T]);
    assert SequenceDiffs.NextFrom(TestView(), bases, pairs, 0, 1003) == SequenceDiffs.Step(Some(Ok(clip)), 1, 1003);
    SequenceDiffs.SilentPairsGiveNoDiffs(TestView(), bases, pairs, 1, 1003);
    assert SequenceDiffs.DiffsFrom(TestView(), bases, pairs, 0, 1003) == Ok([clip] + []);
    assert [clip] + [] == [clip];
  }

  lemma SoftClipAtEnd()
    ensures SequenceDiffs.DiffReady(TestRecord([Op(Match, 3), Op(SoftClip, 1)], [A, G, C, A]))
    ensures SequenceDiffs.SequenceDiffsOf(TestRecord([Op(Match, 3), Op(SoftClip, 1)], [A, G, C, A]), TestView()) ==
      Ok([SequenceDiffs.SoftClip(GenomicInterval(1006, 1007), [A])])
  {
    var record := TestRecord([Op(Match, 3), Op(SoftClip, 1)], [A, G, C, A]);
    SequenceDiffs.ReadyFits(record);
    SoftClipAtEndPairs();
    SoftClipAtEndDiffs(PairsOf(record.cigar, 0, 1003), record.bases);
  }

  lemma SoftClipAtEndPairs()
    ensures var m, sc := Op(Match, 3), Op(SoftClip, 1);
      PairsOf([Op(Match, 3), Op(SoftClip, 1)], 0, 1003) == [AlignedPair(m, Some(0), Some(1003)), AlignedPair(m, Some(1), Some(1004)),
         AlignedPair(m, Some(2), Some(1005)), AlignedPair(sc, Some(3), Some(1006))]
  {
  }

  lemma {:induction false} SoftClipAtEndDiffs(pairs: seq<AlignedPair>, bases: seq<uint8>)
    requires var m, sc := Op(Match, 3), Op(SoftClip, 1);
      pairs == [AlignedPair(m, Some(0), Some(1003)), AlignedPair(m, Some(1), Some(1004)),
         AlignedPair(m, Some(2), Some(1005)), AlignedPair(sc, Some(3), Some(1006))]
    requires bases == [A, G, C, A] && SequenceDiffs.Fits(pairs, bases)
    ensures SequenceDiffs.DiffsFrom(TestView(), bases, pairs, 0, 1003) == Ok([SequenceDiffs.SoftClip(GenomicInterval(1006, 1007), [A])])
  {
    var start := SequenceDiffs.SkipSilent(TestView(), bases, pairs, 0, 3, 1003);
    assert SequenceDiffs.Collapse(pairs, bases, SoftClip, 3, [], 1006) == SequenceDiffs.Acc(3, [A], 1006);
    var clip := SequenceDiffs.SoftClip(GenomicInterval(1006, 1007), [A]);
    assert SequenceDiffs.NextFrom(TestView(), bases, pairs, 3, start) == SequenceDiffs.Step(Some(Ok(clip)), 4, 1006);
    assert SequenceDiffs.DiffsFrom(TestView(), bases, pairs, 4, 1006) == Ok([]);
    assert SequenceDiffs.DiffsFrom(TestView(), bases, pairs, 3, start) == Ok([clip] + []);
    assert [clip] + [] == [clip];
  }

  lemma HardClipsGiveNoDiffs()
    ensures SequenceDiffs.DiffReady(TestRecord([Op(Match, 3), Op(HardClip, 1)], [A, G, C]))
    ensures SequenceDiffs.SequenceDiffsOf(TestRecord([Op(Match, 3), Op(HardClip, 1)], [A, G, C]), TestView()) ==
      Ok([])
  {
    var record := TestRecord([Op(Match, 3), Op(HardClip, 1)], [A, G, C]);
    SequenceDiffs.ReadyFits(record);
    HardClipsGiveNoDiffsPairs();
    HardClipsGiveNoDiffsDiffs(PairsOf(record.cigar, 0, 1003), record.bases);
  }

  lemma HardClipsGiveNoDiffsPairs()
    ensures var m := Op(Match, 3);
      PairsOf([Op(Match, 3), Op(HardClip, 1)], 0, 1003) == [AlignedPair(m, Some(0), Some(1003)), AlignedPair(m, Some(1), Some(1004)),
         AlignedPair(m, Some(2), Some(1005))]
  {
  }

  lemma {:induction false} HardClipsGiveNoDiffsDiffs(pairs: seq<AlignedPair>, bases: seq<uint8>)
    requires var m := Op(Match, 3);
      pairs == [AlignedPair(m, Some(0), Some(1003)), AlignedPair(m, Some(1), Some(1004)),
         AlignedPair(m, Some(2), Some(1005))]
    requires bases == [A, G, C] && SequenceDiffs.Fits(pairs, bases)
    ensures SequenceDiffs.DiffsFrom(TestView(), bases, pairs, 0, 1003) == Ok([])
  {
    SequenceDiffs.SilentPairsGiveNoDiffs(TestView(), bases, pairs, 0, 1003);
  }

  lemma RefSkipDiff()
    ensures SequenceDiffs.DiffReady(TestRecord([Op(Match, 2), Op(RefSkip, 1), Op(Match, 1)], [A, G, T]))
    ensures SequenceDiffs.SequenceDiffsOf(TestRecord([Op(Match, 2), Op(RefSkip, 1), Op(Match, 1)], [A, G, T]), TestView()) ==
      Ok([SequenceDiffs.RefSkip(GenomicInterval(1005, 1006))])
  {
    var record := TestRecord([Op(Match, 2), Op(RefSkip, 1), Op(Match, 1)], [A, G, T]);
    SequenceDiffs.ReadyFits(record);
    RefSkipDiffPairs();
    RefSkipDiffDiffs(PairsOf(record.cigar, 0, 1003), record.bases);
  }

  lemma RefSkipDiffPairs()
    ensures var m, n, m1 := Op(Match, 2), Op(RefSkip, 1), Op(Match, 1);
      PairsOf([Op(Match, 2), Op(RefSkip, 1), Op(Match, 1)], 0, 1003) == [AlignedPair(m, Some(0), Some(1003)), AlignedPair(m, Some(1), Some(1004)),
         AlignedPair(n, None, Some(1005)), AlignedPair(m1, Some(2), Some(1006))]
  {
  }

  lemma {:induction false} RefSkipDiffDiffs(pairs: seq<AlignedPair>, bases: seq<uint8>)
    requires var m, n, m1 := Op(Match, 2), Op(RefSkip, 1), Op(Match, 1);
      pairs == [AlignedPair(m, Some(0), Some(1003)), AlignedPair(m, Some(1), Some(1004)),
         AlignedPair(n, None, Some(1005)), AlignedPair(m1, Some(2), Some(1006))]
    requires bases == [A, G, T] && SequenceDiffs.Fits(pairs, bases)
    ensures SequenceDiffs.DiffsFrom(TestView(), bases, pairs, 0, 1003) == Ok([SequenceDiffs.RefSkip(GenomicInterval(1005, 1006))])
  {
    var n := Op(RefSkip, 1);
    var start := SequenceDiffs.SkipSilent(TestView(), bases, pairs, 0, 2, 1003);
    assert pairs[2..3] == DelRun(n, 1, 1005);
    SequenceDiffs.DelRunIsOneDiff(TestView(), pairs, bases, n, 2, 1, 1005, start);
    SequenceDiffs.SilentPairsGiveNoDiffs(TestView(), bases, pairs, 3, 1005);
    var skip := SequenceDiffs.RefSkip(GenomicInterval(1005, 1006));
    assert SequenceDiffs.DiffsFrom(TestView(), bases, pairs, 2, start) == Ok([skip] + []);
    assert [skip] + [] == [skip];
  }

  lemma ComplexDiff()
    ensures SequenceDiffs.DiffReady(TestRecord([Op(Match, 2), Op(Del, 3), Op(Match, 1), Op(Ins, 4), Op(Match, 1)], [A, G, A, T, T, T, T, A]))
    ensures SequenceDiffs.SequenceDiffsOf(TestRecord([Op(Match, 2), Op(Del, 3), Op(Match, 1), Op(Ins, 4), Op(Match, 1)], [A, G, A, T, T, T, T, A]), TestView()) ==
      Ok([SequenceDiffs.Del(GenomicInterval(1005, 1008)), SequenceDiffs.Ins(GenomicInterval(1008, 1008), [T, T, T, T])])
  {
    var record := TestRecord([Op(Match, 2), Op(Del, 3), Op(Match, 1), Op(Ins, 4), Op(Match, 1)], [A, G, A, T, T, T, T, A]);
    SequenceDiffs.ReadyFits(record);
    ComplexDiffPairs();
    ComplexDiffDiffs(PairsOf(record.cigar, 0, 1003), record.bases);
  }

  lemma ComplexDiffPairs()
    ensures var m, d, m1, i := Op(Match, 2), Op(Del, 3), Op(Match, 1), Op(Ins, 4);
      PairsOf([Op(Match, 2), Op(Del, 3), Op(Match, 1), Op(Ins, 4), Op(Match, 1)], 0, 1003) == [AlignedPair(m, Some(0), Some(1003)), AlignedPair(m, Some(1), Some(1004))] +
        [AlignedPair(d, None, Some(1005)), AlignedPair(d, None, Some(1006)), AlignedPair(d, None, Some(1007)),
         AlignedPair(m1, Some(2), Some(1008))] +
        [AlignedPair(i, Some(3), None), AlignedPair(i, Some(4), None), AlignedPair(i, Some(5), None),
         AlignedPair(i, Some(6), None), AlignedPair(m1, Some(7), Some(1009))]
  {
    var m, d, m1, i := Op(Match, 2), Op(Del, 3), Op(Match, 1), Op(Ins, 4);
    ComplexTailPairs();
    assert MatchRun(m, 2, 0, 1003) == [AlignedPair(m, Some(0), Some(1003)), AlignedPair(m, Some(1), Some(1004))];
    assert PairsOf([m, d, m1, i, m1], 0, 1003) == MatchRun(m, 2, 0, 1003) + PairsOf([d, m1, i, m1], 2, 1005);
  }

  /** The pairs of `ComplexDiff` after its leading match. */
  lemma ComplexTailPairs()
    ensures var d, m1, i := Op(Del, 3), Op(Match, 1), Op(Ins, 4);
      PairsOf([d, m1, i, m1], 2, 1005) ==
        [AlignedPair(d, None, Some(1005)), AlignedPair(d, None, Some(1006)), AlignedPair(d, None, Some(1007)),
         AlignedPair(m1, Some(2), Some(1008))] +
        [AlignedPair(i, Some(3), None), AlignedPair(i, Some(4), None), AlignedPair(i, Some(5), None),
         AlignedPair(i, Some(6), None), AlignedPair(m1, Some(7), Some(1009))]
  {
    var d, m1, i := Op(Del, 3), Op(Match, 1), Op(Ins, 4);
    ComplexInsPairs();
    assert DelRun(d, 3, 1005) + MatchRun(m1, 1, 2, 1008) ==
      [AlignedPair(d, None, Some(1005)), AlignedPair(d, None, Some(1006)), AlignedPair(d, None, Some(1007)),
       AlignedPair(m1, Some(2), Some(1008))];
    assert PairsOf([m1, i, m1], 2, 1008) == MatchRun(m1, 1, 2, 1008) + PairsOf([i, m1], 3, 1009);
    assert PairsOf([d, m1, i, m1], 2, 1005) == DelRun(d, 3, 1005) + PairsOf([m1, i, m1], 2, 1008);
    Assoc(DelRun(d, 3, 1005), MatchRun(m1, 1, 2, 1008), PairsOf([i, m1], 3, 1009));
  }

  /** The pairs of `ComplexDiff` from its insertion on. */
  lemma ComplexInsPairs()
    ensures var m1, i := Op(Match, 1), Op(Ins, 4);
      PairsOf([i, m1], 3, 1009) ==
        [AlignedPair(i, Some(3), None), AlignedPair(i, Some(4), None), AlignedPair(i, Some(5), None),
         AlignedPair(i, Some(6), None), AlignedPair(m1, Some(7), Some(1009))]
  {
    var m1, i := Op(Match, 1), Op(Ins, 4);
    assert PairsOf([m1], 7, 1009) == MatchRun(m1, 1, 7, 1009);
    assert PairsOf([i, m1], 3, 1009) == InsRun(i, 4, 3) + PairsOf([m1], 7, 1009);
  }

  lemma {:induction false} ComplexDiffDiffs(pairs: seq<AlignedPair>, bases: seq<uint8>)
    requires var m, d, m1, i := Op(Match, 2), Op(Del, 3), Op(Match, 1), Op(Ins, 4);
      pairs == [AlignedPair(m, Some(0), Some(1003)), AlignedPair(m, Some(1), Some(1004))] +
        [AlignedPair(d, None, Some(1005)), AlignedPair(d, None, Some(1006)), AlignedPair(d, None, Some(1007)),
         AlignedPair(m1, Some(2), Some(1008))] +
        [AlignedPair(i, Some(3), None), AlignedPair(i, Some(4), None), AlignedPair(i, Some(5), None),
         AlignedPair(i, Some(6), None), AlignedPair(m1, Some(7), Some(1009))]
    requires bases == [A, G, A, T, T, T, T, A] && SequenceDiffs.Fits(pairs, bases)
    ensures SequenceDiffs.DiffsFrom(TestView(), bases, pairs, 0, 1003) == Ok([SequenceDiffs.Del(GenomicInterval(1005, 1008)), SequenceDiffs.Ins(GenomicInterval(1008, 1008), [T, T, T, T])])
  {
    var d := Op(Del, 3);
    var start := SequenceDiffs.SkipSilent(TestView(), bases, pairs, 0, 2, 1003);
    assert pairs[2..5] == DelRun(d, 3, 1005);
    SequenceDiffs.DelRunIsOneDiff(TestView(), pairs, bases, d, 2, 3, 1005, start);
    ComplexInsertion(pairs, bases);
    var del, ins := SequenceDiffs.Del(GenomicInterval(1005, 1008)), SequenceDiffs.Ins(GenomicInterval(1008, 1008), [T, T, T, T]);
    assert SequenceDiffs.DiffsFrom(TestView(), bases, pairs, 2, start) == Ok([del] + [ins]);
    assert [del] + [ins] == [del, ins];
  }

  /** The second difference of `ComplexDiff`: the insertion after the deletion. */
  lemma {:induction false} ComplexInsertion(pairs: seq<AlignedPair>, bases: seq<uint8>)
    requires var m, d, m1, i := Op(Match, 2), Op(Del, 3), Op(Match, 1), Op(Ins, 4);
      pairs == [AlignedPair(m, Some(0), Some(1003)), AlignedPair(m, Some(1), Some(1004))] +
        [AlignedPair(d, None, Some(1005)), AlignedPair(d, None, Some(1006)), AlignedPair(d, None, Some(1007)),
         AlignedPair(m1, Some(2), Some(1008))] +
        [AlignedPair(i, Some(3), None), AlignedPair(i, Some(4), None), AlignedPair(i, Some(5), None),
         AlignedPair(i, Some(6), None), AlignedPair(m1, Some(7), Some(1009))]
    requires bases == [A, G, A, T, T, T, T, A] && SequenceDiffs.Fits(pairs, bases)
    ensures SequenceDiffs.DiffsFrom(TestView(), bases, pairs, 5, 1005) ==
      Ok([SequenceDiffs.Ins(GenomicInterval(1008, 1008), [T, T, T, T])])
  {
    var i := Op(Ins, 4);
    var start := SequenceDiffs.SkipSilent(TestView(), bases, pairs, 5, 6, 1005);
    assert pairs[6..10] == InsRun(i, 4, 3);
    SequenceDiffs.InsRunIsOneDiff(TestView(), pairs, bases, i, 6, 4, 3, start);
    assert bases[3..7] == [T, T, T, T];
    SequenceDiffs.SilentPairsGiveNoDiffs(TestView(), bases, pairs, 10, start);
    var ins := SequenceDiffs.Ins(GenomicInterval(1008, 1008), [T, T, T, T]);
    assert SequenceDiffs.DiffsFrom(TestView(), bases, pairs, 6, start) == Ok([ins] + []);
    assert [ins] + [] == [ins];
  }

  /**
   * A soft clip longer than one base: its first base is reported, its second
   * is absorbed into the same diff without its base, and each further base
   * gives an empty one-base SoftClip diff at the same position.
   */
  lemma LongSoftClipAsWritten()
    ensures SequenceDiffs.DiffReady(TestRecord([Op(Match, 1), Op(SoftClip, 3)], [A, G, C, T]))
    ensures SequenceDiffs.SequenceDiffsOf(TestRecord([Op(Match, 1), Op(SoftClip, 3)], [A, G, C, T]), TestView()) ==
      Ok([SequenceDiffs.SoftClip(GenomicInterval(1004, 1005), [G]), SequenceDiffs.SoftClip(GenomicInterval(1004, 1005), [])])
  {
    var record := TestRecord([Op(Match, 1), Op(SoftClip, 3)], [A, G, C, T]);
    SequenceDiffs.ReadyFits(record);
    LongSoftClipAsWrittenPairs();
    LongSoftClipAsWrittenDiffs(PairsOf(record.cigar, 0, 1003), record.bases);
  }

  lemma LongSoftClipAsWrittenPairs()
    ensures var m, sc := Op(Match, 1), Op(SoftClip, 3);
      PairsOf([Op(Match, 1), Op(SoftClip, 3)], 0, 1003) == [AlignedPair(m, Some(0), Some(1003)), AlignedPair(sc, Some(1), Some(1004)),
         AlignedPair(sc, Some(2), None), AlignedPair(sc, Some(3), None)]
  {
    var sc := Op(SoftClip, 3);
    assert PairsOf([sc], 1, 1004) == [AlignedPair(sc, Some(1), Some(1004))] + InsRun(sc, 2, 2);
  }

  lemma {:induction false} LongSoftClipAsWrittenDiffs(pairs: seq<AlignedPair>, bases: seq<uint8>)
    requires var m, sc := Op(Match, 1), Op(SoftClip, 3);
      pairs == [AlignedPair(m, Some(0), Some(1003)), AlignedPair(sc, Some(1), Some(1004)),
         AlignedPair(sc, Some(2), None), AlignedPair(sc, Some(3), None)]
    requires bases == [A, G, C, T] && SequenceDiffs.Fits(pairs, bases)
    ensures SequenceDiffs.DiffsFrom(TestView(), bases, pairs, 0, 1003) == Ok([SequenceDiffs.SoftClip(GenomicInterval(1004, 1005), [G]), SequenceDiffs.SoftClip(GenomicInterval(1004, 1005), [])])
  {
    var first, second := SequenceDiffs.SoftClip(GenomicInterval(1004, 1005), [G]), SequenceDiffs.SoftClip(GenomicInterval(1004, 1005), []);
    assert SequenceDiffs.Collapse(pairs, bases, SoftClip, 1, [], 1004) == SequenceDiffs.Acc(2, [G], 1004);
    assert SequenceDiffs.NextFrom(TestView(), bases, pairs, 1, 1003) == SequenceDiffs.Step(Some(Ok(first)), 3, 1004);
    assert SequenceDiffs.NextFrom(TestView(), bases, pairs, 3, 1004) == SequenceDiffs.Step(Some(Ok(second)), 4, 1004);
    assert SequenceDiffs.DiffsFrom(TestView(), bases, pairs, 3, 1004) == Ok([second] + []);
    assert SequenceDiffs.DiffsFrom(TestView(), bases, pairs, 1, 1003) == Ok([first] + ([second] + []));
    assert [first] + ([second] + []) == [first, second];
  }

  /**
   * The same soft clip with the intended collapse: one diff at the first
   * clipped base's position holding all three clipped bases.
   */
  lemma LongSoftClipIntended()
    ensures var pairs := PairsOf([Op(Match, 1), Op(SoftClip, 3)], 0, 1003);
      SequenceDiffs.Fits(pairs, [A, G, C, T]) &&
      SequenceDiffs.CollapsedDiff(SoftClip, 1004, SequenceDiffs.CollapseIntended(pairs, [A, G, C, T], SoftClip, 1, [], 1004)) ==
        Ok(SequenceDiffs.SoftClip(GenomicInterval(1004, 1005), [G, C, T]))
  {
    var record := TestRecord([Op(Match, 1), Op(SoftClip, 3)], [A, G, C, T]);
    SequenceDiffs.ReadyFits(record);
    LongSoftClipAsWrittenPairs();
    var pairs := PairsOf(record.cigar, 0, 1003);
    var sc := Op(SoftClip, 3);
    assert pairs[1..4] == OpPairs(sc, 1, 1004) by {
      assert OpPairs(sc, 1, 1004) == [AlignedPair(sc, Some(1), Some(1004))] + InsRun(sc, 2, 2);
    }
    SequenceDiffs.SoftClipDiffIntended(pairs, record.bases, sc, 1, 1, 1004);
    assert record.bases[1..4] == [G, C, T];
  }
}
