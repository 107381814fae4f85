/**
 * The aligned-read unit tests: building a read from the default test record,
 * the two `PairedReads` intervals and the pairing of five reads.
 */
module AlignedReadExamples {
  import opened Wrappers
  import opened GenomicCoordinates
  import opened Ordering
  import opened Tid
  import Cigar
  import opened AlignedReads
  import Records
  import SequenceDiffs
  import SequenceDiffExamples

  /** The default test record: "test", `4M` over AGCT at 1003 on tid 0, mate at 2000 on tid 0, second in template. */
  function DefaultRecord(pos: int, tid: int): Records.Record
  {
    Records.Record("test", pos, tid, 0, 2000, [Cigar.CigarOp(Cigar.Match, 4)],
                   [SequenceDiffExamples.A, SequenceDiffExamples.G, SequenceDiffExamples.C, SequenceDiffExamples.T],
                   false, false)
  }

  function TestTids(): TidMap { TidMap(map[0 := "X"]) }

  method InitFromRecord() returns (r: Result<AlignedRead>)
    ensures r == Ok(AlignedRead("test/2", "test", GenomicRegion("X", GenomicInterval(1003, 1007)),
                                Some(GenomicRegion("X", GenomicInterval(2000, 2001))),
                                [Cigar.CigarOp(Cigar.Match, 4)], [], false))
  {
    var record := DefaultRecord(1003, 0);
    var tidMap := TestTids();
    SequenceDiffExamples.NoDiffsWithMatchCigar();
    var same := SequenceDiffExamples.TestRecord(record.cigar, record.bases);
    assert SequenceDiffs.DiffReady(record);
    assert SequenceDiffs.SequenceDiffsOf(record, SequenceDiffExamples.TestView()) ==
           SequenceDiffs.SequenceDiffsOf(same, SequenceDiffExamples.TestView());
    assert tidMap.GetSeqName(0) == Some("X");
    assert SoftClipLen([]) == 0;
    assert Records.EndPos(record) == 1007;
    assert GetMateRegion(record, tidMap).value == Some(GenomicRegion("X", GenomicInterval(2000, 2001)));
    assert ReadId(record) == "test/2";
    r := FromRecord(record, SequenceDiffExamples.TestView(), tidMap);
  }

  method InitWithInvalidPos() returns (r: Result<AlignedRead>)
    ensures r == Err(InvalidPosition)
  {
    var tidMap := TestTids();
    assert tidMap.GetSeqName(0) == Some("X");
    r := FromRecord(DefaultRecord(-1, 0), SequenceDiffExamples.TestView(), tidMap);
  }

  method InitWithInvalidTid() returns (r: Result<AlignedRead>)
    ensures r == Err(UnmappedRead)
  {
    r := FromRecord(DefaultRecord(1003, -1), SequenceDiffExamples.TestView(), TestTids());
  }

  /** The `1M3S` read over AGCT at 1003: the three clipped bases widen its region by two, to 1003-1006. */
  function LongClipRecord(): Records.Record
  {
    SequenceDiffExamples.TestRecord([Cigar.CigarOp(Cigar.Match, 1), Cigar.CigarOp(Cigar.SoftClip, 3)],
                                    [SequenceDiffExamples.A, SequenceDiffExamples.G, SequenceDiffExamples.C, SequenceDiffExamples.T])
  }

  lemma LongSoftClipRegionAsWritten()
    ensures Convertible(LongClipRecord(), SequenceDiffExamples.TestView(), TestTids())
    ensures AlignedReadOf(LongClipRecord(), SequenceDiffExamples.TestView(), TestTids()).Ok?
    ensures AlignedReadOf(LongClipRecord(), SequenceDiffExamples.TestView(), TestTids()).value.region ==
            GenomicRegion("X", GenomicInterval(1003, 1006))
  {
    var record := LongClipRecord();
    SequenceDiffExamples.LongSoftClipAsWritten();
    var clip := SequenceDiffs.SoftClip(GenomicInterval(1004, 1005), [SequenceDiffExamples.G]);
    var empty := SequenceDiffs.SoftClip(GenomicInterval(1004, 1005), []);
    assert ClipLen(clip) == 1 && ClipLen(empty) == 1;
    assert [clip][..0] == [] && SoftClipLen([clip]) == 1;
    assert [clip, empty][..1] == [clip];
    assert SoftClipLen([clip, empty]) == 2;
    assert Records.EndPos(record) == 1004;
    assert TestTids().GetSeqName(0) == Some("X");
  }

  function Region(seqName: string, start: uint64, end: uint64): GenomicRegion
  {
    GenomicRegion(seqName, GenomicInterval(start, end))
  }

  function Read(qname: string, mate: Option<GenomicRegion>, region: GenomicRegion, isReverse: bool): AlignedRead
  {
    AlignedRead(qname + "/1", qname, region, mate, [Cigar.CigarOp(Cigar.Match, 100)], [], isReverse)
  }

  function PairedRead1(): AlignedRead { Read("paired_read", Some(Region("X", 200, 201)), Region("X", 0, 100), false) }

  function PairedRead2(): AlignedRead
  {
    AlignedRead("paired_read/2", "paired_read", Region("X", 200, 301), Some(Region("X", 0, 1)),
                [Cigar.CigarOp(Cigar.Match, 100)], [], true)
  }

  function UnpairedRead1(): AlignedRead { Read("unpaired_read", None, Region("X", 0, 100), false) }

  function MissingPairRead(): AlignedRead { Read("missing_pair_read", Some(Region("X", 6000, 6001)), Region("X", 0, 100), false) }

  function DiscordantRead1(): AlignedRead { Read("discordant_read", Some(Region("1", 6000, 6001)), Region("X", 0, 100), false) }

  lemma PairedWithMate()
    ensures NewPairedReads(PairedRead1(), Some(PairedRead2())) ==
            Ok(PairedReads("paired_read", PairedRead1(), Some(PairedRead2()), GenomicInterval(0, 301)))
  {
  }

  lemma PairedWithMissingMate()
    ensures NewPairedReads(MissingPairRead(), None) ==
            Ok(PairedReads("missing_pair_read", MissingPairRead(), None, GenomicInterval(0, 6001)))
  {
  }

  function TestReads(): seq<AlignedRead>
  {
    [PairedRead1(), PairedRead2(), MissingPairRead(), DiscordantRead1(), UnpairedRead1()]
  }

  /** The units the test expects, by ascending name. */
  function ExpectedUnits(): seq<AlignedPair>
  {
    [DiscordantReadKind(NewDiscordantRead(DiscordantRead1())),
     PairedReadsKind(PairedReads("missing_pair_read", MissingPairRead(), None, GenomicInterval(0, 6001))),
     PairedReadsKind(PairedReads("paired_read", PairedRead1(), Some(PairedRead2()), GenomicInterval(0, 301))),
     UnpairedReadKind(NewUnpairedRead(UnpairedRead1()))]
  }

  lemma TestGroups()
    ensures QNames(TestReads()) == {"paired_read", "missing_pair_read", "discordant_read", "unpaired_read"}
    ensures Group(TestReads(), "paired_read") == [PairedRead1(), PairedRead2()]
    ensures Group(TestReads(), "missing_pair_read") == [MissingPairRead()]
    ensures Group(TestReads(), "discordant_read") == [DiscordantRead1()]
    ensures Group(TestReads(), "unpaired_read") == [UnpairedRead1()]
  {
    var input := TestReads();
    var p1, p2, p3, p4 := input[..1], input[..2], input[..3], input[..4];
    assert p1[..0] == [] && p2[..1] == p1 && p3[..2] == p2 && p4[..3] == p3 && input[..4] == p4;
    assert QNames(p1) == {"paired_read"};
    assert QNames(p2) == {"paired_read"};
    assert QNames(p3) == {"paired_read", "missing_pair_read"};
    assert QNames(p4) == {"paired_read", "missing_pair_read", "discordant_read"};
    assert Group(p2, "paired_read") == [PairedRead1(), PairedRead2()];
    assert Group(p3, "missing_pair_read") == [MissingPairRead()];
    assert Group(p4, "discordant_read") == [DiscordantRead1()];
    assert Group(p4, "unpaired_read") == [];
  }

  /** The expected units' names, in ascending order. */
  lemma ExpectedIds()
    ensures var units := ExpectedUnits();
      units[0].Id() == "discordant_read" && units[1].Id() == "missing_pair_read" &&
      units[2].Id() == "paired_read" && units[3].Id() == "unpaired_read"
  {
  }

  lemma ExpectedAscending()
    ensures var units := ExpectedUnits();
      forall a, b :: 0 <= a < b < |units| ==> StrLt(units[a].Id(), units[b].Id())
  {
    ExpectedIds();
    assert StrLt("discordant_read", "missing_pair_read") && StrLt("missing_pair_read", "paired_read");
    assert StrLt("paired_read", "unpaired_read");
    StrLtTransitive("discordant_read", "missing_pair_read", "paired_read");
    StrLtTransitive("discordant_read", "paired_read", "unpaired_read");
    StrLtTransitive("missing_pair_read", "paired_read", "unpaired_read");
  }

  /** Each test group makes the unit the test expects for its name. */
  lemma ExpectedUnitOfGroups()
    ensures var units := ExpectedUnits();
      UnitOf([DiscordantRead1()]) == Ok(units[0]) && UnitOf([MissingPairRead()]) == Ok(units[1]) &&
      UnitOf([PairedRead1(), PairedRead2()]) == Ok(units[2]) && UnitOf([UnpairedRead1()]) == Ok(units[3])
  {
    PairedWithMate();
    PairedWithMissingMate();
  }

  /** The unit at index `j` is the one its name's group makes. */
  lemma ExpectedGroupUnit(j: nat)
    requires j < |ExpectedUnits()|
    ensures var u := ExpectedUnits()[j];
      u.Id() in QNames(TestReads()) && UnitOf(Group(TestReads(), u.Id())) == Ok(u)
  {
    TestGroups();
    ExpectedIds();
    ExpectedUnitOfGroups();
    var u, input := ExpectedUnits()[j], TestReads();
    if j == 0 {
      assert u.Id() == "discordant_read" && Group(input, u.Id()) == [DiscordantRead1()];
    } else if j == 1 {
      assert u.Id() == "missing_pair_read" && Group(input, u.Id()) == [MissingPairRead()];
    } else if j == 2 {
      assert u.Id() == "paired_read" && Group(input, u.Id()) == [PairedRead1(), PairedRead2()];
    } else {
      assert u.Id() == "unpaired_read" && Group(input, u.Id()) == [UnpairedRead1()];
    }
  }

  lemma ExpectedGroupUnits()
    ensures var units := ExpectedUnits();
      forall j :: 0 <= j < |units| ==>
        units[j].Id() in QNames(TestReads()) && UnitOf(Group(TestReads(), units[j].Id())) == Ok(units[j])
  {
    forall j | 0 <= j < |ExpectedUnits()|
      ensures var u := ExpectedUnits()[j];
        u.Id() in QNames(TestReads()) && UnitOf(Group(TestReads(), u.Id())) == Ok(u)
    {
      ExpectedGroupUnit(j);
    }
  }

  lemma ExpectedIsPairing()
    ensures IsPairing(TestReads(), ExpectedUnits())
  {
    TestGroups();
    ExpectedIds();
    ExpectedAscending();
    ExpectedGroupUnits();
    var units := ExpectedUnits();
    forall q | q in QNames(TestReads())
      ensures exists j :: 0 <= j < |units| && units[j].Id() == q
    {
      if q == "discordant_read" { assert units[0].Id() == q; }
      else if q == "missing_pair_read" { assert units[1].Id() == q; }
      else if q == "paired_read" { assert units[2].Id() == q; }
      else { assert units[3].Id() == q; }
    }
  }

  method PairTestReads() returns (r: Result<seq<AlignedPair>>)
    ensures r == Ok(ExpectedUnits())
  {
    TestGroups();
    ExpectedIsPairing();
    r := PairReads(TestReads());
    PairingUnique(TestReads(), r.value, ExpectedUnits());
  }
}
