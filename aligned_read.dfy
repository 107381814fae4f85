/**
 * Aligned reads and the units the alignment stacks lay out: a read built from
 * a BAM record, and reads grouped by name into a pair on one contig, a
 * discordant read whose mate lies on another contig, or an unpaired read.
 */
module AlignedReads {
  import opened Wrappers
  import opened GenomicCoordinates
  import opened Sequence
  import opened Ordering
  import opened Tid
  import Cigar
  import Records
  import SequenceDiffs
  import Alignments

  /** One aligned read. The CIGAR is kept as its operations rather than as display text. */
  datatype AlignedRead = AlignedRead(
    id: string,
    qname: string,
    region: GenomicRegion,
    matePos: Option<GenomicRegion>,
    cigar: seq<Cigar.CigarOp>,
    diffs: seq<SequenceDiffs.SequenceDiff>,
    isReverse: bool)

  /**
   * `get_mate_region`: a one-base region at the mate position on the mate's
   * contig, nothing when the mate position or tid is negative or the tid is
   * unknown. It never fails.
   */
  function GetMateRegion(record: Records.Record, tidMap: TidMap): (r: Result<Option<GenomicRegion>>)
    requires record.mpos <= Records.I64_MAX
    ensures r.Ok?
    ensures r.value.Some? <==> 0 <= record.mpos && 0 <= record.mtid && tidMap.GetSeqName(record.mtid).Some?
    ensures r.value.Some? ==>
      r.value.value.seqName == tidMap.GetSeqName(record.mtid).value && r.value.value.Valid() &&
      r.value.value.Start() == record.mpos && r.value.value.Len() == 1
  {
    if record.mpos < 0 || record.mtid < 0 then Ok(None)
    else
      match tidMap.GetSeqName(record.mtid)
      case None => Ok(None)
      case Some(seqName) =>
        match NewRegion(seqName, record.mpos, record.mpos + 1)
        case Err(e) => Err(e)
        case Ok(region) => Ok(Some(region))
  }

  /** How far a diff extends the read's region: a soft clip by its length, the others not at all. */
  function ClipLen(diff: SequenceDiffs.SequenceDiff): nat
  {
    if diff.SoftClip? && diff.interval.Valid() then diff.interval.Len() else 0
  }

  /** The summed lengths of the soft clips among `diffs`. */
  function SoftClipLen(diffs: seq<SequenceDiffs.SequenceDiff>): nat
  {
    if diffs == [] then 0 else SoftClipLen(diffs[..|diffs| - 1]) + ClipLen(diffs[|diffs| - 1])
  }

  /** The soft-clip length of a concatenation is the sum of the parts'. */
  lemma {:induction false} SoftClipLenAppend(a: seq<SequenceDiffs.SequenceDiff>, b: seq<SequenceDiffs.SequenceDiff>)
    ensures SoftClipLen(a + b) == SoftClipLen(a) + SoftClipLen(b)
    decreases |b|
  {
    if b != [] {
      assert (a + b)[..|a + b| - 1] == a + b[..|b| - 1];
      SoftClipLenAppend(a, b[..|b| - 1]);
    } else {
      assert a + b == a;
    }
  }

  /** A read with no soft clip keeps exactly the CIGAR's reference span. */
  lemma {:induction false} NoSoftClipNoExtension(diffs: seq<SequenceDiffs.SequenceDiff>)
    requires forall k :: 0 <= k < |diffs| ==> !diffs[k].SoftClip?
    ensures SoftClipLen(diffs) == 0
  {
    if diffs != [] {
      NoSoftClipNoExtension(diffs[..|diffs| - 1]);
    }
  }

  lemma {:induction false} SoftClipLenPrefix(diffs: seq<SequenceDiffs.SequenceDiff>, i: nat)
    requires i <= |diffs|
    ensures SoftClipLen(diffs[..i]) <= SoftClipLen(diffs)
    decreases |diffs| - i
  {
    if i < |diffs| {
      SoftClipLenPrefix(diffs, i + 1);
      assert diffs[..i + 1][..i] == diffs[..i];
    } else {
      assert diffs[..i] == diffs;
    }
  }

  /**
   * What `from_record` needs of its record beyond the checks it makes: `i64`
   * positions, and for a mapped read at a non-negative position a CIGAR the
   * iterators accept and a region end, soft clips included, that fits a `u64`.
   */
  predicate Convertible(record: Records.Record, refseq: SequenceView, tidMap: TidMap)
  {
    record.pos <= Records.I64_MAX && record.mpos <= Records.I64_MAX &&
    (tidMap.GetSeqName(record.tid).Some? && 0 <= record.pos ==>
       SequenceDiffs.DiffReady(record) &&
       (SequenceDiffs.SequenceDiffsOf(record, refseq).Ok? ==>
          Records.EndPos(record) + SoftClipLen(SequenceDiffs.SequenceDiffsOf(record, refseq).value) <= U64_MAX))
  }

  /** The read id: the name with `/1` for the first read of the template and `/2` otherwise. */
  function ReadId(record: Records.Record): (id: string)
    ensures |id| == |record.qname| + 2 && id[..|record.qname|] == record.qname
    ensures id[|record.qname|..] == (if record.firstInTemplate then "/1" else "/2")
  {
    record.qname + (if record.firstInTemplate then "/1" else "/2")
  }

  /**
   * `AlignedRead::from_record`: fails on an unmapped tid, then on a negative
   * position, then with the diff iterator's error; otherwise the region runs
   * from the position to the CIGAR's end extended by the soft clips.
   */
  function AlignedReadOf(record: Records.Record, refseq: SequenceView, tidMap: TidMap): (r: Result<AlignedRead>)
    requires Convertible(record, refseq, tidMap)
    ensures tidMap.GetSeqName(record.tid).None? ==> r == Err(UnmappedRead)
    ensures tidMap.GetSeqName(record.tid).Some? && record.pos < 0 ==> r == Err(InvalidPosition)
    ensures tidMap.GetSeqName(record.tid).Some? && 0 <= record.pos ==>
      (r.Ok? <==> SequenceDiffs.SequenceDiffsOf(record, refseq).Ok?) &&
      (r.Err? ==> r.error == SequenceDiffs.SequenceDiffsOf(record, refseq).error)
    ensures r.Ok? ==>
      r.value.id == ReadId(record) && r.value.qname == record.qname && r.value.cigar == record.cigar &&
      r.value.isReverse == record.isReverse && r.value.matePos == GetMateRegion(record, tidMap).value
    ensures r.Ok? ==>
      r.value.diffs == SequenceDiffs.SequenceDiffsOf(record, refseq).value &&
      SequenceDiffs.ValidDiffs(r.value.diffs)
    ensures r.Ok? ==>
      r.value.region.seqName == tidMap.GetSeqName(record.tid).value && r.value.region.Valid() &&
      r.value.region.Start() == record.pos && Records.EndPos(record) <= r.value.region.End() &&
      r.value.region.End() == Records.EndPos(record) + SoftClipLen(r.value.diffs)
  {
    match tidMap.GetSeqName(record.tid)
    case None => Err(UnmappedRead)
    case Some(seqName) =>
      if record.pos < 0 then Err(InvalidPosition)
      else
        match SequenceDiffs.SequenceDiffsOf(record, refseq)
        case Err(e) => Err(e)
        case Ok(diffs) =>
          SequenceDiffs.SequenceDiffsValid(record, refseq);
          var region := GenomicRegion(seqName, GenomicInterval(record.pos, Records.EndPos(record) + SoftClipLen(diffs)));
          Ok(AlignedRead(ReadId(record), record.qname, region, GetMateRegion(record, tidMap).value,
                         record.cigar, diffs, record.isReverse))
  }

  /** The loop of `from_record`: the region's end moves right by the length of each soft clip. */
  method ExtendBySoftClips(region: GenomicRegion, diffs: seq<SequenceDiffs.SequenceDiff>) returns (extended: GenomicRegion)
    requires SequenceDiffs.ValidDiffs(diffs) && region.End() + SoftClipLen(diffs) <= U64_MAX
    ensures extended == region.(interval := region.interval.(end := region.End() + SoftClipLen(diffs)))
  {
    extended := region;
    var i := 0;
    while i < |diffs|
      invariant 0 <= i <= |diffs|
      invariant region.End() + SoftClipLen(diffs[..i]) <= U64_MAX
      invariant extended == region.(interval := region.interval.(end := region.End() + SoftClipLen(diffs[..i])))
    {
      SoftClipLenPrefix(diffs, i + 1);
      assert diffs[..i + 1][..i] == diffs[..i];
      if diffs[i].SoftClip? {
        extended := extended.(interval := extended.interval.(end := extended.interval.end + diffs[i].interval.Len()));
      }
      i := i + 1;
    }
    assert diffs[..i] == diffs;
  }

  /**
   * `AlignedRead::from_record` as the source runs it: the diffs are collected
   * from the iterator, then a loop lengthens the region by each soft clip.
   */
  method FromRecord(record: Records.Record, refseq: SequenceView, tidMap: TidMap) returns (r: Result<AlignedRead>)
    requires Convertible(record, refseq, tidMap)
    ensures r == AlignedReadOf(record, refseq, tidMap)
  {
    var seqName := tidMap.GetSeqName(record.tid);
    if seqName.None? {
      return Err(UnmappedRead);
    }
    if record.pos < 0 {
      return Err(InvalidPosition);
    }
    Cigar.SpanWithinRefLen(record.cigar);
    var start: uint64 := record.pos;
    var end: uint64 := Records.EndPos(record);
    var region := NewRegion(seqName.value, start, end).value;
    var collected := SequenceDiffs.CollectDiffs(record, refseq);
    if collected.Err? {
      return Err(collected.error);
    }
    var diffs := collected.value;
    SequenceDiffs.SequenceDiffsValid(record, refseq);
    region := ExtendBySoftClips(region, diffs);
    var matePos := GetMateRegion(record, tidMap).value;
    var id := record.qname;
    if record.firstInTemplate {
      id := id + "/1";
    } else {
      id := id + "/2";
    }
    r := Ok(AlignedRead(id, record.qname, region, matePos, record.cigar, diffs, record.isReverse));
  }

  // ---------------------------------------------------------------------------
  // Pairing units

  /** Both reads of a template on one contig; read 2 is absent when it lies outside the window. */
  datatype PairedReads = PairedReads(id: string, read1: AlignedRead, read2: Option<AlignedRead>, interval: GenomicInterval)

  /** A read without an aligned mate. */
  datatype UnpairedRead = UnpairedRead(id: string, read: AlignedRead, interval: GenomicInterval)

  /** A read whose mate aligns to another contig. */
  datatype DiscordantRead = DiscordantRead(id: string, read: AlignedRead, interval: GenomicInterval)

  function Min(a: uint64, b: uint64): uint64 { if a <= b then a else b }

  function Max(a: uint64, b: uint64): uint64 { if a <= b then b else a }

  /** What read 1 is paired with: read 2's region, or read 1's mate position when read 2 is absent. */
  function MateRegion(read1: AlignedRead, read2: Option<AlignedRead>): GenomicRegion
    requires read2.None? ==> read1.matePos.Some?
  {
    if read2.Some? then read2.value.region else read1.matePos.value
  }

  /** `iv` is the smallest interval holding both `a` and `b`: from the smaller start to the larger end. */
  predicate Spans(iv: GenomicInterval, a: GenomicInterval, b: GenomicInterval)
  {
    iv.start <= a.start && iv.start <= b.start && a.end <= iv.end && b.end <= iv.end &&
    (iv.start == a.start || iv.start == b.start) && (iv.end == a.end || iv.end == b.end)
  }

  /**
   * `PairedReads::new`: named after read 1, over the smallest interval
   * holding read 1 and its partner; it fails only when that interval would
   * be inverted, which a valid region of either read rules out.
   */
  function NewPairedReads(read1: AlignedRead, read2: Option<AlignedRead>): (r: Result<PairedReads>)
    requires read2.None? ==> read1.matePos.Some?
    ensures read1.region.Valid() || MateRegion(read1, read2).Valid() ==> r.Ok?
    ensures r.Err? ==> r.error == InvalidCoordinates
    ensures r.Ok? ==> r.value.id == read1.qname && r.value.read1 == read1 && r.value.read2 == read2
    ensures r.Ok? ==> r.value.interval.Valid()
    ensures r.Ok? ==> Spans(r.value.interval, read1.region.interval, MateRegion(read1, read2).interval)
  {
    var mate := MateRegion(read1, read2);
    match NewInterval(Min(read1.region.Start(), mate.Start()), Max(read1.region.End(), mate.End()))
    case Err(e) => Err(e)
    case Ok(interval) => Ok(PairedReads(read1.qname, read1, read2, interval))
  }

  /** `UnpairedRead::new`. */
  function NewUnpairedRead(read: AlignedRead): UnpairedRead
  {
    UnpairedRead(read.qname, read, read.region.interval)
  }

  /** `DiscordantRead::new`. */
  function NewDiscordantRead(read: AlignedRead): DiscordantRead
  {
    DiscordantRead(read.qname, read, read.region.interval)
  }

  datatype AlignedPair =
    | PairedReadsKind(paired: PairedReads)
    | UnpairedReadKind(unpaired: UnpairedRead)
    | DiscordantReadKind(discordant: DiscordantRead)
  {
    /** The wrapped unit's id. */
    function Id(): string
    {
      match this
      case PairedReadsKind(p) => p.id
      case UnpairedReadKind(u) => u.id
      case DiscordantReadKind(d) => d.id
    }

    /** The wrapped unit's interval; its bounds are the unit's start and end. */
    function Interval(): GenomicInterval
    {
      match this
      case PairedReadsKind(p) => p.interval
      case UnpairedReadKind(u) => u.interval
      case DiscordantReadKind(d) => d.interval
    }

    function Start(): uint64 { Interval().start }

    function End(): uint64 { Interval().end }
  }

  /** A unit as an item of an alignment stack. */
  function AsAlignment(unit: AlignedPair): (a: Alignments.Alignment<AlignedPair>)
    ensures a.id == unit.Id() && a.interval.start == unit.Start() && a.interval.end == unit.End()
    ensures a.payload == unit
  {
    Alignments.Alignment(unit.Id(), unit.Interval(), unit)
  }

  /**
   * The unit a group of same-named reads makes: its first read decides. With
   * a mate on the same contig it pairs with the group's second read, if any;
   * with a mate elsewhere it is discordant; without a mate it is unpaired.
   * Any further reads of the group are dropped.
   */
  function UnitOf(group: seq<AlignedRead>): (r: Result<AlignedPair>)
    requires group != []
    ensures r.Ok? ==> r.value.Id() == group[0].qname
  {
    var read1 := group[0];
    match read1.matePos
    case None => Ok(UnpairedReadKind(NewUnpairedRead(read1)))
    case Some(matePos) =>
      if read1.region.seqName == matePos.seqName then
        match NewPairedReads(read1, if |group| >= 2 then Some(group[1]) else None)
        case Err(e) => Err(e)
        case Ok(pair) => Ok(PairedReadsKind(pair))
      else
        Ok(DiscordantReadKind(NewDiscordantRead(read1)))
  }

  /**
   * What the unit of a group is: it covers its first read; it is unpaired
   * exactly when that read has no mate, paired exactly when the mate is on the
   * read's own contig, with the group's second read as read 2 when there is
   * one, and discordant otherwise; only a pair over an inverted region fails.
   */
  lemma UnitOfCases(group: seq<AlignedRead>)
    requires group != []
    ensures var r := UnitOf(group);
      (group[0].region.Valid() ==> r.Ok?) && (r.Err? ==> r.error == InvalidCoordinates)
    ensures var r := UnitOf(group);
      r.Ok? ==> r.value.Interval().Contains(group[0].region.interval)
    ensures var r := UnitOf(group);
      r.Ok? ==> (r.value.UnpairedReadKind? <==> group[0].matePos.None?)
    ensures var r := UnitOf(group);
      r.Ok? ==> (r.value.PairedReadsKind? <==>
                 group[0].matePos.Some? && group[0].matePos.value.seqName == group[0].region.seqName)
    ensures var r := UnitOf(group);
      r.Ok? && r.value.PairedReadsKind? ==>
        r.value.paired.read1 == group[0] && (r.value.paired.read2.Some? <==> |group| >= 2)
    ensures var r := UnitOf(group);
      r.Ok? && r.value.PairedReadsKind? && |group| >= 2 ==>
        r.value.paired.read2 == Some(group[1]) && r.value.Interval().Contains(group[1].region.interval)
    ensures var r := UnitOf(group);
      r.Ok? && !r.value.PairedReadsKind? ==> r.value.Interval() == group[0].region.interval
  {
  }

  /** The read names of `input`. */
  function QNames(input: seq<AlignedRead>): set<string>
  {
    if input == [] then {} else QNames(input[..|input| - 1]) + {input[|input| - 1].qname}
  }

  /** The names are exactly those the reads carry. */
  lemma {:induction false} QNamesMembers(input: seq<AlignedRead>)
    ensures forall q :: q in QNames(input) <==> exists k :: 0 <= k < |input| && input[k].qname == q
  {
    if input != [] {
      var front := input[..|input| - 1];
      QNamesMembers(front);
      assert forall k :: 0 <= k < |front| ==> front[k] == input[k];
    }
  }

  /** The reads named `q`, in input order: the deque `pair_reads` fills for `q`. */
  function Group(input: seq<AlignedRead>, q: string): (g: seq<AlignedRead>)
    ensures g != [] <==> q in QNames(input)
    ensures |g| <= |input|
    ensures forall k :: 0 <= k < |g| ==> g[k].qname == q
  {
    if input == [] then []
    else Group(input[..|input| - 1], q) + (if input[|input| - 1].qname == q then [input[|input| - 1]] else [])
  }

  /** Every finite set of names has a least element. */
  lemma MinName(names: set<string>) returns (m: string)
    requires names != {}
    ensures m in names && forall k :: k in names ==> StrLe(m, k)
  {
    var x :| x in names;
    if names == {x} {
      StrLtIrreflexive(x);
      return x;
    }
    var rest := MinName(names - {x});
    if StrLt(x, rest) {
      forall k | k in names
        ensures StrLe(x, k)
      {
        if k == x {
          StrLtIrreflexive(x);
        } else {
          assert StrLe(rest, k);
          if StrLt(k, x) {
            StrLtTransitive(k, x, rest);
          }
        }
      }
      m := x;
    } else {
      m := rest;
    }
  }

  /**
   * `units` is the outcome of pairing `input`: one unit per name, ordered by
   * strictly ascending name, each the unit its name's group makes.
   */
  predicate IsPairing(input: seq<AlignedRead>, units: seq<AlignedPair>)
  {
    (forall a, b :: 0 <= a < b < |units| ==> StrLt(units[a].Id(), units[b].Id())) &&
    (forall j :: 0 <= j < |units| ==>
       units[j].Id() in QNames(input) && UnitOf(Group(input, units[j].Id())) == Ok(units[j])) &&
    (forall q :: q in QNames(input) ==> exists j :: 0 <= j < |units| && units[j].Id() == q)
  }

  /** After `i` reads, `byName` maps each name read so far to its group. */
  predicate GroupedUpTo(byName: map<string, seq<AlignedRead>>, input: seq<AlignedRead>, i: nat)
    requires i <= |input|
  {
    byName.Keys == QNames(input[..i]) && forall q :: q in byName ==> byName[q] == Group(input[..i], q)
  }

  lemma QNamesStep(input: seq<AlignedRead>, i: nat)
    requires i < |input|
    ensures QNames(input[..i + 1]) == QNames(input[..i]) + {input[i].qname}
  {
    assert input[..i + 1][..i] == input[..i];
  }

  lemma GroupAppend(input: seq<AlignedRead>, i: nat, q: string)
    requires i < |input|
    ensures Group(input[..i + 1], q) == Group(input[..i], q) + (if input[i].qname == q then [input[i]] else [])
  {
    assert input[..i + 1][..i] == input[..i];
  }

  /** Pushing read `i` onto the back of its name's group extends the grouping by that read. */
  lemma GroupStep(byName: map<string, seq<AlignedRead>>, input: seq<AlignedRead>, i: nat)
    requires i < |input| && GroupedUpTo(byName, input, i)
    ensures var q := input[i].qname;
      GroupedUpTo(byName[q := (if q in byName then byName[q] else []) + [input[i]]], input, i + 1)
  {
    var read := input[i];
    var next := byName[read.qname := (if read.qname in byName then byName[read.qname] else []) + [read]];
    QNamesStep(input, i);
    forall q | q in next
      ensures next[q] == Group(input[..i + 1], q)
    {
      GroupAppend(input, i, q);
    }
  }

  /** The ids of `units`, in order. */
  function Ids(units: seq<AlignedPair>): (ids: seq<string>)
    ensures |ids| == |units| && forall j :: 0 <= j < |units| ==> ids[j] == units[j].Id()
  {
    seq(|units|, j requires 0 <= j < |units| => units[j].Id())
  }

  /** The ids of a pairing are exactly the read names. */
  lemma PairingIdsAreNames(input: seq<AlignedRead>, units: seq<AlignedPair>)
    requires IsPairing(input, units)
    ensures forall q :: q in Ids(units) <==> q in QNames(input)
  {
    forall q | q in QNames(input)
      ensures q in Ids(units)
    {
      var k :| 0 <= k < |units| && units[k].Id() == q;
      assert Ids(units)[k] == q;
    }
  }

  /** A pairing of given reads is unique, so the contract of `PairReads` determines its result. */
  lemma PairingUnique(input: seq<AlignedRead>, x: seq<AlignedPair>, y: seq<AlignedPair>)
    requires IsPairing(input, x) && IsPairing(input, y)
    ensures x == y
  {
    PairingIdsAreNames(input, x);
    PairingIdsAreNames(input, y);
    AscendingUnique(Ids(x), Ids(y));
    forall j | 0 <= j < |x|
      ensures x[j] == y[j]
    {
      assert x[j].Id() == Ids(x)[j] == Ids(y)[j] == y[j].Id();
    }
  }

  /** The first loop of `pair_reads`: each read is pushed onto the back of its name's group. */
  method GroupByName(input: seq<AlignedRead>) returns (byName: map<string, seq<AlignedRead>>)
    ensures byName.Keys == QNames(input)
    ensures forall q :: q in byName ==> byName[q] == Group(input, q)
  {
    byName := map[];
    var i := 0;
    while i < |input|
      invariant 0 <= i <= |input| && GroupedUpTo(byName, input, i)
    {
      var read := input[i];
      GroupStep(byName, input, i);
      var existing := if read.qname in byName then byName[read.qname] else [];
      byName := byName[read.qname := existing + [read]];
      i := i + 1;
    }
    assert input[..i] == input;
  }

  /** Every group is non-empty and starts with a read of its name. */
  predicate GroupsNamed(byName: map<string, seq<AlignedRead>>)
  {
    forall q :: q in byName ==> byName[q] != [] && byName[q][0].qname == q
  }

  /**
   * The names of the second loop of `pair_reads`: those in `order` are done,
   * in strictly ascending order and each below every name still `remaining`.
   */
  predicate NamesInOrder(names: set<string>, remaining: set<string>, order: seq<string>)
  {
    remaining <= names &&
    (forall q :: q in names ==> (q in remaining <==> q !in order)) &&
    (forall j :: 0 <= j < |order| ==> order[j] in names) &&
    (forall a, b :: 0 <= a < b < |order| ==> StrLt(order[a], order[b])) &&
    (forall j, q :: 0 <= j < |order| && q in remaining ==> StrLt(order[j], q))
  }

  /** The units of the second loop of `pair_reads`: `units[j]` is the unit of the group named `order[j]`. */
  predicate UnitsOfNames(byName: map<string, seq<AlignedRead>>, units: seq<AlignedPair>, order: seq<string>)
    requires GroupsNamed(byName)
  {
    |units| == |order| &&
    forall j :: 0 <= j < |order| ==>
      order[j] in byName && UnitOf(byName[order[j]]) == Ok(units[j]) && units[j].Id() == order[j]
  }

  /** Taking the least remaining name keeps the names in order. */
  lemma NameStep(names: set<string>, remaining: set<string>, order: seq<string>, q: string)
    requires NamesInOrder(names, remaining, order)
    requires q in remaining && (forall q' :: q' in remaining ==> StrLe(q, q'))
    ensures NamesInOrder(names, remaining - {q}, order + [q])
  {
    forall q' | q' in remaining - {q}
      ensures StrLt(q, q')
    {
      assert StrLe(q, q') && q != q';
      StrLtTotal(q, q');
    }
  }

  /** Emitting the unit of a name keeps the units matched with the names. */
  lemma UnitStep(byName: map<string, seq<AlignedRead>>, units: seq<AlignedPair>, order: seq<string>,
                 q: string, unit: AlignedPair)
    requires GroupsNamed(byName) && UnitsOfNames(byName, units, order)
    requires q in byName && UnitOf(byName[q]) == Ok(unit)
    ensures UnitsOfNames(byName, units + [unit], order + [q])
  {
  }

  /** When the least remaining name's unit fails, every smaller name's unit succeeded. */
  lemma EmitStopsAtLeast(byName: map<string, seq<AlignedRead>>, remaining: set<string>,
                         units: seq<AlignedPair>, order: seq<string>, q: string)
    requires GroupsNamed(byName) && NamesInOrder(byName.Keys, remaining, order) && UnitsOfNames(byName, units, order)
    requires q in remaining && (forall q' :: q' in remaining ==> StrLe(q, q'))
    ensures forall q' :: q' in byName && StrLt(q', q) ==> UnitOf(byName[q']).Ok?
  {
    forall q' | q' in byName && StrLt(q', q)
      ensures UnitOf(byName[q']).Ok?
    {
      assert !StrLe(q, q');
      assert q' !in remaining;
      var j :| 0 <= j < |order| && order[j] == q';
    }
  }

  /** With no name remaining, the units are one per group, by strictly ascending name. */
  lemma EmitDone(byName: map<string, seq<AlignedRead>>, units: seq<AlignedPair>, order: seq<string>)
    requires GroupsNamed(byName) && NamesInOrder(byName.Keys, {}, order) && UnitsOfNames(byName, units, order)
    ensures forall a, b :: 0 <= a < b < |units| ==> StrLt(units[a].Id(), units[b].Id())
    ensures forall j :: 0 <= j < |units| ==> units[j].Id() in byName && UnitOf(byName[units[j].Id()]) == Ok(units[j])
    ensures forall q :: q in byName ==> exists j :: 0 <= j < |units| && units[j].Id() == q
  {
    forall q | q in byName
      ensures exists j :: 0 <= j < |units| && units[j].Id() == q
    {
      var j :| 0 <= j < |order| && order[j] == q;
      assert units[j].Id() == q;
    }
  }

  /**
   * The second loop of `pair_reads`: the groups, by ascending name, each make
   * one unit, and the first group that fails ends the loop with its error.
   */
  method UnitsByName(byName: map<string, seq<AlignedRead>>) returns (r: Result<seq<AlignedPair>>)
    requires GroupsNamed(byName)
    ensures r.Ok? ==> forall a, b :: 0 <= a < b < |r.value| ==> StrLt(r.value[a].Id(), r.value[b].Id())
    ensures r.Ok? ==> forall j :: 0 <= j < |r.value| ==>
      r.value[j].Id() in byName && UnitOf(byName[r.value[j].Id()]) == Ok(r.value[j])
    ensures r.Ok? ==> forall q :: q in byName ==> exists j :: 0 <= j < |r.value| && r.value[j].Id() == q
    ensures r.Ok? <==> forall q :: q in byName ==> UnitOf(byName[q]).Ok?
    ensures r.Err? ==> exists q :: q in byName && UnitOf(byName[q]) == Err(r.error) &&
                                   forall q' :: q' in byName && StrLt(q', q) ==> UnitOf(byName[q']).Ok?
  {
    var remaining := byName.Keys;
    var units: seq<AlignedPair> := [];
    ghost var order: seq<string> := [];
    while remaining != {}
      invariant NamesInOrder(byName.Keys, remaining, order) && UnitsOfNames(byName, units, order)
      decreases remaining
    {
      ghost var least := MinName(remaining);
      var q :| q in remaining && forall q' :: q' in remaining ==> StrLe(q, q');
      var unit := UnitOf(byName[q]);
      if unit.Err? {
        EmitStopsAtLeast(byName, remaining, units, order, q);
        return Err(unit.error);
      }
      NameStep(byName.Keys, remaining, order, q);
      UnitStep(byName, units, order, q, unit.value);
      units := units + [unit.value];
      order := order + [q];
      remaining := remaining - {q};
    }
    EmitDone(byName, units, order);
    r := Ok(units);
  }

  /**
   * `pair_reads`: the reads are grouped by name in a map, then each group, by
   * ascending name, makes one unit; the first group that fails ends the pairing
   * with its error.
   */
  method PairReads(input: seq<AlignedRead>) returns (r: Result<seq<AlignedPair>>)
    ensures r.Ok? ==> IsPairing(input, r.value)
    ensures r.Ok? <==> forall q :: q in QNames(input) ==> UnitOf(Group(input, q)).Ok?
    ensures r.Err? ==> exists q :: q in QNames(input) && UnitOf(Group(input, q)) == Err(r.error) &&
                                   forall q' :: q' in QNames(input) && StrLt(q', q) ==> UnitOf(Group(input, q')).Ok?
  {
    var byName := GroupByName(input);
    r := UnitsByName(byName);
  }
}
