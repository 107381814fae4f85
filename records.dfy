/**
 * The fields of an htslib BAM record that the pileup engine reads, as plain
 * data. Positions are 0-based; a negative position or tid marks "unmapped"
 * (section 1.4 of the SAMv1 specification).
 */
module Records {
  import opened Cigar
  import opened Sequence

  /** htslib's `i64` positions and `i32` tids. */
  const I64_MAX: int := 0x7FFF_FFFF_FFFF_FFFF

  datatype Record = Record(
    qname: string,
    pos: int,
    tid: int,
    mtid: int,
    mpos: int,
    cigar: seq<CigarOp>,
    bases: seq<uint8>,
    firstInTemplate: bool,
    isReverse: bool)

  /** `record.cigar().end_pos()`: the position plus the CIGAR's reference span. */
  function EndPos(record: Record): (e: int)
    ensures e >= record.pos
  {
    record.pos + SpanLen(record.cigar)
  }
}
