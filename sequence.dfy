/** A reference subsequence indexed by genomic coordinates: the bytes plus the coordinate of the first byte. */
module Sequence {
  import opened GenomicCoordinates

  type uint8 = x: int | 0 <= x < 256

  datatype SequenceView = SequenceView(sequence: seq<uint8>, offset: uint64)
  {
    /**
     * Whether `pos` may be looked up. As written the lower bound is strict, so the
     * first byte of the view (at `offset`) is never reported as contained.
     */
    predicate Contains(pos: uint64) {
      pos > offset && pos - offset < |sequence|
    }

    /** `view[pos]`: the byte at genomic position `pos`. */
    function At(pos: uint64): (b: uint8)
      requires offset <= pos < offset + |sequence|
      ensures b == sequence[pos - offset]
    {
      sequence[pos - offset]
    }
  }

  function NewSequenceView(sequence: seq<uint8>, offset: uint64): (v: SequenceView)
    ensures v.sequence == sequence && v.offset == offset
  {
    SequenceView(sequence, offset)
  }

  /** `Contains` describes the interval (offset, offset + len): open below, open above. */
  lemma ContainsIff(v: SequenceView, pos: uint64)
    ensures v.Contains(pos) <==> v.offset < pos < v.offset + |v.sequence|
  {
  }

  /** The first coordinate of the view and the coordinate one past its end are not contained. */
  lemma ContainsExcludesBounds(v: SequenceView)
    ensures !v.Contains(v.offset)
    ensures v.offset + |v.sequence| <= U64_MAX ==> !v.Contains(v.offset + |v.sequence|)
  {
  }

  /** Every contained position can be indexed, and indexing reads the byte `pos - offset` of the buffer. */
  lemma ContainsImpliesIndexable(v: SequenceView, pos: uint64)
    requires v.Contains(pos)
    ensures v.offset <= pos < v.offset + |v.sequence|
    ensures 0 < pos - v.offset < |v.sequence| && v.At(pos) == v.sequence[pos - v.offset]
  {
  }
}
