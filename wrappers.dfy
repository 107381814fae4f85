/** Failure-carrying result types and the 32-bit integer shared by every module of the model. */
module Wrappers {

  /** Rust's `u32`: CIGAR lengths and target ids. */
  type uint32 = x: int | 0 <= x < 0x1_0000_0000

  datatype Option<+T> = None | Some(value: T)

  /** The kinds of `anyhow` errors the core can raise. */
  datatype Error =
    | InvalidCoordinates      // an interval whose end is before its start
    | UnsortedPush            // a push that would leave an AlignmentSearchList unsorted
    | UnmappedRead            // a record whose tid names no contig
    | InvalidPosition         // a record with a negative position
    | InvalidEndPosition      // a record whose CIGAR end position is negative
    | UnrecognizedFileType    // an unsupported file extension

  datatype Result<+T> = Ok(value: T) | Err(error: Error)
}
