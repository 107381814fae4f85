/**
 * `TidMap`: the target ids (tids) of a BAM header and the contig names they
 * stand for. A negative tid marks an unmapped read (section 1.4 of the SAMv1
 * specification).
 */
module Tid {
  import opened Wrappers

  const TID_LIMIT: int := 0x1_0000_0000

  /** `From<BTreeMap<u32, String>>`: the map is wrapped unchanged. */
  datatype TidMap = TidMap(names: map<uint32, string>)
  {
    /** `get_seq_name`: no name for a negative tid, otherwise the map lookup. */
    function GetSeqName(tid: int): (r: Option<string>)
      ensures tid < 0 ==> r.None?
      ensures 0 <= tid ==> (r.Some? <==> tid < TID_LIMIT && tid in names)
      ensures r.Some? ==> 0 <= tid < TID_LIMIT && names[tid] == r.value
    {
      if tid < 0 then None
      else if tid < TID_LIMIT && tid in names then Some(names[tid])
      else None
    }

    /**
     * `get_tid`: `find_map` over the keys in ascending order, so the smallest
     * tid named `seqName`, and nothing exactly when no tid has that name.
     */
    function GetTid(seqName: string): (r: Option<uint32>)
      ensures r.None? <==> forall t :: t in names ==> names[t] != seqName
      ensures r.Some? ==> r.value in names && names[r.value] == seqName
      ensures r.Some? ==> forall t :: t in names && names[t] == seqName ==> r.value <= t
    {
      FindFrom(seqName, 0)
    }

    /** The first tid at or after `tid`, in ascending order, mapped to `seqName`. */
    function FindFrom(seqName: string, tid: nat): (r: Option<uint32>)
      ensures r.None? <==> forall t: uint32 :: tid <= t && t in names ==> names[t] != seqName
      ensures r.Some? ==> tid <= r.value && r.value in names && names[r.value] == seqName
      ensures r.Some? ==> forall t: uint32 :: tid <= t < r.value && t in names ==> names[t] != seqName
      decreases TID_LIMIT - tid
    {
      if tid >= TID_LIMIT then None
      else if tid in names && names[tid] == seqName then Some(tid)
      else FindFrom(seqName, tid + 1)
    }
  }

  /** Round trip: the tid found for a name maps back to that name. */
  lemma {:induction false} GetTidThenName(m: TidMap, seqName: string)
    requires m.GetTid(seqName).Some?
    ensures m.GetSeqName(m.GetTid(seqName).value) == Some(seqName)
  {
  }

  /** Round trip: a name found for a tid is found again, at that tid or a smaller one. */
  lemma {:induction false} GetNameThenTid(m: TidMap, tid: int)
    requires m.GetSeqName(tid).Some?
    ensures m.GetTid(m.GetSeqName(tid).value).Some?
    ensures m.GetTid(m.GetSeqName(tid).value).value <= tid
  {
  }

  /** The header of the test BAM: tid 0 is "euk_genes", tid 1 is "mt". */
  lemma TestMapLookups()
    ensures var m := TidMap(map[0 := "euk_genes", 1 := "mt"]);
      m.GetSeqName(0) == Some("euk_genes") && m.GetSeqName(1) == Some("mt") && m.GetSeqName(-1) == None &&
      m.GetTid("euk_genes") == Some(0) && m.GetTid("mt") == Some(1) && m.GetTid("X") == None
  {
    var m := TidMap(map[0 := "euk_genes", 1 := "mt"]);
    assert m.FindFrom("mt", 0) == m.FindFrom("mt", 1);
    assert m.names[0] != "X" && m.names[1] != "X";
  }
}
