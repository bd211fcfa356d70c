/** Trace records and the disk addresses they stand for. */
module Traces {
  import opened Buckets

  /** One trace record; `md5` holds the characters of its digest. */
  datatype TraceInfo = TraceInfo(ts: nat, lba: nat, rw: char, md5: Bytes) {
    /** The byte offset, lba << 9. */
    function Ofs(): nat { lba * 512 }
  }

  /** Containers hold pointers into the trace; a pointer is the record's position. */
  ghost predicate InTrace(trace: seq<TraceInfo>, s: seq<nat>) {
    forall i :: 0 <= i < |s| ==> s[i] < |trace|
  }

  /** Byte offsets stay within the signed 64-bit range. */
  ghost predicate OffsetsFit(trace: seq<TraceInfo>) {
    forall i :: 0 <= i < |trace| ==> trace[i].lba < 0x40_0000_0000_0000
  }

  /** Earlier in time, ties broken by the position in the trace. */
  predicate Before(trace: seq<TraceInfo>, p: nat, q: nat)
    requires p < |trace| && q < |trace|
  {
    trace[p].ts < trace[q].ts || (trace[p].ts == trace[q].ts && p < q)
  }
}
