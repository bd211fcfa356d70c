/**
 What serving a container's records one by one leaves on disk, said of the bytes themselves: appended blocks in order,
 the last block written over each byte, and what each read has found there.
 */
module Effects {
  import opened Buckets
  import opened Traces
  import opened Blocks
  import opened Replay

  /** Record k of the container writes over byte x: in read-write mode only records marked 'W' write. */
  ghost predicate Hits(mode: Mode, trace: seq<TraceInfo>, s: seq<nat>, k: nat, x: nat)
    requires InTrace(trace, s) && k < |s|
  {
    && (mode.ReadWrite? ==> trace[s[k]].rw == 'W')
    && trace[s[k]].lba * 512 <= x < trace[s[k]].lba * 512 + 4096
  }

  /** After the first n records, byte x holds b: that of the last block over it, or the first file's, or zero. */
  ghost predicate HoldsAfter(
    mode: Mode, gen: Generator, trace: seq<TraceInfo>, s: seq<nat>, n: nat, file: Bytes, x: nat, b: Byte
  )
    requires DigestsOk(mode, gen, trace) && InTrace(trace, s) && n <= |s|
  {
    && ((forall k :: 0 <= k < n ==> !Hits(mode, trace, s, k, x)) ==> b == if x < |file| then file[x] else 0)
    && (forall k :: 0 <= k < n && Hits(mode, trace, s, k, x) && NoneLater(mode, trace, s, k, n, x) ==>
          b == Block(gen, trace[s[k]].md5)[x - trace[s[k]].lba * 512])
  }

  ghost predicate NoneLater(mode: Mode, trace: seq<TraceInfo>, s: seq<nat>, k: nat, n: nat, x: nat)
    requires InTrace(trace, s) && n <= |s|
  {
    forall j :: k < j < n ==> !Hits(mode, trace, s, j, x)
  }

  /** The file after the first n records, every byte of it and its length. */
  ghost predicate FileAfter(
    mode: Mode, gen: Generator, trace: seq<TraceInfo>, s: seq<nat>, n: nat, file: Bytes, result: Bytes
  )
    requires DigestsOk(mode, gen, trace) && InTrace(trace, s) && n <= |s|
  {
    && (forall x: nat :: HoldsAfter(mode, gen, trace, s, n, file, x, ByteAt(result, x)))
    && |file| <= |result|
    && (forall k :: 0 <= k < n && (mode.ReadWrite? ==> trace[s[k]].rw == 'W') ==>
          trace[s[k]].lba * 512 + 4096 <= |result|)
    && (|result| == |file| || exists k :: 0 <= k < n && EndsAt(mode, trace, s, k, |result|))
  }

  ghost predicate EndsAt(mode: Mode, trace: seq<TraceInfo>, s: seq<nat>, k: nat, end: nat)
    requires InTrace(trace, s) && k < |s|
  {
    (mode.ReadWrite? ==> trace[s[k]].rw == 'W') && end == trace[s[k]].lba * 512 + 4096
  }

  /** Appending leaves what was there and puts the records' blocks behind it, in order, wherever their addresses are. */
  ghost predicate Appended(gen: Generator, trace: seq<TraceInfo>, s: seq<nat>, n: nat, file: Bytes, result: Bytes)
    requires DigestsOk(Append, gen, trace) && InTrace(trace, s) && n <= |s|
  {
    && |result| == |file| + 4096 * n
    && result[..|file|] == file
    && forall k :: 0 <= k < n ==> Chunk(result, |file|, k) == Block(gen, trace[s[k]].md5)
  }

  /** The k-th 4 KiB behind `base`, as far as there are so many. */
  ghost function Chunk(bytes: Bytes, base: nat, k: nat): Bytes {
    if base + 4096 * k + 4096 <= |bytes| then bytes[base + 4096 * k..base + 4096 * k + 4096] else []
  }

  /** The indices of the records among the first n that are not marked 'W', in order. */
  ghost function ReadsIn(trace: seq<TraceInfo>, s: seq<nat>, n: nat): (r: seq<nat>)
    requires InTrace(trace, s) && n <= |s|
    ensures forall i :: i in r <==> 0 <= i < n && trace[s[i]].rw != 'W'
    ensures forall a, b :: 0 <= a < b < |r| ==> r[a] < r[b]
  {
    if n == 0 then []
    else
      var r := ReadsIn(trace, s, n - 1);
      assert forall a :: 0 <= a < |r| ==> r[a] in r;
      if trace[s[n - 1]].rw == 'W' then r else r + [n - 1]
  }

  /** Record i, a read, finds at its address what the records before it have left there. */
  ghost predicate ReadFinds(gen: Generator, trace: seq<TraceInfo>, s: seq<nat>, i: nat, file: Bytes, data: Bytes)
    requires DigestsOk(ReadWrite, gen, trace) && InTrace(trace, s) && i < |s|
  {
    |data| == 4096 && forall o :: 0 <= o < |data| ==>
      HoldsAfter(ReadWrite, gen, trace, s, i, file, trace[s[i]].lba * 512 + o, data[o])
  }

  /** The dump is what the reads find, 4 KiB each, in order. */
  ghost predicate DumpAfter(gen: Generator, trace: seq<TraceInfo>, s: seq<nat>, n: nat, file: Bytes, dump: Bytes)
    requires DigestsOk(ReadWrite, gen, trace) && InTrace(trace, s) && n <= |s|
  {
    var order := ReadsIn(trace, s, n);
    && |dump| == 4096 * |order|
    && forall r :: 0 <= r < |order| ==>
         order[r] in order && ReadFinds(gen, trace, s, order[r], file, Chunk(dump, 0, r))
  }

  /** The whole effect of a container's records on a file. */
  ghost predicate ReplayedAs(
    mode: Mode, gen: Generator, trace: seq<TraceInfo>, s: seq<nat>, n: nat, file: Bytes, d: Disk
  )
    requires DigestsOk(mode, gen, trace) && InTrace(trace, s) && n <= |s|
  {
    match mode
    case Append => Appended(gen, trace, s, n, file, d.file) && d.dump == []
    case WriteOnly => FileAfter(WriteOnly, gen, trace, s, n, file, d.file) && d.dump == []
    case ReadWrite =>
      FileAfter(ReadWrite, gen, trace, s, n, file, d.file) && DumpAfter(gen, trace, s, n, file, d.dump)
  }

  // ----- Appending

  lemma AppendStep(gen: Generator, trace: seq<TraceInfo>, s: seq<nat>, n: nat, file: Bytes, result: Bytes, block: Bytes)
    requires DigestsOk(Append, gen, trace) && InTrace(trace, s) && n < |s| && Appended(gen, trace, s, n, file, result)
    requires block == Block(gen, trace[s[n]].md5)
    ensures Appended(gen, trace, s, n + 1, file, result + block)
  {
    hide Block, DigestOk;
    var r := result + block;
    assert r[..|file|] == result[..|file|];
    forall k | 0 <= k < n + 1 ensures Chunk(r, |file|, k) == Block(gen, trace[s[k]].md5) {
      if k < n {
        assert Chunk(result, |file|, k) == Block(gen, trace[s[k]].md5);
        ChunkKept(result, block, |file|, k);
      } else {
        assert r[|result|..] == block;
      }
    }
  }

  lemma ChunkKept(bytes: Bytes, more: Bytes, base: nat, k: nat)
    requires base + 4096 * k + 4096 <= |bytes|
    ensures Chunk(bytes + more, base, k) == Chunk(bytes, base, k)
  {
  }

  // ----- Writing in place

  /** A record that does not reach x changes nothing there. */
  lemma HoldsOn(
    mode: Mode, gen: Generator, trace: seq<TraceInfo>, s: seq<nat>, n: nat, file: Bytes, x: nat, b: Byte
  )
    requires DigestsOk(mode, gen, trace) && InTrace(trace, s) && n < |s|
    requires HoldsAfter(mode, gen, trace, s, n, file, x, b) && !Hits(mode, trace, s, n, x)
    ensures HoldsAfter(mode, gen, trace, s, n + 1, file, x, b)
  {
    hide Block, DigestOk, Hits, NoneLater;
    var m := n + 1;
    forall k | 0 <= k < m && Hits(mode, trace, s, k, x) && NoneLater(mode, trace, s, k, m, x)
      ensures k < n && NoneLater(mode, trace, s, k, n, x)
    {
      NoneEarlier(mode, trace, s, k, n, x);
    }
  }

  lemma NoneEarlier(mode: Mode, trace: seq<TraceInfo>, s: seq<nat>, k: nat, n: nat, x: nat)
    requires InTrace(trace, s) && n < |s| && NoneLater(mode, trace, s, k, n + 1, x)
    ensures NoneLater(mode, trace, s, k, n, x) && (k < n ==> !Hits(mode, trace, s, n, x))
  {
    hide Hits;
  }

  /** A record that reaches x leaves its own byte there. */
  lemma HoldsNow(mode: Mode, gen: Generator, trace: seq<TraceInfo>, s: seq<nat>, n: nat, file: Bytes, x: nat, b: Byte)
    requires DigestsOk(mode, gen, trace) && InTrace(trace, s) && n < |s| && Hits(mode, trace, s, n, x)
    requires b == Block(gen, trace[s[n]].md5)[x - trace[s[n]].lba * 512]
    ensures HoldsAfter(mode, gen, trace, s, n + 1, file, x, b)
  {
    hide Block, DigestOk, NoneLater;
    var m := n + 1;
    forall k | 0 <= k < m && Hits(mode, trace, s, k, x) && NoneLater(mode, trace, s, k, m, x) ensures k == n {
      NoneEarlier(mode, trace, s, k, n, x);
    }
  }

  lemma WriteStep(
    mode: Mode, gen: Generator, trace: seq<TraceInfo>, s: seq<nat>, n: nat, file: Bytes, before: Bytes, after: Bytes
  )
    requires DigestsOk(mode, gen, trace) && InTrace(trace, s) && n < |s| && Writes(mode, trace[s[n]]) && !mode.Append?
    requires FileAfter(mode, gen, trace, s, n, file, before)
    requires after == PWrite(before, Block(gen, trace[s[n]].md5), trace[s[n]].Ofs())
    ensures FileAfter(mode, gen, trace, s, n + 1, file, after)
  {
    hide Block, DigestOk, HoldsAfter, ByteAt, PWrite;
    var info := trace[s[n]];
    forall x: nat ensures HoldsAfter(mode, gen, trace, s, n + 1, file, x, ByteAt(after, x)) {
      WrittenByte(before, Block(gen, info.md5), info.Ofs(), x);
      if Hits(mode, trace, s, n, x) {
        HoldsNow(mode, gen, trace, s, n, file, x, ByteAt(after, x));
      } else {
        assert HoldsAfter(mode, gen, trace, s, n, file, x, ByteAt(before, x));
        HoldsOn(mode, gen, trace, s, n, file, x, ByteAt(before, x));
      }
    }
    WrittenLength(before, Block(gen, info.md5), info.Ofs());
    if |after| == info.Ofs() + BLK_SIZE {
      assert EndsAt(mode, trace, s, n, |after|);
    } else if |before| != |file| {
      var k :| 0 <= k < n && EndsAt(mode, trace, s, k, |before|);
      assert EndsAt(mode, trace, s, k, |after|);
    }
  }

  lemma WrittenLength(file: Bytes, data: Bytes, ofs: nat)
    ensures |PWrite(file, data, ofs)| == if |file| < ofs + |data| then ofs + |data| else |file|
  {
  }

  /** A read leaves the file alone. */
  lemma ReadStep(gen: Generator, trace: seq<TraceInfo>, s: seq<nat>, n: nat, file: Bytes, result: Bytes)
    requires DigestsOk(ReadWrite, gen, trace) && InTrace(trace, s) && n < |s| && !Writes(ReadWrite, trace[s[n]])
    requires FileAfter(ReadWrite, gen, trace, s, n, file, result)
    ensures FileAfter(ReadWrite, gen, trace, s, n + 1, file, result)
  {
    hide Block, DigestOk, HoldsAfter, ByteAt;
    forall x: nat ensures HoldsAfter(ReadWrite, gen, trace, s, n + 1, file, x, ByteAt(result, x)) {
      assert HoldsAfter(ReadWrite, gen, trace, s, n, file, x, ByteAt(result, x));
      HoldsOn(ReadWrite, gen, trace, s, n, file, x, ByteAt(result, x));
    }
    if |result| != |file| {
      var k :| 0 <= k < n && EndsAt(ReadWrite, trace, s, k, |result|);
    }
  }

  lemma ReadByte(file: Bytes, ofs: nat, n: nat, o: nat)
    requires o < n
    ensures ReadPadded(file, ofs, n)[o] == ByteAt(file, ofs + o)
  {
  }

  lemma DumpStep(
    gen: Generator, trace: seq<TraceInfo>, s: seq<nat>, n: nat, file: Bytes, result: Bytes, dump: Bytes, data: Bytes
  )
    requires DigestsOk(ReadWrite, gen, trace) && InTrace(trace, s) && n < |s| && !Writes(ReadWrite, trace[s[n]])
    requires FileAfter(ReadWrite, gen, trace, s, n, file, result) && DumpAfter(gen, trace, s, n, file, dump)
    requires data == ReadPadded(result, trace[s[n]].Ofs(), BLK_SIZE)
    ensures DumpAfter(gen, trace, s, n + 1, file, dump + data)
  {
    hide DigestOk, HoldsAfter, ByteAt, ReadPadded, ReadFinds, Chunk;
    var order, order' := ReadsIn(trace, s, n), ReadsIn(trace, s, n + 1);
    assert order' == order + [n];
    forall r | 0 <= r < |order'|
      ensures order'[r] in order' && ReadFinds(gen, trace, s, order'[r], file, Chunk(dump + data, 0, r))
    {
      if r < |order| {
        ChunkKept(dump, data, 0, r);
      } else {
        LastChunk(dump, data, r);
        FoundData(gen, trace, s, n, file, result, data);
      }
    }
  }

  lemma LastChunk(dump: Bytes, data: Bytes, r: nat)
    requires |dump| == 4096 * r && |data| == 4096
    ensures Chunk(dump + data, 0, r) == data
  {
  }

  lemma FoundData(gen: Generator, trace: seq<TraceInfo>, s: seq<nat>, n: nat, file: Bytes, result: Bytes, data: Bytes)
    requires DigestsOk(ReadWrite, gen, trace) && InTrace(trace, s) && n < |s|
    requires FileAfter(ReadWrite, gen, trace, s, n, file, result)
    requires data == ReadPadded(result, trace[s[n]].Ofs(), BLK_SIZE)
    ensures ReadFinds(gen, trace, s, n, file, data)
  {
    hide DigestOk, HoldsAfter, ByteAt, ReadPadded;
    var ofs := trace[s[n]].Ofs();
    forall o | 0 <= o < |data|
      ensures HoldsAfter(ReadWrite, gen, trace, s, n, file, trace[s[n]].lba * 512 + o, data[o])
    {
      ReadByte(result, ofs, BLK_SIZE, o);
      assert HoldsAfter(ReadWrite, gen, trace, s, n, file, ofs + o, ByteAt(result, ofs + o));
    }
  }

  // ----- All records

  lemma NothingYet(mode: Mode, gen: Generator, trace: seq<TraceInfo>, s: seq<nat>, file: Bytes)
    requires DigestsOk(mode, gen, trace) && InTrace(trace, s)
    ensures ReplayedAs(mode, gen, trace, s, 0, file, Disk(file, []))
  {
    hide Block, DigestOk;
  }

  /** In every mode, serving the first n records one by one has exactly this effect. */
  lemma {:induction false} EachReplays(
    mode: Mode, gen: Generator, trace: seq<TraceInfo>, s: seq<nat>, n: nat, file: Bytes
  )
    requires DigestsOk(mode, gen, trace) && InTrace(trace, s) && n <= |s|
    ensures ReplayedAs(mode, gen, trace, s, n, file, Each(mode, gen, trace, s, n, Disk(file, [])))
    decreases n
  {
    hide Block, DigestOk, FileAfter, DumpAfter, Appended, PWrite, ReadPadded;
    if n == 0 {
      NothingYet(mode, gen, trace, s, file);
    } else {
      EachReplays(mode, gen, trace, s, n - 1, file);
      var info, d := trace[s[n - 1]], Each(mode, gen, trace, s, n - 1, Disk(file, []));
      if mode.Append? {
        AppendStep(gen, trace, s, n - 1, file, d.file, Block(gen, info.md5));
      } else if Writes(mode, info) {
        var after := PWrite(d.file, Block(gen, info.md5), info.Ofs());
        WriteStep(mode, gen, trace, s, n - 1, file, d.file, after);
        if mode.ReadWrite? { DumpStays(gen, trace, s, n - 1, file, d.dump); }
      } else {
        ReadStep(gen, trace, s, n - 1, file, d.file);
        DumpStep(gen, trace, s, n - 1, file, d.file, d.dump, ReadPadded(d.file, info.Ofs(), BLK_SIZE));
      }
    }
  }

  lemma DumpStays(gen: Generator, trace: seq<TraceInfo>, s: seq<nat>, n: nat, file: Bytes, dump: Bytes)
    requires DigestsOk(ReadWrite, gen, trace) && InTrace(trace, s) && n < |s| && Writes(ReadWrite, trace[s[n]])
    requires DumpAfter(gen, trace, s, n, file, dump)
    ensures DumpAfter(gen, trace, s, n + 1, file, dump)
  {
    hide DigestOk, ReadFinds, Chunk;
    assert ReadsIn(trace, s, n + 1) == ReadsIn(trace, s, n);
  }
}
