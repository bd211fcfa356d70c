/** What the replay leaves: every byte of a worker's file, the blocks of isolated addresses, and where draws matter. */
module Outcomes {
  import opened Basics
  import opened Buckets
  import opened Traces
  import opened Grouping
  import opened Visiting
  import opened ListSort
  import opened ListSortOrder
  import opened LbaOrder
  import opened Splitting
  import opened ArraySort
  import opened Blocks
  import opened Replay
  import opened Planner

  // ----- What a byte finally holds

  /** The last record among the first n whose write covers the byte. */
  ghost function LastCover(mode: Mode, trace: seq<TraceInfo>, s: seq<nat>, n: nat, x: nat): (p: Option<nat>)
    requires InTrace(trace, s) && n <= |s|
    ensures p.Some? ==> p.value < |trace| && Writes(mode, trace[p.value]) && Covers(trace[p.value], x)
  {
    if n == 0 then None
    else if Writes(mode, trace[s[n - 1]]) && Covers(trace[s[n - 1]], x) then Some(s[n - 1])
    else LastCover(mode, trace, s, n - 1, x)
  }

  predicate Covers(info: TraceInfo, x: nat) { info.Ofs() <= x < info.Ofs() + BLK_SIZE }

  /** The byte a record's block puts at x. */
  ghost function CoverByte(gen: Generator, info: TraceInfo, x: nat): Byte
    requires DigestOk(gen, info.md5) && Covers(info, x)
  {
    Block(gen, info.md5)[x - info.Ofs()]
  }

  /** Overlapping addresses or not: every byte is that of the last record covering it, or of the initial file. */
  lemma {:induction false} ByteIsLastCover(
    mode: Mode, gen: Generator, trace: seq<TraceInfo>, s: seq<nat>, n: nat, x: nat, d: Disk
  )
    requires DigestsOk(mode, gen, trace) && InTrace(trace, s) && n <= |s| && !mode.Append?
    ensures var byte, last := ByteAt(Each(mode, gen, trace, s, n, d).file, x), LastCover(mode, trace, s, n, x);
      && (last.None? ==> byte == ByteAt(d.file, x))
      && (last.Some? ==> byte == CoverByte(gen, trace[last.value], x))
    decreases n
  {
    hide PWrite, ReadPadded, Block, ByteAt;
    if n > 0 {
      ByteIsLastCover(mode, gen, trace, s, n - 1, x, d);
      var info, before := trace[s[n - 1]], Each(mode, gen, trace, s, n - 1, d);
      if Writes(mode, info) {
        WrittenByte(before.file, Block(gen, info.md5), info.Ofs(), x);
      }
    }
  }

  // ----- What a block finally holds

  /** No other address of the trace overlaps the 4 KiB block of this one. */
  ghost predicate Isolated(trace: seq<TraceInfo>, lba: nat) {
    forall p :: 0 <= p < |trace| ==> trace[p].lba == lba || trace[p].lba + 8 <= lba || lba + 8 <= trace[p].lba
  }

  /** The last record among the first n that writes the block. */
  ghost function LastWrite(mode: Mode, trace: seq<TraceInfo>, s: seq<nat>, n: nat, lba: nat): (p: Option<nat>)
    requires InTrace(trace, s) && n <= |s|
    ensures p.Some? ==> p.value < |trace| && Writes(mode, trace[p.value]) && trace[p.value].lba == lba
  {
    if n == 0 then None
    else if trace[s[n - 1]].lba == lba && Writes(mode, trace[s[n - 1]]) then Some(s[n - 1])
    else LastWrite(mode, trace, s, n - 1, lba)
  }

  lemma ReadBack(file: Bytes, data: Bytes, ofs: nat)
    requires |data| == BLK_SIZE
    ensures ReadPadded(PWrite(file, data, ofs), ofs, BLK_SIZE) == data
  {
  }

  lemma ReadElsewhere(file: Bytes, data: Bytes, ofs: nat, at: nat)
    requires |data| == BLK_SIZE && (ofs + BLK_SIZE <= at || at + BLK_SIZE <= ofs)
    ensures ReadPadded(PWrite(file, data, ofs), at, BLK_SIZE) == ReadPadded(file, at, BLK_SIZE)
  {
  }

  /** After any number of records the block reads as its last write, or as the file it started from. */
  lemma {:induction false} ContentIsLastWrite(
    mode: Mode, gen: Generator, trace: seq<TraceInfo>, s: seq<nat>, n: nat, lba: nat, d: Disk
  )
    requires DigestsOk(mode, gen, trace) && InTrace(trace, s) && n <= |s| && Isolated(trace, lba) && !mode.Append?
    ensures ReadPadded(Each(mode, gen, trace, s, n, d).file, lba * 512, BLK_SIZE)
         == match LastWrite(mode, trace, s, n, lba)
            case Some(p) => Block(gen, trace[p].md5)
            case None => ReadPadded(d.file, lba * 512, BLK_SIZE)
    decreases n
  {
    hide PWrite, ReadPadded, Block;
    if n > 0 {
      ContentIsLastWrite(mode, gen, trace, s, n - 1, lba, d);
      var info, before := trace[s[n - 1]], Each(mode, gen, trace, s, n - 1, d);
      if Writes(mode, info) {
        if info.lba == lba {
          ReadBack(before.file, Block(gen, info.md5), lba * 512);
        } else {
          ReadElsewhere(before.file, Block(gen, info.md5), info.Ofs(), lba * 512);
        }
      }
    }
  }

  /** p is the newest write to its block: every other write to it comes before. */
  ghost predicate NewestWrite(mode: Mode, trace: seq<TraceInfo>, p: nat) {
    && p < |trace| && Writes(mode, trace[p])
    && forall q :: 0 <= q < |trace| && q != p && trace[q].lba == trace[p].lba && Writes(mode, trace[q]) ==>
         Before(trace, q, p)
  }

  lemma {:induction false} LastWriteIsNewest(mode: Mode, trace: seq<TraceInfo>, s: seq<nat>, n: nat, i: nat, p: nat)
    requires InHistoryOrder(trace, s) && i < n <= |s| && s[i] == p && NewestWrite(mode, trace, p)
    ensures LastWrite(mode, trace, s, n, trace[p].lba) == Some(p)
    decreases n
  {
    if i < n - 1 {
      var q := s[n - 1];
      if trace[q].lba == trace[p].lba {
        assert Before(trace, s[i], s[n - 1]);
      }
      LastWriteIsNewest(mode, trace, s, n - 1, i, p);
    }
  }

  /**
   The outcome does not depend on the number of workers, the random choices, the visiting order or the coalescing
   cap: after the replay the block of an isolated address reads as its newest write, in the file of the one worker
   that has it.
   */
  lemma BlockOutcome(
    mode: Mode, gen: Generator, trace: seq<TraceInfo>, containers: seq<seq<nat>>, files: seq<Bytes>, disks: seq<Disk>,
    p: nat
  ) returns (w: nat)
    requires DigestsOk(mode, gen, trace) && KeepsHistory(trace, containers) && |files| == |disks| == |containers|
    requires !mode.Append?
    requires forall v :: 0 <= v < |containers| ==> Served(mode, gen, trace, containers[v], files[v], disks[v])
    requires NewestWrite(mode, trace, p) && Isolated(trace, trace[p].lba)
    ensures w < |containers| && p in containers[w]
    ensures ReadPadded(disks[w].file, trace[p].Ofs(), BLK_SIZE) == Block(gen, trace[p].md5)
    ensures forall v, q :: 0 <= v < |containers| && v != w && q in containers[v] ==>
      q < |trace| && trace[q].lba != trace[p].lba
  {
    hide PWrite, ReadPadded, Block, Each, NewestWrite;
    assert p < |trace| by { NewestInTrace(mode, trace, p); }
    assert Listed(containers, p);
    w :| 0 <= w < |containers| && p in containers[w];
    var s := containers[w];
    var i :| 0 <= i < |s| && s[i] == p;
    assert InHistoryOrder(trace, s) && Served(mode, gen, trace, s, files[w], disks[w]);
    LastWriteIsNewest(mode, trace, s, |s|, i, p);
    ContentIsLastWrite(mode, gen, trace, s, |s|, trace[p].lba, Disk(files[w], []));
    forall v, q | 0 <= v < |containers| && v != w && q in containers[v]
      ensures q < |trace| && trace[q].lba != trace[p].lba
    {
      NoneElsewhere(trace, containers, trace[p].lba, p, v, w);
    }
  }

  lemma NewestInTrace(mode: Mode, trace: seq<TraceInfo>, p: nat)
    requires NewestWrite(mode, trace, p)
    ensures p < |trace|
  {
  }

  // ----- Overlapping addresses

  /** Among all writes covering the byte, p is the newest of its address, and those of other addresses are older. */
  ghost predicate NewestCover(mode: Mode, trace: seq<TraceInfo>, p: nat, x: nat) {
    && p < |trace| && Writes(mode, trace[p]) && Covers(trace[p], x)
    && forall q :: 0 <= q < |trace| && q != p && Writes(mode, trace[q]) && Covers(trace[q], x) ==>
         if trace[q].lba == trace[p].lba then Before(trace, q, p) else trace[q].ts < trace[p].ts
  }

  ghost predicate TimeOrder(trace: seq<TraceInfo>, s: seq<nat>)
    requires InTrace(trace, s)
  {
    forall i, j :: 0 <= i < j < |s| ==> trace[s[i]].ts <= trace[s[j]].ts
  }

  lemma SortedInTime(trace: seq<TraceInfo>, s: seq<nat>)
    requires InTrace(trace, s)
    ensures InTrace(trace, SortedByTs(trace, s)) && TimeOrder(trace, SortedByTs(trace, s))
  {
    hide SortedByTs;
    var related := (p: nat, q: nat) => true;
    SortStable(trace, s, related);
    var r := SortedByTs(trace, s);
    forall i, j | 0 <= i < j < |r| ensures trace[r[i]].ts <= trace[r[j]].ts {
      assert InOrder(trace, r[i], r[j], related);
    }
  }

  lemma {:induction false} LastCoverIsNewest(
    mode: Mode, trace: seq<TraceInfo>, s: seq<nat>, n: nat, i: nat, p: nat, x: nat
  )
    requires InHistoryOrder(trace, s) && TimeOrder(trace, s)
    requires i < n <= |s| && s[i] == p && NewestCover(mode, trace, p, x)
    ensures LastCover(mode, trace, s, n, x) == Some(p)
    decreases n
  {
    hide Covers;
    if i < n - 1 {
      var q := s[n - 1];
      assert trace[s[i]].ts <= trace[s[n - 1]].ts;
      if trace[q].lba == trace[p].lba {
        assert Before(trace, s[i], s[n - 1]);
      }
      LastCoverIsNewest(mode, trace, s, n - 1, i, p, x);
    }
  }

  /**
   Overlap or not, whatever threads, cap, visiting order and draws were: a byte reads as its newest cover, in the file
   of the one worker that has that record, if covers by other addresses are older.
   */
  lemma ByteOutcome(
    mode: Mode, gen: Generator, trace: seq<TraceInfo>, split: seq<seq<nat>>, containers: seq<seq<nat>>,
    files: seq<Bytes>, disks: seq<Disk>, p: nat, x: nat
  ) returns (w: nat)
    requires DigestsOk(mode, gen, trace) && KeepsHistory(trace, containers) && |files| == |disks| == |containers|
    requires !mode.Append? && SortedShares(trace, split, containers)
    requires forall v :: 0 <= v < |containers| ==> Served(mode, gen, trace, containers[v], files[v], disks[v])
    requires NewestCover(mode, trace, p, x)
    ensures w < |containers| && p in containers[w]
    ensures ByteAt(disks[w].file, x) == CoverByte(gen, trace[p], x)
  {
    hide PWrite, Block, Each, ByteAt, CoverByte, SortedByTs;
    assert p < |trace|;
    assert Listed(containers, p);
    w :| 0 <= w < |containers| && p in containers[w];
    var s := containers[w];
    var i :| 0 <= i < |s| && s[i] == p;
    assert InHistoryOrder(trace, s) && Served(mode, gen, trace, s, files[w], disks[w]);
    SortedInTime(trace, split[w]);
    LastCoverIsNewest(mode, trace, s, |s|, i, p, x);
    ByteIsLastCover(mode, gen, trace, s, |s|, x, Disk(files[w], []));
  }

  // ----- A trace on which the draws decide

  /** A digest that repeats one character. */
  function Digest(c: Byte): (md5: Bytes)
    ensures |md5| == 32 && forall i :: 0 <= i < 32 ==> md5[i] == c
  {
    seq(32, _ => c)
  }

  /** Address 4 lies in the middle of the block of address 0. */
  function OverlapTrace(): (trace: seq<TraceInfo>)
    ensures |trace| == 4
  {
    [TraceInfo(0, 0, 'W', Digest(97)), TraceInfo(1, 4, 'W', Digest(98)), TraceInfo(2, 4, 'W', Digest(98)),
     TraceInfo(3, 100, 'W', Digest(98))]
  }

  lemma DigestFills(c: Byte, q: nat)
    requires q < BLK_SIZE
    ensures DigestOk(NullGenerator, Digest(c)) && Block(NullGenerator, Digest(c))[q] == c
  {
    hide Block, DigestOk, Eighth;
    NullDigests(Digest(c));
    EighthFills(Digest(c), q / 512, q % 512);
    EighthIs(Digest(c), q / 512, 0);
  }

  lemma OverlapDigests()
    ensures DigestsOk(WriteOnly, NullGenerator, OverlapTrace())
  {
    hide DigestOk;
    DigestFills(97, 0);
    DigestFills(98, 0);
  }

  lemma OverlapFirsts()
    ensures FirstSeen(OverlapTrace(), 4) == [0, 1, 3]
  {
    var trace := OverlapTrace();
    assert IsFirst(trace, 0) && IsFirst(trace, 1) && IsFirst(trace, 3);
    assert !IsFirst(trace, 2) by { assert trace[1].lba == trace[2].lba; }
    assert FirstSeen(trace, 0) == [];
    assert FirstSeen(trace, 1) == [0];
    assert FirstSeen(trace, 2) == [0, 1];
    assert FirstSeen(trace, 3) == [0, 1];
  }

  lemma OverlapPositions()
    ensures Positions(OverlapTrace(), 4, 0) == [0]
    ensures Positions(OverlapTrace(), 4, 4) == [1, 2]
    ensures Positions(OverlapTrace(), 4, 100) == [3]
  {
    var trace := OverlapTrace();
    var a, b, c := 0, 4, 100;
    assert Positions(trace, 0, a) == Positions(trace, 0, b) == Positions(trace, 0, c) == [];
    assert Positions(trace, 1, a) == [0] && Positions(trace, 1, b) == [] && Positions(trace, 1, c) == [];
    assert Positions(trace, 2, a) == [0] && Positions(trace, 2, b) == [1] && Positions(trace, 2, c) == [];
    assert Positions(trace, 3, a) == [0] && Positions(trace, 3, b) == [1, 2] && Positions(trace, 3, c) == [];
  }

  lemma OverlapVisited(hash: Bytes -> nat)
    ensures VisitedGroups(OverlapTrace(), hash, BY_LBA) == [[0], [1, 2], [3]]
  {
    hide FirstSeen, Positions, AddressBehind, Unsorted, Passes, VisitedGroups, LeBytes, CutDifference, GroupLba, Digest;
    var trace := OverlapTrace();
    OverlapFirsts();
    OverlapPositions();
    OverlapOrder();
    var s := Unsorted(trace, hash);
    UnsortedCells(trace, hash, 0);
    UnsortedCells(trace, hash, 1);
    UnsortedCells(trace, hash, 2);
    ThreeComeOut(BY_LBA, s);
    VisitedMap(trace, hash, BY_LBA);
    assert VisitedGroups(trace, hash, BY_LBA) == [GroupOf(trace, s[0]), GroupOf(trace, s[1]), GroupOf(trace, s[2])];
  }

  lemma OverlapOrder()
    ensures CutDifference(0, 100) <= 0 && CutDifference(4, 100) <= 0
  {
    hide CutDifference;
    CloseAgrees(0, 100);
    CloseAgrees(4, 100);
  }

  lemma OverlapSplit(draw: nat)
    requires draw == 0 || draw == 99
    ensures SplitOf([[0], [1, 2], [3]], 2, 2, _ => draw) == if draw == 0 then [[0], [1, 2, 3]] else [[0, 1, 2], [3]]
  {
    var groups, draws := [[0], [1, 2], [3]], (_: nat) => draw;
    var sizes := Sizes(groups);
    assert sizes == [1, 2, 1];
    assert CursorAt(sizes, 0, 2, 2, draws) == Cursor(0, 0);
    assert TargetOf(sizes, 0, 2, 2, draws) == 0;
    assert CursorAt(sizes, 1, 2, 2, draws) == Cursor(0, 1);
    var w := if draw == 0 then 1 else 0;
    assert Share(2, 1, 2) == 50;
    assert TargetOf(sizes, 1, 2, 2, draws) == w;
    assert CursorAt(sizes, 2, 2, 2, draws) == if draw == 0 then Cursor(1, 2) else Cursor(1, 0);
    assert TargetOf(sizes, 2, 2, 2, draws) == 1;
    forall v: nat | v < 2
      ensures Handed(groups, 3, v, 2, 2, draws) == (if draw == 0 then [[0], [1, 2, 3]] else [[0, 1, 2], [3]])[v]
    {
      assert Handed(groups, 0, v, 2, 2, draws) == [];
      assert Handed(groups, 1, v, 2, 2, draws) == if v == 0 then [0] else [];
      assert Handed(groups, 2, v, 2, 2, draws) == Handed(groups, 1, v, 2, 2, draws) + if v == w then [1, 2] else [];
    }
    assert SplitOf(groups, 2, 2, draws) == if draw == 0 then [[0], [1, 2, 3]] else [[0, 1, 2], [3]];
  }

  /** The file a worker leaves for its share of the split. */
  ghost function FileOf(trace: seq<TraceInfo>, share: seq<nat>, file: Bytes): Bytes
    requires DigestsOk(WriteOnly, NullGenerator, trace) && InTrace(trace, share)
  {
    SortPermutes(trace, share);
    var s := SortedByTs(trace, share);
    Each(WriteOnly, NullGenerator, trace, s, |s|, Disk(file, [])).file
  }

  /**
   Record 0 is the newest write of its address and goes to worker 0 under both outcomes, and both give both workers
   records. The middle of its block reads as record 0 under one outcome and as record 2 under the other.
   */
  lemma OverlapDependsOnDraws(hash: Bytes -> nat, file: Bytes)
    ensures DigestsOk(WriteOnly, NullGenerator, OverlapTrace()) && NewestWrite(WriteOnly, OverlapTrace(), 0)
    ensures SplitTrace(OverlapTrace(), 2, hash, BY_LBA, _ => 0) == [[0], [1, 2, 3]]
    ensures SplitTrace(OverlapTrace(), 2, hash, BY_LBA, _ => 99) == [[0, 1, 2], [3]]
    ensures ByteAt(FileOf(OverlapTrace(), [0], file), 2048) == 97
    ensures ByteAt(FileOf(OverlapTrace(), [0, 1, 2], file), 2048) == 98
  {
    hide Block, Each, ByteAt, SortedByTs, VisitedGroups, SplitOf, DigestOk, Digest;
    OverlapDigests();
    OverlapVisited(hash);
    OverlapSplit(0);
    OverlapSplit(99);
    DigestFills(97, 2048);
    DigestFills(98, 0);
    OverlapByte([0], 0, file);
    OverlapByte([0, 1, 2], 2, file);
  }

  /** The last of these records in time decides about byte 2048. */
  lemma OverlapByte(share: seq<nat>, p: nat, file: Bytes)
    requires DigestsOk(WriteOnly, NullGenerator, OverlapTrace()) && p in share
    requires (share == [0] && p == 0) || (share == [0, 1, 2] && p == 2)
    ensures Covers(OverlapTrace()[p], 2048)
    ensures ByteAt(FileOf(OverlapTrace(), share, file), 2048) == CoverByte(NullGenerator, OverlapTrace()[p], 2048)
  {
    hide Block, Each, ByteAt, SortedByTs, DigestOk, OverlapTrace, DigestsOk, CoverByte;
    var trace := OverlapTrace();
    SortPermutes(trace, share);
    SortedInTime(trace, share);
    var s := SortedByTs(trace, share);
    var i := PermutedElement(share, s, |share| - 1);
    forall j | 0 <= j < |s| ensures s[j] <= p {
      var k := PermutedElement(s, share, j);
    }
    LastInTime(trace, s, |s|, i, p);
    ByteIsLastCover(WriteOnly, NullGenerator, trace, s, |s|, 2048, Disk(file, []));
  }

  lemma {:induction false} LastInTime(trace: seq<TraceInfo>, s: seq<nat>, n: nat, i: nat, p: nat)
    requires trace == OverlapTrace() && InTrace(trace, s) && TimeOrder(trace, s) && i < n <= |s| && s[i] == p
    requires (p == 0 || p == 2) && forall j :: 0 <= j < |s| ==> s[j] <= p
    ensures LastCover(WriteOnly, trace, s, n, 2048) == Some(p)
    decreases n
  {
    hide Digest;
    if i < n - 1 {
      assert trace[s[i]].ts <= trace[s[n - 1]].ts;
      assert s[n - 1] == p;
    }
  }
}
