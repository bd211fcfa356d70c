/** The replay of one worker: one request per hint, against serving every record by itself. */
module Replay {
  import opened Buckets
  import opened Traces
  import opened Hints
  import opened Blocks

  // ----- Files

  function Max(a: nat, b: nat): nat { if a < b then b else a }

  /** pwrite: the file grows as needed; a gap reads as zeros. */
  function PWrite(file: Bytes, data: Bytes, ofs: nat): Bytes {
    seq(Max(|file|, ofs + |data|), x requires 0 <= x =>
      if ofs <= x < ofs + |data| then data[x - ofs] else if x < |file| then file[x] else 0)
  }

  /** pread until end of file, the rest zero. */
  function ReadPadded(file: Bytes, ofs: nat, n: nat): (r: Bytes)
    ensures |r| == n
  {
    seq(n, i requires 0 <= i => if ofs + i < |file| then file[ofs + i] else 0)
  }

  /** A byte of a file; behind its end there are zeros. */
  function ByteAt(file: Bytes, x: nat): Byte { if x < |file| then file[x] else 0 }

  lemma WrittenByte(file: Bytes, data: Bytes, ofs: nat, x: nat)
    ensures ByteAt(PWrite(file, data, ofs), x) == if ofs <= x < ofs + |data| then data[x - ofs] else ByteAt(file, x)
  {
  }

  lemma WriteJoin(file: Bytes, a: Bytes, b: Bytes, ofs: nat)
    ensures PWrite(PWrite(file, a, ofs), b, ofs + |a|) == PWrite(file, a + b, ofs)
  {
  }

  lemma ReadJoin(file: Bytes, ofs: nat, m: nat, n: nat)
    ensures ReadPadded(file, ofs, m) + ReadPadded(file, ofs + m, n) == ReadPadded(file, ofs, m + n)
  {
  }

  datatype Mode = WriteOnly | Append | ReadWrite

  /** The replayed file, and what reads have been dumped so far. */
  datatype Disk = Disk(file: Bytes, dump: Bytes)

  /** Whether a request in this direction writes: only the read-write mode looks at it. */
  predicate WritesAs(mode: Mode, rw: char) { !mode.ReadWrite? || rw == 'W' }

  predicate Writes(mode: Mode, info: TraceInfo) { WritesAs(mode, info.rw) }

  /** The records that are written have digests that fill a block. */
  ghost predicate DigestsOk(mode: Mode, gen: Generator, trace: seq<TraceInfo>) {
    forall i :: 0 <= i < |trace| && Writes(mode, trace[i]) ==> DigestOk(gen, trace[i].md5)
  }

  // ----- The reference: every record by itself, 4 KiB at lba * 512

  ghost function Serve(mode: Mode, gen: Generator, info: TraceInfo, d: Disk): Disk
    requires Writes(mode, info) ==> DigestOk(gen, info.md5)
  {
    match mode
    case Append => d.(file := d.file + Block(gen, info.md5))
    case WriteOnly => d.(file := PWrite(d.file, Block(gen, info.md5), info.Ofs()))
    case ReadWrite =>
      if info.rw == 'W' then d.(file := PWrite(d.file, Block(gen, info.md5), info.Ofs()))
      else d.(dump := d.dump + ReadPadded(d.file, info.Ofs(), BLK_SIZE))
  }

  /** The first n records of a container, one after the other. */
  ghost function Each(mode: Mode, gen: Generator, trace: seq<TraceInfo>, s: seq<nat>, n: nat, d: Disk): Disk
    requires DigestsOk(mode, gen, trace) && InTrace(trace, s) && n <= |s|
  {
    if n == 0 then d else Serve(mode, gen, trace[s[n - 1]], Each(mode, gen, trace, s, n - 1, d))
  }

  // ----- One request per hint

  /** Records start..start + k have digests that fill a block. */
  ghost predicate Fillable(gen: Generator, trace: seq<TraceInfo>, s: seq<nat>, start: nat, k: nat)
    requires InTrace(trace, s) && start + k <= |s|
  {
    forall j :: start <= j < start + k ==> DigestOk(gen, trace[s[j]].md5)
  }

  ghost function Data(gen: Generator, trace: seq<TraceInfo>, s: seq<nat>, start: nat, k: nat): (b: Bytes)
    requires InTrace(trace, s) && start + k <= |s| && Fillable(gen, trace, s, start, k)
    ensures |b| == k * BLK_SIZE
  {
    if k == 0 then [] else Data(gen, trace, s, start, k - 1) + Block(gen, trace[s[start + k - 1]].md5)
  }

  /** A request for k blocks from record `start` on, in the direction rw. */
  ghost function ServeRun(
    mode: Mode, gen: Generator, trace: seq<TraceInfo>, s: seq<nat>, start: nat, k: nat, rw: char, d: Disk
  ): Disk
    requires InTrace(trace, s) && k >= 1 && start + k <= |s|
    requires WritesAs(mode, rw) ==> Fillable(gen, trace, s, start, k)
  {
    var ofs := trace[s[start]].Ofs();
    if !WritesAs(mode, rw) then d.(dump := d.dump + ReadPadded(d.file, ofs, k * BLK_SIZE))
    else
      var data := Data(gen, trace, s, start, k);
      d.(file := if mode.Append? then d.file + data else PWrite(d.file, data, ofs))
  }

  /** The hints lie within the container, and what they write has digests that fill a block. */
  ghost predicate HintsFit(mode: Mode, gen: Generator, trace: seq<TraceInfo>, s: seq<nat>, hs: seq<Hint>)
    requires InTrace(trace, s)
  {
    forall i :: 0 <= i < |hs| ==> HintFits(mode, gen, trace, s, hs[i])
  }

  ghost predicate HintFits(mode: Mode, gen: Generator, trace: seq<TraceInfo>, s: seq<nat>, h: Hint)
    requires InTrace(trace, s)
  {
    h.blks >= 1 && h.start + h.blks <= |s| && (WritesAs(mode, h.rw) ==> Fillable(gen, trace, s, h.start, h.blks))
  }

  ghost function ServeHints(
    mode: Mode, gen: Generator, trace: seq<TraceInfo>, s: seq<nat>, hs: seq<Hint>, n: nat, d: Disk
  ): Disk
    requires InTrace(trace, s) && HintsFit(mode, gen, trace, s, hs) && n <= |hs|
  {
    if n == 0 then d
    else
      var h, before := hs[n - 1], ServeHints(mode, gen, trace, s, hs, n - 1, d);
      assert HintFits(mode, gen, trace, s, h);
      ServeRun(mode, gen, trace, s, h.start, h.blks, h.rw, before)
  }

  // ----- Coalescing preserves meaning

  /** Inside a run, record k is 4096 * k bytes further on. */
  lemma {:induction false} RunOffsets(trace: seq<TraceInfo>, s: seq<nat>, start: nat, k: nat)
    requires InTrace(trace, s) && OffsetsFit(trace) && start + k < |s|
    requires forall j :: start < j <= start + k ==> Adjacent(trace, s, j)
    ensures trace[s[start + k]].Ofs() == trace[s[start]].Ofs() + k * BLK_SIZE
    ensures trace[s[start + k]].rw == trace[s[start]].rw
  {
    if k > 0 {
      RunOffsets(trace, s, start, k - 1);
      AdjacentStep(trace, s, start + k);
      assert Adjacent(trace, s, start + k);
    }
  }

  lemma RunGrowsByOne(
    mode: Mode, gen: Generator, trace: seq<TraceInfo>, s: seq<nat>, start: nat, k: nat, rw: char, d: Disk
  )
    requires InTrace(trace, s) && OffsetsFit(trace) && k >= 1 && start + k < |s|
    requires WritesAs(mode, rw) ==> Fillable(gen, trace, s, start, k + 1)
    requires rw == trace[s[start]].rw && forall j :: start < j <= start + k ==> Adjacent(trace, s, j)
    ensures trace[s[start + k]].rw == rw
    ensures ServeRun(mode, gen, trace, s, start, k + 1, rw, d)
         == Serve(mode, gen, trace[s[start + k]], ServeRun(mode, gen, trace, s, start, k, rw, d))
  {
    hide PWrite, ReadPadded, Block, Adjacent, DigestOk;
    RunOffsets(trace, s, start, k);
    var ofs := trace[s[start]].Ofs();
    if WritesAs(mode, rw) {
      var data, b := Data(gen, trace, s, start, k), Block(gen, trace[s[start + k]].md5);
      assert Data(gen, trace, s, start, k + 1) == data + b;
      WriteJoin(d.file, data, b, ofs);
      assert d.file + data + b == d.file + (data + b);
    } else {
      ReadJoin(d.file, ofs, k * BLK_SIZE, BLK_SIZE);
      assert d.dump + ReadPadded(d.file, ofs, k * BLK_SIZE) + ReadPadded(d.file, ofs + k * BLK_SIZE, BLK_SIZE)
          == d.dump + (ReadPadded(d.file, ofs, k * BLK_SIZE) + ReadPadded(d.file, ofs + k * BLK_SIZE, BLK_SIZE));
    }
  }

  lemma SingleRun(mode: Mode, gen: Generator, trace: seq<TraceInfo>, s: seq<nat>, start: nat, d: Disk)
    requires InTrace(trace, s) && start < |s| && (Writes(mode, trace[s[start]]) ==> DigestOk(gen, trace[s[start]].md5))
    ensures ServeRun(mode, gen, trace, s, start, 1, trace[s[start]].rw, d) == Serve(mode, gen, trace[s[start]], d)
  {
    hide PWrite, ReadPadded, Block, DigestOk;
    if Writes(mode, trace[s[start]]) {
      assert Data(gen, trace, s, start, 0) == [];
      assert Data(gen, trace, s, start, 1) == Block(gen, trace[s[start]].md5);
    }
  }

  /** All records of a run go in the direction of its first; if that writes, all their digests fill a block. */
  lemma RunFillable(mode: Mode, gen: Generator, trace: seq<TraceInfo>, s: seq<nat>, start: nat, k: nat)
    requires DigestsOk(mode, gen, trace) && InTrace(trace, s) && OffsetsFit(trace) && k >= 1 && start + k <= |s|
    requires forall j :: start < j < start + k ==> Adjacent(trace, s, j)
    ensures Writes(mode, trace[s[start]]) ==> Fillable(gen, trace, s, start, k)
  {
    hide Adjacent, DigestOk;
    forall j | start <= j < start + k ensures trace[s[j]].rw == trace[s[start]].rw {
      RunOffsets(trace, s, start, j - start);
    }
  }

  lemma {:induction false} RunIsEach(
    mode: Mode, gen: Generator, trace: seq<TraceInfo>, s: seq<nat>, start: nat, k: nat, d: Disk
  )
    requires DigestsOk(mode, gen, trace) && InTrace(trace, s) && OffsetsFit(trace) && k >= 1 && start + k <= |s|
    requires forall j :: start < j < start + k ==> Adjacent(trace, s, j)
    ensures Writes(mode, trace[s[start]]) ==> Fillable(gen, trace, s, start, k)
    ensures ServeRun(mode, gen, trace, s, start, k, trace[s[start]].rw, Each(mode, gen, trace, s, start, d))
         == Each(mode, gen, trace, s, start + k, d)
    decreases k
  {
    hide ServeRun, Serve, Adjacent, Fillable, DigestOk;
    var d0 := Each(mode, gen, trace, s, start, d);
    RunFillable(mode, gen, trace, s, start, k);
    if k == 1 {
      SingleRun(mode, gen, trace, s, start, d0);
    } else {
      RunIsEach(mode, gen, trace, s, start, k - 1, d);
      RunGrowsByOne(mode, gen, trace, s, start, k - 1, trace[s[start]].rw, d0);
    }
  }

  /** The hints of a tiling fit. */
  lemma TilesFit(mode: Mode, gen: Generator, trace: seq<TraceInfo>, s: seq<nat>, cap: nat, hs: seq<Hint>, end: nat)
    requires DigestsOk(mode, gen, trace) && InTrace(trace, s) && OffsetsFit(trace) && Tiles(trace, s, cap, hs, end)
    ensures HintsFit(mode, gen, trace, s, hs)
  {
    hide Tiles, Adjacent, DigestOk, Fillable;
    forall i | 0 <= i < |hs| ensures HintFits(mode, gen, trace, s, hs[i]) {
      TilesRun(trace, s, cap, hs, end, i);
      RunFillable(mode, gen, trace, s, hs[i].start, hs[i].blks);
    }
  }

  /**
   For every container, cap, mode and initial file: the hints leave the file and the dump that single requests would.
   */
  lemma {:induction false} CoalescingPreserves(
    mode: Mode, gen: Generator, trace: seq<TraceInfo>, s: seq<nat>, cap: nat, hs: seq<Hint>, n: nat, end: nat, d: Disk
  )
    requires DigestsOk(mode, gen, trace) && InTrace(trace, s) && OffsetsFit(trace)
    requires n <= |hs| && Tiles(trace, s, cap, hs[..n], end) && HintsFit(mode, gen, trace, s, hs)
    ensures end <= |s| && ServeHints(mode, gen, trace, s, hs, n, d) == Each(mode, gen, trace, s, end, d)
    decreases n
  {
    hide ServeRun, Serve, Adjacent, Fillable, DigestOk;
    if n > 0 {
      var h := hs[n - 1];
      assert hs[..n][..n - 1] == hs[..n - 1] && hs[..n][n - 1] == h;
      CoalescingPreserves(mode, gen, trace, s, cap, hs, n - 1, h.start, d);
      RunIsEach(mode, gen, trace, s, h.start, h.blks, d);
    }
  }

  // ----- The worker

  /** Fills the buffer with the blocks of k records. */
  method FillRun(rg: RandGener, trace: seq<TraceInfo>, s: seq<nat>, start: nat, k: nat, buf: array<Byte>)
    requires InTrace(trace, s) && start + k <= |s| && Fillable(rg.Gen(), trace, s, start, k)
    requires k * BLK_SIZE <= buf.Length
    requires rg.Valid() && buf !in rg.Repr
    modifies buf, rg.Repr
    ensures buf[..k * BLK_SIZE] == Data(rg.Gen(), trace, s, start, k)
  {
    hide Block;
    for j := 0 to k
      invariant buf[..j * BLK_SIZE] == Data(rg.Gen(), trace, s, start, j)
    {
      ghost var before := buf[..];
      FillBlk(buf, j * BLK_SIZE, trace[s[start + j]].md5, rg);
      assert buf[..j * BLK_SIZE] == before[..j * BLK_SIZE];
      assert buf[..(j + 1) * BLK_SIZE] == buf[..j * BLK_SIZE] + buf[j * BLK_SIZE..j * BLK_SIZE + BLK_SIZE];
    }
  }

  /** One pread: any number of the bytes that are there, none only at the end of the file. */
  method PRead(file: Bytes, ofs: nat, n: nat) returns (data: Bytes)
    requires n > 0
    ensures |data| <= n && (data == [] <==> ofs >= |file|)
    ensures data != [] ==> ofs + |data| <= |file| && data == file[ofs..ofs + |data|]
  {
    if ofs >= |file| {
      return [];
    }
    var most := if |file| - ofs < n then |file| - ofs else n;
    var ret: int := *;
    if ret <= 0 || ret > most {
      ret := most;
    }
    data := file[ofs..ofs + ret];
  }

  /** pread in a loop, as long as it returns bytes, then zeros up to n. */
  method ReadRun(file: Bytes, ofs: nat, n: nat, buf: array<Byte>)
    requires n <= buf.Length
    modifies buf
    ensures buf[..n] == ReadPadded(file, ofs, n)
  {
    var done: nat := 0;
    while done != n
      invariant done <= n && forall i :: 0 <= i < done ==> ofs + i < |file| && buf[i] == file[ofs + i]
      decreases n - done
    {
      var data := PRead(file, ofs + done, n - done);
      if |data| == 0 {
        break;
      }
      CopyInto(buf, done, data);
      done := done + |data|;
    }
    CopyInto(buf, done, seq(n - done, _ => 0));
  }

  /** Executes the hints of one worker on its file. */
  method ReplayWorker(
    mode: Mode, rg: RandGener, trace: seq<TraceInfo>, s: seq<nat>, hs: seq<Hint>, buf: array<Byte>, file: Bytes
  )
    returns (d: Disk)
    requires InTrace(trace, s) && HintsFit(mode, rg.Gen(), trace, s, hs)
    requires forall i :: 0 <= i < |hs| ==> hs[i].blks * BLK_SIZE <= buf.Length
    requires rg.Valid() && buf !in rg.Repr
    modifies buf, rg.Repr
    ensures d == ServeHints(mode, rg.Gen(), trace, s, hs, |hs|, Disk(file, []))
  {
    hide PWrite, ReadPadded, Block, Data;
    d := Disk(file, []);
    for i := 0 to |hs|
      invariant d == ServeHints(mode, rg.Gen(), trace, s, hs, i, Disk(file, []))
    {
      var h := hs[i];
      assert HintFits(mode, rg.Gen(), trace, s, h);
      var n := h.blks * BLK_SIZE;
      var ofs := trace[s[h.start]].Ofs();
      match mode
      case WriteOnly =>
        FillRun(rg, trace, s, h.start, h.blks, buf);
        d := d.(file := PWrite(d.file, buf[..n], ofs));
      case Append =>
        FillRun(rg, trace, s, h.start, h.blks, buf);
        d := d.(file := d.file + buf[..n]);
      case ReadWrite =>
        if h.rw == 'W' {
          FillRun(rg, trace, s, h.start, h.blks, buf);
          d := d.(file := PWrite(d.file, buf[..n], ofs));
        } else {
          ReadRun(d.file, ofs, n, buf);
          d := d.(dump := d.dump + buf[..n]);
        }
    }
  }
}
