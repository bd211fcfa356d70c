/** The whole tool: group, split, sort, coalesce, replay. */
module Planner {
  import opened Buckets
  import opened ListSort
  import opened Traces
  import opened Grouping
  import opened Visiting
  import opened Splitting
  import opened Starvation
  import opened ArraySort
  import opened Hints
  import opened Blocks
  import opened Replay
  import opened Effects

  // ----- No record is lost or duplicated

  lemma {:induction false} DistinctElements(s: seq<nat>)
    requires forall i, j :: 0 <= i < j < |s| ==> s[i] != s[j]
    ensures |Elements(s)| == |s|
  {
    if s != [] {
      DistinctElements(s[..|s| - 1]);
    }
  }

  lemma GroupsSize(trace: seq<TraceInfo>, groups: seq<seq<nat>>)
    requires Partitioned(trace, groups)
    ensures |Part(groups, 0, |groups|)| == |trace|
  {
    hide Part, Partitioned;
    var all := Part(groups, 0, |groups|);
    PartOrder(trace, groups, 0, |groups|);
    DistinctElements(all);
    SubsetSize(Elements(all), Range(|trace|));
    forall p: nat | p < |trace| ensures p in all {
      RecordInParts(trace, groups, p);
    }
    SubsetSize(Range(|trace|), Elements(all));
  }

  lemma RecordInParts(trace: seq<TraceInfo>, groups: seq<seq<nat>>, p: nat)
    requires Partitioned(trace, groups) && p < |trace|
    ensures p in Part(groups, 0, |groups|)
  {
    hide Part;
    assert Listed(groups, p);
    var g :| 0 <= g < |groups| && p in groups[g];
    PartCovers(groups, 0, |groups|, g, p);
  }

  /** The workers together hold exactly as many records as the trace. */
  lemma WorkersSize(trace: seq<TraceInfo>, groups: seq<seq<nat>>, workers: seq<seq<nat>>, cuts: seq<nat>)
    requires Partitioned(trace, groups) && IsSplit(groups, workers, cuts)
    ensures |Part(workers, 0, |workers|)| == |trace|
  {
    SplitConserves(groups, workers, cuts, |workers|);
    GroupsSize(trace, groups);
  }

  lemma {:induction false} PartSizeGrows(workers: seq<seq<nat>>, v: nat, w: nat)
    requires v <= w <= |workers|
    ensures |Part(workers, 0, v)| <= |Part(workers, 0, w)|
    decreases w
  {
    if v < w { PartSizeGrows(workers, v, w - 1); }
  }

  // ----- The plan

  datatype Worker = Worker(container: seq<nat>, hintsStart: nat, hintsEnd: nat, bufBlks: nat)

  ghost function Containers(ws: seq<Worker>): seq<seq<nat>> {
    seq(|ws|, w requires 0 <= w < |ws| => ws[w].container)
  }

  /** A worker's slice of the hint array tiles its container, and its buffer holds every request. */
  ghost predicate WorkerOk(trace: seq<TraceInfo>, cap: nat, hints: seq<Hint>, w: Worker) {
    && InTrace(trace, w.container) && w.hintsStart <= w.hintsEnd <= |hints|
    && Tiles(trace, w.container, cap, hints[w.hintsStart..w.hintsEnd], |w.container|)
    && IsMost(hints[w.hintsStart..w.hintsEnd], w.bufBlks)
  }

  /** The same in terms of the addresses. */
  ghost predicate WorkerByAddress(trace: seq<TraceInfo>, cap: nat, hints: seq<Hint>, w: Worker) {
    && InTrace(trace, w.container) && w.hintsStart <= w.hintsEnd <= |hints|
    && AddressTiles(trace, w.container, cap, hints[w.hintsStart..w.hintsEnd])
  }

  lemma WorkerAddresses(trace: seq<TraceInfo>, cap: nat, hints: seq<Hint>, w: Worker)
    requires WorkerOk(trace, cap, hints, w) && OffsetsFit(trace)
    ensures WorkerByAddress(trace, cap, hints, w)
  {
    hide Tiles, IsMost, AddressTiles;
    TilesByAddress(trace, w.container, cap, hints[w.hintsStart..w.hintsEnd]);
  }

  method SortWorker(trace: seq<TraceInfo>, s: seq<nat>) returns (r: seq<nat>)
    requires s != [] && InTrace(trace, s)
    ensures r == SortedByTs(trace, s)
  {
    hide SortedByTs;
    var a := new nat[|s|](i requires 0 <= i < |s| => s[i]);
    assert a[..] == s;
    SortContainer(trace, a);
    r := a[..];
  }

  /** Adding a worker's hints behind those of the earlier workers leaves the earlier ones alone. */
  lemma WorkerKept(trace: seq<TraceInfo>, cap: nat, hints: seq<Hint>, hints': seq<Hint>, idx: nat, w: Worker)
    requires WorkerOk(trace, cap, hints, w) && w.hintsEnd <= idx <= |hints| && idx <= |hints'|
    requires hints'[..idx] == hints[..idx]
    ensures WorkerOk(trace, cap, hints', w)
  {
    hide Tiles, IsMost;
    assert hints'[w.hintsStart..w.hintsEnd] == hints'[..idx][w.hintsStart..w.hintsEnd];
    assert hints[w.hintsStart..w.hintsEnd] == hints[..idx][w.hintsStart..w.hintsEnd];
  }

  /** The records of each worker, before sorting, for every outcome of the random choices. */
  ghost function SplitTrace(trace: seq<TraceInfo>, threads: nat, hash: Bytes -> nat, cmp: Compare, draws: nat -> nat)
    : (split: seq<seq<nat>>)
    requires threads >= 1
    ensures |split| == threads
  {
    SplitOf(VisitedGroups(trace, hash, cmp), threads, PerThread(|trace|, threads), draws)
  }

  /** The sizes of the groups leave no worker without records, whatever is drawn. */
  ghost predicate AlwaysPlans(trace: seq<TraceInfo>, threads: nat, hash: Bytes -> nat, cmp: Compare)
    requires threads >= 1
  {
    Safe(Sizes(VisitedGroups(trace, hash, cmp)), threads, PerThread(|trace|, threads))
  }

  /** A trace is planned under every outcome exactly if its group sizes are safe. */
  lemma PlansExactly(trace: seq<TraceInfo>, threads: nat, hash: Bytes -> nat, cmp: Compare)
    requires threads >= 1
    ensures (forall draws, w :: 0 <= w < threads ==> SplitTrace(trace, threads, hash, cmp, draws)[w] != [])
       <==> AlwaysPlans(trace, threads, hash, cmp)
  {
    hide SplitOf, VisitedGroups, Safe, PerThread;
    VisitedNotEmpty(trace, hash, cmp);
    var groups, per := VisitedGroups(trace, hash, cmp), PerThread(|trace|, threads);
    SplitNeverStarvesExactly(groups, threads, per);
    if !AlwaysPlans(trace, threads, hash, cmp) {
      var draws, w :| 0 <= w < threads && SplitOf(groups, threads, per, draws)[w] == [];
      assert SplitTrace(trace, threads, hash, cmp, draws)[w] == [];
    }
  }

  /**
   Plans the replay. Without a record for some worker the program's behaviour is undefined (the sort's upper bound
   wraps around), which is the answer None.
   */
  method PlanReplay(trace: seq<TraceInfo>, threads: nat, cap: nat, hash: Bytes -> nat, cmp: Compare, draws: nat -> nat)
    returns (plan: Option<seq<Worker>>, hints: seq<Hint>)
    requires threads >= 1 && LbasFit(trace)
    ensures var split := SplitTrace(trace, threads, hash, cmp, draws);
      && (plan.None? <==> exists w :: 0 <= w < threads && split[w] == [])
      && |Part(split, 0, threads)| == |trace|
      && (plan.Some? ==>
          && |plan.value| == threads
          && forall w :: 0 <= w < threads ==>
               InTrace(trace, split[w]) && plan.value[w].container == SortedByTs(trace, split[w]))
    ensures AlwaysPlans(trace, threads, hash, cmp) ==> plan.Some?
    ensures plan.Some? ==>
      && |plan.value| == threads
      && KeepsHistory(trace, Containers(plan.value))
      && |hints| <= |trace|
      && forall w :: 0 <= w < threads ==> WorkerOk(trace, cap, hints, plan.value[w])
    ensures plan.Some? && OffsetsFit(trace) ==>
      forall w :: 0 <= w < threads ==> WorkerByAddress(trace, cap, hints, plan.value[w])
  {
    hide Partitioned, IsSplit, KeepsHistory, WorkerOk, WorkerByAddress, OffsetsFit, Part, SortedByTs, InTrace, SplitOf,
      VisitedGroups, AlwaysPlans, PerThread, Fair, HandedOut;
    var groups := GroupTrace(trace, hash, cmp);
    GroupsNotEmpty(trace, groups);
    var workers, turns := SplitGroups(groups, threads, |trace|, draws);
    ghost var cuts := SplitIsFair(groups, threads, PerThread(|trace|, threads), draws);
    WorkersSize(trace, groups, workers, cuts);
    WorkersInTrace(trace, groups, workers, cuts);
    PlansExactly(trace, threads, hash, cmp);
    assert workers == SplitTrace(trace, threads, hash, cmp, draws);
    hints := [];
    if exists w :: 0 <= w < threads && workers[w] == [] {
      return None, hints;
    }
    var ws, shared, idx := AssignWorkers(trace, workers, cap);
    hints := shared[..idx];
    forall w | 0 <= w < threads
      ensures WorkerOk(trace, cap, hints, ws[w])
      ensures OffsetsFit(trace) ==> WorkerByAddress(trace, cap, hints, ws[w])
    {
      WorkerKept(trace, cap, shared[..], hints, idx, ws[w]);
      if OffsetsFit(trace) { WorkerAddresses(trace, cap, hints, ws[w]); }
    }
    ParallelKeepsHistory(trace, groups, workers, cuts, Containers(ws));
    plan := Some(ws);
  }

  lemma GroupsNotEmpty(trace: seq<TraceInfo>, groups: seq<seq<nat>>)
    requires Partitioned(trace, groups)
    ensures forall i :: 0 <= i < |groups| ==> groups[i] != []
  {
    forall i | 0 <= i < |groups| ensures groups[i] != [] {
      assert OneAddress(trace, groups[i]);
    }
  }

  lemma WorkersInTrace(trace: seq<TraceInfo>, groups: seq<seq<nat>>, workers: seq<seq<nat>>, cuts: seq<nat>)
    requires Partitioned(trace, groups) && IsSplit(groups, workers, cuts)
    ensures forall w :: 0 <= w < |workers| ==> InTrace(trace, workers[w])
  {
    hide Partitioned, Part;
    forall w | 0 <= w < |workers| ensures InTrace(trace, workers[w]) {
      assert cuts[w] <= cuts[w + 1];
      PartInTrace(trace, groups, cuts[w], cuts[w + 1]);
    }
  }

  /** Sorts every worker's container and extracts its hints into one shared array with a slot per record. */
  method AssignWorkers(trace: seq<TraceInfo>, workers: seq<seq<nat>>, cap: nat)
    returns (ws: seq<Worker>, hints: array<Hint>, idx: nat)
    requires forall w :: 0 <= w < |workers| ==> workers[w] != [] && InTrace(trace, workers[w])
    requires |Part(workers, 0, |workers|)| == |trace|
    ensures fresh(hints) && idx <= hints.Length == |trace| && |ws| == |workers|
    ensures forall w :: 0 <= w < |workers| ==>
      ws[w].container == SortedByTs(trace, workers[w]) && ws[w].hintsEnd <= idx
        && WorkerOk(trace, cap, hints[..], ws[w])
  {
    hide WorkerOk, Part, SortedByTs, Tiles, InTrace;
    hints := new Hint[|trace|](_ => Hint(0, 0, ' '));
    idx := 0;
    ws := [];
    PartNone(workers, 0);
    for w := 0 to |workers|
      invariant |ws| == w && fresh(hints) && hints.Length == |trace| && idx <= |Part(workers, 0, w)| <= |trace|
      invariant forall v :: 0 <= v < w ==>
        ws[v].container == SortedByTs(trace, workers[v]) && ws[v].hintsEnd <= idx
        && WorkerOk(trace, cap, hints[..], ws[v])
    {
      PartNext(workers, 0, w);
      PartSizeGrows(workers, w + 1, |workers|);
      var s := SortWorker(trace, workers[w]);
      ghost var before := hints[..];
      var next, most := ExtractHints(trace, s, cap, hints, idx);
      var worker := Worker(s, idx, next, most);
      NewWorkerOk(trace, cap, hints[..], worker);
      forall v | 0 <= v < w ensures WorkerOk(trace, cap, hints[..], ws[v]) {
        assert hints[..][..idx] == before[..idx];
        WorkerKept(trace, cap, before, hints[..], idx, ws[v]);
      }
      ws := ws + [worker];
      idx := next;
    }
  }

  lemma NewWorkerOk(trace: seq<TraceInfo>, cap: nat, hints: seq<Hint>, w: Worker)
    requires InTrace(trace, w.container) && w.hintsStart <= w.hintsEnd <= |hints|
    requires Tiles(trace, w.container, cap, hints[w.hintsStart..w.hintsEnd], |w.container|)
    requires IsMost(hints[w.hintsStart..w.hintsEnd], w.bufBlks)
    ensures WorkerOk(trace, cap, hints, w)
  {
  }

  // ----- The replay of all workers

  lemma WorkerHints(mode: Mode, gen: Generator, trace: seq<TraceInfo>, cap: nat, hints: seq<Hint>, w: Worker)
    requires WorkerOk(trace, cap, hints, w) && DigestsOk(mode, gen, trace) && OffsetsFit(trace)
    ensures InTrace(trace, w.container) && w.hintsStart <= w.hintsEnd <= |hints|
    ensures HintsFit(mode, gen, trace, w.container, hints[w.hintsStart..w.hintsEnd])
    ensures forall i :: 0 <= i < w.hintsEnd - w.hintsStart ==> hints[w.hintsStart..w.hintsEnd][i].blks <= w.bufBlks
  {
    hide Tiles, HintsFit;
    var hs := hints[w.hintsStart..w.hintsEnd];
    TilesFit(mode, gen, trace, w.container, cap, hs, |w.container|);
  }

  lemma WorkerMeaning(mode: Mode, gen: Generator, trace: seq<TraceInfo>, cap: nat, hints: seq<Hint>, w: Worker, d: Disk)
    requires WorkerOk(trace, cap, hints, w) && DigestsOk(mode, gen, trace) && OffsetsFit(trace)
    requires InTrace(trace, w.container) && HintsFit(mode, gen, trace, w.container, hints[w.hintsStart..w.hintsEnd])
    ensures var hs := hints[w.hintsStart..w.hintsEnd];
            ServeHints(mode, gen, trace, w.container, hs, |hs|, d)
              == Each(mode, gen, trace, w.container, |w.container|, d)
  {
    hide Tiles, ServeHints, Each;
    var hs := hints[w.hintsStart..w.hintsEnd];
    assert hs[..|hs|] == hs;
    CoalescingPreserves(mode, gen, trace, w.container, cap, hs, |hs|, |w.container|, d);
  }

  method RunWorker(
    mode: Mode, rg: RandGener, trace: seq<TraceInfo>, ghost cap: nat, hints: seq<Hint>, w: Worker, file: Bytes
  ) returns (d: Disk)
    requires WorkerOk(trace, cap, hints, w) && DigestsOk(mode, rg.Gen(), trace) && OffsetsFit(trace)
    requires rg.Valid()
    modifies rg.Repr
    ensures InTrace(trace, w.container)
    ensures d == Each(mode, rg.Gen(), trace, w.container, |w.container|, Disk(file, []))
    ensures ReplayedAs(mode, rg.Gen(), trace, w.container, |w.container|, file, d)
  {
    hide Tiles, ServeHints, Each, ReplayedAs;
    EachReplays(mode, rg.Gen(), trace, w.container, |w.container|, file);
    WorkerHints(mode, rg.Gen(), trace, cap, hints, w);
    WorkerMeaning(mode, rg.Gen(), trace, cap, hints, w, Disk(file, []));
    var buf := new Byte[w.bufBlks * BLK_SIZE];
    d := ReplayWorker(mode, rg, trace, w.container, hints[w.hintsStart..w.hintsEnd], buf, file);
  }

  /** The records of s have been served on the file one by one. */
  ghost predicate Served(mode: Mode, gen: Generator, trace: seq<TraceInfo>, s: seq<nat>, file: Bytes, d: Disk)
    requires DigestsOk(mode, gen, trace)
  {
    && InTrace(trace, s) && d == Each(mode, gen, trace, s, |s|, Disk(file, []))
    && ReplayedAs(mode, gen, trace, s, |s|, file, d)
  }

  /** Every worker's container in replay order: its share of the split, sorted by time. */
  ghost predicate SortedShares(trace: seq<TraceInfo>, split: seq<seq<nat>>, containers: seq<seq<nat>>) {
    |containers| == |split| && forall w :: 0 <= w < |split| ==>
      InTrace(trace, split[w]) && containers[w] == SortedByTs(trace, split[w])
  }

  /**
   Plans and replays a trace on one file per worker. Each file ends up as if its worker had served its records one by
   one, and together the workers keep the history of every block.
   */
  method ReplayTrace(
    trace: seq<TraceInfo>, threads: nat, cap: nat, mode: Mode, rg: RandGener, hash: Bytes -> nat, cmp: Compare,
    draws: nat -> nat, files: seq<Bytes>
  ) returns (disks: Option<seq<Disk>>, ghost containers: seq<seq<nat>>)
    requires threads >= 1 && |files| == threads && OffsetsFit(trace) && DigestsOk(mode, rg.Gen(), trace)
    requires rg.Valid()
    modifies rg.Repr
    ensures disks.None? <==> exists w :: 0 <= w < threads && SplitTrace(trace, threads, hash, cmp, draws)[w] == []
    ensures AlwaysPlans(trace, threads, hash, cmp) ==> disks.Some?
    ensures disks.Some? ==>
      && |disks.value| == |containers| == threads && KeepsHistory(trace, containers)
      && SortedShares(trace, SplitTrace(trace, threads, hash, cmp, draws), containers)
      && forall w :: 0 <= w < threads ==> Served(mode, rg.Gen(), trace, containers[w], files[w], disks.value[w])
  {
    hide KeepsHistory, WorkerOk, WorkerByAddress, Each, ReplayedAs, Part, SplitTrace, AlwaysPlans, SortedByTs;
    var plan, hints := PlanReplay(trace, threads, cap, hash, cmp, draws);
    containers := [];
    if plan.None? {
      return None, containers;
    }
    var ws, done := plan.value, [];
    containers := Containers(ws);
    for w := 0 to threads
      invariant |done| == w
      invariant forall v :: 0 <= v < w ==> Served(mode, rg.Gen(), trace, containers[v], files[v], done[v])
    {
      var d := RunWorker(mode, rg, trace, cap, hints, ws[w], files[w]);
      done := done + [d];
    }
    disks := Some(done);
  }
}
