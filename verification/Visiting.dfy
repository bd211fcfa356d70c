/**
 The order in which the groups are handed out: that of the sorted list, as a function of the trace and the comparator.
 */
module Visiting {
  import opened Basics
  import opened Buckets
  import opened ListSort
  import opened HashMaps
  import opened HashMapRuns
  import opened Traces
  import opened Grouping

  /** The list before sorting: one cell per address, in the order of first occurrence. */
  ghost function ListOf(trace: seq<TraceInfo>, firsts: seq<nat>, hash: Bytes -> nat): (cells: seq<Cell>)
    requires InTrace(trace, firsts)
    ensures |cells| == |firsts|
  {
    seq(|firsts|, i requires 0 <= i < |firsts| =>
      var key := LbaKey(trace, firsts[i]); Cell(Some(key), hash(key.bytes), i))
  }

  /** The records of the address at which the cell's key points. */
  ghost function GroupOf(trace: seq<TraceInfo>, c: Cell): seq<nat> {
    if c.key.Some? && c.key.value.addr < |trace| then Positions(trace, |trace|, trace[c.key.value.addr].lba) else []
  }

  lemma {:induction false} FirstSeenInTrace(trace: seq<TraceInfo>, n: nat)
    requires n <= |trace|
    ensures InTrace(trace, FirstSeen(trace, n))
    decreases n
  {
    if n > 0 { FirstSeenInTrace(trace, n - 1); }
  }

  /** The groups in the order in which they are visited. */
  ghost function VisitedGroups(trace: seq<TraceInfo>, hash: Bytes -> nat, cmp: Compare): seq<seq<nat>> {
    FirstSeenInTrace(trace, |trace|);
    var cells := Passes(cmp, 1, ListOf(trace, FirstSeen(trace, |trace|), hash));
    seq(|cells|, k requires 0 <= k < |cells| => GroupOf(trace, cells[k]))
  }

  lemma {:induction false} LiveAt(cells: seq<Cell>, i: nat)
    requires AllLive(cells) && i < |cells|
    ensures |Live(cells)| == |cells| && Live(cells)[i] == Entry(cells[i].key.value, cells[i].value)
  {
    var n := |cells| - 1;
    LiveSnoc(cells[..n], cells[n]);
    assert cells == cells[..n] + [cells[n]];
    if n > 0 {
      LiveAt(cells[..n], if i < n then i else 0);
    }
  }

  lemma AllLiveLength(cells: seq<Cell>)
    requires AllLive(cells)
    ensures |Live(cells)| == |cells|
  {
    if cells != [] { LiveAt(cells, 0); }
  }

  /** The chain of a map that holds the groups is the list of first occurrences. */
  lemma ChainIsList(trace: seq<TraceInfo>, bs: seq<Bucket>, hash: Bytes -> nat, ids: seq<nat>, pool: seq<seq<nat>>)
    requires TableOk(bs, hash, ids) && AllLive(Cells(bs, ids))
    requires Grouped(trace, |trace|, Live(Cells(bs, ids)), pool)
    ensures InTrace(trace, FirstSeen(trace, |trace|))
    ensures Cells(bs, ids) == ListOf(trace, FirstSeen(trace, |trace|), hash)
  {
    hide Live, LbaKey, IsGroup, FirstSeen, PathUsed, Unique;
    FirstSeenInTrace(trace, |trace|);
    var cells, firsts := Cells(bs, ids), FirstSeen(trace, |trace|);
    AllLiveLength(cells);
    assert |firsts| == |cells|;
    forall i | 0 <= i < |cells| ensures cells[i] == ListOf(trace, firsts, hash)[i] {
      LiveAt(cells, i);
      assert IsGroup(trace, |trace|, Live(cells)[i], pool[i], i);
      GroupFacts(trace, |trace|, Live(cells)[i], pool[i], i);
      assert Firsts(pool)[i] == firsts[i];
      assert Reachable(bs, hash, ids[i]);
    }
  }

  /** Fetching the containers of the visited entries gives the groups of the visited cells. */
  lemma FetchedAre(trace: seq<TraceInfo>, es: seq<Entry>, pool: seq<seq<nat>>, cells: seq<Cell>)
    requires Grouped(trace, |trace|, es, pool) && AllLive(cells) && multiset(Live(cells)) == multiset(es)
    ensures |Live(cells)| == |cells| && forall k :: 0 <= k < |cells| ==> Live(cells)[k].value < |pool|
    ensures Fetched(pool, Live(cells)) == seq(|cells|, k requires 0 <= k < |cells| => GroupOf(trace, cells[k]))
  {
    hide Live, LeBytes, Positions;
    AllLiveLength(cells);
    forall k | 0 <= k < |cells|
      ensures Live(cells)[k].value < |pool| && pool[Live(cells)[k].value] == GroupOf(trace, cells[k])
    {
      LiveAt(cells, k);
      var i := PermutedElement(Live(cells), es, k);
      assert IsGroup(trace, |trace|, es[i], pool[i], i);
    }
  }

  /** Every visited group has records. */
  lemma VisitedNotEmpty(trace: seq<TraceInfo>, hash: Bytes -> nat, cmp: Compare)
    ensures forall k :: 0 <= k < |VisitedGroups(trace, hash, cmp)| ==> VisitedGroups(trace, hash, cmp)[k] != []
  {
    hide Passes, Positions, FirstSeen, LeBytes;
    FirstSeenInTrace(trace, |trace|);
    var before := ListOf(trace, FirstSeen(trace, |trace|), hash);
    var cells := Passes(cmp, 1, before);
    PassesPermute(cmp, 1, before);
    forall k | 0 <= k < |cells| ensures GroupOf(trace, cells[k]) != [] {
      var i := PermutedElement(cells, before, k);
      var p := FirstSeen(trace, |trace|)[i];
      assert cells[k].key == Some(LbaKey(trace, p));
      PositionsAre(trace, |trace|, trace[p].lba);
      assert p in Positions(trace, |trace|, trace[p].lba);
    }
  }

  lemma PassesLive(cmp: Compare, cells: seq<Cell>)
    requires AllLive(cells)
    ensures AllLive(Passes(cmp, 1, cells))
  {
    PassesPermute(cmp, 1, cells);
    AllLivePermuted(Passes(cmp, 1, cells), cells);
  }

  /** Groups the trace through the hash map and returns the containers in the order the sorted list visits them. */
  method GroupTrace(trace: seq<TraceInfo>, hash: Bytes -> nat, cmp: Compare) returns (groups: seq<seq<nat>>)
    requires LbasFit(trace)
    ensures groups == VisitedGroups(trace, hash, cmp) && Partitioned(trace, groups)
  {
    hide TableOk, Live, Linked, Distinct, Rearranged, Passes, AllLive, IsCapacity, Grouped, ListOf, FirstSeen,
      Partitioned;
    var m := new HashMap(hash, false);
    var pool := BuildTraceContainers(m, trace);
    ghost var es, cells := m.Entries(), Cells(m.buckets[..], m.order);
    EntriesUnique(m);
    ChainIsList(trace, m.buckets[..], hash, m.order, pool);
    PassesLive(cmp, cells);
    m.Sort(cmp);
    var visited := m.Iterate();
    FetchedPartition(trace, es, pool, visited);
    FetchedAre(trace, es, pool, Passes(cmp, 1, cells));
    groups := Fetched(pool, visited);
  }
}
