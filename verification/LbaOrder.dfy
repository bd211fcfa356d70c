/** Does the replay visit the groups in the order of their addresses? Its comparator, cut to 32 bits, and its sort. */
module LbaOrder {
  import opened Basics
  import opened Buckets
  import opened ListSort
  import opened ListQuickSort
  import opened ListSortOrder
  import opened Traces
  import opened Grouping
  import opened Visiting

  // ----- The comparator

  /** The address behind a key pointer; a list without tombstones has no null keys. */
  function AddressBehind(k: Option<Key>): nat { if k.Some? then FromLe(k.value.bytes) else 0 }

  /** The difference of two unsigned 64-bit numbers, returned as a 32-bit int. */
  function CutDifference(x: nat, y: nat): int {
    var low := (x - y) % 0x1_0000_0000_0000_0000 % 0x1_0000_0000;
    if low < 0x8000_0000 then low else low - 0x1_0000_0000
  }

  const BY_LBA: Compare := (a, b) => CutDifference(AddressBehind(a), AddressBehind(b))

  /** Both argument orders give the verdict of the addresses themselves. */
  predicate Agrees(x: nat, y: nat) {
    && (CutDifference(x, y) < 0 <==> x < y) && (CutDifference(x, y) > 0 <==> x > y)
    && (CutDifference(y, x) < 0 <==> y < x) && (CutDifference(y, x) > 0 <==> y > x)
  }

  lemma WholeTurns(a: int, k: int)
    ensures (a + 0x1_0000_0000 * k) % 0x1_0000_0000 == a % 0x1_0000_0000
  {
  }

  lemma CutAgain(d: int)
    ensures d % 0x1_0000_0000_0000_0000 % 0x1_0000_0000 == d % 0x1_0000_0000
  {
    var q, r := d / 0x1_0000_0000_0000_0000, d % 0x1_0000_0000_0000_0000;
    WholeTurns(r, 0x1_0000_0000 * q);
  }

  lemma Opposite(d: int)
    ensures (-d) % 0x1_0000_0000 == if d % 0x1_0000_0000 == 0 then 0 else 0x1_0000_0000 - d % 0x1_0000_0000
  {
  }

  /** It is right about two addresses exactly if they are equal or their distance is 1..2^31 - 1 modulo 2^32. */
  lemma AgreesExactly(x: nat, y: nat)
    ensures Agrees(x, y) <==> x == y || 1 <= (if x < y then y - x else x - y) % 0x1_0000_0000 < 0x8000_0000
  {
    CutAgain(x - y);
    CutAgain(y - x);
    Opposite(x - y);
    assert y - x == -(x - y);
  }

  lemma CloseAgrees(x: nat, y: nat)
    requires x - y < 0x8000_0000 && y - x < 0x8000_0000
    ensures Agrees(x, y)
  {
    AgreesExactly(x, y);
  }

  /** Addresses 2^31 apart are each less than the other, 2^32 apart equal; 2^32 + 1 apart is right again. */
  lemma CutGoesWrong(x: nat)
    ensures CutDifference(x, x + 0x8000_0000) < 0 && CutDifference(x + 0x8000_0000, x) < 0
    ensures CutDifference(x, x + 0x1_0000_0000) == 0
    ensures Agrees(x, x + 0x1_0000_0001)
  {
    CutAgain(0x8000_0000);
    CutAgain(-0x8000_0000);
    CutAgain(-0x1_0000_0000);
    AgreesExactly(x, x + 0x1_0000_0001);
  }

  // ----- On the cells of a list

  /** The comparator is right about every two of these cells. */
  ghost predicate AgreesOn(dom: set<Cell>) {
    forall a, b :: a in dom && b in dom ==> Agrees(AddressBehind(a.key), AddressBehind(b.key))
  }

  /** Then it orders them, and by address. */
  lemma OrdersByAddress(dom: set<Cell>)
    requires AgreesOn(dom)
    ensures Ordering(BY_LBA, dom)
    ensures forall a, b :: a in dom && b in dom ==>
              (AtMost(BY_LBA, a, b) <==> AddressBehind(a.key) <= AddressBehind(b.key))
  {
    hide CutDifference, FromLe, AddressBehind;
    forall a, b | a in dom && b in dom
      ensures Less(BY_LBA, a, b) <==> AddressBehind(a.key) < AddressBehind(b.key)
      ensures BY_LBA(b.key, a.key) > 0 <==> AddressBehind(a.key) < AddressBehind(b.key)
    {
      assert Agrees(AddressBehind(a.key), AddressBehind(b.key));
    }
  }

  ghost predicate Ascending(s: seq<Cell>) {
    forall i, j :: 0 <= i < j < |s| ==> AddressBehind(s[i].key) <= AddressBehind(s[j].key)
  }

  lemma SortedIsAscending(dom: set<Cell>, s: seq<Cell>)
    requires AgreesOn(dom) && Within(s, dom)
    ensures Sorted(BY_LBA, s) <==> Ascending(s)
  {
    hide AddressBehind, AgreesOn, Less;
    OrdersByAddress(dom);
    assert forall i, j :: 0 <= i < j < |s| ==>
      (AtMost(BY_LBA, s[i], s[j]) <==> AddressBehind(s[i].key) <= AddressBehind(s[j].key));
  }

  // ----- The groups of a trace

  ghost predicate TraceAgrees(trace: seq<TraceInfo>) {
    forall p, q :: 0 <= p < |trace| && 0 <= q < |trace| ==> Agrees(trace[p].lba, trace[q].lba)
  }

  lemma CloseTraceAgrees(trace: seq<TraceInfo>)
    requires forall p, q :: 0 <= p < |trace| && 0 <= q < |trace| ==> trace[p].lba - trace[q].lba < 0x8000_0000
    ensures TraceAgrees(trace)
  {
    hide Agrees;
    forall p, q | 0 <= p < |trace| && 0 <= q < |trace| ensures Agrees(trace[p].lba, trace[q].lba) {
      CloseAgrees(trace[p].lba, trace[q].lba);
    }
  }

  ghost function GroupLba(trace: seq<TraceInfo>, g: seq<nat>): nat {
    if g != [] && g[0] < |trace| then trace[g[0]].lba else 0
  }

  /** The groups are handed out in the order of their addresses. */
  ghost predicate VisitsAscending(trace: seq<TraceInfo>, groups: seq<seq<nat>>) {
    forall i, j :: 0 <= i < j < |groups| ==> GroupLba(trace, groups[i]) <= GroupLba(trace, groups[j])
  }

  /** The list before sorting. */
  ghost function Unsorted(trace: seq<TraceInfo>, hash: Bytes -> nat): (s: seq<Cell>)
    ensures |s| == |FirstSeen(trace, |trace|)|
  {
    FirstSeenInTrace(trace, |trace|);
    ListOf(trace, FirstSeen(trace, |trace|), hash)
  }

  ghost predicate FromTrace(trace: seq<TraceInfo>, c: Cell) {
    && c.key.Some? && c.key.value.addr < |trace|
    && AddressBehind(c.key) == trace[c.key.value.addr].lba
    && GroupLba(trace, GroupOf(trace, c)) == trace[c.key.value.addr].lba
  }

  lemma KeyIsLba(trace: seq<TraceInfo>, p: nat)
    requires LbasFit(trace) && p < |trace|
    ensures AddressBehind(Some(LbaKey(trace, p))) == trace[p].lba
  {
    hide FromLe, LeBytes;
    PowerOfEight();
    FromLeBytes(trace[p].lba, 8);
  }

  lemma GroupOfFirst(trace: seq<TraceInfo>, c: Cell)
    requires c.key.Some? && c.key.value.addr < |trace|
    ensures GroupLba(trace, GroupOf(trace, c)) == trace[c.key.value.addr].lba
  {
    hide Positions;
    var p := c.key.value.addr;
    PositionsAre(trace, |trace|, trace[p].lba);
    var g := Positions(trace, |trace|, trace[p].lba);
    assert p in g;
    assert g[0] in g;
  }

  lemma UnsortedCells(trace: seq<TraceInfo>, hash: Bytes -> nat, i: nat)
    requires LbasFit(trace) && i < |FirstSeen(trace, |trace|)|
    ensures var f := FirstSeen(trace, |trace|);
            f[i] < |trace| && Unsorted(trace, hash)[i].key == Some(LbaKey(trace, f[i]))
            && FromTrace(trace, Unsorted(trace, hash)[i])
  {
    hide FirstSeen, LeBytes, AddressBehind, GroupOf, GroupLba;
    FirstSeenInTrace(trace, |trace|);
    KeyIsLba(trace, FirstSeen(trace, |trace|)[i]);
    GroupOfFirst(trace, Unsorted(trace, hash)[i]);
  }

  ghost function CellsOf(s: seq<Cell>): (dom: set<Cell>)
    ensures Within(s, dom) && forall c :: c in dom ==> c in s
  {
    set c | c in s
  }

  lemma UnsortedAgrees(trace: seq<TraceInfo>, hash: Bytes -> nat)
    requires LbasFit(trace) && TraceAgrees(trace)
    ensures AgreesOn(CellsOf(Unsorted(trace, hash)))
  {
    hide FirstSeen, Unsorted, Agrees, GroupOf, GroupLba, AddressBehind;
    var s := Unsorted(trace, hash);
    forall a, b | a in CellsOf(s) && b in CellsOf(s) ensures Agrees(AddressBehind(a.key), AddressBehind(b.key)) {
      var i :| 0 <= i < |s| && s[i] == a;
      var j :| 0 <= j < |s| && s[j] == b;
      UnsortedCells(trace, hash, i);
      UnsortedCells(trace, hash, j);
    }
  }

  /** For every comparator: the groups are visited by ascending address exactly if the list comes out so. */
  lemma VisitedAre(trace: seq<TraceInfo>, hash: Bytes -> nat, cmp: Compare)
    requires LbasFit(trace)
    ensures VisitsAscending(trace, VisitedGroups(trace, hash, cmp)) <==>
            Ascending(Passes(cmp, 1, Unsorted(trace, hash)))
  {
    hide FirstSeen, ListOf, Passes, GroupOf, GroupLba, AddressBehind;
    var before := Unsorted(trace, hash);
    var cells, groups := Passes(cmp, 1, before), VisitedGroups(trace, hash, cmp);
    PassesPermute(cmp, 1, before);
    forall k | 0 <= k < |cells| ensures GroupLba(trace, groups[k]) == AddressBehind(cells[k].key) {
      var i := PermutedElement(cells, before, k);
      UnsortedCells(trace, hash, i);
      assert groups[k] == GroupOf(trace, cells[k]);
    }
  }

  /**
   Where the comparator is right about all addresses of the trace: the groups are visited by ascending address if and
   only if what the sort makes of the two parts of the list can be merged.
   */
  lemma VisitsAscendingExactly(trace: seq<TraceInfo>, hash: Bytes -> nat)
    requires LbasFit(trace) && TraceAgrees(trace) && |FirstSeen(trace, |trace|)| >= 2
    ensures var s := Unsorted(trace, hash);
            var g := LastGap(|s|);
            VisitsAscending(trace, VisitedGroups(trace, hash, BY_LBA)) <==>
            Mergeable(BY_LBA, Passes(BY_LBA, 1, s[..g]), Passes(BY_LBA, 1, s[g..]))
  {
    hide FirstSeen, Unsorted, Passes, VisitedGroups, VisitsAscending, Mergeable, Sorted, Ascending, Ordering, AgreesOn,
      TraceAgrees;
    var s := Unsorted(trace, hash);
    var dom := CellsOf(s);
    UnsortedAgrees(trace, hash);
    OrdersByAddress(dom);
    VisitedAre(trace, hash, BY_LBA);
    PassesWithin(BY_LBA, dom, s);
    SortedIsAscending(dom, Passes(BY_LBA, 1, s));
    SortedExactly(BY_LBA, dom, s);
  }

  /** The guard in terms of the trace: at every gap, neighbouring runs of first occurrences start in address order. */
  ghost predicate RunsStartInOrder(trace: seq<TraceInfo>) {
    var f := FirstSeen(trace, |trace|);
    && InTrace(trace, f)
    && forall j: nat, q: nat :: RunStart(j, q) + Pow2(j) < |f| ==>
         trace[f[RunStart(j, q)]].lba <= trace[f[RunStart(j, q) + Pow2(j)]].lba
  }

  /** Under the guard the groups are visited by ascending address. */
  lemma VisitsAscendingUnderGuard(trace: seq<TraceInfo>, hash: Bytes -> nat)
    requires LbasFit(trace) && TraceAgrees(trace) && RunsStartInOrder(trace)
    ensures VisitsAscending(trace, VisitedGroups(trace, hash, BY_LBA))
  {
    hide FirstSeen, Unsorted, Passes, VisitedGroups, VisitsAscending, Sorted, Ascending, Ordering, AgreesOn,
      TraceAgrees, AtMost, AddressBehind, RunStart, GroupLba, GroupOf;
    var s, f := Unsorted(trace, hash), FirstSeen(trace, |trace|);
    var dom := CellsOf(s);
    UnsortedAgrees(trace, hash);
    OrdersByAddress(dom);
    forall j: nat, q: nat | RunStart(j, q) + Pow2(j) < |s|
      ensures AtMost(BY_LBA, s[RunStart(j, q)], s[RunStart(j, q) + Pow2(j)])
    {
      UnsortedCells(trace, hash, RunStart(j, q));
      UnsortedCells(trace, hash, RunStart(j, q) + Pow2(j));
    }
    SortsUnderGuard(BY_LBA, dom, s);
    PassesWithin(BY_LBA, dom, s);
    SortedIsAscending(dom, Passes(BY_LBA, 1, s));
    VisitedAre(trace, hash, BY_LBA);
  }

  /** Two addresses, whatever they are: visited in the order in which they occur first. */
  lemma TwoVisitAscendingExactly(trace: seq<TraceInfo>, hash: Bytes -> nat)
    requires LbasFit(trace) && |FirstSeen(trace, |trace|)| == 2
    ensures var f := FirstSeen(trace, |trace|);
            InTrace(trace, f)
            && (VisitsAscending(trace, VisitedGroups(trace, hash, BY_LBA)) <==> trace[f[0]].lba <= trace[f[1]].lba)
  {
    hide FirstSeen, Unsorted, Passes, VisitedGroups, VisitsAscending, AddressBehind, GroupLba, GroupOf;
    var s := Unsorted(trace, hash);
    FirstSeenInTrace(trace, |trace|);
    VisitedAre(trace, hash, BY_LBA);
    PairStaysUnsorted(BY_LBA, s);
    UnsortedCells(trace, hash, 0);
    UnsortedCells(trace, hash, 1);
  }

  /** Three addresses the comparator is right about: ascending exactly if the second is not below both others. */
  lemma ThreeVisitAscendingExactly(trace: seq<TraceInfo>, hash: Bytes -> nat)
    requires LbasFit(trace) && TraceAgrees(trace) && |FirstSeen(trace, |trace|)| == 3
    ensures var f := FirstSeen(trace, |trace|);
            InTrace(trace, f)
            && (VisitsAscending(trace, VisitedGroups(trace, hash, BY_LBA)) <==>
                trace[f[0]].lba <= trace[f[1]].lba || trace[f[2]].lba <= trace[f[1]].lba)
  {
    hide FirstSeen, Unsorted, Passes, VisitedGroups, VisitsAscending, Sorted, Ascending, Ordering, AgreesOn,
      TraceAgrees, AtMost, AddressBehind, GroupLba, GroupOf;
    var s := Unsorted(trace, hash);
    var dom := CellsOf(s);
    FirstSeenInTrace(trace, |trace|);
    UnsortedAgrees(trace, hash);
    OrdersByAddress(dom);
    VisitedAre(trace, hash, BY_LBA);
    PassesWithin(BY_LBA, dom, s);
    SortedIsAscending(dom, Passes(BY_LBA, 1, s));
    ThreeSortedExactly(BY_LBA, dom, s);
    forall i | 0 <= i < 3 ensures AddressBehind(s[i].key) == trace[FirstSeen(trace, |trace|)[i]].lba {
      UnsortedCells(trace, hash, i);
    }
  }

  /** Four addresses the comparator is right about: ascending exactly if both pairs are. */
  lemma FourVisitAscendingExactly(trace: seq<TraceInfo>, hash: Bytes -> nat)
    requires LbasFit(trace) && TraceAgrees(trace) && |FirstSeen(trace, |trace|)| == 4
    ensures var f := FirstSeen(trace, |trace|);
            InTrace(trace, f)
            && (VisitsAscending(trace, VisitedGroups(trace, hash, BY_LBA)) <==>
                trace[f[0]].lba <= trace[f[1]].lba && trace[f[2]].lba <= trace[f[3]].lba)
  {
    hide FirstSeen, Unsorted, Passes, VisitedGroups, VisitsAscending, Sorted, Ascending, Ordering, AgreesOn,
      TraceAgrees, AtMost, AddressBehind, GroupLba, GroupOf;
    var s := Unsorted(trace, hash);
    var dom := CellsOf(s);
    FirstSeenInTrace(trace, |trace|);
    UnsortedAgrees(trace, hash);
    OrdersByAddress(dom);
    VisitedAre(trace, hash, BY_LBA);
    PassesWithin(BY_LBA, dom, s);
    SortedIsAscending(dom, Passes(BY_LBA, 1, s));
    FourSortedExactly(BY_LBA, dom, s);
    forall i | 0 <= i < 4 ensures AddressBehind(s[i].key) == trace[FirstSeen(trace, |trace|)[i]].lba {
      UnsortedCells(trace, hash, i);
    }
  }

  // ----- Traces on which the order goes wrong

  /** A trace with one record per address. */
  function TraceOf(lbas: seq<nat>): (trace: seq<TraceInfo>)
    ensures |trace| == |lbas| && forall i :: 0 <= i < |lbas| ==> trace[i].lba == lbas[i]
  {
    seq(|lbas|, i requires 0 <= i < |lbas| => TraceInfo(i, lbas[i], 'W', []))
  }

  lemma {:induction false} AllFirst(trace: seq<TraceInfo>, n: nat)
    requires n <= |trace| && forall p, q :: 0 <= p < q < |trace| ==> trace[p].lba != trace[q].lba
    ensures FirstSeen(trace, n) == seq(n, i => i)
    decreases n
  {
    if n > 0 { AllFirst(trace, n - 1); }
  }

  lemma {:induction false} AlonePosition(trace: seq<TraceInfo>, n: nat, p: nat)
    requires n <= |trace| && p < |trace| && forall q :: 0 <= q < |trace| && q != p ==> trace[q].lba != trace[p].lba
    ensures Positions(trace, n, trace[p].lba) == if p < n then [p] else []
    decreases n
  {
    if n > 0 { AlonePosition(trace, n - 1, p); }
  }

  /** Records of pairwise different addresses: cell i of the list stands for record i alone. */
  lemma SingleRecords(trace: seq<TraceInfo>, hash: Bytes -> nat)
    requires LbasFit(trace) && forall p, q :: 0 <= p < q < |trace| ==> trace[p].lba != trace[q].lba
    ensures |Unsorted(trace, hash)| == |FirstSeen(trace, |trace|)| == |trace|
    ensures forall i :: 0 <= i < |trace| ==>
      && FirstSeen(trace, |trace|)[i] == i
      && AddressBehind(Unsorted(trace, hash)[i].key) == trace[i].lba
      && GroupOf(trace, Unsorted(trace, hash)[i]) == [i]
  {
    hide FirstSeen, AddressBehind, GroupLba, LeBytes, Positions, ListOf;
    AllFirst(trace, |trace|);
    forall i | 0 <= i < |trace|
      ensures AddressBehind(Unsorted(trace, hash)[i].key) == trace[i].lba
      ensures GroupOf(trace, Unsorted(trace, hash)[i]) == [i]
    {
      UnsortedCells(trace, hash, i);
      AlonePosition(trace, |trace|, i);
    }
  }

  /** Addresses 16 and 8: visited in falling order. */
  lemma FallingPairStays(hash: Bytes -> nat)
    ensures TraceAgrees(TraceOf([16, 8]))
    ensures VisitedGroups(TraceOf([16, 8]), hash, BY_LBA) == [[0], [1]]
    ensures !VisitsAscending(TraceOf([16, 8]), VisitedGroups(TraceOf([16, 8]), hash, BY_LBA))
  {
    hide Agrees, AddressBehind, FirstSeen, GroupOf, Unsorted, Passes, TraceOf;
    var trace := TraceOf([16, 8]);
    CloseTraceAgrees(trace);
    SingleRecords(trace, hash);
    var s := Unsorted(trace, hash);
    PairStaysUnsorted(BY_LBA, s);
    VisitedMap(trace, hash, BY_LBA);
    var groups := VisitedGroups(trace, hash, BY_LBA);
    assert groups == [[0], [1]];
    assert GroupLba(trace, groups[0]) == 16 && GroupLba(trace, groups[1]) == 8;
  }

  lemma VisitedMap(trace: seq<TraceInfo>, hash: Bytes -> nat, cmp: Compare)
    ensures var cells, groups := Passes(cmp, 1, Unsorted(trace, hash)), VisitedGroups(trace, hash, cmp);
            |groups| == |cells| && forall k :: 0 <= k < |cells| ==> groups[k] == GroupOf(trace, cells[k])
  {
    hide Passes, FirstSeen, ListOf, GroupOf;
  }

  /** Addresses 24, 16 and 8 come out in ascending order although the guard fails. */
  lemma FallingTripleIsSorted(hash: Bytes -> nat)
    ensures !RunsStartInOrder(TraceOf([24, 16, 8]))
    ensures VisitedGroups(TraceOf([24, 16, 8]), hash, BY_LBA) == [[2], [1], [0]]
    ensures VisitsAscending(TraceOf([24, 16, 8]), VisitedGroups(TraceOf([24, 16, 8]), hash, BY_LBA))
  {
    hide AddressBehind, FirstSeen, GroupOf, Unsorted, Passes, TraceOf, VisitedGroups, RunsStartInOrder, VisitsAscending,
      CutDifference;
    var trace := TraceOf([24, 16, 8]);
    CloseAgrees(24, 8);
    CloseAgrees(24, 16);
    SingleRecords(trace, hash);
    ThreeVisited(trace, hash);
    if RunsStartInOrder(trace) { FirstRunsInOrder(trace); }
    LbasAscending(trace, [[2], [1], [0]], [8, 16, 24]);
  }

  /** Three records of different addresses: what the comparator makes of them. */
  lemma ThreeVisited(trace: seq<TraceInfo>, hash: Bytes -> nat)
    requires LbasFit(trace) && |trace| == 3 && forall p, q :: 0 <= p < q < |trace| ==> trace[p].lba != trace[q].lba
    ensures var a, b, c := trace[0].lba, trace[1].lba, trace[2].lba;
            VisitedGroups(trace, hash, BY_LBA) ==
            if CutDifference(a, c) > 0 then if CutDifference(a, b) > 0 then [[2], [1], [0]] else [[2], [0], [1]]
            else if CutDifference(b, c) > 0 then [[0], [2], [1]] else [[0], [1], [2]]
  {
    hide AddressBehind, FirstSeen, GroupOf, Unsorted, Passes, VisitedGroups, CutDifference;
    SingleRecords(trace, hash);
    ThreeComeOut(BY_LBA, Unsorted(trace, hash));
    VisitedMap(trace, hash, BY_LBA);
  }

  lemma FirstRunsInOrder(trace: seq<TraceInfo>)
    requires RunsStartInOrder(trace) && |FirstSeen(trace, |trace|)| >= 2
    ensures var f := FirstSeen(trace, |trace|); InTrace(trace, f) && trace[f[0]].lba <= trace[f[1]].lba
  {
    hide FirstSeen;
    assert RunStart(0, 0) == 0 && Pow2(0) == 1;
  }

  lemma LbasAscending(trace: seq<TraceInfo>, groups: seq<seq<nat>>, lbas: seq<nat>)
    requires |lbas| == |groups| && forall i :: 0 <= i < |groups| ==> GroupLba(trace, groups[i]) == lbas[i]
    ensures VisitsAscending(trace, groups) <==> forall i, j :: 0 <= i < j < |lbas| ==> lbas[i] <= lbas[j]
  {
    hide GroupLba;
  }

  lemma FarIsLess()
    ensures CutDifference(0, 0x8000_0008) > 0 && CutDifference(0, 8) <= 0
  {
    CutAgain(0 - 0x8000_0008);
    CutAgain(0 - 8);
  }

  /** Addresses 0, 8 and 2^31 + 8 occur in ascending order; the cut comparator puts the last one first. */
  lemma CutBreaksOrder(hash: Bytes -> nat)
    ensures VisitedGroups(TraceOf([0, 8, 0x8000_0008]), hash, BY_LBA) == [[2], [0], [1]]
    ensures !VisitsAscending(TraceOf([0, 8, 0x8000_0008]), VisitedGroups(TraceOf([0, 8, 0x8000_0008]), hash, BY_LBA))
  {
    hide TraceOf, VisitedGroups, CutDifference;
    var trace := TraceOf([0, 8, 0x8000_0008]);
    FarIsLess();
    ThreeVisited(trace, hash);
    var groups := VisitedGroups(trace, hash, BY_LBA);
    assert GroupLba(trace, groups[0]) == 0x8000_0008 && GroupLba(trace, groups[1]) == 0;
  }
}
