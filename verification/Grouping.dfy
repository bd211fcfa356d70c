/** Grouping the trace by block address: one container per address, found through the hash map. */
module Grouping {
  import opened Basics
  import opened Buckets
  import opened HashMaps
  import opened HashMapRuns
  import opened Traces

  // ----- The key of a block address: its eight bytes, least significant first

  ghost predicate LbasFit(trace: seq<TraceInfo>) {
    forall i :: 0 <= i < |trace| ==> trace[i].lba < 0x1_0000_0000_0000_0000
  }

  lemma PowerOfEight()
    ensures Pow256(8) == 0x1_0000_0000_0000_0000
  {
    assert Pow256(2) == 0x1_0000;
    assert Pow256(4) == 0x1_0000_0000;
    assert Pow256(6) == 0x1_0000_0000_0000;
  }

  lemma SameKeySameLba(x: nat, y: nat)
    requires x < 0x1_0000_0000_0000_0000 && y < 0x1_0000_0000_0000_0000 && LeBytes(x, 8) == LeBytes(y, 8)
    ensures x == y
  {
    PowerOfEight();
    LeBytesInjective(x, y, 8);
  }

  /** `&info->lba`: the record's own field serves as the key's memory. */
  function LbaKey(trace: seq<TraceInfo>, p: nat): Key
    requires p < |trace|
  {
    Key(p, LeBytes(trace[p].lba, 8))
  }

  // ----- The groups

  /** The records of one address among the first n, in trace order. */
  ghost function Positions(trace: seq<TraceInfo>, n: nat, lba: nat): seq<nat>
    requires n <= |trace|
  {
    if n == 0 then [] else Positions(trace, n - 1, lba) + (if trace[n - 1].lba == lba then [n - 1] else [])
  }

  lemma {:induction false} PositionsAre(trace: seq<TraceInfo>, n: nat, lba: nat)
    requires n <= |trace|
    ensures forall p :: p in Positions(trace, n, lba) <==> 0 <= p < n && trace[p].lba == lba
    ensures forall i, j :: 0 <= i < j < |Positions(trace, n, lba)| ==>
      Positions(trace, n, lba)[i] < Positions(trace, n, lba)[j]
    decreases n
  {
    if n > 0 {
      PositionsAre(trace, n - 1, lba);
      var q := Positions(trace, n - 1, lba);
      if trace[n - 1].lba == lba {
        SnocFacts(q, n - 1);
      } else {
        assert Positions(trace, n, lba) == q;
      }
    }
  }

  lemma SnocFacts(q: seq<nat>, n: nat)
    requires (forall p :: p in q ==> p < n) && forall i, j :: 0 <= i < j < |q| ==> q[i] < q[j]
    ensures forall p :: p in q + [n] <==> p in q || p == n
    ensures forall i, j :: 0 <= i < j < |q + [n]| ==> (q + [n])[i] < (q + [n])[j]
  {
    var r := q + [n];
    forall i, j | 0 <= i < j < |r| ensures r[i] < r[j] {
      assert r[i] == q[i] && q[i] in q;
    }
  }

  /** Container g belongs to map entry e and holds exactly the records of its address, in trace order. */
  ghost predicate IsGroup(trace: seq<TraceInfo>, n: nat, e: Entry, g: seq<nat>, id: nat)
    requires n <= |trace|
  {
    && g != [] && g[0] < n && e.value == id
    && e.key == LbaKey(trace, g[0])
    && g == Positions(trace, n, trace[g[0]].lba)
  }

  ghost predicate Grouped(trace: seq<TraceInfo>, n: nat, es: seq<Entry>, pool: seq<seq<nat>>)
    requires n <= |trace|
  {
    && |es| == |pool|
    && (forall i :: 0 <= i < |pool| ==> pool[i] != [] && IsGroup(trace, n, es[i], pool[i], i))
    && (forall p :: 0 <= p < n ==> Has(es, LeBytes(trace[p].lba, 8)))
    && Firsts(pool) == FirstSeen(trace, n)
  }

  /** Where each container's address occurs first. */
  ghost function Firsts(pool: seq<seq<nat>>): seq<nat>
    requires forall i :: 0 <= i < |pool| ==> pool[i] != []
  {
    seq(|pool|, i requires 0 <= i < |pool| => pool[i][0])
  }

  /** No earlier record has the address of record p. */
  ghost predicate IsFirst(trace: seq<TraceInfo>, p: nat)
    requires p < |trace|
  {
    forall q :: 0 <= q < p ==> trace[q].lba != trace[p].lba
  }

  /** The records among the first n whose address has not occurred before, in trace order. */
  ghost function FirstSeen(trace: seq<TraceInfo>, n: nat): seq<nat>
    requires n <= |trace|
  {
    if n == 0 then [] else FirstSeen(trace, n - 1) + (if IsFirst(trace, n - 1) then [n - 1] else [])
  }

  /** A group is untouched by a record of another address. */
  lemma GroupStays(trace: seq<TraceInfo>, n: nat, e: Entry, g: seq<nat>, id: nat)
    requires n < |trace| && IsGroup(trace, n, e, g, id) && e.key.bytes != LeBytes(trace[n].lba, 8)
    ensures IsGroup(trace, n + 1, e, g, id)
  {
    hide LeBytes;
  }

  lemma GroupGrows(trace: seq<TraceInfo>, n: nat, e: Entry, g: seq<nat>, id: nat)
    requires n < |trace| && IsGroup(trace, n, e, g, id) && trace[g[0]].lba == trace[n].lba
    ensures IsGroup(trace, n + 1, e, g + [n], id)
  {
    hide LeBytes;
    assert (g + [n])[0] == g[0];
  }

  /** A known address: its container is the one the map returned. */
  lemma GroupKnown(trace: seq<TraceInfo>, n: nat, es: seq<Entry>, pool: seq<seq<nat>>, e: Entry)
    requires n < |trace| && LbasFit(trace) && Grouped(trace, n, es, pool) && UniqueKeys(es)
    requires Lookup(es, LeBytes(trace[n].lba, 8)) == Some(e)
    ensures e.value < |pool| && Grouped(trace, n + 1, es, pool[e.value := pool[e.value] + [n]])
  {
    hide Lookup, LeBytes, IsGroup, Has;
    var lba := trace[n].lba;
    var k := LookupIndex(es, LeBytes(lba, 8));
    assert IsGroup(trace, n, es[k], pool[k], k);
    GroupFacts(trace, n, es[k], pool[k], k);
    SameKeySameLba(trace[pool[k][0]].lba, lba);
    var pool' := pool[k := pool[k] + [n]];
    assert !IsFirst(trace, n);
    FirstsKept(pool, k, n);
    forall i | 0 <= i < |pool| ensures IsGroup(trace, n + 1, es[i], pool'[i], i) {
      assert IsGroup(trace, n, es[i], pool[i], i);
      if i != k {
        assert es[i].key.bytes != es[k].key.bytes;
        GroupStays(trace, n, es[i], pool[i], i);
      } else {
        GroupGrows(trace, n, es[i], pool[i], i);
      }
    }
    MapLookup(es, LeBytes(lba, 8));
  }

  lemma GroupFacts(trace: seq<TraceInfo>, n: nat, e: Entry, g: seq<nat>, id: nat)
    requires n <= |trace| && IsGroup(trace, n, e, g, id)
    ensures g != [] && g[0] < n && e.value == id && e.key == LbaKey(trace, g[0])
  {
  }

  lemma FirstsKept(pool: seq<seq<nat>>, k: nat, n: nat)
    requires k < |pool| && forall i :: 0 <= i < |pool| ==> pool[i] != []
    ensures Firsts(pool[k := pool[k] + [n]]) == Firsts(pool)
  {
    assert (pool[k] + [n])[0] == pool[k][0];
  }

  lemma FirstsSnoc(pool: seq<seq<nat>>, n: nat)
    requires forall i :: 0 <= i < |pool| ==> pool[i] != []
    ensures Firsts(pool + [[n]]) == Firsts(pool) + [n]
  {
  }

  lemma {:induction false} LookupIndex(es: seq<Entry>, bytes: Bytes) returns (k: nat)
    requires Lookup(es, bytes).Some?
    ensures k < |es| && es[k] == Lookup(es, bytes).value && es[k].key.bytes == bytes
  {
    if es[|es| - 1].key.bytes == bytes { k := |es| - 1; } else { k := LookupIndex(es[..|es| - 1], bytes); }
  }

  lemma NoEarlier(trace: seq<TraceInfo>, n: nat, es: seq<Entry>, lba: nat)
    requires n <= |trace| && !Has(es, LeBytes(lba, 8)) && forall p :: 0 <= p < n ==> Has(es, LeBytes(trace[p].lba, 8))
    ensures Positions(trace, n, lba) == [] && forall p :: 0 <= p < n ==> trace[p].lba != lba
  {
    hide Has, LeBytes;
    PositionsAre(trace, n, lba);
    if Positions(trace, n, lba) != [] {
      var p := Positions(trace, n, lba)[0];
      PositionOf(trace, n, lba, p);
    }
  }

  lemma PositionOf(trace: seq<TraceInfo>, n: nat, lba: nat, p: nat)
    requires n <= |trace| && p in Positions(trace, n, lba)
    ensures p < n && trace[p].lba == lba
  {
    PositionsAre(trace, n, lba);
  }

  lemma HasSnoc(es: seq<Entry>, e: Entry, bytes: Bytes)
    ensures Has(es + [e], bytes) <==> Has(es, bytes) || e.key.bytes == bytes
  {
    var es' := es + [e];
    assert forall k :: 0 <= k < |es| ==> es'[k] == es[k];
    assert es'[|es|] == e;
  }

  /** A new address: a fresh container, entered under the next identity. */
  lemma GroupNew(trace: seq<TraceInfo>, n: nat, es: seq<Entry>, pool: seq<seq<nat>>)
    requires n < |trace| && LbasFit(trace) && Grouped(trace, n, es, pool)
    requires Lookup(es, LeBytes(trace[n].lba, 8)) == None
    ensures Grouped(trace, n + 1, es + [Entry(LbaKey(trace, n), |pool|)], pool + [[n]])
  {
    hide Lookup, LeBytes, IsGroup, Has;
    var lba := trace[n].lba;
    var es', pool' := es + [Entry(LbaKey(trace, n), |pool|)], pool + [[n]];
    LookupAbsent(es, LeBytes(lba, 8));
    NoEarlier(trace, n, es, lba);
    FirstsSnoc(pool, n);
    forall i | 0 <= i < |pool'| ensures IsGroup(trace, n + 1, es'[i], pool'[i], i) {
      if i < |pool| {
        assert IsGroup(trace, n, es[i], pool[i], i);
        HasIndex(es, i);
        GroupStays(trace, n, es[i], pool[i], i);
      } else {
        GroupStarts(trace, n, es'[i], i);
      }
    }
    forall p | 0 <= p < n + 1 ensures Has(es', LeBytes(trace[p].lba, 8)) {
      HasSnoc(es, Entry(LbaKey(trace, n), |pool|), LeBytes(trace[p].lba, 8));
    }
  }

  lemma HasIndex(es: seq<Entry>, i: nat)
    requires i < |es|
    ensures Has(es, es[i].key.bytes)
  {
  }

  lemma GroupStarts(trace: seq<TraceInfo>, n: nat, e: Entry, id: nat)
    requires n < |trace| && e == Entry(LbaKey(trace, n), id) && Positions(trace, n, trace[n].lba) == []
    ensures IsGroup(trace, n + 1, e, [n], id)
  {
    hide LeBytes;
  }

  /** Gathers the records of equal address in one container each. */
  method BuildTraceContainers(m: HashMap, trace: seq<TraceInfo>) returns (pool: seq<seq<nat>>)
    requires m.Valid() && m.Entries() == [] && LbasFit(trace)
    modifies m, m.buckets
    ensures m.Valid() && (m.buckets == old(m.buckets) || fresh(m.buckets))
    ensures Grouped(trace, |trace|, m.Entries(), pool)
  {
    pool := [];
    for n := 0 to |trace|
      invariant m.Valid() && (m.buckets == old(m.buckets) || fresh(m.buckets))
      invariant Grouped(trace, n, m.Entries(), pool)
    {
      pool := AddRecord(m, trace, n, pool);
    }
  }

  /** Looks up the record's address, makes a container for it if there is none, and adds the record. */
  method AddRecord(m: HashMap, trace: seq<TraceInfo>, n: nat, pool: seq<seq<nat>>) returns (pool': seq<seq<nat>>)
    requires m.Valid() && LbasFit(trace) && n < |trace| && Grouped(trace, n, m.Entries(), pool)
    modifies m, m.buckets
    ensures m.Valid() && (m.buckets == old(m.buckets) || fresh(m.buckets))
    ensures Grouped(trace, n + 1, m.Entries(), pool')
  {
    hide Live, Lookup, Has, TableOk, Linked, Cells, Replace, Grouped, IsCapacity, AllLive, LeBytes, UniqueKeys;
    ghost var es := m.Entries();
    EntriesUnique(m);
    GroupedSize(trace, n, es, pool);
    pool' := pool;
    var found, ptc := m.Get(LbaKey(trace, n));
    if !found {
      GroupNew(trace, n, es, pool);
      ptc := |pool|;
      pool' := pool + [[]];
      m.Set(LbaKey(trace, n), ptc);
      FreshContainer(pool, n);
    } else {
      GroupKnown(trace, n, es, pool, Lookup(es, LeBytes(trace[n].lba, 8)).value);
    }
    pool' := pool'[ptc := pool'[ptc] + [n]];
  }

  lemma FreshContainer(pool: seq<seq<nat>>, n: nat)
    ensures (pool + [[]])[|pool| := (pool + [[]])[|pool|] + [n]] == pool + [[n]]
  {
    var pool' := pool + [[]];
    assert pool'[|pool|] + [n] == [n];
  }

  lemma GroupedSize(trace: seq<TraceInfo>, n: nat, es: seq<Entry>, pool: seq<seq<nat>>)
    requires n <= |trace| && Grouped(trace, n, es, pool)
    ensures |es| == |pool|
  {
  }

  // ----- The groups in the order in which the sorted list visits them

  /** Every record is in exactly one group; each group holds one address, in trace order. */
  ghost predicate Partitioned(trace: seq<TraceInfo>, groups: seq<seq<nat>>) {
    && (forall i :: 0 <= i < |groups| ==> OneAddress(trace, groups[i]))
    && (forall i, j :: 0 <= i < j < |groups| ==> Lba(trace, groups[i]) != Lba(trace, groups[j]))
    && (forall p :: 0 <= p < |trace| ==> Listed(groups, p))
  }

  ghost predicate Listed(groups: seq<seq<nat>>, p: nat) {
    exists i :: 0 <= i < |groups| && p in groups[i]
  }

  ghost function Lba(trace: seq<TraceInfo>, g: seq<nat>): nat
    requires g != [] && g[0] < |trace|
  {
    trace[g[0]].lba
  }

  ghost predicate OneAddress(trace: seq<TraceInfo>, g: seq<nat>) {
    && g != [] && InTrace(trace, g)
    && (forall i :: 0 <= i < |g| ==> trace[g[i]].lba == trace[g[0]].lba)
    && (forall i, j :: 0 <= i < j < |g| ==> g[i] < g[j])
  }

  function Fetched(pool: seq<seq<nat>>, visited: seq<Entry>): seq<seq<nat>>
    requires forall k :: 0 <= k < |visited| ==> visited[k].value < |pool|
  {
    seq(|visited|, k requires 0 <= k < |visited| => pool[visited[k].value])
  }

  lemma GroupOneAddress(trace: seq<TraceInfo>, e: Entry, g: seq<nat>, id: nat)
    requires IsGroup(trace, |trace|, e, g, id)
    ensures OneAddress(trace, g)
  {
    PositionsAre(trace, |trace|, trace[g[0]].lba);
    assert forall i :: 0 <= i < |g| ==> g[i] in g;
  }

  lemma CountOnce(es: seq<Entry>, q: nat)
    requires q < |es| && forall i, j :: 0 <= i < j < |es| ==> es[i] != es[j]
    ensures multiset(es)[es[q]] == 1
  {
    assert es == es[..q] + [es[q]] + es[q + 1..];
  }

  lemma CountTwice(s: seq<Entry>, a: nat, b: nat)
    requires a < b < |s| && s[a] == s[b]
    ensures multiset(s)[s[a]] >= 2
  {
    assert s == s[..a] + [s[a]] + s[a + 1..b] + [s[b]] + s[b + 1..];
  }

  /** A permutation of pairwise different entries is pairwise different. */
  lemma VisitedOnce(visited: seq<Entry>, es: seq<Entry>, a: nat, b: nat)
    requires multiset(visited) == multiset(es) && a < b < |visited|
    requires forall i, j :: 0 <= i < j < |es| ==> es[i] != es[j]
    ensures visited[a] != visited[b]
  {
    var i := PermutedElement(visited, es, a);
    CountOnce(es, i);
    if visited[a] == visited[b] {
      CountTwice(visited, a, b);
    }
  }

  /** Whatever order the list is visited in, the fetched containers partition the trace. */
  lemma FetchedPartition(trace: seq<TraceInfo>, es: seq<Entry>, pool: seq<seq<nat>>, visited: seq<Entry>)
    requires LbasFit(trace) && Grouped(trace, |trace|, es, pool) && UniqueKeys(es) && multiset(visited) == multiset(es)
    ensures forall k :: 0 <= k < |visited| ==> visited[k].value < |pool|
    ensures Partitioned(trace, Fetched(pool, visited))
  {
    hide LeBytes;
    forall k | 0 <= k < |visited|
      ensures visited[k].value < |pool| && IsGroup(trace, |trace|, visited[k], pool[visited[k].value], visited[k].value)
    {
      var i := PermutedElement(visited, es, k);
      assert IsGroup(trace, |trace|, es[i], pool[i], i);
    }
    var groups := Fetched(pool, visited);
    forall k | 0 <= k < |groups| ensures OneAddress(trace, groups[k]) {
      GroupOneAddress(trace, visited[k], groups[k], visited[k].value);
    }
    forall a, b | 0 <= a < b < |groups| ensures Lba(trace, groups[a]) != Lba(trace, groups[b]) {
      DifferentGroups(trace, es, pool, visited, a, b);
    }
    forall p | 0 <= p < |trace| ensures Listed(groups, p) {
      FindGroup(trace, es, pool, visited, p);
    }
  }

  lemma DifferentGroups(trace: seq<TraceInfo>, es: seq<Entry>, pool: seq<seq<nat>>, visited: seq<Entry>, a: nat, b: nat)
    requires Grouped(trace, |trace|, es, pool) && UniqueKeys(es) && multiset(visited) == multiset(es)
    requires a < b < |visited| && visited[a].value < |pool| && visited[b].value < |pool|
    ensures pool[visited[a].value] != [] && pool[visited[b].value] != []
    ensures pool[visited[a].value][0] < |trace| && pool[visited[b].value][0] < |trace|
    ensures trace[pool[visited[a].value][0]].lba != trace[pool[visited[b].value][0]].lba
  {
    hide LeBytes;
    VisitedOnce(visited, es, a, b);
    var i := PermutedElement(visited, es, a);
    var j := PermutedElement(visited, es, b);
    assert IsGroup(trace, |trace|, es[i], pool[i], i) && IsGroup(trace, |trace|, es[j], pool[j], j);
    assert es[i].key.bytes != es[j].key.bytes;
  }

  lemma FindGroup(trace: seq<TraceInfo>, es: seq<Entry>, pool: seq<seq<nat>>, visited: seq<Entry>, p: nat)
    requires LbasFit(trace) && Grouped(trace, |trace|, es, pool) && UniqueKeys(es) && multiset(visited) == multiset(es)
    requires p < |trace|
    requires forall k :: 0 <= k < |visited| ==> visited[k].value < |pool|
    ensures Listed(Fetched(pool, visited), p)
  {
    hide LeBytes;
    var i :| 0 <= i < |es| && es[i].key.bytes == LeBytes(trace[p].lba, 8);
    assert es[i] in multiset(visited);
    var k :| 0 <= k < |visited| && visited[k] == es[i];
    assert IsGroup(trace, |trace|, es[i], pool[i], i);
    GroupHas(trace, es[i], pool[i], i, p);
    assert Fetched(pool, visited)[k] == pool[i];
  }

  lemma GroupHas(trace: seq<TraceInfo>, e: Entry, g: seq<nat>, id: nat, p: nat)
    requires IsGroup(trace, |trace|, e, g, id) && LbasFit(trace) && p < |trace|
    requires e.key.bytes == LeBytes(trace[p].lba, 8)
    ensures p in g
  {
    SameKeySameLba(trace[g[0]].lba, trace[p].lba);
    PositionsAre(trace, |trace|, trace[g[0]].lba);
  }
}
