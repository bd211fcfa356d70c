/**
 The insertion-ordered hash map: open addressing with linear probing, a singly linked list threaded through the
 buckets, and a resize that moves table and list together. `removable` is the compile-time switch that adds
 tombstones; both configurations share this model.
 */
module HashMaps {
  import opened Basics
  import opened Buckets
  import opened ListSort

  // ----- What each update does to a well-formed table

  lemma PathGrows(bs: seq<Bucket>, s: nat, b: Bucket, start: nat, t: nat)
    requires s < |bs| && start < |bs| && t < |bs| && PathUsed(bs, start, t) && b.cell.Used()
    ensures PathUsed(bs[s := b], start, t)
  {
  }

  /** A key that occurs nowhere goes into the empty slot that ends its probe path. */
  lemma TableInsert(bs: seq<Bucket>, hash: Bytes -> nat, ids: seq<nat>, s: nat, b: Bucket)
    requires TableOk(bs, hash, ids) && s < |bs| && !bs[s].cell.Used() && b.cell.Live()
    requires b.cell.hash == hash(b.cell.key.value.bytes) && PathUsed(bs, b.cell.hash % |bs|, s)
    requires forall t :: 0 <= t < |bs| ==> !bs[t].cell.Holds(b.cell.key.value.bytes)
    ensures TableOk(bs[s := b], hash, ids + [s])
    ensures Cells(bs[s := b], ids + [s]) == Cells(bs, ids) + [b.cell]
  {
    var bs', ids' := bs[s := b], ids + [s];
    assert s !in ids;
    assert forall i :: 0 <= i < |ids| ==> ids[i] in ids && ids'[i] == ids[i];
    forall t | 0 <= t < |bs'| ensures Reachable(bs', hash, t) {
      assert Reachable(bs, hash, t);
      if bs'[t].cell.Live() {
        PathGrows(bs, s, b, bs'[t].cell.hash % |bs|, t);
      }
    }
    forall t | 0 <= t < |bs'| ensures bs'[t].cell.Used() <==> t in ids' {
      assert t in ids' <==> t in ids || t == s;
    }
    var cells := Cells(bs, ids);
    assert Cells(bs', ids') == cells + [b.cell];
    forall i | 0 <= i < |cells| ensures !cells[i].Holds(b.cell.key.value.bytes) {
      assert cells[i] == bs[ids[i]].cell;
    }
    UniqueSnoc(cells, b.cell);
  }

  lemma UniqueSnoc(cells: seq<Cell>, c: Cell)
    requires Unique(cells) && c.Live()
    requires forall i :: 0 <= i < |cells| ==> !cells[i].Holds(c.key.value.bytes)
    ensures Unique(cells + [c])
  {
  }

  /** A live cell may be overwritten by one with the same key or by a tombstone. */
  lemma TableOverwrite(bs: seq<Bucket>, hash: Bytes -> nat, ids: seq<nat>, i: nat, b: Bucket)
    requires TableOk(bs, hash, ids) && i < |ids| && bs[ids[i]].cell.Live() && b.cell.Used()
    requires b.cell.Live() ==> b.cell.Holds(bs[ids[i]].cell.key.value.bytes) && b.cell.hash == bs[ids[i]].cell.hash
    ensures TableOk(bs[ids[i] := b], hash, ids)
    ensures Cells(bs[ids[i] := b], ids) == Cells(bs, ids)[i := b.cell]
  {
    var s := ids[i];
    var bs' := bs[s := b];
    assert s in ids;
    forall t | 0 <= t < |bs'| ensures Reachable(bs', hash, t) {
      assert Reachable(bs, hash, t);
      if bs'[t].cell.Live() {
        PathGrows(bs, s, b, bs'[t].cell.hash % |bs|, t);
      }
    }
    assert Cells(bs', ids) == Cells(bs, ids)[i := b.cell];
    UniqueUpdate(Cells(bs, ids), i, b.cell);
  }

  lemma UniqueUpdate(cells: seq<Cell>, i: nat, c: Cell)
    requires Unique(cells) && i < |cells| && cells[i].Live()
    requires c.Live() ==> c.Holds(cells[i].key.value.bytes)
    ensures Unique(cells[i := c])
  {
  }

  /** The table invariant does not look at the links. */
  lemma TableRelinked(bs: seq<Bucket>, bs': seq<Bucket>, hash: Bytes -> nat, ids: seq<nat>)
    requires TableOk(bs, hash, ids) && SameCells(bs, bs')
    ensures TableOk(bs', hash, ids) && Cells(bs', ids) == Cells(bs, ids)
  {
    forall t | 0 <= t < |bs'| ensures Reachable(bs', hash, t) {
      assert Reachable(bs, hash, t);
      if bs'[t].cell.Live() {
        assert PathUsed(bs, bs[t].cell.hash % |bs|, t);
      }
    }
    assert Cells(bs', ids) == Cells(bs, ids);
  }

  lemma EmptyTableOk(n: nat, hash: Bytes -> nat)
    ensures TableOk(seq(n, _ => EMPTY), hash, [])
  {
    var bs := seq(n, _ => EMPTY);
    assert forall t :: 0 <= t < n ==> !bs[t].cell.Used();
  }

  /** Writing `link` through a bucket pointer. */
  ghost function Relinked(bs: seq<Bucket>, ids: seq<nat>, link: Link): seq<Bucket>
    requires InRange(ids, |bs|)
  {
    if ids == [] then bs else bs[ids[|ids| - 1] := bs[ids[|ids| - 1]].(next := link)]
  }

  /** Hooking a new node behind the last one. */
  lemma ChainAppend(bs: seq<Bucket>, table: nat, ids: seq<nat>, s: nat, b: Bucket, end: Link)
    requires InRange(ids, |bs|) && Distinct(ids) && s < |bs| && s !in ids && Linked(bs, table, ids, end)
    ensures var bs' := Relinked(bs, ids, At(table, s))[s := b];
            InRange(ids + [s], |bs|) && Distinct(ids + [s]) && Linked(bs', table, ids + [s], b.next)
  {
    var bs1 := Relinked(bs, ids, At(table, s));
    var bs2 := bs1[s := b];
    assert Linked(bs2, table, [s], b.next);
    if ids == [] {
      assert ids + [s] == [s];
    } else {
      LinkedRedirect(bs, table, ids, end, At(table, s));
      LinkedFrame(bs1, bs2, table, ids, At(table, s));
      LinkedConcat(bs2, table, ids, [s], b.next);
    }
  }

  lemma TableInsertRelinked(bs: seq<Bucket>, hash: Bytes -> nat, ids: seq<nat>, s: nat, b: Bucket, link: Link)
    requires TableOk(bs, hash, ids) && s < |bs| && !bs[s].cell.Used() && b.cell.Live()
    requires b.cell.hash == hash(b.cell.key.value.bytes) && PathUsed(bs, b.cell.hash % |bs|, s)
    requires forall t :: 0 <= t < |bs| ==> !bs[t].cell.Holds(b.cell.key.value.bytes)
    ensures var bs' := Relinked(bs, ids, link)[s := b];
            TableOk(bs', hash, ids + [s]) && Cells(bs', ids + [s]) == Cells(bs, ids) + [b.cell]
  {
    var bs1 := Relinked(bs, ids, link);
    TableRelinked(bs, bs1, hash, ids);
    TableInsert(bs1, hash, ids, s, b);
  }

  /** Everything that overwriting one live cell changes. */
  lemma OverwriteFacts(bs: seq<Bucket>, table: nat, hash: Bytes -> nat, ids: seq<nat>, i: nat, b: Bucket, e: Entry)
    requires TableOk(bs, hash, ids) && i < |ids| && bs[ids[i]].cell.Live() && b.cell.Used() && b.next == bs[ids[i]].next
    requires b.cell.Live() ==> b.cell.Holds(bs[ids[i]].cell.key.value.bytes) && b.cell.hash == bs[ids[i]].cell.hash
    requires b.cell.Live() ==> e == Entry(b.cell.key.value, b.cell.value)
    requires Linked(bs, table, ids, Null)
    ensures var bs', bytes, es := bs[ids[i] := b], bs[ids[i]].cell.key.value.bytes, Live(Cells(bs, ids));
            && TableOk(bs', hash, ids) && Linked(bs', table, ids, Null)
            && Lookup(es, bytes) == Some(Entry(bs[ids[i]].cell.key.value, bs[ids[i]].cell.value))
            && Live(Cells(bs', ids)) == (if b.cell.Live() then Replace(es, bytes, e) else Drop(es, bytes))
            && |Live(Cells(bs', ids))| == |es| - (if b.cell.Live() then 0 else 1)
            && (b.cell.Live() && AllLive(Cells(bs, ids)) ==> AllLive(Cells(bs', ids)))
  {
    hide Linked, Live, Lookup, Replace, Drop;
    var cells := Cells(bs, ids);
    TableOverwrite(bs, hash, ids, i, b);
    LinkedFrame(bs, bs[ids[i] := b], table, ids, Null);
    LookupCell(cells, i, cells[i].key.value.bytes);
    LiveUpdate(cells, i, b.cell, e);
    LiveHas(cells, cells[i].key.value.bytes);
    LiveUnique(cells);
    ReplaceSize(Live(cells), cells[i].key.value.bytes, e);
  }

  /** Replacing keeps the number of entries, dropping a present key removes one. */
  lemma {:induction false} ReplaceSize(es: seq<Entry>, bytes: Bytes, e: Entry)
    requires UniqueKeys(es)
    ensures |Replace(es, bytes, e)| == |es|
    ensures |Drop(es, bytes)| == |es| - (if Has(es, bytes) then 1 else 0)
  {
    if es != [] {
      var n := |es| - 1;
      ReplaceSize(es[..n], bytes, e);
      assert Has(es, bytes) <==> Has(es[..n], bytes) || es[n].key.bytes == bytes by {
        assert forall k :: 0 <= k < n ==> es[..n][k] == es[k];
        if k :| 0 <= k < |es| && es[k].key.bytes == bytes {
          assert k < n ==> es[..n][k].key.bytes == bytes;
        }
        if k :| 0 <= k < n && es[..n][k].key.bytes == bytes {
          assert es[k].key.bytes == bytes;
        }
      }
    }
  }

  lemma AllLiveSnoc(cells: seq<Cell>, c: Cell)
    requires c.Live()
    ensures AllLive(cells) ==> AllLive(cells + [c])
  {
  }

  // ----- Resizing: the list's prefix is in the new table, its suffix still in the old one

  ghost predicate Moving(bs: seq<Bucket>, hash: Bytes -> nat, table: nat, ids: seq<nat>, first: Link, last: Link,
                         oldTable: nat, oldIds: seq<nat>, oldCells: seq<Cell>, j: nat)
  {
    && j <= |oldIds| == |oldCells| && |ids| <= j && |oldIds| < |bs|
    && Unique(oldCells)
    && (forall i :: 0 <= i < |oldCells| && oldCells[i].Live() ==> oldCells[i].hash == hash(oldCells[i].key.value.bytes))
    && TableOk(bs, hash, ids) && AllLive(Cells(bs, ids)) && Live(Cells(bs, ids)) == Live(oldCells[..j])
    && Linked(bs, table, ids, LinkTo(oldTable, oldIds, j))
    && first == (if ids == [] then LinkTo(oldTable, oldIds, j) else At(table, ids[0]))
    && last == LastLink(table, ids)
  }

  lemma MovingStart(
    n: nat, hash: Bytes -> nat, table: nat, first: Link, oldTable: nat, oldIds: seq<nat>, oldBs: seq<Bucket>
  )
    requires TableOk(oldBs, hash, oldIds) && |oldIds| < n && first == LinkTo(oldTable, oldIds, 0)
    ensures Moving(seq(n, _ => EMPTY), hash, table, [], first, FirstField, oldTable, oldIds, Cells(oldBs, oldIds), 0)
  {
    EmptyTableOk(n, hash);
    var cells := Cells(oldBs, oldIds);
    forall i | 0 <= i < |cells| && cells[i].Live() ensures cells[i].hash == hash(cells[i].key.value.bytes) {
      assert Reachable(oldBs, hash, oldIds[i]);
    }
    assert Cells(seq(n, _ => EMPTY), []) == [] && cells[..0] == [];
  }

  /** What the loop reads through `last`. */
  lemma MovingFacts(bs: seq<Bucket>, hash: Bytes -> nat, table: nat, ids: seq<nat>, first: Link, last: Link,
                    oldTable: nat, oldIds: seq<nat>, oldCells: seq<Cell>, j: nat)
    requires Moving(bs, hash, table, ids, first, last, oldTable, oldIds, oldCells, j)
    ensures last.At? ==> last.slot < |bs|
    ensures last == LastLink(table, ids)
    ensures (if last.At? then bs[last.slot].next else first) == LinkTo(oldTable, oldIds, j)
    ensures TableOk(bs, hash, ids) && AllLive(Cells(bs, ids)) && |ids| < |bs|
  {
  }

  lemma NodeFacts(bs: seq<Bucket>, table: nat, ids: seq<nat>, j: nat)
    requires InRange(ids, |bs|) && Linked(bs, table, ids, Null) && j < |ids|
    ensures bs[ids[j]].next == LinkTo(table, ids, j + 1) && bs[ids[j]].cell == Cells(bs, ids)[j]
  {
  }

  lemma AliveUnlessRemovable(bs: seq<Bucket>, ids: seq<nat>, removable: bool, j: nat)
    requires InRange(ids, |bs|) && (!removable ==> AllLive(Cells(bs, ids))) && j < |ids|
    ensures !removable ==> bs[ids[j]].cell.Live()
  {
    assert Cells(bs, ids)[j] == bs[ids[j]].cell;
  }

  lemma LiveTable(bs: seq<Bucket>, hash: Bytes -> nat, ids: seq<nat>, s: nat)
    requires TableOk(bs, hash, ids) && AllLive(Cells(bs, ids)) && s < |bs|
    ensures bs[s].cell.Used() ==> bs[s].cell.Live()
  {
    if s in ids {
      var i :| 0 <= i < |ids| && ids[i] == s;
      assert Cells(bs, ids)[i] == bs[s].cell;
    }
  }

  /** A tombstone is unlinked. */
  lemma MovingSkip(bs: seq<Bucket>, hash: Bytes -> nat, table: nat, ids: seq<nat>, first: Link, last: Link,
                   oldTable: nat, oldIds: seq<nat>, oldCells: seq<Cell>, j: nat)
    requires Moving(bs, hash, table, ids, first, last, oldTable, oldIds, oldCells, j) && j < |oldIds|
    requires !oldCells[j].Live()
    ensures InRange(ids, |bs|)
    ensures var link := LinkTo(oldTable, oldIds, j + 1);
            var first' := if ids == [] then link else first;
            Moving(Relinked(bs, ids, link), hash, table, ids, first', last, oldTable, oldIds, oldCells, j + 1)
  {
    hide Linked, Live, Unique, TableOk;
    var link := LinkTo(oldTable, oldIds, j + 1);
    TableInRange(bs, hash, ids);
    var bs' := Relinked(bs, ids, link);
    TableRelinked(bs, bs', hash, ids);
    if ids != [] {
      LinkedRedirect(bs, table, ids, LinkTo(oldTable, oldIds, j), link);
    } else {
      LinkedNil(bs', table, link);
    }
    assert oldCells[..j + 1] == oldCells[..j] + [oldCells[j]];
    LiveSnoc(oldCells[..j], oldCells[j]);
  }

  lemma TableInRange(bs: seq<Bucket>, hash: Bytes -> nat, ids: seq<nat>)
    requires TableOk(bs, hash, ids)
    ensures InRange(ids, |bs|) && Distinct(ids)
  {
  }

  lemma LinkedNil(bs: seq<Bucket>, table: nat, end: Link)
    ensures Linked(bs, table, [], end)
  {
  }

  /** A live bucket is copied into slot e and hooked behind the nodes moved before. */
  lemma MovingTake(bs: seq<Bucket>, hash: Bytes -> nat, table: nat, ids: seq<nat>, first: Link, last: Link,
                   oldTable: nat, oldIds: seq<nat>, oldBs: seq<Bucket>, j: nat, e: nat)
    requires InRange(oldIds, |oldBs|)
    requires Moving(bs, hash, table, ids, first, last, oldTable, oldIds, Cells(oldBs, oldIds), j)
    requires j < |oldIds| && oldBs[oldIds[j]].cell.Live() && oldBs[oldIds[j]].next == LinkTo(oldTable, oldIds, j + 1)
    requires e < |bs| && !bs[e].cell.Used() && PathUsed(bs, oldBs[oldIds[j]].cell.hash % |bs|, e)
    ensures var b, link := oldBs[oldIds[j]], At(table, e);
            && InRange(ids, |bs[e := b]|)
            && Moving(Relinked(bs[e := b], ids, link), hash, table, ids + [e], if ids == [] then link else first, link,
                      oldTable, oldIds, Cells(oldBs, oldIds), j + 1)
  {
    hide Linked, Live, Unique, TableOk, AllLive, Relinked, PathUsed;
    var b, link, oldCells := oldBs[oldIds[j]], At(table, e), Cells(oldBs, oldIds);
    assert b.cell == oldCells[j];
    TableInRange(bs, hash, ids);
    UnusedNotListed(bs, hash, ids, e);
    KeyNotMovedYet(bs, hash, ids, oldCells, j);
    TableInsertRelinked(bs, hash, ids, e, b, link);
    ChainAppend(bs, table, ids, e, b, LinkTo(oldTable, oldIds, j));
    RelinkedAround(bs, ids, link, e, b);
    assert oldCells[..j + 1] == oldCells[..j] + [oldCells[j]];
    LiveSnoc(oldCells[..j], oldCells[j]);
    LiveSnoc(Cells(bs, ids), b.cell);
    AllLiveSnoc(Cells(bs, ids), b.cell);
  }

  lemma RelinkedAround(bs: seq<Bucket>, ids: seq<nat>, link: Link, e: nat, b: Bucket)
    requires InRange(ids, |bs|) && e < |bs| && e !in ids
    ensures |Relinked(bs, ids, link)| == |bs| && Relinked(bs[e := b], ids, link) == Relinked(bs, ids, link)[e := b]
  {
  }

  lemma UnusedNotListed(bs: seq<Bucket>, hash: Bytes -> nat, ids: seq<nat>, s: nat)
    requires TableOk(bs, hash, ids) && s < |bs| && !bs[s].cell.Used()
    ensures s !in ids
  {
  }

  lemma KeyNotMovedYet(bs: seq<Bucket>, hash: Bytes -> nat, ids: seq<nat>, oldCells: seq<Cell>, j: nat)
    requires TableOk(bs, hash, ids) && j < |oldCells| && Unique(oldCells) && oldCells[j].Live()
    requires Live(Cells(bs, ids)) == Live(oldCells[..j])
    ensures forall t :: 0 <= t < |bs| ==> !bs[t].cell.Holds(oldCells[j].key.value.bytes)
  {
    hide Live;
    var bytes := oldCells[j].key.value.bytes;
    LiveHas(oldCells[..j], bytes);
    LiveHas(Cells(bs, ids), bytes);
    forall t | 0 <= t < |bs| ensures !bs[t].cell.Holds(bytes) {
      if t in ids {
        var i :| 0 <= i < |ids| && ids[i] == t;
        assert Cells(bs, ids)[i] == bs[t].cell;
      }
    }
  }

  /** With the whole list moved, every node is in the new table. */
  lemma MovingEnd(bs: seq<Bucket>, hash: Bytes -> nat, table: nat, ids: seq<nat>, first: Link, last: Link,
                  oldTable: nat, oldIds: seq<nat>, oldCells: seq<Cell>)
    requires Moving(bs, hash, table, ids, first, last, oldTable, oldIds, oldCells, |oldIds|)
    ensures InRange(ids, |bs|) && Distinct(ids) && Linked(bs, table, ids, Null) && first == LinkTo(table, ids, 0)
    ensures TableOk(bs, hash, ids) && last == LastLink(table, ids) && AllLive(Cells(bs, ids))
    ensures Live(Cells(bs, ids)) == Live(oldCells) && |Live(oldCells)| == |ids|
  {
    assert oldCells[..|oldIds|] == oldCells;
    AllLiveSize(Cells(bs, ids));
  }

  lemma CapacityDoubles(c: nat)
    requires IsCapacity(c)
    ensures IsCapacity(2 * c)
  {
    CapacityAtLeast(c);
    assert 2 * c / 2 == c;
  }

  ghost predicate AllLive(cells: seq<Cell>) {
    forall i :: 0 <= i < |cells| ==> cells[i].Live()
  }

  lemma {:induction false} AllLiveSize(cells: seq<Cell>)
    requires AllLive(cells)
    ensures |Live(cells)| == |cells|
  {
    if cells != [] { AllLiveSize(cells[..|cells| - 1]); }
  }

  /** Twenty times a power of two. */
  predicate IsCapacity(c: nat) {
    c == 20 || (c > 20 && c % 2 == 0 && IsCapacity(c / 2))
  }

  lemma {:induction false} CapacityAtLeast(c: nat)
    requires IsCapacity(c)
    ensures c >= 20
  {
  }

  lemma {:induction false} CapacityIsPower(c: nat) returns (k: nat)
    requires IsCapacity(c)
    ensures c == 20 * Pow2(k)
  {
    if c == 20 {
      k := 0;
    } else {
      k := CapacityIsPower(c / 2);
      k := k + 1;
    }
  }

  // ----- The specification of the updates

  /** `set` and `set_free`: both overwrite or append; only `set_free` also replaces the stored key pointer. */
  ghost function SetSpec(es: seq<Entry>, key: Key, value: nat, free: bool): seq<Entry> {
    match Lookup(es, key.bytes)
    case None => es + [Entry(key, value)]
    case Some(e) => Replace(es, key.bytes, Entry(if free then key else e.key, value))
  }

  /** `get_set`: append only if the key is absent. */
  ghost function GetSetSpec(es: seq<Entry>, key: Key, value: nat): seq<Entry> {
    if Has(es, key.bytes) then es else es + [Entry(key, value)]
  }

  class HashMap {
    const hash: Bytes -> nat
    const removable: bool
    var buckets: array<Bucket>
    var table: nat
    var capacity: nat
    var count: nat
    var tombstones: nat
    var first: Link
    var last: Link
    ghost var order: seq<nat>

    /** The list from `first` visits the slots of `order` and ends in null; it has `count` nodes. */
    ghost predicate Chained()
      reads this, buckets
    {
      && InRange(order, buckets.Length) && Distinct(order) && |order| == count
      && Linked(buckets[..], table, order, Null) && first == LinkTo(table, order, 0)
      && (!removable ==> AllLive(Cells(buckets[..], order)))
    }

    /** The live entries in insertion order. */
    ghost function Entries(): seq<Entry>
      requires Chained()
      reads this, buckets
    {
      Live(Cells(buckets[..], order))
    }

    ghost predicate Valid()
      reads this, buckets
    {
      && Chained() && last == LastLink(table, order)
      && capacity == buckets.Length && IsCapacity(capacity) && 4 * count <= 3 * capacity
      && TableOk(buckets[..], hash, order)
      && tombstones == count - |Entries()|
    }

    constructor (hash: Bytes -> nat, removable: bool)
      ensures Valid() && Entries() == [] && capacity == 20 && count == 0 && last == FirstField && fresh(buckets)
      ensures this.hash == hash && this.removable == removable
    {
      this.hash := hash;
      this.removable := removable;
      capacity := 20;
      count := 0;
      tombstones := 0;
      table := 0;
      buckets := new Bucket[20](_ => EMPTY);
      first := Null;
      last := FirstField;
      order := [];
      new;
      assert buckets[..] == seq(20, _ => EMPTY);
      EmptyTableOk(20, hash);
    }

    /** Reads `link->next`; the address of `first` serves as an imaginary bucket. */
    function NextOf(link: Link): Link
      requires link.At? ==> link.slot < buckets.Length
      reads this, buckets
    {
      match link
      case FirstField => first
      case At(_, slot) => buckets[slot].next
      case Null => Null
    }

    /** Writes `link->next`. */
    method SetNext(link: Link, target: Link)
      requires link.At? ==> link.slot < buckets.Length
      modifies this`first, buckets
      ensures first == if link == FirstField then target else old(first)
      ensures buckets[..]
           == if link.At? then old(buckets[..])[link.slot := old(buckets[link.slot]).(next := target)]
              else old(buckets[..])
    {
      match link
      case FirstField => first := target;
      case At(_, slot) => buckets[slot] := buckets[slot].(next := target);
      case Null =>
    }

    /** The slot that holds the key, or the empty slot where its probe ends. */
    method FindEntry(key: Key, h: nat) returns (index: nat)
      requires Valid() && h == hash(key.bytes)
      ensures index < capacity
      ensures buckets[index].cell.Holds(key.bytes) ||
              (!buckets[index].cell.Used() && PathUsed(buckets[..], h % capacity, index)
               && forall t :: 0 <= t < capacity ==> !buckets[t].cell.Holds(key.bytes))
    {
      hide TableOk, Linked, Live, Cells, Reachable, AllLive, Distinct, Dist, Matches, IsCapacity;
      CapacityAtLeast(capacity);
      ghost var bs := buckets[..];
      ghost var e := EmptySlot(bs, hash, order);
      ghost var start := h % capacity;
      index := h % capacity;
      FirstProbe(start, capacity);
      while true
        invariant index < capacity && Dist(start, index, capacity) <= Dist(start, e, capacity)
        invariant forall t :: 0 <= t < capacity && Dist(start, t, capacity) < Dist(start, index, capacity) ==>
                    bs[t].cell.Used() && !bs[t].cell.Holds(key.bytes)
        decreases Dist(start, e, capacity) - Dist(start, index, capacity)
      {
        var cell := buckets[index].cell;
        var stop :=
          if removable then (cell.key.None? && cell.value == 0) || (cell.key.Some? && Matches(cell, key, h))
          else cell.key.None? || Matches(cell, key, h);
        MatchesHolds(key, index);
        UsedIsLive(index);
        if stop {
          if !cell.Used() {
            ProbeDecides(bs, hash, order, key.bytes, index);
          }
          return;
        }
        NextProbe(start, index, e, capacity);
        index := (index + 1) % capacity;
      }
    }

    /** Sizes, then hashes, then bytes. */
    static predicate Matches(cell: Cell, key: Key, h: nat)
      requires cell.key.Some?
    {
      |cell.key.value.bytes| == |key.bytes| && cell.hash == h && cell.key.value.bytes == key.bytes
    }

    /** Comparing the stored hash first never changes the answer. */
    lemma MatchesHolds(key: Key, s: nat)
      requires Valid() && s < capacity
      ensures buckets[s].cell.Live() ==>
        (Matches(buckets[s].cell, key, hash(key.bytes)) <==> buckets[s].cell.Holds(key.bytes))
    {
      assert Reachable(buckets[..], hash, s);
    }

    /** Without removals there are no tombstones. */
    lemma UsedIsLive(s: nat)
      requires Valid() && s < capacity
      ensures !removable && buckets[s].cell.Used() ==> buckets[s].cell.Live()
    {
      if s in order {
        var i :| 0 <= i < |order| && order[i] == s;
        assert Cells(buckets[..], order)[i] == buckets[s].cell;
      }
    }

    /** Fills an empty bucket and hooks it behind the last one. */
    method Append(index: nat, key: Key, h: nat, value: nat)
      requires Valid() && 4 * (count + 1) <= 3 * capacity && index < capacity && !buckets[index].cell.Used()
      requires h == hash(key.bytes) && PathUsed(buckets[..], h % capacity, index)
      requires forall t :: 0 <= t < capacity ==> !buckets[t].cell.Holds(key.bytes)
      modifies this`first, this`last, this`count, this`order, buckets
      ensures Valid() && Entries() == old(Entries()) + [Entry(key, value)]
    {
      hide TableOk, Linked, Live, AllLive, Distinct, IsCapacity, PathUsed, Cells;
      ghost var bs, ids := buckets[..], order;
      var b := Bucket(Null, Cell(Some(key), h, value));
      UnusedNotInOrder(index);
      ChainAppend(bs, table, ids, index, b, Null);
      TableRelinked(bs, Relinked(bs, ids, At(table, index)), hash, ids);
      TableInsertRelinked(bs, hash, ids, index, b, At(table, index));
      SetNext(last, At(table, index));
      last := At(table, index);
      buckets[index] := b;
      count := count + 1;
      order := order + [index];
      assert buckets[..] == Relinked(bs, ids, At(table, index))[index := b];
      LiveSnoc(Cells(bs, ids), b.cell);
      AllLiveSnoc(Cells(bs, ids), b.cell);
    }

    lemma UnusedNotInOrder(index: nat)
      requires Valid() && index < capacity && !buckets[index].cell.Used()
      ensures index !in order
    {
      assert buckets[..][index] == buckets[index];
    }

    lemma LiveInOrder(s: nat) returns (i: nat)
      requires Valid() && s < capacity && buckets[s].cell.Live()
      ensures i < |order| && order[i] == s
    {
      assert buckets[..][s] == buckets[s];
      i :| 0 <= i < |order| && order[i] == s;
    }

    /** Overwrites a live bucket's cell with one of the same key, or with a tombstone. */
    method Overwrite(index: nat, c: Cell)
      requires Valid() && index < capacity && buckets[index].cell.Live() && c.Used()
      requires c.Live() ==> c.Holds(buckets[index].cell.key.value.bytes) && c.hash == buckets[index].cell.hash
      requires !c.Live() ==> removable
      modifies this`tombstones, buckets
      ensures Valid()
      ensures var bytes := old(buckets[index].cell.key.value.bytes);
              && Lookup(old(Entries()), bytes)
                   == Some(Entry(old(buckets[index].cell.key.value), old(buckets[index].cell.value)))
              && Entries() == if c.Live() then Replace(old(Entries()), bytes, Entry(c.key.value, c.value))
                   else Drop(old(Entries()), bytes)
    {
      hide TableOk, Linked, Live, AllLive, Distinct, IsCapacity, Lookup, Replace, Drop;
      ghost var bs, ids := buckets[..], order;
      ghost var i := LiveInOrder(index);
      ghost var cells := Cells(bs, ids);
      var b := buckets[index].(cell := c);
      ghost var e := if c.Live() then Entry(c.key.value, c.value) else Entry(buckets[index].cell.key.value, 0);
      OverwriteFacts(bs, table, hash, ids, i, b, e);
      buckets[index] := b;
      assert buckets[..] == bs[index := b];
      if !c.Live() {
        tombstones := tombstones + 1;
      }
    }

    /** Copies a bucket, its `next` included, into the first free slot of its probe path in the new table. */
    method ResizeEntry(b: Bucket) returns (index: nat)
      requires capacity == buckets.Length && TableOk(buckets[..], hash, order) && AllLive(Cells(buckets[..], order))
      requires |order| < capacity
      modifies buckets
      ensures index < capacity && !old(buckets[index]).cell.Used()
      ensures PathUsed(old(buckets[..]), b.cell.hash % capacity, index)
      ensures buckets[..] == old(buckets[..])[index := b]
    {
      hide TableOk, Cells, AllLive, Dist;
      ghost var bs := buckets[..];
      ghost var e := EmptySlot(bs, hash, order);
      ghost var start := b.cell.hash % capacity;
      index := b.cell.hash % capacity;
      FirstProbe(start, capacity);
      while true
        invariant index < capacity && Dist(start, index, capacity) <= Dist(start, e, capacity) && buckets[..] == bs
        invariant forall t :: 0 <= t < capacity && Dist(start, t, capacity) < Dist(start, index, capacity) ==>
          bs[t].cell.Used()
        decreases Dist(start, e, capacity) - Dist(start, index, capacity)
      {
        LiveTable(bs, hash, order, index);
        if buckets[index].cell.key == None {
          buckets[index] := b;
          return;
        }
        NextProbe(start, index, e, capacity);
        index := (index + 1) % capacity;
      }
    }

    /** Moves the node behind `last`, which is still in the old table, or unlinks it if it is a tombstone. */
    method MoveNext(oldBuckets: array<Bucket>, ghost gen: nat, ghost ids: seq<nat>, ghost j: nat)
      requires capacity == buckets.Length && oldBuckets != buckets && InRange(ids, oldBuckets.Length) && j < |ids|
      requires Linked(oldBuckets[..], gen, ids, Null)
      requires !removable ==> AllLive(Cells(oldBuckets[..], ids))
      requires Moving(buckets[..], hash, table, order, first, last, gen, ids, Cells(oldBuckets[..], ids), j)
      modifies this`first, this`last, this`order, buckets
      ensures Moving(buckets[..], hash, table, order, first, last, gen, ids, Cells(oldBuckets[..], ids), j + 1)
    {
      hide TableOk, Linked, Live, AllLive, Distinct, Cells, Moving;
      ghost var bs := oldBuckets[..];
      ghost var cells := Cells(bs, ids);
      MovingFacts(buckets[..], hash, table, order, first, last, gen, ids, cells, j);
      NodeFacts(bs, gen, ids, j);
      AliveUnlessRemovable(bs, ids, removable, j);
      var current := NextOf(last);
      if removable && oldBuckets[current.slot].cell.key == None {
        MovingSkip(buckets[..], hash, table, order, first, last, gen, ids, cells, j);
        SetNext(last, oldBuckets[current.slot].next);
      } else {
        ghost var before := buckets[..];
        var e := ResizeEntry(oldBuckets[current.slot]);
        MovingTake(before, hash, table, order, first, last, gen, ids, bs, j, e);
        SetNext(last, At(table, e));
        last := At(table, e);
        order := order + [e];
      }
    }

    /** Moves table and list to a table of twice the size; tombstones stay behind. */
    method Resize()
      requires Valid() && order != []
      modifies this`buckets, this`table, this`capacity, this`count, this`tombstones, this`first, this`last, this`order
      ensures Valid() && Entries() == old(Entries())
      ensures capacity == 2 * old(capacity) && count == |Entries()| && fresh(buckets)
    {
      hide TableOk, Linked, Live, AllLive, Distinct, IsCapacity, Cells, Moving;
      ghost var bs, ids, gen := buckets[..], order, table;
      ghost var cells := Cells(bs, ids);
      CapacityAtLeast(capacity);
      var oldBuckets := buckets;
      capacity := capacity * 2;
      buckets := new Bucket[capacity](_ => EMPTY);
      table := table + 1;
      last := FirstField;
      count := count - tombstones;
      tombstones := 0;
      order := [];
      assert buckets[..] == seq(capacity, _ => EMPTY);
      MovingStart(capacity, hash, table, first, gen, ids, bs);
      ghost var j := 0;
      var more := true;
      while more
        invariant buckets.Length == capacity == 2 * old(capacity) && oldBuckets[..] == bs && fresh(buckets)
        invariant tombstones == 0 && count == |Live(cells)| && table == gen + 1
        invariant Moving(buckets[..], hash, table, order, first, last, gen, ids, cells, j)
        invariant j <= |ids| && (more <==> j < |ids|)
        decreases |ids| - j
      {
        MoveNext(oldBuckets, gen, ids, j);
        j := j + 1;
        MovingFacts(buckets[..], hash, table, order, first, last, gen, ids, cells, j);
        more := NextOf(last) != Null;
      }
      MovingEnd(buckets[..], hash, table, order, first, last, gen, ids, cells);
      CapacityDoubles(old(capacity));
    }

    /** Grows the table when one more entry would exceed three quarters of it. */
    method EnsureRoom()
      requires Valid()
      modifies this`buckets, this`table, this`capacity, this`count, this`tombstones, this`first, this`last, this`order
      ensures Valid() && Entries() == old(Entries()) && 4 * (count + 1) <= 3 * capacity
      ensures capacity == if 4 * (old(count) + 1) <= 3 * old(capacity) then old(capacity) else 2 * old(capacity)
      ensures buckets == old(buckets) || fresh(buckets)
    {
      CapacityAtLeast(capacity);
      if 4 * (count + 1) > 3 * capacity {
        Resize();
      }
    }

    /** The found bucket decides whether the key is present, and what is stored for it. */
    lemma FoundFacts(bytes: Bytes, index: nat)
      requires Valid() && index < capacity
      ensures buckets[index].cell.Holds(bytes) ==>
        && Has(Entries(), bytes)
        && Lookup(Entries(), bytes) == Some(Entry(buckets[index].cell.key.value, buckets[index].cell.value))
      ensures (forall t :: 0 <= t < capacity ==> !buckets[t].cell.Holds(bytes)) ==>
        !Has(Entries(), bytes) && Lookup(Entries(), bytes) == None
    {
      hide Live, Lookup, Has;
      var bs, cells := buckets[..], Cells(buckets[..], order);
      LiveHas(cells, bytes);
      LookupAbsent(Live(cells), bytes);
      if bs[index].cell.Holds(bytes) {
        var i := LiveInOrder(index);
        assert cells[i] == bs[index].cell;
        LookupCell(cells, i, bytes);
      }
      assert forall i :: 0 <= i < |cells| ==> cells[i] == bs[order[i]].cell;
    }

    method Get(key: Key) returns (found: bool, value: nat)
      requires Valid()
      ensures match Lookup(Entries(), key.bytes)
              case Some(e) => found && value == e.value
              case None => !found && value == 0
    {
      hide Live, Lookup, Has, TableOk, Linked, Cells;
      var h := hash(key.bytes);
      var e := FindEntry(key, h);
      FoundFacts(key.bytes, e);
      value := buckets[e].cell.value;
      found := buckets[e].cell.key.Some?;
    }

    method Set(key: Key, value: nat)
      requires Valid()
      modifies this, buckets
      ensures Valid() && Entries() == SetSpec(old(Entries()), key, value, false)
      ensures buckets == old(buckets) || fresh(buckets)
    {
      hide Live, Lookup, Has, TableOk, Linked, Cells, Replace, Drop, AllLive, IsCapacity;
      EnsureRoom();
      var h := hash(key.bytes);
      var e := FindEntry(key, h);
      FoundFacts(key.bytes, e);
      if buckets[e].cell.key.None? {
        Append(e, key, h, value);
      } else {
        Overwrite(e, buckets[e].cell.(value := value));
      }
    }

    /** Returns whether the key was present, and the value now stored for it. */
    method GetSet(key: Key, value: nat) returns (existed: bool, stored: nat)
      requires Valid()
      modifies this, buckets
      ensures Valid() && Entries() == GetSetSpec(old(Entries()), key, value)
      ensures match Lookup(old(Entries()), key.bytes)
              case Some(e) => existed && stored == e.value
              case None => !existed && stored == value
      ensures buckets == old(buckets) || fresh(buckets)
    {
      hide Live, Lookup, Has, TableOk, Linked, Cells, Replace, Drop, AllLive, IsCapacity;
      EnsureRoom();
      var h := hash(key.bytes);
      var e := FindEntry(key, h);
      FoundFacts(key.bytes, e);
      stored := value;
      if buckets[e].cell.key.None? {
        Append(e, key, h, value);
        return false, stored;
      }
      stored := buckets[e].cell.value;
      return true, stored;
    }

    /** Like `Set`, but hands the overwritten entry to the caller's callback first and adopts the new key pointer. */
    method SetFree(key: Key, value: nat) returns (freed: Option<Entry>)
      requires Valid()
      modifies this, buckets
      ensures Valid() && Entries() == SetSpec(old(Entries()), key, value, true)
      ensures freed == Lookup(old(Entries()), key.bytes)
      ensures buckets == old(buckets) || fresh(buckets)
    {
      hide Live, Lookup, Has, TableOk, Linked, Cells, Replace, Drop, AllLive, IsCapacity;
      EnsureRoom();
      var h := hash(key.bytes);
      var e := FindEntry(key, h);
      FoundFacts(key.bytes, e);
      if buckets[e].cell.key.None? {
        Append(e, key, h, value);
        return None;
      }
      freed := Some(Entry(buckets[e].cell.key.value, buckets[e].cell.value));
      Overwrite(e, buckets[e].cell.(key := Some(key), value := value));
    }

    /** Turns the key's bucket into a tombstone; returns what the callback of the freeing variant is given. */
    method Remove(key: Key) returns (freed: Option<Entry>)
      requires Valid() && removable
      modifies this`tombstones, buckets
      ensures Valid() && Entries() == Drop(old(Entries()), key.bytes)
      ensures freed == Lookup(old(Entries()), key.bytes)
    {
      hide Live, Lookup, Has, TableOk, Linked, Cells, Replace, Drop, AllLive, IsCapacity;
      var h := hash(key.bytes);
      var e := FindEntry(key, h);
      FoundFacts(key.bytes, e);
      freed := None;
      if buckets[e].cell.key.Some? {
        freed := Some(Entry(buckets[e].cell.key.value, buckets[e].cell.value));
        Overwrite(e, buckets[e].cell.(key := None, value := 0xDEAD));
      } else {
        ReplaceAbsent(Entries(), key.bytes, Entry(key, 0));
      }
    }

    /** The number of live entries, which is the cardinality of the finite map. */
    method Size() returns (n: int)
      requires Valid()
      ensures n == |Entries()| == |ToMap(Entries())|
    {
      LiveUnique(Cells(buckets[..], order));
      MapSize(Entries());
      n := if removable then count - tombstones else count;
      if !removable {
        AllLiveSize(Cells(buckets[..], order));
      }
    }

    /** The callback's arguments, one call after the other. */
    method Iterate() returns (visited: seq<Entry>)
      requires Chained()
      ensures visited == Entries()
    {
      hide Live, Distinct;
      ghost var bs, cells := buckets[..], Cells(buckets[..], order);
      visited := [];
      var current := first;
      ghost var i := 0;
      assert cells[..0] == [];
      LiveEmpty();
      while current != Null
        invariant i <= |order| && current == LinkTo(table, order, i) && visited == Live(cells[..i])
        decreases |order| - i
      {
        NodeFacts(bs, table, order, i);
        AliveUnlessRemovable(bs, order, removable, i);
        assert cells[..i + 1] == cells[..i] + [cells[i]];
        LiveSnoc(cells[..i], cells[i]);
        var cell := buckets[current.slot].cell;
        if !removable || cell.key.Some? {
          visited := visited + [Entry(cell.key.value, cell.value)];
        }
        current := buckets[current.slot].next;
        i := i + 1;
      }
      assert cells[..i] == cells;
    }

    /**
     Rearranges the list with the bottom-up merge sort. Contents move between buckets, so lookups by key are not
     promised any more; the chain still visits every entry once.
     */
    method Sort(cmp: Compare)
      requires Valid()
      modifies this`first, this`order, buckets
      ensures Chained() && Rearranged(order, old(order))
      ensures Cells(buckets[..], order) == Passes(cmp, 1, old(Cells(buckets[..], order)))
      ensures multiset(Cells(buckets[..], order)) == multiset(old(Cells(buckets[..], order)))
      ensures multiset(Entries()) == multiset(old(Entries()))
    {
      hide TableOk, Live, Linked, Distinct, Rearranged, Passes, AllLive, IsCapacity;
      ghost var cells := Cells(buckets[..], order);
      first, order := MergeSort(buckets, table, cmp, first, count, order);
      LivePermuted(Cells(buckets[..], order), cells);
      if !removable {
        AllLivePermuted(Cells(buckets[..], order), cells);
      }
    }
  }

  lemma AllLivePermuted(a: seq<Cell>, b: seq<Cell>)
    requires multiset(a) == multiset(b) && AllLive(b)
    ensures AllLive(a)
  {
    forall i | 0 <= i < |a| ensures a[i].Live() {
      assert a[i] in multiset(b);
    }
  }

  lemma {:induction false} LiveConcat(a: seq<Cell>, b: seq<Cell>)
    ensures Live(a + b) == Live(a) + Live(b)
    decreases |b|
  {
    if b == [] {
      assert a + b == a;
    } else {
      var n := |b| - 1;
      assert a + b == a + b[..n] + [b[n]];
      LiveSnoc(a + b[..n], b[n]);
      LiveConcat(a, b[..n]);
    }
  }

  lemma LiveThree(x: seq<Cell>, c: Cell, y: seq<Cell>)
    ensures Live(x + [c] + y) == Live(x) + LiveOf(c) + Live(y) && Live(x + y) == Live(x) + Live(y)
  {
    hide Live, LiveOf;
    LiveConcat(x + [c], y);
    LiveSnoc(x, c);
    LiveConcat(x, y);
  }

  /** Taking one cell out takes out its entry, if it is live. */
  lemma LiveWithout(b: seq<Cell>, q: nat)
    requires q < |b|
    ensures multiset(Live(b)) == multiset(Live(Without(b, q))) + multiset(LiveOf(b[q]))
  {
    hide Live, LiveOf;
    var x, c, y := b[..q], b[q], b[q + 1..];
    SplitAround(b, q);
    LiveThree(x, c, y);
    MiddleOut(Live(b), Live(Without(b, q)), Live(x), LiveOf(c), Live(y));
  }

  /** Permuting the cells permutes the live entries. */
  lemma {:induction false} LivePermuted(a: seq<Cell>, b: seq<Cell>)
    requires multiset(a) == multiset(b)
    ensures multiset(Live(a)) == multiset(Live(b))
    decreases |a|
  {
    hide Live;
    if a == [] {
      assert |multiset(b)| == 0;
      assert b == [];
    } else {
      var n := |a| - 1;
      var q := PermutedElement(a, b, n);
      WithoutPermuted(a, b, n, q);
      LivePermuted(Without(a, n), Without(b, q));
      LiveWithout(a, n);
      LiveWithout(b, q);
    }
  }

  lemma LiveEmpty()
    ensures Live([]) == []
  {
  }
}
