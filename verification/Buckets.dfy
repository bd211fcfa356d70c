/**
 The bucket table behind the insertion-ordered hash map: cells, links, probe paths and the chain
 that threads through the occupied slots, all as values.
 */
module Buckets {
  import opened Basics

  datatype Option<+T> = None | Some(value: T)

  type Byte = b: int | 0 <= b < 256
  type Bytes = seq<Byte>

  /** The n least significant bytes of x, least significant first. */
  function LeBytes(x: nat, n: nat): (bytes: Bytes)
    ensures |bytes| == n
  {
    if n == 0 then [] else [x % 256] + LeBytes(x / 256, n - 1)
  }

  function Pow256(n: nat): (p: nat)
    ensures p > 0
  {
    if n == 0 then 1 else 256 * Pow256(n - 1)
  }

  /** The number whose bytes, least significant first, these are. */
  function FromLe(bytes: Bytes): nat {
    if bytes == [] then 0 else bytes[0] + 256 * FromLe(bytes[1..])
  }

  /** Bytes of a larger number are those of its remainder. */
  lemma {:induction false} FromLeModulo(x: nat, n: nat)
    ensures FromLe(LeBytes(x, n)) == x % Pow256(n)
  {
    if n > 0 {
      assert LeBytes(x, n)[1..] == LeBytes(x / 256, n - 1);
      FromLeModulo(x / 256, n - 1);
      ByteModulo(x, Pow256(n - 1));
    }
  }

  lemma ByteModulo(x: nat, m: nat)
    requires m > 0
    ensures x % (256 * m) == x % 256 + 256 * (x / 256 % m)
  {
    var h := x / 256;
    var q, r := h / m, x % 256 + 256 * (h % m);
    assert h == q * m + h % m;
    assert x == q * (256 * m) + r by { assert 256 * (q * m) == q * (256 * m); }
    RemainderIs(x, 256 * m, q, r);
  }

  lemma {:induction false} FromLeBytes(x: nat, n: nat)
    requires x < Pow256(n)
    ensures FromLe(LeBytes(x, n)) == x
  {
    if n > 0 {
      assert LeBytes(x, n)[1..] == LeBytes(x / 256, n - 1);
      FromLeBytes(x / 256, n - 1);
    }
  }

  lemma {:induction false} LeBytesInjective(x: nat, y: nat, n: nat)
    requires x < Pow256(n) && y < Pow256(n) && LeBytes(x, n) == LeBytes(y, n)
    ensures x == y
  {
    if n > 0 {
      assert LeBytes(x, n)[0] == x % 256 && LeBytes(y, n)[0] == y % 256;
      assert LeBytes(x, n)[1..] == LeBytes(x / 256, n - 1) && LeBytes(y, n)[1..] == LeBytes(y / 256, n - 1);
      LeBytesInjective(x / 256, y / 256, n - 1);
    }
  }

  /** A key pointer together with the `ksize` bytes behind it. */
  datatype Key = Key(addr: nat, bytes: Bytes)

  /** What a bucket stores apart from `next`. A null key with a nonzero value is a tombstone. */
  datatype Cell = Cell(key: Option<Key>, hash: nat, value: nat) {
    predicate Live() { key.Some? }
    predicate Used() { key.Some? || value != 0 }
    predicate Holds(bytes: Bytes) { key.Some? && key.value.bytes == bytes }
  }

  /**
   A bucket pointer: null, the address of the map's `first` field, or a slot of the table with that allocation number.
   */
  datatype Link = Null | FirstField | At(table: nat, slot: nat)

  datatype Bucket = Bucket(next: Link, cell: Cell)

  const EMPTY := Bucket(Null, Cell(None, 0, 0))

  // ----- The abstract content: live entries in insertion order

  datatype Entry = Entry(key: Key, value: nat)

  ghost function Live(cells: seq<Cell>): (es: seq<Entry>)
    ensures |es| <= |cells|
  {
    if cells == [] then []
    else
      var n := |cells| - 1;
      Live(cells[..n]) + LiveOf(cells[n])
  }

  /** At most one cell per key. */
  ghost predicate Unique(cells: seq<Cell>) {
    forall i, j :: 0 <= i < j < |cells| && cells[i].Live() && cells[j].Live() ==>
      cells[i].key.value.bytes != cells[j].key.value.bytes
  }

  ghost predicate Has(es: seq<Entry>, bytes: Bytes) {
    exists i :: 0 <= i < |es| && es[i].key.bytes == bytes
  }

  ghost function Lookup(es: seq<Entry>, bytes: Bytes): Option<Entry> {
    if es == [] then None
    else if es[|es| - 1].key.bytes == bytes then Some(es[|es| - 1])
    else Lookup(es[..|es| - 1], bytes)
  }

  /** Overwrites the entry of the given key, wherever it is. */
  ghost function Replace(es: seq<Entry>, bytes: Bytes, e: Entry): seq<Entry> {
    if es == [] then []
    else Replace(es[..|es| - 1], bytes, e) + [if es[|es| - 1].key.bytes == bytes then e else es[|es| - 1]]
  }

  ghost function Drop(es: seq<Entry>, bytes: Bytes): seq<Entry> {
    if es == [] then []
    else Drop(es[..|es| - 1], bytes) + (if es[|es| - 1].key.bytes == bytes then [] else [es[|es| - 1]])
  }

  ghost function LiveOf(c: Cell): seq<Entry> {
    if c.Live() then [Entry(c.key.value, c.value)] else []
  }

  lemma LiveSnoc(cells: seq<Cell>, c: Cell)
    ensures Live(cells + [c]) == Live(cells) + LiveOf(c)
  {
    assert (cells + [c])[..|cells|] == cells;
  }

  /** The entries' keys are the live cells' keys. */
  lemma {:induction false} LiveHas(cells: seq<Cell>, bytes: Bytes)
    ensures Has(Live(cells), bytes) <==> exists i :: 0 <= i < |cells| && cells[i].Holds(bytes)
  {
    if cells != [] {
      var n := |cells| - 1;
      LiveHas(cells[..n], bytes);
      var before, es := Live(cells[..n]), Live(cells);
      if i :| 0 <= i < |cells| && cells[i].Holds(bytes) {
        if i < n {
          assert cells[..n][i].Holds(bytes);
          var k :| 0 <= k < |before| && before[k].key.bytes == bytes;
          assert es[k].key.bytes == bytes;
        } else {
          assert es[|es| - 1].key.bytes == bytes;
        }
      }
      if k :| 0 <= k < |es| && es[k].key.bytes == bytes {
        if k < |before| {
          assert before[k].key.bytes == bytes;
          var i :| 0 <= i < n && cells[..n][i].Holds(bytes);
          assert cells[i].Holds(bytes);
        } else {
          assert cells[n].Holds(bytes);
        }
      }
    }
  }

  lemma {:induction false} LookupAbsent(es: seq<Entry>, bytes: Bytes)
    ensures Lookup(es, bytes).None? <==> !Has(es, bytes)
  {
    if es != [] {
      var n := |es| - 1;
      LookupAbsent(es[..n], bytes);
      if k :| 0 <= k < |es| && es[k].key.bytes == bytes {
        assert k < n ==> es[..n][k].key.bytes == bytes;
      }
      if k :| 0 <= k < n && es[..n][k].key.bytes == bytes {
        assert es[k].key.bytes == bytes;
      }
    }
  }

  /** A cell that holds the key determines the lookup. */
  lemma {:induction false} LookupCell(cells: seq<Cell>, i: nat, bytes: Bytes)
    requires i < |cells| && Unique(cells) && cells[i].Holds(bytes)
    ensures Lookup(Live(cells), bytes) == Some(Entry(cells[i].key.value, cells[i].value))
  {
    var n := |cells| - 1;
    LiveSnoc(cells[..n], cells[n]);
    assert cells[..n] + [cells[n]] == cells;
    var es := Live(cells[..n]);
    if i == n {
      assert Live(cells)[..|es|] == es;
    } else {
      LookupCell(cells[..n], i, bytes);
      assert Live(cells)[..|es|] == es;
      assert !cells[n].Live() ==> Live(cells) == es;
    }
  }

  lemma ReplaceSnoc(es: seq<Entry>, x: Entry, bytes: Bytes, e: Entry)
    ensures Replace(es + [x], bytes, e) == Replace(es, bytes, e) + [if x.key.bytes == bytes then e else x]
    ensures Drop(es + [x], bytes) == Drop(es, bytes) + (if x.key.bytes == bytes then [] else [x])
  {
    assert (es + [x])[..|es|] == es;
  }

  lemma {:induction false} ReplaceAbsent(es: seq<Entry>, bytes: Bytes, e: Entry)
    requires !Has(es, bytes)
    ensures Replace(es, bytes, e) == es && Drop(es, bytes) == es
  {
    if es != [] {
      var n := |es| - 1;
      assert es[n].key.bytes != bytes;
      assert !Has(es[..n], bytes) by {
        assert forall k :: 0 <= k < n ==> es[..n][k] == es[k];
      }
      ReplaceAbsent(es[..n], bytes, e);
      assert es[..n] + [es[n]] == es;
    }
  }

  /** Overwriting one cell with another of the same key replaces one entry; overwriting it with a dead one drops it. */
  lemma {:induction false} LiveUpdate(cells: seq<Cell>, i: nat, c: Cell, e: Entry)
    requires i < |cells| && Unique(cells) && cells[i].Live()
    requires c.Live() ==> e == Entry(c.key.value, c.value) && c.Holds(cells[i].key.value.bytes)
    ensures c.Live() ==> Live(cells[i := c]) == Replace(Live(cells), cells[i].key.value.bytes, e)
    ensures !c.Live() ==> Live(cells[i := c]) == Drop(Live(cells), cells[i].key.value.bytes)
  {
    hide Live, Replace, Drop;
    var n, bytes := |cells| - 1, cells[i].key.value.bytes;
    var front, last := cells[..n], cells[n];
    assert cells == front + [last];
    LiveSnoc(front, last);
    if i == n {
      assert cells[i := c] == front + [c];
      LiveSnoc(front, c);
      LiveHas(front, bytes);
      ReplaceAbsent(Live(front), bytes, e);
      ReplaceSnoc(Live(front), Entry(last.key.value, last.value), bytes, e);
      assert Live(front) + [] == Live(front);
    } else {
      assert cells[i := c] == front[i := c] + [last];
      LiveSnoc(front[i := c], last);
      LiveUpdate(front, i, c, e);
      if last.Live() {
        ReplaceSnoc(Live(front), Entry(last.key.value, last.value), bytes, e);
      } else {
        assert Live(cells) == Live(front) && Live(cells[i := c]) == Live(front[i := c]);
      }
    }
  }

  // ----- Entries as a finite map

  ghost function ToMap(es: seq<Entry>): map<Bytes, nat> {
    if es == [] then map[]
    else ToMap(es[..|es| - 1])[es[|es| - 1].key.bytes := es[|es| - 1].value]
  }

  ghost predicate UniqueKeys(es: seq<Entry>) {
    forall i, j :: 0 <= i < j < |es| ==> es[i].key.bytes != es[j].key.bytes
  }

  lemma {:induction false} MapLookup(es: seq<Entry>, bytes: Bytes)
    ensures (bytes in ToMap(es)) == Has(es, bytes) == Lookup(es, bytes).Some?
    ensures bytes in ToMap(es) ==>
      Lookup(es, bytes).value.value == ToMap(es)[bytes] && Lookup(es, bytes).value.key.bytes == bytes
  {
    LookupAbsent(es, bytes);
    if es != [] { MapLookup(es[..|es| - 1], bytes); }
  }

  lemma MapSnoc(es: seq<Entry>, e: Entry)
    ensures ToMap(es + [e]) == ToMap(es)[e.key.bytes := e.value]
  {
    assert (es + [e])[..|es|] == es;
  }

  lemma {:induction false} MapReplace(es: seq<Entry>, bytes: Bytes, e: Entry)
    requires Has(es, bytes) && e.key.bytes == bytes
    ensures ToMap(Replace(es, bytes, e)) == ToMap(es)[bytes := e.value]
  {
    hide Replace, ToMap;
    var n := |es| - 1;
    var front, x := es[..n], es[n];
    assert es == front + [x];
    ReplaceSnoc(front, x, bytes, e);
    MapSnoc(front, x);
    MapSnoc(Replace(front, bytes, e), if x.key.bytes == bytes then e else x);
    if Has(front, bytes) {
      MapReplace(front, bytes, e);
      UpdateTwice(ToMap(front), bytes, e.value, x.key.bytes, x.value);
    } else {
      ReplaceAbsent(front, bytes, e);
      OnlyLast(es, bytes);
      assert ToMap(front)[bytes := x.value][bytes := e.value] == ToMap(front)[bytes := e.value];
    }
  }

  lemma UpdateTwice(m: map<Bytes, nat>, b: Bytes, v: nat, c: Bytes, w: nat)
    ensures b != c ==> m[b := v][c := w] == m[c := w][b := v]
    ensures m[b := v][b := v] == m[b := v] && m[b := w][b := v] == m[b := v]
  {
  }

  /** A key that is not in front of the last entry is the last entry's. */
  lemma OnlyLast(es: seq<Entry>, bytes: Bytes)
    requires Has(es, bytes) && es != [] && !Has(es[..|es| - 1], bytes)
    ensures es[|es| - 1].key.bytes == bytes
  {
    var front := es[..|es| - 1];
    assert forall i :: 0 <= i < |front| ==> front[i] == es[i];
  }

  lemma {:induction false} MapDrop(es: seq<Entry>, bytes: Bytes)
    ensures ToMap(Drop(es, bytes)) == ToMap(es) - {bytes}
  {
    if es != [] {
      var n := |es| - 1;
      var x := es[n];
      MapDrop(es[..n], bytes);
      if x.key.bytes != bytes {
        MapSnoc(Drop(es[..n], bytes), x);
      } else {
        assert Drop(es, bytes) == Drop(es[..n], bytes);
      }
    }
  }

  /** With unique keys the number of entries is the cardinality of the map. */
  lemma {:induction false} MapSize(es: seq<Entry>)
    requires UniqueKeys(es)
    ensures |ToMap(es)| == |es|
  {
    if es != [] {
      var n := |es| - 1;
      MapSize(es[..n]);
      MapLookup(es[..n], es[n].key.bytes);
      assert ToMap(es).Keys == ToMap(es[..n]).Keys + {es[n].key.bytes};
    }
  }

  lemma {:induction false} LiveUnique(cells: seq<Cell>)
    requires Unique(cells)
    ensures UniqueKeys(Live(cells))
  {
    if cells != [] {
      var n := |cells| - 1;
      LiveUnique(cells[..n]);
      if cells[n].Live() {
        var bytes := cells[n].key.value.bytes;
        LiveHas(cells[..n], bytes);
        assert !Has(Live(cells[..n]), bytes);
      }
    }
  }

  // ----- Chains

  ghost predicate Distinct(ids: seq<nat>) {
    forall i, j :: 0 <= i < j < |ids| ==> ids[i] != ids[j]
  }

  ghost predicate InRange(ids: seq<nat>, n: nat) {
    forall i :: 0 <= i < |ids| ==> ids[i] < n
  }

  ghost function Cells(bs: seq<Bucket>, ids: seq<nat>): (r: seq<Cell>)
    requires InRange(ids, |bs|)
    ensures |r| == |ids|
  {
    seq(|ids|, i requires 0 <= i < |ids| => bs[ids[i]].cell)
  }

  /** The pointer to the i-th node of the chain, null past its end. */
  function LinkTo(table: nat, ids: seq<nat>, i: nat): Link {
    if i < |ids| then At(table, ids[i]) else Null
  }

  function LastLink(table: nat, ids: seq<nat>): Link {
    if ids == [] then FirstField else At(table, ids[|ids| - 1])
  }

  /** Every node points to its successor; the last one to `end`. */
  ghost predicate Linked(bs: seq<Bucket>, table: nat, ids: seq<nat>, end: Link)
    requires InRange(ids, |bs|)
  {
    && (forall i, j :: 0 <= i < j < |ids| && j == i + 1 ==> bs[ids[i]].next == At(table, ids[j]))
    && (ids != [] ==> bs[ids[|ids| - 1]].next == end)
  }

  // ----- Probing

  /** Steps from `from` to `to` going up cyclically. */
  function Dist(from: nat, to: nat, cap: nat): nat
    requires from < cap && to < cap
  {
    if from <= to then to - from else to + cap - from
  }

  lemma FirstProbe(start: nat, cap: nat)
    requires start < cap
    ensures Dist(start, start, cap) == 0
  {
  }

  /** One probe step away from slot i, when a later slot e is still ahead. */
  lemma NextProbe(start: nat, i: nat, e: nat, cap: nat)
    requires start < cap && i < cap && e < cap && i != e && Dist(start, i, cap) <= Dist(start, e, cap)
    ensures (i + 1) % cap < cap && Dist(start, (i + 1) % cap, cap) == Dist(start, i, cap) + 1 <= Dist(start, e, cap)
    ensures forall t :: 0 <= t < cap && Dist(start, t, cap) <= Dist(start, i, cap) ==>
              t == i || Dist(start, t, cap) < Dist(start, i, cap)
  {
    Wrap(i, cap);
  }

  lemma Wrap(i: nat, cap: nat)
    requires i < cap
    ensures (i + 1) % cap == if i + 1 == cap then 0 else i + 1
  {
  }

  /** All slots met when probing from `start` before `s` are in use. */
  ghost predicate PathUsed(bs: seq<Bucket>, start: nat, s: nat)
    requires start < |bs| && s < |bs|
  {
    forall t :: 0 <= t < |bs| && Dist(start, t, |bs|) < Dist(start, s, |bs|) ==> bs[t].cell.Used()
  }

  /** The probe-path invariant of one slot: a live cell carries its key's hash and is reachable from its home slot. */
  ghost predicate Reachable(bs: seq<Bucket>, hash: Bytes -> nat, s: nat)
    requires s < |bs|
  {
    bs[s].cell.Live() ==>
      && bs[s].cell.hash == hash(bs[s].cell.key.value.bytes)
      && PathUsed(bs, bs[s].cell.hash % |bs|, s)
  }

  /** `ids` lists exactly the used slots, once each; live keys are unique and reachable. */
  ghost predicate TableOk(bs: seq<Bucket>, hash: Bytes -> nat, ids: seq<nat>) {
    && InRange(ids, |bs|) && Distinct(ids)
    && (forall s :: 0 <= s < |bs| ==> (bs[s].cell.Used() <==> s in ids))
    && (forall s :: 0 <= s < |bs| ==> Reachable(bs, hash, s))
    && Unique(Cells(bs, ids))
  }

  ghost function Range(n: nat): (r: set<nat>)
    ensures |r| == n && forall x: nat :: x in r <==> x < n
  {
    if n == 0 then {} else Range(n - 1) + {n - 1}
  }

  ghost function Elements(ids: seq<nat>): (r: set<nat>)
    ensures |r| <= |ids| && forall x :: x in r <==> x in ids
  {
    if ids == [] then {} else Elements(ids[..|ids| - 1]) + {ids[|ids| - 1]}
  }

  lemma {:induction false} SubsetSize(a: set<nat>, b: set<nat>)
    requires a <= b
    ensures |a| <= |b|
  {
    if a != {} {
      var x :| x in a;
      SubsetSize(a - {x}, b - {x});
    }
  }

  /** A table with more slots than chain nodes has an empty slot. */
  lemma EmptySlot(bs: seq<Bucket>, hash: Bytes -> nat, ids: seq<nat>) returns (e: nat)
    requires TableOk(bs, hash, ids) && |ids| < |bs|
    ensures e < |bs| && !bs[e].cell.Used()
  {
    if forall s :: 0 <= s < |bs| ==> s in ids {
      SubsetSize(Range(|bs|), Elements(ids));
    }
    e :| 0 <= e < |bs| && e !in ids;
  }

  /** An empty slot that ends the probe for a key proves the key absent. */
  lemma ProbeDecides(bs: seq<Bucket>, hash: Bytes -> nat, ids: seq<nat>, bytes: Bytes, s: nat)
    requires TableOk(bs, hash, ids) && s < |bs| && !bs[s].cell.Used()
    requires forall t :: 0 <= t < |bs| && Dist(hash(bytes) % |bs|, t, |bs|) < Dist(hash(bytes) % |bs|, s, |bs|) ==>
      !bs[t].cell.Holds(bytes)
    ensures forall t :: 0 <= t < |bs| ==> !bs[t].cell.Holds(bytes)
  {
    var start := hash(bytes) % |bs|;
    forall t | 0 <= t < |bs| ensures !bs[t].cell.Holds(bytes) {
      assert Reachable(bs, hash, t);
      assert Dist(start, s, |bs|) == Dist(start, t, |bs|) ==> s == t;
    }
  }
}
