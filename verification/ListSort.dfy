/**
 The in-place merge sort on the chain of a bucket table. Its effect is stated exactly, as a function on the
 sequence of cells along the chain, whatever the comparator answers.
 */
module ListSort {
  import opened Basics
  import opened Buckets

  /** A comparator on key pointers; only the sign of the answer matters. */
  type Compare = (Option<Key>, Option<Key>) -> int

  // ----- The effect on the cells along the chain

  /** The interleaving loop: `a` always starts with a cell that is already in place. */
  ghost function Interleave(cmp: Compare, a: seq<Cell>, b: seq<Cell>): (r: seq<Cell>)
    requires a != []
    ensures |r| == |a| + |b|
    decreases |a| + |b|
  {
    if |a| == 1 then a + b
    else if b == [] then a
    else if cmp(a[1].key, b[0].key) > 0 then [a[0]] + Interleave(cmp, [b[0]] + a[1..], b[1..])
    else [a[0]] + Interleave(cmp, a[1..], b)
  }

  ghost function SwapAt(s: seq<Cell>, i: nat, j: nat): seq<Cell>
    requires i < |s| && j < |s|
  {
    s[i := s[j]][j := s[i]]
  }

  /** Two runs side by side: first cells and last cells change places when the first ones compare greater. */
  ghost function Prepare(cmp: Compare, s: seq<Cell>, k: nat): (r: seq<Cell>)
    requires 0 < k < |s|
    ensures |r| == |s|
  {
    if cmp(s[0].key, s[k].key) > 0 then SwapAt(SwapAt(s, 0, k), k - 1, |s| - 1) else s
  }

  /** The merge of the runs s[..k] and s[k..]. */
  ghost function MergeRuns(cmp: Compare, s: seq<Cell>, k: nat): (r: seq<Cell>)
    requires 0 < k < |s|
    ensures |r| == |s|
  {
    var p := Prepare(cmp, s, k);
    Interleave(cmp, p[..k], p[k..])
  }

  function Min(a: nat, b: nat): nat { if a < b then a else b }

  /** One pass: neighbouring runs of length `gap` are merged; a lone run at the end stays. */
  ghost function Pass(cmp: Compare, gap: nat, s: seq<Cell>): (r: seq<Cell>)
    requires gap > 0
    ensures |r| == |s|
  {
    if |s| <= gap then s
    else
      var m := Min(2 * gap, |s|);
      MergeRuns(cmp, s[..m], gap) + Pass(cmp, gap, s[m..])
  }

  /** All passes, with doubling gaps. */
  ghost function Passes(cmp: Compare, gap: nat, s: seq<Cell>): (r: seq<Cell>)
    requires gap > 0
    ensures |r| == |s|
    decreases |s| - gap
  {
    if gap < |s| then Passes(cmp, 2 * gap, Pass(cmp, gap, s)) else s
  }

  // ----- Every comparator: the cells are permuted

  lemma {:induction false} InterleavePermutes(cmp: Compare, a: seq<Cell>, b: seq<Cell>)
    requires a != []
    ensures multiset(Interleave(cmp, a, b)) == multiset(a) + multiset(b)
    decreases |a| + |b|
  {
    if |a| > 1 && b != [] {
      assert a == [a[0]] + a[1..] && b == [b[0]] + b[1..];
      if cmp(a[1].key, b[0].key) > 0 {
        InterleavePermutes(cmp, [b[0]] + a[1..], b[1..]);
      } else {
        InterleavePermutes(cmp, a[1..], b);
      }
    }
  }

  lemma SwapPermutes(s: seq<Cell>, i: nat, j: nat)
    requires i < |s| && j < |s|
    ensures multiset(SwapAt(s, i, j)) == multiset(s)
  {
  }

  lemma MergeRunsPermutes(cmp: Compare, s: seq<Cell>, k: nat)
    requires 0 < k < |s|
    ensures multiset(MergeRuns(cmp, s, k)) == multiset(s)
  {
    hide Prepare, Interleave;
    var p := Prepare(cmp, s, k);
    PreparePermutes(cmp, s, k);
    InterleavePermutes(cmp, p[..k], p[k..]);
    assert p == p[..k] + p[k..];
  }

  lemma PreparePermutes(cmp: Compare, s: seq<Cell>, k: nat)
    requires 0 < k < |s|
    ensures multiset(Prepare(cmp, s, k)) == multiset(s)
  {
    SwapPermutes(s, 0, k);
    SwapPermutes(SwapAt(s, 0, k), k - 1, |s| - 1);
  }

  lemma {:induction false} PassPermutes(cmp: Compare, gap: nat, s: seq<Cell>)
    requires gap > 0
    ensures multiset(Pass(cmp, gap, s)) == multiset(s)
    decreases |s|
  {
    hide MergeRuns;
    if |s| > gap {
      var m := Min(2 * gap, |s|);
      MergeRunsPermutes(cmp, s[..m], gap);
      PassPermutes(cmp, gap, s[m..]);
      ConcatCounts(MergeRuns(cmp, s[..m], gap), Pass(cmp, gap, s[m..]));
      ConcatCounts(s[..m], s[m..]);
      assert s == s[..m] + s[m..];
    }
  }

  /** For every comparator the sort conserves the cells. */
  lemma {:induction false} PassesPermute(cmp: Compare, gap: nat, s: seq<Cell>)
    requires gap > 0
    ensures multiset(Passes(cmp, gap, s)) == multiset(s)
    decreases |s| - gap
  {
    if gap < |s| {
      PassPermutes(cmp, gap, s);
      PassesPermute(cmp, 2 * gap, Pass(cmp, gap, s));
    }
  }

  /** The first pass moves nothing: with runs of one cell the two swaps of a merge cancel. */
  lemma {:induction false} FirstPassIsIdle(cmp: Compare, s: seq<Cell>)
    ensures Pass(cmp, 1, s) == s
  {
    if |s| > 1 {
      var p := s[..2];
      assert Prepare(cmp, p, 1) == p;
      assert p == p[..1] + p[1..];
      FirstPassIsIdle(cmp, s[2..]);
      assert s == s[..2] + s[2..];
    }
  }

  /** So two entries keep their order even when the comparator puts the second first. */
  lemma PairStaysUnsorted(cmp: Compare, s: seq<Cell>)
    requires |s| <= 2
    ensures Passes(cmp, 1, s) == s
  {
    FirstPassIsIdle(cmp, s);
  }

  // ----- Pure facts about chains

  /** `run` visits exactly the slots of `ids`, once each. */
  ghost predicate Rearranged(run: seq<nat>, ids: seq<nat>) {
    |run| == |ids| && Distinct(run) && forall x :: x in run <==> x in ids
  }

  ghost predicate SameCells(bs: seq<Bucket>, bs': seq<Bucket>) {
    |bs| == |bs'| && forall i :: 0 <= i < |bs| ==> bs[i].cell == bs'[i].cell
  }

  lemma LinkedFrame(bs: seq<Bucket>, bs': seq<Bucket>, table: nat, ids: seq<nat>, end: Link)
    requires InRange(ids, |bs|) && |bs'| == |bs| && Linked(bs, table, ids, end)
    requires forall s :: s in ids ==> bs'[s].next == bs[s].next
    ensures Linked(bs', table, ids, end)
  {
  }

  lemma LinkedConcat(bs: seq<Bucket>, table: nat, a: seq<nat>, b: seq<nat>, end: Link)
    requires InRange(a, |bs|) && InRange(b, |bs|) && b != []
    requires Linked(bs, table, a, At(table, b[0])) && Linked(bs, table, b, end)
    ensures InRange(a + b, |bs|) && Linked(bs, table, a + b, end)
  {
    var c := a + b;
    forall i, j | 0 <= i < j < |c| && j == i + 1 ensures bs[c[i]].next == At(table, c[j]) {
      if j < |a| {
        assert c[i] == a[i] && c[j] == a[j];
      } else if i >= |a| {
        assert c[i] == b[i - |a|] && c[j] == b[j - |a|];
      }
    }
  }

  lemma LinkedSplit(bs: seq<Bucket>, table: nat, ids: seq<nat>, k: nat, end: Link)
    requires InRange(ids, |bs|) && Linked(bs, table, ids, end) && k <= |ids|
    ensures InRange(ids[..k], |bs|) && InRange(ids[k..], |bs|)
    ensures Linked(bs, table, ids[..k], if k < |ids| then At(table, ids[k]) else end)
    ensures Linked(bs, table, ids[k..], end)
  {
    if 0 < k < |ids| {
      assert bs[ids[k - 1]].next == At(table, ids[k]);
    }
    var b := ids[k..];
    forall i, j | 0 <= i < j < |b| && j == i + 1 ensures bs[b[i]].next == At(table, b[j]) {
      assert b[i] == ids[k + i] && b[j] == ids[k + j];
    }
  }

  /** Redirecting the last node of a chain. */
  lemma LinkedRedirect(bs: seq<Bucket>, table: nat, ids: seq<nat>, end: Link, end': Link)
    requires InRange(ids, |bs|) && ids != [] && Distinct(ids) && Linked(bs, table, ids, end)
    ensures Linked(bs[ids[|ids| - 1] := bs[ids[|ids| - 1]].(next := end')], table, ids, end')
  {
  }

  ghost function Inserted(ids: seq<nat>, p: nat, b: nat): (r: seq<nat>)
    requires p < |ids|
    ensures |r| == |ids| + 1 && r[p + 1] == b
  {
    ids[..p + 1] + [b] + ids[p + 1..]
  }

  /** Splicing slot b into a chain after position p. */
  lemma LinkedInsert(bs: seq<Bucket>, bs': seq<Bucket>, table: nat, ids: seq<nat>, p: nat, b: nat, end: Link)
    requires InRange(ids, |bs|) && b < |bs| == |bs'| && b !in ids && Distinct(ids) && p + 1 < |ids|
    requires Linked(bs, table, ids, end)
    requires bs'[b].next == bs[ids[p]].next && bs'[ids[p]].next == At(table, b)
    requires forall s :: s in ids && s != ids[p] ==> bs'[s].next == bs[s].next
    ensures InRange(Inserted(ids, p, b), |bs|) && Linked(bs', table, Inserted(ids, p, b), end)
  {
    var ids' := Inserted(ids, p, b);
    assert forall i :: 0 <= i <= p ==> ids'[i] == ids[i];
    assert ids'[p + 1] == b;
    assert forall i :: p + 2 <= i < |ids'| ==> ids'[i] == ids[i - 1];
    forall i, j | 0 <= i < j < |ids'| && j == i + 1 ensures bs'[ids'[i]].next == At(table, ids'[j]) {
      if i < p {
        assert ids[i] != ids[p];
      } else if i > p + 1 {
        assert ids[i - 1] != ids[p];
      }
    }
  }

  // ----- The merge, step by step

  /**
   What the interleaving loop will leave along the chain: `run` is in place up to position p, `rest` is still to be
   spliced in.
   */
  ghost function Outcome(cmp: Compare, bs: seq<Bucket>, run: seq<nat>, p: nat, rest: seq<nat>): seq<Cell>
    requires InRange(run, |bs|) && InRange(rest, |bs|) && p < |run|
  {
    Cells(bs, run[..p]) + Interleave(cmp, Cells(bs, run[p..]), Cells(bs, rest))
  }

  lemma OutcomeKeep(cmp: Compare, bs: seq<Bucket>, run: seq<nat>, p: nat, rest: seq<nat>)
    requires InRange(run, |bs|) && InRange(rest, |bs|) && p + 1 < |run| && rest != []
    requires cmp(bs[run[p + 1]].cell.key, bs[rest[0]].cell.key) <= 0
    ensures Outcome(cmp, bs, run, p + 1, rest) == Outcome(cmp, bs, run, p, rest)
  {
    var a, b := Cells(bs, run[p..]), Cells(bs, rest);
    assert a[1] == bs[run[p + 1]].cell && b[0] == bs[rest[0]].cell;
    assert a[1..] == Cells(bs, run[p + 1..]);
    assert Cells(bs, run[..p]) + [a[0]] == Cells(bs, run[..p + 1]);
  }

  lemma OutcomeInsert(cmp: Compare, bs: seq<Bucket>, run: seq<nat>, p: nat, rest: seq<nat>)
    requires InRange(run, |bs|) && InRange(rest, |bs|) && p + 1 < |run| && rest != []
    requires cmp(bs[run[p + 1]].cell.key, bs[rest[0]].cell.key) > 0
    ensures InRange(Inserted(run, p, rest[0]), |bs|)
    ensures Outcome(cmp, bs, Inserted(run, p, rest[0]), p + 1, rest[1..]) == Outcome(cmp, bs, run, p, rest)
  {
    hide Interleave, Cells, Inserted;
    CellsFrom(bs, run, p);
    CellsFrom(bs, rest, 0);
    InsertedCells(bs, run, p, rest[0]);
    InterleaveInsert(cmp, Cells(bs, run[p..]), Cells(bs, rest));
    assert rest[0..] == rest;
  }

  lemma InterleaveInsert(cmp: Compare, a: seq<Cell>, b: seq<Cell>)
    requires |a| > 1 && b != [] && cmp(a[1].key, b[0].key) > 0
    ensures Interleave(cmp, a, b) == [a[0]] + Interleave(cmp, [b[0]] + a[1..], b[1..])
  {
  }

  /** The cells from position p on: head, second and tail. */
  lemma CellsFrom(bs: seq<Bucket>, run: seq<nat>, p: nat)
    requires InRange(run, |bs|) && p < |run|
    ensures Cells(bs, run[p..]) == [bs[run[p]].cell] + Cells(bs, run[p + 1..])
    ensures p + 1 < |run| ==> Cells(bs, run[p..])[1] == bs[run[p + 1]].cell
  {
    assert run[p..][0] == run[p] && run[p..][1..] == run[p + 1..];
  }

  lemma InsertedCells(bs: seq<Bucket>, run: seq<nat>, p: nat, x: nat)
    requires InRange(run, |bs|) && p < |run| && x < |bs|
    ensures InRange(Inserted(run, p, x), |bs|)
    ensures Cells(bs, Inserted(run, p, x)[p + 1..]) == [bs[x].cell] + Cells(bs, run[p + 1..])
    ensures Cells(bs, Inserted(run, p, x)[..p + 1]) == Cells(bs, run[..p]) + [bs[run[p]].cell]
  {
    var run' := Inserted(run, p, x);
    assert run'[p + 1..] == [x] + run[p + 1..];
    assert run'[..p + 1] == run[..p] + [run[p]];
  }

  lemma OutcomeEnd(cmp: Compare, bs: seq<Bucket>, run: seq<nat>, p: nat, rest: seq<nat>)
    requires InRange(run, |bs|) && InRange(rest, |bs|) && p < |run| && (p + 1 == |run| || rest == [])
    ensures InRange(run + rest, |bs|) && Cells(bs, run + rest) == Outcome(cmp, bs, run, p, rest)
  {
    assert run == run[..p] + run[p..];
    assert Cells(bs, run[p..]) + Cells(bs, rest) == Cells(bs, run[p..] + rest);
  }

  lemma CellsFrame(bs: seq<Bucket>, bs': seq<Bucket>, ids: seq<nat>)
    requires InRange(ids, |bs|) && |bs'| == |bs| && forall s :: s in ids ==> bs'[s].cell == bs[s].cell
    ensures Cells(bs', ids) == Cells(bs, ids)
  {
    assert forall i :: 0 <= i < |ids| ==> ids[i] in ids;
  }

  ghost function Swapped(bs: seq<Bucket>, a: nat, b: nat): seq<Bucket>
    requires a < |bs| && b < |bs|
  {
    bs[a := bs[a].(cell := bs[b].cell)][b := bs[b].(cell := bs[a].cell)]
  }

  lemma SwappedAlong(bs: seq<Bucket>, ids: seq<nat>, i: nat, j: nat)
    requires InRange(ids, |bs|) && Distinct(ids) && i < |ids| && j < |ids|
    ensures Cells(Swapped(bs, ids[i], ids[j]), ids) == SwapAt(Cells(bs, ids), i, j)
  {
  }

  /** Exchanges the contents of two buckets, not their `next` pointers. */
  method SwapBucket(t: array<Bucket>, a: nat, b: nat)
    requires a < t.Length && b < t.Length
    modifies t
    ensures t[..] == Swapped(old(t[..]), a, b)
  {
    var tmp := t[a];
    t[a] := t[a].(cell := t[b].cell);
    t[b] := t[b].(cell := tmp.cell);
  }

  /** Swaps first and last cells of two neighbouring runs when the first ones compare greater. */
  method SwapEnds(
    t: array<Bucket>, cmp: Compare, start1: nat, end1: nat, start2: nat, end2: nat, ghost ids: seq<nat>, ghost k: nat
  )
    requires InRange(ids, t.Length) && Distinct(ids) && 0 < k < |ids|
    requires start1 == ids[0] && end1 == ids[k - 1] && start2 == ids[k] && end2 == ids[|ids| - 1]
    modifies t
    ensures Cells(t[..], ids) == Prepare(cmp, old(Cells(t[..], ids)), k)
    ensures forall s :: 0 <= s < t.Length ==> t[s].next == old(t[s].next) && (s !in ids ==> t[s] == old(t[s]))
  {
    hide Swapped, SwapAt, Distinct;
    ghost var bs := t[..];
    assert Cells(bs, ids)[0] == t[start1].cell && Cells(bs, ids)[k] == t[start2].cell;
    if cmp(t[start1].cell.key, t[start2].cell.key) > 0 {
      SwappedAlong(bs, ids, 0, k);
      SwappedElsewhere(bs, start1, start2);
      SwapBucket(t, start1, start2);
      ghost var bs' := t[..];
      SwappedAlong(bs', ids, k - 1, |ids| - 1);
      SwappedElsewhere(bs', end1, end2);
      SwapBucket(t, end1, end2);
    }
  }

  lemma SwappedElsewhere(bs: seq<Bucket>, a: nat, b: nat)
    requires a < |bs| && b < |bs|
    ensures |Swapped(bs, a, b)| == |bs|
    ensures forall s :: 0 <= s < |bs| ==>
      Swapped(bs, a, b)[s].next == bs[s].next && (s != a && s != b ==> Swapped(bs, a, b)[s] == bs[s])
  {
  }

  /**
   Merges the runs ids[..k] and ids[k..], neighbours in the chain, into one run with the same first node. Returns the
   new last node; its `next` is left dangling when that node was the end of the first run.
   */
  method Merge(t: array<Bucket>, table: nat, cmp: Compare, start1: Link, end1: Link, start2: Link, end2: Link,
               ghost ids: seq<nat>, ghost k: nat)
    returns (end: Link, ghost run: seq<nat>)
    requires InRange(ids, t.Length) && Distinct(ids) && 0 < k < |ids|
    requires start1 == At(table, ids[0]) && end1 == At(table, ids[k - 1])
    requires start2 == At(table, ids[k]) && end2 == At(table, ids[|ids| - 1])
    requires Linked(t[..], table, ids, t[end2.slot].next)
    requires t[end2.slot].next.At? ==> t[end2.slot].next.slot !in ids
    modifies t
    ensures Rearranged(run, ids) && run[0] == ids[0] && end == At(table, run[|run| - 1])
    ensures InRange(run, t.Length) && Linked(t[..], table, run, t[end.slot].next)
    ensures Cells(t[..], run) == MergeRuns(cmp, old(Cells(t[..], ids)), k)
    ensures forall s :: 0 <= s < t.Length && s !in ids ==> t[s] == old(t[s])
  {
    SwapEnds(t, cmp, start1.slot, end1.slot, start2.slot, end2.slot, ids, k);
    end, run := Interleaving(t, table, cmp, start1, end1, start2, end2, ids, k);
  }

  /** The state of the interleaving loop. */
  ghost predicate Midway(
    bs: seq<Bucket>, table: nat, ids: seq<nat>, k: nat, run: seq<nat>, p: nat, rest: seq<nat>, end: Link
  )
    requires 0 < k < |ids|
  {
    && p < |run| && InRange(run, |bs|) && InRange(rest, |bs|) && Rearranged(run + rest, ids)
    && run[0] == ids[0] && run[|run| - 1] == ids[k - 1]
    && (rest != [] ==> rest[|rest| - 1] == ids[|ids| - 1])
    && (rest == [] ==> p + 1 < |run|)
    && Linked(bs, table, run, bs[run[|run| - 1]].next)
    && Linked(bs, table, rest, end)
  }

  lemma MidwayInsert(
    bs: seq<Bucket>, table: nat, ids: seq<nat>, k: nat, run: seq<nat>, p: nat, rest: seq<nat>, end: Link
  )
    requires 0 < k < |ids| && Midway(bs, table, ids, k, run, p, rest, end) && p + 1 < |run| && rest != []
    ensures bs[run[p]].next == At(table, run[p + 1])
    ensures bs[rest[0]].next == (if |rest| == 1 then end else At(table, rest[1]))
    ensures run[p] != rest[0]
    ensures Midway(Splice(bs, table, run[p], rest[0]), table, ids, k, Inserted(run, p, rest[0]), p + 1, rest[1..], end)
  {
    Apart(run, rest);
    assert run[p] in run && rest[0] in rest;
    assert bs[run[p]].next == At(table, run[p + 1]);
    SpliceRun(bs, table, run, p, rest[0]);
    SpliceRest(bs, table, run[p], rest, end);
    RearrangedInsert(run, p, rest, ids);
  }

  /** The loop's guard asks whether both runs have nodes left. */
  lemma MidwayGuard(
    bs: seq<Bucket>, table: nat, ids: seq<nat>, k: nat, run: seq<nat>, p: nat, rest: seq<nat>, end: Link
  )
    requires 0 < k < |ids| && Midway(bs, table, ids, k, run, p, rest, end)
    requires end.At? ==> end.slot !in ids
    ensures run[p] == ids[k - 1] <==> p + 1 == |run|
    ensures rest != [] ==> At(table, rest[0]) != end
    ensures p + 1 < |run| ==> bs[run[p]].next == At(table, run[p + 1])
    ensures run[p] in ids && forall s :: s in rest ==> s in ids
  {
    Apart(run, rest);
    assert (run + rest)[p] == run[p];
    forall s | s in rest ensures s in ids {
      assert s in run + rest;
    }
  }

  lemma MidwayStart(cmp: Compare, bs: seq<Bucket>, table: nat, ids: seq<nat>, k: nat, end: Link)
    requires InRange(ids, |bs|) && Distinct(ids) && 0 < k < |ids| && Linked(bs, table, ids, end)
    ensures Midway(bs, table, ids, k, ids[..k], 0, ids[k..], end)
    ensures Outcome(cmp, bs, ids[..k], 0, ids[k..]) == Interleave(cmp, Cells(bs, ids)[..k], Cells(bs, ids)[k..])
  {
    var run, rest := ids[..k], ids[k..];
    LinkedSplit(bs, table, ids, k, end);
    assert run + rest == ids;
    assert Cells(bs, ids)[..k] == Cells(bs, run[0..]) && Cells(bs, ids)[k..] == Cells(bs, rest);
    assert Cells(bs, run[..0]) == [];
  }

  /** Hooks what is left of the second run behind the first, or declares the end of the first run the end of both. */
  method CloseRun(t: array<Bucket>, table: nat, astart: Link, bstart: Link, bendnext: Link, end1: Link, end2: Link,
                  ghost ids: seq<nat>, ghost k: nat, ghost run: seq<nat>, ghost p: nat, ghost rest: seq<nat>)
    returns (end: Link, ghost run': seq<nat>)
    requires 0 < k < |ids| && Midway(t[..], table, ids, k, run, p, rest, bendnext)
    requires bendnext.At? ==> bendnext.slot !in ids
    requires end1 == At(table, ids[k - 1]) && end2 == At(table, ids[|ids| - 1])
    requires astart == At(table, run[p]) && bstart == if rest == [] then bendnext else At(table, rest[0])
    requires astart == end1 || bstart == bendnext
    modifies t
    ensures run' == run + rest && Rearranged(run', ids) && run'[0] == ids[0] && end == At(table, run'[|run'| - 1])
    ensures InRange(run', t.Length) && Linked(t[..], table, run', t[end.slot].next)
    ensures forall s :: 0 <= s < t.Length ==> t[s].cell == old(t[s].cell) && (s !in ids ==> t[s] == old(t[s]))
  {
    MidwayGuard(t[..], table, ids, k, run, p, rest, bendnext);
    Apart(run, rest);
    run' := run + rest;
    if astart == end1 {
      ghost var bs' := t[..][astart.slot := t[astart.slot].(next := bstart)];
      LinkedRedirect(t[..], table, run, t[astart.slot].next, bstart);
      LinkedFrame(t[..], bs', table, rest, bendnext);
      LinkedConcat(bs', table, run, rest, bendnext);
      t[astart.slot] := t[astart.slot].(next := bstart);
      assert t[..] == bs';
      end := end2;
    } else {
      assert run' == run;
      end := end1;
    }
  }

  method Interleaving(t: array<Bucket>, table: nat, cmp: Compare, start1: Link, end1: Link, start2: Link, end2: Link,
                      ghost ids: seq<nat>, ghost k: nat)
    returns (end: Link, ghost run: seq<nat>)
    requires InRange(ids, t.Length) && Distinct(ids) && 0 < k < |ids|
    requires start1 == At(table, ids[0]) && end1 == At(table, ids[k - 1])
    requires start2 == At(table, ids[k]) && end2 == At(table, ids[|ids| - 1])
    requires Linked(t[..], table, ids, t[end2.slot].next)
    requires t[end2.slot].next.At? ==> t[end2.slot].next.slot !in ids
    modifies t
    ensures Rearranged(run, ids) && run[0] == ids[0] && end == At(table, run[|run| - 1])
    ensures InRange(run, t.Length) && Linked(t[..], table, run, t[end.slot].next)
    ensures Cells(t[..], run) == Interleave(cmp, old(Cells(t[..], ids))[..k], old(Cells(t[..], ids))[k..])
    ensures forall s :: 0 <= s < t.Length && s !in ids ==> t[s] == old(t[s])
  {
    hide Outcome, Interleave, Linked, Rearranged, Distinct, Cells;
    ghost var bs := t[..];
    ghost var goal := Interleave(cmp, Cells(bs, ids)[..k], Cells(bs, ids)[k..]);
    var astart, bstart, bendnext := start1, start2, t[end2.slot].next;
    ghost var p, rest := 0, ids[k..];
    run := ids[..k];
    MidwayStart(cmp, bs, table, ids, k, bendnext);
    while astart != end1 && bstart != bendnext
      invariant Midway(t[..], table, ids, k, run, p, rest, bendnext)
      invariant astart == At(table, run[p]) && bstart == if rest == [] then bendnext else At(table, rest[0])
      invariant SameCells(bs, t[..])
      invariant forall s :: 0 <= s < t.Length && s !in ids ==> t[s] == old(t[s])
      invariant Outcome(cmp, bs, run, p, rest) == goal
      decreases |run| - p + |rest|
    {
      MidwayGuard(t[..], table, ids, k, run, p, rest, bendnext);
      astart, bstart, run, rest := SpliceNext(t, table, cmp, astart, bstart, bendnext, bs, ids, k, run, p, rest);
      p := p + 1;
    }
    MidwayGuard(t[..], table, ids, k, run, p, rest, bendnext);
    OutcomeEnd(cmp, bs, run, p, rest);
    end, run := CloseRun(t, table, astart, bstart, bendnext, end1, end2, ids, k, run, p, rest);
    CellsFrame(bs, t[..], run);
  }

  /** One iteration: splices the next node of the second run in front of a greater one of the first, and moves on. */
  method SpliceNext(t: array<Bucket>, table: nat, cmp: Compare, astart: Link, bstart: Link, bendnext: Link,
                    ghost bs: seq<Bucket>, ghost ids: seq<nat>, ghost k: nat, ghost run: seq<nat>, ghost p: nat,
                    ghost rest: seq<nat>)
    returns (astart': Link, bstart': Link, ghost run': seq<nat>, ghost rest': seq<nat>)
    requires 0 < k < |ids| && Midway(t[..], table, ids, k, run, p, rest, bendnext)
    requires p + 1 < |run| && rest != [] && astart == At(table, run[p]) && bstart == At(table, rest[0])
    requires SameCells(bs, t[..])
    requires bendnext.At? ==> bendnext.slot !in ids
    modifies t
    ensures Midway(t[..], table, ids, k, run', p + 1, rest', bendnext)
    ensures astart' == At(table, run'[p + 1]) && bstart' == if rest' == [] then bendnext else At(table, rest'[0])
    ensures SameCells(bs, t[..]) && |run'| + |rest'| == |run| + |rest|
    ensures forall s :: 0 <= s < t.Length && s !in ids ==> t[s] == old(t[s])
    ensures Outcome(cmp, bs, run', p + 1, rest') == Outcome(cmp, bs, run, p, rest)
  {
    hide Outcome, Linked, Rearranged, Inserted, Distinct;
    MidwayGuard(t[..], table, ids, k, run, p, rest, bendnext);
    bstart', run', rest' := bstart, run, rest;
    var next := t[astart.slot].next;
    if cmp(t[next.slot].cell.key, t[bstart.slot].cell.key) > 0 {
      OutcomeInsert(cmp, bs, run, p, rest);
      MidwayInsert(t[..], table, ids, k, run, p, rest, bendnext);
      ghost var after := Splice(t[..], table, run[p], rest[0]);
      bstart' := t[bstart.slot].next;
      t[bstart.slot] := t[bstart.slot].(next := t[astart.slot].next);
      t[astart.slot] := t[astart.slot].(next := bstart);
      assert t[..] == after;
      run', rest' := Inserted(run, p, rest[0]), rest[1..];
    } else {
      OutcomeKeep(cmp, bs, run, p, rest);
    }
    astart' := t[astart.slot].next;
  }

  lemma Apart(run: seq<nat>, rest: seq<nat>)
    requires Distinct(run + rest)
    ensures Distinct(run) && Distinct(rest)
    ensures forall x :: x in run ==> x !in rest
  {
    var all, n := run + rest, |run|;
    assert forall i :: 0 <= i < n ==> all[i] == run[i];
    assert forall i :: 0 <= i < |rest| ==> all[n + i] == rest[i];
  }

  ghost function Splice(bs: seq<Bucket>, table: nat, a: nat, b: nat): seq<Bucket>
    requires a < |bs| && b < |bs|
  {
    var bs' := bs[b := bs[b].(next := bs[a].next)];
    bs'[a := bs'[a].(next := At(table, b))]
  }

  lemma SpliceRun(bs: seq<Bucket>, table: nat, run: seq<nat>, p: nat, b: nat)
    requires InRange(run, |bs|) && Distinct(run) && b < |bs| && b !in run && p + 1 < |run|
    requires Linked(bs, table, run, bs[run[|run| - 1]].next)
    ensures var bs', run' := Splice(bs, table, run[p], b), Inserted(run, p, b);
            InRange(run', |bs|) && Linked(bs', table, run', bs'[run[|run| - 1]].next)
  {
    assert run[p] != run[|run| - 1];
    LinkedInsert(bs, Splice(bs, table, run[p], b), table, run, p, b, bs[run[|run| - 1]].next);
  }

  lemma SpliceRest(bs: seq<Bucket>, table: nat, a: nat, rest: seq<nat>, end: Link)
    requires InRange(rest, |bs|) && Distinct(rest) && rest != [] && a < |bs| && a !in rest
    requires Linked(bs, table, rest, end)
    ensures Linked(Splice(bs, table, a, rest[0]), table, rest[1..], end)
    ensures bs[rest[0]].next == (if |rest| == 1 then end else At(table, rest[1]))
  {
    LinkedSplit(bs, table, rest, 1, end);
    assert forall s :: s in rest[1..] ==> s != rest[0] && s in rest;
    LinkedFrame(bs, Splice(bs, table, a, rest[0]), table, rest[1..], end);
  }

  lemma RearrangedInsert(run: seq<nat>, p: nat, rest: seq<nat>, ids: seq<nat>)
    requires p < |run| && rest != [] && Rearranged(run + rest, ids)
    ensures Rearranged(Inserted(run, p, rest[0]) + rest[1..], ids)
  {
    var a, b := run + rest, Inserted(run, p, rest[0]) + rest[1..];
    var n := |run|;
    assert forall i :: 0 <= i <= p ==> b[i] == a[i];
    assert b[p + 1] == a[n];
    assert forall i :: p + 1 < i <= n ==> b[i] == a[i - 1];
    assert forall i :: n < i < |a| ==> b[i] == a[i];
    forall x ensures x in b <==> x in a {
      if i :| 0 <= i < |a| && a[i] == x {
        var j := if i <= p then i else if i < n then i + 1 else if i == n then p + 1 else i;
        assert b[j] == x;
      }
      if j :| 0 <= j < |b| && b[j] == x {
        var i := if j <= p then j else if j == p + 1 then n else if j <= n then j - 1 else j;
        assert a[i] == x;
      }
    }
  }

  // ----- One pass over the chain, and all passes

  /** Follows `next` for up to gap - 1 steps, but not past the end of the chain. */
  method Walk(t: array<Bucket>, table: nat, start: Link, gap: nat, ghost ids: seq<nat>, ghost from: nat)
    returns (end: Link, ghost to: nat)
    requires InRange(ids, t.Length) && Linked(t[..], table, ids, Null) && gap > 0
    requires from < |ids| && start == At(table, ids[from])
    ensures to == Min(from + gap, |ids|) - 1 && end == At(table, ids[to])
    ensures t[end.slot].next == LinkTo(table, ids, to + 1)
  {
    var counter := gap;
    end, to := start, from;
    counter := counter - 1;
    while counter != 0 && t[end.slot].next != Null
      invariant from <= to < |ids| && end == At(table, ids[to]) && to + counter == from + gap - 1
      invariant t[end.slot].next == LinkTo(table, ids, to + 1)
      decreases counter
    {
      end := t[end.slot].next;
      to := to + 1;
      assert to + 1 < |ids| ==> t[ids[to]].next == At(table, ids[to + 1]);
      counter := counter - 1;
    }
  }

  /** The state between two merges of a pass: `done` is merged, `todo` is as it was. */
  ghost predicate Partway(
    bs: seq<Bucket>, table: nat, cmp: Compare, gap: nat, ids: seq<nat>, done: seq<nat>, todo: seq<nat>, goal: seq<Cell>
  )
    requires gap > 0
  {
    && InRange(done, |bs|) && InRange(todo, |bs|) && Rearranged(done + todo, ids)
    && (done != [] ==> done[0] == ids[0] && Linked(bs, table, done, bs[done[|done| - 1]].next))
    && (done == [] ==> todo == ids)
    && Linked(bs, table, todo, Null)
    && Cells(bs, done) + Pass(cmp, gap, Cells(bs, todo)) == goal
  }

  /** Merging the first two runs of `todo` and hooking the result behind `done`. */
  lemma PartwayStep(
    bs: seq<Bucket>, bs': seq<Bucket>, bs'': seq<Bucket>, table: nat, cmp: Compare, gap: nat, ids: seq<nat>,
    done: seq<nat>, todo: seq<nat>, goal: seq<Cell>, m: nat, run: seq<nat>
  )
    requires gap > 0 && Partway(bs, table, cmp, gap, ids, done, todo, goal)
    requires |todo| > gap && m == Min(2 * gap, |todo|)
    requires |bs'| == |bs| && Rearranged(run, todo[..m]) && run[0] == todo[0] && InRange(run, |bs|)
    requires Linked(bs', table, run, bs'[run[|run| - 1]].next)
    requires Cells(bs', run) == MergeRuns(cmp, Cells(bs, todo[..m]), gap)
    requires forall s :: 0 <= s < |bs| && s !in todo[..m] ==> bs'[s] == bs[s]
    requires bs'' == if done == [] then bs'
      else bs'[done[|done| - 1] := bs'[done[|done| - 1]].(next := At(table, run[0]))]
    ensures Partway(bs'', table, cmp, gap, ids, done + run, todo[m..], goal)
  {
    hide Linked, Pass, MergeRuns, Cells, Rearranged, Distinct;
    StepApart(ids, done, todo, m, run);
    assert done == [] ==> todo[0] == ids[0];
    PartwayLinks(bs, bs', bs'', table, done, todo, m, run);
    CellsFrame(bs', bs'', run);
    PartwayCells(bs, bs'', cmp, gap, done, todo, m, run);
    RearrangedStep(ids, done, todo, m, run);
    assert (done + run)[0] == ids[0];
  }

  lemma StepApart(ids: seq<nat>, done: seq<nat>, todo: seq<nat>, m: nat, run: seq<nat>)
    requires m <= |todo| && Rearranged(done + todo, ids) && Rearranged(run, todo[..m])
    ensures |run| == m && Distinct(done) && Distinct(run) && Distinct(todo[m..])
    ensures forall s :: s in done ==> s !in todo && s !in run && s !in todo[..m]
    ensures forall s :: s in todo[m..] ==> s !in todo[..m] && s !in done && s !in run
  {
    Apart(done, todo);
    assert todo == todo[..m] + todo[m..];
    Apart(todo[..m], todo[m..]);
  }

  lemma PartwayLinks(
    bs: seq<Bucket>, bs': seq<Bucket>, bs'': seq<Bucket>, table: nat, done: seq<nat>, todo: seq<nat>, m: nat,
    run: seq<nat>
  )
    requires InRange(done, |bs|) && InRange(todo, |bs|) && |bs'| == |bs| && m <= |todo| && run != []
    requires InRange(run, |bs|)
    requires Distinct(done) && Distinct(run)
    requires forall s :: s in done ==> s !in todo && s !in run
    requires forall s :: s in todo[m..] ==> s !in todo[..m] && s !in done
    requires done != [] ==> Linked(bs, table, done, bs[done[|done| - 1]].next)
    requires Linked(bs, table, todo, Null)
    requires Linked(bs', table, run, bs'[run[|run| - 1]].next)
    requires forall s :: 0 <= s < |bs| && s !in todo[..m] ==> bs'[s] == bs[s]
    requires bs'' == if done == [] then bs'
      else bs'[done[|done| - 1] := bs'[done[|done| - 1]].(next := At(table, run[0]))]
    ensures InRange(done + run, |bs|) && Linked(bs'', table, done + run, bs''[run[|run| - 1]].next)
    ensures InRange(todo[m..], |bs|) && Linked(bs'', table, todo[m..], Null)
  {
    LinkedSplit(bs, table, todo, m, Null);
    LinkedFrame(bs, bs'', table, todo[m..], Null);
    if done == [] {
      assert done + run == run;
    } else {
      assert done[|done| - 1] in done;
      LinkedFrame(bs, bs', table, done, bs[done[|done| - 1]].next);
      LinkedRedirect(bs', table, done, bs[done[|done| - 1]].next, At(table, run[0]));
      LinkedFrame(bs', bs'', table, run, bs'[run[|run| - 1]].next);
      LinkedConcat(bs'', table, done, run, bs''[run[|run| - 1]].next);
    }
  }

  lemma PassStep(cmp: Compare, gap: nat, s: seq<Cell>)
    requires |s| > gap > 0
    ensures var m := Min(2 * gap, |s|); Pass(cmp, gap, s) == MergeRuns(cmp, s[..m], gap) + Pass(cmp, gap, s[m..])
  {
    hide MergeRuns;
  }

  lemma PartwayCells(
    bs: seq<Bucket>, bs'': seq<Bucket>, cmp: Compare, gap: nat, done: seq<nat>, todo: seq<nat>, m: nat, run: seq<nat>
  )
    requires InRange(done, |bs|) && InRange(todo, |bs|) && InRange(run, |bs|) && |bs''| == |bs|
    requires |todo| > gap > 0 && m == Min(2 * gap, |todo|)
    requires Cells(bs'', run) == MergeRuns(cmp, Cells(bs, todo[..m]), gap)
    requires forall s :: s in done + todo[m..] ==> bs''[s].cell == bs[s].cell
    ensures Cells(bs'', done + run) + Pass(cmp, gap, Cells(bs'', todo[m..]))
         == Cells(bs, done) + Pass(cmp, gap, Cells(bs, todo))
  {
    hide Pass, MergeRuns;
    CellsFrame(bs, bs'', done);
    CellsFrame(bs, bs'', todo[m..]);
    var c := Cells(bs, todo);
    PassStep(cmp, gap, c);
    assert c[..m] == Cells(bs, todo[..m]) && c[m..] == Cells(bs, todo[m..]);
    assert Cells(bs'', done + run) == Cells(bs'', done) + Cells(bs'', run);
  }

  lemma Together(a: seq<nat>, b: seq<nat>)
    requires Distinct(a) && Distinct(b) && forall x :: x in a ==> x !in b
    ensures Distinct(a + b)
  {
    var c := a + b;
    forall i, j | 0 <= i < j < |c| ensures c[i] != c[j] {
      assert c[i] in if i < |a| then a else b;
      assert c[j] in if j < |a| then a else b;
    }
  }

  lemma RearrangedStep(ids: seq<nat>, done: seq<nat>, todo: seq<nat>, m: nat, run: seq<nat>)
    requires m <= |todo| && Rearranged(done + todo, ids) && Rearranged(run, todo[..m])
    ensures Rearranged(done + run + todo[m..], ids)
  {
    StepApart(ids, done, todo, m, run);
    Together(done, run);
    Together(done + run, todo[m..]);
    var b := done + run + todo[m..];
    forall x ensures x in b <==> x in ids {
      assert todo == todo[..m] + todo[m..];
      assert x in ids <==> x in done + todo;
    }
  }

  /** Hooking the lone run at the end, if any, behind the merged ones ends the pass. */
  lemma PartwayEnd(
    bs: seq<Bucket>, table: nat, cmp: Compare, gap: nat, ids: seq<nat>, done: seq<nat>, todo: seq<nat>, goal: seq<Cell>
  )
    requires gap > 0 && Partway(bs, table, cmp, gap, ids, done, todo, goal) && |todo| <= gap && done != []
    ensures var last := done[|done| - 1];
            var bs' := bs[last := bs[last].(next := LinkTo(table, todo, 0))];
            InRange(done + todo, |bs|) && Linked(bs', table, done + todo, Null) && Cells(bs', done + todo) == goal
  {
    var last := done[|done| - 1];
    var bs' := bs[last := bs[last].(next := LinkTo(table, todo, 0))];
    Apart(done, todo);
    assert last in done;
    LinkedRedirect(bs, table, done, bs[last].next, LinkTo(table, todo, 0));
    LinkedFrame(bs, bs', table, todo, Null);
    if todo == [] {
      assert done + todo == done;
    } else {
      LinkedConcat(bs', table, done, todo, Null);
    }
    CellsFrame(bs, bs', done + todo);
    assert Cells(bs, done + todo) == Cells(bs, done) + Cells(bs, todo);
  }

  method MergePass(t: array<Bucket>, table: nat, cmp: Compare, gap: nat, head: Link, ghost ids: seq<nat>)
    returns (head': Link, ghost ids': seq<nat>)
    requires InRange(ids, t.Length) && Distinct(ids) && Linked(t[..], table, ids, Null)
    requires 0 < gap < |ids| && head == At(table, ids[0])
    modifies t
    ensures Rearranged(ids', ids) && head' == At(table, ids'[0])
    ensures InRange(ids', t.Length) && Linked(t[..], table, ids', Null)
    ensures Cells(t[..], ids') == Pass(cmp, gap, old(Cells(t[..], ids)))
    ensures forall s :: 0 <= s < t.Length && s !in ids ==> t[s] == old(t[s])
  {
    hide Linked, Rearranged, Pass, MergeRuns, Distinct;
    ghost var goal := Pass(cmp, gap, Cells(t[..], ids));
    ghost var done, todo := [], ids;
    PartwayStart(t[..], table, cmp, gap, ids);
    head' := head;
    var start1, prevend, stop := head, Null, false;
    while start1 != Null && !stop
      invariant Partway(t[..], table, cmp, gap, ids, done, todo, goal)
      invariant start1 == LinkTo(table, todo, 0) && head' == head
      invariant EndsAt(prevend, table, done)
      invariant stop ==> |todo| <= gap
      invariant forall s :: 0 <= s < t.Length && s !in ids ==> t[s] == old(t[s])
      decreases |todo|, !stop
    {
      stop, head', start1, prevend, done, todo :=
        MergeNext(t, table, cmp, gap, head', start1, prevend, ids, done, todo, goal);
    }
    PartwayFacts(t[..], table, cmp, gap, ids, done, todo, goal);
    assert |todo| <= gap;
    PartwayEnd(t[..], table, cmp, gap, ids, done, todo, goal);
    t[prevend.slot] := t[prevend.slot].(next := start1);
    ids' := done + todo;
  }

  /** One iteration: merges the two runs at `start1`, unless there is only one, and hooks them behind `prevend`. */
  method MergeNext(t: array<Bucket>, table: nat, cmp: Compare, gap: nat, head: Link, start1: Link, prevend: Link,
                   ghost ids: seq<nat>, ghost done: seq<nat>, ghost todo: seq<nat>, ghost goal: seq<Cell>)
    returns (stop: bool, head': Link, start1': Link, prevend': Link, ghost done': seq<nat>, ghost todo': seq<nat>)
    requires 0 < gap < |ids| && head == At(table, ids[0]) && Partway(t[..], table, cmp, gap, ids, done, todo, goal)
    requires todo != [] && start1 == At(table, todo[0]) && EndsAt(prevend, table, done)
    modifies t
    ensures head' == head && start1' == LinkTo(table, todo', 0)
    ensures Partway(t[..], table, cmp, gap, ids, done', todo', goal)
    ensures EndsAt(prevend', table, done')
    ensures if stop then todo' == todo && |todo| <= gap else |todo'| < |todo|
    ensures forall s :: 0 <= s < t.Length && s !in ids ==> t[s] == old(t[s])
  {
    hide Linked, Rearranged, Pass, MergeRuns, Distinct, Cells;
    PartwayFacts(t[..], table, cmp, gap, ids, done, todo, goal);
    stop, head', start1', prevend', done', todo' := false, head, start1, prevend, done, todo;
    var isFirstIter := start1 == head;
    ghost var before := t[..];
    var temp, end;
    ghost var m, run;
    stop, temp, end, m, run := MergePair(t, table, cmp, gap, start1, todo);
    if stop {
      assert t[..] == before;
      return;
    }
    ghost var merged := t[..];
    if isFirstIter {
      head' := start1;
    } else {
      t[prevend.slot] := t[prevend.slot].(next := start1);
    }
    EndsAtConcat(end, table, done, run);
    PartwayStep(before, merged, t[..], table, cmp, gap, ids, done, todo, goal, m, run);
    prevend', start1' := end, temp;
    done', todo' := done + run, todo[m..];
  }

  /** Finds the two runs at `start1` and merges them, unless there is only one. */
  method MergePair(t: array<Bucket>, table: nat, cmp: Compare, gap: nat, start1: Link, ghost todo: seq<nat>)
    returns (stop: bool, temp: Link, end: Link, ghost m: nat, ghost run: seq<nat>)
    requires gap > 0 && todo != [] && start1 == At(table, todo[0])
    requires InRange(todo, t.Length) && Distinct(todo) && Linked(t[..], table, todo, Null)
    modifies t
    ensures stop <==> |todo| <= gap
    ensures stop ==> forall s :: 0 <= s < t.Length ==> t[s] == old(t[s])
    ensures !stop ==>
      && m == Min(2 * gap, |todo|) && temp == LinkTo(table, todo, m)
      && Rearranged(run, todo[..m]) && run != [] && run[0] == todo[0] && EndsAt(end, table, run)
      && InRange(run, t.Length) && Linked(t[..], table, run, t[run[|run| - 1]].next)
      && Cells(t[..], run) == MergeRuns(cmp, old(Cells(t[..], todo[..m])), gap)
      && forall s :: 0 <= s < t.Length && s !in todo[..m] ==> t[s] == old(t[s])
  {
    hide Linked, Rearranged, MergeRuns, Distinct;
    stop, temp, end, m, run := false, Null, Null, 0, [];
    var end1, k := Walk(t, table, start1, gap, todo, 0);
    var start2 := t[end1.slot].next;
    if start2 == Null {
      stop := true;
      return;
    }
    var end2;
    end2, m := Walk(t, table, start2, gap, todo, gap);
    m := m + 1;
    temp := t[end2.slot].next;
    RunFacts(t[..], table, todo, m);
    end, run := Merge(t, table, cmp, start1, end1, start2, end2, todo[..m], gap);
    RunSize(run, todo[..m]);
  }

  lemma PartwayStart(bs: seq<Bucket>, table: nat, cmp: Compare, gap: nat, ids: seq<nat>)
    requires InRange(ids, |bs|) && Distinct(ids) && Linked(bs, table, ids, Null) && gap > 0
    ensures Partway(bs, table, cmp, gap, ids, [], ids, Pass(cmp, gap, Cells(bs, ids)))
  {
    hide Pass, Linked;
    assert [] + ids == ids;
    assert Cells(bs, []) == [];
  }

  /** The first iteration is recognised by its start node; nodes of both parts belong to the chain. */
  lemma PartwayFacts(
    bs: seq<Bucket>, table: nat, cmp: Compare, gap: nat, ids: seq<nat>, done: seq<nat>, todo: seq<nat>, goal: seq<Cell>
  )
    requires gap > 0 && ids != [] && Partway(bs, table, cmp, gap, ids, done, todo, goal)
    ensures todo != [] ==> (todo[0] == ids[0] <==> done == [])
    ensures forall s :: s in done || s in todo ==> s in ids
    ensures Rearranged(done + todo, ids) && Linked(bs, table, todo, Null)
    ensures Distinct(todo) && (done == [] ==> |todo| == |ids|)
  {
    Apart(done, todo);
    forall s | s in done || s in todo ensures s in ids {
      assert s in done + todo;
    }
    if todo != [] && done != [] {
      assert done[0] in done && todo[0] in todo;
    }
  }

  lemma RunFacts(bs: seq<Bucket>, table: nat, todo: seq<nat>, m: nat)
    requires InRange(todo, |bs|) && 0 < m <= |todo| && Distinct(todo) && Linked(bs, table, todo, Null)
    ensures InRange(todo[..m], |bs|) && Distinct(todo[..m])
    ensures Linked(bs, table, todo[..m], LinkTo(table, todo, m)) && bs[todo[m - 1]].next == LinkTo(table, todo, m)
    ensures m < |todo| ==> todo[m] !in todo[..m]
    ensures forall s :: s in todo[..m] ==> s in todo
  {
    LinkedSplit(bs, table, todo, m, Null);
  }

  ghost predicate EndsAt(link: Link, table: nat, ids: seq<nat>) {
    ids != [] ==> link == At(table, ids[|ids| - 1])
  }

  lemma EndsAtConcat(link: Link, table: nat, a: seq<nat>, b: seq<nat>)
    requires b != [] && EndsAt(link, table, b)
    ensures EndsAt(link, table, a + b)
  {
  }

  lemma RunSize(run: seq<nat>, ids: seq<nat>)
    requires Rearranged(run, ids)
    ensures |run| == |ids|
  {
  }

  /** Bottom-up merge sort of the chain that starts at `head` and has `len` nodes. */
  method MergeSort(t: array<Bucket>, table: nat, cmp: Compare, head: Link, len: nat, ghost ids: seq<nat>)
    returns (head': Link, ghost ids': seq<nat>)
    requires InRange(ids, t.Length) && Distinct(ids) && Linked(t[..], table, ids, Null)
    requires head == LinkTo(table, ids, 0) && len == |ids|
    modifies t
    ensures Rearranged(ids', ids) && head' == LinkTo(table, ids', 0)
    ensures InRange(ids', t.Length) && Linked(t[..], table, ids', Null)
    ensures Cells(t[..], ids') == Passes(cmp, 1, old(Cells(t[..], ids)))
    ensures multiset(Cells(t[..], ids')) == multiset(old(Cells(t[..], ids)))
    ensures forall s :: 0 <= s < t.Length && s !in ids ==> t[s] == old(t[s])
  {
    head', ids' := head, ids;
    PassesPermute(cmp, 1, Cells(t[..], ids));
    if head == Null {
      return;
    }
    var gap := 1;
    while gap < len
      invariant gap > 0 && Rearranged(ids', ids) && head' == At(table, ids'[0])
      invariant InRange(ids', t.Length) && Linked(t[..], table, ids', Null)
      invariant Passes(cmp, gap, Cells(t[..], ids')) == Passes(cmp, 1, old(Cells(t[..], ids)))
      invariant forall s :: 0 <= s < t.Length && s !in ids ==> t[s] == old(t[s])
      decreases len - gap
    {
      head', ids' := MergePass(t, table, cmp, gap, head', ids');
      gap := gap * 2;
    }
  }
}
