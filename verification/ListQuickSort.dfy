/** The list quicksort: it swaps contents between the nodes of a chain segment and leaves all links alone. */
module ListQuickSort {
  import opened Basics
  import opened Buckets
  import opened ListSort

  predicate Less(cmp: Compare, a: Cell, b: Cell) { cmp(a.key, b.key) < 0 }

  /** On the given cells, "not less" is total and transitive. */
  ghost predicate TotalPreorder(cmp: Compare, dom: set<Cell>) {
    && (forall a, b :: a in dom && b in dom ==> !(Less(cmp, a, b) && Less(cmp, b, a)))
    && (forall a, b, c :: a in dom && b in dom && c in dom && !Less(cmp, b, a) && !Less(cmp, c, b) ==> !Less(cmp, c, a))
  }

  /** The list consists of the given cells. */
  ghost predicate Within(s: seq<Cell>, dom: set<Cell>) {
    forall i :: 0 <= i < |s| ==> s[i] in dom
  }

  lemma WithinPermuted(a: seq<Cell>, b: seq<Cell>, dom: set<Cell>)
    requires Within(b, dom) && multiset(a) == multiset(b)
    ensures Within(a, dom)
  {
    forall i | 0 <= i < |a| ensures a[i] in dom {
      var k := PermutedElement(a, b, i);
    }
  }

  ghost predicate Sorted(cmp: Compare, s: seq<Cell>) {
    forall i, j :: 0 <= i < j < |s| ==> !Less(cmp, s[j], s[i])
  }

  /** s[0] is the pivot; s[1..m + 1] are less than it, s[m + 1..q] are not. */
  ghost predicate Split(cmp: Compare, s: seq<Cell>, m: nat, q: nat) {
    && m < q <= |s|
    && (forall i :: 1 <= i <= m ==> Less(cmp, s[i], s[0]))
    && (forall i :: m < i < q ==> !Less(cmp, s[i], s[0]))
  }

  lemma SplitStep(cmp: Compare, s: seq<Cell>, m: nat, q: nat)
    requires Split(cmp, s, m, q) && q < |s|
    ensures Less(cmp, s[q], s[0]) ==> Split(cmp, SwapAt(s, m + 1, q), m + 1, q + 1)
    ensures !Less(cmp, s[q], s[0]) ==> Split(cmp, s, m, q + 1)
  {
  }

  /** The pivot in its place: smaller cells before it, the others behind. */
  ghost predicate Around(cmp: Compare, s: seq<Cell>, m: nat) {
    && m < |s|
    && (forall i :: 0 <= i < m ==> Less(cmp, s[i], s[m]))
    && (forall i :: m < i < |s| ==> !Less(cmp, s[i], s[m]))
  }

  lemma SplitEnd(cmp: Compare, s: seq<Cell>, m: nat)
    requires Split(cmp, s, m, |s|)
    ensures Around(cmp, SwapAt(s, 0, m), m)
  {
  }

  /** Sorting both sides of the pivot sorts the whole. */
  lemma JoinSorted(cmp: Compare, dom: set<Cell>, s: seq<Cell>, m: nat, left: seq<Cell>, right: seq<Cell>)
    requires TotalPreorder(cmp, dom) && Within(s, dom) && Around(cmp, s, m)
    requires Sorted(cmp, left) && multiset(left) == multiset(s[..m])
    requires Sorted(cmp, right) && multiset(right) == multiset(s[m + 1..])
    ensures Sorted(cmp, left + [s[m]] + right)
    ensures multiset(left + [s[m]] + right) == multiset(s)
  {
    hide Less;
    var pivot, r := s[m], left + [s[m]] + right;
    WithinPermuted(left, s[..m], dom);
    WithinPermuted(right, s[m + 1..], dom);
    forall i | 0 <= i < |left| ensures Less(cmp, left[i], pivot) {
      var j := PermutedElement(left, s[..m], i);
    }
    forall i | 0 <= i < |right| ensures !Less(cmp, right[i], pivot) {
      var j := PermutedElement(right, s[m + 1..], i);
    }
    forall i, j | 0 <= i < j < |r| ensures !Less(cmp, r[j], r[i]) {
      var n := |left|;
      if j < n {
        assert r[i] == left[i] && r[j] == left[j];
      } else if i > n {
        assert r[i] == right[i - n - 1] && r[j] == right[j - n - 1];
      } else {
        assert i < n ==> !Less(cmp, pivot, r[i]);
        assert j > n ==> !Less(cmp, r[j], pivot);
      }
    }
    assert s == s[..m] + [pivot] + s[m + 1..];
  }

  ghost predicate SameLinks(bs: seq<Bucket>, bs': seq<Bucket>) {
    |bs| == |bs'| && forall i :: 0 <= i < |bs| ==> bs'[i].next == bs[i].next
  }

  /** Only contents of the segment's nodes have changed. */
  ghost predicate OnlyContents(bs: seq<Bucket>, bs': seq<Bucket>, ids: seq<nat>) {
    SameLinks(bs, bs') && forall s :: 0 <= s < |bs| && s !in ids ==> bs'[s] == bs[s]
  }

  lemma OnlyContentsTwice(a: seq<Bucket>, b: seq<Bucket>, c: seq<Bucket>, ids: seq<nat>)
    requires OnlyContents(a, b, ids) && OnlyContents(b, c, ids)
    ensures OnlyContents(a, c, ids)
  {
  }

  lemma ContentsLinked(bs: seq<Bucket>, bs': seq<Bucket>, table: nat, ids: seq<nat>, end: Link)
    requires InRange(ids, |bs|) && Linked(bs, table, ids, end) && OnlyContents(bs, bs', ids)
    ensures |bs'| == |bs| && Linked(bs', table, ids, end)
  {
    LinkedFrame(bs, bs', table, ids, end);
  }

  /** Lomuto partition around the first node; returns the pivot's final node. */
  method Partition(t: array<Bucket>, table: nat, cmp: Compare, head: Link, end: Link, ghost ids: seq<nat>)
    returns (small: Link, ghost m: nat)
    requires InRange(ids, t.Length) && Distinct(ids) && ids != [] && Linked(t[..], table, ids, end)
    requires head == At(table, ids[0]) && (end.At? ==> end.slot !in ids)
    modifies t
    ensures m < |ids| && small == At(table, ids[m]) && Around(cmp, Cells(t[..], ids), m)
    ensures multiset(Cells(t[..], ids)) == multiset(old(Cells(t[..], ids)))
    ensures OnlyContents(old(t[..]), t[..], ids)
  {
    hide Linked, Distinct, Split, Around, Cells, SwapAt, OnlyContents;
    ghost var bs, q := t[..], 1;
    NodeNext(bs, table, ids, 0, end);
    SplitStart(cmp, Cells(bs, ids));
    var p := t[head.slot].next;
    small, m := head, 0;
    NothingChanged(bs, ids);
    while p != end
      invariant m < q <= |ids| && p == NodeAt(table, ids, q, end) && small == At(table, ids[m])
      invariant Split(cmp, Cells(t[..], ids), m, q)
      invariant multiset(Cells(t[..], ids)) == multiset(Cells(bs, ids))
      invariant OnlyContents(bs, t[..], ids)
      decreases |ids| - q
    {
      ghost var was := t[..];
      ContentsLinked(bs, was, table, ids, end);
      small, m := PartitionStep(t, table, cmp, head, small, p, ids, m, q, end);
      OnlyContentsTwice(bs, was, t[..], ids);
      ContentsLinked(bs, t[..], table, ids, end);
      NodeNext(t[..], table, ids, q, end);
      p := t[p.slot].next;
      q := q + 1;
    }
    NodeEnd(table, ids, q, end);
    SplitEnd(cmp, Cells(t[..], ids), m);
    ghost var was := t[..];
    SwapNodes(t, head, small, ids, 0, m);
    OnlyContentsTwice(bs, was, t[..], ids);
  }

  lemma NothingChanged(bs: seq<Bucket>, ids: seq<nat>)
    ensures OnlyContents(bs, bs, ids)
  {
  }

  /** Classifies the q-th node: a smaller one joins the smaller nodes behind the pivot. */
  method PartitionStep(
    t: array<Bucket>, table: nat, cmp: Compare, head: Link, small: Link, p: Link, ghost ids: seq<nat>, ghost m: nat,
    ghost q: nat, ghost end: Link
  ) returns (small': Link, ghost m': nat)
    requires InRange(ids, t.Length) && Distinct(ids) && Linked(t[..], table, ids, end) && m < q < |ids|
    requires head == At(table, ids[0]) && small == At(table, ids[m]) && p == At(table, ids[q])
    requires Split(cmp, Cells(t[..], ids), m, q)
    modifies t
    ensures m' <= q && small' == At(table, ids[m']) && Split(cmp, Cells(t[..], ids), m', q + 1)
    ensures multiset(Cells(t[..], ids)) == multiset(old(Cells(t[..], ids)))
    ensures OnlyContents(old(t[..]), t[..], ids)
  {
    hide Linked, Distinct, Split, Swapped, SwapAt;
    small', m' := small, m;
    SplitStep(cmp, Cells(t[..], ids), m, q);
    if cmp(t[p.slot].cell.key, t[head.slot].cell.key) < 0 {
      NodeNext(t[..], table, ids, m, end);
      small', m' := t[small.slot].next, m + 1;
      SwapNodes(t, small', p, ids, m', q);
    }
  }

  /** The q-th node of the segment, or what follows it. */
  ghost function NodeAt(table: nat, ids: seq<nat>, q: nat, end: Link): Link {
    if q < |ids| then At(table, ids[q]) else end
  }

  lemma NodeNext(bs: seq<Bucket>, table: nat, ids: seq<nat>, q: nat, end: Link)
    requires InRange(ids, |bs|) && Linked(bs, table, ids, end)
    ensures q < |ids| ==> bs[ids[q]].next == NodeAt(table, ids, q + 1, end)
  {
  }

  lemma NodeEnd(table: nat, ids: seq<nat>, q: nat, end: Link)
    requires q <= |ids| && NodeAt(table, ids, q, end) == end && (end.At? ==> end.slot !in ids)
    ensures q == |ids|
  {
  }

  lemma SplitStart(cmp: Compare, s: seq<Cell>)
    requires s != []
    ensures Split(cmp, s, 0, 1)
  {
  }

  lemma SortedEmpty(cmp: Compare, s: seq<Cell>)
    requires s == []
    ensures Sorted(cmp, s)
  {
  }

  /** Swapping the contents of two nodes of the segment. */
  method SwapNodes(t: array<Bucket>, a: Link, b: Link, ghost ids: seq<nat>, ghost i: nat, ghost j: nat)
    requires InRange(ids, t.Length) && Distinct(ids) && i < |ids| && j < |ids|
    requires a.At? && b.At? && a.slot == ids[i] && b.slot == ids[j]
    modifies t
    ensures Cells(t[..], ids) == SwapAt(old(Cells(t[..], ids)), i, j)
    ensures multiset(Cells(t[..], ids)) == multiset(old(Cells(t[..], ids)))
    ensures OnlyContents(old(t[..]), t[..], ids)
  {
    SwappedAlong(t[..], ids, i, j);
    SwappedElsewhere(t[..], a.slot, b.slot);
    SwapPermutes(Cells(t[..], ids), i, j);
    SwapBucket(t, a.slot, b.slot);
  }

  /** Sorts the half-open segment from `head` up to `end`. */
  method QuickSort(
    t: array<Bucket>, table: nat, cmp: Compare, head: Link, end: Link, ghost ids: seq<nat>, ghost dom: set<Cell>
  )
    requires InRange(ids, t.Length) && Distinct(ids) && Linked(t[..], table, ids, end)
    requires TotalPreorder(cmp, dom) && Within(Cells(t[..], ids), dom)
    requires head == NodeAt(table, ids, 0, end) && (end.At? ==> end.slot !in ids)
    modifies t
    ensures Sorted(cmp, Cells(t[..], ids))
    ensures multiset(Cells(t[..], ids)) == multiset(old(Cells(t[..], ids)))
    ensures OnlyContents(old(t[..]), t[..], ids)
    decreases |ids|
  {
    hide Linked, Distinct, Around, TotalPreorder, Sorted, Cells, Within;
    ghost var bs := t[..];
    if head == Null || head == end {
      SegmentEmpty(table, ids, head, end);
      SortedEmpty(cmp, Cells(bs, ids));
      return;
    }
    var small, m := Partition(t, table, cmp, head, end, ids);
    ghost var middle := t[..];
    ghost var cells := Cells(middle, ids);
    SegmentParts(bs, middle, table, ids, m, end);
    WithinPermuted(cells, Cells(bs, ids), dom);
    WithinParts(middle, ids, m, dom);
    QuickSort(t, table, cmp, head, small, ids[..m], dom);
    ghost var left := t[..];
    RestFrame(middle, left, table, ids, m, end);
    CellsFrame(middle, left, ids[m + 1..]);
    QuickSort(t, table, cmp, t[small.slot].next, end, ids[m + 1..], dom);
    CombineParts(cmp, dom, middle, left, t[..], ids, m);
  }

  lemma SegmentEmpty(table: nat, ids: seq<nat>, head: Link, end: Link)
    requires head == NodeAt(table, ids, 0, end) && (end.At? ==> end.slot !in ids) && (head == Null || head == end)
    ensures ids == []
  {
  }

  /** The two parts around position m are segments of their own. */
  lemma SegmentParts(bs: seq<Bucket>, bs': seq<Bucket>, table: nat, ids: seq<nat>, m: nat, end: Link)
    requires InRange(ids, |bs|) && Distinct(ids) && Linked(bs, table, ids, end) && SameLinks(bs, bs') && m < |ids|
    requires end.At? ==> end.slot !in ids
    ensures InRange(ids[..m], |bs|) && Distinct(ids[..m]) && Linked(bs', table, ids[..m], At(table, ids[m]))
    ensures ids[m] !in ids[..m]
    ensures InRange(ids[m + 1..], |bs|) && Distinct(ids[m + 1..]) && Linked(bs', table, ids[m + 1..], end)
    ensures bs'[ids[m]].next == NodeAt(table, ids[m + 1..], 0, end) && (end.At? ==> end.slot !in ids[m + 1..])
    ensures forall s :: s in ids[..m] ==> s in ids && s !in ids[m + 1..] && s != ids[m]
    ensures forall s :: s in ids[m + 1..] ==> s in ids && s !in ids[..m] && s != ids[m]
  {
    hide Linked, Distinct;
    LinkedFrame(bs, bs', table, ids, end);
    LinkedSplit(bs', table, ids, m, end);
    LinkedSplit(bs', table, ids, m + 1, end);
    NodeNext(bs', table, ids, m, end);
    PartsApart(ids, m);
    PartsDistinct(ids, m);
  }

  lemma PartsDistinct(ids: seq<nat>, m: nat)
    requires Distinct(ids) && m < |ids|
    ensures Distinct(ids[..m]) && Distinct(ids[m + 1..])
    ensures forall s :: s in ids[..m] ==> s in ids
    ensures forall s :: s in ids[m + 1..] ==> s in ids
  {
  }

  lemma RestFrame(bs: seq<Bucket>, bs': seq<Bucket>, table: nat, ids: seq<nat>, m: nat, end: Link)
    requires m < |ids| && InRange(ids, |bs|) && SameLinks(bs, bs')
    requires Linked(bs, table, ids[m + 1..], end)
    ensures Linked(bs', table, ids[m + 1..], end)
  {
    LinkedFrame(bs, bs', table, ids[m + 1..], end);
  }

  lemma WithinParts(bs: seq<Bucket>, ids: seq<nat>, m: nat, dom: set<Cell>)
    requires InRange(ids, |bs|) && m < |ids| && Within(Cells(bs, ids), dom)
    ensures Within(Cells(bs, ids[..m]), dom) && Within(Cells(bs, ids[m + 1..]), dom)
  {
    hide Cells;
    CellsInParts(bs, ids, m);
  }

  lemma CombineParts(
    cmp: Compare, dom: set<Cell>, middle: seq<Bucket>, left: seq<Bucket>, right: seq<Bucket>, ids: seq<nat>, m: nat
  )
    requires InRange(ids, |middle|) && Distinct(ids) && m < |ids| && |middle| == |left| == |right|
    requires TotalPreorder(cmp, dom) && Within(Cells(middle, ids), dom)
    requires Around(cmp, Cells(middle, ids), m)
    requires Sorted(cmp, Cells(left, ids[..m])) && multiset(Cells(left, ids[..m])) == multiset(Cells(middle, ids[..m]))
    requires forall s :: 0 <= s < |left| && s !in ids[..m] ==> left[s] == middle[s]
    requires Sorted(cmp, Cells(right, ids[m + 1..]))
    requires multiset(Cells(right, ids[m + 1..])) == multiset(Cells(left, ids[m + 1..]))
    requires forall s :: 0 <= s < |right| && s !in ids[m + 1..] ==> right[s] == left[s]
    ensures Sorted(cmp, Cells(right, ids)) && multiset(Cells(right, ids)) == multiset(Cells(middle, ids))
  {
    hide TotalPreorder, Around, Sorted, Cells, Distinct, Within;
    var a, b, s := ids[..m], ids[m + 1..], Cells(middle, ids);
    PartsApart(ids, m);
    CellsFrame(left, right, a);
    CellsFrame(middle, left, b);
    CellsInParts(middle, ids, m);
    CellsInParts(right, ids, m);
    JoinSorted(cmp, dom, s, m, Cells(right, a), Cells(right, b));
    assert right[ids[m]] == middle[ids[m]];
  }

  lemma PartsApart(ids: seq<nat>, m: nat)
    requires Distinct(ids) && m < |ids|
    ensures ids[m] !in ids[..m] && ids[m] !in ids[m + 1..]
    ensures forall x :: x in ids[..m] ==> x !in ids[m + 1..]
  {
  }

  lemma CellsInParts(bs: seq<Bucket>, ids: seq<nat>, m: nat)
    requires InRange(ids, |bs|) && m < |ids|
    ensures Cells(bs, ids)[..m] == Cells(bs, ids[..m]) && Cells(bs, ids)[m] == bs[ids[m]].cell
    ensures Cells(bs, ids)[m + 1..] == Cells(bs, ids[m + 1..])
    ensures Cells(bs, ids) == Cells(bs, ids[..m]) + [bs[ids[m]].cell] + Cells(bs, ids[m + 1..])
  {
  }
}
