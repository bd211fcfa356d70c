/** When the merge sort on the chain sorts: its exact condition, and the guard under which no exchange ever fires. */
module ListSortOrder {
  import opened Basics
  import opened Buckets
  import opened ListSort
  import opened ListQuickSort

  /**
   The comparator orders the given cells, which need only include those of the list: "not less" is a total preorder
   on them, and both argument orders give the same verdict.
   */
  ghost predicate Ordering(cmp: Compare, dom: set<Cell>) {
    && TotalPreorder(cmp, dom)
    && forall a, b :: a in dom && b in dom ==> (Less(cmp, a, b) <==> cmp(b.key, a.key) > 0)
  }

  ghost predicate AtMost(cmp: Compare, a: Cell, b: Cell) { !Less(cmp, b, a) }

  // ----- One merge

  /** The interleaving loop yields a sorted run exactly from two sorted runs whose heads are in order. */
  lemma {:induction false} InterleaveSortedExactly(cmp: Compare, dom: set<Cell>, a: seq<Cell>, b: seq<Cell>)
    requires Ordering(cmp, dom) && Within(a, dom) && Within(b, dom) && a != []
    ensures Interleave(cmp, a, b)[0] == a[0]
    ensures Sorted(cmp, Interleave(cmp, a, b)) <==>
            Sorted(cmp, a) && Sorted(cmp, b) && (b != [] ==> AtMost(cmp, a[0], b[0]))
    decreases |a| + |b|
  {
    hide Sorted, Less, Ordering;
    if |a| == 1 {
      SortedCons(cmp, dom, a[0], b);
      SortedSingle(cmp, a);
      assert a + b == [a[0]] + b;
    } else if b == [] {
      SortedSingle(cmp, b);
    } else {
      SortedCons(cmp, dom, a[0], a[1..]);
      SortedCons(cmp, dom, b[0], b[1..]);
      assert a == [a[0]] + a[1..] && b == [b[0]] + b[1..];
      if cmp(a[1].key, b[0].key) > 0 {
        var c := [b[0]] + a[1..];
        InterleaveSortedExactly(cmp, dom, c, b[1..]);
        InterleaveWithin(cmp, dom, c, b[1..]);
        SortedCons(cmp, dom, b[0], a[1..]);
        SortedCons(cmp, dom, a[0], Interleave(cmp, c, b[1..]));
        LessAtMost(cmp, dom, b[0], a[1]);
        AtMostTransitive(cmp, dom, a[0], b[0], a[1]);
      } else {
        InterleaveSortedExactly(cmp, dom, a[1..], b);
        InterleaveWithin(cmp, dom, a[1..], b);
        SortedCons(cmp, dom, a[0], Interleave(cmp, a[1..], b));
        AtMostTransitive(cmp, dom, a[0], a[1], b[0]);
        NotGreater(cmp, dom, a[1], b[0]);
      }
    }
  }

  lemma InterleaveWithin(cmp: Compare, dom: set<Cell>, a: seq<Cell>, b: seq<Cell>)
    requires a != [] && Within(a, dom) && Within(b, dom)
    ensures Within(Interleave(cmp, a, b), dom)
  {
    hide Interleave;
    InterleavePermutes(cmp, a, b);
    ConcatCounts(a, b);
    WithinPermuted(Interleave(cmp, a, b), a + b, dom);
  }

  lemma AtMostTransitive(cmp: Compare, dom: set<Cell>, a: Cell, b: Cell, c: Cell)
    requires Ordering(cmp, dom) && a in dom && b in dom && c in dom
    ensures AtMost(cmp, a, b) && AtMost(cmp, b, c) ==> AtMost(cmp, a, c)
  {
    hide Less;
  }

  lemma LessAtMost(cmp: Compare, dom: set<Cell>, a: Cell, b: Cell)
    requires Ordering(cmp, dom) && a in dom && b in dom && cmp(b.key, a.key) > 0
    ensures AtMost(cmp, a, b) && !AtMost(cmp, b, a)
  {
    hide Less;
    assert Less(cmp, a, b);
  }

  lemma NotGreater(cmp: Compare, dom: set<Cell>, a: Cell, b: Cell)
    requires Ordering(cmp, dom) && a in dom && b in dom
    ensures cmp(a.key, b.key) <= 0 <==> AtMost(cmp, a, b)
  {
    hide Less;
    assert Less(cmp, b, a) <==> cmp(a.key, b.key) > 0;
  }

  lemma SortedSingle(cmp: Compare, s: seq<Cell>)
    requires |s| <= 1
    ensures Sorted(cmp, s)
  {
  }

  lemma SortedCons(cmp: Compare, dom: set<Cell>, x: Cell, s: seq<Cell>)
    requires Ordering(cmp, dom) && x in dom && Within(s, dom)
    ensures Sorted(cmp, [x] + s) <==> Sorted(cmp, s) && (s != [] ==> AtMost(cmp, x, s[0]))
  {
    hide Sorted;
    if Sorted(cmp, [x] + s) { SortedTail(cmp, x, s); }
    if Sorted(cmp, s) && (s != [] ==> AtMost(cmp, x, s[0])) { SortedFront(cmp, dom, x, s); }
  }

  lemma SortedTail(cmp: Compare, x: Cell, s: seq<Cell>)
    requires Sorted(cmp, [x] + s)
    ensures Sorted(cmp, s) && (s != [] ==> AtMost(cmp, x, s[0]))
  {
    hide Less;
    var r := [x] + s;
    assert forall i :: 0 <= i < |s| ==> s[i] == r[i + 1];
    if s != [] { assert r[0] == x && r[1] == s[0]; }
  }

  lemma SortedFront(cmp: Compare, dom: set<Cell>, x: Cell, s: seq<Cell>)
    requires Ordering(cmp, dom) && x in dom && Within(s, dom) && Sorted(cmp, s) && (s != [] ==> AtMost(cmp, x, s[0]))
    ensures Sorted(cmp, [x] + s)
  {
    hide Less;
    var r := [x] + s;
    forall i, j | 0 <= i < j < |r| ensures AtMost(cmp, r[i], r[j]) {
      if i == 0 && j > 1 { AtMostTransitive(cmp, dom, x, s[0], s[j - 1]); }
    }
  }

  /**
   What a merge needs of its two runs: heads in order and both sorted, or heads out of order and both sorted once the
   heads and the ends have been exchanged. The exchange leaves heads in order unless a run of one cell undoes it.
   */
  ghost predicate Mergeable(cmp: Compare, left: seq<Cell>, right: seq<Cell>)
    requires left != [] && right != []
  {
    if AtMost(cmp, left[0], right[0]) then Sorted(cmp, left) && Sorted(cmp, right)
    else
      var l, r := left[0 := right[0]], right[0 := left[0]];
      var l', r' := l[|l| - 1 := r[|r| - 1]], r[|r| - 1 := l[|l| - 1]];
      Sorted(cmp, l') && Sorted(cmp, r') && AtMost(cmp, l'[0], r'[0])
  }

  lemma MergeSortedExactly(cmp: Compare, dom: set<Cell>, left: seq<Cell>, right: seq<Cell>)
    requires Ordering(cmp, dom) && Within(left, dom) && Within(right, dom) && left != [] && right != []
    ensures Sorted(cmp, MergeRuns(cmp, left + right, |left|)) <==> Mergeable(cmp, left, right)
  {
    hide Sorted, Interleave, Ordering, Less;
    var s, k := left + right, |left|;
    var p := Prepare(cmp, s, k);
    PreparePermutes(cmp, s, k);
    WithinPermuted(p, s, dom);
    InterleaveSortedExactly(cmp, dom, p[..k], p[k..]);
    NotGreater(cmp, dom, left[0], right[0]);
    assert s[..k] == left && s[k..] == right;
    if !AtMost(cmp, left[0], right[0]) {
      var l, r := left[0 := right[0]], right[0 := left[0]];
      var l', r' := l[|l| - 1 := r[|r| - 1]], r[|r| - 1 := l[|l| - 1]];
      assert SwapAt(s, 0, k) == l + r;
      assert p == l' + r';
      assert p[..k] == l' && p[k..] == r';
    }
  }

  // ----- All passes are one merge of two halves sorted the same way

  /** The last gap: the largest power of two below n. */
  ghost function LastLevel(n: nat, j: nat): (top: nat)
    requires Pow2(j) < n
    ensures j <= top && Pow2(top) < n <= 2 * Pow2(top)
    decreases n - j
  {
    if n <= 2 * Pow2(j) then j else LastLevel(n, j + 1)
  }

  ghost function LastGap(n: nat): (g: nat)
    requires n >= 2
    ensures 0 < g < n <= 2 * g
  {
    Pow2(LastLevel(n, 0))
  }

  /** A pass treats the parts before and behind q pairs of runs separately. */
  lemma {:induction false} PassSplits(cmp: Compare, gap: nat, s: seq<Cell>, q: nat, n: nat)
    requires gap > 0 && n == q * (2 * gap) && n <= |s|
    ensures Pass(cmp, gap, s) == Pass(cmp, gap, s[..n]) + Pass(cmp, gap, s[n..])
    decreases q
  {
    hide MergeRuns, Pass;
    if q == 0 {
      assert s[..n] == [] && s[n..] == s;
      ShortPass(cmp, gap, []);
    } else {
      var two, rest := 2 * gap, (q - 1) * (2 * gap);
      assert n == two + rest;
      PassUnfold(cmp, gap, s);
      PassUnfold(cmp, gap, s[..n]);
      PassSplits(cmp, gap, s[two..], q - 1, rest);
      NestedSlices(s, two, rest);
    }
  }

  lemma NestedSlices(s: seq<Cell>, a: nat, b: nat)
    requires a + b <= |s|
    ensures s[..a + b][..a] == s[..a] && s[..a + b][a..] == s[a..][..b] && s[a..][b..] == s[a + b..]
  {
  }

  lemma PassUnfold(cmp: Compare, gap: nat, s: seq<Cell>)
    requires gap > 0 && |s| >= 2 * gap
    ensures Pass(cmp, gap, s) == MergeRuns(cmp, s[..2 * gap], gap) + Pass(cmp, gap, s[2 * gap..])
  {
    hide MergeRuns;
  }

  lemma {:induction false} PassesSplit(cmp: Compare, j: nat, top: nat, s: seq<Cell>)
    requires j <= top && Pow2(top) < |s| <= 2 * Pow2(top)
    ensures Passes(cmp, Pow2(j), s)
         == MergeRuns(cmp, Passes(cmp, Pow2(j), s[..Pow2(top)]) + Passes(cmp, Pow2(j), s[Pow2(top)..]), Pow2(top))
    decreases top - j
  {
    hide MergeRuns, Pass, Passes;
    var gap, g := Pow2(j), Pow2(top);
    if j == top {
      PassesUnfold(cmp, gap, s[..g]);
      PassesUnfold(cmp, gap, s[g..]);
      LastPass(cmp, gap, s);
      assert s == s[..g] + s[g..];
    } else {
      PowersClimb(j, top);
      var q := PowerDivides(j, top);
      PassSplits(cmp, gap, s, q, g);
      var t := Pass(cmp, gap, s);
      assert t[..g] == Pass(cmp, gap, s[..g]) && t[g..] == Pass(cmp, gap, s[g..]);
      PassesSplit(cmp, j + 1, top, t);
      PowersClimb(j + 1, top);
      PassesStep(cmp, gap, s);
      PassesStep(cmp, gap, s[..g]);
      PassesStep(cmp, gap, s[g..]);
    }
  }

  /** A pass that finds one run only changes nothing. */
  lemma PassesStep(cmp: Compare, gap: nat, s: seq<Cell>)
    requires gap > 0
    ensures Passes(cmp, gap, s) == Passes(cmp, 2 * gap, Pass(cmp, gap, s))
  {
    hide Pass;
    if |s| <= gap { ShortPass(cmp, gap, s); }
  }

  lemma PassesUnfold(cmp: Compare, gap: nat, s: seq<Cell>)
    requires gap > 0
    ensures Passes(cmp, gap, s) == if gap < |s| then Passes(cmp, 2 * gap, Pass(cmp, gap, s)) else s
  {
    hide Pass;
  }

  lemma ShortPass(cmp: Compare, gap: nat, s: seq<Cell>)
    requires gap > 0 && |s| <= gap
    ensures Pass(cmp, gap, s) == s
  {
  }

  lemma LastPass(cmp: Compare, gap: nat, s: seq<Cell>)
    requires 0 < gap < |s| <= 2 * gap
    ensures Passes(cmp, gap, s) == MergeRuns(cmp, s, gap)
  {
    hide MergeRuns;
    assert s[..|s|] == s;
  }

  lemma {:induction false} PowersClimb(j: nat, top: nat)
    requires j <= top
    ensures Pow2(j) <= Pow2(top)
    decreases top
  {
    if j < top { PowersClimb(j, top - 1); }
  }

  /** Two runs of a smaller gap divide a larger gap. */
  lemma {:induction false} PowerDivides(j: nat, top: nat) returns (q: nat)
    requires j < top
    ensures Pow2(top) == q * (2 * Pow2(j))
    decreases top
  {
    if j == top - 1 {
      q := 1;
    } else {
      var h := PowerDivides(j, top - 1);
      q := 2 * h;
      assert 2 * (h * (2 * Pow2(j))) == (2 * h) * (2 * Pow2(j));
    }
  }

  /** The sort of a list is one merge of the sorts of its first 2^j cells, 2^j the last gap, and of the others. */
  lemma SortIsMergeOfHalves(cmp: Compare, s: seq<Cell>)
    requires |s| >= 2
    ensures var g := LastGap(|s|);
            Passes(cmp, 1, s) == MergeRuns(cmp, Passes(cmp, 1, s[..g]) + Passes(cmp, 1, s[g..]), g)
  {
    hide MergeRuns, Passes;
    PassesSplit(cmp, 0, LastLevel(|s|, 0), s);
  }

  lemma PassesWithin(cmp: Compare, dom: set<Cell>, s: seq<Cell>)
    requires Within(s, dom)
    ensures Within(Passes(cmp, 1, s), dom)
  {
    hide Passes;
    PassesPermute(cmp, 1, s);
    WithinPermuted(Passes(cmp, 1, s), s, dom);
  }

  /** A list comes out sorted exactly if what the sort makes of its two parts is mergeable. */
  lemma SortedExactly(cmp: Compare, dom: set<Cell>, s: seq<Cell>)
    requires Ordering(cmp, dom) && Within(s, dom) && |s| >= 2
    ensures var g := LastGap(|s|);
            Sorted(cmp, Passes(cmp, 1, s)) <==> Mergeable(cmp, Passes(cmp, 1, s[..g]), Passes(cmp, 1, s[g..]))
  {
    hide MergeRuns, Passes, Mergeable, Sorted, Ordering;
    var g := LastGap(|s|);
    PassesWithin(cmp, dom, s[..g]);
    PassesWithin(cmp, dom, s[g..]);
    SortIsMergeOfHalves(cmp, s);
    MergeSortedExactly(cmp, dom, Passes(cmp, 1, s[..g]), Passes(cmp, 1, s[g..]));
  }

  // ----- The guard on the input

  /** At every gap, the first cells of two neighbouring runs are in order, so no merge exchanges anything. */
  ghost predicate NoExchange(cmp: Compare, s: seq<Cell>) {
    forall j: nat, q: nat :: RunStart(j, q) + Pow2(j) < |s| ==>
      AtMost(cmp, s[RunStart(j, q)], s[RunStart(j, q) + Pow2(j)])
  }

  /** Where the q-th pair of runs of 2^j cells starts. */
  ghost function RunStart(j: nat, q: nat): nat { q * (2 * Pow2(j)) }

  lemma NoExchangeLeft(cmp: Compare, s: seq<Cell>, g: nat)
    requires NoExchange(cmp, s) && g <= |s|
    ensures NoExchange(cmp, s[..g])
  {
    hide RunStart, AtMost;
  }

  lemma NoExchangeRight(cmp: Compare, s: seq<Cell>, top: nat)
    requires NoExchange(cmp, s) && Pow2(top) < |s| <= 2 * Pow2(top)
    ensures NoExchange(cmp, s[Pow2(top)..])
  {
    hide AtMost, RunStart;
    var g := Pow2(top);
    var r := s[g..];
    forall j: nat, q: nat | RunStart(j, q) + Pow2(j) < |r|
      ensures AtMost(cmp, r[RunStart(j, q)], r[RunStart(j, q) + Pow2(j)])
    {
      if top <= j {
        PowersClimb(top, j);
        assert false;
      }
      var h := PowerDivides(j, top);
      RunStartShift(j, h, q);
      assert AtMost(cmp, s[RunStart(j, h + q)], s[RunStart(j, h + q) + Pow2(j)]);
    }
  }

  lemma RunStartShift(j: nat, h: nat, q: nat)
    ensures RunStart(j, h + q) == h * (2 * Pow2(j)) + RunStart(j, q)
  {
    assert (h + q) * (2 * Pow2(j)) == h * (2 * Pow2(j)) + q * (2 * Pow2(j));
  }

  /** Under the guard the sort sorts, and the first cell stays in place. */
  lemma {:induction false} SortsUnderGuard(cmp: Compare, dom: set<Cell>, s: seq<Cell>)
    requires Ordering(cmp, dom) && Within(s, dom) && NoExchange(cmp, s)
    ensures Sorted(cmp, Passes(cmp, 1, s)) && (s != [] ==> Passes(cmp, 1, s)[0] == s[0])
    decreases |s|
  {
    hide NoExchange, Sorted, Pass, MergeRuns, Less, Ordering;
    if |s| <= 1 {
      SortedSingle(cmp, s);
    } else {
      var top := LastLevel(|s|, 0);
      var g := Pow2(top);
      NoExchangeLeft(cmp, s, g);
      NoExchangeRight(cmp, s, top);
      SortsUnderGuard(cmp, dom, s[..g]);
      SortsUnderGuard(cmp, dom, s[g..]);
      FirstPair(cmp, s, top);
      var left, right := Passes(cmp, 1, s[..g]), Passes(cmp, 1, s[g..]);
      PassesWithin(cmp, dom, s[..g]);
      PassesWithin(cmp, dom, s[g..]);
      SortIsMergeOfHalves(cmp, s);
      MergeSortedExactly(cmp, dom, left, right);
      NotGreater(cmp, dom, left[0], right[0]);
      MergeKeepsHead(cmp, left, right);
    }
  }

  lemma FirstPair(cmp: Compare, s: seq<Cell>, j: nat)
    requires NoExchange(cmp, s) && Pow2(j) < |s|
    ensures AtMost(cmp, s[0], s[Pow2(j)])
  {
    assert RunStart(j, 0) == 0;
  }

  lemma MergeKeepsHead(cmp: Compare, left: seq<Cell>, right: seq<Cell>)
    requires left != [] && right != [] && cmp(left[0].key, right[0].key) <= 0
    ensures MergeRuns(cmp, left + right, |left|)[0] == left[0]
  {
    var s := left + right;
    assert s[..|left|] == left && s[|left|..] == right;
  }

  // ----- Short lists: the exact condition on the input

  lemma PairSortedExactly(cmp: Compare, s: seq<Cell>)
    requires |s| == 2
    ensures Sorted(cmp, Passes(cmp, 1, s)) <==> AtMost(cmp, s[0], s[1])
  {
    PairStaysUnsorted(cmp, s);
  }

  lemma ThreeSortedExactly(cmp: Compare, dom: set<Cell>, s: seq<Cell>)
    requires Ordering(cmp, dom) && Within(s, dom) && |s| == 3
    ensures Sorted(cmp, Passes(cmp, 1, s)) <==> AtMost(cmp, s[0], s[1]) || AtMost(cmp, s[2], s[1])
  {
    hide Passes, Less, Mergeable, Ordering, Sorted;
    assert LastGap(3) == 2 by { assert Pow2(1) == 2; }
    PairStaysUnsorted(cmp, s[..2]);
    PairStaysUnsorted(cmp, s[2..]);
    SortedExactly(cmp, dom, s);
    MergeableTwoOne(cmp, dom, s[..2], s[2..]);
  }

  lemma MergeableTwoOne(cmp: Compare, dom: set<Cell>, left: seq<Cell>, right: seq<Cell>)
    requires Ordering(cmp, dom) && Within(left, dom) && Within(right, dom) && |left| == 2 && |right| == 1
    ensures Mergeable(cmp, left, right) <==> AtMost(cmp, left[0], left[1]) || AtMost(cmp, right[0], left[1])
  {
    hide Less, Ordering, AtMost, Sorted;
    var a, b, c := left[0], left[1], right[0];
    LessAtMostEither(cmp, dom, a, c);
    AtMostTransitive(cmp, dom, a, c, b);
    AtMostTransitive(cmp, dom, c, a, b);
    SortedTwo(cmp, left);
    SortedSingle(cmp, right);
    var l, r := left[0 := c], right[0 := a];
    var l', r' := l[1 := r[0]], r[0 := l[1]];
    SortedTwo(cmp, l');
    SortedSingle(cmp, r');
  }

  lemma SortedTwo(cmp: Compare, s: seq<Cell>)
    requires |s| == 2
    ensures Sorted(cmp, s) <==> AtMost(cmp, s[0], s[1])
  {
    hide Less;
  }

  lemma LessAtMostEither(cmp: Compare, dom: set<Cell>, a: Cell, b: Cell)
    requires Ordering(cmp, dom) && a in dom && b in dom
    ensures AtMost(cmp, a, b) || AtMost(cmp, b, a)
  {
    hide Less;
  }

  /** Two merged pairs: exchanging heads and ends is exchanging the pairs. */
  lemma FourSortedExactly(cmp: Compare, dom: set<Cell>, s: seq<Cell>)
    requires Ordering(cmp, dom) && Within(s, dom) && |s| == 4
    ensures Sorted(cmp, Passes(cmp, 1, s)) <==> AtMost(cmp, s[0], s[1]) && AtMost(cmp, s[2], s[3])
  {
    hide Passes, Less, Mergeable, Ordering, Sorted;
    assert LastGap(4) == 2 by { assert Pow2(1) == 2; }
    PairStaysUnsorted(cmp, s[..2]);
    PairStaysUnsorted(cmp, s[2..]);
    SortedExactly(cmp, dom, s);
    MergeableTwoTwo(cmp, dom, s[..2], s[2..]);
  }

  lemma MergeableTwoTwo(cmp: Compare, dom: set<Cell>, left: seq<Cell>, right: seq<Cell>)
    requires Ordering(cmp, dom) && Within(left, dom) && Within(right, dom) && |left| == 2 && |right| == 2
    ensures Mergeable(cmp, left, right) <==> AtMost(cmp, left[0], left[1]) && AtMost(cmp, right[0], right[1])
  {
    hide Less, Ordering, AtMost, Sorted;
    LessAtMostEither(cmp, dom, left[0], right[0]);
    SortedTwo(cmp, left);
    SortedTwo(cmp, right);
    var l, r := left[0 := right[0]], right[0 := left[0]];
    assert l[1 := r[1]] == right && r[1 := l[1]] == left;
  }

  /** Every comparator: what becomes of three cells. */
  lemma ThreeComeOut(cmp: Compare, s: seq<Cell>)
    requires |s| == 3
    ensures Passes(cmp, 1, s)
         == if cmp(s[0].key, s[2].key) > 0 then
              if cmp(s[0].key, s[1].key) > 0 then [s[2], s[1], s[0]] else [s[2], s[0], s[1]]
            else if cmp(s[1].key, s[2].key) > 0 then [s[0], s[2], s[1]] else s
  {
    hide Passes, Pass, Interleave, MergeRuns;
    FirstPassIsIdle(cmp, s);
    PassesUnfold(cmp, 1, s);
    LastPass(cmp, 2, s);
    MergeTwoOne(cmp, s);
  }

  lemma MergeTwoOne(cmp: Compare, s: seq<Cell>)
    requires |s| == 3
    ensures MergeRuns(cmp, s, 2)
         == if cmp(s[0].key, s[2].key) > 0 then
              if cmp(s[0].key, s[1].key) > 0 then [s[2], s[1], s[0]] else [s[2], s[0], s[1]]
            else if cmp(s[1].key, s[2].key) > 0 then [s[0], s[2], s[1]] else s
  {
    hide Interleave;
    var p := Prepare(cmp, s, 2);
    assert p == if cmp(s[0].key, s[2].key) > 0 then [s[2], s[0], s[1]] else s;
    assert p[..2] == [p[0], p[1]] && p[2..] == [p[2]];
    InterleaveTwoOne(cmp, p[0], p[1], p[2]);
  }

  lemma InterleaveTwoOne(cmp: Compare, x: Cell, y: Cell, z: Cell)
    ensures Interleave(cmp, [x, y], [z]) == if cmp(y.key, z.key) > 0 then [x, z, y] else [x, y, z]
  {
    assert [x, y][1..] == [y] && [z][1..] == [];
    assert Interleave(cmp, [y], [z]) == [y, z];
    assert Interleave(cmp, [z] + [y], []) == [z, y];
  }

  // ----- A sorted list stays as it is

  lemma {:induction false} InterleaveInOrder(cmp: Compare, dom: set<Cell>, a: seq<Cell>, b: seq<Cell>)
    requires Ordering(cmp, dom) && Within(a, dom) && Within(b, dom) && a != [] && Sorted(cmp, a + b)
    ensures Interleave(cmp, a, b) == a + b
    decreases |a|
  {
    hide Less, Ordering;
    if |a| > 1 && b != [] {
      var r := a + b;
      assert r[1] == a[1] && r[|a|] == b[0];
      NotGreater(cmp, dom, a[1], b[0]);
      assert r == [a[0]] + (a[1..] + b);
      SortedTail(cmp, a[0], a[1..] + b);
      InterleaveInOrder(cmp, dom, a[1..], b);
    }
  }

  lemma MergeInOrder(cmp: Compare, dom: set<Cell>, s: seq<Cell>, k: nat)
    requires Ordering(cmp, dom) && Within(s, dom) && Sorted(cmp, s) && 0 < k < |s|
    ensures MergeRuns(cmp, s, k) == s
  {
    hide Less, Ordering, Interleave;
    NotGreater(cmp, dom, s[0], s[k]);
    assert s == s[..k] + s[k..];
    InterleaveInOrder(cmp, dom, s[..k], s[k..]);
  }

  lemma {:induction false} SortedStays(cmp: Compare, dom: set<Cell>, s: seq<Cell>)
    requires Ordering(cmp, dom) && Within(s, dom) && Sorted(cmp, s)
    ensures Passes(cmp, 1, s) == s
    decreases |s|
  {
    hide Less, Ordering, MergeRuns, Pass;
    if |s| >= 2 {
      var g := LastGap(|s|);
      SortedStays(cmp, dom, s[..g]);
      SortedStays(cmp, dom, s[g..]);
      SortIsMergeOfHalves(cmp, s);
      assert s == s[..g] + s[g..];
      MergeInOrder(cmp, dom, s, g);
    }
  }
}
