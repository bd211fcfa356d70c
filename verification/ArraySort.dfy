/** The recursive merge sort of a container by timestamp, in place with a temporary buffer. */
module ArraySort {
  import opened Basics
  import opened Traces

  // ----- What the sort computes

  ghost function Merged(trace: seq<TraceInfo>, x: seq<nat>, y: seq<nat>): (r: seq<nat>)
    requires InTrace(trace, x) && InTrace(trace, y)
    ensures |r| == |x| + |y| && InTrace(trace, r)
    decreases |x| + |y|
  {
    if x == [] then y
    else if y == [] then x
    else if trace[x[0]].ts <= trace[y[0]].ts then [x[0]] + Merged(trace, x[1..], y)
    else [y[0]] + Merged(trace, x, y[1..])
  }

  ghost function SortedByTs(trace: seq<TraceInfo>, s: seq<nat>): (r: seq<nat>)
    requires InTrace(trace, s)
    ensures |r| == |s| && InTrace(trace, r)
    decreases |s|
  {
    if |s| <= 1 then s
    else
      var k := (|s| + 1) / 2;
      Merged(trace, SortedByTs(trace, s[..k]), SortedByTs(trace, s[k..]))
  }

  // ----- The sort permutes

  lemma Cons(s: seq<nat>)
    requires s != []
    ensures multiset(s) == multiset{s[0]} + multiset(s[1..])
  {
    assert s == [s[0]] + s[1..];
  }

  lemma {:induction false} MergedPermutes(trace: seq<TraceInfo>, x: seq<nat>, y: seq<nat>)
    requires InTrace(trace, x) && InTrace(trace, y)
    ensures multiset(Merged(trace, x, y)) == multiset(x) + multiset(y)
    decreases |x| + |y|
  {
    if x != [] && y != [] {
      Cons(x);
      Cons(y);
      if trace[x[0]].ts <= trace[y[0]].ts {
        MergedPermutes(trace, x[1..], y);
      } else {
        MergedPermutes(trace, x, y[1..]);
      }
    }
  }

  lemma {:induction false} SortPermutes(trace: seq<TraceInfo>, s: seq<nat>)
    requires InTrace(trace, s)
    ensures multiset(SortedByTs(trace, s)) == multiset(s)
    decreases |s|
  {
    hide Merged;
    if |s| > 1 {
      var k := (|s| + 1) / 2;
      SortPermutes(trace, s[..k]);
      SortPermutes(trace, s[k..]);
      MergedPermutes(trace, SortedByTs(trace, s[..k]), SortedByTs(trace, s[k..]));
      assert s == s[..k] + s[k..];
    }
  }

  // ----- The sort is stable

  /** Sorted by time, and records of equal time are related in the order they occur. */
  ghost predicate Chronological(trace: seq<TraceInfo>, s: seq<nat>, related: (nat, nat) -> bool)
    requires InTrace(trace, s)
  {
    forall i, j :: 0 <= i < j < |s| ==> InOrder(trace, s[i], s[j], related)
  }

  ghost predicate InOrder(trace: seq<TraceInfo>, p: nat, q: nat, related: (nat, nat) -> bool)
    requires p < |trace| && q < |trace|
  {
    trace[p].ts < trace[q].ts || (trace[p].ts == trace[q].ts && related(p, q))
  }

  /** Equal timestamps occur only between related records, in this order. */
  ghost predicate TiesRelated(trace: seq<TraceInfo>, s: seq<nat>, related: (nat, nat) -> bool)
    requires InTrace(trace, s)
  {
    forall i, j :: 0 <= i < j < |s| && trace[s[i]].ts == trace[s[j]].ts ==> related(s[i], s[j])
  }

  ghost predicate CrossTies(trace: seq<TraceInfo>, x: seq<nat>, y: seq<nat>, related: (nat, nat) -> bool)
    requires InTrace(trace, x) && InTrace(trace, y)
  {
    forall i, j :: 0 <= i < |x| && 0 <= j < |y| && trace[x[i]].ts == trace[y[j]].ts ==> related(x[i], y[j])
  }

  lemma {:induction false} MergedElement(trace: seq<TraceInfo>, x: seq<nat>, y: seq<nat>, i: nat)
    requires InTrace(trace, x) && InTrace(trace, y) && i < |x| + |y|
    ensures Merged(trace, x, y)[i] in x || Merged(trace, x, y)[i] in y
    decreases |x| + |y|
  {
    if x != [] && y != [] && i > 0 {
      if trace[x[0]].ts <= trace[y[0]].ts {
        MergedElement(trace, x[1..], y, i - 1);
      } else {
        MergedElement(trace, x, y[1..], i - 1);
      }
    }
  }

  /** The head of a merge comes before everything else in it. */
  lemma HeadFirst(trace: seq<TraceInfo>, x: seq<nat>, y: seq<nat>, related: (nat, nat) -> bool, e: nat)
    requires x != [] && y != [] && InTrace(trace, x) && InTrace(trace, y)
    requires Chronological(trace, x, related) && Chronological(trace, y, related) && CrossTies(trace, x, y, related)
    ensures e < |trace| && trace[x[0]].ts <= trace[y[0]].ts && (e in x[1..] || e in y) ==>
      InOrder(trace, x[0], e, related)
    ensures e < |trace| && trace[y[0]].ts < trace[x[0]].ts && (e in x || e in y[1..]) ==>
      InOrder(trace, y[0], e, related)
  {
    assert forall i :: 0 < i < |x| ==> InOrder(trace, x[0], x[i], related);
    assert forall i :: 0 < i < |y| ==> InOrder(trace, y[0], y[i], related);
  }

  lemma TailChronological(trace: seq<TraceInfo>, x: seq<nat>, y: seq<nat>, related: (nat, nat) -> bool)
    requires x != [] && InTrace(trace, x) && InTrace(trace, y) && Chronological(trace, x, related)
    ensures InTrace(trace, x[1..]) && Chronological(trace, x[1..], related)
    ensures CrossTies(trace, x, y, related) ==> CrossTies(trace, x[1..], y, related)
    ensures CrossTies(trace, y, x, related) ==> CrossTies(trace, y, x[1..], related)
  {
  }

  lemma ConsChronological(trace: seq<TraceInfo>, h: nat, s: seq<nat>, related: (nat, nat) -> bool)
    requires h < |trace| && InTrace(trace, s) && Chronological(trace, s, related)
    requires forall i :: 0 <= i < |s| ==> InOrder(trace, h, s[i], related)
    ensures InTrace(trace, [h] + s) && Chronological(trace, [h] + s, related)
  {
  }

  /** Merging two chronological runs, the left one first on ties. */
  lemma {:induction false} MergedChronological(
    trace: seq<TraceInfo>, x: seq<nat>, y: seq<nat>, related: (nat, nat) -> bool
  )
    requires InTrace(trace, x) && InTrace(trace, y)
    requires Chronological(trace, x, related) && Chronological(trace, y, related) && CrossTies(trace, x, y, related)
    ensures Chronological(trace, Merged(trace, x, y), related)
    decreases |x| + |y|
  {
    hide Chronological, CrossTies, InOrder;
    if x != [] && y != [] {
      var left := trace[x[0]].ts <= trace[y[0]].ts;
      TailChronological(trace, x, y, related);
      TailChronological(trace, y, x, related);
      var h, x', y' := if left then x[0] else y[0], if left then x[1..] else x, if left then y else y[1..];
      MergedChronological(trace, x', y', related);
      var rest := Merged(trace, x', y');
      forall i | 0 <= i < |rest| ensures InOrder(trace, h, rest[i], related) {
        MergedElement(trace, x', y', i);
        HeadFirst(trace, x, y, related, rest[i]);
      }
      ConsChronological(trace, h, rest, related);
    }
  }

  /**
   The sort is stable in this sense: whatever relation holds between records of equal timestamp in container order
   still holds between them, in that order, afterwards.
   */
  lemma {:induction false} SortStable(trace: seq<TraceInfo>, s: seq<nat>, related: (nat, nat) -> bool)
    requires InTrace(trace, s) && TiesRelated(trace, s, related)
    ensures Chronological(trace, SortedByTs(trace, s), related)
    decreases |s|
  {
    hide Merged;
    if |s| > 1 {
      var k := (|s| + 1) / 2;
      var a, b := s[..k], s[k..];
      HalvesRelated(trace, s, k, related);
      SortStable(trace, a, related);
      SortStable(trace, b, related);
      SortPermutes(trace, a);
      SortPermutes(trace, b);
      CrossTiesSorted(trace, a, b, SortedByTs(trace, a), SortedByTs(trace, b), related);
      MergedChronological(trace, SortedByTs(trace, a), SortedByTs(trace, b), related);
    }
  }

  lemma HalvesRelated(trace: seq<TraceInfo>, s: seq<nat>, k: nat, related: (nat, nat) -> bool)
    requires InTrace(trace, s) && TiesRelated(trace, s, related) && k <= |s|
    ensures TiesRelated(trace, s[..k], related) && TiesRelated(trace, s[k..], related)
    ensures CrossTies(trace, s[..k], s[k..], related)
  {
    var a, b := s[..k], s[k..];
    forall i, j | 0 <= i < |a| && 0 <= j < |b| && trace[a[i]].ts == trace[b[j]].ts ensures related(a[i], b[j]) {
      assert s[i] == a[i] && s[k + j] == b[j];
    }
  }

  lemma CrossTiesSorted(
    trace: seq<TraceInfo>, a: seq<nat>, b: seq<nat>, x: seq<nat>, y: seq<nat>, related: (nat, nat) -> bool
  )
    requires InTrace(trace, a) && InTrace(trace, b) && InTrace(trace, x) && InTrace(trace, y)
    requires multiset(x) == multiset(a) && multiset(y) == multiset(b) && CrossTies(trace, a, b, related)
    ensures CrossTies(trace, x, y, related)
  {
    forall i, j | 0 <= i < |x| && 0 <= j < |y| && trace[x[i]].ts == trace[y[j]].ts ensures related(x[i], y[j]) {
      var i' := PermutedElement(x, a, i);
      var j' := PermutedElement(y, b, j);
    }
  }

  // ----- The array algorithm

  /** Merges a[begin..mid + 1] and a[mid + 1..end + 1] through `temp`. */
  method MergeArray(trace: seq<TraceInfo>, a: array<nat>, begin: nat, mid: nat, end: nat, temp: array<nat>)
    requires a != temp && begin <= mid < end < a.Length && end - begin < temp.Length && InTrace(trace, a[..])
    modifies a, temp
    ensures a[..]
         == old(a[..begin]) + Merged(trace, old(a[begin..mid + 1]), old(a[mid + 1..end + 1])) + old(a[end + 1..])
  {
    ghost var was := a[..];
    ghost var goal := Merged(trace, a[begin..mid + 1], a[mid + 1..end + 1]);
    var k := MergeToTemp(trace, a, begin, mid, end, temp);
    CopyBack(a, begin, k, temp);
    assert a[..] == was[..begin] + goal + was[end + 1..];
  }

  /** What is still to be merged of s[i..mid + 1] and s[m..end + 1]. */
  ghost function Rest(trace: seq<TraceInfo>, s: seq<nat>, i: nat, mid: nat, m: nat, end: nat): seq<nat>
    requires InTrace(trace, s) && i <= mid + 1 <= m <= end + 1 <= |s|
  {
    Merged(trace, s[i..mid + 1], s[m..end + 1])
  }

  lemma RestStep(trace: seq<TraceInfo>, s: seq<nat>, i: nat, mid: nat, m: nat, end: nat)
    requires InTrace(trace, s) && i <= mid < m <= end < |s|
    ensures Rest(trace, s, i, mid, m, end)
         == if trace[s[i]].ts <= trace[s[m]].ts then [s[i]] + Rest(trace, s, i + 1, mid, m, end)
            else [s[m]] + Rest(trace, s, i, mid, m + 1, end)
  {
    assert s[i..mid + 1][1..] == s[i + 1..mid + 1];
    assert s[m..end + 1][1..] == s[m + 1..end + 1];
  }

  lemma RestEnd(trace: seq<TraceInfo>, s: seq<nat>, i: nat, mid: nat, m: nat, end: nat)
    requires InTrace(trace, s) && i <= mid + 1 <= m <= end + 1 <= |s|
    ensures i > mid ==> Rest(trace, s, i, mid, m, end) == s[m..end + 1]
    ensures m > end ==> Rest(trace, s, i, mid, m, end) == s[i..mid + 1]
  {
  }

  method MergeToTemp(trace: seq<TraceInfo>, a: array<nat>, begin: nat, mid: nat, end: nat, temp: array<nat>)
    returns (k: nat)
    requires a != temp && begin <= mid < end < a.Length && end - begin < temp.Length && InTrace(trace, a[..])
    modifies temp
    ensures k == end + 1 - begin && temp[..k] == Merged(trace, a[begin..mid + 1], a[mid + 1..end + 1])
  {
    hide Merged, InTrace;
    ghost var s := a[..];
    var i, m;
    i, m, k := MergeFront(trace, a, begin, mid, end, temp);
    RestEnd(trace, s, i, mid, m, end);
    DrainBoth(temp[..k], s, i, mid + 1, m, end + 1);
    k := Drain(a, i, mid + 1, temp, k);
    k := Drain(a, m, end + 1, temp, k);
  }

  /** With one run used up, appending both leftovers appends the other one. */
  lemma DrainBoth(t: seq<nat>, s: seq<nat>, i: nat, j: nat, m: nat, n: nat)
    requires i <= j <= |s| && m <= n <= |s|
    ensures i == j ==> t + s[i..j] + s[m..n] == t + s[m..n]
    ensures m == n ==> t + s[i..j] + s[m..n] == t + s[i..j]
  {
  }

  /** The first loop: compares the heads of both runs until one run is used up. */
  method MergeFront(trace: seq<TraceInfo>, a: array<nat>, begin: nat, mid: nat, end: nat, temp: array<nat>)
    returns (i: nat, m: nat, k: nat)
    requires a != temp && begin <= mid < end < a.Length && end - begin < temp.Length && InTrace(trace, a[..])
    modifies temp
    ensures begin <= i <= mid + 1 <= m <= end + 1 && k == i - begin + m - (mid + 1) && (i == mid + 1 || m == end + 1)
    ensures temp[..k] + Rest(trace, a[..], i, mid, m, end) == Rest(trace, a[..], begin, mid, mid + 1, end)
  {
    hide Rest;
    ghost var s := a[..];
    i, m, k := begin, mid + 1, 0;
    assert temp[..0] == [];
    while i <= mid && m <= end
      invariant begin <= i <= mid + 1 <= m <= end + 1 && k == i - begin + m - (mid + 1)
      invariant temp[..k] + Rest(trace, s, i, mid, m, end) == Rest(trace, s, begin, mid, mid + 1, end)
      decreases end + 1 - i + end + 1 - m
    {
      RestStep(trace, s, i, mid, m, end);
      if trace[a[i]].ts <= trace[a[m]].ts {
        Shift(temp[..k], a[i], Rest(trace, s, i + 1, mid, m, end));
        Push(temp, k, a[i]);
        i := i + 1;
      } else {
        Shift(temp[..k], a[m], Rest(trace, s, i, mid, m + 1, end));
        Push(temp, k, a[m]);
        m := m + 1;
      }
      k := k + 1;
    }
  }

  lemma Shift(t: seq<nat>, x: nat, rest: seq<nat>)
    ensures t + ([x] + rest) == t + [x] + rest
  {
  }

  method Push(temp: array<nat>, k: nat, x: nat)
    requires k < temp.Length
    modifies temp
    ensures temp[..k + 1] == old(temp[..k]) + [x]
  {
    temp[k] := x;
  }

  /** Appends what is left of one run to the buffer. */
  method Drain(a: array<nat>, from: nat, to: nat, temp: array<nat>, k: nat) returns (k': nat)
    requires a != temp && from <= to <= a.Length && k + to - from <= temp.Length
    modifies temp
    ensures k' == k + to - from && temp[..k'] == old(temp[..k]) + a[from..to]
  {
    k' := k;
    var i := from;
    while i < to
      invariant from <= i <= to && k' == k + i - from
      invariant temp[..k'] == old(temp[..k]) + a[from..i]
    {
      temp[k'] := a[i];
      i, k' := i + 1, k' + 1;
      assert temp[..k'] == temp[..k' - 1] + [a[i - 1]];
    }
  }

  method CopyBack(a: array<nat>, begin: nat, k: nat, temp: array<nat>)
    requires a != temp && begin + k <= a.Length && k <= temp.Length
    modifies a
    ensures a[..] == old(a[..begin]) + temp[..k] + old(a[begin + k..])
  {
    for i := 0 to k
      invariant forall x :: 0 <= x < a.Length ==> a[x] == if begin <= x < begin + i then temp[x - begin] else old(a[x])
    {
      a[begin + i] := temp[i];
    }
  }

  method SortRange(trace: seq<TraceInfo>, a: array<nat>, begin: nat, end: nat, temp: array<nat>)
    requires a != temp && begin <= end < a.Length && end - begin < temp.Length && InTrace(trace, a[..])
    modifies a, temp
    ensures a[..] == old(a[..begin]) + SortedByTs(trace, old(a[begin..end + 1])) + old(a[end + 1..])
    decreases end - begin
  {
    hide Merged, SortedByTs;
    if begin < end {
      var mid := (begin + end) / 2;
      ghost var s := a[..];
      SortRange(trace, a, begin, mid, temp);
      ghost var x := SortedByTs(trace, s[begin..mid + 1]);
      assert a[..] == s[..begin] + x + s[mid + 1..];
      InTraceParts(trace, s, begin, mid + 1, x);
      FirstHalf(s, x, begin, mid, end);
      SortRange(trace, a, mid + 1, end, temp);
      ghost var y := SortedByTs(trace, s[mid + 1..end + 1]);
      SecondHalf(s, x, y, a[..], begin, mid, end);
      InTraceThree(trace, s, begin, end + 1, x, y);
      MergeArray(trace, a, begin, mid, end, temp);
      SortedHalves(trace, s[begin..end + 1], s, begin, mid, end);
    } else {
      SortedSingle(trace, a[..], begin);
    }
  }

  lemma InTraceParts(trace: seq<TraceInfo>, s: seq<nat>, i: nat, j: nat, x: seq<nat>)
    requires InTrace(trace, s) && i <= j <= |s| && InTrace(trace, x)
    ensures InTrace(trace, s[..i] + x + s[j..])
  {
  }

  lemma InTraceThree(trace: seq<TraceInfo>, s: seq<nat>, i: nat, j: nat, x: seq<nat>, y: seq<nat>)
    requires InTrace(trace, s) && i <= j <= |s| && InTrace(trace, x) && InTrace(trace, y)
    ensures InTrace(trace, s[..i] + x + y + s[j..])
  {
  }

  lemma FirstHalf(s: seq<nat>, x: seq<nat>, begin: nat, mid: nat, end: nat)
    requires begin <= mid < end < |s| && |x| == mid + 1 - begin
    ensures (s[..begin] + x + s[mid + 1..])[mid + 1..end + 1] == s[mid + 1..end + 1]
  {
  }

  lemma SecondHalf(s: seq<nat>, x: seq<nat>, y: seq<nat>, t: seq<nat>, begin: nat, mid: nat, end: nat)
    requires begin <= mid < end < |s| && |x| == mid + 1 - begin && |y| == end - mid
    requires var t' := s[..begin] + x + s[mid + 1..];
             t == t'[..mid + 1] + y + t'[end + 1..]
    ensures t == s[..begin] + x + y + s[end + 1..]
    ensures t[begin..mid + 1] == x && t[mid + 1..end + 1] == y && t[..begin] == s[..begin]
    ensures t[end + 1..] == s[end + 1..]
  {
  }

  lemma SortedHalves(trace: seq<TraceInfo>, part: seq<nat>, s: seq<nat>, begin: nat, mid: nat, end: nat)
    requires InTrace(trace, s) && begin < end < |s| && mid == (begin + end) / 2 && part == s[begin..end + 1]
    ensures InTrace(trace, part) && InTrace(trace, s[begin..mid + 1]) && InTrace(trace, s[mid + 1..end + 1])
    ensures SortedByTs(trace, part)
         == Merged(trace, SortedByTs(trace, s[begin..mid + 1]), SortedByTs(trace, s[mid + 1..end + 1]))
  {
    hide Merged, SortedByTs;
    SortedSplit(trace, part, mid + 1 - begin);
    assert part[..mid + 1 - begin] == s[begin..mid + 1] && part[mid + 1 - begin..] == s[mid + 1..end + 1];
  }

  lemma SortedSplit(trace: seq<TraceInfo>, s: seq<nat>, k: nat)
    requires InTrace(trace, s) && |s| > 1 && k == (|s| + 1) / 2
    ensures InTrace(trace, s[..k]) && InTrace(trace, s[k..])
    ensures SortedByTs(trace, s) == Merged(trace, SortedByTs(trace, s[..k]), SortedByTs(trace, s[k..]))
  {
    hide Merged;
  }

  lemma SortedSingle(trace: seq<TraceInfo>, s: seq<nat>, i: nat)
    requires InTrace(trace, s) && i < |s|
    ensures s == s[..i] + SortedByTs(trace, s[i..i + 1]) + s[i + 1..]
  {
  }

  /** Sorts a whole container. An empty one would make the inclusive upper bound wrap around. */
  method SortContainer(trace: seq<TraceInfo>, a: array<nat>)
    requires a.Length >= 1 && InTrace(trace, a[..])
    modifies a
    ensures a[..] == SortedByTs(trace, old(a[..]))
  {
    hide SortedByTs;
    var temp := new nat[a.Length];
    ghost var s := a[..];
    assert s[0..|s|] == s && s[..0] == [] && s[|s|..] == [];
    SortRange(trace, a, 0, a.Length - 1, temp);
  }
}
