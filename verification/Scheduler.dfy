/**
 The copy scheduler of `mcp`: files sorted by decreasing size are handed, one by one, to the
 thread with the smallest load, taken from a min-heap of `(load, thread)` pairs.
 */
module CopyScheduler {
  import opened Basics

  datatype FileWork = FileWork(size: nat, srcFd: int, dstFd: int)

  /** One heap element, ordered like `greater<pair<size_t, int>>`: smallest load first, then smallest thread. */
  datatype Slot = Slot(load: nat, thread: nat) {
    predicate Leq(other: Slot) {
      load < other.load || (load == other.load && thread <= other.thread)
    }
  }

  // ----- Loads and counts of an assignment `owner` restricted to its first n files

  ghost predicate IsAssignment(owner: seq<nat>, m: nat) {
    forall i :: 0 <= i < |owner| ==> owner[i] < m
  }

  ghost function Load(files: seq<FileWork>, owner: seq<nat>, n: nat, t: nat): nat
    requires n <= |files| && n <= |owner|
  {
    if n == 0 then 0
    else Load(files, owner, n - 1, t) + (if owner[n - 1] == t then files[n - 1].size else 0)
  }

  ghost function Count(owner: seq<nat>, n: nat, t: nat): nat
    requires n <= |owner|
  {
    if n == 0 then 0 else Count(owner, n - 1, t) + (if owner[n - 1] == t then 1 else 0)
  }

  ghost function Total(files: seq<FileWork>, n: nat): nat
    requires n <= |files|
  {
    if n == 0 then 0 else Total(files, n - 1) + files[n - 1].size
  }

  ghost predicate Descending(files: seq<FileWork>) {
    forall i, j :: 0 <= i <= j < |files| ==> files[j].size <= files[i].size
  }

  /** Every file goes to a thread whose load at that moment is smallest, ties to the smallest thread. */
  ghost predicate GreedySoFar(files: seq<FileWork>, owner: seq<nat>, m: nat) {
    && |owner| <= |files|
    && IsAssignment(owner, m)
    && forall i, t :: 0 <= i < |owner| && 0 <= t < m ==>
         Slot(Load(files, owner, i, owner[i]), owner[i]).Leq(Slot(Load(files, owner, i, t), t))
  }

  ghost predicate Greedy(files: seq<FileWork>, owner: seq<nat>, m: nat) {
    |owner| == |files| && GreedySoFar(files, owner, m)
  }

  /** No thread of `owner` carries more than `bound`. */
  ghost predicate LoadsWithin(files: seq<FileWork>, owner: seq<nat>, m: nat, bound: nat)
    requires |owner| == |files|
  {
    forall t :: 0 <= t < m ==> Load(files, owner, |files|, t) <= bound
  }

  // ----- Sums over the threads

  ghost function SumLoads(files: seq<FileWork>, owner: seq<nat>, n: nat, m: nat): nat
    requires n <= |files| && n <= |owner|
  {
    if m == 0 then 0 else SumLoads(files, owner, n, m - 1) + Load(files, owner, n, m - 1)
  }

  lemma {:induction false} SumLoadsStep(files: seq<FileWork>, owner: seq<nat>, n: nat, m: nat)
    requires 0 < n <= |files| && n <= |owner|
    ensures SumLoads(files, owner, n, m)
         == SumLoads(files, owner, n - 1, m) + (if owner[n - 1] < m then files[n - 1].size else 0)
    decreases m
  {
    if m > 0 { SumLoadsStep(files, owner, n, m - 1); }
  }

  /** The threads' loads add up to the sizes handed out so far. */
  lemma {:induction false} LoadsConserve(files: seq<FileWork>, owner: seq<nat>, n: nat, m: nat)
    requires n <= |files| && n <= |owner| && IsAssignment(owner, m)
    ensures SumLoads(files, owner, n, m) == Total(files, n)
    decreases n
  {
    if n == 0 {
      SumLoadsZero(files, owner, m);
    } else {
      SumLoadsStep(files, owner, n, m);
      LoadsConserve(files, owner, n - 1, m);
    }
  }

  lemma {:induction false} SumLoadsZero(files: seq<FileWork>, owner: seq<nat>, m: nat)
    ensures SumLoads(files, owner, 0, m) == 0
  {
    if m > 0 { SumLoadsZero(files, owner, m - 1); }
  }

  lemma {:induction false} SumAtLeast(files: seq<FileWork>, owner: seq<nat>, n: nat, m: nat, low: nat)
    requires n <= |files| && n <= |owner|
    requires forall t :: 0 <= t < m ==> low <= Load(files, owner, n, t)
    ensures m * low <= SumLoads(files, owner, n, m)
  {
    if m > 0 {
      SumAtLeast(files, owner, n, m - 1, low);
      assert m * low == (m - 1) * low + low;
    }
  }

  lemma {:induction false} SumAtMost(files: seq<FileWork>, owner: seq<nat>, n: nat, m: nat, high: nat)
    requires n <= |files| && n <= |owner|
    requires forall t :: 0 <= t < m ==> Load(files, owner, n, t) <= high
    ensures SumLoads(files, owner, n, m) <= m * high
  {
    if m > 0 {
      SumAtMost(files, owner, n, m - 1, high);
      assert m * high == (m - 1) * high + high;
    }
  }

  /** The numbers of files on each thread, for two prefixes of one assignment, summed over the threads. */
  ghost function SumCounts(owner: seq<nat>, n: nat, k: nat, m: nat): nat
    requires n <= |owner| && k <= |owner|
  {
    if m == 0 then 0 else SumCounts(owner, n, k, m - 1) + Count(owner, n, m - 1) + Count(owner, k, m - 1)
  }

  lemma {:induction false} SumCountsStep(owner: seq<nat>, n: nat, k: nat, m: nat)
    requires n <= |owner| && k <= |owner|
    ensures n > 0 ==> SumCounts(owner, n, k, m) == SumCounts(owner, n - 1, k, m) + (if owner[n - 1] < m then 1 else 0)
    ensures k > 0 ==> SumCounts(owner, n, k, m) == SumCounts(owner, n, k - 1, m) + (if owner[k - 1] < m then 1 else 0)
    ensures n == 0 && k == 0 ==> SumCounts(owner, n, k, m) == 0
    decreases m
  {
    if m > 0 { SumCountsStep(owner, n, k, m - 1); }
  }

  lemma {:induction false} CountsConserve(owner: seq<nat>, n: nat, k: nat, m: nat)
    requires n <= |owner| && k <= |owner| && IsAssignment(owner, m)
    ensures SumCounts(owner, n, k, m) == n + k
    decreases n + k
  {
    SumCountsStep(owner, n, k, m);
    if n > 0 {
      CountsConserve(owner, n - 1, k, m);
    } else if k > 0 {
      CountsConserve(owner, n, k - 1, m);
    }
  }

  /** Pigeonhole: if the two counts of every thread add up to at most 2, the prefixes hold at most 2m files. */
  lemma {:induction false} CountsAtMost(owner: seq<nat>, n: nat, k: nat, m: nat)
    requires n <= |owner| && k <= |owner|
    requires forall t :: 0 <= t < m ==> Count(owner, n, t) + Count(owner, k, t) <= 2
    ensures SumCounts(owner, n, k, m) <= 2 * m
  {
    if m > 0 { CountsAtMost(owner, n, k, m - 1); }
  }

  lemma {:induction false} CountsAtLeast(owner: seq<nat>, n: nat, k: nat, m: nat)
    requires n <= |owner| && k <= |owner|
    requires forall t :: 0 <= t < m ==> Count(owner, n, t) + Count(owner, k, t) >= 2
    ensures SumCounts(owner, n, k, m) >= 2 * m
  {
    if m > 0 { CountsAtLeast(owner, n, k, m - 1); }
  }

  // ----- What a count says about the files behind it

  lemma {:induction false} LoadMonotone(files: seq<FileWork>, owner: seq<nat>, n: nat, n': nat, t: nat)
    requires n <= n' <= |files| && n' <= |owner|
    ensures Load(files, owner, n, t) <= Load(files, owner, n', t)
    ensures Count(owner, n, t) <= Count(owner, n', t)
    decreases n'
  {
    if n < n' { LoadMonotone(files, owner, n, n' - 1, t); }
  }

  /** A positive count has a last contributor. */
  lemma {:induction false} LastOn(owner: seq<nat>, n: nat, t: nat) returns (i: nat)
    requires n <= |owner| && Count(owner, n, t) > 0
    ensures i < n && owner[i] == t && Count(owner, i + 1, t) == Count(owner, n, t)
    decreases n
  {
    if owner[n - 1] == t { i := n - 1; } else { i := LastOn(owner, n - 1, t); }
  }

  lemma {:induction false} LoadOfNone(files: seq<FileWork>, owner: seq<nat>, n: nat, t: nat)
    requires n <= |files| && n <= |owner| && Count(owner, n, t) == 0
    ensures Load(files, owner, n, t) == 0
    decreases n
  {
    if n > 0 { LoadOfNone(files, owner, n - 1, t); }
  }

  /** Files i and j on one thread both weigh on it. */
  lemma {:induction false} LoadOfOne(files: seq<FileWork>, owner: seq<nat>, n: nat, i: nat)
    requires i < n <= |files| && n <= |owner|
    ensures Load(files, owner, n, owner[i]) >= files[i].size
    ensures Count(owner, n, owner[i]) >= 1
  {
    LoadMonotone(files, owner, i + 1, n, owner[i]);
  }

  lemma {:induction false} LoadOfTwo(files: seq<FileWork>, owner: seq<nat>, n: nat, i: nat, j: nat)
    requires i < j < n <= |files| && n <= |owner| && owner[i] == owner[j]
    ensures Load(files, owner, n, owner[i]) >= files[i].size + files[j].size
    ensures Count(owner, n, owner[i]) >= 2
  {
    LoadOfOne(files, owner, j, i);
    LoadMonotone(files, owner, j + 1, n, owner[i]);
  }

  /** k files on a thread weigh at least k times the smallest file of the prefix. */
  lemma {:induction false} LoadOfMany(files: seq<FileWork>, owner: seq<nat>, n: nat, t: nat, p: nat)
    requires n <= |files| && n <= |owner|
    requires forall i :: 0 <= i < n ==> p <= files[i].size
    ensures Load(files, owner, n, t) >= Count(owner, n, t) * p
    decreases n
  {
    if n > 0 {
      LoadOfMany(files, owner, n - 1, t, p);
      if owner[n - 1] == t {
        assert Count(owner, n, t) * p == Count(owner, n - 1, t) * p + p;
      }
    }
  }

  lemma {:induction false} LoadOfSingle(files: seq<FileWork>, owner: seq<nat>, n: nat, t: nat) returns (i: nat)
    requires n <= |files| && n <= |owner| && Count(owner, n, t) == 1
    ensures i < n && owner[i] == t && Load(files, owner, n, t) == files[i].size
    decreases n
  {
    if owner[n - 1] == t {
      i := n - 1;
      LoadOfNone(files, owner, n - 1, t);
    } else {
      i := LoadOfSingle(files, owner, n - 1, t);
    }
  }

  // ----- The approximation bound

  lemma GreedyPicksLeast(files: seq<FileWork>, owner: seq<nat>, m: nat, i: nat, t: nat)
    requires Greedy(files, owner, m) && i < |files| && t < m
    ensures Load(files, owner, i, owner[i]) <= Load(files, owner, i, t)
  {
    assert Slot(Load(files, owner, i, owner[i]), owner[i]).Leq(Slot(Load(files, owner, i, t), t));
  }

  /** While files remain for empty threads, greedy never doubles up. */
  lemma {:induction false} GreedySpreads(files: seq<FileWork>, owner: seq<nat>, m: nat, n: nat, t: nat)
    requires Greedy(files, owner, m) && n <= |files| && n <= m && t < m
    requires forall i :: 0 <= i < n ==> files[i].size > 0
    ensures Count(owner, n, t) <= 1
    decreases n
  {
    if n > 0 {
      GreedySpreads(files, owner, m, n - 1, t);
      if owner[n - 1] == t && Count(owner, n - 1, t) == 1 {
        var free := IdleThread(owner, n - 1, m);
        LoadOfNone(files, owner, n - 1, free);
        var i := LoadOfSingle(files, owner, n - 1, t);
        GreedyPicksLeast(files, owner, m, n - 1, free);
      }
    }
  }

  /** Fewer files than threads leave some thread without work. */
  lemma IdleThread(owner: seq<nat>, n: nat, m: nat) returns (t: nat)
    requires IsAssignment(owner, m) && n <= |owner| && n < m
    ensures t < m && Count(owner, n, t) == 0
  {
    CountsConserve(owner, n, n, m);
    if forall t :: 0 <= t < m ==> Count(owner, n, t) + Count(owner, n, t) >= 2 {
      CountsAtLeast(owner, n, n, m);
    }
    t :| 0 <= t < m && Count(owner, n, t) + Count(owner, n, t) < 2;
  }

  /** Once m files of positive size are placed, every thread has one. */
  lemma GreedyOccupies(files: seq<FileWork>, owner: seq<nat>, m: nat, n: nat, t: nat)
    requires Greedy(files, owner, m) && m <= n <= |files| && t < m
    requires forall i :: 0 <= i < n ==> files[i].size > 0
    ensures Count(owner, n, t) >= 1
  {
    forall u | 0 <= u < m ensures Count(owner, m, u) <= 1 {
      GreedySpreads(files, owner, m, m, u);
    }
    CountsConserve(owner, m, m, m);
    if Count(owner, m, t) == 0 {
      OneShort(owner, m, m, t);
    }
    LoadMonotone(files, owner, m, n, t);
  }

  lemma {:induction false} OneShort(owner: seq<nat>, n: nat, m: nat, t: nat)
    requires n <= |owner| && t < m && Count(owner, n, t) == 0
    requires forall u :: 0 <= u < m ==> Count(owner, n, u) <= 1
    ensures SumCounts(owner, n, n, m) <= 2 * m - 2
    decreases m
  {
    if t == m - 1 {
      CountsAtMost(owner, n, n, m - 1);
    } else {
      OneShort(owner, n, m - 1, t);
    }
  }

  /**
   If three files of the size of file k exceed the bound, no thread within the bound holds three of the first k + 1.
   */
  lemma AtMostTwo(files: seq<FileWork>, alt: seq<nat>, k: nat, t: nat, bound: nat)
    requires Descending(files) && k < |files| == |alt| && Load(files, alt, |files|, t) <= bound < 3 * files[k].size
    ensures Count(alt, k + 1, t) <= 2
  {
    LoadOfMany(files, alt, k + 1, t, files[k].size);
    LoadMonotone(files, alt, k + 1, |files|, t);
    if Count(alt, k + 1, t) >= 3 {
      TimesMonotone(3, Count(alt, k + 1, t), files[k].size);
    }
  }

  /** A thread with one of the first j + 1 files and two of the first k + 1 carries at least files j and k. */
  lemma PairWeighs(files: seq<FileWork>, alt: seq<nat>, k: nat, j: nat, t: nat)
    requires Descending(files) && j <= k < |files| == |alt|
    requires Count(alt, j + 1, t) >= 1 && Count(alt, k + 1, t) >= 2
    ensures Load(files, alt, k + 1, t) >= files[j].size + files[k].size
  {
    var b := LastOn(alt, k + 1, t);
    var a := LastOn(alt, b, t);
    if a > j {
      a := LastOn(alt, j + 1, t);
    }
    LoadOfTwo(files, alt, k + 1, a, b);
    assert files[a].size >= files[j].size && files[b].size >= files[k].size;
  }

  lemma CountsIfApart(files: seq<FileWork>, alt: seq<nat>, k: nat, j: nat, t: nat, bound: nat)
    requires Descending(files) && j <= k < |files| == |alt|
    requires Load(files, alt, |files|, t) <= bound < 3 * files[k].size && bound < files[j].size + files[k].size
    ensures Count(alt, k + 1, t) + Count(alt, j + 1, t) <= 2
  {
    AtMostTwo(files, alt, k, t, bound);
    LoadMonotone(files, alt, k + 1, |files|, t);
    LoadMonotone(files, alt, j + 1, k + 1, t);
    if Count(alt, j + 1, t) >= 1 && Count(alt, k + 1, t) >= 2 {
      PairWeighs(files, alt, k, j, t);
    }
  }

  /** With j + k = 2m - 1, any plan within the bound has to put two files at least as large as j and k together. */
  lemma PairInPlan(files: seq<FileWork>, alt: seq<nat>, m: nat, k: nat, j: nat, bound: nat)
    requires Descending(files) && |alt| == |files| && IsAssignment(alt, m) && LoadsWithin(files, alt, m, bound)
    requires j <= k < |files| && j + k == 2 * m - 1 && 3 * files[k].size > bound
    ensures files[j].size + files[k].size <= bound
  {
    var n, n' := k + 1, j + 1;
    CountsConserve(alt, n, n', m);
    if files[j].size + files[k].size > bound {
      forall t | 0 <= t < m ensures Count(alt, n, t) + Count(alt, n', t) <= 2 {
        CountsIfApart(files, alt, k, j, t, bound);
      }
      CountsAtMost(alt, n, n', m);
    }
  }

  /** Before file k is placed, some thread of the greedy run holds a single file no larger than file j. */
  lemma LightThread(files: seq<FileWork>, owner: seq<nat>, m: nat, k: nat, j: nat) returns (t: nat)
    requires Greedy(files, owner, m) && Descending(files)
    requires m <= k < |files| && j + k == 2 * m - 1 && files[k].size > 0
    ensures t < m && Load(files, owner, k, t) <= files[j].size
  {
    forall u | 0 <= u < m ensures Count(owner, k, u) >= 1 {
      GreedyOccupies(files, owner, m, k, u);
    }
    CountsConserve(owner, k, j, m);
    if forall u :: 0 <= u < m ==> Count(owner, k, u) + Count(owner, j, u) >= 2 {
      CountsAtLeast(owner, k, j, m);
    }
    t :| 0 <= t < m && Count(owner, k, t) + Count(owner, j, t) < 2;
    var i := LoadOfSingle(files, owner, k, t);
    if i < j {
      LoadOfOne(files, owner, j, i);
    }
  }

  /** Large files: if three files as large as file k exceed the bound, greedy places file k within it. */
  lemma LargeFileFits(files: seq<FileWork>, owner: seq<nat>, alt: seq<nat>, m: nat, k: nat, bound: nat)
    requires Greedy(files, owner, m) && Descending(files)
    requires |alt| == |files| && IsAssignment(alt, m) && LoadsWithin(files, alt, m, bound)
    requires k < |files| && 3 * files[k].size > bound
    ensures Load(files, owner, k, owner[k]) + files[k].size <= bound
  {
    LoadOfOne(files, alt, |files|, k);
    FewLarge(files, alt, m, k, bound);
    if k < m {
      var t := IdleThread(owner, k, m);
      LoadOfNone(files, owner, k, t);
      GreedyPicksLeast(files, owner, m, k, t);
    } else {
      var j := 2 * m - 1 - k;
      var t := LightThread(files, owner, m, k, j);
      GreedyPicksLeast(files, owner, m, k, t);
      PairInPlan(files, alt, m, k, j, bound);
    }
  }

  /** Only 2m files can each be larger than a third of the bound. */
  lemma FewLarge(files: seq<FileWork>, alt: seq<nat>, m: nat, k: nat, bound: nat)
    requires Descending(files) && |alt| == |files| && IsAssignment(alt, m) && LoadsWithin(files, alt, m, bound)
    requires k < |files| && 3 * files[k].size > bound
    ensures k < 2 * m
  {
    var n := k + 1;
    forall t | 0 <= t < m ensures Count(alt, n, t) + Count(alt, 0, t) <= 2 {
      AtMostTwo(files, alt, k, t, bound);
    }
    CountsAtMost(alt, n, 0, m);
    CountsConserve(alt, n, 0, m);
  }

  /**
   When greedy places file k, the load it meets times m, plus the file, is at most m times any plan's busiest load.
   */
  lemma AverageBound(files: seq<FileWork>, owner: seq<nat>, alt: seq<nat>, m: nat, k: nat, bound: nat)
    requires Greedy(files, owner, m) && k < |files|
    requires |alt| == |files| && IsAssignment(alt, m) && LoadsWithin(files, alt, m, bound)
    ensures m * Load(files, owner, k, owner[k]) + files[k].size <= m * bound
  {
    var low := Load(files, owner, k, owner[k]);
    forall t | 0 <= t < m ensures low <= Load(files, owner, k, t) {
      GreedyPicksLeast(files, owner, m, k, t);
    }
    SumAtLeast(files, owner, k, m, low);
    LoadsConserve(files, owner, k, m);
    var n := k + 1;
    forall t | 0 <= t < m ensures Load(files, alt, n, t) <= bound {
      LoadMonotone(files, alt, n, |files|, t);
    }
    SumAtMost(files, alt, n, m, bound);
    LoadsConserve(files, alt, n, m);
  }

  /**
   Graham's bound for longest-first scheduling: on every list of sizes and every number m of threads, no thread of
   the greedy assignment carries more than (4m - 1) / 3m times the busiest load of any other assignment.
   */
  lemma LongestFirstBound(files: seq<FileWork>, owner: seq<nat>, alt: seq<nat>, m: nat, t: nat, bound: nat)
    requires Descending(files) && Greedy(files, owner, m)
    requires |alt| == |files| && IsAssignment(alt, m) && LoadsWithin(files, alt, m, bound)
    requires t < m
    ensures 3 * m * Load(files, owner, |files|, t) <= (4 * m - 1) * bound
  {
    var n := |files|;
    if Count(owner, n, t) == 0 {
      LoadOfNone(files, owner, n, t);
    } else {
      var k := LastOn(owner, n, t);
      LoadUntouched(files, owner, k + 1, n, t);
      var low, p := Load(files, owner, k, t), files[k].size;
      assert Load(files, owner, n, t) == low + p;
      if 3 * p > bound {
        LargeFileFits(files, owner, alt, m, k, bound);
        LargeArithmetic(m, low + p, bound);
      } else {
        AverageBound(files, owner, alt, m, k, bound);
        SmallArithmetic(m, low, p, bound);
      }
    }
  }

  lemma {:induction false} LoadUntouched(files: seq<FileWork>, owner: seq<nat>, n: nat, n': nat, t: nat)
    requires n <= n' <= |files| && n' <= |owner| && Count(owner, n, t) == Count(owner, n', t)
    ensures Load(files, owner, n, t) == Load(files, owner, n', t)
    decreases n'
  {
    if n < n' {
      LoadMonotone(files, owner, n, n' - 1, t);
      LoadUntouched(files, owner, n, n' - 1, t);
    }
  }

  lemma LargeArithmetic(m: nat, load: nat, bound: nat)
    requires m >= 1 && load <= bound
    ensures 3 * m * load <= (4 * m - 1) * bound
  {
    TimesMonotone(load, bound, 3 * m);
    TimesSum(3 * m, m - 1, bound);
    TimesNat(m - 1, bound);
  }

  lemma SmallArithmetic(m: nat, low: nat, p: nat, bound: nat)
    requires m >= 1 && 3 * p <= bound && m * low + p <= m * bound
    ensures 3 * m * (low + p) <= (4 * m - 1) * bound
  {
    var x, y := m * low, m * bound;
    TripleProduct(m, low + p, x + m * p);
    TimesSum(low, p, m);
    TimesMonotone(3 * p, bound, m - 1);
    TripleProduct(m - 1, p, (m - 1) * p);
    TimesSum(m - 1, 1, p);
    TimesSum(3 * m, m - 1, bound);
    TripleProduct(m, bound, y);
  }

  lemma TripleProduct(a: nat, b: nat, ab: nat)
    requires ab == a * b
    ensures 3 * a * b == 3 * ab && (3 * b) * a == 3 * ab
  {
  }

  /** The spread of the greedy loads never exceeds the largest file, after any prefix of the run. */
  lemma {:induction false} SpreadBound(
    files: seq<FileWork>, owner: seq<nat>, m: nat, n: nat, s: nat, t: nat, largest: nat
  )
    requires Greedy(files, owner, m) && n <= |files| && s < m && t < m
    requires forall i :: 0 <= i < n ==> files[i].size <= largest
    ensures Load(files, owner, n, s) <= Load(files, owner, n, t) + largest
    decreases n
  {
    if n > 0 {
      SpreadBound(files, owner, m, n - 1, s, t, largest);
      GreedyPicksLeast(files, owner, m, n - 1, t);
    }
  }

  // ----- The scheduling loop

  /** The descriptors handed to thread t by the first n decisions, in order. */
  ghost function JobsOf(files: seq<FileWork>, owner: seq<nat>, n: nat, t: nat): seq<(int, int)>
    requires n <= |files| && n <= |owner|
  {
    if n == 0 then []
    else JobsOf(files, owner, n - 1, t) + (if owner[n - 1] == t then [(files[n - 1].srcFd, files[n - 1].dstFd)] else [])
  }

  ghost function QueueOf(files: seq<FileWork>, owner: seq<nat>, n: nat, m: nat): set<Slot>
    requires n <= |files| && n <= |owner|
  {
    set t | 0 <= t < m :: Slot(Load(files, owner, n, t), t)
  }

  lemma {:induction false} DecidedAlready(files: seq<FileWork>, owner: seq<nat>, next: nat, n: nat, t: nat)
    requires n <= |owner| < |files|
    ensures Load(files, owner + [next], n, t) == Load(files, owner, n, t)
    ensures JobsOf(files, owner + [next], n, t) == JobsOf(files, owner, n, t)
    decreases n
  {
    if n > 0 { DecidedAlready(files, owner, next, n - 1, t); }
  }

  lemma {:induction false} LeastExists(queue: set<Slot>) returns (least: Slot)
    requires queue != {}
    ensures least in queue && forall e :: e in queue ==> least.Leq(e)
  {
    var e :| e in queue;
    if queue == {e} {
      least := e;
    } else {
      least := LeastExists(queue - {e});
      if e.Leq(least) { least := e; }
      assert forall x :: x in queue ==> x == e || x in queue - {e};
    }
  }

  /** One decision keeps the run greedy and moves exactly one queue element. */
  lemma GreedyStep(files: seq<FileWork>, owner: seq<nat>, m: nat, top: Slot)
    requires GreedySoFar(files, owner, m) && |owner| < |files|
    requires top in QueueOf(files, owner, |owner|, m)
    requires forall e :: e in QueueOf(files, owner, |owner|, m) ==> top.Leq(e)
    ensures GreedySoFar(files, owner + [top.thread], m)
    ensures QueueOf(files, owner + [top.thread], |owner| + 1, m)
         == QueueOf(files, owner, |owner|, m) - {top} + {Slot(top.load + files[|owner|].size, top.thread)}
  {
    var n, owner' := |owner|, owner + [top.thread];
    forall i: nat, t | i <= n && 0 <= t < m ensures Load(files, owner', i, t) == Load(files, owner, i, t) {
      DecidedAlready(files, owner, top.thread, i, t);
    }
    forall i, t | 0 <= i < |owner'| && 0 <= t < m
      ensures Slot(Load(files, owner', i, owner'[i]), owner'[i]).Leq(Slot(Load(files, owner', i, t), t))
    {
      if i < n {
        assert Slot(Load(files, owner, i, owner[i]), owner[i]).Leq(Slot(Load(files, owner, i, t), t));
      } else {
        assert Slot(Load(files, owner, n, t), t) in QueueOf(files, owner, n, m);
      }
    }
    forall t | 0 <= t < m
      ensures Load(files, owner', n + 1, t) == Load(files, owner, n, t) + (if t == top.thread then files[n].size else 0)
    {
    }
    var before, after := QueueOf(files, owner, n, m), QueueOf(files, owner', n + 1, m);
    var moved := Slot(top.load + files[n].size, top.thread);
    forall e ensures e in after <==> e in before - {top} + {moved} {
      if e in after {
        assert e.load == Load(files, owner, n, e.thread) + (if e.thread == top.thread then files[n].size else 0);
        assert e.thread != top.thread ==> Slot(Load(files, owner, n, e.thread), e.thread) in before;
      }
    }
  }

  /** The multiset of all descriptors on threads 0..m. */
  ghost function AllJobs(jobs: seq<seq<(int, int)>>): multiset<(int, int)> {
    if jobs == [] then multiset{} else AllJobs(jobs[..|jobs| - 1]) + multiset(jobs[|jobs| - 1])
  }

  ghost function Descriptors(files: seq<FileWork>): seq<(int, int)> {
    seq(|files|, i requires 0 <= i < |files| => (files[i].srcFd, files[i].dstFd))
  }

  ghost predicate JobsMatch(files: seq<FileWork>, owner: seq<nat>, n: nat, jobs: seq<seq<(int, int)>>)
    requires n <= |files| && n <= |owner|
  {
    forall t :: 0 <= t < |jobs| ==> jobs[t] == JobsOf(files, owner, n, t)
  }

  lemma {:induction false} AllJobsUpdate(jobs: seq<seq<(int, int)>>, t: nat, job: (int, int))
    requires t < |jobs|
    ensures AllJobs(jobs[t := jobs[t] + [job]]) == AllJobs(jobs) + multiset{job}
  {
    var m := |jobs| - 1;
    var jobs' := jobs[t := jobs[t] + [job]];
    if t == m {
      assert jobs'[..m] == jobs[..m];
      assert multiset(jobs[t] + [job]) == multiset(jobs[t]) + multiset{job};
    } else {
      assert jobs'[..m] == jobs[..m][t := jobs[..m][t] + [job]];
      AllJobsUpdate(jobs[..m], t, job);
    }
  }

  lemma {:induction false} AllJobsEmpty(jobs: seq<seq<(int, int)>>)
    requires forall t :: 0 <= t < |jobs| ==> jobs[t] == []
    ensures AllJobs(jobs) == multiset{}
  {
    if jobs != [] { AllJobsEmpty(jobs[..|jobs| - 1]); }
  }

  /** The loop state after the decisions recorded in `owner`. */
  ghost predicate Placed(files: seq<FileWork>, owner: seq<nat>, m: nat, queue: set<Slot>, jobs: seq<seq<(int, int)>>) {
    && GreedySoFar(files, owner, m)
    && queue == QueueOf(files, owner, |owner|, m)
    && |jobs| == m && JobsMatch(files, owner, |owner|, jobs)
    && AllJobs(jobs) == multiset(Descriptors(files)[..|owner|])
  }

  /** The heap's top: no other element comes before it. */
  method Top(queue: set<Slot>) returns (top: Slot)
    requires queue != {}
    ensures top in queue && forall e :: e in queue ==> top.Leq(e)
  {
    ghost var least := LeastExists(queue);
    top :| top in queue && forall e :: e in queue ==> top.Leq(e);
  }

  /** Hands the next file to the thread on top of the heap. */
  method PlaceNext(
    ghost files: seq<FileWork>, ghost owner: seq<nat>, ghost m: nat, queue: set<Slot>, jobs: seq<seq<(int, int)>>,
    work: FileWork
  )
    returns (queue': set<Slot>, jobs': seq<seq<(int, int)>>, ghost thread: nat)
    requires m >= 1 && |owner| < |files| && work == files[|owner|] && Placed(files, owner, m, queue, jobs)
    ensures Placed(files, owner + [thread], m, queue', jobs')
  {
    hide GreedySoFar, AllJobs, Descriptors, JobsMatch;
    assert Slot(Load(files, owner, |owner|, 0), 0) in queue;
    var top := Top(queue);
    GreedyStep(files, owner, m, top);
    JobsMatchStep(files, owner, jobs, top.thread, (work.srcFd, work.dstFd));
    AllJobsStep(files, |owner|, jobs, top.thread, (work.srcFd, work.dstFd));
    queue' := queue - {top} + {Slot(top.load + work.size, top.thread)};
    jobs' := jobs[top.thread := jobs[top.thread] + [(work.srcFd, work.dstFd)]];
    thread := top.thread;
  }

  /**
   Assigns the files to `m` threads. `sorted` is what the in-place sort leaves: some arrangement of `files` by
   decreasing size. Without threads the heap is empty, so the loop must not run.
   */
  method AssignWork(ghost files: seq<FileWork>, sorted: seq<FileWork>, m: nat)
    returns (queue: set<Slot>, jobs: seq<seq<(int, int)>>, ghost owner: seq<nat>)
    requires m >= 1 || sorted == []
    requires multiset(sorted) == multiset(files) && Descending(sorted)
    ensures Greedy(sorted, owner, m)
    ensures queue == QueueOf(sorted, owner, |sorted|, m)
    ensures |jobs| == m && JobsMatch(sorted, owner, |sorted|, jobs)
    ensures AllJobs(jobs) == multiset(Descriptors(sorted))
    ensures forall t :: 0 <= t < m ==> |jobs[t]| == Count(owner, |sorted|, t)
    ensures forall i :: 0 <= i < |sorted| ==> JobPlaced(sorted, owner, jobs, i)
    ensures forall plan, bound: nat, e ::
              |plan| == |files| && IsAssignment(plan, m) && LoadsWithin(files, plan, m, bound) && e in queue ==>
              3 * m * e.load <= (4 * m - 1) * bound
  {
    queue := set t | 0 <= t < m :: Slot(0, t);
    jobs := seq(m, _ => []);
    owner := [];
    AllJobsEmpty(jobs);
    EmptyQueue(sorted, m);
    for i := 0 to |sorted|
      invariant |owner| == i && Placed(sorted, owner, m, queue, jobs)
    {
      ghost var thread;
      queue, jobs, thread := PlaceNext(sorted, owner, m, queue, jobs, sorted[i]);
      owner := owner + [thread];
    }
    assert Descriptors(sorted)[..|sorted|] == Descriptors(sorted);
    AllPlaced(sorted, owner, m, jobs);
    BoundForAllPlans(files, sorted, owner, m);
  }

  /** The pair of file i, source first, stands in its thread's list behind those of the earlier files of that thread. */
  ghost predicate JobPlaced(files: seq<FileWork>, owner: seq<nat>, jobs: seq<seq<(int, int)>>, i: nat)
    requires i < |files| == |owner|
  {
    var t := owner[i];
    && t < |jobs| && Count(owner, i, t) < |jobs[t]|
    && jobs[t][Count(owner, i, t)].0 == files[i].srcFd && jobs[t][Count(owner, i, t)].1 == files[i].dstFd
  }

  lemma {:induction false} JobsCounted(files: seq<FileWork>, owner: seq<nat>, n: nat, t: nat)
    requires n <= |files| && n <= |owner|
    ensures |JobsOf(files, owner, n, t)| == Count(owner, n, t)
    decreases n
  {
    if n > 0 { JobsCounted(files, owner, n - 1, t); }
  }

  lemma {:induction false} JobAt(files: seq<FileWork>, owner: seq<nat>, n: nat, i: nat)
    requires i < n <= |files| && n <= |owner|
    ensures var t := owner[i];
            && Count(owner, i, t) < |JobsOf(files, owner, n, t)|
            && JobsOf(files, owner, n, t)[Count(owner, i, t)] == (files[i].srcFd, files[i].dstFd)
    decreases n
  {
    JobsCounted(files, owner, n - 1, owner[i]);
    if i < n - 1 { JobAt(files, owner, n - 1, i); }
  }

  lemma AllPlaced(files: seq<FileWork>, owner: seq<nat>, m: nat, jobs: seq<seq<(int, int)>>)
    requires |owner| == |files| && IsAssignment(owner, m) && |jobs| == m && JobsMatch(files, owner, |files|, jobs)
    ensures forall t :: 0 <= t < m ==> |jobs[t]| == Count(owner, |files|, t)
    ensures forall i :: 0 <= i < |files| ==> JobPlaced(files, owner, jobs, i)
  {
    hide JobsOf;
    forall t | 0 <= t < m ensures |jobs[t]| == Count(owner, |files|, t) {
      JobsCounted(files, owner, |files|, t);
    }
    forall i | 0 <= i < |files| ensures JobPlaced(files, owner, jobs, i) {
      JobAt(files, owner, |files|, i);
    }
  }

  lemma EmptyQueue(files: seq<FileWork>, m: nat)
    ensures QueueOf(files, [], 0, m) == set t | 0 <= t < m :: Slot(0, t)
  {
    var zeros := set t | 0 <= t < m :: Slot(0, t);
    forall e ensures e in zeros <==> e in QueueOf(files, [], 0, m) {
      assert Load(files, [], 0, e.thread) == 0;
    }
  }

  lemma JobsMatchStep(files: seq<FileWork>, owner: seq<nat>, jobs: seq<seq<(int, int)>>, t: nat, job: (int, int))
    requires |owner| < |files| && t < |jobs| && JobsMatch(files, owner, |owner|, jobs)
    requires job == (files[|owner|].srcFd, files[|owner|].dstFd)
    ensures JobsMatch(files, owner + [t], |owner| + 1, jobs[t := jobs[t] + [job]])
  {
    var n, owner' := |owner|, owner + [t];
    var jobs' := jobs[t := jobs[t] + [job]];
    forall u: nat | u < |jobs'| ensures jobs'[u] == JobsOf(files, owner', n + 1, u) {
      DecidedAlready(files, owner, t, n, u);
      assert jobs[u] + [] == jobs[u];
    }
  }

  lemma AllJobsStep(files: seq<FileWork>, n: nat, jobs: seq<seq<(int, int)>>, t: nat, job: (int, int))
    requires n < |files| && t < |jobs| && job == (files[n].srcFd, files[n].dstFd)
    requires AllJobs(jobs) == multiset(Descriptors(files)[..n])
    ensures AllJobs(jobs[t := jobs[t] + [job]]) == multiset(Descriptors(files)[..n + 1])
  {
    AllJobsUpdate(jobs, t, job);
    assert Descriptors(files)[..n + 1] == Descriptors(files)[..n] + [job];
  }

  lemma BoundForAllPlans(files: seq<FileWork>, sorted: seq<FileWork>, owner: seq<nat>, m: nat)
    requires multiset(sorted) == multiset(files) && Descending(sorted) && Greedy(sorted, owner, m)
    ensures forall plan, bound: nat, e ::
              |plan| == |files| && IsAssignment(plan, m) && LoadsWithin(files, plan, m, bound)
              && e in QueueOf(sorted, owner, |sorted|, m) ==>
              3 * m * e.load <= (4 * m - 1) * bound
  {
    forall plan, bound: nat, e |
      |plan| == |files| && IsAssignment(plan, m) && LoadsWithin(files, plan, m, bound)
      && e in QueueOf(sorted, owner, |sorted|, m)
      ensures 3 * m * e.load <= (4 * m - 1) * bound
    {
      BoundForAnyPlan(files, sorted, owner, plan, m, e.thread, bound);
    }
  }

  // ----- Plans for the files in their original order

  lemma {:induction false} LoadOfPrefix(files: seq<FileWork>, owner: seq<nat>, f: FileWork, o: nat, n: nat, t: nat)
    requires n <= |files| == |owner|
    ensures Load(files + [f], owner + [o], n, t) == Load(files, owner, n, t)
    decreases n
  {
    if n > 0 { LoadOfPrefix(files, owner, f, o, n - 1, t); }
  }

  lemma LoadOfSnoc(files: seq<FileWork>, owner: seq<nat>, f: FileWork, o: nat, t: nat)
    requires |files| == |owner|
    ensures Load(files + [f], owner + [o], |files| + 1, t)
         == Load(files, owner, |files|, t) + (if o == t then f.size else 0)
  {
    LoadOfPrefix(files, owner, f, o, |files|, t);
  }

  lemma {:induction false} LoadWithout(files: seq<FileWork>, owner: seq<nat>, q: nat, t: nat)
    requires q < |files| == |owner|
    ensures Load(files, owner, |files|, t)
         == Load(Without(files, q), Without(owner, q), |files| - 1, t) + (if owner[q] == t then files[q].size else 0)
    decreases |files|
  {
    hide Without, Load;
    var n := |files| - 1;
    var files', owner' := files[..n], owner[..n];
    WithoutLast(files, q);
    WithoutLast(owner, q);
    LoadOfSnoc(files', owner', files[n], owner[n], t);
    if q < n {
      LoadWithout(files', owner', q, t);
      LoadOfSnoc(Without(files', q), Without(owner', q), files[n], owner[n], t);
    }
  }

  /** Takes the last file of `sorted` out of a rearrangement of it. */
  lemma TakeLastOut(files: seq<FileWork>, sorted: seq<FileWork>) returns (q: nat)
    requires multiset(sorted) == multiset(files) && sorted != []
    ensures q < |files| && files[q] == sorted[|sorted| - 1]
    ensures multiset(Without(files, q)) == multiset(sorted[..|sorted| - 1])
  {
    var n := |sorted| - 1;
    q := PermutedElement(sorted, files, n);
    WithoutPermuted(files, sorted, q, n);
    assert Without(sorted, n) == sorted[..n];
  }

  /** Any plan for `files` is, load for load, a plan for the same files in another order. */
  lemma {:induction false} Reordered(files: seq<FileWork>, plan: seq<nat>, sorted: seq<FileWork>, m: nat)
    returns (alt: seq<nat>)
    requires |plan| == |files| && IsAssignment(plan, m) && multiset(sorted) == multiset(files)
    ensures |alt| == |sorted| == |files| && IsAssignment(alt, m)
    ensures forall t: nat :: Load(sorted, alt, |sorted|, t) == Load(files, plan, |files|, t)
    decreases |sorted|
  {
    assert |sorted| == |multiset(sorted)| == |multiset(files)| == |files|;
    if sorted == [] {
      alt := [];
    } else {
      var n := |sorted| - 1;
      var x, rest := sorted[n], sorted[..n];
      var q := TakeLastOut(files, sorted);
      var alt' := Reordered(Without(files, q), Without(plan, q), rest, m);
      alt := alt' + [plan[q]];
      assert sorted == rest + [x];
      forall t: nat ensures Load(sorted, alt, |sorted|, t) == Load(files, plan, |files|, t) {
        LoadWithout(files, plan, q, t);
        LoadOfSnoc(rest, alt', x, plan[q], t);
      }
    }
  }

  /** The bound holds against every plan for the files as they were found, before sorting. */
  lemma BoundForAnyPlan(
    files: seq<FileWork>, sorted: seq<FileWork>, owner: seq<nat>, plan: seq<nat>, m: nat, t: nat, bound: nat
  )
    requires multiset(sorted) == multiset(files) && Descending(sorted) && Greedy(sorted, owner, m) && t < m
    requires |plan| == |files| && IsAssignment(plan, m) && LoadsWithin(files, plan, m, bound)
    ensures 3 * m * Load(sorted, owner, |sorted|, t) <= (4 * m - 1) * bound
  {
    var alt := Reordered(files, plan, sorted, m);
    LongestFirstBound(sorted, owner, alt, m, t, bound);
  }
}
