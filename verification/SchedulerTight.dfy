/** The scheduling bound is attained for every number of threads, on Graham's family of file sizes. */
module SchedulerTight {
  import opened CopyScheduler

  /** Sizes 2m - 1, 2m - 1, ..., m + 1, m + 1, m, m, m. */
  ghost function Size(m: nat, i: nat): nat
    requires i <= 2 * m && m >= 1
  {
    if i < 2 * m then 2 * m - 1 - i / 2 else m
  }

  ghost function Family(m: nat): (files: seq<FileWork>)
    requires m >= 1
    ensures |files| == 2 * m + 1 && forall i :: 0 <= i < |files| ==> files[i].size == Size(m, i)
  {
    seq(2 * m + 1, i requires 0 <= i < 2 * m + 1 => FileWork(Size(m, i), 0, 0))
  }

  /** The second file of thread t under the greedy rule. */
  ghost function Second(m: nat, t: nat): nat
    requires t < m
  {
    if t % 2 == 1 then 2 * m - t else if t + 1 < m then 2 * m - 2 - t else m
  }

  /** The greedy owner of file i: threads in order, then backwards in pairs, then thread 0 again. */
  ghost function GreedyOwner(m: nat, i: nat): (t: nat)
    requires i <= 2 * m && m >= 1
    ensures t < m && (m <= i < 2 * m ==> Second(m, t) == i)
  {
    if i < m then i
    else if i == 2 * m then 0
    else
      var r := 2 * m - 1 - i;
      if r % 2 == 1 then r - 1 else if r + 1 < m then r + 1 else r
  }

  /** The greedy load of thread t after n files. */
  ghost function GreedyLoad(m: nat, n: nat, t: nat): nat
    requires n <= 2 * m + 1 && t < m
  {
    (if t < n then Size(m, t) else 0) + (if Second(m, t) < n then Size(m, Second(m, t)) else 0) +
    (if n == 2 * m + 1 && t == 0 then m else 0)
  }

  ghost function Greedily(m: nat): (owner: seq<nat>)
    requires m >= 1
    ensures |owner| == 2 * m + 1 && forall i :: 0 <= i < |owner| ==> owner[i] == GreedyOwner(m, i)
  {
    seq(2 * m + 1, i requires 0 <= i < 2 * m + 1 => GreedyOwner(m, i))
  }

  lemma SecondOnce(m: nat, i: nat, t: nat)
    requires m <= i < 2 * m && t < m
    ensures Second(m, t) == i <==> t == GreedyOwner(m, i)
  {
  }

  lemma SecondRange(m: nat, t: nat)
    requires t < m
    ensures m <= Second(m, t) < 2 * m
  {
  }

  lemma {:induction false} GreedyLoadIs(m: nat, n: nat, t: nat)
    requires m >= 1 && n <= 2 * m + 1 && t < m
    ensures Load(Family(m), Greedily(m), n, t) == GreedyLoad(m, n, t)
    decreases n
  {
    hide Second, Size, GreedyOwner;
    SecondRange(m, t);
    if n > 0 {
      GreedyLoadIs(m, n - 1, t);
      var i := n - 1;
      if i < m {
        FirstRound(m, i);
      } else if i < 2 * m {
        SecondOnce(m, i, t);
      } else {
        LastFile(m);
      }
    }
  }

  lemma FirstRound(m: nat, i: nat)
    requires i < m
    ensures GreedyOwner(m, i) == i
  {
  }

  lemma LastFile(m: nat)
    requires m >= 1
    ensures GreedyOwner(m, 2 * m) == 0 && Size(m, 2 * m) == m
  {
  }

  /** Two files of one thread make 3m - 1. */
  lemma TwoFiles(m: nat, t: nat)
    requires t < m
    ensures Second(m, t) < 2 * m && Size(m, t) + Size(m, Second(m, t)) == 3 * m - 1
  {
  }

  /** A thread that still has one file when file i is placed is no better than the chosen one. */
  lemma LaterSecond(m: nat, o: nat, t: nat)
    requires o < m && t < m && Second(m, t) > Second(m, o)
    ensures Size(m, o) < Size(m, t) || (Size(m, o) == Size(m, t) && o < t)
  {
  }

  lemma SizeAtLeast(m: nat, t: nat)
    requires t <= 2 * m && m >= 1
    ensures m <= Size(m, t) <= 2 * m - 1
  {
  }

  lemma GreedyChoice(m: nat, i: nat, t: nat)
    requires m >= 1 && i <= 2 * m && t < m
    ensures var o := GreedyOwner(m, i); Slot(GreedyLoad(m, i, o), o).Leq(Slot(GreedyLoad(m, i, t), t))
  {
    hide Second, Size, GreedyOwner;
    var o := GreedyOwner(m, i);
    SecondRange(m, t);
    SecondRange(m, o);
    TwoFiles(m, t);
    TwoFiles(m, o);
    SizeAtLeast(m, o);
    SizeAtLeast(m, t);
    if i < m {
      FirstRound(m, i);
    } else if i < 2 * m {
      SecondOnce(m, i, o);
      SecondOnce(m, i, t);
      if Second(m, t) > i { LaterSecond(m, o, t); }
    } else {
      LastFile(m);
    }
  }

  // ----- The other plan: every thread carries 3m

  ghost function Partner(m: nat, i: nat): (t: nat)
    requires i <= 2 * m && m >= 1
    ensures t < m
  {
    if i >= 2 * m - 2 then m - 1 else if i < m - 1 then i else 2 * m - 3 - i
  }

  ghost function Evenly(m: nat): (owner: seq<nat>)
    requires m >= 1
    ensures |owner| == 2 * m + 1 && forall i :: 0 <= i < |owner| ==> owner[i] == Partner(m, i)
  {
    seq(2 * m + 1, i requires 0 <= i < 2 * m + 1 => Partner(m, i))
  }

  ghost function EvenLoad(m: nat, n: nat, t: nat): nat
    requires n <= 2 * m + 1 && t < m
  {
    if t == m - 1 then m * (if n <= 2 * m - 2 then 0 else n - (2 * m - 2))
    else (if t < n then Size(m, t) else 0) + (if 2 * m - 3 - t < n then Size(m, 2 * m - 3 - t) else 0)
  }

  lemma {:induction false} EvenLoadIs(m: nat, n: nat, t: nat)
    requires m >= 1 && n <= 2 * m + 1 && t < m
    ensures Load(Family(m), Evenly(m), n, t) == EvenLoad(m, n, t)
    decreases n
  {
    hide Size;
    if n > 0 {
      EvenLoadIs(m, n - 1, t);
      if n - 1 >= 2 * m - 2 {
        LastSizes(m, n - 1);
        MoreOf(m, n - 1 - (2 * m - 2));
      }
    }
  }

  lemma MoreOf(m: nat, k: nat)
    ensures m * (k + 1) == m * k + m
  {
  }

  lemma LastSizes(m: nat, i: nat)
    requires m >= 1 && 2 * m - 2 <= i <= 2 * m
    ensures Size(m, i) == m
  {
  }

  lemma EvenPair(m: nat, t: nat)
    requires m >= 1 && t < m - 1
    ensures Size(m, t) + Size(m, 2 * m - 3 - t) == 3 * m
  {
  }

  /** For every number of threads the greedy assignment of this family reaches the bound: 4m - 1 against 3m. */
  lemma BoundIsAttained(m: nat)
    requires m >= 1
    ensures Descending(Family(m)) && Greedy(Family(m), Greedily(m), m)
    ensures IsAssignment(Evenly(m), m) && LoadsWithin(Family(m), Evenly(m), m, 3 * m)
    ensures Load(Family(m), Greedily(m), 2 * m + 1, 0) == 4 * m - 1
    ensures 3 * m * Load(Family(m), Greedily(m), 2 * m + 1, 0) == (4 * m - 1) * (3 * m)
  {
    hide Size, Second, GreedyOwner, GreedyLoad, EvenLoad, Load;
    var files, owner, alt, n := Family(m), Greedily(m), Evenly(m), 2 * m + 1;
    forall i, j | 0 <= i <= j < |files| ensures files[j].size <= files[i].size {
      SizesFall(m, i, j);
    }
    forall i, t | 0 <= i < |owner| && 0 <= t < m
      ensures Slot(Load(files, owner, i, owner[i]), owner[i]).Leq(Slot(Load(files, owner, i, t), t))
    {
      GreedyLoadIs(m, i, owner[i]);
      GreedyLoadIs(m, i, t);
      GreedyChoice(m, i, t);
    }
    forall t | 0 <= t < m ensures Load(files, alt, n, t) <= 3 * m {
      EvenLoadIs(m, n, t);
      EvenlyFull(m, t);
    }
    GreedyLoadIs(m, 2 * m + 1, 0);
    GreedilyFull(m);
  }

  lemma SizesFall(m: nat, i: nat, j: nat)
    requires m >= 1 && i <= j <= 2 * m
    ensures Size(m, j) <= Size(m, i)
  {
  }

  lemma EvenlyFull(m: nat, t: nat)
    requires m >= 1 && t < m
    ensures EvenLoad(m, 2 * m + 1, t) == 3 * m
  {
    hide Size;
    if t < m - 1 { EvenPair(m, t); }
  }

  lemma GreedilyFull(m: nat)
    requires m >= 1
    ensures GreedyLoad(m, 2 * m + 1, 0) == 4 * m - 1
  {
    hide Size, Second;
    TwoFiles(m, 0);
  }
}
