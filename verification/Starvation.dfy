/**
 Which traces can leave a worker without records: the exact condition on the group sizes, over all random outcomes.
 */
module Starvation {
  import opened Basics
  import opened Splitting

  /** Some group goes to worker w. */
  ghost predicate ServedBy(sizes: seq<nat>, n: nat, w: nat, threads: nat, per: nat, draws: nat -> nat)
    requires n <= |sizes|
  {
    exists g :: 0 <= g < n && TargetOf(sizes, g, threads, per, draws) == w
  }

  ghost predicate AllServed(sizes: seq<nat>, threads: nat, per: nat, draws: nat -> nat) {
    forall w :: 0 <= w < threads ==> ServedBy(sizes, |sizes|, w, threads, per, draws)
  }

  // ----- Served workers are the non-empty ones

  lemma {:induction false} HandedExactly(
    groups: seq<seq<nat>>, n: nat, w: nat, threads: nat, per: nat, draws: nat -> nat
  )
    requires n <= |groups| && forall i :: 0 <= i < |groups| ==> groups[i] != []
    ensures Handed(groups, n, w, threads, per, draws) != [] <==> ServedBy(Sizes(groups), n, w, threads, per, draws)
    decreases n
  {
    hide TargetOf, Sizes;
    if n > 0 {
      HandedExactly(groups, n - 1, w, threads, per, draws);
      var sizes := Sizes(groups);
      if TargetOf(sizes, n - 1, threads, per, draws) == w {
        assert ServedBy(sizes, n, w, threads, per, draws);
      }
    }
  }

  lemma SplitServes(groups: seq<seq<nat>>, threads: nat, per: nat, draws: nat -> nat)
    requires forall i :: 0 <= i < |groups| ==> groups[i] != []
    ensures (forall w :: 0 <= w < threads ==> SplitOf(groups, threads, per, draws)[w] != [])
       <==> AllServed(Sizes(groups), threads, per, draws)
  {
    hide Handed, ServedBy, Sizes;
    forall w | 0 <= w < threads
      ensures SplitOf(groups, threads, per, draws)[w] != []
        <==> ServedBy(Sizes(groups), |groups|, w, threads, per, draws)
    {
      HandedExactly(groups, |groups|, w, threads, per, draws);
    }
  }

  // ----- The lazy run: `rand() % 100` is always 99

  const LAZY: nat -> nat := _ => 99

  lemma LazyNeverMoves(c: Cursor, size: nat, threads: nat, per: nat)
    ensures !Moves(c, size, threads, per, 99)
  {
    if c.lines <= per < size + c.lines {
      QuotientBelow((per - c.lines) * 100, size, 100);
    }
  }

  /** A group that can move the cursor at all does so when zero is drawn. */
  lemma MovesAtZero(c: Cursor, size: nat, threads: nat, per: nat, draw: nat)
    requires Moves(c, size, threads, per, draw)
    ensures Moves(c, size, threads, per, 0)
  {
    hide Share;
  }

  /** The step is the lazy one or the one at zero. */
  lemma TwoSteps(c: Cursor, size: nat, threads: nat, per: nat, draw: nat)
    ensures Moves(c, size, threads, per, draw) ==> After(c, size, threads, per, draw) == After(c, size, threads, per, 0)
    ensures !Moves(c, size, threads, per, draw) ==>
      After(c, size, threads, per, draw) == After(c, size, threads, per, 99)
  {
    hide Share;
    LazyNeverMoves(c, size, threads, per);
    if Moves(c, size, threads, per, draw) { MovesAtZero(c, size, threads, per, draw); }
  }

  predicate NotAhead(a: Cursor, b: Cursor) {
    a.cur < b.cur || (a.cur == b.cur && a.lines <= b.lines)
  }

  lemma StepNotAhead(a: Cursor, b: Cursor, size: nat, threads: nat, per: nat, draw: nat)
    requires NotAhead(a, b) && CursorOk(a, threads, per) && CursorOk(b, threads, per)
    ensures NotAhead(After(a, size, threads, per, 99), After(b, size, threads, per, draw))
  {
    hide Share;
    LazyNeverMoves(a, size, threads, per);
  }

  /** No outcome is ever behind the lazy run. */
  lemma {:induction false} LazyIsLeast(sizes: seq<nat>, g: nat, threads: nat, per: nat, draws: nat -> nat)
    requires g <= |sizes| && Positive(sizes) && threads >= 1
    ensures NotAhead(CursorAt(sizes, g, threads, per, LAZY), CursorAt(sizes, g, threads, per, draws))
    decreases g
  {
    hide After, NotAhead, CursorOk;
    if g == 0 {
      assert NotAhead(Cursor(0, 0), Cursor(0, 0)) by { NotAheadSelf(Cursor(0, 0)); }
    } else {
      LazyIsLeast(sizes, g - 1, threads, per, draws);
      CursorAtOk(sizes, g - 1, threads, per, LAZY);
      CursorAtOk(sizes, g - 1, threads, per, draws);
      StepNotAhead(CursorAt(sizes, g - 1, threads, per, LAZY), CursorAt(sizes, g - 1, threads, per, draws),
                   sizes[g - 1], threads, per, draws(g - 1));
    }
  }

  lemma NotAheadSelf(c: Cursor)
    ensures NotAhead(c, c)
  {
  }

  // ----- Where the groups before and behind the cursor go

  lemma StepForward(c: Cursor, size: nat, threads: nat, per: nat, draw: nat)
    requires size > 0
    ensures var c', w := After(c, size, threads, per, draw), Target(c, size, threads, per, draw);
            c.cur <= w <= c'.cur && (c'.lines == 0 ==> w < c'.cur) && (c'.lines > 0 ==> w == c'.cur)
            && (w > c.cur <==> Moves(c, size, threads, per, draw)) && c'.cur <= w + 1 && w <= c.cur + 1
  {
    hide Share;
  }

  /** Groups before the cursor go no further than its worker, and not to it while it has no lines. */
  lemma {:induction false} TargetsBefore(sizes: seq<nat>, h: nat, g: nat, threads: nat, per: nat, draws: nat -> nat)
    requires h < g <= |sizes| && Positive(sizes)
    ensures TargetOf(sizes, h, threads, per, draws) <= CursorAt(sizes, g, threads, per, draws).cur
    ensures CursorAt(sizes, g, threads, per, draws).lines == 0 ==>
              TargetOf(sizes, h, threads, per, draws) < CursorAt(sizes, g, threads, per, draws).cur
    decreases g
  {
    hide After, Target;
    StepForward(CursorAt(sizes, g - 1, threads, per, draws), sizes[g - 1], threads, per, draws(g - 1));
    if h < g - 1 { TargetsBefore(sizes, h, g - 1, threads, per, draws); }
  }

  /** Groups from the cursor on do not go back. */
  lemma {:induction false} TargetsBehind(sizes: seq<nat>, g: nat, h: nat, threads: nat, per: nat, draws: nat -> nat)
    requires g <= h < |sizes| && Positive(sizes)
    ensures TargetOf(sizes, h, threads, per, draws) >= CursorAt(sizes, h, threads, per, draws).cur
    ensures CursorAt(sizes, h, threads, per, draws).cur >= CursorAt(sizes, g, threads, per, draws).cur
    decreases h
  {
    hide After, Target;
    StepForward(CursorAt(sizes, h, threads, per, draws), sizes[h], threads, per, draws(h));
    if g < h {
      TargetsBehind(sizes, g, h - 1, threads, per, draws);
      StepForward(CursorAt(sizes, h - 1, threads, per, draws), sizes[h - 1], threads, per, draws(h - 1));
    }
  }

  // ----- Skipping a worker

  /** At group g a worker that has nothing yet is passed over. */
  ghost predicate SkipsAt(sizes: seq<nat>, g: nat, threads: nat, per: nat, draws: nat -> nat)
    requires g < |sizes|
  {
    var c := CursorAt(sizes, g, threads, per, draws);
    c.lines == 0 && Moves(c, sizes[g], threads, per, draws(g))
  }

  /** A worker that is passed over stays empty. */
  lemma SkipStarves(sizes: seq<nat>, g: nat, threads: nat, per: nat, draws: nat -> nat)
    requires g < |sizes| && Positive(sizes) && threads >= 1 && SkipsAt(sizes, g, threads, per, draws)
    ensures !AllServed(sizes, threads, per, draws)
  {
    hide After, Target, TargetOf, Moves, CursorAt;
    var w := CursorAt(sizes, g, threads, per, draws).cur;
    CursorAtOk(sizes, g, threads, per, draws);
    forall h | 0 <= h < |sizes| ensures TargetOf(sizes, h, threads, per, draws) != w {
      if h < g {
        TargetsBefore(sizes, h, g, threads, per, draws);
      } else {
        SkipTarget(sizes, g, threads, per, draws);
        if h > g { TargetsBehind(sizes, g + 1, h, threads, per, draws); }
      }
    }
    assert !ServedBy(sizes, |sizes|, w, threads, per, draws);
  }

  lemma SkipTarget(sizes: seq<nat>, g: nat, threads: nat, per: nat, draws: nat -> nat)
    requires g < |sizes| && Positive(sizes) && SkipsAt(sizes, g, threads, per, draws)
    ensures TargetOf(sizes, g, threads, per, draws) > CursorAt(sizes, g, threads, per, draws).cur
    ensures CursorAt(sizes, g + 1, threads, per, draws).cur > CursorAt(sizes, g, threads, per, draws).cur
  {
    hide After, Target, Moves;
    StepForward(CursorAt(sizes, g, threads, per, draws), sizes[g], threads, per, draws(g));
  }

  /** Without a skip every worker the cursor has passed, and a current one with lines, has a group. */
  lemma {:induction false} PassedAreServed(sizes: seq<nat>, g: nat, threads: nat, per: nat, draws: nat -> nat, w: nat)
    requires g <= |sizes| && Positive(sizes) && forall h :: 0 <= h < g ==> !SkipsAt(sizes, h, threads, per, draws)
    requires var c := CursorAt(sizes, g, threads, per, draws); w < c.cur || (w == c.cur && c.lines > 0)
    ensures ServedBy(sizes, g, w, threads, per, draws)
    decreases g
  {
    hide After, Target, Moves;
    assert g > 0;
    var c := CursorAt(sizes, g - 1, threads, per, draws);
    StepForward(c, sizes[g - 1], threads, per, draws(g - 1));
    if TargetOf(sizes, g - 1, threads, per, draws) != w {
      assert !SkipsAt(sizes, g - 1, threads, per, draws);
      PassedAreServed(sizes, g - 1, threads, per, draws, w);
    }
  }

  // ----- The condition on the sizes

  /** Starting from cursor c at group g, some outcomes pass over a worker that has nothing. */
  ghost predicate CanSkip(sizes: seq<nat>, g: nat, c: Cursor, threads: nat, per: nat)
    requires g <= |sizes|
    decreases |sizes| - g
  {
    g < |sizes| &&
    var moves := Moves(c, sizes[g], threads, per, 0);
    || (c.lines == 0 && moves)
    || CanSkip(sizes, g + 1, After(c, sizes[g], threads, per, 99), threads, per)
    || (moves && CanSkip(sizes, g + 1, After(c, sizes[g], threads, per, 0), threads, per))
  }

  /** Taking groups up to `per` records a worker reaches the last worker and leaves something for it. */
  ghost predicate LazyFills(sizes: seq<nat>, threads: nat, per: nat) {
    var end := CursorAt(sizes, |sizes|, threads, per, LAZY);
    end.cur == threads - 1 && end.lines > 0
  }

  ghost predicate Safe(sizes: seq<nat>, threads: nat, per: nat) {
    LazyFills(sizes, threads, per) && !CanSkip(sizes, 0, Cursor(0, 0), threads, per)
  }

  /** Any run stays among the cases that CanSkip looks at. */
  lemma {:induction false} SkipIsFound(sizes: seq<nat>, g: nat, h: nat, threads: nat, per: nat, draws: nat -> nat)
    requires g <= h < |sizes| && SkipsAt(sizes, h, threads, per, draws)
    ensures CanSkip(sizes, g, CursorAt(sizes, g, threads, per, draws), threads, per)
    decreases h - g
  {
    hide After, Moves;
    var c := CursorAt(sizes, g, threads, per, draws);
    if Moves(c, sizes[g], threads, per, draws(g)) { MovesAtZero(c, sizes[g], threads, per, draws(g)); }
    if g < h {
      SkipIsFound(sizes, g + 1, h, threads, per, draws);
      TwoSteps(c, sizes[g], threads, per, draws(g));
    }
  }

  function Redraw(draws: nat -> nat, g: nat, draw: nat): nat -> nat {
    i => if i == g then draw else draws(i)
  }

  /** The cursor depends on earlier draws only. */
  lemma {:induction false} EarlierDraws(
    sizes: seq<nat>, g: nat, threads: nat, per: nat, draws: nat -> nat, h: nat, draw: nat
  )
    requires g <= h && g <= |sizes|
    ensures CursorAt(sizes, g, threads, per, Redraw(draws, h, draw)) == CursorAt(sizes, g, threads, per, draws)
    decreases g
  {
    hide After;
    if g > 0 { EarlierDraws(sizes, g - 1, threads, per, draws, h, draw); }
  }

  lemma RedrawStep(sizes: seq<nat>, g: nat, threads: nat, per: nat, draws: nat -> nat, draw: nat)
    requires g < |sizes|
    ensures var draws' := Redraw(draws, g, draw);
            && draws'(g) == draw
            && CursorAt(sizes, g, threads, per, draws') == CursorAt(sizes, g, threads, per, draws)
            && CursorAt(sizes, g + 1, threads, per, draws')
            == After(CursorAt(sizes, g, threads, per, draws), sizes[g], threads, per, draw)
  {
    hide After;
    EarlierDraws(sizes, g, threads, per, draws, g, draw);
  }

  /** A skip that CanSkip finds happens for some outcomes. */
  lemma {:induction false} SkipHappens(sizes: seq<nat>, g: nat, threads: nat, per: nat, draws: nat -> nat)
    returns (draws': nat -> nat, h: nat)
    requires g <= |sizes| && CanSkip(sizes, g, CursorAt(sizes, g, threads, per, draws), threads, per)
    ensures h < |sizes| && SkipsAt(sizes, h, threads, per, draws')
    decreases |sizes| - g
  {
    hide After, Moves, CursorAt;
    var c := CursorAt(sizes, g, threads, per, draws);
    RedrawStep(sizes, g, threads, per, draws, 0);
    RedrawStep(sizes, g, threads, per, draws, 99);
    if c.lines == 0 && Moves(c, sizes[g], threads, per, 0) {
      draws', h := Redraw(draws, g, 0), g;
    } else if CanSkip(sizes, g + 1, After(c, sizes[g], threads, per, 99), threads, per) {
      draws', h := SkipHappens(sizes, g + 1, threads, per, Redraw(draws, g, 99));
    } else {
      draws', h := SkipHappens(sizes, g + 1, threads, per, Redraw(draws, g, 0));
    }
  }

  lemma SafeServes(sizes: seq<nat>, threads: nat, per: nat, draws: nat -> nat)
    requires Positive(sizes) && threads >= 1 && Safe(sizes, threads, per)
    ensures AllServed(sizes, threads, per, draws)
  {
    hide CursorAt, CanSkip, SkipsAt;
    var n := |sizes|;
    LazyIsLeast(sizes, n, threads, per, draws);
    CursorAtOk(sizes, n, threads, per, draws);
    forall h | 0 <= h < n ensures !SkipsAt(sizes, h, threads, per, draws) {
      if SkipsAt(sizes, h, threads, per, draws) {
        SkipIsFound(sizes, 0, h, threads, per, draws);
        StartAt(sizes, threads, per, draws);
      }
    }
    forall w | 0 <= w < threads ensures ServedBy(sizes, n, w, threads, per, draws) {
      PassedAreServed(sizes, n, threads, per, draws, w);
    }
  }

  lemma StartAt(sizes: seq<nat>, threads: nat, per: nat, draws: nat -> nat)
    ensures CursorAt(sizes, 0, threads, per, draws) == Cursor(0, 0)
  {
  }

  /** If the lazy run does not fill the workers, it leaves the last one empty. */
  lemma LazyStarves(sizes: seq<nat>, threads: nat, per: nat)
    requires Positive(sizes) && threads >= 1 && !LazyFills(sizes, threads, per)
    ensures !AllServed(sizes, threads, per, LAZY)
  {
    hide CursorAt, TargetOf;
    var n := |sizes|;
    CursorAtOk(sizes, n, threads, per, LAZY);
    forall h | 0 <= h < n ensures TargetOf(sizes, h, threads, per, LAZY) != threads - 1 {
      TargetsBefore(sizes, h, n, threads, per, LAZY);
    }
    assert !ServedBy(sizes, n, threads - 1, threads, per, LAZY);
  }

  /**
   The exact condition: no outcome of the random choices leaves a worker empty if and only if taking groups up to the
   quota reaches the last worker and no outcomes pass over a worker that has nothing.
   */
  lemma NoneStarvesExactly(sizes: seq<nat>, threads: nat, per: nat)
    requires Positive(sizes) && threads >= 1
    ensures (forall draws :: AllServed(sizes, threads, per, draws)) <==> Safe(sizes, threads, per)
  {
    hide CanSkip, LazyFills, AllServed, SkipsAt;
    if Safe(sizes, threads, per) {
      forall draws ensures AllServed(sizes, threads, per, draws) {
        SafeServes(sizes, threads, per, draws);
      }
    } else if !LazyFills(sizes, threads, per) {
      LazyStarves(sizes, threads, per);
    } else {
      StartAt(sizes, threads, per, LAZY);
      var draws, h := SkipHappens(sizes, 0, threads, per, LAZY);
      SkipStarves(sizes, h, threads, per, draws);
    }
  }

  /** The same about the split itself. */
  lemma SplitNeverStarvesExactly(groups: seq<seq<nat>>, threads: nat, per: nat)
    requires threads >= 1 && forall i :: 0 <= i < |groups| ==> groups[i] != []
    ensures (forall draws, w :: 0 <= w < threads ==> SplitOf(groups, threads, per, draws)[w] != [])
       <==> Safe(Sizes(groups), threads, per)
  {
    hide Safe, AllServed, SplitOf, Sizes;
    SizesAre(groups);
    NoneStarvesExactly(Sizes(groups), threads, per);
    forall draws
      ensures (forall w :: 0 <= w < threads ==> SplitOf(groups, threads, per, draws)[w] != [])
         <==> AllServed(Sizes(groups), threads, per, draws)
    {
      SplitServes(groups, threads, per, draws);
    }
  }

  // ----- The condition made explicit

  /** A worker without lines can be passed over exactly by a group larger than the quota but not a hundred times it. */
  lemma SkipGuard(cur: nat, size: nat, threads: nat, per: nat)
    ensures Moves(Cursor(cur, 0), size, threads, per, 0) <==> cur != threads - 1 && per < size <= 100 * per
  {
    if per < size {
      QuotientBelow(per * 100, size, 100);
      var q := per * 100 / size;
      if q >= 1 { TimesMonotone(1, q, size); }
      if q == 0 { assert (q + 1) * size == size; }
    }
  }

  /** No group is larger than the quota and at most a hundred times it. */
  ghost predicate NoneOversized(sizes: seq<nat>, per: nat) {
    forall i :: 0 <= i < |sizes| ==> sizes[i] <= per || sizes[i] > 100 * per
  }

  lemma {:induction false} NoneOversizedNeverSkips(sizes: seq<nat>, g: nat, c: Cursor, threads: nat, per: nat)
    requires NoneOversized(sizes, per) && g <= |sizes|
    ensures !CanSkip(sizes, g, c, threads, per)
    decreases |sizes| - g
  {
    hide After, Moves;
    if g < |sizes| {
      NoneOversizedNeverSkips(sizes, g + 1, After(c, sizes[g], threads, per, 99), threads, per);
      NoneOversizedNeverSkips(sizes, g + 1, After(c, sizes[g], threads, per, 0), threads, per);
      SkipGuard(c.cur, sizes[g], threads, per);
      assert c.lines == 0 ==> c == Cursor(c.cur, 0);
    }
  }

  /** Without such groups the workers all get records under every outcome exactly if they do under the lazy one. */
  lemma ModerateSizesExactly(sizes: seq<nat>, threads: nat, per: nat)
    requires Positive(sizes) && threads >= 1 && NoneOversized(sizes, per)
    ensures (forall draws :: AllServed(sizes, threads, per, draws)) <==> LazyFills(sizes, threads, per)
  {
    hide CanSkip, LazyFills, AllServed, NoneOversized;
    NoneStarvesExactly(sizes, threads, per);
    NoneOversizedNeverSkips(sizes, 0, Cursor(0, 0), threads, per);
  }

  /** An oversized group at the front can leave the first of several workers empty, whatever follows. */
  lemma FrontStarves(sizes: seq<nat>, threads: nat, per: nat)
    requires Positive(sizes) && threads >= 2 && sizes != [] && per < sizes[0] <= 100 * per
    ensures !Safe(sizes, threads, per)
  {
    hide Moves, After, LazyFills;
    SkipGuard(0, sizes[0], threads, per);
  }

  ghost function Total(sizes: seq<nat>, n: nat): nat
    requires n <= |sizes|
  {
    if n == 0 then 0 else Total(sizes, n - 1) + sizes[n - 1]
  }

  lemma LazyStepUses(c: Cursor, size: nat, threads: nat, per: nat, most: nat)
    requires CursorOk(c, threads, per) && 0 < size <= most && per >= 1
    ensures var c', k := After(c, size, threads, per, 99), per + most - 1;
            c.cur * k + c.lines + size <= c'.cur * k + c'.lines
  {
    hide Share;
    var k := per + most - 1;
    LazyNeverMoves(c, size, threads, per);
    TimesSum(c.cur, 1, k);
  }

  /** In the lazy run a worker whose turn is over took at most the quota plus the largest group less one record. */
  lemma {:induction false} LazyUses(sizes: seq<nat>, g: nat, threads: nat, per: nat, most: nat)
    requires g <= |sizes| && Positive(sizes) && threads >= 1 && per >= 1
    requires forall i :: 0 <= i < |sizes| ==> sizes[i] <= most
    ensures var c := CursorAt(sizes, g, threads, per, LAZY); Total(sizes, g) <= c.cur * (per + most - 1) + c.lines
    decreases g
  {
    hide After, CursorOk;
    if g > 0 {
      LazyUses(sizes, g - 1, threads, per, most);
      CursorAtOk(sizes, g - 1, threads, per, LAZY);
      LazyStepUses(CursorAt(sizes, g - 1, threads, per, LAZY), sizes[g - 1], threads, per, most);
    }
  }

  /**
   A condition in three numbers: with `most` the largest group, not above the quota, and more records than
   (threads - 1) * (per + most - 1), no outcome leaves a worker empty.
   */
  lemma EnoughRecords(sizes: seq<nat>, threads: nat, per: nat, most: nat)
    requires Positive(sizes) && threads >= 1 && per >= 1
    requires most <= per && forall i :: 0 <= i < |sizes| ==> sizes[i] <= most
    requires (threads - 1) * (per + most - 1) < Total(sizes, |sizes|)
    ensures Safe(sizes, threads, per) && forall draws :: AllServed(sizes, threads, per, draws)
  {
    hide CanSkip, AllServed, CursorAt;
    var n, k := |sizes|, per + most - 1;
    var end := CursorAt(sizes, n, threads, per, LAZY);
    LazyUses(sizes, n, threads, per, most);
    CursorAtOk(sizes, n, threads, per, LAZY);
    if end.cur < threads - 1 {
      TimesMonotone(end.cur + 1, threads - 1, k);
      TimesSum(end.cur, 1, k);
    }
    NoneOversizedNeverSkips(sizes, 0, Cursor(0, 0), threads, per);
    NoneStarvesExactly(sizes, threads, per);
  }

  /** Three records of one address and one of another on two workers: drawing zero leaves the first worker empty. */
  lemma FirstWorkerStarves()
    ensures PerThread(4, 2) == 2 && SplitOf([[0, 1, 2], [3]], 2, 2, _ => 0) == [[], [0, 1, 2, 3]]
    ensures !Safe([3, 1], 2, 2)
  {
    var groups, draws := [[0, 1, 2], [3]], (_: nat) => 0;
    var sizes := Sizes(groups);
    assert sizes == [3, 1];
    FrontStarves(sizes, 2, 2);
    assert CursorAt(sizes, 0, 2, 2, draws) == Cursor(0, 0);
    assert TargetOf(sizes, 0, 2, 2, draws) == 1;
    assert CursorAt(sizes, 1, 2, 2, draws) == Cursor(1, 3);
    assert TargetOf(sizes, 1, 2, 2, draws) == 1;
    forall w: nat | w < 2 ensures Handed(groups, 2, w, 2, 2, draws) == if w == 1 then [0, 1, 2, 3] else [] {
      assert Handed(groups, 0, w, 2, 2, draws) == [];
      assert Handed(groups, 1, w, 2, 2, draws) == if w == 1 then [0, 1, 2] else [];
    }
    assert SplitOf(groups, 2, 2, draws) == [[], [0, 1, 2, 3]];
  }
}
