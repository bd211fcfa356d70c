/** Handing the groups out to the workers, with a random choice at each boundary, and what that keeps of the trace. */
module Splitting {
  import opened Basics
  import opened Traces
  import opened Grouping
  import opened ArraySort

  /** The records of groups lo..hi, one group after the other. */
  ghost function Part(groups: seq<seq<nat>>, lo: nat, hi: nat): seq<nat>
    requires lo <= hi <= |groups|
    decreases hi
  {
    if lo == hi then [] else Part(groups, lo, hi - 1) + groups[hi - 1]
  }

  /** Worker w holds the groups cuts[w]..cuts[w + 1], whole and in order. */
  ghost predicate IsSplit(groups: seq<seq<nat>>, workers: seq<seq<nat>>, cuts: seq<nat>) {
    && |cuts| == |workers| + 1 && cuts[0] == 0 && cuts[|workers|] == |groups|
    && Climbing(cuts, |groups|)
    && forall w :: 0 <= w < |workers| ==> workers[w] == Part(groups, cuts[w], cuts[w + 1])
  }

  ghost predicate Climbing(cuts: seq<nat>, top: nat) {
    && (forall i, j :: 0 <= i < j < |cuts| ==> cuts[i] <= cuts[j])
    && (forall i :: 0 <= i < |cuts| ==> cuts[i] <= top)
  }

  /** Groups lo..hi fill a worker only with the last of them: before it there were fewer than `per` records. */
  ghost predicate Fair(groups: seq<seq<nat>>, lo: nat, hi: nat, per: nat) {
    lo < hi <= |groups| ==>
      var before := |Part(groups, lo, hi - 1)|; before < per || (per == 0 && before == 0)
  }

  // ----- Who gets a group

  /** The current worker and how many records it has been given since its turn began. */
  datatype Cursor = Cursor(cur: nat, lines: nat)

  /** While a later worker remains, the current one has fewer than `per` records. */
  predicate CursorOk(c: Cursor, threads: nat, per: nat) {
    c.cur < threads && (c.cur != threads - 1 ==> c.lines < per || (per == 0 && c.lines == 0))
  }

  /** What is missing of `per`, as a percentage of the group. */
  function Share(per: nat, lines: nat, size: nat): nat
    requires lines <= per < size + lines
  {
    (per - lines) * 100 / size
  }

  /** The next worker starts with this group: the group overshoots and the drawn percentage is below the share. */
  predicate Moves(c: Cursor, size: nat, threads: nat, per: nat, draw: nat) {
    c.cur != threads - 1 && c.lines <= per < size + c.lines && draw % 100 < Share(per, c.lines, size)
  }

  /** The worker that gets the group. */
  function Target(c: Cursor, size: nat, threads: nat, per: nat, draw: nat): nat {
    if Moves(c, size, threads, per, draw) then c.cur + 1 else c.cur
  }

  /** Where the hand-out stands after the group: a full worker's turn is over unless it is the last. */
  function After(c: Cursor, size: nat, threads: nat, per: nat, draw: nat): Cursor {
    var t := Target(c, size, threads, per, draw);
    var lines := (if t == c.cur then c.lines else 0) + size;
    if t != threads - 1 && lines >= per then Cursor(t + 1, 0) else Cursor(t, lines)
  }

  /** The cursor before group g, when draws(i) is what `rand()` gives if it is called for group i. */
  ghost function CursorAt(sizes: seq<nat>, g: nat, threads: nat, per: nat, draws: nat -> nat): Cursor
    requires g <= |sizes|
  {
    if g == 0 then Cursor(0, 0)
    else After(CursorAt(sizes, g - 1, threads, per, draws), sizes[g - 1], threads, per, draws(g - 1))
  }

  /** The worker that gets group g. */
  ghost function TargetOf(sizes: seq<nat>, g: nat, threads: nat, per: nat, draws: nat -> nat): nat
    requires g < |sizes|
  {
    Target(CursorAt(sizes, g, threads, per, draws), sizes[g], threads, per, draws(g))
  }

  ghost function Sizes(groups: seq<seq<nat>>): (sizes: seq<nat>)
    ensures |sizes| == |groups|
  {
    seq(|groups|, i requires 0 <= i < |groups| => |groups[i]|)
  }

  /** The records of those among the first n groups that worker w gets. */
  ghost function Handed(groups: seq<seq<nat>>, n: nat, w: nat, threads: nat, per: nat, draws: nat -> nat): seq<nat>
    requires n <= |groups|
  {
    if n == 0 then []
    else
      Handed(groups, n - 1, w, threads, per, draws) +
      (if TargetOf(Sizes(groups), n - 1, threads, per, draws) == w then groups[n - 1] else [])
  }

  ghost function HandedAll(
    groups: seq<seq<nat>>, n: nat, threads: nat, per: nat, draws: nat -> nat
  ): (ws: seq<seq<nat>>)
    requires n <= |groups|
    ensures |ws| == threads
  {
    seq(threads, w requires 0 <= w < threads => Handed(groups, n, w, threads, per, draws))
  }

  /** The whole split, for every outcome of the random choices. */
  ghost function SplitOf(groups: seq<seq<nat>>, threads: nat, per: nat, draws: nat -> nat): (ws: seq<seq<nat>>)
    ensures |ws| == threads
  {
    HandedAll(groups, |groups|, threads, per, draws)
  }

  lemma AfterOk(c: Cursor, size: nat, threads: nat, per: nat, draw: nat)
    requires CursorOk(c, threads, per) && size > 0
    ensures CursorOk(After(c, size, threads, per, draw), threads, per)
    ensures Target(c, size, threads, per, draw) < threads
  {
    hide Share;
  }

  ghost predicate Positive(sizes: seq<nat>) {
    forall i :: 0 <= i < |sizes| ==> sizes[i] > 0
  }

  lemma {:induction false} CursorAtOk(sizes: seq<nat>, g: nat, threads: nat, per: nat, draws: nat -> nat)
    requires g <= |sizes| && Positive(sizes) && threads >= 1
    ensures CursorOk(CursorAt(sizes, g, threads, per, draws), threads, per)
    ensures g < |sizes| ==> TargetOf(sizes, g, threads, per, draws) < threads
    decreases g
  {
    hide After, Target;
    if g > 0 {
      CursorAtOk(sizes, g - 1, threads, per, draws);
      AfterOk(CursorAt(sizes, g - 1, threads, per, draws), sizes[g - 1], threads, per, draws(g - 1));
    }
    if g < |sizes| {
      AfterOk(CursorAt(sizes, g, threads, per, draws), sizes[g], threads, per, draws(g));
    }
  }

  lemma HandedStep(groups: seq<seq<nat>>, g: nat, threads: nat, per: nat, draws: nat -> nat)
    requires g < |groups| && Positive(Sizes(groups)) && threads >= 1
    ensures var before, w := HandedAll(groups, g, threads, per, draws), TargetOf(Sizes(groups), g, threads, per, draws);
            w < threads && HandedAll(groups, g + 1, threads, per, draws) == before[w := before[w] + groups[g]]
  {
    hide TargetOf, CursorAt, Sizes;
    CursorAtOk(Sizes(groups), g, threads, per, draws);
    var w := TargetOf(Sizes(groups), g, threads, per, draws);
    var before, after := HandedAll(groups, g, threads, per, draws), HandedAll(groups, g + 1, threads, per, draws);
    forall v | 0 <= v < threads ensures after[v] == before[w := before[w] + groups[g]][v] {
      assert after[v] == before[v] + (if w == v then groups[g] else []);
    }
  }

  lemma HandedNone(groups: seq<seq<nat>>, threads: nat, per: nat, draws: nat -> nat)
    ensures HandedAll(groups, 0, threads, per, draws) == seq(threads, _ => [])
  {
  }

  function PerThread(validLines: nat, threads: nat): (per: nat)
    requires threads >= 1
    ensures threads * per <= validLines < threads * per + threads
  {
    QuotientIs(validLines, threads);
    validLines / threads
  }

  lemma QuotientIs(a: nat, b: nat)
    requires b >= 1
    ensures a / b >= 0 && b * (a / b) <= a < b * (a / b) + b
  {
    assert a == b * (a / b) + a % b;
  }

  // ----- Turns

  /**
   A later worker remains, the group overshoots the quota, and the drawn percentage d, 0 to 99, is below the percentage
   that the missing records are of the group: d + 1 hundredths of the group are no more than what is missing.
   */
  predicate DrawMovesOn(c: Cursor, size: nat, threads: nat, per: nat, draw: nat) {
    c.cur + 1 < threads && size + c.lines > per && (draw % 100 + 1) * size <= (per - c.lines) * 100
  }

  /** The next worker starts with a group exactly in that case. */
  lemma MovesExactly(c: Cursor, size: nat, threads: nat, per: nat, draw: nat)
    requires CursorOk(c, threads, per)
    ensures Target(c, size, threads, per, draw) == if DrawMovesOn(c, size, threads, per, draw) then c.cur + 1 else c.cur
  {
    if c.cur + 1 < threads && size + c.lines > per {
      QuotientAtLeast((per - c.lines) * 100, size, draw % 100 + 1);
    }
  }

  lemma QuotientAtLeast(a: nat, b: nat, k: nat)
    requires b > 0
    ensures k <= a / b <==> k * b <= a
  {
    QuotientIs(a, b);
    if k <= a / b { TimesMonotone(k, a / b, b); }
    if k > a / b {
      TimesMonotone(a / b + 1, k, b);
      TimesSum(a / b, 1, b);
    }
  }

  /** How many of n draws, the numbers from `from` on, move on. */
  ghost function MovingDraws(c: Cursor, size: nat, threads: nat, per: nat, from: nat, n: nat): nat {
    if n == 0 then 0
    else
      MovingDraws(c, size, threads, per, from, n - 1) +
      (if Target(c, size, threads, per, from + n - 1) == c.cur + 1 then 1 else 0)
  }

  /** Exactly floor(100 * missing / size) of any hundred consecutive numbers do. */
  lemma HundredDraws(c: Cursor, size: nat, threads: nat, per: nat, from: nat)
    requires CursorOk(c, threads, per) && c.cur + 1 < threads && size + c.lines > per
    ensures var p := MovingDraws(c, size, threads, per, from, 100);
            p * size <= (per - c.lines) * 100 < (p + 1) * size
  {
    hide MovingDraws;
    var p := Share(per, c.lines, size);
    QuotientBelow((per - c.lines) * 100, size, 100);
    CountedDraws(c, size, threads, per, from, 100, p);
    AnyHundred(from, p);
  }

  /** How many of the n numbers from `from` on are below p modulo 100. */
  ghost function Residues(from: nat, n: nat, p: nat): nat {
    if n == 0 then 0 else Residues(from, n - 1, p) + (if (from + n - 1) % 100 < p then 1 else 0)
  }

  lemma {:induction false} CountedDraws(c: Cursor, size: nat, threads: nat, per: nat, from: nat, n: nat, p: nat)
    requires CursorOk(c, threads, per) && c.cur + 1 < threads && size + c.lines > per && p == Share(per, c.lines, size)
    ensures MovingDraws(c, size, threads, per, from, n) == Residues(from, n, p)
    decreases n
  {
    hide Share;
    if n > 0 { CountedDraws(c, size, threads, per, from, n - 1, p); }
  }

  lemma {:induction false} FirstResidues(n: nat, p: nat)
    requires n <= 100
    ensures Residues(0, n, p) == if n < p then n else p
    decreases n
  {
    if n > 0 { FirstResidues(n - 1, p); }
  }

  /** Dropping the first number and adding one behind. */
  lemma {:induction false} ShiftedResidues(from: nat, n: nat, p: nat)
    ensures Residues(from, n + 1, p) == (if from % 100 < p then 1 else 0) + Residues(from + 1, n, p)
    decreases n
  {
    if n > 0 { ShiftedResidues(from, n - 1, p); }
  }

  lemma {:induction false} AnyHundred(from: nat, p: nat)
    requires p <= 100
    ensures Residues(from, 100, p) == p
    decreases from
  {
    if from == 0 {
      FirstResidues(100, p);
    } else {
      AnyHundred(from - 1, p);
      ShiftedResidues(from - 1, 100, p);
      HundredLater(from - 1, p);
    }
  }

  lemma HundredLater(from: nat, p: nat)
    ensures Residues(from, 101, p) == Residues(from, 100, p) + (if from % 100 < p then 1 else 0)
  {
    assert (from + 100) % 100 == from % 100;
  }

  /**
   A turn ends exactly when the draw moves on or the worker's records reach the quota, and never for the last worker.
   Records are counted anew after each end.
   */
  lemma TurnEndsExactly(c: Cursor, size: nat, threads: nat, per: nat, draw: nat)
    requires CursorOk(c, threads, per) && size > 0
    ensures var c', moves := After(c, size, threads, per, draw), DrawMovesOn(c, size, threads, per, draw);
            && (c'.cur == c.cur <==> c.cur + 1 == threads || (!moves && c.lines + size < per))
            && (c'.cur == c.cur ==> c'.lines == c.lines + size)
            && (c'.cur == c.cur + 1 && moves ==> c'.lines == size)
            && (c'.cur == c.cur + 1 && !moves ==> c'.lines == 0)
            && (c'.cur >= c.cur + 2 <==> moves && size >= per && c.cur + 2 < threads)
            && (c'.cur >= c.cur + 2 ==> c'.cur == c.cur + 2 && c'.lines == 0)
  {
    hide Share, DrawMovesOn;
    MovesExactly(c, size, threads, per, draw);
    if DrawMovesOn(c, size, threads, per, draw) { MovesInside(c, size, threads, per, draw); }
  }

  lemma MovesInside(c: Cursor, size: nat, threads: nat, per: nat, draw: nat)
    requires DrawMovesOn(c, size, threads, per, draw)
    ensures c.cur + 1 < threads
  {
  }

  /**
   The hand-out by itself: turns[g] is where it stands before group g, the group goes to the current worker, or to the
   next if the draw moves on, and a worker whose records reach the quota is done unless it is the last.
   */
  ghost predicate HandedOut(
    groups: seq<seq<nat>>, threads: nat, per: nat, draws: nat -> nat, turns: seq<Cursor>, workers: seq<seq<nat>>
  ) {
    && |turns| == |groups| + 1 && turns[0] == Cursor(0, 0) && |workers| == threads
    && (forall g, h :: 0 <= g < h < |turns| && h == g + 1 ==>
          TurnRule(turns[g], |groups[g]|, threads, per, draws(g), turns[h]))
    && (forall w :: 0 <= w < threads ==> workers[w] == Gathered(groups, threads, per, draws, turns, w, |groups|))
  }

  predicate TurnRule(c: Cursor, size: nat, threads: nat, per: nat, draw: nat, c': Cursor) {
    var moves := DrawMovesOn(c, size, threads, per, draw);
    var w, lines := if moves then c.cur + 1 else c.cur, if moves then size else c.lines + size;
    c' == if w + 1 < threads && lines >= per then Cursor(w + 1, 0) else Cursor(w, lines)
  }

  /** The groups that worker w gets among the first n, one after the other. */
  ghost function Gathered(
    groups: seq<seq<nat>>, threads: nat, per: nat, draws: nat -> nat, turns: seq<Cursor>, w: nat, n: nat
  ): seq<nat>
    requires n <= |groups| && |turns| == |groups| + 1
  {
    if n == 0 then []
    else
      var c := turns[n - 1];
      var moves := DrawMovesOn(c, |groups[n - 1]|, threads, per, draws(n - 1));
      Gathered(groups, threads, per, draws, turns, w, n - 1) +
      (if w == (if moves then c.cur + 1 else c.cur) then groups[n - 1] else [])
  }

  lemma {:induction false} HandedIsGathered(
    groups: seq<seq<nat>>, threads: nat, per: nat, draws: nat -> nat, turns: seq<Cursor>, w: nat, n: nat
  )
    requires threads >= 1 && n <= |groups| && |turns| == |groups| + 1 && Positive(Sizes(groups))
    requires forall g :: 0 <= g < |turns| ==> turns[g] == CursorAt(Sizes(groups), g, threads, per, draws)
    ensures Gathered(groups, threads, per, draws, turns, w, n) == Handed(groups, n, w, threads, per, draws)
    decreases n
  {
    hide DrawMovesOn, CursorAt, Target;
    if n > 0 {
      HandedIsGathered(groups, threads, per, draws, turns, w, n - 1);
      CursorAtOk(Sizes(groups), n - 1, threads, per, draws);
      MovesExactly(turns[n - 1], |groups[n - 1]|, threads, per, draws(n - 1));
    }
  }

  lemma AfterIsTurn(c: Cursor, size: nat, threads: nat, per: nat, draw: nat)
    requires CursorOk(c, threads, per)
    ensures TurnRule(c, size, threads, per, draw, After(c, size, threads, per, draw))
  {
    hide DrawMovesOn, Moves;
    MovesExactly(c, size, threads, per, draw);
    if DrawMovesOn(c, size, threads, per, draw) { MovesInside(c, size, threads, per, draw); }
  }

  /** The split is what these rules hand out. */
  lemma SplitIsHandedOut(groups: seq<seq<nat>>, threads: nat, per: nat, draws: nat -> nat) returns (turns: seq<Cursor>)
    requires threads >= 1 && forall i :: 0 <= i < |groups| ==> groups[i] != []
    ensures HandedOut(groups, threads, per, draws, turns, SplitOf(groups, threads, per, draws))
  {
    hide DrawMovesOn, After, TurnRule, Handed, Gathered;
    var sizes := Sizes(groups);
    SizesAre(groups);
    turns := seq(|groups| + 1, g requires 0 <= g <= |groups| => CursorAt(sizes, g, threads, per, draws));
    forall g, h | 0 <= g < h < |turns| && h == g + 1
      ensures TurnRule(turns[g], |groups[g]|, threads, per, draws(g), turns[h])
    {
      CursorAtOk(sizes, g, threads, per, draws);
      AfterIsTurn(turns[g], sizes[g], threads, per, draws(g));
    }
    forall w | 0 <= w < threads
      ensures SplitOf(groups, threads, per, draws)[w] == Gathered(groups, threads, per, draws, turns, w, |groups|)
    {
      HandedIsGathered(groups, threads, per, draws, turns, w, |groups|);
    }
  }

  // ----- The loop

  /**
   Gives each worker about `validLines / threads` records, a whole group at a time. Where a group overshoots, the
   outcome of `rand()` decides whether the next worker starts with it.
   */
  method SplitGroups(groups: seq<seq<nat>>, threads: nat, validLines: nat, draws: nat -> nat)
    returns (workers: seq<seq<nat>>, ghost turns: seq<Cursor>)
    requires threads >= 1 && forall i :: 0 <= i < |groups| ==> groups[i] != []
    ensures workers == SplitOf(groups, threads, PerThread(validLines, threads), draws)
    ensures HandedOut(groups, threads, PerThread(validLines, threads), draws, turns, workers)
  {
    hide HandedAll, Sizes, Share, PerThread, Positive, HandedOut, DrawMovesOn;
    turns := SplitIsHandedOut(groups, threads, PerThread(validLines, threads), draws);
    var per := PerThread(validLines, threads);
    ghost var sizes := Sizes(groups);
    SizesAre(groups);
    var cur: nat, lines: nat := 0, 0;
    workers := seq(threads, _ => []);
    HandedNone(groups, threads, per, draws);
    for g := 0 to |groups|
      invariant workers == HandedAll(groups, g, threads, per, draws)
      invariant Cursor(cur, lines) == CursorAt(sizes, g, threads, per, draws)
    {
      CursorAtOk(sizes, g, threads, per, draws);
      HandedStep(groups, g, threads, per, draws);
      var size := |groups[g]|;
      assert sizes[g] == size;
      if cur != threads - 1 {
        if size + lines > per {
          var probability := Percentage(per, lines, size);
          if draws(g) % 100 < probability {
            cur, lines := cur + 1, 0;
          }
        }
      }
      assert cur == TargetOf(sizes, g, threads, per, draws);
      workers := workers[cur := workers[cur] + groups[g]];
      lines := lines + size;
      if cur != threads - 1 {
        if lines >= per {
          cur, lines := cur + 1, 0;
        }
      }
    }
  }

  lemma SizesAre(groups: seq<seq<nat>>)
    requires forall i :: 0 <= i < |groups| ==> groups[i] != []
    ensures Positive(Sizes(groups)) && forall i :: 0 <= i < |groups| ==> Sizes(groups)[i] == |groups[i]|
  {
  }

  /** The subtraction does not underflow and the result is a percentage below 100. */
  method Percentage(per: nat, lines: nat, size: nat) returns (p: nat)
    requires lines <= per < size + lines
    ensures p == Share(per, lines, size)
    ensures p < 100 && p * size <= (per - lines) * 100 < (p + 1) * size
  {
    p := (per - lines) * 100 / size;
    QuotientBelow((per - lines) * 100, size, 100);
  }

  lemma QuotientBelow(a: nat, b: nat, c: nat)
    requires a < c * b
    ensures b > 0 && a / b < c && a / b * b <= a < (a / b + 1) * b
  {
    assert b > 0;
    var q := a / b;
    assert a == q * b + a % b;
    TimesSum(q, 1, b);
    if q >= c {
      TimesMonotone(c, q, b);
    }
  }

  // ----- Workers hold consecutive groups

  ghost predicate Handing(groups: seq<seq<nat>>, g: nat, workers: seq<seq<nat>>, cuts: seq<nat>, c: Cursor, per: nat) {
    && g <= |groups| && c.cur < |workers| && |cuts| == c.cur + 1 && cuts[0] == 0 && Climbing(cuts, g)
    && (forall w :: 0 <= w < c.cur ==>
          workers[w] == Part(groups, cuts[w], cuts[w + 1]) && Fair(groups, cuts[w], cuts[w + 1], per))
    && workers[c.cur] == Part(groups, cuts[c.cur], g) && c.lines == |workers[c.cur]|
    && (forall w :: c.cur < w < |workers| ==> workers[w] == [])
    && (c.cur != |workers| - 1 ==> Fair(groups, cuts[c.cur], g, per))
  }

  /** Moving on to the next worker. */
  lemma HandingAdvance(groups: seq<seq<nat>>, g: nat, workers: seq<seq<nat>>, cuts: seq<nat>, c: Cursor, per: nat)
    requires Handing(groups, g, workers, cuts, c, per) && c.cur != |workers| - 1
    ensures Handing(groups, g, workers, cuts + [g], Cursor(c.cur + 1, 0), per)
  {
    hide Part;
    PartNone(groups, g);
    var cuts' := cuts + [g];
    forall w | 0 <= w < c.cur + 1
      ensures workers[w] == Part(groups, cuts'[w], cuts'[w + 1]) && Fair(groups, cuts'[w], cuts'[w + 1], per)
    {
      if w < c.cur {
        assert cuts'[w] == cuts[w] && cuts'[w + 1] == cuts[w + 1];
      } else {
        assert cuts'[w] == cuts[c.cur] && cuts'[w + 1] == g;
      }
    }
  }

  /** Giving the current worker one more group. */
  lemma HandingAdd(groups: seq<seq<nat>>, g: nat, workers: seq<seq<nat>>, cuts: seq<nat>, c: Cursor, per: nat)
    requires Handing(groups, g, workers, cuts, c, per) && g < |groups| && CursorOk(c, |workers|, per)
    ensures var workers', c' := workers[c.cur := workers[c.cur] + groups[g]], Cursor(c.cur, c.lines + |groups[g]|);
            Handing(groups, g + 1, workers', cuts, c', per)
  {
    hide Part;
    PartNext(groups, cuts[c.cur], g);
  }

  lemma PartNone(groups: seq<seq<nat>>, g: nat)
    requires g <= |groups|
    ensures Part(groups, g, g) == []
  {
  }

  lemma PartNext(groups: seq<seq<nat>>, lo: nat, hi: nat)
    requires lo <= hi < |groups|
    ensures Part(groups, lo, hi + 1) == Part(groups, lo, hi) + groups[hi]
  {
  }

  lemma HandingStart(groups: seq<seq<nat>>, workers: seq<seq<nat>>, per: nat)
    requires workers != [] && forall w :: 0 <= w < |workers| ==> workers[w] == []
    ensures Handing(groups, 0, workers, [0], Cursor(0, 0), per)
  {
  }

  /** One group handed out: at most one boundary before it and one behind it. */
  lemma HandingStep(
    groups: seq<seq<nat>>, g: nat, workers: seq<seq<nat>>, cuts: seq<nat>, c: Cursor, per: nat, draw: nat
  )
    returns (cuts': seq<nat>)
    requires Handing(groups, g, workers, cuts, c, per) && g < |groups| && CursorOk(c, |workers|, per) && groups[g] != []
    ensures var size, threads := |groups[g]|, |workers|;
            var w := Target(c, size, threads, per, draw);
            var c' := After(c, size, threads, per, draw);
            && w < threads && c'.cur < threads
            && Handing(groups, g + 1, workers[w := workers[w] + groups[g]], cuts', c', per)
  {
    hide Handing, Share;
    var size, threads := |groups[g]|, |workers|;
    var w, cuts1, c1 := Target(c, size, threads, per, draw), cuts, c;
    AfterOk(c, size, threads, per, draw);
    if w != c.cur {
      HandingAdvance(groups, g, workers, cuts, c, per);
      cuts1, c1 := cuts + [g], Cursor(w, 0);
    }
    HandingAdd(groups, g, workers, cuts1, c1, per);
    var workers', c2 := workers[w := workers[w] + groups[g]], Cursor(w, c1.lines + size);
    cuts' := cuts1;
    if w != threads - 1 && c2.lines >= per {
      HandingAdvance(groups, g + 1, workers', cuts1, c2, per);
      cuts' := cuts1 + [g + 1];
    }
  }

  lemma {:induction false} HandingAt(groups: seq<seq<nat>>, g: nat, threads: nat, per: nat, draws: nat -> nat)
    returns (cuts: seq<nat>)
    requires g <= |groups| && threads >= 1 && forall i :: 0 <= i < |groups| ==> groups[i] != []
    ensures Handing(groups, g, HandedAll(groups, g, threads, per, draws), cuts,
                    CursorAt(Sizes(groups), g, threads, per, draws), per)
    decreases g
  {
    hide Handing, HandedAll, After, Target, Sizes;
    SizesAre(groups);
    if g == 0 {
      cuts := [0];
      HandedNone(groups, threads, per, draws);
      HandingStart(groups, HandedAll(groups, 0, threads, per, draws), per);
    } else {
      var cuts0 := HandingAt(groups, g - 1, threads, per, draws);
      var ws, c := HandedAll(groups, g - 1, threads, per, draws), CursorAt(Sizes(groups), g - 1, threads, per, draws);
      CursorAtOk(Sizes(groups), g - 1, threads, per, draws);
      HandedStep(groups, g - 1, threads, per, draws);
      cuts := HandingStep(groups, g - 1, ws, cuts0, c, per, draws(g - 1));
    }
  }

  /**
   For every outcome: workers hold consecutive whole groups, and all but the last fill up only with their last group.
   */
  lemma SplitIsFair(groups: seq<seq<nat>>, threads: nat, per: nat, draws: nat -> nat) returns (cuts: seq<nat>)
    requires threads >= 1 && forall i :: 0 <= i < |groups| ==> groups[i] != []
    ensures IsSplit(groups, SplitOf(groups, threads, per, draws), cuts) && |cuts| == threads + 1
    ensures forall w :: 0 <= w < threads - 1 ==> Fair(groups, cuts[w], cuts[w + 1], per)
  {
    hide Handing, HandedAll, CursorAt, Fair, Part, Climbing;
    var n, workers := |groups|, SplitOf(groups, threads, per, draws);
    var c := CursorAt(Sizes(groups), n, threads, per, draws);
    var cuts0 := HandingAt(groups, n, threads, per, draws);
    SizesAre(groups);
    CursorAtOk(Sizes(groups), n, threads, per, draws);
    var idle := seq(threads - c.cur, _ => n);
    HandingEnd(groups, workers, cuts0, c, per, idle);
    cuts := cuts0 + idle;
  }

  /** Workers that never got a turn hold nothing. */
  lemma HandingEnd(groups: seq<seq<nat>>, workers: seq<seq<nat>>, cuts: seq<nat>, c: Cursor, per: nat, idle: seq<nat>)
    requires Handing(groups, |groups|, workers, cuts, c, per)
    requires |idle| == |workers| - c.cur && forall i :: 0 <= i < |idle| ==> idle[i] == |groups|
    ensures IsSplit(groups, workers, cuts + idle)
    ensures forall w :: 0 <= w < |workers| - 1 ==> Fair(groups, (cuts + idle)[w], (cuts + idle)[w + 1], per)
  {
    hide Part;
    var all := cuts + idle;
    PartNone(groups, |groups|);
    assert forall i :: 0 <= i <= c.cur ==> all[i] == cuts[i];
    assert forall i :: c.cur < i < |all| ==> all[i] == |groups|;
    forall w | 0 <= w < |workers| ensures workers[w] == Part(groups, all[w], all[w + 1]) {
      if w > c.cur {
        assert all[w] == |groups| && all[w + 1] == |groups|;
      }
    }
  }

  // ----- What the split keeps

  /**
   No record is lost, duplicated or reordered across workers: laid end to end, the workers are the groups laid end to
   end.
   */
  lemma {:induction false} SplitConserves(groups: seq<seq<nat>>, workers: seq<seq<nat>>, cuts: seq<nat>, w: nat)
    requires IsSplit(groups, workers, cuts) && w <= |workers|
    ensures Part(workers, 0, w) == Part(groups, 0, cuts[w])
    decreases w
  {
    if w > 0 {
      SplitConserves(groups, workers, cuts, w - 1);
      assert cuts[w - 1] <= cuts[w];
      PartJoin(groups, 0, cuts[w - 1], cuts[w]);
    }
  }

  lemma {:induction false} PartJoin(groups: seq<seq<nat>>, a: nat, b: nat, c: nat)
    requires a <= b <= c <= |groups|
    ensures Part(groups, a, c) == Part(groups, a, b) + Part(groups, b, c)
    decreases c
  {
    if b < c { PartJoin(groups, a, b, c - 1); }
  }

  lemma {:induction false} PartElement(groups: seq<seq<nat>>, lo: nat, hi: nat, p: nat) returns (g: nat)
    requires lo <= hi <= |groups| && p in Part(groups, lo, hi)
    ensures lo <= g < hi && p in groups[g]
    decreases hi
  {
    if p in groups[hi - 1] { g := hi - 1; } else { g := PartElement(groups, lo, hi - 1, p); }
  }

  lemma {:induction false} PartCovers(groups: seq<seq<nat>>, lo: nat, hi: nat, g: nat, p: nat)
    requires lo <= g < hi <= |groups| && p in groups[g]
    ensures p in Part(groups, lo, hi)
    decreases hi
  {
    if g < hi - 1 { PartCovers(groups, lo, hi - 1, g, p); }
  }

  lemma {:induction false} PartInTrace(trace: seq<TraceInfo>, groups: seq<seq<nat>>, lo: nat, hi: nat)
    requires lo <= hi <= |groups| && Partitioned(trace, groups)
    ensures InTrace(trace, Part(groups, lo, hi))
    decreases hi
  {
    if lo < hi {
      PartInTrace(trace, groups, lo, hi - 1);
      assert OneAddress(trace, groups[hi - 1]);
    }
  }

  /** Records of one address keep their trace order inside a worker. */
  ghost predicate TraceOrder(trace: seq<TraceInfo>, s: seq<nat>)
    requires InTrace(trace, s)
  {
    forall i, j :: 0 <= i < j < |s| && trace[s[i]].lba == trace[s[j]].lba ==> s[i] < s[j]
  }

  lemma {:induction false} PartOrder(trace: seq<TraceInfo>, groups: seq<seq<nat>>, lo: nat, hi: nat)
    requires lo <= hi <= |groups| && Partitioned(trace, groups)
    ensures InTrace(trace, Part(groups, lo, hi)) && TraceOrder(trace, Part(groups, lo, hi))
    decreases hi
  {
    PartInTrace(trace, groups, lo, hi);
    if lo < hi {
      PartOrder(trace, groups, lo, hi - 1);
      var s, g, r := Part(groups, lo, hi - 1), groups[hi - 1], Part(groups, lo, hi);
      assert OneAddress(trace, g);
      forall i, j | 0 <= i < j < |r| && trace[r[i]].lba == trace[r[j]].lba ensures r[i] < r[j] {
        if j >= |s| {
          assert r[j] == g[j - |s|];
          if i < |s| {
            assert r[i] == s[i];
            OtherGroup(trace, groups, lo, hi - 1, hi - 1, s[i]);
          } else {
            assert r[i] == g[i - |s|];
          }
        }
      }
    }
  }

  /** A record of an earlier group has another address than the records of group g. */
  lemma OtherGroup(trace: seq<TraceInfo>, groups: seq<seq<nat>>, lo: nat, hi: nat, g: nat, p: nat)
    requires Partitioned(trace, groups) && lo <= hi <= g < |groups| && p in Part(groups, lo, hi)
    ensures p < |trace| && OneAddress(trace, groups[g]) && trace[p].lba != Lba(trace, groups[g])
  {
    var h := PartElement(groups, lo, hi, p);
    assert OneAddress(trace, groups[h]) && OneAddress(trace, groups[g]);
    var k :| 0 <= k < |groups[h]| && groups[h][k] == p;
    assert trace[p].lba == Lba(trace, groups[h]);
  }

  /**
   A worker other than the last stays below `per_thread_lines` plus its last group exactly when there are at least as
   many records as workers; otherwise `per_thread_lines` is zero and its one group already reaches that sum.
   */
  lemma StaysBelow(groups: seq<seq<nat>>, lo: nat, hi: nat, validLines: nat, threads: nat)
    requires threads >= 1 && lo < hi <= |groups| && Fair(groups, lo, hi, PerThread(validLines, threads))
    ensures |Part(groups, lo, hi)| < PerThread(validLines, threads) + |groups[hi - 1]| <==> validLines >= threads
  {
    hide Part;
    PartNext(groups, lo, hi - 1);
    QuotientPositive(validLines, threads);
  }

  lemma QuotientPositive(a: nat, b: nat)
    requires b >= 1
    ensures PerThread(a, b) > 0 <==> a >= b
  {
    assert a == a / b * b + a % b;
    if a / b >= 1 { TimesMonotone(1, a / b, b); }
  }

  /** One record for two workers: the first worker's single record is not fewer than zero plus its group. */
  lemma TooFewRecords(draws: nat -> nat)
    ensures PerThread(1, 2) == 0 && SplitOf([[0]], 2, 0, draws) == [[0], []]
    ensures |SplitOf([[0]], 2, 0, draws)[0]| == PerThread(1, 2) + |[[0]][0]|
  {
    var groups := [[0]];
    var sizes := Sizes(groups);
    assert CursorAt(sizes, 0, 2, 0, draws) == Cursor(0, 0);
    assert TargetOf(sizes, 0, 2, 0, draws) == 0;
    assert forall w :: Handed(groups, 0, w, 2, 0, draws) == [];
    assert Handed(groups, 1, 0, 2, 0, draws) == [0] && Handed(groups, 1, 1, 2, 0, draws) == [];
  }

  /** Workers can only all have records if there are at least as many addresses as workers. */
  lemma {:induction false} NonEmptyNeedsGroups(groups: seq<seq<nat>>, workers: seq<seq<nat>>, cuts: seq<nat>, w: nat)
    requires IsSplit(groups, workers, cuts) && w <= |workers|
    requires forall v :: 0 <= v < |workers| ==> workers[v] != []
    ensures w <= cuts[w] <= |groups|
    decreases w
  {
    if w > 0 {
      NonEmptyNeedsGroups(groups, workers, cuts, w - 1);
      assert workers[w - 1] == Part(groups, cuts[w - 1], cuts[w]);
      PartNone(groups, cuts[w]);
    }
  }

  // ----- Every block's history survives parallelisation

  /** Records of one address occur in the order of time, ties in trace order. */
  ghost predicate InHistoryOrder(trace: seq<TraceInfo>, s: seq<nat>) {
    && InTrace(trace, s)
    && forall i, j :: 0 <= i < j < |s| && trace[s[i]].lba == trace[s[j]].lba ==> Before(trace, s[i], s[j])
  }

  /** All records are there, each address belongs to one worker, and the worker replays its history in order. */
  ghost predicate KeepsHistory(trace: seq<TraceInfo>, workers: seq<seq<nat>>) {
    && (forall w :: 0 <= w < |workers| ==> InHistoryOrder(trace, workers[w]))
    && (forall p :: 0 <= p < |trace| ==> Listed(workers, p))
    && (forall v, w :: 0 <= v < w < |workers| ==> NoSharedAddress(trace, workers[v], workers[w]))
  }

  ghost predicate NoSharedAddress(trace: seq<TraceInfo>, s: seq<nat>, t: seq<nat>) {
    forall i, j :: 0 <= i < |s| && 0 <= j < |t| && s[i] < |trace| && t[j] < |trace| ==>
      trace[s[i]].lba != trace[t[j]].lba
  }

  /** Sorting one worker's container puts each address's records into history order. */
  lemma SortedHistory(trace: seq<TraceInfo>, s: seq<nat>)
    requires InTrace(trace, s) && TraceOrder(trace, s)
    ensures InHistoryOrder(trace, SortedByTs(trace, s))
  {
    hide SortedByTs;
    var related := (p: nat, q: nat) => p < |trace| && q < |trace| && trace[p].lba == trace[q].lba ==> p < q;
    SortStable(trace, s, related);
    var r := SortedByTs(trace, s);
    forall i, j | 0 <= i < j < |r| && trace[r[i]].lba == trace[r[j]].lba ensures Before(trace, r[i], r[j]) {
      assert InOrder(trace, r[i], r[j], related);
    }
  }

  lemma WorkersShareNothing(
    trace: seq<TraceInfo>, groups: seq<seq<nat>>, workers: seq<seq<nat>>, cuts: seq<nat>, v: nat, w: nat
  )
    requires Partitioned(trace, groups) && IsSplit(groups, workers, cuts) && v < w < |workers|
    ensures NoSharedAddress(trace, workers[v], workers[w])
  {
    hide Partitioned, Part;
    assert cuts[v + 1] <= cuts[w];
    forall i, j | 0 <= i < |workers[v]| && 0 <= j < |workers[w]| && workers[v][i] < |trace| && workers[w][j] < |trace|
      ensures trace[workers[v][i]].lba != trace[workers[w][j]].lba
    {
      assert workers[v] == Part(groups, cuts[v], cuts[v + 1]) && workers[w] == Part(groups, cuts[w], cuts[w + 1]);
      var g := PartElement(groups, cuts[w], cuts[w + 1], workers[w][j]);
      OtherGroup(trace, groups, cuts[v], cuts[v + 1], g, workers[v][i]);
      assert workers[w][j] in groups[g];
    }
  }

  lemma SortedShareNothing(trace: seq<TraceInfo>, s: seq<nat>, t: seq<nat>, s': seq<nat>, t': seq<nat>)
    requires NoSharedAddress(trace, s, t) && multiset(s') == multiset(s) && multiset(t') == multiset(t)
    ensures NoSharedAddress(trace, s', t')
  {
    forall i, j | 0 <= i < |s'| && 0 <= j < |t'| && s'[i] < |trace| && t'[j] < |trace|
      ensures trace[s'[i]].lba != trace[t'[j]].lba
    {
      var i' := PermutedElement(s', s, i);
      var j' := PermutedElement(t', t, j);
    }
  }

  /** The worker whose range of groups contains group g. */
  lemma {:induction false} WorkerOfGroup(cuts: seq<nat>, g: nat, n: nat) returns (w: nat)
    requires 0 < n < |cuts| && cuts[0] <= g < cuts[n]
    ensures w < n && cuts[w] <= g < cuts[w + 1]
    decreases n
  {
    if cuts[n - 1] <= g { w := n - 1; } else { w := WorkerOfGroup(cuts, g, n - 1); }
  }

  lemma RecordHasWorker(trace: seq<TraceInfo>, groups: seq<seq<nat>>, workers: seq<seq<nat>>, cuts: seq<nat>, p: nat)
    returns (w: nat)
    requires Partitioned(trace, groups) && IsSplit(groups, workers, cuts) && workers != [] && p < |trace|
    ensures w < |workers| && p in workers[w]
  {
    hide Part;
    assert Listed(groups, p);
    var g :| 0 <= g < |groups| && p in groups[g];
    w := WorkerOfGroup(cuts, g, |workers|);
    PartCovers(groups, cuts[w], cuts[w + 1], g, p);
  }

  /**
   For every trace, every split and every visiting order of the groups, the sorted containers keep the history of every
   block.
   */
  lemma ParallelKeepsHistory(
    trace: seq<TraceInfo>, groups: seq<seq<nat>>, workers: seq<seq<nat>>, cuts: seq<nat>, sorted: seq<seq<nat>>
  )
    requires Partitioned(trace, groups) && IsSplit(groups, workers, cuts) && workers != [] && |sorted| == |workers|
    requires forall w :: 0 <= w < |workers| ==> InTrace(trace, workers[w]) && sorted[w] == SortedByTs(trace, workers[w])
    ensures KeepsHistory(trace, sorted)
  {
    hide Partitioned, Part, SortedByTs, NoSharedAddress;
    forall w | 0 <= w < |sorted|
      ensures InHistoryOrder(trace, sorted[w]) && multiset(sorted[w]) == multiset(workers[w])
    {
      PartOrder(trace, groups, cuts[w], cuts[w + 1]);
      SortedHistory(trace, workers[w]);
      SortPermutes(trace, workers[w]);
    }
    forall p | 0 <= p < |trace| ensures Listed(sorted, p) {
      var w := RecordHasWorker(trace, groups, workers, cuts, p);
      assert p in multiset(sorted[w]);
    }
    forall v, w | 0 <= v < w < |sorted| ensures NoSharedAddress(trace, sorted[v], sorted[w]) {
      WorkersShareNothing(trace, groups, workers, cuts, v, w);
      SortedShareNothing(trace, workers[v], workers[w], sorted[v], sorted[w]);
    }
  }

  // ----- The history itself

  /** The records of one address in a container, in container order. */
  ghost function Select(trace: seq<TraceInfo>, s: seq<nat>, lba: nat): seq<nat>
    requires InTrace(trace, s)
  {
    if s == [] then []
      else Select(trace, s[..|s| - 1], lba) + (if trace[s[|s| - 1]].lba == lba then [s[|s| - 1]] else [])
  }

  /** h lists exactly the records of the address, by time and then trace position. */
  ghost predicate IsHistory(trace: seq<TraceInfo>, lba: nat, h: seq<nat>) {
    && InTrace(trace, h)
    && (forall p :: p in h <==> 0 <= p < |trace| && trace[p].lba == lba)
    && (forall i, j :: 0 <= i < j < |h| ==> Before(trace, h[i], h[j]))
  }

  lemma {:induction false} SelectElements(trace: seq<TraceInfo>, s: seq<nat>, lba: nat)
    requires InTrace(trace, s)
    ensures InTrace(trace, Select(trace, s, lba))
    ensures forall p :: p in Select(trace, s, lba) <==> p in s && p < |trace| && trace[p].lba == lba
  {
    if s != [] {
      var n := |s| - 1;
      SelectElements(trace, s[..n], lba);
      assert s == s[..n] + [s[n]];
    }
  }

  lemma {:induction false} SelectOrder(trace: seq<TraceInfo>, s: seq<nat>, lba: nat)
    requires InHistoryOrder(trace, s)
    ensures InTrace(trace, Select(trace, s, lba))
    ensures forall i, j :: 0 <= i < j < |Select(trace, s, lba)| ==>
      Before(trace, Select(trace, s, lba)[i], Select(trace, s, lba)[j])
  {
    SelectElements(trace, s, lba);
    if s != [] {
      var n := |s| - 1;
      SelectOrder(trace, s[..n], lba);
      SelectElements(trace, s[..n], lba);
      var r := Select(trace, s[..n], lba);
      forall i | 0 <= i < |r| && trace[s[n]].lba == lba ensures Before(trace, r[i], s[n]) {
        assert r[i] in s[..n];
        var k :| 0 <= k < n && s[k] == r[i];
      }
    }
  }

  lemma SomeElement(s: seq<nat>)
    requires s != []
    ensures exists p :: p in s
  {
    assert s[0] in s;
  }

  /** Every record comes before all later ones of the sequence. */
  ghost predicate Rising(trace: seq<TraceInfo>, a: seq<nat>)
    requires InTrace(trace, a)
  {
    forall i, j :: 0 <= i < j < |a| ==> Before(trace, a[i], a[j])
  }

  /** There is only one history. */
  lemma {:induction false} HistoryUnique(trace: seq<TraceInfo>, a: seq<nat>, b: seq<nat>)
    requires InTrace(trace, a) && InTrace(trace, b) && Rising(trace, a) && Rising(trace, b)
    requires forall p :: p in a <==> p in b
    ensures a == b
    decreases |a|
  {
    hide Rising, InTrace;
    if a == [] {
      if b != [] { SomeElement(b); }
    } else {
      assert a[|a| - 1] in b;
      assert b[|b| - 1] in a;
      var a', b', last := a[..|a| - 1], b[..|b| - 1], a[|a| - 1];
      SameLast(trace, a, b);
      LastOut(trace, a);
      LastOut(trace, b);
      HistoryUnique(trace, a', b');
      assert a == a' + [last] && b == b' + [last];
    }
  }

  lemma SameLast(trace: seq<TraceInfo>, a: seq<nat>, b: seq<nat>)
    requires InTrace(trace, a) && InTrace(trace, b) && Rising(trace, a) && Rising(trace, b) && a != [] && b != []
    requires a[|a| - 1] in b && b[|b| - 1] in a
    ensures a[|a| - 1] == b[|b| - 1]
  {
    var i :| 0 <= i < |a| && a[i] == b[|b| - 1];
    var j :| 0 <= j < |b| && b[j] == a[|a| - 1];
  }

  lemma LastOut(trace: seq<TraceInfo>, a: seq<nat>)
    requires a != [] && InTrace(trace, a) && Rising(trace, a)
    ensures var front := a[..|a| - 1];
            && InTrace(trace, front) && Rising(trace, front)
            && forall p :: p in front <==> p in a && p != a[|a| - 1]
  {
    var front, last := a[..|a| - 1], a[|a| - 1];
    assert a == front + [last];
    assert last !in front;
  }

  /** Each address of the trace has exactly one worker, and that worker's records of the address are its history. */
  lemma HistoryOfBlock(trace: seq<TraceInfo>, workers: seq<seq<nat>>, lba: nat, p: nat) returns (w: nat)
    requires KeepsHistory(trace, workers) && p < |trace| && trace[p].lba == lba
    ensures w < |workers| && InTrace(trace, workers[w]) && IsHistory(trace, lba, Select(trace, workers[w], lba))
    ensures forall h :: IsHistory(trace, lba, h) ==> h == Select(trace, workers[w], lba)
    ensures forall v :: 0 <= v < |workers| && v != w ==>
      InTrace(trace, workers[v]) && Select(trace, workers[v], lba) == []
  {
    hide Select;
    assert Listed(workers, p);
    w :| 0 <= w < |workers| && p in workers[w];
    forall v | 0 <= v < |workers| && v != w ensures InTrace(trace, workers[v]) && Select(trace, workers[v], lba) == [] {
      assert InHistoryOrder(trace, workers[v]);
      SelectElements(trace, workers[v], lba);
      NoneElsewhere(trace, workers, lba, p, v, w);
      if Select(trace, workers[v], lba) != [] { SomeElement(Select(trace, workers[v], lba)); }
    }
    forall q | 0 <= q < |trace| && trace[q].lba == lba ensures q in workers[w] {
      assert Listed(workers, q);
      var v :| 0 <= v < |workers| && q in workers[v];
      if v != w {
        NoneElsewhere(trace, workers, lba, p, v, w);
      }
    }
    assert InHistoryOrder(trace, workers[w]);
    SelectElements(trace, workers[w], lba);
    SelectOrder(trace, workers[w], lba);
    forall h | IsHistory(trace, lba, h) ensures h == Select(trace, workers[w], lba) {
      HistoryUnique(trace, Select(trace, workers[w], lba), h);
    }
  }

  lemma NoneElsewhere(trace: seq<TraceInfo>, workers: seq<seq<nat>>, lba: nat, p: nat, v: nat, w: nat)
    requires KeepsHistory(trace, workers) && p < |trace| && trace[p].lba == lba
    requires v < |workers| && w < |workers| && v != w && p in workers[w]
    ensures forall q :: q in workers[v] ==> q < |trace| && trace[q].lba != lba
  {
    assert InHistoryOrder(trace, workers[v]);
    assert NoSharedAddress(trace, workers[v], workers[w]) || NoSharedAddress(trace, workers[w], workers[v]);
    var k :| 0 <= k < |workers[w]| && workers[w][k] == p;
  }
}
