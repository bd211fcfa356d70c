/** Coalescing: neighbouring records of a sorted container become one larger request, a hint. */
module Hints {
  import opened Traces

  datatype Hint = Hint(start: nat, blks: nat, rw: char)

  /** The 64-bit unsigned difference of the addresses is 8 and both records go the same way. */
  predicate Adjacent(trace: seq<TraceInfo>, s: seq<nat>, j: nat)
    requires 0 < j < |s| && s[j] < |trace| && s[j - 1] < |trace|
  {
    (trace[s[j]].lba - trace[s[j - 1]].lba) % 0x1_0000_0000_0000_0000 == 8 && trace[s[j]].rw == trace[s[j - 1]].rw
  }

  lemma AdjacentStep(trace: seq<TraceInfo>, s: seq<nat>, j: nat)
    requires 0 < j < |s| && s[j] < |trace| && s[j - 1] < |trace| && OffsetsFit(trace) && Adjacent(trace, s, j)
    ensures trace[s[j]].lba == trace[s[j - 1]].lba + 8
  {
    var d := trace[s[j]].lba - trace[s[j - 1]].lba;
    assert -0x1_0000_0000_0000_0000 + 8 < d < 0x1_0000_0000_0000_0000;
  }

  /** Adjacent are exactly records of one direction whose addresses are 8 apart, upwards and modulo 2^64. */
  lemma AdjacentExactly(trace: seq<TraceInfo>, s: seq<nat>, j: nat)
    requires 0 < j < |s| && s[j] < |trace| && s[j - 1] < |trace|
    requires trace[s[j]].lba < 0x1_0000_0000_0000_0000 && trace[s[j - 1]].lba < 0x1_0000_0000_0000_0000
    ensures var low, high := trace[s[j - 1]].lba, trace[s[j]].lba;
            Adjacent(trace, s, j) <==>
            (high == low + 8 || high + 0x1_0000_0000_0000_0000 == low + 8) && trace[s[j]].rw == trace[s[j - 1]].rw
  {
    var d := trace[s[j]].lba - trace[s[j - 1]].lba;
    assert -0x1_0000_0000_0000_0000 < d < 0x1_0000_0000_0000_0000;
    assert d >= 0 ==> d % 0x1_0000_0000_0000_0000 == d;
    assert d < 0 ==> d % 0x1_0000_0000_0000_0000 == d + 0x1_0000_0000_0000_0000;
  }

  /** Byte offsets below 2^63 leave no room for the wrap-around. */
  lemma AdjacentByAddress(trace: seq<TraceInfo>, s: seq<nat>, j: nat)
    requires 0 < j < |s| && s[j] < |trace| && s[j - 1] < |trace| && OffsetsFit(trace)
    ensures Adjacent(trace, s, j) <==>
            trace[s[j]].lba == trace[s[j - 1]].lba + 8 && trace[s[j]].rw == trace[s[j - 1]].rw
  {
    hide Adjacent;
    AdjacentExactly(trace, s, j);
  }

  /** One run: uniform, adjacent throughout, within the cap, and not extensible. */
  ghost predicate IsRun(trace: seq<TraceInfo>, s: seq<nat>, cap: nat, h: Hint)
    requires InTrace(trace, s)
  {
    && 1 <= h.blks && h.start + h.blks <= |s|
    && (h.blks <= cap || h.blks == 1)
    && h.rw == trace[s[h.start]].rw
    && (forall j :: h.start < j < h.start + h.blks ==> Adjacent(trace, s, j))
    && (h.start + h.blks == |s| || h.blks >= cap || !Adjacent(trace, s, h.start + h.blks))
  }

  /** The hints cut s[..end] into consecutive runs. */
  ghost predicate Tiles(trace: seq<TraceInfo>, s: seq<nat>, cap: nat, hs: seq<Hint>, end: nat)
    requires InTrace(trace, s)
  {
    if hs == [] then end == 0
    else
      var h := hs[|hs| - 1];
      IsRun(trace, s, cap, h) && h.start + h.blks == end && Tiles(trace, s, cap, hs[..|hs| - 1], h.start)
  }

  // ----- The same in terms of the addresses

  /**
   The records of a hint go in one direction at addresses that rise by 8, no more of them than the cap allows; behind it
   the container ends, or the cap is reached, or the next record is not 8 higher or goes the other way.
   */
  ghost predicate AddressRun(trace: seq<TraceInfo>, s: seq<nat>, cap: nat, h: Hint)
    requires InTrace(trace, s)
  {
    && 1 <= h.blks && h.start + h.blks <= |s| && (h.blks <= cap || h.blks == 1)
    && h.rw == trace[s[h.start]].rw
    && (forall j :: h.start <= j < h.start + h.blks ==>
          trace[s[j]].lba == trace[s[h.start]].lba + 8 * (j - h.start) && trace[s[j]].rw == trace[s[h.start]].rw)
    && var next := h.start + h.blks;
       || next == |s| || h.blks >= cap
       || trace[s[next]].lba != trace[s[next - 1]].lba + 8 || trace[s[next]].rw != trace[s[next - 1]].rw
  }

  /** The hints are such runs, one behind the other, from the first record of the container to its last. */
  ghost predicate AddressTiles(trace: seq<TraceInfo>, s: seq<nat>, cap: nat, hs: seq<Hint>)
    requires InTrace(trace, s)
  {
    && (forall i :: 0 <= i < |hs| ==> AddressRun(trace, s, cap, hs[i]))
    && (forall i, j :: 0 <= i < j < |hs| && j == i + 1 ==> hs[j].start == hs[i].start + hs[i].blks)
    && (if hs == [] then s == [] else hs[0].start == 0 && hs[|hs| - 1].start + hs[|hs| - 1].blks == |s|)
  }

  lemma {:induction false} RunAddresses(trace: seq<TraceInfo>, s: seq<nat>, start: nat, k: nat)
    requires InTrace(trace, s) && OffsetsFit(trace) && start + k < |s|
    requires forall j :: start < j <= start + k ==> Adjacent(trace, s, j)
    ensures trace[s[start + k]].lba == trace[s[start]].lba + 8 * k && trace[s[start + k]].rw == trace[s[start]].rw
    decreases k
  {
    hide Adjacent;
    if k > 0 {
      RunAddresses(trace, s, start, k - 1);
      AdjacentByAddress(trace, s, start + k);
      assert Adjacent(trace, s, start + k);
    }
  }

  lemma RunByAddress(trace: seq<TraceInfo>, s: seq<nat>, cap: nat, h: Hint)
    requires InTrace(trace, s) && OffsetsFit(trace) && IsRun(trace, s, cap, h)
    ensures AddressRun(trace, s, cap, h)
  {
    hide Adjacent;
    forall j | h.start <= j < h.start + h.blks
      ensures trace[s[j]].lba == trace[s[h.start]].lba + 8 * (j - h.start) && trace[s[j]].rw == trace[s[h.start]].rw
    {
      RunAddresses(trace, s, h.start, j - h.start);
    }
    if h.start + h.blks < |s| { AdjacentByAddress(trace, s, h.start + h.blks); }
  }

  lemma {:induction false} TilesInRow(trace: seq<TraceInfo>, s: seq<nat>, cap: nat, hs: seq<Hint>, end: nat)
    requires InTrace(trace, s) && Tiles(trace, s, cap, hs, end)
    ensures forall i, j :: 0 <= i < j < |hs| && j == i + 1 ==> hs[j].start == hs[i].start + hs[i].blks
    ensures if hs == [] then end == 0 else hs[0].start == 0 && hs[|hs| - 1].start + hs[|hs| - 1].blks == end
  {
    hide IsRun;
    if hs != [] {
      var n := |hs| - 1;
      TilesInRow(trace, s, cap, hs[..n], hs[n].start);
    }
  }

  lemma TilesByAddress(trace: seq<TraceInfo>, s: seq<nat>, cap: nat, hs: seq<Hint>)
    requires InTrace(trace, s) && OffsetsFit(trace) && Tiles(trace, s, cap, hs, |s|)
    ensures AddressTiles(trace, s, cap, hs)
  {
    hide IsRun, Tiles, AddressRun, OffsetsFit;
    TilesInRow(trace, s, cap, hs, |s|);
    forall i | 0 <= i < |hs| ensures AddressRun(trace, s, cap, hs[i]) {
      TilesRun(trace, s, cap, hs, |s|, i);
      RunByAddress(trace, s, cap, hs[i]);
    }
  }

  lemma TilesSnoc(trace: seq<TraceInfo>, s: seq<nat>, cap: nat, hs: seq<Hint>, h: Hint)
    requires InTrace(trace, s) && IsRun(trace, s, cap, h) && Tiles(trace, s, cap, hs, h.start)
    ensures Tiles(trace, s, cap, hs + [h], h.start + h.blks)
  {
    assert (hs + [h])[..|hs|] == hs;
  }

  /** There are no more hints than records. */
  lemma {:induction false} TilesCount(trace: seq<TraceInfo>, s: seq<nat>, cap: nat, hs: seq<Hint>, end: nat)
    requires InTrace(trace, s) && Tiles(trace, s, cap, hs, end)
    ensures |hs| <= end <= |s| || (hs == [] && end == 0)
  {
    if hs != [] { TilesCount(trace, s, cap, hs[..|hs| - 1], hs[|hs| - 1].start); }
  }

  lemma {:induction false} TilesRun(trace: seq<TraceInfo>, s: seq<nat>, cap: nat, hs: seq<Hint>, end: nat, k: nat)
    requires InTrace(trace, s) && Tiles(trace, s, cap, hs, end) && k < |hs|
    ensures IsRun(trace, s, cap, hs[k])
  {
    if k < |hs| - 1 { TilesRun(trace, s, cap, hs[..|hs| - 1], hs[|hs| - 1].start, k); }
  }

  /** The hints are determined by the container and the cap: greedy runs from the left. */
  lemma {:induction false} TilesUnique(
    trace: seq<TraceInfo>, s: seq<nat>, cap: nat, a: seq<Hint>, b: seq<Hint>, end: nat, end': nat
  )
    requires InTrace(trace, s) && Tiles(trace, s, cap, a, end) && Tiles(trace, s, cap, b, end')
    ensures |a| <= |b| ==> a == b[..|a|] && (|a| == |b| ==> end == end')
    decreases |b|
  {
    if |a| <= |b| && b != [] {
      var b' := b[..|b| - 1];
      if |a| < |b| {
        TilesUnique(trace, s, cap, a, b', end, b[|b| - 1].start);
        assert b[..|a|] == b'[..|a|];
      } else {
        var a', x, y := a[..|a| - 1], a[|a| - 1], b[|b| - 1];
        TilesUnique(trace, s, cap, a', b', x.start, y.start);
        RunsUnique(trace, s, cap, x, y);
        assert a == a' + [x] && b == b' + [y] && b[..|a|] == b;
      }
    }
  }

  lemma RunsUnique(trace: seq<TraceInfo>, s: seq<nat>, cap: nat, x: Hint, y: Hint)
    requires InTrace(trace, s) && IsRun(trace, s, cap, x) && IsRun(trace, s, cap, y) && x.start == y.start
    ensures x == y
  {
  }

  /**
   Writes one worker's hints into the shared array from position `idx` on. The worker needs at least one record:
   the code after the loop saves a last hint unconditionally.
   */
  method ExtractHints(trace: seq<TraceInfo>, s: seq<nat>, cap: nat, hints: array<Hint>, idx: nat)
    returns (idx': nat, most: nat)
    requires InTrace(trace, s) && s != [] && idx + |s| <= hints.Length
    modifies hints
    ensures idx < idx' <= idx + |s|
    ensures Tiles(trace, s, cap, hints[idx..idx'], |s|)
    ensures OffsetsFit(trace) ==> AddressTiles(trace, s, cap, hints[idx..idx'])
    ensures hints[..idx] == old(hints[..idx])
    ensures IsMost(hints[idx..idx'], most)
  {
    hide Tiles, Adjacent, IsRun, AddressTiles, OffsetsFit, IsMost;
    idx', most := idx, 0;
    var start := 0;
    TilesNone(trace, s, cap);
    assert hints[idx..idx] == [];
    NoMost();
    RunStarts(trace, s, cap, 0);
    for j := 1 to |s|
      invariant start < j <= |s| && idx <= idx' <= idx + start
      invariant Tiles(trace, s, cap, hints[idx..idx'], start)
      invariant RunSoFar(trace, s, cap, start, j)
      invariant hints[..idx] == old(hints[..idx]) && IsMost(hints[idx..idx'], most)
    {
      if Adjacent(trace, s, j) && j - start < cap {
        RunGrows(trace, s, cap, start, j);
      } else {
        RunEnds(trace, s, cap, start, j);
        var h := Hint(start, j - start, trace[s[start]].rw);
        idx', most := SaveHint(trace, s, cap, hints, idx, idx', h, most);
        start := j;
        RunStarts(trace, s, cap, j);
      }
    }
    RunEnds(trace, s, cap, start, |s|);
    var h := Hint(start, |s| - start, trace[s[start]].rw);
    idx', most := SaveHint(trace, s, cap, hints, idx, idx', h, most);
    if OffsetsFit(trace) { TilesByAddress(trace, s, cap, hints[idx..idx']); }
  }

  /** The largest number of blocks of a hint, 0 without hints. */
  ghost predicate IsMost(hs: seq<Hint>, most: nat) {
    && (forall i :: 0 <= i < |hs| ==> hs[i].blks <= most)
    && (most == 0 || exists i :: 0 <= i < |hs| && hs[i].blks == most)
  }

  lemma NoMost()
    ensures IsMost([], 0)
  {
  }

  lemma NextMost(hs: seq<Hint>, h: Hint, most: nat)
    requires IsMost(hs, most)
    ensures IsMost(hs + [h], if h.blks > most then h.blks else most)
  {
    var hs' := hs + [h];
    assert hs'[|hs|] == h;
    assert forall i :: 0 <= i < |hs| ==> hs'[i] == hs[i];
  }

  method SaveHint(
    trace: seq<TraceInfo>, s: seq<nat>, cap: nat, hints: array<Hint>, ghost idx: nat, k: nat, h: Hint, most: nat
  )
    returns (k': nat, most': nat)
    requires InTrace(trace, s) && idx <= k < hints.Length && IsRun(trace, s, cap, h)
    requires Tiles(trace, s, cap, hints[idx..k], h.start)
    requires IsMost(hints[idx..k], most)
    modifies hints
    ensures k' == k + 1 && Tiles(trace, s, cap, hints[idx..k'], h.start + h.blks)
    ensures hints[..idx] == old(hints[..idx]) && IsMost(hints[idx..k'], most')
  {
    hide Tiles, IsRun, IsMost;
    ghost var hs := hints[idx..k];
    TilesSnoc(trace, s, cap, hs, h);
    NextMost(hs, h, most);
    hints[k] := h;
    k', most' := k + 1, most;
    assert hints[idx..k'] == hs + [h];
    if h.blks > most {
      most' := h.blks;
    }
  }

  lemma TilesNone(trace: seq<TraceInfo>, s: seq<nat>, cap: nat)
    requires InTrace(trace, s)
    ensures Tiles(trace, s, cap, [], 0)
  {
  }

  /** Records start..j belong to one run. */
  ghost predicate RunSoFar(trace: seq<TraceInfo>, s: seq<nat>, cap: nat, start: nat, j: nat)
    requires InTrace(trace, s)
  {
    && start < j <= |s| && (j - start <= cap || j - start == 1)
    && forall i :: start < i < j ==> Adjacent(trace, s, i)
  }

  lemma RunStarts(trace: seq<TraceInfo>, s: seq<nat>, cap: nat, start: nat)
    requires InTrace(trace, s) && start < |s|
    ensures RunSoFar(trace, s, cap, start, start + 1)
  {
  }

  lemma RunGrows(trace: seq<TraceInfo>, s: seq<nat>, cap: nat, start: nat, j: nat)
    requires InTrace(trace, s) && RunSoFar(trace, s, cap, start, j) && j < |s| && Adjacent(trace, s, j)
    requires j - start < cap
    ensures RunSoFar(trace, s, cap, start, j + 1)
  {
  }

  lemma RunEnds(trace: seq<TraceInfo>, s: seq<nat>, cap: nat, start: nat, j: nat)
    requires InTrace(trace, s) && RunSoFar(trace, s, cap, start, j)
    requires j == |s| || !(Adjacent(trace, s, j) && j - start < cap)
    ensures IsRun(trace, s, cap, Hint(start, j - start, trace[s[start]].rw))
  {
  }
}
