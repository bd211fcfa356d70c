/**
 The read-write interference workload: "dup" tasks must write only blocks that the prepare stage has already
 written, the other tasks only blocks it has not. A block is filled with one magic number.
 */
module Interference {
  import opened Basics
  import opened Buckets

  datatype Task = Task(startMagic: nat, numBlocks: nat, id: nat, dup: bool)

  // ----- Planning

  function Times(n: nat, size: nat): nat { n * size }

  lemma TimesNext(n: nat, size: nat)
    ensures Times(0, size) == 0 && Times(n + 1, size) == Times(n, size) + size
  {
  }

  lemma TimesZero(m: nat, n: nat)
    ensures Times(m, 0) == 0 && Times(n, 0) == 0
  {
  }

  function PerTask(blocks: nat, tasks: nat): (n: nat)
    ensures Times(tasks, n) <= blocks
    ensures tasks > 0 ==> blocks < Times(tasks, n) + tasks
  {
    if tasks == 0 then 0 else Quotient(blocks, tasks); blocks / tasks
  }

  lemma Quotient(a: nat, b: nat)
    requires b > 0
    ensures a / b >= 0 && b * (a / b) <= a < b * (a / b) + b
  {
    assert a == b * (a / b) + a % b;
  }

  /** All readers' blocks: the measured side gets a quarter when there are readers and writers. */
  function ReaderBlocks(readers: nat, writers: nat, total: nat, measureReads: bool): (n: nat)
    ensures n <= total
  {
    if readers == 0 then 0
    else if writers == 0 then total
    else if measureReads then total / 4
    else total - total / 4
  }

  /** n tasks of one kind have `each` blocks, as many as fit into `blocks`. */
  predicate SharedOut(blocks: nat, n: nat, each: nat) { n * each <= blocks < n * each + n }

  predicate IsQuarter(q: nat, total: nat) { 4 * q <= total < 4 * q + 4 }

  /**
   With readers and writers, the measured side shares a quarter of the blocks, rounded down, and the other side the
   rest; a kind that is alone shares all of them.
   */
  ghost predicate FairShares(readers: nat, writers: nat, total: nat, measureReads: bool, r: nat, w: nat) {
    && (readers > 0 && writers == 0 ==> SharedOut(total, readers, r))
    && (readers == 0 && writers > 0 ==> SharedOut(total, writers, w))
    && (readers > 0 && writers > 0 ==>
          forall q :: IsQuarter(q, total) ==> Quartered(readers, writers, total, measureReads, r, w, q))
  }

  /** The measured side shares q blocks, the other side the rest. */
  predicate Quartered(readers: nat, writers: nat, total: nat, measureReads: bool, r: nat, w: nat, q: nat)
    requires q <= total
  {
    if measureReads then SharedOut(q, readers, r) && SharedOut(total - q, writers, w)
    else SharedOut(q, writers, w) && SharedOut(total - q, readers, r)
  }

  lemma SharesAre(readers: nat, writers: nat, total: nat, measureReads: bool)
    ensures var b := ReaderBlocks(readers, writers, total, measureReads);
            FairShares(readers, writers, total, measureReads, PerTask(b, readers), PerTask(total - b, writers))
  {
    hide PerTask;
    var b := ReaderBlocks(readers, writers, total, measureReads);
    if readers > 0 { SharedExactly(b, readers); }
    if writers > 0 { SharedExactly(total - b, writers); }
    assert forall q :: IsQuarter(q, total) ==> q == total / 4;
  }

  lemma SharedExactly(blocks: nat, n: nat)
    requires n > 0
    ensures SharedOut(blocks, n, PerTask(blocks, n))
  {
    hide PerTask;
  }

  /** What the quarter is for: with equally many of both kinds, a measured task has no more blocks than the others. */
  lemma MeasuredFinishFirst(n: nat, total: nat, measureReads: bool, r: nat, w: nat)
    requires n > 0 && FairShares(n, n, total, measureReads, r, w)
    ensures if measureReads then r <= w else w <= r
  {
    hide SharedOut;
    var q: nat := total / 4;
    assert IsQuarter(q, total);
    assert Quartered(n, n, total, measureReads, r, w, q);
    if measureReads { FewerEach(q, total - q, n, r, w); } else { FewerEach(q, total - q, n, w, r); }
  }

  lemma FewerEach(a: nat, b: nat, n: nat, x: nat, y: nat)
    requires a <= b && SharedOut(a, n, x) && SharedOut(b, n, y)
    ensures x <= y
  {
    if y < x {
      TimesMonotone(y + 1, x, n);
      TimesSum(y, 1, n);
    }
  }

  /** Readers repeat the prepared magics from 0 on; writers start behind everything that can be prepared. */
  ghost predicate IsTaskList(tasks: seq<Task>, readers: nat, writers: nat, total: nat, r: nat, w: nat) {
    && |tasks| == readers + writers
    && (forall i :: 0 <= i < readers ==> tasks[i] == Task(Times(i, r), r, i, true))
    && (forall i :: readers <= i < |tasks| ==> tasks[i] == Task(total + Times(i - readers, w), w, i, false))
  }

  /** Readers first, from 0 on, then writers from the total on; each range begins where the one before it ends. */
  ghost predicate Ranges(tasks: seq<Task>, readers: nat, writers: nat, total: nat, r: nat, w: nat) {
    && |tasks| == readers + writers
    && (forall i :: 0 <= i < |tasks| ==>
          tasks[i].id == i && tasks[i].dup == (i < readers) && tasks[i].numBlocks == if i < readers then r else w)
    && (readers > 0 ==> tasks[0].startMagic == 0)
    && (writers > 0 ==> tasks[readers].startMagic == total)
    && (forall i, j :: 0 <= i < j < |tasks| && j == i + 1 && j != readers ==>
          tasks[j].startMagic == tasks[i].startMagic + tasks[i].numBlocks)
  }

  lemma RangesAre(tasks: seq<Task>, readers: nat, writers: nat, total: nat, r: nat, w: nat)
    requires IsTaskList(tasks, readers, writers, total, r, w)
    ensures Ranges(tasks, readers, writers, total, r, w)
  {
    hide Times;
    TimesNext(0, r);
    TimesNext(0, w);
    forall i, j | 0 <= i < j < |tasks| && j == i + 1 && j != readers
      ensures tasks[j].startMagic == tasks[i].startMagic + tasks[i].numBlocks
    {
      if j < readers { TimesNext(i, r); } else { TimesNext(i - readers, w); }
    }
  }

  method ReaderTasks(readers: nat, r: nat) returns (list: seq<Task>)
    ensures IsTaskList(list, readers, 0, 0, r, 0)
  {
    hide Times;
    TimesNext(0, r);
    list := [];
    var startMagic := 0;
    for i := 0 to readers
      invariant |list| == i && startMagic == Times(i, r)
      invariant forall k :: 0 <= k < i ==> list[k] == Task(Times(k, r), r, k, true)
    {
      TimesNext(i, r);
      list := list + [Task(startMagic, r, i, true)];
      startMagic := startMagic + r;
    }
  }

  method WriterTasks(list: seq<Task>, writers: nat, total: nat, w: nat) returns (list': seq<Task>)
    ensures |list'| == |list| + writers && list'[..|list|] == list
    ensures forall k :: |list| <= k < |list'| ==> list'[k] == Task(total + Times(k - |list|, w), w, k, false)
  {
    hide Times;
    TimesNext(0, w);
    list' := list;
    var startMagic := total;
    for i := 0 to writers
      invariant |list'| == |list| + i && startMagic == total + Times(i, w) && list'[..|list|] == list
      invariant forall k :: |list| <= k < |list'| ==> list'[k] == Task(total + Times(k - |list|, w), w, k, false)
    {
      TimesNext(i, w);
      list' := list' + [Task(startMagic, w, i + |list|, false)];
      startMagic := startMagic + w;
    }
  }

  /** Builds all tasks, with the sizes of a reader and a writer; both counts zero (as a 32-bit sum) is an error. */
  method MakeTasks(readers: nat, writers: nat, total: nat, measureReads: bool)
    returns (tasks: Option<seq<Task>>, r: nat, w: nat)
    ensures tasks.None? <==> (readers + writers) % 0x1_0000_0000 == 0
    ensures Times(readers, r) + Times(writers, w) <= total
    ensures tasks.Some? ==> IsTaskList(tasks.value, readers, writers, total, r, w)
    ensures tasks.Some? && readers > 0 ==> r == PerTask(ReaderBlocks(readers, writers, total, measureReads), readers)
    ensures tasks.Some? && writers > 0 ==>
      w == PerTask(total - ReaderBlocks(readers, writers, total, measureReads), writers)
    ensures tasks.Some? ==> Ranges(tasks.value, readers, writers, total, r, w)
    ensures tasks.Some? ==> FairShares(readers, writers, total, measureReads, r, w)
  {
    hide PerTask, ReaderBlocks, Times, FairShares, Ranges;
    SharesAre(readers, writers, total, measureReads);
    r, w := 0, 0;
    TimesZero(readers, writers);
    if (readers + writers) % 0x1_0000_0000 == 0 {
      return None, r, w;
    }
    var readerBlocks := ReaderBlocks(readers, writers, total, measureReads);
    r, w := PerTask(readerBlocks, readers), PerTask(total - readerBlocks, writers);
    var list := ReaderTasks(readers, r);
    var list' := WriterTasks(list, writers, total, w);
    forall k | 0 <= k < readers ensures list'[k] == Task(Times(k, r), r, k, true) {
      assert list'[k] == list'[..|list|][k];
    }
    RangesAre(list', readers, writers, total, r, w);
    tasks := Some(list');
  }

  // ----- Writing

  ghost function TotalBlocks(tasks: seq<Task>): nat {
    if tasks == [] then 0 else TotalBlocks(tasks[..|tasks| - 1]) + tasks[|tasks| - 1].numBlocks
  }

  /** A block: its whole 8-byte words, and the bytes behind them if the granularity is not a multiple of 8. */
  datatype Content = Content(words: seq<nat>, tail: Bytes)

  /** There are n words, and each of them is the magic number. */
  ghost predicate AllWords(words: seq<nat>, n: nat, magic: nat) {
    |words| == n && forall i :: 0 <= i < |words| ==> words[i] == magic
  }

  ghost function Repeated(words: nat, magic: nat, tail: Bytes): Content { Content(seq(words, _ => magic), tail) }

  /**
   Writes one file; the buffer's words are filled anew with the block's magic number before each write. Bytes behind
   the last word keep what the allocation left there.
   */
  method MakeFile(numBlocks: nat, startMagic: nat, buf: array<nat>, tail: Bytes) returns (blocks: seq<Content>)
    modifies buf
    ensures |blocks| == numBlocks
    ensures forall b :: 0 <= b < numBlocks ==> blocks[b] == Repeated(buf.Length, startMagic + b, tail)
    ensures forall b :: 0 <= b < numBlocks ==>
      AllWords(blocks[b].words, buf.Length, startMagic + b) && blocks[b].tail == tail
  {
    blocks := [];
    for block := 0 to numBlocks
      invariant |blocks| == block
      invariant forall b :: 0 <= b < block ==> blocks[b] == Repeated(buf.Length, startMagic + b, tail)
    {
      for i := 0 to buf.Length
        invariant forall k :: 0 <= k < i ==> buf[k] == startMagic + block
      {
        buf[i] := startMagic + block;
      }
      assert buf[..] == seq(buf.Length, _ => startMagic + block);
      blocks := blocks + [Content(buf[..], tail)];
    }
  }

  /** The file whose range of magic numbers contains b. */
  ghost function FileOf(tasks: seq<Task>, b: nat): (i: nat)
    requires b < TotalBlocks(tasks)
    ensures i < |tasks| && TotalBlocks(tasks[..i]) <= b < TotalBlocks(tasks[..i + 1])
  {
    var n := |tasks| - 1;
    assert tasks[..n + 1] == tasks;
    if b >= TotalBlocks(tasks[..n]) then n
    else
      var i := FileOf(tasks[..n], b);
      assert tasks[..n][..i] == tasks[..i] && tasks[..n][..i + 1] == tasks[..i + 1];
      i
  }

  lemma {:induction false} TotalGrows(tasks: seq<Task>, i: nat, j: nat)
    requires i <= j <= |tasks|
    ensures TotalBlocks(tasks[..i]) <= TotalBlocks(tasks[..j])
    decreases j
  {
    if i < j {
      TotalGrows(tasks, i, j - 1);
      assert tasks[..j][..j - 1] == tasks[..j - 1];
    }
  }

  lemma FileIs(tasks: seq<Task>, b: nat, i: nat)
    requires i < |tasks| && TotalBlocks(tasks[..i]) <= b < TotalBlocks(tasks[..i + 1])
    ensures b < TotalBlocks(tasks) && FileOf(tasks, b) == i
  {
    assert tasks[..|tasks|] == tasks;
    TotalGrows(tasks, i + 1, |tasks|);
    var j := FileOf(tasks, b);
    if i < j { TotalGrows(tasks, i + 1, j); }
    if j < i { TotalGrows(tasks, j + 1, i); }
  }

  /** Block b of the prepare stage repeats the magic number b, with the tail of the file it is in. */
  ghost predicate Prepared(tasks: seq<Task>, words: nat, tails: seq<Bytes>, written: seq<Content>) {
    && |tails| == |tasks| && |written| == TotalBlocks(tasks)
    && forall b :: 0 <= b < |written| ==> written[b] == Repeated(words, b, tails[FileOf(tasks, b)])
  }

  /** The prepare stage: one file per task, numbered on from 0. Returns every block it wrote. */
  method PrepareWorkload(tasks: seq<Task>, words: nat, tails: seq<Bytes>) returns (written: seq<Content>)
    requires |tails| == |tasks|
    ensures Prepared(tasks, words, tails, written)
  {
    hide FileOf, TotalBlocks, Repeated;
    written := [];
    var startMagic := 0;
    var buf := new nat[words];
    NoBlocks(tasks);
    for i := 0 to |tasks|
      invariant startMagic == |written| == TotalBlocks(tasks[..i]) <= TotalBlocks(tasks)
      invariant forall b :: 0 <= b < |written| ==> written[b] == Repeated(words, b, tails[FileOf(tasks, b)])
    {
      var blocks := MakeFile(tasks[i].numBlocks, startMagic, buf, tails[i]);
      ghost var before := written;
      MoreBlocks(tasks, i);
      written := written + blocks;
      forall b | 0 <= b < |written| ensures written[b] == Repeated(words, b, tails[FileOf(tasks, b)]) {
        if b >= |before| {
          FileIs(tasks, b, i);
          assert written[b] == blocks[b - |before|];
        }
      }
      startMagic := startMagic + tasks[i].numBlocks;
    }
    assert tasks[..|tasks|] == tasks;
  }

  lemma NoBlocks(tasks: seq<Task>)
    ensures TotalBlocks(tasks[..0]) == 0
  {
    assert tasks[..0] == [];
  }

  lemma MoreBlocks(tasks: seq<Task>, i: nat)
    requires i < |tasks|
    ensures TotalBlocks(tasks[..i + 1]) == TotalBlocks(tasks[..i]) + tasks[i].numBlocks <= TotalBlocks(tasks)
  {
    assert tasks[..i + 1][..i] == tasks[..i];
    assert tasks[..|tasks|] == tasks;
    TotalGrows(tasks, i + 1, |tasks|);
  }

  // ----- Dup tasks are all duplicates, the others all fresh

  lemma {:induction false} TotalOfReaders(
    tasks: seq<Task>, readers: nat, writers: nat, total: nat, r: nat, w: nat, n: nat
  )
    requires IsTaskList(tasks, readers, writers, total, r, w) && n <= |tasks|
    ensures TotalBlocks(tasks[..n]) == if n <= readers then Times(n, r) else Times(readers, r) + Times(n - readers, w)
    decreases n
  {
    hide Times;
    TimesNext(0, r);
    TimesNext(0, w);
    if n > 0 {
      TotalOfReaders(tasks, readers, writers, total, r, w, n - 1);
      assert tasks[..n][..n - 1] == tasks[..n - 1] && tasks[..n][n - 1] == tasks[n - 1];
      if n <= readers {
        TimesNext(n - 1, r);
      } else {
        TimesNext(n - 1 - readers, w);
      }
    }
  }

  lemma Scaled(i: nat, n: nat, r: nat)
    requires i < n
    ensures Times(i, r) + r <= Times(n, r)
  {
    TimesSum(i, 1, r);
    TimesMonotone(i + 1, n, r);
  }

  /** For all reader and writer counts and totals: a dup task's blocks were prepared, another task's were not. */
  lemma DupExactly(tasks: seq<Task>, readers: nat, writers: nat, total: nat, r: nat, w: nat, i: nat, b: nat)
    requires IsTaskList(tasks, readers, writers, total, r, w) && Times(readers, r) + Times(writers, w) <= total
    requires i < |tasks| && b < tasks[i].numBlocks
    ensures tasks[i].startMagic + b < TotalBlocks(tasks) <==> tasks[i].dup
  {
    hide Times, TotalBlocks;
    TimesNext(0, w);
    TotalOfReaders(tasks, readers, writers, total, r, w, |tasks|);
    assert tasks[..|tasks|] == tasks;
    if i < readers {
      Scaled(i, readers, r);
    }
  }

  /** The magic ranges of different tasks do not meet. */
  lemma RangesDisjoint(tasks: seq<Task>, readers: nat, writers: nat, total: nat, r: nat, w: nat, i: nat, j: nat)
    requires IsTaskList(tasks, readers, writers, total, r, w) && Times(readers, r) + Times(writers, w) <= total
    requires i < j < |tasks|
    ensures tasks[i].startMagic + tasks[i].numBlocks <= tasks[j].startMagic
  {
    hide Times;
    if j < readers {
      Scaled(i, j, r);
    } else if i < readers {
      Scaled(i, readers, r);
    } else {
      Scaled(i - readers, j - readers, w);
    }
  }

  /** With at least one word per block, blocks are equal exactly when magic numbers and tails are. */
  lemma BlocksEqualIff(words: nat, a: nat, b: nat, tail: Bytes, tail': Bytes)
    requires words > 0
    ensures Repeated(words, a, tail) == Repeated(words, b, tail') <==> a == b && tail == tail'
  {
    assert Repeated(words, a, tail).words[0] == a && Repeated(words, b, tail').words[0] == b;
  }

  /**
   In terms of contents: a block occurs among the prepared blocks exactly when a dup task writes it and the bytes behind
   its last word, if there are any, are those of the prepared file with the task's number.
   */
  lemma BlockPrepared(
    tasks: seq<Task>, readers: nat, writers: nat, total: nat, r: nat, w: nat, words: nat, tails: seq<Bytes>,
    written: seq<Content>, i: nat, b: nat, tail: Bytes
  )
    requires IsTaskList(tasks, readers, writers, total, r, w) && Times(readers, r) + Times(writers, w) <= total
    requires i < |tasks| && b < tasks[i].numBlocks && words > 0 && Prepared(tasks, words, tails, written)
    ensures Repeated(words, tasks[i].startMagic + b, tail) in written <==> tasks[i].dup && tail == tails[i]
  {
    hide FileOf, TotalBlocks, Times, Repeated;
    DupExactly(tasks, readers, writers, total, r, w, i, b);
    var magic := tasks[i].startMagic + b;
    forall k | 0 <= k < |written|
      ensures written[k] == Repeated(words, magic, tail) <==> k == magic && tail == tails[FileOf(tasks, k)]
    {
      BlocksEqualIff(words, k, magic, tails[FileOf(tasks, k)], tail);
    }
    if tasks[i].dup {
      DupFile(tasks, readers, writers, total, r, w, i, b);
      assert written[magic] == Repeated(words, magic, tail) <==> tail == tails[i];
    }
  }

  /** A dup task repeats the prepared file with its own number. */
  lemma DupFile(tasks: seq<Task>, readers: nat, writers: nat, total: nat, r: nat, w: nat, i: nat, b: nat)
    requires IsTaskList(tasks, readers, writers, total, r, w) && i < readers && b < tasks[i].numBlocks
    ensures tasks[i].startMagic + b < TotalBlocks(tasks) && FileOf(tasks, tasks[i].startMagic + b) == i
  {
    hide FileOf, TotalBlocks, Times;
    TotalOfReaders(tasks, readers, writers, total, r, w, i);
    MoreBlocks(tasks, i);
    FileIs(tasks, tasks[i].startMagic + b, i);
  }

  /** With a granularity that is a multiple of 8 there are no tails: prepared exactly if dup. */
  lemma WholeWordsPrepared(
    tasks: seq<Task>, readers: nat, writers: nat, total: nat, r: nat, w: nat, words: nat, tails: seq<Bytes>,
    written: seq<Content>, i: nat, b: nat
  )
    requires IsTaskList(tasks, readers, writers, total, r, w) && Times(readers, r) + Times(writers, w) <= total
    requires i < |tasks| && b < tasks[i].numBlocks && words > 0 && Prepared(tasks, words, tails, written)
    requires forall j :: 0 <= j < |tails| ==> tails[j] == []
    ensures Repeated(words, tasks[i].startMagic + b, []) in written <==> tasks[i].dup
  {
    hide FileOf, TotalBlocks, Times, Repeated;
    BlockPrepared(tasks, readers, writers, total, r, w, words, tails, written, i, b, []);
  }
}
