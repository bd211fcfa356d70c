/**
 The MT19937 generator. The state is an array of 624 words held in 64-bit variables; every 624 calls the whole
 array is regenerated in place. The reference is the recurrence itself, over an unbounded index
 (section 26.5.3.2 of ISO/IEC 14882:2011).
 */
module MersenneTwister {
  import opened Words

  const N := 624
  const M := 397

  // ----- The operations on words

  function Xor(x: bv64, y: bv64): bv64 { x ^ y }
  function Shr1(x: bv64): bv64 { x >> 1 }
  function Shr11(x: bv64): bv64 { x >> 11 }
  function Shr18(x: bv64): bv64 { x >> 18 }
  function Shr30(x: bv64): bv64 { x >> 30 }
  function Shl7(x: bv64): bv64 { (x << 7) & 0x9d2c_5680 }
  function Shl15(x: bv64): bv64 { (x << 15) & 0xefc6_0000 }
  function Low(x: bv64): bv64 { x & 0xffff_ffff }
  function Mag(y: bv64): bv64 { if y & 1 == 1 then 0x9908_b0df else 0 }

  /** The upper bit of u joined with the lower 31 bits of v. */
  function Join(u: bv64, v: bv64): bv64 { (u & 0x8000_0000) | (v & 0x7fff_ffff) }

  /** The word fits into 32 bits. */
  predicate Fits(x: bv64) { x & 0xffff_ffff_0000_0000 == 0 }

  lemma XorFits(x: bv64, y: bv64)
    requires Fits(x) && Fits(y)
    ensures Fits(Xor(x, y))
  {
  }

  lemma Shr1Fits(x: bv64)
    requires Fits(x)
    ensures Fits(Shr1(x))
  {
  }

  lemma Shr11Fits(x: bv64)
    requires Fits(x)
    ensures Fits(Shr11(x))
  {
  }

  lemma Shr18Fits(x: bv64)
    requires Fits(x)
    ensures Fits(Shr18(x))
  {
  }

  lemma MaskedFits(x: bv64, y: bv64)
    ensures Fits(Shl7(x)) && Fits(Shl15(x)) && Fits(Low(x)) && Fits(Mag(x)) && Fits(Join(x, y))
  {
  }

  // ----- The reference: the recurrence and the tempering

  /** The sum of the seeding step; it stays below 2^64, so the word holds the number itself. */
  function SeedSum(x: bv64, i: nat): bv64 { Word(1812433253 * Number(Xor(x, Shr30(x))) + i) }

  function NextSeedWord(x: bv64, i: nat): bv64 { Low(SeedSum(x, i)) }

  function Step(far: bv64, u: bv64, v: bv64): bv64 {
    var y := Join(u, v);
    Xor(Xor(far, Shr1(y)), Mag(y))
  }

  /** Word k of the sequence started by `seed`. */
  ghost function X(seed: bv64, k: nat): bv64 {
    if k == 0 then Low(seed)
    else if k < N then NextSeedWord(X(seed, k - 1), k)
    else Step(X(seed, k - N + M), X(seed, k - N), X(seed, k - N + 1))
  }

  function Temper(x: bv64): bv64 {
    var y1 := Xor(x, Shr11(x));
    var y2 := Xor(y1, Shl7(y1));
    var y3 := Xor(y2, Shl15(y2));
    Xor(y3, Shr18(y3))
  }

  /** The n-th output after seeding. */
  ghost function Output(seed: bv64, n: nat): bv64 { Temper(X(seed, N + n)) }

  lemma StepFits(far: bv64, u: bv64, v: bv64)
    requires Fits(far)
    ensures Fits(Step(far, u, v))
  {
    hide Fits, Xor, Shr1, Mag, Join;
    var y := Join(u, v);
    MaskedFits(u, v);
    MaskedFits(y, y);
    Shr1Fits(y);
    XorFits(far, Shr1(y));
    XorFits(Xor(far, Shr1(y)), Mag(y));
  }

  lemma TemperFits(x: bv64)
    requires Fits(x)
    ensures Fits(Temper(x))
  {
    hide Fits, Xor, Shr11, Shr18, Shl7, Shl15, Low, Mag, Join;
    Shr11Fits(x);
    XorFits(x, Shr11(x));
    var y1 := Xor(x, Shr11(x));
    MaskedFits(y1, y1);
    XorFits(y1, Shl7(y1));
    var y2 := Xor(y1, Shl7(y1));
    MaskedFits(y2, y2);
    XorFits(y2, Shl15(y2));
    var y3 := Xor(y2, Shl15(y2));
    Shr18Fits(y3);
    XorFits(y3, Shr18(y3));
  }

  /** All words of the sequence, although computed in 64 bits, fit into 32. */
  lemma {:induction false} WordsFit(seed: bv64, k: nat)
    ensures Fits(X(seed, k))
  {
    hide Fits, SeedSum, Low, Step;
    if k == 0 {
      MaskedFits(seed, seed);
    } else if k < N {
      var x := X(seed, k - 1);
      MaskedFits(SeedSum(x, k), x);
    } else {
      WordsFit(seed, k - N + M);
      StepFits(X(seed, k - N + M), X(seed, k - N), X(seed, k - N + 1));
    }
  }

  /** So do all outputs. */
  lemma OutputsFit(seed: bv64, n: nat)
    ensures Fits(Output(seed, n))
  {
    hide Fits, Temper, X;
    WordsFit(seed, N + n);
    TemperFits(X(seed, N + n));
  }

  // ----- The generator

  /** The state words hold the window of the reference sequence that starts at `base`. */
  ghost predicate Window(words: seq<bv64>, seed: bv64, base: nat) {
    |words| == N && forall i :: 0 <= i < N ==> words[i] == X(seed, base + i)
  }

  lemma WindowAt(words: seq<bv64>, seed: bv64, base: nat, i: nat)
    requires Window(words, seed, base) && i < N
    ensures |words| == N && words[i] == X(seed, base + i)
  {
    hide X;
  }

  /** Mid-regeneration: the first `done` words have moved on by N, the others not yet. */
  ghost predicate Moving(words: seq<bv64>, seed: bv64, base: nat, done: nat) {
    && |words| == N && done <= N
    && (forall i :: 0 <= i < done ==> words[i] == X(seed, base + N + i))
    && (forall i :: done <= i < N ==> words[i] == X(seed, base + i))
  }

  function Cyclic(i: nat): nat
    requires i < N + N
  {
    if i < N then i else i - N
  }

  lemma Recurrence(seed: bv64, k: nat)
    ensures X(seed, k + N) == Step(X(seed, k + M), X(seed, k), X(seed, k + 1))
  {
    hide Step, NextSeedWord, Low;
  }

  lemma SeedWords(seed: bv64, k: nat)
    requires k < N
    ensures k == 0 ==> X(seed, 0 + k) == Low(seed)
    ensures k > 0 ==> X(seed, 0 + k) == Low(SeedSum(X(seed, 0 + (k - 1)), k))
  {
    hide Low, SeedSum, Step;
  }

  /**
   The word d places ahead, cyclically, is word d ahead in the sequence: wrapped-around words have moved on already.
   */
  lemma AheadOf(words: seq<bv64>, seed: bv64, base: nat, done: nat, d: nat)
    requires Moving(words, seed, base, done) && done < N && 0 < d < N
    ensures words[Cyclic(done + d)] == X(seed, base + done + d)
  {
    hide X;
    if done + d >= N {
      assert words[done + d - N] == X(seed, base + N + (done + d - N));
    } else {
      assert words[done + d] == X(seed, base + (done + d));
    }
  }

  /** Regenerating word `done` needs its own old value, its right neighbour and the word M further on, cyclically. */
  lemma MoveOne(words: seq<bv64>, seed: bv64, base: nat, done: nat, word: bv64)
    requires Moving(words, seed, base, done) && done < N
    requires word == Step(words[Cyclic(done + M)], words[done], words[Cyclic(done + 1)])
    ensures Moving(words[done := word], seed, base, done + 1)
  {
    hide X, Step;
    var k := base + done;
    AheadOf(words, seed, base, done, 1);
    AheadOf(words, seed, base, done, M);
    Recurrence(seed, k);
    assert k + N == base + N + done;
  }

  /** The static variables `mt`, `mti` of the plain interface, or the struct behind a pointer of the reentrant one. */
  class State {
    const mt: array<bv64>
    var mti: nat
    ghost var seed: bv64
    ghost var produced: nat

    /** An unseeded state has mti == N + 1 and arbitrary words. */
    ghost predicate Valid()
      reads this, mt
    {
      && mt.Length == N
      && mti <= N + 1
      && (mti <= N ==> mti <= N + produced && Window(mt[..], seed, N + produced - mti))
    }

    constructor ()
      ensures Valid() && mti == N + 1 && fresh(mt)
    {
      mt := new bv64[N];
      mti := N + 1;
    }

    /** Overwrites whatever the state held. */
    method InitGenrand(s: bv64)
      requires mt.Length == N
      modifies this`mti, this`seed, this`produced, mt
      ensures Valid() && mti == N
      ensures seed == s && produced == 0
    {
      hide X, Low, SeedSum;
      seed, produced := s, 0;
      SeedWords(s, 0);
      mt[0] := Low(s);
      mti := 1;
      while mti < N
        invariant 1 <= mti <= N && seed == s && produced == 0
        invariant forall i :: 0 <= i < mti ==> mt[i] == X(seed, 0 + i)
      {
        SeedWords(s, mti);
        mt[mti] := SeedSum(mt[mti - 1], mti);
        mt[mti] := Low(mt[mti]);
        mti := mti + 1;
      }
    }

    /** Replaces the window [base, base + N) of the sequence by the next one. */
    method Regenerate(ghost base: nat)
      requires mt.Length == N && Window(mt[..], seed, base)
      modifies mt
      ensures Window(mt[..], seed, base + N)
    {
      hide X, Xor, Shr1, Mag, Join;
      var kk := 0;
      while kk < N - M
        invariant 0 <= kk <= N - M && Moving(mt[..], seed, base, kk)
      {
        var y := Join(mt[kk], mt[kk + 1]);
        var word := Xor(Xor(mt[kk + M], Shr1(y)), Mag(y));
        MoveOne(mt[..], seed, base, kk, word);
        mt[kk] := word;
        kk := kk + 1;
      }
      while kk < N - 1
        invariant N - M <= kk <= N - 1 && Moving(mt[..], seed, base, kk)
      {
        var y := Join(mt[kk], mt[kk + 1]);
        var word := Xor(Xor(mt[kk + M - N], Shr1(y)), Mag(y));
        MoveOne(mt[..], seed, base, kk, word);
        mt[kk] := word;
        kk := kk + 1;
      }
      var y := Join(mt[N - 1], mt[0]);
      var word := Xor(Xor(mt[M - 1], Shr1(y)), Mag(y));
      MoveOne(mt[..], seed, base, N - 1, word);
      mt[N - 1] := word;
    }

    /** The n-th call after seeding returns the n-th output of the reference; an unseeded state seeds itself first. */
    method GenrandInt32() returns (y: bv64)
      requires Valid()
      modifies this`mti, this`seed, this`produced, mt
      ensures Valid() && mti <= N
      ensures old(mti) <= N ==> seed == old(seed) && produced == old(produced) + 1
      ensures old(mti) == N + 1 ==> seed == 5489 && produced == 1
      ensures y == Output(seed, produced - 1) && Fits(y)
    {
      hide X, Xor, Shr11, Shr18, Shl7, Shl15, Fits, Window;
      if mti >= N {
        if mti == N + 1 {
          InitGenrand(5489);
        }
        Regenerate(produced);
        mti := 0;
      }
      WindowAt(mt[..], seed, N + produced - mti, mti);
      y := mt[mti];
      OutputsFit(seed, produced);
      mti := mti + 1;
      produced := produced + 1;
      y := Xor(y, Shr11(y));
      y := Xor(y, Shl7(y));
      y := Xor(y, Shl15(y));
      y := Xor(y, Shr18(y));
    }
  }

  /** Any number of draws after seeding: draw i is output i of the reference. */
  method Draw(seed: bv64, n: nat) returns (words: seq<bv64>)
    ensures |words| == n && forall i :: 0 <= i < n ==> words[i] == Output(seed, i) && Fits(words[i])
  {
    hide Output, Fits;
    var state := new State();
    state.InitGenrand(seed);
    words := [];
    for k := 0 to n
      invariant state.Valid() && fresh(state) && fresh(state.mt) && state.mti <= N
      invariant state.seed == seed && state.produced == k && |words| == k
      invariant forall i :: 0 <= i < k ==> words[i] == Output(seed, i) && Fits(words[i])
    {
      var word := state.GenrandInt32();
      words := words + [word];
    }
  }
}
