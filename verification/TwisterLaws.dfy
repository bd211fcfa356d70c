/**
 What MT19937 computes, apart from how: the linear maps behind its recurrence and its tempering, on every word and on
 single bits, and its seeding as arithmetic modulo 2^32.
 */
module TwisterLaws {
  import opened Basics
  import opened Words
  import opened MersenneTwister

  // ----- The recurrence is linear

  lemma JoinLinear(u: bv64, v: bv64, u': bv64, v': bv64)
    ensures Join(Xor(u, u'), Xor(v, v')) == Xor(Join(u, v), Join(u', v'))
  {
  }

  lemma MagLinear(y: bv64, y': bv64)
    ensures Mag(Xor(y, y')) == Xor(Mag(y), Mag(y'))
  {
  }

  lemma Shr1Linear(y: bv64, y': bv64)
    ensures Shr1(Xor(y, y')) == Xor(Shr1(y), Shr1(y'))
  {
  }

  lemma XorAssociates(a: bv64, b: bv64, c: bv64)
    ensures Xor(Xor(a, b), c) == Xor(a, Xor(b, c))
  {
  }

  lemma XorCommutes(a: bv64, b: bv64)
    ensures Xor(a, b) == Xor(b, a)
  {
  }

  lemma XorCancels(a: bv64, b: bv64)
    ensures Xor(Xor(a, b), b) == a && Xor(a, 0) == a
  {
  }

  lemma XorPairs(a: bv64, b: bv64, c: bv64, d: bv64)
    ensures Xor(Xor(a, b), Xor(c, d)) == Xor(Xor(a, c), Xor(b, d))
  {
    hide Xor;
    XorAssociates(a, b, Xor(c, d));
    XorAssociates(b, c, d);
    XorCommutes(b, c);
    XorAssociates(c, b, d);
    XorAssociates(a, c, Xor(b, d));
  }

  /** A step of the recurrence commutes with exclusive or. */
  lemma StepLinear(f: bv64, u: bv64, v: bv64, f': bv64, u': bv64, v': bv64)
    ensures Step(Xor(f, f'), Xor(u, u'), Xor(v, v')) == Xor(Step(f, u, v), Step(f', u', v'))
  {
    hide Xor, Join, Mag, Shr1;
    var y, y' := Join(u, v), Join(u', v');
    JoinLinear(u, v, u', v');
    MagLinear(y, y');
    Shr1Linear(y, y');
    XorPairs(f, f', Shr1(y), Shr1(y'));
    XorPairs(Xor(f, Shr1(y)), Xor(f', Shr1(y')), Mag(y), Mag(y'));
  }

  /** The matrix: the far word as it is, the old word's top bit, and the last row for the next word's lowest bit. */
  lemma StepMatrix(far: bv64, u: bv64, v: bv64)
    ensures Step(far, 0, 0) == far
    ensures Step(0, 0x8000_0000, 0) == 0x4000_0000
    ensures Step(0, 0, 1) == 0x9908_b0df
    ensures u & 0x8000_0000 == 0 ==> Step(0, u, 0) == 0
    ensures v & 0x7fff_ffff == 0 ==> Step(0, 0, v) == 0
  {
  }

  lemma StepShifts(w: bv64)
    requires Below(w, 0x3fff_ffff)
    ensures Step(0, 0, Twice(w, false)) == w
  {
  }

  /** Every other bit of the next word moves down by one place. */
  lemma StepOnBits(j: nat)
    requires 1 <= j < 31
    ensures Step(0, 0, Word(Pow2(j))) == Word(Pow2(j - 1))
  {
    hide Step, Word, Twice, Mask, Below;
    WordHalves(Pow2(j));
    PowersRise(j, 31);
    WordFits(Pow2(j - 1), 30);
    Masks();
    StepShifts(Word(Pow2(j - 1)));
  }

  lemma {:induction false} PowersRise(j: nat, k: nat)
    requires j < k
    ensures Pow2(j) < Pow2(k) && (j >= 1 ==> Pow2(j - 1) < Pow2(k - 1))
    decreases k
  {
    if j < k - 1 { PowersRise(j, k - 1); }
  }

  /** The words of a step are 624, 623 and 227 places back. */
  lemma StepDistances(seed: bv64, k: nat)
    ensures X(seed, k + 624) == Step(X(seed, k + 397), X(seed, k), X(seed, k + 1))
  {
    hide X, Step;
    Recurrence(seed, k);
  }

  // ----- The tempering is linear and invertible

  lemma Shr11Linear(x: bv64, y: bv64)
    ensures Shr11(Xor(x, y)) == Xor(Shr11(x), Shr11(y))
  {
  }

  lemma Shr18Linear(x: bv64, y: bv64)
    ensures Shr18(Xor(x, y)) == Xor(Shr18(x), Shr18(y))
  {
  }

  lemma Shl7Linear(x: bv64, y: bv64)
    ensures Shl7(Xor(x, y)) == Xor(Shl7(x), Shl7(y))
  {
  }

  lemma Shl15Linear(x: bv64, y: bv64)
    ensures Shl15(Xor(x, y)) == Xor(Shl15(x), Shl15(y))
  {
  }

  lemma TemperLinear(x: bv64, y: bv64)
    ensures Temper(Xor(x, y)) == Xor(Temper(x), Temper(y))
  {
    hide Xor, Shr11, Shr18, Shl7, Shl15;
    var x1, y1 := Xor(x, Shr11(x)), Xor(y, Shr11(y));
    Shr11Linear(x, y);
    XorPairs(x, y, Shr11(x), Shr11(y));
    var x2, y2 := Xor(x1, Shl7(x1)), Xor(y1, Shl7(y1));
    Shl7Linear(x1, y1);
    XorPairs(x1, y1, Shl7(x1), Shl7(y1));
    var x3, y3 := Xor(x2, Shl15(x2)), Xor(y2, Shl15(y2));
    Shl15Linear(x2, y2);
    XorPairs(x2, y2, Shl15(x2), Shl15(y2));
    Shr18Linear(x3, y3);
    XorPairs(x3, y3, Shr18(x3), Shr18(y3));
  }

  /** The tempering of the single bits; with linearity, of every 32-bit word. */
  lemma TemperLowBits()
    ensures Temper(0x1) == 0x40_0091
    ensures Temper(0x2) == 0x2
    ensures Temper(0x4) == 0x102_0244
    ensures Temper(0x8) == 0x204_0489
    ensures Temper(0x10) == 0x10
    ensures Temper(0x20) == 0x800_1220
    ensures Temper(0x40) == 0x40
    ensures Temper(0x80) == 0x2040_4890
    ensures Temper(0x100) == 0x80_0120
    ensures Temper(0x200) == 0x100_0240
    ensures Temper(0x400) == 0x200_0480
    ensures Temper(0x800) == 0x444_0990
    ensures Temper(0x1000) == 0x808_1200
    ensures Temper(0x2000) == 0x102_2244
    ensures Temper(0x4000) == 0x2224_4c81
    ensures Temper(0x8000) == 0x4000_9010
  {
  }

  lemma TemperHighBits()
    ensures Temper(0x1_0000) == 0x8801_3220
    ensures Temper(0x2_0000) == 0x102_0000
    ensures Temper(0x4_0000) == 0x2044_4891
    ensures Temper(0x8_0000) == 0x488_0022
    ensures Temper(0x10_0000) == 0x910_0044
    ensures Temper(0x20_0000) == 0x1220_0088
    ensures Temper(0x40_0000) == 0x444_0911
    ensures Temper(0x80_0000) == 0x888_1222
    ensures Temper(0x100_0000) == 0x8100_0040
    ensures Temper(0x200_0000) == 0x2220_4888
    ensures Temper(0x400_0000) == 0x4400_9100
    ensures Temper(0x800_0000) == 0x8801_2200
    ensures Temper(0x1000_0000) == 0x1102_0440
    ensures Temper(0x2000_0000) == 0x2004_0801
    ensures Temper(0x4000_0000) == 0x4408_1102
    ensures Temper(0x8000_0000) == 0x8810_2204
  {
  }

  function UnShr18(y: bv64): bv64 { Xor(y, Shr18(y)) }
  function UnShl15(y: bv64): bv64 { y ^ ((y << 15) & 0xefc6_0000) }
  function AgainShl7(y: bv64, z: bv64): bv64 { y ^ ((z << 7) & 0x9d2c_5680) }
  function UnShl7(y: bv64): bv64 { AgainShl7(y, AgainShl7(y, AgainShl7(y, AgainShl7(y, y)))) }
  function UnShr11(y: bv64): bv64 { Xor(y, Shr11(Xor(y, Shr11(y)))) }

  function Untemper(y: bv64): bv64 { UnShr11(UnShl7(UnShl15(UnShr18(y)))) }

  lemma UndoShr18(x: bv64)
    requires Fits(x)
    ensures UnShr18(Xor(x, Shr18(x))) == x
  {
    hide Xor, Shr18, Fits;
    var s := Shr18(x);
    Shr18Linear(x, s);
    ShiftedOut(x);
    XorCancels(s, 0);
    XorCancels(x, s);
  }

  lemma ShiftedOut(x: bv64)
    requires Fits(x)
    ensures Shr18(Shr18(x)) == 0 && Shr11(Shr11(Shr11(x))) == 0
  {
  }

  lemma UndoShl15(x: bv64)
    requires Fits(x)
    ensures UnShl15(Xor(x, Shl15(x))) == x
  {
  }

  lemma UndoShl7(x: bv64)
    requires Fits(x)
    ensures UnShl7(Xor(x, Shl7(x))) == x
  {
  }

  lemma UndoShr11(x: bv64)
    requires Fits(x)
    ensures UnShr11(Xor(x, Shr11(x))) == x
  {
    hide Xor, Shr11, Fits;
    var s := Shr11(x);
    var s2, y := Shr11(s), Xor(x, s);
    Shr11Linear(x, s);
    ShiftedOut(x);
    XorAssociates(x, s, Xor(s, s2));
    XorAssociates(s, s, s2);
    XorCommutes(s, s2);
    XorCommutes(s, Xor(s, s2));
    XorCancels(s2, s);
    Shr11Linear(x, s2);
    XorCancels(s, 0);
    XorCancels(x, s);
  }

  /** No two words have the same output: the tempering can be undone. */
  lemma TemperInvertible(x: bv64)
    requires Fits(x)
    ensures Untemper(Temper(x)) == x
  {
    hide Xor, Shr11, Shr18, Shl7, Shl15, Fits, UnShr18, UnShl15, UnShl7, UnShr11, Low, Mag, Join;
    var x1 := Xor(x, Shr11(x));
    Shr11Fits(x);
    XorFits(x, Shr11(x));
    var x2 := Xor(x1, Shl7(x1));
    MaskedFits(x1, x1);
    XorFits(x1, Shl7(x1));
    var x3 := Xor(x2, Shl15(x2));
    MaskedFits(x2, x2);
    XorFits(x2, Shl15(x2));
    UndoShr18(x3);
    UndoShl15(x2);
    UndoShl7(x1);
    UndoShr11(x);
  }

  // ----- Seeding is arithmetic modulo 2^32

  lemma LowIsAnd(x: bv64)
    ensures Low(x) == And(x, 0xffff_ffff)
  {
  }

  lemma FitsBelow(x: bv64)
    ensures Fits(x) <==> Below(x, 0xffff_ffff)
  {
  }

  lemma Shr30Fits(x: bv64)
    requires Fits(x)
    ensures Fits(Shr30(x))
  {
  }

  /** The 64-bit sum of a seeding step does not wrap around. */
  lemma SeedSumFits(x: bv64, i: nat)
    requires Fits(x) && i < 624
    ensures 1812433253 * Number(Xor(x, Shr30(x))) + i < 0x8000_0000_0000_0000
  {
    hide Fits, Xor, Shr30, Number, Word, Below;
    Shr30Fits(x);
    XorFits(x, Shr30(x));
    FitsBelow(Xor(x, Shr30(x)));
    NumberOfWord(Xor(x, Shr30(x)));
  }

  /** Word k + 1 from word k, as numbers. */
  lemma SeedArithmetic(seed: bv64, k: nat)
    requires k + 1 < 624
    ensures var x := X(seed, k);
            Number(X(seed, k + 1)) == (1812433253 * Number(Xor(x, Shr30(x))) + (k + 1)) % 0x1_0000_0000
  {
    hide X, Number, Word, Low, And, Xor, Shr30;
    var x := X(seed, k);
    SeedWords(seed, k + 1);
    var sum := 1812433253 * Number(Xor(x, Shr30(x))) + (k + 1);
    LowIsAnd(Word(sum));
    NumberLow(sum);
  }

  /** Word 0 is the seed, cut to 32 bits. */
  lemma SeedStart(n: nat)
    ensures Number(X(Word(n), 0)) == n % 0x1_0000_0000
  {
    hide Number, Word, Low, And;
    LowIsAnd(Word(n));
    NumberLow(n);
  }

  lemma KnownWords()
    ensures Word(5489) == 5489 && Word(1301868182) == 1301868182 && Word(1301868183) == 1301868183
    ensures Word(2938499221) == 2938499221
  {
    hide Word;
    Digits();
    WordHex(0x1, 0x5);
    WordHex(0x15, 0x7);
    WordHex(0x157, 0x1);
    WordHex(0x4, 0xd);
    WordHex(0x4d, 0x9);
    WordHex(0x4d9, 0x8);
    WordHex(0x4d98, 0xe);
    WordHex(0x4d98e, 0xe);
    WordHex(0x4d98ee, 0x9);
    WordHex(0x4d98ee9, 0x6);
    WordHex(0x4d98ee9, 0x7);
    WordHex(0xa, 0xf);
    WordHex(0xaf, 0x2);
    WordHex(0xaf2, 0x5);
    WordHex(0xaf25, 0xf);
    WordHex(0xaf25f, 0x0);
    WordHex(0xaf25f0, 0x9);
    WordHex(0xaf25f09, 0x5);
  }

  /** The default seed 5489 is followed by 1301868182 and 2938499221. */
  lemma KnownSeed()
    ensures X(5489, 0) == 5489 && X(5489, 1) == 1301868182 && X(5489, 2) == 2938499221
  {
    hide Word, Number, X, Xor, Shr30;
    KnownWords();
    WordOfNumber(5489);
    WordOfNumber(1301868183);
    StartOf5489();
    SeedSums();
    NextOf(5489, 0, 5489);
    NextOf(5489, 1, 1301868183);
  }

  lemma SeedSums()
    ensures (1812433253 * 5489 + (0 + 1)) % 0x1_0000_0000 == 1301868182
    ensures (1812433253 * 1301868183 + (1 + 1)) % 0x1_0000_0000 == 2938499221
  {
  }

  lemma StartOf5489()
    ensures X(5489, 0) == 5489
    ensures Xor(5489, Shr30(5489)) == 5489 && Xor(1301868182, Shr30(1301868182)) == 1301868183
  {
  }

  lemma NextOf(seed: bv64, k: nat, n: nat)
    requires k + 1 < 624 && Number(Xor(X(seed, k), Shr30(X(seed, k)))) == n
    ensures X(seed, k + 1) == Word((1812433253 * n + (k + 1)) % 0x1_0000_0000)
  {
    hide X, Number, Word, Low, And, Xor, Shr30;
    SeedWords(seed, k + 1);
    var sum := 1812433253 * n + (k + 1);
    LowIsAnd(Word(sum));
    NumberLow(sum);
  }
}
