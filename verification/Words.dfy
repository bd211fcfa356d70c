/** Numbers as 64-bit words: a homomorphism from the naturals, and its inverse on words of few bits. */
module Words {
  import opened Basics

  // ----- The operations, one at a time

  function And(x: bv64, y: bv64): bv64 { x & y }
  function Half(x: bv64): bv64 { x >> 1 }
  function Twice(x: bv64, odd: bool): bv64 { if odd then (x << 1) | 1 else x << 1 }
  predicate Odd(x: bv64) { x & 1 == 1 }
  predicate Top(x: bv64) { x & 0x8000_0000_0000_0000 != 0 }

  // ----- From numbers to words and back

  /** The number modulo 2^64 in binary. */
  function Word(n: nat): bv64 {
    if n == 0 then 0 else Twice(Word(n / 2), n % 2 == 1)
  }

  lemma WordHalves(n: nat)
    ensures Word(n) == Twice(Word(n / 2), n % 2 == 1)
  {
    if n == 0 { assert Word(0) == 0; }
  }

  /** The number that the n lowest bits are. */
  function BitsValue(x: bv64, n: nat): nat {
    if n == 0 then 0 else (if Odd(x) then 1 else 0) + 2 * BitsValue(Half(x), n - 1)
  }

  function Number(x: bv64): nat { BitsValue(x, 64) }

  // ----- Words of few bits

  /** The word with the k lowest bits set. */
  ghost function Mask(k: nat): bv64 {
    if k == 0 then 0 else Twice(Mask(k - 1), true)
  }

  predicate Below(x: bv64, mask: bv64) { And(x, mask) == x }

  lemma OneMoreBit(x: bv64, mask: bv64, odd: bool)
    requires Below(x, mask)
    ensures Below(Twice(x, odd), Twice(mask, true))
  {
    hide And, Twice;
    AndTwice(x, mask, odd);
  }

  lemma AndTwice(x: bv64, mask: bv64, odd: bool)
    ensures And(Twice(x, odd), Twice(mask, true)) == Twice(And(x, mask), odd)
  {
    hide And, Twice;
    if odd { AndOdd(x, mask); } else { AndEven(x, mask); }
  }

  lemma AndOdd(x: bv64, mask: bv64)
    ensures And(Twice(x, true), Twice(mask, true)) == Twice(And(x, mask), true)
  {
  }

  lemma AndEven(x: bv64, mask: bv64)
    ensures And(Twice(x, false), Twice(mask, true)) == Twice(And(x, mask), false)
  {
  }

  lemma ZeroBelow(mask: bv64)
    ensures Below(0, mask)
  {
  }

  lemma {:induction false} WordFits(n: nat, k: nat)
    requires n < Pow2(k)
    ensures Below(Word(n), Mask(k))
    decreases k
  {
    hide Below, Twice, Word;
    if k == 0 {
      ZeroBelow(Mask(0));
      WordZero();
    } else {
      WordFits(n / 2, k - 1);
      WordHalves(n);
      OneMoreBit(Word(n / 2), Mask(k - 1), n % 2 == 1);
    }
  }

  lemma Masks()
    ensures Mask(2) == 3 && Mask(30) == 0x3fff_ffff && Mask(32) == 0xffff_ffff && Mask(63) == 0x7fff_ffff_ffff_ffff
  {
    assert Mask(8) == 0xff;
    assert Mask(16) == 0xffff;
    assert Mask(24) == 0xff_ffff;
    assert Mask(30) == 0x3fff_ffff;
    assert Mask(32) == 0xffff_ffff;
    assert Mask(40) == 0xff_ffff_ffff;
    assert Mask(48) == 0xffff_ffff_ffff;
    assert Mask(56) == 0xff_ffff_ffff_ffff;
  }

  lemma Powers()
    ensures Pow2(2) == 4 && Pow2(30) == 0x4000_0000 && Pow2(32) == 0x1_0000_0000
  {
    assert Pow2(8) == 0x100;
    assert Pow2(16) == 0x1_0000;
    assert Pow2(24) == 0x100_0000;
  }

  // ----- The lower bits

  lemma AndZero(x: bv64)
    ensures And(x, 0) == 0
  {
  }

  /** Keeping the k lowest bits of a word is taking the number modulo 2^k. */
  lemma {:induction false} WordLow(n: nat, k: nat)
    ensures And(Word(n), Mask(k)) == Word(n % Pow2(k))
    decreases k
  {
    hide And, Twice, Word;
    if k == 0 {
      AndZero(Word(n));
      WordZero();
    } else {
      WordLow(n / 2, k - 1);
      WordHalves(n);
      AndTwice(Word(n / 2), Mask(k - 1), n % 2 == 1);
      var r := n % Pow2(k);
      HalfModulo(n, Pow2(k - 1));
      WordHalves(r);
    }
  }

  lemma HalfModulo(n: nat, m: nat)
    requires m > 0
    ensures n % (2 * m) / 2 == n / 2 % m && n % (2 * m) % 2 == n % 2
  {
    var h, q := n / 2, n / 2 / m;
    assert h == q * m + h % m;
    var r := 2 * (h % m) + n % 2;
    assert n == q * (2 * m) + r;
    RemainderIs(n, 2 * m, q, r);
  }

  // ----- The number in a word

  lemma HalfBelow(x: bv64, mask: bv64)
    requires Below(x, Twice(mask, true)) && !Top(mask)
    ensures Below(Half(x), mask) && x == Twice(Half(x), Odd(x))
  {
  }

  lemma HalfOfTwice(x: bv64, odd: bool)
    requires !Top(x)
    ensures Half(Twice(x, odd)) == x && Odd(Twice(x, odd)) == odd
  {
  }

  lemma TopBelow(x: bv64, mask: bv64)
    requires Below(x, mask) && !Top(mask)
    ensures !Top(x)
  {
  }

  lemma OnlyZero(x: bv64)
    requires Below(x, 0)
    ensures x == 0
  {
  }

  lemma NoTop()
    ensures !Top(0x7fff_ffff_ffff_ffff)
  {
  }

  lemma {:induction false} MasksClimb(j: nat, k: nat)
    requires j <= k
    ensures Below(Mask(j), Mask(k))
    decreases k
  {
    hide Below, Twice;
    if j == 0 {
      ZeroBelow(Mask(k));
    } else {
      MasksClimb(j - 1, k - 1);
      OneMoreBit(Mask(j - 1), Mask(k - 1), true);
    }
  }

  lemma MaskTop(k: nat)
    requires k < 64
    ensures !Top(Mask(k))
  {
    hide Below, Mask, Top;
    MasksClimb(k, 63);
    Masks();
    NoTop();
    TopBelow(Mask(k), Mask(63));
  }

  /** Counting up to the value of a word gives the word. */
  lemma {:induction false} ValueRoundTrip(x: bv64, n: nat)
    requires n <= 64 && Below(x, Mask(n))
    ensures BitsValue(x, n) < Pow2(n) && Word(BitsValue(x, n)) == x
    decreases n
  {
    hide Below, Twice, Half, Odd, Top, Word;
    if n == 0 {
      OnlyZero(x);
      WordZero();
    } else {
      MaskTop(n - 1);
      HalfBelow(x, Mask(n - 1));
      ValueRoundTrip(Half(x), n - 1);
      WordHalves(BitsValue(x, n));
    }
  }

  lemma WordZero()
    ensures Word(0) == 0
  {
  }

  lemma {:induction false} WordRoundTrip(v: nat, n: nat)
    requires n <= 64 && v < Pow2(n)
    ensures BitsValue(Word(v), n) == v
    decreases n
  {
    hide Below, Twice, Half, Odd, Top, Word;
    if n > 0 {
      WordFits(v / 2, n - 1);
      MaskTop(n - 1);
      TopBelow(Word(v / 2), Mask(n - 1));
      WordHalves(v);
      HalfOfTwice(Word(v / 2), v % 2 == 1);
      WordRoundTrip(v / 2, n - 1);
    }
  }

  /** Higher bits that are not set do not matter. */
  lemma {:induction false} FewBits(x: bv64, k: nat, n: nat)
    requires k <= n <= 64 && Below(x, Mask(k))
    ensures BitsValue(x, n) == BitsValue(x, k)
    decreases n
  {
    hide Below, Twice, Half, Odd, Top;
    if k > 0 {
      MaskTop(k - 1);
      HalfBelow(x, Mask(k - 1));
      FewBits(Half(x), k - 1, n - 1);
    } else {
      OnlyZero(x);
      ZeroValue(n);
    }
  }

  lemma {:induction false} ZeroValue(n: nat)
    ensures BitsValue(0, n) == 0
  {
    if n > 0 { ZeroValue(n - 1); }
  }

  /** A word of 32 bits and the number below 2^32 that it stands for. */
  lemma NumberOfWord(x: bv64)
    requires Below(x, 0xffff_ffff)
    ensures Number(x) < 0x1_0000_0000 && Word(Number(x)) == x
  {
    hide Below, BitsValue, Word, Mask, Pow2;
    Masks();
    Powers();
    FewBits(x, 32, 64);
    ValueRoundTrip(x, 32);
  }

  lemma WordOfNumber(n: nat)
    requires n < 0x1_0000_0000
    ensures Below(Word(n), 0xffff_ffff) && Number(Word(n)) == n
  {
    hide Below, BitsValue, Word, Mask, Pow2;
    Masks();
    Powers();
    WordFits(n, 32);
    FewBits(Word(n), 32, 64);
    WordRoundTrip(n, 32);
  }

  /** Cutting to 32 bits is taking the number modulo 2^32. */
  lemma NumberLow(n: nat)
    ensures And(Word(n), 0xffff_ffff) == Word(n % 0x1_0000_0000)
    ensures Number(And(Word(n), 0xffff_ffff)) == n % 0x1_0000_0000
  {
    hide And, BitsValue, Word, Mask, Pow2, Below;
    Masks();
    Powers();
    WordLow(n, 32);
    WordOfNumber(n % 0x1_0000_0000);
  }

  // ----- Hexadecimal digits

  function Quad(x: bv64, d: bv64): bv64 { (x << 2) | d }
  function Hex(x: bv64, d: bv64): bv64 { (x << 4) | d }

  lemma TwoBits(x: bv64, a: bool, b: bool)
    ensures Twice(Twice(x, a), b) == Quad(x, Twice(Twice(0, a), b))
  {
    hide Quad, Twice;
    if a {
      if b { OddOdd(x); } else { OddEven(x); }
    } else {
      if b { EvenOdd(x); } else { EvenEven(x); }
    }
  }

  lemma OddOdd(x: bv64)
    ensures Twice(Twice(x, true), true) == Quad(x, Twice(Twice(0, true), true))
  {
  }

  lemma OddEven(x: bv64)
    ensures Twice(Twice(x, true), false) == Quad(x, Twice(Twice(0, true), false))
  {
  }

  lemma EvenOdd(x: bv64)
    ensures Twice(Twice(x, false), true) == Quad(x, Twice(Twice(0, false), true))
  {
  }

  lemma EvenEven(x: bv64)
    ensures Twice(Twice(x, false), false) == Quad(x, Twice(Twice(0, false), false))
  {
    hide Quad, Twice;
    TwiceEven(x);
    TwiceEven(Twice(x, false));
    TwiceEven(0);
    EvenShift(x, Twice(x, false), Twice(Twice(x, false), false));
    ZeroShift();
  }

  lemma TwiceEven(x: bv64)
    ensures Twice(x, false) == x << 1
  {
  }

  lemma ZeroShift()
    ensures (0 as bv64) << 1 == 0
  {
  }

  lemma EvenShift(x: bv64, y: bv64, z: bv64)
    requires y == x << 1 && z == y << 1
    ensures z == Quad(x, 0)
  {
  }

  lemma TwoQuads(x: bv64, p: bv64, q: bv64)
    ensures Quad(Quad(x, p), q) == Hex(x, Quad(p, q))
  {
  }

  lemma WordQuad(h: nat, d: nat)
    requires d < 4
    ensures Word(4 * h + d) == Quad(Word(h), Word(d))
  {
    hide Word, Twice, Quad;
    var n := 4 * h + d;
    assert n / 2 == 2 * h + d / 2 && n % 2 == d % 2;
    assert n / 2 / 2 == h && n / 2 % 2 == d / 2;
    WordHalves(n);
    WordHalves(n / 2);
    WordHalves(d);
    WordHalves(d / 2);
    WordZero();
    TwoBits(Word(h), d / 2 == 1, d % 2 == 1);
  }

  /** One more digit. */
  lemma WordHex(h: nat, d: nat)
    requires d < 16
    ensures Word(16 * h + d) == Hex(Word(h), Word(d))
  {
    hide Word, Quad, Hex;
    WordQuad(4 * h + d / 4, d % 4);
    WordQuad(h, d / 4);
    WordQuad(d / 4, d % 4);
    TwoQuads(Word(h), Word(d / 4), Word(d % 4));
    assert 4 * (4 * h + d / 4) + d % 4 == 16 * h + d;
    assert 4 * (d / 4) + d % 4 == d;
  }

  lemma Digits()
    ensures Word(0) == 0 && Word(1) == 1 && Word(2) == 2 && Word(3) == 3 && Word(4) == 4 && Word(5) == 5
    ensures Word(6) == 6 && Word(7) == 7 && Word(8) == 8 && Word(9) == 9 && Word(10) == 10 && Word(11) == 11
    ensures Word(12) == 12 && Word(13) == 13 && Word(14) == 14 && Word(15) == 15
  {
    assert Word(1) == 1;
    assert Word(2) == 2 && Word(3) == 3;
    assert Word(4) == 4 && Word(5) == 5 && Word(6) == 6 && Word(7) == 7;
  }
}
