/** Filling a 4 KiB block from a record's digest, with the digest's own characters or with seeded random words. */
module Blocks {
  import opened Basics
  import opened Buckets
  import opened Words
  import opened MersenneTwister

  const BLK_SIZE := 4096

  /** How blocks are filled: copies of the digest, or the words a generator gives after seeding, stream(seed, n). */
  datatype Generator = NullGenerator | Seeded(stream: (nat, nat) -> nat) {
    /** How many bytes one step stores: 32 characters, or one word. */
    function Unit(): nat { if NullGenerator? then 32 else 4 }
  }

  // ----- How far the stores reach

  /** The whole 32-character parts of a digest. A record's field has room for eight. */
  function Parts(md5: Bytes): nat { |md5| / 32 }

  predicate HasParts(md5: Bytes) { 1 <= Parts(md5) <= 8 }

  /** The block is cut into as many pieces as there are parts. */
  function PieceSize(parts: nat): (n: nat)
    requires 1 <= parts <= 8
    ensures 512 <= n <= BLK_SIZE
  {
    BLK_SIZE / parts
  }

  function WholeWords(n: nat): (r: nat)
    ensures n <= r < n + 4 && r % 4 == 0
  {
    4 * ((n + 3) / 4)
  }

  function WholeCopies(n: nat): (r: nat)
    ensures n <= r < n + 32 && r % 32 == 0
  {
    32 * ((n + 31) / 32)
  }

  /** What the steps of one piece store: whole units until the piece is covered. */
  function Stored(parts: nat, unit: nat): (n: nat)
    requires 1 <= parts <= 8 && (unit == 4 || unit == 32)
    ensures PieceSize(parts) <= n < PieceSize(parts) + unit
    ensures (unit == 4 ==> n % 4 == 0) && (unit == 32 ==> n % 32 == 0)
  {
    if unit == 4 then WholeWords(PieceSize(parts)) else WholeCopies(PieceSize(parts))
  }

  /** Where the stores for the first i pieces end. */
  function EndOfPieces(parts: nat, unit: nat, i: nat): nat
    requires 1 <= parts <= 8 && (unit == 4 || unit == 32)
  {
    if i == 0 then 0 else (i - 1) * PieceSize(parts) + Stored(parts, unit)
  }

  function EndOfWrites(parts: nat, unit: nat): nat
    requires 1 <= parts <= 8 && (unit == 4 || unit == 32)
  {
    EndOfPieces(parts, unit, parts)
  }

  /** The digests whose stores cover the block and nothing else. */
  predicate DigestOk(gen: Generator, md5: Bytes) {
    HasParts(md5) && EndOfWrites(Parts(md5), gen.Unit()) == BLK_SIZE
  }

  /** With copies of the digest, exactly 1, 2, 4 or 8 parts fill the block; all other numbers run past it. */
  lemma NullEndsExactly(parts: nat)
    requires 1 <= parts <= 8
    ensures EndOfWrites(parts, 32) == BLK_SIZE <==> parts == 1 || parts == 2 || parts == 4 || parts == 8
    ensures EndOfWrites(parts, 32) >= BLK_SIZE
  {
    hide PieceSize, WholeCopies, WholeWords;
    PieceSizes();
    CopiesReach(4096, 4096);
    CopiesReach(2048, 2048);
    CopiesReach(1365, 1376);
    CopiesReach(1024, 1024);
    CopiesReach(819, 832);
    CopiesReach(682, 704);
    CopiesReach(585, 608);
    CopiesReach(512, 512);
  }

  lemma PieceSizes()
    ensures PieceSize(1) == 4096 && PieceSize(2) == 2048 && PieceSize(3) == 1365 && PieceSize(4) == 1024
    ensures PieceSize(5) == 819 && PieceSize(6) == 682 && PieceSize(7) == 585 && PieceSize(8) == 512
  {
  }

  lemma CopiesReach(n: nat, r: nat)
    requires n <= r < n + 32 && r % 32 == 0
    ensures WholeCopies(n) == r
  {
    hide WholeCopies;
    var d := WholeCopies(n) - r;
    assert d % 32 == 0;
  }

  lemma WordsReach(n: nat, r: nat)
    requires n <= r < n + 4 && r % 4 == 0
    ensures WholeWords(n) == r
  {
    hide WholeWords;
    var d := WholeWords(n) - r;
    assert d % 4 == 0;
  }

  /** With words also 5 parts fill it; 3 and 7 run past it, and 6 leave its last two bytes alone. */
  lemma SeededEndsExactly(parts: nat)
    requires 1 <= parts <= 8
    ensures EndOfWrites(parts, 4) == BLK_SIZE <==> parts != 3 && parts != 6 && parts != 7
    ensures EndOfWrites(parts, 4) > BLK_SIZE <==> parts == 3 || parts == 7
    ensures EndOfWrites(parts, 4) == BLK_SIZE - 2 <==> parts == 6
  {
    hide PieceSize, WholeCopies, WholeWords;
    PieceSizes();
    WordsReach(4096, 4096);
    WordsReach(2048, 2048);
    WordsReach(1365, 1368);
    WordsReach(1024, 1024);
    WordsReach(819, 820);
    WordsReach(682, 684);
    WordsReach(585, 588);
    WordsReach(512, 512);
  }

  // ----- What the stores leave

  /** The first four characters of part i, as an unsigned 32-bit number. */
  function Seed(md5: Bytes, i: nat): nat
    requires i < Parts(md5)
  {
    var p := md5[32 * i..32 * i + 4];
    p[0] as int + 256 * (p[1] as int) + 0x1_0000 * (p[2] as int) + 0x100_0000 * (p[3] as int)
  }

  /** Read back as bytes, the seed is these four characters. */
  lemma SeedIs(md5: Bytes, i: nat)
    requires i < Parts(md5)
    ensures 32 * i + 4 <= |md5| && LeBytes(Seed(md5, i), 4) == md5[32 * i..32 * i + 4]
    ensures Seed(md5, i) == FromLe(md5[32 * i..32 * i + 4])
  {
    PartInside(md5, i);
    var p := md5[32 * i..32 * i + 4];
    FourBytes(p);
    LeOfFour(p[0], p[1], p[2], p[3]);
  }

  lemma FourBytes(p: Bytes)
    requires |p| == 4
    ensures FromLe(p) == p[0] as int + 256 * (p[1] as int) + 0x1_0000 * (p[2] as int) + 0x100_0000 * (p[3] as int)
  {
    assert p[1..][1..][1..] == [p[3]] && p[1..][1..] == [p[2], p[3]] && p[1..] == [p[1], p[2], p[3]];
    assert FromLe([p[3]]) == p[3] by { assert FromLe([]) == 0; }
    assert FromLe([p[2], p[3]]) == p[2] as int + 256 * (p[3] as int) by { assert [p[2], p[3]][1..] == [p[3]]; }
  }

  lemma LeOfFour(a: nat, b: nat, c: nat, d: nat)
    requires a < 256 && b < 256 && c < 256 && d < 256
    ensures LeBytes(a + 256 * b + 0x1_0000 * c + 0x100_0000 * d, 4) == [a, b, c, d]
  {
    var x := a + 256 * b + 0x1_0000 * c + 0x100_0000 * d;
    assert x % 256 == a && x / 256 == b + 256 * c + 0x1_0000 * d;
    var y := x / 256;
    assert y % 256 == b && y / 256 == c + 256 * d;
    var z := y / 256;
    assert z % 256 == c && z / 256 == d;
    assert LeBytes(d, 1) == [d] by { assert LeBytes(d / 256, 0) == []; }
    assert LeBytes(z, 2) == [c] + LeBytes(d, 1);
    assert LeBytes(y, 3) == [b] + LeBytes(z, 2);
  }

  /** Byte r of what piece i stores. */
  function PieceByte(gen: Generator, md5: Bytes, i: nat, r: nat): Byte
    requires i < Parts(md5)
  {
    match gen
    case NullGenerator => md5[32 * i + r % 32]
    case Seeded(stream) => LeBytes(stream(Seed(md5, i), r / 4), 4)[r % 4]
  }

  /** The last of the first n pieces whose stores reach byte q. */
  function LastPiece(q: nat, size: nat, n: nat): (i: nat)
    requires size > 0 && n > 0
    ensures i < n && i * size <= q && (i < n - 1 ==> q < (i + 1) * size)
  {
    if n == 1 || (n - 1) * size <= q then n - 1 else LastPiece(q, size, n - 1)
  }

  /** Only one piece is the last. */
  lemma LastPieceIs(q: nat, size: nat, n: nat, i: nat)
    requires size > 0 && i < n && i * size <= q && (i < n - 1 ==> q < (i + 1) * size)
    ensures LastPiece(q, size, n) == i
  {
    var j := LastPiece(q, size, n);
    if j < i { TimesMonotone(j + 1, i, size); }
    if i < j { TimesMonotone(i + 1, j, size); }
  }

  /** Byte q once the first n pieces have been stored. */
  function StoredByte(gen: Generator, md5: Bytes, n: nat, q: nat): Byte
    requires HasParts(md5) && 0 < n <= Parts(md5)
  {
    var size := PieceSize(Parts(md5));
    var i := LastPiece(q, size, n);
    PieceByte(gen, md5, i, q - i * size)
  }

  /** All that is stored for a digest, whether or not it ends with the block. */
  function Filled(gen: Generator, md5: Bytes): (b: Bytes)
    requires HasParts(md5)
    ensures |b| == EndOfWrites(Parts(md5), gen.Unit())
  {
    seq(EndOfWrites(Parts(md5), gen.Unit()), q requires 0 <= q => StoredByte(gen, md5, Parts(md5), q))
  }

  /** The whole block, as a function of the digest alone. */
  function Block(gen: Generator, md5: Bytes): (b: Bytes)
    requires DigestOk(gen, md5)
    ensures |b| == BLK_SIZE
  {
    Filled(gen, md5)
  }

  // ----- Which blocks are duplicates

  lemma NullDigests(md5: Bytes)
    requires HasParts(md5)
    ensures DigestOk(NullGenerator, md5) <==>
            Parts(md5) == 1 || Parts(md5) == 2 || Parts(md5) == 4 || Parts(md5) == 8
  {
    hide EndOfPieces;
    NullEndsExactly(Parts(md5));
  }

  lemma NullParts(md5: Bytes)
    requires DigestOk(NullGenerator, md5)
    ensures var n := Parts(md5); (n == 1 || n == 2 || n == 4 || n == 8) && PieceSize(n) * n == BLK_SIZE
  {
    hide PieceSize, EndOfPieces, Parts;
    NullEndsExactly(Parts(md5));
    PieceSizes();
  }

  /** The part of the digest that fills the k-th eighth of the block. */
  function Eighth(md5: Bytes, k: nat): (part: Bytes)
    requires DigestOk(NullGenerator, md5) && k < 8
    ensures |part| == 32
  {
    NullParts(md5);
    var i := k * Parts(md5) / 8;
    md5[32 * i..32 * i + 32]
  }

  /** With n pieces, piece k * n / 8 covers the k-th eighth of the block. */
  lemma EighthPiece(n: nat, k: nat)
    requires (n == 1 || n == 2 || n == 4 || n == 8) && k < 8
    ensures var i, size := k * n / 8, PieceSize(n);
            i < n && i * size <= 512 * k && 512 * k + 512 <= (i + 1) * size && (512 * k - i * size) % 32 == 0
  {
    hide PieceSize;
    PieceSizes();
    if n == 1 {
      assert k * n / 8 == 0;
    } else if n == 2 {
      var i := k * n / 8;
      assert 4 * i <= k < 4 * i + 4;
    } else if n == 4 {
      var i := k * n / 8;
      assert 2 * i <= k < 2 * i + 2;
    } else {
      assert k * n / 8 == k;
    }
  }

  lemma EighthFills(md5: Bytes, k: nat, r: nat)
    requires DigestOk(NullGenerator, md5) && k < 8 && r < 512
    ensures Block(NullGenerator, md5)[512 * k + r] == Eighth(md5, k)[r % 32]
  {
    hide DigestOk, Block, PieceSize, Parts, Eighth;
    NullParts(md5);
    var n, q := Parts(md5), 512 * k + r;
    var i := k * n / 8;
    EighthPiece(n, k);
    BlockByte(NullGenerator, md5, i, q);
    EighthIs(md5, k, i);
    Remainder(512 * k - i * PieceSize(n), r);
  }

  lemma BlockByte(gen: Generator, md5: Bytes, i: nat, q: nat)
    requires DigestOk(gen, md5) && i < Parts(md5) && q < BLK_SIZE
    requires i * PieceSize(Parts(md5)) <= q < (i + 1) * PieceSize(Parts(md5))
    ensures Block(gen, md5)[q] == PieceByte(gen, md5, i, q - i * PieceSize(Parts(md5)))
  {
    hide EndOfPieces, PieceSize, Parts, LastPiece, PieceByte;
    LastPieceIs(q, PieceSize(Parts(md5)), Parts(md5), i);
    assert Block(gen, md5)[q] == StoredByte(gen, md5, Parts(md5), q);
  }

  lemma Remainder(a: nat, r: nat)
    requires a % 32 == 0
    ensures (a + r) % 32 == r % 32
  {
  }

  lemma EighthIs(md5: Bytes, k: nat, i: nat)
    requires DigestOk(NullGenerator, md5) && k < 8 && i == k * Parts(md5) / 8
    ensures 32 * i + 32 <= 32 * Parts(md5) <= |md5| && Eighth(md5, k) == md5[32 * i..32 * i + 32]
  {
    hide DigestOk;
    NullParts(md5);
  }

  /** With the null generator two digests, of whatever lengths, give equal blocks exactly if all eighths agree. */
  lemma DuplicateStructure(a: Bytes, b: Bytes)
    requires DigestOk(NullGenerator, a) && DigestOk(NullGenerator, b)
    ensures Block(NullGenerator, a) == Block(NullGenerator, b)
       <==> forall k :: 0 <= k < 8 ==> Eighth(a, k) == Eighth(b, k)
  {
    hide Block, Eighth, DigestOk;
    var x, y := Block(NullGenerator, a), Block(NullGenerator, b);
    if forall k :: 0 <= k < 8 ==> Eighth(a, k) == Eighth(b, k) {
      forall q | 0 <= q < BLK_SIZE ensures x[q] == y[q] {
        EighthFills(a, q / 512, q % 512);
        EighthFills(b, q / 512, q % 512);
      }
    }
    if x == y {
      forall k | 0 <= k < 8 ensures Eighth(a, k) == Eighth(b, k) {
        forall r | 0 <= r < 32 ensures Eighth(a, k)[r] == Eighth(b, k)[r] {
          EighthFills(a, k, r);
          EighthFills(b, k, r);
        }
      }
    }
  }

  /** Digests with equally many whole parts give equal blocks exactly if those parts agree; the tails do not matter. */
  lemma SameLengthDuplicates(a: Bytes, b: Bytes)
    requires DigestOk(NullGenerator, a) && DigestOk(NullGenerator, b) && Parts(a) == Parts(b)
    ensures Block(NullGenerator, a) == Block(NullGenerator, b) <==> a[..32 * Parts(a)] == b[..32 * Parts(b)]
  {
    hide Block, DigestOk;
    var n := Parts(a);
    NullParts(a);
    DuplicateStructure(a, b);
    if forall k :: 0 <= k < 8 ==> Eighth(a, k) == Eighth(b, k) {
      forall x | 0 <= x < 32 * n ensures a[x] == b[x] {
        var k := EighthOfPart(n, x / 32);
        assert Eighth(a, k)[x % 32] == Eighth(b, k)[x % 32];
      }
    }
    if a[..32 * n] == b[..32 * n] {
      forall k | 0 <= k < 8 ensures Eighth(a, k) == Eighth(b, k) {
        EighthPrefix(a, k);
        EighthPrefix(b, k);
      }
    }
  }

  lemma EighthOfPart(n: nat, i: nat) returns (k: nat)
    requires (n == 1 || n == 2 || n == 4 || n == 8) && i < n
    ensures k < 8 && k * n / 8 == i
  {
    k := if n == 1 then 0 else if n == 2 then 4 * i else if n == 4 then 2 * i else i;
  }

  lemma EighthPrefix(md5: Bytes, k: nat)
    requires DigestOk(NullGenerator, md5) && k < 8
    ensures var i, whole := k * Parts(md5) / 8, 32 * Parts(md5);
            32 * i + 32 <= whole <= |md5| && Eighth(md5, k) == md5[..whole][32 * i..32 * i + 32]
  {
    hide DigestOk, Parts, Eighth;
    var i, whole := k * Parts(md5) / 8, 32 * Parts(md5);
    NullParts(md5);
    EighthIs(md5, k, i);
    assert md5[..whole][32 * i..32 * i + 32] == md5[32 * i..32 * i + 32];
  }

  /** Forty characters, as of a SHA-1 digest: the last eight never reach the block. */
  lemma TailIsIgnored(head: Bytes, tail: Bytes, tail': Bytes)
    requires |head| == 32 && |tail| == |tail'| == 8 && tail != tail'
    ensures DigestOk(NullGenerator, head + tail) && DigestOk(NullGenerator, head + tail')
    ensures head + tail != head + tail' && Block(NullGenerator, head + tail) == Block(NullGenerator, head + tail')
  {
    hide Block, DigestOk;
    var a, b := head + tail, head + tail';
    NullDigests(a);
    NullDigests(b);
    assert a[..32] == b[..32];
    assert a[32..] == tail && b[32..] == tail';
    SameLengthDuplicates(a, b);
  }

  /** A digest of one part and its doubling are different strings with the same block. */
  lemma DoublingIsDuplicate(a: Bytes)
    requires |a| == 32
    ensures DigestOk(NullGenerator, a) && DigestOk(NullGenerator, a + a)
    ensures a != a + a && Block(NullGenerator, a) == Block(NullGenerator, a + a)
  {
    hide Block, Eighth, DigestOk;
    NullDigests(a);
    NullDigests(a + a);
    DuplicateStructure(a, a + a);
    forall k | 0 <= k < 8 ensures Eighth(a, k) == Eighth(a + a, k) {
      var i := k * 2 / 8;
      EighthIs(a, k, 0);
      EighthIs(a + a, k, i);
      assert (a + a)[32 * i..32 * i + 32] == a;
    }
  }

  // ----- What a seeded block holds

  /**
   The j-th word of piece i, read from the block with its low byte first, is word j of the stream that follows the
   first four characters of part i, read the same way.
   */
  lemma SeededBlockWords(gen: Generator, md5: Bytes, i: nat, j: nat)
    requires gen.Seeded? && DigestOk(gen, md5) && i < Parts(md5) && 4 * j + 4 <= BLK_SIZE / Parts(md5)
    ensures var at := i * (BLK_SIZE / Parts(md5)) + 4 * j;
            && at + 4 <= BLK_SIZE && 32 * i + 4 <= |md5|
            && FromLe(Block(gen, md5)[at..at + 4]) == gen.stream(FromLe(md5[32 * i..32 * i + 4]), j) % 0x1_0000_0000
  {
    hide Block, EndOfPieces, Parts, Seed, FromLe, LeBytes, PieceSize;
    PieceSizeIs(Parts(md5));
    var size := PieceSize(Parts(md5));
    var at, word := i * size + 4 * j, gen.stream(Seed(md5, i), j);
    PieceInside(gen, md5, i);
    SeedIs(md5, i);
    TimesSum(i, 1, size);
    forall k | 0 <= k < 4 ensures Block(gen, md5)[at..at + 4][k] == LeBytes(word, 4)[k] {
      BlockByte(gen, md5, i, at + k);
      WordByte(gen, md5, i, j, k);
    }
    assert Block(gen, md5)[at..at + 4] == LeBytes(word, 4);
    FromLeModulo(word, 4);
    FourOf256();
  }

  lemma PieceSizeIs(parts: nat)
    requires 1 <= parts <= 8
    ensures PieceSize(parts) == BLK_SIZE / parts
  {
  }

  lemma FourOf256()
    ensures Pow256(4) == 0x1_0000_0000
  {
    assert Pow256(2) == 0x1_0000;
  }

  lemma WordByte(gen: Generator, md5: Bytes, i: nat, j: nat, k: nat)
    requires gen.Seeded? && i < Parts(md5) && k < 4
    ensures PieceByte(gen, md5, i, 4 * j + k) == LeBytes(gen.stream(Seed(md5, i), j), 4)[k]
  {
    hide LeBytes, Seed, Parts;
    assert (4 * j + k) / 4 == j && (4 * j + k) % 4 == k;
  }

  /** A piece does not reach past the block. */
  lemma PieceInside(gen: Generator, md5: Bytes, i: nat)
    requires DigestOk(gen, md5) && i < Parts(md5)
    ensures (i + 1) * PieceSize(Parts(md5)) <= BLK_SIZE
  {
    hide PieceSize, Parts, Stored;
    var n, size := Parts(md5), PieceSize(Parts(md5));
    TimesMonotone(i + 1, n, size);
    TimesSum(n - 1, 1, size);
  }

  // ----- The generators

  /** The seed as the Mersenne Twister takes it: 32 bits in a 64-bit variable. */
  function SeedWord(seed: nat): bv64 { Word(seed % 0x1_0000_0000) }

  /** An output, cut to the 32 bits that are stored. */
  function WordValue(word: bv64): nat { Number(word) % 0x1_0000_0000 }

  /** The stream of the `mt19937ar` generator: its n-th word after seeding. */
  ghost function MtWord(seed: nat, n: nat): nat { WordValue(Output(SeedWord(seed), n)) }

  ghost function MtGenerator(): Generator { Seeded(MtWord) }

  /** A seed keeps its value modulo 2^32 on the way in, and so does a word on the way out. */
  lemma SeedsAndWords(seed: nat, word: bv64)
    ensures Number(SeedWord(seed)) == seed % 0x1_0000_0000
    ensures Below(word, 0xffff_ffff) ==> Word(WordValue(word)) == word && WordValue(word) == Number(word)
  {
    hide Word, Number, Below;
    WordOfNumber(seed % 0x1_0000_0000);
    if Below(word, 0xffff_ffff) { NumberOfWord(word); }
  }

  /** Byte r of a piece is byte r % 4 of output r / 4 after seeding with the part's first four characters. */
  lemma MtPieceByte(md5: Bytes, i: nat, r: nat)
    requires i < Parts(md5)
    ensures PieceByte(MtGenerator(), md5, i, r) == LeBytes(WordValue(Output(SeedWord(Seed(md5, i)), r / 4)), 4)[r % 4]
  {
    hide LeBytes, Output, WordValue, SeedWord, Seed;
  }

  /** What the context pointer leads to: nothing, a seed with its own stream of words, or the state of MT19937. */
  datatype Source = NoSource | Words(stream: (nat, nat) -> nat) | Twister(state: State)

  /** The generator behind the function pointers: seeding restarts its stream. */
  class RandGener {
    const source: Source
    var seed: nat
    var drawn: nat
    ghost const Repr: set<object>

    ghost predicate Valid() {
      && Repr == {this} + (if source.Twister? then {source.state, source.state.mt} else {})
      && (source.Twister? ==> source.state.mt.Length == N)
    }

    ghost function Gen(): Generator {
      match source
      case NoSource => NullGenerator
      case Words(stream) => Seeded(stream)
      case Twister(_) => MtGenerator()
    }

    /** The generator has been seeded with `seed` and has given `drawn` words since. */
    ghost predicate Ready()
      requires Valid()
      reads Repr
    {
      source.Twister? ==>
        var state := source.state;
        state.Valid() && state.mti <= N && state.seed == SeedWord(seed) && state.produced == drawn
    }

    constructor (source: Source)
      requires source.Twister? ==> source.state.mt.Length == N
      ensures Valid() && this.source == source
    {
      this.source := source;
      this.Repr := {this} + (if source.Twister? then {source.state, source.state.mt} else {});
    }

    /** Whatever the state held before, also if it has never been initialised. */
    method FeedSeed(s: nat)
      requires Valid()
      modifies Repr
      ensures Ready() && seed == s && drawn == 0
    {
      hide SeedWord, Window;
      seed, drawn := s, 0;
      if source.Twister? {
        source.state.InitGenrand(SeedWord(s));
      }
    }

    method GenRandom() returns (word: nat)
      requires Valid() && Ready() && !source.NoSource?
      modifies Repr
      ensures Ready() && seed == old(seed) && drawn == old(drawn) + 1
      ensures word == Gen().stream(seed, old(drawn))
    {
      hide SeedWord, Window, Output, WordValue, Fits;
      if source.Twister? {
        var output := source.state.GenrandInt32();
        word := WordValue(output);
      } else {
        word := source.stream(seed, drawn);
      }
      drawn := drawn + 1;
    }
  }

  // ----- The filling loops

  /** memcpy: writes `data` at `at` and nothing else. */
  method CopyInto(blk: array<Byte>, at: nat, data: Bytes)
    requires at + |data| <= blk.Length
    modifies blk
    ensures forall x :: 0 <= x < blk.Length ==> blk[x] == if at <= x < at + |data| then data[x - at] else old(blk[x])
  {
    for k := 0 to |data|
      invariant forall x :: 0 <= x < blk.Length ==> blk[x] == if at <= x < at + k then data[x - at] else old(blk[x])
    {
      blk[at + k] := data[k];
    }
  }

  /** Bytes of piece i up to r are stored. */
  ghost predicate PieceFilled(blk: seq<Byte>, at: nat, gen: Generator, md5: Bytes, i: nat, r: nat)
    requires i < Parts(md5)
  {
    at + r <= |blk| && forall k :: 0 <= k < r ==> blk[at + k] == PieceByte(gen, md5, i, k)
  }

  ghost predicate Outside(blk: seq<Byte>, blk': seq<Byte>, lo: nat, hi: nat) {
    |blk| == |blk'| && forall x :: 0 <= x < |blk| && !(lo <= x < hi) ==> blk'[x] == blk[x]
  }

  lemma PartInside(md5: Bytes, i: nat)
    requires i < Parts(md5)
    ensures 32 * i + 32 <= |md5|
  {
  }

  /** The data are the bytes of piece i from j on. */
  ghost predicate IsStep(data: Bytes, gen: Generator, md5: Bytes, i: nat, j: nat)
    requires i < Parts(md5)
  {
    forall k :: 0 <= k < |data| ==> data[k] == PieceByte(gen, md5, i, j + k)
  }

  /** One more step of a piece. */
  lemma StepFilled(
    was: seq<Byte>, blk: seq<Byte>, at: nat, gen: Generator, md5: Bytes, i: nat, j: nat, data: Bytes, end: nat
  )
    requires i < Parts(md5) && PieceFilled(was, at, gen, md5, i, j) && at + j + |data| <= |blk| == |was|
    requires j + |data| <= end
    requires forall x :: 0 <= x < |blk| ==> blk[x] == if at + j <= x < at + j + |data| then data[x - at - j] else was[x]
    requires IsStep(data, gen, md5, i, j)
    ensures PieceFilled(blk, at, gen, md5, i, j + |data|) && Outside(was, blk, at, at + end)
  {
    hide PieceByte, Parts;
    var j' := j + |data|;
    forall k | 0 <= k < j' ensures blk[at + k] == PieceByte(gen, md5, i, k) {
      if k >= j { assert data[k - j] == PieceByte(gen, md5, i, j + (k - j)); }
    }
  }

  lemma NothingFilled(blk: seq<Byte>, at: nat, gen: Generator, md5: Bytes, i: nat, end: nat)
    requires i < Parts(md5) && at + end <= |blk|
    ensures PieceFilled(blk, at, gen, md5, i, 0) && Outside(blk, blk, at, at + end)
  {
    hide PieceByte;
  }

  lemma StepOfCopies(md5: Bytes, i: nat, j: nat)
    requires i < Parts(md5) && j % 32 == 0
    ensures 32 * i + 32 <= |md5|
    ensures IsStep(md5[32 * i..32 * i + 32], NullGenerator, md5, i, j)
  {
    hide Parts;
    PartInside(md5, i);
    var data := md5[32 * i..32 * i + 32];
    forall k | 0 <= k < |data| ensures data[k] == PieceByte(NullGenerator, md5, i, j + k) {
      Remainder(j, k);
      SmallRemainder(k);
    }
  }

  lemma SmallRemainder(k: nat)
    requires k < 32
    ensures k % 32 == k
  {
  }

  method FillPieceNull(blk: array<Byte>, at: nat, md5: Bytes, i: nat)
    requires HasParts(md5) && i < Parts(md5) && at + Stored(Parts(md5), 32) <= blk.Length
    modifies blk
    ensures PieceFilled(blk[..], at, NullGenerator, md5, i, Stored(Parts(md5), 32))
    ensures Outside(old(blk[..]), blk[..], at, at + Stored(Parts(md5), 32))
  {
    hide PieceByte, PieceFilled, Outside, Stored, PieceSize, Parts, IsStep;
    var size := PieceSize(Parts(md5));
    ghost var end := Stored(Parts(md5), 32);
    NothingFilled(blk[..], at, NullGenerator, md5, i, end);
    var j := 0;
    while j < size
      invariant 0 <= j <= end && j % 32 == 0
      invariant PieceFilled(blk[..], at, NullGenerator, md5, i, j)
      invariant Outside(old(blk[..]), blk[..], at, at + end)
    {
      StepOfCopies(md5, i, j);
      ghost var was := blk[..];
      CopyInto(blk, at + j, md5[32 * i..32 * i + 32]);
      StepFilled(was, blk[..], at, NullGenerator, md5, i, j, md5[32 * i..32 * i + 32], end);
      OutsideTwice(old(blk[..]), was, blk[..], at, at + end, at, at + end);
      j := j + 32;
    }
  }

  lemma StepOfWords(stream: (nat, nat) -> nat, md5: Bytes, i: nat, j: nat)
    requires i < Parts(md5) && j % 4 == 0
    ensures IsStep(LeBytes(stream(Seed(md5, i), j / 4), 4), Seeded(stream), md5, i, j)
  {
    hide LeBytes, Seed;
    var data := LeBytes(stream(Seed(md5, i), j / 4), 4);
    forall k | 0 <= k < |data| ensures data[k] == PieceByte(Seeded(stream), md5, i, j + k) {
      assert (j + k) % 4 == k && (j + k) / 4 == j / 4;
    }
  }

  method FillPieceSeeded(blk: array<Byte>, at: nat, md5: Bytes, i: nat, rg: RandGener)
    requires HasParts(md5) && i < Parts(md5) && at + Stored(Parts(md5), 4) <= blk.Length
    requires rg.Valid() && !rg.source.NoSource? && blk !in rg.Repr
    modifies blk, rg.Repr
    ensures PieceFilled(blk[..], at, rg.Gen(), md5, i, Stored(Parts(md5), 4))
    ensures Outside(old(blk[..]), blk[..], at, at + Stored(Parts(md5), 4))
  {
    hide LeBytes, Seed, MtGenerator, SeedWord, PieceByte, PieceFilled, Outside, Stored, PieceSize, Parts, Window,
      IsStep;
    var size := PieceSize(Parts(md5));
    ghost var end, gen := Stored(Parts(md5), 4), rg.Gen();
    NothingFilled(blk[..], at, gen, md5, i, end);
    rg.FeedSeed(Seed(md5, i));
    var j := 0;
    while j < size
      invariant 0 <= j <= end && j % 4 == 0
      invariant rg.Ready() && rg.seed == Seed(md5, i) && rg.drawn == j / 4
      invariant PieceFilled(blk[..], at, gen, md5, i, j)
      invariant Outside(old(blk[..]), blk[..], at, at + end)
    {
      SeededGen(rg);
      StepOfWords(gen.stream, md5, i, j);
      var word := rg.GenRandom();
      ghost var was := blk[..];
      CopyInto(blk, at + j, LeBytes(word, 4));
      StepFilled(was, blk[..], at, gen, md5, i, j, LeBytes(word, 4), end);
      OutsideTwice(old(blk[..]), was, blk[..], at, at + end, at, at + end);
      j := j + 4;
    }
  }

  lemma SeededGen(rg: RandGener)
    requires !rg.source.NoSource?
    ensures rg.Gen().Seeded? && rg.Gen() == Seeded(rg.Gen().stream)
  {
  }

  /** The first i pieces are stored. */
  ghost predicate PiecesFilled(blk: seq<Byte>, base: nat, gen: Generator, md5: Bytes, i: nat)
    requires HasParts(md5) && i <= Parts(md5)
  {
    var end := EndOfPieces(Parts(md5), gen.Unit(), i);
    base + end <= |blk| && forall q :: 0 <= q < end ==> blk[base + q] == StoredByte(gen, md5, i, q)
  }

  /** Before piece i starts, the pieces before it decide. */
  lemma SamePiece(q: nat, size: nat, i: nat)
    requires size > 0 && q < i * size
    ensures i > 0 && LastPiece(q, size, i + 1) == LastPiece(q, size, i)
  {
    var j := LastPiece(q, size, i + 1);
    assert j != i;
    LastPieceIs(q, size, i, j);
  }

  /** The next piece overwrites where the last one reached beyond its own size. */
  lemma NextPiece(was: seq<Byte>, blk: seq<Byte>, base: nat, gen: Generator, md5: Bytes, i: nat)
    requires HasParts(md5) && i < Parts(md5) && PiecesFilled(was, base, gen, md5, i)
    requires |was| == |blk|
    requires PieceFilled(blk, base + i * PieceSize(Parts(md5)), gen, md5, i, Stored(Parts(md5), gen.Unit()))
    requires forall x :: 0 <= x < base + i * PieceSize(Parts(md5)) && x < |was| ==> blk[x] == was[x]
    ensures PiecesFilled(blk, base, gen, md5, i + 1)
  {
    hide PieceByte, Stored, PieceSize, Parts;
    var size, stored := PieceSize(Parts(md5)), Stored(Parts(md5), gen.Unit());
    var end := EndOfPieces(Parts(md5), gen.Unit(), i + 1);
    var n := i + 1;
    forall q | 0 <= q < end ensures blk[base + q] == StoredByte(gen, md5, n, q) {
      if q < i * size {
        SamePiece(q, size, i);
        assert was[base + q] == StoredByte(gen, md5, i, q);
      } else {
        LastPieceIs(q, size, n, i);
        var k := q - i * size;
        assert blk[base + i * size + k] == PieceByte(gen, md5, i, k);
      }
    }
  }

  /** One piece, by whichever generator. */
  method FillPiece(blk: array<Byte>, at: nat, md5: Bytes, i: nat, rg: RandGener)
    requires HasParts(md5) && i < Parts(md5) && at + Stored(Parts(md5), rg.Gen().Unit()) <= blk.Length
    requires rg.Valid() && blk !in rg.Repr
    modifies blk, rg.Repr
    ensures PieceFilled(blk[..], at, rg.Gen(), md5, i, Stored(Parts(md5), rg.Gen().Unit()))
    ensures Outside(old(blk[..]), blk[..], at, at + Stored(Parts(md5), rg.Gen().Unit()))
  {
    hide PieceFilled, Outside, MtGenerator, Stored, Parts;
    if rg.source.NoSource? {
      FillPieceNull(blk, at, md5, i);
    } else {
      SeededGen(rg);
      FillPieceSeeded(blk, at, md5, i, rg);
    }
  }

  lemma PieceRoom(parts: nat, unit: nat, i: nat)
    requires i < parts <= 8 && (unit == 4 || unit == 32)
    ensures 0 <= i * PieceSize(parts) && i * PieceSize(parts) + Stored(parts, unit) <= EndOfWrites(parts, unit)
  {
    hide PieceSize, Stored;
    TimesMonotone(i, parts - 1, PieceSize(parts));
    TimesNat(i, PieceSize(parts));
  }

  /** Fills from `base` on: exactly the bytes up to the end of the stores, and no others. */
  method FillAll(blk: array<Byte>, base: nat, md5: Bytes, rg: RandGener)
    requires HasParts(md5) && rg.Valid() && blk !in rg.Repr
    requires base + EndOfWrites(Parts(md5), rg.Gen().Unit()) <= blk.Length
    modifies blk, rg.Repr
    ensures blk[base..base + EndOfWrites(Parts(md5), rg.Gen().Unit())] == Filled(rg.Gen(), md5)
    ensures Outside(old(blk[..]), blk[..], base, base + EndOfWrites(Parts(md5), rg.Gen().Unit()))
  {
    hide PieceFilled, PiecesFilled, Outside, MtGenerator, Stored, PieceSize, Parts, EndOfPieces, Filled;
    var step := Parts(md5);
    var size := PieceSize(step);
    ghost var gen, end := rg.Gen(), base + EndOfWrites(step, rg.Gen().Unit());
    ghost var start := blk[..];
    NoPieces(start, base, gen, md5, end);
    for i := 0 to step
      invariant PiecesFilled(blk[..], base, gen, md5, i)
      invariant Outside(start, blk[..], base, end)
    {
      PieceRoom(step, gen.Unit(), i);
      ghost var before := blk[..];
      var at := base + i * size;
      FillPiece(blk, at, md5, i, rg);
      OutsideBefore(before, blk[..], at, at + Stored(step, gen.Unit()));
      NextPiece(before, blk[..], base, gen, md5, i);
      OutsideTwice(start, before, blk[..], base, end, at, at + Stored(step, gen.Unit()));
    }
    AllPieces(blk[..], base, gen, md5);
  }

  lemma NoPieces(blk: seq<Byte>, base: nat, gen: Generator, md5: Bytes, end: nat)
    requires HasParts(md5) && base <= end <= |blk|
    ensures PiecesFilled(blk, base, gen, md5, 0) && Outside(blk, blk, base, end)
  {
  }

  lemma OutsideBefore(a: seq<Byte>, b: seq<Byte>, lo: nat, hi: nat)
    requires Outside(a, b, lo, hi)
    ensures |a| == |b| && forall x :: 0 <= x < lo && x < |a| ==> b[x] == a[x]
  {
  }

  lemma OutsideTwice(a: seq<Byte>, b: seq<Byte>, c: seq<Byte>, lo: nat, hi: nat, lo': nat, hi': nat)
    requires Outside(a, b, lo, hi) && Outside(b, c, lo', hi') && lo <= lo' && hi' <= hi
    ensures Outside(a, c, lo, hi)
  {
  }

  lemma AllPieces(blk: seq<Byte>, base: nat, gen: Generator, md5: Bytes)
    requires HasParts(md5) && PiecesFilled(blk, base, gen, md5, Parts(md5))
    ensures var end := EndOfWrites(Parts(md5), gen.Unit());
            base + end <= |blk| && blk[base..base + end] == Filled(gen, md5)
  {
    hide StoredByte, EndOfPieces;
  }

  /** Fills the 4096 bytes from `base` on, and no others. */
  method FillBlk(blk: array<Byte>, base: nat, md5: Bytes, rg: RandGener)
    requires rg.Valid() && DigestOk(rg.Gen(), md5) && base + BLK_SIZE <= blk.Length && blk !in rg.Repr
    modifies blk, rg.Repr
    ensures blk[base..base + BLK_SIZE] == Block(rg.Gen(), md5)
    ensures Outside(old(blk[..]), blk[..], base, base + BLK_SIZE)
  {
    hide Filled, EndOfPieces, MtGenerator, Outside;
    FillAll(blk, base, md5, rg);
  }
}
