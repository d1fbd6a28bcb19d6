/** The seeded hash in machine words: its four steps for every seed and index, known answers under the seed of
    the shipped bounds, and a selection and a sample made with them. */
module HashVectors {
  import opened Sorting
  import opened Bits
  import opened Traces
  import opened States
  import opened Hashing
  import opened CrashPoints
  import opened Sampling

  type Word = bv32

  // ---------------------------------------------------------------- a byte's binary digits

  function Value(p: Byte): nat { p as nat }

  function Halved(p: Byte): Byte { p >> 1 }

  function Lowest(p: Byte): Byte { p & 1 }

  function Differ(p: Byte, q: Byte): Byte { p ^ q }

  lemma LowestDigit(p: Byte)
    ensures Value(p) == 2 * Value(Halved(p)) + Value(Lowest(p)) && Value(Lowest(p)) <= 1
  {}

  lemma DigitsDiffer(p: Byte, q: Byte)
    ensures Value(Lowest(Differ(p, q))) == if Value(Lowest(p)) == Value(Lowest(q)) then 0 else 1
    ensures Halved(Differ(p, q)) == Differ(Halved(p), Halved(q))
  {}

  lemma DoubledXor(a: nat, b: nat, c: nat, p: nat, q: nat)
    requires p <= 1 && q <= 1 && Xor(a, b) == c
    ensures Xor(2 * a + p, 2 * b + q) == 2 * c + if p == q then 0 else 1
  {
    XorStep(2 * a + p, 2 * b + q);
    hide Xor;
    Parts(a, p);
    Parts(b, q);
    LastDigit(a, b, p, q);
  }

  lemma Parts(a: nat, p: nat)
    requires p <= 1
    ensures (2 * a + p) / 2 == a
  {}

  lemma LastDigit(a: nat, b: nat, p: nat, q: nat)
    requires p <= 1 && q <= 1
    ensures (2 * a + p + (2 * b + q)) % 2 == if p == q then 0 else 1
  {}

  /** One binary digit of a byte taken up. */
  lemma {:induction false} OneDigit(a: nat, b: nat, c: nat, p: Byte, q: Byte)
    requires Xor(a + Value(Halved(p)), b + Value(Halved(q))) == c + Value(Halved(Differ(p, q)))
    ensures Xor(2 * a + Value(p), 2 * b + Value(q)) == 2 * c + Value(Differ(p, q))
  {
    hide Xor, Value, Halved, Lowest, Differ;
    LowestDigit(p);
    LowestDigit(q);
    LowestDigit(Differ(p, q));
    DigitsDiffer(p, q);
    DoubledXor(a + Value(Halved(p)), b + Value(Halved(q)), c + Value(Halved(Differ(p, q))),
               Value(Lowest(p)), Value(Lowest(q)));
  }

  lemma NothingLeft(p: Byte)
    ensures Value(Halved(Halved(Halved(Halved(Halved(Halved(Halved(Halved(p))))))))) == 0
  {}

  /** A number with one more base-256 digit. */
  function Joined(n: nat, p: Byte): nat { 256 * n + Value(p) }

  /** One byte taken up. */
  lemma {:induction false} OneByte(a: nat, b: nat, c: nat, p: Byte, q: Byte)
    requires Xor(a, b) == c
    ensures Xor(Joined(a, p), Joined(b, q)) == Joined(c, Differ(p, q))
  {
    hide Xor, Value, Halved, Differ;
    var p1, q1 := Halved(p), Halved(q);
    var p2, q2 := Halved(p1), Halved(q1);
    var p3, q3 := Halved(p2), Halved(q2);
    var p4, q4 := Halved(p3), Halved(q3);
    var p5, q5 := Halved(p4), Halved(q4);
    var p6, q6 := Halved(p5), Halved(q5);
    var p7, q7 := Halved(p6), Halved(q6);
    NothingLeft(p);
    NothingLeft(q);
    NothingLeft(Differ(p, q));
    HalvesDiffer(p, q);
    HalvesDiffer(p1, q1);
    HalvesDiffer(p2, q2);
    HalvesDiffer(p3, q3);
    HalvesDiffer(p4, q4);
    HalvesDiffer(p5, q5);
    HalvesDiffer(p6, q6);
    HalvesDiffer(p7, q7);
    OneDigit(a, b, c, p7, q7);
    OneDigit(2 * a, 2 * b, 2 * c, p6, q6);
    OneDigit(4 * a, 4 * b, 4 * c, p5, q5);
    OneDigit(8 * a, 8 * b, 8 * c, p4, q4);
    OneDigit(16 * a, 16 * b, 16 * c, p3, q3);
    OneDigit(32 * a, 32 * b, 32 * c, p2, q2);
    OneDigit(64 * a, 64 * b, 64 * c, p1, q1);
    OneDigit(128 * a, 128 * b, 128 * c, p, q);
  }

  lemma HalvesDiffer(p: Byte, q: Byte)
    ensures Halved(Differ(p, q)) == Differ(Halved(p), Halved(q))
  {}

  // ---------------------------------------------------------------- a machine word as a number

  function Byte0(w: Word): Byte { (w & 0xff) as Byte }

  function Byte1(w: Word): Byte { ((w >> 8) & 0xff) as Byte }

  function Byte2(w: Word): Byte { ((w >> 16) & 0xff) as Byte }

  function Byte3(w: Word): Byte { ((w >> 24) & 0xff) as Byte }

  /** The unsigned value of a word. */
  function Unsigned(w: Word): nat {
    Joined(Joined(Joined(Joined(0, Byte3(w)), Byte2(w)), Byte1(w)), Byte0(w))
  }

  function Xored(x: Word, y: Word): Word { x ^ y }

  lemma Byte0Xor(x: Word, y: Word)
    ensures Byte0(Xored(x, y)) == Differ(Byte0(x), Byte0(y))
  {}

  lemma Byte1Xor(x: Word, y: Word)
    ensures Byte1(Xored(x, y)) == Differ(Byte1(x), Byte1(y))
  {}

  lemma Byte2Xor(x: Word, y: Word)
    ensures Byte2(Xored(x, y)) == Differ(Byte2(x), Byte2(y))
  {}

  lemma Byte3Xor(x: Word, y: Word)
    ensures Byte3(Xored(x, y)) == Differ(Byte3(x), Byte3(y))
  {}

  /** Exclusive or of words is exclusive or of their values. */
  lemma XorOfWords(x: Word, y: Word)
    ensures Unsigned(Xored(x, y)) == Xor(Unsigned(x), Unsigned(y))
  {
    XorZero();
    hide Xor, Byte0, Byte1, Byte2, Byte3, Joined, Differ, Xored;
    Byte3Xor(x, y);
    Byte2Xor(x, y);
    Byte1Xor(x, y);
    Byte0Xor(x, y);
    OneByte(0, 0, 0, Byte3(x), Byte3(y));
    var a, b, c := Joined(0, Byte3(x)), Joined(0, Byte3(y)), Joined(0, Byte3(Xored(x, y)));
    OneByte(a, b, c, Byte2(x), Byte2(y));
    a, b, c := Joined(a, Byte2(x)), Joined(b, Byte2(y)), Joined(c, Byte2(Xored(x, y)));
    OneByte(a, b, c, Byte1(x), Byte1(y));
    a, b, c := Joined(a, Byte1(x)), Joined(b, Byte1(y)), Joined(c, Byte1(Xored(x, y)));
    OneByte(a, b, c, Byte0(x), Byte0(y));
  }

  // ---------------------------------------------------------------- shifts to the right

  function HalfWord(w: Word): Word { w >> 1 }

  /** A byte halved, the lowest digit of the byte above it shifted in. */
  function ShiftedIn(above: Byte, p: Byte): Byte { (above << 7) | (p >> 1) }

  lemma ShiftInValue(above: Byte, p: Byte)
    ensures Value(ShiftedIn(above, p)) == 128 * Value(Lowest(above)) + Value(Halved(p))
  {}

  lemma ByteHalf(w: Word)
    ensures Byte3(HalfWord(w)) == Halved(Byte3(w)) && Byte2(HalfWord(w)) == ShiftedIn(Byte3(w), Byte2(w))
    ensures Byte1(HalfWord(w)) == ShiftedIn(Byte2(w), Byte1(w)) && Byte0(HalfWord(w)) == ShiftedIn(Byte1(w), Byte0(w))
  {}

  lemma HalfOfWord(w: Word)
    ensures Unsigned(HalfWord(w)) == Unsigned(w) / 2
  {
    hide Byte0, Byte1, Byte2, Byte3, Value, Lowest, Halved, ShiftedIn, HalfWord;
    ByteHalf(w);
    ShiftInValue(Byte3(w), Byte2(w));
    ShiftInValue(Byte2(w), Byte1(w));
    ShiftInValue(Byte1(w), Byte0(w));
    LowestDigit(Byte3(w));
    LowestDigit(Byte2(w));
    LowestDigit(Byte1(w));
    LowestDigit(Byte0(w));
  }

  function ShiftedWord(w: Word, n: nat): Word
    decreases n
  {
    if n == 0 then w else ShiftedWord(HalfWord(w), n - 1)
  }

  lemma {:induction false} ShrOfWord(w: Word, n: nat)
    ensures Unsigned(ShiftedWord(w, n)) == Shr(Unsigned(w), n)
    decreases n
  {
    hide Unsigned, HalfWord;
    if n > 0 {
      HalfOfWord(w);
      ShrOfWord(HalfWord(w), n - 1);
    }
  }

  function QuarterByte(w: Word): Word { w >> 4 }

  lemma ShiftedByFour(w: Word, n: nat)
    requires n >= 4
    ensures ShiftedWord(w, n) == ShiftedWord(QuarterByte(w), n - 4)
  {
    assert HalfWord(HalfWord(HalfWord(HalfWord(w)))) == QuarterByte(w);
    hide HalfWord, QuarterByte;
    ShiftedByOne(w, n);
    ShiftedByOne(HalfWord(w), n - 1);
    ShiftedByOne(HalfWord(HalfWord(w)), n - 2);
    ShiftedByOne(HalfWord(HalfWord(HalfWord(w))), n - 3);
  }

  lemma ShiftedByOne(w: Word, n: nat)
    requires n >= 1
    ensures ShiftedWord(w, n) == ShiftedWord(HalfWord(w), n - 1)
  {}

  lemma {:induction false} ShiftedByNone(w: Word)
    ensures ShiftedWord(w, 0) == w
  {}

  /** The hash's two shifts. */
  function Down16(w: Word): Word { w >> 16 }

  function Down15(w: Word): Word { w >> 15 }

  lemma FourQuarters(w: Word)
    ensures QuarterByte(QuarterByte(QuarterByte(QuarterByte(w)))) == Down16(w)
    ensures HalfWord(HalfWord(HalfWord(QuarterByte(QuarterByte(QuarterByte(w)))))) == Down15(w)
  {}

  lemma {:induction false} ShiftsOfWord(w: Word)
    ensures ShiftedWord(w, 16) == Down16(w)
    ensures ShiftedWord(w, 15) == Down15(w)
  {
    hide *;
    FourQuarters(w);
    var v := QuarterByte(w);
    ShiftedByFour(w, 16);
    ShiftedByFour(w, 15);
    ShiftedByFour(v, 12);
    ShiftedByFour(v, 11);
    v := QuarterByte(v);
    ShiftedByFour(v, 8);
    ShiftedByFour(v, 7);
    v := QuarterByte(v);
    ShiftedByFour(v, 4);
    ShiftedByNone(QuarterByte(v));
    ShiftedByOne(v, 3);
    v := HalfWord(v);
    ShiftedByOne(v, 2);
    v := HalfWord(v);
    ShiftedByOne(v, 1);
    ShiftedByNone(HalfWord(v));
  }

  /** `x ^ (x >>> 16)` and `x ^ (x >>> 15)`. */
  function Folded16(w: Word): Word { Xored(w, Down16(w)) }

  function Folded15(w: Word): Word { Xored(w, Down15(w)) }

  /** Folding a word is folding its value. */
  lemma FoldOfWord(w: Word)
    ensures Unsigned(Folded16(w)) == Fold(Unsigned(w), 16)
    ensures Unsigned(Folded15(w)) == Fold(Unsigned(w), 15)
  {
    hide Unsigned, Xored, Down16, Down15, ShiftedWord, Xor, Shr;
    ShiftsOfWord(w);
    ShrOfWord(w, 16);
    ShrOfWord(w, 15);
    XorOfWords(w, Down16(w));
    XorOfWords(w, Down15(w));
  }

  // ---------------------------------------------------------------- every number is a word

  lemma ByteOf(n: nat) returns (p: Byte)
    requires n < 256
    ensures Value(p) == n
  {
    p := 0;
    if n > 0 {
      var before := ByteOf(n - 1);
      NextByte(before);
      p := before + 1;
    }
  }

  lemma NextByte(p: Byte)
    requires Value(p) < 255
    ensures p < 255 && Value(p + 1) == Value(p) + 1
  {}

  function MadeOf(b3: Byte, b2: Byte, b1: Byte, b0: Byte): Word {
    ((b3 as Word) << 24) | ((b2 as Word) << 16) | ((b1 as Word) << 8) | (b0 as Word)
  }

  lemma BytesOfMade(b3: Byte, b2: Byte, b1: Byte, b0: Byte)
    ensures var w := MadeOf(b3, b2, b1, b0); Byte3(w) == b3 && Byte2(w) == b2 && Byte1(w) == b1 && Byte0(w) == b0
  {}

  lemma WordOfNumber(n: nat) returns (w: Word)
    requires n < 0x1_0000_0000
    ensures Unsigned(w) == n
  {
    hide Value, Byte0, Byte1, Byte2, Byte3, MadeOf;
    var high, low := n / 0x1_0000, n % 0x1_0000;
    var b3 := ByteOf(high / 256);
    var b2 := ByteOf(high % 256);
    var b1 := ByteOf(low / 256);
    var b0 := ByteOf(low % 256);
    w := MadeOf(b3, b2, b1, b0);
    BytesOfMade(b3, b2, b1, b0);
  }

  // ---------------------------------------------------------------- the four steps

  /** `x` to `y` and `z`: folded by 16 and multiplied, folded by 15 and multiplied, products cut to 32 bits. */
  ghost predicate Steps(x: Word, y: Word, z: Word) {
    && Unsigned(y) == Unsigned(Folded16(x)) * 0x21f0_aaad % 0x1_0000_0000
    && Unsigned(z) == Unsigned(Folded15(y)) * 0x735a_2d97 % 0x1_0000_0000
  }

  lemma RankOfSteps(seed: int, index: nat, x: Word, y: Word, z: Word)
    requires Unsigned(x) == Seeded(seed, index) && Steps(x, y, z)
    ensures Rank(seed, index) == Unsigned(Folded15(z))
  {
    hide Unsigned, Folded16, Folded15, Fold, Seeded;
    FoldOfWord(x);
    FoldOfWord(y);
    FoldOfWord(z);
  }

  /** The hash in machine words, for every seed and index: the four steps of splitmix32 on the seeded word. */
  lemma RankInWords(seed: int, index: nat) returns (x: Word, y: Word, z: Word)
    ensures Unsigned(x) == Seeded(seed, index) && Steps(x, y, z)
    ensures Rank(seed, index) == Unsigned(Folded15(z))
  {
    SeededFits(seed, index);
    hide Unsigned, Folded16, Folded15, Seeded, Rank;
    x := WordOfNumber(Seeded(seed, index));
    y := WordOfNumber(Unsigned(Folded16(x)) * 0x21f0_aaad % 0x1_0000_0000);
    z := WordOfNumber(Unsigned(Folded15(y)) * 0x735a_2d97 % 0x1_0000_0000);
    RankOfSteps(seed, index, x, y, z);
  }

  /** With the seeded word itself in plain arithmetic, where a double holds the product and the sum. */
  lemma KnownRank(seed: int, index: nat, x: Word, y: Word, z: Word, r: Word)
    requires IsExact(seed, index) && Unsigned(x) == (seed + index * 0x9e37_79b9) % 0x1_0000_0000
    requires Steps(x, y, z) && r == Folded15(z)
    ensures Rank(seed, index) == Unsigned(r)
  {
    ExactlySeeded(seed, index);
    hide Unsigned, Folded16, Folded15, Steps, Seeded, Rank;
    RankOfSteps(seed, index, x, y, z);
  }

  lemma SmallIndex(index: nat)
    requires index < 8
    ensures IsExact(1, index)
  {}

  lemma FirstWord()
    ensures Unsigned(0x00000001) == 1 && Folded16(0x00000001) == 0x00000001
  {}

  lemma LastWord()
    ensures Folded15(0x86d3f7d4) == 0x86d2fa73
  {}

  lemma LastValue()
    ensures Unsigned(0x86d2fa73) == 0x86d2fa73
  {}

  lemma FirstSteps()
    ensures Steps(0x00000001, 0x21f0aaad, 0x86d3f7d4)
  {
    FirstWord();
    assert Folded15(0x21f0aaad) == 0x21f0e94c;
    hide Folded16, Folded15;
    assert Unsigned(0x21f0aaad) == 0x21f0aaad && Unsigned(0x21f0e94c) == 0x21f0e94c;
    assert Unsigned(0x86d3f7d4) == 0x86d3f7d4;
    hide Unsigned;
  }

  lemma Rank0()
    ensures Rank(1, 0) == 0x86d2fa73
  {
    hide *;
    LastWord();
    LastValue();
    FirstWord();
    FirstSteps();
    SmallIndex(0);
    KnownRank(1, 0, 0x00000001, 0x21f0aaad, 0x86d3f7d4, 0x86d2fa73);
  }

  lemma Rank1()
    ensures Rank(1, 1) == 0x5e2d1772
  {
    assert Folded16(0x9e3779ba) == 0x9e37e78d && Folded15(0x4cbb1c49) == 0x4cbb853f;
    assert Folded15(0x5e2dab29) == 0x5e2d1772;
    hide Folded16, Folded15, Rank, IsExact;
    assert Unsigned(0x9e37e78d) == 0x9e37e78d && Unsigned(0x4cbb853f) == 0x4cbb853f;
    assert Unsigned(0x4cbb1c49) == 0x4cbb1c49 && Unsigned(0x5e2dab29) == 0x5e2dab29;
    assert Unsigned(0x5e2d1772) == 0x5e2d1772;
    SmallIndex(1);
    KnownRank(1, 1, 0x9e3779ba, 0x4cbb1c49, 0x5e2dab29, 0x5e2d1772);
  }

  lemma Rank2()
    ensures Rank(1, 2) == 0x14e498f0
  {
    assert Folded16(0x3c6ef373) == 0x3c6ecf1d && Folded15(0x549b3899) == 0x549b91af;
    assert Folded15(0x14e4b139) == 0x14e498f0;
    hide Folded16, Folded15, Rank, IsExact;
    assert Unsigned(0x3c6ecf1d) == 0x3c6ecf1d && Unsigned(0x549b91af) == 0x549b91af;
    assert Unsigned(0x549b3899) == 0x549b3899 && Unsigned(0x14e4b139) == 0x14e4b139;
    assert Unsigned(0x14e498f0) == 0x14e498f0;
    SmallIndex(2);
    KnownRank(1, 2, 0x3c6ef373, 0x549b3899, 0x14e4b139, 0x14e498f0);
  }

  lemma Rank3()
    ensures Rank(1, 3) == 0xd20ea1fd
  {
    assert Folded16(0xdaa66d2c) == 0xdaa6b78a && Folded15(0x53ebac42) == 0x53eb0b95;
    assert Folded15(0xd20f05e3) == 0xd20ea1fd;
    hide Folded16, Folded15, Rank, IsExact;
    assert Unsigned(0xdaa6b78a) == 0xdaa6b78a && Unsigned(0x53eb0b95) == 0x53eb0b95;
    assert Unsigned(0x53ebac42) == 0x53ebac42 && Unsigned(0xd20f05e3) == 0xd20f05e3;
    assert Unsigned(0xd20ea1fd) == 0xd20ea1fd;
    SmallIndex(3);
    KnownRank(1, 3, 0xdaa66d2c, 0x53ebac42, 0xd20f05e3, 0xd20ea1fd);
  }

  lemma Rank4()
    ensures Rank(1, 4) == 0xb382f339
  {
    assert Folded16(0x78dde6e5) == 0x78dd9e38 && Folded15(0x65551bd8) == 0x6555d172;
    assert Folded15(0xb383943e) == 0xb382f339;
    hide Folded16, Folded15, Rank, IsExact;
    assert Unsigned(0x78dd9e38) == 0x78dd9e38 && Unsigned(0x6555d172) == 0x6555d172;
    assert Unsigned(0x65551bd8) == 0x65551bd8 && Unsigned(0xb383943e) == 0xb383943e;
    assert Unsigned(0xb382f339) == 0xb382f339;
    SmallIndex(4);
    KnownRank(1, 4, 0x78dde6e5, 0x65551bd8, 0xb383943e, 0xb382f339);
  }

  lemma Rank5()
    ensures Rank(1, 5) == 0x2660b860
  {
    assert Folded16(0x1715609e) == 0x1715778b && Folded15(0xd83416ef) == 0xd835a687;
    assert Folded15(0x2660f4a1) == 0x2660b860;
    hide Folded16, Folded15, Rank, IsExact;
    assert Unsigned(0x1715778b) == 0x1715778b && Unsigned(0xd835a687) == 0xd835a687;
    assert Unsigned(0xd83416ef) == 0xd83416ef && Unsigned(0x2660f4a1) == 0x2660f4a1;
    assert Unsigned(0x2660b860) == 0x2660b860;
    SmallIndex(5);
    KnownRank(1, 5, 0x1715609e, 0xd83416ef, 0x2660f4a1, 0x2660b860);
  }

  lemma Rank6()
    ensures Rank(1, 6) == 0x8812dd70
  {
    assert Folded16(0xb54cda57) == 0xb54c6f1b && Folded15(0xeabf033f) == 0xeabed641;
    assert Folded15(0x8813cd57) == 0x8812dd70;
    hide Folded16, Folded15, Rank, IsExact;
    assert Unsigned(0xb54c6f1b) == 0xb54c6f1b && Unsigned(0xeabed641) == 0xeabed641;
    assert Unsigned(0xeabf033f) == 0xeabf033f && Unsigned(0x8813cd57) == 0x8813cd57;
    assert Unsigned(0x8812dd70) == 0x8812dd70;
    SmallIndex(6);
    KnownRank(1, 6, 0xb54cda57, 0xeabf033f, 0x8813cd57, 0x8812dd70);
  }

  lemma Rank7()
    ensures Rank(1, 7) == 0x891c68b0
  {
    assert Folded16(0x53845410) == 0x53840794 && Folded15(0x4c016704) == 0x4c01ff06;
    assert Folded15(0x891d7a8a) == 0x891c68b0;
    hide Folded16, Folded15, Rank, IsExact;
    assert Unsigned(0x53840794) == 0x53840794 && Unsigned(0x4c01ff06) == 0x4c01ff06;
    assert Unsigned(0x4c016704) == 0x4c016704 && Unsigned(0x891d7a8a) == 0x891d7a8a;
    assert Unsigned(0x891c68b0) == 0x891c68b0;
    SmallIndex(7);
    KnownRank(1, 7, 0x53845410, 0x4c016704, 0x891d7a8a, 0x891c68b0);
  }

  // ---------------------------------------------------------------- a selection and a sample

  /** Eight events of which the seventh alone is a sync. */
  ghost predicate SyncsAtSix(events: seq<Event>) {
    |events| == 8 && forall i :: 0 <= i < 8 ==> (events[i].call in {Fsync, Fdatasync, SyncFileRange} <==> i == 6)
  }

  lemma HashesAgainst(rate: real)
    ensures rate == 0.05 ==> forall i: nat :: i < 6 ==> UnitHash(1, i) >= rate
    ensures rate == 0.1 ==> forall i: nat :: i < 6 ==> (UnitHash(1, i) < rate <==> i == 2)
  {
    Rank0();
    Rank1();
    Rank2();
    Rank3();
    Rank4();
    Rank5();
    hide Rank;
    forall i: nat | i < 6
      ensures rate == 0.05 ==> UnitHash(1, i) >= rate
      ensures rate == 0.1 ==> (UnitHash(1, i) < rate <==> i == 2)
    {
      assert i == 0 || i == 1 || i == 2 || i == 3 || i == 4 || i == 5;
    }
  }

  /** Under the shipped seed, rate and limit that trace is enumerated at its sync and the event after it; at
      twice the rate one more point is drawn. */
  lemma SelectionExample(events: seq<Event>, options: SelectionOptions)
    requires SyncsAtSix(events) && options.seed == 1 && options.maxExhaustiveWorkloadOps == Some(3)
    ensures options.nonFsyncSampleRate == 0.05 ==> SelectedPoints(events, options) == [6, 7]
    ensures options.nonFsyncSampleRate == 0.1 ==> SelectedPoints(events, options) == [2, 6, 7]
  {
    var rate := options.nonFsyncSampleRate;
    HashesAgainst(rate);
    hide UnitHash;
    assert IsPersistence(events[6].call);
    if rate == 0.05 {
      SelectionIsUnique(events, options, [6, 7]);
    }
    if rate == 0.1 {
      SelectionIsUnique(events, options, [2, 6, 7]);
    }
  }

  lemma KeepExample()
    ensures Keep(8, 4, 1) == {0, 2, 5, 7}
  {
    Rank0();
    Rank1();
    Rank2();
    Rank3();
    Rank4();
    Rank5();
    Rank6();
    Rank7();
    hide Rank, Keep;
    KeepIsSample(8, 4, 1);
    assert IsSample({0, 2, 5, 7}, 8, 4, 1);
    SampleIsUnique(Keep(8, 4, 1), {0, 2, 5, 7}, 8, 4, 1);
  }

  lemma OrderExample()
    ensures InOrder({0, 2, 5, 7}, 8) == [0, 2, 5, 7]
  {
    hide InOrder;
    AscendingIsUnique(InOrder({0, 2, 5, 7}, 8), [0, 2, 5, 7]);
  }

  lemma GroupExample(group: seq<CrashState>)
    requires |group| == 8
    ensures SampleGroup(group, 4, 1) == [group[0], group[2], group[5], group[7]]
  {
    hide Keep, InOrder;
    KeepExample();
    OrderExample();
  }

  /** Eight states of crash point 1, cut to four under seed 0: the two ends and the two lowest-ranked, by the
      hash of seed 1. */
  lemma SampleExample(states: seq<CrashState>)
    requires |states| == 8 && forall i :: 0 <= i < 8 ==> states[i].crashPoint == 1
    ensures Sampled(states, 4, 0) == [states[0], states[2], states[5], states[7]]
  {
    DoubleIsExact(1);
    assert PointSeed(0, 1) == 1;
    var sample := Sampled(states, 4, 0);
    hide *;
    GroupExample(states);
    SampleIsPerPoint(states, 4, 0, 1);
    GroupOfUniform(states, 1, 1);
    forall i | 0 <= i < |sample| ensures sample[i].crashPoint == 1 {
      SampleIsSubset(states, 4, 0, sample[i]);
    }
    GroupOfUniform(sample, 1, 1);
  }
}
