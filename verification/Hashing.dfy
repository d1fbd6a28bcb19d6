/** The seeded hash behind every sample: a bijection of 32-bit words, so ranks tie only where rounding has
    already merged two seeded words. A word is represented by its unsigned value. */
module Hashing {
  import opened Bits

  const WORDS: nat := 0x1_0000_0000

  /** Exclusive or, digit by digit. */
  function Xor(a: nat, b: nat): nat
    decreases a + b
  {
    if a == 0 && b == 0 then 0 else (a + b) % 2 + 2 * Xor(a / 2, b / 2)
  }

  /** `x >>> n`. */
  function Shr(x: nat, n: nat): nat {
    if n == 0 then x else Shr(x / 2, n - 1)
  }

  /** `x ^ (x >>> n)`. */
  function Fold(x: nat, n: nat): nat { Xor(x, Shr(x, n)) }

  /** `Math.imul(x, factor)`. */
  function Imul(x: nat, factor: nat): nat { (x * factor) % WORDS }

  // ---------------------------------------------------------------- numbers as the language adds them

  const TWO_53: int := 0x20_0000_0000_0000

  /** The distance between the doubles on either side of an integer: one up to `2^53`, then doubling. */
  function Spacing(n: nat): (u: nat)
    ensures u >= 1
  {
    if n < TWO_53 then 1 else 2 * Spacing(n / 2)
  }

  /** The multiple of `u` nearest to `n`, ties to the even one. */
  function Nearest(n: nat, u: nat): int
    requires u >= 1
  {
    var q, r := n / u, n % u;
    if 2 * r < u || (2 * r == u && q % 2 == 0) then q * u else (q + 1) * u
  }

  /** An integer result rounded to a double. */
  function Double(n: int): int {
    if n < 0 then -Nearest(-n, Spacing(-n)) else Nearest(n, Spacing(n))
  }

  lemma DoubleIsExact(n: int)
    requires -TWO_53 <= n <= TWO_53
    ensures Double(n) == n
  {
    var m: nat := if n < 0 then -n else n;
    if m < TWO_53 {
      assert Spacing(m) == 1 && Nearest(m, 1) == m;
    } else {
      assert Spacing(m) == 2 * Spacing(m / 2) == 2;
      assert Nearest(m, 2) == m;
    }
  }

  lemma NearestIs(n: nat, u: nat) returns (m: nat)
    requires u >= 1
    ensures Nearest(n, u) == m * u
    ensures 2 * (m * u - n) <= u && 2 * (n - m * u) <= u
    ensures 2 * (m * u - n) == u || 2 * (n - m * u) == u ==> m % 2 == 0
  {
    var q, r := n / u, n % u;
    assert n == q * u + r;
    m := if 2 * r < u || (2 * r == u && q % 2 == 0) then q else q + 1;
    assert Nearest(n, u) == m * u;
    hide Nearest;
    NextMultiple(q, u);
  }

  lemma NextMultiple(q: nat, u: nat)
    ensures (q + 1) * u == q * u + u
  {}

  /** The rounding is to the nearest multiple of the spacing, ties to even, and alike on both sides of zero. */
  lemma DoubleIsNearest(n: nat) returns (m: nat)
    ensures var u := Spacing(n);
            && Double(n) == m * u && Double(0 - n) == 0 - m * u
            && 2 * (m * u - n) <= u && 2 * (n - m * u) <= u
            && (2 * (m * u - n) == u || 2 * (n - m * u) == u ==> m % 2 == 0)
  {
    assert n == 0 ==> Double(0) == 0;
    hide Spacing, Nearest;
    m := NearestIs(n, Spacing(n));
  }

  /** `seed + crashPoint`. */
  function PointSeed(seed: int, crashPoint: nat): int { Double(seed + crashPoint) }

  /** `(seed + index * 0x9e3779b9) | 0`. */
  function Seeded(seed: int, index: nat): nat { Double(seed + Double(index * 0x9e3779b9)) % WORDS }

  /** Neither the product nor the sum leaves the integers a double holds exactly. */
  predicate IsExact(seed: int, index: nat) {
    index * 0x9e3779b9 <= TWO_53 && -TWO_53 <= seed && seed + index * 0x9e3779b9 <= TWO_53
  }

  function FirstRound(x: nat): nat { Imul(Fold(x, 16), 0x21f0aaad) }

  function SecondRound(x: nat): nat { Imul(Fold(x, 15), 0x735a2d97) }

  /** The hash as a 32-bit numerator. */
  function Rank(seed: int, index: nat): nat {
    Fold(SecondRound(FirstRound(Seeded(seed, index))), 15)
  }

  /** `unitHash`: the numerator over 2^32. */
  function UnitHash(seed: int, index: nat): (r: real)
    ensures 0.0 <= r < 1.0
  {
    RankFits(seed, index);
    Rank(seed, index) as real / 4294967296.0
  }

  // ---------------------------------------------------------------- exclusive or

  lemma {:induction false} XorStep(a: nat, b: nat)
    ensures Xor(a, b) / 2 == Xor(a / 2, b / 2)
    ensures Xor(a, b) % 2 == (a + b) % 2
  {}

  lemma {:induction false} XorFits(a: nat, b: nat, n: nat)
    requires a < Pow2(n) && b < Pow2(n)
    ensures Xor(a, b) < Pow2(n)
  {
    if n > 0 {
      XorFits(a / 2, b / 2, n - 1);
      XorStep(a, b);
    }
  }

  lemma {:induction false} ShrShrinks(x: nat, n: nat)
    ensures Shr(x, n) <= x
    ensures n > 0 && x > 0 ==> Shr(x, n) < x
  {
    if n > 0 { ShrShrinks(x / 2, n - 1); }
  }

  lemma FoldFits(x: nat, n: nat)
    requires x < WORDS
    ensures Fold(x, n) < WORDS
  {
    ShrShrinks(x, n);
    assert Pow2(32) == WORDS by {
      assert Pow2(8) == 0x100;
      assert Pow2(16) == 0x10000;
      assert Pow2(24) == 0x1000000;
    }
    XorFits(x, Shr(x, n), 32);
  }

  lemma PointSeedIsExact(seed: int, crashPoint: nat)
    requires -TWO_53 <= seed + crashPoint <= TWO_53
    ensures PointSeed(seed, crashPoint) == seed + crashPoint
  {
    DoubleIsExact(seed + crashPoint);
  }

  lemma RankFits(seed: int, index: nat)
    ensures Rank(seed, index) < WORDS
  {
    FoldFits(SecondRound(FirstRound(Seeded(seed, index))), 15);
  }

  lemma {:induction false} XorUndone(a: nat, b: nat)
    ensures Xor(Xor(a, b), b) == a
    decreases a + b
  {
    hide Xor;
    var x := Xor(a, b);
    XorStep(a, b);
    XorStep(x, b);
    if a != 0 || b != 0 {
      XorUndone(a / 2, b / 2);
    } else {
      XorZero();
    }
  }

  lemma XorZero()
    ensures Xor(0, 0) == 0
  {}

  lemma {:induction false} XorShr(a: nat, b: nat, n: nat)
    ensures Shr(Xor(a, b), n) == Xor(Shr(a, n), Shr(b, n))
  {
    hide Xor;
    if n > 0 {
      XorShr(a / 2, b / 2, n - 1);
      XorStep(a, b);
    }
  }

  /** A fold is undone from the top digits down. */
  lemma FoldInjective(x: nat, y: nat, n: nat)
    requires n > 0 && Fold(x, n) == Fold(y, n)
    ensures x == y
    decreases x + y
  {
    hide Xor, Shr;
    if x != 0 || y != 0 {
      XorShr(x, Shr(x, n), n);
      XorShr(y, Shr(y, n), n);
      ShrShrinks(x, n);
      ShrShrinks(y, n);
      FoldInjective(Shr(x, n), Shr(y, n), n);
      XorUndone(x, Shr(x, n));
      XorUndone(y, Shr(y, n));
    }
  }

  // ---------------------------------------------------------------- odd multipliers

  /** The first round's multiplier has inverse 0x333c4925 modulo 2^32. */
  lemma FirstProductInjective(x: nat, y: nat)
    requires x < WORDS && y < WORDS && Imul(x, 0x21f0aaad) == Imul(y, 0x21f0aaad)
    ensures x == y
  {
    var q := (x * 0x21f0aaad) / WORDS - (y * 0x21f0aaad) / WORDS;
    assert (x - y) * 0x21f0aaad == q * WORDS;
    assert 0x21f0aaad * 0x333c4925 == 1 + 113963035 * WORDS;
    assert x - y == WORDS * (q * 0x333c4925 - 113963035 * (x - y));
  }

  /** The second round's multiplier has inverse 0x97132227. */
  lemma SecondProductInjective(x: nat, y: nat)
    requires x < WORDS && y < WORDS && Imul(x, 0x735a2d97) == Imul(y, 0x735a2d97)
    ensures x == y
  {
    var q := (x * 0x735a2d97) / WORDS - (y * 0x735a2d97) / WORDS;
    assert (x - y) * 0x735a2d97 == q * WORDS;
    assert 0x735a2d97 * 0x97132227 == 1 + 1142083577 * WORDS;
    assert x - y == WORDS * (q * 0x97132227 - 1142083577 * (x - y));
  }

  /** The golden-ratio step visits every word before repeating one: its inverse is 0x144cbc89. */
  lemma StepInjective(seed: int, i: nat, j: nat)
    requires i < WORDS && j < WORDS
    requires (seed + i * 0x9e3779b9) % WORDS == (seed + j * 0x9e3779b9) % WORDS
    ensures i == j
  {
    var q := (seed + i * 0x9e3779b9) / WORDS - (seed + j * 0x9e3779b9) / WORDS;
    assert (i - j) * 0x9e3779b9 == q * WORDS;
    assert 0x9e3779b9 * 0x144cbc89 == 1 + 210485888 * WORDS;
    assert i - j == WORDS * (q * 0x144cbc89 - 210485888 * (i - j));
  }

  lemma ExactlySeeded(seed: int, index: nat)
    requires IsExact(seed, index)
    ensures index < WORDS && Seeded(seed, index) == (seed + index * 0x9e3779b9) % WORDS
  {
    DoubleIsExact(index * 0x9e3779b9);
    DoubleIsExact(seed + index * 0x9e3779b9);
    hide Double;
  }

  lemma SeededInjective(seed: int, i: nat, j: nat)
    requires IsExact(seed, i) && IsExact(seed, j) && Seeded(seed, i) == Seeded(seed, j)
    ensures i == j
  {
    ExactlySeeded(seed, i);
    ExactlySeeded(seed, j);
    hide Seeded;
    StepInjective(seed, i, j);
  }

  // ---------------------------------------------------------------- ranks

  /** Two ranks tie exactly when their seeded words are the same word: the rounds lose nothing. */
  lemma RanksTieIff(seed: int, i: nat, seed': int, j: nat)
    ensures Rank(seed, i) == Rank(seed', j) <==> Seeded(seed, i) == Seeded(seed', j)
    ensures UnitHash(seed, i) == UnitHash(seed', j) <==> Seeded(seed, i) == Seeded(seed', j)
  {
    hide Fold, Seeded;
    if Rank(seed, i) == Rank(seed', j) {
      var x, y := Seeded(seed, i), Seeded(seed', j);
      SeededFits(seed, i);
      SeededFits(seed', j);
      FoldInjective(SecondRound(FirstRound(x)), SecondRound(FirstRound(y)), 15);
      FoldFits(FirstRound(x), 15);
      FoldFits(FirstRound(y), 15);
      SecondProductInjective(Fold(FirstRound(x), 15), Fold(FirstRound(y), 15));
      FoldInjective(FirstRound(x), FirstRound(y), 15);
      FoldFits(x, 16);
      FoldFits(y, 16);
      FirstProductInjective(Fold(x, 16), Fold(y, 16));
      FoldInjective(x, y, 16);
    }
  }

  lemma SeededFits(seed: int, index: nat)
    ensures Seeded(seed, index) < WORDS
  {}

  /** Where the arithmetic is exact, two indices never share a rank under one seed. */
  lemma RanksDistinct(seed: int, i: nat, j: nat)
    requires IsExact(seed, i) && IsExact(seed, j) && i != j
    ensures Rank(seed, i) != Rank(seed, j)
    ensures UnitHash(seed, i) != UnitHash(seed, j)
  {
    hide Rank, UnitHash, Seeded;
    RanksTieIff(seed, i, seed, j);
    if Seeded(seed, i) == Seeded(seed, j) {
      SeededInjective(seed, i, j);
    }
  }

  /** `n` lies `e` doublings past `2^53`. */
  lemma {:induction false} SpacingAt(n: nat, e: nat)
    requires (if e == 0 then 0 else TWO_53 / 2) * Pow2(e) <= n < TWO_53 * Pow2(e)
    ensures Spacing(n) == Pow2(e)
  {
    if e > 0 {
      assert TWO_53 <= n by { assert TWO_53 / 2 * Pow2(e) == TWO_53 * Pow2(e - 1); }
      SpacingAt(n / 2, e - 1);
    }
  }

  /** Beyond that they can: under seed 0 the product of the second index rounds to a double whose word is
      that of the first. */
  lemma RoundingMergesRanks()
    ensures Rank(0, 60000000) == Rank(0, 135601567)
  {
    var a, b, c := 159266146140000000, 359945649777250023, 359945649777250048;
    assert Pow2(5) == 32 && Pow2(6) == 64;
    SpacingAt(a, 5);
    SpacingAt(b, 6);
    SpacingAt(c, 6);
    hide Spacing, Pow2;
    assert 60000000 * 0x9e3779b9 == a && Double(a) == a;
    assert 135601567 * 0x9e3779b9 == b && Double(b) == c && Double(c) == c;
    assert a % WORDS == c % WORDS;
    hide Double, Rank;
    RanksTieIff(0, 60000000, 0, 135601567);
  }

  /** The product is rounded before the seed is added, and the sum again: here the exact sum is even, and what
      comes out is two less. */
  lemma ProductIsRoundedFirst()
    ensures 1 + 4000001 * 0x9e3779b9 == 10617745730435770
    ensures Seeded(1, 4000001) == 10617745730435768 % WORDS
  {
    assert Pow2(1) == 2;
    SpacingAt(10617745730435769, 1);
    hide Spacing, Pow2;
    assert Double(10617745730435769) == 10617745730435768;
  }
}
