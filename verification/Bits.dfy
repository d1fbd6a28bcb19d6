/** Bytes, and the binary digits of a mask with the 32-bit wrap-around of the language's shift operator. */
module Bits {
  type Byte = bv8

  function Pow2(n: nat): (r: nat)
    ensures r >= 1
  {
    if n == 0 then 1 else 2 * Pow2(n - 1)
  }

  /** Binary digit `b` of `mask`. */
  predicate Bit(mask: nat, b: nat) {
    if b == 0 then mask % 2 == 1 else Bit(mask / 2, b - 1)
  }

  /** The number of values a loop `for (m = 0; m < 1 << n; m++)` visits: the shift count is taken
      modulo 32, and `1 << 31` is negative. */
  function ShiftedOne(n: nat): nat {
    if n % 32 == 31 then 0 else Pow2(n % 32)
  }

  /** `mask & (1 << b)` is non-zero, for a mask below `1 << 30`. */
  predicate MaskHas(mask: nat, b: nat) { Bit(mask, b % 32) }

  lemma {:induction false} Pow2Monotone(a: nat, b: nat)
    requires a <= b
    ensures Pow2(a) <= Pow2(b)
  {
    if a < b { Pow2Monotone(a, b - 1); }
  }

  lemma {:induction false} Pow2Grows(a: nat)
    ensures a < Pow2(a)
  {
    if a > 0 { Pow2Grows(a - 1); }
  }

  /** Digits at or above the width are zero. */
  lemma {:induction false} HighBitsClear(mask: nat, n: nat, b: nat)
    requires mask < Pow2(n) && n <= b
    ensures !Bit(mask, b)
  {
    if b > 0 {
      HighBitsClear(mask / 2, if n == 0 then 0 else n - 1, b - 1);
    }
  }

  /** A mask is determined by its digits. */
  lemma BitsDetermine(m1: nat, m2: nat, n: nat)
    requires m1 < Pow2(n) && m2 < Pow2(n)
    requires forall b: nat :: b < n ==> Bit(m1, b) == Bit(m2, b)
    ensures m1 == m2
  {
    if n > 0 {
      forall b: nat | b < n - 1 ensures Bit(m1 / 2, b) == Bit(m2 / 2, b) {
        assert Bit(m1, b + 1) == Bit(m2, b + 1);
      }
      BitsDetermine(m1 / 2, m2 / 2, n - 1);
      assert Bit(m1, 0) == Bit(m2, 0);
    }
  }

  lemma {:induction false} ZeroHasNoBits(b: nat)
    ensures !Bit(0, b)
  {
    if b > 0 { ZeroHasNoBits(b - 1); }
  }

  lemma AllOnes(n: nat, b: nat)
    requires b < n
    ensures Bit(Pow2(n) - 1, b)
  {
    if b > 0 {
      assert (Pow2(n) - 1) / 2 == Pow2(n - 1) - 1;
      AllOnes(n - 1, b - 1);
    }
  }

  /** The mask whose digit `b` says whether `window[b]` is in `chosen`. */
  ghost function MaskOf(window: seq<nat>, chosen: set<nat>): nat {
    if window == [] then 0
    else (if window[0] in chosen then 1 else 0) + 2 * MaskOf(window[1..], chosen)
  }

  lemma {:induction false} MaskOfSelects(window: seq<nat>, chosen: set<nat>)
    ensures MaskOf(window, chosen) < Pow2(|window|)
    ensures forall b: nat :: b < |window| ==> (Bit(MaskOf(window, chosen), b) <==> window[b] in chosen)
  {
    if window != [] {
      MaskOfSelects(window[1..], chosen);
      var rest := MaskOf(window[1..], chosen);
      assert MaskOf(window, chosen) / 2 == rest;
      forall b: nat | b < |window|
        ensures Bit(MaskOf(window, chosen), b) <==> window[b] in chosen
      {
        if b > 0 { assert window[b] == window[1..][b - 1]; }
      }
    }
  }
}
