/**
 The two rounding helpers of t1 on uint64_t: rounding up to a multiple of a
 power of two by masking (`t1_ceil_multiple2`), and rounding up to a power of
 two by smearing the highest set bit downwards (`t1_ceil_exp2`).
 */
module Rounding {
  import opened Bits
  import opened Word

  // ---------------------------------------------------------------------
  // t1_ceil_multiple2

  /**
   `t1_ceil_multiple2(x, multiple)` on two uint64_t: x unchanged for a zero
   multiple, otherwise `(x + (multiple - 1)) & (-multiple)` with wrap-around.
   */
  function CeilMultiple2(x: u64, multiple: u64): (r: u64)
  {
    if multiple == 0 then x
    else
      var t := Add(x, Sub(multiple, 1));
      AndAtMostLeft(t, Neg(multiple));
      And(t, Neg(multiple))
  }

  /** Below 2^64, the wrapping negation of 2^k is the mask of bits k..63. */
  lemma NegPow2IsHighMask(k: nat, n: nat)
    requires k < n == 64
    ensures Pow2(k) < WORD_LIMIT
    ensures Neg(Pow2(k)) == HighMask(n, k)
  {
    WordLimitIsPow2(n);
    Pow2StrictMono(k, n);
  }

  /**
   With multiple == 2^k and no wrap-around in x + multiple - 1, the result is
   the least multiple of 2^k that is at least x.
   */
  lemma CeilMultiple2Rounds(x: u64, k: nat)
    requires k < 64 && x + Pow2(k) - 1 < WORD_LIMIT
    ensures Pow2(k) < WORD_LIMIT
    ensures IsLeastMultipleAtLeast(CeilMultiple2(x, Pow2(k)), x, Pow2(k))
  {
    var n := 64;
    CeilMultiple2IsMask(x, k, n);
    MaskedRoundsUp(CeilMultiple2(x, Pow2(k)), x, k, n);
  }

  /** With multiple == 2^k and no wrap-around, the result is x + 2^k - 1 with bits 0..k-1 cleared. */
  lemma CeilMultiple2IsMask(x: u64, k: nat, n: nat)
    requires k < n == 64 && x + Pow2(k) - 1 < WORD_LIMIT
    ensures Pow2(k) < WORD_LIMIT && Pow2(n) == WORD_LIMIT
    ensures CeilMultiple2(x, Pow2(k)) == And(x + Pow2(k) - 1, HighMask(n, k))
  {
    WordLimitIsPow2(n);
    NegPow2IsHighMask(k, n);
    CeilMultiple2NoWrap(x, Pow2(k));
  }

  /** Any r equal to the masked sum is the least multiple of 2^k at or above x. */
  lemma MaskedRoundsUp(r: nat, x: nat, k: nat, n: nat)
    requires k <= n && x + Pow2(k) - 1 < Pow2(n)
    requires r == And(x + Pow2(k) - 1, HighMask(n, k))
    ensures IsLeastMultipleAtLeast(r, x, Pow2(k))
  {
    MaskRoundsUp(x, k, n);
  }

  /** Without wrap-around in x + multiple - 1, the result is that sum masked by -multiple. */
  lemma CeilMultiple2NoWrap(x: u64, m: u64)
    requires m > 0 && x + m - 1 < WORD_LIMIT
    ensures CeilMultiple2(x, m) == And(x + m - 1, Neg(m))
  {
    assert Add(x, Sub(m, 1)) == x + m - 1;
  }

  /** A zero multiple leaves the value unchanged. */
  lemma CeilMultiple2ByZero(x: u64)
    ensures CeilMultiple2(x, 0) == x
  {
  }

  // ---------------------------------------------------------------------
  // t1_ceil_exp2

  /** One smearing step of `t1_ceil_exp2`: `x |= x >> s`. */
  function SmearStep(z: u64, s: nat): (r: u64)
    ensures r == OrShr(z, s)
  {
    SmearStepInWord(z, s);
    OrShr(z, s)
  }

  /** `x | (x >> s)` of a word is a word. */
  lemma SmearStepInWord(z: u64, s: nat)
    ensures OrShr(z, s) < WORD_LIMIT
  {
    var n := 64;
    WordLimitIsPow2(n);
    ShrAtMost(z, s);
    OrBound(z, Shr(z, s), n);
  }

  /** The six shifts of `t1_ceil_exp2` on an 8-byte type. */
  function Smear(y: u64): (r: u64)
  {
    SmearStep(SmearStep(SmearStep(SmearStep(SmearStep(SmearStep(y, 1), 2), 4), 8), 16), 32)
  }

  /** `t1_ceil_exp2<uint64_t>`: decrement, smear, increment, all wrapping. */
  function CeilExp2(x: u64): (r: u64)
  {
    Add(Smear(Sub(x, 1)), 1)
  }

  /** Smearing a non-zero word yields the all-ones mask of its bit length. */
  lemma SmearFillsBelowTopBit(y: u64)
    requires y >= 1
    ensures BitLength(y) <= 64
    ensures Smear(y) == Pow2(BitLength(y)) - 1
  {
    var L := BitLength(y);
    BitLengthBounds(y);
    var n := 64;
    WordLimitIsPow2(n);
    BitLengthAtMost(y, n);
    assert Run(y, L, 1);
    SmearChainRun(y, L);
    assert Smear(y) == SmearChain(y);
    assert Run(Smear(y), L, L);
  }

  lemma SmearZero()
    ensures Smear(0) == 0
  {
    OrZero(0);
    ShrAtMost(0, 1);
    ShrAtMost(0, 2);
    ShrAtMost(0, 4);
    ShrAtMost(0, 8);
    ShrAtMost(0, 16);
    ShrAtMost(0, 32);
  }

  /**
   For 1 <= x <= 2^63, `t1_ceil_exp2` returns the least power of two that is
   at least x.
   */
  lemma {:induction false} CeilExp2IsNextPow2(x: u64)
    requires 1 <= x <= HALF_WORD
    ensures CeilExp2(x) == Pow2(CeilLog2(x))
  {
    var n := 64;
    WordLimitIsPow2(n);
    if x == 1 {
      SmearZero();
    } else {
      var y := x - 1;
      SmearFillsBelowTopBit(y);
      BitLengthBounds(y);
      var L := BitLength(y);
      BitLengthAtMost(y, n - 1);
      Pow2Mono(L, n - 1);
      CeilLog2Unique(x, L);
    }
  }

  /** Powers of two up to 2^63 are fixed points. */
  lemma CeilExp2OfPow2(k: nat)
    requires k <= 63
    ensures Pow2(k) <= HALF_WORD
    ensures CeilExp2(Pow2(k)) == Pow2(k)
  {
    var n := 64;
    WordLimitIsPow2(n);
    Pow2Mono(k, n - 1);
    CeilExp2IsNextPow2(Pow2(k));
    if k == 0 {
    } else {
      Pow2StrictMono(k - 1, k);
      CeilLog2Unique(Pow2(k), k);
    }
  }

  /** Zero, and every value above 2^63, wrap around to zero. */
  lemma CeilExp2Wraps(x: u64)
    requires x == 0 || x > HALF_WORD
    ensures CeilExp2(x) == 0
  {
    var n := 64;
    WordLimitIsPow2(n);
    var y := Sub(x, 1);
    assert y >= HALF_WORD;
    SmearFillsBelowTopBit(y);
    BitLengthAtLeast(y, n - 1);
    assert BitLength(y) == n;
    assert Smear(y) == WORD_LIMIT - 1;
    assert CeilExp2(x) == Add(WORD_LIMIT - 1, 1);
  }
}
