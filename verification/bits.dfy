/**
 Bitwise operators on naturals (`&`, `|`, `>>`) defined bit by bit, and the
 facts about powers of two and bit masks that the rounding proofs need.
 Everything here is independent of the word width.
 */
module Bits {
  import opened Arith

  /** 2^k */
  function Pow2(k: nat): (r: nat)
    ensures r >= 1
  {
    if k == 0 then 1 else 2 * Pow2(k - 1)
  }

  /** Bitwise or: bit i of the result is set iff bit i of a or of b is. */
  function Or(a: nat, b: nat): (r: nat)
    decreases a + b
  {
    if a == 0 && b == 0 then 0
    else 2 * Or(a / 2, b / 2) + (if a % 2 == 1 || b % 2 == 1 then 1 else 0)
  }

  /** Bitwise and: bit i of the result is set iff bit i of a and of b are. */
  function And(a: nat, b: nat): (r: nat)
    decreases a + b
  {
    if a == 0 && b == 0 then 0
    else 2 * And(a / 2, b / 2) + (if a % 2 == 1 && b % 2 == 1 then 1 else 0)
  }

  /** Logical shift right by s bits: s halvings. */
  function Shr(a: nat, s: nat): (r: nat)
  {
    if s == 0 then a else Shr(a / 2, s - 1)
  }

  /** The bits k..n-1 set and every other bit clear: 2^n - 2^k. */
  function HighMask(n: nat, k: nat): (r: nat)
    requires k <= n
  {
    Pow2Mono(k, n);
    Pow2(n) - Pow2(k)
  }

  // ---------------------------------------------------------------------
  // Powers of two

  lemma {:induction false} Pow2Add(a: nat, b: nat)
    ensures Pow2(a + b) == Pow2(a) * Pow2(b)
    decreases a
  {
    if a > 0 {
      Pow2Add(a - 1, b);
      assert Pow2(a + b) == 2 * Pow2(a - 1 + b);
    }
  }

  lemma {:induction false} Pow2Mono(a: nat, b: nat)
    requires a <= b
    ensures Pow2(a) <= Pow2(b)
    decreases b
  {
    if a < b {
      Pow2Mono(a, b - 1);
    }
  }

  lemma Pow2StrictMono(a: nat, b: nat)
    requires a < b
    ensures Pow2(a) < Pow2(b)
  {
    Pow2Mono(a, b - 1);
  }

  // ---------------------------------------------------------------------
  // Bitwise facts

  lemma {:induction false} OrZero(a: nat)
    ensures Or(a, 0) == a
    decreases a
  {
    if a > 0 {
      OrZero(a / 2);
    }
  }

  lemma {:induction false} OrBound(a: nat, b: nat, n: nat)
    requires a < Pow2(n) && b < Pow2(n)
    ensures Or(a, b) < Pow2(n)
    decreases n
  {
    if n > 0 && (a != 0 || b != 0) {
      OrBound(a / 2, b / 2, n - 1);
    }
  }

  lemma {:induction false} OrAtLeast(a: nat, b: nat)
    ensures a <= Or(a, b) && b <= Or(a, b)
    decreases a + b
  {
    if a != 0 || b != 0 {
      OrAtLeast(a / 2, b / 2);
    }
  }

  /** Or-ing a value below 2^p into the low bits leaves the high bits alone. */
  lemma {:induction false} OrHighLow(hi: nat, lo: nat, b: nat, p: nat)
    requires lo < Pow2(p) && b < Pow2(p)
    ensures Or(hi * Pow2(p) + lo, b) == hi * Pow2(p) + Or(lo, b)
    decreases p
  {
    if p == 0 {
      OrZero(hi);
    } else {
      var half := Pow2(p - 1);
      var high := hi * half;
      assert hi * Pow2(p) == 2 * high;
      var a := hi * Pow2(p) + lo;
      DivUnique(a, 2, high + lo / 2, lo % 2);
      OrHighLow(hi, lo / 2, b / 2, p - 1);
      if a == 0 && b == 0 {
        assert lo == 0;
      }
    }
  }

  lemma {:induction false} AndZero(a: nat)
    ensures And(a, 0) == 0
    decreases a
  {
    if a > 0 {
      AndZero(a / 2);
    }
  }

  lemma {:induction false} AndAtMostLeft(a: nat, b: nat)
    ensures And(a, b) <= a
    decreases a + b
  {
    if a != 0 || b != 0 {
      AndAtMostLeft(a / 2, b / 2);
    }
  }

  /** And with n one-bits keeps every value below 2^n. */
  lemma {:induction false} AndOnes(t: nat, n: nat)
    requires t < Pow2(n)
    ensures And(t, Pow2(n) - 1) == t
    decreases n
  {
    if n == 0 {
      AndZero(0);
    } else {
      assert Pow2(n) - 1 == 2 * (Pow2(n - 1) - 1) + 1;
      AndOnes(t / 2, n - 1);
    }
  }

  /** And with an even mask: the lowest bit of the result is clear. */
  lemma AndEven(t: nat, h: nat)
    requires h > 0
    ensures And(t, 2 * h) == 2 * And(t / 2, h)
  {
    assert (2 * h) / 2 == h && (2 * h) % 2 == 0;
  }

  lemma HighMaskHalf(n: nat, k: nat)
    requires 1 <= k < n
    ensures HighMask(n, k) == 2 * HighMask(n - 1, k - 1)
    ensures HighMask(n - 1, k - 1) > 0
  {
    Pow2StrictMono(k - 1, n - 1);
  }

  /**
   And with the mask of bits k..n-1 clears the low k bits of a value below
   2^n: it rounds down to a multiple of 2^k.
   */
  lemma {:induction false} AndHighMask(t: nat, n: nat, k: nat)
    requires k <= n && t < Pow2(n)
    ensures And(t, HighMask(n, k)) == t - t % Pow2(k)
    decreases k
  {
    if k == 0 {
      AndOnes(t, n);
    } else if k == n {
      AndZero(t);
      ModSmall(t, Pow2(k));
    } else {
      var h := HighMask(n - 1, k - 1);
      HighMaskHalf(n, k);
      AndEven(t, h);
      AndHighMask(t / 2, n - 1, k - 1);
      ModDoubleStep(t, Pow2(k - 1));
      var low := (t / 2) % Pow2(k - 1);
      assert t % Pow2(k) == t % 2 + 2 * low;
      assert And(t, HighMask(n, k)) == 2 * (t / 2 - low);
    }
  }

  lemma {:induction false} ShrIsDiv(a: nat, s: nat)
    ensures Shr(a, s) == a / Pow2(s)
    decreases s
  {
    if s > 0 {
      ShrIsDiv(a / 2, s - 1);
      DivDiv(a, 2, Pow2(s - 1));
    }
  }

  lemma ShrAtMost(a: nat, s: nat)
    ensures Shr(a, s) <= a
  {
    ShrIsDiv(a, s);
    DivAtMost(a, Pow2(s));
  }

  // ---------------------------------------------------------------------
  // Rounding up to a multiple of a power of two

  /** y is a whole number of m's. */
  predicate IsMultiple(y: nat, m: nat)
    requires m > 0
  {
    y % m == 0
  }

  /** r is the least multiple of m that is at least x. */
  ghost predicate IsLeastMultipleAtLeast(r: nat, x: nat, m: nat)
    requires m > 0
  {
    && IsMultiple(r, m)
    && x <= r
    && forall y: nat {:trigger IsMultiple(y, m)} :: IsMultiple(y, m) && x <= y ==> r <= y
  }

  /** A multiple of m in [x, x + m) is the least multiple at or above x. */
  lemma LeastMultiple(r: nat, x: nat, m: nat)
    requires m > 0 && IsMultiple(r, m) && x <= r < x + m
    ensures IsLeastMultipleAtLeast(r, x, m)
  {
    forall y: nat | IsMultiple(y, m) && x <= y
      ensures r <= y
    {
      if y < r {
        MultipleGap(y, r, m);
      }
    }
  }

  /**
   Adding 2^k - 1 and masking off the low k bits (within an n-bit word that
   does not overflow) yields the least multiple of 2^k at or above x.
   */
  lemma MaskRoundsUp(x: nat, k: nat, n: nat)
    requires k <= n && x + Pow2(k) - 1 < Pow2(n)
    ensures IsLeastMultipleAtLeast(And(x + Pow2(k) - 1, HighMask(n, k)), x, Pow2(k))
  {
    var m := Pow2(k);
    var t := x + m - 1;
    AndHighMask(t, n, k);
    RoundDownIsMultiple(t, m);
    LeastMultiple(t - t % m, x, m);
  }

  // ---------------------------------------------------------------------
  // Smearing the highest set bit downwards

  /** One smearing step: `z | (z >> s)`. */
  function OrShr(z: nat, s: nat): (r: nat)
  {
    Or(z, Shr(z, s))
  }

  /** Below 2^L the highest j bits of an L-bit window are all set. */
  ghost predicate Run(z: nat, L: nat, j: nat)
  {
    j <= L && Pow2(L) - Pow2(L - j) <= z < Pow2(L)
  }

  function Min(a: nat, b: nat): (r: nat)
  {
    if a <= b then a else b
  }

  /** The top j bits of a run are all ones: z = (2^j - 1) * 2^(L-j) + low bits. */
  lemma RunHighBits(z: nat, L: nat, j: nat)
    requires Run(z, L, j)
    ensures z == (Pow2(j) - 1) * Pow2(L - j) + z % Pow2(L - j)
  {
    var P := Pow2(L - j);
    var J := Pow2(j);
    Pow2Add(j, L - j);
    MulPred(J, P);
    DivBracket(z, P, J - 1);
  }

  /** The shifted copy z >> j of a run of length j fills the next j bits. */
  lemma RunShifted(z: nat, L: nat, j: nat)
    requires 1 <= j < L && Run(z, L, j)
    ensures Shr(z, j) < Pow2(L - j)
    ensures Pow2(L - j) - Pow2(L - j - Min(j, L - j)) <= Shr(z, j)
  {
    var p := L - j;
    var P := Pow2(p);
    var J := Pow2(j);
    Pow2Add(j, p);
    assert Pow2(L) == J * P;
    ShrIsDiv(z, j);
    DivUpperBound(z, J, P);
    if j <= p {
      var Q := Pow2(p - j);
      Pow2Add(j, p - j);
      ShiftedLowerExact(z, J, P, Q);
    } else {
      Pow2Mono(p, j);
      ShiftedLowerSaturated(z, J, P);
    }
  }

  lemma ShiftedLowerExact(z: nat, J: nat, P: nat, Q: nat)
    requires J >= 1 && P == J * Q && Q >= 1 && J * P - P <= z
    ensures P - Q <= z / J
  {
    assert J * P - P == J * (P - Q);
    DivLowerBound(z, J, P - Q);
  }

  lemma ShiftedLowerSaturated(z: nat, J: nat, P: nat)
    requires 1 <= P <= J && J * P - P <= z
    ensures P - 1 <= z / J
  {
    MulPred(P, J);
    assert J * (P - 1) == J * P - J;
    DivLowerBound(z, J, P - 1);
  }

  /** One smearing step doubles the run of ones below the top bit (capped at L). */
  lemma SmearStepRun(z: nat, L: nat, j: nat)
    requires 1 <= j < L && Run(z, L, j)
    ensures Run(OrShr(z, j), L, Min(2 * j, L))
  {
    var p := L - j;
    var P := Pow2(p);
    RunHighBits(z, L, j);
    RunShifted(z, L, j);
    var hi := Pow2(j) - 1;
    var lo := z % P;
    var w := Shr(z, j);
    OrHighLow(hi, lo, w, p);
    OrBound(lo, w, p);
    OrAtLeast(lo, w);
    Pow2Add(j, p);
    MulPred(Pow2(j), P);
    assert OrShr(z, j) == hi * P + Or(lo, w);
    assert L - Min(2 * j, L) == p - Min(j, p);
  }

  /** Once the whole window is ones, further smearing changes nothing. */
  lemma SmearStepSaturated(z: nat, L: nat, s: nat)
    requires Run(z, L, L)
    ensures OrShr(z, s) == z
  {
    ShrAtMost(z, s);
    OrBound(z, Shr(z, s), L);
    OrAtLeast(z, Shr(z, s));
  }

  lemma SmearStepAny(z: nat, L: nat, j: nat, s: nat)
    requires 1 <= j && Run(z, L, j) && (s == j || j == L)
    ensures Run(OrShr(z, s), L, Min(j + s, L))
  {
    if j == L {
      SmearStepSaturated(z, L, s);
    } else {
      SmearStepRun(z, L, j);
    }
  }
  /** The six smearing shifts 1, 2, 4, ..., 32 applied in turn. */
  function SmearChain(y: nat): (r: nat)
  {
    OrShr(OrShr(OrShr(OrShr(OrShr(OrShr(y, 1), 2), 4), 8), 16), 32)
  }

  /** Six doubling steps fill every bit below the top bit of a word of at most 64 bits. */
  lemma SmearChainRun(y: nat, L: nat)
    requires 1 <= L <= 64 && Run(y, L, 1)
    ensures Run(SmearChain(y), L, L)
  {
    var z1 := OrShr(y, 1);
    SmearStepAny(y, L, 1, 1);
    var z2 := OrShr(z1, 2);
    SmearStepAny(z1, L, Min(2, L), 2);
    var z3 := OrShr(z2, 4);
    SmearStepAny(z2, L, Min(4, L), 4);
    var z4 := OrShr(z3, 8);
    SmearStepAny(z3, L, Min(8, L), 8);
    var z5 := OrShr(z4, 16);
    SmearStepAny(z4, L, Min(16, L), 16);
    SmearStepAny(z5, L, Min(32, L), 32);
  }


  /** Number of significant bits. */
  function BitLength(y: nat): (r: nat)
  {
    if y == 0 then 0 else 1 + BitLength(y / 2)
  }

  lemma {:induction false} BitLengthBounds(y: nat)
    requires y >= 1
    ensures 1 <= BitLength(y)
    ensures Pow2(BitLength(y) - 1) <= y < Pow2(BitLength(y))
    decreases y
  {
    if y >= 2 {
      BitLengthBounds(y / 2);
    }
  }

  /** A value below 2^m has at most m bits. */
  lemma BitLengthAtMost(y: nat, m: nat)
    requires y < Pow2(m)
    ensures BitLength(y) <= m
  {
    if y >= 1 {
      BitLengthBounds(y);
      if BitLength(y) > m {
        Pow2Mono(m, BitLength(y) - 1);
      }
    }
  }

  /** A value of at least 2^m has more than m bits. */
  lemma BitLengthAtLeast(y: nat, m: nat)
    requires Pow2(m) <= y
    ensures BitLength(y) > m
  {
    BitLengthBounds(y);
    if BitLength(y) <= m {
      Pow2Mono(BitLength(y), m);
    }
  }

  /** A value of bit length L is a run of length 1 in an L-bit window. */
  lemma BitLengthRun(y: nat)
    requires y >= 1
    ensures Run(y, BitLength(y), 1)
  {
    BitLengthBounds(y);
  }

  /** The bit length is pinned down by the power-of-two bracket around y. */
  lemma BitLengthUnique(y: nat, L: nat)
    requires 1 <= L && Pow2(L - 1) <= y < Pow2(L)
    ensures BitLength(y) == L
  {
    BitLengthBounds(y);
    if BitLength(y) < L {
      Pow2Mono(BitLength(y), L - 1);
    } else if BitLength(y) > L {
      Pow2Mono(L, BitLength(y) - 1);
    }
  }

  // ---------------------------------------------------------------------
  // The next power of two, defined independently of any bit trick

  /** The least k with 2^k >= x. */
  function CeilLog2(x: nat): (r: nat)
    decreases x
  {
    if x <= 1 then 0 else 1 + CeilLog2((x + 1) / 2)
  }

  lemma {:induction false} CeilLog2Bounds(x: nat)
    ensures x <= Pow2(CeilLog2(x))
    ensures x >= 2 ==> Pow2(CeilLog2(x) - 1) < x
    decreases x
  {
    if x >= 2 {
      CeilLog2Bounds((x + 1) / 2);
    }
  }

  /** 2^CeilLog2(x) is below every other power of two at or above x. */
  lemma CeilLog2Least(x: nat, k: nat)
    requires x <= Pow2(k)
    ensures CeilLog2(x) <= k
  {
    CeilLog2Bounds(x);
  }

  /** A power of two 2^k with 2^(k-1) < x <= 2^k is the one CeilLog2 picks. */
  lemma CeilLog2Unique(x: nat, k: nat)
    requires 1 <= k && Pow2(k - 1) < x <= Pow2(k)
    ensures CeilLog2(x) == k
  {
    CeilLog2Bounds(x);
    CeilLog2Least(x, k);
    if CeilLog2(x) < k {
      Pow2Mono(CeilLog2(x), k - 1);
    }
  }
}
