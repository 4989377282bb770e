/**
 Fixed-width unsigned C integers as bounded naturals, with the wrapping
 arithmetic of `uint64_t`. The bitwise operators live in the Bits module;
 this one only pins the word width to them.
 */
module Word {
  import opened Arith
  import opened Bits

  const WORD_LIMIT: nat := 0x1_0000_0000_0000_0000
  const HALF_WORD: nat := 0x8000_0000_0000_0000
  const U32_LIMIT: nat := 0x1_0000_0000

  /** A C `uint64_t`. */
  type u64 = x: nat | x < WORD_LIMIT

  /** A C `uint32_t`. */
  type u32 = x: nat | x < U32_LIMIT

  /** A C `unsigned char`. */
  type u8 = x: nat | x < 256

  lemma WordLimitIsPow2(n: nat)
    requires n == 64
    ensures Pow2(n) == WORD_LIMIT
    ensures Pow2(n - 1) == HALF_WORD
  {
    assert Pow2(4) == 16;
    Pow2Add(4, 4);
    assert Pow2(8) == 0x100;
    Pow2Add(8, 8);
    assert Pow2(16) == 0x1_0000;
    Pow2Add(16, 16);
    assert Pow2(32) == 0x1_0000_0000;
    Pow2Add(32, 32);
    assert Pow2(64) == 2 * Pow2(63);
  }

  /** `a + b` on uint64_t: congruent to a + b modulo 2^64. */
  function Add(a: u64, b: u64): (r: u64)
    ensures r == a + b || r + WORD_LIMIT == a + b
  {
    if a + b < WORD_LIMIT then a + b else a + b - WORD_LIMIT
  }

  /** `a - b` on uint64_t: congruent to a - b modulo 2^64. */
  function Sub(a: u64, b: u64): (r: u64)
    ensures r + b == a || r + b == a + WORD_LIMIT
  {
    if b <= a then a - b else a - b + WORD_LIMIT
  }

  /** `a * b` on uint64_t: wraps modulo 2^64. */
  function Mul(a: u64, b: u64): (r: u64)
    ensures a * b < WORD_LIMIT ==> r == a * b
  {
    if a * b < WORD_LIMIT then ModSmall(a * b, WORD_LIMIT); a * b
    else (a * b) % WORD_LIMIT
  }

  /** Unary minus on uint64_t: the two's complement 2^64 - m, and 0 for 0. */
  function Neg(m: u64): (r: u64)
    ensures r + m == 0 || r + m == WORD_LIMIT
  {
    Sub(0, m)
  }
}
