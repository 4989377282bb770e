/**
 Facts about multiplication and Euclidean division of naturals, each stated
 on its own so that the proofs that use them stay linear.
 */
module Arith {

  lemma MulMono(a: nat, b: nat, c: nat)
    requires a <= b
    ensures a * c <= b * c
  {
    assert b * c == a * c + (b - a) * c;
  }

  lemma MulPred(a: nat, c: nat)
    requires a >= 1
    ensures (a - 1) * c == a * c - c
  {
  }

  /** Euclidean division is determined by quotient and remainder bounds. */
  lemma DivUnique(a: nat, d: nat, q: nat, r: nat)
    requires d > 0 && r < d && a == q * d + r
    ensures a / d == q && a % d == r
  {
    var q0 := a / d;
    assert a == q0 * d + a % d;
    if q0 < q {
      MulMono(q0 + 1, q, d);
      assert false;
    } else if q < q0 {
      MulMono(q + 1, q0, d);
      assert false;
    }
  }

  /** A value in [q*d, (q+1)*d) has quotient q. */
  lemma DivBracket(a: nat, d: nat, q: nat)
    requires d > 0 && q * d <= a < q * d + d
    ensures a / d == q
    ensures a == q * d + a % d
  {
    DivUnique(a, d, q, a - q * d);
  }

  lemma DivLowerBound(a: nat, d: nat, q: nat)
    requires d > 0 && q * d <= a
    ensures q <= a / d
  {
    assert a == (a / d) * d + a % d;
    if a / d < q {
      MulMono(a / d + 1, q, d);
      assert false;
    }
  }

  lemma DivUpperBound(a: nat, d: nat, q: nat)
    requires d > 0 && a < q * d
    ensures a / d < q
  {
    assert a == (a / d) * d + a % d;
    if q <= a / d {
      MulMono(q, a / d, d);
      assert false;
    }
  }

  lemma DivAtMost(a: nat, d: nat)
    requires d > 0
    ensures a / d <= a
  {
    DivUpperBound(a, d, a + 1);
  }

  /** A value below the divisor is its own remainder. */
  lemma ModSmall(a: nat, d: nat)
    requires a < d
    ensures a % d == a && a / d == 0
  {
    DivUnique(a, d, 0, a);
  }

  /** Regrouping a two-level quotient and remainder. */
  lemma Regroup(q: nat, c: nat, r2: nat, b: nat, r1: nat)
    ensures (q * c + r2) * b + r1 == q * (b * c) + (r2 * b + r1)
  {
    assert (q * c + r2) * b == q * c * b + r2 * b;
    assert q * c * b == q * (b * c);
  }

  lemma DivDiv(a: nat, b: nat, c: nat)
    requires b > 0 && c > 0
    ensures a / b / c == a / (b * c)
  {
    var p := a / b;
    var q := p / c;
    assert a == p * b + a % b;
    assert p == q * c + p % c;
    DivOfParts(a, b, c, q, p % c, a % b);
  }

  /** a = (q c + r2) b + r1 with both remainders in range has quotient q by b c. */
  lemma DivOfParts(a: nat, b: nat, c: nat, q: nat, r2: nat, r1: nat)
    requires r1 < b && r2 < c && a == (q * c + r2) * b + r1
    ensures a / (b * c) == q
  {
    Regroup(q, c, r2, b, r1);
    MulMono(r2, c - 1, b);
    MulPred(c, b);
    DivUnique(a, b * c, q, r2 * b + r1);
  }

  /** a % (2c) splits into the lowest bit and the remainder of the half. */
  lemma ModDoubleStep(a: nat, c: nat)
    requires c > 0
    ensures a % (2 * c) == a % 2 + 2 * ((a / 2) % c)
  {
    var q := (a / 2) / c;
    var r := (a / 2) % c;
    assert a / 2 == q * c + r;
    assert a == q * (2 * c) + (2 * r + a % 2);
    DivUnique(a, 2 * c, q, 2 * r + a % 2);
  }

  /** Subtracting the remainder leaves a multiple. */
  lemma RoundDownIsMultiple(t: nat, m: nat)
    requires m > 0
    ensures (t - t % m) % m == 0
    ensures t - t % m == (t / m) * m
  {
    DivUnique(t - t % m, m, t / m, 0);
  }

  /** Two distinct multiples of m lie at least m apart. */
  lemma MultipleGap(y: nat, r: nat, m: nat)
    requires m > 0 && y % m == 0 && r % m == 0 && y < r
    ensures y + m <= r
  {
    var a := y / m;
    var b := r / m;
    assert y == a * m && r == b * m;
    if b <= a {
      MulMono(b, a, m);
      assert false;
    }
    MulMono(a + 1, b, m);
  }
}
