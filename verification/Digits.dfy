/** Little-endian digit sequences in the base of a bignum digit, and the
    number a run of digits stands for. */
module Digits {

  function Pow2(n: nat): (r: nat)
    ensures r > 0
  {
    if n == 0 then 1 else 2 * Pow2(n - 1)
  }

  /** The source's POW2_P, for a number that is not zero. */
  predicate IsPow2(x: nat)
    decreases x
  {
    x == 1 || (x > 1 && x % 2 == 0 && IsPow2(x / 2))
  }

  /** Digits have 16, 32 or 64 bits, depending on the build.  Only these two facts are used. */
  type Radix = r: nat | r >= 0x1_0000 && IsPow2(r) witness (Pow2IsPow2(16); Pow2(16))

  /** The base: one more than the largest digit.  Its value is left open. */
  const BIGRAD: Radix

  /** A BDIGIT. */
  type Digit = d: nat | d < BIGRAD witness 0

  /** The range of a BDIGIT_DBL, an unsigned integer of twice the digit width. */
  ghost predicate FitsDouble(d: int) { 0 <= d < BIGRAD * BIGRAD }

  /** The range of a BDIGIT_DBL_SIGNED. */
  ghost predicate FitsSigned(d: int) { -(BIGRAD * BIGRAD) <= 2 * d < BIGRAD * BIGRAD }

  /** The low digit of an accumulator, and what is left above it.
      (On a negative accumulator the source masks and shifts two's complement, which is floor.) */
  function BigLo(num: int): (r: Digit) { num % BIGRAD }
  function BigDn(num: int): (r: int) { num / BIGRAD }

  /** BIGRAD to the k-th power: the weight of digit k. */
  function P(k: nat): (r: int)
    ensures r > 0
  {
    if k == 0 then 1 else P(k - 1) * BIGRAD
  }

  /** v moved up k digits. */
  function Sh(v: int, k: nat): (r: int) { v * P(k) }

  /** The number written in the n digits of m that start at p. */
  function V(m: seq<Digit>, p: nat, n: nat): (r: int)
    requires p + n <= |m|
  {
    if n == 0 then 0 else V(m, p, n - 1) + Sh(m[p + n - 1], n - 1)
  }

  // ----- powers of two and of the base

  lemma {:induction false} Pow2Monotone(a: nat, b: nat)
    requires a <= b
    ensures Pow2(a) <= Pow2(b)
    decreases b
  {
    if a < b { Pow2Monotone(a, b - 1); }
  }

  lemma {:induction false} Pow2IsPow2(n: nat)
    ensures IsPow2(Pow2(n))
    ensures n >= 16 ==> Pow2(n) >= 0x1_0000
  {
    if n > 0 {
      Pow2IsPow2(n - 1);
      assert Pow2(n) / 2 == Pow2(n - 1);
    }
    if n >= 16 {
      Pow2Monotone(16, n);
      assert Pow2(16) == 4 * Pow2(14) == 16 * Pow2(12) == 64 * Pow2(10) == 256 * Pow2(8);
      assert Pow2(8) == 4 * Pow2(6) == 16 * Pow2(4) == 64 * Pow2(2) == 256;
    }
  }

  /** A smaller power of two divides a larger one. */
  lemma {:induction false} Pow2Divides(s: nat, x: nat) returns (g: nat)
    requires IsPow2(x) && Pow2(s) <= x
    ensures g > 0 && x == Pow2(s) * g
  {
    if s == 0 {
      g := x;
    } else {
      g := Pow2Divides(s - 1, x / 2);
      MulAssoc(2, Pow2(s - 1), g);
    }
  }

  lemma {:induction false} PAdds(a: nat, b: nat)
    ensures P(a + b) == P(a) * P(b)
    decreases b
  {
    if b > 0 {
      PAdds(a, b - 1);
      MulAssoc(P(a), P(b - 1), BIGRAD);
      assert P(a + b) == P(a + (b - 1)) * BIGRAD;
    }
  }

  lemma {:induction false} PMonotone(a: nat, b: nat)
    requires a <= b
    ensures P(a) <= P(b)
    decreases b
  {
    if a < b { PMonotone(a, b - 1); }
  }

  lemma MulAssoc(a: int, b: int, c: int)
    ensures a * b * c == a * (b * c)
  {}

  lemma MulLe(a: int, b: int, p: int)
    requires a <= b && 0 <= p
    ensures a * p <= b * p
  {}

  // ----- moving up

  lemma ShZero(v: int)
    ensures Sh(v, 0) == v
  {}

  lemma ShNone(k: nat)
    ensures Sh(0, k) == 0
  {}

  lemma ShOne(k: nat)
    ensures Sh(1, k) == P(k)
  {}

  lemma ShBase(v: int, k: nat)
    ensures Sh(v * BIGRAD, k) == Sh(v, k + 1)
  {
    MulAssoc(v, BIGRAD, P(k));
  }

  lemma ShAdds(v: int, w: int, k: nat)
    ensures Sh(v + w, k) == Sh(v, k) + Sh(w, k)
  {}

  lemma ShSubs(v: int, w: int, k: nat)
    ensures Sh(v - w, k) == Sh(v, k) - Sh(w, k)
  {}

  lemma ShNeg(v: int, k: nat)
    ensures Sh(-v, k) == -Sh(v, k)
  {}

  lemma ShSh(v: int, a: nat, b: nat)
    ensures Sh(Sh(v, a), b) == Sh(v, a + b)
  {
    PAdds(a, b);
    MulAssoc(v, P(a), P(b));
  }

  lemma ShLe(v: int, w: int, k: nat)
    requires v <= w
    ensures Sh(v, k) <= Sh(w, k)
  {
    MulLe(v, w, P(k));
  }

  lemma ShLt(v: int, w: int, k: nat)
    requires v < w
    ensures Sh(v, k) < Sh(w, k)
  {
    MulLe(v + 1, w, P(k));
  }

  // ----- products

  /** a * b, as a name whose definition a proof can set aside. */
  function Mul(a: int, b: int): (r: int) { a * b }

  lemma MulIs(a: int, b: int)
    ensures Mul(a, b) == a * b
  {}

  lemma MulNone(a: int)
    ensures Mul(a, 0) == 0
  {}

  lemma MulAdds(a: int, b: int, c: int)
    ensures Mul(a, b + c) == Mul(a, b) + Mul(a, c)
  {}

  lemma MulSubs(a: int, b: int, c: int)
    ensures Mul(a, b - c) == Mul(a, b) - Mul(a, c)
  {}

  lemma MulComm(a: int, b: int)
    ensures Mul(a, b) == Mul(b, a)
  {}

  lemma MulSh(a: int, v: int, k: nat)
    ensures Mul(a, Sh(v, k)) == Sh(Mul(a, v), k)
  {
    MulAssoc(a, v, P(k));
  }

  // ----- accumulators

  lemma LoDn(num: int)
    ensures num == BigLo(num) + BIGRAD * BigDn(num)
  {}

  /** Storing the low digit at position i and carrying the rest loses nothing. */
  lemma CarryOut(num: int, i: nat)
    ensures Sh(num, i) == Sh(BigLo(num), i) + Sh(BigDn(num), i + 1)
  {
    LoDn(num);
    Distribute(BigLo(num), BIGRAD, BigDn(num), P(i));
  }

  lemma Distribute(r: int, b: int, d: int, p: int)
    ensures (r + b * d) * p == r * p + d * (p * b)
  {
    MulAssoc(d, b, p);
  }

  lemma BigDnBounds(num: int, lo: int, hi: int)
    requires lo * BIGRAD <= num < hi * BIGRAD
    ensures lo <= BigDn(num) < hi
  {
    LoDn(num);
    if BigDn(num) < lo { MulLe(BigDn(num) + 1, lo, BIGRAD); }
    if BigDn(num) >= hi { MulLe(hi, BigDn(num), BIGRAD); }
  }

  /** Sums of a few digits fit in an accumulator. */
  lemma SmallFits(d: int)
    requires -2 * BIGRAD <= d <= 2 * BIGRAD
    ensures FitsSigned(d)
    ensures d >= 0 ==> FitsDouble(d)
  {
    MulLe(65536, BIGRAD, BIGRAD);
  }

  lemma BigSmall(num: int)
    requires 0 <= num < BIGRAD
    ensures BigLo(num) == num && BigDn(num) == 0
  {
    BigDnBounds(num, 0, 1);
    LoDn(num);
  }

  // ----- the value of a run of digits

  lemma VEmpty(m: seq<Digit>, p: nat)
    requires p <= |m|
    ensures V(m, p, 0) == 0
  {}

  lemma VOne(m: seq<Digit>, p: nat)
    requires p < |m|
    ensures V(m, p, 1) == m[p]
  {
    ShZero(m[p]);
    assert V(m, p, 1) == V(m, p, 0) + Sh(m[p + 0], 0);
  }

  lemma VStep(m: seq<Digit>, p: nat, n: nat)
    requires p + n < |m|
    ensures V(m, p, n + 1) == V(m, p, n) + Sh(m[p + n], n)
  {}

  lemma {:induction false} VBound(m: seq<Digit>, p: nat, n: nat)
    requires p + n <= |m|
    ensures 0 <= V(m, p, n) < P(n)
  {
    if n > 0 {
      VBound(m, p, n - 1);
      TopDigitBound(V(m, p, n - 1), m[p + n - 1], P(n - 1), BIGRAD);
    }
  }

  lemma TopDigitBound(v: int, d: int, p: int, base: int)
    requires 0 <= v < p && 0 <= d < base
    ensures 0 <= v + d * p < p * base
  {
    MulLe(d + 1, base, p);
    MulLe(0, d, p);
  }

  lemma {:induction false} VSplit(m: seq<Digit>, p: nat, a: nat, b: nat)
    requires p + a + b <= |m|
    ensures V(m, p, a + b) == V(m, p, a) + Sh(V(m, p + a, b), a)
    decreases b
  {
    hide Sh;
    if b == 0 {
      ShNone(a);
    } else {
      VSplit(m, p, a, b - 1);
      var d := m[p + a + b - 1];
      assert V(m, p, a + b) == V(m, p, a + (b - 1)) + Sh(d, (b - 1) + a);
      ShSh(d, b - 1, a);
      ShAdds(V(m, p + a, b - 1), Sh(d, b - 1), a);
    }
  }

  lemma VFirst(m: seq<Digit>, p: nat, n: nat)
    requires p + 1 + n <= |m|
    ensures V(m, p, 1 + n) == m[p] + Sh(V(m, p + 1, n), 1)
  {
    hide Sh;
    VSplit(m, p, 1, n);
    ShZero(m[p]);
    assert V(m, p, 1) == V(m, p, 0) + Sh(m[p + 0], 0);
  }

  lemma {:induction false} VSame(a: seq<Digit>, p: nat, b: seq<Digit>, q: nat, n: nat)
    requires p + n <= |a| && q + n <= |b|
    requires a[p..p + n] == b[q..q + n]
    ensures V(a, p, n) == V(b, q, n)
  {
    hide Sh;
    if n > 0 {
      assert a[p + n - 1] == a[p..p + n][n - 1] == b[q..q + n][n - 1] == b[q + n - 1];
      assert a[p..p + (n - 1)] == a[p..p + n][..n - 1];
      assert b[q..q + (n - 1)] == b[q..q + n][..n - 1];
      VSame(a, p, b, q, n - 1);
    }
  }

  lemma {:induction false} VZero(m: seq<Digit>, p: nat, n: nat)
    requires p + n <= |m|
    requires forall i :: p <= i < p + n ==> m[i] == 0
    ensures V(m, p, n) == 0
  {
    if n > 0 { VZero(m, p, n - 1); }
  }
}
