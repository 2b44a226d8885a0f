/** Two's complement negation and shifts by less than a digit
    (bary_2comp, bary_small_lshift, bary_small_rshift). */
module Shifts {
  import opened Digits
  import opened Memory

  /** Negates in place modulo P(n); reports whether the number was zero. */
  method TwosComp(mem: Memory, z: nat, n: nat) returns (zero: bool)
    requires z + n <= |mem.cells|
    modifies mem
    ensures Keeps(old(mem.cells), mem.cells, z, n)
    ensures zero <==> V(old(mem.cells), z, n) == 0
    ensures V(mem.cells, z, n) == if zero then 0 else P(n) - V(old(mem.cells), z, n)
  {
    hide Sh, V, P, BigLo, BigDn;
    ghost var m0 := mem.cells;
    VEmpty(m0, z);
    var i := 0;
    while i < n && mem.cells[z + i] == 0
      invariant i <= n && mem.cells == m0
      invariant V(m0, z, i) == 0
    {
      VStep(m0, z, i);
      ShNone(i);
      i := i + 1;
    }
    if i == n {
      KeepsIntro(m0, m0, z, n);
      return true;
    }
    NonZeroTail(m0, z, i, n);
    ComplementFirst(mem.cells[z + i], i);
    VStep(m0, z, i);
    var rest := PutDigit(mem, z, i, BIGRAD - mem.cells[z + i]);
    i := i + 1;
    while i < n
      invariant i <= n
      invariant SameOutside(m0, mem.cells, z, i)
      invariant V(mem.cells, z, i) == Sh(1, i) - V(m0, z, i)
    {
      ComplementNext(mem.cells[z + i], i);
      VStep(m0, z, i);
      rest := PutDigit(mem, z, i, BIGRAD - 1 - mem.cells[z + i]);
      i := i + 1;
    }
    ShOne(n);
    KeepsIntro(m0, mem.cells, z, n);
    return false;
  }

  lemma NonZeroTail(m: seq<Digit>, z: nat, i: nat, n: nat)
    requires i < n && z + n <= |m| && m[z + i] != 0 && V(m, z, i) == 0
    ensures V(m, z, n) > 0
  {
    hide Sh, P;
    VSplit(m, z, i, n - i);
    VFirst(m, z + i, n - i - 1);
    VBound(m, z + i + 1, n - i - 1);
    ShLe(0, V(m, z + i + 1, n - i - 1), 1);
    ShNone(1);
    ShNone(i);
    ShLt(0, V(m, z + i, n - i), i);
  }

  lemma ComplementFirst(d: Digit, i: nat)
    requires d != 0
    ensures Sh(BIGRAD - d, i) == Sh(1, i + 1) - Sh(d, i)
    ensures BigDn(BIGRAD - d) == 0 && Sh(0, i + 1) == 0
  {
    BigSmall(BIGRAD - d);
    ShSubs(BIGRAD, d, i);
    ShBase(1, i);
  }

  lemma ComplementNext(d: Digit, i: nat)
    ensures Sh(BIGRAD - 1 - d, i) == Sh(1, i + 1) - Sh(1, i) - Sh(d, i)
    ensures BigDn(BIGRAD - 1 - d) == 0 && Sh(0, i + 1) == 0
  {
    BigSmall(BIGRAD - 1 - d);
    ShSubs(BIGRAD - 1, d, i);
    ShSubs(BIGRAD, 1, i);
    ShBase(1, i);
  }

  /** Shifts left by fewer bits than a digit has; the bits pushed out are returned.
      The source's `num | x << shift` joins disjoint bits, so it is a sum. */
  method SmallLshift(mem: Memory, z: nat, x: nat, n: nat, shift: nat) returns (out: Digit)
    requires z + n <= |mem.cells| && x + n <= |mem.cells|
    requires Pow2(shift) < BIGRAD
    requires Source(x, n, z, n)
    modifies mem
    ensures Keeps(old(mem.cells), mem.cells, z, n)
    ensures out < Pow2(shift)
    ensures V(mem.cells, z, n) + Sh(out, n) == Pow2(shift) * V(old(mem.cells), x, n)
  {
    hide Sh, V, Mul, Pow2, BigLo, BigDn;
    ghost var m0 := mem.cells;
    var f := Pow2(shift);
    VEmpty(m0, x); VEmpty(m0, z); ShNone(0);
    MulNone(f);
    var num := 0;
    var i := 0;
    while i < n
      invariant i <= n && 0 <= num < f
      invariant SameOutside(m0, mem.cells, z, i)
      invariant V(mem.cells, z, i) + Sh(num, i) == Mul(f, V(m0, x, i))
    {
      var d := mem.cells[x + i];
      VStep(m0, x, i);
      LshiftStep(f, num, d, i, V(m0, x, i));
      num := PutDigit(mem, z, i, num + d * f);
      i := i + 1;
    }
    KeepsIntro(m0, mem.cells, z, n);
    MulIs(f, V(m0, x, n));
    out := num;
  }

  lemma LshiftStep(f: int, num: int, d: Digit, i: nat, v: int)
    requires 0 <= num < f < BIGRAD
    ensures 0 <= BigDn(num + d * f) < f
    ensures FitsDouble(num + d * f)
    ensures Sh(num + d * f, i) + Mul(f, v) == Sh(num, i) + Mul(f, v + Sh(d, i))
  {
    MulLe(d + 1, BIGRAD, f);
    MulLe(0, d, f);
    BigDnBounds(num + d * f, 0, f);
    MulLe(f, BIGRAD, BIGRAD);
    ShAdds(num, d * f, i);
    MulAdds(f, v, Sh(d, i));
    MulSh(f, d, i);
  }

  /** Shifts right by fewer bits than a digit has, with the low bits of `higher` above the top digit;
      `dropped` is what falls out at the bottom.  The loop runs downwards. */
  method SmallRshift(mem: Memory, z: nat, x: nat, n: nat, shift: nat, higher: Digit)
      returns (ghost dropped: nat)
    requires z + n <= |mem.cells| && x + n <= |mem.cells|
    requires Pow2(shift) < BIGRAD
    requires SourceDown(x, z, n)
    modifies mem
    ensures Keeps(old(mem.cells), mem.cells, z, n)
    ensures dropped < Pow2(shift)
    ensures n > 0 ==> dropped == Rem(old(mem.cells)[x], Pow2(shift))
    ensures higher < Pow2(shift) ==> Rem(higher, Pow2(shift)) == higher
    ensures Pow2(shift) * V(mem.cells, z, n) + dropped == V(old(mem.cells), x, n) + Sh(Rem(higher, Pow2(shift)), n)
  {
    hide Sh, V, Mul, Pow2, BigLo, BigDn, Quot, Rem;
    ghost var m0 := mem.cells;
    var f := Pow2(shift);
    ghost var g := Pow2Divides(shift, BIGRAD);
    ghost var high := Rem(higher, f);
    QuotRem(higher, f);
    VEmpty(m0, x + n); VEmpty(m0, z + n); ShZero(high);
    MulNone(f);
    if higher < f { QuotUnique(higher, f, 0, higher); }
    dropped := high;
    var above := higher;
    var i := n;
    while i > 0
      invariant 0 <= i <= n && 0 <= above < BIGRAD && 0 <= dropped < f
      invariant dropped == Rem(above, f)
      invariant i < n ==> above == m0[x + i]
      invariant i == n ==> above == higher
      invariant SameOutside(m0, mem.cells, z + i, n - i)
      invariant Mul(f, V(mem.cells, z + i, n - i)) + dropped == V(m0, x + i, n - i) + Sh(high, n - i)
    {
      i := i - 1;
      ghost var m1 := mem.cells;
      var d := mem.cells[x + i];
      var num := Quot(above * BIGRAD + d, f);
      mem.cells := mem.cells[z + i := BigLo(num)];
      KeepsIntro(m1, mem.cells, z + i, 1);
      VFirst(m0, x + i, n - i - 1);
      VFirst(mem.cells, z + i, n - i - 1);
      RshiftStep(f, g, above, d);
      RshiftMove(f, BigLo(num), V(mem.cells, z + i + 1, n - i - 1), dropped,
                 V(m0, x + i + 1, n - i - 1), high, n - i - 1, d, Rem(d, f));
      dropped := Rem(d, f);
      above := d;
    }
    KeepsIntro(m0, mem.cells, z, n);
    MulIs(f, V(mem.cells, z, n));
  }

  /** Integer division by a positive number, as names a proof can set aside. */
  function Quot(x: int, f: int): (r: int)
    requires f > 0
  {
    x / f
  }

  function Rem(x: int, f: int): (r: int)
    requires f > 0
  {
    x % f
  }

  lemma QuotRem(x: int, f: int)
    requires f > 0
    ensures x == Quot(x, f) * f + Rem(x, f)
    ensures 0 <= Rem(x, f) < f
  {}

  lemma QuotUnique(x: int, f: int, q: int, r: int)
    requires f > 0 && 0 <= r < f && x == q * f + r
    ensures Quot(x, f) == q && Rem(x, f) == r
  {
    QuotRem(x, f);
    SameQuotient(f, q, r, Quot(x, f), Rem(x, f));
  }

  lemma SameQuotient(f: int, q: int, r: int, q': int, r': int)
    requires 0 <= r < f && 0 <= r' < f && q * f + r == q' * f + r'
    ensures q == q' && r == r'
  {
    if q' < q { MulLe(q' + 1, q, f); }
    if q' > q { MulLe(q + 1, q', f); }
  }

  /** One digit: dividing the two digits above:d by f and keeping the low digit. */
  lemma RshiftStep(f: int, g: int, above: int, d: Digit)
    requires f > 0 && g > 0 && BIGRAD == f * g && 0 <= above < BIGRAD
    ensures f * BigLo(Quot(above * BIGRAD + d, f)) + Rem(d, f) == Rem(above, f) * BIGRAD + d
    ensures 0 <= Rem(d, f) < f
  {
    hide Quot, Rem, BigLo, BigDn;
    QuotRem(above, f);
    QuotRem(d, f);
    var a, q, r, t := Quot(above, f), Quot(d, f), Rem(d, f), Rem(above, f);
    RshiftParts(f, g, BIGRAD, above, a, t, q, r);
    QuotUnique(above * BIGRAD + d, f, above * g + q, r);
    LowPart(above * g + q, a, t * g + q);
  }

  lemma LowPart(num: int, a: int, low: int)
    requires num == a * BIGRAD + low && 0 <= low < BIGRAD
    ensures BigLo(num) == low
  {
    LoDn(num);
    SameQuotient(BIGRAD, a, low, BigDn(num), BigLo(num));
  }

  lemma RshiftParts(f: int, g: int, b: int, above: int, a: int, t: int, q: int, r: int)
    requires f > 0 && g > 0 && b == f * g
    requires above == a * f + t && 0 <= t < f && 0 <= r < f && 0 <= q * f + r < b
    ensures above * b + (q * f + r) == (above * g + q) * f + r
    ensures above * g + q == a * b + (t * g + q)
    ensures 0 <= t * g + q < b
    ensures f * (t * g + q) + r == t * b + (q * f + r)
  {
    RshiftBounds(f, g, b, t, q, r);
    Regroup1(above, f, g, q, r);
    Regroup2(a, t, f, g, q);
    Regroup3(t, f, g, q);
  }

  lemma RshiftBounds(f: int, g: int, b: int, t: int, q: int, r: int)
    requires f > 0 && g > 0 && b == f * g && 0 <= t < f && 0 <= r < f && 0 <= q * f + r < b
    ensures 0 <= t * g + q < b
  {
    if q >= g { MulLe(g, q, f); }
    if q < 0 { MulLe(q, -1, f); }
    MulLe(t + 1, f, g);
    MulLe(0, t, g);
  }

  lemma Regroup1(a: int, f: int, g: int, q: int, r: int)
    ensures a * (f * g) + (q * f + r) == (a * g + q) * f + r
  {
    MulAssoc(a, g, f);
  }

  lemma Regroup2(a: int, t: int, f: int, g: int, q: int)
    ensures (a * f + t) * g + q == a * (f * g) + (t * g + q)
  {
    MulAssoc(a, f, g);
  }

  lemma Regroup3(t: int, f: int, g: int, q: int)
    ensures f * (t * g + q) == t * (f * g) + q * f
  {
    MulAssoc(f, t, g);
    MulAssoc(t, f, g);
  }

  /** The same digit placed under what is already shifted. */
  lemma RshiftMove(f: int, lo: int, vz: int, dropped: int, vx: int, higher: int, k: nat,
                   d: int, r: int)
    requires Mul(f, vz) + dropped == vx + Sh(higher, k)
    requires f * lo + r == dropped * BIGRAD + d
    ensures Mul(f, lo + Sh(vz, 1)) + r == d + Sh(vx, 1) + Sh(higher, k + 1)
  {
    hide Sh, Mul, P;
    MulAdds(f, lo, Sh(vz, 1));
    MulIs(f, lo);
    MulSh(f, vz, 1);
    ShAdds(Mul(f, vz), dropped, 1);
    ShAdds(vx, Sh(higher, k), 1);
    ShSh(higher, k, 1);
    ShBase(dropped, 0);
    ShZero(dropped * BIGRAD);
  }
}
