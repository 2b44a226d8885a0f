/** The steps of bary_mul_toom3 that surround its five recursive products: evaluating
    both operands at 1, -1 and -2, interpolating, and putting the result together. */
module Toom3Steps {
  import opened Digits
  import opened Memory
  import opened AddSub
  import opened Shifts
  import opened Schoolbook
  import opened SignedOps
  import opened DigitDivision

  lemma Roomy(n: nat)
    ensures 65536 * P(n) <= P(n + 1)
  {
    MulLe(65536, BIGRAD, P(n));
  }

  /** Step 1 for one operand x = x0 + x1*b + x2*b^2 with b = P(n), whose top part has k digits:
      u1, u2 and u3 take its values at b = 1, -1 and -2. */
  method Evaluate(mem: Memory, u: nat, n: nat, x: nat, k: nat) returns (p2: bool, p3: bool)
    requires u + 3 * (n + 1) <= |mem.cells| && x + 2 * n + k <= |mem.cells| && k <= n
    requires Apart(x, 2 * n + k, u, 3 * (n + 1))
    modifies mem
    ensures Keeps(old(mem.cells), mem.cells, u, 3 * (n + 1))
    ensures var x0, x1, x2 := V(old(mem.cells), x, n), V(old(mem.cells), x + n, n), V(old(mem.cells), x + 2 * n, k);
            && V(mem.cells, u, n + 1) == x0 + x1 + x2
            && Signed(p2, V(mem.cells, u + (n + 1), n + 1)) == x0 - x1 + x2
            && Signed(p3, V(mem.cells, u + 2 * (n + 1), n + 1)) == x0 - 2 * x1 + 4 * x2
  {
    hide Sh, V, P;
    ghost var m0 := mem.cells;
    ghost var x0, x1, x2 := V(m0, x, n), V(m0, x + n, n), V(m0, x + 2 * n, k);
    VBound(m0, x, n); VBound(m0, x + n, n); VBound(m0, x + 2 * n, k);
    PMonotone(k, n); Roomy(n);
    var l := n + 1;
    p2 := AtOnes(mem, u, n, x, k);
    ghost var m2 := mem.cells;
    assert V(m2, x, n) == x0 && V(m2, x + 2 * n, k) == x2;
    p3 := AtMinusTwo(mem, u + 2 * l, n, u + l, p2, x, x + 2 * n, k);
    assert V(mem.cells, u, l) == V(m2, u, l) && V(mem.cells, u + l, l) == V(m2, u + l, l);
    KeepsIntro(m0, mem.cells, u, 3 * l);
  }

  /** u1 <- x0 + x1 + x2 and u2 <- x0 - x1 + x2 */
  method AtOnes(mem: Memory, u: nat, n: nat, x: nat, k: nat) returns (p2: bool)
    requires u + 2 * (n + 1) <= |mem.cells| && x + 2 * n + k <= |mem.cells| && k <= n
    requires Apart(x, 2 * n + k, u, 2 * (n + 1))
    modifies mem
    ensures Keeps(old(mem.cells), mem.cells, u, 2 * (n + 1))
    ensures var x0, x1, x2 := V(old(mem.cells), x, n), V(old(mem.cells), x + n, n), V(old(mem.cells), x + 2 * n, k);
            && V(mem.cells, u, n + 1) == x0 + x1 + x2
            && Signed(p2, V(mem.cells, u + (n + 1), n + 1)) == x0 - x1 + x2
  {
    hide Sh, V, P;
    ghost var m0 := mem.cells;
    VBound(m0, x, n); VBound(m0, x + n, n); VBound(m0, x + 2 * n, k);
    PMonotone(k, n); Roomy(n);
    var l := n + 1;
    AddFits(mem, u, l, x, n, x + 2 * n, k);
    var neg := AbsDiff(mem, u + l, l, u, l, x + n, n);
    p2 := !neg;
    ghost var m1 := mem.cells;
    AddFits(mem, u, l, u, l, x + n, n);
    assert V(mem.cells, u + l, l) == V(m1, u + l, l);
    KeepsIntro(m0, mem.cells, u, 2 * l);
  }

  /** u3 <- 2 * (u2 + x2) - x0 */
  method AtMinusTwo(mem: Memory, u3: nat, n: nat, u2: nat, p2: bool, x: nat, x2: nat, k: nat) returns (p3: bool)
    requires u3 + (n + 1) <= |mem.cells| && u2 + (n + 1) <= |mem.cells| && x + n <= |mem.cells| && x2 + k <= |mem.cells|
    requires k <= n
    requires Apart(u2, n + 1, u3, n + 1) && Apart(x, n, u3, n + 1) && Apart(x2, k, u3, n + 1)
    requires V(mem.cells, u2, n + 1) < 2 * P(n)
    modifies mem
    ensures Keeps(old(mem.cells), mem.cells, u3, n + 1)
    ensures Signed(p3, V(mem.cells, u3, n + 1))
         == 2 * (Signed(p2, V(old(mem.cells), u2, n + 1)) + V(old(mem.cells), x2, k)) - V(old(mem.cells), x, n)
  {
    hide Sh, V, P;
    ghost var m0 := mem.cells;
    VBound(m0, x, n); VBound(m0, x2, k); VBound(m0, u2, n + 1);
    PMonotone(k, n); Roomy(n);
    var l := n + 1;
    p3 := true;
    if p2 {
      AddFits(mem, u3, l, u2, l, x2, k);
    } else {
      var neg := AbsDiff(mem, u3, l, x2, k, u2, l);
      p3 := !neg;
    }
    ghost var m1 := mem.cells;
    Double(mem, u3, l);
    assert V(mem.cells, x, n) == V(m0, x, n);
    if !p3 {
      AddFits(mem, u3, l, u3, l, x, n);
    } else {
      var neg := AbsDiff(mem, u3, l, u3, l, x, n);
      p3 := !neg;
    }
    KeepsIntro(m0, mem.cells, u3, l);
  }

  /** Shifting left by one bit when the top bit is clear. */
  method Double(mem: Memory, z: nat, n: nat)
    requires z + n <= |mem.cells| && 2 * V(mem.cells, z, n) < P(n)
    modifies mem
    ensures Keeps(old(mem.cells), mem.cells, z, n)
    ensures V(mem.cells, z, n) == 2 * V(old(mem.cells), z, n)
  {
    hide Sh, V, P, Pow2;
    Pow2One();
    var out := SmallLshift(mem, z, z, n, 1);
    VBound(mem.cells, z, n);
    ShOne(n); ShNone(n);
    if out >= 1 { ShLe(1, out, n); }
  }

  /** Shifting right by one bit when the lowest bit is clear. */
  method Halve(mem: Memory, z: nat, n: nat)
    requires z + n <= |mem.cells| && V(mem.cells, z, n) % 2 == 0
    modifies mem
    ensures Keeps(old(mem.cells), mem.cells, z, n)
    ensures 2 * V(mem.cells, z, n) == V(old(mem.cells), z, n)
  {
    hide Sh, V, P, Pow2, Rem;
    Pow2One();
    ShNone(n);
    ghost var v := V(mem.cells, z, n);
    ghost var dropped := SmallRshift(mem, z, z, n, 1, 0);
    EvenDrop(V(mem.cells, z, n), dropped, v);
  }

  lemma Pow2One()
    ensures Pow2(1) == 2
  {
    assert Pow2(1) == 2 * Pow2(0);
  }

  lemma EvenDrop(half: int, dropped: int, v: int)
    requires 2 * half + dropped == v && 0 <= dropped < 2 && v % 2 == 0
    ensures 2 * half == v
  {
  }

  // ----- step 2

  /** The coefficients of a product of two quadratics, of which z(0) = c0, z(1), z(-1), z(-2) and
      z(inf) = c4 are known. */
  datatype Coeffs = Coeffs(c0: int, c1: int, c2: int, c3: int, c4: int) {
    function At1(): int { c0 + c1 + c2 + c3 + c4 }
    function AtM1(): int { c0 - c1 + c2 - c3 + c4 }
    function AtM2(): int { c0 - 2 * c1 + 4 * c2 - 8 * c3 + 16 * c4 }

    /** The size of each coefficient: c0 = x0*y0 and so on, with all parts below P(n) and q = P(2n). */
    predicate Within(q: int) {
      0 <= c0 < q && 0 <= c1 < 2 * q && 0 <= c2 < 3 * q && 0 <= c3 < 2 * q && 0 <= c4 < q
    }
  }

  /** z3 <- (z(-2) - z(1)) / 3.  The difference is a multiple of 3 whatever the coefficients. */
  method Third(mem: Memory, z3: nat, n: nat, t3: nat, p3: bool, t1: nat, ghost c: Coeffs) returns (zp: bool)
    requires z3 + n <= |mem.cells| && t3 + n <= |mem.cells| && t1 + n <= |mem.cells| && 0 < n
    requires Apart(t3, n, z3, n) && Apart(t1, n, z3, n)
    requires Signed(p3, V(mem.cells, t3, n)) == c.AtM2() && V(mem.cells, t1, n) == c.At1()
    requires exists q: int :: c.Within(q) && 64 * q <= P(n)
    modifies mem
    ensures Keeps(old(mem.cells), mem.cells, z3, n)
    ensures Signed(zp, V(mem.cells, z3, n)) == -c.c1 + c.c2 - 3 * c.c3 + 5 * c.c4
  {
    hide Sh, V, P;
    ghost var m0 := mem.cells;
    VBound(m0, t3, n);
    zp := SignedSub(mem, z3, n, t3, n, p3, t1, n, true);
    ghost var v := V(mem.cells, z3, n);
    var r := DivSingle(mem, z3, z3, n, 3);
    ThirdExact(V(mem.cells, z3, n), r, zp, v, -c.c1 + c.c2 - 3 * c.c3 + 5 * c.c4);
    KeepsIntro(m0, mem.cells, z3, n);
  }

  lemma ThirdExact(q: int, r: int, positive: bool, v: int, third: int)
    requires 3 * q + r == v && 0 <= r < 3 && Signed(positive, v) == 3 * third
    ensures Signed(positive, q) == third
  {}

  /** z1 <- (z(1) - z(-1)) / 2 */
  method Half(mem: Memory, z1: nat, n: nat, t1: nat, t2: nat, p2: bool, ghost c: Coeffs) returns (zp: bool)
    requires z1 + n <= |mem.cells| && t1 + n <= |mem.cells| && t2 + n <= |mem.cells|
    requires Apart(t1, n, z1, n) && Apart(t2, n, z1, n)
    requires V(mem.cells, t1, n) == c.At1() && Signed(p2, V(mem.cells, t2, n)) == c.AtM1()
    requires exists q: int :: c.Within(q) && 64 * q <= P(n)
    modifies mem
    ensures Keeps(old(mem.cells), mem.cells, z1, n)
    ensures Signed(zp, V(mem.cells, z1, n)) == c.c1 + c.c3
  {
    hide Sh, V, P, Signed;
    ghost var m0 := mem.cells;
    VBound(m0, t2, n);
    HalfFits(V(m0, t1, n), V(m0, t2, n), p2, c, P(n));
    zp := SignedSub(mem, z1, n, t1, n, true, t2, n, p2);
    ghost var v := V(mem.cells, z1, n);
    TwiceIs(v, zp, c.c1 + c.c3);
    Halve(mem, z1, n);
    HalfIs(V(mem.cells, z1, n), v, zp, c.c1 + c.c3);
    KeepsIntro(m0, mem.cells, z1, n);
  }

  lemma HalfFits(v1: int, v2: int, p2: bool, c: Coeffs, p: int)
    requires v1 == c.At1() && Signed(p2, v2) == c.AtM1() && 0 <= v2 && exists q: int :: c.Within(q) && 64 * q <= p
    ensures v1 + v2 < p && Signed(true, v1) - Signed(p2, v2) == 2 * (c.c1 + c.c3)
  {
  }

  lemma TwiceIs(v: int, positive: bool, half: int)
    requires Signed(positive, v) == 2 * half
    ensures v % 2 == 0
  {
    assert v == 2 * if positive then half else -half;
  }

  lemma HalfIs(h: int, v: int, positive: bool, half: int)
    requires 2 * h == v && Signed(positive, v) == 2 * half
    ensures Signed(positive, h) == half
  {
  }

  /** z3 <- (z2 - z3) / 2 + 2 * z(inf) */
  method LastCoeff(mem: Memory, z3: nat, n: nat, zp3: bool, z2: nat, zp2: bool, t4: nat, ghost c: Coeffs)
      returns (zp: bool)
    requires 1 < n && z3 + n <= |mem.cells| && z2 + n <= |mem.cells| && t4 + (n - 1) <= |mem.cells|
    requires Apart(z2, n, z3, n) && Apart(t4, n - 1, z3, n)
    requires Signed(zp3, V(mem.cells, z3, n)) == -c.c1 + c.c2 - 3 * c.c3 + 5 * c.c4
    requires Signed(zp2, V(mem.cells, z2, n)) == -c.c1 + c.c2 - c.c3 + c.c4
    requires V(mem.cells, t4, n - 1) == c.c4
    requires exists q: int :: c.Within(q) && 64 * q <= P(n)
    modifies mem
    ensures Keeps(old(mem.cells), mem.cells, z3, n)
    ensures Signed(zp, V(mem.cells, z3, n)) == c.c3
  {
    hide Sh, V, P, Signed, Coeffs.Within;
    ghost var m0 := mem.cells;
    VBound(m0, z3, n); VBound(m0, z2, n);
    LastFits(V(m0, z2, n), zp2, V(m0, z3, n), zp3, c, P(n));
    zp := SignedSub(mem, z3, n, z2, n, zp2, z3, n, zp3);
    ghost var v := V(mem.cells, z3, n);
    TwiceIs(v, zp, c.c3 - 2 * c.c4);
    Halve(mem, z3, n);
    ghost var m1 := mem.cells;
    HalfIs(V(m1, z3, n), v, zp, c.c3 - 2 * c.c4);
    assert V(m1, t4, n - 1) == c.c4;
    VBound(m1, z3, n);
    LastRoom(V(m1, z3, n), zp, c, P(n));
    zp := AddTwice(mem, z3, n, zp, t4);
    KeepsIntro(m0, mem.cells, z3, n);
  }

  lemma LastFits(v2: int, p2: bool, v3: int, p3: bool, c: Coeffs, p: int)
    requires Signed(p3, v3) == -c.c1 + c.c2 - 3 * c.c3 + 5 * c.c4 && Signed(p2, v2) == -c.c1 + c.c2 - c.c3 + c.c4
    requires 0 <= v2 && 0 <= v3 && exists q: int :: c.Within(q) && 64 * q <= p
    ensures v2 + v3 < p && Signed(p2, v2) - Signed(p3, v3) == 2 * (c.c3 - 2 * c.c4)
  {
  }

  lemma LastRoom(v: int, positive: bool, c: Coeffs, p: int)
    requires Signed(positive, v) == c.c3 - 2 * c.c4 && 0 <= v && exists q: int :: c.Within(q) && 64 * q <= p
    ensures v + 2 * c.c4 < p
  {
  }

  /** z <- z + 2 * t on a signed z, where t has one digit less. */
  method AddTwice(mem: Memory, z: nat, n: nat, zp0: bool, t: nat) returns (zp: bool)
    requires 1 < n && z + n <= |mem.cells| && t + (n - 1) <= |mem.cells| && Apart(t, n - 1, z, n)
    requires V(mem.cells, z, n) + 2 * V(mem.cells, t, n - 1) < P(n)
    modifies mem
    ensures Keeps(old(mem.cells), mem.cells, z, n)
    ensures Signed(zp, V(mem.cells, z, n))
         == Signed(zp0, V(old(mem.cells), z, n)) + 2 * V(old(mem.cells), t, n - 1)
  {
    hide Sh, V, P;
    ghost var m0 := mem.cells;
    VBound(m0, z, n); VBound(m0, t, n - 1);
    ShNone(n); ShOne(n);
    zp := zp0;
    if zp {
      var carry := MulAdd1xN(mem, z, n, 2, t, n - 1);
      VBound(mem.cells, z, n);
    } else {
      var borrow := MulSub1xN(mem, z, 2, t, n - 1);
      VBound(mem.cells, z, n);
      if borrow {
        var zero := TwosComp(mem, z, n);
        zp := !zp;
        KeepsIntro(m0, mem.cells, z, n);
      }
    }
  }

  /** z <- z + a on signed numbers, in place. */
  method SignedAddIn(mem: Memory, z: nat, n: nat, zp0: bool, a: nat, an: nat, ap: bool) returns (zp: bool)
    requires z + n <= |mem.cells| && a + an <= |mem.cells| && an <= n && Apart(a, an, z, n)
    requires V(mem.cells, z, n) + V(mem.cells, a, an) < P(n)
    modifies mem
    ensures Keeps(old(mem.cells), mem.cells, z, n)
    ensures Signed(zp, V(mem.cells, z, n))
         == Signed(zp0, V(old(mem.cells), z, n)) + Signed(ap, V(old(mem.cells), a, an))
  {
    zp := SignedSub(mem, z, n, z, n, zp0, a, an, !ap);
  }

  /** Where the five values and the three coefficients to compute lie. */
  datatype Places = Places(t0: nat, t1: nat, t2: nat, t3: nat, t4: nat, z1: nat, z2: nat, z3: nat) {
    /** n here is the source's 2*n: t0 and t4 have n digits, the others n+1. */
    predicate Laid(n: nat, size: nat) {
      && t1 == t0 + n && t2 == t1 + n + 2 && t3 == t2 + n + 2 && t4 == t3 + n + 2
      && z1 == t4 + n && z2 == z1 + n + 1 && z3 == z2 + n + 1 && z3 + n + 1 <= size
    }
  }

  ghost predicate Points(m: seq<Digit>, at: Places, n: nat, p2: bool, p3: bool, c: Coeffs)
    requires at.Laid(n, |m|)
  {
    && V(m, at.t0, n) == c.c0
    && V(m, at.t1, n + 1) == c.At1()
    && Signed(p2, V(m, at.t2, n + 1)) == c.AtM1()
    && Signed(p3, V(m, at.t3, n + 1)) == c.AtM2()
    && V(m, at.t4, n) == c.c4
    && c.Within(P(n))
  }

  /** Step 2: from the five values to the coefficients. */
  method Interpolate(mem: Memory, at: Places, n: nat, p2: bool, p3: bool, ghost c: Coeffs)
      returns (zp1: bool, zp2: bool, zp3: bool)
    requires 0 < n && at.Laid(n, |mem.cells|)
    requires Points(mem.cells, at, n, p2, p3, c)
    modifies mem
    ensures Keeps(old(mem.cells), mem.cells, at.z1, 3 * (n + 1))
    ensures Signed(zp1, V(mem.cells, at.z1, n + 1)) == c.c1
    ensures Signed(zp2, V(mem.cells, at.z2, n + 1)) == c.c2
    ensures Signed(zp3, V(mem.cells, at.z3, n + 1)) == c.c3
  {
    hide Sh, V, P;
    ghost var m0 := mem.cells;
    var l := n + 1;
    Roomy(n);
    assert c.Within(P(n)) && 64 * P(n) <= P(l);
    zp3 := Third(mem, at.z3, l, at.t3, p3, at.t1, c);
    ghost var m1 := mem.cells;
    zp1 := Half(mem, at.z1, l, at.t1, at.t2, p2, c);
    ghost var m2 := mem.cells;
    VBound(m2, at.t2, l);
    zp2 := SignedSub(mem, at.z2, l, at.t2, l, p2, at.t0, n, true);
    KeepsIntro(m0, mem.cells, at.z1, 3 * l);
    zp1, zp2, zp3 := Combine(mem, at, n, zp1, zp2, zp3, c);
    KeepsIntro(m0, mem.cells, at.z1, 3 * l);
  }

  method Combine(mem: Memory, at: Places, n: nat, p1: bool, p2: bool, p3: bool, ghost c: Coeffs)
      returns (zp1: bool, zp2: bool, zp3: bool)
    requires 0 < n && at.Laid(n, |mem.cells|)
    requires V(mem.cells, at.t4, n) == c.c4 && c.Within(P(n))
    requires Signed(p1, V(mem.cells, at.z1, n + 1)) == c.c1 + c.c3
    requires Signed(p2, V(mem.cells, at.z2, n + 1)) == -c.c1 + c.c2 - c.c3 + c.c4
    requires Signed(p3, V(mem.cells, at.z3, n + 1)) == -c.c1 + c.c2 - 3 * c.c3 + 5 * c.c4
    modifies mem
    ensures Keeps(old(mem.cells), mem.cells, at.z1, 3 * (n + 1))
    ensures Signed(zp1, V(mem.cells, at.z1, n + 1)) == c.c1
    ensures Signed(zp2, V(mem.cells, at.z2, n + 1)) == c.c2
    ensures Signed(zp3, V(mem.cells, at.z3, n + 1)) == c.c3
  {
    hide Sh, V, P;
    ghost var m0 := mem.cells;
    var l := n + 1;
    Roomy(n);
    VBound(m0, at.z1, l); VBound(m0, at.z2, l);
    assert c.Within(P(n)) && 64 * P(n) <= P(l);
    zp3 := LastCoeff(mem, at.z3, l, p3, at.z2, p2, at.t4, c);
    ghost var m1 := mem.cells;
    zp2 := SignedAddIn(mem, at.z2, l, p2, at.z1, l, p1);
    VBound(mem.cells, at.z2, l);
    zp2 := SignedAddIn(mem, at.z2, l, zp2, at.t4, n, false);
    ghost var m2 := mem.cells;
    assert V(m2, at.z3, l) == V(m1, at.z3, l) && V(m2, at.z1, l) == V(m0, at.z1, l);
    VBound(m2, at.z3, l);
    zp1 := SignedAddIn(mem, at.z1, l, p1, at.z3, l, !zp3);
    KeepsIntro(m0, mem.cells, at.z1, 3 * l);
  }

  // ----- step 3

  /** The polynomial at b = P(n). */
  function AtBase(c: Coeffs, n: nat): (r: int) {
    c.c0 + Sh(c.c1, n) + Sh(c.c2, 2 * n) + Sh(c.c3, 3 * n) + Sh(c.c4, 4 * n)
  }

  /** Adds a coefficient k digits up.  Its flag can be "negative" only when it is zero. */
  method PlaceCoeff(mem: Memory, zz: nat, zzn: nat, k: nat, a: nat, an: nat, p: bool, ghost c: int)
    requires zz + zzn <= |mem.cells| && a + an <= |mem.cells| && k + an <= zzn && Apart(a, an, zz, zzn)
    requires Signed(p, V(mem.cells, a, an)) == c && 0 <= c
    requires V(mem.cells, zz, zzn) + Sh(c, k) < P(zzn)
    modifies mem
    ensures Keeps(old(mem.cells), mem.cells, zz, zzn)
    ensures V(mem.cells, zz, zzn) == V(old(mem.cells), zz, zzn) + Sh(c, k)
  {
    hide Sh, V, P;
    ghost var m0 := mem.cells;
    var n := zzn - k;
    VBound(m0, a, an);
    VSplit(m0, zz, k, n);
    ghost var out: int;
    ShNone(n);
    if p {
      var carry := Add(mem, zz + k, n, zz + k, n, a, an);
      out := Bit(carry);
    } else {
      var borrow := Sub(mem, zz + k, n, zz + k, n, a, an);
      VBound(m0, zz + k, n); VBound(mem.cells, zz + k, n); ShOne(n);
      out := 0;
    }
    VSplit(mem.cells, zz, k, n);
    RowAdds(V(mem.cells, zz + k, n), out, V(m0, zz + k, n), c, k, n);
    VBound(mem.cells, zz, zzn);
    NoCarry(V(mem.cells, zz, zzn), out == 1, zzn, V(m0, zz, zzn) + Sh(c, k));
    KeepsIntro(m0, mem.cells, zz, zzn);
  }

  method Recompose(mem: Memory, zz: nat, n: nat, at: Places, zp1: bool, zp2: bool, zp3: bool, ghost c: Coeffs)
    requires at.Laid(2 * n, |mem.cells|) && zz + (6 * n + 1) <= at.t0 && 0 < n
    requires V(mem.cells, at.t0, 2 * n) == c.c0 && V(mem.cells, at.t4, 2 * n) == c.c4
    requires Signed(zp1, V(mem.cells, at.z1, 2 * n + 1)) == c.c1
    requires Signed(zp2, V(mem.cells, at.z2, 2 * n + 1)) == c.c2
    requires Signed(zp3, V(mem.cells, at.z3, 2 * n + 1)) == c.c3
    requires c.Within(P(2 * n)) && AtBase(c, n) < P(6 * n + 1)
    modifies mem
    ensures Keeps(old(mem.cells), mem.cells, zz, 6 * n + 1)
    ensures V(mem.cells, zz, 6 * n + 1) == AtBase(c, n)
  {
    hide Sh, V, P;
    ghost var m0 := mem.cells;
    var zzn := 6 * n + 1;
    Ends(mem, zz, n, at.t0, at.t4);
    ShLe(0, c.c1, n); ShLe(0, c.c2, 2 * n); ShLe(0, c.c3, 3 * n);
    ShNone(n); ShNone(2 * n); ShNone(3 * n);
    PlaceCoeff(mem, zz, zzn, n, at.z1, 2 * n + 1, zp1, c.c1);
    PlaceCoeff(mem, zz, zzn, 2 * n, at.z2, 2 * n + 1, zp2, c.c2);
    PlaceCoeff(mem, zz, zzn, 3 * n, at.z3, 2 * n + 1, zp3, c.c3);
    KeepsIntro(m0, mem.cells, zz, zzn);
  }

  /** Steps 2 and 3 together. */
  method Assemble(mem: Memory, zz: nat, n: nat, at: Places, p2: bool, p3: bool, ghost c: Coeffs)
    requires at.Laid(2 * n, |mem.cells|) && zz + (6 * n + 1) <= at.t0 && 0 < n
    requires Points(mem.cells, at, 2 * n, p2, p3, c)
    requires AtBase(c, n) < P(6 * n + 1)
    modifies mem
    ensures |mem.cells| == |old(mem.cells)|
    ensures Keeps2(old(mem.cells), mem.cells, zz, 6 * n + 1, at.z1, 3 * (2 * n + 1))
    ensures V(mem.cells, zz, 6 * n + 1) == AtBase(c, n)
  {
    hide Sh, V, P, AtBase, Signed;
    ghost var m0 := mem.cells;
    var zp1, zp2, zp3 := Interpolate(mem, at, 2 * n, p2, p3, c);
    ghost var m1 := mem.cells;
    assert V(m1, at.t0, 2 * n) == V(m0, at.t0, 2 * n) && V(m1, at.t4, 2 * n) == V(m0, at.t4, 2 * n);
    Recompose(mem, zz, n, at, zp1, zp2, zp3, c);
    Keeps2Intro(m0, mem.cells, zz, 6 * n + 1, at.z1, 3 * (2 * n + 1));
  }

  /** The two products that need no interpolation are copied to both ends. */
  method Ends(mem: Memory, zz: nat, n: nat, t0: nat, t4: nat)
    requires zz + (6 * n + 1) <= |mem.cells| && t0 + 2 * n <= |mem.cells| && t4 + 2 * n <= |mem.cells|
    requires Apart(t0, 2 * n, zz, 6 * n + 1) && Apart(t4, 2 * n, zz, 6 * n + 1)
    modifies mem
    ensures Keeps(old(mem.cells), mem.cells, zz, 6 * n + 1)
    ensures V(mem.cells, zz, 6 * n + 1)
         == V(old(mem.cells), t0, 2 * n) + Sh(V(old(mem.cells), t4, 2 * n), 4 * n)
  {
    hide Sh, V, P;
    ghost var m0 := mem.cells;
    Copy(mem, zz, t0, 2 * n);
    Zero(mem, zz + 2 * n, 2 * n);
    Copy(mem, zz + 4 * n, t4, 2 * n);
    Zero(mem, zz + 6 * n, 1);
    VSplit(mem.cells, zz, 6 * n, 1);
    VSplit(mem.cells, zz, 4 * n, 2 * n);
    VSplit(mem.cells, zz, 2 * n, 2 * n);
    ShNone(6 * n); ShNone(2 * n);
    KeepsIntro(m0, mem.cells, zz, 6 * n + 1);
  }

  /** BARY_TRUNC */
  method Trunc(mem: Memory, x: nat, xn0: nat) returns (xn: nat)
    requires x + xn0 <= |mem.cells|
    ensures xn <= xn0 && V(mem.cells, x, xn) == V(mem.cells, x, xn0)
    ensures xn > 0 ==> mem.cells[x + xn - 1] != 0
  {
    hide Sh, V;
    xn := xn0;
    while xn > 0 && mem.cells[x + xn - 1] == 0
      invariant xn <= xn0 && V(mem.cells, x, xn) == V(mem.cells, x, xn0)
    {
      VStep(mem.cells, x, xn - 1);
      ShNone(xn - 1);
      xn := xn - 1;
    }
  }

  lemma TopDigitWeighs(m: seq<Digit>, p: nat, n: nat)
    requires 0 < n && p + n <= |m| && m[p + n - 1] != 0
    ensures V(m, p, n) >= P(n - 1)
  {
    hide Sh, V, P;
    VStep(m, p, n - 1);
    VBound(m, p, n - 1);
    ShLe(1, m[p + n - 1], n - 1);
    ShOne(n - 1);
  }

  /** bary_zero_p */
  method ZeroP(mem: Memory, x: nat, xn: nat) returns (zero: bool)
    requires x + xn <= |mem.cells|
    ensures zero <==> V(mem.cells, x, xn) == 0
  {
    hide V, Sh, P;
    var n := xn;
    while n > 0
      invariant 0 <= n <= xn && V(mem.cells, x, n) == V(mem.cells, x, xn)
    {
      n := n - 1;
      VStep(mem.cells, x, n);
      if mem.cells[x + n] != 0 {
        TopDigitWeighs(mem.cells, x, n + 1);
        return false;
      }
      ShNone(n);
    }
    VEmpty(mem.cells, x);
    return true;
  }

  /** The result moves to z without its leading zeros, which z may have no room for. */
  method Deliver(mem: Memory, z: nat, zn: nat, zz: nat, zzn: nat)
    requires z + zn <= |mem.cells| && zz + zzn <= |mem.cells| && Apart(zz, zzn, z, zn)
    requires V(mem.cells, zz, zzn) < P(zn)
    modifies mem
    ensures Keeps(old(mem.cells), mem.cells, z, zn)
    ensures V(mem.cells, z, zn) == V(old(mem.cells), zz, zzn)
  {
    hide Sh, V, P;
    ghost var m0 := mem.cells;
    var k := Trunc(mem, zz, zzn);
    if k > zn {
      TopDigitWeighs(mem.cells, zz, k);
      PMonotone(zn, k - 1);
      assert false;
    }
    Copy(mem, z, zz, k);
    Zero(mem, z + k, zn - k);
    VSplit(mem.cells, z, k, zn - k);
    ShNone(k);
    KeepsIntro(m0, mem.cells, z, zn);
  }

  // ----- the algebra

  /** The coefficients of (x0 + x1*b + x2*b^2) * (y0 + y1*b + y2*b^2). */
  function Convolve(x0: int, x1: int, x2: int, y0: int, y1: int, y2: int): (r: Coeffs) {
    Coeffs(Mul(x0, y0), Mul(x0, y1) + Mul(x1, y0), Mul(x0, y2) + Mul(x1, y1) + Mul(x2, y0),
           Mul(x1, y2) + Mul(x2, y1), Mul(x2, y2))
  }

  lemma ConvolveAt1(x0: int, x1: int, x2: int, y0: int, y1: int, y2: int)
    ensures Convolve(x0, x1, x2, y0, y1, y2).At1() == Mul(x0 + x1 + x2, y0 + y1 + y2)
  {}

  lemma ConvolveAtM1(x0: int, x1: int, x2: int, y0: int, y1: int, y2: int)
    ensures Convolve(x0, x1, x2, y0, y1, y2).AtM1() == Mul(x0 - x1 + x2, y0 - y1 + y2)
  {}

  lemma ConvolveAtM2(x0: int, x1: int, x2: int, y0: int, y1: int, y2: int)
    ensures Convolve(x0, x1, x2, y0, y1, y2).AtM2() == Mul(x0 - 2 * x1 + 4 * x2, y0 - 2 * y1 + 4 * y2)
  {}

  lemma ConvolveWithin(x0: int, x1: int, x2: int, y0: int, y1: int, y2: int, n: nat)
    requires 0 <= x0 < P(n) && 0 <= x1 < P(n) && 0 <= x2 < P(n)
    requires 0 <= y0 < P(n) && 0 <= y1 < P(n) && 0 <= y2 < P(n)
    ensures Convolve(x0, x1, x2, y0, y1, y2).Within(P(2 * n))
  {
    hide P, Mul;
    ProductFits(x0, n, y0, n, 2 * n); ProductFits(x0, n, y1, n, 2 * n); ProductFits(x0, n, y2, n, 2 * n);
    ProductFits(x1, n, y0, n, 2 * n); ProductFits(x1, n, y1, n, 2 * n); ProductFits(x1, n, y2, n, 2 * n);
    ProductFits(x2, n, y0, n, 2 * n); ProductFits(x2, n, y1, n, 2 * n); ProductFits(x2, n, y2, n, 2 * n);
  }

  lemma ConvolveAtBase(x0: int, x1: int, x2: int, y0: int, y1: int, y2: int, n: nat)
    ensures AtBase(Convolve(x0, x1, x2, y0, y1, y2), n)
         == Mul(x0 + Sh(x1, n) + Sh(x2, 2 * n), y0 + Sh(y1, n) + Sh(y2, 2 * n))
  {
    hide Sh, P, Mul;
    var y := y0 + Sh(y1, n) + Sh(y2, 2 * n);
    TimesY(x0, y0, y1, y2, n);
    TimesY(x1, y0, y1, y2, n);
    TimesY(x2, y0, y1, y2, n);
    ByParts(x0, x1, x2, y, n);
    ShiftSum(Mul(x1, y0), Mul(x1, y1), Mul(x1, y2), n, n);
    ShiftSum(Mul(x2, y0), Mul(x2, y1), Mul(x2, y2), n, 2 * n);
    ShAdds(Mul(x0, y1), Mul(x1, y0), n);
    ShAdds(Mul(x0, y2) + Mul(x1, y1), Mul(x2, y0), 2 * n);
    ShAdds(Mul(x0, y2), Mul(x1, y1), 2 * n);
    ShAdds(Mul(x1, y2), Mul(x2, y1), 3 * n);
  }

  lemma TimesY(a: int, y0: int, y1: int, y2: int, n: nat)
    ensures Mul(a, y0 + Sh(y1, n) + Sh(y2, 2 * n)) == Mul(a, y0) + Sh(Mul(a, y1), n) + Sh(Mul(a, y2), 2 * n)
  {
    hide Sh, P, Mul;
    MulAdds(a, y0 + Sh(y1, n), Sh(y2, 2 * n));
    MulAdds(a, y0, Sh(y1, n));
    MulSh(a, y1, n);
    MulSh(a, y2, 2 * n);
  }

  lemma ByParts(x0: int, x1: int, x2: int, y: int, n: nat)
    ensures Mul(x0 + Sh(x1, n) + Sh(x2, 2 * n), y) == Mul(x0, y) + Sh(Mul(x1, y), n) + Sh(Mul(x2, y), 2 * n)
  {
    hide Sh, P, Mul;
    MulComm(x0 + Sh(x1, n) + Sh(x2, 2 * n), y);
    TimesY(y, x0, x1, x2, n);
    MulComm(x0, y); MulComm(x1, y); MulComm(x2, y);
  }

  lemma ShiftSum(a: int, b: int, c: int, n: nat, k: nat)
    ensures Sh(a + Sh(b, n) + Sh(c, 2 * n), k) == Sh(a, k) + Sh(b, n + k) + Sh(c, 2 * n + k)
  {
    hide Sh, P;
    ShAdds(a + Sh(b, n), Sh(c, 2 * n), k);
    ShAdds(a, Sh(b, n), k);
    ShSh(b, n, k);
    ShSh(c, 2 * n, k);
  }
}
