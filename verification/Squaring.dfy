/** Fast squaring (bary_sq_fast; Algorithm 14.16 of the Handbook of Applied Cryptography). */
module Squaring {
  import opened Digits
  import opened Memory
  import opened Schoolbook

  /** What the first i rows contribute to x*x: every product of two digits of which
      the lower one is among the first i.  `part` is their value and `all` that of x. */
  function Rows(part: int, all: int): (r: int) { Mul(part, 2 * all - part) }

  method SqFast(mem: Memory, z: nat, zn: nat, x: nat, xn: nat)
    requires z + zn <= |mem.cells| && x + xn <= |mem.cells|
    requires 2 * xn <= zn && Apart(x, xn, z, zn)
    modifies mem
    ensures Keeps(old(mem.cells), mem.cells, z, zn)
    ensures V(mem.cells, z, zn) == V(old(mem.cells), x, xn) * V(old(mem.cells), x, xn)
  {
    hide Sh, V, P, Mul, BigLo, BigDn;
    ghost var m0 := mem.cells;
    ghost var all := V(m0, x, xn);
    Zero(mem, z, zn);
    VEmpty(m0, x);
    MulNone(2 * all);
    MulComm(0, 2 * all);
    MulIs(all, all);
    if xn == 0 {
      return;
    }
    var i := 0;
    while i < xn - 1
      invariant i <= xn - 1
      invariant Keeps(m0, mem.cells, z, zn)
      invariant V(mem.cells, z, zn) == Rows(V(m0, x, i), all)
    {
      if mem.cells[x + i] != 0 {
        SqRow(mem, z, zn, x, xn, i, m0);
      } else {
        VStep(m0, x, i);
        ShNone(i);
      }
      i := i + 1;
    }
    LastRow(mem, z, zn, x, xn, m0);
  }

  /** Row i < xn-1: the square of digit i and twice its products with the digits above it. */
  method SqRow(mem: Memory, z: nat, zn: nat, x: nat, xn: nat, i: nat, ghost m0: seq<Digit>)
    requires z + zn <= |mem.cells| && x + xn <= |mem.cells|
    requires 2 * xn <= zn && Apart(x, xn, z, zn) && i < xn - 1
    requires Keeps(m0, mem.cells, z, zn)
    requires V(mem.cells, z, zn) == Rows(V(m0, x, i), V(m0, x, xn))
    modifies mem
    ensures Keeps(m0, mem.cells, z, zn)
    ensures V(mem.cells, z, zn) == Rows(V(m0, x, i + 1), V(m0, x, xn))
  {
    hide Sh, V, P, Mul, Rows, BigLo, BigDn;
    ghost var m1 := mem.cells;
    var k := i + xn;
    var v := mem.cells[x + i];
    TopIsSmall(m1, z, zn, m0, x, xn, i);
    var c := SqDigit(mem, z, i, v);
    c := SqInner(mem, z, x, xn, i, v, c, m1);
    KeepsIntro(m1, mem.cells, z, k);
    ghost var m2 := mem.cells;
    if c != 0 {
      AddTop(mem, z, k, zn, c);
    }
    VSplit(m1, z, k, zn - k);
    VSplit(mem.cells, z, k, zn - k);
    assert V(mem.cells, z, k) == V(m2, z, k) by { KeepsIntro(m2, mem.cells, z + k, zn - k); }
    ShAdds(V(m1, z + k, zn - k), c, k);
    VStep(m0, x, i);
    assert V(m1, x, xn) == V(m0, x, xn) && V(m1, x, i + 1) == V(m0, x, i + 1);
    RowTotal(V(m0, x, i), v, V(m0, x, xn), i);
    KeepsIntro(m0, mem.cells, z, zn);
  }

  /** What row i adds to the digits below position i + j. */
  ghost function Row(m: seq<Digit>, x: nat, i: nat, v: int, j: nat): (r: int)
    requires i < j && x + j <= |m|
  {
    Sh(v * v, 2 * i) + Mul(2 * v, Sh(V(m, x, j) - V(m, x, i + 1), i))
  }

  lemma RowTotal(xi: int, v: int, all: int, i: nat)
    ensures Rows(xi + Sh(v, i), all)
         == Rows(xi, all) + Sh(v * v, 2 * i) + Mul(2 * v, Sh(all - (xi + Sh(v, i)), i))
  {
    var s, p := Sh(v, i), P(i);
    assert Sh(v * v, 2 * i) == s * s by {
      PAdds(i, i);
      SquareOfProduct(v, p);
    }
    var rest := all - (xi + s);
    assert Mul(2 * v, Sh(rest, i)) == 2 * s * rest by { Regroup(v, rest, p); }
    RowsStep(xi, s, all, rest);
  }

  lemma SquareOfProduct(v: int, p: int)
    ensures (v * v) * (p * p) == (v * p) * (v * p)
  {
    MulAssoc(v, v, p * p);
    MulAssoc(v, p, v * p);
    MulAssoc(v, p, p);
  }

  lemma Regroup(v: int, r: int, p: int)
    ensures (2 * v) * (r * p) == 2 * (v * p) * r
  {
    MulAssoc(2 * v, p, r);
  }

  lemma RowsStep(xi: int, s: int, all: int, rest: int)
    requires rest == all - (xi + s)
    ensures (xi + s) * (2 * all - (xi + s)) == xi * (2 * all - xi) + s * s + 2 * s * rest
  {}

  /** The first digit of a row: v * v goes to position 2*i. */
  method SqDigit(mem: Memory, z: nat, i: nat, v: Digit) returns (c: nat)
    requires z + 2 * i < |mem.cells|
    modifies mem
    ensures SameOutside(old(mem.cells), mem.cells, z + 2 * i, 1)
    ensures c < BIGRAD
    ensures V(mem.cells, z, 2 * i + 1) + Sh(c, 2 * i + 1)
         == V(old(mem.cells), z, 2 * i + 1) + Sh(v * v, 2 * i)
  {
    hide Sh, V, P, Mul, BigLo, BigDn;
    var d := mem.cells[z + 2 * i];
    VStep(mem.cells, z, 2 * i);
    MulAddBounds(0, v, v, d, 2 * i);
    ShAdds(d, v * v, 2 * i);
    c := PutDigit(mem, z, 2 * i, d + v * v);
  }

  /** The inner loop.  Doubling v can need one bit more than a digit, so it is kept as
      vl and vh; vl is even, which is what keeps the accumulator below BIGRAD squared. */
  method SqInner(mem: Memory, z: nat, x: nat, xn: nat, i: nat, v: Digit, c0: nat, ghost m1: seq<Digit>)
      returns (c: nat)
    requires i + 1 < xn && z + i + xn <= |mem.cells| && x + xn <= |mem.cells|
    requires Apart(x, xn, z, i + xn)
    requires c0 < BIGRAD
    requires SameOutside(m1, mem.cells, z + 2 * i, 1)
    requires V(mem.cells, z, 2 * i + 1) + Sh(c0, 2 * i + 1) == V(m1, z, 2 * i + 1) + Sh(v * v, 2 * i)
    modifies mem
    ensures SameOutside(m1, mem.cells, z + 2 * i, xn - i)
    ensures c <= 2 * BIGRAD - 2
    ensures V(mem.cells, z, i + xn) + Sh(c, i + xn) == V(m1, z, i + xn) + Row(m1, x, i, v, xn)
  {
    hide Sh, V, P, Mul, BigLo, BigDn;
    c := c0;
    Doubled(v);
    var vl, vh := BigLo(2 * v as int), BigDn(2 * v as int);
    ShNone(i); MulNone(2 * v as int);
    for j := i + 1 to xn
      invariant 0 <= c <= 2 * BIGRAD - 2
      invariant SameOutside(m1, mem.cells, z + 2 * i, j - i)
      invariant V(mem.cells, z, i + j) + Sh(c, i + j) == V(m1, z, i + j) + Row(m1, x, i, v, j)
    {
      VStep(m1, z, i + j);
      VStep(m1, x, j);
      RowStep(2 * v as int, V(m1, x, j) - V(m1, x, i + 1), m1[x + j], i, j);
      c := SqStep(mem, z, i + j, c, vl, vh, mem.cells[x + j], v);
    }
  }

  method SqStep(mem: Memory, z: nat, k: nat, c: nat, vl: Digit, vh: int, w: Digit, ghost v: Digit)
      returns (rest: nat)
    requires z + k < |mem.cells| && c <= 2 * BIGRAD - 2
    requires 2 * v as int == vl + BIGRAD * vh && vl <= BIGRAD - 2 && 0 <= vh <= 1
    modifies mem
    ensures SameOutside(old(mem.cells), mem.cells, z + k, 1)
    ensures rest <= 2 * BIGRAD - 2
    ensures V(mem.cells, z, k + 1) + Sh(rest, k + 1)
         == V(old(mem.cells), z, k) + Sh(c, k) + Sh(old(mem.cells)[z + k], k) + Sh(Mul(2 * v as int, w), k)
  {
    hide Sh, V, P, Mul, BigLo, BigDn;
    var d := mem.cells[z + k];
    SqBounds(c, d, vl, vh, w, v, k);
    MulIs(2 * v as int, w);
    rest := PutDigit(mem, z, k, c + (d + vl * w));
    if vh != 0 {
      rest := rest + w;
    }
    ShNone(k + 1);
  }

  lemma Doubled(v: Digit)
    ensures 2 * v as int == BigLo(2 * v as int) + BIGRAD * BigDn(2 * v as int)
    ensures BigLo(2 * v as int) <= BIGRAD - 2
    ensures 0 <= BigDn(2 * v as int) <= 1
  {
    var dbl := 2 * v as int;
    LoDn(dbl);
    BigDnBounds(dbl, 0, 2);
    assert BIGRAD % 2 == 0;
  }

  lemma SqRoom(c: int, d: Digit, vl: Digit, vh: int, w: Digit)
    requires 0 <= c <= 2 * BIGRAD - 2 && vl <= BIGRAD - 2 && 0 <= vh <= 1
    ensures FitsDouble(c + (d + vl * w))
    ensures 0 <= BigDn(c + (d + vl * w)) + vh * w <= 2 * BIGRAD - 2
    ensures 0 <= BigDn(c + (d + vl * w)) <= BIGRAD - 1
  {
    hide Sh;
    MulLe(0, vl, w);
    MulLe(vl, BIGRAD - 2, w);
    MulLe(w, BIGRAD - 1, BIGRAD - 2);
    assert (BIGRAD - 1) * (BIGRAD - 2) == BIGRAD * BIGRAD - 3 * BIGRAD + 2;
    BigDnBounds(c + (d + vl * w), 0, BIGRAD);
    assert 0 <= vh * w <= w;
  }

  lemma SqShift(c: int, d: Digit, vl: Digit, vh: int, w: Digit, v: Digit, k: nat)
    requires 2 * v as int == vl + BIGRAD * vh
    ensures Sh(c + (d + vl * w), k) + Sh(vh * w, k + 1) == Sh(c, k) + Sh(d, k) + Sh(2 * v as int * w, k)
  {
    hide Sh;
    ShAdds(c, d + vl * w, k);
    ShAdds(d, vl * w, k);
    ShBase(vh * w, k);
    ShAdds(vl * w, vh * w * BIGRAD, k);
    assert 2 * v as int * w == vl * w + vh * w * BIGRAD by {
      assert (vl + BIGRAD * vh) * w == vl * w + (BIGRAD * vh) * w;
      MulAssoc(BIGRAD, vh, w);
    }
  }

  lemma SqBounds(c: int, d: Digit, vl: Digit, vh: int, w: Digit, v: Digit, k: nat)
    requires 0 <= c <= 2 * BIGRAD - 2
    requires 2 * v as int == vl + BIGRAD * vh && vl <= BIGRAD - 2 && 0 <= vh <= 1
    ensures FitsDouble(c + (d + vl * w))
    ensures 0 <= BigDn(c + (d + vl * w)) + vh * w <= 2 * BIGRAD - 2
    ensures 0 <= BigDn(c + (d + vl * w)) <= BIGRAD - 1
    ensures Sh(c + (d + vl * w), k) + Sh(vh * w, k + 1) == Sh(c, k) + Sh(d, k) + Sh(2 * v as int * w, k)
    ensures Sh(BigDn(c + (d + vl * w)) + vh * w, k + 1)
         == Sh(BigDn(c + (d + vl * w)), k + 1) + Sh(vh * w, k + 1)
  {
    SqRoom(c, d, vl, vh, w);
    SqShift(c, d, vl, vh, w, v, k);
    ShAdds(BigDn(c + (d + vl * w)), vh * w, k + 1);
  }

  lemma RowStep(dbl: int, sum: int, w: int, i: nat, j: nat)
    ensures Mul(dbl, Sh(sum + Sh(w, j), i)) == Mul(dbl, Sh(sum, i)) + Sh(Mul(dbl, w), i + j)
  {
    hide Sh, Mul;
    ShAdds(sum, Sh(w, j), i);
    ShSh(w, j, i);
    MulAdds(dbl, Sh(sum, i), Sh(w, j + i));
    MulSh(dbl, w, j + i);
  }

  /** Before row i the product so far is below 2 * P(i + xn), so at most a single 1
      stands at or above position i + xn. */
  lemma TopIsSmall(m: seq<Digit>, z: nat, zn: nat, m0: seq<Digit>, x: nat, xn: nat, i: nat)
    requires z + zn <= |m| && x + xn <= |m0| && i < xn && i + xn <= zn
    requires V(m, z, zn) == Rows(V(m0, x, i), V(m0, x, xn))
    ensures V(m, z + (i + xn), zn - (i + xn)) <= 1
  {
    hide Sh, V, P, Mul;
    var k := i + xn;
    var part, all, top := V(m0, x, i), V(m0, x, xn), V(m, z + k, zn - k);
    VBound(m0, x, i); VBound(m0, x, xn); VBound(m, z, k);
    ProductFits(part, i, all, xn, k);
    RowsBound(part, all);
    VSplit(m, z, k, zn - k);
    if top >= 2 {
      ShLe(2, top, k);
      ShAdds(1, 1, k);
      ShOne(k);
    }
  }

  lemma RowsBound(part: int, all: int)
    requires 0 <= part
    ensures Mul(part, 2 * all - part) <= 2 * Mul(part, all)
  {}

  /** Adds what is left of a row above position k, where at most a single 1 stands. */
  method AddTop(mem: Memory, z: nat, k: nat, zn: nat, c0: nat)
    requires k + 1 < zn && z + zn <= |mem.cells|
    requires V(mem.cells, z + k, zn - k) <= 1 && c0 <= 2 * BIGRAD - 2
    modifies mem
    ensures SameOutside(old(mem.cells), mem.cells, z + k, 2)
    ensures V(mem.cells, z + k, zn - k) == V(old(mem.cells), z + k, zn - k) + c0
  {
    hide Sh, V, P, Mul, BigLo, BigDn;
    ghost var m0 := mem.cells;
    ghost var n := zn - k - 2;
    SmallNumber(m0, z + k, zn - k);
    var c: int := c0 + mem.cells[z + k];
    BigDnBounds(c, 0, 2);
    VEmpty(m0, z + k); ShZero(c);
    c := PutDigit(mem, z + k, 0, c);
    VStep(mem.cells, z + k, 1);
    ShNone(1);
    if c != 0 {
      ghost var m1 := mem.cells;
      mem.cells := mem.cells[z + k + 1 := mem.cells[z + k + 1] + c];
      KeepsIntro(m1, mem.cells, z + k + 1, 1);
      VStep(mem.cells, z + k, 1);
    }
    VSplit(m0, z + k, 2, n);
    VSplit(mem.cells, z + k, 2, n);
    KeepsIntro(m0, mem.cells, z + k, 2);
    VStep(m0, z + k, 1); VOne(m0, z + k);
  }

  /** A number that is at most 1 has that as its lowest digit and zeros above. */
  lemma SmallNumber(m: seq<Digit>, p: nat, n: nat)
    requires p + n <= |m| && n >= 2 && V(m, p, n) <= 1
    ensures m[p] == V(m, p, n) && m[p + 1] == 0
  {
    hide Sh, V, P;
    VFirst(m, p, n - 1);
    VFirst(m, p + 1, n - 2);
    VBound(m, p + 2, n - 2);
    VBound(m, p + 1, n - 1);
    ShLe(0, V(m, p + 2, n - 2), 1);
    ShNone(1);
    if V(m, p + 1, n - 1) >= 1 {
      ShLe(1, V(m, p + 1, n - 1), 1);
      ShBase(1, 0);
      ShZero(BIGRAD);
    }
  }

  /** The top digit has no products above it; the sum fits because x*x does. */
  method LastRow(mem: Memory, z: nat, zn: nat, x: nat, xn: nat, ghost m0: seq<Digit>)
    requires z + zn <= |mem.cells| && x + xn <= |mem.cells|
    requires 0 < xn && 2 * xn <= zn && Apart(x, xn, z, zn)
    requires Keeps(m0, mem.cells, z, zn)
    requires V(mem.cells, z, zn) == Rows(V(m0, x, xn - 1), V(m0, x, xn))
    modifies mem
    ensures Keeps(m0, mem.cells, z, zn)
    ensures V(mem.cells, z, zn) == Mul(V(m0, x, xn), V(m0, x, xn))
  {
    hide Sh, V, P, Mul, Rows, BigLo, BigDn;
    var i := xn - 1;
    ghost var all := V(m0, x, xn);
    ghost var m1 := mem.cells;
    var k := 2 * i + 1;
    VStep(m0, x, i);
    assert V(m0, x, i) + Sh(m0[x + i], i) == all;
    RowTotal(V(m0, x, i), m0[x + i], all, i);
    ShNone(i);
    MulNone(2 * m0[x + i] as int);
    RowsAll(all);
    var v := mem.cells[x + i];
    if v == 0 {
      ShNone(2 * i);
      return;
    }
    TopIsSmall(m1, z, zn, m0, x, xn, i);
    var c := SqDigit(mem, z, i, v);
    KeepsIntro(m1, mem.cells, z, k);
    ghost var m2 := mem.cells;
    VSplit(m1, z, k, zn - k);
    TopFits(m2, m1, z, k, zn, c, m0, x, xn);
    if c != 0 {
      mem.cells := mem.cells[z + k := mem.cells[z + k] + c];
      KeepsIntro(m2, mem.cells, z + k, 1);
      VFirst(m2, z + k, zn - k - 1);
      VFirst(mem.cells, z + k, zn - k - 1);
    }
    VSplit(mem.cells, z, k, zn - k);
    ShAdds(V(m1, z + k, zn - k), c, k);
    KeepsIntro(m0, mem.cells, z, zn);
  }

  lemma RowsAll(all: int)
    ensures Rows(all, all) == Mul(all, all)
  {}

  lemma TopFits(m2: seq<Digit>, m1: seq<Digit>, z: nat, k: nat, zn: nat, c: nat,
                m0: seq<Digit>, x: nat, xn: nat)
    requires |m1| == |m2| && z + zn <= |m1| && x + xn <= |m0| && k == 2 * xn - 1 && 2 * xn <= zn && 0 < xn
    requires SameOutside(m1, m2, z, k)
    requires V(m1, z + k, zn - k) <= 1
    requires V(m2, z, k) + Sh(c, k) + Sh(V(m1, z + k, zn - k), k) == Mul(V(m0, x, xn), V(m0, x, xn))
    ensures m2[z + k] + c < BIGRAD
  {
    hide Sh, V, P, Mul;
    var top := V(m1, z + k, zn - k);
    VBound(m0, x, xn);
    ProductFits(V(m0, x, xn), xn, V(m0, x, xn), xn, k + 1);
    VBound(m2, z, k);
    ShAdds(c, top, k);
    ShOne(k + 1);
    ShBase(1, k);
    if c + top >= BIGRAD { ShLe(BIGRAD, c + top, k); }
    VFirst(m1, z + k, zn - k - 1);
    VBound(m1, z + k + 1, zn - k - 1);
    ShLe(0, V(m1, z + k + 1, zn - k - 1), 1);
    ShNone(1);
  }
}
