/** Schoolbook multiplication: one digit times a number, and the double loop
    (bary_muladd_1xN, bary_mul_normal, bary_mul_single, bary_short_mul). */
module Schoolbook {
  import opened Digits
  import opened Memory

  /** Adds x * y into z; the result says whether a carry left the top of z. */
  method MulAdd1xN(mem: Memory, z: nat, zn: nat, x: Digit, y: nat, yn: nat) returns (carry: bool)
    requires z + zn <= |mem.cells| && y + yn <= |mem.cells|
    requires yn < zn && Apart(y, yn, z, zn)
    modifies mem
    ensures Keeps(old(mem.cells), mem.cells, z, zn)
    ensures V(mem.cells, z, zn) + Sh(Bit(carry), zn)
         == V(old(mem.cells), z, zn) + x * V(old(mem.cells), y, yn)
  {
    hide Sh, V, Mul, BigLo, BigDn;
    ghost var m0 := mem.cells;
    ShNone(zn);
    if x == 0 {
      KeepsIntro(m0, m0, z, zn);
      return false;
    }
    VEmpty(m0, z); VEmpty(m0, y); ShNone(0); MulNone(x);
    var n := 0;
    var j := 0;
    while j < yn
      invariant j <= yn && 0 <= n < BIGRAD
      invariant SameOutside(m0, mem.cells, z, j)
      invariant V(mem.cells, z, j) + Sh(n, j) == V(m0, z, j) + Mul(x, V(m0, y, j))
    {
      n := MulAddDigit(mem, z, x, y, j, n);
      VStep(m0, z, j);
      VStep(m0, y, j);
      MulAdds(x, V(m0, y, j), Sh(m0[y + j], j));
      j := j + 1;
    }
    MulIs(x, V(m0, y, yn));
    while j < zn && n != 0
      invariant yn <= j <= zn && 0 <= n < BIGRAD
      invariant j > yn ==> n <= 1
      invariant SameOutside(m0, mem.cells, z, j)
      invariant V(mem.cells, z, j) + Sh(n, j) == V(m0, z, j) + Mul(x, V(m0, y, yn))
    {
      VStep(m0, z, j);
      ShAdds(n, mem.cells[z + j], j);
      BigDnBounds(n + mem.cells[z + j], 0, 2);
      n := PutDigit(mem, z, j, n + mem.cells[z + j]);
      j := j + 1;
    }
    KeepsIntro(m0, mem.cells, z, j);
    carry := n != 0;
    VSplit(m0, z, j, zn - j);
    VSplit(mem.cells, z, j, zn - j);
    ShNone(j);
    KeepsIntro(m0, mem.cells, z, zn);
  }

  /** The body of the inner loop. */
  method MulAddDigit(mem: Memory, z: nat, x: Digit, y: nat, j: nat, n: nat) returns (rest: nat)
    requires z + j < |mem.cells| && y + j < |mem.cells| && n < BIGRAD
    modifies mem
    ensures SameOutside(old(mem.cells), mem.cells, z + j, 1)
    ensures rest < BIGRAD
    ensures V(mem.cells, z, j + 1) + Sh(rest, j + 1)
         == V(old(mem.cells), z, j) + Sh(n, j) + Sh(old(mem.cells)[z + j], j)
            + Mul(x, Sh(old(mem.cells)[y + j], j))
  {
    hide Sh, V, Mul, BigLo, BigDn;
    var d, e := mem.cells[z + j], mem.cells[y + j];
    MulAddBounds(n, x, e, d, j);
    var ee := n + x * e;
    if ee != 0 {
      rest := PutDigit(mem, z, j, d + ee);
    } else {
      VStep(mem.cells, z, j);
      ShNone(j); ShNone(j + 1);
      rest := 0;
    }
  }

  lemma MulAddBounds(n: int, x: Digit, e: Digit, d: Digit, j: nat)
    requires 0 <= n < BIGRAD
    ensures 0 <= x * e
    ensures FitsDouble(n + x * e) && FitsDouble(d + (n + x * e))
    ensures 0 <= BigDn(d + (n + x * e)) < BIGRAD
    ensures Sh(d + (n + x * e), j) == Sh(n, j) + Sh(d, j) + Mul(x, Sh(e, j))
    ensures n + x * e == 0 ==> Sh(n, j) + Mul(x, Sh(e, j)) == 0
  {
    MulLe(0, x, e);
    MulLe(x, BIGRAD - 1, e);
    MulLe(e, BIGRAD - 1, BIGRAD - 1);
    BigDnBounds(d + (n + x * e), 0, BIGRAD);
    ShAdds(d, n + x * e, j);
    ShAdds(n, x * e, j);
    ShNone(j);
    MulSh(x, e, j);
  }

  /** z <- x * y, digit by digit. */
  method MulNormal(mem: Memory, z: nat, zn: nat, x: nat, xn: nat, y: nat, yn: nat)
    requires z + zn <= |mem.cells| && x + xn <= |mem.cells| && y + yn <= |mem.cells|
    requires xn + yn <= zn
    requires Apart(x, xn, z, zn) && Apart(y, yn, z, zn)
    modifies mem
    ensures Keeps(old(mem.cells), mem.cells, z, zn)
    ensures V(mem.cells, z, zn) == V(old(mem.cells), x, xn) * V(old(mem.cells), y, yn)
  {
    hide Sh, V, Mul, P;
    ghost var m0 := mem.cells;
    ghost var vy := V(m0, y, yn);
    Zero(mem, z, zn);
    VEmpty(m0, x);
    MulNone(vy);
    MulComm(vy, 0);
    for i := 0 to xn
      invariant Keeps(m0, mem.cells, z, zn)
      invariant V(mem.cells, z, zn) == Mul(V(m0, x, i), vy)
    {
      MulRow(mem, z, zn, x, i, y, yn, m0);
    }
    MulIs(V(m0, x, xn), vy);
  }

  method MulRow(mem: Memory, z: nat, zn: nat, x: nat, i: nat, y: nat, yn: nat, ghost m0: seq<Digit>)
    requires z + zn <= |mem.cells| && x + i < |mem.cells| && y + yn <= |mem.cells|
    requires i + yn < zn && Apart(x, i + 1, z, zn) && Apart(y, yn, z, zn)
    requires Keeps(m0, mem.cells, z, zn)
    requires V(mem.cells, z, zn) == Mul(V(m0, x, i), V(m0, y, yn))
    modifies mem
    ensures Keeps(m0, mem.cells, z, zn)
    ensures V(mem.cells, z, zn) == Mul(V(m0, x, i + 1), V(m0, y, yn))
  {
    hide Sh, V, Mul, P;
    ghost var m1 := mem.cells;
    ghost var d, vx, vy := m0[x + i], V(m0, x, i), V(m0, y, yn);
    var carry := MulAdd1xN(mem, z + i, zn - i, mem.cells[x + i], y, yn);
    VSplit(m1, z, i, zn - i);
    VSplit(mem.cells, z, i, zn - i);
    VStep(m0, x, i);
    RowSum(vx, d, vy, i);
    VBound(m0, x, i + 1);
    VBound(m0, y, yn);
    VBound(mem.cells, z, zn);
    ProductFits(V(m0, x, i + 1), i + 1, vy, yn, zn);
    RowAdds(V(mem.cells, z + i, zn - i), Bit(carry), V(m1, z + i, zn - i), d * vy, i, zn - i);
    NoCarry(V(mem.cells, z, zn), carry, zn, Mul(V(m0, x, i + 1), vy));
    KeepsIntro(m0, mem.cells, z, zn);
  }

  lemma RowSum(vx: int, d: int, vy: int, i: nat)
    ensures Mul(vx + Sh(d, i), vy) == Mul(vx, vy) + Sh(d * vy, i)
  {
    MulComm(vx + Sh(d, i), vy);
    MulAdds(vy, vx, Sh(d, i));
    MulSh(vy, d, i);
  }

  /** An addition made i digits up, seen from the bottom. */
  lemma RowAdds(after: int, carry: int, before: int, added: int, i: nat, n: nat)
    requires after + Sh(carry, n) == before + added
    ensures Sh(after, i) + Sh(carry, n + i) == Sh(before, i) + Sh(added, i)
  {
    ShAdds(after, Sh(carry, n), i);
    ShSh(carry, n, i);
    ShAdds(before, added, i);
  }

  lemma NoCarry(v: int, carry: bool, n: nat, total: int)
    requires 0 <= v && v + Sh(Bit(carry), n) == total < P(n)
    ensures !carry && v == total
  {
    ShOne(n);
    ShNone(n);
  }

  /** The product of an a-digit and a b-digit number fits in a+b digits. */
  lemma ProductFits(v: int, a: nat, w: int, b: nat, n: nat)
    requires 0 <= v < P(a) && 0 <= w < P(b) && a + b <= n
    ensures 0 <= Mul(v, w) < P(n)
  {
    PAdds(a, b);
    PMonotone(a + b, n);
    ProductLess(v, P(a), w, P(b));
  }

  lemma ProductLess(v: int, p: int, w: int, q: int)
    requires 0 <= v < p && 0 <= w < q
    ensures 0 <= v * w < p * q
  {
    MulLe(v, p, w);
    MulLe(0, v, w);
    MulLe(w + 1, q, p);
  }

  /** A one-digit product. */
  method MulSingle(mem: Memory, z: nat, zn: nat, x: Digit, y: Digit)
    requires z + zn <= |mem.cells| && 2 <= zn
    modifies mem
    ensures Keeps(old(mem.cells), mem.cells, z, zn)
    ensures V(mem.cells, z, zn) == x * y
  {
    hide Sh, V, Mul, P, BigLo, BigDn;
    ghost var m0 := mem.cells;
    MulAddBounds(0, x, y, 0, 0);
    VEmpty(m0, z); ShZero(x * y);
    var rest := PutDigit(mem, z, 0, x * y);
    BigSmall(rest);
    rest := PutDigit(mem, z, 1, rest);
    ShNone(2);
    Zero(mem, z + 2, zn - 2);
    VSplit(mem.cells, z, 2, zn - 2);
    KeepsIntro(m0, mem.cells, z, zn);
  }

  method ShortMul(mem: Memory, z: nat, zn: nat, x: nat, xn: nat, y: nat, yn: nat)
    requires z + zn <= |mem.cells| && x + xn <= |mem.cells| && y + yn <= |mem.cells|
    requires xn + yn <= zn
    requires Apart(x, xn, z, zn) && Apart(y, yn, z, zn)
    modifies mem
    ensures Keeps(old(mem.cells), mem.cells, z, zn)
    ensures V(mem.cells, z, zn) == V(old(mem.cells), x, xn) * V(old(mem.cells), y, yn)
  {
    if xn == 1 && yn == 1 {
      hide Sh, V;
      VOne(mem.cells, x);
      VOne(mem.cells, y);
      MulSingle(mem, z, zn, mem.cells[x], mem.cells[y]);
    } else {
      MulNormal(mem, z, zn, x, xn, y, yn);
    }
  }
}
