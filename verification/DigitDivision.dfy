/** Division by one digit, and subtraction of a digit times a number
    (bigdivrem_single1, bigdivrem_mulsub, bary_mulsub_1xN). */
module DigitDivision {
  import opened Digits
  import opened Memory
  import opened Shifts
  import opened Schoolbook
  import opened EasyProducts

  /** Subtracts x * y from the yn+1 digits at z, except that the top digit is left as it
      is and its new value, possibly negative, returned. */
  method DivMulSub(mem: Memory, z: nat, x: Digit, y: nat, yn: nat) returns (num: int)
    requires z + yn + 1 <= |mem.cells| && y + yn <= |mem.cells|
    requires 0 < yn && Apart(y, yn, z, yn + 1)
    modifies mem
    ensures Keeps(old(mem.cells), mem.cells, z, yn)
    ensures V(mem.cells, z, yn) + Sh(num, yn)
         == V(old(mem.cells), z, yn + 1) - x * V(old(mem.cells), y, yn)
  {
    hide Sh, V, Mul, BigLo, BigDn;
    ghost var m0 := mem.cells;
    VEmpty(m0, z); VEmpty(m0, y); ShNone(0); MulNone(x);
    num := 0;
    var t2 := 0;
    var i := 0;
    while i < yn
      invariant i <= yn && -1 <= num <= 0 && 0 <= t2 < BIGRAD
      invariant SameOutside(m0, mem.cells, z, i)
      invariant V(mem.cells, z, i) + Sh(num, i) - Sh(t2, i) == V(m0, z, i) - Mul(x, V(m0, y, i))
    {
      VStep(m0, z, i);
      VStep(m0, y, i);
      MulAdds(x, V(m0, y, i), Sh(m0[y + i], i));
      num, t2 := MulSubDigit(mem, z, x, mem.cells[y + i], i, num, t2);
      i := i + 1;
    }
    MulIs(x, V(m0, y, yn));
    VStep(m0, z, yn);
    ShAdds(num, mem.cells[z + i], yn);
    ShSubs(num + mem.cells[z + i], t2, yn);
    KeepsIntro(m0, mem.cells, z, yn);
    num := num + mem.cells[z + i] - t2;
  }

  method MulSubDigit(mem: Memory, z: nat, x: Digit, e: Digit, i: nat, num0: int, t0: nat)
      returns (num: int, t2: nat)
    requires z + i < |mem.cells| && -1 <= num0 <= 0 && t0 < BIGRAD
    modifies mem
    ensures SameOutside(old(mem.cells), mem.cells, z + i, 1)
    ensures -1 <= num <= 0 && t2 < BIGRAD
    ensures V(mem.cells, z, i + 1) + Sh(num, i + 1) - Sh(t2, i + 1)
         == V(old(mem.cells), z, i) + Sh(num0, i) - Sh(t0, i) + Sh(old(mem.cells)[z + i], i) - Mul(x, Sh(e, i))
  {
    hide Sh, V, Mul, BigLo, BigDn;
    var d := mem.cells[z + i];
    MulAddBounds(t0, x, e, 0, i);
    t2 := t0 + e * x;
    ShNone(i);
    var lo := BigLo(t2);
    CarryOut(t2, i);
    var ee := num0 - lo;
    MulSubBounds(num0, lo, d, i);
    if ee != 0 {
      num := PutDigit(mem, z, i, d + ee);
    } else {
      VStep(mem.cells, z, i);
      BigSmall(d);
      ShNone(i + 1);
      num := BigDn(d);
    }
    t2 := BigDn(t2);
  }

  lemma MulSubBounds(num0: int, lo: Digit, d: Digit, i: nat)
    requires -1 <= num0 <= 0
    ensures FitsSigned(d + (num0 - lo))
    ensures -1 <= BigDn(d + (num0 - lo)) <= 0
    ensures Sh(d + (num0 - lo), i) == Sh(d, i) + Sh(num0, i) - Sh(lo, i)
  {
    hide Sh, BigLo, BigDn, FitsSigned;
    SmallFits(d + (num0 - lo));
    BigDnBounds(d + (num0 - lo), -1, 1);
    ShAdds(d, num0 - lo, i);
    ShSubs(num0, lo, i);
  }

  method MulSub1xN(mem: Memory, z: nat, x: Digit, y: nat, yn: nat) returns (borrow: bool)
    requires z + yn + 1 <= |mem.cells| && y + yn <= |mem.cells|
    requires 0 < yn && Apart(y, yn, z, yn + 1)
    modifies mem
    ensures Keeps(old(mem.cells), mem.cells, z, yn + 1)
    ensures V(mem.cells, z, yn + 1) - Sh(Bit(borrow), yn + 1)
         == V(old(mem.cells), z, yn + 1) - x * V(old(mem.cells), y, yn)
  {
    hide Sh, V, P, BigLo, BigDn;
    ghost var m0 := mem.cells;
    var num := DivMulSub(mem, z, x, y, yn);
    ghost var m1 := mem.cells;
    var rest := PutDigit(mem, z, yn, num);
    borrow := rest != 0;
    BorrowIsOne(m0, m1, mem.cells, z, x, y, yn, num);
    ShNone(yn + 1); ShNeg(1, yn + 1);
    KeepsIntro(m0, mem.cells, z, yn + 1);
  }

  lemma BorrowIsOne(m0: seq<Digit>, m1: seq<Digit>, m2: seq<Digit>, z: nat, x: Digit, y: nat, yn: nat, num: int)
    requires z + yn + 1 <= |m0| == |m1| == |m2| && y + yn <= |m0|
    requires V(m2, z, yn + 1) + Sh(BigDn(num), yn + 1) == V(m0, z, yn + 1) - x * V(m0, y, yn)
    ensures -1 <= BigDn(num) <= 0
  {
    hide Sh, V, P, BigDn;
    VBound(m0, z, yn + 1); VBound(m2, z, yn + 1); VBound(m0, y, yn);
    DigitTimes(x, V(m0, y, yn), yn);
    ShOne(yn + 1); ShNone(yn + 1); ShNeg(1, yn + 1);
    ShAdds(-1, -1, yn + 1);
    if BigDn(num) >= 1 { ShLe(1, BigDn(num), yn + 1); }
    if BigDn(num) <= -2 { ShLe(BigDn(num), -2, yn + 1); }
  }

  lemma DigitTimes(x: Digit, v: int, n: nat)
    requires 0 <= v < P(n)
    ensures 0 <= x * v < P(n + 1)
  {
    hide V;
    ProductLess(x, BIGRAD, v, P(n));
  }

  /** q <- (higher : x) / y, digit by digit from the top; the remainder is returned. */
  method DivSingle1(mem: Memory, q: nat, x: nat, n: nat, higher: Digit, y: Digit) returns (r: Digit)
    requires q + n <= |mem.cells| && x + n <= |mem.cells|
    requires 0 < n && higher < y && SourceDown(x, q, n)
    modifies mem
    ensures Keeps(old(mem.cells), mem.cells, q, n)
    ensures r < y
    ensures y * V(mem.cells, q, n) + r == V(old(mem.cells), x, n) + Sh(higher, n)
  {
    hide Sh, V, Mul, IsPow2, Pow2, BigLo, BigDn, Quot, Rem;
    if IsPow2(y) {
      QuotRem(mem.cells[x], y);
      r := Rem(mem.cells[x], y);
      ghost var dropped := SmallRshift(mem, q, x, n, Log2(y), higher);
    } else {
      r := DivLoop(mem, q, x, n, higher, y);
    }
  }

  method DivLoop(mem: Memory, q: nat, x: nat, n: nat, higher: Digit, y: Digit) returns (r: Digit)
    requires q + n <= |mem.cells| && x + n <= |mem.cells|
    requires higher < y && SourceDown(x, q, n)
    modifies mem
    ensures Keeps(old(mem.cells), mem.cells, q, n)
    ensures r < y
    ensures y * V(mem.cells, q, n) + r == V(old(mem.cells), x, n) + Sh(higher, n)
  {
    hide Sh, V, Mul, Quot, Rem, BigLo, BigDn;
    ghost var m0 := mem.cells;
    VEmpty(m0, x + n); VEmpty(m0, q + n); ShZero(higher); MulNone(y);
    var t2: int := higher;
    var i := n;
    while i > 0
      invariant 0 <= i <= n && 0 <= t2 < y
      invariant SameOutside(m0, mem.cells, q + i, n - i)
      invariant Mul(y, V(mem.cells, q + i, n - i)) + t2 == V(m0, x + i, n - i) + Sh(higher, n - i)
    {
      i := i - 1;
      ghost var m1 := mem.cells;
      ghost var t := t2;
      var d := mem.cells[x + i];
      DivDigit(t2, d, y);
      t2 := t2 * BIGRAD + d;
      mem.cells := mem.cells[q + i := Quot(t2, y)];
      KeepsIntro(m1, mem.cells, q + i, 1);
      VFirst(m0, x + i, n - i - 1);
      VFirst(mem.cells, q + i, n - i - 1);
      RshiftMove(y, Quot(t2, y), V(mem.cells, q + i + 1, n - i - 1), t,
                 V(m0, x + i + 1, n - i - 1), higher, n - i - 1, d, Rem(t2, y));
      t2 := Rem(t2, y);
    }
    KeepsIntro(m0, mem.cells, q, n);
    MulIs(y, V(mem.cells, q, n));
    r := t2;
  }

  lemma DivDigit(t: int, d: Digit, y: Digit)
    requires 0 <= t < y
    ensures FitsDouble(t * BIGRAD + d)
    ensures 0 <= Quot(t * BIGRAD + d, y) < BIGRAD
    ensures 0 <= Rem(t * BIGRAD + d, y) < y
    ensures y * Quot(t * BIGRAD + d, y) + Rem(t * BIGRAD + d, y) == t * BIGRAD + d
  {
    hide Quot, Rem;
    MulLe(t + 1, y, BIGRAD);
    MulLe(y, BIGRAD, BIGRAD);
    MulLe(0, t, BIGRAD);
    QuotRem(t * BIGRAD + d, y);
    QuotBounds(Quot(t * BIGRAD + d, y), Rem(t * BIGRAD + d, y), y, BIGRAD);
  }

  lemma QuotBounds(q: int, r: int, y: int, b: int)
    requires 0 <= q * y + r < y * b && 0 <= r < y
    ensures 0 <= q < b
  {
    if q < 0 { MulLe(q, -1, y); }
    if q >= b { MulLe(b, q, y); }
  }

  method DivSingle(mem: Memory, q: nat, x: nat, n: nat, y: Digit) returns (r: Digit)
    requires q + n <= |mem.cells| && x + n <= |mem.cells|
    requires 0 < n && 0 < y && SourceDown(x, q, n)
    modifies mem
    ensures Keeps(old(mem.cells), mem.cells, q, n)
    ensures r < y
    ensures y * V(mem.cells, q, n) + r == V(old(mem.cells), x, n)
  {
    ShNone(n);
    r := DivSingle1(mem, q, x, n, 0, y);
  }
}
