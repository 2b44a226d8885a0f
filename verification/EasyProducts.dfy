/** The cheap cases tried before any real multiplication (bary_mul_precheck). */
module EasyProducts {
  import opened Digits
  import opened Memory
  import opened Shifts
  import opened Schoolbook

  /** bit_length(x) - 1, for a power of two */
  function Log2(x: nat): (r: nat)
    requires IsPow2(x)
    ensures Pow2(r) == x
  {
    if x == 1 then 0 else 1 + Log2(x / 2)
  }

  /** Drops leading zero digits, then trailing ones; `low` of the latter. */
  method Trim(mem: Memory, x0: nat, xn0: nat) returns (x: nat, xn: nat, low: nat)
    requires x0 + xn0 <= |mem.cells|
    ensures x == x0 + low && low + xn <= xn0
    ensures V(mem.cells, x0, xn0) == Sh(V(mem.cells, x, xn), low)
    ensures xn > 0 ==> mem.cells[x] != 0 && mem.cells[x + xn - 1] != 0
  {
    hide Sh, V;
    x, xn, low := x0, xn0, 0;
    var m := mem.cells;
    while xn > 0 && m[x + xn - 1] == 0
      invariant xn <= xn0 && V(m, x0, xn0) == V(m, x0, xn)
    {
      VStep(m, x, xn - 1);
      ShNone(xn - 1);
      xn := xn - 1;
    }
    ShZero(V(m, x, xn));
    while xn > 0 && m[x] == 0
      invariant x == x0 + low && low + xn <= xn0
      invariant V(m, x0, xn0) == Sh(V(m, x, xn), low)
      invariant xn > 0 ==> m[x + xn - 1] != 0
    {
      VFirst(m, x, xn - 1);
      ShSh(V(m, x + 1, xn - 1), 1, low);
      x, xn, low := x + 1, xn - 1, low + 1;
    }
  }

  /** Either finishes the product (`done`), or leaves a smaller one to do: both operands
      trimmed, the shorter first, with z moved past the zeros their low ends produce. */
  method Precheck(mem: Memory, z0: nat, zn0: nat, x0: nat, xn0: nat, y0: nat, yn0: nat)
      returns (done: bool, z: nat, zn: nat, x: nat, xn: nat, y: nat, yn: nat)
    requires z0 + zn0 <= |mem.cells| && x0 + xn0 <= |mem.cells| && y0 + yn0 <= |mem.cells|
    requires xn0 + yn0 <= zn0
    requires Apart(x0, xn0, z0, zn0) && Apart(y0, yn0, z0, zn0)
    modifies mem
    ensures Keeps(old(mem.cells), mem.cells, z0, zn0)
    ensures done ==>
              V(mem.cells, z0, zn0) == Mul(V(old(mem.cells), x0, xn0), V(old(mem.cells), y0, yn0))
    ensures z0 <= z && z + zn == z0 + zn0
    ensures xn + yn <= zn && xn + yn <= xn0 + yn0
    ensures (x0 <= x && x + xn <= x0 + xn0 && y0 <= y && y + yn <= y0 + yn0) ||
            (y0 <= x && x + xn <= y0 + yn0 && x0 <= y && y + yn <= x0 + xn0)
    ensures !done ==>
              && 2 <= xn <= yn
              && V(mem.cells, z0, z - z0) == 0
              && Mul(V(old(mem.cells), x0, xn0), V(old(mem.cells), y0, yn0))
                 == Sh(Mul(V(old(mem.cells), x, xn), V(old(mem.cells), y, yn)), z - z0)
  {
    hide Sh, V, Mul;
    ghost var m0 := mem.cells;
    var xl, yl;
    x, xn, xl := Trim(mem, x0, xn0);
    y, yn, yl := Trim(mem, y0, yn0);
    TrimmedProduct(V(m0, x, xn), xl, V(m0, y, yn), yl);
    z, zn := z0 + (xl + yl), zn0 - (xl + yl);
    if xl + yl != 0 {
      Zero(mem, z0, xl + yl);
    } else {
      VEmpty(mem.cells, z0);
      KeepsIntro(m0, m0, z0, 0);
    }
    if xn > yn {
      x, xn, y, yn := y, yn, x, xn;
      MulComm(V(m0, x, xn), V(m0, y, yn));
    }
    done := xn <= 1;
    KeepsIntro(m0, mem.cells, z0, zn0);
    if done {
      FinishOneDigit(mem, z0, z, zn, x, xn, y, yn);
      KeepsIntro(m0, mem.cells, z0, zn0);
    }
  }

  method FinishOneDigit(mem: Memory, ghost z0: nat, z: nat, zn: nat, x: nat, xn: nat, y: nat, yn: nat)
    requires z0 <= z && z + zn <= |mem.cells| && x + xn <= |mem.cells| && y + yn <= |mem.cells|
    requires xn <= 1 && xn <= yn && xn + yn <= zn
    requires Apart(x, xn, z, zn) && Apart(y, yn, z, zn)
    requires xn == 1 ==> mem.cells[x] != 0
    requires V(mem.cells, z0, z - z0) == 0
    modifies mem
    ensures Keeps(old(mem.cells), mem.cells, z, zn)
    ensures V(mem.cells, z0, z + zn - z0)
         == Sh(Mul(V(old(mem.cells), x, xn), V(old(mem.cells), y, yn)), z - z0)
  {
    hide Sh, V, Mul;
    ghost var m1 := mem.cells;
    OneDigit(mem, z, zn, x, xn, y, yn);
    VSplit(mem.cells, z0, z - z0, zn);
    assert V(mem.cells, z0, z - z0) == V(m1, z0, z - z0);
  }

  lemma TrimmedProduct(v: int, a: nat, w: int, b: nat)
    ensures Mul(Sh(v, a), Sh(w, b)) == Sh(Mul(v, w), a + b)
  {
    hide Sh, Mul;
    MulSh(Sh(v, a), w, b);
    MulComm(Sh(v, a), w);
    MulSh(w, v, a);
    MulComm(w, v);
    ShSh(Mul(v, w), a, b);
  }

  /** The shorter operand has at most one digit. */
  method OneDigit(mem: Memory, z: nat, zn: nat, x: nat, xn: nat, y: nat, yn: nat)
    requires z + zn <= |mem.cells| && x + xn <= |mem.cells| && y + yn <= |mem.cells|
    requires xn <= 1 && xn <= yn && xn + yn <= zn
    requires Apart(x, xn, z, zn) && Apart(y, yn, z, zn)
    requires xn == 1 ==> mem.cells[x] != 0
    modifies mem
    ensures Keeps(old(mem.cells), mem.cells, z, zn)
    ensures V(mem.cells, z, zn) == Mul(V(old(mem.cells), x, xn), V(old(mem.cells), y, yn))
  {
    hide Sh, V, Mul, IsPow2, Pow2;
    ghost var m0 := mem.cells;
    ghost var vy := V(m0, y, yn);
    if xn == 0 {
      VEmpty(m0, x);
      MulNone(vy); MulComm(0, vy);
      Zero(mem, z, zn);
      return;
    }
    VOne(m0, x);
    MulIs(m0[x], vy);
    if mem.cells[x] == 1 {
      Copy(mem, z, y, yn);
      Zero(mem, z + yn, zn - yn);
    } else if IsPow2(mem.cells[x]) {
      ghost var m1 := mem.cells;
      var out := SmallLshift(mem, z, y, yn, Log2(mem.cells[x]));
      ghost var m2 := mem.cells;
      mem.cells := mem.cells[z + yn := out];
      KeepsIntro(m2, mem.cells, z + yn, 1);
      VStep(mem.cells, z, yn);
      Zero(mem, z + (yn + 1), zn - yn - 1);
      VSplit(mem.cells, z, yn + 1, zn - yn - 1);
      ShNone(yn + 1);
      KeepsIntro(m0, mem.cells, z, zn);
      return;
    } else if yn == 1 && mem.cells[y] == 1 {
      VOne(m0, y);
      var d := mem.cells[x];
      mem.cells := mem.cells[z := d];
      KeepsIntro(m0, mem.cells, z, 1);
      VOne(mem.cells, z);
      Zero(mem, z + 1, zn - 1);
    } else {
      MulNormal(mem, z, zn, x, xn, y, yn);
      return;
    }
    VSplit(mem.cells, z, yn, zn - yn);
    ShNone(yn);
    KeepsIntro(m0, mem.cells, z, zn);
  }
}
