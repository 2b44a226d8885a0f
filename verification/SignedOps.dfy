/** Differences kept as a magnitude and a sign: the pattern
    `if (bary_sub(z, ...)) { bary_2comp(z); flip sign }` of Karatsuba and Toom-3. */
module SignedOps {
  import opened Digits
  import opened Memory
  import opened AddSub
  import opened Shifts

  /** z <- |x - y|; says whether x < y. */
  method AbsDiff(mem: Memory, z: nat, zn: nat, x: nat, xn: nat, y: nat, yn: nat) returns (neg: bool)
    requires z + zn <= |mem.cells| && x + xn <= |mem.cells| && y + yn <= |mem.cells|
    requires xn <= zn && yn <= zn
    requires Source(x, xn, z, zn) && Source(y, yn, z, zn)
    modifies mem
    ensures Keeps(old(mem.cells), mem.cells, z, zn)
    ensures neg <==> V(old(mem.cells), x, xn) < V(old(mem.cells), y, yn)
    ensures V(mem.cells, z, zn)
         == if neg then V(old(mem.cells), y, yn) - V(old(mem.cells), x, xn)
                   else V(old(mem.cells), x, xn) - V(old(mem.cells), y, yn)
  {
    hide Sh, V, P;
    ghost var m0 := mem.cells;
    VBound(m0, x, xn); VBound(m0, y, yn);
    PMonotone(xn, zn); PMonotone(yn, zn);
    ShOne(zn); ShNone(zn);
    neg := Sub(mem, z, zn, x, xn, y, yn);
    VBound(mem.cells, z, zn);
    if neg {
      var zero := TwosComp(mem, z, zn);
      KeepsIntro(m0, mem.cells, z, zn);
    }
  }

  /** The number a magnitude and a "positive" flag stand for. */
  function Signed(positive: bool, v: int): (r: int) { if positive then v else -v }

  /** z <- x - y on signed numbers, when the result fits in zn digits. */
  method SignedSub(mem: Memory, z: nat, zn: nat, x: nat, xn: nat, xp: bool, y: nat, yn: nat, yp: bool)
      returns (zp: bool)
    requires z + zn <= |mem.cells| && x + xn <= |mem.cells| && y + yn <= |mem.cells|
    requires xn <= zn && yn <= zn
    requires Source(x, xn, z, zn) && Source(y, yn, z, zn)
    requires V(mem.cells, x, xn) + V(mem.cells, y, yn) < P(zn)
    modifies mem
    ensures Keeps(old(mem.cells), mem.cells, z, zn)
    ensures Signed(zp, V(mem.cells, z, zn))
         == Signed(xp, V(old(mem.cells), x, xn)) - Signed(yp, V(old(mem.cells), y, yn))
  {
    hide Sh, V, P;
    ghost var m0 := mem.cells;
    zp := xp;
    if xp == yp {
      var neg := AbsDiff(mem, z, zn, x, xn, y, yn);
      if neg {
        zp := !zp;
      }
    } else {
      AddFits(mem, z, zn, x, xn, y, yn);
    }
  }

  /** z <- x + y, when the sum fits in zn digits, so that nothing is carried out. */
  method AddFits(mem: Memory, z: nat, zn: nat, x: nat, xn: nat, y: nat, yn: nat)
    requires z + zn <= |mem.cells| && x + xn <= |mem.cells| && y + yn <= |mem.cells|
    requires xn <= zn && yn <= zn
    requires Source(x, xn, z, zn) && Source(y, yn, z, zn)
    requires V(mem.cells, x, xn) + V(mem.cells, y, yn) < P(zn)
    modifies mem
    ensures Keeps(old(mem.cells), mem.cells, z, zn)
    ensures V(mem.cells, z, zn) == V(old(mem.cells), x, xn) + V(old(mem.cells), y, yn)
  {
    hide Sh, V, P;
    var carry := Add(mem, z, zn, x, xn, y, yn);
    VBound(mem.cells, z, zn);
    ShOne(zn); ShNone(zn);
  }
}
