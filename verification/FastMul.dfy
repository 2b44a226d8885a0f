/** The multiplication tower: balancing, Karatsuba, Toom-3 and the dispatchers
    that choose between them, all calling one another. */
module FastMul {
  import opened Digits
  import opened Memory
  import opened AddSub
  import opened Shifts
  import opened Schoolbook
  import opened Squaring
  import opened EasyProducts
  import opened SignedOps
  import opened Toom3Steps

  const KARATSUBA_MUL_DIGITS: nat := 70
  const TOOM3_MUL_DIGITS: nat := 150

  predicate KaratsubaBalanced(xn: nat, yn: nat) { yn / 2 < xn }
  predicate Toom3Balanced(xn: nat, yn: nat) { (yn + 2) / 3 * 2 < xn }

  /** Where the operands of a multiplication lie: the result area z and the work area w
      meet neither each other nor x nor y; x and y are free to overlap. */
  ghost predicate Area(m: seq<Digit>, z: nat, zn: nat, x: nat, xn: nat, y: nat, yn: nat, w: nat, wn: nat) {
    && z + zn <= |m| && x + xn <= |m| && y + yn <= |m| && w + wn <= |m|
    && xn + yn <= zn
    && Apart(x, xn, z, zn) && Apart(y, yn, z, zn) && Apart(w, wn, z, zn)
    && Apart(w, wn, x, xn) && Apart(w, wn, y, yn)
  }

  /** What every multiplication routine achieves. */
  ghost predicate Product(a: seq<Digit>, b: seq<Digit>,
                          z: nat, zn: nat, x: nat, xn: nat, y: nat, yn: nat, w: nat, wn: nat)
    requires z + zn <= |a| && x + xn <= |a| && y + yn <= |a|
  {
    && |a| == |b|
    && Keeps2(a, b, z, zn, w, wn)
    && V(b, z, zn) == Mul(V(a, x, xn), V(a, y, yn))
  }

  method KaratsubaStart(mem: Memory, z: nat, zn: nat, x: nat, xn: nat, y: nat, yn: nat, w: nat, wn: nat)
    requires Area(mem.cells, z, zn, x, xn, y, yn, w, wn)
    modifies mem
    ensures Product(old(mem.cells), mem.cells, z, zn, x, xn, y, yn, w, wn)
    decreases xn + yn, 7
  {
    hide Sh, V, Mul;
    ghost var m0 := mem.cells;
    var done, z', zn', x', xn', y', yn' := Precheck(mem, z, zn, x, xn, y, yn);
    if !done {
      ghost var m1 := mem.cells;
      KaratsubaBranch(mem, z', zn', x', xn', y', yn', w, wn);
      Trimmed(m0, m1, mem.cells, z, zn, x, xn, y, yn, w, wn, z', zn', x', xn', y', yn');
    } else {
      Keeps2Intro(m0, mem.cells, z, zn, w, wn);
    }
  }

  /** Putting the trimmed product back in place. */
  lemma Trimmed(m0: seq<Digit>, m1: seq<Digit>, m2: seq<Digit>,
                z: nat, zn: nat, x: nat, xn: nat, y: nat, yn: nat, w: nat, wn: nat,
                z': nat, zn': nat, x': nat, xn': nat, y': nat, yn': nat)
    requires Area(m0, z, zn, x, xn, y, yn, w, wn)
    requires Keeps(m0, m1, z, zn)
    requires z <= z' && z' + zn' == z + zn
    requires x' + xn' <= |m0| && y' + yn' <= |m0|
    requires Apart(x', xn', z, zn) && Apart(y', yn', z, zn)
    requires V(m1, z, z' - z) == 0
    requires Mul(V(m0, x, xn), V(m0, y, yn)) == Sh(Mul(V(m0, x', xn'), V(m0, y', yn')), z' - z)
    requires Product(m1, m2, z', zn', x', xn', y', yn', w, wn)
    ensures Product(m0, m2, z, zn, x, xn, y, yn, w, wn)
  {
    hide Sh, V, Mul;
    VSplit(m2, z, z' - z, zn');
    assert V(m2, z, z' - z) == V(m1, z, z' - z);
    Keeps2Intro(m0, m2, z, zn, w, wn);
  }

  /** bary_sparse_p samples digits at random: its answer can be anything. */
  method SparseP() returns (b: bool)
  {
    b := *;
  }

  method KaratsubaBranch(mem: Memory, z: nat, zn: nat, x: nat, xn: nat, y: nat, yn: nat, w: nat, wn: nat)
    requires Area(mem.cells, z, zn, x, xn, y, yn, w, wn)
    requires 2 <= xn <= yn
    modifies mem
    ensures Product(old(mem.cells), mem.cells, z, zn, x, xn, y, yn, w, wn)
    decreases xn + yn, 6
  {
    if xn < KARATSUBA_MUL_DIGITS {
      NormalMul(mem, z, zn, x, xn, y, yn, w, wn);
      return;
    }
    var sparse := SparseP();
    if sparse {
      NormalMul(mem, z, zn, x, xn, y, yn, w, wn);
      return;
    }
    sparse := SparseP();
    if sparse {
      hide Sh, V, Mul;
      ghost var m0 := mem.cells;
      ShortMul(mem, z, zn, y, yn, x, xn);
      MulIs(V(m0, y, yn), V(m0, x, xn));
      MulComm(V(m0, x, xn), V(m0, y, yn));
      Keeps2Intro(m0, mem.cells, z, zn, w, wn);
      return;
    }
    if !KaratsubaBalanced(xn, yn) {
      Balance(mem, z, zn, x, xn, y, yn, w, wn, KaratsubaFunc);
      return;
    }
    Karatsuba(mem, z, zn, x, xn, y, yn, w, wn);
  }

  /** The `normal` label: squaring when both operands are the same digits. */
  method NormalMul(mem: Memory, z: nat, zn: nat, x: nat, xn: nat, y: nat, yn: nat, ghost w: nat, ghost wn: nat)
    requires Area(mem.cells, z, zn, x, xn, y, yn, w, wn)
    modifies mem
    ensures Product(old(mem.cells), mem.cells, z, zn, x, xn, y, yn, w, wn)
  {
    hide Sh, V, Mul;
    ghost var m0 := mem.cells;
    if x == y && xn == yn {
      SqFast(mem, z, zn, x, xn);
    } else {
      ShortMul(mem, z, zn, x, xn, y, yn);
    }
    MulIs(V(m0, x, xn), V(m0, y, yn));
    Keeps2Intro(m0, mem.cells, z, zn, w, wn);
  }

  method Toom3Branch(mem: Memory, z: nat, zn: nat, x: nat, xn: nat, y: nat, yn: nat, w: nat, wn: nat)
    requires Area(mem.cells, z, zn, x, xn, y, yn, w, wn)
    requires 2 <= xn <= yn
    modifies mem
    ensures Product(old(mem.cells), mem.cells, z, zn, x, xn, y, yn, w, wn)
    decreases xn + yn, 8
  {
    if xn < TOOM3_MUL_DIGITS {
      KaratsubaBranch(mem, z, zn, x, xn, y, yn, w, wn);
      return;
    }
    if !Toom3Balanced(xn, yn) {
      Balance(mem, z, zn, x, xn, y, yn, w, wn, Toom3Func);
      return;
    }
    Toom3(mem, z, zn, x, xn, y, yn, w, wn);
  }

  method Toom3Start(mem: Memory, z: nat, zn: nat, x: nat, xn: nat, y: nat, yn: nat, w: nat, wn: nat)
    requires Area(mem.cells, z, zn, x, xn, y, yn, w, wn)
    modifies mem
    ensures Product(old(mem.cells), mem.cells, z, zn, x, xn, y, yn, w, wn)
    decreases xn + yn, 9
  {
    hide Sh, V, Mul;
    ghost var m0 := mem.cells;
    var done, z', zn', x', xn', y', yn' := Precheck(mem, z, zn, x, xn, y, yn);
    if !done {
      ghost var m1 := mem.cells;
      Toom3Branch(mem, z', zn', x', xn', y', yn', w, wn);
      Trimmed(m0, m1, mem.cells, z, zn, x, xn, y, yn, w, wn, z', zn', x', xn', y', yn');
    } else {
      Keeps2Intro(m0, mem.cells, z, zn, w, wn);
    }
  }

  // ----- balancing

  /** The routine a balanced multiplication hands its slices to. */
  datatype MulFunc = KaratsubaFunc | Toom3Func

  method CallMulFunc(mem: Memory, z: nat, zn: nat, x: nat, xn: nat, y: nat, yn: nat, w: nat, wn: nat, f: MulFunc)
    requires Area(mem.cells, z, zn, x, xn, y, yn, w, wn)
    modifies mem
    ensures Product(old(mem.cells), mem.cells, z, zn, x, xn, y, yn, w, wn)
    decreases xn + yn, 10
  {
    match f
    case KaratsubaFunc => KaratsubaStart(mem, z, zn, x, xn, y, yn, w, wn);
    case Toom3Func => Toom3Start(mem, z, zn, x, xn, y, yn, w, wn);
  }

  /** Multiplies x by a much longer y, one slice of y at a time. */
  method Balance(mem: Memory, z: nat, zn: nat, x: nat, xn: nat, y: nat, yn0: nat, w0: nat, wn0: nat, f: MulFunc)
    requires Area(mem.cells, z, zn, x, xn, y, yn0, w0, wn0)
    requires 0 < xn < yn0
    modifies mem
    ensures Product(old(mem.cells), mem.cells, z, zn, x, xn, y, yn0, w0, wn0)
    decreases xn + yn0, 5
  {
    hide Sh, V, P, Mul;
    ghost var m0 := mem.cells;
    var base := |mem.cells|;
    var w: nat, wn: nat := w0, wn0;
    Zero(mem, z, xn);
    VEmpty(m0, y); MulNone(V(m0, x, xn));
    Keeps2Intro(m0, mem.cells, z, zn, w0, wn0);
    var n: nat, yn: nat := 0, yn0;
    while yn > 0
      invariant n + yn == yn0
      invariant Keeps2(m0, mem.cells, z, zn, w0, wn0)
      invariant Area(mem.cells, z, zn, x, xn, y, yn0, w, wn)
      invariant (w == w0 && wn == wn0 && |mem.cells| == base)
             || (w == base && wn == xn && |mem.cells| == base + xn)
      invariant V(mem.cells, z, n + xn) == Mul(V(m0, x, xn), V(m0, y, n))
    {
      var r := if xn > yn then yn else xn;
      assert V(mem.cells, y, n) == V(m0, y, n);
      ghost var m1 := mem.cells;
      w, wn := Slice(mem, z, zn, x, xn, y, n, r, w, wn, f);
      Keeps2Intro(m0, mem.cells, z, zn, w0, wn0);
      assert V(m1, y, n + r) == V(m0, y, n + r);
      yn := yn - r;
      n := n + r;
    }
    BalanceEnd(mem, z, zn, xn + yn0, base);
    Keeps2Intro(m0, mem.cells, z, zn, w0, wn0);
  }

  /** Clears what the slices did not reach and gives the work area back. */
  method BalanceEnd(mem: Memory, z: nat, zn: nat, n: nat, base: nat)
    requires n <= zn && z + zn <= base <= |mem.cells|
    modifies mem
    ensures |mem.cells| == base
    ensures forall i :: 0 <= i < base && !(z <= i < z + zn) ==> mem.cells[i] == old(mem.cells)[i]
    ensures V(mem.cells, z, zn) == V(old(mem.cells), z, n)
  {
    hide Sh, V, P;
    Zero(mem, z + n, zn - n);
    VSplit(mem.cells, z, n, zn - n);
    ShNone(n);
    ghost var m1 := mem.cells;
    Release(mem, base);
    assert V(mem.cells, z, zn) == V(m1, z, zn);
  }

  /** One slice, in whichever way there is room for; a work area too small is replaced. */
  method Slice(mem: Memory, z: nat, zn: nat, x: nat, xn: nat, y: nat, n: nat, r: nat, w: nat, wn: nat, f: MulFunc)
      returns (w': nat, wn': nat)
    requires Area(mem.cells, z, zn, x, xn, y, n + r, w, wn)
    requires 0 < r <= xn
    requires V(mem.cells, z, n + xn) == Mul(V(mem.cells, x, xn), V(mem.cells, y, n))
    modifies mem
    ensures (w' == w && wn' == wn && |mem.cells| == |old(mem.cells)|)
         || (wn < xn && w' == |old(mem.cells)| && wn' == xn && |mem.cells| == |old(mem.cells)| + xn)
    ensures Keeps2(old(mem.cells), mem.cells, z, zn, w, wn)
    ensures V(mem.cells, z, n + r + xn) == Mul(V(old(mem.cells), x, xn), V(old(mem.cells), y, n + r))
    decreases xn + r, 12
  {
    hide Sh, V, P, Mul;
    ghost var m0 := mem.cells;
    w', wn' := w, wn;
    if 2 * (xn + r) <= zn - n {
      SliceAbove(mem, z, zn, x, xn, y, n, r, w, wn, f);
    } else {
      if wn < xn {
        wn' := xn;
        w' := Alloc(mem, wn');
      }
      assert V(mem.cells, z, n + xn) == V(m0, z, n + xn) && V(mem.cells, x, xn) == V(m0, x, xn);
      assert V(mem.cells, y, n) == V(m0, y, n) && V(mem.cells, y, n + r) == V(m0, y, n + r);
      SliceInPlace(mem, z, zn, x, xn, y, n, r, w', wn', f);
      Keeps2Intro(m0, mem.cells, z, zn, w, wn);
    }
  }

  /** Room enough above: the slice's product is formed there and added in. */
  method SliceAbove(mem: Memory, z: nat, zn: nat, x: nat, xn: nat, y: nat, n: nat, r: nat, w: nat, wn: nat, f: MulFunc)
    requires Area(mem.cells, z, zn, x, xn, y, n + r, w, wn)
    requires 0 < r <= xn && 2 * (xn + r) <= zn - n
    requires V(mem.cells, z, n + xn) == Mul(V(mem.cells, x, xn), V(mem.cells, y, n))
    modifies mem
    ensures |mem.cells| == |old(mem.cells)|
    ensures Keeps2(old(mem.cells), mem.cells, z, zn, w, wn)
    ensures V(mem.cells, z, n + r + xn) == Mul(V(old(mem.cells), x, xn), V(old(mem.cells), y, n + r))
    decreases xn + r, 11
  {
    hide Sh, V, P, Mul;
    ghost var m0 := mem.cells;
    var tn := xn + r;
    var t := z + n + tn;
    CallMulFunc(mem, t, tn, x, xn, y + n, r, w, wn, f);
    Zero(mem, z + n + xn, r);
    ghost var m2 := mem.cells;
    VSplit(m2, z + n, xn, r);
    ShNone(xn);
    SliceSum(m0, z, x, xn, y, n, r);
    AddFits(mem, z + n, tn, z + n, tn, t, tn);
    VSplit(mem.cells, z, n, tn);
    assert V(mem.cells, z, n) == V(m2, z, n) == V(m0, z, n);
    Keeps2Intro(m0, mem.cells, z, zn, w, wn);
  }

  /** What is there is set aside, the slice's product formed in its place, and both added. */
  method SliceInPlace(mem: Memory, z: nat, zn: nat, x: nat, xn: nat, y: nat, n: nat, r: nat, w: nat, wn: nat, f: MulFunc)
    requires Area(mem.cells, z, zn, x, xn, y, n + r, w, wn)
    requires 0 < r <= xn <= wn
    requires V(mem.cells, z, n + xn) == Mul(V(mem.cells, x, xn), V(mem.cells, y, n))
    modifies mem
    ensures |mem.cells| == |old(mem.cells)|
    ensures Keeps2(old(mem.cells), mem.cells, z, zn, w, wn)
    ensures V(mem.cells, z, n + r + xn) == Mul(V(old(mem.cells), x, xn), V(old(mem.cells), y, n + r))
    decreases xn + r, 11
  {
    hide Sh, V, P, Mul;
    ghost var m0 := mem.cells;
    var tn := xn + r;
    Copy(mem, w, z + n, xn);
    CallMulFunc(mem, z + n, tn, x, xn, y + n, r, w + xn, wn - xn, f);
    ghost var m2 := mem.cells;
    SliceSum(m0, z, x, xn, y, n, r);
    AddFits(mem, z + n, tn, z + n, tn, w, xn);
    VSplit(mem.cells, z, n, tn);
    assert V(mem.cells, z, n) == V(m2, z, n) == V(m0, z, n);
    Keeps2Intro(m0, mem.cells, z, zn, w, wn);
  }

  /** The sum a slice has to form, and why it fits. */
  lemma SliceSum(m: seq<Digit>, z: nat, x: nat, xn: nat, y: nat, n: nat, r: nat)
    requires z + n + xn <= |m| && x + xn <= |m| && y + n + r <= |m|
    requires V(m, z, n + xn) == Mul(V(m, x, xn), V(m, y, n))
    ensures V(m, z + n, xn) + Mul(V(m, x, xn), V(m, y + n, r)) < P(xn + r)
    ensures V(m, z, n) + Sh(V(m, z + n, xn) + Mul(V(m, x, xn), V(m, y + n, r)), n)
         == Mul(V(m, x, xn), V(m, y, n + r))
  {
    hide Sh, V, P, Mul;
    var vx, slice := V(m, x, xn), V(m, y + n, r);
    VSplit(m, z, n, xn);
    VSplit(m, y, n, r);
    MulAdds(vx, V(m, y, n), Sh(slice, n));
    MulSh(vx, slice, n);
    ShAdds(V(m, z + n, xn), Mul(vx, slice), n);
    VBound(m, x, xn); VBound(m, y, n + r); VBound(m, z, n);
    ProductFits(vx, xn, V(m, y, n + r), n + r, (xn + r) + n);
    ShOne(xn + r); ShOne((xn + r) + n);
    ShSh(1, xn + r, n);
    var sum := V(m, z + n, xn) + Mul(vx, slice);
    if sum >= P(xn + r) { ShLe(P(xn + r), sum, n); }
  }

  // ----- Karatsuba

  /** x times y when both are cut in the middle: an odd top digit is set aside first. */
  method Karatsuba(mem: Memory, z: nat, zn: nat, x: nat, xn0: nat, y: nat, yn0: nat, w: nat, wn: nat)
    requires Area(mem.cells, z, zn, x, xn0, y, yn0, w, wn)
    requires 2 <= yn0 && xn0 <= yn0 < 2 * xn0
    modifies mem
    ensures Product(old(mem.cells), mem.cells, z, zn, x, xn0, y, yn0, w, wn)
    decreases xn0 + yn0, 5
  {
    hide Sh, V, P, Mul;
    ghost var m0 := mem.cells;
    var sq := x == y && xn0 == yn0;
    var oddY := yn0 % 2 == 1;
    var yn := if oddY then yn0 - 1 else yn0;
    var oddXY := oddY && yn < xn0;
    var xn := if oddXY then xn0 - 1 else xn0;
    var n := yn / 2;
    KaratsubaAlloc(mem, z, zn, x, xn, y, n, sq, w, wn);
    if oddY {
      TopDigit(mem, z, zn, x, xn, y, yn, w, wn, m0);
      if oddXY {
        MulComm(V(m0, x, xn), V(m0, y, yn0));
        MulComm(V(m0, x, xn0), V(m0, y, yn0));
        TopDigit(mem, z, zn, y, yn0, x, xn, w, wn, m0);
      }
    }
  }

  /** z holds x * y; adds x * y[yn], placed at yn, so that y gains its next digit. */
  method TopDigit(mem: Memory, z: nat, zn: nat, x: nat, xn: nat, y: nat, yn: nat, ghost w: nat, ghost wn: nat,
                  ghost m0: seq<Digit>)
    requires |m0| == |mem.cells| && Area(m0, z, zn, x, xn, y, yn + 1, w, wn)
    requires Product(m0, mem.cells, z, zn, x, xn, y, yn, w, wn)
    modifies mem
    ensures Product(m0, mem.cells, z, zn, x, xn, y, yn + 1, w, wn)
  {
    hide Sh, V, P, Mul;
    ghost var m1 := mem.cells;
    ghost var vx, vy, d := V(m0, x, xn), V(m0, y, yn), m0[y + yn];
    VStep(m0, y, yn);
    assert mem.cells[y + yn] == d;
    MulAdds(vx, vy, Sh(d, yn));
    MulSh(vx, d, yn);
    MulComm(vx, d); MulIs(d, vx);
    VBound(m0, x, xn); VBound(m0, y, yn + 1);
    ProductFits(vx, xn, V(m0, y, yn + 1), yn + 1, zn);
    VSplit(m1, z, yn, zn - yn);
    var carry := MulAdd1xN(mem, z + yn, zn - yn, mem.cells[y + yn], x, xn);
    VSplit(mem.cells, z, yn, zn - yn);
    VBound(mem.cells, z, zn);
    RowAdds(V(mem.cells, z + yn, zn - yn), Bit(carry), V(m1, z + yn, zn - yn), d * vx, yn, zn - yn);
    NoCarry(V(mem.cells, z, zn), carry, zn, Mul(vx, V(m0, y, yn + 1)));
    Keeps2Intro(m0, mem.cells, z, zn, w, wn);
  }

  /** Makes sure of a work area of n digits. */
  method KaratsubaAlloc(mem: Memory, z: nat, zn: nat, x: nat, xn: nat, y: nat, n: nat, sq: bool, w: nat, wn: nat)
    requires Area(mem.cells, z, zn, x, xn, y, 2 * n, w, wn)
    requires n < xn <= 2 * n && (sq ==> x == y && xn == 2 * n)
    modifies mem
    ensures Product(old(mem.cells), mem.cells, z, zn, x, xn, y, 2 * n, w, wn)
    decreases xn + 2 * n, 4
  {
    hide Sh, V, P, Mul;
    if wn < n {
      ghost var m0 := mem.cells;
      var base := |mem.cells|;
      var w' := Alloc(mem, 2 * n);
      assert V(mem.cells, x, xn) == V(m0, x, xn) && V(mem.cells, y, 2 * n) == V(m0, y, 2 * n);
      KaratsubaEven(mem, z, zn, x, xn, y, n, sq, w', 2 * n);
      ghost var m2 := mem.cells;
      Release(mem, base);
      assert V(mem.cells, z, zn) == V(m2, z, zn);
      Keeps2Intro(m0, mem.cells, z, zn, w, wn);
    } else {
      KaratsubaEven(mem, z, zn, x, xn, y, n, sq, w, wn);
    }
  }

  /** The precondition of every phase below. */
  ghost predicate KArea(m: seq<Digit>, z: nat, zn: nat, x: nat, xn: nat, y: nat, n: nat, sq: bool, w: nat, wn: nat) {
    && Area(m, z, zn, x, xn, y, 2 * n, w, wn)
    && n < xn <= 2 * n && n <= wn && (sq ==> x == y && xn == 2 * n)
  }

  /** x = x0 + r*x1 and y = y0 + r*y1 with r = P(n):
      x*y = x0*y0 + r*(x0*y0 + x1*y1 - (x0-x1)*(y0-y1)) + r*r*x1*y1. */
  method KaratsubaEven(mem: Memory, z: nat, zn: nat, x: nat, xn: nat, y: nat, n: nat, sq: bool, w: nat, wn: nat)
    requires KArea(mem.cells, z, zn, x, xn, y, n, sq, w, wn)
    modifies mem
    ensures Product(old(mem.cells), mem.cells, z, zn, x, xn, y, 2 * n, w, wn)
    decreases xn + 2 * n, 3
  {
    hide Sh, V, P, Mul;
    ghost var m0 := mem.cells;
    ghost var x0, x1, y0, y1 := V(m0, x, n), V(m0, x + n, xn - n), V(m0, y, n), V(m0, y + n, n);
    var borrow := KMiddle(mem, z, zn, x, xn, y, n, sq, w, wn);
    ghost var m1 := mem.cells;
    assert V(m1, x, n) == x0 && V(m1, y, n) == y0;
    var carry1, carry2 := KLow(mem, z, zn, x, xn, y, n, sq, w, wn, borrow, -Mul(x0 - x1, y0 - y1));
    ghost var m2 := mem.cells;
    assert V(m2, x + n, xn - n) == x1 && V(m2, y + n, n) == y1;
    var carry3 := KHigh(mem, z, zn, x, xn, y, n, sq, w, wn);
    ghost var m3 := mem.cells;
    ghost var e := KCarries(mem, z, zn, n, w, carry1 as int + carry3 - Bit(borrow), carry2);
    KWrap(m0, mem.cells, z, zn, x, xn, y, n, V(m2, z + n, n), V(m2, w, n), V(m3, z + 2 * n, zn - 2 * n),
          carry1, carry2, carry3, borrow, e);
    Keeps2Intro(m0, mem.cells, z, zn, w, wn);
  }

  lemma KWrap(m0: seq<Digit>, m: seq<Digit>, z: nat, zn: nat, x: nat, xn: nat, y: nat, n: nat,
              z1: int, hi: int, mid: int, carry1: int, carry2: bool, carry3: int, borrow: bool, e: int)
    requires z + zn <= |m| && x + xn <= |m0| && y + 2 * n <= |m0|
    requires n < xn <= 2 * n && xn + 2 * n <= zn
    requires var a := Mul(V(m0, x, n), V(m0, y, n));
             V(m, z, n) + Sh(z1, n) + Sh(Bit(carry2), 2 * n) + Sh(hi, 2 * n) + Sh(carry1, 3 * n)
             == a + Sh(-Mul(V(m0, x, n) - V(m0, x + n, xn - n), V(m0, y, n) - V(m0, y + n, n)) + a, n)
                + Sh(Bit(borrow), 3 * n)
    requires var c := Mul(V(m0, x + n, xn - n), V(m0, y + n, n));
             Sh(V(m, z + n, n), n) + Sh(mid, 2 * n) + Sh(carry3, 3 * n) == Sh(z1, n) + Sh(c, n) + Sh(c, 2 * n)
    requires V(m, z + 2 * n, zn - 2 * n)
          == mid + hi + Bit(carry2) + Sh(carry1 + carry3 - Bit(borrow), n) + Sh(e, zn - 2 * n)
    ensures V(m, z, zn) == Mul(V(m0, x, xn), V(m0, y, 2 * n))
  {
    hide Sh, V, P, Mul;
    VSplit(m0, x, n, xn - n);
    VSplit(m0, y, n, n);
    KSplit(m, z, n, zn);
    KTotal(V(m, z, n), z1, V(m, z + n, n), hi, mid, V(m, z + 2 * n, zn - 2 * n),
           V(m0, x, n), V(m0, x + n, xn - n), V(m0, y, n), V(m0, y + n, n),
           n, zn, carry1, carry2, carry3, borrow, e);
    VBound(m0, x, xn); VBound(m0, y, 2 * n); VBound(m, z, zn);
    ProductFits(V(m0, x, xn), xn, V(m0, y, 2 * n), 2 * n, zn);
    SameModulo(V(m, z, zn), Mul(V(m0, x, xn), V(m0, y, 2 * n)), e, zn);
  }

  /** Two numbers of n digits that differ by a multiple of P(n) are equal. */
  lemma SameModulo(a: int, b: int, e: int, n: nat)
    requires 0 <= a < P(n) && 0 <= b < P(n) && a == b + Sh(e, n)
    ensures a == b
  {
    hide Sh, P;
    ShOne(n); ShNeg(1, n); ShNone(n);
    if e >= 1 { ShLe(1, e, n); }
    if e <= -1 { ShLe(e, -1, n); }
  }

  lemma KSplit(m: seq<Digit>, z: nat, n: nat, zn: nat)
    requires z + zn <= |m| && 2 * n <= zn
    ensures V(m, z, zn) == V(m, z, n) + Sh(V(m, z + n, n), n) + Sh(V(m, z + 2 * n, zn - 2 * n), 2 * n)
  {
    hide Sh, V, P;
    VSplit(m, z, 2 * n, zn - 2 * n);
    VSplit(m, z, n, n);
  }

  /** z[n..3n] <- -(x0-x1)*(y0-y1), as a number of 2n digits and a borrow. */
  method KMiddle(mem: Memory, z: nat, zn: nat, x: nat, xn: nat, y: nat, n: nat, sq: bool, w: nat, wn: nat)
      returns (borrow: bool)
    requires KArea(mem.cells, z, zn, x, xn, y, n, sq, w, wn)
    modifies mem
    ensures |mem.cells| == |old(mem.cells)| && Keeps2(old(mem.cells), mem.cells, z, zn, w, wn)
    ensures V(mem.cells, z + n, 2 * n) - Sh(Bit(borrow), 2 * n)
         == -Mul(V(old(mem.cells), x, n) - V(old(mem.cells), x + n, xn - n),
                 V(old(mem.cells), y, n) - V(old(mem.cells), y + n, n))
    decreases xn + 2 * n, 2
  {
    hide Sh, V, P, Mul;
    ghost var m0 := mem.cells;
    var subP := KDiffs(mem, z, zn, x, xn, y, n, sq, w, wn);
    borrow := false;
    ShNone(2 * n); ShOne(2 * n);
    if subP {
      var zero := TwosComp(mem, z + n, 2 * n);
      borrow := !zero;
    }
    Keeps2Intro(m0, mem.cells, z, zn, w, wn);
  }

  /** z[n..3n] <- |x0-x1| * |y0-y1|; says whether (x0-x1)*(y0-y1) is that, or its negative. */
  method KDiffs(mem: Memory, z: nat, zn: nat, x: nat, xn: nat, y: nat, n: nat, sq: bool, w: nat, wn: nat)
      returns (subP: bool)
    requires KArea(mem.cells, z, zn, x, xn, y, n, sq, w, wn)
    modifies mem
    ensures |mem.cells| == |old(mem.cells)| && SameOutside2(old(mem.cells), mem.cells, z, zn, w, wn)
    ensures V(mem.cells, z + n, 2 * n)
         == Signed(subP, Mul(V(old(mem.cells), x, n) - V(old(mem.cells), x + n, xn - n),
                             V(old(mem.cells), y, n) - V(old(mem.cells), y + n, n)))
    decreases xn + 2 * n, 1
  {
    hide Sh, V, P, Mul;
    ghost var m0 := mem.cells;
    ghost var dx := V(m0, x, n) - V(m0, x + n, xn - n);
    ghost var dy := V(m0, y, n) - V(m0, y + n, n);
    subP := true;
    var neg := AbsDiff(mem, z, n, x, n, x + n, xn - n);
    if neg {
      subP := !subP;
    }
    SignProduct(dx, dy);
    if sq {
      subP := true;
      KaratsubaStart(mem, z + n, 2 * n, z, n, z, n, w, wn);
    } else {
      ghost var m1 := mem.cells;
      neg := AbsDiff(mem, w, n, y, n, y + n, n);
      if neg {
        subP := !subP;
      }
      assert V(mem.cells, z, n) == V(m1, z, n);
      KaratsubaStart(mem, z + n, 2 * n, z, n, w, n, w + n, wn - n);
    }
  }

  lemma SignProduct(a: int, b: int)
    ensures Mul(Abs(a), Abs(b)) == if (a < 0) == (b < 0) then Mul(a, b) else -Mul(a, b)
  {
    NegProduct(a, b);
    NegProduct(-a, b);
    NegProduct(a, -b);
  }

  lemma NegProduct(a: int, b: int)
    ensures Mul(-a, b) == -Mul(a, b) == Mul(a, -b)
  {}

  function Abs(a: int): (r: int) { if a < 0 then -a else a }

  /** z[0..2n] <- x0*y0, with that same product added to the middle part (value t, borrow and
      all) and the sum's low half already placed: its high half is left in w. */
  method KLow(mem: Memory, z: nat, zn: nat, x: nat, xn: nat, y: nat, n: nat, sq: bool, w: nat, wn: nat,
              ghost borrow: bool, ghost t: int)
      returns (carry1: nat, carry2: bool)
    requires KArea(mem.cells, z, zn, x, xn, y, n, sq, w, wn)
    requires V(mem.cells, z + n, 2 * n) - Sh(Bit(borrow), 2 * n) == t
    modifies mem
    ensures |mem.cells| == |old(mem.cells)| && Keeps2(old(mem.cells), mem.cells, z, zn, w, wn)
    ensures carry1 <= 1
    ensures var a := Mul(V(old(mem.cells), x, n), V(old(mem.cells), y, n));
            V(mem.cells, z, n) + Sh(V(mem.cells, z + n, n), n) + Sh(Bit(carry2), 2 * n)
            + Sh(V(mem.cells, w, n), 2 * n) + Sh(carry1, 3 * n)
            == a + Sh(t + a, n) + Sh(Bit(borrow), 3 * n)
    decreases xn + 2 * n, 2
  {
    hide Sh, V, P, Mul;
    ghost var m0 := mem.cells;
    VSplit(m0, z + n, n, n);
    ghost var lo, hi := V(m0, z + n, n), V(m0, z + 2 * n, n);
    Copy(mem, w, z + n, n);
    assert V(mem.cells, x, n) == V(m0, x, n) && V(mem.cells, y, n) == V(m0, y, n);
    KaratsubaStart(mem, z, 2 * n, x, n, y, n, w + n, wn - n);
    ghost var m1 := mem.cells;
    assert V(m1, w, n) == lo && V(m1, z + 2 * n, n) == hi;
    carry1, carry2 := KLowAdd(mem, z, n, w, borrow, t);
    Keeps2Intro(m0, mem.cells, z, zn, w, wn);
  }

  method KLowAdd(mem: Memory, z: nat, n: nat, w: nat, ghost borrow: bool, ghost t: int)
      returns (carry1: nat, carry2: bool)
    requires z + 3 * n <= |mem.cells| && w + n <= |mem.cells| && Apart(w, n, z, 3 * n)
    requires V(mem.cells, w, n) + Sh(V(mem.cells, z + 2 * n, n), n) - Sh(Bit(borrow), 2 * n) == t
    modifies mem
    ensures |mem.cells| == |old(mem.cells)| && SameOutside2(old(mem.cells), mem.cells, z + n, 2 * n, w, n)
    ensures carry1 <= 1
    ensures var a := V(old(mem.cells), z, 2 * n);
            V(mem.cells, z, n) + Sh(V(mem.cells, z + n, n), n) + Sh(Bit(carry2), 2 * n)
            + Sh(V(mem.cells, w, n), 2 * n) + Sh(carry1, 3 * n)
            == a + Sh(t + a, n) + Sh(Bit(borrow), 3 * n)
  {
    hide Sh, V, P, Mul;
    ghost var m1 := mem.cells;
    VSplit(m1, z, n, n);
    ghost var lo, hi := V(m1, w, n), V(m1, z + 2 * n, n);
    ghost var a0, a1 := V(m1, z, n), V(m1, z + n, n);
    var c := Add(mem, w, n, w, n, z, n);
    ghost var lo' := V(mem.cells, w, n);
    ghost var c1 := Bit(c);
    c := Addc(mem, z + 2 * n, n, z + 2 * n, n, z + n, n, c);
    carry1 := Bit(c);
    ghost var hi' := V(mem.cells, z + 2 * n, n);
    carry2 := Add(mem, z + n, n, z + n, n, w, n);
    ghost var z1 := V(mem.cells, z + n, n);
    Copy(mem, w, z + 2 * n, n);
    assert V(mem.cells, z, n) == a0 && V(mem.cells, z + n, n) == z1 && V(mem.cells, w, n) == hi';
    KLowSum(a0, a1, lo, hi, lo', hi', z1, c1, carry1, Bit(carry2), Bit(borrow), t, n);
  }

  lemma KLowSum(a0: int, a1: int, lo: int, hi: int, lo': int, hi': int, z1: int,
                c1: int, carry1: int, carry2: int, borrow: int, t: int, n: nat)
    requires lo + Sh(hi, n) - Sh(borrow, 2 * n) == t
    requires lo' + Sh(c1, n) == lo + a0
    requires hi' + Sh(carry1, n) == hi + a1 + c1
    requires z1 + Sh(carry2, n) == a1 + lo'
    ensures a0 + Sh(z1, n) + Sh(carry2, 2 * n) + Sh(hi', 2 * n) + Sh(carry1, 3 * n)
         == (a0 + Sh(a1, n)) + Sh(t + (a0 + Sh(a1, n)), n) + Sh(borrow, 3 * n)
  {
    hide Sh, P;
    RowAdds(z1, carry2, a1, lo', n, n);
    RowAdds(lo', c1, lo, a0, n, n);
    RowAdds(hi', carry1, hi + a1, c1, 2 * n, n);
    ShAdds(hi, a1, 2 * n);
    ShAdds(t, a0 + Sh(a1, n), n);
    ShAdds(a0, Sh(a1, n), n);
    ShSh(a1, n, n);
    ShSubs(lo + Sh(hi, n), Sh(borrow, 2 * n), n);
    ShAdds(lo, Sh(hi, n), n);
    ShSh(hi, n, n);
    ShSh(borrow, 2 * n, n);
  }

  /** z[2n..] <- x1*y1, which is also added one half lower. */
  method KHigh(mem: Memory, z: nat, zn: nat, x: nat, xn: nat, y: nat, n: nat, sq: bool, w: nat, wn: nat)
      returns (carry3: nat)
    requires KArea(mem.cells, z, zn, x, xn, y, n, sq, w, wn)
    modifies mem
    ensures |mem.cells| == |old(mem.cells)| && Keeps2(old(mem.cells), mem.cells, z + n, zn - n, w + n, wn - n)
    ensures carry3 <= 1
    ensures var c := Mul(V(old(mem.cells), x + n, xn - n), V(old(mem.cells), y + n, n));
            Sh(V(mem.cells, z + n, n), n) + Sh(V(mem.cells, z + 2 * n, zn - 2 * n), 2 * n) + Sh(carry3, 3 * n)
            == Sh(V(old(mem.cells), z + n, n), n) + Sh(c, n) + Sh(c, 2 * n)
    decreases xn + 2 * n, 2
  {
    hide Sh, V, P, Mul;
    ghost var m0 := mem.cells;
    KaratsubaStart(mem, z + 2 * n, zn - 2 * n, x + n, xn - n, y + n, n, w + n, wn - n);
    ghost var m1 := mem.cells;
    var k := if 4 * n < zn then n else zn - 3 * n;
    TopHalf(m0, m1, z, zn, x, xn, y, n, k);
    carry3 := KHighAdd(mem, z, zn, n, k);
    Keeps2Intro(m0, mem.cells, z + n, zn - n, w + n, wn - n);
  }

  method KHighAdd(mem: Memory, z: nat, zn: nat, n: nat, k: nat) returns (carry3: nat)
    requires z + zn <= |mem.cells| && k <= n && 3 * n + k <= zn
    requires V(mem.cells, z + 3 * n, zn - 3 * n) == V(mem.cells, z + 3 * n, k)
    modifies mem
    ensures Keeps(old(mem.cells), mem.cells, z + n, 2 * n)
    ensures carry3 <= 1
    ensures var c := V(old(mem.cells), z + 2 * n, zn - 2 * n);
            Sh(V(mem.cells, z + n, n), n) + Sh(V(mem.cells, z + 2 * n, zn - 2 * n), 2 * n) + Sh(carry3, 3 * n)
            == Sh(V(old(mem.cells), z + n, n), n) + Sh(c, n) + Sh(c, 2 * n)
  {
    hide Sh, V, P, Mul;
    ghost var m1 := mem.cells;
    ghost var z1 := V(m1, z + n, n);
    VSplit(m1, z + 2 * n, n, zn - 3 * n);
    ghost var c0, ct := V(m1, z + 2 * n, n), V(m1, z + 3 * n, zn - 3 * n);
    var c := Add(mem, z + n, n, z + n, n, z + 2 * n, n);
    ghost var c3 := Bit(c);
    ghost var z1' := V(mem.cells, z + n, n);
    c := Addc(mem, z + 2 * n, n, z + 2 * n, n, z + 3 * n, k, c);
    carry3 := Bit(c);
    ghost var z2 := V(mem.cells, z + 2 * n, n);
    assert V(mem.cells, z + n, n) == z1';
    VSplit(mem.cells, z + 2 * n, n, zn - 3 * n);
    assert V(mem.cells, z + 3 * n, zn - 3 * n) == ct;
    KHighSum(z1, z1', c0, ct, z2, c3, carry3, n);
    KeepsIntro(m1, mem.cells, z + n, 2 * n);
  }

  /** x1*y1 has at most 2n digits, so what stands above its low half fits in k digits. */
  lemma TopHalf(m0: seq<Digit>, m1: seq<Digit>, z: nat, zn: nat, x: nat, xn: nat, y: nat, n: nat, k: nat)
    requires |m1| == |m0| && z + zn <= |m0| && x + xn <= |m0| && y + 2 * n <= |m0|
    requires n < xn <= 2 * n && xn + 2 * n <= zn && k == if 4 * n < zn then n else zn - 3 * n
    requires V(m1, z + 2 * n, zn - 2 * n) == Mul(V(m0, x + n, xn - n), V(m0, y + n, n))
    ensures V(m1, z + 3 * n, zn - 3 * n) == V(m1, z + 3 * n, k)
  {
    hide Sh, V, P, Mul;
    if 4 * n < zn {
      VBound(m0, x + n, xn - n); VBound(m0, y + n, n);
      ProductFits(V(m0, x + n, xn - n), xn - n, V(m0, y + n, n), n, 2 * n);
      VSplit(m1, z + 2 * n, 2 * n, zn - 4 * n);
      VBound(m1, z + 2 * n, 2 * n); VBound(m1, z + 4 * n, zn - 4 * n);
      var top := V(m1, z + 4 * n, zn - 4 * n);
      ShOne(2 * n);
      if top >= 1 { ShLe(1, top, 2 * n); }
      VSplit(m1, z + 3 * n, n, zn - 4 * n);
      ShNone(n);
    }
  }

  lemma KHighSum(z1: int, z1': int, c0: int, ct: int, z2: int, c3: int, carry3: int, n: nat)
    requires z1' + Sh(c3, n) == z1 + c0
    requires z2 + Sh(carry3, n) == c0 + ct + c3
    ensures Sh(z1', n) + Sh(z2 + Sh(ct, n), 2 * n) + Sh(carry3, 3 * n)
         == Sh(z1, n) + Sh(c0 + Sh(ct, n), n) + Sh(c0 + Sh(ct, n), 2 * n)
  {
    hide Sh, P;
    RowAdds(z1', c3, z1, c0, n, n);
    RowAdds(z2, carry3, c0 + ct, c3, 2 * n, n);
    ShAdds(c0, ct, 2 * n);
    ShAdds(z2, Sh(ct, n), 2 * n);
    ShSh(ct, n, 2 * n);
    ShAdds(c0, Sh(ct, n), n);
    ShSh(ct, n, n);
    ShAdds(c0, Sh(ct, n), 2 * n);
  }

  /** Everything carried so far goes in: w and carry2 at 2n, `carries` at 3n.  A carry out of
      the top is dropped; e counts it. */
  method KCarries(mem: Memory, z: nat, zn: nat, n: nat, w: nat, carries: int, carry2: bool)
      returns (ghost e: int)
    requires z + zn <= |mem.cells| && w + n <= |mem.cells| && Apart(w, n, z, zn)
    requires 3 * n < zn && -1 <= carries <= 2
    modifies mem
    ensures Keeps(old(mem.cells), mem.cells, z + 2 * n, zn - 2 * n)
    ensures V(mem.cells, z + 2 * n, zn - 2 * n)
         == V(old(mem.cells), z + 2 * n, zn - 2 * n) + V(old(mem.cells), w, n) + Bit(carry2)
            + Sh(carries, n) + Sh(e, zn - 2 * n)
  {
    hide Sh, V, P, Mul;
    ghost var m0 := mem.cells;
    var z2, k := z + 2 * n, zn - 2 * n;
    var c := Add(mem, z2, k, z2, k, w, n);
    e := -Bit(c);
    ShNeg(Bit(c), k);
    if carry2 {
      c := AddOne(mem, z2, k);
      ShSubs(e, Bit(c), k);
      e := e - Bit(c);
    }
    ghost var e' := KTopCarries(mem, z2, k, n, carries);
    ShAdds(e, e', k);
    e := e + e';
    KeepsIntro(m0, mem.cells, z + 2 * n, zn - 2 * n);
  }

  method KTopCarries(mem: Memory, z: nat, k: nat, n: nat, carries: int) returns (ghost e: int)
    requires z + k <= |mem.cells| && n < k && -1 <= carries <= 2
    modifies mem
    ensures Keeps(old(mem.cells), mem.cells, z, k)
    ensures V(mem.cells, z, k) == V(old(mem.cells), z, k) + Sh(carries, n) + Sh(e, k)
  {
    hide Sh, V, P, Mul;
    ghost var m0 := mem.cells;
    VSplit(m0, z, n, k - n);
    ShNone(n); ShNone(k);
    e := 0;
    if carries < 0 {
      var c := SubOne(mem, z + n, k - n);
      e := Bit(c);
      CarriesUp(V(mem.cells, z + n, k - n), e, V(m0, z + n, k - n), -1, n, k - n);
    } else if carries > 0 {
      var c := AddSmall(mem, z + n, k - n, carries);
      e := -Bit(c);
      ShNeg(Bit(c), k - n);
      CarriesUp(V(mem.cells, z + n, k - n), e, V(m0, z + n, k - n), carries, n, k - n);
    }
    VSplit(mem.cells, z, n, k - n);
    KeepsIntro(m0, mem.cells, z, k);
    assert V(mem.cells, z, n) == V(m0, z, n);
  }

  lemma CarriesUp(after: int, out: int, before: int, carries: int, n: nat, k: nat)
    requires after - Sh(out, k) == before + carries
    ensures Sh(after, n) == Sh(before, n) + Sh(carries, n) + Sh(out, k + n)
  {
    hide Sh, P;
    ShSubs(after, Sh(out, k), n);
    ShSh(out, k, n);
    ShAdds(before, carries, n);
  }

  /** Adding a local one-digit variable. */
  method AddSmall(mem: Memory, z: nat, n: nat, c: Digit) returns (carry: bool)
    requires z + n <= |mem.cells| && 0 < n
    modifies mem
    ensures Keeps(old(mem.cells), mem.cells, z, n)
    ensures V(mem.cells, z, n) + Sh(Bit(carry), n) == V(old(mem.cells), z, n) + c
  {
    hide Sh, V, P;
    ghost var m0 := mem.cells;
    var base := |mem.cells|;
    var t := Alloc(mem, 1);
    ghost var m1 := mem.cells;
    mem.cells := mem.cells[t := c];
    KeepsIntro(m1, mem.cells, t, 1);
    VOne(mem.cells, t);
    assert V(mem.cells, z, n) == V(m1, z, n) == V(m0, z, n);
    carry := Add(mem, z, n, z, n, t, 1);
    ghost var m2 := mem.cells;
    Release(mem, base);
    assert V(mem.cells, z, n) == V(m2, z, n);
    KeepsIntro(m0, mem.cells, z, n);
  }

  /** The pieces add up to the product, but for e carries lost at the top. */
  lemma KTotal(z0: int, z1: int, z1': int, hi: int, mid: int, top: int,
               x0: int, x1: int, y0: int, y1: int, n: nat, zn: nat,
               carry1: int, carry2: bool, carry3: int, borrow: bool, e: int)
    requires 3 * n < zn
    requires var a := Mul(x0, y0);
             z0 + Sh(z1, n) + Sh(Bit(carry2), 2 * n) + Sh(hi, 2 * n) + Sh(carry1, 3 * n)
             == a + Sh(-Mul(x0 - x1, y0 - y1) + a, n) + Sh(Bit(borrow), 3 * n)
    requires var c := Mul(x1, y1);
             Sh(z1', n) + Sh(mid, 2 * n) + Sh(carry3, 3 * n) == Sh(z1, n) + Sh(c, n) + Sh(c, 2 * n)
    requires top == mid + hi + Bit(carry2) + Sh(carry1 + carry3 - Bit(borrow), n) + Sh(e, zn - 2 * n)
    ensures z0 + Sh(z1', n) + Sh(top, 2 * n) == Mul(x0 + Sh(x1, n), y0 + Sh(y1, n)) + Sh(e, zn)
  {
    hide Sh, P, Mul;
    var s := carry1 + carry3 - Bit(borrow);
    ShAdds(mid + hi + Bit(carry2) + Sh(s, n), Sh(e, zn - 2 * n), 2 * n);
    ShAdds(mid + hi + Bit(carry2), Sh(s, n), 2 * n);
    ShAdds(mid + hi, Bit(carry2), 2 * n);
    ShAdds(mid, hi, 2 * n);
    ShSh(s, n, 2 * n);
    ShSh(e, zn - 2 * n, 2 * n);
    ShSubs(carry1 + carry3, Bit(borrow), 3 * n);
    ShAdds(carry1, carry3, 3 * n);
    KIdentity(x0, x1, y0, y1, n);
    ShAdds(-Mul(x0 - x1, y0 - y1) + Mul(x0, y0), Mul(x1, y1), n);
  }

  lemma KIdentity(x0: int, x1: int, y0: int, y1: int, n: nat)
    ensures Mul(x0 + Sh(x1, n), y0 + Sh(y1, n))
         == Mul(x0, y0) + Sh(-Mul(x0 - x1, y0 - y1) + Mul(x0, y0) + Mul(x1, y1), n) + Sh(Mul(x1, y1), 2 * n)
  {
    PAdds(n, n);
    KPolynomial(x0, x1, y0, y1, P(n));
  }

  lemma KPolynomial(x0: int, x1: int, y0: int, y1: int, r: int)
    ensures (x0 + x1 * r) * (y0 + y1 * r)
         == x0 * y0 + (-((x0 - x1) * (y0 - y1)) + x0 * y0 + x1 * y1) * r + x1 * y1 * (r * r)
  {
    assert x1 * r * y0 == x1 * y0 * r;
    assert x1 * r * (y1 * r) == x1 * y1 * (r * r);
  }

  // ----- Toom-3

  /** x times y when y is cut in three; makes sure of a work area. */
  method Toom3(mem: Memory, z: nat, zn: nat, x: nat, xn: nat, y: nat, yn: nat, w: nat, wn: nat)
    requires Area(mem.cells, z, zn, x, xn, y, yn, w, wn)
    requires xn <= yn && Toom3Balanced(xn, yn)
    modifies mem
    ensures Product(old(mem.cells), mem.cells, z, zn, x, xn, y, yn, w, wn)
    decreases xn + yn, 5
  {
    hide Sh, V, P, Mul;
    var sq := x == y && xn == yn;
    var n := (yn + 2) / 3;
    var wnc := 22 * n + 15;
    if wn < wnc {
      ghost var m0 := mem.cells;
      var base := |mem.cells|;
      var wn' := wnc * 3 / 2;
      var w' := Alloc(mem, wn');
      assert V(mem.cells, x, xn) == V(m0, x, xn) && V(mem.cells, y, yn) == V(m0, y, yn);
      Toom3Work(mem, z, zn, x, xn, y, yn, n, sq, w', wn');
      ghost var m2 := mem.cells;
      Release(mem, base);
      assert V(mem.cells, z, zn) == V(m2, z, zn);
      Keeps2Intro(m0, mem.cells, z, zn, w, wn);
    } else {
      Toom3Work(mem, z, zn, x, xn, y, yn, n, sq, w, wn);
    }
  }

  /** The parts of an operand cut at n and 2n. */
  ghost function Cut(m: seq<Digit>, x: nat, xn: nat, n: nat): (r: (int, int, int))
    requires x + xn <= |m| && 2 * n <= xn
  {
    (V(m, x, n), V(m, x + n, n), V(m, x + 2 * n, xn - 2 * n))
  }

  ghost function Conv(a: (int, int, int), b: (int, int, int)): (r: Coeffs) {
    Convolve(a.0, a.1, a.2, b.0, b.1, b.2)
  }

  method Toom3Work(mem: Memory, z: nat, zn: nat, x: nat, xn: nat, y: nat, yn: nat, n: nat, sq: bool, w: nat, wn: nat)
    requires Area(mem.cells, z, zn, x, xn, y, yn, w, wn)
    requires 0 < n && 2 * n < xn <= yn <= 3 * n && 22 * n + 15 <= wn
    requires sq ==> x == y && xn == yn
    modifies mem
    ensures Product(old(mem.cells), mem.cells, z, zn, x, xn, y, yn, w, wn)
    decreases xn + yn, 4
  {
    hide Sh, V, P, Mul, Signed, Evaluated, Points, Conv, Cut, AtBase;
    ghost var m0 := mem.cells;
    var l := n + 1;
    var t := w + 6 * l;
    var at := Places(t, t + 2 * n, t + 4 * n + 2, t + 6 * n + 4, t + 8 * n + 6, t + 10 * n + 6, t + 12 * n + 7, t + 14 * n + 8);
    var ww := w + (22 * n + 15);
    var v := if sq then w else w + 3 * l;
    ghost var a, b := Cut(m0, x, xn, n), Cut(m0, y, yn, n);
    ghost var c := Conv(a, b);
    var p2, p3, q2, q3 := EvaluateBoth(mem, x, xn, y, yn, n, sq, w);
    ghost var m1 := mem.cells;
    CutSame(m0, m1, x, xn, n);
    CutSame(m0, m1, y, yn, n);
    Toom3Products(mem, x, xn, y, yn, n, w, v, p2, p3, q2, q3, at, ww, wn - (22 * n + 15));
    Toom3Value(m0, x, xn, y, yn, n, zn);
    Assemble(mem, w, n, at, p2 == q2, p3 == q3, c);
    Deliver(mem, z, zn, w, 6 * n + 1);
    Keeps2Intro(m0, mem.cells, z, zn, w, wn);
  }

  lemma CutSame(m: seq<Digit>, m': seq<Digit>, x: nat, xn: nat, n: nat)
    requires x + xn <= |m| == |m'| && 2 * n <= xn
    requires exists z, zn :: Keeps(m, m', z, zn) && Apart(x, xn, z, zn)
    ensures Cut(m', x, xn, n) == Cut(m, x, xn, n)
  {
    hide V;
  }

  /** The whole number from its parts, and the room there is for the product. */
  lemma Toom3Value(m: seq<Digit>, x: nat, xn: nat, y: nat, yn: nat, n: nat, zn: nat)
    requires x + xn <= |m| && y + yn <= |m| && 2 * n < xn <= yn <= 3 * n && xn + yn <= zn
    ensures var c := Conv(Cut(m, x, xn, n), Cut(m, y, yn, n));
            && c.Within(P(2 * n))
            && AtBase(c, n) == Mul(V(m, x, xn), V(m, y, yn))
            && AtBase(c, n) < P(zn) && AtBase(c, n) < P(6 * n + 1)
  {
    hide Sh, V, P, Mul, AtBase;
    var a, b := Cut(m, x, xn, n), Cut(m, y, yn, n);
    CutSum(m, x, xn, n);
    CutSum(m, y, yn, n);
    ConvolveWithin(a.0, a.1, a.2, b.0, b.1, b.2, n);
    ConvolveAtBase(a.0, a.1, a.2, b.0, b.1, b.2, n);
    VBound(m, x, xn); VBound(m, y, yn);
    ProductFits(V(m, x, xn), xn, V(m, y, yn), yn, zn);
    ProductFits(V(m, x, xn), xn, V(m, y, yn), yn, 6 * n + 1);
  }

  lemma CutSum(m: seq<Digit>, x: nat, xn: nat, n: nat)
    requires x + xn <= |m| && 2 * n <= xn <= 3 * n
    ensures var a := Cut(m, x, xn, n);
            && V(m, x, xn) == a.0 + Sh(a.1, n) + Sh(a.2, 2 * n)
            && 0 <= a.0 < P(n) && 0 <= a.1 < P(n) && 0 <= a.2 < P(n)
  {
    hide Sh, V, P;
    KSplit(m, x, n, xn);
    VBound(m, x, n); VBound(m, x + n, n); VBound(m, x + 2 * n, xn - 2 * n);
    PMonotone(xn - 2 * n, n);
  }

  /** u holds x(1), |x(-1)|, |x(-2)|, with the flags saying which are not negative. */
  ghost predicate Evaluated(m: seq<Digit>, u: nat, n: nat, p2: bool, p3: bool, a: (int, int, int))
    requires u + 3 * (n + 1) <= |m|
  {
    && V(m, u, n + 1) == a.0 + a.1 + a.2
    && Signed(p2, V(m, u + (n + 1), n + 1)) == a.0 - a.1 + a.2
    && Signed(p3, V(m, u + 2 * (n + 1), n + 1)) == a.0 - 2 * a.1 + 4 * a.2
  }

  method EvaluateBoth(mem: Memory, x: nat, xn: nat, y: nat, yn: nat, n: nat, sq: bool, w: nat)
      returns (p2: bool, p3: bool, q2: bool, q3: bool)
    requires x + xn <= |mem.cells| && y + yn <= |mem.cells| && w + 6 * (n + 1) <= |mem.cells|
    requires 2 * n < xn <= yn <= 3 * n && (sq ==> x == y && xn == yn)
    requires Apart(x, xn, w, 6 * (n + 1)) && Apart(y, yn, w, 6 * (n + 1))
    modifies mem
    ensures Keeps(old(mem.cells), mem.cells, w, 6 * (n + 1))
    ensures Evaluated(mem.cells, w, n, p2, p3, Cut(old(mem.cells), x, xn, n))
    ensures Evaluated(mem.cells, if sq then w else w + 3 * (n + 1), n, q2, q3, Cut(old(mem.cells), y, yn, n))
  {
    hide Sh, V, P, Mul, Signed;
    ghost var m0 := mem.cells;
    var l := n + 1;
    p2, p3 := Evaluate(mem, w, n, x, xn - 2 * n);
    ghost var m1 := mem.cells;
    if sq {
      q2, q3 := p2, p3;
    } else {
      assert Cut(m1, y, yn, n) == Cut(m0, y, yn, n);
      q2, q3 := Evaluate(mem, w + 3 * l, n, y, yn - 2 * n);
      assert V(mem.cells, w, l) == V(m1, w, l);
      assert V(mem.cells, w + l, l) == V(m1, w + l, l) && V(mem.cells, w + 2 * l, l) == V(m1, w + 2 * l, l);
    }
    KeepsIntro(m0, mem.cells, w, 6 * l);
  }

  /** The five recursive products. */
  method Toom3Products(mem: Memory, x: nat, xn: nat, y: nat, yn: nat, n: nat, u: nat, v: nat,
                       ghost p2: bool, ghost p3: bool, ghost q2: bool, ghost q3: bool, at: Places, ww: nat, wwn: nat)
    requires x + xn <= |mem.cells| && y + yn <= |mem.cells| && ww + wwn <= |mem.cells|
    requires 0 < n && 2 * n < xn <= yn <= 3 * n
    requires at.Laid(2 * n, |mem.cells|) && at.z3 + 2 * n + 1 <= ww
    requires u + 3 * (n + 1) <= at.t0 && v + 3 * (n + 1) <= at.t0
    requires Apart(x, xn, at.t0, ww + wwn - at.t0) && Apart(y, yn, at.t0, ww + wwn - at.t0)
    requires Evaluated(mem.cells, u, n, p2, p3, Cut(mem.cells, x, xn, n))
    requires Evaluated(mem.cells, v, n, q2, q3, Cut(mem.cells, y, yn, n))
    modifies mem
    ensures |mem.cells| == |old(mem.cells)|
    ensures Keeps2(old(mem.cells), mem.cells, at.t0, at.z1 - at.t0, ww, wwn)
    ensures Points(mem.cells, at, 2 * n, p2 == q2, p3 == q3,
                   Conv(Cut(old(mem.cells), x, xn, n), Cut(old(mem.cells), y, yn, n)))
    decreases xn + yn, 3
  {
    hide Sh, V, P, Mul, Signed, Evaluated, SamePoints, SmallPoints, Multiplied, Points, Conv;
    ghost var m0 := mem.cells;
    ghost var a, b := Cut(m0, x, xn, n), Cut(m0, y, yn, n);
    CutSum(m0, x, xn, n);
    CutSum(m0, y, yn, n);
    SignedBounds(m0, u, n, p2, p3, a);
    SignedBounds(m0, v, n, q2, q3, b);
    Toom3Start(mem, at.t0, 2 * n, x, n, y, n, ww, wwn);
    ghost var m1 := mem.cells;
    SameAt(m0, m1, u, n, at.t0, 2 * n, ww, wwn);
    SameAt(m0, m1, v, n, at.t0, 2 * n, ww, wwn);
    PointProducts(mem, n, u, v, at, ww, wwn, xn + yn);
    ghost var m2 := mem.cells;
    Keeps2Intro(m0, m2, at.t0, at.z1 - at.t0, ww, wwn);
    assert V(m2, x + 2 * n, xn - 2 * n) == a.2 && V(m2, y + 2 * n, yn - 2 * n) == b.2;
    Toom3Start(mem, at.t4, 2 * n, x + 2 * n, xn - 2 * n, y + 2 * n, yn - 2 * n, ww, wwn);
    Toom3Value(m0, x, xn, y, yn, n, xn + yn);
    PointsIntro(m0, m1, m2, mem.cells, n, u, v, p2, p3, q2, q3, at, a, b);
    Keeps2Intro(m0, mem.cells, at.t0, at.z1 - at.t0, ww, wwn);
  }

  /** The three evaluated points of an operand. */
  ghost predicate SamePoints(m: seq<Digit>, m': seq<Digit>, u: nat, n: nat)
    requires u + 3 * (n + 1) <= |m| && u + 3 * (n + 1) <= |m'|
  {
    && V(m', u, n + 1) == V(m, u, n + 1)
    && V(m', u + (n + 1), n + 1) == V(m, u + (n + 1), n + 1)
    && V(m', u + 2 * (n + 1), n + 1) == V(m, u + 2 * (n + 1), n + 1)
  }

  lemma SameAt(m: seq<Digit>, m': seq<Digit>, u: nat, n: nat, z: nat, zn: nat, w: nat, wn: nat)
    requires u + 3 * (n + 1) <= |m| == |m'|
    requires Keeps2(m, m', z, zn, w, wn) && u + 3 * (n + 1) <= z && u + 3 * (n + 1) <= w
    ensures SamePoints(m, m', u, n)
    ensures SmallPoints(m, u, n) ==> SmallPoints(m', u, n)
  {
    hide V;
  }

  lemma PointsIntro(m0: seq<Digit>, m1: seq<Digit>, m2: seq<Digit>, m: seq<Digit>, n: nat, u: nat, v: nat,
                    p2: bool, p3: bool, q2: bool, q3: bool, at: Places, a: (int, int, int), b: (int, int, int))
    requires at.Laid(2 * n, |m|) && |m0| == |m1| == |m2| == |m|
    requires u + 3 * (n + 1) <= |m| && v + 3 * (n + 1) <= |m|
    requires Evaluated(m0, u, n, p2, p3, a) && Evaluated(m0, v, n, q2, q3, b)
    requires SamePoints(m0, m1, u, n) && SamePoints(m0, m1, v, n)
    requires Multiplied(m1, m2, n, u, v, at)
    requires V(m1, at.t0, 2 * n) == Mul(a.0, b.0) && V(m2, at.t0, 2 * n) == V(m1, at.t0, 2 * n)
    requires forall p: nat, k: nat {:trigger V(m, p, k)} :: p + k <= at.t4 && at.t0 <= p ==> V(m, p, k) == V(m2, p, k)
    requires V(m, at.t4, 2 * n) == Mul(a.2, b.2)
    requires Conv(a, b).Within(P(2 * n))
    ensures Points(m, at, 2 * n, p2 == q2, p3 == q3, Conv(a, b))
  {
    hide Sh, V, P, Mul, Signed;
    var l := n + 1;
    ConvolveAt1(a.0, a.1, a.2, b.0, b.1, b.2);
    ConvolveAtM1(a.0, a.1, a.2, b.0, b.1, b.2);
    ConvolveAtM2(a.0, a.1, a.2, b.0, b.1, b.2);
    SignedProduct(p2, V(m0, u + l, l), q2, V(m0, v + l, l));
    SignedProduct(p3, V(m0, u + 2 * l, l), q3, V(m0, v + 2 * l, l));
  }

  ghost predicate Multiplied(m: seq<Digit>, m': seq<Digit>, n: nat, u: nat, v: nat, at: Places)
    requires at.Laid(2 * n, |m'|) && u + 3 * (n + 1) <= |m| && v + 3 * (n + 1) <= |m|
  {
    var l := n + 1;
    && V(m', at.t1, 2 * n + 1) == Mul(V(m, u, l), V(m, v, l))
    && V(m', at.t2, 2 * n + 1) == Mul(V(m, u + l, l), V(m, v + l, l))
    && V(m', at.t3, 2 * n + 1) == Mul(V(m, u + 2 * l, l), V(m, v + 2 * l, l))
  }

  method PointProducts(mem: Memory, n: nat, u: nat, v: nat, at: Places, ww: nat, wwn: nat, ghost size: nat)
    requires 2 * (n + 1) < size && 0 < n
    requires at.Laid(2 * n, |mem.cells|) && at.z3 + 2 * n + 1 <= ww && ww + wwn <= |mem.cells|
    requires u + 3 * (n + 1) <= at.t0 && v + 3 * (n + 1) <= at.t0
    requires SmallPoints(mem.cells, u, n) && SmallPoints(mem.cells, v, n)
    modifies mem
    ensures |mem.cells| == |old(mem.cells)|
    ensures Keeps2(old(mem.cells), mem.cells, at.t1, at.t4 - at.t1, ww, wwn)
    ensures Multiplied(old(mem.cells), mem.cells, n, u, v, at)
    decreases size, 2
  {
    hide Sh, V, P, Mul;
    ghost var m0 := mem.cells;
    var l := n + 1;
    var t1, t2, t3 := at.t1, at.t2, at.t3;
    PointProduct(mem, n, t1, u, v, ww, wwn, size);
    ghost var m1 := mem.cells;
    SameAt(m0, m1, u, n, t1, 2 * n + 2, ww, wwn);
    SameAt(m0, m1, v, n, t1, 2 * n + 2, ww, wwn);
    PointProduct(mem, n, t2, u + l, v + l, ww, wwn, size);
    ghost var m2 := mem.cells;
    SameAt(m1, m2, u, n, t2, 2 * n + 2, ww, wwn);
    SameAt(m1, m2, v, n, t2, 2 * n + 2, ww, wwn);
    PointProduct(mem, n, t3, u + 2 * l, v + 2 * l, ww, wwn, size);
    assert V(mem.cells, t1, 2 * n + 1) == V(m2, t1, 2 * n + 1) == V(m1, t1, 2 * n + 1);
    assert V(mem.cells, t2, 2 * n + 1) == V(m2, t2, 2 * n + 1);
    Keeps2Intro(m0, mem.cells, t1, at.t4 - t1, ww, wwn);
  }

  ghost predicate SmallPoints(m: seq<Digit>, u: nat, n: nat)
    requires u + 3 * (n + 1) <= |m|
  {
    && V(m, u, n + 1) < 5 * P(n)
    && V(m, u + (n + 1), n + 1) < 5 * P(n)
    && V(m, u + 2 * (n + 1), n + 1) < 5 * P(n)
  }

  lemma SignedProduct(p: bool, a: int, q: bool, b: int)
    ensures Signed(p == q, Mul(a, b)) == Mul(Signed(p, a), Signed(q, b))
  {
    NegProduct(a, b);
    NegProduct(a, -b);
  }

  lemma SignedBounds(m: seq<Digit>, u: nat, n: nat, p2: bool, p3: bool, a: (int, int, int))
    requires u + 3 * (n + 1) <= |m|
    requires Evaluated(m, u, n, p2, p3, a)
    requires 0 <= a.0 < P(n) && 0 <= a.1 < P(n) && 0 <= a.2 < P(n)
    ensures SmallPoints(m, u, n)
  {
    hide Sh, V, P;
  }

  /** One product of two evaluated points; its top digit is always zero and is dropped. */
  method PointProduct(mem: Memory, n: nat, t: nat, u: nat, v: nat, ww: nat, wwn: nat, ghost size: nat)
    requires 2 * (n + 1) < size
    requires t + 2 * n + 2 <= ww && ww + wwn <= |mem.cells|
    requires u + n + 1 <= t && v + n + 1 <= t
    requires V(mem.cells, u, n + 1) < 5 * P(n) && V(mem.cells, v, n + 1) < 5 * P(n)
    modifies mem
    ensures |mem.cells| == |old(mem.cells)|
    ensures Keeps2(old(mem.cells), mem.cells, t, 2 * n + 2, ww, wwn)
    ensures V(mem.cells, t, 2 * n + 1) == Mul(V(old(mem.cells), u, n + 1), V(old(mem.cells), v, n + 1))
    ensures mem.cells[t + 2 * n + 1] == 0
    decreases size, 1
  {
    hide Sh, V, P, Mul;
    ghost var m0 := mem.cells;
    Toom3Start(mem, t, 2 * n + 2, u, n + 1, v, n + 1, ww, wwn);
    VBound(m0, u, n + 1); VBound(m0, v, n + 1);
    PointFits(V(m0, u, n + 1), V(m0, v, n + 1), n);
    VStep(mem.cells, t, 2 * n + 1);
    VBound(mem.cells, t, 2 * n + 1);
    ghost var d := mem.cells[t + 2 * n + 1];
    ShOne(2 * n + 1); ShNone(2 * n + 1);
    if d > 0 { ShLe(1, d, 2 * n + 1); }
  }

  lemma PointFits(a: int, b: int, n: nat)
    requires 0 <= a < 5 * P(n) && 0 <= b < 5 * P(n)
    ensures Mul(a, b) < P(2 * n + 1)
  {
    hide P;
    PAdds(n, n);
    Roomy(2 * n);
    ProductLess(a, 5 * P(n), b, 5 * P(n));
    MulIs(a, b);
    Fivefold(P(n));
  }

  lemma Fivefold(p: int)
    ensures (5 * p) * (5 * p) == 25 * (p * p)
  {}

  /** bary_mul: the product, whichever way it is computed. */
  method BaryMul(mem: Memory, z: nat, zn: nat, x: nat, xn: nat, y: nat, yn: nat)
    requires z + zn <= |mem.cells| && x + xn <= |mem.cells| && y + yn <= |mem.cells|
    requires xn + yn <= zn
    requires Apart(x, xn, z, zn) && Apart(y, yn, z, zn)
    modifies mem
    ensures Keeps(old(mem.cells), mem.cells, z, zn)
    ensures V(mem.cells, z, zn) == V(old(mem.cells), x, xn) * V(old(mem.cells), y, yn)
  {
    hide Sh, V, P, Mul;
    ghost var m0 := mem.cells;
    if xn <= yn {
      if xn < KARATSUBA_MUL_DIGITS {
        if x == y && xn == yn {
          SqFast(mem, z, zn, x, xn);
        } else {
          ShortMul(mem, z, zn, x, xn, y, yn);
        }
        return;
      }
    } else {
      if yn < KARATSUBA_MUL_DIGITS {
        ShortMul(mem, z, zn, y, yn, x, xn);
        return;
      }
    }
    Toom3Start(mem, z, zn, x, xn, y, yn, 0, 0);
    MulIs(V(m0, x, xn), V(m0, y, yn));
    KeepsIntro(m0, mem.cells, z, zn);
  }
}
