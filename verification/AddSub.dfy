/** Addition and subtraction with carry (bary_addc, bary_subb and their callers). */
module AddSub {
  import opened Digits
  import opened Memory

  /** The shared tail of both loops once nothing is left to carry: the rest of
      the longer operand moves over unchanged and the remaining digits are zero. */
  method CopyRest(mem: Memory, z: nat, zn: nat, y: nat, yn: nat, i0: nat)
    requires z + zn <= |mem.cells| && y + yn <= |mem.cells|
    requires yn <= zn && i0 <= zn && Source(y, yn, z, zn)
    modifies mem
    ensures Keeps(old(mem.cells), mem.cells, z + i0, zn - i0)
    ensures V(mem.cells, z, zn)
         == V(old(mem.cells), z, i0)
            + if i0 < yn then Sh(V(old(mem.cells), y + i0, yn - i0), i0) else 0
  {
    hide Sh, V;
    VEmpty(mem.cells, z + i0);
    ghost var m0 := mem.cells;
    if y == z && yn == zn {
      KeepsIntro(m0, m0, z + i0, zn - i0);
      VSplit(m0, z, i0, zn - i0);
      return;
    }
    var i := i0;
    if i < yn {
      Copy(mem, z + i, y + i, yn - i);
      i := yn;
    }
    Zero(mem, z + i, zn - i);
    ShNone(i0);
    ShNone(i);
    VSplit(mem.cells, z, i0, i - i0);
    VSplit(mem.cells, z, i, zn - i);
    KeepsIntro(m0, mem.cells, z + i0, zn - i0);
  }

  lemma AddStep(num: int, xi: Digit, yi: Digit, i: nat)
    requires 0 <= num <= 1
    ensures Sh(num + xi + yi, i) == Sh(num, i) + Sh(xi, i) + Sh(yi, i)
    ensures 0 <= BigDn(num + xi + yi) <= 1
    ensures FitsDouble(num + xi + yi)
    ensures Sh(0, i) == 0
  {
    hide Sh, BigLo, BigDn, FitsDouble;
    SmallFits(num + xi + yi);
    ShAdds(num + xi, yi, i);
    ShAdds(num, xi, i);
    ShNone(i);
    BigDnBounds(num + xi + yi, 0, 2);
  }

  /** One carry loop: adds the digits of x (if `xs`) and of y (if `ys`) from position i0 on.
      With both it runs to n; otherwise it stops once nothing is carried.
      `start` is the memory before the addition began. */
  method AddDigits(mem: Memory, z: nat, x: nat, xs: bool, y: nat, ys: bool, i0: nat, n: nat, num0: nat,
                   ghost start: seq<Digit>)
      returns (i: nat, num: nat)
    requires i0 <= n && num0 <= 1
    requires SameOutside(start, mem.cells, z, i0)
    requires z + n <= |mem.cells|
    requires ys ==> y + n <= |mem.cells| && Source(y, n, z, n)
    requires xs ==> x + n <= |mem.cells| && Source(x, n, z, n)
    modifies mem
    ensures i0 <= i <= n && num <= 1
    ensures i < n ==> num == 0 && !xs
    ensures SameOutside(start, mem.cells, z, i)
    ensures V(mem.cells, z, i) + Sh(num, i) - Part(start, y, ys, i) - Part(start, x, xs, i)
         == V(old(mem.cells), z, i0) + Sh(num0, i0) - Part(start, y, ys, i0) - Part(start, x, xs, i0)
  {
    hide Sh, BigLo, BigDn;
    ghost var m0 := mem.cells;
    i, num := i0, num0;
    while i < n && (xs || num != 0)
      invariant i0 <= i <= n && num <= 1
      invariant SameOutside(start, mem.cells, z, i)
      invariant V(mem.cells, z, i) + Sh(num, i) - Part(start, y, ys, i) - Part(start, x, xs, i)
             == V(m0, z, i0) + Sh(num0, i0) - Part(start, y, ys, i0) - Part(start, x, xs, i0)
    {
      var xi := if xs then mem.cells[x + i] else 0;
      var yi := if ys then mem.cells[y + i] else 0;
      AddStep(num, xi, yi, i);
      num := PutDigit(mem, z, i, num + xi + yi);
      i := i + 1;
    }
  }

  ghost function Part(m: seq<Digit>, p: nat, used: bool, n: nat): (r: int)
    requires used ==> p + n <= |m|
  {
    if used then V(m, p, n) else 0
  }

  method Addc(mem: Memory, z: nat, zn: nat, x: nat, xn: nat, y: nat, yn: nat, carry: bool)
      returns (c: bool)
    requires z + zn <= |mem.cells| && x + xn <= |mem.cells| && y + yn <= |mem.cells|
    requires xn <= zn && yn <= zn
    requires Source(x, xn, z, zn) && Source(y, yn, z, zn)
    modifies mem
    ensures Keeps(old(mem.cells), mem.cells, z, zn)
    ensures V(mem.cells, z, zn) + Sh(Bit(c), zn)
         == V(old(mem.cells), x, xn) + V(old(mem.cells), y, yn) + Bit(carry)
  {
    if xn > yn {
      c := AddcOrdered(mem, z, zn, y, yn, x, xn, carry);
    } else {
      c := AddcOrdered(mem, z, zn, x, xn, y, yn, carry);
    }
  }

  method AddcOrdered(mem: Memory, z: nat, zn: nat, x: nat, xn: nat, y: nat, yn: nat, carry: bool)
      returns (c: bool)
    requires z + zn <= |mem.cells| && x + xn <= |mem.cells| && y + yn <= |mem.cells|
    requires xn <= yn <= zn
    requires Source(x, xn, z, zn) && Source(y, yn, z, zn)
    modifies mem
    ensures Keeps(old(mem.cells), mem.cells, z, zn)
    ensures V(mem.cells, z, zn) + Sh(Bit(c), zn)
         == V(old(mem.cells), x, xn) + V(old(mem.cells), y, yn) + Bit(carry)
  {
    hide Sh, V, BigLo, BigDn;
    ghost var m0 := mem.cells;
    ShZero(Bit(carry));
    VEmpty(m0, z); VEmpty(m0, x); VEmpty(m0, y);
    var i, num := AddDigits(mem, z, x, true, y, true, 0, xn, Bit(carry), m0);
    i, num := AddDigits(mem, z, x, false, y, true, i, yn, num, m0);
    if i == yn {
      i, num := AddDigits(mem, z, x, false, y, false, i, zn, num, m0);
    }
    KeepsIntro(m0, mem.cells, z, i);
    c := num != 0;
    ShNone(zn);
    if !c {
      ShNone(i);
      CopyRest(mem, z, zn, y, yn, i);
      if i < yn { VSplit(m0, y, i, yn - i); }
      KeepsIntro(m0, mem.cells, z, zn);
    }
  }

  method Add(mem: Memory, z: nat, zn: nat, x: nat, xn: nat, y: nat, yn: nat) returns (c: bool)
    requires z + zn <= |mem.cells| && x + xn <= |mem.cells| && y + yn <= |mem.cells|
    requires xn <= zn && yn <= zn
    requires Source(x, xn, z, zn) && Source(y, yn, z, zn)
    modifies mem
    ensures Keeps(old(mem.cells), mem.cells, z, zn)
    ensures V(mem.cells, z, zn) + Sh(Bit(c), zn) == V(old(mem.cells), x, xn) + V(old(mem.cells), y, yn)
  {
    c := Addc(mem, z, zn, x, xn, y, yn, false);
  }

  lemma SubStep(num: int, xi: Digit, yi: Digit, i: nat)
    requires -1 <= num <= 0
    ensures Sh(num + xi - yi, i) == Sh(num, i) + Sh(xi, i) - Sh(yi, i)
    ensures -1 <= BigDn(num + xi - yi) <= 0
    ensures xi == yi == 0 && num == -1 ==> BigDn(num + xi - yi) == -1
    ensures FitsSigned(num + xi - yi)
    ensures Sh(0, i) == 0
  {
    hide Sh, BigLo, BigDn, FitsSigned;
    ShSubs(num + xi, yi, i);
    ShAdds(num, xi, i);
    ShNone(i);
    BigDnBounds(num + xi - yi, -1, 1);
    if xi == yi == 0 && num == -1 { BigDnBounds(num, -1, 0); }
    SmallFits(num + xi - yi);
  }

  /** One borrow loop, over the digits of x (if `xs`) and of y (if `ys`) from position i0 on.
      Only the loop over x alone stops early, once nothing is borrowed.
      With neither operand it stores BIGLO(-1), which is BDIGMAX. */
  method SubDigits(mem: Memory, z: nat, x: nat, xs: bool, y: nat, ys: bool, i0: nat, n: nat, num0: int,
                   ghost start: seq<Digit>)
      returns (i: nat, num: int)
    requires i0 <= n && -1 <= num0 <= 0
    requires !xs && !ys ==> num0 == -1
    requires SameOutside(start, mem.cells, z, i0)
    requires z + n <= |mem.cells|
    requires ys ==> y + n <= |mem.cells| && Source(y, n, z, n)
    requires xs ==> x + n <= |mem.cells| && Source(x, n, z, n)
    modifies mem
    ensures i0 <= i <= n && -1 <= num <= 0
    ensures i < n ==> num == 0 && xs && !ys
    ensures !xs && !ys ==> num == -1
    ensures SameOutside(start, mem.cells, z, i)
    ensures V(mem.cells, z, i) + Sh(num, i) + Part(start, y, ys, i) - Part(start, x, xs, i)
         == V(old(mem.cells), z, i0) + Sh(num0, i0) + Part(start, y, ys, i0) - Part(start, x, xs, i0)
  {
    hide Sh, BigLo, BigDn;
    ghost var m0 := mem.cells;
    i, num := i0, num0;
    while i < n && (ys || !xs || num != 0)
      invariant i0 <= i <= n && -1 <= num <= 0
      invariant !xs && !ys ==> num == -1
      invariant SameOutside(start, mem.cells, z, i)
      invariant V(mem.cells, z, i) + Sh(num, i) + Part(start, y, ys, i) - Part(start, x, xs, i)
             == V(m0, z, i0) + Sh(num0, i0) + Part(start, y, ys, i0) - Part(start, x, xs, i0)
    {
      var xi := if xs then mem.cells[x + i] else 0;
      var yi := if ys then mem.cells[y + i] else 0;
      SubStep(num, xi, yi, i);
      num := PutDigit(mem, z, i, num + xi - yi);
      i := i + 1;
    }
  }

  method Subb(mem: Memory, z: nat, zn: nat, x: nat, xn: nat, y: nat, yn: nat, borrow: bool)
      returns (b: bool)
    requires z + zn <= |mem.cells| && x + xn <= |mem.cells| && y + yn <= |mem.cells|
    requires xn <= zn && yn <= zn
    requires Source(x, xn, z, zn) && Source(y, yn, z, zn)
    modifies mem
    ensures Keeps(old(mem.cells), mem.cells, z, zn)
    ensures V(mem.cells, z, zn) - Sh(Bit(b), zn)
         == V(old(mem.cells), x, xn) - V(old(mem.cells), y, yn) - Bit(borrow)
  {
    hide Sh, V, BigLo, BigDn;
    ghost var m0 := mem.cells;
    var sn := if xn < yn then xn else yn;
    var num := if borrow then -1 else 0;
    ShZero(num);
    VEmpty(m0, z); VEmpty(m0, x); VEmpty(m0, y);
    var i;
    i, num := SubDigits(mem, z, x, true, y, true, 0, sn, num, m0);
    if yn <= xn {
      i, num := SubDigits(mem, z, x, true, y, false, i, xn, num, m0);
    } else {
      i, num := SubDigits(mem, z, x, false, y, true, i, yn, num, m0);
    }
    KeepsIntro(m0, mem.cells, z, i);
    ShNone(i); ShNone(zn);
    b := num != 0;
    if b {
      i, num := SubDigits(mem, z, x, false, y, false, i, zn, num, m0);
      ShNeg(1, zn);
      KeepsIntro(m0, mem.cells, z, zn);
    } else {
      CopyRest(mem, z, zn, x, xn, i);
      if i < xn { VSplit(m0, x, i, xn - i); }
      KeepsIntro(m0, mem.cells, z, zn);
    }
  }

  method Sub(mem: Memory, z: nat, zn: nat, x: nat, xn: nat, y: nat, yn: nat) returns (b: bool)
    requires z + zn <= |mem.cells| && x + xn <= |mem.cells| && y + yn <= |mem.cells|
    requires xn <= zn && yn <= zn
    requires Source(x, xn, z, zn) && Source(y, yn, z, zn)
    modifies mem
    ensures Keeps(old(mem.cells), mem.cells, z, zn)
    ensures V(mem.cells, z, zn) - Sh(Bit(b), zn) == V(old(mem.cells), x, xn) - V(old(mem.cells), y, yn)
  {
    b := Subb(mem, z, zn, x, xn, y, yn, false);
  }

  method SubOne(mem: Memory, z: nat, zn: nat) returns (b: bool)
    requires z + zn <= |mem.cells|
    modifies mem
    ensures Keeps(old(mem.cells), mem.cells, z, zn)
    ensures V(mem.cells, z, zn) - Sh(Bit(b), zn) == V(old(mem.cells), z, zn) - 1
  {
    b := Subb(mem, z, zn, z, zn, z, 0, true);
  }

  method AddOne(mem: Memory, z: nat, n: nat) returns (c: bool)
    requires z + n <= |mem.cells|
    modifies mem
    ensures Keeps(old(mem.cells), mem.cells, z, n)
    ensures V(mem.cells, z, n) + Sh(Bit(c), n) == V(old(mem.cells), z, n) + 1
  {
    hide Sh, V, BigLo, BigDn;
    ghost var m0 := mem.cells;
    VEmpty(m0, z); ShZero(1);
    var i := 0;
    while i < n
      invariant i <= n
      invariant Keeps(m0, mem.cells, z, i)
      invariant V(mem.cells, z, i) + Sh(1, i) == V(m0, z, i) + 1
    {
      var d := mem.cells[z + i] as int + 1;
      AddStep(1, mem.cells[z + i], 0, i);
      VStep(m0, z, i);
      ghost var m1 := mem.cells;
      var rest := PutDigit(mem, z, i, d);
      i := i + 1;
      KeepsIntro(m0, mem.cells, z, i);
      if mem.cells[z + i - 1] != 0 {
        NonZeroLow(d);
        ShNone(i); ShNone(n);
        VSplit(m0, z, i, n - i);
        VSplit(mem.cells, z, i, n - i);
        KeepsIntro(m0, mem.cells, z, n);
        return false;
      }
      ZeroLow(d);
    }
    return true;
  }

  lemma NonZeroLow(d: int)
    requires 1 <= d <= BIGRAD && BigLo(d) != 0
    ensures BigDn(d) == 0
  {
    LoDn(d);
    if d < BIGRAD { BigSmall(d); } else { BigDnBounds(d, 1, 2); }
  }

  lemma ZeroLow(d: int)
    requires 1 <= d <= BIGRAD && BigLo(d) == 0
    ensures BigDn(d) == 1
  {
    LoDn(d);
    if d < BIGRAD { BigSmall(d); } else { BigDnBounds(d, 1, 2); }
  }
}
