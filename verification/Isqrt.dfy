/** Integer square root by Newton's method (the loop of rb_big_isqrt). */
module Isqrt {
  import opened Digits
  import opened Memory
  import opened AddSub
  import opened Shifts
  import opened Toom3Steps
  import opened Division

  /** bary_cmp: -1, 0 or 1 as x is below, equal to or above y, whatever leading zeros they have. */
  method Cmp(mem: Memory, x: nat, xn0: nat, y: nat, yn0: nat) returns (c: int)
    requires x + xn0 <= |mem.cells| && y + yn0 <= |mem.cells|
    ensures c == if V(mem.cells, x, xn0) < V(mem.cells, y, yn0) then -1
                 else if V(mem.cells, x, xn0) == V(mem.cells, y, yn0) then 0 else 1
  {
    hide Sh, V, P;
    var m := mem.cells;
    var xn := Trunc(mem, x, xn0);
    var yn := Trunc(mem, y, yn0);
    if xn < yn {
      ShorterIsLess(m, x, xn, y, yn);
      return -1;
    }
    if xn > yn {
      ShorterIsLess(m, y, yn, x, xn);
      return 1;
    }
    var i := xn;
    VEmpty(m, x + xn); VEmpty(m, y + xn);
    while i > 0 && m[x + i - 1] == m[y + i - 1]
      invariant i <= xn && V(m, x + i, xn - i) == V(m, y + i, xn - i)
    {
      i := i - 1;
      VFirst(m, x + i, xn - i - 1);
      VFirst(m, y + i, xn - i - 1);
    }
    if i == 0 {
      return 0;
    }
    VSplit(m, x, i, xn - i); VSplit(m, y, i, xn - i);
    if m[x + i - 1] < m[y + i - 1] {
      LessByTop(m, x, y, i);
      return -1;
    }
    LessByTop(m, y, x, i);
    return 1;
  }

  lemma ShorterIsLess(m: seq<Digit>, x: nat, xn: nat, y: nat, yn: nat)
    requires x + xn <= |m| && y + yn <= |m| && xn < yn && m[y + yn - 1] != 0
    ensures V(m, x, xn) < V(m, y, yn)
  {
    hide V, P;
    VBound(m, x, xn);
    TopDigitWeighs(m, y, yn);
    PMonotone(xn, yn - 1);
  }

  /** s is the integer square root of n. */
  ghost predicate IsRoot(s: int, n: int) { 0 <= s && s * s <= n < (s + 1) * (s + 1) }

  lemma RootUnique(s: int, s': int, n: int)
    requires IsRoot(s, n) && IsRoot(s', n)
    ensures s == s'
  {
    if s < s' { Squares(s + 1, s'); }
    if s' < s { Squares(s' + 1, s); }
  }

  lemma Squares(a: int, b: int)
    requires 0 <= a <= b
    ensures a * a <= b * b
  {
    MulLe(a, b, a);
    MulLe(a, b, b);
  }

  /** From any start that is not below the root of n and fits in the root's digits, the
      loop ends with exactly the root. */
  method Newton(mem: Memory, n: nat, len: nat, x: nat, xn: nat, t: nat, ghost root: int)
    requires n + len <= |mem.cells| && x + xn <= |mem.cells| && t + (xn + 1) <= |mem.cells|
    requires Apart(n, len, x, xn) && Apart(n, len, t, xn + 1) && Apart(x, xn, t, xn + 1)
    requires 2 < len && xn == (len + 1) / 2 && mem.cells[n + len - 1] != 0
    requires IsRoot(root, V(mem.cells, n, len)) && root <= V(mem.cells, x, xn)
    modifies mem
    ensures |mem.cells| == |old(mem.cells)|
    ensures Keeps2(old(mem.cells), mem.cells, x, xn, t, xn + 1)
    ensures V(mem.cells, x, xn) == root
  {
    hide Sh, V, P, Quot, Rem, IsRoot;
    ghost var m0 := mem.cells;
    ghost var vn := V(m0, n, len);
    RootIsLong(m0, n, len, xn, root);
    var tn := xn + 1;
    var go := true;
    Keeps2Intro(m0, m0, x, xn, t, tn);
    while go
      invariant |mem.cells| == |m0| && Keeps2(m0, mem.cells, x, xn, t, tn)
      invariant root <= V(mem.cells, x, xn)
      invariant !go ==> V(mem.cells, x, xn) == root
      decreases V(mem.cells, x, xn), go
    {
      ghost var m1 := mem.cells;
      ghost var vx := V(m1, x, xn);
      assert V(m1, n, len) == vn;
      TopIsSet(m1, x, xn, root);
      DivmodNormal(mem, Dest(t, tn, true), Dest(0, 0, false), n, len, x, xn);
      ghost var m2 := mem.cells;
      assert V(m2, x, xn) == vx;
      Keeps2Intro(m0, m2, x, xn, t, tn);
      var c := Cmp(mem, t, tn, x, xn);
      go := c < 0;
      if go {
        NewtonStep(mem, x, xn, t, tn);
        Keeps2Intro(m0, mem.cells, x, xn, t, tn);
        NeverBelow(vn, vx, Quot(vn, vx), root, V(mem.cells, x, xn));
      } else {
        Done(vn, vx, Quot(vn, vx), root);
      }
    }
  }

  /** x <- (x + t) / 2 */
  method NewtonStep(mem: Memory, x: nat, xn: nat, t: nat, tn0: nat)
    requires x + xn <= |mem.cells| && t + tn0 <= |mem.cells| && Apart(t, tn0, x, xn)
    requires V(mem.cells, t, tn0) < V(mem.cells, x, xn)
    modifies mem
    ensures Keeps(old(mem.cells), mem.cells, x, xn)
    ensures 2 * V(mem.cells, x, xn) <= V(old(mem.cells), x, xn) + V(old(mem.cells), t, tn0)
    ensures V(old(mem.cells), x, xn) + V(old(mem.cells), t, tn0) <= 2 * V(mem.cells, x, xn) + 1
  {
    assert Pow2(1) == 2 * Pow2(0) == 2;
    hide Sh, V, P, Pow2;
    ghost var m0 := mem.cells;
    var tn := Trunc(mem, t, tn0);
    VBound(m0, x, xn);
    if tn > xn {
      TopDigitWeighs(m0, t, tn);
      PMonotone(xn, tn - 1);
      assert false;
    }
    var carry := Add(mem, x, xn, x, xn, t, tn);
    ghost var dropped := SmallRshift(mem, x, x, xn, 1, Bit(carry));
    KeepsIntro(m0, mem.cells, x, xn);
  }

  /** The root has a non-zero top digit among its xn digits. */
  lemma RootIsLong(m: seq<Digit>, n: nat, len: nat, xn: nat, root: int)
    requires n + len <= |m| && 2 < len && xn == (len + 1) / 2 && m[n + len - 1] != 0
    requires IsRoot(root, V(m, n, len))
    ensures root >= P(xn - 1)
  {
    hide V, P;
    TopDigitWeighs(m, n, len);
    PMonotone(2 * (xn - 1), len - 1);
    PAdds(xn - 1, xn - 1);
    if root < P(xn - 1) { Squares(root + 1, P(xn - 1)); }
  }

  lemma TopIsSet(m: seq<Digit>, x: nat, xn: nat, root: int)
    requires x + xn <= |m| && 0 < xn && P(xn - 1) <= root <= V(m, x, xn)
    ensures m[x + xn - 1] != 0
  {
    hide Sh, V, P;
    VStep(m, x, xn - 1);
    VBound(m, x, xn - 1);
    ShNone(xn - 1);
  }

  /** The mean of x and n/x, rounded down, is not below the root. */
  lemma NeverBelow(n: int, x: int, t: int, root: int, mean: int)
    requires IsRoot(root, n) && 0 < x && t == Quot(n, x)
    requires 2 * mean <= x + t <= 2 * mean + 1
    ensures root <= mean
  {
    QuotRem(n, x);
    if mean < root {
      MulLe(x + t + 1, 2 * root, x);
      assert n < x * (t + 1);
      MeanSquare(root, x);
      assert false;
    }
  }

  lemma MeanSquare(s: int, x: int)
    ensures x * (2 * s - x) <= s * s
  {
    assert s * s - x * (2 * s - x) == (s - x) * (s - x);
    Square(s - x);
  }

  lemma Square(d: int)
    ensures d * d >= 0
  {
    if d >= 0 { MulLe(0, d, d); } else { MulLe(0, -d, -d); }
  }

  /** When n/x is not below x, x is the root. */
  lemma Done(n: int, x: int, t: int, root: int)
    requires IsRoot(root, n) && 0 < x && t == Quot(n, x) && x <= t && root <= x
    ensures x == root
  {
    QuotRem(n, x);
    MulLe(x, t, x);
    if root < x { Squares(root + 1, x); }
  }
}
