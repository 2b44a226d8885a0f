/** Long division by a trial quotient digit (bigdivrem1, bigdivrem_restoring,
    bary_divmod_normal, bary_divmod). */
module Division {
  import opened Digits
  import opened Memory
  import opened AddSub
  import opened Shifts
  import opened Schoolbook
  import opened DigitDivision
  import opened Toom3Steps

  // ----- the trial digit

  /** The two ways the trial digit is chosen, from the top two digits of the window
      and the top digit of the divisor. */
  function Trial(top: Digit, next: Digit, yt: Digit): (q: int)
    requires 0 < yt
  {
    if top == yt then BIGRAD - 1 else Quot(top * BIGRAD + next, yt)
  }

  /** What makes the trial digit good, on plain numbers: w is the window, y the divisor, p the weight
      of the divisor's top digit yt, and the window is below BIGRAD * y. */
  lemma TrialBounds(top: Digit, next: Digit, rest: int, yt: Digit, yl: int, p: int, w: int, y: int, q: int)
    requires 0 < p && 0 <= rest < p && 0 <= yl < p
    requires top <= yt && BIGRAD <= 2 * yt as int
    requires w == (top * BIGRAD + next) * p + rest && y == yt * p + yl && w < BIGRAD * y
    requires q == Trial(top, next, yt)
    ensures 0 <= q < BIGRAD
    ensures w < (q + 1) * y
    ensures w - q * y > -(p * BIGRAD)
    ensures w - q * y > -2 * y
  {
    hide Quot, Rem;
    var two := top * BIGRAD + next;
    TrialDigit(top, next, yt);
    assert q * yt <= two;
    TrialLow(q, yt, yl, p, two, rest);
    assert w - q * y > -(p * BIGRAD);
    assert p * BIGRAD <= 2 * y by { MulLe(BIGRAD, 2 * yt as int, p); MulAssoc(2, yt, p); }
    if top != yt { TrialHigh(q, yt, yl, p, two, rest); }
  }

  lemma TrialDigit(top: Digit, next: Digit, yt: Digit)
    requires top <= yt && 0 < yt
    ensures var q, two := Trial(top, next, yt), top * BIGRAD + next;
            0 <= q < BIGRAD && q * yt <= two && (top != yt ==> two < (q + 1) * yt)
  {
    if top != yt { DivDigit(top, next, yt); }
  }

  lemma TrialLow(q: int, yt: int, yl: int, p: int, two: int, rest: int)
    requires 0 <= q < BIGRAD && q * yt <= two && 0 <= yl < p && 0 <= rest
    ensures two * p + rest - q * (yt * p + yl) > -(p * BIGRAD)
  {
    MulLe(q * yt, two, p);
    MulAssoc(q, yt, p);
    ProductLess(q, BIGRAD, yl, p);
    assert q * (yt * p + yl) == q * (yt * p) + q * yl;
  }

  lemma TrialHigh(q: int, yt: int, yl: int, p: int, two: int, rest: int)
    requires two < (q + 1) * yt && 0 <= yl && 0 <= q && 0 <= rest < p
    ensures two * p + rest < (q + 1) * (yt * p + yl)
  {
    MulLe(two + 1, (q + 1) * yt, p);
    MulAssoc(q + 1, yt, p);
    MulLe(0, q + 1, yl);
    assert (q + 1) * (yt * p + yl) == (q + 1) * (yt * p) + (q + 1) * yl;
  }

  // ----- one quotient digit

  /** The divisor is normalised: its top bit is set. */
  ghost predicate Normal(m: seq<Digit>, y: nat, yn: nat) {
    0 < yn && y + yn <= |m| && BIGRAD <= 2 * m[y + yn - 1] as int
  }

  /** One pass of the loop: the window of yn+1 digits at p becomes q and, in its low yn
      digits, the remainder.  `rounds` is how often the divisor had to be added back. */
  method QuotientDigit(mem: Memory, p: nat, y: nat, yn: nat) returns (q: Digit, ghost rounds: nat)
    requires p + yn + 1 <= |mem.cells| && Normal(mem.cells, y, yn) && Apart(y, yn, p, yn + 1)
    requires V(mem.cells, p + 1, yn) < V(mem.cells, y, yn)
    modifies mem
    ensures Keeps(old(mem.cells), mem.cells, p, yn)
    ensures V(old(mem.cells), p, yn + 1) == Mul(q, V(old(mem.cells), y, yn)) + V(mem.cells, p, yn)
    ensures V(mem.cells, p, yn) < V(old(mem.cells), y, yn)
    ensures rounds <= 2
  {
    hide Sh, V, P, Mul, Quot, Rem, Trial;
    ghost var m0 := mem.cells;
    ghost var w, vy := V(m0, p, yn + 1), V(m0, y, yn);
    var yt := mem.cells[y + yn - 1];
    WindowTrial(m0, p, y, yn);
    var t := if mem.cells[p + yn] == yt then BIGRAD - 1
             else Quot(mem.cells[p + yn] * BIGRAD + mem.cells[p + yn - 1], yt);
    TrialIs(mem.cells[p + yn], mem.cells[p + yn - 1], yt, t);
    q := t;
    rounds := 0;
    VBound(m0, y, yn);
    if q != 0 {
      MulIs(q, vy);
      var num := DivMulSub(mem, p, q, y, yn);
      q, rounds := AddBack(mem, p, y, yn, q, num, m0);
    } else {
      MulNone(vy); MulComm(0, vy); MulIs(1, vy);
      SmallWindow(m0, p, yn, vy);
      KeepsIntro(m0, m0, p, yn);
    }
  }

  lemma TrialIs(top: Digit, next: Digit, yt: Digit, q: int)
    requires 0 < yt
    requires q == if top == yt then BIGRAD - 1 else Quot(top * BIGRAD + next, yt)
    ensures q == Trial(top, next, yt)
  {}

  /** A window below the divisor has nothing in its top digit. */
  lemma SmallWindow(m: seq<Digit>, p: nat, yn: nat, vy: int)
    requires p + yn + 1 <= |m| && V(m, p, yn + 1) < vy < P(yn)
    ensures V(m, p, yn) == V(m, p, yn + 1)
  {
    hide Sh, V, P;
    VStep(m, p, yn);
    VBound(m, p, yn);
    ShOne(yn); ShNone(yn);
    if m[p + yn] >= 1 { ShLe(1, m[p + yn], yn); }
  }

  lemma WindowTrial(m: seq<Digit>, p: nat, y: nat, yn: nat)
    requires p + yn + 1 <= |m| && Normal(m, y, yn)
    requires V(m, p + 1, yn) < V(m, y, yn)
    ensures m[p + yn] <= m[y + yn - 1]
    ensures var q := Trial(m[p + yn], m[p + yn - 1], m[y + yn - 1]);
            && 0 <= q < BIGRAD
            && V(m, p, yn + 1) < Mul(q + 1, V(m, y, yn))
            && V(m, p, yn + 1) - Mul(q, V(m, y, yn)) > -P(yn)
            && V(m, p, yn + 1) - Mul(q, V(m, y, yn)) > -2 * V(m, y, yn)
  {
    hide Sh, V, P, Mul, Trial;
    var top, next, yt := m[p + yn], m[p + yn - 1], m[y + yn - 1];
    var n := yn - 1;
    VStep(m, p + 1, n); VStep(m, y, n); VStep(m, p, yn); VStep(m, p, n);
    VBound(m, p + 1, n); VBound(m, y, n); VBound(m, p, n); VBound(m, p + 1, yn);
    TopOrder(top, V(m, p + 1, n), yt, V(m, y, n), n);
    WindowParts(top, next, V(m, p, n), n);
    YParts(yt, V(m, y, n), n);
    VFirst(m, p, yn);
    BelowBase(m[p], V(m, p + 1, yn), V(m, y, yn));
    PStep(n);
    var q := Trial(top, next, yt);
    TrialBounds(top, next, V(m, p, n), yt, V(m, y, n), P(n), V(m, p, yn + 1), V(m, y, yn), q);
    MulIs(q, V(m, y, yn)); MulIs(q + 1, V(m, y, yn));
  }

  lemma PStep(n: nat)
    ensures P(n + 1) == P(n) * BIGRAD
  {}

  lemma TopOrder(a: int, la: int, b: int, lb: int, n: nat)
    requires 0 <= la && lb < P(n) && la + Sh(a, n) < lb + Sh(b, n)
    ensures a <= b
  {
    hide Sh, P;
    if a > b {
      ShLe(b + 1, a, n);
      ShAdds(b, 1, n);
      ShOne(n);
    }
  }

  lemma WindowParts(top: int, next: int, rest: int, n: nat)
    ensures (rest + Sh(next, n)) + Sh(top, n + 1) == (top * BIGRAD + next) * P(n) + rest
  {
    ShBase(top, n);
    ShAdds(top * BIGRAD, next, n);
  }

  lemma YParts(yt: int, yl: int, n: nat)
    ensures yl + Sh(yt, n) == yt * P(n) + yl
  {}

  lemma BelowBase(d: Digit, v: int, y: int)
    requires 0 <= v < y
    ensures d + Sh(v, 1) < BIGRAD * y
  {
    ShBase(v, 0);
    ShZero(v * BIGRAD);
    MulLe(v + 1, y, BIGRAD);
  }

  /** "Add back": while the remainder is negative the digit was too large.  The loop knows only
      whether something was borrowed, not how much, and that is enough. */
  method AddBack(mem: Memory, p: nat, y: nat, yn: nat, q0: Digit, num0: int, ghost m0: seq<Digit>)
      returns (q: Digit, ghost rounds: nat)
    requires |m0| == |mem.cells| && p + yn + 1 <= |m0| && y + yn <= |m0| && Apart(y, yn, p, yn + 1)
    requires Keeps(m0, mem.cells, p, yn)
    requires V(mem.cells, p, yn) + Sh(num0, yn) == V(m0, p, yn + 1) - Mul(q0, V(m0, y, yn))
    requires V(m0, p, yn + 1) < Mul(q0 + 1 as int, V(m0, y, yn))
    requires V(m0, p, yn + 1) - Mul(q0, V(m0, y, yn)) > -P(yn)
    requires V(m0, p, yn + 1) - Mul(q0, V(m0, y, yn)) > -2 * V(m0, y, yn)
    requires 0 <= V(m0, y, yn) < P(yn)
    modifies mem
    ensures Keeps(m0, mem.cells, p, yn)
    ensures V(m0, p, yn + 1) == Mul(q, V(m0, y, yn)) + V(mem.cells, p, yn)
    ensures V(mem.cells, p, yn) < V(m0, y, yn)
    ensures rounds <= 2
  {
    hide Sh, V, P, Mul;
    ghost var w, vy := V(m0, p, yn + 1), V(m0, y, yn);
    q, rounds := q0, 0;
    var num := num0;
    VBound(mem.cells, p, yn); VBound(m0, p, yn + 1);
    StepUp(q, vy);
    OneBorrow(V(mem.cells, p, yn), num, yn, w - Mul(q, vy));
    while num != 0
      invariant Keeps(m0, mem.cells, p, yn)
      invariant -1 <= num <= 0
      invariant V(mem.cells, p, yn) + Sh(num, yn) == w - Mul(q, vy)
      invariant num == -1 <==> w - Mul(q, vy) < 0
      invariant w - Mul(q, vy) < vy
      invariant w - Mul(q, vy) > -(2 - rounds) * vy
      invariant rounds <= 2
      decreases q
    {
      NotZero(q, vy, w);
      assert V(mem.cells, y, yn) == vy;
      var c := Add(mem, p, yn, p, yn, y, yn);
      StepDown(q, vy);
      TwoLess(rounds, vy);
      q := q - 1;
      rounds := rounds + 1;
      num := Bit(c) - 1;
      ShSubs(Bit(c), 1, yn); ShNeg(1, yn);
      KeepsIntro(m0, mem.cells, p, yn);
      VBound(mem.cells, p, yn);
      OneBorrow(V(mem.cells, p, yn), num, yn, w - Mul(q, vy));
    }
    ShNone(yn);
  }

  lemma StepUp(q: int, v: int)
    ensures Mul(q + 1, v) == Mul(q, v) + v
  {}

  lemma StepDown(q: int, v: int)
    ensures Mul(q - 1, v) == Mul(q, v) - v
  {}

  lemma TwoLess(rounds: int, v: int)
    requires 0 <= v
    ensures -(2 - (rounds + 1)) * v == -(2 - rounds) * v + v
    ensures rounds >= 2 ==> -(2 - rounds) * v >= 0
  {}

  lemma NotZero(q: int, v: int, w: int)
    requires 0 <= w && 0 <= q && w - Mul(q, v) < 0
    ensures q > 0
  {}

  /** What is borrowed is 1 if the remainder is negative, else nothing. */
  lemma OneBorrow(d: int, num: int, n: nat, r: int)
    requires 0 <= d < P(n) && d + Sh(num, n) == r && -P(n) < r < P(n)
    ensures -1 <= num <= 0 && (num == -1 <==> r < 0)
  {
    hide Sh, P;
    ShOne(n); ShNone(n); ShNeg(1, n);
    ShAdds(-1, -1, n);
    if num >= 1 { ShLe(1, num, n); }
    if num <= -2 { ShLe(num, -2, n); }
  }

  // ----- the loop

  /** zds ends up holding the quotient above the remainder.  Not interrupted: the stop flag that
      another thread may set is not part of the model. */
  method DivRem1(mem: Memory, z: nat, zn0: nat, y: nat, yn: nat)
    requires z + zn0 <= |mem.cells| && Normal(mem.cells, y, yn) && Apart(y, yn, z, zn0)
    requires yn < zn0 && V(mem.cells, z + (zn0 - yn), yn) < V(mem.cells, y, yn)
    modifies mem
    ensures Keeps(old(mem.cells), mem.cells, z, zn0)
    ensures V(old(mem.cells), z, zn0)
         == Mul(V(mem.cells, z + yn, zn0 - yn), V(old(mem.cells), y, yn)) + V(mem.cells, z, yn)
    ensures V(mem.cells, z, yn) < V(old(mem.cells), y, yn)
  {
    hide Sh, V, P, Mul;
    ghost var m0 := mem.cells;
    ghost var vy := V(m0, y, yn);
    var zn := zn0;
    VEmpty(m0, z + zn0);
    MulNone(vy); MulComm(0, vy); ShNone(zn0 - yn);
    KeepsIntro(m0, m0, z, zn0);
    while zn > yn
      invariant yn <= zn <= zn0
      invariant Keeps(m0, mem.cells, z, zn0)
      invariant V(mem.cells, z + (zn - yn), yn) < vy
      invariant V(m0, z, zn0) == V(mem.cells, z, zn) + Sh(Mul(V(mem.cells, z + zn, zn0 - zn), vy), zn - yn)
    {
      DivPass(mem, z, zn0, y, yn, zn, m0);
      zn := zn - 1;
    }
    ShZero(Mul(V(mem.cells, z + yn, zn0 - yn), vy));
  }

  method DivPass(mem: Memory, z: nat, zn0: nat, y: nat, yn: nat, zn: nat, ghost m0: seq<Digit>)
    requires z + zn0 <= |m0| && Normal(m0, y, yn) && Apart(y, yn, z, zn0) && yn < zn <= zn0
    requires Keeps(m0, mem.cells, z, zn0)
    requires V(mem.cells, z + (zn - yn), yn) < V(m0, y, yn)
    requires V(m0, z, zn0)
          == V(mem.cells, z, zn) + Sh(Mul(V(mem.cells, z + zn, zn0 - zn), V(m0, y, yn)), zn - yn)
    modifies mem
    ensures Keeps(m0, mem.cells, z, zn0)
    ensures V(mem.cells, z + (zn - 1 - yn), yn) < V(m0, y, yn)
    ensures V(m0, z, zn0)
         == V(mem.cells, z, zn - 1)
            + Sh(Mul(V(mem.cells, z + (zn - 1), zn0 - (zn - 1)), V(m0, y, yn)), zn - 1 - yn)
  {
    hide Sh, V, P, Mul;
    ghost var m1 := mem.cells;
    ghost var k := zn - 1 - yn;
    ghost var vy := V(m0, y, yn);
    var p := z + (zn - 1 - yn);
    assert mem.cells[y + yn - 1] == m0[y + yn - 1];
    assert V(m1, y, yn) == vy;
    var q, rounds := QuotientDigit(mem, p, y, yn);
    ghost var m2 := mem.cells;
    mem.cells := mem.cells[z + (zn - 1) := q];
    KeepsIntro(m2, mem.cells, z + (zn - 1), 1);
    KeepsIntro(m0, mem.cells, z, zn0);
    VSplit(m1, z, k, yn + 1);
    VSplit(mem.cells, z, k, yn);
    assert V(mem.cells, z, k) == V(m2, z, k) == V(m1, z, k);
    assert V(mem.cells, p, yn) == V(m2, p, yn);
    VFirst(mem.cells, z + (zn - 1), zn0 - zn);
    assert V(mem.cells, z + zn, zn0 - zn) == V(m2, z + zn, zn0 - zn) == V(m1, z + zn, zn0 - zn);
    PassSum(V(mem.cells, p, yn), q, V(m1, z + zn, zn0 - zn), vy, k);
  }

  lemma PassSum(r: int, q: int, quo: int, vy: int, k: nat)
    ensures Sh(Mul(q, vy) + r, k) + Sh(Mul(quo, vy), k + 1)
         == Sh(r, k) + Sh(Mul(q + Sh(quo, 1), vy), k)
  {
    hide Sh, Mul, P;
    ShAdds(Mul(q, vy), r, k);
    MulComm(q + Sh(quo, 1), vy);
    MulAdds(vy, q, Sh(quo, 1));
    MulComm(vy, q); MulComm(vy, quo);
    MulSh(vy, quo, 1);
    ShAdds(Mul(q, vy), Sh(Mul(quo, vy), 1), k);
    ShSh(Mul(quo, vy), 1, k);
  }

  // ----- skipping the divisor's low zero digits

  /** The contract of a division in place: quotient above remainder. */
  ghost predicate Divided(a: seq<Digit>, b: seq<Digit>, z: nat, zn: nat, y: nat, yn: nat)
    requires z + zn <= |a| && y + yn <= |a| && yn <= zn
  {
    && Keeps(a, b, z, zn)
    && V(a, z, zn) == Mul(V(b, z + yn, zn - yn), V(a, y, yn)) + V(b, z, yn)
    && V(b, z, yn) < V(a, y, yn)
  }

  method Restoring(mem: Memory, z: nat, zn: nat, y: nat, yn: nat)
    requires z + zn <= |mem.cells| && Normal(mem.cells, y, yn) && Apart(y, yn, z, zn)
    requires yn < zn && mem.cells[z + zn - 1] < mem.cells[y + yn - 1]
    modifies mem
    ensures Divided(old(mem.cells), mem.cells, z, zn, y, yn)
  {
    hide Sh, V, P, Mul;
    ghost var m0 := mem.cells;
    var k := 0;
    VEmpty(m0, y);
    while mem.cells[y + k] == 0
      invariant k < yn && V(m0, y, k) == 0 && mem.cells == m0
      decreases yn - k
    {
      VStep(m0, y, k);
      ShNone(k);
      k := k + 1;
    }
    VSplit(m0, y, k, yn - k);
    VSplit(m0, z, k, zn - k);
    if k + 1 == yn {
      VOne(m0, y + k);
      VStep(m0, z + k, zn - yn);
      var y0 := mem.cells[y + k];
      var r := DivSingle1(mem, z + yn, z + k, zn - yn, mem.cells[z + zn - 1], y0);
      ghost var m1 := mem.cells;
      MulComm(y0, V(m1, z + yn, zn - yn));
      MulIs(y0, V(m1, z + yn, zn - yn));
      mem.cells := mem.cells[z + k := r];
      KeepsIntro(m1, mem.cells, z + k, 1);
      VOne(mem.cells, z + k);
    } else {
      LessByTop(m0, z + (zn - (yn - k)), y + k, yn - k);
      DivRem1(mem, z + k, zn - k, y + k, yn - k);
    }
    KeepsIntro(m0, mem.cells, z, zn);
    Unskip(m0, mem.cells, z, zn, y, yn, k);
  }

  lemma LessByTop(m: seq<Digit>, a: nat, b: nat, n: nat)
    requires 0 < n && a + n <= |m| && b + n <= |m| && m[a + n - 1] < m[b + n - 1]
    ensures V(m, a, n) < V(m, b, n)
  {
    hide Sh, V, P;
    VStep(m, a, n - 1); VStep(m, b, n - 1);
    VBound(m, a, n - 1); VBound(m, b, n - 1);
    ShLe(m[a + n - 1] as int + 1, m[b + n - 1], n - 1);
    ShAdds(m[a + n - 1], 1, n - 1);
    ShOne(n - 1);
  }

  /** Division of the upper digits is division of all of them, when the divisor has none below. */
  lemma Unskip(m0: seq<Digit>, m: seq<Digit>, z: nat, zn: nat, y: nat, yn: nat, k: nat)
    requires z + zn <= |m0| == |m| && y + yn <= |m0| && k < yn <= zn
    requires V(m0, y, k) == 0
    requires Keeps(m0, m, z, zn) && V(m, z, k) == V(m0, z, k)
    requires V(m0, z + k, zn - k) == Mul(V(m, z + yn, zn - yn), V(m0, y + k, yn - k)) + V(m, z + k, yn - k)
    requires V(m, z + k, yn - k) < V(m0, y + k, yn - k)
    ensures Divided(m0, m, z, zn, y, yn)
  {
    hide Sh, V, P, Mul;
    var quo, y', r' := V(m, z + yn, zn - yn), V(m0, y + k, yn - k), V(m, z + k, yn - k);
    VSplit(m0, y, k, yn - k); VSplit(m0, z, k, zn - k); VSplit(m, z, k, yn - k);
    VBound(m, z, k);
    ShAdds(Mul(quo, y'), r', k);
    MulSh(quo, y', k);
    ShLe(r' + 1, y', k);
    ShAdds(r', 1, k);
    ShOne(k);
  }

  // ----- normalising

  /** Number of leading zero bits of a digit. */
  function Nlz(d: Digit): (r: nat)
    requires 0 < d
    ensures Pow2(r) * d < BIGRAD <= 2 * (Pow2(r) * d)
    decreases BIGRAD - d
  {
    if BIGRAD <= 2 * d as int then 0
    else
      var r := Nlz(2 * d as int);
      DoubleOnce(Pow2(r), d);
      1 + r
  }

  lemma DoubleOnce(p: int, d: int)
    ensures (2 * p) * d == p * (2 * d)
  {}

  /** x and y, each times f = Pow2(shift), so that y's top bit is set. */
  ghost predicate Scaled(m0: seq<Digit>, m: seq<Digit>, zz: nat, yy: nat, x: nat, xn: nat, y: nat, yn: nat, f: int)
    requires x + xn <= |m0| && y + yn <= |m0|
  {
    && zz + xn + 1 <= |m| && Normal(m, yy, yn) && Apart(yy, yn, zz, xn + 1)
    && m[zz + xn] < m[yy + yn - 1]
    && V(m, zz, xn + 1) == Mul(f, V(m0, x, xn))
    && V(m, yy, yn) == Mul(f, V(m0, y, yn))
  }

  /** Shifts both operands into place. */
  method ShiftBoth(mem: Memory, zz: nat, yy: nat, x: nat, xn: nat, y: nat, yn: nat, shift: nat)
    requires x + xn <= |mem.cells| && y + yn <= |mem.cells| && zz + xn + 1 <= |mem.cells| && yy + yn <= |mem.cells|
    requires 0 < yn && 0 < mem.cells[y + yn - 1] && shift == Nlz(mem.cells[y + yn - 1])
    requires Apart(x, xn, zz, xn + 1) && Apart(y, yn, zz, xn + 1)
    requires Apart(y, yn, yy, yn) && Apart(yy, yn, zz, xn + 1)
    modifies mem
    ensures |mem.cells| == |old(mem.cells)|
    ensures SameOutside2(old(mem.cells), mem.cells, zz, xn + 1, yy, yn)
    ensures Scaled(old(mem.cells), mem.cells, zz, yy, x, xn, y, yn, Pow2(shift))
  {
    hide Sh, V, P, Mul, Pow2, Nlz;
    ghost var m0 := mem.cells;
    ghost var yt := mem.cells[y + yn - 1];
    ghost var f := Pow2(shift);
    NormalFactor(yt);
    var out := SmallLshift(mem, zz, x, xn, shift);
    ghost var m1 := mem.cells;
    mem.cells := mem.cells[zz + xn := out];
    KeepsIntro(m1, mem.cells, zz + xn, 1);
    VStep(mem.cells, zz, xn);
    ghost var m2 := mem.cells;
    assert V(m2, zz, xn + 1) == f * V(m0, x, xn);
    assert V(m2, y, yn) == V(m0, y, yn) && m2[y + yn - 1] == yt;
    var out2 := SmallLshift(mem, yy, y, yn, shift);
    MulIs(f, V(m0, x, xn)); MulIs(f, V(m0, y, yn));
    assert V(mem.cells, zz, xn + 1) == V(m2, zz, xn + 1);
    ScaledTop(m0, mem.cells, yy, y, yn, f, out2);
  }

  lemma NormalFactor(yt: Digit)
    requires 0 < yt
    ensures var f := Pow2(Nlz(yt)); 2 * f <= BIGRAD && f < BIGRAD
  {
    hide Nlz;
    var f := Pow2(Nlz(yt));
    MulLe(1, yt, f);
    var g := Pow2Divides(Nlz(yt), BIGRAD);
    MulLe(2, g, f);
  }

  /** Nothing is shifted out of the divisor, and its top digit is at least half the base. */
  lemma ScaledTop(m0: seq<Digit>, m: seq<Digit>, yy: nat, y: nat, yn: nat, f: int, out: Digit)
    requires 0 < yn && y + yn <= |m0| && yy + yn <= |m| && 0 < m0[y + yn - 1]
    requires f == Pow2(Nlz(m0[y + yn - 1]))
    requires V(m, yy, yn) + Sh(out, yn) == Mul(f, V(m0, y, yn))
    ensures out == 0 && V(m, yy, yn) == Mul(f, V(m0, y, yn))
    ensures BIGRAD <= 2 * m[yy + yn - 1] as int
  {
    hide Sh, V, P, Mul, Pow2, Nlz;
    var yt, n := m0[y + yn - 1], yn - 1;
    var vl, t := V(m0, y, n), m[yy + yn - 1];
    VStep(m0, y, n); VBound(m0, y, n);
    VStep(m, yy, n); VBound(m, yy, n); VBound(m, yy, yn);
    ScaledBounds(f, yt, vl, n);
    ShOne(yn); ShNone(yn);
    if out >= 1 { ShLe(1, out, yn); }
    TopAtLeast(t, V(m, yy, n), f * yt, n);
  }

  /** The top digit of a number is what the number is at least. */
  lemma TopAtLeast(t: Digit, low: int, s: int, n: nat)
    requires 0 <= low < P(n) && low + Sh(t, n) >= Sh(s, n)
    ensures t >= s
  {
    hide Sh, P;
    if t as int + 1 <= s {
      ShLe(t as int + 1, s, n);
      ShAdds(t, 1, n);
      ShOne(n);
    }
  }

  lemma ScaledBounds(f: int, yt: Digit, vl: int, n: nat)
    requires 0 < yt && f == Pow2(Nlz(yt)) && 0 <= vl < P(n)
    ensures Mul(f, vl + Sh(yt, n)) < P(n + 1)
    ensures Mul(f, vl + Sh(yt, n)) >= Sh(f * yt, n)
    ensures BIGRAD <= 2 * (f * yt)
  {
    hide Pow2, Nlz, P, Sh, Mul;
    var g := Pow2Divides(Nlz(yt), BIGRAD) by { MulLe(1, yt, f); }
    if yt >= g { MulLe(g, yt, f); }
    MulLe(yt as int + 1, g, f);
    assert f * (yt as int + 1) <= BIGRAD;
    MulAdds(f, vl, Sh(yt, n));
    MulSh(f, yt, n); MulIs(f, yt);
    FactorLow(f, vl, n);
    ShAdds(f * yt, f, n);
    ShLe(f * yt + f, BIGRAD, n);
    ShBase(1, n); ShOne(n + 1);
  }

  lemma FactorLow(f: int, v: int, n: nat)
    requires 0 < f && 0 <= v < P(n)
    ensures 0 <= Mul(f, v) < Sh(f, n)
  {
    MulLe(0, v, f);
    MulLe(v + 1, P(n), f);
  }

  /** Where the optional results go: a null pointer is an area of no digits that is not asked for. */
  datatype Dest = Dest(p: nat, n: nat, wanted: bool) {
    predicate Fits(need: nat) { if wanted then need <= n else n == 0 }
  }

  /** Operands and results of a division lie apart. */
  ghost predicate DivArea(m: seq<Digit>, q: Dest, r: Dest, x: nat, xn: nat, y: nat, yn: nat) {
    && q.p + q.n <= |m| && r.p + r.n <= |m| && x + xn <= |m| && y + yn <= |m|
    && Apart(q.p, q.n, r.p, r.n) && Apart(x, xn, q.p, q.n) && Apart(y, yn, q.p, q.n)
    && Apart(x, xn, r.p, r.n) && Apart(y, yn, r.p, r.n)
  }

  /** The divisor's top digit is not zero and it is no longer than the dividend.
      Quotient and remainder are those of integer division. */
  method DivmodNormal(mem: Memory, q: Dest, r: Dest, x: nat, xn: nat, y: nat, yn: nat)
    requires DivArea(mem.cells, q, r, x, xn, y, yn)
    requires 0 < yn <= xn && mem.cells[y + yn - 1] != 0
    requires q.Fits(xn - yn + 1) && r.Fits(yn)
    modifies mem
    ensures |mem.cells| == |old(mem.cells)|
    ensures Keeps2(old(mem.cells), mem.cells, q.p, q.n, r.p, r.n)
    ensures V(old(mem.cells), y, yn) > 0
    ensures q.wanted ==> V(mem.cells, q.p, q.n) == Quot(V(old(mem.cells), x, xn), V(old(mem.cells), y, yn))
    ensures r.wanted ==> V(mem.cells, r.p, r.n) == Rem(V(old(mem.cells), x, xn), V(old(mem.cells), y, yn))
  {
    hide Sh, V, P, Mul, Pow2, Nlz, Quot, Rem, Scaled, Divided;
    ghost var m0 := mem.cells;
    var base := |mem.cells|;
    var zz, yy, shift := DivSetup(mem, q, r, x, xn, y, yn);
    ghost var m1 := mem.cells;
    ScaledUse(m0, m1, zz, yy, x, xn, y, yn, Pow2(shift));
    Restoring(mem, zz, xn + 1, yy, yn);
    ghost var m2 := mem.cells;
    DividedSame(m1, m2, zz, xn + 1, yy, yn);
    Unscale(m0, m1, m2, zz, yy, x, xn, y, yn, shift);
    DivOutput(mem, q, r, zz, xn + 1, yn, shift, V(m0, x, xn), V(m0, y, yn));
    ghost var m3 := mem.cells;
    Release(mem, base);
    Keeps2Intro(m0, mem.cells, q.p, q.n, r.p, r.n);
    assert V(mem.cells, q.p, q.n) == V(m3, q.p, q.n) && V(mem.cells, r.p, r.n) == V(m3, r.p, r.n);
  }

  lemma ScaledUse(m0: seq<Digit>, m: seq<Digit>, zz: nat, yy: nat, x: nat, xn: nat, y: nat, yn: nat, f: int)
    requires x + xn <= |m0| && y + yn <= |m0| && Scaled(m0, m, zz, yy, x, xn, y, yn, f)
    ensures zz + xn + 1 <= |m| && Normal(m, yy, yn) && Apart(yy, yn, zz, xn + 1) && m[zz + xn] < m[yy + yn - 1]
    ensures V(m, zz, xn + 1) == Mul(f, V(m0, x, xn)) && V(m, yy, yn) == Mul(f, V(m0, y, yn))
  {
    hide V, Mul;
  }

  lemma DividedSame(a: seq<Digit>, b: seq<Digit>, z: nat, zn: nat, y: nat, yn: nat)
    requires z + zn <= |a| && y + yn <= |a| && yn <= zn && Divided(a, b, z, zn, y, yn)
    ensures Keeps(a, b, z, zn)
    ensures V(a, z, zn) == Mul(V(b, z + yn, zn - yn), V(a, y, yn)) + V(b, z, yn)
    ensures V(b, z, yn) < V(a, y, yn)
  {
    hide V, Mul;
  }

  /** Picks work areas - the result areas themselves where they are large enough - and fills them. */
  method DivSetup(mem: Memory, q: Dest, r: Dest, x: nat, xn: nat, y: nat, yn: nat)
      returns (zz: nat, yy: nat, shift: nat)
    requires DivArea(mem.cells, q, r, x, xn, y, yn)
    requires 0 < yn <= xn && mem.cells[y + yn - 1] != 0
    requires q.Fits(xn - yn + 1) && r.Fits(yn)
    modifies mem
    ensures |mem.cells| >= |old(mem.cells)|
    ensures SameOutside2(old(mem.cells), mem.cells, q.p, q.n, r.p, r.n)
    ensures (zz == q.p && q.wanted && xn + 1 <= q.n) || |old(mem.cells)| <= zz
    ensures shift == Nlz(old(mem.cells)[y + yn - 1])
    ensures Scaled(old(mem.cells), mem.cells, zz, yy, x, xn, y, yn, Pow2(shift))
  {
    hide Sh, V, P, Mul, Nlz, Pow2, Scaled;
    ghost var m0 := mem.cells;
    var zn := xn + 1;
    shift := Nlz(mem.cells[y + yn - 1]);
    if shift != 0 {
      yy := r.p;
      if !r.wanted {
        yy := Alloc(mem, yn);
      }
      zz := q.p;
      if !q.wanted || q.n < zn {
        zz := Alloc(mem, zn);
      }
      ghost var m1 := mem.cells;
      Keeps2Intro(m0, m1, q.p, q.n, r.p, r.n);
      ShiftBoth(mem, zz, yy, x, xn, y, yn, shift);
      ScaledFrom(m0, m1, mem.cells, zz, yy, x, xn, y, yn, Pow2(shift));
    } else {
      zz := q.p;
      if !q.wanted || q.n < zn {
        zz := Alloc(mem, zn);
      }
      yy := y;
      CopyDividend(mem, zz, x, xn, y, yn, m0);
    }
  }

  lemma ScaledFrom(m0: seq<Digit>, m1: seq<Digit>, m: seq<Digit>, zz: nat, yy: nat, x: nat, xn: nat, y: nat, yn: nat, f: int)
    requires x + xn <= |m0| <= |m1| && y + yn <= |m0|
    requires V(m1, x, xn) == V(m0, x, xn) && V(m1, y, yn) == V(m0, y, yn)
    requires Scaled(m1, m, zz, yy, x, xn, y, yn, f)
    ensures Scaled(m0, m, zz, yy, x, xn, y, yn, f)
  {
    hide V, Mul;
  }

  /** A divisor that needs no shift is used where it is. */
  method CopyDividend(mem: Memory, zz: nat, x: nat, xn: nat, y: nat, yn: nat, ghost m0: seq<Digit>)
    requires x + xn <= |m0| <= |mem.cells| && y + yn <= |m0| && zz + xn + 1 <= |mem.cells|
    requires 0 < yn && 0 < mem.cells[y + yn - 1] && Nlz(mem.cells[y + yn - 1]) == 0
    requires Apart(x, xn, zz, xn + 1) && Apart(y, yn, zz, xn + 1)
    requires V(mem.cells, x, xn) == V(m0, x, xn) && V(mem.cells, y, yn) == V(m0, y, yn)
    modifies mem
    ensures SameOutside(old(mem.cells), mem.cells, zz, xn + 1)
    ensures Scaled(m0, mem.cells, zz, y, x, xn, y, yn, Pow2(0))
  {
    var yt := mem.cells[y + yn - 1];
    assert BIGRAD <= 2 * yt as int by { assert BIGRAD <= 2 * (Pow2(0) * yt); }
    hide Sh, V, P, Mul, Nlz;
    ghost var m1 := mem.cells;
    Copy(mem, zz, x, xn);
    ghost var m2 := mem.cells;
    mem.cells := mem.cells[zz + xn := 0];
    KeepsIntro(m2, mem.cells, zz + xn, 1);
    VStep(mem.cells, zz, xn);
    ShNone(xn);
    MulIs(1, V(m0, x, xn)); MulIs(1, V(m0, y, yn));
  }

  /** From f*x = quo * (f*y) + rem to the quotient and remainder of x by y. */
  lemma Unscale(m0: seq<Digit>, m1: seq<Digit>, m2: seq<Digit>, zz: nat, yy: nat, x: nat, xn: nat, y: nat, yn: nat, shift: nat)
    requires x + xn <= |m0| && y + yn <= |m0| && zz + xn + 1 <= |m1| == |m2| && yy + yn <= |m1| && 0 < yn <= xn
    requires V(m1, zz, xn + 1) == Mul(Pow2(shift), V(m0, x, xn)) && V(m1, yy, yn) == Mul(Pow2(shift), V(m0, y, yn))
    requires V(m1, zz, xn + 1) == Mul(V(m2, zz + yn, xn + 1 - yn), V(m1, yy, yn)) + V(m2, zz, yn)
    requires V(m2, zz, yn) < V(m1, yy, yn)
    ensures V(m0, y, yn) > 0
    ensures V(m2, zz + yn, xn + 1 - yn) == Quot(V(m0, x, xn), V(m0, y, yn))
    ensures V(m2, zz, yn) == Pow2(shift) * Rem(V(m0, x, xn), V(m0, y, yn))
  {
    hide Sh, V, P, Mul, Quot, Rem, Pow2;
    VBound(m2, zz, yn);
    ScaledQuotient(Pow2(shift), V(m0, x, xn), V(m0, y, yn), V(m2, zz + yn, xn + 1 - yn), V(m2, zz, yn));
  }

  lemma ScaledQuotient(f: int, x: int, y: int, quo: int, rem: int)
    requires 0 < f && Mul(f, x) == Mul(quo, Mul(f, y)) + rem && 0 <= rem < Mul(f, y)
    ensures y > 0 && quo == Quot(x, y) && rem == f * Rem(x, y)
  {
    hide Quot, Rem;
    if y <= 0 { MulLe(y, 0, f); assert false; }
    var r := x - quo * y;
    assert rem == f * r by { Factored(f, x, y, quo); }
    if r < 0 { MulLe(r, -1, f); }
    if r >= y { MulLe(y, r, f); }
    QuotUnique(x, y, quo, r);
  }

  lemma Factored(f: int, x: int, y: int, quo: int)
    ensures f * x - quo * (f * y) == f * (x - quo * y)
  {
    MulAssoc(f, quo, y);
    MulAssoc(quo, f, y);
  }

  /** Delivers what was asked for. */
  method DivOutput(mem: Memory, q: Dest, r: Dest, zz: nat, zn: nat, yn: nat, shift: nat, ghost x: int, ghost y: int)
    requires zz + zn <= |mem.cells| && q.p + q.n <= |mem.cells| && r.p + r.n <= |mem.cells|
    requires 0 < yn < zn && q.Fits(zn - yn) && r.Fits(yn)
    requires Apart(zz, zn, r.p, r.n) && Apart(q.p, q.n, r.p, r.n) && (zz == q.p || Apart(zz, zn, q.p, q.n))
    requires y > 0 && Pow2(shift) < BIGRAD
    requires V(mem.cells, zz + yn, zn - yn) == Quot(x, y)
    requires V(mem.cells, zz, yn) == Pow2(shift) * Rem(x, y)
    modifies mem
    ensures |mem.cells| == |old(mem.cells)|
    ensures SameOutside2(old(mem.cells), mem.cells, q.p, q.n, r.p, r.n)
    ensures q.wanted ==> V(mem.cells, q.p, q.n) == Quot(x, y)
    ensures r.wanted ==> V(mem.cells, r.p, r.n) == Rem(x, y)
  {
    hide Sh, V, P, Mul, Pow2, Quot, Rem;
    ghost var m0 := mem.cells;
    if r.wanted {
      RemainderOut(mem, r.p, r.n, zz, yn, shift, Rem(x, y));
      assert V(mem.cells, zz + yn, zn - yn) == V(m0, zz + yn, zn - yn);
    }
    ghost var m1 := mem.cells;
    if q.wanted {
      var j := zn - yn;
      Copy(mem, q.p, zz + yn, j);
      Zero(mem, q.p + j, q.n - j);
      VSplit(mem.cells, q.p, j, q.n - j);
      ShNone(j);
      KeepsIntro(m1, mem.cells, q.p, q.n);
    }
  }

  method RemainderOut(mem: Memory, r: nat, rn: nat, zz: nat, yn: nat, shift: nat, ghost rem: int)
    requires zz + yn <= |mem.cells| && r + rn <= |mem.cells| && 0 < yn <= rn
    requires Apart(zz, yn, r, rn) && Pow2(shift) < BIGRAD
    requires V(mem.cells, zz, yn) == Pow2(shift) * rem
    modifies mem
    ensures Keeps(old(mem.cells), mem.cells, r, rn)
    ensures V(mem.cells, r, rn) == rem
  {
    if shift == 0 { assert Pow2(shift) == 1; }
    hide Sh, V, P, Mul, Pow2;
    ghost var m0 := mem.cells;
    if shift != 0 {
      ShNone(yn);
      ghost var dropped := SmallRshift(mem, r, zz, yn, shift, 0);
      ExactShift(Pow2(shift), V(mem.cells, r, yn), dropped, rem);
    } else {
      Copy(mem, r, zz, yn);
    }
    Zero(mem, r + yn, rn - yn);
    VSplit(mem.cells, r, yn, rn - yn);
    ShNone(yn);
    KeepsIntro(m0, mem.cells, r, rn);
  }

  lemma ExactShift(f: int, v: int, dropped: int, rem: int)
    requires 0 < f && f * v + dropped == f * rem && 0 <= dropped < f
    ensures v == rem
  {
    if v < rem { MulLe(v + 1, rem, f); }
    if v > rem { MulLe(rem + 1, v, f); }
  }

  // ----- bary_divmod

  /** Quotient and remainder of any two digit strings; false when the divisor is zero,
      where the source raises ZeroDivisionError and writes nothing. */
  method Divmod(mem: Memory, q: nat, qn: nat, r: nat, rn: nat, x: nat, xn0: nat, y: nat, yn0: nat) returns (ok: bool)
    requires DivArea(mem.cells, Dest(q, qn, true), Dest(r, rn, true), x, xn0, y, yn0)
    requires xn0 <= qn && yn0 <= rn
    modifies mem
    ensures |mem.cells| == |old(mem.cells)|
    ensures Keeps2(old(mem.cells), mem.cells, q, qn, r, rn)
    ensures ok <==> V(old(mem.cells), y, yn0) != 0
    ensures !ok ==> mem.cells == old(mem.cells)
    ensures ok ==>
              && V(old(mem.cells), y, yn0) > 0
              && V(mem.cells, q, qn) == Quot(V(old(mem.cells), x, xn0), V(old(mem.cells), y, yn0))
              && V(mem.cells, r, rn) == Rem(V(old(mem.cells), x, xn0), V(old(mem.cells), y, yn0))
  {
    hide Sh, V, P, Mul, Quot, Rem;
    ghost var m0 := mem.cells;
    var yn := Trunc(mem, y, yn0);
    Keeps2Intro(m0, m0, q, qn, r, rn);
    if yn == 0 {
      VEmpty(m0, y);
      return false;
    }
    TopDigitWeighs(m0, y, yn);
    var xn := Trunc(mem, x, xn0);
    DivTrimmed(mem, q, qn, r, rn, x, xn, y, yn);
    return true;
  }

  method DivTrimmed(mem: Memory, q: nat, qn: nat, r: nat, rn: nat, x: nat, xn: nat, y: nat, yn: nat)
    requires DivArea(mem.cells, Dest(q, qn, true), Dest(r, rn, true), x, xn, y, yn)
    requires xn <= qn && 0 < yn <= rn && mem.cells[y + yn - 1] != 0
    requires V(mem.cells, y, yn) > 0
    modifies mem
    ensures |mem.cells| == |old(mem.cells)|
    ensures Keeps2(old(mem.cells), mem.cells, q, qn, r, rn)
    ensures V(mem.cells, q, qn) == Quot(V(old(mem.cells), x, xn), V(old(mem.cells), y, yn))
    ensures V(mem.cells, r, rn) == Rem(V(old(mem.cells), x, xn), V(old(mem.cells), y, yn))
  {
    hide Sh, V, P, Mul, Quot, Rem;
    ghost var m0 := mem.cells;
    if xn == 0 {
      VEmpty(m0, x);
      QuotUnique(0, V(m0, y, yn), 0, 0);
      Zero(mem, q, qn);
      Zero(mem, r, rn);
      Keeps2Intro(m0, mem.cells, q, qn, r, rn);
    } else if xn < yn || (xn == yn && mem.cells[x + xn - 1] < mem.cells[y + yn - 1]) {
      SmallDividend(m0, x, xn, y, yn);
      Copy(mem, r, x, xn);
      Zero(mem, r + xn, rn - xn);
      VSplit(mem.cells, r, xn, rn - xn);
      ShNone(xn);
      Zero(mem, q, qn);
      Keeps2Intro(m0, mem.cells, q, qn, r, rn);
    } else if yn == 1 {
      DivByDigit(mem, q, qn, r, rn, x, xn, y);
    } else if xn == 2 && yn == 2 {
      DivDoubles(mem, q, qn, r, rn, x, y);
    } else {
      DivmodNormal(mem, Dest(q, qn, true), Dest(r, rn, true), x, xn, y, yn);
    }
  }

  lemma SmallDividend(m: seq<Digit>, x: nat, xn: nat, y: nat, yn: nat)
    requires x + xn <= |m| && y + yn <= |m| && 0 < yn && 0 < xn && m[y + yn - 1] != 0
    requires xn < yn || (xn == yn && m[x + xn - 1] < m[y + yn - 1])
    requires V(m, y, yn) > 0
    ensures Quot(V(m, x, xn), V(m, y, yn)) == 0 && Rem(V(m, x, xn), V(m, y, yn)) == V(m, x, xn)
  {
    hide V, P, Quot, Rem;
    VBound(m, x, xn);
    if xn < yn {
      TopDigitWeighs(m, y, yn);
      PMonotone(xn, yn - 1);
    } else {
      LessByTop(m, x, y, yn);
    }
    QuotUnique(V(m, x, xn), V(m, y, yn), 0, V(m, x, xn));
  }

  method DivByDigit(mem: Memory, q: nat, qn: nat, r: nat, rn: nat, x: nat, xn: nat, y: nat)
    requires DivArea(mem.cells, Dest(q, qn, true), Dest(r, rn, true), x, xn, y, 1)
    requires 0 < xn <= qn && 1 <= rn && mem.cells[y] != 0 && V(mem.cells, y, 1) > 0
    modifies mem
    ensures |mem.cells| == |old(mem.cells)|
    ensures Keeps2(old(mem.cells), mem.cells, q, qn, r, rn)
    ensures V(mem.cells, q, qn) == Quot(V(old(mem.cells), x, xn), V(old(mem.cells), y, 1))
    ensures V(mem.cells, r, rn) == Rem(V(old(mem.cells), x, xn), V(old(mem.cells), y, 1))
  {
    hide Sh, V, P, Mul, Quot, Rem;
    ghost var m0 := mem.cells;
    VOne(m0, y);
    Copy(mem, q, x, xn);
    Zero(mem, q + xn, qn - xn);
    var d := DivSingle(mem, q, x, xn, mem.cells[y]);
    ghost var m1 := mem.cells;
    MulIs(m0[y], V(m1, q, xn)); MulComm(m0[y], V(m1, q, xn)); MulIs(V(m1, q, xn), m0[y]);
    QuotUnique(V(m0, x, xn), m0[y], V(m1, q, xn), d);
    VSplit(m1, q, xn, qn - xn);
    ShNone(xn);
    mem.cells := mem.cells[r := d];
    KeepsIntro(m1, mem.cells, r, 1);
    VOne(mem.cells, r);
    Zero(mem, r + 1, rn - 1);
    VSplit(mem.cells, r, 1, rn - 1);
    ShNone(1);
    Keeps2Intro(m0, mem.cells, q, qn, r, rn);
  }

  method DivDoubles(mem: Memory, q: nat, qn: nat, r: nat, rn: nat, x: nat, y: nat)
    requires DivArea(mem.cells, Dest(q, qn, true), Dest(r, rn, true), x, 2, y, 2)
    requires 2 <= qn && 2 <= rn && V(mem.cells, y, 2) > 0
    modifies mem
    ensures |mem.cells| == |old(mem.cells)|
    ensures Keeps2(old(mem.cells), mem.cells, q, qn, r, rn)
    ensures V(mem.cells, q, qn) == Quot(V(old(mem.cells), x, 2), V(old(mem.cells), y, 2))
    ensures V(mem.cells, r, rn) == Rem(V(old(mem.cells), x, 2), V(old(mem.cells), y, 2))
  {
    hide Sh, V, P, Mul, Quot, Rem;
    ghost var m0 := mem.cells;
    VFirst(m0, x, 1); VFirst(m0, y, 1); VOne(m0, x + 1); VOne(m0, y + 1);
    ShBase(m0[x + 1], 0); ShZero(m0[x + 1] * BIGRAD); ShBase(m0[y + 1], 0); ShZero(m0[y + 1] * BIGRAD);
    var vx := mem.cells[x] + mem.cells[x + 1] * BIGRAD;
    var vy := mem.cells[y] + mem.cells[y + 1] * BIGRAD;
    VBound(m0, x, 2); VBound(m0, y, 2);
    QuotRem(vx, vy);
    QuotBelow(vx, vy, Quot(vx, vy), Rem(vx, vy));
    PutDouble(mem, q, qn, Quot(vx, vy));
    ghost var m1 := mem.cells;
    PutDouble(mem, r, rn, Rem(vx, vy));
    assert V(mem.cells, q, qn) == V(m1, q, qn);
    Keeps2Intro(m0, mem.cells, q, qn, r, rn);
  }

  lemma QuotBelow(x: int, y: int, q: int, r: int)
    requires 0 <= x && 0 < y && x == q * y + r && 0 <= r < y
    ensures 0 <= q <= x && r <= x
  {
    if q < 0 { MulLe(q, -1, y); }
    if q > x { MulLe(x + 1, q, y); MulLe(1, y, x + 1); }
    MulLe(0, q, y);
  }
}
