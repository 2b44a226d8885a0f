/** Bitwise operations and shifts on sign-magnitude bignums. */
module BitOps {
  import opened Digits
  import opened Memory
  import opened Shifts
  import opened Toom3Steps
  import opened TwosComplement
  import opened PowerCache

  /** A bignum: its sign, and where its magnitude is. */
  datatype Big = Big(negative: bool, p: nat, n: nat)

  ghost predicate Holds(m: seq<Digit>, x: Big) { x.p + x.n <= |m| }

  ghost function Value(m: seq<Digit>, x: Big): (r: int)
    requires Holds(m, x)
  {
    if x.negative then -V(m, x.p, x.n) else V(m, x.p, x.n)
  }

  /** The integer in n digits of two's complement at p. */
  ghost function InTwos(m: seq<Digit>, p: nat, n: nat, neg: bool): (r: int)
    requires p + n <= |m|
  {
    IntOf(m[p..p + n], neg)
  }

  lemma {:induction false} InTwosIs(m: seq<Digit>, p: nat, n: nat, neg: bool)
    requires p + n <= |m|
    ensures InTwos(m, p, n, neg) == V(m, p, n) - if neg then P(n) else 0
    decreases n
  {
    hide V, Sh;
    if n == 0 {
      VEmpty(m, p);
    } else {
      assert m[p..p + n][0] == m[p] && m[p..p + n][1..] == m[p + 1..p + n];
      InTwosIs(m, p + 1, n - 1, neg);
      VFirst(m, p, n - 1);
      ShBase(V(m, p + 1, n - 1), 0);
      ShZero(V(m, p + 1, n - 1) * BIGRAD);
      FirstDigit(m[p], V(m, p + 1, n - 1), P(n - 1), neg);
    }
  }

  lemma FirstDigit(d: Digit, v: int, p: int, neg: bool)
    ensures d + BIGRAD * (v - if neg then p else 0) == d + v * BIGRAD - if neg then p * BIGRAD else 0
  {
  }

  /** abs2twocomp */
  method Abs2TwoComp(mem: Memory, x: Big) returns (p: nat, n: nat, neg: bool)
    requires Holds(mem.cells, x)
    modifies mem
    ensures Grew(old(mem.cells), mem.cells) && p + n <= |mem.cells|
    ensures InTwos(mem.cells, p, n, neg) == Value(old(mem.cells), x)
    ensures n <= x.n && (neg ==> Value(old(mem.cells), x) < 0)
  {
    hide V, Sh, P, InTwos;
    ghost var m0 := mem.cells;
    GrewSelf(m0);
    p, neg := x.p, false;
    n := Trunc(mem, x.p, x.n);
    VBound(m0, x.p, n);
    if n != 0 && x.negative {
      TopDigitWeighs(m0, x.p, n);
      p := Alloc(mem, n);
      ghost var m1 := mem.cells;
      AllocGrew(m0, m1);
      Copy(mem, p, x.p, n);
      ghost var m2 := mem.cells;
      var _ := TwosComp(mem, p, n);
      neg := true;
      GrewFrom(m0, m1, m2, p, n);
      GrewFrom(m0, m2, mem.cells, p, n);
      assert V(m1, x.p, n) == V(m0, x.p, n);
    } else if n == 0 {
      VEmpty(m0, x.p);
    }
    InTwosIs(mem.cells, p, n, neg);
  }

  /** twocomp2abs_bang: the number just made, at the end of memory. */
  method TwoComp2Abs(mem: Memory, z: nat, n: nat, neg: bool) returns (r: Big)
    requires z + n == |mem.cells|
    modifies mem
    ensures |mem.cells| >= z + n && mem.cells[..z] == old(mem.cells)[..z]
    ensures Holds(mem.cells, r) && Value(mem.cells, r) == InTwos(old(mem.cells), z, n, neg)
  {
    hide V, Sh, P, InTwos;
    ghost var m0 := mem.cells;
    InTwosIs(m0, z, n, neg);
    r := Big(neg, z, n);
    if neg {
      var zero := TwosComp(mem, z, n);
      ghost var m1 := mem.cells;
      if zero {
        var top := Alloc(mem, 1);
        ghost var m2 := mem.cells;
        mem.cells := mem.cells[top := 1];
        r := Big(neg, z, n + 1);
        KeepsIntro(m2, mem.cells, top, 1);
        VStep(mem.cells, z, n);
        ShOne(n);
        assert V(mem.cells, z, n) == V(m2, z, n) == V(m1, z, n);
        forall i | 0 <= i < z ensures mem.cells[i] == m0[i] { assert m1[i] == m0[i]; assert m2[i] == m1[i]; }
      }
    }
  }

  /** The first n digits of the result, from the shorter operand x and the longer y. */
  ghost function Combined(op: Op, m: seq<Digit>, x: nat, n1: nat, neg: bool, y: nat, n: nat): (s: seq<Digit>)
    requires x + n1 <= |m| && y + n <= |m|
    ensures |s| == n
  {
    if n == 0 then []
    else Combined(op, m, x, n1, neg, y, n - 1)
         + [DigitOp(op, if n - 1 < n1 then m[x + n - 1] else Hibits(neg), m[y + n - 1])]
  }

  lemma {:induction false} CombinedAt(op: Op, m: seq<Digit>, x: nat, n1: nat, neg: bool, y: nat, n: nat, i: nat)
    requires x + n1 <= |m| && y + n <= |m| && i < n
    ensures Combined(op, m, x, n1, neg, y, n)[i] == DigitOp(op, if i < n1 then m[x + i] else Hibits(neg), m[y + i])
    decreases n
  {
    hide DigitOp;
    if i < n - 1 { CombinedAt(op, m, x, n1, neg, y, n - 1, i); }
  }

  method PutNext(mem: Memory, z: nat, i: nat, d: Digit, ghost m0: seq<Digit>, ghost done: seq<Digit>)
    requires z + i < |mem.cells| && mem.cells[..z] == m0 && mem.cells[z..z + i] == done
    modifies mem
    ensures |mem.cells| == |old(mem.cells)| && mem.cells[..z] == m0 && mem.cells[z..z + i + 1] == done + [d]
  {
    ghost var m1 := mem.cells;
    mem.cells := mem.cells[z + i := d];
    assert mem.cells[..z] == m1[..z];
    assert mem.cells[z..z + i + 1] == m1[z..z + i] + [d];
  }

  lemma CombinedNext(op: Op, m: seq<Digit>, x: nat, n1: nat, neg: bool, y: nat, n: nat)
    requires x + n1 <= |m| && y + n < |m|
    ensures Combined(op, m, x, n1, neg, y, n + 1)
         == Combined(op, m, x, n1, neg, y, n) + [DigitOp(op, if n < n1 then m[x + n] else Hibits(neg), m[y + n])]
  {
    hide DigitOp;
  }

  lemma OldDigit(m: seq<Digit>, m0: seq<Digit>, j: nat)
    requires |m0| <= |m| && m[..|m0|] == m0 && j < |m0|
    ensures m[j] == m0[j]
  {
    assert m[j] == m[..|m0|][j];
  }

  /** The digits both operands have. */
  method CombineLow(mem: Memory, op: Op, x: nat, n1: nat, neg: bool, y: nat, z: nat, ghost m0: seq<Digit>)
    requires z == |m0| && z + n1 <= |mem.cells| && mem.cells[..z] == m0 && x + n1 <= z && y + n1 <= z
    modifies mem
    ensures |mem.cells| == |old(mem.cells)| && mem.cells[..z] == m0
    ensures mem.cells[z..z + n1] == Combined(op, m0, x, n1, neg, y, n1)
  {
    hide DigitOp, Combined;
    assert Combined(op, m0, x, n1, neg, y, 0) == [];
    for i := 0 to n1
      invariant |mem.cells| == |old(mem.cells)| && mem.cells[..z] == m0
      invariant mem.cells[z..z + i] == Combined(op, m0, x, n1, neg, y, i)
    {
      OldDigit(mem.cells, m0, x + i);
      OldDigit(mem.cells, m0, y + i);
      CombinedNext(op, m0, x, n1, neg, y, i);
      PutNext(mem, z, i, DigitOp(op, mem.cells[x + i], mem.cells[y + i]), m0, Combined(op, m0, x, n1, neg, y, i));
    }
  }

  /** The digits only the longer operand has. */
  method CombineHigh(mem: Memory, op: Op, x: nat, n1: nat, neg: bool, y: nat, n2: nat, z: nat, ghost m0: seq<Digit>)
    requires z == |m0| && z + n2 <= |mem.cells| && mem.cells[..z] == m0 && x + n1 <= z && y + n2 <= z && n1 <= n2
    requires mem.cells[z..z + n1] == Combined(op, m0, x, n1, neg, y, n1)
    modifies mem
    ensures |mem.cells| == |old(mem.cells)| && mem.cells[..z] == m0
    ensures mem.cells[z..z + n2] == Combined(op, m0, x, n1, neg, y, n2)
  {
    hide DigitOp, Combined;
    for i := n1 to n2
      invariant |mem.cells| == |old(mem.cells)| && mem.cells[..z] == m0
      invariant mem.cells[z..z + i] == Combined(op, m0, x, n1, neg, y, i)
    {
      OldDigit(mem.cells, m0, y + i);
      CombinedNext(op, m0, x, n1, neg, y, i);
      PutNext(mem, z, i, DigitOp(op, Hibits(neg), mem.cells[y + i]), m0, Combined(op, m0, x, n1, neg, y, i));
    }
  }

  method Combine(mem: Memory, op: Op, x: nat, n1: nat, neg: bool, y: nat, n2: nat) returns (z: nat)
    requires x + n1 <= |mem.cells| && y + n2 <= |mem.cells| && n1 <= n2
    modifies mem
    ensures z == |old(mem.cells)| && |mem.cells| == z + n2 && mem.cells[..z] == old(mem.cells)
    ensures mem.cells[z..z + n2] == Combined(op, old(mem.cells), x, n1, neg, y, n2)
  {
    hide DigitOp, Combined;
    ghost var m0 := mem.cells;
    z := Alloc(mem, n2);
    assert mem.cells[..z] == m0;
    CombineLow(mem, op, x, n1, neg, y, z, m0);
    CombineHigh(mem, op, x, n1, neg, y, n2, z, m0);
  }

  /** The result digits stand for x op y. */
  lemma CombineMeans(op: Op, m0: seq<Digit>, m: seq<Digit>, x: nat, n1: nat, a: bool, y: nat, n2: nat, yn: nat, b: bool, z: nat)
    requires x + n1 <= |m0| && y + yn <= |m0| && n1 <= n2 <= yn && z + n2 <= |m|
    requires n2 == if Absorbs(op, a) then n1 else yn
    requires m[z..z + n2] == Combined(op, m0, x, n1, a, y, n2)
    ensures IsOp(op, InTwos(m0, x, n1, a), InTwos(m0, y, yn, b), InTwos(m, z, n2, Apply(op, a, b)))
  {
    hide IsOp, DigitOp, Combined;
    var s, t, u := m0[x..x + n1], m0[y..y + yn], m[z..z + n2];
    var e := s + Fill(a, n2 - n1);
    forall i | 0 <= i < n2 ensures u[i] == DigitOp(op, e[i], t[i]) { CombinedAt(op, m0, x, n1, a, y, n2, i); }
    if Absorbs(op, a) {
      assert e == s;
      OpShort(op, s, a, t, b, u);
    } else {
      Extend(s, a, n2 - n1);
      OpDigits(op, e, a, t, b, u);
    }
  }

  /** rb_big_and, rb_big_or, rb_big_xor: the operation on the two's complements, whatever the signs and lengths. */
  method BitOp(mem: Memory, op: Op, x: Big, y: Big) returns (r: Big)
    requires Holds(mem.cells, x) && Holds(mem.cells, y)
    modifies mem
    ensures |mem.cells| >= |old(mem.cells)| && mem.cells[..|old(mem.cells)|] == old(mem.cells)
    ensures Holds(mem.cells, r)
    ensures IsOp(op, Value(old(mem.cells), x), Value(old(mem.cells), y), Value(mem.cells, r))
  {
    hide V, IsOp, InTwos, DigitOp, Combined, Grew;
    ghost var m0 := mem.cells;
    var p1, n1, neg1 := Abs2TwoComp(mem, x);
    ghost var m1 := mem.cells;
    GrewPrefix(m0, m1);
    GrewBig(m0, m1, y);
    var p2, n2, neg2 := Abs2TwoComp(mem, y);
    ghost var m2 := mem.cells;
    GrewPrefix(m1, m2);
    InTwosGrew(m1, m2, p1, n1, neg1);
    if n1 > n2 {
      p1, n1, neg1, p2, n2, neg2 := p2, n2, neg2, p1, n1, neg1;
      OpSymmetricAll(op, Value(m0, x), Value(m0, y));
    }
    var zn := if Absorbs(op, neg1) then n1 else n2;
    var z := Combine(mem, op, p1, n1, neg1, p2, zn);
    ghost var m3 := mem.cells;
    CombineMeans(op, m2, m3, p1, n1, neg1, p2, zn, n2, neg2, z);
    r := TwoComp2Abs(mem, z, zn, Apply(op, neg1, neg2));
    assert mem.cells[..|m0|] == m3[..z][..|m0|] == m2[..|m0|] == m1[..|m0|] == m0;
  }

  lemma OpSymmetricAll(op: Op, x: int, y: int)
    ensures forall z :: IsOp(op, y, x, z) ==> IsOp(op, x, y, z)
  {
    forall z | IsOp(op, y, x, z) ensures IsOp(op, x, y, z) { OpSymmetric(op, y, x, z); }
  }

  lemma GrewPrefix(a: seq<Digit>, b: seq<Digit>)
    requires Grew(a, b)
    ensures |a| <= |b| && b[..|a|] == a
  {
    hide V;
    forall i | 0 <= i < |a| ensures b[i] == a[i] { assert b[i] == a[i]; }
  }

  lemma GrewBig(a: seq<Digit>, b: seq<Digit>, x: Big)
    requires Grew(a, b) && Holds(a, x)
    ensures Holds(b, x) && Value(b, x) == Value(a, x)
  {
    hide V;
  }

  lemma InTwosGrew(a: seq<Digit>, b: seq<Digit>, p: nat, n: nat, neg: bool)
    requires Grew(a, b) && p + n <= |a|
    ensures p + n <= |b| && InTwos(b, p, n, neg) == InTwos(a, p, n, neg)
  {
    GrewPrefix(a, b);
    assert b[p..p + n] == b[..|a|][p..p + n] == a[p..p + n];
  }

  // ----- shifts

  /** BDIGMAX or 0 above the top digit; its low bits are all that is shifted in. */
  lemma ShiftedIn(neg: bool, s2: nat)
    requires Pow2(s2) < BIGRAD
    ensures Rem(Hibits(neg), Pow2(s2)) == if neg then Pow2(s2) - 1 else 0
  {
    hide Rem, Quot;
    var f := Pow2(s2);
    var g := Pow2Divides(s2, BIGRAD);
    if neg {
      assert BIGRAD - 1 == (g - 1) * f + (f - 1);
      QuotUnique(BIGRAD - 1, f, g - 1, f - 1);
    } else {
      QuotUnique(0, f, 0, 0);
    }
  }

  /** Dropping digits: x = rest * P(k) + low. */
  lemma {:induction false} DropDigits(m: seq<Digit>, p: nat, n: nat, neg: bool, k: nat)
    requires p + n <= |m| && k <= n
    ensures InTwos(m, p, n, neg) == InTwos(m, p + k, n - k, neg) * P(k) + V(m, p, k)
  {
    hide V, P, InTwos, Sh;
    InTwosIs(m, p, n, neg);
    InTwosIs(m, p + k, n - k, neg);
    VSplit(m, p, k, n - k);
    PAdds(n - k, k);
    Dropped(V(m, p + k, n - k), P(n - k), P(k), V(m, p, k), neg, k);
  }

  lemma Dropped(v: int, q: int, p: int, low: int, neg: bool, k: nat)
    requires p == P(k)
    ensures (v - if neg then q else 0) * p + low == low + Sh(v, k) - if neg then q * p else 0
  {
  }

  /** The shift by s1 digits and s2 bits, as a number. */
  ghost function ShiftBy(s1: nat, s2: nat): (f: int)
    ensures f > 0
  {
    Positive(P(s1), Pow2(s2));
    Mul(P(s1), Pow2(s2))
  }

  lemma ShiftByIs(s1: nat, s2: nat)
    ensures ShiftBy(s1, s2) == Pow2(Index(s1, s2))
  {
    hide P, Pow2, Mul, Index;
    WeightAt(s1, s2);
  }

  lemma Positive(a: int, b: int)
    requires a > 0 && b > 0
    ensures Mul(a, b) > 0
  {
    MulLe(1, a, b);
  }

  /** big_shift3 to the right: floor division, also of a negative number. */
  method ShiftRight(mem: Memory, x: Big, s1: nat, s2: nat) returns (r: Big)
    requires Holds(mem.cells, x) && Pow2(s2) < BIGRAD
    modifies mem
    ensures |mem.cells| >= |old(mem.cells)| && mem.cells[..|old(mem.cells)|] == old(mem.cells)
    ensures Holds(mem.cells, r) && Value(mem.cells, r) == Quot(Value(old(mem.cells), x), Pow2(Index(s1, s2)))
  {
    hide V, P, Sh, InTwos, Quot, Rem, ShiftBy, Pow2, Grew, Value, Index;
    ghost var m0 := mem.cells;
    ShiftByIs(s1, s2);
    if x.n <= s1 {
      var zero := ZeroP(mem, x.p, x.n);
      AllShiftedOut(m0, x, s1, s2);
      r := Small(mem, x.negative && !zero);
      return;
    }
    var p, n, neg := Abs2TwoComp(mem, x);
    ghost var m1 := mem.cells;
    GrewPrefix(m0, m1);
    if n <= s1 {
      InTwosShiftedOut(m1, p, n, neg, s1, s2);
      r := Small(mem, neg);
      return;
    }
    var zn := n - s1;
    var z := Alloc(mem, zn);
    ghost var m2 := mem.cells;
    assert m2[..z] == m1;
    assert m2[p + s1..p + s1 + zn] == m1[p + s1..p + s1 + zn];
    VSame(m2, p + s1, m1, p + s1, zn);
    ghost var dropped := SmallRshift(mem, z, p + s1, zn, s2, Hibits(neg));
    ghost var m3 := mem.cells;
    assert m3[..z] == m1;
    ShiftedMeans(m1, m3, p, n, neg, s1, s2, z, dropped);
    r := TwoComp2Abs(mem, z, zn, neg);
    assert mem.cells[..|m0|] == m3[..z][..|m0|] == m0;
  }

  lemma ShiftedMeans(m1: seq<Digit>, m3: seq<Digit>, p: nat, n: nat, neg: bool, s1: nat, s2: nat, z: nat, dropped: int)
    requires p + n <= |m1| && s1 <= n && z + (n - s1) <= |m3| && 0 <= dropped < Pow2(s2) < BIGRAD
    requires Pow2(s2) * V(m3, z, n - s1) + dropped
          == V(m1, p + s1, n - s1) + Sh(Rem(Hibits(neg), Pow2(s2)), n - s1)
    ensures InTwos(m3, z, n - s1, neg) == Quot(InTwos(m1, p, n, neg), ShiftBy(s1, s2))
  {
    hide V, P, InTwos, Quot, Rem, Pow2;
    var k, f := n - s1, Pow2(s2);
    ShiftedIn(neg, s2);
    InTwosIs(m3, z, k, neg);
    InTwosIs(m1, p + s1, k, neg);
    DropDigits(m1, p, n, neg, s1);
    VBound(m1, p, s1);
    ShiftSum(f, V(m3, z, k), dropped, V(m1, p + s1, k), P(k), neg, k);
    FloorTwice(InTwos(m1, p, n, neg), InTwos(m1, p + s1, k, neg), V(m1, p, s1), P(s1), InTwos(m3, z, k, neg), dropped, f);
  }

  lemma ShiftSum(f: int, vz: int, dropped: int, vx: int, q: int, neg: bool, k: nat)
    requires q == P(k) && f * vz + dropped == vx + Sh(if neg then f - 1 else 0, k)
    ensures (vz - if neg then q else 0) * f + dropped == vx - if neg then q else 0
  {
    hide P;
  }

  /** floor(floor(x / p) / f) == floor(x / (p * f)) */
  lemma FloorTwice(x: int, a: int, low: int, p: int, b: int, dropped: int, f: int)
    requires p > 0 && f > 0 && x == a * p + low && 0 <= low < p && a == b * f + dropped && 0 <= dropped < f
    ensures Mul(p, f) > 0 && Quot(x, Mul(p, f)) == b
  {
    hide Quot, Rem;
    Positive(p, f);
    MulLe(0, dropped, p);
    MulLe(dropped + 1, f, p);
    FloorParts(b, f, dropped, p, low);
    QuotUnique(x, Mul(p, f), b, dropped * p + low);
  }

  lemma FloorParts(b: int, f: int, dropped: int, p: int, low: int)
    ensures (b * f + dropped) * p + low == b * Mul(p, f) + (dropped * p + low)
  {
    MulAssoc(b, p, f);
    MulAssoc(b, f, p);
  }

  /** Nothing of a number is left but its sign. */
  lemma OnlySign(x: int, neg: bool, p: int, f: int)
    requires p > 0 && f > 0 && (if neg then -p <= x < 0 else 0 <= x < p)
    ensures Mul(p, f) > 0 && Quot(x, Mul(p, f)) == Ones(neg)
  {
    hide Quot, Rem;
    Positive(p, f);
    MulLe(1, f, p);
    if neg { QuotUnique(x, Mul(p, f), -1, x + Mul(p, f)); } else { QuotUnique(x, Mul(p, f), 0, x); }
  }

  lemma AllShiftedOut(m: seq<Digit>, x: Big, s1: nat, s2: nat)
    requires Holds(m, x) && x.n <= s1
    ensures Quot(Value(m, x), ShiftBy(s1, s2)) == Ones(x.negative && V(m, x.p, x.n) != 0)
  {
    hide V, P, Quot, Pow2;
    VBound(m, x.p, x.n);
    PMonotone(x.n, s1);
    OnlySign(Value(m, x), x.negative && V(m, x.p, x.n) != 0, P(s1), Pow2(s2));
  }

  lemma InTwosShiftedOut(m: seq<Digit>, p: nat, n: nat, neg: bool, s1: nat, s2: nat)
    requires p + n <= |m| && n <= s1
    ensures Quot(InTwos(m, p, n, neg), ShiftBy(s1, s2)) == Ones(neg)
  {
    hide V, P, Quot, InTwos, Pow2;
    InTwosIs(m, p, n, neg);
    VBound(m, p, n);
    PMonotone(n, s1);
    OnlySign(InTwos(m, p, n, neg), neg, P(s1), Pow2(s2));
  }

  /** INT2FIX(0) or INT2FIX(-1) */
  method Small(mem: Memory, neg: bool) returns (r: Big)
    modifies mem
    ensures |mem.cells| >= |old(mem.cells)| && mem.cells[..|old(mem.cells)|] == old(mem.cells)
    ensures Holds(mem.cells, r) && Value(mem.cells, r) == Ones(neg)
  {
    hide V, Sh;
    ghost var m0 := mem.cells;
    var p := Alloc(mem, 1);
    ghost var m1 := mem.cells;
    mem.cells := mem.cells[p := if neg then 1 else 0];
    assert mem.cells[..|m0|] == m1[..|m0|] == m0;
    VOne(mem.cells, p);
    r := Big(neg, p, 1);
  }

  /** big_shift3 to the left: the product. */
  method ShiftLeft(mem: Memory, x: Big, s1: nat, s2: nat) returns (r: Big)
    requires Holds(mem.cells, x) && Pow2(s2) < BIGRAD
    modifies mem
    ensures |mem.cells| >= |old(mem.cells)| && mem.cells[..|old(mem.cells)|] == old(mem.cells)
    ensures Holds(mem.cells, r) && Value(mem.cells, r) == Mul(Value(old(mem.cells), x), Pow2(Index(s1, s2)))
  {
    hide V, P, Sh, Pow2, Index;
    ShiftByIs(s1, s2);
    ghost var m0 := mem.cells;
    var z := Alloc(mem, x.n + s1 + 1);
    ghost var m1 := mem.cells;
    Zero(mem, z, s1);
    ghost var m2 := mem.cells;
    assert V(m2, x.p, x.n) == V(m1, x.p, x.n) == V(m0, x.p, x.n);
    var out := SmallLshift(mem, z + s1, x.p, x.n, s2);
    ghost var m3 := mem.cells;
    mem.cells := mem.cells[z + s1 + x.n := out];
    KeepsIntro(m3, mem.cells, z + s1 + x.n, 1);
    VStep(mem.cells, z + s1, x.n);
    VSplit(mem.cells, z, s1, x.n + 1);
    assert V(mem.cells, z, s1) == V(m3, z, s1) == V(m2, z, s1) == 0;
    ShiftedUp(Pow2(s2), V(m0, x.p, x.n), s1);
    r := Big(x.negative, z, x.n + s1 + 1);
    MulNeg(V(m0, x.p, x.n), ShiftBy(s1, s2));
    forall i | 0 <= i < |m0| ensures mem.cells[i] == m0[i] { assert m1[i] == m0[i]; assert m2[i] == m1[i]; assert m3[i] == m2[i]; }
  }

  lemma ShiftedUp(f: int, v: int, k: nat)
    ensures Sh(f * v, k) == Mul(v, Mul(P(k), f))
  {
    hide P;
    MulAssoc(f, v, P(k));
    MulAssoc(v, P(k), f);
  }

  lemma MulNeg(v: int, f: int)
    ensures Mul(-v, f) == -Mul(v, f)
  {
  }

  // ----- bit reference

  /** rb_big_aref: bit `shift` of the two's complement, 0 below the point.  A zero with the negative flag, which no
      normalised number is, would be read as all ones above its digits. */
  method BitRef(mem: Memory, x: Big, shift: int) returns (bit: bool)
    requires Holds(mem.cells, x)
    ensures bit <==> shift >= 0 && (BitAt(Value(mem.cells, x), shift)
                                    || (x.negative && Value(mem.cells, x) == 0 && Index(x.n, 0) <= shift))
  {
    hide V, P, Quot, Rem, BitAt, LowZero, Index, IntOf, Value;
    if shift < 0 { return false; }
    ghost var s := mem.cells[x.p..x.p + x.n];
    BitsInDigit();
    SplitShift(shift);
    var s1, s2 := Quot(shift, BITS), Rem(shift, BITS);
    Magnitude(mem.cells, x);
    DigitBit(s, false, s1, s2);
    BitNeg(IntOf(s, false), shift);
    Beyond(x.n, s1, s2);
    if s1 >= x.n {
      BeyondBits(mem.cells, x, s1, s2);
      return x.negative;
    }
    var d := mem.cells[x.p + s1];
    DigitLow(s, s1, s2);
    if !x.negative { return BitAt(d, s2); }
    if !LowZero(d, s2) { return !BitAt(d, s2); }
    for i := 0 to s1
      invariant forall t :: 0 <= t < i ==> s[t] == 0
    {
      if mem.cells[x.p + i] != 0 {
        assert s[i] != 0;
        return !BitAt(d, s2);
      }
    }
    return BitAt(d, s2);
  }

  lemma BitsInDigit()
    ensures BITS > 0
  {
    assert Pow2(0) == 1;
  }

  lemma SplitShift(shift: nat)
    requires BITS > 0
    ensures Quot(shift, BITS) >= 0 && 0 <= Rem(shift, BITS) < BITS && shift == Index(Quot(shift, BITS), Rem(shift, BITS))
  {
    hide Quot, Rem;
    QuotRem(shift, BITS);
    if Quot(shift, BITS) < 0 { MulLe(Quot(shift, BITS), -1, BITS); }
  }

  lemma Magnitude(m: seq<Digit>, x: Big)
    requires Holds(m, x)
    ensures Value(m, x) == if x.negative then -IntOf(m[x.p..x.p + x.n], false) else IntOf(m[x.p..x.p + x.n], false)
  {
    hide V;
    InTwosIs(m, x.p, x.n, false);
  }

  lemma Beyond(n: nat, s1: nat, s2: nat)
    requires s2 < BITS
    ensures Index(n, 0) <= Index(s1, s2) <==> n <= s1
  {
    if n <= s1 { MulLe(n, s1, BITS); } else { MulLe(s1 + 1, n, BITS); }
  }

  /** Above the digits there are only sign bits. */
  lemma BeyondBits(m: seq<Digit>, x: Big, s1: nat, s2: nat)
    requires Holds(m, x) && s2 < BITS && x.n <= s1
    ensures BitAt(Value(m, x), Index(s1, s2)) == (x.negative && Value(m, x) != 0)
  {
    hide V, P, BitAt, LowZero, Index, IntOf;
    var s := m[x.p..x.p + x.n];
    Magnitude(m, x);
    DigitBit(s, false, s1, s2);
    BitNeg(IntOf(s, false), Index(s1, s2));
    InTwosIs(m, x.p, x.n, false);
    if x.negative && Value(m, x) != 0 {
      LowSome(s, s1, s2);
    } else {
      OnesBits(false, Index(s1, s2));
    }
  }

  /** A number that is not zero has a bit among its digits. */
  lemma {:induction false} LowSome(s: seq<Digit>, s1: nat, s2: nat)
    requires IntOf(s, false) != 0 && s2 < BITS && |s| <= s1
    ensures !LowZero(IntOf(s, false), Index(s1, s2))
    decreases |s|
  {
    hide BitAt, LowZero, Index, Mul;
    IntFirst(s, false);
    BitWord(BITS, s[0], IntOf(s[1..], false), Index(s1, s2));
    IndexNext(s1, s2);
    if s[0] == 0 {
      MulNone(Pow2(BITS));
      LowSome(s[1..], s1 - 1, s2);
    }
  }
}
