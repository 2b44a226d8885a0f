/** The infinite two's-complement view of an integer, and bitwise operations in it. */
module TwosComplement {
  import opened Digits
  import opened EasyProducts

  datatype Op = And | Or | Xor

  function Apply(op: Op, a: bool, b: bool): (r: bool) {
    match op
    case And => a && b
    case Or => a || b
    case Xor => a != b
  }

  /** Bit k of x.  A negative number has infinitely many ones above. */
  predicate BitAt(x: int, k: nat)
    decreases k
  {
    if k == 0 then x % 2 == 1 else BitAt(x / 2, k - 1)
  }

  /** z is x op y, in every bit. */
  ghost predicate IsOp(op: Op, x: int, y: int, z: int) {
    forall k: nat :: BitAt(z, k) == Apply(op, BitAt(x, k), BitAt(y, k))
  }

  /** An integer is its bits. */
  lemma {:induction false} BitsDecide(x: int, y: int)
    requires forall k: nat :: BitAt(x, k) == BitAt(y, k)
    ensures x == y
    decreases (if x < 0 then -x else x) + (if y < 0 then -y else y)
  {
    assert BitAt(x, 0) == BitAt(y, 0);
    if !((x == 0 || x == -1) && (y == 0 || y == -1)) {
      forall k: nat ensures BitAt(x / 2, k) == BitAt(y / 2, k) {
        assert BitAt(x, k + 1) == BitAt(y, k + 1);
      }
      BitsDecide(x / 2, y / 2);
    }
  }

  /** So x op y is one integer. */
  lemma OpUnique(op: Op, x: int, y: int, z: int, z': int)
    requires IsOp(op, x, y, z) && IsOp(op, x, y, z')
    ensures z == z'
  {
    BitsDecide(z, z');
  }

  lemma OpSymmetric(op: Op, x: int, y: int, z: int)
    requires IsOp(op, x, y, z)
    ensures IsOp(op, y, x, z)
  {
  }

  function Ones(b: bool): (r: int) { if b then -1 else 0 }

  lemma {:induction false} OnesBits(b: bool, k: nat)
    ensures BitAt(Ones(b), k) == b
    decreases k
  {
    if k > 0 {
      assert Ones(b) / 2 == Ones(b);
      OnesBits(b, k - 1);
    }
  }

  lemma OpOnes(op: Op, a: bool, b: bool)
    ensures IsOp(op, Ones(a), Ones(b), Ones(Apply(op, a, b)))
  {
    forall k: nat ensures BitAt(Ones(Apply(op, a, b)), k) == Apply(op, BitAt(Ones(a), k), BitAt(Ones(b), k)) {
      OnesBits(a, k);
      OnesBits(b, k);
      OnesBits(Apply(op, a, b), k);
    }
  }

  /** The operands' other digits do not matter: 0 AND y is 0, -1 OR y is -1. */
  predicate Absorbs(op: Op, a: bool) { (op.And? && !a) || (op.Or? && a) }

  lemma OpAbsorbed(op: Op, a: bool, y: int)
    requires Absorbs(op, a)
    ensures IsOp(op, Ones(a), y, Ones(a))
  {
    forall k: nat ensures BitAt(Ones(a), k) == Apply(op, BitAt(Ones(a), k), BitAt(y, k)) { OnesBits(a, k); }
  }

  function One(b: bool): (r: nat) { if b then 1 else 0 }

  lemma OpTwice(op: Op, a: bool, b: bool, x: int, y: int, z: int)
    requires IsOp(op, x, y, z)
    ensures IsOp(op, One(a) + 2 * x, One(b) + 2 * y, One(Apply(op, a, b)) + 2 * z)
  {
    var x', y', z' := One(a) + 2 * x, One(b) + 2 * y, One(Apply(op, a, b)) + 2 * z;
    assert x' / 2 == x && y' / 2 == y && z' / 2 == z;
    forall k: nat ensures BitAt(z', k) == Apply(op, BitAt(x', k), BitAt(y', k)) {
      if k > 0 { assert BitAt(z, k - 1) == Apply(op, BitAt(x, k - 1), BitAt(y, k - 1)); }
    }
  }

  // ----- what the three operations are in arithmetic

  /** Dropping the lowest bits. */
  lemma OpHalves(op: Op, x: int, y: int, z: int)
    requires IsOp(op, x, y, z)
    ensures IsOp(op, x / 2, y / 2, z / 2) && (z % 2 == 1 <==> Apply(op, x % 2 == 1, y % 2 == 1))
  {
    forall k: nat ensures BitAt(z / 2, k) == Apply(op, BitAt(x / 2, k), BitAt(y / 2, k)) {
      assert BitAt(z, k + 1) == Apply(op, BitAt(x, k + 1), BitAt(y, k + 1));
    }
    assert BitAt(z, 0) == Apply(op, BitAt(x, 0), BitAt(y, 0));
  }

  /** x + y is the bits in either and the bits in both, and the bits in one and twice those in both. */
  lemma {:induction false} OpSums(x: int, y: int, a: int, o: int, z: int)
    requires IsOp(And, x, y, a) && IsOp(Or, x, y, o) && IsOp(Xor, x, y, z)
    ensures x + y == o + a && x + y == z + 2 * a
    decreases (if x < 0 then -x else x) + (if y < 0 then -y else y)
  {
    hide IsOp, BitAt;
    if (x == 0 || x == -1) && (y == 0 || y == -1) {
      var b, c := x == -1, y == -1;
      OpOnes(And, b, c); OpUnique(And, x, y, a, Ones(Apply(And, b, c)));
      OpOnes(Or, b, c); OpUnique(Or, x, y, o, Ones(Apply(Or, b, c)));
      OpOnes(Xor, b, c); OpUnique(Xor, x, y, z, Ones(Apply(Xor, b, c)));
    } else {
      OpHalves(And, x, y, a);
      OpHalves(Or, x, y, o);
      OpHalves(Xor, x, y, z);
      OpSums(x / 2, y / 2, a / 2, o / 2, z / 2);
    }
  }

  /** A number has its own bits in common with itself, and none with its complement. */
  lemma AndSelf(x: int)
    ensures IsOp(And, x, x, x) && IsOp(And, x, -x - 1, 0)
  {
    forall k: nat ensures BitAt(0, k) == Apply(And, BitAt(x, k), BitAt(-x - 1, k)) {
      BitNot(x, k);
      OnesBits(false, k);
    }
  }

  /** So the bits in both, either or one of a number and itself, or its complement, are known. */
  lemma OpSelf(x: int, o: int, z: int)
    ensures IsOp(Or, x, x, o) ==> o == x
    ensures IsOp(Xor, x, x, z) ==> z == 0
    ensures IsOp(Or, x, -x - 1, o) ==> o == -1
    ensures IsOp(Xor, x, -x - 1, z) ==> z == -1
  {
    forall k: nat
      ensures BitAt(-1, k) && !BitAt(0, k) && BitAt(-x - 1, k) == !BitAt(x, k)
    {
      BitNot(x, k); OnesBits(true, k); OnesBits(false, k);
    }
    assert IsOp(Or, x, x, x) && IsOp(Xor, x, x, 0) && IsOp(Or, x, -x - 1, -1) && IsOp(Xor, x, -x - 1, -1);
    if IsOp(Or, x, x, o) { OpUnique(Or, x, x, o, x); }
    if IsOp(Xor, x, x, z) { OpUnique(Xor, x, x, z, 0); }
    if IsOp(Or, x, -x - 1, o) { OpUnique(Or, x, -x - 1, o, -1); }
    if IsOp(Xor, x, -x - 1, z) { OpUnique(Xor, x, -x - 1, z, -1); }
  }

  /** The operation on the w low bits of machine words. */
  function WordOp(op: Op, w: nat, a: nat, b: nat): (r: nat)
    ensures r < Pow2(w)
  {
    if w == 0 then 0 else One(Apply(op, a % 2 == 1, b % 2 == 1)) + 2 * WordOp(op, w - 1, a / 2, b / 2)
  }

  lemma {:induction false} OpWord(op: Op, w: nat, a: nat, b: nat, x: int, y: int, z: int)
    requires IsOp(op, x, y, z) && a < Pow2(w) && b < Pow2(w)
    ensures IsOp(op, a + Mul(Pow2(w), x), b + Mul(Pow2(w), y), WordOp(op, w, a, b) + Mul(Pow2(w), z))
    decreases w
  {
    hide Mul, IsOp;
    if w == 0 {
      MulIs(1, x); MulIs(1, y); MulIs(1, z);
    } else {
      OpWord(op, w - 1, a / 2, b / 2, x, y, z);
      Doubled(w, x); Doubled(w, y); Doubled(w, z);
      var p := Pow2(w - 1);
      OpTwice(op, a % 2 == 1, b % 2 == 1, a / 2 + Mul(p, x), b / 2 + Mul(p, y), WordOp(op, w - 1, a / 2, b / 2) + Mul(p, z));
      assert a == One(a % 2 == 1) + 2 * (a / 2) && b == One(b % 2 == 1) + 2 * (b / 2);
    }
  }

  lemma Doubled(w: nat, x: int)
    requires w > 0
    ensures Mul(Pow2(w), x) == 2 * Mul(Pow2(w - 1), x)
  {
    MulAssoc(2, Pow2(w - 1), x);
  }

  // ----- digits

  /** BITSPERDIG */
  const BITS: nat := Log2(BIGRAD)

  function DigitOp(op: Op, a: Digit, b: Digit): (r: Digit) { WordOp(op, BITS, a, b) }

  /** A digit of nothing but sign bits: BDIGMAX or 0. */
  function Hibits(neg: bool): (d: Digit) { if neg then BIGRAD - 1 else 0 }

  /** The integer whose low digits are s, with sign bits above. */
  function IntOf(s: seq<Digit>, neg: bool): (r: int) {
    if s == [] then Ones(neg) else s[0] + BIGRAD * IntOf(s[1..], neg)
  }

  function Fill(neg: bool, n: nat): (s: seq<Digit>) { seq(n, _ => Hibits(neg)) }

  /** Sign digits on top change nothing. */
  lemma {:induction false} Extend(s: seq<Digit>, neg: bool, n: nat)
    ensures IntOf(s + Fill(neg, n), neg) == IntOf(s, neg)
    decreases |s|, n
  {
    if s != [] {
      assert (s + Fill(neg, n))[1..] == s[1..] + Fill(neg, n);
      Extend(s[1..], neg, n);
    } else if n > 0 {
      assert (s + Fill(neg, n))[1..] == s + Fill(neg, n - 1);
      Extend(s, neg, n - 1);
    } else {
      assert s + Fill(neg, n) == s;
    }
  }

  /** Digit by digit, the operation on digits is the operation on integers. */
  lemma {:induction false} OpDigits(op: Op, s: seq<Digit>, a: bool, t: seq<Digit>, b: bool, u: seq<Digit>)
    requires |s| == |t| == |u| && forall i :: 0 <= i < |s| ==> u[i] == DigitOp(op, s[i], t[i])
    ensures IsOp(op, IntOf(s, a), IntOf(t, b), IntOf(u, Apply(op, a, b)))
  {
    hide IsOp;
    if s == [] {
      OpOnes(op, a, b);
    } else {
      OpDigits(op, s[1..], a, t[1..], b, u[1..]);
      OpFirst(op, s[0], t[0], IntOf(s[1..], a), IntOf(t[1..], b), IntOf(u[1..], Apply(op, a, b)));
    }
  }

  lemma OpFirst(op: Op, a: Digit, b: Digit, x: int, y: int, z: int)
    requires IsOp(op, x, y, z)
    ensures IsOp(op, a + BIGRAD * x, b + BIGRAD * y, DigitOp(op, a, b) + BIGRAD * z)
  {
    hide IsOp, Mul;
    OpWord(op, BITS, a, b, x, y, z);
    MulIs(BIGRAD, x); MulIs(BIGRAD, y); MulIs(BIGRAD, z);
  }

  /** An absorbed operand's higher digits need not be looked at. */
  lemma {:induction false} OpShort(op: Op, s: seq<Digit>, a: bool, t: seq<Digit>, b: bool, u: seq<Digit>)
    requires Absorbs(op, a) && |s| == |u| <= |t| && forall i :: 0 <= i < |s| ==> u[i] == DigitOp(op, s[i], t[i])
    ensures IsOp(op, IntOf(s, a), IntOf(t, b), IntOf(u, a))
  {
    hide IsOp;
    if s == [] {
      OpAbsorbed(op, a, IntOf(t, b));
    } else {
      OpShort(op, s[1..], a, t[1..], b, u[1..]);
      OpFirst(op, s[0], t[0], IntOf(s[1..], a), IntOf(t[1..], b), IntOf(u[1..], a));
    }
  }

  // ----- single bits

  /** The k low bits of x are zeros. */
  predicate LowZero(x: int, k: nat)
    decreases k
  {
    k == 0 || (x % 2 == 0 && LowZero(x / 2, k - 1))
  }

  lemma {:induction false} BitNot(x: int, k: nat)
    ensures BitAt(-x - 1, k) == !BitAt(x, k)
    decreases k
  {
    if k > 0 {
      assert (-x - 1) / 2 == -(x / 2) - 1;
      BitNot(x / 2, k - 1);
    }
  }

  /** Negating a number flips the bits above its lowest one. */
  lemma {:induction false} BitNeg(x: int, k: nat)
    ensures BitAt(-x, k) == if LowZero(x, k) then BitAt(x, k) else !BitAt(x, k)
    decreases k
  {
    if k > 0 {
      if x % 2 == 0 {
        assert -x / 2 == -(x / 2);
        BitNeg(x / 2, k - 1);
      } else {
        assert -x / 2 == -(x / 2) - 1;
        BitNot(x / 2, k - 1);
      }
    }
  }

  /** A word below: its bits come first. */
  lemma {:induction false} BitWord(w: nat, a: nat, x: int, k: nat)
    requires a < Pow2(w)
    ensures BitAt(a + Mul(Pow2(w), x), k) == if k < w then BitAt(a, k) else BitAt(x, k - w)
    ensures k <= w ==> LowZero(a + Mul(Pow2(w), x), k) == LowZero(a, k)
    ensures k >= w ==> LowZero(a + Mul(Pow2(w), x), k) == (a == 0 && LowZero(x, k - w))
    decreases w
  {
    hide Mul;
    if w == 0 {
      MulIs(1, x);
    } else {
      Doubled(w, x);
      var y := a + Mul(Pow2(w), x);
      assert y % 2 == a % 2 && y / 2 == a / 2 + Mul(Pow2(w - 1), x);
      if k > 0 { BitWord(w - 1, a / 2, x, k - 1); }
    }
  }

  /** Bit k in arithmetic. */
  lemma BitIs(x: int, k: nat)
    ensures BitAt(x, k) <==> x / Pow2(k) % 2 == 1
  {
    hide Pow2;
    var p := Pow2(k);
    assert x == x % p + Mul(p, x / p);
    BitWord(k, x % p, x / p, k);
  }

  /** Bit j of digit i. */
  function Index(i: nat, j: nat): (k: nat) { i * BITS + j }

  lemma IndexNext(i: nat, j: nat)
    requires i > 0
    ensures Index(i, j) == BITS + Index(i - 1, j) && Index(0, j) == j
  {
    MulLe(0, i - 1, BITS);
  }

  lemma IntFirst(s: seq<Digit>, neg: bool)
    requires s != []
    ensures IntOf(s, neg) == s[0] + Mul(Pow2(BITS), IntOf(s[1..], neg))
  {
  }

  lemma {:induction false} DigitBit(s: seq<Digit>, neg: bool, i: nat, j: nat)
    requires j < BITS
    ensures BitAt(IntOf(s, neg), Index(i, j)) == if i < |s| then BitAt(s[i], j) else neg
    decreases |s|
  {
    hide Mul, Index, BitAt, LowZero;
    if s == [] {
      OnesBits(neg, Index(i, j));
    } else {
      IntFirst(s, neg);
      BitWord(BITS, s[0], IntOf(s[1..], neg), Index(i, j));
      if i == 0 {
        IndexZero(j);
      } else {
        IndexNext(i, j);
        DigitBit(s[1..], neg, i - 1, j);
      }
    }
  }

  lemma IndexZero(j: nat)
    ensures Index(0, j) == j
  {
  }

  lemma {:induction false} DigitLow(s: seq<Digit>, i: nat, j: nat)
    requires j < BITS && i < |s|
    ensures LowZero(IntOf(s, false), Index(i, j)) <==> LowZero(s[i], j) && forall t :: 0 <= t < i ==> s[t] == 0
    decreases |s|
  {
    hide Mul, Index, BitAt, LowZero;
    IntFirst(s, false);
    BitWord(BITS, s[0], IntOf(s[1..], false), Index(i, j));
    if i == 0 {
      IndexZero(j);
    } else {
      IndexNext(i, j);
      DigitLow(s[1..], i - 1, j);
      assert forall t :: 0 < t < i ==> s[t] == s[1..][t - 1];
    }
  }

  // ----- powers of two

  lemma {:induction false} Pow2Adds(a: nat, b: nat)
    ensures Pow2(a + b) == Mul(Pow2(a), Pow2(b))
    decreases b
  {
    hide Mul;
    if b == 0 {
      MulIs(Pow2(a), 1);
    } else {
      Pow2Adds(a, b - 1);
      assert Pow2(a + b) == 2 * Pow2(a + (b - 1));
      MulTwice(Pow2(a), Pow2(b - 1));
    }
  }

  lemma MulTwice(a: int, b: int)
    ensures Mul(a, 2 * b) == 2 * Mul(a, b)
  {
  }

  lemma Pow2Fifteen()
    ensures Pow2(15) == 32768
  {
    assert Pow2(15) == 8 * Pow2(12) == 64 * Pow2(9) == 512 * Pow2(6) == 4096 * Pow2(3) == 32768;
  }

  lemma SixteenBits()
    ensures BITS >= 16 && Pow2(BITS) == BIGRAD
  {
    if BITS < 16 {
      Pow2Monotone(BITS, 15);
      Pow2Fifteen();
    }
  }

  lemma {:induction false} BasePow2(k: nat)
    ensures BITS * k >= 0 && P(k) == Pow2(BITS * k)
  {
    hide Pow2;
    if k == 0 {
      Pow2Zero();
    } else {
      BasePow2(k - 1);
      SixteenBits();
      NextMultiple(BITS, k);
      Pow2Adds(BITS * (k - 1), BITS);
      MulIs(P(k - 1), BIGRAD);
    }
  }

  lemma Pow2Zero()
    ensures Pow2(0) == 1
  {
  }

  lemma NextMultiple(n: nat, k: nat)
    requires k > 0
    ensures n * k == n * (k - 1) + n
  {
  }

  lemma IndexIs(i: nat, nb: nat)
    ensures BITS * i >= 0 && Index(i, nb) == BITS * i + nb
  {
  }

  lemma WeightAt(i: nat, nb: nat)
    ensures Pow2(Index(i, nb)) == Mul(P(i), Pow2(nb))
  {
    hide Pow2, Mul, P;
    BasePow2(i);
    IndexIs(i, nb);
    Pow2Adds(BITS * i, nb);
  }
}
