/** The table of powers that radix conversion works with (power_cache_get_power). */
module PowerCache {
  import opened Digits
  import opened Memory
  import opened Shifts
  import opened Squaring
  import opened Toom3Steps
  import opened FastMul
  import opened RadixText

  /** e is the largest exponent for which the power of b fits in a BDIGIT_DBL. */
  ghost predicate Largest(b: nat, e: nat) { Ex(b, e) < BIGRAD * BIGRAD <= Ex(b, e + 1) }

  /** maxpow_in_bdigit_dbl */
  method MaxPow(base: nat) returns (maxpow: nat, exponent: nat)
    requires ValidRadix(base)
    ensures exponent > 0 && maxpow == Ex(base, exponent) && Largest(base, exponent)
  {
    hide Quot, Rem, Ex;
    ExOne(base);
    maxpow, exponent := base, 1;
    while maxpow <= Quot(BIGRAD * BIGRAD - 1, base)
      invariant exponent > 0 && maxpow == Ex(base, exponent) && 0 < maxpow < BIGRAD * BIGRAD
      decreases BIGRAD * BIGRAD - maxpow
    {
      QuotRem(BIGRAD * BIGRAD - 1, base);
      MulLe(maxpow, Quot(BIGRAD * BIGRAD - 1, base), base);
      MulLe(2, base, maxpow);
      ExNext(base, exponent);
      maxpow, exponent := maxpow * base, exponent + 1;
    }
    QuotRem(BIGRAD * BIGRAD - 1, base);
    MulLe(Quot(BIGRAD * BIGRAD - 1, base) + 1, maxpow, base);
    ExNext(base, exponent);
  }

  lemma ExOne(b: nat)
    ensures Ex(b, 1) == b
    ensures b < 65536 ==> b < BIGRAD * BIGRAD
  {
    assert Ex(b, 1) == Ex(b, 0) * b;
    MulLe(65536, BIGRAD, BIGRAD);
  }

  lemma ExNext(b: nat, e: nat)
    ensures Ex(b, e + 1) == Ex(b, e) * b
  {
  }

  lemma {:induction false} ExGrows(b: nat, e: nat, f: nat)
    requires b > 0 && e <= f
    ensures Ex(b, e) <= Ex(b, f)
    decreases f
  {
    if e < f {
      ExGrows(b, e, f - 1);
      MulLe(1, b, Ex(b, f - 1));
    }
  }

  lemma LargestUnique(b: nat, e: nat, f: nat)
    requires b > 0 && Largest(b, e) && Largest(b, f)
    ensures e == f
  {
    hide Ex;
    if e < f { ExGrows(b, e + 1, f); }
    if f < e { ExGrows(b, f + 1, e); }
  }

  /** The largest power needs both digits. */
  lemma LargestIsBig(b: nat, e: nat)
    requires ValidRadix(b) && Largest(b, e)
    ensures BIGRAD <= Ex(b, e) < P(2)
  {
    hide Ex;
    ExNext(b, e);
    assert P(2) == P(1) * BIGRAD == P(0) * BIGRAD * BIGRAD;
    NotSmall(Ex(b, e), b, BIGRAD);
  }

  lemma NotSmall(v: int, b: int, big: int)
    requires v * b >= big * big && 0 < b <= big
    ensures v >= big
  {
    if v < big {
      MulLe(v, big - 1, b);
      MulLe(b, big, big - 1);
      assert false;
    }
  }

  /** A cached power: where its digits are, and how many characters it stands for. */
  datatype Entry = Entry(p: nat, n: nat, numdigits: nat)

  /** The characters that level stands for. */
  function Chars(nd: nat, level: nat): (r: nat) { nd * Pow2(level) }

  lemma CharsNext(nd: nat, level: nat)
    ensures Chars(nd, level + 1) == 2 * Chars(nd, level) && Chars(nd, 0) == nd
  {
    assert Pow2(level + 1) == 2 * Pow2(level);
    MulAssoc(nd, 2, Pow2(level));
  }

  /** The power of level: the largest power that fits in a BDIGIT_DBL, squared `level` times. */
  ghost function Power(b: nat, nd: nat, level: nat): (r: nat) { Ex(b, Chars(nd, level)) }

  lemma PowerNext(b: nat, nd: nat, level: nat)
    ensures Power(b, nd, level + 1) == Power(b, nd, level) * Power(b, nd, level)
  {
    hide Ex, Chars;
    CharsNext(nd, level);
    ExAdds(b, Chars(nd, level), Chars(nd, level));
  }

  ghost predicate EntryAt(m: seq<Digit>, e: Entry, b: nat, nd: nat, level: nat) {
    && 0 < e.n && e.p + e.n <= |m| && m[e.p + e.n - 1] != 0
    && V(m, e.p, e.n) == Power(b, nd, level) && e.numdigits == Chars(nd, level)
  }

  /** All that was in memory still is. */
  ghost predicate Grew(a: seq<Digit>, b: seq<Digit>) { Keeps2(a, b, |a|, 0, |a|, 0) }

  lemma GrewTrans(a: seq<Digit>, b: seq<Digit>, c: seq<Digit>)
    requires Grew(a, b) && Grew(b, c)
    ensures Grew(a, c)
  {
    hide V;
    forall i | 0 <= i < |a| ensures a[i] == c[i] { assert b[i] == c[i]; assert a[i] == b[i]; }
    Keeps2Intro(a, c, |a|, 0, |a|, 0);
  }

  /** Cells from |a| on were written; b may be larger than a. */
  lemma GrewFrom(a: seq<Digit>, b: seq<Digit>, c: seq<Digit>, z: nat, n: nat)
    requires Grew(a, b) && Keeps(b, c, z, n) && |a| <= z
    ensures Grew(a, c)
  {
    hide V;
    forall i | 0 <= i < |a| ensures a[i] == c[i] { assert b[i] == c[i]; assert a[i] == b[i]; }
    Keeps2Intro(a, c, |a|, 0, |a|, 0);
  }

  /** New cells above all others. */
  lemma AllocGrew(a: seq<Digit>, b: seq<Digit>)
    requires |a| <= |b| && Keeps2(a, b, |a|, |b| - |a|, |a|, |b| - |a|)
    ensures Grew(a, b)
  {
    hide V;
    forall i | 0 <= i < |a| ensures a[i] == b[i] { assert b[i] == a[i]; }
    Keeps2Intro(a, b, |a|, 0, |a|, 0);
  }

  lemma EntryGrew(a: seq<Digit>, b: seq<Digit>, e: Entry, r: nat, nd: nat, level: nat)
    requires Grew(a, b) && EntryAt(a, e, r, nd, level)
    ensures EntryAt(b, e, r, nd, level)
  {
    hide V, Power;
    assert V(b, e.p, e.n) == V(a, e.p, e.n);
    assert b[e.p + e.n - 1] == a[e.p + e.n - 1];
  }

  class Table {
    const base: nat
    /** Levels 0, 1, ... that have been asked for. */
    var levels: seq<Entry>

    constructor (base: nat)
      ensures this.base == base && levels == []
    {
      this.base := base;
      levels := [];
    }

    ghost predicate Valid(m: seq<Digit>, nd: nat)
      reads this
    {
      && ValidRadix(base) && nd > 0 && Largest(base, nd)
      && forall i: nat {:trigger levels[i]} :: i < |levels| ==> EntryAt(m, levels[i], base, nd, i)
    }

    lemma ValidGrew(a: seq<Digit>, b: seq<Digit>, nd: nat)
      requires Valid(a, nd) && Grew(a, b)
      ensures Valid(b, nd)
    {
      hide EntryAt, Largest;
      forall i: nat | i < |levels| ensures EntryAt(b, levels[i], base, nd, i) {
        EntryGrew(a, b, levels[i], base, nd, i);
      }
    }

    /** power_cache_get_power */
    method GetPower(mem: Memory, level: nat, ghost nd: nat)
      requires Valid(mem.cells, nd)
      modifies this`levels, mem
      ensures Valid(mem.cells, nd) && level < |levels| && old(levels) <= levels
      ensures Grew(old(mem.cells), mem.cells)
      ensures old(level < |levels|) ==> mem.cells == old(mem.cells) && levels == old(levels)
      ensures forall i {:trigger levels[i]} :: |old(levels)| <= i < |levels| ==> levels[i].p >= |old(mem.cells)|
      decreases level
    {
      hide EntryAt, Largest, V, Ex, Grew;
      ghost var m0 := mem.cells;
      if level < |levels| {
        GrewSelf(m0);
      } else if level == 0 {
        var e := FirstPower(mem, nd);
        ValidGrew(m0, mem.cells, nd);
        levels := [e];
      } else {
        GetPower(mem, level - 1, nd);
        ghost var m1 := mem.cells;
        GrewSize(m0, m1);
        if |levels| == level {
          var e := NextPower(mem, levels[level - 1], nd, level - 1);
          ValidGrew(m1, mem.cells, nd);
          levels := levels + [e];
          GrewTrans(m0, m1, mem.cells);
        }
      }
    }

    method FirstPower(mem: Memory, ghost nd: nat) returns (e: Entry)
      requires Valid(mem.cells, nd)
      modifies mem
      ensures Grew(old(mem.cells), mem.cells) && EntryAt(mem.cells, e, base, nd, 0) && e.p == |old(mem.cells)|
    {
      hide V, Ex, Chars, P, Largest;
      ghost var m0 := mem.cells;
      var maxpow, numdigits := MaxPow(base);
      LargestUnique(base, numdigits, nd);
      LargestIsBig(base, nd);
      CharsNext(nd, 0);
      var p := Alloc(mem, 2);
      ghost var m1 := mem.cells;
      Keeps2Intro(m0, m1, |m0|, 0, |m0|, 0);
      PutDouble(mem, p, 2, maxpow);
      GrewFrom(m0, m1, mem.cells, p, 2);
      TopNotZero(mem.cells, p, maxpow);
      e := Entry(p, 2, numdigits);
    }

    /** The square of a power, without zero digits on top. */
    method NextPower(mem: Memory, last: Entry, ghost nd: nat, ghost level: nat) returns (e: Entry)
      requires EntryAt(mem.cells, last, base, nd, level) && base > 0
      modifies mem
      ensures Grew(old(mem.cells), mem.cells) && EntryAt(mem.cells, e, base, nd, level + 1) && e.p == |old(mem.cells)|
    {
      hide V, Ex, Chars, P, Power;
      ghost var m0 := mem.cells;
      var z := Alloc(mem, 2 * last.n);
      ghost var m1 := mem.cells;
      Keeps2Intro(m0, m1, |m0|, 0, |m0|, 0);
      assert V(m1, last.p, last.n) == V(m0, last.p, last.n);
      if last.n < KARATSUBA_MUL_DIGITS {
        SqFast(mem, z, 2 * last.n, last.p, last.n);
      } else {
        BaryMul(mem, z, 2 * last.n, last.p, last.n, last.p, last.n);
      }
      GrewFrom(m0, m1, mem.cells, z, 2 * last.n);
      var n := Trunc(mem, z, 2 * last.n);
      PowerNext(base, nd, level);
      CharsNext(nd, level);
      PowerPositive(base, nd, level + 1);
      if n == 0 { VEmpty(mem.cells, z); }
      e := Entry(z, n, last.numdigits * 2);
    }
  }

  lemma PowerPositive(b: nat, nd: nat, level: nat)
    requires b > 0
    ensures Power(b, nd, level) > 0
  {
  }

  lemma GrewSize(a: seq<Digit>, b: seq<Digit>)
    requires Grew(a, b)
    ensures |a| <= |b|
  {
  }

  lemma GrewSelf(m: seq<Digit>)
    ensures Grew(m, m)
  {
    hide V;
    Keeps2Intro(m, m, |m|, 0, |m|, 0);
  }

  lemma TopNotZero(m: seq<Digit>, p: nat, v: nat)
    requires p + 2 <= |m| && V(m, p, 2) == v >= BIGRAD
    ensures m[p + 1] != 0
  {
    hide V, Sh, P;
    VStep(m, p, 1);
    VOne(m, p);
    ShNone(1);
  }
}
