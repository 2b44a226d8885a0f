/** Reading a number from its digits in a radix (str2big). */
module Parsing {
  import opened Digits
  import opened Memory
  import opened AddSub
  import opened Shifts
  import opened Toom3Steps
  import opened FastMul
  import opened RadixText
  import opened PowerCache
  import Printing

  /** The digits in a text; other characters (underscores) are passed over. */
  function DigitsOf(s: string): (r: seq<nat>) {
    if s == "" then []
    else
      var rest, c := DigitsOf(s[..|s| - 1]), ConvDigit(s[|s| - 1]);
      if c < 0 then rest else rest + [c]
  }

  /** Each character adds its digit, or nothing. */
  lemma {:induction false} DigitsOfConcat(s: string, t: string)
    ensures DigitsOf(s + t) == DigitsOf(s) + DigitsOf(t)
  {
    if t == "" {
      assert s + t == s;
    } else {
      assert (s + t)[..|s + t| - 1] == s + t[..|t| - 1];
      DigitsOfConcat(s, t[..|t| - 1]);
    }
  }

  lemma DigitsOfOne(c: char)
    ensures DigitsOf([c]) == if ConvDigit(c) == -1 then [] else [ConvDigit(c)]
  {
    assert [c][..0] == "";
  }

  /** What str2big_scan_digits lets through: no digit that the radix does not have. */
  ghost predicate Readable(s: string, b: nat) { forall i :: 0 <= i < |s| ==> ConvDigit(s[i]) < b }

  lemma {:induction false} DigitsOfBound(s: string, b: nat)
    requires Readable(s, b)
    ensures Digital(b, DigitsOf(s))
  {
    if s != "" { DigitsOfBound(s[..|s| - 1], b); }
  }

  lemma {:induction false} NumberBound(b: nat, s: seq<nat>)
    requires b > 0 && Digital(b, s)
    ensures Number(b, s) < Ex(b, |s|)
  {
    if s != [] {
      var t := s[..|s| - 1];
      NumberBound(b, t);
      hide Ex, Number;
      OneMore(Number(b, t), s[|s| - 1], Ex(b, |t|), b);
      NumberLast(b, s);
      ExNext(b, |t|);
    }
  }

  lemma OneMore(v: int, d: int, e: int, b: int)
    requires v < e && d < b && 0 <= b
    ensures v * b + d < e * b
  {
    MulLe(v + 1, e, b);
  }

  lemma NumberLast(b: nat, s: seq<nat>)
    requires s != []
    ensures Number(b, s) == Number(b, s[..|s| - 1]) * b + s[|s| - 1]
  {
  }

  /** The number of BDIGITs set aside: two for each nd characters. */
  function RoomOf(n: nat, nd: nat): (r: nat)
    requires nd > 0
  {
    RoundUp(n, nd);
    2 * Quot(n + nd - 1, nd)
  }

  /** roomof(n, nd) = (n + nd - 1) / nd */
  lemma RoundUp(n: nat, nd: nat)
    requires nd > 0
    ensures Quot(n + nd - 1, nd) >= 0 && n <= Quot(n + nd - 1, nd) * nd < n + nd
  {
    hide Quot, Rem;
    QuotRem(n + nd - 1, nd);
    var q := Quot(n + nd - 1, nd);
    if q < 0 { MulLe(q, -1, nd); }
  }

  lemma RoomEnough(b: nat, nd: nat, n: nat)
    requires b > 0 && nd > 0 && Largest(b, nd)
    ensures Ex(b, n) <= P(RoomOf(n, nd))
  {
    hide Ex, P;
    RoundUp(n, nd);
    var g := Quot(n + nd - 1, nd);
    ExGrows(b, n, g * nd);
    GroupsFit(b, nd, g);
  }

  lemma {:induction false} GroupsFit(b: nat, nd: nat, g: nat)
    requires Largest(b, nd)
    ensures Ex(b, g * nd) <= P(2 * g)
  {
    hide Ex, P;
    if g == 0 {
      ExZero(b);
    } else {
      GroupsFit(b, nd, g - 1);
      OneGroup(g, nd);
      ExAdds(b, (g - 1) * nd, nd);
      PAdds(2 * (g - 1), 2);
      PTwo();
      Products(Ex(b, (g - 1) * nd), P(2 * (g - 1)), Ex(b, nd), P(2));
    }
  }

  lemma ExZero(b: nat)
    ensures Ex(b, 0) == 1 == P(0)
  {
  }

  lemma PTwo()
    ensures P(2) == BIGRAD * BIGRAD
  {
    assert P(2) == P(1) * BIGRAD == P(0) * BIGRAD * BIGRAD;
  }

  lemma OneGroup(g: nat, nd: nat)
    requires g > 0
    ensures (g - 1) * nd >= 0 && g * nd == (g - 1) * nd + nd
  {
    MulLe(0, g - 1, nd);
  }

  lemma Products(a: int, a': int, c: int, c': int)
    requires 0 <= a <= a' && 0 <= c <= c'
    ensures a * c <= a' * c'
  {
    MulLe(a, a', c);
    MulLe(c, c', a');
  }

  // ----- one digit at a time

  /** z <- z * base + c, over the blen digits in use, which may become more. */
  method TimesPlus(mem: Memory, z: nat, zn: nat, blen0: nat, base: nat, c: nat) returns (blen: nat)
    requires z + zn <= |mem.cells| && 0 < blen0 <= zn && 0 < base < BIGRAD && c < base
    requires V(mem.cells, z + blen0, zn - blen0) == 0
    requires V(mem.cells, z, zn) * base + c < P(zn)
    modifies mem
    ensures Keeps(old(mem.cells), mem.cells, z, zn) && blen0 <= blen <= zn
    ensures V(mem.cells, z, zn) == V(old(mem.cells), z, zn) * base + c
    ensures V(mem.cells, z + blen, zn - blen) == 0
  {
    hide V, P, Sh, BigLo, BigDn;
    ghost var m0 := mem.cells;
    blen := blen0;
    var num: int, i: nat := c, 0;
    VEmpty(m0, z); ShZero(num);
    while i < blen || num != 0
      invariant i <= blen && blen0 <= blen <= zn && 0 <= num < base
      invariant SameOutside(m0, mem.cells, z, i)
      invariant V(mem.cells, z, i) + Sh(num, i) == V(m0, z, i) * base + c
      invariant V(m0, z + blen, zn - blen) == 0
      decreases zn - i, num
    {
      if i == blen {
        MoreRoom(m0, mem.cells, z, zn, i, num, base, c);
        blen := blen + 1;
      }
      ghost var d := mem.cells[z + i];
      ghost var before, num0 := mem.cells, num;
      num := num + mem.cells[z + i] * base;
      CarryFits(num0, d, base);
      num := PutDigit(mem, z, i, num);
      VStep(m0, z, i);
      StepSum(V(before, z, i), num0, d, base, i, V(m0, z, i), c);
      i := i + 1;
    }
    ShNone(i);
    KeepsIntro(m0, mem.cells, z, i);
    Upper(m0, mem.cells, z, zn, i);
    KeepsIntro(m0, mem.cells, z, zn);
  }

  /** A carry out of the digits in use: there is a digit above them, and it is zero. */
  lemma MoreRoom(m0: seq<Digit>, m: seq<Digit>, z: nat, zn: nat, i: nat, num: int, base: nat, c: nat)
    requires z + zn <= |m0| == |m| && i <= zn && num > 0 && V(m0, z + i, zn - i) == 0
    requires V(m, z, i) + Sh(num, i) == V(m0, z, i) * base + c && V(m0, z, zn) * base + c < P(zn)
    ensures i < zn && m0[z + i] == 0 && V(m0, z + (i + 1), zn - (i + 1)) == 0
  {
    hide V, P, Sh;
    VSplit(m0, z, i, zn - i);
    ShNone(i);
    if i == zn {
      VBound(m, z, i);
      ShLe(1, num, i);
      ShOne(i);
      assert false;
    }
    VFirst(m0, z + i, zn - (i + 1));
    VBound(m0, z + (i + 1), zn - (i + 1));
    Nothing(m0[z + i], V(m0, z + i + 1, zn - (i + 1)));
  }

  lemma Nothing(d: Digit, v: int)
    requires v >= 0 && d + Sh(v, 1) == 0
    ensures d == 0 && v == 0
  {
    hide Sh, P;
    ShNone(1);
    if v > 0 { ShLt(0, v, 1); }
  }

  lemma CarryFits(num: int, d: Digit, base: nat)
    requires 0 <= num < base
    ensures 0 <= BigDn(num + d * base) < base
  {
    hide BigDn;
    MulLe(0, d, base);
    MulLe(d as int + 1, BIGRAD, base);
    BigDnBounds(num + d * base, 0, base);
  }

  lemma StepSum(v: int, num: int, d: Digit, base: nat, i: nat, v0: int, c: int)
    requires v + Sh(num, i) == v0 * base + c
    ensures v + Sh(num + d * base, i) == (v0 + Sh(d, i)) * base + c
  {
    hide P;
    ShAdds(num, d * base, i);
    MulAssoc(d, base, P(i));
    MulAssoc(d, P(i), base);
  }

  lemma Upper(m0: seq<Digit>, m: seq<Digit>, z: nat, zn: nat, i: nat)
    requires z + zn <= |m0| == |m| && i <= zn && Keeps(m0, m, z, i) && V(m0, z + i, zn - i) == 0
    ensures V(m, z + i, zn - i) == 0 && V(m, z, zn) == V(m, z, i) && V(m0, z, zn) == V(m0, z, i)
  {
    hide V, P, Sh;
    VSplit(m0, z, i, zn - i);
    VSplit(m, z, i, zn - i);
    ShNone(i);
  }

  /** str2big_normal */
  method Str2BigNormal(mem: Memory, s: string, z: nat, zn: nat, base: nat)
    requires ValidRadix(base) && Readable(s, base) && z + zn <= |mem.cells|
    requires Ex(base, |DigitsOf(s)|) <= P(zn) && (DigitsOf(s) != [] ==> zn > 0)
    modifies mem
    ensures Keeps(old(mem.cells), mem.cells, z, zn)
    ensures V(mem.cells, z, zn) == Number(base, DigitsOf(s))
  {
    hide V, P, Ex, Number;
    ghost var m0 := mem.cells;
    Zero(mem, z, zn);
    var blen := 1;
    NumberNone(base);
    if zn > 0 { ZeroAbove(mem.cells, z, zn); }
    for p := 0 to |s|
      invariant Keeps(m0, mem.cells, z, zn)
      invariant V(mem.cells, z, zn) == Number(base, DigitsOf(s[..p]))
      invariant zn > 0 ==> 1 <= blen <= zn && V(mem.cells, z + blen, zn - blen) == 0
    {
      DigitsStep(s, p, base, zn);
      var c := ConvDigit(s[p]);
      if c < 0 { continue; }
      ghost var m1 := mem.cells;
      blen := TimesPlus(mem, z, zn, blen, base, c);
      KeepsIntro(m0, mem.cells, z, zn);
    }
    assert s[..|s|] == s;
  }

  lemma NumberNone(b: nat)
    ensures Number(b, []) == 0 && DigitsOf("") == []
  {
  }

  lemma ZeroAbove(m: seq<Digit>, z: nat, zn: nat)
    requires z + zn <= |m| && zn > 0 && V(m, z, zn) == 0
    ensures V(m, z + 1, zn - 1) == 0
  {
    hide V, P, Sh;
    VFirst(m, z, zn - 1);
    VBound(m, z + 1, zn - 1);
    Nothing(m[z], V(m, z + 1, zn - 1));
  }

  lemma DigitsStep(s: string, p: nat, b: nat, zn: nat)
    requires p < |s| && ValidRadix(b) && Readable(s, b) && Ex(b, |DigitsOf(s)|) <= P(zn) && (DigitsOf(s) != [] ==> zn > 0)
    ensures ConvDigit(s[p]) < 0 ==> DigitsOf(s[..p + 1]) == DigitsOf(s[..p])
    ensures ConvDigit(s[p]) >= 0 ==>
            && Number(b, DigitsOf(s[..p + 1])) == Number(b, DigitsOf(s[..p])) * b + ConvDigit(s[p])
            && Number(b, DigitsOf(s[..p + 1])) < P(zn) && zn > 0
  {
    hide Ex, P;
    assert s[..p + 1][..p] == s[..p];
    var t := DigitsOf(s[..p + 1]);
    DigitsOfPrefix(s, p + 1);
    DigitsOfBound(s[..p + 1], b);
    NumberBound(b, t);
    ExGrows(b, |t|, |DigitsOf(s)|);
    if ConvDigit(s[p]) >= 0 { assert t[..|t| - 1] == DigitsOf(s[..p]); }
  }

  lemma {:induction false} DigitsOfPrefix(s: string, p: nat)
    requires p <= |s|
    ensures |DigitsOf(s[..p])| <= |DigitsOf(s)|
    decreases |s| - p
  {
    if p < |s| {
      assert s[..p + 1][..p] == s[..p];
      DigitsOfPrefix(s, p + 1);
    } else {
      assert s[..p] == s;
    }
  }

  // ----- groups of characters, from the end

  lemma {:induction false} NumberConcat(b: nat, s: seq<nat>, t: seq<nat>)
    ensures Number(b, s + t) == Number(b, s) * Ex(b, |t|) + Number(b, t)
  {
    if t == [] {
      assert s + t == s;
    } else {
      var t', d := t[..|t| - 1], t[|t| - 1];
      NumberConcat(b, s, t');
      assert (s + t)[..|s + t| - 1] == s + t';
      hide Ex, Number;
      NumberLast(b, s + t);
      NumberLast(b, t);
      ExNext(b, |t'|);
      Regroup(Number(b, s), Ex(b, |t'|), Number(b, t'), b, d);
    }
  }

  lemma Regroup(n: int, e: int, m: int, b: int, d: int)
    ensures (n * e + m) * b + d == n * (e * b) + (m * b + d)
  {
    MulAssoc(n, e, b);
  }

  function Least(a: nat, b: nat): (r: nat) { if a < b then a else b }

  /** How many groups of nd characters n characters make. */
  function GroupCount(n: nat, nd: nat): (r: nat)
    requires nd > 0
  {
    if n == 0 then 0 else 1 + GroupCount(n - Least(nd, n), nd)
  }

  lemma {:induction false} GroupRoom(n: nat, nd: nat)
    requires nd > 0
    ensures RoomOf(n, nd) == 2 * GroupCount(n, nd)
    decreases n
  {
    hide Quot, Rem;
    if n > 0 {
      GroupRoom(n - Least(nd, n), nd);
      OneLess(n, nd);
    } else {
      QuotUnique(nd - 1, nd, 0, nd - 1);
    }
  }

  lemma OneLess(n: nat, nd: nat)
    requires nd > 0 && n > 0
    ensures Quot(n + nd - 1, nd) == 1 + Quot(n - Least(nd, n) + nd - 1, nd)
  {
    hide Quot, Rem;
    if n <= nd {
      QuotUnique(nd - 1, nd, 0, nd - 1);
      QuotUnique(n + nd - 1, nd, 1, n - 1);
    } else {
      QuotRem(n - 1, nd);
      QuotUnique(n + nd - 1, nd, Quot(n - 1, nd) + 1, Rem(n - 1, nd));
    }
  }

  /** The i digits at u, two for each group, are the characters of d from `left` on. */
  ghost predicate Groups(m: seq<Digit>, u: nat, i: nat, b: nat, nd: nat, d: seq<nat>, left: nat)
    requires u + i <= |m|
    decreases i
  {
    if i < 2 then i == 0 && left == |d|
    else
      var c := |d| - Least(nd, |d|);
      |d| > 0 && V(m, u, 2) == Number(b, d[c..]) && Groups(m, u + 2, i - 2, b, nd, d[..c], left)
  }

  lemma {:induction false} GroupsMore(m0: seq<Digit>, m: seq<Digit>, u: nat, i: nat, b: nat, nd: nat, d: seq<nat>, left: nat)
    requires u + i + 2 <= |m0| == |m| && Keeps(m0, m, u + i, 2) && Groups(m0, u, i, b, nd, d, left) && 0 < left
    requires left <= |d| && V(m, u + i, 2) == Number(b, d[left - Least(nd, left)..left])
    ensures Groups(m, u, i + 2, b, nd, d, left - Least(nd, left))
    decreases i
  {
    hide V, Number;
    var c := |d| - Least(nd, |d|);
    if i < 2 {
      assert d[c..] == d[left - Least(nd, left)..left];
    } else {
      assert V(m, u, 2) == V(m0, u, 2);
      GroupsLeft(m0, u + 2, i - 2, b, nd, d[..c], left);
      assert d[..c][left - Least(nd, left)..left] == d[left - Least(nd, left)..left];
      GroupsMore(m0, m, u + 2, i - 2, b, nd, d[..c], left);
    }
  }

  lemma {:induction false} GroupsLeft(m: seq<Digit>, u: nat, i: nat, b: nat, nd: nat, d: seq<nat>, left: nat)
    requires u + i <= |m| && Groups(m, u, i, b, nd, d, left)
    ensures left <= |d|
    decreases i
  {
    hide V, Number;
    if i >= 2 { GroupsLeft(m, u + 2, i - 2, b, nd, d[..|d| - Least(nd, |d|)], left); }
  }

  /** The group being read: the last t of the characters before `left`. */
  lemma GroupGrows(b: nat, d: seq<nat>, left: nat, t: nat)
    requires t < left <= |d|
    ensures Number(b, d[left - t - 1..left]) == d[left - t - 1] * Ex(b, t) + Number(b, d[left - t..left])
  {
    hide Ex;
    var front, back := [d[left - t - 1]], d[left - t..left];
    assert d[left - t - 1..left] == front + back;
    NumberConcat(b, front, back);
    assert front[..0] == [];
    assert Number(b, front) == Number(b, []) * b + d[left - t - 1];
  }

  /** Reading from the end: the characters before p are still to be read, t of the group before `left` have been. */
  ghost predicate Reading(s: string, p: nat, d: seq<nat>, left: nat, t: nat, numDigits: int, m: int,
                          base: nat, nd: nat, currentBase: nat, dd: nat) {
    && p <= |s| && t <= left <= |d| && numDigits == left - t && DigitsOf(s[..p]) == d[..left - t]
    && m == Least(nd, left) - t >= 0 && currentBase == Ex(base, t) && dd == Number(base, d[left - t..left])
  }

  lemma ReadStart(s: string, base: nat, nd: nat)
    ensures var d := DigitsOf(s); Reading(s, |s|, d, |d|, 0, |d|, Least(nd, |d|), base, nd, 1, 0)
  {
    assert s[..|s|] == s;
  }

  lemma ReadOne(s: string, p: nat, d: seq<nat>, left: nat, t: nat, numDigits: int, m: int,
                base: nat, nd: nat, currentBase: nat, dd: nat)
    requires Reading(s, p, d, left, t, numDigits, m, base, nd, currentBase, dd) && p > 0 && (m == 0 ==> left == 0)
    ensures var c := ConvDigit(s[p - 1]);
            if c < 0 then Reading(s, p - 1, d, left, t, numDigits, m, base, nd, currentBase, dd)
            else t < left && Reading(s, p - 1, d, left, t + 1, numDigits - 1, m - 1, base, nd, currentBase * base, dd + c * currentBase)
  {
    hide Ex, Number, DigitsOf;
    var c := ConvDigit(s[p - 1]);
    PrefixStep(s, p);
    if c >= 0 {
      TakeLast(DigitsOf(s[..p - 1]), c, d, left - t);
      GroupGrows(base, d, left, t);
      ExNext(base, t);
    }
  }

  lemma ReadGroup(s: string, p: nat, d: seq<nat>, left: nat, t: nat, numDigits: int,
                  base: nat, nd: nat, currentBase: nat, dd: nat)
    requires Reading(s, p, d, left, t, numDigits, 0, base, nd, currentBase, dd)
    ensures numDigits >= 0 && Reading(s, p, d, left - t, 0, numDigits, Least(nd, numDigits), base, nd, 1, 0)
    ensures t == Least(nd, left) && dd == Number(base, d[left - t..left])
  {
  }

  /** The first loop of str2big_karatsuba */
  method FillGroups(mem: Memory, s: string, u: nat, n: nat, base: nat, nd: nat)
    requires ValidRadix(base) && Readable(s, base) && nd > 0 && Largest(base, nd)
    requires u + n <= |mem.cells| && n == RoomOf(|DigitsOf(s)|, nd)
    modifies mem
    ensures Keeps(old(mem.cells), mem.cells, u, n)
    ensures Groups(mem.cells, u, n, base, nd, DigitsOf(s), 0)
  {
    hide V, P, Ex, Number, Keeps, DigitsOf, Groups, GroupCount, RoomOf, Largest, Reading;
    ghost var d := DigitsOf(s);
    ghost var m0 := mem.cells;
    DigitsOfBound(s, base);
    GroupRoom(|d|, nd);
    var i: nat, dd: nat, currentBase: nat, numDigits: int := 0, 0, 1, CountDigits(s);
    var m: int := Least(nd, numDigits);
    ghost var left: nat, t: nat := |d|, 0;
    var p: nat := |s|;
    GroupStart(m0, u, base, nd, d);
    KeepsIntro(m0, m0, u, n);
    ReadStart(s, base, nd);
    while 0 < p
      invariant |mem.cells| == |m0| && left <= |d| && (m == 0 ==> left == 0)
      invariant Reading(s, p, d, left, t, numDigits, m, base, nd, currentBase, dd)
      invariant i + 2 * GroupCount(left, nd) == n
      invariant Keeps(m0, mem.cells, u, n) && Groups(mem.cells, u, i, base, nd, d, left)
    {
      var c := ConvDigit(s[p - 1]);
      ReadOne(s, p, d, left, t, numDigits, m, base, nd, currentBase, dd);
      p := p - 1;
      if c < 0 { continue; }
      dd := dd + c * currentBase;
      currentBase := currentBase * base;
      numDigits := numDigits - 1;
      m := m - 1;
      t := t + 1;
      if m == 0 {
        ReadGroup(s, p, d, left, t, numDigits, base, nd, currentBase, dd);
        GroupFits(base, nd, d, left, t);
        CountStep(left, nd);
        ghost var m1 := mem.cells;
        StoreGroup(mem, u, i, n, dd, m0);
        GroupsMore(m1, mem.cells, u, i, base, nd, d, left);
        i := i + 2;
        left := left - t;
        dd, t, currentBase := 0, 0, 1;
        m := Least(nd, numDigits);
      }
    }
    ReadEnd(s, d, left, t, numDigits, m, base, nd, currentBase, dd);
    CountNone(nd);
  }

  lemma ReadEnd(s: string, d: seq<nat>, left: nat, t: nat, numDigits: int, m: int,
                base: nat, nd: nat, currentBase: nat, dd: nat)
    requires Reading(s, 0, d, left, t, numDigits, m, base, nd, currentBase, dd) && (m == 0 ==> left == 0) && nd > 0
    ensures left == 0
  {
    assert s[..0] == "";
    assert |d[..left - t]| == 0;
  }

  lemma CountNone(nd: nat)
    requires nd > 0
    ensures GroupCount(0, nd) == 0
  {
  }

  lemma TakeLast(r: seq<nat>, c: nat, d: seq<nat>, k: nat)
    requires k <= |d| && d[..k] == r + [c]
    ensures k > 0 && d[k - 1] == c && r == d[..k - 1]
  {
    assert d[..k][k - 1] == c;
    assert d[..k][..k - 1] == d[..k - 1];
  }

  lemma CountStep(n: nat, nd: nat)
    requires nd > 0 && n > 0
    ensures GroupCount(n, nd) == 1 + GroupCount(n - Least(nd, n), nd)
  {
  }

  function CountDigits(s: string): (n: nat) { |DigitsOf(s)| }

  lemma GroupStart(m: seq<Digit>, u: nat, b: nat, nd: nat, d: seq<nat>)
    requires u <= |m|
    ensures Groups(m, u, 0, b, nd, d, |d|) && Ex(b, 0) == 1 && Number(b, d[|d|..|d|]) == 0
  {
  }

  lemma PrefixStep(s: string, p: nat)
    requires 0 < p <= |s|
    ensures var r := DigitsOf(s[..p - 1]);
            DigitsOf(s[..p]) == if ConvDigit(s[p - 1]) < 0 then r else r + [ConvDigit(s[p - 1])]
  {
    assert s[..p][..p - 1] == s[..p - 1];
  }

  lemma GroupFits(b: nat, nd: nat, d: seq<nat>, left: nat, t: nat)
    requires b > 0 && Digital(b, d) && t == Least(nd, left) && left <= |d| && Largest(b, nd)
    ensures Number(b, d[left - t..left]) < P(2)
  {
    hide Ex, P;
    NumberBound(b, d[left - t..left]);
    ExGrows(b, t, nd);
    PTwo();
  }

  method StoreGroup(mem: Memory, u: nat, i: nat, n: nat, dd: nat, ghost m0: seq<Digit>)
    requires u + n <= |mem.cells| && i + 2 <= n && dd < P(2) && Keeps(m0, mem.cells, u, n)
    modifies mem
    ensures |mem.cells| == |m0| && Keeps(old(mem.cells), mem.cells, u + i, 2) && Keeps(m0, mem.cells, u, n)
    ensures V(mem.cells, u + i, 2) == dd
  {
    hide V, P;
    PutDouble(mem, u + i, 2, dd);
    KeepsIntro(m0, mem.cells, u, n);
  }

  // ----- joining blocks

  /** n digits at u as blocks of `unit` digits, the last maybe shorter, each worth p times the one before. */
  ghost function Blocks(m: seq<Digit>, u: nat, n: nat, unit: nat, p: int): (r: int)
    requires u + n <= |m| && unit > 0
    decreases n
  {
    if n <= unit then V(m, u, n) else V(m, u, unit) + Mul(p, Blocks(m, u + unit, n - unit, unit, p))
  }

  /** Every block but the last is below p. */
  ghost predicate Small(m: seq<Digit>, u: nat, n: nat, unit: nat, p: int)
    requires u + n <= |m| && unit > 0
    decreases n
  {
    n <= unit || (V(m, u, unit) < p && Small(m, u + unit, n - unit, unit, p))
  }

  /** Groups of characters are blocks of two digits. */
  lemma {:induction false} GroupsBlocks(m: seq<Digit>, u: nat, n: nat, b: nat, nd: nat, d: seq<nat>)
    requires u + n <= |m| && Groups(m, u, n, b, nd, d, 0) && b > 0 && Digital(b, d) && nd > 0
    ensures Blocks(m, u, n, 2, Ex(b, nd)) == Number(b, d) && Small(m, u, n, 2, Ex(b, nd))
    decreases n
  {
    hide V, Ex, Number;
    if n < 2 {
      NumberNone(b);
      VEmpty(m, u);
    } else {
      var c := |d| - Least(nd, |d|);
      var low, high := d[c..], d[..c];
      assert d == high + low;
      GroupsBlocks(m, u + 2, n - 2, b, nd, high);
      if n == 2 {
        assert high == [];
        assert d == low;
      } else {
        assert high != [];
        assert |low| == nd;
        NumberConcat(b, high, low);
        NumberBound(b, low);
        MulIs(Ex(b, nd), Number(b, high));
      }
    }
  }

  /** One block of the joined number: two blocks of u, one and a part, or what is left. */
  ghost predicate Pair(m: seq<Digit>, u: nat, v: nat, j: nat, n: nat, unit: nat, p: int)
    requires u + n <= |m| && v + n <= |m| && j <= n
  {
    var l := n - j;
    if 2 * unit <= l then V(m, v + j, 2 * unit) == V(m, u + j, unit) + Mul(p, V(m, u + j + unit, unit))
    else if unit <= l then V(m, v + j, l) == V(m, u + j, unit) + Mul(p, V(m, u + j + unit, l - unit))
    else V(m, v + j, l) == V(m, u + j, l)
  }

  /** The blocks of v that start from j up to i have been joined. */
  ghost predicate Pairs(m: seq<Digit>, u: nat, v: nat, j: nat, i: nat, n: nat, unit: nat, p: int)
    requires u + n <= |m| && v + n <= |m| && unit > 0
    decreases i - j
  {
    if j >= i then j == i else j < n && Pair(m, u, v, j, n, unit, p) && Pairs(m, u, v, j + 2 * unit, i, n, unit, p)
  }

  lemma {:induction false} PairsMore(m0: seq<Digit>, m: seq<Digit>, u: nat, v: nat, j: nat, i: nat, n: nat, unit: nat, p: int)
    requires u + n <= |m0| == |m| && v + n <= |m0| && Apart(u, n, v, n) && unit > 0
    requires i < n && Keeps(m0, m, v + i, n - i) && Pairs(m0, u, v, j, i, n, unit, p) && Pair(m, u, v, i, n, unit, p)
    ensures Pairs(m, u, v, j, i + 2 * unit, n, unit, p)
    decreases i - j
  {
    hide V, Mul;
    if j < i {
      PairsEnd(m0, u, v, j, i, n, unit, p);
      PairKept(m0, m, u, v, j, i, n, unit, p);
      PairsMore(m0, m, u, v, j + 2 * unit, i, n, unit, p);
    }
  }

  lemma PairsEnd(m: seq<Digit>, u: nat, v: nat, j: nat, i: nat, n: nat, unit: nat, p: int)
    requires u + n <= |m| && v + n <= |m| && unit > 0 && Pairs(m, u, v, j, i, n, unit, p) && j < i
    ensures j + 2 * unit <= i
  {
    hide V, Mul;
    assert Pairs(m, u, v, j + 2 * unit, i, n, unit, p);
  }

  lemma PairKept(m0: seq<Digit>, m: seq<Digit>, u: nat, v: nat, j: nat, i: nat, n: nat, unit: nat, p: int)
    requires u + n <= |m0| == |m| && v + n <= |m0| && Apart(u, n, v, n) && j + 2 * unit <= i < n
    requires Keeps(m0, m, v + i, n - i) && Pair(m0, u, v, j, n, unit, p)
    ensures Pair(m, u, v, j, n, unit, p)
  {
    hide V, Mul;
    assert V(m, v + j, 2 * unit) == V(m0, v + j, 2 * unit);
    assert V(m, u + j, unit) == V(m0, u + j, unit) && V(m, u + j + unit, unit) == V(m0, u + j + unit, unit);
  }

  /** Joined blocks are blocks of twice the size, each worth p * p times the one before. */
  lemma {:induction false} Joined(m: seq<Digit>, u: nat, v: nat, j: nat, i: nat, n: nat, unit: nat, p: int)
    requires u + n <= |m| && v + n <= |m| && unit > 0 && j < n <= i && Pairs(m, u, v, j, i, n, unit, p)
    requires Small(m, u + j, n - j, unit, p) && p > 0
    ensures Blocks(m, v + j, n - j, 2 * unit, p * p) == Blocks(m, u + j, n - j, unit, p)
    ensures Small(m, v + j, n - j, 2 * unit, p * p)
    decreases n - j
  {
    hide V, Mul;
    var l := n - j;
    if l > 2 * unit {
      Joined(m, u, v, j + 2 * unit, i, n, unit, p);
      var lo, hi, rest := V(m, u + j, unit), V(m, u + j + unit, unit), Blocks(m, u + j + 2 * unit, l - 2 * unit, unit, p);
      assert Small(m, u + j + unit, l - unit, unit, p);
      JoinSum(lo, hi, rest, p);
      VBound(m, u + j, unit); VBound(m, u + j + unit, unit);
      JoinSmall(lo, hi, p);
    } else if l == unit {
      VEmpty(m, u + j + unit);
      MulNone(p);
    }
  }

  lemma JoinSum(lo: int, hi: int, rest: int, p: int)
    ensures lo + Mul(p, hi + Mul(p, rest)) == lo + Mul(p, hi) + Mul(p * p, rest)
  {
    MulAssoc(p, p, rest);
  }

  lemma JoinSmall(lo: int, hi: int, p: int)
    requires 0 <= lo < p && 0 <= hi < p
    ensures 0 <= lo + Mul(p, hi) < p * p
  {
    MulLe(hi + 1, p, p);
    MulLe(0, hi, p);
  }

  /** One block: bary_mul by the power and bary_add, or a copy. */
  method JoinOne(mem: Memory, u: nat, v: nat, i: nat, n: nat, unit: nat, e: Entry, ghost p: int)
    requires u + n <= |mem.cells| && v + n <= |mem.cells| && Apart(u, n, v, n) && i < n && unit > 0
    requires e.p + e.n <= |mem.cells| && Apart(e.p, e.n, v, n) && e.n <= unit && V(mem.cells, e.p, e.n) == p
    requires Small(mem.cells, u + i, n - i, unit, p)
    modifies mem
    ensures Keeps(old(mem.cells), mem.cells, v + i, n - i) && Pair(mem.cells, u, v, i, n, unit, p)
  {
    hide V, P, Mul, Sh;
    ghost var m0 := mem.cells;
    if 2 * unit <= n - i {
      JoinBlock(mem, v + i, 2 * unit, u + i, unit, e, p);
    } else if unit <= n - i {
      JoinBlock(mem, v + i, n - i, u + i, unit, e, p);
    } else {
      Copy(mem, v + i, u + i, n - i);
      assert V(mem.cells, u + i, n - i) == V(m0, u + i, n - i);
    }
    KeepsIntro(m0, mem.cells, v + i, n - i);
  }

  method JoinBlock(mem: Memory, v: nat, l: nat, u: nat, unit: nat, e: Entry, ghost p: int)
    requires u + l <= |mem.cells| && v + l <= |mem.cells| && Apart(u, l, v, l) && unit <= l
    requires e.p + e.n <= |mem.cells| && Apart(e.p, e.n, v, l) && e.n <= unit && V(mem.cells, e.p, e.n) == p
    requires unit < l ==> V(mem.cells, u, unit) < p
    modifies mem
    ensures Keeps(old(mem.cells), mem.cells, v, l)
    ensures V(mem.cells, u, unit) == V(old(mem.cells), u, unit)
    ensures V(mem.cells, u + unit, l - unit) == V(old(mem.cells), u + unit, l - unit)
    ensures V(mem.cells, v, l) == V(mem.cells, u, unit) + Mul(p, V(mem.cells, u + unit, l - unit))
  {
    hide V, P, Mul, Sh;
    ghost var m0 := mem.cells;
    ghost var lo, hi := V(m0, u, unit), V(m0, u + unit, l - unit);
    BaryMul(mem, v, l, e.p, e.n, u + unit, l - unit);
    MulIs(p, hi);
    ghost var m1 := mem.cells;
    assert V(m1, u, unit) == lo;
    var carry := Add(mem, v, l, v, l, u, unit);
    VBound(m0, u, unit); VBound(m0, u + unit, l - unit); VBound(m0, e.p, e.n);
    if l == unit { VEmpty(m0, u + unit); }
    SumFits(lo, hi, p, unit, l, e.n);
    VBound(mem.cells, v, l);
    NoCarryOut(V(mem.cells, v, l), carry, l, lo + Mul(p, hi));
    KeepsIntro(m0, mem.cells, v, l);
  }

  lemma SumFits(lo: int, hi: int, p: int, unit: nat, l: nat, en: nat)
    requires unit <= l && en <= unit && 0 <= lo < P(unit) && 0 <= hi < P(l - unit) && 0 <= p < P(en)
    requires unit < l ==> lo < p
    requires unit == l ==> hi == 0
    ensures lo + Mul(p, hi) < P(l)
  {
    hide P;
    if unit == l {
      MulNone(p);
    } else {
      PMonotone(en, unit);
      PAdds(unit, l - unit);
      MulLe(hi + 1, P(l - unit), p);
      MulLe(p, P(unit), P(l - unit));
      assert Mul(p, hi) + p == (hi + 1) * p;
    }
  }

  lemma NoCarryOut(v: int, carry: bool, l: nat, sum: int)
    requires 0 <= v && v + Sh(Bit(carry), l) == sum < P(l)
    ensures v == sum
  {
    hide P, Sh;
    ShNone(l);
    ShOne(l);
  }

  /** Joins all blocks of u in v. */
  method JoinAll(mem: Memory, u: nat, v: nat, n: nat, unit: nat, e: Entry, ghost p: int)
    requires u + n <= |mem.cells| && v + n <= |mem.cells| && Apart(u, n, v, n) && 0 < unit < n
    requires e.p + e.n <= |mem.cells| && Apart(e.p, e.n, v, n) && e.n <= unit && V(mem.cells, e.p, e.n) == p > 0
    requires Small(mem.cells, u, n, unit, p)
    modifies mem
    ensures Keeps(old(mem.cells), mem.cells, v, n)
    ensures Blocks(mem.cells, v, n, 2 * unit, p * p) == Blocks(old(mem.cells), u, n, unit, p)
    ensures Small(mem.cells, v, n, 2 * unit, p * p)
  {
    hide V, P, Mul, Sh, Pair;
    ghost var m0 := mem.cells;
    KeepsIntro(m0, m0, v, n);
    var i: nat := 0;
    while i < n
      invariant Keeps(m0, mem.cells, v, n) && Pairs(mem.cells, u, v, 0, i, n, unit, p)
      invariant i < n ==> Small(m0, u + i, n - i, unit, p)
    {
      ghost var m1 := mem.cells;
      SmallKept(m0, m1, v, n, u + i, n - i, unit, p);
      JoinOne(mem, u, v, i, n, unit, e, p);
      PairsMore(m1, mem.cells, u, v, 0, i, n, unit, p);
      KeepsIntro(m0, mem.cells, v, n);
      i := i + unit * 2;
    }
    SmallKept(m0, mem.cells, v, n, u, n, unit, p);
    BlocksKept(m0, mem.cells, v, n, u, n, unit, p);
    Joined(mem.cells, u, v, 0, i, n, unit, p);
  }

  lemma {:induction false} SmallKept(a: seq<Digit>, b: seq<Digit>, z: nat, zn: nat, u: nat, n: nat, unit: nat, p: int)
    requires |a| == |b| && Keeps(a, b, z, zn) && u + n <= |a| && Apart(u, n, z, zn) && unit > 0
    ensures Small(b, u, n, unit, p) <==> Small(a, u, n, unit, p)
    decreases n
  {
    hide V;
    if n > unit { SmallKept(a, b, z, zn, u + unit, n - unit, unit, p); }
  }

  lemma {:induction false} BlocksKept(a: seq<Digit>, b: seq<Digit>, z: nat, zn: nat, u: nat, n: nat, unit: nat, p: int)
    requires |a| == |b| && Keeps(a, b, z, zn) && u + n <= |a| && Apart(u, n, z, zn) && unit > 0
    ensures Blocks(b, u, n, unit, p) == Blocks(a, u, n, unit, p)
    decreases n
  {
    hide V, Mul;
    if n > unit { BlocksKept(a, b, z, zn, u + unit, n - unit, unit, p); }
  }

  lemma {:induction false} BlocksGrew(a: seq<Digit>, b: seq<Digit>, u: nat, n: nat, unit: nat, p: int)
    requires Grew(a, b) && u + n <= |a| && unit > 0
    ensures u + n <= |b| && Blocks(b, u, n, unit, p) == Blocks(a, u, n, unit, p)
    ensures Small(b, u, n, unit, p) <==> Small(a, u, n, unit, p)
    decreases n
  {
    hide V, Mul;
    if n > unit { BlocksGrew(a, b, u + unit, n - unit, unit, p); }
  }

  /** A power of level fits in 2 * 2^level digits. */
  lemma {:induction false} PowerFits(b: nat, nd: nat, level: nat)
    requires Largest(b, nd)
    ensures Power(b, nd, level) < P(2 * Pow2(level))
  {
    hide P, Ex, Power;
    if level == 0 {
      PTwo();
      PowerFirst(b, nd);
    } else {
      PowerFits(b, nd, level - 1);
      PowerNext(b, nd, level - 1);
      var p, d := Power(b, nd, level - 1), 2 * Pow2(level - 1);
      PAdds(d, d);
      JoinSmall(p, 0, P(d));
      SquareLess(p, P(d));
    }
  }

  lemma PowerFirst(b: nat, nd: nat)
    ensures Power(b, nd, 0) == Ex(b, nd)
  {
    CharsNext(nd, 0);
  }

  lemma SquareLess(p: int, q: int)
    requires 0 <= p < q
    ensures p * p < q * q
  {
    MulLe(p, q - 1, p);
    MulLe(p + 1, q, q);
  }

  lemma ShortEntry(m: seq<Digit>, e: Entry, b: nat, nd: nat, level: nat)
    requires EntryAt(m, e, b, nd, level) && Largest(b, nd)
    ensures e.n <= 2 * Pow2(level)
  {
    hide V, P, Power, Chars;
    PowerFits(b, nd, level);
    TopDigitWeighs(m, e.p, e.n);
    if e.n - 1 >= 2 * Pow2(level) { PMonotone(2 * Pow2(level), e.n - 1); }
  }

  /** The cached powers are outside the work area. */
  ghost predicate Outside(levels: seq<Entry>, u: nat, n: nat) {
    forall i: nat {:trigger levels[i]} :: i < |levels| ==> Apart(levels[i].p, levels[i].n, u, n)
  }

  lemma ValidOutside(table: Table, a: seq<Digit>, b: seq<Digit>, nd: nat, z: nat, n: nat, u: nat, un: nat)
    requires table.Valid(a, nd) && Keeps(a, b, z, n) && Outside(table.levels, u, un) && u <= z && z + n <= u + un
    ensures table.Valid(b, nd)
  {
    hide V, Power, Chars, Largest;
    forall i: nat | i < |table.levels| ensures EntryAt(b, table.levels[i], table.base, nd, i) {
      var e := table.levels[i];
      assert EntryAt(a, e, table.base, nd, i);
      assert V(b, e.p, e.n) == V(a, e.p, e.n);
    }
  }

  /** str2big_karatsuba: the number read, in new digits at z. */
  method Str2BigKaratsuba(mem: Memory, table: Table, s: string, n: nat, ghost nd0: nat) returns (z: nat, zn: nat)
    requires table.Valid(mem.cells, nd0) && Readable(s, table.base) && n == RoomOf(|DigitsOf(s)|, nd0) && n > 0
    modifies mem, table`levels
    ensures table.Valid(mem.cells, nd0) && Grew(old(mem.cells), mem.cells)
    ensures z + zn <= |mem.cells| && V(mem.cells, z, zn) == Number(table.base, DigitsOf(s))
  {
    hide V, P, Ex, Number, Keeps, Grew, DigitsOf, Groups, Blocks, Small, Largest, EntryAt, Power, RoomOf, Pow2, Readable;
    ghost var m0 := mem.cells;
    var maxpow, nd := MaxPow(table.base);
    LargestUnique(table.base, nd, nd0);
    table.GetPower(mem, 0, nd);
    ghost var m1 := mem.cells;
    var w := Alloc(mem, 2 * n);
    ghost var m2 := mem.cells;
    WorkGrew(m0, m1, m2);
    table.ValidGrew(m1, m2, nd);
    OutsideWork(table, m1, nd, w, 2 * n);
    FillGroups(mem, s, w, n, table.base, nd);
    KeepsSize(m2, mem.cells, w, n);
    ValidOutside(table, m2, mem.cells, nd, w, n, w, 2 * n);
    GrewKeeps(m0, m2, mem.cells, w, n);
    DigitsOfBound(s, table.base);
    GroupsBlocks(mem.cells, w, n, table.base, nd, DigitsOf(s));
    PowerFirst(table.base, nd);
    z, zn := JoinLoop(mem, table, w, n, nd, Number(table.base, DigitsOf(s)), m0);
  }

  lemma WorkGrew(a: seq<Digit>, b: seq<Digit>, c: seq<Digit>)
    requires Grew(a, b) && |b| <= |c| && Keeps2(b, c, |b|, |c| - |b|, |b|, |c| - |b|)
    ensures Grew(a, c) && Grew(b, c) && |a| <= |b|
  {
    hide V;
    forall i | 0 <= i < |b| ensures b[i] == c[i] { assert c[i] == b[i]; }
    Keeps2Intro(b, c, |b|, 0, |b|, 0);
    GrewTrans(a, b, c);
  }

  lemma KeepsSize(a: seq<Digit>, b: seq<Digit>, z: nat, n: nat)
    requires Keeps(a, b, z, n)
    ensures |a| == |b|
  {
  }

  lemma GrewKeeps(a: seq<Digit>, b: seq<Digit>, c: seq<Digit>, z: nat, n: nat)
    requires Grew(a, b) && Keeps(b, c, z, n) && |a| <= z
    ensures Grew(a, c)
  {
    GrewFrom(a, b, c, z, n);
  }

  lemma OutsideWork(table: Table, m: seq<Digit>, nd: nat, w: nat, n: nat)
    requires table.Valid(m, nd) && w == |m|
    ensures Outside(table.levels, w, n)
  {
    hide V, Power, Chars, Largest;
    forall i: nat | i < |table.levels| ensures Apart(table.levels[i].p, table.levels[i].n, w, n) {
      assert EntryAt(m, table.levels[i], table.base, nd, i);
    }
  }

  /** The loop over block sizes, back and forth between the two halves of the work area. */
  method JoinLoop(mem: Memory, table: Table, w: nat, n: nat, ghost nd: nat, ghost number: nat, ghost m0: seq<Digit>)
    returns (z: nat, zn: nat)
    requires table.Valid(mem.cells, nd) && 0 < |table.levels| && Outside(table.levels, w, 2 * n) && n > 0
    requires |m0| <= w && w + 2 * n <= |mem.cells| && Grew(m0, mem.cells)
    requires Blocks(mem.cells, w, n, 2, Power(table.base, nd, 0)) == number && Small(mem.cells, w, n, 2, Power(table.base, nd, 0))
    modifies mem, table`levels
    ensures table.Valid(mem.cells, nd) && Grew(m0, mem.cells)
    ensures z + zn <= |mem.cells| && V(mem.cells, z, zn) == number
  {
    hide V, P, Keeps, Grew, Blocks, Small, Largest, EntryAt, Power, Apart;
    assert Pow2(0) == 1;
    var u, v, unit, level := w, w + n, 2, 0;
    while unit < n
      invariant table.Valid(mem.cells, nd) && level < |table.levels| && Outside(table.levels, w, 2 * n)
      invariant w + 2 * n <= |mem.cells| && Grew(m0, mem.cells) && unit == 2 * Pow2(level)
      invariant (u == w && v == w + n) || (u == w + n && v == w)
      invariant Blocks(mem.cells, u, n, unit, Power(table.base, nd, level)) == number
      invariant Small(mem.cells, u, n, unit, Power(table.base, nd, level))
    {
      JoinStep(mem, table, w, u, v, n, unit, level, nd, number, m0);
      level := level + 1;
      u, v := v, u;
      unit := unit * 2;
    }
    BlocksOne(mem.cells, u, n, unit, Power(table.base, nd, level));
    zn := Trunc(mem, u, n);
    z := Result(mem, table, u, zn, nd, m0);
  }

  lemma BlocksOne(m: seq<Digit>, u: nat, n: nat, unit: nat, p: int)
    requires u + n <= |m| && 0 < unit && n <= unit
    ensures Blocks(m, u, n, unit, p) == V(m, u, n)
  {
  }

  /** One round: join, and fetch the next power. */
  method JoinStep(mem: Memory, table: Table, w: nat, u: nat, v: nat, n: nat, unit: nat, level: nat, ghost nd: nat,
                  ghost number: nat, ghost m0: seq<Digit>)
    requires table.Valid(mem.cells, nd) && level < |table.levels| && Outside(table.levels, w, 2 * n)
    requires |m0| <= w && w + 2 * n <= |mem.cells| && Grew(m0, mem.cells) && unit == 2 * Pow2(level) && unit < n
    requires (u == w && v == w + n) || (u == w + n && v == w)
    requires Blocks(mem.cells, u, n, unit, Power(table.base, nd, level)) == number
    requires Small(mem.cells, u, n, unit, Power(table.base, nd, level))
    modifies mem, table`levels
    ensures table.Valid(mem.cells, nd) && level + 1 < |table.levels| && Outside(table.levels, w, 2 * n)
    ensures w + 2 * n <= |mem.cells| && Grew(m0, mem.cells) && unit * 2 == 2 * Pow2(level + 1)
    ensures Blocks(mem.cells, v, n, unit * 2, Power(table.base, nd, level + 1)) == number
    ensures Small(mem.cells, v, n, unit * 2, Power(table.base, nd, level + 1))
  {
    hide V, P, Keeps, Grew, Blocks, Small, Largest, Power, Chars;
    ghost var m1, levels := mem.cells, table.levels;
    var e := table.levels[level];
    assert EntryAt(m1, e, table.base, nd, level);
    ShortEntry(m1, e, table.base, nd, level);
    PowerPositive(table.base, nd, level);
    PowerNext(table.base, nd, level);
    JoinAll(mem, u, v, n, unit, e, Power(table.base, nd, level));
    ghost var m2 := mem.cells;
    KeepsSize(m1, m2, v, n);
    ValidOutside(table, m1, m2, nd, v, n, w, 2 * n);
    GrewKeeps(m0, m1, m2, v, n);
    table.GetPower(mem, level + 1, nd);
    GrewTrans(m0, m2, mem.cells);
    GrewSize(m2, mem.cells);
    BlocksGrew(m2, mem.cells, v, n, unit * 2, Power(table.base, nd, level + 1));
    OutsideMore(levels, table.levels, w, 2 * n, |m2|);
    assert Pow2(level + 1) == 2 * Pow2(level);
  }

  lemma OutsideMore(a: seq<Entry>, b: seq<Entry>, u: nat, n: nat, top: nat)
    requires Outside(a, u, n) && a <= b && u + n <= top
    requires forall i {:trigger b[i]} :: |a| <= i < |b| ==> b[i].p >= top
    ensures Outside(b, u, n)
  {
    forall i: nat | i < |b| ensures Apart(b[i].p, b[i].n, u, n) {
      if i < |a| { assert b[i] == a[i]; }
    }
  }

  /** The result, in digits of its own. */
  method Result(mem: Memory, table: Table, u: nat, n: nat, ghost nd: nat, ghost m0: seq<Digit>) returns (z: nat)
    requires table.Valid(mem.cells, nd) && u + n <= |mem.cells| && Grew(m0, mem.cells) && |m0| <= |mem.cells|
    modifies mem
    ensures table.Valid(mem.cells, nd) && Grew(m0, mem.cells)
    ensures z + n <= |mem.cells| && V(mem.cells, z, n) == V(old(mem.cells), u, n)
  {
    hide V, Largest, EntryAt, Grew;
    ghost var m1 := mem.cells;
    z := Alloc(mem, n);
    ghost var m2 := mem.cells;
    WorkGrew(m0, m1, m2);
    Copy(mem, z, u, n);
    GrewKeeps(m0, m2, mem.cells, z, n);
    GrewKeeps(m1, m2, mem.cells, z, n);
    table.ValidGrew(m1, mem.cells, nd);
    assert V(m2, u, n) == V(m1, u, n);
  }

  /** The number in a text of digits: digit by digit when it is short, else by halves.  Both ways read the same. */
  method Parse(mem: Memory, table: Table, s: string, ghost nd0: nat) returns (z: nat, zn: nat)
    requires table.Valid(mem.cells, nd0) && Readable(s, table.base)
    modifies mem, table`levels
    ensures table.Valid(mem.cells, nd0) && Grew(old(mem.cells), mem.cells)
    ensures z + zn <= |mem.cells| && V(mem.cells, z, zn) == Number(table.base, DigitsOf(s))
  {
    hide V, P, Ex, Number, Grew, DigitsOf, Largest, EntryAt, Quot;
    ghost var m0 := mem.cells;
    var maxpow, nd := MaxPow(table.base);
    LargestUnique(table.base, nd, nd0);
    RoomEnough(table.base, nd, CountDigits(s));
    RoundUp(CountDigits(s), nd);
    var n := RoomOf(CountDigits(s), nd);
    if n < KARATSUBA_MUL_DIGITS {
      z := Alloc(mem, n);
      zn := n;
      ghost var m1 := mem.cells;
      AllocGrew(m0, m1);
      Str2BigNormal(mem, s, z, zn, table.base);
      GrewFrom(m0, m1, mem.cells, z, zn);
      table.ValidGrew(m0, mem.cells, nd);
    } else {
      z, zn := Str2BigKaratsuba(mem, table, s, n, nd);
    }
  }

  // ----- there and back

  /** Reading what was printed gives the digits back. */
  lemma {:induction false} TextDigits(d: seq<nat>)
    requires Digital(36, d)
    ensures DigitsOf(Text(d)) == d
  {
    if d != [] {
      var t := Text(d);
      assert t[..|t| - 1] == Text(d[..|d| - 1]);
      TextDigits(d[..|d| - 1]);
      DigitRoundTrip(d[|d| - 1]);
    }
  }

  /** For every number and every radix: reading the printed digits gives the number. */
  lemma RoundTrip(b: nat, x: nat)
    requires ValidRadix(b)
    ensures Readable(Text(Plain(b, x)), b) && Number(b, DigitsOf(Text(Plain(b, x)))) == x
  {
    TextDigits(Plain(b, x));
    PlainNumber(b, x);
    forall i | 0 <= i < |Text(Plain(b, x))| ensures ConvDigit(Text(Plain(b, x))[i]) < b { DigitRoundTrip(Plain(b, x)[i]); }
  }

  /** The text of a number that is not zero: a sign exactly when it was asked for, and digits that read as the number. */
  lemma SignedText(b: nat, x: nat, negative: bool)
    requires ValidRadix(b) && x > 0
    ensures var s := Printing.Sign(negative) + Text(Plain(b, x));
            && s != "" && (s[0] == '-' <==> negative)
            && s[if negative then 1 else 0..] == Text(Plain(b, x))
  {
    hide Plain, Text;
    var t := Text(Plain(b, x));
    FirstDigit(Plain(b, x));
    assert ("-" + t)[1..] == t && ("" + t)[0..] == t && "" + t == t;
  }

  lemma FirstDigit(d: seq<nat>)
    requires Digital(36, d) && d != []
    ensures Text(d)[0] != '-'
  {
    DigitRoundTrip(d[0]);
  }

  lemma ZeroText(b: nat)
    requires ValidRadix(b)
    ensures Readable("0", b) && Number(b, DigitsOf("0")) == 0
  {
    assert "0"[..0] == "" && DigitsOf("0") == [0];
    assert [0][..0] == [];
  }

  /** Printing a number in a radix and parsing the digits printed gives the number back. */
  method PrintAndParse(mem: Memory, table: Table, x: nat, xn: nat, negative: bool, ghost nd: nat)
    returns (minus: bool, z: nat, zn: nat)
    requires table.Valid(mem.cells, nd) && x + xn <= |mem.cells|
    modifies mem, table`levels
    ensures table.Valid(mem.cells, nd) && Grew(old(mem.cells), mem.cells)
    ensures z + zn <= |mem.cells| && V(mem.cells, z, zn) == V(old(mem.cells), x, xn)
    ensures minus <==> negative && V(old(mem.cells), x, xn) != 0
  {
    hide V, Grew, Number, DigitsOf, Readable, Plain, Text, Largest, EntryAt, Printing.Sign;
    ghost var m0 := mem.cells;
    ghost var v := V(m0, x, xn);
    var r := Printing.Big2Str(mem, table, x, xn, negative, nd);
    ghost var m1 := mem.cells;
    var s := r.value;
    if v != 0 {
      SignedText(table.base, v, negative);
      RoundTrip(table.base, v);
    } else {
      ZeroText(table.base);
    }
    minus := s[0] == '-';
    z, zn := Parse(mem, table, s[if minus then 1 else 0..], nd);
    GrewTrans(m0, m1, mem.cells);
  }
}
