/** Printing a bignum in a radix (big2str). */
module Printing {
  import opened Digits
  import opened Memory
  import opened Shifts
  import opened Toom3Steps
  import opened Division
  import opened Isqrt
  import opened RadixText
  import opened PowerCache

  /** struct big2str_struct.  `begun` is whether the result has been allocated, `room` how many
      characters were allocated for it. */
  class Printer {
    const negative: bool
    const base: nat
    const numdigits: nat
    var text: string
    var begun: bool
    var room: nat

    constructor (negative: bool, base: nat, numdigits: nat)
      ensures this.negative == negative && this.base == base && this.numdigits == numdigits
      ensures text == "" && !begun
    {
      this.negative, this.base, this.numdigits := negative, base, numdigits;
      text, begun, room := "", false, 0;
    }

    ghost predicate Valid()
      reads this
    {
      ValidRadix(base)
    }

    ghost predicate Fits(more: nat)
      reads this
    {
      begun ==> |text| + more <= room
    }

    /** big2str_alloc */
    method Start(len: nat)
      requires Valid() && !begun
      modifies this
      ensures Valid() && begun && room == len + 1 && text == Sign(negative)
    {
      room := len + 1;
      begun := true;
      text := if negative then "-" else "";
    }

    /** memset(ptr, '0', len); ptr += len */
    method PutZeros(len: nat)
      requires Valid() && begun && Fits(len)
      modifies this`text
      ensures text == old(text) + Text(Zeros(len))
    {
      text := text + seq(len, _ => '0');
    }

    /** big2str_2bdigits */
    method TwoDigits(num0: nat, taillen: nat)
      requires Valid() && Fits(numdigits + taillen) && num0 < Ex(base, numdigits) && numdigits > 0
      modifies this
      ensures Valid() && Fits(taillen)
      ensures Printed(old(begun), old(text), begun, text, negative, base, num0, numdigits)
    {
      hide Ex, Plain, Pad, Text;
      if !begun {
        if num0 == 0 { return; }
        var buf := PlainLoop(base, num0);
        Start(|buf| + taillen);
        text := text + Text(buf);
      } else {
        var buf := PadLoop(base, num0, numdigits);
        text := text + Text(buf);
      }
    }
  }

  /** Digits from the last to the first, until none is left. */
  method PlainLoop(base: nat, num0: nat) returns (buf: seq<nat>)
    requires base > 1
    ensures buf == Plain(base, num0)
  {
    hide Down, Low;
    var num := num0;
    buf := [];
    while num != 0
      invariant Plain(base, num0) == Plain(base, num) + buf
      decreases num
    {
      buf := [Low(num, base)] + buf;
      num := Down(num, base);
    }
  }

  /** As many digits as asked for. */
  method PadLoop(base: nat, num0: nat, n: nat) returns (buf: seq<nat>)
    requires base > 1
    ensures buf == Pad(base, num0, n)
  {
    hide Down, Low;
    var num, j := num0, n;
    buf := [];
    while j != 0
      invariant 0 <= j <= n && Pad(base, num0, n) == Pad(base, num, j) + buf
    {
      j := j - 1;
      buf := [Low(num, base)] + buf;
      num := Down(num, base);
    }
  }

  function Sign(negative: bool): (s: string) { if negative then "-" else "" }

  /** What printing x does: n characters, zeros in front, if characters were printed before; else the plain
      digits, after a sign. */
  ghost predicate Printed(begun: bool, text: string, begun': bool, text': string, negative: bool, b: nat, x: nat, n: nat)
    requires ValidRadix(b)
  {
    if begun then begun' && text' == text + Text(Pad(b, x, n))
    else if x == 0 then !begun' && text' == text
    else begun' && text' == Sign(negative) + Text(Plain(b, x))
  }

  // ----- dividing in place

  /** x and b made ready for division: x in place, b in the digits above x unless it needs no shift. */
  method ScaleInPlace(mem: Memory, x: nat, xn: nat, wn: nat, b: nat, bn: nat) returns (t: nat, shift: nat)
    requires x + xn + wn <= |mem.cells| && bn + 1 <= wn && 0 < bn && b + bn <= |mem.cells|
    requires mem.cells[b + bn - 1] != 0 && Apart(b, bn, x, xn + wn)
    modifies mem
    ensures Keeps(old(mem.cells), mem.cells, x, xn + wn)
    ensures shift == Nlz(old(mem.cells)[b + bn - 1]) && (t == b || t == x + xn + 1)
    ensures Scaled(old(mem.cells), mem.cells, x, t, x, xn, b, bn, Pow2(shift))
  {
    hide Sh, V, P, Mul, Pow2, Nlz;
    ghost var m0 := mem.cells;
    ghost var bt := mem.cells[b + bn - 1];
    shift := Nlz(mem.cells[b + bn - 1]);
    if shift == 0 {
      NoShift(bt);
      t := b;
      mem.cells := mem.cells[x + xn := 0];
      KeepsIntro(m0, mem.cells, x + xn, 1);
      VStep(mem.cells, x, xn);
      ShNone(xn);
      MulIs(1, V(m0, x, xn)); MulIs(1, V(m0, b, bn));
    } else {
      NormalFactor(bt);
      t := x + (xn + 1);
      var out2 := SmallLshift(mem, t, b, bn, shift);
      ghost var m1 := mem.cells;
      MulIs(Pow2(shift), V(m0, b, bn));
      ScaledTop(m0, m1, t, b, bn, Pow2(shift), out2);
      assert V(m1, x, xn) == V(m0, x, xn);
      var out := SmallLshift(mem, x, x, xn, shift);
      ghost var m2 := mem.cells;
      assert V(m2, t, bn) == V(m1, t, bn) && m2[t + bn - 1] == m1[t + bn - 1];
      mem.cells := mem.cells[x + xn := out];
      KeepsIntro(m2, mem.cells, x + xn, 1);
      VStep(mem.cells, x, xn);
      MulIs(Pow2(shift), V(m0, x, xn));
    }
    KeepsIntro(m0, mem.cells, x, xn + wn);
  }

  lemma NoShift(bt: Digit)
    requires 0 < bt && Nlz(bt) == 0
    ensures BIGRAD <= 2 * bt as int && Pow2(0) == 1
  {
    assert BIGRAD <= 2 * (Pow2(0) * bt);
  }

  /** x becomes the remainder, in its bn low digits, and above it the quotient. */
  method DivideInPlace(mem: Memory, x: nat, xn: nat, wn: nat, b: nat, bn: nat)
    requires x + xn + wn <= |mem.cells| && bn + 1 <= wn && 0 < bn <= xn && b + bn <= |mem.cells|
    requires mem.cells[b + bn - 1] != 0 && Apart(b, bn, x, xn + wn)
    modifies mem
    ensures Keeps(old(mem.cells), mem.cells, x, xn + wn)
    ensures V(old(mem.cells), b, bn) > 0
    ensures V(mem.cells, x, bn) == Rem(V(old(mem.cells), x, xn), V(old(mem.cells), b, bn))
    ensures V(mem.cells, x + bn, xn + 1 - bn) == Quot(V(old(mem.cells), x, xn), V(old(mem.cells), b, bn))
  {
    hide Sh, V, P, Mul, Pow2, Nlz, Quot, Rem, Scaled, Divided;
    ghost var m0 := mem.cells;
    var t, shift := ScaleInPlace(mem, x, xn, wn, b, bn);
    ghost var m1 := mem.cells;
    ScaledUse(m0, m1, x, t, x, xn, b, bn, Pow2(shift));
    Restoring(mem, x, xn + 1, t, bn);
    ghost var m2 := mem.cells;
    DividedSame(m1, m2, x, xn + 1, t, bn);
    Unscale(m0, m1, m2, x, t, x, xn, b, bn, shift);
    ShiftBack(mem, x, bn, shift, Rem(V(m0, x, xn), V(m0, b, bn)), m0[b + bn - 1]);
    assert V(mem.cells, x + bn, xn + 1 - bn) == V(m2, x + bn, xn + 1 - bn);
    KeepsIntro(m0, mem.cells, x, xn + wn);
  }

  method ShiftBack(mem: Memory, x: nat, n: nat, shift: nat, ghost rem: int, ghost top: Digit)
    requires x + n <= |mem.cells| && V(mem.cells, x, n) == Pow2(shift) * rem && 0 < top && shift == Nlz(top)
    modifies mem
    ensures Keeps(old(mem.cells), mem.cells, x, n)
    ensures V(mem.cells, x, n) == rem
  {
    if shift == 0 { NoShift(top); }
    hide Sh, V, P, Mul, Pow2, Nlz;
    NormalFactor(top);
    if shift != 0 {
      ShNone(n);
      ghost var dropped := SmallRshift(mem, x, x, n, shift, 0);
      ExactShift(Pow2(shift), V(mem.cells, x, n), dropped, rem);
    } else {
      KeepsIntro(mem.cells, mem.cells, x, n);
    }
  }

  // ----- the recursion

  /** The cached powers lie below the work area, which is large enough for what `level` needs. */
  ghost predicate Below(levels: seq<Entry>, x: nat) {
    forall i: nat {:trigger levels[i]} :: i < |levels| ==> levels[i].p + levels[i].n <= x
  }

  ghost predicate Room(levels: seq<Entry>, level: nat, wn: nat)
    requires level <= |levels|
  {
    forall i: nat {:trigger levels[i]} :: i < level ==> levels[i].n + level <= wn
  }

  /** bary2bdigitdbl */
  method ReadDouble(mem: Memory, x: nat, xn: nat) returns (num: nat)
    requires x + xn <= |mem.cells| && xn <= 2
    ensures num == V(mem.cells, x, xn)
  {
    hide V, Sh, P;
    VEmpty(mem.cells, x);
    num := 0;
    if xn == 1 {
      VOne(mem.cells, x);
      num := mem.cells[x];
    } else if xn == 2 {
      VOne(mem.cells, x);
      VStep(mem.cells, x, 1);
      ShBase(mem.cells[x + 1], 0);
      ShZero(mem.cells[x + 1] * BIGRAD);
      num := mem.cells[x] + mem.cells[x + 1] * BIGRAD;
    }
  }

  /** A number below the lowest power has at most two digits. */
  lemma TwoAtMost(m: seq<Digit>, x: nat, xn: nat)
    requires x + xn <= |m| && (xn > 0 ==> m[x + xn - 1] != 0) && V(m, x, xn) < P(2)
    ensures xn <= 2
  {
    hide V, P;
    if xn > 2 {
      TopDigitWeighs(m, x, xn);
      PMonotone(2, xn - 1);
    }
  }

  /** xn < bn, or as many digits and bary_cmp says less */
  method Less(mem: Memory, x: nat, xn: nat, b: nat, bn: nat) returns (less: bool)
    requires x + xn <= |mem.cells| && b + bn <= |mem.cells|
    requires 0 < xn && mem.cells[x + xn - 1] != 0 && 0 < bn && mem.cells[b + bn - 1] != 0
    ensures less <==> V(mem.cells, x, xn) < V(mem.cells, b, bn)
    ensures !less ==> bn <= xn
  {
    hide V, P;
    if xn < bn {
      ShorterIsLess(mem.cells, x, xn, b, bn);
      less := true;
    } else if xn == bn {
      var c := Cmp(mem, x, xn, b, bn);
      less := c < 0;
    } else {
      ShorterIsLess(mem.cells, b, bn, x, xn);
      less := false;
    }
  }

  /** The largest level below `level` whose power is not above x, or 0. */
  method FindLevel(mem: Memory, table: Table, x: nat, xn: nat, level: nat, ghost nd: nat) returns (lower: nat, less: bool)
    requires table.Valid(mem.cells, nd) && 0 < level <= |table.levels|
    requires x + xn <= |mem.cells| && 0 < xn && mem.cells[x + xn - 1] != 0
    requires V(mem.cells, x, xn) < Power(table.base, nd, level)
    ensures lower < level && V(mem.cells, x, xn) < Power(table.base, nd, lower + 1)
    ensures less <==> V(mem.cells, x, xn) < Power(table.base, nd, lower)
    ensures less ==> lower == 0
    ensures !less ==> table.levels[lower].n <= xn
  {
    hide V, P, Power, Largest;
    lower := level - 1;
    var b := table.levels[lower];
    less := Less(mem, x, xn, b.p, b.n);
    while 0 < lower && less
      invariant lower < level && V(mem.cells, x, xn) < Power(table.base, nd, lower + 1)
      invariant less <==> V(mem.cells, x, xn) < Power(table.base, nd, lower)
      invariant !less ==> table.levels[lower].n <= xn
    {
      lower := lower - 1;
      b := table.levels[lower];
      less := Less(mem, x, xn, b.p, b.n);
    }
  }

  /** big2str_karatsuba */
  method Karatsuba(mem: Memory, out: Printer, table: Table, x: nat, xn: nat, wn: nat, level: nat, taillen: nat, ghost nd: nat)
    requires table.Valid(mem.cells, nd) && out.Valid() && out.base == table.base && out.numdigits == nd
    requires Below(table.levels, x) && level <= |table.levels| && Room(table.levels, level, wn)
    requires out.begun ==> level < |table.levels|
    requires x + xn + wn <= |mem.cells| && (xn > 0 ==> mem.cells[x + xn - 1] != 0)
    requires V(mem.cells, x, xn) < Power(table.base, nd, level)
    requires out.Fits(Chars(nd, level) + taillen)
    modifies mem, out
    ensures Keeps(old(mem.cells), mem.cells, x, xn + wn)
    ensures out.Valid() && out.Fits(taillen)
    ensures V(old(mem.cells), x, xn) >= 0
    ensures Printed(old(out.begun), old(out.text), out.begun, out.text, out.negative, out.base,
                    V(old(mem.cells), x, xn), Chars(nd, level))
    decreases level, 0
  {
    hide V, P, Power, Largest, Chars, Ex, Pad, Plain, Text, Printed, Quot, Rem;
    ghost var m0 := mem.cells;
    VBound(m0, x, xn);
    if xn == 0 {
      VEmpty(m0, x);
      KeepsIntro(m0, m0, x, xn + wn);
      if out.begun { out.PutZeros(table.levels[level].numdigits); }
      PrintedZero(old(out.begun), old(out.text), out.begun, out.text, out.negative, out.base, Chars(nd, level));
      return;
    }
    if level == 0 {
      TwoLevel(m0, x, xn, table.base, nd);
      var num := ReadDouble(mem, x, xn);
      CharsNext(nd, 0);
      out.TwoDigits(num, taillen);
      KeepsIntro(m0, m0, x, xn + wn);
      return;
    }
    var lower, less := FindLevel(mem, table, x, xn, level, nd);
    if less {
      KaratsubaSmall(mem, out, table, x, xn, level, taillen, nd);
      KeepsIntro(m0, m0, x, xn + wn);
    } else {
      KaratsubaSplit(mem, out, table, x, xn, wn, level, lower, taillen, nd);
    }
  }

  lemma PrintedZero(begun: bool, text: string, begun': bool, text': string, negative: bool, b: nat, n: nat)
    requires ValidRadix(b) && begun' == begun && text' == if begun then text + Text(Zeros(n)) else text
    ensures Printed(begun, text, begun', text', negative, b, 0, n)
  {
    PadZero(b, n);
  }

  lemma TwoLevel(m: seq<Digit>, x: nat, xn: nat, b: nat, nd: nat)
    requires ValidRadix(b) && Largest(b, nd) && x + xn <= |m| && (xn > 0 ==> m[x + xn - 1] != 0)
    requires V(m, x, xn) < Power(b, nd, 0)
    ensures xn <= 2 && V(m, x, xn) < Ex(b, nd)
  {
    hide V, P, Ex, Chars;
    LargestIsBig(b, nd);
    CharsNext(nd, 0);
    TwoAtMost(m, x, xn);
  }

  /** x below the lowest power: at most zeros and the lowest characters. */
  method KaratsubaSmall(mem: Memory, out: Printer, table: Table, x: nat, xn: nat, level: nat, taillen: nat, ghost nd: nat)
    requires table.Valid(mem.cells, nd) && out.Valid() && out.base == table.base && out.numdigits == nd
    requires 0 < level <= |table.levels| && 0 < xn && x + xn <= |mem.cells| && mem.cells[x + xn - 1] != 0
    requires V(mem.cells, x, xn) < Power(table.base, nd, 0)
    requires out.Fits(Chars(nd, level) + taillen)
    modifies out
    ensures out.Valid() && out.Fits(taillen) && V(mem.cells, x, xn) >= 0
    ensures Printed(old(out.begun), old(out.text), out.begun, out.text, out.negative, out.base,
                    V(mem.cells, x, xn), Chars(nd, level))
  {
    hide V, P, Power, Largest, Chars, Ex, Pad, Plain, Text, Printed;
    VBound(mem.cells, x, xn);
    TwoLevel(mem.cells, x, xn, table.base, nd);
    CharsNext(nd, level - 1);
    CharsNext(nd, 0);
    CharsGrow(nd, 0, level);
    var half, lowest := table.levels[level - 1].numdigits, table.levels[0].numdigits;
    ghost var begun, text := out.begun, out.text;
    if out.begun { out.PutZeros(half * 2 - lowest); }
    ghost var text1 := out.text;
    var num := ReadDouble(mem, x, xn);
    out.TwoDigits(num, taillen);
    PrintedAfter(begun, text, text1, out.begun, out.text, out.negative, out.base, num, half * 2 - lowest, lowest);
  }

  lemma {:induction false} CharsGrow(nd: nat, a: nat, b: nat)
    requires a <= b
    ensures Chars(nd, a) <= Chars(nd, b)
    decreases b
  {
    hide Chars;
    if a < b {
      CharsGrow(nd, a, b - 1);
      CharsNext(nd, b - 1);
    }
  }

  /** Printing zeros first and then x in n characters is printing x in more characters. */
  lemma PrintedAfter(begun: bool, text: string, text1: string, begun': bool, text': string, negative: bool, b: nat, x: nat,
                     zeros: nat, n: nat)
    requires ValidRadix(b) && x < Ex(b, n) && text1 == if begun then text + Text(Zeros(zeros)) else text
    requires Printed(begun, text1, begun', text', negative, b, x, n)
    ensures Printed(begun, text, begun', text', negative, b, x, zeros + n)
  {
    hide Ex, Pad, Plain, Text;
    PadSmall(b, x, zeros, n);
    TextConcat(Zeros(zeros), Pad(b, x, n));
    assert text + Text(Zeros(zeros)) + Text(Pad(b, x, n)) == text + (Text(Zeros(zeros)) + Text(Pad(b, x, n)));
  }

  /** x is split by the power of `lower`: first the quotient is printed, then the remainder. */
  method KaratsubaSplit(mem: Memory, out: Printer, table: Table, x: nat, xn: nat, wn: nat, level: nat, lower: nat,
                        taillen: nat, ghost nd: nat)
    requires table.Valid(mem.cells, nd) && out.Valid() && out.base == table.base && out.numdigits == nd
    requires Below(table.levels, x) && lower < level <= |table.levels| && Room(table.levels, level, wn)
    requires x + xn + wn <= |mem.cells| && 0 < xn && mem.cells[x + xn - 1] != 0 && table.levels[lower].n <= xn
    requires Power(table.base, nd, lower) <= V(mem.cells, x, xn) < Power(table.base, nd, lower + 1)
    requires out.Fits(Chars(nd, level) + taillen)
    modifies mem, out
    ensures Keeps(old(mem.cells), mem.cells, x, xn + wn)
    ensures out.Valid() && out.Fits(taillen)
    ensures V(old(mem.cells), x, xn) >= 0
    ensures Printed(old(out.begun), old(out.text), out.begun, out.text, out.negative, out.base,
                    V(old(mem.cells), x, xn), Chars(nd, level))
    decreases lower, 1
  {
    hide V, P, Power, Largest, Chars, Ex, Pad, Plain, Text, Printed, Quot, Rem, EntryAt;
    ghost var m0 := mem.cells;
    ghost var all, begun, text := V(m0, x, xn), out.begun, out.text;
    VBound(m0, x, xn);
    SplitChars(nd, lower, level);
    EntryUse(table, m0, nd, lower);
    EntryUse(table, m0, nd, level - 1);
    var b := table.levels[lower];
    var bn, half := b.n, table.levels[level - 1].numdigits;
    ghost var zeros := (half - b.numdigits) * 2;
    ZerosInFront(out, lower, level, half, b.numdigits);
    ghost var text1 := out.text;
    DivideInPlace(mem, x, xn, wn, b.p, bn);
    ghost var m1 := mem.cells;
    SplitParts(all, table.base, nd, lower);
    ValidKeeps(table, m0, m1, nd, x, xn + wn);
    ghost var text2 := PrintParts(mem, out, table, x, xn, wn, level, lower, taillen, nd, all);
    KeepsIntro(m0, mem.cells, x, xn + wn);
    PrintJoin(begun, text, text1, text2, out.begun, out.text, out.negative, out.base, nd, lower, all, zeros);
  }

  /** The quotient and then the remainder, from where division left them. */
  method PrintParts(mem: Memory, out: Printer, table: Table, x: nat, xn: nat, wn: nat, level: nat, lower: nat,
                    taillen: nat, ghost nd: nat, ghost all: int) returns (ghost between: string)
    requires table.Valid(mem.cells, nd) && out.Valid() && out.base == table.base && out.numdigits == nd
    requires Below(table.levels, x) && lower < level <= |table.levels| && Room(table.levels, level, wn)
    requires x + xn + wn <= |mem.cells| && table.levels[lower].n <= xn
    requires var p := Power(table.base, nd, lower); p > 0 && 0 < Quot(all, p) < p && 0 <= Rem(all, p) < p
    requires var p, bn := Power(table.base, nd, lower), table.levels[lower].n;
             V(mem.cells, x, bn) == Rem(all, p) && V(mem.cells, x + bn, xn + 1 - bn) == Quot(all, p) && bn + 1 <= wn
    requires out.Fits(2 * Chars(nd, lower) + taillen)
    modifies mem, out
    ensures Keeps(old(mem.cells), mem.cells, x, xn + wn)
    ensures out.Valid() && out.Fits(taillen)
    ensures var p := Power(table.base, nd, lower);
            && Printed(old(out.begun), old(out.text), true, between, out.negative, out.base, Quot(all, p), Chars(nd, lower))
            && Printed(true, between, out.begun, out.text, out.negative, out.base, Rem(all, p), Chars(nd, lower))
    decreases lower, 1, 0
  {
    hide V, P, Power, Largest, Chars, Ex, Pad, Plain, Text, Printed, Quot, Rem, EntryAt;
    ghost var m1, begun, text1 := mem.cells, out.begun, out.text;
    EntryUse(table, m1, nd, lower);
    var b := table.levels[lower];
    var bn := b.n;
    var qn := Trunc(mem, x + bn, xn + 1 - bn);
    RoomLess(table.levels, level, lower, wn, xn + wn - (bn + qn));
    Karatsuba(mem, out, table, x + bn, qn, xn + wn - (bn + qn), lower, b.numdigits + taillen, nd);
    ghost var m2 := mem.cells;
    ValidKeeps(table, m1, m2, nd, x + bn, qn + (xn + wn - (bn + qn)));
    assert V(m2, x, bn) == V(m1, x, bn);
    between := out.text;
    PrintedBegun(begun, text1, out.begun, between, out.negative, out.base, Quot(all, Power(table.base, nd, lower)), Chars(nd, lower));
    var rn := Trunc(mem, x, bn);
    RoomLess(table.levels, level, lower, wn, xn + wn - rn);
    Karatsuba(mem, out, table, x, rn, xn + wn - rn, lower, taillen, nd);
    KeepsIntro(m1, mem.cells, x, xn + wn);
  }

  method ZerosInFront(out: Printer, lower: nat, level: nat, half: nat, lowerDigits: nat)
    requires out.Valid() && lowerDigits <= half && (lower == level - 1 ==> half == lowerDigits)
    requires out.Fits((half - lowerDigits) * 2)
    modifies out`text
    ensures out.text == if out.begun then old(out.text) + Text(Zeros((half - lowerDigits) * 2)) else old(out.text)
  {
    hide Text;
    if lower != level - 1 && out.begun { out.PutZeros((half - lowerDigits) * 2); }
    if lower == level - 1 && out.begun { NoZeros(out.text); }
  }

  lemma EntryUse(table: Table, m: seq<Digit>, nd: nat, i: nat)
    requires table.Valid(m, nd) && i < |table.levels|
    ensures var e := table.levels[i];
            && 0 < e.n && e.p + e.n <= |m| && m[e.p + e.n - 1] != 0
            && V(m, e.p, e.n) == Power(table.base, nd, i) && e.numdigits == Chars(nd, i)
  {
    hide V, Power, Chars, Largest;
    assert EntryAt(m, table.levels[i], table.base, nd, i);
  }

  lemma SplitChars(nd: nat, lower: nat, level: nat)
    requires lower < level
    ensures Chars(nd, level) == 2 * Chars(nd, level - 1) && Chars(nd, lower) <= Chars(nd, level - 1)
  {
    CharsNext(nd, level - 1);
    CharsGrow(nd, lower, level - 1);
  }

  lemma NoZeros(text: string)
    ensures text == text + Text(Zeros(0))
  {
  }

  lemma ValidKeeps(table: Table, a: seq<Digit>, b: seq<Digit>, nd: nat, z: nat, n: nat)
    requires table.Valid(a, nd) && Keeps(a, b, z, n) && Below(table.levels, z)
    ensures table.Valid(b, nd)
  {
    hide V, Power, Chars, Largest;
    forall i: nat | i < |table.levels| ensures EntryAt(b, table.levels[i], table.base, nd, i) {
      var e := table.levels[i];
      assert EntryAt(a, e, table.base, nd, i);
      assert V(b, e.p, e.n) == V(a, e.p, e.n);
    }
  }

  lemma RoomLess(levels: seq<Entry>, level: nat, lower: nat, wn: nat, wn': int)
    requires lower < level <= |levels| && Room(levels, level, wn) && wn - 1 <= wn'
    ensures wn' >= 0 && Room(levels, lower, wn')
  {
    assert levels[lower].n + level <= wn;
  }

  /** Both parts of a number below the square of a power are below the power. */
  lemma SplitParts(all: int, b: nat, nd: nat, lower: nat)
    requires b > 0 && Power(b, nd, lower) <= all < Power(b, nd, lower + 1)
    ensures Power(b, nd, lower) > 0
    ensures var p := Power(b, nd, lower);
            && 0 < Quot(all, p) < p && 0 <= Rem(all, p) < p && all == Quot(all, p) * p + Rem(all, p)
  {
    hide Power, Quot, Rem;
    PowerPositive(b, nd, lower);
    PowerNext(b, nd, lower);
    var p := Power(b, nd, lower);
    QuotRem(all, p);
    var q := Quot(all, p);
    if q <= 0 { MulLe(q, 0, p); }
    if q >= p { MulLe(p, q, p); }
  }

  lemma PrintedBegun(begun: bool, text: string, begun': bool, text': string, negative: bool, b: nat, x: nat, n: nat)
    requires ValidRadix(b) && x > 0 && Printed(begun, text, begun', text', negative, b, x, n)
    ensures begun'
  {
  }

  /** Printing the quotient and then the remainder is printing the number. */
  lemma PrintJoin(begun: bool, text: string, text1: string, text2: string, begun': bool, text3: string, negative: bool,
                  b: nat, nd: nat, lower: nat, all: nat, zeros: nat)
    requires ValidRadix(b) && Power(b, nd, lower) > 0
    requires var p := Power(b, nd, lower);
             && 0 < Quot(all, p) < p && 0 <= Rem(all, p) < p && all == Quot(all, p) * p + Rem(all, p)
    requires text1 == if begun then text + Text(Zeros(zeros)) else text
    requires var p, n := Power(b, nd, lower), Chars(nd, lower);
             && Printed(begun, text1, true, text2, negative, b, Quot(all, p), n)
             && Printed(true, text2, begun', text3, negative, b, Rem(all, p), n)
    ensures Printed(begun, text, begun', text3, negative, b, all, zeros + 2 * Chars(nd, lower))
  {
    hide Ex, Pad, Plain, Text, Quot, Rem, Chars;
    var n := Chars(nd, lower);
    var q, r := Quot(all, Power(b, nd, lower)), Rem(all, Power(b, nd, lower));
    if begun {
      JoinPadded(text, b, all, q, r, zeros, n);
    } else {
      JoinPlain(Sign(negative), b, all, q, r, n);
    }
  }

  lemma JoinPadded(text: string, b: nat, all: nat, q: nat, r: nat, zeros: nat, n: nat)
    requires ValidRadix(b) && q < Ex(b, n) && r < Ex(b, n) && all == q * Ex(b, n) + r
    ensures text + Text(Zeros(zeros)) + Text(Pad(b, q, n)) + Text(Pad(b, r, n)) == text + Text(Pad(b, all, zeros + 2 * n))
  {
    hide Ex, Pad, Plain, Text;
    Split(b, all, q, r, zeros + n, n);
    PadSmall(b, q, zeros, n);
    assert zeros + n + n == zeros + 2 * n;
    TextConcat(Zeros(zeros), Pad(b, q, n));
    TextConcat(Zeros(zeros) + Pad(b, q, n), Pad(b, r, n));
  }

  lemma JoinPlain(sign: string, b: nat, all: nat, q: nat, r: nat, n: nat)
    requires ValidRadix(b) && q > 0 && r < Ex(b, n) && all == q * Ex(b, n) + r
    ensures all > 0 && sign + Text(Plain(b, q)) + Text(Pad(b, r, n)) == sign + Text(Plain(b, all))
  {
    hide Ex, Pad, Plain, Text;
    Split(b, all, q, r, 0, n);
    MulLe(1, q, Ex(b, n));
    TextConcat(Plain(b, q), Pad(b, r, n));
  }

  // ----- the whole number

  /** A power of level has more than 2^level digits. */
  lemma {:induction false} PowerLength(b: nat, nd: nat, level: nat)
    requires ValidRadix(b) && Largest(b, nd)
    ensures Power(b, nd, level) >= P(Pow2(level))
  {
    hide Ex, Power, P;
    if level == 0 {
      LargestIsBig(b, nd);
      CharsNext(nd, 0);
      PowerZero(b, nd);
    } else {
      PowerLength(b, nd, level - 1);
      PowerNext(b, nd, level - 1);
      var p, d := Power(b, nd, level - 1), Pow2(level - 1);
      PAdds(d, d);
      Squares(P(d), p);
    }
  }

  lemma PowerZero(b: nat, nd: nat)
    ensures Power(b, nd, 0) == Ex(b, nd) && P(Pow2(0)) == BIGRAD
  {
    CharsNext(nd, 0);
    assert P(1) == P(0) * BIGRAD;
  }

  lemma LongEntry(m: seq<Digit>, table: Table, nd: nat, i: nat)
    requires table.Valid(m, nd) && i < |table.levels|
    ensures table.levels[i].n > Pow2(i) > i
  {
    hide V, P, Power, Chars;
    EntryUse(table, m, nd, i);
    var e := table.levels[i];
    PowerLength(table.base, nd, i);
    VBound(m, e.p, e.n);
    if e.n <= Pow2(i) { PMonotone(e.n, Pow2(i)); }
    Pow2Above(i);
  }

  lemma {:induction false} Pow2Above(i: nat)
    ensures Pow2(i) > i
  {
    if i > 0 { Pow2Above(i - 1); }
  }

  /** A higher power has at least as many digits. */
  lemma LongerEntry(m: seq<Digit>, table: Table, nd: nat, i: nat, j: nat)
    requires table.Valid(m, nd) && i <= j < |table.levels|
    ensures table.levels[i].n <= table.levels[j].n
  {
    hide V, P, Power, Chars;
    EntryUse(table, m, nd, i);
    EntryUse(table, m, nd, j);
    PowerGrows(table.base, nd, i, j);
    var d, e := table.levels[i], table.levels[j];
    if e.n < d.n { ShorterIsLess(m, e.p, e.n, d.p, d.n); }
  }

  lemma PowerGrows(b: nat, nd: nat, i: nat, j: nat)
    requires b > 0 && i <= j
    ensures Power(b, nd, i) <= Power(b, nd, j)
  {
    CharsGrow(nd, i, j);
    ExGrows(b, Chars(nd, i), Chars(nd, j));
  }

  /** Chooses a level whose power is above x without computing that power. */
  method ChooseLevel(mem: Memory, table: Table, x: nat, xn: nat, ghost nd: nat) returns (level: nat, last: nat)
    requires table.Valid(mem.cells, nd) && x + xn <= |mem.cells| && 0 < xn
    modifies mem, table`levels
    ensures table.Valid(mem.cells, nd) && Grew(old(mem.cells), mem.cells)
    ensures last < |table.levels| && (level == last || level == last + 1)
    ensures V(old(mem.cells), x, xn) < Power(table.base, nd, level)
    ensures level > 0 ==> Pow2(level - 1) < xn
  {
    hide V, P, Power, Chars, Grew, EntryAt, Largest, Pow2;
    ghost var m0 := mem.cells;
    last := 0;
    table.GetPower(mem, 0, nd);
    LongEntry(mem.cells, table, nd, 0);
    while table.levels[last].n <= (xn + 1) / 2
      invariant last < |table.levels| && table.Valid(mem.cells, nd) && Grew(m0, mem.cells)
      invariant last > 0 ==> Pow2(last - 1) < (xn + 1) / 2
      invariant table.levels[last].n > Pow2(last) > last
      decreases (xn + 1) / 2 - last
    {
      last := last + 1;
      ghost var m1 := mem.cells;
      table.GetPower(mem, last, nd);
      GrewTrans(m0, m1, mem.cells);
      LongEntry(mem.cells, table, nd, last);
    }
    level := last;
    GrewValue(m0, mem.cells, x, xn);
    if table.levels[last].n <= xn {
      level := last + 1;
      SquareBounds(mem.cells, table, nd, last, x, xn);
    } else {
      PowerBounds(mem.cells, table, nd, last, x, xn);
    }
  }

  lemma GrewValue(a: seq<Digit>, b: seq<Digit>, x: nat, xn: nat)
    requires Grew(a, b) && x + xn <= |a|
    ensures x + xn <= |b| && V(b, x, xn) == V(a, x, xn) && (xn > 0 ==> b[x + xn - 1] == a[x + xn - 1])
  {
    hide V;
  }

  lemma PowerBounds(m: seq<Digit>, table: Table, nd: nat, i: nat, x: nat, xn: nat)
    requires table.Valid(m, nd) && i < |table.levels| && x + xn <= |m| && table.levels[i].n > xn
    ensures V(m, x, xn) < Power(table.base, nd, i)
  {
    hide V, Power, Chars;
    EntryUse(table, m, nd, i);
    ShorterIsLess(m, x, xn, table.levels[i].p, table.levels[i].n);
  }

  /** A power with more than half as many digits as x: its square is above x. */
  lemma SquareBounds(m: seq<Digit>, table: Table, nd: nat, i: nat, x: nat, xn: nat)
    requires table.Valid(m, nd) && i < |table.levels| && x + xn <= |m| && table.levels[i].n > (xn + 1) / 2
    ensures V(m, x, xn) < Power(table.base, nd, i + 1)
  {
    hide V, P, Power, Chars;
    EntryUse(table, m, nd, i);
    var e := table.levels[i];
    TopDigitWeighs(m, e.p, e.n);
    VBound(m, x, xn);
    PMonotone(xn, (e.n - 1) + (e.n - 1));
    PAdds(e.n - 1, e.n - 1);
    PowerNext(table.base, nd, i);
    Squares(P(e.n - 1), Power(table.base, nd, i));
  }

  /** big2str_generic: the plain digits, after a minus sign for a negative number; "0" for zero, and an
      ArgumentError (None) for another number in an invalid radix. */
  method Big2Str(mem: Memory, table: Table, x: nat, xn0: nat, negative: bool, ghost nd: nat) returns (r: Option<string>)
    requires x + xn0 <= |mem.cells|
    requires ValidRadix(table.base) ==> table.Valid(mem.cells, nd)
    modifies mem, table`levels
    ensures Grew(old(mem.cells), mem.cells)
    ensures ValidRadix(table.base) ==> table.Valid(mem.cells, nd)
    ensures V(old(mem.cells), x, xn0) >= 0
    ensures r == if V(old(mem.cells), x, xn0) == 0 then Some("0")
                 else if !ValidRadix(table.base) then None
                 else Some(Sign(negative) + Text(Plain(table.base, V(old(mem.cells), x, xn0))))
  {
    hide V, P, Power, Chars, Grew, Largest, Plain, Text, EntryAt, Printed;
    ghost var m0 := mem.cells;
    VBound(m0, x, xn0);
    GrewSelf(m0);
    var xn := Trunc(mem, x, xn0);
    if xn == 0 {
      VEmpty(m0, x);
      return Some("0");
    }
    TopPositive(m0, x, xn);
    if !(2 <= table.base <= 36) { return None; }
    var level, last := ChooseLevel(mem, table, x, xn, nd);
    ghost var m1 := mem.cells;
    GrewValue(m0, m1, x, xn);
    var maxpow, numdigits := MaxPow(table.base);
    LargestUnique(table.base, numdigits, nd);
    var out := new Printer(negative, table.base, numdigits);
    if level == 0 {
      TwoLevel(m1, x, xn, table.base, nd);
      var num := ReadDouble(mem, x, xn);
      out.TwoDigits(num, 0);
      PrintedPlain(out.begun, out.text, negative, table.base, num, nd);
    } else {
      PrintLarge(mem, out, table, x, xn, level, last, nd);
      GrewSame(m0, m1, mem.cells);
      PrintedPlain(out.begun, out.text, negative, table.base, V(m1, x, xn), Chars(nd, level));
    }
    r := Some(out.text);
  }

  datatype Option<T> = None | Some(value: T)

  lemma TopPositive(m: seq<Digit>, x: nat, xn: nat)
    requires 0 < xn && x + xn <= |m| && m[x + xn - 1] != 0
    ensures V(m, x, xn) > 0
  {
    TopDigitWeighs(m, x, xn);
  }

  lemma PrintedPlain(begun: bool, text: string, negative: bool, b: nat, x: nat, n: nat)
    requires ValidRadix(b) && x > 0 && Printed(false, "", begun, text, negative, b, x, n)
    ensures text == Sign(negative) + Text(Plain(b, x))
  {
  }

  lemma GrewSame(a: seq<Digit>, b: seq<Digit>, c: seq<Digit>)
    requires Grew(a, b) && c == b
    ensures Grew(a, c)
  {
  }

  /** The work area, and the recursion on a copy of x in it. */
  method PrintLarge(mem: Memory, out: Printer, table: Table, x: nat, xn: nat, level: nat, last: nat, ghost nd: nat)
    requires table.Valid(mem.cells, nd) && out.Valid() && out.base == table.base && out.numdigits == nd
    requires !out.begun && out.text == "" && 0 < xn && x + xn <= |mem.cells| && mem.cells[x + xn - 1] != 0
    requires 0 < level && last < |table.levels| && (level == last || level == last + 1)
    requires V(mem.cells, x, xn) < Power(table.base, nd, level)
    modifies mem, out
    ensures mem.cells == old(mem.cells) && V(mem.cells, x, xn) >= 0
    ensures Printed(false, "", out.begun, out.text, out.negative, out.base, V(mem.cells, x, xn), Chars(nd, level))
  {
    hide V, P, Power, Chars, Largest, EntryAt, Printed, Grew;
    ghost var m0 := mem.cells;
    VBound(m0, x, xn);
    var top, wn := |mem.cells|, level + table.levels[last].n;
    WorkBelow(m0, table, nd, last, level);
    var w := Alloc(mem, xn + wn);
    ghost var m1 := mem.cells;
    AllocGrew(m0, m1);
    table.ValidGrew(m0, m1, nd);
    assert V(m1, x, xn) == V(m0, x, xn);
    Copy(mem, w, x, xn);
    ghost var m2 := mem.cells;
    ValidKeeps(table, m1, m2, nd, w, xn);
    assert m2[w + xn - 1] == m2[w..w + xn][xn - 1] == m1[x..x + xn][xn - 1] == m0[x + xn - 1];
    Karatsuba(mem, out, table, w, xn, wn, level, 0, nd);
    ghost var m3 := mem.cells;
    Release(mem, top);
    assert mem.cells == m0;
  }

  lemma WorkBelow(m: seq<Digit>, table: Table, nd: nat, last: nat, level: nat)
    requires table.Valid(m, nd) && last < |table.levels| && (level == last || level == last + 1)
    ensures Below(table.levels, |m|) && Room(table.levels, level, level + table.levels[last].n)
  {
    hide V, Power, Chars, Largest, EntryAt;
    forall i: nat | i < |table.levels| ensures table.levels[i].p + table.levels[i].n <= |m| { EntryUse(table, m, nd, i); }
    forall i: nat | i < level ensures table.levels[i].n + level <= level + table.levels[last].n {
      LongerEntry(m, table, nd, i, last);
    }
  }
}
