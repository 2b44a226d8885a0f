/** Numbers as digit strings in a radix, most significant digit first. */
module RadixText {

  import opened Digits
  import opened Shifts

  predicate ValidRadix(b: nat) { 2 <= b <= 36 }

  function Ex(b: nat, k: nat): (r: nat)
    ensures b > 0 ==> r > 0
  {
    if k == 0 then 1 else Ex(b, k - 1) * b
  }

  /** x without its last digit, and that digit. */
  function Down(x: nat, b: nat): (q: nat)
    requires b > 1
    ensures q <= x && (x > 0 ==> q < x)
  {
    DownLess(x, b);
    Quot(x, b)
  }

  function Low(x: nat, b: nat): (r: nat)
    requires b > 1
    ensures r < b
  {
    QuotRem(x, b);
    Rem(x, b)
  }

  lemma DownLess(x: nat, b: nat)
    requires b > 1
    ensures 0 <= Quot(x, b) <= x && (x > 0 ==> Quot(x, b) < x)
  {
    hide Quot, Rem;
    QuotRem(x, b);
    var q := Quot(x, b);
    if q < 0 { MulLe(q, -1, b); }
    if q > 0 { MulLe(2, b, q); }
  }

  lemma DownLow(x: nat, b: nat)
    requires b > 1
    ensures x == Down(x, b) * b + Low(x, b)
  {
    hide Quot, Rem;
    QuotRem(x, b);
  }

  lemma DownIs(q: nat, b: nat, d: nat)
    requires d < b && b > 1
    ensures q * b + d >= 0 && Down(q * b + d, b) == q && Low(q * b + d, b) == d
  {
    hide Quot, Rem;
    MulLe(0, q, b);
    QuotUnique(q * b + d, b, q, d);
  }

  /** What a digit string stands for. */
  function Number(b: nat, s: seq<nat>): (r: nat) {
    if s == [] then 0 else Number(b, s[..|s| - 1]) * b + s[|s| - 1]
  }

  ghost predicate Digital(b: nat, s: seq<nat>) { forall i :: 0 <= i < |s| ==> s[i] < b }

  /** The n lowest digits of x, zeros in front. */
  function Pad(b: nat, x: nat, n: nat): (s: seq<nat>)
    requires b > 1
    ensures |s| == n && Digital(b, s)
    decreases n
  {
    if n == 0 then [] else Pad(b, Down(x, b), n - 1) + [Low(x, b)]
  }

  /** The digits of x, no zeros in front: nothing at all for 0. */
  function Plain(b: nat, x: nat): (s: seq<nat>)
    requires b > 1
    ensures Digital(b, s) && (x > 0 <==> |s| > 0)
    decreases x
  {
    if x == 0 then [] else Plain(b, Down(x, b)) + [Low(x, b)]
  }

  function Zeros(n: nat): (s: seq<nat>) { seq(n, _ => 0) }

  lemma {:induction false} ExAdds(b: nat, m: nat, n: nat)
    ensures Ex(b, m + n) == Ex(b, m) * Ex(b, n)
    decreases n
  {
    if n > 0 {
      ExAdds(b, m, n - 1);
      MulAssoc(Ex(b, m), Ex(b, n - 1), b);
      assert Ex(b, m + n) == Ex(b, m + (n - 1)) * b;
    }
  }

  lemma QuotientLess(q: nat, d: nat, b: nat, e: nat)
    requires q * b + d < e * b
    ensures q < e
  {
    if q >= e { MulLe(e, q, b); }
  }

  lemma {:induction false} PlainNumber(b: nat, x: nat)
    requires b > 1
    ensures Number(b, Plain(b, x)) == x
    decreases x
  {
    hide Down, Low;
    if x > 0 {
      PlainNumber(b, Down(x, b));
      DownLow(x, b);
      assert Plain(b, x)[..|Plain(b, x)| - 1] == Plain(b, Down(x, b));
    }
  }

  /** There is only one string without zeros in front. */
  lemma {:induction false} PlainUnique(b: nat, s: seq<nat>)
    requires b > 1 && Digital(b, s) && (s != [] ==> s[0] != 0)
    ensures s == Plain(b, Number(b, s))
  {
    hide Down, Low;
    if s != [] {
      var t, d := s[..|s| - 1], s[|s| - 1];
      PlainUnique(b, t);
      var v := Number(b, t);
      DownIs(v, b, d);
      MulLe(0, v, b);
      if t != [] { MulLe(1, v, b); }
      assert s == t + [d];
    }
  }

  /** Splitting off the n lowest digits, for a string padded to m + n digits and for a plain one. */
  lemma {:induction false} Split(b: nat, x: nat, q: nat, r: nat, m: nat, n: nat)
    requires b > 1 && r < Ex(b, n) && x == q * Ex(b, n) + r
    ensures Pad(b, x, m + n) == Pad(b, q, m) + Pad(b, r, n)
    ensures q > 0 ==> Plain(b, x) == Plain(b, q) + Pad(b, r, n)
    decreases n
  {
    hide Down, Low;
    if n > 0 {
      SplitOne(b, x, q, r, Ex(b, n - 1));
      Split(b, Down(x, b), q, Down(r, b), m, n - 1);
    }
  }

  lemma SplitOne(b: nat, x: nat, q: nat, r: nat, e: nat)
    requires b > 1 && e > 0 && r < e * b && x == q * (e * b) + r
    ensures Down(r, b) < e && Down(x, b) == q * e + Down(r, b) && Low(x, b) == Low(r, b)
    ensures q > 0 ==> x > 0
  {
    hide Down, Low;
    var r', d := Down(r, b), Low(r, b);
    DownLow(r, b);
    QuotientLess(r', d, b, e);
    MulAssoc(q, e, b);
    MulLe(0, q, e);
    Together(q * e, r', b, d);
    DownIs(q * e + r', b, d);
    if q > 0 { MulLe(1, q, e * b); Ample(e, b); }
  }

  lemma Together(a: int, r: int, b: int, d: int)
    ensures a * b + (r * b + d) == (a + r) * b + d
  {
  }

  lemma Ample(e: int, b: int)
    requires e > 0 && b > 0
    ensures e * b > 0
  {
    MulLe(1, e, b);
  }

  lemma {:induction false} PadZero(b: nat, n: nat)
    requires b > 1
    ensures Pad(b, 0, n) == Zeros(n)
  {
    hide Down, Low;
    if n > 0 {
      DownIs(0, b, 0);
      PadZero(b, n - 1);
    }
  }

  /** A small number's digits come after zeros. */
  lemma PadSmall(b: nat, x: nat, m: nat, n: nat)
    requires b > 1 && x < Ex(b, n)
    ensures Pad(b, x, m + n) == Zeros(m) + Pad(b, x, n)
  {
    Split(b, x, 0, x, m, n);
    PadZero(b, m);
  }

  // ----- characters

  /** ruby_digitmap */
  function Digitmap(d: nat): (c: char)
    requires d < 36
  {
    if d < 10 then '0' + d as char else 'a' + (d - 10) as char
  }

  /** conv_digit: the digit a character stands for, or -1. */
  function ConvDigit(c: char): (d: int) {
    if '0' <= c <= '9' then c as int - '0' as int
    else if 'a' <= c <= 'z' then c as int - 'a' as int + 10
    else if 'A' <= c <= 'Z' then c as int - 'A' as int + 10
    else -1
  }

  function Text(s: seq<nat>): (t: string)
    requires Digital(36, s)
    ensures |t| == |s|
  {
    seq(|s|, i requires 0 <= i < |s| => Digitmap(s[i]))
  }

  lemma DigitRoundTrip(d: nat)
    requires d < 36
    ensures ConvDigit(Digitmap(d)) == d
  {
  }

  const LOWER := "0123456789abcdefghijklmnopqrstuvwxyz"
  const UPPER := "0123456789ABCDEFGHIJKLMNOPQRSTUVWXYZ"

  /** The characters printed. */
  lemma DigitPrinted(d: nat)
    requires d < 36
    ensures |LOWER| == 36 && Digitmap(d) == LOWER[d]
  {
  }

  /** The characters read: digits and letters of either case. */
  lemma DigitRead(d: nat)
    requires d < 36
    ensures |LOWER| == |UPPER| == 36 && ConvDigit(LOWER[d]) == d && ConvDigit(UPPER[d]) == d
  {
    DigitPrinted(d);
    DigitRoundTrip(d);
    assert UPPER[d] == if d < 10 then '0' + d as char else 'A' + (d - 10) as char;
  }

  /** And no others. */
  lemma OthersUnread(c: char)
    ensures |LOWER| == |UPPER| == 36
    ensures ConvDigit(c) == -1 || (0 <= ConvDigit(c) < 36 && (c == LOWER[ConvDigit(c)] || c == UPPER[ConvDigit(c)]))
  {
    var d := ConvDigit(c);
    if d >= 0 {
      DigitPrinted(d);
      assert UPPER[d] == if d < 10 then '0' + d as char else 'A' + (d - 10) as char;
    }
  }

  lemma TextConcat(s: seq<nat>, t: seq<nat>)
    requires Digital(36, s) && Digital(36, t)
    ensures Digital(36, s + t) && Text(s + t) == Text(s) + Text(t)
  {
  }
}
