/** The copying shortcut of bary_pack: words and bytes least significant first, no nails, on a
    little-endian machine, where the digits in memory already are the bytes wanted. */
module PackCopy {
  import opened Digits
  import opened Memory
  import opened Shifts
  import opened Toom3Steps
  import opened TwosComplement
  import opened Packing
  import opened Unpacking

  /** SIZEOF_BDIGIT.  A digit is a whole number of bytes. */
  const DIGIT_BYTES: nat := BITS / 8

  predicate WholeBytes() { BITS == 8 * DIGIT_BYTES }

  predicate LittleEndian(f: Format) { f.Ok() && f.nails == 0 && !f.mswordFirst && !f.msbyteFirst }

  // ----- little-endian bytes

  ghost function ByteV(b: seq<Byte>, n: nat): (v: int)
    requires n <= |b|
  {
    if n == 0 then 0 else ByteV(b, n - 1) + Mul(Pow2(8 * (n - 1)), b[n - 1])
  }

  lemma {:induction false} ByteBound(b: seq<Byte>, n: nat)
    requires n <= |b|
    ensures 0 <= ByteV(b, n) < Pow2(8 * n)
  {
    hide Mul, Pow2;
    if n == 0 {
      Pow2Zero();
    } else {
      ByteBound(b, n - 1);
      Pow2Eight();
      NextFits(ByteV(b, n - 1), b[n - 1], 8 * (n - 1), 8);
    }
  }

  lemma {:induction false} ByteSame(a: seq<Byte>, b: seq<Byte>, n: nat)
    requires n <= |a| && n <= |b| && forall j :: 0 <= j < n ==> a[j] == b[j]
    ensures ByteV(a, n) == ByteV(b, n)
  {
    hide Mul, Pow2;
    if n > 0 { ByteSame(a, b, n - 1); }
  }

  /** Bytes are determined by the number. */
  lemma {:induction false} ByteUnique(a: seq<Byte>, b: seq<Byte>, n: nat)
    requires n <= |a| && n <= |b| && ByteV(a, n) == ByteV(b, n)
    ensures a[..n] == b[..n]
  {
    hide Mul, Pow2;
    if n > 0 {
      var p := Pow2(8 * (n - 1));
      ByteBound(a, n - 1);
      ByteBound(b, n - 1);
      MulComm(p, a[n - 1]); MulIs(a[n - 1], p);
      MulComm(p, b[n - 1]); MulIs(b[n - 1], p);
      SameQuotient(p, a[n - 1], ByteV(a, n - 1), b[n - 1], ByteV(b, n - 1));
      ByteUnique(a, b, n - 1);
      assert a[..n] == a[..n - 1] + [a[n - 1]] && b[..n] == b[..n - 1] + [b[n - 1]];
    }
  }

  /** Zero bytes add nothing. */
  lemma {:induction false} ByteZeros(b: seq<Byte>, k: nat, n: nat)
    requires k <= n <= |b| && forall j :: k <= j < n ==> b[j] == 0
    ensures ByteV(b, n) == ByteV(b, k)
  {
    hide Mul, Pow2;
    if k < n {
      ByteZeros(b, k, n - 1);
      MulNone(Pow2(8 * (n - 1)));
    }
  }

  /** Such a buffer is the number its bytes spell. */
  lemma {:induction false} BufferBytes(b: seq<Byte>, f: Format, w: nat, k: nat)
    requires LittleEndian(f) && |b| == f.Size() && w < f.numwords && k <= f.wordsize
    ensures 0 <= f.wordsize * w + k <= |b|
    ensures Seen(b, f, w, k) == ByteV(b, f.wordsize * w + k)
    decreases w, k
  {
    hide Seen, ByteV, Mul, Pow2, Get, BufV, BitsOf;
    PlaceIn(f, w, k);
    if k > 0 {
      BufferBytes(b, f, w, k - 1);
      SeenNext(b, f, w, k - 1);
      PlainByte(b, f, w, k - 1);
      ByteNext(b, f.wordsize * w + (k - 1));
    } else if w > 0 {
      BufferBytes(b, f, w - 1, f.wordsize);
      SeenWord(b, f, w - 1);
      SeenStart(b, f, w);
      PlaceNext(f.wordsize, w);
    } else {
      SeenStart(b, f, 0);
      ByteNone(b, f);
    }
  }

  lemma PlaceIn(f: Format, w: nat, k: nat)
    requires w < f.numwords && k <= f.wordsize
    ensures 0 <= f.wordsize * w + k <= f.Size()
  {
    MulLe(0, w, f.wordsize);
    MulLe(w + 1, f.numwords, f.wordsize);
  }

  lemma PlaceNext(ws: nat, w: nat)
    requires w > 0
    ensures ws * (w - 1) + ws == ws * w + 0
  {
  }

  lemma ByteNext(b: seq<Byte>, n: nat)
    requires n < |b|
    ensures ByteV(b, n + 1) == ByteV(b, n) + Mul(Pow2(8 * n), b[n])
  {
  }

  lemma ByteNone(b: seq<Byte>, f: Format)
    requires f.Ok() && |b| == f.Size()
    ensures f.wordsize * 0 + 0 == 0 && ByteV(b, 0) == 0 && BufV(b, f, 0) == 0
  {
  }

  lemma PlainByte(b: seq<Byte>, f: Format, w: nat, k: nat)
    requires LittleEndian(f) && |b| == f.Size() && w < f.numwords && k < f.wordsize
    ensures 0 <= f.wordsize * w + k < |b| && Get(b, f, w, k) == b[f.wordsize * w + k]
    ensures BitsOf(f, w) + f.Off(k) == 8 * (f.wordsize * w + k)
  {
    hide Pow2;
    f.PosBounds(w, k);
    Pow2Eight();
    MulAssoc(8, f.wordsize, w);
  }

  lemma WholeBuffer(b: seq<Byte>, f: Format)
    requires LittleEndian(f) && |b| == f.Size()
    ensures BufV(b, f, f.numwords) == ByteV(b, |b|) && f.Bits() == 8 * |b| && Clean(b, f, f.numwords, 0)
  {
    hide BufV, ByteV, Seen, BitsOf, Pow2, Raw;
    Pow2Eight();
    MulAssoc(8, f.wordsize, f.numwords);
    if f.numwords == 0 {
      ByteNone(b, f);
    } else {
      BufferBytes(b, f, f.numwords - 1, f.wordsize);
      SeenWord(b, f, f.numwords - 1);
      PlaceNext(f.wordsize, f.numwords);
    }
  }

  // ----- digits as bytes

  /** The n low bytes of a digit. */
  function DigitBytes(d: Digit, n: nat): (b: seq<Byte>)
    ensures |b| == n
  {
    if n == 0 then [] else
      QuotRem(Quot(d, Pow2(8 * (n - 1))), 256);
      DigitBytes(d, n - 1) + [Rem(Quot(d, Pow2(8 * (n - 1))), 256)]
  }

  /** The memory of n digits at p, as a little-endian machine lays it out. */
  function Bytes(m: seq<Digit>, p: nat, n: nat): (b: seq<Byte>)
    requires p + n <= |m|
    ensures |b| == DIGIT_BYTES * n
  {
    if n == 0 then [] else Bytes(m, p, n - 1) + DigitBytes(m[p + n - 1], DIGIT_BYTES)
  }

  lemma {:induction false} ByteJoin(a: seq<Byte>, b: seq<Byte>, n: nat)
    requires n <= |b|
    ensures ByteV(a + b, |a| + n) == ByteV(a, |a|) + Mul(Pow2(8 * |a|), ByteV(b, n))
  {
    hide Mul, Pow2, ByteV;
    if n == 0 {
      ByteSame(a + b, a, |a|);
      ByteEmpty(b);
      MulNone(Pow2(8 * |a|));
    } else {
      ByteJoin(a, b, n - 1);
      ByteNext(a + b, |a| + (n - 1));
      ByteNext(b, n - 1);
      Pow2Adds(8 * |a|, 8 * (n - 1));
      MulMul(Pow2(8 * |a|), Pow2(8 * (n - 1)), b[n - 1]);
      MulAdds(Pow2(8 * |a|), ByteV(b, n - 1), Mul(Pow2(8 * (n - 1)), b[n - 1]));
    }
  }

  lemma ByteEmpty(b: seq<Byte>)
    ensures ByteV(b, 0) == 0
  {
  }

  lemma {:induction false} DigitBytesAre(d: Digit, n: nat)
    ensures ByteV(DigitBytes(d, n), n) == Rem(d, Pow2(8 * n))
  {
    hide Mul, Pow2, ByteV, Quot, Rem;
    if n == 0 {
      Pow2Zero();
      ByteEmpty(DigitBytes(d, n));
      QuotUnique(d, 1, d, 0);
    } else {
      var p, b := Pow2(8 * (n - 1)), DigitBytes(d, n);
      DigitBytesAre(d, n - 1);
      ByteNext(b, n - 1);
      ByteSame(b, DigitBytes(d, n - 1), n - 1);
      Pow2Eight();
      Pow2Adds(8 * (n - 1), 8);
      RemSplit(d, p);
    }
  }

  lemma RemSplit(d: int, p: int)
    requires p > 0
    ensures Mul(p, 256) > 0 && Rem(d, Mul(p, 256)) == Rem(d, p) + Mul(p, Rem(Quot(d, p), 256))
  {
    hide Mul, Quot, Rem;
    var q := Quot(d, p);
    QuotRem(d, p);
    QuotRem(q, 256);
    MulIs(p, 256); MulIs(p, Rem(q, 256));
    MulLe(0, Rem(q, 256), p);
    MulLe(Rem(q, 256) + 1, 256, p);
    TwoSteps(d, p, Quot(q, 256), Rem(q, 256), q);
    QuotUnique(d, p * 256, Quot(q, 256), Rem(d, p) + Rem(q, 256) * p);
  }

  lemma TwoSteps(d: int, p: int, qq: int, rq: int, q: int)
    requires q == qq * 256 + rq
    ensures q * p == qq * (p * 256) + rq * p
  {
  }

  /** The bytes of the digits spell the same number. */
  lemma {:induction false} BytesAre(m: seq<Digit>, p: nat, n: nat)
    requires p + n <= |m| && WholeBytes()
    ensures ByteV(Bytes(m, p, n), |Bytes(m, p, n)|) == V(m, p, n)
  {
    hide Mul, Pow2, ByteV, V, DigitBytes, P;
    if n == 0 {
      ByteEmpty(Bytes(m, p, n));
      VEmpty(m, p);
    } else {
      var a, d := Bytes(m, p, n - 1), m[p + n - 1];
      BytesAre(m, p, n - 1);
      VStep(m, p, n - 1);
      ByteJoin(a, DigitBytes(d, DIGIT_BYTES), DIGIT_BYTES);
      DigitBytesAre(d, DIGIT_BYTES);
      SixteenBits();
      QuotUnique(d, BIGRAD, 0, d);
      BasePow2(n - 1);
      MulAssoc(8, DIGIT_BYTES, n - 1);
      ShMul(d, n - 1);
      MulComm(P(n - 1), d);
      MulIs(d, P(n - 1));
    }
  }

  // ----- bytes_2comp

  method Bytes2Comp(buf: array<Byte>) returns (zero: bool)
    modifies buf
    ensures zero <==> ByteV(old(buf[..]), buf.Length) == 0
    ensures ByteV(buf[..], buf.Length) == Rem(-ByteV(old(buf[..]), buf.Length), Pow2(8 * buf.Length))
  {
    hide ByteV, Pow2, Rem, Mul;
    ghost var a := buf[..];
    var n := buf.Length;
    var i := 0;
    ByteEmpty(a);
    Pow2Zero();
    while i < n
      invariant 0 <= i <= n && buf[i..] == a[i..] && ByteV(buf[..], i) == Pow2(8 * i) - 1 - ByteV(a, i)
    {
      ghost var b := buf[..];
      assert buf[i] == a[i..][0];
      buf[i] := 255 - buf[i];
      NotStep(a, b, buf[..], i);
      i := i + 1;
    }
    ghost var b := buf[..];
    i := 0;
    ByteEmpty(b);
    ByteEmpty(buf[..]);
    while i < n
      invariant 0 <= i <= n && buf[i..] == b[i..] && ByteV(buf[..], i) == 0 && ByteV(b, i) == Pow2(8 * i) - 1
    {
      ghost var c := buf[..];
      assert buf[i] == b[i..][0];
      buf[i] := (buf[i] as int + 1) % 256;
      IncStep(b, c, buf[..], i);
      i := i + 1;
      if buf[i - 1] != 0 {
        zero := false;
        IncEnd(a, b, buf[..], i);
        return;
      }
    }
    zero := true;
    QuotUnique(0, Pow2(8 * n), 0, 0);
  }

  lemma NotStep(a: seq<Byte>, b: seq<Byte>, c: seq<Byte>, i: nat)
    requires i < |a| == |b| && c == b[i := 255 - a[i]] && ByteV(b, i) == Pow2(8 * i) - 1 - ByteV(a, i)
    ensures ByteV(c, i + 1) == Pow2(8 * (i + 1)) - 1 - ByteV(a, i + 1)
  {
    hide Pow2, Mul, ByteV;
    ByteSame(b, c, i);
    ByteNext(c, i);
    ByteNext(a, i);
    Pow2Eight();
    Pow2Adds(8 * i, 8);
    MulSubs(Pow2(8 * i), 256, 1 + (a[i] as int));
    MulAdds(Pow2(8 * i), 1, a[i]);
    MulIs(Pow2(8 * i), 1);
    assert Mul(Pow2(8 * i), 256 - (1 + (a[i] as int))) == Mul(Pow2(8 * i), c[i]);
  }

  lemma IncStep(b: seq<Byte>, c: seq<Byte>, d: seq<Byte>, i: nat)
    requires i < |b| == |c| && b[i] == c[i] && d == c[i := (c[i] as int + 1) % 256]
    requires ByteV(c, i) == 0 && ByteV(b, i) == Pow2(8 * i) - 1
    ensures d[i] == 0 ==> ByteV(d, i + 1) == 0 && ByteV(b, i + 1) == Pow2(8 * (i + 1)) - 1
    ensures d[i] != 0 ==> ByteV(d, i + 1) == ByteV(b, i + 1) + 1
  {
    hide Pow2, Mul, ByteV;
    ByteSame(c, d, i);
    ByteNext(d, i);
    ByteNext(b, i);
    Pow2Eight();
    Pow2Adds(8 * i, 8);
    MulNone(Pow2(8 * i));
    MulAdds(Pow2(8 * i), b[i], 1);
    MulIs(Pow2(8 * i), 1);
    assert b[i] == 255 ==> Mul(Pow2(8 * i), b[i] as int + 1) == Mul(Pow2(8 * i), 256);
  }

  lemma IncEnd(a: seq<Byte>, b: seq<Byte>, c: seq<Byte>, i: nat)
    requires i <= |a| == |b| == |c| && b[i..] == c[i..]
    requires ByteV(c, i) == ByteV(b, i) + 1 && ByteV(b, |b|) == Pow2(8 * |b|) - 1 - ByteV(a, |a|)
    ensures ByteV(a, |a|) != 0 && ByteV(c, |c|) == Rem(-ByteV(a, |a|), Pow2(8 * |a|))
  {
    hide Pow2, Mul, ByteV, Rem;
    TailSame(b, c, i, |b|);
    ByteBound(c, |c|);
    NegatedIs(ByteV(a, |a|), ByteV(c, |c|), Pow2(8 * |a|));
  }

  lemma NegatedIs(v: int, w: int, p: int)
    requires 0 <= w < p && w == p - v
    ensures v != 0 && w == Rem(-v, p)
  {
    hide Rem;
    QuotUnique(-v, p, -1, w);
  }

  lemma {:induction false} TailSame(b: seq<Byte>, c: seq<Byte>, i: nat, n: nat)
    requires i <= n <= |b| == |c| && b[i..] == c[i..]
    ensures ByteV(c, n) - ByteV(b, n) == ByteV(c, i) - ByteV(b, i)
  {
    hide Pow2, Mul;
    if i < n {
      TailSame(b, c, i, n - 1);
      assert b[n - 1] == b[i..][n - 1 - i] == c[i..][n - 1 - i] == c[n - 1];
    }
  }

  // ----- the shortcut

  /** What is cut off above n bytes. */
  lemma CutAt(s: seq<Byte>, n: nat) returns (rest: int)
    requires n < |s| && s[|s| - 1] != 0
    ensures rest >= 1 && ByteV(s, |s|) == ByteV(s, n) + Mul(Pow2(8 * n), rest)
    ensures ByteV(s, n) == Rem(ByteV(s, |s|), Pow2(8 * n))
    ensures rest == 1 <==> |s| == n + 1 && s[n] == 1
  {
    hide Pow2, Mul, ByteV, Rem;
    var t := s[n..];
    assert s[..n] + t == s;
    ByteJoin(s[..n], t, |t|);
    ByteSame(s, s[..n], n);
    rest := ByteV(t, |t|);
    TopByte(t);
    ByteBound(s, n);
    MulComm(Pow2(8 * n), rest);
    MulIs(rest, Pow2(8 * n));
    QuotUnique(ByteV(s, |s|), Pow2(8 * n), rest, ByteV(s, n));
  }

  lemma TopByte(t: seq<Byte>)
    requires 0 < |t| && t[|t| - 1] != 0
    ensures ByteV(t, |t|) >= 1 && (ByteV(t, |t|) == 1 <==> |t| == 1 && t[0] == 1)
  {
    hide Pow2, Mul, ByteV;
    var n := |t| - 1;
    ByteNext(t, n);
    ByteBound(t, n);
    MulComm(Pow2(8 * n), t[n]);
    MulIs(t[n], Pow2(8 * n));
    MulLe(1, t[n], Pow2(8 * n));
    if n == 0 {
      Pow2Zero();
      ByteEmpty(t);
    } else {
      Pow2Monotone(8, 8 * n);
      Pow2Eight();
    }
  }

  /** The bytes copied: the low ones, and zeros above if there are fewer. */
  method CopyBytes(src: seq<Byte>, size: nat, buf: array<Byte>)
    requires size <= |src|
    modifies buf
    ensures size <= buf.Length ==> ByteV(buf[..], buf.Length) == ByteV(src, size)
    ensures buf.Length < size ==> ByteV(buf[..], buf.Length) == ByteV(src, buf.Length)
  {
    hide ByteV;
    var i := 0;
    while i < buf.Length
      invariant 0 <= i <= buf.Length
      invariant forall j :: 0 <= j < i ==> buf[j] == if j < size then src[j] else 0
    {
      buf[i] := if i < size then src[i] else 0;
      i := i + 1;
    }
    if size <= buf.Length {
      ByteZeros(buf[..], size, buf.Length);
      ByteSame(buf[..], src, size);
    } else {
      ByteSame(buf[..], src, buf.Length);
    }
  }

  /** The shortcut meets the contract of the generic way: same bits, same code. */
  method PackByCopy(mem: Memory, ds: nat, n: nat, negative: bool, buf: array<Byte>, f: Format, twocomp: bool) returns (sign: int)
    requires ds + n <= |mem.cells| && LittleEndian(f) && buf.Length == f.Size() && WholeBytes()
    modifies buf
    ensures sign == Code(if negative then -V(mem.cells, ds, n) else V(mem.cells, ds, n), f.Bits(), twocomp)
    ensures BufV(buf[..], f, f.numwords) == LowBits(if negative then -V(mem.cells, ds, n) else V(mem.cells, ds, n), f.Bits(), twocomp)
    ensures Clean(buf[..], f, f.numwords, 0)
  {
    hide V, Pow2, Clean, BufV, P, Rem, ByteV, Bytes, Mul;
    var k := Trunc(mem, ds, n);
    VBound(mem.cells, ds, k);
    sign := Sign(negative, k);
    if k == 0 {
      VEmpty(mem.cells, ds);
      Blank(buf, f);
      QuotUnique(0, Pow2(f.Bits()), 0, 0);
      return;
    }
    TopDigitWeighs(mem.cells, ds, k);
    var src := Bytes(mem.cells, ds, k);
    BytesAre(mem.cells, ds, k);
    var size := TrimBytes(src);
    assert src[..size][size - 1] == src[size - 1];
    CopyBytes(src, size, buf);
    WholeBuffer(buf[..], f);
    var overflow := buf.Length < size;
    ghost var v := BufV(buf[..], f, f.numwords);
    ghost var a := V(mem.cells, ds, k);
    ghost var rest := 0;
    if overflow {
      rest := CutAt(src[..size], buf.Length);
      ByteSame(src, src[..size], buf.Length);
      ByteSame(src, src[..size], size);
    } else {
      ByteBound(buf[..], buf.Length);
      QuotUnique(a, Pow2(f.Bits()), 0, a);
      MulNone(Pow2(f.Bits()));
    }
    ByteBound(buf[..], buf.Length);
    if sign < 0 && twocomp {
      var zero := Bytes2Comp(buf);
      WholeBuffer(buf[..], f);
      if zero && overflow && buf.Length == size - 1 && src[buf.Length] == 1 {
        overflow := false;
      }
    }
    LowBitsAre(a, negative, twocomp, f.Bits(), v, BufV(buf[..], f, f.numwords));
    if overflow { sign := sign * 2; }
    CopyCode(a, v, rest, f.Bits(), negative, twocomp, overflow);
  }

  lemma CopyCode(a: int, v: int, rest: int, t: nat, negative: bool, twocomp: bool, overflow: bool)
    requires 0 <= v < Pow2(t) && a == v + Mul(Pow2(t), rest) && a > 0 && rest >= 0
    requires overflow == (rest >= 1 && !(negative && twocomp && v == 0 && rest == 1))
    ensures Code(if negative then -a else a, t, twocomp) == (if negative then -1 else 1) * if overflow then 2 else 1
  {
    hide Pow2, Mul;
    RestSays(a, v, rest, Pow2(t));
    MulIs(Pow2(t), rest);
  }

  /** Leading zero bytes dropped. */
  method TrimBytes(src: seq<Byte>) returns (size: nat)
    requires ByteV(src, |src|) > 0
    ensures 0 < size <= |src| && src[size - 1] != 0 && ByteV(src, size) == ByteV(src, |src|)
  {
    hide ByteV;
    size := |src|;
    ByteEmpty(src);
    while 0 < size && src[size - 1] == 0
      invariant 0 <= size <= |src| && ByteV(src, size) == ByteV(src, |src|)
    {
      ByteZeros(src, size - 1, size);
      size := size - 1;
    }
  }

  /** ... and so both leave the very same bytes. */
  lemma CopyAgrees(a: seq<Byte>, b: seq<Byte>, f: Format)
    requires LittleEndian(f) && |a| == |b| == f.Size() && BufV(a, f, f.numwords) == BufV(b, f, f.numwords)
    ensures a == b
  {
    hide BufV, ByteV, Clean;
    WholeBuffer(a, f);
    WholeBuffer(b, f);
    ByteUnique(a, b, |a|);
    assert a == a[..|a|] && b == b[..|b|];
  }
}
