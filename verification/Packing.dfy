/** Exporting an integer to a buffer of words (bary_pack). */
module Packing {
  import opened Digits
  import opened Memory
  import opened Shifts
  import opened EasyProducts
  import opened Toom3Steps
  import opened TwosComplement

  /** CHAR_BIT is 8. */
  type Byte = b: int | 0 <= b < 256 witness 0

  datatype Format = Format(numwords: nat, wordsize: nat, nails: nat, mswordFirst: bool, msbyteFirst: bool) {
    /** What validate_integer_pack_format lets through. */
    predicate Ok() { wordsize > 0 && nails / 8 < wordsize }

    /** Bytes of a word that are all data, and the data bits of the one above. */
    function Full(): (n: nat)
      requires Ok()
    {
      if nails % 8 == 0 then wordsize - nails / 8 else wordsize - nails / 8 - 1
    }

    function Partial(): (n: nat)
      ensures n < 8
    {
      if nails % 8 == 0 then 0 else 8 - nails % 8
    }

    /** The data bits of a word, of its byte k, and of the bytes below that one. */
    function WordBits(): (n: nat)
      requires Ok()
    {
      8 * wordsize - nails
    }

    function DataBits(k: nat): (n: nat)
      requires Ok()
      ensures n <= 8
    {
      if k < Full() then 8 else if k == Full() then Partial() else 0
    }

    function Off(k: nat): (n: nat)
      requires Ok()
    {
      if k <= Full() then 8 * k else WordBits()
    }

    lemma Offsets(k: nat)
      requires Ok()
      ensures Off(0) == 0 && Off(k + 1) == Off(k) + DataBits(k) && Off(wordsize) == WordBits() > 0
      ensures Full() + (if Partial() > 0 then 1 else 0) <= wordsize
    {
    }

    /** The data bits of the buffer. */
    function Bits(): (n: nat)
      requires Ok()
    {
      MulLe(0, numwords, WordBits());
      WordBits() * numwords
    }

    function Size(): (n: nat) { numwords * wordsize }

    /** Where the word w from the least significant one begins, and its byte k from the least significant one. */
    function WordAt(w: nat): (p: int) { if mswordFirst then wordsize * (numwords - 1 - w) else wordsize * w }
    function ByteAt(k: nat): (p: int) { if msbyteFirst then wordsize - 1 - k else k }
    function Pos(w: nat, k: nat): (p: int) { WordAt(w) + ByteAt(k) }

    lemma PosBounds(w: nat, k: nat)
      requires w < numwords && k < wordsize
      ensures 0 <= Pos(w, k) < Size()
    {
      var v := if mswordFirst then numwords - 1 - w else w;
      MulLe(0, v, wordsize);
      MulLe(v + 1, numwords, wordsize);
    }

    /** No two bytes share a place. */
    lemma PosApart(w: nat, k: nat, w': nat, k': nat)
      requires k < wordsize && k' < wordsize && Pos(w, k) == Pos(w', k')
      ensures w == w' && k == k'
    {
      var v, v' := if mswordFirst then numwords - 1 - w else w, if mswordFirst then numwords - 1 - w' else w';
      SameQuotient(wordsize, v, ByteAt(k), v', ByteAt(k'));
    }
  }

  // ----- the number in a buffer

  /** Byte k of word w. */
  ghost function Raw(b: seq<Byte>, f: Format, w: nat, k: nat): (d: Byte)
    requires |b| == f.Size() && w < f.numwords && k < f.wordsize
  {
    f.PosBounds(w, k);
    b[f.Pos(w, k)]
  }

  /** Its data bits. */
  ghost function Get(b: seq<Byte>, f: Format, w: nat, k: nat): (d: int)
    requires |b| == f.Size() && f.Ok() && w < f.numwords && k < f.wordsize
    ensures 0 <= d < Pow2(f.DataBits(k))
  {
    QuotRem(Raw(b, f, w, k), Pow2(f.DataBits(k)));
    Rem(Raw(b, f, w, k), Pow2(f.DataBits(k)))
  }

  /** The number in the n lowest bytes of word w. */
  ghost function WordV(b: seq<Byte>, f: Format, w: nat, n: nat): (v: int)
    requires |b| == f.Size() && f.Ok() && w < f.numwords && n <= f.wordsize
  {
    if n == 0 then 0 else WordV(b, f, w, n - 1) + Mul(Pow2(f.Off(n - 1)), Get(b, f, w, n - 1))
  }

  /** The number in the w lowest words. */
  ghost function BufV(b: seq<Byte>, f: Format, w: nat): (v: int)
    requires |b| == f.Size() && f.Ok() && w <= f.numwords
  {
    if w == 0 then 0
    else BufV(b, f, w - 1) + Mul(Pow2(f.(numwords := w - 1).Bits()), WordV(b, f, w - 1, f.wordsize))
  }

  /** The data bits of w words. */
  function BitsOf(f: Format, w: nat): (n: nat)
    requires f.Ok()
  {
    f.(numwords := w).Bits()
  }

  lemma BitsNext(f: Format, w: nat)
    requires f.Ok()
    ensures BitsOf(f, 0) == 0 && BitsOf(f, w + 1) == BitsOf(f, w) + f.WordBits() && BitsOf(f, f.numwords) == f.Bits()
  {
  }

  lemma {:induction false} WordBound(b: seq<Byte>, f: Format, w: nat, n: nat)
    requires |b| == f.Size() && f.Ok() && w < f.numwords && n <= f.wordsize
    ensures 0 <= WordV(b, f, w, n) < Pow2(f.Off(n))
  {
    hide Get, Mul;
    if n > 0 {
      WordBound(b, f, w, n - 1);
      f.Offsets(n - 1);
      NextFits(WordV(b, f, w, n - 1), Get(b, f, w, n - 1), f.Off(n - 1), f.DataBits(n - 1));
    }
  }

  lemma {:induction false} BufBound(b: seq<Byte>, f: Format, w: nat)
    requires |b| == f.Size() && f.Ok() && w <= f.numwords
    ensures 0 <= BufV(b, f, w) < Pow2(BitsOf(f, w))
  {
    hide Get, Mul, WordV;
    if w > 0 {
      BufBound(b, f, w - 1);
      f.Offsets(0);
      BitsNext(f, w - 1);
      WordBound(b, f, w - 1, f.wordsize);
      NextFits(BufV(b, f, w - 1), WordV(b, f, w - 1, f.wordsize), BitsOf(f, w - 1), f.WordBits());
    }
  }

  lemma NextFits(v: int, d: int, a: nat, n: nat)
    requires 0 <= v < Pow2(a) && 0 <= d < Pow2(n)
    ensures 0 <= v + Mul(Pow2(a), d) < Pow2(a + n)
  {
    hide Pow2, Mul;
    Pow2Adds(a, n);
    MulIs(Pow2(a), d); MulIs(Pow2(a), Pow2(n));
    MulLe(d + 1, Pow2(n), Pow2(a));
    MulLe(0, d, Pow2(a));
  }

  // ----- writing a buffer

  predicate Before(v: nat, j: nat, w: nat, k: nat) { v < w || (v == w && j < k) }

  /** The bytes below byte k of word w are the same. */
  ghost predicate SameBefore(a: seq<Byte>, b: seq<Byte>, f: Format, w: nat, k: nat) {
    && |a| == |b| == f.Size()
    && forall v: nat, j: nat {:trigger Raw(b, f, v, j)} ::
         v < f.numwords && j < f.wordsize && Before(v, j, w, k) ==> Raw(b, f, v, j) == Raw(a, f, v, j)
  }

  /** The others are. */
  ghost predicate SameAfter(a: seq<Byte>, b: seq<Byte>, f: Format, w: nat, k: nat) {
    && |a| == |b| == f.Size()
    && forall v: nat, j: nat {:trigger Raw(b, f, v, j)} ::
         v < f.numwords && j < f.wordsize && !Before(v, j, w, k) ==> Raw(b, f, v, j) == Raw(a, f, v, j)
  }

  /** The bytes below byte k of word w hold nothing but data: the nails are zero. */
  ghost predicate Clean(b: seq<Byte>, f: Format, w: nat, k: nat) {
    && |b| == f.Size() && f.Ok()
    && forall v: nat, j: nat {:trigger Raw(b, f, v, j)} ::
         v < f.numwords && j < f.wordsize && Before(v, j, w, k) ==> Raw(b, f, v, j) < Pow2(f.DataBits(j))
  }

  lemma {:induction false} WordSame(a: seq<Byte>, b: seq<Byte>, f: Format, w: nat, k: nat, v: nat, n: nat)
    requires SameBefore(a, b, f, w, k) && f.Ok() && v < f.numwords && n <= f.wordsize && (v < w || (v == w && n <= k))
    ensures WordV(b, f, v, n) == WordV(a, f, v, n)
  {
    hide Raw, Mul, Pow2;
    if n > 0 {
      WordSame(a, b, f, w, k, v, n - 1);
      assert Raw(b, f, v, n - 1) == Raw(a, f, v, n - 1);
    }
  }

  lemma {:induction false} BufSame(a: seq<Byte>, b: seq<Byte>, f: Format, w: nat, k: nat, v: nat)
    requires SameBefore(a, b, f, w, k) && f.Ok() && v <= f.numwords && v <= w
    ensures BufV(b, f, v) == BufV(a, f, v)
  {
    hide Raw, Get, Mul, Pow2;
    if v > 0 {
      BufSame(a, b, f, w, k, v - 1);
      WordSame(a, b, f, w, k, v - 1, f.wordsize);
    }
  }

  lemma SameTrans(a: seq<Byte>, b: seq<Byte>, c: seq<Byte>, f: Format, w: nat, k: nat, k': nat)
    requires SameBefore(a, b, f, w, k) && SameBefore(b, c, f, w, k') && k <= k'
    ensures SameBefore(a, c, f, w, k)
  {
    hide Raw;
    forall v: nat, j: nat | v < f.numwords && j < f.wordsize && Before(v, j, w, k)
      ensures Raw(c, f, v, j) == Raw(a, f, v, j)
    {
      assert Raw(c, f, v, j) == Raw(b, f, v, j);
    }
  }

  /** Storing byte k of word w. */
  method Put(buf: array<Byte>, f: Format, w: nat, k: nat, d: Byte)
    requires buf.Length == f.Size() && w < f.numwords && k < f.wordsize
    modifies buf
    ensures SameBefore(old(buf[..]), buf[..], f, w, k) && SameAfter(old(buf[..]), buf[..], f, w, k + 1)
    ensures Raw(buf[..], f, w, k) == d
  {
    f.PosBounds(w, k);
    ghost var a := buf[..];
    buf[f.Pos(w, k)] := d;
    forall v: nat, j: nat | v < f.numwords && j < f.wordsize && (v != w || j != k)
      ensures Raw(buf[..], f, v, j) == Raw(a, f, v, j)
    {
      f.PosBounds(v, j);
      if f.Pos(v, j) == f.Pos(w, k) { f.PosApart(v, j, w, k); }
    }
  }

  lemma CleanMore(a: seq<Byte>, b: seq<Byte>, f: Format, w: nat, k: nat)
    requires Clean(a, f, w, k) && SameBefore(a, b, f, w, k) && w < f.numwords && k < f.wordsize
    requires Raw(b, f, w, k) < Pow2(f.DataBits(k))
    ensures Clean(b, f, w, k + 1)
  {
    hide Raw, Pow2;
    forall v: nat, j: nat | v < f.numwords && j < f.wordsize && Before(v, j, w, k + 1)
      ensures Raw(b, f, v, j) < Pow2(f.DataBits(j))
    {
      if Before(v, j, w, k) { assert Raw(b, f, v, j) == Raw(a, f, v, j); }
    }
  }

  lemma CleanWord(b: seq<Byte>, f: Format, w: nat)
    requires Clean(b, f, w, f.wordsize)
    ensures Clean(b, f, w + 1, 0)
  {
    hide Raw, Pow2;
  }

  // ----- powers of two

  lemma MulMul(a: int, b: int, c: int)
    ensures Mul(Mul(a, b), c) == Mul(a, Mul(b, c))
  {
    MulAssoc(a, b, c);
  }

  lemma Pow2Eight()
    ensures Pow2(8) == 256
  {
    assert Pow2(8) == 4 * Pow2(6) == 16 * Pow2(4) == 64 * Pow2(2) == 256;
  }

  // ----- reading bits from digits

  /** What is left to take: dd, and above its nb bits the digits from dp to de. */
  ghost predicate Left(m: seq<Digit>, dp: nat, de: nat, dd: nat, nb: nat, r: int) {
    && dp <= de <= |m| && (dp < de ==> dd < Pow2(nb) && nb <= 2 * BITS)
    && r == dd + Mul(Pow2(nb), V(m, dp, de - dp))
  }

  /** integer_pack_fill_dd */
  method FillDd(mem: Memory, dp0: nat, de: nat, dd0: nat, nb0: nat, ghost r: int) returns (dp: nat, dd: nat, nb: nat)
    requires Left(mem.cells, dp0, de, dd0, nb0, r)
    ensures Left(mem.cells, dp, de, dd, nb, r) && nb >= 8
  {
    hide Mul, V, Pow2, Sh;
    SixteenBits();
    dp, dd, nb := dp0, dd0, nb0;
    if dp < de && BITS <= 2 * BITS - nb {
      FillStep(mem.cells, dp, de, dd, nb);
      dd := dd + mem.cells[dp] * Pow2(nb);
      dp, nb := dp + 1, nb + BITS;
    } else if dp == de {
      nb := 2 * BITS;
      VEmpty(mem.cells, dp);
      MulNone(Pow2(nb0));
      MulNone(Pow2(nb));
    }
  }

  lemma FillStep(m: seq<Digit>, dp: nat, de: nat, dd: nat, nb: nat)
    requires dp < de <= |m| && dd < Pow2(nb) && Pow2(BITS) == BIGRAD
    ensures 0 <= dd + m[dp] * Pow2(nb) < Pow2(nb + BITS)
    ensures dd + m[dp] * Pow2(nb) + Mul(Pow2(nb + BITS), V(m, dp + 1, de - (dp + 1))) == dd + Mul(Pow2(nb), V(m, dp, de - dp))
  {
    hide *;
    VFirst(m, dp, de - dp - 1);
    FillValue(m[dp], dd, nb, V(m, dp + 1, de - (dp + 1)));
  }

  lemma FillValue(d: Digit, dd: nat, nb: nat, v: int)
    requires dd < Pow2(nb) && Pow2(BITS) == BIGRAD
    ensures 0 <= dd + d * Pow2(nb) < Pow2(nb + BITS)
    ensures dd + d * Pow2(nb) + Mul(Pow2(nb + BITS), v) == dd + Mul(Pow2(nb), d + Sh(v, 1))
  {
    hide *;
    ShBase(v, 0);
    ShZero(v * BIGRAD);
    Pow2Adds(nb, BITS);
    MulMul(Pow2(nb), BIGRAD, v);
    MulAdds(Pow2(nb), d, Sh(v, 1));
    MulIs(BIGRAD, v); MulIs(Pow2(nb), d);
    NextFits(dd, d, nb, BITS);
  }

  /** FILL_DD and then TAKE_LOWBITS(n) */
  method TakeBits(mem: Memory, n: nat, dp0: nat, de: nat, dd0: nat, nb0: nat, ghost r: int)
    returns (bits: Byte, dp: nat, dd: nat, nb: nat, ghost rest: int)
    requires Left(mem.cells, dp0, de, dd0, nb0, r) && n <= 8
    ensures Left(mem.cells, dp, de, dd, nb, rest) && bits < Pow2(n) && r == bits + Mul(Pow2(n), rest)
  {
    hide Mul, V, Pow2, Quot, Rem;
    dp, dd, nb := FillDd(mem, dp0, de, dd0, nb0, r);
    TakeStep(n, dd, nb, V(mem.cells, dp, de - dp));
    bits := Rem(dd, Pow2(n));
    dd := Quot(dd, Pow2(n));
    nb := nb - n;
    rest := dd + Mul(Pow2(nb), V(mem.cells, dp, de - dp));
  }

  lemma TakeStep(n: nat, dd: nat, nb: nat, v: int)
    requires n <= 8 && n <= nb
    ensures 0 <= Rem(dd, Pow2(n)) < Pow2(n) <= 256 && 0 <= Quot(dd, Pow2(n))
    ensures dd < Pow2(nb) ==> Quot(dd, Pow2(n)) < Pow2(nb - n)
    ensures dd + Mul(Pow2(nb), v) == Rem(dd, Pow2(n)) + Mul(Pow2(n), Quot(dd, Pow2(n)) + Mul(Pow2(nb - n), v))
  {
    hide Mul, Pow2, Quot, Rem;
    var p, q := Pow2(n), Pow2(nb - n);
    QuotRem(dd, p);
    Pow2Monotone(n, 8);
    Pow2Eight();
    Pow2Adds(n, nb - n);
    MulAdds(p, Quot(dd, p), Mul(q, v));
    MulMul(p, q, v);
    MulIs(p, Quot(dd, p));
    if Quot(dd, p) < 0 { MulLe(Quot(dd, p), -1, p); }
    if dd < Pow2(nb) && Quot(dd, p) >= q { MulIs(p, q); MulLe(q, Quot(dd, p), p); }
  }

  // ----- packing the magnitude

  /** Of r, the bytes of word w below byte k hold the low part, and rest is what is left above it. */
  ghost predicate Packed(b0: seq<Byte>, b: seq<Byte>, f: Format, w: nat, k: nat, r: int, rest: int) {
    && f.Ok() && w < f.numwords && k <= f.wordsize && SameBefore(b0, b, f, w, 0) && Clean(b, f, w, k)
    && r == WordV(b, f, w, k) + Mul(Pow2(f.Off(k)), rest)
  }

  lemma PackedStart(b: seq<Byte>, f: Format, w: nat, r: int)
    requires w < f.numwords && Clean(b, f, w, 0)
    ensures Packed(b, b, f, w, 0, r, r)
  {
  }

  lemma PackedStep(b0: seq<Byte>, a: seq<Byte>, b: seq<Byte>, f: Format, w: nat, k: nat, r: int, rk: int, rest: int)
    requires Packed(b0, a, f, w, k, r, rk) && k < f.wordsize && SameBefore(a, b, f, w, k)
    requires Raw(b, f, w, k) < Pow2(f.DataBits(k)) && rk == Raw(b, f, w, k) + Mul(Pow2(f.DataBits(k)), rest)
    ensures Packed(b0, b, f, w, k + 1, r, rest)
  {
    hide Raw, Mul, Pow2, Rem, Clean, WordV;
    SameTrans(b0, a, b, f, w, 0, k);
    CleanMore(a, b, f, w, k);
    f.Offsets(k);
    WordSame(a, b, f, w, k, w, k);
    var d, p, q := Raw(b, f, w, k), Pow2(f.Off(k)), Pow2(f.DataBits(k));
    QuotUnique(d, q, 0, d);
    WordNext(b, f, w, k);
    Pow2Adds(f.Off(k), f.DataBits(k));
    MulAdds(p, d, Mul(q, rest));
    MulMul(p, q, rest);
  }

  lemma WordNext(b: seq<Byte>, f: Format, w: nat, k: nat)
    requires |b| == f.Size() && f.Ok() && w < f.numwords && k < f.wordsize
    ensures WordV(b, f, w, k + 1) == WordV(b, f, w, k) + Mul(Pow2(f.Off(k)), Get(b, f, w, k))
  {
  }

  /** One word: its full bytes, the partial one, zeros for the nails. */
  method PackWord(mem: Memory, buf: array<Byte>, f: Format, w: nat, dp0: nat, de: nat, dd0: nat, nb0: nat, ghost r: int)
    returns (dp: nat, dd: nat, nb: nat, ghost rest: int)
    requires f.Ok() && buf.Length == f.Size() && w < f.numwords && Left(mem.cells, dp0, de, dd0, nb0, r)
    requires Clean(buf[..], f, w, 0)
    modifies buf
    ensures Packed(old(buf[..]), buf[..], f, w, f.wordsize, r, rest) && Left(mem.cells, dp, de, dd, nb, rest)
  {
    hide Raw, Left, Packed, SameBefore, SameAfter, Mul, Pow2, Clean;
    ghost var b0 := buf[..];
    f.Offsets(0);
    dp, dd, nb, rest := dp0, dd0, nb0, r;
    PackedStart(b0, f, w, r);
    var k := 0;
    while k < f.Full()
      invariant 0 <= k <= f.Full() && Packed(b0, buf[..], f, w, k, r, rest) && Left(mem.cells, dp, de, dd, nb, rest)
    {
      dp, dd, nb, rest := PackByte(mem, buf, f, w, k, 8, dp, de, dd, nb, r, rest, b0);
      k := k + 1;
    }
    if f.Partial() != 0 {
      dp, dd, nb, rest := PackByte(mem, buf, f, w, k, f.Partial(), dp, de, dd, nb, r, rest, b0);
      k := k + 1;
    }
    while k < f.wordsize
      invariant f.Full() + (if f.Partial() > 0 then 1 else 0) <= k <= f.wordsize && Packed(b0, buf[..], f, w, k, r, rest)
    {
      ghost var a := buf[..];
      Put(buf, f, w, k, 0);
      NailStep(b0, a, buf[..], f, w, k, r, rest);
      k := k + 1;
    }
  }

  method PackByte(mem: Memory, buf: array<Byte>, f: Format, w: nat, k: nat, n: nat, dp0: nat, de: nat, dd0: nat, nb0: nat,
                  ghost r: int, ghost rk: int, ghost b0: seq<Byte>)
    returns (dp: nat, dd: nat, nb: nat, ghost rest: int)
    requires buf.Length == f.Size() && f.Ok() && w < f.numwords && k < f.wordsize && n == f.DataBits(k)
    requires Left(mem.cells, dp0, de, dd0, nb0, rk) && Packed(b0, buf[..], f, w, k, r, rk)
    modifies buf
    ensures Left(mem.cells, dp, de, dd, nb, rest) && Packed(b0, buf[..], f, w, k + 1, r, rest)
  {
    hide Raw, Left, Packed, SameBefore, SameAfter, Mul, Pow2;
    var bits;
    bits, dp, dd, nb, rest := TakeBits(mem, n, dp0, de, dd0, nb0, rk);
    ghost var a := buf[..];
    Put(buf, f, w, k, bits);
    PackedStep(b0, a, buf[..], f, w, k, r, rk, rest);
  }

  lemma NailStep(b0: seq<Byte>, a: seq<Byte>, b: seq<Byte>, f: Format, w: nat, k: nat, r: int, rest: int)
    requires Packed(b0, a, f, w, k, r, rest) && k < f.wordsize && SameBefore(a, b, f, w, k)
    requires Raw(b, f, w, k) == 0 && f.DataBits(k) == 0
    ensures Packed(b0, b, f, w, k + 1, r, rest)
  {
    hide Raw, Packed, SameBefore;
    PackedStep(b0, a, b, f, w, k, r, rest, rest);
  }

  /** The same of whole words. */
  ghost predicate PackedWords(b: seq<Byte>, f: Format, w: nat, r: int, rest: int) {
    && f.Ok() && |b| == f.Size() && w <= f.numwords && Clean(b, f, w, 0)
    && r == BufV(b, f, w) + Mul(Pow2(BitsOf(f, w)), rest)
  }

  lemma WordsStart(b: seq<Byte>, f: Format, r: int)
    requires f.Ok() && |b| == f.Size()
    ensures PackedWords(b, f, 0, r, r)
  {
    BitsNext(f, 0);
    assert Pow2(0) == 1;
  }

  lemma WordsStep(a: seq<Byte>, b: seq<Byte>, f: Format, w: nat, r: int, rw: int, rest: int)
    requires PackedWords(a, f, w, r, rw) && w < f.numwords && Packed(a, b, f, w, f.wordsize, rw, rest)
    ensures PackedWords(b, f, w + 1, r, rest)
  {
    hide Raw, Mul, Pow2, WordV, BitsOf, Clean, BufV;
    BufSame(a, b, f, w, 0, w);
    CleanWord(b, f, w);
    f.Offsets(0);
    BitsNext(f, w);
    BufNext(b, f, w);
    var d, p, q := WordV(b, f, w, f.wordsize), Pow2(BitsOf(f, w)), Pow2(f.WordBits());
    Pow2Adds(BitsOf(f, w), f.WordBits());
    MulAdds(p, d, Mul(q, rest));
    MulMul(p, q, rest);
  }

  lemma BufNext(b: seq<Byte>, f: Format, w: nat)
    requires |b| == f.Size() && f.Ok() && w < f.numwords
    ensures BufV(b, f, w + 1) == BufV(b, f, w) + Mul(Pow2(BitsOf(f, w)), WordV(b, f, w, f.wordsize))
  {
  }

  method PackWords(mem: Memory, buf: array<Byte>, f: Format, ds: nat, de: nat)
    returns (dp: nat, dd: nat, nb: nat, ghost rest: int)
    requires f.Ok() && buf.Length == f.Size() && ds <= de <= |mem.cells|
    modifies buf
    ensures PackedWords(buf[..], f, f.numwords, V(mem.cells, ds, de - ds), rest)
    ensures nb >= 8 && Left(mem.cells, dp, de, dd, nb, rest)
  {
    hide V, Left, Packed, PackedWords, Mul, Pow2, Clean;
    dp, dd, nb := ds, 0, 0;
    rest := V(mem.cells, ds, de - ds);
    ghost var r := rest;
    WordsStart(buf[..], f, r);
    LeftStart(mem.cells, ds, de);
    var w := 0;
    while w < f.numwords
      invariant 0 <= w <= f.numwords && Left(mem.cells, dp, de, dd, nb, rest) && PackedWords(buf[..], f, w, r, rest)
    {
      ghost var a, rw := buf[..], rest;
      WordsClean(a, f, w, r, rest);
      dp, dd, nb, rest := PackWord(mem, buf, f, w, dp, de, dd, nb, rest);
      WordsStep(a, buf[..], f, w, r, rw, rest);
      w := w + 1;
    }
    dp, dd, nb := FillDd(mem, dp, de, dd, nb, rest);
  }

  lemma WordsClean(b: seq<Byte>, f: Format, w: nat, r: int, rest: int)
    requires PackedWords(b, f, w, r, rest)
    ensures Clean(b, f, w, 0)
  {
  }

  lemma LeftStart(m: seq<Digit>, ds: nat, de: nat)
    requires ds <= de <= |m|
    ensures Left(m, ds, de, 0, 0, V(m, ds, de - ds))
  {
    hide V;
    assert Pow2(0) == 1;
    MulIs(1, V(m, ds, de - ds));
  }

  // ----- the code returned

  /** The documented result: the sign, doubled when t bits do not hold x. */
  ghost function Code(x: int, t: nat, twocomp: bool): (c: int) {
    if x == 0 then 0
    else if x > 0 then (if x < Pow2(t) then 1 else 2)
    else if -x < Pow2(t) || (twocomp && -x == Pow2(t)) then -1
    else -2
  }

  function Sign(negative: bool, n: nat): (s: int) { if n == 0 then 0 else if negative then -1 else 1 }

  lemma Pow2Strict(a: nat, b: nat)
    ensures Pow2(a) <= Pow2(b) <==> a <= b
    ensures Pow2(a) < 2 * Pow2(b) <==> a <= b
  {
    if a <= b { Pow2Monotone(a, b); } else { Pow2Monotone(b + 1, a); }
  }

  /** Between two powers of two, exactly the lower one has a single bit set. */
  lemma SingleBit(m: seq<Digit>, p: nat, n: nat, t: nat)
    requires 0 < n && p + n <= |m| && m[p + n - 1] != 0
    requires Pow2(t) <= V(m, p, n) < 2 * Pow2(t)
    ensures V(m, p, n) == Pow2(t) <==> V(m, p, n - 1) == 0 && IsPow2(m[p + n - 1])
  {
    hide V, Pow2, P, IsPow2, Sh;
    var d, low := m[p + n - 1], V(m, p, n - 1);
    VStep(m, p, n - 1);
    VBound(m, p, n - 1);
    BasePow2(n - 1);
    ShMul(d, n - 1);
    TopDigitWeighs(m, p, n);
    SingleTop(d, low, BITS * (n - 1), t);
  }

  lemma ShMul(d: int, k: nat)
    ensures Sh(d, k) == d * P(k)
  {
  }

  lemma SingleTop(d: nat, low: int, k: nat, t: nat)
    requires 0 <= low < Pow2(k) && d > 0 && Pow2(t) <= low + d * Pow2(k) < 2 * Pow2(t)
    ensures low + d * Pow2(k) == Pow2(t) <==> low == 0 && IsPow2(d)
  {
    hide Pow2, IsPow2, Mul;
    if low == 0 && IsPow2(d) {
      var j := Log2(d);
      Pow2Adds(k, j);
      MulIs(Pow2(k), d);
      Pow2Strict(k + j, t);
      Pow2Strict(t, k + j);
    }
    if low + d * Pow2(k) == Pow2(t) {
      MulLe(1, d, Pow2(k));
      Pow2Strict(k, t);
      Pow2Adds(k, t - k);
      MulIs(Pow2(k), Pow2(t - k));
      SameQuotient(Pow2(k), d, low, Pow2(t - k), 0);
      Pow2IsPow2(t - k);
    }
  }

  /** The test that the digits hold a single bit. */
  method OneBit(mem: Memory, ds: nat, de: nat, ghost t: nat) returns (one: bool)
    requires ds < de <= |mem.cells| && mem.cells[de - 1] != 0
    requires Pow2(t) <= V(mem.cells, ds, de - ds) < 2 * Pow2(t)
    ensures one <==> V(mem.cells, ds, de - ds) == Pow2(t)
  {
    hide V, Pow2, Sh, IsPow2;
    var dp := ds;
    VEmpty(mem.cells, ds);
    while dp < de && mem.cells[dp] == 0
      invariant ds <= dp <= de && V(mem.cells, ds, dp - ds) == 0 && dp < de
    {
      VStep(mem.cells, ds, dp - ds);
      ShNone(dp - ds);
      dp := dp + 1;
    }
    one := de - dp == 1 && IsPow2(mem.cells[dp]);
    SingleBit(mem.cells, ds, de - ds, t);
    if de - dp != 1 { NonZeroTail(mem.cells, ds, dp - ds, de - ds - 1); }
  }

  /** What the part that did not fit says of the size. */
  lemma RestSays(a: int, v: int, rest: int, p: int)
    requires 0 <= v < p && a == v + Mul(p, rest)
    ensures rest >= 2 ==> a > p
    ensures rest == 1 ==> p <= a < 2 * p
    ensures rest == 0 ==> a < p
    ensures a >= 0 ==> rest >= 0
  {
    if rest >= 2 { MulLe(2, rest, p); }
    if rest < 0 { MulLe(rest, -1, p); }
  }

  /** ... and how the end of the digits shows it. */
  lemma RestSeen(m: seq<Digit>, dp: nat, de: nat, dd: nat, nb: nat, rest: int)
    requires Left(m, dp, de, dd, nb, rest) && nb >= 8
    requires dp < de ==> m[de - 1] != 0
    ensures dp == de ==> rest == dd
    ensures dp != de ==> rest >= 2
  {
    hide V, Pow2, Mul, P;
    if dp == de {
      VEmpty(m, dp);
      MulNone(Pow2(nb));
    } else {
      TopDigitWeighs(m, dp, de - dp);
      Pow2Monotone(8, nb);
      Pow2Eight();
      MulIs(Pow2(nb), V(m, dp, de - dp));
      MulLe(1, V(m, dp, de - dp), Pow2(nb));
    }
  }

  /** The overflow tests. */
  method Overflow(mem: Memory, ds: nat, de: nat, dp: nat, dd: nat, ghost nb: nat, negative: bool, twocomp: bool,
                  ghost t: nat, ghost v: int, ghost rest: int) returns (sign: int)
    requires ds < de <= |mem.cells| && mem.cells[de - 1] != 0 && nb >= 8 && Left(mem.cells, dp, de, dd, nb, rest)
    requires 0 <= v < Pow2(t) && V(mem.cells, ds, de - ds) == v + Mul(Pow2(t), rest)
    ensures sign == Code(if negative then -V(mem.cells, ds, de - ds) else V(mem.cells, ds, de - ds), t, twocomp)
  {
    hide V, Pow2, Mul, Left, P;
    TopDigitWeighs(mem.cells, ds, de - ds);
    RestSays(V(mem.cells, ds, de - ds), v, rest, Pow2(t));
    LeftPlace(mem.cells, dp, de, dd, nb, rest);
    RestSeen(mem.cells, dp, de, dd, nb, rest);
    sign := if negative then -1 else 1;
    if dp != de || 1 < dd {
      sign := sign * 2;
    } else if dd == 1 {
      if !twocomp || 0 <= sign {
        sign := sign * 2;
      } else {
        var one := OneBit(mem, ds, de, t);
        sign := if one then -1 else -2;
      }
    }
  }

  lemma LeftPlace(m: seq<Digit>, dp: nat, de: nat, dd: nat, nb: nat, rest: int)
    requires Left(m, dp, de, dd, nb, rest)
    ensures dp <= de <= |m|
  {
  }

  // ----- two's complement in the buffer

  /** Below byte k of word w the complement is in place: with the carry that came in, c, and the one to go on with. */
  ghost predicate Flipped(a: seq<Byte>, b: seq<Byte>, f: Format, w: nat, k: nat, c: int, carry: int) {
    && f.Ok() && w < f.numwords && k <= f.wordsize
    && SameBefore(a, b, f, w, 0) && SameAfter(a, b, f, w, k) && Clean(b, f, w, k)
    && WordV(b, f, w, k) + WordV(a, f, w, k) + Mul(Pow2(f.Off(k)), carry) == Pow2(f.Off(k)) - 1 + c
  }

  lemma FlippedStart(a: seq<Byte>, f: Format, w: nat, c: int)
    requires w < f.numwords && Clean(a, f, w, 0)
    ensures Flipped(a, a, f, w, 0, c, c)
  {
    assert Pow2(0) == 1;
  }

  /** One byte: t is what was added up for it. */
  lemma FlippedStep(a: seq<Byte>, b: seq<Byte>, b': seq<Byte>, f: Format, w: nat, k: nat, c: int, carry: int, t: int)
    requires Flipped(a, b, f, w, k, c, carry) && k < f.wordsize
    requires SameBefore(b, b', f, w, k) && SameAfter(b, b', f, w, k + 1)
    requires t == carry + Pow2(f.DataBits(k)) - 1 - Get(b, f, w, k)
    requires Raw(b', f, w, k) == Rem(t, Pow2(f.DataBits(k)))
    ensures Flipped(a, b', f, w, k + 1, c, Quot(t, Pow2(f.DataBits(k))))
  {
    hide Raw, Mul, Pow2, Rem, Quot, Clean, WordV;
    var d, p, q := Get(a, f, w, k), Pow2(f.Off(k)), Pow2(f.DataBits(k));
    FlippedFrame(a, b, b', f, w, k);
    QuotRem(t, q);
    CleanMore(b, b', f, w, k);
    f.Offsets(k);
    WordSame(b, b', f, w, k, w, k);
    QuotUnique(Raw(b', f, w, k), q, 0, Rem(t, q));
    WordNext(b', f, w, k);
    WordNext(a, f, w, k);
    Pow2Adds(f.Off(k), f.DataBits(k));
    FlippedSum(WordV(b, f, w, k), WordV(a, f, w, k), p, q, d, c, carry, Quot(t, q), Rem(t, q));
  }

  lemma FlippedFrame(a: seq<Byte>, b: seq<Byte>, b': seq<Byte>, f: Format, w: nat, k: nat)
    requires |a| == f.Size() && f.Ok() && w < f.numwords && k < f.wordsize
    requires SameBefore(a, b, f, w, 0) && SameAfter(a, b, f, w, k)
    requires SameBefore(b, b', f, w, k) && SameAfter(b, b', f, w, k + 1)
    ensures SameBefore(a, b', f, w, 0) && SameAfter(a, b', f, w, k + 1) && Get(b, f, w, k) == Get(a, f, w, k)
  {
    hide Raw, Pow2;
    SameTrans(a, b, b', f, w, 0, k);
    assert Raw(b, f, w, k) == Raw(a, f, w, k);
    forall v: nat, j: nat | v < f.numwords && j < f.wordsize && !Before(v, j, w, k + 1)
      ensures Raw(b', f, v, j) == Raw(a, f, v, j)
    {
      assert Raw(b', f, v, j) == Raw(b, f, v, j);
    }
  }

  lemma FlippedSum(vb: int, va: int, p: int, q: int, d: int, c: int, carry: int, hi: int, lo: int)
    requires vb + va + Mul(p, carry) == p - 1 + c && carry + q - 1 - d == hi * q + lo
    ensures vb + Mul(p, lo) + (va + Mul(p, d)) + Mul(Mul(p, q), hi) == Mul(p, q) - 1 + c
  {
    hide Mul;
    MulComm(q, hi); MulIs(hi, q);
    MulMul(p, q, hi);
    MulAdds(p, Mul(q, hi), lo);
    MulAdds(p, lo, d);
    MulSubs(p, carry + q, 1 + d);
    MulAdds(p, carry, q);
    MulAdds(p, 1, d);
    MulIs(p, 1);
    assert Mul(p, Mul(q, hi) + lo) == Mul(p, carry + q - (1 + d));
  }

  method FlipByte(buf: array<Byte>, f: Format, w: nat, k: nat, n: nat, carry0: nat, ghost a: seq<Byte>, ghost c: int)
    returns (carry: nat)
    requires buf.Length == f.Size() && f.Ok() && w < f.numwords && k < f.wordsize && n == f.DataBits(k)
    requires Flipped(a, buf[..], f, w, k, c, carry0)
    modifies buf
    ensures Flipped(a, buf[..], f, w, k + 1, c, carry)
  {
    hide Flipped, SameBefore, SameAfter, Mul, Pow2, Quot, Rem;
    f.PosBounds(w, k);
    ghost var b := buf[..];
    QuotRem(buf[f.Pos(w, k)], Pow2(n));
    var t := carry0 + Pow2(n) - 1 - Rem(buf[f.Pos(w, k)], Pow2(n));
    QuotRem(t, Pow2(n));
    Pow2Monotone(n, 8);
    Pow2Eight();
    assert t == carry0 + Pow2(n) - 1 - Get(b, f, w, k);
    QuotPositive(t, Pow2(n));
    Put(buf, f, w, k, Rem(t, Pow2(n)));
    FlippedStep(a, b, buf[..], f, w, k, c, carry0, t);
    carry := Quot(t, Pow2(n));
  }

  lemma QuotPositive(t: nat, q: nat)
    requires q > 0
    ensures Quot(t, q) >= 0
  {
  }

  method FlipWord(buf: array<Byte>, f: Format, w: nat, carry0: nat) returns (carry: nat)
    requires f.Ok() && buf.Length == f.Size() && w < f.numwords
    requires Clean(buf[..], f, w, 0) && Clean(buf[..], f, f.numwords, 0)
    modifies buf
    ensures Flipped(old(buf[..]), buf[..], f, w, f.wordsize, carry0, carry)
  {
    hide Flipped, SameBefore, SameAfter, Mul, Pow2, Clean;
    ghost var a := buf[..];
    f.Offsets(0);
    carry := carry0;
    FlippedStart(a, f, w, carry);
    var k := 0;
    while k < f.Full()
      invariant 0 <= k <= f.Full() && Flipped(a, buf[..], f, w, k, carry0, carry)
    {
      carry := FlipByte(buf, f, w, k, 8, carry, a, carry0);
      k := k + 1;
    }
    if f.Partial() != 0 {
      carry := FlipByte(buf, f, w, k, f.Partial(), carry, a, carry0);
      k := k + 1;
    }
    FlippedNails(a, buf[..], f, w, k, carry0, carry);
  }

  /** The nails stay as they are. */
  lemma {:induction false} FlippedNails(a: seq<Byte>, b: seq<Byte>, f: Format, w: nat, k: nat, c: int, carry: int)
    requires Flipped(a, b, f, w, k, c, carry) && Clean(a, f, f.numwords, 0)
    requires f.Full() + (if f.Partial() > 0 then 1 else 0) <= k
    ensures Flipped(a, b, f, w, f.wordsize, c, carry)
    decreases f.wordsize - k
  {
    hide Flipped, SameBefore, SameAfter, Mul, Pow2, Clean, Get, Raw;
    if k < f.wordsize {
      FlippedNail(a, b, f, w, k, c, carry);
      FlippedNails(a, b, f, w, k + 1, c, carry);
    } else {
      FlippedEnd(a, b, f, w, k, c, carry);
    }
  }

  lemma FlippedEnd(a: seq<Byte>, b: seq<Byte>, f: Format, w: nat, k: nat, c: int, carry: int)
    requires Flipped(a, b, f, w, k, c, carry)
    ensures k <= f.wordsize
  {
  }

  lemma FlippedNail(a: seq<Byte>, b: seq<Byte>, f: Format, w: nat, k: nat, c: int, carry: int)
    requires Flipped(a, b, f, w, k, c, carry) && Clean(a, f, f.numwords, 0) && k < f.wordsize && f.DataBits(k) == 0
    ensures Flipped(a, b, f, w, k + 1, c, carry)
  {
    hide Mul, Raw, WordV;
    assert Pow2(0) == 1;
    assert Raw(b, f, w, k) == Raw(a, f, w, k) < 1;
    f.Offsets(k);
    WordNext(a, f, w, k);
    WordNext(b, f, w, k);
    MulNone(Pow2(f.Off(k)));
    CleanMore(b, b, f, w, k);
  }

  /** Complementing whole words. */
  ghost predicate FlippedWords(a: seq<Byte>, b: seq<Byte>, f: Format, w: nat, carry: int) {
    && f.Ok() && w <= f.numwords && SameAfter(a, b, f, w, 0) && Clean(b, f, f.numwords, 0)
    && BufV(b, f, w) + BufV(a, f, w) + Mul(Pow2(BitsOf(f, w)), carry) == Pow2(BitsOf(f, w))
  }

  lemma FlippedWordsStep(a: seq<Byte>, b: seq<Byte>, b': seq<Byte>, f: Format, w: nat, c: int, carry: int)
    requires FlippedWords(a, b, f, w, c) && w < f.numwords && Flipped(b, b', f, w, f.wordsize, c, carry)
    ensures FlippedWords(a, b', f, w + 1, carry)
  {
    hide Raw, Mul, Pow2, WordV, BitsOf, Clean, BufV;
    FlippedWordsFrame(a, b, b', f, w);
    BufSame(b, b', f, w, 0, w);
    f.Offsets(0);
    BitsNext(f, w);
    BufNext(b', f, w);
    BufNext(a, f, w);
    Pow2Adds(BitsOf(f, w), f.WordBits());
    FlippedWord(BufV(b, f, w), BufV(a, f, w), Pow2(BitsOf(f, w)), Pow2(f.WordBits()),
                WordV(b', f, w, f.wordsize), WordV(a, f, w, f.wordsize), c, carry);
  }

  lemma FlippedWord(vb: int, va: int, p: int, q: int, wb: int, wa: int, c: int, carry: int)
    requires vb + va + Mul(p, c) == p && wb + wa + Mul(q, carry) == q - 1 + c
    ensures vb + Mul(p, wb) + (va + Mul(p, wa)) + Mul(Mul(p, q), carry) == Mul(p, q)
  {
    hide Mul;
    MulMul(p, q, carry);
    MulAdds(p, wb, wa);
    MulAdds(p, wb + wa, Mul(q, carry));
    MulSubs(p, q + c, 1);
    MulAdds(p, q, c);
    MulIs(p, 1);
    assert Mul(p, wb + wa + Mul(q, carry)) == Mul(p, q + c - 1);
  }

  lemma FlippedWordsFrame(a: seq<Byte>, b: seq<Byte>, b': seq<Byte>, f: Format, w: nat)
    requires f.Ok() && w < f.numwords && SameAfter(a, b, f, w, 0) && Clean(b, f, f.numwords, 0)
    requires SameBefore(b, b', f, w, 0) && SameAfter(b, b', f, w, f.wordsize) && Clean(b', f, w, f.wordsize)
    ensures SameAfter(a, b', f, w + 1, 0) && Clean(b', f, f.numwords, 0)
    ensures WordV(b, f, w, f.wordsize) == WordV(a, f, w, f.wordsize)
  {
    hide Raw, Pow2, WordV;
    forall v: nat, j: nat | v < f.numwords && j < f.wordsize && !Before(v, j, w + 1, 0)
      ensures Raw(b', f, v, j) == Raw(a, f, v, j) && Raw(b', f, v, j) == Raw(b, f, v, j)
    {
      assert Raw(b', f, v, j) == Raw(b, f, v, j);
    }
    assert forall v: nat, j: nat :: v < f.numwords && j < f.wordsize && !Before(v, j, w + 1, 0) ==> Raw(b', f, v, j) < Pow2(f.DataBits(j));
    WordSameAt(a, b, f, w, f.wordsize);
  }

  lemma {:induction false} WordSameAt(a: seq<Byte>, b: seq<Byte>, f: Format, w: nat, n: nat)
    requires SameAfter(a, b, f, w, 0) && f.Ok() && w < f.numwords && n <= f.wordsize
    ensures WordV(b, f, w, n) == WordV(a, f, w, n)
  {
    hide Raw, Mul, Pow2;
    if n > 0 {
      WordSameAt(a, b, f, w, n - 1);
      assert Raw(b, f, w, n - 1) == Raw(a, f, w, n - 1);
    }
  }

  /** The buffer is negated modulo the power of two it can count to. */
  method Flip(buf: array<Byte>, f: Format)
    requires f.Ok() && buf.Length == f.Size() && Clean(buf[..], f, f.numwords, 0)
    modifies buf
    ensures Clean(buf[..], f, f.numwords, 0)
    ensures BufV(buf[..], f, f.numwords) == Rem(-BufV(old(buf[..]), f, f.numwords), Pow2(f.Bits()))
  {
    hide Raw, Mul, Pow2, Clean, Rem, Flipped, FlippedWords;
    ghost var a := buf[..];
    var carry := 1;
    FlippedWordsStart(a, f);
    var w := 0;
    while w < f.numwords
      invariant 0 <= w <= f.numwords && FlippedWords(a, buf[..], f, w, carry)
    {
      ghost var b, c := buf[..], carry;
      FlippedWordsClean(a, b, f, w, c);
      carry := FlipWord(buf, f, w, carry);
      FlippedWordsStep(a, b, buf[..], f, w, c, carry);
      w := w + 1;
    }
    FlippedWordsEnd(a, buf[..], f, carry);
  }

  lemma FlippedWordsStart(a: seq<Byte>, f: Format)
    requires f.Ok() && Clean(a, f, f.numwords, 0)
    ensures FlippedWords(a, a, f, 0, 1)
  {
    BitsNext(f, 0);
    assert Pow2(0) == 1;
  }

  lemma FlippedWordsClean(a: seq<Byte>, b: seq<Byte>, f: Format, w: nat, carry: int)
    requires FlippedWords(a, b, f, w, carry)
    ensures Clean(b, f, w, 0) && Clean(b, f, f.numwords, 0)
  {
    hide Raw, Pow2, BufV, Mul;
  }

  lemma FlippedWordsEnd(a: seq<Byte>, b: seq<Byte>, f: Format, carry: int)
    requires FlippedWords(a, b, f, f.numwords, carry)
    ensures Clean(b, f, f.numwords, 0) && BufV(b, f, f.numwords) == Rem(-BufV(a, f, f.numwords), Pow2(f.Bits()))
  {
    hide Raw, Pow2, BufV, Mul, Rem, Clean;
    BitsNext(f, 0);
    BufBound(b, f, f.numwords);
    var p := Pow2(f.Bits());
    MulSubs(p, 1, carry);
    MulIs(p, 1);
    MulComm(p, carry - 1);
    MulIs(carry - 1, p);
    MulSubs(p, carry, 1);
    QuotUnique(-BufV(a, f, f.numwords), p, carry - 1, BufV(b, f, f.numwords));
  }

  // ----- bary_pack

  /** What the buffer holds of x: its low t bits, of the magnitude or in two's complement. */
  ghost function LowBits(x: int, t: nat, twocomp: bool): (v: int) {
    Rem(if twocomp || x >= 0 then x else -x, Pow2(t))
  }

  lemma LowBitsAre(a: int, negative: bool, twocomp: bool, t: nat, v: int, w: int)
    requires a > 0 && v == Rem(a, Pow2(t)) && w == (if twocomp && negative then Rem(-v, Pow2(t)) else v)
    ensures w == LowBits(if negative then -a else a, t, twocomp)
  {
    hide Pow2, Rem, Quot;
    var p := Pow2(t);
    if negative && twocomp {
      QuotRem(a, p);
      QuotRem(-v, p);
      Negated(Quot(a, p), Quot(-v, p), p);
      QuotUnique(-a, p, Quot(-v, p) - Quot(a, p), w);
    }
  }

  lemma Negated(q: int, r: int, p: int)
    ensures r * p - q * p == (r - q) * p
  {
  }

  lemma WordsEnd(b: seq<Byte>, f: Format, r: int, rest: int)
    requires PackedWords(b, f, f.numwords, r, rest)
    ensures Clean(b, f, f.numwords, 0) && 0 <= BufV(b, f, f.numwords) < Pow2(f.Bits())
    ensures r == BufV(b, f, f.numwords) + Mul(Pow2(f.Bits()), rest)
    ensures BufV(b, f, f.numwords) == Rem(r, Pow2(f.Bits()))
  {
    hide Raw, Pow2, BufV, Mul, Rem, Clean;
    BitsNext(f, 0);
    BufBound(b, f, f.numwords);
    var p := Pow2(f.Bits());
    MulComm(p, rest);
    MulIs(rest, p);
    QuotUnique(r, p, rest, BufV(b, f, f.numwords));
  }

  lemma NoBits(b: seq<Byte>, f: Format, a: int)
    requires f.Ok() && f.numwords == 0 && |b| == f.Size()
    ensures Clean(b, f, f.numwords, 0) && BufV(b, f, f.numwords) == 0 && f.Bits() == 0 && Pow2(f.Bits()) == 1
    ensures Rem(a, Pow2(f.Bits())) == 0 && Rem(0, Pow2(f.Bits())) == 0
  {
    BitsNext(f, 0);
    QuotRem(a, 1);
  }

  /** The number zero: the buffer is cleared. */
  method Blank(buf: array<Byte>, f: Format)
    requires f.Ok() && buf.Length == f.Size()
    modifies buf
    ensures BufV(buf[..], f, f.numwords) == 0 && Clean(buf[..], f, f.numwords, 0)
  {
    hide BufV, Clean;
    var i := 0;
    while i < buf.Length
      invariant 0 <= i <= buf.Length && forall j :: 0 <= j < i ==> buf[j] == 0
    {
      buf[i] := 0;
      i := i + 1;
    }
    BlankClean(buf[..], f);
    BlankBuf(buf[..], f, f.numwords);
  }

  ghost predicate AllZero(b: seq<Byte>) { forall j :: 0 <= j < |b| ==> b[j] == 0 }

  lemma BlankClean(b: seq<Byte>, f: Format)
    requires f.Ok() && |b| == f.Size() && AllZero(b)
    ensures Clean(b, f, f.numwords, 0)
  {
    hide Pow2;
    forall v: nat, j: nat | v < f.numwords && j < f.wordsize
      ensures Raw(b, f, v, j) == 0
    {
      f.PosBounds(v, j);
    }
  }

  lemma {:induction false} BlankWord(b: seq<Byte>, f: Format, w: nat, n: nat)
    requires f.Ok() && |b| == f.Size() && AllZero(b) && w < f.numwords && n <= f.wordsize
    ensures WordV(b, f, w, n) == 0
  {
    hide Pow2, Mul, Rem;
    if n > 0 {
      BlankWord(b, f, w, n - 1);
      f.PosBounds(w, n - 1);
      QuotUnique(0, Pow2(f.DataBits(n - 1)), 0, 0);
      MulNone(Pow2(f.Off(n - 1)));
    }
  }

  lemma {:induction false} BlankBuf(b: seq<Byte>, f: Format, w: nat)
    requires f.Ok() && |b| == f.Size() && AllZero(b) && w <= f.numwords
    ensures BufV(b, f, w) == 0
  {
    hide Pow2, Mul, WordV;
    if w > 0 {
      BlankBuf(b, f, w - 1);
      BlankWord(b, f, w - 1, f.wordsize);
      MulNone(Pow2(BitsOf(f, w - 1)));
    }
  }

  /** A buffer of no words. */
  method PackNothing(mem: Memory, ds: nat, k: nat, negative: bool, twocomp: bool) returns (sign: int)
    requires 0 < k && ds + k <= |mem.cells| && mem.cells[ds + k - 1] != 0
    ensures sign == Code(if negative then -V(mem.cells, ds, k) else V(mem.cells, ds, k), 0, twocomp)
  {
    hide V, P;
    assert Pow2(0) == 1;
    TopDigitWeighs(mem.cells, ds, k);
    sign := if negative then -1 else 1;
    if !twocomp || 0 <= sign {
      sign := sign * 2;
    } else {
      if k == 1 {
        VOne(mem.cells, ds);
      } else {
        PMonotone(1, k - 1);
        FirstPower();
      }
      sign := if k == 1 && mem.cells[ds] == 1 then -1 else -2;
    }
  }

  lemma FirstPower()
    ensures P(1) == BIGRAD && P(0) == 1
  {
    assert P(1) == P(0) * BIGRAD;
  }

  /** bary_pack: the low bits of the number go to the buffer, in the order the format asks for, the nails are
      zero, and the code says exactly when something was lost. */
  method Pack(mem: Memory, ds: nat, n: nat, negative: bool, buf: array<Byte>, f: Format, twocomp: bool) returns (sign: int)
    requires ds + n <= |mem.cells| && f.Ok() && buf.Length == f.Size()
    modifies buf
    ensures sign == Code(if negative then -V(mem.cells, ds, n) else V(mem.cells, ds, n), f.Bits(), twocomp)
    ensures BufV(buf[..], f, f.numwords) == LowBits(if negative then -V(mem.cells, ds, n) else V(mem.cells, ds, n), f.Bits(), twocomp)
    ensures Clean(buf[..], f, f.numwords, 0)
  {
    hide V, Pow2, Clean, Mul, Left, PackedWords, BufV, P, Rem;
    var k := Trunc(mem, ds, n);
    VBound(mem.cells, ds, k);
    sign := Sign(negative, k);
    if k == 0 {
      VEmpty(mem.cells, ds);
      Blank(buf, f);
      QuotUnique(0, Pow2(f.Bits()), 0, 0);
    } else {
      TopDigitWeighs(mem.cells, ds, k);
      if f.numwords == 0 {
        sign := PackNothing(mem, ds, k, negative, twocomp);
        NoBits(buf[..], f, V(mem.cells, ds, k));
      } else {
        var dp, dd, nb;
        ghost var rest;
        dp, dd, nb, rest := PackWords(mem, buf, f, ds, ds + k);
        WordsEnd(buf[..], f, V(mem.cells, ds, k), rest);
        sign := Overflow(mem, ds, ds + k, dp, dd, nb, negative, twocomp, f.Bits(), BufV(buf[..], f, f.numwords), rest);
      }
      ghost var v := BufV(buf[..], f, f.numwords);
      if twocomp && sign < 0 && f.numwords != 0 {
        Flip(buf, f);
      }
      LowBitsAre(V(mem.cells, ds, k), negative, twocomp, f.Bits(), v, BufV(buf[..], f, f.numwords));
    }
  }
}
