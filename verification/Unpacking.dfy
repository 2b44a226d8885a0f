/** Importing an integer from a buffer of words (bary_unpack_internal, rb_integer_unpack). */
module Unpacking {
  import opened Digits
  import opened Memory
  import opened Shifts
  import opened Toom3Steps
  import opened TwosComplement
  import opened Packing

  // ----- digits from bits

  /** The off low bits of a number, u, are in i digits at z and, the last nb of them, in dd. */
  ghost predicate Pushed(m: seq<Digit>, z: nat, i: nat, dd: nat, nb: nat, off: nat, u: int) {
    && z + i <= |m| && dd < Pow2(nb) && Index(i, nb) == off
    && u == V(m, z, i) + Sh(dd, i)
  }

  /** integer_unpack_push_bits */
  method PushBits(mem: Memory, z: nat, zn: nat, data: nat, n: nat, i0: nat, dd0: nat, nb0: nat, ghost off: nat, ghost u: int)
    returns (i: nat, dd: nat, nb: nat)
    requires z + zn <= |mem.cells| && data < Pow2(n)
    requires Pushed(mem.cells, z, i0, dd0, nb0, off, u) && nb0 < BITS && off + n <= Index(zn, 0)
    modifies mem
    ensures SameOutside(old(mem.cells), mem.cells, z, zn) && nb < BITS
    ensures Pushed(mem.cells, z, i, dd, nb, off + n, u + Mul(Pow2(off), data))
  {
    hide Pow2, V, Sh, Mul, BigLo, BigDn, Pushed, Index;
    ghost var m0 := mem.cells;
    ghost var off', u' := off + n, u + Mul(Pow2(off), data);
    PushMore(mem.cells, z, i0, dd0, nb0, off, u, data, n);
    i, dd, nb := i0, dd0 + data * Pow2(nb0), nb0 + n;
    SixteenBits();
    while BITS <= nb
      invariant |mem.cells| == |m0| && SameOutside(m0, mem.cells, z, zn) && Pushed(mem.cells, z, i, dd, nb, off', u')
      decreases nb
    {
      PushRoom(mem.cells, z, zn, i, dd, nb, off', u');
      dd := PutDigitBits(mem, z, i, dd, nb, off', u');
      i, nb := i + 1, nb - BITS;
    }
  }

  lemma PushMore(m: seq<Digit>, z: nat, i: nat, dd: nat, nb: nat, off: nat, u: int, data: nat, n: nat)
    requires Pushed(m, z, i, dd, nb, off, u) && data < Pow2(n)
    ensures dd + data * Pow2(nb) >= 0
    ensures Pushed(m, z, i, dd + data * Pow2(nb), nb + n, off + n, u + Mul(Pow2(off), data))
  {
    hide Pow2, V, Mul, Sh, P;
    NextFits(dd, data, nb, n);
    MulIs(Pow2(nb), data);
    WeightAt(i, nb);
    ShAdds(dd, data * Pow2(nb), i);
    ShMul(data * Pow2(nb), i);
    Product(data, Pow2(nb), P(i));
  }

  lemma Product(d: int, q: int, p: int)
    ensures d * q * p == Mul(Mul(p, q), d)
  {
    MulAssoc(d, q, p);
  }

  lemma PushRoom(m: seq<Digit>, z: nat, zn: nat, i: nat, dd: nat, nb: nat, off: nat, u: int)
    requires Pushed(m, z, i, dd, nb, off, u) && off <= Index(zn, 0) && nb > 0
    ensures i < zn
  {
    if i >= zn { MulLe(zn, i, BITS); }
  }

  method PutDigitBits(mem: Memory, z: nat, i: nat, dd: nat, nb: nat, ghost off: nat, ghost u: int) returns (rest: nat)
    requires z + i < |mem.cells| && nb >= BITS && Pushed(mem.cells, z, i, dd, nb, off, u)
    modifies mem
    ensures mem.cells == old(mem.cells)[z + i := BigLo(dd)]
    ensures Pushed(mem.cells, z, i + 1, rest, nb - BITS, off, u)
  {
    hide Pow2, V, Sh, BigLo, BigDn, Index;
    var r := PutDigit(mem, z, i, dd);
    CarryFits(dd, nb);
    IndexNext(i + 1, nb - BITS);
    IndexMoves(i, nb);
    rest := r;
  }

  lemma CarryFits(dd: nat, nb: nat)
    requires dd < Pow2(nb) && nb >= BITS
    ensures 0 <= BigDn(dd) < Pow2(nb - BITS)
  {
    hide Pow2, Mul;
    SixteenBits();
    Pow2Adds(nb - BITS, BITS);
    MulIs(Pow2(nb - BITS), BIGRAD);
    BigDnBounds(dd, 0, Pow2(nb - BITS));
  }

  lemma IndexMoves(i: nat, nb: nat)
    requires nb >= BITS
    ensures Index(i + 1, nb - BITS) == Index(i, nb)
  {
  }

  /** Everything below byte k of word w has been read. */
  ghost function Seen(b: seq<Byte>, f: Format, w: nat, k: nat): (v: int)
    requires |b| == f.Size() && f.Ok() && w < f.numwords && k <= f.wordsize
  {
    BufV(b, f, w) + Mul(Pow2(BitsOf(f, w)), WordV(b, f, w, k))
  }

  lemma SeenStart(b: seq<Byte>, f: Format, w: nat)
    requires |b| == f.Size() && f.Ok() && w < f.numwords
    ensures Seen(b, f, w, 0) == BufV(b, f, w) && f.Off(0) == 0
  {
    hide Pow2, Mul, BufV, BitsOf;
    MulNone(Pow2(BitsOf(f, w)));
  }

  lemma SeenNext(b: seq<Byte>, f: Format, w: nat, k: nat)
    requires |b| == f.Size() && f.Ok() && w < f.numwords && k < f.wordsize
    ensures Seen(b, f, w, k + 1) == Seen(b, f, w, k) + Mul(Pow2(BitsOf(f, w) + f.Off(k)), Get(b, f, w, k))
    ensures f.Off(k + 1) == f.Off(k) + f.DataBits(k)
  {
    hide Pow2, Mul, BufV, WordV, Get, BitsOf;
    WordNext(b, f, w, k);
    f.Offsets(k);
    Pow2Adds(BitsOf(f, w), f.Off(k));
    MulMul(Pow2(BitsOf(f, w)), Pow2(f.Off(k)), Get(b, f, w, k));
    MulAdds(Pow2(BitsOf(f, w)), WordV(b, f, w, k), Mul(Pow2(f.Off(k)), Get(b, f, w, k)));
  }

  /** No more bits than the buffer has. */
  lemma SeenRoom(f: Format, w: nat, k: nat)
    requires f.Ok() && w < f.numwords && k < f.wordsize
    ensures BitsOf(f, w) + f.Off(k) + f.DataBits(k) <= f.Bits()
  {
    f.Offsets(k);
    assert f.Off(k + 1) <= f.WordBits();
    BitsNext(f, w);
    MulLe(w + 1, f.numwords, f.WordBits());
  }

  method UnpackByte(mem: Memory, z: nat, zn: nat, buf: array<Byte>, f: Format, w: nat, k: nat, n: nat, i0: nat, dd0: nat, nb0: nat)
    returns (i: nat, dd: nat, nb: nat)
    requires z + zn <= |mem.cells| && buf.Length == f.Size() && f.Ok() && w < f.numwords && k < f.wordsize && n == f.DataBits(k)
    requires f.Bits() <= Index(zn, 0) && nb0 < BITS
    requires Pushed(mem.cells, z, i0, dd0, nb0, BitsOf(f, w) + f.Off(k), Seen(buf[..], f, w, k))
    modifies mem
    ensures SameOutside(old(mem.cells), mem.cells, z, zn) && nb < BITS
    ensures Pushed(mem.cells, z, i, dd, nb, BitsOf(f, w) + f.Off(k + 1), Seen(buf[..], f, w, k + 1))
  {
    hide Pow2, Mul, Pushed, Index, BitsOf, Seen, Rem;
    f.PosBounds(w, k);
    SeenNext(buf[..], f, w, k);
    SeenRoom(f, w, k);
    QuotRem(buf[f.Pos(w, k)], Pow2(n));
    var data: nat := Rem(buf[f.Pos(w, k)], Pow2(n));
    assert data == Get(buf[..], f, w, k);
    i, dd, nb := PushBits(mem, z, zn, data, n, i0, dd0, nb0, BitsOf(f, w) + f.Off(k), Seen(buf[..], f, w, k));
  }

  method UnpackWord(mem: Memory, z: nat, zn: nat, buf: array<Byte>, f: Format, w: nat, i0: nat, dd0: nat, nb0: nat)
    returns (i: nat, dd: nat, nb: nat)
    requires z + zn <= |mem.cells| && buf.Length == f.Size() && f.Ok() && w < f.numwords
    requires f.Bits() <= Index(zn, 0) && nb0 < BITS
    requires Pushed(mem.cells, z, i0, dd0, nb0, BitsOf(f, w), BufV(buf[..], f, w))
    modifies mem
    ensures SameOutside(old(mem.cells), mem.cells, z, zn) && nb < BITS
    ensures Pushed(mem.cells, z, i, dd, nb, BitsOf(f, w + 1), BufV(buf[..], f, w + 1))
  {
    hide Pow2, Mul, Pushed, Index, BitsOf, Seen, BufV;
    ghost var m0 := mem.cells;
    f.Offsets(0);
    SeenStart(buf[..], f, w);
    i, dd, nb := i0, dd0, nb0;
    var k := 0;
    while k < f.Full()
      invariant 0 <= k <= f.Full() && nb < BITS && |mem.cells| == |m0| && SameOutside(m0, mem.cells, z, zn)
      invariant Pushed(mem.cells, z, i, dd, nb, BitsOf(f, w) + f.Off(k), Seen(buf[..], f, w, k))
    {
      i, dd, nb := UnpackByte(mem, z, zn, buf, f, w, k, 8, i, dd, nb);
      k := k + 1;
    }
    if f.Partial() != 0 {
      i, dd, nb := UnpackByte(mem, z, zn, buf, f, w, k, f.Partial(), i, dd, nb);
      k := k + 1;
    }
    SeenNails(buf[..], f, w, k);
    SeenWord(buf[..], f, w);
  }

  /** The nails are not read, and count for nothing. */
  lemma {:induction false} SeenNails(b: seq<Byte>, f: Format, w: nat, k: nat)
    requires |b| == f.Size() && f.Ok() && w < f.numwords && k <= f.wordsize
    requires f.Full() + (if f.Partial() > 0 then 1 else 0) <= k
    ensures Seen(b, f, w, k) == Seen(b, f, w, f.wordsize) && f.Off(k) == f.Off(f.wordsize)
    decreases f.wordsize - k
  {
    hide Seen, Mul, BitsOf;
    if k < f.wordsize {
      SeenNext(b, f, w, k);
      assert Pow2(0) == 1;
      MulNone(Pow2(BitsOf(f, w) + f.Off(k)));
      SeenNails(b, f, w, k + 1);
    }
  }

  lemma SeenWord(b: seq<Byte>, f: Format, w: nat)
    requires |b| == f.Size() && f.Ok() && w < f.numwords
    ensures Seen(b, f, w, f.wordsize) == BufV(b, f, w + 1) && BitsOf(f, w) + f.Off(f.wordsize) == BitsOf(f, w + 1)
  {
    hide Mul, Pow2, BitsOf, BufV;
    BufNext(b, f, w);
    BitsNext(f, w);
    f.Offsets(0);
  }

  method UnpackWords(mem: Memory, z: nat, zn: nat, buf: array<Byte>, f: Format)
    requires z + zn <= |mem.cells| && buf.Length == f.Size() && f.Ok() && f.Bits() <= Index(zn, 0)
    modifies mem
    ensures SameOutside(old(mem.cells), mem.cells, z, zn)
    ensures V(mem.cells, z, zn) == BufV(buf[..], f, f.numwords)
  {
    hide Pow2, Mul, Pushed, Index, BitsOf, BufV, V;
    ghost var m0 := mem.cells;
    SixteenBits();
    PushedStart(mem.cells, z, buf[..], f);
    BitsNext(f, 0);
    var i: nat, dd: nat, nb: nat := 0, 0, 0;
    var w := 0;
    while w < f.numwords
      invariant 0 <= w <= f.numwords && nb < BITS && |mem.cells| == |m0| && SameOutside(m0, mem.cells, z, zn)
      invariant Pushed(mem.cells, z, i, dd, nb, BitsOf(f, w), BufV(buf[..], f, w))
    {
      i, dd, nb := UnpackWord(mem, z, zn, buf, f, w, i, dd, nb);
      w := w + 1;
    }
    Finish(mem, z, zn, i, dd, nb, f.Bits(), BufV(buf[..], f, f.numwords));
  }

  lemma PushedStart(m: seq<Digit>, z: nat, b: seq<Byte>, f: Format)
    requires z <= |m| && f.Ok() && |b| == f.Size()
    ensures Pushed(m, z, 0, 0, 0, BitsOf(f, 0), BufV(b, f, 0))
  {
    BitsNext(f, 0);
    ShNone(0);
    IndexIs(0, 0);
  }

  /** The last bits, and zeros above them. */
  method Finish(mem: Memory, z: nat, zn: nat, i0: nat, dd: nat, nb: nat, ghost off: nat, ghost u: int)
    requires z + zn <= |mem.cells| && nb < BITS && Pushed(mem.cells, z, i0, dd, nb, off, u) && off <= Index(zn, 0)
    modifies mem
    ensures SameOutside(old(mem.cells), mem.cells, z, zn) && V(mem.cells, z, zn) == u
  {
    hide Pow2, V, Sh, Index, BigLo, BigDn;
    ghost var m0 := mem.cells;
    var i := i0;
    LastDigit(dd, nb);
    if dd != 0 {
      PushRoom(m0, z, zn, i, dd, nb, off, u);
      BigSmall(dd);
      var r := PutDigit(mem, z, i, dd);
      i := i + 1;
      ShNone(i);
    } else {
      ShNone(i);
      PushEnd(m0, z, zn, i, dd, nb, off, u);
    }
    while i < zn
      invariant i <= zn && |mem.cells| == |m0| && SameOutside(m0, mem.cells, z, zn) && V(mem.cells, z, i) == u
    {
      BigSmall(0);
      ShNone(i);
      ShNone(i + 1);
      var r := PutDigit(mem, z, i, 0);
      i := i + 1;
    }
  }

  lemma LastDigit(dd: nat, nb: nat)
    requires dd < Pow2(nb) && nb < BITS
    ensures dd < BIGRAD && (dd != 0 ==> nb > 0)
  {
    SixteenBits();
    Pow2Monotone(nb, BITS);
  }

  lemma PushEnd(m: seq<Digit>, z: nat, zn: nat, i: nat, dd: nat, nb: nat, off: nat, u: int)
    requires Pushed(m, z, i, dd, nb, off, u) && off <= Index(zn, 0)
    ensures i <= zn
  {
    SixteenBits();
    if i > zn { MulLe(zn + 1, i, BITS); }
  }

  // ----- how many digits

  /** integer_unpack_num_bdigits_small: digits, and the bits of the top one that are padding. */
  function NumDigitsSmall(f: Format): (r: (nat, nat))
    requires f.Ok()
    ensures Index(r.0, 0) == f.Bits() + r.1 && r.1 < BITS
  {
    SixteenBits();
    CeilBits(f.Bits());
    ((f.Bits() + BITS - 1) / BITS, (f.Bits() + BITS - 1) / BITS * BITS - f.Bits())
  }

  lemma CeilBits(t: nat)
    ensures BITS > 0 && (t + BITS - 1) / BITS >= 0
    ensures 0 <= (t + BITS - 1) / BITS * BITS - t < BITS
  {
    SixteenBits();
  }

  /** integer_unpack_num_bdigits_generic, whose intermediate numbers are small: first the bytes to come from ... */
  function NumDigitsGeneric(f: Format): (r: (int, int))
    requires f.Ok()
  {
    var r1, r2 := f.numwords % 8, f.nails % 8;
    FromBytes(f.wordsize * f.numwords - f.nails * (f.numwords / 8) - f.nails / 8 * r1, r1 * r2)
  }

  /** ... then the digits for that many bytes less some bits. */
  function FromBytes(bytes: int, less: int): (r: (int, int))
    ensures Mul(r.0, BITS) == 8 * bytes - less + r.1 && 0 <= r.1 < BITS
  {
    SixteenBits();
    var digits1, r3 := 8 * (bytes / BITS), bytes % BITS;
    DivBits(bytes);
    if 8 * r3 >= less then
      var tmp := 8 * BITS - (8 * r3 - less);
      DivBits(tmp);
      Times3(8 * (bytes / BITS), 8, tmp / BITS, BITS);
      (digits1 + 8 - tmp / BITS, tmp % BITS)
    else
      var tmp := less - 8 * r3;
      DivBits(tmp);
      Times3(8 * (bytes / BITS), 0, tmp / BITS, BITS);
      (digits1 - tmp / BITS, tmp % BITS)
  }

  lemma DivBits(x: int)
    ensures BITS > 0 && x == Mul(x / BITS, BITS) + x % BITS && 0 <= x % BITS < BITS
    ensures Mul(8 * (x / BITS), BITS) == 8 * Mul(x / BITS, BITS)
  {
    SixteenBits();
  }

  lemma Times3(a: int, b: int, c: int, n: int)
    ensures Mul(a + b - c, n) == Mul(a, n) + b * n - Mul(c, n)
  {
  }

  /** The two agree, as the debug build asserts. */
  lemma NumDigitsAgree(f: Format)
    requires f.Ok()
    ensures NumDigitsGeneric(f) == NumDigitsSmall(f)
  {
    hide FromBytes, NumDigitsSmall, Mul;
    var a, b := NumDigitsGeneric(f), NumDigitsSmall(f);
    BytesToBits(f.wordsize, f.nails, f.numwords);
    IndexIs(b.0, 0);
    MulIs(a.0, BITS);
    SameQuotient(BITS, b.0, BITS - 1 - b.1, a.0, BITS - 1 - a.1);
  }

  lemma BytesToBits(ws: int, nails: nat, nw: nat)
    ensures (8 * ws - nails) * nw == 8 * (ws * nw - nails * (nw / 8) - nails / 8 * (nw % 8)) - (nw % 8) * (nails % 8)
  {
    Expand(ws, nails / 8, nails % 8, nw / 8, nw % 8);
  }

  lemma Expand(ws: int, q2: int, r2: int, q1: int, r1: int)
    ensures (8 * ws - (8 * q2 + r2)) * (8 * q1 + r1)
         == 8 * (ws * (8 * q1 + r1) - (8 * q2 + r2) * q1 - q2 * r1) - r1 * r2
  {
  }

  // ----- the sign

  /** The integer an import stands for. */
  ghost function Unpacked(v: int, t: nat, twocomp: bool, negative: bool): (x: int) {
    if !twocomp then (if negative then -v else v)
    else if negative || (t > 0 && v >= Pow2(t - 1)) then v - Pow2(t)
    else v
  }

  /** A bit of the top digit is a bit of the number. */
  lemma TopBit(m: seq<Digit>, z: nat, zn: nat, k: nat)
    requires 0 < zn && z + zn <= |m|
    ensures m[z + zn - 1] >= Pow2(k) <==> V(m, z, zn) >= Pow2(Index(zn - 1, k))
  {
    hide V, Pow2, P, Sh, Mul, Index;
    var d := m[z + zn - 1];
    VStep(m, z, zn - 1);
    VBound(m, z, zn - 1);
    ShMul(d, zn - 1);
    WeightAt(zn - 1, k);
    MulIs(P(zn - 1), Pow2(k));
    if d >= Pow2(k) { MulLe(Pow2(k), d, P(zn - 1)); } else { MulLe(d as int + 1, Pow2(k), P(zn - 1)); }
  }

  /** The padding bits of the top digit are set. */
  method PadOnes(mem: Memory, z: nat, zn: nat, nlp: nat, ghost t: nat)
    requires 0 < zn && z + zn <= |mem.cells| && 0 < nlp < BITS && Index(zn, 0) == t + nlp
    requires V(mem.cells, z, zn) < Pow2(t)
    modifies mem
    ensures SameOutside(old(mem.cells), mem.cells, z, zn)
    ensures V(mem.cells, z, zn) == V(old(mem.cells), z, zn) + P(zn) - Pow2(t)
  {
    hide V, Pow2, P, Sh, Mul, Index;
    ghost var m := mem.cells;
    var ones := BIGRAD - Pow2(BITS - nlp);
    SixteenBits();
    PadPlace(zn, nlp, t);
    TopBit(m, z, zn, BITS - nlp);
    mem.cells := mem.cells[z + zn - 1 := mem.cells[z + zn - 1] + ones];
    VStep(m, z, zn - 1);
    VStep(mem.cells, z, zn - 1);
    assert m[z..z + (zn - 1)] == mem.cells[z..z + (zn - 1)];
    VSame(m, z, mem.cells, z, zn - 1);
    ShAdds(m[z + zn - 1], ones, zn - 1);
    PadValue(zn, nlp, t);
  }

  lemma PadPlace(zn: nat, nlp: nat, t: nat)
    requires 0 < zn && 0 < nlp < BITS && Index(zn, 0) == t + nlp
    ensures Index(zn - 1, BITS - nlp) == t && 0 < Pow2(BITS - nlp) <= BIGRAD
  {
    SixteenBits();
    Pow2Monotone(BITS - nlp, BITS);
  }

  lemma PadValue(zn: nat, nlp: nat, t: nat)
    requires 0 < zn && 0 < nlp < BITS && Index(zn - 1, BITS - nlp) == t
    ensures Sh(BIGRAD - Pow2(BITS - nlp), zn - 1) == P(zn) - Pow2(t)
  {
    hide Pow2, Sh, Mul, Index;
    ShSubs(BIGRAD, Pow2(BITS - nlp), zn - 1);
    ShBase(1, zn - 1);
    ShOne(zn);
    WeightAt(zn - 1, BITS - nlp);
    ShMul(Pow2(BITS - nlp), zn - 1);
    MulIs(P(zn - 1), Pow2(BITS - nlp));
  }

  lemma TopPlace(zn: nat, nlp: nat, t: nat)
    requires nlp < BITS && Index(zn, 0) == t + nlp
    ensures zn > 0 ==> t > 0 && Index(zn - 1, BITS - nlp - 1) == t - 1
    ensures zn == 0 ==> t == 0 && nlp == 0
    ensures P(zn) >= Pow2(t) && (nlp == 0 <==> P(zn) == Pow2(t))
  {
    hide P, Pow2;
    BasePow2(zn);
    Pow2Strict(t, t + nlp);
    Pow2Strict(t + nlp, t);
    if zn > 0 { MulLe(1, zn, BITS); }
  }

  /** bary_unpack_internal, without its shortcuts.  A result of -2 stands for minus one digit above the others. */
  method UnpackInternal(mem: Memory, z: nat, zn: nat, buf: array<Byte>, f: Format, twocomp: bool, negative: bool, nlp: nat)
    returns (sign: int)
    requires z + zn <= |mem.cells| && buf.Length == f.Size() && f.Ok() && (zn, nlp) == NumDigitsSmall(f)
    modifies mem
    ensures SameOutside(old(mem.cells), mem.cells, z, zn) && (sign == 1 || sign == -1 || sign == -2)
    ensures Unpacked(BufV(buf[..], f, f.numwords), f.Bits(), twocomp, negative)
         == (if sign == 1 then V(mem.cells, z, zn) else if sign == -1 then -V(mem.cells, z, zn) else -P(zn))
    ensures sign == -2 ==> V(mem.cells, z, zn) == 0
  {
    hide V, Pow2, P, BufV, NumDigitsSmall, Index;
    ghost var m0 := mem.cells;
    UnpackWords(mem, z, zn, buf, f);
    BitsNext(f, 0);
    BufBound(buf[..], f, f.numwords);
    sign := SignOf(mem, z, zn, twocomp, negative, nlp, f.Bits());
  }

  method SignOf(mem: Memory, z: nat, zn: nat, twocomp: bool, negative: bool, nlp: nat, ghost t: nat) returns (sign: int)
    requires z + zn <= |mem.cells| && nlp < BITS && Index(zn, 0) == t + nlp && 0 <= V(mem.cells, z, zn) < Pow2(t)
    modifies mem
    ensures SameOutside(old(mem.cells), mem.cells, z, zn) && (sign == 1 || sign == -1 || sign == -2)
    ensures Unpacked(V(old(mem.cells), z, zn), t, twocomp, negative)
         == (if sign == 1 then V(mem.cells, z, zn) else if sign == -1 then -V(mem.cells, z, zn) else -P(zn))
    ensures sign == -2 ==> V(mem.cells, z, zn) == 0
  {
    hide V, Pow2, P, Index, BigLo;
    ghost var m0 := mem.cells;
    SixteenBits();
    TopPlace(zn, nlp, t);
    if !twocomp {
      sign := if negative then -1 else 1;
      return;
    }
    if zn > 0 { TopBit(m0, z, zn, BITS - nlp - 1); } else { VEmpty(m0, z); }
    if nlp != 0 {
      if negative || mem.cells[z + zn - 1] >= Pow2(BITS - nlp - 1) {
        PadOnes(mem, z, zn, nlp, t);
        sign := -1;
      } else {
        sign := 1;
      }
    } else if negative {
      var zero := ZeroP(mem, z, zn);
      sign := if zero then -2 else -1;
    } else {
      sign := if zn != 0 && mem.cells[z + zn - 1] >= Pow2(BITS - 1) then -1 else 1;
    }
    if sign == -1 && zn != 0 {
      var _ := TwosComp(mem, z, zn);
    }
  }

  /** rb_integer_unpack up to the choice between a fixnum and a bignum. */
  method Unpack(mem: Memory, buf: array<Byte>, f: Format, twocomp: bool, negative: bool) returns (z: nat, zn: nat, minus: bool)
    requires buf.Length == f.Size() && f.Ok()
    modifies mem
    ensures |old(mem.cells)| <= z && z + zn <= |mem.cells| && mem.cells[..|old(mem.cells)|] == old(mem.cells)
    ensures (if minus then -V(mem.cells, z, zn) else V(mem.cells, z, zn))
         == Unpacked(BufV(buf[..], f, f.numwords), f.Bits(), twocomp, negative)
  {
    hide V, P, Pow2, BufV, NumDigitsSmall, Unpacked;
    ghost var m0 := mem.cells;
    var nlp;
    zn, nlp := NumDigitsSmall(f).0, NumDigitsSmall(f).1;
    z := Alloc(mem, zn + 1);
    ghost var m1 := mem.cells;
    var sign := UnpackInternal(mem, z, zn, buf, f, twocomp, negative, nlp);
    ghost var m2 := mem.cells;
    minus := sign < 0;
    if sign == -2 {
      mem.cells := mem.cells[z + zn := 1];
      CarryDigit(m2, mem.cells, z, zn);
      zn := zn + 1;
    }
    forall i | 0 <= i < |m0| ensures mem.cells[i] == m0[i] { assert m2[i] == m1[i]; assert m1[i] == m0[i]; }
  }

  lemma CarryDigit(a: seq<Digit>, b: seq<Digit>, z: nat, zn: nat)
    requires z + zn < |a| && b == a[z + zn := 1] && V(a, z, zn) == 0
    ensures V(b, z, zn + 1) == P(zn)
  {
    hide V, P, Sh;
    assert a[z..z + zn] == b[z..z + zn];
    VSame(a, z, b, z, zn);
    VStep(b, z, zn);
    ShOne(zn);
  }

  // ----- there and back

  /** Without two's complement, importing with the sign gives the number back exactly when the code reports no loss. */
  lemma PlainBack(x: int, t: nat)
    ensures Unpacked(LowBits(x, t, false), t, false, x < 0) == x <==> -1 <= Code(x, t, false) <= 1
  {
    hide Pow2, Rem, Quot;
    var a, p := if x < 0 then -x else x, Pow2(t);
    QuotRem(a, p);
    if a < p { QuotUnique(a, p, 0, a); }
  }

  /** In two's complement a negative number comes back, told that it is one, exactly when the code reports no loss. */
  lemma NegativeBack(x: int, t: nat)
    requires x < 0
    ensures Unpacked(LowBits(x, t, true), t, true, true) == x <==> Code(x, t, true) == -1
  {
    hide Pow2, Rem, Quot;
    var p := Pow2(t);
    QuotRem(x, p);
    if -x < p { QuotUnique(x, p, -1, x + p); }
    if -x == p { QuotUnique(x, p, -1, 0); }
  }

  /** Sign extension gives back exactly the numbers that fit with their sign bit. */
  lemma ExtendBack(x: int, t: nat)
    requires t > 0
    ensures Unpacked(LowBits(x, t, true), t, true, false) == x <==> -x <= Pow2(t - 1) && x < Pow2(t - 1)
  {
    hide Rem, Quot, Pow2;
    var p := Pow2(t);
    Halves(t);
    QuotRem(x, p);
    if 0 <= x < Pow2(t - 1) { QuotUnique(x, p, 0, x); }
    if x < 0 && -x <= Pow2(t - 1) { QuotUnique(x, p, -1, x + p); }
  }

  lemma Halves(t: nat)
    requires t > 0
    ensures Pow2(t) == 2 * Pow2(t - 1)
  {
  }

  /** Packing a number and importing it back, in any word size, order and number of nails. */
  method PackUnpack(mem: Memory, ds: nat, n: nat, negative: bool, buf: array<Byte>, f: Format, twocomp: bool)
    returns (sign: int, z: nat, zn: nat, minus: bool)
    requires ds + n <= |mem.cells| && f.Ok() && buf.Length == f.Size()
    modifies mem, buf
    ensures |old(mem.cells)| <= z && z + zn <= |mem.cells| && mem.cells[..|old(mem.cells)|] == old(mem.cells)
    ensures sign != 2 && sign != -2 <==>
              (if minus then -V(mem.cells, z, zn) else V(mem.cells, z, zn))
              == if negative then -V(old(mem.cells), ds, n) else V(old(mem.cells), ds, n)
  {
    hide V, Pow2, BufV, Code, LowBits, Unpacked, Clean;
    ghost var v := V(mem.cells, ds, n);
    ghost var x := if negative then -v else v;
    sign := Pack(mem, ds, n, negative, buf, f, twocomp);
    CodeSign(x, f.Bits(), twocomp);
    z, zn, minus := Unpack(mem, buf, f, twocomp && sign < 0, sign < 0);
    if twocomp && sign < 0 {
      NegativeBack(x, f.Bits());
    } else {
      SameWays(x, f.Bits(), twocomp);
      PlainBack(x, f.Bits());
    }
  }

  lemma CodeSign(x: int, t: nat, twocomp: bool)
    ensures -2 <= Code(x, t, twocomp) <= 2 && (Code(x, t, twocomp) < 0 <==> x < 0)
  {
  }

  lemma SameWays(x: int, t: nat, twocomp: bool)
    requires !twocomp || x >= 0
    ensures LowBits(x, t, twocomp) == LowBits(x, t, false) && Code(x, t, twocomp) == Code(x, t, false)
  {
  }
}
