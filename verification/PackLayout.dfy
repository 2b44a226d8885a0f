/** Which bytes a buffer of words is made of, said of the buffer itself: words cut off it, put in order, and read. */
module PackLayout {
  import opened Digits
  import opened Shifts
  import opened TwosComplement
  import opened Packing
  import opened PackCopy

  function Reversed<T>(s: seq<T>): (r: seq<T>)
    ensures |r| == |s|
  {
    if s == [] then [] else Reversed(s[1..]) + [s[0]]
  }

  lemma {:induction false} ReversedAt<T>(s: seq<T>, i: nat)
    requires i < |s|
    ensures Reversed(s)[i] == s[|s| - 1 - i]
  {
    if i < |s| - 1 { ReversedAt(s[1..], i); }
  }

  /** The words of a buffer, in the order in which they lie there. */
  function WordsOf(b: seq<Byte>, wordsize: nat, n: nat): (r: seq<seq<Byte>>)
    requires |b| == n * wordsize
    ensures |r| == n
  {
    if n == 0 then []
    else
      FirstWordFits(wordsize, n);
      [b[..wordsize]] + WordsOf(b[wordsize..], wordsize, n - 1)
  }

  lemma FirstWordFits(wordsize: nat, n: nat)
    requires n > 0
    ensures n * wordsize == (n - 1) * wordsize + wordsize && 0 <= (n - 1) * wordsize
  {
    MulLe(0, n - 1, wordsize);
  }

  function EachReversed(words: seq<seq<Byte>>): (r: seq<seq<Byte>>)
    ensures |r| == |words|
  {
    seq(|words|, i requires 0 <= i < |words| => Reversed(words[i]))
  }

  /** The words from the least significant one, each from its least significant byte. */
  function Laid(b: seq<Byte>, f: Format): (r: seq<seq<Byte>>)
    requires |b| == f.Size()
    ensures |r| == f.numwords
  {
    var words := WordsOf(b, f.wordsize, f.numwords);
    var ordered := if f.mswordFirst then Reversed(words) else words;
    if f.msbyteFirst then EachReversed(ordered) else ordered
  }

  /** The number of a word list: of each word its `bits` low bits. */
  ghost function WordsV(words: seq<seq<Byte>>, bits: nat): (v: int) {
    if words == [] then 0
    else
      var n := |words| - 1;
      MulLe(0, n, bits);
      WordsV(words[..n], bits) + Mul(Pow2(bits * n), Rem(ByteV(words[n], |words[n]|), Pow2(bits)))
  }

  // ----- where the bytes are

  lemma {:induction false} WordsOfAt(b: seq<Byte>, wordsize: nat, n: nat, j: nat, k: nat)
    requires |b| == n * wordsize && j < n && k < wordsize
    ensures |WordsOf(b, wordsize, n)[j]| == wordsize && 0 <= wordsize * j + k < |b|
    ensures WordsOf(b, wordsize, n)[j][k] == b[wordsize * j + k]
  {
    hide WordsOf;
    FirstWordFits(wordsize, n);
    UnfoldWords(b, wordsize, n);
    if j > 0 {
      WordsOfAt(b[wordsize..], wordsize, n - 1, j - 1, k);
      NextWordAt(wordsize, j);
      assert b[wordsize..][wordsize * (j - 1) + k] == b[wordsize * j + k];
    } else {
      NoWordBefore(wordsize);
    }
  }

  lemma UnfoldWords(b: seq<Byte>, wordsize: nat, n: nat)
    requires |b| == n * wordsize && n > 0
    ensures wordsize <= |b| && |b[wordsize..]| == (n - 1) * wordsize
    ensures WordsOf(b, wordsize, n) == [b[..wordsize]] + WordsOf(b[wordsize..], wordsize, n - 1)
  {
    FirstWordFits(wordsize, n);
  }

  lemma NextWordAt(wordsize: nat, j: nat)
    requires j > 0
    ensures wordsize * j == wordsize * (j - 1) + wordsize
  {
  }

  lemma NoWordBefore(wordsize: nat)
    ensures wordsize * 0 == 0
  {
  }

  lemma LaidAt(b: seq<Byte>, f: Format, w: nat, k: nat)
    requires |b| == f.Size() && w < f.numwords && k < f.wordsize
    ensures |Laid(b, f)[w]| == f.wordsize && Laid(b, f)[w][k] == Raw(b, f, w, k)
  {
    hide Reversed, WordsOf;
    var words := WordsOf(b, f.wordsize, f.numwords);
    var j, i := if f.mswordFirst then f.numwords - 1 - w else w, if f.msbyteFirst then f.wordsize - 1 - k else k;
    WordsOfAt(b, f.wordsize, f.numwords, j, i);
    if f.mswordFirst { ReversedAt(words, w); }
    if f.msbyteFirst { ReversedAt(words[j], k); }
    f.PosBounds(w, k);
  }

  /** A word's data is the low bits of the number its bytes spell. */
  lemma {:induction false} WordSpelled(b: seq<Byte>, f: Format, w: nat, bytes: seq<Byte>, n: nat)
    requires |b| == f.Size() && f.Ok() && w < f.numwords && n <= f.wordsize == |bytes|
    requires forall k: nat :: k < f.wordsize ==> bytes[k] == Raw(b, f, w, k)
    ensures WordV(b, f, w, n) == Rem(ByteV(bytes, n), Pow2(f.Off(n)))
  {
    hide Mul, Pow2, ByteV, WordV, Rem, Raw, Quot;
    if n == 0 {
      NothingSpelled(b, f, w, bytes);
    } else {
      WordSpelled(b, f, w, bytes, n - 1);
      f.Offsets(n - 1);
      WordNext(b, f, w, n - 1);
      ByteNext(bytes, n - 1);
      ByteBound(bytes, n - 1);
      LowOfNext(ByteV(bytes, n - 1), bytes[n - 1], 8 * (n - 1), f.Off(n - 1), f.DataBits(n - 1));
    }
  }

  lemma NothingSpelled(b: seq<Byte>, f: Format, w: nat, bytes: seq<Byte>)
    requires |b| == f.Size() && f.Ok() && w < f.numwords
    ensures WordV(b, f, w, 0) == Rem(ByteV(bytes, 0), Pow2(f.Off(0)))
  {
    QuotUnique(0, 1, 0, 0);
  }

  /** One more byte above a number of which the o low bits count. */
  lemma LowOfNext(v: int, d: int, top: nat, o: nat, m: nat)
    requires 0 <= v < Pow2(top) && o <= top && (o == top || m == 0)
    ensures Rem(v + Mul(Pow2(top), d), Pow2(o + m)) == Rem(v, Pow2(o)) + Mul(Pow2(o), Rem(d, Pow2(m)))
  {
    hide Mul, Pow2, Rem, Quot;
    var p, q := Pow2(o), Pow2(m);
    QuotRem(d, q);
    QuotRem(v, p);
    Pow2Adds(o, m);
    if o == top {
      QuotUnique(v, p, 0, v);
      NextFits(v, Rem(d, q), o, m);
      MulAdds(p, Quot(d, q) * q, Rem(d, q));
      MulIs(p, Quot(d, q) * q); MulIs(p, q);
      MulThree(p, q, Quot(d, q));
      QuotUnique(v + Mul(p, d), Pow2(o + m), Quot(d, q), v + Mul(p, Rem(d, q)));
    } else {
      Pow2Zero();
      QuotUnique(d, 1, d, 0);
      MulNone(p);
      Pow2Adds(o, top - o);
      MulMul(p, Pow2(top - o), d);
      MulIs(p, Mul(Pow2(top - o), d));
      QuotUnique(v + Mul(Pow2(top), d), p, Quot(v, p) + Mul(Pow2(top - o), d), Rem(v, p));
    }
  }

  lemma MulThree(p: int, q: int, r: int)
    ensures p * (r * q) == r * (p * q)
  {
    MulAssoc(p, r, q);
    MulAssoc(r, p, q);
  }

  /** A buffer is the number its words spell, put in order, whatever the word size, the nails and the two orders. */
  lemma {:induction false} BufferSpelled(b: seq<Byte>, f: Format, w: nat)
    requires |b| == f.Size() && f.Ok() && w <= f.numwords
    ensures BufV(b, f, w) == WordsV(Laid(b, f)[..w], f.WordBits())
  {
    hide Mul, Pow2, ByteV, WordV, Rem, Raw, Laid, BufV;
    if w == 0 {
      NoWords(b, f);
    } else {
      var words := Laid(b, f);
      BufferSpelled(b, f, w - 1);
      BufNext(b, f, w - 1);
      assert words[..w][..w - 1] == words[..w - 1] && words[..w][w - 1] == words[w - 1];
      LaidAt(b, f, w - 1, 0);
      var bytes := words[w - 1];
      forall k: nat | k < f.wordsize ensures bytes[k] == Raw(b, f, w - 1, k) { LaidAt(b, f, w - 1, k); }
      WordSpelled(b, f, w - 1, words[w - 1], f.wordsize);
      f.Offsets(0);
    }
  }

  lemma NoWords(b: seq<Byte>, f: Format)
    requires |b| == f.Size() && f.Ok()
    ensures BufV(b, f, 0) == WordsV(Laid(b, f)[..0], f.WordBits())
  {
  }

  // ----- without nails

  function Flat(words: seq<seq<Byte>>): (r: seq<Byte>) {
    if words == [] then [] else Flat(words[..|words| - 1]) + words[|words| - 1]
  }

  ghost predicate Even(words: seq<seq<Byte>>, wordsize: nat) { forall i :: 0 <= i < |words| ==> |words[i]| == wordsize }

  lemma {:induction false} FlatV(words: seq<seq<Byte>>, wordsize: nat)
    requires Even(words, wordsize)
    ensures |Flat(words)| == wordsize * |words| && WordsV(words, 8 * wordsize) == ByteV(Flat(words), |Flat(words)|)
  {
    hide Mul, Pow2, ByteV, Rem, Flat, WordsV;
    if words == [] {
      NoneFlat(wordsize);
    } else {
      var n := |words| - 1;
      var low, last := Flat(words[..n]), words[n];
      FlatV(words[..n], wordsize);
      UnfoldFlat(words, 8 * wordsize);
      ByteJoin(low, last, wordsize);
      ByteBound(last, wordsize);
      QuotUnique(ByteV(last, wordsize), Pow2(8 * wordsize), 0, ByteV(last, wordsize));
      EightTimes(wordsize, n, |low|);
    }
  }

  lemma NoneFlat(wordsize: nat)
    ensures Flat([]) == [] && wordsize * 0 == 0 && WordsV([], 8 * wordsize) == 0 && ByteV([], 0) == 0
  {
  }

  lemma UnfoldFlat(words: seq<seq<Byte>>, bits: nat)
    requires words != []
    ensures var n := |words| - 1;
            && Flat(words) == Flat(words[..n]) + words[n] && bits * n >= 0
            && WordsV(words, bits) == WordsV(words[..n], bits) + Mul(Pow2(bits * n), Rem(ByteV(words[n], |words[n]|), Pow2(bits)))
  {
    hide Mul, Pow2, ByteV, Rem;
    MulLe(0, |words| - 1, bits);
  }

  lemma EightTimes(wordsize: nat, n: nat, m: nat)
    requires m == wordsize * n
    ensures 8 * m == 8 * wordsize * n && wordsize * (n + 1) == m + wordsize
  {
    MulAssoc(8, wordsize, n);
  }

  lemma {:induction false} FlatFirst(w: seq<Byte>, words: seq<seq<Byte>>)
    ensures Flat([w] + words) == w + Flat(words)
  {
    hide Flat, WordsV;
    var all, n := [w] + words, |words| - 1;
    NoneFlat(0);
    UnfoldFlat(all, 0);
    if words == [] {
      assert all[..0] == [] && [] + w == w + [];
    } else {
      assert all[..|all| - 1] == [w] + words[..n];
      FlatFirst(w, words[..n]);
      UnfoldFlat(words, 0);
    }
  }

  lemma {:induction false} FlatWords(b: seq<Byte>, wordsize: nat, n: nat)
    requires |b| == n * wordsize
    ensures Flat(WordsOf(b, wordsize, n)) == b && Even(WordsOf(b, wordsize, n), wordsize)
  {
    if n > 0 {
      FirstWordFits(wordsize, n);
      FlatWords(b[wordsize..], wordsize, n - 1);
      FlatFirst(b[..wordsize], WordsOf(b[wordsize..], wordsize, n - 1));
    }
  }

  lemma {:induction false} ReversedConcat<T>(s: seq<T>, t: seq<T>)
    ensures Reversed(s + t) == Reversed(t) + Reversed(s)
  {
    if s == [] {
      assert s + t == t && Reversed(t) + [] == Reversed(t);
    } else {
      assert (s + t)[1..] == s[1..] + t;
      ReversedConcat(s[1..], t);
    }
  }

  lemma {:induction false} FlatReversed(words: seq<seq<Byte>>)
    ensures Flat(EachReversed(Reversed(words))) == Reversed(Flat(words))
  {
    if words == [] {
      assert EachReversed(Reversed(words)) == [];
    } else {
      var w, rest := words[0], words[1..];
      FlatReversed(rest);
      assert words == [w] + rest;
      FlatFirst(w, rest);
      ReversedConcat(w, Flat(rest));
      var all := EachReversed(Reversed(words));
      assert all == EachReversed(Reversed(rest)) + [Reversed(w)];
      assert all[..|all| - 1] == EachReversed(Reversed(rest));
    }
  }

  lemma {:induction false} EvenReversed(words: seq<seq<Byte>>, wordsize: nat)
    requires Even(words, wordsize)
    ensures Even(Reversed(words), wordsize) && Even(EachReversed(words), wordsize)
  {
    forall i | 0 <= i < |words| ensures |Reversed(words)[i]| == wordsize { ReversedAt(words, i); }
  }

  /** Without nails a buffer is one number: of its bytes as they lie, of its bytes in reverse, of its words in reverse
      order, or of its words each reversed. */
  lemma PlainBuffer(b: seq<Byte>, f: Format)
    requires |b| == f.Size() && f.Ok() && f.nails == 0
    ensures !f.mswordFirst && !f.msbyteFirst ==> BufV(b, f, f.numwords) == ByteV(b, |b|)
    ensures f.mswordFirst && f.msbyteFirst ==> BufV(b, f, f.numwords) == ByteV(Reversed(b), |b|)
    ensures f.mswordFirst && !f.msbyteFirst ==>
              var bytes := Flat(Reversed(WordsOf(b, f.wordsize, f.numwords)));
              |bytes| == |b| && BufV(b, f, f.numwords) == ByteV(bytes, |b|)
    ensures !f.mswordFirst && f.msbyteFirst ==>
              var bytes := Flat(EachReversed(WordsOf(b, f.wordsize, f.numwords)));
              |bytes| == |b| && BufV(b, f, f.numwords) == ByteV(bytes, |b|)
  {
    hide BufV, ByteV, WordsV, WordsOf, Flat, Reversed, EachReversed;
    var words := WordsOf(b, f.wordsize, f.numwords);
    FlatWords(b, f.wordsize, f.numwords);
    EvenReversed(words, f.wordsize);
    EvenReversed(Reversed(words), f.wordsize);
    FlatReversed(words);
    BufferSpelled(b, f, f.numwords);
    assert Laid(b, f)[..f.numwords] == Laid(b, f);
    FlatV(Laid(b, f), f.wordsize);
  }
}
