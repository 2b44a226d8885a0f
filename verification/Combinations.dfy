/** Array#combination and Array#permutation: the index sequences that are generated, in order. */
module Combinations {
  import opened Shifts

  type Indices = seq<int>

  /** Each of ss after pre. */
  function Prepend(pre: Indices, ss: seq<Indices>): (r: seq<Indices>)
    ensures |r| == |ss| && forall i :: 0 <= i < |ss| ==> r[i] == pre + ss[i]
  {
    seq(|ss|, i requires 0 <= i < |ss| => pre + ss[i])
  }

  lemma PrependTwice(a: Indices, b: Indices, ss: seq<Indices>)
    ensures Prepend(a, Prepend(b, ss)) == Prepend(a + b, ss)
  {
    assert forall i :: 0 <= i < |ss| ==> a + (b + ss[i]) == a + b + ss[i];
  }

  lemma PrependConcat(pre: Indices, s: seq<Indices>, t: seq<Indices>)
    ensures Prepend(pre, s + t) == Prepend(pre, s) + Prepend(pre, t)
  {
  }

  // ----- combinations

  /** All choices of k indices from lo up to len. */
  function Combos(lo: int, len: int, k: nat): (r: seq<Indices>)
    decreases len - lo, k
  {
    if k == 0 then [[]]
    else if lo >= len then []
    else Prepend([lo], Combos(lo + 1, len, k - 1)) + Combos(lo + 1, len, k)
  }

  /** Each index above the one before, from lo up, all below len. */
  predicate Rising(s: Indices, lo: int, len: int) {
    s == [] || (lo <= s[0] < len && Rising(s[1..], s[0] + 1, len))
  }

  /** The order in which they come: the first difference decides. */
  predicate Before(s: Indices, t: Indices) {
    s != [] && t != [] && (s[0] < t[0] || (s[0] == t[0] && Before(s[1..], t[1..])))
  }

  /** The first difference: equal up to some place, and smaller there. */
  lemma {:induction false} BeforeIs(s: Indices, t: Indices)
    ensures Before(s, t) <==> exists k :: 0 <= k < |s| && k < |t| && s[k] < t[k] && s[..k] == t[..k]
  {
    if s != [] && t != [] && s[0] == t[0] {
      BeforeIs(s[1..], t[1..]);
      if k :| 0 <= k < |s[1..]| && k < |t[1..]| && s[1..][k] < t[1..][k] && s[1..][..k] == t[1..][..k] {
        assert s[..k + 1] == [s[0]] + s[1..][..k] && t[..k + 1] == [t[0]] + t[1..][..k];
        assert s[k + 1] < t[k + 1];
      }
      if k :| 0 <= k < |s| && k < |t| && s[k] < t[k] && s[..k] == t[..k] {
        assert s[1..][..k - 1] == s[..k][1..] && t[1..][..k - 1] == t[..k][1..];
        assert s[1..][k - 1] < t[1..][k - 1];
      }
    } else if s != [] && t != [] {
      assert s[..0] == t[..0];
      if k :| 0 <= k < |s| && k < |t| && s[k] < t[k] && s[..k] == t[..k] {
        assert k > 0 ==> s[..k][0] == t[..k][0];
      }
    }
  }

  /** What comes in order comes once. */
  lemma OrderedOnce(ss: seq<Indices>, i: nat, j: nat)
    requires Ordered(ss) && i < j < |ss|
    ensures ss[i] != ss[j]
  {
    BeforeIs(ss[i], ss[j]);
  }

  /** Rising means within bounds, and each smaller than all behind it. */
  lemma {:induction false} RisingIs(s: Indices, lo: int, len: int)
    ensures Rising(s, lo, len) <==>
            (forall i :: 0 <= i < |s| ==> lo <= s[i] < len) && (forall i, j :: 0 <= i < j < |s| ==> s[i] < s[j])
    decreases |s|
  {
    if s != [] {
      var t := s[1..];
      RisingIs(t, s[0] + 1, len);
      assert forall i :: 0 < i < |s| ==> s[i] == t[i - 1];
      assert forall i :: 0 <= i < |t| ==> t[i] == s[i + 1];
    }
  }

  ghost predicate Ordered(ss: seq<Indices>) { forall i, j :: 0 <= i < j < |ss| ==> Before(ss[i], ss[j]) }

  /** Every rising sequence is there, and nothing else. */
  lemma {:induction false} CombosAll(lo: int, len: int, k: nat, s: Indices)
    ensures s in Combos(lo, len, k) <==> |s| == k && Rising(s, lo, len)
    decreases len - lo, k
  {
    hide Combos, Prepend, Rising;
    if k > 0 && lo < len {
      CombosAll(lo + 1, len, k, s);
      RisingFrom(s, lo, len);
      UnfoldCombos(lo, len, k);
      InPrepend(lo, Combos(lo + 1, len, k - 1), s);
      if s != [] && s[0] == lo { CombosAll(lo + 1, len, k - 1, s[1..]); }
    } else {
      CombosEnd(lo, len, k, s);
    }
  }

  lemma CombosEnd(lo: int, len: int, k: nat, s: Indices)
    requires k == 0 || lo >= len
    ensures s in Combos(lo, len, k) <==> |s| == k && Rising(s, lo, len)
  {
  }

  lemma RisingFrom(s: Indices, lo: int, len: int)
    requires lo < len
    ensures s != [] && s[0] == lo ==> (Rising(s, lo, len) <==> Rising(s[1..], lo + 1, len)) && !Rising(s, lo + 1, len)
    ensures s != [] && s[0] != lo ==> (Rising(s, lo, len) <==> Rising(s, lo + 1, len))
  {
  }

  lemma InPrepend(x: int, ss: seq<Indices>, s: Indices)
    ensures s in Prepend([x], ss) <==> s != [] && s[0] == x && s[1..] in ss
  {
    if s in Prepend([x], ss) {
      var i :| 0 <= i < |ss| && Prepend([x], ss)[i] == s;
      assert ss[i] == ([x] + ss[i])[1..];
    }
    if s != [] && s[0] == x && s[1..] in ss {
      var i :| 0 <= i < |ss| && ss[i] == s[1..];
      assert s == [x] + s[1..];
      assert Prepend([x], ss)[i] == s;
    }
  }

  /** They come in order, so none comes twice. */
  lemma {:induction false} CombosOrdered(lo: int, len: int, k: nat)
    ensures Ordered(Combos(lo, len, k))
    decreases len - lo, k
  {
    if k > 0 && lo < len {
      CombosOrdered(lo + 1, len, k - 1);
      CombosOrdered(lo + 1, len, k);
      var a, b := Combos(lo + 1, len, k - 1), Combos(lo + 1, len, k);
      PrependOrdered(lo, a);
      forall i, j | 0 <= i < |a| && 0 <= j < |b| ensures Before(Prepend([lo], a)[i], b[j]) {
        assert b[j] in b;
        CombosAll(lo + 1, len, k, b[j]);
        assert lo + 1 <= b[j][0];
      }
      OrderedConcat(Prepend([lo], a), b);
    }
  }

  lemma PrependOrdered(x: int, ss: seq<Indices>)
    requires Ordered(ss)
    ensures Ordered(Prepend([x], ss))
  {
    var r := Prepend([x], ss);
    forall i, j | 0 <= i < j < |r| ensures Before(r[i], r[j]) {
      assert r[i][1..] == ss[i] && r[j][1..] == ss[j];
    }
  }

  lemma OrderedConcat(a: seq<Indices>, b: seq<Indices>)
    requires Ordered(a) && Ordered(b) && forall i, j :: 0 <= i < |a| && 0 <= j < |b| ==> Before(a[i], b[j])
    ensures Ordered(a + b)
  {
    forall i, j | 0 <= i < j < |a + b| ensures Before((a + b)[i], (a + b)[j]) {
      if i < |a| && j >= |a| { assert Before(a[i], b[j - |a|]); }
    }
  }

  /** Choices of k out of n. */
  function Choose(n: nat, k: nat): (r: nat) {
    if k == 0 then 1 else if n == 0 then 0 else Choose(n - 1, k - 1) + Choose(n - 1, k)
  }

  lemma {:induction false} CombosCount(lo: int, len: int, k: nat)
    requires lo <= len
    ensures |Combos(lo, len, k)| == Choose(len - lo, k)
    decreases len - lo, k
  {
    if k > 0 && lo < len {
      CombosCount(lo + 1, len, k - 1);
      CombosCount(lo + 1, len, k);
    }
  }

  // ----- combinate0

  /** The choices that come after those that begin with p. */
  ghost function After(p: Indices, len: int, n: nat): (r: seq<Indices>)
    requires |p| <= n
  {
    if p == [] then []
    else
      var q, x := p[..|p| - 1], p[|p| - 1];
      Prepend(q, Combos(x + 1, len, n - |q|)) + After(q, len, n)
  }

  /** v, v + 1, ... */
  function Run(v: int, m: nat): (r: Indices)
    ensures |r| == m
  {
    seq(m, i => v + i)
  }

  /** The first choice that begins with p and goes on from v. */
  lemma {:induction false} FirstOf(p: Indices, v: int, len: int, n: nat)
    requires |p| <= n && v + (n - |p|) <= len
    ensures Prepend(p, Combos(v, len, n - |p|)) + After(p, len, n) == [p + Run(v, n - |p|)] + After(p + Run(v, n - |p|), len, n)
    decreases n - |p|
  {
    hide Combos, After;
    if |p| == n {
      FirstDone(p, v, len, n);
    } else {
      FirstStep(p, v, len, n);
      FirstOf(p + [v], v + 1, len, n);
      assert p + [v] + Run(v + 1, n - |p| - 1) == p + Run(v, n - |p|);
    }
  }

  lemma FirstDone(p: Indices, v: int, len: int, n: nat)
    requires |p| == n
    ensures Prepend(p, Combos(v, len, 0)) + After(p, len, n) == [p + Run(v, 0)] + After(p + Run(v, 0), len, n)
  {
    assert p + [] == p && p + Run(v, 0) == p;
  }

  lemma FirstStep(p: Indices, v: int, len: int, n: nat)
    requires |p| < n && v < len
    ensures Prepend(p, Combos(v, len, n - |p|)) + After(p, len, n)
         == Prepend(p + [v], Combos(v + 1, len, n - |p| - 1)) + After(p + [v], len, n)
  {
    hide Combos, After;
    var q, m := p + [v], n - |p|;
    var a, b := Combos(v + 1, len, m - 1), Combos(v + 1, len, m);
    UnfoldCombos(v, len, m);
    UnfoldAfter(p, v, len, n);
    PrependConcat(p, Prepend([v], a), b);
    PrependTwice(p, [v], a);
    assert Prepend(q, a) + Prepend(p, b) + After(p, len, n) == Prepend(q, a) + (Prepend(p, b) + After(p, len, n));
  }

  lemma UnfoldCombos(v: int, len: int, k: nat)
    requires 0 < k && v < len
    ensures Combos(v, len, k) == Prepend([v], Combos(v + 1, len, k - 1)) + Combos(v + 1, len, k)
  {
    hide Prepend;
  }

  lemma UnfoldAfter(p: Indices, v: int, len: int, n: nat)
    requires |p| < n
    ensures After(p + [v], len, n) == Prepend(p, Combos(v + 1, len, n - |p|)) + After(p, len, n)
  {
    hide Prepend, Combos;
    var q := p + [v];
    assert q[..|q| - 1] == p && q[|q| - 1] == v;
  }

  lemma {:induction false} NoneLeft(v: int, len: int, m: nat)
    requires v + m > len && m > 0
    ensures Combos(v, len, m) == []
    decreases len - v
  {
    if v < len {
      if m > 1 { NoneLeft(v + 1, len, m - 1); }
      NoneLeft(v + 1, len, m);
    }
  }

  /** Every index leaves room for those after it. */
  ghost predicate Roomy(p: Indices, len: int, n: nat) { forall i :: 0 <= i < |p| ==> p[i] + n <= len + i }

  /** for (lev++; lev < n; lev++) stack[lev+1] = stack[lev]+1 */
  method FillUp(stack: array<int>, n: nat, lev0: nat, ghost p: Indices, ghost v: int)
    requires stack.Length == n + 1 && lev0 == |p| < n && stack[1..lev0 + 1] == p && stack[lev0 + 1] == v
    modifies stack
    ensures stack[1..n + 1] == p + Run(v, n - |p|)
  {
    var lev := lev0 + 1;
    assert stack[1..lev + 1] == p + Run(v, 1);
    while lev < n
      invariant lev0 < lev <= n && stack[1..lev + 1] == p + Run(v, lev - lev0)
    {
      assert stack[lev] == stack[1..lev + 1][lev - 1] == v + (lev - lev0 - 1);
      ghost var before := stack[1..lev + 1];
      stack[lev + 1] := stack[lev] + 1;
      assert stack[1..lev + 2] == before + [v + (lev - lev0)];
      assert Run(v, lev + 1 - lev0) == Run(v, lev - lev0) + [v + (lev - lev0)];
      lev := lev + 1;
    }
  }

  /** The do loop: the last index that can still grow, or -1 when none can. */
  method NextLevel(stack: array<int>, len: nat, n: nat, ghost c: Indices) returns (r: int)
    requires stack.Length == n + 1 && |c| == n > 0 && stack[1..n + 1] == c && Roomy(c, len, n)
    modifies stack
    ensures r < 0 ==> After(c, len, n) == []
    ensures r >= 0 ==>
      && r < n && stack[1..r + 1] == c[..r] && stack[r + 1] == c[r] + 1 && c[r] + 1 + n <= len + r
      && After(c, len, n) == Prepend(c[..r], Combos(c[r] + 1, len, n - r)) + After(c[..r], len, n)
  {
    hide Combos;
    var lev := n;
    assert c[..n] == c;
    while true
      invariant 0 <= lev <= n && stack[1..lev + 1] == c[..lev] && After(c, len, n) == After(c[..lev], len, n)
      decreases lev
    {
      if lev == 0 { return -1; }
      ghost var q := c[..lev];
      assert q[..lev - 1] == c[..lev - 1] && q[lev - 1] == c[lev - 1];
      assert stack[lev] == stack[1..lev + 1][lev - 1] == c[lev - 1];
      ghost var before := stack[1..lev + 1];
      stack[lev] := stack[lev] + 1;
      assert stack[1..lev] == before[..lev - 1];
      lev := lev - 1;
      if stack[lev + 1] + n != len + lev + 1 { return lev; }
      NoneLeft(c[lev] + 1, len, n - lev);
    }
  }

  /** What was yielded, what begins with p and goes on from v, and what comes after p, is all there is. */
  ghost predicate Left(yielded: seq<Indices>, p: Indices, v: int, len: int, n: nat)
    requires |p| <= n
  {
    yielded + Prepend(p, Combos(v, len, n - |p|)) + After(p, len, n) == Combos(0, len, n)
  }

  lemma LeftStart(len: int, n: nat)
    ensures Left([], [], 0, len, n) && Roomy([], len, n)
  {
    assert Prepend([], Combos(0, len, n)) == Combos(0, len, n) by { assert forall s: Indices :: [] + s == s; }
  }

  /** The first of what is left is yielded. */
  lemma LeftFirst(yielded: seq<Indices>, p: Indices, v: int, len: int, n: nat)
    requires |p| <= n && v + (n - |p|) <= len && Left(yielded, p, v, len, n)
    ensures var c := p + Run(v, n - |p|); yielded + [c] + After(c, len, n) == Combos(0, len, n)
  {
    hide Combos, After, Prepend;
    var c := p + Run(v, n - |p|);
    FirstOf(p, v, len, n);
    Regroup(yielded, Prepend(p, Combos(v, len, n - |p|)), After(p, len, n), c, After(c, len, n));
  }

  lemma LeftOn(yielded: seq<Indices>, c: Indices, r: nat, len: int, n: nat)
    requires r < |c| == n && yielded + After(c, len, n) == Combos(0, len, n)
    requires After(c, len, n) == Prepend(c[..r], Combos(c[r] + 1, len, n - r)) + After(c[..r], len, n)
    ensures Left(yielded, c[..r], c[r] + 1, len, n)
  {
    hide Combos, After, Prepend;
    var a, b := Prepend(c[..r], Combos(c[r] + 1, len, n - r)), After(c[..r], len, n);
    assert yielded + a + b == yielded + (a + b);
  }

  lemma Regroup(a: seq<Indices>, b: seq<Indices>, d: seq<Indices>, c: Indices, e: seq<Indices>)
    requires b + d == [c] + e
    ensures a + b + d == a + [c] + e
  {
    assert a + b + d == a + (b + d);
  }

  lemma RunRoomy(p: Indices, v: int, len: int, n: nat)
    requires |p| <= n && Roomy(p, len, n) && v + n <= len + |p|
    ensures Roomy(p + Run(v, n - |p|), len, n)
  {
  }

  /** combinate0: every choice of n indices below len, once, in order. */
  method Combinate(len: nat, n: nat) returns (yielded: seq<Indices>)
    requires 0 < n <= len
    ensures yielded == Combos(0, len, n)
  {
    hide Combos, After, Prepend, Left, Roomy;
    var stack := new int[n + 1](_ => 0);
    stack[0] := -1;
    yielded := [];
    var lev: nat := 0;
    ghost var p: Indices, v := [], 0;
    LeftStart(len, n);
    while true
      invariant stack.Length == n + 1 && lev == |p| < n && stack[1..lev + 1] == p && stack[lev + 1] == v
      invariant Roomy(p, len, n) && v + n <= len + lev
      invariant Left(yielded, p, v, len, n)
      decreases |Combos(0, len, n)| - |yielded|
    {
      LeftFirst(yielded, p, v, len, n);
      RunRoomy(p, v, len, n);
      FillUp(stack, n, lev, p, v);
      ghost var c := p + Run(v, n - |p|);
      yielded := yielded + [stack[1..n + 1]];
      var more := NextLevel(stack, len, n, c);
      if more < 0 { return; }
      LeftOn(yielded, c, more, len, n);
      RoomyPart(c, more, len, n);
      lev := more;
      p, v := c[..lev], c[lev] + 1;
    }
  }

  lemma RoomyPart(c: Indices, r: nat, len: int, n: nat)
    requires r <= |c| && Roomy(c, len, n)
    ensures Roomy(c[..r], len, n)
  {
  }

  // ----- how many

  lemma {:induction false} ChooseNone(n: nat, k: nat)
    requires k > n
    ensures Choose(n, k) == 0
  {
    if n > 0 {
      ChooseNone(n - 1, k - 1);
      ChooseNone(n - 1, k);
    }
  }

  lemma {:induction false} ChooseAll(n: nat)
    ensures Choose(n, n) == 1
  {
    if n > 0 {
      ChooseAll(n - 1);
      ChooseNone(n - 1, n);
    }
  }

  lemma {:induction false} ChooseSymmetric(n: nat, k: nat)
    requires k <= n
    ensures Choose(n, k) == Choose(n, n - k)
  {
    if k == 0 || k == n {
      ChooseAll(n);
    } else {
      ChooseSymmetric(n - 1, k - 1);
      ChooseSymmetric(n - 1, k);
    }
  }

  lemma {:induction false} ChooseOne(n: nat)
    requires n > 0
    ensures Choose(n, 1) == n
  {
    if n > 1 { ChooseOne(n - 1); }
  }

  /** The division in each step of binomial_coefficient is exact. */
  lemma {:induction false} ChooseNext(n: nat, k: nat)
    requires k <= n
    ensures Choose(n, k) * (n - k) == Choose(n, k + 1) * (k + 1)
  {
    if k == n {
      ChooseNone(n, n + 1);
    } else if k == 0 {
      ChooseOne(n);
    } else {
      ChooseNext(n - 1, k - 1);
      ChooseNext(n - 1, k);
      Pascal(Choose(n - 1, k - 1), Choose(n - 1, k), Choose(n - 1, k + 1), n, k);
    }
  }

  lemma Pascal(a: int, b: int, c: int, n: int, k: int)
    requires a * (n - k) == b * k && b * (n - 1 - k) == c * (k + 1)
    ensures (a + b) * (n - k) == (b + c) * (k + 1)
  {
    assert b * (n - k) == b * (n - 1 - k) + b;
    assert b * (k + 1) == b * k + b;
  }

  /** binomial_coefficient: the number of combinations, 0 for sizes that do not exist. */
  method Binomial(comb0: int, size: nat) returns (r: nat)
    ensures r == if comb0 < 0 then 0 else Choose(size, comb0)
  {
    hide Choose, Quot;
    var comb := comb0;
    if comb > size - comb { comb := size - comb; }
    BinomialSides(comb0, size);
    if comb < 0 { return 0; }
    if comb == 0 { return 1; }
    ChooseOne(size);
    r := size;
    var i := 1;
    while i < comb
      invariant 1 <= i <= comb && r == Choose(size, i)
    {
      ChooseNext(size, i);
      QuotUnique(r * (size - i), i + 1, Choose(size, i + 1), 0);
      r := Quot(r * (size - i), i + 1);
      i := i + 1;
    }
  }

  lemma BinomialSides(comb: int, size: nat)
    ensures comb > size ==> Choose(size, comb) == 0
    ensures 0 <= comb <= size ==> Choose(size, comb) == Choose(size, size - comb) && Choose(size, 0) == 1
  {
    if comb > size { ChooseNone(size, comb); } else if comb >= 0 { ChooseSymmetric(size, comb); }
  }

  // ----- permutations

  /** All ways to go on from the indices chosen so far, to r of them, the next one being j at least. */
  function Perms(n: nat, r: nat, chosen: Indices, j: nat): (ss: seq<Indices>)
    requires |chosen| <= r && j <= n
    decreases r - |chosen|, n - j
  {
    if |chosen| == r then [chosen]
    else if j == n then []
    else if j in chosen then Perms(n, r, chosen, j + 1)
    else Perms(n, r, chosen + [j], 0) + Perms(n, r, chosen, j + 1)
  }

  ghost predicate Distinct(s: Indices) { forall i, j :: 0 <= i < j < |s| ==> s[i] != s[j] }

  /** An arrangement of r different indices that goes on from those chosen, next with j at least. */
  ghost predicate Arranged(n: nat, r: nat, chosen: Indices, j: nat, s: Indices)
    requires |chosen| <= r
  {
    && |s| == r && Distinct(s) && (forall i :: 0 <= i < r ==> 0 <= s[i] < n)
    && s[..|chosen|] == chosen && (|chosen| < r ==> s[|chosen|] >= j)
  }

  /** Every arrangement is there, and nothing else. */
  lemma {:induction false} PermsAll(n: nat, r: nat, chosen: Indices, j: nat, s: Indices)
    requires |chosen| <= r && j <= n && Distinct(chosen) && forall i :: 0 <= i < |chosen| ==> 0 <= chosen[i] < n
    ensures s in Perms(n, r, chosen, j) <==> Arranged(n, r, chosen, j, s)
    decreases r - |chosen|, n - j
  {
    var k := |chosen|;
    if k == r {
      assert Arranged(n, r, chosen, j, s) ==> s[..k] == s;
      assert chosen[..k] == chosen;
    } else if j < n {
      PermsAll(n, r, chosen, j + 1, s);
      if j !in chosen {
        PermsAll(n, r, chosen + [j], 0, s);
        NextIs(n, r, chosen, j, s);
      } else {
        NotAgain(n, r, chosen, j, s);
      }
    }
  }

  lemma NextIs(n: nat, r: nat, chosen: Indices, j: nat, s: Indices)
    requires |chosen| < r && j < n
    ensures Arranged(n, r, chosen, j, s) <==> Arranged(n, r, chosen + [j], 0, s) || Arranged(n, r, chosen, j + 1, s)
  {
    var k := |chosen|;
    if |s| == r {
      assert s[..k + 1] == s[..k] + [s[k]];
      assert (chosen + [j])[..k] == chosen;
      assert s[..k + 1] == chosen + [j] ==> s[..k + 1][..k] == s[..k] && s[..k + 1][k] == j;
    }
  }

  lemma NotAgain(n: nat, r: nat, chosen: Indices, j: nat, s: Indices)
    requires |chosen| < r && j in chosen
    ensures Arranged(n, r, chosen, j, s) ==> s[|chosen|] != j
  {
    if Arranged(n, r, chosen, j, s) {
      var i :| 0 <= i < |chosen| && chosen[i] == j;
      assert s[i] == s[..|chosen|][i] == j;
    }
  }

  /** They come in order. */
  lemma {:induction false} PermsOrdered(n: nat, r: nat, chosen: Indices, j: nat)
    requires |chosen| <= r && j <= n && Distinct(chosen) && forall i :: 0 <= i < |chosen| ==> 0 <= chosen[i] < n
    ensures Ordered(Perms(n, r, chosen, j))
    decreases r - |chosen|, n - j
  {
    if |chosen| < r && j < n {
      PermsOrdered(n, r, chosen, j + 1);
      if j !in chosen {
        PermsOrdered(n, r, chosen + [j], 0);
        var a, b := Perms(n, r, chosen + [j], 0), Perms(n, r, chosen, j + 1);
        forall i, k | 0 <= i < |a| && 0 <= k < |b| ensures Before(a[i], b[k]) { BranchBefore(n, r, chosen, j, a[i], b[k]); }
        OrderedConcat(a, b);
      }
    }
  }

  lemma BranchBefore(n: nat, r: nat, chosen: Indices, j: nat, s: Indices, t: Indices)
    requires |chosen| < r && j < n && j !in chosen && Distinct(chosen) && forall i :: 0 <= i < |chosen| ==> 0 <= chosen[i] < n
    requires s in Perms(n, r, chosen + [j], 0) && t in Perms(n, r, chosen, j + 1)
    ensures Before(s, t)
  {
    hide Perms;
    PermsAll(n, r, chosen + [j], 0, s);
    PermsAll(n, r, chosen, j + 1, t);
    assert s[|chosen|] == s[..|chosen| + 1][|chosen|] == j;
    assert s[..|chosen|] == s[..|chosen| + 1][..|chosen|] == chosen;
    BeforeAt(s, t, |chosen|);
  }

  lemma {:induction false} BeforeAt(s: Indices, t: Indices, k: nat)
    requires k < |s| && k < |t| && s[..k] == t[..k] && s[k] < t[k]
    ensures Before(s, t)
    decreases k
  {
    if k > 0 {
      assert s[0] == s[..k][0] == t[..k][0] == t[0];
      assert s[1..][..k - 1] == s[..k][1..] && t[1..][..k - 1] == t[..k][1..];
      BeforeAt(s[1..], t[1..], k - 1);
    }
  }

  // ----- permute0

  /** Indices from j up that are not chosen. */
  function Unused(n: nat, chosen: Indices, j: nat): (u: nat)
    requires j <= n
    decreases n - j
  {
    if j == n then 0 else (if j in chosen then 0 else 1) + Unused(n, chosen, j + 1)
  }

  lemma {:induction false} UnusedLess(n: nat, chosen: Indices, x: int, j: nat)
    requires j <= n && x !in chosen && x < n
    ensures Unused(n, chosen + [x], j) == Unused(n, chosen, j) - (if j <= x then 1 else 0)
    decreases n - j
  {
    if j < n { UnusedLess(n, chosen, x, j + 1); }
  }

  lemma {:induction false} UnusedAll(n: nat, chosen: Indices)
    requires Distinct(chosen) && forall i :: 0 <= i < |chosen| ==> 0 <= chosen[i] < n
    ensures Unused(n, chosen, 0) == n - |chosen|
  {
    if chosen == [] {
      UnusedNone(n, 0);
    } else {
      var c, x := chosen[..|chosen| - 1], chosen[|chosen| - 1];
      UnusedAll(n, c);
      UnusedLess(n, c, x, 0);
      assert chosen == c + [x];
    }
  }

  lemma {:induction false} UnusedNone(n: nat, j: nat)
    requires j <= n
    ensures Unused(n, [], j) == n - j
    decreases n - j
  {
    if j < n { UnusedNone(n, j + 1); }
  }

  /** n * (n - 1) * ..., k factors. */
  function Falling(n: int, k: nat): (r: int)
    decreases k
  {
    if k == 0 then 1 else n * Falling(n - 1, k - 1)
  }

  lemma {:induction false} PermsCount(n: nat, r: nat, chosen: Indices, j: nat)
    requires |chosen| < r && j <= n && Distinct(chosen) && forall i :: 0 <= i < |chosen| ==> 0 <= chosen[i] < n
    ensures |Perms(n, r, chosen, j)| == Unused(n, chosen, j) * Falling(n - |chosen| - 1, r - |chosen| - 1)
    decreases r - |chosen|, n - j
  {
    hide Falling;
    if j < n {
      PermsCount(n, r, chosen, j + 1);
      if j !in chosen {
        BranchCount(n, r, chosen, j);
        OneMore(Unused(n, chosen, j + 1), Falling(n - |chosen| - 1, r - |chosen| - 1));
      }
    }
  }

  lemma OneMore(u: int, f: int)
    ensures (1 + u) * f == f + u * f
  {
  }

  lemma {:induction false} BranchCount(n: nat, r: nat, chosen: Indices, j: nat)
    requires |chosen| < r && j < n && j !in chosen && Distinct(chosen) && forall i :: 0 <= i < |chosen| ==> 0 <= chosen[i] < n
    ensures |Perms(n, r, chosen + [j], 0)| == Falling(n - |chosen| - 1, r - |chosen| - 1)
    decreases r - |chosen|, n - j, 0
  {
    var c := chosen + [j];
    if |c| < r {
      PermsCount(n, r, c, 0);
      UnusedAll(n, c);
    }
  }

  /** There are as many permutations as descending_factorial says. */
  lemma PermsTotal(n: nat, r: nat)
    ensures |Perms(n, r, [], 0)| == Falling(n, r)
  {
    if r > 0 {
      PermsCount(n, r, [], 0);
      UnusedAll(n, []);
    }
  }

  /** descending_factorial */
  method DescendingFactorial(from0: nat, howMany0: int) returns (cnt: int)
    ensures cnt == if howMany0 < 0 then 0 else Falling(from0, howMany0)
  {
    if howMany0 > 0 {
      var from: int, howMany: int := from0, howMany0 - 1;
      cnt := from;
      assert Falling(from0, howMany0) == from0 * Falling(from0 - 1, howMany0 - 1);
      while howMany > 0
        invariant 0 <= howMany && Falling(from0, howMany0) == cnt * Falling(from - 1, howMany)
      {
        from := from - 1;
        MulStep(cnt, from, Falling(from - 1, howMany - 1));
        cnt := cnt * from;
        howMany := howMany - 1;
      }
    } else {
      cnt := if howMany0 == 0 then 1 else 0;
    }
  }

  lemma MulStep(a: int, b: int, c: int)
    ensures a * (b * c) == a * b * c
  {
  }

  /** What comes after all that goes on from c. */
  ghost function Up(n: nat, r: nat, c: Indices): (ss: seq<Indices>)
    requires |c| <= r && forall i :: 0 <= i < |c| ==> 0 <= c[i] < n
  {
    if c == [] then [] else Perms(n, r, c[..|c| - 1], c[|c| - 1] + 1) + Up(n, r, c[..|c| - 1])
  }

  /** Steps of the loop below and above a choice: what ends it. */
  ghost function Below(n: nat, r: nat, c: Indices, j: nat): (w: nat)
    requires |c| < r && j <= n
    decreases r - |c|, n - j
  {
    if j == n then 1
    else if j in c then Below(n, r, c, j + 1)
    else 1 + (if |c| + 2 < r then Below(n, r, c + [j], 0) else 0) + Below(n, r, c, j + 1)
  }

  ghost function Above(n: nat, r: nat, c: Indices): (w: nat)
    requires |c| <= r && forall i :: 0 <= i < |c| ==> 0 <= c[i] < n
  {
    if c == [] then 0 else Below(n, r, c[..|c| - 1], c[|c| - 1] + 1) + Above(n, r, c[..|c| - 1])
  }

  lemma {:induction false} SkipUsed(n: nat, r: nat, c: Indices, i: nat, j: nat)
    requires |c| < r && i <= j <= n && forall k :: i <= k < j ==> k in c
    ensures Perms(n, r, c, i) == Perms(n, r, c, j) && Below(n, r, c, i) == Below(n, r, c, j)
    decreases j - i
  {
    if i < j { SkipUsed(n, r, c, i + 1, j); }
  }

  /** memchr(&used[i], 0, n-i) */
  method FindUnused(used: array<bool>, i: nat) returns (j: nat)
    requires i <= used.Length
    ensures i <= j <= used.Length && (j < used.Length ==> !used[j]) && forall k :: i <= k < j ==> used[k]
  {
    j := i;
    while j < used.Length && used[j]
      invariant i <= j <= used.Length && forall k :: i <= k < j ==> used[k]
    {
      j := j + 1;
    }
  }

  /** What p and used hold: the indices chosen so far. */
  ghost predicate Chosen(n: nat, p: seq<int>, used: seq<bool>, c: Indices) {
    && |used| == n && |c| <= |p| && p[..|c|] == c && Distinct(c)
    && (forall i :: 0 <= i < |c| ==> 0 <= c[i] < n) && forall i :: 0 <= i < n ==> (used[i] <==> i in c)
  }

  /** The inner loop: one last index after those chosen. */
  method LastOnes(n: nat, r: nat, p: array<int>, used: array<bool>, ghost c: Indices) returns (out: seq<Indices>)
    requires p.Length == r && |c| + 1 == r && Chosen(n, p[..], used[..], c)
    modifies p
    ensures out == Perms(n, r, c, 0) && Chosen(n, p[..], used[..], c)
  {
    hide Perms;
    out := [];
    for i := 0 to n
      invariant p[..r - 1] == c && out + Perms(n, r, c, i) == Perms(n, r, c, 0)
    {
      LastStep(n, r, c, i);
      assert used[..][i] == used[i];
      if used[i] { continue; }
      p[r - 1] := i;
      assert p[..] == c + [i];
      assert out + ([c + [i]] + Perms(n, r, c, i + 1)) == out + [c + [i]] + Perms(n, r, c, i + 1);
      out := out + [p[..]];
    }
    LastEnd(n, r, c);
    assert p[..][..r - 1] == c;
  }

  lemma LastStep(n: nat, r: nat, c: Indices, i: nat)
    requires |c| + 1 == r && i < n
    ensures Perms(n, r, c, i) == (if i in c then [] else [c + [i]]) + Perms(n, r, c, i + 1)
  {
  }

  lemma LastEnd(n: nat, r: nat, c: Indices)
    requires |c| < r
    ensures Perms(n, r, c, n) == []
  {
  }

  /** Choosing j next. */
  method Choose1(n: nat, p: array<int>, used: array<bool>, ghost c: Indices, index: nat, j: nat)
    requires index == |c| < p.Length && j < n && j !in c && Chosen(n, p[..], used[..], c)
    modifies p, used
    ensures Chosen(n, p[..], used[..], c + [j])
  {
    p[index] := j;
    used[j] := true;
    assert p[..][..index + 1] == c + [j];
  }

  /** Taking back the index chosen last. */
  method Unchoose(n: nat, p: array<int>, used: array<bool>, ghost c: Indices, index: nat) returns (i: nat)
    requires index == |c| > 0 && Chosen(n, p[..], used[..], c)
    modifies used
    ensures i == c[index - 1] < n && Chosen(n, p[..], used[..], c[..index - 1])
  {
    assert p[index - 1] == p[..][..index][index - 1];
    i := p[index - 1];
    used[i] := false;
    ghost var d := c[..index - 1];
    assert c == d + [i];
    assert p[..][..index - 1] == p[..][..index][..index - 1];
  }

  /** Everything is yielded, or comes from c and i on. */
  ghost predicate Todo(n: nat, r: nat, yielded: seq<Indices>, c: Indices, i: nat)
    requires |c| <= r && i <= n && forall k :: 0 <= k < |c| ==> 0 <= c[k] < n
  {
    yielded + Perms(n, r, c, i) + Up(n, r, c) == Perms(n, r, [], 0)
  }

  lemma TodoDown(n: nat, r: nat, yielded: seq<Indices>, c: Indices, i: nat)
    requires |c| < r && i < n && i !in c && (forall k :: 0 <= k < |c| ==> 0 <= c[k] < n) && Todo(n, r, yielded, c, i)
    ensures Todo(n, r, yielded, c + [i], 0)
    ensures |c| + 2 < r ==> Below(n, r, c + [i], 0) + Above(n, r, c + [i]) < Below(n, r, c, i) + Above(n, r, c)
    ensures Below(n, r, c, i + 1) < Below(n, r, c, i)
    ensures Todo(n, r, yielded + Perms(n, r, c + [i], 0), c, i + 1)
  {
    var d := c + [i];
    assert d[..|d| - 1] == c;
    var a, b, u := Perms(n, r, d, 0), Perms(n, r, c, i + 1), Up(n, r, c);
    assert yielded + (a + b) + u == yielded + a + (b + u) == yielded + a + b + u;
  }

  lemma TodoUp(n: nat, r: nat, yielded: seq<Indices>, c: Indices)
    requires 0 < |c| < r && (forall k :: 0 <= k < |c| ==> 0 <= c[k] < n) && Todo(n, r, yielded, c, n)
    ensures var d, i := c[..|c| - 1], c[|c| - 1] + 1;
            Todo(n, r, yielded, d, i) && Below(n, r, d, i) + Above(n, r, d) < Below(n, r, c, n) + Above(n, r, c)
  {
    var d, i := c[..|c| - 1], c[|c| - 1] + 1;
    var b, u := Perms(n, r, d, i), Up(n, r, d);
    assert yielded + [] + (b + u) == yielded + b + u;
  }

  /** permute0: every arrangement of r of n indices, once, in order. */
  method Permute(n: nat, r: nat) returns (yielded: seq<Indices>)
    requires 2 <= r <= n
    ensures yielded == Perms(n, r, [], 0)
  {
    hide Perms, Up, Below, Above, Todo;
    var p, used := new int[r](_ => 0), new bool[n](_ => false);
    yielded := [];
    var i: nat, index: nat := 0, 0;
    ghost var c: Indices := [];
    TodoStart(n, r);
    while true
      invariant index == |c| && index + 2 <= r && i <= n && p.Length == r && used.Length == n
      invariant Chosen(n, p[..], used[..], c) && Todo(n, r, yielded, c, i)
      decreases Below(n, r, c, i) + Above(n, r, c)
    {
      var j := FindUnused(used, i);
      assert forall k :: 0 <= k < n ==> used[..][k] == used[k];
      SkipUsed(n, r, c, i, j);
      TodoSkip(n, r, yielded, c, i, j);
      if j == n {
        if index == 0 { break; }
        TodoUp(n, r, yielded, c);
        i := Unchoose(n, p, used, c, index);
        i := i + 1;
        index := index - 1;
        c := c[..index];
      } else {
        i := j;
        TodoDown(n, r, yielded, c, i);
        Choose1(n, p, used, c, index, i);
        index := index + 1;
        if index < r - 1 {
          c := c + [i];
          i := 0;
          p[index] := 0;
        } else {
          var more := LastOnes(n, r, p, used, c + [i]);
          yielded := yielded + more;
          i := Unchoose(n, p, used, c + [i], index);
          assert (c + [i])[..index - 1] == c;
          index := index - 1;
          i := i + 1;
        }
      }
    }
    TodoEnd(n, r, yielded);
  }

  lemma TodoStart(n: nat, r: nat)
    ensures Todo(n, r, [], [], 0)
  {
  }

  lemma TodoSkip(n: nat, r: nat, yielded: seq<Indices>, c: Indices, i: nat, j: nat)
    requires |c| <= r && i <= n && j <= n && (forall k :: 0 <= k < |c| ==> 0 <= c[k] < n) && Todo(n, r, yielded, c, i)
    requires Perms(n, r, c, i) == Perms(n, r, c, j)
    ensures Todo(n, r, yielded, c, j)
  {
  }

  lemma TodoEnd(n: nat, r: nat, yielded: seq<Indices>)
    requires r > 0 && Todo(n, r, yielded, [], n)
    ensures yielded == Perms(n, r, [], 0)
  {
  }
}
