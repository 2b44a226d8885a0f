/** Array#flatten: an explicit stack instead of recursion, and a memo that finds arrays inside themselves. */
module Flatten {

  type Id = nat

  /** An element: an array, or anything that is not one. */
  datatype Elem = Item(v: nat) | Nested(id: Id)

  /** The arrays, by identity.  They may contain each other. */
  type Heap = map<Id, seq<Elem>>

  ghost predicate Closed(h: Heap) {
    forall a, i :: a in h && 0 <= i < |h[a]| && h[a][i].Nested? ==> h[a][i].id in h
  }

  /** A flattened array, or "tried to flatten recursive array". */
  datatype Result = Flat(elems: seq<Elem>) | Recursive

  function Then(a: Result, b: Result): (r: Result) {
    if a.Flat? && b.Flat? then Flat(a.elems + b.elems) else Recursive
  }

  lemma ThenAssoc(a: Result, b: Result, c: Result)
    ensures Then(Then(a, b), c) == Then(a, Then(b, c))
  {
    if a.Flat? && b.Flat? && c.Flat? { assert a.elems + b.elems + c.elems == a.elems + (b.elems + c.elems); }
  }

  // ----- by recursion

  /** Flattening the elements s of an array `depth` arrays down, inside the arrays of `path`.  A level that is
      not negative is the depth down to which arrays are taken apart. */
  ghost function Rec(h: Heap, s: seq<Elem>, path: set<Id>, level: int, depth: nat): (r: Result)
    requires Closed(h) && path <= h.Keys && forall i :: 0 <= i < |s| && s[i].Nested? ==> s[i].id in h
    decreases |h.Keys - path|, |s|
  {
    if s == [] then Flat([])
    else
      var e, rest := s[0], Rec(h, s[1..], path, level, depth);
      if e.Item? || 0 <= level <= depth then Then(Flat([e]), rest)
      else if e.id in path then Recursive
      else
        Fewer(h.Keys, path, e.id);
        Then(Rec(h, h[e.id], path + {e.id}, level, depth + 1), rest)
  }

  lemma Fewer(all: set<Id>, path: set<Id>, a: Id)
    requires a in all && a !in path
    ensures |all - (path + {a})| < |all - path|
  {
    assert all - path == (all - (path + {a})) + {a};
  }

  // ----- with a stack

  /** An array put aside, and how far it has been done. */
  datatype Frame = Frame(ary: Id, i: nat)

  ghost predicate FramesOk(h: Heap, stack: seq<Frame>) {
    forall k :: 0 <= k < |stack| ==> stack[k].ary in h && stack[k].i <= |h[stack[k].ary]|
  }

  /** What is still to come: the rest of this array, then of those put aside.  The memo holds the arrays
      being taken apart. */
  ghost function Rest(h: Heap, ary: Id, i: nat, memo: set<Id>, stack: seq<Frame>, level: int): (r: Result)
    requires Closed(h) && memo <= h.Keys && ary in h && i <= |h[ary]| && FramesOk(h, stack)
    decreases |stack|
  {
    var here := Rec(h, h[ary][i..], memo, level, |stack|);
    if stack == [] then here
    else
      var f := stack[|stack| - 1];
      Then(here, Rest(h, f.ary, f.i, memo - {ary}, stack[..|stack| - 1], level))
  }

  /** How many elements and arrays there are to go through: what ends the loop, cycles or not. */
  ghost function Work(h: Heap, s: seq<Elem>, path: set<Id>, level: int, depth: nat): (r: nat)
    requires Closed(h) && path <= h.Keys && forall i :: 0 <= i < |s| && s[i].Nested? ==> s[i].id in h
    decreases |h.Keys - path|, |s|
  {
    if s == [] then 0
    else
      var e, rest := s[0], Work(h, s[1..], path, level, depth);
      if e.Item? || 0 <= level <= depth || e.id in path then 1 + rest
      else
        Fewer(h.Keys, path, e.id);
        2 + Work(h, h[e.id], path + {e.id}, level, depth + 1) + rest
  }

  ghost function AllWork(h: Heap, ary: Id, i: nat, memo: set<Id>, stack: seq<Frame>, level: int): (r: nat)
    requires Closed(h) && memo <= h.Keys && ary in h && i <= |h[ary]| && FramesOk(h, stack)
    decreases |stack|
  {
    var here := Work(h, h[ary][i..], memo, level, |stack|);
    if stack == [] then here
    else
      var f := stack[|stack| - 1];
      here + 1 + AllWork(h, f.ary, f.i, memo - {ary}, stack[..|stack| - 1], level)
  }

  lemma Step(h: Heap, ary: Id, i: nat, memo: set<Id>, stack: seq<Frame>, level: int)
    requires Closed(h) && memo <= h.Keys && ary in h && i < |h[ary]| && FramesOk(h, stack)
    ensures var e := h[ary][i];
            e.Item? || 0 <= level <= |stack| ==>
              && Rest(h, ary, i, memo, stack, level) == Then(Flat([e]), Rest(h, ary, i + 1, memo, stack, level))
              && AllWork(h, ary, i, memo, stack, level) > AllWork(h, ary, i + 1, memo, stack, level)
    ensures var e := h[ary][i];
            e.Nested? && !(0 <= level <= |stack|) && e.id in memo ==> Rest(h, ary, i, memo, stack, level) == Recursive
  {
    var e := h[ary][i];
    assert h[ary][i..][0] == e && h[ary][i..][1..] == h[ary][i + 1..];
    if stack != [] {
      var f := stack[|stack| - 1];
      ThenAssoc(Flat([e]), Rec(h, h[ary][i + 1..], memo, level, |stack|),
                Rest(h, f.ary, f.i, memo - {ary}, stack[..|stack| - 1], level));
    }
  }

  /** Going into an array that is not being taken apart yet. */
  lemma Enter(h: Heap, ary: Id, i: nat, memo: set<Id>, stack: seq<Frame>, level: int)
    requires Closed(h) && memo <= h.Keys && ary in h && i < |h[ary]| && FramesOk(h, stack)
    requires h[ary][i].Nested? && !(0 <= level <= |stack|) && h[ary][i].id !in memo
    ensures var a, stack' := h[ary][i].id, stack + [Frame(ary, i + 1)];
            && a in h && FramesOk(h, stack')
            && Rest(h, a, 0, memo + {a}, stack', level) == Rest(h, ary, i, memo, stack, level)
            && AllWork(h, a, 0, memo + {a}, stack', level) < AllWork(h, ary, i, memo, stack, level)
  {
    var a := h[ary][i].id;
    var stack' := stack + [Frame(ary, i + 1)];
    Fewer(h.Keys, memo, a);
    assert h[ary][i..][0] == h[ary][i] && h[ary][i..][1..] == h[ary][i + 1..];
    assert h[a][0..] == h[a];
    assert stack'[..|stack|] == stack && memo + {a} - {a} == memo;
    if stack != [] {
      var f := stack[|stack| - 1];
      ThenAssoc(Rec(h, h[a], memo + {a}, level, |stack| + 1), Rec(h, h[ary][i + 1..], memo, level, |stack|),
                Rest(h, f.ary, f.i, memo - {ary}, stack[..|stack| - 1], level));
    }
  }

  /** Coming back to the array put aside last. */
  lemma Leave(h: Heap, ary: Id, memo: set<Id>, stack: seq<Frame>, level: int)
    requires Closed(h) && memo <= h.Keys && ary in h && FramesOk(h, stack) && stack != []
    ensures var f, stack' := stack[|stack| - 1], stack[..|stack| - 1];
            && Rest(h, f.ary, f.i, memo - {ary}, stack', level) == Rest(h, ary, |h[ary]|, memo, stack, level)
            && AllWork(h, f.ary, f.i, memo - {ary}, stack', level) < AllWork(h, ary, |h[ary]|, memo, stack, level)
  {
    assert h[ary][|h[ary]|..] == [];
    var f := stack[|stack| - 1];
    var r := Rest(h, f.ary, f.i, memo - {ary}, stack[..|stack| - 1], level);
    assert r.Flat? ==> [] + r.elems == r.elems;
  }

  /** flatten.  `modified` is whether an array was taken apart. */
  method FlattenArray(h: Heap, root: Id, level: int) returns (r: Result, modified: bool)
    requires Closed(h) && root in h
    ensures r == Rec(h, h[root], {root}, level, 0)
    ensures modified <==> level != 0 && exists i :: 0 <= i < |h[root]| && h[root][i].Nested?
  {
    hide Rec, Work, Rest, AllWork;
    var ary: Id, i: nat, stack: seq<Frame>, result: seq<Elem>, memo := root, 0, [], [], {root};
    modified := false;
    Begin(h, root, level);
    while true
      invariant ary in h && i <= |h[ary]| && memo <= h.Keys && FramesOk(h, stack)
      invariant Then(Flat(result), Rest(h, ary, i, memo, stack, level)) == Rec(h, h[root], {root}, level, 0)
      invariant Noted(h, root, level, modified, ary, i, stack)
      decreases AllWork(h, ary, i, memo, stack, level)
    {
      if i < |h[ary]| {
        var e := h[ary][i];
        Step(h, ary, i, memo, stack, level);
        if e.Item? || 0 <= level <= |stack| {
          ThenAssoc(Flat(result), Flat([e]), Rest(h, ary, i + 1, memo, stack, level));
          result := result + [e];
          i := i + 1;
        } else {
          modified := true;
          if e.id in memo { return Recursive, modified; }
          Enter(h, ary, i, memo, stack, level);
          memo := memo + {e.id};
          stack := stack + [Frame(ary, i + 1)];
          ary, i := e.id, 0;
        }
      } else {
        if stack == [] { break; }
        Leave(h, ary, memo, stack, level);
        memo := memo - {ary};
        ary, i, stack := stack[|stack| - 1].ary, stack[|stack| - 1].i, stack[..|stack| - 1];
      }
    }
    Finish(h, ary, memo, level, result);
    r := Flat(result);
  }

  lemma Begin(h: Heap, root: Id, level: int)
    requires Closed(h) && root in h
    ensures FramesOk(h, [])
    ensures Then(Flat([]), Rest(h, root, 0, {root}, [], level)) == Rec(h, h[root], {root}, level, 0)
  {
    assert h[root][0..] == h[root];
    var r := Rec(h, h[root], {root}, level, 0);
    assert r.Flat? ==> [] + r.elems == r.elems;
  }

  lemma Finish(h: Heap, ary: Id, memo: set<Id>, level: int, result: seq<Elem>)
    requires Closed(h) && memo <= h.Keys && ary in h && FramesOk(h, [])
    ensures Then(Flat(result), Rest(h, ary, |h[ary]|, memo, [], level)) == Flat(result)
  {
    assert h[ary][|h[ary]|..] == [] && result + [] == result;
  }

  /** Whether an array was met is known from the elements of the root that were passed. */
  ghost predicate Noted(h: Heap, root: Id, level: int, modified: bool, ary: Id, i: nat, stack: seq<Frame>)
    requires root in h
  {
    && (modified ==> level != 0 && exists k :: 0 <= k < |h[root]| && h[root][k].Nested?)
    && (stack != [] ==> modified)
    && (!modified ==> stack == [] && ary == root && (level != 0 ==> forall k :: 0 <= k < i && k < |h[root]| ==> h[root][k].Item?))
  }

  // ----- without a level: what recursion means

  /** Taking arrays apart to any depth up to `fuel`, with no memory of where one is. */
  ghost function Deep(h: Heap, s: seq<Elem>, fuel: nat): (r: Result)
    requires Closed(h) && forall i :: 0 <= i < |s| && s[i].Nested? ==> s[i].id in h
    decreases fuel, |s|
  {
    if s == [] then Flat([])
    else if s[0].Item? then Then(Flat([s[0]]), Deep(h, s[1..], fuel))
    else if fuel == 0 then Recursive
    else Then(Deep(h, h[s[0].id], fuel - 1), Deep(h, s[1..], fuel))
  }

  /** A walk from array to array, each an element of the one before. */
  ghost predicate Walk(h: Heap, w: seq<Id>) {
    && w != [] && (forall i :: 0 <= i < |w| ==> w[i] in h)
    && forall i {:trigger w[i]} :: 0 < i < |w| ==> Nested(w[i]) in h[w[i - 1]]
  }

  /** A walk from root comes to an array again, in no more steps than the level allows. */
  ghost predicate MeetsAgain(h: Heap, root: Id, level: int) {
    exists w, i :: Walk(h, w) && w[0] == root && 0 <= i < |w| - 1 && w[i] == w[|w| - 1] && (level < 0 || |w| - 1 <= level)
  }

  /** An array that contains itself, at any depth, can be reached from root. */
  ghost predicate ReachesCycle(h: Heap, root: Id) { MeetsAgain(h, root, -1) }

  lemma {:induction false} DeepMore(h: Heap, s: seq<Elem>, fuel: nat, fuel': nat)
    requires Closed(h) && (forall i :: 0 <= i < |s| && s[i].Nested? ==> s[i].id in h) && fuel <= fuel'
    requires Deep(h, s, fuel).Flat?
    ensures Deep(h, s, fuel') == Deep(h, s, fuel)
    decreases fuel, |s|
  {
    if s != [] {
      DeepMore(h, s[1..], fuel, fuel');
      if s[0].Nested? { DeepMore(h, h[s[0].id], fuel - 1, fuel' - 1); }
    }
  }

  /** Where no array is met inside itself, flattening is plain recursion. */
  lemma {:induction false} RecDeep(h: Heap, s: seq<Elem>, path: set<Id>, depth: nat)
    requires Closed(h) && path <= h.Keys && forall i :: 0 <= i < |s| && s[i].Nested? ==> s[i].id in h
    requires Rec(h, s, path, -1, depth).Flat?
    ensures Deep(h, s, |h.Keys - path|) == Rec(h, s, path, -1, depth)
    decreases |h.Keys - path|, |s|
  {
    if s != [] {
      RecDeep(h, s[1..], path, depth);
      if s[0].Nested? {
        var a := s[0].id;
        Fewer(h.Keys, path, a);
        RecDeep(h, h[a], path + {a}, depth + 1);
        DeepMore(h, h[a], |h.Keys - (path + {a})|, |h.Keys - path| - 1);
      }
    }
  }

  lemma WalkOn(h: Heap, w: seq<Id>, a: Id)
    requires Walk(h, w) && a in h && Nested(a) in h[w[|w| - 1]]
    ensures Walk(h, w + [a])
  {
    var w' := w + [a];
    forall i | 0 < i < |w'| ensures Nested(w'[i]) in h[w'[i - 1]] {
      if i < |w| { assert Nested(w[i]) in h[w[i - 1]]; }
    }
  }

  ghost function Members(w: seq<Id>): (r: set<Id>) { set a | a in w }

  lemma MembersOn(w: seq<Id>, a: Id)
    ensures Members(w + [a]) == Members(w) + {a}
  {
  }

  /** Why the elements of an array from k on cannot be flattened. */
  lemma RecWhy(h: Heap, ary: Id, k: nat, path: set<Id>, level: int, depth: nat)
    requires Closed(h) && ary in h && k <= |h[ary]| && path <= h.Keys && Rec(h, h[ary][k..], path, level, depth) == Recursive
    ensures k < |h[ary]|
    ensures Rec(h, h[ary][k + 1..], path, level, depth) == Recursive || (
              && h[ary][k].Nested? && h[ary][k].id in h && (level < 0 || depth < level)
              && (h[ary][k].id in path
                  || Rec(h, h[h[ary][k].id][0..], path + {h[ary][k].id}, level, depth + 1) == Recursive))
  {
    var s := h[ary][k..];
    assert k < |h[ary]| && s[0] == h[ary][k] && s[1..] == h[ary][k + 1..];
    if s[0].Nested? { assert h[s[0].id][0..] == h[s[0].id]; }
  }

  /** Where one is, it can be reached. */
  lemma {:induction false} RecCycle(h: Heap, w: seq<Id>, ary: Id, k: nat, level: int)
    requires Closed(h) && Walk(h, w) && w != [] && w[|w| - 1] == ary && ary in h && k <= |h[ary]| && Members(w) <= h.Keys
    requires Rec(h, h[ary][k..], Members(w), level, |w| - 1) == Recursive
    ensures MeetsAgain(h, w[0], level)
    decreases |h.Keys - Members(w)|, |h[ary]| - k
  {
    hide Walk, Members, MeetsAgain, Rec;
    RecWhy(h, ary, k, Members(w), level, |w| - 1);
    if Rec(h, h[ary][k + 1..], Members(w), level, |w| - 1) == Recursive {
      RecCycle(h, w, ary, k + 1, level);
    } else {
      var a := h[ary][k].id;
      assert Nested(a) in h[ary];
      WalkOn(h, w, a);
      MembersOn(w, a);
      if a in Members(w) {
        CycleFound(h, w, a, level);
      } else {
        Fewer(h.Keys, Members(w), a);
        RecCycle(h, w + [a], a, 0, level);
      }
    }
  }

  lemma CycleFound(h: Heap, w: seq<Id>, a: Id, level: int)
    requires Walk(h, w + [a]) && w != [] && a in Members(w) && (level < 0 || |w| <= level)
    ensures MeetsAgain(h, w[0], level)
  {
    var i :| 0 <= i < |w| && w[i] == a;
    assert (w + [a])[i] == (w + [a])[|w|] && (w + [a])[0] == w[0];
  }

  /** An array within an array that can be flattened is not one being taken apart, and can be flattened. */
  lemma {:induction false} RecInside(h: Heap, s: seq<Elem>, a: Id, path: set<Id>, level: int, depth: nat)
    requires Closed(h) && path <= h.Keys && forall i :: 0 <= i < |s| && s[i].Nested? ==> s[i].id in h
    requires Nested(a) in s && (level < 0 || depth < level) && Rec(h, s, path, level, depth).Flat?
    ensures a in h && a !in path && Rec(h, h[a], path + {a}, level, depth + 1).Flat?
    decreases |s|
  {
    if s[0] != Nested(a) { RecInside(h, s[1..], a, path, level, depth); }
  }

  /** No walk on which flattening goes comes to an array again. */
  lemma {:induction false} NoneAgain(h: Heap, w: seq<Id>, k: nat, level: int)
    requires Closed(h) && Walk(h, w) && k < |w| - 1 && Members(w[..k + 1]) <= h.Keys && (level < 0 || |w| - 1 <= level)
    requires Rec(h, h[w[k]], Members(w[..k + 1]), level, k).Flat?
    ensures forall i :: 0 <= i < |w| - 1 ==> w[i] != w[|w| - 1]
    decreases |w| - k
  {
    hide Rec, Members;
    var a := w[k + 1];
    assert Nested(a) in h[w[k]];
    RecInside(h, h[w[k]], a, Members(w[..k + 1]), level, k);
    if k + 1 < |w| - 1 {
      assert w[..k + 2] == w[..k + 1] + [a];
      MembersOn(w[..k + 1], a);
      NoneAgain(h, w, k + 1, level);
    } else {
      InMembers(w, k);
    }
  }

  lemma InMembers(w: seq<Id>, k: nat)
    requires k < |w|
    ensures forall i :: 0 <= i <= k ==> w[i] in Members(w[..k + 1])
  {
    forall i | 0 <= i <= k ensures w[i] in Members(w[..k + 1]) { assert w[..k + 1][i] == w[i]; }
  }

  /** Flattening down to any level, or without one, raises exactly when a walk down to that level comes to an array again. */
  lemma RaisesWhen(h: Heap, root: Id, level: int)
    requires Closed(h) && root in h
    ensures Rec(h, h[root], {root}, level, 0) == Recursive <==> MeetsAgain(h, root, level)
  {
    hide Rec;
    assert Walk(h, [root]) && Members([root]) == {root} && h[root][0..] == h[root];
    if Rec(h, h[root], {root}, level, 0) == Recursive {
      RecCycle(h, [root], root, 0, level);
    } else if MeetsAgain(h, root, level) {
      var w, i :| Walk(h, w) && w[0] == root && 0 <= i < |w| - 1 && w[i] == w[|w| - 1] && (level < 0 || |w| - 1 <= level);
      assert w[..1] == [root];
      NoneAgain(h, w, 0, level);
    }
  }

  /** Taking arrays apart n levels deep, and leaving those below as they are. */
  ghost function Levelled(h: Heap, s: seq<Elem>, n: nat): (r: seq<Elem>)
    requires Closed(h) && forall i :: 0 <= i < |s| && s[i].Nested? ==> s[i].id in h
    decreases n, |s|
  {
    if s == [] then []
    else if s[0].Item? || n == 0 then [s[0]] + Levelled(h, s[1..], n)
    else Levelled(h, h[s[0].id], n - 1) + Levelled(h, s[1..], n)
  }

  /** With a level, what does not raise is plain recursion down to it. */
  lemma {:induction false} RecLevelled(h: Heap, s: seq<Elem>, path: set<Id>, level: nat, depth: nat)
    requires Closed(h) && path <= h.Keys && (forall i :: 0 <= i < |s| && s[i].Nested? ==> s[i].id in h) && depth <= level
    requires Rec(h, s, path, level, depth).Flat?
    ensures Rec(h, s, path, level, depth) == Flat(Levelled(h, s, level - depth))
    decreases |h.Keys - path|, |s|
  {
    if s != [] {
      RecLevelled(h, s[1..], path, level, depth);
      if s[0].Nested? && depth < level {
        Fewer(h.Keys, path, s[0].id);
        RecLevelled(h, h[s[0].id], path + {s[0].id}, level, depth + 1);
      }
    }
  }

  /** flatten(level) raises exactly when a walk of at most `level` steps comes to an array again; else it is plain recursion
      down to that level. */
  lemma LevelMeans(h: Heap, root: Id, level: nat)
    requires Closed(h) && root in h
    ensures Rec(h, h[root], {root}, level, 0)
         == if MeetsAgain(h, root, level) then Recursive else Flat(Levelled(h, h[root], level))
  {
    hide Rec, MeetsAgain, Levelled;
    RaisesWhen(h, root, level);
    if Rec(h, h[root], {root}, level, 0).Flat? { RecLevelled(h, h[root], {root}, level, 0); }
  }

  /** Each array on a walk takes one of the depth. */
  lemma {:induction false} WalkShort(h: Heap, w: seq<Id>, fuel: nat)
    requires Closed(h) && Walk(h, w) && Deep(h, h[w[0]], fuel).Flat?
    ensures |w| - 1 <= fuel
    decreases |w|
  {
    if |w| > 1 {
      assert Nested(w[1]) in h[w[0]];
      DeepInside(h, h[w[0]], w[1], fuel);
      assert Walk(h, w[1..]) by {
        forall i | 0 < i < |w[1..]| ensures Nested(w[1..][i]) in h[w[1..][i - 1]] { assert Nested(w[i + 1]) in h[w[i + 1 - 1]]; }
      }
      WalkShort(h, w[1..], fuel - 1);
    }
  }

  lemma {:induction false} DeepInside(h: Heap, s: seq<Elem>, a: Id, fuel: nat)
    requires Closed(h) && forall i :: 0 <= i < |s| && s[i].Nested? ==> s[i].id in h
    requires Nested(a) in s && Deep(h, s, fuel).Flat?
    ensures a in h && fuel > 0 && Deep(h, h[a], fuel - 1).Flat?
    decreases |s|
  {
    if s[0] != Nested(a) { DeepInside(h, s[1..], a, fuel); }
  }

  /** Going around a cycle n times. */
  lemma {:induction false} Around(h: Heap, w: seq<Id>, i: nat, n: nat) returns (v: seq<Id>)
    requires Walk(h, w) && i < |w| - 1 && w[i] == w[|w| - 1]
    ensures Walk(h, v) && v[0] == w[0] && |v| > n && v[|v| - 1] == w[i]
    decreases n
  {
    if n < |w| {
      v := w;
    } else {
      var u := Around(h, w, i, n - 1);
      v := u + w[i + 1..];
      forall j | 0 < j < |v| ensures Nested(v[j]) in h[v[j - 1]] {
        if j < |u| {
          assert Nested(u[j]) in h[u[j - 1]];
        } else {
          var k := i + 1 + (j - |u|);
          assert v[j] == w[k] && v[j - 1] == w[k - 1];
          assert Nested(w[k]) in h[w[k - 1]];
        }
      }
    }
  }

  /** flatten raises exactly when an array that contains itself can be reached; else it is plain recursion. */
  lemma FlattenMeans(h: Heap, root: Id)
    requires Closed(h) && root in h
    ensures Rec(h, h[root], {root}, -1, 0) == Recursive <==> ReachesCycle(h, root)
    ensures Rec(h, h[root], {root}, -1, 0) == Recursive <==> forall fuel: nat :: Deep(h, h[root], fuel) == Recursive
    ensures !ReachesCycle(h, root) ==> forall fuel: nat :: fuel >= |h| ==> Deep(h, h[root], fuel) == Rec(h, h[root], {root}, -1, 0)
  {
    hide Rec, Deep, MeetsAgain;
    RaisesWhen(h, root, -1);
    if Rec(h, h[root], {root}, -1, 0).Flat? { PlainMet(h, root); }
    forall fuel: nat | ReachesCycle(h, root) ensures Deep(h, h[root], fuel) == Recursive { CycleDeep(h, root, fuel); }
  }

  lemma CycleDeep(h: Heap, root: Id, fuel: nat)
    requires Closed(h) && root in h && ReachesCycle(h, root)
    ensures Deep(h, h[root], fuel) == Recursive
  {
    hide Deep;
    var w, i :| Walk(h, w) && w[0] == root && 0 <= i < |w| - 1 && w[i] == w[|w| - 1];
    NeverFlat(h, w, i, fuel);
  }

  lemma PlainMet(h: Heap, root: Id)
    requires Closed(h) && root in h && Rec(h, h[root], {root}, -1, 0).Flat?
    ensures forall fuel: nat :: fuel >= |h| ==> Deep(h, h[root], fuel) == Rec(h, h[root], {root}, -1, 0)
    ensures Deep(h, h[root], |h|).Flat?
  {
    hide Rec, Deep;
    RecDeep(h, h[root], {root}, 0);
    Fewer(h.Keys, {}, root);
    assert h.Keys - ({} + {root}) == h.Keys - {root} && h.Keys - {} == h.Keys;
    forall fuel: nat | fuel >= |h| ensures Deep(h, h[root], fuel) == Rec(h, h[root], {root}, -1, 0) {
      DeepMore(h, h[root], |h.Keys - {root}|, fuel);
    }
  }

  lemma NeverFlat(h: Heap, w: seq<Id>, i: nat, fuel: nat)
    requires Closed(h) && Walk(h, w) && i < |w| - 1 && w[i] == w[|w| - 1]
    ensures Deep(h, h[w[0]], fuel) == Recursive
  {
    var v := Around(h, w, i, fuel + 1);
    if Deep(h, h[w[0]], fuel).Flat? { WalkShort(h, v, fuel); }
  }
}
