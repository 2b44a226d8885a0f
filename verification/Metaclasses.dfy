/** The metaclass tower (class.c): every class can be given a class of its own, and those
    metaclasses form a hierarchy parallel to the classes'. */
module Metaclasses {

  type Ref = nat

  /** A superclass link.  Modules included in a class stand between it and its superclass. */
  datatype Super = NoSuper | Undef | Of(c: Ref) | Include(rest: Super)

  /** while (RB_TYPE_P(super, T_ICLASS)) super = RCLASS_SUPER(super) */
  function Real(s: Super): (r: Super)
    ensures !r.Include?
  {
    match s
    case Include(rest) => Real(rest)
    case _ => s
  }

  /** A class object.  `attached` is the class a singleton class belongs to. */
  datatype RClass = RClass(klass: Ref, super: Super, singleton: bool, attached: Ref)

  type Graph = map<Ref, RClass>

  /** HAVE_METACLASS_P */
  predicate HasMeta(g: Graph, k: Ref) {
    k in g && g[k].klass in g && g[g[k].klass].singleton && g[g[k].klass].attached == k
  }

  /** What a proof knows beside the classes: each one's level (n for a meta^n-class), the chain Class,
      its metaclass, the metaclass of that, ..., and the classes whose metaclass is being made. */
  datatype Shape = Shape(level: map<Ref, nat>, top: seq<Ref>, pending: set<Ref>)

  /** m is a metaclass still being made. */
  ghost predicate Unfinished(g: Graph, s: Shape, m: Ref) {
    m in g && g[m].singleton && g[m].attached in s.pending
  }

  /** Class, meta-Class, ...: each is the class of the one before, and the last is its own class. */
  ghost predicate TopAt(g: Graph, s: Shape, i: nat) {
    i < |s.top| && s.top[i] in g && s.top[i] in s.level && s.level[s.top[i]] == i &&
    if i + 1 < |s.top| then g[s.top[i]].klass == s.top[i + 1] && HasMeta(g, s.top[i])
    else g[s.top[i]].klass == s.top[i]
  }

  ghost predicate TopChain(g: Graph, s: Shape) {
    |s.top| > 0 && forall i: nat {:trigger TopAt(g, s, i)} :: i < |s.top| ==> TopAt(g, s, i)
  }

  /** A singleton class is the class of what it is attached to, one level up. */
  ghost predicate AttachedAt(g: Graph, s: Shape, m: Ref) {
    && m in g && g[m].attached in g && g[g[m].attached].klass == m
    && g[m].attached in s.level && m in s.level && s.level[m] == s.level[g[m].attached] + 1
  }

  ghost predicate Attached(g: Graph, s: Shape) {
    forall m {:trigger AttachedAt(g, s, m)} :: m in g && g[m].singleton ==> AttachedAt(g, s, m)
  }

  /** A class that has no metaclass of its own is an instance of its level's Class. */
  ghost predicate KlassAt(g: Graph, s: Shape, k: Ref) {
    k in g && k in s.level && s.level[k] < |s.top| && (HasMeta(g, k) || g[k].klass == s.top[s.level[k]])
  }

  ghost predicate Klasses(g: Graph, s: Shape) {
    forall k {:trigger KlassAt(g, s, k)} :: k in g && !Unfinished(g, s, k) ==> KlassAt(g, s, k)
  }

  /** Where superclasses are: on the same level, but for the bottom of a metaclass level,
      which inherits from the Class one level below. */
  ghost predicate SuperAt(g: Graph, s: Shape, k: Ref) {
    k in g && k in s.level &&
    match Real(g[k].super)
    case NoSuper => s.level[k] == 0
    case Of(c) => c in g && c in s.level && (s.level[c] == s.level[k] || (c in s.top && s.level[c] + 1 == s.level[k]))
    case _ => false
  }

  ghost predicate Supers(g: Graph, s: Shape) {
    forall k {:trigger SuperAt(g, s, k)} :: k in g && !Unfinished(g, s, k) ==> SuperAt(g, s, k)
  }

  /** The metaclass of k inherits from the metaclass of k's superclass. */
  ghost predicate ParallelAt(g: Graph, cClass: Ref, k: Ref) {
    HasMeta(g, k) &&
    match Real(g[k].super)
    case NoSuper => Real(g[g[k].klass].super) == Of(cClass)
    case Of(c) => HasMeta(g, c) && Real(g[g[k].klass].super) == Of(g[c].klass)
    case _ => false
  }

  ghost predicate Parallel(g: Graph, s: Shape, cClass: Ref) {
    forall k {:trigger ParallelAt(g, cClass, k)} :: HasMeta(g, k) && k !in s.pending ==> ParallelAt(g, cClass, k)
  }

  /** Every class is known, and younger than what it was made from: a metaclass than its class, another class than
      its superclass. */
  ghost predicate KnownAt(g: Graph, s: Shape, next: Ref, k: Ref) {
    && k < next && k in g && g[k].klass in g && k in s.level && (g[k].singleton || s.level[k] == 0)
    && (if g[k].singleton then g[k].attached < k else Real(g[k].super).Of? ==> Real(g[k].super).c < k)
  }

  ghost predicate Closed(g: Graph, s: Shape, next: Ref) {
    && (forall k {:trigger KnownAt(g, s, next, k)} :: k in g ==> KnownAt(g, s, next, k))
    && (forall k {:trigger HasMeta(g, k)} :: k in s.pending ==> HasMeta(g, k))
  }

  ghost predicate Inv(g: Graph, s: Shape, next: Ref) {
    TopChain(g, s) && Attached(g, s) && Klasses(g, s) && Supers(g, s) && Parallel(g, s, s.top[0]) && Closed(g, s, next)
  }

  /** Nothing is being made. */
  ghost predicate Settled(g: Graph, s: Shape, next: Ref) { Inv(g, s, next) && s.pending == {} }

  /** Classes of level n that have no metaclass yet: what making one uses up. */
  ghost function Bare(g: Graph, s: Shape, n: nat): (r: set<Ref>) {
    set k | k in g && k in s.level && s.level[k] == n && !HasMeta(g, k)
  }

  /** What making metaclasses of level-n classes leaves as it was: everything but the class of
      level-n classes that had no metaclass. */
  ghost predicate KeptAt(g: Graph, s: Shape, g': Graph, s': Shape, n: nat, k: Ref) {
    && k in g && k in g' && k in s.level && k in s'.level && s'.level[k] == s.level[k]
    && g'[k] == g[k].(klass := g'[k].klass)
    && (HasMeta(g, k) || s.level[k] != n ==> g'[k] == g[k])
  }

  ghost predicate BornAt(s': Shape, n: nat, k: Ref) { k in s'.level && s'.level[k] == n + 1 }

  ghost predicate Grown(g: Graph, s: Shape, g': Graph, s': Shape, n: nat) {
    && (forall k {:trigger KeptAt(g, s, g', s', n, k)} :: k in g ==> KeptAt(g, s, g', s', n, k))
    && (forall k {:trigger BornAt(s', n, k)} :: k in g' && k !in g ==> BornAt(s', n, k))
    && s.top <= s'.top
  }

  lemma GrownMeta(g: Graph, s: Shape, g': Graph, s': Shape, n: nat, k: Ref)
    requires Grown(g, s, g', s', n) && HasMeta(g, k)
    ensures HasMeta(g', k) && g'[k] == g[k]
  {
    assert KeptAt(g, s, g', s', n, k) && KeptAt(g, s, g', s', n, g[k].klass);
  }

  lemma GrownTrans(g: Graph, s: Shape, g1: Graph, s1: Shape, g2: Graph, s2: Shape, n: nat)
    requires Grown(g, s, g1, s1, n) && Grown(g1, s1, g2, s2, n)
    ensures Grown(g, s, g2, s2, n)
  {
    forall k | k in g ensures KeptAt(g, s, g2, s2, n, k) {
      assert KeptAt(g, s, g1, s1, n, k) && KeptAt(g1, s1, g2, s2, n, k);
      if HasMeta(g, k) { GrownMeta(g, s, g1, s1, n, k); }
    }
    forall k | k in g2 && k !in g ensures BornAt(s2, n, k) {
      if k in g1 { assert BornAt(s1, n, k) && KeptAt(g1, s1, g2, s2, n, k); }
    }
  }

  lemma GrownBare(g: Graph, s: Shape, g': Graph, s': Shape, n: nat)
    requires Grown(g, s, g', s', n)
    ensures Bare(g', s', n) <= Bare(g, s, n)
  {
    forall k | k in Bare(g', s', n) ensures k in Bare(g, s, n) {
      assert k !in g ==> BornAt(s', n, k);
      assert KeptAt(g, s, g', s', n, k);
      if HasMeta(g, k) { GrownMeta(g, s, g', s', n, k); }
    }
  }

  // ----- the steps of make_metaclass, on values

  /** rb_class_boot, FL_SINGLETON, the attached object, and SET_METACLASS_OF(klass, metaclass);
      `own` is the case in which the new metaclass is made its own class. */
  function Start(g: Graph, k: Ref, m: Ref, cClass: Ref, own: bool): (g': Graph)
    requires k in g
  {
    g[m := RClass(if own then m else cClass, Undef, true, k)][k := g[k].(klass := m)]
  }

  ghost function StartShape(s: Shape, k: Ref, m: Ref, own: bool): (s': Shape)
    requires k in s.level
  {
    Shape(s.level[m := s.level[k] + 1], if own then s.top + [m] else s.top, s.pending + {k})
  }

  ghost predicate PendingAt(s: Shape, n: nat) { forall p :: p in s.pending ==> p in s.level && s.level[p] == n }

  /** When make_metaclass may be called: the class has no metaclass, and those being made are on its level. */
  ghost predicate Ready(g: Graph, s: Shape, k: Ref) {
    && k in g && k in s.level && !HasMeta(g, k) && !Unfinished(g, s, k)
    && PendingAt(s, s.level[k])
  }

  /** A class without a metaclass is on the chain of Classes exactly when it is its own class. */
  lemma BareTop(g: Graph, s: Shape, next: Ref, k: Ref)
    requires Inv(g, s, next) && Ready(g, s, k)
    ensures s.level[k] < |s.top| && g[k].klass == s.top[s.level[k]]
    ensures g[k].klass == k ==> s.level[k] == |s.top| - 1
    ensures g[k].klass != k ==> k !in s.top
  {
    hide Attached, Supers, Parallel;
    assert KlassAt(g, s, k);
    assert TopAt(g, s, s.level[k]);
    forall i: nat | i < |s.top| && s.top[i] == k ensures i == s.level[k] { assert TopAt(g, s, i); }
  }

  lemma Fresh(g: Graph, s: Shape, next: Ref)
    requires Closed(g, s, next)
    ensures next !in g
  {
    assert next in g ==> KnownAt(g, s, next, next);
  }

  lemma StartMeta(g: Graph, s: Shape, next: Ref, k: Ref, own: bool, x: Ref)
    requires Closed(g, s, next) && Ready(g, s, k) && x in g && |s.top| > 0
    ensures var g' := Start(g, k, next, s.top[0], own);
            HasMeta(g', x) <==> HasMeta(g, x) || x == k
  {
    assert KnownAt(g, s, next, x) && KnownAt(g, s, next, k);
    Fresh(g, s, next);
  }

  /** The new metaclass has none itself. */
  lemma BareNew(g: Graph, s: Shape, next: Ref, k: Ref, own: bool)
    requires Closed(g, s, next) && Ready(g, s, k) && |s.top| > 0 && Attached(g, s)
    ensures !HasMeta(Start(g, k, next, s.top[0], own), next)
  {
    Fresh(g, s, next);
    var m := if own then next else s.top[0];
    if m in g && g[m].singleton { assert AttachedAt(g, s, m); }
    assert KnownAt(g, s, next, k);
  }

  lemma StartTop(g: Graph, s: Shape, next: Ref, k: Ref, own: bool)
    requires Inv(g, s, next) && Ready(g, s, k) && (own <==> g[k].klass == k)
    ensures TopChain(Start(g, k, next, s.top[0], own), StartShape(s, k, next, own))
  {
    BareTop(g, s, next, k);
    hide Attached, Klasses, Supers, Parallel;
    var g', s' := Start(g, k, next, s.top[0], own), StartShape(s, k, next, own);
    assert KnownAt(g, s, next, k);
    forall i: nat | i < |s'.top| ensures TopAt(g', s', i) {
      if i < |s.top| {
        assert TopAt(g, s, i);
        assert KnownAt(g, s, next, s.top[i]);
        StartMeta(g, s, next, k, own, s.top[i]);
      }
    }
  }

  lemma StartAttached(g: Graph, s: Shape, next: Ref, k: Ref, own: bool)
    requires Attached(g, s) && Closed(g, s, next) && |s.top| > 0 && Ready(g, s, k)
    ensures Attached(Start(g, k, next, s.top[0], own), StartShape(s, k, next, own))
  {
    var g', s' := Start(g, k, next, s.top[0], own), StartShape(s, k, next, own);
    assert KnownAt(g, s, next, k);
    forall m | m in g' && g'[m].singleton ensures AttachedAt(g', s', m) {
      if m != next {
        assert AttachedAt(g, s, m);
        assert KnownAt(g, s, next, m) && KnownAt(g, s, next, g[m].attached);
      }
    }
  }

  lemma StartKlasses(g: Graph, s: Shape, next: Ref, k: Ref, own: bool)
    requires Klasses(g, s) && Closed(g, s, next) && |s.top| > 0 && Ready(g, s, k)
    ensures Klasses(Start(g, k, next, s.top[0], own), StartShape(s, k, next, own))
  {
    var g', s' := Start(g, k, next, s.top[0], own), StartShape(s, k, next, own);
    forall x | x in g' && !Unfinished(g', s', x) ensures KlassAt(g', s', x) {
      assert x in g && !Unfinished(g, s, x);
      assert KlassAt(g, s, x) && KnownAt(g, s, next, x);
      StartMeta(g, s, next, k, own, x);
    }
  }

  lemma StartSupers(g: Graph, s: Shape, next: Ref, k: Ref, own: bool)
    requires Supers(g, s) && Closed(g, s, next) && |s.top| > 0 && Ready(g, s, k)
    ensures Supers(Start(g, k, next, s.top[0], own), StartShape(s, k, next, own))
  {
    var g', s' := Start(g, k, next, s.top[0], own), StartShape(s, k, next, own);
    forall x | x in g' && !Unfinished(g', s', x) ensures SuperAt(g', s', x) {
      assert SuperAt(g, s, x) && KnownAt(g, s, next, x);
      match Real(g[x].super)
      case Of(c) => assert KnownAt(g, s, next, c);
      case _ =>
    }
  }

  lemma StartParallel(g: Graph, s: Shape, next: Ref, k: Ref, own: bool)
    requires |s.top| > 0 && Parallel(g, s, s.top[0]) && Closed(g, s, next) && Attached(g, s) && Ready(g, s, k)
    ensures Parallel(Start(g, k, next, s.top[0], own), StartShape(s, k, next, own), s.top[0])
  {
    var g', s' := Start(g, k, next, s.top[0], own), StartShape(s, k, next, own);
    forall x | HasMeta(g', x) && x !in s'.pending ensures ParallelAt(g', s.top[0], x) {
      if x == next { assert false by { BareNew(g, s, next, k, own); } }
      StartMeta(g, s, next, k, own, x);
      assert ParallelAt(g, s.top[0], x) && KnownAt(g, s, next, x) && KnownAt(g, s, next, g[x].klass);
      match Real(g[x].super)
      case Of(c) => StartMeta(g, s, next, k, own, c); Fresh(g, s, next);
      case _ =>
    }
  }

  lemma StartClosed(g: Graph, s: Shape, next: Ref, k: Ref, own: bool)
    requires Closed(g, s, next) && |s.top| > 0 && TopAt(g, s, 0) && Ready(g, s, k)
    ensures Closed(Start(g, k, next, s.top[0], own), StartShape(s, k, next, own), next + 1)
  {
    var g', s' := Start(g, k, next, s.top[0], own), StartShape(s, k, next, own);
    assert KnownAt(g, s, next, k);
    forall x | x in g' ensures KnownAt(g', s', next + 1, x) {
      if x != next { assert KnownAt(g, s, next, x); }
    }
    forall p | p in s'.pending ensures HasMeta(g', p) {
      assert p == k || HasMeta(g, p);
      StartMeta(g, s, next, k, own, p);
    }
  }

  lemma StartBare(g: Graph, s: Shape, next: Ref, k: Ref, own: bool)
    requires Closed(g, s, next) && |s.top| > 0 && Ready(g, s, k)
    ensures Bare(Start(g, k, next, s.top[0], own), StartShape(s, k, next, own), s.level[k]) < Bare(g, s, s.level[k])
  {
    var g', s' := Start(g, k, next, s.top[0], own), StartShape(s, k, next, own);
    forall x | x in Bare(g', s', s.level[k]) ensures x in Bare(g, s, s.level[k]) {
      if x != next { StartMeta(g, s, next, k, own, x); }
    }
    StartMeta(g, s, next, k, own, k);
    assert k in Bare(g, s, s.level[k]) && k !in Bare(g', s', s.level[k]);
  }

  /** Starting a metaclass keeps the invariant and uses up one bare class. */
  lemma StartKeeps(g: Graph, s: Shape, next: Ref, k: Ref, own: bool)
    requires Inv(g, s, next) && Ready(g, s, k) && (own <==> g[k].klass == k)
    ensures var g', s' := Start(g, k, next, s.top[0], own), StartShape(s, k, next, own);
            && Inv(g', s', next + 1)
            && Bare(g', s', s.level[k]) < Bare(g, s, s.level[k])
  {
    assert TopAt(g, s, 0);
    StartTop(g, s, next, k, own);
    hide TopAt, Attached, Klasses, Supers, Parallel, Closed, Start, Ready;
    StartAttached(g, s, next, k, own);
    StartKlasses(g, s, next, k, own);
    StartSupers(g, s, next, k, own);
    StartParallel(g, s, next, k, own);
    StartClosed(g, s, next, k, own);
    StartBare(g, s, next, k, own);
  }

  // ----- giving the metaclass its class and its superclass

  /** m is the metaclass of k, and still being made. */
  ghost predicate Making(g: Graph, s: Shape, k: Ref, m: Ref) {
    k in s.pending && HasMeta(g, k) && g[k].klass == m && !HasMeta(g, m) && m !in s.pending
  }

  ghost predicate SameMeta(g: Graph, g': Graph) {
    forall x {:trigger HasMeta(g', x)} {:trigger HasMeta(g, x)} :: HasMeta(g', x) <==> HasMeta(g, x)
  }

  function SetKlass(g: Graph, m: Ref, e: Ref): (g': Graph)
    requires m in g
  {
    g[m := g[m].(klass := e)]
  }

  /** SET_METACLASS_OF(metaclass, ...) keeps the invariant. */
  lemma SetKlassKeeps(g: Graph, s: Shape, next: Ref, k: Ref, m: Ref, e: Ref)
    requires Inv(g, s, next) && Making(g, s, k, m) && m !in s.top && e in g && g[e].attached != m
    ensures Inv(SetKlass(g, m, e), s, next) && Making(SetKlass(g, m, e), s, k, m)
  {
    var g' := SetKlass(g, m, e);
    assert SameMeta(g, g');
    assert TopChain(g', s) by {
      hide Attached, Klasses, Supers, Parallel;
      forall i: nat | i < |s.top| ensures TopAt(g', s, i) { assert TopAt(g, s, i); }
    }
    assert Attached(g', s) by {
      hide TopChain, Klasses, Supers, Parallel;
      forall x | x in g' && g'[x].singleton ensures AttachedAt(g', s, x) {
        assert AttachedAt(g, s, x);
        assert g[x].attached == m ==> HasMeta(g, m);
      }
    }
    hide TopChain, Attached;
    assert Klasses(g', s) by {
      hide Supers, Parallel;
      forall x | x in g' && !Unfinished(g', s, x) ensures KlassAt(g', s, x) { assert KlassAt(g, s, x); }
    }
    assert Supers(g', s) by {
      hide Klasses, Parallel;
      forall x | x in g' && !Unfinished(g', s, x) ensures SuperAt(g', s, x) { assert SuperAt(g, s, x); }
    }
    assert Parallel(g', s, s.top[0]) by {
      hide Klasses, Supers;
      forall x | HasMeta(g', x) && x !in s.pending ensures ParallelAt(g', s.top[0], x) {
        assert ParallelAt(g, s.top[0], x);
      }
    }
    forall x | x in g' ensures KnownAt(g', s, next, x) { assert KnownAt(g, s, next, x); }
  }

  function SetSuper(g: Graph, m: Ref, sup: Super): (g': Graph)
    requires m in g
  {
    g[m := g[m].(super := sup)]
  }

  ghost function Done(s: Shape, k: Ref): (s': Shape) { s.(pending := s.pending - {k}) }

  /** The superclass make_metaclass gives the metaclass of k. */
  ghost predicate RightSuper(g: Graph, cClass: Ref, k: Ref, sup: Ref) {
    k in g &&
    match Real(g[k].super)
    case NoSuper => sup == cClass
    case Of(c) => HasMeta(g, c) && sup == g[c].klass
    case _ => false
  }

  /** A Class with a metaclass is not the last of the chain. */
  lemma TopNext(g: Graph, s: Shape, i: nat)
    requires TopChain(g, s) && Attached(g, s) && i < |s.top| && HasMeta(g, s.top[i])
    ensures i + 1 < |s.top| && g[s.top[i]].klass == s.top[i + 1]
  {
    assert TopAt(g, s, i) && AttachedAt(g, s, g[s.top[i]].klass);
  }

  /** The superclass of the metaclass is where superclasses are. */
  lemma SuperLevel(g: Graph, s: Shape, next: Ref, k: Ref, m: Ref, sup: Ref)
    requires Inv(g, s, next) && Making(g, s, k, m) && RightSuper(g, s.top[0], k, sup) && SuperAt(g, s, k)
    ensures m in g && SuperAt(SetSuper(g, m, Of(sup)), Done(s, k), m)
  {
    hide Klasses, Supers, Parallel;
    assert AttachedAt(g, s, m) && TopAt(g, s, 0);
    match Real(g[k].super)
    case Of(c) =>
      assert AttachedAt(g, s, g[c].klass);
      if s.level[c] != s.level[k] {
        var i :| 0 <= i < |s.top| && s.top[i] == c;
        assert TopAt(g, s, i);
        TopNext(g, s, i);
      }
    case _ =>
  }

  lemma FinishParallel(g: Graph, s: Shape, next: Ref, k: Ref, m: Ref, sup: Ref)
    requires Inv(g, s, next) && Making(g, s, k, m) && RightSuper(g, s.top[0], k, sup)
    ensures m in g && Parallel(SetSuper(g, m, Of(sup)), Done(s, k), s.top[0])
  {
    hide TopAt, Attached, Klasses, Supers;
    var g', s' := SetSuper(g, m, Of(sup)), Done(s, k);
    assert SameMeta(g, g');
    forall x | HasMeta(g', x) && x !in s'.pending ensures ParallelAt(g', s.top[0], x) {
      assert x != k ==> ParallelAt(g, s.top[0], x);
      assert x != m;
    }
  }

  /** RCLASS_SET_SUPER(metaclass, ...) completes the metaclass. */
  lemma FinishKeeps(g: Graph, s: Shape, next: Ref, k: Ref, m: Ref, sup: Ref)
    requires Inv(g, s, next) && Making(g, s, k, m) && RightSuper(g, s.top[0], k, sup)
    requires SuperAt(g, s, k) && KlassAt(g, s, m)
    ensures m in g && Inv(SetSuper(g, m, Of(sup)), Done(s, k), next)
  {
    var g', s' := SetSuper(g, m, Of(sup)), Done(s, k);
    assert SameMeta(g, g');
    FinishParallel(g, s, next, k, m, sup);
    SuperLevel(g, s, next, k, m, sup);
    hide Parallel;
    assert TopChain(g', s') by {
      hide Attached, Klasses, Supers;
      forall i: nat | i < |s.top| ensures TopAt(g', s', i) { assert TopAt(g, s, i); }
    }
    hide TopChain;
    assert Attached(g', s') by {
      hide Klasses, Supers;
      forall x | x in g' && g'[x].singleton ensures AttachedAt(g', s', x) { assert AttachedAt(g, s, x); }
    }
    forall x | x in g' && !Unfinished(g', s', x) ensures x == m || !Unfinished(g, s, x) {
      assert g[x].singleton ==> AttachedAt(g, s, x);
    }
    hide Attached;
    assert Klasses(g', s') by {
      hide Supers;
      forall x | x in g' && !Unfinished(g', s', x) ensures KlassAt(g', s', x) {
        assert x == m || !Unfinished(g, s, x);
        assert KlassAt(g, s, x);
      }
    }
    assert Supers(g', s') by {
      hide Klasses;
      forall x | x in g' && !Unfinished(g', s', x) ensures SuperAt(g', s', x) {
        assert x == m || !Unfinished(g, s, x);
        assert x != m ==> SuperAt(g, s, x);
      }
    }
    forall x | x in g' ensures KnownAt(g', s', next, x) { assert KnownAt(g, s, next, x); }
  }

  // ----- other changes to the hierarchy

  /** rb_class_boot(super) for an ordinary class: nothing else changes. */
  lemma NewClassKeeps(g: Graph, s: Shape, next: Ref, super: Super)
    requires Settled(g, s, next)
    requires Real(super).NoSuper? ||
             (Real(super).Of? && Real(super).c in g && Real(super).c in s.level && s.level[Real(super).c] == 0)
    ensures Settled(g[next := RClass(s.top[0], super, false, 0)], s.(level := s.level[next := 0]), next + 1)
    ensures !HasMeta(g[next := RClass(s.top[0], super, false, 0)], next)
  {
    Fresh(g, s, next);
    assert TopAt(g, s, 0);
    var g', s' := g[next := RClass(s.top[0], super, false, 0)], s.(level := s.level[next := 0]);
    assert !HasMeta(g', next) by {
      hide Klasses, Supers, Parallel;
      assert g[s.top[0]].singleton ==> AttachedAt(g, s, s.top[0]);
    }
    forall x | x in g ensures HasMeta(g', x) <==> HasMeta(g, x) { assert KnownAt(g, s, next, x); }
    assert TopChain(g', s') by {
      hide Attached, Klasses, Supers, Parallel;
      forall i: nat | i < |s.top| ensures TopAt(g', s', i) { assert TopAt(g, s, i); }
    }
    hide TopChain;
    assert Attached(g', s') by {
      hide Klasses, Supers, Parallel;
      forall x | x in g' && g'[x].singleton ensures AttachedAt(g', s', x) { assert AttachedAt(g, s, x); }
    }
    hide Attached;
    assert Klasses(g', s') by {
      hide Supers, Parallel;
      forall x | x in g' ensures KlassAt(g', s', x) { assert x != next ==> KlassAt(g, s, x); }
    }
    assert Supers(g', s') by {
      hide Klasses, Parallel;
      forall x | x in g' ensures SuperAt(g', s', x) { assert x != next ==> SuperAt(g, s, x); }
    }
    assert Parallel(g', s', s.top[0]) by {
      hide Klasses, Supers;
      forall x | HasMeta(g', x) ensures ParallelAt(g', s.top[0], x) {
        assert x in g && ParallelAt(g, s.top[0], x);
        match Real(g[x].super)
        case Of(c) => assert HasMeta(g, c);
        case _ =>
      }
    }
    assert Real(super).Of? ==> KnownAt(g, s, next, Real(super).c);
    forall x | x in g' ensures KnownAt(g', s', next + 1, x) { assert x != next ==> KnownAt(g, s, next, x); }
  }

  /** A module included in k, at any place among those k has: the classes do not change. */
  function Insert(s: Super, depth: nat): (r: Super)
    ensures Real(r) == Real(s)
  {
    if depth > 0 && s.Include? then Include(Insert(s.rest, depth - 1)) else Include(s)
  }

  lemma IncludeKeeps(g: Graph, s: Shape, next: Ref, k: Ref, super: Super)
    requires Inv(g, s, next) && k in g && Real(super) == Real(g[k].super)
    ensures Inv(SetSuper(g, k, super), s, next)
  {
    var g' := SetSuper(g, k, super);
    assert SameMeta(g, g');
    assert TopChain(g', s) by {
      hide Attached, Klasses, Supers, Parallel;
      forall i: nat | i < |s.top| ensures TopAt(g', s, i) { assert TopAt(g, s, i); }
    }
    hide TopChain;
    assert Attached(g', s) by {
      hide Klasses, Supers, Parallel;
      forall x | x in g' && g'[x].singleton ensures AttachedAt(g', s, x) { assert AttachedAt(g, s, x); }
    }
    hide Attached;
    assert Klasses(g', s) by {
      hide Supers, Parallel;
      forall x | x in g' && !Unfinished(g', s, x) ensures KlassAt(g', s, x) { assert KlassAt(g, s, x); }
    }
    assert Supers(g', s) by {
      hide Klasses, Parallel;
      forall x | x in g' && !Unfinished(g', s, x) ensures SuperAt(g', s, x) { assert SuperAt(g, s, x); }
    }
    assert Parallel(g', s, s.top[0]) by {
      hide Klasses, Supers;
      forall x | HasMeta(g', x) && x !in s.pending ensures ParallelAt(g', s.top[0], x) {
        assert ParallelAt(g, s.top[0], x);
      }
    }
    forall x | x in g' ensures KnownAt(g', s, next, x) { assert KnownAt(g, s, next, x); }
  }

  // ----- what the recursion of make_metaclass needs

  /** A class on the level of those in the making is not itself in the making. */
  lemma ReadyAt(g: Graph, s: Shape, c: Ref, n: nat)
    requires Attached(g, s) && c in g && c in s.level && s.level[c] == n && PendingAt(s, n)
    ensures HasMeta(g, c) || Ready(g, s, c)
  {
    assert g[c].singleton ==> AttachedAt(g, s, c);
  }

  lemma GrownRefl(g: Graph, s: Shape, next: Ref, n: nat)
    requires Closed(g, s, next)
    ensures Grown(g, s, g, s, n)
  {
    forall k | k in g ensures KeptAt(g, s, g, s, n, k) { assert KnownAt(g, s, next, k); }
  }

  lemma StartGrown(g: Graph, s: Shape, next: Ref, k: Ref, own: bool)
    requires Closed(g, s, next) && |s.top| > 0 && Ready(g, s, k)
    ensures Grown(g, s, Start(g, k, next, s.top[0], own), StartShape(s, k, next, own), s.level[k])
  {
    var g', s' := Start(g, k, next, s.top[0], own), StartShape(s, k, next, own);
    forall x | x in g ensures KeptAt(g, s, g', s', s.level[k], x) { assert KnownAt(g, s, next, x); }
    forall x | x in g' && x !in g ensures BornAt(s', s.level[k], x) {}
  }

  lemma GrownDone(g: Graph, s: Shape, g': Graph, s': Shape, n: nat, k: Ref)
    requires Grown(g, s, g', s', n)
    ensures Grown(g, s, g', Done(s', k), n)
  {
    forall x | x in g ensures KeptAt(g, s, g', Done(s', k), n, x) { assert KeptAt(g, s, g', s', n, x); }
    forall x | x in g' && x !in g ensures BornAt(Done(s', k), n, x) { assert BornAt(s', n, x); }
  }

  /** Only m may have changed in other ways too. */
  ghost predicate GrownBut(g: Graph, s: Shape, g': Graph, s': Shape, n: nat, m: Ref) {
    && m in g && m in g' && m in s'.level && s'.level[m] == n + 1
    && Grown(g, s, g'[m := g[m]], s', n)
  }

  /** What happens to a class made meanwhile does not matter. */
  lemma GrownOver(g: Graph, s: Shape, g1: Graph, s1: Shape, g2: Graph, s2: Shape, n: nat, m: Ref)
    requires Grown(g, s, g1, s1, n) && m !in g && GrownBut(g1, s1, g2, s2, n, m)
    ensures Grown(g, s, g2, s2, n)
  {
    var h := g2[m := g1[m]];
    GrownTrans(g, s, g1, s1, h, s2, n);
    forall x | x in g ensures KeptAt(g, s, g2, s2, n, x) { assert KeptAt(g, s, h, s2, n, x); }
    forall x | x in g2 && x !in g ensures BornAt(s2, n, x) { assert x in h ==> BornAt(s2, n, x); }
  }

  /** What make_metaclass knows of its half-made metaclass m of k, on level n. */
  ghost predicate HalfMade(g: Graph, s: Shape, k: Ref, m: Ref, n: nat) {
    && Making(g, s, k, m) && PendingAt(s, n)
    && k in s.level && s.level[k] == n && m in s.level && s.level[m] == n + 1 && !Unfinished(g, s, k)
  }

  lemma MakingGrown(g: Graph, s: Shape, g': Graph, s': Shape, next: Ref, n: nat, k: Ref, m: Ref)
    requires Closed(g, s, next) && Grown(g, s, g', s', n) && s'.pending == s.pending && HalfMade(g, s, k, m, n)
    ensures HalfMade(g', s', k, m, n) && g'[m] == g[m] && g'[k] == g[k]
    ensures KlassAt(g, s, m) ==> KlassAt(g', s', m)
  {
    assert KnownAt(g, s, next, m);
    forall p | p in s.pending ensures p in s'.level && s'.level[p] == n {
      assert HasMeta(g, p);
      assert KeptAt(g, s, g', s', n, p);
    }
    GrownMeta(g, s, g', s', n, k);
    assert KeptAt(g, s, g', s', n, m) && KeptAt(g, s, g', s', n, g[m].klass);
  }

  /** The class that make_metaclass calls tmp is its level's Class, and can be given a metaclass. */
  lemma TmpReady(g: Graph, s: Shape, next: Ref, k: Ref)
    requires Inv(g, s, next) && Ready(g, s, k) && g[k].klass != k
    ensures s.level[k] < |s.top| && g[k].klass == s.top[s.level[k]]
    ensures var g', s' := Start(g, k, next, s.top[0], false), StartShape(s, k, next, false);
            && g[k].klass in g' && g[k].klass in s'.level && s'.level[g[k].klass] == s.level[k]
  {
    BareTop(g, s, next, k);
    hide Attached, Klasses, Supers, Parallel;
    assert TopAt(g, s, s.level[k]);
    Fresh(g, s, next);
  }

  /** Once tmp has its metaclass, that is the next Class of the chain, and m is not on the chain. */
  lemma TmpDone(g: Graph, s: Shape, k: Ref, m: Ref, n: nat)
    requires TopChain(g, s) && Attached(g, s) && HalfMade(g, s, k, m, n)
    requires n < |s.top| && HasMeta(g, s.top[n]) && s.top[n] != k
    ensures n + 1 < |s.top| && g[s.top[n]].klass == s.top[n + 1]
    ensures m !in s.top && g[s.top[n + 1]].attached != m
  {
    TopNext(g, s, n);
    assert TopAt(g, s, n);
    forall i: nat | i < |s.top| ensures s.top[i] != m { assert TopAt(g, s, i); }
  }

  /** The metaclass just started is in the making. */
  lemma StartMaking(g: Graph, s: Shape, next: Ref, k: Ref, own: bool)
    requires Inv(g, s, next) && Ready(g, s, k)
    ensures var g', s' := Start(g, k, next, s.top[0], own), StartShape(s, k, next, own);
            && HalfMade(g', s', k, next, s.level[k])
            && (own && g[k].klass == k ==> KlassAt(g', s', next))
  {
    BareTop(g, s, next, k);
    hide Klasses, Supers, Parallel;
    assert g[k].singleton ==> AttachedAt(g, s, k);
    assert TopAt(g, s, 0);
    StartMeta(g, s, next, k, own, k);
    BareNew(g, s, next, k, own);
    Fresh(g, s, next);
    forall p | p in s.pending ensures p in g { assert HasMeta(g, p); }
  }

  /** Where make_metaclass looks for the superclass's metaclass. */
  lemma SuperReady(g: Graph, s: Shape, k: Ref, c: Ref)
    requires TopChain(g, s) && Attached(g, s) && SuperAt(g, s, k) && Real(g[k].super) == Of(c)
    requires k in s.level && PendingAt(s, s.level[k]) && s.level[k] < |s.top|
    ensures c in g && c in s.level && (HasMeta(g, c) || (s.level[c] == s.level[k] && Ready(g, s, c)))
  {
    if s.level[c] == s.level[k] {
      ReadyAt(g, s, c, s.level[k]);
    } else {
      var i :| 0 <= i < |s.top| && s.top[i] == c;
      assert TopAt(g, s, i);
    }
  }

  /** Making a metaclass of k uses k up, whatever else is made meanwhile. */
  lemma HalfBare(g: Graph, s: Shape, g': Graph, s': Shape, k: Ref, m: Ref, n: nat)
    requires Grown(g, s, g', s', n) && HalfMade(g', s', k, m, n) && Ready(g, s, k) && s.level[k] == n
    ensures Bare(g', s', n) < Bare(g, s, n)
  {
    GrownBare(g, s, g', s', n);
    assert k in Bare(g, s, n) && k !in Bare(g', s', n);
  }

  // ----- what a caller sees

  /** The superclass argument: a class, or NULL. */
  datatype Parent = From(c: Ref) | Default

  datatype Result = Class(c: Ref) | TypeError

  /** The metaclass hierarchy is parallel to the class hierarchy. */
  ghost predicate Tower(g: Graph, cClass: Ref) {
    forall k {:trigger ParallelAt(g, cClass, k)} :: HasMeta(g, k) ==> ParallelAt(g, cClass, k)
  }

  /** The n-th superclass, past included modules. */
  ghost function Up(g: Graph, k: Ref, n: nat): (r: Super)
    decreases n
  {
    if n == 0 then Of(k)
    else if k !in g then Undef
    else match Real(g[k].super)
      case Of(c) => Up(g, c, n - 1)
      case other => if n == 1 then other else Undef
  }

  /** So a metaclass's ancestors are the metaclasses of the class's ancestors, as far as these go,
      and then Class. */
  lemma {:induction false} MetaAncestors(g: Graph, cClass: Ref, k: Ref, n: nat)
    requires Tower(g, cClass) && HasMeta(g, k)
    ensures Up(g, k, n).Of? ==> HasMeta(g, Up(g, k, n).c) && Up(g, g[k].klass, n) == Of(g[Up(g, k, n).c].klass)
    ensures Up(g, k, n).NoSuper? ==> Up(g, g[k].klass, n) == Of(cClass)
    decreases n
  {
    if n > 0 {
      assert ParallelAt(g, cClass, k);
      match Real(g[k].super)
      case Of(c) => MetaAncestors(g, cClass, c, n - 1);
      case _ =>
    }
  }

  /** Something that superclasses have less of. */
  ghost function Rank(g: Graph, cClass: Ref, k: Ref): (r: nat)
    decreases k
  {
    if k in g && g[k].singleton && g[k].attached < k then Rank(g, cClass, g[k].attached) + cClass + 1 else k
  }

  lemma NotSingleton(g: Graph, s: Shape, next: Ref, k: Ref)
    requires Closed(g, s, next) && Attached(g, s) && k in g
    ensures k in s.level && (g[k].singleton <==> s.level[k] > 0)
  {
    assert KnownAt(g, s, next, k);
    if g[k].singleton { assert AttachedAt(g, s, k); }
  }

  lemma {:induction false} RankFalls(g: Graph, s: Shape, next: Ref, k: Ref)
    requires Settled(g, s, next) && k in g && Real(g[k].super).Of?
    ensures Real(g[k].super).c in g && Rank(g, s.top[0], Real(g[k].super).c) < Rank(g, s.top[0], k)
    decreases k
  {
    hide Klasses, Supers, Parallel, Attached, Closed;
    var c := Real(g[k].super).c;
    RankFacts(g, s, next, k);
    NotSingleton(g, s, next, k);
    NotSingleton(g, s, next, c);
    if g[k].singleton {
      var a := g[k].attached;
      if Real(g[a].super).Of? { RankFalls(g, s, next, a); }
    }
  }

  lemma RankFacts(g: Graph, s: Shape, next: Ref, k: Ref)
    requires Settled(g, s, next) && k in g && Real(g[k].super).Of?
    ensures SuperAt(g, s, k) && KnownAt(g, s, next, k) && s.top[0] in g && !g[s.top[0]].singleton
    ensures g[k].singleton ==>
              var a := g[k].attached;
              && a in g && a < k && ParallelAt(g, s.top[0], a) && g[a].klass == k
              && (Real(g[a].super).Of? ==>
                    var m := g[Real(g[a].super).c].klass;
                    m in g && g[m].singleton && g[m].attached == Real(g[a].super).c && g[m].attached < m)
  {
    assert SuperAt(g, s, k) && KnownAt(g, s, next, k) && TopAt(g, s, 0);
    NotSingleton(g, s, next, s.top[0]);
    if g[k].singleton {
      assert AttachedAt(g, s, k);
      var a := g[k].attached;
      assert ParallelAt(g, s.top[0], a);
      if Real(g[a].super).Of? { assert KnownAt(g, s, next, g[Real(g[a].super).c].klass); }
    }
  }

  /** The superclasses of k come to an end. */
  ghost predicate ChainEnds(g: Graph, k: Ref) { exists n: nat :: Up(g, k, n) == NoSuper }

  lemma {:induction false} SuperChain(g: Graph, s: Shape, next: Ref, k: Ref) returns (n: nat)
    requires Settled(g, s, next) && k in g
    ensures Up(g, k, n) == NoSuper
    decreases Rank(g, s.top[0], k)
  {
    hide Klasses, Parallel, Attached, Closed, TopChain, Rank;
    assert SuperAt(g, s, k);
    if Real(g[k].super).Of? {
      RankFalls(g, s, next, k);
      var c := Real(g[k].super).c;
      n := SuperChain(g, s, next, c);
      assert Up(g, k, n + 1) == Up(g, c, n);
      n := n + 1;
    } else {
      n := 1;
    }
  }

  /** The chain of a metaclass runs beside that of its class to the end, and then comes to Class. */
  lemma MetaChain(g: Graph, s: Shape, next: Ref, k: Ref) returns (n: nat)
    requires Settled(g, s, next) && HasMeta(g, k)
    ensures Up(g, k, n) == NoSuper && Up(g, g[k].klass, n) == Of(s.top[0])
  {
    hide Klasses, Supers, Attached, Closed;
    n := SuperChain(g, s, next, k);
    MetaAncestors(g, s.top[0], k, n);
  }

  /** Classes stay what they were, but for getting a metaclass once. */
  ghost predicate Extends(g: Graph, g': Graph) {
    forall k {:trigger k in g} :: k in g ==>
      k in g' && g'[k] == g[k].(klass := g'[k].klass) && (HasMeta(g, k) ==> HasMeta(g', k) && g'[k] == g[k])
  }

  lemma ExtendsRefl(g: Graph)
    ensures Extends(g, g)
  {
  }

  lemma ExtendsTrans(g: Graph, g1: Graph, g2: Graph)
    requires Extends(g, g1) && Extends(g1, g2)
    ensures Extends(g, g2)
  {
  }

  lemma GrownExtends(g: Graph, s: Shape, g': Graph, s': Shape, n: nat)
    requires Grown(g, s, g', s', n)
    ensures Extends(g, g')
  {
    forall k | k in g
      ensures k in g' && g'[k] == g[k].(klass := g'[k].klass) && (HasMeta(g, k) ==> HasMeta(g', k) && g'[k] == g[k])
    {
      assert KeptAt(g, s, g', s', n, k);
      if HasMeta(g, k) { GrownMeta(g, s, g', s', n, k); }
    }
  }

  class Hierarchy {
    var classes: Graph
    var next: Ref
    var cObject: Ref
    var cClass: Ref
    ghost var shape: Shape

    ghost predicate Consistent()
      reads this
    {
      Inv(classes, shape, next) && cClass == shape.top[0]
    }

    ghost predicate Valid()
      reads this
    {
      Consistent() && shape.pending == {} && cObject in classes && !classes[cObject].singleton && cObject != cClass
    }

    /** ENSURE_EIGENCLASS */
    method EnsureEigenclass(c: Ref, ghost n: nat) returns (e: Ref)
      requires Consistent() && c in classes
      requires HasMeta(classes, c) || (Ready(classes, shape, c) && shape.level[c] == n)
      modifies this`classes, this`next, this`shape
      ensures Consistent() && shape.pending == old(shape.pending)
      ensures Grown(old(classes), old(shape), classes, shape, n)
      ensures HasMeta(classes, c) && e == classes[c].klass
      decreases Bare(classes, shape, n), 1
    {
      if HasMeta(classes, c) {
        GrownRefl(classes, shape, next, n);
        e := classes[c].klass;
      } else {
        e := MakeMetaclass(c);
      }
    }

    /** SET_METACLASS_OF(metaclass, ENSURE_EIGENCLASS(tmp)) */
    method GiveClass(k: Ref, m: Ref, tmp: Ref, ghost n: nat)
      requires Consistent() && HalfMade(classes, shape, k, m, n)
      requires n < |shape.top| && tmp == shape.top[n] && tmp != k
      modifies this`classes, this`next, this`shape
      ensures Consistent() && HalfMade(classes, shape, k, m, n) && KlassAt(classes, shape, m)
      ensures shape.pending == old(shape.pending) && GrownBut(old(classes), old(shape), classes, shape, n, m)
      decreases Bare(classes, shape, n), 2
    {
      hide Grown, Bare, Supers, Parallel, Klasses;
      ghost var g1, s1, next1 := classes, shape, next;
      assert TopAt(classes, shape, n);
      ReadyAt(classes, shape, tmp, n);
      var e := EnsureEigenclass(tmp, n);
      MakingGrown(g1, s1, classes, shape, next1, n, k, m);
      TmpDone(classes, shape, k, m, n);
      SetKlassKeeps(classes, shape, next, k, m, e);
      ghost var g2 := classes;
      classes := SetKlass(classes, m, e);
      assert classes[m := g1[m]] == g2;
    }

    /** RCLASS_SET_SUPER(metaclass, ...), past the modules included in k */
    method GiveSuper(k: Ref, m: Ref, ghost n: nat)
      requires Consistent() && HalfMade(classes, shape, k, m, n) && KlassAt(classes, shape, m)
      modifies this`classes, this`next, this`shape
      ensures Consistent() && shape.pending == old(shape.pending) - {k}
      ensures HasMeta(classes, k) && classes[k].klass == m
      ensures GrownBut(old(classes), old(shape), classes, shape, n, m)
      decreases Bare(classes, shape, n), 2
    {
      hide Grown, Bare, Parallel, Klasses;
      ghost var g1, s1, next1 := classes, shape, next;
      assert SuperAt(classes, shape, k);
      var sup := cClass;
      match Real(classes[k].super) {
        case NoSuper => GrownRefl(classes, shape, next, n);
        case Of(c) =>
          SuperReady(classes, shape, k, c);
          sup := EnsureEigenclass(c, n);
          MakingGrown(g1, s1, classes, shape, next1, n, k, m);
        case _ => assert false;
      }
      assert SuperAt(classes, shape, k);
      FinishKeeps(classes, shape, next, k, m, sup);
      ghost var g2 := classes;
      GrownDone(g1, s1, classes, shape, n, k);
      classes, shape := SetSuper(classes, m, Of(sup)), Done(shape, k);
      assert classes[m := g1[m]] == g2;
    }

    /** make_metaclass */
    method MakeMetaclass(k: Ref) returns (m: Ref)
      requires Consistent() && Ready(classes, shape, k)
      modifies this`classes, this`next, this`shape
      ensures Consistent() && shape.pending == old(shape.pending)
      ensures Grown(old(classes), old(shape), classes, shape, old(shape.level[k]))
      ensures HasMeta(classes, k) && m == classes[k].klass && m == old(next)
      decreases Bare(classes, shape, shape.level[k]), 0
    {
      ghost var g0, s0, n := classes, shape, shape.level[k];
      m := next;
      var own := classes[k].klass == k;
      var tmp := classes[k].klass;
      Fresh(classes, shape, next);
      StartKeeps(classes, shape, next, k, own);
      StartGrown(classes, shape, next, k, own);
      StartMaking(classes, shape, next, k, own);
      if !own { TmpReady(classes, shape, next, k); }
      hide Grown, Bare, Inv, Start, HalfMade, GrownBut;
      classes, shape, next := Start(classes, k, m, cClass, own), StartShape(shape, k, m, own), next + 1;
      ghost var g1, s1 := classes, shape;
      if !own {
        GiveClass(k, m, tmp, n);
        GrownOver(g0, s0, g1, s1, classes, shape, n, m);
        HalfBare(g0, s0, classes, shape, k, m, n);
      }
      ghost var g2, s2 := classes, shape;
      GiveSuper(k, m, n);
      GrownOver(g0, s0, g2, s2, classes, shape, n, m);
    }
  
    /** Init_class_hierarchy: BasicObject, Object, Module and Class, all instances of Class. */
    constructor ()
      ensures Valid() && classes.Keys == {0, 1, 2, 3} && cObject == 1 && cClass == 3
      ensures classes[0] == RClass(3, NoSuper, false, 0) && classes[1] == RClass(3, Of(0), false, 0)
      ensures classes[2] == RClass(3, Of(1), false, 0) && classes[3] == RClass(3, Of(2), false, 0)
    {
      classes := map[0 := RClass(3, NoSuper, false, 0), 1 := RClass(3, Of(0), false, 0),
                     2 := RClass(3, Of(1), false, 0), 3 := RClass(3, Of(2), false, 0)];
      shape := Shape(map[0 := 0, 1 := 0, 2 := 0, 3 := 0], [3], {});
      next, cObject, cClass := 4, 1, 3;
    }

    /** rb_define_class_id.  No superclass means Object; what rb_check_inheritable refuses is a TypeError. */
    method DefineClass(super: Parent) returns (r: Result)
      requires Valid()
      modifies this`classes, this`next, this`shape
      ensures Valid() && Extends(old(classes), classes)
      ensures var c := if super.From? then super.c else cObject;
              if c !in old(classes) || old(classes)[c].singleton || c == cClass then
                r == TypeError && classes == old(classes)
              else
                r.Class? && r.c !in old(classes) && HasMeta(classes, r.c) && classes[r.c].super == Of(c)
                && HasMeta(classes, c) && Real(classes[classes[r.c].klass].super) == Of(classes[c].klass)
    {
      var c := if super.From? then super.c else cObject;
      if c !in classes || classes[c].singleton || c == cClass {
        ExtendsRefl(classes);
        return TypeError;
      }
      ghost var g0, s0 := classes, shape;
      Fresh(classes, shape, next);
      assert KnownAt(classes, shape, next, c);
      NewClassKeeps(classes, shape, next, Of(c));
      var k := next;
      classes, shape, next := classes[next := RClass(cClass, Of(c), false, 0)], shape.(level := shape.level[next := 0]), next + 1;
      assert Extends(g0, classes);
      ghost var g1, s1 := classes, shape;
      var m := MakeMetaclass(k);
      GrownExtends(g1, s1, classes, shape, 0);
      ExtendsTrans(g0, g1, classes);
      assert ParallelAt(classes, cClass, k);
      r := Class(k);
    }

    /** rb_singleton_class of a class: the singleton class has one too. */
    method SingletonClass(k: Ref) returns (m: Ref)
      requires Valid() && k in classes
      modifies this`classes, this`next, this`shape
      ensures Valid() && Extends(old(classes), classes)
      ensures HasMeta(classes, k) && m == classes[k].klass && HasMeta(classes, m)
      ensures HasMeta(old(classes), k) ==> m == old(classes)[k].klass
    {
      assert KnownAt(classes, shape, next, k);
      ghost var g0, s0 := classes, shape;
      ReadyAt(classes, shape, k, shape.level[k]);
      m := EnsureEigenclass(k, shape.level[k]);
      GrownExtends(g0, s0, classes, shape, s0.level[k]);
      ghost var g1, s1 := classes, shape;
      assert KnownAt(classes, shape, next, m);
      ReadyAt(classes, shape, m, shape.level[m]);
      var e := EnsureEigenclass(m, shape.level[m]);
      GrownExtends(g1, s1, classes, shape, s1.level[m]);
      GrownMeta(g1, s1, classes, shape, s1.level[m], k);
      ExtendsTrans(g0, g1, classes);
    }

    /** A module put among those included in k: include_modules_at. */
    method IncludeModule(k: Ref, depth: nat)
      requires Valid() && k in classes
      modifies this`classes
      ensures Valid() && classes == old(classes)[k := old(classes)[k].(super := Insert(old(classes)[k].super, depth))]
    {
      IncludeKeeps(classes, shape, next, k, Insert(classes[k].super, depth));
      classes := SetSuper(classes, k, Insert(classes[k].super, depth));
    }
  }

  datatype Op = Define(super: Parent) | Singleton(k: Ref) | Mixin(k: Ref, depth: nat)

  /** From the boot hierarchy, any sequence of class definitions, singleton class requests and
      inclusions keeps the two hierarchies parallel. */
  method Run(ops: seq<Op>) returns (h: Hierarchy)
    ensures fresh(h) && h.Valid() && Tower(h.classes, h.cClass)
    ensures forall k :: k in h.classes ==> ChainEnds(h.classes, k)
  {
    h := new Hierarchy();
    for i := 0 to |ops|
      invariant fresh(h) && h.Valid()
    {
      match ops[i]
      case Define(super) => var _ := h.DefineClass(super);
      case Singleton(k) => if k in h.classes { var _ := h.SingletonClass(k); }
      case Mixin(k, depth) => if k in h.classes { h.IncludeModule(k, depth); }
    }
    hide TopAt, Attached, Klasses, Supers, Closed;
    forall k | k in h.classes ensures ChainEnds(h.classes, k) { var n := SuperChain(h.classes, h.shape, h.next, k); }
  }
}
