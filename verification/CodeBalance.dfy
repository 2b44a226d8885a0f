/** Generated code is balanced: one value more on the stack, or none when popped, and one depth per label. */
module CodeBalance {
  import opened Machine
  import opened Trees
  import opened CodeGen
  import opened CodeDepth
  import opened CodeShape

  /** No label from lo to hi has a depth yet. */
  ghost predicate Free(tab: map<nat, int>, lo: nat, hi: nat) { forall l :: lo <= l < hi ==> l !in tab }

  /** Only labels from lo to hi, or in ext, may have got a depth. */
  ghost predicate Same(tab: map<nat, int>, tab': map<nat, int>, lo: nat, hi: nat, ext: set<nat>) {
    forall l :: !(lo <= l < hi) && l !in ext ==> (l in tab <==> l in tab') && (l in tab ==> tab'[l] == tab[l])
  }

  /** The label has this depth, if any. */
  ghost predicate May(tab: map<nat, int>, l: nat, d: int) { l in tab ==> tab[l] == d }

  ghost predicate Balanced(code: Code, w: Walk, d: int, lo: nat, hi: nat) {
    Flow(code, w).Some? && BalancedTo(code, w, Flow(code, w).value, d, lo, hi)
  }

  ghost predicate BalancedTo(code: Code, w: Walk, v: Walk, d: int, lo: nat, hi: nat) {
    Flows(code, w, v) && v.sp == d && v.live && Same(w.tab, v.tab, lo, hi, {})
  }

  ghost predicate CondBalanced(code: Code, w: Walk, tl: nat, el: nat, lo: nat, hi: nat) {
    Flow(code, w).Some? && CondBalancedTo(code, w, Flow(code, w).value, tl, el, lo, hi)
  }

  ghost predicate CondBalancedTo(code: Code, w: Walk, v: Walk, tl: nat, el: nat, lo: nat, hi: nat) {
    && Flows(code, w, v) && v.sp == w.sp && Same(w.tab, v.tab, lo, hi, {tl, el})
    && May(v.tab, tl, w.sp) && May(v.tab, el, w.sp)
  }

  lemma {:induction false} CondBalance(c: Node, tl: nat, el: nat, next: nat, w: Walk)
    requires w.live && w.sp >= 0 && tl < next && el < next && May(w.tab, tl, w.sp) && May(w.tab, el, w.sp)
    requires Free(w.tab, next, GenCond(c, tl, el, next).next)
    ensures next <= GenCond(c, tl, el, next).next
    ensures CondBalanced(GenCond(c, tl, el, next).code, w, tl, el, next, GenCond(c, tl, el, next).next)
    decreases c, 1
  {
    match c
    case And(_, _) => BothBalance(c, tl, el, next, w);
    case Or(_, _) => BothBalance(c, tl, el, next, w);
    case Const(v) => JumpBalance(if Truthy(v) then tl else el, tl, el, next, w);
    case _ =>
      CondGrows(c, tl, el, next);
      GenBalance(c, false, next, w);
      TailBalance(Gen(c, false, next).code, tl, el, next, Gen(c, false, next).next, w);
  }

  lemma JumpBalance(l: nat, tl: nat, el: nat, next: nat, w: Walk)
    requires w.live && w.sp >= 0 && May(w.tab, tl, w.sp) && May(w.tab, el, w.sp) && (l == tl || l == el)
    ensures CondBalanced([Jump(l)], w, tl, el, next, next)
  {
    FlowsOne(Jump(l), w);
    var v := Next(Jump(l), w).value;
    assert [Jump(l)][1..] == [];
    assert Flows([Jump(l)], w, v);
  }

  lemma TailBalance(x: Code, tl: nat, el: nat, lo: nat, hi: nat, w: Walk)
    requires w.sp >= 0 && May(w.tab, tl, w.sp) && May(w.tab, el, w.sp) && tl < lo && el < lo
    requires Balanced(x, w, w.sp + 1, lo, hi)
    ensures CondBalanced(x + [BranchUnless(el), Jump(tl)], w, tl, el, lo, hi)
  {
    var v := Flow(x, w).value;
    var b, j := BranchUnless(el), Jump(tl);
    FlowsOne(b, v);
    var u := Next(b, v).value;
    FlowsOne(j, u);
    var t := Next(j, u).value;
    FlowsThen([b], [j], v, u, t);
    assert [b] + [j] == [b, j];
    FlowsThen(x, [b, j], w, v, t);
  }

  lemma {:induction false} BothBalance(c: Node, tl: nat, el: nat, next: nat, w: Walk)
    requires c.And? || c.Or?
    requires w.live && w.sp >= 0 && tl < next && el < next && May(w.tab, tl, w.sp) && May(w.tab, el, w.sp)
    requires Free(w.tab, next, GenCond(c, tl, el, next).next)
    ensures next <= GenCond(c, tl, el, next).next
    ensures CondBalanced(GenCond(c, tl, el, next).code, w, tl, el, next, GenCond(c, tl, el, next).next)
    decreases c, 0
  {
    hide *;
    UnfoldBoth(c, tl, el, next);
    var tl1, el1 := if c.And? then next else tl, if c.And? then el else next;
    var x := GenCond(c.first, tl1, el1, next + 1);
    var y := GenCond(c.second, tl, el, x.next);
    CondGrows(c.first, tl1, el1, next + 1);
    CondGrows(c.second, tl, el, x.next);
    FreeFor(w, c.And?, tl, el, next, x.next, GenCond(c, tl, el, next).next);
    CondBalance(c.first, tl1, el1, next + 1, w);
    if Refs(x.code, next) > 0 {
      var v := Between(x.code, next, w);
      BetweenFits(x.code, next, c.And?, tl, el, x.next, y.next, w);
      CondBalance(c.second, tl, el, x.next, v);
      BothCompose(x.code, next, y.code, c.And?, tl, el, x.next, y.next, w);
    } else {
      AloneBalance(x.code, next, c.And?, tl, el, x.next, w);
    }
  }

  lemma CondGrows(c: Node, tl: nat, el: nat, next: nat)
    requires tl < next && el < next
    ensures next <= GenCond(c, tl, el, next).next
  {
    CondTidy(c, tl, el, next);
  }

  lemma FreeFor(w: Walk, isAnd: bool, tl: nat, el: nat, next: nat, mid: nat, hi: nat)
    requires Free(w.tab, next, hi) && next < mid <= hi && May(w.tab, tl, w.sp) && May(w.tab, el, w.sp)
    ensures Free(w.tab, next + 1, mid)
    ensures May(w.tab, if isAnd then next else tl, w.sp) && May(w.tab, if isAnd then el else next, w.sp)
  {
  }

  /** The walk after x and a label. */
  ghost function Between(x: Code, l: nat, w: Walk): (v: Walk) {
    if Flow(x, w).Some? then Next(Label(l), Flow(x, w).value).value else w
  }

  lemma BetweenFits(x: Code, l: nat, isAnd: bool, tl: nat, el: nat, mid: nat, hi: nat, w: Walk)
    requires w.sp >= 0 && tl < l && el < l && l < mid <= hi && Refs(x, l) > 0 && Free(w.tab, l, hi)
    requires May(w.tab, tl, w.sp) && May(w.tab, el, w.sp)
    requires CondBalanced(x, w, if isAnd then l else tl, if isAnd then el else l, l + 1, mid)
    ensures var v := Between(x, l, w);
            v.live && v.sp == w.sp && May(v.tab, tl, v.sp) && May(v.tab, el, v.sp) && Free(v.tab, mid, hi)
  {
    RefTouched(x, l, w);
  }

  lemma BothCompose(x: Code, l: nat, y: Code, isAnd: bool, tl: nat, el: nat, mid: nat, hi: nat, w: Walk)
    requires w.sp >= 0 && tl < l && el < l && l < mid <= hi && Refs(x, l) > 0 && Free(w.tab, l, hi)
    requires May(w.tab, tl, w.sp) && May(w.tab, el, w.sp)
    requires CondBalanced(x, w, if isAnd then l else tl, if isAnd then el else l, l + 1, mid)
    requires CondBalanced(y, Between(x, l, w), tl, el, mid, hi)
    ensures CondBalanced(Both(x, l, y), w, tl, el, l, hi)
  {
    hide Flow, Agrees, Refs, Targets;
    var u := Flow(x, w).value;
    var v := Between(x, l, w);
    var t := Flow(y, v).value;
    FlowsOne(Label(l), u);
    FlowsThen(x, [Label(l)], w, u, v);
    FlowsThen(x + [Label(l)], y, w, v, t);
    assert Flows(Both(x, l, y), w, t);
    RefTouched(x, l, w);
  }

  /** A label that is referred to has a depth. */
  lemma {:induction false} RefTouched(x: Code, l: nat, w: Walk)
    requires Flow(x, w).Some? && Refs(x, l) > 0
    ensures l in Flow(x, w).value.tab
  {
    var v := Next(x[0], w).value;
    if x[0].Branches() && x[0].l == l {
      FlowGrows(x[1..], v);
      assert l in v.tab;
    } else {
      RefTouched(x[1..], l, v);
    }
  }

  lemma AloneBalance(x: Code, l: nat, isAnd: bool, tl: nat, el: nat, hi: nat, w: Walk)
    requires Refs(x, l) == 0 && tl < l && el < l && l < hi && Free(w.tab, l, hi)
    requires May(w.tab, tl, w.sp) && May(w.tab, el, w.sp)
    requires CondBalanced(x, w, if isAnd then l else tl, if isAnd then el else l, l + 1, hi)
    ensures CondBalanced(x, w, tl, el, l, hi)
  {
  }

  // ----- values

  ghost predicate ReadyFor(w: Walk, lo: nat, hi: nat) { w.live && w.sp >= 0 && Free(w.tab, lo, hi) }

  lemma {:induction false} GenBalance(n: Node, popped: bool, next: nat, w: Walk)
    requires ReadyFor(w, next, Gen(n, popped, next).next)
    ensures Balanced(Gen(n, popped, next).code, w, w.sp + if popped then 0 else 1, next, Gen(n, popped, next).next)
    decreases n, 0
  {
    hide *;
    match n
    case And(_, _) => ShortBalance(n, popped, next, w);
    case Or(_, _) => ShortBalance(n, popped, next, w);
    case If(_, _, _, _) => IfBalance(n, popped, next, w);
    case Loop(_, _, _, _) => LoopBalance(n, popped, next, w);
    case Seq(_, _) => SeqBalance(n, popped, next, w);
    case _ => AtomBalance(n, popped, next, w);
  }

  lemma FlowsEmpty(w: Walk)
    ensures Flows([], w, w)
  {
  }

  lemma FlowsCons(e: Elem, rest: Code, w: Walk, v: Walk)
    requires Agree(e, w) && Next(e, w).Some? && Flows(rest, Next(e, w).value, v)
    ensures Flows([e] + rest, w, v)
  {
    FlowsOne(e, w);
    FlowsThen([e], rest, w, Next(e, w).value, v);
  }

  lemma AtomBalance(n: Node, popped: bool, next: nat, w: Walk)
    requires n.Empty? || n.Opaque? || n.Const?
    requires ReadyFor(w, next, Gen(n, popped, next).next)
    ensures Balanced(Gen(n, popped, next).code, w, w.sp + if popped then 0 else 1, next, Gen(n, popped, next).next)
  {
    match n
    case Opaque(id) =>
      var v := Next(Call(id), w).value;
      if popped { FlowsOne(Pop, v); } else { FlowsEmpty(v); }
      FlowsCons(Call(id), Popped(popped), w, if popped then Next(Pop, v).value else v);
    case Empty => if !popped { FlowsOne(PutObject(Nil), w); }
    case Const(c) => if !popped { FlowsOne(PutObject(c), w); }
  }

  lemma NodeGrows(n: Node, popped: bool, next: nat)
    ensures next <= Gen(n, popped, next).next
  {
    GenTidy(n, popped, next);
  }

  lemma BalancedThen(x: Code, y: Code, w: Walk, d1: int, d2: int, lo: nat, mid: nat, hi: nat)
    requires lo <= mid <= hi && Balanced(x, w, d1, lo, mid) && Balanced(y, Flow(x, w).value, d2, mid, hi)
    ensures Balanced(x + y, w, d2, lo, hi)
  {
    hide Flow, Agrees;
    var v := Flow(x, w).value;
    FlowsThen(x, y, w, v, Flow(y, v).value);
  }

  lemma ReadyAfter(x: Code, w: Walk, d: int, lo: nat, mid: nat, hi: nat)
    requires lo <= mid <= hi && Free(w.tab, lo, hi) && Balanced(x, w, d, lo, mid) && d >= 0
    ensures Flow(x, w).Some? && ReadyFor(Flow(x, w).value, mid, hi) && Flow(x, w).value.sp == d
  {
  }

  lemma ReadyPart(w: Walk, lo: nat, lo': nat, hi': nat, hi: nat)
    requires ReadyFor(w, lo, hi) && lo <= lo' && hi' <= hi
    ensures ReadyFor(w, lo', hi') && w.sp >= 0 && w.live && Free(w.tab, lo, hi)
  {
  }

  lemma {:induction false} SeqBalance(n: Node, popped: bool, next: nat, w: Walk)
    requires n.Seq? && ReadyFor(w, next, Gen(n, popped, next).next)
    ensures Balanced(Gen(n, popped, next).code, w, w.sp + if popped then 0 else 1, next, Gen(n, popped, next).next)
    decreases n, 0, 0
  {
    hide *;
    UnfoldSeq(n, popped, next);
    var x := Gen(n.first, true, next);
    var y := Gen(n.second, popped, x.next);
    NodeGrows(n.first, true, next);
    NodeGrows(n.second, popped, x.next);
    ReadyPart(w, next, next, x.next, y.next);
    GenBalance(n.first, true, next, w);
    ReadyAfter(x.code, w, w.sp, next, x.next, y.next);
    GenBalance(n.second, popped, x.next, Flow(x.code, w).value);
    BalancedThen(x.code, y.code, w, w.sp, w.sp + if popped then 0 else 1, next, x.next, y.next);
  }

  lemma {:induction false} ShortBalance(n: Node, popped: bool, next: nat, w: Walk)
    requires (n.And? || n.Or?) && ReadyFor(w, next, Gen(n, popped, next).next)
    ensures Balanced(Gen(n, popped, next).code, w, w.sp + if popped then 0 else 1, next, Gen(n, popped, next).next)
    decreases n, 0, 0
  {
    hide *;
    UnfoldShort(n, popped, next);
    var x := Gen(n.first, false, next + 1);
    var y := Gen(n.second, popped, x.next);
    NodeGrows(n.first, false, next + 1);
    NodeGrows(n.second, popped, x.next);
    ReadyPart(w, next, next + 1, x.next, y.next);
    GenBalance(n.first, false, next + 1, w);
    var v := Decided(x.code, n.And?, popped, next, w);
    DecideFlow(x.code, n.And?, popped, next, x.next, y.next, w);
    GenBalance(n.second, popped, x.next, v);
    ShortCompose(x.code, n.And?, popped, next, y.code, x.next, y.next, w);
  }

  /** The walk after the first operand and the branch. */
  ghost function Decided(x: Code, isAnd: bool, popped: bool, l: nat, w: Walk): (v: Walk) {
    if Flow(x, w).Some? && Flow(Decide(isAnd, popped, l), Flow(x, w).value).Some?
    then Flow(Decide(isAnd, popped, l), Flow(x, w).value).value else w
  }

  lemma DecideWalk(isAnd: bool, popped: bool, l: nat, u: Walk)
    requires u.live && u.sp > 0 && l !in u.tab
    ensures Flow(Decide(isAnd, popped, l), u).Some?
    ensures var v := Flow(Decide(isAnd, popped, l), u).value;
            && Flows(Decide(isAnd, popped, l), u, v) && v.sp == u.sp - 1 && v.live
            && v.tab == u.tab[l := if popped then u.sp - 1 else u.sp]
  {
    var b := if isAnd then BranchUnless(l) else BranchIf(l);
    if popped {
      FlowsOne(b, u);
      assert Decide(isAnd, popped, l) == [b];
    } else {
      var u1 := Next(Dup, u).value;
      var u2 := Next(b, u1).value;
      FlowsOne(Pop, u2);
      FlowsCons(b, [Pop], u1, Next(Pop, u2).value);
      FlowsCons(Dup, [b] + [Pop], u, Next(Pop, u2).value);
      assert Decide(isAnd, popped, l) == [Dup] + ([b] + [Pop]);
    }
  }

  lemma DecideFlow(x: Code, isAnd: bool, popped: bool, l: nat, mid: nat, hi: nat, w: Walk)
    requires w.sp >= 0 && l < mid <= hi && Free(w.tab, l, hi) && Balanced(x, w, w.sp + 1, l + 1, mid)
    ensures var v := Decided(x, isAnd, popped, l, w);
            && ReadyFor(v, mid, hi) && v.sp == w.sp && Same(w.tab, v.tab, l, mid, {})
            && l in v.tab && v.tab[l] == (if popped then w.sp else w.sp + 1)
            && Flows(x + Decide(isAnd, popped, l), w, v)
  {
    hide Flow, Agrees, Decide;
    var u := Flow(x, w).value;
    DecideWalk(isAnd, popped, l, u);
    FlowsThen(x, Decide(isAnd, popped, l), w, u, Decided(x, isAnd, popped, l, w));
  }

  lemma ShortCompose(x: Code, isAnd: bool, popped: bool, l: nat, y: Code, mid: nat, hi: nat, w: Walk)
    requires w.sp >= 0 && l < mid <= hi && Free(w.tab, l, hi) && Balanced(x, w, w.sp + 1, l + 1, mid)
    requires var v := Decided(x, isAnd, popped, l, w);
             Balanced(y, v, v.sp + if popped then 0 else 1, mid, hi)
    ensures Balanced(Short(x, isAnd, popped, l, y), w, w.sp + if popped then 0 else 1, l, hi)
  {
    hide Flow, Agrees, Decide, Decided;
    DecideFlow(x, isAnd, popped, l, mid, hi, w);
    var d := Decide(isAnd, popped, l);
    var v := Decided(x, isAnd, popped, l, w);
    var t := Flow(y, v).value;
    FlowsThen(x + d, y, w, v, t);
    FlowsOne(Label(l), t);
    FlowsThen(x + d + y, [Label(l)], w, t, Next(Label(l), t).value);
  }

  // ----- if and unless

  /** A condition refers to one of its labels at least. */
  lemma {:induction false} CondRefers(c: Node, tl: nat, el: nat, next: nat)
    ensures tl in Targets(GenCond(c, tl, el, next).code) || el in Targets(GenCond(c, tl, el, next).code)
    decreases c
  {
    match c
    case And(a, b) =>
      var x := GenCond(a, next, el, next + 1);
      CondRefers(a, next, el, next + 1);
      if Refs(x.code, next) > 0 {
        CondRefers(b, tl, el, x.next);
        Concat3(x.code, [Label(next)], GenCond(b, tl, el, x.next).code);
      }
    case Or(a, b) =>
      var x := GenCond(a, tl, next, next + 1);
      CondRefers(a, tl, next, next + 1);
      if Refs(x.code, next) > 0 {
        CondRefers(b, tl, el, x.next);
        Concat3(x.code, [Label(next)], GenCond(b, tl, el, x.next).code);
      }
    case Const(v) => Single(Jump(if Truthy(v) then tl else el));
    case _ =>
      DefsAt([BranchUnless(el), Jump(tl)], 0);
      Concat(Gen(c, false, next).code, [BranchUnless(el), Jump(tl)]);
  }

  lemma CondCounts(c: Node, tl: nat, el: nat, next: nat)
    ensures Refs(GenCond(c, tl, el, next).code, tl) > 0 || Refs(GenCond(c, tl, el, next).code, el) > 0
  {
    CondRefers(c, tl, el, next);
  }

  ghost function Over(code: Code, w: Walk): (v: Walk) { if Flow(code, w).Some? then Flow(code, w).value else w }

  lemma {:induction false} IfBalance(n: Node, popped: bool, next: nat, w: Walk)
    requires n.If? && ReadyFor(w, next, Gen(n, popped, next).next)
    ensures Balanced(Gen(n, popped, next).code, w, w.sp + if popped then 0 else 1, next, Gen(n, popped, next).next)
    decreases n, 0, 0
  {
    hide *;
    UnfoldIf(n, popped, next);
    CondCounts(n.cond, next, next + 1, next + 2);
    var c := GenCond(n.cond, next, next + 1, next + 2);
    var thenNode, elseNode := if n.unless then n.other else n.body, if n.unless then n.body else n.other;
    var x := Gen(thenNode, popped, c.next);
    var y := Gen(elseNode, popped, x.next);
    var thenRef, elseRef := Refs(c.code, next) > 0, Refs(c.code, next + 1) > 0;
    var hi := if thenRef then y.next + 1 else y.next;
    var d := w.sp + if popped then 0 else 1;
    CondGrows(n.cond, next, next + 1, next + 2);
    NodeGrows(thenNode, popped, c.next);
    NodeGrows(elseNode, popped, x.next);
    ReadyPart(w, next, next + 2, c.next, hi);
    FreeLabels(w, next, hi);
    CondBalance(n.cond, next, next + 1, next + 2, w);
    var v := Over(c.code, w);
    AfterCond(c.code, next, c.next, hi, w);
    if thenRef {
      AtThen(c.code, v, next, w.sp, c.next, x.next, hi);
      GenBalance(thenNode, popped, c.next, Over([Label(next)], v));
    }
    var u := Over(ThenPart(thenRef, next, x.code, y.next), v);
    ThenFlow(thenRef, next, x.code, y.next, v, w.sp, d, c.next, x.next, hi);
    if elseRef {
      AtElse(u, next + 1, w.sp, x.next, y.next);
      GenBalance(elseNode, popped, x.next, Over([Label(next + 1)], u));
    }
    ElseFlow(elseRef, next + 1, y.code, u, w.sp, d, x.next, y.next);
    IfCompose(c.code, next, thenRef, x.code, elseRef, y.code, c.next, x.next, y.next, w, d);
  }

  lemma FreeLabels(w: Walk, next: nat, hi: nat)
    requires Free(w.tab, next, hi) && next + 2 <= hi
    ensures May(w.tab, next, w.sp) && May(w.tab, next + 1, w.sp)
  {
  }

  /** After the condition: its labels have the depth they started with, if they are referred to. */
  lemma AfterCond(c: Code, l: nat, mid: nat, hi: nat, w: Walk)
    requires CondBalanced(c, w, l, l + 1, l + 2, mid) && l + 2 <= mid <= hi && Free(w.tab, l, hi) && w.sp >= 0
    ensures var v := Over(c, w);
            && Flows(c, w, v) && v.sp == w.sp && Free(v.tab, mid, hi) && Same(w.tab, v.tab, l, mid, {})
            && (Refs(c, l) > 0 ==> l in v.tab && v.tab[l] == w.sp)
            && (Refs(c, l + 1) > 0 ==> l + 1 in v.tab && v.tab[l + 1] == w.sp)
  {
    hide Agrees, Refs;
    if Refs(c, l) > 0 { RefTouched(c, l, w); }
    if Refs(c, l + 1) > 0 { RefTouched(c, l + 1, w); }
  }

  lemma OverLabel(v: Walk, l: nat, d: int)
    requires v.sp >= 0 && d >= 0 && l in v.tab && v.tab[l] == d
    ensures Over([Label(l)], v) == Walk(d, v.tab, v.most, true)
    ensures (v.live ==> v.sp == d) ==> Flows([Label(l)], v, Walk(d, v.tab, v.most, true))
  {
    var w := Walk(d, v.tab, v.most, true);
    assert [Label(l)][1..] == [] && Flow([], w) == Some(w) && Next(Label(l), v) == Some(w);
  }

  lemma AtThen(c: Code, v: Walk, l: nat, d: int, lo: nat, mid: nat, hi: nat)
    requires v.sp == d && d >= 0 && l in v.tab && v.tab[l] == d && Free(v.tab, lo, hi) && lo <= mid < hi
    ensures ReadyFor(Over([Label(l)], v), lo, mid) && Over([Label(l)], v).sp == d
  {
    OverLabel(v, l, d);
  }

  lemma AtElse(u: Walk, l: nat, d: int, lo: nat, hi: nat)
    requires u.sp >= 0 && d >= 0 && l in u.tab && u.tab[l] == d && Free(u.tab, lo, hi)
    ensures ReadyFor(Over([Label(l)], u), lo, hi) && Over([Label(l)], u).sp == d
  {
    OverLabel(u, l, d);
  }

  lemma ThenFlow(there: bool, l: nat, x: Code, end: nat, v: Walk, d: int, d2: int, lo: nat, mid: nat, hi: nat)
    requires v.sp == d && d >= 0 && d2 >= 0 && Free(v.tab, lo, hi) && l + 1 < lo <= mid <= end <= hi
    requires there ==> end < hi && l in v.tab && v.tab[l] == d && Balanced(x, Over([Label(l)], v), d2, lo, mid)
    ensures var u := Over(ThenPart(there, l, x, end), v);
            && Flows(ThenPart(there, l, x, end), v, u) && u.sp >= 0 && Free(u.tab, mid, end)
            && Same(v.tab, u.tab, lo, mid, if there then {end} else {})
            && (there ==> u.sp == d2 && !u.live && end in u.tab && u.tab[end] == d2)
            && (l + 1 in v.tab ==> l + 1 in u.tab && u.tab[l + 1] == v.tab[l + 1])
            && (!there ==> u == v)
  {
    hide Flow, Agrees, Over;
    if there {
      OverLabel(v, l, d);
      var a := Over([Label(l)], v);
      var b := Flow(x, a).value;
      FlowsThen([Label(l)], x, v, a, b);
      FlowsOne(Jump(end), b);
      FlowsThen([Label(l)] + x, [Jump(end)], v, b, Next(Jump(end), b).value);
      OverIs(ThenPart(there, l, x, end), v, Next(Jump(end), b).value);
    } else {
      FlowsEmpty(v);
      OverIs([], v, v);
    }
  }

  lemma OverIs(code: Code, w: Walk, v: Walk)
    requires Flows(code, w, v)
    ensures Over(code, w) == v
  {
  }

  lemma ElseFlow(there: bool, l: nat, y: Code, u: Walk, d: int, d2: int, lo: nat, hi: nat)
    requires u.sp >= 0 && d >= 0 && (u.live ==> u.sp == d)
    requires there ==> l in u.tab && u.tab[l] == d && Balanced(y, Over([Label(l)], u), d2, lo, hi)
    ensures var t := Over(ElsePart(there, l, y), u);
            && Flows(ElsePart(there, l, y), u, t) && Same(u.tab, t.tab, lo, hi, {})
            && (there ==> t.live && t.sp == d2) && (!there ==> t == u)
  {
    hide Flow, Agrees, Over;
    if there {
      OverLabel(u, l, d);
      var a := Over([Label(l)], u);
      FlowsThen([Label(l)], y, u, a, Flow(y, a).value);
      OverIs(ElsePart(there, l, y), u, Flow(y, a).value);
    } else {
      FlowsEmpty(u);
      OverIs([], u, u);
    }
  }

  lemma IfCompose(c: Code, l: nat, thenRef: bool, x: Code, elseRef: bool, y: Code, lo: nat, mid: nat, end: nat, w: Walk, d: int)
    requires thenRef || elseRef
    requires var hi := if thenRef then end + 1 else end;
             l + 2 <= lo <= mid <= end && Free(w.tab, l, hi)
    requires var v := Over(c, w); Flows(c, w, v) && Same(w.tab, v.tab, l, lo, {})
    requires var t := ThenPart(thenRef, l, x, end); var v, u := Over(c, w), Over(t, Over(c, w));
             && Flows(t, v, u) && Same(v.tab, u.tab, lo, mid, if thenRef then {end} else {})
             && (thenRef ==> u.sp == d && !u.live && end in u.tab && u.tab[end] == d)
    requires var e := ElsePart(elseRef, l + 1, y); var u := Over(ThenPart(thenRef, l, x, end), Over(c, w)); var t := Over(e, u);
             Flows(e, u, t) && Same(u.tab, t.tab, mid, end, {}) && (elseRef ==> t.live && t.sp == d) && (!elseRef ==> t == u)
    ensures Balanced(Branched(c, l, thenRef, x, elseRef, y, end), w, d, l, if thenRef then end + 1 else end)
  {
    hide Flow, Agrees, Over, ThenPart, ElsePart;
    var p, q := ThenPart(thenRef, l, x, end), ElsePart(elseRef, l + 1, y);
    var v := Over(c, w);
    var u := Over(p, v);
    var t := Over(q, u);
    FlowsThen(c, p, w, v, u);
    FlowsThen(c + p, q, w, u, t);
    if thenRef {
      FlowsOne(Label(end), t);
      FlowsThen(c + p + q, [Label(end)], w, t, Next(Label(end), t).value);
    } else {
      assert c + p + q + [] == c + p + q;
    }
  }

  // ----- while and until

  lemma Flows3(a: Elem, b: Elem, c: Elem, w: Walk, w1: Walk, w2: Walk, w3: Walk)
    requires Agree(a, w) && Next(a, w) == Some(w1) && Agree(b, w1) && Next(b, w1) == Some(w2)
    requires Agree(c, w2) && Next(c, w2) == Some(w3)
    ensures Flows([a, b, c], w, w3)
  {
    FlowsOne(c, w2);
    FlowsCons(b, [c], w1, w3);
    FlowsCons(a, [b] + [c], w, w3);
    assert [a, b, c] == [a] + ([b] + [c]);
  }

  lemma HeadFlow(start: nat, next: nat, w: Walk)
    requires w.live && w.sp >= 0 && start !in w.tab && next + 4 !in w.tab && start != next + 4
    ensures var d, m := w.sp, if w.sp > w.most then w.sp else w.most;
            Flows([Jump(start), Label(next + 4), PutObject(Nil)], w,
                  Walk(d + 1, w.tab[start := d][next + 4 := d], if d + 1 > m then d + 1 else m, true))
  {
    var d, m := w.sp, if w.sp > w.most then w.sp else w.most;
    var w1 := Walk(d, w.tab[start := d], m, false);
    var w2 := Walk(d, w.tab[start := d][next + 4 := d], m, true);
    Flows3(Jump(start), Label(next + 4), PutObject(Nil), w, w1, w2,
           Walk(d + 1, w.tab[start := d][next + 4 := d], if d + 1 > m then d + 1 else m, true));
  }

  lemma CatchFlow(next: nat, w: Walk, d: int)
    requires w.live && w.sp == d + 1 && d >= 0 && next + 5 !in w.tab && May(w.tab, next, d) && w.most >= d + 1
    ensures Flows([Label(next + 5), Pop, Jump(next)], w, Walk(d, Touch(w.tab[next + 5 := d + 1], next, d), w.most, false))
  {
    var w1 := Walk(d + 1, w.tab[next + 5 := d + 1], w.most, true);
    var w2 := Walk(d, w.tab[next + 5 := d + 1], w.most, true);
    Flows3(Label(next + 5), Pop, Jump(next), w, w1, w2, Walk(d, Touch(w2.tab, next, d), w.most, false));
  }

  lemma RedoFlow(testFirst: bool, next: nat, w: Walk)
    requires w.sp >= 0 && !w.live && next + 1 !in w.tab && (testFirst || (next + 6 in w.tab && w.tab[next + 6] == w.sp))
    ensures Flows((if testFirst then [] else [Label(next + 6)]) + [Label(next + 1)], w,
                  Walk(w.sp, w.tab[next + 1 := w.sp], w.most, true))
  {
    var v := Walk(w.sp, w.tab[next + 1 := w.sp], w.most, true);
    if testFirst {
      FlowsOne(Label(next + 1), w);
      assert [] + [Label(next + 1)] == [Label(next + 1)];
    } else {
      FlowsOne(Label(next + 1), w.(live := true));
      FlowsCons(Label(next + 6), [Label(next + 1)], w, v);
    }
  }

  /** After the prologue of a loop. */
  ghost predicate Entered(next: nat, l: nat, w: Walk, v: Walk) {
    && v.sp == w.sp && v.live && Same(w.tab, v.tab, next, l, {})
    && next in v.tab && v.tab[next] == w.sp && next + 1 in v.tab && v.tab[next + 1] == w.sp
    && next + 4 in v.tab && v.tab[next + 4] == w.sp && next + 2 !in v.tab && next + 3 !in v.tab
  }

  lemma PrologueFlow(testFirst: bool, next: nat, hi: nat, w: Walk)
    requires ReadyFor(w, next, hi) && next + (if testFirst then 6 else 7) <= hi
    ensures Flows(Prologue(testFirst, next), w, Over(Prologue(testFirst, next), w))
    ensures Entered(next, if testFirst then next + 6 else next + 7, w, Over(Prologue(testFirst, next), w))
    ensures Free(Over(Prologue(testFirst, next), w).tab, if testFirst then next + 6 else next + 7, hi)
  {
    hide Flow, Agrees, Over, Flows;
    var start, d, m := if testFirst then next else next + 6, w.sp, if w.sp > w.most then w.sp else w.most;
    var w3 := Walk(d + 1, w.tab[start := d][next + 4 := d], if d + 1 > m then d + 1 else m, true);
    var w6 := Walk(d, Touch(w3.tab[next + 5 := d + 1], next, d), w3.most, false);
    var w8 := Walk(d, w6.tab[next + 1 := d], w6.most, true);
    HeadFlow(start, next, w);
    CatchFlow(next, w3, d);
    RedoFlow(testFirst, next, w6);
    var p, q := [Jump(start), Label(next + 4), PutObject(Nil)], [Label(next + 5), Pop, Jump(next)];
    var r := (if testFirst then [] else [Label(next + 6)]) + [Label(next + 1)];
    FlowsThen(p, q, w, w3, w6);
    FlowsThen(p + q, r, w, w6, w8);
    assert Prologue(testFirst, next) == p + q + r;
    OverIs(Prologue(testFirst, next), w, w8);
  }

  lemma EpilogueFlow(popped: bool, next: nat, w: Walk)
    requires w.sp >= 0 && May(w.tab, next + 3, w.sp) && next + 2 !in w.tab && next + 4 in w.tab && w.tab[next + 4] == w.sp
    ensures var v := Over(Epilogue(popped, next), w);
            && Flows(Epilogue(popped, next), w, v) && v.live && v.sp == w.sp + (if popped then 0 else 1)
            && Same(w.tab, v.tab, next, next + 4, {})
  {
    hide Flow, Agrees, Over, Flows;
    var d := w.sp;
    var w1 := Walk(d, Touch(w.tab, next + 3, d), w.most, true);
    var w3 := Walk(d + 1, w1.tab, if d + 1 > w.most then d + 1 else w.most, true);
    var w4 := Walk(d + 1, w3.tab[next + 2 := d + 1], w3.most, true);
    var w5 := if popped then Walk(d, w4.tab, w4.most, true) else w4;
    Flows3(Label(next + 3), Restore(next + 4), PutObject(Nil), w, w1, w1, w3);
    FlowsOne(Label(next + 2), w3);
    if popped { FlowsOne(Pop, w4); } else { FlowsEmpty(w4); }
    var p := [Label(next + 3), Restore(next + 4), PutObject(Nil)];
    FlowsThen(p, [Label(next + 2)], w, w3, w4);
    FlowsThen(p + [Label(next + 2)], Popped(popped), w, w4, w5);
    assert Epilogue(popped, next) == p + [Label(next + 2)] + Popped(popped);
    OverIs(Epilogue(popped, next), w, w5);
  }

  lemma {:induction false} LoopBalance(n: Node, popped: bool, next: nat, w: Walk)
    requires n.Loop? && ReadyFor(w, next, Gen(n, popped, next).next)
    ensures Balanced(Gen(n, popped, next).code, w, w.sp + if popped then 0 else 1, next, Gen(n, popped, next).next)
    decreases n, 0, 0
  {
    hide *;
    UnfoldLoop(n, popped, next);
    var l := if n.testFirst then next + 6 else next + 7;
    var x := Gen(n.body, true, l);
    var tl, el := if n.until then next + 3 else next + 1, if n.until then next + 1 else next + 3;
    var y := GenCond(n.cond, tl, el, x.next);
    NodeGrows(n.body, true, l);
    CondGrows(n.cond, tl, el, x.next);
    var v := Over(Prologue(n.testFirst, next), w);
    ReadyPart(w, next, next, next, y.next);
    PrologueFlow(n.testFirst, next, y.next, w);
    BodyReady(next, l, x.next, y.next, w, v);
    GenBalance(n.body, true, l, v);
    var u := Over([Label(next)], Over(x.code, v));
    AfterBody(x.code, next, l, x.next, y.next, w, v, n.until);
    CondBalance(n.cond, tl, el, x.next, u);
    LoopCompose(n.testFirst, popped, next, x.code, y.code, l, x.next, y.next, w, v, u, n.until);
  }

  lemma BodyReady(next: nat, l: nat, mid: nat, hi: nat, w: Walk, v: Walk)
    requires Entered(next, l, w, v) && w.sp >= 0 && Free(v.tab, l, hi) && l <= mid <= hi
    ensures ReadyFor(v, l, mid) && v.sp == w.sp
  {
  }

  lemma AfterBody(x: Code, next: nat, l: nat, mid: nat, hi: nat, w: Walk, v: Walk, until: bool)
    requires Entered(next, l, w, v) && w.sp >= 0 && Free(v.tab, l, hi) && next + 6 <= l <= mid <= hi
    requires Balanced(x, v, v.sp, l, mid)
    ensures var a := Over(x, v);
            var u := Over([Label(next)], a);
            && Flows(x, v, a) && Flows([Label(next)], a, u) && u.live && u.sp == w.sp && Free(u.tab, mid, hi)
            && May(u.tab, if until then next + 3 else next + 1, u.sp) && May(u.tab, if until then next + 1 else next + 3, u.sp)
            && Same(v.tab, u.tab, l, mid, {})
  {
    hide Agrees;
    OverLabel(Over(x, v), next, w.sp);
  }

  lemma LoopCompose(testFirst: bool, popped: bool, next: nat, x: Code, y: Code, l: nat, mid: nat, hi: nat,
                    w: Walk, v: Walk, u: Walk, until: bool)
    requires w.sp >= 0 && next + 6 <= l <= mid <= hi && l == (if testFirst then next + 6 else next + 7)
    requires Flows(Prologue(testFirst, next), w, v) && Entered(next, l, w, v)
    requires Flows(x, v, Over(x, v)) && Flows([Label(next)], Over(x, v), u) && u.sp == w.sp && Same(v.tab, u.tab, l, mid, {})
    requires CondBalanced(y, u, if until then next + 3 else next + 1, if until then next + 1 else next + 3, mid, hi)
    requires Free(w.tab, next, hi)
    ensures Balanced(Looped(testFirst, popped, next, x, y), w, w.sp + (if popped then 0 else 1), next, hi)
  {
    hide Flow, Agrees, Over, Prologue, Epilogue, Flows;
    var t := Flow(y, u).value;
    EpilogueFlow(popped, next, t);
    var z := Over(Epilogue(popped, next), t);
    var p := Prologue(testFirst, next);
    FlowsThen(p, x, w, v, Over(x, v));
    FlowsThen(p + x, [Label(next)], w, Over(x, v), u);
    FlowsThen(p + x + [Label(next)], y, w, u, t);
    FlowsThen(p + x + [Label(next)] + y, Epilogue(popped, next), w, t, z);
    FlowsValue(Looped(testFirst, popped, next, x, y), w, z);
    assert Same(w.tab, z.tab, next, hi, {});
  }

  lemma FlowsValue(code: Code, w: Walk, v: Walk)
    requires Flows(code, w, v)
    ensures Flow(code, w) == Some(v)
  {
  }
}
