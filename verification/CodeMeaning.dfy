/** Running the generated code does what the tree means. */
module CodeMeaning {
  import opened Machine
  import opened Trees
  import opened CodeGen

  /** From s the run comes to the end of the code with the tree's value, or goes on as long as the tree does. */
  ghost predicate ExprMeets(all: Code, ask: Oracle, s: State, r: Outcome, fuel: nat, end: nat, popped: bool) {
    match r
    case Done(v, trace) => Reaches(all, ask, s, State(end, if popped then s.stack else s.stack + [v], trace))
    case Timeout => Lasts(all, ask, s, fuel)
  }

  /** From s the run comes to the label that the condition chooses; that label is one the code refers to. */
  ghost predicate CondMeets(all: Code, ask: Oracle, s: State, r: Outcome, fuel: nat, tl: nat, el: nat, code: Code) {
    match r
    case Done(v, trace) =>
      var l := if Truthy(v) then tl else el;
      l in Targets(code) && Reaches(all, ask, s, State(Find(all, l), s.stack, trace))
    case Timeout => Lasts(all, ask, s, fuel)
  }

  /** Where the run is after an outcome, with the stack as given. */
  ghost function After(r: Outcome, pc: nat, stack: seq<Value>): (t: State)
    ensures t.pc == pc && t.stack == stack && t.trace == Trace(r)
  {
    State(pc, stack, Trace(r))
  }

  ghost function Trace(r: Outcome): (t: seq<nat>) { if r.Done? then r.trace else [] }

  lemma ExprAfter(all: Code, ask: Oracle, s: State, t: State, r: Outcome, fuel: nat, end: nat, popped: bool)
    requires Reaches(all, ask, s, t) && t.stack == s.stack && ExprMeets(all, ask, t, r, fuel, end, popped)
    ensures ExprMeets(all, ask, s, r, fuel, end, popped)
  {
    match r
    case Done(v, trace) =>
      ReachesTrans(all, ask, s, t, State(end, if popped then s.stack else s.stack + [v], trace));
    case Timeout => ReachesLasts(all, ask, s, t, fuel);
  }

  lemma CondAfter(all: Code, ask: Oracle, s: State, t: State, r: Outcome, fuel: nat, tl: nat, el: nat, code: Code, more: Code)
    requires Reaches(all, ask, s, t) && t.stack == s.stack && CondMeets(all, ask, t, r, fuel, tl, el, code)
    requires Targets(code) <= Targets(more)
    ensures CondMeets(all, ask, s, r, fuel, tl, el, more)
  {
    match r
    case Done(v, trace) =>
      ReachesTrans(all, ask, s, t, State(Find(all, if Truthy(v) then tl else el), s.stack, trace));
    case Timeout => ReachesLasts(all, ask, s, t, fuel);
  }

  /** A run that comes to a label goes past it. */
  lemma PastLabel(all: Code, ask: Oracle, s: State, l: nat, stack: seq<Value>, trace: seq<nat>, a: nat)
    requires Distinct(all) && a < |all| && all[a] == Label(l)
    requires Reaches(all, ask, s, State(Find(all, l), stack, trace))
    ensures Reaches(all, ask, s, State(a + 1, stack, trace))
  {
    FindAt(all, a);
    StepReaches(all, ask, State(a, stack, trace), State(a + 1, stack, trace));
    ReachesTrans(all, ask, s, State(a, stack, trace), State(a + 1, stack, trace));
  }

  lemma {:induction false} GenCondMeets(all: Code, ask: Oracle, c: Node, tl: nat, el: nat, next: nat, s: State, fuel: nat)
    requires Distinct(all) && Placed(all, s.pc, GenCond(c, tl, el, next).code)
    ensures CondMeets(all, ask, s, Eval(c, ask, s.trace, fuel), fuel, tl, el, GenCond(c, tl, el, next).code)
    decreases fuel, c, 2
  {
    match c
    case And(_, _) => CondShort(all, ask, c, tl, el, next, s, fuel);
    case Or(_, _) => CondShort(all, ask, c, tl, el, next, s, fuel);
    case Const(v) => CondConst(all, ask, v, tl, el, next, s, fuel);
    case _ => CondExpr(all, ask, c, tl, el, next, s, fuel);
  }

  lemma CondConst(all: Code, ask: Oracle, v: Value, tl: nat, el: nat, next: nat, s: State, fuel: nat)
    requires Placed(all, s.pc, GenCond(Const(v), tl, el, next).code)
    ensures CondMeets(all, ask, s, Done(v, s.trace), fuel, tl, el, GenCond(Const(v), tl, el, next).code)
  {
    var l := if Truthy(v) then tl else el;
    PlacedAt(all, s.pc, [Jump(l)], 0);
    DefsAt([Jump(l)], 0);
    StepReaches(all, ask, s, s.(pc := Find(all, l)));
  }

  /** After the first operand, the second is where the first one's label is. */
  lemma CondChain(all: Code, ask: Oracle, s: State, x: Code, y: Code, l: nat, isAnd: bool, r: Outcome, r2: Outcome,
                  fuel: nat, tl: nat, el: nat)
    requires Distinct(all) && Placed(all, s.pc, Both(x, l, y))
    requires CondMeets(all, ask, s, r, fuel, if isAnd then l else tl, if isAnd then el else l, x)
    requires CondMeets(all, ask, After(r, s.pc + |x| + 1, s.stack), r2, fuel, tl, el, y)
    ensures CondMeets(all, ask, s, if r.Done? && Truthy(r.v) == isAnd then r2 else r, fuel, tl, el, Both(x, l, y))
  {
    Concat(x, [Label(l)]);
    Concat(x + [Label(l)], y);
    if r.Done? && Truthy(r.v) == isAnd {
      LabelBetween(all, s.pc, x, l, y);
      PastLabel(all, ask, s, l, s.stack, r.trace, s.pc + |x|);
      CondAfter(all, ask, s, State(s.pc + |x| + 1, s.stack, r.trace), r2, fuel, tl, el, y, Both(x, l, y));
    }
  }

  /** Nothing refers to the second operand's label: the first one decides. */
  lemma CondAlone(all: Code, ask: Oracle, s: State, x: Code, l: nat, isAnd: bool, r: Outcome, fuel: nat, tl: nat, el: nat)
    requires Refs(x, l) == 0
    requires CondMeets(all, ask, s, r, fuel, if isAnd then l else tl, if isAnd then el else l, x)
    ensures CondMeets(all, ask, s, r, fuel, tl, el, x) && !(r.Done? && Truthy(r.v) == isAnd)
  {
  }

  lemma LabelBetween(all: Code, a: nat, x: Code, l: nat, y: Code)
    requires Placed(all, a, Both(x, l, y))
    ensures Placed(all, a, x) && a + |x| < |all| && all[a + |x|] == Label(l) && Placed(all, a + |x| + 1, y)
  {
    PlacedSplit(all, a, x + [Label(l)], y);
    PlacedSplit(all, a, x, [Label(l)]);
    PlacedAt(all, a + |x|, [Label(l)], 0);
  }

  /** Both operands of AND and OR: the second is compiled only if the first can get to it. */
  lemma {:induction false} CondShort(all: Code, ask: Oracle, c: Node, tl: nat, el: nat, next: nat, s: State, fuel: nat)
    requires Distinct(all) && Placed(all, s.pc, GenCond(c, tl, el, next).code) && (c.And? || c.Or?)
    ensures CondMeets(all, ask, s, Eval(c, ask, s.trace, fuel), fuel, tl, el, GenCond(c, tl, el, next).code)
    decreases fuel, c, 1
  {
    hide *;
    UnfoldBoth(c, tl, el, next);
    EvalShort(c, ask, s.trace, fuel);
    var tl1, el1 := if c.And? then next else tl, if c.And? then el else next;
    var x := GenCond(c.first, tl1, el1, next + 1);
    var y := GenCond(c.second, tl, el, x.next);
    var r := Eval(c.first, ask, s.trace, fuel);
    var t := After(r, s.pc + |x.code| + 1, s.stack);
    if Refs(x.code, next) > 0 {
      LabelBetween(all, s.pc, x.code, next, y.code);
      GenCondMeets(all, ask, c.first, tl1, el1, next + 1, s, fuel);
      GenCondMeets(all, ask, c.second, tl, el, x.next, t, fuel);
      CondChain(all, ask, s, x.code, y.code, next, c.And?, r, Eval(c.second, ask, t.trace, fuel), fuel, tl, el);
    } else {
      GenCondMeets(all, ask, c.first, tl1, el1, next + 1, s, fuel);
      CondAlone(all, ask, s, x.code, next, c.And?, r, fuel, tl, el);
    }
  }

  lemma {:induction false} CondExpr(all: Code, ask: Oracle, c: Node, tl: nat, el: nat, next: nat, s: State, fuel: nat)
    requires Distinct(all) && Placed(all, s.pc, GenCond(c, tl, el, next).code) && !c.And? && !c.Or? && !c.Const?
    ensures CondMeets(all, ask, s, Eval(c, ask, s.trace, fuel), fuel, tl, el, GenCond(c, tl, el, next).code)
    decreases fuel, c, 1
  {
    hide Placed, Find, Run, Step, Gen, Reaches, Lasts, Distinct, Eval;
    var x := Gen(c, false, next);
    var tail := [BranchUnless(el), Jump(tl)];
    assert GenCond(c, tl, el, next).code == x.code + tail;
    PlacedSplit(all, s.pc, x.code, tail);
    Concat(x.code, tail);
    DefsAt(tail, 0);
    DefsAt(tail, 1);
    GenMeets(all, ask, c, false, next, s, fuel);
    match Eval(c, ask, s.trace, fuel)
    case Timeout =>
    case Done(v, trace) => BranchTail(all, ask, s, s.pc + |x.code|, v, trace, tl, el);
  }

  lemma BranchTail(all: Code, ask: Oracle, s: State, a: nat, v: Value, trace: seq<nat>, tl: nat, el: nat)
    requires Placed(all, a, [BranchUnless(el), Jump(tl)])
    requires Reaches(all, ask, s, State(a, s.stack + [v], trace))
    ensures Reaches(all, ask, s, State(Find(all, if Truthy(v) then tl else el), s.stack, trace))
  {
    var t := State(a, s.stack + [v], trace);
    PlacedAt(all, a, [BranchUnless(el), Jump(tl)], 0);
    PlacedAt(all, a, [BranchUnless(el), Jump(tl)], 1);
    assert t.stack[..|t.stack| - 1] == s.stack;
    var u := State(Find(all, if Truthy(v) then tl else el), s.stack, trace);
    if Truthy(v) {
      StepReaches(all, ask, State(a + 1, s.stack, trace), u);
      StepThen(all, ask, t, State(a + 1, s.stack, trace), u);
    } else {
      StepReaches(all, ask, t, u);
    }
    ReachesTrans(all, ask, s, t, u);
  }

  lemma {:induction false} GenMeets(all: Code, ask: Oracle, n: Node, popped: bool, next: nat, s: State, fuel: nat)
    requires Distinct(all) && Placed(all, s.pc, Gen(n, popped, next).code)
    ensures ExprMeets(all, ask, s, Eval(n, ask, s.trace, fuel), fuel, s.pc + |Gen(n, popped, next).code|, popped)
    decreases fuel, n, 0
  {
    hide Placed, Find, Run, Step, Gen, GenCond, Eval, Reaches, Lasts, Distinct;
    match n
    case Seq(_, _) => SeqMeets(all, ask, n, popped, next, s, fuel);
    case And(_, _) => ShortMeets(all, ask, n, popped, next, s, fuel);
    case Or(_, _) => ShortMeets(all, ask, n, popped, next, s, fuel);
    case If(_, _, _, _) => IfMeets(all, ask, n, popped, next, s, fuel);
    case Loop(_, _, _, _) => LoopMeets(all, ask, n, popped, next, s, fuel);
    case _ => AtomMeets(all, ask, n, popped, next, s, fuel);
  }

  lemma AtomMeets(all: Code, ask: Oracle, n: Node, popped: bool, next: nat, s: State, fuel: nat)
    requires n.Empty? || n.Opaque? || n.Const?
    requires Placed(all, s.pc, Gen(n, popped, next).code)
    ensures ExprMeets(all, ask, s, Eval(n, ask, s.trace, fuel), fuel, s.pc + |Gen(n, popped, next).code|, popped)
  {
    var code := Gen(n, popped, next).code;
    if code == [] {
      Stay(all, ask, s);
    } else {
      PlacedAt(all, s.pc, code, 0);
      var t := Step(all, ask, s).value;
      StepReaches(all, ask, s, t);
      if n.Opaque? && popped {
        PlacedAt(all, s.pc, code, 1);
        var u := Step(all, ask, t).value;
        assert u.stack == s.stack;
        StepReaches(all, ask, t, u);
        ReachesTrans(all, ask, s, t, u);
      }
    }
  }

  lemma {:induction false} SeqMeets(all: Code, ask: Oracle, n: Node, popped: bool, next: nat, s: State, fuel: nat)
    requires Distinct(all) && Placed(all, s.pc, Gen(n, popped, next).code) && n.Seq?
    ensures ExprMeets(all, ask, s, Eval(n, ask, s.trace, fuel), fuel, s.pc + |Gen(n, popped, next).code|, popped)
    decreases fuel, n, 0, 0
  {
    hide *;
    UnfoldSeq(n, popped, next);
    EvalSeq(n, ask, s.trace, fuel);
    var x := Gen(n.first, true, next);
    var y := Gen(n.second, popped, x.next);
    var r := Eval(n.first, ask, s.trace, fuel);
    var t := After(r, s.pc + |x.code|, s.stack);
    PlacedSplit(all, s.pc, x.code, y.code);
    GenMeets(all, ask, n.first, true, next, s, fuel);
    GenMeets(all, ask, n.second, popped, x.next, t, fuel);
    BodyFirst(all, ask, s, r, Eval(n.second, ask, t.trace, fuel), fuel, s.pc + |x.code|, t.pc + |y.code|, popped);
  }

  /** AND and OR for their value: the first operand's is kept on the stack while it decides. */
  lemma {:induction false} ShortMeets(all: Code, ask: Oracle, n: Node, popped: bool, next: nat, s: State, fuel: nat)
    requires Distinct(all) && Placed(all, s.pc, Gen(n, popped, next).code) && (n.And? || n.Or?)
    ensures ExprMeets(all, ask, s, Eval(n, ask, s.trace, fuel), fuel, s.pc + |Gen(n, popped, next).code|, popped)
    decreases fuel, n, 0, 0
  {
    hide *;
    UnfoldShort(n, popped, next);
    EvalShort(n, ask, s.trace, fuel);
    var x := Gen(n.first, false, next + 1);
    var y := Gen(n.second, popped, x.next);
    var r := Eval(n.first, ask, s.trace, fuel);
    var t := After(r, s.pc + |x.code| + |Decide(n.And?, popped, next)|, s.stack);
    ShortPlaces(all, s.pc, x.code, n.And?, popped, next, y.code);
    GenMeets(all, ask, n.first, false, next + 1, s, fuel);
    GenMeets(all, ask, n.second, popped, x.next, t, fuel);
    ShortCompose(all, ask, s, x.code, n.And?, popped, next, y.code, r, Eval(n.second, ask, t.trace, fuel), fuel);
  }

  lemma ShortPlaces(all: Code, a: nat, x: Code, isAnd: bool, popped: bool, l: nat, y: Code)
    requires Placed(all, a, Short(x, isAnd, popped, l, y))
    ensures var d := Decide(isAnd, popped, l);
            && Placed(all, a, x) && Placed(all, a + |x|, d) && Placed(all, a + |x| + |d|, y)
            && a + |x| + |d| + |y| < |all| && all[a + |x| + |d| + |y|] == Label(l)
  {
    var d := Decide(isAnd, popped, l);
    hide Decide, Placed;
    PlacedSplit(all, a, x + d + y, [Label(l)]);
    PlacedAt(all, a + |x + d + y|, [Label(l)], 0);
    PlacedSplit(all, a, x + d, y);
    PlacedSplit(all, a, x, d);
  }

  lemma ShortCompose(all: Code, ask: Oracle, s: State, x: Code, isAnd: bool, popped: bool, l: nat, y: Code,
                     r: Outcome, r2: Outcome, fuel: nat)
    requires Distinct(all) && Placed(all, s.pc, Short(x, isAnd, popped, l, y))
    requires ExprMeets(all, ask, s, r, fuel, s.pc + |x|, false)
    requires var a := s.pc + |x| + |Decide(isAnd, popped, l)|;
             ExprMeets(all, ask, After(r, a, s.stack), r2, fuel, a + |y|, popped)
    ensures ExprMeets(all, ask, s, if r.Done? && Truthy(r.v) == isAnd then r2 else r, fuel,
                      s.pc + |Short(x, isAnd, popped, l, y)|, popped)
  {
    var d := Decide(isAnd, popped, l);
    assert |d| == if popped then 1 else 3;
    ShortPlaces(all, s.pc, x, isAnd, popped, l, y);
    hide Placed, Find, Run, Step, Reaches, Lasts, Distinct, Decide;
    var end := s.pc + |x| + |d| + |y|;
    if r.Done? {
      ShortMid(all, ask, s, s.pc + |x|, isAnd, popped, l, end, r);
      if Truthy(r.v) == isAnd {
        ExprAfter(all, ask, s, State(s.pc + |x| + |d|, s.stack, r.trace), r2, fuel, end, popped);
        EndLabel(all, ask, s, r2, fuel, end, popped);
      }
    }
  }

  /** The value of the code before a label is that of the code with it. */
  lemma EndLabel(all: Code, ask: Oracle, s: State, r: Outcome, fuel: nat, end: nat, popped: bool)
    requires end < |all| && all[end].Label? && ExprMeets(all, ask, s, r, fuel, end, popped)
    ensures ExprMeets(all, ask, s, r, fuel, end + 1, popped)
  {
    match r
    case Timeout =>
    case Done(v, trace) =>
      var t := State(end, if popped then s.stack else s.stack + [v], trace);
      StepReaches(all, ask, t, t.(pc := end + 1));
      ReachesTrans(all, ask, s, t, t.(pc := end + 1));
  }

  /** dup; branch; pop, or just the branch */
  lemma ShortMid(all: Code, ask: Oracle, s: State, a: nat, isAnd: bool, popped: bool, l: nat, end: nat, r: Outcome)
    requires Distinct(all) && end < |all| && all[end] == Label(l) && r.Done?
    requires Placed(all, a, Decide(isAnd, popped, l))
    requires Reaches(all, ask, s, State(a, s.stack + [r.v], r.trace))
    ensures Truthy(r.v) == isAnd ==>
            Reaches(all, ask, s, State(a + (if popped then 1 else 3), s.stack, r.trace))
    ensures Truthy(r.v) != isAnd ==>
            Reaches(all, ask, s, State(end + 1, if popped then s.stack else s.stack + [r.v], r.trace))
  {
    var t0 := State(a, s.stack + [r.v], r.trace);
    var stack := if popped then s.stack else s.stack + [r.v];
    var b := if popped then a else a + 1;
    var t1 := State(b, stack + [r.v], r.trace);
    ShortDup(all, ask, a, isAnd, popped, l, s.stack, r);
    ReachesTrans(all, ask, s, t0, t1);
    assert all[b] == if isAnd then BranchUnless(l) else BranchIf(l) by { ShortCode(all, a, isAnd, popped, l); }
    assert t1.stack[..|t1.stack| - 1] == stack;
    if Truthy(r.v) == isAnd {
      var t2 := State(b + 1, stack, r.trace);
      StepReaches(all, ask, t1, t2);
      ReachesTrans(all, ask, s, t1, t2);
      if !popped {
        ShortCode(all, a, isAnd, popped, l);
        assert stack[..|stack| - 1] == s.stack;
        StepReaches(all, ask, t2, State(b + 2, s.stack, r.trace));
        ReachesTrans(all, ask, s, t2, State(b + 2, s.stack, r.trace));
      }
    } else {
      StepReaches(all, ask, t1, State(Find(all, l), stack, r.trace));
      ReachesTrans(all, ask, s, t1, State(Find(all, l), stack, r.trace));
      PastLabel(all, ask, s, l, stack, r.trace, end);
    }
  }

  lemma ShortCode(all: Code, a: nat, isAnd: bool, popped: bool, l: nat)
    requires Placed(all, a, Decide(isAnd, popped, l))
    ensures popped ==> a < |all| && all[a] == if isAnd then BranchUnless(l) else BranchIf(l)
    ensures !popped ==> a + 2 < |all| && all[a] == Dup && all[a + 2] == Pop &&
                        all[a + 1] == if isAnd then BranchUnless(l) else BranchIf(l)
  {
    var mid := Decide(isAnd, popped, l);
    PlacedAt(all, a, mid, 0);
    if !popped {
      PlacedAt(all, a, mid, 1);
      PlacedAt(all, a, mid, 2);
    }
  }

  lemma ShortDup(all: Code, ask: Oracle, a: nat, isAnd: bool, popped: bool, l: nat, stack: seq<Value>, r: Outcome)
    requires r.Done?
    requires Placed(all, a, Decide(isAnd, popped, l))
    ensures Reaches(all, ask, State(a, stack + [r.v], r.trace),
                    if popped then State(a, stack + [r.v], r.trace) else State(a + 1, stack + [r.v] + [r.v], r.trace))
  {
    ShortCode(all, a, isAnd, popped, l);
    var t := State(a, stack + [r.v], r.trace);
    if popped { Stay(all, ask, t); } else { StepReaches(all, ask, t, State(a + 1, stack + [r.v] + [r.v], r.trace)); }
  }

  // ----- if and unless

  lemma {:induction false} IfMeets(all: Code, ask: Oracle, n: Node, popped: bool, next: nat, s: State, fuel: nat)
    requires Distinct(all) && Placed(all, s.pc, Gen(n, popped, next).code) && n.If?
    ensures ExprMeets(all, ask, s, Eval(n, ask, s.trace, fuel), fuel, s.pc + |Gen(n, popped, next).code|, popped)
    decreases fuel, n, 0, 0
  {
    hide *;
    UnfoldIf(n, popped, next);
    EvalIf(n, ask, s.trace, fuel);
    var c := GenCond(n.cond, next, next + 1, next + 2);
    var thenNode, elseNode := if n.unless then n.other else n.body, if n.unless then n.body else n.other;
    var x := Gen(thenNode, popped, c.next);
    var y := Gen(elseNode, popped, x.next);
    var r := Eval(n.cond, ask, s.trace, fuel);
    var thenRef, elseRef := Refs(c.code, next) > 0, Refs(c.code, next + 1) > 0;
    IfPlaces(all, s.pc, c.code, next, thenRef, x.code, elseRef, y.code, y.next);
    var a := s.pc + |c.code|;
    var b := a + |ThenPart(thenRef, next, x.code, y.next)|;
    var t, u := After(r, a + 1, s.stack), After(r, b + 1, s.stack);
    GenCondMeets(all, ask, n.cond, next, next + 1, next + 2, s, fuel);
    if thenRef { GenMeets(all, ask, thenNode, popped, c.next, t, fuel); }
    if elseRef { GenMeets(all, ask, elseNode, popped, x.next, u, fuel); }
    IfCompose(all, ask, s, c.code, next, x.code, y.code, y.next, popped, r,
              Eval(thenNode, ask, t.trace, fuel), Eval(elseNode, ask, u.trace, fuel), fuel);
  }

  lemma IfPlaces(all: Code, a: nat, c: Code, l: nat, thenRef: bool, x: Code, elseRef: bool, y: Code, end: nat)
    requires Placed(all, a, Branched(c, l, thenRef, x, elseRef, y, end))
    ensures Placed(all, a, c)
    ensures var b := a + |c| + |ThenPart(thenRef, l, x, end)|;
            var e := b + |ElsePart(elseRef, l + 1, y)|;
            && e <= |all|
            && (thenRef ==> && e < |all| && all[a + |c|] == Label(l) && Placed(all, a + |c| + 1, x)
                            && b == a + |c| + |x| + 2 && all[b - 1] == Jump(end) && all[e] == Label(end))
            && (elseRef ==> e == b + 1 + |y| && b < |all| && all[b] == Label(l + 1) && Placed(all, b + 1, y))
            && |Branched(c, l, thenRef, x, elseRef, y, end)| == e - a + if thenRef then 1 else 0
  {
    hide Placed, ThenPart, ElsePart;
    var t, e := ThenPart(thenRef, l, x, end), ElsePart(elseRef, l + 1, y);
    var z := if thenRef then [Label(end)] else [];
    PlacedSplit(all, a, c + t + e, z);
    PlacedSplit(all, a, c + t, e);
    PlacedSplit(all, a, c, t);
    PlacedEnd(all, a, c + t + e, z);
    if thenRef {
      PlacedAt(all, a + |c| + |t| + |e|, z, 0);
      ThenPlaces(all, a + |c|, l, x, end);
    }
    if elseRef { ElsePlaces(all, a + |c| + |t|, l + 1, y); }
  }

  lemma PlacedEnd(all: Code, a: nat, x: Code, y: Code)
    requires Placed(all, a, x + y)
    ensures a + |x| + |y| <= |all|
  {
  }

  lemma ThenPlaces(all: Code, a: nat, l: nat, x: Code, end: nat)
    requires Placed(all, a, ThenPart(true, l, x, end))
    ensures |ThenPart(true, l, x, end)| == |x| + 2 && a + |x| + 2 <= |all|
    ensures all[a] == Label(l) && Placed(all, a + 1, x) && all[a + |x| + 1] == Jump(end)
  {
    PlacedSplit(all, a, [Label(l)] + x, [Jump(end)]);
    PlacedSplit(all, a, [Label(l)], x);
    PlacedAt(all, a, [Label(l)], 0);
    PlacedAt(all, a + |x| + 1, [Jump(end)], 0);
  }

  lemma ElsePlaces(all: Code, a: nat, l: nat, y: Code)
    requires Placed(all, a, ElsePart(true, l, y))
    ensures |ElsePart(true, l, y)| == |y| + 1 && a + |y| + 1 <= |all| && all[a] == Label(l) && Placed(all, a + 1, y)
  {
    PlacedSplit(all, a, [Label(l)], y);
    PlacedAt(all, a, [Label(l)], 0);
  }

  /** A label nothing refers to marks a branch that cannot be reached, so leaving it out changes nothing. */
  lemma IfCompose(all: Code, ask: Oracle, s: State, c: Code, l: nat, x: Code, y: Code, end: nat, popped: bool,
                  r: Outcome, rx: Outcome, ry: Outcome, fuel: nat)
    requires Distinct(all) && Placed(all, s.pc, Branched(c, l, Refs(c, l) > 0, x, Refs(c, l + 1) > 0, y, end))
    requires CondMeets(all, ask, s, r, fuel, l, l + 1, c)
    requires var a := s.pc + |c|;
             Refs(c, l) > 0 ==> ExprMeets(all, ask, After(r, a + 1, s.stack), rx, fuel, a + 1 + |x|, popped)
    requires var b := s.pc + |c| + |ThenPart(Refs(c, l) > 0, l, x, end)|;
             Refs(c, l + 1) > 0 ==> ExprMeets(all, ask, After(r, b + 1, s.stack), ry, fuel, b + 1 + |y|, popped)
    ensures ExprMeets(all, ask, s, if r.Timeout? then r else if Truthy(r.v) then rx else ry, fuel,
                      s.pc + |Branched(c, l, Refs(c, l) > 0, x, Refs(c, l + 1) > 0, y, end)|, popped)
  {
    hide Placed, Branched, ThenPart, ElsePart, Find, Run, Step, Reaches, Lasts, Distinct, Refs, Targets;
    var thenRef, elseRef := Refs(c, l) > 0, Refs(c, l + 1) > 0;
    IfPlaces(all, s.pc, c, l, thenRef, x, elseRef, y, end);
    var a := s.pc + |c|;
    var b := a + |ThenPart(thenRef, l, x, end)|;
    var e := b + |ElsePart(elseRef, l + 1, y)|;
    if r.Done? {
      if Truthy(r.v) {
        PastLabel(all, ask, s, l, s.stack, r.trace, a);
        ExprAfter(all, ask, s, After(r, a + 1, s.stack), rx, fuel, a + 1 + |x|, popped);
        JumpEnd(all, ask, s, rx, fuel, a + 1 + |x|, end, e, popped);
      } else {
        PastLabel(all, ask, s, l + 1, s.stack, r.trace, b);
        ExprAfter(all, ask, s, After(r, b + 1, s.stack), ry, fuel, b + 1 + |y|, popped);
        if thenRef { EndLabel(all, ask, s, ry, fuel, e, popped); }
      }
    }
  }

  lemma JumpEnd(all: Code, ask: Oracle, s: State, r: Outcome, fuel: nat, a: nat, l: nat, end: nat, popped: bool)
    requires Distinct(all) && a < |all| && all[a] == Jump(l) && end < |all| && all[end] == Label(l)
    requires ExprMeets(all, ask, s, r, fuel, a, popped)
    ensures ExprMeets(all, ask, s, r, fuel, end + 1, popped)
  {
    match r
    case Timeout =>
    case Done(v, trace) =>
      var t := State(a, if popped then s.stack else s.stack + [v], trace);
      StepReaches(all, ask, t, t.(pc := Find(all, l)));
      ReachesTrans(all, ask, s, t, t.(pc := Find(all, l)));
      PastLabel(all, ask, s, l, t.stack, trace, end);
  }

  // ----- while and until

  lemma LoopPlaces(all: Code, a: nat, testFirst: bool, popped: bool, next: nat, x: Code, y: Code)
    requires Placed(all, a, Looped(testFirst, popped, next, x, y))
    ensures var b := a + if testFirst then 7 else 8;
            var q := b + |x|;
            var e := q + 1 + |y|;
            && e + |Epilogue(popped, next)| <= |all|
            && all[a] == Jump(if testFirst then next else next + 6) && (!testFirst ==> all[a + 6] == Label(next + 6))
            && all[b - 1] == Label(next + 1) && Placed(all, b, x) && all[q] == Label(next) && Placed(all, q + 1, y)
            && Placed(all, e, Epilogue(popped, next))
            && |Looped(testFirst, popped, next, x, y)| == e + |Epilogue(popped, next)| - a
  {
    hide Placed, Prologue, Epilogue;
    var p, z := Prologue(testFirst, next), Epilogue(popped, next);
    PlacedSplit(all, a, p + x + [Label(next)] + y, z);
    PlacedSplit(all, a, p + x + [Label(next)], y);
    PlacedSplit(all, a, p + x, [Label(next)]);
    PlacedSplit(all, a, p, x);
    ProloguePlaces(all, a, testFirst, next);
    PlacedAt(all, a + |p + x|, [Label(next)], 0);
    PlacedEnd(all, a, p + x + [Label(next)] + y, z);
  }

  lemma ProloguePlaces(all: Code, a: nat, testFirst: bool, next: nat)
    requires Placed(all, a, Prologue(testFirst, next))
    ensures |Prologue(testFirst, next)| == (if testFirst then 7 else 8) && a + |Prologue(testFirst, next)| <= |all|
    ensures all[a] == Jump(if testFirst then next else next + 6)
    ensures !testFirst ==> all[a + 6] == Label(next + 6)
    ensures all[a + |Prologue(testFirst, next)| - 1] == Label(next + 1)
  {
    var p := Prologue(testFirst, next);
    PlacedAt(all, a, p, 0);
    PlacedAt(all, a, p, 6);
    PlacedAt(all, a, p, |p| - 1);
  }

  /** After the loop: nil is its value. */
  lemma EpilogueRuns(all: Code, ask: Oracle, a: nat, popped: bool, next: nat, stack: seq<Value>, trace: seq<nat>)
    requires Placed(all, a, Epilogue(popped, next))
    ensures Reaches(all, ask, State(a, stack, trace),
                    State(a + |Epilogue(popped, next)|, if popped then stack else stack + [Nil], trace))
  {
    hide Reaches;
    var p := Epilogue(popped, next);
    PlacedAt(all, a, p, 0);
    PlacedAt(all, a, p, 1);
    PlacedAt(all, a, p, 2);
    PlacedAt(all, a, p, 3);
    var t := State(a + 4, stack + [Nil], trace);
    if popped {
      PlacedAt(all, a, p, 4);
      assert t.stack[..|t.stack| - 1] == stack;
      StepReaches(all, ask, t, State(a + 5, stack, trace));
    } else {
      Stay(all, ask, t);
    }
    var u := State(a + |p|, if popped then stack else stack + [Nil], trace);
    StepThen(all, ask, State(a + 3, stack + [Nil], trace), t, u);
    StepThen(all, ask, State(a + 2, stack, trace), State(a + 3, stack + [Nil], trace), u);
    StepThen(all, ask, State(a + 1, stack, trace), State(a + 2, stack, trace), u);
    StepThen(all, ask, State(a, stack, trace), State(a + 1, stack, trace), u);
  }

  lemma EvalShort(n: Node, ask: Oracle, trace: seq<nat>, fuel: nat)
    requires n.And? || n.Or?
    ensures var r := Eval(n.first, ask, trace, fuel);
            Eval(n, ask, trace, fuel) ==
            if r.Done? && Truthy(r.v) == n.And? then Eval(n.second, ask, Trace(r), fuel) else r
  {
  }

  lemma EvalSeq(n: Node, ask: Oracle, trace: seq<nat>, fuel: nat)
    requires n.Seq?
    ensures var r := Eval(n.first, ask, trace, fuel);
            Eval(n, ask, trace, fuel) == if r.Timeout? then r else Eval(n.second, ask, Trace(r), fuel)
  {
  }

  lemma EvalIf(n: Node, ask: Oracle, trace: seq<nat>, fuel: nat)
    requires n.If?
    ensures var r := Eval(n.cond, ask, trace, fuel);
            Eval(n, ask, trace, fuel) ==
            if r.Timeout? then r
            else if Truthy(r.v) then Eval(if n.unless then n.other else n.body, ask, Trace(r), fuel)
            else Eval(if n.unless then n.body else n.other, ask, Trace(r), fuel)
  {
  }

  lemma EvalRounds(n: Node, ask: Oracle, trace: seq<nat>, fuel: nat)
    requires n.Loop?
    ensures fuel == 0 ==> Rounds(n, ask, trace, fuel) == Timeout
    ensures fuel > 0 ==>
            var r := Eval(n.cond, ask, trace, fuel);
            var b := Eval(n.body, ask, Trace(r), fuel);
            Rounds(n, ask, trace, fuel) ==
            if r.Timeout? then Timeout
            else if Truthy(r.v) == n.until then Done(Nil, r.trace)
            else if b.Timeout? then Timeout else Rounds(n, ask, Trace(b), fuel - 1)
  {
  }

  /** The rounds of a loop, from its condition. */
  lemma {:induction false} RoundsMeet(all: Code, ask: Oracle, n: Node, popped: bool, next: nat, a: nat, s: State, fuel: nat)
    requires Distinct(all) && Placed(all, a, Gen(n, popped, next).code) && n.Loop?
    requires s.pc == a + (if n.testFirst then 7 else 8) + |Gen(n.body, true, if n.testFirst then next + 6 else next + 7).code|
    ensures ExprMeets(all, ask, s, Rounds(n, ask, s.trace, fuel), fuel, a + |Gen(n, popped, next).code|, popped)
    decreases fuel, n, 0, 0
  {
    hide *;
    UnfoldLoop(n, popped, next);
    EvalRounds(n, ask, s.trace, fuel);
    var l := if n.testFirst then next + 6 else next + 7;
    var x := Gen(n.body, true, l);
    var tl, el := if n.until then next + 3 else next + 1, if n.until then next + 1 else next + 3;
    var y := GenCond(n.cond, tl, el, x.next);
    LoopPlaces(all, a, n.testFirst, popped, next, x.code, y.code);
    if fuel == 0 {
      TimeoutAtOnce(all, ask, s, a + |Gen(n, popped, next).code|, popped);
    } else {
      var r := Eval(n.cond, ask, s.trace, fuel);
      GenCondMeets(all, ask, n.cond, tl, el, x.next, s.(pc := s.pc + 1), fuel);
      var t := After(r, a + if n.testFirst then 7 else 8, s.stack);
      GenMeets(all, ask, n.body, true, l, t, fuel);
      var b := Eval(n.body, ask, t.trace, fuel);
      var u := After(b, s.pc, s.stack);
      RoundsMeet(all, ask, n, popped, next, a, u, fuel - 1);
      RoundCompose(all, ask, s, a, n.testFirst, n.until, popped, next, x.code, y.code, r, b,
                   Rounds(n, ask, u.trace, fuel - 1), fuel);
    }
  }

  lemma TimeoutAtOnce(all: Code, ask: Oracle, s: State, end: nat, popped: bool)
    ensures ExprMeets(all, ask, s, Timeout, 0, end, popped)
  {
    Stay(all, ask, s);
  }

  /** One round: the condition, then the body and the rounds after it, or the end. */
  lemma RoundCompose(all: Code, ask: Oracle, s: State, a: nat, testFirst: bool, until: bool, popped: bool, next: nat,
                     x: Code, y: Code, r: Outcome, b: Outcome, again: Outcome, fuel: nat)
    requires Distinct(all) && Placed(all, a, Looped(testFirst, popped, next, x, y)) && fuel > 0
    requires s.pc == a + (if testFirst then 7 else 8) + |x|
    requires CondMeets(all, ask, s.(pc := s.pc + 1), r, fuel, if until then next + 3 else next + 1,
                       if until then next + 1 else next + 3, y)
    requires ExprMeets(all, ask, After(r, a + if testFirst then 7 else 8, s.stack), b, fuel, s.pc, true)
    requires ExprMeets(all, ask, After(b, s.pc, s.stack), again, fuel - 1,
                       a + |Looped(testFirst, popped, next, x, y)|, popped)
    ensures ExprMeets(all, ask, s,
                      if r.Timeout? then Timeout
                      else if Truthy(r.v) == until then Done(Nil, r.trace)
                      else if b.Timeout? then Timeout else again,
                      fuel, a + |Looped(testFirst, popped, next, x, y)|, popped)
  {
    hide Placed, Looped, Epilogue, Find, Run, Reaches, Lasts, Distinct, Targets;
    LoopPlaces(all, a, testFirst, popped, next, x, y);
    var s1 := s.(pc := s.pc + 1);
    var head := a + if testFirst then 7 else 8;
    var e := s.pc + 1 + |y|;
    assert Step(all, ask, s) == Some(s1);
    if r.Timeout? {
      StepLasts(all, ask, s, s1, fuel);
      LastsLess(all, ask, s, fuel + 1, fuel);
    } else if Truthy(r.v) == until {
      var u := State(e + |Epilogue(popped, next)|, if popped then s.stack else s.stack + [Nil], r.trace);
      EpilogueRuns(all, ask, e, popped, next, s.stack, r.trace);
      assert Placed(all, e, Epilogue(popped, next));
      EndFound(all, e, popped, next);
      ReachesTrans(all, ask, s1, State(e, s.stack, r.trace), u);
      StepThen(all, ask, s, s1, u);
    } else {
      PastLabel(all, ask, s1, next + 1, s.stack, r.trace, head - 1);
      ExprAfter(all, ask, s1, After(r, head, s.stack), b, fuel, s.pc, true);
      RoundAgain(all, ask, s, s1, b, again, fuel, a + |Looped(testFirst, popped, next, x, y)|, popped);
    }
  }

  lemma EndFound(all: Code, e: nat, popped: bool, next: nat)
    requires Distinct(all) && Placed(all, e, Epilogue(popped, next))
    ensures Find(all, next + 3) == e
  {
    PlacedAt(all, e, Epilogue(popped, next), 0);
    FindAt(all, e);
  }

  lemma RoundAgain(all: Code, ask: Oracle, s: State, s1: State, b: Outcome, again: Outcome, fuel: nat, end: nat, popped: bool)
    requires fuel > 0 && Step(all, ask, s) == Some(s1) && s1.stack == s.stack
    requires ExprMeets(all, ask, s1, b, fuel, s.pc, true)
    requires ExprMeets(all, ask, After(b, s.pc, s.stack), again, fuel - 1, end, popped)
    ensures ExprMeets(all, ask, s, if b.Timeout? then Timeout else again, fuel, end, popped)
  {
    hide Run, Step, Reaches, Lasts;
    if b.Timeout? {
      StepLasts(all, ask, s, s1, fuel);
      LastsLess(all, ask, s, fuel + 1, fuel);
    } else {
      ExprAfter(all, ask, s1, After(b, s.pc, s.stack), again, fuel - 1, end, popped);
      match again
      case Timeout => StepLasts(all, ask, s, s1, fuel - 1);
      case Done(v, trace) => StepThen(all, ask, s, s1, State(end, if popped then s.stack else s.stack + [v], trace));
    }
  }

  lemma {:induction false} LoopMeets(all: Code, ask: Oracle, n: Node, popped: bool, next: nat, s: State, fuel: nat)
    requires Distinct(all) && Placed(all, s.pc, Gen(n, popped, next).code) && n.Loop?
    ensures ExprMeets(all, ask, s, Eval(n, ask, s.trace, fuel), fuel, s.pc + |Gen(n, popped, next).code|, popped)
    decreases fuel, n, 0, 1
  {
    hide *;
    UnfoldLoop(n, popped, next);
    EvalLoop(n, ask, s.trace, fuel);
    var l := if n.testFirst then next + 6 else next + 7;
    var x := Gen(n.body, true, l);
    var y := GenCond(n.cond, if n.until then next + 3 else next + 1, if n.until then next + 1 else next + 3, x.next);
    var end := s.pc + |Gen(n, popped, next).code|;
    LoopPlaces(all, s.pc, n.testFirst, popped, next, x.code, y.code);
    var q := s.pc + (if n.testFirst then 7 else 8) + |x.code|;
    if n.testFirst {
      RoundsMeet(all, ask, n, popped, next, s.pc, s.(pc := q), fuel);
      LoopStart(all, ask, s, next, q);
      ExprAfter(all, ask, s, s.(pc := q), Rounds(n, ask, s.trace, fuel), fuel, end, popped);
    } else {
      var t := s.(pc := s.pc + 8);
      GenMeets(all, ask, n.body, true, l, t, fuel);
      LoopStart(all, ask, s, next + 6, s.pc + 6);
      BodyStart(all, ask, s);
      var b := Eval(n.body, ask, s.trace, fuel);
      ExprAfter(all, ask, s, t, b, fuel, q, true);
      RoundsMeet(all, ask, n, popped, next, s.pc, After(b, q, s.stack), fuel);
      BodyFirst(all, ask, s, b, Rounds(n, ask, Trace(b), fuel), fuel, q, end, popped);
    }
  }

  lemma EvalLoop(n: Node, ask: Oracle, trace: seq<nat>, fuel: nat)
    requires n.Loop?
    ensures n.testFirst ==> Eval(n, ask, trace, fuel) == Rounds(n, ask, trace, fuel)
    ensures !n.testFirst ==>
            var b := Eval(n.body, ask, trace, fuel);
            Eval(n, ask, trace, fuel) == if b.Timeout? then b else Rounds(n, ask, Trace(b), fuel)
  {
  }

  lemma LoopStart(all: Code, ask: Oracle, s: State, l: nat, q: nat)
    requires Distinct(all) && s.pc < |all| && all[s.pc] == Jump(l) && q < |all| && all[q] == Label(l)
    ensures Reaches(all, ask, s, s.(pc := q))
  {
    FindAt(all, q);
    StepReaches(all, ask, s, s.(pc := q));
  }

  lemma BodyStart(all: Code, ask: Oracle, s: State)
    requires s.pc + 7 < |all| && all[s.pc + 6].Label? && all[s.pc + 7].Label? && Reaches(all, ask, s, s.(pc := s.pc + 6))
    ensures Reaches(all, ask, s, s.(pc := s.pc + 8))
  {
    hide Reaches;
    StepReaches(all, ask, s.(pc := s.pc + 7), s.(pc := s.pc + 8));
    StepThen(all, ask, s.(pc := s.pc + 6), s.(pc := s.pc + 7), s.(pc := s.pc + 8));
    ReachesTrans(all, ask, s, s.(pc := s.pc + 6), s.(pc := s.pc + 8));
  }

  lemma BodyFirst(all: Code, ask: Oracle, s: State, b: Outcome, rest: Outcome, fuel: nat, q: nat, end: nat, popped: bool)
    requires ExprMeets(all, ask, s, b, fuel, q, true)
    requires ExprMeets(all, ask, After(b, q, s.stack), rest, fuel, end, popped)
    ensures ExprMeets(all, ask, s, if b.Timeout? then b else rest, fuel, end, popped)
  {
    hide Reaches, Lasts;
    if b.Done? { ExprAfter(all, ask, s, After(b, q, s.stack), rest, fuel, end, popped); }
  }
}
