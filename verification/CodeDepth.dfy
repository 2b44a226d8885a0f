/** The stack depths of the list of a tree (fix_sp_depth), and why a run has them. */
module CodeDepth {
  import opened Machine

  /** The walk of fix_sp_depth: the depth here, the depths given to labels (an absent label's is -1),
      and the largest depth so far.  `live` is not in the source: whether control can come here from above. */
  datatype Walk = Walk(sp: int, tab: map<nat, int>, most: int, live: bool)

  const BEGIN := Walk(0, map[], 0, true)

  /** calc_sp_depth: what an instruction adds to the stack. */
  function Increase(e: Elem): (r: int) {
    match e
    case PutObject(_) => 1
    case Dup => 1
    case Call(_) => 1
    case Pop => -1
    case BranchIf(_) => -1
    case BranchUnless(_) => -1
    case _ => 0
  }

  /** A label that has no depth gets this one; -1 is no depth. */
  function Touch(tab: map<nat, int>, l: nat, sp: int): (r: map<nat, int>) {
    if l in tab || sp == -1 then tab else tab[l := sp]
  }

  /** One element; None is the error "argument stack underflow". */
  function Next(e: Elem, w: Walk): (r: Option<Walk>) {
    match e
    case Label(l) =>
      Some(Walk(if l in w.tab then w.tab[l] else w.sp, Touch(w.tab, l, w.sp), w.most, true))
    case Restore(l) => Some(w.(sp := if l in w.tab then w.tab[l] else -1))
    case _ =>
      var sp := w.sp + Increase(e);
      if sp < 0 then None
      else Some(Walk(sp, if e.Branches() then Touch(w.tab, e.l, sp) else w.tab,
                     if sp > w.most then sp else w.most, w.live && !e.Jump?))
  }

  function Flow(code: Code, w: Walk): (r: Option<Walk>) {
    if code == [] then Some(w)
    else match Next(code[0], w)
      case None => None
      case Some(v) => Flow(code[1..], v)
  }

  /** Depths agree here: however control comes to a label, it is with the label's depth. */
  predicate Agree(e: Elem, w: Walk) {
    match e
    case Label(l) => if l in w.tab then w.live ==> w.tab[l] == w.sp else w.sp >= 0
    case Restore(l) => l in w.tab && w.tab[l] == w.sp
    case Dup => w.sp > 0
    case _ => e.Branches() && e.l in w.tab ==> w.tab[e.l] == w.sp + Increase(e)
  }

  predicate Agrees(code: Code, w: Walk) {
    code == [] || (Agree(code[0], w) && Next(code[0], w).Some? && Agrees(code[1..], Next(code[0], w).value))
  }

  /** The walk from w over code comes to v, with all depths agreeing. */
  ghost predicate Flows(code: Code, w: Walk, v: Walk) { Agrees(code, w) && Flow(code, w) == Some(v) }

  lemma {:induction false} FlowConcat(a: Code, b: Code, w: Walk)
    ensures Flow(a + b, w) == if Flow(a, w).Some? then Flow(b, Flow(a, w).value) else None
    ensures Agrees(a + b, w) <==> Agrees(a, w) && Flow(a, w).Some? && Agrees(b, Flow(a, w).value)
  {
    if a == [] {
      assert a + b == b;
    } else {
      assert (a + b)[1..] == a[1..] + b;
      if Next(a[0], w).Some? { FlowConcat(a[1..], b, Next(a[0], w).value); }
    }
  }

  lemma FlowsThen(a: Code, b: Code, w: Walk, v: Walk, u: Walk)
    requires Flows(a, w, v) && Flows(b, v, u)
    ensures Flows(a + b, w, u)
  {
    FlowConcat(a, b, w);
  }

  lemma FlowsOne(e: Elem, w: Walk)
    requires Agree(e, w) && Next(e, w).Some?
    ensures Flows([e], w, Next(e, w).value)
  {
    assert [e][1..] == [];
  }

  // ----- what agreeing depths mean for a run

  /** The walk up to position i. */
  ghost function Here(code: Code, i: nat): (r: Option<Walk>)
    requires i <= |code|
  {
    Flow(code[..i], BEGIN)
  }

  ghost predicate Grows(w: Walk, v: Walk) {
    w.most <= v.most && forall l {:trigger l in w.tab} :: l in w.tab ==> l in v.tab && v.tab[l] == w.tab[l]
  }

  lemma {:induction false} FlowGrows(code: Code, w: Walk)
    requires Flow(code, w).Some?
    ensures Grows(w, Flow(code, w).value)
  {
    if code != [] {
      var v := Next(code[0], w).value;
      FlowGrows(code[1..], v);
      assert forall l :: l in w.tab ==> l in v.tab && v.tab[l] == w.tab[l];
    }
  }

  /** Position i: its element is walked from one walk to the next, and agrees. */
  lemma HereStep(code: Code, i: nat)
    requires Agrees(code, BEGIN) && i < |code|
    ensures Here(code, i).Some? && Agree(code[i], Here(code, i).value)
    ensures Here(code, i + 1) == Next(code[i], Here(code, i).value) && Here(code, i + 1).Some?
    ensures Flow(code, BEGIN).Some? && Grows(Here(code, i + 1).value, Flow(code, BEGIN).value)
  {
    assert code == code[..i] + code[i..];
    FlowConcat(code[..i], code[i..], BEGIN);
    var w := Flow(code[..i], BEGIN).value;
    assert code[i..][0] == code[i] && code[i..][1..] == code[i + 1..];
    assert code[..i + 1] == code[..i] + [code[i]];
    FlowConcat(code[..i], [code[i]], BEGIN);
    FlowsOne(code[i], w);
    AgreesFlow(code[i + 1..], Next(code[i], w).value);
    FlowGrows(code[i + 1..], Next(code[i], w).value);
  }

  lemma {:induction false} AgreesFlow(code: Code, w: Walk)
    requires Agrees(code, w)
    ensures Flow(code, w).Some?
  {
    if code != [] { AgreesFlow(code[1..], Next(code[0], w).value); }
  }

  /** A state fits the walk: its stack is as deep as the walk says. */
  ghost predicate Fits(code: Code, s: State) {
    && s.pc <= |code| && Here(code, s.pc).Some? && Flow(code, BEGIN).Some?
    && var w, all := Here(code, s.pc).value, Flow(code, BEGIN).value;
       if s.pc < |code| && code[s.pc].Label? then code[s.pc].l in all.tab && |s.stack| == all.tab[code[s.pc].l]
       else w.live && |s.stack| == w.sp
  }

  lemma FallFits(code: Code, s: State)
    requires Agrees(code, BEGIN) && 0 < s.pc <= |code|
    requires Here(code, s.pc).Some? && Here(code, s.pc).value.live && |s.stack| == Here(code, s.pc).value.sp
    ensures Fits(code, s)
  {
    hide Here, Agrees, Flow;
    HereStep(code, s.pc - 1);
    if s.pc < |code| && code[s.pc].Label? {
      HereStep(code, s.pc);
      var v := Here(code, s.pc + 1).value;
      assert code[s.pc].l in v.tab && v.tab[code[s.pc].l] == |s.stack|;
    }
  }

  lemma JumpFits(code: Code, pc: nat, s: State)
    requires Agrees(code, BEGIN) && Linked(code) && pc < |code| && code[pc].Branches() && s.pc == Find(code, code[pc].l)
    requires Here(code, pc).Some? && |s.stack| == Here(code, pc).value.sp + Increase(code[pc])
    ensures Fits(code, s)
  {
    hide Here, Agrees, Flow, Distinct;
    HereStep(code, pc);
    DefsAt(code, pc);
    FindDef(code, code[pc].l);
    HereStep(code, s.pc);
    var v := Here(code, pc + 1).value;
    assert code[pc].l in v.tab && v.tab[code[pc].l] == |s.stack|;
  }

  /** Agreeing depths make every step safe: it does not lack an operand, and its stack stays as deep as
      the walk says. */
  lemma StepFits(code: Code, ask: Oracle, s: State)
    requires Agrees(code, BEGIN) && Linked(code) && Fits(code, s) && s.pc < |code|
    ensures Step(code, ask, s).Some? && Fits(code, Step(code, ask, s).value)
  {
    hide Agrees, Flow, Linked, Find, Here;
    HereStep(code, s.pc);
    var w, e := Here(code, s.pc).value, code[s.pc];
    var v := Here(code, s.pc + 1).value;
    if e.Label? {
      assert e.l in v.tab && v.sp == v.tab[e.l];
      FallFits(code, s.(pc := s.pc + 1));
    } else {
      var t := Step(code, ask, s).value;
      assert |t.stack| == w.sp + Increase(e);
      if e.Jump? || (e.Branches() && t.pc == Find(code, e.l)) {
        JumpFits(code, s.pc, t);
      } else {
        FallFits(code, t);
      }
    }
  }

  /** So a run never lacks an operand, whatever the calls answer, and its stack is never deeper than the
      largest depth found. */
  lemma {:induction false} RunFits(code: Code, ask: Oracle, s: State, k: nat)
    requires Agrees(code, BEGIN) && Linked(code) && Fits(code, s)
    ensures match Run(code, ask, s, k)
            case Some(t) => Fits(code, t)
            case None => exists j: nat :: j < k && Run(code, ask, s, j).Some? && Run(code, ask, s, j).value.pc == |code|
    decreases k
  {
    hide Agrees, Flow, Linked, Find, Here, Fits;
    if k > 0 {
      if s.pc == |code| {
        assert Run(code, ask, s, 0) == Some(s);
      } else {
        FitsPc(code, s);
        StepFits(code, ask, s);
        var t := Step(code, ask, s).value;
        RunFits(code, ask, t, k - 1);
        if Run(code, ask, s, k).None? {
          var j: nat :| j < k - 1 && Run(code, ask, t, j).Some? && Run(code, ask, t, j).value.pc == |code|;
          assert Run(code, ask, s, j + 1) == Run(code, ask, t, j);
        }
      }
    }
  }

  lemma FitsPc(code: Code, s: State)
    requires Fits(code, s)
    ensures s.pc <= |code| && Flow(code, BEGIN).Some?
  {
  }

  /** The largest depth bounds the stack. */
  lemma FitsMost(code: Code, s: State)
    requires Agrees(code, BEGIN) && Fits(code, s)
    ensures |s.stack| <= Flow(code, BEGIN).value.most
  {
    BoundedFlow(code, BEGIN);
    assert code[..s.pc] + code[s.pc..] == code;
    FlowConcat(code[..s.pc], code[s.pc..], BEGIN);
    BoundedFlow(code[..s.pc], BEGIN);
    FlowGrows(code[s.pc..], Here(code, s.pc).value);
  }

  ghost predicate Bounded(w: Walk) { w.sp <= w.most && forall l {:trigger l in w.tab} :: l in w.tab ==> w.tab[l] <= w.most }

  lemma {:induction false} BoundedFlow(code: Code, w: Walk)
    requires Bounded(w) && Flow(code, w).Some? && w.most >= 0
    ensures Bounded(Flow(code, w).value)
  {
    if code != [] {
      var v := Next(code[0], w).value;
      assert Bounded(v);
      BoundedFlow(code[1..], v);
    }
  }

  lemma {:induction false} FindDef(code: Code, l: nat)
    requires l in Defs(code)
    ensures Find(code, l) < |code| && code[Find(code, l)] == Label(l)
  {
    if code[0] != Label(l) { FindDef(code[1..], l); }
  }
}
