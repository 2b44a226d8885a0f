/** The labels of generated code: placed once, and the targets of branches. */
module CodeShape {
  import opened Machine
  import opened Trees
  import opened CodeGen

  /** Labels are new ones, placed once; branches go to them or out to `ext`. */
  ghost predicate Tidy(o: Out, lo: nat, ext: set<nat>) {
    && lo <= o.next && Distinct(o.code)
    && (forall l :: l in Defs(o.code) ==> lo <= l < o.next)
    && Targets(o.code) <= Defs(o.code) + ext
  }

  lemma Single(e: Elem)
    ensures Distinct([e]) && Defs([e]) == (if e.Label? then {e.l} else {})
    ensures Targets([e]) == (if e.Branches() then {e.l} else {})
  {
    assert [e][1..] == [];
  }

  lemma Nothing()
    ensures Distinct([]) && Defs([]) == {} && Targets([]) == {}
  {
  }

  lemma Concat3(a: Code, b: Code, c: Code)
    ensures Defs(a + b + c) == Defs(a) + Defs(b) + Defs(c)
    ensures Targets(a + b + c) == Targets(a) + Targets(b) + Targets(c)
    ensures Distinct(a + b + c) <==>
            Distinct(a) && Distinct(b) && Distinct(c) && Defs(a) !! Defs(b) && (Defs(a) + Defs(b)) !! Defs(c)
  {
    Concat(a, b);
    Concat(a + b, c);
  }

  lemma {:induction false} CondTidy(c: Node, tl: nat, el: nat, next: nat)
    requires tl < next && el < next
    ensures Tidy(GenCond(c, tl, el, next), next, {tl, el})
    decreases c, 1
  {
    hide Gen, Defs, Targets, Distinct, Refs;
    Single(Label(next)); Single(BranchUnless(el)); Single(Jump(tl)); Single(Jump(el));
    Concat([BranchUnless(el)], [Jump(tl)]);
    assert [BranchUnless(el), Jump(tl)] == [BranchUnless(el)] + [Jump(tl)];
    match c
    case And(a, b) =>
      var x := GenCond(a, next, el, next + 1);
      CondTidy(a, next, el, next + 1);
      if Refs(x.code, next) != 0 {
        CondTidy(b, tl, el, x.next);
        Concat3(x.code, [Label(next)], GenCond(b, tl, el, x.next).code);
      }
    case Or(a, b) =>
      var x := GenCond(a, tl, next, next + 1);
      CondTidy(a, tl, next, next + 1);
      if Refs(x.code, next) != 0 {
        CondTidy(b, tl, el, x.next);
        Concat3(x.code, [Label(next)], GenCond(b, tl, el, x.next).code);
      }
    case Const(v) =>
    case _ =>
      GenTidy(c, false, next);
      Concat(Gen(c, false, next).code, [BranchUnless(el), Jump(tl)]);
  }

  lemma {:induction false} ShortTidy(n: Node, popped: bool, next: nat)
    requires n.And? || n.Or?
    ensures Tidy(GenShort(n, popped, next), next, {})
    decreases n, 0, 0
  {
    hide Gen, Defs, Targets, Distinct, Decide;
    var x := Gen(n.first, false, next + 1);
    var y := Gen(n.second, popped, x.next);
    GenTidy(n.first, false, next + 1);
    GenTidy(n.second, popped, x.next);
    DecideLabels(n.And?, popped, next);
    Single(Label(next));
    Concat3(x.code, Decide(n.And?, popped, next), y.code);
    Concat(x.code + Decide(n.And?, popped, next) + y.code, [Label(next)]);
  }

  lemma DecideLabels(isAnd: bool, popped: bool, l: nat)
    ensures Distinct(Decide(isAnd, popped, l)) && Defs(Decide(isAnd, popped, l)) == {}
    ensures Targets(Decide(isAnd, popped, l)) == {l}
  {
    hide Defs, Targets, Distinct;
    var b := if isAnd then BranchUnless(l) else BranchIf(l);
    Nothing(); Single(Dup); Single(Pop); Single(b);
    Concat3(if popped then [] else [Dup], [b], Popped(!popped));
  }

  lemma {:induction false} IfTidy(n: Node, popped: bool, next: nat)
    requires n.If?
    ensures Tidy(GenIf(n, popped, next), next, {})
    decreases n, 0, 0
  {
    hide Gen, GenCond, Defs, Targets, Distinct, Refs, ThenPart, ElsePart;
    var c := GenCond(n.cond, next, next + 1, next + 2);
    var x := Gen(if n.unless then n.other else n.body, popped, c.next);
    var y := Gen(if n.unless then n.body else n.other, popped, x.next);
    CondTidy(n.cond, next, next + 1, next + 2);
    GenTidy(if n.unless then n.other else n.body, popped, c.next);
    GenTidy(if n.unless then n.body else n.other, popped, x.next);
    var thenRef, elseRef := Refs(c.code, next) > 0, Refs(c.code, next + 1) > 0;
    var t, e := ThenPart(thenRef, next, x.code, y.next), ElsePart(elseRef, next + 1, y.code);
    ThenLabels(thenRef, next, x.code, y.next);
    ElseLabels(elseRef, next + 1, y.code);
    EndPart(thenRef, y.next);
    Concat3(c.code, t, e);
    Concat(c.code + t + e, if thenRef then [Label(y.next)] else []);
  }

  lemma ThenLabels(there: bool, l: nat, code: Code, end: nat)
    ensures var t := ThenPart(there, l, code, end);
            && Defs(t) == (if there then {l} + Defs(code) else {})
            && Targets(t) == (if there then {end} + Targets(code) else {})
            && (Distinct(t) <==> (there ==> Distinct(code) && l !in Defs(code)))
  {
    hide Defs, Targets, Distinct;
    Nothing(); Single(Label(l)); Single(Jump(end));
    Concat3([Label(l)], code, [Jump(end)]);
  }

  lemma ElseLabels(there: bool, l: nat, code: Code)
    ensures var e := ElsePart(there, l, code);
            && Defs(e) == (if there then {l} + Defs(code) else {})
            && Targets(e) == (if there then Targets(code) else {})
            && (Distinct(e) <==> (there ==> Distinct(code) && l !in Defs(code)))
  {
    hide Defs, Targets, Distinct;
    Nothing(); Single(Label(l));
    Concat([Label(l)], code);
  }

  lemma EndPart(there: bool, l: nat)
    ensures var t: Code := if there then [Label(l)] else [];
            Defs(t) == (if there then {l} else {}) && Targets(t) == {} && Distinct(t)
  {
    Nothing(); Single(Label(l));
  }

  lemma {:induction false} LoopTidy(n: Node, popped: bool, next: nat)
    requires n.Loop?
    ensures Tidy(GenLoop(n, popped, next), next, {})
    decreases n, 0, 0
  {
    hide Gen, GenCond, Defs, Targets, Distinct, Prologue, Epilogue;
    Single(Label(next));
    var l := if n.testFirst then next + 6 else next + 7;
    var x := Gen(n.body, true, l);
    var tl, el := if n.until then next + 3 else next + 1, if n.until then next + 1 else next + 3;
    var y := GenCond(n.cond, tl, el, x.next);
    GenTidy(n.body, true, l);
    CondTidy(n.cond, tl, el, x.next);
    PrologueLabels(n.testFirst, next);
    EpilogueLabels(popped, next);
    Concat3(Prologue(n.testFirst, next), x.code, [Label(next)]);
    Concat3(Prologue(n.testFirst, next) + x.code + [Label(next)], y.code, Epilogue(popped, next));
  }

  lemma PrologueLabels(testFirst: bool, next: nat)
    ensures Distinct(Prologue(testFirst, next))
    ensures Defs(Prologue(testFirst, next)) == {next + 1, next + 4, next + 5} + if testFirst then {} else {next + 6}
    ensures Targets(Prologue(testFirst, next)) == {next, if testFirst then next else next + 6}
  {
    hide Defs, Targets, Distinct;
    var head := [Jump(if testFirst then next else next + 6), Label(next + 4), PutObject(Nil), Label(next + 5), Pop, Jump(next)];
    HeadLabels(if testFirst then next else next + 6, next);
    Single(Label(next + 1));
    EndPart(!testFirst, next + 6);
    Concat3(head, if testFirst then [] else [Label(next + 6)], [Label(next + 1)]);
  }

  lemma HeadLabels(start: nat, next: nat)
    ensures var head := [Jump(start), Label(next + 4), PutObject(Nil), Label(next + 5), Pop, Jump(next)];
            Distinct(head) && Defs(head) == {next + 4, next + 5} && Targets(head) == {start, next}
  {
    hide Defs, Targets, Distinct;
    var j, first, last := Jump(start), Label(next + 4), Label(next + 5);
    Single(j); Single(first); Single(PutObject(Nil)); Single(last); Single(Pop); Single(Jump(next));
    Concat3([j], [first], [PutObject(Nil)]);
    Concat3([last], [Pop], [Jump(next)]);
    Concat([j] + [first] + [PutObject(Nil)], [last] + [Pop] + [Jump(next)]);
    assert [j, first, PutObject(Nil), last, Pop, Jump(next)]
        == ([j] + [first] + [PutObject(Nil)]) + ([last] + [Pop] + [Jump(next)]);
  }

  lemma EpilogueLabels(popped: bool, next: nat)
    ensures Distinct(Epilogue(popped, next))
    ensures Defs(Epilogue(popped, next)) == {next + 2, next + 3} && Targets(Epilogue(popped, next)) == {}
  {
    hide Defs, Targets, Distinct;
    Nothing();
    Single(Label(next + 3)); Single(Restore(next + 4)); Single(PutObject(Nil)); Single(Label(next + 2)); Single(Pop);
    Concat3([Label(next + 3)], [Restore(next + 4)], [PutObject(Nil)]);
    var head := [Label(next + 3)] + [Restore(next + 4)] + [PutObject(Nil)] + [Label(next + 2)];
    Concat([Label(next + 3)] + [Restore(next + 4)] + [PutObject(Nil)], [Label(next + 2)]);
    assert Epilogue(popped, next) == head + Popped(popped);
    Concat(head, Popped(popped));
  }

  lemma {:induction false} GenTidy(n: Node, popped: bool, next: nat)
    ensures Tidy(Gen(n, popped, next), next, {})
    decreases n, 0
  {
    match n
    case And(_, _) => ShortTidy(n, popped, next);
    case Or(_, _) => ShortTidy(n, popped, next);
    case If(_, _, _, _) => IfTidy(n, popped, next);
    case Loop(_, _, _, _) => LoopTidy(n, popped, next);
    case Seq(a, b) =>
      var x := Gen(a, true, next);
      GenTidy(a, true, next);
      GenTidy(b, popped, x.next);
      Concat(x.code, Gen(b, popped, x.next).code);
    case Opaque(id) => Concat([Call(id)], Popped(popped));
    case _ =>
  }

  /** The code of a whole tree places every label it branches to, once. */
  lemma GenLinked(n: Node, popped: bool, next: nat)
    ensures Linked(Gen(n, popped, next).code)
  {
    GenTidy(n, popped, next);
  }
}
