/** Code generation for control flow: what compile.c appends to the list for each node. */
module CodeGen {
  import opened Machine
  import opened Trees

  /** The elements emitted, and the number of the next new label. */
  datatype Out = Out(code: Code, next: nat)

  /** compile_branch_condition */
  function GenCond(c: Node, tl: nat, el: nat, next: nat): (r: Out)
    decreases c, 1
  {
    match c
    case And(a, b) =>
      var x := GenCond(a, next, el, next + 1);
      if Refs(x.code, next) == 0 then x
      else
        var y := GenCond(b, tl, el, x.next);
        Out(Both(x.code, next, y.code), y.next)
    case Or(a, b) =>
      var x := GenCond(a, tl, next, next + 1);
      if Refs(x.code, next) == 0 then x
      else
        var y := GenCond(b, tl, el, x.next);
        Out(Both(x.code, next, y.code), y.next)
    case Const(v) => Out([Jump(if Truthy(v) then tl else el)], next)
    case _ =>
      var x := Gen(c, false, next);
      Out(x.code + [BranchUnless(el), Jump(tl)], x.next)
  }

  function Both(x: Code, l: nat, y: Code): (r: Code) { x + [Label(l)] + y }

  /** iseq_compile_each */
  function Gen(n: Node, popped: bool, next: nat): (r: Out)
    decreases n, 0
  {
    match n
    case Empty => Out(if popped then [] else [PutObject(Nil)], next)
    case Opaque(id) => Out([Call(id)] + Popped(popped), next)
    case Const(v) => Out(if popped then [] else [PutObject(v)], next)
    case And(a, b) => GenShort(n, popped, next)
    case Or(a, b) => GenShort(n, popped, next)
    case If(_, _, _, _) => GenIf(n, popped, next)
    case Loop(_, _, _, _) => GenLoop(n, popped, next)
    case Seq(a, b) =>
      var x := Gen(a, true, next);
      var y := Gen(b, popped, x.next);
      Out(x.code + y.code, y.next)
  }

  function Popped(popped: bool): (r: Code) { if popped then [Pop] else [] }

  /** The AND and OR cases of iseq_compile_each0 */
  function GenShort(n: Node, popped: bool, next: nat): (r: Out)
    requires n.And? || n.Or?
    decreases n, 0, 0
  {
    var x := Gen(n.first, false, next + 1);
    var y := Gen(n.second, popped, x.next);
    Out(Short(x.code, n.And?, popped, next, y.code), y.next)
  }

  function Short(x: Code, isAnd: bool, popped: bool, l: nat, y: Code): (r: Code) {
    x + Decide(isAnd, popped, l) + y + [Label(l)]
  }

  function Decide(isAnd: bool, popped: bool, l: nat): (r: Code) {
    (if popped then [] else [Dup]) + [if isAnd then BranchUnless(l) else BranchIf(l)] + Popped(!popped)
  }

  /** compile_if: labels next (then) and next + 1 (else), and an end label if the then branch is there */
  function GenIf(n: Node, popped: bool, next: nat): (r: Out)
    requires n.If?
    decreases n, 0, 0
  {
    var c := GenCond(n.cond, next, next + 1, next + 2);
    var x := Gen(if n.unless then n.other else n.body, popped, c.next);
    var y := Gen(if n.unless then n.body else n.other, popped, x.next);
    var thenRef, elseRef := Refs(c.code, next) > 0, Refs(c.code, next + 1) > 0;
    Out(Branched(c.code, next, thenRef, x.code, elseRef, y.code, y.next), if thenRef then y.next + 1 else y.next)
  }

  function Branched(c: Code, l: nat, thenRef: bool, x: Code, elseRef: bool, y: Code, end: nat): (r: Code) {
    c + ThenPart(thenRef, l, x, end) + ElsePart(elseRef, l + 1, y) + (if thenRef then [Label(end)] else [])
  }

  function ThenPart(there: bool, l: nat, x: Code, end: nat): (r: Code) {
    if there then [Label(l)] + x + [Jump(end)] else []
  }

  function ElsePart(there: bool, l: nat, y: Code): (r: Code) { if there then [Label(l)] + y else [] }

  /** compile_loop: labels next_label, redo_label, break_label, end_label, adjust_label and
      next_catch_label, and tmp_label when the body comes first */
  function GenLoop(n: Node, popped: bool, next: nat): (r: Out)
    requires n.Loop?
    decreases n, 0, 0
  {
    var l := if n.testFirst then next + 6 else next + 7;
    var x := Gen(n.body, true, l);
    var y := GenCond(n.cond, if n.until then next + 3 else next + 1, if n.until then next + 1 else next + 3, x.next);
    Out(Looped(n.testFirst, popped, next, x.code, y.code), y.next)
  }

  function Looped(testFirst: bool, popped: bool, next: nat, x: Code, y: Code): (r: Code) {
    Prologue(testFirst, next) + x + [Label(next)] + y + Epilogue(popped, next)
  }

  function Prologue(testFirst: bool, next: nat): (r: Code) {
    [Jump(if testFirst then next else next + 6), Label(next + 4), PutObject(Nil), Label(next + 5), Pop, Jump(next)]
    + (if testFirst then [] else [Label(next + 6)]) + [Label(next + 1)]
  }

  function Epilogue(popped: bool, next: nat): (r: Code) {
    [Label(next + 3), Restore(next + 4), PutObject(Nil), Label(next + 2)] + Popped(popped)
  }

  // ----- one level of a definition, for proofs that set the definitions aside

  lemma UnfoldBoth(c: Node, tl: nat, el: nat, next: nat)
    requires c.And? || c.Or?
    ensures var x := GenCond(c.first, if c.And? then next else tl, if c.And? then el else next, next + 1);
            var y := GenCond(c.second, tl, el, x.next);
            GenCond(c, tl, el, next) == if Refs(x.code, next) > 0 then Out(Both(x.code, next, y.code), y.next) else x
  {
  }

  lemma UnfoldSeq(n: Node, popped: bool, next: nat)
    requires n.Seq?
    ensures var x := Gen(n.first, true, next);
            var y := Gen(n.second, popped, x.next);
            Gen(n, popped, next) == Out(x.code + y.code, y.next)
  {
  }

  lemma UnfoldShort(n: Node, popped: bool, next: nat)
    requires n.And? || n.Or?
    ensures var x := Gen(n.first, false, next + 1);
            var y := Gen(n.second, popped, x.next);
            Gen(n, popped, next) == Out(Short(x.code, n.And?, popped, next, y.code), y.next)
  {
  }

  lemma UnfoldIf(n: Node, popped: bool, next: nat)
    requires n.If?
    ensures var c := GenCond(n.cond, next, next + 1, next + 2);
            var x := Gen(if n.unless then n.other else n.body, popped, c.next);
            var y := Gen(if n.unless then n.body else n.other, popped, x.next);
            var thenRef, elseRef := Refs(c.code, next) > 0, Refs(c.code, next + 1) > 0;
            Gen(n, popped, next) == Out(Branched(c.code, next, thenRef, x.code, elseRef, y.code, y.next),
                                        if thenRef then y.next + 1 else y.next)
  {
  }

  lemma UnfoldLoop(n: Node, popped: bool, next: nat)
    requires n.Loop?
    ensures var x := Gen(n.body, true, if n.testFirst then next + 6 else next + 7);
            var y := GenCond(n.cond, if n.until then next + 3 else next + 1, if n.until then next + 1 else next + 3, x.next);
            Gen(n, popped, next) == Out(Looped(n.testFirst, popped, next, x.code, y.code), y.next)
  {
  }

  lemma UnfoldLeaf(c: Node, tl: nat, el: nat, next: nat)
    requires !c.And? && !c.Or?
    ensures c.Const? ==> GenCond(c, tl, el, next) == Out([Jump(if Truthy(c.v) then tl else el)], next)
    ensures var x := Gen(c, false, next);
            !c.Const? ==> GenCond(c, tl, el, next) == Out(x.code + [BranchUnless(el), Jump(tl)], x.next)
  {
  }
}
