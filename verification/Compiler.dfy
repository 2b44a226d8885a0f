/** The code generator as it works: appending to lists, numbering labels and counting references. */
module Compiler {
  import opened Machine
  import opened Trees
  import opened CodeGen
  import opened CodeShape

  function Count(refcnt: map<nat, nat>, l: nat): (r: nat) { if l in refcnt then refcnt[l] else 0 }

  /** The reference counts of labels below lo have grown by the references in code. */
  ghost predicate Counted(before: map<nat, nat>, after: map<nat, nat>, code: Code, lo: nat) {
    forall l: nat {:trigger Count(after, l)} :: l < lo ==> Count(after, l) == Count(before, l) + Refs(code, l)
  }

  lemma CountedThen(a: map<nat, nat>, b: map<nat, nat>, c: map<nat, nat>, x: Code, y: Code, lo: nat, mid: nat)
    requires Counted(a, b, x, lo) && Counted(b, c, y, mid) && lo <= mid
    ensures Counted(a, c, x + y, lo)
  {
    forall l: nat | l < lo ensures Count(c, l) == Count(a, l) + Refs(x + y, l) {
      ConcatRefs(x, y, l);
      assert Count(b, l) == Count(a, l) + Refs(x, l);
    }
  }

  /** What a call gave: the elements appended, the next label number and the references counted. */
  ghost predicate Gave(n0: nat, r0: map<nat, nat>, e0: Code, n1: nat, r1: map<nat, nat>, e1: Code, o: Out) {
    n1 == o.next && e1 == e0 + o.code && Counted(r0, r1, o.code, n0)
  }

  lemma GaveNothing(n: nat, r: map<nat, nat>, e: Code)
    ensures Gave(n, r, e, n, r, e, Out([], n))
  {
    assert forall l: nat :: Refs([], l) == 0;
  }

  lemma GaveThen(n0: nat, r0: map<nat, nat>, e0: Code, n1: nat, r1: map<nat, nat>, e1: Code, x: Out,
                 n2: nat, r2: map<nat, nat>, e2: Code, y: Out)
    requires n0 <= n1 && Gave(n0, r0, e0, n1, r1, e1, x) && Gave(n1, r1, e1, n2, r2, e2, y)
    ensures Gave(n0, r0, e0, n2, r2, e2, Out(x.code + y.code, y.next))
  {
    CountedThen(r0, r1, r2, x.code, y.code, n0, n1);
  }

  lemma GaveLabel(n0: nat, r0: map<nat, nat>, e0: Code, n1: nat, r1: map<nat, nat>, o: Out, l: nat)
    requires Gave(n0, r0, e0, n1, r1, e0 + o.code, o)
    ensures Gave(n0, r0, e0, n1, r1, e0 + o.code + [Label(l)], Out(o.code + [Label(l)], o.next))
  {
    forall k: nat | k < n0 ensures Count(r1, k) == Count(r0, k) + Refs(o.code + [Label(l)], k) {
      ConcatRefs(o.code, [Label(l)], k);
    }
  }

  /** all is done, followed by rest. */
  ghost predicate Continues(all: Out, done: Out, rest: Out) { all == Out(done.code + rest.code, rest.next) }

  lemma ContinuesOn(all: Out, done: Out, l: nat, x: Code, y: Out)
    requires exists d :: done.code == d + x + [Label(l)] && all == Out(d + Both(x, l, y.code), y.next)
    ensures Continues(all, done, y)
  {
    var d :| done.code == d + x + [Label(l)] && all == Out(d + Both(x, l, y.code), y.next);
    assert d + Both(x, l, y.code) == d + x + [Label(l)] + y.code;
  }

  ghost function Operand(c: Node, tl: nat, el: nat, l: nat): (o: Out)
    requires c.And? || c.Or?
  {
    GenCond(c.first, if c.And? then l else tl, if c.And? then el else l, l + 1)
  }

  lemma OperandTidy(c: Node, tl: nat, el: nat, l: nat)
    requires (c.And? || c.Or?) && tl < l && el < l
    ensures l < Operand(c, tl, el, l).next
  {
    CondTidy(c.first, if c.And? then l else tl, if c.And? then el else l, l + 1);
  }

  lemma AtomRefs(n: Node, popped: bool, next: nat)
    requires n.Empty? || n.Const? || n.Opaque?
    ensures Targets(Gen(n, popped, next).code) == {}
  {
    if n.Opaque? { Concat([Call(n.id)], Popped(popped)); }
  }

  lemma CountedNone(r: map<nat, nat>, code: Code, n: nat)
    requires Targets(code) == {}
    ensures Counted(r, r, code, n)
  {
    forall l: nat | l < n ensures Refs(code, l) == 0 {}
  }

  /** Elements that are not branches are not counted. */
  lemma GaveMore(n0: nat, r0: map<nat, nat>, e0: Code, n1: nat, r1: map<nat, nat>, e1: Code, o: Out, code: Code)
    requires n0 <= n1 && Gave(n0, r0, e0, n1, r1, e1, o) && Targets(code) == {}
    ensures Gave(n0, r0, e0, n1, r1, e1 + code, Out(o.code + code, o.next))
  {
    CountedNone(r1, code, n1);
    GaveThen(n0, r0, e0, n1, r1, e1, o, n1, r1, e1 + code, Out(code, n1));
  }

  /** The references to labels below n are what they were. */
  ghost predicate Untouched(before: map<nat, nat>, after: map<nat, nat>, n: nat) {
    forall l: nat {:trigger Count(after, l)} :: l < n ==> Count(after, l) == Count(before, l)
  }

  ghost predicate Above(code: Code, n: nat) { forall l :: l in Targets(code) ==> l >= n }

  lemma StillUntouched(r0: map<nat, nat>, r1: map<nat, nat>, r2: map<nat, nat>, code: Code, n0: nat, n1: nat)
    requires Untouched(r0, r1, n0) && Counted(r1, r2, code, n1) && n0 <= n1 && Above(code, n0)
    ensures Untouched(r0, r2, n0)
  {
    forall l: nat | l < n0 ensures Count(r2, l) == Count(r0, l) {
      assert Refs(code, l) == 0 && Count(r1, l) == Count(r0, l);
    }
  }

  /** Code whose branches go to its own labels is counted when older labels are untouched. */
  lemma CountedOwn(r0: map<nat, nat>, r: map<nat, nat>, code: Code, n: nat)
    requires Untouched(r0, r, n) && Above(code, n)
    ensures Counted(r0, r, code, n)
  {
    forall l: nat | l < n ensures Refs(code, l) == 0 {}
  }

  lemma CondAbove(c: Node, tl: nat, el: nat, next: nat, n: nat)
    requires n <= tl < next && n <= el < next
    ensures next <= GenCond(c, tl, el, next).next && Above(GenCond(c, tl, el, next).code, n)
  {
    CondTidy(c, tl, el, next);
  }

  /** After the condition of an if: its two labels have the references in it. */
  ghost predicate CondCounted(r0: map<nat, nat>, r: map<nat, nat>, c: Code, n0: nat) {
    Untouched(r0, r, n0) && Count(r, n0) == Refs(c, n0) && Count(r, n0 + 1) == Refs(c, n0 + 1)
  }

  lemma AfterCond(r0: map<nat, nat>, r: map<nat, nat>, c: Code, n0: nat)
    requires Counted(r0, r, c, n0 + 2) && Count(r0, n0) == 0 && Count(r0, n0 + 1) == 0 && Above(c, n0)
    ensures CondCounted(r0, r, c, n0)
  {
    StillUntouched(r0, r0, r, c, n0, n0 + 2);
    assert Count(r, n0) == Refs(c, n0) && Count(r, n0 + 1) == Refs(c, n0 + 1);
  }

  lemma AfterBranch(r0: map<nat, nat>, r1: map<nat, nat>, r2: map<nat, nat>, c: Code, x: Code, n0: nat, lo: nat)
    requires CondCounted(r0, r1, c, n0) && Counted(r1, r2, x, lo) && n0 + 2 <= lo && Above(x, lo)
    ensures CondCounted(r0, r2, c, n0)
  {
    StillUntouched(r0, r1, r2, x, n0, lo);
    assert Refs(x, n0) == 0 && Refs(x, n0 + 1) == 0;
    assert Count(r2, n0) == Count(r1, n0) && Count(r2, n0 + 1) == Count(r1, n0 + 1);
  }

  lemma JumpAbove(l: nat, n: nat)
    requires n <= l
    ensures Above([Jump(l)], n)
  {
    Single(Jump(l));
  }

  lemma StartUntouched(r: map<nat, nat>, n: nat)
    ensures Untouched(r, r, n)
  {
  }

  lemma LoopedIs(e: Code, testFirst: bool, popped: bool, next: nat, x: Code, y: Code)
    ensures e + Looped(testFirst, popped, next, x, y)
         == e + Prologue(testFirst, next) + x + [Label(next)] + y + Epilogue(popped, next)
  {
    hide Prologue, Epilogue;
  }

  lemma NewGave(n: nat, r: map<nat, nat>, e: Code)
    ensures Gave(n, r, e, n + 1, r, e, Out([], n + 1))
  {
    GaveNothing(n, r, e);
  }

  lemma ShortGrows(n: Node, popped: bool, next: nat)
    requires n.And? || n.Or?
    ensures next < Gen(n.first, false, next + 1).next
  {
    OwnTargets(n.first, false, next + 1);
  }

  lemma ShortIs(n: Node, popped: bool, next: nat, d: Code, x: Out, y: Out)
    requires n.And? || n.Or?
    requires d == Decide(n.And?, popped, next) && x == Gen(n.first, false, next + 1) && y == Gen(n.second, popped, x.next)
    ensures Gen(n, popped, next) == Out([] + x.code + d + y.code + [Label(next)], y.next)
  {
    hide Gen, Decide;
    UnfoldShort(n, popped, next);
    assert [] + x.code == x.code;
  }

  /** The targets of a tree's code are its own labels. */
  lemma OwnTargets(n: Node, popped: bool, next: nat)
    ensures next <= Gen(n, popped, next).next && Above(Gen(n, popped, next).code, next)
  {
    GenTidy(n, popped, next);
  }

  /** LINK_ANCHOR: a list that grows at its end. */
  class Anchor {
    var elems: Code

    constructor ()
      ensures elems == []
    {
      elems := [];
    }
  }

  class Generator {
    var labelNo: nat
    var refcnt: map<nat, nat>

    /** Labels that do not exist yet have no references. */
    ghost predicate Valid()
      reads this
    {
      forall l :: l in refcnt ==> l < labelNo
    }

    constructor ()
      ensures Valid() && labelNo == 0
    {
      labelNo, refcnt := 0, map[];
    }

    /** NEW_LABEL */
    method NewLabel() returns (l: nat)
      requires Valid()
      modifies this`labelNo
      ensures Valid() && l == old(labelNo) && labelNo == l + 1 && Count(refcnt, l) == 0
    {
      l := labelNo;
      labelNo := labelNo + 1;
    }

    /** ADD_INSN, ADD_LABEL, ADD_ADJUST_RESTORE */
    method Add(ret: Anchor, e: Elem)
      requires !e.Branches()
      modifies ret
      ensures ret.elems == old(ret.elems) + [e] && Targets([e]) == {}
    {
      Single(e);
      ret.elems := ret.elems + [e];
    }

    /** ADD_INSNL: a branch, counted as a reference to its label. */
    method AddBranch(ret: Anchor, e: Elem)
      requires Valid() && e.Branches() && e.l < labelNo
      modifies this`refcnt, ret
      ensures Valid() && ret.elems == old(ret.elems) + [e] && Counted(old(refcnt), refcnt, [e], labelNo)
    {
      assert [e][1..] == [];
      ret.elems := ret.elems + [e];
      refcnt := refcnt[e.l := Count(refcnt, e.l) + 1];
    }

    /** LABEL_UNREMOVABLE: a reference from a catch table or an ADJUST. */
    method Keep(l: nat)
      requires Valid() && l < labelNo
      modifies this`refcnt
      ensures Valid() && forall k :: k != l ==> Count(refcnt, k) == old(Count(refcnt, k))
    {
      refcnt := refcnt[l := Count(refcnt, l) + 1];
    }

    /** The first operand of AND or OR as a condition: its label stands for going on to the second. */
    method CompileOperand(ret: Anchor, c: Node, thenLabel: nat, elseLabel: nat) returns (l: nat)
      requires Valid() && thenLabel < labelNo && elseLabel < labelNo && (c.And? || c.Or?)
      modifies this`labelNo, this`refcnt, ret
      ensures l == old(labelNo) < labelNo && Valid()
      ensures Gave(l, old(refcnt), old(ret.elems), labelNo, refcnt, ret.elems, Operand(c, thenLabel, elseLabel, l))
      ensures Count(refcnt, l) == Refs(Operand(c, thenLabel, elseLabel, l).code, l)
      decreases c, 0
    {
      hide GenCond, Refs, Targets;
      l := NewLabel();
      if c.And? {
        CompileBranchCondition(ret, c.first, l, elseLabel);
      } else {
        CompileBranchCondition(ret, c.first, thenLabel, l);
      }
      OperandTidy(c, thenLabel, elseLabel, l);
    }

    /** compile_branch_condition */
    method CompileBranchCondition(ret: Anchor, cond: Node, thenLabel: nat, elseLabel: nat)
      requires Valid() && thenLabel < labelNo && elseLabel < labelNo
      modifies this`labelNo, this`refcnt, ret
      ensures Valid()
      ensures Gave(old(labelNo), old(refcnt), old(ret.elems), labelNo, refcnt, ret.elems,
                   GenCond(cond, thenLabel, elseLabel, old(labelNo)))
      decreases cond, 1
    {
      hide GenCond, Gen, Refs, Count, Counted;
      var c := cond;
      ghost var o := Out([], labelNo);
      GaveNothing(labelNo, refcnt, ret.elems);
      while c.And? || c.Or?
        invariant Valid() && old(labelNo) <= labelNo && (c == cond || c < cond)
        invariant Gave(old(labelNo), old(refcnt), old(ret.elems), labelNo, refcnt, ret.elems, o)
        invariant Continues(GenCond(cond, thenLabel, elseLabel, old(labelNo)), o, GenCond(c, thenLabel, elseLabel, labelNo))
        decreases c
      {
        ghost var e, r := ret.elems, refcnt;
        var l := CompileOperand(ret, c, thenLabel, elseLabel);
        ghost var x := Operand(c, thenLabel, elseLabel, l);
        GaveThen(old(labelNo), old(refcnt), old(ret.elems), l, r, e, o, labelNo, refcnt, ret.elems, x);
        UnfoldBoth(c, thenLabel, elseLabel, l);
        if Count(refcnt, l) == 0 {
          return;
        }
        Add(ret, Label(l));
        GaveLabel(old(labelNo), old(refcnt), old(ret.elems), labelNo, refcnt, Out(o.code + x.code, x.next), l);
        o := Out(o.code + x.code + [Label(l)], x.next);
        ContinuesOn(GenCond(cond, thenLabel, elseLabel, old(labelNo)), o, l, x.code, GenCond(c.second, thenLabel, elseLabel, x.next));
        c := c.second;
      }
      ghost var n, e, r := labelNo, ret.elems, refcnt;
      if c.Const? {
        AddBranch(ret, Jump(if Truthy(c.v) then thenLabel else elseLabel));
      } else {
        CompileEach(ret, c, false);
        BranchTail(ret, thenLabel, elseLabel, n, r, e, Gen(c, false, n));
      }
      UnfoldLeaf(c, thenLabel, elseLabel, n);
      GaveThen(old(labelNo), old(refcnt), old(ret.elems), n, r, e, o, labelNo, refcnt, ret.elems,
               GenCond(c, thenLabel, elseLabel, n));
    }

    method BranchTail(ret: Anchor, thenLabel: nat, elseLabel: nat,
                      ghost n: nat, ghost r: map<nat, nat>, ghost e: Code, ghost o: Out)
      requires Valid() && thenLabel < labelNo && elseLabel < labelNo && n <= labelNo
      requires Gave(n, r, e, labelNo, refcnt, ret.elems, o)
      modifies this`refcnt, ret
      ensures Valid()
      ensures Gave(n, r, e, labelNo, refcnt, ret.elems, Out(o.code + [BranchUnless(elseLabel), Jump(thenLabel)], o.next))
    {
      hide Counted, Count, Refs;
      ghost var e1, r1 := ret.elems, refcnt;
      AddBranch(ret, BranchUnless(elseLabel));
      GaveThen(n, r, e, labelNo, r1, e1, o, labelNo, refcnt, ret.elems, Out([BranchUnless(elseLabel)], labelNo));
      ghost var e2, r2, o2 := ret.elems, refcnt, Out(o.code + [BranchUnless(elseLabel)], o.next);
      AddBranch(ret, Jump(thenLabel));
      GaveThen(n, r, e, labelNo, r2, e2, o2, labelNo, refcnt, ret.elems, Out([Jump(thenLabel)], labelNo));
      assert o.code + [BranchUnless(elseLabel)] + [Jump(thenLabel)] == o.code + [BranchUnless(elseLabel), Jump(thenLabel)];
    }

    /** iseq_compile_each */
    method CompileEach(ret: Anchor, node: Node, popped: bool)
      requires Valid()
      modifies this`labelNo, this`refcnt, ret
      ensures Valid() && old(labelNo) <= labelNo
      ensures Gave(old(labelNo), old(refcnt), old(ret.elems), labelNo, refcnt, ret.elems, Gen(node, popped, old(labelNo)))
      decreases node, 0
    {
      hide Gen, GenCond, Counted, Targets;
      OwnTargets(node, popped, labelNo);
      match node
      case Empty => CompileAtom(ret, node, popped);
      case Const(_) => CompileAtom(ret, node, popped);
      case Opaque(_) => CompileAtom(ret, node, popped);
      case And(_, _) => CompileShort(ret, node, popped);
      case Or(_, _) => CompileShort(ret, node, popped);
      case Seq(_, _) => CompileBlock(ret, node, popped);
      case If(_, _, _, _) => CompileIf(ret, node, popped);
      case Loop(_, _, _, _) => CompileLoop(ret, node, popped);
    }

    method CompileAtom(ret: Anchor, node: Node, popped: bool)
      requires Valid() && (node.Empty? || node.Const? || node.Opaque?)
      modifies ret
      ensures Gave(labelNo, refcnt, old(ret.elems), labelNo, refcnt, ret.elems, Gen(node, popped, labelNo))
    {
      match node {
        case Opaque(id) =>
          Add(ret, Call(id));
          if popped { Add(ret, Pop); }
        case Empty => if !popped { Add(ret, PutObject(Nil)); }
        case Const(v) => if !popped { Add(ret, PutObject(v)); }
      }
      AtomRefs(node, popped, labelNo);
      CountedNone(refcnt, Gen(node, popped, labelNo).code, labelNo);
    }

    /** NODE_BLOCK: all but the last statement are popped. */
    method CompileBlock(ret: Anchor, node: Node, popped: bool)
      requires Valid() && node.Seq?
      modifies this`labelNo, this`refcnt, ret
      ensures Valid()
      ensures Gave(old(labelNo), old(refcnt), old(ret.elems), labelNo, refcnt, ret.elems, Gen(node, popped, old(labelNo)))
      decreases node, 0, 0
    {
      hide Gen, Counted;
      var n := node;
      ghost var o := Out([], labelNo);
      GaveNothing(labelNo, refcnt, ret.elems);
      while n.Seq?
        invariant Valid() && old(labelNo) <= labelNo && (n == node || n < node)
        invariant Gave(old(labelNo), old(refcnt), old(ret.elems), labelNo, refcnt, ret.elems, o)
        invariant Continues(Gen(node, popped, old(labelNo)), o, Gen(n, popped, labelNo))
        invariant n == node ==> labelNo == old(labelNo)
        decreases n
      {
        ghost var l, e, r := labelNo, ret.elems, refcnt;
        CompileEach(ret, n.first, true);
        ghost var x := Gen(n.first, true, l);
        GaveThen(old(labelNo), old(refcnt), old(ret.elems), l, r, e, o, labelNo, refcnt, ret.elems, x);
        UnfoldSeq(n, popped, l);
        assert o.code + (x.code + Gen(n.second, popped, x.next).code) == o.code + x.code + Gen(n.second, popped, x.next).code;
        o := Out(o.code + x.code, x.next);
        n := n.second;
      }
      ghost var l, e, r := labelNo, ret.elems, refcnt;
      CompileEach(ret, n, popped);
      GaveThen(old(labelNo), old(refcnt), old(ret.elems), l, r, e, o, labelNo, refcnt, ret.elems, Gen(n, popped, l));
    }
  
    /** The AND and OR cases of iseq_compile_each0 */
    method CompileShort(ret: Anchor, node: Node, popped: bool)
      requires Valid() && (node.And? || node.Or?)
      modifies this`labelNo, this`refcnt, ret
      ensures Valid()
      ensures Gave(old(labelNo), old(refcnt), old(ret.elems), labelNo, refcnt, ret.elems, Gen(node, popped, old(labelNo)))
      decreases node, 0, 0
    {
      hide Gen, GenCond, Counted, Targets, Refs, Count, Gave, Decide;
      ghost var n0, r0, e0 := labelNo, refcnt, ret.elems;
      ShortGrows(node, popped, n0);
      var l := NewLabel();
      NewGave(n0, r0, e0);
      CompileEach(ret, node.first, false);
      ghost var x := Gen(node.first, false, n0 + 1);
      GaveThen(n0, r0, e0, n0 + 1, r0, e0, Out([], n0 + 1), labelNo, refcnt, ret.elems, x);
      ghost var o := Out([] + x.code, x.next);
      var d := EmitDecide(ret, node.And?, popped, l, n0, r0, e0, o);
      o := Out(o.code + d, o.next);
      ghost var n1, r1, e1 := labelNo, refcnt, ret.elems;
      CompileEach(ret, node.second, popped);
      ghost var y := Gen(node.second, popped, n1);
      GaveThen(n0, r0, e0, n1, r1, e1, o, labelNo, refcnt, ret.elems, y);
      ghost var e2 := ret.elems;
      Add(ret, Label(l));
      GaveMore(n0, r0, e0, labelNo, refcnt, e2, Out(o.code + y.code, y.next), [Label(l)]);
      ShortIs(node, popped, n0, d, x, y);
    }

    method EmitDecide(ret: Anchor, isAnd: bool, popped: bool, l: nat,
                      ghost n0: nat, ghost r0: map<nat, nat>, ghost e0: Code, ghost o: Out)
      returns (ghost d: Code)
      requires Valid() && l < labelNo && n0 <= labelNo && Gave(n0, r0, e0, labelNo, refcnt, ret.elems, o)
      modifies this`refcnt, ret
      ensures Valid() && d == Decide(isAnd, popped, l)
      ensures Gave(n0, r0, e0, labelNo, refcnt, ret.elems, Out(o.code + d, o.next))
    {
      hide Counted, Count, Refs, Targets;
      d := [];
      assert o.code + [] == o.code;
      ghost var e := ret.elems;
      if !popped {
        Add(ret, Dup);
        d := [Dup];
        GaveMore(n0, r0, e0, labelNo, refcnt, e, o, [Dup]);
      }
      ghost var e1, r1 := ret.elems, refcnt;
      var b := if isAnd then BranchUnless(l) else BranchIf(l);
      AddBranch(ret, b);
      GaveThen(n0, r0, e0, labelNo, r1, e1, Out(o.code + d, o.next), labelNo, refcnt, ret.elems, Out([b], labelNo));
      ghost var e2 := ret.elems;
      if !popped {
        Add(ret, Pop);
        GaveMore(n0, r0, e0, labelNo, refcnt, e2, Out(o.code + d + [b], o.next), [Pop]);
        assert o.code + d + [b] + [Pop] == o.code + (d + [b] + [Pop]);
        d := d + [b] + [Pop];
      } else {
        assert o.code + d + [b] == o.code + (d + [b]);
        d := d + [b];
      }
    }
  
    /** ADD_SEQ */
    method Append(ret: Anchor, seq2: Anchor)
      modifies ret
      ensures ret.elems == old(ret.elems) + old(seq2.elems)
    {
      ret.elems := ret.elems + seq2.elems;
    }

    /** compile_if */
    method CompileIf(ret: Anchor, node: Node, popped: bool)
      requires Valid() && node.If?
      modifies this`labelNo, this`refcnt, ret
      ensures Valid()
      ensures Gave(old(labelNo), old(refcnt), old(ret.elems), labelNo, refcnt, ret.elems, Gen(node, popped, old(labelNo)))
      decreases node, 0, 0
    {
      hide Gen, GenCond, Counted, Targets, Refs, Count, Untouched, Above, Branched;
      ghost var n0, r0 := labelNo, refcnt;
      var condSeq := new Anchor();
      var thenSeq := new Anchor();
      var elseSeq := new Anchor();
      var thenLabel := NewLabel();
      var elseLabel := NewLabel();
      CompileBranchCondition(condSeq, node.cond, thenLabel, elseLabel);
      ghost var c, r1 := GenCond(node.cond, n0, n0 + 1, n0 + 2), refcnt;
      assert condSeq.elems == c.code;
      CondAbove(node.cond, n0, n0 + 1, n0 + 2, n0);
      AfterCond(r0, r1, c.code, n0);
      var body, other := if node.unless then node.other else node.body, if node.unless then node.body else node.other;
      CompileEach(thenSeq, body, popped);
      ghost var x, r2 := Gen(body, popped, c.next), refcnt;
      assert thenSeq.elems == x.code;
      OwnTargets(body, popped, c.next);
      AfterBranch(r0, r1, r2, c.code, x.code, n0, c.next);
      CompileEach(elseSeq, other, popped);
      ghost var y := Gen(other, popped, x.next);
      assert elseSeq.elems == y.code;
      OwnTargets(other, popped, x.next);
      AfterBranch(r0, r2, refcnt, c.code, y.code, n0, x.next);
      var thenRef, elseRef := Count(refcnt, thenLabel) > 0, Count(refcnt, elseLabel) > 0;
      FinishIf(ret, condSeq, thenSeq, elseSeq, thenLabel, thenRef, elseRef, r0);
      UnfoldIf(node, popped, n0);
      OwnTargets(node, popped, n0);
      CountedOwn(r0, refcnt, Gen(node, popped, n0).code, n0);
    }

    /** The end of compile_if: a branch whose label nothing refers to is left out. */
    method FinishIf(ret: Anchor, condSeq: Anchor, thenSeq: Anchor, elseSeq: Anchor, thenLabel: nat,
                    thenRef: bool, elseRef: bool, ghost r0: map<nat, nat>)
      requires Valid() && thenLabel + 1 < labelNo && Untouched(r0, refcnt, thenLabel)
      requires ret != condSeq && ret != thenSeq && ret != elseSeq
      modifies this`labelNo, this`refcnt, ret
      ensures Valid() && labelNo == (if thenRef then old(labelNo) + 1 else old(labelNo)) && Untouched(r0, refcnt, thenLabel)
      ensures ret.elems == old(ret.elems) + Branched(condSeq.elems, thenLabel, thenRef, thenSeq.elems, elseRef, elseSeq.elems, old(labelNo))
    {
      hide Counted, Untouched, Count, Refs, Targets, ThenPart, ElsePart;
      ghost var e0, end := ret.elems, labelNo;
      ghost var c, t, e := condSeq.elems, ThenPart(thenRef, thenLabel, thenSeq.elems, end), ElsePart(elseRef, thenLabel + 1, elseSeq.elems);
      Append(ret, condSeq);
      var endLabel := EmitThen(ret, thenSeq, thenLabel, thenRef, r0);
      EmitElse(ret, elseSeq, thenLabel + 1, elseRef);
      assert ret.elems == e0 + (c + t + e);
      if thenRef { Add(ret, Label(endLabel)); }
      assert thenRef ==> ret.elems == e0 + (c + t + e + [Label(end)]);
      assert !thenRef ==> c + t + e + [] == c + t + e;
    }

    method EmitThen(ret: Anchor, thenSeq: Anchor, thenLabel: nat, thenRef: bool, ghost r0: map<nat, nat>) returns (endLabel: nat)
      requires Valid() && thenLabel < labelNo && Untouched(r0, refcnt, thenLabel) && ret != thenSeq
      modifies this`labelNo, this`refcnt, ret
      ensures Valid() && labelNo == (if thenRef then old(labelNo) + 1 else old(labelNo)) && Untouched(r0, refcnt, thenLabel)
      ensures ret.elems == old(ret.elems) + ThenPart(thenRef, thenLabel, thenSeq.elems, old(labelNo))
      ensures thenRef ==> endLabel == old(labelNo)
    {
      hide Counted, Untouched, Count, Refs, Targets;
      ghost var e0 := ret.elems;
      endLabel := 0;
      if thenRef {
        Add(ret, Label(thenLabel));
        Append(ret, thenSeq);
        endLabel := NewLabel();
        ghost var r := refcnt;
        AddBranch(ret, Jump(endLabel));
        JumpAbove(endLabel, thenLabel);
        StillUntouched(r0, r, refcnt, [Jump(endLabel)], thenLabel, labelNo);
        assert ret.elems == e0 + ([Label(thenLabel)] + thenSeq.elems + [Jump(endLabel)]);
      }
    }

    method EmitElse(ret: Anchor, elseSeq: Anchor, elseLabel: nat, elseRef: bool)
      requires ret != elseSeq
      modifies ret
      ensures ret.elems == old(ret.elems) + ElsePart(elseRef, elseLabel, elseSeq.elems)
    {
      ghost var e0 := ret.elems;
      if elseRef {
        Add(ret, Label(elseLabel));
        Append(ret, elseSeq);
        assert ret.elems == e0 + ([Label(elseLabel)] + elseSeq.elems);
      }
    }

    /** compile_loop */
    method CompileLoop(ret: Anchor, node: Node, popped: bool)
      requires Valid() && node.Loop?
      modifies this`labelNo, this`refcnt, ret
      ensures Valid()
      ensures Gave(old(labelNo), old(refcnt), old(ret.elems), labelNo, refcnt, ret.elems, Gen(node, popped, old(labelNo)))
      decreases node, 0, 0
    {
      hide Gen, GenCond, Counted, Targets, Refs, Count, Untouched, Above, Prologue, Epilogue, Looped;
      ghost var n0, r0, e0 := labelNo, refcnt, ret.elems;
      var nextLabel, redoLabel, breakLabel, endLabel, adjustLabel, nextCatchLabel := LoopLabels();
      StartUntouched(r0, n0);
      EnterLoop(ret, nextLabel, node.testFirst, r0);
      ghost var p, n1, r1 := Prologue(node.testFirst, n0), labelNo, refcnt;
      CompileEach(ret, node.body, true);
      ghost var x := Gen(node.body, true, n1);
      OwnTargets(node.body, true, n1);
      StillUntouched(r0, r1, refcnt, x.code, n0, n1);
      Add(ret, Label(nextLabel));
      assert ret.elems == e0 + p + x.code + [Label(n0)];
      ghost var n2, r2 := labelNo, refcnt;
      var thenLabel, elseLabel := if node.until then endLabel else redoLabel, if node.until then redoLabel else endLabel;
      CompileBranchCondition(ret, node.cond, thenLabel, elseLabel);
      ghost var y := GenCond(node.cond, thenLabel, elseLabel, n2);
      CondAbove(node.cond, thenLabel, elseLabel, n2, n0);
      StillUntouched(r0, r2, refcnt, y.code, n0, n2);
      LeaveLoop(ret, popped, nextLabel, r0);
      UnfoldLoop(node, popped, n0);
      OwnTargets(node, popped, n0);
      CountedOwn(r0, refcnt, Gen(node, popped, n0).code, n0);
      assert ret.elems == e0 + Looped(node.testFirst, popped, n0, x.code, y.code) by {
        LoopedIs(e0, node.testFirst, popped, n0, x.code, y.code);
      }
    }

    method LoopLabels() returns (a: nat, b: nat, c: nat, d: nat, e: nat, f: nat)
      requires Valid()
      modifies this`labelNo
      ensures Valid() && labelNo == old(labelNo) + 6
      ensures a == old(labelNo) && b == a + 1 && c == a + 2 && d == a + 3 && e == a + 4 && f == a + 5
    {
      a := NewLabel();
      b := NewLabel();
      c := NewLabel();
      d := NewLabel();
      e := NewLabel();
      f := NewLabel();
    }

    /** Up to redo_label. */
    method EnterLoop(ret: Anchor, nextLabel: nat, testFirst: bool, ghost r0: map<nat, nat>)
      requires Valid() && labelNo == nextLabel + 6 && Untouched(r0, refcnt, nextLabel)
      modifies this`labelNo, this`refcnt, ret
      ensures Valid() && labelNo == (if testFirst then nextLabel + 6 else nextLabel + 7) && Untouched(r0, refcnt, nextLabel)
      ensures ret.elems == old(ret.elems) + Prologue(testFirst, nextLabel)
    {
      hide Counted, Untouched, Count, Refs, Targets;
      ghost var e0 := ret.elems;
      var start := nextLabel;
      if !testFirst { start := NewLabel(); }
      ghost var r := refcnt;
      AddBranch(ret, Jump(start));
      JumpAbove(start, nextLabel);
      StillUntouched(r0, r, refcnt, [Jump(start)], nextLabel, labelNo);
      EmitCatch(ret, nextLabel);
      r := refcnt;
      AddBranch(ret, Jump(nextLabel));
      JumpAbove(nextLabel, nextLabel);
      StillUntouched(r0, r, refcnt, [Jump(nextLabel)], nextLabel, labelNo);
      if !testFirst { Add(ret, Label(start)); }
      Add(ret, Label(nextLabel + 1));
      assert ret.elems == e0 + Prologue(testFirst, nextLabel);
    }

    /** Where `next` with a value comes in. */
    method EmitCatch(ret: Anchor, nextLabel: nat)
      modifies ret
      ensures ret.elems == old(ret.elems) + [Label(nextLabel + 4), PutObject(Nil), Label(nextLabel + 5), Pop]
    {
      Add(ret, Label(nextLabel + 4));
      Add(ret, PutObject(Nil));
      Add(ret, Label(nextLabel + 5));
      Add(ret, Pop);
    }

    /** From end_label, with the references of the catch table. */
    method LeaveLoop(ret: Anchor, popped: bool, nextLabel: nat, ghost r0: map<nat, nat>)
      requires Valid() && nextLabel + 5 < labelNo && Untouched(r0, refcnt, nextLabel)
      modifies this`refcnt, ret
      ensures Valid() && Untouched(r0, refcnt, nextLabel)
      ensures ret.elems == old(ret.elems) + Epilogue(popped, nextLabel)
    {
      hide Refs, Targets;
      ghost var e0 := ret.elems;
      Add(ret, Label(nextLabel + 3));
      Add(ret, Restore(nextLabel + 4));
      Keep(nextLabel + 4);
      Add(ret, PutObject(Nil));
      Add(ret, Label(nextLabel + 2));
      if popped { Add(ret, Pop); }
      assert ret.elems == e0 + Epilogue(popped, nextLabel);
      Catch(nextLabel + 1, nextLabel + 2, nextLabel + 2);
      Catch(nextLabel + 1, nextLabel + 2, nextLabel + 5);
      Catch(nextLabel + 1, nextLabel + 2, nextLabel + 1);
    }

    /** ADD_CATCH_ENTRY keeps its three labels. */
    method Catch(start: nat, end: nat, cont: nat)
      requires Valid() && start < labelNo && end < labelNo && cont < labelNo
      modifies this`refcnt
      ensures Valid()
      ensures forall k :: k != start && k != end && k != cont ==> Count(refcnt, k) == old(Count(refcnt, k))
    {
      Keep(start);
      Keep(end);
      Keep(cont);
    }
  }
}
