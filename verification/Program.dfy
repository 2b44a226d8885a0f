/** From tree to words: what the assembled code of a whole tree does. */
module Program {
  import opened Machine
  import opened Trees
  import opened CodeGen
  import opened CodeShape
  import opened CodeMeaning
  import CodeDepth
  import CodeBalance
  import FixDepth
  import opened Assembler
  import opened Compiler

  const JUMP := 2
  const BRANCHIF := 3
  const BRANCHUNLESS := 4
  const PUTOBJECT := 5
  const DUP := 6
  const CALL := 7

  const QFALSE := 0
  const QNIL := 8
  const QTRUE := 20

  /** The word of a value; every other object is numbered as a fixnum. */
  function ValueWord(v: Value): (w: int) {
    match v
    case Nil => QNIL
    case False => QFALSE
    case True => QTRUE
    case Object(id) => 2 * id + 1
  }

  function WordValue(w: int): (v: Value) {
    if w == QNIL then Nil else if w == QFALSE then False else if w == QTRUE then True
    else Object(if w < 0 then 0 else w / 2)
  }

  /** RTEST: some bit other than those of QNIL is set. */
  predicate RTest(w: int) { w / 16 != 0 || w % 8 != 0 }

  /** The instructions test words, the trees test values: it is the same test. */
  lemma TruthyWord(v: Value)
    ensures RTest(ValueWord(v)) == Truthy(v) && WordValue(ValueWord(v)) == v
  {
    if v.Object? { assert (2 * v.id + 1) % 8 != 0; }
  }

  /** A list element as the assembler takes it. */
  function ToItem(e: Elem): (r: Item) {
    match e
    case Label(l) => Mark(l)
    case Restore(l) => Adjust(false, Some(l))
    case Jump(l) => Insn(JUMP, 0, [Offset(l)])
    case BranchIf(l) => Insn(BRANCHIF, -1, [Offset(l)])
    case BranchUnless(l) => Insn(BRANCHUNLESS, -1, [Offset(l)])
    case PutObject(v) => Insn(PUTOBJECT, 1, [Word(ValueWord(v))])
    case Dup => Insn(DUP, 1, [])
    case Pop => Insn(POP, -1, [])
    case Call(id) => Insn(CALL, 1, [Word(id)])
  }

  function Items(code: Code): (r: seq<Item>) { seq(|code|, i requires 0 <= i < |code| => ToItem(code[i])) }

  /** One step of the assembled code. */
  function Tick(words: seq<int>, ask: Oracle, s: State): (r: Option<State>) {
    if s.pc >= |words| then None
    else
      var n, op, w := |s.stack|, words[s.pc], if s.pc + 1 < |words| then words[s.pc + 1] else 0;
      if op == JUMP then Goto(s, s.pc + 2 + w)
      else if op == PUTOBJECT then Some(s.(pc := s.pc + 2, stack := s.stack + [WordValue(w)]))
      else if op == CALL && w >= 0 then Some(State(s.pc + 2, s.stack + [ask(w, s.trace)], s.trace + [w]))
      else if n == 0 then None
      else
        var top, rest := s.stack[n - 1], s.(stack := s.stack[..n - 1]);
        if op == ADJUSTSTACK then (if 0 <= w <= n then Some(s.(pc := s.pc + 2, stack := s.stack[..n - w])) else None)
        else if op == POP then Some(rest.(pc := s.pc + 1))
        else if op == DUP then Some(s.(pc := s.pc + 1, stack := s.stack + [top]))
        else if op == BRANCHIF then Goto(rest, if RTest(ValueWord(top)) then s.pc + 2 + w else s.pc + 2)
        else if op == BRANCHUNLESS then Goto(rest, if RTest(ValueWord(top)) then s.pc + 2 else s.pc + 2 + w)
        else None
  }

  function Goto(s: State, pc: int): (r: Option<State>) { if pc < 0 then None else Some(s.(pc := pc)) }

  function Ticks(words: seq<int>, ask: Oracle, s: State, k: nat): (r: Option<State>)
    decreases k
  {
    if k == 0 then Some(s)
    else match Tick(words, ask, s)
      case None => None
      case Some(t) => Ticks(words, ask, t, k - 1)
  }

  // ----- the words follow the list

  lemma ItemsResolved(code: Code, depth: Depths)
    requires Linked(code)
    ensures Resolved(Items(code)) && SamePlaces(Items(code), depth)
  {
    var list := Items(code);
    forall i, j | 0 <= i < j < |list| && list[i].Mark? ensures list[i] != list[j] {
      if list[i] == list[j] { FindAt(code, i); FindAt(code, j); assert false; }
    }
    forall i, j | 0 <= i < |list| && list[i].Insn? && 0 <= j < |list[i].operands| && list[i].operands[j].Offset?
      ensures Mark(list[i].operands[j].l) in list
    {
      DefsAt(code, i);
      CodeDepth.FindDef(code, code[i].l);
      assert list[Find(code, code[i].l)] == Mark(code[i].l);
    }
    FixDepth.SeparatedAgree(list, depth);
  }

  ghost function At(code: Code, depth: Depths, i: nat): (r: nat)
    requires i <= |code|
  {
    Pass2(Items(code), depth, i).index
  }

  ghost function AllWords(code: Code, depth: Depths): (r: seq<int>) { Emitted(Items(code), depth, |code|) }

  /** A label is found at the same place in the code and in the items. */
  lemma {:induction false} SameFind(code: Code, l: nat)
    ensures FindMark(Items(code), l) == Find(code, l)
  {
    if code != [] && code[0] != Label(l) {
      assert Items(code)[1..] == Items(code[1..]);
      SameFind(code[1..], l);
    }
  }

  /** The words of element i. */
  lemma Encoded(code: Code, depth: Depths, i: nat)
    requires Linked(code) && i < |code|
    ensures At(code, depth, |code|) == |AllWords(code, depth)|
    ensures var e, p, words := code[i], At(code, depth, i), AllWords(code, depth);
            if e.Label? || e.Restore? then At(code, depth, i + 1) == p
            else
              && p < |words| && words[p] == ToItem(e).op && At(code, depth, i + 1) == p + 1 + |ToItem(e).operands|
              && (e.PutObject? ==> p + 1 < |words| && words[p + 1] == ValueWord(e.v))
              && (e.Call? ==> p + 1 < |words| && words[p + 1] == e.id)
              && (e.Branches() ==> && p + 1 < |words| && Find(code, e.l) < |code|
                                   && p + 2 + words[p + 1] == At(code, depth, Find(code, e.l)))
  {
    hide Pass1, Pass2, Words, Emitted, Resolved, Linked, SamePlaces, Position, Find, FindMark, OperandWord;
    var list, e := Items(code), code[i];
    assert list[i] == ToItem(e);
    ItemWalk(list, depth, i);
    if !e.Label? && !e.Restore? {
      InsnWord(list, depth, i, 0);
      EmittedAt(list, depth, i, |list|, 0);
      if e.PutObject? || e.Call? { EmittedAt(list, depth, i, |list|, 1); }
      if e.Branches() { EncodedBranch(code, depth, i); }
    }
  }

  lemma EncodedBranch(code: Code, depth: Depths, i: nat)
    requires Linked(code) && i < |code| && code[i].Branches()
    ensures var l, p, words := code[i].l, At(code, depth, i), AllWords(code, depth);
            && p + 1 < |words| && Find(code, l) < |code| && p + 2 + words[p + 1] == At(code, depth, Find(code, l))
  {
    hide Pass1, Pass2, Words, Emitted, Resolved, Linked, SamePlaces, Position, Find, FindMark, OperandWord;
    var list := Items(code);
    assert list[i] == ToItem(code[i]);
    ItemsResolved(code, depth);
    OffsetLands(list, depth, i, 0);
    SameFind(code, code[i].l);
  }

  ghost function Flat(code: Code, depth: Depths, s: State): (r: State)
    requires s.pc <= |code|
  {
    s.(pc := At(code, depth, s.pc))
  }

  /** A step of the list is a step of the words, or none at all for a label. */
  lemma StepTicks(code: Code, depth: Depths, ask: Oracle, s: State)
    requires Linked(code) && Step(code, ask, s).Some?
    ensures s.pc < |code| && Step(code, ask, s).value.pc <= |code|
    ensures var t := Step(code, ask, s).value;
            if code[s.pc].Label? || code[s.pc].Restore? then
              Flat(code, depth, t) == Flat(code, depth, s) && t.pc == s.pc + 1
            else Tick(AllWords(code, depth), ask, Flat(code, depth, s)) == Some(Flat(code, depth, t))
  {
    hide Linked, Find, AllWords, At, Items, RTest, ValueWord, WordValue;
    Encoded(code, depth, s.pc);
    var e, n := code[s.pc], |s.stack|;
    if e.PutObject? {
      TruthyWord(e.v);
    } else if e.BranchIf? || e.BranchUnless? {
      TruthyWord(s.stack[n - 1]);
    }
  }

  /** A run of the list is a run of the words, with no more than |code| labels between two steps. */
  lemma {:induction false} RunTicks(code: Code, depth: Depths, ask: Oracle, s: State, k: nat) returns (f: nat)
    requires Linked(code) && s.pc <= |code| && Run(code, ask, s, k).Some?
    ensures Run(code, ask, s, k).value.pc <= |code|
    ensures Ticks(AllWords(code, depth), ask, Flat(code, depth, s), f) == Some(Flat(code, depth, Run(code, ask, s, k).value))
    ensures k + s.pc <= Mul(f, |code| + 1) + Run(code, ask, s, k).value.pc
    decreases k
  {
    hide Linked, AllWords, Flat, Step, Tick, Mul;
    if k == 0 {
      f := 0;
      MulZero(|code| + 1);
    } else {
      var t := Step(code, ask, s).value;
      StepTicks(code, depth, ask, s);
      f := RunTicks(code, depth, ask, t, k - 1);
      if !(code[s.pc].Label? || code[s.pc].Restore?) {
        MulNext(f, |code| + 1);
        f := f + 1;
      }
    }
  }

  ghost function Mul(a: nat, b: nat): (r: nat) { a * b }

  lemma MulZero(b: nat)
    ensures Mul(0, b) == 0
  {
  }

  lemma MulNext(a: nat, b: nat)
    ensures Mul(a + 1, b) == Mul(a, b) + b
  {
  }

  lemma {:induction false} MulMono(a: nat, a': nat, b: nat)
    requires a <= a'
    ensures Mul(a, b) <= Mul(a', b)
  {
    hide Mul;
    if a < a' {
      MulMono(a, a' - 1, b);
      MulNext(a' - 1, b);
    }
  }

  lemma {:induction false} TicksSplit(words: seq<int>, ask: Oracle, s: State, j: nat, k: nat)
    requires Ticks(words, ask, s, j).Some?
    ensures Ticks(words, ask, s, j + k) == Ticks(words, ask, Ticks(words, ask, s, j).value, k)
    decreases j
  {
    if j > 0 { TicksSplit(words, ask, Tick(words, ask, s).value, j - 1, k); }
  }

  lemma TicksEnd(words: seq<int>, ask: Oracle, s: State, j: nat, k: nat)
    requires Ticks(words, ask, s, j).Some? && Ticks(words, ask, s, j).value.pc == |words| && Ticks(words, ask, s, k).Some?
    ensures k <= j
  {
    if k > j { TicksSplit(words, ask, s, j, k - j); }
  }

  // ----- what an emitting ADJUST does

  /** The words of an emitting ADJUST that starts `diff` above its goal. */
  lemma AdjustLies(list: seq<Item>, depth: Depths, i: nat)
    requires i < |list| && list[i].Adjust? && list[i].emits
    ensures var diff := FixDepth.Level(list, depth, true, i) - Goal(depth, list[i].to);
            var p, q, all := Pass2(list, depth, i).index, Pass2(list, depth, i + 1).index, Emitted(list, depth, |list|);
            && p <= q <= |all|
            && all[p..q] == if diff <= 0 then [] else if diff == 1 then [POP] else [ADJUSTSTACK, diff]
  {
    hide Pass1, Pass2, Emitted, Words, FixDepth.Level;
    var p, q, all := Pass2(list, depth, i).index, Pass2(list, depth, i + 1).index, Emitted(list, depth, |list|);
    FixDepth.LevelIs(list, depth, i);
    ItemWalk(list, depth, i);
    IndexGrows(list, depth, i, i + 1);
    IndexGrows(list, depth, i + 1, |list|);
    EmittedStep(list, depth, i);
    forall j | 0 <= j < q - p ensures all[p + j] == Words(list, depth, i)[j] { EmittedAt(list, depth, i, |list|, j); }
  }

  /** Run, they take exactly the values above the goal off the stack, and go on behind the ADJUST. */
  lemma AdjustRuns(list: seq<Item>, depth: Depths, ask: Oracle, i: nat, s: State) returns (k: nat)
    requires i < |list| && list[i].Adjust? && list[i].emits && s.pc == Pass2(list, depth, i).index
    requires 0 <= FixDepth.Level(list, depth, true, i) - Goal(depth, list[i].to) <= |s.stack|
    ensures Ticks(Emitted(list, depth, |list|), ask, s, k)
         == Some(State(Pass2(list, depth, i + 1).index,
                       s.stack[..|s.stack| - (FixDepth.Level(list, depth, true, i) - Goal(depth, list[i].to))], s.trace))
  {
    hide Pass1, Pass2, Emitted, FixDepth.Level;
    AdjustLies(list, depth, i);
    var diff := FixDepth.Level(list, depth, true, i) - Goal(depth, list[i].to);
    var p, q, all := Pass2(list, depth, i).index, Pass2(list, depth, i + 1).index, Emitted(list, depth, |list|);
    if diff == 0 {
      k := 0;
      assert |all[p..q]| == 0 && s.stack[..|s.stack|] == s.stack;
    } else {
      k := 1;
      assert all[p] == all[p..q][0];
      if diff > 1 { assert all[p + 1] == all[p..q][1] && |all[p..q]| == 2; } else { assert |all[p..q]| == 1; }
      OneTick(all, ask, s);
    }
  }

  lemma OneTick(words: seq<int>, ask: Oracle, s: State)
    requires Tick(words, ask, s).Some?
    ensures Ticks(words, ask, s, 1) == Tick(words, ask, s)
  {
    assert Ticks(words, ask, Tick(words, ask, s).value, 0) == Tick(words, ask, s);
  }

  // ----- whole trees

  const START := State(0, [], [])

  function End(words: seq<int>, popped: bool, v: Value, trace: seq<nat>): (s: State) {
    State(|words|, if popped then [] else [v], trace)
  }

  /** The words do what the tree does: they end if the tree's evaluation does, and then with the same calls in
      the same order and the same value; and they end only then. */
  ghost predicate Means(words: seq<int>, n: Node, popped: bool, ask: Oracle) {
    && (forall fuel: nat :: Eval(n, ask, [], fuel).Done? ==> Ends(words, ask, popped, Eval(n, ask, [], fuel)))
    && (forall k: nat :: Ticks(words, ask, START, k).Some? && Ticks(words, ask, START, k).value.pc == |words| ==>
          exists fuel: nat :: var r := Eval(n, ask, [], fuel);
            r.Done? && Ticks(words, ask, START, k).value == End(words, popped, r.v, r.trace))
  }

  ghost predicate Ends(words: seq<int>, ask: Oracle, popped: bool, r: Outcome)
    requires r.Done?
  {
    exists k: nat :: Ticks(words, ask, START, k) == Some(End(words, popped, r.v, r.trace))
  }

  ghost function TreeCode(n: Node, popped: bool): (code: Code) { Gen(n, popped, 0).code }

  lemma TreeLinked(n: Node, popped: bool)
    ensures Linked(TreeCode(n, popped)) && Placed(TreeCode(n, popped), 0, TreeCode(n, popped))
  {
    GenLinked(n, popped, 0);
  }

  lemma TreeMeets(n: Node, popped: bool, ask: Oracle, fuel: nat)
    ensures var code := TreeCode(n, popped);
            ExprMeets(code, ask, START, Eval(n, ask, [], fuel), fuel, |code|, popped)
  {
    hide Gen, Placed, ExprMeets, Eval;
    TreeLinked(n, popped);
    GenMeets(TreeCode(n, popped), ask, n, popped, 0, START, fuel);
  }

  lemma TreeEnds(n: Node, popped: bool, depth: Depths, ask: Oracle, fuel: nat)
    requires Eval(n, ask, [], fuel).Done?
    ensures Ends(AllWords(TreeCode(n, popped), depth), ask, popped, Eval(n, ask, [], fuel))
  {
    hide TreeCode, Eval, AllWords, Linked, Run, Ticks, Placed, At;
    var code, r := TreeCode(n, popped), Eval(n, ask, [], fuel);
    TreeLinked(n, popped);
    TreeMeets(n, popped, ask, fuel);
    assert START.stack + [r.v] == [r.v];
    var k: nat :| Run(code, ask, START, k) == Some(State(|code|, if popped then [] else [r.v], r.trace));
    var f := RunTicks(code, depth, ask, START, k);
    AtEnds(code, depth);
  }

  lemma AtEnds(code: Code, depth: Depths)
    ensures At(code, depth, 0) == 0 && At(code, depth, |code|) == |AllWords(code, depth)|
  {
  }

  /** If the words end, so does the tree's evaluation. */
  lemma TreeDone(n: Node, popped: bool, depth: Depths, ask: Oracle, k: nat) returns (fuel: nat)
    requires var words := AllWords(TreeCode(n, popped), depth);
             Ticks(words, ask, START, k).Some? && Ticks(words, ask, START, k).value.pc == |words|
    ensures Eval(n, ask, [], fuel).Done?
  {
    hide TreeCode, Eval, AllWords, Linked, Run, Ticks, Placed, At, Mul;
    var code := TreeCode(n, popped);
    fuel := Mul(k, |code| + 1) + |code| + 1;
    TreeLinked(n, popped);
    TreeMeets(n, popped, ask, fuel);
    if Eval(n, ask, [], fuel).Timeout? {
      var j: nat :| j >= fuel && Run(code, ask, START, j).Some?;
      var f := RunTicks(code, depth, ask, START, j);
      AtEnds(code, depth);
      TicksEnd(AllWords(code, depth), ask, START, k, f);
      MulMono(f, k, |code| + 1);
      assert false;
    }
  }

  /** Every tree, whatever its opaque expressions answer. */
  lemma TreeMeans(n: Node, popped: bool, depth: Depths, ask: Oracle)
    ensures Means(AllWords(TreeCode(n, popped), depth), n, popped, ask)
  {
    hide TreeCode, Eval, AllWords, Ticks, Ends;
    var words := AllWords(TreeCode(n, popped), depth);
    forall fuel: nat | Eval(n, ask, [], fuel).Done? ensures Ends(words, ask, popped, Eval(n, ask, [], fuel)) {
      TreeEnds(n, popped, depth, ask, fuel);
    }
    forall k: nat | Ticks(words, ask, START, k).Some? && Ticks(words, ask, START, k).value.pc == |words|
      ensures exists fuel: nat :: var r := Eval(n, ask, [], fuel);
                r.Done? && Ticks(words, ask, START, k).value == End(words, popped, r.v, r.trace)
    {
      var fuel := TreeDone(n, popped, depth, ask, k);
      TreeEnds(n, popped, depth, ask, fuel);
      SameEnd(words, ask, popped, Eval(n, ask, [], fuel), k);
    }
  }

  lemma SameEnd(words: seq<int>, ask: Oracle, popped: bool, r: Outcome, k: nat)
    requires r.Done? && Ends(words, ask, popped, r)
    requires Ticks(words, ask, START, k).Some? && Ticks(words, ask, START, k).value.pc == |words|
    ensures Ticks(words, ask, START, k).value == End(words, popped, r.v, r.trace)
  {
    var j: nat :| Ticks(words, ask, START, j) == Some(End(words, popped, r.v, r.trace));
    TicksEnd(words, ask, START, j, k);
    TicksEnd(words, ask, START, k, j);
  }

  /** The list of a tree is never short of operands and never deeper than fix_sp_depth found. */
  lemma TreeFits(n: Node, popped: bool)
    ensures CodeDepth.Agrees(TreeCode(n, popped), CodeDepth.BEGIN) && CodeDepth.Flow(TreeCode(n, popped), CodeDepth.BEGIN).Some?
    ensures CodeDepth.Flow(TreeCode(n, popped), CodeDepth.BEGIN).value.sp == if popped then 0 else 1
    ensures CodeDepth.Fits(TreeCode(n, popped), START)
  {
    hide Gen;
    CodeBalance.GenBalance(n, popped, 0, CodeDepth.BEGIN);
    StartFits(TreeCode(n, popped));
  }

  lemma StartFits(code: Code)
    requires CodeDepth.Agrees(code, CodeDepth.BEGIN) && CodeDepth.Flow(code, CodeDepth.BEGIN).Some?
    ensures CodeDepth.Fits(code, START)
  {
    assert code[..0] == [];
    if |code| > 0 && code[0].Label? { CodeDepth.HereStep(code, 0); }
  }

  ghost predicate Bounded(code: Code, ask: Oracle, most: int) {
    forall k: nat :: match Run(code, ask, START, k)
      case Some(t) => |t.stack| <= most && t.pc <= |code|
      case None => exists j: nat :: j < k && Run(code, ask, START, j).Some? && Run(code, ask, START, j).value.pc == |code|
  }

  lemma TreeBounded(n: Node, popped: bool, ask: Oracle)
    ensures CodeDepth.Flow(TreeCode(n, popped), CodeDepth.BEGIN).Some?
    ensures Bounded(TreeCode(n, popped), ask, CodeDepth.Flow(TreeCode(n, popped), CodeDepth.BEGIN).value.most)
  {
    hide TreeCode, Run, CodeDepth.Agrees, CodeDepth.Flow, CodeDepth.Fits, Linked;
    var code := TreeCode(n, popped);
    TreeLinked(n, popped);
    TreeFits(n, popped);
    forall k: nat ensures match Run(code, ask, START, k)
      case Some(t) => |t.stack| <= CodeDepth.Flow(code, CodeDepth.BEGIN).value.most && t.pc <= |code|
      case None => exists j: nat :: j < k && Run(code, ask, START, j).Some? && Run(code, ask, START, j).value.pc == |code|
    {
      CodeDepth.RunFits(code, ask, START, k);
      if Run(code, ask, START, k).Some? {
        CodeDepth.FitsMost(code, Run(code, ask, START, k).value);
        CodeDepth.FitsPc(code, Run(code, ask, START, k).value);
      }
    }
  }

  // ----- the words are safe

  /** A run of the words has at most `most` values on its stack and stops only at the end. */
  ghost predicate WordsBounded(words: seq<int>, ask: Oracle, most: int) {
    forall k: nat :: TicksBounded(words, ask, START, k, most)
  }

  ghost predicate TicksBounded(words: seq<int>, ask: Oracle, s: State, k: nat, most: int) {
    match Ticks(words, ask, s, k)
    case Some(t) => |t.stack| <= most && t.pc <= |words|
    case None => exists j: nat :: j < k && Ticks(words, ask, s, j).Some? && Ticks(words, ask, s, j).value.pc == |words|
  }

  lemma FirstBounded(words: seq<int>, ask: Oracle, s: State, k: nat, most: int)
    requires |s.stack| <= most && s.pc <= |words|
    requires k > 0 ==> s.pc == |words| || (Tick(words, ask, s).Some? && TicksBounded(words, ask, Tick(words, ask, s).value, k - 1, most))
    ensures TicksBounded(words, ask, s, k, most)
  {
    if k > 0 {
      if s.pc == |words| {
        assert Ticks(words, ask, s, 0) == Some(s);
      } else if Ticks(words, ask, s, k).None? {
        var t := Tick(words, ask, s).value;
        var j: nat :| j < k - 1 && Ticks(words, ask, t, j).Some? && Ticks(words, ask, t, j).value.pc == |words|;
        assert Ticks(words, ask, s, j + 1) == Ticks(words, ask, t, j);
      }
    }
  }

  /** Every run of the words is followed by one of the list, whose stack the depths bound. */
  lemma {:induction false} WordsFit(code: Code, depth: Depths, ask: Oracle, s: State, k: nat)
    requires CodeDepth.Agrees(code, CodeDepth.BEGIN) && Linked(code) && CodeDepth.Fits(code, s)
    ensures s.pc <= |code| && CodeDepth.Flow(code, CodeDepth.BEGIN).Some?
    ensures TicksBounded(AllWords(code, depth), ask, Flat(code, depth, s), k, CodeDepth.Flow(code, CodeDepth.BEGIN).value.most)
    decreases k, |code| - s.pc
  {
    hide CodeDepth.Agrees, CodeDepth.Flow, Linked, CodeDepth.Fits, AllWords, Flat, Step, Tick, TicksBounded;
    CodeDepth.FitsPc(code, s);
    CodeDepth.FitsMost(code, s);
    FlatIs(code, depth, s);
    if s.pc < |code| {
      CodeDepth.StepFits(code, ask, s);
      StepTicks(code, depth, ask, s);
      var t := Step(code, ask, s).value;
      if code[s.pc].Label? || code[s.pc].Restore? {
        WordsFit(code, depth, ask, t, k);
      } else {
        if k > 0 { WordsFit(code, depth, ask, t, k - 1); }
        FirstBounded(AllWords(code, depth), ask, Flat(code, depth, s), k, CodeDepth.Flow(code, CodeDepth.BEGIN).value.most);
      }
    } else {
      FirstBounded(AllWords(code, depth), ask, Flat(code, depth, s), k, CodeDepth.Flow(code, CodeDepth.BEGIN).value.most);
    }
  }

  lemma FlatIs(code: Code, depth: Depths, s: State)
    requires s.pc <= |code|
    ensures Flat(code, depth, s).stack == s.stack && Flat(code, depth, s).pc <= |AllWords(code, depth)|
    ensures s.pc == |code| ==> Flat(code, depth, s).pc == |AllWords(code, depth)|
  {
    IndexGrows(Items(code), depth, s.pc, |code|);
  }

  /** The words of a tree are never short of operands, never leave their end, and never need more than the maximum. */
  lemma TreeWordsBounded(n: Node, popped: bool, depth: Depths, ask: Oracle)
    ensures CodeDepth.Flow(TreeCode(n, popped), CodeDepth.BEGIN).Some?
    ensures WordsBounded(AllWords(TreeCode(n, popped), depth), ask, CodeDepth.Flow(TreeCode(n, popped), CodeDepth.BEGIN).value.most)
  {
    hide TreeCode, CodeDepth.Agrees, CodeDepth.Flow, CodeDepth.Fits, Linked, AllWords, TicksBounded, At;
    var code := TreeCode(n, popped);
    TreeLinked(n, popped);
    TreeFits(n, popped);
    AtEnds(code, depth);
    forall k: nat ensures TicksBounded(AllWords(code, depth), ask, START, k, CodeDepth.Flow(code, CodeDepth.BEGIN).value.most) {
      WordsFit(code, depth, ask, START, k);
    }
  }

  // ----- compiling

  /** fix_sp_depth walks the items of a tree's list as it does the list. */
  lemma {:induction false} SameWalk(code: Code, i: nat)
    requires i <= |code|
    ensures var w := CodeDepth.Flow(code[..i], CodeDepth.BEGIN);
            FixDepth.Walked(Items(code), i) == if w.None? then None else Some(FixDepth.Walk(w.value.sp, w.value.tab, w.value.most))
  {
    if i > 0 {
      SameWalk(code, i - 1);
      assert code[..i] == code[..i - 1] + [code[i - 1]];
      CodeDepth.FlowConcat(code[..i - 1], [code[i - 1]], CodeDepth.BEGIN);
      var w := CodeDepth.Flow(code[..i - 1], CodeDepth.BEGIN);
      if w.Some? { SameNext(code[i - 1], w.value); }
    }
  }

  lemma SameNext(e: Elem, w: CodeDepth.Walk)
    ensures var v := CodeDepth.Flow([e], w);
            FixDepth.Next(ToItem(e), FixDepth.Walk(w.sp, w.tab, w.most))
            == if v.None? then None else Some(FixDepth.Walk(v.value.sp, v.value.tab, v.value.most))
  {
    hide FixDepth.Branched;
    assert [e][1..] == [];
    if e.PutObject? || e.Call? || e.Branches() {
      OneOperand(ToItem(e).operands[0], w.tab, w.sp + CodeDepth.Increase(e));
    } else {
      OneOperand(Word(0), w.tab, w.sp + CodeDepth.Increase(e));
    }
  }

  lemma OneOperand(o: Operand, tab: Depths, sp: int)
    ensures FixDepth.Branched([o], tab, sp) == if o.Offset? then CodeDepth.Touch(tab, o.l, sp) else tab
    ensures FixDepth.Branched([], tab, sp) == tab
  {
    assert [o][..0] == [];
  }

  lemma SameDepths(code: Code)
    requires Linked(code) && CodeDepth.Flow(code, CodeDepth.BEGIN).Some?
    ensures FixDepth.Accepted(Items(code))
    ensures FixDepth.Walked(Items(code), |Items(code)|).value.most == CodeDepth.Flow(code, CodeDepth.BEGIN).value.most
  {
    hide FixDepth.Walked, CodeDepth.Flow;
    SameWalk(code, |code|);
    assert code[..|code|] == code;
    ItemsResolved(code, map[]);
  }

  /** Generate the list and find its depths. */
  method Generate(n: Node, popped: bool) returns (code: Code, stackMax: int, depth: Depths)
    ensures code == TreeCode(n, popped)
    ensures forall ask: Oracle :: Bounded(code, ask, stackMax)
    ensures forall ask: Oracle :: WordsBounded(AllWords(code, depth), ask, stackMax)
  {
    hide Gen, Linked, Bounded, CodeDepth.Flow, CodeDepth.Agrees, CodeDepth.Fits, Counted, WordsBounded, AllWords, FixDepth.Accepted, FixDepth.Walked;
    var generator := new Generator();
    var ret := new Anchor();
    generator.CompileEach(ret, n, popped);
    code := ret.elems;
    assert code == TreeCode(n, popped);
    TreeLinked(n, popped);
    TreeFits(n, popped);
    SameDepths(code);
    ghost var sp;
    stackMax, depth, sp := FixDepth.FixSpDepth(Items(code));
    forall ask: Oracle ensures Bounded(code, ask, stackMax) { TreeBounded(n, popped, ask); }
    forall ask: Oracle ensures WordsBounded(AllWords(code, depth), ask, stackMax) { TreeWordsBounded(n, popped, depth, ask); }
  }

  /** Assemble a list. */
  method Assemble(code: Code, depth: Depths) returns (words: array<int>)
    requires Linked(code)
    ensures words[..] == AllWords(code, depth)
  {
    hide Pass1, Pass2, Emitted, Resolved, SamePlaces, Position, Linked, NoAdjustBug;
    ItemsResolved(code, depth);
    var position, size := PlaceLabels(Items(code), depth);
    var ok: bool;
    ok, words := EmitWords(Items(code), depth, position, size);
    NothingToAdjust(code, depth);
  }

  lemma NothingToAdjust(code: Code, depth: Depths)
    ensures forall i: nat :: i < |Items(code)| ==> NoAdjustBug(Items(code), depth, i)
  {
  }

  /** rb_iseq_compile_node for a tree of control flow: generate, find the depths, assemble. */
  method CompileTree(n: Node, popped: bool) returns (stackMax: int, words: array<int>)
    ensures forall ask: Oracle :: Means(words[..], n, popped, ask)
    ensures forall ask: Oracle :: Bounded(TreeCode(n, popped), ask, stackMax)
    ensures forall ask: Oracle :: WordsBounded(words[..], ask, stackMax)
  {
    hide TreeCode, Linked, Means, Bounded, WordsBounded, AllWords;
    var code, depth;
    code, stackMax, depth := Generate(n, popped);
    TreeLinked(n, popped);
    words := Assemble(code, depth);
    forall ask: Oracle ensures Means(words[..], n, popped, ask) { TreeMeans(n, popped, depth, ask); }
  }
}
