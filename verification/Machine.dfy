/** The instructions compile.c emits for control flow, and what running them means. */
module Machine {

  datatype Value = Nil | False | True | Object(id: nat)

  /** RTEST */
  predicate Truthy(v: Value) { !v.Nil? && !v.False? }

  /** An element of the list that code generation builds.  Call stands for the instructions of any
      expression that is not control flow: they push one value.  Restore is an ADJUST without a line. */
  datatype Elem =
    | Label(l: nat) | Restore(l: nat)
    | Jump(l: nat) | BranchIf(l: nat) | BranchUnless(l: nat)
    | PutObject(v: Value) | Dup | Pop | Call(id: nat)
  {
    predicate Branches() { Jump? || BranchIf? || BranchUnless? }
  }

  type Code = seq<Elem>

  /** The trace is the list of calls made so far: it stands for the state of the program. */
  datatype State = State(pc: nat, stack: seq<Value>, trace: seq<nat>)

  datatype Option<T> = None | Some(value: T)

  /** What a call answers may depend on every call made before it. */
  type Oracle = (nat, seq<nat>) -> Value

  /** The position of a label. */
  function Find(code: Code, l: nat): (i: nat)
    ensures i <= |code|
  {
    if code == [] || code[0] == Label(l) then 0 else 1 + Find(code[1..], l)
  }

  /** One step, if there is one: at the end of the code, or with too few operands, there is none. */
  function Step(code: Code, ask: Oracle, s: State): (r: Option<State>) {
    if s.pc >= |code| then None
    else
      var n := |s.stack|;
      match code[s.pc]
      case Label(_) => Some(s.(pc := s.pc + 1))
      case Restore(_) => Some(s.(pc := s.pc + 1))
      case Jump(l) => Some(s.(pc := Find(code, l)))
      case BranchIf(l) =>
        if n == 0 then None
        else Some(State(if Truthy(s.stack[n - 1]) then Find(code, l) else s.pc + 1, s.stack[..n - 1], s.trace))
      case BranchUnless(l) =>
        if n == 0 then None
        else Some(State(if Truthy(s.stack[n - 1]) then s.pc + 1 else Find(code, l), s.stack[..n - 1], s.trace))
      case PutObject(v) => Some(s.(pc := s.pc + 1, stack := s.stack + [v]))
      case Dup => if n == 0 then None else Some(s.(pc := s.pc + 1, stack := s.stack + [s.stack[n - 1]]))
      case Pop => if n == 0 then None else Some(s.(pc := s.pc + 1, stack := s.stack[..n - 1]))
      case Call(id) => Some(State(s.pc + 1, s.stack + [ask(id, s.trace)], s.trace + [id]))
  }

  function Run(code: Code, ask: Oracle, s: State, k: nat): (r: Option<State>)
    decreases k
  {
    if k == 0 then Some(s)
    else match Step(code, ask, s)
      case None => None
      case Some(t) => Run(code, ask, t, k - 1)
  }

  ghost predicate Reaches(code: Code, ask: Oracle, s: State, t: State) {
    exists k: nat :: Run(code, ask, s, k) == Some(t)
  }

  /** The run goes on for n steps at least. */
  ghost predicate Lasts(code: Code, ask: Oracle, s: State, n: nat) {
    exists k: nat :: k >= n && Run(code, ask, s, k).Some?
  }

  lemma {:induction false} RunSplit(code: Code, ask: Oracle, s: State, j: nat, k: nat)
    requires Run(code, ask, s, j).Some?
    ensures Run(code, ask, s, j + k) == Run(code, ask, Run(code, ask, s, j).value, k)
    decreases j
  {
    if j > 0 { RunSplit(code, ask, Step(code, ask, s).value, j - 1, k); }
  }

  lemma ReachesTrans(code: Code, ask: Oracle, s: State, t: State, u: State)
    requires Reaches(code, ask, s, t) && Reaches(code, ask, t, u)
    ensures Reaches(code, ask, s, u)
  {
    var j: nat :| Run(code, ask, s, j) == Some(t);
    var k: nat :| Run(code, ask, t, k) == Some(u);
    RunSplit(code, ask, s, j, k);
  }

  lemma ReachesLasts(code: Code, ask: Oracle, s: State, t: State, n: nat)
    requires Reaches(code, ask, s, t) && Lasts(code, ask, t, n)
    ensures Lasts(code, ask, s, n)
  {
    var j: nat :| Run(code, ask, s, j) == Some(t);
    var k: nat :| k >= n && Run(code, ask, t, k).Some?;
    RunSplit(code, ask, s, j, k);
  }

  lemma StepReaches(code: Code, ask: Oracle, s: State, t: State)
    requires Step(code, ask, s) == Some(t)
    ensures Reaches(code, ask, s, t)
  {
    assert Run(code, ask, t, 0) == Some(t);
    assert Run(code, ask, s, 1) == Some(t);
  }

  lemma StepThen(code: Code, ask: Oracle, s: State, t: State, u: State)
    requires Step(code, ask, s) == Some(t) && Reaches(code, ask, t, u)
    ensures Reaches(code, ask, s, u)
  {
    StepReaches(code, ask, s, t);
    ReachesTrans(code, ask, s, t, u);
  }

  lemma StepLasts(code: Code, ask: Oracle, s: State, t: State, n: nat)
    requires Step(code, ask, s) == Some(t) && Lasts(code, ask, t, n)
    ensures Lasts(code, ask, s, n + 1)
  {
    var k: nat :| k >= n && Run(code, ask, t, k).Some?;
    assert Run(code, ask, s, k + 1) == Run(code, ask, t, k);
  }

  lemma LastsLess(code: Code, ask: Oracle, s: State, n: nat, m: nat)
    requires Lasts(code, ask, s, n) && m <= n
    ensures Lasts(code, ask, s, m)
  {
  }

  lemma Stay(code: Code, ask: Oracle, s: State)
    ensures Reaches(code, ask, s, s) && Lasts(code, ask, s, 0)
  {
    assert Run(code, ask, s, 0) == Some(s);
  }

  // ----- labels of a list

  function Defs(code: Code): (r: set<nat>) {
    if code == [] then {} else (if code[0].Label? then {code[0].l} else {}) + Defs(code[1..])
  }

  function Targets(code: Code): (r: set<nat>) {
    if code == [] then {} else (if code[0].Branches() then {code[0].l} else {}) + Targets(code[1..])
  }

  /** How often a label is referred to. */
  function Refs(code: Code, l: nat): (r: nat)
    ensures r > 0 <==> l in Targets(code)
  {
    if code == [] then 0 else (if code[0].Branches() && code[0].l == l then 1 else 0) + Refs(code[1..], l)
  }

  predicate Distinct(code: Code) {
    code == [] || (Distinct(code[1..]) && (code[0].Label? ==> code[0].l !in Defs(code[1..])))
  }

  /** Every label is placed once, and every branch goes to one. */
  predicate Linked(code: Code) { Distinct(code) && Targets(code) <= Defs(code) }

  lemma {:induction false} Concat(a: Code, b: Code)
    ensures Defs(a + b) == Defs(a) + Defs(b)
    ensures Targets(a + b) == Targets(a) + Targets(b)
    ensures Distinct(a + b) <==> Distinct(a) && Distinct(b) && Defs(a) !! Defs(b)
  {
    if a == [] {
      assert a + b == b;
    } else {
      assert (a + b)[1..] == a[1..] + b;
      Concat(a[1..], b);
    }
  }

  lemma {:induction false} ConcatRefs(a: Code, b: Code, l: nat)
    ensures Refs(a + b, l) == Refs(a, l) + Refs(b, l)
  {
    if a == [] {
      assert a + b == b;
    } else {
      assert (a + b)[1..] == a[1..] + b;
      ConcatRefs(a[1..], b, l);
    }
  }

  lemma {:induction false} DefsAt(code: Code, i: nat)
    requires i < |code|
    ensures code[i].Label? ==> code[i].l in Defs(code)
    ensures code[i].Branches() ==> code[i].l in Targets(code)
  {
    if i > 0 { DefsAt(code[1..], i - 1); }
  }

  /** A branch to a label goes to where it is placed. */
  lemma {:induction false} FindAt(code: Code, i: nat)
    requires Distinct(code) && i < |code| && code[i].Label?
    ensures Find(code, code[i].l) == i
  {
    if i > 0 {
      DefsAt(code[1..], i - 1);
      FindAt(code[1..], i - 1);
    }
  }

  /** code stands at position a of the list. */
  ghost predicate Placed(all: Code, a: nat, code: Code) {
    a + |code| <= |all| && all[a..a + |code|] == code
  }

  lemma PlacedSplit(all: Code, a: nat, x: Code, y: Code)
    requires Placed(all, a, x + y)
    ensures Placed(all, a, x) && Placed(all, a + |x|, y)
  {
    assert all[a..a + |x|] == (x + y)[..|x|];
    assert all[a + |x|..a + |x| + |y|] == (x + y)[|x|..];
  }

  lemma PlacedAt(all: Code, a: nat, code: Code, i: nat)
    requires Placed(all, a, code) && i < |code|
    ensures all[a + i] == code[i]
  {
    assert all[a..a + |code|][i] == all[a + i];
  }
}
