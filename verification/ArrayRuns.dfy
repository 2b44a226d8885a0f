/** Whole runs: arrays that share buffers cannot be told from arrays that share nothing. */
module ArrayRuns {
  import opened SharedArrays
  import opened ArrayOps

  /** An array as a program thinks of it. */
  datatype Plain = Plain(items: seq<Value>, frozen: bool)

  /** Operations on variables 0, 1, ...; those that make an array put it in the next variable. */
  datatype Op =
    | OpNew(vals: seq<Value>)
    | OpCat(i: nat, vals: seq<Value>)
    | OpPop(i: nat)
    | OpShift(i: nat)
    | OpPopN(i: nat, n: nat)
    | OpShiftN(i: nat, n: nat)
    | OpUnshift(i: nat, vals: seq<Value>)
    | OpStore(i: nat, idx: int, val: Value)
    | OpSubseq(i: nat, beg: int, len: int)
    | OpReplace(i: nat, j: nat)
    | OpClear(i: nat)
    | OpFreeze(i: nat)
    | OpDrop(i: nat)                                           // the variable goes
    | OpCollect(x: Ref)                                        // the collector comes to object x

  /** What an operation answers: an exception, an element, a new array, or nothing of interest. */
  datatype Answer = Raised(e: Outcome) | Element(v: Value) | Made | Quiet

  /** The operation names existing variables, and stays clear of the place where the code goes wrong: growing to the
      last index of all. */
  predicate Legal(vars: seq<Plain>, op: Op) {
    (op.OpNew? || op.OpCollect? || op.i < |vars|) &&
    match op
    case OpNew(vals) => |vals| <= ARY_MAX_SIZE
    case OpStore(i, idx, val) => idx == ARY_MAX_SIZE - 1 && !vars[i].frozen ==> idx < |vars[i].items|
    case OpReplace(i, j) => j < |vars|
    case _ => true
  }

  function Set(vars: seq<Plain>, i: nat, c: seq<Value>): (r: seq<Plain>)
    requires i < |vars|
  {
    vars[i := vars[i].(items := c)]
  }

  /** The element an index stands for. */
  function Index(c: seq<Value>, idx: int): (r: int) { if idx < 0 then idx + |c| else idx }

  /** What an operation answers on independent sequences. */
  function Answers(vars: seq<Plain>, op: Op): (a: Answer)
    requires Legal(vars, op)
  {
    if op.OpNew? then Made
    else if op.OpFreeze? || op.OpDrop? || op.OpCollect? then Quiet
    else
      var c := vars[op.i].items;
      if op.OpSubseq? then (if op.beg > |c| || op.beg < 0 || op.len < 0 then Element(Nil) else Made)
      else if TooBig(c, op) then Raised(IndexError)
      else if vars[op.i].frozen then Raised(FrozenError)
      else if op.OpPop? then Element(if c == [] then Nil else c[|c| - 1])
      else if op.OpShift? then Element(if c == [] then Nil else c[0])
      else if op.OpPopN? || op.OpShiftN? then Made
      else Quiet
  }

  /** The size or the index is out of range, which is noticed before the frozen flag. */
  predicate TooBig(c: seq<Value>, op: Op) {
    match op
    case OpCat(_, vals) => |c| + |vals| > ARY_MAX_SIZE
    case OpUnshift(_, vals) => |vals| > 0 && |c| + |vals| > ARY_MAX_SIZE
    case OpStore(_, idx, _) => Index(c, idx) < 0 || idx >= ARY_MAX_SIZE
    case _ => false
  }

  /** The answers there may be: one, except that an unshift to a frozen array may go through. */
  predicate May(vars: seq<Plain>, op: Op, a: Answer) {
    Legal(vars, op) &&
    (a == Answers(vars, op)
     || (op.OpUnshift? && vars[op.i].frozen && op.vals != [] && !TooBig(vars[op.i].items, op) && a == Quiet))
  }

  /** What an operation so answered does to independent sequences. */
  function Step(vars: seq<Plain>, op: Op, a: Answer): (r: seq<Plain>)
    requires May(vars, op, a)
  {
    if a.Raised? then vars
    else
      match op
      case OpNew(vals) => vars + [Plain(vals, false)]
      case OpFreeze(i) => vars[i := vars[i].(frozen := true)]
      case OpDrop(i) => vars[..i] + vars[i + 1..]
      case OpCollect(_) => vars
      case OpSubseq(i, beg, len) => if a.Made? then vars + [Plain(Sub(vars[i].items, beg, len), false)] else vars
      case _ => StepArray(vars, op)
  }

  function StepArray(vars: seq<Plain>, op: Op): (r: seq<Plain>)
    requires Legal(vars, op) && !op.OpNew? && !op.OpFreeze? && !op.OpDrop? && !op.OpCollect? && !op.OpSubseq?
    requires !TooBig(vars[op.i].items, op)
  {
    var c := vars[op.i].items;
    match op
    case OpCat(i, vals) => Set(vars, i, c + vals)
    case OpPop(i) => if c == [] then vars else Set(vars, i, c[..|c| - 1])
    case OpShift(i) => if c == [] then vars else Set(vars, i, c[1..])
    case OpPopN(i, n) =>
      var k := if n > |c| then 0 else |c| - n;
      Set(vars, i, c[..k]) + [Plain(c[k..], false)]
    case OpShiftN(i, n) =>
      var k := if n > |c| then |c| else n;
      Set(vars, i, c[k..]) + [Plain(c[..k], false)]
    case OpUnshift(i, vals) => Set(vars, i, vals + c)
    case OpStore(i, idx, val) => Set(vars, i, Stored(c, Index(c, idx), val))
    case OpReplace(i, j) => Set(vars, i, vars[j].items)
    case OpClear(i) => Set(vars, i, [])
  }

  /** What storing and slicing do to a sequence, element by element. */
  lemma StepEach(vars: seq<Plain>, op: Op, a: Answer)
    requires May(vars, op, a) && !a.Raised?
    ensures op.OpStore? ==>
              && |Step(vars, op, a)| == |vars|
              && IsStored(vars[op.i].items, Index(vars[op.i].items, op.idx), op.val, Step(vars, op, a)[op.i].items)
              && forall j :: 0 <= j < |vars| && j != op.i ==> Step(vars, op, a)[j] == vars[j]
    ensures op.OpSubseq? && a.Made? ==>
              && |Step(vars, op, a)| == |vars| + 1 && Step(vars, op, a)[..|vars|] == vars
              && IsSlice(vars[op.i].items, op.beg, op.len, Step(vars, op, a)[|vars|].items)
  {
    if op.OpStore? { StoredEach(vars[op.i].items, Index(vars[op.i].items, op.idx), op.val); }
    if op.OpSubseq? && a.Made? { SubEach(vars[op.i].items, op.beg, op.len); }
  }

  /** The heap holds, under the references in env, what the plain variables hold. */
  ghost predicate Agrees(s: Store, env: seq<Ref>, vars: seq<Plain>) {
    && |env| == |vars|
    && (forall i, j :: 0 <= i < j < |env| ==> env[i] != env[j])
    && (forall i :: 0 <= i < |env| ==>
          env[i] in View(s) && View(s)[env[i]] == vars[i].items && (env[i] in s.frozen <==> vars[i].frozen))
  }

  lemma AgreesUser(s: Store, env: seq<Ref>, vars: seq<Plain>, i: nat)
    requires Inv(s) && Agrees(s, env, vars) && i < |env|
    ensures User(s, env[i]) && Contents(s, env[i]) == vars[i].items && (env[i] in s.frozen <==> vars[i].frozen)
  {}

  lemma AgreesSet(s: Store, s': Store, env: seq<Ref>, vars: seq<Plain>, i: nat, c: seq<Value>)
    requires Agrees(s, env, vars) && i < |env| && Shows(s, s', env[i], c)
    ensures Agrees(s', env, Set(vars, i, c))
  {}

  lemma AgreesNew(s: Store, s': Store, env: seq<Ref>, vars: seq<Plain>, y: Ref, c: seq<Value>)
    requires Agrees(s, env, vars) && y !in s.objs && y !in s'.frozen && Shows(s, s', y, c)
    ensures Agrees(s', env + [y], vars + [Plain(c, false)])
  {
    assert forall i :: 0 <= i < |env| ==> env[i] != y;
  }

  lemma AgreesBoth(s: Store, s': Store, env: seq<Ref>, vars: seq<Plain>, i: nat, c: seq<Value>, y: Ref, d: seq<Value>)
    requires Agrees(s, env, vars) && i < |env| && y !in s.objs && y !in s'.frozen
    requires View(s') == View(s)[y := d][env[i] := c] && s'.frozen == s.frozen
    ensures Agrees(s', env + [y], Set(vars, i, c) + [Plain(d, false)])
  {
    assert forall i :: 0 <= i < |env| ==> env[i] != y;
  }

  lemma AgreesFreeze(s: Store, s': Store, env: seq<Ref>, vars: seq<Plain>, i: nat)
    requires Agrees(s, env, vars) && i < |env| && View(s') == View(s) && s'.frozen == s.frozen + {env[i]}
    ensures Agrees(s', env, vars[i := vars[i].(frozen := true)])
  {}

  lemma AgreesDrop(s: Store, env: seq<Ref>, vars: seq<Plain>, i: nat)
    requires Agrees(s, env, vars) && i < |env|
    ensures Agrees(s, env[..i] + env[i + 1..], vars[..i] + vars[i + 1..])
  {}

  lemma AgreesCollect(s: Store, s': Store, env: seq<Ref>, vars: seq<Plain>, x: Ref)
    requires Agrees(s, env, vars) && x !in env && View(s') == View(s) - {x} && s'.frozen == s.frozen
    ensures Agrees(s', env, vars)
  {}

  lemma AgreesSize(s: Store, env: seq<Ref>, vars: seq<Plain>)
    requires Agrees(s, env, vars)
    ensures |env| == |vars|
  {}

  /** What the program sees of an operation that raises or returns nothing of interest. */
  function Told(out: Outcome, a: Answer): (r: Answer) { if out == Done then a else Raised(out) }

  /** One operation on the heap is one operation on plain sequences, with the same answer. */
  method Exec(h: ArrayHeap, env: seq<Ref>, op: Op, ghost vars: seq<Plain>) returns (env': seq<Ref>, a: Answer)
    requires Inv(h.st) && Agrees(h.st, env, vars) && Legal(vars, op)
    modifies h
    ensures Inv(h.st) && May(vars, op, a) && Agrees(h.st, env', Step(vars, op, a))
  {
    hide Inv, View, Agrees, Contents;
    ghost var s0 := h.st;
    env', a := env, Quiet;
    AgreesSize(s0, env, vars);
    if op.OpNew? {
      var y := h.New(op.vals);
      AgreesNew(s0, h.st, env, vars, y, op.vals);
      env', a := env + [y], Made;
    } else if op.OpCollect? {
      if op.x in h.st.objs && op.x !in env && Unshared(h.st.objs, op.x) {
        h.Collect(op.x);
        AgreesCollect(s0, h.st, env, vars, op.x);
      }
    } else if op.OpDrop? {
      AgreesDrop(s0, env, vars, op.i);
      env' := env[..op.i] + env[op.i + 1..];
    } else if op.OpFreeze? {
      AgreesUser(s0, env, vars, op.i);
      h.Freeze(env[op.i]);
      AgreesFreeze(s0, h.st, env, vars, op.i);
    } else if op.OpSubseq? || op.OpPopN? || op.OpShiftN? {
      env', a := ExecTaking(h, env, op, vars);
    } else {
      a := ExecInPlace(h, env, op, vars);
    }
  }

  /** The operations that take a new array from one. */
  method ExecTaking(h: ArrayHeap, env: seq<Ref>, op: Op, ghost vars: seq<Plain>) returns (env': seq<Ref>, a: Answer)
    requires Inv(h.st) && Agrees(h.st, env, vars) && Legal(vars, op) && (op.OpSubseq? || op.OpPopN? || op.OpShiftN?)
    modifies h
    ensures Inv(h.st) && May(vars, op, a) && Agrees(h.st, env', Step(vars, op, a))
  {
    hide Inv, View, Agrees, Contents;
    ghost var s0 := h.st;
    AgreesSize(s0, env, vars);
    AgreesUser(s0, env, vars, op.i);
    ghost var c := vars[op.i].items;
    env' := env;
    if op.OpSubseq? {
      var y, nil := h.Subseq(env[op.i], op.beg, op.len);
      a := if nil then Element(Nil) else Made;
      if !nil {
        AgreesNew(s0, h.st, env, vars, y, Sub(c, op.beg, op.len));
        env' := env + [y];
      }
    } else if op.OpPopN? {
      var out, y := h.PopN(env[op.i], op.n);
      a := Told(out, Made);
      if out == Done {
        ghost var k := if op.n > |c| then 0 else |c| - op.n;
        AgreesBoth(s0, h.st, env, vars, op.i, c[..k], y, c[k..]);
        env' := env + [y];
      }
    } else {
      var out, y := h.ShiftN(env[op.i], op.n);
      a := Told(out, Made);
      if out == Done {
        ghost var k := if op.n > |c| then |c| else op.n;
        AgreesBoth(s0, h.st, env, vars, op.i, c[k..], y, c[..k]);
        env' := env + [y];
      }
    }
  }

  /** The operations that make no new array. */
  method ExecInPlace(h: ArrayHeap, env: seq<Ref>, op: Op, ghost vars: seq<Plain>) returns (a: Answer)
    requires Inv(h.st) && Agrees(h.st, env, vars) && Legal(vars, op)
    requires op.OpCat? || op.OpPop? || op.OpShift? || op.OpUnshift? || op.OpStore? || op.OpReplace? || op.OpClear?
    modifies h
    ensures Inv(h.st) && May(vars, op, a) && Agrees(h.st, env, Step(vars, op, a))
  {
    hide Inv, View, Agrees, Contents, ModifiedCapa, RoomInFront, IsStored, Stored, Alone, Private, Room;
    ghost var s0 := h.st;
    AgreesSize(s0, env, vars);
    AgreesUser(s0, env, vars, op.i);
    ghost var c := vars[op.i].items;
    var x := env[op.i];
    if op.OpCat? {
      var out := h.Cat(x, op.vals);
      a := Told(out, Quiet);
      if out == Done { AgreesSet(s0, h.st, env, vars, op.i, c + op.vals); }
    } else if op.OpPop? {
      var out, v := h.Pop(x);
      a := Told(out, Element(v));
      if out == Done && c != [] { AgreesSet(s0, h.st, env, vars, op.i, c[..|c| - 1]); }
    } else if op.OpShift? {
      var out, v := h.Shift(x);
      a := Told(out, Element(v));
      if out == Done && c != [] { AgreesSet(s0, h.st, env, vars, op.i, c[1..]); }
    } else if op.OpUnshift? {
      var out := h.Unshift(x, op.vals);
      a := Told(out, Quiet);
      if out == Done { AgreesSet(s0, h.st, env, vars, op.i, op.vals + c); }
    } else if op.OpStore? {
      EnoughCapa(s0, x);
      var out := h.StoreAt(x, op.idx, op.val);
      a := Told(out, Quiet);
      if out == Done { AgreesSet(s0, h.st, env, vars, op.i, Stored(c, Index(c, op.idx), op.val)); }
    } else if op.OpReplace? {
      AgreesUser(s0, env, vars, op.j);
      var out := h.Replace(x, env[op.j]);
      a := Told(out, Quiet);
      if out == Done { AgreesSet(s0, h.st, env, vars, op.i, vars[op.j].items); }
    } else {
      var out := h.Clear(x);
      a := Told(out, Quiet);
      if out == Done { AgreesSet(s0, h.st, env, vars, op.i, []); }
    }
  }

  /** An array that can be modified has room for the elements it has. */
  lemma EnoughCapa(s: Store, x: Ref)
    requires Inv(s) && User(s, x)
    ensures x !in s.frozen ==> Len(s, x) <= ModifiedCapa(s, x)
  {
    UserFacts(s, x);
  }

  // ----- whole runs

  /** Whatever the answers so far were, each operation is legal when its turn comes. */
  ghost predicate AllLegal(vars: seq<Plain>, ops: seq<Op>)
    decreases |ops|
  {
    ops == [] || (Legal(vars, ops[0]) && forall a :: May(vars, ops[0], a) ==> AllLegal(Step(vars, ops[0], a), ops[1..]))
  }

  ghost predicate AllMay(vars: seq<Plain>, ops: seq<Op>, answers: seq<Answer>)
    decreases |ops|
  {
    |ops| == |answers| &&
    (ops == [] || (May(vars, ops[0], answers[0]) && AllMay(Step(vars, ops[0], answers[0]), ops[1..], answers[1..])))
  }

  ghost function Steps(vars: seq<Plain>, ops: seq<Op>, answers: seq<Answer>): (r: seq<Plain>)
    requires AllMay(vars, ops, answers)
    decreases |ops|
  {
    if ops == [] then vars else Steps(Step(vars, ops[0], answers[0]), ops[1..], answers[1..])
  }

  lemma {:induction false} StepsMore(vars: seq<Plain>, ops: seq<Op>, answers: seq<Answer>, op: Op, a: Answer)
    requires AllMay(vars, ops, answers) && May(Steps(vars, ops, answers), op, a)
    ensures AllMay(vars, ops + [op], answers + [a])
    ensures Steps(vars, ops + [op], answers + [a]) == Step(Steps(vars, ops, answers), op, a)
    decreases |ops|
  {
    hide May, Step;
    if ops == [] {
      assert (ops + [op])[1..] == [] && (answers + [a])[1..] == [];
    } else {
      assert (ops + [op])[1..] == ops[1..] + [op] && (answers + [a])[1..] == answers[1..] + [a];
      StepsMore(Step(vars, ops[0], answers[0]), ops[1..], answers[1..], op, a);
    }
  }

  /** Every run from the empty heap, whatever it makes share and whenever the collector comes, gives the answers and
      leaves the contents there would be if every array were a sequence of its own. */
  method Run(ops: seq<Op>) returns (h: ArrayHeap, env: seq<Ref>, answers: seq<Answer>)
    requires AllLegal([], ops)
    ensures Inv(h.st) && AllMay([], ops, answers) && Agrees(h.st, env, Steps([], ops, answers))
  {
    hide Inv, View, Agrees, Step, May;
    h := new ArrayHeap();
    env, answers := [], [];
    ghost var vars: seq<Plain> := [];
    assert ops[..0] == [] && ops[0..] == ops;
    AgreesNone(h.st);
    for k := 0 to |ops|
      invariant fresh(h) && Inv(h.st) && Agrees(h.st, env, vars) && AllLegal(vars, ops[k..])
      invariant AllMay([], ops[..k], answers) && vars == Steps([], ops[..k], answers)
    {
      assert ops[k..][0] == ops[k] && ops[k..][1..] == ops[k + 1..];
      var a;
      env, a := Exec(h, env, ops[k], vars);
      StepsMore([], ops[..k], answers, ops[k], a);
      assert ops[..k + 1] == ops[..k] + [ops[k]];
      answers := answers + [a];
      vars := Step(vars, ops[k], a);
    }
    assert ops[..|ops|] == ops;
  }

  lemma AgreesNone(s: Store)
    ensures Agrees(s, [], [])
  {}
}
