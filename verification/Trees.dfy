/** The syntax trees of control flow, and what they mean. */
module Trees {
  import opened Machine

  /** A tree node.  Opaque is any expression that is not control flow; Const is a literal, nil, true or
      false; Seq is a block of statements; Empty is the missing node. */
  datatype Node =
    | Empty
    | Opaque(id: nat)
    | Const(v: Value)
    | And(first: Node, second: Node)
    | Or(first: Node, second: Node)
    | If(unless: bool, cond: Node, body: Node, other: Node)
    | Loop(until: bool, cond: Node, body: Node, testFirst: bool)
    | Seq(first: Node, second: Node)

  datatype Outcome = Done(v: Value, trace: seq<nat>) | Timeout

  /** The value of a tree and the calls made.  A loop is given up after `fuel` rounds; an outcome
      that is not Timeout is the outcome. */
  function Eval(n: Node, ask: Oracle, trace: seq<nat>, fuel: nat): (r: Outcome)
    decreases fuel, n, 1
  {
    match n
    case Empty => Done(Nil, trace)
    case Opaque(id) => Done(ask(id, trace), trace + [id])
    case Const(v) => Done(v, trace)
    case And(a, b) =>
      var r := Eval(a, ask, trace, fuel);
      if r.Done? && Truthy(r.v) then Eval(b, ask, r.trace, fuel) else r
    case Or(a, b) =>
      var r := Eval(a, ask, trace, fuel);
      if r.Done? && !Truthy(r.v) then Eval(b, ask, r.trace, fuel) else r
    case If(unless, c, body, other) =>
      var r := Eval(c, ask, trace, fuel);
      if r.Timeout? then r
      else if Truthy(r.v) != unless then Eval(body, ask, r.trace, fuel)
      else Eval(other, ask, r.trace, fuel)
    case Loop(_, c, body, testFirst) =>
      if testFirst then Rounds(n, ask, trace, fuel)
      else
        var r := Eval(body, ask, trace, fuel);
        if r.Timeout? then r else Rounds(n, ask, r.trace, fuel)
    case Seq(a, b) =>
      var r := Eval(a, ask, trace, fuel);
      if r.Timeout? then r else Eval(b, ask, r.trace, fuel)
  }

  /** A loop from where it tests its condition. */
  function Rounds(n: Node, ask: Oracle, trace: seq<nat>, fuel: nat): (r: Outcome)
    requires n.Loop?
    decreases fuel, n, 0
  {
    if fuel == 0 then Timeout
    else
      var r := Eval(n.cond, ask, trace, fuel);
      if r.Timeout? then r
      else if Truthy(r.v) != n.until then
        var b := Eval(n.body, ask, r.trace, fuel);
        if b.Timeout? then b else Rounds(n, ask, b.trace, fuel - 1)
      else Done(Nil, r.trace)
  }
}
