/** The two-pass assembler (iseq_set_sequence): from a list with labels to words with offsets. */
module Assembler {
  import opened Machine

  /** An operand: a word, or the offset to a label. */
  datatype Operand = Word(w: int) | Offset(l: nat)

  /** A list element.  `grow` is what the instruction adds to the stack.  An ADJUST brings the depth to
      that of a label, or to 0; with a line number it emits the pops, without it only restores the depth. */
  datatype Item =
    | Insn(op: int, grow: int, operands: seq<Operand>)
    | Mark(l: nat)
    | Trace
    | Adjust(emits: bool, to: Option<nat>)

  const POP := 0
  const ADJUSTSTACK := 1

  /** Where a pass is: the depth and the code index. */
  datatype Place = Place(sp: int, index: nat)

  type Depths = map<nat, int>

  function DepthOf(depth: Depths, l: nat): (r: int) { if l in depth then depth[l] else -1 }

  /** The depth an ADJUST goes to. */
  function Goal(depth: Depths, to: Option<nat>): (r: int) {
    match to
    case None => 0
    case Some(l) => DepthOf(depth, l)
  }

  /** The words an emitting ADJUST takes. */
  function Pops(diff: int): (r: nat) { if diff > 1 then 2 else if diff == 1 then 1 else 0 }

  function Length(e: Item): (r: nat)
    requires e.Insn?
  {
    1 + |e.operands|
  }

  function First(e: Item, p: Place, depth: Depths): (r: Place) {
    match e
    case Insn(_, grow, _) => Place(p.sp + grow, p.index + Length(e))
    case Mark(l) => p.(sp := DepthOf(depth, l))
    case Trace => p
    case Adjust(emits, to) =>
      if emits then Place(Goal(depth, to), p.index + Pops(p.sp - Goal(depth, to))) else p
  }

  function Second(e: Item, p: Place, depth: Depths): (r: Place) {
    match e
    case Adjust(emits, to) =>
      Place(Goal(depth, to), p.index + if emits then Pops(p.sp - Goal(depth, to)) else 0)
    case _ => First(e, p, depth)
  }

  /** The first and the second pass over the first i elements. */
  function Pass1(list: seq<Item>, depth: Depths, i: nat): (r: Place)
    requires i <= |list|
  {
    if i == 0 then Place(0, 0) else First(list[i - 1], Pass1(list, depth, i - 1), depth)
  }

  function Pass2(list: seq<Item>, depth: Depths, i: nat): (r: Place)
    requires i <= |list|
  {
    if i == 0 then Place(0, 0) else Second(list[i - 1], Pass2(list, depth, i - 1), depth)
  }

  /** Both passes give every element the same code index. */
  ghost predicate SamePlaces(list: seq<Item>, depth: Depths) {
    forall i: nat :: i <= |list| ==> Pass1(list, depth, i).index == Pass2(list, depth, i).index
  }

  // ----- the words

  /** Where a label stands in the list. */
  function FindMark(list: seq<Item>, l: nat): (i: nat)
    ensures i <= |list|
  {
    if list == [] || list[0] == Mark(l) then 0 else 1 + FindMark(list[1..], l)
  }

  /** The code index of a label. */
  function Position(list: seq<Item>, depth: Depths, l: nat): (r: nat) { Pass1(list, depth, FindMark(list, l)).index }

  function OperandWord(o: Operand, list: seq<Item>, depth: Depths, after: nat): (r: int) {
    match o
    case Word(w) => w
    case Offset(l) => Position(list, depth, l) - after
  }

  /** The words of element i. */
  function Words(list: seq<Item>, depth: Depths, i: nat): (r: seq<int>)
    requires i < |list|
    ensures Pass2(list, depth, i + 1).index == Pass2(list, depth, i).index + |r|
  {
    var p := Pass2(list, depth, i);
    match list[i]
    case Insn(op, _, operands) =>
      [op] + seq(|operands|, j requires 0 <= j < |operands| =>
               OperandWord(operands[j], list, depth, p.index + 1 + |operands|))
    case Adjust(emits, to) =>
      var diff := p.sp - Goal(depth, to);
      if !emits || diff <= 0 then [] else if diff == 1 then [POP] else [ADJUSTSTACK, diff]
    case _ => []
  }

  function Emitted(list: seq<Item>, depth: Depths, i: nat): (r: seq<int>)
    requires i <= |list|
    ensures |r| == Pass2(list, depth, i).index
  {
    if i == 0 then [] else Emitted(list, depth, i - 1) + Words(list, depth, i - 1)
  }

  /** No label stands twice, and every offset is to one that stands in the list. */
  ghost predicate Resolved(list: seq<Item>) {
    && (forall i, j :: 0 <= i < j < |list| && list[i].Mark? ==> list[i] != list[j])
    && (forall i, j :: 0 <= i < |list| && list[i].Insn? && 0 <= j < |list[i].operands| && list[i].operands[j].Offset? ==>
          Mark(list[i].operands[j].l) in list)
  }

  /** The depth an ADJUST starts from is never below the one it goes to. */
  predicate NoAdjustBug(list: seq<Item>, depth: Depths, i: nat)
    requires i < |list|
  {
    list[i].Adjust? && list[i].emits ==> Pass2(list, depth, i).sp >= Goal(depth, list[i].to)
  }

  /** The first pass: positions of labels, and the number of words. */
  method PlaceLabels(list: seq<Item>, depth: Depths) returns (position: map<nat, nat>, size: nat)
    requires Resolved(list)
    ensures size == Pass1(list, depth, |list|).index
    ensures forall l :: Mark(l) in list ==> l in position && position[l] == Position(list, depth, l)
  {
    position, size := map[], 0;
    var sp := 0;
    for i := 0 to |list|
      invariant Place(sp, size) == Pass1(list, depth, i)
      invariant forall k :: 0 <= k < i && list[k].Mark? ==>
                  list[k].l in position && position[list[k].l] == Pass1(list, depth, k).index
    {
      match list[i]
      case Insn(_, grow, _) =>
        sp := sp + grow;
        size := size + Length(list[i]);
      case Mark(l) =>
        position := position[l := size];
        sp := DepthOf(depth, l);
      case Trace =>
      case Adjust(emits, to) =>
        if emits {
          var was := sp;
          sp := Goal(depth, to);
          if was - sp > 0 {
            if was - sp > 1 { size := size + 1; }
            size := size + 1;
          }
        }
    }
    forall l | Mark(l) in list ensures l in position && position[l] == Position(list, depth, l) { MarkFound(list, l); }
  }

  lemma {:induction false} MarkFound(list: seq<Item>, l: nat)
    requires Mark(l) in list
    ensures FindMark(list, l) < |list| && list[FindMark(list, l)] == Mark(l)
  {
    if list[0] != Mark(l) { MarkFound(list[1..], l); }
  }

  lemma {:induction false} IndexGrows(list: seq<Item>, depth: Depths, i: nat, j: nat)
    requires i <= j <= |list|
    ensures Pass2(list, depth, i).index <= Pass2(list, depth, j).index
  {
    if i < j { IndexGrows(list, depth, i, j - 1); }
  }

  /** The words of one instruction, written from code index `at`. */
  method EmitInsn(generated: array<int>, at: nat, list: seq<Item>, ghost depth: Depths, position: map<nat, nat>, i: nat)
    requires i < |list| && list[i].Insn? && Resolved(list) && at == Pass2(list, depth, i).index
    requires at + Length(list[i]) <= generated.Length
    requires forall l :: Mark(l) in list ==> l in position && position[l] == Position(list, depth, l)
    modifies generated
    ensures generated[..at] == old(generated[..at])
    ensures generated[at..at + Length(list[i])] == Words(list, depth, i)
  {
    var operands, len := list[i].operands, Length(list[i]);
    generated[at] := list[i].op;
    for j := 0 to |operands|
      invariant generated[..at] == old(generated[..at]) && generated[at] == list[i].op
      invariant forall k :: 0 <= k < j ==> generated[at + 1 + k] == OperandWord(operands[k], list, depth, at + len)
    {
      match operands[j]
      case Word(w) => generated[at + 1 + j] := w;
      case Offset(l) => generated[at + 1 + j] := position[l] - (at + len);
    }
  }

  /** The pops of one emitting ADJUST. */
  method EmitPops(generated: array<int>, at: nat, diff: int) returns (index: nat)
    requires at + Pops(diff) <= generated.Length
    modifies generated
    ensures index == at + Pops(diff) && generated[..at] == old(generated[..at])
    ensures generated[at..index] == if diff <= 0 then [] else if diff == 1 then [POP] else [ADJUSTSTACK, diff]
  {
    index := at;
    if diff > 1 {
      generated[index] := ADJUSTSTACK;
      generated[index + 1] := diff;
      index := index + 2;
    } else if diff == 1 {
      generated[index] := POP;
      index := index + 1;
    }
  }

  lemma ItemWalk(list: seq<Item>, depth: Depths, i: nat)
    requires i < |list|
    ensures Pass2(list, depth, i + 1) == Second(list[i], Pass2(list, depth, i), depth)
    ensures !list[i].Insn? && (list[i].Adjust? ==> !list[i].emits) ==> Words(list, depth, i) == []
    ensures list[i].Adjust? && list[i].emits ==>
            var diff := Pass2(list, depth, i).sp - Goal(depth, list[i].to);
            Words(list, depth, i) == if diff <= 0 then [] else if diff == 1 then [POP] else [ADJUSTSTACK, diff]
  {
  }

  method EmitItem(generated: array<int>, at: nat, sp: int, list: seq<Item>, depth: Depths, position: map<nat, nat>, i: nat)
    returns (ok: bool, index: nat, depthNow: int)
    requires i < |list| && Resolved(list) && Place(sp, at) == Pass2(list, depth, i)
    requires Pass2(list, depth, i + 1).index <= generated.Length
    requires forall l :: Mark(l) in list ==> l in position && position[l] == Position(list, depth, l)
    modifies generated
    ensures ok == NoAdjustBug(list, depth, i) && Place(depthNow, index) == Pass2(list, depth, i + 1)
    ensures at <= index && generated[..at] == old(generated[..at]) && generated[at..index] == Words(list, depth, i)
  {
    hide Pass1, Pass2, Words, OperandWord, Position, Resolved;
    ItemWalk(list, depth, i);
    ok, index, depthNow := true, at, sp;
    var e := list[i];
    if e.Insn? {
      EmitInsn(generated, at, list, depth, position, i);
      depthNow := sp + e.grow;
      index := at + Length(e);
    } else if e.Mark? {
      depthNow := DepthOf(depth, e.l);
    } else if e.Adjust? {
      depthNow := Goal(depth, e.to);
      if e.emits {
        index := EmitPops(generated, at, sp - depthNow);
        ok := sp - depthNow >= 0;
      }
    }
  }

  /** The second pass: writes exactly the words that the first pass made room for, or finds that an
      ADJUST starts below its goal. */
  method EmitWords(list: seq<Item>, depth: Depths, position: map<nat, nat>, size: nat) returns (ok: bool, generated: array<int>)
    requires Resolved(list) && SamePlaces(list, depth) && size == Pass1(list, depth, |list|).index
    requires forall l :: Mark(l) in list ==> l in position && position[l] == Position(list, depth, l)
    ensures ok <==> forall i: nat :: i < |list| ==> NoAdjustBug(list, depth, i)
    ensures ok ==> generated[..] == Emitted(list, depth, |list|)
  {
    hide Pass1, Pass2, Position, Resolved, Words, NoAdjustBug;
    generated := new int[size];
    var index, sp := 0, 0;
    PassStart(list, depth);
    ok := true;
    for i := 0 to |list|
      invariant Place(sp, index) == Pass2(list, depth, i) && index <= generated.Length
      invariant generated[..index] == Emitted(list, depth, i)
      invariant ok && forall j: nat :: j < i ==> NoAdjustBug(list, depth, j)
    {
      IndexGrows(list, depth, i + 1, |list|);
      ghost var before, was := generated[..index], index;
      ok, index, sp := EmitItem(generated, index, sp, list, depth, position, i);
      if !ok { return; }
      assert generated[..index] == before + generated[was..index];
    }
    assert generated[..] == generated[..index];
  }

  lemma PassStart(list: seq<Item>, depth: Depths)
    ensures Pass2(list, depth, 0) == Place(0, 0)
    ensures SamePlaces(list, depth) ==> Pass1(list, depth, |list|).index == Pass2(list, depth, |list|).index
  {
  }

  /** Every branch lands on its label: an instruction's offset, counted from its end, is where the label is. */
  lemma OffsetLands(list: seq<Item>, depth: Depths, i: nat, j: nat)
    requires Resolved(list) && SamePlaces(list, depth)
    requires i < |list| && list[i].Insn? && j < |list[i].operands| && list[i].operands[j].Offset?
    ensures var k, p := FindMark(list, list[i].operands[j].l), Pass2(list, depth, i).index;
            && k < |list| && list[k] == Mark(list[i].operands[j].l)
            && p + 1 + j < Pass2(list, depth, |list|).index
            && p + Length(list[i]) + Emitted(list, depth, |list|)[p + 1 + j] == Pass2(list, depth, k).index
  {
    hide Emitted, Pass1, Pass2, Resolved, Position, FindMark, Words;
    var l := list[i].operands[j].l;
    OffsetFound(list, depth, i, j);
    WordsOffset(list, depth, i, j);
    EmittedAt(list, depth, i, |list|, 1 + j);
  }

  /** Every instruction is there: its opcode where the second pass is when it comes to it, its words behind, and
      nothing else up to the next element. */
  lemma InsnLies(list: seq<Item>, depth: Depths, i: nat)
    requires i < |list| && list[i].Insn?
    ensures var p, all := Pass2(list, depth, i).index, Emitted(list, depth, |list|);
            && Pass2(list, depth, i + 1).index == p + 1 + |list[i].operands| <= |all| && all[p] == list[i].op
            && forall j :: 0 <= j < |list[i].operands| && list[i].operands[j].Word? ==> all[p + 1 + j] == list[i].operands[j].w
  {
    hide Emitted, Pass1, Pass2, Words;
    var p, all, operands := Pass2(list, depth, i).index, Emitted(list, depth, |list|), list[i].operands;
    IndexGrows(list, depth, i + 1, |list|);
    InsnWord(list, depth, i, 0);
    EmittedAt(list, depth, i, |list|, 0);
    forall j | 0 <= j < |operands| && operands[j].Word? ensures p + 1 + j < |all| && all[p + 1 + j] == operands[j].w {
      InsnWord(list, depth, i, j);
      EmittedAt(list, depth, i, |list|, 1 + j);
    }
  }

  lemma InsnWord(list: seq<Item>, depth: Depths, i: nat, j: nat)
    requires i < |list| && list[i].Insn?
    ensures |Words(list, depth, i)| == 1 + |list[i].operands| && Words(list, depth, i)[0] == list[i].op
    ensures j < |list[i].operands| && list[i].operands[j].Word? ==> Words(list, depth, i)[1 + j] == list[i].operands[j].w
  {
    hide Pass1, Pass2, Position, OperandWord;
    var operands, after := list[i].operands, Pass2(list, depth, i).index + 1 + |list[i].operands|;
    var tail := seq(|operands|, k requires 0 <= k < |operands| => OperandWord(operands[k], list, depth, after));
    assert Words(list, depth, i) == [list[i].op] + tail;
    if j < |operands| && operands[j].Word? {
      assert tail[j] == OperandWord(operands[j], list, depth, after);
      WordOperand(operands[j], list, depth, after);
    }
  }

  lemma WordOperand(o: Operand, list: seq<Item>, depth: Depths, after: nat)
    requires o.Word?
    ensures OperandWord(o, list, depth, after) == o.w
  {
  }

  lemma OffsetFound(list: seq<Item>, depth: Depths, i: nat, j: nat)
    requires Resolved(list) && SamePlaces(list, depth)
    requires i < |list| && list[i].Insn? && j < |list[i].operands| && list[i].operands[j].Offset?
    ensures var l := list[i].operands[j].l;
            var k := FindMark(list, l);
            k < |list| && list[k] == Mark(l) && Position(list, depth, l) == Pass2(list, depth, k).index
  {
    hide Pass1, Pass2;
    MarkFound(list, list[i].operands[j].l);
  }

  lemma WordsOffset(list: seq<Item>, depth: Depths, i: nat, j: nat)
    requires i < |list| && list[i].Insn? && j < |list[i].operands| && list[i].operands[j].Offset?
    ensures 1 + j < |Words(list, depth, i)|
    ensures Words(list, depth, i)[1 + j]
         == Position(list, depth, list[i].operands[j].l) - (Pass2(list, depth, i).index + Length(list[i]))
  {
    hide Pass1, Pass2, Position;
  }

  lemma {:induction false} EmittedAt(list: seq<Item>, depth: Depths, i: nat, n: nat, j: nat)
    requires i < n <= |list| && j < |Words(list, depth, i)|
    ensures var p := Pass2(list, depth, i).index;
            p + j < Pass2(list, depth, n).index && Emitted(list, depth, n)[p + j] == Words(list, depth, i)[j]
  {
    hide Emitted, Pass1, Pass2, Words;
    EmittedStep(list, depth, n - 1);
    if i + 1 < n { EmittedAt(list, depth, i, n - 1, j); }
  }

  lemma EmittedStep(list: seq<Item>, depth: Depths, i: nat)
    requires i < |list|
    ensures Emitted(list, depth, i + 1) == Emitted(list, depth, i) + Words(list, depth, i)
    ensures |Emitted(list, depth, i)| == Pass2(list, depth, i).index
    ensures |Emitted(list, depth, i + 1)| == Pass2(list, depth, i + 1).index
  {
    hide Words, Pass1, Pass2;
  }
}
