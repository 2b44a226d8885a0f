/** fix_sp_depth on any list, and what its depths mean for the two passes of the assembler. */
module FixDepth {
  import opened Machine
  import opened Assembler
  import CodeDepth

  /** The walk: the depth here, the depths given to labels so far (an absent label's is -1), the largest depth. */
  datatype Walk = Walk(sp: int, tab: Depths, most: int)

  const BEGIN := Walk(0, map[], 0)

  /** The labels an instruction names get its depth, if they have none. */
  function Branched(operands: seq<Operand>, tab: Depths, sp: int): (r: Depths) {
    if operands == [] then tab
    else
      var last := operands[|operands| - 1];
      var before := Branched(operands[..|operands| - 1], tab, sp);
      if last.Offset? then CodeDepth.Touch(before, last.l, sp) else before
  }

  /** One element; None is an error: "argument stack underflow", or "adjust bug" at an ADJUST with a line. */
  function Next(e: Item, w: Walk): (r: Option<Walk>) {
    match e
    case Insn(_, grow, operands) =>
      var sp := w.sp + grow;
      if sp < 0 then None else Some(Walk(sp, Branched(operands, w.tab, sp), if sp > w.most then sp else w.most))
    case Mark(l) => Some(w.(sp := if l in w.tab then w.tab[l] else w.sp, tab := CodeDepth.Touch(w.tab, l, w.sp)))
    case Trace => Some(w)
    case Adjust(emits, to) => if emits && w.sp < Goal(w.tab, to) then None else Some(w.(sp := Goal(w.tab, to)))
  }

  /** The walk over the first i elements. */
  function Walked(list: seq<Item>, i: nat): (r: Option<Walk>)
    requires i <= |list|
  {
    if i == 0 then Some(BEGIN)
    else match Walked(list, i - 1)
      case None => None
      case Some(w) => Next(list[i - 1], w)
  }

  /** Every label named by an instruction stands in the list. */
  predicate Placed(list: seq<Item>) {
    forall i :: 0 <= i < |list| && list[i].Insn? ==> Named(list, list[i].operands)
  }

  predicate Named(list: seq<Item>, operands: seq<Operand>) {
    forall j :: 0 <= j < |operands| && operands[j].Offset? ==> Mark(operands[j].l) in list
  }

  /** fix_sp_depth finds no error. */
  predicate Accepted(list: seq<Item>) { Placed(list) && Walked(list, |list|).Some? }

  /** The depths it leaves in the labels. */
  function DepthsOf(list: seq<Item>): (r: Depths)
    requires Accepted(list)
  {
    Walked(list, |list|).value.tab
  }

  lemma {:induction false} WalkedBack(list: seq<Item>, i: nat, n: nat)
    requires i <= n <= |list| && Walked(list, n).Some?
    ensures Walked(list, i).Some?
  {
    if i < n { WalkedBack(list, i, n - 1); }
  }

  /** The labels an instruction names: each must stand in the list. */
  method BranchTo(list: seq<Item>, operands: seq<Operand>, marks: set<nat>, tab: Depths, sp: int) returns (named: bool, depth: Depths)
    requires sp >= 0 && forall l :: l in marks <==> Mark(l) in list
    ensures named == Named(list, operands)
    ensures named ==> depth == Branched(operands, tab, sp)
  {
    depth := tab;
    for j := 0 to |operands|
      invariant depth == Branched(operands[..j], tab, sp)
      invariant forall k :: 0 <= k < j && operands[k].Offset? ==> Mark(operands[k].l) in list
    {
      assert operands[..j + 1][..j] == operands[..j];
      if operands[j].Offset? {
        if operands[j].l !in marks { return false, depth; }
        if operands[j].l !in depth { depth := depth[operands[j].l := sp]; }
      }
    }
    assert operands[..|operands|] == operands;
    named := true;
  }

  /** fix_sp_depth: the largest depth, or -1 for an error, and the depths of the labels. */
  method FixSpDepth(list: seq<Item>) returns (stackMax: int, depth: Depths, ghost sp: seq<int>)
    ensures stackMax == if Accepted(list) then Walked(list, |list|).value.most else -1
    ensures stackMax >= 0 ==> Accepted(list) && depth == DepthsOf(list)
    ensures IsDepths(list, sp)
    ensures stackMax == -1 <==> !Placed(list) || exists i: nat :: i < |list| && Wrong(list, sp, i)
    ensures stackMax >= 0 ==> IsMost(list, sp, |list|, stackMax) && forall l: nat :: DepthOf(depth, l) == Given(list, sp, |list|, l)
  {
    hide Branched, Named, IsDepths, Given;
    sp := DepthSeq(list, |list|);
    DepthsExist(list);
    WalkedIs(list, sp, |list|);
    stackMax, depth := Fix(list);
  }

  method Fix(list: seq<Item>) returns (stackMax: int, depth: Depths)
    ensures stackMax == if Accepted(list) then Walked(list, |list|).value.most else -1
    ensures stackMax >= 0 ==> Accepted(list) && depth == DepthsOf(list)
  {
    hide Branched, Named;
    var marks: set<nat> := {};
    for i := 0 to |list|
      invariant forall l :: l in marks <==> Mark(l) in list[..i]
    {
      assert list[..i + 1] == list[..i] + [list[i]];
      if list[i].Mark? { marks := marks + {list[i].l}; }
    }
    assert list[..|list|] == list;
    var sp := 0;
    stackMax, depth := 0, map[];
    for i := 0 to |list|
      invariant Walked(list, i) == Some(Walk(sp, depth, stackMax)) && stackMax >= 0
      invariant forall k :: 0 <= k < i && list[k].Insn? ==> Named(list, list[k].operands)
    {
      if Walked(list, |list|).Some? { WalkedBack(list, i + 1, |list|); }
      match list[i]
      case Insn(_, grow, operands) =>
        sp := sp + grow;
        if sp < 0 { return -1, depth; }
        if sp > stackMax { stackMax := sp; }
        var named;
        named, depth := BranchTo(list, operands, marks, depth, sp);
        if !named { return -1, depth; }
      case Mark(l) =>
        if l in depth { sp := depth[l]; } else if sp != -1 { depth := depth[l := sp]; }
      case Trace =>
      case Adjust(emits, to) =>
        var was := sp;
        sp := Goal(depth, to);
        if emits && was - sp < 0 { return -1, depth; }
    }
  }

  // ----- the depths, element by element

  /** The element names label l: it stands there, or an instruction has it as an operand. */
  predicate Names(e: Item, l: nat) { e == Mark(l) || (e.Insn? && Offset(l) in e.operands) }

  /** The depth label l has got from the first i elements: the depth behind the first one that names it, -1 being none. */
  function Given(list: seq<Item>, sp: seq<int>, i: nat, l: nat): (d: int)
    requires i <= |list| && i < |sp|
  {
    if i == 0 then -1
    else if Given(list, sp, i - 1, l) != -1 then Given(list, sp, i - 1, l)
    else if Names(list[i - 1], l) then sp[i] else -1
  }

  /** Where the ADJUST at i goes. */
  function GoalAt(list: seq<Item>, sp: seq<int>, i: nat): (d: int)
    requires i < |list| && i < |sp| && list[i].Adjust?
  {
    if list[i].to.None? then 0 else Given(list, sp, i, list[i].to.value)
  }

  /** The depth behind element i: an instruction adds its growth, a label that has a depth sets it, an ADJUST goes to its goal. */
  function Behind(list: seq<Item>, sp: seq<int>, i: nat): (d: int)
    requires i < |list| && i < |sp|
  {
    match list[i]
    case Insn(_, grow, _) => sp[i] + grow
    case Mark(l) => if Given(list, sp, i, l) != -1 then Given(list, sp, i, l) else sp[i]
    case Trace => sp[i]
    case Adjust(_, _) => GoalAt(list, sp, i)
  }

  /** sp[i] is the depth before element i. */
  ghost predicate IsDepths(list: seq<Item>, sp: seq<int>) {
    |sp| == |list| + 1 && sp[0] == 0 && forall i: nat :: i < |list| ==> sp[i + 1] == Behind(list, sp, i)
  }

  /** What stops fix_sp_depth at element i: an instruction takes more than there is, or an ADJUST with a line starts
      below its goal. */
  predicate Wrong(list: seq<Item>, sp: seq<int>, i: nat)
    requires i < |list| && i < |sp|
  {
    (list[i].Insn? && sp[i] + list[i].grow < 0) || (list[i].Adjust? && list[i].emits && sp[i] < GoalAt(list, sp, i))
  }

  /** The largest depth behind an instruction, or 0. */
  ghost predicate IsMost(list: seq<Item>, sp: seq<int>, n: nat, most: int)
    requires n <= |list| && n < |sp|
  {
    && (most == 0 || exists i :: 0 <= i < n && list[i].Insn? && sp[i + 1] == most)
    && most >= 0 && forall i :: 0 <= i < n && list[i].Insn? ==> sp[i + 1] <= most
  }

  ghost function DepthSeq(list: seq<Item>, n: nat): (sp: seq<int>)
    requires n <= |list|
    ensures |sp| == n + 1
  {
    if n == 0 then [0] else var s := DepthSeq(list, n - 1); s + [Behind(list, s, n - 1)]
  }

  lemma {:induction false} GivenPrefix(list: seq<Item>, sp: seq<int>, sp': seq<int>, i: nat, l: nat)
    requires i <= |list| && i < |sp| && i < |sp'| && sp[..i + 1] == sp'[..i + 1]
    ensures Given(list, sp, i, l) == Given(list, sp', i, l)
  {
    if i > 0 {
      assert sp[..i] == sp[..i + 1][..i] && sp'[..i] == sp'[..i + 1][..i];
      assert sp[i] == sp[..i + 1][i] && sp'[i] == sp'[..i + 1][i];
      GivenPrefix(list, sp, sp', i - 1, l);
    }
  }

  lemma BehindPrefix(list: seq<Item>, sp: seq<int>, sp': seq<int>, i: nat)
    requires i < |list| && i < |sp| && i < |sp'| && sp[..i + 1] == sp'[..i + 1]
    ensures Behind(list, sp, i) == Behind(list, sp', i)
  {
    hide Given;
    assert sp[i] == sp[..i + 1][i] && sp'[i] == sp'[..i + 1][i];
    match list[i]
    case Mark(l) => GivenPrefix(list, sp, sp', i, l);
    case Adjust(_, to) => if to.Some? { GivenPrefix(list, sp, sp', i, to.value); }
    case _ =>
  }

  lemma {:induction false} DepthSeqGrows(list: seq<Item>, i: nat, n: nat)
    requires i <= n <= |list|
    ensures DepthSeq(list, n)[..i + 1] == DepthSeq(list, i)
  {
    hide Behind;
    if i < n {
      DepthSeqGrows(list, i, n - 1);
      assert DepthSeq(list, n)[..i + 1] == DepthSeq(list, n - 1)[..i + 1];
    }
  }

  /** Every list has its depths, and only those. */
  lemma DepthsExist(list: seq<Item>)
    ensures IsDepths(list, DepthSeq(list, |list|))
  {
    hide Behind;
    var sp := DepthSeq(list, |list|);
    forall i: nat | i <= |list| ensures DepthSeq(list, |list|)[..i + 1] == DepthSeq(list, i) { DepthSeqGrows(list, i, |list|); }
    forall i: nat | i < |list| ensures sp[i + 1] == Behind(list, sp, i) {
      var s := DepthSeq(list, i);
      assert sp[..i + 1] == s && s[..i + 1] == s;
      assert sp[i + 1] == sp[..i + 2][i + 1] == DepthSeq(list, i + 1)[i + 1];
      BehindPrefix(list, sp, s, i);
    }
    DepthSeqGrows(list, 0, |list|);
    assert sp[0] == sp[..1][0] == DepthSeq(list, 0)[0];
  }

  lemma {:induction false} DepthsUnique(list: seq<Item>, sp: seq<int>, sp': seq<int>, n: nat)
    requires IsDepths(list, sp) && IsDepths(list, sp') && n <= |list|
    ensures sp[..n + 1] == sp'[..n + 1]
  {
    hide Behind;
    if n > 0 {
      DepthsUnique(list, sp, sp', n - 1);
      BehindPrefix(list, sp, sp', n - 1);
      assert sp[n] == Behind(list, sp, n - 1) && sp'[n] == Behind(list, sp', n - 1);
    }
  }

  lemma {:induction false} BranchedAt(operands: seq<Operand>, tab: Depths, sp: int, l: nat)
    requires sp >= 0 && Within(tab, tab)
    ensures DepthOf(Branched(operands, tab, sp), l)
         == if DepthOf(tab, l) != -1 then DepthOf(tab, l) else if Offset(l) in operands then sp else -1
  {
    if operands != [] {
      var before := operands[..|operands| - 1];
      BranchedAt(before, tab, sp, l);
      BranchedWithin(before, tab, sp);
      assert operands == before + [operands[|operands| - 1]];
    }
  }

  /** The walk has the depths, and stops where they go wrong. */
  lemma {:induction false} WalkedIs(list: seq<Item>, sp: seq<int>, i: nat)
    requires IsDepths(list, sp) && i <= |list|
    ensures Walked(list, i).Some? <==> forall j: nat :: j < i ==> !Wrong(list, sp, j)
    ensures Walked(list, i).Some? ==>
              var w := Walked(list, i).value;
              w.sp == sp[i] && IsMost(list, sp, i, w.most) && forall l: nat :: DepthOf(w.tab, l) == Given(list, sp, i, l)
  {
    hide Next, Wrong, Given, Behind, IsMost;
    if i == 0 {
      StartIs(list, sp);
    } else {
      WalkedIs(list, sp, i - 1);
      if Walked(list, i - 1).Some? {
        WalkedWithin(list, i - 1);
        NextIs(list, sp, i - 1, Walked(list, i - 1).value);
      }
    }
  }

  lemma StartIs(list: seq<Item>, sp: seq<int>)
    requires IsDepths(list, sp)
    ensures IsMost(list, sp, 0, 0) && forall l: nat :: DepthOf(map[], l) == Given(list, sp, 0, l)
  {
  }

  lemma NextIs(list: seq<Item>, sp: seq<int>, i: nat, w: Walk)
    requires i < |list| && |sp| == |list| + 1 && sp[i + 1] == Behind(list, sp, i)
    requires Within(w.tab, w.tab) && w.sp >= -1 && w.sp == sp[i] && IsMost(list, sp, i, w.most)
    requires forall l: nat :: DepthOf(w.tab, l) == Given(list, sp, i, l)
    ensures Next(list[i], w).Some? <==> !Wrong(list, sp, i)
    ensures Next(list[i], w).Some? ==>
              var v := Next(list[i], w).value;
              v.sp == sp[i + 1] && IsMost(list, sp, i + 1, v.most) && forall l: nat :: DepthOf(v.tab, l) == Given(list, sp, i + 1, l)
  {
    hide IsMost;
    NextTurns(list, sp, i, w);
    if Next(list[i], w).Some? {
      var v := Next(list[i], w).value;
      NextMost(list, sp, i, w.most, v.most);
      forall l: nat ensures DepthOf(v.tab, l) == Given(list, sp, i + 1, l) { NextGives(list, sp, i, w, l); }
    }
  }

  lemma NextTurns(list: seq<Item>, sp: seq<int>, i: nat, w: Walk)
    requires i < |list| && |sp| == |list| + 1 && sp[i + 1] == Behind(list, sp, i)
    requires Within(w.tab, w.tab) && w.sp == sp[i]
    requires forall l: nat :: DepthOf(w.tab, l) == Given(list, sp, i, l)
    ensures Next(list[i], w).Some? <==> !Wrong(list, sp, i)
    ensures Next(list[i], w).Some? ==>
              var v := Next(list[i], w).value;
              v.sp == sp[i + 1] && v.most == if list[i].Insn? && sp[i + 1] > w.most then sp[i + 1] else w.most
  {
    hide Branched, Given;
    match list[i]
    case Mark(l) => assert DepthOf(w.tab, l) == Given(list, sp, i, l);
    case Adjust(_, to) => if to.Some? { assert DepthOf(w.tab, to.value) == Given(list, sp, i, to.value); }
    case _ =>
  }

  lemma NextMost(list: seq<Item>, sp: seq<int>, i: nat, most: int, most': int)
    requires i < |list| && |sp| == |list| + 1 && IsMost(list, sp, i, most)
    requires most' == if list[i].Insn? && sp[i + 1] > most then sp[i + 1] else most
    ensures IsMost(list, sp, i + 1, most')
  {
  }

  lemma NextGives(list: seq<Item>, sp: seq<int>, i: nat, w: Walk, l: nat)
    requires i < |list| && |sp| == |list| + 1 && sp[i + 1] == Behind(list, sp, i) && Next(list[i], w).Some?
    requires Within(w.tab, w.tab) && w.sp >= -1 && w.sp == sp[i]
    requires forall l: nat :: DepthOf(w.tab, l) == Given(list, sp, i, l)
    ensures DepthOf(Next(list[i], w).value.tab, l) == Given(list, sp, i + 1, l)
  {
    hide Branched;
    assert DepthOf(w.tab, l) == Given(list, sp, i, l);
    if list[i].Insn? { BranchedAt(list[i].operands, w.tab, w.sp + list[i].grow, l); }
  }

  // ----- when the two passes agree

  /** Elements that set the depth: labels and ADJUSTs, or of these only the emitting ones. */
  predicate Sets(e: Item, all: bool) { e.Mark? || (e.Adjust? && (all || e.emits)) }

  function SetTo(e: Item, depth: Depths): (r: int)
    requires Sets(e, true)
  {
    if e.Mark? then DepthOf(depth, e.l) else Goal(depth, e.to)
  }

  /** What the instructions from i up to j add to the stack. */
  function Growth(list: seq<Item>, i: nat, j: nat): (r: int)
    requires i <= j <= |list|
  {
    if i == j then 0 else Growth(list, i, j - 1) + if list[j - 1].Insn? then list[j - 1].grow else 0
  }

  /** Just behind the last element before i that sets the depth, or the beginning. */
  function LastSet(list: seq<Item>, all: bool, i: nat): (b: nat)
    requires i <= |list|
    ensures b <= i && (b > 0 ==> Sets(list[b - 1], all))
  {
    if i == 0 then 0 else if Sets(list[i - 1], all) then i else LastSet(list, all, i - 1)
  }

  /** The depth at i: the last one set, and the growth since. */
  function Level(list: seq<Item>, depth: Depths, all: bool, i: nat): (r: int)
    requires i <= |list|
  {
    var b := LastSet(list, all, i);
    (if b == 0 then 0 else SetTo(list[b - 1], depth)) + Growth(list, b, i)
  }

  /** The ADJUST at r restores the depth for the emitting one at i: only instructions stand between. */
  predicate Restores(list: seq<Item>, r: nat, i: nat) {
    && r < i < |list| && list[r].Adjust? && !list[r].emits && list[i].Adjust? && list[i].emits
    && forall j :: r < j < i ==> list[j].Insn? || list[j].Trace?
  }

  /** Restoring makes no difference to the pops at i: it restores the depth there is, or both depths are at least 2
      above the goal, or neither is above it. */
  predicate Harmless(list: seq<Item>, depth: Depths, r: nat, i: nat)
    requires Restores(list, r, i)
  {
    var goal, grown := Goal(depth, list[i].to), Growth(list, r + 1, i);
    var a, b := Level(list, depth, false, r) + grown, Goal(depth, list[r].to) + grown;
    a == b || (a > goal + 1 && b > goal + 1) || (a <= goal && b <= goal)
  }

  /** The depths the passes hold. */
  lemma {:induction false} LevelIs(list: seq<Item>, depth: Depths, i: nat)
    requires i <= |list|
    ensures Pass1(list, depth, i).sp == Level(list, depth, false, i)
    ensures Pass2(list, depth, i).sp == Level(list, depth, true, i)
  {
    if i > 0 { LevelIs(list, depth, i - 1); }
  }

  /** With nothing but instructions from i to j, both passes add their growth. */
  lemma {:induction false} BothGrow(list: seq<Item>, depth: Depths, i: nat, j: nat)
    requires i <= j <= |list| && forall k :: i <= k < j ==> list[k].Insn? || list[k].Trace?
    ensures Pass1(list, depth, j).sp == Pass1(list, depth, i).sp + Growth(list, i, j)
    ensures Pass2(list, depth, j).sp == Pass2(list, depth, i).sp + Growth(list, i, j)
  {
    if i < j { BothGrow(list, depth, i, j - 1); }
  }

  /** The depths of the passes where an ADJUST was restored for: what Harmless compares. */
  lemma RestoredDepths(list: seq<Item>, depth: Depths, r: nat, i: nat)
    requires Restores(list, r, i)
    ensures Pass1(list, depth, i).sp == Level(list, depth, false, r) + Growth(list, r + 1, i)
    ensures Pass2(list, depth, i).sp == Goal(depth, list[r].to) + Growth(list, r + 1, i)
  {
    LevelIs(list, depth, r);
    BothGrow(list, depth, r + 1, i);
  }

  /** Where the passes differ in depth, the last thing that set the second one's is a restoring ADJUST. */
  lemma {:induction false} DifferBy(list: seq<Item>, depth: Depths, i: nat) returns (r: nat)
    requires i <= |list| && Pass1(list, depth, i).sp != Pass2(list, depth, i).sp
    ensures r < i && list[r].Adjust? && !list[r].emits && forall j :: r < j < i ==> list[j].Insn? || list[j].Trace?
  {
    if list[i - 1].Adjust? { r := i - 1; } else { r := DifferBy(list, depth, i - 1); }
  }

  /** The two passes give every element the same code index exactly when every restoring ADJUST that is followed by an
      emitting one, with no label or ADJUST between, is harmless to it. */
  lemma PassesAgree(list: seq<Item>, depth: Depths)
    ensures SamePlaces(list, depth) <==> forall r: nat, i: nat :: Restores(list, r, i) ==> Harmless(list, depth, r, i)
  {
    hide Harmless, Restores, Level, Growth;
    if forall r: nat, i: nat :: Restores(list, r, i) ==> Harmless(list, depth, r, i) {
      for i := 0 to |list|
        invariant forall j: nat :: j <= i ==> Pass1(list, depth, j).index == Pass2(list, depth, j).index
      {
        SameStep(list, depth, i);
      }
    } else {
      var r: nat, i: nat :| Restores(list, r, i) && !Harmless(list, depth, r, i);
      OtherStep(list, depth, r, i);
    }
  }

  lemma SameStep(list: seq<Item>, depth: Depths, i: nat)
    requires i < |list| && Pass1(list, depth, i).index == Pass2(list, depth, i).index
    requires forall r: nat :: Restores(list, r, i) ==> Harmless(list, depth, r, i)
    ensures Pass1(list, depth, i + 1).index == Pass2(list, depth, i + 1).index
  {
    if list[i].Adjust? && list[i].emits && Pass1(list, depth, i).sp != Pass2(list, depth, i).sp {
      var r := DifferBy(list, depth, i);
      assert Restores(list, r, i) && Harmless(list, depth, r, i);
      RestoredDepths(list, depth, r, i);
    }
  }

  lemma OtherStep(list: seq<Item>, depth: Depths, r: nat, i: nat)
    requires Restores(list, r, i) && !Harmless(list, depth, r, i)
    ensures !SamePlaces(list, depth)
  {
    RestoredDepths(list, depth, r, i);
    if Pass1(list, depth, i).index == Pass2(list, depth, i).index {
      assert Pass1(list, depth, i + 1).index != Pass2(list, depth, i + 1).index;
    }
  }

  /** So they agree on a list in which a label stands between a restoring ADJUST and the next emitting one. */
  lemma SeparatedAgree(list: seq<Item>, depth: Depths)
    requires forall r: nat, i: nat :: r < i < |list| && list[r].Adjust? && !list[r].emits && list[i].Adjust? && list[i].emits ==>
               exists j :: r < j < i && list[j].Mark?
    ensures SamePlaces(list, depth)
  {
    PassesAgree(list, depth);
  }

  /** Without the label they need not, on a list that fix_sp_depth accepts: here the second pass writes a word that
      the first did not count. */
  lemma PassesCanDisagree()
    ensures var list := [Insn(2, 1, []), Mark(0), Insn(2, -1, []), Adjust(false, Some(0)), Adjust(true, None)];
            && Accepted(list)
            && Pass1(list, DepthsOf(list), 5).index == 2 && Pass2(list, DepthsOf(list), 5).index == 3
  {
    var list := [Insn(2, 1, []), Mark(0), Insn(2, -1, []), Adjust(false, Some(0)), Adjust(true, None)];
    var depth: Depths := map[0 := 1];
    assert Walked(list, 1) == Some(Walk(1, map[], 1));
    assert Walked(list, 2) == Some(Walk(1, depth, 1));
    assert Walked(list, 3) == Some(Walk(0, depth, 1));
    assert Walked(list, 4) == Some(Walk(1, depth, 1));
    assert Walked(list, 5) == Some(Walk(0, depth, 1));
    assert Pass1(list, depth, 2) == Place(1, 1) && Pass2(list, depth, 2) == Place(1, 1);
    assert Pass1(list, depth, 3) == Place(0, 2) && Pass2(list, depth, 3) == Place(0, 2);
    assert Pass1(list, depth, 4) == Place(0, 2) && Pass2(list, depth, 4) == Place(1, 2);
  }

  // ----- when an accepted list passes the second check too

  /** The ADJUST at i goes to a label that has no depth yet when fix_sp_depth comes to it. */
  predicate Early(list: seq<Item>, i: nat)
    requires i < |list| && Walked(list, i).Some?
  {
    list[i].Adjust? && list[i].to.Some? && list[i].to.value !in Walked(list, i).value.tab
  }

  /** Depths of labels are never negative, and once given they stay. */
  ghost predicate Within(tab: Depths, depth: Depths) {
    forall l {:trigger l in tab} :: l in tab ==> tab[l] >= 0 && l in depth && depth[l] == tab[l]
  }

  lemma {:induction false} BranchedWithin(operands: seq<Operand>, tab: Depths, sp: int)
    requires sp >= 0 && Within(tab, tab)
    ensures Within(Branched(operands, tab, sp), Branched(operands, tab, sp)) && Within(tab, Branched(operands, tab, sp))
  {
    if operands != [] { BranchedWithin(operands[..|operands| - 1], tab, sp); }
  }

  lemma NextWithin(e: Item, w: Walk)
    requires Within(w.tab, w.tab) && w.sp >= -1 && Next(e, w).Some?
    ensures var v := Next(e, w).value; Within(v.tab, v.tab) && Within(w.tab, v.tab) && v.sp >= -1
  {
    if e.Insn? { BranchedWithin(e.operands, w.tab, w.sp + e.grow); }
  }

  lemma {:induction false} WalkedWithin(list: seq<Item>, i: nat)
    requires i <= |list| && Walked(list, i).Some?
    ensures Within(Walked(list, i).value.tab, Walked(list, i).value.tab) && Walked(list, i).value.sp >= -1
  {
    if i > 0 {
      WalkedWithin(list, i - 1);
      NextWithin(list[i - 1], Walked(list, i - 1).value);
    }
  }

  lemma {:induction false} WalkedStays(list: seq<Item>, i: nat, n: nat)
    requires i <= n <= |list| && Walked(list, n).Some?
    ensures Walked(list, i).Some? && Within(Walked(list, i).value.tab, Walked(list, n).value.tab)
  {
    WalkedBack(list, i, n);
    if i < n {
      WalkedStays(list, i, n - 1);
      WalkedWithin(list, n - 1);
      NextWithin(list[n - 1], Walked(list, n - 1).value);
    } else {
      WalkedWithin(list, n);
    }
  }

  lemma AboveStep(e: Item, w: Walk, p: Place, depth: Depths)
    requires w.sp >= -1 && w.sp <= p.sp && Within(w.tab, w.tab) && Within(depth, depth)
    requires Next(e, w).Some? && Within(w.tab, depth) && Within(Next(e, w).value.tab, depth)
    ensures Next(e, w).value.sp <= Second(e, p, depth).sp
  {
    hide Branched;
    if e.Mark? { assert e.l in Next(e, w).value.tab || Next(e, w).value.sp == -1; }
  }

  /** The second pass is never below the walk. */
  lemma {:induction false} SecondAbove(list: seq<Item>, i: nat)
    requires Accepted(list) && i <= |list|
    ensures Walked(list, i).Some? && Walked(list, i).value.sp <= Pass2(list, DepthsOf(list), i).sp
  {
    hide Within, Placed, Next, Second;
    WalkedStays(list, i, |list|);
    if i > 0 {
      SecondAbove(list, i - 1);
      WalkedStays(list, i - 1, |list|);
      WalkedWithin(list, i - 1);
      WalkedWithin(list, |list|);
      AboveStep(list[i - 1], Walked(list, i - 1).value, Pass2(list, DepthsOf(list), i - 1), DepthsOf(list));
    }
  }

  /** What fix_sp_depth checked, and the second pass checks again. */
  lemma CheckedTwice(list: seq<Item>, i: nat)
    requires Accepted(list) && i < |list|
    ensures Walked(list, i).Some? && (!Early(list, i) ==> NoAdjustBug(list, DepthsOf(list), i))
  {
    hide Placed, Pass2, Within;
    SecondAbove(list, i);
    WalkedBack(list, i + 1, |list|);
    if list[i].Adjust? && !Early(list, i) { SameGoal(list, i); }
  }

  lemma SameGoal(list: seq<Item>, i: nat)
    requires Accepted(list) && i < |list| && Walked(list, i).Some? && list[i].Adjust? && !Early(list, i)
    ensures Goal(Walked(list, i).value.tab, list[i].to) == Goal(DepthsOf(list), list[i].to)
  {
    hide Placed, Walked;
    WalkedStays(list, i, |list|);
  }

  /** On a list that fix_sp_depth accepts, the second pass finds no "adjust bug" exactly when every emitting ADJUST to a
      label that had no depth yet starts at the label's depth or above; the other ADJUSTs cannot fail. */
  lemma NoAdjustBugs(list: seq<Item>)
    requires Accepted(list)
    ensures forall i: nat :: i < |list| ==> Walked(list, i).Some?
    ensures (forall i: nat :: i < |list| ==> NoAdjustBug(list, DepthsOf(list), i))
       <==> (forall i: nat :: i < |list| && Early(list, i) && list[i].emits ==>
               Level(list, DepthsOf(list), true, i) >= Goal(DepthsOf(list), list[i].to))
  {
    hide Accepted, Early, DepthsOf, Level, Walked, Pass2;
    forall i: nat | i < |list|
      ensures Walked(list, i).Some? && (!Early(list, i) ==> NoAdjustBug(list, DepthsOf(list), i))
      ensures NoAdjustBug(list, DepthsOf(list), i)
         <==> (list[i].Adjust? && list[i].emits ==> Level(list, DepthsOf(list), true, i) >= Goal(DepthsOf(list), list[i].to))
    {
      CheckedTwice(list, i);
      LevelIs(list, DepthsOf(list), i);
    }
    assert forall i: nat :: i < |list| && Walked(list, i).Some? && Early(list, i) ==> list[i].Adjust? by { EarlyAdjust(list); }
  }

  lemma EarlyAdjust(list: seq<Item>)
    ensures forall i: nat :: i < |list| && Walked(list, i).Some? && Early(list, i) ==> list[i].Adjust?
  {
  }

  /** Such an ADJUST can fail: the label's depth is found only behind it. */
  lemma AcceptedCanFail()
    ensures var list := [Adjust(true, Some(0)), Insn(2, 2, []), Mark(0)];
            Accepted(list) && Early(list, 0) && !NoAdjustBug(list, DepthsOf(list), 0)
  {
    var list := [Adjust(true, Some(0)), Insn(2, 2, []), Mark(0)];
    assert Walked(list, 1) == Some(Walk(-1, map[], 0));
    assert Walked(list, 2) == Some(Walk(1, map[], 1));
    assert Walked(list, 3) == Some(Walk(1, map[0 := 1], 1));
  }
}
