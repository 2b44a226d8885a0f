/** Copy-on-write arrays: embedded, owning a buffer, or a slice of a counted shared root (array.c). */
module SharedArrays {

  type Ref = nat

  datatype Value = Nil | Obj(id: nat)

  const RARRAY_EMBED_LEN_MAX: nat := 3

  /** What an array object's flags and fields say about where its elements are.  `lost` is not in the source: how many
      slices of a root were freed, which does not count down. */
  datatype Ary =
    | Embed(items: seq<Value>)                                 // RARRAY_EMBED_FLAG
    | Owned(buf: Ref, len: nat)                                // a buffer of its own; its size is the capacity
    | Slice(root: Ref, off: nat, len: nat)                     // ELTS_SHARED
    | Root(buf: Ref, num: nat, hidden: bool, lost: nat)        // RARRAY_SHARED_ROOT_FLAG; num is the shared count

  /** All array objects, the allocated buffers, the frozen objects, and the next unused reference. */
  datatype Store = Store(objs: map<Ref, Ary>, bufs: map<Ref, seq<Value>>, frozen: set<Ref>, next: Ref)

  /** The arrays a program can see: all but the hidden roots. */
  predicate User(s: Store, x: Ref) {
    x in s.objs && !(s.objs[x].Root? && s.objs[x].hidden)
  }

  predicate Holds(a: Ary, b: Ref) { (a.Owned? || a.Root?) && a.buf == b }

  predicate Shares(a: Ary, r: Ref) { a.Slice? && a.root == r }

  ghost function Sharers(objs: map<Ref, Ary>, r: Ref): (res: set<Ref>) {
    set x | x in objs && Shares(objs[x], r)
  }

  /** Everything an object refers to exists, and is large enough. */
  predicate Placed(s: Store, a: Ary) {
    match a
    case Embed(items) => |items| <= RARRAY_EMBED_LEN_MAX
    case Owned(b, len) => b in s.bufs && len <= |s.bufs[b]|
    case Slice(r, off, len) => IsRoot(s, r) && off + len <= |s.bufs[s.objs[r].buf]|
    case Root(b, _, _, _) => b in s.bufs
  }

  predicate IsRoot(s: Store, r: Ref) {
    r in s.objs && s.objs[r].Root? && s.objs[r].buf in s.bufs
  }

  ghost predicate AllFresh(s: Store) {
    && (forall x :: x in s.objs ==> x < s.next)
    && (forall b :: b in s.bufs ==> b < s.next)
    && (forall x :: x in s.frozen ==> x < s.next)
  }

  ghost predicate AllPlaced(s: Store) {
    forall x :: x in s.objs ==> Placed(s, s.objs[x])
  }

  /** No two objects hold the same buffer. */
  ghost predicate AllHeld(objs: map<Ref, Ary>) {
    forall x, y, b :: x in objs && y in objs && Holds(objs[x], b) && Holds(objs[y], b) ==> x == y
  }

  ghost predicate Counted(objs: map<Ref, Ary>, r: Ref) {
    r in objs && objs[r].Root? ==> |Sharers(objs, r)| + (if objs[r].hidden then 0 else 1) + objs[r].lost == objs[r].num
  }

  /** A root's count is the number of arrays that use it, itself included when it is a program's own array, and of
      those freed while they did. */
  ghost predicate AllCounted(objs: map<Ref, Ary>) {
    forall r :: Counted(objs, r)
  }

  ghost predicate RootsFrozen(s: Store) {
    forall r :: r in s.objs && s.objs[r].Root? && !s.objs[r].hidden ==> r in s.frozen
  }

  ghost predicate Inv(s: Store) {
    AllFresh(s) && AllPlaced(s) && AllHeld(s.objs) && AllCounted(s.objs) && RootsFrozen(s)
  }

  /** The elements of an array. */
  function Contents(s: Store, x: Ref): (res: seq<Value>) {
    if x !in s.objs || !Placed(s, s.objs[x]) then []
    else
      match s.objs[x]
      case Embed(items) => items
      case Owned(b, len) => s.bufs[b][..len]
      case Slice(r, off, len) => s.bufs[s.objs[r].buf][off..off + len]
      case Root(b, _, _, _) => s.bufs[b]
  }

  /** The program's view of the heap. */
  ghost function View(s: Store): (v: map<Ref, seq<Value>>) {
    map x | x in s.objs && User(s, x) :: Contents(s, x)
  }

  // ----- counting

  lemma SubsetSize<T>(a: set<T>, b: set<T>)
    requires a <= b
    ensures |a| <= |b|
  {
    assert b == a + (b - a);
  }

  lemma SharersAdd(objs: map<Ref, Ary>, x: Ref, a: Ary, r: Ref)
    requires Shares(a, r) && x !in Sharers(objs, r)
    ensures |Sharers(objs[x := a], r)| == |Sharers(objs, r)| + 1
  {
    assert Sharers(objs[x := a], r) == Sharers(objs, r) + {x};
  }

  lemma SharersDrop(objs: map<Ref, Ary>, x: Ref, a: Ary, r: Ref)
    requires x in Sharers(objs, r) && !Shares(a, r)
    ensures Sharers(objs[x := a], r) == Sharers(objs, r) - {x}
    ensures |Sharers(objs[x := a], r)| == |Sharers(objs, r)| - 1
  {
    assert Sharers(objs[x := a], r) == Sharers(objs, r) - {x};
  }

  lemma SharersSame(objs: map<Ref, Ary>, x: Ref, a: Ary, r: Ref)
    requires (x in objs && Shares(objs[x], r)) <==> Shares(a, r)
    ensures Sharers(objs[x := a], r) == Sharers(objs, r)
  {}

  predicate Occupied(s: Store, r: Ref) { r in s.objs && s.objs[r].Root? && s.objs[r].num == 1 }

  /** An occupied root has no user but the slice at hand, and is not itself a program's array. */
  lemma OccupiedAlone(objs: map<Ref, Ary>, x: Ref, r: Ref)
    requires Counted(objs, r) && x in objs && Shares(objs[x], r)
    requires r in objs && objs[r].Root?
    ensures objs[r].num >= 1
    ensures objs[r].num == 1 ==> objs[r].hidden && forall y :: y in objs && Shares(objs[y], r) ==> y == x
  {
    var all := Sharers(objs, r);
    SubsetSize({x}, all);
    forall y | objs[r].num == 1 && y in objs && Shares(objs[y], r)
      ensures y == x
    {
      if y != x {
        assert {x, y} <= all;
        SubsetSize({x, y}, all);
      }
    }
  }

  // ----- what an update of the store leaves alone

  /** s' shows x holding c, and every other visible array as it was. */
  ghost predicate Shows(s: Store, s': Store, x: Ref, c: seq<Value>) {
    View(s') == View(s)[x := c] && s'.frozen == s.frozen
  }

  lemma ShowsIntro(s: Store, s': Store, x: Ref, c: seq<Value>)
    requires s'.frozen == s.frozen && User(s', x) && Contents(s', x) == c
    requires forall y :: y != x ==> User(s', y) == User(s, y)
    requires forall y :: y != x && User(s, y) ==> Contents(s', y) == Contents(s, y)
    ensures Shows(s, s', x, c)
  {
    hide Contents;
    var v, w := View(s'), View(s)[x := c];
    assert v.Keys == w.Keys;
  }

  lemma ViewSame(s: Store, s': Store)
    requires forall y :: User(s', y) == User(s, y)
    requires forall y :: User(s, y) ==> Contents(s', y) == Contents(s, y)
    ensures View(s') == View(s)
  {
    hide Contents;
    assert View(s').Keys == View(s).Keys;
  }

  /** An object that is no root changes, without changing what it shares or holds. */
  lemma ChangeObj(s: Store, x: Ref, a: Ary)
    requires Inv(s) && x in s.objs && !s.objs[x].Root? && !a.Root?
    requires forall r :: Shares(a, r) == Shares(s.objs[x], r)
    requires forall b :: Holds(a, b) == Holds(s.objs[x], b)
    requires Placed(s, a)
    ensures var s' := s.(objs := s.objs[x := a]);
            Inv(s') && Shows(s, s', x, Contents(s', x))
  {
    var s' := s.(objs := s.objs[x := a]);
    KeepCounts(s.objs, x, a);
    forall y | y in s'.objs ensures Placed(s', s'.objs[y]) { assert Placed(s, s'.objs[y]); }
    forall y | y != x && User(s, y) ensures Contents(s', y) == Contents(s, y) {}
    ShowsIntro(s, s', x, Contents(s', x));
  }

  lemma KeepCounts(objs: map<Ref, Ary>, x: Ref, a: Ary)
    requires AllCounted(objs) && x in objs && !objs[x].Root? && !a.Root?
    requires forall r :: Shares(a, r) == Shares(objs[x], r)
    ensures AllCounted(objs[x := a])
  {
    var objs' := objs[x := a];
    forall r ensures Counted(objs', r) {
      SharersSame(objs, x, a, r);
      assert Counted(objs, r);
    }
  }

  /** x alone reads buffer b: it owns it, or is the only slice of the hidden root that holds it. */
  ghost predicate Reads(s: Store, x: Ref, b: Ref) {
    x in s.objs &&
    match s.objs[x]
    case Embed(_) => false
    case Owned(b', _) => b' == b
    case Slice(r, _, _) => Occupied(s, r) && s.objs[r].buf == b
    case Root(_, _, _, _) => false
  }

  /** The buffer only x reads is rewritten; it may be resized if x owns it. */
  lemma ChangeBuf(s: Store, x: Ref, b: Ref, data: seq<Value>)
    requires Inv(s) && Reads(s, x, b)
    requires s.objs[x].Owned? ==> s.objs[x].len <= |data|
    requires s.objs[x].Slice? ==> |data| == |s.bufs[b]|
    ensures b in s.bufs
    ensures var s' := s.(bufs := s.bufs[b := data]);
            Inv(s') && Shows(s, s', x, Contents(s', x))
  {
    var s' := s.(bufs := s.bufs[b := data]);
    assert Placed(s, s.objs[x]);
    if s.objs[x].Slice? {
      assert Counted(s.objs, s.objs[x].root);
      OccupiedAlone(s.objs, x, s.objs[x].root);
    }
    forall y | y in s.objs && y != x
      ensures Placed(s', s.objs[y]) && (User(s, y) ==> Contents(s', y) == Contents(s, y))
    {
      assert Placed(s, s.objs[y]);
      OtherBuffer(s, x, b, y);
    }
    ShowsIntro(s, s', x, Contents(s', x));
  }

  /** No other visible array has its elements in b, and no other object a need for its size. */
  lemma OtherBuffer(s: Store, x: Ref, b: Ref, y: Ref)
    requires Inv(s) && Reads(s, x, b) && y in s.objs && y != x
    ensures s.objs[y].Owned? ==> s.objs[y].buf != b
    ensures s.objs[y].Slice? ==> s.objs[s.objs[y].root].buf != b
    ensures s.objs[y].Root? && !s.objs[y].hidden ==> s.objs[y].buf != b
  {
    var a := s.objs[x];
    assert Placed(s, a) && Placed(s, s.objs[y]);
    var h := if a.Slice? then a.root else x;
    assert Holds(s.objs[h], b);
    if a.Slice? {
      assert Counted(s.objs, a.root);
      OccupiedAlone(s.objs, x, a.root);
    }
    if s.objs[y].Slice? {
      var r := s.objs[y].root;
      assert Holds(s.objs[r], s.objs[r].buf) && Shares(s.objs[y], r);
    } else if s.objs[y].Owned? || s.objs[y].Root? {
      assert Holds(s.objs[y], s.objs[y].buf);
    }
  }

  /** No object holds buffer b. */
  ghost predicate Unheld(s: Store, b: Ref) {
    b in s.bufs && forall y :: y in s.objs ==> !Holds(s.objs[y], b)
  }

  /** ALLOC_N */
  function NewBuf(s: Store, data: seq<Value>): (s': Store) {
    s.(bufs := s.bufs[s.next := data], next := s.next + 1)
  }

  lemma NewBufKeeps(s: Store, data: seq<Value>)
    requires Inv(s)
    ensures var s' := NewBuf(s, data);
            Inv(s') && View(s') == View(s) && Unheld(s', s.next)
  {
    var s' := NewBuf(s, data);
    forall y | y in s.objs ensures Placed(s', s.objs[y]) && Contents(s', y) == Contents(s, y) && !Holds(s.objs[y], s.next) {
      assert Placed(s, s.objs[y]);
    }
    ViewSame(s, s') by { hide Contents, Placed; }
  }

  /** rb_ary_decrement_share: the last user of a root frees the root and its buffer. */
  function DecrementShare(s: Store, r: Ref): (s': Store)
    requires r in s.objs && s.objs[r].Root?
  {
    var a := s.objs[r];
    if a.num <= 1 then s.(objs := s.objs - {r}, bufs := s.bufs - {a.buf})
    else s.(objs := s.objs[r := a.(num := a.num - 1)])
  }

  /** A slice takes elements of its own, embedded or in an unheld buffer, and lets go of its root. */
  lemma LetGo(s: Store, x: Ref, a: Ary)
    requires Inv(s) && x in s.objs && s.objs[x].Slice?
    requires a.Embed? || (a.Owned? && Unheld(s, a.buf))
    requires Placed(s, a)
    ensures var r, s1 := s.objs[x].root, s.(objs := s.objs[x := a]);
            && r in s1.objs && s1.objs[r].Root? && (s.objs[r].num <= 1 ==> s.objs[r].hidden)
            && var s' := DecrementShare(s1, r);
               Inv(s') && x in s'.objs && s'.objs[x] == a && Shows(s, s', x, Contents(s', x))
  {
    var r := s.objs[x].root;
    var s1 := s.(objs := s.objs[x := a]);
    assert Placed(s, s.objs[x]);
    var s' := DecrementShare(s1, r);
    LetGoCounts(s.objs, x, a, r);
    LetGoPlaces(s, x, a, r);
    LetGoHeld(s, x, a, r);
    ShowsIntro(s, s', x, Contents(s', x));
  }

  lemma LetGoHeld(s: Store, x: Ref, a: Ary, r: Ref)
    requires Inv(s) && x in s.objs && Shares(s.objs[x], r) && r in s.objs && s.objs[r].Root?
    requires a.Embed? || (a.Owned? && Unheld(s, a.buf))
    ensures AllHeld(DecrementShare(s.(objs := s.objs[x := a]), r).objs)
  {
    var objs' := DecrementShare(s.(objs := s.objs[x := a]), r).objs;
    forall y, z, b | y in objs' && z in objs' && Holds(objs'[y], b) && Holds(objs'[z], b)
      ensures y == z
    {
      if y != x { assert Holds(s.objs[y], b); }
      if z != x { assert Holds(s.objs[z], b); }
    }
  }

  lemma LetGoCounts(objs: map<Ref, Ary>, x: Ref, a: Ary, r: Ref)
    requires AllCounted(objs) && x in objs && Shares(objs[x], r) && r in objs && objs[r].Root?
    requires a.Embed? || a.Owned?
    ensures objs[r].num >= 1 && (objs[r].num == 1 ==> objs[r].hidden)
    ensures objs[r].num == 1 ==> forall y :: y in objs && Shares(objs[y], r) ==> y == x
    ensures AllCounted(objs[x := a] - {r})
    ensures objs[r].num > 1 ==> AllCounted(objs[x := a][r := objs[r].(num := objs[r].num - 1)])
  {
    assert Counted(objs, r);
    OccupiedAlone(objs, x, r);
    SharersDrop(objs, x, a, r);
    var o1 := objs[x := a];
    var o0 := o1 - {r};
    forall q ensures Counted(o0, q) {
      assert Counted(objs, q);
      if q != r {
        SharersSame(objs, x, a, q);
        assert Sharers(o0, q) == Sharers(o1, q);
      }
    }
    if objs[r].num > 1 {
      var o2 := o1[r := objs[r].(num := objs[r].num - 1)];
      forall q ensures Counted(o2, q) {
        assert Counted(objs, q);
        SharersSame(o1, r, o2[r], q);
        if q != r { SharersSame(objs, x, a, q); }
      }
    }
  }

  lemma LetGoPlaces(s: Store, x: Ref, a: Ary, r: Ref)
    requires Inv(s) && x in s.objs && Shares(s.objs[x], r) && r in s.objs && s.objs[r].Root?
    requires a.Embed? || (a.Owned? && Unheld(s, a.buf))
    requires Placed(s, a) && s.objs[r].num >= 1
    requires s.objs[r].num == 1 ==> forall y :: y in s.objs && Shares(s.objs[y], r) ==> y == x
    ensures var s' := DecrementShare(s.(objs := s.objs[x := a]), r);
            && AllPlaced(s')
            && forall y :: y in s'.objs && y != x && y != r ==> Contents(s', y) == Contents(s, y)
    ensures s.objs[r].num != 1 ==>
              Contents(DecrementShare(s.(objs := s.objs[x := a]), r), r) == Contents(s, r)
  {
    var s' := DecrementShare(s.(objs := s.objs[x := a]), r);
    assert Holds(s.objs[r], s.objs[r].buf);
    forall y | y in s'.objs
      ensures Placed(s', s'.objs[y]) && (y != x && y != r ==> Contents(s', y) == Contents(s, y))
    {
      assert Placed(s, s.objs[y]);
      if s.objs[y].Slice? {
        assert Shares(s.objs[y], s.objs[y].root);
        assert Holds(s.objs[s.objs[y].root], s.objs[s.objs[y].root].buf);
      } else if s.objs[y].Owned? || s.objs[y].Root? {
        assert Holds(s.objs[y], s.objs[y].buf);
      }
    }
  }

  /** The sole user of a root takes over the root's buffer; the root goes. */
  function Steal(s: Store, x: Ref, data: seq<Value>, len: nat): (s': Store)
    requires x in s.objs && s.objs[x].Slice? && s.objs[x].root in s.objs && s.objs[s.objs[x].root].Root?
  {
    var b := s.objs[s.objs[x].root].buf;
    s.(objs := s.objs[x := Owned(b, len)] - {s.objs[x].root}, bufs := s.bufs[b := data])
  }

  lemma StealKeeps(s: Store, x: Ref, data: seq<Value>, len: nat)
    requires Inv(s) && x in s.objs && s.objs[x].Slice? && Occupied(s, s.objs[x].root) && len <= |data|
    ensures var s' := Steal(s, x, data, len);
            Inv(s') && x in s'.objs && s'.objs[x].Owned? && s'.objs[x].len == len
            && s'.bufs[s'.objs[x].buf] == data && Shows(s, s', x, data[..len])
  {
    var r := s.objs[x].root;
    var b := s.objs[r].buf;
    var a := Owned(b, len);
    var s' := Steal(s, x, data, len);
    assert Placed(s, s.objs[x]);
    assert Counted(s.objs, r);
    LetGoCounts(s.objs, x, a, r);
    forall y | y in s'.objs && y != x
      ensures Placed(s', s'.objs[y]) && (User(s, y) ==> Contents(s', y) == Contents(s, y)) && !Holds(s.objs[y], b)
    {
      assert Placed(s, s.objs[y]);
      assert Holds(s.objs[r], b);
      OtherBuffer(s, x, b, y);
      if s.objs[y].Slice? { assert Shares(s.objs[y], s.objs[y].root); }
    }
    StealHeld(s, x, a, r);
    ShowsIntro(s, s', x, data[..len]);
  }

  lemma StealHeld(s: Store, x: Ref, a: Ary, r: Ref)
    requires AllHeld(s.objs) && x in s.objs && r in s.objs && x != r && s.objs[r].Root? && a.Owned? && a.buf == s.objs[r].buf
    ensures AllHeld(s.objs[x := a] - {r})
  {
    var objs' := s.objs[x := a] - {r};
    assert Holds(s.objs[r], a.buf);
    forall y, z, b | y in objs' && z in objs' && Holds(objs'[y], b) && Holds(objs'[z], b)
      ensures y == z
    {
      if y != x { assert Holds(s.objs[y], b); }
      if z != x { assert Holds(s.objs[z], b); }
    }
  }

  /** An array gives its buffer back and keeps its elements in the object itself. */
  lemma FreeOwned(s: Store, x: Ref, items: seq<Value>)
    requires Inv(s) && x in s.objs && s.objs[x].Owned? && |items| <= RARRAY_EMBED_LEN_MAX
    ensures var s' := s.(objs := s.objs[x := Embed(items)], bufs := s.bufs - {s.objs[x].buf});
            Inv(s') && Shows(s, s', x, items)
  {
    var b, a := s.objs[x].buf, Embed(items);
    var s' := s.(objs := s.objs[x := a], bufs := s.bufs - {b});
    KeepCounts(s.objs, x, a);
    forall y | y in s.objs && y != x
      ensures Placed(s', s.objs[y]) && Contents(s', y) == Contents(s, y)
    {
      assert Placed(s, s.objs[y]);
      assert Holds(s.objs[x], b);
      if s.objs[y].Slice? { assert Holds(s.objs[s.objs[y].root], s.objs[s.objs[y].root].buf); }
      if s.objs[y].Owned? || s.objs[y].Root? { assert Holds(s.objs[y], s.objs[y].buf); }
    }
    DropHeld(s.objs, x, a);
    ShowsIntro(s, s', x, items);
  }

  lemma DropHeld(objs: map<Ref, Ary>, x: Ref, a: Ary)
    requires AllHeld(objs) && (a.Embed? || a.Slice?)
    ensures AllHeld(objs[x := a])
  {
    var objs' := objs[x := a];
    forall y, z, b | y in objs' && z in objs' && Holds(objs'[y], b) && Holds(objs'[z], b)
      ensures y == z
    {
      assert Holds(objs[y], b) && Holds(objs[z], b);
    }
  }

  /** A frozen array becomes its own root, its buffer cut to its length. */
  lemma SelfRoot(s: Store, x: Ref)
    requires Inv(s) && x in s.objs && s.objs[x].Owned? && x in s.frozen
    ensures var b := s.objs[x].buf;
            && b in s.bufs && s.objs[x].len <= |s.bufs[b]|
            && var s' := s.(objs := s.objs[x := Root(b, 1, false, 0)], bufs := s.bufs[b := s.bufs[b][..s.objs[x].len]]);
               Inv(s') && View(s') == View(s)
  {
    var b := s.objs[x].buf;
    assert Placed(s, s.objs[x]);
    var a := Root(b, 1, false, 0);
    var s' := s.(objs := s.objs[x := a], bufs := s.bufs[b := s.bufs[b][..s.objs[x].len]]);
    SelfRootCounts(s, x, a);
    forall y | y in s.objs && y != x
      ensures Placed(s', s.objs[y]) && Contents(s', y) == Contents(s, y)
    {
      assert Placed(s, s.objs[y]);
      assert Holds(s.objs[x], b);
      if s.objs[y].Slice? { assert Holds(s.objs[s.objs[y].root], s.objs[s.objs[y].root].buf); }
      if s.objs[y].Owned? || s.objs[y].Root? { assert Holds(s.objs[y], s.objs[y].buf); }
    }
    SwapHeld(s.objs, x, a);
    ViewSame(s, s') by { hide AllPlaced, AllHeld, AllCounted; }
  }

  lemma SelfRootCounts(s: Store, x: Ref, a: Ary)
    requires AllPlaced(s) && AllCounted(s.objs) && x in s.objs && s.objs[x].Owned? && a.Root? && a == Root(a.buf, 1, false, 0)
    ensures AllCounted(s.objs[x := a])
  {
    var objs' := s.objs[x := a];
    NoSharers(s, x);
    forall q ensures Counted(objs', q) {
      assert Counted(s.objs, q);
      SharersSame(s.objs, x, a, q);
    }
  }

  lemma NoSharers(s: Store, x: Ref)
    requires AllPlaced(s) && (x in s.objs ==> !s.objs[x].Root?)
    ensures Sharers(s.objs, x) == {}
  {
    forall y | y in s.objs ensures !Shares(s.objs[y], x) { assert Placed(s, s.objs[y]); }
  }

  lemma SwapHeld(objs: map<Ref, Ary>, x: Ref, a: Ary)
    requires AllHeld(objs) && x in objs && forall b :: Holds(a, b) ==> Holds(objs[x], b)
    ensures AllHeld(objs[x := a])
  {
    var objs' := objs[x := a];
    forall y, z, b | y in objs' && z in objs' && Holds(objs'[y], b) && Holds(objs'[z], b)
      ensures y == z
    {
      assert Holds(objs[y], b) && Holds(objs[z], b);
    }
  }

  /** An array's buffer passes to a new hidden root, of which the array becomes the only slice. */
  function NewRoot(s: Store, x: Ref): (s': Store)
    requires x in s.objs && s.objs[x].Owned?
  {
    s.(objs := s.objs[s.next := Root(s.objs[x].buf, 1, true, 0)][x := Slice(s.next, 0, s.objs[x].len)], next := s.next + 1)
  }

  lemma NewRootCounts(s: Store, x: Ref)
    requires AllFresh(s) && AllPlaced(s) && AllCounted(s.objs) && x in s.objs && s.objs[x].Owned?
    ensures AllCounted(NewRoot(s, x).objs)
  {
    var objs', r := NewRoot(s, x).objs, s.next;
    var o1 := s.objs[r := objs'[r]];
    NoSharers(s, r);
    forall q ensures Counted(objs', q) {
      assert Counted(s.objs, q);
      SharersSame(s.objs, r, o1[r], q);
      if q == r { SharersAdd(o1, x, objs'[x], r); } else { SharersSame(o1, x, objs'[x], q); }
    }
  }

  lemma NewRootKeeps(s: Store, x: Ref)
    requires Inv(s) && x in s.objs && s.objs[x].Owned?
    ensures var s' := NewRoot(s, x); Inv(s') && View(s') == View(s)
  {
    var s' := NewRoot(s, x);
    NewRootCounts(s, x);
    NewRootHeld(s, x);
    NewRootPlaces(s, x);
    ViewSame(s, s') by { hide Contents, Placed; }
  }

  lemma NewRootPlaces(s: Store, x: Ref)
    requires AllFresh(s) && AllPlaced(s) && x in s.objs && s.objs[x].Owned?
    ensures var s' := NewRoot(s, x);
            AllPlaced(s') && forall y :: y in s.objs ==> Contents(s', y) == Contents(s, y)
  {
    var s' := NewRoot(s, x);
    assert Placed(s, s.objs[x]);
    forall y | y in s.objs ensures Placed(s', s'.objs[y]) && Contents(s', y) == Contents(s, y) {
      assert Placed(s, s.objs[y]);
    }
  }

  lemma NewRootHeld(s: Store, x: Ref)
    requires AllFresh(s) && AllHeld(s.objs) && x in s.objs && s.objs[x].Owned?
    ensures AllHeld(NewRoot(s, x).objs)
  {
    var r, objs' := s.next, NewRoot(s, x).objs;
    forall y, z, b | y in objs' && z in objs' && Holds(objs'[y], b) && Holds(objs'[z], b)
      ensures y == z
    {
      assert Holds(s.objs[if y == r then x else y], b) && Holds(s.objs[if z == r then x else z], b);
    }
  }

  /** rb_ary_set_shared: an array that holds nothing of its own becomes a slice of r. */
  function Attach(s: Store, x: Ref, r: Ref, off: nat, len: nat): (s': Store)
    requires IsRoot(s, r)
  {
    var a := s.objs[r];
    s.(objs := s.objs[r := a.(num := a.num + 1)][x := Slice(r, off, len)])
  }

  lemma AttachKeeps(s: Store, x: Ref, r: Ref, off: nat, len: nat)
    requires Inv(s) && IsRoot(s, r) && off + len <= |s.bufs[s.objs[r].buf]|
    requires x in s.objs && s.objs[x].Embed?
    ensures var s' := Attach(s, x, r, off, len);
            Inv(s') && Shows(s, s', x, s.bufs[s.objs[r].buf][off..off + len])
  {
    var s' := Attach(s, x, r, off, len);
    var o1 := s.objs[r := s'.objs[r]];
    forall q ensures Counted(s'.objs, q) {
      assert Counted(s.objs, q);
      SharersSame(s.objs, r, o1[r], q);
      if q == r { SharersAdd(o1, x, s'.objs[x], r); } else { SharersSame(o1, x, s'.objs[x], q); }
    }
    forall y | y in s.objs && y != x ensures Placed(s', s'.objs[y]) && Contents(s', y) == Contents(s, y) {
      assert Placed(s, s.objs[y]);
    }
    SwapHeld(s.objs, r, o1[r]);
    DropHeld(o1, x, s'.objs[x]);
    ShowsIntro(s, s', x, s.bufs[s.objs[r].buf][off..off + len]);
  }

  /** ary_alloc: a new empty array. */
  function NewAry(s: Store): (s': Store) {
    s.(objs := s.objs[s.next := Embed([])], next := s.next + 1)
  }

  lemma NewAryKeeps(s: Store)
    requires Inv(s)
    ensures var s' := NewAry(s); Inv(s') && s.next !in s.objs && Shows(s, s', s.next, [])
  {
    var s' := NewAry(s);
    var x := s.next;
    forall q ensures Counted(s'.objs, q) {
      assert Counted(s.objs, q);
      SharersSame(s.objs, x, Embed([]), q);
    }
    forall y | y in s.objs ensures Placed(s', s.objs[y]) && Contents(s', y) == Contents(s, y) {
      assert Placed(s, s.objs[y]);
    }
    DropHeld(s.objs, x, Embed([]));
    ShowsIntro(s, s', x, []);
  }
}
