/** The array operations over shared buffers (array.c): each is an ordinary sequence operation on its
    receiver and does nothing to any other array. */
module ArrayOps {
  import opened SharedArrays

  const ARY_DEFAULT_SIZE: nat := 16
  const ARY_MAX_SIZE: nat := 0x7fff_ffff_ffff_ffff / 8

  /** How an operation ends: normally, or by raising FrozenError or IndexError before any change. */
  datatype Outcome = Done | FrozenError | IndexError

  function Len(s: Store, x: Ref): (n: nat) { |Contents(s, x)| }

  /** How many elements fit where an array's pointer points; -1 when it may not write there. */
  function Room(s: Store, x: Ref): (n: int)
    requires x in s.objs
  {
    match s.objs[x]
    case Embed(_) => RARRAY_EMBED_LEN_MAX
    case Owned(b, _) => if b in s.bufs then |s.bufs[b]| else 0
    case Slice(r, off, _) => if Occupied(s, r) && s.objs[r].buf in s.bufs then |s.bufs[s.objs[r].buf]| - off else -1
    case Root(_, _, _, _) => -1
  }

  /** The array has elements of its own: nothing else reads what it points to. */
  predicate Private(s: Store, x: Ref) { x in s.objs && (s.objs[x].Embed? || s.objs[x].Owned?) }

  /** The size of the buffer that only this array reads, as its owner or as the only slice of a root; -1 if there is none. */
  function Alone(s: Store, x: Ref): (n: int)
    requires x in s.objs
  {
    match s.objs[x]
    case Owned(b, _) => if b in s.bufs then |s.bufs[b]| else -1
    case Slice(r, _, _) => if Occupied(s, r) && s.objs[r].buf in s.bufs then |s.bufs[s.objs[r].buf]| else -1
    case _ => -1
  }

  /** The capacity that rb_ary_modify leaves. */
  function ModifiedCapa(s: Store, x: Ref): (n: int)
    requires x in s.objs
  {
    match s.objs[x]
    case Slice(r, _, len) =>
      if len <= RARRAY_EMBED_LEN_MAX then RARRAY_EMBED_LEN_MAX
      else if Alone(s, x) >= 0 && len > Alone(s, x) / 2 then Alone(s, x) else len
    case _ => Room(s, x)
  }

  /** ary_double_capa's new capacity */
  function DoubledCapa(capa: nat, min: nat): (r: nat)
    requires min <= ARY_MAX_SIZE
  {
    var half := if capa / 2 < ARY_DEFAULT_SIZE then ARY_DEFAULT_SIZE else capa / 2;
    var more := if half >= ARY_MAX_SIZE - min then (ARY_MAX_SIZE - min) / 2 else half;
    more + min
  }

  /** c with vals written over it from idx on, growing if they reach past the end. */
  function Written(c: seq<Value>, idx: nat, vals: seq<Value>): (r: seq<Value>)
    requires idx <= |c|
  {
    c[..idx] + vals + if idx + |vals| <= |c| then c[idx + |vals|..] else []
  }

  lemma ShowsTrans(s: Store, s1: Store, s2: Store, x: Ref, c1: seq<Value>, c2: seq<Value>)
    requires Shows(s, s1, x, c1) && Shows(s1, s2, x, c2)
    ensures Shows(s, s2, x, c2)
  {
    assert View(s)[x := c1][x := c2] == View(s)[x := c2];
  }

  lemma ShowsSame(s: Store, s': Store, x: Ref, c: seq<Value>)
    requires Shows(s, s', x, c) && x in View(s) && View(s)[x] == c
    ensures View(s') == View(s)
  {
    assert View(s)[x := c] == View(s);
  }

  method Garbage(n: nat) returns (data: seq<Value>)
    ensures |data| == n
  {
    data := *;
    while |data| < n {
      var v: Value := *;
      data := data + [v];
    }
    data := data[..n];
  }

  class ArrayHeap {
    var st: Store

    constructor ()
      ensures Inv(st) && View(st) == map[] && st.frozen == {}
    {
      st := Store(map[], map[], {}, 0);
      new;
      forall r ensures Counted(st.objs, r) {}
      assert View(st).Keys == {};
    }

    /** ary_resize_capa */
    method ResizeCapa(x: Ref, capacity: nat)
      requires Inv(st) && Private(st, x) && Len(st, x) <= capacity
      modifies this
      ensures Inv(st) && View(st) == View(old(st)) && st.frozen == old(st).frozen
      ensures Private(st, x) && Room(st, x) >= capacity
      ensures Len(st, x) == Len(old(st), x)
      ensures capacity > RARRAY_EMBED_LEN_MAX ==> Alone(st, x) == capacity
    {
      hide Inv, View;
      PrivateFacts(st, x);
      var c := Contents(st, x);
      if capacity > RARRAY_EMBED_LEN_MAX {
        if st.objs[x].Embed? {
          var rest := Garbage(capacity - |c|);
          NewBufKeeps(st, c + rest);
          var b := st.next;
          st := NewBuf(st, c + rest);
          EmbedToOwned(st, x, b);
          st := st.(objs := st.objs[x := Owned(b, |c|)]);
        } else {
          var b := st.objs[x].buf;
          var rest := Garbage(capacity);
          var data := (st.bufs[b] + rest)[..capacity];
          OwnedBuf(st, x, data);
          st := st.(bufs := st.bufs[b := data]);
        }
      } else {
        if !st.objs[x].Embed? {
          FreeOwned(st, x, c);
          ShowsSame(st, st.(objs := st.objs[x := Embed(c)], bufs := st.bufs - {st.objs[x].buf}), x, c);
          st := st.(objs := st.objs[x := Embed(c)], bufs := st.bufs - {st.objs[x].buf});
        }
      }
    }

    /** ary_double_capa */
    method DoubleCapa(x: Ref, min: nat)
      requires Inv(st) && Private(st, x) && Len(st, x) <= min <= ARY_MAX_SIZE
      modifies this
      ensures Inv(st) && View(st) == View(old(st)) && st.frozen == old(st).frozen
      ensures Private(st, x) && Room(st, x) >= DoubledCapa(Room(old(st), x), min)
    {
      ResizeCapa(x, DoubledCapa(Room(st, x), min));
    }

    /** rb_ary_modify: afterwards the array shares nothing. */
    method Modify(x: Ref) returns (out: Outcome)
      requires Inv(st) && User(st, x)
      modifies this
      ensures Inv(st) && View(st) == View(old(st)) && st.frozen == old(st).frozen
      ensures out == if x in st.frozen then FrozenError else Done
      ensures out == FrozenError ==> st == old(st)
      ensures out == Done ==> Private(st, x) && Room(st, x) == ModifiedCapa(old(st), x)
    {
      hide Inv, View;
      if x in st.frozen {
        return FrozenError;
      }
      UserFacts(st, x);
      if st.objs[x].Slice? {
        Unslice(x);
      }
      return Done;
    }

    method Unslice(x: Ref)
      requires Inv(st) && User(st, x) && st.objs[x].Slice?
      modifies this
      ensures Inv(st) && View(st) == View(old(st)) && st.frozen == old(st).frozen
      ensures Private(st, x) && Room(st, x) == ModifiedCapa(old(st), x)
    {
      hide Inv, View;
      UserFacts(st, x);
      var s0 := st;
      var r, off, len := st.objs[x].root, st.objs[x].off, st.objs[x].len;
      var data := st.bufs[st.objs[r].buf];
      var c := data[off..off + len];
      if len <= RARRAY_EMBED_LEN_MAX {
        LetGo(st, x, Embed(c));
        st := DecrementShare(st.(objs := st.objs[x := Embed(c)]), r);
      } else if Occupied(st, r) && len > |data| / 2 {
        var moved := c + data[len..];
        StealKeeps(st, x, moved, len);
        assert moved[..len] == c;
        st := Steal(st, x, moved, len);
      } else {
        NewBufKeeps(st, c);
        var b := st.next;
        st := NewBuf(st, c);
        LetGo(st, x, Owned(b, len));
        st := DecrementShare(st.(objs := st.objs[x := Owned(b, len)]), r);
        assert Contents(st, x) == c[..len] == c by { hide Contents; PrivateFacts(st, x); assert Placed(st, Owned(b, len)); }
      }
      ShowsSame(s0, st, x, c);
    }

    /** ary_ensure_room_for_push: afterwards `add` more elements fit behind the last one. */
    method EnsureRoomForPush(x: Ref, add: nat) returns (out: Outcome)
      requires Inv(st) && User(st, x)
      modifies this
      ensures Inv(st) && View(st) == View(old(st)) && st.frozen == old(st).frozen
      ensures out == if Len(old(st), x) + add > ARY_MAX_SIZE then IndexError
                     else if x in st.frozen then FrozenError else Done
      ensures out != Done ==> st == old(st)
      ensures out == Done ==> User(st, x) && Len(st, x) + add <= Room(st, x)
    {
      hide Inv, View;
      UserFacts(st, x);
      var newLen := Len(st, x) + add;
      if newLen > ARY_MAX_SIZE {
        return IndexError;
      }
      var wide := false;
      if st.objs[x].Slice? && newLen > RARRAY_EMBED_LEN_MAX && Occupied(st, st.objs[x].root) {
        if newLen <= Room(st, x) {
          return if x in st.frozen then FrozenError else Done;
        }
        wide := true;
      }
      out := Modify(x);
      if out == Done {
        PrivateFacts(st, x);
        var capa := Room(st, x);
        if (if wide then newLen > capa - capa / 64 else newLen > capa) {
          DoubleCapa(x, newLen);
          PrivateFacts(st, x);
        }
      }
    }

    /** Rewrites the buffer that only x reads, then sets x's length. */
    method PutBuf(x: Ref, b: Ref, data: seq<Value>, a: Ary, ghost c: seq<Value>)
      requires Inv(st) && Reads(st, x, b) && b in st.bufs && |data| == |st.bufs[b]|
      requires st.objs[x].Owned? ==> st.objs[x].len <= |data| && a == Owned(b, |c|) && |c| <= |data| && data[..|c|] == c
      requires st.objs[x].Slice? ==>
                 && a.Slice? && a.root == st.objs[x].root && a.len == |c|
                 && a.off + |c| <= |data| && data[a.off..a.off + |c|] == c
      modifies this
      ensures Inv(st) && Shows(old(st), st, x, c)
      ensures st == old(st).(objs := old(st).objs[x := a], bufs := old(st).bufs[b := data])
    {
      hide Inv, View;
      ghost var s0 := st;
      ChangeBuf(st, x, b, data);
      st := st.(bufs := st.bufs[b := data]);
      ghost var s1 := st;
      ChangeObj(st, x, a);
      st := st.(objs := st.objs[x := a]);
      ShowsTrans(s0, s1, st, x, Contents(s1, x), Contents(st, x)) by { hide Contents; }
    }

    /** Writes through the array's pointer, and extends the length to what was written. */
    method PutAt(x: Ref, idx: nat, vals: seq<Value>)
      requires Inv(st) && User(st, x) && idx <= Len(st, x) && idx + |vals| <= Room(st, x)
      modifies this
      ensures Inv(st) && Shows(old(st), st, x, Written(Contents(old(st), x), idx, vals))
      ensures x in st.objs && Room(st, x) == Room(old(st), x) && Alone(st, x) == Alone(old(st), x)
      ensures old(st).objs[x].Slice? ==>
                st.objs[x].Slice? && st.objs[x].root == old(st).objs[x].root && st.objs[x].off == old(st).objs[x].off
    {
      hide Inv, View;
      UserFacts(st, x);
      var s0 := st;
      var c := Contents(st, x);
      var c' := Written(c, idx, vals);
      match st.objs[x]
      case Embed(_) =>
        ChangeObj(st, x, Embed(c'));
        st := st.(objs := st.objs[x := Embed(c')]);
      case Owned(b, len) =>
        OverlaySlice(st.bufs[b], 0, len, idx, vals);
        PutBuf(x, b, Overlay(st.bufs[b], idx, vals), Owned(b, |c'|), c');
      case Slice(r, off, len) =>
        OverlaySlice(st.bufs[st.objs[r].buf], off, len, idx, vals);
        PutBuf(x, st.objs[r].buf, Overlay(st.bufs[st.objs[r].buf], off + idx, vals), Slice(r, off, |c'|), c');
      case Root(_, _, _, _) => assert false;
    }

    /** rb_ary_cat; rb_ary_push is the case of one value */
    method Cat(x: Ref, vals: seq<Value>) returns (out: Outcome)
      requires Inv(st) && User(st, x)
      modifies this
      ensures Inv(st)
      ensures out == if Len(old(st), x) + |vals| > ARY_MAX_SIZE then IndexError
                     else if x in old(st).frozen then FrozenError else Done
      ensures out != Done ==> st == old(st)
      ensures out == Done ==> Shows(old(st), st, x, Contents(old(st), x) + vals)
    {
      hide Inv, View;
      ghost var s0 := st;
      UserFacts(st, x);
      out := EnsureRoomForPush(x, |vals|);
      if out == Done {
        ghost var s1 := st;
        UserFacts(st, x);
        PutAt(x, Len(st, x), vals);
        assert Written(Contents(s1, x), Len(s1, x), vals) == Contents(s0, x) + vals;
        ShowsFrom(s0, s1, st, x, Contents(s0, x) + vals);
      }
    }

    /** rb_ary_store.  Out of its domain: the index ARY_MAX_SIZE - 1 when the array has to grow for it, see StoreRoom. */
    method StoreAt(x: Ref, idx0: int, val: Value) returns (out: Outcome)
      requires Inv(st) && User(st, x) && (idx0 == ARY_MAX_SIZE - 1 && x !in st.frozen ==> idx0 < ModifiedCapa(st, x))
      modifies this
      ensures Inv(st)
      ensures var idx := if idx0 < 0 then idx0 + Len(old(st), x) else idx0;
              && out == (if idx < 0 || idx0 >= ARY_MAX_SIZE then IndexError
                         else if x in old(st).frozen then FrozenError else Done)
              && (out == Done ==> Shows(old(st), st, x, Stored(Contents(old(st), x), idx, val)))
      ensures out == Done ==>
                IsStored(Contents(old(st), x), if idx0 < 0 then idx0 + Len(old(st), x) else idx0, val, Contents(st, x))
      ensures out != Done ==> st == old(st)
    {
      hide Inv, View;
      ghost var s0 := st;
      UserFacts(st, x);
      var c := Contents(st, x);
      var idx := idx0;
      if idx < 0 {
        idx := idx + |c|;
        if idx < 0 {
          return IndexError;
        }
      } else if idx >= ARY_MAX_SIZE {
        return IndexError;
      }
      out := Modify(x);
      if out == FrozenError {
        return;
      }
      PrivateFacts(st, x);
      if idx >= Room(st, x) {
        StoreRoom(Room(st, x), idx);
        DoubleCapa(x, idx);
        PrivateFacts(st, x);
      }
      ghost var s1 := st;
      StorePut(x, idx, val);
      ShowsFrom(s0, s1, st, x, Stored(c, idx, val));
      ShowsAt(s0, st, x, Stored(c, idx, val));
      StoredEach(c, idx, val);
    }

    method StorePut(x: Ref, idx: nat, val: Value)
      requires Inv(st) && Private(st, x) && idx < Room(st, x)
      modifies this
      ensures Inv(st) && Shows(old(st), st, x, Stored(Contents(old(st), x), idx, val))
    {
      hide Inv, View;
      ghost var s1 := st;
      PrivateFacts(st, x);
      var c := Contents(st, x);
      if idx > |c| {
        PutAt(x, |c|, seq(idx - |c| + 1, _ => Nil));
        ghost var s2 := st;
        ShowsAt(s1, st, x, Written(c, |c|, seq(idx - |c| + 1, _ => Nil)));
        PutAt(x, idx, [val]);
        assert Written(Contents(s2, x), idx, [val]) == Stored(c, idx, val);
        ShowsTrans(s1, s2, st, x, Contents(s2, x), Stored(c, idx, val)) by { hide Contents; }
      } else {
        PutAt(x, idx, [val]);
        assert Written(c, idx, [val]) == Stored(c, idx, val);
      }
    }

    /** rb_ary_pop */
    method Pop(x: Ref) returns (out: Outcome, v: Value)
      requires Inv(st) && User(st, x)
      modifies this
      ensures Inv(st)
      ensures out == if x in old(st).frozen then FrozenError else Done
      ensures out != Done ==> st == old(st)
      ensures out == Done && Len(old(st), x) == 0 ==> v == Nil && st == old(st)
      ensures out == Done && Len(old(st), x) > 0 ==>
                var c := Contents(old(st), x);
                v == c[|c| - 1] && Shows(old(st), st, x, c[..|c| - 1])
    {
      hide Inv, View;
      if x in st.frozen {
        return FrozenError, Nil;
      }
      UserFacts(st, x);
      ghost var s0 := st;
      var c := Contents(st, x);
      var n := |c|;
      if n == 0 {
        return Done, Nil;
      }
      if st.objs[x].Owned? && n * 3 < Room(st, x) && Room(st, x) > ARY_DEFAULT_SIZE {
        ResizeCapa(x, n * 2);
        PrivateFacts(st, x);
      }
      ghost var s1 := st;
      UserFacts(st, x);
      var a := Shortened(st.objs[x]);
      ChangeObj(st, x, a);
      st := st.(objs := st.objs[x := a]);
      ShowsFrom(s0, s1, st, x, Contents(st, x));
      ShortenedContents(s1, st, x);
      return Done, c[n - 1];
    }

    /** rb_ary_shift */
    method Shift(x: Ref) returns (out: Outcome, v: Value)
      requires Inv(st) && User(st, x)
      modifies this
      ensures Inv(st)
      ensures out == if x in old(st).frozen then FrozenError else Done
      ensures out != Done ==> st == old(st)
      ensures out == Done && Len(old(st), x) == 0 ==> v == Nil && st == old(st)
      ensures out == Done && Len(old(st), x) > 0 ==>
                var c := Contents(old(st), x);
                v == c[0] && Shows(old(st), st, x, c[1..])
      ensures out == Done && Len(old(st), x) >= ARY_DEFAULT_SIZE ==>
                x in st.objs && st.objs[x].Slice? && Alone(st, x) == Alone(old(st), x)
    {
      hide Inv, View;
      if x in st.frozen {
        return FrozenError, Nil;
      }
      UserFacts(st, x);
      var c := Contents(st, x);
      if |c| == 0 {
        return Done, Nil;
      }
      if !st.objs[x].Slice? && |c| < ARY_DEFAULT_SIZE {
        SlideDown(x, 1);
      } else {
        SkipFront(x, 1);
      }
      return Done, c[0];
    }

    /** Moves the elements of a short array down over the first n. */
    method SlideDown(x: Ref, n: nat)
      requires Inv(st) && Private(st, x) && n <= Len(st, x)
      modifies this
      ensures Inv(st) && Shows(old(st), st, x, Contents(old(st), x)[n..])
    {
      hide Inv, View;
      PrivateFacts(st, x);
      ghost var s0 := st;
      var c := Contents(st, x);
      if st.objs[x].Embed? {
        ChangeObj(st, x, Embed(c[n..]));
        st := st.(objs := st.objs[x := Embed(c[n..])]);
      } else {
        var b := st.objs[x].buf;
        var data := c[n..] + st.bufs[b][|c| - n..];
        ChangeBuf(st, x, b, data);
        st := st.(bufs := st.bufs[b := data]);
        ghost var s1 := st;
        ChangeObj(st, x, Owned(b, |c| - n));
        st := st.(objs := st.objs[x := Owned(b, |c| - n)]);
        assert data[..|c| - n] == c[n..];
        ShowsTrans(s0, s1, st, x, Contents(s1, x), Contents(st, x));
      }
    }

    /** Moves the pointer past the first n elements, of which nil is left behind when nothing
        else can see them; an array that shares nothing yet gets a root first. */
    method SkipFront(x: Ref, n: nat)
      requires Inv(st) && User(st, x) && (st.objs[x].Slice? || st.objs[x].Owned?) && n <= Len(st, x)
      requires x !in st.frozen
      modifies this
      ensures Inv(st) && Shows(old(st), st, x, Contents(old(st), x)[n..])
      ensures x in st.objs && st.objs[x].Slice? && Alone(st, x) == Alone(old(st), x)
    {
      hide Inv, View;
      UserFacts(st, x);
      ghost var s0 := st;
      var c := Contents(st, x);
      var r, off := MakeShared(x);
      UserFacts(st, x);
      ghost var s1 := st;
      if Occupied(st, r) {
        PutAt(x, 0, seq(n, _ => Nil));
        ShowsAt(s1, st, x, Written(c, 0, seq(n, _ => Nil)));
      } else {
        ShowsSelf(s1, x);
      }
      ghost var s2 := st;
      assert Contents(s2, x)[n..] == c[n..];
      AdvancePtr(x, n);
      ShowsTrans(s1, s2, st, x, Contents(s2, x), c[n..]) by { hide Contents; }
      ShowsFrom(s0, s1, st, x, c[n..]);
    }

    /** ARY_INCREASE_PTR and ARY_INCREASE_LEN */
    method AdvancePtr(x: Ref, n: nat)
      requires Inv(st) && User(st, x) && st.objs[x].Slice? && n <= Len(st, x)
      modifies this
      ensures Inv(st) && Shows(old(st), st, x, Contents(old(st), x)[n..])
      ensures x in st.objs && st.objs[x].Slice? && Alone(st, x) == Alone(old(st), x)
    {
      hide Inv, View;
      UserFacts(st, x);
      ghost var s0 := st;
      var a := st.objs[x].(off := st.objs[x].off + n, len := st.objs[x].len - n);
      ChangeObj(st, x, a);
      st := st.(objs := st.objs[x := a]);
      assert Contents(st, x) == Contents(s0, x)[n..];
    }

    /** ary_make_shared: the root that holds the array's elements, and where in it they start. */
    method MakeShared(x: Ref) returns (r: Ref, off: nat)
      requires Inv(st) && User(st, x) && !st.objs[x].Embed?
      modifies this
      ensures Inv(st) && View(st) == View(old(st)) && st.frozen == old(st).frozen
      ensures User(st, x) && IsRoot(st, r) && off + Len(st, x) <= |st.bufs[st.objs[r].buf]|
      ensures st.bufs[st.objs[r].buf][off..off + Len(st, x)] == Contents(st, x) == Contents(old(st), x)
      ensures (st.objs[x].Slice? && st.objs[x].root == r && st.objs[x].off == off)
           || (x in st.frozen && st.objs[x].Root? && r == x && off == 0)
      ensures x !in st.frozen && old(st).objs[x].Owned? ==>
                Occupied(st, r) && off == 0 && |st.bufs[st.objs[r].buf]| == Room(old(st), x)
      ensures x !in st.frozen ==> Alone(st, x) == Alone(old(st), x)
      ensures old(st).objs.Keys <= st.objs.Keys
    {
      hide Inv, View;
      UserFacts(st, x);
      match st.objs[x]
      case Slice(root, o, _) => r, off := root, o;
      case Root(_, _, _, _) => r, off := x, 0;
      case Owned(b, len) =>
        if x in st.frozen {
          SelfRoot(st, x);
          st := st.(objs := st.objs[x := Root(b, 1, false, 0)], bufs := st.bufs[b := st.bufs[b][..len]]);
          r, off := x, 0;
        } else {
          var data := st.bufs[b][..len] + seq(|st.bufs[b]| - len, _ => Nil);
          OwnedBuf(st, x, data);
          st := st.(bufs := st.bufs[b := data]);
          NewRootKeeps(st, x);
          r, off := st.next, 0;
          FreshRef(st);
          st := NewRoot(st, x);
        }
    }

    /** ary_make_partial: a new array of the elements from off on, sharing them unless they are few. */
    method MakePartial(x: Ref, off: nat, len: nat) returns (y: Ref)
      requires Inv(st) && User(st, x) && off + len <= Len(st, x)
      modifies this
      ensures Inv(st) && y !in old(st).objs && y !in st.frozen
      ensures Shows(old(st), st, y, Contents(old(st), x)[off..off + len])
      ensures User(st, x)
      ensures len > RARRAY_EMBED_LEN_MAX && x !in st.frozen ==> st.objs[x].Slice?
      ensures len <= RARRAY_EMBED_LEN_MAX ==> st.objs[x] == old(st).objs[x]
    {
      hide Inv, View;
      UserFacts(st, x);
      ghost var s0 := st;
      var c := Contents(st, x);
      FreshRef(st);
      if len <= RARRAY_EMBED_LEN_MAX {
        y := st.next;
        NewAryKeeps(st);
        st := NewAry(st);
        ghost var s1 := st;
        ChangeObj(st, y, Embed(c[off..off + len]));
        st := st.(objs := st.objs[y := Embed(c[off..off + len])]);
        ShowsTrans(s0, s1, st, y, [], c[off..off + len]) by { hide Contents; }
      } else {
        var r, o := MakeShared(x);
        ghost var s1 := st;
        FreshRef(st);
        UserFacts(st, x);
        y := st.next;
        NewAryKeeps(st);
        st := NewAry(st);
        ghost var s2 := st;
        AttachKeeps(st, y, r, o + off, len);
        var d := st.bufs[st.objs[r].buf];
        assert d[o + off..o + off + len] == d[o..o + |c|][off..off + len];
        st := Attach(st, y, r, o + off, len);
        ShowsTrans(s1, s2, st, y, [], c[off..off + len]) by { hide Contents; }
        ShowsFrom(s0, s1, st, y, c[off..off + len]);
      }
    }

    /** rb_ary_subseq; None stands for nil */
    method Subseq(x: Ref, beg: int, len0: int) returns (y: Ref, nil: bool)
      requires Inv(st) && User(st, x)
      modifies this
      ensures Inv(st)
      ensures nil <==> beg > Len(old(st), x) || beg < 0 || len0 < 0
      ensures nil ==> st == old(st)
      ensures !nil ==>
                && y !in old(st).objs && y !in st.frozen
                && Shows(old(st), st, y, Sub(Contents(old(st), x), beg, len0))
                && IsSlice(Contents(old(st), x), beg, len0, Contents(st, y))
    {
      hide Inv, View;
      y := 0;
      var alen := Len(st, x);
      if beg > alen || beg < 0 || len0 < 0 {
        return 0, true;
      }
      var len := if alen < len0 || alen < beg + len0 then alen - beg else len0;
      assert Contents(st, x)[beg..beg + len] == Sub(Contents(st, x), beg, len0);
      ghost var s0 := st;
      y := MakePartial(x, beg, len);
      ShowsAt(s0, st, y, Sub(Contents(s0, x), beg, len0));
      SubEach(Contents(s0, x), beg, len0);
      return y, false;
    }

    /** rb_ary_pop_m with a count */
    method PopN(x: Ref, n0: nat) returns (out: Outcome, y: Ref)
      requires Inv(st) && User(st, x)
      modifies this
      ensures Inv(st)
      ensures out == if x in old(st).frozen then FrozenError else Done
      ensures out != Done ==> st == old(st)
      ensures out == Done ==>
                var c := Contents(old(st), x);
                var k := if n0 > |c| then 0 else |c| - n0;
                y !in old(st).objs && y !in st.frozen && View(st) == View(old(st))[y := c[k..]][x := c[..k]]
                && st.frozen == old(st).frozen
    {
      hide Inv, View;
      if x in st.frozen {
        return FrozenError, 0;
      }
      UserFacts(st, x);
      ghost var s0 := st;
      var c := Contents(st, x);
      var k := if n0 > |c| then 0 else |c| - n0;
      y := MakePartial(x, k, |c| - k);
      ghost var s1 := st;
      assert c[k..k + (|c| - k)] == c[k..];
      ShowsOther(s0, s1, y, c[k..], x);
      Truncate(x, k);
      out := Done;
    }

    /** ARY_SET_LEN to less */
    method Truncate(x: Ref, k: nat)
      requires Inv(st) && User(st, x) && x !in st.frozen && k <= Len(st, x)
      modifies this
      ensures Inv(st) && Shows(old(st), st, x, Contents(old(st), x)[..k])
      ensures Private(old(st), x) ==> Private(st, x)
    {
      hide Inv, View;
      UserFacts(st, x);
      ghost var s0 := st;
      var a := match st.objs[x]
        case Embed(items) => Embed(items[..k])
        case Owned(b, _) => Owned(b, k)
        case Slice(r, off, _) => Slice(r, off, k)
        case Root(_, _, _, _) => Embed([]);
      ChangeObj(st, x, a);
      st := st.(objs := st.objs[x := a]);
      assert Contents(st, x) == Contents(s0, x)[..k];
    }

    /** rb_ary_shift_m with a count */
    method ShiftN(x: Ref, n0: nat) returns (out: Outcome, y: Ref)
      requires Inv(st) && User(st, x)
      modifies this
      ensures Inv(st)
      ensures out == if x in old(st).frozen then FrozenError else Done
      ensures out != Done ==> st == old(st)
      ensures out == Done ==>
                var c := Contents(old(st), x);
                var n := if n0 > |c| then |c| else n0;
                y !in old(st).objs && y !in st.frozen && View(st) == View(old(st))[y := c[..n]][x := c[n..]]
                && st.frozen == old(st).frozen
    {
      hide Inv, View;
      if x in st.frozen {
        return FrozenError, 0;
      }
      UserFacts(st, x);
      ghost var s0 := st;
      var c := Contents(st, x);
      var n := if n0 > |c| then |c| else n0;
      y := MakePartial(x, 0, n);
      ghost var s1 := st;
      assert c[0..0 + n] == c[..n];
      ShowsOther(s0, s1, y, c[..n], x);
      UserFacts(st, x);
      if !st.objs[x].Slice? && |c| < ARY_DEFAULT_SIZE {
        SlideDown(x, n);
      } else {
        SkipFront(x, n);
      }
      out := Done;
    }

    /** rb_ary_unshift_m.  Nothing looks at the frozen flag when the array is the only slice of a root with room to
        spare: a frozen array takes elements in front exactly then. */
    method Unshift(x: Ref, vals: seq<Value>) returns (out: Outcome)
      requires Inv(st) && User(st, x)
      modifies this
      ensures Inv(st)
      ensures vals == [] ==> out == if x in old(st).frozen then FrozenError else Done
      ensures vals != [] ==> (out == IndexError <==> Len(old(st), x) + |vals| > ARY_MAX_SIZE)
      ensures vals != [] && out != IndexError ==>
                (out == FrozenError <==> x in old(st).frozen && !RoomInFront(old(st), x, |vals|))
      ensures out != Done ==> st == old(st)
      ensures out == Done ==> Shows(old(st), st, x, vals + Contents(old(st), x))
    {
      hide Inv, View;
      UserFacts(st, x);
      var c := Contents(st, x);
      if |vals| == 0 {
        assert vals + c == c;
        ShowsSelf(st, x);
        return if x in st.frozen then FrozenError else Done;
      }
      if |c| + |vals| > ARY_MAX_SIZE {
        return IndexError;
      }
      if RoomInFront(st, x, |vals|) {
        UnshiftShared(x, vals);
        return Done;
      }
      ghost var s0 := st;
      out := Modify(x);
      if out == Done {
        ghost var s1 := st;
        PrivateFacts(st, x);
        UnshiftPrivate(x, vals);
        ShowsFrom(s0, s1, st, x, vals + c);
      }
    }

    method UnshiftPrivate(x: Ref, vals: seq<Value>)
      requires Inv(st) && Private(st, x) && x !in st.frozen && Len(st, x) + |vals| <= ARY_MAX_SIZE
      modifies this
      ensures Inv(st) && Shows(old(st), st, x, vals + Contents(old(st), x))
    {
      hide Inv, View;
      ghost var s0 := st;
      PrivateFacts(st, x);
      var c := Contents(st, x);
      var newLen := |c| + |vals|;
      var capa := Room(st, x);
      if capa - capa / 64 <= newLen {
        DoubleCapa(x, newLen);
        PrivateFacts(st, x);
      }
      ghost var s1 := st;
      if newLen > ARY_DEFAULT_SIZE * 4 {
        var r, off := MakeShared(x);
        ghost var s2 := st;
        UserFacts(st, x);
        MakeRoom(x, vals);
        ShowsFrom(s0, s2, st, x, vals + c);
      } else {
        PutAt(x, 0, vals + c);
        assert Written(c, 0, vals + c) == vals + c;
        ShowsFrom(s0, s1, st, x, vals + c);
      }
    }

    /** The array is the only slice of a root that is large enough. */
    method UnshiftShared(x: Ref, vals: seq<Value>)
      requires Inv(st) && User(st, x) && RoomInFront(st, x, |vals|)
      modifies this
      ensures Inv(st) && Shows(old(st), st, x, vals + Contents(old(st), x))
    {
      hide Inv, View;
      UserFacts(st, x);
      if st.objs[x].off < |vals| {
        MakeRoom(x, vals);
      } else {
        var r, off, len := st.objs[x].root, st.objs[x].off, st.objs[x].len;
        var b := st.objs[r].buf;
        var c' := vals + Contents(st, x);
        var data := Overlay(st.bufs[b], off - |vals|, vals);
        assert data[off - |vals|..off - |vals| + |c'|] == c';
        PutBuf(x, b, data, Slice(r, off - |vals|, |c'|), c');
      }
    }

    /** The elements move so far up in the root's buffer that most of its free room lies below them. */
    method MakeRoom(x: Ref, vals: seq<Value>)
      requires Inv(st) && User(st, x) && st.objs[x].Slice? && Occupied(st, st.objs[x].root)
      requires IsRoot(st, st.objs[x].root)
      requires Len(st, x) + |vals| <= |st.bufs[st.objs[st.objs[x].root].buf]|
      modifies this
      ensures Inv(st) && Shows(old(st), st, x, vals + Contents(old(st), x))
    {
      hide Inv, View;
      UserFacts(st, x);
      var r := st.objs[x].root;
      var b := st.objs[r].buf;
      var c := Contents(st, x);
      var newLen := |c| + |vals|;
      var room := |st.bufs[b]| - newLen;
      room := room - room / 16;
      var moved := Overlay(st.bufs[b], |vals| + room, c);
      var data := Overlay(moved, room, vals);
      assert data[room..room + newLen] == vals + c;
      PutBuf(x, b, data, Slice(r, room, newLen), vals + c);
    }

    /** rb_ary_clear */
    method Clear(x: Ref) returns (out: Outcome)
      requires Inv(st) && User(st, x)
      modifies this
      ensures Inv(st)
      ensures out == if x in old(st).frozen then FrozenError else Done
      ensures out != Done ==> st == old(st)
      ensures out == Done ==> Shows(old(st), st, x, [])
    {
      hide Inv, View;
      if x in st.frozen {
        return FrozenError;
      }
      UserFacts(st, x);
      ghost var s0 := st;
      if st.objs[x].Slice? {
        var r := st.objs[x].root;
        LetGo(st, x, Embed([]));
        st := DecrementShare(st.(objs := st.objs[x := Embed([])]), r);
      } else {
        Truncate(x, 0);
        ghost var s1 := st;
        assert Contents(s0, x)[..0] == [];
        ShowsAt(s0, s1, x, []);
        UserFacts(st, x);
        if ARY_DEFAULT_SIZE * 2 < Room(st, x) {
          ResizeCapa(x, ARY_DEFAULT_SIZE * 2);
        }
        ShowsThen(s0, s1, st, x, []);
      }
      return Done;
    }

    /** rb_ary_replace */
    method Replace(x: Ref, y: Ref) returns (out: Outcome)
      requires Inv(st) && User(st, x) && User(st, y)
      modifies this
      ensures Inv(st)
      ensures out == if x in old(st).frozen then FrozenError else Done
      ensures out != Done ==> st == old(st)
      ensures out == Done ==> Shows(old(st), st, x, Contents(old(st), y))
    {
      hide Inv, View;
      if x in st.frozen {
        return FrozenError;
      }
      UserFacts(st, x);
      UserFacts(st, y);
      ghost var s0 := st;
      var c := Contents(st, y);
      if x == y {
        ShowsSelf(st, x);
        return Done;
      }
      if |c| <= RARRAY_EMBED_LEN_MAX {
        BecomeEmbed(x, c);
      } else {
        ReplaceShared(x, y);
      }
      return Done;
    }

    /** Gives up whatever x holds or shares and keeps c in the object. */
    method BecomeEmbed(x: Ref, c: seq<Value>)
      requires Inv(st) && User(st, x) && x !in st.frozen && |c| <= RARRAY_EMBED_LEN_MAX
      modifies this
      ensures Inv(st) && Shows(old(st), st, x, c)
      ensures x in st.objs && st.objs[x] == Embed(c)
      ensures forall q :: q != x && User(old(st), q) ==> q in st.objs && SameUse(old(st).objs[q], st.objs[q])
    {
      hide Inv, View;
      UserFacts(st, x);
      match st.objs[x]
      case Embed(_) =>
        ChangeObj(st, x, Embed(c));
        st := st.(objs := st.objs[x := Embed(c)]);
      case Owned(b, _) =>
        FreeOwned(st, x, c);
        st := st.(objs := st.objs[x := Embed(c)], bufs := st.bufs - {b});
      case Slice(r, _, _) =>
        LetGo(st, x, Embed(c));
        st := DecrementShare(st.(objs := st.objs[x := Embed(c)]), r);
      case Root(_, _, _, _) => assert false;
    }

    method ReplaceShared(x: Ref, y: Ref)
      requires Inv(st) && User(st, x) && User(st, y) && x != y && x !in st.frozen && !st.objs[y].Embed?
      modifies this
      ensures Inv(st) && Shows(old(st), st, x, Contents(old(st), y))
    {
      hide Inv, View;
      ghost var s0 := st;
      var c := Contents(st, y);
      var r, off := MakeShared(y);
      ghost var s1 := st;
      SameUser(s0, s1, x);
      UserFacts(st, y);
      BecomeEmbed(x, []);
      ghost var s2 := st;
      ShowsOther(s1, s2, x, [], y);
      UserFacts(st, y);
      AttachKeeps(st, x, r, off, |c|);
      st := Attach(st, x, r, off, |c|);
      ShowsTrans(s1, s2, st, x, [], c) by { hide Contents; }
      ShowsFrom(s0, s1, st, x, c);
    }

    /** ary_new with values: a new array. */
    method New(vals: seq<Value>) returns (x: Ref)
      requires Inv(st) && |vals| <= ARY_MAX_SIZE
      modifies this
      ensures Inv(st) && x !in old(st).objs && x !in st.frozen && Shows(old(st), st, x, vals)
      ensures |vals| > RARRAY_EMBED_LEN_MAX ==> x in st.objs && Alone(st, x) == |vals|
    {
      hide Inv, View;
      ghost var s0 := st;
      FreshRef(st);
      x := st.next;
      NewAryKeeps(st);
      st := NewAry(st);
      ghost var s1 := st;
      ShowsAt(s0, s1, x, []);
      ResizeCapa(x, |vals|);
      ghost var s2 := st;
      PrivateFacts(st, x);
      PutAt(x, 0, vals);
      assert Written([], 0, vals) == vals;
      ShowsFrom(s1, s2, st, x, vals);
      ShowsTrans(s0, s1, st, x, [], vals) by { hide Contents; }
    }

    /** rb_ary_freeze */
    method Freeze(x: Ref)
      requires Inv(st) && User(st, x)
      modifies this
      ensures Inv(st) && View(st) == View(old(st)) && st == old(st).(frozen := old(st).frozen + {x})
    {
      ghost var s0 := st;
      st := st.(frozen := st.frozen + {x});
      ViewSame(s0, st) by {
        hide View, AllHeld, AllCounted;
        forall y | User(s0, y) ensures Contents(st, y) == Contents(s0, y) {}
      }
    }

    /** The collector frees an object that nothing refers to: rb_ary_free releases the buffer of an array that owns
        one, a root's too, and does not touch the count of the root it is a slice of. */
    method Collect(x: Ref)
      requires Inv(st) && x in st.objs && Unshared(st.objs, x)
      modifies this
      ensures Inv(st) && View(st) == View(old(st)) - {x} && st.frozen == old(st).frozen
      ensures st.objs.Keys == old(st).objs.Keys - {x}
    {
      hide Inv, View, Unshared;
      FreeKeeps(st, x);
      st := Freed(st, x);
    }
  }

  /** No array is a slice of x. */
  predicate Unshared(objs: map<Ref, Ary>, x: Ref) { forall y :: y in objs ==> !Shares(objs[y], x) }

  /** rb_ary_free */
  function Freed(s: Store, x: Ref): (s': Store)
    requires x in s.objs
  {
    var a := s.objs[x];
    var objs := if a.Slice? && IsRoot(s, a.root) then s.objs[a.root := s.objs[a.root].(lost := s.objs[a.root].lost + 1)]
                else s.objs;
    s.(objs := objs - {x}, bufs := if a.Owned? || a.Root? then s.bufs - {a.buf} else s.bufs)
  }

  lemma PrivateFacts(s: Store, x: Ref)
    requires Inv(s) && Private(s, x)
    ensures Placed(s, s.objs[x]) && x in View(s) && View(s)[x] == Contents(s, x)
    ensures s.objs[x].Owned? ==> s.objs[x].buf in s.bufs && s.objs[x].len <= |s.bufs[s.objs[x].buf]|
  {}

  /** An embedded array moves to a buffer that already holds its elements. */
  lemma EmbedToOwned(s: Store, x: Ref, b: Ref)
    requires Inv(s) && x in s.objs && s.objs[x].Embed? && Unheld(s, b) && s.objs[x].items <= s.bufs[b]
    ensures var s' := s.(objs := s.objs[x := Owned(b, |s.objs[x].items|)]);
            Inv(s') && View(s') == View(s)
  {
    var a := Owned(b, |s.objs[x].items|);
    var s' := s.(objs := s.objs[x := a]);
    KeepCounts(s.objs, x, a);
    forall y | y in s.objs ensures Placed(s', s'.objs[y]) && Contents(s', y) == Contents(s, y) {
      assert Placed(s, s.objs[y]);
    }
    TakeHeld(s, x, a);
    ViewSame(s, s') by { hide Contents, Placed; }
  }

  lemma TakeHeld(s: Store, x: Ref, a: Ary)
    requires AllHeld(s.objs) && a.Owned? && Unheld(s, a.buf)
    ensures AllHeld(s.objs[x := a])
  {
    var objs' := s.objs[x := a];
    forall y, z, b | y in objs' && z in objs' && Holds(objs'[y], b) && Holds(objs'[z], b)
      ensures y == z
    {
      if y != x { assert Holds(s.objs[y], b); }
      if z != x { assert Holds(s.objs[z], b); }
    }
  }

  /** A buffer changes beyond the elements of the array that owns it. */
  lemma OwnedBuf(s: Store, x: Ref, data: seq<Value>)
    requires Inv(s) && x in s.objs && s.objs[x].Owned? && s.objs[x].buf in s.bufs
    requires s.objs[x].len <= |data| && s.objs[x].len <= |s.bufs[s.objs[x].buf]|
    requires data[..s.objs[x].len] == s.bufs[s.objs[x].buf][..s.objs[x].len]
    ensures var s' := s.(bufs := s.bufs[s.objs[x].buf := data]);
            Inv(s') && View(s') == View(s)
  {
    hide Inv;
    var b := s.objs[x].buf;
    ChangeBuf(s, x, b, data);
    var s' := s.(bufs := s.bufs[b := data]);
    PrivateFacts(s, x);
    ShowsSame(s, s', x, Contents(s', x));
  }

  /** What the invariant says of a visible array. */
  lemma UserFacts(s: Store, x: Ref)
    requires Inv(s) && User(s, x)
    ensures Placed(s, s.objs[x]) && x in View(s) && View(s)[x] == Contents(s, x)
    ensures s.objs[x].Root? ==> x in s.frozen
    ensures s.objs[x].Slice? ==> IsRoot(s, s.objs[x].root) && s.objs[x].root != x
  {}

  lemma ShowsFrom(s: Store, s1: Store, s2: Store, x: Ref, c: seq<Value>)
    requires View(s1) == View(s) && s1.frozen == s.frozen && Shows(s1, s2, x, c)
    ensures Shows(s, s2, x, c)
  {}

  /** data with vals written over it. */
  function Overlay(data: seq<Value>, at: nat, vals: seq<Value>): (r: seq<Value>)
    requires at + |vals| <= |data|
    ensures |r| == |data|
  {
    data[..at] + vals + data[at + |vals|..]
  }

  lemma OverlaySlice(data: seq<Value>, off: nat, len: nat, idx: nat, vals: seq<Value>)
    requires off + len <= |data| && idx <= len && off + idx + |vals| <= |data|
    ensures var c' := Written(data[off..off + len], idx, vals);
            off + |c'| <= |data| && Overlay(data, off + idx, vals)[off..off + |c'|] == c'
  {
    var c' := Written(data[off..off + len], idx, vals);
    var d' := Overlay(data, off + idx, vals);
    assert forall i :: 0 <= i < |c'| ==> d'[off + i] == c'[i];
  }

  /** c with val at idx, nil in any places skipped. */
  function Stored(c: seq<Value>, idx: nat, val: Value): (r: seq<Value>)
    ensures |r| == if idx < |c| then |c| else idx + 1
    ensures r[idx] == val
  {
    if idx < |c| then c[idx := val] else c + seq(idx - |c|, _ => Nil) + [val]
  }

  /** d is c with val at idx: every other element is where it was, and there is nil between the end of c and idx. */
  ghost predicate IsStored(c: seq<Value>, idx: int, val: Value, d: seq<Value>) {
    && 0 <= idx < |d| && |d| == (if idx < |c| then |c| else idx + 1) && d[idx] == val
    && (forall i :: 0 <= i < |c| && i != idx ==> d[i] == c[i])
    && (forall i :: |c| <= i < idx ==> d[i] == Nil)
  }

  lemma StoredEach(c: seq<Value>, idx: nat, val: Value)
    ensures IsStored(c, idx, val, Stored(c, idx, val))
  {
  }

  /** Growing for an index leaves room for that index except at the very last one allowed:
      there the new capacity is the index itself, and the element would lie behind the buffer. */
  lemma StoreRoom(capa: nat, idx: nat)
    requires idx < ARY_MAX_SIZE
    ensures idx < DoubledCapa(capa, idx) <==> idx != ARY_MAX_SIZE - 1
  {}

  lemma ShowsAt(s: Store, s': Store, x: Ref, c: seq<Value>)
    requires Inv(s') && Shows(s, s', x, c)
    ensures User(s', x) && Contents(s', x) == c
  {
    assert x in View(s');
  }

  lemma FreshRef(s: Store)
    requires Inv(s)
    ensures s.next !in s.objs && s.next !in s.bufs && s.next !in s.frozen
  {}

  lemma ShowsSelf(s: Store, x: Ref)
    requires User(s, x)
    ensures Shows(s, s, x, Contents(s, x))
  {
    assert View(s)[x := View(s)[x]] == View(s);
  }

  /** The array without its last element. */
  function Shortened(a: Ary): (r: Ary)
    requires !a.Root?
  {
    match a
    case Embed(items) => Embed(if items == [] then [] else items[..|items| - 1])
    case Owned(b, len) => Owned(b, if len == 0 then 0 else len - 1)
    case Slice(r, off, len) => Slice(r, off, if len == 0 then 0 else len - 1)
  }

  lemma SliceShort(data: seq<Value>, off: nat, len: nat)
    requires off + len <= |data| && len > 0
    ensures data[off..off + (len - 1)] == data[off..off + len][..len - 1]
  {
  }

  lemma ShortenedContents(s: Store, s': Store, x: Ref)
    requires Inv(s) && x in s.objs && !s.objs[x].Root? && Len(s, x) > 0
    requires s' == s.(objs := s.objs[x := Shortened(s.objs[x])])
    ensures Contents(s', x) == Contents(s, x)[..Len(s, x) - 1]
  {
    assert Placed(s, s.objs[x]);
    assert Placed(s', s'.objs[x]);
    if s.objs[x].Slice? {
      var data, off, len := s.bufs[s.objs[s.objs[x].root].buf], s.objs[x].off, s.objs[x].len;
      SliceShort(data, off, len);
    } else if s.objs[x].Owned? {
      var data, len := s.bufs[s.objs[x].buf], s.objs[x].len;
      SliceShort(data, 0, len);
      assert data[0..len - 1] == data[..len - 1] && data[0..len] == data[..len];
    }
  }

  function Sub(c: seq<Value>, beg: int, len: int): (r: seq<Value>)
    requires 0 <= beg <= |c| && 0 <= len
  {
    if |c| < len || |c| < beg + len then c[beg..] else c[beg..beg + len]
  }

  /** d is the elements of c from beg on, len of them if there are so many. */
  ghost predicate IsSlice(c: seq<Value>, beg: int, len: int, d: seq<Value>) {
    && 0 <= beg <= |c| && |d| == (if len <= |c| - beg then len else |c| - beg)
    && forall i :: 0 <= i < |d| ==> d[i] == c[beg + i]
  }

  lemma SubEach(c: seq<Value>, beg: int, len: int)
    requires 0 <= beg <= |c| && 0 <= len
    ensures IsSlice(c, beg, len, Sub(c, beg, len))
  {
  }

  lemma ShowsOther(s: Store, s': Store, y: Ref, c: seq<Value>, x: Ref)
    requires Inv(s) && Inv(s') && Shows(s, s', y, c) && User(s, x) && x != y
    ensures User(s', x) && Contents(s', x) == Contents(s, x)
  {
    assert x in View(s');
  }

  lemma ShowsThen(s: Store, s1: Store, s2: Store, x: Ref, c: seq<Value>)
    requires Shows(s, s1, x, c) && View(s2) == View(s1) && s2.frozen == s1.frozen
    ensures Shows(s, s2, x, c)
  {}

  /** unshift may write before the array's first element without asking anyone. */
  predicate RoomInFront(s: Store, x: Ref, n: nat) {
    x in s.objs && s.objs[x].Slice? && Occupied(s, s.objs[x].root) && IsRoot(s, s.objs[x].root) &&
    |s.bufs[s.objs[s.objs[x].root].buf]| > s.objs[x].len + n
  }

  /** The same object, but for a root's count. */
  predicate SameUse(a: Ary, b: Ary) { a == b || (a.Root? && b.Root? && a.buf == b.buf) }

  lemma SameUser(s: Store, s': Store, x: Ref)
    requires View(s') == View(s) && User(s, x)
    ensures User(s', x)
  {
    assert x in View(s');
  }

  /** Freeing an object that nothing refers to: the root it shares, if any, is only over-counted. */
  lemma FreeKeeps(s: Store, x: Ref)
    requires Inv(s) && x in s.objs && Unshared(s.objs, x)
    ensures Inv(Freed(s, x)) && View(Freed(s, x)) == View(s) - {x}
  {
    var s' := Freed(s, x);
    FreedCounts(s, x);
    FreedHeld(s, x);
    forall y | y in s'.objs ensures Placed(s', s'.objs[y]) && Contents(s', y) == Contents(s, y) { FreedOther(s, x, y); }
    assert View(s').Keys == (View(s) - {x}).Keys;
  }

  lemma FreedCounts(s: Store, x: Ref)
    requires AllPlaced(s) && AllCounted(s.objs) && x in s.objs && Unshared(s.objs, x)
    ensures AllCounted(Freed(s, x).objs)
  {
    var s' := Freed(s, x);
    assert Placed(s, s.objs[x]);
    forall r ensures Counted(s'.objs, r) {
      assert Counted(s.objs, r);
      if Shares(s.objs[x], r) {
        assert Sharers(s'.objs, r) == Sharers(s.objs, r) - {x};
      } else {
        assert Sharers(s'.objs, r) == Sharers(s.objs, r);
      }
    }
  }

  lemma FreedHeld(s: Store, x: Ref)
    requires AllHeld(s.objs) && x in s.objs
    ensures AllHeld(Freed(s, x).objs)
  {
    var objs' := Freed(s, x).objs;
    forall y, z, b | y in objs' && z in objs' && Holds(objs'[y], b) && Holds(objs'[z], b)
      ensures y == z
    {
      assert Holds(s.objs[y], b) && Holds(s.objs[z], b);
    }
  }

  lemma FreedOther(s: Store, x: Ref, y: Ref)
    requires Inv(s) && x in s.objs && Unshared(s.objs, x) && y in s.objs && y != x
    ensures Placed(Freed(s, x), Freed(s, x).objs[y]) && Contents(Freed(s, x), y) == Contents(s, y)
  {
    assert Placed(s, s.objs[y]) && Placed(s, s.objs[x]);
    if s.objs[x].Owned? || s.objs[x].Root? { assert Holds(s.objs[x], s.objs[x].buf); }
    if s.objs[y].Slice? {
      assert !Shares(s.objs[y], x);
      assert Holds(s.objs[s.objs[y].root], s.objs[s.objs[y].root].buf);
    } else if s.objs[y].Owned? || s.objs[y].Root? {
      assert Holds(s.objs[y], s.objs[y].buf);
    }
  }

  /** A run that changes a frozen array: shift an array of 17 elements or more twice, freeze it, and unshift one. */
  method FrozenUnshift(vals: seq<Value>, v: Value) returns (h: ArrayHeap, x: Ref, ghost before: Store)
    requires ARY_DEFAULT_SIZE < |vals| <= ARY_MAX_SIZE
    ensures Inv(before) && User(before, x) && x in before.frozen && Contents(before, x) == vals[2..]
    ensures Inv(h.st) && Shows(before, h.st, x, [v] + Contents(before, x))
  {
    hide Inv, View, Contents;
    h := new ArrayHeap();
    ghost var s0 := h.st;
    x := h.New(vals);
    ghost var s1 := h.st;
    ShowsAt(s0, s1, x, vals);
    var out, top := h.Shift(x);
    ghost var s2 := h.st;
    ShowsAt(s1, s2, x, vals[1..]);
    out, top := h.Shift(x);
    ghost var s3 := h.st;
    ShowsAt(s2, s3, x, vals[1..][1..]);
    h.Freeze(x);
    before := h.st;
    StillThere(s3, before, x);
    assert vals[1..][1..] == vals[2..];
    FrontRoom(before, x);
    out := h.Unshift(x, [v]);
  }

  lemma FrontRoom(s: Store, x: Ref)
    requires Inv(s) && x in s.objs && s.objs[x].Slice? && Alone(s, x) == Len(s, x) + 2
    ensures RoomInFront(s, x, 1)
  {
    UserFacts(s, x);
  }

  lemma StillThere(s: Store, s': Store, x: Ref)
    requires Inv(s) && Inv(s') && View(s') == View(s) && User(s, x)
    ensures User(s', x) && Contents(s', x) == Contents(s, x)
  {
    SameUser(s, s', x);
    UserFacts(s, x);
    UserFacts(s', x);
  }
}
