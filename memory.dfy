/**
 * The object heap as a value: every object ever allocated has a slot (ids are
 * never reused), and out-of-line text lives in separately allocated buffers.
 * This module holds the heap invariant and the specification of releasing an
 * object (ll_free), with the proof that releasing keeps the invariant.
 */
module Memory {
  import opened Tags

  type Int64 = x: int | -0x8000_0000_0000_0000 <= x < 0x8000_0000_0000_0000
  /** The bits of a double: the model never interprets them. */
  type FloatBits = bv64
  /** An address owned by the embedding program (a cdata payload). */
  type Handle = nat
  /** The address of a native function (a cfunc payload). */
  type FuncHandle = nat

  /** A pointer to an object: NULL or the id of a heap slot. */
  datatype Ref = Null | Addr(id: nat)

  /** The first word of an object: an atom's tag or a list cell's car pointer. */
  datatype Word = Tag(dt: DataType) | Ptr(ref: Ref)

  /** The numeric value of the first word; allocated objects are 8-byte aligned. */
  function Bits(w: Word): nat
  {
    match w
    case Tag(dt) => Code(dt)
    case Ptr(Null) => 0
    case Ptr(Addr(i)) => 8 * (i + 1)
  }

  /** The second word of an object, read as the member its tag selects. */
  datatype Payload =
    | Unset
    | BoolBits(b: bool)
    | IntBits(i: Int64)
    | FloatWord(f: FloatBits)
    | Inline(bytes: seq<char>)
    | OutOfLine(buf: nat)
    | CDataWord(cd: Handle)
    | CFuncWord(fn: FuncHandle)
    | Child(ref: Ref)

  datatype Obj = Obj(car: Word, cdr: Payload, refCount: int)
  datatype Slot = Freed | Live(obj: Obj)
  /** A text buffer holds its bytes (NUL included) and the object owning it. */
  datatype Buf = Released | Held(bytes: seq<char>, owner: nat)
  datatype Mem = Mem(objs: seq<Slot>, bufs: seq<Buf>)

  lemma PointerWordsEven(r: Ref)
    ensures !IsOdd(Bits(Ptr(r)))
  {
    if r.Addr? {
      assert Bits(Ptr(r)) == 2 * (4 * (r.id + 1));
    }
  }

  /** ll_type_internal on an allocated object: an odd first word is the tag, an even one a pointer. */
  function TypeInternalOf(o: Obj): (dt: DataType)
    ensures dt == List <==> !IsOdd(Bits(o.car))
    ensures dt != List ==> o.car == Tag(dt)
  {
    if o.car.Ptr? then PointerWordsEven(o.car.ref); List
    else if IsOdd(Bits(o.car)) then o.car.dt
    else List
  }

  /** The car of a list cell; a tag read as a pointer only occurs as the 0 word, i.e. NULL. */
  function CarRef(o: Obj): Ref
  {
    match o.car
    case Ptr(r) => r
    case Tag(_) => Null
  }

  /** Everything about an object except its count. */
  function Shape(o: Obj): (Word, Payload)
  {
    (o.car, o.cdr)
  }

  function CdrRef(o: Obj): Ref
  {
    match o.cdr
    case Child(r) => r
    case _ => Null
  }

  predicate Alive(m: Mem, x: nat)
  {
    x < |m.objs| && m.objs[x].Live?
  }

  /** A pointer a program may dereference: NULL or an object that has not been freed. */
  predicate RefOk(m: Mem, r: Ref)
  {
    r.Null? || Alive(m, r.id)
  }

  function Count(m: Mem, x: nat): int
  {
    if Alive(m, x) then m.objs[x].obj.refCount else 0
  }

  /** References from inside the heap. */
  function Hit(r: Ref, x: nat): nat
  {
    if r == Addr(x) then 1 else 0
  }

  function Contrib(s: Slot, x: nat): nat
  {
    match s
    case Freed => 0
    case Live(o) => Hit(CarRef(o), x) + Hit(CdrRef(o), x)
  }

  /** How many car and cdr slots of live objects point at x. */
  function Edges(objs: seq<Slot>, x: nat): nat
    decreases |objs|
  {
    if objs == [] then 0 else Edges(objs[..|objs| - 1], x) + Contrib(objs[|objs| - 1], x)
  }

  /** The owners of x outside the heap: program variables and other slots. */
  function Surplus(m: Mem, x: nat): int
  {
    Count(m, x) - Edges(m.objs, x)
  }

  // ---------------------------------------------------------------------------
  // The invariant

  predicate ChildOk(m: Mem, i: nat, r: Ref)
  {
    r.Null? || (r.id < i && Alive(m, r.id))
  }

  /** The second word matches the tag; out-of-line text points at a buffer the object owns. */
  predicate PayloadOk(m: Mem, i: nat, o: Obj)
  {
    match o.car
    case Ptr(_) => o.cdr.Child?
    case Tag(dt) =>
      match dt
      case Bool => o.cdr.BoolBits?
      case Int => o.cdr.IntBits?
      case Float => o.cdr.FloatWord?
      case Symbol => o.cdr.Inline?
      case String => o.cdr.Inline?
      case LongSymbol => o.cdr.OutOfLine? && BufOwnedBy(m, o.cdr.buf, i)
      case LongString => o.cdr.OutOfLine? && BufOwnedBy(m, o.cdr.buf, i)
      case CData => o.cdr.CDataWord?
      case CFunc => o.cdr.CFuncWord?
      case List => false
      case Nil => false
  }

  predicate BufOwnedBy(m: Mem, b: nat, i: nat)
  {
    b < |m.bufs| && m.bufs[b].Held? && m.bufs[b].owner == i
  }

  predicate CellOk(m: Mem, i: nat)
    requires Alive(m, i)
  {
    var o := m.objs[i].obj;
    ChildOk(m, i, CarRef(o)) && ChildOk(m, i, CdrRef(o)) && PayloadOk(m, i, o)
    && o.refCount >= Edges(m.objs, i)
  }

  predicate BufOk(m: Mem, b: nat)
    requires b < |m.bufs| && m.bufs[b].Held?
  {
    var w := m.bufs[b].owner;
    Alive(m, w) && m.objs[w].obj.cdr == OutOfLine(b)
  }

  /**
   * The heap invariant: children of live cells are live and older than the
   * cell (so the structure is acyclic), every count covers the references from
   * inside the heap, and buffers and their owners point at each other.
   */
  ghost predicate Valid(m: Mem)
  {
    (forall i: nat :: Alive(m, i) ==> CellOk(m, i))
    && (forall b: nat :: b < |m.bufs| && m.bufs[b].Held? ==> BufOk(m, b))
  }

  /** The caller owns a reference to p, or p was never installed anywhere (count 0). */
  ghost predicate Owned(m: Mem, p: nat)
  {
    Count(m, p) == 0 || Surplus(m, p) >= 1
  }

  ghost predicate CanRelease(m: Mem, r: Ref)
  {
    r.Null? || (Alive(m, r.id) && Owned(m, r.id))
  }

  // ---------------------------------------------------------------------------
  // Elementary state changes

  function SetCount(m: Mem, p: nat, c: int): Mem
    requires Alive(m, p)
  {
    Mem(m.objs[p := Live(m.objs[p].obj.(refCount := c))], m.bufs)
  }

  /** One more owner for r (the increment inside ll_assign). */
  function Retain(m: Mem, r: Ref): Mem
    requires RefOk(m, r)
  {
    if r.Null? then m else SetCount(m, r.id, Count(m, r.id) + 1)
  }

  /** free(o), with the text buffer first when the object has one. */
  function Discard(m: Mem, p: nat): Mem
    requires Valid(m) && Alive(m, p)
  {
    var o := m.objs[p].obj;
    var dt := TypeInternalOf(o);
    Mem(m.objs[p := Freed],
        if dt == LongString || dt == LongSymbol then m.bufs[o.cdr.buf := Released] else m.bufs)
  }

  /** Nothing is allocated and no live object changes its children. */
  ghost predicate Shrunk(m: Mem, r: Mem)
  {
    |r.objs| == |m.objs| && |r.bufs| == |m.bufs|
    && forall i: nat :: Alive(r, i) ==> Alive(m, i) && Shape(r.objs[i].obj) == Shape(m.objs[i].obj)
  }

  /** A buffer is released exactly when its owner did not survive. */
  ghost predicate BufsAfter(m: Mem, r: Mem)
    requires |r.bufs| == |m.bufs|
  {
    forall b: nat :: b < |r.bufs| ==>
      r.bufs[b] == if m.bufs[b].Held? && !Alive(r, m.bufs[b].owner) then Released else m.bufs[b]
  }

  /**
   * What releasing p does: the invariant holds again; p survives iff its count
   * was above 1; every survivor keeps its outside owners except p, which loses
   * one; only objects with outside owners 0 and an owner inside the heap are
   * destroyed besides p; an object whose count the release lowers survives
   * only with a count of at least 1; the buffers of destroyed objects are
   * released; and when p survives, its count is the only change.
   */
  ghost predicate ReleasedFrom(m: Mem, r: Mem, p: nat)
    requires Alive(m, p)
  {
    Valid(r) && Shrunk(m, r) && BufsAfter(m, r) && NoLeak(m, r)
    && (Alive(r, p) <==> Count(m, p) > 1)
    && (forall x: nat :: Alive(r, x) ==> Surplus(r, x) == Surplus(m, x) - Hit(Addr(p), x))
    && (forall x: nat :: Alive(m, x) && !Alive(r, x) && x != p ==> Surplus(m, x) <= 0 && Edges(m.objs, x) >= 1)
    && (Count(m, p) > 1 ==> r == SetCount(m, p, Count(m, p) - 1))
  }

  /** No object is left alive with a count the step lowered below 1: whatever falls below 1 is freed. */
  ghost predicate NoLeak(m: Mem, r: Mem)
  {
    forall x: nat :: Alive(r, x) && Count(r, x) < Count(m, x) ==> Count(r, x) >= 1
  }

  /**
   * ll_free on a live object: decrement; below 1, free the text buffer, take
   * the object out of the heap and release both children of a list cell.
   */
  ghost function Release(m: Mem, p: nat): (r: Mem)
    requires Valid(m) && Alive(m, p) && Owned(m, p)
    ensures ReleasedFrom(m, r, p)
    decreases p
  {
    var o := m.objs[p].obj;
    if o.refCount - 1 >= 1 then
      DecrementReleases(m, p);
      SetCount(m, p, o.refCount - 1)
    else if TypeInternalOf(o) != List then
      AtomDiscardReleases(m, p);
      Discard(m, p)
    else
      var m1 := Discard(m, p);
      DiscardFacts(m, p);
      var a, b := CarRef(o), CdrRef(o);
      var m2 := if a.Addr? then Release(m1, a.id) else m1;
      SecondChildReady(m, p, m2);
      var m3 := if b.Addr? then Release(m2, b.id) else m2;
      ComposeRelease(m, p, m2, m3);
      m3
  }

  /** ll_free on any pointer: NULL is left alone. */
  ghost function ReleaseRef(m: Mem, r: Ref): Mem
    requires Valid(m) && CanRelease(m, r)
  {
    if r.Null? then m else Release(m, r.id)
  }

  // ---------------------------------------------------------------------------
  // Counting references

  lemma {:induction false} EdgesUpdate(objs: seq<Slot>, i: nat, v: Slot, x: nat)
    requires i < |objs|
    ensures Edges(objs[i := v], x) == Edges(objs, x) - Contrib(objs[i], x) + Contrib(v, x)
  {
    var n := |objs|;
    var objs' := objs[i := v];
    if i == n - 1 {
      assert objs'[..n - 1] == objs[..n - 1];
    } else {
      assert objs'[..n - 1] == objs[..n - 1][i := v];
      EdgesUpdate(objs[..n - 1], i, v, x);
    }
  }

  lemma EdgesAppend(objs: seq<Slot>, v: Slot, x: nat)
    ensures Edges(objs + [v], x) == Edges(objs, x) + Contrib(v, x)
  {
    assert (objs + [v])[..|objs|] == objs;
  }

  lemma {:induction false} EdgesBound(objs: seq<Slot>, i: nat, x: nat)
    requires i < |objs|
    ensures Edges(objs, x) >= Contrib(objs[i], x)
  {
    var n := |objs|;
    if i < n - 1 {
      EdgesBound(objs[..n - 1], i, x);
    }
  }

  lemma {:induction false} EdgesMono(a: seq<Slot>, b: seq<Slot>, x: nat)
    requires |a| == |b|
    requires forall i :: 0 <= i < |a| ==> Contrib(b[i], x) <= Contrib(a[i], x)
    ensures Edges(b, x) <= Edges(a, x)
  {
    if a != [] {
      var n := |a|;
      EdgesMono(a[..n - 1], b[..n - 1], x);
    }
  }

  lemma {:induction false} EdgesNone(objs: seq<Slot>, x: nat)
    requires forall i :: 0 <= i < |objs| ==> Contrib(objs[i], x) == 0
    ensures Edges(objs, x) == 0
  {
    if objs != [] {
      EdgesNone(objs[..|objs| - 1], x);
    }
  }

  /** A slot nobody points at: under the invariant, children are always older. */
  lemma EdgesOfNewer(m: Mem, x: nat)
    requires Valid(m) && x >= |m.objs|
    ensures Edges(m.objs, x) == 0
  {
    forall i | 0 <= i < |m.objs|
      ensures Contrib(m.objs[i], x) == 0
    {
      if Alive(m, i) {
        assert CellOk(m, i);
      }
    }
    EdgesNone(m.objs, x);
  }

  lemma ShrunkEdges(m: Mem, r: Mem)
    requires Shrunk(m, r)
    ensures forall x: nat :: Edges(r.objs, x) <= Edges(m.objs, x)
  {
    forall x: nat
      ensures Edges(r.objs, x) <= Edges(m.objs, x)
    {
      forall i | 0 <= i < |m.objs|
        ensures Contrib(r.objs[i], x) <= Contrib(m.objs[i], x)
      {
        if Alive(r, i) {
          assert Alive(m, i);
        }
      }
      EdgesMono(m.objs, r.objs, x);
    }
  }

  /** Every live object has a non-negative count. */
  lemma CountNonNegative(m: Mem, x: nat)
    requires Valid(m) && Alive(m, x)
    ensures Count(m, x) >= 0 && Surplus(m, x) >= 0
  {
    assert CellOk(m, x);
  }

  // ---------------------------------------------------------------------------
  // Release, step by step

  lemma SetCountFacts(m: Mem, p: nat, c: int)
    requires Alive(m, p)
    ensures forall x: nat :: Edges(SetCount(m, p, c).objs, x) == Edges(m.objs, x)
    ensures forall x: nat :: Alive(SetCount(m, p, c), x) == Alive(m, x)
    ensures forall x: nat :: x != p ==> Count(SetCount(m, p, c), x) == Count(m, x)
    ensures Count(SetCount(m, p, c), p) == c
  {
    forall x: nat
      ensures Edges(SetCount(m, p, c).objs, x) == Edges(m.objs, x)
    {
      EdgesUpdate(m.objs, p, Live(m.objs[p].obj.(refCount := c)), x);
    }
  }

  /** Changing a count keeps the invariant as long as the count still covers the heap's references. */
  lemma SetCountValid(m: Mem, p: nat, c: int)
    requires Valid(m) && Alive(m, p) && c >= Edges(m.objs, p)
    ensures Valid(SetCount(m, p, c))
  {
    var r := SetCount(m, p, c);
    SetCountFacts(m, p, c);
    forall i: nat | Alive(r, i)
      ensures CellOk(r, i)
    {
      assert CellOk(m, i);
    }
    forall b: nat | b < |r.bufs| && r.bufs[b].Held?
      ensures BufOk(r, b)
    {
      assert BufOk(m, b);
    }
  }

  lemma DecrementReleases(m: Mem, p: nat)
    requires Valid(m) && Alive(m, p) && Owned(m, p) && Count(m, p) > 1
    ensures ReleasedFrom(m, SetCount(m, p, Count(m, p) - 1), p)
  {
    var c := Count(m, p) - 1;
    var r := SetCount(m, p, c);
    SetCountFacts(m, p, c);
    SetCountValid(m, p, c);
    assert forall i: nat :: Alive(r, i) ==> Shape(r.objs[i].obj) == Shape(m.objs[i].obj);
  }

  /** What freeing an object whose count fell below 1 does to everything else. */
  lemma DiscardFacts(m: Mem, p: nat)
    requires Valid(m) && Alive(m, p) && Owned(m, p) && Count(m, p) <= 1
    ensures Valid(Discard(m, p)) && Shrunk(m, Discard(m, p)) && BufsAfter(m, Discard(m, p))
    ensures !Alive(Discard(m, p), p)
    ensures forall x: nat :: x != p ==> Alive(Discard(m, p), x) == Alive(m, x)
    ensures forall x: nat :: x != p ==> Count(Discard(m, p), x) == Count(m, x)
    ensures forall x: nat :: Edges(Discard(m, p).objs, x) == Edges(m.objs, x) - Contrib(m.objs[p], x)
    ensures Edges(m.objs, p) == 0
  {
    var o := m.objs[p].obj;
    var m1 := Discard(m, p);
    assert CellOk(m, p);
    forall x: nat
      ensures Edges(m1.objs, x) == Edges(m.objs, x) - Contrib(m.objs[p], x)
    {
      EdgesUpdate(m.objs, p, Freed, x);
    }
    // Nobody inside the heap points at p, so no survivor loses a child.
    forall i: nat | Alive(m1, i)
      ensures CellOk(m1, i)
    {
      assert CellOk(m, i);
      var oi := m.objs[i].obj;
      if CarRef(oi) == Addr(p) || CdrRef(oi) == Addr(p) {
        EdgesBound(m.objs, i, p);
        assert false;
      }
      if oi.cdr.OutOfLine? && (TypeInternalOf(oi) == LongString || TypeInternalOf(oi) == LongSymbol) {
        assert BufOwnedBy(m, oi.cdr.buf, i);
      }
    }
    forall b: nat | b < |m1.bufs| && m1.bufs[b].Held?
      ensures BufOk(m1, b)
    {
      assert BufOk(m, b);
    }
    forall b: nat | b < |m1.bufs|
      ensures m1.bufs[b] == if m.bufs[b].Held? && !Alive(m1, m.bufs[b].owner) then Released else m.bufs[b]
    {
      if m.bufs[b].Held? {
        assert BufOk(m, b);
      }
    }
  }

  lemma AtomDiscardReleases(m: Mem, p: nat)
    requires Valid(m) && Alive(m, p) && Owned(m, p) && Count(m, p) <= 1
    requires TypeInternalOf(m.objs[p].obj) != List
    ensures ReleasedFrom(m, Discard(m, p), p)
  {
    DiscardFacts(m, p);
    assert CellOk(m, p);
    assert Contrib(m.objs[p], p) == 0;
    forall x: nat
      ensures Contrib(m.objs[p], x) == 0
    {
    }
  }

  /** Between the two recursive calls: the cdr can still be released. */
  lemma SecondChildReady(m: Mem, p: nat, m2: Mem)
    requires Valid(m) && Alive(m, p) && Owned(m, p) && Count(m, p) <= 1
    requires TypeInternalOf(m.objs[p].obj) == List
    requires DiscardPre(m, p)
    requires var a := CarRef(m.objs[p].obj);
      (a.Null? ==> m2 == Discard(m, p)) && (a.Addr? ==> Alive(Discard(m, p), a.id) && ReleasedFrom(Discard(m, p), m2, a.id))
    ensures Valid(m2) && CanRelease(m2, CdrRef(m.objs[p].obj))
  {
    var o := m.objs[p].obj;
    var a, b := CarRef(o), CdrRef(o);
    var m1 := Discard(m, p);
    DiscardFacts(m, p);
    assert CellOk(m, p);
    if b.Addr? {
      CountNonNegative(m, b.id);
      assert Surplus(m1, b.id) >= 1 + Hit(a, b.id);
      if a == b {
        CountNonNegative(m1, b.id);
      }
    }
  }

  ghost predicate DiscardPre(m: Mem, p: nat)
  {
    Valid(m) && Alive(m, p) && Owned(m, p) && Count(m, p) <= 1
  }

  lemma ComposeRelease(m: Mem, p: nat, m2: Mem, m3: Mem)
    requires Valid(m) && Alive(m, p) && Owned(m, p) && Count(m, p) <= 1
    requires TypeInternalOf(m.objs[p].obj) == List
    requires DiscardPre(m, p)
    requires var a := CarRef(m.objs[p].obj);
      (a.Null? ==> m2 == Discard(m, p)) && (a.Addr? ==> Alive(Discard(m, p), a.id) && ReleasedFrom(Discard(m, p), m2, a.id))
    requires var b := CdrRef(m.objs[p].obj);
      (b.Null? ==> m3 == m2) && (b.Addr? ==> Alive(m2, b.id) && ReleasedFrom(m2, m3, b.id))
    ensures ReleasedFrom(m, m3, p)
  {
    DiscardFacts(m, p);
    ComposeNoLeak(m, p, m2, m3);
    ComposeSurplus(m, p, m2, m3);
    ComposeDying(m, p, m2, m3);
  }

  /** After the cascade, every survivor has lost exactly the edge the freed cell held into it. */
  lemma ComposeSurplus(m: Mem, p: nat, m2: Mem, m3: Mem)
    requires Valid(m) && Alive(m, p) && Owned(m, p) && Count(m, p) <= 1
    requires TypeInternalOf(m.objs[p].obj) == List
    requires DiscardPre(m, p)
    requires var a := CarRef(m.objs[p].obj);
      (a.Null? ==> m2 == Discard(m, p)) && (a.Addr? ==> Alive(Discard(m, p), a.id) && ReleasedFrom(Discard(m, p), m2, a.id))
    requires var b := CdrRef(m.objs[p].obj);
      (b.Null? ==> m3 == m2) && (b.Addr? ==> Alive(m2, b.id) && ReleasedFrom(m2, m3, b.id))
    ensures forall x: nat :: Alive(m3, x) ==> Surplus(m3, x) == Surplus(m, x) - Hit(Addr(p), x)
  {
    var m1 := Discard(m, p);
    DiscardFacts(m, p);
    assert CellOk(m, p);
    forall x: nat | Alive(m3, x)
      ensures Surplus(m3, x) == Surplus(m, x) - Hit(Addr(p), x)
    {
      assert Alive(m2, x) && Alive(m1, x);
    }
  }

  /** Every object the cascade destroys besides the cell itself was owned only from inside the heap. */
  lemma ComposeDying(m: Mem, p: nat, m2: Mem, m3: Mem)
    requires Valid(m) && Alive(m, p) && Owned(m, p) && Count(m, p) <= 1
    requires TypeInternalOf(m.objs[p].obj) == List
    requires DiscardPre(m, p)
    requires var a := CarRef(m.objs[p].obj);
      (a.Null? ==> m2 == Discard(m, p)) && (a.Addr? ==> Alive(Discard(m, p), a.id) && ReleasedFrom(Discard(m, p), m2, a.id))
    requires var b := CdrRef(m.objs[p].obj);
      (b.Null? ==> m3 == m2) && (b.Addr? ==> Alive(m2, b.id) && ReleasedFrom(m2, m3, b.id))
    ensures forall x: nat :: Alive(m, x) && !Alive(m3, x) && x != p ==> Surplus(m, x) <= 0 && Edges(m.objs, x) >= 1
  {
    var o := m.objs[p].obj;
    var a, b := CarRef(o), CdrRef(o);
    var m1 := Discard(m, p);
    DiscardFacts(m, p);
    assert CellOk(m, p);
    ShrunkEdges(m1, m2);
    forall x: nat | Alive(m, x) && !Alive(m3, x) && x != p
      ensures Surplus(m, x) <= 0 && Edges(m.objs, x) >= 1
    {
      assert Alive(m1, x);
      if !Alive(m2, x) {
        if a == Addr(x) {
          EdgesBound(m.objs, p, x);
        }
      } else {
        if b == Addr(x) {
          EdgesBound(m.objs, p, x);
          CountNonNegative(m2, x);
        }
      }
    }
  }

  // ---------------------------------------------------------------------------
  // Allocation, retaining, linking

  /**
   * Freeing a cell and then releasing its car and its cdr leaves nothing
   * alive at a count the cascade lowered below 1.
   */
  lemma ComposeNoLeak(m: Mem, p: nat, m2: Mem, m3: Mem)
    requires DiscardPre(m, p)
    requires var a := CarRef(m.objs[p].obj);
      (a.Null? ==> m2 == Discard(m, p)) && (a.Addr? ==> Alive(Discard(m, p), a.id) && ReleasedFrom(Discard(m, p), m2, a.id))
    requires var b := CdrRef(m.objs[p].obj);
      (b.Null? ==> m3 == m2) && (b.Addr? ==> Alive(m2, b.id) && ReleasedFrom(m2, m3, b.id))
    ensures NoLeak(m, m3)
  {
    var a, b := CarRef(m.objs[p].obj), CdrRef(m.objs[p].obj);
    var m1 := Discard(m, p);
    DiscardFacts(m, p);
    assert NoLeak(m, m1);
    assert NoLeak(m1, m2) && (forall x: nat :: Alive(m2, x) ==> Alive(m1, x));
    assert NoLeak(m2, m3) && (forall x: nat :: Alive(m3, x) ==> Alive(m2, x));
    NoLeakTrans(m1, m2, m3);
    NoLeakTrans(m, m1, m3);
  }

  /** Two steps that each free whatever they lower below 1 together do too. */
  lemma NoLeakTrans(m1: Mem, m2: Mem, m3: Mem)
    requires NoLeak(m1, m2) && NoLeak(m2, m3)
    requires forall x: nat :: Alive(m3, x) ==> Alive(m2, x)
    ensures NoLeak(m1, m3)
  {
    forall x: nat | Alive(m3, x) && Count(m3, x) < Count(m1, x)
      ensures Count(m3, x) >= 1
    {
      if Count(m3, x) >= Count(m2, x) {
        assert Count(m2, x) < Count(m1, x);
      }
    }
  }

  lemma RetainFacts(m: Mem, r: Ref)
    requires Valid(m) && RefOk(m, r)
    ensures Valid(Retain(m, r)) && Retain(m, r).bufs == m.bufs
    ensures forall x: nat :: Alive(Retain(m, r), x) == Alive(m, x)
    ensures forall x: nat :: Edges(Retain(m, r).objs, x) == Edges(m.objs, x)
    ensures forall x: nat :: Count(Retain(m, r), x) == Count(m, x) + Hit(r, x)
    ensures forall x: nat :: Alive(m, x) ==> Shape(Retain(m, r).objs[x].obj) == Shape(m.objs[x].obj)
  {
    if r.Addr? {
      SetCountFacts(m, r.id, Count(m, r.id) + 1);
      assert CellOk(m, r.id);
      SetCountValid(m, r.id, Count(m, r.id) + 1);
    }
  }

  /** Appending a fresh object (and its buffer) whose children are both NULL. */
  lemma AllocValid(m: Mem, o: Obj, nb: seq<Buf>)
    requires Valid(m) && o.refCount >= 0 && CarRef(o).Null? && CdrRef(o).Null?
    requires nb == [] || (|nb| == 1 && nb[0].Held? && nb[0].owner == |m.objs| && o.cdr == OutOfLine(|m.bufs|))
    requires PayloadOk(Mem(m.objs + [Live(o)], m.bufs + nb), |m.objs|, o)
    ensures Valid(Mem(m.objs + [Live(o)], m.bufs + nb))
    ensures forall x: nat :: x < |m.objs| ==> Edges((m.objs + [Live(o)]), x) == Edges(m.objs, x)
    ensures Edges(m.objs + [Live(o)], |m.objs|) == 0
  {
    var m' := Mem(m.objs + [Live(o)], m.bufs + nb);
    forall x: nat
      ensures Edges(m'.objs, x) == Edges(m.objs, x)
    {
      EdgesAppend(m.objs, Live(o), x);
    }
    EdgesOfNewer(m, |m.objs|);
    forall i: nat | Alive(m', i)
      ensures CellOk(m', i)
    {
      if i < |m.objs| {
        assert Alive(m, i) && CellOk(m, i);
        assert m'.objs[i] == m.objs[i];
        var oi := m.objs[i].obj;
        if oi.cdr.OutOfLine? && oi.car.Tag? && (oi.car.dt == LongString || oi.car.dt == LongSymbol) {
          assert BufOwnedBy(m, oi.cdr.buf, i);
        }
      }
    }
    forall b: nat | b < |m'.bufs| && m'.bufs[b].Held?
      ensures BufOk(m', b)
    {
      if b < |m.bufs| {
        assert m'.bufs[b] == m.bufs[b];
        assert BufOk(m, b);
      }
    }
  }

  function SetCell(m: Mem, p: nat, o: Obj): Mem
    requires p < |m.objs|
  {
    Mem(m.objs[p := Live(o)], m.bufs)
  }

  /**
   * Storing r into a NULL child slot of list cell p: the new reference from
   * inside the heap is covered by an owner r already had outside it.
   */
  lemma LinkValid(m: Mem, p: nat, o: Obj, r: Ref)
    requires Valid(m) && Alive(m, p) && m.objs[p].obj.car.Ptr?
    requires (o == m.objs[p].obj.(car := Ptr(r)) && CarRef(m.objs[p].obj).Null?)
          || (o == m.objs[p].obj.(cdr := Child(r)) && CdrRef(m.objs[p].obj).Null?)
    requires ChildOk(m, p, r) && (r.Addr? ==> Surplus(m, r.id) >= 1)
    ensures Valid(SetCell(m, p, o))
    ensures forall x: nat :: Edges(SetCell(m, p, o).objs, x) == Edges(m.objs, x) + Hit(r, x)
    ensures forall x: nat :: Alive(SetCell(m, p, o), x) == Alive(m, x) && Count(SetCell(m, p, o), x) == Count(m, x)
  {
    var m' := SetCell(m, p, o);
    forall x: nat
      ensures Edges(m'.objs, x) == Edges(m.objs, x) + Hit(r, x)
    {
      EdgesUpdate(m.objs, p, Live(o), x);
    }
    forall i: nat | Alive(m', i)
      ensures CellOk(m', i)
    {
      assert CellOk(m, i);
      var oi := m.objs[i].obj;
      if oi.cdr.OutOfLine? && oi.car.Tag? && (oi.car.dt == LongString || oi.car.dt == LongSymbol) {
        assert BufOwnedBy(m, oi.cdr.buf, i);
      }
    }
    forall b: nat | b < |m'.bufs| && m'.bufs[b].Held?
      ensures BufOk(m', b)
    {
      assert BufOk(m, b);
    }
  }

  /**
   * An object nothing in the heap points at cannot be destroyed by releasing
   * another object, and keeps its count.
   */
  lemma UnreferencedSurvives(m: Mem, l: Ref, x: nat)
    requires Valid(m) && CanRelease(m, l) && Alive(m, x) && Edges(m.objs, x) == 0 && l != Addr(x)
    ensures Alive(ReleaseRef(m, l), x) && Count(ReleaseRef(m, l), x) == Count(m, x)
  {
    if l.Addr? {
      var r := Release(m, l.id);
      ShrunkEdges(m, r);
      CountNonNegative(r, x);
    }
  }

  // ---------------------------------------------------------------------------
  // The reference-count protocol

  /** A freshly made object has no owner at all: nothing in the heap points at it. */
  lemma FreshUnowned(m: Mem, m': Mem, o: Ref)
    requires Valid(m) && Valid(m') && Allocated(m, m', o)
    ensures Edges(m'.objs, o.id) == 0 && Surplus(m', o.id) == 0
  {
    assert m'.objs == m.objs + [m'.objs[o.id]];
    EdgesAppend(m.objs, m'.objs[o.id], o.id);
    EdgesOfNewer(m, o.id);
    assert CellOk(m', o.id);
  }

  /**
   * ll_assign(l, fresh) for a fresh object x (count 0): x survives releasing
   * l and ends at count 1, owned once, by the slot assigned to.
   */
  lemma AssignFresh(m: Mem, l: Ref, x: nat)
    requires Valid(m) && CanRelease(m, l) && Alive(m, x) && Count(m, x) == 0 && l != Addr(x)
    ensures Valid(ReleaseRef(m, l)) && RefOk(ReleaseRef(m, l), Addr(x))
    ensures Count(Retain(ReleaseRef(m, l), Addr(x)), x) == 1
    ensures Surplus(Retain(ReleaseRef(m, l), Addr(x)), x) == 1
  {
    assert CellOk(m, x);
    UnreferencedSurvives(m, l, x);
    var r := ReleaseRef(m, l);
    if l.Addr? {
      ShrunkEdges(m, r);
    }
    RetainFacts(r, Addr(x));
  }

  /** ll_assign(o, o) while another owner also holds o changes nothing. */
  lemma SelfAssignShared(m: Mem, p: nat)
    requires Valid(m) && Alive(m, p) && Surplus(m, p) >= 1 && Count(m, p) > 1
    ensures RefOk(ReleaseRef(m, Addr(p)), Addr(p)) && Retain(ReleaseRef(m, Addr(p)), Addr(p)) == m
  {
    var c := Count(m, p);
    SetCountTwice(m, p, c - 1, c);
    SetCountSame(m, p);
  }

  /**
   * ll_assign(o, o) as the last owner frees o before retaining it: the
   * reference it would retain and return no longer names a live object.
   */
  lemma SelfAssignLast(m: Mem, p: nat)
    requires Valid(m) && Alive(m, p) && Surplus(m, p) >= 1 && Count(m, p) == 1
    ensures !RefOk(ReleaseRef(m, Addr(p)), Addr(p))
  {
  }

  /** Releasing an atom touches only that atom: one count less, and gone when none is left. */
  lemma ReleaseAtom(m: Mem, a: nat)
    requires Valid(m) && Alive(m, a) && Owned(m, a) && Count(m, a) >= 1
    requires TypeInternalOf(m.objs[a].obj) != List
    ensures forall x: nat :: Count(Release(m, a), x) == Count(m, x) - Hit(Addr(a), x)
    ensures forall x: nat :: Alive(Release(m, a), x) <==> Alive(m, x) && (x != a || Count(m, a) > 1)
  {
    if Count(m, a) > 1 {
      SetCountFacts(m, a, Count(m, a) - 1);
    } else {
      DiscardFacts(m, a);
    }
  }

  /** NULL, or a live object that is not a list cell. */
  predicate AtomOrNull(m: Mem, r: Ref)
  {
    r.Null? || (Alive(m, r.id) && TypeInternalOf(m.objs[r.id].obj) != List)
  }

  /**
   * Freeing a list cell whose children are atoms releases each child once:
   * every other object loses exactly the references the cell held to it, and
   * a child is destroyed exactly when that leaves it no count.
   */
  lemma ReleaseCellOfAtoms(m: Mem, p: nat)
    requires Valid(m) && Alive(m, p) && Owned(m, p) && Count(m, p) <= 1
    requires TypeInternalOf(m.objs[p].obj) == List
    requires AtomOrNull(m, CarRef(m.objs[p].obj)) && AtomOrNull(m, CdrRef(m.objs[p].obj))
    ensures !Alive(Release(m, p), p)
    ensures forall x: nat :: x != p ==> Count(Release(m, p), x) == Count(m, x) - Contrib(m.objs[p], x)
    ensures forall x: nat :: x != p ==>
      (Alive(Release(m, p), x) <==> Alive(m, x) && (Contrib(m.objs[p], x) == 0 || Count(Release(m, p), x) >= 1))
  {
    var o := m.objs[p].obj;
    var a, b := CarRef(o), CdrRef(o);
    var m1 := Discard(m, p);
    DiscardFacts(m, p);
    assert CellOk(m, p);
    var m2 := if a.Addr? then Release(m1, a.id) else m1;
    if a.Addr? {
      EdgesBound(m.objs, p, a.id);
      ReleaseAtom(m1, a.id);
    }
    SecondChildReady(m, p, m2);
    var m3 := if b.Addr? then Release(m2, b.id) else m2;
    if b.Addr? {
      EdgesBound(m.objs, p, b.id);
      assert Shape(m2.objs[b.id].obj) == Shape(m.objs[b.id].obj);
      ReleaseAtom(m2, b.id);
    }
    assert Release(m, p) == m3;
  }

  // ---------------------------------------------------------------------------
  // Lists

  /** The elements of the list starting at r, following cdr pointers to NULL. */
  ghost function Elements(m: Mem, r: Ref): seq<Ref>
    requires Valid(m) && RefOk(m, r)
    decreases if r.Addr? then r.id + 1 else 0
  {
    if r.Null? then []
    else
      var o := m.objs[r.id].obj;
      if TypeInternalOf(o) != List then []
      else
        assert CellOk(m, r.id);
        [CarRef(o)] + Elements(m, CdrRef(o))
  }

  /** The cells of that list. */
  ghost function Spine(m: Mem, r: Ref): seq<nat>
    requires Valid(m) && RefOk(m, r)
    decreases if r.Addr? then r.id + 1 else 0
  {
    if r.Null? then []
    else
      var o := m.objs[r.id].obj;
      if TypeInternalOf(o) != List then []
      else
        assert CellOk(m, r.id);
        [r.id] + Spine(m, CdrRef(o))
  }

  /** Lists only depend on the children of live cells, not on counts or new cells. */
  lemma {:induction false} ListFrame(m: Mem, m': Mem, r: Ref)
    requires Valid(m) && Valid(m') && RefOk(m, r)
    requires forall i: nat :: Alive(m, i) ==> Alive(m', i) && Shape(m'.objs[i].obj) == Shape(m.objs[i].obj)
    ensures RefOk(m', r) && Elements(m', r) == Elements(m, r) && Spine(m', r) == Spine(m, r)
    decreases if r.Addr? then r.id + 1 else 0
  {
    if r.Addr? {
      var o := m.objs[r.id].obj;
      assert CellOk(m, r.id);
      if TypeInternalOf(o) == List {
        ListFrame(m, m', CdrRef(o));
      }
    }
  }

  /** m' is m plus one fresh object o with count 0 (and, for long text, its buffer); nothing else changed. */
  ghost predicate Allocated(m: Mem, m': Mem, o: Ref)
  {
    o == Addr(|m.objs|) && |m'.objs| == |m.objs| + 1 && m'.objs[..|m.objs|] == m.objs
    && Alive(m', o.id) && Count(m', o.id) == 0
    && |m.bufs| <= |m'.bufs| <= |m.bufs| + 1 && m'.bufs[..|m.bufs|] == m.bufs
  }

  lemma SetCountSame(m: Mem, p: nat)
    requires Alive(m, p)
    ensures SetCount(m, p, Count(m, p)) == m
  {
    assert SetCount(m, p, Count(m, p)).objs == m.objs;
  }

  lemma SetCountTwice(m: Mem, p: nat, c: int, d: int)
    requires Alive(m, p)
    ensures SetCount(SetCount(m, p, c), p, d) == SetCount(m, p, d)
  {
    assert SetCount(SetCount(m, p, c), p, d).objs == SetCount(m, p, d).objs;
  }

  /** Retaining an older object commutes with appending a new slot. */
  lemma RetainBeforeAppend(m: Mem, r: Ref, s: Slot, nb: seq<Buf>)
    requires RefOk(m, r)
    ensures RefOk(Mem(m.objs + [s], m.bufs + nb), r)
    ensures Retain(Mem(m.objs + [s], m.bufs + nb), r) == Mem(Retain(m, r).objs + [s], m.bufs + nb)
  {
    if r.Addr? {
      var o := m.objs[r.id].obj.(refCount := Count(m, r.id) + 1);
      assert (m.objs + [s])[r.id := Live(o)] == m.objs[r.id := Live(o)] + [s];
    }
  }

  /** Overwriting the slot just appended. */
  lemma UpdateLast(s: seq<Slot>, a: Slot, b: Slot)
    ensures (s + [a])[|s| := b] == s + [b]
  {
    assert forall k :: 0 <= k < |s| + 1 ==> (s + [a])[|s| := b][k] == (s + [b])[k];
  }

  /** Appending a slot changes nothing about the older ones. */
  lemma AppendFacts(m: Mem, s: Slot, nb: seq<Buf>)
    ensures forall x: nat :: x < |m.objs| ==> Alive(Mem(m.objs + [s], nb), x) == Alive(m, x)
    ensures forall x: nat :: x < |m.objs| ==> Count(Mem(m.objs + [s], nb), x) == Count(m, x)
  {
  }

  /** Two retains in a row: each of a and b gains one owner. */
  lemma RetainTwice(m: Mem, a: Ref, b: Ref)
    requires Valid(m) && RefOk(m, a) && RefOk(m, b)
    ensures RefOk(Retain(m, a), b) && Valid(Retain(Retain(m, a), b))
    ensures |Retain(Retain(m, a), b).objs| == |m.objs|
    ensures forall x: nat :: Alive(Retain(Retain(m, a), b), x) == Alive(m, x)
    ensures forall x: nat :: Count(Retain(Retain(m, a), b), x) == Count(m, x) + Hit(a, x) + Hit(b, x)
    ensures forall x: nat :: Edges(Retain(Retain(m, a), b).objs, x) == Edges(m.objs, x)
    ensures forall x: nat :: Alive(m, x) ==> Shape(Retain(Retain(m, a), b).objs[x].obj) == Shape(m.objs[x].obj)
  {
    RetainFacts(m, a);
    RetainFacts(Retain(m, a), b);
  }

  /**
   * One half of ll_cons: retain r, then store it into the NULL car or cdr slot
   * of the newest object, a list cell; the invariant survives both steps.
   */
  lemma RetainAndLink(base: Mem, c: Obj, c': Obj, r: Ref)
    requires Valid(Mem(base.objs + [Live(c)], base.bufs)) && RefOk(base, r) && c.car.Ptr?
    requires (c' == c.(car := Ptr(r)) && CarRef(c).Null?) || (c' == c.(cdr := Child(r)) && CdrRef(c).Null?)
    ensures RefOk(Mem(base.objs + [Live(c)], base.bufs), r)
    ensures Retain(Mem(base.objs + [Live(c)], base.bufs), r) == Mem(Retain(base, r).objs + [Live(c)], base.bufs)
    ensures (Retain(base, r).objs + [Live(c)])[|base.objs| := Live(c')] == Retain(base, r).objs + [Live(c')]
    ensures Valid(Mem(Retain(base, r).objs + [Live(c')], base.bufs))
  {
    var n := |base.objs|;
    var mc := Mem(base.objs + [Live(c)], base.bufs);
    assert base.bufs + [] == base.bufs;
    RetainBeforeAppend(base, r, Live(c), []);
    RetainFacts(mc, r);
    if r.Addr? {
      CountNonNegative(mc, r.id);
    }
    var mr := Retain(mc, r);
    assert Alive(mr, n) && mr.objs[n].obj == c;
    LinkValid(mr, n, c', r);
    UpdateLast(Retain(base, r).objs, Live(c), Live(c'));
    assert SetCell(mr, n, c') == Mem(Retain(base, r).objs + [Live(c')], base.bufs);
  }

  /** The heap after ll_cons(a, b): both children retained, the new cell (count 0) appended. */
  function ConsState(m: Mem, a: Ref, b: Ref): Mem
    requires RefOk(m, a) && RefOk(m, b)
  {
    Mem(Retain(Retain(m, a), b).objs + [Live(Obj(Ptr(a), Child(b), 0))], m.bufs)
  }

  /** The heap after ll_cons is valid, and the new cell is the only new object. */
  lemma ConsValid(m: Mem, a: Ref, b: Ref)
    requires Valid(m) && RefOk(m, a) && RefOk(m, b)
    ensures Valid(ConsState(m, a, b))
    ensures forall x: nat :: Alive(ConsState(m, a, b), x) == (Alive(m, x) || x == |m.objs|)
  {
    var c0 := Obj(Ptr(Null), Child(Null), 0);
    var c1 := c0.(car := Ptr(a));
    AllocValid(m, c0, []);
    assert m.bufs + [] == m.bufs;
    RetainAndLink(m, c0, c1, a);
    RetainFacts(m, a);
    RetainAndLink(Retain(m, a), c1, c1.(cdr := Child(b)), b);
    RetainTwice(m, a, b);
  }

  /**
   * What ll_cons does to counts: each older object gains one owner per child
   * slot pointing at it, all of them inside the heap, so no older object's
   * outside owners change; the new cell has count 0 and nobody points at it.
   */
  lemma ConsCounts(m: Mem, a: Ref, b: Ref)
    requires Valid(m) && RefOk(m, a) && RefOk(m, b)
    ensures forall x: nat :: x < |m.objs| ==> Count(ConsState(m, a, b), x) == Count(m, x) + Hit(a, x) + Hit(b, x)
    ensures forall x: nat :: x < |m.objs| ==> Surplus(ConsState(m, a, b), x) == Surplus(m, x)
    ensures Count(ConsState(m, a, b), |m.objs|) == 0 && Edges(ConsState(m, a, b).objs, |m.objs|) == 0
  {
    var n := |m.objs|;
    var c2 := Obj(Ptr(a), Child(b), 0);
    RetainTwice(m, a, b);
    var rr := Retain(Retain(m, a), b);
    var r := ConsState(m, a, b);
    AppendFacts(rr, Live(c2), m.bufs);
    EdgesOfNewer(rr, n);
    EdgesAppend(rr.objs, Live(c2), n);
    forall x: nat | x < n
      ensures Edges(r.objs, x) == Edges(m.objs, x) + Hit(a, x) + Hit(b, x)
    {
      EdgesAppend(rr.objs, Live(c2), x);
    }
  }

  /** The list ll_cons builds: a in front of the list at b, on a new cell in front of b's cells. */
  lemma ConsList(m: Mem, a: Ref, b: Ref)
    requires Valid(m) && RefOk(m, a) && RefOk(m, b)
    ensures Valid(ConsState(m, a, b)) && RefOk(ConsState(m, a, b), Addr(|m.objs|))
    ensures Elements(ConsState(m, a, b), Addr(|m.objs|)) == [a] + Elements(m, b)
    ensures Spine(ConsState(m, a, b), Addr(|m.objs|)) == [|m.objs|] + Spine(m, b)
  {
    ConsValid(m, a, b);
    RetainTwice(m, a, b);
    var r := ConsState(m, a, b);
    assert forall x: nat :: Alive(m, x) ==> r.objs[x] == Retain(Retain(m, a), b).objs[x];
    ListFrame(m, r, b);
    assert CdrRef(r.objs[|m.objs|].obj) == b;
  }

  /** How many times the list of pointers s names object x. */
  function Occurrences(s: seq<Ref>, x: nat): nat
  {
    multiset(s)[Addr(x)]
  }

  // ---------------------------------------------------------------------------
  // ll_list, one cons at a time

  /**
   * After consing items[i..] from the back onto NULL, starting from heap m0:
   * the heap is valid, o is the newest cell (or NULL when nothing was consed)
   * and its list holds items[i..] on the fresh cells, newest first.
   */
  ghost predicate ListShape(m0: Mem, m: Mem, items: seq<Ref>, i: nat, o: Ref)
  {
    i <= |items| && Valid(m) && m.bufs == m0.bufs && |m.objs| == |m0.objs| + (|items| - i)
    && (forall k :: 0 <= k < |items| ==> RefOk(m0, items[k]))
    && (forall x: nat :: x < |m0.objs| ==> Alive(m, x) == Alive(m0, x))
    && RefOk(m, o) && Elements(m, o) == items[i..]
    && (o.Null? <==> i == |items|)
    && (o.Addr? ==> o.id == |m.objs| - 1 && TypeInternalOf(m.objs[o.id].obj) == List)
    && |Spine(m, o)| == |items| - i
    && (forall k :: 0 <= k < |items| - i ==> Spine(m, o)[k] == |m.objs| - 1 - k)
  }

  /** At the same point: older objects keep their children, and the list ends in NULL. */
  ghost predicate ListEnds(m0: Mem, m: Mem, items: seq<Ref>, i: nat, o: Ref)
    requires ListShape(m0, m, items, i, o)
  {
    (forall x: nat :: x < |m0.objs| && Alive(m0, x) ==> Shape(m.objs[x].obj) == Shape(m0.objs[x].obj))
    && (o.Addr? ==> var c := Spine(m, o)[|items| - i - 1]; Alive(m, c) && m.objs[c].obj.cdr == Child(Null))
  }

  /**
   * The counts at the same point: the head has count 0, inner cells count 1,
   * and every older object has gained one owner per occurrence in items[i..],
   * none of them outside the heap.
   */
  ghost predicate ListCounts(m0: Mem, m: Mem, items: seq<Ref>, i: nat, o: Ref)
    requires ListShape(m0, m, items, i, o)
  {
    (o.Addr? ==> Count(m, o.id) == 0)
    && InnerCellsOwnedOnce(m, o)
    && (forall x: nat :: x < |m0.objs| ==> Count(m, x) == Count(m0, x) + Occurrences(items[i..], x))
    && (forall x: nat :: x < |m0.objs| ==> Surplus(m, x) == Surplus(m0, x))
  }

  /** Every cell of the list at o except the first has count 1. */
  ghost predicate InnerCellsOwnedOnce(m: Mem, o: Ref)
    requires Valid(m) && RefOk(m, o)
  {
    forall k :: 1 <= k < |Spine(m, o)| ==> Count(m, Spine(m, o)[k]) == 1
  }

  lemma ListStart(m0: Mem, items: seq<Ref>)
    requires Valid(m0) && forall k :: 0 <= k < |items| ==> RefOk(m0, items[k])
    ensures ListShape(m0, m0, items, |items|, Null) && ListCounts(m0, m0, items, |items|, Null)
    ensures ListEnds(m0, m0, items, |items|, Null)
  {
    assert items[|items|..] == [];
  }

  lemma ListShapeStep(m0: Mem, m: Mem, items: seq<Ref>, i: nat, o: Ref)
    requires 0 < i && ListShape(m0, m, items, i, o)
    ensures RefOk(m, items[i - 1])
    ensures ListShape(m0, ConsState(m, items[i - 1], o), items, i - 1, Addr(|m.objs|))
  {
    ListHeapStep(m0, m, items, i, o);
    ListChainStep(m0, m, items, i, o);
  }

  /** One more ll_cons keeps older objects' children, and the list still ends in NULL. */
  lemma ListEndStep(m0: Mem, m: Mem, items: seq<Ref>, i: nat, o: Ref)
    requires 0 < i && ListShape(m0, m, items, i, o) && ListEnds(m0, m, items, i, o)
    requires RefOk(m, items[i - 1]) && ListShape(m0, ConsState(m, items[i - 1], o), items, i - 1, Addr(|m.objs|))
    ensures ListEnds(m0, ConsState(m, items[i - 1], o), items, i - 1, Addr(|m.objs|))
  {
    var a := items[i - 1];
    assert RefOk(m0, a);
    var n := |m.objs|;
    var r := ConsState(m, a, o);
    RetainTwice(m, a, o);
    ConsList(m, a, o);
    assert forall x: nat :: x < n ==> r.objs[x] == Retain(Retain(m, a), o).objs[x];
    if o.Addr? {
      var c := Spine(m, o)[|items| - i - 1];
      SpineAlive(m, o);
      assert Spine(r, Addr(n))[|items| - i] == c && Alive(m, c);
    } else {
      assert Spine(r, Addr(n))[|items| - i] == n;
    }
  }

  /** The cells of a list are live objects. */
  lemma {:induction false} SpineAlive(m: Mem, r: Ref)
    requires Valid(m) && RefOk(m, r)
    ensures forall k :: 0 <= k < |Spine(m, r)| ==> Alive(m, Spine(m, r)[k])
    decreases if r.Addr? then r.id + 1 else 0
  {
    if r.Addr? {
      var o := m.objs[r.id].obj;
      assert CellOk(m, r.id);
      if TypeInternalOf(o) == List {
        SpineAlive(m, CdrRef(o));
      }
    }
  }

  /** The heap half of ListShapeStep: validity, sizes and which older objects are alive. */
  lemma ListHeapStep(m0: Mem, m: Mem, items: seq<Ref>, i: nat, o: Ref)
    requires 0 < i && ListShape(m0, m, items, i, o)
    ensures RefOk(m, items[i - 1]) && Valid(ConsState(m, items[i - 1], o))
    ensures ConsState(m, items[i - 1], o).bufs == m0.bufs
    ensures |ConsState(m, items[i - 1], o).objs| == |m0.objs| + (|items| - (i - 1))
    ensures forall x: nat :: x < |m0.objs| ==> Alive(ConsState(m, items[i - 1], o), x) == Alive(m0, x)
  {
    assert RefOk(m0, items[i - 1]);
    ConsValid(m, items[i - 1], o);
  }

  /** The chain half of ListShapeStep: the new cell heads items[i-1..] and the spine still counts down. */
  lemma ListChainStep(m0: Mem, m: Mem, items: seq<Ref>, i: nat, o: Ref)
    requires 0 < i && ListShape(m0, m, items, i, o)
    ensures RefOk(m, items[i - 1]) && Valid(ConsState(m, items[i - 1], o))
    ensures RefOk(ConsState(m, items[i - 1], o), Addr(|m.objs|))
    ensures Elements(ConsState(m, items[i - 1], o), Addr(|m.objs|)) == items[i - 1..]
    ensures TypeInternalOf(ConsState(m, items[i - 1], o).objs[|m.objs|].obj) == List
    ensures |Spine(ConsState(m, items[i - 1], o), Addr(|m.objs|))| == |items| - (i - 1)
    ensures var sp := Spine(ConsState(m, items[i - 1], o), Addr(|m.objs|));
      forall k :: 0 <= k < |items| - (i - 1) ==> sp[k] == |m.objs| - k
  {
    var a := items[i - 1];
    assert RefOk(m0, a);
    ConsList(m, a, o);
    assert items[i - 1..] == [a] + items[i..];
    CountDown(Spine(m, o), |m.objs|);
  }

  /** Putting n in front of the ids n-1, n-2, ... continues the countdown. */
  lemma CountDown(s: seq<nat>, n: nat)
    requires forall k :: 0 <= k < |s| ==> s[k] == n - 1 - k
    ensures forall k :: 0 <= k < |s| + 1 ==> ([n] + s)[k] == n - k
  {
  }

  lemma OccurrencesCons(a: Ref, s: seq<Ref>, x: nat)
    ensures Occurrences([a] + s, x) == Hit(a, x) + Occurrences(s, x)
  {
    assert multiset([a] + s) == multiset([a]) + multiset(s);
  }

  lemma ListCountsStep(m0: Mem, m: Mem, items: seq<Ref>, i: nat, o: Ref)
    requires 0 < i && ListShape(m0, m, items, i, o) && ListCounts(m0, m, items, i, o)
    requires RefOk(m, items[i - 1]) && ListShape(m0, ConsState(m, items[i - 1], o), items, i - 1, Addr(|m.objs|))
    ensures ListCounts(m0, ConsState(m, items[i - 1], o), items, i - 1, Addr(|m.objs|))
  {
    ListCellCounts(m0, m, items, i, o);
    ListOlderCounts(m0, m, items, i, o);
    ConsCounts(m, items[i - 1], o);
  }

  /** The new head has count 0; the old head, now second, has count 1. */
  lemma ListCellCounts(m0: Mem, m: Mem, items: seq<Ref>, i: nat, o: Ref)
    requires 0 < i && ListShape(m0, m, items, i, o) && ListCounts(m0, m, items, i, o)
    requires RefOk(m, items[i - 1]) && ListShape(m0, ConsState(m, items[i - 1], o), items, i - 1, Addr(|m.objs|))
    ensures InnerCellsOwnedOnce(ConsState(m, items[i - 1], o), Addr(|m.objs|))
  {
    var a := items[i - 1];
    var n0, n := |m0.objs|, |m.objs|;
    var r := ConsState(m, a, o);
    assert RefOk(m0, a);
    ConsCounts(m, a, o);
    ConsList(m, a, o);
    var sp, sp' := Spine(m, o), Spine(r, Addr(n));
    forall k | 1 <= k < |sp'|
      ensures Count(r, sp'[k]) == 1
    {
      var c := sp[k - 1];
      assert sp'[k] == c && n0 <= c < n && Hit(a, c) == 0;
      if k == 1 {
        assert c == o.id;
      }
    }
  }

  /** Older objects gain one owner per occurrence, inside the heap. */
  lemma ListOlderCounts(m0: Mem, m: Mem, items: seq<Ref>, i: nat, o: Ref)
    requires 0 < i && ListShape(m0, m, items, i, o) && ListCounts(m0, m, items, i, o)
    requires RefOk(m, items[i - 1])
    ensures forall x: nat :: x < |m0.objs| ==>
      Count(ConsState(m, items[i - 1], o), x) == Count(m0, x) + Occurrences(items[i - 1..], x)
  {
    var a := items[i - 1];
    var r := ConsState(m, a, o);
    ConsCounts(m, a, o);
    assert items[i - 1..] == [a] + items[i..];
    forall x: nat | x < |m0.objs|
      ensures Count(r, x) == Count(m0, x) + Occurrences(items[i - 1..], x)
    {
      OccurrencesCons(a, items[i..], x);
      assert Hit(o, x) == 0;
    }
  }

  // ---------------------------------------------------------------------------
  // ll_next

  /** A list cell p the caller owns, as ll_next expects to find in its slot. */
  ghost predicate NextReady(m: Mem, p: nat)
  {
    Valid(m) && Alive(m, p) && m.objs[p].obj.car.Ptr? && Surplus(m, p) >= 1
  }

  /** The heap after ll_next on cell p: the slot takes an owner of p's cdr, then lets go of p. */
  ghost function NextState(m: Mem, p: nat): Mem
    requires NextReady(m, p)
  {
    var next := CdrRef(m.objs[p].obj);
    assert CellOk(m, p);
    RetainFacts(m, next);
    Release(Retain(m, next), p)
  }

  /** ll_next hands back a usable car only if some owner other than p keeps it alive. */
  ghost predicate NextKeepsCar(m: Mem, p: nat)
    requires NextReady(m, p)
  {
    RefOk(NextState(m, p), CarRef(m.objs[p].obj))
  }

  /**
   * What ll_next changes in ownership: the slot now owns the cdr instead of the
   * cell and no other object gains or loses an owner outside the heap; the cdr
   * always survives, and the cell survives exactly when it had another owner.
   */
  lemma NextOwnership(m: Mem, p: nat)
    requires NextReady(m, p)
    ensures RefOk(NextState(m, p), CdrRef(m.objs[p].obj))
    ensures Alive(NextState(m, p), p) <==> Count(m, p) > 1
    ensures forall x: nat :: Alive(NextState(m, p), x) ==>
      Surplus(NextState(m, p), x) == Surplus(m, x) + Hit(CdrRef(m.objs[p].obj), x) - Hit(Addr(p), x)
  {
    var next := CdrRef(m.objs[p].obj);
    assert CellOk(m, p);
    RetainFacts(m, next);
    var m2 := Retain(m, next);
    var r := Release(m2, p);
    if next.Addr? {
      CountNonNegative(m, next.id);
      assert Surplus(m2, next.id) >= 1;
    }
  }

  /** When the cell has another owner, only its count and the cdr's count change, by one each. */
  lemma NextSharedCell(m: Mem, p: nat)
    requires NextReady(m, p) && Count(m, p) > 1
    ensures forall x: nat :: Alive(NextState(m, p), x) == Alive(m, x)
    ensures Count(NextState(m, p), p) == Count(m, p) - 1
    ensures forall x: nat :: x != p ==> Count(NextState(m, p), x) == Count(m, x) + Hit(CdrRef(m.objs[p].obj), x)
  {
    var next := CdrRef(m.objs[p].obj);
    assert CellOk(m, p);
    RetainFacts(m, next);
    var m2 := Retain(m, next);
    assert Count(m2, p) == Count(m, p);
    SetCountFacts(m2, p, Count(m, p) - 1);
  }

  /** The first two assignments inside ll_next: retaining the cell in a local and releasing it from the slot cancel out. */
  lemma NextHold(m: Mem, p: nat)
    requires NextReady(m, p)
    ensures Valid(Retain(m, Addr(p))) && CanRelease(Retain(m, Addr(p)), Addr(p))
    ensures ReleaseRef(Retain(m, Addr(p)), Addr(p)) == m
  {
    RetainFacts(m, Addr(p));
    var c := Count(m, p);
    SetCountTwice(m, p, c + 1, c);
    SetCountSame(m, p);
  }

  /** The slot's owner of the cdr is added; letting go of the local is the release NextState describes. */
  lemma NextLetGo(m: Mem, p: nat)
    requires NextReady(m, p)
    ensures RefOk(m, CdrRef(m.objs[p].obj)) && Valid(Retain(m, CdrRef(m.objs[p].obj)))
    ensures CanRelease(Retain(m, CdrRef(m.objs[p].obj)), Addr(p))
    ensures ReleaseRef(Retain(m, CdrRef(m.objs[p].obj)), Addr(p)) == NextState(m, p)
  {
    assert CellOk(m, p);
    RetainFacts(m, CdrRef(m.objs[p].obj));
  }
}
