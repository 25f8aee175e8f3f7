/**
 * The runtime's object heap as a mutable class: allocation, the typed
 * constructors and accessors, reference counting through assignment, and
 * list cells. Every public operation keeps the heap invariant and is
 * specified against the pure state of module Memory; Malloc and SetText are
 * steps inside the constructors, which restore the invariant after them.
 */
module Objects {
  import opened Tags
  import opened Memory
  import opened CText

  /** The two words ll_malloc writes: the tag (NULL for a list cell) and an empty payload. */
  function Blank(dt: DataType): Obj
  {
    if dt == List then Obj(Ptr(Null), Child(Null), 0) else Obj(Tag(dt), Unset, 0)
  }

  class Heap {
    /** The object slots, indexed by object id. */
    var objs: seq<Slot>
    /** The out-of-line text buffers. */
    var bufs: seq<Buf>

    ghost function State(): Mem
      reads this
    {
      Mem(objs, bufs)
    }

    ghost predicate Valid()
      reads this
    {
      Memory.Valid(State())
    }

    constructor ()
      ensures Valid() && objs == [] && bufs == []
    {
      objs := [];
      bufs := [];
    }

    // -------------------------------------------------------------------------
    // Allocation and types

    /** ll_malloc: a new object with count 0 whose first word holds dt. */
    method Malloc(dt: DataType) returns (o: Ref)
      modifies this
      ensures o == Addr(|old(objs)|) && bufs == old(bufs)
      ensures objs == old(objs) + [Live(Blank(dt))]
    {
      o := Addr(|objs|);
      objs := objs + [Live(Blank(dt))];
    }

    /** ll_type_internal: NULL is Nil, an odd first word is the tag, an even one makes a list cell. */
    function TypeInternal(o: Ref): (dt: DataType)
      reads this
      requires RefOk(State(), o)
      ensures o.Null? ==> dt == Nil
      ensures o.Addr? ==> (dt == List <==> !IsOdd(Bits(objs[o.id].obj.car)))
      ensures o.Addr? && dt != List ==> objs[o.id].obj.car == Tag(dt)
    {
      if o.Null? then Nil else TypeInternalOf(objs[o.id].obj)
    }

    /** ll_type: as ll_type_internal, with the out-of-line text variants reported as Symbol and String. */
    function TypeOf(o: Ref): (dt: DataType)
      reads this
      requires Valid() && RefOk(State(), o)
      ensures dt == Nil <==> o.Null?
      ensures dt != LongSymbol && dt != LongString
      ensures dt == List <==> TypeInternal(o) == List
    {
      if o.Null? then Nil
      else
        assert CellOk(State(), o.id);
        Normalize(TypeInternal(o))
    }

    // -------------------------------------------------------------------------
    // Releasing and assigning

    /**
     * ll_free: NULL is ignored; otherwise the count goes down by one and, below
     * 1, the text buffer is freed, the object is destroyed and both children of
     * a list cell are released in turn.
     */
    method Free(o: Ref)
      requires Valid() && CanRelease(State(), o)
      modifies this
      ensures Valid() && State() == ReleaseRef(old(State()), o)
      decreases if o.Addr? then o.id + 1 else 0
    {
      if o.Null? {
        return;
      }
      ghost var m := State();
      var p := o.id;
      assert CellOk(m, p);
      var cell := objs[p].obj;
      objs := objs[p := Live(cell.(refCount := cell.refCount - 1))];
      assert State() == SetCount(m, p, cell.refCount - 1);
      if cell.refCount - 1 < 1 {
        var dt := TypeInternalOf(cell);
        if dt == LongString || dt == LongSymbol {
          bufs := bufs[cell.cdr.buf := Released];
        }
        objs := objs[p := Freed];
        DiscardFacts(m, p);
        assert State() == Discard(m, p);
        if dt == List {
          Free(CarRef(cell));
          ghost var m2 := State();
          assert m2 == ReleaseRef(Discard(m, p), CarRef(cell));
          SecondChildReady(m, p, m2);
          Free(CdrRef(cell));
          assert State() == ReleaseRef(m2, CdrRef(cell));
          ComposeRelease(m, p, m2, State());
        } else {
          AtomDiscardReleases(m, p);
        }
      } else {
        DecrementReleases(m, p);
      }
    }

    /** ll_assign: release the slot's old value l, then retain the new value r and return it. */
    method Assign(l: Ref, r: Ref) returns (res: Ref)
      requires Valid() && CanRelease(State(), l) && RefOk(ReleaseRef(State(), l), r)
      modifies this
      ensures res == r
      ensures Valid() && State() == Retain(ReleaseRef(old(State()), l), r)
    {
      Free(l);
      if r.Addr? {
        ghost var m := State();
        var cell := objs[r.id].obj;
        objs := objs[r.id := Live(cell.(refCount := cell.refCount + 1))];
        RetainFacts(m, r);
      }
      res := r;
    }

    // -------------------------------------------------------------------------
    // Atoms

    /** ll_bool. */
    method NewBool(v: bool) returns (o: Ref)
      requires Valid()
      modifies this
      ensures Valid() && Allocated(old(State()), State(), o)
      ensures objs == old(objs) + [Live(Obj(Tag(Bool), BoolBits(v), 0))] && bufs == old(bufs)
      ensures TypeOf(o) == Bool && ToBool(o) == v
    {
      ghost var m := State();
      o := Malloc(Bool);
      objs := objs[o.id := Live(objs[o.id].obj.(cdr := BoolBits(v)))];
      AtomValid(m, Bool, BoolBits(v));
    }

    /** ll_to_bool: defined on Bool objects only. */
    function ToBool(o: Ref): bool
      reads this
      requires Valid() && RefOk(State(), o) && TypeOf(o) == Bool
    {
      assert CellOk(State(), o.id);
      objs[o.id].obj.cdr.b
    }

    /** ll_int. */
    method NewInt(v: Int64) returns (o: Ref)
      requires Valid()
      modifies this
      ensures Valid() && Allocated(old(State()), State(), o)
      ensures objs == old(objs) + [Live(Obj(Tag(Int), IntBits(v), 0))] && bufs == old(bufs)
      ensures TypeOf(o) == Int && ToInt(o) == v
    {
      ghost var m := State();
      o := Malloc(Int);
      objs := objs[o.id := Live(objs[o.id].obj.(cdr := IntBits(v)))];
      AtomValid(m, Int, IntBits(v));
    }

    /** ll_to_int: defined on Int objects only. */
    function ToInt(o: Ref): Int64
      reads this
      requires Valid() && RefOk(State(), o) && TypeOf(o) == Int
    {
      assert CellOk(State(), o.id);
      objs[o.id].obj.cdr.i
    }

    /** ll_float: the double is kept as its bit pattern. */
    method NewFloat(v: FloatBits) returns (o: Ref)
      requires Valid()
      modifies this
      ensures Valid() && Allocated(old(State()), State(), o)
      ensures objs == old(objs) + [Live(Obj(Tag(Float), FloatWord(v), 0))] && bufs == old(bufs)
      ensures TypeOf(o) == Float && ToFloat(o) == v
    {
      ghost var m := State();
      o := Malloc(Float);
      objs := objs[o.id := Live(objs[o.id].obj.(cdr := FloatWord(v)))];
      AtomValid(m, Float, FloatWord(v));
    }

    /** ll_to_float: defined on Float objects only. */
    function ToFloat(o: Ref): FloatBits
      reads this
      requires Valid() && RefOk(State(), o) && TypeOf(o) == Float
    {
      assert CellOk(State(), o.id);
      objs[o.id].obj.cdr.f
    }

    /** ll_cdata: an opaque address owned by the embedding program. */
    method NewCData(v: Handle) returns (o: Ref)
      requires Valid()
      modifies this
      ensures Valid() && Allocated(old(State()), State(), o)
      ensures objs == old(objs) + [Live(Obj(Tag(CData), CDataWord(v), 0))] && bufs == old(bufs)
      ensures TypeOf(o) == CData && ToCData(o) == v
    {
      ghost var m := State();
      o := Malloc(CData);
      objs := objs[o.id := Live(objs[o.id].obj.(cdr := CDataWord(v)))];
      AtomValid(m, CData, CDataWord(v));
    }

    /** ll_to_cdata: defined on CData objects only. */
    function ToCData(o: Ref): Handle
      reads this
      requires Valid() && RefOk(State(), o) && TypeOf(o) == CData
    {
      assert CellOk(State(), o.id);
      objs[o.id].obj.cdr.cd
    }

    /** ll_cfunc: an opaque native function. */
    method NewCFunc(v: FuncHandle) returns (o: Ref)
      requires Valid()
      modifies this
      ensures Valid() && Allocated(old(State()), State(), o)
      ensures objs == old(objs) + [Live(Obj(Tag(CFunc), CFuncWord(v), 0))] && bufs == old(bufs)
      ensures TypeOf(o) == CFunc && ToCFunc(o) == v
    {
      ghost var m := State();
      o := Malloc(CFunc);
      objs := objs[o.id := Live(objs[o.id].obj.(cdr := CFuncWord(v)))];
      AtomValid(m, CFunc, CFuncWord(v));
    }

    /** ll_to_cfunc: defined on CFunc objects only. */
    function ToCFunc(o: Ref): FuncHandle
      reads this
      requires Valid() && RefOk(State(), o) && TypeOf(o) == CFunc
    {
      assert CellOk(State(), o.id);
      objs[o.id].obj.cdr.fn
    }

    // -------------------------------------------------------------------------
    // Text

    /**
     * ll_set_text_: text longer than 7 bytes is copied into a new buffer of
     * l + 1 bytes with a terminating NUL; shorter text is copied into the
     * cleared payload word, whose remaining bytes stay NUL.
     */
    method SetText(o: Ref, text: seq<char>)
      requires o.Addr? && o.id < |objs| && objs[o.id].Live?
      modifies this
      ensures |text| > 7 ==> bufs == old(bufs) + [Held(text + [NUL], o.id)]
      ensures |text| > 7 ==> objs == old(objs)[o.id := Live(old(objs[o.id].obj).(cdr := OutOfLine(|old(bufs)|)))]
      ensures |text| <= 7 ==> bufs == old(bufs)
      ensures |text| <= 7 ==> objs == old(objs)[o.id := Live(old(objs[o.id].obj).(cdr := Inline(text + Zeros(8 - |text|))))]
    {
      var cell := objs[o.id].obj;
      if |text| > 7 {
        var b := |bufs|;
        bufs := bufs + [Held(text + [NUL], o.id)];
        objs := objs[o.id := Live(cell.(cdr := OutOfLine(b)))];
      } else {
        var word := Zeros(8);
        word := text + word[|text|..];
        word := word[|text| := NUL];
        assert word == text + Zeros(8 - |text|);
        objs := objs[o.id := Live(cell.(cdr := Inline(word)))];
      }
    }

    /** ll_symbol_view: a symbol over the bytes src[b..e]. */
    method SymbolView(src: seq<char>, b: nat, e: nat) returns (o: Ref)
      requires Valid() && b <= e <= |src|
      modifies this
      ensures Valid() && Allocated(old(State()), State(), o)
      ensures TypeInternal(o) == (if e - b > 7 then LongSymbol else Symbol)
      ensures TypeOf(o) == Symbol && ToSymbol(o) == CString(src[b..e])
      ensures State() == WithText(old(State()), if e - b > 7 then LongSymbol else Symbol, src[b..e])
    {
      ghost var m := State();
      var l := e - b;
      ghost var dt := if l > 7 then LongSymbol else Symbol;
      o := Malloc(if l > 7 then LongSymbol else Symbol);
      SetText(o, src[b..e]);
      TextValid(m, dt, src[b..e]);
      WithTextType(m, dt, src[b..e]);
      assert State() == WithText(m, dt, src[b..e]);
    }

    /** ll_symbol: a symbol over the C string v, i.e. its bytes up to the first NUL. */
    method NewSymbol(v: seq<char>) returns (o: Ref)
      requires Valid()
      modifies this
      ensures Valid() && Allocated(old(State()), State(), o)
      ensures TypeInternal(o) == (if |CString(v)| > 7 then LongSymbol else Symbol)
      ensures TypeOf(o) == Symbol && ToSymbol(o) == CString(v)
      ensures State() == WithText(old(State()), if |CString(v)| > 7 then LongSymbol else Symbol, CString(v))
    {
      o := SymbolView(v, 0, |CString(v)|);
      CStringPlain(CString(v));
    }

    /** ll_to_symbol: the stored text, read as a C string; defined on symbols only. */
    function ToSymbol(o: Ref): (t: seq<char>)
      reads this
      requires Valid() && RefOk(State(), o) && TypeOf(o) == Symbol
      ensures NUL !in t
    {
      assert CellOk(State(), o.id);
      var cell := objs[o.id].obj;
      if TypeInternal(o) == LongSymbol then CString(bufs[cell.cdr.buf].bytes) else CString(cell.cdr.bytes)
    }

    /** ll_string_view: a string over the bytes src[b..e]. */
    method StringView(src: seq<char>, b: nat, e: nat) returns (o: Ref)
      requires Valid() && b <= e <= |src|
      modifies this
      ensures Valid() && Allocated(old(State()), State(), o)
      ensures TypeInternal(o) == (if e - b > 7 then LongString else String)
      ensures TypeOf(o) == String && ToString(o) == CString(src[b..e])
      ensures State() == WithText(old(State()), if e - b > 7 then LongString else String, src[b..e])
    {
      ghost var m := State();
      var l := e - b;
      ghost var dt := if l > 7 then LongString else String;
      o := Malloc(if l > 7 then LongString else String);
      SetText(o, src[b..e]);
      TextValid(m, dt, src[b..e]);
      WithTextType(m, dt, src[b..e]);
      assert State() == WithText(m, dt, src[b..e]);
    }

    /** ll_string: a string over the C string v. */
    method NewString(v: seq<char>) returns (o: Ref)
      requires Valid()
      modifies this
      ensures Valid() && Allocated(old(State()), State(), o)
      ensures TypeInternal(o) == (if |CString(v)| > 7 then LongString else String)
      ensures TypeOf(o) == String && ToString(o) == CString(v)
      ensures State() == WithText(old(State()), if |CString(v)| > 7 then LongString else String, CString(v))
    {
      o := StringView(v, 0, |CString(v)|);
      CStringPlain(CString(v));
    }

    /** ll_to_string: the stored text, read as a C string; defined on strings only. */
    function ToString(o: Ref): (t: seq<char>)
      reads this
      requires Valid() && RefOk(State(), o) && TypeOf(o) == String
      ensures NUL !in t
    {
      assert CellOk(State(), o.id);
      var cell := objs[o.id].obj;
      if TypeInternal(o) == LongString then CString(bufs[cell.cdr.buf].bytes) else CString(cell.cdr.bytes)
    }

    // -------------------------------------------------------------------------
    // Lists

    /**
     * ll_cons: a new list cell with count 0 holding a and b; each child gains
     * one owner, the cell itself, and nothing else changes.
     */
    method Cons(a: Ref, b: Ref) returns (o: Ref)
      requires Valid() && RefOk(State(), a) && RefOk(State(), b)
      modifies this
      ensures Valid() && o == Addr(|old(objs)|) && State() == ConsState(old(State()), a, b)
      ensures TypeOf(o) == List && Car(o) == a && Cdr(o) == b
    {
      ghost var m := State();
      o := Malloc(List);
      ConsSteps(m, a, b);
      var ra := Assign(Null, a);
      var cell := objs[o.id].obj;
      objs := objs[o.id := Live(cell.(car := Ptr(ra)))];
      assert State() == Mem(Retain(m, a).objs + [Live(Obj(Ptr(a), Child(Null), 0))], m.bufs);
      var rb := Assign(Null, b);
      cell := objs[o.id].obj;
      objs := objs[o.id := Live(cell.(cdr := Child(rb)))];
      assert State() == ConsState(m, a, b);
      assert objs[o.id].obj == Obj(Ptr(a), Child(b), 0);
    }

    /**
     * ll_list: the right fold of ll_cons over items, built from the last
     * element to the first. The result holds the items in order on fresh
     * cells (newest first); the head has count 0, every inner cell count 1
     * (its one owner is the cell in front), the last cell's cdr is NULL, and
     * each older object gains one owner per occurrence in items, all of them
     * inside the new list, while keeping its children.
     */
    method ListOf(items: seq<Ref>) returns (o: Ref)
      requires Valid() && forall k :: 0 <= k < |items| ==> RefOk(State(), items[k])
      modifies this
      ensures Valid() && bufs == old(bufs) && |objs| == |old(objs)| + |items|
      ensures RefOk(State(), o) && Elements(State(), o) == items
      ensures o.Null? <==> items == []
      ensures o.Addr? ==> TypeOf(o) == List && Count(State(), o.id) == 0
      ensures |Spine(State(), o)| == |items|
      ensures forall k :: 0 <= k < |items| ==> Spine(State(), o)[k] == |objs| - 1 - k
      ensures InnerCellsOwnedOnce(State(), o)
      ensures forall x: nat :: x < |old(objs)| ==> Alive(State(), x) == Alive(old(State()), x)
      ensures forall x: nat :: x < |old(objs)| ==> Count(State(), x) == Count(old(State()), x) + Occurrences(items, x)
      ensures forall x: nat :: x < |old(objs)| ==> Surplus(State(), x) == Surplus(old(State()), x)
      ensures forall x: nat :: x < |old(objs)| && Alive(old(State()), x) ==> Shape(objs[x].obj) == Shape(old(objs)[x].obj)
      ensures o.Addr? ==> var c := Spine(State(), o)[|items| - 1]; Alive(State(), c) && objs[c].obj.cdr == Child(Null)
    {
      ghost var m0 := State();
      ListStart(m0, items);
      o := Null;
      for i := |items| downto 0
        invariant ListShape(m0, State(), items, i, o) && ListCounts(m0, State(), items, i, o)
        invariant ListEnds(m0, State(), items, i, o)
      {
        ghost var m := State();
        ListShapeStep(m0, m, items, i + 1, o);
        ListCountsStep(m0, m, items, i + 1, o);
        ListEndStep(m0, m, items, i + 1, o);
        o := Cons(items[i], o);
      }
    }

    /** ll_car: the first child of a list cell; no count changes. */
    function Car(o: Ref): (r: Ref)
      reads this
      requires Valid() && RefOk(State(), o) && TypeOf(o) == List
      ensures RefOk(State(), r) && (r.Addr? ==> r.id < o.id)
    {
      assert CellOk(State(), o.id);
      CarRef(objs[o.id].obj)
    }

    /** ll_cdr: the second child of a list cell; no count changes. */
    function Cdr(o: Ref): (r: Ref)
      reads this
      requires Valid() && RefOk(State(), o) && TypeOf(o) == List
      ensures RefOk(State(), r) && (r.Addr? ==> r.id < o.id)
    {
      assert CellOk(State(), o.id);
      CdrRef(objs[o.id].obj)
    }

    /**
     * ll_next: the slot holds a list cell its caller owns. The cell is held in
     * a local while the slot moves on to the cdr, then let go; the old car is
     * returned without giving the caller an owner of it.
     */
    method Next(slot: Ref) returns (x: Ref, rest: Ref)
      requires Valid() && slot.Addr? && NextReady(State(), slot.id) && NextKeepsCar(State(), slot.id)
      modifies this
      ensures x == CarRef(old(objs[slot.id].obj)) && rest == CdrRef(old(objs[slot.id].obj))
      ensures Valid() && State() == NextState(old(State()), slot.id)
    {
      ghost var m := State();
      NextHold(m, slot.id);
      NextLetGo(m, slot.id);
      var o := Assign(Null, slot);
      assert TypeInternal(o) == List;
      var next := Cdr(o);
      rest := Assign(slot, next);
      assert State() == Retain(m, next);
      x := Car(o);
      o := Assign(o, Null);
    }
  }

  /** A fresh atom (short text included) whose payload matches its tag keeps the heap valid. */
  lemma AtomValid(m: Mem, dt: DataType, w: Payload)
    requires Valid(m)
    requires dt != List && dt != Nil && dt != LongSymbol && dt != LongString
    requires PayloadOk(m, |m.objs|, Obj(Tag(dt), w, 0))
    ensures (m.objs + [Live(Blank(dt))])[|m.objs| := Live(Obj(Tag(dt), w, 0))] == m.objs + [Live(Obj(Tag(dt), w, 0))]
    ensures Valid(Mem(m.objs + [Live(Obj(Tag(dt), w, 0))], m.bufs))
    ensures Allocated(m, Mem(m.objs + [Live(Obj(Tag(dt), w, 0))], m.bufs), Addr(|m.objs|))
  {
    var o := Obj(Tag(dt), w, 0);
    assert m.bufs + [] == m.bufs;
    AllocValid(m, o, []);
    assert (m.objs + [Live(o)])[..|m.objs|] == m.objs;
  }

  /**
   * The three heaps ll_cons passes through: the blank cell appended, then
   * its car retained and linked, then its cdr; the last is ConsState.
   */
  lemma ConsSteps(m: Mem, a: Ref, b: Ref)
    requires Valid(m) && RefOk(m, a) && RefOk(m, b)
    ensures var s0 := Mem(m.objs + [Live(Blank(List))], m.bufs);
      Valid(s0) && RefOk(s0, a) && Retain(s0, a).bufs == m.bufs && Retain(s0, a).objs[|m.objs|] == Live(Blank(List))
      && Retain(s0, a).objs[|m.objs| := Live(Obj(Ptr(a), Child(Null), 0))] == Retain(m, a).objs + [Live(Obj(Ptr(a), Child(Null), 0))]
    ensures var s1 := Mem(Retain(m, a).objs + [Live(Obj(Ptr(a), Child(Null), 0))], m.bufs);
      Valid(s1) && RefOk(s1, b) && Retain(s1, b).bufs == m.bufs && Retain(s1, b).objs[|m.objs|] == Live(Obj(Ptr(a), Child(Null), 0))
      && Retain(s1, b).objs[|m.objs| := Live(Obj(Ptr(a), Child(b), 0))] == ConsState(m, a, b).objs
    ensures Valid(ConsState(m, a, b))
  {
    var c0 := Blank(List);
    var c1 := c0.(car := Ptr(a));
    AllocValid(m, c0, []);
    assert m.bufs + [] == m.bufs;
    RetainAndLink(m, c0, c1, a);
    RetainFacts(m, a);
    RetainAndLink(Retain(m, a), c1, c1.(cdr := Child(b)), b);
    ConsValid(m, a, b);
  }

  /** The heap ll_set_text_ leaves behind for a fresh text object. */
  function WithText(m: Mem, dt: DataType, text: seq<char>): Mem
  {
    if |text| > 7 then Mem(m.objs + [Live(Obj(Tag(dt), OutOfLine(|m.bufs|), 0))], m.bufs + [Held(text + [NUL], |m.objs|)])
    else Mem(m.objs + [Live(Obj(Tag(dt), Inline(text + Zeros(8 - |text|)), 0))], m.bufs)
  }

  /** The new object's first word is its text tag. */
  lemma WithTextType(m: Mem, dt: DataType, text: seq<char>)
    requires dt != List
    ensures |WithText(m, dt, text).objs| == |m.objs| + 1
    ensures TypeInternalOf(WithText(m, dt, text).objs[|m.objs|].obj) == dt
  {
    ParityEncoding(dt);
  }

  /** A fresh text object, stored as ll_set_text_ stores it, keeps the heap valid and reads back its text. */
  lemma TextValid(m: Mem, dt: DataType, text: seq<char>)
    requires Valid(m)
    requires dt == (if |text| > 7 then LongSymbol else Symbol) || dt == (if |text| > 7 then LongString else String)
    ensures Valid(WithText(m, dt, text)) && Allocated(m, WithText(m, dt, text), Addr(|m.objs|))
    ensures WithText(m, dt, text).objs == (m.objs + [Live(Blank(dt))])[|m.objs| := WithText(m, dt, text).objs[|m.objs|]]
    ensures |text| > 7 ==> CString(WithText(m, dt, text).bufs[|m.bufs|].bytes) == CString(text)
    ensures |text| <= 7 ==> CString(WithText(m, dt, text).objs[|m.objs|].obj.cdr.bytes) == CString(text)
  {
    var o := WithText(m, dt, text).objs[|m.objs|].obj;
    UpdateLast(m.objs, Live(Blank(dt)), Live(o));
    if |text| > 7 {
      LongTextValid(m, dt, text);
    } else {
      ShortTextValid(m, dt, text);
    }
  }

  lemma LongTextValid(m: Mem, dt: DataType, text: seq<char>)
    requires Valid(m) && |text| > 7 && (dt == LongSymbol || dt == LongString)
    ensures Valid(WithText(m, dt, text)) && Allocated(m, WithText(m, dt, text), Addr(|m.objs|))
    ensures CString(WithText(m, dt, text).bufs[|m.bufs|].bytes) == CString(text)
  {
    var o := Obj(Tag(dt), OutOfLine(|m.bufs|), 0);
    var nb := [Held(text + [NUL], |m.objs|)];
    AllocValid(m, o, nb);
    assert (m.objs + [Live(o)])[..|m.objs|] == m.objs;
    assert (m.bufs + nb)[..|m.bufs|] == m.bufs;
    CStringTerminated(text, [NUL]);
  }

  lemma ShortTextValid(m: Mem, dt: DataType, text: seq<char>)
    requires Valid(m) && |text| <= 7 && (dt == Symbol || dt == String)
    ensures Valid(WithText(m, dt, text)) && Allocated(m, WithText(m, dt, text), Addr(|m.objs|))
    ensures CString(WithText(m, dt, text).objs[|m.objs|].obj.cdr.bytes) == CString(text)
  {
    var w := Inline(text + Zeros(8 - |text|));
    AtomValid(m, dt, w);
    assert WithText(m, dt, text) == Mem(m.objs + [Live(Obj(Tag(dt), w, 0))], m.bufs);
    InlineText(text);
  }
}
