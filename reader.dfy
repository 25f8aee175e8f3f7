/**
 * ll_read as the C code runs it: pointer-walking loops over a C string, then
 * one constructor call. The result is specified against Scanner.ReadAtom.
 */
module Reader {
  import opened Tags
  import opened Memory
  import opened CText
  import opened Scanner
  import opened Objects

  /** Object o holds atom a: its type, its value, and for text whether it lives out of line. */
  ghost predicate Denotes(h: Heap, o: Ref, a: Atom)
    reads h
    requires h.Valid() && RefOk(h.State(), o)
  {
    match a
    case BoolAtom(b) => h.TypeOf(o) == Bool && h.ToBool(o) == b
    case IntAtom(i) => h.TypeOf(o) == Int && h.ToInt(o) == i
    case FloatAtom(f) => h.TypeOf(o) == Float && h.ToFloat(o) == f
    case SymbolAtom(t) =>
      h.TypeOf(o) == Symbol && h.ToSymbol(o) == t &&
      h.TypeInternal(o) == (if |t| > 7 then LongSymbol else Symbol)
    case StringAtom(t) =>
      h.TypeOf(o) == String && h.ToString(o) == t &&
      h.TypeInternal(o) == (if |t| > 7 then LongString else String)
  }

  /**
   * Reads one atom from text, starting at position start, and returns it
   * (NULL when only white space remains) with the position where reading
   * stopped. A new object is unowned: its reference count is zero.
   */
  method Read(h: Heap, text: seq<char>, start: nat, floatParse: seq<char> -> Option<FloatBits>) returns (o: Ref, end: nat)
    requires h.Valid() && NUL !in text && start <= |text| && Readable(text, start)
    modifies h
    ensures end == ReadAtom(text, start, floatParse).end
    ensures h.Valid()
    ensures ReadAtom(text, start, floatParse).atom == None ==> o == Null && h.State() == old(h.State())
    ensures ReadAtom(text, start, floatParse).atom != None ==>
      Allocated(old(h.State()), h.State(), o) && Denotes(h, o, ReadAtom(text, start, floatParse).atom.value)
  {
    var t := SkipSpace(text, start);
    if At(text, t) == '"' {
      o, end := ReadLiteral(h, text, t);
      assert ReadAtom(text, start, floatParse) == Scan(Some(StringAtom(text[t + 1..end - 1])), end);
    } else {
      o, end := ReadWord(h, text, t, floatParse);
      assert ReadAtom(text, start, floatParse) == Scan(Classify(text, t, end, floatParse), end);
    }
  }

  /** ll_read's first loop: advance over white space up to the first other byte or the terminator. */
  method SkipSpace(text: seq<char>, start: nat) returns (t: nat)
    requires NUL !in text && start <= |text|
    ensures t == SpaceEnd(text, start)
  {
    t := start;
    while At(text, t) != NUL && IsSpace(At(text, t))
      invariant start <= t <= |text| && SpaceEnd(text, t) == SpaceEnd(text, start)
      decreases |text| - t
    {
      t := t + 1;
    }
  }

  /** The string-literal branch of ll_read: from the opening quote to the first unescaped quote. */
  method ReadLiteral(h: Heap, text: seq<char>, s: nat) returns (o: Ref, end: nat)
    requires h.Valid() && NUL !in text && s < |text| && text[s] == '"' && ClosedFrom(text, s + 1)
    modifies h
    ensures end == CloseFrom(text, s + 1) + 1
    ensures h.Valid() && Allocated(old(h.State()), h.State(), o)
    ensures Denotes(h, o, StringAtom(text[s + 1..end - 1]))
  {
    var t := FindClose(text, s);
    t := t + 1;
    o := h.StringView(text, s + 1, t - 1);
    CStringPlain(text[s + 1..t - 1]);
    end := t;
    DenotesText(h, o, text[s + 1..t - 1], false);
  }

  /** ll_read's literal loop: advance to the first quote after the opening one that no backslash precedes. */
  method FindClose(text: seq<char>, s: nat) returns (t: nat)
    requires s < |text| && text[s] == '"' && ClosedFrom(text, s + 1)
    ensures t == CloseFrom(text, s + 1) && t < |text|
  {
    t := s + 1;
    while At(text, t) != '"' || At(text, t - 1) == '\\'
      invariant s + 1 <= t <= CloseFrom(text, s + 1)
      decreases CloseFrom(text, s + 1) - t
    {
      t := t + 1;
    }
    assert t < |text| && ClosesAt(text, t);
  }

  /** A symbol or string whose stored text reads back as t, stored out of line iff t is long, denotes t. */
  lemma DenotesText(h: Heap, o: Ref, t: seq<char>, symbol: bool)
    requires h.Valid() && RefOk(h.State(), o) && NUL !in t
    requires symbol ==> h.TypeOf(o) == Symbol && h.ToSymbol(o) == CString(t)
    requires symbol ==> h.TypeInternal(o) == (if |t| > 7 then LongSymbol else Symbol)
    requires !symbol ==> h.TypeOf(o) == String && h.ToString(o) == CString(t)
    requires !symbol ==> h.TypeInternal(o) == (if |t| > 7 then LongString else String)
    ensures Denotes(h, o, if symbol then SymbolAtom(t) else StringAtom(t))
  {
    CStringPlain(t);
  }

  /** ll_read's token loop: advance up to the first white space or the terminator. */
  method ScanToken(text: seq<char>, s: nat) returns (t: nat)
    requires NUL !in text && s <= |text|
    ensures t == TokenEnd(text, s)
  {
    t := s;
    while At(text, t) != NUL && !IsSpace(At(text, t))
      invariant s <= t <= |text| && TokenEnd(text, t) == TokenEnd(text, s)
      decreases |text| - t
    {
      t := t + 1;
    }
  }

  /** The token branch of ll_read: up to white space or the end, then classified. */
  method ReadWord(h: Heap, text: seq<char>, s: nat, floatParse: seq<char> -> Option<FloatBits>) returns (o: Ref, end: nat)
    requires h.Valid() && NUL !in text && s <= |text|
    modifies h
    ensures end == TokenEnd(text, s)
    ensures h.Valid()
    ensures Classify(text, s, end, floatParse) == None ==> o == Null && h.State() == old(h.State())
    ensures Classify(text, s, end, floatParse) != None ==>
      Allocated(old(h.State()), h.State(), o) && Denotes(h, o, Classify(text, s, end, floatParse).value)
  {
    var t := ScanToken(text, s);
    end := t;
    if t - s == 4 && text[s..t] == "true" {
      o := h.NewBool(true);
    } else if t - s == 5 && text[s..t] == "false" {
      o := h.NewBool(false);
    } else if t > s {
      var conversion := StrToL(text, s);
      if conversion.stop == t {
        o := h.NewInt(conversion.value);
      } else {
        match floatParse(text[s..t]) {
          case Some(d) =>
            o := h.NewFloat(d);
          case None =>
            o := h.SymbolView(text, s, t);
            DenotesText(h, o, text[s..t], true);
        }
      }
    } else {
      o := Null;
    }
  }
}
