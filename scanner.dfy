/**
 * The lexical side of ll_read, on the text as a C string (no NUL inside; the
 * terminator is the end of the sequence): white space, token boundaries,
 * string literals, the base-10 conversion of strtol, and what one read
 * produces. The float conversion (strtod) is a parameter: floatParse(tok) is
 * Some(d) exactly when strtod consumes all of tok, producing d.
 */
module Scanner {
  import opened Memory

  datatype Option<T> = None | Some(value: T)

  /** The value of an atom the reader produces. */
  datatype Atom =
    | BoolAtom(b: bool)
    | IntAtom(i: Int64)
    | FloatAtom(f: FloatBits)
    | SymbolAtom(sym: seq<char>)
    | StringAtom(str: seq<char>)

  /** The outcome of one read: the atom, if any, and where scanning stopped. */
  datatype Scan = Scan(atom: Option<Atom>, end: nat)

  /** The outcome of strtol: the converted value and where the conversion stopped. */
  datatype Conversion = Conversion(value: Int64, stop: nat)

  /** isspace in the C locale: space, tab, newline, vertical tab, form feed, carriage return. */
  predicate IsSpace(c: char)
  {
    c == ' ' || c == '\t' || c == '\n' || c == '\U{B}' || c == '\U{C}' || c == '\r'
  }

  predicate IsDigit(c: char)
  {
    '0' <= c <= '9'
  }

  // ---------------------------------------------------------------------------
  // Boundaries

  /** The first position at or after i that is not white space. */
  function SpaceEnd(text: seq<char>, i: nat): (j: nat)
    requires i <= |text|
    ensures i <= j <= |text|
    ensures forall k :: i <= k < j ==> IsSpace(text[k])
    ensures j < |text| ==> !IsSpace(text[j])
    decreases |text| - i
  {
    if i < |text| && IsSpace(text[i]) then SpaceEnd(text, i + 1) else i
  }

  /** The first position at or after i that is white space or the end. */
  function TokenEnd(text: seq<char>, i: nat): (j: nat)
    requires i <= |text|
    ensures i <= j <= |text|
    ensures forall k :: i <= k < j ==> !IsSpace(text[k])
    ensures j < |text| ==> IsSpace(text[j])
    decreases |text| - i
  {
    if i < |text| && !IsSpace(text[i]) then TokenEnd(text, i + 1) else i
  }

  /** A quote that closes a literal: one not preceded by a backslash. */
  predicate ClosesAt(text: seq<char>, j: nat)
  {
    0 < j < |text| && text[j] == '"' && text[j - 1] != '\\'
  }

  /** Some closing quote follows position k. */
  predicate ClosedFrom(text: seq<char>, k: nat)
  {
    exists j :: k <= j < |text| && ClosesAt(text, j)
  }

  /** The first closing quote at or after k. */
  function CloseFrom(text: seq<char>, k: nat): (j: nat)
    requires ClosedFrom(text, k)
    ensures k <= j && ClosesAt(text, j)
    ensures forall x :: k <= x < j ==> !ClosesAt(text, x)
    decreases |text| - k
  {
    if ClosesAt(text, k) then k
    else
      ClosedFurther(text, k);
      CloseFrom(text, k + 1)
  }

  lemma ClosedFurther(text: seq<char>, k: nat)
    requires ClosedFrom(text, k) && !ClosesAt(text, k)
    ensures ClosedFrom(text, k + 1) && k < |text|
  {
    var j :| k <= j < |text| && ClosesAt(text, j);
    assert k + 1 <= j;
  }

  // ---------------------------------------------------------------------------
  // strtol, base 10

  const LongMax: int := 0x7FFF_FFFF_FFFF_FFFF
  const LongMin: int := -0x8000_0000_0000_0000

  function Distance(a: int, b: int): nat
  {
    if a <= b then b - a else a - b
  }

  /** strtol's overflow rule: out-of-range values saturate at LONG_MIN and LONG_MAX (64-bit long). */
  function Clamp(v: int): (r: Int64)
    ensures LongMin <= v <= LongMax ==> r == v
    ensures v > LongMax ==> r == LongMax
    ensures v < LongMin ==> r == LongMin
  {
    if v > LongMax then LongMax else if v < LongMin then LongMin else v
  }

  /** No 64-bit long is nearer to v than Clamp(v), and clamping twice changes nothing. */
  lemma ClampNearest(v: int)
    ensures forall w: Int64 :: Distance(Clamp(v), v) <= Distance(w, v)
    ensures Clamp(Clamp(v)) == Clamp(v)
  {
  }

  /** The first position at or after i that is not a decimal digit. */
  function DigitRun(text: seq<char>, i: nat): (j: nat)
    requires i <= |text|
    ensures i <= j <= |text|
    ensures forall k :: i <= k < j ==> IsDigit(text[k])
    ensures j < |text| ==> !IsDigit(text[j])
    decreases |text| - i
  {
    if i < |text| && IsDigit(text[i]) then DigitRun(text, i + 1) else i
  }

  /** The number a run of decimal digits denotes, most significant first. */
  function DigitsValue(ds: seq<char>): (v: nat)
    requires forall k :: 0 <= k < |ds| ==> IsDigit(ds[k])
    decreases |ds|
  {
    if ds == [] then 0 else DigitsValue(ds[..|ds| - 1]) * 10 + DigitValue(ds[|ds| - 1])
  }

  function DigitValue(c: char): (d: nat)
    requires IsDigit(c)
    ensures d < 10
  {
    c as int - '0' as int
  }

  /**
   * strtol(text + s, &end, 10) where text[s] is not white space: an optional
   * sign and the longest run of digits after it; without digits nothing is
   * converted and the stop position is s itself.
   */
  function StrToL(text: seq<char>, s: nat): (c: Conversion)
    requires s <= |text|
    ensures s <= c.stop <= |text|
  {
    var signed := s < |text| && (text[s] == '+' || text[s] == '-');
    var k := if signed then s + 1 else s;
    var e := DigitRun(text, k);
    if e == k then Conversion(0, s)
    else
      var magnitude: int := DigitsValue(text[k..e]);
      Conversion(Clamp(if signed && text[s] == '-' then -magnitude else magnitude), e)
  }

  /** A whole token strtol converts completely: an optional sign and at least one digit, nothing else. */
  predicate IsIntLiteral(tok: seq<char>)
  {
    var k := if |tok| > 0 && (tok[0] == '+' || tok[0] == '-') then 1 else 0;
    k < |tok| && forall x :: k <= x < |tok| ==> IsDigit(tok[x])
  }

  /** The value of an integer literal, saturated as strtol does. */
  function LiteralValue(tok: seq<char>): Int64
    requires IsIntLiteral(tok)
  {
    var k := if tok[0] == '+' || tok[0] == '-' then 1 else 0;
    var magnitude: int := DigitsValue(tok[k..]);
    Clamp(if tok[0] == '-' then -magnitude else magnitude)
  }

  // ---------------------------------------------------------------------------
  // One read

  /** A literal that starts at the first non-blank position is closed in the text. */
  predicate Readable(text: seq<char>, start: nat)
    requires start <= |text|
  {
    var s := SpaceEnd(text, start);
    s < |text| && text[s] == '"' ==> ClosedFrom(text, s + 1)
  }

  /**
   * The token text[s..t] outside quotes: exactly true or false is a Bool; a
   * token strtol consumes entirely is an Int; else one strtod consumes is a
   * Float; any other non-empty token is a Symbol over exactly those bytes.
   */
  function Classify(text: seq<char>, s: nat, t: nat, floatParse: seq<char> -> Option<FloatBits>): Option<Atom>
    requires s <= t <= |text|
  {
    var tok := text[s..t];
    if t - s == 4 && tok == "true" then Some(BoolAtom(true))
    else if t - s == 5 && tok == "false" then Some(BoolAtom(false))
    else if t > s then
      var c := StrToL(text, s);
      if c.stop == t then Some(IntAtom(c.value))
      else match floatParse(tok)
        case Some(d) => Some(FloatAtom(d))
        case None => Some(SymbolAtom(tok))
    else None
  }

  /** ll_read on the text from position start: skip white space, then a string literal or one token. */
  function ReadAtom(text: seq<char>, start: nat, floatParse: seq<char> -> Option<FloatBits>): (r: Scan)
    requires start <= |text| && Readable(text, start)
    ensures start <= r.end <= |text|
  {
    var s := SpaceEnd(text, start);
    if s < |text| && text[s] == '"' then
      var j := CloseFrom(text, s + 1);
      Scan(Some(StringAtom(text[s + 1..j])), j + 1)
    else
      var t := TokenEnd(text, s);
      Scan(Classify(text, s, t, floatParse), t)
  }

  // ---------------------------------------------------------------------------
  // The boundary functions are determined by their contracts

  lemma SpaceEndAt(text: seq<char>, i: nat, j: nat)
    requires i <= j <= |text|
    requires forall k :: i <= k < j ==> IsSpace(text[k])
    requires j < |text| ==> !IsSpace(text[j])
    ensures SpaceEnd(text, i) == j
  {
  }

  lemma TokenEndAt(text: seq<char>, i: nat, j: nat)
    requires i <= j <= |text|
    requires forall k :: i <= k < j ==> !IsSpace(text[k])
    requires j < |text| ==> IsSpace(text[j])
    ensures TokenEnd(text, i) == j
  {
  }

  lemma DigitRunAt(text: seq<char>, i: nat, j: nat)
    requires i <= j <= |text|
    requires forall k :: i <= k < j ==> IsDigit(text[k])
    requires j < |text| ==> !IsDigit(text[j])
    ensures DigitRun(text, i) == j
  {
  }

  lemma CloseFromAt(text: seq<char>, k: nat, j: nat)
    requires k <= j && ClosesAt(text, j)
    requires forall x :: k <= x < j ==> !ClosesAt(text, x)
    ensures ClosedFrom(text, k) && CloseFrom(text, k) == j
  {
  }

  // ---------------------------------------------------------------------------
  // strtol on a whole token

  /**
   * On a token that starts at s and ends at white space or the end of the
   * text, strtol stops exactly at the token's end if and only if the token
   * is a signed run of digits, and then yields the literal's value.
   */
  lemma StrtolWholeToken(text: seq<char>, s: nat)
    requires s < |text| && !IsSpace(text[s])
    ensures StrToL(text, s).stop == TokenEnd(text, s) <==> IsIntLiteral(text[s..TokenEnd(text, s)])
    ensures IsIntLiteral(text[s..TokenEnd(text, s)]) ==> StrToL(text, s).value == LiteralValue(text[s..TokenEnd(text, s)])
  {
    if IsIntLiteral(text[s..TokenEnd(text, s)]) {
      StrtolOnLiteral(text, s);
    } else {
      StrtolOnOther(text, s);
    }
  }

  /**
   * What strtol converts from s: when it stops at s nothing was converted and
   * the value is 0; otherwise it consumed an integer literal, yields that
   * literal's saturated value and stops before the next byte that is not a
   * digit.
   */
  lemma StrtolPrefix(text: seq<char>, s: nat)
    requires s <= |text|
    ensures var c := StrToL(text, s); c.stop == s ==> c.value == 0
    ensures var c := StrToL(text, s); c.stop > s ==> IsIntLiteral(text[s..c.stop]) && c.value == LiteralValue(text[s..c.stop])
    ensures var c := StrToL(text, s); c.stop == |text| || !IsDigit(text[c.stop])
  {
    var signed := s < |text| && (text[s] == '+' || text[s] == '-');
    var k := if signed then s + 1 else s;
    var e := DigitRun(text, k);
    if e != k {
      var tok := text[s..e];
      assert tok[0] == text[s];
      DigitsInToken(text, s, e, k);
      assert tok[k - s..] == text[k..e];
    }
  }

  lemma StrtolOnLiteral(text: seq<char>, s: nat)
    requires s < |text| && IsIntLiteral(text[s..TokenEnd(text, s)])
    ensures StrToL(text, s) == Conversion(LiteralValue(text[s..TokenEnd(text, s)]), TokenEnd(text, s))
  {
    var t := TokenEnd(text, s);
    var tok := text[s..t];
    var k := if text[s] == '+' || text[s] == '-' then s + 1 else s;
    assert tok[0] == text[s];
    DigitsInToken(text, s, t, k);
    DigitRunAt(text, k, t);
    assert tok[k - s..] == text[k..t];
    var magnitude: int := DigitsValue(text[k..t]);
    assert LiteralValue(tok) == Clamp(if text[s] == '-' then -magnitude else magnitude);
    assert DigitRun(text, k) == t != k;
  }

  lemma StrtolOnOther(text: seq<char>, s: nat)
    requires s < |text| && !IsSpace(text[s]) && !IsIntLiteral(text[s..TokenEnd(text, s)])
    ensures StrToL(text, s).stop != TokenEnd(text, s)
  {
    var t := TokenEnd(text, s);
    var tok := text[s..t];
    var k := if text[s] == '+' || text[s] == '-' then s + 1 else s;
    var e := DigitRun(text, k);
    assert tok[0] == text[s];
    DigitsInToken(text, s, t, k);
    assert e == k || e != t;
  }

  /** The digits of a token are the digits of the text it was cut from. */
  lemma DigitsInToken(text: seq<char>, s: nat, t: nat, k: nat)
    requires s <= k <= t <= |text|
    ensures (forall x :: k - s <= x < t - s ==> IsDigit(text[s..t][x])) <==> (forall x :: k <= x < t ==> IsDigit(text[x]))
  {
    if forall x :: k <= x < t ==> IsDigit(text[x]) {
      forall x | k - s <= x < t - s ensures IsDigit(text[s..t][x]) {
        assert text[s..t][x] == text[s + x];
      }
    }
    if forall x :: k - s <= x < t - s ==> IsDigit(text[s..t][x]) {
      forall x | k <= x < t ensures IsDigit(text[x]) {
        assert text[s..t][x - s] == text[x];
      }
    }
  }

  // ---------------------------------------------------------------------------
  // Decimal notation

  function DigitChar(d: nat): (c: char)
    requires d < 10
    ensures IsDigit(c) && DigitValue(c) == d
  {
    ('0' as int + d) as char
  }

  /** The decimal digits of n, most significant first, without leading zeros. */
  function Digits(n: nat): (ds: seq<char>)
    ensures |ds| >= 1 && forall k :: 0 <= k < |ds| ==> IsDigit(ds[k])
    decreases n
  {
    if n < 10 then [DigitChar(n)] else Digits(n / 10) + [DigitChar(n % 10)]
  }

  /** How a 64-bit integer is written in base 10, with a minus sign when negative. */
  function Decimal(v: Int64): seq<char>
  {
    if v < 0 then ['-'] + Digits(-(v as int)) else Digits(v)
  }

  lemma {:induction false} DigitsRoundTrip(n: nat)
    ensures DigitsValue(Digits(n)) == n
    decreases n
  {
    if n >= 10 {
      var ds := Digits(n);
      assert ds[..|ds| - 1] == Digits(n / 10);
      DigitsRoundTrip(n / 10);
    }
  }

  /** Every 64-bit integer written in decimal is a literal strtol reads back exactly. */
  lemma DecimalRoundTrip(v: Int64)
    ensures IsIntLiteral(Decimal(v)) && LiteralValue(Decimal(v)) == v
  {
    if v < 0 {
      assert Decimal(v)[1..] == Digits(-(v as int));
      DigitsRoundTrip(-(v as int));
    } else {
      DigitsRoundTrip(v);
    }
  }

  // ---------------------------------------------------------------------------
  // What one read produces

  predicate AllSpace(s: seq<char>)
  {
    forall k :: 0 <= k < |s| ==> IsSpace(s[k])
  }

  /** A token outside quotes: non-empty, no white space, not opening a string literal. */
  predicate Word(tok: seq<char>)
  {
    tok != [] && tok[0] != '"' && forall k :: 0 <= k < |tok| ==> !IsSpace(tok[k])
  }

  /** The text after a token: the end of the text or white space. */
  predicate Delimits(rest: seq<char>)
  {
    rest == [] || IsSpace(rest[0])
  }

  /** White space alone, or nothing at all, reads as NULL and is consumed entirely. */
  lemma ReadBlank(text: seq<char>, start: nat, floatParse: seq<char> -> Option<FloatBits>)
    requires start <= |text| && AllSpace(text[start..])
    ensures Readable(text, start)
    ensures ReadAtom(text, start, floatParse) == Scan(None, |text|)
  {
    forall k | start <= k < |text| ensures IsSpace(text[k]) {
      assert text[k] == text[start..][k - start];
    }
    SpaceEndAt(text, start, |text|);
  }

  /** Leading white space is skipped before the token is classified. */
  lemma ReadToken(text: seq<char>, pre: seq<char>, tok: seq<char>, rest: seq<char>, floatParse: seq<char> -> Option<FloatBits>)
    requires text == pre + tok + rest && AllSpace(pre) && Delimits(rest)
    requires Word(tok)
    ensures Readable(text, 0)
    ensures ReadAtom(text, 0, floatParse) == Scan(Classify(text, |pre|, |pre| + |tok|, floatParse), |pre| + |tok|)
  {
    TokenAt(text, pre, tok, rest);
    ReadsWordAt(text, |pre|, |pre| + |tok|, floatParse);
  }

  /** Where the token of pre + tok + rest lies: after the white space, up to the delimiter. */
  lemma TokenAt(text: seq<char>, pre: seq<char>, tok: seq<char>, rest: seq<char>)
    requires text == pre + tok + rest && AllSpace(pre) && Delimits(rest)
    requires Word(tok)
    ensures |pre| < |text| && text[|pre|] != '"' && SpaceEnd(text, 0) == |pre|
    ensures text[|pre|..|pre| + |tok|] == tok && TokenEnd(text, |pre|) == |pre| + |tok|
  {
    assert text[..|pre|] == pre;
    assert text[|pre|..] == tok + rest;
    assert text[|pre|] == tok[0];
    SkipTo(text, pre);
    TokenSpan(text, |pre|, tok, rest);
    assert text[|pre|..|pre| + |tok|] == tok;
  }

  /** Reading from 0 when the first non-blank byte opens no literal. */
  lemma ReadsWordAt(text: seq<char>, s: nat, t: nat, floatParse: seq<char> -> Option<FloatBits>)
    requires s <= |text| && SpaceEnd(text, 0) == s && (s < |text| ==> text[s] != '"')
    requires TokenEnd(text, s) == t
    ensures Readable(text, 0)
    ensures ReadAtom(text, 0, floatParse) == Scan(Classify(text, s, t, floatParse), t)
  {
  }

  /** White space up to position |pre|, then something else: reading starts at |pre|. */
  lemma SkipTo(text: seq<char>, pre: seq<char>)
    requires |pre| <= |text| && text[..|pre|] == pre && AllSpace(pre)
    requires |pre| < |text| ==> !IsSpace(text[|pre|])
    ensures SpaceEnd(text, 0) == |pre|
  {
    assert forall k :: 0 <= k < |pre| ==> text[k] == pre[k];
    SpaceEndAt(text, 0, |pre|);
  }

  /** A token followed by white space or the end of the text ends where it appears to. */
  lemma TokenSpan(text: seq<char>, s: nat, tok: seq<char>, rest: seq<char>)
    requires s <= |text| && text[s..] == tok + rest && Word(tok) && Delimits(rest)
    ensures TokenEnd(text, s) == s + |tok|
  {
    assert forall k :: s <= k < s + |tok| ==> text[k] == tok[k - s] by {
      forall k | s <= k < s + |tok| ensures text[k] == tok[k - s] {
        assert text[k] == text[s..][k - s];
      }
    }
    if rest != [] {
      assert text[s + |tok|] == text[s..][|tok|];
    }
    TokenEndAt(text, s, s + |tok|);
  }

  /**
   * A token reads as an Int exactly when it is a signed run of digits, and
   * then as its value saturated to 64 bits; true and false read as Bools.
   */
  lemma ReadIntToken(text: seq<char>, pre: seq<char>, tok: seq<char>, rest: seq<char>, floatParse: seq<char> -> Option<FloatBits>)
    requires text == pre + tok + rest && AllSpace(pre) && Delimits(rest)
    requires Word(tok)
    ensures Readable(text, 0)
    ensures IsIntLiteral(tok) ==> ReadAtom(text, 0, floatParse) == Scan(Some(IntAtom(LiteralValue(tok))), |pre| + |tok|)
    ensures ReadAtom(text, 0, floatParse).atom.Some?
    ensures ReadAtom(text, 0, floatParse).atom.value.IntAtom? <==> IsIntLiteral(tok)
  {
    ReadToken(text, pre, tok, rest, floatParse);
    TokenAt(text, pre, tok, rest);
    assert text[|pre|] == tok[0];
    StrtolWholeToken(text, |pre|);
  }

  /** Every 64-bit integer, written in decimal, is read back as that integer. */
  lemma ReadDecimal(text: seq<char>, pre: seq<char>, v: Int64, rest: seq<char>, floatParse: seq<char> -> Option<FloatBits>)
    requires text == pre + Decimal(v) + rest && AllSpace(pre) && Delimits(rest)
    ensures Readable(text, 0)
    ensures ReadAtom(text, 0, floatParse) == Scan(Some(IntAtom(v)), |pre| + |Decimal(v)|)
  {
    DecimalRoundTrip(v);
    ReadIntToken(text, pre, Decimal(v), rest, floatParse);
  }

  /**
   * Any other token that strtod rejects is read as a Symbol over exactly its
   * bytes; one that strtod consumes entirely is read as that Float.
   */
  lemma ReadOtherToken(text: seq<char>, pre: seq<char>, tok: seq<char>, rest: seq<char>, floatParse: seq<char> -> Option<FloatBits>)
    requires text == pre + tok + rest && AllSpace(pre) && Delimits(rest)
    requires Word(tok)
    requires tok != "true" && tok != "false" && !IsIntLiteral(tok)
    ensures Readable(text, 0)
    ensures ReadAtom(text, 0, floatParse).end == |pre| + |tok|
    ensures ReadAtom(text, 0, floatParse).atom ==
      match floatParse(tok)
      case Some(d) => Some(FloatAtom(d))
      case None => Some(SymbolAtom(tok))
  {
    ReadIntToken(text, pre, tok, rest, floatParse);
    ReadToken(text, pre, tok, rest, floatParse);
  }

  /** The tokens true and false read as the Bools true and false. */
  lemma ReadBoolToken(text: seq<char>, pre: seq<char>, b: bool, rest: seq<char>, floatParse: seq<char> -> Option<FloatBits>)
    requires text == pre + (if b then "true" else "false") + rest && AllSpace(pre) && Delimits(rest)
    ensures Readable(text, 0)
    ensures ReadAtom(text, 0, floatParse) == Scan(Some(BoolAtom(b)), |pre| + (if b then 4 else 5))
  {
    ReadToken(text, pre, if b then "true" else "false", rest, floatParse);
  }

  /** Every quote in a literal's body is escaped, and the body does not end in a backslash. */
  predicate LiteralBody(body: seq<char>)
  {
    (forall x :: 0 <= x < |body| && body[x] == '"' ==> 0 < x && body[x - 1] == '\\') &&
    (body != [] ==> body[|body| - 1] != '\\')
  }

  /**
   * A string literal reads as a String holding exactly the bytes between
   * its quotes, backslashes included, and the read ends after the closing quote.
   */
  lemma ReadStringLiteral(text: seq<char>, pre: seq<char>, body: seq<char>, rest: seq<char>, floatParse: seq<char> -> Option<FloatBits>)
    requires text == pre + ['"'] + body + ['"'] + rest && AllSpace(pre) && LiteralBody(body)
    ensures Readable(text, 0)
    ensures ReadAtom(text, 0, floatParse) == Scan(Some(StringAtom(body)), |pre| + |body| + 2)
  {
    var s := |pre|;
    assert forall k :: 0 <= k < |pre| ==> text[k] == pre[k];
    assert text[s] == '"';
    SpaceEndAt(text, 0, s);
    assert text[s + 1..s + 1 + |body|] == body;
    assert text[s + 1 + |body|] == '"';
    LiteralCloses(text, s, body);
  }

  /** The first unescaped quote after an opening quote is the one right after a literal body. */
  lemma LiteralCloses(text: seq<char>, s: nat, body: seq<char>)
    requires s + 2 + |body| <= |text| && text[s] == '"' && text[s + 1 + |body|] == '"'
    requires text[s + 1..s + 1 + |body|] == body && LiteralBody(body)
    ensures ClosedFrom(text, s + 1) && CloseFrom(text, s + 1) == s + 1 + |body|
  {
    forall x | s + 1 <= x < s + 1 + |body| ensures !ClosesAt(text, x) {
      assert text[x] == body[x - s - 1];
      if text[x] == '"' && x > s + 1 {
        assert text[x - 1] == body[x - s - 2];
      }
    }
    if body != [] {
      assert text[s + |body|] == body[|body| - 1];
    }
    CloseFromAt(text, s + 1, s + 1 + |body|);
  }

  // The inputs of test_parsing_atoms (src/llgc.c:473-508).
  const BlankInput: seq<char> := ""
  const SymInput: seq<char> := "sym"
  const PaddedSymInput: seq<char> := " \n " + "xxx" + "  "
  const LongSymInput: seq<char> := "a_really_long_sym98"
  const StrInput: seq<char> := ['"'] + "a str" + ['"']
  const EscapedBody: seq<char> := "a long string with escaped " + ['\\', '"'] + " str"
  const EscapedStrInput: seq<char> := ['"'] + EscapedBody + ['"']
  const TrueInput: seq<char> := "true"
  const FalseInput: seq<char> := " " + "false" + " "
  const IntInput: seq<char> := "\t " + "523" + " "
  const NegIntInput: seq<char> := "\r " + "-8635" + " "
  const FloatInput: seq<char> := "\r " + "4.25" + " "
  const ExpFloatInput: seq<char> := "\r " + "-6.75e2" + " "

  /** The test_parsing_atoms check on empty input: NULL. */
  lemma ParsingBlank(floatParse: seq<char> -> Option<FloatBits>)
    ensures Readable(BlankInput, 0) && ReadAtom(BlankInput, 0, floatParse).atom == None
  {
    ReadBlank(BlankInput, 0, floatParse);
  }

  /** The test_parsing_atoms check on a short symbol, for a strtod that rejects it. */
  lemma ParsingSymbol(floatParse: seq<char> -> Option<FloatBits>)
    requires floatParse("sym") == None
    ensures Readable(SymInput, 0) && ReadAtom(SymInput, 0, floatParse).atom == Some(SymbolAtom("sym"))
  {
    NotLiteral("sym", 1);
    assert SymInput == [] + "sym" + [];
    ReadOtherToken(SymInput, [], "sym", [], floatParse);
  }

  /** The test_parsing_atoms check on a symbol between white space. */
  lemma ParsingPaddedSymbol(floatParse: seq<char> -> Option<FloatBits>)
    requires floatParse("xxx") == None
    ensures Readable(PaddedSymInput, 0) && ReadAtom(PaddedSymInput, 0, floatParse).atom == Some(SymbolAtom("xxx"))
  {
    NotLiteral("xxx", 1);
    ReadOtherToken(PaddedSymInput, " \n ", "xxx", "  ", floatParse);
  }

  /** The test_parsing_atoms check on a symbol too long to be stored inline. */
  lemma ParsingLongSymbol(floatParse: seq<char> -> Option<FloatBits>)
    requires floatParse("a_really_long_sym98") == None
    ensures Readable(LongSymInput, 0)
    ensures ReadAtom(LongSymInput, 0, floatParse).atom == Some(SymbolAtom("a_really_long_sym98"))
  {
    var tok := "a_really_long_sym98";
    LongSymbolWord();
    assert LongSymInput == [] + tok + [];
    ReadOtherToken(LongSymInput, [], tok, [], floatParse);
  }

  /** The test_parsing_atoms checks on string literals, one with an escaped quote inside. */
  lemma ParsingStrings(floatParse: seq<char> -> Option<FloatBits>)
    ensures Readable(StrInput, 0) && ReadAtom(StrInput, 0, floatParse).atom == Some(StringAtom("a str"))
    ensures Readable(EscapedStrInput, 0)
    ensures ReadAtom(EscapedStrInput, 0, floatParse).atom == Some(StringAtom(EscapedBody))
  {
    assert StrInput == [] + ['"'] + "a str" + ['"'] + [];
    ReadStringLiteral(StrInput, [], "a str", [], floatParse);
    EscapedQuoteBody("a long string with escaped ", " str");
    assert EscapedStrInput == [] + ['"'] + EscapedBody + ['"'] + [];
    ReadStringLiteral(EscapedStrInput, [], EscapedBody, [], floatParse);
  }

  /** A body whose only quote is escaped by the backslash before it. */
  lemma EscapedQuoteBody(a: seq<char>, b: seq<char>)
    requires '"' !in a && '"' !in b && b != [] && b[|b| - 1] != '\\'
    ensures LiteralBody(a + ['\\', '"'] + b)
  {
    var body := a + ['\\', '"'] + b;
    forall x | 0 <= x < |body| && body[x] == '"' ensures 0 < x && body[x - 1] == '\\' {
    }
  }

  /** The test_parsing_atoms checks on Bools. */
  lemma ParsingBools(floatParse: seq<char> -> Option<FloatBits>)
    ensures Readable(TrueInput, 0) && ReadAtom(TrueInput, 0, floatParse).atom == Some(BoolAtom(true))
    ensures Readable(FalseInput, 0) && ReadAtom(FalseInput, 0, floatParse).atom == Some(BoolAtom(false))
  {
    assert TrueInput == [] + "true" + [];
    ReadBoolToken(TrueInput, [], true, [], floatParse);
    ReadBoolToken(FalseInput, " ", false, " ", floatParse);
  }

  /** The test_parsing_atoms check on a positive Int. */
  lemma ParsingInt(floatParse: seq<char> -> Option<FloatBits>)
    ensures Readable(IntInput, 0) && ReadAtom(IntInput, 0, floatParse).atom == Some(IntAtom(523))
  {
    assert Digits(5) == "5";
    assert Digits(52) == "52";
    assert Decimal(523) == "523";
    ReadDecimal(IntInput, "\t ", 523, " ", floatParse);
  }

  /** The test_parsing_atoms check on a negative Int. */
  lemma ParsingNegativeInt(floatParse: seq<char> -> Option<FloatBits>)
    ensures Readable(NegIntInput, 0) && ReadAtom(NegIntInput, 0, floatParse).atom == Some(IntAtom(-8635))
  {
    assert Digits(8) == "8";
    assert Digits(86) == "86";
    assert Digits(863) == "863";
    assert Digits(8635) == "8635";
    assert Decimal(-8635) == "-8635";
    ReadDecimal(NegIntInput, "\r ", -8635, " ", floatParse);
  }

  /**
   * The test_parsing_atoms checks on Floats, where strtod is taken to produce the
   * IEEE-754 doubles 4.25 and -675 for the two tokens.
   */
  lemma ParsingFloats(floatParse: seq<char> -> Option<FloatBits>)
    requires floatParse("4.25") == Some(0x4011_0000_0000_0000)
    requires floatParse("-6.75e2") == Some(0xC085_1800_0000_0000)
    ensures Readable(FloatInput, 0) && ReadAtom(FloatInput, 0, floatParse).atom == Some(FloatAtom(0x4011_0000_0000_0000))
    ensures Readable(ExpFloatInput, 0) && ReadAtom(ExpFloatInput, 0, floatParse).atom == Some(FloatAtom(0xC085_1800_0000_0000))
  {
    FloatWords();
    ReadOtherToken(FloatInput, "\r ", "4.25", " ", floatParse);
    ReadOtherToken(ExpFloatInput, "\r ", "-6.75e2", " ", floatParse);
  }

  lemma FloatWords()
    ensures Word("4.25") && !IsIntLiteral("4.25")
    ensures Word("-6.75e2") && !IsIntLiteral("-6.75e2")
  {
    NotLiteral("4.25", 1);
    NotLiteral("-6.75e2", 2);
  }

  lemma LongSymbolWord()
    ensures Word("a_really_long_sym98") && !IsIntLiteral("a_really_long_sym98")
  {
    NotLiteral("a_really_long_sym98", 1);
  }

  /** A token whose first non-sign character is not a digit is no integer literal. */
  lemma NotLiteral(tok: seq<char>, x: nat)
    requires 0 < x < |tok| && !IsDigit(tok[x])
    ensures !IsIntLiteral(tok)
  {
  }
}
