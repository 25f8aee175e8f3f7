/** Byte strings as C reads them: a char pointer names the bytes up to the first NUL. */
module CText {

  const NUL: char := '\0'

  /** The C string starting at the first byte of s. */
  function CString(s: seq<char>): (r: seq<char>)
    ensures |r| <= |s| && r == s[..|r|]
    ensures NUL !in r
    ensures |r| < |s| ==> s[|r|] == NUL
  {
    if s == [] || s[0] == NUL then [] else [s[0]] + CString(s[1..])
  }

  /** Eight bytes of an object's payload word cleared to zero, or any other run of NULs. */
  function Zeros(n: nat): (z: seq<char>)
    ensures |z| == n && forall k :: 0 <= k < n ==> z[k] == NUL
  {
    seq(n, _ => NUL)
  }

  /** Whatever follows the first NUL is invisible through a C string. */
  lemma {:induction false} CStringTerminated(t: seq<char>, rest: seq<char>)
    requires rest != [] && rest[0] == NUL
    ensures CString(t + rest) == CString(t)
  {
    if t != [] && t[0] != NUL {
      assert (t + rest)[1..] == t[1..] + rest;
      CStringTerminated(t[1..], rest);
    }
  }

  /** Bytes without a NUL read back as exactly those bytes. */
  lemma CStringPlain(t: seq<char>)
    requires NUL !in t
    ensures CString(t) == t
  {
  }

  /** Short text stored in a cleared eight-byte word reads back as itself. */
  lemma InlineText(text: seq<char>)
    requires |text| <= 7
    ensures CString(text + Zeros(8 - |text|)) == CString(text)
  {
    CStringTerminated(text, Zeros(8 - |text|));
  }

  /** The byte a char pointer at position i sees: past the end of the text lies its NUL terminator. */
  function At(s: seq<char>, i: nat): (c: char)
    ensures i < |s| ==> c == s[i]
    ensures i >= |s| ==> c == NUL
    ensures NUL !in s ==> (c == NUL <==> i >= |s|)
  {
    if i < |s| then s[i] else NUL
  }
}
