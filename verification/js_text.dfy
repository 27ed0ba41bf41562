/**
 The part of ECMAScript's string library that the roster screen relies on:
 `String.prototype.trim`, used to reject a student name made only of
 white space. Characters are Unicode scalar values; every code point that
 `trim` removes lies in the Basic Multilingual Plane, so the UTF-16 view of
 the language and the code-point view used here agree on it.
 */
module JsText {

  /** The code points `trim` strips: the WhiteSpace production (TAB, VT, FF,
      SPACE, NO-BREAK SPACE, ZERO WIDTH NO-BREAK SPACE and the category Zs
      separators) and the LineTerminator production (LF, CR, LS, PS). */
  predicate IsWhite(c: char) {
    || c == '\U{0009}' || c == '\U{000B}' || c == '\U{000C}' || c == '\U{0020}'
    || c == '\U{00A0}' || c == '\U{FEFF}' || c == '\U{1680}'
    || ('\U{2000}' <= c <= '\U{200A}')
    || c == '\U{202F}' || c == '\U{205F}' || c == '\U{3000}'
    || c == '\U{000A}' || c == '\U{000D}' || c == '\U{2028}' || c == '\U{2029}'
  }

  /** A string each of whose characters is white space (the empty string included). */
  predicate Blank(s: string) {
    forall i :: 0 <= i < |s| ==> IsWhite(s[i])
  }

  /** Drops the white space at the front: the result is the suffix of `s`
      that starts at its first non-white character. */
  function TrimStart(s: string): (r: string)
    ensures |r| <= |s| && r == s[|s| - |r|..]
    ensures r == [] || !IsWhite(r[0])
    ensures Blank(s[..|s| - |r|])
    decreases |s|
  {
    if |s| > 0 && IsWhite(s[0]) then TrimStart(s[1..]) else s
  }

  /** Drops the white space at the back: the result is the prefix of `s`
      that ends at its last non-white character. */
  function TrimEnd(s: string): (r: string)
    ensures |r| <= |s| && r == s[..|r|]
    ensures r == [] || !IsWhite(r[|r| - 1])
    ensures Blank(s[|r|..])
    decreases |s|
  {
    if |s| > 0 && IsWhite(s[|s| - 1]) then TrimEnd(s[..|s| - 1]) else s
  }

  /** `r` sits in `s` at offset `k`, with only white space before and after it. */
  predicate Framed(s: string, r: string, k: int) {
    && 0 <= k <= |s| - |r|
    && s[k..k + |r|] == r
    && Blank(s[..k])
    && Blank(s[k + |r|..])
  }

  /** `String.prototype.trim`: the longest infix of `s` that neither starts
      nor ends with white space, everything around it being white. */
  function Trim(s: string): (r: string)
    ensures r == [] || (!IsWhite(r[0]) && !IsWhite(r[|r| - 1]))
    ensures exists k :: Framed(s, r, k)
  {
    var t := TrimStart(s);
    var r := TrimEnd(t);
    PrefixOfSuffixFramed(s, t, r);
    r
  }

  /** A white-free prefix of a suffix left after a white prefix is framed. */
  lemma PrefixOfSuffixFramed(s: string, t: string, r: string)
    requires |t| <= |s| && t == s[|s| - |t|..] && Blank(s[..|s| - |t|])
    requires |r| <= |t| && r == t[..|r|] && Blank(t[|r|..])
    ensures Framed(s, r, |s| - |t|)
  {
  }

  /** The test `!newStudent.trim()` in `addStudent`: trimming leaves nothing
      exactly when the name is blank. */
  lemma TrimEmptyIffBlank(s: string)
    ensures Trim(s) == [] <==> Blank(s)
  {
  }
}
