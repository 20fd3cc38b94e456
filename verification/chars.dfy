/**
 Character classes used by the sentence-case helper: the three sentence
 terminators of its regular expression, the whitespace set of
 `String.prototype.trim`, and an ASCII model of `toUpperCase` / `toLowerCase`.
 */
module Chars {

  /** The characters of the class `[.!?]`. */
  predicate IsStop(c: char) {
    c == '.' || c == '!' || c == '?'
  }

  /** The characters `trim` removes: ECMAScript WhiteSpace (TAB, VT, FF, SPACE,
      NBSP, ZWNBSP and the Zs category) and LineTerminator (LF, CR, LS, PS). */
  predicate IsWhitespace(c: char) {
    c in Whitespace
  }

  const Whitespace: set<char> := {
    '\t', '\n', '\U{000B}', '\U{000C}', '\r', ' ', '\U{00A0}', '\U{1680}',
    '\U{2000}', '\U{2001}', '\U{2002}', '\U{2003}', '\U{2004}', '\U{2005}',
    '\U{2006}', '\U{2007}', '\U{2008}', '\U{2009}', '\U{200A}',
    '\U{2028}', '\U{2029}', '\U{202F}', '\U{205F}', '\U{3000}', '\U{FEFF}'
  }

  predicate IsUpper(c: char) {
    'A' <= c <= 'Z'
  }

  predicate IsLower(c: char) {
    'a' <= c <= 'z'
  }

  /** ASCII `toUpperCase`: only `a`..`z` change. */
  function ToUpper(c: char): (r: char)
    ensures !IsLower(r)
    ensures !IsLower(c) ==> r == c
    ensures IsLower(c) ==> IsUpper(r)
    ensures IsLower(c) ==> r as int - 'A' as int == c as int - 'a' as int
  {
    if IsLower(c) then (c as int - 32) as char else c
  }

  /** ASCII `toLowerCase`: only `A`..`Z` change. */
  function ToLower(c: char): (r: char)
    ensures !IsUpper(r)
    ensures !IsUpper(c) ==> r == c
    ensures IsUpper(c) ==> IsLower(r)
    ensures IsUpper(c) ==> r as int - 'a' as int == c as int - 'A' as int
  {
    if IsUpper(c) then (c as int + 32) as char else c
  }

  /** No terminator is whitespace. */
  lemma StopNotWhitespace(c: char)
    ensures !(IsStop(c) && IsWhitespace(c))
  {
  }

  /** Changing case never turns a character into, or out of, whitespace or a
      terminator, and both mappings agree once folded to lower case. */
  lemma CaseKeepsClass(c: char)
    ensures IsWhitespace(ToUpper(c)) == IsWhitespace(c)
    ensures IsWhitespace(ToLower(c)) == IsWhitespace(c)
    ensures IsStop(ToUpper(c)) == IsStop(c)
    ensures IsStop(ToLower(c)) == IsStop(c)
    ensures ToLower(ToUpper(c)) == ToLower(c)
    ensures ToLower(ToLower(c)) == ToLower(c)
  {
  }
}
