/** Character classes and case mappings used by the content script.

    JavaScript regular expressions without the `u` flag treat exactly
    `[A-Za-z0-9_]` as word characters for `\b`, and the `i` flag folds only
    ASCII letters onto ASCII letters. `String.prototype.trim` removes the
    ECMAScript WhiteSpace and LineTerminator code points. */
module Chars {

  /** A character that `\b` treats as part of a word. */
  predicate IsWordChar(c: char) {
    ('a' <= c <= 'z') || ('A' <= c <= 'Z') || ('0' <= c <= '9') || c == '_'
  }

  /** ASCII lower-casing of one character; every other character is kept. */
  function LowerChar(c: char): (r: char)
    ensures IsWordChar(r) <==> IsWordChar(c)
    ensures !('A' <= r <= 'Z')
    ensures ('a' <= c <= 'z' || !IsWordChar(c)) ==> r == c
  {
    if 'A' <= c <= 'Z' then (c as int + 32) as char else c
  }

  /** ASCII lower-casing of a string, character by character. */
  function Lower(s: string): (r: string)
    ensures |r| == |s|
    ensures forall i :: 0 <= i < |s| ==> r[i] == LowerChar(s[i])
  {
    if s == [] then [] else [LowerChar(s[0])] + Lower(s[1..])
  }

  /** A string without ASCII capitals is its own lower-cased form. */
  lemma LowerKeeps(s: string)
    requires forall i :: 0 <= i < |s| ==> !('A' <= s[i] <= 'Z')
    ensures Lower(s) == s
  {
  }

  /** `String.prototype.toLowerCase` on an element's tag name, as far as it
      decides membership in an all-ASCII list of names: ASCII capitals map to
      small letters, and U+212A KELVIN SIGN maps to `k`. Every other
      non-ASCII character lower-cases to something that still contains a
      non-ASCII character, so it cannot complete an ASCII name either way. */
  function TagLowerChar(c: char): (r: char)
    ensures 'a' <= r <= 'z' ==> ('a' <= c <= 'z' || 'A' <= c <= 'Z' || c == '\U{212A}')
  {
    if c == '\U{212A}' then 'k' else LowerChar(c)
  }

  function TagLower(s: string): (r: string)
    ensures |r| == |s|
    ensures forall i :: 0 <= i < |s| ==> r[i] == TagLowerChar(s[i])
  {
    if s == [] then [] else [TagLowerChar(s[0])] + TagLower(s[1..])
  }

  /** A code point that `trim` removes: ECMAScript WhiteSpace (tab, vertical
      tab, form feed, space, no-break space, byte order mark and the
      space separators) and LineTerminator. */
  predicate IsJsSpace(c: char) {
    || c == '\U{0009}' || c == '\U{000A}' || c == '\U{000B}' || c == '\U{000C}'
    || c == '\U{000D}' || c == '\U{0020}' || c == '\U{00A0}' || c == '\U{1680}'
    || ('\U{2000}' <= c <= '\U{200A}')
    || c == '\U{2028}' || c == '\U{2029}' || c == '\U{202F}' || c == '\U{205F}'
    || c == '\U{3000}' || c == '\U{FEFF}'
  }

  /** `s.trim()` is the empty string. */
  predicate IsBlank(s: string) {
    forall i :: 0 <= i < |s| ==> IsJsSpace(s[i])
  }

  lemma SpaceIsNotWordChar(c: char)
    requires IsJsSpace(c)
    ensures !IsWordChar(c)
  {
  }
}
