/**
 * The two string operations the plugin relies on: `String.startsWith` and
 * `String.equalsIgnoreCase` of Java. A Dafny `string` is a sequence of Unicode
 * scalar values, whereas a Java string is a sequence of UTF-16 code units; a
 * character outside the Basic Multilingual Plane is one `char` here and two in Java.
 */
module Text {

  /** Java's `s.startsWith(prefix)`: `prefix` is an initial segment of `s`. */
  predicate StartsWith(s: string, prefix: string) {
    prefix <= s
  }

  /**
   * Java's `Character.toUpperCase` on the characters whose upper case is an
   * ASCII letter: `a`..`z`, dotless i (U+0131) and long s (U+017F).
   * Every other character is left as it is.
   */
  function UpperCase(c: char): char {
    if 'a' <= c <= 'z' then (c as int - 32) as char
    else if c == '\U{0131}' then 'I'
    else if c == '\U{017F}' then 'S'
    else c
  }

  /**
   * Java's `Character.toLowerCase` on the characters whose lower case is an
   * ASCII letter: `A`..`Z`, capital I with dot (U+0130) and the Kelvin sign (U+212A).
   */
  function LowerCase(c: char): char {
    if 'A' <= c <= 'Z' then (c as int + 32) as char
    else if c == '\U{0130}' then 'i'
    else if c == '\U{212A}' then 'k'
    else c
  }

  /**
   * The per-character test of Java's `regionMatches(true, ...)`: equal, or equal
   * after upper-casing, or equal after upper- then lower-casing.
   */
  predicate CharEqualsIgnoreCase(a: char, b: char) {
    || a == b
    || UpperCase(a) == UpperCase(b)
    || LowerCase(UpperCase(a)) == LowerCase(UpperCase(b))
  }

  /** Java's `s.equalsIgnoreCase(t)`: same length and pairwise case-insensitive equal characters. */
  predicate EqualsIgnoreCase(s: string, t: string) {
    |s| == |t| && forall i :: 0 <= i < |s| ==> CharEqualsIgnoreCase(s[i], t[i])
  }

  /** The case fold of one character: its lower case after upper-casing. */
  function Fold(c: char): char {
    LowerCase(UpperCase(c))
  }

  /** The case fold of a whole string, character by character. */
  function FoldString(s: string): (r: string)
    ensures |r| == |s|
    ensures forall i :: 0 <= i < |s| ==> r[i] == Fold(s[i])
  {
    if s == [] then [] else [Fold(s[0])] + FoldString(s[1..])
  }

  /** A lower-case ASCII word such as "bedrock", "java" or "all". */
  predicate IsLowerAsciiWord(s: string) {
    forall i :: 0 <= i < |s| ==> 'a' <= s[i] <= 'z'
  }

  /** `equalsIgnoreCase` is equality of case folds. */
  lemma EqualsIgnoreCaseIffFoldsEqual(s: string, t: string)
    ensures EqualsIgnoreCase(s, t) <==> FoldString(s) == FoldString(t)
  {
  }

  /** Folding leaves a lower-case ASCII word unchanged. */
  lemma FoldLowerAsciiWord(s: string)
    requires IsLowerAsciiWord(s)
    ensures FoldString(s) == s
  {
  }

  /** Against a lower-case ASCII word, `equalsIgnoreCase` means "folds to that word". */
  lemma EqualsIgnoreCaseLowerWord(s: string, word: string)
    requires IsLowerAsciiWord(word)
    ensures EqualsIgnoreCase(s, word) <==> FoldString(s) == word
  {
  }
}
