/**
 * Character classes used by the text pipeline and by the server's file-name
 * check, restricted to ASCII.  Python's `\s`, `str.split()`, `str.strip()` and
 * `str.isspace()` all agree on one whitespace class; its ASCII part is
 * TAB..CR (9..13), the four separators 28..31, and SPACE (32).
 */
module Chars {

  /** Python's whitespace class, ASCII part. */
  predicate IsSpace(c: char) {
    9 <= c as int <= 13 || 28 <= c as int <= 32
  }

  /** Regex `\w`, ASCII part: letters, digits and underscore. */
  predicate IsWordChar(c: char) {
    ('a' <= c <= 'z') || ('A' <= c <= 'Z') || ('0' <= c <= '9') || c == '_'
  }

  /** `string.punctuation`: the 32 ASCII punctuation characters. */
  predicate IsPunctuation(c: char) {
    (33 <= c as int <= 47) || (58 <= c as int <= 64) || (91 <= c as int <= 96) || (123 <= c as int <= 126)
  }

  /** ASCII `str.lower()` on one character. */
  function LowerChar(c: char): (r: char)
    ensures 'A' <= c <= 'Z' ==> 'a' <= r <= 'z' && r as int == c as int + 32
    ensures !('A' <= c <= 'Z') ==> r == c
  {
    if 'A' <= c <= 'Z' then (c as int + 32) as char else c
  }

  /** ASCII `str.lower()`. */
  function Lower(s: string): (r: string)
    ensures |r| == |s|
    ensures forall i {:trigger r[i]} :: 0 <= i < |s| ==> r[i] == LowerChar(s[i])
  {
    seq(|s|, i requires 0 <= i < |s| => LowerChar(s[i]))
  }

  /** Lower-casing twice is lower-casing once. */
  lemma LowerIdempotent(s: string)
    ensures Lower(Lower(s)) == Lower(s)
  {
  }
}
