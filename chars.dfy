/**
 The character-level operations the program borrows from Python's `str`:
 lower-casing, the whitespace test used by `str.split()`, and the
 `string.ascii_lowercase` constant used to filter the report.
 */
module Chars {

  /** `string.ascii_lowercase`. */
  const AsciiLowercase: string := "abcdefghijklmnopqrstuvwxyz"

  predicate IsAsciiUpper(c: char) {
    'A' <= c <= 'Z'
  }

  /** `str.lower()` on one character, restricted to ASCII case mapping. */
  function Lower(c: char): (r: char)
    ensures !IsAsciiUpper(r)
    ensures IsAsciiUpper(c) ==> r as int == c as int + 32
    ensures !IsAsciiUpper(c) ==> r == c
  {
    if IsAsciiUpper(c) then (c as int + 32) as char else c
  }

  /** `text.lower()`: every character is mapped on its own, so the length is kept. */
  function LowerText(s: string): (r: string)
    ensures |r| == |s|
    ensures forall i :: 0 <= i < |s| ==> r[i] == Lower(s[i])
  {
    if s == [] then [] else [Lower(s[0])] + LowerText(s[1..])
  }

  /** Lower-casing twice is lower-casing once. */
  lemma LowerTextIdempotent(s: string)
    ensures LowerText(LowerText(s)) == LowerText(s)
  {
  }

  /** No upper-case ASCII letter survives lower-casing. */
  lemma LowerTextHasNoUpper(s: string)
    ensures forall c :: c in LowerText(s) ==> !IsAsciiUpper(c)
  {
  }

  /** Membership in `ascii_lowercase` is the range test 'a'..'z'. */
  lemma AsciiLowercaseIsRange(c: char)
    ensures c in AsciiLowercase <==> 'a' <= c <= 'z'
  {
    if 'a' <= c <= 'z' {
      var i := c as int - 'a' as int;
      assert AsciiLowercase[i] == c;
    }
  }

  /**
   The characters `str.split()` with no argument treats as separators:
   those for which Python's `str.isspace()` holds.
   */
  predicate IsSpace(c: char) {
    || ('\t' <= c <= '\r')
    || ('\U{1C}' <= c <= '\U{1F}')
    || c == ' '
    || c == '\U{85}'
    || c == '\U{A0}'
    || c == '\U{1680}'
    || ('\U{2000}' <= c <= '\U{200A}')
    || c == '\U{2028}'
    || c == '\U{2029}'
    || c == '\U{202F}'
    || c == '\U{205F}'
    || c == '\U{3000}'
  }
}
