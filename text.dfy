/** Strings as sequences of characters: substring occurrence and lower-casing. */
module Text {

  /** `pattern` is found in `text` starting at index `i`. */
  predicate MatchesAt(text: string, pattern: string, i: int)
  {
    0 <= i && i + |pattern| <= |text| && text[i..i + |pattern|] == pattern
  }

  /** `text.includes(pattern)`: some start index holds a copy of `pattern`. */
  predicate Occurs(text: string, pattern: string)
  {
    exists i :: 0 <= i <= |text| - |pattern| && MatchesAt(text, pattern, i)
  }

  /** `toLowerCase` on one character, restricted to the ASCII letters. */
  function LowerChar(c: char): (lc: char)
  {
    if 'A' <= c <= 'Z' then (c as int + 32) as char else c
  }

  /** `toLowerCase` on a string, character by character. */
  function Lower(s: string): (lowered: string)
  {
    seq(|s|, i requires 0 <= i < |s| => LowerChar(s[i]))
  }
}
