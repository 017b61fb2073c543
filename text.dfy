/** Character classes and the few string operations the engine relies on:
    Python's whitespace test (used by `str.rstrip` and by `\s`), the ASCII
    digit and word classes, trailing-whitespace removal and substring search. */
module Text {

  /** `str.isspace` on one character: the ASCII separators and controls
      U+0009..U+000D and U+001C..U+001F, the space, and the Unicode spaces.
      No whitespace character is a word character or a decimal point, so a
      greedy `\s+` never has to give a character back to what follows it. */
  predicate IsSpace(c: char)
    ensures IsSpace(c) ==> !IsWordChar(c) && c != '.'
  {
    || ('\t' <= c <= '\r')
    || ('\U{1C}' <= c <= '\U{1F}')
    || c == ' '
    || c == '\U{85}'
    || c == '\U{A0}'
    || c == '\U{1680}'
    || ('\U{2000}' <= c <= '\U{200A}')
    || c == '\U{2028}'
    || c == '\U{2029}'
    || c == '\U{202F}'
    || c == '\U{205F}'
    || c == '\U{3000}'
  }

  /** `\d`, restricted to the ASCII digits. */
  predicate IsDigit(c: char) {
    '0' <= c <= '9'
  }

  /** `\w`, restricted to ASCII letters, digits and the underscore. */
  predicate IsWordChar(c: char) {
    IsDigit(c) || ('a' <= c <= 'z') || ('A' <= c <= 'Z') || c == '_'
  }

  /** Every character of `s` is in class `p`. */
  predicate All(s: string, p: char -> bool) {
    forall i :: 0 <= i < |s| ==> p(s[i])
  }

  /** `s.rstrip()`: `s` without its trailing whitespace. */
  function RStrip(s: string): (r: string)
    ensures |r| <= |s| && r == s[..|r|]
    ensures r == [] || !IsSpace(r[|r| - 1])
    ensures forall i :: |r| <= i < |s| ==> IsSpace(s[i])
  {
    if |s| > 0 && IsSpace(s[|s| - 1]) then RStrip(s[..|s| - 1]) else s
  }

  /** `pat` occurs in `s` starting at index `i`. */
  predicate OccursAt(pat: string, s: string, i: nat) {
    i + |pat| <= |s| && s[i..i + |pat|] == pat
  }

  /** `pat` occurs in `s` as a contiguous substring. */
  ghost predicate Occurs(pat: string, s: string) {
    exists i: nat :: OccursAt(pat, s, i)
  }

  /** Python's `pat in s` for strings (the empty pattern occurs everywhere). */
  function Contains(s: string, pat: string): (r: bool)
    ensures r <==> Occurs(pat, s)
    decreases |s|
  {
    if |pat| > |s| then false
    else if s[..|pat|] == pat then assert OccursAt(pat, s, 0); true
    else
      var rest := Contains(s[1..], pat);
      if rest then
        var i: nat :| OccursAt(pat, s[1..], i);
        assert OccursAt(pat, s, i + 1);
        true
      else
        assert forall i: nat {:trigger OccursAt(pat, s, i)} :: i >= 1 ==> OccursAt(pat, s, i) == OccursAt(pat, s[1..], i - 1);
        false
  }
}
