/**
 * The string primitives the content script and the popup rely on:
 * `toLowerCase` (ASCII letters only), `includes` (contiguous substring
 * containment) and the white-space class `\s` of JavaScript regular
 * expressions, which `trim` strips as well.
 */
module Text {

  /** Lower-cases an ASCII capital letter; every other character is unchanged. */
  function LowerChar(c: char): (r: char)
    ensures 'A' <= c <= 'Z' ==> 'a' <= r <= 'z' && r as int - c as int == 'a' as int - 'A' as int
    ensures !('A' <= c <= 'Z') ==> r == c
  {
    if 'A' <= c <= 'Z' then (c as int - 'A' as int + 'a' as int) as char else c
  }

  /** `s.toLowerCase()`, restricted to ASCII letters. */
  function Lower(s: string): (r: string)
    ensures |r| == |s|
    ensures forall i :: 0 <= i < |s| ==> r[i] == LowerChar(s[i])
  {
    seq(|s|, i requires 0 <= i < |s| => LowerChar(s[i]))
  }

  /** `w` occurs in `t` as a contiguous block starting at position `i`. */
  ghost predicate OccursAt(w: string, t: string, i: int)
  {
    0 <= i && i + |w| <= |t| && t[i..i + |w|] == w
  }

  /** `w` occurs somewhere in `t` (the empty string occurs in every string). */
  ghost predicate IsSubstring(w: string, t: string)
  {
    exists i :: OccursAt(w, t, i)
  }

  /** `t.includes(w)`: a left-to-right search for `w` in `t`. */
  function Includes(t: string, w: string): (r: bool)
    ensures r <==> IsSubstring(w, t)
    decreases |t|
  {
    if |w| > |t| then
      assert forall i :: !OccursAt(w, t, i);
      false
    else if t[..|w|] == w then
      assert OccursAt(w, t, 0);
      true
    else
      var r := Includes(t[1..], w);
      ShiftOccurrence(w, t);
      r
  }

  /** An occurrence past position 0 of `t` is an occurrence in `t[1..]`, and back. */
  lemma ShiftOccurrence(w: string, t: string)
    requires |w| <= |t| && t[..|w|] != w
    ensures IsSubstring(w, t) <==> IsSubstring(w, t[1..])
  {
    if IsSubstring(w, t) {
      var i :| OccursAt(w, t, i);
      assert i != 0;
      assert t[1..][i - 1..i - 1 + |w|] == t[i..i + |w|];
      assert OccursAt(w, t[1..], i - 1);
    }
    if IsSubstring(w, t[1..]) {
      var i :| OccursAt(w, t[1..], i);
      assert t[1..][i..i + |w|] == t[i + 1..i + 1 + |w|];
      assert OccursAt(w, t, i + 1);
    }
  }

  /**
   * The characters `\s` matches in a JavaScript regular expression (and
   * that `String.prototype.trim` removes): the ECMAScript WhiteSpace and
   * LineTerminator code points.
   */
  predicate IsSpace(c: char)
  {
    || c == ' ' || c == '\t' || c == '\n' || c == '\r'
    || c == '\U{000B}' || c == '\U{000C}'
    || c == '\U{00A0}' || c == '\U{1680}'
    || ('\U{2000}' <= c <= '\U{200A}')
    || c == '\U{2028}' || c == '\U{2029}' || c == '\U{202F}'
    || c == '\U{205F}' || c == '\U{3000}' || c == '\U{FEFF}'
  }

  /** Every character of `s` is white space (the empty string included). */
  predicate Blank(s: string)
  {
    forall i :: 0 <= i < |s| ==> IsSpace(s[i])
  }

  /** No character of `s` is white space. */
  predicate NoSpace(s: string)
  {
    forall i :: 0 <= i < |s| ==> !IsSpace(s[i])
  }
}
