/**
 Text primitives the result pipeline relies on: Python's substring test
 (`sub in s`) and the first line of a text as Python's `str.splitlines()[0]`
 yields it.
 */
module Strings {

  // ---------------------------------------------------------------------------
  // Substrings
  // ---------------------------------------------------------------------------

  /** `sub` occurs in `s` starting at position `i`. */
  ghost predicate OccursAt(s: string, sub: string, i: int)
  {
    0 <= i && i + |sub| <= |s| && s[i..i + |sub|] == sub
  }

  /** Python's `sub in s`: `sub` occurs somewhere in `s` (the empty string occurs everywhere). */
  predicate Contains(s: string, sub: string): (b: bool)
    ensures sub <= s ==> b
    ensures b ==> |sub| <= |s|
    decreases |s|
  {
    sub <= s || (|s| > 0 && Contains(s[1..], sub))
  }

  /** The executable test agrees with the positional definition, in both directions. */
  lemma {:induction false} ContainsIffOccurs(s: string, sub: string)
    ensures Contains(s, sub) <==> exists i :: OccursAt(s, sub, i)
    decreases |s|
  {
    if sub <= s {
      assert OccursAt(s, sub, 0);
    } else if |s| == 0 {
    } else {
      ContainsIffOccurs(s[1..], sub);
      if Contains(s[1..], sub) {
        var j :| OccursAt(s[1..], sub, j);
        assert s[1..][j..j + |sub|] == s[j + 1..j + 1 + |sub|];
        assert OccursAt(s, sub, j + 1);
      } else {
        assert forall i :: OccursAt(s, sub, i) ==> i == 0 || OccursAt(s[1..], sub, i - 1);
      }
    }
  }

  /** A text that contains `sub` still contains it with anything put around it. */
  lemma ContainsInContext(a: string, s: string, b: string, sub: string)
    requires Contains(s, sub)
    ensures Contains(a + s + b, sub)
  {
    ContainsIffOccurs(s, sub);
    var i :| OccursAt(s, sub, i);
    assert (a + s + b)[|a| + i..|a| + i + |sub|] == s[i..i + |sub|];
    assert OccursAt(a + s + b, sub, |a| + i);
    ContainsIffOccurs(a + s + b, sub);
  }

  /** A text contains every text it ends with. */
  lemma ContainsOwnSuffix(a: string, s: string)
    ensures Contains(a + s, s)
  {
    ContainsInContext(a, s, [], s);
    assert a + s + [] == a + s;
  }

  /** Whatever a prefix of a text contains, the whole text contains. */
  lemma ContainsFromPrefix(p: string, s: string, sub: string)
    requires p <= s && Contains(p, sub)
    ensures Contains(s, sub)
  {
  }

  // ---------------------------------------------------------------------------
  // Lines
  // ---------------------------------------------------------------------------

  /** The characters at which Python's `str.splitlines` ends a line. */
  predicate IsLineBreak(c: char)
  {
    || c == '\n'          // line feed
    || c == '\r'          // carriage return (also the first half of "\r\n")
    || c == '\U{000B}'    // line tabulation
    || c == '\U{000C}'    // form feed
    || c == '\U{001C}'    // file separator
    || c == '\U{001D}'    // group separator
    || c == '\U{001E}'    // record separator
    || c == '\U{0085}'    // next line
    || c == '\U{2028}'    // line separator
    || c == '\U{2029}'    // paragraph separator
  }

  /** `s` is a single line: no character of it ends a line. */
  predicate IsOneLine(s: string)
  {
    forall i :: 0 <= i < |s| ==> !IsLineBreak(s[i])
  }

  /** `line` is what `s.splitlines()[0]` gives: the longest break-free prefix of `s`. */
  ghost predicate IsFirstLineOf(line: string, s: string)
  {
    && line <= s
    && IsOneLine(line)
    && (|line| == |s| || IsLineBreak(s[|line|]))
  }

  /** The characters of `s` before its first line break (all of `s` if it has none). */
  function LineHead(s: string): (line: string)
    ensures IsFirstLineOf(line, s)
  {
    if |s| == 0 || IsLineBreak(s[0]) then
      []
    else
      [s[0]] + LineHead(s[1..])
  }

  /** Python's `s.splitlines()[0]`; the empty text has no lines, so indexing it fails. */
  function FirstLine(s: string): (line: string)
    requires |s| > 0
    ensures IsFirstLineOf(line, s)
  {
    LineHead(s)
  }

  /** There is exactly one first line: the characterisation and the function agree both ways. */
  lemma FirstLineUnique(line: string, s: string)
    requires |s| > 0
    ensures IsFirstLineOf(line, s) <==> line == FirstLine(s)
  {
  }

  /** A break-free line followed by a line break and anything else has that line as its first line. */
  lemma FirstLineOfBrokenText(line: string, brk: char, rest: string)
    requires IsOneLine(line) && IsLineBreak(brk)
    ensures FirstLine(line + [brk] + rest) == line
  {
    var s := line + [brk] + rest;
    assert line <= s;
    FirstLineUnique(line, s);
  }

  /** A text without line breaks is its own first line. */
  lemma FirstLineOfOneLine(s: string)
    requires |s| > 0 && IsOneLine(s)
    ensures FirstLine(s) == s
  {
  }
}
