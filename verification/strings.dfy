/** String helpers with the meaning JavaScript gives them: `trim`,
    `toLowerCase` (ASCII letters only) and `includes`. */
module Strings {

  /** The code points `String.prototype.trim` removes: the ECMAScript
      WhiteSpace and LineTerminator characters. */
  predicate IsWhitespace(c: char) {
    || c == '\t' || c == '\n' || c == '\U{B}' || c == '\U{C}' || c == '\r'
    || c == ' ' || c == '\U{A0}' || c == '\U{1680}'
    || ('\U{2000}' <= c <= '\U{200A}')
    || c == '\U{2028}' || c == '\U{2029}' || c == '\U{202F}' || c == '\U{205F}'
    || c == '\U{3000}' || c == '\U{FEFF}'
  }

  /** Every character of `s` is whitespace (the empty string included). */
  predicate IsBlank(s: string) {
    forall i :: 0 <= i < |s| ==> IsWhitespace(s[i])
  }

  /** Drops leading whitespace: the result is a suffix of `s` that does not
      start with whitespace, and everything dropped was whitespace. */
  function TrimStart(s: string): (r: string)
    ensures |r| <= |s| && r == s[|s| - |r|..]
    ensures IsBlank(s[..|s| - |r|])
    ensures |r| > 0 ==> !IsWhitespace(r[0])
    decreases |s|
  {
    if |s| > 0 && IsWhitespace(s[0]) then TrimStart(s[1..]) else s
  }

  /** Drops trailing whitespace: the result is a prefix of `s` that does not
      end with whitespace, and everything dropped was whitespace. */
  function TrimEnd(s: string): (r: string)
    ensures |r| <= |s| && r == s[..|r|]
    ensures IsBlank(s[|r|..])
    ensures |r| > 0 ==> !IsWhitespace(r[|r| - 1])
    decreases |s|
  {
    if |s| > 0 && IsWhitespace(s[|s| - 1]) then TrimEnd(s[..|s| - 1]) else s
  }

  /** `s.trim()`: the stretch of `s` that starts after its leading
      whitespace and is followed only by whitespace. It is empty exactly
      when `s` is blank; otherwise it neither starts nor ends with
      whitespace. */
  function Trim(s: string): (r: string)
    ensures |r| <= |s|
    ensures r == "" <==> IsBlank(s)
    ensures |r| > 0 ==> !IsWhitespace(r[0]) && !IsWhitespace(r[|r| - 1])
    ensures LeadingBlanks(s) + |r| <= |s|
    ensures r == s[LeadingBlanks(s)..LeadingBlanks(s) + |r|]
    ensures IsBlank(s[LeadingBlanks(s) + |r|..])
  {
    var t := TrimStart(s);
    var r := TrimEnd(t);
    TrimFacts(s, t, r);
    r
  }

  /** How many whitespace characters `s` starts with: all of the first `k`
      are whitespace, and the next one, if any, is not. */
  function LeadingBlanks(s: string): (k: nat)
    ensures k <= |s| && IsBlank(s[..k])
    ensures k < |s| ==> !IsWhitespace(s[k])
  {
    var t := TrimStart(s);
    if |t| > 0 then
      assert s[|s| - |t|] == t[0];
      |s| - |t|
    else
      |s| - |t|
  }

  /** `Trim`'s postconditions, from the contracts of the two halves. */
  lemma TrimFacts(s: string, t: string, r: string)
    requires |t| <= |s| && t == s[|s| - |t|..] && IsBlank(s[..|s| - |t|])
    requires |t| > 0 ==> !IsWhitespace(t[0])
    requires |r| <= |t| && r == t[..|r|] && IsBlank(t[|r|..])
    requires |r| > 0 ==> !IsWhitespace(r[|r| - 1])
    ensures r == "" <==> IsBlank(s)
    ensures |r| > 0 ==> !IsWhitespace(r[0]) && !IsWhitespace(r[|r| - 1])
    ensures |s| - |t| + |r| <= |s|
    ensures r == s[|s| - |t|..|s| - |t| + |r|]
    ensures IsBlank(s[|s| - |t| + |r|..])
  {
    TrimmedEmptyIffBlank(s, t, r);
    TrimmedIsSlice(s, t, r);
    if |r| > 0 {
      assert r[0] == t[0];
    }
  }

  /** The proof step behind `Trim`'s last postcondition: what is left is
      the stretch between the two dropped blank ends. */
  lemma TrimmedIsSlice(s: string, t: string, r: string)
    requires |t| <= |s| && t == s[|s| - |t|..] && IsBlank(s[..|s| - |t|])
    requires |r| <= |t| && r == t[..|r|] && IsBlank(t[|r|..])
    ensures r == s[|s| - |t|..|s| - |t| + |r|]
    ensures IsBlank(s[|s| - |t| + |r|..])
  {
    var i := |s| - |t|;
    assert r == s[i..i + |r|];
    assert t[|r|..] == s[i + |r|..];
  }

  /** The proof step behind `Trim`'s second postcondition. */
  lemma TrimmedEmptyIffBlank(s: string, t: string, r: string)
    requires |t| <= |s| && t == s[|s| - |t|..] && IsBlank(s[..|s| - |t|])
    requires |t| > 0 ==> !IsWhitespace(t[0])
    requires |r| <= |t| && r == t[..|r|] && IsBlank(t[|r|..])
    ensures r == "" <==> IsBlank(s)
  {
    if |t| > 0 {
      assert s[|s| - |t|] == t[0];
    }
    if r == "" {
      assert t[|r|..] == t;
      assert |t| == 0;
      assert s[..|s| - |t|] == s;
    }
  }

  /** ASCII `toLowerCase` of one character. */
  function LowerChar(c: char): char {
    if 'A' <= c <= 'Z' then (c as int + 32) as char else c
  }

  /** `s.toLowerCase()`, restricted to ASCII letters: each capital becomes
      its small letter, every other character is kept, the result has no
      upper-case ASCII letter and lower-casing it again changes nothing. */
  function Lower(s: string): (r: string)
    ensures |r| == |s|
    ensures forall i :: 0 <= i < |s| && 'A' <= s[i] <= 'Z' ==> r[i] == (s[i] as int + 32) as char
    ensures forall i :: 0 <= i < |r| ==> !('A' <= r[i] <= 'Z')
    ensures forall i :: 0 <= i < |r| ==> LowerChar(r[i]) == r[i]
    ensures forall i :: 0 <= i < |s| && !('A' <= s[i] <= 'Z') ==> r[i] == s[i]
  {
    seq(|s|, i requires 0 <= i < |s| => LowerChar(s[i]))
  }

  /** Lower-casing twice is lower-casing once. */
  lemma LowerIdempotent(s: string)
    ensures Lower(Lower(s)) == Lower(s)
  {
    assert forall i :: 0 <= i < |s| ==> Lower(Lower(s))[i] == Lower(s)[i];
  }

  /** `needle` occurs in `hay` starting at position `i`. */
  ghost predicate OccursAt(hay: string, needle: string, i: int) {
    0 <= i && i + |needle| <= |hay| && hay[i..i + |needle|] == needle
  }

  /** `hay.includes(needle)`: true exactly when `needle` occurs somewhere in
      `hay`; the empty needle occurs everywhere. */
  function Contains(hay: string, needle: string): (r: bool)
    ensures r <==> exists i :: OccursAt(hay, needle, i)
    decreases |hay|
  {
    if |needle| > |hay| then
      NoOccurrenceWhenLonger(hay, needle);
      false
    else if hay[..|needle|] == needle then
      assert OccursAt(hay, needle, 0);
      true
    else
      var rest := Contains(hay[1..], needle);
      ShiftOccurrence(hay, needle);
      rest
  }

  /** One step of `Contains` past a position where the needle does not
      start. */
  lemma ContainsStep(hay: string, needle: string)
    requires |needle| <= |hay| && hay[..|needle|] != needle
    ensures Contains(hay, needle) == Contains(hay[1..], needle)
  {
  }

  lemma NoOccurrenceWhenLonger(hay: string, needle: string)
    requires |needle| > |hay|
    ensures !exists i :: OccursAt(hay, needle, i)
  {
  }

  /** Outside position 0, the occurrences in `hay` are those in `hay[1..]`
      moved one place right. */
  lemma ShiftOccurrence(hay: string, needle: string)
    requires |needle| <= |hay| && hay[..|needle|] != needle
    ensures (exists i :: OccursAt(hay, needle, i)) <==> (exists j :: OccursAt(hay[1..], needle, j))
  {
    if exists i :: OccursAt(hay, needle, i) {
      var i :| OccursAt(hay, needle, i);
      assert i != 0;
      assert hay[1..][i - 1..i - 1 + |needle|] == hay[i..i + |needle|];
      assert OccursAt(hay[1..], needle, i - 1);
    }
    if exists j :: OccursAt(hay[1..], needle, j) {
      var j :| OccursAt(hay[1..], needle, j);
      assert hay[1..][j..j + |needle|] == hay[j + 1..j + 1 + |needle|];
      assert OccursAt(hay, needle, j + 1);
    }
  }
}
