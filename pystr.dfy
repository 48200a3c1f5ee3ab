/**
  The three Python string builtins the mood detector relies on:
  `str.strip()` (only to test for blank input), `str.lower()` and the
  substring test `w in s`. Strings are sequences of Unicode scalar values.
 */
module PyStr {

  /** Python's `str.isspace` for a single character: the characters that a
      bare `str.strip()` removes. */
  predicate IsSpace(c: char) {
    || ('\t' <= c <= '\r')              // tab, line feed, vertical tab, form feed, carriage return
    || ('\U{1C}' <= c <= '\U{1F}')      // file, group, record and unit separators
    || c == ' '
    || c == '\U{85}' || c == '\U{A0}' || c == '\U{1680}'
    || ('\U{2000}' <= c <= '\U{200A}')
    || c == '\U{2028}' || c == '\U{2029}' || c == '\U{202F}' || c == '\U{205F}' || c == '\U{3000}'
  }

  /** Among ASCII characters the whitespace is exactly the ten control and
      blank characters listed here, and no whitespace character lies beyond
      the ideographic space U+3000. */
  lemma SpaceCharacters(c: char)
    ensures c as int < 0x80 ==> (IsSpace(c) <==> c in "\t\n\U{B}\U{C}\r\U{1C}\U{1D}\U{1E}\U{1F} ")
    ensures IsSpace(c) ==> c as int <= 0x3000
  {
  }

  /** Every character of `s` is whitespace (vacuously so for the empty string). */
  ghost predicate AllSpace(s: string) {
    forall i :: 0 <= i < |s| ==> IsSpace(s[i])
  }

  /** Removes the leading whitespace: the result is the suffix of `s` that
      starts at its first non-whitespace character. */
  function StripLeading(s: string): (r: string)
    ensures |r| <= |s| && r == s[|s| - |r|..]
    ensures r == [] || !IsSpace(r[0])
    ensures forall i :: 0 <= i < |s| - |r| ==> IsSpace(s[i])
  {
    if s != [] && IsSpace(s[0]) then StripLeading(s[1..]) else s
  }

  /** Removes the trailing whitespace: the result is the prefix of `s` that
      ends at its last non-whitespace character. */
  function StripTrailing(s: string): (r: string)
    ensures |r| <= |s| && r == s[..|r|]
    ensures r == [] || !IsSpace(r[|r| - 1])
    ensures forall i :: |r| <= i < |s| ==> IsSpace(s[i])
  {
    if s != [] && IsSpace(s[|s| - 1]) then StripTrailing(s[..|s| - 1]) else s
  }

  /** Python's `s.strip()` with no argument: a contiguous block of `s`
      that is empty exactly when `s` is empty or all whitespace, and that
      otherwise starts and ends with a non-whitespace character. */
  function Strip(s: string): (r: string)
    ensures exists k :: OccursAt(s, r, k)
    ensures r == [] <==> AllSpace(s)
    ensures r != [] ==> !IsSpace(r[0]) && !IsSpace(r[|r| - 1])
  {
    var r := StripTrailing(StripLeading(s));
    StripIsBlock(s);
    StripEmptyIffAllSpace(s);
    StripEndsSolid(s);
    assert OccursAt(s, r, |s| - |StripLeading(s)|);
    r
  }

  /** A prefix of a suffix of `s` is a block of `s`. */
  lemma PrefixOfSuffix(s: string, tail: string, r: string)
    requires |tail| <= |s| && tail == s[|s| - |tail|..]
    requires |r| <= |tail| && r == tail[..|r|]
    ensures OccursAt(s, r, |s| - |tail|)
  {
    assert s[|s| - |tail|..][..|r|] == s[|s| - |tail|..|s| - |tail| + |r|];
  }

  /** The stripped text is the block of `s` after the leading whitespace. */
  lemma StripIsBlock(s: string)
    ensures OccursAt(s, StripTrailing(StripLeading(s)), |s| - |StripLeading(s)|)
  {
    PrefixOfSuffix(s, StripLeading(s), StripTrailing(StripLeading(s)));
  }

  /** The stripped text is empty exactly when `s` is all whitespace. */
  lemma StripEmptyIffAllSpace(s: string)
    ensures StripTrailing(StripLeading(s)) == [] <==> AllSpace(s)
  {
  }

  /** A non-empty stripped text starts and ends with non-whitespace. */
  lemma StripEndsSolid(s: string)
    ensures var r := StripTrailing(StripLeading(s)); r != [] ==> !IsSpace(r[0]) && !IsSpace(r[|r| - 1])
  {
    var lead := StripLeading(s);
    var r := StripTrailing(lead);
    if r != [] {
      assert r[0] == lead[0];
    }
  }

  /** Stripping is idempotent. */
  lemma StripIdempotent(s: string)
    ensures Strip(Strip(s)) == Strip(s)
  {
  }

  predicate IsAsciiUpper(c: char) {
    'A' <= c <= 'Z'
  }

  /** ASCII case folding of one character. */
  function LowerChar(c: char): char {
    if IsAsciiUpper(c) then (c as int - 'A' as int + 'a' as int) as char else c
  }

  /** Python's `s.lower()`, restricted to ASCII letters: the result has the
      length of `s` and holds no upper-case ASCII letter. */
  function Lower(s: string): (r: string)
    ensures |r| == |s|
    ensures forall i :: 0 <= i < |r| ==> !IsAsciiUpper(r[i])
  {
    seq(|s|, i requires 0 <= i < |s| => LowerChar(s[i]))
  }

  /** Lowering leaves a string that has no upper-case letter unchanged. */
  lemma LowerFixesLowercase(s: string)
    requires forall i :: 0 <= i < |s| ==> !IsAsciiUpper(s[i])
    ensures Lower(s) == s
  {
  }

  /** Lowering twice is lowering once. */
  lemma LowerIdempotent(s: string)
    ensures Lower(Lower(s)) == Lower(s)
  {
  }

  /** Two strings that differ at most in the case of their letters. */
  predicate SameUpToCase(a: string, b: string) {
    |a| == |b| && forall i :: 0 <= i < |a| ==> LowerChar(a[i]) == LowerChar(b[i])
  }

  /** Strings that differ only in letter case lower to the same string. */
  lemma SameUpToCaseLower(a: string, b: string)
    requires SameUpToCase(a, b)
    ensures Lower(a) == Lower(b)
  {
  }

  /** `w` occurs in `s` as a contiguous block that starts at index `i`. */
  ghost predicate OccursAt(s: string, w: string, i: int) {
    0 <= i && i + |w| <= |s| && s[i..i + |w|] == w
  }

  /** A word whose first two characters disagree with `s` at `i` does not
      occur there. */
  lemma MismatchAt(s: string, w: string, i: int)
    requires 2 <= |w| && 0 <= i && i + |w| <= |s|
    requires s[i] != w[0] || s[i + 1] != w[1]
    ensures !OccursAt(s, w, i)
  {
    assert s[i..i + |w|][0] == s[i] && s[i..i + |w|][1] == s[i + 1];
  }

  /** Python's substring test `w in s`: scans `s` for a position where `w`
      starts. There is no word-boundary condition. The empty word is found
      in every text, every text is found in itself, and a word longer than
      the text is never found. */
  function Contains(s: string, w: string): (b: bool)
    ensures w == [] ==> b
    ensures w == s ==> b
    ensures b ==> |w| <= |s|
    decreases |s|
  {
    if |w| > |s| then false
    else if s[..|w|] == w then true
    else Contains(s[1..], w)
  }

  /** The scan finds `w` exactly when `w` occurs somewhere in `s`. */
  lemma {:induction false} ContainsIff(s: string, w: string)
    ensures Contains(s, w) <==> exists i :: OccursAt(s, w, i)
    decreases |s|
  {
    if |w| > |s| {
    } else if s[..|w|] == w {
      assert OccursAt(s, w, 0);
    } else {
      ContainsIff(s[1..], w);
      if Contains(s[1..], w) {
        var i :| OccursAt(s[1..], w, i);
        assert s[i + 1..i + 1 + |w|] == s[1..][i..i + |w|];
        assert OccursAt(s, w, i + 1);
      } else {
        forall i | OccursAt(s, w, i) ensures false {
          assert s[1..][i - 1..i - 1 + |w|] == s[i..i + |w|];
          assert OccursAt(s[1..], w, i - 1);
        }
      }
    }
  }
}
