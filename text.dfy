/**
 * String helpers shared by the upload validator, the file-name sanitiser and the
 * title search: ASCII lower-casing (Python's str.lower() and SQLite's case-insensitive
 * LIKE agree on ASCII letters), "text after the last occurrence of a character"
 * (str.rsplit(c, 1)[1] and os.path.basename), and substring containment.
 */
module Text {

  function LowerChar(c: char): (r: char)
    ensures 'A' <= c <= 'Z' ==> 'a' <= r <= 'z'
    ensures !('A' <= c <= 'Z') ==> r == c
  {
    if 'A' <= c <= 'Z' then (c as int + 32) as char else c
  }

  function Lower(s: string): (r: string)
    ensures |r| == |s|
    ensures forall i :: 0 <= i < |s| ==> r[i] == LowerChar(s[i])
  {
    seq(|s|, i requires 0 <= i < |s| => LowerChar(s[i]))
  }

  /** Lower-cases a literal: name the expected result and check it character by character. */
  lemma LowerExample(s: string, t: string)
    requires |s| == |t| && forall i :: 0 <= i < |s| ==> LowerChar(s[i]) == t[i]
    ensures Lower(s) == t
  {
  }

  /** The text after the last `c` in `s`, or all of `s` when `c` does not occur. */
  function AfterLast(s: string, c: char): (r: string)
    ensures |r| <= |s| && r == s[|s| - |r|..]
    ensures c !in r
    ensures c in s ==> |r| < |s| && s[|s| - |r| - 1] == c
    ensures c !in s ==> r == s
  {
    if s == [] then []
    else if s[|s| - 1] == c then []
    else
      var init := s[..|s| - 1];
      assert s == init + [s[|s| - 1]];
      AfterLast(init, c) + [s[|s| - 1]]
  }

  /** A suffix of `s` that is free of `c` and is preceded by a `c` is the text after the last `c`. */
  lemma {:induction false} AfterLastUnique(s: string, c: char, t: string)
    requires |t| < |s| && s[|s| - |t|..] == t && c !in t && s[|s| - |t| - 1] == c
    ensures AfterLast(s, c) == t
  {
    var r := AfterLast(s, c);
    assert c in s by { assert s[|s| - |t| - 1] == c; }
    assert |r| == |t|;
  }

  predicate OccursAt(needle: string, haystack: string, i: int)
  {
    0 <= i && i + |needle| <= |haystack| && haystack[i..i + |needle|] == needle
  }

  predicate IsSubstring(needle: string, haystack: string)
  {
    exists i | 0 <= i <= |haystack| :: OccursAt(needle, haystack, i)
  }

  /** SQL `title ILIKE '%q%'` read as a plain case-insensitive substring test. */
  predicate ContainsIgnoringCase(text: string, query: string)
  {
    IsSubstring(Lower(query), Lower(text))
  }

  lemma EmptyQueryMatchesEverything(text: string)
    ensures ContainsIgnoringCase(text, "")
  {
    assert OccursAt(Lower(""), Lower(text), 0);
  }
}
