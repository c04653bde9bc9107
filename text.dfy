/**
 The string operations the event store relies on: trimming white space and line
 breaks from both ends of a title, and case-insensitive substring search.
 Foundation's versions are Unicode- and locale-aware; these are the fixed,
 locale-independent approximations described with each function.
 */
module Text {

  /**
   Membership in `CharacterSet.whitespacesAndNewlines`: the Unicode space, line and
   paragraph separators (general category Z), the control characters U+0009 to U+000D,
   and NEXT LINE (U+0085).
   */
  predicate IsWhitespaceOrNewline(c: char)
  {
    || c == ' '
    || ('\t' <= c <= '\r')
    || c == '\U{85}'
    || c == '\U{A0}'
    || c == '\U{1680}'
    || ('\U{2000}' <= c <= '\U{200A}')
    || c == '\U{2028}'
    || c == '\U{2029}'
    || c == '\U{202F}'
    || c == '\U{205F}'
    || c == '\U{3000}'
  }

  /** Every character of `s` is white space or a line break. */
  predicate AllWhitespace(s: string)
  {
    forall k :: 0 <= k < |s| ==> IsWhitespaceOrNewline(s[k])
  }

  /** The length of the longest all-white-space prefix of `s`. */
  function LeadingWhitespace(s: string): (n: nat)
    ensures n <= |s|
    ensures AllWhitespace(s[..n])
    ensures n < |s| ==> !IsWhitespaceOrNewline(s[n])
  {
    if s != [] && IsWhitespaceOrNewline(s[0]) then 1 + LeadingWhitespace(s[1..]) else 0
  }

  /** The length of the longest all-white-space suffix of `s`. */
  function TrailingWhitespace(s: string): (n: nat)
    ensures n <= |s|
    ensures AllWhitespace(s[|s| - n..])
    ensures n < |s| ==> !IsWhitespaceOrNewline(s[|s| - 1 - n])
  {
    if s != [] && IsWhitespaceOrNewline(s[|s| - 1]) then
      var m := TrailingWhitespace(s[..|s| - 1]);
      assert s[|s| - (m + 1)..] == s[..|s| - 1][|s| - 1 - m..] + [s[|s| - 1]];
      m + 1
    else
      0
  }

  /**
   `s.trimmingCharacters(in: .whitespacesAndNewlines)`: `s` without its leading and
   trailing white space. The result is a contiguous piece of `s`, everything cut off
   is white space, and the result neither starts nor ends with white space.
   */
  function Trim(s: string): (r: string)
    ensures |r| <= |s|
    ensures r == [] <==> AllWhitespace(s)
    ensures r != [] ==> !IsWhitespaceOrNewline(r[0]) && !IsWhitespaceOrNewline(r[|r| - 1])
    ensures exists i :: (0 <= i <= |s| - |r| && r == s[i..i + |r|]
                         && AllWhitespace(s[..i]) && AllWhitespace(s[i + |r|..]))
  {
    var lead := LeadingWhitespace(s);
    if lead == |s| then
      assert s[..lead] == s;
      assert s[0..0] == [] && s[..0] == [] && s[0..] == s;
      []
    else
      var trail := TrailingWhitespace(s);
      assert trail <= |s| - 1 - lead;
      var r := s[lead..|s| - trail];
      assert r[0] == s[lead];
      assert r[|r| - 1] == s[|s| - 1 - trail];
      assert r == s[lead..lead + |r|];
      assert !AllWhitespace(s) by { assert !IsWhitespaceOrNewline(s[lead]); }
      r
  }

  /** Trimming a trimmed string changes nothing. */
  lemma TrimIdempotent(s: string)
    ensures Trim(Trim(s)) == Trim(s)
  {
  }

  /** ASCII case folding of one character: `A` to `Z` become `a` to `z`. */
  function FoldChar(c: char): (d: char)
    ensures 'A' <= c <= 'Z' ==> 'a' <= d <= 'z'
    ensures !('A' <= c <= 'Z') ==> d == c
  {
    if 'A' <= c <= 'Z' then (c as int - 'A' as int + 'a' as int) as char else c
  }

  /** ASCII case folding of a string, character by character. */
  function Fold(s: string): (r: string)
    ensures |r| == |s|
    ensures forall k :: 0 <= k < |s| ==> r[k] == FoldChar(s[k])
  {
    seq(|s|, k requires 0 <= k < |s| => FoldChar(s[k]))
  }

  /** Folding is idempotent: a folded string has no upper-case ASCII letters left. */
  lemma FoldIdempotent(s: string)
    ensures Fold(Fold(s)) == Fold(s)
  {
  }

  /** Folding commutes with taking a slice. */
  lemma FoldSlice(s: string, i: nat, j: nat)
    requires i <= j <= |s|
    ensures Fold(s)[i..j] == Fold(s[i..j])
  {
  }

  /** `t` occurs in `s` starting at position `i`. */
  predicate OccursAt(s: string, t: string, i: int)
  {
    0 <= i <= |s| - |t| && s[i..i + |t|] == t
  }

  /** Substring search, scanning `s` from the front. */
  function Contains(s: string, t: string): (b: bool)
    decreases |s|
  {
    (|t| <= |s| && s[..|t|] == t) || (s != [] && Contains(s[1..], t))
  }

  /** `Contains` finds `t` exactly when `t` occurs somewhere in `s`. */
  lemma {:induction false} ContainsIffOccurs(s: string, t: string)
    ensures Contains(s, t) <==> exists i :: OccursAt(s, t, i)
    decreases |s|
  {
    if |t| <= |s| && s[..|t|] == t {
      assert OccursAt(s, t, 0);
    } else if s != [] {
      ContainsIffOccurs(s[1..], t);
      if Contains(s[1..], t) {
        var i :| OccursAt(s[1..], t, i);
        assert s[i + 1..i + 1 + |t|] == s[1..][i..i + |t|];
        assert OccursAt(s, t, i + 1);
      } else {
        forall i | OccursAt(s, t, i) ensures false {
          assert i != 0;
          assert s[1..][i - 1..i - 1 + |t|] == s[i..i + |t|];
          assert OccursAt(s[1..], t, i - 1);
        }
      }
    }
  }

  /**
   `title.localizedCaseInsensitiveContains(query)`, with ASCII case folding in place
   of locale-aware comparison. Foundation reports that no string contains the empty
   string, so an empty query matches nothing. A match is an occurrence of the folded
   query somewhere in the folded title.
   */
  predicate MatchesIgnoringCase(title: string, query: string): (b: bool)
    ensures b <==> query != [] && exists i :: OccursAt(Fold(title), Fold(query), i)
    ensures b ==> |query| <= |title|
  {
    ContainsIffOccurs(Fold(title), Fold(query));
    query != [] && Contains(Fold(title), Fold(query))
  }

  /** A title matches a query if the query occurs in it verbatim. */
  lemma ExactOccurrenceMatches(title: string, query: string, i: int)
    requires query != [] && OccursAt(title, query, i)
    ensures MatchesIgnoringCase(title, query)
  {
    FoldSlice(title, i, i + |query|);
    assert OccursAt(Fold(title), Fold(query), i);
    ContainsIffOccurs(Fold(title), Fold(query));
  }

  /** Matching does not depend on the ASCII case of either the title or the query. */
  lemma MatchingIgnoresCase(title: string, query: string)
    ensures MatchesIgnoringCase(Fold(title), query) == MatchesIgnoringCase(title, query)
    ensures MatchesIgnoringCase(title, Fold(query)) == MatchesIgnoringCase(title, query)
  {
    FoldIdempotent(title);
    FoldIdempotent(query);
  }
}
