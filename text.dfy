/**
  Rust's `str::trim`, which is `trim_matches(char::is_whitespace)`: drop the
  longest prefix and the longest suffix of characters that match a pattern.
  The trimming functions and their lemmas are stated for any pattern; `Trim`
  is the instance for `IsWhitespace`, the Unicode White_Space property.
 */
module Text {

  /** The characters with the Unicode White_Space property. */
  const WhiteSpace: set<char> := {
    '\t', '\n', '\U{B}', '\U{C}', '\r', ' ', '\U{85}', '\U{A0}', '\U{1680}',
    '\U{2000}', '\U{2001}', '\U{2002}', '\U{2003}', '\U{2004}', '\U{2005}',
    '\U{2006}', '\U{2007}', '\U{2008}', '\U{2009}', '\U{200A}',
    '\U{2028}', '\U{2029}', '\U{202F}', '\U{205F}', '\U{3000}'
  }

  /** `char::is_whitespace`. */
  predicate IsWhitespace(c: char) {
    c in WhiteSpace
  }

  /**
    Among the ASCII characters the whitespace is tab, line feed, vertical
    tab, form feed, carriage return and space; the zero-width space U+200B
    and the byte-order mark U+FEFF are not whitespace.
   */
  lemma WhitespaceCharacters(c: char)
    ensures c < '\U{80}' ==> (IsWhitespace(c) <==> c == '\t' || c == '\n' || c == '\U{B}' || c == '\U{C}' || c == '\r' || c == ' ')
    ensures c == '\U{200B}' || c == '\U{FEFF}' ==> !IsWhitespace(c)
  {
  }

  /** True when every character of s matches (so that trimming leaves nothing). */
  predicate AllMatch(s: string, pat: char -> bool) {
    forall k :: 0 <= k < |s| ==> pat(s[k])
  }

  /** True when every character of s is whitespace. */
  predicate AllWhitespace(s: string) {
    AllMatch(s, IsWhitespace)
  }

  /** `str::trim_start_matches`: the suffix left after the leading matches. */
  function TrimStartMatches(s: string, pat: char -> bool): (r: string)
    ensures |r| <= |s| && r == s[|s| - |r|..]
    ensures forall k :: 0 <= k < |s| - |r| ==> pat(s[k])
    ensures r != [] ==> !pat(r[0])
    decreases |s|
  {
    if s != [] && pat(s[0]) then TrimStartMatches(s[1..], pat) else s
  }

  /** `str::trim_end_matches`: the prefix left before the trailing matches. */
  function TrimEndMatches(s: string, pat: char -> bool): (r: string)
    ensures |r| <= |s| && r == s[..|r|]
    ensures forall k :: |r| <= k < |s| ==> pat(s[k])
    ensures r != [] ==> !pat(r[|r| - 1])
    decreases |s|
  {
    if s != [] && pat(s[|s| - 1]) then TrimEndMatches(s[..|s| - 1], pat) else s
  }

  /** `str::trim_matches`: both ends trimmed. */
  function TrimMatches(s: string, pat: char -> bool): (r: string)
    ensures r == [] <==> AllMatch(s, pat)
    ensures r != [] ==> !pat(r[0]) && !pat(r[|r| - 1])
  {
    var t := TrimStartMatches(s, pat);
    var r := TrimEndMatches(t, pat);
    assert r != [] ==> r[0] == t[0];
    r
  }

  /** `str::trim`. */
  function Trim(s: string): (r: string)
    ensures r == [] <==> AllWhitespace(s)
    ensures r != [] ==> !IsWhitespace(r[0]) && !IsWhitespace(r[|r| - 1])
  {
    TrimMatches(s, IsWhitespace)
  }

  /**
    s[i..j] is a trimming of s: everything outside it matches, and a
    non-empty s[i..j] neither starts nor ends with a match.
   */
  ghost predicate IsTrimming(s: string, pat: char -> bool, i: int, j: int) {
    && 0 <= i <= j <= |s|
    && (forall k :: 0 <= k < i ==> pat(s[k]))
    && (forall k :: j <= k < |s| ==> pat(s[k]))
    && (i < j ==> !pat(s[i]) && !pat(s[j - 1]))
  }

  /** Where the part that `TrimMatches` keeps starts in its input. */
  function TrimOffset(s: string, pat: char -> bool): (i: nat)
    ensures i <= |s|
  {
    |s| - |TrimStartMatches(s, pat)|
  }

  /** `TrimMatches` keeps a contiguous part of its input. */
  lemma TrimIsSlice(s: string, pat: char -> bool)
    ensures TrimOffset(s, pat) + |TrimMatches(s, pat)| <= |s|
    ensures TrimMatches(s, pat) == s[TrimOffset(s, pat)..TrimOffset(s, pat) + |TrimMatches(s, pat)|]
  {
    var t := TrimStartMatches(s, pat);
    var r := TrimMatches(s, pat);
    assert r == t[..|r|];
  }

  /** The part that `TrimMatches` keeps is a trimming. */
  lemma TrimIsTrimming(s: string, pat: char -> bool)
    ensures IsTrimming(s, pat, TrimOffset(s, pat), TrimOffset(s, pat) + |TrimMatches(s, pat)|)
  {
    TrimIsSlice(s, pat);
    var t := TrimStartMatches(s, pat);
    var r := TrimMatches(s, pat);
    var i := TrimOffset(s, pat);
    var j := i + |r|;
    MatchesShift(s, pat, i, |r|);
    assert i < j ==> s[i] == r[0] && s[j - 1] == r[|r| - 1];
  }

  /** Matches from position m on in the suffix s[i..] are matches from i + m on in s. */
  lemma MatchesShift(s: string, pat: char -> bool, i: nat, m: nat)
    requires i + m <= |s|
    requires forall k :: m <= k < |s| - i ==> pat(s[i..][k])
    ensures forall k :: i + m <= k < |s| ==> pat(s[k])
  {
    forall k | i + m <= k < |s| ensures pat(s[k]) {
      assert s[k] == s[i..][k - i];
    }
  }

  /** Every trimming of s is the one `TrimMatches` returns: it is fixed by the trimming property alone. */
  lemma TrimmingIsUnique(s: string, pat: char -> bool, i: int, j: int)
    requires IsTrimming(s, pat, i, j)
    ensures s[i..j] == TrimMatches(s, pat)
  {
    TrimIsSlice(s, pat);
    TrimIsTrimming(s, pat);
    var i' := TrimOffset(s, pat);
    var j' := i' + |TrimMatches(s, pat)|;
    if i < j {
      // s[i] is the first and s[j - 1] the last character that does not match.
      assert i' < j' <==> exists k :: 0 <= k < |s| && !pat(s[k]);
      assert i == i' && j == j';
    } else {
      assert AllMatch(s, pat);
    }
  }

  /** A string is the matches that trimming drops in front, what it keeps, and the matches it drops behind. */
  lemma TrimSplit(s: string, pat: char -> bool) returns (lead: string, trail: string)
    ensures s == lead + TrimMatches(s, pat) + trail
    ensures AllMatch(lead, pat) && AllMatch(trail, pat)
  {
    var t := TrimStartMatches(s, pat);
    var r := TrimEndMatches(t, pat);
    lead, trail := s[..|s| - |t|], t[|r|..];
    Rejoin(s, |s| - |t|);
    Rejoin(t, |r|);
    OutsideMatches(s, pat, |s| - |t|, |s|);
    OutsideMatches(t, pat, 0, |r|);
    assert r == TrimMatches(s, pat);
    Associate(lead, r, trail);
  }

  /** Joining three strings does not depend on which two are joined first. */
  lemma Associate(a: string, b: string, c: string)
    ensures a + b + c == a + (b + c)
  {
  }

  /** Cutting a string in two and joining the halves again gives it back. */
  lemma Rejoin(s: string, n: nat)
    requires n <= |s|
    ensures s[..n] + s[n..] == s
  {
  }

  /** When everything before i and from j on matches, those two parts cut out on their own match throughout. */
  lemma OutsideMatches(s: string, pat: char -> bool, i: nat, j: nat)
    requires i <= j <= |s|
    requires forall k :: 0 <= k < i ==> pat(s[k])
    requires forall k :: j <= k < |s| ==> pat(s[k])
    ensures AllMatch(s[..i], pat) && AllMatch(s[j..], pat)
  {
    forall k | 0 <= k < |s| - j ensures pat(s[j..][k]) {
      assert s[j..][k] == s[j + k];
    }
  }

  /** Trimming is idempotent. */
  lemma TrimIdempotent(s: string, pat: char -> bool)
    ensures TrimMatches(TrimMatches(s, pat), pat) == TrimMatches(s, pat)
  {
    var r := TrimMatches(s, pat);
    assert r[0..|r|] == r;
    TrimmingIsUnique(r, pat, 0, |r|);
  }
}
