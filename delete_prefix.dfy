/**
 * DeleteInSuggestionPrefix: the filter Lookup applies before it computes a
 * distance.  A candidate delete can only come from a suggestion whose
 * indexed prefix contains the delete as a subsequence.
 */
module DeletePrefix {

  /** d is a subsequence of s: d is s with some characters deleted. */
  predicate IsSubsequence(d: string, s: string)
    decreases |s|
  {
    d == [] || (s != [] && ((d[0] == s[0] && IsSubsequence(d[1..], s[1..])) || IsSubsequence(d, s[1..])))
  }

  /**
   * d matches s when a position of s may be used by several characters in a
   * row: each character of d is found at or after the position where the
   * previous one was found.
   */
  predicate MatchesWithReuse(d: string, s: string)
    decreases |d| + |s|
  {
    d == [] || (s != [] && (if d[0] == s[0] then MatchesWithReuse(d[1..], s) else MatchesWithReuse(d, s[1..])))
  }

  /** Dropping the first character of d keeps it a subsequence. */
  lemma {:induction false} SubsequenceTail(d: string, s: string)
    requires d != [] && IsSubsequence(d, s)
    ensures IsSubsequence(d[1..], s)
    decreases |s|
  {
    if d[1..] != [] {
      if d[0] == s[0] && IsSubsequence(d[1..], s[1..]) {
        SubsequenceSkip(d[1..], s);
      } else {
        SubsequenceTail(d, s[1..]);
        SubsequenceSkip(d[1..], s);
      }
    }
  }

  /** A subsequence of s[1..] is a subsequence of s. */
  lemma SubsequenceSkip(d: string, s: string)
    requires s != [] && IsSubsequence(d, s[1..])
    ensures IsSubsequence(d, s)
  {
  }

  /** Matching the first character at the first position is never a wrong choice. */
  lemma GreedyMatch(d: string, s: string)
    requires d != [] && s != [] && d[0] == s[0]
    ensures IsSubsequence(d, s) <==> IsSubsequence(d[1..], s[1..])
  {
    if IsSubsequence(d, s[1..]) {
      SubsequenceTail(d, s[1..]);
    }
  }

  /** Every subsequence matches with reuse: the weaker test lets it through. */
  lemma {:induction false} SubsequenceMatches(d: string, s: string)
    requires IsSubsequence(d, s)
    ensures MatchesWithReuse(d, s)
    decreases |d| + |s|
  {
    if d != [] {
      if d[0] == s[0] {
        GreedyMatch(d, s);
        SubsequenceMatches(d[1..], s[1..]);
        ReuseSkip(d[1..], s);
      } else {
        SubsequenceMatches(d, s[1..]);
      }
    }
  }

  /** Matching with reuse in s[1..] implies matching in s. */
  lemma {:induction false} ReuseSkip(d: string, s: string)
    requires s != [] && MatchesWithReuse(d, s[1..])
    ensures MatchesWithReuse(d, s)
    decreases |d| + |s|
  {
    if d != [] && d[0] == s[0] {
      ReuseTail(d, s[1..]);
      ReuseSkip(d[1..], s);
    }
  }

  /** Dropping the first character of d keeps it matching with reuse. */
  lemma {:induction false} ReuseTail(d: string, t: string)
    requires d != [] && MatchesWithReuse(d, t)
    ensures MatchesWithReuse(d[1..], t)
    decreases |d| + |t|
  {
    if d[0] != t[0] {
      ReuseTail(d, t[1..]);
      ReuseSkip(d[1..], t);
    }
  }

  /** The indexed part of a suggestion: its first prefixLength characters. */
  function SuggestionPrefix(suggestion: string, prefixLength: int): (r: string)
    requires prefixLength >= 1
    ensures |r| <= prefixLength && |r| <= |suggestion| && r == suggestion[..|r|]
    ensures |r| == prefixLength || r == suggestion
  {
    if prefixLength < |suggestion| then suggestion[..prefixLength] else suggestion
  }

  /**
   * DeleteInSuggestionPrefix as written: after a character of the delete is
   * found, j stays on the matching position, so the next character may
   * match the same position again.
   */
  method DeleteInSuggestionPrefixAsWritten(deleteSugg: string, suggestion: string, prefixLength: int) returns (r: bool)
    requires prefixLength >= 1
    ensures r <==> MatchesWithReuse(deleteSugg, SuggestionPrefix(suggestion, prefixLength))
  {
    if |deleteSugg| == 0 {
      return true;
    }
    var suggestionLen := |suggestion|;
    if prefixLength < suggestionLen {
      suggestionLen := prefixLength;
    }
    ghost var p := SuggestionPrefix(suggestion, prefixLength);
    var j := 0;
    for i := 0 to |deleteSugg|
      invariant 0 <= j < suggestionLen || (i == 0 && j == 0)
      invariant MatchesWithReuse(deleteSugg[i..], p[j..]) == MatchesWithReuse(deleteSugg, p)
    {
      var delChar := deleteSugg[i];
      while j < suggestionLen && delChar != suggestion[j]
        invariant 0 <= j <= suggestionLen
        invariant MatchesWithReuse(deleteSugg[i..], p[j..]) == MatchesWithReuse(deleteSugg, p)
      {
        assert p[j..][1..] == p[j + 1..];
        j := j + 1;
      }
      if j == suggestionLen {
        return false;
      }
      assert deleteSugg[i..][1..] == deleteSugg[i + 1..];
    }
    return true;
  }

  /**
   * DeleteInSuggestionPrefix with the index advanced past each match: true
   * exactly when the delete is a subsequence of the suggestion's prefix.
   */
  method DeleteInSuggestionPrefix(deleteSugg: string, suggestion: string, prefixLength: int) returns (r: bool)
    requires prefixLength >= 1
    ensures r <==> IsSubsequence(deleteSugg, SuggestionPrefix(suggestion, prefixLength))
  {
    if |deleteSugg| == 0 {
      return true;
    }
    var suggestionLen := |suggestion|;
    if prefixLength < suggestionLen {
      suggestionLen := prefixLength;
    }
    ghost var p := SuggestionPrefix(suggestion, prefixLength);
    var j := 0;
    for i := 0 to |deleteSugg|
      invariant 0 <= j <= suggestionLen
      invariant IsSubsequence(deleteSugg[i..], p[j..]) == IsSubsequence(deleteSugg, p)
    {
      var delChar := deleteSugg[i];
      while j < suggestionLen && delChar != suggestion[j]
        invariant 0 <= j <= suggestionLen
        invariant IsSubsequence(deleteSugg[i..], p[j..]) == IsSubsequence(deleteSugg, p)
      {
        assert p[j..][1..] == p[j + 1..];
        j := j + 1;
      }
      if j == suggestionLen {
        return false;
      }
      GreedyMatch(deleteSugg[i..], p[j..]);
      assert deleteSugg[i..][1..] == deleteSugg[i + 1..];
      assert p[j..][1..] == p[j + 1..];
      j := j + 1;
    }
    return true;
  }

  /** The two differ: "aa" matches "ab" with reuse but is no subsequence of it. */
  lemma ReuseAcceptsNonSubsequence()
    ensures MatchesWithReuse("aa", "ab") && !IsSubsequence("aa", "ab")
  {
    assert "aa"[1..] == "a" && "ab"[1..] == "b";
    assert !IsSubsequence("a", "b") by {
      assert "b"[1..] == [];
    }
    assert !IsSubsequence("aa", "b") by {
      assert "b"[1..] == [];
    }
  }
}
