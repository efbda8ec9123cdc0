/**
 * ltrim, rtrim and trim: whitespace (std::isspace) removed from the front,
 * the back, or both ends of a string.
 */
module Trim {
  import opened Chars

  /** s without its leading whitespace: a suffix of s that does not start with a space. */
  function LTrimmed(s: string): (r: string)
    ensures |r| <= |s| && r == s[|s| - |r|..]
    ensures forall k :: 0 <= k < |s| - |r| ==> IsSpace(s[k])
    ensures r != [] ==> !IsSpace(r[0])
  {
    if s != [] && IsSpace(s[0]) then LTrimmed(s[1..]) else s
  }

  /** s without its trailing whitespace: a prefix of s that does not end with a space. */
  function RTrimmed(s: string): (r: string)
    ensures |r| <= |s| && r == s[..|r|]
    ensures forall k :: |r| <= k < |s| ==> IsSpace(s[k])
    ensures r != [] ==> !IsSpace(r[|r| - 1])
  {
    if s != [] && IsSpace(s[|s| - 1]) then RTrimmed(s[..|s| - 1]) else s
  }

  function Trimmed(s: string): string {
    RTrimmed(LTrimmed(s))
  }

  /** ltrim: erases the characters before the first one that is not a space. */
  method LTrim(s: string) returns (r: string)
    ensures r == LTrimmed(s)
  {
    var i := 0;
    while i < |s| && IsSpace(s[i])
      invariant 0 <= i <= |s|
      invariant LTrimmed(s[i..]) == LTrimmed(s)
    {
      assert s[i..][1..] == s[i + 1..];
      i := i + 1;
    }
    r := s[i..];
  }

  /** rtrim: erases the characters after the last one that is not a space. */
  method RTrim(s: string) returns (r: string)
    ensures r == RTrimmed(s)
  {
    var n := |s|;
    while n > 0 && IsSpace(s[n - 1])
      invariant 0 <= n <= |s|
      invariant RTrimmed(s[..n]) == RTrimmed(s)
    {
      assert s[..n][..n - 1] == s[..n - 1];
      n := n - 1;
    }
    r := s[..n];
  }

  /** trim: ltrim, then rtrim. */
  method Trim(s: string) returns (r: string)
    ensures r == Trimmed(s)
  {
    r := LTrim(s);
    r := RTrim(r);
  }

  /** Trimming an already trimmed string changes nothing. */
  lemma TrimIdempotent(s: string)
    ensures Trimmed(Trimmed(s)) == Trimmed(s)
  {
    var l := LTrimmed(s);
    var t := RTrimmed(l);
    if t != [] {
      assert t[0] == l[0];
    }
    assert LTrimmed(t) == t;
    assert RTrimmed(t) == t;
  }
}
