/** Python's `str.strip(chars)`: removal of the longest leading and trailing
    runs of characters drawn from a set. */
module Text {

  /** The argument of `strip(" -_")` applied to every cleaned name. */
  const TrimChars: set<char> := {' ', '-', '_'}

  /** The characters for which Python's `str.isspace()` holds; `str.strip()`
      without an argument removes exactly these. */
  const PyWhitespace: set<char> := {
    '\t', '\n', '\U{000B}', '\U{000C}', '\r',
    '\U{001C}', '\U{001D}', '\U{001E}', '\U{001F}', ' ',
    '\U{0085}', '\U{00A0}', '\U{1680}',
    '\U{2000}', '\U{2001}', '\U{2002}', '\U{2003}', '\U{2004}', '\U{2005}',
    '\U{2006}', '\U{2007}', '\U{2008}', '\U{2009}', '\U{200A}',
    '\U{2028}', '\U{2029}', '\U{202F}', '\U{205F}', '\U{3000}'
  }

  /** Every character of `s` belongs to `cs`. */
  predicate AllIn(s: string, cs: set<char>) {
    forall i :: 0 <= i < |s| ==> s[i] in cs
  }

  /** Neither end of `s` is a character of `cs`: nothing left to strip. */
  predicate Unpadded(s: string, cs: set<char>) {
    s == [] || (s[0] !in cs && s[|s| - 1] !in cs)
  }

  /** Length of the longest prefix of `s` made of characters of `cs`. */
  function LeadingRun(s: string, cs: set<char>): (k: nat)
    ensures k <= |s|
    ensures forall i :: 0 <= i < k ==> s[i] in cs
    ensures k < |s| ==> s[k] !in cs
  {
    if |s| > 0 && s[0] in cs then 1 + LeadingRun(s[1..], cs) else 0
  }

  /** Length of the longest suffix of `s` made of characters of `cs`. */
  function TrailingRun(s: string, cs: set<char>): (k: nat)
    ensures k <= |s|
    ensures forall i :: |s| - k <= i < |s| ==> s[i] in cs
    ensures k < |s| ==> s[|s| - 1 - k] !in cs
  {
    if |s| > 0 && s[|s| - 1] in cs then 1 + TrailingRun(s[..|s| - 1], cs) else 0
  }

  /** `s.strip(chars)` where `chars` is the set `cs`: the longest leading
      and trailing runs of `cs` characters are cut away. */
  function Strip(s: string, cs: set<char>): (r: string)
    ensures |r| <= |s|
    ensures Unpadded(r, cs)
  {
    var t := s[LeadingRun(s, cs)..];
    t[..|t| - TrailingRun(t, cs)]
  }

  /** The two run lengths are the only ones with their defining property. */
  lemma LeadingRunUnique(s: string, cs: set<char>, k: nat)
    requires k <= |s|
    requires forall i :: 0 <= i < k ==> s[i] in cs
    requires k < |s| ==> s[k] !in cs
    ensures LeadingRun(s, cs) == k
  {
  }

  lemma TrailingRunUnique(s: string, cs: set<char>, k: nat)
    requires k <= |s|
    requires forall i :: |s| - k <= i < |s| ==> s[i] in cs
    requires k < |s| ==> s[|s| - 1 - k] !in cs
    ensures TrailingRun(s, cs) == k
  {
  }

  /** `r` is a contiguous piece of `s`, and everything on either side of it
      consists of `cs` characters. */
  predicate IsTrimOf(r: string, s: string, cs: set<char>) {
    exists i :: 0 <= i <= |s| - |r| && r == s[i..i + |r|]
                && AllIn(s[..i], cs) && AllIn(s[i + |r|..], cs)
  }

  /** The result of Strip is obtained from its input by cutting away `cs`
      characters only, at both ends. */
  lemma StripIsMiddle(s: string, cs: set<char>)
    ensures IsTrimOf(Strip(s, cs), s, cs)
  {
    var i := LeadingRun(s, cs);
    var t := s[i..];
    var j := |t| - TrailingRun(t, cs);
    assert Strip(s, cs) == t[..j] == s[i..i + j];
    assert AllIn(s[..i], cs);
    assert s[i + j..] == t[j..];
  }

  /** Strip is fully determined: cutting padding made of `cs` characters off
      an unpadded middle gives back exactly that middle. */
  lemma StripPadded(a: string, m: string, b: string, cs: set<char>)
    requires AllIn(a, cs) && AllIn(b, cs)
    requires Unpadded(m, cs)
    ensures Strip(a + m + b, cs) == m
  {
    var s := a + m + b;
    if m == [] {
      assert forall i :: 0 <= i < |s| ==> s[i] in cs by {
        forall i | 0 <= i < |s| ensures s[i] in cs {
          if i < |a| { assert s[i] == a[i]; } else { assert s[i] == b[i - |a|]; }
        }
      }
      LeadingRunUnique(s, cs, |s|);
    } else {
      assert forall i :: 0 <= i < |a| ==> s[i] == a[i];
      assert s[|a|] == m[0];
      LeadingRunUnique(s, cs, |a|);
      var t := s[|a|..];
      assert t == m + b;
      assert forall i :: |t| - |b| <= i < |t| ==> t[i] == b[i - |m|];
      assert t[|t| - 1 - |b|] == m[|m| - 1];
      TrailingRunUnique(t, cs, |b|);
      assert t[..|m|] == m;
    }
  }

  /** Stripping twice is the same as stripping once. */
  lemma StripIdempotent(s: string, cs: set<char>)
    ensures Strip(Strip(s, cs), cs) == Strip(s, cs)
  {
    var r := Strip(s, cs);
    StripPadded([], r, [], cs);
    assert [] + r + [] == r;
  }

  /** A string is left alone by Strip exactly when neither of its ends is a
      `cs` character. */
  lemma StripFixedIff(s: string, cs: set<char>)
    ensures Strip(s, cs) == s <==> Unpadded(s, cs)
  {
    if Unpadded(s, cs) {
      StripPadded([], s, [], cs);
      assert [] + s + [] == s;
    }
  }
}
