/** Python's `os.path.splitext` on POSIX (`posixpath.splitext`, which
    delegates to `genericpath._splitext` with separator '/' and extension
    separator '.'). */
module Paths {

  const Sep: char := '/'
  const ExtSep: char := '.'

  /** `s.rfind(c)`: the index of the last occurrence of `c`, or -1. */
  function LastIndexOf(s: string, c: char): (k: int)
    ensures -1 <= k < |s|
    ensures k >= 0 ==> s[k] == c
    ensures forall i :: k < i < |s| ==> s[i] != c
  {
    if |s| == 0 then -1
    else if s[|s| - 1] == c then |s| - 1
    else LastIndexOf(s[..|s| - 1], c)
  }

  /** Some character strictly between positions `lo` and `hi` is not a dot:
      the last dot is not merely part of a leading run of dots. */
  predicate NonDotBetween(p: string, lo: int, hi: int)
    requires -1 <= lo && hi <= |p|
  {
    exists k :: lo < k < hi && p[k] != ExtSep
  }

  /** `os.path.splitext(p)` as the pair (root, ext). The extension starts at
      the last dot, provided that dot lies after the last separator and is
      preceded, within the last path component, by something other than
      dots; otherwise the extension is empty. */
  function SplitExt(p: string): (r: (string, string))
    ensures r.0 + r.1 == p
    ensures r.1 == [] || r.1[0] == ExtSep
    ensures forall i :: 1 <= i < |r.1| ==> r.1[i] != ExtSep && r.1[i] != Sep
  {
    var sepIndex := LastIndexOf(p, Sep);
    var dotIndex := LastIndexOf(p, ExtSep);
    if dotIndex > sepIndex && NonDotBetween(p, sepIndex, dotIndex) then
      assert p[..dotIndex] + p[dotIndex..] == p;
      (p[..dotIndex], p[dotIndex..])
    else
      assert p + [] == p;
      (p, [])
  }

  /** The root of a name. */
  function Root(p: string): string { SplitExt(p).0 }

  /** The extension of a name, dot included. */
  function Ext(p: string): string { SplitExt(p).1 }

  /** A name whose dots all belong to its leading run of dots, such as
      `.hidden_file` or `..x`, has no extension: the leading dot is never read
      as an extension marker. */
  lemma {:induction false} LeadingDotsAreNotExtension(p: string)
    requires forall i, j :: 0 <= j < i < |p| && p[i] == ExtSep ==> p[j] == ExtSep
    ensures SplitExt(p) == (p, [])
  {
  }

  /** For a name without a separator (every name a directory listing yields),
      the extension is non-empty exactly when some dot is preceded by a
      character other than a dot; it then starts at the last dot. */
  lemma {:induction false} ExtensionIff(p: string)
    requires Sep !in p
    ensures Ext(p) != [] <==> exists i, j :: 0 <= i < j < |p| && p[i] != ExtSep && p[j] == ExtSep
    ensures Ext(p) != [] ==> Ext(p) == p[LastIndexOf(p, ExtSep)..]
  {
    var sepIndex := LastIndexOf(p, Sep);
    var dotIndex := LastIndexOf(p, ExtSep);
    assert sepIndex == -1;
    if exists i, j :: 0 <= i < j < |p| && p[i] != ExtSep && p[j] == ExtSep {
      var i, j :| 0 <= i < j < |p| && p[i] != ExtSep && p[j] == ExtSep;
      assert dotIndex >= j;
      assert NonDotBetween(p, sepIndex, dotIndex);
    }
    if Ext(p) != [] {
      var k :| sepIndex < k < dotIndex && p[k] != ExtSep;
      assert p[k] != ExtSep && p[dotIndex] == ExtSep;
    }
  }

  /** A separator-free name with a non-dot first character splits at its
      last dot. */
  lemma SplitAtLastDot(p: string, k: nat)
    requires Sep !in p
    requires 0 < k < |p| && p[0] != ExtSep && p[k] == ExtSep
    requires forall i :: k < i < |p| ==> p[i] != ExtSep
    ensures SplitExt(p) == (p[..k], p[k..])
  {
    ExtensionIff(p);
    assert LastIndexOf(p, ExtSep) == k;
  }

  /** Example names: a hidden file, a song file and two short names. */
  lemma SplitHiddenFile()
    ensures SplitExt(".hidden_file") == (".hidden_file", "")
  {
    LeadingDotsAreNotExtension(".hidden_file");
  }

  lemma SplitSongFile()
    ensures SplitExt("My_Song_(Official_Video).mp3") == ("My_Song_(Official_Video)", ".mp3")
  {
    var p := "My_Song_(Official_Video).mp3";
    assert Sep !in p by { forall i | 0 <= i < |p| ensures p[i] != Sep { } }
    SplitAtLastDot(p, 24);
    assert p[..24] == "My_Song_(Official_Video)" && p[24..] == ".mp3";
  }

  lemma SplitShortFiles()
    ensures SplitExt("A_.mp3") == ("A_", ".mp3")
    ensures SplitExt("__.mp3") == ("__", ".mp3")
  {
    var q := "A_.mp3";
    assert Sep !in q by { forall i | 0 <= i < |q| ensures q[i] != Sep { } }
    SplitAtLastDot(q, 2);
    assert q[..2] == "A_" && q[2..] == ".mp3";
    var u := "__.mp3";
    assert Sep !in u by { forall i | 0 <= i < |u| ensures u[i] != Sep { } }
    SplitAtLastDot(u, 2);
    assert u[..2] == "__" && u[2..] == ".mp3";
  }
}
