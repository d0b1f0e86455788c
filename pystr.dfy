/**
 * The Python `str` operations the control panel calls, over `seq<char>`:
 * `startswith`, `capitalize`, `replace(pat, "")` and `strip()`. `EndsWith`,
 * `Contains` and `Lower` are helpers used to state and build them.
 */
module PyStr {

  /** `s.startswith(prefix)` */
  predicate StartsWith(s: string, prefix: string) {
    |prefix| <= |s| && s[..|prefix|] == prefix
  }

  /** `suffix` ends `s`: a helper for stating where the mark sits. */
  predicate EndsWith(s: string, suffix: string) {
    |suffix| <= |s| && s[|s| - |suffix|..] == suffix
  }

  /** Some position of `s` starts an occurrence of `sub`: a helper for stating `replace`. */
  predicate Contains(s: string, sub: string)
    decreases |s|
  {
    StartsWith(s, sub) || (s != [] && Contains(s[1..], sub))
  }

  // ---------------------------------------------------------------------------
  // capitalize (ASCII letters only)

  function UpperChar(c: char): (u: char) {
    if 'a' <= c <= 'z' then (c as int - 32) as char else c
  }

  function LowerChar(c: char): (l: char) {
    if 'A' <= c <= 'Z' then (c as int + 32) as char else c
  }

  /**
   * ASCII lower-casing, the step `capitalize` applies after the first character:
   * no upper-case letter is left, and every character is kept up to case.
   */
  function Lower(s: string): (r: string)
    ensures |r| == |s|
    ensures forall i {:trigger r[i]} :: 0 <= i < |s| ==> !('A' <= r[i] <= 'Z') && LowerChar(r[i]) == LowerChar(s[i])
  {
    seq(|s|, i requires 0 <= i < |s| => LowerChar(s[i]))
  }

  /** Lower-casing a string without upper-case ASCII letters changes nothing. */
  lemma LowerOfLowerCase(s: string)
    requires forall i :: 0 <= i < |s| ==> !('A' <= s[i] <= 'Z')
    ensures Lower(s) == s
  {
  }

  /** `s.capitalize()`: the first character upper-cased, all others lower-cased. */
  function Capitalize(s: string): (r: string)
    ensures |r| == |s|
    ensures s != [] ==> !('a' <= r[0] <= 'z') && LowerChar(r[0]) == LowerChar(s[0])
    ensures forall i {:trigger r[i]} :: 1 <= i < |s| ==> !('A' <= r[i] <= 'Z') && LowerChar(r[i]) == LowerChar(s[i])
  {
    if s == [] then [] else [UpperChar(s[0])] + Lower(s[1..])
  }

  /** Capitalizing twice changes nothing more than capitalizing once. */
  lemma CapitalizeIdempotent(s: string)
    ensures Capitalize(Capitalize(s)) == Capitalize(s)
  {
  }

  /** Two strings that differ only in the case of ASCII letters capitalize alike. */
  lemma CapitalizeIgnoresCase(s: string, t: string)
    requires |s| == |t|
    requires forall i :: 0 <= i < |s| ==> LowerChar(s[i]) == LowerChar(t[i])
    ensures Capitalize(s) == Capitalize(t)
  {
  }

  // ---------------------------------------------------------------------------
  // replace(pat, "")

  /**
   * `s.replace(pat, "")` for a non-empty `pat`: scanning from the left, every
   * occurrence of `pat` is dropped and the scan resumes after it.
   */
  function RemoveAll(s: string, pat: string): (r: string)
    requires pat != []
    ensures |r| <= |s|
    ensures |r| == |s| <==> !Contains(s, pat)
    ensures !Contains(s, pat) ==> r == s
    decreases |s|
  {
    if StartsWith(s, pat) then RemoveAll(s[|pat|..], pat)
    else if s == [] then []
    else [s[0]] + RemoveAll(s[1..], pat)
  }

  /**
   * When `pat` cannot overlap itself (its first character does not recur in
   * it), appending one `pat` to a string free of `pat` is undone by RemoveAll.
   */
  lemma {:induction false} RemoveAllAppended(s: string, pat: string)
    requires pat != [] && pat[0] !in pat[1..]
    requires !Contains(s, pat)
    ensures RemoveAll(s + pat, pat) == s
    decreases |s|
  {
    if s == [] {
      assert [] + pat == pat;
      assert pat[|pat|..] == [];
    } else {
      var t := s + pat;
      if |s| >= |pat| {
        assert t[..|pat|] == s[..|pat|];
      } else {
        assert t[|s|] == pat[0];
        assert pat[1..][|s| - 1] == pat[|s|];
      }
      assert !StartsWith(t, pat);
      assert t[1..] == s[1..] + pat;
      assert !Contains(s[1..], pat);
      RemoveAllAppended(s[1..], pat);
      assert [s[0]] + s[1..] == s;
    }
  }

  /** A string that lacks the first character of `pat` contains no `pat`. */
  lemma {:induction false} NoFirstCharNoOccurrence(s: string, pat: string)
    requires pat != [] && pat[0] !in s
    ensures !Contains(s, pat)
    decreases |s|
  {
    if s != [] {
      assert pat[0] !in s[1..] by {
        forall i | 0 <= i < |s| - 1 ensures s[1..][i] != pat[0] { assert s[1..][i] == s[i + 1]; }
      }
      NoFirstCharNoOccurrence(s[1..], pat);
    }
  }

  // ---------------------------------------------------------------------------
  // strip()

  /** The characters for which Python's `str.isspace()` holds. */
  const Whitespace: set<char> := {
    '\t', '\n', '\U{0B}', '\U{0C}', '\r', '\U{1C}', '\U{1D}', '\U{1E}', '\U{1F}', ' ',
    '\U{85}', '\U{A0}', '\U{1680}',
    '\U{2000}', '\U{2001}', '\U{2002}', '\U{2003}', '\U{2004}', '\U{2005}',
    '\U{2006}', '\U{2007}', '\U{2008}', '\U{2009}', '\U{200A}',
    '\U{2028}', '\U{2029}', '\U{202F}', '\U{205F}', '\U{3000}'
  }

  predicate IsSpace(c: char) {
    c in Whitespace
  }

  predicate AllSpace(s: string) {
    forall i :: 0 <= i < |s| ==> IsSpace(s[i])
  }

  /** `s.lstrip()`: the longest suffix of `s` that does not start with white space. */
  function StripLeading(s: string): (r: string)
    ensures |r| <= |s| && r == s[|s| - |r|..]
    ensures AllSpace(s[..|s| - |r|])
    ensures r != [] ==> !IsSpace(r[0])
    decreases |s|
  {
    if s != [] && IsSpace(s[0]) then StripLeading(s[1..]) else s
  }

  /** `s.rstrip()`: the longest prefix of `s` that does not end with white space. */
  function StripTrailing(s: string): (r: string)
    ensures |r| <= |s| && r == s[..|r|]
    ensures AllSpace(s[|r|..])
    ensures r != [] ==> !IsSpace(r[|r| - 1])
    decreases |s|
  {
    if s != [] && IsSpace(s[|s| - 1]) then StripTrailing(s[..|s| - 1]) else s
  }

  /** `s.strip()` */
  function Strip(s: string): (r: string)
    ensures exists i, j :: TrimmedSlice(s, i, j, r)
    ensures r != [] ==> !IsSpace(r[0]) && !IsSpace(r[|r| - 1])
    ensures r == [] ==> AllSpace(s)
  {
    var l := StripLeading(s);
    var r := StripTrailing(l);
    StripSlice(s, l, r);
    assert r != [] ==> r[0] == l[0];
    assert r == [] ==> AllSpace(s) by {
      if r == [] {
        assert l == [];
        assert s[..|s|] == s;
      }
    }
    r
  }

  /** `r` is the slice `s[i..j]`, and only white space lies outside it. */
  predicate TrimmedSlice(s: string, i: int, j: int, r: string) {
    0 <= i <= j <= |s| && r == s[i..j] && AllSpace(s[..i]) && AllSpace(s[j..])
  }

  /** A prefix of the suffix of `s` from `i` on is a slice of `s`, and what follows it is the rest of `s`. */
  lemma PrefixOfSuffix(s: string, i: int, l: string, r: string)
    requires 0 <= i <= |s| && l == s[i..]
    requires |r| <= |l| && r == l[..|r|]
    ensures r == s[i..i + |r|] && l[|r|..] == s[i + |r|..]
  {
  }

  /** What is left after stripping both ends is a slice of `s` with white space on either side. */
  lemma StripSlice(s: string, l: string, r: string)
    requires l == StripLeading(s) && r == StripTrailing(l)
    ensures exists i, j :: TrimmedSlice(s, i, j, r)
  {
    var i := |s| - |l|;
    var j := i + |r|;
    PrefixOfSuffix(s, i, l, r);
    assert AllSpace(s[j..]) by {
      forall k | 0 <= k < |s| - j ensures IsSpace(s[j..][k]) {
        assert s[j..][k] == l[|r|..][k];
      }
    }
    assert TrimmedSlice(s, i, j, r);
  }

  /** Stripping white space around a string that has none at its ends gives that string back. */
  lemma {:induction false} StripPadded(pre: string, s: string, post: string)
    requires AllSpace(pre) && AllSpace(post)
    requires s != [] ==> !IsSpace(s[0]) && !IsSpace(s[|s| - 1])
    ensures Strip(pre + s + post) == s
  {
    assert pre + s + post == pre + (s + post);
    if s == [] {
      assert AllSpace(pre + post);
    } else {
      StripLeadingSpaces(pre, s + post);
      StripTrailingSpaces(s, post);
    }
  }

  lemma {:induction false} StripLeadingSpaces(pre: string, t: string)
    requires AllSpace(pre)
    requires t != [] ==> !IsSpace(t[0])
    ensures StripLeading(pre + t) == t
    decreases |pre|
  {
    if pre == [] {
      assert [] + t == t;
    } else {
      assert (pre + t)[1..] == pre[1..] + t;
      StripLeadingSpaces(pre[1..], t);
    }
  }

  lemma {:induction false} StripTrailingSpaces(t: string, post: string)
    requires AllSpace(post)
    requires t != [] ==> !IsSpace(t[|t| - 1])
    ensures StripTrailing(t + post) == t
    decreases |post|
  {
    if post == [] {
      assert t + [] == t;
    } else {
      var u := t + post;
      assert u[..|u| - 1] == t + post[..|post| - 1];
      assert u[|u| - 1] == post[|post| - 1];
      StripTrailingSpaces(t, post[..|post| - 1]);
    }
  }

  /** Applying `strip()` to its own result changes nothing. */
  lemma StripIdempotent(s: string)
    ensures Strip(Strip(s)) == Strip(s)
  {
  }
}
