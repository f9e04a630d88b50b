/**
 * The page extraction of the log report: capture group 1 of the regular
 * expression  GET[ \t]+([^ \t\n]+[.]html?)  as Go's FindStringSubmatch
 * returns it (leftmost match, then the first alternative in priority order).
 *
 * For this one pattern the priority order is forced: [ \t]+ must take the
 * whole run of blanks, because the group cannot start with a blank, and the
 * greedy [^ \t\n]+ followed by [.]htm and a greedy l? prefers the longest
 * group. So the capture is the longest page name after the leftmost "GET"
 * that begins one.
 */
module PagePattern {
  import opened Wrappers
  import opened Seqs

  predicate IsBlank(c: char)
  {
    c == ' ' || c == '\t'
  }

  /** The characters of [^ \t\n]. */
  predicate IsPathChar(c: char)
  {
    c != ' ' && c != '\t' && c != '\n'
  }

  /** What ([^ \t\n]+[.]html?) matches on its own: a non-empty name with no blank or '\n', then ".htm" or ".html". */
  predicate IsPage(g: string)
  {
    && (forall i :: 0 <= i < |g| ==> IsPathChar(g[i]))
    && ((|g| >= 5 && g[|g| - 4..] == ".htm") || (|g| >= 6 && g[|g| - 5..] == ".html"))
  }

  /** The whole pattern matches s at i, with the blanks in s[i+3..j] and the group g at j. */
  predicate MatchAtVia(s: string, i: nat, j: nat, g: string)
  {
    && i + 3 < j
    && j + |g| <= |s|
    && s[i..i + 3] == "GET"
    && (forall k :: i + 3 <= k < j ==> IsBlank(s[k]))
    && s[j..j + |g|] == g
    && IsPage(g)
  }

  /** Some match of the pattern starts at i and captures g. */
  ghost predicate MatchAt(s: string, i: nat, g: string)
  {
    exists j :: MatchAtVia(s, i, j, g)
  }

  /**
   * g is the longest group of the leftmost match, which starts at i; for this
   * pattern that is Go's capture (the module comment gives the argument).
   */
  ghost predicate LeftmostLongest(s: string, i: nat, g: string)
  {
    && MatchAt(s, i, g)
    && (forall i', g' :: 0 <= i' < i ==> !MatchAt(s, i', g'))
    && (forall g' :: MatchAt(s, i, g') ==> |g'| <= |g|)
  }

  /** The longest prefix of w no longer than n that is a page name. */
  function LongestPage(w: string, n: nat): (r: Option<string>)
    requires n <= |w|
    ensures r.Some? ==> |r.value| <= n && r.value == w[..|r.value|] && IsPage(r.value)
    ensures r.Some? ==> forall m :: |r.value| < m <= n ==> !IsPage(w[..m])
    ensures r.None? ==> forall m :: 0 <= m <= n ==> !IsPage(w[..m])
  {
    if n == 0 then None
    else if IsPage(w[..n]) then Some(w[..n])
    else LongestPage(w, n - 1)
  }

  /** The longest page name in the run of path characters starting at j. */
  function PageFrom(s: string, j: nat): Option<string>
    requires j <= |s|
  {
    LongestPage(s[j..], Span(s[j..], IsPathChar))
  }

  /** The capture of a match starting at i, if one does. */
  function PageAt(s: string, i: nat): Option<string>
  {
    if i + 3 > |s| || s[i..i + 3] != "GET" then None
    else
      var nb := Span(s[i + 3..], IsBlank);
      if nb == 0 then None
      else
        PageFrom(s, i + 3 + nb)
  }

  /** Any match at i has its group right after the whole run of blanks. */
  lemma GroupAfterBlanks(s: string, i: nat, j: nat, g: string)
    requires MatchAtVia(s, i, j, g)
    ensures j == i + 3 + Span(s[i + 3..], IsBlank)
  {
    var t := s[i + 3..];
    var nb := Span(t, IsBlank);
    assert s[j] == g[0];
    forall k | 0 <= k < j - (i + 3)
      ensures IsBlank(t[k])
    {
      assert t[k] == s[i + 3 + k];
    }
    assert !IsBlank(t[j - (i + 3)]) by {
      assert t[j - (i + 3)] == s[j];
    }
    SpanStops(t, IsBlank, j - (i + 3));
  }

  /** A group starting at j lies inside the run of path characters there. */
  lemma GroupInsideRun(s: string, j: nat, g: string)
    requires j + |g| <= |s| && s[j..j + |g|] == g
    requires forall k :: 0 <= k < |g| ==> IsPathChar(g[k])
    ensures |g| <= Span(s[j..], IsPathChar)
    ensures g == s[j..][..|g|]
  {
    var t := s[j..];
    var n := Span(t, IsPathChar);
    if n < |g| {
      assert false;
    }
  }

  /** A page name among the first n prefixes bounds what LongestPage finds from below. */
  lemma LongestPageAtLeast(w: string, n: nat, m: nat)
    requires m <= n <= |w| && IsPage(w[..m])
    ensures LongestPage(w, n).Some? && m <= |LongestPage(w, n).value|
  {
  }

  /** After "GET" and a non-empty run of blanks ending at j, PageAt looks for the longest page name at j. */
  lemma PageAtAfterBlanks(s: string, i: nat, j: nat)
    requires i + 3 <= |s| && s[i..i + 3] == "GET"
    requires j == i + 3 + Span(s[i + 3..], IsBlank) && j > i + 3
    ensures PageAt(s, i) == PageFrom(s, j)
  {
  }

  /** Every match at i is seen by PageAt, which captures at least as much. */
  lemma PageAtComplete(s: string, i: nat, j: nat, g: string)
    requires MatchAtVia(s, i, j, g)
    ensures PageAt(s, i).Some? && |g| <= |PageAt(s, i).value|
  {
    GroupAfterBlanks(s, i, j, g);
    GroupInsideRun(s, j, g);
    PageAtAfterBlanks(s, i, j);
    LongestPageAtLeast(s[j..], Span(s[j..], IsPathChar), |g|);
  }

  /** What PageAt captures is the group of a match at i. */
  lemma PageAtSound(s: string, i: nat)
    requires PageAt(s, i).Some?
    ensures MatchAtVia(s, i, i + 3 + Span(s[i + 3..], IsBlank), PageAt(s, i).value)
  {
    var nb := Span(s[i + 3..], IsBlank);
    var j := i + 3 + nb;
    var g := PageAt(s, i).value;
    forall k | i + 3 <= k < j
      ensures IsBlank(s[k])
    {
      assert s[k] == s[i + 3..][k - (i + 3)];
    }
    assert s[j..j + |g|] == s[j..][..|g|];
  }

  /** PageAt finds a capture exactly when some match starts at i, and it finds the longest. */
  lemma PageAtCorrect(s: string, i: nat)
    ensures PageAt(s, i).None? <==> forall g :: !MatchAt(s, i, g)
    ensures PageAt(s, i).Some? ==> MatchAt(s, i, PageAt(s, i).value)
    ensures PageAt(s, i).Some? ==> forall g :: MatchAt(s, i, g) ==> |g| <= |PageAt(s, i).value|
  {
    forall g | MatchAt(s, i, g)
      ensures PageAt(s, i).Some? && |g| <= |PageAt(s, i).value|
    {
      var j: nat :| MatchAtVia(s, i, j, g);
      PageAtComplete(s, i, j, g);
    }
    if PageAt(s, i).Some? {
      PageAtSound(s, i);
      assert MatchAt(s, i, PageAt(s, i).value);
    }
  }

  /** The leftmost capture at or after position from, with where its match starts. */
  function FindFrom(s: string, from: nat): Option<(nat, string)>
    decreases |s| - from
  {
    if from >= |s| then None
    else
      match PageAt(s, from)
      case Some(g) => Some((from, g))
      case None => FindFrom(s, from + 1)
  }

  lemma {:induction false} FindFromCorrect(s: string, from: nat)
    ensures FindFrom(s, from).Some? ==>
      var (i, g) := FindFrom(s, from).value;
      && from <= i && MatchAt(s, i, g)
      && (forall i', g' :: from <= i' < i ==> !MatchAt(s, i', g'))
      && (forall g' :: MatchAt(s, i, g') ==> |g'| <= |g|)
    ensures FindFrom(s, from).None? ==> forall i', g' :: from <= i' ==> !MatchAt(s, i', g')
    decreases |s| - from
  {
    if from >= |s| {
      forall i', g' | from <= i'
        ensures !MatchAt(s, i', g')
      {
      }
    } else {
      PageAtCorrect(s, from);
      if PageAt(s, from).None? {
        FindFromCorrect(s, from + 1);
        forall i', g' | from <= i' && MatchAt(s, i', g')
          ensures FindFrom(s, from).Some? && FindFrom(s, from).value.0 <= i'
        {
        }
      }
    }
  }

  /** FindStringSubmatch(line)[1] for the page pattern, or None when the line does not match. */
  function FindPage(line: string): Option<string>
  {
    match FindFrom(line, 0)
    case None => None
    case Some((_, g)) => Some(g)
  }

  /**
   * FindPage returns the longest group of the leftmost match, which for this
   * pattern is Go's capture, and None exactly when nothing matches.
   */
  lemma FindPageCorrect(line: string)
    ensures FindPage(line).Some? ==> exists i :: LeftmostLongest(line, i, FindPage(line).value)
    ensures FindPage(line).None? <==> forall i, g :: !MatchAt(line, i, g)
  {
    FindFromCorrect(line, 0);
    if FindFrom(line, 0).Some? {
      var (i, g) := FindFrom(line, 0).value;
      assert LeftmostLongest(line, i, g);
    }
  }

  /** A captured key is a page name: non-empty before its suffix, no blank or '\n', ending ".htm" or ".html". */
  lemma FindPageIsPage(line: string)
    ensures FindPage(line).Some? ==> IsPage(FindPage(line).value)
  {
    FindFromCorrect(line, 0);
    if FindFrom(line, 0).Some? {
      var (i, g) := FindFrom(line, 0).value;
      var j: nat :| MatchAtVia(line, i, j, g);
    }
  }
}
