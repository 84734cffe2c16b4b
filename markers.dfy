/**
 * The template markers and how they are found in a paragraph's text.
 *
 * The parser looks for the pattern  \$\{.*?\}|</?#.*?>  with java.util.regex:
 * an interpolation "${...}" or a directive "<#...>" / "</#...>", where the
 * part between the delimiters is matched lazily (it stops at the first
 * closing delimiter) and, as `.` in a Java pattern, cannot hold a line
 * terminator.  The scanner below is that pattern written out by hand: the
 * functions are the matcher, and the predicates are the grammar of a marker,
 * against which the matcher is proved.
 */
module Markers {
  import opened Wrappers

  /** The characters `.` does not match in a Java pattern without DOTALL. */
  predicate IsLineTerminator(c: char)
  {
    c == '\n' || c == '\r' || c == '\U{85}' || c == '\U{2028}' || c == '\U{2029}'
  }

  // ---------------------------------------------------------------------
  // The grammar of a marker
  // ---------------------------------------------------------------------

  /** s[k..j] is what a lazy `.*?` consumes before a `close` at position j. */
  predicate LazyUpTo(s: string, k: nat, j: nat, close: char)
  {
    k <= j < |s| && s[j] == close
    && forall l :: k <= l < j ==> s[l] != close && !IsLineTerminator(s[l])
  }

  /** w is a whole interpolation marker: "${", a body, "}". */
  predicate IsInterpolationMarker(w: string)
  {
    |w| >= 3 && w[0] == '$' && w[1] == '{' && LazyUpTo(w, 2, |w| - 1, '}')
  }

  /** w is a whole directive marker: "<#" or "</#", a body, ">". */
  predicate IsDirectiveMarker(w: string)
  {
    |w| >= 3 && w[0] == '<'
    && ((w[1] == '#' && LazyUpTo(w, 2, |w| - 1, '>'))
        || (|w| >= 4 && w[1] == '/' && w[2] == '#' && LazyUpTo(w, 3, |w| - 1, '>')))
  }

  predicate IsMarker(w: string)
  {
    IsInterpolationMarker(w) || IsDirectiveMarker(w)
  }

  // ---------------------------------------------------------------------
  // The matcher
  // ---------------------------------------------------------------------

  /** A match: positions [start, end) of the text, as Matcher.start() and Matcher.end() report them. */
  datatype Match = Match(start: nat, end: nat)

  /** The lazy `.*?` followed by `close`, tried from position k: where `close` is found, if it is. */
  function CloseFrom(s: string, k: nat, close: char): (r: Option<nat>)
    requires k <= |s|
    ensures r.Some? ==> LazyUpTo(s, k, r.value, close)
    ensures forall j: nat :: LazyUpTo(s, k, j, close) ==> r == Some(j)
    decreases |s| - k
  {
    if k == |s| then None
    else if s[k] == close then Some(k)
    else if IsLineTerminator(s[k]) then None
    else CloseFrom(s, k + 1, close)
  }

  /** The end of the interpolation alternative matched at position i, if it matches there. */
  function InterpolationAt(s: string, i: nat): Option<nat>
    requires i <= |s|
  {
    if i + 2 <= |s| && s[i] == '$' && s[i + 1] == '{' then
      match CloseFrom(s, i + 2, '}')
      case Some(j) => Some(j + 1)
      case None => None
    else None
  }

  /** The end of the directive alternative matched at position i: "/" is tried first, then no "/". */
  function DirectiveAt(s: string, i: nat): Option<nat>
    requires i <= |s|
  {
    if i + 3 <= |s| && s[i] == '<' && s[i + 1] == '/' && s[i + 2] == '#' then
      match CloseFrom(s, i + 3, '>')
      case Some(j) => Some(j + 1)
      case None => None
    else if i + 2 <= |s| && s[i] == '<' && s[i + 1] == '#' then
      match CloseFrom(s, i + 2, '>')
      case Some(j) => Some(j + 1)
      case None => None
    else None
  }

  /** The end of the match starting at position i: the first alternative that matches there. */
  function MatchAt(s: string, i: nat): Option<nat>
    requires i <= |s|
  {
    match InterpolationAt(s, i)
    case Some(e) => Some(e)
    case None => DirectiveAt(s, i)
  }

  /** Interpolation markers are what the first alternative matches, and nothing else. */
  lemma InterpolationAtIff(s: string, i: nat, e: nat)
    requires i <= |s|
    ensures InterpolationAt(s, i) == Some(e) <==> i < e <= |s| && IsInterpolationMarker(s[i..e])
  {
    if i < e <= |s| && IsInterpolationMarker(s[i..e]) {
      var w := s[i..e];
      assert LazyUpTo(s, i + 2, e - 1, '}') by {
        forall l | i + 2 <= l < e - 1
          ensures s[l] != '}' && !IsLineTerminator(s[l])
        {
          assert s[l] == w[l - i];
        }
      }
    }
    if InterpolationAt(s, i) == Some(e) {
      var w := s[i..e];
      assert LazyUpTo(w, 2, |w| - 1, '}') by {
        forall l | 2 <= l < |w| - 1
          ensures w[l] != '}' && !IsLineTerminator(w[l])
        {
          assert w[l] == s[i + l];
        }
      }
    }
  }

  /** The two forms of the directive alternative, read off a text. */
  lemma LazyShift(s: string, i: nat, e: nat, d: nat, close: char)
    requires i + d < e <= |s|
    ensures LazyUpTo(s, i + d, e - 1, close) <==> LazyUpTo(s[i..e], d, e - i - 1, close)
  {
    var w := s[i..e];
    if LazyUpTo(s, i + d, e - 1, close) {
      forall l | d <= l < e - i - 1
        ensures w[l] != close && !IsLineTerminator(w[l])
      {
        assert w[l] == s[i + l];
      }
    }
    if LazyUpTo(w, d, e - i - 1, close) {
      forall l | i + d <= l < e - 1
        ensures s[l] != close && !IsLineTerminator(s[l])
      {
        assert s[l] == w[l - i];
      }
    }
  }

  /** Directive markers are what the second alternative matches, and nothing else. */
  lemma DirectiveAtIff(s: string, i: nat, e: nat)
    requires i <= |s|
    ensures DirectiveAt(s, i) == Some(e) <==> i < e <= |s| && IsDirectiveMarker(s[i..e])
  {
    if i + 3 < e <= |s| {
      LazyShift(s, i, e, 3, '>');
    }
    if i + 2 < e <= |s| {
      LazyShift(s, i, e, 2, '>');
    }
    if i < e <= |s| {
      var w := s[i..e];
      assert |w| >= 3 ==> w[0] == s[i] && w[1] == s[i + 1] && w[2] == s[i + 2];
    }
  }

  /** What MatchAt finds at a position is exactly a marker starting there. */
  lemma MatchAtIff(s: string, i: nat, e: nat)
    requires i <= |s|
    ensures MatchAt(s, i) == Some(e) <==> i < e <= |s| && IsMarker(s[i..e])
  {
    InterpolationAtIff(s, i, e);
    DirectiveAtIff(s, i, e);
    if i < e <= |s| && IsDirectiveMarker(s[i..e]) {
      // a directive starts with '<', so the first alternative cannot match at i
      assert s[i] == '<';
    }
  }

  /** At most one marker starts at a position: markers end at their first closing delimiter. */
  lemma MarkerPrefixFree(s: string, i: nat, e: nat, e': nat)
    requires i < e <= |s| && i < e' <= |s|
    requires IsMarker(s[i..e]) && IsMarker(s[i..e'])
    ensures e == e'
  {
    MatchAtIff(s, i, e);
    MatchAtIff(s, i, e');
  }

  /** Matcher.find() from position `from`: the leftmost match starting at or after it. */
  function FindFrom(s: string, from: nat): (r: Option<Match>)
    requires from <= |s|
    ensures r.Some? ==> (from <= r.value.start < r.value.end <= |s|
                         && MatchAt(s, r.value.start) == Some(r.value.end)
                         && forall k :: from <= k < r.value.start ==> MatchAt(s, k).None?)
    ensures r.None? ==> forall k :: from <= k <= |s| ==> MatchAt(s, k).None?
    decreases |s| - from
  {
    match MatchAt(s, from)
    case Some(e) =>
      MatchAtIff(s, from, e);
      Some(Match(from, e))
    case None =>
      if from == |s| then None else FindFrom(s, from + 1)
  }

  /** The matches that repeated calls of Matcher.find() report from position `from` on. */
  function MatchesFrom(s: string, from: nat): seq<Match>
    requires from <= |s|
    decreases |s| - from
  {
    match FindFrom(s, from)
    case None => []
    case Some(m) => [m] + MatchesFrom(s, m.end)
  }

  /** After a match, the matcher goes on from the match's end. */
  lemma MatchesFromNext(s: string, from: nat, done: seq<Match>)
    requires from <= |s| && FindFrom(s, from).Some?
    requires Matches(s) == done + MatchesFrom(s, from)
    ensures FindFrom(s, from).value.end <= |s|
    ensures Matches(s) == (done + [FindFrom(s, from).value]) + MatchesFrom(s, FindFrom(s, from).value.end)
  {
    var m := FindFrom(s, from).value;
    assert MatchesFrom(s, from) == [m] + MatchesFrom(s, m.end);
  }

  /** The matches of the marker pattern in a text, in the order the matcher reports them. */
  function Matches(s: string): seq<Match>
  {
    MatchesFrom(s, 0)
  }

  /** The matches lie in the text, in increasing order, without overlapping, and each is a marker. */
  ghost predicate WellPlaced(s: string, from: nat, ms: seq<Match>)
  {
    (forall i :: 0 <= i < |ms| ==> from <= ms[i].start < ms[i].end <= |s| && IsMarker(s[ms[i].start..ms[i].end]))
    && (forall i, j :: 0 <= i < j < |ms| ==> ms[i].end <= ms[j].start)
  }

  /** Each reported match is a marker, and they come in order without overlapping. */
  lemma {:induction false} MatchesFromWellPlaced(s: string, from: nat)
    requires from <= |s|
    ensures WellPlaced(s, from, MatchesFrom(s, from))
    decreases |s| - from
  {
    match FindFrom(s, from)
    case None =>
    case Some(m) =>
      var rest := MatchesFrom(s, m.end);
      MatchesFromWellPlaced(s, m.end);
      var ms := [m] + rest;
      assert MatchesFrom(s, from) == ms;
      MatchAtIff(s, m.start, m.end);
      assert forall i :: 0 < i < |ms| ==> ms[i] == rest[i - 1];
  }

  /** A marker that starts at or after `from` starts inside one of the reported matches. */
  lemma {:induction false} MatchesFromComplete(s: string, from: nat, k: nat, e: nat)
    requires from <= k < e <= |s| && IsMarker(s[k..e])
    ensures var ms := MatchesFrom(s, from); exists i :: 0 <= i < |ms| && ms[i].start <= k < ms[i].end
    decreases |s| - from
  {
    MatchAtIff(s, k, e);
    match FindFrom(s, from)
    case None =>
    case Some(m) =>
      var rest := MatchesFrom(s, m.end);
      var ms := [m] + rest;
      assert MatchesFrom(s, from) == ms;
      if k < m.end {
        assert ms[0].start <= k < ms[0].end;
      } else {
        MatchesFromComplete(s, m.end, k, e);
        var i :| 0 <= i < |rest| && rest[i].start <= k < rest[i].end;
        assert ms[i + 1] == rest[i];
      }
  }

  /** Matches(s) is leftmost-first and non-overlapping; every marker of s starts inside one of them. */
  lemma MatchesSound(s: string)
    ensures WellPlaced(s, 0, Matches(s))
    ensures forall k, e :: 0 <= k < e <= |s| && IsMarker(s[k..e]) ==>
      exists i :: 0 <= i < |Matches(s)| && Matches(s)[i].start <= k < Matches(s)[i].end
  {
    MatchesFromWellPlaced(s, 0);
    forall k, e | 0 <= k < e <= |s| && IsMarker(s[k..e])
      ensures exists i :: 0 <= i < |Matches(s)| && Matches(s)[i].start <= k < Matches(s)[i].end
    {
      MatchesFromComplete(s, 0, k, e);
      var ms := MatchesFrom(s, 0);
      var i :| 0 <= i < |ms| && ms[i].start <= k < ms[i].end;
      assert Matches(s)[i] == ms[i];
    }
  }

  // ---------------------------------------------------------------------
  // The interpolation pattern alone (used by the interpolation recogniser)
  // ---------------------------------------------------------------------

  /** Matcher.find() for  \$\{.*?\}  from position `from`: whether a match starts at or after it. */
  function FindInterpolationFrom(s: string, from: nat): (found: bool)
    requires from <= |s|
    ensures found <==> exists k :: from <= k <= |s| && InterpolationAt(s, k).Some?
    decreases |s| - from
  {
    if InterpolationAt(s, from).Some? then true
    else if from == |s| then false
    else FindInterpolationFrom(s, from + 1)
  }

  /** The text holds an interpolation marker somewhere. */
  ghost predicate ContainsInterpolation(s: string)
  {
    exists i, e :: 0 <= i < e <= |s| && IsInterpolationMarker(s[i..e])
  }

  /** The search is a substring search: it succeeds exactly on texts that contain an interpolation marker. */
  lemma FindInterpolationIff(s: string)
    ensures FindInterpolationFrom(s, 0) <==> ContainsInterpolation(s)
  {
    if FindInterpolationFrom(s, 0) {
      var k :| 0 <= k <= |s| && InterpolationAt(s, k).Some?;
      InterpolationAtIff(s, k, InterpolationAt(s, k).value);
    }
    if ContainsInterpolation(s) {
      var i, e :| 0 <= i < e <= |s| && IsInterpolationMarker(s[i..e]);
      InterpolationAtIff(s, i, e);
    }
  }
}
