/**
 * Value-level view of the runs of a paragraph: a run is a piece of text with
 * its character formatting, and a paragraph's text is the concatenation of
 * its runs' texts.  This module defines offsets into that text, the two
 * primitive edits on run lists (cut one run in two, append a run to its
 * predecessor) and the closed form of what isolating a marker does to a run
 * list (IsolateRuns), with the lemmas the template parser needs.
 */
module Runs {

  /** Formatting properties of a node (w:rPr, w:pPr, w:tblPr, ...), kept as an opaque XML value. */
  datatype Fmt = Fmt(xml: string)

  /** The formatting of a freshly created node: no properties at all. */
  const NoFmt: Fmt := Fmt("")

  /** A run as a value: its text and its formatting. */
  datatype RunV = RunV(text: string, fmt: Fmt)

  /** The text of runs i, ..., j-1. */
  function Span(rs: seq<RunV>, i: nat, j: nat): string
    requires i <= j <= |rs|
    decreases j
  {
    if i == j then "" else Span(rs, i, j - 1) + rs[j - 1].text
  }

  /** The text of a list of runs, as the paragraph shows it. */
  function Concat(rs: seq<RunV>): string
  {
    Span(rs, 0, |rs|)
  }

  /** The position in Concat(rs) at which run k starts (k == |rs|: the end of the text). */
  function Offset(rs: seq<RunV>, k: nat): nat
    requires k <= |rs|
  {
    |Span(rs, 0, k)|
  }

  // ---------------------------------------------------------------------
  // Spans, concatenation and offsets
  // ---------------------------------------------------------------------

  lemma Assoc<T>(x: seq<T>, y: seq<T>, z: seq<T>)
    ensures (x + y) + z == x + (y + z)
  {
  }

  lemma {:induction false} SpanJoin(rs: seq<RunV>, i: nat, j: nat, k: nat)
    requires i <= j <= k <= |rs|
    ensures Span(rs, i, j) + Span(rs, j, k) == Span(rs, i, k)
    decreases k
  {
    if j < k {
      SpanJoin(rs, i, j, k - 1);
      Assoc(Span(rs, i, j), Span(rs, j, k - 1), rs[k - 1].text);
    }
  }

  /** A span only depends on the runs it covers. */
  lemma {:induction false} SpanLeft(x: seq<RunV>, y: seq<RunV>, i: nat, j: nat)
    requires i <= j <= |x|
    ensures Span(x + y, i, j) == Span(x, i, j)
    decreases j
  {
    if i < j {
      SpanLeft(x, y, i, j - 1);
      assert (x + y)[j - 1] == x[j - 1];
    }
  }

  lemma {:induction false} SpanRight(x: seq<RunV>, y: seq<RunV>, i: nat, j: nat)
    requires i <= j <= |y|
    ensures Span(x + y, |x| + i, |x| + j) == Span(y, i, j)
    decreases j
  {
    if i < j {
      SpanRight(x, y, i, j - 1);
      assert (x + y)[|x| + j - 1] == y[j - 1];
    }
  }

  lemma {:induction false} SpanTake(rs: seq<RunV>, n: nat, i: nat, j: nat)
    requires i <= j <= n <= |rs|
    ensures Span(rs[..n], i, j) == Span(rs, i, j)
    decreases j
  {
    if i < j {
      SpanTake(rs, n, i, j - 1);
    }
  }

  lemma {:induction false} SpanDrop(rs: seq<RunV>, n: nat, i: nat, j: nat)
    requires n <= |rs| && i <= j <= |rs| - n
    ensures Span(rs[n..], i, j) == Span(rs, n + i, n + j)
    decreases j
  {
    if i < j {
      SpanDrop(rs, n, i, j - 1);
    }
  }


  lemma ConcatAppend(a: seq<RunV>, b: seq<RunV>)
    ensures Concat(a + b) == Concat(a) + Concat(b)
  {
    SpanJoin(a + b, 0, |a|, |a| + |b|);
    SpanLeft(a, b, 0, |a|);
    SpanRight(a, b, 0, |b|);
  }

  lemma ConcatSingle(r: RunV)
    ensures Concat([r]) == r.text
  {
    assert Span([r], 0, 0) == "";
    assert [r][0] == r;
  }


  /** Offsets never decrease along the run list, and never pass the end of the text. */
  lemma OffsetMono(rs: seq<RunV>, i: nat, j: nat)
    requires i <= j <= |rs|
    ensures Offset(rs, i) <= Offset(rs, j) <= |Concat(rs)|
  {
    SpanJoin(rs, 0, i, j);
    SpanJoin(rs, 0, j, |rs|);
  }


  /** Runs i, ..., j-1 occupy exactly positions [Offset(i), Offset(j)) of the text. */
  lemma TextAt(rs: seq<RunV>, i: nat, j: nat)
    requires i <= j <= |rs|
    ensures Offset(rs, i) <= Offset(rs, j) <= |Concat(rs)|
    ensures Concat(rs)[Offset(rs, i)..Offset(rs, j)] == Span(rs, i, j)
    ensures Concat(rs)[..Offset(rs, i)] == Span(rs, 0, i)
    ensures Concat(rs)[Offset(rs, j)..] == Span(rs, j, |rs|)
  {
    SpanJoin(rs, 0, i, j);
    SpanJoin(rs, 0, j, |rs|);
    Assoc(Span(rs, 0, i), Span(rs, i, j), Span(rs, j, |rs|));
  }

  /** Run lists that agree on their first n runs give those runs the same offsets. */
  lemma OffsetPrefix(v: seq<RunV>, w: seq<RunV>, n: nat, k: nat)
    requires k <= n <= |v| && n <= |w| && v[..n] == w[..n]
    ensures Offset(v, k) == Offset(w, k)
  {
    SpanTake(v, n, 0, k);
    SpanTake(w, n, 0, k);
  }

  /** Before the first non-empty run starting at a position, only empty runs start there. */
  lemma OnlyEmptyBefore(v: seq<RunV>, k: nat)
    requires k < |v| && |v[k].text| > 0
    ensures forall j :: 0 <= j < k && Offset(v, j) == Offset(v, k) ==> v[j].text == ""
  {
    forall j | 0 <= j < k && Offset(v, j) == Offset(v, k)
      ensures v[j].text == ""
    {
      RunAt(v, j);
      OffsetMono(v, j + 1, k);
    }
  }

  /** Run k occupies exactly positions [Offset(k), Offset(k+1)) of the text. */
  lemma RunAt(rs: seq<RunV>, k: nat)
    requires k < |rs|
    ensures Offset(rs, k + 1) == Offset(rs, k) + |rs[k].text| <= |Concat(rs)|
    ensures Concat(rs)[Offset(rs, k)..Offset(rs, k + 1)] == rs[k].text
  {
    TextAt(rs, k, k + 1);
  }


  // ---------------------------------------------------------------------
  // Runs that lie wholly before a position
  // ---------------------------------------------------------------------

  function RunsBeforeFrom(rs: seq<RunV>, x: nat, k: nat): (n: nat)
    requires k <= |rs| && Offset(rs, k) <= x
    ensures k <= n <= |rs| && Offset(rs, n) <= x
    ensures n < |rs| ==> x < Offset(rs, n + 1)
    decreases |rs| - k
  {
    if k < |rs| && Offset(rs, k + 1) <= x then RunsBeforeFrom(rs, x, k + 1) else k
  }

  /**
   * The number of leading runs that end at or before position x.  Every
   * other run ends after x, so run RunsBefore(rs, x), when there is one, is
   * the run that holds the character at position x.
   */
  function RunsBefore(rs: seq<RunV>, x: nat): (n: nat)
    ensures n <= |rs| && Offset(rs, n) <= x
    ensures n < |rs| ==> x < Offset(rs, n + 1)
  {
    RunsBeforeFrom(rs, x, 0)
  }

  /** RunsBefore(rs, x) counts exactly the runs that end at or before x. */
  lemma RunsBeforeExact(rs: seq<RunV>, x: nat, i: nat)
    requires i < |rs|
    ensures i < RunsBefore(rs, x) <==> Offset(rs, i + 1) <= x
  {
    var n := RunsBefore(rs, x);
    if i < n {
      OffsetMono(rs, i + 1, n);
    } else {
      OffsetMono(rs, n + 1, i + 1);
    }
  }

  /** The run holding the character at x, and its place relative to the run holding y >= x. */
  lemma RunsBeforeBounds(rs: seq<RunV>, x: nat, y: nat)
    requires x <= y < |Concat(rs)|
    ensures RunsBefore(rs, x) <= RunsBefore(rs, y) < |rs|
    ensures Offset(rs, RunsBefore(rs, x)) <= x < Offset(rs, RunsBefore(rs, x) + 1)
    ensures Offset(rs, RunsBefore(rs, y)) <= y < Offset(rs, RunsBefore(rs, y) + 1) <= |Concat(rs)|
  {
    var a, b := RunsBefore(rs, x), RunsBefore(rs, y);
    if b + 1 <= a {
      OffsetMono(rs, b + 1, a);
    }
    OffsetMono(rs, b + 1, |rs|);
  }

  // ---------------------------------------------------------------------
  // Primitive edits
  // ---------------------------------------------------------------------

  /** Run k cut in two at position m of its text; both halves keep its formatting. */
  function SplitRunV(rs: seq<RunV>, k: nat, m: nat): seq<RunV>
    requires k < |rs| && 0 < m < |rs[k].text|
  {
    rs[..k] + [RunV(rs[k].text[..m], rs[k].fmt), RunV(rs[k].text[m..], rs[k].fmt)] + rs[k + 1..]
  }

  /** Run k appended to run k-1, which keeps its own formatting; run k disappears. */
  function MergeRunsV(rs: seq<RunV>, k: nat): seq<RunV>
    requires 0 < k < |rs|
  {
    rs[..k - 1] + [RunV(rs[k - 1].text + rs[k].text, rs[k - 1].fmt)] + rs[k + 1..]
  }


  lemma ReplaceInside(rs: seq<RunV>, i: nat, j: nat, mid: seq<RunV>, k: nat)
    requires i <= j <= |rs| && k <= |mid|
    ensures Span(rs[..i] + mid + rs[j..], 0, i + k) == Span(rs, 0, i) + Span(mid, 0, k)
  {
    var x := rs[..i] + mid;
    SpanLeft(x, rs[j..], 0, i + k);
    SpanJoin(x, 0, i, i + k);
    SpanLeft(rs[..i], mid, 0, i);
    SpanTake(rs, i, 0, i);
    SpanRight(rs[..i], mid, 0, k);
  }

  lemma ReplaceAfter(rs: seq<RunV>, i: nat, j: nat, mid: seq<RunV>, k: nat)
    requires i <= j <= k <= |rs| && Concat(mid) == Span(rs, i, j)
    ensures Span(rs[..i] + mid + rs[j..], 0, i + |mid| + (k - j)) == Span(rs, 0, k)
  {
    var x := rs[..i] + mid;
    var n := |x|;
    var r := x + rs[j..];
    assert Span(r, 0, n + (k - j)) == Span(r, 0, n) + Span(r, n, n + (k - j)) by {
      SpanJoin(r, 0, n, n + (k - j));
    }
    assert Span(r, 0, n) == Span(rs, 0, j) by {
      ReplaceInside(rs, i, j, mid, |mid|);
      SpanJoin(rs, 0, i, j);
    }
    assert Span(r, n, n + (k - j)) == Span(rs, j, k) by {
      SpanRight(x, rs[j..], 0, k - j);
      SpanDrop(rs, j, 0, k - j);
    }
    SpanJoin(rs, 0, j, k);
  }

  lemma ReplaceKeepsText(rs: seq<RunV>, i: nat, j: nat, mid: seq<RunV>)
    requires i <= j <= |rs| && Concat(mid) == Span(rs, i, j)
    ensures Concat(rs[..i] + mid + rs[j..]) == Concat(rs)
  {
    ReplaceAfter(rs, i, j, mid, |rs|);
  }

  /** Cutting a run leaves the paragraph's text as it was. */
  lemma SplitRunKeepsText(rs: seq<RunV>, k: nat, m: nat)
    requires k < |rs| && 0 < m < |rs[k].text|
    ensures Concat(SplitRunV(rs, k, m)) == Concat(rs)
  {
    var t := rs[k].text;
    var mid := [RunV(t[..m], rs[k].fmt), RunV(t[m..], rs[k].fmt)];
    assert Span(mid, 0, 1) == t[..m];
    assert Concat(mid) == t[..m] + t[m..] == t;
    assert Span(rs, k, k + 1) == t;
    ReplaceKeepsText(rs, k, k + 1, mid);
  }

  /** Appending a run to its predecessor leaves the paragraph's text as it was. */
  lemma MergeRunsKeepsText(rs: seq<RunV>, k: nat)
    requires 0 < k < |rs|
    ensures Concat(MergeRunsV(rs, k)) == Concat(rs)
  {
    var mid := [RunV(rs[k - 1].text + rs[k].text, rs[k - 1].fmt)];
    assert Span(rs, k - 1, k + 1) == rs[k - 1].text + rs[k].text by {
      assert Span(rs, k - 1, k) == rs[k - 1].text;
    }
    ConcatSingle(mid[0]);
    ReplaceKeepsText(rs, k - 1, k + 1, mid);
  }

  // ---------------------------------------------------------------------
  // Isolating a marker
  // ---------------------------------------------------------------------

  /** A run holding t[i..j] with formatting f, or nothing when that text is empty. */
  function Piece(t: string, i: nat, j: nat, f: Fmt): (ps: seq<RunV>)
    requires i <= j <= |t|
    ensures Concat(ps) == t[i..j]
    ensures |ps| <= 1 && (|ps| == 1 <==> i < j)
  {
    if i < j then ConcatSingle(RunV(t[i..j], f)); [RunV(t[i..j], f)] else []
  }

  /**
   * What replaces the runs from the one holding `start` (which starts at oa)
   * to the one holding `end` (which ends at ob): the text before the marker
   * with the first run's formatting, the marker with the same formatting,
   * and the text after the marker with the last run's formatting.
   */
  function Middle(t: string, oa: nat, start: nat, end: nat, ob: nat, fa: Fmt, fb: Fmt): seq<RunV>
    requires oa <= start <= end < ob <= |t|
  {
    Piece(t, oa, start, fa) + [RunV(t[start..end + 1], fa)] + Piece(t, end + 1, ob, fb)
  }

  lemma Join3(t: string, i: nat, j: nat, k: nat, l: nat)
    requires i <= j <= k <= l <= |t|
    ensures t[i..j] + t[j..k] + t[k..l] == t[i..l]
  {
  }

  lemma MiddleShape(t: string, oa: nat, start: nat, end: nat, ob: nat, fa: Fmt, fb: Fmt)
    requires oa <= start <= end < ob <= |t|
    ensures var mid := Middle(t, oa, start, end, ob, fa, fb); var h := |Piece(t, oa, start, fa)|;
      h < |mid| && mid[h] == RunV(t[start..end + 1], fa)
      && |Span(mid, 0, h)| == start - oa
      && Concat(mid) == t[oa..ob]
  {
    var p1 := Piece(t, oa, start, fa);
    var m := RunV(t[start..end + 1], fa);
    var p2 := Piece(t, end + 1, ob, fb);
    var mid := Middle(t, oa, start, end, ob, fa, fb);
    assert mid == (p1 + [m]) + p2;
    assert Span(mid, 0, |p1|) == Concat(p1) by {
      SpanLeft(p1 + [m], p2, 0, |p1|);
      SpanLeft(p1, [m], 0, |p1|);
    }
    assert Concat(mid) == Concat(p1) + m.text + Concat(p2) by {
      ConcatAppend(p1 + [m], p2);
      ConcatAppend(p1, [m]);
      ConcatSingle(m);
    }
    Join3(t, oa, start, end + 1, ob);
  }

  /**
   * The run list after the marker at positions [start, end] has been given a
   * run of its own.  Runs wholly before the marker and runs wholly after it
   * are kept as they are; the run where the marker starts keeps what comes
   * before the marker; the marker run carries that run's formatting; the runs
   * the marker spans are absorbed into it; the run where the marker ends
   * keeps what follows the marker.
   */
  function IsolateRuns(rs: seq<RunV>, start: nat, end: nat): seq<RunV>
    requires start <= end < |Concat(rs)|
  {
    var a := RunsBefore(rs, start);
    var b := RunsBefore(rs, end);
    RunsBeforeBounds(rs, start, end);
    rs[..a] + Middle(Concat(rs), Offset(rs, a), start, end, Offset(rs, b + 1), rs[a].fmt, rs[b].fmt) + rs[b + 1..]
  }

  /** Where the marker run sits once the marker's start is isolated. */
  function MarkerIndex(rs: seq<RunV>, start: nat): nat
    requires start < |Concat(rs)|
  {
    var a := RunsBefore(rs, start);
    if Offset(rs, a) < start then a + 1 else a
  }

  /** Isolating a marker never changes the paragraph's text. */
  lemma IsolateRunsKeepsText(rs: seq<RunV>, start: nat, end: nat)
    requires start <= end < |Concat(rs)|
    ensures Concat(IsolateRuns(rs, start, end)) == Concat(rs)
  {
    var t := Concat(rs);
    var a := RunsBefore(rs, start);
    var b := RunsBefore(rs, end);
    RunsBeforeBounds(rs, start, end);
    var mid := Middle(t, Offset(rs, a), start, end, Offset(rs, b + 1), rs[a].fmt, rs[b].fmt);
    MiddleShape(t, Offset(rs, a), start, end, Offset(rs, b + 1), rs[a].fmt, rs[b].fmt);
    TextAt(rs, a, b + 1);
    ReplaceKeepsText(rs, a, b + 1, mid);
  }

  /**
   * After isolation the marker is one run: the run at MarkerIndex starts at
   * `start`, holds exactly the marker's text and carries the formatting of
   * the run in which the marker started.
   */
  lemma IsolateRunsIsolates(rs: seq<RunV>, start: nat, end: nat)
    requires start <= end < |Concat(rs)|
    ensures var r := IsolateRuns(rs, start, end); var k := MarkerIndex(rs, start);
      k < |r| && Offset(r, k) == start && r[k].text == Concat(rs)[start..end + 1]
      && r[k].fmt == rs[RunsBefore(rs, start)].fmt
  {
    var t := Concat(rs);
    var a := RunsBefore(rs, start);
    var b := RunsBefore(rs, end);
    RunsBeforeBounds(rs, start, end);
    var oa := Offset(rs, a);
    var mid := Middle(t, oa, start, end, Offset(rs, b + 1), rs[a].fmt, rs[b].fmt);
    MiddleShape(t, oa, start, end, Offset(rs, b + 1), rs[a].fmt, rs[b].fmt);
    var h := |Piece(t, oa, start, rs[a].fmt)|;
    ReplaceInside(rs, a, b + 1, mid, h);
  }

  /** RunsBefore(rs, y) < i exactly for the runs that start after position y. */
  lemma RunsAfterExact(rs: seq<RunV>, y: nat, i: nat)
    requires i < |rs|
    ensures RunsBefore(rs, y) < i <==> y < Offset(rs, i)
  {
    var b := RunsBefore(rs, y);
    if b < i {
      OffsetMono(rs, b + 1, i);
    } else {
      OffsetMono(rs, i, b);
    }
  }

  /**
   * Runs wholly before the marker, and runs wholly after it, are kept
   * unchanged and in order (RunsBeforeExact and RunsAfterExact say which
   * runs those are).
   */
  lemma IsolateRunsKeepsOutside(rs: seq<RunV>, start: nat, end: nat)
    requires start <= end < |Concat(rs)|
    ensures var r := IsolateRuns(rs, start, end); var a := RunsBefore(rs, start); var b := RunsBefore(rs, end);
      a <= b < |rs| && a <= |r| && |rs| - (b + 1) <= |r|
      && r[..a] == rs[..a] && r[|r| - (|rs| - (b + 1))..] == rs[b + 1..]
  {
    var t := Concat(rs);
    var a := RunsBefore(rs, start);
    var b := RunsBefore(rs, end);
    RunsBeforeBounds(rs, start, end);
    var mid := Middle(t, Offset(rs, a), start, end, Offset(rs, b + 1), rs[a].fmt, rs[b].fmt);
    var r := IsolateRuns(rs, start, end);
    assert r == rs[..a] + mid + rs[b + 1..];
  }

  // ---------------------------------------------------------------------
  // The states formatInstr goes through (used to prove it against IsolateRuns)
  // ---------------------------------------------------------------------

  /**
   * The run list once the marker's start has been isolated and the runs
   * before run q have been absorbed into the partial marker run, which
   * holds the text from `start` up to the start of run q.
   */
  function Scanned(rs: seq<RunV>, start: nat, q: nat): seq<RunV>
    requires start < |Concat(rs)| && RunsBefore(rs, start) < q <= |rs|
  {
    var t := Concat(rs);
    var a := RunsBefore(rs, start);
    OffsetMono(rs, a + 1, q);
    rs[..a] + (Piece(t, Offset(rs, a), start, rs[a].fmt) + [RunV(t[start..Offset(rs, q)], rs[a].fmt)]) + rs[q..]
  }

  /** Offsets in the scanning state: the partial marker run sits at MarkerIndex and starts at `start`. */
  lemma ScannedShape(rs: seq<RunV>, start: nat, q: nat)
    requires start < |Concat(rs)| && RunsBefore(rs, start) < q <= |rs|
    ensures var p := Scanned(rs, start, q); var a := RunsBefore(rs, start); var h := MarkerIndex(rs, start);
      a < |rs| && a <= h && |p| == h + 1 + |rs| - q
      && start < Offset(rs, q)
      && Offset(p, h) == start
      && Offset(p, h + 1) == Offset(rs, q)
      && Offset(rs, q) <= |Concat(rs)|
      && p[h] == RunV(Concat(rs)[start..Offset(rs, q)], rs[a].fmt)
      && p[..h] == rs[..a] + Piece(Concat(rs), Offset(rs, a), start, rs[a].fmt)
      && p[h + 1..] == rs[q..]
  {
    var t := Concat(rs);
    var a := RunsBefore(rs, start);
    RunsBeforeBounds(rs, start, start);
    OffsetMono(rs, a + 1, q);
    var oa, oq := Offset(rs, a), Offset(rs, q);
    var p1 := Piece(t, oa, start, rs[a].fmt);
    var m := RunV(t[start..oq], rs[a].fmt);
    var mid := p1 + [m];
    var p := Scanned(rs, start, q);
    var h := MarkerIndex(rs, start);
    assert p == rs[..a] + mid + rs[q..];
    assert |p1| == h - a;
    assert Span(mid, 0, |p1|) == t[oa..start] by {
      SpanLeft(p1, [m], 0, |p1|);
    }
    assert Offset(p, h) == start by {
      ReplaceInside(rs, a, q, mid, |p1|);
    }
    assert p[h] == m;
  }

  lemma Join2(t: string, i: nat, j: nat, k: nat)
    requires i <= j <= k <= |t|
    ensures t[i..j] + t[j..k] == t[i..k]
  {
  }

  /** SplitRunV on the run between two known lists. */
  lemma SplitAround(pre: seq<RunV>, r: RunV, post: seq<RunV>, m: nat)
    requires 0 < m < |r.text|
    ensures SplitRunV(pre + [r] + post, |pre|, m) == pre + [RunV(r.text[..m], r.fmt), RunV(r.text[m..], r.fmt)] + post
  {
    var p := pre + [r] + post;
    assert p[..|pre|] == pre && p[|pre| + 1..] == post;
  }

  /** SplitRunV on a run list whose parts are known. */
  lemma SplitShape(p: seq<RunV>, h: nat, pre: seq<RunV>, x: string, y: string, f: Fmt, post: seq<RunV>)
    requires h < |p| && p[..h] == pre && p[h] == RunV(x + y, f) && p[h + 1..] == post
    requires 0 < |x| && 0 < |y|
    ensures SplitRunV(p, h, |x|) == pre + [RunV(x, f), RunV(y, f)] + post
  {
    assert (x + y)[..|x|] == x;
    assert (x + y)[|x|..] == y;
  }

  /** MergeRunsV on a run list whose parts are known. */
  lemma MergeShape(p: seq<RunV>, k: nat, pre: seq<RunV>, x: string, f: Fmt, y: string, post: seq<RunV>)
    requires 0 < k < |p| && p[..k - 1] == pre && p[k - 1] == RunV(x, f) && p[k].text == y && p[k + 1..] == post
    ensures MergeRunsV(p, k) == pre + [RunV(x + y, f)] + post
  {
  }

  /** The run list from which scanning starts equals its first scanning state, up to cutting run a. */
  lemma StartFound(rs: seq<RunV>, start: nat)
    requires start < |Concat(rs)|
    ensures var a := RunsBefore(rs, start);
      a < |rs| && Offset(rs, a) <= start < Offset(rs, a) + |rs[a].text|
      && (Offset(rs, a) < start ==> SplitRunV(rs, a, start - Offset(rs, a)) == Scanned(rs, start, a + 1))
      && (Offset(rs, a) == start ==> rs == Scanned(rs, start, a + 1))
  {
    var t := Concat(rs);
    var a := RunsBefore(rs, start);
    RunsBeforeBounds(rs, start, start);
    RunAt(rs, a);
    var oa, oa1 := Offset(rs, a), Offset(rs, a + 1);
    var f := rs[a].fmt;
    var x, y := t[oa..start], t[start..oa1];
    var s := Scanned(rs, start, a + 1);
    assert s == rs[..a] + (Piece(t, oa, start, f) + [RunV(y, f)]) + rs[a + 1..];
    if oa < start {
      assert rs[a] == RunV(x + y, f) by {
        Join2(t, oa, start, oa1);
      }
      SplitShape(rs, a, rs[..a], x, y, f, rs[a + 1..]);
      assert Piece(t, oa, start, f) + [RunV(y, f)] == [RunV(x, f), RunV(y, f)];
    } else {
      assert rs[a] == RunV(y, f);
      assert rs == rs[..a] + [rs[a]] + rs[a + 1..];
    }
  }

  /** A run the marker spans completely is appended to the partial marker run. */
  lemma SpannedRunMerged(rs: seq<RunV>, start: nat, q: nat)
    requires start < |Concat(rs)| && RunsBefore(rs, start) < q < |rs|
    ensures MarkerIndex(rs, start) + 1 < |Scanned(rs, start, q)|
    ensures MergeRunsV(Scanned(rs, start, q), MarkerIndex(rs, start) + 1) == Scanned(rs, start, q + 1)
  {
    var t := Concat(rs);
    var a := RunsBefore(rs, start);
    var h := MarkerIndex(rs, start);
    ScannedShape(rs, start, q);
    ScannedShape(rs, start, q + 1);
    RunAt(rs, q);
    var oq, oq1 := Offset(rs, q), Offset(rs, q + 1);
    var p := Scanned(rs, start, q);
    var p' := Scanned(rs, start, q + 1);
    var f := rs[a].fmt;
    assert p[h + 1..] == rs[q..];
    assert p'[h + 1..] == rs[q + 1..];
    Join2(t, start, oq, oq1);
    MergeNext(p, p', h, t[start..oq], t[oq..oq1], f, rs[q..]);
  }

  /** Merging the run after position h into it, given the two lists piece by piece. */
  lemma MergeNext(p: seq<RunV>, p': seq<RunV>, h: nat, x: string, y: string, f: Fmt, post: seq<RunV>)
    requires h < |p| && h < |p'| && |post| > 0
    requires p'[..h] == p[..h] && p[h] == RunV(x, f) && p'[h] == RunV(x + y, f)
    requires p[h + 1..] == post && post[0].text == y && p'[h + 1..] == post[1..]
    ensures h + 1 < |p| && MergeRunsV(p, h + 1) == p'
  {
    assert p[h + 1] == post[0];
    assert p[h + 2..] == post[1..];
    MergeShape(p, h + 1, p[..h], x, f, y, post[1..]);
    assert p' == p'[..h] + [p'[h]] + p'[h + 1..];
  }

  lemma Parts3(p: seq<RunV>, v: seq<RunV>, m: RunV, w: seq<RunV>)
    requires p == v + [m] + w
    ensures |v| < |p| && p[..|v|] == v && p[|v|] == m && p[|v| + 1..] == w
  {
  }

  lemma Regroup(u: seq<RunV>, v: seq<RunV>, w: seq<RunV>, x: seq<RunV>, y: seq<RunV>)
    ensures u + (v + w + x) + y == (u + v) + w + (x + y)
  {
  }

  lemma Regroup2(v: seq<RunV>, m: RunV, n: RunV, w: seq<RunV>)
    ensures v + [m, n] + w == v + [m] + ([n] + w)
  {
  }

  /** The edit of the last step when the marker ends in the partial marker run, on a run list whose parts are known. */
  lemma PartialRunEdit(p: seq<RunV>, iso: seq<RunV>, h: nat, m: nat,
                        u: seq<RunV>, p1: seq<RunV>, x: string, y: string, f: Fmt, p2: seq<RunV>, post: seq<RunV>)
    requires p == (u + p1) + [RunV(x + y, f)] + post && 0 < |x|
    requires iso == u + (p1 + [RunV(x, f)] + p2) + post
    requires h == |u| + |p1| && m == |x|
    requires 0 < |y| ==> p2 == [RunV(y, f)]
    requires |y| == 0 ==> p2 == []
    ensures h < |p| && p[h].text == x + y
    ensures m < |p[h].text| ==> SplitRunV(p, h, m) == iso
    ensures m == |p[h].text| ==> p == iso
  {
    var pre := u + p1;
    Parts3(p, pre, RunV(x + y, f), post);
    assert u + (p1 + [RunV(x, f)] + p2) + post == pre + [RunV(x, f)] + (p2 + post) by {
      Regroup(u, p1, [RunV(x, f)], p2, post);
    }
    if 0 < |y| {
      assert SplitRunV(p, |pre|, |x|) == pre + [RunV(x, f)] + (p2 + post) by {
        SplitShape(p, |pre|, pre, x, y, f, post);
        Regroup2(pre, RunV(x, f), RunV(y, f), post);
      }
    } else {
      assert p == pre + [RunV(x, f)] + (p2 + post) by {
        assert x + y == x;
        assert [] + post == post;
      }
    }
  }

  /**
   * The edit of the last step when the marker ends inside the run after the
   * partial one (it is cut, and its head appended), on a run list whose
   * parts are known.
   */
  lemma NextRunCutEdit(p: seq<RunV>, iso: seq<RunV>, h: nat, m: nat,
                        u: seq<RunV>, p1: seq<RunV>, s: string, fa: Fmt, x: string, y: string, fb: Fmt, post: seq<RunV>)
    requires p == (u + p1) + [RunV(s, fa)] + ([RunV(x + y, fb)] + post) && 0 < |x| && 0 < |y|
    requires iso == u + (p1 + [RunV(s + x, fa)] + [RunV(y, fb)]) + post
    requires h == |u| + |p1| && m == |x|
    ensures h + 1 < |p| && p[h + 1].text == x + y && 0 < m < |p[h + 1].text|
    ensures MergeRunsV(SplitRunV(p, h + 1, m), h + 1) == iso
  {
    var pre := u + p1;
    assert h + 1 < |p| && p[..h] == pre && p[h] == RunV(s, fa) && p[h + 1] == RunV(x + y, fb) && p[h + 2..] == post by {
      Parts3(p, pre, RunV(s, fa), [RunV(x + y, fb)] + post);
    }
    assert MergeRunsV(SplitRunV(p, h + 1, |x|), h + 1) == pre + [RunV(s + x, fa)] + ([RunV(y, fb)] + post) by {
      SplitMergeShape(p, h, pre, s, fa, x, y, fb, post);
    }
  }

  /** The edit of the last step when the marker ends exactly at the end of the run after the partial one. */
  lemma NextRunWholeEdit(p: seq<RunV>, u: seq<RunV>, p1: seq<RunV>, s: string, fa: Fmt, x: string, fb: Fmt, post: seq<RunV>)
    requires p == (u + p1) + [RunV(s, fa)] + ([RunV(x, fb)] + post)
    ensures var h := |u| + |p1|; h + 1 < |p| && p[h + 1].text == x
    ensures MergeRunsV(p, |u| + |p1| + 1) == u + (p1 + [RunV(s + x, fa)] + []) + post
  {
    var pre := u + p1;
    var h := |pre|;
    assert h + 1 < |p| && p[..h] == pre && p[h] == RunV(s, fa) && p[h + 1] == RunV(x, fb) && p[h + 2..] == post by {
      Parts3(p, pre, RunV(s, fa), [RunV(x, fb)] + post);
    }
    var m := RunV(s + x, fa);
    assert MergeRunsV(p, h + 1) == pre + [m] + post by {
      MergeShape(p, h + 1, pre, s, fa, x, post);
    }
    assert p1 + [m] + [] == p1 + [m];
    Assoc(u, p1, [m]);
  }

  /** Cutting run h+1 and appending its head to run h. */
  lemma SplitMergeShape(p: seq<RunV>, h: nat, pre: seq<RunV>, s: string, fa: Fmt, x: string, y: string, fb: Fmt, post: seq<RunV>)
    requires h + 1 < |p| && p[..h] == pre && p[h] == RunV(s, fa) && p[h + 1] == RunV(x + y, fb) && p[h + 2..] == post
    requires 0 < |x| && 0 < |y|
    ensures MergeRunsV(SplitRunV(p, h + 1, |x|), h + 1) == pre + [RunV(s + x, fa)] + ([RunV(y, fb)] + post)
  {
    assert p[..h + 1] == pre + [RunV(s, fa)];
    SplitShape(p, h + 1, pre + [RunV(s, fa)], x, y, fb, post);
    var p2 := SplitRunV(p, h + 1, |x|);
    assert p2 == pre + [RunV(s, fa)] + [RunV(x, fb)] + ([RunV(y, fb)] + post);
    MergeShape(p2, h + 1, pre, s, fa, x, [RunV(y, fb)] + post);
  }

  /** Last step when the marker ends in the partial marker run: that run is cut just after the marker. */
  lemma EndInPartialRun(rs: seq<RunV>, start: nat, end: nat)
    requires start <= end < |Concat(rs)|
    requires RunsBefore(rs, start) == RunsBefore(rs, end)
    ensures var p := Scanned(rs, start, RunsBefore(rs, start) + 1); var h := MarkerIndex(rs, start);
      h < |p| && Offset(p, h) == start && end < Offset(p, h) + |p[h].text|
      && var m := end - start + 1;
      (m < |p[h].text| ==> SplitRunV(p, h, m) == IsolateRuns(rs, start, end))
      && (m == |p[h].text| ==> p == IsolateRuns(rs, start, end))
  {
    var t := Concat(rs);
    var a := RunsBefore(rs, start);
    PartialRunShapes(rs, start, end);
    ScannedMarkerStart(rs, start, a + 1);
    var oa, ob := Offset(rs, a), Offset(rs, a + 1);
    var f := rs[a].fmt;
    var x, y := t[start..end + 1], t[end + 1..ob];
    var p1, p2 := Piece(t, oa, start, f), Piece(t, end + 1, ob, f);
    var h := MarkerIndex(rs, start);
    assert h == |rs[..a]| + |p1|;
    PartialRunEdit(Scanned(rs, start, a + 1), IsolateRuns(rs, start, end), h, end - start + 1,
                   rs[..a], p1, x, y, f, p2, rs[a + 1..]);
  }

  /** In a scanned list, the marker run starts where the marker does. */
  lemma ScannedMarkerStart(rs: seq<RunV>, start: nat, q: nat)
    requires start < |Concat(rs)| && RunsBefore(rs, start) < q <= |rs|
    ensures MarkerIndex(rs, start) < |Scanned(rs, start, q)|
    ensures Offset(Scanned(rs, start, q), MarkerIndex(rs, start)) == start
  {
    ScannedShape(rs, start, q);
  }

  /** When the marker starts and ends in the same run, the scanned list and
      the isolated list, cut around that run. */
  lemma PartialRunShapes(rs: seq<RunV>, start: nat, end: nat)
    requires start <= end < |Concat(rs)|
    requires RunsBefore(rs, start) == RunsBefore(rs, end)
    ensures var t := Concat(rs); var a := RunsBefore(rs, start);
      a < |rs| && Offset(rs, a) <= start && end < Offset(rs, a + 1) <= |t|
      && var f := rs[a].fmt; var x := t[start..end + 1]; var y := t[end + 1..Offset(rs, a + 1)];
      var p1 := Piece(t, Offset(rs, a), start, f); var p2 := Piece(t, end + 1, Offset(rs, a + 1), f);
      && Scanned(rs, start, a + 1) == (rs[..a] + p1) + [RunV(x + y, f)] + rs[a + 1..]
      && IsolateRuns(rs, start, end) == rs[..a] + (p1 + [RunV(x, f)] + p2) + rs[a + 1..]
  {
    var t := Concat(rs);
    var a := RunsBefore(rs, start);
    RunsBeforeBounds(rs, start, end);
    OffsetMono(rs, a + 1, a + 1);
    var oa, ob := Offset(rs, a), Offset(rs, a + 1);
    Join2(t, start, end + 1, ob);
  }

  /** Where the marker ends when it ends in a later run than the one it starts in. */
  lemma EndInNextRun(rs: seq<RunV>, start: nat, end: nat)
    requires start <= end < |Concat(rs)|
    requires RunsBefore(rs, start) < RunsBefore(rs, end)
    ensures var b := RunsBefore(rs, end); var p := Scanned(rs, start, b); var h := MarkerIndex(rs, start);
      h + 1 < |p| && p[h + 1] == rs[b] && Offset(p, h + 1) == Offset(rs, b) && start < Offset(rs, b) <= end
      && end < Offset(rs, b + 1) == Offset(rs, b) + |rs[b].text| <= |Concat(rs)|
  {
    var b := RunsBefore(rs, end);
    RunsBeforeBounds(rs, start, end);
    ScannedShape(rs, start, b);
    RunAt(rs, b);
  }

  /** Last step when the marker ends inside the run after the partial one: that run is cut, and its head absorbed. */
  lemma EndInsideNextRun(rs: seq<RunV>, start: nat, end: nat)
    requires start <= end < |Concat(rs)|
    requires RunsBefore(rs, start) < RunsBefore(rs, end)
    requires end + 1 < Offset(rs, RunsBefore(rs, end) + 1)
    ensures var b := RunsBefore(rs, end); var p := Scanned(rs, start, b); var h := MarkerIndex(rs, start);
      h + 1 < |p| && 0 < end - Offset(rs, b) + 1 < |p[h + 1].text|
      && MergeRunsV(SplitRunV(p, h + 1, end - Offset(rs, b) + 1), h + 1) == IsolateRuns(rs, start, end)
  {
    var t := Concat(rs);
    var a := RunsBefore(rs, start);
    var b := RunsBefore(rs, end);
    EndInNextRun(rs, start, end);
    var oa, ob, ob1 := Offset(rs, a), Offset(rs, b), Offset(rs, b + 1);
    var fa, fb := rs[a].fmt, rs[b].fmt;
    var s, x, y := t[start..ob], t[ob..end + 1], t[end + 1..ob1];
    var p1 := Piece(t, oa, start, fa);
    var u, post := rs[..a], rs[b + 1..];
    var p := Scanned(rs, start, b);
    assert p == (u + p1) + [RunV(s, fa)] + ([RunV(x + y, fb)] + post) by {
      RunAt(rs, b);
      Join2(t, ob, end + 1, ob1);
      assert rs[b..] == [RunV(x + y, fb)] + post;
    }
    assert IsolateRuns(rs, start, end) == u + (p1 + [RunV(s + x, fa)] + [RunV(y, fb)]) + post by {
      Join2(t, start, ob, end + 1);
    }
    var h := MarkerIndex(rs, start);
    assert h == |u| + |p1|;
    NextRunCutEdit(p, IsolateRuns(rs, start, end), h, end - ob + 1, u, p1, s, fa, x, y, fb, post);
  }

  /** Last step when the marker ends exactly where the run after the partial one ends: that run is absorbed. */
  lemma EndWithNextRun(rs: seq<RunV>, start: nat, end: nat)
    requires start <= end < |Concat(rs)|
    requires RunsBefore(rs, start) < RunsBefore(rs, end)
    requires end + 1 == Offset(rs, RunsBefore(rs, end) + 1)
    ensures var b := RunsBefore(rs, end); var p := Scanned(rs, start, b); var h := MarkerIndex(rs, start);
      h + 1 < |p| && MergeRunsV(p, h + 1) == IsolateRuns(rs, start, end)
  {
    var t := Concat(rs);
    var a := RunsBefore(rs, start);
    var b := RunsBefore(rs, end);
    EndInNextRun(rs, start, end);
    var oa, ob := Offset(rs, a), Offset(rs, b);
    var fa, fb := rs[a].fmt, rs[b].fmt;
    var s, x := t[start..ob], t[ob..end + 1];
    var p1 := Piece(t, oa, start, fa);
    var u, post := rs[..a], rs[b + 1..];
    var p := Scanned(rs, start, b);
    assert p == (u + p1) + [RunV(s, fa)] + ([RunV(x, fb)] + post) by {
      RunAt(rs, b);
      assert rs[b..] == [RunV(x, fb)] + post;
    }
    assert IsolateRuns(rs, start, end) == u + (p1 + [RunV(s + x, fa)] + []) + post by {
      Join2(t, start, ob, end + 1);
    }
    NextRunWholeEdit(p, u, p1, s, fa, x, fb, post);
  }

  // ---------------------------------------------------------------------
  // One pass of formatInstr over the run list
  // ---------------------------------------------------------------------

  /**
   * The states formatInstr is in between two passes: before the marker's
   * start is found the runs are as they were; after it, they are a scanning
   * state Scanned(rs, start, q), where q never passes the run holding `end`
   * (or is just past the start run, when the marker ends there).
   */
  ghost predicate PassState(rs: seq<RunV>, start: nat, end: nat, startFound: bool, q: nat)
  {
    start <= end < |Concat(rs)|
    && (startFound ==>
          var a := RunsBefore(rs, start);
          a < q && (q <= RunsBefore(rs, end) || q == a + 1))
  }

  /** The run list in a given state. */
  ghost function Current(rs: seq<RunV>, start: nat, end: nat, startFound: bool, q: nat): seq<RunV>
    requires PassState(rs, start, end, startFound, q)
  {
    RunsBeforeBounds(rs, start, end);
    if startFound then Scanned(rs, start, q) else rs
  }

  /**
   * The first run at which a pass acts: the run holding `start` before it
   * is found; afterwards the partial marker run when the marker ends in it,
   * and the run after it otherwise.
   */
  ghost function Target(rs: seq<RunV>, start: nat, end: nat, startFound: bool): nat
    requires start <= end < |Concat(rs)|
  {
    var a := RunsBefore(rs, start);
    var h := MarkerIndex(rs, start);
    if !startFound then a else if a == RunsBefore(rs, end) then h else h + 1
  }

  /** What is left to do: finding the start, then absorbing the runs up to the run holding `end`. */
  ghost function Measure(rs: seq<RunV>, startFound: bool, q: nat): nat
  {
    if startFound then (if q <= |rs| then |rs| - q else 0) else |rs| + 1
  }

  /** The runs a pass goes past, and the one it acts at, exist. */
  lemma TargetExists(rs: seq<RunV>, start: nat, end: nat, startFound: bool, q: nat)
    requires PassState(rs, start, end, startFound, q)
    ensures Target(rs, start, end, startFound) < |Current(rs, start, end, startFound, q)|
    ensures startFound ==> q <= |rs|
  {
    RunsBeforeBounds(rs, start, end);
    if startFound {
      ScannedShape(rs, start, q);
    }
  }

  /** A run before the target meets none of the pass's three tests. */
  lemma PassSkips(rs: seq<RunV>, start: nat, end: nat, startFound: bool, q: nat, i: nat)
    requires PassState(rs, start, end, startFound, q)
    requires i < Target(rs, start, end, startFound)
    ensures var v := Current(rs, start, end, startFound, q);
      i < |v| && var pos := Offset(v, i); var next := pos + |v[i].text|;
      !(start < pos && end >= next)
      && !(start >= pos && start < next && !startFound)
      && !(end >= pos && end < next)
  {
    TargetExists(rs, start, end, startFound, q);
    var v := Current(rs, start, end, startFound, q);
    RunAt(v, i);
    var a := RunsBefore(rs, start);
    var h := MarkerIndex(rs, start);
    RunsBeforeBounds(rs, start, end);
    if !startFound {
      RunsBeforeExact(rs, start, i);
    } else {
      ScannedShape(rs, start, q);
      if i < h {
        OffsetMono(v, i + 1, h);
      } else {
        OffsetMono(rs, q, RunsBefore(rs, end));
      }
    }
  }

  /** The first pass at the run holding `start`: it is cut there, or the scanning starts with it as it is. */
  lemma PassAtStart(rs: seq<RunV>, start: nat, end: nat)
    requires start <= end < |Concat(rs)|
    ensures PassState(rs, start, end, false, 0) && PassState(rs, start, end, true, RunsBefore(rs, start) + 1)
    ensures var a := RunsBefore(rs, start); var v := Current(rs, start, end, false, 0);
      a == Target(rs, start, end, false) && a < |v| && var pos := Offset(v, a); var next := pos + |v[a].text|;
      !(start < pos && end >= next) && start >= pos && start < next
      && (start > pos ==> 0 < start - pos < |v[a].text|
                          && SplitRunV(v, a, start - pos) == Current(rs, start, end, true, a + 1))
      && (start == pos ==> v == Current(rs, start, end, true, a + 1) && a <= Target(rs, start, end, true))
  {
    RunsBeforeBounds(rs, start, end);
    StartFound(rs, start);
    RunAt(rs, RunsBefore(rs, start));
  }

  /** After the start is found, when the marker ends in the partial marker run: that run is cut after the marker. */
  lemma PassEndInPartial(rs: seq<RunV>, start: nat, end: nat, q: nat)
    requires PassState(rs, start, end, true, q) && RunsBefore(rs, start) == RunsBefore(rs, end)
    ensures var v := Current(rs, start, end, true, q); var i := Target(rs, start, end, true);
      i < |v| && var pos := Offset(v, i); var next := pos + |v[i].text|; var m := end - pos + 1;
      !(start < pos) && end >= pos && end < next && 0 < m <= |v[i].text|
      && (m < |v[i].text| ==> SplitRunV(v, i, m) == IsolateRuns(rs, start, end))
      && (m == |v[i].text| ==> v == IsolateRuns(rs, start, end))
  {
    RunsBeforeBounds(rs, start, end);
    EndInPartialRun(rs, start, end);
  }

  /** After the start is found, a run the marker spans completely is absorbed into the partial marker run. */
  lemma PassAbsorb(rs: seq<RunV>, start: nat, end: nat, q: nat)
    requires PassState(rs, start, end, true, q)
    requires RunsBefore(rs, start) < RunsBefore(rs, end) && q < RunsBefore(rs, end)
    ensures var v := Current(rs, start, end, true, q); var i := Target(rs, start, end, true);
      0 < i < |v| && var pos := Offset(v, i); var next := pos + |v[i].text|;
      start < pos && end >= next
      && PassState(rs, start, end, true, q + 1)
      && MergeRunsV(v, i) == Current(rs, start, end, true, q + 1)
      && Measure(rs, true, q + 1) < Measure(rs, true, q)
  {
    var b := RunsBefore(rs, end);
    RunsBeforeBounds(rs, start, end);
    ScannedShape(rs, start, q);
    RunAt(rs, q);
    OffsetMono(rs, q + 1, b);
    SpannedRunMerged(rs, start, q);
  }

  /** After the start is found, when the marker ends in the run after the partial one: its head is absorbed. */
  lemma PassEndInNext(rs: seq<RunV>, start: nat, end: nat, q: nat)
    requires PassState(rs, start, end, true, q)
    requires RunsBefore(rs, start) < RunsBefore(rs, end) && q == RunsBefore(rs, end)
    ensures var v := Current(rs, start, end, true, q); var i := Target(rs, start, end, true);
      0 < i < |v| && var pos := Offset(v, i); var next := pos + |v[i].text|; var m := end - pos + 1;
      start < pos && !(end >= next) && end >= pos && 0 < m <= |v[i].text|
      && (m < |v[i].text| ==> MergeRunsV(SplitRunV(v, i, m), i) == IsolateRuns(rs, start, end))
      && (m == |v[i].text| ==> MergeRunsV(v, i) == IsolateRuns(rs, start, end))
  {
    var b := RunsBefore(rs, end);
    RunsBeforeBounds(rs, start, end);
    EndInNextRun(rs, start, end);
    if end + 1 < Offset(rs, b + 1) {
      EndInsideNextRun(rs, start, end);
    } else {
      EndWithNextRun(rs, start, end);
    }
  }
}
