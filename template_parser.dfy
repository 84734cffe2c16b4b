/**
 * The template parser: it finds the markers in a document's paragraphs,
 * gives each marker a run of its own (formatInstr) and binds an instruction
 * to that run.
 *
 * formatInstr works on the paragraph in place.  It makes passes over the
 * run list; a pass stops at the first edit it makes (cutting a run, or
 * appending a run to the one before it) and the next pass starts over from
 * the first run.  It is proved against the closed form IsolateRuns of the
 * Runs module: whatever the runs, it ends with the marker's characters
 * [start, end] in one run and the paragraph's text unchanged.
 */
module TemplateParser {
  import opened Wrappers
  import opened Runs
  import opened Document
  import opened WordService
  import opened Markers
  import opened Instructions

  // ---------------------------------------------------------------------
  // formatInstr
  // ---------------------------------------------------------------------

  /**
   * The merge step of formatInstr: the run at numRun is appended to the one
   * before it (which keeps its own formatting) and removed from the paragraph.
   */
  method AppendToPrevious(paragraph: Paragraph, numRun: nat)
    requires paragraph.Valid() && 0 < numRun < |paragraph.runs|
    modifies paragraph, paragraph.runs[numRun - 1]
    ensures paragraph.Valid() && paragraph.fmt == old(paragraph.fmt)
    ensures paragraph.runs == old(paragraph.runs)[..numRun] + old(paragraph.runs)[numRun + 1..]
    ensures forall r :: r in paragraph.runs ==> r in old(paragraph.runs)
    ensures paragraph.runs[..numRun] == old(paragraph.runs)[..numRun]
    ensures paragraph.Value() == MergeRunsV(old(paragraph.Value()), numRun)
  {
    ghost var runs0 := paragraph.runs;
    ghost var v0 := paragraph.Value();
    var prevRun := paragraph.runs[numRun - 1];
    var run := paragraph.runs[numRun];
    assert v0[numRun - 1] == prevRun.Value() && v0[numRun] == run.Value();
    prevRun.text := prevRun.text + run.text;
    var removed := paragraph.RemoveRun(numRun);
    DistinctRemove(runs0, numRun);
    RemoveKeepsBefore(runs0, numRun, numRun);
    ghost var merged := MergeRunsV(v0, numRun);
    forall j | 0 <= j < |paragraph.runs|
      ensures paragraph.Value()[j] == merged[j]
    {
      assert paragraph.Value()[j] == paragraph.runs[j].Value();
      if j < numRun - 1 {
        assert paragraph.runs[j] == runs0[j] != prevRun;
        assert merged[j] == v0[j];
      } else if j == numRun - 1 {
        assert paragraph.runs[j] == prevRun;
        assert merged[j] == RunV(v0[j].text + v0[numRun].text, v0[j].fmt);
      } else {
        assert paragraph.runs[j] == runs0[j + 1] != prevRun;
        assert merged[j] == v0[j + 1];
      }
    }
  }

  /** The run list once the run holding the marker's end is cut after it, and its head appended to the run before when asked. */
  function CutAtEndV(v: seq<RunV>, k: nat, m: int, appendHead: bool): seq<RunV>
    requires k < |v| && (appendHead ==> 0 < k)
  {
    var w := if 0 < m < |v[k].text| then SplitRunV(v, k, m) else v;
    if appendHead then MergeRunsV(w, k) else w
  }

  /** splitRun(run, m) on the run at numRun of the paragraph: a no-op unless 0 < m < its length. */
  method SplitRunAt(paragraph: Paragraph, numRun: nat, m: int)
    requires paragraph.Valid() && numRun < |paragraph.runs|
    modifies paragraph, paragraph.runs
    ensures paragraph.Valid() && paragraph.fmt == old(paragraph.fmt)
    ensures forall r :: r in paragraph.runs ==> r in old(paragraph.runs) || fresh(r)
    ensures numRun < |paragraph.runs| && paragraph.runs[..numRun] == old(paragraph.runs)[..numRun]
    ensures paragraph.Value() == CutAtEndV(old(paragraph.Value()), numRun, m, false)
  {
    var run := paragraph.runs[numRun];
    IndexOfDistinct(paragraph.runs, numRun);
    SplitRun(paragraph, run, m);
    assert paragraph.runs[..numRun] == old(paragraph.runs)[..numRun];
  }

  /**
   * The end step of formatInstr: splitRun(run, m) on the run at numRun (a
   * no-op unless 0 < m < its length), then, when appendHead holds, the run
   * now at numRun appended to the one before it.
   */
  method CutAtEnd(paragraph: Paragraph, numRun: nat, m: int, appendHead: bool)
    requires paragraph.Valid() && numRun < |paragraph.runs| && (appendHead ==> 0 < numRun)
    modifies paragraph, paragraph.runs
    ensures paragraph.Valid() && paragraph.fmt == old(paragraph.fmt)
    ensures forall r :: r in paragraph.runs ==> r in old(paragraph.runs) || fresh(r)
    ensures numRun <= |paragraph.runs| && paragraph.runs[..numRun] == old(paragraph.runs)[..numRun]
    ensures paragraph.Value() == CutAtEndV(old(paragraph.Value()), numRun, m, appendHead)
  {
    SplitRunAt(paragraph, numRun, m);
    if appendHead {
      AppendToPrevious(paragraph, numRun);
    }
  }

  /** What visiting one run does: whether the pass stops, the two flags, and the run list after it. */
  datatype Visit = Visit(brk: bool, startFound: bool, endFound: bool, runs: seq<RunV>)

  /**
   * The body of a pass's loop on values, for the run at numRun, which
   * starts at pos: the three tests of formatInstr, in order, and the edit
   * made by the first one that holds.
   */
  function VisitV(v: seq<RunV>, start: int, end: int, numRun: nat, pos: int, startFound: bool): Visit
    requires numRun < |v| && 0 <= start && pos == Offset(v, numRun)
  {
    var next := pos + |v[numRun].text|;
    if start < pos && end >= next then
      Visit(true, startFound, false, MergeRunsV(v, numRun))
    else
      var found := startFound || (start >= pos && start < next);
      if start >= pos && start < next && !startFound && start > pos then
        Visit(true, true, false, SplitRunV(v, numRun, start - pos))
      else if end >= pos && end < next then
        Visit(true, found, true, CutAtEndV(v, numRun, end - pos + 1, start < pos))
      else
        Visit(false, found, false, v)
  }

  /** Where the scanning stands after a visit: the run after the start run once the start is found, one run further after each merge. */
  ghost function NextQ(rs: seq<RunV>, start: nat, startFound: bool, q: nat, w: Visit): nat
    requires start < |Concat(rs)|
  {
    if !startFound then (if w.startFound then RunsBefore(rs, start) + 1 else q)
    else if w.brk && !w.endFound then q + 1
    else q
  }

  /**
   * A visit goes from one state of formatInstr to the next: when it does
   * not stop the pass, nothing changed and the next run is still at or
   * before the target; when it stops with the end found, the marker is
   * isolated; otherwise the new run list is a later state.
   */
  ghost predicate VisitOk(rs: seq<RunV>, start: nat, end: nat, numRun: nat, sf: bool, q: nat)
    requires PassState(rs, start, end, sf, q)
    requires numRun < |Current(rs, start, end, sf, q)|
  {
    var v := Current(rs, start, end, sf, q);
    var w := VisitV(v, start, end, numRun, Offset(v, numRun), sf);
    var q' := NextQ(rs, start, sf, q, w);
    (!w.brk ==>
       !w.endFound && PassState(rs, start, end, w.startFound, q')
       && w.runs == v && v == Current(rs, start, end, w.startFound, q')
       && numRun < Target(rs, start, end, w.startFound) < |v|
       && (sf ==> w.startFound && q' == q)
       && (!sf && w.startFound ==> q' == RunsBefore(rs, start) + 1))
    && (w.brk ==> RunsBefore(rs, start) <= numRun)
    && (w.brk && w.endFound ==> w.runs == IsolateRuns(rs, start, end))
    && (w.brk && !w.endFound ==>
          PassState(rs, start, end, w.startFound, q')
          && w.runs == Current(rs, start, end, w.startFound, q')
          && Measure(rs, w.startFound, q') < Measure(rs, sf, q))
  }

  /** A run before the target is passed over. */
  lemma VisitBefore(rs: seq<RunV>, start: nat, end: nat, numRun: nat, sf: bool, q: nat)
    requires PassState(rs, start, end, sf, q)
    requires numRun < Target(rs, start, end, sf) < |Current(rs, start, end, sf, q)|
    ensures VisitOk(rs, start, end, numRun, sf, q)
  {
    PassSkips(rs, start, end, sf, q, numRun);
    if !sf {
      RunsBeforeExact(rs, start, numRun);
    }
  }

  /** The run holding the start, met for the first time. */
  lemma VisitStart(rs: seq<RunV>, start: nat, end: nat, numRun: nat, q: nat)
    requires PassState(rs, start, end, false, q)
    requires numRun == Target(rs, start, end, false) < |rs|
    ensures VisitOk(rs, start, end, numRun, false, q)
  {
    PassAtStart(rs, start, end);
    if Offset(rs, numRun) < start {
      VisitStartCut(rs, start, end, numRun, q);
    } else if numRun < Target(rs, start, end, true) {
      VisitStartPass(rs, start, end, numRun, q);
    } else {
      VisitStartEnd(rs, start, end, numRun, q);
    }
  }

  /** The run holding the start, when the marker starts inside it: the run is cut at the start. */
  lemma VisitStartCut(rs: seq<RunV>, start: nat, end: nat, numRun: nat, q: nat)
    requires PassState(rs, start, end, false, q)
    requires numRun == Target(rs, start, end, false) < |rs| && Offset(rs, numRun) < start
    ensures VisitOk(rs, start, end, numRun, false, q)
  {
    var a := RunsBefore(rs, start);
    PassAtStart(rs, start, end);
    TargetExists(rs, start, end, true, a + 1);
    var pos := Offset(rs, numRun);
    assert Current(rs, start, end, false, q) == rs;
    assert VisitV(rs, start, end, numRun, pos, false)
      == Visit(true, true, false, SplitRunV(rs, numRun, start - pos));
  }

  /** The run holding the start, when the marker starts with it and ends after it: the pass goes on. */
  lemma VisitStartPass(rs: seq<RunV>, start: nat, end: nat, numRun: nat, q: nat)
    requires PassState(rs, start, end, false, q)
    requires numRun == Target(rs, start, end, false) < |rs| && Offset(rs, numRun) == start
    requires numRun < Target(rs, start, end, true)
    ensures VisitOk(rs, start, end, numRun, false, q)
  {
    var a := RunsBefore(rs, start);
    PassAtStart(rs, start, end);
    TargetExists(rs, start, end, true, a + 1);
    PassSkips(rs, start, end, true, a + 1, numRun);
    assert Current(rs, start, end, false, q) == rs;
    assert VisitV(rs, start, end, numRun, start, false) == Visit(false, true, false, rs);
  }

  /** A marker that starts with run k and ends in it is isolated by cutting run k after its end. */
  lemma StartRunEnds(rs: seq<RunV>, start: nat, end: nat, k: nat)
    requires start <= end < |Concat(rs)|
    requires k == RunsBefore(rs, start) == RunsBefore(rs, end) && k < |rs| && Offset(rs, k) == start
    ensures end < start + |rs[k].text|
    ensures CutAtEndV(rs, k, end - start + 1, false) == IsolateRuns(rs, start, end)
  {
    PassAtStart(rs, start, end);
    assert Target(rs, start, end, true) == k;
    assert Current(rs, start, end, true, k + 1) == rs;
    PassEndInPartial(rs, start, end, k + 1);
  }

  /** The run holding the start, when the marker starts with it and ends in it: the run is cut after the end. */
  lemma VisitStartEnd(rs: seq<RunV>, start: nat, end: nat, numRun: nat, q: nat)
    requires PassState(rs, start, end, false, q)
    requires numRun == Target(rs, start, end, false) < |rs| && Offset(rs, numRun) == start
    requires numRun >= Target(rs, start, end, true)
    ensures VisitOk(rs, start, end, numRun, false, q)
  {
    var m := end - start + 1;
    assert MarkerIndex(rs, start) == numRun;
    assert RunsBefore(rs, start) == RunsBefore(rs, end);
    StartRunEnds(rs, start, end, numRun);
    assert Current(rs, start, end, false, q) == rs;
    assert VisitV(rs, start, end, numRun, start, false) == Visit(true, true, true, CutAtEndV(rs, numRun, m, false));
  }

  /** The target run once the start was found and the end is in the run where the marker starts. */
  lemma VisitEndHere(rs: seq<RunV>, start: nat, end: nat, q: nat)
    requires PassState(rs, start, end, true, q)
    requires RunsBefore(rs, start) == RunsBefore(rs, end)
    requires Target(rs, start, end, true) < |Current(rs, start, end, true, q)|
    ensures VisitOk(rs, start, end, Target(rs, start, end, true), true, q)
  {
    PassEndInPartial(rs, start, end, q);
  }

  /** The target run once the start was found, before the run holding the end: it is absorbed. */
  lemma VisitAbsorb(rs: seq<RunV>, start: nat, end: nat, q: nat)
    requires PassState(rs, start, end, true, q)
    requires RunsBefore(rs, start) < RunsBefore(rs, end) && q < RunsBefore(rs, end)
    requires Target(rs, start, end, true) < |Current(rs, start, end, true, q)|
    ensures VisitOk(rs, start, end, Target(rs, start, end, true), true, q)
  {
    PassAbsorb(rs, start, end, q);
  }

  /** The target run once the start was found, the run holding the end. */
  lemma VisitEndNext(rs: seq<RunV>, start: nat, end: nat, q: nat)
    requires PassState(rs, start, end, true, q)
    requires RunsBefore(rs, start) < RunsBefore(rs, end) && q == RunsBefore(rs, end)
    requires Target(rs, start, end, true) < |Current(rs, start, end, true, q)|
    ensures VisitOk(rs, start, end, Target(rs, start, end, true), true, q)
  {
    PassEndInNext(rs, start, end, q);
    var v := Current(rs, start, end, true, q);
    var i := Target(rs, start, end, true);
    var m := end - Offset(v, i) + 1;
    assert CutAtEndV(v, i, m, true) == IsolateRuns(rs, start, end);
    assert VisitV(v, start, end, i, Offset(v, i), true) == Visit(true, true, true, CutAtEndV(v, i, m, true));
  }

  lemma VisitStep(rs: seq<RunV>, start: nat, end: nat, numRun: nat, sf: bool, q: nat)
    requires PassState(rs, start, end, sf, q)
    requires numRun <= Target(rs, start, end, sf) < |Current(rs, start, end, sf, q)|
    ensures VisitOk(rs, start, end, numRun, sf, q)
    ensures var v := Current(rs, start, end, sf, q);
      VisitV(v, start, end, numRun, Offset(v, numRun), sf).brk ==> RunsBefore(rs, start) <= numRun
  {
    var a := RunsBefore(rs, start);
    var b := RunsBefore(rs, end);
    RunsBeforeBounds(rs, start, end);
    if numRun < Target(rs, start, end, sf) {
      VisitBefore(rs, start, end, numRun, sf, q);
    } else if !sf {
      VisitStart(rs, start, end, numRun, q);
    } else if a == b {
      VisitEndHere(rs, start, end, q);
    } else if q < b {
      VisitAbsorb(rs, start, end, q);
    } else {
      VisitEndNext(rs, start, end, q);
    }
  }

  /**
   * The body of a pass's loop, for the run at numRun, which starts at pos:
   * the three tests of formatInstr and the edit the first one that holds
   * makes.  brk says the pass stops here.  This is the first test, the run
   * lying inside the marker and merged into the one before it.
   */
  method VisitRun(paragraph: Paragraph, start: int, end: int, numRun: nat, pos: int, startFound0: bool)
    returns (nextPos: int, brk: bool, startFound: bool, endFound: bool)
    requires paragraph.Valid() && 0 <= start && numRun < |paragraph.runs|
    requires pos == Offset(paragraph.Value(), numRun)
    modifies paragraph, paragraph.runs
    ensures paragraph.Valid() && paragraph.fmt == old(paragraph.fmt)
    ensures forall r :: r in paragraph.runs ==> r in old(paragraph.runs) || fresh(r)
    ensures numRun <= |paragraph.runs| && paragraph.runs[..numRun] == old(paragraph.runs)[..numRun]
    ensures !brk ==> paragraph.runs == old(paragraph.runs)
    ensures nextPos == pos + |old(paragraph.Value())[numRun].text|
    ensures Visit(brk, startFound, endFound, paragraph.Value())
      == VisitV(old(paragraph.Value()), start, end, numRun, pos, startFound0)
  {
    ghost var v := paragraph.Value();
    var run := paragraph.runs[numRun];
    assert run.Value() == v[numRun];
    nextPos := pos + |run.text|;
    if numRun == 0 {
      assert pos == 0;
    }
    if start < pos && end >= nextPos {
      AppendToPrevious(paragraph, numRun);
      brk, startFound, endFound := true, startFound0, false;
      return;
    }
    brk, startFound, endFound := VisitRest(paragraph, start, end, numRun, pos, startFound0);
  }

  /** The second and third tests of a visit: the run holding the start, then the run holding the end. */
  method VisitRest(paragraph: Paragraph, start: int, end: int, numRun: nat, pos: int, startFound0: bool)
    returns (brk: bool, startFound: bool, endFound: bool)
    requires paragraph.Valid() && 0 <= start && numRun < |paragraph.runs|
    requires pos == Offset(paragraph.Value(), numRun)
    requires !(start < pos && end >= pos + |paragraph.runs[numRun].text|)
    modifies paragraph, paragraph.runs
    ensures paragraph.Valid() && paragraph.fmt == old(paragraph.fmt)
    ensures forall r :: r in paragraph.runs ==> r in old(paragraph.runs) || fresh(r)
    ensures numRun <= |paragraph.runs| && paragraph.runs[..numRun] == old(paragraph.runs)[..numRun]
    ensures !brk ==> paragraph.runs == old(paragraph.runs)
    ensures Visit(brk, startFound, endFound, paragraph.Value())
      == VisitV(old(paragraph.Value()), start, end, numRun, pos, startFound0)
  {
    ghost var v := paragraph.Value();
    assert paragraph.runs[numRun].Value() == v[numRun];
    var nextPos := pos + |paragraph.runs[numRun].text|;
    startFound := startFound0;
    if start >= pos && start < nextPos && !startFound {
      var startPosInRun := start - pos;
      startFound := true;
      if start > pos {
        SplitRunAt(paragraph, numRun, startPosInRun);
        brk, endFound := true, false;
        return;
      }
    }
    brk, endFound := VisitEnd(paragraph, start, end, numRun, pos, v);
  }

  /** The third test of a visit: the run holding the end is cut after it, and appended to the one before when the marker started earlier. */
  method VisitEnd(paragraph: Paragraph, start: int, end: int, numRun: nat, pos: int, ghost v: seq<RunV>)
    returns (brk: bool, endFound: bool)
    requires paragraph.Valid() && 0 <= start && numRun < |paragraph.runs|
    requires v == paragraph.Value() && pos == Offset(v, numRun)
    modifies paragraph, paragraph.runs
    ensures paragraph.Valid() && paragraph.fmt == old(paragraph.fmt)
    ensures forall r :: r in paragraph.runs ==> r in old(paragraph.runs) || fresh(r)
    ensures numRun <= |paragraph.runs| && paragraph.runs[..numRun] == old(paragraph.runs)[..numRun]
    ensures brk == endFound == (pos <= end < pos + |v[numRun].text|)
    ensures endFound ==> paragraph.Value() == CutAtEndV(v, numRun, end - pos + 1, start < pos)
    ensures !endFound ==> paragraph.runs == old(paragraph.runs) && paragraph.Value() == v
  {
    assert paragraph.runs[numRun].Value() == v[numRun];
    if numRun == 0 {
      assert pos == 0;
    }
    var nextPos := pos + |paragraph.runs[numRun].text|;
    brk, endFound := false, false;
    if end >= pos && end < nextPos {
      var endPosInRun := end - pos;
      endFound := true;
      CutAtEnd(paragraph, numRun, endPosInRun + 1, start < pos);
      brk := true;
    }
  }


  /** Two sequences that agree on their first n elements agree on any shorter prefix. */
  lemma SharedPrefix<T>(s: seq<T>, t: seq<T>, n: nat, m: nat)
    requires m <= n <= |s| && n <= |t| && s[..n] == t[..n]
    ensures s[..m] == t[..m]
  {
    assert s[..m] == s[..n][..m];
    assert t[..m] == t[..n][..m];
  }

  /**
   * One turn of a pass's loop: the visit of the run at numRun, as a move
   * from one state of formatInstr to the next.
   */
  method ScanStep(paragraph: Paragraph, start: int, end: int, numRun: nat, pos: int, startFound0: bool,
                  ghost rs: seq<RunV>, ghost q0: nat)
    returns (nextPos: int, brk: bool, startFound: bool, endFound: bool, ghost q: nat)
    requires paragraph.Valid() && 0 <= start <= end
    requires PassState(rs, start, end, startFound0, q0)
    requires paragraph.Value() == Current(rs, start, end, startFound0, q0)
    requires numRun <= Target(rs, start, end, startFound0) < |paragraph.runs|
    requires pos == Offset(paragraph.Value(), numRun)
    modifies paragraph, paragraph.runs
    ensures paragraph.Valid() && paragraph.fmt == old(paragraph.fmt)
    ensures forall r :: r in paragraph.runs ==> r in old(paragraph.runs) || fresh(r)
    ensures var a := RunsBefore(rs, start);
      a <= |paragraph.runs| && a <= |old(paragraph.runs)| && paragraph.runs[..a] == old(paragraph.runs)[..a]
    ensures !brk ==>
      !endFound && paragraph.runs == old(paragraph.runs)
      && Scanning(paragraph.Value(), rs, start, end, startFound0, q0, startFound, q, numRun + 1, nextPos)
    ensures brk ==> Stopped(paragraph.Value(), rs, start, end, startFound0, q0, startFound, q, endFound)
  {
    ghost var a := RunsBefore(rs, start);
    RunsBeforeBounds(rs, start, end);
    VisitStep(rs, start, end, numRun, startFound0, q0);
    ghost var w := VisitV(paragraph.Value(), start, end, numRun, pos, startFound0);
    RunAt(paragraph.Value(), numRun);
    nextPos, brk, startFound, endFound := VisitRun(paragraph, start, end, numRun, pos, startFound0);
    assert Visit(brk, startFound, endFound, paragraph.Value()) == w;
    q := NextQ(rs, start, startFound0, q0, w);
    if brk {
      SharedPrefix(paragraph.runs, old(paragraph.runs), numRun, a);
    }
  }

  /**
   * One pass of formatInstr's outer loop: the runs are visited from the
   * first one, with pos the offset where the run starts, until one of the
   * three edits is made.  A run that starts after `start` and ends by `end`
   * is appended to the one before it; the run holding `start`, the first
   * time it is met, is cut there; the run holding `end` is cut just after
   * it, and its head appended to the run before it when that run holds the
   * marker's start.
   */
  method ScanRuns(paragraph: Paragraph, start: int, end: int, startFound0: bool, ghost rs: seq<RunV>, ghost q0: nat)
    returns (startFound: bool, endFound: bool, ghost q: nat)
    requires paragraph.Valid() && 0 <= start <= end
    requires PassState(rs, start, end, startFound0, q0)
    requires paragraph.Value() == Current(rs, start, end, startFound0, q0)
    modifies paragraph, paragraph.runs
    ensures paragraph.Valid() && paragraph.fmt == old(paragraph.fmt)
    ensures forall r :: r in paragraph.runs ==> r in old(paragraph.runs) || fresh(r)
    ensures var a := RunsBefore(rs, start);
      a <= |paragraph.runs| && a <= |old(paragraph.runs)| && paragraph.runs[..a] == old(paragraph.runs)[..a]
    ensures endFound ==> paragraph.Value() == IsolateRuns(rs, start, end)
    ensures !endFound ==>
      PassState(rs, start, end, startFound, q)
      && paragraph.Value() == Current(rs, start, end, startFound, q)
      && Measure(rs, startFound, q) < Measure(rs, startFound0, q0)
  {
    ghost var a := RunsBefore(rs, start);
    RunsBeforeBounds(rs, start, end);
    TargetExists(rs, start, end, startFound0, q0);
    startFound, endFound, q := startFound0, false, q0;
    var pos := 0;
    var numRun := 0;
    var brk := false;
    while !brk && numRun < |paragraph.runs|
      invariant paragraph.Valid() && paragraph.fmt == old(paragraph.fmt)
      invariant forall r :: r in paragraph.runs ==> r in old(paragraph.runs) || fresh(r)
      invariant a <= |paragraph.runs| && paragraph.runs[..a] == old(paragraph.runs)[..a]
      invariant !brk ==>
        !endFound && paragraph.runs == old(paragraph.runs)
        && Scanning(paragraph.Value(), rs, start, end, startFound0, q0, startFound, q, numRun, pos)
      invariant brk ==> Stopped(paragraph.Value(), rs, start, end, startFound0, q0, startFound, q, endFound)
      decreases !brk, |paragraph.runs| - numRun
    {
      numRun, pos, brk, startFound, endFound, q := ScanTurn(paragraph, start, end, startFound0, rs, q0,
                                                            numRun, pos, startFound, q, old(paragraph.runs), a);
    }
  }

  /** One turn of the run loop of a pass, stated against the pass's starting state (startFound0, q0). */
  method ScanTurn(paragraph: Paragraph, start: int, end: int, startFound0: bool, ghost rs: seq<RunV>, ghost q0: nat,
                  numRun: nat, pos: int, startFound: bool, ghost q: nat, ghost runs0: seq<Run>, ghost a: nat)
    returns (numRun': nat, pos': int, brk: bool, startFound': bool, endFound: bool, ghost q': nat)
    requires paragraph.Valid() && 0 <= start <= end && a == RunsBefore(rs, start)
    requires paragraph.runs == runs0 && numRun < |runs0|
    requires Scanning(paragraph.Value(), rs, start, end, startFound0, q0, startFound, q, numRun, pos)
    modifies paragraph, paragraph.runs
    ensures paragraph.Valid() && paragraph.fmt == old(paragraph.fmt)
    ensures forall r :: r in paragraph.runs ==> r in runs0 || fresh(r)
    ensures a <= |paragraph.runs| && a <= |runs0| && paragraph.runs[..a] == runs0[..a]
    ensures !brk ==>
      !endFound && paragraph.runs == runs0 && numRun' == numRun + 1
      && Scanning(paragraph.Value(), rs, start, end, startFound0, q0, startFound', q', numRun', pos')
    ensures brk ==> Stopped(paragraph.Value(), rs, start, end, startFound0, q0, startFound', q', endFound)
  {
    pos', brk, startFound', endFound, q' := ScanStep(paragraph, start, end, numRun, pos, startFound, rs, q);
    numRun' := numRun + 1;
    if !brk {
      ScanningChain(paragraph.Value(), rs, start, end, startFound0, q0, startFound, q, startFound', q', numRun', pos');
    } else {
      StoppedChain(paragraph.Value(), rs, start, end, startFound0, q0, startFound, q, startFound', q', endFound);
    }
  }

  /** The pass state (sf, q) follows from (sf0, q0) within one pass: once the start is found, q stays put. */
  ghost predicate Follows(rs: seq<RunV>, start: nat, sf0: bool, q0: nat, sf: bool, q: nat)
  {
    (sf0 ==> sf && q == q0) && (!sf0 && sf ==> q == RunsBefore(rs, start) + 1)
  }

  /** formatInstr's run loop going on: at run numRun, at text position pos, of the runs a pass state says. */
  ghost predicate Scanning(v: seq<RunV>, rs: seq<RunV>, start: nat, end: nat, sf0: bool, q0: nat,
                           sf: bool, q: nat, numRun: nat, pos: int)
  {
    PassState(rs, start, end, sf, q) && v == Current(rs, start, end, sf, q)
    && numRun <= Target(rs, start, end, sf) < |v| && pos == Offset(v, numRun)
    && Follows(rs, start, sf0, q0, sf, q)
  }

  /** formatInstr's run loop stopped: the marker is isolated, or a later pass must go on. */
  ghost predicate Stopped(v: seq<RunV>, rs: seq<RunV>, start: nat, end: nat, sf0: bool, q0: nat,
                          sf: bool, q: nat, endFound: bool)
  {
    start <= end < |Concat(rs)|
    && (endFound ==> v == IsolateRuns(rs, start, end))
    && (!endFound ==>
          PassState(rs, start, end, sf, q) && v == Current(rs, start, end, sf, q)
          && Measure(rs, sf, q) < Measure(rs, sf0, q0))
  }

  lemma ScanningChain(v: seq<RunV>, rs: seq<RunV>, start: nat, end: nat, sf0: bool, q0: nat,
                      sf1: bool, q1: nat, sf: bool, q: nat, numRun: nat, pos: int)
    requires Follows(rs, start, sf0, q0, sf1, q1)
    requires Scanning(v, rs, start, end, sf1, q1, sf, q, numRun, pos)
    ensures Scanning(v, rs, start, end, sf0, q0, sf, q, numRun, pos)
  {
  }

  lemma StoppedChain(v: seq<RunV>, rs: seq<RunV>, start: nat, end: nat, sf0: bool, q0: nat,
                     sf1: bool, q1: nat, sf: bool, q: nat, endFound: bool)
    requires Follows(rs, start, sf0, q0, sf1, q1)
    requires Stopped(v, rs, start, end, sf1, q1, sf, q, endFound)
    ensures Stopped(v, rs, start, end, sf0, q0, sf, q, endFound)
  {
  }

  /**
   * formatInstr(paragraph, start, end): the characters [start, end] of the
   * paragraph's text end up as the whole text of one run, the marker run,
   * which has the formatting of the run where the marker started.  Runs
   * wholly before the marker are the same objects as before.
   */
  method FormatInstr(paragraph: Paragraph, start: int, end: int)
    requires paragraph.Valid()
    requires 0 <= start <= end < |paragraph.Text()|
    modifies paragraph, paragraph.runs
    ensures paragraph.Valid() && paragraph.fmt == old(paragraph.fmt)
    ensures paragraph.Value() == IsolateRuns(old(paragraph.Value()), start, end)
    ensures forall r :: r in paragraph.runs ==> r in old(paragraph.runs) || fresh(r)
    ensures var a := RunsBefore(old(paragraph.Value()), start);
      a <= |old(paragraph.runs)| && a <= |paragraph.runs| && paragraph.runs[..a] == old(paragraph.runs)[..a]
  {
    ghost var rs := paragraph.Value();
    ghost var a := RunsBefore(rs, start);
    RunsBeforeBounds(rs, start, end);
    var startFound := false;
    var endFound := false;
    ghost var q: nat := 0;
    while !endFound
      invariant paragraph.Valid() && paragraph.fmt == old(paragraph.fmt)
      invariant forall r :: r in paragraph.runs ==> r in old(paragraph.runs) || fresh(r)
      invariant a <= |paragraph.runs| && paragraph.runs[..a] == old(paragraph.runs)[..a]
      invariant endFound ==> paragraph.Value() == IsolateRuns(rs, start, end)
      invariant !endFound ==>
        PassState(rs, start, end, startFound, q) && paragraph.Value() == Current(rs, start, end, startFound, q)
      decreases if endFound then 0 else Measure(rs, startFound, q) + 1
    {
      assert forall j :: 0 <= j < |paragraph.runs| ==> paragraph.runs[j] in old(paragraph.runs) || fresh(paragraph.runs[j]);
      startFound, endFound, q := ScanRuns(paragraph, start, end, startFound, rs, q);
    }
  }

  // ---------------------------------------------------------------------
  // findInstr on a paragraph
  // ---------------------------------------------------------------------

  /** The text of a match, or "" for positions outside the text. */
  function MatchText(text: string, m: Match): string
  {
    if m.start <= m.end <= |text| then text[m.start..m.end] else ""
  }

  /** What createInstruction makes of a marker: an element bound to it, or null (None) when no manager takes it. */
  function Created(w: string): Option<string>
  {
    if InterpolationManager.IsOfType(w) then Some(w) else None
  }

  /** The instructions findInstr yields for a paragraph text, one per match, as their expressions. */
  function MarkerExpressions(text: string): (r: seq<Option<string>>)
    ensures |r| == |Matches(text)|
  {
    var ms := Matches(text);
    seq(|ms|, i requires 0 <= i < |ms| => Created(MatchText(text, ms[i])))
  }

  /** The expressions of a list of instructions (None for a null entry). */
  function Expressions(list: seq<InstructionElement?>): (r: seq<Option<string>>)
    reads set i | 0 <= i < |list| && list[i] != null :: list[i]
    ensures |r| == |list|
    ensures forall i :: 0 <= i < |list| ==> r[i] == (if list[i] == null then None else list[i].expression)
  {
    if |list| == 0 then [] else [if list[0] == null then None else list[0].expression] + Expressions(list[1..])
  }

  lemma ExpressionsAppend(a: seq<InstructionElement?>, b: seq<InstructionElement?>)
    ensures Expressions(a + b) == Expressions(a) + Expressions(b)
  {
  }

  /**
   * The first run whose text is w (|vs| when there is none): the run
   * findInstr binds a match to.
   */
  function FirstWithText(vs: seq<RunV>, w: string): (k: nat)
    ensures k <= |vs|
    ensures k < |vs| ==> vs[k].text == w
    ensures forall j :: 0 <= j < k ==> vs[j].text != w
  {
    if |vs| == 0 then 0
    else if vs[0].text == w then 0
    else FirstWithText(vs[1..], w) + 1
  }

  /**
   * findInstr's search for the run to bind, as written: the runs are visited
   * in order and the first one whose text equals the match is taken.
   */
  method FirstRunWithText(paragraph: Paragraph, w: string) returns (k: nat)
    ensures k == FirstWithText(paragraph.Value(), w)
  {
    ghost var v := paragraph.Value();
    k := 0;
    while k < |paragraph.runs| && paragraph.runs[k].text != w
      invariant k <= |paragraph.runs|
      invariant forall j :: 0 <= j < k ==> v[j].text != w
    {
      k := k + 1;
    }
    if k < |paragraph.runs| {
      assert v[k].text == w;
    }
  }

  /** The runs "${a}", " ", "${a}" of a paragraph whose text holds the same marker twice. */
  function EqualMarkers(): seq<RunV>
  {
    [RunV("${a}", NoFmt), RunV(" ", NoFmt), RunV("${a}", NoFmt)]
  }

  /** The text of EqualMarkers() and where its runs start. */
  lemma EqualMarkersText()
    ensures var v := EqualMarkers();
      Concat(v) == "${a} ${a}" && Offset(v, 1) == 4 && Offset(v, 2) == 5 && Offset(v, 3) == 9
  {
    var v := EqualMarkers();
    assert Span(v, 0, 0) == "";
    assert Span(v, 0, 1) == "" + v[0].text == "${a}";
    assert Span(v, 0, 2) == "${a}" + v[1].text == "${a} ";
    assert Span(v, 0, 3) == "${a} " + v[2].text == "${a} ${a}";
  }

  /** The matcher reports both markers of "${a} ${a}". */
  lemma EqualMarkersMatches()
    ensures Matches("${a} ${a}") == [Match(0, 4), Match(5, 9)]
  {
    var s := "${a} ${a}";
    assert MatchesFrom(s, 5) == [Match(5, 9)] by {
      assert FindFrom(s, 5) == Some(Match(5, 9)) by {
        assert CloseFrom(s, 7, '}') == Some(8);
      }
      assert FindFrom(s, 9) == None;
    }
    assert FindFrom(s, 0) == Some(Match(0, 4)) by {
      assert CloseFrom(s, 2, '}') == Some(3);
    }
    assert FindFrom(s, 4) == FindFrom(s, 5);
  }

  /** formatInstr leaves the runs of EqualMarkers() as they are, for either match. */
  lemma EqualMarkersIsolated()
    ensures var v := EqualMarkers();
      |Concat(v)| == 9 && IsolateRuns(v, 0, 3) == v && IsolateRuns(v, 5, 8) == v
  {
    var v := EqualMarkers();
    var t := "${a} ${a}";
    EqualMarkersText();
    RunsBeforeExact(v, 0, 0);
    RunsBeforeExact(v, 3, 0);
    assert RunsBefore(v, 0) == 0 && RunsBefore(v, 3) == 0;
    assert t[0..4] == "${a}";
    assert Middle(t, 0, 0, 3, 4, NoFmt, NoFmt) == [v[0]];
    assert IsolateRuns(v, 0, 3) == [] + [v[0]] + v[1..];
    RunsBeforeExact(v, 5, 1);
    RunsBeforeExact(v, 5, 2);
    RunsBeforeExact(v, 8, 1);
    RunsBeforeExact(v, 8, 2);
    assert RunsBefore(v, 5) == 2 && RunsBefore(v, 8) == 2;
    assert t[5..9] == "${a}";
    assert Middle(t, 5, 5, 8, 9, NoFmt, NoFmt) == [v[2]];
    assert IsolateRuns(v, 5, 8) == v[..2] + [v[2]] + [];
  }

  /**
   * Two equal markers in one paragraph, "${a} ${a}", already in runs of
   * their own, which formatInstr leaves as they are.  The matcher reports
   * both, but the search as written binds both to run 0, while the second
   * marker's own run, run 2, is never bound.
   */
  lemma EqualMarkersAsWritten()
    ensures var v := EqualMarkers();
      Matches(Concat(v)) == [Match(0, 4), Match(5, 9)]
      && IsolateRuns(v, 0, 3) == v && IsolateRuns(v, 5, 8) == v
      && FirstWithText(v, "${a}") == 0
      && Offset(v, 2) == 5 && v[2].text == "${a}"
  {
    EqualMarkersText();
    EqualMarkersMatches();
    EqualMarkersIsolated();
  }

  /**
   * The search as intended: the first run that starts where the match
   * starts and whose text equals the match, which after formatInstr is the
   * marker run itself.
   */
  method MarkerRun(paragraph: Paragraph, start: nat, w: string, ghost v: seq<RunV>) returns (k: nat)
    requires v == paragraph.Value()
    ensures k <= |v|
    ensures k < |v| ==> Offset(v, k) == start && v[k].text == w
    ensures forall j :: 0 <= j < k ==> !(Offset(v, j) == start && v[j].text == w)
  {
    var pos := 0;
    k := 0;
    while k < |paragraph.runs| && !(pos == start && paragraph.runs[k].text == w)
      invariant k <= |paragraph.runs| && pos == Offset(v, k)
      invariant forall j :: 0 <= j < k ==> !(Offset(v, j) == start && v[j].text == w)
    {
      RunAt(v, k);
      pos := pos + |paragraph.runs[k].text|;
      k := k + 1;
    }
  }

  /**
   * The instruction bound to the match m of the paragraph text: run k of
   * the paragraph starts where the match starts and holds exactly the
   * matched text, and the element is bound to that run and that text, or
   * is null when no manager takes the text.
   */
  ghost predicate Bound(v: seq<RunV>, runs: seq<Run>, e: InstructionElement?, k: nat, text: string, m: Match)
    reads e
  {
    var w := MatchText(text, m);
    k < |v| == |runs| && m.start < m.end <= |text|
    && Offset(v, k) == m.start && Offset(v, k + 1) == m.end && v[k].text == w
    && (e == null <==> !InterpolationManager.IsOfType(w))
    && (e != null ==> e.kind == InterpolationElement && e.expression == Some(w) && e.run == runs[k])
  }

  /**
   * v is the run list v0 once the marker of the match m is isolated: run k
   * starts where the match starts and holds exactly the matched text, the
   * runs before it that start there are empty, the text is unchanged and
   * the first `bound` runs are as they were.
   */
  ghost predicate MarkerAt(v0: seq<RunV>, v: seq<RunV>, text: string, m: Match, bound: nat, k: nat)
  {
    m.start < m.end <= |text| && bound <= |v0| && bound <= k < |v|
    && v[..bound] == v0[..bound] && Concat(v) == text
    && Offset(v, k) == m.start && Offset(v, k + 1) == m.end && v[k].text == text[m.start..m.end]
    && forall j :: 0 <= j < k && Offset(v, j) == m.start ==> v[j].text == ""
  }

  /**
   * Where the marker run is once a marker is isolated, and what stays: the
   * runs that end before the marker, the first `bound` of them included.
   */
  lemma IsolatedMarker(v0: seq<RunV>, text: string, m: Match, start: nat, end: nat, bound: nat)
    requires Concat(v0) == text && m.start == start <= end == m.end - 1 < |text|
    requires bound <= |v0| && Offset(v0, bound) <= start
    ensures bound <= RunsBefore(v0, start) <= |v0|
    ensures RunsBefore(v0, start) <= |IsolateRuns(v0, start, end)|
    ensures MarkerAt(v0, IsolateRuns(v0, start, end), text, m, bound, MarkerIndex(v0, start))
  {
    var v := IsolateRuns(v0, start, end);
    var k := MarkerIndex(v0, start);
    IsolateRunsIsolates(v0, start, end);
    IsolateRunsKeepsOutside(v0, start, end);
    IsolateRunsKeepsText(v0, start, end);
    var a := RunsBefore(v0, start);
    if bound > 0 {
      RunsBeforeExact(v0, start, bound - 1);
    }
    SharedPrefix(v, v0, a, bound);
    RunAt(v, k);
    OnlyEmptyBefore(v, k);
  }

  /**
   * formatInstr on the match m, and where its marker run then is: run k
   * starts where the match starts and holds exactly the matched text, and
   * the runs before it that start there are empty.  The first `bound` runs,
   * which end before the match, are left as they are.
   */
  method IsolateMatch(paragraph: Paragraph, text: string, m: Match, ghost bound: nat) returns (ghost k: nat)
    requires paragraph.Valid() && paragraph.Text() == text
    requires m.start < m.end <= |text|
    requires bound <= |paragraph.runs| && Offset(paragraph.Value(), bound) <= m.start
    modifies paragraph, paragraph.runs
    ensures paragraph.Valid() && paragraph.fmt == old(paragraph.fmt) && paragraph.Text() == text
    ensures forall r :: r in paragraph.runs ==> r in old(paragraph.runs) || fresh(r)
    ensures bound <= |paragraph.runs| && paragraph.runs[..bound] == old(paragraph.runs)[..bound]
    ensures MarkerAt(old(paragraph.Value()), paragraph.Value(), text, m, bound, k)
  {
    ghost var v0 := paragraph.Value();
    ghost var runs0 := paragraph.runs;
    var start := m.start;
    var end := m.end - 1;
    FormatInstr(paragraph, start, end);
    IsolatedMarker(v0, text, m, start, end, bound);
    SharedPrefix(paragraph.runs, runs0, RunsBefore(v0, start), bound);
    k := MarkerIndex(v0, start);
  }

  /** The search for the first run at `start` holding w finds the marker run k. */
  lemma MarkerRunFound(v: seq<RunV>, start: nat, w: string, idx: nat, k: nat)
    requires idx <= |v| && forall j :: 0 <= j < idx ==> !(Offset(v, j) == start && v[j].text == w)
    requires idx < |v| ==> Offset(v, idx) == start && v[idx].text == w
    requires k < |v| && Offset(v, k) == start && v[k].text == w && w != ""
    requires forall j :: 0 <= j < k && Offset(v, j) == start ==> v[j].text == ""
    ensures idx == k
  {
    assert Offset(v, k) == start && v[k].text == w;
    assert idx < |v| ==> Offset(v, idx) == start && v[idx].text == w;
  }

  /**
   * The body of findInstr's loop for the match m: the marker is given a run
   * of its own, the run is looked up, and the instruction service builds the
   * element for it.  The first `bound` runs, which end before the match,
   * are left as they are.
   */
  method BindMarker(paragraph: Paragraph, holder: ServiceHolder, text: string, m: Match, ghost bound: nat)
    returns (e: InstructionElement?, ghost k: nat)
    requires paragraph.Valid() && holder.Valid() && paragraph.Text() == text
    requires m.start < m.end <= |text|
    requires bound <= |paragraph.runs| && Offset(paragraph.Value(), bound) <= m.start
    modifies paragraph, paragraph.runs, holder
    ensures paragraph.Valid() && holder.Valid() && paragraph.fmt == old(paragraph.fmt) && paragraph.Text() == text
    ensures forall r :: r in paragraph.runs ==> r in old(paragraph.runs) || fresh(r)
    ensures bound <= k < |paragraph.runs| && paragraph.runs[..bound] == old(paragraph.runs)[..bound]
    ensures paragraph.Value()[..bound] == old(paragraph.Value())[..bound]
    ensures Bound(paragraph.Value(), paragraph.runs, e, k, text, m)
    ensures e != null ==> fresh(e)
  {
    var run;
    run, k := LocateMarker(paragraph, text, m, bound);
    ghost var v, runs := paragraph.Value(), paragraph.runs;
    label located:
    var service := holder.Init();
    e := service.CreateInstruction(run.text, run);
    assert paragraph.runs == runs;
    ValuesFrame@located(runs);
  }

  /** The paragraph half of binding a marker: isolate it, then find the run that holds it. */
  method LocateMarker(paragraph: Paragraph, text: string, m: Match, ghost bound: nat) returns (run: Run, ghost k: nat)
    requires paragraph.Valid() && paragraph.Text() == text
    requires m.start < m.end <= |text|
    requires bound <= |paragraph.runs| && Offset(paragraph.Value(), bound) <= m.start
    modifies paragraph, paragraph.runs
    ensures paragraph.Valid() && paragraph.fmt == old(paragraph.fmt) && paragraph.Text() == text
    ensures forall r :: r in paragraph.runs ==> r in old(paragraph.runs) || fresh(r)
    ensures bound <= k < |paragraph.runs| && paragraph.runs[..bound] == old(paragraph.runs)[..bound]
    ensures paragraph.Value()[..bound] == old(paragraph.Value())[..bound]
    ensures run == paragraph.runs[k] && run.text == MatchText(text, m)
    ensures Offset(paragraph.Value(), k) == m.start && Offset(paragraph.Value(), k + 1) == m.end
  {
    k := IsolateMatch(paragraph, text, m, bound);
    ghost var v := paragraph.Value();
    var group := text[m.start..m.end];
    var idx := MarkerRun(paragraph, m.start, group, v);
    MarkerRunFound(v, m.start, group, idx, k);
    run := paragraph.runs[idx];
    assert run.Value() == v[idx];
  }

  /** A list of increasing indices below `bound`, extended with k >= bound. */
  lemma Increasing(ks: seq<nat>, k: nat, bound: nat)
    requires forall i :: 0 <= i < |ks| ==> ks[i] < bound
    requires forall i, j :: 0 <= i < j < |ks| ==> ks[i] < ks[j]
    requires bound <= k
    ensures forall i :: 0 <= i < |ks + [k]| ==> (ks + [k])[i] < k + 1
    ensures forall i, j :: 0 <= i < j < |ks + [k]| ==> (ks + [k])[i] < (ks + [k])[j]
  {
  }

  /**
   * What findInstr has built after the matches `done`, for a paragraph
   * whose runs are `runs`, with values v: one entry per match, bound to runs
   * ks, which increase and lie below `bound`.
   */
  ghost predicate Entries(v: seq<RunV>, runs: seq<Run>, list: seq<InstructionElement?>, ks: seq<nat>, text: string,
                          done: seq<Match>, bound: nat)
    reads set i | 0 <= i < |list| && list[i] != null :: list[i]
  {
    |list| == |ks| == |done| && bound <= |v| == |runs|
    && (forall i :: 0 <= i < |ks| ==> ks[i] < bound)
    && (forall i, j :: 0 <= i < j < |ks| ==> ks[i] < ks[j])
    && (forall i :: 0 <= i < |list| ==> Bound(v, runs, list[i], ks[i], text, done[i]))
  }

  /** The entries for all the matches of a text have the expressions findInstr promises. */
  lemma EntriesExpressions(v: seq<RunV>, runs: seq<Run>, list: seq<InstructionElement?>, ks: seq<nat>, text: string, bound: nat)
    requires Entries(v, runs, list, ks, text, Matches(text), bound)
    ensures Expressions(list) == MarkerExpressions(text)
  {
    assert forall i :: 0 <= i < |list| ==> Expressions(list)[i] == MarkerExpressions(text)[i];
  }

  /**
   * With the corrected search, distinct matches are bound to distinct runs,
   * each of which holds exactly its marker: the second of two equal markers
   * is bound to a run of its own.
   */
  lemma EntriesDistinctRuns(v: seq<RunV>, runs: seq<Run>, list: seq<InstructionElement?>, ks: seq<nat>, text: string,
                            done: seq<Match>, bound: nat)
    requires Entries(v, runs, list, ks, text, done, bound) && Distinct(runs)
    ensures forall i, j :: 0 <= i < j < |list| && list[i] != null && list[j] != null ==> list[i].run != list[j].run
    ensures forall i :: 0 <= i < |list| && list[i] != null ==>
      exists k :: 0 <= k < |runs| && list[i].run == runs[k] && v[k].text == MatchText(text, done[i])
  {
    forall i, j | 0 <= i < j < |list| && list[i] != null && list[j] != null
      ensures list[i].run != list[j].run
    {
      assert Bound(v, runs, list[i], ks[i], text, done[i]) && Bound(v, runs, list[j], ks[j], text, done[j]);
      assert ks[i] < ks[j];
    }
    forall i | 0 <= i < |list| && list[i] != null
      ensures exists k :: 0 <= k < |runs| && list[i].run == runs[k] && v[k].text == MatchText(text, done[i])
    {
      assert Bound(v, runs, list[i], ks[i], text, done[i]);
    }
  }

  /** Entries stay valid when the runs they are bound to, the first `bound`, stay as they are. */
  lemma EntriesKept(v0: seq<RunV>, runs0: seq<Run>, v: seq<RunV>, runs: seq<Run>, list: seq<InstructionElement?>,
                    ks: seq<nat>, text: string, done: seq<Match>, bound: nat, n: nat)
    requires Entries(v0, runs0, list, ks, text, done, bound)
    requires bound <= n <= |v| == |runs| && v[..bound] == v0[..bound] && runs[..bound] == runs0[..bound]
    ensures Entries(v, runs, list, ks, text, done, n)
  {
    forall i | 0 <= i < |list|
      ensures Bound(v, runs, list[i], ks[i], text, done[i])
    {
      OffsetPrefix(v, v0, bound, ks[i]);
      OffsetPrefix(v, v0, bound, ks[i] + 1);
      assert runs[ks[i]] == runs[..bound][ks[i]];
      assert v[ks[i]] == v[..bound][ks[i]];
    }
  }

  /** One more entry, bound to a run at or after `bound`. */
  lemma EntriesExtend(v: seq<RunV>, runs: seq<Run>, list: seq<InstructionElement?>, ks: seq<nat>, text: string,
                      done: seq<Match>, bound: nat, e: InstructionElement?, k: nat, m: Match)
    requires Entries(v, runs, list, ks, text, done, bound)
    requires bound <= k && Bound(v, runs, e, k, text, m)
    ensures Entries(v, runs, list + [e], ks + [k], text, done + [m], k + 1)
  {
    Increasing(ks, k, bound);
    assert forall i :: 0 <= i < |list| ==> (list + [e])[i] == list[i] && (ks + [k])[i] == ks[i] && (done + [m])[i] == done[i];
  }

  lemma EntriesNext(v0: seq<RunV>, runs0: seq<Run>, v: seq<RunV>, runs: seq<Run>, list: seq<InstructionElement?>,
                    ks: seq<nat>, text: string, done: seq<Match>, bound: nat, e: InstructionElement?, k: nat, m: Match)
    requires Entries(v0, runs0, list, ks, text, done, bound)
    requires bound <= k < |v| == |runs| && v[..bound] == v0[..bound] && runs[..bound] == runs0[..bound]
    requires Bound(v, runs, e, k, text, m)
    ensures Entries(v, runs, list + [e], ks + [k], text, done + [m], k + 1)
  {
    EntriesKept(v0, runs0, v, runs, list, ks, text, done, bound, bound);
    EntriesExtend(v, runs, list, ks, text, done, bound, e, k, m);
  }

  /** One turn of findInstr's loop, on the match m: one more entry. */
  method FindStep(paragraph: Paragraph, holder: ServiceHolder, text: string, m: Match,
                  list: seq<InstructionElement?>, ghost ks: seq<nat>, ghost done: seq<Match>, ghost bound: nat)
    returns (list': seq<InstructionElement?>, ghost ks': seq<nat>, ghost bound': nat)
    requires paragraph.Valid() && holder.Valid() && paragraph.Text() == text
    requires m.start < m.end <= |text|
    requires Entries(paragraph.Value(), paragraph.runs, list, ks, text, done, bound)
    requires Offset(paragraph.Value(), bound) <= m.start
    modifies paragraph, paragraph.runs, holder
    ensures paragraph.Valid() && holder.Valid() && paragraph.fmt == old(paragraph.fmt) && paragraph.Text() == text
    ensures forall r :: r in paragraph.runs ==> r in old(paragraph.runs) || fresh(r)
    ensures Entries(paragraph.Value(), paragraph.runs, list', ks', text, done + [m], bound')
    ensures bound' <= |paragraph.runs| && Offset(paragraph.Value(), bound') == m.end
    ensures |list'| == |list| + 1 && list'[..|list|] == list
    ensures list'[|list|] != null ==> fresh(list'[|list|])
  {
    ghost var v0, runs0 := paragraph.Value(), paragraph.runs;
    var e;
    ghost var k;
    e, k := BindMarker(paragraph, holder, text, m, bound);
    ghost var v1, runs1 := paragraph.Value(), paragraph.runs;
    EntriesNext(v0, runs0, v1, runs1, list, ks, text, done, bound, e, k, m);
    list', ks', bound' := list + [e], ks + [k], k + 1;
    assert list'[..|list|] == list;
  }

  /** findInstr's loop body: the next match after `from`, bound, and the search moved past it. */
  method FindTurn(paragraph: Paragraph, holder: ServiceHolder, text: string, from: nat,
                  list: seq<InstructionElement?>, ghost ks: seq<nat>, ghost done: seq<Match>, ghost bound: nat)
    returns (from': nat, list': seq<InstructionElement?>, ghost ks': seq<nat>, ghost done': seq<Match>, ghost bound': nat)
    requires from <= |text| && FindFrom(text, from).Some?
    requires paragraph.Valid() && holder.Valid() && paragraph.Text() == text
    requires Matches(text) == done + MatchesFrom(text, from)
    requires Entries(paragraph.Value(), paragraph.runs, list, ks, text, done, bound)
    requires Offset(paragraph.Value(), bound) <= from
    modifies paragraph, paragraph.runs, holder
    ensures from < from' <= |text|
    ensures paragraph.Valid() && holder.Valid() && paragraph.fmt == old(paragraph.fmt) && paragraph.Text() == text
    ensures forall r :: r in paragraph.runs ==> r in old(paragraph.runs) || fresh(r)
    ensures Matches(text) == done' + MatchesFrom(text, from')
    ensures Entries(paragraph.Value(), paragraph.runs, list', ks', text, done', bound')
    ensures Offset(paragraph.Value(), bound') <= from'
    ensures |list'| == |list| + 1 && list'[..|list|] == list
    ensures list'[|list|] != null ==> fresh(list'[|list|])
  {
    var m := FindFrom(text, from).value;
    list', ks', bound' := FindStep(paragraph, holder, text, m, list, ks, done, bound);
    MatchesFromNext(text, from, done);
    done' := done + [m];
    from' := m.end;
  }

  /**
   * findInstr(paragraph): the matches of the marker pattern in the
   * paragraph's text, found on the text as it was before any edit, give one
   * entry each, in order.  Each marker ends up in a run of its own, distinct
   * runs for distinct markers, and the entry is bound to that run; the
   * paragraph's text does not change.
   */
  method FindInstr(paragraph: Paragraph, holder: ServiceHolder) returns (list: seq<InstructionElement?>, ghost ks: seq<nat>)
    requires paragraph.Valid() && holder.Valid()
    modifies paragraph, paragraph.runs, holder
    ensures paragraph.Valid() && holder.Valid() && paragraph.fmt == old(paragraph.fmt)
    ensures paragraph.Text() == old(paragraph.Text())
    ensures forall r :: r in paragraph.runs ==> r in old(paragraph.runs) || fresh(r)
    ensures Entries(paragraph.Value(), paragraph.runs, list, ks, old(paragraph.Text()), Matches(old(paragraph.Text())), |paragraph.runs|)
    ensures forall i :: 0 <= i < |list| && list[i] != null ==> fresh(list[i])
    ensures Expressions(list) == MarkerExpressions(old(paragraph.Text()))
  {
    var text := paragraph.Text();
    ghost var done, bound;
    list, ks, done, bound := FindAll(paragraph, holder, text);
    EntriesExpressions(paragraph.Value(), paragraph.runs, list, ks, text, bound);
    EntriesKept(paragraph.Value(), paragraph.runs, paragraph.Value(), paragraph.runs, list, ks, text, done, bound, |paragraph.runs|);
  }

  /** findInstr's loop: every match of the text, in order, bound to a run of its own. */
  method FindAll(paragraph: Paragraph, holder: ServiceHolder, text: string)
    returns (list: seq<InstructionElement?>, ghost ks: seq<nat>, ghost done: seq<Match>, ghost bound: nat)
    requires paragraph.Valid() && holder.Valid() && paragraph.Text() == text
    modifies paragraph, paragraph.runs, holder
    ensures paragraph.Valid() && holder.Valid() && paragraph.fmt == old(paragraph.fmt) && paragraph.Text() == text
    ensures forall r :: r in paragraph.runs ==> r in old(paragraph.runs) || fresh(r)
    ensures done == Matches(text) && Entries(paragraph.Value(), paragraph.runs, list, ks, text, done, bound)
    ensures forall i :: 0 <= i < |list| && list[i] != null ==> fresh(list[i])
  {
    list, ks, done, bound := [], [], [], 0;
    var from := 0;
    var found := FindFrom(text, from);
    while found.Some?
      invariant from <= |text| && found == FindFrom(text, from)
      invariant paragraph.Valid() && holder.Valid() && paragraph.fmt == old(paragraph.fmt) && paragraph.Text() == text
      invariant forall r :: r in paragraph.runs ==> r in old(paragraph.runs) || fresh(r)
      invariant Matches(text) == done + MatchesFrom(text, from)
      invariant Entries(paragraph.Value(), paragraph.runs, list, ks, text, done, bound)
      invariant Offset(paragraph.Value(), bound) <= from
      invariant forall i :: 0 <= i < |list| && list[i] != null ==> fresh(list[i])
      decreases |text| - from
    {
      assert forall j :: 0 <= j < |paragraph.runs| ==> paragraph.runs[j] in old(paragraph.runs) || fresh(paragraph.runs[j]);
      ghost var prev := list;
      from, list, ks, done, bound := FindTurn(paragraph, holder, text, from, list, ks, done, bound);
      forall i | 0 <= i < |list| && list[i] != null
        ensures fresh(list[i])
      {
        if i < |prev| {
          assert list[i] == prev[i];
        } else {
          assert i == |prev|;
        }
      }
      found := FindFrom(text, from);
    }
    assert MatchesFrom(text, from) == [];
  }

  // ---------------------------------------------------------------------
  // findInstr(IBody) and parse
  // ---------------------------------------------------------------------

  /**
   * The paragraphs of a document as POI keeps them: each lists its runs
   * once, and no two paragraphs share a run.
   */
  ghost predicate Good(ps: set<Paragraph>)
    reads ps
  {
    (forall p | p in ps :: p.Valid())
    && (forall p, q, r | p in ps && q in ps && p != q && r in p.runs :: r !in q.runs)
  }

  /** The texts of the paragraphs of ps are the ones recorded in texts. */
  ghost predicate TextsAre(ps: set<Paragraph>, texts: Paragraph -> string)
    reads ps, RunsOf(ps)
  {
    forall p | p in ps :: RunsOfHas(ps, p); p.Text() == texts(p)
  }

  /** Every run of the paragraphs of ps was a run of theirs before, or is new. */
  twostate predicate RunsFromOld(ps: set<Paragraph>)
    reads ps
  {
    forall r | r in RunsOf(ps) :: r in old(RunsOf(ps)) || fresh(r)
  }

  /** The paragraphs of one element of a body are among those of the body. */
  lemma ParasOfPart(es: seq<Element>, i: nat)
    requires i < |es|
    ensures ParasOfE(es[i]) <= ParasOfEs(es)
  {
  }

  /** What findInstr(IBody) returns for a body: the entries of its own paragraphs, in order. */
  function BodyExpressions(es: seq<Element>, texts: Paragraph -> string): seq<Option<string>>
  {
    if es == [] then []
    else BodyExpressions(es[..|es| - 1], texts) + ElementExpressions(es[|es| - 1], texts)
  }

  /** The entries of a body's first i + 1 elements: those of the first i, then those of element i. */
  lemma BodyExpressionsNext(es: seq<Element>, i: nat, texts: Paragraph -> string)
    requires i < |es|
    ensures BodyExpressions(es[..i + 1], texts) == BodyExpressions(es[..i], texts) + ElementExpressions(es[i], texts)
  {
    assert forall j :: 0 <= j < i + 1 ==> es[..i + 1][j] == es[j];
    assert es[..i + 1][..i] == es[..i];
  }

  /** A paragraph gives its markers' entries; a table gives none. */
  function ElementExpressions(e: Element, texts: Paragraph -> string): seq<Option<string>>
  {
    match e
    case Para(p) => MarkerExpressions(texts(p))
    case Tbl(_) => []
  }

  /**
   * The markers inside tables never reach the list: two bodies with the same
   * paragraphs at the same places, whatever their tables hold, give the same
   * entries.
   */
  lemma {:induction false} TablesIgnored(es: seq<Element>, fs: seq<Element>, texts: Paragraph -> string)
    requires |es| == |fs|
    requires forall i :: 0 <= i < |es| && (es[i].Para? || fs[i].Para?) ==> es[i] == fs[i]
    ensures BodyExpressions(es, texts) == BodyExpressions(fs, texts)
    decreases |es|
  {
    if es != [] {
      var n := |es| - 1;
      TablesIgnored(es[..n], fs[..n], texts);
      assert ElementExpressions(es[n], texts) == ElementExpressions(fs[n], texts);
    }
  }

  /**
   * Paragraphs that a step left alone, and whose runs it left alone, keep
   * their runs and their texts.
   */
  twostate lemma OthersKept(others: set<Paragraph>)
    requires forall q | q in others :: unchanged(q)
    requires forall q, r | q in others && r in q.runs :: unchanged(r)
    ensures forall q | q in others :: q.runs == old(q.runs) && q.Text() == old(q.Text())
  {
    forall q | q in others
      ensures q.Text() == old(q.Text())
    {
      assert forall i :: 0 <= i < |q.runs| ==> q.runs[i] in q.runs;
      ValuesFrame(q.runs);
    }
  }

  /**
   * A step that changed the runs of one paragraph p of ps to runs that
   * were p's or are new, and left the other paragraphs alone, keeps ps Good.
   */
  twostate lemma ApartKept(ps: set<Paragraph>, new p: Paragraph)
    requires old(Good(ps)) && p in ps && p.Valid()
    requires forall q | q in ps && q != p :: q.runs == old(q.runs)
    requires forall r :: r in p.runs ==> r in old(p.runs) || fresh(r)
    ensures Good(ps)
  {
    forall a, b, r | a in ps && b in ps && a != b && r in a.runs
      ensures r !in b.runs
    {
      if a == p {
        assert b.runs == old(b.runs);
      } else if b == p {
        assert a.runs == old(a.runs);
      } else {
        assert a.runs == old(a.runs) && b.runs == old(b.runs);
      }
    }
  }

  /** findInstr(paragraph), seen from the body it is part of. */
  method SearchParagraph(paragraph: Paragraph, holder: ServiceHolder) returns (list: seq<InstructionElement?>)
    requires paragraph.Valid() && holder.Valid()
    modifies paragraph, paragraph.runs, holder
    ensures paragraph.Valid() && holder.Valid() && paragraph.Text() == old(paragraph.Text())
    ensures forall r :: r in paragraph.runs ==> r in old(paragraph.runs) || fresh(r)
    ensures forall i :: 0 <= i < |list| && list[i] != null ==> fresh(list[i])
    ensures Expressions(list) == MarkerExpressions(old(paragraph.Text()))
  {
    ghost var ks;
    list, ks := FindInstr(paragraph, holder);
  }

  /**
   * findInstr(paragraph) inside a document: what it returns, and the
   * paragraphs around it keep their runs and texts.
   */
  method FindInstrIn(paragraph: Paragraph, holder: ServiceHolder, ghost ps: set<Paragraph>, ghost texts: Paragraph -> string)
    returns (list: seq<InstructionElement?>)
    requires paragraph in ps && Good(ps) && TextsAre(ps, texts) && holder.Valid()
    modifies paragraph, paragraph.runs, holder
    ensures Good(ps) && TextsAre(ps, texts) && holder.Valid() && RunsFromOld(ps)
    ensures Expressions(list) == MarkerExpressions(texts(paragraph))
    ensures forall i :: 0 <= i < |list| && list[i] != null ==> fresh(list[i])
  {
    AllocRuns(ps);
    list := SearchParagraph(paragraph, holder);
    OthersKept(ps - {paragraph});
    ApartKept(ps, paragraph);
  }

  /**
   * findInstr(IBody): the entries of the body's paragraphs, in order.  The
   * cells of its tables are searched too, which isolates their markers,
   * but what that search finds is dropped.
   */
  method FindInstrBody(es: seq<Element>, holder: ServiceHolder, ghost ps: set<Paragraph>, ghost texts: Paragraph -> string)
    returns (list: seq<InstructionElement?>)
    requires ParasOfEs(es) <= ps && Good(ps) && TextsAre(ps, texts) && holder.Valid()
    modifies ps, RunsOf(ps), holder
    ensures Good(ps) && TextsAre(ps, texts) && holder.Valid() && RunsFromOld(ps)
    ensures Expressions(list) == BodyExpressions(es, texts)
    ensures forall i :: 0 <= i < |list| && list[i] != null ==> fresh(list[i])
    decreases es, 1
  {
    list := [];
    var i := 0;
    assert es[..0] == [];
    while i < |es|
      invariant i <= |es|
      invariant Good(ps) && TextsAre(ps, texts) && holder.Valid() && RunsFromOld(ps)
      invariant Expressions(list) == BodyExpressions(es[..i], texts)
      invariant forall j :: 0 <= j < |list| && list[j] != null ==> fresh(list[j])
    {
      list := BodyStep(es, i, list, holder, ps, texts);
      i := i + 1;
    }
    assert es[..i] == es;
  }

  /** One turn of findInstr(IBody)'s loop: the entries of element i are appended. */
  method BodyStep(es: seq<Element>, i: nat, list: seq<InstructionElement?>, holder: ServiceHolder,
                  ghost ps: set<Paragraph>, ghost texts: Paragraph -> string)
    returns (list': seq<InstructionElement?>)
    requires i < |es| && ParasOfEs(es) <= ps && Good(ps) && TextsAre(ps, texts) && holder.Valid()
    requires Expressions(list) == BodyExpressions(es[..i], texts)
    modifies ps, RunsOf(ps), holder
    ensures Good(ps) && TextsAre(ps, texts) && holder.Valid() && RunsFromOld(ps)
    ensures Expressions(list') == BodyExpressions(es[..i + 1], texts)
    ensures forall j :: 0 <= j < |list'| && list'[j] != null ==> list'[j] in list || fresh(list'[j])
    decreases es, 0
  {
    ParasOfPart(es, i);
    BodyExpressionsNext(es, i, texts);
    ghost var before := Expressions(list);
    var found := FindInstrElement(es[i], holder, ps, texts);
    assert Expressions(list) == before;
    ExpressionsAppend(list, found);
    list' := list + found;
    assert forall j :: 0 <= j < |list| ==> list'[j] == list[j];
  }

  /** The runs of a paragraph of ps are among the runs of ps. */
  lemma RunsOfHas(ps: set<Paragraph>, p: Paragraph)
    requires p in ps
    ensures forall r | r in p.runs :: r in RunsOf(ps)
  {
  }

  /** One element of a body: a paragraph is searched, a table is searched and gives nothing. */
  method FindInstrElement(e: Element, holder: ServiceHolder, ghost ps: set<Paragraph>, ghost texts: Paragraph -> string)
    returns (list: seq<InstructionElement?>)
    requires ParasOfE(e) <= ps && Good(ps) && TextsAre(ps, texts) && holder.Valid()
    modifies ps, RunsOf(ps), holder
    ensures Good(ps) && TextsAre(ps, texts) && holder.Valid() && RunsFromOld(ps)
    ensures Expressions(list) == ElementExpressions(e, texts)
    ensures forall i :: 0 <= i < |list| && list[i] != null ==> fresh(list[i])
    decreases e, 1
  {
    match e
    case Para(p) =>
      assert p in ParasOfE(e);
      RunsOfHas(ps, p);
      assert forall j :: 0 <= j < |p.runs| ==> p.runs[j] in RunsOf(ps);
      list := FindInstrIn(p, holder, ps, texts);
    case Tbl(t) =>
      FindInstrTable(t, holder, ps, texts);
      list := [];
  }

  /** The loops over a table's rows and cells: each cell's body is searched, the result is dropped. */
  method FindInstrTable(t: Table, holder: ServiceHolder, ghost ps: set<Paragraph>, ghost texts: Paragraph -> string)
    requires ParasOfT(t) <= ps && Good(ps) && TextsAre(ps, texts) && holder.Valid()
    modifies ps, RunsOf(ps), holder
    ensures Good(ps) && TextsAre(ps, texts) && holder.Valid() && RunsFromOld(ps)
    decreases Tbl(t), 0
  {
    var i := 0;
    while i < |t.rows|
      invariant i <= |t.rows|
      invariant Good(ps) && TextsAre(ps, texts) && holder.Valid() && RunsFromOld(ps)
    {
      assert ParasOfR(t.rows[i]) <= ParasOfT(t);
      FindInstrRow(t.rows[i], holder, ps, texts);
      i := i + 1;
    }
  }

  method FindInstrRow(r: Row, holder: ServiceHolder, ghost ps: set<Paragraph>, ghost texts: Paragraph -> string)
    requires ParasOfR(r) <= ps && Good(ps) && TextsAre(ps, texts) && holder.Valid()
    modifies ps, RunsOf(ps), holder
    ensures Good(ps) && TextsAre(ps, texts) && holder.Valid() && RunsFromOld(ps)
    decreases r
  {
    var i := 0;
    while i < |r.cells|
      invariant i <= |r.cells|
      invariant Good(ps) && TextsAre(ps, texts) && holder.Valid() && RunsFromOld(ps)
    {
      assert ParasOfC(r.cells[i]) <= ParasOfR(r);
      var dropped := FindInstrBody(r.cells[i].body, holder, ps, texts);
      i := i + 1;
    }
  }

  // ---------------------------------------------------------------------
  // parse
  // ---------------------------------------------------------------------

  /** A document as parse reads it: its headers, its footers and its main body. */
  datatype WordDocument = WordDocument(headers: seq<seq<Element>>, footers: seq<seq<Element>>, body: seq<Element>)

  /** What parse builds: its list of instructions. */
  datatype WordTemplate = WordTemplate(instructions: seq<InstructionElement?>)

  /** The paragraphs of a list of bodies. */
  function ParasOfBodies(bs: seq<seq<Element>>): set<Paragraph>
  {
    set i, p | 0 <= i < |bs| && p in ParasOfEs(bs[i]) :: p
  }

  /** The paragraphs of a document: those of its headers, footers and body. */
  function ParasOfDocument(d: WordDocument): set<Paragraph>
  {
    ParasOfBodies(d.headers) + ParasOfBodies(d.footers) + ParasOfEs(d.body)
  }

  /** The texts of the paragraphs of ps, as a function. */
  ghost function TextsOf(ps: set<Paragraph>): (texts: Paragraph -> string)
    reads ps, RunsOf(ps)
    ensures TextsAre(ps, texts)
  {
    var m := map p | p in ps :: (RunsOfHas(ps, p); p.Text());
    p => if p in m then m[p] else ""
  }

  /** The entries findInstr finds in a list of bodies, one body after the other. */
  function BodiesExpressions(bs: seq<seq<Element>>, texts: Paragraph -> string): seq<Option<string>>
  {
    if bs == [] then [] else BodyExpressions(bs[0], texts) + BodiesExpressions(bs[1..], texts)
  }

  /** The entries of a document: its headers', then its footers', then its body's. */
  function DocumentExpressions(d: WordDocument, texts: Paragraph -> string): seq<Option<string>>
  {
    BodiesExpressions(d.headers, texts) + BodiesExpressions(d.footers, texts) + BodyExpressions(d.body, texts)
  }

  /** The entries of two lists of bodies, one after the other. */
  lemma {:induction false} BodiesExpressionsAppend(a: seq<seq<Element>>, b: seq<seq<Element>>, texts: Paragraph -> string)
    ensures BodiesExpressions(a + b, texts) == BodiesExpressions(a, texts) + BodiesExpressions(b, texts)
  {
    if a == [] {
      assert a + b == b;
    } else {
      var rest := a[1..] + b;
      assert (a + b)[0] == a[0] && (a + b)[1..] == rest;
      var first := BodyExpressions(a[0], texts);
      assert BodiesExpressions(a + b, texts) == first + BodiesExpressions(rest, texts);
      BodiesExpressionsAppend(a[1..], b, texts);
      Assoc(first, BodiesExpressions(a[1..], texts), BodiesExpressions(b, texts));
    }
  }

  /**
   * parse visits the document's bodies in the order headers, footers,
   * main body: its entries are those of that one list of bodies.
   */
  lemma DocumentOrder(d: WordDocument, texts: Paragraph -> string)
    ensures DocumentExpressions(d, texts) == BodiesExpressions(d.headers + d.footers + [d.body], texts)
  {
    BodiesExpressionsAppend(d.headers, d.footers, texts);
    BodiesExpressionsAppend(d.headers + d.footers, [d.body], texts);
    assert [d.body][..0] == [];
  }

  /** The paragraphs of one body of a list are among those of the list. */
  lemma ParasOfBodiesPart(bs: seq<seq<Element>>, i: nat)
    requires i < |bs|
    ensures ParasOfEs(bs[i]) <= ParasOfBodies(bs)
  {
  }

  /** The entries of the first i + 1 bodies: those of the first i, then those of body i. */
  lemma BodiesExpressionsNext(bs: seq<seq<Element>>, i: nat, texts: Paragraph -> string)
    requires i < |bs|
    ensures BodiesExpressions(bs[..i + 1], texts) == BodiesExpressions(bs[..i], texts) + BodyExpressions(bs[i], texts)
  {
    assert bs[..i + 1] == bs[..i] + [bs[i]];
    BodiesExpressionsAppend(bs[..i], [bs[i]], texts);
    assert BodiesExpressions([bs[i]], texts) == BodyExpressions(bs[i], texts) + BodiesExpressions([], texts);
  }

  /**
   * One turn of parse's loop over the headers or over the footers: the
   * entries findInstr finds in body i are appended to the list.
   */
  method BodiesStep(bs: seq<seq<Element>>, i: nat, found: seq<InstructionElement?>, holder: ServiceHolder,
                    ghost ps: set<Paragraph>, ghost texts: Paragraph -> string)
    returns (found': seq<InstructionElement?>)
    requires i < |bs| && ParasOfBodies(bs) <= ps && Good(ps) && TextsAre(ps, texts) && holder.Valid()
    requires Expressions(found) == BodiesExpressions(bs[..i], texts)
    modifies ps, RunsOf(ps), holder
    ensures Good(ps) && TextsAre(ps, texts) && holder.Valid() && RunsFromOld(ps)
    ensures Expressions(found') == BodiesExpressions(bs[..i + 1], texts)
  {
    ParasOfBodiesPart(bs, i);
    BodiesExpressionsNext(bs, i, texts);
    found' := AppendBody(bs[i], found, holder, ps, texts);
  }

  /** The entries findInstr finds in one body are appended to the list (the last part of parse). */
  method AppendBody(body: seq<Element>, list: seq<InstructionElement?>, holder: ServiceHolder,
                      ghost ps: set<Paragraph>, ghost texts: Paragraph -> string)
    returns (list': seq<InstructionElement?>)
    requires ParasOfEs(body) <= ps && Good(ps) && TextsAre(ps, texts) && holder.Valid()
    modifies ps, RunsOf(ps), holder
    ensures Good(ps) && TextsAre(ps, texts) && holder.Valid() && RunsFromOld(ps)
    ensures Expressions(list') == old(Expressions(list)) + BodyExpressions(body, texts)
  {
    ghost var old_ := Expressions(list);
    var found := FindInstrBody(body, holder, ps, texts);
    assert Expressions(list) == old_;
    ExpressionsAppend(list, found);
    list' := list + found;
  }

  /** The entries findInstr finds in each body of a list, in order, appended to the list. */
  method CollectBodies(bs: seq<seq<Element>>, list: seq<InstructionElement?>, holder: ServiceHolder,
                       ghost ps: set<Paragraph>, ghost texts: Paragraph -> string)
    returns (list': seq<InstructionElement?>)
    requires ParasOfBodies(bs) <= ps && Good(ps) && TextsAre(ps, texts) && holder.Valid()
    modifies ps, RunsOf(ps), holder
    ensures Good(ps) && TextsAre(ps, texts) && holder.Valid() && RunsFromOld(ps)
    ensures Expressions(list') == old(Expressions(list)) + BodiesExpressions(bs, texts)
  {
    ghost var before := Expressions(list);
    var found := FindInstrBodies(bs, holder, ps, texts);
    assert Expressions(list) == before;
    ExpressionsAppend(list, found);
    list' := list + found;
  }

  /** The loop of parse over the headers (or the footers): what findInstr finds in each body, in order. */
  method FindInstrBodies(bs: seq<seq<Element>>, holder: ServiceHolder, ghost ps: set<Paragraph>, ghost texts: Paragraph -> string)
    returns (found: seq<InstructionElement?>)
    requires ParasOfBodies(bs) <= ps && Good(ps) && TextsAre(ps, texts) && holder.Valid()
    modifies ps, RunsOf(ps), holder
    ensures Good(ps) && TextsAre(ps, texts) && holder.Valid() && RunsFromOld(ps)
    ensures Expressions(found) == BodiesExpressions(bs, texts)
  {
    found := [];
    var i := 0;
    assert bs[..0] == [];
    while i < |bs|
      invariant i <= |bs|
      invariant Good(ps) && TextsAre(ps, texts) && holder.Valid() && RunsFromOld(ps)
      invariant Expressions(found) == BodiesExpressions(bs[..i], texts)
    {
      found := BodiesStep(bs, i, found, holder, ps, texts);
      i := i + 1;
    }
    assert bs[..i] == bs;
  }

  /**
   * parse: one list collects the instructions of the headers, then of the
   * footers, then of the main body, each found by findInstr.  The texts of
   * all paragraphs stay as they were.
   */
  method Parse(doc: WordDocument, holder: ServiceHolder) returns (template: WordTemplate)
    requires Good(ParasOfDocument(doc)) && holder.Valid()
    modifies ParasOfDocument(doc), RunsOf(ParasOfDocument(doc)), holder
    ensures Good(ParasOfDocument(doc)) && holder.Valid()
    ensures TextsAre(ParasOfDocument(doc), old(TextsOf(ParasOfDocument(doc))))
    ensures Expressions(template.instructions) == DocumentExpressions(doc, old(TextsOf(ParasOfDocument(doc))))
  {
    ghost var ps := ParasOfDocument(doc);
    ghost var texts := TextsOf(ps);
    ghost var fromHeaders := BodiesExpressions(doc.headers, texts);
    ghost var fromFooters := BodiesExpressions(doc.footers, texts);
    var list: seq<InstructionElement?> := [];
    assert Expressions(list) == [];
    list := CollectBodies(doc.headers, list, holder, ps, texts);
    assert Expressions(list) == fromHeaders;
    list := CollectBodies(doc.footers, list, holder, ps, texts);
    assert Expressions(list) == fromHeaders + fromFooters;
    list := AppendBody(doc.body, list, holder, ps, texts);
    template := WordTemplate(list);
  }
}
