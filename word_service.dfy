/**
 * The structural editor over the document tree (WordService): cloning,
 * inserting, splitting and removing runs, paragraphs, tables, rows and cells.
 *
 * The value-level functions (CloneCellV, CloneRowV, CloneTableV, ...) say
 * what each clone produces, following the source step by step: which
 * existing row or cell is reused, how many new cells POI gives a created
 * row, where the copies go and which paragraph is removed at the end.  The
 * methods do the edits as the source does them and are proved against those
 * functions; the lemmas state what the clones and splits amount to.
 */
module WordService {
  import opened Wrappers
  import opened Runs
  import opened Document

  // ---------------------------------------------------------------------
  // Body lists: paragraphs among the elements
  // ---------------------------------------------------------------------

  /** The list holds at least one paragraph (POI gives every cell one). */
  predicate HasPara(es: seq<ElementV>)
  {
    exists i :: 0 <= i < |es| && es[i].ParaV?
  }

  /** The position of the first paragraph: where cloneTableCell's cursor starts. */
  function FirstPara(es: seq<ElementV>): (k: nat)
    requires HasPara(es)
    ensures k < |es| && es[k].ParaV?
    ensures forall i :: 0 <= i < k ==> !es[i].ParaV?
  {
    if es[0].ParaV? then 0 else FirstPara(es[1..]) + 1
  }

  /** The position of the last paragraph: what `removeParagraph(size - 1)` removes. */
  function LastPara(es: seq<ElementV>): (k: nat)
    requires HasPara(es)
    ensures k < |es| && es[k].ParaV?
    ensures forall i :: k < i < |es| ==> !es[i].ParaV?
  {
    if es[|es| - 1].ParaV? then |es| - 1 else LastPara(es[..|es| - 1])
  }

  /** The list without its last paragraph. */
  function RemoveLastPara(es: seq<ElementV>): seq<ElementV>
    requires HasPara(es)
  {
    var k := LastPara(es);
    es[..k] + es[k + 1..]
  }

  // ---------------------------------------------------------------------
  // What the clones produce
  // ---------------------------------------------------------------------

  /**
   * A body element as cloneTableCell copies it: a paragraph is cloned into
   * a new empty paragraph (which gives back the same paragraph), a table
   * into a new table.
   */
  function CopyV(e: ElementV): ElementV
    decreases e
  {
    match e
    case ParaV(_, _) => e
    case TblV(t) =>
      assert NewTableV.rows[0].cells[0] == NewCellV;
      assert NewCellV.body[0].ParaV?;
      TblV(CloneTableV(NewTableV, t, false))
  }

  /** Copies of elements [from, to) of a body, in order. */
  function CopiesV(es: seq<ElementV>, from: nat, to: nat): (r: seq<ElementV>)
    requires from <= to <= |es|
    ensures |r| == to - from
    decreases es
  {
    seq(to - from, i requires 0 <= i < to - from => CopyV(es[from + i]))
  }

  /**
   * cloneTableCell(clone, source, from, to): the cell formatting is copied;
   * when 0 <= from <= to <= size, copies of elements [from, to) of the
   * source are inserted in order before the clone's first paragraph, and
   * then the clone's last paragraph is removed.  Otherwise the body is left
   * as it was.
   */
  function CloneCellV(clone: CellV, source: CellV, from: int, to: int): CellV
    requires HasPara(clone.body)
    decreases source, 0
  {
    if 0 <= from <= to <= |source.body| then
      var k := FirstPara(clone.body);
      var body := clone.body[..k] + CopiesV(source.body, from, to) + clone.body[k..];
      assert body[k + (to - from)] == clone.body[k];
      CellV(source.fmt, RemoveLastPara(body))
    else
      CellV(source.fmt, clone.body)
  }

  /** The whole-cell clone: cloneTableCell(clone, source) copies every element. */
  function CloneCellAllV(clone: CellV, source: CellV): CellV
    requires HasPara(clone.body)
    decreases source, 1
  {
    CloneCellV(clone, source, 0, |source.body|)
  }

  /** Every source cell cloned into a new cell of its own. */
  function ClonesIntoNewV(cs: seq<CellV>): (r: seq<CellV>)
    ensures |r| == |cs|
    decreases cs
  {
    assert NewCellV.body[0].ParaV?;
    seq(|cs|, i requires 0 <= i < |cs| => CloneCellAllV(NewCellV, cs[i]))
  }

  /**
   * cloneTableRow(clone, source, isEmpty): the row formatting is copied;
   * unless isEmpty, the first source cell is cloned into the clone's first
   * cell when it has one, and every other source cell into a new cell
   * appended to the row.
   */
  function CloneRowV(clone: RowV, source: RowV, isEmpty: bool): RowV
    requires FirstCellReusable(clone)
    decreases source
  {
    if isEmpty || |source.cells| == 0 then
      RowV(source.fmt, clone.cells)
    else if |clone.cells| > 0 then
      RowV(source.fmt, [CloneCellAllV(clone.cells[0], source.cells[0])] + clone.cells[1..] + ClonesIntoNewV(source.cells[1..]))
    else
      RowV(source.fmt, ClonesIntoNewV(source.cells))
  }

  /** Every source row cloned into a row created with `width` new cells. */
  function ClonesIntoCreatedV(width: nat, rs: seq<RowV>): (r: seq<RowV>)
    ensures |r| == |rs|
    decreases rs
  {
    assert NewCellV.body[0].ParaV?;
    seq(|rs|, i requires 0 <= i < |rs| => CloneRowV(NewRowV(width), rs[i], false))
  }

  /** The row's first cell, if any, holds a paragraph, so it can take a cell clone. */
  predicate FirstCellReusable(r: RowV)
  {
    |r.cells| > 0 ==> HasPara(r.cells[0].body)
  }

  /** The clone's first row can be reused by cloneTableRow: its first cell, if any, holds a paragraph. */
  predicate FirstRowReusable(t: TableV)
  {
    |t.rows| > 0 ==> FirstCellReusable(t.rows[0])
  }

  /**
   * cloneTable(clone, source, isEmpty): the table formatting is copied;
   * unless isEmpty, the first source row is cloned into the clone's first
   * row when it has one, and every other source row into a row created at
   * the end of the table; a created row gets as many new cells as the
   * table's first row had when the rows were created.
   */
  function CloneTableV(clone: TableV, source: TableV, isEmpty: bool): TableV
    requires FirstRowReusable(clone)
    decreases source
  {
    if isEmpty || |source.rows| == 0 then
      TableV(source.fmt, clone.rows)
    else if |clone.rows| > 0 then
      var width := |clone.rows[0].cells|;
      TableV(source.fmt, [CloneRowV(clone.rows[0], source.rows[0], false)] + clone.rows[1..] + ClonesIntoCreatedV(width, source.rows[1..]))
    else
      TableV(source.fmt, ClonesIntoCreatedV(0, source.rows))
  }

  // ---------------------------------------------------------------------
  // What the clones amount to
  // ---------------------------------------------------------------------

  /**
   * The shape POI reproduces: every table has a row and every row has a
   * cell, at every depth.  (A new table already has a row and a new row a
   * cell, which a clone keeps when the source has none.)
   */
  predicate RegularE(e: ElementV)
    decreases e
  {
    e.TblV? ==> RegularT(e.t)
  }

  predicate RegularT(t: TableV)
    decreases t
  {
    |t.rows| > 0 && forall i :: 0 <= i < |t.rows| ==> RegularR(t.rows[i])
  }

  predicate RegularR(r: RowV)
    decreases r
  {
    |r.cells| > 0 && forall i :: 0 <= i < |r.cells| ==> RegularC(r.cells[i])
  }

  predicate RegularC(c: CellV)
    decreases c
  {
    forall i :: 0 <= i < |c.body| ==> RegularE(c.body[i])
  }

  /** Cloning into a new cell: the copies of the source's elements, and nothing else. */
  lemma CloneIntoNewCell(c: CellV, from: int, to: int)
    requires 0 <= from <= to <= |c.body|
    ensures NewCellV.body[0].ParaV?
    ensures CloneCellV(NewCellV, c, from, to) == CellV(c.fmt, CopiesV(c.body, from, to))
  {
    assert NewCellV.body[0].ParaV?;
    var copies := CopiesV(c.body, from, to);
    var body := [] + copies + [EmptyParaV];
    assert NewCellV.body[..0] == [] && NewCellV.body[0..] == [EmptyParaV];
    assert body[|copies|].ParaV?;
    assert LastPara(body) == |copies|;
    assert body[..|copies|] == copies;
  }

  /**
   * A copied element is the element itself exactly when it has the shape
   * POI reproduces.
   */
  lemma {:induction false} CopyKeeps(e: ElementV)
    ensures CopyV(e) == e <==> RegularE(e)
    decreases e
  {
    match e
    case ParaV(_, _) =>
    case TblV(t) => CloneIntoNewTableKeeps(t);
  }

  lemma {:induction false} CopiesKeep(es: seq<ElementV>)
    ensures CopiesV(es, 0, |es|) == es <==> forall i :: 0 <= i < |es| ==> RegularE(es[i])
    decreases es
  {
    var copies := CopiesV(es, 0, |es|);
    forall i | 0 <= i < |es|
      ensures copies[i] == es[i] <==> RegularE(es[i])
    {
      CopyKeeps(es[i]);
    }
    if copies != es {
      assert exists i :: 0 <= i < |es| && copies[i] != es[i];
    }
  }

  lemma {:induction false} CloneIntoNewCellKeeps(c: CellV)
    ensures NewCellV.body[0].ParaV?
    ensures CloneCellAllV(NewCellV, c) == c <==> RegularC(c)
    decreases c, 1
  {
    CloneIntoNewCell(c, 0, |c.body|);
    CopiesKeep(c.body);
  }

  lemma {:induction false} CloneIntoNewRowKeeps(r: RowV)
    ensures NewCellV.body[0].ParaV?
    ensures CloneRowV(NewRowV(1), r, false) == r <==> RegularR(r)
    decreases r
  {
    assert NewCellV.body[0].ParaV?;
    if |r.cells| > 0 {
      var cells := [CloneCellAllV(NewCellV, r.cells[0])] + NewRowV(1).cells[1..] + ClonesIntoNewV(r.cells[1..]);
      forall i | 0 <= i < |r.cells|
        ensures cells[i] == r.cells[i] <==> RegularC(r.cells[i])
      {
        CloneIntoNewCellKeeps(r.cells[i]);
        if i > 0 {
          assert cells[i] == ClonesIntoNewV(r.cells[1..])[i - 1];
        }
      }
      if cells != r.cells {
        assert exists i :: 0 <= i < |r.cells| && cells[i] != r.cells[i];
      }
    }
  }

  /**
   * A table cloned into a new table, as insertTable and cloneTableCell do,
   * is the source table again exactly when the source has the shape POI
   * reproduces (every table a row, every row a cell).
   */
  lemma {:induction false} CloneIntoNewTableKeeps(t: TableV)
    ensures FirstRowReusable(NewTableV)
    ensures CloneTableV(NewTableV, t, false) == t <==> RegularT(t)
    decreases t
  {
    assert NewTableV.rows[0].cells[0] == NewCellV;
    assert NewCellV.body[0].ParaV?;
    if |t.rows| > 0 {
      var rows := [CloneRowV(NewRowV(1), t.rows[0], false)] + NewTableV.rows[1..] + ClonesIntoCreatedV(1, t.rows[1..]);
      forall i | 0 <= i < |t.rows|
        ensures rows[i] == t.rows[i] <==> RegularR(t.rows[i])
      {
        CloneIntoNewRowKeeps(t.rows[i]);
        if i > 0 {
          assert rows[i] == ClonesIntoCreatedV(1, t.rows[1..])[i - 1];
        }
      }
      if rows != t.rows {
        assert exists i :: 0 <= i < |t.rows| && rows[i] != t.rows[i];
      }
    }
  }

  // ---------------------------------------------------------------------
  // Runs and paragraphs
  // ---------------------------------------------------------------------

  /**
   * cloneRun(clone, source, isEmpty): the run formatting is copied; unless
   * isEmpty, the source's text is added after the clone's own text (setText
   * without a position adds a text element at the end).
   */
  method CloneRun(clone: Run, source: Run, isEmpty: bool)
    modifies clone
    ensures clone.fmt == old(source.fmt)
    ensures clone.text == if isEmpty then old(clone.text) else old(clone.text) + old(source.text)
  {
    var text := source.text;
    clone.fmt := source.fmt;
    if !isEmpty {
      clone.text := clone.text + text;
    }
  }

  /**
   * cloneParagraph(clone, source, isEmpty): the paragraph formatting is
   * copied; unless isEmpty, a new run is created at the end of the clone for
   * every run of the source, in order, and the source run cloned into it.
   */
  method CloneParagraph(clone: Paragraph, source: Paragraph, isEmpty: bool)
    requires clone != source
    modifies clone
    ensures clone.fmt == old(source.fmt)
    ensures clone.Value() == if isEmpty then old(clone.Value()) else old(clone.Value()) + old(source.Value())
    ensures |clone.runs| >= |old(clone.runs)| && clone.runs[..|old(clone.runs)|] == old(clone.runs)
  {
    clone.fmt := source.fmt;
    if isEmpty {
      return;
    }
    ghost var init := clone.runs;
    ghost var v0 := Values(clone.runs);
    ghost var sv := Values(source.runs);
    var i := 0;
    while i < |source.runs|
      invariant 0 <= i <= |source.runs|
      invariant clone.fmt == old(source.fmt)
      invariant |clone.runs| == |init| + i && clone.runs[..|init|] == init
      invariant Values(clone.runs) == v0 + sv[..i]
    {
      assert source.runs[i].Value() == sv[i];
      AppendRunCopy(clone, source.runs[i]);
      TakeOneMore(sv, i);
      i := i + 1;
    }
  }

  /** One turn of cloneParagraph: a new run of the clone receives a copy of run. */
  method AppendRunCopy(clone: Paragraph, run: Run)
    modifies clone
    ensures clone.fmt == old(clone.fmt)
    ensures |clone.runs| == |old(clone.runs)| + 1 && clone.runs[..|old(clone.runs)|] == old(clone.runs)
    ensures Values(clone.runs) == old(Values(clone.runs)) + [old(run.Value())]
  {
    ghost var before := clone.runs;
    label start:
    var newRun := clone.CreateRun();
    CloneRun(newRun, run, false);
    ValuesFrame@start(before);
    assert newRun.Value() == old(run.Value());
    ValuesAppend(before, [newRun]);
  }

  /**
   * insertRun(paragraph, run, posDest): a new run at posDest with the run's
   * formatting and text.  POI gives no run outside [0, number of runs] and
   * the source then fails, so callers must stay inside.
   */
  method InsertRun(paragraph: Paragraph, run: Run, posDest: int) returns (newRun: Run)
    requires 0 <= posDest <= |paragraph.runs|
    modifies paragraph
    ensures fresh(newRun)
    ensures paragraph.runs == old(paragraph.runs)[..posDest] + [newRun] + old(paragraph.runs)[posDest..]
    ensures paragraph.fmt == old(paragraph.fmt)
    ensures paragraph.Value() == old(paragraph.Value())[..posDest] + [old(run.Value())] + old(paragraph.Value())[posDest..]
    ensures old(paragraph.Valid()) ==> paragraph.Valid()
  {
    ghost var runs0 := paragraph.runs;
    label start:
    var r := paragraph.InsertNewRun(posDest);
    newRun := r;
    CloneRun(newRun, run, false);
    assert newRun !in runs0;
    ValuesFrame@start(runs0);
    ValuesInsert(runs0, posDest, newRun);
    assert newRun.Value() == old(run.Value());
    if old(paragraph.Valid()) {
      DistinctInsert(runs0, posDest, newRun);
    }
  }

  /**
   * splitRun(run, pos): when the run sits in a paragraph and 0 < pos < the
   * length of its text, a new run with the run's formatting and the text
   * before pos is inserted just before it, and the run keeps the text from
   * pos on.  Otherwise nothing changes.  `parent` is the run's parent when
   * that is a paragraph, and null otherwise.
   */
  method SplitRun(parent: Paragraph?, run: Run, pos: int)
    requires parent != null ==> run in parent.runs && parent.Valid()
    modifies parent, run
    ensures parent == null || !(0 < pos < |old(run.text)|) ==>
      unchanged(run) && (parent != null ==> unchanged(parent))
    ensures parent != null && 0 < pos < |old(run.text)| ==>
      var i := IndexOf(old(parent.runs), run);
      && |parent.runs| == |old(parent.runs)| + 1
      && parent.runs == old(parent.runs)[..i] + [parent.runs[i]] + old(parent.runs)[i..]
      && fresh(parent.runs[i])
      && parent.Value() == SplitRunV(old(parent.Value()), i, pos)
      && parent.fmt == old(parent.fmt)
      && parent.Valid()
  {
    if parent == null || !(0 < pos < |run.text|) {
      return;
    }
    CutRun(parent, run, pos);
  }

  /** The body of splitRun once its guards hold. */
  method CutRun(parent: Paragraph, run: Run, pos: int)
    requires run in parent.runs && parent.Valid()
    requires 0 < pos < |run.text|
    modifies parent, run
    ensures
      var i := IndexOf(old(parent.runs), run);
      && |parent.runs| == |old(parent.runs)| + 1
      && parent.runs == old(parent.runs)[..i] + [parent.runs[i]] + old(parent.runs)[i..]
      && fresh(parent.runs[i])
      && parent.Value() == SplitRunV(old(parent.Value()), i, pos)
      && parent.fmt == old(parent.fmt)
      && parent.Valid()
  {
    var beforeText := run.text[..pos];
    var afterText := run.text[pos..];
    var numRun := IndexOf(parent.runs, run);
    ghost var runs0 := parent.runs;
    ghost var v0 := Values(runs0);
    ghost var pre := Values(runs0[..numRun]);
    ghost var post := Values(runs0[numRun + 1..]);
    assert v0 == pre + [run.Value()] + post by {
      Around(runs0, numRun);
      ValuesSplice(runs0[..numRun], [run], runs0[numRun + 1..]);
    }
    label before:
    var beforeRun := parent.InsertNewRun(numRun);
    CloneRun(beforeRun, run, true);
    beforeRun.text := beforeText;
    run.text := afterText;
    assert parent.Value() == SplitRunV(v0, numRun, pos) by {
      InsertedAround(runs0, numRun, beforeRun, parent.runs);
      assert forall i :: 0 <= i < numRun ==> runs0[i] != run;
      assert forall i :: numRun < i < |runs0| ==> runs0[i] != run;
      ValuesFrame@before(runs0[..numRun]);
      ValuesFrame@before(runs0[numRun + 1..]);
      ValuesSplice(runs0[..numRun], [beforeRun, run], runs0[numRun + 1..]);
      ValuesPair(beforeRun, run);
      assert beforeRun.Value() == RunV(v0[numRun].text[..pos], v0[numRun].fmt);
      assert run.Value() == RunV(v0[numRun].text[pos..], v0[numRun].fmt);
      SplitAround(pre, v0[numRun], post, pos);
    }
    DistinctInsert(runs0, numRun, beforeRun);
  }

  /**
   * splitParagraph(paragraph, pos), for the paragraph at position k of its
   * body: when 0 < pos < its number of runs, a copy of the paragraph is
   * inserted just before it and keeps runs [0, pos), while the paragraph
   * keeps runs [pos, ..).  Otherwise nothing changes.  The new body is
   * returned.
   */
  method SplitParagraph(body: seq<Element>, k: nat, pos: int) returns (result: seq<Element>)
    requires k < |body| && body[k].Para?
    modifies body[k].p
    ensures var p := body[k].p;
      !(0 < pos < |old(p.runs)|) ==> result == body && unchanged(p)
    ensures var p := body[k].p;
      0 < pos < |old(p.runs)| ==>
      && |result| == |body| + 1
      && result == body[..k] + [result[k]] + body[k..]
      && result[k].Para? && fresh(result[k].p)
      && result[k].p.fmt == old(p.fmt) && p.fmt == old(p.fmt)
      && result[k].p.Value() == old(p.Value())[..pos]
      && p.runs == old(p.runs)[pos..]
      && p.Value() == old(p.Value())[pos..]
  {
    var paragraph := body[k].p;
    if !(0 < pos < |paragraph.runs|) {
      return body;
    }
    result := CutParagraph(body, k, pos);
  }

  /** The body of splitParagraph once its guard holds. */
  method CutParagraph(body: seq<Element>, k: nat, pos: nat) returns (result: seq<Element>)
    requires k < |body| && body[k].Para?
    requires 0 < pos < |body[k].p.runs|
    modifies body[k].p
    ensures var p := body[k].p;
      && |result| == |body| + 1
      && result == body[..k] + [result[k]] + body[k..]
      && result[k].Para? && fresh(result[k].p)
      && result[k].p.fmt == old(p.fmt) && p.fmt == old(p.fmt)
      && result[k].p.Value() == old(p.Value())[..pos]
      && p.runs == old(p.runs)[pos..]
      && p.Value() == old(p.Value())[pos..]
  {
    var paragraph := body[k].p;
    // insertParagraph at the paragraph's own position
    var before := SplitOff(paragraph, pos);
    result := body[..k] + [Para(before)] + body[k..];
  }

  /** The copy-and-trim half of splitParagraph: a fresh copy keeps the runs
      before pos, the paragraph itself keeps the rest. */
  method SplitOff(paragraph: Paragraph, pos: nat) returns (before: Paragraph)
    requires 0 < pos < |paragraph.runs|
    modifies paragraph
    ensures fresh(before)
    ensures before.fmt == old(paragraph.fmt) && paragraph.fmt == old(paragraph.fmt)
    ensures before.Value() == old(paragraph.Value())[..pos]
    ensures paragraph.runs == old(paragraph.runs)[pos..]
    ensures paragraph.Value() == old(paragraph.Value())[pos..]
  {
    before := CopyHead(paragraph, pos);
    ghost var head := before.Value();
    DropFirstRuns(paragraph, pos);
    assert before.Value() == head;
  }

  /** A fresh paragraph holding a copy of the first pos runs of paragraph. */
  method CopyHead(paragraph: Paragraph, pos: nat) returns (before: Paragraph)
    requires pos <= |paragraph.runs|
    ensures fresh(before)
    ensures before.fmt == paragraph.fmt
    ensures before.Value() == paragraph.Value()[..pos]
  {
    ghost var runs0 := paragraph.runs;
    ghost var v0 := paragraph.Value();
    label start:
    before := new Paragraph.Empty();
    CloneParagraph(before, paragraph, false);
    assert before.Value() == v0;
    KeepFirstRuns(before, pos);
    assert paragraph.runs == runs0;
    ValuesFrame@start(runs0);
  }

  /** The first loop of splitParagraph: the run at pos is removed from the copy until there is none. */
  method KeepFirstRuns(paragraph: Paragraph, pos: nat)
    requires pos <= |paragraph.runs|
    modifies paragraph
    ensures paragraph.fmt == old(paragraph.fmt)
    ensures paragraph.runs == old(paragraph.runs)[..pos]
    ensures paragraph.Value() == old(paragraph.Value())[..pos]
  {
    ghost var runs0 := paragraph.runs;
    ValuesSlice(runs0, 0, pos);
    label start:
    var removed := paragraph.RemoveRun(pos);
    if removed {
      RemoveKeepsBefore(runs0, pos, pos);
    }
    while removed
      invariant pos <= |paragraph.runs| && paragraph.runs[..pos] == runs0[..pos]
      invariant !removed ==> |paragraph.runs| <= pos
      invariant paragraph.fmt == old(paragraph.fmt)
      modifies paragraph
      decreases |paragraph.runs| + (if removed then 1 else 0)
    {
      ghost var runs := paragraph.runs;
      removed := paragraph.RemoveRun(pos);
      if removed {
        RemoveKeepsBefore(runs, pos, pos);
      }
    }
    assert paragraph.runs == runs0[..pos];
    ValuesFrame@start(runs0[..pos]);
  }

  /** The second loop of splitParagraph: the runs before pos are removed from the original, last first. */
  method DropFirstRuns(paragraph: Paragraph, pos: nat)
    requires pos <= |paragraph.runs|
    modifies paragraph
    ensures paragraph.fmt == old(paragraph.fmt)
    ensures paragraph.runs == old(paragraph.runs)[pos..]
    ensures paragraph.Value() == old(paragraph.Value())[pos..]
  {
    ghost var runs0 := paragraph.runs;
    ValuesSlice(runs0, pos, |runs0|);
    label start:
    var n := pos;
    assert runs0[..pos] + runs0[pos..] == runs0;
    while n > 0
      invariant 0 <= n <= pos && |paragraph.runs| == n + |runs0| - pos
      invariant paragraph.runs == runs0[..n] + runs0[pos..]
      invariant paragraph.fmt == old(paragraph.fmt)
      modifies paragraph
    {
      DropBeforeStep(runs0, n, pos, paragraph.runs);
      var removed := paragraph.RemoveRun(n - 1);
      n := n - 1;
    }
    assert paragraph.runs == runs0[pos..];
    ValuesFrame@start(runs0[pos..]);
  }

  // ---------------------------------------------------------------------
  // Cloning tables, rows and cells
  // ---------------------------------------------------------------------

  /** Copies [from, i + 1) are copies [from, i) and one more. */
  lemma CopiesOneMore(es: seq<ElementV>, from: nat, i: nat)
    requires from <= i < |es|
    ensures CopiesV(es, from, i + 1) == CopiesV(es, from, i) + [CopyV(es[i])]
  {
  }

  /** One more copy placed right after the copies already in front of the clone's first paragraph. */
  lemma CopiedOneMore(cv: seq<ElementV>, k: nat, sv: seq<ElementV>, from: nat, i: nat, before: seq<ElementV>)
    requires k <= |cv| && from <= i < |sv|
    requires before == cv[..k] + CopiesV(sv, from, i) + cv[k..]
    ensures before[..k + (i - from)] + [CopyV(sv[i])] + before[k + (i - from)..]
         == cv[..k] + CopiesV(sv, from, i + 1) + cv[k..]
  {
    var c := CopiesV(sv, from, i);
    assert before[..k + (i - from)] == cv[..k] + c;
    assert before[k + (i - from)..] == cv[k..];
    assert CopiesV(sv, from, i + 1) == c + [CopyV(sv[i])];
  }

  /** A paragraph after the copies is still there. */
  lemma ParaAfterCopies(cv: seq<ElementV>, k: nat, c: seq<ElementV>)
    requires k < |cv| && cv[k].ParaV?
    ensures HasPara(cv[..k] + c + cv[k..])
  {
    assert (cv[..k] + c + cv[k..])[k + |c|] == cv[k];
  }

  /**
   * One step of cloneTableCell's loop: a paragraph is cloned into a new
   * paragraph, a table into a new table.
   */
  method CopyElement(e: Element) returns (c: Element)
    ensures SnapE(c) == CopyV(old(SnapE(e)))
    decreases e, 2
  {
    if e.Para? {
      var np := DeepCopyParagraph(e.p);
      c := Para(np);
    } else {
      var nt := CopyTable(e.t);
      c := Tbl(nt);
    }
  }

  /** A table of a cell cloned into a new table. */
  method CopyTable(t: Table) returns (nt: Table)
    ensures TblV(SnapT(nt)) == CopyV(TblV(old(SnapT(t))))
    decreases t, 3
  {
    AllocT(t);
    nt := NewTable();
    assert NewTableV.rows[0].cells[0] == NewCellV && NewCellV.body[0].ParaV?;
    nt := CloneTable(nt, t, false);
  }

  /**
   * cloneTableCell(clone, source, fromIndex, toIndex), on a clone holding a
   * paragraph (the source fetches the clone's first paragraph before
   * anything else).
   */
  method CloneTableCell(clone: Cell, source: Cell, from: int, to: int) returns (r: Cell)
    requires HasPara(SnapC(clone).body)
    ensures SnapC(r) == CloneCellV(old(SnapC(clone)), old(SnapC(source)), from, to)
    decreases source, 0
  {
    if !(0 <= from <= to <= |source.body|) {
      return Cell(source.fmt, clone.body);
    }
    ghost var cv := SnapEs(clone.body);
    var k := FirstPara(SnapEs(clone.body));
    var body := InsertCopies(clone.body, k, source, from, to);
    ParaAfterCopies(cv, k, CopiesV(old(SnapEs(source.body)), from, to));
    var last := LastPara(SnapEs(body));
    SnapEsRemove(body, last);
    body := body[..last] + body[last + 1..];
    r := Cell(source.fmt, body);
  }

  /** The loop of cloneTableCell: copies of source elements [from, to) go in order before position k. */
  method InsertCopies(body: seq<Element>, k: nat, source: Cell, from: nat, to: nat) returns (result: seq<Element>)
    requires k <= |body| && from <= to <= |source.body|
    ensures SnapEs(result) == old(SnapEs(body))[..k] + CopiesV(old(SnapEs(source.body)), from, to) + old(SnapEs(body))[k..]
    decreases source, 0, to - from
  {
    ghost var cv := SnapEs(body);
    ghost var sv := SnapEs(source.body);
    result := body;
    var i := from;
    ghost var done: seq<ElementV> := [];
    while i < to
      invariant from <= i <= to
      invariant |result| == |body| + (i - from)
      invariant SnapEs(source.body) == sv
      invariant done == CopiesV(sv, from, i)
      invariant SnapEs(result) == cv[..k] + done + cv[k..]
      modifies {}
    {
      AllocEs(result);
      AllocEs(source.body);
      ghost var before := SnapEs(result);
      assert SnapE(source.body[i]) == sv[i];
      var copy := CopyElement(source.body[i]);
      var j := k + (i - from);
      SnapEsInsert(result, j, copy);
      CopiedOneMore(cv, k, sv, from, i, before);
      CopiesOneMore(sv, from, i);
      result := result[..j] + [copy] + result[j..];
      done := done + [CopyV(sv[i])];
      i := i + 1;
    }
  }

  /** cloneTableCell(clone, source): the whole source body. */
  method CloneTableCellAll(clone: Cell, source: Cell) returns (r: Cell)
    requires HasPara(SnapC(clone).body)
    ensures SnapC(r) == CloneCellAllV(old(SnapC(clone)), old(SnapC(source)))
    decreases source, 1
  {
    r := CloneTableCell(clone, source, 0, |source.body|);
  }

  /** The cells of a row clone once the first i source cells are done. */
  function RowClonedV(clone: seq<CellV>, source: seq<CellV>, i: nat): seq<CellV>
    requires i <= |source|
    requires |clone| > 0 ==> HasPara(clone[0].body)
  {
    if i == 0 then clone
    else if |clone| > 0 then [CloneCellAllV(clone[0], source[0])] + clone[1..] + ClonesIntoNewV(source[1..i])
    else ClonesIntoNewV(source[..i])
  }

  lemma ClonesIntoNewSnoc(cs: seq<CellV>, i: nat, j: nat)
    requires i <= j < |cs|
    ensures NewCellV.body[0].ParaV?
    ensures ClonesIntoNewV(cs[i..j + 1]) == ClonesIntoNewV(cs[i..j]) + [CloneCellAllV(NewCellV, cs[j])]
  {
    assert NewCellV.body[0].ParaV?;
    assert cs[i..j + 1][j - i] == cs[j];
    assert forall k :: 0 <= k < j - i ==> cs[i..j + 1][k] == cs[i..j][k];
  }

  /** One more source cell into a new cell appended to the row. */
  lemma RowClonedAppend(clone: seq<CellV>, source: seq<CellV>, i: nat)
    requires 0 < i < |source| || (|clone| == 0 && i < |source|)
    requires |clone| > 0 ==> HasPara(clone[0].body)
    ensures NewCellV.body[0].ParaV?
    ensures RowClonedV(clone, source, i + 1) == RowClonedV(clone, source, i) + [CloneCellAllV(NewCellV, source[i])]
  {
    if |clone| > 0 {
      ClonesIntoNewSnoc(source, 1, i);
    } else {
      ClonesIntoNewSnoc(source, 0, i);
      assert source[..i] == source[0..i] && source[..i + 1] == source[0..i + 1];
    }
  }

  /** The first source cell cloned into the clone's first cell. */
  lemma RowClonedFirst(clone: seq<CellV>, source: seq<CellV>)
    requires |clone| > 0 && |source| > 0 && HasPara(clone[0].body)
    ensures RowClonedV(clone, source, 1) == clone[0 := CloneCellAllV(clone[0], source[0])]
  {
    assert source[1..1] == [];
  }

  lemma RowClonedAll(clone: RowV, source: RowV)
    requires FirstCellReusable(clone)
    ensures CloneRowV(clone, source, false).cells == RowClonedV(clone.cells, source.cells, |source.cells|)
  {
    assert source.cells[..|source.cells|] == source.cells;
  }

  /** cloneTableRow(clone, source, isEmpty). */
  method CloneTableRow(clone: Row, source: Row, isEmpty: bool) returns (r: Row)
    requires FirstCellReusable(SnapR(clone))
    ensures SnapR(r) == CloneRowV(old(SnapR(clone)), old(SnapR(source)), isEmpty)
    decreases source, 3
  {
    if isEmpty {
      return Row(source.fmt, clone.cells);
    }
    var cells := CloneCells(clone.cells, source);
    RowClonedAll(old(SnapR(clone)), old(SnapR(source)));
    r := Row(source.fmt, cells);
  }

  /** A cell created in the row (one empty paragraph) with the source cell cloned into it. */
  method CloneIntoCreatedCell(source: Cell) returns (c: Cell)
    ensures NewCellV.body[0].ParaV?
    ensures SnapC(c) == CloneCellAllV(NewCellV, old(SnapC(source)))
    decreases source, 2
  {
    AllocC(source);
    var newCell := NewCell();
    assert NewCellV.body[0].ParaV?;
    c := CloneTableCellAll(newCell, source);
  }

  /** The loop of cloneTableRow: each source cell into the first cell, then into new cells. */
  method CloneCells(cells: seq<Cell>, source: Row) returns (result: seq<Cell>)
    requires |cells| > 0 ==> HasPara(SnapCs(cells)[0].body)
    ensures SnapCs(result) == RowClonedV(old(SnapCs(cells)), old(SnapCs(source.cells)), |source.cells|)
    decreases source, 2
  {
    ghost var cv := SnapCs(cells);
    ghost var sv := SnapCs(source.cells);
    result := cells;
    var first := true;
    var i := 0;
    while i < |source.cells|
      invariant i <= |source.cells|
      invariant first <==> i == 0
      invariant SnapCs(source.cells) == sv
      invariant SnapCs(result) == RowClonedV(cv, sv, i)
      modifies {}
    {
      result := CloneCellsStep(result, source, i, first, cv, sv);
      first := false;
      i := i + 1;
    }
  }

  /** One turn of cloneTableRow's loop: source cell i into the first cell, or into a new cell at the end. */
  method CloneCellsStep(cells: seq<Cell>, source: Row, i: nat, first: bool, ghost cv: seq<CellV>, ghost sv: seq<CellV>)
    returns (result: seq<Cell>)
    requires i < |source.cells| && (first <==> i == 0) && (|cv| > 0 ==> HasPara(cv[0].body))
    requires SnapCs(source.cells) == sv && SnapCs(cells) == RowClonedV(cv, sv, i)
    ensures SnapCs(source.cells) == sv
    ensures SnapCs(result) == RowClonedV(cv, sv, i + 1)
    decreases source, 1
  {
    if first && |cells| > 0 {
      result := CloneIntoFirstCell(cells, source, cv, sv);
    } else {
      result := CloneIntoLastCell(cells, source, i, cv, sv);
    }
  }

  /** The first source cell cloned into the row's own first cell. */
  method CloneIntoFirstCell(cells: seq<Cell>, source: Row, ghost cv: seq<CellV>, ghost sv: seq<CellV>)
    returns (result: seq<Cell>)
    requires 0 < |source.cells| && |cv| > 0 && HasPara(cv[0].body)
    requires SnapCs(source.cells) == sv && SnapCs(cells) == cv
    ensures SnapCs(source.cells) == sv
    ensures SnapCs(result) == RowClonedV(cv, sv, 1)
    decreases source, 0
  {
    AllocCs(cells);
    AllocCs(source.cells);
    assert SnapC(source.cells[0]) == sv[0];
    assert SnapC(cells[0]) == cv[0];
    var c := CloneTableCellAll(cells[0], source.cells[0]);
    RowClonedFirst(cv, sv);
    SnapCsUpdate(cells, 0, c);
    result := cells[0 := c];
  }

  /** A later source cell (or any, when the row has no cell) cloned into a new cell added at the end. */
  method CloneIntoLastCell(cells: seq<Cell>, source: Row, i: nat, ghost cv: seq<CellV>, ghost sv: seq<CellV>)
    returns (result: seq<Cell>)
    requires (0 < i < |source.cells| || (|cv| == 0 && i < |source.cells|)) && (|cv| > 0 ==> HasPara(cv[0].body))
    requires SnapCs(source.cells) == sv && SnapCs(cells) == RowClonedV(cv, sv, i)
    ensures SnapCs(source.cells) == sv
    ensures SnapCs(result) == RowClonedV(cv, sv, i + 1)
    decreases source, 0
  {
    AllocCs(cells);
    AllocCs(source.cells);
    ghost var before := SnapCs(cells);
    assert SnapC(source.cells[i]) == sv[i];
    var c := CloneIntoCreatedCell(source.cells[i]);
    assert SnapCs(cells) == before;
    RowClonedAppend(cv, sv, i);
    SnapCsAppend(cells, [c]);
    result := cells + [c];
  }

  /** The number of cells a created row gets: as many as the table's first row has. */
  function CreatedWidth(t: TableV): nat
  {
    if |t.rows| > 0 then |t.rows[0].cells| else 0
  }

  /** How many rows cloneTable's first pass has created after i source rows. */
  function Created(m: nat, i: nat): nat
  {
    if m > 0 && i > 0 then i - 1 else if m > 0 then 0 else i
  }

  /** The rows of the clone after the first pass over i source rows. */
  function Pass1V(clone: TableV, i: nat): seq<RowV>
  {
    clone.rows + seq(Created(|clone.rows|, i), _ => NewRowV(CreatedWidth(clone)))
  }

  /** The row the i-th source row is cloned into (reused first row, or the row created for it). */
  function TargetIndex(m: nat, i: nat): nat
  {
    if m > 0 && i > 0 then m - 1 + i else if m > 0 then 0 else i
  }

  /** How long a prefix of the rows is final after the second pass has done i pairs. */
  function Processed(m: nat, i: nat): nat
  {
    if m > 0 && i > 0 then m + i - 1 else i
  }

  lemma Pass1Step(clone: TableV, i: nat)
    ensures Pass1V(clone, i + 1) == if i == 0 && |clone.rows| > 0 then Pass1V(clone, i) else Pass1V(clone, i) + [NewRowV(CreatedWidth(clone))]
  {
    var w := NewRowV(CreatedWidth(clone));
    var c := Created(|clone.rows|, i);
    if !(i == 0 && |clone.rows| > 0) {
      assert seq(c + 1, _ => w) == seq(c, _ => w) + [w];
    }
  }

  lemma UpdateAtSeam<T>(f: seq<T>, p: seq<T>, l: nat)
    requires |f| == |p| && l < |f|
    ensures (f[..l] + p[l..])[l := f[l]] == f[..l + 1] + p[l + 1..]
  {
  }

  lemma SameBetween<T>(f: seq<T>, p: seq<T>, m: nat)
    requires |f| == |p| && 1 <= m <= |f|
    requires f[1..m] == p[1..m]
    ensures f[..1] + p[1..] == f[..m] + p[m..]
  {
    assert f[..m] == f[..1] + f[1..m];
    assert p[1..] == p[1..m] + p[m..];
  }

  /**
   * The rows after the second pass has cloned i source rows: the first
   * Processed(m, i) final, the others as the first pass left them.
   */
  ghost function PairsDone(clone: TableV, source: TableV, i: nat): seq<RowV>
    requires FirstRowReusable(clone)
  {
    var f := CloneTableV(clone, source, false).rows;
    var p := Pass1V(clone, |source.rows|);
    var l := Processed(|clone.rows|, i);
    if l <= |f| && l <= |p| then f[..l] + p[l..] else p
  }

  /** Both passes leave as many rows as the clone ends up with. */
  lemma PassLengths(clone: TableV, source: TableV)
    requires FirstRowReusable(clone) && |source.rows| > 0
    ensures |CloneTableV(clone, source, false).rows| == |Pass1V(clone, |source.rows|)|
            == Processed(|clone.rows|, |source.rows|)
  {
    var n := |source.rows|;
    if |clone.rows| > 0 {
      assert |ClonesIntoCreatedV(CreatedWidth(clone), source.rows[1..])| == n - 1;
      assert Created(|clone.rows|, n) == n - 1;
    } else {
      assert |ClonesIntoCreatedV(0, source.rows)| == n;
    }
  }

  /** One step of cloneTable's second pass, on values. */
  lemma CloneTableStep(clone: TableV, source: TableV, i: nat)
    requires FirstRowReusable(clone) && i < |source.rows|
    ensures var x := PairsDone(clone, source, i);
            var t := TargetIndex(|clone.rows|, i);
            t < |x| && FirstCellReusable(x[t]) &&
            x[t := CloneRowV(x[t], source.rows[i], false)] == PairsDone(clone, source, i + 1)
  {
    assert NewCellV.body[0].ParaV?;
    PassLengths(clone, source);
    if |clone.rows| > 0 && i == 0 {
      StepReusedRow(clone, source, i);
    } else if |clone.rows| > 0 {
      StepCreatedRow(clone, source, i);
    } else {
      StepIntoEmpty(clone, source, i);
    }
  }

  /** The first source row goes into the clone's own first row. */
  lemma StepReusedRow(clone: TableV, source: TableV, i: nat)
    requires FirstRowReusable(clone) && i == 0 < |source.rows| && |clone.rows| > 0
    requires |CloneTableV(clone, source, false).rows| == |Pass1V(clone, |source.rows|)|
    ensures var x := PairsDone(clone, source, i);
            var t := TargetIndex(|clone.rows|, i);
            t < |x| && FirstCellReusable(x[t]) &&
            x[t := CloneRowV(x[t], source.rows[i], false)] == PairsDone(clone, source, i + 1)
  {
    var f := CloneTableV(clone, source, false).rows;
    var p := Pass1V(clone, |source.rows|);
    var m := |clone.rows|;
    assert f[0] == CloneRowV(clone.rows[0], source.rows[0], false);
    assert p[0] == clone.rows[0];
    UpdateAtSeam(f, p, 0);
    assert f[1..m] == clone.rows[1..] == p[1..m];
    SameBetween(f, p, m);
  }

  /** A later source row goes into the row created for it after the clone's rows. */
  lemma StepCreatedRow(clone: TableV, source: TableV, i: nat)
    requires FirstRowReusable(clone) && 0 < i < |source.rows| && |clone.rows| > 0
    requires NewCellV.body[0].ParaV?
    requires |CloneTableV(clone, source, false).rows| == |Pass1V(clone, |source.rows|)|
             == |clone.rows| + |source.rows| - 1
    ensures var x := PairsDone(clone, source, i);
            var t := TargetIndex(|clone.rows|, i);
            t < |x| && FirstCellReusable(x[t]) &&
            x[t := CloneRowV(x[t], source.rows[i], false)] == PairsDone(clone, source, i + 1)
  {
    var f := CloneTableV(clone, source, false).rows;
    var p := Pass1V(clone, |source.rows|);
    var w := CreatedWidth(clone);
    var l := |clone.rows| - 1 + i;
    assert p[l] == NewRowV(w);
    assert f[l] == ClonesIntoCreatedV(w, source.rows[1..])[i - 1];
    UpdateAtSeam(f, p, l);
  }

  /** With no rows in the clone, every source row goes into a created row. */
  lemma StepIntoEmpty(clone: TableV, source: TableV, i: nat)
    requires FirstRowReusable(clone) && i < |source.rows| && |clone.rows| == 0
    requires NewCellV.body[0].ParaV?
    requires |CloneTableV(clone, source, false).rows| == |Pass1V(clone, |source.rows|)| == |source.rows|
    ensures var x := PairsDone(clone, source, i);
            var t := TargetIndex(|clone.rows|, i);
            t < |x| && FirstCellReusable(x[t]) &&
            x[t := CloneRowV(x[t], source.rows[i], false)] == PairsDone(clone, source, i + 1)
  {
    var f := CloneTableV(clone, source, false).rows;
    var p := Pass1V(clone, |source.rows|);
    assert p[i] == NewRowV(0);
    assert f[i] == ClonesIntoCreatedV(0, source.rows)[i];
    UpdateAtSeam(f, p, i);
  }

  /** After the second pass every row is final. */
  lemma CloneTableDone(clone: TableV, source: TableV)
    requires FirstRowReusable(clone)
    ensures PairsDone(clone, source, 0) == Pass1V(clone, |source.rows|)
    ensures PairsDone(clone, source, |source.rows|) == CloneTableV(clone, source, false).rows
  {
    var f := CloneTableV(clone, source, false).rows;
    var l := Processed(|clone.rows|, |source.rows|);
    if |source.rows| > 0 {
      PassLengths(clone, source);
      assert l == |f|;
    } else {
      assert Pass1V(clone, 0) == clone.rows;
    }
  }

  /** cloneTable(clone, source, isEmpty). */
  method CloneTable(clone: Table, source: Table, isEmpty: bool) returns (r: Table)
    requires FirstRowReusable(SnapT(clone))
    ensures SnapT(r) == CloneTableV(old(SnapT(clone)), old(SnapT(source)), isEmpty)
    decreases source, 1
  {
    if isEmpty {
      return Table(source.fmt, clone.rows);
    }
    ghost var ct := SnapT(clone);
    ghost var st := SnapT(source);
    AllocT(clone);
    AllocT(source);
    var rows, targets := CreateRows(clone, |source.rows|);
    assert SnapT(clone) == ct && SnapT(source) == st;
    rows := ClonePairs(clone, rows, targets, source);
    r := Table(source.fmt, rows);
  }

  /**
   * The first pass of cloneTable: the row each source row goes into, the
   * clone's first row for the first source row, a created row for every
   * other one.
   */
  method CreateRows(clone: Table, n: nat) returns (rows: seq<Row>, targets: seq<nat>)
    ensures SnapRs(rows) == Pass1V(old(SnapT(clone)), n)
    ensures |targets| == n
    ensures forall j :: 0 <= j < n ==> targets[j] == TargetIndex(|clone.rows|, j)
  {
    ghost var ct := SnapT(clone);
    var m := |clone.rows|;
    rows := clone.rows;
    targets := [];
    var first := true;
    var i := 0;
    assert |ct.rows| == m;
    while i < n
      invariant i <= n
      invariant first <==> i == 0
      invariant SnapRs(rows) == Pass1V(ct, i)
      invariant |rows| == m + Created(m, i)
      invariant |rows| > 0 ==> |rows[0].cells| == CreatedWidth(ct)
      invariant |targets| == i
      invariant forall j :: 0 <= j < i ==> targets[j] == TargetIndex(m, j)
      modifies {}
    {
      var target;
      rows, target := CreateRowsStep(ct, m, rows, i, first);
      targets := targets + [target];
      first := false;
      i := i + 1;
    }
  }

  /** One turn of the row-creating loop: the first source row reuses the
      clone's first row, every other one gets a fresh row of the clone's width. */
  method CreateRowsStep(ghost ct: TableV, m: nat, rows: seq<Row>, i: nat, first: bool)
      returns (rows': seq<Row>, target: nat)
    requires m == |ct.rows| && (first <==> i == 0)
    requires SnapRs(rows) == Pass1V(ct, i)
    requires |rows| == m + Created(m, i)
    requires |rows| > 0 ==> |rows[0].cells| == CreatedWidth(ct)
    ensures SnapRs(rows') == Pass1V(ct, i + 1)
    ensures |rows'| == m + Created(m, i + 1)
    ensures |rows'| > 0 ==> |rows'[0].cells| == CreatedWidth(ct)
    ensures target == TargetIndex(m, i)
  {
    Pass1Step(ct, i);
    if first && |rows| > 0 {
      assert TargetIndex(m, i) == 0 && Pass1V(ct, i + 1) == Pass1V(ct, i);
      rows', target := rows, 0;
    } else {
      assert TargetIndex(m, i) == |rows| && Created(m, i + 1) == Created(m, i) + 1;
      var width := if |rows| > 0 then |rows[0].cells| else 0;
      assert width == CreatedWidth(ct);
      assert Pass1V(ct, i + 1) == Pass1V(ct, i) + [NewRowV(width)];
      rows' := AppendCreatedRow(rows, width);
      target := |rows'| - 1;
    }
  }

  /** A row created with `width` new cells, added after the rows. */
  method AppendCreatedRow(rows: seq<Row>, width: nat) returns (rows': seq<Row>)
    ensures SnapRs(rows') == old(SnapRs(rows)) + [NewRowV(width)]
    ensures |rows'| == |rows| + 1 && rows'[..|rows|] == rows && |rows'[|rows|].cells| == width
  {
    AllocRs(rows);
    var row := NewRow(width);
    SnapRsAppend(rows, [row]);
    assert |SnapR(row).cells| == |row.cells|;
    rows' := rows + [row];
  }

  /** The second pass of cloneTable: each source row cloned into its target row. */
  method ClonePairs(clone: Table, rows: seq<Row>, targets: seq<nat>, source: Table) returns (result: seq<Row>)
    requires FirstRowReusable(SnapT(clone))
    requires SnapRs(rows) == Pass1V(SnapT(clone), |source.rows|)
    requires |targets| == |source.rows|
    requires forall j :: 0 <= j < |targets| ==> targets[j] == TargetIndex(|clone.rows|, j)
    ensures SnapRs(result) == CloneTableV(old(SnapT(clone)), old(SnapT(source)), false).rows
    decreases source, 0
  {
    ghost var ct := SnapT(clone);
    ghost var st := SnapT(source);
    ghost var m := |clone.rows|;
    CloneTableDone(ct, st);
    result := rows;
    var i := 0;
    AllocRs(source.rows);
    while i < |targets|
      invariant i <= |targets|
      invariant SnapRs(source.rows) == st.rows
      invariant SnapRs(result) == PairsDone(ct, st, i)
      modifies {}
    {
      SnapRsAt(source.rows, i);
      result := ClonePair(ct, st, i, result, targets[i], source.rows[i]);
      i := i + 1;
    }
  }

  /** One turn of the second pass: source row i cloned into its target row t. */
  method ClonePair(ghost ct: TableV, ghost st: TableV, ghost i: nat, result: seq<Row>, t: nat, row: Row)
    returns (result': seq<Row>)
    requires FirstRowReusable(ct) && i < |st.rows| && t == TargetIndex(|ct.rows|, i)
    requires SnapR(row) == st.rows[i] && SnapRs(result) == PairsDone(ct, st, i)
    ensures SnapRs(result') == PairsDone(ct, st, i + 1)
    decreases row, 5
  {
    CloneTableStep(ct, st, i);
    SnapRsAt(result, t);
    result' := CloneRowInto(result, t, row);
  }

  /** One step of the second pass: source cloned into row t, the other rows as they were. */
  method CloneRowInto(rows: seq<Row>, t: nat, source: Row) returns (rows': seq<Row>)
    requires t < |rows| && FirstCellReusable(SnapR(rows[t]))
    ensures SnapRs(rows') == old(SnapRs(rows))[t := CloneRowV(old(SnapR(rows[t])), old(SnapR(source)), false)]
    decreases source, 4
  {
    AllocRs(rows);
    ghost var before := SnapRs(rows);
    var row := CloneTableRow(rows[t], source, false);
    assert SnapRs(rows) == before;
    SnapRsUpdate(rows, t, row);
    rows' := rows[t := row];
  }

  /**
   * cloneBodyElement(clone, source): a paragraph into a paragraph, a table
   * into a table.  When the two are of different kinds the source throws,
   * and the result is None.
   */
  method CloneBodyElement(clone: Element, source: Element) returns (r: Option<Element>)
    requires clone.Para? && source.Para? ==> clone.p != source.p
    requires clone.Tbl? && source.Tbl? ==> FirstRowReusable(SnapT(clone.t))
    modifies if clone.Para? then {clone.p} else {}
    ensures r.None? <==> clone.Para? != source.Para?
    ensures clone.Para? && source.Para? ==>
      && r == Some(clone)
      && clone.p.fmt == old(source.p.fmt)
      && clone.p.Value() == old(clone.p.Value()) + old(source.p.Value())
    ensures clone.Tbl? && source.Tbl? ==>
      r.Some? && r.value.Tbl? &&
      SnapT(r.value.t) == CloneTableV(old(SnapT(clone.t)), old(SnapT(source.t)), false)
    ensures clone.Para? != source.Para? ==> clone.Para? ==> unchanged(clone.p)
  {
    if clone.Para? && source.Para? {
      CloneParagraph(clone.p, source.p, false);
      return Some(clone);
    }
    if clone.Tbl? && source.Tbl? {
      var t := CloneTable(clone.t, source.t, false);
      return Some(Tbl(t));
    }
    return None;
  }

  // ---------------------------------------------------------------------
  // Inserting into a body
  // ---------------------------------------------------------------------

  /**
   * insertParagraph(body, paragraph, posDest): outside [0, size] nothing
   * happens and null is returned; otherwise a new paragraph is inserted at
   * posDest (at the end when posDest is the size) and the paragraph is
   * cloned into it.  On an empty body the source reads the element before
   * position 0, so posDest 0 is excluded there.
   */
  method InsertParagraph(body: seq<Element>, paragraph: Paragraph, posDest: int) returns (result: seq<Element>, newParagraph: Paragraph?)
    requires |body| == 0 ==> posDest != 0
    ensures !(0 <= posDest <= |body|) ==> result == body && newParagraph == null
    ensures 0 <= posDest <= |body| ==>
      && newParagraph != null && fresh(newParagraph)
      && result == body[..posDest] + [Para(newParagraph)] + body[posDest..]
      && SnapP(newParagraph) == old(SnapP(paragraph))
      && SnapEs(result) == old(SnapEs(body))[..posDest] + [old(SnapP(paragraph))] + old(SnapEs(body))[posDest..]
  {
    if posDest > |body| || posDest < 0 {
      return body, null;
    }
    ghost var bv := SnapEs(body);
    AllocEs(body);
    newParagraph := new Paragraph.Empty();
    CloneParagraph(newParagraph, paragraph, false);
    assert SnapEs(body) == bv;
    result := body[..posDest] + [Para(newParagraph)] + body[posDest..];
    SnapEsInsert(body, posDest, Para(newParagraph));
  }

  /**
   * insertTable(body, table, posDest): as insertParagraph, with a new table
   * (one row, one cell) into which the table is cloned.
   */
  method InsertTable(body: seq<Element>, table: Table, posDest: int) returns (result: seq<Element>, newTable: Option<Table>)
    requires |body| == 0 ==> posDest != 0
    ensures FirstRowReusable(NewTableV)
    ensures !(0 <= posDest <= |body|) ==> result == body && newTable.None?
    ensures 0 <= posDest <= |body| ==>
      && newTable.Some?
      && result == body[..posDest] + [Tbl(newTable.value)] + body[posDest..]
      && SnapT(newTable.value) == CloneTableV(NewTableV, old(SnapT(table)), false)
      && SnapEs(result) == old(SnapEs(body))[..posDest] + [SnapE(Tbl(newTable.value))] + old(SnapEs(body))[posDest..]
  {
    assert NewTableV.rows[0].cells[0] == NewCellV && NewCellV.body[0].ParaV?;
    if posDest > |body| || posDest < 0 {
      return body, None;
    }
    ghost var bv := SnapEs(body);
    AllocEs(body);
    AllocT(table);
    var t := NewTable();
    AllocEs(body);
    t := CloneTable(t, table, false);
    assert SnapEs(body) == bv;
    newTable := Some(t);
    result := body[..posDest] + [Tbl(t)] + body[posDest..];
    SnapEsInsert(body, posDest, Tbl(t));
  }

  // ---------------------------------------------------------------------
  // Cells of a row
  // ---------------------------------------------------------------------

  /**
   * addTableCell(tableRow, posDest): a new cell (one empty paragraph) is
   * inserted at posDest and returned.  POI's insertNewTc throws outside
   * [0, size].
   */
  method AddTableCell(row: Row, posDest: int) returns (result: Row, cell: Cell)
    requires 0 <= posDest <= |row.cells|
    ensures result == Row(row.fmt, row.cells[..posDest] + [cell] + row.cells[posDest..])
    ensures SnapC(cell) == NewCellV
    ensures SnapCs(result.cells) == old(SnapCs(row.cells))[..posDest] + [NewCellV] + old(SnapCs(row.cells))[posDest..]
  {
    AllocCs(row.cells);
    cell := NewCell();
    result := Row(row.fmt, row.cells[..posDest] + [cell] + row.cells[posDest..]);
    SnapCsInsert(row.cells, posDest, cell);
  }

  /**
   * removeTableCell(tableRow, posDest): the cell at posDest is removed when
   * there is one, and the answer says whether it was.
   */
  method RemoveTableCell(row: Row, posDest: int) returns (result: Row, removed: bool)
    ensures removed <==> 0 <= posDest < |row.cells|
    ensures result.fmt == row.fmt
    ensures removed ==> result.cells == row.cells[..posDest] + row.cells[posDest + 1..]
    ensures !removed ==> result == row
  {
    if 0 <= posDest < |row.cells| {
      return Row(row.fmt, row.cells[..posDest] + row.cells[posDest + 1..]), true;
    }
    return row, false;
  }

  /** Removing the cell addTableCell added gives back the row: the two are inverse. */
  lemma RemoveAfterAdd(cells: seq<Cell>, posDest: nat, cell: Cell)
    requires posDest <= |cells|
    ensures var added := cells[..posDest] + [cell] + cells[posDest..];
      posDest < |added| && added[..posDest] + added[posDest + 1..] == cells
  {
    var added := cells[..posDest] + [cell] + cells[posDest..];
    assert added[..posDest] == cells[..posDest];
    assert added[posDest + 1..] == cells[posDest..];
  }

  /** A new cell cloned into a new cell is a new cell again. */
  lemma NewCellIntoNewCell()
    ensures NewCellV.body[0].ParaV?
    ensures CloneCellAllV(NewCellV, NewCellV) == NewCellV
  {
    CloneIntoNewCell(NewCellV, 0, 1);
    assert CopiesV(NewCellV.body, 0, 1) == [CopyV(EmptyParaV)];
  }

  /**
   * insertTableCell(tableRow, tableCell, posDest) as written: the parameter
   * is overwritten with the cell addTableCell creates, and that cell is
   * cloned into itself, so the inserted cell is a new empty cell whatever
   * tableCell holds.
   */
  method InsertTableCellAsWritten(row: Row, tableCell: Cell, posDest: int) returns (result: Row, inserted: Cell)
    requires 0 <= posDest <= |row.cells|
    ensures |result.cells| == |row.cells| + 1
    ensures result.cells == row.cells[..posDest] + [inserted] + row.cells[posDest..]
    ensures SnapC(inserted) == NewCellV
  {
    var added, cell := AddTableCell(row, posDest);
    var source := cell;
    NewCellIntoNewCell();
    assert added.cells[posDest] == cell;
    inserted := CloneTableCellAll(added.cells[posDest], source);
    result := Row(added.fmt, added.cells[posDest := inserted]);
    assert result.cells == row.cells[..posDest] + [inserted] + row.cells[posDest..];
  }

  /** The cell any regular, non-empty tableCell is, which insertTableCell as written does not copy. */
  lemma InsertTableCellLosesContent()
    ensures var c := CellV(NoFmt, [ParaV(NoFmt, [RunV("x", NoFmt)])]);
      NewCellV.body[0].ParaV? && CloneCellAllV(NewCellV, c) == c && NewCellV != c
  {
    var c := CellV(NoFmt, [ParaV(NoFmt, [RunV("x", NoFmt)])]);
    assert RegularE(c.body[0]);
    CloneIntoNewCellKeeps(c);
    assert NewCellV.body[0] != c.body[0];
  }

  /**
   * insertTableCell(tableRow, tableCell, posDest) as intended: a new cell
   * is added at posDest and tableCell is cloned into it.
   */
  method InsertTableCell(row: Row, tableCell: Cell, posDest: int) returns (result: Row, inserted: Cell)
    requires 0 <= posDest <= |row.cells|
    ensures NewCellV.body[0].ParaV?
    ensures |result.cells| == |row.cells| + 1
    ensures result.cells == row.cells[..posDest] + [inserted] + row.cells[posDest..]
    ensures SnapC(inserted) == CloneCellAllV(NewCellV, old(SnapC(tableCell)))
  {
    AllocC(tableCell);
    var added, cell := AddTableCell(row, posDest);
    assert NewCellV.body[0].ParaV?;
    assert added.cells[posDest] == cell;
    inserted := CloneTableCellAll(added.cells[posDest], tableCell);
    result := Row(added.fmt, added.cells[posDest := inserted]);
    assert result.cells == row.cells[..posDest] + [inserted] + row.cells[posDest..];
  }

  // ---------------------------------------------------------------------
  // Copying the XML of a node (what setTrArray does with a row)
  // ---------------------------------------------------------------------

  /**
   * A paragraph cloned into a new, empty paragraph: the same properties and
   * runs.  This is also what a paragraph's XML copy gives.
   */
  method DeepCopyParagraph(p: Paragraph) returns (q: Paragraph)
    ensures fresh(q)
    ensures SnapP(q) == old(SnapP(p))
  {
    ghost var runs0 := p.runs;
    ghost var v := p.Value();
    label start:
    q := new Paragraph.Empty();
    assert q.Value() == [];
    CloneParagraph(q, p, false);
    assert p.runs == runs0;
    ValuesFrame@start(runs0);
    assert q.Value() == v;
  }

  method DeepCopyElement(e: Element) returns (r: Element)
    ensures SnapE(r) == old(SnapE(e))
    decreases e, 0
  {
    if e.Para? {
      var q := DeepCopyParagraph(e.p);
      r := Para(q);
    } else {
      var t := DeepCopyTable(e.t);
      r := Tbl(t);
    }
  }

  method DeepCopyTable(t: Table) returns (r: Table)
    ensures SnapT(r) == old(SnapT(t))
    decreases t, 0
  {
    ghost var sv := SnapRs(t.rows);
    var rows: seq<Row> := [];
    var i := 0;
    while i < |t.rows|
      invariant i <= |t.rows|
      invariant SnapRs(t.rows) == sv
      invariant SnapRs(rows) == sv[..i]
      modifies {}
    {
      AllocRs(rows);
      AllocRs(t.rows);
      assert SnapR(t.rows[i]) == sv[i];
      var row := DeepCopyRow(t.rows[i]);
      SnapRsAppend(rows, [row]);
      TakeOneMore(sv, i);
      rows := rows + [row];
      i := i + 1;
    }
    r := Table(t.fmt, rows);
  }

  method DeepCopyRow(row: Row) returns (r: Row)
    ensures SnapR(r) == old(SnapR(row))
    decreases row, 0
  {
    ghost var sv := SnapCs(row.cells);
    var cells: seq<Cell> := [];
    var i := 0;
    while i < |row.cells|
      invariant i <= |row.cells|
      invariant SnapCs(row.cells) == sv
      invariant SnapCs(cells) == sv[..i]
      modifies {}
    {
      AllocCs(cells);
      AllocCs(row.cells);
      assert SnapC(row.cells[i]) == sv[i];
      var cell := DeepCopyCell(row.cells[i]);
      SnapCsAppend(cells, [cell]);
      TakeOneMore(sv, i);
      cells := cells + [cell];
      i := i + 1;
    }
    r := Row(row.fmt, cells);
  }

  method DeepCopyCell(c: Cell) returns (r: Cell)
    ensures SnapC(r) == old(SnapC(c))
    decreases c, 0
  {
    ghost var sv := SnapEs(c.body);
    var body: seq<Element> := [];
    var i := 0;
    while i < |c.body|
      invariant i <= |c.body|
      invariant SnapEs(c.body) == sv
      invariant SnapEs(body) == sv[..i]
      modifies {}
    {
      AllocEs(body);
      AllocEs(c.body);
      assert SnapE(c.body[i]) == sv[i];
      var e := DeepCopyElement(c.body[i]);
      SnapEsAppend(body, [e]);
      TakeOneMore(sv, i);
      body := body + [e];
      i := i + 1;
    }
    r := Cell(c.fmt, body);
  }

  /**
   * insertTableRow(table, tableRow, posDest): a copy of the row's XML is
   * inserted at posDest.  POI's insertNewTr throws outside [0, size].
   */
  method InsertTableRow(table: Table, tableRow: Row, posDest: int) returns (result: Table, newRow: Row)
    requires 0 <= posDest <= |table.rows|
    ensures result == Table(table.fmt, table.rows[..posDest] + [newRow] + table.rows[posDest..])
    ensures SnapR(newRow) == old(SnapR(tableRow))
    ensures SnapRs(result.rows) == old(SnapRs(table.rows))[..posDest] + [old(SnapR(tableRow))] + old(SnapRs(table.rows))[posDest..]
  {
    AllocRs(table.rows);
    newRow := DeepCopyRow(tableRow);
    result := Table(table.fmt, table.rows[..posDest] + [newRow] + table.rows[posDest..]);
    SnapRsInsert(table.rows, posDest, newRow);
  }

  // ---------------------------------------------------------------------
  // Splitting tables, rows and cells
  // ---------------------------------------------------------------------

  /** The rows that remain at or after pos once `removeRow(pos)` is repeated until it fails. */
  method RemoveRowsFrom(rows: seq<Row>, pos: nat) returns (result: seq<Row>)
    ensures result == if pos < |rows| then rows[..pos] else rows
  {
    result := rows;
    while pos < |result|
      invariant pos < |rows| ==> pos <= |result| && result[..pos] == rows[..pos]
      invariant pos >= |rows| ==> result == rows
      decreases |result|
    {
      RemoveKeepsBefore(result, pos, pos);
      result := result[..pos] + result[pos + 1..];
    }
    if pos < |rows| {
      assert result == result[..pos];
    }
  }

  /** removeRow(pos - 1), ..., removeRow(0): the rows before pos go. */
  method RemoveRowsBefore(rows: seq<Row>, pos: nat) returns (result: seq<Row>)
    requires pos <= |rows|
    ensures result == rows[pos..]
  {
    var n: nat := pos;
    assert rows[..pos] + rows[pos..] == rows;
    result := rows;
    while n > 0
      invariant n <= pos && |result| == n + |rows| - pos
      invariant result == rows[..n] + rows[pos..]
    {
      DropBeforeStep(rows, n, pos, result);
      result := result[..n - 1] + result[n..];
      n := n - 1;
    }
  }

  /**
   * splitTable(table, pos), for the table at position k of its body: when
   * 0 < pos < its number of rows, a clone of the table is inserted just
   * before it and keeps rows [0, pos), while the table keeps rows
   * [pos, ..).  Otherwise nothing changes.
   */
  method SplitTable(body: seq<Element>, k: nat, pos: int) returns (result: seq<Element>)
    requires k < |body| && body[k].Tbl?
    ensures FirstRowReusable(NewTableV)
    ensures !(0 < pos < |body[k].t.rows|) ==> result == body
    ensures 0 < pos < |body[k].t.rows| ==>
      var t := body[k].t;
      var tv := old(SnapT(t));
      var cloned := CloneTableV(NewTableV, tv, false);
      && pos <= |cloned.rows|
      && |result| == |body| + 1
      && result == body[..k] + [result[k], Tbl(Table(t.fmt, t.rows[pos..]))] + body[k + 1..]
      && SnapEs(result) == old(SnapEs(body))[..k]
           + [TblV(TableV(tv.fmt, cloned.rows[..pos])), TblV(TableV(tv.fmt, tv.rows[pos..]))]
           + old(SnapEs(body))[k + 1..]
  {
    assert NewTableV.rows[0].cells[0] == NewCellV && NewCellV.body[0].ParaV?;
    if !(0 < pos < |body[k].t.rows|) {
      return body;
    }
    result := CutTable(body, k, pos);
  }

  /** The body of splitTable once its guard holds. */
  method CutTable(body: seq<Element>, k: nat, pos: nat) returns (result: seq<Element>)
    requires k < |body| && body[k].Tbl?
    requires 0 < pos < |body[k].t.rows|
    ensures FirstRowReusable(NewTableV)
    ensures var t := body[k].t;
      var tv := old(SnapT(t));
      var cloned := CloneTableV(NewTableV, tv, false);
      && pos <= |cloned.rows|
      && |result| == |body| + 1
      && result == body[..k] + [result[k], Tbl(Table(t.fmt, t.rows[pos..]))] + body[k + 1..]
      && SnapEs(result) == old(SnapEs(body))[..k]
           + [TblV(TableV(tv.fmt, cloned.rows[..pos])), TblV(TableV(tv.fmt, tv.rows[pos..]))]
           + old(SnapEs(body))[k + 1..]
  {
    assert NewTableV.rows[0].cells[0] == NewCellV && NewCellV.body[0].ParaV?;
    var table := body[k].t;
    ghost var tv := SnapT(table);
    ghost var bv := SnapEs(body);
    CloneTableRows(tv);
    AllocEs(body);
    AllocT(table);
    var inserted, beforeTable := InsertTable(body, table, k);
    assert SnapEs(body) == bv && SnapT(table) == tv;
    var bt := beforeTable.value;
    var before, after := KeepRows(bt, table, pos);
    assert SnapE(Tbl(before)) == TblV(TableV(tv.fmt, CloneTableV(NewTableV, tv, false).rows[..pos]));
    result := body[..k] + [Tbl(before), Tbl(after)] + body[k + 1..];
    SnapEsReplace(body, k, Tbl(before), Tbl(after));
  }

  /** The two loops of splitTable: the clone keeps rows [0, pos), the table rows [pos, ..). */
  method KeepRows(clone: Table, table: Table, pos: nat) returns (before: Table, after: Table)
    requires pos <= |clone.rows| && pos <= |table.rows|
    ensures before == Table(clone.fmt, clone.rows[..pos]) && after == Table(table.fmt, table.rows[pos..])
    ensures SnapT(before) == TableV(old(SnapT(clone)).fmt, old(SnapT(clone)).rows[..pos])
    ensures SnapT(after) == TableV(old(SnapT(table)).fmt, old(SnapT(table)).rows[pos..])
  {
    AllocT(clone);
    AllocT(table);
    ghost var cv := SnapT(clone);
    ghost var tv := SnapT(table);
    var beforeRows := RemoveRowsFrom(clone.rows, pos);
    var afterRows := RemoveRowsBefore(table.rows, pos);
    assert SnapT(clone) == cv && SnapT(table) == tv;
    if pos == |clone.rows| {
      assert clone.rows[..pos] == clone.rows;
    }
    SnapRsSlice(clone.rows, 0, pos);
    SnapRsSlice(table.rows, pos, |table.rows|);
    before := Table(clone.fmt, beforeRows);
    after := Table(table.fmt, afterRows);
  }

  /** A table cloned into a new table has as many rows as the source, and its formatting. */
  lemma CloneTableRows(t: TableV)
    requires |t.rows| > 0
    ensures FirstRowReusable(NewTableV)
    ensures CloneTableV(NewTableV, t, false).fmt == t.fmt
    ensures |CloneTableV(NewTableV, t, false).rows| == |t.rows|
  {
    assert NewTableV.rows[0].cells[0] == NewCellV && NewCellV.body[0].ParaV?;
  }

  /**
   * The two tables splitTable leaves, read in order, hold the rows of the
   * original table, for a table of the shape POI reproduces.
   */
  lemma SplitTableRejoins(t: TableV, pos: nat)
    requires RegularT(t) && pos <= |t.rows|
    ensures FirstRowReusable(NewTableV)
    ensures CloneTableV(NewTableV, t, false).rows[..pos] + t.rows[pos..] == t.rows
  {
    CloneIntoNewTableKeeps(t);
  }

  /** The cells that remain once `removeTableCell(row, pos)` is repeated until it fails. */
  method RemoveCellsFrom(row: Row, pos: nat) returns (result: Row)
    ensures result == if pos < |row.cells| then Row(row.fmt, row.cells[..pos]) else row
  {
    result := row;
    var removed := true;
    while removed
      invariant result.fmt == row.fmt
      invariant pos < |row.cells| ==> pos <= |result.cells| && result.cells[..pos] == row.cells[..pos]
      invariant pos >= |row.cells| ==> result == row
      invariant !removed ==> pos >= |result.cells|
      decreases |result.cells| + (if removed then 1 else 0)
    {
      var cells := result.cells;
      result, removed := RemoveTableCell(result, pos);
      if removed {
        RemoveKeepsBefore(cells, pos, pos);
      }
    }
    if pos < |row.cells| {
      assert result.cells == result.cells[..pos];
    }
  }

  /** removeTableCell(row, pos - 1), ..., removeTableCell(row, 0): the cells before pos go. */
  method RemoveCellsBefore(row: Row, pos: nat) returns (result: Row)
    requires pos <= |row.cells|
    ensures result == Row(row.fmt, row.cells[pos..])
  {
    var n: nat := pos;
    assert row.cells[..pos] + row.cells[pos..] == row.cells;
    result := row;
    while n > 0
      invariant n <= pos && |result.cells| == n + |row.cells| - pos
      invariant result.fmt == row.fmt && result.cells == row.cells[..n] + row.cells[pos..]
    {
      DropBeforeStep(row.cells, n, pos, result.cells);
      var removed;
      result, removed := RemoveTableCell(result, n - 1);
      n := n - 1;
    }
  }

  /** The two loops of splitTableRow: the copy keeps cells [0, pos), the row cells [pos, ..). */
  method KeepCells(copy: Row, row: Row, pos: nat) returns (before: Row, after: Row)
    requires pos <= |copy.cells| && pos <= |row.cells|
    ensures before == Row(copy.fmt, copy.cells[..pos]) && after == Row(row.fmt, row.cells[pos..])
    ensures SnapR(before) == RowV(old(SnapR(copy)).fmt, old(SnapR(copy)).cells[..pos])
    ensures SnapR(after) == RowV(old(SnapR(row)).fmt, old(SnapR(row)).cells[pos..])
  {
    AllocR(copy);
    AllocR(row);
    ghost var cv := SnapR(copy);
    ghost var rv := SnapR(row);
    before := RemoveCellsFrom(copy, pos);
    after := RemoveCellsBefore(row, pos);
    assert SnapR(copy) == cv && SnapR(row) == rv;
    if pos == |copy.cells| {
      assert copy.cells[..pos] == copy.cells;
    }
    SnapCsSlice(copy.cells, 0, pos);
    SnapCsSlice(row.cells, pos, |row.cells|);
  }

  /**
   * splitTableRow(tableRow, pos), for the row at position j of its table:
   * when 0 < pos < its number of cells, a copy of the row is inserted just
   * before it and keeps cells [0, pos), while the row keeps cells [pos, ..).
   * Otherwise nothing changes.
   */
  method SplitTableRow(table: Table, j: nat, pos: int) returns (result: Table)
    requires j < |table.rows|
    ensures !(0 < pos < |table.rows[j].cells|) ==> result == table
    ensures 0 < pos < |table.rows[j].cells| ==>
      var row := table.rows[j];
      var rv := old(SnapR(row));
      && |result.rows| == |table.rows| + 1
      && result == Table(table.fmt, table.rows[..j] + [result.rows[j], Row(row.fmt, row.cells[pos..])] + table.rows[j + 1..])
      && SnapRs(result.rows) == old(SnapRs(table.rows))[..j]
           + [RowV(rv.fmt, rv.cells[..pos]), RowV(rv.fmt, rv.cells[pos..])]
           + old(SnapRs(table.rows))[j + 1..]
  {
    if !(0 < pos < |table.rows[j].cells|) {
      return table;
    }
    result := CutTableRow(table, j, pos);
  }

  /** The body of splitTableRow once its guard holds. */
  method CutTableRow(table: Table, j: nat, pos: nat) returns (result: Table)
    requires j < |table.rows| && 0 < pos < |table.rows[j].cells|
    ensures var row := table.rows[j];
      var rv := old(SnapR(row));
      && |result.rows| == |table.rows| + 1
      && result == Table(table.fmt, table.rows[..j] + [result.rows[j], Row(row.fmt, row.cells[pos..])] + table.rows[j + 1..])
      && SnapRs(result.rows) == old(SnapRs(table.rows))[..j]
           + [RowV(rv.fmt, rv.cells[..pos]), RowV(rv.fmt, rv.cells[pos..])]
           + old(SnapRs(table.rows))[j + 1..]
  {
    var row := table.rows[j];
    ghost var rv := SnapR(row);
    ghost var tv := SnapRs(table.rows);
    AllocRs(table.rows);
    AllocR(row);
    var inserted, copy := InsertTableRow(table, row, j);
    assert SnapRs(table.rows) == tv && SnapR(row) == rv;
    assert |copy.cells| == |SnapR(copy).cells| == |rv.cells|;
    AllocR(copy);
    var before, after := KeepCells(copy, row, pos);
    assert SnapR(before) == RowV(rv.fmt, rv.cells[..pos]);
    result := Table(table.fmt, table.rows[..j] + [before, after] + table.rows[j + 1..]);
    SnapRsReplace(table.rows, j, before, after);
  }

  /**
   * splitTableCell(tableCell, pos), for the cell at position j of its row:
   * when 0 < pos < its number of body elements, two new cells are added
   * before it, copies of elements [0, pos) are cloned into the first and
   * copies of elements [pos, ..) into the second, and the cell itself is
   * removed.  Otherwise nothing changes.
   */
  method SplitTableCell(row: Row, j: nat, pos: int) returns (result: Row)
    requires j < |row.cells|
    ensures !(0 < pos < |row.cells[j].body|) ==> result == row
    ensures 0 < pos < |row.cells[j].body| ==>
      var cv := old(SnapC(row.cells[j]));
      && |result.cells| == |row.cells| + 1
      && result.fmt == row.fmt
      && result.cells[..j] == row.cells[..j] && result.cells[j + 2..] == row.cells[j + 1..]
      && SnapCs(result.cells) == old(SnapCs(row.cells))[..j]
           + [CellV(cv.fmt, CopiesV(cv.body, 0, pos)), CellV(cv.fmt, CopiesV(cv.body, pos, |cv.body|))]
           + old(SnapCs(row.cells))[j + 1..]
  {
    if !(0 < pos < |row.cells[j].body|) {
      return row;
    }
    result := CutTableCell(row, j, pos);
  }

  /** The body of splitTableCell once its guard holds. */
  method CutTableCell(row: Row, j: nat, pos: nat) returns (result: Row)
    requires j < |row.cells| && 0 < pos < |row.cells[j].body|
    ensures var cv := old(SnapC(row.cells[j]));
      && |result.cells| == |row.cells| + 1
      && result.fmt == row.fmt
      && result.cells[..j] == row.cells[..j] && result.cells[j + 2..] == row.cells[j + 1..]
      && SnapCs(result.cells) == old(SnapCs(row.cells))[..j]
           + [CellV(cv.fmt, CopiesV(cv.body, 0, pos)), CellV(cv.fmt, CopiesV(cv.body, pos, |cv.body|))]
           + old(SnapCs(row.cells))[j + 1..]
  {
    ghost var cv := SnapC(row.cells[j]);
    ghost var rv := SnapCs(row.cells);
    var filled := FillTwoCells(row, j, pos);
    ghost var fv := SnapCs(filled.cells);
    AllocCs(filled.cells);
    var removed;
    result, removed := RemoveTableCell(filled, j + 2);
    assert SnapCs(filled.cells) == fv;
    SnapCsRemove(filled.cells, j + 2);
    assert fv[..j + 2] + fv[j + 3..] == rv[..j]
           + [CellV(cv.fmt, CopiesV(cv.body, 0, pos)), CellV(cv.fmt, CopiesV(cv.body, pos, |cv.body|))]
           + rv[j + 1..] by {
      TwoBeforeRemoved(rv, j, CellV(cv.fmt, CopiesV(cv.body, 0, pos)), CellV(cv.fmt, CopiesV(cv.body, pos, |cv.body|)), fv);
    }
    TwoBeforeRemoved(row.cells, j, filled.cells[j], filled.cells[j + 1], filled.cells);
  }

  /** Two elements put just before position j, then the element that was at j removed. */
  lemma TwoBeforeRemoved<T>(s: seq<T>, j: nat, y2: T, y1: T, t: seq<T>)
    requires j < |s| && t == s[..j] + [y2, y1] + s[j..]
    ensures j + 2 < |t| && t[j + 2] == s[j]
    ensures t[..j + 2] + t[j + 3..] == s[..j] + [y2, y1] + s[j + 1..]
  {
    assert t[..j + 2] == s[..j] + [y2, y1];
    assert t[j + 3..] == s[j + 1..];
  }

  /** The additions and the clones of splitTableCell: two new cells before the cell, holding its two halves. */
  method FillTwoCells(row: Row, j: nat, pos: nat) returns (result: Row)
    requires j < |row.cells| && 0 < pos < |row.cells[j].body|
    ensures var cv := old(SnapC(row.cells[j]));
      && result.fmt == row.fmt
      && |result.cells| == |row.cells| + 2
      && result.cells == row.cells[..j] + [result.cells[j], result.cells[j + 1]] + row.cells[j..]
      && SnapCs(result.cells) == old(SnapCs(row.cells))[..j]
           + [CellV(cv.fmt, CopiesV(cv.body, 0, pos)), CellV(cv.fmt, CopiesV(cv.body, pos, |cv.body|))]
           + old(SnapCs(row.cells))[j..]
  {
    var tableCell := row.cells[j];
    ghost var cv := SnapC(tableCell);
    ghost var rv := SnapCs(row.cells);
    AllocC(tableCell);
    AllocCs(row.cells);
    var row1, cell1 := AddTableCell(row, j);
    AllocC(cell1);
    var row2, cell2 := AddTableCell(row1, j);
    TwoInserted(row.cells, j, cell1, cell2);
    assert SnapC(tableCell) == cv && SnapC(cell1) == NewCellV && SnapCs(row.cells) == rv;
    var clone2, clone1 := CloneHalves(cell2, cell1, tableCell, pos);
    TwoReplaced(row.cells, j, cell2, cell1, clone2, clone1);
    result := Row(row2.fmt, row2.cells[j := clone2][j + 1 := clone1]);
    assert SnapCs(row.cells) == rv;
    SnapCsInsertTwo(row.cells, j, clone2, clone1);
  }

  lemma TwoInserted<T>(s: seq<T>, j: nat, x1: T, x2: T)
    requires j <= |s|
    ensures var s1 := s[..j] + [x1] + s[j..]; s1[..j] + [x2] + s1[j..] == s[..j] + [x2, x1] + s[j..]
  {
    var s1 := s[..j] + [x1] + s[j..];
    assert s1[..j] == s[..j] && s1[j..] == [x1] + s[j..];
  }

  lemma TwoReplaced<T>(s: seq<T>, j: nat, x2: T, x1: T, y2: T, y1: T)
    requires j <= |s|
    ensures (s[..j] + [x2, x1] + s[j..])[j := y2][j + 1 := y1] == s[..j] + [y2, y1] + s[j..]
  {
  }

  /** The two clones of splitTableCell, into two new cells. */
  method CloneHalves(cell2: Cell, cell1: Cell, source: Cell, pos: nat) returns (clone2: Cell, clone1: Cell)
    requires SnapC(cell2) == NewCellV && SnapC(cell1) == NewCellV && pos <= |source.body|
    ensures var cv := old(SnapC(source));
      && SnapC(clone2) == CellV(cv.fmt, CopiesV(cv.body, 0, pos))
      && SnapC(clone1) == CellV(cv.fmt, CopiesV(cv.body, pos, |cv.body|))
  {
    ghost var cv := SnapC(source);
    var size := |source.body|;
    AllocC(cell1);
    AllocC(source);
    clone2 := CloneHalf(cell2, source, 0, pos);
    ghost var half := SnapC(clone2);
    AllocC(clone2);
    assert SnapC(source) == cv && SnapC(cell1) == NewCellV;
    clone1 := CloneHalf(cell1, source, pos, size);
    assert SnapC(clone2) == half;
  }

  /** Elements [from, to) of the source cloned into a new cell. */
  method CloneHalf(cell: Cell, source: Cell, from: nat, to: nat) returns (r: Cell)
    requires SnapC(cell) == NewCellV && from <= to <= |source.body|
    ensures var cv := old(SnapC(source)); SnapC(r) == CellV(cv.fmt, CopiesV(cv.body, from, to))
  {
    CloneIntoNewCell(SnapC(source), from, to);
    r := CloneTableCell(cell, source, from, to);
  }

  /** Copies of [0, pos) then copies of [pos, size) are the copies of the whole list. */
  lemma CopiesSplit(es: seq<ElementV>, pos: nat)
    requires pos <= |es|
    ensures CopiesV(es, 0, pos) + CopiesV(es, pos, |es|) == CopiesV(es, 0, |es|)
  {
    var all := CopiesV(es, 0, |es|);
    forall i | 0 <= i < |all|
      ensures (CopiesV(es, 0, pos) + CopiesV(es, pos, |es|))[i] == all[i]
    {
      CopiesSplitAt(es, pos, i);
    }
  }

  /** One element of CopiesSplit: the copy at i comes from the part of the cut that holds i. */
  lemma CopiesSplitAt(es: seq<ElementV>, pos: nat, i: nat)
    requires pos <= |es| && i < |es|
    ensures (CopiesV(es, 0, pos) + CopiesV(es, pos, |es|))[i] == CopiesV(es, 0, |es|)[i]
  {
    var a := CopiesV(es, 0, pos);
    var b := CopiesV(es, pos, |es|);
    CopiesAt(es, 0, |es|, i);
    if i < pos {
      CopiesAt(es, 0, pos, i);
      assert (a + b)[i] == a[i];
    } else {
      var j := i - pos;
      CopiesAt(es, pos, |es|, j);
      assert pos + j == i;
      assert (a + b)[i] == b[j];
    }
  }

  lemma CopiesAt(es: seq<ElementV>, from: nat, to: nat, i: nat)
    requires from <= to <= |es| && i < to - from
    ensures CopiesV(es, from, to)[i] == CopyV(es[from + i])
  {
  }

  /**
   * The two cells splitTableCell leaves hold, in order, copies of all the
   * original cell's elements; for a cell of the shape POI reproduces they
   * are its elements.
   */
  lemma SplitTableCellRejoins(c: CellV, pos: nat)
    requires pos <= |c.body|
    ensures CopiesV(c.body, 0, pos) + CopiesV(c.body, pos, |c.body|) == CopiesV(c.body, 0, |c.body|)
    ensures RegularC(c) ==> CopiesV(c.body, 0, pos) + CopiesV(c.body, pos, |c.body|) == c.body
  {
    CopiesSplit(c.body, pos);
    CopiesKeep(c.body);
  }
}
