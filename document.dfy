/**
 * The document tree the editor works on, as Apache POI presents it: runs of
 * text with formatting, grouped into paragraphs; tables made of rows made of
 * cells; a cell (like a document body, a header or a footer) holds an
 * ordered list of paragraphs and tables.
 *
 * Runs and paragraphs are objects: instructions keep references to runs,
 * processing rewrites a run's text, and the marker isolation rewrites a
 * paragraph's run list in place.  Tables, rows, cells and bodies are values
 * whose leaves are paragraph objects; an edit on them returns the new value.
 * The snapshot datatypes (ElementV, TableV, RowV, CellV) are what a tree
 * looks like in a given heap, and the Snap functions read it off.
 */
module Document {
  import opened Wrappers
  import opened Runs

  /** A run (XWPFRun), modelled with a single text element. */
  class Run {
    var text: string
    var fmt: Fmt

    /** A fresh run with no text and no formatting, as POI creates one. */
    constructor Empty()
      ensures text == "" && fmt == NoFmt
    {
      text := "";
      fmt := NoFmt;
    }

    function Value(): RunV
      reads this
    {
      RunV(text, fmt)
    }
  }

  /** No run object appears twice in the list. */
  ghost predicate Distinct(rs: seq<Run>)
  {
    forall i, j :: 0 <= i < j < |rs| ==> rs[i] != rs[j]
  }

  /** A new run put in a list of distinct runs keeps them distinct. */
  lemma DistinctInsert(rs: seq<Run>, i: nat, r: Run)
    requires Distinct(rs) && r !in rs && i <= |rs|
    ensures Distinct(rs[..i] + [r] + rs[i..])
  {
    var xs := rs[..i] + [r] + rs[i..];
    forall a, b | 0 <= a < b < |xs|
      ensures xs[a] != xs[b]
    {
      if a < i && b > i {
        assert xs[b] == rs[b - 1];
      } else if a > i {
        assert xs[a] == rs[a - 1] && xs[b] == rs[b - 1];
      }
    }
  }

  /** Removing a run from a list of distinct runs keeps them distinct. */
  lemma DistinctRemove(rs: seq<Run>, i: nat)
    requires Distinct(rs) && i < |rs|
    ensures Distinct(rs[..i] + rs[i + 1..])
  {
    var xs := rs[..i] + rs[i + 1..];
    forall a, b | 0 <= a < b < |xs|
      ensures xs[a] != xs[b]
    {
      if b >= i {
        assert xs[b] == rs[b + 1];
      }
      if a >= i {
        assert xs[a] == rs[a + 1];
      }
    }
  }

  /** What a list of runs holds, in order. */
  function Values(rs: seq<Run>): (vs: seq<RunV>)
    reads rs
    ensures |vs| == |rs|
  {
    seq(|rs|, i requires 0 <= i < |rs| reads rs => rs[i].Value())
  }

  /** A sequence around its element i. */
  lemma Around<T>(s: seq<T>, i: nat)
    requires i < |s|
    ensures s == s[..i] + [s[i]] + s[i + 1..]
  {
  }

  /** A sequence with x put in before its element i, around that element. */
  lemma InsertedAround<T>(s: seq<T>, i: nat, x: T, t: seq<T>)
    requires i < |s| && t == s[..i] + [x] + s[i..]
    ensures t == s[..i] + [x, s[i]] + s[i + 1..]
  {
  }

  /** Removing element i leaves the elements before i in place. */
  lemma RemoveKeepsBefore<T>(s: seq<T>, i: nat, n: nat)
    requires n <= i < |s|
    ensures (s[..i] + s[i + 1..])[..n] == s[..n]
  {
  }

  /** One removal of a loop dropping s[..pos] from the back: u is s[..n] + s[pos..] and loses element n - 1. */
  lemma DropBeforeStep<T>(s: seq<T>, n: nat, pos: nat, u: seq<T>)
    requires 0 < n <= pos <= |s| && u == s[..n] + s[pos..]
    ensures n <= |u| && u[..n - 1] + u[n..] == s[..n - 1] + s[pos..]
  {
    assert u[..n - 1] == s[..n - 1] && u[n..] == s[pos..];
  }

  /** Element k of a sequence whose element j has been removed. */
  lemma RemovedAt<T>(s: seq<T>, j: nat, k: nat)
    requires j < |s| && k < |s| - 1
    ensures |s[..j] + s[j + 1..]| == |s| - 1
    ensures (s[..j] + s[j + 1..])[k] == if k < j then s[k] else s[k + 1]
  {
  }

  /** A sequence cut in three at i and j. */
  lemma ThreeWay<T>(s: seq<T>, i: nat, j: nat)
    requires i <= j <= |s|
    ensures s == s[..i] + s[i..j] + s[j..]
  {
  }

  /** The middle part of a three-part concatenation. */
  lemma MiddleOf<T>(x: seq<T>, y: seq<T>, z: seq<T>)
    ensures (x + y + z)[|x|..|x| + |y|] == y
  {
  }

  /** One more element of a sequence. */
  lemma TakeOneMore<T>(s: seq<T>, i: nat)
    requires i < |s|
    ensures s[..i + 1] == s[..i] + [s[i]]
  {
  }

  lemma ValuesAppend(a: seq<Run>, b: seq<Run>)
    ensures Values(a + b) == Values(a) + Values(b)
  {
  }

  lemma ValuesSplice(a: seq<Run>, mid: seq<Run>, c: seq<Run>)
    ensures Values(a + mid + c) == Values(a) + Values(mid) + Values(c)
  {
    ValuesAppend(a + mid, c);
    ValuesAppend(a, mid);
  }

  lemma ValuesPair(a: Run, b: Run)
    ensures Values([a, b]) == [a.Value(), b.Value()]
  {
  }

  /** The values of runs none of which changed. */
  twostate lemma ValuesFrame(rs: seq<Run>)
    requires forall i :: 0 <= i < |rs| ==> unchanged(rs[i])
    ensures Values(rs) == old(Values(rs))
  {
  }

  lemma ValuesSlice(rs: seq<Run>, i: nat, j: nat)
    requires i <= j <= |rs|
    ensures Values(rs[i..j]) == Values(rs)[i..j]
  {
  }

  /** The values of a list with one run put in at position i. */
  lemma ValuesInsert(rs: seq<Run>, i: nat, r: Run)
    requires i <= |rs|
    ensures Values(rs[..i] + [r] + rs[i..]) == Values(rs)[..i] + [r.Value()] + Values(rs)[i..]
  {
    ValuesAppend(rs[..i] + [r], rs[i..]);
    ValuesAppend(rs[..i], [r]);
    ValuesSlice(rs, 0, i);
    ValuesSlice(rs, i, |rs|);
  }

  /** A paragraph (XWPFParagraph): its own formatting and its list of runs. */
  class Paragraph {
    var fmt: Fmt
    var runs: seq<Run>

    /** A fresh paragraph with no properties and no runs. */
    constructor Empty()
      ensures fmt == NoFmt && runs == []
    {
      fmt := NoFmt;
      runs := [];
    }

    /** POI never lists one run object twice in a paragraph. */
    ghost predicate Valid()
      reads this
    {
      Distinct(runs)
    }

    /** The runs as values, in order. */
    function Value(): seq<RunV>
      reads this, runs
    {
      Values(runs)
    }

    /** The paragraph's text: its runs' texts joined. */
    function Text(): string
      reads this, runs
    {
      Concat(Value())
    }

    /**
     * insertNewRun: a fresh empty run at position pos, or null (and nothing
     * changes) when pos is outside [0, number of runs].
     */
    method InsertNewRun(pos: int) returns (r: Run?)
      modifies this
      ensures fmt == old(fmt)
      ensures 0 <= pos <= |old(runs)| ==>
        r != null && fresh(r) && r.text == "" && r.fmt == NoFmt
        && runs == old(runs)[..pos] + [r] + old(runs)[pos..]
      ensures !(0 <= pos <= |old(runs)|) ==> r == null && runs == old(runs)
    {
      if 0 <= pos <= |runs| {
        r := new Run.Empty();
        runs := runs[..pos] + [r] + runs[pos..];
      } else {
        r := null;
      }
    }

    /** createRun: a fresh empty run appended to the paragraph. */
    method CreateRun() returns (r: Run)
      modifies this
      ensures fmt == old(fmt)
      ensures fresh(r) && r.text == "" && r.fmt == NoFmt
      ensures runs == old(runs) + [r]
    {
      r := new Run.Empty();
      runs := runs + [r];
    }

    /** removeRun: removes the run at pos and answers true, or answers false when pos is out of range. */
    method RemoveRun(pos: int) returns (removed: bool)
      modifies this
      ensures fmt == old(fmt)
      ensures removed <==> 0 <= pos < |old(runs)|
      ensures removed ==> runs == old(runs)[..pos] + old(runs)[pos + 1..]
      ensures !removed ==> runs == old(runs)
    {
      if 0 <= pos < |runs| {
        runs := runs[..pos] + runs[pos + 1..];
        removed := true;
      } else {
        removed := false;
      }
    }
  }

  /** List.indexOf: the first position holding run r. */
  function IndexOf(runs: seq<Run>, r: Run): (i: nat)
    requires r in runs
    ensures i < |runs| && runs[i] == r
    ensures forall j :: 0 <= j < i ==> runs[j] != r
  {
    if runs[0] == r then 0 else IndexOf(runs[1..], r) + 1
  }

  /** In a list of distinct runs, the run at position i is found at position i. */
  lemma IndexOfDistinct(runs: seq<Run>, i: nat)
    requires Distinct(runs) && i < |runs|
    ensures IndexOf(runs, runs[i]) == i
  {
  }

  // ---------------------------------------------------------------------
  // Body elements, tables, rows and cells
  // ---------------------------------------------------------------------

  /** A body element (IBodyElement): a paragraph or a table. */
  datatype Element = Para(p: Paragraph) | Tbl(t: Table)

  datatype Table = Table(fmt: Fmt, rows: seq<Row>)

  datatype Row = Row(fmt: Fmt, cells: seq<Cell>)

  /** A table cell is a body: an ordered list of paragraphs and tables. */
  datatype Cell = Cell(fmt: Fmt, body: seq<Element>)

  /** What a body element looks like in a given heap. */
  datatype ElementV = ParaV(fmt: Fmt, runs: seq<RunV>) | TblV(t: TableV)

  datatype TableV = TableV(fmt: Fmt, rows: seq<RowV>)

  datatype RowV = RowV(fmt: Fmt, cells: seq<CellV>)

  datatype CellV = CellV(fmt: Fmt, body: seq<ElementV>)

  // ---------------------------------------------------------------------
  // Footprints: the paragraphs a tree holds, and their runs
  // ---------------------------------------------------------------------

  function ParasOfEs(es: seq<Element>): set<Paragraph>
    decreases es
  {
    set i, p | 0 <= i < |es| && p in ParasOfE(es[i]) :: p
  }

  function ParasOfE(e: Element): set<Paragraph>
    decreases e
  {
    match e
    case Para(p) => {p}
    case Tbl(t) => ParasOfT(t)
  }

  function ParasOfT(t: Table): set<Paragraph>
    decreases t
  {
    ParasOfRs(t.rows)
  }

  function ParasOfRs(rs: seq<Row>): set<Paragraph>
    decreases rs
  {
    set i, p | 0 <= i < |rs| && p in ParasOfR(rs[i]) :: p
  }

  function ParasOfR(r: Row): set<Paragraph>
    decreases r
  {
    ParasOfCs(r.cells)
  }

  function ParasOfCs(cs: seq<Cell>): set<Paragraph>
    decreases cs
  {
    set i, p | 0 <= i < |cs| && p in ParasOfC(cs[i]) :: p
  }

  function ParasOfC(c: Cell): set<Paragraph>
    decreases c
  {
    ParasOfEs(c.body)
  }

  lemma ParasOfEsSingle(e: Element)
    ensures ParasOfEs([e]) == ParasOfE(e)
  {
    assert [e][0] == e;
  }

  /** The runs of a set of paragraphs. */
  function RunsOf(ps: set<Paragraph>): set<Run>
    reads ps
  {
    set p, r | p in ps && r in p.runs :: r
  }

  // ---------------------------------------------------------------------
  // Snapshots
  // ---------------------------------------------------------------------

  function SnapP(p: Paragraph): ElementV
    reads p, p.runs
  {
    ParaV(p.fmt, p.Value())
  }

  function SnapEs(es: seq<Element>): (vs: seq<ElementV>)
    reads ParasOfEs(es), RunsOf(ParasOfEs(es))
    ensures |vs| == |es|
    ensures forall k :: 0 <= k < |es| ==> vs[k] == SnapE(es[k])
    decreases es
  {
    seq(|es|, i requires 0 <= i < |es| reads ParasOfEs(es), RunsOf(ParasOfEs(es)) => SnapE(es[i]))
  }

  function SnapE(e: Element): ElementV
    reads ParasOfE(e), RunsOf(ParasOfE(e))
    decreases e
  {
    match e
    case Para(p) =>
      assert forall r | r in p.runs :: r in RunsOf(ParasOfE(e));
      SnapP(p)
    case Tbl(t) => TblV(SnapT(t))
  }

  function SnapT(t: Table): TableV
    reads ParasOfT(t), RunsOf(ParasOfT(t))
    decreases t
  {
    TableV(t.fmt, SnapRs(t.rows))
  }

  function SnapRs(rs: seq<Row>): (vs: seq<RowV>)
    reads ParasOfRs(rs), RunsOf(ParasOfRs(rs))
    ensures |vs| == |rs|
    decreases rs
  {
    seq(|rs|, i requires 0 <= i < |rs| reads ParasOfRs(rs), RunsOf(ParasOfRs(rs)) => SnapR(rs[i]))
  }

  function SnapR(r: Row): RowV
    reads ParasOfR(r), RunsOf(ParasOfR(r))
    decreases r
  {
    RowV(r.fmt, SnapCs(r.cells))
  }

  function SnapCs(cs: seq<Cell>): (vs: seq<CellV>)
    reads ParasOfCs(cs), RunsOf(ParasOfCs(cs))
    ensures |vs| == |cs|
    decreases cs
  {
    seq(|cs|, i requires 0 <= i < |cs| reads ParasOfCs(cs), RunsOf(ParasOfCs(cs)) => SnapC(cs[i]))
  }

  function SnapC(c: Cell): CellV
    reads ParasOfC(c), RunsOf(ParasOfC(c))
    decreases c
  {
    CellV(c.fmt, SnapEs(c.body))
  }

  // Snapshots of joined and cut lists, in one heap

  lemma SnapEsAppend(a: seq<Element>, b: seq<Element>)
    ensures SnapEs(a + b) == SnapEs(a) + SnapEs(b)
  {
    forall i | 0 <= i < |a + b|
      ensures SnapEs(a + b)[i] == (SnapEs(a) + SnapEs(b))[i]
    {
      if i < |a| {
        assert (a + b)[i] == a[i];
      } else {
        assert (a + b)[i] == b[i - |a|];
      }
    }
  }

  lemma SnapEsSlice(es: seq<Element>, i: nat, j: nat)
    requires i <= j <= |es|
    ensures SnapEs(es[i..j]) == SnapEs(es)[i..j]
  {
    var a, b, c := es[..i], es[i..j], es[j..];
    ThreeWay(es, i, j);
    SnapEsAppend(a + b, c);
    SnapEsAppend(a, b);
    MiddleOf(SnapEs(a), SnapEs(b), SnapEs(c));
  }

  lemma SnapEsInsert(es: seq<Element>, j: nat, e: Element)
    requires j <= |es|
    ensures SnapEs(es[..j] + [e] + es[j..]) == SnapEs(es)[..j] + [SnapE(e)] + SnapEs(es)[j..]
  {
    SnapEsSlice(es, 0, j);
    SnapEsSlice(es, j, |es|);
    SnapEsAppend(es[..j] + [e], es[j..]);
    SnapEsAppend(es[..j], [e]);
  }

  lemma SnapEsReplace(es: seq<Element>, j: nat, a: Element, b: Element)
    requires j < |es|
    ensures SnapEs(es[..j] + [a, b] + es[j + 1..]) == SnapEs(es)[..j] + [SnapE(a), SnapE(b)] + SnapEs(es)[j + 1..]
  {
    var pre, mid, post := es[..j], [a, b], es[j + 1..];
    var whole := SnapEs(es);
    SnapEsSlice(es, 0, j);
    SnapEsSlice(es, j + 1, |es|);
    assert SnapEs(pre) == whole[..j];
    assert SnapEs(post) == whole[j + 1..];
    assert SnapEs(mid) == [SnapE(a), SnapE(b)];
    SnapEsAppend(pre, mid);
    SnapEsAppend(pre + mid, post);
  }

  lemma SnapEsRemove(es: seq<Element>, j: nat)
    requires j < |es|
    ensures SnapEs(es[..j] + es[j + 1..]) == SnapEs(es)[..j] + SnapEs(es)[j + 1..]
  {
    var vs := SnapEs(es);
    var rest := es[..j] + es[j + 1..];
    var ws := vs[..j] + vs[j + 1..];
    forall k | 0 <= k < |rest|
      ensures SnapEs(rest)[k] == ws[k]
    {
      SnapEsRemovedAt(es, j, k);
      RemovedAt(vs, j, k);
    }
  }

  lemma SnapEsRemovedAt(es: seq<Element>, j: nat, k: nat)
    requires j < |es| && k < |es| - 1
    ensures SnapEs(es[..j] + es[j + 1..])[k] == SnapEs(es)[if k < j then k else k + 1]
  {
    var rest := es[..j] + es[j + 1..];
    var i := if k < j then k else k + 1;
    RemovedAt(es, j, k);
    assert rest[k] == es[i];
    assert SnapEs(rest)[k] == SnapE(rest[k]);
    assert SnapEs(es)[i] == SnapE(es[i]);
  }

  lemma SnapCsAppend(a: seq<Cell>, b: seq<Cell>)
    ensures SnapCs(a + b) == SnapCs(a) + SnapCs(b)
  {
    forall i | 0 <= i < |a + b|
      ensures SnapCs(a + b)[i] == (SnapCs(a) + SnapCs(b))[i]
    {
      if i < |a| {
        assert (a + b)[i] == a[i];
      } else {
        assert (a + b)[i] == b[i - |a|];
      }
    }
  }

  lemma SnapCsSlice(cs: seq<Cell>, i: nat, j: nat)
    requires i <= j <= |cs|
    ensures SnapCs(cs[i..j]) == SnapCs(cs)[i..j]
  {
    var a, b, c := cs[..i], cs[i..j], cs[j..];
    ThreeWay(cs, i, j);
    SnapCsAppend(a + b, c);
    SnapCsAppend(a, b);
    MiddleOf(SnapCs(a), SnapCs(b), SnapCs(c));
  }

  lemma SnapRsAppend(a: seq<Row>, b: seq<Row>)
    ensures SnapRs(a + b) == SnapRs(a) + SnapRs(b)
  {
    forall i | 0 <= i < |a + b|
      ensures SnapRs(a + b)[i] == (SnapRs(a) + SnapRs(b))[i]
    {
      if i < |a| {
        assert (a + b)[i] == a[i];
      } else {
        assert (a + b)[i] == b[i - |a|];
      }
    }
  }

  lemma SnapCsInsert(cs: seq<Cell>, j: nat, c: Cell)
    requires j <= |cs|
    ensures SnapCs(cs[..j] + [c] + cs[j..]) == SnapCs(cs)[..j] + [SnapC(c)] + SnapCs(cs)[j..]
  {
    SnapCsSlice(cs, 0, j);
    SnapCsSlice(cs, j, |cs|);
    SnapCsAppend(cs[..j] + [c], cs[j..]);
    SnapCsAppend(cs[..j], [c]);
  }

  lemma SnapCsReplace(cs: seq<Cell>, j: nat, a: Cell, b: Cell)
    requires j < |cs|
    ensures SnapCs(cs[..j] + [a, b] + cs[j + 1..]) == SnapCs(cs)[..j] + [SnapC(a), SnapC(b)] + SnapCs(cs)[j + 1..]
  {
    SnapCsSlice(cs, 0, j);
    SnapCsSlice(cs, j + 1, |cs|);
    SnapCsAppend(cs[..j] + [a, b], cs[j + 1..]);
    SnapCsAppend(cs[..j], [a, b]);
    SnapCsAppend([a], [b]);
    assert [a] + [b] == [a, b];
  }

  lemma SnapCsRemove(cs: seq<Cell>, j: nat)
    requires j < |cs|
    ensures SnapCs(cs[..j] + cs[j + 1..]) == SnapCs(cs)[..j] + SnapCs(cs)[j + 1..]
  {
    var vs := SnapCs(cs);
    var rest := cs[..j] + cs[j + 1..];
    var ws := vs[..j] + vs[j + 1..];
    forall k | 0 <= k < |rest|
      ensures SnapCs(rest)[k] == ws[k]
    {
      SnapCsRemovedAt(cs, j, k);
      RemovedAt(vs, j, k);
    }
  }

  lemma SnapCsRemovedAt(cs: seq<Cell>, j: nat, k: nat)
    requires j < |cs| && k < |cs| - 1
    ensures SnapCs(cs[..j] + cs[j + 1..])[k] == SnapCs(cs)[if k < j then k else k + 1]
  {
    var rest := cs[..j] + cs[j + 1..];
    var i := if k < j then k else k + 1;
    RemovedAt(cs, j, k);
    assert rest[k] == cs[i];
    assert SnapCs(rest)[k] == SnapC(rest[k]);
    assert SnapCs(cs)[i] == SnapC(cs[i]);
  }

  lemma SnapCsInsertTwo(cs: seq<Cell>, j: nat, a: Cell, b: Cell)
    requires j <= |cs|
    ensures SnapCs(cs[..j] + [a, b] + cs[j..]) == SnapCs(cs)[..j] + [SnapC(a), SnapC(b)] + SnapCs(cs)[j..]
  {
    SnapCsSlice(cs, 0, j);
    SnapCsSlice(cs, j, |cs|);
    SnapCsAppend(cs[..j] + [a, b], cs[j..]);
    SnapCsAppend(cs[..j], [a, b]);
    SnapCsAppend([a], [b]);
    assert [a] + [b] == [a, b];
  }

  lemma SnapCsUpdate(cs: seq<Cell>, j: nat, c: Cell)
    requires j < |cs|
    ensures SnapCs(cs[j := c]) == SnapCs(cs)[j := SnapC(c)]
  {
  }

  lemma SnapRsInsert(rs: seq<Row>, j: nat, r: Row)
    requires j <= |rs|
    ensures SnapRs(rs[..j] + [r] + rs[j..]) == SnapRs(rs)[..j] + [SnapR(r)] + SnapRs(rs)[j..]
  {
    SnapRsSlice(rs, 0, j);
    SnapRsSlice(rs, j, |rs|);
    SnapRsAppend(rs[..j] + [r], rs[j..]);
    SnapRsAppend(rs[..j], [r]);
  }

  lemma SnapRsReplace(rs: seq<Row>, j: nat, a: Row, b: Row)
    requires j < |rs|
    ensures SnapRs(rs[..j] + [a, b] + rs[j + 1..]) == SnapRs(rs)[..j] + [SnapR(a), SnapR(b)] + SnapRs(rs)[j + 1..]
  {
    SnapRsSlice(rs, 0, j);
    SnapRsSlice(rs, j + 1, |rs|);
    SnapRsAppend(rs[..j] + [a, b], rs[j + 1..]);
    SnapRsAppend(rs[..j], [a, b]);
    SnapRsAppend([a], [b]);
    assert [a] + [b] == [a, b];
  }

  lemma SnapRsUpdate(rs: seq<Row>, j: nat, r: Row)
    requires j < |rs|
    ensures SnapRs(rs[j := r]) == SnapRs(rs)[j := SnapR(r)]
  {
  }

  lemma SnapRsAt(rs: seq<Row>, k: nat)
    requires k < |rs|
    ensures SnapRs(rs)[k] == SnapR(rs[k])
  {
  }

  lemma SnapRsSlice(rs: seq<Row>, i: nat, j: nat)
    requires i <= j <= |rs|
    ensures SnapRs(rs[i..j]) == SnapRs(rs)[i..j]
  {
    var a, b, c := rs[..i], rs[i..j], rs[j..];
    ThreeWay(rs, i, j);
    SnapRsAppend(a + b, c);
    SnapRsAppend(a, b);
    MiddleOf(SnapRs(a), SnapRs(b), SnapRs(c));
  }

  // Every paragraph of a tree is allocated: what lets a snapshot survive
  // a call that only allocates or changes new objects.

  lemma AllocRuns(ps: set<Paragraph>)
    requires forall p | p in ps :: allocated(p)
    ensures forall r | r in RunsOf(ps) :: allocated(r)
  {
  }

  lemma {:induction false} AllocEs(es: seq<Element>)
    ensures forall p | p in ParasOfEs(es) :: allocated(p)
    ensures forall x | x in RunsOf(ParasOfEs(es)) :: allocated(x)
    decreases es
  {
    forall i | 0 <= i < |es| {
      AllocE(es[i]);
    }
    AllocRuns(ParasOfEs(es));
  }

  lemma {:induction false} AllocE(e: Element)
    ensures forall p | p in ParasOfE(e) :: allocated(p)
    ensures forall x | x in RunsOf(ParasOfE(e)) :: allocated(x)
    decreases e
  {
    match e
    case Para(_) => AllocRuns(ParasOfE(e));
    case Tbl(t) => AllocT(t);
  }

  lemma {:induction false} AllocT(t: Table)
    ensures forall p | p in ParasOfT(t) :: allocated(p)
    ensures forall x | x in RunsOf(ParasOfT(t)) :: allocated(x)
    decreases t
  {
    AllocRs(t.rows);
    AllocRuns(ParasOfT(t));
  }

  lemma {:induction false} AllocRs(rs: seq<Row>)
    ensures forall p | p in ParasOfRs(rs) :: allocated(p)
    ensures forall x | x in RunsOf(ParasOfRs(rs)) :: allocated(x)
    decreases rs
  {
    forall i | 0 <= i < |rs| {
      AllocR(rs[i]);
    }
    AllocRuns(ParasOfRs(rs));
  }

  lemma {:induction false} AllocR(r: Row)
    ensures forall p | p in ParasOfR(r) :: allocated(p)
    ensures forall x | x in RunsOf(ParasOfR(r)) :: allocated(x)
    decreases r
  {
    AllocCs(r.cells);
    AllocRuns(ParasOfR(r));
  }

  lemma {:induction false} AllocCs(cs: seq<Cell>)
    ensures forall p | p in ParasOfCs(cs) :: allocated(p)
    ensures forall x | x in RunsOf(ParasOfCs(cs)) :: allocated(x)
    decreases cs
  {
    forall i | 0 <= i < |cs| {
      AllocC(cs[i]);
    }
    AllocRuns(ParasOfCs(cs));
  }

  lemma {:induction false} AllocC(c: Cell)
    ensures forall p | p in ParasOfC(c) :: allocated(p)
    ensures forall x | x in RunsOf(ParasOfC(c)) :: allocated(x)
    decreases c
  {
    AllocEs(c.body);
    AllocRuns(ParasOfC(c));
  }

  // ---------------------------------------------------------------------
  // Nodes as POI creates them
  // ---------------------------------------------------------------------

  /** A paragraph with no properties and no runs. */
  const EmptyParaV: ElementV := ParaV(NoFmt, [])

  /** A new cell: POI gives every cell one empty paragraph. */
  const NewCellV: CellV := CellV(NoFmt, [EmptyParaV])

  /** A row created by createRow: as many new cells as the table's first row has. */
  function NewRowV(width: nat): RowV
  {
    RowV(NoFmt, seq(width, _ => NewCellV))
  }

  /** A table created in a body: one row holding one new cell. */
  const NewTableV: TableV := TableV(NoFmt, [NewRowV(1)])

  /** A fresh cell holding one fresh empty paragraph. */
  method NewCell() returns (c: Cell)
    ensures SnapC(c) == NewCellV
    ensures forall p | p in ParasOfC(c) :: fresh(p)
  {
    var p := new Paragraph.Empty();
    c := Cell(NoFmt, [Para(p)]);
    ParasOfEsSingle(Para(p));
    assert p.Value() == [];
    assert SnapEs(c.body) == [EmptyParaV];
  }

  /** A fresh row of `width` new cells, as createRow makes one. */
  method NewRow(width: nat) returns (r: Row)
    ensures SnapR(r) == NewRowV(width)
  {
    var cells: seq<Cell> := [];
    var i := 0;
    while i < width
      invariant i <= width
      invariant SnapCs(cells) == seq(i, _ => NewCellV)
      modifies {}
    {
      AllocCs(cells);
      var c := NewCell();
      SnapCsAppend(cells, [c]);
      assert seq(i + 1, _ => NewCellV) == seq(i, _ => NewCellV) + [NewCellV];
      cells := cells + [c];
      i := i + 1;
    }
    r := Row(NoFmt, cells);
  }

  /** A fresh table as a body creates one: one row holding one new cell. */
  method NewTable() returns (t: Table)
    ensures SnapT(t) == NewTableV
  {
    var row := NewRow(1);
    t := Table(NoFmt, [row]);
    assert SnapRs([row]) == [SnapR(row)];
  }
}
