/** `process_pdf`: page 1 and the later pages cleaned, concatenated in
    order, then trimmed and filtered once more. */
module Document {
  import opened Wrappers
  import opened Text
  import opened Frames
  import opened Pages

  // ---------------------------------------------------------------------
  // Concatenation (line 79)
  // ---------------------------------------------------------------------

  /** The dtype of a column after `pd.concat`: float only when it is float
      in both parts, object otherwise. */
  function MergeKinds(a: seq<Kind>, b: seq<Kind>): (k: seq<Kind>)
    requires |a| == |b|
    ensures |k| == |a|
    ensures forall i :: 0 <= i < |a| ==> (k[i] == Float <==> a[i] == Float && b[i] == Float)
  {
    seq(|a|, i requires 0 <= i < |a| => if a[i] == b[i] then a[i] else Object)
  }

  /** The line items of several output tables, one table after another. */
  function AllItems(frames: seq<Frame>): seq<LineItem>
    requires forall i :: 0 <= i < |frames| ==> IsOutput(frames[i])
  {
    if frames == [] then [] else AllItems(frames[..|frames| - 1]) + Items(frames[|frames| - 1])
  }

  /** `pd.concat(frames, ignore_index=True)` over output tables: the rows
      of every table, in the order of the list. */
  function Concat(frames: seq<Frame>): (r: Frame)
    requires |frames| > 0 && forall i :: 0 <= i < |frames| ==> IsOutput(frames[i])
    ensures IsOutput(r) && Items(r) == AllItems(frames)
  {
    if |frames| == 1 then
      assert frames[..0] == [];
      frames[0]
    else
      var front := Concat(frames[..|frames| - 1]);
      var last := frames[|frames| - 1];
      assert IsOutput(last) && |last.kinds| == |front.kinds| == 4;
      assert Width(front.rows, 4) && Width(last.rows, 4);
      LinesAppend(front.rows, last.rows, 0, 1, 2, 3);
      Frame(front.labels, MergeKinds(front.kinds, last.kinds), front.rows + last.rows)
  }

  // ---------------------------------------------------------------------
  // The final pass (lines 80-84)
  // ---------------------------------------------------------------------

  /** Line 80 on one line item: its job stripped, when it is text. */
  function StripJob(x: LineItem): LineItem {
    x.(job := StrApply(x.job, StripText))
  }

  function StripJobs(items: seq<LineItem>): (r: seq<LineItem>)
    ensures |r| == |items| && forall k :: 0 <= k < |items| ==> r[k] == StripJob(items[k])
  {
    seq(|items|, k requires 0 <= k < |items| => StripJob(items[k]))
  }

  /** Lines 80-84: the jobs stripped, then the lines with "Total" and the
      lines without a job dropped. */
  method FinalPass(all: Frame) returns (r: Frame)
    requires IsOutput(all)
    ensures IsOutput(r) && Items(r) == KeepLines(StripJobs(Items(all)))
  {
    OutputJob();
    // line 80
    var o := ReplaceIn(all, JobCol, StripText);
    var stripped := o.value;
    assert Items(stripped) == StripJobs(Items(all));
    // line 83
    var kept := KeepRows(stripped, 1, NotTotal);
    // line 84
    r := KeepRows(kept, 1, Present);
    LinesKeep(stripped.rows, 0, 1, 2, 3, NotTotal);
    LinesKeep(kept.rows, 0, 1, 2, 3, Present);
  }

  // ---------------------------------------------------------------------
  // What the document yields
  // ---------------------------------------------------------------------

  ghost predicate AllRectangular(tables: seq<RawTable>) {
    forall i :: 0 <= i < |tables| ==> Rectangular(tables[i])
  }

  /** The lines a later page contributes: its cleaned lines, or none. */
  function PageYield(raw: RawTable): seq<LineItem>
    requires Rectangular(raw)
  {
    match CleanPageSpec(raw)
    case Cleaned(items) => items
    case _ => []
  }

  /** The lines of the later pages `tables[2..hi]`, in page order. */
  function LaterLines(tables: seq<RawTable>, hi: nat): seq<LineItem>
    requires AllRectangular(tables) && 2 <= hi <= |tables|
  {
    if hi == 2 then [] else LaterLines(tables, hi - 1) + PageYield(tables[hi - 1])
  }

  lemma LaterLinesStep(tables: seq<RawTable>, i: nat)
    requires AllRectangular(tables) && 2 <= i < |tables|
    ensures LaterLines(tables, i + 1) == LaterLines(tables, i) + PageYield(tables[i])
  {
  }

  /** What `process_pdf` returns, as line items: nothing when there are
      fewer than two tables or page 1 cannot be cleaned; otherwise page 1
      and the later pages, in order, through the final pass. */
  function PdfLines(tables: seq<RawTable>): Option<seq<LineItem>>
    requires AllRectangular(tables)
  {
    if |tables| < 2 || !FirstPageOk(tables[1]) then None
    else Some(KeepLines(StripJobs(FirstPageLines(tables[1]) + LaterLines(tables, |tables|))))
  }

  /** The list built at lines 73-76 once pages 1 to `i - 1` are in it:
      one output table per page, holding page 1's lines and then the later
      pages' lines, in order. */
  ghost predicate Gathered(poTables: seq<Frame>, tables: seq<RawTable>, i: nat)
    requires AllRectangular(tables) && 2 <= i <= |tables| && FirstPageOk(tables[1])
  {
    && |poTables| == i - 1
    && (forall j :: 0 <= j < |poTables| ==> IsOutput(poTables[j]))
    && AllItems(poTables) == FirstPageLines(tables[1]) + LaterLines(tables, i)
  }

  /** Appending the table of page `i` keeps the list gathered. */
  lemma GatherStep(poTables: seq<Frame>, tables: seq<RawTable>, i: nat, page: Frame)
    requires AllRectangular(tables) && 2 <= i < |tables| && FirstPageOk(tables[1])
    requires Gathered(poTables, tables, i)
    requires IsOutput(page) && Items(page) == PageYield(tables[i])
    ensures Gathered(poTables + [page], tables, i + 1)
  {
    AllItemsSnoc(poTables, page);
    Associative(FirstPageLines(tables[1]), LaterLines(tables, i), PageYield(tables[i]));
    LaterLinesStep(tables, i);
  }

  /** One more table adds its lines at the end. */
  lemma AllItemsSnoc(frames: seq<Frame>, f: Frame)
    requires forall i :: 0 <= i < |frames| ==> IsOutput(frames[i])
    requires IsOutput(f)
    ensures AllItems(frames + [f]) == AllItems(frames) + Items(f)
  {
    var next := frames + [f];
    assert next[..|frames|] == frames && next[|frames|] == f;
  }

  /** `process_pdf` (lines 40-90) on the tables the extractor returned. */
  method ProcessPdf(tables: seq<RawTable>) returns (r: Option<Frame>)
    requires AllRectangular(tables)
    ensures r.Some? <==> |tables| >= 2 && FirstPageOk(tables[1])
    ensures r.Some? ==> IsOutput(r.value) && PdfLines(tables) == Some(Items(r.value))
  {
    if |tables| < 2 {
      return None;
    }
    // lines 53-70
    var first :- ProcessFirstPage(tables[1]);
    // lines 73-76
    var poTables := [first];
    assert [first][..0] == [];
    var i := 2;
    while i < |tables|
      invariant 2 <= i <= |tables| && Gathered(poTables, tables, i)
    {
      var outcome := ProcessPage(tables[i]);
      var page := Returned(outcome);
      GatherStep(poTables, tables, i, page);
      poTables := poTables + [page];
      i := i + 1;
    }
    // line 79
    var all := Concat(poTables);
    // lines 80-84
    var out := FinalPass(all);
    r := Some(out);
  }



  // ---------------------------------------------------------------------
  // What the document promises
  // ---------------------------------------------------------------------

  /** A line before the final pass: a site that is empty or a six-character
      code, and a job that is NaN or text cut at its '@'. */
  ghost predicate Extracted(x: LineItem) {
    SiteShaped(x.site) && !x.job.Num? && (x.job.Str? ==> '@' !in x.job.s)
  }

  lemma FirstPageLinesExtracted(raw: RawTable)
    requires Rectangular(raw) && FirstPageOk(raw)
    ensures forall x :: x in FirstPageLines(raw) ==> Extracted(x)
  {
    var items := FirstPageLines(raw);
    var f := FirstPageBody(raw);
    var p, q := IndexOf(f.labels, Str(PriceCol)), IndexOf(f.labels, Str(QtyCol));
    forall k | 0 <= k < |items| ensures Extracted(items[k]) {
      FirstPageLineShape(f.labels[0], f.rows[k][0], f.rows[k][q], PriceValue(f.rows[k][p]).value);
    }
  }

  lemma PageYieldExtracted(raw: RawTable)
    requires Rectangular(raw)
    ensures forall x :: x in PageYield(raw) ==> Extracted(x)
  {
    if CleanPageSpec(raw).Cleaned? {
      var rows := PageRows(raw);
      forall x | x in PageYield(raw) ensures Extracted(x) {
        PageLinesMembers(raw, x);
        var k :| 0 <= k < |rows| && rows[k] == x;
        PageLineShape(CellAt(raw, k, DescCol), CellAt(raw, k, QtyCol), CellAt(raw, k, UnitPriceCol));
      }
    }
  }

  lemma {:induction false} LaterLinesExtracted(tables: seq<RawTable>, hi: nat)
    requires AllRectangular(tables) && 2 <= hi <= |tables|
    ensures forall x :: x in LaterLines(tables, hi) ==> Extracted(x)
  {
    if hi > 2 {
      LaterLinesExtracted(tables, hi - 1);
      PageYieldExtracted(tables[hi - 1]);
    }
  }

  /** The lines of all pages, before the final pass, are extracted lines. */
  lemma RawLinesExtracted(tables: seq<RawTable>)
    requires AllRectangular(tables) && |tables| >= 2 && FirstPageOk(tables[1])
    ensures forall x :: x in FirstPageLines(tables[1]) + LaterLines(tables, |tables|) ==> Extracted(x)
  {
    FirstPageLinesExtracted(tables[1]);
    LaterLinesExtracted(tables, |tables|);
  }

  /** Line 80 leaves every job stripped and still free of '@', and keeps
      every site. */
  lemma StripJobsClean(items: seq<LineItem>)
    requires forall x :: x in items ==> Extracted(x)
    ensures forall y :: y in StripJobs(items) ==>
      SiteShaped(y.site) && (y.job.Str? ==> Strip(y.job.s) == y.job.s && '@' !in y.job.s)
  {
    var all := StripJobs(items);
    forall y | y in all ensures SiteShaped(y.site) && (y.job.Str? ==> Strip(y.job.s) == y.job.s && '@' !in y.job.s) {
      var k :| 0 <= k < |all| && all[k] == y;
      assert items[k] in items;
      if items[k].job.Str? {
        StripIdempotent(items[k].job.s);
        StripWithout(items[k].job.s, '@');
      }
    }
  }

  /** Every line of the document has a job that is text, stripped, free
      of "Total" and of '@', so that no site code can be read from it
      again, and a site that is empty or a six-character code;
      and a line is in the document exactly when it is a line of some page,
      job stripped, that passes the final filter. */
  lemma PdfLinesClean(tables: seq<RawTable>, x: LineItem)
    requires AllRectangular(tables) && PdfLines(tables).Some?
    ensures var all := StripJobs(FirstPageLines(tables[1]) + LaterLines(tables, |tables|));
      x in PdfLines(tables).value <==> x in all && x.job.Str? && !Contains(x.job.s, "Total")
    ensures x in PdfLines(tables).value ==>
      && x.job.Str? && Strip(x.job.s) == x.job.s && !Contains(x.job.s, "Total")
      && '@' !in x.job.s && SiteOf(x.job.s) == []
      && SiteShaped(x.site)
  {
    RawLinesExtracted(tables);
    FinalClean(FirstPageLines(tables[1]) + LaterLines(tables, |tables|), x);
  }

  /** The final pass over extracted lines: what it keeps and what the kept
      lines look like. */
  lemma FinalClean(items: seq<LineItem>, x: LineItem)
    requires forall y :: y in items ==> Extracted(y)
    ensures x in KeepLines(StripJobs(items)) <==> x in StripJobs(items) && x.job.Str? && !Contains(x.job.s, "Total")
    ensures x in KeepLines(StripJobs(items)) ==>
      && x.job.Str? && Strip(x.job.s) == x.job.s && !Contains(x.job.s, "Total")
      && '@' !in x.job.s && SiteOf(x.job.s) == []
      && SiteShaped(x.site)
  {
    StripJobsClean(items);
    KeepLinesMembers(StripJobs(items), x);
  }

  /** Line 80 works line by line, so it splits over concatenation. */
  lemma StripJobsAppend(a: seq<LineItem>, b: seq<LineItem>)
    ensures StripJobs(a + b) == StripJobs(a) + StripJobs(b)
  {
  }

  /** The final pass applied to one page's lines. */
  function Final(items: seq<LineItem>): seq<LineItem> {
    KeepLines(StripJobs(items))
  }

  /** The later pages `tables[2..hi]`, each through the final pass on its own. */
  function LaterFinal(tables: seq<RawTable>, hi: nat): seq<LineItem>
    requires AllRectangular(tables) && 2 <= hi <= |tables|
  {
    if hi == 2 then [] else LaterFinal(tables, hi - 1) + Final(PageYield(tables[hi - 1]))
  }

  lemma {:induction false} FinalLaterLines(tables: seq<RawTable>, hi: nat)
    requires AllRectangular(tables) && 2 <= hi <= |tables|
    ensures Final(LaterLines(tables, hi)) == LaterFinal(tables, hi)
  {
    if hi > 2 {
      FinalLaterLines(tables, hi - 1);
      StripJobsAppend(LaterLines(tables, hi - 1), PageYield(tables[hi - 1]));
      KeepLinesAppend(StripJobs(LaterLines(tables, hi - 1)), StripJobs(PageYield(tables[hi - 1])));
    }
  }

  /** The document lists page 1's surviving lines first, then those of
      each later page in page order, each page in its own row order. */
  lemma PdfLinesInOrder(tables: seq<RawTable>)
    requires AllRectangular(tables) && PdfLines(tables).Some?
    ensures PdfLines(tables).value == Final(FirstPageLines(tables[1])) + LaterFinal(tables, |tables|)
  {
    var first, later := FirstPageLines(tables[1]), LaterLines(tables, |tables|);
    StripJobsAppend(first, later);
    KeepLinesAppend(StripJobs(first), StripJobs(later));
    FinalLaterLines(tables, |tables|);
  }

  lemma {:induction false} LaterLinesIgnoreFirst(tables: seq<RawTable>, t: RawTable, hi: nat)
    requires AllRectangular(tables) && Rectangular(t) && 2 <= hi <= |tables|
    ensures AllRectangular(tables[0 := t])
    ensures LaterLines(tables[0 := t], hi) == LaterLines(tables, hi)
  {
    if hi > 2 {
      LaterLinesIgnoreFirst(tables, t, hi - 1);
    }
  }

  /** The first table the extractor returns is never read. */
  lemma FirstTableUnused(tables: seq<RawTable>, t: RawTable)
    requires AllRectangular(tables) && Rectangular(t) && |tables| > 0
    ensures AllRectangular(tables[0 := t])
    ensures PdfLines(tables[0 := t]) == PdfLines(tables)
  {
    if |tables| >= 2 {
      LaterLinesIgnoreFirst(tables, t, |tables|);
    }
  }

  /** The lines a run of later pages yields, one page after the other. */
  function PagesLines(pages: seq<RawTable>): seq<LineItem>
    requires AllRectangular(pages)
  {
    if pages == [] then [] else PagesLines(pages[..|pages| - 1]) + PageYield(pages[|pages| - 1])
  }

  lemma {:induction false} PagesLinesAppend(a: seq<RawTable>, b: seq<RawTable>)
    requires AllRectangular(a) && AllRectangular(b)
    ensures AllRectangular(a + b) && PagesLines(a + b) == PagesLines(a) + PagesLines(b)
    decreases |b|
  {
    if b == [] {
      assert a + b == a;
    } else {
      var c, last := b[..|b| - 1], b[|b| - 1];
      assert (a + b)[..|a + b| - 1] == a + c;
      assert (a + b)[|a + b| - 1] == last;
      PagesLinesAppend(a, c);
      Associative(PagesLines(a), PagesLines(c), PageYield(last));
    }
  }

  /** The later pages' lines are the lines of the run `tables[2..hi]`. */
  lemma {:induction false} LaterLinesPages(tables: seq<RawTable>, hi: nat)
    requires AllRectangular(tables) && 2 <= hi <= |tables|
    ensures AllRectangular(tables[2..hi]) && LaterLines(tables, hi) == PagesLines(tables[2..hi])
  {
    if hi != 2 {
      var run := tables[2..hi];
      LaterLinesPages(tables, hi - 1);
      assert run[..|run| - 1] == tables[2..hi - 1];
      assert run[|run| - 1] == tables[hi - 1];
      assert PagesLines(run) == PagesLines(tables[2..hi - 1]) + PageYield(tables[hi - 1]);
      assert LaterLines(tables, hi) == LaterLines(tables, hi - 1) + PageYield(tables[hi - 1]);
    }
  }

  /** The tables with the one at `i` taken out, as runs of pages. */
  lemma Without(tables: seq<RawTable>, i: nat)
    requires AllRectangular(tables) && 2 <= i < |tables|
    ensures var rest := tables[..i] + tables[i + 1..];
      && AllRectangular(rest) && |rest| == |tables| - 1 && rest[1] == tables[1]
      && tables[2..|tables|] == (tables[2..i] + [tables[i]]) + tables[i + 1..]
      && rest[2..|rest|] == tables[2..i] + tables[i + 1..]
  {
    var rest := tables[..i] + tables[i + 1..];
    forall j | 0 <= j < |rest| ensures Rectangular(rest[j]) {
      assert rest[j] == if j < i then tables[j] else tables[j + 1];
    }
  }

  /** A page that yields nothing can be taken out of a run. */
  lemma PagesLinesDrop(before: seq<RawTable>, page: RawTable, after: seq<RawTable>)
    requires AllRectangular(before) && Rectangular(page) && AllRectangular(after)
    requires PageYield(page) == []
    ensures AllRectangular((before + [page]) + after) && AllRectangular(before + after)
    ensures PagesLines((before + [page]) + after) == PagesLines(before + after)
  {
    assert [page][..0] == [];
    assert PagesLines([page]) == [] + [];
    PagesLinesAppend(before, [page]);
    PagesLinesAppend(before + [page], after);
    PagesLinesAppend(before, after);
  }

  /** A later page that yields nothing (no "Description", a missing
      column, a step that raised) changes nothing else: the document is
      the one without that page. */
  lemma EmptyPageChangesNothing(tables: seq<RawTable>, i: nat)
    requires AllRectangular(tables) && 2 <= i < |tables| && !CleanPageSpec(tables[i]).Cleaned?
    ensures AllRectangular(tables[..i] + tables[i + 1..])
    ensures PdfLines(tables[..i] + tables[i + 1..]) == PdfLines(tables)
  {
    var rest := tables[..i] + tables[i + 1..];
    Without(tables, i);
    PagesLinesDrop(tables[2..i], tables[i], tables[i + 1..]);
    LaterLinesPages(tables, |tables|);
    LaterLinesPages(rest, |rest|);
    assert rest[1] == tables[1];
  }

  /** A page-1 price that does not read as a number makes the whole
      document fail. */
  lemma BadPriceFailsDocument(tables: seq<RawTable>, k: nat)
    requires AllRectangular(tables) && |tables| >= 2
    requires |tables[1].header| > 0 && |tables[1].rows| >= 2
    requires var f := FirstPageBody(tables[1]);
      k < |f.rows| && Str(PriceCol) in f.labels
      && PriceValue(f.rows[k][IndexOf(f.labels, Str(PriceCol))]).None?
    ensures PdfLines(tables) == None
  {
  }

  lemma Associative<T>(a: seq<T>, b: seq<T>, c: seq<T>)
    ensures (a + b) + c == a + (b + c)
  {
  }
}
