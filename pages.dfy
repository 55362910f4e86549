/** The two page cleaners of app/atc_po_reader.py: `process_page` for
    every table after the first page, and the page-1 steps inside
    `process_pdf`. Each is a method that reassigns a frame statement by
    statement, proved equal to a row-by-row description of what becomes
    of each extracted line. */
module Pages {
  import opened Wrappers
  import opened Text
  import opened Frames

  const DescCol: string := "Description"
  const UnitPriceCol: string := "Unit Price"
  /** The scratch column page 1 writes its leading token into. */
  const ScratchCol: string := "not needed"

  /** An optional string result of a `.str` method: no match is NaN. */
  function OrMissing(o: Option<string>): (v: Value)
    ensures v.Missing? <==> o.None?
  {
    match o
    case None => Missing
    case Some(s) => Str(s)
  }

  /** `.fillna('')` on a column. */
  function FillEmpty(cells: seq<Value>): (r: seq<Value>)
    ensures |r| == |cells|
    ensures forall k :: 0 <= k < |cells| ==> r[k] == if cells[k] == Missing then Str("") else cells[k]
  {
    seq(|cells|, k requires 0 <= k < |cells| => if cells[k] == Missing then Str("") else cells[k])
  }

  /** The site code of a text: the six characters after the first '@'
      that is followed by six non-space characters, or "" when there is
      none. */
  function SiteOf(s: string): (r: string)
    ensures r == [] <==> forall k :: !SiteAt(s, k)
    ensures r != [] ==> |r| == 6 && NoSpace(r)
    ensures r != [] ==> ExtractSite(s) == Some(r)
  {
    match ExtractSite(s)
    case None => ""
    case Some(c) => c
  }

  /** A non-empty site code is the six characters after the leftmost `@`
      that has six non-whitespace characters after it. */
  lemma SiteOfLeftmost(s: string)
    ensures SiteOf(s) != [] ==>
      exists k :: && SiteAt(s, k) && (forall j :: 0 <= j < k ==> !SiteAt(s, j))
                  && SiteOf(s) == s[k + 1..k + 7]
  {
    ExtractSiteLeftmost(s);
  }

  /** The column names the cleaners look up or write are all different. */
  lemma NamesDistinct()
    ensures Distinct([DescCol, QtyCol, UnitPriceCol])
    ensures Distinct([JobCol, QtyCol, PriceCol])
    ensures Distinct([JobCol, QtyCol, PriceCol, SiteCol])
    ensures Distinct(OutputNames)
    ensures DescCol != JobCol && UnitPriceCol != PriceCol && UnitPriceCol != JobCol
    ensures DescCol != QtyCol && DescCol != UnitPriceCol && QtyCol != UnitPriceCol
    ensures QtyCol != JobCol && PriceCol != JobCol && SiteCol != JobCol
    ensures ScratchCol != JobCol && ScratchCol != SiteCol && ScratchCol != QtyCol && ScratchCol != PriceCol
    ensures SiteCol != QtyCol && SiteCol != PriceCol && QtyCol != PriceCol
  {
  }

  // The per-cell functions handed to the `.str` accessor.

  /** `.str.replace(r'\bReplacement\b', '', regex=True)` */
  function DropWord(s: string): Value { Str(RemoveReplacement(s)) }

  /** `.str.extract(r'@(\S{6})', expand=False)` */
  function SiteMatch(s: string): Value { OrMissing(ExtractSite(s)) }

  /** `.str.replace(r'@.*', '', regex=True)` */
  function CutSign(s: string): Value { Str(CutAtSign(s)) }

  /** `.str.strip()` */
  function StripText(s: string): Value { Str(Strip(s)) }

  /** The columns of a later page after line 26, in order. */
  const WorkingNames: seq<string> := [JobCol, QtyCol, PriceCol, SiteCol]

  /** Where each column sits in a frame labelled `WorkingNames`. */
  lemma WorkingLabels()
    ensures Count(Labels(WorkingNames), Str(JobCol)) == 1 && IndexOf(Labels(WorkingNames), Str(JobCol)) == 0
    ensures Count(Labels(WorkingNames), Str(QtyCol)) == 1 && IndexOf(Labels(WorkingNames), Str(QtyCol)) == 1
    ensures Count(Labels(WorkingNames), Str(PriceCol)) == 1 && IndexOf(Labels(WorkingNames), Str(PriceCol)) == 2
    ensures Count(Labels(WorkingNames), Str(SiteCol)) == 1 && IndexOf(Labels(WorkingNames), Str(SiteCol)) == 3
  {
    assert Distinct(WorkingNames);
    LabelsCount(WorkingNames, JobCol);
    LabelsCount(WorkingNames, QtyCol);
    LabelsCount(WorkingNames, PriceCol);
    LabelsCount(WorkingNames, SiteCol);
    LabelsIndex(WorkingNames, 0);
    LabelsIndex(WorkingNames, 1);
    LabelsIndex(WorkingNames, 2);
    LabelsIndex(WorkingNames, 3);
  }

  // ---------------------------------------------------------------------
  // Later pages
  // ---------------------------------------------------------------------

  /** What `process_page` returns: a cleaned table, the empty table for a
      page without a "Description" column, or the empty table because a
      step raised. The last two return the same frame in the source; they
      are told apart here so that the proofs can say which happened. */
  datatype PageOutcome<T> = Cleaned(value: T) | NoDescription | Failed

  /** The columns a later page needs, each exactly once. */
  predicate PageColumnsOk(ls: seq<Value>) {
    && Count(ls, Str(DescCol)) == 1
    && Count(ls, Str(QtyCol)) == 1
    && Count(ls, Str(UnitPriceCol)) == 1
  }

  /** One extracted row of a later page, given its description, quantity
      and unit price cells. The word "Replacement" is dropped from the
      description; the site is read from what remains; the job is what
      remains with every '@' up to the end of its line cut off, stripped.
      A missing description gives a missing job and an empty site. */
  function PageLine(desc: Value, qty: Value, price: Value): LineItem {
    match desc
    case Str(s) =>
      var t := RemoveReplacement(s);
      LineItem(Str(SiteOf(t)), Str(Strip(CutAtSign(t))), qty, price)
    case _ => LineItem(Str(""), Missing, qty, price)
  }

  /** The cell of raw row `k` in the column named `name`. */
  function CellAt(raw: RawTable, k: nat, name: string): Value
    requires Rectangular(raw) && k < |raw.rows| && Str(name) in Labels(raw.header)
  {
    CellOf(raw.rows[k][IndexOf(Labels(raw.header), Str(name))])
  }

  /** Every extracted row of a later page as a line, before any is dropped. */
  function PageRows(raw: RawTable): (items: seq<LineItem>)
    requires Rectangular(raw) && PageColumnsOk(Labels(raw.header))
    ensures |items| == |raw.rows|
    ensures forall k :: 0 <= k < |raw.rows| ==>
      items[k] == PageLine(CellAt(raw, k, DescCol), CellAt(raw, k, QtyCol), CellAt(raw, k, UnitPriceCol))
  {
    seq(|raw.rows|, k requires 0 <= k < |raw.rows| =>
      PageLine(CellAt(raw, k, DescCol), CellAt(raw, k, QtyCol), CellAt(raw, k, UnitPriceCol)))
  }

  /** The lines a later page yields when its columns are in order. */
  function PageLines(raw: RawTable): seq<LineItem>
    requires Rectangular(raw) && PageColumnsOk(Labels(raw.header))
  {
    KeepLines(PageRows(raw))
  }

  /** What a later page yields. */
  function CleanPageSpec(raw: RawTable): PageOutcome<seq<LineItem>>
    requires Rectangular(raw)
  {
    var ls := Labels(raw.header);
    if Str(DescCol) !in ls then NoDescription
    else if !PageColumnsOk(ls) then Failed
    else Cleaned(PageLines(raw))
  }

  /** `.fillna('')` on one cell. */
  function FillCell(v: Value): Value {
    if v == Missing then Str("") else v
  }

  /** The column steps of lines 21-27 on one row give the line that
      `PageLine` describes. */
  lemma PageLineSteps(desc: Value, qty: Value, price: Value)
    ensures var job := StrApply(desc, DropWord);
      PageLine(desc, qty, price)
        == LineItem(FillCell(StrApply(job, SiteMatch)), StrApply(StrApply(job, CutSign), StripText), qty, price)
  {
  }

  /** The columns line 22 takes, and their names after line 23. */
  const TakenNames: seq<string> := [DescCol, QtyCol, UnitPriceCol]
  const RenamedNames: seq<string> := [JobCol, QtyCol, PriceCol]

  /** Line 23 turns the labels of line 22 into `RenamedNames`. */
  lemma RenamedLabels(f: Frame)
    requires Valid(f) && f.labels == Labels(TakenNames)
    ensures Rename(Rename(f, DescCol, JobCol), UnitPriceCol, PriceCol).labels == Labels(RenamedNames)
  {
    NamesDistinct();
  }

  /** `df[name] = df[name].str.<op>`: `op` applied to every text cell of
      the one column labelled `name`. Line 21 of `process_page` drops
      "Replacement" from "Description"; lines 65 and 67 of `process_pdf`
      drop it from "Job" and cut "Job" at '@'. `None` when that column is
      not unique or not text. */
  method ReplaceIn(page: Frame, name: string, op: string -> Value) returns (r: Option<Frame>)
    requires Valid(page)
    ensures r.Some? <==>
      Count(page.labels, Str(name)) == 1 && page.kinds[IndexOf(page.labels, Str(name))] == Object
    ensures r.Some? ==> Valid(r.value) && |r.value.rows| == |page.rows|
    ensures r.Some? ==> r.value.labels == page.labels && r.value.kinds == page.kinds
    ensures r.Some? ==> forall k, i :: 0 <= k < |page.rows| && 0 <= i < |page.labels| ==>
      r.value.rows[k][i] == if i == IndexOf(page.labels, Str(name))
                            then StrApply(page.rows[k][i], op) else page.rows[k][i]
  {
    var j :- Find(page, name);
    var cells :- StrCol(page, j, op);
    r := Assign(page, name, cells, Object);
    assert r.value.labels == page.labels && r.value.kinds == page.kinds;
  }

  /** Lines 22-23 of `process_page`: the three needed columns taken, two of
      them renamed; `None` when "QTY" or "Unit Price" is not unique. */
  method TakeColumns(page: Frame) returns (r: Option<Frame>)
    requires Valid(page) && Count(page.labels, Str(DescCol)) == 1
    ensures r.Some? <==> PageColumnsOk(page.labels)
    ensures r.Some? ==> Valid(r.value) && |r.value.rows| == |page.rows|
    ensures r.Some? ==> r.value.labels == Labels(RenamedNames)
    ensures r.Some? ==> r.value.kinds[0] == page.kinds[IndexOf(page.labels, Str(DescCol))]
    ensures r.Some? ==> forall k :: 0 <= k < |page.rows| ==>
      && r.value.rows[k][0] == page.rows[k][IndexOf(page.labels, Str(DescCol))]
      && r.value.rows[k][1] == page.rows[k][IndexOf(page.labels, Str(QtyCol))]
      && r.value.rows[k][2] == page.rows[k][IndexOf(page.labels, Str(UnitPriceCol))]
  {
    var taken :- Select(page, TakenNames);
    RenamedLabels(taken);
    r := Some(Rename(Rename(taken, DescCol, JobCol), UnitPriceCol, PriceCol));
  }

  /** Lines 26-27 of `process_page`: the site code read from the job, then
      the job cut at '@' and stripped. These lookups cannot fail. */
  method SplitSite(page: Frame) returns (r: Frame)
    requires Valid(page) && page.labels == Labels(RenamedNames) && page.kinds[0] == Object
    ensures Valid(r) && |r.rows| == |page.rows|
    ensures r.labels == Labels(WorkingNames) && r.kinds[0] == Object
    ensures forall k :: 0 <= k < |page.rows| ==>
      var job := page.rows[k][0];
      r.rows[k] == [StrApply(StrApply(job, CutSign), StripText), page.rows[k][1], page.rows[k][2],
                    FillCell(StrApply(job, SiteMatch))]
  {
    NamesDistinct();
    var page := page;
    // line 26
    var j := Find(page, JobCol).value;
    var sites := StrCol(page, j, SiteMatch).value;
    page := Assign(page, SiteCol, FillEmpty(sites), Object).value;
    // line 27
    j := Find(page, JobCol).value;
    var cut := StrCol(page, j, CutSign).value;
    page := Assign(page, JobCol, StrMap(cut, StripText), Object).value;
    r := page;
  }

  /** Lines 30-33 of `process_page`: lines mentioning "Total" and lines
      without a job dropped, the output columns taken in order. */
  method DropTotals(page: Frame) returns (r: Frame)
    requires Valid(page) && page.labels == Labels(WorkingNames) && page.kinds[0] == Object
    ensures IsOutput(r) && Items(r) == KeepLines(Lines(page.rows, 3, 0, 1, 2))
  {
    WorkingLabels();
    ghost var rows := page.rows;
    var page := page;
    // line 30
    var j := Find(page, JobCol).value;
    page := KeepRows(page, j, NotTotal);
    // line 31
    page := KeepRows(page, j, Present);
    // line 33
    r := Select(page, OutputNames).value;
    SelectedLines(page);
    DroppedLines(rows);
  }

  /** Lines 30-31 on the rows of a frame labelled `WorkingNames` drop
      exactly the lines `KeepLines` drops. */
  lemma DroppedLines(rows: seq<seq<Value>>)
    requires Width(rows, 4)
    ensures Lines(KeepRowsWhere(KeepRowsWhere(rows, 0, NotTotal), 0, Present), 3, 0, 1, 2)
         == KeepLines(Lines(rows, 3, 0, 1, 2))
  {
    LinesKeep(rows, 3, 0, 1, 2, NotTotal);
    LinesKeep(KeepRowsWhere(rows, 0, NotTotal), 3, 0, 1, 2, Present);
  }

  /** Line 33 puts the columns of `WorkingNames` in output order. */
  lemma SelectedLines(f: Frame)
    requires Valid(f) && f.labels == Labels(WorkingNames) && f.kinds[0] == Object
    ensures Select(f, OutputNames).Some?
    ensures IsOutput(Select(f, OutputNames).value)
    ensures Items(Select(f, OutputNames).value) == Lines(f.rows, 3, 0, 1, 2)
  {
    WorkingLabels();
    var r := Select(f, OutputNames).value;
    assert Items(r) == Lines(f.rows, 3, 0, 1, 2);
  }

  /** Lines 21-33 of `process_page`, the body of its `try`; `None` where a
      step raises. */
  method CleanDescribed(raw: RawTable) returns (r: Option<Frame>)
    requires Rectangular(raw)
    ensures r.Some? <==> PageColumnsOk(Labels(raw.header))
    ensures r.Some? ==> IsOutput(r.value) && Items(r.value) == PageLines(raw)
  {
    var page :- ReplaceIn(Load(raw), DescCol, DropWord);
    page :- TakeColumns(page);
    page := SplitSite(page);
    var out := DropTotals(page);
    r := Some(out);
    forall k | 0 <= k < |raw.rows|
      ensures Lines(page.rows, 3, 0, 1, 2)[k] == PageRows(raw)[k]
    {
      PageLineSteps(CellAt(raw, k, DescCol), CellAt(raw, k, QtyCol), CellAt(raw, k, UnitPriceCol));
    }
    assert Lines(page.rows, 3, 0, 1, 2) == PageRows(raw);
  }

  /** `process_page` (lines 18-37). */
  method ProcessPage(raw: RawTable) returns (r: PageOutcome<Frame>)
    requires Rectangular(raw)
    ensures match r
      case Cleaned(f) => IsOutput(f) && CleanPageSpec(raw) == Cleaned(Items(f))
      case NoDescription => CleanPageSpec(raw) == NoDescription
      case Failed => CleanPageSpec(raw) == Failed
  {
    if Str(DescCol) !in Labels(raw.header) {
      return NoDescription;
    }
    var o := CleanDescribed(raw);
    match o
    case Some(f) => r := Cleaned(f);
    case None => r := Failed;
  }

  /** The frame `process_page` hands back: the cleaned one, or the empty
      output table in both other cases (lines 35 and 37). */
  function Returned(o: PageOutcome<Frame>): (f: Frame)
    requires o.Cleaned? ==> IsOutput(o.value)
    ensures IsOutput(f)
    ensures o.Cleaned? ==> f == o.value
    ensures !o.Cleaned? ==> Items(f) == []
  {
    if o.Cleaned? then o.value else EmptyOutput()
  }

  // ---------------------------------------------------------------------
  // Page 1
  // ---------------------------------------------------------------------

  /** Line 53 on one extracted cell: `astype(str)`, where NaN reads "nan". */
  function AsText(c: Option<string>): string {
    match c
    case None => "nan"
    case Some(s) => s
  }

  /** The extracted table with column 0 as text (line 53). */
  function TextFirstColumn(raw: RawTable): (t: RawTable)
    requires Rectangular(raw) && |raw.header| > 0
    ensures Rectangular(t) && t.header == raw.header && |t.rows| == |raw.rows|
    ensures forall k :: 0 <= k < |raw.rows| ==> t.rows[k] == raw.rows[k][0 := Some(AsText(raw.rows[k][0]))]
  {
    RawTable(raw.header, seq(|raw.rows|, k requires 0 <= k < |raw.rows| =>
      raw.rows[k][0 := Some(AsText(raw.rows[k][0]))]))
  }

  /** Lines 53-55: column 0 as text, row 1 as the labels, the rows after
      it as the body. */
  function Relabelled(raw: RawTable): (f: Frame)
    requires Rectangular(raw) && |raw.header| > 0 && |raw.rows| >= 2
    ensures Valid(f) && |f.labels| == |raw.header| && |f.rows| == |raw.rows| - 2
    ensures forall i :: 0 <= i < |f.kinds| ==> f.kinds[i] == Object
    ensures f.labels[0] == Str(AsText(raw.rows[1][0]))
    ensures forall i :: 1 <= i < |raw.header| ==> f.labels[i] == CellOf(raw.rows[1][i])
    ensures forall k :: 0 <= k < |f.rows| ==> f.rows[k][0] == Str(AsText(raw.rows[k + 2][0]))
    ensures forall k, i :: 0 <= k < |f.rows| && 1 <= i < |raw.header| ==> f.rows[k][i] == CellOf(raw.rows[k + 2][i])
  {
    var t := Load(TextFirstColumn(raw));
    Frame(t.rows[1], t.kinds, t.rows[2..])
  }

  /** Line 56's test on column 0: the text starts with a digit. */
  predicate DigitLed(v: Value) {
    v.Str? && StartsWithDigit(v.s)
  }

  // The per-cell functions of lines 60-67.

  /** `.str.replace('Each', '', regex=False)` */
  function DropEach(s: string): Value { Str(RemoveAll(s, "Each")) }

  /** `.str.replace(',', '', regex=False)` */
  function DropComma(s: string): Value { Str(RemoveAll(s, ",")) }

  /** `.str.extract(r'^(\S+)')` */
  function FirstToken(s: string): Value { OrMissing(LeadingToken(s)) }

  /** `.str.split(n=1).str[1]` */
  function SecondPart(s: string): Value { OrMissing(SplitRest(s)) }

  /** The unit price of a page-1 row (lines 60-61): "Each" and every comma
      removed, then read as a float; NaN stays NaN; `None` when the text is
      not a number. */
  function PriceValue(v: Value): Option<Value> {
    match v
    case Str(s) =>
      (match ParseFloat(RemoveAll(RemoveAll(s, "Each"), ",")) case None => None case Some(x) => Some(Num(x)))
    case _ => Some(Missing)
  }

  /** Column 0 after line 63: its leading token when column 0 is itself
      the "not needed" column, unchanged otherwise. */
  function FirstColumn(lead: Value, c: Value): Value {
    if lead != Str(ScratchCol) then c
    else match c
      case Str(s) => OrMissing(LeadingToken(s))
      case _ => Missing
  }

  /** What line 64 makes of a text: what follows its first token,
      stripped; NaN when the text has a single token. */
  function RestOfText(v: Value): Value {
    match v
    case Str(s) => (match SplitRest(s) case Some(rest) => Str(Strip(rest)) case None => Missing)
    case _ => Missing
  }

  /** The job lines 64-65 make of a text: its rest with the word
      "Replacement" dropped. */
  function JobOfText(v: Value): Value {
    match RestOfText(v)
    case Str(t) => Str(RemoveReplacement(t))
    case _ => Missing
  }

  /** The job after line 65, made of column 0 as line 63 left it. */
  function FirstPageJob(lead: Value, c: Value): Value {
    JobOfText(FirstColumn(lead, c))
  }

  /** The text line 66 reads the site from: column 0, which is the job
      itself when column 0 is labelled "Job". */
  function SiteSource(lead: Value, c: Value): Value {
    if lead == Str(JobCol) then FirstPageJob(lead, c) else FirstColumn(lead, c)
  }

  /** Line 66 on one cell: the site code, or "" without one. */
  function SiteCell(v: Value): Value {
    match v
    case Str(s) => Str(SiteOf(s))
    case _ => Str("")
  }

  /** One kept row of page 1, given the label of column 0, the text of
      column 0, and the quantity and parsed price cells. */
  function FirstPageLine(lead: Value, c: Value, qty: Value, price: Value): LineItem {
    LineItem(SiteCell(SiteSource(lead, c)), StrApply(FirstPageJob(lead, c), CutSign), qty, price)
  }

  /** The labels page 1 needs: one price column that is not column 0 (a
      float column 0 makes line 63 raise), one quantity column, and at
      most one column each that lines 63-66 write. */
  predicate FirstPageColumnsOk(ls: seq<Value>)
    requires |ls| > 0
  {
    && Count(ls, Str(PriceCol)) == 1 && ls[0] != Str(PriceCol)
    && Count(ls, Str(QtyCol)) == 1
    && Count(ls, Str(ScratchCol)) <= 1 && Count(ls, Str(JobCol)) <= 1 && Count(ls, Str(SiteCol)) <= 1
  }

  /** Page 1 after lines 53-56: the rows whose column 0 starts with a digit. */
  function FirstPageBody(raw: RawTable): (f: Frame)
    requires Rectangular(raw) && |raw.header| > 0 && |raw.rows| >= 2
    ensures Valid(f) && f.labels == Relabelled(raw).labels && |f.labels| > 0
    ensures forall i :: 0 <= i < |f.kinds| ==> f.kinds[i] == Object
  {
    KeepRows(Relabelled(raw), 0, DigitLed)
  }

  /** Page 1 goes through `process_pdf` without raising: it has a header
      row and a body, usable labels, and every price reads as a number. */
  predicate FirstPageOk(raw: RawTable)
    requires Rectangular(raw)
  {
    && |raw.header| > 0 && |raw.rows| >= 2
    && var f := FirstPageBody(raw);
    && FirstPageColumnsOk(f.labels)
    && forall k :: 0 <= k < |f.rows| ==> PriceValue(f.rows[k][IndexOf(f.labels, Str(PriceCol))]).Some?
  }

  /** The lines page 1 yields, one per kept row, in order. */
  function FirstPageLines(raw: RawTable): (items: seq<LineItem>)
    requires Rectangular(raw) && FirstPageOk(raw)
    ensures var f := FirstPageBody(raw);
      var p, q := IndexOf(f.labels, Str(PriceCol)), IndexOf(f.labels, Str(QtyCol));
      && |items| == |f.rows|
      && forall k :: 0 <= k < |f.rows| ==>
           items[k] == FirstPageLine(f.labels[0], f.rows[k][0], f.rows[k][q], PriceValue(f.rows[k][p]).value)
  {
    var f := FirstPageBody(raw);
    var p, q := IndexOf(f.labels, Str(PriceCol)), IndexOf(f.labels, Str(QtyCol));
    seq(|f.rows|, k requires 0 <= k < |f.rows| =>
      FirstPageLine(f.labels[0], f.rows[k][0], f.rows[k][q], PriceValue(f.rows[k][p]).value))
  }

  /** The dtypes after line 61: the price column is `float64`, every
      other column `object`. */
  ghost predicate PriceTyped(f: Frame) {
    && Valid(f) && Count(f.labels, Str(PriceCol)) == 1
    && forall i :: 0 <= i < |f.labels| ==> (f.kinds[i] == Float <==> f.labels[i] == Str(PriceCol))
  }

  /** Lines 60-61: the price column cleaned and converted; `None` when it
      is not unique or a price is not a number. */
  method CleanPrices(page: Frame) returns (r: Option<Frame>)
    requires Valid(page) && forall i :: 0 <= i < |page.kinds| ==> page.kinds[i] == Object
    ensures r.Some? <==>
      && Count(page.labels, Str(PriceCol)) == 1
      && forall k :: 0 <= k < |page.rows| ==> PriceValue(page.rows[k][IndexOf(page.labels, Str(PriceCol))]).Some?
    ensures r.Some? ==> PriceTyped(r.value) && r.value.labels == page.labels && |r.value.rows| == |page.rows|
    ensures r.Some? ==> forall k, i :: 0 <= k < |page.rows| && 0 <= i < |page.labels| ==>
      r.value.rows[k][i] == if i == IndexOf(page.labels, Str(PriceCol))
                            then PriceValue(page.rows[k][i]).value else page.rows[k][i]
  {
    // line 60
    var p :- Find(page, PriceCol);
    var noEach := StrCol(page, p, DropEach).value;
    var cleaned := Assign(page, PriceCol, noEach, Object).value;
    assert cleaned.labels == page.labels;
    // line 61
    var p2 := Find(cleaned, PriceCol).value;
    var noComma := StrCol(cleaned, p2, DropComma).value;
    var prices := AsFloat(noComma);
    forall k | 0 <= k < |page.rows|
      ensures FloatCell(noComma[k]) == PriceValue(page.rows[k][p])
    {
      PriceSteps(page.rows[k][p]);
    }
    var floats :- prices;
    r := Assign(cleaned, PriceCol, floats, Float);
    assert r.value.labels == page.labels;
    forall i | 0 <= i < |page.labels| && page.labels[i] == Str(PriceCol)
      ensures i == p
    {
      CountOneUnique(page.labels, Str(PriceCol), i, p);
    }
  }

  /** The column steps of lines 60-61 on one cell give `PriceValue`. */
  lemma PriceSteps(v: Value)
    ensures FloatCell(StrApply(StrApply(v, DropEach), DropComma)) == PriceValue(v)
  {
  }

  /** The column steps of line 64 on one cell give `RestOfText`. */
  lemma RestSteps(v: Value)
    ensures StrApply(StrApply(v, SecondPart), StripText) == RestOfText(v)
  {
  }

  /** Line 63: the leading token of column 0 written to "not needed".
      `None` when column 0 is the float price column, or "not needed" is
      not unique. */
  method WriteToken(page: Frame) returns (r: Option<Frame>)
    requires PriceTyped(page) && |page.labels| > 0
    ensures r.Some? <==> page.labels[0] != Str(PriceCol) && Count(page.labels, Str(ScratchCol)) <= 1
    ensures r.Some? ==> Valid(r.value) && |r.value.rows| == |page.rows| && |r.value.labels| >= |page.labels|
    ensures r.Some? ==> r.value.labels[0] == page.labels[0] && r.value.kinds[0] == Object
    ensures r.Some? ==> forall m :: m != Str(ScratchCol) ==> Count(r.value.labels, m) == Count(page.labels, m)
    ensures r.Some? ==> forall i :: 0 <= i < |page.labels| && page.labels[i] != Str(ScratchCol) ==>
      Untouched(page, r.value, i)
    ensures r.Some? ==> forall k :: 0 <= k < |page.rows| ==>
      r.value.rows[k][0] == FirstColumn(page.labels[0], page.rows[k][0])
  {
    var tokens :- StrCol(page, 0, FirstToken);
    r := Assign(page, ScratchCol, tokens, Object);
    if r.Some? {
      var s := Slot(page.labels, ScratchCol);
      assert s == 0 <==> page.labels[0] == Str(ScratchCol);
      forall m | m != Str(ScratchCol) ensures Count(r.value.labels, m) == Count(page.labels, m) {
        CountPut(page.labels, s, Str(ScratchCol), m);
      }
    }
  }

  /** Line 64: the rest of column 0 after its first token, stripped,
      written to "Job". `None` when "Job" is not unique. */
  method WriteJob(page: Frame) returns (r: Option<Frame>)
    requires Valid(page) && |page.labels| > 0 && page.kinds[0] == Object
    ensures r.Some? <==> Count(page.labels, Str(JobCol)) <= 1
    ensures r.Some? ==> Valid(r.value) && |r.value.rows| == |page.rows| && |r.value.labels| >= |page.labels|
    ensures r.Some? ==> r.value.labels[0] == page.labels[0] && r.value.kinds[0] == Object
    ensures r.Some? ==> Count(r.value.labels, Str(JobCol)) == 1
    ensures r.Some? ==> r.value.kinds[IndexOf(r.value.labels, Str(JobCol))] == Object
    ensures r.Some? ==> forall m :: m != Str(JobCol) ==> Count(r.value.labels, m) == Count(page.labels, m)
    ensures r.Some? ==> forall i :: 0 <= i < |page.labels| && page.labels[i] != Str(JobCol) ==>
      Untouched(page, r.value, i)
    ensures r.Some? ==> forall k :: 0 <= k < |page.rows| ==>
      && r.value.rows[k][IndexOf(r.value.labels, Str(JobCol))] == RestOfText(page.rows[k][0])
      && r.value.rows[k][0] == if page.labels[0] == Str(JobCol) then RestOfText(page.rows[k][0]) else page.rows[k][0]
  {
    var rest := StrCol(page, 0, SecondPart).value;
    r := Assign(page, JobCol, StrMap(rest, StripText), Object);
    if r.Some? {
      var s := Slot(page.labels, JobCol);
      assert s == 0 <==> page.labels[0] == Str(JobCol);
      forall m | m != Str(JobCol) ensures Count(r.value.labels, m) == Count(page.labels, m) {
        CountPut(page.labels, s, Str(JobCol), m);
      }
      CountPut(page.labels, s, Str(JobCol), Str(JobCol));
      IndexOfUnique(r.value.labels, Str(JobCol), s);
      forall k | 0 <= k < |page.rows|
        ensures r.value.rows[k][s] == RestOfText(page.rows[k][0])
      {
        RestSteps(page.rows[k][0]);
      }
    }
  }
  /** The column steps of line 66 on one cell give `SiteCell`. */
  lemma SiteSteps(v: Value)
    ensures FillCell(StrApply(v, SiteMatch)) == SiteCell(v)
  {
  }

  /** Line 66: the site code of column 0 written to "Site ID". `None` when
      "Site ID" is not unique. */
  method WriteSite(page: Frame) returns (r: Option<Frame>)
    requires Valid(page) && |page.labels| > 0 && page.kinds[0] == Object
    ensures r.Some? <==> Count(page.labels, Str(SiteCol)) <= 1
    ensures r.Some? ==> Valid(r.value) && |r.value.rows| == |page.rows| && |r.value.labels| >= |page.labels|
    ensures r.Some? ==> Count(r.value.labels, Str(SiteCol)) == 1
    ensures r.Some? ==> forall m :: m != Str(SiteCol) ==> Count(r.value.labels, m) == Count(page.labels, m)
    ensures r.Some? ==> forall i :: 0 <= i < |page.labels| && page.labels[i] != Str(SiteCol) ==>
      Untouched(page, r.value, i)
    ensures r.Some? ==> forall k :: 0 <= k < |page.rows| ==>
      r.value.rows[k][IndexOf(r.value.labels, Str(SiteCol))] == SiteCell(page.rows[k][0])
  {
    var sites := StrCol(page, 0, SiteMatch).value;
    r := Assign(page, SiteCol, FillEmpty(sites), Object);
    if r.Some? {
      var s := Slot(page.labels, SiteCol);
      forall m | m != Str(SiteCol) ensures Count(r.value.labels, m) == Count(page.labels, m) {
        CountPut(page.labels, s, Str(SiteCol), m);
      }
      CountPut(page.labels, s, Str(SiteCol), Str(SiteCol));
      IndexOfUnique(r.value.labels, Str(SiteCol), s);
      forall k | 0 <= k < |page.rows|
        ensures r.value.rows[k][s] == SiteCell(page.rows[k][0])
      {
        SiteSteps(page.rows[k][0]);
      }
    }
  }

  /** Line 65 on one row. */
  lemma FirstPageSteps(v: Value)
    ensures StrApply(RestOfText(v), DropWord) == JobOfText(v)
  {
  }

  /** Lines 63-65: the job made of column 0. `None` when column 0 is the
      float price column, or "not needed" or "Job" is not unique. */
  method MakeJob(page: Frame) returns (r: Option<Frame>)
    requires PriceTyped(page) && |page.labels| > 0
    ensures r.Some? <==>
      && page.labels[0] != Str(PriceCol)
      && Count(page.labels, Str(ScratchCol)) <= 1 && Count(page.labels, Str(JobCol)) <= 1
    ensures r.Some? ==> Valid(r.value) && |r.value.rows| == |page.rows| && |r.value.labels| >= |page.labels|
    ensures r.Some? ==> r.value.labels[0] == page.labels[0] && r.value.kinds[0] == Object
    ensures r.Some? ==> Count(r.value.labels, Str(JobCol)) == 1
    ensures r.Some? ==> r.value.kinds[IndexOf(r.value.labels, Str(JobCol))] == Object
    ensures r.Some? ==> forall m :: m != Str(ScratchCol) && m != Str(JobCol) ==>
      Count(r.value.labels, m) == Count(page.labels, m)
    ensures r.Some? ==> forall i :: 0 <= i < |page.labels| && page.labels[i] != Str(ScratchCol)
                                    && page.labels[i] != Str(JobCol) ==>
      Untouched(page, r.value, i)
    ensures r.Some? ==> forall k :: 0 <= k < |page.rows| ==>
      && r.value.rows[k][IndexOf(r.value.labels, Str(JobCol))] == FirstPageJob(page.labels[0], page.rows[k][0])
      && r.value.rows[k][0] == SiteSource(page.labels[0], page.rows[k][0])
  {
    NamesDistinct();
    // line 63
    var f1 :- WriteToken(page);
    // line 64
    var f2 :- WriteJob(f1);
    // line 65
    r := ReplaceIn(f2, JobCol, DropWord);
    var f3 := r.value;
    forall k | 0 <= k < |page.rows|
      ensures f3.rows[k][IndexOf(f3.labels, Str(JobCol))] == FirstPageJob(page.labels[0], page.rows[k][0])
      ensures f3.rows[k][0] == SiteSource(page.labels[0], page.rows[k][0])
    {
      FirstPageSteps(f1.rows[k][0]);
    }
    forall i | 0 <= i < |page.labels| && page.labels[i] != Str(ScratchCol) && page.labels[i] != Str(JobCol)
      ensures Untouched(page, f3, i)
    {
      UntouchedTrans(page, f1, f2, i);
      UntouchedTrans(page, f2, f3, i);
    }
  }

  /** Lines 66-67: the site read from column 0, then the job cut at '@'.
      `None` when "Site ID" is not unique. */
  method MakeSite(page: Frame) returns (r: Option<Frame>)
    requires Valid(page) && |page.labels| > 0 && page.kinds[0] == Object
    requires Count(page.labels, Str(JobCol)) == 1 && page.kinds[IndexOf(page.labels, Str(JobCol))] == Object
    ensures r.Some? <==> Count(page.labels, Str(SiteCol)) <= 1
    ensures r.Some? ==> Valid(r.value) && |r.value.rows| == |page.rows|
    ensures r.Some? ==> Count(r.value.labels, Str(SiteCol)) == 1 && Count(r.value.labels, Str(JobCol)) == 1
    ensures r.Some? ==> r.value.kinds[IndexOf(r.value.labels, Str(JobCol))] == Object
    ensures r.Some? ==> forall m :: m != Str(SiteCol) ==> Count(r.value.labels, m) == Count(page.labels, m)
    ensures r.Some? ==> forall i :: 0 <= i < |page.labels| && page.labels[i] != Str(SiteCol)
                                    && page.labels[i] != Str(JobCol) ==>
      Untouched(page, r.value, i)
    ensures r.Some? ==> forall k :: 0 <= k < |page.rows| ==>
      && r.value.rows[k][IndexOf(r.value.labels, Str(SiteCol))] == SiteCell(page.rows[k][0])
      && r.value.rows[k][IndexOf(r.value.labels, Str(JobCol))]
           == StrApply(page.rows[k][IndexOf(page.labels, Str(JobCol))], CutSign)
  {
    NamesDistinct();
    // line 66
    var f4 :- WriteSite(page);
    // line 67
    var jb := IndexOf(page.labels, Str(JobCol));
    assert Untouched(page, f4, jb);
    IndexOfUnique(f4.labels, Str(JobCol), jb);
    r := ReplaceIn(f4, JobCol, CutSign);
    var f5 := r.value;
    var js := IndexOf(f4.labels, Str(SiteCol));
    assert f4.labels[js] != f4.labels[jb];
    assert forall k :: 0 <= k < |page.rows| ==> f5.rows[k][jb] == StrApply(page.rows[k][jb], CutSign);
    forall i | 0 <= i < |page.labels| && page.labels[i] != Str(SiteCol) && page.labels[i] != Str(JobCol)
      ensures Untouched(page, f5, i)
    {
      UntouchedTrans(page, f4, f5, i);
    }
  }

  /** Lines 63-67: column 0 split into the token, job and site columns.
      `None` when column 0 is the float price column, or a column these
      lines write is not unique. */
  method SplitFirstColumn(page: Frame) returns (r: Option<Frame>)
    requires PriceTyped(page) && |page.labels| > 0
    ensures r.Some? <==>
      && page.labels[0] != Str(PriceCol) && Count(page.labels, Str(ScratchCol)) <= 1
      && Count(page.labels, Str(JobCol)) <= 1 && Count(page.labels, Str(SiteCol)) <= 1
    ensures r.Some? ==> Valid(r.value) && |r.value.rows| == |page.rows|
    ensures r.Some? ==> Count(r.value.labels, Str(SiteCol)) == 1 && Count(r.value.labels, Str(JobCol)) == 1
    ensures r.Some? ==> r.value.kinds[IndexOf(r.value.labels, Str(JobCol))] == Object
    ensures r.Some? ==> Count(r.value.labels, Str(QtyCol)) == Count(page.labels, Str(QtyCol))
    ensures r.Some? ==> Keeps(page, r.value, PriceCol)
    ensures r.Some? && Count(page.labels, Str(QtyCol)) == 1 ==> Keeps(page, r.value, QtyCol)
    ensures r.Some? ==> forall k :: 0 <= k < |page.rows| ==>
      && r.value.rows[k][IndexOf(r.value.labels, Str(SiteCol))] == SiteCell(SiteSource(page.labels[0], page.rows[k][0]))
      && r.value.rows[k][IndexOf(r.value.labels, Str(JobCol))] == StrApply(FirstPageJob(page.labels[0], page.rows[k][0]), CutSign)
  {
    NamesDistinct();
    var f2 :- MakeJob(page);
    r := MakeSite(f2);
    if r.Some? {
      var f3 := r.value;
      var p := IndexOf(page.labels, Str(PriceCol));
      UntouchedTrans(page, f2, f3, p);
      KeepsOfUntouched(page, f3, PriceCol);
      if Count(page.labels, Str(QtyCol)) == 1 {
        var q := IndexOf(page.labels, Str(QtyCol));
        UntouchedTrans(page, f2, f3, q);
        KeepsOfUntouched(page, f3, QtyCol);
      }
    }
  }

  /** Lines 60-70 on the kept rows of page 1. */
  method CleanFirstBody(body: Frame) returns (r: Option<Frame>)
    requires Valid(body) && |body.labels| > 0 && forall i :: 0 <= i < |body.kinds| ==> body.kinds[i] == Object
    ensures r.Some? <==>
      && FirstPageColumnsOk(body.labels)
      && forall k :: 0 <= k < |body.rows| ==> PriceValue(body.rows[k][IndexOf(body.labels, Str(PriceCol))]).Some?
    ensures r.Some? ==> IsOutput(r.value) && |r.value.rows| == |body.rows|
    ensures r.Some? ==> forall k :: 0 <= k < |body.rows| ==>
      Items(r.value)[k] == FirstPageLine(body.labels[0], body.rows[k][0],
                                         body.rows[k][IndexOf(body.labels, Str(QtyCol))],
                                         PriceValue(body.rows[k][IndexOf(body.labels, Str(PriceCol))]).value)
  {
    // lines 60-61
    var f1 :- CleanPrices(body);
    assert f1.labels == body.labels;
    // lines 63-67
    var f3 :- SplitFirstColumn(f1);
    assert Count(f3.labels, Str(PriceCol)) == 1;
    // line 70
    r := Select(f3, OutputNames);
    SelectOutputIff(f3);
    assert r.Some? <==> Count(body.labels, Str(QtyCol)) == 1;
    if r.Some? {
      FirstPageRows(body, f1, f3, r.value);
    }
  }

  /** Page 1 as `process_pdf` cleans it (lines 53-70): `None` where the
      source raises and its handler returns nothing. */
  method ProcessFirstPage(raw: RawTable) returns (r: Option<Frame>)
    requires Rectangular(raw)
    ensures r.Some? <==> FirstPageOk(raw)
    ensures r.Some? ==> IsOutput(r.value) && Items(r.value) == FirstPageLines(raw)
  {
    if |raw.header| == 0 || |raw.rows| < 2 {
      // `df.iloc[:, 0]` or `df.iloc[1]` raises
      return None;
    }
    // lines 53-56
    var body := FirstPageBody(raw);
    r := CleanFirstBody(body);
    if r.Some? {
      assert Items(r.value) == FirstPageLines(raw);
    }
  }

  /** The rows `ProcessFirstPage` selects are the lines `FirstPageLines`
      describes. */
  lemma FirstPageRows(body: Frame, f1: Frame, f3: Frame, out: Frame)
    requires Valid(body) && |body.labels| > 0 && PriceTyped(f1) && f1.labels == body.labels
    requires |f1.rows| == |body.rows| && body.labels[0] != Str(PriceCol)
    requires forall k :: 0 <= k < |body.rows| ==> PriceValue(body.rows[k][IndexOf(body.labels, Str(PriceCol))]).Some?
    requires forall k, i :: 0 <= k < |body.rows| && 0 <= i < |body.labels| ==>
      f1.rows[k][i] == if i == IndexOf(body.labels, Str(PriceCol))
                       then PriceValue(body.rows[k][i]).value else body.rows[k][i]
    requires Valid(f3) && |f3.rows| == |f1.rows|
    requires Count(f3.labels, Str(SiteCol)) == 1 && Count(f3.labels, Str(JobCol)) == 1
    requires f3.kinds[IndexOf(f3.labels, Str(JobCol))] == Object
    requires Keeps(f1, f3, PriceCol) && Keeps(f1, f3, QtyCol)
    requires forall k :: 0 <= k < |f1.rows| ==>
      && f3.rows[k][IndexOf(f3.labels, Str(SiteCol))] == SiteCell(SiteSource(f1.labels[0], f1.rows[k][0]))
      && f3.rows[k][IndexOf(f3.labels, Str(JobCol))] == StrApply(FirstPageJob(f1.labels[0], f1.rows[k][0]), CutSign)
    requires Select(f3, OutputNames) == Some(out)
    ensures IsOutput(out) && |out.rows| == |body.rows|
    ensures forall k :: 0 <= k < |body.rows| ==>
      Items(out)[k] == FirstPageLine(body.labels[0], body.rows[k][0],
                                     body.rows[k][IndexOf(body.labels, Str(QtyCol))],
                                     PriceValue(body.rows[k][IndexOf(body.labels, Str(PriceCol))]).value)
  {
    NamesDistinct();
    var p, q := IndexOf(body.labels, Str(PriceCol)), IndexOf(body.labels, Str(QtyCol));
    assert body.labels[q] != body.labels[p];
    forall k | 0 <= k < |body.rows|
      ensures Items(out)[k] == FirstPageLine(body.labels[0], body.rows[k][0], body.rows[k][q],
                                             PriceValue(body.rows[k][p]).value)
    {
      assert f1.rows[k][0] == body.rows[k][0];
      assert f1.rows[k][q] == body.rows[k][q];
    }
  }

  // ---------------------------------------------------------------------
  // What the two cleaners promise
  // ---------------------------------------------------------------------

  /** A site cell is empty or six characters without whitespace. */
  ghost predicate SiteShaped(v: Value) {
    v.Str? && (v.s == [] || (|v.s| == 6 && NoSpace(v.s)))
  }

  /** A line of a later page: the site is empty or a six-character code;
      the job is text exactly when the description was, and then it holds
      no '@', is stripped, and no site code can be read from it again. */
  lemma PageLineShape(desc: Value, qty: Value, price: Value)
    ensures var l := PageLine(desc, qty, price);
      && SiteShaped(l.site) && l.qty == qty && l.price == price
      && (l.job.Str? <==> desc.Str?) && (!l.job.Str? ==> l.job == Missing)
      && (l.job.Str? ==> '@' !in l.job.s && Strip(l.job.s) == l.job.s && SiteOf(l.job.s) == [])
  {
    if desc.Str? {
      var c := CutAtSign(RemoveReplacement(desc.s));
      StripWithout(c, '@');
      StripIdempotent(c);
    }
  }

  /** The lines a later page yields are its extracted lines whose job is
      text without "Total", in their order. */
  lemma PageLinesMembers(raw: RawTable, x: LineItem)
    requires Rectangular(raw) && PageColumnsOk(Labels(raw.header))
    ensures x in PageLines(raw) <==> x in PageRows(raw) && x.job.Str? && !Contains(x.job.s, "Total")
  {
    var items := PageRows(raw);
    forall k | 0 <= k < |items| ensures !items[k].job.Num? {
      PageLineShape(CellAt(raw, k, DescCol), CellAt(raw, k, QtyCol), CellAt(raw, k, UnitPriceCol));
    }
    KeepLinesMembers(items, x);
  }

  /** A later page yields no lines when it lacks the "QTY" or the
      "Unit Price" column, with or without a "Description" column. */
  lemma MissingColumnsYieldNothing(raw: RawTable)
    requires Rectangular(raw)
    requires Str(QtyCol) !in Labels(raw.header) || Str(UnitPriceCol) !in Labels(raw.header)
    ensures !CleanPageSpec(raw).Cleaned?
  {
    assert Count(Labels(raw.header), Str(QtyCol)) == 0 || Count(Labels(raw.header), Str(UnitPriceCol)) == 0;
  }

  /** The kept rows of page 1 are the rows after the header row whose
      first cell, as text, starts with a digit. */
  lemma FirstPageBodyRows(raw: RawTable, x: seq<Value>)
    requires Rectangular(raw) && |raw.header| > 0 && |raw.rows| >= 2
    ensures x in FirstPageBody(raw).rows <==> x in Relabelled(raw).rows && DigitLed(x[0])
  {
    KeepRowsWhereMembers(Relabelled(raw).rows, 0, DigitLed, x);
  }

  /** A line of page 1: the site is empty or a six-character code, and the
      job is missing or text holding no '@'. */
  lemma FirstPageLineShape(lead: Value, c: Value, qty: Value, price: Value)
    ensures var l := FirstPageLine(lead, c, qty, price);
      && SiteShaped(l.site) && l.qty == qty && l.price == price
      && (l.job == Missing || (l.job.Str? && '@' !in l.job.s))
  {
  }

  /** Page 1 reads the site from column 0 as extracted, unless column 0 is
      itself labelled "Job" or "not needed" and lines 63-65 rewrote it. */
  lemma FirstPageSiteFromText(lead: Value, s: string, qty: Value, price: Value)
    requires lead != Str(JobCol) && lead != Str(ScratchCol)
    ensures FirstPageLine(lead, Str(s), qty, price).site == Str(SiteOf(s))
  {
  }

  /** The page-1 job is missing exactly when column 0 holds a single token
      (or nothing); otherwise it is the rest after the first token,
      stripped, without the word "Replacement", cut at '@'. */
  lemma FirstPageJobIff(lead: Value, s: string)
    requires lead != Str(ScratchCol)
    ensures FirstPageJob(lead, Str(s)) == Missing <==> NoSpace(Strip(s))
    ensures SplitRest(s).Some? ==>
      FirstPageJob(lead, Str(s)) == Str(RemoveReplacement(Strip(SplitRest(s).value)))
  {
    SplitRestNoneIff(s);
  }

  /** When column 0 itself is labelled "not needed", line 63 replaces it
      by its first token before line 64 reads it, so no row of page 1 has
      a job. */
  lemma ScratchLeadLeavesNoJob(c: Value)
    ensures FirstPageJob(Str(ScratchCol), c) == Missing
  {
    if c.Str? && LeadingToken(c.s).Some? {
      var t := LeadingToken(c.s).value;
      StripOfToken(t);
      SplitRestNoneIff(t);
    }
  }

  /** A text without whitespace is its own strip. */
  lemma StripOfToken(t: string)
    requires NoSpace(t) && t != []
    ensures Strip(t) == t
  {
    assert SkipSpace(t, 0) == 0;
    assert TrimEnd(t, |t|) == |t|;
    assert t[0..|t|] == t;
  }
}
