/** The part of a pandas DataFrame that app/atc_po_reader.py relies on:
    column labels, a per-column dtype as far as the `.str` accessor cares,
    and rows of cells. Frames are values here; each pandas statement that
    changes a frame in place becomes a function from the old frame to the
    new one, and the page methods in module Pages reassign a local frame
    statement by statement. */
module Frames {
  import opened Wrappers
  import opened Text

  /** A cell: NaN, a string, or a float. Column labels are cells too,
      since the first page takes its labels from a data row. */
  datatype Value = Missing | Str(s: string) | Num(x: real)

  /** A column's dtype: `object` (strings and NaN) or `float64`. The `.str`
      accessor raises on a `float64` column. */
  datatype Kind = Object | Float

  /** A DataFrame stored row by row. */
  datatype Frame = Frame(labels: seq<Value>, kinds: seq<Kind>, rows: seq<seq<Value>>)

  /** Every row has `w` cells. */
  ghost predicate Width(rows: seq<seq<Value>>, w: nat) {
    forall k :: 0 <= k < |rows| ==> |rows[k]| == w
  }

  /** Every row has one cell per label, every label a dtype. */
  ghost predicate Valid(f: Frame) {
    |f.kinds| == |f.labels| && Width(f.rows, |f.labels|)
  }

  /** Column names as labels. */
  function Labels(names: seq<string>): (ls: seq<Value>)
    ensures |ls| == |names|
    ensures forall i :: 0 <= i < |names| ==> ls[i] == Str(names[i])
  {
    seq(|names|, i requires 0 <= i < |names| => Str(names[i]))
  }

  /** A table as the PDF extractor returns it: string column names and
      cells that are text or NaN. */
  datatype RawTable = RawTable(header: seq<string>, rows: seq<seq<Option<string>>>)

  ghost predicate Rectangular(t: RawTable) {
    forall k :: 0 <= k < |t.rows| ==> |t.rows[k]| == |t.header|
  }

  function CellOf(c: Option<string>): Value {
    match c
    case None => Missing
    case Some(s) => Str(s)
  }

  /** The extractor's table as a frame of `object` columns. */
  function Load(t: RawTable): (f: Frame)
    requires Rectangular(t)
    ensures Valid(f) && |f.rows| == |t.rows| && f.labels == Labels(t.header)
    ensures forall i :: 0 <= i < |t.header| ==> f.kinds[i] == Object
    ensures forall k, i :: 0 <= k < |t.rows| && 0 <= i < |t.header| ==> f.rows[k][i] == CellOf(t.rows[k][i])
  {
    Frame(Labels(t.header),
          seq(|t.header|, i => Object),
          seq(|t.rows|, k requires 0 <= k < |t.rows| =>
            seq(|t.rows[k]|, i requires 0 <= i < |t.rows[k]| => CellOf(t.rows[k][i]))))
  }

  // ---------------------------------------------------------------------
  // Labels
  // ---------------------------------------------------------------------

  /** How many columns carry label `l`. */
  function Count(ls: seq<Value>, l: Value): (n: nat)
    ensures n <= |ls|
    ensures n == 0 <==> l !in ls
  {
    if ls == [] then 0 else (if ls[0] == l then 1 else 0) + Count(ls[1..], l)
  }

  /** The first column labelled `l`. */
  function IndexOf(ls: seq<Value>, l: Value): (j: nat)
    requires l in ls
    ensures j < |ls| && ls[j] == l && l !in ls[..j]
  {
    if ls[0] == l then 0
    else
      var j := IndexOf(ls[1..], l) + 1;
      assert ls[..j] == [ls[0]] + ls[1..][..j - 1];
      j
  }

  /** A label that occurs once occurs nowhere else. */
  lemma {:induction false} CountOneUnique(ls: seq<Value>, l: Value, i: nat, j: nat)
    requires Count(ls, l) == 1
    requires i < |ls| && j < |ls| && ls[i] == l && ls[j] == l
    ensures i == j
  {
    if i != 0 && j != 0 {
      CountOneUnique(ls[1..], l, i - 1, j - 1);
    }
  }

  /** `s` with position `j` set to `v`, or `v` appended when `j` is the
      end: what assigning a column does to a row or to the labels. */
  function Put<T>(s: seq<T>, j: nat, v: T): (r: seq<T>)
    requires j <= |s|
    ensures |r| == if j == |s| then |s| + 1 else |s|
    ensures r[j] == v
    ensures forall i :: 0 <= i < |s| && i != j ==> r[i] == s[i]
  {
    if j == |s| then s + [v] else s[j := v]
  }

  /** Setting a label where that label already is, or appending it, adds
      one occurrence when appending and none otherwise, and leaves the
      count of every other label alone. */
  lemma {:induction false} CountPut(ls: seq<Value>, j: nat, l: Value, m: Value)
    requires j < |ls| ==> ls[j] == l
    requires j <= |ls|
    ensures Count(Put(ls, j, l), l) == Count(ls, l) + (if j == |ls| then 1 else 0)
    ensures m != l ==> Count(Put(ls, j, l), m) == Count(ls, m)
  {
    if j == |ls| {
      CountAppend(ls, l, l);
      CountAppend(ls, l, m);
    } else {
      assert Put(ls, j, l) == ls;
    }
  }

  lemma {:induction false} CountAppend(ls: seq<Value>, l: Value, m: Value)
    ensures Count(ls + [l], m) == Count(ls, m) + (if l == m then 1 else 0)
  {
    if ls == [] {
      assert [l][1..] == [];
    } else {
      assert (ls + [l])[1..] == ls[1..] + [l];
      CountAppend(ls[1..], l, m);
    }
  }

  /** `df[name]` as a single column: its position when exactly one column
      carries the label. A missing label raises `KeyError`; a repeated one
      gives a frame instead of a column, on which the next `.str` raises. */
  function Find(f: Frame, name: string): (r: Option<nat>)
    ensures r.Some? <==> Count(f.labels, Str(name)) == 1
    ensures r.Some? ==> r.value < |f.labels| && f.labels[r.value] == Str(name)
    ensures r.Some? ==> r.value == IndexOf(f.labels, Str(name))
  {
    if Count(f.labels, Str(name)) == 1 then Some(IndexOf(f.labels, Str(name))) else None
  }

  /** No name occurs twice. */
  ghost predicate Distinct(names: seq<string>) {
    forall a, b :: 0 <= a < b < |names| ==> names[a] != names[b]
  }

  /** Among distinct names, a name occurs once or not at all. */
  lemma {:induction false} LabelsCount(names: seq<string>, n: string)
    requires Distinct(names)
    ensures Count(Labels(names), Str(n)) == if n in names then 1 else 0
  {
    if names != [] {
      assert Labels(names)[1..] == Labels(names[1..]);
      LabelsCount(names[1..], n);
      if names[0] == n {
        assert n !in names[1..];
      }
    }
  }

  /** Among distinct names, each name is found at its own position. */
  lemma LabelsIndex(names: seq<string>, i: nat)
    requires Distinct(names) && i < |names|
    ensures Str(names[i]) in Labels(names)
    ensures IndexOf(Labels(names), Str(names[i])) == i
  {
    assert Labels(names)[i] == Str(names[i]);
  }

  /** Where `df[name] = ...` writes: the existing column, or a new one at the end. */
  function Slot(ls: seq<Value>, name: string): (j: nat)
    requires Count(ls, Str(name)) <= 1
    ensures j <= |ls| && (j < |ls| <==> Str(name) in ls)
    ensures j < |ls| ==> ls[j] == Str(name)
  {
    if Count(ls, Str(name)) == 0 then |ls| else IndexOf(ls, Str(name))
  }

  // ---------------------------------------------------------------------
  // Column operations
  // ---------------------------------------------------------------------

  /** One element of a `.str` method: a string cell is transformed; NaN,
      and anything that is not a string, gives NaN. */
  function StrApply(v: Value, g: string -> Value): Value {
    match v
    case Str(s) => g(s)
    case _ => Missing
  }

  /** A `.str` method applied to a column of cells. */
  function StrMap(cells: seq<Value>, g: string -> Value): (r: seq<Value>)
    ensures |r| == |cells|
    ensures forall k :: 0 <= k < |cells| ==> r[k] == StrApply(cells[k], g)
  {
    seq(|cells|, k requires 0 <= k < |cells| => StrApply(cells[k], g))
  }

  /** `df.iloc[:, j]`. */
  function Column(f: Frame, j: nat): (r: seq<Value>)
    requires Valid(f) && j < |f.labels|
    ensures |r| == |f.rows|
    ensures forall k :: 0 <= k < |f.rows| ==> r[k] == f.rows[k][j]
  {
    seq(|f.rows|, k requires 0 <= k < |f.rows| => f.rows[k][j])
  }

  /** `df.iloc[:, j].str.<op>`: the transformed column, or `None` when the
      column is `float64` and the accessor raises `AttributeError`. */
  function StrCol(f: Frame, j: nat, g: string -> Value): (r: Option<seq<Value>>)
    requires Valid(f) && j < |f.labels|
    ensures r.Some? <==> f.kinds[j] == Object
    ensures r.Some? ==> |r.value| == |f.rows|
    ensures r.Some? ==> forall k :: 0 <= k < |f.rows| ==> r.value[k] == StrApply(f.rows[k][j], g)
  {
    if f.kinds[j] == Object then Some(StrMap(Column(f, j), g)) else None
  }

  /** `df[name] = cells`: replaces the one column labelled `name`, or adds
      it at the end. A repeated label is treated as raising. */
  function Assign(f: Frame, name: string, cells: seq<Value>, kind: Kind): (r: Option<Frame>)
    requires Valid(f) && |cells| == |f.rows|
    ensures r.Some? <==> Count(f.labels, Str(name)) <= 1
    ensures r.Some? ==> Valid(r.value) && |r.value.rows| == |f.rows|
    ensures r.Some? ==>
      var j := Slot(f.labels, name);
      && r.value.labels == Put(f.labels, j, Str(name))
      && r.value.kinds == Put(f.kinds, j, kind)
      && forall k :: 0 <= k < |f.rows| ==> r.value.rows[k] == Put(f.rows[k], j, cells[k])
  {
    if Count(f.labels, Str(name)) > 1 then None
    else
      var j := Slot(f.labels, name);
      Some(Frame(Put(f.labels, j, Str(name)), Put(f.kinds, j, kind),
                 seq(|f.rows|, k requires 0 <= k < |f.rows| => Put(f.rows[k], j, cells[k]))))
  }

  /** `astype(float)` on one cell: a string is parsed, NaN and floats stay;
      `None` when a string is not a number (`ValueError`). */
  function FloatCell(v: Value): Option<Value> {
    match v
    case Str(s) => (match ParseFloat(s) case None => None case Some(x) => Some(Num(x)))
    case _ => Some(v)
  }

  /** `astype(float)` on a column: every cell converted, or `None` when any
      one fails. */
  function AsFloat(cells: seq<Value>): (r: Option<seq<Value>>)
    ensures r.Some? <==> forall k :: 0 <= k < |cells| ==> FloatCell(cells[k]).Some?
    ensures r.Some? ==> |r.value| == |cells|
    ensures r.Some? ==> forall k :: 0 <= k < |cells| ==> r.value[k] == FloatCell(cells[k]).value
  {
    if forall k :: 0 <= k < |cells| ==> FloatCell(cells[k]).Some? then
      Some(seq(|cells|, k requires 0 <= k < |cells| => FloatCell(cells[k]).value))
    else None
  }

  /** Column `i` of `f` is carried into `r` as it was: same label, dtype
      and cells. */
  ghost predicate Untouched(f: Frame, r: Frame, i: nat) {
    && i < |f.labels| && i < |r.labels| && i < |f.kinds| && i < |r.kinds|
    && r.labels[i] == f.labels[i] && r.kinds[i] == f.kinds[i]
    && |r.rows| == |f.rows|
    && forall k :: 0 <= k < |f.rows| ==> i < |f.rows[k]| && i < |r.rows[k]| && r.rows[k][i] == f.rows[k][i]
  }

  /** A column carried through two steps is carried through both. */
  lemma UntouchedTrans(f: Frame, g: Frame, h: Frame, i: nat)
    requires Untouched(f, g, i) && Untouched(g, h, i)
    ensures Untouched(f, h, i)
  {
  }

  /** The column named `name` occurs once in both frames, with the same
      dtype and cells. */
  ghost predicate Keeps(f: Frame, g: Frame, name: string) {
    && Valid(f) && Valid(g) && |g.rows| == |f.rows|
    && Count(f.labels, Str(name)) == 1 && Count(g.labels, Str(name)) == 1
    && var i, j := IndexOf(f.labels, Str(name)), IndexOf(g.labels, Str(name));
       && g.kinds[j] == f.kinds[i]
       && forall k :: 0 <= k < |f.rows| ==> g.rows[k][j] == f.rows[k][i]
  }

  /** A uniquely named column left where it was is kept. */
  lemma KeepsOfUntouched(f: Frame, g: Frame, name: string)
    requires Valid(f) && Valid(g)
    requires Count(f.labels, Str(name)) == 1 && Count(g.labels, Str(name)) == 1
    requires Untouched(f, g, IndexOf(f.labels, Str(name)))
    ensures Keeps(f, g, name)
  {
    IndexOfUnique(g.labels, Str(name), IndexOf(f.labels, Str(name)));
  }

  /** The first column labelled `l` is the one where `l` is, when it occurs once. */
  lemma IndexOfUnique(ls: seq<Value>, l: Value, i: nat)
    requires Count(ls, l) == 1 && i < |ls| && ls[i] == l
    ensures IndexOf(ls, l) == i
  {
    CountOneUnique(ls, l, i, IndexOf(ls, l));
  }

  /** The rows whose cell in column `j` satisfies `p`, in their order. */
  function KeepRowsWhere(rows: seq<seq<Value>>, j: nat, p: Value -> bool): (r: seq<seq<Value>>)
    requires forall k :: 0 <= k < |rows| ==> j < |rows[k]|
    ensures |r| <= |rows|
    ensures forall k :: 0 <= k < |r| ==> r[k] in rows && p(r[k][j])
    ensures forall w :: Width(rows, w) ==> Width(r, w)
  {
    if rows == [] then []
    else (if p(rows[0][j]) then [rows[0]] else []) + KeepRowsWhere(rows[1..], j, p)
  }

  /** A row is kept exactly when it is a row whose cell passes the test. */
  lemma {:induction false} KeepRowsWhereMembers(rows: seq<seq<Value>>, j: nat, p: Value -> bool, x: seq<Value>)
    requires forall k :: 0 <= k < |rows| ==> j < |rows[k]|
    ensures x in KeepRowsWhere(rows, j, p) <==> x in rows && p(x[j])
  {
    if rows != [] {
      KeepRowsWhereMembers(rows[1..], j, p, x);
      assert x in rows <==> x == rows[0] || x in rows[1..];
    }
  }

  /** Boolean indexing `df[mask]` with a mask computed from column `j`. */
  function KeepRows(f: Frame, j: nat, p: Value -> bool): (r: Frame)
    requires Valid(f) && j < |f.labels|
    ensures Valid(r) && r.labels == f.labels && r.kinds == f.kinds
    ensures r.rows == KeepRowsWhere(f.rows, j, p)
  {
    Frame(f.labels, f.kinds, KeepRowsWhere(f.rows, j, p))
  }

  /** `df[[n1, n2, ...]]`: the named columns, in that order. Each must
      occur exactly once. */
  function Select(f: Frame, names: seq<string>): (r: Option<Frame>)
    requires Valid(f)
    ensures r.Some? <==> forall n :: n in names ==> Count(f.labels, Str(n)) == 1
    ensures r.Some? ==> Valid(r.value) && |r.value.rows| == |f.rows|
    ensures r.Some? ==> r.value.labels == Labels(names)
    ensures r.Some? ==> forall i :: 0 <= i < |names| ==>
      r.value.kinds[i] == f.kinds[IndexOf(f.labels, Str(names[i]))]
    ensures r.Some? ==> forall k, i :: 0 <= k < |f.rows| && 0 <= i < |names| ==>
      r.value.rows[k][i] == f.rows[k][IndexOf(f.labels, Str(names[i]))]
  {
    if forall n :: n in names ==> Count(f.labels, Str(n)) == 1 then
      var idx := seq(|names|, i requires 0 <= i < |names| => IndexOf(f.labels, Str(names[i])));
      Some(Frame(Labels(names),
                 seq(|names|, i requires 0 <= i < |names| => f.kinds[idx[i]]),
                 seq(|f.rows|, k requires 0 <= k < |f.rows| =>
                   seq(|names|, i requires 0 <= i < |names| => f.rows[k][idx[i]]))))
    else None
  }

  /** `df.rename(columns={from: to})`: every column labelled `from` is
      relabelled. */
  function Rename(f: Frame, from: string, to: string): (r: Frame)
    requires Valid(f)
    ensures Valid(r) && r.kinds == f.kinds && r.rows == f.rows && |r.labels| == |f.labels|
    ensures forall i :: 0 <= i < |f.labels| ==>
      r.labels[i] == if f.labels[i] == Str(from) then Str(to) else f.labels[i]
  {
    Frame(seq(|f.labels|, i requires 0 <= i < |f.labels| =>
            if f.labels[i] == Str(from) then Str(to) else f.labels[i]),
          f.kinds, f.rows)
  }

  // ---------------------------------------------------------------------
  // The output table
  // ---------------------------------------------------------------------

  const SiteCol: string := "Site ID"
  const JobCol: string := "Job"
  const QtyCol: string := "QTY"
  const PriceCol: string := "UOM Unit Price"

  /** The four columns of every table the reader produces, in order. */
  const OutputNames: seq<string> := [SiteCol, JobCol, QtyCol, PriceCol]

  /** One purchase-order line: a row of the output table. */
  datatype LineItem = LineItem(site: Value, job: Value, qty: Value, price: Value)

  /** A frame with exactly the output columns, whose Job column holds text. */
  ghost predicate IsOutput(f: Frame) {
    && Valid(f)
    && f.labels == Labels(OutputNames)
    && f.kinds[1] == Object
  }

  /** In the output table, "Job" is the second column and occurs once. */
  lemma OutputJob()
    ensures Count(Labels(OutputNames), Str(JobCol)) == 1
    ensures IndexOf(Labels(OutputNames), Str(JobCol)) == 1
  {
    assert Distinct(OutputNames);
    LabelsCount(OutputNames, JobCol);
    LabelsIndex(OutputNames, 1);
  }

  /** Selecting the output columns succeeds exactly when each of the four
      occurs once. */
  lemma SelectOutputIff(f: Frame)
    requires Valid(f)
    ensures Select(f, OutputNames).Some? <==>
      && Count(f.labels, Str(SiteCol)) == 1 && Count(f.labels, Str(JobCol)) == 1
      && Count(f.labels, Str(QtyCol)) == 1 && Count(f.labels, Str(PriceCol)) == 1
  {
    assert OutputNames[0] == SiteCol && OutputNames[1] == JobCol;
    assert OutputNames[2] == QtyCol && OutputNames[3] == PriceCol;
  }

  /** The line items read off rows through the positions of the four
      output columns. */
  function Lines(rows: seq<seq<Value>>, s: nat, j: nat, q: nat, p: nat): (items: seq<LineItem>)
    requires forall k :: 0 <= k < |rows| ==> s < |rows[k]| && j < |rows[k]| && q < |rows[k]| && p < |rows[k]|
    ensures |items| == |rows|
    ensures forall k :: 0 <= k < |rows| ==>
      items[k] == LineItem(rows[k][s], rows[k][j], rows[k][q], rows[k][p])
  {
    if rows == [] then []
    else [LineItem(rows[0][s], rows[0][j], rows[0][q], rows[0][p])] + Lines(rows[1..], s, j, q, p)
  }

  /** The rows of an output frame as line items. */
  function Items(f: Frame): (items: seq<LineItem>)
    requires IsOutput(f)
    ensures |items| == |f.rows|
    ensures forall k :: 0 <= k < |f.rows| ==>
      items[k] == LineItem(f.rows[k][0], f.rows[k][1], f.rows[k][2], f.rows[k][3])
  {
    Lines(f.rows, 0, 1, 2, 3)
  }

  /** `pd.DataFrame(columns=['Site ID', 'Job', 'QTY', 'UOM Unit Price'])`. */
  function EmptyOutput(): (f: Frame)
    ensures IsOutput(f) && Items(f) == []
  {
    Frame(Labels(OutputNames), [Object, Object, Object, Object], [])
  }

  // ---------------------------------------------------------------------
  // Dropping lines
  // ---------------------------------------------------------------------

  /** `~df['Job'].str.contains('Total', na=False)`: NaN counts as not
      containing it. */
  predicate NotTotal(v: Value) {
    !(v.Str? && Contains(v.s, "Total"))
  }

  /** `dropna(subset=['Job'])`. */
  predicate Present(v: Value) {
    v != Missing
  }

  /** The items whose job satisfies `keep`, in order. */
  function KeepByJob(items: seq<LineItem>, keep: Value -> bool): (r: seq<LineItem>)
    ensures |r| <= |items|
  {
    if items == [] then []
    else (if keep(items[0].job) then [items[0]] else []) + KeepByJob(items[1..], keep)
  }

  /** The two filters every table goes through: lines mentioning "Total",
      then lines without a job, are dropped. */
  function KeepLines(items: seq<LineItem>): seq<LineItem> {
    KeepByJob(KeepByJob(items, NotTotal), Present)
  }

  /** When jobs are text or NaN, a line survives exactly when its job is
      text without "Total". */
  lemma {:induction false} KeepLinesMembers(items: seq<LineItem>, x: LineItem)
    requires forall y :: y in items ==> !y.job.Num?
    ensures x in KeepLines(items) <==> x in items && x.job.Str? && !Contains(x.job.s, "Total")
  {
    KeepByJobMembers(items, NotTotal, x);
    KeepByJobMembers(KeepByJob(items, NotTotal), Present, x);
  }

  lemma {:induction false} KeepByJobMembers(items: seq<LineItem>, keep: Value -> bool, x: LineItem)
    ensures x in KeepByJob(items, keep) <==> x in items && keep(x.job)
  {
    if items != [] {
      KeepByJobMembers(items[1..], keep, x);
      assert items == [items[0]] + items[1..];
    }
  }

  /** Filtering two blocks of lines is filtering each block, in order. */
  lemma {:induction false} KeepByJobAppend(a: seq<LineItem>, b: seq<LineItem>, keep: Value -> bool)
    ensures KeepByJob(a + b, keep) == KeepByJob(a, keep) + KeepByJob(b, keep)
  {
    if a == [] {
      assert a + b == b;
    } else {
      var rest := a[1..];
      KeepByJobAppend(rest, b, keep);
      assert (a + b)[0] == a[0] && (a + b)[1..] == rest + b;
      var head := if keep(a[0].job) then [a[0]] else [];
      KeepByJobHead(a + b, keep);
      KeepByJobHead(a, keep);
      JoinAssoc(head, KeepByJob(rest, keep), KeepByJob(b, keep));
    }
  }

  lemma KeepByJobHead(items: seq<LineItem>, keep: Value -> bool)
    requires items != []
    ensures KeepByJob(items, keep)
         == (if keep(items[0].job) then [items[0]] else []) + KeepByJob(items[1..], keep)
  {
  }

  lemma JoinAssoc(x: seq<LineItem>, y: seq<LineItem>, z: seq<LineItem>)
    ensures x + (y + z) == (x + y) + z
  {
  }

  /** Both filters of `KeepLines` work line by line, so they split over
      concatenation. */
  lemma KeepLinesAppend(a: seq<LineItem>, b: seq<LineItem>)
    ensures KeepLines(a + b) == KeepLines(a) + KeepLines(b)
  {
    KeepByJobAppend(a, b, NotTotal);
    KeepByJobAppend(KeepByJob(a, NotTotal), KeepByJob(b, NotTotal), Present);
  }

  /** Filtering rows on the job cell and then reading line items gives the
      same as reading line items and then filtering on the job. */
  lemma {:induction false} LinesKeep(rows: seq<seq<Value>>, s: nat, j: nat, q: nat, p: nat, keep: Value -> bool)
    requires forall k :: 0 <= k < |rows| ==> s < |rows[k]| && j < |rows[k]| && q < |rows[k]| && p < |rows[k]|
    ensures Lines(KeepRowsWhere(rows, j, keep), s, j, q, p) == KeepByJob(Lines(rows, s, j, q, p), keep)
  {
    if rows != [] {
      LinesKeep(rows[1..], s, j, q, p, keep);
      var rest := KeepRowsWhere(rows[1..], j, keep);
      var head := if keep(rows[0][j]) then [rows[0]] else [];
      LinesAppend(head, rest, s, j, q, p);
      assert Lines(rows, s, j, q, p)[1..] == Lines(rows[1..], s, j, q, p);
    }
  }

  lemma {:induction false} LinesAppend(a: seq<seq<Value>>, b: seq<seq<Value>>, s: nat, j: nat, q: nat, p: nat)
    requires forall k :: 0 <= k < |a| ==> s < |a[k]| && j < |a[k]| && q < |a[k]| && p < |a[k]|
    requires forall k :: 0 <= k < |b| ==> s < |b[k]| && j < |b[k]| && q < |b[k]| && p < |b[k]|
    ensures Lines(a + b, s, j, q, p) == Lines(a, s, j, q, p) + Lines(b, s, j, q, p)
  {
  }
}
