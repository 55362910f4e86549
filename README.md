# Purchase-order table normaliser

This project models the purchase-order reader in `app/atc_po_reader.py`. It turns the tables a PDF extractor returns, one per page region, into a single table with four columns: `Site ID`, `Job`, `QTY` and `UOM Unit Price`.

- **Input.** A sequence of raw tables. Each has a header and rows of cells; a cell is text or NaN.
- **Page 1 (`tables[1]`).** Handled inline in `process_pdf`, in this order:
  - column 0 is read as text, row 1 becomes the labels, and only rows whose column 0 starts with a digit are kept;
  - every "Each" and every comma is removed from the price before it is read as a number;
  - the job is what follows the first token of column 0, with the whole word "Replacement" removed;
  - the site is the six characters after an `@` in column 0;
  - the job is cut at its `@`.
- **Later pages (`tables[2..]`).** Each goes through `process_page`:
  - it keeps "Description", "QTY" and "Unit Price";
  - it removes "Replacement", reads the site, cuts and strips the job;
  - it drops "Total" rows and rows without a job.
  A page without "Description", or one where a step raises, gives the empty four-column table.
- **Final pass.** The page tables are concatenated in order. Jobs are stripped again, and "Total" rows and rows without a job are dropped.
- **Failures.** Fewer than two tables, or a page 1 that raises, makes the whole document `None`.

The Dafny modules follow that structure:

- `Wrappers` holds the `Option` type.
- `Text` has one function per regular expression or string method applied to a cell: `\bReplacement\b`, `@(\S{6})`, `@.*`, `^(\S+)`, `split(n=1)`, `strip()`, `^\d`, `replace` and `float`.
- `Frames` holds a pandas-like frame: labels, a dtype per column (object or float) and rows of cells. Its operations are column lookup, assignment, `.str` on a column, selection, renaming, boolean row filtering and `astype(float)`.
- `Pages` holds the two page cleaners.
  - Each is a method that reassigns a frame statement by statement, in the source's order.
  - Each is proved equal to a row-by-row description (`CleanPageSpec`, `FirstPageLines`) of what becomes of each extracted row.
- `Document` holds `process_pdf`.
  - The loop over the later pages appends to a list, with a loop invariant.
  - The concatenation and the final pass follow.
  - The result is proved equal to `PdfLines`, a description of the document's lines.
  - The document-level properties are stated about `PdfLines`: order, cleanliness, an empty page changes nothing, the first table is unused, and a bad page-1 price fails the document.

### Behaviour of the code worth knowing

Each point below is what the code does. The reader's own design description says otherwise on each of them; the model follows the code.

- **Empty jobs survive.** Lines 31 and 84 drop only missing (NaN) jobs. A job that is empty after cutting and stripping is kept: a description `@SITE01` gives site `SITE01` and job `""`. `PdfLinesClean` states what the code guarantees: the job is text, stripped, free of "Total" and of `@`.
- **Page-1 job order.** Line 64 takes the rest after the first token and strips it. Line 65 then removes "Replacement", line 66 reads the site from column 0, and line 67 cuts the job at `@`. After that cut the job is not stripped again until line 80.
- **A bad price fails the document.** A page-1 price that `float` rejects raises at line 61. Lines 88-90 turn that into `None` for the whole document, not just for page 1: see `BadPriceFailsDocument`.

## Model

| member | source | states |
|---|---|---|
| Text.Strip | app/atc_po_reader.py:27 | `str.strip()`: the result is empty exactly when the text is all whitespace; otherwise it starts and ends with non-whitespace and is no longer than the text |
| Text.StripSlice | app/atc_po_reader.py:27 | the stripped text is the slice of the input between a whitespace-only prefix and a whitespace-only suffix |
| Text.StripWithout | app/atc_po_reader.py:27 | stripping adds no character, so an `@`-free job stays `@`-free |
| Text.StripIdempotent | app/atc_po_reader.py:80 | stripping a stripped job changes nothing, so the re-strip after concatenation is harmless on later pages |
| Text.LeadingToken | app/atc_po_reader.py:63 | `^(\S+)` matches exactly when the text starts with non-whitespace; the match is the longest whitespace-free prefix |
| Text.SplitRest | app/atc_po_reader.py:64 | `split(n=1)[1]` is a proper suffix of the text that starts with non-whitespace |
| Text.SplitRestShape | app/atc_po_reader.py:64 | the text is leading whitespace, one token, whitespace, then the rest `split(n=1)[1]` returns |
| Text.SplitRestNoneIff | app/atc_po_reader.py:64 | there is no second part exactly when the stripped text is a single token |
| Text.SitePos | app/atc_po_reader.py:26 | the first position at or after `i` where `@` is followed by six non-whitespace characters, or none when there is no such position |
| Text.ExtractSite | app/atc_po_reader.py:26 | `@(\S{6})` yields six non-whitespace characters that follow an `@` in the text; it yields nothing exactly when no `@` is followed by six such characters |
| Text.ExtractSiteLeftmost | app/atc_po_reader.py:26 | the extracted code is the six characters after the leftmost `@` that has six non-whitespace characters after it, as `str.extract` takes the first match |
| Text.CutAtSign | app/atc_po_reader.py:27 | `@.*` replaced by nothing leaves no `@` and never lengthens the text |
| Text.CutAtSignIdentityIff | app/atc_po_reader.py:27 | the text is unchanged exactly when it has no `@` |
| Text.CutAtSignOneLine | app/atc_po_reader.py:27 | on a one-line text, everything from the first `@` on is cut |
| Text.CutAtSignLines | app/atc_po_reader.py:27 | since `.` stops at a newline, a newline-free line and the text from the next newline on are cut separately, so a multi-line cell is cut line by line |
| Text.CutThenNoSite | app/atc_po_reader.py:66-67 | no site code can be read again from a job cut at its `@` |
| Text.RemoveReplacement | app/atc_po_reader.py:21 | `re.sub(r'\bReplacement\b', '')` never lengthens the text; what it removes is stated by `RemoveReplacementFirst` and `ReplacementGone` |
| Text.RemoveReplacementIdentityIff | app/atc_po_reader.py:21 | `\bReplacement\b` removal changes the text exactly when it holds the whole word |
| Text.WordPos | app/atc_po_reader.py:21 | the leftmost whole-word "Replacement" at or after a position, stated in both directions; none exactly when there is no whole word from there on |
| Text.RemoveWordFirst | app/atc_po_reader.py:21 | the removal from a position keeps the text up to the leftmost whole word, drops those eleven characters and goes on after them; with no whole word left it keeps the rest unchanged |
| Text.RemoveReplacementFirst | app/atc_po_reader.py:21 | `re.sub` keeps everything before the first whole-word "Replacement", drops it and goes on after it; a text without one is returned as it is |
| Text.RemoveWordLeavesNone | app/atc_po_reader.py:21 | removing from a position where no word edge is created leaves no whole-word "Replacement" |
| Text.ReplacementGone | app/atc_po_reader.py:21 | after the removal no whole-word "Replacement" is left: the word always stands between non-word characters, so taking it out cannot form a new one |
| Text.ReplaceAndReplacementsStay | app/atc_po_reader.py:21 | "Replace" and "Replacements" are left untouched |
| Text.ReplacementRemoved | app/atc_po_reader.py:21 | "New Replacement" becomes "New " |
| Text.Contains | app/atc_po_reader.py:30 | `str.contains` with a plain pattern, scanned from the left; `ContainsIff` states that it holds exactly when the pattern occurs |
| Text.ContainsIff | app/atc_po_reader.py:30 | `str.contains('Total')` holds exactly when the pattern occurs at some position |
| Text.RemoveAll | app/atc_po_reader.py:60-61 | a literal `replace(pat, '')` never lengthens the text, and removing a one-character pattern leaves none of it |
| Text.RemoveAllFirst | app/atc_po_reader.py:60 | `replace` keeps the text before the leftmost occurrence, drops it and goes on after it; with `RemoveAllAbsent` this fixes the result on every text |
| Text.RemoveAllOnePass | app/atc_po_reader.py:60 | occurrences are removed in one left-to-right pass, so `"EEachach"` becomes `"Each"`, as in Python |
| Text.RemoveAllAbsent | app/atc_po_reader.py:60-61 | removing a pattern that does not occur changes nothing |
| Text.RemoveAllAfterPrefix | app/atc_po_reader.py:60-61 | removing a pattern from a text whose prefix holds no first character of the pattern keeps that prefix and removes from the rest |
| Text.StartsWithDigit | app/atc_po_reader.py:56 | `re.match(r'^\d')`: the text starts with a decimal digit |
| Text.FloatStrip | app/atc_po_reader.py:61 | the text `float` reads: empty exactly when the text is all float whitespace, otherwise starting and ending with a character `float` does not trim |
| Text.FloatStripAgrees | app/atc_po_reader.py:61 | on a text without the separators U+001C to U+001F, `float` trims exactly what `str.strip` trims |
| Text.ParseFloat | app/atc_po_reader.py:61 | `float`: a text that reads has a non-empty trimmed part that starts with a character `float` does not trim; its value is stated by `DecimalOf`, `UnsignedDecimal` and `SeparatorRejected` |
| Text.SeparatorRejected | app/atc_po_reader.py:61 | a text that `float` reads holds none of U+001C to U+001F anywhere, and is not blank under `str.strip` |
| Text.SeparatorPriceRejected | app/atc_po_reader.py:61 | the price `"\x1c5"` does not read, although `str.strip` would trim it to `"5"` |
| Text.UnsignedDecimal | app/atc_po_reader.py:61 | a digit string reads as its integer value; every value read is non-negative |
| Text.DecimalOf | app/atc_po_reader.py:61 | `w.f`, with digits `w` and `f`, reads as the value of `w` plus `f` over the matching power of ten |
| Text.PriceCleaningExample | app/atc_po_reader.py:60-61 | "1,200.00 Each" with "Each" and commas removed reads as 1200.0 |
| Text.CommaOnce | app/atc_po_reader.py:60 | removing commas from two comma-free texts joined by one comma gives the two texts joined |
| Frames.Load | app/atc_po_reader.py:43 | the extracted table as a frame: one object column per header cell, every cell taken as it is |
| Frames.Find | app/atc_po_reader.py:22 | a column is found exactly when its label occurs once, and at the position of that label |
| Frames.StrCol | app/atc_po_reader.py:21 | `.str` on a column succeeds exactly when the column has object dtype, and maps every text cell |
| Frames.Assign | app/atc_po_reader.py:26 | column assignment succeeds exactly when the label occurs at most once; it replaces that column in place or appends a new one, and leaves the other columns alone |
| Frames.AsFloat | app/atc_po_reader.py:61 | `astype(float)` succeeds exactly when every cell converts, and then holds the converted cells |
| Frames.KeepRowsWhereMembers | app/atc_po_reader.py:30 | a boolean-mask filter keeps exactly the rows whose cell satisfies the mask |
| Frames.KeepRowsWhere | app/atc_po_reader.py:30 | the kept rows are rows of the input that satisfy the mask, no more of them, and of the same width |
| Frames.KeepRows | app/atc_po_reader.py:30 | filtering rows keeps the labels and dtypes |
| Frames.Select | app/atc_po_reader.py:70 | selecting columns succeeds exactly when each named label occurs once; the result has those labels in that order, with their cells and dtypes |
| Frames.SelectOutputIff | app/atc_po_reader.py:70 | the four-column projection succeeds exactly when each of the four labels occurs once |
| Frames.Rename | app/atc_po_reader.py:23 | renaming changes only the matching labels, never cells or dtypes |
| Frames.EmptyOutput | app/atc_po_reader.py:35 | the empty result has the four output columns and no lines |
| Frames.KeepByJobMembers | app/atc_po_reader.py:30-31 | a line survives a job filter exactly when it was there and its job passes |
| Frames.KeepLines | app/atc_po_reader.py:30-31 | the "Total" filter then `dropna` on the Job column; `KeepLinesMembers` states which lines it keeps |
| Frames.KeepLinesMembers | app/atc_po_reader.py:83-84 | a line survives the "Total" and `dropna` filters exactly when its job is text without "Total" |
| Frames.KeepByJobAppend | app/atc_po_reader.py:83-84 | a job filter over two lists is the filter of each, concatenated |
| Frames.KeepLinesAppend | app/atc_po_reader.py:83-84 | both final filters split over concatenation, so filtering keeps the order of the lines |
| Pages.SiteOf | app/atc_po_reader.py:26 | the site after `fillna('')` is empty exactly when the text holds no site code, and otherwise the six non-whitespace characters `str.extract` yields |
| Pages.SiteOfLeftmost | app/atc_po_reader.py:26 | a non-empty site is the six characters after the leftmost `@` that has six non-whitespace characters after it |
| Pages.PageLine | app/atc_po_reader.py:21-27 | what lines 21-27 make of one row of a later page; `PageLineShape` states its properties |
| Pages.PageLineSteps | app/atc_po_reader.py:21-27 | glue between the column steps and the row definition: lines 21-27 applied to one row give `PageLine` |
| Pages.ReplaceIn | app/atc_po_reader.py:21 | a `.str` replacement succeeds exactly when the column occurs once with object dtype; it maps that column and keeps every other cell |
| Pages.TakeColumns | app/atc_po_reader.py:22-23 | selection and renaming succeed exactly when the three columns each occur once; the result holds Job, QTY and UOM Unit Price from Description, QTY and Unit Price |
| Pages.SplitSite | app/atc_po_reader.py:26-27 | each row gets its job cut at `@` and stripped, and the site read from the job before the cut, empty when none |
| Pages.DropTotals | app/atc_po_reader.py:30-33 | the page's lines are exactly its lines without "Total" and without a missing job, in order, in the four output columns |
| Pages.CleanDescribed | app/atc_po_reader.py:20-33 | a later page is cleaned exactly when Description, QTY and Unit Price each occur once among its labels; its lines are then `PageLines` of the raw table |
| Pages.ProcessPage | app/atc_po_reader.py:18-37 | `process_page` returns the cleaned lines, the empty table for no Description, or the empty table because a step raised, each as `CleanPageSpec` says |
| Pages.Returned | app/atc_po_reader.py:35-37 | what `process_page` hands back is always a four-column table; it is empty unless the page was cleaned |
| Pages.PageLineShape | app/atc_po_reader.py:26-27 | a later-page line has an empty or six-character site; its job is text exactly when the description was, and then has no `@`, is stripped and yields no site again |
| Pages.PageLinesMembers | app/atc_po_reader.py:30-31 | a line is kept from a later page exactly when it is one of the page's rows, with a text job without "Total" |
| Pages.MissingColumnsYieldNothing | app/atc_po_reader.py:22 | a later page without QTY or Unit Price is not cleaned; it contributes nothing |
| Pages.TextFirstColumn | app/atc_po_reader.py:53 | `astype(str)` makes column 0 text, with NaN read as "nan", and leaves the other cells |
| Pages.Relabelled | app/atc_po_reader.py:53-55 | row 1 becomes the labels and the rows from 2 on become the body, with column 0 as text and every column object |
| Pages.DigitLed | app/atc_po_reader.py:56 | a cell passes `str.match('^\d')` when it is text that starts with a digit |
| Pages.FirstPageBody | app/atc_po_reader.py:53-56 | page 1 relabelled and filtered to the digit-led rows keeps the label row and has every column object |
| Pages.FirstPageBodyRows | app/atc_po_reader.py:54-56 | a body row is kept exactly when its column 0 starts with a digit |
| Pages.CleanPrices | app/atc_po_reader.py:60-61 | the price clean-up succeeds exactly when there is one price column and every price reads as a number; only that column changes and becomes float |
| Pages.PriceSteps | app/atc_po_reader.py:60-61 | glue between the column steps and the row definition: the two replacements then `astype(float)` on one cell give `PriceValue` |
| Pages.WriteToken | app/atc_po_reader.py:63 | line 63 succeeds exactly when column 0 is not the float price column and "not needed" occurs at most once; column 0 keeps its label, becomes text, and is cut to its first token only when it is itself labelled "not needed"; every other column except "not needed" is untouched |
| Pages.RestSteps | app/atc_po_reader.py:64 | glue between the column steps and the row definition: `split(n=1).str[1].str.strip()` on one cell gives `RestOfText` |
| Pages.WriteJob | app/atc_po_reader.py:64 | Job gets what follows column 0's first token, stripped; the other columns are untouched |
| Pages.FirstPageSteps | app/atc_po_reader.py:65 | glue between the column steps and the row definition: the Replacement step on one cell gives `JobOfText` |
| Pages.SiteSteps | app/atc_po_reader.py:66 | glue between the column steps and the row definition: the site extraction and `fillna('')` on one cell give `SiteCell` |
| Pages.WriteSite | app/atc_po_reader.py:66 | Site ID gets the site code of column 0, or "", and the other columns are untouched |
| Pages.MakeJob | app/atc_po_reader.py:63-65 | lines 63-65 succeed exactly when column 0 is not the price and the scratch and Job labels occur at most once; Job gets the first-page job of column 0 |
| Pages.MakeSite | app/atc_po_reader.py:66-67 | lines 66-67 succeed exactly when Site ID occurs at most once; each row gets the site of column 0 and the job cut at `@` |
| Pages.SplitFirstColumn | app/atc_po_reader.py:63-67 | lines 63-67 keep QTY and the price, and give each row the site and job of `FirstPageLine` |
| Pages.CleanFirstBody | app/atc_po_reader.py:60-70 | the page-1 body is cleaned exactly when its columns are usable and every price parses; each row becomes `FirstPageLine` of that row |
| Pages.ProcessFirstPage | app/atc_po_reader.py:50-70 | page 1 yields a table exactly when it has a label row, one price column that is not column 0, one QTY column, at most one "not needed", Job and Site ID column, and every kept price reads as a number; the table's lines are `FirstPageLines` |
| Pages.FirstPageLine | app/atc_po_reader.py:53-67 | what lines 53-67 make of one kept row of page 1; `FirstPageLineShape`, `FirstPageJobIff` and `FirstPageSiteFromText` state its properties |
| Pages.FirstPageLineShape | app/atc_po_reader.py:66-67 | a page-1 line has an empty or six-character site and a missing or `@`-free job |
| Pages.FirstPageSiteFromText | app/atc_po_reader.py:66 | unless column 0 is labelled Job or "not needed", the page-1 site is read from the raw column 0 text |
| Pages.FirstPageJobIff | app/atc_po_reader.py:64-65 | unless column 0 is labelled "not needed", the page-1 job is missing exactly when the stripped column 0 text is a single token; otherwise it is the rest after the first token, stripped, with "Replacement" removed |
| Pages.ScratchLeadLeavesNoJob | app/atc_po_reader.py:63-64 | when column 0 is itself labelled "not needed", line 63 leaves it one token, so no row gets a job |
| Document.MergeKinds | app/atc_po_reader.py:79 | after concatenation a column is float exactly when it is float in both tables |
| Document.Concat | app/atc_po_reader.py:79 | the concatenation is a four-column table holding the lines of every table, one table after another |
| Document.FinalPass | app/atc_po_reader.py:80-84 | the final pass strips every job, then keeps the lines with a text job without "Total", in order |
| Document.GatherStep | app/atc_po_reader.py:73-76 | appending the table of page `i` keeps the list holding page 1's lines, then pages 2 to `i` in order |
| Document.ProcessPdf | app/atc_po_reader.py:40-90 | `process_pdf` returns a table exactly when there are at least two tables and page 1 is usable; its lines are `PdfLines` |
| Document.PdfLines | app/atc_po_reader.py:40-90 | the reference definition of the document's lines, which `ProcessPdf` is proved to return and every document-level lemma is stated about |
| Document.PageYieldExtracted | app/atc_po_reader.py:26-27 | every line a later page yields has an empty or six-character site and a job that is missing or text without `@` |
| Document.RawLinesExtracted | app/atc_po_reader.py:66-76 | every line gathered before the final pass has an empty or six-character site and a job that is missing or text without `@` |
| Document.StripJobsClean | app/atc_po_reader.py:80 | after line 80 every text job is stripped and still free of `@`, and every site is still empty or six non-whitespace characters |
| Document.FinalClean | app/atc_po_reader.py:80-84 | the final pass keeps a line exactly when its stripped job is text without "Total"; each kept job is stripped, has no `@` and yields no site, and each site is empty or six characters |
| Document.PdfLinesClean | app/atc_po_reader.py:80-84 | a line is in the document exactly when it is a gathered line, job stripped, whose job is text without "Total"; every such job is stripped, has no `@` so no site can be read from it again, and every site is empty or six characters |
| Document.FinalLaterLines | app/atc_po_reader.py:74-84 | the final pass over the later pages is the final pass over each page in turn |
| Document.PdfLinesInOrder | app/atc_po_reader.py:73-84 | the document is page 1's surviving lines, then each later page's surviving lines in page order, each page in its own row order |
| Document.LaterLinesIgnoreFirst | app/atc_po_reader.py:74 | the later pages' lines never depend on `tables[0]` |
| Document.FirstTableUnused | app/atc_po_reader.py:45-50 | replacing `tables[0]` by any table changes nothing in the document |
| Document.PagesLinesAppend | app/atc_po_reader.py:74-76 | the lines of two runs of pages are the lines of each run, concatenated |
| Document.LaterLinesPages | app/atc_po_reader.py:74-76 | the later pages' lines are the lines of the run `tables[2..]` |
| Document.PagesLinesDrop | app/atc_po_reader.py:74-76 | a page that yields nothing can be taken out of a run without changing its lines |
| Document.EmptyPageChangesNothing | app/atc_po_reader.py:20-37 | a later page without Description, or one that raises, leaves the document equal to the one without that page |
| Document.BadPriceFailsDocument | app/atc_po_reader.py:88-90 | a page-1 price that does not read as a number makes the document `None` |

## Left out

- The Streamlit page (lines 1-15, 92-122) is not modelled: the upload widget, writing `temp.pdf`, styling, CSV export and the download button are I/O and presentation.
- The `st.error` messages (lines 46, 89) are not modelled; only the `None` result is.
- The extractor call `read_pdf` (line 43) is not modelled. Its output is the input of `ProcessPdf`, and every cell is text or NaN. Numeric cells that the extractor might type as numbers are not modelled.
- Python's `float()` is modelled only on the forms a price takes: the whitespace `float` itself trims, an optional sign, and digits with an optional fraction. Exponents, `inf`, `nan`, underscores and non-ASCII digits are not modelled, and values are exact reals rather than IEEE doubles.
- Text.ParseFloat: its own contract states only that the trimmed text is not empty. What it reads is stated by `UnsignedDecimal`, `DecimalOf` and `PriceCleaningExample`, and what it rejects by `SeparatorRejected`.
- Text.RemoveReplacement: its own contract states only that the result is not longer. Its meaning is stated by separate lemmas:
  - `RemoveReplacementFirst` and `RemoveWordFirst`: it keeps the text before the leftmost whole word and goes on after it;
  - `ReplacementGone`: no whole word is left;
  - `RemoveReplacementIdentityIff`: it changes the text exactly when one occurs.
- `\w` and `\d` are taken as ASCII. Python's Unicode letters and digits are not modelled.
- Duplicate column labels are modelled as errors in `Frames.Find`, `Frames.Assign`, `Frames.Select`, `Pages.TakeColumns` and `Pages.WriteSite`: a step that looks up or assigns a label occurring twice counts as raising. pandas instead carries every column with that label through selection and assignment. Two consequences at the document level are not modelled:
  - A later page whose header repeats "QTY" or "Unit Price" does not raise in `process_page` (line 22). It returns a five-column table, `pd.concat` (line 79) then raises, and `process_pdf` returns `None` (lines 88-90). In the model that page is `Failed` and dropped, and the document is the other pages' lines. So `Document.EmptyPageChangesNothing` holds in the source only for later pages whose labels are not repeated.
  - A page 1 whose label row repeats "Site ID" or "QTY" gives `None` in the model. The source yields a five-column table, or fails later at `pd.concat`.
- pandas dtypes are modelled only as object or float. These matter only where `.str` meets a float column, for example when page 1's column 0 is labelled "UOM Unit Price".
- Document.MergeKinds: pandas leaves empty tables out when `pd.concat` picks a column's dtype, so a float price column joined with an empty later page stays float, where the model makes it object. No cell value changes, and the Job column is object on every path.
- `process_page`'s result is modelled as a typed outcome: cleaned, no Description, or failed. The last two both return the empty table in the source, and `Returned` maps them to it.
- The "not needed" column (line 63) is modelled only through its effect on column 0, when column 0 carries that label. Its own cells are discarded by line 70.
- The pandas index (`reset_index`, `ignore_index`) is not modelled, because row order is the only thing the source relies on.
