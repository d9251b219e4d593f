# PDF table and text extraction pipeline — a Dafny model

This project models `PDFExtractor` from `extract_pdf_tables.py`. The extractor reads a PDF
in four steps:

1. It walks the pages a layout library (pdfplumber) reports. It cuts each page's text into
   paragraphs and classifies each paragraph as a heading, a list item or a plain paragraph.
   It admits each layout table of two rows or more, scored by fill rate and column
   consistency, and leaves a `[TABLE_p_i]` marker block where the table was found.
2. It adds the tables of two camelot runs, `stream` and `lattice`.
3. It cross-validates the candidates by their stored scores: it keeps one table per page.
   For a page with several candidates it records the chosen source in a comparison
   report; a page with one candidate gets no report line.
4. It writes the result as Markdown, HTML, a JSON record, one CSV file per table and one
   workbook sheet per table.

The model keeps the extractor's own shape:

- `Extractor.PdfExtractor` is a class. Its fields `textBlocks`, `tables` and `report` are the
  lists the Python object appends to and reassigns. Its methods are the loops of the source.
- Each method is proved equal to a specification function in one of these modules:
  `Segment`, `Classify`, `Confidence`, `CrossValidation`, `Pipeline`, `Render` and `Export`.
- Lemmas about those functions state what the pipeline promises: the segmentation,
  classification, admission, scoring, per-page selection, page sectioning and JSON
  grouping rules.
- The two PDF libraries are replaced by their results, passed in as values:
  - a sequence of `PdfPage(text, tables)`;
  - each camelot run as `Result<seq<CamelotTable>, string>`, where a `Failure` is the
    exception the run raised.
- The renderers produce structural lines (`MdLine`, `HtmlLine`, `JsonDoc`, `TableFile`), not
  bytes.

Modules:

| File | Module | Contents |
|---|---|---|
| `text_util.dfy` | `TextUtil` | Python's `strip`, `split('\n')`, `' '.join`, `str * n`, `str(n)` and `int(s)` |
| `model.dfy` | `Model` | the records and the library inputs |
| `grouping.dfy` | `Grouping` | grouping by key in insertion order (Python dict semantics), and `max(key=)` |
| `segment.dfy` | `Segment` | paragraphs |
| `classify.dfy` | `Classify` | block kinds |
| `confidence.dfy` | `Confidence` | the table score |
| `crossval.dfy` | `CrossValidation` | the per-page winner and the report |
| `pipeline.dfy` | `Pipeline` | what the extraction steps append |
| `render.dfy` | `Render` | Markdown and HTML |
| `export.dfy` | `Export` | the JSON record, CSV names and sheet names |
| `extractor.dfy` | `Extractor` | the class |

Two worked cases:

- **The confidence example.** `[["a","b"],["","d"],["e","f","g"]]` has 6 filled cells out
  of 7; only `""` is empty. Its consistency is 2/3, so it scores 1640/21
  (`Confidence.WorkedExample`), stored rounded as 78.1 (`Confidence.WorkedExampleScore`).
- **An indented dash text.** `"     - item"` is a paragraph of level 0. Every list pattern
  needs a non-space first character, so the indentation bonus never reaches a list item
  (`Classify.IndentedDashIsParagraph`, `Classify.IndentBonusIsDead`).

## Model

| member | source | states |
|---|---|---|
| TextUtil.Strip | extract_pdf_tables.py:137 | `str.strip()`: the slice of the input between a leading and a trailing run of whitespace (Python's `isspace` set); empty exactly when every character is whitespace, otherwise neither end is whitespace |
| TextUtil.StripKeepsChars | extract_pdf_tables.py:137 | stripping only removes characters: every character of the result occurs in the input |
| TextUtil.Split | extract_pdf_tables.py:133 | `split('\n')` yields at least one part and no part holds the separator |
| TextUtil.JoinSplit | extract_pdf_tables.py:133 | joining the parts of `split` with the separator gives back the text |
| TextUtil.JoinShape | extract_pdf_tables.py:141 | `' '.join` of non-empty parts starts with the first part's first character, ends with the last part's last character, and holds only characters of the parts or the separator |
| TextUtil.Repeat | extract_pdf_tables.py:376-379 | `s * n` has `n` copies' length and only characters of `s`; it is empty for `n <= 0`, so a list item of level 0 or 1 gets no indent |
| TextUtil.NatToString | extract_pdf_tables.py:103 | `str(n)` is a non-empty run of digits without a leading zero |
| TextUtil.DigitsValueOfNatToString | extract_pdf_tables.py:385-386 | `int(str(n)) == n` |
| TextUtil.DigitRun | extract_pdf_tables.py:165 | the greedy `\d+` run: all digits, and followed by a non-digit or the end |
| TextUtil.NumberThenInjective | extract_pdf_tables.py:554 | `str(a) + x == str(b) + y` with `x`, `y` not starting with a digit forces `a == b` and `x == y` |
| Segment.StrippedLineShape | extract_pdf_tables.py:133-137 | every stripped line of the page holds no line break, and a non-blank one neither starts nor ends with whitespace |
| Segment.RunLength | extract_pdf_tables.py:136-146 | the length of the leading run of non-blank lines, ending at a blank line or the end |
| Segment.ScanFromRuns | extract_pdf_tables.py:134-151 | the `current_paragraph` loop, started with no open paragraph, closes exactly the maximal runs of non-blank lines, in order |
| Segment.ScanFromOpenRuns | extract_pdf_tables.py:134-151 | with a paragraph open, the loop first extends it by the leading non-blank run, then closes the remaining runs |
| Segment.Runs | extract_pdf_tables.py:136-146 | the maximal runs of non-blank lines, in order; `RunsShape`, `RunsKeepAllLines` and `ScanFromRuns` prove them to be what the `current_paragraph` loop closes |
| Segment.Paragraphs | extract_pdf_tables.py:129-151 | a page's paragraphs: none for a missing or empty text, otherwise each run of non-blank stripped lines joined with one space; `ParagraphShape` proves their shape |
| Segment.RunsShape | extract_pdf_tables.py:138-146 | every run is non-empty, and holds only non-blank lines of the page |
| Segment.RunsKeepAllLines | extract_pdf_tables.py:136-146 | the runs, concatenated, are exactly the non-blank lines in order: no line is lost or duplicated |
| Segment.ParagraphShape | extract_pdf_tables.py:129-151 | every paragraph is non-empty, holds no line break and neither starts nor ends with whitespace; a `None` or empty text yields none |
| Segment.JoinedRunShape | extract_pdf_tables.py:141 | joining stripped non-blank lines with one space keeps that shape |
| Classify.NumberedPrefixIsRegex | extract_pdf_tables.py:165 | the greedy digit-run test matches exactly the texts the backtracking `^\d+[\.\)]\s+` accepts |
| Classify.FirstMatch | extract_pdf_tables.py:189-193 | the loop with `break`: no depth iff no pattern matches, else the depth of the first matching pattern |
| Classify.PatternsExclusive | extract_pdf_tables.py:181-187 | at most one of the five list patterns matches any text |
| Classify.IndentBonusIsDead | extract_pdf_tables.py:196-198 | a text that matches a list pattern has no leading whitespace |
| Classify.HeadingLevel | extract_pdf_tables.py:159-175 | a heading rule applies only below 100 characters, and gives level 1 or 2 |
| Classify.ListDepth | extract_pdf_tables.py:178-198 | a text matching a list pattern gets exactly that pattern's depth: the indentation bonus never applies to it |
| Classify.Classify | extract_pdf_tables.py:159-209 | never a table marker; a heading exactly when a heading rule applies, at that rule's level (the rest is `ClassifyShape`) |
| Classify.ClassifyShape | extract_pdf_tables.py:159-209 | heading iff a heading rule applies (only below 100 characters, level 1 or 2); list item iff no heading rule applies and a pattern matches (level 1 or 2); paragraphs have level 0; never a table marker |
| Classify.NumberedShortTextIsHeading | extract_pdf_tables.py:163-167 | `"1. Introduction"` is a heading of level 2 |
| Classify.NumberedLongTextIsListItem | extract_pdf_tables.py:163-206 | a numbered text of 100 characters or more is a list item of depth 1 |
| Classify.IndentedDashIsParagraph | extract_pdf_tables.py:183-209 | `"     - item"` is a paragraph of level 0 |
| Confidence.FilledIsNonEmptyStrip | extract_pdf_tables.py:275 | a cell counts as filled iff it is present, non-empty and non-blank after `strip` |
| Confidence.TotalCells | extract_pdf_tables.py:274 | `sum(len(row))` is zero exactly when every row is empty |
| Confidence.RowFilled | extract_pdf_tables.py:275 | a row's filled count is at most its length, and equal to it iff every cell is filled |
| Confidence.FilledCells | extract_pdf_tables.py:274-275 | the filled cells are at most all cells, and all of them iff every cell is filled |
| Confidence.RowsOfLength | extract_pdf_tables.py:284-287 | `col_counts.count(len)`: at most the number of rows, and all of them iff every row has that length |
| Confidence.ModeCount | extract_pdf_tables.py:286-287 | the count of the modal length is the count of some row's length and at least every row length's count |
| Confidence.Confidence | extract_pdf_tables.py:268-292 | the unrounded score lies between 0 and 100 |
| Confidence.ModeChoiceIrrelevant | extract_pdf_tables.py:286 | whichever most common length `max(set(...))` picks, the consistency is the same |
| Confidence.FullScoreIffRectangularAndFilled | extract_pdf_tables.py:270-292 | the unrounded score is exactly 100 iff the table has cells, every cell is filled and all rows have the same length |
| Confidence.WorkedExample | extract_pdf_tables.py:270-292 | `[["a","b"],["","d"],["e","f","g"]]` scores 1640/21 (fill 6/7, consistency 2/3) |
| Confidence.Round2 | extract_pdf_tables.py:293 | `round(x, 2)`: a whole number of hundredths, at most half a hundredth from `x` |
| Confidence.Round2Monotone | extract_pdf_tables.py:293 | rounding never reverses an order between two scores |
| Confidence.Round2Fixed | extract_pdf_tables.py:293 | a whole number of hundredths rounds to itself |
| Confidence.Score | extract_pdf_tables.py:268-293 | the stored confidence: within 0..100 and at most half a hundredth from the unrounded score |
| Confidence.NearHundredRoundsUp | extract_pdf_tables.py:293 | any score above 99.995 and below 100 is stored as 100 |
| Confidence.FullTableScoresHundred | extract_pdf_tables.py:270-293 | a table with cells, all filled, whose rows all have one length is stored with score 100 |
| Confidence.StoredHundredNotFull | extract_pdf_tables.py:270-293 | the converse fails for the stored score: `n >= 8000` filled one-cell rows and one filled two-cell row score below 100 unrounded but are stored as 100 |
| Confidence.WorkedExampleScore | extract_pdf_tables.py:268-293 | the worked example is stored as 78.1 |
| Grouping.MembersNonEmpty | extract_pdf_tables.py:301-305 | a key's group is non-empty iff some element has that key |
| Grouping.MembersAreElements | extract_pdf_tables.py:301-305 | every group member is an element of the list |
| Grouping.MemberOf | extract_pdf_tables.py:301-305 | every element lands in its own key's group |
| Grouping.KeysInOrder | extract_pdf_tables.py:301-305 | the dict's keys are distinct and each has a non-empty group |
| Grouping.KeysInOrderHas | extract_pdf_tables.py:301-305 | a key is in the dict iff some element has it |
| Grouping.KeysInFirstAppearanceOrder | extract_pdf_tables.py:301-310 | the i-th key first appears after only elements whose keys come before it: insertion order |
| Grouping.GroupBy | extract_pdf_tables.py:301-305 | the grouping loop builds exactly the keys in first-appearance order and, per key, its elements in order |
| Grouping.FirstMaxIndex | extract_pdf_tables.py:324-329 | `max(key=)` picks an element of maximal score, and the first such |
| Grouping.Max | extract_pdf_tables.py:324-329 | the maximum is an element and no element scores higher |
| CrossValidation.SourceBests | extract_pdf_tables.py:315-325 | one best table per source, in order of the source's first appearance, each a candidate of that source |
| CrossValidation.PageWinner | extract_pdf_tables.py:311-330 | a page's table: its only candidate, or the first top table of the first source reaching the top confidence; `WinnerIsBest` and `WinnerTieBreak` prove it |
| CrossValidation.WinnerIsBest | extract_pdf_tables.py:311-330 | the page's winner is one of its candidates and no candidate has a higher confidence |
| CrossValidation.WinnerTieBreak | extract_pdf_tables.py:322-329 | on a disputed page, the winner is decided by the first source reaching the top confidence, and within it by that source's first top candidate |
| CrossValidation.TieBreakExample | extract_pdf_tables.py:322-329 | on `[A:50, B:90, A:90]` the winner is the second A table, although a single first-maximum would pick B |
| CrossValidation.CrossValidatedShape | extract_pdf_tables.py:301-339 | exactly one table per page that had a candidate, in order of first appearance; each is a candidate of its page, none of its page's candidates is more confident, and a single candidate is kept whatever its confidence |
| CrossValidation.PageResult | extract_pdf_tables.py:310-330 | the result for a page is a table of that page, at least as confident as all of them |
| CrossValidation.CrossValidated | extract_pdf_tables.py:301-339 | the new `tables`: one `PageWinner` per page, pages in order of first appearance; `CrossValidatedShape` proves it |
| CrossValidation.ReportLines | extract_pdf_tables.py:308-336 | one selection line per page with more than one candidate, in page order; `ReportLinesExact` proves it |
| CrossValidation.DisputedPages | extract_pdf_tables.py:311-313 | a page is disputed iff it has more than one candidate; no page is listed twice |
| CrossValidation.ReportLinesAreSelected | extract_pdf_tables.py:333-336 | one report line per disputed page, in page order, each naming that page's selection |
| CrossValidation.ReportLinesExact | extract_pdf_tables.py:311-336 | every report line names a disputed page with its winner's source and confidence; every disputed page has a line; no page has two |
| CrossValidation.OnePageKept | extract_pdf_tables.py:310-330 | when all candidates share a page, the result is that page's winner alone |
| CrossValidation.OnePageReport | extract_pdf_tables.py:311-336 | when all candidates share a page, there is one report line iff there are several candidates |
| CrossValidation.OnePageSelected | extract_pdf_tables.py:328-336 | several candidates on one page give exactly the line with the winner's source and confidence |
| CrossValidation.TwoSourcesWinner | extract_pdf_tables.py:322-329 | two tables of one page from two sources: the more confident wins, and a tie goes to the first |
| CrossValidation.TwoBackendExample | extract_pdf_tables.py:301-339 | a layout table of 70 and a stream table of 85 on page 1 leave the stream table and the line "page 1: camelot_stream, 85" |
| Pipeline.AddedBlocks | extract_pdf_tables.py:153-217 | `_add_text_block` appends nothing for an empty text, otherwise one block of that text and page that is not a table marker |
| Pipeline.LayoutTables | extract_pdf_tables.py:91-99 | a page's admitted layout tables, in order, each scored; `MarkersMatchTables` and `DocTablesMarked` prove what they hold |
| Pipeline.Markers | extract_pdf_tables.py:101-106 | the marker blocks beside them, numbered by the raw table's 1-based position; `MarkersMatchTables` pairs them |
| Pipeline.DocBlocks | extract_pdf_tables.py:85-106 | every page's paragraph blocks followed by its markers, pages numbered from 1; `DocBlocksSorted` proves the page order |
| Pipeline.ParagraphBlocksExact | extract_pdf_tables.py:129-151 | a page's text yields one block per paragraph, in order, each the paragraph classified on that page |
| Pipeline.MarkersMatchTables | extract_pdf_tables.py:91-106 | a page's admitted tables and its marker blocks correspond one to one, in order: each pair comes from one raw table of two rows or more, and the marker carries that table's 1-based position among all raw tables |
| Pipeline.MarkersOnPage | extract_pdf_tables.py:102-106 | every marker block lies on its page |
| Pipeline.DocBlocksSorted | extract_pdf_tables.py:85-106 | the blocks' page numbers never decrease and never exceed the page count |
| Pipeline.DocTablesMarked | extract_pdf_tables.py:85-106 | every layout table has at least two rows, source pdfplumber, its computed confidence, and a marker block of its page |
| Pipeline.CamelotAdmitted | extract_pdf_tables.py:234-261 | every admitted table is the record, under the run's source, of a run table with more than one row |
| Pipeline.AdmittedIndices | extract_pdf_tables.py:234-235 | the positions of a run's tables with more than one row, increasing, and all of them |
| Pipeline.CamelotAdmittedSelects | extract_pdf_tables.py:234-261 | the admitted tables are an order-preserving selection: the k-th is the record of the run table at the k-th admitted position |
| Pipeline.CamelotAdmittedKeeps | extract_pdf_tables.py:234-261 | every camelot table of two rows or more is admitted with its page, rows and accuracy |
| Pipeline.CamelotTables | extract_pdf_tables.py:224-266 | after a stream failure no camelot table; otherwise only tables of two rows or more, from the camelot sources; `CamelotFailures` and `CamelotBothSucceed` give each case's tables |
| Pipeline.CamelotReport | extract_pdf_tables.py:265-266 | at most one line, present exactly when the stream run failed, and an error line |
| Pipeline.CamelotFailures | extract_pdf_tables.py:224-266 | a lattice failure is swallowed and keeps the stream tables; a stream failure keeps no camelot table and leaves exactly one error line |
| Pipeline.CamelotBothSucceed | extract_pdf_tables.py:224-263 | when both runs succeed: the stream run's tables with more than one row in run order, then the lattice run's, and no report line |
| Pipeline.RoundingDecidesTie | extract_pdf_tables.py:293-329 | the worked-example layout table scores below a stream accuracy of 78.1 unrounded, but its stored 78.1 ties it, so the layout table is kept and reported |
| Pipeline.SectionsInOrder | extract_pdf_tables.py:366-446 | for blocks sorted by page, the Markdown headers and HTML divisions name the same pages, in strictly increasing order |
| Pipeline.LayoutTablesInJson | extract_pdf_tables.py:526-532 | every surviving layout table is in the JSON entry of its page, because its marker block gives that page an entry |
| Pipeline.PipelineOutputs | extract_pdf_tables.py:59-72 | on the extractor's own output, page sections are one per page in increasing order in both Markdown and HTML, and every surviving layout table reaches the JSON record |
| Render.ParseMarkerText | extract_pdf_tables.py:383-386 | every marker the extractor writes parses back to its page and ordinal |
| Render.ParseMarker | extract_pdf_tables.py:383-386 | the page and ordinal of `[TABLE_p_i]` at the start of a text; `ParseMarkerText` proves the extractor's markers parse back |
| Render.FirstTableOn | extract_pdf_tables.py:389-401 | the loop with `break`: none iff no table is on the page, else the first table on it |
| Render.SectionsOfSortedBlocks | extract_pdf_tables.py:366-372 | for blocks sorted by page, section pages strictly increase, are exactly the blocks' pages, and the last is the last block's page |
| Render.SectionsCover | extract_pdf_tables.py:370-372 | a page starts a section iff some block lies on it |
| Render.MarkdownSections | extract_pdf_tables.py:366-403 | the Markdown page headers are exactly the section starts: one whenever a block's page differs from the previous one, starting from 0 |
| Render.NoHeadersInBlock | extract_pdf_tables.py:375-403 | a block's own lines never hold a page header |
| Render.BlockMd | extract_pdf_tables.py:375-403 | one block's Markdown by kind; `NoHeadersInBlock` and `MarkerShowsFirstTableOfPage` prove it |
| Render.MarkdownOf | extract_pdf_tables.py:363-403 | the Markdown lines; `MarkdownSections` proves that the page headers are the section starts |
| Render.MarkerOrdinalIgnored | extract_pdf_tables.py:383-401 | two markers of one page differing only in ordinal render the same table; only the title differs |
| Render.MarkerShowsFirstTableOfPage | extract_pdf_tables.py:381-401 | a marker renders nothing iff no validated table is on its page; otherwise the first such table, with its header row, body (or the header again when alone) and info line |
| Render.HeadingTag | extract_pdf_tables.py:450 | `h{min(level + 2, 6)}`: `h3` for level 1, `h4` for level 2, `h6` from level 4 |
| Render.DivisionsAppend | extract_pdf_tables.py:440-491 | division opens and closes, and the opened pages, of concatenated lines are those of the parts |
| Render.NoDivisionsInBlock | extract_pdf_tables.py:449-486 | a block's own lines neither open nor close a page division |
| Render.NoDivisionsInTable | extract_pdf_tables.py:466-483 | a table element neither opens nor closes a page division |
| Render.TableHtml | extract_pdf_tables.py:466-483 | a table element: header row, then the other rows as body; `NoDivisionsInTable` proves it opens no division |
| Render.BlockHtml | extract_pdf_tables.py:449-486 | one block's HTML by kind; `NoDivisionsInBlock` proves it opens no division |
| Render.HtmlOf | extract_pdf_tables.py:410-491 | the HTML document; `HtmlBalanced` proves its divisions alternate, one per section |
| Render.HtmlBodyOpens | extract_pdf_tables.py:438-446 | the HTML page divisions open exactly at the section starts |
| Render.HtmlBodyDivisions | extract_pdf_tables.py:440-446 | in the loop's output every division is closed before the next opens; only the last stays open |
| Render.HtmlBalanced | extract_pdf_tables.py:438-491 | the document opens and closes its page divisions in strict alternation, one pair per section, and opens exactly the section starts |
| Render.SeparatorDivisions | extract_pdf_tables.py:442-446 | a page change closes the open division (if any page was open) and opens one for the new page |
| Render.SectionsAreNonEmpty | extract_pdf_tables.py:442 | blocks on pages from 1 always open at least one section |
| Export.MaxPage | extract_pdf_tables.py:502 | `total_pages` is 0 iff there are no blocks, else the largest block page |
| Export.JsonOf | extract_pdf_tables.py:498-534 | the JSON record; `JsonEntries`, `JsonPages`, `JsonBlocksOfPages`, `JsonKeepsTable` and `JsonTableBelongs` prove its content |
| Export.JsonBlocks | extract_pdf_tables.py:518-523 | a page's `blocks` omit the table markers and keep every other block |
| Export.JsonEntries | extract_pdf_tables.py:509-534 | one content entry per page that owns a block, in order of the page's first block |
| Export.JsonPages | extract_pdf_tables.py:509-534 | entry pages are distinct, each owns a block, and every block's page has an entry |
| Export.JsonBlocksOfPages | extract_pdf_tables.py:509-523 | no entry holds a marker, and every non-marker block is in its page's entry |
| Export.JsonKeepsTable | extract_pdf_tables.py:526-532 | a table whose page owns a block is in that page's entry |
| Export.JsonTableBelongs | extract_pdf_tables.py:526-532 | every table in an entry is a validated table of that page |
| Export.JsonTablesOnBlockPages | extract_pdf_tables.py:500-534 | `total_tables` counts every table and `total_blocks` every block; a table on a page without blocks is in no entry |
| Export.JsonTotalPages | extract_pdf_tables.py:502 | `total_pages` is 0 iff there are no blocks, bounds every block page and is reached by one |
| Export.JsonDropExample | extract_pdf_tables.py:526-532 | a block on page 1 and a table on page 2 give one entry without tables, while `total_tables` is 1 |
| Export.CsvNameInjective | extract_pdf_tables.py:554 | distinct (page, position) pairs get distinct CSV file names |
| Export.CsvNamesDistinct | extract_pdf_tables.py:551-555 | no two exported tables share a CSV file name |
| Export.CsvName | extract_pdf_tables.py:554 | `page{p}_table{idx}.csv`; `CsvNameInjective` proves distinct pairs get distinct names |
| Export.FullSheetName | extract_pdf_tables.py:563 | `Page{p}_T{idx}` before truncation; `SheetNameInjective` proves distinct pairs get distinct names |
| Export.SheetName | extract_pdf_tables.py:563 | the sheet name is at most 31 characters, a prefix of `Page{p}_T{idx}`, and all of it when it fits |
| Export.SheetNameInjective | extract_pdf_tables.py:563 | untruncated sheet names of distinct (page, position) pairs differ |
| Export.TableFiles | extract_pdf_tables.py:551-564 | each exported file comes from the table at its 1-based position, which has rows, with the first row as header and the rest as body |
| Export.TableFilesOrdered | extract_pdf_tables.py:551-560 | files come in increasing position order |
| Export.TableFilesCover | extract_pdf_tables.py:551-564 | every table with rows is exported |
| Export.SheetsMatchCsv | extract_pdf_tables.py:551-564 | the workbook holds the same tables as the CSV files, position for position, each sheet name within 31 characters |
| Extractor.PdfExtractor.constructor | extract_pdf_tables.py:49-57 | the extractor starts with empty blocks, tables and report |
| Extractor.PdfExtractor.ExtractAll | extract_pdf_tables.py:59-72 | the whole run: blocks are the document's blocks; tables are the cross-validated candidates of all backends; the report is the camelot error line (if any) followed by the selection lines; the outputs are those of the final state |
| Extractor.PdfExtractor.ExtractWithPdfplumber | extract_pdf_tables.py:78-106 | appends every page's blocks and admitted layout tables, pages in order |
| Extractor.PdfExtractor.ExtractPage | extract_pdf_tables.py:85-106 | one page appends its paragraph blocks then its markers, and its admitted tables |
| Extractor.PdfExtractor.AddPageTables | extract_pdf_tables.py:90-106 | the table loop appends the page's markers and admitted tables |
| Extractor.PdfExtractor.AddPageTable | extract_pdf_tables.py:92-106 | a table of two rows or more appends its scored record and its marker; a smaller one appends nothing |
| Extractor.PdfExtractor.ExtractTextWithLayout | extract_pdf_tables.py:108-151 | appends exactly the page's paragraph blocks |
| Extractor.PdfExtractor.ScanLines | extract_pdf_tables.py:133-151 | the line loop appends one classified block per maximal run of non-blank stripped lines, joined by spaces |
| Extractor.PdfExtractor.ScanLine | extract_pdf_tables.py:137-146 | one line either closes the open paragraph (blank line) or extends it |
| Extractor.PdfExtractor.CloseParagraph | extract_pdf_tables.py:140-151 | closing a paragraph appends its block and empties `current_paragraph` |
| Extractor.PdfExtractor.AddTextBlock | extract_pdf_tables.py:153-217 | appends what `AddedBlocks` describes: nothing for an empty text, else the classified block |
| Extractor.HeadingRules | extract_pdf_tables.py:159-175 | `is_heading` iff a heading rule applies, with that rule's level |
| Extractor.ListRules | extract_pdf_tables.py:178-198 | `is_list` iff some pattern matches; the depth includes the indentation bonus |
| Extractor.PdfExtractor.ExtractTablesWithCamelot | extract_pdf_tables.py:219-266 | appends the admitted camelot tables and, on a stream failure, the error line |
| Extractor.PdfExtractor.AppendCamelot | extract_pdf_tables.py:234-261 | one run's loop appends exactly its admitted tables |
| Extractor.PdfExtractor.CrossValidateTables | extract_pdf_tables.py:295-339 | `tables` becomes the cross-validated list and one selection line per disputed page is appended to the report |
| Extractor.PdfExtractor.ValidatePages | extract_pdf_tables.py:308-336 | the page loop yields the winners in page order and appends the report lines of the pages visited |
| Extractor.PdfExtractor.ValidatePage | extract_pdf_tables.py:311-336 | one page yields its winner, and a report line only when disputed |
| Extractor.BestOfSources | extract_pdf_tables.py:315-330 | the source grouping and two `max` calls yield the page's winner |
| Extractor.SourceMaxima | extract_pdf_tables.py:322-325 | the loop over the sources collects each source's best table, in source order |
| Extractor.PdfExtractor.SaveResults | extract_pdf_tables.py:341-361 | the outputs of the current state; the report file exists iff the report is non-empty |
| Extractor.PdfExtractor.SaveMarkdown | extract_pdf_tables.py:363-404 | the block loop yields the Markdown whose page headers are the section starts |
| Extractor.PdfExtractor.MarkerMdLines | extract_pdf_tables.py:381-401 | a marker's Markdown lines, with the table search loop |
| Extractor.PdfExtractor.FindTable | extract_pdf_tables.py:389-401 | the table search finds the first validated table of the page |
| Extractor.PdfExtractor.SaveHtml | extract_pdf_tables.py:410-491 | the block loop yields the balanced HTML document |
| Extractor.PdfExtractor.MarkerHtmlLines | extract_pdf_tables.py:455-484 | a marker's HTML lines, with the table search loop |
| Extractor.TableHtmlLines | extract_pdf_tables.py:465-483 | the header and body loops yield the table element |
| Extractor.RowCells | extract_pdf_tables.py:470-479 | the cell loop yields one cell element per cell, a missing or empty cell as empty text |
| Extractor.PdfExtractor.SaveJson | extract_pdf_tables.py:498-534 | the two loops yield the JSON record whose properties `Export` proves |
| Extractor.PdfExtractor.JsonPageEntries | extract_pdf_tables.py:509-523 | the block loop creates one entry per block page, in first-appearance order, holding that page's non-marker blocks |
| Extractor.PdfExtractor.AddJsonTables | extract_pdf_tables.py:526-532 | the table loop attaches each page's tables to existing entries only |
| Extractor.PdfExtractor.SaveTables | extract_pdf_tables.py:542-564 | the CSV files and the sheets are the tables with rows, by 1-based position |
| Extractor.PdfExtractor.ExportLoop | extract_pdf_tables.py:551-564 | one export loop yields exactly the files of the tables with rows |

## Left out

- pdfplumber, camelot, tabulate, pandas/openpyxl and `json.dump` are foreign libraries. Their
  results are inputs (`PdfPage`, `CamelotTable`). Their outputs are kept structural: a
  `Grid` line for a tabulate table, a `TableFile` for a data frame.
- Files, `mkdir`, `print`, the tqdm progress bar, the file-size line and `main` are I/O. The
  report file is modelled as present or absent together with its lines.
- The font-size averaging in `_extract_text_with_layout` is floating-point work whose result
  is never used by `_add_text_block`.
- The `bbox` and `metadata` fields are never set by the extractor.
- Confidence.Score: rounding is to the nearest hundredth, ties to even, on the exact real
  score. A binary float can sit just off an exact half and round the other way; that is
  not modelled. The `:.1f` formatting of the report, Markdown and HTML is not modelled.
- CrossValidation.ReportLines: a report line records the page, source and confidence; the
  Korean text and the one-decimal formatting around them are not modelled.
- TextUtil.IsSpace follows Python's `isspace` exactly. `\d`, `isupper` and `lower` are
  ASCII-limited: non-ASCII decimal digits and cased letters are not modelled. The keywords
  are Hangul, which `lower` leaves unchanged.
- A camelot run is all-or-nothing (`Result`): an exception raised midway through a run's
  loop, after some tables were appended, is not modelled.
- An exception from pdfplumber itself (an unreadable file) is not modelled; it would end
  the run.
- Export.TableFiles: the data frame's handling of ragged rows is not modelled. Body rows
  shorter than the header are padded, and the constructor raises when the longest body row
  is not as long as the header.
- Export.SheetNameInjective: only untruncated names are proved distinct. Two names that
  agree in their first 31 characters would clash in the workbook.
- The HTML and JSON byte serialization is kept structural.
