/** The extractor object (`PDFExtractor`): the lists `text_blocks`, `tables` and
    `comparison_report` that its steps fill in place, and the steps themselves, each proved to
    leave exactly what the corresponding function of the `Pipeline`, `CrossValidation`,
    `Render` and `Export` modules describes. The two PDF libraries are replaced by their
    results, passed in as values. */
module Extractor {
  import opened TextUtil
  import opened Model
  import opened Segment
  import opened Classify
  import Confidence
  import opened Grouping
  import opened CrossValidation
  import opened Render
  import opened Export
  import opened Pipeline

  /** Everything `_save_results` writes: the Markdown and HTML lines, the JSON record, the CSV
      files and workbook sheets, and the report file when there is a report. */
  datatype Outputs = Outputs(markdown: seq<MdLine>, html: seq<HtmlLine>, json: JsonDoc,
                             csvFiles: seq<TableFile>, sheets: seq<TableFile>,
                             reportFile: Option<seq<ReportLine>>)

  /** The outputs for a given state of the extractor. */
  function OutputsOf(pdfFile: string, blocks: seq<TextBlock>, ts: seq<TableData>,
                     report: seq<ReportLine>): Outputs {
    Outputs(MarkdownOf(blocks, ts), HtmlOf(blocks, ts), JsonOf(pdfFile, blocks, ts),
            TableFiles(Csv, ts), TableFiles(Sheet, ts), if report == [] then None else Some(report))
  }

  class PdfExtractor {
    var pdfFile: string
    var textBlocks: seq<TextBlock>
    var tables: seq<TableData>
    var report: seq<ReportLine>

    constructor (pdfFile: string)
      ensures this.pdfFile == pdfFile && textBlocks == [] && tables == [] && report == []
    {
      this.pdfFile := pdfFile;
      textBlocks := [];
      tables := [];
      report := [];
    }

    /** `extract_all`: the layout pass, the camelot pass, cross-validation, then the outputs. */
    method ExtractAll(pages: seq<PdfPage>, stream: Result<seq<CamelotTable>, string>,
                      lattice: Result<seq<CamelotTable>, string>) returns (out: Outputs)
      modifies this`textBlocks, this`tables, this`report
      ensures textBlocks == old(textBlocks) + DocBlocks(pages)
      ensures tables == CrossValidated(old(tables) + AllCandidates(pages, stream, lattice))
      ensures report == old(report) + CamelotReport(stream)
        + ReportLines(old(tables) + AllCandidates(pages, stream, lattice))
      ensures out == OutputsOf(pdfFile, textBlocks, tables, report)
    {
      ghost var tables0, report0 := tables, report;
      ghost var all := tables0 + AllCandidates(pages, stream, lattice);
      ExtractWithPdfplumber(pages);
      ExtractTablesWithCamelot(stream, lattice);
      Associative(tables0, DocTables(pages), CamelotTables(stream, lattice));
      assert tables == all;
      CrossValidateTables();
      Associative(report0, CamelotReport(stream), ReportLines(all));
      out := SaveResults();
    }

    /** `_extract_with_pdfplumber`: page by page, numbered from 1, the page's paragraphs,
        then its tables. */
    method ExtractWithPdfplumber(pages: seq<PdfPage>)
      modifies this`textBlocks, this`tables
      ensures textBlocks == old(textBlocks) + DocBlocks(pages)
      ensures tables == old(tables) + DocTables(pages)
    {
      ghost var tables0, blocks0 := tables, textBlocks;
      var i := 0;
      while i < |pages|
        invariant 0 <= i <= |pages|
        invariant textBlocks == blocks0 + DocBlocks(pages[..i])
        invariant tables == tables0 + DocTables(pages[..i])
      {
        ExtractPage(pages[i], i + 1);
        DocStep(pages, i);
        Associative(blocks0, DocBlocks(pages[..i]), PageBlocks(pages[i], i + 1));
        Associative(tables0, DocTables(pages[..i]), LayoutTables(pages[i].tables, i + 1));
        i := i + 1;
      }
      assert pages[..i] == pages;
    }

    /** One iteration of the page loop: the page's text, then its tables. */
    method ExtractPage(pg: PdfPage, pageNum: PageNum)
      modifies this`textBlocks, this`tables
      ensures textBlocks == old(textBlocks) + PageBlocks(pg, pageNum)
      ensures tables == old(tables) + LayoutTables(pg.tables, pageNum)
    {
      ExtractTextWithLayout(pg.text, pageNum);
      AddPageTables(pg.tables, pageNum);
      Associative(old(textBlocks), ParagraphBlocks(pg.text, pageNum), Markers(pg.tables, pageNum));
    }

    /** The loop over the tables of one page: every table with more than one row is appended
        with its score, and a marker carrying its position among the page's tables, counted
        from 1, is appended to the blocks. */
    method AddPageTables(raw: seq<Rows>, pageNum: PageNum)
      modifies this`textBlocks, this`tables
      ensures textBlocks == old(textBlocks) + Markers(raw, pageNum)
      ensures tables == old(tables) + LayoutTables(raw, pageNum)
    {
      ghost var tables0, blocks0 := tables, textBlocks;
      var idx := 0;
      while idx < |raw|
        invariant 0 <= idx <= |raw|
        invariant textBlocks == blocks0 + Markers(raw[..idx], pageNum)
        invariant tables == tables0 + LayoutTables(raw[..idx], pageNum)
      {
        PageTablesGrow(raw, idx, pageNum);
        var table := raw[idx];
        AddPageTable(table, pageNum, idx + 1);
        Associative(blocks0, Markers(raw[..idx], pageNum),
                    if |table| > 1 then [MarkerBlock(pageNum, idx + 1)] else []);
        Associative(tables0, LayoutTables(raw[..idx], pageNum),
                    if |table| > 1 then [TableData(table, pageNum, Pdfplumber, Confidence.Score(table))] else []);
        idx := idx + 1;
      }
      assert raw[..idx] == raw;
    }

    /** One iteration of the table loop: a table with more than one row is appended with its
        score, and its marker, numbered `ordinal`, to the blocks. */
    method AddPageTable(table: Rows, pageNum: PageNum, ordinal: nat)
      modifies this`textBlocks, this`tables
      ensures textBlocks == old(textBlocks) + (if |table| > 1 then [MarkerBlock(pageNum, ordinal)] else [])
      ensures tables == old(tables)
        + (if |table| > 1 then [TableData(table, pageNum, Pdfplumber, Confidence.Score(table))] else [])
    {
      if |table| > 1 {
        tables := tables + [TableData(table, pageNum, Pdfplumber, Confidence.Score(table))];
        textBlocks := textBlocks + [MarkerBlock(pageNum, ordinal)];
      }
    }

    /** `_extract_text_with_layout`: the page's lines, stripped; a blank line closes the open
        paragraph, whose lines are joined with spaces and added as a block; the paragraph
        still open after the last line is added too. The loop follows the `ScanFrom` fold
        (the paragraphs already closed are ghost). */
    method ExtractTextWithLayout(text: Option<string>, page: PageNum)
      modifies this`textBlocks
      ensures textBlocks == old(textBlocks) + ParagraphBlocks(text, page)
    {
      if text.None? || text.value == "" {
        return;
      }
      var lines := Split(text.value, '\n');
      ScanLines(lines, StrippedLines(text.value), page);
    }

    /** The line loop of `_extract_text_with_layout` over the page's lines, whose stripped
        forms are `ls`; it follows the `ScanFrom` fold (the paragraphs already closed are
        ghost). */
    method ScanLines(lines: seq<string>, ghost ls: seq<string>, page: PageNum)
      requires |ls| == |lines|
      requires forall i :: 0 <= i < |ls| ==> ls[i] == Strip(lines[i])
      modifies this`textBlocks
      ensures textBlocks == old(textBlocks) + TextBlocksOf(JoinedRuns(Runs(ls)), page)
    {
      ghost var blocks0 := textBlocks;
      ghost var whole := ScanFrom(ScanState([], []), ls);
      var current: seq<string> := [];
      ghost var closed: seq<seq<string>> := [];
      var n := 0;
      while n < |lines|
        invariant 0 <= n <= |lines|
        invariant ScanFrom(ScanState(closed, current), ls[n..]) == whole
        invariant textBlocks == blocks0 + TextBlocksOf(JoinedRuns(closed), page)
      {
        ghost var st := ScanState(closed, current);
        current, closed := ScanLine(lines[n], current, closed, page, blocks0);
        ScanAdvance(st, ScanState(closed, current), ls, n, whole);
        n := n + 1;
      }
      ScanDone(closed, current, ls, n, whole);
      if current != [] {
        current, closed := CloseParagraph(current, closed, page, blocks0);
      }
    }

    /** One iteration of the line loop: a blank line closes the open paragraph, if any, and
        adds its block; any other line joins the open paragraph. */
    method ScanLine(line: string, current: seq<string>, ghost closed: seq<seq<string>>,
                    page: PageNum, ghost blocks0: seq<TextBlock>)
      returns (current': seq<string>, ghost closed': seq<seq<string>>)
      requires textBlocks == blocks0 + TextBlocksOf(JoinedRuns(closed), page)
      modifies this`textBlocks
      ensures ScanState(closed', current') == Step(ScanState(closed, current), Strip(line))
      ensures textBlocks == blocks0 + TextBlocksOf(JoinedRuns(closed'), page)
    {
      var stripped := Strip(line);
      if stripped == "" {
        if current != [] {
          current', closed' := CloseParagraph(current, closed, page, blocks0);
        } else {
          current', closed' := current, closed;
        }
      } else {
        current', closed' := current + [stripped], closed;
      }
    }

    /** `self._add_text_block(' '.join(current_paragraph), ...)` followed by emptying the
        open paragraph. */
    method CloseParagraph(current: seq<string>, ghost closed: seq<seq<string>>,
                          page: PageNum, ghost blocks0: seq<TextBlock>)
      returns (current': seq<string>, ghost closed': seq<seq<string>>)
      requires textBlocks == blocks0 + TextBlocksOf(JoinedRuns(closed), page)
      modifies this`textBlocks
      ensures current' == [] && closed' == closed + [current]
      ensures textBlocks == blocks0 + TextBlocksOf(JoinedRuns(closed'), page)
    {
      AddTextBlock(Join(current, " "), page);
      ClosedStep(closed, current, page);
      Associative(blocks0, TextBlocksOf(JoinedRuns(closed), page), AddedBlocks(Join(current, " "), page));
      current', closed' := [], closed + [current];
    }

    /** `_add_text_block`: nothing for an empty text; otherwise a heading if the heading rules
        say so, else a list item if a list pattern matches, else a paragraph. */
    method AddTextBlock(text: string, page: PageNum)
      modifies this`textBlocks
      ensures textBlocks == old(textBlocks) + AddedBlocks(text, page)
    {
      if text == "" {
        return;
      }
      var isHeading, headingLevel := HeadingRules(text);
      var isList, listDepth := ListRules(text);
      var kind, level;
      if isHeading {
        kind, level := Heading, headingLevel;
      } else if isList {
        kind, level := ListItem, listDepth;
      } else {
        kind, level := Paragraph, 0;
      }
      textBlocks := textBlocks + [TextBlock(text, kind, level, page)];
    }

    /** `_extract_tables_with_camelot`: a failed stream run leaves only a report line and skips
        the lattice run; a failed lattice run is ignored. */
    method ExtractTablesWithCamelot(stream: Result<seq<CamelotTable>, string>,
                                    lattice: Result<seq<CamelotTable>, string>)
      modifies this`tables, this`report
      ensures tables == old(tables) + CamelotTables(stream, lattice)
      ensures report == old(report) + CamelotReport(stream)
    {
      match stream
      case Failure(e) =>
        report := report + [CamelotError("Camelot 오류: " + e)];
      case Success(s) =>
        AppendCamelot(s, CamelotStream);
        if lattice.Success? {
          AppendCamelot(lattice.value, CamelotLattice);
        }
    }

    /** The loop over one camelot run: every table with more than one row is appended. */
    method AppendCamelot(run: seq<CamelotTable>, src: Source)
      modifies this`tables
      ensures tables == old(tables) + CamelotAdmitted(run, src)
    {
      ghost var tables0 := tables;
      var k := 0;
      while k < |run|
        invariant 0 <= k <= |run|
        invariant tables == tables0 + CamelotAdmitted(run[..k], src)
      {
        var c := run[k];
        assert run[..k + 1][..k] == run[..k] && run[..k + 1][k] == c;
        if |c.rows| > 1 {
          tables := tables + [TableData(c.rows, c.page, src, c.accuracy)];
        }
        k := k + 1;
      }
      assert run[..k] == run;
    }

    /** `_cross_validate_tables`: the tables grouped by page; a page with one table keeps it;
        on any other page the best table of every source is found, the best of those is kept
        and a report line records it. */
    method CrossValidateTables()
      modifies this`tables, this`report
      ensures tables == CrossValidated(old(tables))
      ensures report == old(report) + ReportLines(old(tables))
    {
      var ts := tables;
      var order, byPage := GroupBy(ts, PageOf);
      ghost var winners := CrossValidated(ts);
      forall i | 0 <= i < |order|
        ensures order[i] in byPage && byPage[order[i]] == Candidates(ts, order[i])
        ensures |Candidates(ts, order[i])| > 0 && winners[i] == PageWinner(Candidates(ts, order[i]))
      {
      }
      var validated := ValidatePages(ts, order, byPage, winners);
      tables := validated;
    }

    /** The page loop of `_cross_validate_tables`, over the pages in first-appearance order,
        each with its candidates and its winner. */
    method ValidatePages(ts: seq<TableData>, order: seq<PageNum>, byPage: map<PageNum, seq<TableData>>,
                         ghost winners: seq<TableData>)
      returns (validated: seq<TableData>)
      requires |order| == |winners|
      requires forall i :: 0 <= i < |order| ==>
        order[i] in byPage && byPage[order[i]] == Candidates(ts, order[i])
      requires forall i :: 0 <= i < |order| ==>
        |Candidates(ts, order[i])| > 0 && winners[i] == PageWinner(Candidates(ts, order[i]))
      modifies this`report
      ensures validated == winners
      ensures report == old(report) + ReportLinesOf(ts, order)
    {
      ghost var report0 := report;
      validated := [];
      var i := 0;
      while i < |order|
        invariant 0 <= i <= |order|
        invariant validated == winners[..i]
        invariant report == report0 + ReportLinesOf(ts, order[..i])
      {
        var p := order[i];
        var winner := ValidatePage(ts, order[..i], p, byPage[p], report0);
        PrefixStep(order, i);
        PrefixStep(winners, i);
        validated := validated + [winner];
        i := i + 1;
      }
      assert order[..i] == order;
      assert winners[..i] == winners;
    }

    /** One page of `_cross_validate_tables`: its only table, or the best of its sources'
        best tables together with the report line that names it. */
    method ValidatePage(ts: seq<TableData>, pages: seq<PageNum>, p: PageNum,
                        pageTables: seq<TableData>, ghost report0: seq<ReportLine>)
      returns (winner: TableData)
      requires pageTables == Candidates(ts, p) && |pageTables| > 0
      requires report == report0 + ReportLinesOf(ts, pages)
      modifies this`report
      ensures winner == PageWinner(Candidates(ts, p))
      ensures report == report0 + ReportLinesOf(ts, pages + [p])
    {
      ReportLinesOfStep(ts, pages, p);
      if |pageTables| == 1 {
        winner := pageTables[0];
        assert winner == PageWinner(pageTables);
      } else {
        winner := BestOfSources(pageTables);
        Associative(report0, ReportLinesOf(ts, pages), [SelectedLine(ts, p)]);
        report := report + [Selected(p, winner.source, winner.confidence)];
      }
    }

    /** `_save_results`: the four writers, then the report file only when there is a report. */
    method SaveResults() returns (out: Outputs)
      ensures out == OutputsOf(pdfFile, textBlocks, tables, report)
    {
      var md := SaveMarkdown();
      var html := SaveHtml();
      var json := SaveJson();
      var csvFiles, sheets := SaveTables();
      var reportFile := if report != [] then Some(report) else None;
      out := Outputs(md, html, json, csvFiles, sheets, reportFile);
    }

    /** `_save_markdown`: a page header whenever the page changes, then the block's lines. */
    method SaveMarkdown() returns (md: seq<MdLine>)
      ensures md == MarkdownOf(textBlocks, tables)
    {
      var blocks := textBlocks;
      md := [];
      var currentPage: nat := 0;
      var n := 0;
      while n < |blocks|
        invariant 0 <= n <= |blocks|
        invariant currentPage == PrevPage(blocks, n)
        invariant md == MarkdownOf(blocks[..n], tables)
      {
        var b := blocks[n];
        MarkdownGrows(blocks, n, tables);
        var header: seq<MdLine> := [];
        if b.page != currentPage {
          currentPage := b.page;
          header := [PageHeader(currentPage)];
        }
        var lines: seq<MdLine>;
        if b.kind.TableMarker? {
          lines := MarkerMdLines(b.text);
        } else {
          lines := BlockMd(b, tables);
        }
        md := md + header + lines;
        n := n + 1;
      }
      assert blocks[..n] == blocks;
    }

    /** The Markdown lines of a table marker: the table is looked up with `FindTable`. */
    method MarkerMdLines(text: string) returns (lines: seq<MdLine>)
      ensures lines == MarkerMd(text, tables)
    {
      lines := [];
      var m := ParseMarker(text);
      if m.Some? {
        var t := FindTable(m.value.0);
        if t.Some? {
          var table := t.value;
          lines := [MdText("\n### 📊 Table " + NatToString(m.value.1) + "\n")];
          if table.data != [] {
            lines := lines + [Grid(table.data[0], if |table.data| > 1 then table.data[1..] else table.data),
                              MdTableInfo(table.source, table.confidence)];
          }
        }
      }
    }

    /** The loop over `tables` that stops at the first table of page `p`. */
    method FindTable(p: nat) returns (r: Option<TableData>)
      ensures r == FirstTableOn(tables, p)
    {
      var ts := tables;
      var k := 0;
      while k < |ts|
        invariant 0 <= k <= |ts|
        invariant forall j :: 0 <= j < k ==> ts[j].page != p
      {
        if ts[k].page == p {
          FirstTableOnIndex(ts, p, k);
          return Some(ts[k]);
        }
        k := k + 1;
      }
      return None;
    }

    /** `_save_html`: on a page change the open page division is closed (if any) and a new one
        opened; then the block's lines; the last division is closed at the end. */
    method SaveHtml() returns (html: seq<HtmlLine>)
      ensures html == HtmlOf(textBlocks, tables)
    {
      var blocks := textBlocks;
      var body: seq<HtmlLine> := [];
      var currentPage: nat := 0;
      var n := 0;
      while n < |blocks|
        invariant 0 <= n <= |blocks|
        invariant currentPage == PrevPage(blocks, n)
        invariant body == HtmlBody(blocks[..n], tables)
      {
        var b := blocks[n];
        HtmlBodyGrows(blocks, n, tables);
        var sep: seq<HtmlLine> := [];
        if b.page != currentPage {
          sep := Separator(currentPage, b.page);
          currentPage := b.page;
        }
        var lines: seq<HtmlLine>;
        if b.kind.TableMarker? {
          lines := MarkerHtmlLines(b.text);
        } else {
          lines := BlockHtml(b, tables);
        }
        body := body + sep + lines;
        n := n + 1;
      }
      assert blocks[..n] == blocks;
      html := [Prologue] + body;
      if currentPage > 0 {
        html := html + [ClosePage];
      }
      html := html + [Epilogue];
    }

    /** The HTML lines of a table marker: the table is looked up with `FindTable`. */
    method MarkerHtmlLines(text: string) returns (lines: seq<HtmlLine>)
      ensures lines == MarkerHtml(text, tables)
    {
      lines := [];
      var m := ParseMarker(text);
      if m.Some? {
        var t := FindTable(m.value.0);
        if t.Some? {
          lines := [HtmlText("<h3>Table " + NatToString(m.value.1) + "</h3>")];
          if t.value.data != [] {
            var table := TableHtmlLines(t.value);
            lines := lines + table;
          }
        }
      }
    }

    /** `_save_json`: the page entries, filled in block order, then the tables added to the
        entries of their pages, listed in the order the pages were first seen. */
    method SaveJson() returns (doc: JsonDoc)
      ensures doc == JsonOf(pdfFile, textBlocks, tables)
    {
      var order, entries := JsonPageEntries();
      entries := AddJsonTables(order, entries);
      var content := seq(|order|, i requires 0 <= i < |order| => entries[order[i]]);
      doc := JsonDoc(pdfFile, MaxPage(textBlocks), |textBlocks|, |tables|, content);
    }

    /** The loop over the blocks: a new entry for every page not seen yet, and every block
        other than a marker added to its page's entry. */
    method JsonPageEntries() returns (order: seq<PageNum>, entries: map<PageNum, JsonPage>)
      ensures order == KeysInOrder(textBlocks, BlockPage)
      ensures forall p :: p in entries <==> p in order
      ensures forall p :: p in entries ==>
        entries[p] == JsonPage(p, JsonBlocks(Members(textBlocks, BlockPage, p)), [])
    {
      var blocks := textBlocks;
      order, entries := [], map[];
      var n := 0;
      while n < |blocks|
        invariant 0 <= n <= |blocks|
        invariant order == KeysInOrder(blocks[..n], BlockPage)
        invariant forall p :: p in entries <==> p in order
        invariant forall p :: p in entries ==>
          entries[p] == JsonPage(p, JsonBlocks(Members(blocks[..n], BlockPage, p)), [])
      {
        PrefixStep(blocks, n);
        order, entries := JsonEntryStep(blocks[..n], blocks[n], order, entries);
        n := n + 1;
      }
      assert blocks[..n] == blocks;
    }

    /** The loop over the tables: each table whose page has an entry is added to it. */
    method AddJsonTables(order: seq<PageNum>, entries: map<PageNum, JsonPage>)
      returns (filled: map<PageNum, JsonPage>)
      requires forall p :: p in entries <==> p in order
      requires forall p :: p in entries ==>
        entries[p] == JsonPage(p, JsonBlocks(Members(textBlocks, BlockPage, p)), [])
      ensures forall p :: p in filled <==> p in order
      ensures forall p :: p in filled ==> filled[p] == JsonPageOf(textBlocks, tables, p)
    {
      var ts := tables;
      filled := entries;
      var k := 0;
      while k < |ts|
        invariant 0 <= k <= |ts|
        invariant forall p :: p in filled <==> p in order
        invariant forall p :: p in filled ==>
          filled[p] == JsonPage(p, JsonBlocks(Members(textBlocks, BlockPage, p)),
                                JsonTables(Members(ts[..k], PageOf, p)))
      {
        PrefixStep(ts, k);
        filled := JsonTableStep(ts[..k], ts[k], order, filled, textBlocks);
        k := k + 1;
      }
      assert ts[..k] == ts;
    }

    /** `_save_tables`: nothing without tables; otherwise the CSV loop, then the workbook
        loop. */
    method SaveTables() returns (csvFiles: seq<TableFile>, sheets: seq<TableFile>)
      ensures csvFiles == TableFiles(Csv, tables) && sheets == TableFiles(Sheet, tables)
    {
      if tables == [] {
        return [], [];
      }
      csvFiles := ExportLoop(Csv);
      sheets := ExportLoop(Sheet);
    }

    /** The loop over the tables, numbered from 1: every table with rows gives a file (or
        sheet) whose header is the first row and whose body is the rest. */
    method ExportLoop(kind: FileKind) returns (files: seq<TableFile>)
      ensures files == TableFiles(kind, tables)
    {
      var ts := tables;
      files := [];
      var i := 0;
      while i < |ts|
        invariant 0 <= i <= |ts|
        invariant files == TableFiles(kind, ts[..i])
      {
        var t := ts[i];
        assert ts[..i + 1][..i] == ts[..i] && ts[..i + 1][i] == t;
        if t.data != [] {
          files := files + [TableFile(i + 1, FileName(kind, t.page, i + 1), t.data[0], t.data[1..])];
        }
        i := i + 1;
      }
      assert ts[..i] == ts;
    }
  }

  /** The heading rules of `_add_text_block`, tried in order below 100 characters: a numbered
      section prefix (level 2), an upper-case text or a short one starting with a capital
      (level 1), a section keyword (level 2). */
  method HeadingRules(text: string) returns (isHeading: bool, level: nat)
    requires text != ""
    ensures isHeading <==> HeadingLevel(text).Some?
    ensures isHeading ==> level == HeadingLevel(text).value
  {
    isHeading, level := false, 0;
    if |text| < 100 {
      if NumberedPrefix(text) {
        isHeading, level := true, 2;
      } else if AllUpper(text) || (IsUpper(text[0]) && |text| < 50) {
        isHeading, level := true, 1;
      } else if HasKeyword(text) {
        isHeading, level := true, 2;
      }
    }
  }

  /** The list rules of `_add_text_block`: the patterns tried in order until the first match,
      then one more level for more than four leading spaces. */
  method ListRules(text: string) returns (isList: bool, depth: nat)
    ensures isList <==> FirstMatch(ListPatterns, text).Some?
    ensures depth == ListDepth(text)
  {
    isList, depth := false, 0;
    var j := 0;
    while j < |ListPatterns|
      invariant 0 <= j <= |ListPatterns|
      invariant FirstMatch(ListPatterns[j..], text) == FirstMatch(ListPatterns, text)
    {
      assert ListPatterns[j..][0] == ListPatterns[j] && ListPatterns[j..][1..] == ListPatterns[j + 1..];
      if ListPatterns[j].Matches(text) {
        isList, depth := true, ListPatterns[j].Depth();
        break;
      }
      j := j + 1;
    }
    var leadingSpaces := |text| - |LStrip(text)|;
    if leadingSpaces > 4 {
      depth := depth + 1;
    }
  }

  /** The branch of `_cross_validate_tables` for a page with several candidates: the best
      table of every source, in first-appearance order, then the best of those. */
  method BestOfSources(pageTables: seq<TableData>) returns (winner: TableData)
    requires |pageTables| > 1
    ensures winner == PageWinner(pageTables)
  {
    var sources, bySource := GroupBy(pageTables, SourceOf);
    ghost var bests := SourceBests(pageTables);
    forall j | 0 <= j < |sources|
      ensures sources[j] in bySource && |bySource[sources[j]]| > 0
      ensures bests[j] == Max(bySource[sources[j]], ConfidenceOf)
    {
    }
    var best := SourceMaxima(sources, bySource, bests);
    KeysInOrderHas(pageTables, SourceOf);
    assert pageTables[0].source in sources;
    winner := Max(best, ConfidenceOf);
  }

  /** The loop of `_cross_validate_tables` that takes, for every source in order, the first of
      its tables with the highest confidence. */
  method SourceMaxima(sources: seq<Source>, bySource: map<Source, seq<TableData>>,
                      ghost bests: seq<TableData>)
    returns (best: seq<TableData>)
    requires |sources| == |bests|
    requires forall j :: 0 <= j < |sources| ==>
      sources[j] in bySource && |bySource[sources[j]]| > 0
    requires forall j :: 0 <= j < |sources| ==> bests[j] == Max(bySource[sources[j]], ConfidenceOf)
    ensures best == bests
  {
    best := [];
    var j := 0;
    while j < |sources|
      invariant 0 <= j <= |sources|
      invariant best == bests[..j]
    {
      var m := Max(bySource[sources[j]], ConfidenceOf);
      PrefixStep(bests, j);
      best := best + [m];
      j := j + 1;
    }
    assert bests[..j] == bests;
  }

  /** One iteration of the block loop of `_save_json`: the block's page gets an entry if it
      has none yet, and the block, unless it is a marker, joins that entry. */
  method JsonEntryStep(bs: seq<TextBlock>, b: TextBlock, order: seq<PageNum>,
                       entries: map<PageNum, JsonPage>)
    returns (order': seq<PageNum>, entries': map<PageNum, JsonPage>)
    requires order == KeysInOrder(bs, BlockPage)
    requires forall p :: p in entries <==> p in order
    requires forall p :: p in entries ==>
      entries[p] == JsonPage(p, JsonBlocks(Members(bs, BlockPage, p)), [])
    ensures order' == KeysInOrder(bs + [b], BlockPage)
    ensures forall p :: p in entries' <==> p in order'
    ensures forall p :: p in entries' ==>
      entries'[p] == JsonPage(p, JsonBlocks(Members(bs + [b], BlockPage, p)), [])
  {
    KeysInOrderSnoc(bs, b, BlockPage);
    var e: JsonPage;
    if b.page !in entries {
      AbsentKeyNoMembers(bs, BlockPage, b.page);
      e := JsonPage(b.page, [], []);
      order' := order + [b.page];
    } else {
      e := entries[b.page];
      order' := order;
    }
    if b.kind != TableMarker {
      e := e.(blocks := e.blocks + [JsonBlockOf(b)]);
    }
    JsonBlocksStep(bs, b, b.page);
    entries' := entries[b.page := e];
    forall p | p in entries' && p != b.page
      ensures entries'[p] == JsonPage(p, JsonBlocks(Members(bs + [b], BlockPage, p)), [])
    {
      MembersSnoc(bs, b, BlockPage, p);
      assert BlockPage(b) != p;
      assert Members(bs + [b], BlockPage, p) == Members(bs, BlockPage, p);
    }
  }

  /** One iteration of the table loop of `_save_json`: the table joins the entry of its page
      when there is one. */
  method JsonTableStep(ts: seq<TableData>, t: TableData, order: seq<PageNum>,
                       filled: map<PageNum, JsonPage>, blocks: seq<TextBlock>)
    returns (filled': map<PageNum, JsonPage>)
    requires forall p :: p in filled <==> p in order
    requires forall p :: p in filled ==>
      filled[p] == JsonPage(p, JsonBlocks(Members(blocks, BlockPage, p)),
                            JsonTables(Members(ts, PageOf, p)))
    ensures forall p :: p in filled' <==> p in order
    ensures forall p :: p in filled' ==>
      filled'[p] == JsonPage(p, JsonBlocks(Members(blocks, BlockPage, p)),
                             JsonTables(Members(ts + [t], PageOf, p)))
  {
    filled' := filled;
    if t.page in filled' {
      var e := filled'[t.page];
      filled' := filled'[t.page := e.(tables := e.tables + [JsonTableOf(t)])];
    }
    forall p | p in filled'
      ensures filled'[p].tables == JsonTables(Members(ts + [t], PageOf, p))
    {
      JsonTablesStep(ts, t, p);
    }
  }

  /** The `<table>` element of a table with rows, with the loops over the header cells, the
      body rows and their cells. */
  method TableHtmlLines(t: TableData) returns (lines: seq<HtmlLine>)
    requires t.data != []
    ensures lines == TableHtml(t)
  {
    var header := RowCells("th", t.data[0]);
    lines := [HtmlText("<table>"), HtmlText("<thead><tr>")] + header + [HtmlText("</tr></thead>")];
    if |t.data| > 1 {
      var body := t.data[1..];
      var rows: seq<HtmlLine> := [];
      var r := 0;
      while r < |body|
        invariant 0 <= r <= |body|
        invariant rows == BodyRowLines(body[..r])
      {
        assert body[..r + 1][..r] == body[..r] && body[..r + 1][r] == body[r];
        var cells := RowCells("td", body[r]);
        rows := rows + [HtmlText("<tr>")] + cells + [HtmlText("</tr>")];
        r := r + 1;
      }
      assert body[..r] == body;
      lines := lines + [HtmlText("<tbody>")] + rows + [HtmlText("</tbody>")];
    }
    lines := lines + [HtmlText("</table>"), HtmlTableInfo(t.source, t.confidence)];
  }

  /** The loop over the cells of one row. */
  method RowCells(tag: string, row: Row) returns (lines: seq<HtmlLine>)
    ensures lines == CellLines(tag, row)
  {
    lines := [];
    var c := 0;
    while c < |row|
      invariant 0 <= c <= |row|
      invariant lines == CellLines(tag, row[..c])
    {
      assert row[..c + 1][..c] == row[..c] && row[..c + 1][c] == row[c];
      lines := lines + [HtmlText("<" + tag + ">" + CellText(row[c]) + "</" + tag + ">")];
      c := c + 1;
    }
    assert row[..c] == row;
  }

  /** The Markdown of one block more: the page header when the page changes, then the
      block's lines. */
  lemma MarkdownGrows(blocks: seq<TextBlock>, n: nat, ts: seq<TableData>)
    requires n < |blocks|
    ensures MarkdownOf(blocks[..n + 1], ts) == MarkdownOf(blocks[..n], ts)
      + (if blocks[n].page != PrevPage(blocks, n) then [PageHeader(blocks[n].page)] else [])
      + BlockMd(blocks[n], ts)
  {
    assert blocks[..n + 1][..n] == blocks[..n] && blocks[..n + 1][n] == blocks[n];
  }

  /** The HTML body of one block more: the page separator when the page changes, then the
      block's lines. */
  lemma HtmlBodyGrows(blocks: seq<TextBlock>, n: nat, ts: seq<TableData>)
    requires n < |blocks|
    ensures HtmlBody(blocks[..n + 1], ts) == HtmlBody(blocks[..n], ts)
      + (if blocks[n].page != PrevPage(blocks, n) then Separator(PrevPage(blocks, n), blocks[n].page) else [])
      + BlockHtml(blocks[n], ts)
  {
    assert blocks[..n + 1][..n] == blocks[..n] && blocks[..n + 1][n] == blocks[n];
  }

  /** The tables and markers of one more table of the page. */
  lemma PageTablesGrow(raw: seq<Rows>, idx: nat, p: PageNum)
    requires idx < |raw|
    ensures LayoutTables(raw[..idx + 1], p) == LayoutTables(raw[..idx], p)
      + (if |raw[idx]| > 1 then [TableData(raw[idx], p, Pdfplumber, Confidence.Score(raw[idx]))] else [])
    ensures Markers(raw[..idx + 1], p) == Markers(raw[..idx], p)
      + (if |raw[idx]| > 1 then [MarkerBlock(p, idx + 1)] else [])
  {
    assert raw[..idx + 1][..idx] == raw[..idx] && raw[..idx + 1][idx] == raw[idx];
  }

  /** One more page adds its blocks and its tables. */
  lemma DocStep(pages: seq<PdfPage>, i: nat)
    requires i < |pages|
    ensures DocBlocks(pages[..i + 1]) == DocBlocks(pages[..i]) + PageBlocks(pages[i], i + 1)
    ensures DocTables(pages[..i + 1]) == DocTables(pages[..i]) + LayoutTables(pages[i].tables, i + 1)
  {
    assert pages[..i + 1][..i] == pages[..i] && pages[..i + 1][i] == pages[i];
  }

  /** One iteration of the scan over the stripped lines keeps the fold's final state. */
  lemma ScanAdvance(st: ScanState, st': ScanState, ls: seq<string>, n: nat, whole: ScanState)
    requires n < |ls|
    requires ScanFrom(st, ls[n..]) == whole
    requires st' == Step(st, ls[n])
    ensures ScanFrom(st', ls[n + 1..]) == whole
  {
    assert ls[n..][0] == ls[n] && ls[n..][1..] == ls[n + 1..];
  }

  /** Once every line is scanned, the closed paragraphs and the one still open are the runs. */
  lemma ScanDone(closed: seq<seq<string>>, current: seq<string>, ls: seq<string>, n: nat, whole: ScanState)
    requires n == |ls|
    requires whole == ScanFrom(ScanState([], []), ls)
    requires ScanFrom(ScanState(closed, current), ls[n..]) == whole
    ensures current == [] ==> closed == Runs(ls)
    ensures current != [] ==> closed + [current] == Runs(ls)
  {
    assert ls[n..] == [];
    ScanFromRuns([], ls);
    if current == [] {
      assert closed + [] == closed;
    }
  }

  /** Closing one more paragraph adds its block. */
  lemma ClosedStep(closed: seq<seq<string>>, current: seq<string>, page: PageNum)
    ensures TextBlocksOf(JoinedRuns(closed + [current]), page)
      == TextBlocksOf(JoinedRuns(closed), page) + AddedBlocks(Join(current, " "), page)
  {
    var a, b := JoinedRuns(closed), JoinedRuns(closed + [current]);
    assert b == a + [Join(current, " ")];
    assert b[..|b| - 1] == a;
  }

  /** The loop that breaks at the first table of page `p` finds what `FirstTableOn` says. */
  lemma FirstTableOnIndex(ts: seq<TableData>, p: nat, k: nat)
    requires k < |ts| && ts[k].page == p
    requires forall j :: 0 <= j < k ==> ts[j].page != p
    ensures FirstTableOn(ts, p) == Some(ts[k])
  {
    var f := FirstTableOn(ts, p);
    var k' :| 0 <= k' < |ts| && ts[k'] == f.value && ts[k'].page == p
      && forall j :: 0 <= j < k' ==> ts[j].page != p;
    assert k' == k;
  }

  /** One more block extends the entry of its page, when it is not a marker. */
  lemma JsonBlocksStep(bs: seq<TextBlock>, b: TextBlock, p: PageNum)
    ensures JsonBlocks(Members(bs + [b], BlockPage, p))
      == JsonBlocks(Members(bs, BlockPage, p))
         + (if b.page == p && b.kind != TableMarker then [JsonBlockOf(b)] else [])
  {
    var ms := Members(bs, BlockPage, p);
    assert (bs + [b])[..|bs|] == bs;
    if b.page == p {
      assert Members(bs + [b], BlockPage, p) == ms + [b];
      assert (ms + [b])[..|ms|] == ms;
    } else {
      assert Members(bs + [b], BlockPage, p) == ms;
    }
  }

  /** One more table extends the entry of its page. */
  lemma JsonTablesStep(ts: seq<TableData>, t: TableData, p: PageNum)
    ensures JsonTables(Members(ts + [t], PageOf, p))
      == JsonTables(Members(ts, PageOf, p)) + (if t.page == p then [JsonTableOf(t)] else [])
  {
    var ms := Members(ts, PageOf, p);
    assert (ts + [t])[..|ts|] == ts;
    if t.page == p {
      assert Members(ts + [t], PageOf, p) == ms + [t];
    } else {
      assert Members(ts + [t], PageOf, p) == ms;
    }
  }
}
