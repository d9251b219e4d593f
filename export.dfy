/** The JSON record (`_save_json`) and the per-table exports (`_save_tables`), structurally:
    the record's fields and page entries, and for every table with rows the CSV file name,
    the spreadsheet sheet name and the header/body split handed to pandas. */
module Export {
  import opened TextUtil
  import opened Model
  import opened Grouping
  import Render
  import CrossValidation

  datatype JsonBlock = JsonBlock(kind: BlockKind, level: nat, text: string)

  datatype JsonTable = JsonTable(source: Source, confidence: real, data: Rows)

  /** One entry of `content`: `page_number`, `blocks`, `tables`. */
  datatype JsonPage = JsonPage(pageNumber: PageNum, blocks: seq<JsonBlock>, tables: seq<JsonTable>)

  /** The record `_save_json` dumps. */
  datatype JsonDoc = JsonDoc(pdfFile: string, totalPages: nat, totalBlocks: nat, totalTables: nat,
                             content: seq<JsonPage>)

  function BlockPage(b: TextBlock): PageNum { b.page }

  /** `max(b.page_num for b in blocks) if blocks else 0`. */
  function MaxPage(blocks: seq<TextBlock>): (m: nat)
    ensures m == 0 <==> blocks == []
    ensures forall i :: 0 <= i < |blocks| ==> blocks[i].page <= m
    ensures blocks != [] ==> exists i :: 0 <= i < |blocks| && blocks[i].page == m
  {
    if blocks == [] then 0
    else
      var front := blocks[..|blocks| - 1];
      var m := MaxPage(front);
      var p := blocks[|blocks| - 1].page;
      assert forall i :: 0 <= i < |front| ==> front[i] == blocks[i];
      if p > m then p else m
  }

  function JsonBlockOf(b: TextBlock): JsonBlock {
    JsonBlock(b.kind, b.level, b.text)
  }

  /** The `blocks` list of a page: its blocks without the table markers, in order. */
  function JsonBlocks(bs: seq<TextBlock>): (js: seq<JsonBlock>)
    ensures |js| <= |bs|
    ensures forall j :: 0 <= j < |js| ==> js[j].kind != TableMarker
    ensures forall i :: 0 <= i < |bs| && bs[i].kind != TableMarker ==> JsonBlockOf(bs[i]) in js
  {
    if bs == [] then []
    else
      var front := bs[..|bs| - 1];
      var b := bs[|bs| - 1];
      assert forall i :: 0 <= i < |front| ==> front[i] == bs[i];
      JsonBlocks(front) + (if b.kind != TableMarker then [JsonBlockOf(b)] else [])
  }

  function JsonTableOf(t: TableData): JsonTable {
    JsonTable(t.source, t.confidence, t.data)
  }

  function JsonTables(ts: seq<TableData>): seq<JsonTable> {
    seq(|ts|, i requires 0 <= i < |ts| => JsonTableOf(ts[i]))
  }

  /** The entry of page `p`: its non-marker blocks and all tables of that page. */
  function JsonPageOf(blocks: seq<TextBlock>, ts: seq<TableData>, p: PageNum): JsonPage {
    JsonPage(p, JsonBlocks(Members(blocks, BlockPage, p)), JsonTables(Members(ts, CrossValidation.PageOf, p)))
  }

  /** The record: one entry per page that owns a block, in order of the page's first block;
      a table joins the entry of its page, so a table on a page without blocks is in no
      entry, though `total_tables` counts it. */
  function JsonOf(pdfFile: string, blocks: seq<TextBlock>, ts: seq<TableData>): JsonDoc {
    var pages := KeysInOrder(blocks, BlockPage);
    JsonDoc(pdfFile, MaxPage(blocks), |blocks|, |ts|,
            seq(|pages|, i requires 0 <= i < |pages| => JsonPageOf(blocks, ts, pages[i])))
  }

  /** The entries follow the page order of the blocks. */
  lemma JsonEntries(pdfFile: string, blocks: seq<TextBlock>, ts: seq<TableData>)
    ensures var c := JsonOf(pdfFile, blocks, ts).content;
      var pages := KeysInOrder(blocks, BlockPage);
      |c| == |pages| && forall i :: 0 <= i < |c| ==> c[i].pageNumber == pages[i]
  {
  }

  /** The entries are the pages that own a block, each once. */
  lemma JsonPages(pdfFile: string, blocks: seq<TextBlock>, ts: seq<TableData>)
    ensures var c := JsonOf(pdfFile, blocks, ts).content;
      && (forall i, j :: 0 <= i < j < |c| ==> c[i].pageNumber != c[j].pageNumber)
      && (forall i :: 0 <= i < |c| ==> exists k :: 0 <= k < |blocks| && blocks[k].page == c[i].pageNumber)
      && (forall k :: 0 <= k < |blocks| ==> exists i :: 0 <= i < |c| && c[i].pageNumber == blocks[k].page)
  {
    var c := JsonOf(pdfFile, blocks, ts).content;
    var pages := KeysInOrder(blocks, BlockPage);
    JsonEntries(pdfFile, blocks, ts);
    JsonPagesFromBlocks(pdfFile, blocks, ts);
    forall k | 0 <= k < |blocks|
      ensures exists i :: 0 <= i < |c| && c[i].pageNumber == blocks[k].page
    {
      var i := PageEntry(blocks, k);
    }
  }

  /** Every entry's page owns a block. */
  lemma JsonPagesFromBlocks(pdfFile: string, blocks: seq<TextBlock>, ts: seq<TableData>)
    ensures var c := JsonOf(pdfFile, blocks, ts).content;
      forall i :: 0 <= i < |c| ==> exists k :: 0 <= k < |blocks| && blocks[k].page == c[i].pageNumber
  {
    var c := JsonOf(pdfFile, blocks, ts).content;
    var pages := KeysInOrder(blocks, BlockPage);
    JsonEntries(pdfFile, blocks, ts);
    KeysInOrderHas(blocks, BlockPage);
    forall i | 0 <= i < |c|
      ensures exists k :: 0 <= k < |blocks| && blocks[k].page == c[i].pageNumber
    {
      assert pages[i] in pages;
      var k :| 0 <= k < |blocks| && BlockPage(blocks[k]) == pages[i];
    }
  }

  /** No entry holds a table marker, and every other block appears in the entry of its page. */
  lemma JsonBlocksOfPages(pdfFile: string, blocks: seq<TextBlock>, ts: seq<TableData>)
    ensures var c := JsonOf(pdfFile, blocks, ts).content;
      && (forall i, j :: 0 <= i < |c| && 0 <= j < |c[i].blocks| ==> c[i].blocks[j].kind != TableMarker)
      && (forall k :: 0 <= k < |blocks| && blocks[k].kind != TableMarker ==>
            exists i :: 0 <= i < |c| && c[i].pageNumber == blocks[k].page && JsonBlockOf(blocks[k]) in c[i].blocks)
  {
    var c := JsonOf(pdfFile, blocks, ts).content;
    forall k | 0 <= k < |blocks| && blocks[k].kind != TableMarker
      ensures exists i :: 0 <= i < |c| && c[i].pageNumber == blocks[k].page && JsonBlockOf(blocks[k]) in c[i].blocks
    {
      var i := PageEntry(blocks, k);
      assert c[i] == JsonPageOf(blocks, ts, blocks[k].page);
      BlockInItsEntry(blocks, k);
    }
  }

  /** The position in the entry order of the page of block `k`. */
  lemma PageEntry(blocks: seq<TextBlock>, k: nat) returns (i: nat)
    requires k < |blocks|
    ensures var pages := KeysInOrder(blocks, BlockPage);
      i < |pages| && pages[i] == blocks[k].page
  {
    var pages := KeysInOrder(blocks, BlockPage);
    assert BlockPage(blocks[k]) == blocks[k].page;
    KeysInOrderHas(blocks, BlockPage);
    assert blocks[k].page in pages;
    i :| 0 <= i < |pages| && pages[i] == blocks[k].page;
  }

  /** A block that is not a marker is among the JSON blocks of its page. */
  lemma BlockInItsEntry(blocks: seq<TextBlock>, k: nat)
    requires k < |blocks|
    ensures blocks[k].kind != TableMarker ==>
      JsonBlockOf(blocks[k]) in JsonBlocks(Members(blocks, BlockPage, blocks[k].page))
  {
    assert BlockPage(blocks[k]) == blocks[k].page;
    MemberOf(blocks, BlockPage, k);
  }

  /** A table whose page owns a block is in that page's entry. */
  lemma JsonKeepsTable(pdfFile: string, blocks: seq<TextBlock>, ts: seq<TableData>, k: nat, b: nat)
    requires k < |ts| && b < |blocks| && blocks[b].page == ts[k].page
    ensures var c := JsonOf(pdfFile, blocks, ts).content;
      exists i :: 0 <= i < |c| && c[i].pageNumber == ts[k].page && JsonTableOf(ts[k]) in c[i].tables
  {
    var c := JsonOf(pdfFile, blocks, ts).content;
    var i := PageEntry(blocks, b);
    assert c[i] == JsonPageOf(blocks, ts, ts[k].page);
    assert CrossValidation.PageOf(ts[k]) == ts[k].page;
    MemberOf(ts, CrossValidation.PageOf, k);
    var ms := Members(ts, CrossValidation.PageOf, ts[k].page);
    var j :| 0 <= j < |ms| && ms[j] == ts[k];
    assert c[i].tables[j] == JsonTableOf(ts[k]);
  }

  /** Every table of an entry is a table of that entry's page. */
  lemma JsonTableBelongs(pdfFile: string, blocks: seq<TextBlock>, ts: seq<TableData>, i: nat, m: JsonTable)
    requires var c := JsonOf(pdfFile, blocks, ts).content;
      i < |c| && m in c[i].tables
    ensures var c := JsonOf(pdfFile, blocks, ts).content;
      exists k :: 0 <= k < |ts| && ts[k].page == c[i].pageNumber && JsonTableOf(ts[k]) == m
  {
    var pages := KeysInOrder(blocks, BlockPage);
    var ms := Members(ts, CrossValidation.PageOf, pages[i]);
    var j :| 0 <= j < |ms| && JsonTableOf(ms[j]) == m;
    MembersAreElements(ts, CrossValidation.PageOf, pages[i]);
    var k :| 0 <= k < |ts| && ts[k] == ms[j];
    assert CrossValidation.PageOf(ms[j]) == pages[i];
  }

  /** Where the tables go: a table whose page owns a block is in that page's entry; a table
      whose page owns no block is in no entry; and every table of an entry is a table of
      that entry's page. `total_tables` still counts every table. */
  lemma JsonTablesOnBlockPages(pdfFile: string, blocks: seq<TextBlock>, ts: seq<TableData>)
    ensures var doc := JsonOf(pdfFile, blocks, ts);
      var c := doc.content;
      && doc.totalTables == |ts| && doc.totalBlocks == |blocks|
      && (forall k, b :: 0 <= k < |ts| && 0 <= b < |blocks| && blocks[b].page == ts[k].page ==>
            exists i :: 0 <= i < |c| && c[i].pageNumber == ts[k].page && JsonTableOf(ts[k]) in c[i].tables)
      && (forall k :: 0 <= k < |ts| && (forall j :: 0 <= j < |blocks| ==> blocks[j].page != ts[k].page) ==>
            forall i :: 0 <= i < |c| ==> c[i].pageNumber != ts[k].page)
      && (forall i, m :: 0 <= i < |c| && m in c[i].tables ==>
            exists k :: 0 <= k < |ts| && ts[k].page == c[i].pageNumber && JsonTableOf(ts[k]) == m)
  {
    JsonPages(pdfFile, blocks, ts);
    forall k, b | 0 <= k < |ts| && 0 <= b < |blocks| && blocks[b].page == ts[k].page {
      JsonKeepsTable(pdfFile, blocks, ts, k, b);
    }
    var c := JsonOf(pdfFile, blocks, ts).content;
    forall i, m | 0 <= i < |c| && m in c[i].tables {
      JsonTableBelongs(pdfFile, blocks, ts, i, m);
    }
  }

  /** `total_pages`: the largest block page, or 0 without blocks. */
  lemma JsonTotalPages(pdfFile: string, blocks: seq<TextBlock>, ts: seq<TableData>)
    ensures var n := JsonOf(pdfFile, blocks, ts).totalPages;
      && (n == 0 <==> blocks == [])
      && (forall i :: 0 <= i < |blocks| ==> blocks[i].page <= n)
      && (blocks != [] ==> exists i :: 0 <= i < |blocks| && blocks[i].page == n)
  {
  }

  /** A table on a page that owns no block is dropped from the entries while `total_tables`
      still counts it: one block on page 1 and one table on page 2 give one entry, with no
      table. */
  lemma JsonDropExample(b: TextBlock, t: TableData)
    requires b.page == 1 && t.page == 2
    ensures var doc := JsonOf("doc.pdf", [b], [t]);
      && |doc.content| == 1 && doc.content[0].pageNumber == 1
      && doc.content[0].tables == [] && doc.totalTables == 1 && doc.totalPages == 1
  {
    var blocks, ts := [b], [t];
    assert blocks[..0] == [] && ts[..0] == [];
    assert KeysInOrder(blocks, BlockPage) == [1];
    assert Members(ts, CrossValidation.PageOf, 1) == [];
  }

  // ---------------------------------------------------------------- CSV and sheet names

  /** `page{p}_table{idx}.csv`. */
  function CsvName(page: nat, idx: nat): string {
    "page" + NatToString(page) + "_table" + NatToString(idx) + ".csv"
  }

  /** `Page{p}_T{idx}` before truncation. */
  function FullSheetName(page: nat, idx: nat): string {
    "Page" + NatToString(page) + "_T" + NatToString(idx)
  }

  /** `f'Page{p}_T{idx}'[:31]`: at most 31 characters, a prefix of the full name, and the
      full name itself when that fits. */
  function SheetName(page: nat, idx: nat): (s: string)
    ensures |s| <= 31 && |s| <= |FullSheetName(page, idx)|
    ensures s == FullSheetName(page, idx)[..|s|]
    ensures |FullSheetName(page, idx)| <= 31 ==> s == FullSheetName(page, idx)
  {
    var full := FullSheetName(page, idx);
    full[..Render.Min(31, |full|)]
  }

  /** Different (page, ordinal) pairs give different CSV file names, so no export overwrites
      another. */
  lemma CsvNameInjective(p: nat, i: nat, q: nat, j: nat)
    requires CsvName(p, i) == CsvName(q, j)
    ensures p == q && i == j
  {
    var a := "_table" + (NatToString(i) + ".csv");
    var b := "_table" + (NatToString(j) + ".csv");
    CsvNameShape(p, i);
    CsvNameShape(q, j);
    DropPrefix("page", NatToString(p) + a, NatToString(q) + b);
    NumberThenInjective(p, a, q, b);
    DropPrefix("_table", NatToString(i) + ".csv", NatToString(j) + ".csv");
    NumberThenInjective(i, ".csv", j, ".csv");
  }

  /** The CSV name regrouped from the right. */
  lemma CsvNameShape(p: nat, i: nat)
    ensures CsvName(p, i) == "page" + (NatToString(p) + ("_table" + (NatToString(i) + ".csv")))
  {
  }

  /** Equal sequences with a common prefix have equal rests. */
  lemma DropPrefix<T>(pre: seq<T>, u: seq<T>, v: seq<T>)
    requires pre + u == pre + v
    ensures u == v
  {
    assert u == (pre + u)[|pre|..];
    assert v == (pre + v)[|pre|..];
  }

  /** Sheet names that were not truncated are distinct for distinct (page, ordinal) pairs. */
  lemma SheetNameInjective(p: nat, i: nat, q: nat, j: nat)
    requires |FullSheetName(p, i)| <= 31 && |FullSheetName(q, j)| <= 31
    requires SheetName(p, i) == SheetName(q, j)
    ensures p == q && i == j
  {
    var a := "_T" + NatToString(i);
    var b := "_T" + NatToString(j);
    assert FullSheetName(p, i) == "Page" + (NatToString(p) + a);
    assert FullSheetName(q, j) == "Page" + (NatToString(q) + b);
    assert NatToString(p) + a == FullSheetName(p, i)[4..] == FullSheetName(q, j)[4..] == NatToString(q) + b;
    NumberThenInjective(p, a, q, b);
    assert a == "_T" + NatToString(i) && b == "_T" + NatToString(j);
    assert NatToString(i) + [] == a[2..] == b[2..] == NatToString(j) + [];
    NumberThenInjective(i, [], j, []);
  }

  /** The two files a table is written to: a CSV file, and a sheet of the workbook. */
  datatype FileKind = Csv | Sheet

  function FileName(kind: FileKind, page: nat, idx: nat): string {
    match kind
    case Csv => CsvName(page, idx)
    case Sheet => SheetName(page, idx)
  }

  /** One exported table: the 1-based position in the validated list, the file or sheet name,
      and `pd.DataFrame(data[1:], columns=data[0])`'s header and body. */
  datatype TableFile = TableFile(ordinal: nat, name: string, header: Row, body: Rows)

  function FileOf(kind: FileKind, t: TableData, idx: nat): TableFile
    requires t.data != []
  {
    TableFile(idx, FileName(kind, t.page, idx), t.data[0], t.data[1..])
  }

  /** `e` is the file of the table at its ordinal. */
  predicate FileFrom(kind: FileKind, ts: seq<TableData>, e: TableFile) {
    1 <= e.ordinal <= |ts| && ts[e.ordinal - 1].data != [] && e == FileOf(kind, ts[e.ordinal - 1], e.ordinal)
  }

  /** The files one of the two export loops writes: one per table with rows, numbered by its
      position in the validated list, in increasing order. */
  function TableFiles(kind: FileKind, ts: seq<TableData>): (es: seq<TableFile>)
    ensures forall j :: 0 <= j < |es| ==> FileFrom(kind, ts, es[j])
  {
    if ts == [] then []
    else
      var n := |ts| - 1;
      var front := ts[..n];
      var es := TableFiles(kind, front);
      assert forall j :: 0 <= j < |es| ==> FileFrom(kind, ts, es[j]) by {
        forall j | 0 <= j < |es| ensures FileFrom(kind, ts, es[j]) {
          assert FileFrom(kind, front, es[j]);
          assert front[es[j].ordinal - 1] == ts[es[j].ordinal - 1];
        }
      }
      if ts[n].data != [] then
        es + [FileOf(kind, ts[n], n + 1)]
      else es
  }

  /** The files come in increasing order of their ordinals. */
  lemma {:induction false} TableFilesOrdered(kind: FileKind, ts: seq<TableData>)
    ensures forall i, j :: 0 <= i < j < |TableFiles(kind, ts)| ==>
      TableFiles(kind, ts)[i].ordinal < TableFiles(kind, ts)[j].ordinal
  {
    if ts != [] {
      var n := |ts| - 1;
      var front := ts[..n];
      TableFilesOrdered(kind, front);
      var es0, es := TableFiles(kind, front), TableFiles(kind, ts);
      assert es == es0 + (if ts[n].data != [] then [FileOf(kind, ts[n], n + 1)] else []);
      forall i, j | 0 <= i < j < |es| ensures es[i].ordinal < es[j].ordinal {
        assert es[i] == es0[i] && FileFrom(kind, front, es0[i]);
        if j < |es0| {
          assert es[j] == es0[j];
          assert es0[i].ordinal < es0[j].ordinal;
        } else {
          assert |front| == n && es[j] == FileOf(kind, ts[n], n + 1);
        }
      }
    }
  }

  /** Every table with rows is written. */
  lemma {:induction false} TableFilesCover(kind: FileKind, ts: seq<TableData>, k: nat)
    requires k < |ts| && ts[k].data != []
    ensures exists j :: 0 <= j < |TableFiles(kind, ts)| && TableFiles(kind, ts)[j].ordinal == k + 1
  {
    var n := |ts| - 1;
    var front := ts[..n];
    var es := TableFiles(kind, front);
    var all := TableFiles(kind, ts);
    assert all == es + (if ts[n].data != [] then [FileOf(kind, ts[n], n + 1)] else []);
    if k < n {
      assert front[k] == ts[k];
      TableFilesCover(kind, front, k);
      var j :| 0 <= j < |es| && es[j].ordinal == k + 1;
      assert all[j] == es[j];
    } else {
      assert all[|es|].ordinal == k + 1;
    }
  }

  /** Distinct ordinals give distinct CSV file names. */
  lemma DistinctOrdinalsDistinctCsv(p: nat, i: nat, q: nat, j: nat)
    requires i != j
    ensures CsvName(p, i) != CsvName(q, j)
  {
    if CsvName(p, i) == CsvName(q, j) {
      CsvNameInjective(p, i, q, j);
    }
  }

  /** The CSV file names written are pairwise distinct: no table's file overwrites another's. */
  lemma CsvNamesDistinct(ts: seq<TableData>)
    ensures var es := TableFiles(Csv, ts);
      forall i, j :: 0 <= i < j < |es| ==> es[i].name != es[j].name
  {
    var es := TableFiles(Csv, ts);
    TableFilesOrdered(Csv, ts);
    forall i, j | 0 <= i < j < |es| ensures es[i].name != es[j].name {
      assert FileFrom(Csv, ts, es[i]) && FileFrom(Csv, ts, es[j]);
      DistinctOrdinalsDistinctCsv(ts[es[i].ordinal - 1].page, es[i].ordinal, ts[es[j].ordinal - 1].page, es[j].ordinal);
    }
  }

  /** The sheets hold the same tables as the CSV files, in the same order, under names of at
      most 31 characters. */
  lemma {:induction false} SheetsMatchCsv(ts: seq<TableData>)
    ensures var cs, ss := TableFiles(Csv, ts), TableFiles(Sheet, ts);
      |cs| == |ss| && forall j :: 0 <= j < |cs| ==>
        && cs[j].ordinal == ss[j].ordinal && cs[j].header == ss[j].header && cs[j].body == ss[j].body
        && |ss[j].name| <= 31
  {
    if ts != [] {
      SheetsMatchCsv(ts[..|ts| - 1]);
    }
  }
}
