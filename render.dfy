/** The structure of the Markdown and HTML documents (`_save_markdown`, `_save_html`): one
    output line list per document, a page section opened whenever a block's page differs from
    the previous block's, and table markers resolved to a validated table of the marker's page.

    Lines whose text is fixed by the source are spelled out; the page separators, the tabulate
    grid and the `:.1f`-formatted table info lines are kept structural. */
module Render {
  import opened TextUtil
  import opened Model

  /** `re.match(r'\[TABLE_(\d+)_(\d+)\]', text)`: the page and ordinal of a marker at the start
      of `s` (ASCII digits). */
  function ParseMarker(s: string): Option<(nat, nat)> {
    var head := "[TABLE_";
    if |s| < |head| || s[..|head|] != head then None
    else
      var r := s[|head|..];
      var n := DigitRun(r);
      if n == 0 || n == |r| || r[n] != '_' then None
      else
        var r2 := r[n + 1..];
        var m := DigitRun(r2);
        if m == 0 || m == |r2| || r2[m] != ']' then None
        else Some((DigitsValue(r[..n]), DigitsValue(r2[..m])))
  }

  /** Every marker the extractor writes parses back to its page and ordinal. */
  lemma ParseMarkerText(p: nat, i: nat)
    ensures ParseMarker(MarkerText(p, i)) == Some((p, i))
  {
    var a, b := NatToString(p), NatToString(i);
    assert MarkerText(p, i) == "[TABLE_" + (a + ("_" + (b + "]")));
    ParseMarkerOf(a, b);
    DigitsValueOfNatToString(p);
    DigitsValueOfNatToString(i);
  }

  /** A marker built from two digit strings parses back to their values. */
  lemma ParseMarkerOf(a: string, b: string)
    requires a != [] && AllDigits(a) && b != [] && AllDigits(b)
    ensures ParseMarker("[TABLE_" + (a + ("_" + (b + "]")))) == Some((DigitsValue(a), DigitsValue(b)))
  {
    var s := "[TABLE_" + (a + ("_" + (b + "]")));
    assert s[..7] == "[TABLE_" && s[7..] == a + ("_" + (b + "]"));
    DigitsThenSplit(a, "_" + (b + "]"));
    assert ("_" + (b + "]"))[1..] == b + "]";
    DigitsThenSplit(b, "]");
  }

  /** A digit string followed by a non-digit: the run of digits is exactly the string. */
  lemma DigitsThenSplit(d: string, rest: string)
    requires AllDigits(d) && rest != [] && !IsDigit(rest[0])
    ensures DigitRun(d + rest) == |d| && (d + rest)[..|d|] == d
    ensures (d + rest)[|d|] == rest[0] && (d + rest)[|d| + 1..] == rest[1..]
  {
    DigitRunOfDigitsThen(d, rest);
    assert (d + rest)[..|d|] == d;
    assert (d + rest)[|d| + 1..] == rest[1..];
  }

  /** The table a marker of page `p` shows: the first validated table of that page, as the
      loop that breaks at the first match finds it. */
  function FirstTableOn(ts: seq<TableData>, p: nat): (r: Option<TableData>)
    ensures r.None? <==> forall k :: 0 <= k < |ts| ==> ts[k].page != p
    ensures r.Some? ==> exists k :: (0 <= k < |ts| && ts[k] == r.value && ts[k].page == p
      && forall j :: 0 <= j < k ==> ts[j].page != p)
  {
    if ts == [] then None
    else if ts[0].page == p then Some(ts[0])
    else
      var r := FirstTableOn(ts[1..], p);
      assert r.Some? ==> exists k :: (1 <= k < |ts| && ts[k] == r.value && ts[k].page == p
        && forall j :: 0 <= j < k ==> ts[j].page != p) by {
        if r.Some? {
          var k :| 0 <= k < |ts[1..]| && ts[1..][k] == r.value && ts[1..][k].page == p
            && forall j :: 0 <= j < k ==> ts[1..][j].page != p;
          assert ts[k + 1] == ts[1..][k];
          forall j | 0 <= j < k + 1 ensures ts[j].page != p {
            if j > 0 { assert ts[j] == ts[1..][j - 1]; }
          }
        }
      }
      r
  }

  /** The page of the block before block `n`, or 0 before the first one: `current_page`. */
  function PrevPage(blocks: seq<TextBlock>, n: nat): nat
    requires n <= |blocks|
  {
    if n == 0 then 0 else blocks[n - 1].page
  }

  /** The pages at which a new page section starts: those of the blocks whose page differs
      from the previous block's. */
  function SectionStarts(blocks: seq<TextBlock>): seq<nat>
  {
    if blocks == [] then []
    else
      var n := |blocks| - 1;
      SectionStarts(blocks[..n]) + (if blocks[n].page != PrevPage(blocks, n) then [blocks[n].page] else [])
  }

  /** When block pages never decrease, as the extractor produces them, the sections are the
      distinct block pages in increasing order: one section per page. */
  lemma SectionsOfSortedBlocks(blocks: seq<TextBlock>)
    requires forall i, j :: 0 <= i < j < |blocks| ==> blocks[i].page <= blocks[j].page
    ensures var ss := SectionStarts(blocks);
      && (forall i, j :: 0 <= i < j < |ss| ==> ss[i] < ss[j])
      && (forall p :: p in ss <==> exists i :: 0 <= i < |blocks| && blocks[i].page == p)
      && (ss != [] ==> ss[|ss| - 1] == blocks[|blocks| - 1].page)
  {
    SectionsIncreasing(blocks);
    SectionsCover(blocks);
  }

  /** The last section is the last block's page. */
  lemma {:induction false} SectionsLast(blocks: seq<TextBlock>)
    ensures var ss := SectionStarts(blocks);
      ss != [] ==> ss[|ss| - 1] == blocks[|blocks| - 1].page
  {
    if blocks != [] {
      var n := |blocks| - 1;
      SectionsLast(blocks[..n]);
      SectionStartsStep(blocks);
      if n > 0 {
        assert blocks[..n][n - 1] == blocks[n - 1];
      }
    }
  }

  /** With pages that never decrease, the section pages strictly increase. */
  lemma {:induction false} SectionsIncreasing(blocks: seq<TextBlock>)
    requires forall i, j :: 0 <= i < j < |blocks| ==> blocks[i].page <= blocks[j].page
    ensures var ss := SectionStarts(blocks);
      forall i, j :: 0 <= i < j < |ss| ==> ss[i] < ss[j]
  {
    if blocks != [] {
      var n := |blocks| - 1;
      var front := blocks[..n];
      SectionsIncreasing(front);
      SectionsLast(front);
      SectionsLast(blocks);
      var ss0 := SectionStarts(front);
      var ss := SectionStarts(blocks);
      if blocks[n].page != PrevPage(blocks, n) {
        assert ss == ss0 + [blocks[n].page];
        if ss0 != [] {
          assert blocks[n - 1].page <= blocks[n].page;
          assert ss0[|ss0| - 1] < blocks[n].page;
        }
      } else {
        assert ss == ss0;
      }
    }
  }

  /** The section pages are exactly the pages of the blocks. */
  lemma {:induction false} SectionsCover(blocks: seq<TextBlock>)
    ensures forall p :: p in SectionStarts(blocks) <==> exists i :: 0 <= i < |blocks| && blocks[i].page == p
  {
    if blocks != [] {
      var n := |blocks| - 1;
      var front := blocks[..n];
      SectionsCover(front);
      var ss0 := SectionStarts(front);
      forall p ensures p in SectionStarts(blocks) <==> exists i :: 0 <= i < |blocks| && blocks[i].page == p {
        if p in ss0 {
          var i :| 0 <= i < |front| && front[i].page == p;
          assert blocks[i].page == p;
        }
        if i :| 0 <= i < |blocks| && blocks[i].page == p {
          if i < n {
            assert front[i].page == p;
          } else if blocks[n].page == PrevPage(blocks, n) {
            assert front[n - 1].page == p;
          }
        }
      }
    }
  }

  // ---------------------------------------------------------------- Markdown

  datatype MdLine =
    | PageHeader(page: nat)                  // "\n---\n\n# 📄 Page {page}\n"
    | MdText(text: string)
    | Grid(header: Row, body: Rows)          // tabulate(body, headers=header, tablefmt='pipe')
    | MdTableInfo(source: Source, confidence: real)

  /** The Markdown lines of one table marker: a heading with the marker's own ordinal, then
      the grid and the info line of the first table of the marker's page, if the table has
      rows; nothing when no table of that page survived cross-validation. */
  function MarkerMd(text: string, ts: seq<TableData>): seq<MdLine> {
    match ParseMarker(text)
    case None => []
    case Some((p, idx)) =>
      match FirstTableOn(ts, p)
      case None => []
      case Some(t) =>
        [MdText("\n### 📊 Table " + NatToString(idx) + "\n")]
        + (if t.data == [] then []
           else [Grid(t.data[0], if |t.data| > 1 then t.data[1..] else t.data),
                 MdTableInfo(t.source, t.confidence)])
  }

  /** The Markdown lines of one block. */
  function BlockMd(b: TextBlock, ts: seq<TableData>): seq<MdLine> {
    match b.kind
    case Heading => [MdText("\n" + Repeat("#", b.level + 1) + " " + b.text + "\n")]
    case ListItem => [MdText(Repeat("  ", b.level - 1) + "- " + b.text)]
    case TableMarker => MarkerMd(b.text, ts)
    case Paragraph => [MdText("\n" + b.text + "\n")]
  }

  /** `md_lines` after the loop over the blocks. */
  function MarkdownOf(blocks: seq<TextBlock>, ts: seq<TableData>): seq<MdLine> {
    if blocks == [] then []
    else
      var n := |blocks| - 1;
      MarkdownOf(blocks[..n], ts)
      + (if blocks[n].page != PrevPage(blocks, n) then [PageHeader(blocks[n].page)] else [])
      + BlockMd(blocks[n], ts)
  }

  /** The pages of the page headers among `lines`, in order. */
  function HeaderPages(lines: seq<MdLine>): seq<nat> {
    if lines == [] then []
    else HeaderPages(lines[..|lines| - 1]) + LineHeader(lines[|lines| - 1])
  }

  function LineHeader(x: MdLine): seq<nat> {
    match x case PageHeader(p) => [p] case _ => []
  }

  lemma {:induction false} HeaderPagesAppend(a: seq<MdLine>, b: seq<MdLine>)
    ensures HeaderPages(a + b) == HeaderPages(a) + HeaderPages(b)
    decreases |b|
  {
    if b == [] {
      assert a + b == a;
    } else {
      var front, last := b[..|b| - 1], b[|b| - 1];
      HeaderPagesAppend(a, front);
      ConcatFront(a, b);
      Associative(HeaderPages(a), HeaderPages(front), LineHeader(last));
    }
  }

  /** The header pages of a single line. */
  lemma OneMdLine(x: MdLine)
    ensures HeaderPages([x]) == LineHeader(x)
  {
    assert [x][..0] == [];
  }

  /** No line of a block is a page header. */
  lemma NoHeadersInBlock(b: TextBlock, ts: seq<TableData>)
    ensures HeaderPages(BlockMd(b, ts)) == []
  {
    if b.kind == TableMarker {
      NoHeadersInMarker(b.text, ts);
    } else {
      OneMdLine(BlockMd(b, ts)[0]);
    }
  }

  lemma NoHeadersInMarker(text: string, ts: seq<TableData>)
    ensures HeaderPages(MarkerMd(text, ts)) == []
  {
    var ls := MarkerMd(text, ts);
    if ls != [] {
      var h := ls[0];
      OneMdLine(h);
      if |ls| > 1 {
        var g, i := ls[1], ls[2];
        assert ls == [h] + ([g] + [i]);
        OneMdLine(g);
        OneMdLine(i);
        HeaderPagesAppend([g], [i]);
        HeaderPagesAppend([h], [g] + [i]);
      } else {
        assert ls == [h];
      }
    }
  }

  /** A Markdown page header is written exactly where a block's page differs from the
      previous block's page. */
  lemma {:induction false} MarkdownSections(blocks: seq<TextBlock>, ts: seq<TableData>)
    ensures HeaderPages(MarkdownOf(blocks, ts)) == SectionStarts(blocks)
  {
    if blocks != [] {
      var n := |blocks| - 1;
      var b := blocks[n];
      MarkdownSections(blocks[..n], ts);
      var sep: seq<MdLine> := if b.page != PrevPage(blocks, n) then [PageHeader(b.page)] else [];
      HeaderPagesAppend(MarkdownOf(blocks[..n], ts) + sep, BlockMd(b, ts));
      HeaderPagesAppend(MarkdownOf(blocks[..n], ts), sep);
      NoHeadersInBlock(b, ts);
      assert HeaderPages(sep) == (if b.page != PrevPage(blocks, n) then [b.page] else []) by {
        if sep != [] { assert sep[..0] == []; }
      }
    }
  }

  /** A marker resolves by page alone: two markers of the same page with different ordinals
      show the same table grid and info line, and differ only in the number in their
      heading. The ordinal does not select among several tables of a page. */
  lemma MarkerOrdinalIgnored(p: nat, i: nat, j: nat, ts: seq<TableData>)
    ensures var a, b := MarkerMd(MarkerText(p, i), ts), MarkerMd(MarkerText(p, j), ts);
      |a| == |b| && (|a| > 0 ==> a[1..] == b[1..])
  {
    ParseMarkerText(p, i);
    ParseMarkerText(p, j);
  }

  /** A marker shows the first table of its page, or nothing when cross-validation kept no
      table of that page. */
  lemma MarkerShowsFirstTableOfPage(p: PageNum, i: nat, ts: seq<TableData>)
    ensures var lines := MarkerMd(MarkerText(p, i), ts);
      && (lines == [] <==> forall k :: 0 <= k < |ts| ==> ts[k].page != p)
      && (lines != [] ==> exists k :: (0 <= k < |ts| && ts[k].page == p
            && (forall j :: 0 <= j < k ==> ts[j].page != p)
            && lines[0] == MdText("\n### 📊 Table " + NatToString(i) + "\n")
            && (ts[k].data != [] ==> lines[1..] == [Grid(ts[k].data[0], if |ts[k].data| > 1 then ts[k].data[1..] else ts[k].data),
                                                    MdTableInfo(ts[k].source, ts[k].confidence)])
            && (ts[k].data == [] ==> |lines| == 1)))
  {
    ParseMarkerText(p, i);
  }

  // ---------------------------------------------------------------- HTML

  datatype HtmlLine =
    | Prologue                               // the document head, style sheet and title
    | OpenPage(page: nat)                    // <div class="page-break"><h2>Page {page}</h2>
    | ClosePage                              // </div> closing a page
    | HtmlText(text: string)
    | HtmlTableInfo(source: Source, confidence: real)
    | Epilogue                               // </body></html>

  /** `cell if cell else ""`. */
  function CellText(c: Cell): string {
    match c case None => "" case Some(s) => s
  }

  function CellLines(tag: string, row: Row): seq<HtmlLine> {
    if row == [] then []
    else
      CellLines(tag, row[..|row| - 1])
      + [HtmlText("<" + tag + ">" + CellText(row[|row| - 1]) + "</" + tag + ">")]
  }

  function BodyRowLines(rows: Rows): seq<HtmlLine> {
    if rows == [] then []
    else
      BodyRowLines(rows[..|rows| - 1])
      + [HtmlText("<tr>")] + CellLines("td", rows[|rows| - 1]) + [HtmlText("</tr>")]
  }

  /** The `<table>` element of a table with rows: the first row as the header, the others as
      the body, then the info line. */
  function TableHtml(t: TableData): seq<HtmlLine>
    requires t.data != []
  {
    [HtmlText("<table>"), HtmlText("<thead><tr>")] + CellLines("th", t.data[0]) + [HtmlText("</tr></thead>")]
    + (if |t.data| > 1 then [HtmlText("<tbody>")] + BodyRowLines(t.data[1..]) + [HtmlText("</tbody>")] else [])
    + [HtmlText("</table>"), HtmlTableInfo(t.source, t.confidence)]
  }

  function MarkerHtml(text: string, ts: seq<TableData>): seq<HtmlLine> {
    match ParseMarker(text)
    case None => []
    case Some((p, idx)) =>
      match FirstTableOn(ts, p)
      case None => []
      case Some(t) =>
        [HtmlText("<h3>Table " + NatToString(idx) + "</h3>")] + (if t.data == [] then [] else TableHtml(t))
  }

  function Min(a: int, b: int): int { if a <= b then a else b }

  /** The heading tag `h{min(level + 2, 6)}`: `h3` for level 1, `h4` for level 2. */
  function HeadingTag(level: nat): (tag: string)
    ensures |tag| == 2 && tag[0] == 'h'
    ensures level < 4 ==> tag[1] as int - '0' as int == level + 2
    ensures level >= 4 ==> tag == "h6"
  {
    var d := Min(level + 2, 6);
    assert NatToString(d) == [DigitChar(d)];
    "h" + NatToString(d)
  }

  /** The class of a list item: `list-item-{level}` only above level 1. */
  function ListClass(level: nat): string {
    if level > 1 then "list-item-" + NatToString(level) else "list-item"
  }

  /** The HTML lines of one block. */
  function BlockHtml(b: TextBlock, ts: seq<TableData>): seq<HtmlLine> {
    match b.kind
    case Heading =>
      [HtmlText("<" + HeadingTag(b.level) + ">" + b.text + "</" + HeadingTag(b.level) + ">")]
    case ListItem => [HtmlText("<div class=\"" + ListClass(b.level) + "\">• " + b.text + "</div>")]
    case TableMarker => MarkerHtml(b.text, ts)
    case Paragraph => [HtmlText("<p class=\"paragraph\">" + b.text + "</p>")]
  }

  /** The lines the loop over the blocks appends: on a page change, the open page division
      is closed (if there is one) and a new one opened. */
  function HtmlBody(blocks: seq<TextBlock>, ts: seq<TableData>): seq<HtmlLine> {
    if blocks == [] then []
    else
      var n := |blocks| - 1;
      var prev := PrevPage(blocks, n);
      HtmlBody(blocks[..n], ts)
      + (if blocks[n].page != prev then Separator(prev, blocks[n].page) else [])
      + BlockHtml(blocks[n], ts)
  }

  /** `html_lines` when the document is written. */
  function HtmlOf(blocks: seq<TextBlock>, ts: seq<TableData>): seq<HtmlLine> {
    [Prologue] + HtmlBody(blocks, ts)
    + (if PrevPage(blocks, |blocks|) > 0 then [ClosePage] else []) + [Epilogue]
  }

  /** The page divisions among `lines`: `true` for an opening line, `false` for a closing
      one, in order. */
  function Divisions(lines: seq<HtmlLine>): seq<bool> {
    if lines == [] then []
    else
      Divisions(lines[..|lines| - 1]) + LineDivisions(lines[|lines| - 1])
  }

  function LineDivisions(x: HtmlLine): seq<bool> {
    match x case OpenPage(_) => [true] case ClosePage => [false] case _ => []
  }

  /** The pages of the opening lines among `lines`, in order. */
  function OpenedPages(lines: seq<HtmlLine>): seq<nat> {
    if lines == [] then []
    else
      OpenedPages(lines[..|lines| - 1]) + LineOpened(lines[|lines| - 1])
  }

  function LineOpened(x: HtmlLine): seq<nat> {
    match x case OpenPage(p) => [p] case _ => []
  }

  /** `k` pairs of an opening and a closing division line. */
  function Pairs(k: nat): seq<bool> {
    if k == 0 then [] else Pairs(k - 1) + [true, false]
  }

  lemma DivisionsAppend(a: seq<HtmlLine>, b: seq<HtmlLine>)
    ensures Divisions(a + b) == Divisions(a) + Divisions(b)
    ensures OpenedPages(a + b) == OpenedPages(a) + OpenedPages(b)
  {
    DivisionsOfAppend(a, b);
    OpenedOfAppend(a, b);
  }

  lemma {:induction false} DivisionsOfAppend(a: seq<HtmlLine>, b: seq<HtmlLine>)
    ensures Divisions(a + b) == Divisions(a) + Divisions(b)
    decreases |b|
  {
    if b == [] {
      assert a + b == a;
    } else {
      var front, last := b[..|b| - 1], b[|b| - 1];
      DivisionsOfAppend(a, front);
      ConcatFront(a, b);
      Associative(Divisions(a), Divisions(front), LineDivisions(last));
    }
  }

  lemma {:induction false} OpenedOfAppend(a: seq<HtmlLine>, b: seq<HtmlLine>)
    ensures OpenedPages(a + b) == OpenedPages(a) + OpenedPages(b)
    decreases |b|
  {
    if b == [] {
      assert a + b == a;
    } else {
      var front, last := b[..|b| - 1], b[|b| - 1];
      OpenedOfAppend(a, front);
      ConcatFront(a, b);
      Associative(OpenedPages(a), OpenedPages(front), LineOpened(last));
    }
  }

  lemma {:induction false} NoDivisionsInCells(tag: string, row: Row)
    ensures Divisions(CellLines(tag, row)) == [] && OpenedPages(CellLines(tag, row)) == []
    decreases |row|
  {
    if row != [] {
      var n := |row| - 1;
      NoDivisionsInCells(tag, row[..n]);
      var h := HtmlText("<" + tag + ">" + CellText(row[n]) + "</" + tag + ">");
      DivisionsAppend(CellLines(tag, row[..n]), [h]);
      assert [h][..0] == [];
    }
  }

  lemma {:induction false} NoDivisionsInRows(rows: Rows)
    ensures Divisions(BodyRowLines(rows)) == [] && OpenedPages(BodyRowLines(rows)) == []
    decreases |rows|
  {
    if rows != [] {
      var n := |rows| - 1;
      NoDivisionsInRows(rows[..n]);
      NoDivisionsInCells("td", rows[n]);
      var tr, etr := HtmlText("<tr>"), HtmlText("</tr>");
      assert [tr][..0] == [] && [etr][..0] == [];
      DivisionsAppend(BodyRowLines(rows[..n]), [tr]);
      DivisionsAppend(BodyRowLines(rows[..n]) + [tr], CellLines("td", rows[n]));
      DivisionsAppend(BodyRowLines(rows[..n]) + [tr] + CellLines("td", rows[n]), [etr]);
    }
  }

  /** No line of a block opens or closes a page division. */
  lemma NoDivisionsInBlock(b: TextBlock, ts: seq<TableData>)
    ensures Divisions(BlockHtml(b, ts)) == [] && OpenedPages(BlockHtml(b, ts)) == []
  {
    var ls := BlockHtml(b, ts);
    if b.kind == TableMarker && ls != [] {
      var (p, idx) := ParseMarker(b.text).value;
      var t := FirstTableOn(ts, p).value;
      var h := HtmlText("<h3>Table " + NatToString(idx) + "</h3>");
      assert [h][..0] == [];
      if t.data != [] {
        NoDivisionsInTable(t);
        DivisionsAppend([h], TableHtml(t));
      }
    } else if ls != [] {
      assert |ls| == 1 && ls[..0] == [];
    }
  }

  lemma NoDivisionsInTable(t: TableData)
    requires t.data != []
    ensures Divisions(TableHtml(t)) == [] && OpenedPages(TableHtml(t)) == []
  {
    var a: seq<HtmlLine> := [HtmlText("<table>"), HtmlText("<thead><tr>")];
    var c := CellLines("th", t.data[0]);
    var d: seq<HtmlLine> := [HtmlText("</tr></thead>")];
    var e: seq<HtmlLine> := if |t.data| > 1 then [HtmlText("<tbody>")] + BodyRowLines(t.data[1..]) + [HtmlText("</tbody>")] else [];
    var f: seq<HtmlLine> := [HtmlText("</table>"), HtmlTableInfo(t.source, t.confidence)];
    assert a[..1][..0] == [] && d[..0] == [] && f[..1][..0] == [];
    NoDivisionsInCells("th", t.data[0]);
    if |t.data| > 1 {
      var e1: seq<HtmlLine> := [HtmlText("<tbody>")];
      var e3: seq<HtmlLine> := [HtmlText("</tbody>")];
      assert e1[..0] == [] && e3[..0] == [];
      NoDivisionsInRows(t.data[1..]);
      DivisionsAppend(e1, BodyRowLines(t.data[1..]));
      DivisionsAppend(e1 + BodyRowLines(t.data[1..]), e3);
    }
    DivisionsAppend(a, c);
    DivisionsAppend(a + c, d);
    DivisionsAppend(a + c + d, e);
    DivisionsAppend(a + c + d + e, f);
  }

  /** The lines written when block `n` starts a new page section. */
  function Separator(prev: nat, page: nat): seq<HtmlLine> {
    (if prev > 0 then [ClosePage] else []) + [OpenPage(page)]
  }

  /** One step of the loop adds the division lines of the page separator and nothing else. */
  lemma HtmlBodyStep(blocks: seq<TextBlock>, ts: seq<TableData>)
    requires blocks != []
    ensures var n := |blocks| - 1;
      var sep := if blocks[n].page != PrevPage(blocks, n) then Separator(PrevPage(blocks, n), blocks[n].page) else [];
      && Divisions(HtmlBody(blocks, ts)) == Divisions(HtmlBody(blocks[..n], ts)) + Divisions(sep)
      && OpenedPages(HtmlBody(blocks, ts)) == OpenedPages(HtmlBody(blocks[..n], ts)) + OpenedPages(sep)
  {
    var n := |blocks| - 1;
    var b := blocks[n];
    var sep := if b.page != PrevPage(blocks, n) then Separator(PrevPage(blocks, n), b.page) else [];
    var front := HtmlBody(blocks[..n], ts);
    assert HtmlBody(blocks, ts) == front + sep + BlockHtml(b, ts);
    NoDivisionsInBlock(b, ts);
    DivisionsAppend(front, sep);
    DivisionsAppend(front + sep, BlockHtml(b, ts));
  }

  /** The loop opens a page division exactly at each section start. */
  lemma {:induction false} HtmlBodyOpens(blocks: seq<TextBlock>, ts: seq<TableData>)
    ensures OpenedPages(HtmlBody(blocks, ts)) == SectionStarts(blocks)
  {
    if blocks != [] {
      var n := |blocks| - 1;
      HtmlBodyOpens(blocks[..n], ts);
      HtmlBodyStep(blocks, ts);
      if blocks[n].page != PrevPage(blocks, n) {
        SeparatorDivisions(PrevPage(blocks, n), blocks[n].page);
      } else {
        assert OpenedPages([]) == [];
      }
    }
  }

  /** The loop closes the open page division before opening the next one: its division
      lines alternate, start with an opening one, and only the last section is still open
      at the end. */
  lemma {:induction false} HtmlBodyDivisions(blocks: seq<TextBlock>, ts: seq<TableData>)
    requires forall i :: 0 <= i < |blocks| ==> blocks[i].page >= 1
    ensures Divisions(HtmlBody(blocks, ts)) + (if blocks == [] then [] else [false])
      == Pairs(|SectionStarts(blocks)|)
  {
    if blocks != [] {
      var n := |blocks| - 1;
      var b := blocks[n];
      var prev := PrevPage(blocks, n);
      var front := blocks[..n];
      HtmlBodyDivisions(front, ts);
      HtmlBodyStep(blocks, ts);
      SectionStartsStep(blocks);
      var changed := b.page != prev;
      if changed {
        SeparatorDivisions(prev, b.page);
      }
      DivisionsStep(Divisions(HtmlBody(front, ts)), Divisions(HtmlBody(blocks, ts)),
                    |SectionStarts(front)|, |SectionStarts(blocks)|, prev, changed);
    }
  }

  /** How many sections one more block opens. */
  lemma SectionStartsStep(blocks: seq<TextBlock>)
    requires blocks != []
    ensures var n := |blocks| - 1;
      |SectionStarts(blocks)| == |SectionStarts(blocks[..n])| + (if blocks[n].page != PrevPage(blocks, n) then 1 else 0)
  {
  }

  /** The division bookkeeping of one loop step: with `d0` the divisions so far over `s0`
      sections, a page change closes the open division (if any) and opens one. */
  lemma DivisionsStep(d0: seq<bool>, d: seq<bool>, s0: nat, s: nat, prev: nat, changed: bool)
    requires prev == 0 ==> d0 == [] && s0 == 0
    requires prev > 0 ==> d0 + [false] == Pairs(s0)
    requires changed ==> s == s0 + 1 && d == d0 + (if prev > 0 then [false, true] else [true])
    requires !changed ==> prev > 0 && s == s0 && d == d0
    ensures d + [false] == Pairs(s)
  {
    if changed {
      if prev > 0 {
        PairsExtend(d0, s0);
      } else {
        assert d + [false] == [true, false] == Pairs(1);
      }
    }
  }

  /** The whole page: the page divisions alternate between opening and closing, starting
      with an opening one, every division opened is closed, and one is opened per section,
      for the section pages in order. */
  lemma HtmlBalanced(blocks: seq<TextBlock>, ts: seq<TableData>)
    ensures Divisions(HtmlOf(blocks, ts)) == Pairs(|SectionStarts(blocks)|)
    ensures OpenedPages(HtmlOf(blocks, ts)) == SectionStarts(blocks)
  {
    var body := HtmlBody(blocks, ts);
    var close: seq<HtmlLine> := if PrevPage(blocks, |blocks|) > 0 then [ClosePage] else [];
    HtmlBodyDivisions(blocks, ts);
    HtmlBodyOpens(blocks, ts);
    DivisionsWrapped(body, close);
    assert Divisions(close) == (if blocks == [] then [] else [false]) by {
      if blocks != [] { assert close == [ClosePage] && close[..0] == []; }
    }
    assert OpenedPages(close) == [] by {
      if blocks != [] { assert close[..0] == []; }
    }
  }

  /** The prologue and epilogue hold no division line. */
  lemma DivisionsWrapped(body: seq<HtmlLine>, close: seq<HtmlLine>)
    ensures Divisions([Prologue] + body + close + [Epilogue]) == Divisions(body) + Divisions(close)
    ensures OpenedPages([Prologue] + body + close + [Epilogue]) == OpenedPages(body) + OpenedPages(close)
  {
    WrappedDivisions(body, close);
    WrappedOpened(body, close);
  }

  lemma WrappedDivisions(body: seq<HtmlLine>, close: seq<HtmlLine>)
    ensures Divisions([Prologue] + body + close + [Epilogue]) == Divisions(body) + Divisions(close)
  {
    var pro, epi: seq<HtmlLine> := [Prologue], [Epilogue];
    OneLine(Prologue);
    OneLine(Epilogue);
    DivisionsOfAppend(pro, body);
    assert Divisions(pro + body) == Divisions(body);
    DivisionsOfAppend(pro + body, close);
    DivisionsOfAppend(pro + body + close, epi);
  }

  lemma WrappedOpened(body: seq<HtmlLine>, close: seq<HtmlLine>)
    ensures OpenedPages([Prologue] + body + close + [Epilogue]) == OpenedPages(body) + OpenedPages(close)
  {
    var pro, epi: seq<HtmlLine> := [Prologue], [Epilogue];
    OneLine(Prologue);
    OneLine(Epilogue);
    OpenedOfAppend(pro, body);
    assert OpenedPages(pro + body) == OpenedPages(body);
    OpenedOfAppend(pro + body, close);
    OpenedOfAppend(pro + body + close, epi);
  }

  /** The divisions of a single line. */
  lemma OneLine(x: HtmlLine)
    ensures Divisions([x]) == LineDivisions(x)
    ensures OpenedPages([x]) == LineOpened(x)
  {
    assert [x][..0] == [];
  }


  /** Closing the last division and opening a new one adds one pair. */
  lemma PairsExtend(d0: seq<bool>, k: nat)
    requires d0 + [false] == Pairs(k)
    ensures (d0 + [false, true]) + [false] == Pairs(k + 1)
  {
    assert (d0 + [false, true]) + [false] == (d0 + [false]) + [true, false];
  }

  /** The lines written at a page change: a closing line when a page is open, then the
      opening line of the new page. */
  lemma SeparatorDivisions(prev: nat, page: nat)
    ensures var sep := Separator(prev, page);
      && Divisions(sep) == (if prev > 0 then [false, true] else [true])
      && OpenedPages(sep) == [page]
  {
    assert [OpenPage(page)][..0] == [];
    if prev > 0 {
      assert [ClosePage, OpenPage(page)][..1] == [ClosePage] && [ClosePage][..0] == [];
    }
  }

  /** A non-empty block list opens at least one section (its first block starts one). */
  lemma {:induction false} SectionsAreNonEmpty(blocks: seq<TextBlock>)
    requires blocks != []
    requires forall i :: 0 <= i < |blocks| ==> blocks[i].page >= 1
    ensures SectionStarts(blocks) != []
  {
    var n := |blocks| - 1;
    if n > 0 {
      SectionsAreNonEmpty(blocks[..n]);
    }
  }
}
