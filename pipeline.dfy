/** What the extraction steps produce, as functions of their inputs: the blocks of one page
    (paragraph segmentation, classification), the layout tables of one page and the markers
    standing for them, the whole document read page by page, and the tables admitted from the
    two camelot runs. The methods of `PdfExtractor` are proved to append exactly these. */
module Pipeline {
  import opened TextUtil
  import opened Model
  import opened Segment
  import opened Classify
  import Confidence
  import opened Grouping
  import CrossValidation
  import Render
  import Export

  /** What `_add_text_block` appends: nothing for an empty text, otherwise one block of that
      text and page, classified, and never a table marker. */
  function AddedBlocks(t: string, page: PageNum): (bs: seq<TextBlock>)
    ensures bs == [] <==> t == ""
    ensures |bs| <= 1
    ensures forall b :: b in bs ==> b.text == t && b.page == page && b.kind != TableMarker
  {
    if t == "" then []
    else
      ClassifyShape(t);
      [ClassifiedBlock(t, page)]
  }

  /** The blocks added for the paragraph texts `ps`, in order. */
  function TextBlocksOf(ps: seq<string>, page: PageNum): (bs: seq<TextBlock>)
    ensures |bs| <= |ps|
    ensures forall j :: 0 <= j < |bs| ==> bs[j].page == page && bs[j].kind != TableMarker
  {
    if ps == [] then []
    else TextBlocksOf(ps[..|ps| - 1], page) + AddedBlocks(ps[|ps| - 1], page)
  }

  /** The blocks `_extract_text_with_layout` appends for one page. */
  function ParagraphBlocks(text: Option<string>, page: PageNum): seq<TextBlock> {
    TextBlocksOf(Paragraphs(text), page)
  }

  /** One block per paragraph, in order: the k-th is the k-th paragraph, classified, on this
      page. No paragraph is empty, so none is dropped. */
  lemma {:induction false} ParagraphBlocksExact(text: Option<string>, page: PageNum)
    ensures var ps, bs := Paragraphs(text), ParagraphBlocks(text, page);
      |bs| == |ps| && forall k :: 0 <= k < |bs| ==> ps[k] != "" && bs[k] == ClassifiedBlock(ps[k], page)
  {
    ParagraphShape(text);
    TextBlocksOfNonEmpty(Paragraphs(text), page);
  }

  /** `bs` holds one classified block per paragraph of `ps`, in order, on this page. */
  predicate BlocksOfParagraphs(bs: seq<TextBlock>, ps: seq<string>, page: PageNum) {
    |bs| == |ps| && forall k :: 0 <= k < |bs| ==> ps[k] != "" && bs[k] == ClassifiedBlock(ps[k], page)
  }

  lemma {:induction false} TextBlocksOfNonEmpty(ps: seq<string>, page: PageNum)
    requires forall k :: 0 <= k < |ps| ==> ps[k] != ""
    ensures BlocksOfParagraphs(TextBlocksOf(ps, page), ps, page)
  {
    if ps != [] {
      var front, last := ps[..|ps| - 1], ps[|ps| - 1];
      assert ps == front + [last];
      assert forall k :: 0 <= k < |front| ==> front[k] == ps[k];
      TextBlocksOfNonEmpty(front, page);
      ClassifiedAppend(TextBlocksOf(front, page), front, last, page);
    }
  }

  /** Appending the block of one more paragraph keeps blocks and paragraphs in step. */
  lemma ClassifiedAppend(bs: seq<TextBlock>, ps: seq<string>, last: string, page: PageNum)
    requires last != "" && BlocksOfParagraphs(bs, ps, page)
    ensures BlocksOfParagraphs(bs + [ClassifiedBlock(last, page)], ps + [last], page)
  {
    var bs', ps' := bs + [ClassifiedBlock(last, page)], ps + [last];
    forall k | 0 <= k < |bs'|
      ensures ps'[k] != "" && bs'[k] == ClassifiedBlock(ps'[k], page)
    {
      if k < |bs| {
        assert bs'[k] == bs[k] && ps'[k] == ps[k];
      }
    }
  }

  /** The layout tables admitted on page `p` (`if table and len(table) > 1`), in order, with
      source pdfplumber and the computed confidence. */
  function LayoutTables(raw: seq<Rows>, p: PageNum): seq<TableData> {
    if raw == [] then []
    else
      var n := |raw| - 1;
      LayoutTables(raw[..n], p)
      + (if |raw[n]| > 1 then [TableData(raw[n], p, Pdfplumber, Confidence.Score(raw[n]))] else [])
  }

  /** The marker blocks added beside them: `[TABLE_{p}_{idx + 1}]` with the table's position
      among all tables the library found on the page, admitted or not. */
  function Markers(raw: seq<Rows>, p: PageNum): seq<TextBlock> {
    if raw == [] then []
    else
      var n := |raw| - 1;
      Markers(raw[..n], p) + (if |raw[n]| > 1 then [MarkerBlock(p, n + 1)] else [])
  }

  /** Markers and admitted tables go in pairs: the k-th marker names the page and the 1-based
      position of the k-th admitted table, which has at least two rows, source pdfplumber and
      the computed confidence. */
  lemma {:induction false} MarkersMatchTables(raw: seq<Rows>, p: PageNum)
    ensures var ms, ts := Markers(raw, p), LayoutTables(raw, p);
      && |ms| == |ts|
      && forall k :: 0 <= k < |ms| ==> MarkerPair(raw, p, ms[k], ts[k])
  {
    if raw != [] {
      var n := |raw| - 1;
      MarkersMatchTables(raw[..n], p);
      forall k | 0 <= k < |Markers(raw[..n], p)|
        ensures MarkerPair(raw, p, Markers(raw, p)[k], LayoutTables(raw, p)[k])
      {
        assert MarkerPair(raw[..n], p, Markers(raw[..n], p)[k], LayoutTables(raw[..n], p)[k]);
        var i :| 0 <= i < n && |raw[..n][i]| > 1 && Markers(raw[..n], p)[k] == MarkerBlock(p, i + 1)
          && LayoutTables(raw[..n], p)[k] == TableData(raw[..n][i], p, Pdfplumber, Confidence.Score(raw[..n][i]));
        assert raw[..n][i] == raw[i];
      }
    }
  }

  /** The marker `m` and the table `t` both stand for the `i`-th table of the page. */
  predicate MarkerPair(raw: seq<Rows>, p: PageNum, m: TextBlock, t: TableData) {
    exists i :: 0 <= i < |raw| && |raw[i]| > 1 && m == MarkerBlock(p, i + 1)
      && t == TableData(raw[i], p, Pdfplumber, Confidence.Score(raw[i]))
  }

  /** Everything one page adds to `text_blocks`: its paragraphs, then its markers. */
  function PageBlocks(pg: PdfPage, p: PageNum): seq<TextBlock> {
    ParagraphBlocks(pg.text, p) + Markers(pg.tables, p)
  }

  /** `text_blocks` after `_extract_with_pdfplumber`: the pages in order, numbered from 1. */
  function DocBlocks(pages: seq<PdfPage>): seq<TextBlock> {
    if pages == [] then []
    else
      var n := |pages| - 1;
      DocBlocks(pages[..n]) + PageBlocks(pages[n], n + 1)
  }

  /** `tables` after `_extract_with_pdfplumber`. */
  function DocTables(pages: seq<PdfPage>): seq<TableData> {
    if pages == [] then []
    else
      var n := |pages| - 1;
      DocTables(pages[..n]) + LayoutTables(pages[n].tables, n + 1)
  }

  lemma {:induction false} MarkersOnPage(raw: seq<Rows>, p: PageNum)
    ensures forall k :: 0 <= k < |Markers(raw, p)| ==> Markers(raw, p)[k].page == p
  {
    if raw != [] {
      MarkersOnPage(raw[..|raw| - 1], p);
    }
  }

  /** Blocks come page by page: their pages never decrease and lie between 1 and the number
      of pages. */
  lemma {:induction false} DocBlocksSorted(pages: seq<PdfPage>)
    ensures SortedUpTo(DocBlocks(pages), |pages|)
  {
    if pages != [] {
      var n := |pages| - 1;
      DocBlocksSorted(pages[..n]);
      var pb, ms := ParagraphBlocks(pages[n].text, n + 1), Markers(pages[n].tables, n + 1);
      MarkersOnPage(pages[n].tables, n + 1);
      OnPageAppend(pb, ms, n + 1);
      var last := pb + ms;
      assert DocBlocks(pages) == DocBlocks(pages[..n]) + last;
      SortedAppend(DocBlocks(pages[..n]), last, n);
    }
  }

  /** Every block of `bs` lies on page `p`. */
  predicate OnPage(bs: seq<TextBlock>, p: PageNum) {
    forall j :: 0 <= j < |bs| ==> bs[j].page == p
  }

  lemma OnPageAppend(a: seq<TextBlock>, b: seq<TextBlock>, p: PageNum)
    requires OnPage(a, p) && OnPage(b, p)
    ensures OnPage(a + b, p)
  {
    forall j | 0 <= j < |a + b| ensures (a + b)[j].page == p {
      if j >= |a| {
        assert (a + b)[j] == b[j - |a|];
      }
    }
  }

  /** The block pages never decrease and none exceeds `m`. */
  predicate SortedUpTo(bs: seq<TextBlock>, m: nat) {
    && (forall i :: 0 <= i < |bs| ==> bs[i].page <= m)
    && (forall i, j :: 0 <= i < j < |bs| ==> bs[i].page <= bs[j].page)
  }

  lemma SortedAppend(front: seq<TextBlock>, last: seq<TextBlock>, n: nat)
    requires SortedUpTo(front, n)
    requires OnPage(last, n + 1)
    ensures SortedUpTo(front + last, n + 1)
  {
    var bs := front + last;
    forall i, j | 0 <= i < j < |bs| ensures bs[i].page <= bs[j].page {
      if j >= |front| && i < |front| {
        assert bs[i] == front[i] && bs[j] == last[j - |front|];
      }
    }
  }

  /** Every layout table has at least two rows, comes from pdfplumber with its computed
      confidence, and has a marker block of its own page among the blocks. */
  lemma {:induction false} DocTablesMarked(pages: seq<PdfPage>)
    ensures LayoutShaped(DocTables(pages), |pages|)
    ensures Marked(DocBlocks(pages), DocTables(pages))
  {
    if pages != [] {
      var n := |pages| - 1;
      DocTablesMarked(pages[..n]);
      var raw := pages[n].tables;
      PagePairs(raw, n + 1);
      assert DocBlocks(pages) == DocBlocks(pages[..n]) + ParagraphBlocks(pages[n].text, n + 1) + Markers(raw, n + 1);
      MarkedAppend(DocBlocks(pages[..n]), DocTables(pages[..n]), ParagraphBlocks(pages[n].text, n + 1),
                   Markers(raw, n + 1), LayoutTables(raw, n + 1));
      ShapedAppend(DocTables(pages[..n]), LayoutTables(raw, n + 1), n);
    }
  }

  /** Tables as the layout pass admits them, on pages up to `m`. */
  predicate LayoutShaped(ts: seq<TableData>, m: nat) {
    forall k :: 0 <= k < |ts| ==>
      && |ts[k].data| > 1 && ts[k].source == Pdfplumber
      && ts[k].confidence == Confidence.Score(ts[k].data) && ts[k].page <= m
  }

  /** Every table has a marker block of its page among `bs`. */
  predicate Marked(bs: seq<TextBlock>, ts: seq<TableData>) {
    forall k :: 0 <= k < |ts| ==> HasMarker(bs, ts[k])
  }

  predicate HasMarker(bs: seq<TextBlock>, t: TableData) {
    exists b :: 0 <= b < |bs| && IsMarkerOf(bs[b], t)
  }

  predicate IsMarkerOf(b: TextBlock, t: TableData) {
    b.kind == TableMarker && b.page == t.page
  }

  /** On one page, the k-th marker is a marker of the k-th admitted table, and the admitted
      tables are shaped as the layout pass admits them. */
  lemma PagePairs(raw: seq<Rows>, p: PageNum)
    ensures |Markers(raw, p)| == |LayoutTables(raw, p)|
    ensures forall j :: 0 <= j < |Markers(raw, p)| ==> IsMarkerOf(Markers(raw, p)[j], LayoutTables(raw, p)[j])
    ensures LayoutShaped(LayoutTables(raw, p), p)
  {
    var ms, lt := Markers(raw, p), LayoutTables(raw, p);
    MarkersMatchTables(raw, p);
    forall j | 0 <= j < |ms|
      ensures IsMarkerOf(ms[j], lt[j])
      ensures |lt[j].data| > 1 && lt[j].source == Pdfplumber
        && lt[j].confidence == Confidence.Score(lt[j].data) && lt[j].page <= p
    {
      assert MarkerPair(raw, p, ms[j], lt[j]);
    }
  }

  lemma MarkedAppend(bs: seq<TextBlock>, ts: seq<TableData>, mid: seq<TextBlock>, ms: seq<TextBlock>, lt: seq<TableData>)
    requires Marked(bs, ts)
    requires |ms| == |lt| && forall j :: 0 <= j < |ms| ==> IsMarkerOf(ms[j], lt[j])
    ensures Marked(bs + mid + ms, ts + lt)
  {
    var all, allT := bs + mid + ms, ts + lt;
    forall k | 0 <= k < |allT| ensures HasMarker(all, allT[k]) {
      if k < |ts| {
        assert HasMarker(bs, ts[k]);
        var b :| 0 <= b < |bs| && IsMarkerOf(bs[b], ts[k]);
        assert all[b] == bs[b] && allT[k] == ts[k];
        assert IsMarkerOf(all[b], allT[k]);
      } else {
        var j := k - |ts|;
        assert all[|bs| + |mid| + j] == ms[j] && allT[k] == lt[j];
        assert IsMarkerOf(all[|bs| + |mid| + j], allT[k]);
      }
    }
  }

  lemma ShapedAppend(ts: seq<TableData>, lt: seq<TableData>, n: nat)
    requires LayoutShaped(ts, n) && LayoutShaped(lt, n + 1)
    ensures LayoutShaped(ts + lt, n + 1)
  {
    var all := ts + lt;
    forall k | 0 <= k < |all|
      ensures |all[k].data| > 1 && all[k].source == Pdfplumber
        && all[k].confidence == Confidence.Score(all[k].data) && all[k].page <= n + 1
    {
      if k < |ts| { assert all[k] == ts[k]; } else { assert all[k] == lt[k - |ts|]; }
    }
  }

  /** The tables admitted from one camelot run (`len(table.df) > 1`), recorded with the run's
      source and camelot's accuracy as confidence. */
  function CamelotAdmitted(run: seq<CamelotTable>, src: Source): (ts: seq<TableData>)
    ensures |ts| <= |run|
    ensures forall k :: 0 <= k < |ts| ==> |ts[k].data| > 1 && ts[k].source == src
    ensures forall k :: 0 <= k < |ts| ==> exists i :: 0 <= i < |run| && AdmittedAs(run[i], src, ts[k])
  {
    if run == [] then []
    else
      var n := |run| - 1;
      var c := run[n];
      CamelotAdmitted(run[..n], src)
      + (if |c.rows| > 1 then [TableData(c.rows, c.page, src, c.accuracy)] else [])
  }

  /** `t` is the record of the camelot table `c`, which has more than one row. */
  predicate AdmittedAs(c: CamelotTable, src: Source, t: TableData) {
    |c.rows| > 1 && t == TableData(c.rows, c.page, src, c.accuracy)
  }

  /** The positions of the run's tables with more than one row, in increasing order. */
  function AdmittedIndices(run: seq<CamelotTable>): (idx: seq<nat>)
    ensures forall k :: 0 <= k < |idx| ==> idx[k] < |run| && |run[idx[k]].rows| > 1
    ensures forall k, l :: 0 <= k < l < |idx| ==> idx[k] < idx[l]
    ensures forall i :: 0 <= i < |run| && |run[i].rows| > 1 ==> i in idx
  {
    if run == [] then []
    else
      var n := |run| - 1;
      AdmittedIndices(run[..n]) + (if |run[n].rows| > 1 then [n] else [])
  }

  /** Admission is an order-preserving selection: the k-th admitted table is the record of
      the run's k-th table with more than one row (`AdmittedIndices` lists them in order). */
  lemma {:induction false} CamelotAdmittedSelects(run: seq<CamelotTable>, src: Source)
    ensures |CamelotAdmitted(run, src)| == |AdmittedIndices(run)|
    ensures forall k :: 0 <= k < |CamelotAdmitted(run, src)| ==>
      AdmittedAs(run[AdmittedIndices(run)[k]], src, CamelotAdmitted(run, src)[k])
  {
    if run != [] {
      var n := |run| - 1;
      var front := run[..n];
      CamelotAdmittedSelects(front, src);
      var ts0, idx0 := CamelotAdmitted(front, src), AdmittedIndices(front);
      forall k | 0 <= k < |ts0| ensures idx0[k] < n && AdmittedAs(run[idx0[k]], src, ts0[k]) {
        assert front[idx0[k]] == run[idx0[k]];
      }
      var c := run[n];
      var x := TableData(c.rows, c.page, src, c.accuracy);
      SelectAppend(run, src, ts0, idx0, CamelotAdmitted(run, src), AdmittedIndices(run), x);
    }
  }

  /** One more table of the run: the selection grows by its record, or stays as it is. */
  lemma SelectAppend(run: seq<CamelotTable>, src: Source, ts0: seq<TableData>, idx0: seq<nat>,
                     ts: seq<TableData>, idx: seq<nat>, x: TableData)
    requires run != [] && |ts0| == |idx0|
    requires forall k :: 0 <= k < |ts0| ==> idx0[k] < |run| - 1 && AdmittedAs(run[idx0[k]], src, ts0[k])
    requires |run[|run| - 1].rows| > 1 ==>
      ts == ts0 + [x] && idx == idx0 + [|run| - 1] && AdmittedAs(run[|run| - 1], src, x)
    requires |run[|run| - 1].rows| <= 1 ==> ts == ts0 && idx == idx0
    ensures |ts| == |idx|
    ensures forall k :: 0 <= k < |ts| ==> AdmittedAs(run[idx[k]], src, ts[k])
  {
    if |run[|run| - 1].rows| > 1 {
      forall k | 0 <= k < |ts| ensures AdmittedAs(run[idx[k]], src, ts[k]) {
        if k < |ts0| { assert ts[k] == ts0[k] && idx[k] == idx0[k]; }
      }
    }
  }

  /** Every table of the run with more than one row is admitted. */
  lemma {:induction false} CamelotAdmittedKeeps(run: seq<CamelotTable>, src: Source)
    ensures forall c :: c in run && |c.rows| > 1 ==>
      TableData(c.rows, c.page, src, c.accuracy) in CamelotAdmitted(run, src)
  {
    if run != [] {
      var n := |run| - 1;
      CamelotAdmittedKeeps(run[..n], src);
      forall c | c in run && |c.rows| > 1
        ensures TableData(c.rows, c.page, src, c.accuracy) in CamelotAdmitted(run, src)
      {
        var i :| 0 <= i < |run| && run[i] == c;
        if i < n { assert run[..n][i] == c; }
      }
    }
  }


  /** The tables `_extract_tables_with_camelot` appends: nothing when the stream run fails;
      otherwise the stream tables, then the lattice tables when the lattice run succeeds. */
  function CamelotTables(stream: Result<seq<CamelotTable>, string>,
                         lattice: Result<seq<CamelotTable>, string>): (ts: seq<TableData>)
    ensures stream.Failure? ==> ts == []
    ensures forall k :: 0 <= k < |ts| ==>
      |ts[k].data| > 1 && (ts[k].source == CamelotStream || ts[k].source == CamelotLattice)
  {
    match stream
    case Failure(_) => []
    case Success(s) =>
      var st := CamelotAdmitted(s, CamelotStream);
      var la := match lattice case Success(l) => CamelotAdmitted(l, CamelotLattice) case Failure(_) => [];
      assert forall k :: 0 <= k < |la| ==> |la[k].data| > 1 && la[k].source == CamelotLattice;
      st + la
  }

  /** The report line a failed stream run leaves. */
  function CamelotReport(stream: Result<seq<CamelotTable>, string>): (r: seq<ReportLine>)
    ensures |r| <= 1 && (r != [] <==> stream.Failure?)
    ensures forall k :: 0 <= k < |r| ==> r[k].CamelotError?
  {
    match stream
    case Failure(e) => [CamelotError("Camelot 오류: " + e)]
    case Success(_) => []
  }

  /** Rounding decides ties: the worked-example layout table scores 1640/21, below a stream
      accuracy of 78.1, but its stored score rounds to 78.1, so the tie keeps the layout table,
      whose source comes first on the page. */
  lemma RoundingDecidesTie(ex: Rows, t2: TableData)
    requires ex == [[Some("a"), Some("b")], [Some(""), Some("d")], [Some("e"), Some("f"), Some("g")]]
    requires t2.page == 1 && t2.source == CamelotStream && t2.confidence == 78.1
    ensures Confidence.Confidence(ex) < t2.confidence
    ensures var t1 := TableData(ex, 1, Pdfplumber, Confidence.Score(ex));
      && CrossValidation.CrossValidated([t1, t2]) == [t1]
      && CrossValidation.ReportLines([t1, t2]) == [Selected(1, Pdfplumber, 78.1)]
  {
    Confidence.WorkedExample();
    Confidence.WorkedExampleScore();
    var t1 := TableData(ex, 1, Pdfplumber, Confidence.Score(ex));
    var ts := [t1, t2];
    assert forall k :: 0 <= k < |ts| ==> ts[k].page == 1;
    CrossValidation.TwoSourcesWinner(t1, t2);
    CrossValidation.OnePageKept(ts, 1);
    CrossValidation.OnePageSelected(ts, 1);
  }

  /** A lattice failure is swallowed: it leaves no report line and keeps the stream tables;
      a stream failure keeps no camelot table at all and leaves one report line. */
  lemma CamelotFailures(stream: Result<seq<CamelotTable>, string>,
                        lattice: Result<seq<CamelotTable>, string>)
    ensures stream.Success? && lattice.Failure? ==>
      CamelotTables(stream, lattice) == CamelotAdmitted(stream.value, CamelotStream)
      && CamelotReport(stream) == []
    ensures stream.Failure? ==>
      CamelotTables(stream, lattice) == [] && |CamelotReport(stream)| == 1
      && CamelotReport(stream)[0].CamelotError?
  {
  }

  /** When both runs succeed: the stream run's tables with more than one row, in run order,
      then the lattice run's, and no report line. */
  lemma CamelotBothSucceed(s: seq<CamelotTable>, l: seq<CamelotTable>)
    ensures |CamelotTables(Success(s), Success(l))| == |AdmittedIndices(s)| + |AdmittedIndices(l)|
    ensures forall k :: 0 <= k < |AdmittedIndices(s)| ==>
      AdmittedAs(s[AdmittedIndices(s)[k]], CamelotStream, CamelotTables(Success(s), Success(l))[k])
    ensures forall k :: 0 <= k < |AdmittedIndices(l)| ==>
      AdmittedAs(l[AdmittedIndices(l)[k]], CamelotLattice,
                 CamelotTables(Success(s), Success(l))[|AdmittedIndices(s)| + k])
    ensures CamelotReport(Success(s)) == []
  {
    StreamPartSelects(s, l);
    LatticePartSelects(s, l);
  }

  /** The stream half of `CamelotBothSucceed`. */
  lemma StreamPartSelects(s: seq<CamelotTable>, l: seq<CamelotTable>)
    ensures |CamelotTables(Success(s), Success(l))| == |AdmittedIndices(s)| + |AdmittedIndices(l)|
    ensures forall k :: 0 <= k < |AdmittedIndices(s)| ==>
      AdmittedAs(s[AdmittedIndices(s)[k]], CamelotStream, CamelotTables(Success(s), Success(l))[k])
  {
    var st, la := CamelotAdmitted(s, CamelotStream), CamelotAdmitted(l, CamelotLattice);
    CamelotAdmittedSelects(s, CamelotStream);
    CamelotAdmittedSelects(l, CamelotLattice);
    assert CamelotTables(Success(s), Success(l)) == st + la;
    AppendSelections(s, l, AdmittedIndices(s), AdmittedIndices(l), st, la);
  }

  /** The lattice half of `CamelotBothSucceed`. */
  lemma LatticePartSelects(s: seq<CamelotTable>, l: seq<CamelotTable>)
    ensures |CamelotTables(Success(s), Success(l))| == |AdmittedIndices(s)| + |AdmittedIndices(l)|
    ensures forall k :: 0 <= k < |AdmittedIndices(l)| ==>
      AdmittedAs(l[AdmittedIndices(l)[k]], CamelotLattice,
                 CamelotTables(Success(s), Success(l))[|AdmittedIndices(s)| + k])
  {
    var st, la := CamelotAdmitted(s, CamelotStream), CamelotAdmitted(l, CamelotLattice);
    CamelotAdmittedSelects(s, CamelotStream);
    CamelotAdmittedSelects(l, CamelotLattice);
    assert CamelotTables(Success(s), Success(l)) == st + la;
    AppendSelections(s, l, AdmittedIndices(s), AdmittedIndices(l), st, la);
  }

  /** Two selections, one after the other, select from their own runs at shifted places. */
  lemma AppendSelections(s: seq<CamelotTable>, l: seq<CamelotTable>, si: seq<nat>, li: seq<nat>,
                         st: seq<TableData>, la: seq<TableData>)
    requires |st| == |si| && |la| == |li|
    requires forall k :: 0 <= k < |si| ==> si[k] < |s|
    requires forall k :: 0 <= k < |li| ==> li[k] < |l|
    requires forall k :: 0 <= k < |si| ==> AdmittedAs(s[si[k]], CamelotStream, st[k])
    requires forall k :: 0 <= k < |li| ==> AdmittedAs(l[li[k]], CamelotLattice, la[k])
    ensures forall k :: 0 <= k < |si| ==> AdmittedAs(s[si[k]], CamelotStream, (st + la)[k])
    ensures forall k :: 0 <= k < |li| ==> AdmittedAs(l[li[k]], CamelotLattice, (st + la)[|si| + k])
  {
  }

  /** The candidates cross-validation starts from: layout tables, then camelot tables. */
  function AllCandidates(pages: seq<PdfPage>, stream: Result<seq<CamelotTable>, string>,
                         lattice: Result<seq<CamelotTable>, string>): seq<TableData> {
    DocTables(pages) + CamelotTables(stream, lattice)
  }

  /** On the extractor's own output, every Markdown page section and every HTML page division
      belongs to a distinct page, in increasing page order, and every layout table that
      survives cross-validation is kept by the JSON record, since its page holds its marker. */
  lemma {:induction false} PipelineOutputs(pages: seq<PdfPage>, stream: Result<seq<CamelotTable>, string>,
                                           lattice: Result<seq<CamelotTable>, string>, pdfFile: string)
    ensures var bs := DocBlocks(pages);
      var ts := CrossValidation.CrossValidated(AllCandidates(pages, stream, lattice));
      var ss := Render.SectionStarts(bs);
      && Render.HeaderPages(Render.MarkdownOf(bs, ts)) == ss
      && Render.OpenedPages(Render.HtmlOf(bs, ts)) == ss
      && (forall i, j :: 0 <= i < j < |ss| ==> ss[i] < ss[j])
      && (forall k :: 0 <= k < |ts| && ts[k].source == Pdfplumber ==> KeptInJson(pdfFile, bs, ts, k))
  {
    var bs := DocBlocks(pages);
    var ts := CrossValidation.CrossValidated(AllCandidates(pages, stream, lattice));
    DocBlocksSorted(pages);
    SectionsInOrder(bs, ts);
    LayoutTablesInJson(pages, stream, lattice, pdfFile);
  }

  /** Page sections of both renderings, for blocks in page order. */
  lemma SectionsInOrder(bs: seq<TextBlock>, ts: seq<TableData>)
    requires forall i, j :: 0 <= i < j < |bs| ==> bs[i].page <= bs[j].page
    ensures var ss := Render.SectionStarts(bs);
      && Render.HeaderPages(Render.MarkdownOf(bs, ts)) == ss
      && Render.OpenedPages(Render.HtmlOf(bs, ts)) == ss
      && (forall i, j :: 0 <= i < j < |ss| ==> ss[i] < ss[j])
  {
    Render.SectionsOfSortedBlocks(bs);
    Render.MarkdownSections(bs, ts);
    Render.HtmlBalanced(bs, ts);
  }

  /** Every layout table that survives cross-validation is kept by the JSON record. */
  lemma LayoutTablesInJson(pages: seq<PdfPage>, stream: Result<seq<CamelotTable>, string>,
                           lattice: Result<seq<CamelotTable>, string>, pdfFile: string)
    ensures var ts := CrossValidation.CrossValidated(AllCandidates(pages, stream, lattice));
      forall k :: 0 <= k < |ts| && ts[k].source == Pdfplumber ==> KeptInJson(pdfFile, DocBlocks(pages), ts, k)
  {
    var bs := DocBlocks(pages);
    var all := AllCandidates(pages, stream, lattice);
    var ts := CrossValidation.CrossValidated(all);
    ValidatedAreCandidates(all);
    DocTablesMarked(pages);
    forall k | 0 <= k < |ts| && ts[k].source == Pdfplumber
      ensures KeptInJson(pdfFile, bs, ts, k)
    {
      var b := SurvivorMarker(bs, DocTables(pages), CamelotTables(stream, lattice), ts[k]);
      Export.JsonKeepsTable(pdfFile, bs, ts, k, b);
    }
  }

  /** The part of `CrossValidatedShape` the JSON argument needs: survivors are candidates. */
  lemma ValidatedAreCandidates(all: seq<TableData>)
    ensures forall i :: 0 <= i < |CrossValidation.CrossValidated(all)| ==> CrossValidation.CrossValidated(all)[i] in all
  {
    CrossValidation.CrossValidatedShape(all);
  }

  /** The table `ts[k]` appears in the JSON entry of its page. */
  predicate KeptInJson(pdfFile: string, bs: seq<TextBlock>, ts: seq<TableData>, k: nat)
    requires k < |ts|
  {
    var c := Export.JsonOf(pdfFile, bs, ts).content;
    exists i :: 0 <= i < |c| && c[i].pageNumber == ts[k].page && Export.JsonTableOf(ts[k]) in c[i].tables
  }

  /** A layout-sourced candidate has a marker block of its page. */
  lemma SurvivorMarker(bs: seq<TextBlock>, lt: seq<TableData>, cam: seq<TableData>, t: TableData) returns (b: nat)
    requires Marked(bs, lt)
    requires forall k :: 0 <= k < |cam| ==> cam[k].source != Pdfplumber
    requires t in lt + cam && t.source == Pdfplumber
    ensures b < |bs| && bs[b].page == t.page
  {
    var a :| 0 <= a < |lt + cam| && (lt + cam)[a] == t;
    assert a < |lt|;
    assert HasMarker(bs, lt[a]);
    b :| 0 <= b < |bs| && IsMarkerOf(bs[b], lt[a]);
  }
}
