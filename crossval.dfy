/** Per-page cross-validation (`_cross_validate_tables`): the candidates are grouped by page;
    a page with one candidate keeps it; on a page with several, each source contributes its
    best candidate and the best of those wins, and a report line records the choice. */
module CrossValidation {
  import opened TextUtil
  import opened Model
  import opened Grouping

  function PageOf(t: TableData): PageNum { t.page }

  function SourceOf(t: TableData): Source { t.source }

  function ConfidenceOf(t: TableData): real { t.confidence }

  /** The candidates of page `p`, in order. */
  function Candidates(ts: seq<TableData>, p: PageNum): seq<TableData> {
    Members(ts, PageOf, p)
  }

  /** `max(tables, key=confidence)` over the candidates of source `src` in `g`. */
  function SourceBest(g: seq<TableData>, src: Source): (b: TableData)
    requires |Members(g, SourceOf, src)| > 0
  {
    Max(Members(g, SourceOf, src), ConfidenceOf)
  }

  /** `best_tables`: for every source of the page, in order of first appearance, the first of
      that source's candidates with the highest confidence. */
  function SourceBests(g: seq<TableData>): (bs: seq<TableData>)
    ensures |bs| == |KeysInOrder(g, SourceOf)|
    ensures forall i :: 0 <= i < |bs| ==> bs[i] in g && bs[i].source == KeysInOrder(g, SourceOf)[i]
  {
    var ss := KeysInOrder(g, SourceOf);
    assert forall i :: 0 <= i < |ss| ==> SourceBest(g, ss[i]) in g by {
      forall i | 0 <= i < |ss| ensures SourceBest(g, ss[i]) in g {
        MembersAreElements(g, SourceOf, ss[i]);
      }
    }
    seq(|ss|, i requires 0 <= i < |ss| => SourceBest(g, ss[i]))
  }

  /** The table kept for a page with candidates `g`. */
  function PageWinner(g: seq<TableData>): (w: TableData)
    requires |g| > 0
  {
    if |g| == 1 then g[0] else Max(SourceBests(g), ConfidenceOf)
  }

  /** The winner is one of the page's candidates, and no candidate has a higher confidence. */
  lemma WinnerIsBest(g: seq<TableData>)
    requires |g| > 0
    ensures PageWinner(g) in g
    ensures forall t :: t in g ==> t.confidence <= PageWinner(g).confidence
  {
    if |g| > 1 {
      var bs := SourceBests(g);
      var ss := KeysInOrder(g, SourceOf);
      KeysInOrderHas(g, SourceOf);
      assert ss != [] by { assert g[0].source in ss; }
      forall t | t in g ensures t.confidence <= PageWinner(g).confidence {
        var k :| 0 <= k < |g| && g[k] == t;
        assert t.source in ss;
        var s :| 0 <= s < |ss| && ss[s] == t.source;
        assert t in Members(g, SourceOf, ss[s]) by {
          MemberOf(g, SourceOf, k);
        }
        assert bs[s] in bs;
      }
    }
  }

  /** Source number `s` of `g` (in order of first appearance) supplies the page winner, and
      every source before it has a strictly lower best. */
  predicate DecidingSource(g: seq<TableData>, s: int)
    requires |g| > 0
  {
    var ss := KeysInOrder(g, SourceOf);
    && 0 <= s < |ss| && PageWinner(g) == SourceBest(g, ss[s])
    && forall s' :: 0 <= s' < s ==> SourceBest(g, ss[s']).confidence < PageWinner(g).confidence
  }

  /** The tie-break: the winner of a page with several candidates is the best candidate of
      the first source (in order of first appearance) whose best confidence is the highest;
      every source seen before it has a strictly lower best. Within a source the best is the
      first candidate of highest confidence (`Max`). */
  lemma WinnerTieBreak(g: seq<TableData>)
    requires |g| > 1
    ensures exists s :: DecidingSource(g, s)
  {
    var ss := KeysInOrder(g, SourceOf);
    var bs := SourceBests(g);
    KeysInOrderHas(g, SourceOf);
    assert g[0].source in ss;
    var s := FirstMaxIndex(bs, ConfidenceOf);
    assert PageWinner(g) == bs[s] == SourceBest(g, ss[s]);
    forall s' | 0 <= s' < s ensures SourceBest(g, ss[s']).confidence < PageWinner(g).confidence {
      assert bs[s'] == SourceBest(g, ss[s']);
      assert ConfidenceOf(bs[s']) < ConfidenceOf(bs[s]);
    }
    assert DecidingSource(g, s);
  }

  /** `[A:50, B:90, A:90]` on one page: source A (the layout library) comes first and its best
      is its second candidate, 90, which ties B's 90, so the second A candidate wins, while a
      single `max` over the candidates would pick B. */
  lemma TieBreakExample()
    ensures var g := [TableData([], 1, Pdfplumber, 50.0), TableData([], 1, CamelotStream, 90.0),
                      TableData([], 1, Pdfplumber, 90.0)];
      PageWinner(g) == g[2] && Max(g, ConfidenceOf) == g[1]
  {
    var a1, b, a2 := TableData([], 1, Pdfplumber, 50.0), TableData([], 1, CamelotStream, 90.0),
                     TableData([], 1, Pdfplumber, 90.0);
    var g := [a1, b, a2];
    TieBreakBests(a1, b, a2);
    assert [a2, b][..1] == [a2];
    assert FirstMaxIndex([a2, b], ConfidenceOf) == 0;
    assert [a1, b, a2][..2] == [a1, b] && [a1, b][..1] == [a1];
    assert FirstMaxIndex(g, ConfidenceOf) == 1;
  }

  /** The sources of the example page and their best candidates. */
  lemma TieBreakBests(a1: TableData, b: TableData, a2: TableData)
    requires a1 == TableData([], 1, Pdfplumber, 50.0) && b == TableData([], 1, CamelotStream, 90.0)
    requires a2 == TableData([], 1, Pdfplumber, 90.0)
    ensures SourceBests([a1, b, a2]) == [a2, b]
  {
    TieBreakGroups(a1, b, a2);
    assert [a1, a2][..1] == [a1];
    assert FirstMaxIndex([a1, a2], ConfidenceOf) == 1;
  }

  /** The grouping of the example page by source. */
  lemma TieBreakGroups(a1: TableData, b: TableData, a2: TableData)
    requires a1.source == Pdfplumber && b.source == CamelotStream && a2.source == Pdfplumber
    ensures KeysInOrder([a1, b, a2], SourceOf) == [Pdfplumber, CamelotStream]
    ensures Members([a1, b, a2], SourceOf, Pdfplumber) == [a1, a2]
    ensures Members([a1, b, a2], SourceOf, CamelotStream) == [b]
  {
    var g := [a1, b, a2];
    assert g[..2] == [a1, b] && [a1, b][..1] == [a1] && [a1][..0] == [];
    assert KeysInOrder([a1], SourceOf) == [Pdfplumber];
    assert KeysInOrder([a1, b], SourceOf) == [Pdfplumber, CamelotStream];
    assert Members([a1], SourceOf, CamelotStream) == [];
    assert Members([a1, b], SourceOf, CamelotStream) == [b];
  }

  /** `tables` after cross-validation: one winner per page, pages in order of first
      appearance among the candidates. */
  function CrossValidated(ts: seq<TableData>): seq<TableData>
  {
    var pages := KeysInOrder(ts, PageOf);
    seq(|pages|, i requires 0 <= i < |pages| => PageWinner(Candidates(ts, pages[i])))
  }

  /** Exactly one table per page that had a candidate: the i-th result belongs to the i-th
      page in order of first appearance, the pages are distinct and every candidate's page is
      among them; each result is one of its page's candidates with no candidate of that page
      more confident, and a page with a single candidate keeps it whatever its confidence. */
  lemma CrossValidatedShape(ts: seq<TableData>)
    ensures var r, pages := CrossValidated(ts), KeysInOrder(ts, PageOf);
      && |r| == |pages|
      && (forall i, j :: 0 <= i < j < |pages| ==> pages[i] != pages[j])
      && (forall k :: 0 <= k < |ts| ==> ts[k].page in pages)
      && (forall i :: 0 <= i < |r| ==> r[i] in ts && r[i].page == pages[i])
      && (forall i, t :: 0 <= i < |r| && t in ts && t.page == pages[i] ==> t.confidence <= r[i].confidence)
      && (forall i :: 0 <= i < |r| && |Candidates(ts, pages[i])| == 1 ==> r[i] == Candidates(ts, pages[i])[0])
  {
    var r, pages := CrossValidated(ts), KeysInOrder(ts, PageOf);
    KeysInOrderHas(ts, PageOf);
    forall k | 0 <= k < |ts| ensures ts[k].page in pages {
      assert PageOf(ts[k]) == ts[k].page;
    }
    forall i | 0 <= i < |r|
      ensures r[i] in ts && r[i].page == pages[i]
      ensures forall t :: t in ts && t.page == pages[i] ==> t.confidence <= r[i].confidence
    {
      PageResult(ts, pages[i]);
    }
  }

  /** The table kept for page `p` is a candidate of that page, and no candidate of the page
      is more confident. */
  lemma PageResult(ts: seq<TableData>, p: PageNum)
    requires |Candidates(ts, p)| > 0
    ensures var w := PageWinner(Candidates(ts, p));
      && w in ts && w.page == p
      && forall t :: t in ts && t.page == p ==> t.confidence <= w.confidence
  {
    var g := Candidates(ts, p);
    var w := PageWinner(g);
    WinnerIsBest(g);
    MembersAreElements(ts, PageOf, p);
    var j :| 0 <= j < |g| && g[j] == w;
    assert PageOf(g[j]) == p;
    forall t | t in ts && t.page == p ensures t.confidence <= w.confidence {
      var k :| 0 <= k < |ts| && ts[k] == t;
      MemberOf(ts, PageOf, k);
    }
  }

  /** The pages of `pages` with more than one candidate, in order. */
  function DisputedPages(ts: seq<TableData>, pages: seq<PageNum>): (r: seq<PageNum>)
    ensures forall p :: p in r <==> p in pages && |Candidates(ts, p)| > 1
    ensures (forall i, j :: 0 <= i < j < |pages| ==> pages[i] != pages[j]) ==>
              forall i, j :: 0 <= i < j < |r| ==> r[i] != r[j]
  {
    if pages == [] then []
    else
      var front := pages[..|pages| - 1];
      var p := pages[|pages| - 1];
      assert forall q :: q in pages <==> q in front || q == p;
      assert (forall i, j :: 0 <= i < j < |pages| ==> pages[i] != pages[j]) ==> p !in front;
      DisputedPages(ts, front) + (if |Candidates(ts, p)| > 1 then [p] else [])
  }

  /** The report line for page `p`: the source and confidence of the table kept for it. */
  function SelectedLine(ts: seq<TableData>, p: PageNum): ReportLine
    requires |Candidates(ts, p)| > 0
  {
    var w := PageWinner(Candidates(ts, p));
    Selected(p, w.source, w.confidence)
  }

  /** The lines cross-validation appends to `comparison_report`, one per disputed page in
      page order. */
  function ReportLines(ts: seq<TableData>): seq<ReportLine> {
    ReportLinesOf(ts, KeysInOrder(ts, PageOf))
  }

  /** The report lines for the pages `pages`, one per disputed page, in order. */
  function ReportLinesOf(ts: seq<TableData>, pages: seq<PageNum>): seq<ReportLine> {
    SelectedLines(ts, DisputedPages(ts, pages))
  }

  /** The selected-source line of each page of `cs`, in order. */
  function SelectedLines(ts: seq<TableData>, cs: seq<PageNum>): seq<ReportLine>
    requires forall j :: 0 <= j < |cs| ==> |Candidates(ts, cs[j])| > 0
  {
    seq(|cs|, j requires 0 <= j < |cs| => SelectedLine(ts, cs[j]))
  }

  lemma SelectedLinesOne(ts: seq<TableData>, p: PageNum)
    requires |Candidates(ts, p)| > 0
    ensures SelectedLines(ts, [p]) == [SelectedLine(ts, p)]
  {
  }

  lemma SelectedLinesAppend(ts: seq<TableData>, cs0: seq<PageNum>, e: seq<PageNum>)
    requires forall j :: 0 <= j < |cs0| ==> |Candidates(ts, cs0[j])| > 0
    requires forall j :: 0 <= j < |e| ==> |Candidates(ts, e[j])| > 0
    ensures SelectedLines(ts, cs0 + e) == SelectedLines(ts, cs0) + SelectedLines(ts, e)
  {
    var a, b, c := SelectedLines(ts, cs0), SelectedLines(ts, e), SelectedLines(ts, cs0 + e);
    forall j | 0 <= j < |c| ensures c[j] == (a + b)[j] {
      if j < |a| {
        assert (cs0 + e)[j] == cs0[j];
      } else {
        assert (cs0 + e)[j] == e[j - |a|];
      }
    }
  }

  /** Handling one more page adds its report line exactly when it is disputed. */
  lemma ReportLinesOfStep(ts: seq<TableData>, pages: seq<PageNum>, p: PageNum)
    ensures ReportLinesOf(ts, pages + [p]) ==
      ReportLinesOf(ts, pages) + (if |Candidates(ts, p)| > 1 then [SelectedLine(ts, p)] else [])
  {
    DisputedPagesStep(ts, pages, p);
    var e: seq<PageNum> := if |Candidates(ts, p)| > 1 then [p] else [];
    SelectedLinesAppend(ts, DisputedPages(ts, pages), e);
    if |Candidates(ts, p)| > 1 {
      SelectedLinesOne(ts, p);
    } else {
      assert SelectedLines(ts, e) == [];
    }
  }

  /** One more page is disputed or not. */
  lemma DisputedPagesStep(ts: seq<TableData>, pages: seq<PageNum>, p: PageNum)
    ensures DisputedPages(ts, pages + [p]) ==
      DisputedPages(ts, pages) + (if |Candidates(ts, p)| > 1 then [p] else [])
  {
    assert (pages + [p])[..|pages|] == pages;
  }

  /** The report lines are the selected-source lines of the disputed pages, in order. */
  lemma ReportLinesAreSelected(ts: seq<TableData>)
    ensures var lines, cs := ReportLines(ts), DisputedPages(ts, KeysInOrder(ts, PageOf));
      |lines| == |cs| && forall j :: 0 <= j < |cs| ==> lines[j] == SelectedLine(ts, cs[j])
  {
  }

  /** Cross-validation reports exactly the pages with more than one candidate, once each,
      with the source and confidence of the table kept for that page. */
  lemma ReportLinesExact(ts: seq<TableData>)
    ensures var lines, pages := ReportLines(ts), KeysInOrder(ts, PageOf);
      && (forall j :: 0 <= j < |lines| ==>
            && lines[j].Selected? && lines[j].page in pages
            && |Candidates(ts, lines[j].page)| > 1
            && lines[j].source == PageWinner(Candidates(ts, lines[j].page)).source
            && lines[j].confidence == PageWinner(Candidates(ts, lines[j].page)).confidence)
      && (forall p :: p in pages && |Candidates(ts, p)| > 1 ==>
            exists j :: 0 <= j < |lines| && lines[j].page == p)
      && (forall i, j :: 0 <= i < j < |lines| ==> lines[i].page != lines[j].page)
  {
    var lines, pages := ReportLines(ts), KeysInOrder(ts, PageOf);
    var cs := DisputedPages(ts, pages);
    ReportLinesAreSelected(ts);
    forall j | 0 <= j < |lines|
      ensures lines[j].Selected? && lines[j].page in pages && |Candidates(ts, lines[j].page)| > 1
    {
      assert cs[j] in cs;
    }
    forall i, j | 0 <= i < j < |lines| ensures lines[i].page != lines[j].page {
      assert lines[i].page == cs[i] && lines[j].page == cs[j];
    }
    forall p | p in pages && |Candidates(ts, p)| > 1
      ensures exists j :: 0 <= j < |lines| && lines[j].page == p
    {
      var j :| 0 <= j < |cs| && cs[j] == p;
      assert lines[j].page == p;
    }
  }

  /** Two candidates of one page from different sources: the second wins only with a strictly
      higher confidence; on a tie the first source keeps the page. */
  lemma TwoSourcesWinner(t1: TableData, t2: TableData)
    requires t1.page == t2.page && t1.source != t2.source
    ensures PageWinner([t1, t2]) == if t2.confidence > t1.confidence then t2 else t1
  {
    var ts := [t1, t2];
    assert ts[..1] == [t1] && [t1][..0] == [];
    assert KeysInOrder([t1], SourceOf) == [t1.source];
    assert KeysInOrder(ts, SourceOf) == [t1.source, t2.source];
    assert Members(ts, SourceOf, t1.source) == [t1];
    assert Members(ts, SourceOf, t2.source) == [t2];
    assert SourceBests(ts) == [t1, t2];
    assert FirstMaxIndex(ts, ConfidenceOf) == if t2.confidence > t1.confidence then 1 else 0;
  }

  /** Candidates all on page `p` form a single page group. */
  lemma {:induction false} OnePageGroup(ts: seq<TableData>, p: PageNum)
    requires |ts| > 0
    requires forall k :: 0 <= k < |ts| ==> ts[k].page == p
    ensures KeysInOrder(ts, PageOf) == [p] && Candidates(ts, p) == ts
  {
    var front := ts[..|ts| - 1];
    if |front| > 0 {
      OnePageGroup(front, p);
    } else {
      assert ts == [ts[0]];
    }
  }

  /** When every candidate is on page `p`, cross-validation keeps that page's winner alone. */
  lemma OnePageKept(ts: seq<TableData>, p: PageNum)
    requires |ts| > 0
    requires forall k :: 0 <= k < |ts| ==> ts[k].page == p
    ensures CrossValidated(ts) == [PageWinner(ts)]
  {
    OnePageGroup(ts, p);
    var r := CrossValidated(ts);
    assert |r| == 1 && r[0] == PageWinner(Candidates(ts, p));
  }

  /** When every candidate is on page `p`, the page is reported exactly when there was more
      than one candidate. */
  lemma OnePageReport(ts: seq<TableData>, p: PageNum)
    requires |ts| > 0
    requires forall k :: 0 <= k < |ts| ==> ts[k].page == p
    ensures ReportLines(ts) == if |ts| > 1 then [SelectedLine(ts, p)] else []
  {
    OnePageGroup(ts, p);
    assert [p][..0] == [];
    var cs := DisputedPages(ts, [p]);
    assert cs == DisputedPages(ts, []) + (if |ts| > 1 then [p] else []);
    var lines := ReportLines(ts);
    if |ts| > 1 {
      assert |lines| == 1 && lines[0] == SelectedLine(ts, p);
    } else {
      assert |lines| == 0;
    }
  }

  /** A layout table of confidence 70 and a stream table of confidence 85 on page 1: the
      stream table is the only table kept and one report line names it. */
  lemma TwoBackendExample(t1: TableData, t2: TableData)
    requires t1.page == 1 && t1.source == Pdfplumber && t1.confidence == 70.0
    requires t2.page == 1 && t2.source == CamelotStream && t2.confidence == 85.0
    ensures CrossValidated([t1, t2]) == [t2]
    ensures ReportLines([t1, t2]) == [Selected(1, CamelotStream, 85.0)]
  {
    var ts := [t1, t2];
    assert forall k :: 0 <= k < |ts| ==> ts[k].page == 1;
    TwoSourcesWinner(t1, t2);
    OnePageKept(ts, 1);
    OnePageSelected(ts, 1);
  }

  /** When every candidate is on page `p` and there are several, the one report line names
      the page winner. */
  lemma OnePageSelected(ts: seq<TableData>, p: PageNum)
    requires |ts| > 1
    requires forall k :: 0 <= k < |ts| ==> ts[k].page == p
    ensures ReportLines(ts) == [Selected(p, PageWinner(ts).source, PageWinner(ts).confidence)]
  {
    OnePageGroup(ts, p);
    OnePageReport(ts, p);
  }

}
