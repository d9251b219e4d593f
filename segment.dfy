/** Paragraph segmentation of one page's text (`_extract_text_with_layout`): the text is split
    into lines, every line is stripped, blank lines end the open paragraph and the lines of a
    paragraph are joined with single spaces.

    `Runs` is the reference definition (the maximal runs of non-blank lines); `ScanFrom` is the
    source's loop, a left fold of `Step` over the lines; `ScanFromRuns` proves them equal. */
module Segment {
  import opened TextUtil

  /** `[line.strip() for line in text.split('\n')]`. The ensures only expose the
      comprehension to the solver: without them `StrippedRunShape` runs out of resource. */
  function StrippedLines(text: string): (ls: seq<string>)
    ensures |ls| == |Split(text, '\n')|
    ensures forall i :: 0 <= i < |ls| ==> ls[i] == Strip(Split(text, '\n')[i])
  {
    var lines := Split(text, '\n');
    seq(|lines|, i requires 0 <= i < |lines| => Strip(lines[i]))
  }

  /** Length of the run of non-blank lines at the start of `ls`. */
  function RunLength(ls: seq<string>): (n: nat)
    ensures n <= |ls|
    ensures forall i :: 0 <= i < n ==> ls[i] != ""
    ensures n == |ls| || ls[n] == ""
  {
    if ls == [] || ls[0] == "" then 0 else 1 + RunLength(ls[1..])
  }

  /** The maximal runs of non-blank lines, in order. */
  function Runs(ls: seq<string>): seq<seq<string>>
    decreases |ls|
  {
    if ls == [] then []
    else if ls[0] == "" then Runs(ls[1..])
    else
      var n := RunLength(ls);
      [ls[..n]] + Runs(ls[n..])
  }

  /** The non-blank lines, in order. */
  function NonBlank(ls: seq<string>): seq<string>
  {
    if ls == [] then [] else (if ls[0] == "" then [] else [ls[0]]) + NonBlank(ls[1..])
  }

  function Flatten(rs: seq<seq<string>>): seq<string>
  {
    if rs == [] then [] else rs[0] + Flatten(rs[1..])
  }

  /** The state of the source's loop: paragraphs already closed, and `current_paragraph`. */
  datatype ScanState = ScanState(closed: seq<seq<string>>, current: seq<string>)

  /** One iteration of the loop on an already stripped line. */
  function Step(st: ScanState, line: string): ScanState
  {
    if line == "" then
      (if st.current != [] then ScanState(st.closed + [st.current], []) else st)
    else ScanState(st.closed, st.current + [line])
  }

  /** The loop run over the remaining lines `ls` from state `st`. */
  function ScanFrom(st: ScanState, ls: seq<string>): ScanState
    decreases |ls|
  {
    if ls == [] then st else ScanFrom(Step(st, ls[0]), ls[1..])
  }

  /** The closing step after the loop: a still open paragraph is emitted too. */
  function Finish(st: ScanState): seq<seq<string>>
  {
    st.closed + (if st.current == [] then [] else [st.current])
  }

  /** The source's loop, started with no open paragraph, emits the reference runs. */
  lemma {:induction false} ScanFromRuns(d: seq<seq<string>>, ls: seq<string>)
    ensures Finish(ScanFrom(ScanState(d, []), ls)) == d + Runs(ls)
    decreases |ls|, 0
  {
    if ls == [] {
    } else if ls[0] == "" {
      assert ScanFrom(ScanState(d, []), ls) == ScanFrom(ScanState(d, []), ls[1..]);
      ScanFromRuns(d, ls[1..]);
    } else {
      var m := RunLength(ls[1..]);
      assert Step(ScanState(d, []), ls[0]).current == [] + [ls[0]] == [ls[0]];
      assert ScanFrom(ScanState(d, []), ls) == ScanFrom(ScanState(d, [ls[0]]), ls[1..]);
      ScanFromOpenRuns(d, [ls[0]], ls[1..]);
      assert RunLength(ls) == m + 1;
      assert ls[..m + 1] == [ls[0]] + ls[1..][..m];
      assert ls[m + 1..] == ls[1..][m..];
      assert Runs(ls) == [ls[..m + 1]] + Runs(ls[m + 1..]);
    }
  }

  /** With an open paragraph `c`, the loop merges the leading run of `ls` into it and then
      emits the reference runs of the rest. */
  lemma {:induction false} ScanFromOpenRuns(d: seq<seq<string>>, c: seq<string>, ls: seq<string>)
    requires c != []
    ensures Finish(ScanFrom(ScanState(d, c), ls)) ==
      d + [c + ls[..RunLength(ls)]] + Runs(ls[RunLength(ls)..])
    decreases |ls|, 1
  {
    if ls == [] {
      assert c + [] == c;
    } else if ls[0] == "" {
      assert ScanFrom(ScanState(d, c), ls) == ScanFrom(ScanState(d + [c], []), ls[1..]);
      ScanFromRuns(d + [c], ls[1..]);
      assert RunLength(ls) == 0 && ls[..0] == [] && ls[0..] == ls;
      assert c + [] == c;
    } else {
      var m := RunLength(ls[1..]);
      assert ScanFrom(ScanState(d, c), ls) == ScanFrom(ScanState(d, c + [ls[0]]), ls[1..]);
      ScanFromOpenRuns(d, c + [ls[0]], ls[1..]);
      assert RunLength(ls) == m + 1;
      assert ls[m + 1..] == ls[1..][m..];
      assert (c + [ls[0]]) + ls[1..][..m] == c + ls[..m + 1];
    }
  }

  /** Every run is non-empty and holds only non-blank lines of `ls`. */
  lemma {:induction false} RunsShape(ls: seq<string>)
    ensures forall k :: 0 <= k < |Runs(ls)| ==> Runs(ls)[k] != []
    ensures forall k, j :: 0 <= k < |Runs(ls)| && 0 <= j < |Runs(ls)[k]| ==>
      Runs(ls)[k][j] != "" && Runs(ls)[k][j] in ls
    decreases |ls|
  {
    if ls != [] {
      if ls[0] == "" {
        RunsShape(ls[1..]);
      } else {
        var n := RunLength(ls);
        RunsShape(ls[n..]);
        assert Runs(ls) == [ls[..n]] + Runs(ls[n..]);
        forall k, j | 0 <= k < |Runs(ls)| && 0 <= j < |Runs(ls)[k]|
          ensures Runs(ls)[k][j] != "" && Runs(ls)[k][j] in ls
        {
          if k == 0 {
            assert Runs(ls)[k][j] == ls[j];
          } else {
            assert Runs(ls)[k] == Runs(ls[n..])[k - 1];
            var x := Runs(ls[n..])[k - 1][j];
            assert x in ls[n..];
          }
        }
      }
    }
  }

  lemma {:induction false} NonBlankOfRun(ls: seq<string>, n: nat)
    requires n <= |ls|
    requires forall i :: 0 <= i < n ==> ls[i] != ""
    ensures NonBlank(ls) == ls[..n] + NonBlank(ls[n..])
    decreases n
  {
    if n > 0 {
      NonBlankOfRun(ls[1..], n - 1);
      assert ls[1..][n - 1..] == ls[n..];
      assert ls[..n] == [ls[0]] + ls[1..][..n - 1];
    }
  }

  /** No non-blank line is lost, none is repeated, and their order is kept: the runs put back
      together are exactly the non-blank lines. */
  lemma {:induction false} RunsKeepAllLines(ls: seq<string>)
    ensures Flatten(Runs(ls)) == NonBlank(ls)
    decreases |ls|
  {
    if ls != [] {
      if ls[0] == "" {
        RunsKeepAllLines(ls[1..]);
      } else {
        var n := RunLength(ls);
        RunsKeepAllLines(ls[n..]);
        NonBlankOfRun(ls, n);
        assert Runs(ls) == [ls[..n]] + Runs(ls[n..]);
        assert Runs(ls)[1..] == Runs(ls[n..]);
      }
    }
  }

  /** The paragraph texts of one page: none for a missing or empty text (`if not text`). */
  function Paragraphs(text: Option<string>): seq<string>
  {
    match text
    case None => []
    case Some(t) =>
      if t == "" then []
      else
        JoinedRuns(Runs(StrippedLines(t)))
  }

  /** `' '.join(run)` for every run. */
  function JoinedRuns(rs: seq<seq<string>>): seq<string> {
    seq(|rs|, k requires 0 <= k < |rs| => Join(rs[k], " "))
  }

  /** A stripped line holds no line break and, unless blank, neither starts nor ends with
      whitespace. */
  lemma StrippedLineShape(text: string, i: nat)
    requires i < |StrippedLines(text)|
    ensures var x := StrippedLines(text)[i];
      '\n' !in x && (x != "" ==> !IsSpace(x[0]) && !IsSpace(x[|x| - 1]))
  {
    var line := Split(text, '\n')[i];
    assert '\n' !in line;
    StripKeepsChars(line);
  }

  /** Joining non-blank well-formed lines with spaces gives a well-formed paragraph. */
  lemma JoinedRunShape(r: seq<string>)
    requires r != []
    requires forall j :: 0 <= j < |r| ==>
      r[j] != "" && '\n' !in r[j] && !IsSpace(r[j][0]) && !IsSpace(r[j][|r[j]| - 1])
    ensures var p := Join(r, " ");
      p != "" && '\n' !in p && !IsSpace(p[0]) && !IsSpace(p[|p| - 1])
  {
    JoinShape(r, " ");
    var p := Join(r, " ");
    forall i | 0 <= i < |p| ensures p[i] != '\n' {
      if p[i] !in " " {
        var j :| 0 <= j < |r| && p[i] in r[j];
      }
    }
  }

  /** A paragraph text as the extractor adds it: non-empty, without a line break, and
      neither starting nor ending with whitespace. */
  predicate WellFormedParagraph(p: string) {
    p != "" && '\n' !in p && !IsSpace(p[0]) && !IsSpace(p[|p| - 1])
  }

  /** Every paragraph is non-empty, holds no line break and neither starts nor ends with
      whitespace. */
  lemma ParagraphShape(text: Option<string>)
    ensures forall k :: 0 <= k < |Paragraphs(text)| ==> WellFormedParagraph(Paragraphs(text)[k])
  {
    if text.Some? && text.value != "" {
      var ps := Paragraphs(text);
      forall k | 0 <= k < |ps| ensures WellFormedParagraph(ps[k]) {
        RunParagraphShape(text.value, k);
      }
    }
  }

  /** The paragraph made of run `k` of a page's stripped lines is well formed. */
  lemma RunParagraphShape(text: string, k: nat)
    requires text != "" && k < |Paragraphs(Some(text))|
    ensures WellFormedParagraph(Paragraphs(Some(text))[k])
  {
    var r := Runs(StrippedLines(text))[k];
    RunsShape(StrippedLines(text));
    StrippedRunShape(text, r);
    JoinedRunShape(r);
  }

  /** The lines of a run of non-blank stripped lines are well formed. */
  lemma StrippedRunShape(text: string, r: seq<string>)
    requires forall j :: 0 <= j < |r| ==> r[j] != "" && r[j] in StrippedLines(text)
    ensures forall j :: 0 <= j < |r| ==>
      r[j] != "" && '\n' !in r[j] && !IsSpace(r[j][0]) && !IsSpace(r[j][|r[j]| - 1])
  {
    var ls := StrippedLines(text);
    forall j | 0 <= j < |r|
      ensures r[j] != "" && '\n' !in r[j] && !IsSpace(r[j][0]) && !IsSpace(r[j][|r[j]| - 1])
    {
      var i :| 0 <= i < |ls| && ls[i] == r[j];
      StrippedLineShape(text, i);
    }
  }
}
