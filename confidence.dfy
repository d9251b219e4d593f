/** Table confidence (`_calculate_table_confidence`): 60% fill rate plus 40% column-count
    consistency, scaled to 0..100 (`Confidence`, an exact real), then rounded to two decimals
    (`Score`, the value the extractor stores). */
module Confidence {
  import opened TextUtil
  import opened Model

  /** `cell and str(cell).strip()`: present, and not only whitespace. */
  predicate Filled(c: Cell) {
    c.Some? && !AllSpace(c.value)
  }

  predicate AllSpace(s: string) {
    forall i :: 0 <= i < |s| ==> IsSpace(s[i])
  }

  /** `Filled` is the truth value of `cell and str(cell).strip()`. */
  lemma FilledIsNonEmptyStrip(c: Cell)
    ensures Filled(c) <==> c.Some? && c.value != "" && Strip(c.value) != ""
  {
  }

  function RowFilled(row: Row): (n: nat)
    ensures n <= |row|
    ensures n == |row| <==> forall j :: 0 <= j < |row| ==> Filled(row[j])
  {
    if row == [] then 0
    else
      var n := RowFilled(row[..|row| - 1]) + (if Filled(row[|row| - 1]) then 1 else 0);
      assert forall j :: 0 <= j < |row| - 1 ==> row[..|row| - 1][j] == row[j];
      n
  }

  /** `sum(len(row) for row in table)`: zero exactly when every row is empty. */
  function TotalCells(t: Rows): (n: nat)
    ensures n == 0 <==> forall i :: 0 <= i < |t| ==> t[i] == []
  {
    if t == [] then 0 else TotalCells(t[..|t| - 1]) + |t[|t| - 1]|
  }

  /** The number of filled cells: at most all of them, and all of them exactly when every
      cell is filled. */
  function FilledCells(t: Rows): (n: nat)
    ensures n <= TotalCells(t)
    ensures n == TotalCells(t) <==>
      forall i, j :: 0 <= i < |t| && 0 <= j < |t[i]| ==> Filled(t[i][j])
  {
    if t == [] then 0
    else
      var front := t[..|t| - 1];
      var n := FilledCells(front) + RowFilled(t[|t| - 1]);
      assert forall i :: 0 <= i < |t| - 1 ==> front[i] == t[i];
      n
  }

  /** `col_counts.count(len)`: the number of rows of length `len`. */
  function RowsOfLength(t: Rows, len: nat): (n: nat)
    ensures n <= |t|
    ensures n == |t| <==> forall i :: 0 <= i < |t| ==> |t[i]| == len
  {
    if t == [] then 0
    else
      var n := RowsOfLength(t[..|t| - 1], len) + (if |t[|t| - 1]| == len then 1 else 0);
      assert forall i :: 0 <= i < |t| - 1 ==> t[..|t| - 1][i] == t[i];
      n
  }

  /** The largest row count among the lengths of the first `k` rows: the count of the modal
      column count. */
  function ModeCount(t: Rows, k: nat): (n: nat)
    requires k <= |t|
    ensures n <= |t|
    ensures k > 0 ==> exists i :: 0 <= i < k && n == RowsOfLength(t, |t[i]|)
    ensures forall i :: 0 <= i < k ==> RowsOfLength(t, |t[i]|) <= n
  {
    if k == 0 then 0
    else
      var m := ModeCount(t, k - 1);
      var c := RowsOfLength(t, |t[k - 1]|);
      if c > m then c else m
  }

  /** The score of one table. */
  function Confidence(t: Rows): (r: real)
    ensures 0.0 <= r <= 100.0
  {
    if |t| == 0 then 0.0
    else
      var total := TotalCells(t);
      if total == 0 then 0.0
      else
        var fill := FilledCells(t) as real / total as real;
        var consistency := ModeCount(t, |t|) as real / |t| as real;
        assert 0.0 <= fill <= 1.0 by { RatioAtMostOne(FilledCells(t), total); }
        assert 0.0 <= consistency <= 1.0 by { RatioAtMostOne(ModeCount(t, |t|), |t|); }
        (fill * 0.6 + consistency * 0.4) * 100.0
  }

  /** `round(x, 2)`: the nearest multiple of 0.01, a tie going to the even hundredth. */
  function Round2(x: real): (r: real)
    ensures -0.005 <= r - x <= 0.005
    ensures (r * 100.0).Floor as real == r * 100.0
  {
    var y := x * 100.0;
    var f := y.Floor;
    var d := y - f as real;
    var n := if d < 0.5 then f else if d > 0.5 then f + 1 else if f % 2 == 0 then f else f + 1;
    assert (n as real / 100.0) * 100.0 == n as real;
    n as real / 100.0
  }

  /** Rounding keeps order: a higher score never rounds below a lower one. */
  lemma Round2Monotone(x: real, y: real)
    requires x <= y
    ensures Round2(x) <= Round2(y)
  {
    var fx, fy := (x * 100.0).Floor, (y * 100.0).Floor;
    assert fx <= fy;
  }

  /** A value with at most two decimals is its own rounding. */
  lemma Round2Fixed(n: int)
    ensures Round2(n as real / 100.0) == n as real / 100.0
  {
    assert (n as real / 100.0) * 100.0 == n as real;
  }

  /** `_calculate_table_confidence`: the score rounded to two decimals, still within 0..100. */
  function Score(t: Rows): (r: real)
    ensures 0.0 <= r <= 100.0
    ensures -0.005 <= r - Confidence(t) <= 0.005
  {
    var c := Confidence(t);
    Round2Fixed(0);
    Round2Fixed(10000);
    Round2Monotone(0.0, c);
    Round2Monotone(c, 100.0);
    Round2(c)
  }

  lemma RatioAtMostOne(a: nat, b: nat)
    requires 0 < b && a <= b
    ensures 0.0 <= a as real / b as real <= 1.0
    ensures a as real / b as real == 1.0 <==> a == b
  {
    assert (a as real / b as real) * b as real == a as real;
  }

  /** Which of several equally frequent column counts `max(set(col_counts), key=...)`
      picks does not matter: every most frequent length has the same count, `ModeCount`. */
  lemma ModeChoiceIrrelevant(t: Rows, m: nat)
    requires exists i :: 0 <= i < |t| && |t[i]| == m
    requires forall i :: 0 <= i < |t| ==> RowsOfLength(t, |t[i]|) <= RowsOfLength(t, m)
    ensures RowsOfLength(t, m) == ModeCount(t, |t|)
  {
    var i :| 0 <= i < |t| && |t[i]| == m;
    var k :| 0 <= k < |t| && ModeCount(t, |t|) == RowsOfLength(t, |t[k]|);
  }

  /** A score of exactly 100 means a non-empty table with every cell filled and every row of
      the same length, and such a table scores 100. */
  lemma {:induction false} FullScoreIffRectangularAndFilled(t: Rows)
    ensures Confidence(t) == 100.0 <==>
      && TotalCells(t) > 0
      && (forall i, j :: 0 <= i < |t| && 0 <= j < |t[i]| ==> Filled(t[i][j]))
      && (forall i, j :: 0 <= i < |t| && 0 <= j < |t| ==> |t[i]| == |t[j]|)
  {
    if |t| > 0 && TotalCells(t) > 0 {
      var total := TotalCells(t);
      var f, m := FilledCells(t), ModeCount(t, |t|);
      RatioAtMostOne(f, total);
      RatioAtMostOne(m, |t|);
      var k :| 0 <= k < |t| && m == RowsOfLength(t, |t[k]|);
      if forall i, j :: 0 <= i < |t| && 0 <= j < |t| ==> |t[i]| == |t[j]| {
        assert forall i :: 0 <= i < |t| ==> |t[i]| == |t[k]|;
      }
      if m == |t| {
        assert forall i :: 0 <= i < |t| ==> |t[i]| == |t[k]|;
      }
    } else if |t| > 0 {
      assert Confidence(t) == 0.0;
    }
  }

  /** The stored score of a full table is 100; the converse holds only for the unrounded
      score (`StoredHundredNotFull`). */
  lemma FullTableScoresHundred(t: Rows)
    requires TotalCells(t) > 0
    requires forall i, j :: 0 <= i < |t| && 0 <= j < |t[i]| ==> Filled(t[i][j])
    requires forall i, j :: 0 <= i < |t| && 0 <= j < |t| ==> |t[i]| == |t[j]|
    ensures Score(t) == 100.0
  {
    FullScoreIffRectangularAndFilled(t);
    Round2Fixed(10000);
  }

  /** A score above 99.995 and below 100 is stored as 100. */
  lemma NearHundredRoundsUp(x: real)
    requires 99.995 < x < 100.0
    ensures Round2(x) == 100.0
  {
    assert (x * 100.0).Floor == 9999;
  }

  /** The stored score does not characterise full tables: `n` one-cell rows and one two-cell
      row, all filled, score 100 - 40 / (n + 1) unrounded, which is stored as 100 once
      n >= 8000. */
  lemma {:induction false} StoredHundredNotFull(n: nat)
    requires n >= 8000
    ensures var t := seq(n, _ => [Some("a")]) + [[Some("a"), Some("a")]];
      && !(forall i, j :: 0 <= i < |t| && 0 <= j < |t| ==> |t[i]| == |t[j]|)
      && Confidence(t) < 100.0 && Score(t) == 100.0
  {
    var ones: Rows := seq(n, _ => [Some("a")]);
    var t := ones + [[Some("a"), Some("a")]];
    assert "a"[0] == 'a' && Filled(Some("a"));
    assert FilledCells(t) == TotalCells(t) && TotalCells(t) > 0 by {
      assert forall i :: 0 <= i < |t| ==> t[i][0] == Some("a") && (|t[i]| == 2 ==> t[i][1] == Some("a"));
      assert t[0] != [];
    }
    assert t[..n] == ones;
    assert RowsOfLength(ones, 1) == n;
    assert RowsOfLength(t, 1) == n;
    var m := ModeCount(t, |t|);
    assert t[0] == [Some("a")] && |t[n]| == 2;
    assert m >= n;
    assert m == n;
    var total := TotalCells(t);
    assert Confidence(t) == (FilledCells(t) as real / total as real * 0.6 + m as real / |t| as real * 0.4) * 100.0;
    JustBelowHundred(FilledCells(t), total, m, |t|);
    NearHundredRoundsUp(Confidence(t));
  }

  /** Every cell filled and all rows but one of the modal length, with at least 8000 modal
      rows: the unrounded score lies between 99.995 and 100. */
  lemma JustBelowHundred(f: nat, total: nat, m: nat, rows: nat)
    requires f == total > 0 && rows == m + 1 && m >= 8000
    ensures 99.995 < (f as real / total as real * 0.6 + m as real / rows as real * 0.4) * 100.0 < 100.0
  {
    assert f as real / total as real == 1.0;
    var q := m as real / rows as real;
    assert q * rows as real == m as real;
    assert q < 1.0;
    assert q > 0.999875 by {
      assert 0.999875 * rows as real < m as real;
    }
  }

  /** A worked example: 6 of 7 cells filled (the empty string is not) and 2 of 3 rows of the
      modal length 2 give (0.6 * 6/7 + 0.4 * 2/3) * 100 = 1640/21, about 78.10. */
  lemma WorkedExample()
    ensures Confidence([[Some("a"), Some("b")], [Some(""), Some("d")], [Some("e"), Some("f"), Some("g")]])
      == 1640.0 / 21.0
  {
    var r0: Row, r1: Row, r2: Row := [Some("a"), Some("b")], [Some(""), Some("d")], [Some("e"), Some("f"), Some("g")];
    ExampleCells(r0, r1, r2);
    ExampleRows(r0, r1, r2);
  }

  /** The worked example's stored confidence: 1640/21 rounds to 78.1. */
  lemma WorkedExampleScore()
    ensures Score([[Some("a"), Some("b")], [Some(""), Some("d")], [Some("e"), Some("f"), Some("g")]]) == 78.1
  {
    WorkedExample();
    var y := (1640.0 / 21.0) * 100.0;
    assert 7809.0 <= y < 7810.0 && y - 7809.0 > 0.5;
    assert y.Floor == 7809;
  }

  /** The cell counts of the worked example: 7 cells, 6 of them filled. */
  lemma ExampleCells(r0: Row, r1: Row, r2: Row)
    requires r0 == [Some("a"), Some("b")] && r1 == [Some(""), Some("d")]
    requires r2 == [Some("e"), Some("f"), Some("g")]
    ensures TotalCells([r0, r1, r2]) == 7 && FilledCells([r0, r1, r2]) == 6
  {
    var t: Rows := [r0, r1, r2];
    assert RowFilled(r0) == 2 && RowFilled(r2) == 3 by {
      assert "a"[0] == 'a' && "b"[0] == 'b' && "e"[0] == 'e' && "f"[0] == 'f' && "g"[0] == 'g';
      assert Filled(Some("a")) && Filled(Some("b"));
      assert Filled(Some("e")) && Filled(Some("f")) && Filled(Some("g"));
    }
    assert RowFilled(r1) == 1 by {
      assert !Filled(Some(""));
      assert "d"[0] == 'd';
      assert Filled(Some("d"));
      assert r1[..1] == [Some("")];
    }
    assert t[..2] == [r0, r1] && [r0, r1][..1] == [r0] && [r0][..0] == [];
    assert TotalCells([r0]) == 2 && TotalCells([r0, r1]) == 4;
    assert FilledCells([r0]) == 2 && FilledCells([r0, r1]) == 3;
  }

  /** The row lengths of the worked example: two rows of length 2, one of length 3. */
  lemma ExampleRows(r0: Row, r1: Row, r2: Row)
    requires |r0| == 2 && |r1| == 2 && |r2| == 3
    ensures ModeCount([r0, r1, r2], 3) == 2
  {
    var t: Rows := [r0, r1, r2];
    assert t[..2] == [r0, r1] && [r0, r1][..1] == [r0] && [r0][..0] == [];
    assert RowsOfLength([r0], 2) == 1 && RowsOfLength([r0, r1], 2) == 2;
    assert RowsOfLength([r0], 3) == 0 && RowsOfLength([r0, r1], 3) == 0;
    assert RowsOfLength(t, 2) == 2 && RowsOfLength(t, 3) == 1;
  }

}
