/** Block classification (`_add_text_block`): a paragraph text becomes a heading, a list item
    or a plain paragraph by ordered rules, with a level. */
module Classify {
  import opened TextUtil
  import opened Model

  /** `^\d+[.)]\s+`: digits, then `.` or `)`, then whitespace. */
  predicate NumberedPrefix(t: string) {
    var n := DigitRun(t);
    n >= 1 && n + 1 < |t| && (t[n] == '.' || t[n] == ')') && IsSpace(t[n + 1])
  }

  /** The greedy digit run decides the match: `NumberedPrefix` holds exactly when some
      non-empty prefix of digits is followed by `.` or `)` and a whitespace character, which
      is what the backtracking regular expression accepts. */
  lemma NumberedPrefixIsRegex(t: string)
    ensures NumberedPrefix(t) <==>
      exists k :: 1 <= k && k + 1 < |t| && AllDigits(t[..k])
        && (t[k] == '.' || t[k] == ')') && IsSpace(t[k + 1])
  {
    var n := DigitRun(t);
    if k :| 1 <= k && k + 1 < |t| && AllDigits(t[..k]) && (t[k] == '.' || t[k] == ')') && IsSpace(t[k + 1]) {
      if n < k {
        assert t[..k][n] == t[n];
      } else if n > k {
        assert t[..n][k] == t[k];
      }
    }
  }

  /** `^[○●▪▫•·]\s+` */
  predicate BulletPrefix(t: string) {
    |t| >= 2 && t[0] in "○●▪▫•·" && IsSpace(t[1])
  }

  /** `^[-*+]\s+` */
  predicate DashPrefix(t: string) {
    |t| >= 2 && t[0] in "-*+" && IsSpace(t[1])
  }

  /** `^[가-하][.)]\s+`: a Hangul syllable from U+AC00 to U+D558. */
  predicate HangulPrefix(t: string) {
    |t| >= 3 && '가' <= t[0] <= '하' && (t[1] == '.' || t[1] == ')') && IsSpace(t[2])
  }

  /** `^[a-z][.)]\s+` */
  predicate LowerPrefix(t: string) {
    |t| >= 3 && 'a' <= t[0] <= 'z' && (t[1] == '.' || t[1] == ')') && IsSpace(t[2])
  }

  /** The list patterns, in the order they are tried. */
  datatype ListPattern = Bullet | Dash | Numbered | HangulEnum | LowerEnum
  {
    predicate Matches(t: string) {
      match this
      case Bullet => BulletPrefix(t)
      case Dash => DashPrefix(t)
      case Numbered => NumberedPrefix(t)
      case HangulEnum => HangulPrefix(t)
      case LowerEnum => LowerPrefix(t)
    }

    function Depth(): nat {
      match this
      case Bullet => 1
      case Dash => 1
      case Numbered => 1
      case HangulEnum => 2
      case LowerEnum => 2
    }
  }

  const ListPatterns: seq<ListPattern> := [Bullet, Dash, Numbered, HangulEnum, LowerEnum]

  /** The depth of the first pattern of `ps` that matches `t`, as the break-on-first-match
      loop finds it. */
  function FirstMatch(ps: seq<ListPattern>, t: string): (r: Option<nat>)
    ensures r.None? <==> forall j :: 0 <= j < |ps| ==> !ps[j].Matches(t)
    ensures r.Some? ==> exists j :: (0 <= j < |ps| && ps[j].Matches(t) && r.value == ps[j].Depth()
      && forall i :: 0 <= i < j ==> !ps[i].Matches(t))
  {
    if ps == [] then None
    else if ps[0].Matches(t) then Some(ps[0].Depth())
    else
      var r := FirstMatch(ps[1..], t);
      assert r.Some? ==> exists j :: (1 <= j < |ps| && ps[j].Matches(t) && r.value == ps[j].Depth()
        && forall i :: 0 <= i < j ==> !ps[i].Matches(t)) by {
        if r.Some? {
          var j :| 0 <= j < |ps[1..]| && ps[1..][j].Matches(t) && r.value == ps[1..][j].Depth()
            && forall i :: 0 <= i < j ==> !ps[1..][i].Matches(t);
          assert ps[j + 1] == ps[1..][j];
          forall i | 0 <= i < j + 1 ensures !ps[i].Matches(t) {
            if i > 0 { assert ps[i] == ps[1..][i - 1]; }
          }
        }
      }
      r
  }

  /** No text matches two of the list patterns: their first characters are disjoint. So the
      pattern order never decides between two matches. */
  lemma PatternsExclusive(t: string, i: nat, j: nat)
    requires i < |ListPatterns| && j < |ListPatterns|
    requires ListPatterns[i].Matches(t) && ListPatterns[j].Matches(t)
    ensures i == j
  {
    if ListPatterns[i] == Numbered || ListPatterns[j] == Numbered {
      assert IsDigit(t[0]) by {
        assert DigitRun(t) >= 1 && t[..DigitRun(t)][0] == t[0];
      }
    }
  }

  /** Python's `str.isupper()` on ASCII: some upper-case letter and no lower-case one. */
  predicate AllUpper(t: string) {
    (exists i :: 0 <= i < |t| && IsUpper(t[i])) && forall i :: 0 <= i < |t| ==> !IsLower(t[i])
  }

  predicate OccursAt(t: string, i: nat, k: string) {
    i + |k| <= |t| && t[i..i + |k|] == k
  }

  /** `k in t` for strings. */
  predicate Contains(t: string, k: string) {
    exists i: nat :: i <= |t| && OccursAt(t, i, k)
  }

  lemma ContainsFirstChar(t: string, k: string)
    requires k != [] && Contains(t, k)
    ensures k[0] in t
  {
    var i: nat :| i <= |t| && OccursAt(t, i, k);
    assert t[i] == t[i..i + |k|][0];
  }

  /** The section keywords; `lower()` leaves Hangul unchanged, so searching the lower-cased
      text finds the same keywords as searching the text. */
  predicate HasKeyword(t: string) {
    Contains(t, "장") || Contains(t, "절") || Contains(t, "부") || Contains(t, "팀") || Contains(t, "담당")
  }

  /** The heading level, or None when no heading rule applies; tried only below 100
      characters, in this order. */
  function HeadingLevel(t: string): (l: Option<nat>)
    ensures l.Some? ==> |t| < 100 && (l.value == 1 || l.value == 2)
  {
    if |t| < 100 then
      if NumberedPrefix(t) then Some(2)
      else if AllUpper(t) || (|t| > 0 && IsUpper(t[0]) && |t| < 50) then Some(1)
      else if HasKeyword(t) then Some(2)
      else None
    else None
  }

  /** `len(text) - len(text.lstrip())`. */
  function LeadingSpaces(t: string): nat {
    |t| - |LStrip(t)|
  }

  /** `list_depth` after the pattern loop and the indentation bonus; a text that matches a
      pattern gets exactly that pattern's depth, as the bonus never applies to it. */
  function ListDepth(t: string): (d: nat)
    ensures FirstMatch(ListPatterns, t).Some? ==> d == FirstMatch(ListPatterns, t).value
  {
    match FirstMatch(ListPatterns, t)
    case Some(d) =>
      IndentBonusIsDead(t);
      d + (if LeadingSpaces(t) > 4 then 1 else 0)
    case None => if LeadingSpaces(t) > 4 then 1 else 0
  }

  /** Kind and level of a (non-empty) paragraph text: a heading rule wins over a list
      pattern, and a list pattern over the plain paragraph. */
  function Classify(t: string): (r: (BlockKind, nat))
    requires t != ""
    ensures r.0 != TableMarker
    ensures r.0 == Heading <==> HeadingLevel(t).Some?
    ensures r.0 == Heading ==> r.1 == HeadingLevel(t).value
  {
    match HeadingLevel(t)
    case Some(l) => (Heading, l)
    case None =>
      if FirstMatch(ListPatterns, t).Some? then (ListItem, ListDepth(t)) else (Paragraph, 0)
  }

  /** The block `_add_text_block` appends for a non-empty text. */
  function ClassifiedBlock(t: string, page: PageNum): TextBlock
    requires t != ""
  {
    TextBlock(t, Classify(t).0, Classify(t).1, page)
  }

  /** The indentation bonus never reaches a list item: every list pattern starts with a
      non-space character, so a text that matches one has no leading whitespace. */
  lemma IndentBonusIsDead(t: string)
    requires FirstMatch(ListPatterns, t).Some?
    ensures LeadingSpaces(t) == 0
  {
    var j :| 0 <= j < |ListPatterns| && ListPatterns[j].Matches(t);
    assert !IsSpace(t[0]) by {
      if ListPatterns[j] == Numbered {
        assert DigitRun(t) >= 1 && t[..DigitRun(t)][0] == t[0];
      }
    }
  }

  /** What the rules produce: headings only below 100 characters and at level 1 or 2, list
      items at depth 1 or 2, exactly when a pattern matches and no heading rule applies, and
      paragraphs at level 0 otherwise. */
  lemma ClassifyShape(t: string)
    requires t != ""
    ensures var (kind, level) := Classify(t);
      && kind != TableMarker
      && (kind == Heading <==> HeadingLevel(t).Some?)
      && (kind == Heading ==> |t| < 100 && (level == 1 || level == 2))
      && (kind == ListItem <==>
            (HeadingLevel(t).None? && exists j :: 0 <= j < |ListPatterns| && ListPatterns[j].Matches(t)))
      && (kind == ListItem ==> level == 1 || level == 2)
      && (kind == Paragraph ==> level == 0)
  {
    if HeadingLevel(t).None? && FirstMatch(ListPatterns, t).Some? {
      IndentBonusIsDead(t);
    }
  }

  /** "1. Introduction" is a heading of level 2 (the numbered rule comes first). */
  lemma NumberedShortTextIsHeading()
    ensures Classify("1. Introduction") == (Heading, 2)
  {
    var t := "1. Introduction";
    assert DigitRun(t[2..]) == 0;
    assert DigitRun(t[1..]) == 0;
    assert DigitRun(t) == 1;
  }

  /** A numbered text of 100 characters or more is no heading; it is a list item of depth 1. */
  lemma NumberedLongTextIsListItem(body: string)
    requires |body| >= 97
    ensures Classify("1. " + body) == (ListItem, 1)
  {
    var t := "1. " + body;
    assert t[1..] == ". " + body && DigitRun(t[1..]) == 0;
    assert DigitRun(t) == 1;
    assert ListPatterns[2].Matches(t);
    var j :| 0 <= j < |ListPatterns| && ListPatterns[j].Matches(t)
      && FirstMatch(ListPatterns, t).value == ListPatterns[j].Depth();
    PatternsExclusive(t, j, 2);
    IndentBonusIsDead(t);
  }

  /** An indented dash item is no list item: the dash pattern needs the dash in the first
      column, so "     - item" is a plain paragraph. */
  lemma IndentedDashIsParagraph()
    ensures Classify("     - item") == (Paragraph, 0)
  {
    IndentedDashNoHeading("     - item");
    IndentedDashNoPattern("     - item");
  }

  lemma IndentedDashNoHeading(t: string)
    requires t == "     - item"
    ensures HeadingLevel(t) == None
  {
    assert !IsUpper(t[0]) && !NumberedPrefix(t);
    assert !AllUpper(t) by { assert IsLower(t[7]); }
    forall k | k in ["장", "절", "부", "팀", "담당"] ensures !Contains(t, k) {
      if Contains(t, k) {
        ContainsFirstChar(t, k);
      }
    }
  }

  lemma IndentedDashNoPattern(t: string)
    requires t == "     - item"
    ensures FirstMatch(ListPatterns, t) == None
  {
    forall j | 0 <= j < |ListPatterns| ensures !ListPatterns[j].Matches(t) {
      assert t[0] == ' ';
    }
  }

}
