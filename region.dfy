/**
 * Region detection: a rule list, tried in order, that names the regional
 * style a kolam most resembles from its dot and line counts, symmetry
 * score, loop count and grid label.
 */
module Region {
  import opened Models
  import opened Grid

  const TamilNadu := "Tamil Nadu (simple daily kolam style)"
  const Karnataka := "Karnataka (decorative symmetrical style)"
  const AndhraPradesh := "Andhra Pradesh (geometric grid-based style)"
  const Kerala := "Kerala (complex nature-inspired style)"
  const Undetermined := "Region undetermined - requires cultural context for accurate classification"

  function LowerChar(c: char): char
  {
    if 'A' <= c <= 'Z' then (c as int + 32) as char else c
  }

  /** `str.lower()` on ASCII letters. */
  function Lower(s: string): (r: string)
    ensures |r| == |s|
    ensures forall i :: 0 <= i < |s| ==> r[i] == LowerChar(s[i])
  {
    seq(|s|, i requires 0 <= i < |s| => LowerChar(s[i]))
  }

  /** `t in s` on strings: t occurs in s at some offset. */
  predicate Contains(s: string, t: string)
  {
    exists i | 0 <= i <= |s| - |t| :: OccursAt(s, t, i)
  }

  predicate OccursAt(s: string, t: string, i: int)
  {
    0 <= i <= |s| - |t| && s[i..i + |t|] == t
  }

  /** Rule 1: few dots, symmetry score below 0.5, irregular layout. */
  predicate SimpleDaily(dotCount: nat, score: Score, irregular: bool)
  {
    dotCount <= 15 && !score.AtLeast(1, 2) && irregular
  }

  /** Rule 2: symmetry score at least 0.5 and more than two loops. */
  predicate Decorative(score: Score, loops: int)
  {
    score.AtLeast(1, 2) && loops > 2
  }

  /** Rule 3: a grid layout with symmetry score at least 0.3. */
  predicate Geometric(score: Score, grid: bool)
  {
    grid && score.AtLeast(3, 10)
  }

  /** Rule 4: many dots, or many lines with more than three loops. */
  predicate Complex(dotCount: nat, lineCount: nat, loops: int)
  {
    dotCount > 20 || (lineCount > 30 && loops > 3)
  }

  /**
   * The first rule that applies names the region: the result is one of the
   * five labels, Tamil Nadu exactly when rule 1 holds, and the undetermined
   * label exactly when no rule holds.
   */
  function Decide(dotCount: nat, lineCount: nat, score: Score, loops: int, irregular: bool, grid: bool): (r: string)
    ensures r in {TamilNadu, Karnataka, AndhraPradesh, Kerala, Undetermined}
    ensures r == TamilNadu <==> SimpleDaily(dotCount, score, irregular)
    ensures r == Undetermined <==>
      !SimpleDaily(dotCount, score, irregular) && !Decorative(score, loops)
      && !Geometric(score, grid) && !Complex(dotCount, lineCount, loops)
  {
    if SimpleDaily(dotCount, score, irregular) then TamilNadu
    else if Decorative(score, loops) then Karnataka
    else if Geometric(score, grid) then AndhraPradesh
    else if Complex(dotCount, lineCount, loops) then Kerala
    else Undetermined
  }

  /**
   * `detect_region`: the rules read the pattern's dot and line counts and
   * the score, loop count and grid text already in its analysis record; the
   * grid text is searched, lower-cased, for "irregular" and "grid".
   */
  function DetectRegion(dots: seq<Dot>, lines: seq<Line>, analysis: AnalysisResult): (r: string)
    ensures r in {TamilNadu, Karnataka, AndhraPradesh, Kerala, Undetermined}
    ensures r != "N/A"
  {
    var grid := Lower(analysis.gridPattern);
    Decide(|dots|, |lines|, analysis.symmetryScore, analysis.loops,
           Contains(grid, "irregular"), Contains(grid, "grid"))
  }

  /**
   * The first two rules exclude each other (score below 0.5 against at least
   * 0.5), so the Karnataka label is given exactly when its own rule holds.
   */
  lemma DecorativeNotShadowed(dotCount: nat, lineCount: nat, score: Score, loops: int, irregular: bool, grid: bool)
    ensures Decide(dotCount, lineCount, score, loops, irregular, grid) == Karnataka <==> Decorative(score, loops)
  {
  }

  // ---------------------------------------------------------------------
  // The substring tests on grid texts

  lemma MissingCharNotContained(s: string, t: string, c: char)
    requires c in t && c !in s
    ensures !Contains(s, t)
  {
  }

  /**
   * A grid text mentions "irregular" exactly for the Irregular label and
   * "grid" exactly for an R x C grid label.
   */
  lemma TextMentions(kind: GridLabel)
    ensures Contains(Lower(Text(kind)), "irregular") <==> kind.Irregular?
    ensures Contains(Lower(Text(kind)), "grid") <==> kind.GridOf?
  {
    match kind
    case GridOf(c, r) => GridTextMentions(c, r);
    case Columns(c) => ColumnsTextMentions(c);
    case Rows(r) => RowsTextMentions(r);
    case Irregular => IrregularTextMentions();
  }

  lemma GridTextMentions(c: nat, r: nat)
    ensures !Contains(Lower(Text(GridOf(c, r))), "irregular")
    ensures Contains(Lower(Text(GridOf(c, r))), "grid")
  {
    var text := Digits(c) + "x" + Digits(r) + " grid";
    var s := Lower(text);
    assert OccursAt(s, "grid", |s| - 4);
    assert 'e' !in s by {
      forall i | 0 <= i < |s|
        ensures s[i] != 'e'
      {
        if i < |Digits(c)| {
          assert text[i] == Digits(c)[i];
        } else if i == |Digits(c)| {
        } else if i < |Digits(c)| + 1 + |Digits(r)| {
          assert text[i] == Digits(r)[i - |Digits(c)| - 1];
        } else {
          assert text[i] == " grid"[i - |Digits(c)| - 1 - |Digits(r)|];
        }
      }
    }
    MissingCharNotContained(s, "irregular", 'e');
  }

  lemma ColumnsTextMentions(c: nat)
    ensures !Contains(Lower(Text(Columns(c))), "irregular")
    ensures !Contains(Lower(Text(Columns(c))), "grid")
  {
    var text := Digits(c) + " columns";
    var s := Lower(text);
    assert 'e' !in s && 'g' !in s by {
      forall i | 0 <= i < |s|
        ensures s[i] != 'e' && s[i] != 'g'
      {
        if i < |Digits(c)| {
          assert text[i] == Digits(c)[i];
        } else {
          assert text[i] == " columns"[i - |Digits(c)|];
        }
      }
    }
    MissingCharNotContained(s, "irregular", 'e');
    MissingCharNotContained(s, "grid", 'g');
  }

  lemma RowsTextMentions(r: nat)
    ensures !Contains(Lower(Text(Rows(r))), "irregular")
    ensures !Contains(Lower(Text(Rows(r))), "grid")
  {
    var text := Digits(r) + " rows";
    var s := Lower(text);
    assert 'e' !in s && 'g' !in s by {
      forall i | 0 <= i < |s|
        ensures s[i] != 'e' && s[i] != 'g'
      {
        if i < |Digits(r)| {
          assert text[i] == Digits(r)[i];
        } else {
          assert text[i] == " rows"[i - |Digits(r)|];
        }
      }
    }
    MissingCharNotContained(s, "irregular", 'e');
    MissingCharNotContained(s, "grid", 'g');
  }

  lemma IrregularTextMentions()
    ensures Contains(Lower(Text(Irregular)), "irregular")
    ensures !Contains(Lower(Text(Irregular)), "grid")
  {
    var s := Lower(Text(Irregular));
    assert s == "irregular";
    assert OccursAt(s, "irregular", 0);
    MissingCharNotContained(s, "grid", 'd');
  }

  /**
   * On the texts the grid detector produces, the substring tests are tests
   * of the label: rule 1 reads "the layout is irregular" and rule 3 "the
   * layout is an R x C grid".
   */
  lemma RegionByLabel(dots: seq<Dot>, lines: seq<Line>, analysis: AnalysisResult, kind: GridLabel)
    requires analysis.gridPattern == Text(kind)
    ensures DetectRegion(dots, lines, analysis) ==
      Decide(|dots|, |lines|, analysis.symmetryScore, analysis.loops, kind.Irregular?, kind.GridOf?)
  {
    TextMentions(kind);
  }

  /**
   * With a detector-produced grid text, rules 1 and 3 exclude each other too,
   * so the Andhra Pradesh label is given exactly when its rule holds and the
   * Karnataka rule does not.
   */
  lemma GeometricNotShadowed(dots: seq<Dot>, lines: seq<Line>, analysis: AnalysisResult, kind: GridLabel)
    requires analysis.gridPattern == Text(kind)
    ensures DetectRegion(dots, lines, analysis) == AndhraPradesh <==>
      (kind.GridOf? && analysis.symmetryScore.AtLeast(3, 10) && !Decorative(analysis.symmetryScore, analysis.loops))
  {
    RegionByLabel(dots, lines, analysis, kind);
  }
}
