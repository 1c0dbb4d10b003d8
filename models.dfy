/**
 * The records exchanged by the kolam analysis core: dots, lines, the
 * analysis record with its default values, and the pattern that holds them.
 */
module Models {
  import opened Graphs

  datatype Option<T> = None | Some(value: T)

  /** A detected dot (pulli): centre and radius in pixels. */
  datatype Dot = Dot(x: int, y: int, radius: int)

  /** A drawn segment, given by the positions of the two dots it joins. */
  datatype Line = Line(p1: Pos, p2: Pos)

  /**
   * The symmetry score matched / total, kept as two counts so that it can be
   * compared without floating point; a zero total stands for the score 0.0.
   */
  datatype Score = Score(matched: nat, total: nat)
  {
    function Value(): real
    {
      if total == 0 then 0.0 else matched as real / total as real
    }

    /** The score is at least num / den, decided on integers. */
    predicate AtLeast(num: nat, den: nat)
      requires den > 0
    {
      total > 0 && den * matched >= num * total
    }
  }

  /** The integer test AtLeast agrees with comparing the score's value. */
  lemma AtLeastMeansValue(s: Score, num: nat, den: nat)
    requires 0 < num && 0 < den
    ensures s.AtLeast(num, den) <==> s.Value() >= num as real / den as real
  {
    if s.total > 0 {
      var m, t := s.matched as real, s.total as real;
      var q := num as real / den as real;
      assert s.Value() == m / t;
      assert m / t >= q <==> m >= q * t;
      assert m >= q * t <==> den as real * m >= num as real * t;
    } else {
      assert s.Value() == 0.0;
      assert num as real / den as real > 0.0;
    }
  }

  /** The analysis record; the defaults of a fresh record are DefaultAnalysis(). */
  datatype AnalysisResult = AnalysisResult(
    dotCount: int,
    lineCount: int,
    loops: int,
    connectivity: string,
    hasEulerianPath: bool,
    symmetryScore: Score,
    rotationalFold: int,
    gridPattern: string,
    region: string)

  function DefaultAnalysis(): AnalysisResult
  {
    AnalysisResult(0, 0, 0, "N/A", false, Score(0, 0), 1, "N/A", "N/A")
  }

  /**
   * A kolam pattern: the dots, the lines drawn between them, the graph over
   * the dot indices and the analysis record.  Its fields are updated in place
   * by the analyzer.
   */
  class KolamPattern {
    var dots: seq<Dot>
    var lines: seq<Line>
    var graph: Graph
    var analysis: AnalysisResult

    ghost predicate Valid()
      reads this
    {
      WellFormed(graph)
    }

    /** A pattern over the given dots, with no lines, an empty graph and a fresh default analysis. */
    constructor (dots: seq<Dot>)
      ensures Valid()
      ensures this.dots == dots && lines == [] && graph == EmptyGraph()
      ensures analysis == DefaultAnalysis()
    {
      this.dots := dots;
      lines := [];
      graph := EmptyGraph();
      analysis := DefaultAnalysis();
    }
  }
}
