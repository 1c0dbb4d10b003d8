/**
 * The kolam analyzer: it turns detected dots and a binarised line image
 * into a pattern whose graph joins, for every line pixel, the two dots
 * nearest to it, and then fills in the pattern's analysis record.
 */
module Analyzer {
  import opened Graphs
  import opened Models
  import opened Symmetry
  import opened Grid
  import opened Region

  // ---------------------------------------------------------------------
  // Line pixels of the binary image

  /** Pixel (x, y) is on: row y, column x of the image is positive. */
  predicate On(image: seq<seq<int>>, p: Pos)
  {
    0 <= p.1 < |image| && 0 <= p.0 < |image[p.1]| && image[p.1][p.0] > 0
  }

  /** Row-major order: by row, then by column. */
  predicate Before(p: Pos, q: Pos)
  {
    p.1 < q.1 || (p.1 == q.1 && p.0 < q.0)
  }

  predicate RowMajor(ps: seq<Pos>)
  {
    forall i, j :: 0 <= i < j < |ps| ==> Before(ps[i], ps[j])
  }

  /** The on pixels of row y from column x onwards, left to right. */
  function RowPixels(row: seq<int>, y: int, x: nat): (r: seq<Pos>)
    requires x <= |row|
    ensures forall p :: p in r <==> p.1 == y && x <= p.0 < |row| && row[p.0] > 0
    ensures forall i, j :: 0 <= i < j < |r| ==> r[i].0 < r[j].0
    decreases |row| - x
  {
    if x == |row| then []
    else if row[x] > 0 then [(x, y)] + RowPixels(row, y, x + 1)
    else RowPixels(row, y, x + 1)
  }

  /**
   * `argwhere(image > 0)`, each (row, column) read as the pixel (x, y):
   * every on pixel once, in row-major order.
   */
  function OnPixels(image: seq<seq<int>>): (r: seq<Pos>)
    ensures forall p :: p in r <==> On(image, p)
    ensures RowMajor(r)
  {
    if |image| == 0 then []
    else
      var y := |image| - 1;
      var front := OnPixels(image[..y]);
      var last := RowPixels(image[y], y, 0);
      assert forall p :: p in front ==> p.1 < y;
      front + last
  }

  // ---------------------------------------------------------------------
  // The two dots nearest to a pixel

  /** The squared distance from dot d to pixel p; it orders dots as the distance does. */
  function Dist2(d: Dot, p: Pos): nat
  {
    (d.x - p.0) * (d.x - p.0) + (d.y - p.1) * (d.y - p.1)
  }

  /**
   * a and b are the first two indices of an ordering of the dots by distance
   * from p: a is nearest, and b is nearest among the others.  Ties between
   * equally distant dots may be broken either way.
   */
  predicate NearestPair(dots: seq<Dot>, p: Pos, a: nat, b: nat)
  {
    && a < |dots| && b < |dots| && a != b
    && (forall k :: 0 <= k < |dots| && k != a ==> Dist2(dots[a], p) <= Dist2(dots[k], p))
    && (forall k :: 0 <= k < |dots| && k != a && k != b ==> Dist2(dots[b], p) <= Dist2(dots[k], p))
  }

  /** `argsort(distances)[:2]`, found in one pass. */
  method NearestTwo(dots: seq<Dot>, p: Pos) returns (a: nat, b: nat)
    requires |dots| >= 2
    ensures NearestPair(dots, p, a, b)
  {
    if Dist2(dots[1], p) < Dist2(dots[0], p) {
      a, b := 1, 0;
    } else {
      a, b := 0, 1;
    }
    for k := 2 to |dots|
      invariant a < k && b < k && a != b
      invariant Dist2(dots[a], p) <= Dist2(dots[b], p)
      invariant forall j :: 0 <= j < k && j != a ==> Dist2(dots[a], p) <= Dist2(dots[j], p)
      invariant forall j :: 0 <= j < k && j != a && j != b ==> Dist2(dots[b], p) <= Dist2(dots[j], p)
    {
      var dk := Dist2(dots[k], p);
      if dk < Dist2(dots[a], p) {
        a, b := k, a;
      } else if dk < Dist2(dots[b], p) {
        b := k;
      }
    }
  }

  /** Any two answers differ only between equally distant dots. */
  lemma NearestPairUnique(dots: seq<Dot>, p: Pos, a: nat, b: nat, a': nat, b': nat)
    requires NearestPair(dots, p, a, b) && NearestPair(dots, p, a', b')
    ensures Dist2(dots[a], p) == Dist2(dots[a'], p)
    ensures Dist2(dots[b], p) == Dist2(dots[b'], p)
  {
    if a == a' {
    } else if b == a' && b' == a {
    } else if b == a' {
      assert Dist2(dots[b'], p) <= Dist2(dots[a], p);
    } else {
      assert Dist2(dots[b], p) <= Dist2(dots[a'], p);
    }
  }

  // ---------------------------------------------------------------------
  // Edges and lines drawn from the nearest pairs

  /** The graph positions of the dots: node i sits at (dots[i].x, dots[i].y). */
  function Positions(dots: seq<Dot>): (r: seq<Pos>)
    ensures |r| == |dots|
    ensures forall i :: 0 <= i < |dots| ==> r[i] == (dots[i].x, dots[i].y)
  {
    seq(|dots|, i requires 0 <= i < |dots| => (dots[i].x, dots[i].y))
  }

  /** The edges joining the pairs picked so far. */
  function EdgeSet(picks: seq<(nat, nat)>): set<Edge>
  {
    if |picks| == 0 then {}
    else
      var last := picks[|picks| - 1];
      EdgeSet(picks[..|picks| - 1]) + {Link(last.0, last.1)}
  }

  /** An edge is in the set exactly when some pick joins its two ends. */
  lemma {:induction false} EdgeSetMembers(picks: seq<(nat, nat)>)
    ensures forall e :: e in EdgeSet(picks) <==> exists k :: 0 <= k < |picks| && Link(picks[k].0, picks[k].1) == e
  {
    if |picks| > 0 {
      var init := picks[..|picks| - 1];
      EdgeSetMembers(init);
      assert forall k :: 0 <= k < |init| ==> init[k] == picks[k];
    }
  }

  /** The picks that added a new edge, in order: one line was drawn for each. */
  function FirstNew(picks: seq<(nat, nat)>): seq<(nat, nat)>
  {
    if |picks| == 0 then []
    else
      var init := picks[..|picks| - 1];
      var last := picks[|picks| - 1];
      FirstNew(init) + (if Link(last.0, last.1) in EdgeSet(init) then [] else [last])
  }

  function LineFor(dots: seq<Dot>, pick: (nat, nat)): Line
    requires pick.0 < |dots| && pick.1 < |dots|
  {
    Line((dots[pick.0].x, dots[pick.0].y), (dots[pick.1].x, dots[pick.1].y))
  }

  predicate PicksWithin(dots: seq<Dot>, picks: seq<(nat, nat)>)
  {
    forall k :: 0 <= k < |picks| ==> picks[k].0 < |dots| && picks[k].1 < |dots|
  }

  function LinesFor(dots: seq<Dot>, picks: seq<(nat, nat)>): (r: seq<Line>)
    requires PicksWithin(dots, picks)
    ensures |r| == |picks|
    ensures forall k :: 0 <= k < |picks| ==> r[k] == LineFor(dots, picks[k])
  {
    seq(|picks|, k requires 0 <= k < |picks| => LineFor(dots, picks[k]))
  }

  lemma LinesForAppend(dots: seq<Dot>, picks: seq<(nat, nat)>, pick: (nat, nat))
    requires PicksWithin(dots, picks) && pick.0 < |dots| && pick.1 < |dots|
    ensures PicksWithin(dots, picks + [pick])
    ensures LinesFor(dots, picks + [pick]) == LinesFor(dots, picks) + [LineFor(dots, pick)]
  {
  }

  lemma {:induction false} FirstNewWithin(dots: seq<Dot>, picks: seq<(nat, nat)>)
    requires PicksWithin(dots, picks)
    ensures PicksWithin(dots, FirstNew(picks))
    ensures forall q :: q in FirstNew(picks) ==> q in picks
  {
    if |picks| > 0 {
      var init := picks[..|picks| - 1];
      FirstNewWithin(dots, init);
    }
  }

  /** One more pick adds its edge, and a line when the edge is new. */
  lemma PickStep(picks: seq<(nat, nat)>)
    requires |picks| > 0
    ensures var init, last := picks[..|picks| - 1], picks[|picks| - 1];
      && EdgeSet(picks) == EdgeSet(init) + {Link(last.0, last.1)}
      && FirstNew(picks) == FirstNew(init) + (if Link(last.0, last.1) in EdgeSet(init) then [] else [last])
  {
  }

  /** No two drawn lines join the same pair of dots. */
  lemma {:induction false} FirstNewDistinct(picks: seq<(nat, nat)>)
    ensures var firsts := FirstNew(picks);
      forall i, j :: 0 <= i < j < |firsts| ==> Link(firsts[i].0, firsts[i].1) != Link(firsts[j].0, firsts[j].1)
  {
    if |picks| > 0 {
      var init, last := picks[..|picks| - 1], picks[|picks| - 1];
      FirstNewDistinct(init);
      FirstNewCovers(init);
      PickStep(picks);
    }
  }

  /** The drawn lines join exactly the pairs of the edges. */
  lemma {:induction false} FirstNewCovers(picks: seq<(nat, nat)>)
    ensures var firsts := FirstNew(picks);
      forall e :: e in EdgeSet(picks) <==> exists k :: 0 <= k < |firsts| && Link(firsts[k].0, firsts[k].1) == e
  {
    if |picks| > 0 {
      var init, last := picks[..|picks| - 1], picks[|picks| - 1];
      var l := Link(last.0, last.1);
      FirstNewCovers(init);
      PickStep(picks);
      var front, firsts := FirstNew(init), FirstNew(picks);
      forall e
        ensures e in EdgeSet(picks) <==> exists k :: 0 <= k < |firsts| && Link(firsts[k].0, firsts[k].1) == e
      {
        if e in EdgeSet(init) {
          var k :| 0 <= k < |front| && Link(front[k].0, front[k].1) == e;
          assert firsts[k] == front[k];
        } else if e == l {
          if l !in EdgeSet(init) {
            assert Link(firsts[|front|].0, firsts[|front|].1) == e;
          }
        }
      }
    }
  }

  /** As many lines are drawn as the graph has edges. */
  lemma {:induction false} FirstNewCount(picks: seq<(nat, nat)>)
    ensures |FirstNew(picks)| == |EdgeSet(picks)|
  {
    if |picks| > 0 {
      var init, last := picks[..|picks| - 1], picks[|picks| - 1];
      var l := Link(last.0, last.1);
      FirstNewCount(init);
      PickStep(picks);
      var before := EdgeSet(init);
      if l in before {
        assert before + {l} == before;
      } else {
        assert |before + {l}| == |before| + 1;
      }
    }
  }

  /**
   * The lines stand one for one for the edges: the picks that drew them
   * join pairwise different edges, together they join every edge, and
   * there are as many lines as edges.
   */
  lemma LinesMatchEdges(picks: seq<(nat, nat)>)
    ensures var firsts := FirstNew(picks);
      && |firsts| == |EdgeSet(picks)|
      && (forall i, j :: 0 <= i < j < |firsts| ==> Link(firsts[i].0, firsts[i].1) != Link(firsts[j].0, firsts[j].1))
      && (forall e :: e in EdgeSet(picks) <==> exists k :: 0 <= k < |firsts| && Link(firsts[k].0, firsts[k].1) == e)
  {
    FirstNewDistinct(picks);
    FirstNewCovers(picks);
    FirstNewCount(picks);
  }

  /** Every edge joins the two dots nearest to some line pixel. */
  lemma EdgesFromPixels(dots: seq<Dot>, pixels: seq<Pos>, picks: seq<(nat, nat)>, e: Edge)
    requires |picks| == |pixels|
    requires forall k :: 0 <= k < |picks| ==> NearestPair(dots, pixels[k], picks[k].0, picks[k].1)
    requires e in EdgeSet(picks)
    ensures e.lo < e.hi < |dots|
    ensures exists k :: 0 <= k < |pixels| && NearestPair(dots, pixels[k], picks[k].0, picks[k].1) && Link(picks[k].0, picks[k].1) == e
  {
    EdgeSetMembers(picks);
    var k :| 0 <= k < |picks| && Link(picks[k].0, picks[k].1) == e;
    assert NearestPair(dots, pixels[k], picks[k].0, picks[k].1);
  }

  // ---------------------------------------------------------------------
  // The analysis

  /** The region rules do not read the region field. */
  lemma RegionIgnoresRegionField(dots: seq<Dot>, lines: seq<Line>, a: AnalysisResult, b: AnalysisResult)
    requires a.(region := b.region) == b
    ensures DetectRegion(dots, lines, a) == DetectRegion(dots, lines, b)
  {
  }

  /** The analysis record before the region is chosen. */
  ghost function Measured(dots: seq<Dot>, lines: seq<Line>, g: Graph): AnalysisResult
  {
    AnalysisResult(
      |dots|,
      |lines|,
      CycleRank(g),
      if Connected(g) then "Connected" else "Disconnected",
      |OddNodes(g)| <= 2,
      SymmetryScore(dots, g),
      RotationalFold(dots),
      DetectGridPattern(dots),
      "N/A")
  }

  /** The analysis record of a pattern with dots and nodes. */
  ghost function Expected(dots: seq<Dot>, lines: seq<Line>, g: Graph): AnalysisResult
  {
    var m := Measured(dots, lines, g);
    m.(region := DetectRegion(dots, lines, m))
  }

  /** The invariant of the pixel loop carries over to one more pick. */
  lemma NextPick(dots: seq<Dot>, pixels: seq<Pos>, picks: seq<(nat, nat)>, a: nat, b: nat)
    requires |picks| < |pixels|
    requires forall k :: 0 <= k < |picks| ==> NearestPair(dots, pixels[k], picks[k].0, picks[k].1)
    requires PicksWithin(dots, picks) && PicksWithin(dots, FirstNew(picks))
    requires NearestPair(dots, pixels[|picks|], a, b)
    ensures var next := picks + [(a, b)];
      && (forall k :: 0 <= k < |next| ==> NearestPair(dots, pixels[k], next[k].0, next[k].1))
      && PicksWithin(dots, next) && PicksWithin(dots, FirstNew(next))
      && EdgeSet(next) == EdgeSet(picks) + {Link(a, b)}
      && LinesFor(dots, FirstNew(next)) == LinesFor(dots, FirstNew(picks)) +
           (if Link(a, b) in EdgeSet(picks) then [] else [LineFor(dots, (a, b))])
  {
    NextPickNearest(dots, pixels, picks, a, b);
    NextPickLines(dots, picks, a, b);
  }

  lemma NextPickNearest(dots: seq<Dot>, pixels: seq<Pos>, picks: seq<(nat, nat)>, a: nat, b: nat)
    requires |picks| < |pixels|
    requires forall k :: 0 <= k < |picks| ==> NearestPair(dots, pixels[k], picks[k].0, picks[k].1)
    requires NearestPair(dots, pixels[|picks|], a, b)
    ensures var next := picks + [(a, b)];
      forall k :: 0 <= k < |next| ==> NearestPair(dots, pixels[k], next[k].0, next[k].1)
  {
    var next := picks + [(a, b)];
    forall k | 0 <= k < |next|
      ensures NearestPair(dots, pixels[k], next[k].0, next[k].1)
    {
      if k < |picks| {
        assert next[k] == picks[k];
      }
    }
  }

  lemma NextPickLines(dots: seq<Dot>, picks: seq<(nat, nat)>, a: nat, b: nat)
    requires PicksWithin(dots, picks) && PicksWithin(dots, FirstNew(picks))
    requires a < |dots| && b < |dots|
    ensures var next := picks + [(a, b)];
      && PicksWithin(dots, next) && PicksWithin(dots, FirstNew(next))
      && EdgeSet(next) == EdgeSet(picks) + {Link(a, b)}
      && LinesFor(dots, FirstNew(next)) == LinesFor(dots, FirstNew(picks)) +
           (if Link(a, b) in EdgeSet(picks) then [] else [LineFor(dots, (a, b))])
  {
    var next := picks + [(a, b)];
    NextPickStep(picks, a, b);
    LinesForAppend(dots, picks, (a, b));
    FirstNewWithin(dots, next);
    if Link(a, b) !in EdgeSet(picks) {
      LinesForAppend(dots, FirstNew(picks), (a, b));
    }
  }

  lemma NextPickStep(picks: seq<(nat, nat)>, a: nat, b: nat)
    ensures var next := picks + [(a, b)];
      && EdgeSet(next) == EdgeSet(picks) + {Link(a, b)}
      && FirstNew(next) == FirstNew(picks) + (if Link(a, b) in EdgeSet(picks) then [] else [(a, b)])
  {
    var next := picks + [(a, b)];
    assert next[..|next| - 1] == picks;
    PickStep(next);
  }

  /**
   * The step for one line pixel: join its two nearest dots unless they are
   * joined already, and draw a line when the edge is new.
   */
  method ConnectNearest(p: KolamPattern, dots: seq<Dot>, pixel: Pos) returns (a: nat, b: nat)
    requires |dots| >= 2 && p.Valid() && p.graph.pos == Positions(dots)
    modifies p
    ensures NearestPair(dots, pixel, a, b)
    ensures p.Valid() && p.dots == old(p.dots) && p.analysis == old(p.analysis)
    ensures p.graph == old(p.graph).(edges := old(p.graph.edges) + {Link(a, b)})
    ensures p.lines == old(p.lines) + (if Link(a, b) in old(p.graph.edges) then [] else [LineFor(dots, (a, b))])
  {
    a, b := NearestTwo(dots, pixel);
    if !HasEdge(p.graph, a, b) {
      p.graph := AddEdge(p.graph, a, b);
      p.lines := p.lines + [LineFor(dots, (a, b))];
    }
  }

  class KolamAnalyzer {
    /** The shape of the source image, one extent per axis; no operation reads it. */
    const shape: seq<nat>

    constructor (shape: seq<nat>)
      ensures this.shape == shape
    {
      this.shape := shape;
    }

    /**
     * `build_graph`: a fresh pattern over the dots with one node per dot
     * and, for every on pixel of the binary image in row-major order, an edge
     * between the two dots nearest to it, with a line for each edge the
     * first time it is added.  The ghost `picks` records the pair chosen for
     * each pixel.
     */
    method BuildGraph(dots: seq<Dot>, binary: seq<seq<int>>) returns (p: KolamPattern, ghost picks: seq<(nat, nat)>)
      ensures fresh(p) && p.Valid()
      ensures p.dots == dots && p.analysis == DefaultAnalysis()
      ensures p.graph.pos == Positions(dots)
      ensures |dots| < 2 ==> picks == [] && p.graph.edges == {} && p.lines == []
      ensures |dots| >= 2 ==> |picks| == |OnPixels(binary)|
      ensures forall k :: 0 <= k < |picks| ==>
        NearestPair(dots, OnPixels(binary)[k], picks[k].0, picks[k].1)
      ensures PicksWithin(dots, picks) && PicksWithin(dots, FirstNew(picks))
      ensures p.graph.edges == EdgeSet(picks)
      ensures p.lines == LinesFor(dots, FirstNew(picks))
    {
      p := new KolamPattern(dots);
      picks := [];
      if |dots| == 0 {
        return;
      }
      for i := 0 to |dots|
        invariant p.graph == Graph(Positions(dots[..i]), {})
        invariant p.dots == dots && p.lines == [] && p.analysis == DefaultAnalysis()
      {
        p.graph := AddNode(p.graph, (dots[i].x, dots[i].y));
        assert Positions(dots[..i + 1]) == Positions(dots[..i]) + [(dots[i].x, dots[i].y)];
      }
      assert dots[..|dots|] == dots;
      var pixels := OnPixels(binary);
      for i := 0 to |pixels|
        invariant p.dots == dots && p.analysis == DefaultAnalysis()
        invariant p.graph.pos == Positions(dots) && p.Valid()
        invariant |dots| < 2 ==> picks == []
        invariant |dots| >= 2 ==> |picks| == i
        invariant forall k :: 0 <= k < |picks| ==> NearestPair(dots, pixels[k], picks[k].0, picks[k].1)
        invariant PicksWithin(dots, picks) && PicksWithin(dots, FirstNew(picks))
        invariant p.graph.edges == EdgeSet(picks)
        invariant p.lines == LinesFor(dots, FirstNew(picks))
      {
        if |dots| >= 2 {
          var a, b := ConnectNearest(p, dots, pixels[i]);
          NextPick(dots, pixels, picks, a, b);
          picks := picks + [(a, b)];
        }
      }
    }

    /**
     * `analyze_pattern`: a pattern without dots or without nodes is left as
     * it is; otherwise every field of its analysis record is measured: loops,
     * connectivity, the Eulerian test, the counts, the symmetry score, the
     * rotational fold, the grid label and, from those, the region.
     */
    method AnalyzePattern(pattern: KolamPattern) returns (r: KolamPattern)
      requires pattern.Valid()
      modifies pattern
      ensures r == pattern && pattern.Valid()
      ensures pattern.dots == old(pattern.dots) && pattern.lines == old(pattern.lines)
      ensures pattern.graph == old(pattern.graph)
      ensures |pattern.dots| == 0 || |pattern.graph.pos| == 0 ==> pattern.analysis == old(pattern.analysis)
      ensures |pattern.dots| > 0 && |pattern.graph.pos| > 0 ==>
        pattern.analysis == Expected(pattern.dots, pattern.lines, pattern.graph)
    {
      r := pattern;
      if |pattern.dots| == 0 || |pattern.graph.pos| == 0 {
        return;
      }
      var dots, lines, g := pattern.dots, pattern.lines, pattern.graph;
      ghost var m := Measured(dots, lines, g);
      var a := pattern.analysis;
      var components := CountComponents(g);
      ConnectedIffOneComponent(g);
      a := a.(loops := |g.edges| - |g.pos| + components);
      a := a.(connectivity := if components == 1 then "Connected" else "Disconnected");
      a := a.(hasEulerianPath := |OddNodes(g)| <= 2);
      a := a.(dotCount := |dots|);
      a := a.(lineCount := |lines|);
      var score := CalculateSymmetryScore(dots, g);
      a := a.(symmetryScore := score);
      var fold := DetectRotationalSymmetry(dots);
      a := a.(rotationalFold := fold);
      a := a.(gridPattern := DetectGridPattern(dots));
      RegionIgnoresRegionField(dots, lines, m, a);
      a := a.(region := DetectRegion(dots, lines, a));
      pattern.analysis := a;
    }
  }

  // ---------------------------------------------------------------------
  // What the analysis record says

  /**
   * The Eulerian test "at most two odd-degree nodes" holds exactly when the
   * graph has no or exactly two odd-degree nodes, by the handshake lemma.
   */
  lemma EulerTestZeroOrTwo(g: Graph)
    requires WellFormed(g)
    ensures |OddNodes(g)| <= 2 <==> |OddNodes(g)| == 0 || |OddNodes(g)| == 2
  {
    OddNodesEven(g);
  }

  /**
   * The fields of a measured record: the counts, the connectivity text
   * against the component count, the Eulerian flag against the odd-degree
   * nodes, a score between 0 and 1, a fold of 1 or 2, and one of the five
   * region labels.
   */
  lemma ExpectedFields(dots: seq<Dot>, lines: seq<Line>, g: Graph)
    requires WellFormed(g) && |g.pos| > 0
    ensures var a := Expected(dots, lines, g);
      && a.dotCount == |dots| && a.lineCount == |lines|
      && a.loops == |g.edges| - |g.pos| + ComponentCount(g)
      && (a.connectivity == "Connected" <==> ComponentCount(g) == 1)
      && (a.hasEulerianPath <==> |OddNodes(g)| == 0 || |OddNodes(g)| == 2)
      && a.symmetryScore.matched <= a.symmetryScore.total
      && 0.0 <= a.symmetryScore.Value() <= 1.0
      && (a.rotationalFold == 1 || a.rotationalFold == 2)
      && a.region in {TamilNadu, Karnataka, AndhraPradesh, Kerala, Undetermined}
  {
    ConnectedIffOneComponent(g);
    EulerTestZeroOrTwo(g);
    ScoreBounds(dots, g);
  }

  /** A graph of one node and no edges has one component. */
  lemma OneNodeOneComponent(p: Pos)
    ensures ComponentCount(Graph([p], {})) == 1
  {
    var g := Graph([p], {});
    ReachesSelf(g, 0);
    assert Connected(g) by {
      forall a: nat, b: nat | a < 1 && b < 1
        ensures Reaches(g, a, b)
      {
        ReachesSelf(g, 0);
      }
    }
    ConnectedIffOneComponent(g);
  }

  /**
   * A single dot with no lines: no loops, connected, Eulerian, score 0,
   * two-fold (its own half-turn image), irregular, hence Tamil Nadu.
   */
  lemma SingleDotAnalysis(d: Dot)
    ensures Expected([d], [], Graph([(d.x, d.y)], {})) ==
      AnalysisResult(1, 0, 0, "Connected", true, Score(0, 0), 2, "Irregular", TamilNadu)
  {
    var g := Graph([(d.x, d.y)], {});
    OneNodeOneComponent((d.x, d.y));
    ConnectedIffOneComponent(g);
    SingleDotFold(d);
    assert OddNodes(g) == {} by {
      assert Incident(g, 0) == {};
    }
    var m := Measured([d], [], g);
    assert m.gridPattern == Text(Irregular);
    RegionByLabel([d], [], m, Irregular);
  }

  // ---------------------------------------------------------------------
  // Small graphs

  /** Four dots on the corners of a 2-pixel square: 0 at (0, 0), 1 at (0, 2), 2 at (2, 0), 3 at (2, 2). */
  function SquareDots(): seq<Dot>
  {
    [Dot(0, 0, 1), Dot(0, 2, 1), Dot(2, 0, 1), Dot(2, 2, 1)]
  }

  /** A 3 by 3 image with only its border on: the outline of the square. */
  function SquareOutline(): seq<seq<int>>
  {
    [[1, 1, 1], [1, 0, 1], [1, 1, 1]]
  }

  /** The four sides of the square: 0-1-3-2-0. */
  function Sides(): set<Edge>
  {
    {Edge(0, 1), Edge(0, 2), Edge(1, 3), Edge(2, 3)}
  }

  /** The square's dots joined around it. */
  function SquareGraph(): Graph
  {
    Graph(Positions(SquareDots()), Sides())
  }

  lemma SquareReachesFromCorner(v: nat)
    requires v < 4
    ensures Reaches(SquareGraph(), 0, v)
  {
    var g := SquareGraph();
    var w: seq<nat> := if v == 0 then [0] else if v == 1 then [0, 1] else if v == 2 then [0, 2] else [0, 1, 3];
    assert IsWalk(g, w);
  }

  lemma SquareConnected()
    ensures Connected(SquareGraph()) && ComponentCount(SquareGraph()) == 1
  {
    var g := SquareGraph();
    forall a: nat, b: nat | a < 4 && b < 4
      ensures Reaches(g, a, b)
    {
      SquareReachesFromCorner(a);
      SquareReachesFromCorner(b);
      ReachesSymmetric(g, 0, a);
      ReachesTransitive(g, a, 0, b);
    }
    ConnectedIffOneComponent(g);
  }

  lemma SquareDegrees()
    ensures OddNodes(SquareGraph()) == {}
  {
    var g := SquareGraph();
    assert Incident(g, 0) == {Edge(0, 1), Edge(0, 2)};
    assert Incident(g, 1) == {Edge(0, 1), Edge(1, 3)};
    assert Incident(g, 2) == {Edge(0, 2), Edge(2, 3)};
    assert Incident(g, 3) == {Edge(1, 3), Edge(2, 3)};
  }

  /** Any four dots and four lines over the square's graph: one loop, connected, Eulerian. */
  lemma SquareGraphAnalysis(dots: seq<Dot>, lines: seq<Line>)
    requires |dots| == 4 && |lines| == 4
    ensures var a := Expected(dots, lines, SquareGraph());
      && a.dotCount == 4 && a.lineCount == 4 && a.loops == 1
      && a.connectivity == "Connected" && a.hasEulerianPath
  {
    SquareConnected();
    SquareDegrees();
  }

  /** The on pixels of the outline are the eight border pixels. */
  lemma OnOutline(p: Pos)
    requires On(SquareOutline(), p)
    ensures 0 <= p.0 < 3 && 0 <= p.1 < 3 && p != (1, 1)
  {
    var img := SquareOutline();
    assert |img| == 3 && |img[p.1]| == 3 && img[1][1] == 0;
  }

  /** The i-th of four values. */
  function Sel(d0: int, d1: int, d2: int, d3: int, i: nat): int
  {
    if i == 0 then d0 else if i == 1 then d1 else if i == 2 then d2 else d3
  }

  /** The nearest-pair conditions among four dots, one comparison at a time. */
  lemma NearestOfFour(dots: seq<Dot>, p: Pos, a: nat, b: nat)
    requires |dots| == 4 && NearestPair(dots, p, a, b)
    ensures a < 4 && b < 4 && a != b
    ensures var d0, d1, d2, d3 := Dist2(dots[0], p), Dist2(dots[1], p), Dist2(dots[2], p), Dist2(dots[3], p);
      var da, db := Sel(d0, d1, d2, d3, a), Sel(d0, d1, d2, d3, b);
      && (a == 0 || da <= d0) && (a == 1 || da <= d1) && (a == 2 || da <= d2) && (a == 3 || da <= d3)
      && (a == 0 || b == 0 || db <= d0) && (a == 1 || b == 1 || db <= d1)
      && (a == 2 || b == 2 || db <= d2) && (a == 3 || b == 3 || db <= d3)
  {
    var d0, d1, d2, d3 := Dist2(dots[0], p), Dist2(dots[1], p), Dist2(dots[2], p), Dist2(dots[3], p);
    assert Sel(d0, d1, d2, d3, a) == Dist2(dots[a], p);
    assert Sel(d0, d1, d2, d3, b) == Dist2(dots[b], p);
  }

  /**
   * Against the corner (0, 0), the squared distances to the other corners
   * differ by amounts linear in the pixel.
   */
  lemma CornerGaps(p: Pos)
    ensures Dist2(Dot(0, 2, 1), p) == Dist2(Dot(0, 0, 1), p) + 4 - 4 * p.1
    ensures Dist2(Dot(2, 0, 1), p) == Dist2(Dot(0, 0, 1), p) + 4 - 4 * p.0
    ensures Dist2(Dot(2, 2, 1), p) == Dist2(Dot(0, 0, 1), p) + 8 - 4 * p.0 - 4 * p.1
  {
  }

  /**
   * At outline pixel (x, y), with d0 the squared distance to corner 0, the
   * comparisons of a nearest pair allow only the ends of a side.
   */
  lemma PickOfFour(x: int, y: int, d0: int, a: nat, b: nat)
    requires 0 <= x < 3 && 0 <= y < 3 && !(x == 1 && y == 1)
    requires a < 4 && b < 4 && a != b
    requires var d1, d2, d3 := d0 + 4 - 4 * y, d0 + 4 - 4 * x, d0 + 8 - 4 * x - 4 * y;
      var da, db := Sel(d0, d1, d2, d3, a), Sel(d0, d1, d2, d3, b);
      && (a == 0 || da <= d0) && (a == 1 || da <= d1) && (a == 2 || da <= d2) && (a == 3 || da <= d3)
      && (a == 0 || b == 0 || db <= d0) && (a == 1 || b == 1 || db <= d1)
      && (a == 2 || b == 2 || db <= d2) && (a == 3 || b == 3 || db <= d3)
    ensures Link(a, b) in Sides()
    ensures x == 1 && y == 0 ==> Link(a, b) == Edge(0, 2)
    ensures x == 0 && y == 1 ==> Link(a, b) == Edge(0, 1)
    ensures x == 2 && y == 1 ==> Link(a, b) == Edge(2, 3)
    ensures x == 1 && y == 2 ==> Link(a, b) == Edge(1, 3)
  {
  }

  /**
   * The two dots nearest to an outline pixel are the ends of a side of the
   * square: a corner pixel ties between its two sides, and the pixel in the
   * middle of a side picks that side.
   */
  lemma OutlinePick(p: Pos, a: nat, b: nat)
    requires On(SquareOutline(), p)
    requires NearestPair(SquareDots(), p, a, b)
    ensures Link(a, b) in Sides()
    ensures p == (1, 0) ==> Link(a, b) == Edge(0, 2)
    ensures p == (0, 1) ==> Link(a, b) == Edge(0, 1)
    ensures p == (2, 1) ==> Link(a, b) == Edge(2, 3)
    ensures p == (1, 2) ==> Link(a, b) == Edge(1, 3)
  {
    OnOutline(p);
    NearestOfFour(SquareDots(), p, a, b);
    CornerGaps(p);
    PickOfFour(p.0, p.1, Dist2(Dot(0, 0, 1), p), a, b);
  }

  /** Every on pixel of the outline adds the edge between its two nearest dots. */
  lemma PixelDrawn(picks: seq<(nat, nat)>, q: Pos)
    requires |picks| == |OnPixels(SquareOutline())|
    requires forall k :: 0 <= k < |picks| ==>
      NearestPair(SquareDots(), OnPixels(SquareOutline())[k], picks[k].0, picks[k].1)
    requires On(SquareOutline(), q)
    ensures exists a: nat, b: nat :: NearestPair(SquareDots(), q, a, b) && Link(a, b) in EdgeSet(picks)
  {
    var pixels := OnPixels(SquareOutline());
    var k :| 0 <= k < |pixels| && pixels[k] == q;
    EdgeSetMembers(picks);
    assert NearestPair(SquareDots(), q, picks[k].0, picks[k].1);
    assert Link(picks[k].0, picks[k].1) in EdgeSet(picks);
  }

  /** The side of the square whose middle pixel is q. */
  function SideOf(q: Pos): Edge
  {
    match q
    case (1, 0) => Edge(0, 2)
    case (0, 1) => Edge(0, 1)
    case (2, 1) => Edge(2, 3)
    case _ => Edge(1, 3)
  }

  /** A set of edges within the square's four sides that holds each of them is the four sides. */
  lemma FourSides(s: set<Edge>)
    requires s <= Sides()
    requires Edge(0, 1) in s && Edge(0, 2) in s && Edge(1, 3) in s && Edge(2, 3) in s
    ensures s == Sides() && |s| == 4
  {
    var s1 := {Edge(0, 1)};
    var s2 := s1 + {Edge(0, 2)};
    var s3 := s2 + {Edge(1, 3)};
    assert s == s3 + {Edge(2, 3)};
  }

  /** Every edge drawn over the outline is a side of the square. */
  lemma DrawnWithinSides(picks: seq<(nat, nat)>)
    requires |picks| == |OnPixels(SquareOutline())|
    requires forall k :: 0 <= k < |picks| ==>
      NearestPair(SquareDots(), OnPixels(SquareOutline())[k], picks[k].0, picks[k].1)
    ensures EdgeSet(picks) <= Sides()
  {
    var pixels := OnPixels(SquareOutline());
    EdgeSetMembers(picks);
    forall e | e in EdgeSet(picks)
      ensures e in Sides()
    {
      var k :| 0 <= k < |picks| && Link(picks[k].0, picks[k].1) == e;
      OutlinePick(pixels[k], picks[k].0, picks[k].1);
    }
  }

  /** The pixel in the middle of a side draws that side. */
  lemma SideDrawn(picks: seq<(nat, nat)>, q: Pos)
    requires |picks| == |OnPixels(SquareOutline())|
    requires forall k :: 0 <= k < |picks| ==>
      NearestPair(SquareDots(), OnPixels(SquareOutline())[k], picks[k].0, picks[k].1)
    requires q in [(1, 0), (0, 1), (2, 1), (1, 2)]
    ensures SideOf(q) in EdgeSet(picks)
  {
    PixelDrawn(picks, q);
    var a: nat, b: nat :| NearestPair(SquareDots(), q, a, b) && Link(a, b) in EdgeSet(picks);
    OutlinePick(q, a, b);
  }

  /**
   * Whichever way the pixel loop breaks the ties at the corners, it joins
   * exactly the four sides of the square and draws one line per side.
   */
  lemma SquareOutlineDrawn(picks: seq<(nat, nat)>)
    requires |picks| == |OnPixels(SquareOutline())|
    requires forall k :: 0 <= k < |picks| ==>
      NearestPair(SquareDots(), OnPixels(SquareOutline())[k], picks[k].0, picks[k].1)
    ensures EdgeSet(picks) == Sides()
    ensures |FirstNew(picks)| == 4
  {
    DrawnWithinSides(picks);
    SideDrawn(picks, (1, 0));
    SideDrawn(picks, (0, 1));
    SideDrawn(picks, (2, 1));
    SideDrawn(picks, (1, 2));
    FourSides(EdgeSet(picks));
    FirstNewCount(picks);
  }

  /**
   * `build_graph` and then `analyze_pattern` on the square's dots and its
   * outline image: four dots, four lines, one loop, a connected graph and an
   * Eulerian path (every degree is 2).
   */
  method AnalyzeSquare() returns (a: AnalysisResult)
    ensures a.dotCount == 4 && a.lineCount == 4 && a.loops == 1
    ensures a.connectivity == "Connected" && a.hasEulerianPath
  {
    var analyzer := new KolamAnalyzer([3, 3, 3]);
    var p;
    ghost var picks;
    p, picks := analyzer.BuildGraph(SquareDots(), SquareOutline());
    SquareOutlineDrawn(picks);
    assert p.graph == SquareGraph() && |p.lines| == 4;
    SquareGraphAnalysis(p.dots, p.lines);
    var q := analyzer.AnalyzePattern(p);
    a := q.analysis;
  }

  /** A centre joined to three leaves. */
  function StarGraph(): Graph
  {
    Graph([(50, 50), (0, 50), (100, 50), (50, 0)], {Edge(0, 1), Edge(0, 2), Edge(0, 3)})
  }

  /** A star with three leaves has four odd-degree nodes, so it fails the Eulerian test. */
  lemma StarNotEulerian(dots: seq<Dot>, lines: seq<Line>)
    ensures |OddNodes(StarGraph())| == 4
    ensures !Expected(dots, lines, StarGraph()).hasEulerianPath
  {
    var g := StarGraph();
    assert Incident(g, 0) == {Edge(0, 1), Edge(0, 2), Edge(0, 3)};
    assert Incident(g, 1) == {Edge(0, 1)};
    assert Incident(g, 2) == {Edge(0, 2)};
    assert Incident(g, 3) == {Edge(0, 3)};
    assert OddNodes(g) == {0, 1, 2, 3};
  }

  /** Two triangles apart from each other. */
  function TwoTriangles(): Graph
  {
    Graph([(0, 0), (20, 0), (10, 20), (100, 0), (120, 0), (110, 20)],
          {Edge(0, 1), Edge(0, 2), Edge(1, 2), Edge(3, 4), Edge(3, 5), Edge(4, 5)})
  }

  lemma TwoTrianglesDegrees(v: nat)
    requires v < 6
    ensures Degree(TwoTriangles(), v) == 2
  {
    var g := TwoTriangles();
    if v == 0 {
      assert Incident(g, v) == {Edge(0, 1), Edge(0, 2)};
    } else if v == 1 {
      assert Incident(g, v) == {Edge(0, 1), Edge(1, 2)};
    } else if v == 2 {
      assert Incident(g, v) == {Edge(0, 2), Edge(1, 2)};
    } else if v == 3 {
      assert Incident(g, v) == {Edge(3, 4), Edge(3, 5)};
    } else if v == 4 {
      assert Incident(g, v) == {Edge(3, 4), Edge(4, 5)};
    } else {
      assert Incident(g, v) == {Edge(3, 5), Edge(4, 5)};
    }
  }

  lemma TwoTrianglesEven()
    ensures OddNodes(TwoTriangles()) == {}
  {
    forall v: nat | v < 6
      ensures Degree(TwoTriangles(), v) % 2 == 0
    {
      TwoTrianglesDegrees(v);
    }
  }

  /** No walk leaves the first triangle, so node 0 does not reach node 3. */
  lemma TwoTrianglesApart()
    ensures !Reaches(TwoTriangles(), 0, 3)
  {
    var g := TwoTriangles();
    var s: set<nat> := {0, 1, 2};
    assert Closed(g, s);
    forall w | IsWalk(g, w) && w[0] == 0
      ensures w[|w| - 1] != 3
    {
      ClosedWalk(g, s, w);
    }
  }

  /**
   * The Eulerian test reads only the degrees: two separate triangles pass it
   * although they are disconnected, so no single walk covers their edges.
   */
  lemma EulerTestIgnoresConnectivity(dots: seq<Dot>, lines: seq<Line>)
    ensures var a := Expected(dots, lines, TwoTriangles());
      a.hasEulerianPath && a.connectivity == "Disconnected"
  {
    TwoTrianglesEven();
    TwoTrianglesApart();
  }
}
