/**
 * The two symmetry measures of the analyzer: the mirror-symmetry score of the
 * edges under reflection in the line x = 0, and the 180-degree rotational
 * fold of the dots about their centroid.
 */
module Symmetry {
  import opened Graphs
  import opened Models

  // ---------------------------------------------------------------------
  // Mirror symmetry

  /** Reflection in the vertical line x = 0 (the coordinate origin, not the centroid). */
  function Reflect(p: Pos): Pos
  {
    (-p.0, p.1)
  }

  /**
   * The node the scan over the nodes keeps for position p: every node at p
   * overwrites the previous candidate, so it is the highest-indexed one.
   */
  function LastAt(pos: seq<Pos>, p: Pos): (r: Option<nat>)
    ensures r.Some? ==> r.value < |pos| && pos[r.value] == p
    ensures r.Some? ==> forall j :: r.value < j < |pos| ==> pos[j] != p
    ensures r.None? <==> p !in pos
  {
    if |pos| == 0 then None
    else if pos[|pos| - 1] == p then Some(|pos| - 1)
    else LastAt(pos[..|pos| - 1], p)
  }

  /**
   * Edge e has a mirror image: both reflected end positions are occupied by
   * nodes, and the nodes found there are joined.
   */
  predicate Mirrored(g: Graph, e: Edge)
  {
    && e.lo < |g.pos| && e.hi < |g.pos|
    && var ru := LastAt(g.pos, Reflect(g.pos[e.lo]));
    && var rv := LastAt(g.pos, Reflect(g.pos[e.hi]));
    && ru.Some? && rv.Some? && HasEdge(g, ru.value, rv.value)
  }

  function MirroredEdges(g: Graph): set<Edge>
  {
    set e | e in g.edges && Mirrored(g, e)
  }

  /** The symmetry score of a pattern: 0 without dots or edges, else matched / total edges. */
  function SymmetryScore(dots: seq<Dot>, g: Graph): Score
  {
    if |dots| == 0 || |g.edges| == 0 then Score(0, 0)
    else Score(|MirroredEdges(g)|, |g.edges|)
  }

  /** One scan over the nodes finds the nodes at both reflected positions. */
  method FindReflectedNodes(pos: seq<Pos>, pu: Pos, pv: Pos) returns (nu: Option<nat>, nv: Option<nat>)
    ensures nu == LastAt(pos, pu) && nv == LastAt(pos, pv)
  {
    nu, nv := None, None;
    for i := 0 to |pos|
      invariant nu == LastAt(pos[..i], pu) && nv == LastAt(pos[..i], pv)
    {
      assert pos[..i + 1][..i] == pos[..i];
      if pos[i] == pu {
        nu := Some(i);
      }
      if pos[i] == pv {
        nv := Some(i);
      }
    }
    assert pos[..|pos|] == pos;
  }

  /** The symmetry score: count the edges that have a mirror image. */
  method CalculateSymmetryScore(dots: seq<Dot>, g: Graph) returns (score: Score)
    requires WellFormed(g)
    ensures score == SymmetryScore(dots, g)
  {
    if |dots| == 0 {
      return Score(0, 0);
    }
    var total := |g.edges|;
    if total == 0 {
      return Score(0, 0);
    }
    var symmetric := 0;
    var todo := g.edges;
    while todo != {}
      invariant todo <= g.edges
      invariant symmetric == |MirroredEdges(g) - todo|
      decreases todo
    {
      var e :| e in todo;
      var nu, nv := FindReflectedNodes(g.pos, Reflect(g.pos[e.lo]), Reflect(g.pos[e.hi]));
      var matched := nu.Some? && nv.Some? && HasEdge(g, nu.value, nv.value);
      assert matched == Mirrored(g, e);
      CountStep(g, todo, e);
      if matched {
        symmetric := symmetric + 1;
      }
      todo := todo - {e};
    }
    score := Score(symmetric, total);
  }

  /** Taking e off the pending set adds one to the count of matched edges seen exactly when e is matched. */
  lemma CountStep(g: Graph, todo: set<Edge>, e: Edge)
    requires e in todo
    ensures |MirroredEdges(g) - (todo - {e})| == |MirroredEdges(g) - todo| + (if Mirrored(g, e) && e in g.edges then 1 else 0)
  {
    var before := MirroredEdges(g) - todo;
    if Mirrored(g, e) && e in g.edges {
      assert MirroredEdges(g) - (todo - {e}) == before + {e};
    } else {
      assert MirroredEdges(g) - (todo - {e}) == before;
    }
  }

  /** The score lies between 0 and 1. */
  lemma ScoreBounds(dots: seq<Dot>, g: Graph)
    ensures SymmetryScore(dots, g).matched <= SymmetryScore(dots, g).total
    ensures 0.0 <= SymmetryScore(dots, g).Value() <= 1.0
  {
    var s := SymmetryScore(dots, g);
    if s.total > 0 {
      assert MirroredEdges(g) <= g.edges;
      SubsetSize(MirroredEdges(g), g.edges);
      assert s.matched as real / s.total as real <= 1.0;
    }
  }

  lemma SubsetSize<T>(a: set<T>, b: set<T>)
    requires a <= b
    ensures |a| <= |b|
  {
    assert b == a + (b - a);
  }

  /** All coordinates are image coordinates, so none is negative. */
  ghost predicate NonNegative(pos: seq<Pos>)
  {
    forall i :: 0 <= i < |pos| ==> pos[i].0 >= 0 && pos[i].1 >= 0
  }

  /**
   * With image coordinates a matched edge has both ends on the line x = 0:
   * the reflection of any point off that line has a negative x.
   */
  lemma SymmetryNeedsZeroX(g: Graph, e: Edge)
    requires NonNegative(g.pos) && Mirrored(g, e)
    ensures g.pos[e.lo].0 == 0 && g.pos[e.hi].0 == 0
  {
    var ru := LastAt(g.pos, Reflect(g.pos[e.lo]));
    var rv := LastAt(g.pos, Reflect(g.pos[e.hi]));
    assert g.pos[ru.value] == Reflect(g.pos[e.lo]);
    assert g.pos[rv.value] == Reflect(g.pos[e.hi]);
  }

  /** No two nodes share a position. */
  ghost predicate DistinctPositions(pos: seq<Pos>)
  {
    forall i, j :: 0 <= i < j < |pos| ==> pos[i] != pos[j]
  }

  /**
   * When positions are distinct image coordinates, an edge is matched exactly
   * when both of its ends lie on x = 0 (it is then its own mirror image).
   */
  lemma MirroredIffOnAxis(g: Graph, e: Edge)
    requires WellFormed(g) && NonNegative(g.pos) && DistinctPositions(g.pos) && e in g.edges
    ensures Mirrored(g, e) <==> g.pos[e.lo].0 == 0 && g.pos[e.hi].0 == 0
  {
    if g.pos[e.lo].0 == 0 && g.pos[e.hi].0 == 0 {
      var ru := LastAt(g.pos, Reflect(g.pos[e.lo]));
      var rv := LastAt(g.pos, Reflect(g.pos[e.hi]));
      assert Reflect(g.pos[e.lo]) == g.pos[e.lo];
      assert Reflect(g.pos[e.hi]) == g.pos[e.hi];
      assert ru.Some? && rv.Some?;
      assert g.pos[ru.value] == g.pos[e.lo] && g.pos[rv.value] == g.pos[e.hi];
      assert ru.value == e.lo && rv.value == e.hi;
      assert Link(e.lo, e.hi) == e;
    } else if Mirrored(g, e) {
      SymmetryNeedsZeroX(g, e);
    }
  }

  /**
   * A pattern of image coordinates with no node on x = 0 scores 0: none of its
   * edges can be matched.
   */
  lemma NoAxisNoSymmetry(dots: seq<Dot>, g: Graph)
    requires NonNegative(g.pos)
    requires forall i :: 0 <= i < |g.pos| ==> g.pos[i].0 > 0
    ensures SymmetryScore(dots, g).matched == 0
    ensures SymmetryScore(dots, g).Value() == 0.0
  {
    forall e | e in g.edges
      ensures !Mirrored(g, e)
    {
      if Mirrored(g, e) {
        SymmetryNeedsZeroX(g, e);
      }
    }
    assert MirroredEdges(g) == {};
  }

  /** Two dots mirrored about x = 0, joined by one edge. */
  function MirroredPair(): Graph
  {
    Graph([(-10, 0), (10, 0)], {Edge(0, 1)})
  }

  lemma MirroredPairEdge()
    ensures Mirrored(MirroredPair(), Edge(0, 1))
  {
    var pos := MirroredPair().pos;
    assert LastAt(pos, (10, 0)) == Some(1);
    assert LastAt(pos[..1], (-10, 0)) == Some(0);
    assert LastAt(pos, (-10, 0)) == Some(0);
  }

  /** Two dots mirrored about x = 0 and joined by one edge score 1.0. */
  lemma MirroredPairScoresOne()
    ensures SymmetryScore([Dot(-10, 0, 5), Dot(10, 0, 5)], MirroredPair()).Value() == 1.0
  {
    var g := MirroredPair();
    forall e
      ensures e in MirroredEdges(g) <==> e == Edge(0, 1)
    {
      if e == Edge(0, 1) {
        MirroredPairEdge();
      }
    }
    assert MirroredEdges(g) == g.edges;
    assert SymmetryScore([Dot(-10, 0, 5), Dot(10, 0, 5)], g) == Score(1, 1);
  }

  // ---------------------------------------------------------------------
  // 180-degree rotational symmetry

  function SumX(dots: seq<Dot>): int
  {
    if |dots| == 0 then 0 else SumX(dots[..|dots| - 1]) + dots[|dots| - 1].x
  }

  function SumY(dots: seq<Dot>): int
  {
    if |dots| == 0 then 0 else SumY(dots[..|dots| - 1]) + dots[|dots| - 1].y
  }

  function Abs(v: int): nat
  {
    if v < 0 then -v else v
  }

  /**
   * n times the image of dot i under the half turn about the centroid c:
   * n * (2c - p) = 2 * (sum of the coordinates) - n * p, with n = |dots|.
   */
  function ScaledRotation(dots: seq<Dot>, i: nat): Pos
    requires i < |dots|
  {
    var n := |dots|;
    (2 * SumX(dots) - n * dots[i].x, 2 * SumY(dots) - n * dots[i].y)
  }

  /**
   * Dot d lies strictly within 5 pixels on both axes of the point q / n
   * (the tolerance test, scaled by n > 0).
   */
  predicate CloseScaled(d: Dot, q: Pos, n: int)
  {
    Abs(n * d.x - q.0) < 5 * n && Abs(n * d.y - q.1) < 5 * n
  }

  predicate HasPartner(dots: seq<Dot>, i: nat)
    requires i < |dots|
  {
    exists j :: 0 <= j < |dots| && CloseScaled(dots[j], ScaledRotation(dots, i), |dots|)
  }

  /** The rotational fold: 2 when every dot's half-turn image is near some dot, else 1. */
  function RotationalFold(dots: seq<Dot>): (fold: int)
    ensures fold == 1 || fold == 2
    ensures |dots| == 0 ==> fold == 1
  {
    if |dots| > 0 && forall i :: 0 <= i < |dots| ==> HasPartner(dots, i) then 2 else 1
  }

  /** First the rotated positions, then a search for a nearby dot for each of them. */
  method DetectRotationalSymmetry(dots: seq<Dot>) returns (fold: int)
    ensures fold == RotationalFold(dots)
  {
    if |dots| == 0 {
      return 1;
    }
    var n := |dots|;
    var sx, sy := SumX(dots), SumY(dots);
    var rotated: seq<Pos> := [];
    for i := 0 to n
      invariant |rotated| == i
      invariant forall k :: 0 <= k < i ==> rotated[k] == ScaledRotation(dots, k)
    {
      rotated := rotated + [(2 * sx - n * dots[i].x, 2 * sy - n * dots[i].y)];
    }
    var matches := 0;
    for i := 0 to n
      invariant matches <= i
      invariant matches == i <==> forall k :: 0 <= k < i ==> HasPartner(dots, k)
    {
      var j := 0;
      var found := false;
      while j < n && !found
        invariant 0 <= j <= n
        invariant found ==> HasPartner(dots, i)
        invariant !found ==> forall k :: 0 <= k < j ==> !CloseScaled(dots[k], rotated[i], n)
      {
        if CloseScaled(dots[j], rotated[i], n) {
          found := true;
        }
        j := j + 1;
      }
      if found {
        matches := matches + 1;
      } else {
        assert !HasPartner(dots, i);
      }
    }
    fold := if matches == n then 2 else 1;
  }

  /**
   * On one axis, the scaled integer test says the same as the source's test
   * on the real centroid c = sum / n: |d - (2c - p)| < 5.
   */
  lemma AxisTest(n: nat, sum: int, p: int, d: int)
    requires n > 0
    ensures var c := sum as real / n as real;
      Abs(n * d - (2 * sum - n * p)) < 5 * n <==> -5.0 < d as real - (2.0 * c - p as real) < 5.0
  {
    var nr := n as real;
    var c := sum as real / nr;
    var t := d as real - (2.0 * c - p as real);
    var k := n * d - (2 * sum - n * p);
    assert nr * t == k as real by {
      DivMul(sum as real, nr);
      Distribute(nr, d as real, c, p as real);
      RealProduct(n, d);
      RealProduct(n, p);
    }
    ScaledBound(n, t, k);
  }

  /** A strict bound of 5 on t is a bound of 5n on k = n t. */
  lemma ScaledBound(n: nat, t: real, k: int)
    requires n > 0 && (n as real) * t == k as real
    ensures Abs(k) < 5 * n <==> -5.0 < t < 5.0
  {
    ScaleBound(n as real, t, k as real);
    IntRealBound(k, n);
  }

  lemma ScaleBound(n: real, t: real, kr: real)
    requires n > 0.0 && n * t == kr
    ensures (-5.0 < t < 5.0) <==> (-5.0 * n < kr < 5.0 * n)
  {
    if -5.0 < t {
      assert n * (t + 5.0) > 0.0;
    }
    if t < 5.0 {
      assert n * (5.0 - t) > 0.0;
    }
    if -5.0 * n < kr {
      assert n * (t + 5.0) > 0.0;
    }
    if kr < 5.0 * n {
      assert n * (5.0 - t) > 0.0;
    }
  }

  lemma IntRealBound(k: int, n: int)
    ensures Abs(k) < 5 * n <==> -5.0 * (n as real) < k as real < 5.0 * (n as real)
  {
  }

  lemma DivMul(s: real, n: real)
    requires n > 0.0
    ensures n * (s / n) == s
  {
  }

  lemma Distribute(n: real, d: real, c: real, p: real)
    ensures n * (d - (2.0 * c - p)) == n * d - 2.0 * (n * c) + n * p
  {
  }

  lemma RealProduct(a: int, b: int)
    ensures (a * b) as real == (a as real) * (b as real)
  {
  }

  /**
   * The scaled integer test of dot d against the half-turn image of dot i is
   * the source's tolerance test against the real centroid, on both axes.
   */
  lemma ScaledTestIsCentroidTest(dots: seq<Dot>, i: nat, d: Dot)
    requires i < |dots|
    ensures var n := |dots| as real;
      var rx := 2.0 * (SumX(dots) as real / n) - dots[i].x as real;
      var ry := 2.0 * (SumY(dots) as real / n) - dots[i].y as real;
      CloseScaled(d, ScaledRotation(dots, i), |dots|) <==>
        (-5.0 < d.x as real - rx < 5.0 && -5.0 < d.y as real - ry < 5.0)
  {
    AxisTest(|dots|, SumX(dots), dots[i].x, d.x);
    AxisTest(|dots|, SumY(dots), dots[i].y, d.y);
  }

  /** A single dot is its own half-turn image. */
  lemma SingleDotFold(d: Dot)
    ensures RotationalFold([d]) == 2
  {
    var dots := [d];
    assert SumX(dots) == d.x && SumY(dots) == d.y;
    assert ScaledRotation(dots, 0) == (d.x, d.y);
    assert CloseScaled(dots[0], ScaledRotation(dots, 0), 1);
  }
}
