/**
 * The undirected graph that the analyzer builds and measures, as a value.
 * Node i carries the position pos[i]; an edge is an unordered pair of node
 * indices, stored as Edge(lo, hi) with the smaller index first.  The metrics
 * the analyzer asks the graph library for (cycle-basis size, connectivity,
 * degrees) are given here by their graph-theoretic definitions.
 */
module Graphs {

  /** A pixel position (x, y). */
  type Pos = (int, int)

  /** An unordered pair of node indices, smaller index first. */
  datatype Edge = Edge(lo: nat, hi: nat)

  /** The edge joining a and b, whichever order they come in. */
  function Link(a: nat, b: nat): Edge
  {
    if a <= b then Edge(a, b) else Edge(b, a)
  }

  datatype Graph = Graph(pos: seq<Pos>, edges: set<Edge>)

  function EmptyGraph(): Graph
  {
    Graph([], {})
  }

  /** Every edge joins two distinct existing nodes. */
  ghost predicate WellFormed(g: Graph)
  {
    forall e :: e in g.edges ==> e.lo < e.hi < |g.pos|
  }

  /** `has_edge(a, b)` of an undirected graph. */
  predicate HasEdge(g: Graph, a: nat, b: nat)
  {
    Link(a, b) in g.edges
  }

  /** `add_node(i, pos=p)` for the next free index i = |g.pos|. */
  function AddNode(g: Graph, p: Pos): (r: Graph)
    ensures r.edges == g.edges && |r.pos| == |g.pos| + 1
    ensures r.pos[..|g.pos|] == g.pos && r.pos[|g.pos|] == p
    ensures WellFormed(g) ==> WellFormed(r)
  {
    g.(pos := g.pos + [p])
  }

  /** `add_edge(a, b)`: afterwards a and b are joined and no other pair changes. */
  function AddEdge(g: Graph, a: nat, b: nat): (r: Graph)
    ensures r.pos == g.pos
    ensures HasEdge(r, a, b) && HasEdge(r, b, a)
    ensures forall c: nat, d: nat :: HasEdge(r, c, d) <==> HasEdge(g, c, d) || Link(c, d) == Link(a, b)
    ensures WellFormed(g) && a != b && a < |g.pos| && b < |g.pos| ==> WellFormed(r)
  {
    g.(edges := g.edges + {Link(a, b)})
  }

  // ---------------------------------------------------------------------
  // Walks, reachability and connected components

  /** A walk: a non-empty sequence of nodes, consecutive ones joined by an edge. */
  ghost predicate IsWalk(g: Graph, w: seq<nat>)
  {
    && |w| >= 1
    && (forall i :: 0 <= i < |w| ==> w[i] < |g.pos|)
    && (forall i :: 0 <= i < |w| - 1 ==> HasEdge(g, w[i], w[i + 1]))
  }

  ghost predicate Reaches(g: Graph, a: nat, b: nat)
  {
    exists w :: IsWalk(g, w) && w[0] == a && w[|w| - 1] == b
  }

  /** `is_connected`: every node reaches every other node. */
  ghost predicate Connected(g: Graph)
  {
    forall a: nat, b: nat :: a < |g.pos| && b < |g.pos| ==> Reaches(g, a, b)
  }

  /** The connected component of node a. */
  ghost function Component(g: Graph, a: nat): set<nat>
  {
    set b: nat | b < |g.pos| && Reaches(g, a, b)
  }

  /** The components of the nodes below k. */
  ghost function ComponentsBelow(g: Graph, k: nat): set<set<nat>>
  {
    set a: nat | a < k && a < |g.pos| :: Component(g, a)
  }

  ghost function ComponentCount(g: Graph): nat
  {
    |ComponentsBelow(g, |g.pos|)|
  }

  /**
   * The size of a cycle basis of g: |E| - |V| + (number of components),
   * the first Betti number of the graph.
   */
  ghost function CycleRank(g: Graph): int
  {
    |g.edges| - |g.pos| + ComponentCount(g)
  }

  /** A set closed under adjacency: an edge has both ends inside or both outside. */
  ghost predicate Closed(g: Graph, s: set<nat>)
  {
    forall e :: e in g.edges ==> (e.lo in s <==> e.hi in s)
  }

  lemma ReachesSelf(g: Graph, a: nat)
    requires a < |g.pos|
    ensures Reaches(g, a, a)
  {
    assert IsWalk(g, [a]);
  }

  lemma ReachesStep(g: Graph, a: nat, b: nat, c: nat)
    requires WellFormed(g) && Reaches(g, a, b) && HasEdge(g, b, c)
    ensures Reaches(g, a, c)
  {
    var w :| IsWalk(g, w) && w[0] == a && w[|w| - 1] == b;
    var w' := w + [c];
    assert IsWalk(g, w');
  }

  /** Reversing a walk gives a walk: reachability is symmetric. */
  lemma {:induction false} ReachesSymmetric(g: Graph, a: nat, b: nat)
    requires Reaches(g, a, b)
    ensures Reaches(g, b, a)
  {
    var w :| IsWalk(g, w) && w[0] == a && w[|w| - 1] == b;
    var r := seq(|w|, i requires 0 <= i < |w| => w[|w| - 1 - i]);
    forall i | 0 <= i < |r| - 1
      ensures HasEdge(g, r[i], r[i + 1])
    {
      var j := |w| - 2 - i;
      assert HasEdge(g, w[j], w[j + 1]);
      assert Link(w[j], w[j + 1]) == Link(w[j + 1], w[j]);
    }
    assert IsWalk(g, r);
  }

  /** Joining two walks end to start: reachability is transitive. */
  lemma ReachesTransitive(g: Graph, a: nat, b: nat, c: nat)
    requires Reaches(g, a, b) && Reaches(g, b, c)
    ensures Reaches(g, a, c)
  {
    var w1 :| IsWalk(g, w1) && w1[0] == a && w1[|w1| - 1] == b;
    var w2 :| IsWalk(g, w2) && w2[0] == b && w2[|w2| - 1] == c;
    var w := w1 + w2[1..];
    forall i | 0 <= i < |w| - 1
      ensures HasEdge(g, w[i], w[i + 1])
    {
      if i < |w1| - 1 {
        assert w[i] == w1[i] && w[i + 1] == w1[i + 1];
      } else {
        var j := i - |w1| + 1;
        assert w[i] == w2[j] && w[i + 1] == w2[j + 1];
      }
    }
    assert IsWalk(g, w);
  }

  /** A walk that starts inside a closed set never leaves it. */
  lemma {:induction false} ClosedWalk(g: Graph, s: set<nat>, w: seq<nat>)
    requires WellFormed(g) && Closed(g, s) && IsWalk(g, w) && w[0] in s
    ensures w[|w| - 1] in s
    decreases |w|
  {
    if |w| > 1 {
      var v := w[..|w| - 1];
      assert IsWalk(g, v);
      ClosedWalk(g, s, v);
      var e := Link(w[|w| - 2], w[|w| - 1]);
      assert HasEdge(g, w[|w| - 2], w[|w| - 1]);
      assert e in g.edges;
    }
  }

  /** Nodes that reach each other have the same component. */
  lemma SameComponent(g: Graph, a: nat, b: nat)
    requires Reaches(g, a, b)
    ensures Component(g, a) == Component(g, b)
  {
    forall v: nat | v in Component(g, b)
      ensures v in Component(g, a)
    {
      ReachesTransitive(g, a, b, v);
    }
    ReachesSymmetric(g, a, b);
    forall v: nat | v in Component(g, a)
      ensures v in Component(g, b)
    {
      ReachesTransitive(g, b, a, v);
    }
  }

  /**
   * Computes the component of s by a worklist search: the set grows by the
   * neighbours of one pending node at a time until no node is pending.
   */
  method ReachableFrom(g: Graph, s: nat) returns (r: set<nat>)
    requires WellFormed(g) && s < |g.pos|
    ensures r == Component(g, s)
  {
    r := {s};
    var todo := {s};
    ReachesSelf(g, s);
    while todo != {}
      invariant todo <= r
      invariant s in r
      invariant forall v :: v in r ==> v < |g.pos| && Reaches(g, s, v)
      invariant forall e :: e in g.edges && e.lo in r - todo ==> e.hi in r
      invariant forall e :: e in g.edges && e.hi in r - todo ==> e.lo in r
      decreases |g.pos| - |r|, todo
    {
      BoundedSetSize(r, |g.pos|);
      var u :| u in todo;
      var next := set v: nat | v < |g.pos| && HasEdge(g, u, v) && v !in r;
      forall v | v in next
        ensures Reaches(g, s, v)
      {
        ReachesStep(g, s, u, v);
      }
      forall e | e in g.edges && e.lo == u
        ensures e.hi in r + next
      {
        assert Link(u, e.hi) == e;
      }
      forall e | e in g.edges && e.hi == u
        ensures e.lo in r + next
      {
        assert Link(u, e.lo) == e;
      }
      r := r + next;
      todo := todo - {u} + next;
      BoundedSetSize(r, |g.pos|);
    }
    forall v: nat | v in Component(g, s)
      ensures v in r
    {
      var w :| IsWalk(g, w) && w[0] == s && w[|w| - 1] == v;
      ClosedWalk(g, r, w);
    }
  }

  /** Some node below k reaches v. */
  ghost predicate ReachedBelow(g: Graph, k: nat, v: nat)
  {
    exists a: nat :: a < k && Reaches(g, a, v)
  }

  /** The nodes in the components of the nodes below k. */
  ghost function Covered(g: Graph, k: nat): set<nat>
  {
    set v: nat | v < |g.pos| && ReachedBelow(g, k, v)
  }

  /**
   * Counts connected components: a node starts a new component exactly when
   * no earlier node's search has already visited it.
   */
  method CountComponents(g: Graph) returns (c: nat)
    requires WellFormed(g)
    ensures c == ComponentCount(g)
  {
    var visited: set<nat> := {};
    c := 0;
    var i := 0;
    while i < |g.pos|
      invariant 0 <= i <= |g.pos|
      invariant visited == Covered(g, i)
      invariant c == |ComponentsBelow(g, i)|
    {
      if i in visited {
        VisitedNode(g, i);
      } else {
        var comp := ReachableFrom(g, i);
        NewComponent(g, i);
        visited := visited + comp;
        c := c + 1;
      }
      i := i + 1;
    }
  }

  /** A node some earlier node reaches adds no component and no covered node. */
  lemma VisitedNode(g: Graph, i: nat)
    requires i < |g.pos| && i in Covered(g, i)
    ensures ComponentsBelow(g, i + 1) == ComponentsBelow(g, i)
    ensures Covered(g, i + 1) == Covered(g, i)
  {
    var a: nat :| a < i && Reaches(g, a, i);
    SameComponent(g, a, i);
    forall v: nat | v in Covered(g, i + 1)
      ensures v in Covered(g, i)
    {
      var b: nat :| b < i + 1 && Reaches(g, b, v);
      if b == i {
        ReachesTransitive(g, a, i, v);
      }
    }
  }

  /** A node no earlier node reaches starts a new component, which it covers. */
  lemma NewComponent(g: Graph, i: nat)
    requires i < |g.pos| && i !in Covered(g, i)
    ensures ComponentsBelow(g, i + 1) == ComponentsBelow(g, i) + {Component(g, i)}
    ensures Component(g, i) !in ComponentsBelow(g, i)
    ensures Covered(g, i + 1) == Covered(g, i) + Component(g, i)
  {
    ReachesSelf(g, i);
    forall a: nat | a < i
      ensures Component(g, a) != Component(g, i)
    {
      assert i in Component(g, i);
    }
  }

  /** A set of naturals below n has at most n elements. */
  lemma {:induction false} BoundedSetSize(s: set<nat>, n: nat)
    requires forall v :: v in s ==> v < n
    ensures |s| <= n
  {
    if n > 0 {
      var t := s - {n - 1};
      BoundedSetSize(t, n - 1);
    } else {
      assert s == {};
    }
  }

  /** A set of size one holds a single element. */
  lemma SingletonMembers<T>(s: set<T>, x: T, y: T)
    requires |s| == 1 && x in s && y in s
    ensures x == y
  {
    var rest := s - {x};
    assert |rest| == 0;
  }

  /** A non-empty graph is connected exactly when it has one component. */
  lemma ConnectedIffOneComponent(g: Graph)
    requires |g.pos| > 0
    ensures Connected(g) <==> ComponentCount(g) == 1
  {
    var n := |g.pos|;
    var comps := ComponentsBelow(g, n);
    assert Component(g, 0) in comps;
    if Connected(g) {
      forall a: nat | a < n
        ensures Component(g, a) == Component(g, 0)
      {
        SameComponent(g, 0, a);
      }
      assert comps == {Component(g, 0)};
    }
    if ComponentCount(g) == 1 {
      forall a: nat, b: nat | a < n && b < n
        ensures Reaches(g, a, b)
      {
        assert Component(g, a) in comps && Component(g, b) in comps;
        SingletonMembers(comps, Component(g, a), Component(g, 0));
        SingletonMembers(comps, Component(g, b), Component(g, 0));
        ReachesSelf(g, a);
        ReachesSelf(g, b);
        assert a in Component(g, 0) && b in Component(g, 0);
        ReachesSymmetric(g, 0, a);
        ReachesTransitive(g, a, 0, b);
      }
    }
  }

  // ---------------------------------------------------------------------
  // Degrees

  /** The edges that touch node v. */
  function Incident(g: Graph, v: nat): set<Edge>
  {
    set e | e in g.edges && (e.lo == v || e.hi == v)
  }

  function Degree(g: Graph, v: nat): nat
  {
    |Incident(g, v)|
  }

  /** The nodes of odd degree. */
  function OddNodes(g: Graph): set<nat>
  {
    set v: nat | v < |g.pos| && Degree(g, v) % 2 != 0
  }

  /** Removing edge e lowers the degree of its two ends by one and no other. */
  lemma DegreeWithout(g: Graph, e: Edge, v: nat)
    requires e in g.edges && e.lo != e.hi
    ensures Degree(g, v) == Degree(g.(edges := g.edges - {e}), v) + (if v == e.lo || v == e.hi then 1 else 0)
  {
    var h := g.(edges := g.edges - {e});
    if v == e.lo || v == e.hi {
      assert Incident(g, v) == Incident(h, v) + {e};
    } else {
      assert Incident(g, v) == Incident(h, v);
    }
  }

  /** Toggling two distinct elements in or out of a set keeps its size's parity. */
  lemma ToggleParity(s: set<nat>, a: nat, b: nat)
    requires a != b
    ensures |(s - {a, b}) + ({a, b} - s)| % 2 == |s| % 2
  {
    var kept := s - {a, b};
    var gained := {a, b} - s;
    var lost := s * {a, b};
    assert kept !! gained && kept !! lost && lost !! gained;
    assert s == kept + lost;
    assert lost + gained == {a, b};
    assert |kept + gained| == |kept| + |gained|;
    assert |s| == |kept| + |lost|;
    assert |lost| + |gained| == 2;
  }

  /** Removing edge (a, b) flips the parity of the degrees of a and b and of no other node. */
  lemma OddNodesWithout(g: Graph, e: Edge)
    requires WellFormed(g) && e in g.edges
    ensures var oh := OddNodes(g.(edges := g.edges - {e}));
      OddNodes(g) == (oh - {e.lo, e.hi}) + ({e.lo, e.hi} - oh)
  {
    var h := g.(edges := g.edges - {e});
    var oh := OddNodes(h);
    forall v: nat
      ensures v in OddNodes(g) <==> v in (oh - {e.lo, e.hi}) + ({e.lo, e.hi} - oh)
    {
      DegreeWithout(g, e, v);
    }
  }

  /**
   * The handshake lemma: the number of odd-degree nodes is even, since the
   * degrees add up to twice the number of edges.
   */
  lemma {:induction false} OddNodesEven(g: Graph)
    requires WellFormed(g)
    ensures |OddNodes(g)| % 2 == 0
    decreases |g.edges|
  {
    if g.edges == {} {
      forall v: nat | v < |g.pos|
        ensures Degree(g, v) == 0
      {
        assert Incident(g, v) == {};
      }
      assert OddNodes(g) == {};
    } else {
      var e :| e in g.edges;
      var h := g.(edges := g.edges - {e});
      assert |h.edges| < |g.edges|;
      OddNodesEven(h);
      OddNodesWithout(g, e);
      ToggleParity(OddNodes(h), e.lo, e.hi);
    }
  }
}
