/**
 * What the graph built from a maze means on the grid (code.cpp lines
 * 589-636): its nodes are exactly the open cells, numbered in row-major
 * order; its edges join exactly the pairs of open cells that share a side,
 * so the edge relation is symmetric and loop-free and every walk in the
 * graph is a path of side-by-side open cells.
 */
module BuiltGraphs {
  import opened Limits
  import opened Seqs
  import opened Mazes
  import opened Graphs
  import opened Walks
  import opened CoordMap
  import opened BuildSpec

  lemma DestsAppend(a: seq<Edge>, b: seq<Edge>)
    ensures Dests(a + b) == Dests(a) + Dests(b)
  {
    assert forall i :: 0 <= i < |a + b| ==> Dests(a + b)[i] == (Dests(a) + Dests(b))[i];
  }

  /** The one edge a probe adds, if any, leads to the node it found. */
  lemma LinkDests(id: int, v: int)
    ensures v in Dests(Link(id)) <==> id != -1 && v == id
  {
    if id != -1 {
      assert Dests(Link(id)) == [id];
    }
  }

  /** The neighbour in direction `q` of `p` is linked from `p` exactly when it is node `v`. */
  lemma ProbeFinds(m: Maze, q: Cell, v: int)
    requires m.Valid()
    ensures v in Dests(Link(CellId(m, q))) <==> 0 <= v < |Cells(m)| && Cells(m)[v] == q
  {
    CellIdMeaning(m, q);
    LinkDests(CellId(m, q), v);
    if 0 <= v < |Cells(m)| && Cells(m)[v] == q {
      CellsShape(m);
      IndexOfDistinct(Cells(m), v);
    }
  }

  /** The finished adjacency list of `p` holds the results of the four probes, last probe first. */
  lemma ExpectedDests(m: Maze, p: Cell)
    requires m.Valid()
    ensures Dests(ExpectedAdj(m, p)) ==
              Dests(Link(CellId(m, Step(p, 3)))) + (Dests(Link(CellId(m, Step(p, 2))))
              + (Dests(Link(CellId(m, Step(p, 1)))) + Dests(Link(CellId(m, Step(p, 0))))))
  {
    DestsAppend4(Link(CellId(m, Step(p, 3))), Link(CellId(m, Step(p, 2))), Link(CellId(m, Step(p, 1))), Link(CellId(m, Step(p, 0))));
  }

  lemma DestsAppend4(a: seq<Edge>, b: seq<Edge>, c: seq<Edge>, d: seq<Edge>)
    ensures Dests(a + (b + (c + d))) == Dests(a) + (Dests(b) + (Dests(c) + Dests(d)))
  {
    DestsAppend(c, d);
    DestsAppend(b, c + d);
    DestsAppend(a, b + (c + d));
  }

  /** The finished adjacency list of `p` leads to exactly the open cells beside `p`. */
  lemma ExpectedAdjDests(m: Maze, p: Cell, v: int)
    requires m.Valid()
    ensures v in Dests(ExpectedAdj(m, p)) <==> 0 <= v < |Cells(m)| && Adjacent(p, Cells(m)[v])
  {
    ExpectedDests(m, p);
    ProbeFinds(m, Step(p, 0), v);
    ProbeFinds(m, Step(p, 1), v);
    ProbeFinds(m, Step(p, 2), v);
    ProbeFinds(m, Step(p, 3), v);
    if 0 <= v < |Cells(m)| {
      AdjacentCases(p, Cells(m)[v]);
    }
  }

  /** The cells beside `p` are the four the build probes. */
  lemma AdjacentCases(p: Cell, q: Cell)
    ensures Adjacent(p, q) <==> q == Step(p, 0) || q == Step(p, 1) || q == Step(p, 2) || q == Step(p, 3)
  {
  }

  /** Every edge the build adds has weight 1. */
  lemma ExpectedAdjWeights(m: Maze, p: Cell)
    requires m.Valid()
    ensures forall e :: e in ExpectedAdj(m, p) ==> e.weight == 1
  {
    LinksWeighOne(CellId(m, Step(p, 3)), CellId(m, Step(p, 2)), CellId(m, Step(p, 1)), CellId(m, Step(p, 0)));
  }

  lemma LinksWeighOne(r: int, l: int, d: int, u: int)
    ensures forall e :: e in Link(r) + (Link(l) + (Link(d) + Link(u))) ==> e.weight == 1
  {
  }

  /** Node u stands for the u-th open cell in row-major order, and every open cell has a node. */
  lemma BuiltNodes(m: Maze, g: Graph, cm: HashMap, startNode: int, endNode: int)
    requires m.Valid()
    requires IsBuiltFrom(m, g, cm, startNode, endNode)
    ensures g.nodeCount == |Cells(m)|
    ensures forall u :: 0 <= u < g.nodeCount ==> IsOpenCell(m, NodeCoords(g, u))
    ensures forall u, v :: 0 <= u < v < g.nodeCount ==> RowMajorBefore(NodeCoords(g, u), NodeCoords(g, v))
    ensures forall p :: IsOpenCell(m, p) ==> exists u :: 0 <= u < g.nodeCount && NodeCoords(g, u) == p
  {
    CellsShape(m);
    forall p | IsOpenCell(m, p)
      ensures exists u :: 0 <= u < g.nodeCount && NodeCoords(g, u) == p
    {
      var u := IndexOf(Cells(m), p);
      assert NodeCoords(g, u) == p;
    }
  }

  /** The built graph has an edge u -> v exactly when the cells of u and v share a side. */
  lemma BuiltEdges(m: Maze, g: Graph, cm: HashMap, startNode: int, endNode: int, u: int, v: int)
    requires m.Valid()
    requires IsBuiltFrom(m, g, cm, startNode, endNode)
    ensures IsEdge(g, u, v) <==>
              0 <= u < g.nodeCount && 0 <= v < g.nodeCount && Adjacent(NodeCoords(g, u), NodeCoords(g, v))
  {
    if 0 <= u < g.nodeCount {
      assert g.adjList[u] == ExpectedAdj(m, Cells(m)[u]);
      ExpectedAdjDests(m, Cells(m)[u], v);
    }
  }

  /** Every edge of the built graph leads to a node, so the solvers may run on it. */
  lemma BuiltWellFormed(m: Maze, g: Graph, cm: HashMap, startNode: int, endNode: int)
    requires m.Valid()
    requires IsBuiltFrom(m, g, cm, startNode, endNode)
    ensures WellFormed(g)
  {
    forall u, i | 0 <= u < g.nodeCount && 0 <= i < |g.adjList[u]|
      ensures 0 <= g.adjList[u][i].dest < g.nodeCount
    {
      assert g.adjList[u] == ExpectedAdj(m, Cells(m)[u]);
      assert g.adjList[u][i].dest == Dests(g.adjList[u])[i];
      ExpectedAdjDests(m, Cells(m)[u], g.adjList[u][i].dest);
    }
  }

  /** Line 631: every edge of the built graph has weight 1. */
  lemma BuiltWeights(m: Maze, g: Graph, cm: HashMap, startNode: int, endNode: int)
    requires m.Valid()
    requires IsBuiltFrom(m, g, cm, startNode, endNode)
    ensures forall u, i :: 0 <= u < g.nodeCount && 0 <= i < |g.adjList[u]| ==> g.adjList[u][i].weight == 1
  {
    forall u, i | 0 <= u < g.nodeCount && 0 <= i < |g.adjList[u]|
      ensures g.adjList[u][i].weight == 1
    {
      assert g.adjList[u] == ExpectedAdj(m, Cells(m)[u]);
      ExpectedAdjWeights(m, Cells(m)[u]);
      assert g.adjList[u][i] in g.adjList[u];
    }
  }

  /** Edges of the built graph come in pairs and never join a node to itself. */
  lemma BuiltSymmetric(m: Maze, g: Graph, cm: HashMap, startNode: int, endNode: int, u: int, v: int)
    requires m.Valid()
    requires IsBuiltFrom(m, g, cm, startNode, endNode)
    ensures IsEdge(g, u, v) <==> IsEdge(g, v, u)
    ensures !IsEdge(g, u, u)
  {
    BuiltEdges(m, g, cm, startNode, endNode, u, v);
    BuiltEdges(m, g, cm, startNode, endNode, v, u);
    BuiltEdges(m, g, cm, startNode, endNode, u, u);
  }

  /**
   * The start node is -1 exactly when no cell holds 'S'; otherwise it is
   * the node of an 'S' cell and every other 'S' cell comes earlier in
   * row-major order. The same holds for the end node and 'E'.
   */
  lemma BuiltEnds(m: Maze, g: Graph, cm: HashMap, startNode: int, endNode: int)
    requires m.Valid()
    requires IsBuiltFrom(m, g, cm, startNode, endNode)
    ensures startNode == -1 <==> forall p :: IsOpenCell(m, p) ==> m.GetCell(p.0, p.1) != 'S'
    ensures startNode != -1 ==> 0 <= startNode < g.nodeCount && m.GetCell(NodeCoords(g, startNode).0, NodeCoords(g, startNode).1) == 'S'
    ensures startNode != -1 ==> forall p :: IsOpenCell(m, p) && m.GetCell(p.0, p.1) == 'S' ==>
              p == NodeCoords(g, startNode) || RowMajorBefore(p, NodeCoords(g, startNode))
    ensures endNode == -1 <==> forall p :: IsOpenCell(m, p) ==> m.GetCell(p.0, p.1) != 'E'
    ensures endNode != -1 ==> 0 <= endNode < g.nodeCount && m.GetCell(NodeCoords(g, endNode).0, NodeCoords(g, endNode).1) == 'E'
    ensures endNode != -1 ==> forall p :: IsOpenCell(m, p) && m.GetCell(p.0, p.1) == 'E' ==>
              p == NodeCoords(g, endNode) || RowMajorBefore(p, NodeCoords(g, endNode))
  {
    LastHolder(m, 'S');
    LastHolder(m, 'E');
  }

  /** LastWith over all open cells names the last cell holding `ch`, or -1 when none does. */
  lemma LastHolder(m: Maze, ch: char)
    requires m.Valid()
    ensures var k := LastWith(m, Cells(m), ch);
      && (k == -1 <==> forall p :: IsOpenCell(m, p) ==> m.GetCell(p.0, p.1) != ch)
      && (k != -1 ==> forall p :: IsOpenCell(m, p) && m.GetCell(p.0, p.1) == ch ==>
                        p == Cells(m)[k] || RowMajorBefore(p, Cells(m)[k]))
  {
    CellsShape(m);
    var k := LastWith(m, Cells(m), ch);
    forall p | IsOpenCell(m, p) && m.GetCell(p.0, p.1) == ch
      ensures k != -1 && (p == Cells(m)[k] || RowMajorBefore(p, Cells(m)[k]))
    {
      var i := IndexOf(Cells(m), p);
      assert i <= k;
    }
  }

  /** A path on the grid: open cells, each sharing a side with the next. */
  ghost predicate IsGridPath(m: Maze, cs: seq<Cell>)
    requires m.Valid()
  {
    && |cs| >= 1
    && (forall i :: 0 <= i < |cs| ==> IsOpenCell(m, cs[i]))
    && (forall i :: 0 <= i < |cs| - 1 ==> Adjacent(cs[i], cs[i + 1]))
  }

  ghost predicate GridPathFromTo(m: Maze, cs: seq<Cell>, a: Cell, b: Cell)
    requires m.Valid()
  {
    IsGridPath(m, cs) && cs[0] == a && cs[|cs| - 1] == b
  }

  ghost predicate GridConnected(m: Maze, a: Cell, b: Cell)
    requires m.Valid()
  {
    exists cs :: GridPathFromTo(m, cs, a, b)
  }

  /** The cells a node sequence visits. */
  ghost function CellsOf(g: Graph, p: seq<int>): (cs: seq<Cell>)
    requires g.Valid()
    requires forall i :: 0 <= i < |p| ==> 0 <= p[i] < MaxNodes
    ensures |cs| == |p|
  {
    seq(|p|, i requires 0 <= i < |p| => NodeCoords(g, p[i]))
  }

  /** The nodes a cell sequence visits. */
  ghost function IdsOf(m: Maze, cs: seq<Cell>): (p: seq<int>)
    requires m.Valid()
    ensures |p| == |cs|
  {
    seq(|cs|, i requires 0 <= i < |cs| => CellId(m, cs[i]))
  }

  /** Every walk in the built graph visits a path of side-by-side open cells. */
  lemma WalkOnGrid(m: Maze, g: Graph, cm: HashMap, startNode: int, endNode: int, p: seq<int>)
    requires m.Valid()
    requires IsBuiltFrom(m, g, cm, startNode, endNode)
    requires IsWalk(g, p)
    ensures IsGridPath(m, CellsOf(g, p))
  {
    WalkCellsOpen(m, g, cm, startNode, endNode, p);
    WalkCellsAdjacent(m, g, cm, startNode, endNode, p);
  }

  lemma WalkCellsOpen(m: Maze, g: Graph, cm: HashMap, startNode: int, endNode: int, p: seq<int>)
    requires m.Valid()
    requires IsBuiltFrom(m, g, cm, startNode, endNode)
    requires IsWalk(g, p)
    ensures forall i :: 0 <= i < |p| ==> IsOpenCell(m, CellsOf(g, p)[i])
  {
    forall i | 0 <= i < |p|
      ensures IsOpenCell(m, CellsOf(g, p)[i])
    {
      NodeOpen(m, g, cm, startNode, endNode, p[i]);
    }
  }

  lemma WalkCellsAdjacent(m: Maze, g: Graph, cm: HashMap, startNode: int, endNode: int, p: seq<int>)
    requires m.Valid()
    requires IsBuiltFrom(m, g, cm, startNode, endNode)
    requires IsWalk(g, p)
    ensures forall i :: 0 <= i < |p| - 1 ==> Adjacent(CellsOf(g, p)[i], CellsOf(g, p)[i + 1])
  {
    forall i | 0 <= i < |p| - 1
      ensures Adjacent(CellsOf(g, p)[i], CellsOf(g, p)[i + 1])
    {
      BuiltEdges(m, g, cm, startNode, endNode, p[i], p[i + 1]);
    }
  }

  lemma NodeOpen(m: Maze, g: Graph, cm: HashMap, startNode: int, endNode: int, u: int)
    requires m.Valid()
    requires IsBuiltFrom(m, g, cm, startNode, endNode)
    requires 0 <= u < g.nodeCount
    ensures IsOpenCell(m, NodeCoords(g, u))
  {
    CellsShape(m);
    assert Cells(m)[u] in Cells(m);
  }

  /** Every path of side-by-side open cells is visited by a walk of the built graph of the same length. */
  lemma GridOnWalk(m: Maze, g: Graph, cm: HashMap, startNode: int, endNode: int, cs: seq<Cell>)
    requires m.Valid()
    requires IsBuiltFrom(m, g, cm, startNode, endNode)
    requires IsGridPath(m, cs)
    ensures IsWalk(g, IdsOf(m, cs))
    ensures forall i :: 0 <= i < |cs| ==> NodeCoords(g, IdsOf(m, cs)[i]) == cs[i]
  {
    var p := IdsOf(m, cs);
    forall i | 0 <= i < |cs|
      ensures 0 <= p[i] < g.nodeCount && NodeCoords(g, p[i]) == cs[i]
    {
      CellIdMeaning(m, cs[i]);
    }
    forall i | 0 <= i < |cs| - 1
      ensures IsEdge(g, p[i], p[i + 1])
    {
      BuiltEdges(m, g, cm, startNode, endNode, p[i], p[i + 1]);
    }
  }

  /** Two nodes of the built graph are connected exactly when their cells are joined by a grid path. */
  lemma ReachableOnGrid(m: Maze, g: Graph, cm: HashMap, startNode: int, endNode: int, u: int, v: int)
    requires m.Valid()
    requires IsBuiltFrom(m, g, cm, startNode, endNode)
    requires 0 <= u < g.nodeCount && 0 <= v < g.nodeCount
    ensures Reachable(g, u, v) <==> GridConnected(m, NodeCoords(g, u), NodeCoords(g, v))
  {
    if Reachable(g, u, v) {
      WalkToGrid(m, g, cm, startNode, endNode, u, v);
    }
    if GridConnected(m, NodeCoords(g, u), NodeCoords(g, v)) {
      GridToWalk(m, g, cm, startNode, endNode, u, v);
    }
  }

  lemma WalkToGrid(m: Maze, g: Graph, cm: HashMap, startNode: int, endNode: int, u: int, v: int)
    requires m.Valid()
    requires IsBuiltFrom(m, g, cm, startNode, endNode)
    requires Reachable(g, u, v)
    ensures GridConnected(m, NodeCoords(g, u), NodeCoords(g, v))
  {
    var p :| WalkFromTo(g, p, u, v);
    WalkOnGrid(m, g, cm, startNode, endNode, p);
    assert GridPathFromTo(m, CellsOf(g, p), NodeCoords(g, u), NodeCoords(g, v));
  }

  lemma GridToWalk(m: Maze, g: Graph, cm: HashMap, startNode: int, endNode: int, u: int, v: int)
    requires m.Valid()
    requires IsBuiltFrom(m, g, cm, startNode, endNode)
    requires 0 <= u < g.nodeCount && 0 <= v < g.nodeCount
    requires GridConnected(m, NodeCoords(g, u), NodeCoords(g, v))
    ensures Reachable(g, u, v)
  {
    var cs :| GridPathFromTo(m, cs, NodeCoords(g, u), NodeCoords(g, v));
    GridPathWalk(m, g, cm, startNode, endNode, cs, u, v);
  }

  /** A grid path between the cells of two nodes is visited by a walk between the nodes themselves. */
  lemma GridPathWalk(m: Maze, g: Graph, cm: HashMap, startNode: int, endNode: int, cs: seq<Cell>, u: int, v: int)
    requires m.Valid()
    requires IsBuiltFrom(m, g, cm, startNode, endNode)
    requires 0 <= u < g.nodeCount && 0 <= v < g.nodeCount
    requires GridPathFromTo(m, cs, NodeCoords(g, u), NodeCoords(g, v))
    ensures WalkFromTo(g, IdsOf(m, cs), u, v) && |IdsOf(m, cs)| == |cs|
  {
    GridOnWalk(m, g, cm, startNode, endNode, cs);
    NodeCoordsInjective(m, g, cm, startNode, endNode);
    assert WalkFromTo(g, IdsOf(m, cs), u, v);
  }

  /** Distinct nodes of the built graph stand for distinct cells. */
  lemma NodeCoordsInjective(m: Maze, g: Graph, cm: HashMap, startNode: int, endNode: int)
    requires m.Valid()
    requires IsBuiltFrom(m, g, cm, startNode, endNode)
    ensures forall u, v :: 0 <= u < g.nodeCount && 0 <= v < g.nodeCount && NodeCoords(g, u) == NodeCoords(g, v) ==> u == v
  {
    CellsShape(m);
  }

  /** A shortest walk of the built graph visits a shortest grid path between its end cells. */
  lemma ShortestOnGrid(m: Maze, g: Graph, cm: HashMap, startNode: int, endNode: int, p: seq<int>, u: int, v: int)
    requires m.Valid()
    requires IsBuiltFrom(m, g, cm, startNode, endNode)
    requires IsShortestWalk(g, p, u, v)
    ensures GridPathFromTo(m, CellsOf(g, p), NodeCoords(g, u), NodeCoords(g, v))
    ensures forall cs :: GridPathFromTo(m, cs, NodeCoords(g, u), NodeCoords(g, v)) ==> |p| <= |cs|
  {
    WalkOnGrid(m, g, cm, startNode, endNode, p);
    forall cs | GridPathFromTo(m, cs, NodeCoords(g, u), NodeCoords(g, v))
      ensures |p| <= |cs|
    {
      GridPathWalk(m, g, cm, startNode, endNode, cs, u, v);
    }
  }
}
