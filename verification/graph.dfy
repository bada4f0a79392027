/**
 * The adjacency-list graph of code.cpp lines 350-415. Node ids are handed
 * out densely from 0; every node records the grid cell it came from; each
 * node's outgoing edges form a chain with the newest edge first.
 */
module Graphs {
  import opened Limits

  datatype Edge = Edge(dest: int, weight: int)

  /**
   * `adjList`, `nodeRows` and `nodeCols` are the source's fixed arrays of
   * MaxNodes slots; only slots below `nodeCount` are meaningful.
   */
  datatype Graph = Graph(adjList: seq<seq<Edge>>, nodeRows: seq<int>, nodeCols: seq<int>, nodeCount: int) {
    ghost predicate Valid() {
      && |adjList| == MaxNodes
      && |nodeRows| == MaxNodes
      && |nodeCols| == MaxNodes
      && 0 <= nodeCount <= MaxNodes
    }
  }

  /** The destinations of an edge chain, in chain order. */
  function Dests(es: seq<Edge>): (ds: seq<int>)
    ensures |ds| == |es|
    ensures forall i :: 0 <= i < |es| ==> ds[i] == es[i].dest
  {
    seq(|es|, i requires 0 <= i < |es| => es[i].dest)
  }

  /** A graph with no nodes and empty edge chains; coordinate slots are zero here. */
  function NewGraph(): (g: Graph)
    ensures g.Valid() && g.nodeCount == 0
    ensures forall u :: 0 <= u < MaxNodes ==> g.adjList[u] == []
  {
    Graph(seq(MaxNodes, _ => []), seq(MaxNodes, _ => 0), seq(MaxNodes, _ => 0), 0)
  }

  /**
   * Adds a node for cell (row, col) and returns its id, the old node count.
   * The source never checks the capacity; callers must stay below MaxNodes.
   */
  function AddNode(g: Graph, row: int, col: int): (res: (Graph, int))
    requires g.Valid()
    requires g.nodeCount < MaxNodes
    ensures res.0.Valid()
    ensures res.1 == g.nodeCount && res.0.nodeCount == g.nodeCount + 1
    ensures NodeCoords(res.0, res.1) == (row, col)
    ensures forall u :: 0 <= u < MaxNodes && u != res.1 ==> NodeCoords(res.0, u) == NodeCoords(g, u)
    ensures res.0.adjList == g.adjList
  {
    var id := g.nodeCount;
    (g.(nodeRows := g.nodeRows[id := row], nodeCols := g.nodeCols[id := col], nodeCount := id + 1), id)
  }

  /**
   * Prepends an edge to the chain of `src`. No duplicate or self-edge check
   * is made; every other chain is untouched.
   */
  function AddEdge(g: Graph, src: int, dest: int, weight: int): (g': Graph)
    requires g.Valid()
    requires 0 <= src < MaxNodes
    ensures g'.Valid()
    ensures g'.adjList[src] == [Edge(dest, weight)] + g.adjList[src]
    ensures forall u :: 0 <= u < MaxNodes && u != src ==> g'.adjList[u] == g.adjList[u]
    ensures g'.nodeCount == g.nodeCount
    ensures forall u :: 0 <= u < MaxNodes ==> NodeCoords(g', u) == NodeCoords(g, u)
  {
    g.(adjList := g.adjList[src := [Edge(dest, weight)] + g.adjList[src]])
  }

  function GetAdjList(g: Graph, u: int): seq<Edge>
    requires g.Valid()
    requires 0 <= u < MaxNodes
  {
    g.adjList[u]
  }

  function NodeCoords(g: Graph, u: int): (int, int)
    requires g.Valid()
    requires 0 <= u < MaxNodes
  {
    (g.nodeRows[u], g.nodeCols[u])
  }

  /** There is an edge u -> v between two existing nodes. */
  ghost predicate IsEdge(g: Graph, u: int, v: int)
    requires g.Valid()
  {
    0 <= u < g.nodeCount && 0 <= v < g.nodeCount && v in Dests(g.adjList[u])
  }

  /** Every edge of an existing node leads to an existing node. */
  ghost predicate WellFormed(g: Graph) {
    && g.Valid()
    && forall u, i :: 0 <= u < g.nodeCount && 0 <= i < |g.adjList[u]| ==> 0 <= g.adjList[u][i].dest < g.nodeCount
  }

  /** AddEdge adds exactly the edge src -> dest to the edge relation. */
  lemma AddEdgeRelation(g: Graph, src: int, dest: int, weight: int, u: int, v: int)
    requires g.Valid()
    requires 0 <= src < g.nodeCount && 0 <= dest < g.nodeCount
    ensures IsEdge(AddEdge(g, src, dest, weight), u, v) <==> IsEdge(g, u, v) || (u == src && v == dest)
  {
    var g' := AddEdge(g, src, dest, weight);
    if 0 <= u < g.nodeCount && u == src {
      assert Dests(g'.adjList[u]) == [dest] + Dests(g.adjList[u]);
    }
  }
}
