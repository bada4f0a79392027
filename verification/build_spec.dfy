/**
 * What `buildGraph` (code.cpp lines 589-636) produces, and the states of its
 * loops. A first row-major pass makes one node per passable cell and
 * records it in the coordinate map, remembering the last 'S' and 'E' seen;
 * a second row-major pass probes, for each node, the four neighbouring
 * coordinates up, down, left, right and adds an edge of weight 1 to every
 * one the map knows. Edges are prepended, so each finished adjacency list
 * reads right, left, down, up.
 */
module BuildSpec {
  import opened Limits
  import opened Seqs
  import opened Mazes
  import opened CoordMap
  import opened Graphs

  /** Lines 616-617: the probe offsets, in probe order up, down, left, right. */
  const RowStep: seq<int> := [-1, 1, 0, 0]
  const ColStep: seq<int> := [0, 0, -1, 1]

  function Step(p: Cell, d: int): Cell
    requires 0 <= d < 4
  {
    (p.0 + RowStep[d], p.1 + ColStep[d])
  }

  /** The node id the build gives cell `p`: its position among the passable cells, or -1 for a wall or an off-grid cell. */
  function CellId(m: Maze, p: Cell): int
    requires m.Valid()
  {
    IndexOf(Cells(m), p)
  }

  /** A cell has a node id exactly when it is an open cell of the grid, and the id names it. */
  lemma CellIdMeaning(m: Maze, p: Cell)
    requires m.Valid()
    ensures CellId(m, p) == -1 <==> !IsOpenCell(m, p)
    ensures CellId(m, p) != -1 ==> 0 <= CellId(m, p) < |Cells(m)| && Cells(m)[CellId(m, p)] == p
  {
    CellsShape(m);
  }

  /** A single edge of weight 1 to node `id`, or nothing when there is no node. */
  function Link(id: int): seq<Edge> {
    if id == -1 then [] else [Edge(id, 1)]
  }

  /**
   * The adjacency list the build leaves for the node of cell `p`: edges of
   * weight 1 to the passable neighbours right, left, below, above, in that
   * order (probe directions 3, 2, 1, 0), the reverse of the probe order.
   */
  ghost function ExpectedAdj(m: Maze, p: Cell): seq<Edge>
    requires m.Valid()
  {
    Link(CellId(m, Step(p, 3))) + (Link(CellId(m, Step(p, 2)))
    + (Link(CellId(m, Step(p, 1))) + Link(CellId(m, Step(p, 0)))))
  }

  /** The adjacency list of `p` after the first `d` probes, newest edge first. */
  ghost function ProbedAdj(m: Maze, p: Cell, d: int): seq<Edge>
    requires m.Valid()
    requires 0 <= d <= 4
  {
    if d == 0 then [] else Link(CellId(m, Step(p, d - 1))) + ProbedAdj(m, p, d - 1)
  }

  /** Node `u` stands for `cells[u]`, for exactly the cells listed. */
  ghost predicate Placed(g: Graph, cells: seq<Cell>) {
    && g.Valid()
    && g.nodeCount == |cells|
    && forall u :: 0 <= u < |cells| ==> NodeCoords(g, u) == cells[u]
  }

  ghost predicate NoEdges(g: Graph) {
    g.Valid() && forall u :: 0 <= u < MaxNodes ==> g.adjList[u] == []
  }

  /** Nodes, map, start and end as the first pass leaves them once it has seen exactly `cells`. */
  ghost predicate NodesState(m: Maze, cells: seq<Cell>, g: Graph, cm: HashMap, startNode: int, endNode: int)
    requires m.Valid()
  {
    && Placed(g, cells)
    && Indexes(cm, cells)
    && NoEdges(g)
    && startNode == LastWith(m, cells, 'S')
    && endNode == LastWith(m, cells, 'E')
  }

  /** Nodes before `lo` carry their final adjacency list; the others have none yet. */
  ghost predicate Linked(m: Maze, g: Graph, lo: int)
    requires m.Valid()
  {
    && Placed(g, Cells(m))
    && 0 <= lo <= |Cells(m)|
    && (forall u {:trigger g.adjList[u]} :: 0 <= u < lo ==> g.adjList[u] == ExpectedAdj(m, Cells(m)[u]))
    && (forall u :: lo <= u < MaxNodes ==> g.adjList[u] == [])
  }

  /** The state of the probe loop (lines 624-633) for node `u` after `d` probes. */
  ghost predicate ProbeInv(m: Maze, p: Cell, u: int, d: int, g: Graph)
    requires m.Valid()
  {
    && Placed(g, Cells(m))
    && 0 <= u < |Cells(m)| && Cells(m)[u] == p && 0 <= d <= 4
    && (forall v {:trigger g.adjList[v]} :: 0 <= v < u ==> g.adjList[v] == ExpectedAdj(m, Cells(m)[v]))
    && g.adjList[u] == ProbedAdj(m, p, d)
    && (forall v :: u < v < MaxNodes ==> g.adjList[v] == [])
  }

  /**
   * What `buildGraph` produces: node u is the u-th passable cell in
   * row-major order, its adjacency list is the expected one, the map
   * answers node ids, and start and end are the last 'S' and 'E' cells.
   */
  ghost predicate IsBuiltFrom(m: Maze, g: Graph, cm: HashMap, startNode: int, endNode: int)
    requires m.Valid()
  {
    && Linked(m, g, |Cells(m)|)
    && Indexes(cm, Cells(m))
    && startNode == LastWith(m, Cells(m), 'S')
    && endNode == LastWith(m, Cells(m), 'E')
  }

}
