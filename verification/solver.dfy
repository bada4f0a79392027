/**
 * `MazeSolver` and the algorithm menu of `main` (code.cpp lines 580-802
 * and 867-889): the constructor builds the graph once, and each of the
 * three searches then runs from the start node to the end node. Read back
 * on the grid, a search succeeds exactly when a path of side-by-side open
 * cells joins the start cell to the end cell, and the path it reports
 * (cells as r * MAX_COLS + c) is such a path; breadth-first search reports
 * one of the fewest cells.
 */
module MazeSolving {
  import opened Mazes
  import opened Graphs
  import opened Walks
  import opened CoordMap
  import opened BuildSpec
  import opened BuiltGraphs
  import opened PathReconstruction
  import GraphBuild
  import BreadthFirst
  import DepthFirst
  import RecursiveDepthFirst

  /** Menu choices 1, 2 and 3. */
  datatype Algorithm = Bfs | DfsStack | DfsRecursive

  /** The maze has an 'S' cell and an 'E' cell, so the build sets both end nodes. */
  ghost predicate HasEnds(m: Maze)
    requires m.Valid()
  {
    LastWith(m, Cells(m), 'S') != -1 && LastWith(m, Cells(m), 'E') != -1
  }

  /** The cell the build takes as the start: the last 'S' in row-major order. */
  ghost function StartCell(m: Maze): Cell
    requires m.Valid() && HasEnds(m)
  {
    Cells(m)[LastWith(m, Cells(m), 'S')]
  }

  /** The cell the build takes as the end: the last 'E' in row-major order. */
  ghost function EndCell(m: Maze): Cell
    requires m.Valid() && HasEnds(m)
  {
    Cells(m)[LastWith(m, Cells(m), 'E')]
  }

  /** A cell path in the reported form, each cell linearised as r * MAX_COLS + c. */
  function EncodeCells(cs: seq<Cell>): (path: seq<int>)
    ensures |path| == |cs|
  {
    seq(|cs|, i requires 0 <= i < |cs| => Encode(cs[i]))
  }

  /**
   * Builds the graph of `m` and runs the chosen search from the start cell
   * to the end cell.
   */
  method Solve(m: Maze, alg: Algorithm) returns (found: bool, path: seq<int>, nodesVisited: int)
    requires m.Valid()
    requires HasEnds(m)
    ensures found <==> GridConnected(m, StartCell(m), EndCell(m))
    ensures !found ==> path == []
    ensures found ==> exists cs :: GridPathFromTo(m, cs, StartCell(m), EndCell(m)) && path == EncodeCells(cs)
    ensures found && alg == Bfs ==> forall cs :: GridPathFromTo(m, cs, StartCell(m), EndCell(m)) ==> |path| <= |cs|
    ensures 1 <= nodesVisited <= |Cells(m)|
  {
    var g, cm, startNode, endNode := GraphBuild.BuildGraph(m);
    BuiltWellFormed(m, g, cm, startNode, endNode);
    EndsPlaced(m, g, cm, startNode, endNode);
    found, path, nodesVisited := Search(g, startNode, endNode, alg);
    ReachableOnGrid(m, g, cm, startNode, endNode, startNode, endNode);
    if found {
      if alg == Bfs {
        ghost var p :| IsShortestWalk(g, p, startNode, endNode) && path == EncodePath(g, p);
        ShortestReport(m, g, cm, startNode, endNode, p);
      } else {
        ghost var p :| WalkFromTo(g, p, startNode, endNode) && path == EncodePath(g, p);
        WalkReport(m, g, cm, startNode, endNode, p);
      }
    }
  }

  /** Runs the chosen search on a graph whose edges all lead to nodes. */
  method Search(g: Graph, startNode: int, endNode: int, alg: Algorithm) returns (found: bool, path: seq<int>, nodesVisited: int)
    requires WellFormed(g)
    requires 0 <= startNode < g.nodeCount && 0 <= endNode < g.nodeCount
    ensures found <==> Reachable(g, startNode, endNode)
    ensures !found ==> path == []
    ensures found ==> exists p :: WalkFromTo(g, p, startNode, endNode) && path == EncodePath(g, p)
    ensures found && alg == Bfs ==> exists p :: IsShortestWalk(g, p, startNode, endNode) && path == EncodePath(g, p)
    ensures 1 <= nodesVisited <= g.nodeCount
  {
    match alg
    case Bfs =>
      found, path, nodesVisited := BreadthFirst.SolveBFS(g, startNode, endNode);
    case DfsStack =>
      found, path, nodesVisited := DepthFirst.SolveDFSStack(g, startNode, endNode);
      ReachSetBound(g, startNode);
    case DfsRecursive =>
      found, path, nodesVisited := RecursiveDepthFirst.SolveDFSRecursive(g, startNode, endNode);
      ReachSetBound(g, startNode);
  }

  /** The build gives the start and end cells nodes, and nodes stand for the open cells. */
  lemma EndsPlaced(m: Maze, g: Graph, cm: HashMap, startNode: int, endNode: int)
    requires m.Valid() && HasEnds(m)
    requires IsBuiltFrom(m, g, cm, startNode, endNode)
    ensures g.nodeCount == |Cells(m)|
    ensures 0 <= startNode < g.nodeCount && NodeCoords(g, startNode) == StartCell(m)
    ensures 0 <= endNode < g.nodeCount && NodeCoords(g, endNode) == EndCell(m)
  {
  }

  /** A walk from the start node to the end node is reported as a grid path from the start cell to the end cell. */
  lemma WalkReport(m: Maze, g: Graph, cm: HashMap, startNode: int, endNode: int, p: seq<int>)
    requires m.Valid() && HasEnds(m)
    requires IsBuiltFrom(m, g, cm, startNode, endNode)
    requires WalkFromTo(g, p, startNode, endNode)
    ensures GridPathFromTo(m, CellsOf(g, p), StartCell(m), EndCell(m))
    ensures EncodePath(g, p) == EncodeCells(CellsOf(g, p))
  {
    WalkOnGrid(m, g, cm, startNode, endNode, p);
  }

  /** A shortest walk from the start node to the end node is reported as a grid path no longer than any other. */
  lemma ShortestReport(m: Maze, g: Graph, cm: HashMap, startNode: int, endNode: int, p: seq<int>)
    requires m.Valid() && HasEnds(m)
    requires IsBuiltFrom(m, g, cm, startNode, endNode)
    requires IsShortestWalk(g, p, startNode, endNode)
    ensures GridPathFromTo(m, CellsOf(g, p), StartCell(m), EndCell(m))
    ensures EncodePath(g, p) == EncodeCells(CellsOf(g, p))
    ensures forall cs :: GridPathFromTo(m, cs, StartCell(m), EndCell(m)) ==> |p| <= |cs|
  {
    WalkReport(m, g, cm, startNode, endNode, p);
    ShortestOnGrid(m, g, cm, startNode, endNode, p, startNode, endNode);
  }
}
