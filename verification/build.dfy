/**
 * `buildGraph` (code.cpp lines 589-636): the two row-major passes and the
 * proofs that they reach the state `BuildSpec` describes.
 *
 * Each pass is a loop over the grid whose state, on reaching cell (i, j),
 * equals a fold over the first `ScanCount(m, i, j)` passable cells:
 * `PlaceFirst` for the first pass, `LinkAll` for the second. The
 * properties are proved once about the folds, by induction on the count.
 */
module GraphBuild {
  import opened Limits
  import opened Seqs
  import opened Mazes
  import opened CoordMap
  import opened Graphs
  import opened BuildSpec

  // ---------------------------------------------------------------- the row-major scan

  /** The scan before (i, j + 1) is the scan before (i, j), plus (i, j) when it is passable. */
  lemma CellsBeforeStep(m: Maze, i: int, j: int, j': int)
    requires m.Valid()
    requires 0 <= i < m.rows && 0 <= j < m.cols && j' == j + 1
    ensures CellsBefore(m, i, j') == CellsBefore(m, i, j) + (if Passable(m.GetCell(i, j)) then [(i, j)] else [])
  {
  }

  /** The scan before the end of row i is the scan before the start of row i + 1. */
  lemma CellsBeforeRow(m: Maze, i: int)
    requires m.Valid()
    requires 0 <= i < m.rows
    ensures CellsBefore(m, i, m.cols) == CellsBefore(m, i + 1, 0)
  {
  }

  /** The scan never lists more cells than there are node slots, and a passable cell still finds one. */
  lemma ScanRoom(m: Maze, i: int, j: int)
    requires m.Valid()
    requires 0 <= i <= m.rows && 0 <= j <= m.cols && (i == m.rows ==> j == 0)
    ensures |CellsBefore(m, i, j)| <= |Cells(m)| <= MaxNodes
    ensures i < m.rows && j < m.cols && Passable(m.GetCell(i, j)) ==> |CellsBefore(m, i, j)| < |Cells(m)|
  {
    CellsBeforePrefix(m, i, j);
    CellsArea(m);
    if i < m.rows && j < m.cols && Passable(m.GetCell(i, j)) {
      CellPosition(m, i, j);
    }
  }

  /** How many passable cells a row-major scan meets before reaching (i, j). */
  function ScanCount(m: Maze, i: int, j: int): (n: nat)
    requires m.Valid()
    requires 0 <= i <= m.rows && 0 <= j <= m.cols && (i == m.rows ==> j == 0)
    decreases i, j
  {
    if j > 0 then ScanCount(m, i, j - 1) + (if Passable(m.GetCell(i, j - 1)) then 1 else 0)
    else if i > 0 then ScanCount(m, i - 1, m.cols)
    else 0
  }

  /** The count is the length of the list of cells the scan has met. */
  lemma {:induction false} ScanCountLength(m: Maze, i: int, j: int)
    requires m.Valid()
    requires 0 <= i <= m.rows && 0 <= j <= m.cols && (i == m.rows ==> j == 0)
    ensures ScanCount(m, i, j) == |CellsBefore(m, i, j)|
    decreases i, j
  {
    if j > 0 {
      ScanCountLength(m, i, j - 1);
      CellsBeforeStep(m, i, j - 1, j);
    } else if i > 0 {
      ScanCountLength(m, i - 1, m.cols);
      CellsBeforeRow(m, i - 1);
    }
  }

  /** The whole scan meets every passable cell. */
  lemma ScanAll(m: Maze)
    requires m.Valid()
    ensures ScanCount(m, m.rows, 0) == |Cells(m)|
  {
    ScanCountLength(m, m.rows, 0);
  }

  /** In a distinct sequence, the prefix of length k is distinct and its last element does not occur before it. */
  lemma DistinctPrefixLast<T>(s: seq<T>, k: int)
    requires Distinct(s) && 0 < k <= |s|
    ensures s[k - 1] !in s[..k - 1] && Distinct(s[..k - 1]) && Distinct(s[..k])
  {
  }

  // ---------------------------------------------------------------- nodes

  /** The values the build threads through both passes: the graph, the coordinate map, start and end. */
  datatype BuildState = BuildState(g: Graph, cm: HashMap, startNode: int, endNode: int)

  /** Before the first pass: an empty graph and map; start and end not yet seen. */
  function InitialState(): (st: BuildState)
    ensures st.g.Valid() && st.cm.Valid() && st.g.nodeCount == 0
  {
    BuildState(NewGraph(), NewHashMap(), -1, -1)
  }

  /**
   * Lines 605-610 for a passable cell p: it gets the next node id, the map
   * records it, and an 'S' or 'E' cell becomes the start or end node.
   */
  function AddCellNode(m: Maze, p: Cell, st: BuildState): (st': BuildState)
    requires m.Valid() && st.g.Valid() && st.cm.Valid() && st.g.nodeCount < MaxNodes
    ensures st'.g.Valid() && st'.cm.Valid() && st'.g.nodeCount == st.g.nodeCount + 1
  {
    var cell := m.GetCell(p.0, p.1);
    var (g, nodeId) := AddNode(st.g, p.0, p.1);
    BuildState(g, Insert(st.cm, p.0, p.1, nodeId),
               if cell == 'S' then nodeId else st.startNode,
               if cell == 'E' then nodeId else st.endNode)
  }

  /** Lines 602-611 for cell (i, j): only a passable cell (' ', 'S' or 'E') becomes a node. */
  function PlaceCell(m: Maze, i: int, j: int, st: BuildState): (st': BuildState)
    requires m.Valid() && st.g.Valid() && st.cm.Valid()
    requires Passable(m.GetCell(i, j)) ==> st.g.nodeCount < MaxNodes
    ensures st'.g.Valid() && st'.cm.Valid()
    ensures st'.g.nodeCount == st.g.nodeCount + if Passable(m.GetCell(i, j)) then 1 else 0
  {
    if Passable(m.GetCell(i, j)) then AddCellNode(m, (i, j), st) else st
  }

  /** The state after placing the first k of `cells`, in order, starting from the initial state. */
  function PlaceFirst(m: Maze, cells: seq<Cell>, k: int): (st: BuildState)
    requires m.Valid() && 0 <= k <= |cells| <= MaxNodes
    ensures st.g.Valid() && st.cm.Valid() && st.g.nodeCount == k
    decreases k
  {
    if k == 0 then InitialState() else AddCellNode(m, cells[k - 1], PlaceFirst(m, cells, k - 1))
  }

  lemma PlacedStep(g: Graph, cells: seq<Cell>, row: int, col: int)
    requires Placed(g, cells) && g.nodeCount < MaxNodes
    ensures Placed(AddNode(g, row, col).0, cells + [(row, col)])
  {
  }

  lemma IndexedStep(cm: HashMap, cells: seq<Cell>, row: int, col: int)
    requires Indexes(cm, cells) && (row, col) !in cells
    ensures Indexes(Insert(cm, row, col, |cells|), cells + [(row, col)])
  {
    forall r, c
      ensures Get(Insert(cm, row, col, |cells|), r, c) == IndexOf(cells + [(row, col)], (r, c))
    {
      IndexOfAppend(cells, (row, col), (r, c));
    }
  }

  lemma LastWithStep(m: Maze, cells: seq<Cell>, p: Cell, ch: char)
    requires m.Valid()
    ensures LastWith(m, cells + [p], ch) == if m.GetCell(p.0, p.1) == ch then |cells| else LastWith(m, cells, ch)
  {
    assert (cells + [p])[..|cells|] == cells;
  }

  /** Adding the node of a new cell p keeps `NodesState`, now for `cells + [p]`. */
  lemma AddCellNodeState(m: Maze, cells: seq<Cell>, st: BuildState, p: Cell)
    requires m.Valid()
    requires NodesState(m, cells, st.g, st.cm, st.startNode, st.endNode)
    requires p !in cells && |cells| < MaxNodes
    ensures var st' := AddCellNode(m, p, st);
            NodesState(m, cells + [p], st'.g, st'.cm, st'.startNode, st'.endNode)
  {
    PlacedStep(st.g, cells, p.0, p.1);
    IndexedStep(st.cm, cells, p.0, p.1);
    LastWithStep(m, cells, p, 'S');
    LastWithStep(m, cells, p, 'E');
  }

  /** Placing the k-th of a list of cells, when it is not among the first k - 1, extends `NodesState` from the first k - 1 cells to the first k. */
  lemma AddPrefixNode(m: Maze, cells: seq<Cell>, k: int, st: BuildState)
    requires m.Valid() && 0 < k <= |cells| && k <= MaxNodes && cells[k - 1] !in cells[..k - 1]
    requires NodesState(m, cells[..k - 1], st.g, st.cm, st.startNode, st.endNode)
    ensures var st' := AddCellNode(m, cells[k - 1], st);
            NodesState(m, cells[..k], st'.g, st'.cm, st'.startNode, st'.endNode)
  {
    AddCellNodeState(m, cells[..k - 1], st, cells[k - 1]);
    assert cells[..k - 1] + [cells[k - 1]] == cells[..k];
  }

  /**
   * Placing the first k of a list of distinct cells one after the other
   * gives node u to the u-th cell, a map that answers exactly their ids, no
   * edges, and start and end at the last 'S' and 'E' among them.
   */
  lemma {:induction false} PlaceFirstState(m: Maze, cells: seq<Cell>, k: int)
    requires m.Valid() && Distinct(cells) && 0 <= k <= |cells| <= MaxNodes
    ensures var st := PlaceFirst(m, cells, k);
            NodesState(m, cells[..k], st.g, st.cm, st.startNode, st.endNode)
    decreases k
  {
    if k == 0 {
      var st := InitialState();
      assert Indexes(st.cm, []);
    } else {
      PlaceFirstState(m, cells, k - 1);
      DistinctPrefixLast(cells, k);
      AddPrefixNode(m, cells, k, PlaceFirst(m, cells, k - 1));
    }
  }

  lemma PlaceFirstNext(m: Maze, cells: seq<Cell>, k: int)
    requires m.Valid() && 0 <= k < |cells| <= MaxNodes
    ensures PlaceFirst(m, cells, k + 1) == AddCellNode(m, cells[k], PlaceFirst(m, cells, k))
  {
  }

  /** One step of the first pass turns the state after the cells before (i, j) into the state after the cells before (i, j + 1). */
  lemma PlaceCellStep(m: Maze, i: int, j: int)
    requires m.Valid() && 0 <= i < m.rows && 0 <= j < m.cols
    ensures ScanCount(m, i, j) <= |Cells(m)| <= MaxNodes && ScanCount(m, i, j + 1) <= |Cells(m)|
    ensures Passable(m.GetCell(i, j)) ==> ScanCount(m, i, j) < |Cells(m)|
    ensures PlaceCell(m, i, j, PlaceFirst(m, Cells(m), ScanCount(m, i, j))) == PlaceFirst(m, Cells(m), ScanCount(m, i, j + 1))
  {
    ScanRoom(m, i, j);
    ScanRoom(m, i, j + 1);
    ScanCountLength(m, i, j);
    var k := ScanCount(m, i, j);
    if Passable(m.GetCell(i, j)) {
      CellPosition(m, i, j);
      PlaceFirstNext(m, Cells(m), k);
    }
  }

  /**
   * Lines 598-613. Afterwards node u is the u-th passable cell in row-major
   * order, the map answers each cell's node id (-1 for every other
   * coordinate), no edge exists yet, and start and end are the last 'S' and
   * 'E' cells (-1 when there is none).
   */
  method PlaceNodes(m: Maze) returns (st: BuildState)
    requires m.Valid()
    ensures NodesState(m, Cells(m), st.g, st.cm, st.startNode, st.endNode)
  {
    st := InitialState();
    var i := 0;
    CellsArea(m);
    while i < m.rows
      invariant 0 <= i <= m.rows && PlacedUpTo(m, i, 0, st)
    {
      st := PlaceRow(m, i, st);
      i := i + 1;
    }
    ScanAll(m);
    CellsShape(m);
    PlaceFirstState(m, Cells(m), |Cells(m)|);
    assert Cells(m)[..|Cells(m)|] == Cells(m);
  }

  /** `st` is the state of the first pass once the scan has reached (i, j). */
  ghost predicate PlacedUpTo(m: Maze, i: int, j: int, st: BuildState)
    requires m.Valid() && 0 <= i <= m.rows && 0 <= j <= m.cols && (i == m.rows ==> j == 0)
  {
    ScanCount(m, i, j) <= |Cells(m)| <= MaxNodes && st == PlaceFirst(m, Cells(m), ScanCount(m, i, j))
  }

  /** Lines 600-612: the first pass over row i. */
  method PlaceRow(m: Maze, i: int, st1: BuildState) returns (st: BuildState)
    requires m.Valid() && 0 <= i < m.rows
    requires PlacedUpTo(m, i, 0, st1)
    ensures PlacedUpTo(m, i + 1, 0, st)
  {
    st := st1;
    var j := 0;
    while j < m.cols
      invariant 0 <= j <= m.cols && PlacedUpTo(m, i, j, st)
    {
      st := PlaceNode(m, i, j, st);
      j := j + 1;
    }
  }

  /** Lines 602-611: cell (i, j) of the first pass. */
  method PlaceNode(m: Maze, i: int, j: int, st1: BuildState) returns (st: BuildState)
    requires m.Valid() && 0 <= i < m.rows && 0 <= j < m.cols
    requires PlacedUpTo(m, i, j, st1)
    ensures PlacedUpTo(m, i, j + 1, st)
  {
    PlaceCellStep(m, i, j);
    st := PlaceCell(m, i, j, st1);
  }

  // ---------------------------------------------------------------- edges

  /** The id the map gives cell (i, j) is the number of passable cells before it, or -1 for a wall. */
  lemma CellIdAt(m: Maze, i: int, j: int)
    requires m.Valid()
    requires 0 <= i < m.rows && 0 <= j < m.cols
    ensures CellId(m, (i, j)) == if Passable(m.GetCell(i, j)) then |CellsBefore(m, i, j)| else -1
  {
    if Passable(m.GetCell(i, j)) {
      CellsShape(m);
      CellPosition(m, i, j);
      IndexOfDistinct(Cells(m), |CellsBefore(m, i, j)|);
    } else {
      CellIdMeaning(m, (i, j));
    }
  }

  lemma MapAnswersCellId(m: Maze, cm: HashMap, p: Cell)
    requires m.Valid()
    requires Indexes(cm, Cells(m))
    ensures Get(cm, p.0, p.1) == CellId(m, p)
  {
  }

  /**
   * Lines 625-632 for direction d: probe the neighbour of cell p in that
   * direction and, when the map knows it, prepend an edge of weight 1 from
   * node u to it.
   */
  function Probe(p: Cell, u: int, d: int, g: Graph, cm: HashMap): (g': Graph)
    requires g.Valid() && cm.Valid() && 0 <= u < MaxNodes && 0 <= d < 4
    ensures g'.Valid() && g'.nodeCount == g.nodeCount
  {
    var q := Step(p, d);
    var neighborId := Get(cm, q.0, q.1);
    if neighborId != -1 then AddEdge(g, u, neighborId, 1) else g
  }

  /** The graph after the first d probes around cell p (lines 624-633). */
  function Probes(p: Cell, u: int, d: int, g: Graph, cm: HashMap): (g': Graph)
    requires g.Valid() && cm.Valid() && 0 <= u < MaxNodes && 0 <= d <= 4
    ensures g'.Valid() && g'.nodeCount == g.nodeCount
  {
    if d == 0 then g else Probe(p, u, d - 1, Probes(p, u, d - 1, g, cm), cm)
  }

  /** Lines 621-633 for cell (i, j): a cell the map does not know is skipped, a node gets its four probes. */
  function LinkCell(m: Maze, cm: HashMap, i: int, j: int, g: Graph): (g': Graph)
    requires m.Valid() && Indexes(cm, Cells(m)) && g.Valid()
    ensures g'.Valid() && g'.nodeCount == g.nodeCount
  {
    var nodeId := Get(cm, i, j);
    MapAnswersCellId(m, cm, (i, j));
    CellsArea(m);
    if nodeId == -1 then g else Probes((i, j), nodeId, 4, g, cm)
  }

  /** The graph after the nodes 0 .. k-1, in order, have had their probes. */
  function LinkAll(m: Maze, cm: HashMap, g0: Graph, k: int): (g: Graph)
    requires m.Valid() && Indexes(cm, Cells(m)) && g0.Valid() && 0 <= k <= |Cells(m)|
    ensures g.Valid() && g.nodeCount == g0.nodeCount
    decreases k
  {
    CellsArea(m);
    if k == 0 then g0 else Probes(Cells(m)[k - 1], k - 1, 4, LinkAll(m, cm, g0, k - 1), cm)
  }

  lemma PlacedKept(g: Graph, cells: seq<Cell>, u: int, id: int)
    requires Placed(g, cells) && 0 <= u < MaxNodes
    ensures Placed(AddEdge(g, u, id, 1), cells)
  {
  }

  /** Lines 625-632: probing direction d adds an edge exactly when the neighbour is a node. */
  lemma ProbeLink(m: Maze, p: Cell, u: int, d: int, g: Graph, id: int)
    requires m.Valid()
    requires ProbeInv(m, p, u, d, g) && d < 4
    requires id == CellId(m, Step(p, d)) && id != -1
    ensures ProbeInv(m, p, u, d + 1, AddEdge(g, u, id, 1))
  {
    var g' := AddEdge(g, u, id, 1);
    assert g'.adjList[u] == Link(id) + g.adjList[u];
    PlacedKept(g, Cells(m), u, id);
  }

  lemma ProbeMiss(m: Maze, p: Cell, u: int, d: int, g: Graph)
    requires m.Valid()
    requires ProbeInv(m, p, u, d, g) && d < 4
    requires CellId(m, Step(p, d)) == -1
    ensures ProbeInv(m, p, u, d + 1, g)
  {
  }

  /** The probes around the node u of cell p build its adjacency list and touch no other. */
  lemma {:induction false} ProbesInv(m: Maze, cm: HashMap, p: Cell, u: int, d: int, g0: Graph)
    requires m.Valid() && Indexes(cm, Cells(m))
    requires ProbeInv(m, p, u, 0, g0) && 0 <= d <= 4
    ensures ProbeInv(m, p, u, d, Probes(p, u, d, g0, cm))
    decreases d
  {
    if d > 0 {
      ProbesInv(m, cm, p, u, d - 1, g0);
      var g := Probes(p, u, d - 1, g0, cm);
      var q := Step(p, d - 1);
      MapAnswersCellId(m, cm, q);
      if Get(cm, q.0, q.1) != -1 {
        ProbeLink(m, p, u, d - 1, g, Get(cm, q.0, q.1));
      } else {
        ProbeMiss(m, p, u, d - 1, g);
      }
    }
  }

  /** After all four probes the list reads right, left, down, up: the reverse of the probe order. */
  lemma ProbedAll(m: Maze, p: Cell)
    requires m.Valid()
    ensures ProbedAdj(m, p, 4) == ExpectedAdj(m, p)
  {
    var up, down := Link(CellId(m, Step(p, 0))), Link(CellId(m, Step(p, 1)));
    var left, right := Link(CellId(m, Step(p, 2))), Link(CellId(m, Step(p, 3)));
    assert ProbedAdj(m, p, 0) == [];
    assert up + [] == up;
    assert ProbedAdj(m, p, 1) == up;
    assert ProbedAdj(m, p, 2) == down + up;
    assert ProbedAdj(m, p, 3) == left + (down + up);
    assert Step(p, 0) == (p.0 - 1, p.1) && Step(p, 1) == (p.0 + 1, p.1);
    assert Step(p, 2) == (p.0, p.1 - 1) && Step(p, 3) == (p.0, p.1 + 1);
  }

  /** Node u is next in line: the nodes before it are linked and it has no edges yet. */
  lemma ProbeStart(m: Maze, u: int, g: Graph)
    requires m.Valid()
    requires Linked(m, g, u) && u < |Cells(m)|
    ensures ProbeInv(m, Cells(m)[u], u, 0, g)
  {
  }

  /** Once node u has had its four probes, the nodes up to and including u are linked. */
  lemma LinkedGrow(m: Maze, p: Cell, u: int, g: Graph)
    requires m.Valid()
    requires ProbeInv(m, p, u, 4, g) && ProbedAdj(m, p, 4) == ExpectedAdj(m, p)
    ensures Linked(m, g, u + 1)
  {
    assert g.adjList[u] == ExpectedAdj(m, Cells(m)[u]);
  }

  /**
   * Starting from the placed nodes with no edges, after the probes of nodes
   * 0 .. k-1 exactly those nodes carry their expected adjacency lists.
   */
  lemma {:induction false} LinkAllLinked(m: Maze, cm: HashMap, g0: Graph, k: int)
    requires m.Valid()
    requires Placed(g0, Cells(m)) && Indexes(cm, Cells(m)) && NoEdges(g0)
    requires 0 <= k <= |Cells(m)|
    ensures Linked(m, LinkAll(m, cm, g0, k), k)
    decreases k
  {
    if k > 0 {
      var g, p := LinkAll(m, cm, g0, k - 1), Cells(m)[k - 1];
      LinkAllLinked(m, cm, g0, k - 1);
      ProbeStart(m, k - 1, g);
      ProbesInv(m, cm, p, k - 1, 4, g);
      ProbedAll(m, p);
      LinkedGrow(m, p, k - 1, LinkAll(m, cm, g0, k));
    }
  }

  /** Lines 621-633 for cell (i, j): a wall gets no probes, a passable cell gets the four probes of its node. */
  lemma LinkCellAt(m: Maze, cm: HashMap, i: int, j: int, g: Graph)
    requires m.Valid() && Indexes(cm, Cells(m)) && g.Valid()
    requires 0 <= i < m.rows && 0 <= j < m.cols
    ensures Passable(m.GetCell(i, j)) ==> ScanCount(m, i, j) < |Cells(m)| <= MaxNodes
    ensures LinkCell(m, cm, i, j, g) == if Passable(m.GetCell(i, j)) then Probes((i, j), ScanCount(m, i, j), 4, g, cm) else g
  {
    ScanRoom(m, i, j);
    ScanCountLength(m, i, j);
    MapAnswersCellId(m, cm, (i, j));
    CellIdAt(m, i, j);
  }

  lemma LinkAllNext(m: Maze, cm: HashMap, g0: Graph, k: int)
    requires m.Valid() && Indexes(cm, Cells(m)) && g0.Valid() && 0 <= k < |Cells(m)|
    ensures |Cells(m)| <= MaxNodes
    ensures LinkAll(m, cm, g0, k + 1) == Probes(Cells(m)[k], k, 4, LinkAll(m, cm, g0, k), cm)
  {
    CellsArea(m);
  }

  /** One step of the second pass turns the graph after the nodes before (i, j) into the graph after the nodes before (i, j + 1). */
  lemma LinkCellStep(m: Maze, cm: HashMap, g0: Graph, i: int, j: int)
    requires m.Valid() && Indexes(cm, Cells(m)) && g0.Valid()
    requires 0 <= i < m.rows && 0 <= j < m.cols
    ensures ScanCount(m, i, j) <= |Cells(m)| && ScanCount(m, i, j + 1) <= |Cells(m)|
    ensures LinkCell(m, cm, i, j, LinkAll(m, cm, g0, ScanCount(m, i, j)))
         == LinkAll(m, cm, g0, ScanCount(m, i, j + 1))
  {
    ScanRoom(m, i, j);
    ScanRoom(m, i, j + 1);
    ScanCountLength(m, i, j);
    ScanCountLength(m, i, j + 1);
    var k := ScanCount(m, i, j);
    LinkCellAt(m, cm, i, j, LinkAll(m, cm, g0, k));
    if Passable(m.GetCell(i, j)) {
      CellPosition(m, i, j);
      LinkAllNext(m, cm, g0, k);
    }
  }

  /**
   * Lines 619-635. Starting from the placed nodes with no edges, every node
   * ends up with exactly the expected adjacency list.
   */
  method LinkNodes(m: Maze, g0: Graph, cm: HashMap) returns (g: Graph)
    requires m.Valid()
    requires Placed(g0, Cells(m)) && Indexes(cm, Cells(m)) && NoEdges(g0)
    ensures Linked(m, g, |Cells(m)|)
  {
    g := g0;
    var i := 0;
    while i < m.rows
      invariant 0 <= i <= m.rows && ScanCount(m, i, 0) <= |Cells(m)|
      invariant g == LinkAll(m, cm, g0, ScanCount(m, i, 0))
    {
      g := LinkRow(m, cm, g0, i, g);
      i := i + 1;
    }
    ScanAll(m);
    LinkAllLinked(m, cm, g0, |Cells(m)|);
  }

  /** Lines 620-634: the pass over row i. */
  method LinkRow(m: Maze, cm: HashMap, g0: Graph, i: int, g1: Graph) returns (g: Graph)
    requires m.Valid() && Indexes(cm, Cells(m)) && g0.Valid() && 0 <= i < m.rows
    requires ScanCount(m, i, 0) <= |Cells(m)| && g1 == LinkAll(m, cm, g0, ScanCount(m, i, 0))
    ensures ScanCount(m, i + 1, 0) <= |Cells(m)| && g == LinkAll(m, cm, g0, ScanCount(m, i + 1, 0))
  {
    g := g1;
    var j := 0;
    while j < m.cols
      invariant 0 <= j <= m.cols && ScanCount(m, i, j) <= |Cells(m)|
      invariant g == LinkAll(m, cm, g0, ScanCount(m, i, j))
    {
      g := LinkStep(m, cm, g0, i, j, g);
      j := j + 1;
    }
  }

  /** Lines 621-633: cell (i, j) of the second pass. */
  method LinkStep(m: Maze, cm: HashMap, g0: Graph, i: int, j: int, g1: Graph) returns (g: Graph)
    requires m.Valid() && Indexes(cm, Cells(m)) && g0.Valid() && 0 <= i < m.rows && 0 <= j < m.cols
    requires ScanCount(m, i, j) <= |Cells(m)| && g1 == LinkAll(m, cm, g0, ScanCount(m, i, j))
    ensures ScanCount(m, i, j + 1) <= |Cells(m)| && g == LinkAll(m, cm, g0, ScanCount(m, i, j + 1))
  {
    LinkCellStep(m, cm, g0, i, j);
    g := LinkNode(m, cm, i, j, g1);
  }

  /** Lines 621-633: a cell the map does not know is skipped; a node gets its four probes. */
  method LinkNode(m: Maze, cm: HashMap, i: int, j: int, g1: Graph) returns (g: Graph)
    requires m.Valid() && Indexes(cm, Cells(m)) && g1.Valid()
    ensures g == LinkCell(m, cm, i, j, g1)
  {
    g := g1;
    var nodeId := Get(cm, i, j);
    if nodeId != -1 {
      MapAnswersCellId(m, cm, (i, j));
      CellsArea(m);
      var d := 0;
      while d < 4
        invariant 0 <= d <= 4 && g == Probes((i, j), nodeId, d, g1, cm)
      {
        g := Probe((i, j), nodeId, d, g, cm);
        d := d + 1;
      }
    }
  }

  // ---------------------------------------------------------------- whole build

  /** Lines 589-636. The node table never overflows: there are at most rows * cols <= MaxNodes nodes. */
  method BuildGraph(m: Maze) returns (g: Graph, cm: HashMap, startNode: int, endNode: int)
    requires m.Valid()
    ensures IsBuiltFrom(m, g, cm, startNode, endNode)
    ensures g.nodeCount == |Cells(m)| <= m.rows * m.cols
  {
    CellsArea(m);
    var st := PlaceNodes(m);
    g := LinkNodes(m, st.g, st.cm);
    cm, startNode, endNode := st.cm, st.startNode, st.endNode;
  }
}
