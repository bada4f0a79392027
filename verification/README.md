# Maze solver: a Dafny model

This project models the algorithmic core of a console maze solver written
in C++ (`code.cpp`). The solver does three things:

- It reads a grid of `#` walls, open cells `' '`, a start `S` and an end `E`.
- It turns the grid into an adjacency-list graph. Every passable cell becomes
  a node. A chained hash map from `(row, col)` to node id is used to find the
  four neighbours of each node.
- It searches that graph from start to end. There are three searches:
  breadth-first with a linked queue, depth-first with a linked stack, and
  recursive depth-first. Each search keeps a `parent` array. A found path is
  rebuilt through an array stack and reported cell by cell as
  `r * MAX_COLS + c`.

The model follows the program's own structure:

| file | module | models |
|---|---|---|
| `limits.dfy` | `Limits` | `MAX_ROWS`, `MAX_COLS`, `MAX_NODES` |
| `chains.dfy` | `Chains` | the singly linked `ListNode` chain |
| `stacks.dfy` | `Stacks` | `StackArray` and `StackLinkedList`, both against one abstract stack |
| `queues.dfy` | `Queues` | the circular `QueueArray` and `QueueLinkedList`, both against one abstract queue |
| `hashmap.dfy` | `CoordMap` | `HashMap` with its 1009 chained buckets, refined to a partial map |
| `graph.dfy` | `Graphs` | `Graph`: dense node ids, newest-first edge chains |
| `maze.dfy` | `Mazes` | the grid, `getCell`, and the row-major list of passable cells |
| `build_spec.dfy` | `BuildSpec` | what `buildGraph` must produce, and the states of its loops |
| `build.dfy` | `GraphBuild` | `buildGraph`: its node pass and its probing edge pass |
| `built.dfy` | `BuiltGraphs` | what the built graph means on the grid |
| `walks.dfy`, `trees.dfy` | `Walks`, `ParentTrees` | reachability, shortest walks, parent arrays |
| `reconstruct.dfy` | `PathReconstruction` | `reconstructPath` |
| `bfs.dfy`, `dfs.dfy`, `dfsrec.dfy` | `BreadthFirst`, `DepthFirst`, `RecursiveDepthFirst` | the three searches |
| `solver.dfy` | `MazeSolving` | `MazeSolver`: build once, then run the chosen search |

Containers, the map and the graph are immutable datatypes with pure
functions. The searches are methods whose loops carry invariants. These
invariants are stated against a path-based reachability predicate.

Decisions that the source leaves open:

- **Start and end nodes.** `startNode` and `endNode` are never initialised
  in the source when the grid has no `S` or no `E`. The model sets them to -1
  in that case.
  - The searches require valid node ids.
  - `MazeSolving.Solve` requires both cells to exist. `Maze::loadFromFile`
    (lines 460-463) refuses such a grid anyway.
- **Capacity.** `addNode` has no capacity check. The model assumes a grid of
  at most 50 x 50 cells (`Mazes.Maze.Valid`), the size of the source's
  `grid[MAX_ROWS][MAX_COLS]`. Under that assumption `buildGraph` never adds
  more than `rows * cols <= MAX_NODES` nodes, and `GraphBuild.BuildGraph`
  proves this bound. The loader itself can accept a 51-column line; see
  "Left out".
- **Negative bucket index.** The hash of an out-of-grid probe can be
  negative (see Findings). The model's `CoordMap.Hash` takes the
  non-negative remainder, so the probe goes unchecked exactly as in the
  source. Such a probe finds no entry and answers -1, which is what
  `buildGraph` evidently relies on.

## Model

| member | source | states |
|---|---|---|
| Stacks.NewStackArray | code.cpp:65 | a fresh array stack is well formed and empty |
| Stacks.StackArray.Push | code.cpp:67-74 | pushing onto a stack with free slots appends the value on top; on a full stack (MAX_NODES values) the push is dropped and nothing changes |
| Stacks.StackArray.Pop | code.cpp:76-84 | on a non-empty stack, returns the most recently pushed value not yet popped and removes exactly it; on an empty stack returns -1 and changes nothing |
| Stacks.StackArray.Peek | code.cpp:92-97 | the top value without removing it, or -1 on an empty stack |
| Stacks.StackArray.IsEmpty | code.cpp:86-90 | true exactly when the abstract stack holds nothing |
| Stacks.StackLinkedList.Push | code.cpp:116-123 | the linked stack grows by the value on top, with no capacity bound |
| Stacks.StackLinkedList.Pop | code.cpp:125-137 | removes and returns the newest value; -1 and no change when empty |
| Stacks.StackLinkedList.IsEmpty | code.cpp:139-143 | true exactly when nothing is on the stack |
| Stacks.NewStackLinkedList | code.cpp:113 | a fresh linked stack is empty |
| Stacks.ArrayRefinesSpec | code.cpp:54-99 | for any sequence of push, pop and isEmpty calls that never pushes onto a full stack, the array stack gives the answers of the abstract LIFO stack |
| Stacks.LinkedRefinesSpec | code.cpp:102-157 | the linked stack gives the answers of the abstract LIFO stack for every sequence of calls |
| Stacks.StacksAgree | code.cpp:54-157 | started empty, the two stack implementations answer every call sequence that fits in MAX_NODES alike |
| Queues.QueueArray.Enqueue | code.cpp:176-185 | with free slots the value joins the rear and the circular indices stay in range; on a full queue the value is dropped |
| Queues.QueueArray.Dequeue | code.cpp:187-196 | returns the oldest value not yet dequeued and removes exactly it; -1 and no change when empty |
| Queues.QueueArray.IsEmpty | code.cpp:198-202 | true exactly when the abstract queue holds nothing |
| Queues.NewQueueArray | code.cpp:174 | a fresh circular queue is well formed and empty |
| Queues.QueueLinkedList.Enqueue | code.cpp:220-237 | the value joins the rear of the linked queue |
| Queues.QueueLinkedList.Dequeue | code.cpp:239-252 | returns and removes the front value; -1 and no change when empty |
| Queues.QueueLinkedList.IsEmpty | code.cpp:254-258 | true exactly when the abstract queue holds nothing |
| Queues.NewQueueLinkedList | code.cpp:217 | a fresh linked queue is empty |
| Queues.ArrayRefinesSpec | code.cpp:162-203 | for any call sequence that never enqueues onto a full queue, the circular buffer answers like the abstract FIFO queue |
| Queues.LinkedRefinesSpec | code.cpp:205-271 | the linked queue answers like the abstract FIFO queue for every call sequence |
| Queues.QueuesAgree | code.cpp:162-271 | started empty, the two queue implementations answer every call sequence that fits alike |
| CoordMap.HashAsWritten | code.cpp:293-298 | the source's bucket index: in [0, 1009) for a non-negative key, in (-1009, 0] for a negative key, and always congruent to the key modulo 1009 |
| CoordMap.Hash | code.cpp:293-298 | the bucket index always lies in [0, 1009); it equals the source's `(row*1000+col) % 1009` whenever that key is non-negative, and is congruent to it otherwise |
| CoordMap.TopRowProbeIndexNegative | code.cpp:293-298 | the source's hash of the up-probe from any cell of row 0 is a negative index |
| CoordMap.LeftProbeFromOriginIndexNegative | code.cpp:293-298 | the source's hash of the left-probe from cell (0, 0) is -1 |
| CoordMap.NewHashMap | code.cpp:301-307 | a fresh map answers -1 for every coordinate |
| CoordMap.FindFirst | code.cpp:319-332 | a bucket lookup answers the id of the first entry for the coordinate, and -1 when the bucket has none |
| CoordMap.Get | code.cpp:319-332 | `get` answers the node id of the first entry for the coordinate in the coordinate's bucket, which is the newest one there, and -1 when that bucket has no entry for it |
| CoordMap.Insert | code.cpp:309-317 | afterwards the coordinate maps to the new id, and every other coordinate maps to what it did before, even in the same bucket |
| CoordMap.GetDenotes | code.cpp:309-332 | after any history of insertions into a fresh map, `get` answers the id of the most recent insertion of the coordinate, and -1 if it was never inserted |
| Graphs.NewGraph | code.cpp:360-364 | a new graph has no nodes and no edges |
| Graphs.AddNode | code.cpp:366-374 | the new id is the old node count, the count grows by one, `getNodeCoords` of the new id gives the cell, and no other node or edge changes |
| Graphs.AddEdge | code.cpp:376-382 | the source's list becomes the new edge followed by the old list; every other list, the node count and all coordinates are unchanged |
| Graphs.AddEdgeRelation | code.cpp:376-382 | the edge relation after `addEdge` is the old one plus exactly src -> dest |
| Mazes.CellsShape | code.cpp:598-613 | the reference list of passable cells is in strict row-major order, has no repeats, contains exactly the passable in-grid cells, and has at most MAX_NODES entries |
| Mazes.CellsArea | code.cpp:11-13 | there are never more passable cells than rows * cols, which is at most MAX_NODES |
| Mazes.LastWith | code.cpp:605-610 | the position of the last cell holding the character in the list, with no later such cell; -1 when there is none |
| GraphBuild.ScanCountLength | code.cpp:598-613 | the number of nodes the first pass has made before cell (i, j) is the number of passable cells that precede it in row-major order |
| GraphBuild.PlaceFirstState | code.cpp:598-613 | after the first k passable cells, nodes 0..k-1 stand for exactly those cells, the map sends each to its id and nothing else to an id, no edge exists, and start and end are the last 'S' and 'E' seen |
| GraphBuild.PlaceNodes | code.cpp:598-613 | the whole node pass leaves one node per passable cell in row-major order, a map that answers every node id, no edges, and start and end set to the last 'S' and 'E' |
| GraphBuild.ProbesInv | code.cpp:624-633 | after d probes of a node, its list holds the edges to the neighbours found so far, newest first, and no other list has changed |
| GraphBuild.ProbedAll | code.cpp:616-633 | four probes in the order up, down, left, right leave the list right, left, down, up |
| GraphBuild.LinkAllLinked | code.cpp:619-635 | after the edge pass has handled the first k nodes, exactly those nodes carry their final lists and the rest have none |
| GraphBuild.LinkNodes | code.cpp:619-635 | the edge pass gives every node the list of its passable neighbours and keeps the nodes |
| GraphBuild.BuildGraph | code.cpp:589-636 | the built graph, its map and its end nodes are as described by `BuildSpec.IsBuiltFrom`, with node count equal to the number of passable cells and at most rows * cols |
| BuildSpec.CellIdMeaning | code.cpp:598-613 | a cell has a node id exactly when it is an open in-grid cell, and then that node stands for the cell |
| BuiltGraphs.ExpectedAdjDests | code.cpp:616-633 | a node's finished list leads to exactly the nodes of the open cells beside it |
| BuiltGraphs.BuiltWeights | code.cpp:631 | every edge in every adjacency list of the built graph has weight 1 |
| BuiltGraphs.BuiltNodes | code.cpp:598-613 | every node stands for an open cell, node ids increase in row-major order, and every open cell has a node |
| BuiltGraphs.BuiltEdges | code.cpp:589-636 | there is an edge u -> v exactly when the cells of u and v share a side |
| BuiltGraphs.BuiltWellFormed | code.cpp:589-636 | every edge of the built graph leads to an existing node |
| BuiltGraphs.BuiltSymmetric | code.cpp:589-636 | the edge relation is symmetric and has no self-loops |
| BuiltGraphs.BuiltEnds | code.cpp:605-610 | the start node is -1 exactly when no cell holds 'S'; otherwise it is the node of an 'S' cell with every other 'S' cell earlier in row-major order; likewise for the end node and 'E' |
| BuiltGraphs.WalkOnGrid | code.cpp:589-636 | every walk in the built graph visits a path of side-by-side open cells |
| BuiltGraphs.GridOnWalk | code.cpp:589-636 | every path of side-by-side open cells is visited by a walk of the built graph of the same length |
| BuiltGraphs.ReachableOnGrid | code.cpp:589-636 | two nodes are connected in the graph exactly when a grid path joins their cells |
| BuiltGraphs.ShortestOnGrid | code.cpp:589-636 | a shortest walk visits a grid path with no more cells than any other grid path between the same cells |
| ParentTrees.ChainToIsWalk | code.cpp:642-647 | following parents back from a node of a parent tree gives a walk from the root to that node |
| ParentTrees.TreeSpansReachSet | code.cpp:754-755 | a parent tree closed under edges holds exactly the nodes reachable from its root; both depth-first searches (also line 800) report the count of reachable nodes through it |
| PathReconstruction.ReconstructPath | code.cpp:638-660 | the reported path lists the parent chain's cells from start to end, each as r * MAX_COLS + c, and is never longer than the node count |
| PathReconstruction.TreePath | code.cpp:638-660 | for a node of the parent tree, the reported path encodes a walk from the start to it along parent links |
| BreadthFirst.Expand | code.cpp:693-702 | each unmarked neighbour of the dequeued node is marked once, gets it as parent and joins the queue; marked nodes keep their parent |
| BreadthFirst.Exhausted | code.cpp:705-706 | once the queue is empty, the marked nodes are exactly those reachable from the start |
| BreadthFirst.ShortestPath | code.cpp:686-689 | the parent chain of a node dequeued at its true distance reports a shortest walk |
| BreadthFirst.Visit | code.cpp:683-702 | each turn counts one node; it ends the search only with a shortest walk to the end, and otherwise keeps the search invariant |
| BreadthFirst.SolveBFS | code.cpp:669-707 | found exactly when the end is reachable; the path is then a shortest walk, so its length minus one is the distance in edges; without a path, the count is the number of reachable nodes; the count never exceeds the node count |
| DepthFirst.PopFresh | code.cpp:727-731 | a popped unvisited node gets as parent the node whose expansion made the topmost push of it, and that parent was visited earlier |
| DepthFirst.PushNeighbours | code.cpp:740-751 | exactly the unvisited neighbours are pushed, in list order, each with the current node as parent; nothing else changes |
| DepthFirst.StackDone | code.cpp:754-755 | with the stack empty and the end never visited, the end is unreachable and every reachable node was counted |
| DepthFirst.SolveDFSStack | code.cpp:710-756 | found exactly when the end is reachable; the path then encodes a walk from start to end; each node is counted at most once, all reachable ones when the end is unreachable |
| RecursiveDepthFirst.DfsRecursiveHelper | code.cpp:759-784 | the call visits the current node and a run of further nodes, each counted once, and reports true exactly when the end is among them; on false every neighbour of every node it visited is visited; marks already set stay set, `curr` and (when found) the end are marked, and the count grows |
| RecursiveDepthFirst.RecursiveDone | code.cpp:800 | a search that finishes without the end has visited exactly the reachable nodes, and the end is unreachable |
| RecursiveDepthFirst.SolveDFSRecursive | code.cpp:786-802 | found exactly when the end is reachable; the path then encodes a walk from start to end; each node is counted at most once, all reachable ones when the end is unreachable |
| MazeSolving.Search | code.cpp:867-889 | each of the three menu choices finds exactly the reachable end; breadth-first search reports a shortest walk |
| MazeSolving.Solve | code.cpp:663-665 | for a maze with a start and an end, the search succeeds exactly when a grid path joins the start cell to the end cell; the reported path is such a path, encoded cell by cell; breadth-first search reports one with the fewest cells |

## Left out

- File loading and display (`Maze::loadFromFile`, `display`, `displayWithPath`, lines 430-499) are I/O. The grid is a parameter that satisfies `Mazes.Maze.Valid`: at most 50 x 50 and rectangular. Short input lines, which the source leaves uninitialised, are not modelled.
- `main` (lines 812-1002) is the interactive menu, timing with `clock()` and output writing. Only its dispatch to the three searches is modelled, by `MazeSolving.Search`. The "compare all" choice just runs all three.
- `bubbleSort` and `insertionSort` (lines 552-578) only rank timing results and visit counts. They are not part of the maze core.
- Destructors and `new`/`delete` (lines 145-155, 260-269, 334-345, 403-414) are not modelled. The linked structures are immutable datatypes, so there is no memory to reclaim.
- `dfsRecursiveHelper`'s recursion depth and stack overflow are not modelled. The recursion terminates because each call visits a new node.
- MazeSolving.Solve: requires an 'S' and an 'E' cell. Without them the source indexes `visited` with an uninitialised `startNode`, and that behaviour is undefined.
- BreadthFirst.SolveBFS, DepthFirst.SolveDFSStack and RecursiveDepthFirst.SolveDFSRecursive: require valid start and end ids, for the same reason.
- CoordMap.Hash: is the corrected, non-negative hash; the source's version is `CoordMap.HashAsWritten`. On every non-negative key the two agree. The grid's own coordinates always give non-negative keys.
- `getNodeCount`, `getAdjList` and `getNodeCoords` (lines 384-401) are plain field reads. They have no contract of their own.
- `Maze::getCell` (lines 501-511) is `Mazes.Maze.GetCell`, a bounds-checked read that answers '#' off the grid. Its contract only restates that read, so it has no row. Its meaning reaches the model through `Mazes.CellsShape`: the passable cells are exactly the open in-grid cells.
- Mazes.Maze.Valid: assumes at most 50 columns. `loadFromFile` reads with `getline(line, MAX_COLS + 2)` (lines 439-441), which stores up to 51 characters. A 51-character line, such as a 50-column row saved with a trailing carriage return, sets `cols` to 51 (line 443) and writes `grid[rows][50]` past the end of the row (line 446). `rows * cols` can then reach 2550, more than MAX_NODES, and `addNode` (lines 366-374) does not check. The model excludes such grids; their out-of-bounds writes have no meaning to model.

## Findings

| source | as written | input that shows it | evidently intended | confidence | as-written member | corrected member |
|---|---|---|---|---|---|---|
| code.cpp:293-298 | `hash` returns `(row * 1000 + col) % 1009`. C++ `%` keeps the dividend's sign, so a negative key that is not a multiple of 1009 gives a negative bucket index. The second pass of `buildGraph` probes `get(i - 1, j)` and `get(i, j - 1)` (lines 625-628) for every open cell, with no bounds check, so `table[index]` is read out of bounds. | a maze whose row 0 begins with `S`, so cell (0, 0) is open and is probed (walls are skipped at lines 620-621): its up-probe has key -1000 and index -1000, its left-probe key -1 and index -1 | a bucket index in [0, 1009) for every probe, so an off-grid probe finds nothing and answers -1; `GraphBuild.MapAnswersCellId` states that answer for every coordinate once the nodes are placed | not executed | CoordMap.TopRowProbeIndexNegative | CoordMap.Hash |
