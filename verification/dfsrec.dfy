/**
 * The recursive depth-first search of code.cpp: `dfsRecursiveHelper`
 * (lines 759-784) marks and counts a node on entry, stops when it is the
 * end node, and otherwise recurses into each unmarked neighbour in turn,
 * after making the current node its parent; `solveDFSRecursive`
 * (lines 786-802) starts it at the start node.
 *
 * The ghost `order` lists the visited nodes in visiting order, as in
 * `DepthFirst`; a parent is assigned just before its child is entered, so
 * each node receives its parent exactly once.
 */
module RecursiveDepthFirst {
  import opened Seqs
  import opened Graphs
  import opened Walks
  import opened ParentTrees
  import opened PathReconstruction
  import opened DepthFirst

  /** `order` starts with `prefix`. */
  ghost predicate Extends(order: seq<int>, prefix: seq<int>) {
    |prefix| <= |order| && order[..|prefix|] == prefix
  }

  /** Every neighbour of `order[lo..]` is visited. */
  ghost predicate Finished(g: Graph, visited: seq<bool>, order: seq<int>, lo: int)
    requires WellFormed(g)
  {
    && |visited| == g.nodeCount
    && 0 <= lo <= |order|
    && (forall i :: 0 <= i < |order| ==> 0 <= order[i] < g.nodeCount)
    && forall i, k :: lo <= i < |order| && 0 <= k < |g.adjList[order[i]]| ==> visited[g.adjList[order[i]][k].dest]
  }

  /**
   * What `dfsRecursiveHelper` relies on when entered for `curr`: `curr` is
   * unvisited, its parent is already set so that it extends the tree, the
   * count matches the visited nodes, and the end node has not been reached.
   */
  ghost predicate Enter(g: Graph, s: int, t: int, curr: int, visited: seq<bool>, parent: seq<int>,
                        order: seq<int>, nv: int)
    requires WellFormed(g)
  {
    && Visits(g, s, visited, parent, order)
    && 0 <= curr < g.nodeCount && !visited[curr]
    && IsParentTree(g, parent, s, order + [curr])
    && nv == |order| && t !in order
  }

  /**
   * The state of the loop of lines 769-781 after the first `j` edges of
   * `curr`: `curr` was visited right after `order0`, the first `j`
   * neighbours are visited, and every node visited by the completed
   * recursive calls has all its neighbours visited.
   */
  ghost predicate Scan(g: Graph, s: int, t: int, curr: int, j: int, order0: seq<int>, visited: seq<bool>,
                       parent: seq<int>, order: seq<int>, nv: int)
    requires WellFormed(g)
  {
    && Visits(g, s, visited, parent, order)
    && 0 <= curr < g.nodeCount && 0 <= j <= |g.adjList[curr]|
    && Extends(order, order0 + [curr])
    && nv == |order| && t !in order
    && (forall k :: 0 <= k < j ==> visited[g.adjList[curr][k].dest])
    && Finished(g, visited, order, |order0| + 1)
  }

  /** Lines 760-761: marking `curr` adds it to the visited nodes. */
  lemma EnterVisits(g: Graph, s: int, t: int, curr: int, visited: seq<bool>, parent: seq<int>,
                    order: seq<int>, nv: int)
    requires WellFormed(g)
    requires Enter(g, s, t, curr, visited, parent, order, nv)
    ensures Visits(g, s, visited[curr := true], parent, order + [curr])
    ensures |order| < g.nodeCount
  {
    DistinctBound(order + [curr], g.nodeCount);
  }

  /** Entering the loop: nothing scanned yet, and nothing after `curr` visited. */
  lemma ScanInit(g: Graph, s: int, t: int, curr: int, visited: seq<bool>, parent: seq<int>, order: seq<int>)
    requires WellFormed(g)
    requires Visits(g, s, visited, parent, order + [curr])
    requires 0 <= curr < g.nodeCount && curr != t && t !in order
    ensures Scan(g, s, t, curr, 0, order, visited, parent, order + [curr], |order| + 1)
  {
    assert (order + [curr])[..|order| + 1] == order + [curr];
    assert order + [curr] != [];
  }

  /** Line 773: a visited neighbour is skipped. */
  lemma ScanSkip(g: Graph, s: int, t: int, curr: int, j: int, order0: seq<int>, visited: seq<bool>,
                 parent: seq<int>, order: seq<int>, nv: int)
    requires WellFormed(g)
    requires Scan(g, s, t, curr, j, order0, visited, parent, order, nv)
    requires j < |g.adjList[curr]| && visited[g.adjList[curr][j].dest]
    ensures Scan(g, s, t, curr, j + 1, order0, visited, parent, order, nv)
  {
  }

  /** Lines 775-776: setting the parent of an unvisited neighbour prepares the call that enters it. */
  lemma EnterChild(g: Graph, s: int, t: int, curr: int, j: int, order0: seq<int>, visited: seq<bool>,
                   parent: seq<int>, order: seq<int>, nv: int)
    requires WellFormed(g)
    requires Scan(g, s, t, curr, j, order0, visited, parent, order, nv)
    requires j < |g.adjList[curr]| && !visited[g.adjList[curr][j].dest]
    ensures Enter(g, s, t, g.adjList[curr][j].dest, visited, parent[g.adjList[curr][j].dest := curr], order, nv)
    ensures g.nodeCount - |order| < g.nodeCount - |order0|
  {
    var v := g.adjList[curr][j].dest;
    assert IsEdge(g, curr, v);
    assert order[|order0|] == (order0 + [curr])[|order0|];
    assert curr in order;
    TreeIgnoresOthers(g, parent, s, order, v, curr);
    TreeAdd(g, parent[v := curr], s, order, v);
  }

  /** Visited nodes stay visited across a call: they are a prefix of its order. */
  lemma VisitedGrow(g: Graph, s: int, visited: seq<bool>, parent: seq<int>, order: seq<int>,
                    visited': seq<bool>, parent': seq<int>, order': seq<int>)
    requires WellFormed(g)
    requires Visits(g, s, visited, parent, order) && Visits(g, s, visited', parent', order')
    requires Extends(order', order)
    ensures forall v :: 0 <= v < g.nodeCount && visited[v] ==> visited'[v]
  {
    forall v | 0 <= v < g.nodeCount && visited[v]
      ensures visited'[v]
    {
      var i := IndexOf(order, v);
      assert order'[i] == order[i];
    }
  }

  lemma ExtendsAt(a: seq<int>, b: seq<int>, i: int)
    requires Extends(a, b) && 0 <= i < |b|
    ensures a[i] == b[i]
  {
    assert a[..|b|][i] == a[i];
  }

  lemma ExtendsTrans(a: seq<int>, b: seq<int>, c: seq<int>)
    requires Extends(a, b) && Extends(b, c)
    ensures Extends(a, c)
  {
    assert a[..|c|] == a[..|b|][..|c|];
  }

  /** A call that returns without finding the end leaves the scan state ready for the next edge. */
  lemma ChildDone(g: Graph, s: int, t: int, curr: int, j: int, order0: seq<int>, visited: seq<bool>,
                  parent: seq<int>, order: seq<int>, nv: int, visited': seq<bool>, parent': seq<int>,
                  order': seq<int>, nv': int)
    requires WellFormed(g)
    requires Scan(g, s, t, curr, j, order0, visited, parent, order, nv)
    requires j < |g.adjList[curr]|
    requires Visits(g, s, visited', parent', order')
    requires Extends(order', order + [g.adjList[curr][j].dest])
    requires nv' == |order'| && t !in order'
    requires Finished(g, visited', order', |order|)
    ensures Scan(g, s, t, curr, j + 1, order0, visited', parent', order', nv')
  {
    ExtendsTrans(order', order + [g.adjList[curr][j].dest], order);
    ExtendsTrans(order', order, order0 + [curr]);
    VisitedGrow(g, s, visited, parent, order, visited', parent', order');
    ExtendsAt(order', order + [g.adjList[curr][j].dest], |order|);
    ScannedGrow(g, curr, j, visited, visited');
    FinishedJoin(g, visited, order, visited', order', |order0| + 1);
  }

  lemma ScannedGrow(g: Graph, curr: int, j: int, visited: seq<bool>, visited': seq<bool>)
    requires WellFormed(g) && 0 <= curr < g.nodeCount && 0 <= j < |g.adjList[curr]|
    requires |visited| == g.nodeCount && |visited'| == g.nodeCount
    requires forall k :: 0 <= k < j ==> visited[g.adjList[curr][k].dest]
    requires forall v :: 0 <= v < g.nodeCount && visited[v] ==> visited'[v]
    requires visited'[g.adjList[curr][j].dest]
    ensures forall k :: 0 <= k < j + 1 ==> visited'[g.adjList[curr][k].dest]
  {
  }

  lemma FinishedJoin(g: Graph, visited: seq<bool>, order: seq<int>, visited': seq<bool>, order': seq<int>, lo: int)
    requires WellFormed(g)
    requires Finished(g, visited, order, lo) && Finished(g, visited', order', |order|)
    requires Extends(order', order)
    requires forall v :: 0 <= v < g.nodeCount && visited[v] ==> visited'[v]
    ensures Finished(g, visited', order', lo)
  {
    forall i, k | lo <= i < |order'| && 0 <= k < |g.adjList[order'[i]]|
      ensures visited'[g.adjList[order'[i]][k].dest]
    {
      if i < |order| {
        assert order'[i] == order[i];
      }
    }
  }

  /** Line 783: once every edge of `curr` is scanned, `curr` and everything after it is finished. */
  lemma ScanDone(g: Graph, s: int, t: int, curr: int, order0: seq<int>, visited: seq<bool>,
                 parent: seq<int>, order: seq<int>, nv: int)
    requires WellFormed(g) && 0 <= curr < g.nodeCount
    requires Scan(g, s, t, curr, |g.adjList[curr]|, order0, visited, parent, order, nv)
    ensures Finished(g, visited, order, |order0|)
  {
    assert order[|order0|] == (order0 + [curr])[|order0|];
  }

  /** What a call's result says about the marks alone: `curr` and every earlier mark stay set, and so does the end once found. */
  lemma MarksAfterCall(g: Graph, s: int, t: int, curr: int, visited: seq<bool>, parent: seq<int>, order: seq<int>,
                       visited': seq<bool>, parent': seq<int>, order': seq<int>)
    requires WellFormed(g)
    requires Visits(g, s, visited, parent, order) && Visits(g, s, visited', parent', order')
    requires 0 <= curr < g.nodeCount && Extends(order', order + [curr])
    ensures |visited'| == g.nodeCount && visited'[curr] && |order'| > |order|
    ensures forall v :: 0 <= v < g.nodeCount && visited[v] ==> visited'[v]
    ensures t in order' ==> 0 <= t < g.nodeCount && visited'[t]
  {
    ExtendsAt(order', order + [curr], |order|);
    assert order' != [];
    ExtendsTrans(order', order + [curr], order) by {
      assert (order + [curr])[..|order|] == order;
    }
    VisitedGrow(g, s, visited, parent, order, visited', parent', order');
  }

  /**
   * Lines 759-784. The call visits `curr` and then a run of further nodes,
   * each counted once; it reports true exactly when the end node is among
   * them, and when it reports false every neighbour of the nodes it visited
   * is visited.
   */
  method DfsRecursiveHelper(g: Graph, t: int, curr: int, visited: seq<bool>, parent: seq<int>, nodesVisited: int,
                            ghost s: int, ghost order: seq<int>)
    returns (found: bool, visited': seq<bool>, parent': seq<int>, nodesVisited': int, ghost order': seq<int>)
    requires WellFormed(g)
    requires Enter(g, s, t, curr, visited, parent, order, nodesVisited)
    ensures Visits(g, s, visited', parent', order')
    ensures Extends(order', order + [curr])
    ensures nodesVisited' == |order'|
    ensures found <==> t in order'
    ensures !found ==> Finished(g, visited', order', |order|)
    ensures |visited'| == g.nodeCount && visited'[curr] && nodesVisited' > nodesVisited
    ensures forall v :: 0 <= v < g.nodeCount && visited[v] ==> visited'[v]
    ensures found ==> 0 <= t < g.nodeCount && visited'[t]
    decreases g.nodeCount - |order|
  {
    EnterVisits(g, s, t, curr, visited, parent, order, nodesVisited);
    visited' := visited[curr := true];
    nodesVisited' := nodesVisited + 1;
    order' := order + [curr];
    parent' := parent;
    if curr == t {
      assert order'[..|order| + 1] == order';
      MarksAfterCall(g, s, t, curr, visited, parent, order, visited', parent', order');
      found := true;
      return;
    }
    ScanInit(g, s, t, curr, visited', parent', order);
    var j := 0;
    while j < |g.adjList[curr]|
      invariant Scan(g, s, t, curr, j, order, visited', parent', order', nodesVisited')
    {
      var neighbour := g.adjList[curr][j].dest;
      if !visited'[neighbour] {
        EnterChild(g, s, t, curr, j, order, visited', parent', order', nodesVisited');
        var f, v2, p2, n2, o2 := DfsRecursiveHelper(g, t, neighbour, visited', parent'[neighbour := curr],
                                                    nodesVisited', s, order');
        if f {
          ExtendsTrans(o2, order' + [neighbour], order');
          ExtendsTrans(o2, order', order + [curr]);
          found, visited', parent', nodesVisited', order' := true, v2, p2, n2, o2;
          MarksAfterCall(g, s, t, curr, visited, parent, order, visited', parent', order');
          return;
        }
        ChildDone(g, s, t, curr, j, order, visited', parent'[neighbour := curr], order', nodesVisited', v2, p2, o2, n2);
        visited', parent', nodesVisited', order' := v2, p2, n2, o2;
      } else {
        ScanSkip(g, s, t, curr, j, order, visited', parent', order', nodesVisited');
      }
      j := j + 1;
    }
    ScanDone(g, s, t, curr, order, visited', parent', order', nodesVisited');
    MarksAfterCall(g, s, t, curr, visited, parent, order, visited', parent', order');
    found := false;
  }

  /** The start node, unvisited and with parent -1, can be entered. */
  lemma RecursiveInit(g: Graph, s: int, t: int)
    requires WellFormed(g)
    requires 0 <= s < g.nodeCount
    ensures Enter(g, s, t, s, seq(g.nodeCount, _ => false), seq(g.nodeCount, _ => -1), [], 0)
  {
    assert [] + [s] == [s];
  }

  /** Line 800: a search from the start that finishes without the end has visited exactly the reachable nodes. */
  lemma RecursiveDone(g: Graph, s: int, t: int, visited: seq<bool>, parent: seq<int>, order: seq<int>)
    requires WellFormed(g)
    requires Visits(g, s, visited, parent, order) && Extends(order, [s])
    requires t !in order && Finished(g, visited, order, 0)
    ensures !Reachable(g, s, t)
    ensures |order| == |ReachSet(g, s)| && 1 <= |order|
  {
    assert order != [];
    forall i, j | 0 <= i < |order| && 0 <= j < |g.adjList[order[i]]|
      ensures g.adjList[order[i]][j].dest in order
    {
      assert visited[g.adjList[order[i]][j].dest];
    }
    TreeSpansReachSet(g, parent, s, order);
    assert t !in ReachSet(g, s);
  }

  /**
   * Lines 786-802, with the same guarantees as the stack-based search: the
   * end node is found exactly when it is reachable, the path then encodes a
   * walk from start to end, and each reachable node is counted at most once,
   * all of them when the end is unreachable.
   */
  method SolveDFSRecursive(g: Graph, startNode: int, endNode: int) returns (found: bool, path: seq<int>, nodesVisited: int)
    requires WellFormed(g)
    requires 0 <= startNode < g.nodeCount && 0 <= endNode < g.nodeCount
    ensures found <==> Reachable(g, startNode, endNode)
    ensures 1 <= nodesVisited <= |ReachSet(g, startNode)|
    ensures !found ==> path == [] && nodesVisited == |ReachSet(g, startNode)|
    ensures found ==> exists p :: WalkFromTo(g, p, startNode, endNode) && path == EncodePath(g, p)
  {
    var n := g.nodeCount;
    var visited := seq(n, _ => false);
    var parent := seq(n, _ => -1);
    RecursiveInit(g, startNode, endNode);
    ghost var order;
    found, visited, parent, nodesVisited, order := DfsRecursiveHelper(g, endNode, startNode, visited, parent, 0, startNode, []);
    assert [] + [startNode] == [startNode];
    if found {
      path := TreePath(g, startNode, endNode, parent, order, IndexOf(order, endNode));
      TreeWithinReach(g, parent, startNode, order);
    } else {
      path := [];
      RecursiveDone(g, startNode, endNode, visited, parent, order);
    }
  }
}
