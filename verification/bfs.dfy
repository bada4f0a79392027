/**
 * `MazeSolver::solveBFS` (code.cpp lines 669-707): breadth-first search
 * from the start node with a linked FIFO queue, marking nodes when they are
 * enqueued, stopping when the end node is dequeued.
 *
 * The proof keeps ghost bookkeeping beside the source's state: `order`
 * lists the marked nodes in marking order (the queue is always its suffix
 * after the `nodesVisited` dequeued ones), `dist` records each marked node's
 * distance from the start, `k` is the level being dequeued and `m` how many
 * nodes of that level are still queued.
 */
module BreadthFirst {
  import opened Seqs
  import opened Graphs
  import opened Walks
  import opened ParentTrees
  import opened PathReconstruction
  import Queues

  /** Marked nodes form a parent tree, each labelled with its true distance from `s`. */
  ghost predicate Marks(g: Graph, s: int, visited: seq<bool>, parent: seq<int>, dist: seq<int>, order: seq<int>)
    requires g.Valid()
  {
    && |visited| == g.nodeCount && |parent| == g.nodeCount && |dist| == g.nodeCount
    && IsParentTree(g, parent, s, order)
    && |order| <= g.nodeCount
    && (forall v :: 0 <= v < g.nodeCount ==> (visited[v] <==> v in order))
    && (forall i :: 0 <= i < |order| ==> IsDistance(g, s, order[i], dist[order[i]]))
    && dist[s] == 0
    && (forall i :: 0 < i < |order| ==> dist[parent[order[i]]] == dist[order[i]] - 1)
  }

  /**
   * Dequeued nodes are at most `k` away; the queue holds `m` nodes of level
   * `k` followed by nodes of level `k + 1`.
   */
  ghost predicate Layered(g: Graph, dist: seq<int>, order: seq<int>, nv: int, k: int, m: int)
    requires g.Valid()
  {
    && |dist| == g.nodeCount
    && (forall i :: 0 <= i < |order| ==> 0 <= order[i] < g.nodeCount)
    && 0 <= nv <= |order| && 0 <= k && 0 <= m <= |order| - nv
    && (forall i :: 0 <= i < nv ==> dist[order[i]] <= k)
    && (forall i :: nv <= i < nv + m ==> dist[order[i]] == k)
    && (forall i :: nv + m <= i < |order| ==> dist[order[i]] == k + 1)
  }

  /** Every node within `k` edges of `s` is marked. */
  ghost predicate Frontier(g: Graph, s: int, visited: seq<bool>, k: int)
    requires g.Valid()
  {
    |visited| == g.nodeCount &&
    forall v :: 0 <= v < g.nodeCount && ReachableWithin(g, s, v, k) ==> visited[v]
  }

  /** Every neighbour of the first `lo` nodes of `order` is marked. */
  ghost predicate ExpandedUpTo(g: Graph, visited: seq<bool>, order: seq<int>, lo: int)
    requires WellFormed(g)
  {
    && |visited| == g.nodeCount
    && 0 <= lo <= |order|
    && (forall i :: 0 <= i < |order| ==> 0 <= order[i] < g.nodeCount)
    && forall i, j :: 0 <= i < lo && 0 <= j < |g.adjList[order[i]]| ==> visited[g.adjList[order[i]][j].dest]
  }

  /**
   * The queue holds the unexpanded suffix of `order` after `nv` dequeues at
   * level `k`, every node within `k` edges is marked and the neighbours of
   * every dequeued node are marked.
   */
  ghost predicate Searching(g: Graph, s: int, visited: seq<bool>, parent: seq<int>, q: Queues.QueueLinkedList,
                            dist: seq<int>, order: seq<int>, nv: int, k: int, m: int)
    requires WellFormed(g)
  {
    && Marks(g, s, visited, parent, dist, order)
    && Layered(g, dist, order, nv, k, m)
    && Frontier(g, s, visited, k)
    && ExpandedUpTo(g, visited, order, nv)
    && q.Contents() == order[nv..]
  }

  /** Just after `curr`, the `nv`-th node of `order`, was dequeued at level `k` and before it is expanded. */
  ghost predicate Dequeued(g: Graph, s: int, curr: int, visited: seq<bool>, parent: seq<int>, q: Queues.QueueLinkedList,
                           dist: seq<int>, order: seq<int>, nv: int, k: int, m: int)
    requires WellFormed(g)
  {
    && Marks(g, s, visited, parent, dist, order)
    && Layered(g, dist, order, nv, k, m)
    && Frontier(g, s, visited, k)
    && 0 < nv && curr == order[nv - 1] && dist[curr] == k
    && ExpandedUpTo(g, visited, order, nv - 1)
    && q.Contents() == order[nv..]
  }

  /** Once level `k` is fully dequeued, every node within `k + 1` edges is marked. */
  lemma LevelShift(g: Graph, s: int, visited: seq<bool>, parent: seq<int>, dist: seq<int>, order: seq<int>, nv: int, k: int)
    requires WellFormed(g)
    requires Marks(g, s, visited, parent, dist, order)
    requires Layered(g, dist, order, nv, k, 0)
    requires Frontier(g, s, visited, k)
    requires ExpandedUpTo(g, visited, order, nv)
    ensures Frontier(g, s, visited, k + 1)
    ensures Layered(g, dist, order, nv, k + 1, |order| - nv)
  {
    forall v | 0 <= v < g.nodeCount && ReachableWithin(g, s, v, k + 1)
      ensures visited[v]
    {
      var u := ReachableWithinSplit(g, s, v, k);
      if !ReachableWithin(g, s, v, k) {
        var i := IndexOf(order, u);
        assert i < nv;
        var j :| 0 <= j < |g.adjList[u]| && g.adjList[u][j].dest == v;
      }
    }
  }

  /** The state of the inner loop of `Expand` after the first `j` edges of `curr`. */
  ghost predicate ExpandInv(g: Graph, s: int, curr: int, adj: seq<Edge>, j: int,
                            visited0: seq<bool>, parent0: seq<int>, order0: seq<int>,
                            visited: seq<bool>, parent: seq<int>, q: Queues.QueueLinkedList, dist: seq<int>, order: seq<int>,
                            nv: int, k: int, m: int)
    requires WellFormed(g)
  {
    && 0 <= j <= |adj|
    && |visited0| == g.nodeCount && |parent0| == g.nodeCount
    && Marks(g, s, visited, parent, dist, order)
    && Layered(g, dist, order, nv, k, m)
    && Frontier(g, s, visited, k)
    && ExpandedUpTo(g, visited, order, nv - 1)
    && 0 < nv && curr == order[nv - 1] && dist[curr] == k
    && 0 <= curr < g.nodeCount && adj == g.adjList[curr]
    && (forall i :: 0 <= i < j ==> visited[adj[i].dest])
    && q.Contents() == order[nv..]
    && |order0| >= nv && order[..nv] == order0[..nv]
    && (forall v :: 0 <= v < g.nodeCount && visited0[v] ==> visited[v] && parent[v] == parent0[v])
    && (forall v :: 0 <= v < g.nodeCount && !visited0[v] && visited[v] ==> parent[v] == curr)
  }

  /** Marking unmarked `v` from `curr` at level `k` keeps the marked nodes a labelled tree. */
  lemma MarksStep(g: Graph, s: int, curr: int, v: int, visited: seq<bool>, parent: seq<int>, dist: seq<int>, order: seq<int>, k: int)
    requires WellFormed(g)
    requires Marks(g, s, visited, parent, dist, order)
    requires Frontier(g, s, visited, k)
    requires curr in order && dist[curr] == k
    requires IsEdge(g, curr, v) && !visited[v]
    ensures Marks(g, s, visited[v := true], parent[v := curr], dist[v := k + 1], order + [v])
  {
    var n := g.nodeCount;
    var i0 := IndexOf(order, curr);
    assert IsDistance(g, s, order[i0], dist[order[i0]]);
    ReachableStep(g, s, curr, v, k);
    TreeIgnoresOthers(g, parent, s, order, v, curr);
    TreeAdd(g, parent[v := curr], s, order, v);
    DistinctBound(order + [v], n);
    var visited', parent', dist', order' := visited[v := true], parent[v := curr], dist[v := k + 1], order + [v];
    forall i | 0 <= i < |order'|
      ensures IsDistance(g, s, order'[i], dist'[order'[i]])
    {
      if i < |order| {
        assert order'[i] == order[i] && order[i] != v;
      }
    }
    forall i | 0 < i < |order'|
      ensures dist'[parent'[order'[i]]] == dist'[order'[i]] - 1
    {
      if i < |order| {
        assert order'[i] == order[i] && order[i] != v;
        assert parent[order[i]] in order;
      }
    }
  }

  lemma LayeredStep(g: Graph, v: int, dist: seq<int>, order: seq<int>, nv: int, k: int, m: int)
    requires g.Valid()
    requires Layered(g, dist, order, nv, k, m)
    requires 0 <= v < g.nodeCount && v !in order
    ensures Layered(g, dist[v := k + 1], order + [v], nv, k, m)
  {
    var dist', order' := dist[v := k + 1], order + [v];
    forall i | 0 <= i < |order|
      ensures dist'[order'[i]] == dist[order[i]]
    {
      assert order'[i] == order[i] && order[i] != v;
    }
  }

  /** Marking one more node keeps every node within `k` edges marked. */
  lemma FrontierGrow(g: Graph, s: int, visited: seq<bool>, k: int, v: int)
    requires g.Valid()
    requires Frontier(g, s, visited, k) && 0 <= v < |visited|
    ensures Frontier(g, s, visited[v := true], k)
  {
  }

  /** Marking one more node and appending it to `order` keeps the first `lo` nodes expanded. */
  lemma ExpandedGrow(g: Graph, visited: seq<bool>, order: seq<int>, lo: int, v: int)
    requires WellFormed(g)
    requires ExpandedUpTo(g, visited, order, lo) && 0 <= v < g.nodeCount
    ensures ExpandedUpTo(g, visited[v := true], order + [v], lo)
  {
    var order' := order + [v];
    forall i | 0 <= i < lo
      ensures order'[i] == order[i]
    {
    }
  }

  /** Enqueueing `v` while appending it to `order` keeps the queue the unexpanded suffix. */
  lemma QueueStep(q: Queues.QueueLinkedList, order: seq<int>, order0: seq<int>, nv: int, v: int)
    requires 0 < nv <= |order| && nv <= |order0|
    requires q.Contents() == order[nv..] && order[..nv] == order0[..nv]
    ensures q.Enqueue(v).Contents() == (order + [v])[nv..]
    ensures (order + [v])[..nv] == order0[..nv]
    ensures (order + [v])[nv - 1] == order[nv - 1]
  {
    assert (order + [v])[..nv] == order[..nv];
    assert (order + [v])[nv..] == order[nv..] + [v];
  }

  /**
   * Marking unmarked `v` from `curr` keeps the bookkeeping against the state
   * before the inner loop: earlier marks keep their parents, new ones have
   * parent `curr`, and the first `j + 1` neighbours are marked.
   */
  lemma OwnersStep(n: int, curr: int, v: int, adj: seq<Edge>, j: int,
                   visited0: seq<bool>, parent0: seq<int>, visited: seq<bool>, parent: seq<int>)
    requires |visited0| == n && |parent0| == n && |visited| == n && |parent| == n
    requires 0 <= j < |adj| && adj[j].dest == v && 0 <= v < n && !visited[v]
    requires forall i :: 0 <= i < j ==> 0 <= adj[i].dest < n && visited[adj[i].dest]
    requires forall u :: 0 <= u < n && visited0[u] ==> visited[u] && parent[u] == parent0[u]
    requires forall u :: 0 <= u < n && !visited0[u] && visited[u] ==> parent[u] == curr
    ensures forall i :: 0 <= i < j + 1 ==> visited[v := true][adj[i].dest]
    ensures forall u :: 0 <= u < n && visited0[u] ==> visited[v := true][u] && parent[v := curr][u] == parent0[u]
    ensures forall u :: 0 <= u < n && !visited0[u] && visited[v := true][u] ==> parent[v := curr][u] == curr
  {
  }

  /** Skipping an already marked neighbour keeps the inner-loop state. */
  lemma ExpandSkip(g: Graph, s: int, curr: int, adj: seq<Edge>, j: int,
                   visited0: seq<bool>, parent0: seq<int>, order0: seq<int>,
                   visited: seq<bool>, parent: seq<int>, q: Queues.QueueLinkedList, dist: seq<int>, order: seq<int>,
                   nv: int, k: int, m: int)
    requires WellFormed(g)
    requires ExpandInv(g, s, curr, adj, j, visited0, parent0, order0, visited, parent, q, dist, order, nv, k, m)
    requires j < |adj| && visited[adj[j].dest]
    ensures ExpandInv(g, s, curr, adj, j + 1, visited0, parent0, order0, visited, parent, q, dist, order, nv, k, m)
  {
  }

  /** Marking an unmarked neighbour, with `curr` as its parent, keeps the inner-loop state. */
  lemma ExpandMark(g: Graph, s: int, curr: int, adj: seq<Edge>, j: int,
                   visited0: seq<bool>, parent0: seq<int>, order0: seq<int>,
                   visited: seq<bool>, parent: seq<int>, q: Queues.QueueLinkedList, dist: seq<int>, order: seq<int>,
                   nv: int, k: int, m: int)
    requires WellFormed(g)
    requires ExpandInv(g, s, curr, adj, j, visited0, parent0, order0, visited, parent, q, dist, order, nv, k, m)
    requires j < |adj| && !visited[adj[j].dest]
    ensures var v := adj[j].dest;
      ExpandInv(g, s, curr, adj, j + 1, visited0, parent0, order0,
                visited[v := true], parent[v := curr], q.Enqueue(v), dist[v := k + 1], order + [v], nv, k, m)
  {
    var v := adj[j].dest;
    assert IsEdge(g, curr, v);
    MarksStep(g, s, curr, v, visited, parent, dist, order, k);
    LayeredStep(g, v, dist, order, nv, k, m);
    FrontierGrow(g, s, visited, k, v);
    ExpandedGrow(g, visited, order, nv - 1, v);
    QueueStep(q, order, order0, nv, v);
    OwnersStep(g.nodeCount, curr, v, adj, j, visited0, parent0, visited, parent);
    assert visited[curr];
  }

  /**
   * The inner loop of lines 693-702: every unmarked neighbour of `curr` is
   * marked, given `curr` as parent and enqueued; marked ones are skipped.
   */
  method Expand(g: Graph, s: int, curr: int, visited: seq<bool>, parent: seq<int>, q: Queues.QueueLinkedList,
                ghost dist: seq<int>, ghost order: seq<int>, ghost nv: int, ghost k: int, ghost m: int)
    returns (visited': seq<bool>, parent': seq<int>, q': Queues.QueueLinkedList, ghost dist': seq<int>, ghost order': seq<int>)
    requires WellFormed(g)
    requires Dequeued(g, s, curr, visited, parent, q, dist, order, nv, k, m)
    ensures Searching(g, s, visited', parent', q', dist', order', nv, k, m)
    ensures order'[..nv] == order[..nv]
    ensures forall v :: 0 <= v < g.nodeCount && visited[v] ==> visited'[v] && parent'[v] == parent[v]
    ensures forall v :: 0 <= v < g.nodeCount && !visited[v] && visited'[v] ==> parent'[v] == curr
  {
    visited', parent', q', dist', order' := visited, parent, q, dist, order;
    var adj := GetAdjList(g, curr);
    var j := 0;
    while j < |adj|
      invariant ExpandInv(g, s, curr, adj, j, visited, parent, order, visited', parent', q', dist', order', nv, k, m)
    {
      var neighbor := adj[j].dest;
      if visited'[neighbor] {
        ExpandSkip(g, s, curr, adj, j, visited, parent, order, visited', parent', q', dist', order', nv, k, m);
      } else {
        ExpandMark(g, s, curr, adj, j, visited, parent, order, visited', parent', q', dist', order', nv, k, m);
        visited' := visited'[neighbor := true];
        parent' := parent'[neighbor := curr];
        q' := q'.Enqueue(neighbor);
        dist' := dist'[neighbor := k + 1];
        order' := order' + [neighbor];
      }
      j := j + 1;
    }
    assert forall i :: 0 <= i < |adj| ==> visited'[adj[i].dest];
  }

  /** With the queue empty, the marked nodes are exactly those reachable from `s`. */
  lemma Exhausted(g: Graph, s: int, visited: seq<bool>, parent: seq<int>, dist: seq<int>, order: seq<int>)
    requires WellFormed(g)
    requires Marks(g, s, visited, parent, dist, order)
    requires ExpandedUpTo(g, visited, order, |order|)
    ensures Elems(order) == ReachSet(g, s)
    ensures |ReachSet(g, s)| == |order|
  {
    forall u, v | u in Elems(order) && IsEdge(g, u, v)
      ensures v in Elems(order)
    {
      var i := IndexOf(order, u);
      var j :| 0 <= j < |g.adjList[u]| && g.adjList[u][j].dest == v;
    }
    forall v | v in Elems(order)
      ensures 0 <= v < g.nodeCount && Reachable(g, s, v)
    {
      var i := IndexOf(order, v);
      assert IsDistance(g, s, order[i], dist[order[i]]);
    }
    ClosedIsReachSet(g, s, Elems(order));
    DistinctCard(order);
  }

  /** The tree path to a node dequeued at its true distance is a shortest walk. */
  lemma ShortestChain(g: Graph, s: int, visited: seq<bool>, parent: seq<int>, dist: seq<int>, order: seq<int>, i: int)
    returns (chain: seq<int>)
    requires WellFormed(g)
    requires Marks(g, s, visited, parent, dist, order)
    requires 0 <= i < |order|
    ensures IsParentChain(parent, chain) && chain[|chain| - 1] == order[i]
    ensures IsShortestWalk(g, chain, s, order[i])
  {
    chain := ChainTo(g, parent, s, order, i);
    ChainToIsChain(g, parent, s, order, i);
    ChainToIsWalk(g, parent, s, order, i);
    ChainToLength(g, parent, s, order, dist, i);
    forall p | WalkFromTo(g, p, s, order[i])
      ensures |chain| <= |p|
    {
      DistanceIsLeast(g, s, order[i], dist[order[i]], p);
    }
  }

  /** The state of the outer loop of lines 681-703 after `nv` dequeues, with `t` not yet dequeued. */
  ghost predicate SearchInv(g: Graph, s: int, t: int, visited: seq<bool>, parent: seq<int>, q: Queues.QueueLinkedList,
                            dist: seq<int>, order: seq<int>, nv: int, k: int, m: int)
    requires WellFormed(g)
  {
    Searching(g, s, visited, parent, q, dist, order, nv, k, m) && t !in order[..nv]
  }

  /** Lines 671-679: only the start node is marked and queued. */
  lemma SearchInit(g: Graph, s: int, t: int)
    requires WellFormed(g) && 0 <= s < g.nodeCount
    ensures var n := g.nodeCount;
      SearchInv(g, s, t, seq(n, _ => false)[s := true], seq(n, _ => -1), Queues.NewQueueLinkedList().Enqueue(s),
                seq(n, _ => 0), [s], 0, 0, 1)
  {
    var n := g.nodeCount;
    MarksInit(g, s);
    FrontierInit(g, s);
    assert [s][0..] == [s];
  }

  /** Only the start is marked, as its own root at distance 0. */
  lemma MarksInit(g: Graph, s: int)
    requires WellFormed(g) && 0 <= s < g.nodeCount
    ensures var n := g.nodeCount;
      Marks(g, s, seq(n, _ => false)[s := true], seq(n, _ => -1), seq(n, _ => 0), [s])
  {
    ReachableFromSelf(g, s);
  }

  /** The only node within 0 edges of the start is the start itself. */
  lemma FrontierInit(g: Graph, s: int)
    requires WellFormed(g) && 0 <= s < g.nodeCount
    ensures Frontier(g, s, seq(g.nodeCount, _ => false)[s := true], 0)
  {
    assert forall v :: 0 <= v < g.nodeCount && ReachableWithin(g, s, v, 0) ==> v == s;
  }

  /** When level `k` is used up while the queue is not empty, dequeueing moves on to level `k + 1`. */
  lemma NextLevel(g: Graph, s: int, t: int, visited: seq<bool>, parent: seq<int>, q: Queues.QueueLinkedList,
                  dist: seq<int>, order: seq<int>, nv: int, k: int)
    requires WellFormed(g)
    requires SearchInv(g, s, t, visited, parent, q, dist, order, nv, k, 0)
    requires !q.IsEmpty()
    ensures 0 < |order| - nv
    ensures SearchInv(g, s, t, visited, parent, q, dist, order, nv, k + 1, |order| - nv)
  {
    LevelShift(g, s, visited, parent, dist, order, nv, k);
  }

  /** Dequeueing takes the oldest unexpanded node, which lies at the current level `k`. */
  lemma DequeueStep(g: Graph, s: int, t: int, visited: seq<bool>, parent: seq<int>, q: Queues.QueueLinkedList,
                    dist: seq<int>, order: seq<int>, nv: int, k: int, m: int)
    requires WellFormed(g)
    requires SearchInv(g, s, t, visited, parent, q, dist, order, nv, k, m)
    requires 0 < m
    ensures nv < |order| && q.Dequeue().1 == order[nv]
    ensures Dequeued(g, s, order[nv], visited, parent, q.Dequeue().0, dist, order, nv + 1, k, m - 1)
  {
  }

  /** After expanding the dequeued node, which is not `t`, the outer-loop state holds again. */
  lemma ExpandedStep(g: Graph, s: int, t: int, visited: seq<bool>, parent: seq<int>, q: Queues.QueueLinkedList,
                     dist: seq<int>, order: seq<int>, order0: seq<int>, nv: int, k: int, m: int)
    requires WellFormed(g)
    requires Searching(g, s, visited, parent, q, dist, order, nv, k, m)
    requires 0 < nv <= |order0| && order[..nv] == order0[..nv]
    requires t !in order0[..nv - 1] && order0[nv - 1] != t
    ensures SearchInv(g, s, t, visited, parent, q, dist, order, nv, k, m)
  {
    NotInPrefix(order, order0, nv, t);
  }

  lemma NotInPrefix(order: seq<int>, order0: seq<int>, nv: int, t: int)
    requires 0 < nv <= |order0| && nv <= |order| && order[..nv] == order0[..nv]
    requires t !in order0[..nv - 1] && order0[nv - 1] != t
    ensures t !in order[..nv]
  {
    assert order0[..nv] == order0[..nv - 1] + [order0[nv - 1]];
  }

  /** Lines 686-689: the parent chain of a node dequeued at its true distance is a shortest path. */
  method ShortestPath(g: Graph, s: int, t: int, parent: seq<int>, ghost visited: seq<bool>, ghost dist: seq<int>,
                      ghost order: seq<int>, ghost i: int)
    returns (path: seq<int>)
    requires WellFormed(g)
    requires Marks(g, s, visited, parent, dist, order)
    requires 0 <= i < |order| && order[i] == t
    ensures Reachable(g, s, t)
    ensures exists p :: IsShortestWalk(g, p, s, t) && path == EncodePath(g, p)
  {
    ghost var chain := ShortestChain(g, s, visited, parent, dist, order, i);
    path := ReconstructPath(g, parent, t, chain);
    assert WalkFromTo(g, chain, s, t);
  }

  /** Lines 705-706: with the queue empty and `t` never dequeued, `t` is unreachable and every reachable node was dequeued. */
  lemma SearchDone(g: Graph, s: int, t: int, visited: seq<bool>, parent: seq<int>, q: Queues.QueueLinkedList,
                   dist: seq<int>, order: seq<int>, nv: int, k: int, m: int)
    requires WellFormed(g)
    requires SearchInv(g, s, t, visited, parent, q, dist, order, nv, k, m)
    requires q.IsEmpty()
    ensures !Reachable(g, s, t)
    ensures nv == |ReachSet(g, s)| && 1 <= nv <= g.nodeCount
  {
    assert nv == |order|;
    Exhausted(g, s, visited, parent, dist, order);
    assert order[..nv] == order;
    assert t !in ReachSet(g, s);
  }

  /**
   * Lines 685-703, one turn of the loop: dequeue the next node; the search
   * ends there when it is the end node, and otherwise its unvisited
   * neighbours are marked and enqueued.
   */
  method Visit(g: Graph, s: int, t: int, visited: seq<bool>, parent: seq<int>, q: Queues.QueueLinkedList,
               ghost dist: seq<int>, ghost order: seq<int>, nv: int, ghost k: int, ghost m: int)
    returns (done: bool, path: seq<int>, visited': seq<bool>, parent': seq<int>, q': Queues.QueueLinkedList,
             ghost dist': seq<int>, ghost order': seq<int>, nv': int, ghost k': int, ghost m': int)
    requires WellFormed(g)
    requires SearchInv(g, s, t, visited, parent, q, dist, order, nv, k, m) && !q.IsEmpty()
    ensures nv' == nv + 1 <= g.nodeCount
    ensures done ==> Reachable(g, s, t) && exists p :: IsShortestWalk(g, p, s, t) && path == EncodePath(g, p)
    ensures !done ==> SearchInv(g, s, t, visited', parent', q', dist', order', nv', k', m')
  {
    k', m' := k, m;
    if m == 0 {
      NextLevel(g, s, t, visited, parent, q, dist, order, nv, k);
      k', m' := k + 1, |order| - nv;
    }
    DequeueStep(g, s, t, visited, parent, q, dist, order, nv, k', m');
    var dq := q.Dequeue();
    var curr := dq.1;
    nv', m' := nv + 1, m' - 1;
    if curr == t {
      path := ShortestPath(g, s, t, parent, visited, dist, order, nv);
      done := true;
      visited', parent', q', dist', order' := visited, parent, dq.0, dist, order;
    } else {
      done, path := false, [];
      visited', parent', q', dist', order' := Expand(g, s, curr, visited, parent, dq.0, dist, order, nv', k', m');
      ExpandedStep(g, s, t, visited', parent', q', dist', order', order, nv', k', m');
    }
  }

  /**
   * The end node is found exactly when it is reachable; the path reported is
   * then a shortest walk, so its length minus one is the distance in edges.
   * Without a path, the visit count is the number of nodes reachable from
   * the start.
   */
  method SolveBFS(g: Graph, startNode: int, endNode: int) returns (found: bool, path: seq<int>, nodesVisited: int)
    requires WellFormed(g)
    requires 0 <= startNode < g.nodeCount && 0 <= endNode < g.nodeCount
    ensures found <==> Reachable(g, startNode, endNode)
    ensures 1 <= nodesVisited <= g.nodeCount
    ensures !found ==> path == [] && nodesVisited == |ReachSet(g, startNode)|
    ensures found ==> exists p :: IsShortestWalk(g, p, startNode, endNode) && path == EncodePath(g, p)
  {
    var n := g.nodeCount;
    var visited := seq(n, _ => false);
    var parent := seq(n, _ => -1);
    var q := Queues.NewQueueLinkedList();
    q := q.Enqueue(startNode);
    visited := visited[startNode := true];
    nodesVisited := 0;
    ghost var order := [startNode];
    ghost var dist := seq(n, _ => 0);
    ghost var k := 0;
    ghost var m := 1;
    SearchInit(g, startNode, endNode);
    while !q.IsEmpty()
      invariant nodesVisited <= n
      invariant SearchInv(g, startNode, endNode, visited, parent, q, dist, order, nodesVisited, k, m)
      decreases n - nodesVisited
    {
      var done;
      done, path, visited, parent, q, dist, order, nodesVisited, k, m :=
        Visit(g, startNode, endNode, visited, parent, q, dist, order, nodesVisited, k, m);
      if done {
        found := true;
        return;
      }
    }
    found := false;
    path := [];
    SearchDone(g, startNode, endNode, visited, parent, q, dist, order, nodesVisited, k, m);
  }
}
