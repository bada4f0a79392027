/**
 * The two depth-first searches of code.cpp: `solveDFSStack` (lines 710-756),
 * which marks a node when it is popped and pushes every unmarked neighbour,
 * and `solveDFSRecursive` with `dfsRecursiveHelper` (lines 759-802), which
 * marks a node on entry and recurses into each unmarked neighbour in turn.
 *
 * The ghost `order` lists the visited nodes in visiting order; the parent
 * array restricted to `order` is a parent tree rooted at the start.
 */
module DepthFirst {
  import opened Seqs
  import opened Graphs
  import opened Walks
  import opened ParentTrees
  import opened PathReconstruction
  import Stacks

  /** Visited nodes are exactly those of `order`, which form a parent tree rooted at `s` once non-empty. */
  ghost predicate Visits(g: Graph, s: int, visited: seq<bool>, parent: seq<int>, order: seq<int>)
    requires g.Valid()
  {
    && |visited| == g.nodeCount && |parent| == g.nodeCount
    && (forall v :: 0 <= v < g.nodeCount ==> (visited[v] <==> v in order))
    && (order != [] ==> IsParentTree(g, parent, s, order))
  }

  /** No entry of `S` above position `i` repeats the node at `i`. */
  ghost predicate TopmostAt(S: seq<int>, i: int)
    requires 0 <= i < |S|
  {
    forall j :: i < j < |S| ==> S[j] != S[i]
  }

  /**
   * The stack `S` (bottom first), with `P[i]` the node whose expansion pushed
   * `S[i]`. Before the first visit only the start is on it, with parent -1.
   * Afterwards every unvisited node on it has a visited parent with an edge
   * to it, and for the topmost copy of a node that parent is its pusher.
   */
  ghost predicate Pending(g: Graph, s: int, visited: seq<bool>, parent: seq<int>, S: seq<int>, P: seq<int>, order: seq<int>)
    requires g.Valid()
  {
    && |visited| == g.nodeCount && |parent| == g.nodeCount && |P| == |S|
    && (forall i :: 0 <= i < |S| ==> 0 <= S[i] < g.nodeCount)
    && (order == [] ==> S == [s] && P == [-1] && 0 <= s < g.nodeCount && parent[s] == -1)
    && (order != [] ==> forall i :: 0 <= i < |S| && !visited[S[i]] ==>
          parent[S[i]] in order && IsEdge(g, parent[S[i]], S[i]))
    && (forall i :: 0 <= i < |S| && !visited[S[i]] && TopmostAt(S, i) ==> parent[S[i]] == P[i])
  }

  /** Every neighbour of the first `lo` visited nodes is visited or on the stack. */
  ghost predicate Covered(g: Graph, visited: seq<bool>, S: seq<int>, order: seq<int>, lo: int)
    requires WellFormed(g)
  {
    && |visited| == g.nodeCount
    && 0 <= lo <= |order|
    && (forall i :: 0 <= i < |order| ==> 0 <= order[i] < g.nodeCount)
    && forall i, j :: 0 <= i < lo && 0 <= j < |g.adjList[order[i]]| ==>
         visited[g.adjList[order[i]][j].dest] || g.adjList[order[i]][j].dest in S
  }

  /** The state of the loop of lines 725-752 while `t` has not been visited. */
  ghost predicate StackInv(g: Graph, s: int, t: int, visited: seq<bool>, parent: seq<int>, st: Stacks.StackLinkedList,
                           P: seq<int>, order: seq<int>, nv: int)
    requires WellFormed(g)
  {
    && Visits(g, s, visited, parent, order)
    && Pending(g, s, visited, parent, st.Contents(), P, order)
    && Covered(g, visited, st.Contents(), order, |order|)
    && nv == |order| && t !in order
  }

  /** The destinations of `adj`, in list order, that are not yet visited: what lines 741-751 push. */
  function NewNeighbours(adj: seq<Edge>, visited: seq<bool>): (vs: seq<int>)
    requires forall i :: 0 <= i < |adj| ==> 0 <= adj[i].dest < |visited|
    ensures forall k :: 0 <= k < |vs| ==> 0 <= vs[k] < |visited| && !visited[vs[k]]
    ensures forall v :: v in vs <==> exists i :: 0 <= i < |adj| && adj[i].dest == v && !visited[v]
  {
    if adj == [] then []
    else
      var last := adj[|adj| - 1].dest;
      var rest := NewNeighbours(adj[..|adj| - 1], visited);
      assert forall i :: 0 <= i < |adj| - 1 ==> adj[..|adj| - 1][i] == adj[i];
      if visited[last] then rest else rest + [last]
  }

  lemma NewNeighboursPrefix(adj: seq<Edge>, visited: seq<bool>, j: int)
    requires forall i :: 0 <= i < |adj| ==> 0 <= adj[i].dest < |visited|
    requires 0 <= j < |adj|
    ensures NewNeighbours(adj[..j + 1], visited) ==
            NewNeighbours(adj[..j], visited) + (if visited[adj[j].dest] then [] else [adj[j].dest])
  {
    assert adj[..j + 1][..j] == adj[..j];
  }

  /** Lines 712-721: only the start is on the stack and nothing is visited. */
  lemma StackInit(g: Graph, s: int, t: int)
    requires WellFormed(g) && 0 <= s < g.nodeCount
    ensures var n := g.nodeCount;
      StackInv(g, s, t, seq(n, _ => false), seq(n, _ => -1), Stacks.NewStackLinkedList().Push(s), [-1], [], 0)
  {
  }

  /** Line 729: popping a node that is already visited keeps the loop state. */
  lemma PopVisited(g: Graph, s: int, t: int, visited: seq<bool>, parent: seq<int>, st: Stacks.StackLinkedList,
                   P: seq<int>, order: seq<int>, nv: int)
    requires WellFormed(g)
    requires StackInv(g, s, t, visited, parent, st, P, order, nv)
    requires !st.IsEmpty() && visited[st.Pop().1]
    ensures StackInv(g, s, t, visited, parent, st.Pop().0, P[..|P| - 1], order, nv)
  {
    var S := st.Contents();
    var S' := S[..|S| - 1];
    forall i | 0 <= i < |S'| && !visited[S'[i]] && TopmostAt(S', i)
      ensures TopmostAt(S, i)
    {
    }
  }

  /**
   * Lines 730-731: popping an unvisited node visits it. Its parent is the
   * node whose expansion made the popped push, and is already visited.
   */
  lemma PopFresh(g: Graph, s: int, t: int, visited: seq<bool>, parent: seq<int>, st: Stacks.StackLinkedList,
                 P: seq<int>, order: seq<int>, nv: int)
    requires WellFormed(g)
    requires StackInv(g, s, t, visited, parent, st, P, order, nv)
    requires !st.IsEmpty() && !visited[st.Pop().1]
    ensures var v := st.Pop().1;
      && parent[v] == P[|P| - 1]
      && (order != [] ==> parent[v] in order && IsEdge(g, parent[v], v))
      && |order| < g.nodeCount
      && Visits(g, s, visited[v := true], parent, order + [v])
      && Pending(g, s, visited[v := true], parent, st.Pop().0.Contents(), P[..|P| - 1], order + [v])
      && Covered(g, visited[v := true], st.Pop().0.Contents(), order + [v], |order|)
  {
    var S := st.Contents();
    var v := S[|S| - 1];
    assert TopmostAt(S, |S| - 1);
    VisitTree(g, s, v, visited, parent, order);
    VisitPending(g, s, v, visited, parent, S, P, order);
    VisitCovered(g, v, visited, S, order);
  }

  /** Visiting a popped node whose parent is visited, or the start at first, keeps the tree. */
  lemma VisitTree(g: Graph, s: int, v: int, visited: seq<bool>, parent: seq<int>, order: seq<int>)
    requires WellFormed(g)
    requires Visits(g, s, visited, parent, order)
    requires 0 <= v < g.nodeCount && !visited[v]
    requires order == [] ==> v == s && parent[s] == -1
    requires order != [] ==> parent[v] in order && IsEdge(g, parent[v], v)
    ensures |order| < g.nodeCount
    ensures Visits(g, s, visited[v := true], parent, order + [v])
  {
    var order' := order + [v];
    if order == [] {
      assert IsParentTree(g, parent, s, order');
    } else {
      TreeAdd(g, parent, s, order, v);
    }
    DistinctBound(order', g.nodeCount);
  }

  lemma VisitPending(g: Graph, s: int, v: int, visited: seq<bool>, parent: seq<int>, S: seq<int>, P: seq<int>, order: seq<int>)
    requires WellFormed(g)
    requires Pending(g, s, visited, parent, S, P, order)
    requires S != [] && v == S[|S| - 1] && !visited[v]
    ensures Pending(g, s, visited[v := true], parent, S[..|S| - 1], P[..|P| - 1], order + [v])
  {
    var S' := S[..|S| - 1];
    var visited' := visited[v := true];
    forall i | 0 <= i < |S'| && !visited'[S'[i]] && TopmostAt(S', i)
      ensures parent[S'[i]] == P[i]
    {
      assert S'[i] == S[i];
      forall j | i < j < |S|
        ensures S[j] != S[i]
      {
        if j < |S'| {
          assert S'[j] == S[j];
        }
      }
    }
    forall i | 0 <= i < |S'| && !visited'[S'[i]]
      ensures parent[S'[i]] in order + [v] && IsEdge(g, parent[S'[i]], S'[i])
    {
      assert S'[i] == S[i];
    }
  }

  lemma VisitCovered(g: Graph, v: int, visited: seq<bool>, S: seq<int>, order: seq<int>)
    requires WellFormed(g)
    requires Covered(g, visited, S, order, |order|)
    requires S != [] && v == S[|S| - 1] && 0 <= v < g.nodeCount
    ensures Covered(g, visited[v := true], S[..|S| - 1], order + [v], |order|)
  {
    var S' := S[..|S| - 1];
    var order' := order + [v];
    forall i, j | 0 <= i < |order| && 0 <= j < |g.adjList[order'[i]]|
      ensures visited[v := true][g.adjList[order'[i]][j].dest] || g.adjList[order'[i]][j].dest in S'
    {
      assert order'[i] == order[i];
      var w := g.adjList[order[i]][j].dest;
      if w != v && w in S {
        var k := IndexOf(S, w);
        assert S'[k] == w;
      }
    }
  }

  /** The part of the inner-loop state about the search as a whole: `curr` is the last visited node. */
  ghost predicate PushCore(g: Graph, s: int, curr: int, visited: seq<bool>, parent: seq<int>, S: seq<int>,
                           P: seq<int>, order: seq<int>)
    requires WellFormed(g)
  {
    && Visits(g, s, visited, parent, order)
    && Pending(g, s, visited, parent, S, P, order)
    && Covered(g, visited, S, order, |order| - 1)
    && order != [] && curr == order[|order| - 1]
  }

  /**
   * The part of the inner-loop state about the first `j` edges of `curr`:
   * exactly their unvisited destinations were pushed, in order, and given
   * parent `curr`.
   */
  ghost predicate PushTrack(n: int, curr: int, adj: seq<Edge>, j: int, visited: seq<bool>,
                            parent0: seq<int>, S0: seq<int>, parent: seq<int>, S: seq<int>)
  {
    && (forall i :: 0 <= i < |adj| ==> 0 <= adj[i].dest < |visited|)
    && 0 <= j <= |adj| && |parent0| == n && |parent| == n
    && S == S0 + NewNeighbours(adj[..j], visited)
    && (forall v :: 0 <= v < n ==> parent[v] == if v in NewNeighbours(adj[..j], visited) then curr else parent0[v])
  }

  /** The state of the inner loop of lines 741-751 after the first `j` edges of `curr`. */
  ghost predicate PushInv(g: Graph, s: int, curr: int, adj: seq<Edge>, j: int, visited: seq<bool>,
                          parent0: seq<int>, S0: seq<int>, parent: seq<int>, st: Stacks.StackLinkedList,
                          P: seq<int>, order: seq<int>)
    requires WellFormed(g)
  {
    && PushCore(g, s, curr, visited, parent, st.Contents(), P, order)
    && 0 <= curr < g.nodeCount && adj == g.adjList[curr]
    && PushTrack(g.nodeCount, curr, adj, j, visited, parent0, S0, parent, st.Contents())
  }

  /** An edge to a visited node pushes nothing. */
  lemma PushSkip(g: Graph, s: int, curr: int, adj: seq<Edge>, j: int, visited: seq<bool>,
                 parent0: seq<int>, S0: seq<int>, parent: seq<int>, st: Stacks.StackLinkedList,
                 P: seq<int>, order: seq<int>)
    requires WellFormed(g)
    requires PushInv(g, s, curr, adj, j, visited, parent0, S0, parent, st, P, order)
    requires j < |adj| && visited[adj[j].dest]
    ensures PushInv(g, s, curr, adj, j + 1, visited, parent0, S0, parent, st, P, order)
  {
    NewNeighboursPrefix(adj, visited, j);
  }

  /** Lines 745-746: an unvisited neighbour gets `curr` as parent and is pushed. */
  lemma PushFresh(g: Graph, s: int, curr: int, adj: seq<Edge>, j: int, visited: seq<bool>,
                  parent0: seq<int>, S0: seq<int>, parent: seq<int>, st: Stacks.StackLinkedList,
                  P: seq<int>, order: seq<int>)
    requires WellFormed(g)
    requires PushInv(g, s, curr, adj, j, visited, parent0, S0, parent, st, P, order)
    requires j < |adj| && !visited[adj[j].dest]
    ensures PushInv(g, s, curr, adj, j + 1, visited, parent0, S0, parent[adj[j].dest := curr],
                    st.Push(adj[j].dest), P + [curr], order)
  {
    assert IsEdge(g, curr, adj[j].dest);
    CoreFresh(g, s, curr, adj[j].dest, visited, parent, st.Contents(), P, order);
    TrackFresh(g.nodeCount, curr, adj, j, visited, parent0, S0, parent, st);
  }

  lemma CoreFresh(g: Graph, s: int, curr: int, v: int, visited: seq<bool>, parent: seq<int>, S: seq<int>,
                  P: seq<int>, order: seq<int>)
    requires WellFormed(g)
    requires PushCore(g, s, curr, visited, parent, S, P, order)
    requires IsEdge(g, curr, v) && !visited[v]
    ensures PushCore(g, s, curr, visited, parent[v := curr], S + [v], P + [curr], order)
  {
    TreeIgnoresOthers(g, parent, s, order, v, curr);
    PushPending(g, s, curr, v, visited, parent, S, P, order);
    CoveredGrow(g, visited, S, order, |order| - 1, v);
  }

  lemma TrackFresh(n: int, curr: int, adj: seq<Edge>, j: int, visited: seq<bool>,
                   parent0: seq<int>, S0: seq<int>, parent: seq<int>, st: Stacks.StackLinkedList)
    requires PushTrack(n, curr, adj, j, visited, parent0, S0, parent, st.Contents())
    requires j < |adj| && !visited[adj[j].dest] && adj[j].dest < n
    ensures PushTrack(n, curr, adj, j + 1, visited, parent0, S0, parent[adj[j].dest := curr], st.Push(adj[j].dest).Contents())
  {
    var v := adj[j].dest;
    NewNeighboursPrefix(adj, visited, j);
    StackStep(st, S0, NewNeighbours(adj[..j], visited), v);
    ParentsStep(n, curr, v, NewNeighbours(adj[..j], visited), parent0, parent);
  }

  lemma StackStep(st: Stacks.StackLinkedList, S0: seq<int>, vs: seq<int>, v: int)
    requires st.Contents() == S0 + vs
    ensures st.Push(v).Contents() == S0 + (vs + [v])
  {
  }

  lemma CoveredGrow(g: Graph, visited: seq<bool>, S: seq<int>, order: seq<int>, lo: int, v: int)
    requires WellFormed(g)
    requires Covered(g, visited, S, order, lo)
    ensures Covered(g, visited, S + [v], order, lo)
  {
  }

  lemma ParentsStep(n: int, curr: int, v: int, vs: seq<int>, parent0: seq<int>, parent: seq<int>)
    requires |parent0| == n && |parent| == n && 0 <= v < n
    requires forall u :: 0 <= u < n ==> parent[u] == if u in vs then curr else parent0[u]
    ensures forall u :: 0 <= u < n ==> parent[v := curr][u] == if u in vs + [v] then curr else parent0[u]
  {
  }

  lemma PushPending(g: Graph, s: int, curr: int, v: int, visited: seq<bool>, parent: seq<int>, S: seq<int>,
                    P: seq<int>, order: seq<int>)
    requires WellFormed(g)
    requires Visits(g, s, visited, parent, order)
    requires Pending(g, s, visited, parent, S, P, order)
    requires order != [] && curr in order && IsEdge(g, curr, v) && !visited[v]
    ensures Pending(g, s, visited, parent[v := curr], S + [v], P + [curr], order)
  {
    var S', P', parent' := S + [v], P + [curr], parent[v := curr];
    forall i | 0 <= i < |S'| && !visited[S'[i]] && TopmostAt(S', i)
      ensures parent'[S'[i]] == P'[i]
    {
      if i < |S| {
        assert S'[|S|] == v;
        forall j | i < j < |S|
          ensures S[j] != S[i]
        {
          assert S'[j] == S[j];
        }
      }
    }
  }

  /**
   * Lines 740-751: pushes the unvisited neighbours of `curr` in adjacency
   * order, each with `curr` as parent; nothing else changes.
   */
  method PushNeighbours(g: Graph, s: int, curr: int, visited: seq<bool>, parent: seq<int>, st: Stacks.StackLinkedList,
                        ghost P: seq<int>, ghost order: seq<int>)
    returns (parent': seq<int>, st': Stacks.StackLinkedList, ghost P': seq<int>)
    requires WellFormed(g)
    requires Visits(g, s, visited, parent, order)
    requires Pending(g, s, visited, parent, st.Contents(), P, order)
    requires Covered(g, visited, st.Contents(), order, |order| - 1)
    requires order != [] && curr == order[|order| - 1]
    ensures Visits(g, s, visited, parent', order)
    ensures st'.Contents() == st.Contents() + NewNeighbours(g.adjList[curr], visited)
    ensures forall v :: 0 <= v < g.nodeCount ==>
              parent'[v] == if v in NewNeighbours(g.adjList[curr], visited) then curr else parent[v]
    ensures Pending(g, s, visited, parent', st'.Contents(), P', order)
    ensures Covered(g, visited, st'.Contents(), order, |order|)
  {
    var adj := GetAdjList(g, curr);
    assert adj[..0] == [];
    parent', st', P' := PushEdges(g, s, curr, adj, visited, parent, st, P, order);
    CoverLast(g, s, curr, adj, visited, parent, st.Contents(), parent', st', P', order);
  }

  /** Lines 741-751: the loop over the edges of `curr`. */
  method PushEdges(g: Graph, s: int, curr: int, adj: seq<Edge>, visited: seq<bool>, parent: seq<int>,
                   st: Stacks.StackLinkedList, ghost P: seq<int>, ghost order: seq<int>)
    returns (parent': seq<int>, st': Stacks.StackLinkedList, ghost P': seq<int>)
    requires WellFormed(g)
    requires PushInv(g, s, curr, adj, 0, visited, parent, st.Contents(), parent, st, P, order)
    ensures PushInv(g, s, curr, adj, |adj|, visited, parent, st.Contents(), parent', st', P', order)
  {
    parent', st', P' := parent, st, P;
    var j := 0;
    while j < |adj|
      invariant j <= |adj|
      invariant PushInv(g, s, curr, adj, j, visited, parent, st.Contents(), parent', st', P', order)
    {
      parent', st', P' := PushEdge(g, s, curr, adj, j, visited, parent, st.Contents(), parent', st', P', order);
      j := j + 1;
    }
  }

  /** Lines 742-749: edge j of `curr` pushes its destination when that is unvisited. */
  method PushEdge(g: Graph, s: int, curr: int, adj: seq<Edge>, j: int, visited: seq<bool>,
                  ghost parent0: seq<int>, ghost S0: seq<int>, parent: seq<int>, st: Stacks.StackLinkedList,
                  ghost P: seq<int>, ghost order: seq<int>)
    returns (parent': seq<int>, st': Stacks.StackLinkedList, ghost P': seq<int>)
    requires WellFormed(g)
    requires PushInv(g, s, curr, adj, j, visited, parent0, S0, parent, st, P, order) && j < |adj|
    ensures PushInv(g, s, curr, adj, j + 1, visited, parent0, S0, parent', st', P', order)
  {
    var neighbor := adj[j].dest;
    if visited[neighbor] {
      PushSkip(g, s, curr, adj, j, visited, parent0, S0, parent, st, P, order);
      parent', st', P' := parent, st, P;
    } else {
      PushFresh(g, s, curr, adj, j, visited, parent0, S0, parent, st, P, order);
      parent' := parent[neighbor := curr];
      st' := st.Push(neighbor);
      P' := P + [curr];
    }
  }

  /** After the last edge of `curr`, every neighbour of every visited node is visited or on the stack. */
  lemma CoverLast(g: Graph, s: int, curr: int, adj: seq<Edge>, visited: seq<bool>,
                  parent0: seq<int>, S0: seq<int>, parent: seq<int>, st: Stacks.StackLinkedList,
                  P: seq<int>, order: seq<int>)
    requires WellFormed(g)
    requires PushInv(g, s, curr, adj, |adj|, visited, parent0, S0, parent, st, P, order)
    ensures st.Contents() == S0 + NewNeighbours(g.adjList[curr], visited)
    ensures forall v :: 0 <= v < g.nodeCount ==>
              parent[v] == if v in NewNeighbours(g.adjList[curr], visited) then curr else parent0[v]
    ensures Covered(g, visited, st.Contents(), order, |order|)
  {
    assert adj[..|adj|] == adj;
    PushedCovered(adj, visited, S0, st.Contents());
    CoveredLast(g, curr, visited, st.Contents(), order);
  }

  /** Every destination of `adj` is visited or among the pushed nodes. */
  lemma PushedCovered(adj: seq<Edge>, visited: seq<bool>, S0: seq<int>, S: seq<int>)
    requires forall i :: 0 <= i < |adj| ==> 0 <= adj[i].dest < |visited|
    requires S == S0 + NewNeighbours(adj, visited)
    ensures forall j :: 0 <= j < |adj| ==> visited[adj[j].dest] || adj[j].dest in S
  {
    forall j | 0 <= j < |adj| && !visited[adj[j].dest]
      ensures adj[j].dest in S
    {
      var vs := NewNeighbours(adj, visited);
      assert adj[j].dest in vs;
      assert S[|S0| + IndexOf(vs, adj[j].dest)] == adj[j].dest;
    }
  }

  lemma CoveredLast(g: Graph, curr: int, visited: seq<bool>, S: seq<int>, order: seq<int>)
    requires WellFormed(g)
    requires Covered(g, visited, S, order, |order| - 1) && order != [] && curr == order[|order| - 1]
    requires forall j :: 0 <= j < |g.adjList[curr]| ==> visited[g.adjList[curr][j].dest] || g.adjList[curr][j].dest in S
    ensures Covered(g, visited, S, order, |order|)
  {
  }

  /** Lines 754-755: with the stack empty, the visited nodes are exactly the reachable ones. */
  lemma StackDone(g: Graph, s: int, t: int, visited: seq<bool>, parent: seq<int>, st: Stacks.StackLinkedList,
                  P: seq<int>, order: seq<int>, nv: int)
    requires WellFormed(g)
    requires StackInv(g, s, t, visited, parent, st, P, order, nv)
    requires st.IsEmpty()
    ensures !Reachable(g, s, t)
    ensures nv == |ReachSet(g, s)| && 1 <= nv
  {
    assert order != [];
    TreeSpansReachSet(g, parent, s, order);
    assert t !in ReachSet(g, s);
  }

  /**
   * The end node is found exactly when it is reachable, and the reported
   * path then encodes a walk from start to end along parent links. Every
   * node is counted at most once, so the count never exceeds the number of
   * reachable nodes, and equals it when the end is unreachable.
   */
  method SolveDFSStack(g: Graph, startNode: int, endNode: int) returns (found: bool, path: seq<int>, nodesVisited: int)
    requires WellFormed(g)
    requires 0 <= startNode < g.nodeCount && 0 <= endNode < g.nodeCount
    ensures found <==> Reachable(g, startNode, endNode)
    ensures 1 <= nodesVisited <= |ReachSet(g, startNode)|
    ensures !found ==> path == [] && nodesVisited == |ReachSet(g, startNode)|
    ensures found ==> exists p :: WalkFromTo(g, p, startNode, endNode) && path == EncodePath(g, p)
  {
    var n := g.nodeCount;
    var visited := seq(n, _ => false);
    var parent := seq(n, _ => -1);
    var st := Stacks.NewStackLinkedList();
    st := st.Push(startNode);
    nodesVisited := 0;
    ghost var P := [-1];
    ghost var order := [];
    StackInit(g, startNode, endNode);
    while !st.IsEmpty()
      invariant StackInv(g, startNode, endNode, visited, parent, st, P, order, nodesVisited)
      decreases n - nodesVisited, |st.Contents()|
    {
      var popped := st.Pop();
      var curr := popped.1;
      if visited[curr] {
        PopVisited(g, startNode, endNode, visited, parent, st, P, order, nodesVisited);
        st := popped.0;
        P := P[..|P| - 1];
        continue;
      }
      PopFresh(g, startNode, endNode, visited, parent, st, P, order, nodesVisited);
      st := popped.0;
      P := P[..|P| - 1];
      visited := visited[curr := true];
      nodesVisited := nodesVisited + 1;
      order := order + [curr];
      if curr == endNode {
        path := TreePath(g, startNode, endNode, parent, order, |order| - 1);
        found := true;
        TreeWithinReach(g, parent, startNode, order);
        return;
      }
      parent, st, P := PushNeighbours(g, startNode, curr, visited, parent, st, P, order);
    }
    path := [];
    found := false;
    StackDone(g, startNode, endNode, visited, parent, st, P, order, nodesVisited);
  }
}
