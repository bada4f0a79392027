/**
 * Parent arrays as built by the solvers (code.cpp lines 673-674, 698, 745,
 * 775): -1 marks the root, and following `parent` from any visited node
 * leads back to the start. `order` lists the visited nodes in the order they
 * received their final parent.
 */
module ParentTrees {
  import opened Graphs
  import opened Walks
  import opened Seqs

  /** Following `parent` backwards from the last entry of `c` passes through `c` and stops at -1. */
  ghost predicate IsParentChain(parent: seq<int>, c: seq<int>) {
    && |c| >= 1
    && (forall k :: 0 <= k < |c| ==> 0 <= c[k] < |parent|)
    && parent[c[0]] == -1
    && forall k :: 0 < k < |c| ==> parent[c[k]] == c[k - 1]
  }

  /**
   * Every node in `order` after the first has as parent an earlier node of
   * `order` with an edge to it; the first is the root `s`.
   */
  ghost predicate IsParentTree(g: Graph, parent: seq<int>, s: int, order: seq<int>)
    requires g.Valid()
  {
    && |parent| == g.nodeCount
    && |order| >= 1 && order[0] == s
    && Distinct(order)
    && (forall i :: 0 <= i < |order| ==> 0 <= order[i] < g.nodeCount)
    && parent[s] == -1
    && forall i :: 0 < i < |order| ==> parent[order[i]] in order[..i] && IsEdge(g, parent[order[i]], order[i])
  }

  lemma {:induction false} ChainNoRepeat(parent: seq<int>, c: seq<int>, a: int, b: int)
    requires IsParentChain(parent, c)
    requires 0 <= a < b < |c|
    ensures c[a] != c[b]
    decreases a
  {
    assert parent[c[b]] == c[b - 1] && 0 <= c[b - 1];
    if a > 0 {
      ChainNoRepeat(parent, c, a - 1, b - 1);
    }
  }

  /** A parent chain never repeats a node, so following it terminates. */
  lemma ChainDistinct(parent: seq<int>, c: seq<int>)
    requires IsParentChain(parent, c)
    ensures Distinct(c)
  {
    forall a, b | 0 <= a < b < |c|
      ensures c[a] != c[b]
    {
      ChainNoRepeat(parent, c, a, b);
    }
  }

  /** The chain of parents from the root down to `order[i]`. */
  ghost function ChainTo(g: Graph, parent: seq<int>, s: int, order: seq<int>, i: int): (c: seq<int>)
    requires g.Valid()
    requires IsParentTree(g, parent, s, order)
    requires 0 <= i < |order|
    ensures |c| >= 1 && c[0] == s && c[|c| - 1] == order[i]
    decreases i
  {
    if i == 0 then [s]
    else
      var j := ParentIndex(g, parent, s, order, i);
      ChainTo(g, parent, s, order, j) + [order[i]]
  }

  /** The position in `order` of the parent of `order[i]`, which comes before `i`. */
  ghost function ParentIndex(g: Graph, parent: seq<int>, s: int, order: seq<int>, i: int): (j: int)
    requires g.Valid()
    requires IsParentTree(g, parent, s, order)
    requires 0 < i < |order|
    ensures 0 <= j < i && order[j] == parent[order[i]]
  {
    var j := IndexOf(order, parent[order[i]]);
    assert j < i by {
      var q :| 0 <= q < i && order[..i][q] == parent[order[i]];
      assert order[q] == parent[order[i]];
    }
    j
  }

  /** The chain to `order[i]` follows parent links back to the root. */
  lemma {:induction false} ChainToIsChain(g: Graph, parent: seq<int>, s: int, order: seq<int>, i: int)
    requires g.Valid()
    requires IsParentTree(g, parent, s, order)
    requires 0 <= i < |order|
    ensures IsParentChain(parent, ChainTo(g, parent, s, order, i))
    decreases i
  {
    if i > 0 {
      var j := ParentIndex(g, parent, s, order, i);
      ChainToIsChain(g, parent, s, order, j);
      var c' := ChainTo(g, parent, s, order, j);
      var c := c' + [order[i]];
      assert forall k :: 0 <= k < |c'| ==> c[k] == c'[k];
    }
  }

  /** The chain to `order[i]` is a walk from the root to `order[i]`. */
  lemma {:induction false} ChainToIsWalk(g: Graph, parent: seq<int>, s: int, order: seq<int>, i: int)
    requires g.Valid()
    requires IsParentTree(g, parent, s, order)
    requires 0 <= i < |order|
    ensures WalkFromTo(g, ChainTo(g, parent, s, order, i), s, order[i])
    decreases i
  {
    if i > 0 {
      var j := ParentIndex(g, parent, s, order, i);
      ChainToIsWalk(g, parent, s, order, j);
      var c' := ChainTo(g, parent, s, order, j);
      var c := c' + [order[i]];
      assert IsEdge(g, c[|c| - 2], c[|c| - 1]);
      assert forall k :: 0 <= k < |c'| ==> c[k] == c'[k];
    }
  }

  /**
   * When every non-root parent is one step closer to the root by `dist`, the
   * chain to a node has dist + 1 nodes.
   */
  lemma {:induction false} ChainToLength(g: Graph, parent: seq<int>, s: int, order: seq<int>, dist: seq<int>, i: int)
    requires g.Valid()
    requires IsParentTree(g, parent, s, order)
    requires |dist| == g.nodeCount && dist[s] == 0
    requires forall k :: 0 < k < |order| ==> dist[parent[order[k]]] == dist[order[k]] - 1
    requires 0 <= i < |order|
    ensures |ChainTo(g, parent, s, order, i)| == dist[order[i]] + 1
    decreases i
  {
    if i > 0 {
      var j := ParentIndex(g, parent, s, order, i);
      ChainToLength(g, parent, s, order, dist, j);
    }
  }

  /** Changing the parent of a node outside the tree leaves the tree intact. */
  lemma TreeIgnoresOthers(g: Graph, parent: seq<int>, s: int, order: seq<int>, v: int, x: int)
    requires g.Valid()
    requires IsParentTree(g, parent, s, order)
    requires 0 <= v < g.nodeCount && v !in order
    ensures IsParentTree(g, parent[v := x], s, order)
  {
    var parent' := parent[v := x];
    forall i | 0 < i < |order|
      ensures parent'[order[i]] in order[..i] && IsEdge(g, parent'[order[i]], order[i])
    {
      assert order[i] in order;
    }
  }

  /** A node whose parent is already in the tree, joined by an edge, can join the tree. */
  lemma TreeAdd(g: Graph, parent: seq<int>, s: int, order: seq<int>, v: int)
    requires g.Valid()
    requires IsParentTree(g, parent, s, order)
    requires 0 <= v < g.nodeCount && v !in order
    requires parent[v] in order && IsEdge(g, parent[v], v)
    ensures IsParentTree(g, parent, s, order + [v])
  {
    var order' := order + [v];
    assert order'[..|order|] == order;
    forall i | 0 < i < |order'|
      ensures parent[order'[i]] in order'[..i] && IsEdge(g, parent[order'[i]], order'[i])
    {
      if i < |order| {
        assert order'[..i] == order[..i];
      }
    }
  }

  /** Every node of a parent tree rooted at `s` is reachable from `s`, so there are at most |ReachSet| of them. */
  lemma TreeWithinReach(g: Graph, parent: seq<int>, s: int, order: seq<int>)
    requires g.Valid()
    requires IsParentTree(g, parent, s, order)
    ensures Elems(order) <= ReachSet(g, s)
    ensures |order| <= |ReachSet(g, s)|
  {
    forall i | 0 <= i < |order|
      ensures Reachable(g, s, order[i])
    {
      ChainToIsWalk(g, parent, s, order, i);
    }
    DistinctCard(order);
    SubsetCard(Elems(order), ReachSet(g, s));
  }

  /**
   * A parent tree rooted at `s` that holds every neighbour of its nodes
   * holds exactly the nodes reachable from `s`.
   */
  lemma TreeSpansReachSet(g: Graph, parent: seq<int>, s: int, order: seq<int>)
    requires g.Valid()
    requires IsParentTree(g, parent, s, order)
    requires forall i, j :: 0 <= i < |order| && 0 <= j < |g.adjList[order[i]]| ==> g.adjList[order[i]][j].dest in order
    ensures Elems(order) == ReachSet(g, s)
    ensures |order| == |ReachSet(g, s)|
  {
    TreeWithinReach(g, parent, s, order);
    forall u, v | u in Elems(order) && IsEdge(g, u, v)
      ensures v in Elems(order)
    {
      var i := IndexOf(order, u);
      var j :| 0 <= j < |g.adjList[u]| && g.adjList[u][j].dest == v;
    }
    forall v | v in Elems(order)
      ensures 0 <= v < g.nodeCount && Reachable(g, s, v)
    {
    }
    ClosedIsReachSet(g, s, Elems(order));
    DistinctCard(order);
  }
}
