/**
 * Reachability in a graph: the meaning the three solvers are checked
 * against. A walk is a non-empty sequence of node ids joined by edges; its
 * length in edges is one less than its length in nodes.
 */
module Walks {
  import opened Seqs
  import opened Graphs

  ghost predicate IsWalk(g: Graph, p: seq<int>)
    requires g.Valid()
  {
    && |p| >= 1
    && (forall i :: 0 <= i < |p| ==> 0 <= p[i] < g.nodeCount)
    && (forall i :: 0 <= i < |p| - 1 ==> IsEdge(g, p[i], p[i + 1]))
  }

  ghost predicate WalkFromTo(g: Graph, p: seq<int>, s: int, t: int)
    requires g.Valid()
  {
    IsWalk(g, p) && p[0] == s && p[|p| - 1] == t
  }

  ghost predicate Reachable(g: Graph, s: int, t: int)
    requires g.Valid()
  {
    exists p :: WalkFromTo(g, p, s, t)
  }

  /** `t` is reachable from `s` in at most `k` edges. */
  ghost predicate ReachableWithin(g: Graph, s: int, t: int, k: int)
    requires g.Valid()
  {
    exists p :: WalkFromTo(g, p, s, t) && |p| <= k + 1
  }

  /** `k` is the least number of edges of any walk from `s` to `t`. */
  ghost predicate IsDistance(g: Graph, s: int, t: int, k: int)
    requires g.Valid()
  {
    ReachableWithin(g, s, t, k) && !ReachableWithin(g, s, t, k - 1)
  }

  /** `p` is a walk from `s` to `t` and no walk between them has fewer nodes. */
  ghost predicate IsShortestWalk(g: Graph, p: seq<int>, s: int, t: int)
    requires g.Valid()
  {
    WalkFromTo(g, p, s, t) && forall q :: WalkFromTo(g, q, s, t) ==> |p| <= |q|
  }

  ghost function ReachSet(g: Graph, s: int): set<int>
    requires g.Valid()
  {
    set v: int | 0 <= v < g.nodeCount && Reachable(g, s, v)
  }

  /** No more nodes are reachable than there are nodes. */
  lemma ReachSetBound(g: Graph, s: int)
    requires g.Valid()
    ensures |ReachSet(g, s)| <= g.nodeCount
  {
    assert ReachSet(g, s) <= Range(g.nodeCount);
    SubsetCard(ReachSet(g, s), Range(g.nodeCount));
  }

  lemma ReachableFromSelf(g: Graph, s: int)
    requires g.Valid()
    requires 0 <= s < g.nodeCount
    ensures ReachableWithin(g, s, s, 0) && Reachable(g, s, s)
  {
    assert WalkFromTo(g, [s], s, s);
  }

  /** A walk to `u` followed by the edge u -> v is a walk to `v` one edge longer. */
  lemma ReachableStep(g: Graph, s: int, u: int, v: int, k: int)
    requires g.Valid()
    requires ReachableWithin(g, s, u, k)
    requires IsEdge(g, u, v)
    ensures ReachableWithin(g, s, v, k + 1) && Reachable(g, s, v)
  {
    var p :| WalkFromTo(g, p, s, u) && |p| <= k + 1;
    assert WalkFromTo(g, p + [v], s, v);
  }

  lemma ReachableExtend(g: Graph, s: int, u: int, v: int)
    requires g.Valid()
    requires Reachable(g, s, u)
    requires IsEdge(g, u, v)
    ensures Reachable(g, s, v)
  {
    var p :| WalkFromTo(g, p, s, u);
    ReachableStep(g, s, u, v, |p| - 1);
  }

  /**
   * A node within k + 1 edges is within k edges, or is entered by an edge
   * from some node `u` within k edges.
   */
  lemma ReachableWithinSplit(g: Graph, s: int, v: int, k: int) returns (u: int)
    requires g.Valid()
    requires k >= 0
    requires ReachableWithin(g, s, v, k + 1)
    ensures !ReachableWithin(g, s, v, k) ==> ReachableWithin(g, s, u, k) && IsEdge(g, u, v)
  {
    var p :| WalkFromTo(g, p, s, v) && |p| <= k + 2;
    if |p| <= k + 1 {
      u := v;
    } else {
      u := p[|p| - 2];
      assert WalkFromTo(g, p[..|p| - 1], s, u);
    }
  }

  /** A set that holds `s` and is closed under edges holds every node reachable from `s`. */
  lemma ClosedHoldsReachable(g: Graph, s: int, S: set<int>, t: int)
    requires g.Valid()
    requires s in S
    requires forall u, v :: u in S && IsEdge(g, u, v) ==> v in S
    requires Reachable(g, s, t)
    ensures t in S
  {
    var p :| WalkFromTo(g, p, s, t);
    var i := 0;
    while i < |p| - 1
      invariant 0 <= i < |p|
      invariant p[i] in S
    {
      assert IsEdge(g, p[i], p[i + 1]);
      i := i + 1;
    }
  }

  /**
   * A closed set of nodes holding `s`, all of whose members are reachable
   * from `s`, is exactly the set of nodes reachable from `s`.
   */
  lemma ClosedIsReachSet(g: Graph, s: int, S: set<int>)
    requires g.Valid()
    requires s in S
    requires forall u, v :: u in S && IsEdge(g, u, v) ==> v in S
    requires forall v :: v in S ==> 0 <= v < g.nodeCount && Reachable(g, s, v)
    ensures S == ReachSet(g, s)
  {
    forall t | t in ReachSet(g, s)
      ensures t in S
    {
      ClosedHoldsReachable(g, s, S, t);
    }
  }

  /** A distance is unique and bounds every walk from below. */
  lemma DistanceIsLeast(g: Graph, s: int, t: int, k: int, p: seq<int>)
    requires g.Valid()
    requires IsDistance(g, s, t, k)
    requires WalkFromTo(g, p, s, t)
    ensures k <= |p| - 1
  {
  }
}
