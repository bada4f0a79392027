/**
 * `MazeSolver::reconstructPath` (code.cpp lines 638-660): walk the parent
 * chain back from the end node onto an array stack, then pop it so the
 * path comes out start first, each node reported as r * MAX_COLS + c.
 */
module PathReconstruction {
  import opened Limits
  import opened Seqs
  import opened Graphs
  import opened Mazes
  import opened Walks
  import opened ParentTrees
  import opened Stacks

  /** The reported form of a node sequence: each node's cell, linearised. */
  function EncodePath(g: Graph, c: seq<int>): (path: seq<int>)
    requires g.Valid()
    requires forall k :: 0 <= k < |c| ==> 0 <= c[k] < MaxNodes
    ensures |path| == |c|
  {
    seq(|c|, k requires 0 <= k < |c| => Encode(NodeCoords(g, c[k])))
  }

  /**
   * The source assumes the chain from `endNode` reaches a -1 parent; `chain`
   * names that chain. The result lists the chain's cells from start to end,
   * and is never longer than the number of nodes.
   */
  method ReconstructPath(g: Graph, parent: seq<int>, endNode: int, ghost chain: seq<int>) returns (path: seq<int>)
    requires g.Valid()
    requires |parent| == g.nodeCount
    requires IsParentChain(parent, chain) && chain[|chain| - 1] == endNode
    ensures path == EncodePath(g, chain)
    ensures 1 <= |path| <= g.nodeCount
  {
    ChainDistinct(parent, chain);
    DistinctBound(chain, g.nodeCount);
    var pathStack := NewStackArray();
    var curr := endNode;
    ghost var i := |chain| - 1;
    while curr != -1
      invariant -1 <= i < |chain|
      invariant curr == if i >= 0 then chain[i] else -1
      invariant pathStack.Valid()
      invariant |pathStack.Contents()| == |chain| - 1 - i
      invariant forall k :: 0 <= k < |pathStack.Contents()| ==> pathStack.Contents()[k] == chain[|chain| - 1 - k]
      decreases i + 1
    {
      pathStack := pathStack.Push(curr);
      curr := parent[curr];
      i := i - 1;
    }
    path := [];
    while !pathStack.IsEmpty()
      invariant pathStack.Valid()
      invariant |path| + |pathStack.Contents()| == |chain|
      invariant forall k :: 0 <= k < |pathStack.Contents()| ==> pathStack.Contents()[k] == chain[|chain| - 1 - k]
      invariant forall k :: 0 <= k < |path| ==> path[k] == Encode(NodeCoords(g, chain[k]))
      decreases |pathStack.Contents()|
    {
      var popped := pathStack.Pop();
      var node := popped.1;
      pathStack := popped.0;
      var rc := NodeCoords(g, node);
      path := path + [rc.0 * MaxCols + rc.1];
    }
  }

  /**
   * Lines 688, 736 and 796: once `t` is in the parent tree rooted at `s`, the
   * reconstructed path encodes a walk from `s` to `t` along parent links.
   */
  method TreePath(g: Graph, s: int, t: int, parent: seq<int>, ghost order: seq<int>, ghost i: int) returns (path: seq<int>)
    requires g.Valid()
    requires IsParentTree(g, parent, s, order)
    requires 0 <= i < |order| && order[i] == t
    ensures Reachable(g, s, t)
    ensures exists p :: WalkFromTo(g, p, s, t) && IsParentChain(parent, p) && path == EncodePath(g, p)
  {
    ghost var chain := ChainTo(g, parent, s, order, i);
    ChainToIsChain(g, parent, s, order, i);
    ChainToIsWalk(g, parent, s, order, i);
    path := ReconstructPath(g, parent, t, chain);
  }
}
