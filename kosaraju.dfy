/**
 * `kosarajus_algorithm` and `kosaraju_search` of graph.cpp: a post-order forest
 * of the graph, a transposition, then tree by tree, latest finished node first,
 * a component search in the transposed graph confined to the tree's unassigned
 * nodes, and a transposition back.
 */
module Kosaraju {
  import opened Sequences
  import opened GraphStore
  import opened Paths
  import DepthTraversal
  import PostOrder
  import Graphs

  /** The nodes of the first `t` trees. */
  ghost function FirstTrees(trees: seq<seq<string>>, t: int): set<string>
    requires 0 <= t <= |trees|
  {
    if t == 0 then {} else FirstTrees(trees, t - 1) + Elems(trees[t - 1])
  }

  lemma {:induction false} FirstTreesMember(trees: seq<seq<string>>, t: int, v: string)
    requires 0 <= t <= |trees|
    ensures v in FirstTrees(trees, t) <==> exists i :: 0 <= i < t && v in trees[i]
  {
    if t > 0 {
      FirstTreesMember(trees, t - 1, v);
    }
  }

  /** A node of tree `t` is a node of the table and of none of the trees before it. */
  lemma TreeNodeFresh(trees: seq<seq<string>>, all: set<string>, t: int, v: string)
    requires IsPartition(trees, all) && 0 <= t < |trees| && v in trees[t]
    ensures v in all && v !in FirstTrees(trees, t)
  {
    FirstTreesMember(trees, t, v);
  }

  /** All the trees together hold exactly the nodes they partition. */
  lemma AllTrees(trees: seq<seq<string>>, all: set<string>)
    requires IsPartition(trees, all)
    ensures FirstTrees(trees, |trees|) == all
  {
    forall v ensures v in FirstTrees(trees, |trees|) <==> v in all {
      FirstTreesMember(trees, |trees|, v);
    }
  }

  /**
   * The component loop on the transposed table: for each tree in turn, while it
   * has nodes left, `kosaraju_search` from its last remaining node, confined to
   * the tree's remaining nodes outside `seen`; the nodes found form the next
   * component, leave the tree and join `seen`.
   *
   * The components split the nodes, and from each component's first node a walk
   * of the searched table leads to each of its members.
   */
  method Components(adj: Adjacency, trees: seq<seq<string>>) returns (memo: seq<seq<string>>)
    requires WellFormed(adj) && IsPartition(trees, adj.Keys)
    ensures IsPartition(memo, adj.Keys)
    ensures PostOrder.TreesReach(adj, memo, false)
  {
    memo := [];
    var seen: seq<string> := [];
    var t := 0;
    while t < |trees|
      invariant 0 <= t <= |trees|
      invariant Elems(seen) == FirstTrees(trees, t)
      invariant IsPartition(memo, Elems(seen)) && PostOrder.TreesReach(adj, memo, false)
    {
      var cur := trees[t];
      while cur != []
        invariant Elems(cur) <= Elems(trees[t])
        invariant Elems(seen) == FirstTrees(trees, t) + (Elems(trees[t]) - Elems(cur))
        invariant IsPartition(memo, Elems(seen)) && PostOrder.TreesReach(adj, memo, false)
        decreases Elems(cur)
      {
        var start := cur[|cur| - 1];
        TreeNodeFresh(trees, adj.Keys, t, start);
        var cc := DepthTraversal.KosarajuSearch(adj, start, [], cur, seen);
        ComponentStep(adj, trees, t, seen, cur, memo, start, cc);
        cur := Difference(cur, cc);
        seen := seen + cc;
        memo := memo + [cc];
      }
      t := t + 1;
    }
    AllTrees(trees, adj.Keys);
  }

  /** One component keeps the invariant of the inner loop and shrinks the tree's remainder. */
  lemma ComponentStep(adj: Adjacency, trees: seq<seq<string>>, t: int, seen: seq<string>, cur: seq<string>,
                      memo: seq<seq<string>>, start: string, cc: seq<string>)
    requires WellFormed(adj) && IsPartition(trees, adj.Keys) && 0 <= t < |trees|
    requires start in cur && start in adj && start !in FirstTrees(trees, t)
    requires Elems(cur) <= Elems(trees[t])
    requires Elems(seen) == FirstTrees(trees, t) + (Elems(trees[t]) - Elems(cur))
    requires IsPartition(memo, Elems(seen)) && PostOrder.TreesReach(adj, memo, false)
    requires DepthTraversal.Grown(adj, DepthTraversal.Component(cur, seen), start, [], cc)
    requires |cc| > 0 && cc[0] == start
    ensures Elems(Difference(cur, cc)) < Elems(cur)
    ensures Elems(seen + cc) == FirstTrees(trees, t) + (Elems(trees[t]) - Elems(Difference(cur, cc)))
    ensures IsPartition(memo + [cc], Elems(seen + cc)) && PostOrder.TreesReach(adj, memo + [cc], false)
  {
    FoundNodes(adj, cur, seen, start, cc);
    RemainderShrinks(FirstTrees(trees, t), Elems(trees[t]), cur, seen, cc);
    PartitionExtend(memo, Elems(seen), cc);
    PostOrder.TreesReachExtend(adj, memo, cc, false);
  }

  /** What the component search promises about the nodes it found. */
  lemma FoundNodes(adj: Adjacency, cur: seq<string>, seen: seq<string>, start: string, cc: seq<string>)
    requires DepthTraversal.Grown(adj, DepthTraversal.Component(cur, seen), start, [], cc)
    ensures Distinct(cc)
    ensures forall v :: v in cc ==> v in cur && v !in Elems(seen) && Reachable(adj, start, v)
  {
    forall v | v in cc ensures v in cur && v !in Elems(seen) && Reachable(adj, start, v) {
      var j :| 0 <= j < |cc| && cc[j] == v;
    }
  }

  /** Moving the found nodes from the remainder to `seen` keeps the bookkeeping and shrinks the remainder. */
  lemma RemainderShrinks(before: set<string>, tree: set<string>, cur: seq<string>, seen: seq<string>, cc: seq<string>)
    requires Elems(seen) == before + (tree - Elems(cur)) && Elems(cur) <= tree
    requires cc != [] && forall v :: v in cc ==> v in cur
    ensures Elems(Difference(cur, cc)) < Elems(cur)
    ensures Elems(seen + cc) == before + (tree - Elems(Difference(cur, cc)))
    ensures Elems(seen + cc) == Elems(seen) + Elems(cc)
  {
    assert Elems(Difference(cur, cc)) == Elems(cur) - Elems(cc);
    assert Elems(seen + cc) == Elems(seen) + Elems(cc);
    assert cc[0] in Elems(cur) - Elems(Difference(cur, cc));
  }

  /** A walk of the transposed table, read backwards, is a walk of the table. */
  lemma TransposedReach(adj: Adjacency, u: string, v: string)
    requires WellFormed(adj) && Reachable(Transposed(adj), u, v)
    ensures Reachable(adj, v, u)
  {
    var w :| IsWalk(Transposed(adj), w) && w[0] == u && w[|w| - 1] == v;
    var r := Reversed(w);
    forall i | 0 <= i < |r| - 1 ensures HasEdge(adj, r[i], r[i + 1]) {
      var n := |w|;
      assert r[i] == w[n - 1 - i] && r[i + 1] == w[n - 2 - i];
      assert HasEdge(Transposed(adj), w[n - 2 - i], w[n - 1 - i]);
      TransposeEdges(adj, w[n - 2 - i], w[n - 1 - i]);
    }
    assert IsWalk(adj, r);
  }

  /**
   * `kosarajus_algorithm(memo)`: post-order forest over the key list `keys` (the
   * node table's own order), transpose, the component loop, transpose back.
   *
   * The graph ends as it began; the components split its nodes, and every member
   * of a component reaches the component's first node.
   */
  method KosarajusAlgorithm(g: Graphs.Graph, keys: seq<string>) returns (memo: seq<seq<string>>)
    requires g.Valid() && forall v :: v in keys <==> v in g.nodes
    modifies g
    ensures g.Valid() && g.nodes == old(g.nodes) && g.ids == old(g.ids) && g.count == old(g.count)
    ensures IsPartition(memo, g.nodes.Keys)
    ensures forall i, v :: 0 <= i < |memo| && v in memo[i] ==> Reachable(g.nodes, v, memo[i][0])
  {
    var dfs := PostOrder.ForestPostOrder(g.nodes, keys);
    g.Transpose();
    memo := Components(g.nodes, dfs);
    ghost var tr := g.nodes;
    g.Transpose();
    TransposeInvolution(old(g.nodes));
    forall i, v | 0 <= i < |memo| && v in memo[i] ensures Reachable(g.nodes, v, memo[i][0]) {
      assert PostOrder.TreeReach(tr, memo, i, false);
      TransposedReach(g.nodes, memo[i][0], v);
    }
  }
}
