/**
 * The `Tree` of tree.cpp and the `BinaryTree` of binary_tree.cpp.  A tree is a
 * `Graph` that grows one fresh leaf at a time, so no node gets a second parent,
 * and that `validate_tree` accepts when it is acyclic and one node reaches every
 * node; that node becomes the root.  `BinaryTree` differs only in the
 * `insert_check` it overrides, which also refuses a third child, so both are the
 * one class here, told apart by `binary`.  Exceptions become a returned `Outcome`;
 * diagnostics written to standard error are dropped.
 */
module Trees {
  import opened Wrappers
  import opened Sequences
  import opened GraphStore
  import opened Paths
  import Graphs
  import TopologicalSort
  import DepthTraversal
  import PostOrder

  /** No node has more than one parent. */
  ghost predicate SingleParents(adj: Adjacency) {
    forall v :: v in adj ==> |adj[v].parents| <= 1
  }

  /** No node has more than two children. */
  ghost predicate AtMostTwoChildren(adj: Adjacency) {
    forall v :: v in adj ==> |adj[v].children| <= 2
  }

  /** `r` is a node that reaches every node. */
  ghost predicate RootOf(adj: Adjacency, r: string) {
    r in adj && forall v :: v in adj ==> Reachable(adj, r, v)
  }

  /** The table after a new node `c` is created and linked below `p` with weight `w`. */
  function WithLeaf(adj: Adjacency, p: string, c: string, w: int): (r: Adjacency)
    requires p in adj
    ensures r.Keys == adj.Keys + {c}
  {
    AddEdge(Graphs.WithNode(adj, c), p, c, w)
  }

  // ---------------------------------------------------------------------------
  // The checks
  // ---------------------------------------------------------------------------

  /**
   * `insert_check` of `Tree`, and of `BinaryTree` when `binary` holds: an existing
   * child is refused first, then a missing parent, then, in a binary tree, a parent
   * that has two children already.
   */
  function InsertCheck(adj: Adjacency, binary: bool, parent: string, child: string): (r: Outcome<GraphError>)
    ensures r.Pass? <==> child !in adj && parent in adj && !(binary && |adj[parent].children| == 2)
    ensures r == Fail(ChildExists) <==> child in adj
    ensures r == Fail(ParentMissing) <==> child !in adj && parent !in adj
    ensures r == Fail(ParentFull) ==> binary
  {
    if child in adj then Fail(ChildExists)
    else if parent !in adj then Fail(ParentMissing)
    else if binary && |adj[parent].children| == 2 then Fail(ParentFull)
    else Pass
  }

  /** `is_valid_tree_edge`: a child that already has its one parent is refused. */
  function IsValidTreeEdge(adj: Adjacency, parent: string, child: string): (r: Outcome<GraphError>)
    requires child in adj
    ensures r.Fail? <==> |adj[child].parents| == 1
    ensures r.Fail? ==> r.error == ChildHasParent
  {
    if |adj[child].parents| == 1 then Fail(ChildHasParent) else Pass
  }

  /** `is_valid_binary_tree_edge`: a parent that already has two children is refused. */
  function IsValidBinaryTreeEdge(adj: Adjacency, parent: string, child: string): (r: Outcome<GraphError>)
    requires parent in adj
    ensures r.Fail? <==> |adj[parent].children| == 2
    ensures r.Fail? ==> r.error == ParentFull
  {
    if |adj[parent].children| == 2 then Fail(ParentFull) else Pass
  }

  /**
   * An edge the checks accept keeps a tree's shape: on a table where no node has two
   * parents, an edge `is_valid_tree_edge` accepts gives none two parents, and on one
   * where no node has three children, an edge `is_valid_binary_tree_edge` accepts
   * gives none three children.
   */
  lemma CheckedEdgeKeepsShape(adj: Adjacency, p: string, c: string, w: int)
    requires WellFormed(adj) && p in adj && c in adj
    ensures SingleParents(adj) && IsValidTreeEdge(adj, p, c).Pass? ==> SingleParents(AddEdge(adj, p, c, w))
    ensures AtMostTwoChildren(adj) && IsValidBinaryTreeEdge(adj, p, c).Pass? ==> AtMostTwoChildren(AddEdge(adj, p, c, w))
  {
    AddEdgeEffect(adj, p, c, w);
    if !HasEdge(adj, p, c) {
      AddEdgeShape(adj, p, c, w);
    }
  }

  // ---------------------------------------------------------------------------
  // Growing and shrinking a tree
  // ---------------------------------------------------------------------------

  /**
   * Linking a new node as a leaf keeps the table well formed and adds exactly the
   * one edge; no node gets a second parent, and no node a third child when the
   * parent had fewer than two.
   */
  lemma LeafShape(adj: Adjacency, p: string, c: string, w: int)
    requires WellFormed(adj) && p in adj && c !in adj
    ensures var r := WithLeaf(adj, p, c, w);
      && WellFormed(r)
      && r[c] == GraphNode([], [Neighbor(p, w)])
      && (forall u, v :: HasEdge(r, u, v) <==> HasEdge(adj, u, v) || (u == p && v == c))
      && (SingleParents(adj) ==> SingleParents(r))
      && (AtMostTwoChildren(adj) && |adj[p].children| < 2 ==> AtMostTwoChildren(r))
  {
    var a1 := Graphs.WithNode(adj, c);
    Graphs.WithNodeWellFormed(adj, c);
    assert !HasEdge(a1, p, c) by {
      if HasEdge(a1, p, c) {
        var nb :| nb in adj[p].children && nb.id == c;
        ChildMirrored(adj, p, nb);
      }
    }
    AddEdgeShape(a1, p, c, w);
    AddEdgeEffect(a1, p, c, w);
    forall u, v ensures HasEdge(WithLeaf(adj, p, c, w), u, v) <==> HasEdge(adj, u, v) || (u == p && v == c) {
      AddEdgeEdges(a1, p, c, w, u, v);
    }
  }

  /** A new leaf closes no cycle. */
  lemma LeafAcyclic(adj: Adjacency, p: string, c: string, w: int)
    requires WellFormed(adj) && p in adj && c !in adj && !HasCycle(adj)
    ensures !HasCycle(WithLeaf(adj, p, c, w))
  {
    var r := WithLeaf(adj, p, c, w);
    LeafShape(adj, p, c, w);
    if HasCycle(r) {
      var cy :| IsWalk(r, cy) && |cy| >= 2 && cy[0] == cy[|cy| - 1];
      forall i | 0 <= i < |cy| - 1 ensures cy[i] != c {
        assert HasEdge(r, cy[i], cy[i + 1]);
      }
      forall i | 0 <= i < |cy| ensures cy[i] in adj && cy[i] != c {
        if i == |cy| - 1 {
          assert cy[i] == cy[0];
        }
      }
      forall i | 0 <= i < |cy| - 1 ensures HasEdge(adj, cy[i], cy[i + 1]) {
        assert HasEdge(r, cy[i], cy[i + 1]);
      }
      assert IsWalk(adj, cy);
    }
  }

  /** A root stays a root when a new leaf is linked below any node. */
  lemma LeafRooted(adj: Adjacency, p: string, c: string, w: int, rt: string)
    requires WellFormed(adj) && p in adj && c !in adj && RootOf(adj, rt)
    ensures RootOf(WithLeaf(adj, p, c, w), rt)
  {
    var r := WithLeaf(adj, p, c, w);
    LeafShape(adj, p, c, w);
    assert Extends(adj, r);
    forall v | v in r ensures Reachable(r, rt, v) {
      if v == c {
        ReachableGrows(adj, r, rt, p);
        ReachableStep(r, rt, p, c);
      } else {
        ReachableGrows(adj, r, rt, v);
      }
    }
  }

  /** Removing a childless node keeps the table acyclic, single-parented and binary. */
  lemma LeafRemovalShape(adj: Adjacency, x: string)
    requires x in adj && adj[x].children == []
    ensures var r := Detached(adj, x);
      && (SingleParents(adj) ==> SingleParents(r))
      && (AtMostTwoChildren(adj) ==> AtMostTwoChildren(r))
      && (!HasCycle(adj) ==> !HasCycle(r))
  {
    var r := Detached(adj, x);
    forall k | k in r ensures |r[k].parents| <= |adj[k].parents| && |r[k].children| <= |adj[k].children| {
      RemoveIdShorter(adj[k].parents, x);
      RemoveIdShorter(adj[k].children, x);
    }
    forall u, v ensures HasEdge(r, u, v) ==> HasEdge(adj, u, v) {
      DetachedEdges(adj, x, u, v);
    }
    assert Extends(r, adj);
    if !HasCycle(adj) {
      AcyclicShrinks(adj, r);
    }
  }

  /** A root other than the removed childless node stays a root. */
  lemma LeafRemovalRooted(adj: Adjacency, x: string, rt: string)
    requires x in adj && adj[x].children == [] && rt != x && RootOf(adj, rt)
    ensures RootOf(Detached(adj, x), rt)
  {
    var r := Detached(adj, x);
    forall v | v in r ensures Reachable(r, rt, v) {
      var w :| IsWalk(adj, w) && w[0] == rt && w[|w| - 1] == v;
      forall i | 0 <= i < |w| - 1 ensures w[i] != x {
        assert HasEdge(adj, w[i], w[i + 1]);
      }
      forall i | 0 <= i < |w| - 1 ensures HasEdge(r, w[i], w[i + 1]) {
        DetachedEdges(adj, x, w[i], w[i + 1]);
      }
      assert IsWalk(r, w);
    }
  }

  // ---------------------------------------------------------------------------
  // Roots
  // ---------------------------------------------------------------------------

  /** A node reached from some other node has an edge entering it. */
  lemma ReachedIsEntered(adj: Adjacency, r: string, v: string)
    requires Reachable(adj, r, v) && v != r
    ensures exists u :: HasEdge(adj, u, v)
  {
    var w :| IsWalk(adj, w) && w[0] == r && w[|w| - 1] == v;
    assert HasEdge(adj, w[|w| - 2], w[|w| - 1]);
  }

  /** No edge enters the first node of a topological order. */
  lemma FirstSortedUnentered(adj: Adjacency, sorted: seq<string>)
    requires IsTopologicalOrder(adj, sorted) && sorted != []
    ensures forall u :: !HasEdge(adj, u, sorted[0])
  {
    forall u | HasEdge(adj, u, sorted[0]) ensures false {
      var i := IndexOf(sorted, u);
      assert false;
    }
  }

  /** An acyclic table has at most one root. */
  lemma RootUnique(adj: Adjacency, r1: string, r2: string)
    requires !HasCycle(adj) && RootOf(adj, r1) && RootOf(adj, r2)
    ensures r1 == r2
  {
    if r1 != r2 {
      var w1 :| IsWalk(adj, w1) && w1[0] == r1 && w1[|w1| - 1] == r2;
      var w2 :| IsWalk(adj, w2) && w2[0] == r2 && w2[|w2| - 1] == r1;
      var cy := w1 + w2[1..];
      assert |cy| >= 2 && cy[0] == cy[|cy| - 1];
      assert IsWalk(adj, cy) by {
        forall i | 0 <= i < |cy| - 1 ensures HasEdge(adj, cy[i], cy[i + 1]) {
          if i < |w1| - 1 {
            assert cy[i] == w1[i] && cy[i + 1] == w1[i + 1];
          } else {
            assert cy[i] == w2[i - |w1| + 1] && cy[i + 1] == w2[i - |w1| + 2];
          }
        }
      }
      assert false;
    }
  }

  /** A node is a root exactly when every node is among those it reaches. */
  lemma RootCount(adj: Adjacency, ids: seq<string>, top: string, dfs: seq<string>)
    requires Distinct(ids) && (forall k :: k in adj <==> k in ids) && top in adj
    requires Distinct(dfs) && forall v :: v in dfs <==> Reachable(adj, top, v)
    ensures |dfs| == |ids| <==> RootOf(adj, top)
  {
    DistinctCard(ids);
    DistinctCard(dfs);
    assert Elems(ids) == adj.Keys;
    assert Elems(dfs) <= adj.Keys by {
      forall v | v in dfs ensures v in adj {
        var w :| IsWalk(adj, w) && w[0] == top && w[|w| - 1] == v;
      }
    }
    if |dfs| == |ids| {
      assert |adj.Keys - Elems(dfs)| == 0;
      forall v | v in adj ensures Reachable(adj, top, v) {
        assert v !in adj.Keys - Elems(dfs);
      }
    }
    if RootOf(adj, top) {
      assert Elems(dfs) == adj.Keys;
    }
  }

  // ---------------------------------------------------------------------------
  // Tree and BinaryTree
  // ---------------------------------------------------------------------------

  class Tree {
    const g: Graphs.Graph
    const binary: bool
    var root: Option<string>

    /** The graph is valid and the root, when set, is one of its nodes. */
    ghost predicate Valid()
      reads this, g
    {
      g.Valid() && (root.Some? ==> root.value in g.nodes)
    }

    constructor(weighted: bool, binary: bool)
      ensures Valid() && fresh(g)
      ensures g.weighted == weighted && g.nodes == map[] && g.ids == [] && g.count == 0
      ensures this.binary == binary && root == None
    {
      g := new Graphs.Graph(weighted);
      this.binary := binary;
      root := None;
    }

    /**
     * `insert(parent, child)`: refused in a weighted tree, then by `insert_check`;
     * otherwise the child is created and linked below the parent.
     */
    method Insert(parent: string, child: string) returns (r: Outcome<GraphError>)
      requires Valid()
      modifies g
      ensures Valid()
      ensures r == if g.weighted then Fail(UnweightedInWeighted) else InsertCheck(old(g.nodes), binary, parent, child)
      ensures r.Fail? ==> g.nodes == old(g.nodes) && g.ids == old(g.ids)
      ensures r.Pass? ==> g.nodes == WithLeaf(old(g.nodes), parent, child, NoWeight) && g.ids == old(g.ids) + [child]
    {
      r := g.ValidateWeight(false);
      if r.Fail? {
        return;
      }
      r := InsertCheck(g.nodes, binary, parent, child);
      if r.Fail? {
        return;
      }
      g.CreateNode(child);
      r := g.MakeEdge(parent, child, NoWeight);
    }

    /**
     * `insert(parent, child, weight)`: refused in an unweighted tree, then by
     * `insert_check`; otherwise the child is created and linked by `make_edge`,
     * whose own check refuses the weight `NoWeight` after the child exists.
     */
    method InsertWeighted(parent: string, child: string, w: int) returns (r: Outcome<GraphError>)
      requires Valid()
      modifies g
      ensures Valid()
      ensures var chk := InsertCheck(old(g.nodes), binary, parent, child);
        r == if !g.weighted then Fail(WeightedInUnweighted)
             else if chk.Fail? then chk
             else if w == NoWeight then Fail(UnweightedInWeighted)
             else Pass
      ensures !g.weighted || InsertCheck(old(g.nodes), binary, parent, child).Fail? ==>
        g.nodes == old(g.nodes) && g.ids == old(g.ids)
      ensures g.weighted && InsertCheck(old(g.nodes), binary, parent, child).Pass? ==>
        && g.ids == old(g.ids) + [child]
        && g.nodes == if w == NoWeight then Graphs.WithNode(old(g.nodes), child)
                      else WithLeaf(old(g.nodes), parent, child, w)
    {
      r := g.ValidateWeight(true);
      if r.Fail? {
        return;
      }
      r := InsertCheck(g.nodes, binary, parent, child);
      if r.Fail? {
        return;
      }
      g.CreateNode(child);
      r := g.MakeEdge(parent, child, w);
    }

    /**
     * `remove_node(nodeId)`: a node with children stays (the source only reports
     * it); otherwise the root is cleared when it is that node, and the node goes
     * with all its edges.  The source reads the node, and for a leaf the root, so
     * both must exist.
     */
    method RemoveNode(x: string)
      requires Valid() && x in g.nodes
      requires g.nodes[x].children == [] ==> root.Some?
      modifies this, g
      ensures Valid()
      ensures old(g.nodes[x].children) != [] ==>
        g.nodes == old(g.nodes) && g.ids == old(g.ids) && root == old(root)
      ensures old(g.nodes[x].children) == [] ==>
        && g.nodes == Detached(old(g.nodes), x) && g.ids == Without(old(g.ids), x)
        && root == if old(root) == Some(x) then None else old(root)
    {
      if g.nodes[x].children != [] {
        return;
      }
      if root.value == x {
        root := None;
      }
      g.RemoveNode(x);
    }

    /**
     * `validate_tree`: a graph whose topological sort comes back empty, because of
     * a cycle or because it has no node, is refused; so is one where the depth-first
     * search from the first sorted node misses a node; otherwise that node becomes
     * the root.  `keys` is the key list of the node table, in its own order.
     *
     * So the tree is accepted exactly when it is acyclic and has a root, which is
     * then the one it records.
     */
    method ValidateTree(keys: seq<string>) returns (r: Outcome<GraphError>)
      requires Valid() && forall v :: v in keys <==> v in g.nodes
      modifies this
      ensures Valid()
      ensures r == Fail(Cycle) <==> HasCycle(g.nodes) || g.nodes == map[]
      ensures r.Pass? <==> !HasCycle(g.nodes) && exists v :: RootOf(g.nodes, v)
      ensures r.Fail? ==> r.error in {Cycle, Disconnected} && root == old(root)
      ensures r.Pass? ==> root.Some? && RootOf(g.nodes, root.value)
    {
      var sorted := TopologicalSort.TopologicalSort(g.nodes, keys);
      if sorted == [] {
        if !HasCycle(g.nodes) {
          assert g.nodes == map[] by {
            forall v | v in g.nodes ensures v in sorted {
            }
          }
        }
        return Fail(Cycle);
      }
      var top := sorted[0];
      FirstSortedUnentered(g.nodes, sorted);
      var dfs := DepthTraversal.DepthFirstSearch(g.nodes, top, [], None);
      RootCount(g.nodes, g.ids, top, dfs);
      if |dfs| != g.count {
        forall v | RootOf(g.nodes, v) ensures false {
          if v != top {
            ReachedIsEntered(g.nodes, v, top);
          }
        }
        return Fail(Disconnected);
      }
      root := Some(top);
      r := Pass;
    }

    /**
     * `forest_depth_first_search(memo, func)` of a tree: one search, from the root,
     * appended to `memo` as a single list.  It starts at the root and names no node
     * twice; without a callback it holds exactly the nodes the root reaches, which
     * for a tree `validate_tree` accepted is every node.
     */
    method ForestDepthFirstSearch(memo: seq<seq<string>>, func: Option<DepthTraversal.Callback>)
      returns (memo': seq<seq<string>>)
      requires Valid() && root.Some?
      ensures |memo'| == |memo| + 1 && memo'[..|memo|] == memo
      ensures memo'[|memo|] != [] && memo'[|memo|][0] == root.value && Distinct(memo'[|memo|])
      ensures func == None ==> forall v :: v in memo'[|memo|] <==> Reachable(g.nodes, root.value, v)
      ensures func == None && RootOf(g.nodes, root.value) ==> forall v :: v in memo'[|memo|] <==> v in g.nodes
    {
      var dfs := DepthTraversal.DepthFirstSearch(g.nodes, root.value, [], func);
      memo' := memo + [dfs];
      assert memo'[|memo|] == dfs;
      if func == None {
        forall v | v in dfs ensures v in g.nodes {
          var w :| IsWalk(g.nodes, w) && w[0] == root.value && w[|w| - 1] == v;
        }
      }
    }

    /**
     * `forest_post_order_depth_first_search(memo)` of a tree: one post-order search,
     * from the root, appended to `memo` as a single list.  It ends with the root,
     * names no node twice, and holds exactly the nodes the root reaches.
     */
    method ForestPostOrder(memo: seq<seq<string>>) returns (memo': seq<seq<string>>)
      requires Valid() && root.Some?
      ensures |memo'| == |memo| + 1 && memo'[..|memo|] == memo
      ensures var tree := memo'[|memo|];
        tree != [] && tree[|tree| - 1] == root.value && Distinct(tree)
      ensures forall v :: v in memo'[|memo|] <==> Reachable(g.nodes, root.value, v)
    {
      var post, seen := PostOrder.PostOrderSearch(g.nodes, root.value, [], []);
      assert post[0..] == post;
      var s := Elems(post);
      assert ClosedUnder(g.nodes, s) by {
        forall u, nb | u in s && u in g.nodes && nb in g.nodes[u].children ensures nb.id in s {
          var j :| 0 <= j < |post| && post[j] == u;
          assert PostOrder.PostAt(g.nodes, [], seen, post, j);
        }
      }
      forall v | Reachable(g.nodes, root.value, v) ensures v in post {
        ClosedContainsReachable(g.nodes, s, root.value, v);
      }
      memo' := memo + [post];
      assert memo'[|memo|] == post;
    }
  }
}
