/**
 * The `BinarySearchTree` of binary_search_tree.cpp and its nodes'
 * `lchild`/`rchild` of binary_search_tree_node.cpp.  A search tree is a binary
 * tree whose nodes carry a number, `data`; `insert` creates the node first and
 * then walks down from the root, left on a strictly smaller number and right
 * otherwise, and links the node below the first node that has no child on that
 * side.  The sides are not slots: `lchild` and `rchild` pick, among the two child
 * slots, one whose number lies on the right side of the node's, and `lchild`
 * tests the number in the first slot even when it returns the second.  Numbers
 * are integers here (`double` in the source).
 */
module SearchTrees {
  import opened Wrappers
  import opened Sequences
  import opened GraphStore
  import opened Paths
  import Graphs
  import Trees
  import opened BinaryTrees

  /** The number of every node. */
  type Data = map<string, int>

  /** Every node has a number. */
  predicate Numbered(adj: Adjacency, data: Data) {
    forall v :: v in adj ==> v in data
  }

  // ---------------------------------------------------------------------------
  // lchild and rchild
  // ---------------------------------------------------------------------------

  /**
   * `lchild`: the first slot when its number is below `v`'s.  The test for the
   * second slot looks at the first slot's number again, so it can only succeed
   * when the first test did, and the second slot is never returned.
   */
  function LChild(adj: Adjacency, data: Data, v: string): (r: Option<Neighbor>)
    requires WellFormed(adj) && Numbered(adj, data) && v in adj
    ensures var c := adj[v].children;
      r.Some? <==> |c| > 0 && ChildNumber(adj, data, v, c[0]) < data[v]
    ensures r.Some? ==> r.value == adj[v].children[0]
  {
    var c1, c2 := Child1(adj[v]), Child2(adj[v]);
    if c1.Some? && ChildNumber(adj, data, v, c1.value) < data[v] then c1
    else if c2.Some? && ChildNumber(adj, data, v, c1.value) < data[v] then c2
    else None
  }

  /**
   * `rchild`: the first slot when its number is at least `v`'s, otherwise the
   * second slot when its number is.
   */
  function RChild(adj: Adjacency, data: Data, v: string): (r: Option<Neighbor>)
    requires WellFormed(adj) && Numbered(adj, data) && v in adj
    ensures var c := adj[v].children;
      r.None? <==> ((|c| > 0 ==> ChildNumber(adj, data, v, c[0]) < data[v])
                 && (|c| > 1 ==> ChildNumber(adj, data, v, c[1]) < data[v]))
    ensures var c := adj[v].children;
      r.Some? ==> (|c| > 0 &&
        if ChildNumber(adj, data, v, c[0]) >= data[v] then r.value == c[0]
        else |c| > 1 && r.value == c[1] && ChildNumber(adj, data, v, c[1]) >= data[v])
  {
    var c1, c2 := Child1(adj[v]), Child2(adj[v]);
    if c1.Some? && ChildNumber(adj, data, v, c1.value) >= data[v] then c1
    else if c2.Some? && ChildNumber(adj, data, v, c2.value) >= data[v] then c2
    else None
  }

  /** The number of a child of `v`. */
  function ChildNumber(adj: Adjacency, data: Data, v: string, nb: Neighbor): (n: int)
    requires WellFormed(adj) && Numbered(adj, data) && v in adj && nb in adj[v].children
    ensures nb.id in adj && n == data[nb.id]
  {
    ChildMirrored(adj, v, nb);
    data[nb.id]
  }

  // ---------------------------------------------------------------------------
  // Insertion
  // ---------------------------------------------------------------------------

  /**
   * The node below which `insert` links a node numbered `d`, walking down from
   * `curr`: left on a number below `curr`'s, right otherwise, until that side is
   * empty.  The source loops forever on a cycle, so the table must be acyclic.
   */
  function Descend(adj: Adjacency, data: Data, curr: string, d: int): (p: string)
    requires WellFormed(adj) && !HasCycle(adj) && Numbered(adj, data) && curr in adj
    ensures p in adj && Reachable(adj, curr, p)
    ensures if d < data[p] then LChild(adj, data, p).None? else RChild(adj, data, p).None?
    decreases Below(adj, curr)
  {
    ReachableRefl(adj, curr);
    var next := if d < data[curr] then LChild(adj, data, curr) else RChild(adj, data, curr);
    match next
    case None => curr
    case Some(nb) =>
      ChildBelow(adj, curr, nb);
      var p := Descend(adj, data, nb.id, d);
      ReachablePrepend(adj, curr, nb.id, p);
      p
  }

  /** Creating a node without edges closes no cycle. */
  lemma NewNodeAcyclic(adj: Adjacency, id: string)
    requires WellFormed(adj) && !HasCycle(adj)
    ensures WellFormed(Graphs.WithNode(adj, id)) && !HasCycle(Graphs.WithNode(adj, id))
  {
    var r := Graphs.WithNode(adj, id);
    Graphs.WithNodeWellFormed(adj, id);
    if HasCycle(r) {
      var cy :| IsWalk(r, cy) && |cy| >= 2 && cy[0] == cy[|cy| - 1];
      forall i | 0 <= i < |cy| - 1 ensures HasEdge(adj, cy[i], cy[i + 1]) {
        assert HasEdge(r, cy[i], cy[i + 1]);
      }
      forall i | 0 <= i < |cy| ensures cy[i] in adj {
        if i < |cy| - 1 {
          assert HasEdge(adj, cy[i], cy[i + 1]);
        } else {
          assert HasEdge(adj, cy[i - 1], cy[i]);
          ChildOf(adj, cy[i - 1], cy[i]);
        }
      }
      assert IsWalk(adj, cy);
    }
  }

  /** An edge of a well-formed table ends in an existing node. */
  lemma ChildOf(adj: Adjacency, u: string, v: string)
    requires WellFormed(adj) && HasEdge(adj, u, v)
    ensures v in adj
  {
    var nb :| nb in adj[u].children && nb.id == v;
    ChildMirrored(adj, u, nb);
  }

  // ---------------------------------------------------------------------------
  // Checks
  // ---------------------------------------------------------------------------

  /**
   * `is_valid_binary_search_tree_edge`: a child numbered below the parent is
   * refused when the parent has a left child, and one numbered at least the
   * parent's when it has a right child.
   */
  function IsValidBinarySearchTreeEdge(adj: Adjacency, data: Data, parent: string, child: string): (r: Outcome<GraphError>)
    requires WellFormed(adj) && Numbered(adj, data) && parent in adj && child in adj
    ensures r.Pass? <==> ((data[child] < data[parent] ==> LChild(adj, data, parent).None?)
                         && (data[child] >= data[parent] ==> RChild(adj, data, parent).None?))
    ensures r == Fail(SecondLeftChild) <==> data[child] < data[parent] && LChild(adj, data, parent).Some?
    ensures r == Fail(SecondRightChild) <==> data[child] >= data[parent] && RChild(adj, data, parent).Some?
  {
    if LChild(adj, data, parent).Some? && data[child] < data[parent] then Fail(SecondLeftChild)
    else if RChild(adj, data, parent).Some? && data[child] >= data[parent] then Fail(SecondRightChild)
    else Pass
  }

  /** Every adjacent pair of `s` is strictly increasing in number. */
  ghost predicate Increasing(data: Data, s: seq<string>)
    requires forall x :: x in s ==> x in data
  {
    forall i :: 0 <= i < |s| - 1 ==> data[s[i]] < data[s[i + 1]]
  }

  /** Numbers increasing pair by pair increase along the whole sequence. */
  lemma {:induction false} IncreasingPairwise(data: Data, s: seq<string>, i: int, j: int)
    requires forall x :: x in s ==> x in data
    requires Increasing(data, s) && 0 <= i < j < |s|
    ensures data[s[i]] < data[s[j]]
    decreases j - i
  {
    if i + 1 < j {
      IncreasingPairwise(data, s, i + 1, j);
    }
  }

  /** Every node an in-order listing from `v` names has a number. */
  lemma ListedNumbered(adj: Adjacency, data: Data, v: string)
    requires WellFormed(adj) && !HasCycle(adj) && Numbered(adj, data) && v in adj
    ensures forall x :: x in Traversal(adj, v, InOrder) ==> x in data
  {
    forall x | x in Traversal(adj, v, InOrder) ensures x in data {
      TraversalWithin(adj, v, InOrder, x);
    }
  }

  /**
   * Two nodes with equal numbers below the root make the sortedness check fail:
   * the in-order listing holds both, and a listing that passes strictly
   * increases.  `insert` sends a tie to the right, so it builds such trees.
   */
  lemma EqualNumbersRejected(adj: Adjacency, data: Data, root: string, u: string, v: string)
    requires WellFormed(adj) && !HasCycle(adj) && Trees.AtMostTwoChildren(adj) && Numbered(adj, data)
    requires root in adj && Reachable(adj, root, u) && Reachable(adj, root, v)
    requires u != v && data[u] == data[v]
    ensures forall x :: x in Traversal(adj, root, InOrder) ==> x in data
    ensures !Increasing(data, Traversal(adj, root, InOrder))
  {
    ListedNumbered(adj, data, root);
    var s := Traversal(adj, root, InOrder);
    TraversalCovers(adj, root, InOrder, u);
    TraversalCovers(adj, root, InOrder, v);
    var i :| 0 <= i < |s| && s[i] == u;
    var j :| 0 <= j < |s| && s[j] == v;
    if Increasing(data, s) {
      if i < j {
        IncreasingPairwise(data, s, i, j);
      } else {
        IncreasingPairwise(data, s, j, i);
      }
    }
  }

  // ---------------------------------------------------------------------------
  // BinarySearchTree
  // ---------------------------------------------------------------------------

  class SearchTree {
    const t: Trees.Tree
    var data: Data

    /** A valid binary tree whose nodes, and only they, have numbers. */
    ghost predicate Valid()
      reads this, t, t.g
    {
      t.Valid() && t.binary && data.Keys == t.g.nodes.Keys
    }

    constructor(weighted: bool)
      ensures Valid() && fresh(t) && fresh(t.g)
      ensures t.g.weighted == weighted && t.g.nodes == map[] && t.g.ids == [] && t.root == None && data == map[]
    {
      t := new Trees.Tree(weighted, true);
      data := map[];
    }

    /**
     * `insert(id, data, weight)`: a weighted tree ignores a negative weight.
     * Otherwise the node is created; a tree without a root takes it as root;
     * else it is linked below the node `Descend` reaches, by `make_edge`, which
     * in an unweighted tree refuses any weight but `NoWeight` and leaves the new
     * node unlinked.  The source does not look for an existing `id` (it would
     * replace that node and count it twice), so `id` must be new; its loop ends
     * only on an acyclic table.
     */
    method Insert(id: string, d: int, w: int) returns (r: Outcome<GraphError>)
      requires Valid() && id !in t.g.nodes && !HasCycle(t.g.nodes)
      modifies this, t, t.g
      ensures Valid() && !HasCycle(t.g.nodes)
      ensures t.g.weighted && w < 0 ==>
        r == Pass && t.g.nodes == old(t.g.nodes) && t.g.ids == old(t.g.ids) && data == old(data) && t.root == old(t.root)
      ensures !(t.g.weighted && w < 0) ==>
        && data == old(data)[id := d] && t.g.ids == old(t.g.ids) + [id]
        && (old(t.root).None? ==> r == Pass && t.root == Some(id) && t.g.nodes == Graphs.WithNode(old(t.g.nodes), id))
      ensures !(t.g.weighted && w < 0) && old(t.root).Some? ==>
        && t.root == old(t.root)
        && var p := Descend(old(t.g.nodes), data, t.root.value, d);
        && r == (if !t.g.weighted && w != NoWeight then Fail(WeightedInUnweighted) else Pass)
        && t.g.nodes == if r.Fail? then Graphs.WithNode(old(t.g.nodes), id) else Trees.WithLeaf(old(t.g.nodes), p, id, w)
    {
      if t.g.weighted && w < 0 {
        return Pass;
      }
      ghost var adj0 := t.g.nodes;
      NewNodeAcyclic(adj0, id);
      t.g.CreateNode(id);
      data := data[id := d];
      if t.root.None? {
        t.root := Some(id);
        return Pass;
      }
      r := Link(id, d, w, adj0);
    }

    /**
     * The descent of `insert`, after the node is created: from the root, left on
     * a smaller number and right otherwise, until that side is empty; then the
     * edge from there to the new node.
     */
    method Link(id: string, d: int, w: int, ghost adj0: Adjacency) returns (r: Outcome<GraphError>)
      requires Valid() && t.root.Some? && t.root.value in adj0 && id !in adj0
      requires WellFormed(adj0) && !HasCycle(adj0) && !HasCycle(t.g.nodes)
      requires t.g.nodes == Graphs.WithNode(adj0, id) && data.Keys == adj0.Keys + {id} && data[id] == d
      requires !(t.g.weighted && w < 0)
      modifies t.g
      ensures Valid() && !HasCycle(t.g.nodes) && t.g.ids == old(t.g.ids)
      ensures var p := Descend(adj0, data, t.root.value, d);
        && r == (if !t.g.weighted && w != NoWeight then Fail(WeightedInUnweighted) else Pass)
        && t.g.nodes == if r.Fail? then old(t.g.nodes) else Trees.WithLeaf(adj0, p, id, w)
    {
      ghost var p := Descend(adj0, data, t.root.value, d);
      var curr := t.root.value;
      while true
        invariant unchanged(t.g)
        invariant curr in adj0 && Descend(adj0, data, curr, d) == p
        decreases Below(adj0, curr)
      {
        assert t.g.nodes[curr] == adj0[curr];
        var next := if d < data[curr] then LChild(t.g.nodes, data, curr) else RChild(t.g.nodes, data, curr);
        assert next == if d < data[curr] then LChild(adj0, data, curr) else RChild(adj0, data, curr);
        if next.None? {
          r := t.g.MakeEdge(curr, id, w);
          if r.Pass? {
            Trees.LeafAcyclic(adj0, curr, id, w);
          }
          return;
        }
        ChildBelow(adj0, curr, next.value);
        curr := next.value.id;
      }
    }

    /**
     * `validate_binary_search_tree`: the in-order listing from the root must
     * strictly increase in number; the first adjacent pair that does not fails
     * the check.
     */
    method ValidateOrder() returns (r: Outcome<GraphError>)
      requires Valid() && t.root.Some? && !HasCycle(t.g.nodes)
      ensures forall x :: x in Traversal(t.g.nodes, t.root.value, InOrder) ==> x in data
      ensures r.Pass? <==> Increasing(data, Traversal(t.g.nodes, t.root.value, InOrder))
      ensures r.Fail? ==> r.error == NotSorted
    {
      ListedNumbered(t.g.nodes, data, t.root.value);
      var memo := Traversal(t.g.nodes, t.root.value, InOrder);
      var isSorted := true;
      var i := 0;
      while i < |memo|
        invariant 0 <= i <= |memo|
        invariant isSorted
        invariant forall j :: 0 <= j < i && j + 1 < |memo| ==> data[memo[j]] < data[memo[j + 1]]
      {
        if i + 1 < |memo| && data[memo[i]] >= data[memo[i + 1]] {
          isSorted := false;
          break;
        }
        i := i + 1;
      }
      r := if isSorted then Pass else Fail(NotSorted);
    }

    /**
     * `validate_graph`: `validate_tree` first, which records the root; then the
     * order check.  The source skips the order check when there is no root, which
     * cannot happen once `validate_tree` has passed.
     */
    method ValidateGraph(keys: seq<string>) returns (r: Outcome<GraphError>)
      requires Valid() && forall v :: v in keys <==> v in t.g.nodes
      modifies t
      ensures Valid()
      ensures r.Pass? <==> (&& !HasCycle(t.g.nodes) && t.root.Some? && Trees.RootOf(t.g.nodes, t.root.value)
                            && (forall x :: x in Traversal(t.g.nodes, t.root.value, InOrder) ==> x in data)
                            && Increasing(data, Traversal(t.g.nodes, t.root.value, InOrder)))
      ensures r.Fail? ==> r.error in {Cycle, Disconnected, NotSorted}
      ensures r == Fail(Cycle) <==> HasCycle(t.g.nodes) || t.g.nodes == map[]
      ensures r == Fail(Disconnected) <==>
        !HasCycle(t.g.nodes) && t.g.nodes != map[] && !exists v :: Trees.RootOf(t.g.nodes, v)
      ensures r == Fail(Cycle) || r == Fail(Disconnected) ==> t.root == old(t.root)
      ensures r == Fail(NotSorted) <==>
        && !HasCycle(t.g.nodes) && t.root.Some? && Trees.RootOf(t.g.nodes, t.root.value)
        && (forall x :: x in Traversal(t.g.nodes, t.root.value, InOrder) ==> x in data)
        && !Increasing(data, Traversal(t.g.nodes, t.root.value, InOrder))
    {
      r := t.ValidateTree(keys);
      if r.Fail? {
        return;
      }
      r := ValidateOrder();
    }
  }

  // ---------------------------------------------------------------------------
  // A third child
  // ---------------------------------------------------------------------------

  /**
   * A root whose first slot holds a number not below its own, and whose second
   * slot is filled too, gets a third child from `insert` of any smaller number:
   * the descent stops at the root because `lchild` looks at the first slot.
   */
  lemma ThirdChildBelow(adj: Adjacency, data: Data, rt: string, id: string, d: int, w: int)
    requires WellFormed(adj) && !HasCycle(adj) && Numbered(adj, data) && rt in adj && id !in adj
    requires |adj[rt].children| == 2 && ChildNumber(adj, data, rt, adj[rt].children[0]) >= data[rt] && d < data[rt]
    ensures Descend(adj, data, rt, d) == rt
    ensures |Trees.WithLeaf(adj, rt, id, w)[rt].children| == 3
  {
    Trees.LeafShape(adj, rt, id, w);
    var a1 := Graphs.WithNode(adj, id);
    Graphs.WithNodeWellFormed(adj, id);
    assert a1[rt] == adj[rt];
    assert !HasEdge(a1, rt, id) by {
      if HasEdge(a1, rt, id) {
        var nb :| nb in adj[rt].children && nb.id == id;
        ChildMirrored(adj, rt, nb);
      }
    }
    AddEdgeShape(a1, rt, id, w);
  }

  /** The table of a root "r" given the children "x" and then "y", both unweighted. */
  function TwoChildren(): Adjacency {
    Trees.WithLeaf(Trees.WithLeaf(map["r" := GraphNode([], [])], "r", "x", NoWeight), "r", "y", NoWeight)
  }

  /** A table without edges has no cycle. */
  lemma EdgelessAcyclic(adj: Adjacency)
    requires forall v :: v in adj ==> adj[v].children == []
    ensures !HasCycle(adj)
  {
    if HasCycle(adj) {
      var w :| IsWalk(adj, w) && |w| >= 2 && w[0] == w[|w| - 1];
      FirstEdge(adj, w);
      assert false;
    }
  }

  /** A walk of two or more nodes starts with an edge. */
  lemma FirstEdge(adj: Adjacency, w: seq<string>)
    requires IsWalk(adj, w) && |w| >= 2
    ensures HasEdge(adj, w[0], w[1])
  {
  }

  /** The table of a root "r" given the child "x". */
  function OneChild(): Adjacency {
    Trees.WithLeaf(map["r" := GraphNode([], [])], "r", "x", NoWeight)
  }

  /** `OneChild` is an acyclic binary tree whose root lists "x". */
  lemma OneChildShape()
    ensures WellFormed(OneChild()) && !HasCycle(OneChild()) && Trees.AtMostTwoChildren(OneChild())
    ensures OneChild().Keys == {"r", "x"} && OneChild()["r"].children == [Neighbor("x", NoWeight)]
  {
    var a0 := map["r" := GraphNode([], [])];
    assert WellFormed(a0);
    assert Trees.AtMostTwoChildren(a0);
    EdgelessAcyclic(a0);
    Trees.LeafShape(a0, "r", "x", NoWeight);
    Trees.LeafAcyclic(a0, "r", "x", NoWeight);
    AddEdgeShape(Graphs.WithNode(a0, "x"), "r", "x", NoWeight);
  }

  /** `TwoChildren` is an acyclic binary tree whose root lists "x" before "y". */
  lemma TwoChildrenShape()
    ensures WellFormed(TwoChildren()) && !HasCycle(TwoChildren()) && Trees.AtMostTwoChildren(TwoChildren())
    ensures TwoChildren().Keys == {"r", "x", "y"}
    ensures TwoChildren()["r"].children == [Neighbor("x", NoWeight), Neighbor("y", NoWeight)]
  {
    OneChildShape();
    Trees.LeafShape(OneChild(), "r", "y", NoWeight);
    Trees.LeafAcyclic(OneChild(), "r", "y", NoWeight);
    SecondChild();
  }

  /** Linking "y" below the root of `OneChild` appends it after "x". */
  lemma SecondChild()
    requires WellFormed(OneChild()) && OneChild().Keys == {"r", "x"}
    requires OneChild()["r"].children == [Neighbor("x", NoWeight)]
    ensures TwoChildren()["r"].children == [Neighbor("x", NoWeight), Neighbor("y", NoWeight)]
  {
    var a1 := OneChild();
    var b := Graphs.WithNode(a1, "y");
    Graphs.WithNodeWellFormed(a1, "y");
    assert b["r"] == a1["r"];
    assert !HasEdge(b, "r", "y");
    AddEdgeShape(b, "r", "y", NoWeight);
  }

  /**
   * Inserting 5 as "r", 7 as "x" and 3 as "y" gives `TwoChildren`: 7 is not below
   * 5 and goes right into the first slot; 3 goes left, and `lchild` of "r" looks
   * at 7 and finds no left child, so 3 takes the second slot.  Inserting 2 as "z"
   * then walks left, `lchild` again finds nothing, and "r" gets a third child.
   */
  lemma ThirdChild()
    ensures var data := map["r" := 5, "x" := 7, "y" := 3, "z" := 2];
      && WellFormed(TwoChildren()) && !HasCycle(TwoChildren()) && Numbered(TwoChildren(), data)
      && Descend(TwoChildren(), data, "r", 2) == "r"
      && |Trees.WithLeaf(TwoChildren(), "r", "z", NoWeight)["r"].children| == 3
  {
    TwoChildrenShape();
    var data := map["r" := 5, "x" := 7, "y" := 3, "z" := 2];
    ThirdChildBelow(TwoChildren(), data, "r", "z", 2, NoWeight);
  }
}
