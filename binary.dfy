/**
 * The child accessors of binary_tree_node.cpp and the three recursive traversals
 * of binary_tree.cpp.  A traversal records a node and recurses into `child1`,
 * then `child2`, placing the node before, between or after the two; the shared
 * memo list the source appends to becomes the returned sequence.
 */
module BinaryTrees {
  import opened Wrappers
  import opened Sequences
  import opened GraphStore
  import opened Paths
  import Trees

  /** `child1`: the first child entry, or null when there is none. */
  function Child1(n: GraphNode): (r: Option<Neighbor>)
    ensures r.Some? <==> |n.children| > 0
    ensures r.Some? ==> r.value == n.children[0]
  {
    if |n.children| > 0 then Some(n.children[0]) else None
  }

  /** `child2`: the second child entry, or null when there are fewer than two. */
  function Child2(n: GraphNode): (r: Option<Neighbor>)
    ensures r.Some? <==> |n.children| > 1
    ensures r.Some? ==> r.value == n.children[1]
  {
    if |n.children| > 1 then Some(n.children[1]) else None
  }

  /** On a node with at most two children, the two slots hold exactly its children. */
  lemma ChildSlots(n: GraphNode, nb: Neighbor)
    requires |n.children| <= 2
    ensures nb in n.children <==> Child1(n) == Some(nb) || Child2(n) == Some(nb)
  {
    if nb in n.children {
      var i :| 0 <= i < |n.children| && n.children[i] == nb;
    }
  }

  // ---------------------------------------------------------------------------
  // Reach and single parents
  // ---------------------------------------------------------------------------

  /** The nodes `v` reaches, itself included. */
  ghost function Below(adj: Adjacency, v: string): set<string> {
    set u | u in adj && Reachable(adj, v, u)
  }

  /** In an acyclic table a child reaches strictly less than its parent, and not the parent. */
  lemma ChildBelow(adj: Adjacency, v: string, nb: Neighbor)
    requires WellFormed(adj) && !HasCycle(adj) && v in adj && nb in adj[v].children
    ensures nb.id in adj && HasEdge(adj, v, nb.id)
    ensures Below(adj, nb.id) < Below(adj, v) && v !in Below(adj, nb.id)
  {
    ChildMirrored(adj, v, nb);
    var c := nb.id;
    ReachableRefl(adj, v);
    forall u | u in Below(adj, c) ensures u in Below(adj, v) {
      ReachablePrepend(adj, v, c, u);
    }
    if Reachable(adj, c, v) {
      var w :| IsWalk(adj, w) && w[0] == c && w[|w| - 1] == v;
      var cy := [v] + w;
      assert |cy| >= 2 && cy[0] == cy[|cy| - 1];
      assert IsWalk(adj, cy) by {
        forall i | 0 <= i < |cy| - 1 ensures HasEdge(adj, cy[i], cy[i + 1]) {
          if i > 0 {
            assert cy[i] == w[i - 1] && cy[i + 1] == w[i];
          }
        }
      }
      assert false;
    }
  }

  /** A walk to a node other than its start enters that node from a node it also reaches. */
  lemma ReachedThroughParent(adj: Adjacency, a: string, b: string)
    requires Reachable(adj, a, b) && a != b
    ensures exists u :: HasEdge(adj, u, b) && Reachable(adj, a, u)
  {
    var w :| IsWalk(adj, w) && w[0] == a && w[|w| - 1] == b;
    var w' := w[..|w| - 1];
    assert IsWalk(adj, w') && w'[0] == a && w'[|w'| - 1] == w[|w| - 2];
    assert HasEdge(adj, w[|w| - 2], b);
  }

  /** Where no node has two parents, two edges into the same node come from the same node. */
  lemma OnlyParent(adj: Adjacency, u1: string, u2: string, x: string)
    requires WellFormed(adj) && Trees.SingleParents(adj) && x in adj
    requires HasEdge(adj, u1, x) && HasEdge(adj, u2, x)
    ensures u1 == u2
  {
    EdgeBothWays(adj, u1, x);
    EdgeBothWays(adj, u2, x);
    var nb1 :| nb1 in adj[x].parents && nb1.id == u1;
    var nb2 :| nb1 in adj[x].parents && nb2 in adj[x].parents && nb2.id == u2;
    assert nb1 == adj[x].parents[0] && nb2 == adj[x].parents[0];
  }

  /** Where no node has two parents, two walks ending at the same node start on one line. */
  lemma {:induction false} MeetingWalks(adj: Adjacency, wa: seq<string>, wb: seq<string>)
    requires WellFormed(adj) && Trees.SingleParents(adj)
    requires IsWalk(adj, wa) && IsWalk(adj, wb) && wa[|wa| - 1] == wb[|wb| - 1]
    ensures Reachable(adj, wa[0], wb[0]) || Reachable(adj, wb[0], wa[0])
    decreases |wa| + |wb|
  {
    if |wa| == 1 {
      assert IsWalk(adj, wb) && wb[0] == wb[0] && wb[|wb| - 1] == wa[0];
    } else if |wb| == 1 {
      assert IsWalk(adj, wa) && wa[0] == wa[0] && wa[|wa| - 1] == wb[0];
    } else {
      var x := wa[|wa| - 1];
      assert HasEdge(adj, wa[|wa| - 2], x) && HasEdge(adj, wb[|wb| - 2], x);
      OnlyParent(adj, wa[|wa| - 2], wb[|wb| - 2], x);
      var wa', wb' := wa[..|wa| - 1], wb[..|wb| - 1];
      assert IsWalk(adj, wa') && wa'[0] == wa[0];
      assert IsWalk(adj, wb') && wb'[0] == wb[0];
      MeetingWalks(adj, wa', wb');
    }
  }

  /**
   * Where no node has two parents and there is no cycle, what two different children
   * of a node reach is disjoint.
   */
  lemma SubtreesDisjoint(adj: Adjacency, v: string, n1: Neighbor, n2: Neighbor)
    requires WellFormed(adj) && !HasCycle(adj) && Trees.SingleParents(adj) && v in adj
    requires n1 in adj[v].children && n2 in adj[v].children && n1.id != n2.id
    ensures Below(adj, n1.id) !! Below(adj, n2.id)
  {
    ChildBelow(adj, v, n1);
    ChildBelow(adj, v, n2);
    forall x | x in Below(adj, n1.id) && x in Below(adj, n2.id) ensures false {
      var wa :| IsWalk(adj, wa) && wa[0] == n1.id && wa[|wa| - 1] == x;
      var wb :| IsWalk(adj, wb) && wb[0] == n2.id && wb[|wb| - 1] == x;
      MeetingWalks(adj, wa, wb);
      if Reachable(adj, n1.id, n2.id) {
        ReachedThroughParent(adj, n1.id, n2.id);
        var u :| HasEdge(adj, u, n2.id) && Reachable(adj, n1.id, u);
        OnlyParent(adj, u, v, n2.id);
        assert false;
      } else {
        ReachedThroughParent(adj, n2.id, n1.id);
        var u :| HasEdge(adj, u, n1.id) && Reachable(adj, n2.id, u);
        OnlyParent(adj, u, v, n1.id);
        assert false;
      }
    }
  }

  // ---------------------------------------------------------------------------
  // Traversals
  // ---------------------------------------------------------------------------

  /** Where a traversal records the node relative to its two subtrees. */
  datatype Order = PreOrder | InOrder | PostOrder

  /** The node placed before, between or after the two subtree listings. */
  function Place(order: Order, v: string, left: seq<string>, right: seq<string>): (r: seq<string>)
    ensures multiset(r) == multiset{v} + multiset(left) + multiset(right)
    ensures order == PreOrder ==> r[0] == v
    ensures order == PostOrder ==> r[|r| - 1] == v
  {
    match order
    case PreOrder => [v] + left + right
    case InOrder => left + [v] + right
    case PostOrder => left + right + [v]
  }

  /** Placing a new node between two duplicate-free, disjoint listings duplicates nothing. */
  lemma PlaceDistinct(order: Order, v: string, left: seq<string>, right: seq<string>)
    requires Distinct(left) && Distinct(right) && v !in left && v !in right
    requires forall x :: x in left ==> x !in right
    ensures Distinct(Place(order, v, left, right))
  {
    DistinctAppend(left, right);
    match order
    case PreOrder =>
      DistinctAppend([v], left);
      DistinctAppend([v] + left, right);
    case InOrder =>
      DistinctAppend(left, [v]);
      DistinctAppend(left + [v], right);
    case PostOrder =>
      DistinctAppend(left + right, [v]);
  }

  /**
   * `pre_order_traversal`, `in_order_traversal` and `post_order_traversal`: the
   * traversal below `child1`, then the one below `child2`, with `v` placed before
   * both, between them, or after both.  The source recurses without end on a
   * cycle, so the table must be acyclic.
   */
  function Traversal(adj: Adjacency, v: string, order: Order): (r: seq<string>)
    requires WellFormed(adj) && !HasCycle(adj) && v in adj
    ensures v in r
    ensures order == PreOrder ==> r[0] == v
    ensures order == PostOrder ==> r[|r| - 1] == v
    decreases Below(adj, v), 1
  {
    Place(order, v, SlotTraversal(adj, v, Child1(adj[v]), order), SlotTraversal(adj, v, Child2(adj[v]), order))
  }

  /** The traversal below the child in one slot of `v`, or nothing for an empty slot. */
  function SlotTraversal(adj: Adjacency, v: string, slot: Option<Neighbor>, order: Order): (r: seq<string>)
    requires WellFormed(adj) && !HasCycle(adj) && v in adj
    requires slot.Some? ==> slot.value in adj[v].children
    decreases Below(adj, v), 0
  {
    match slot
    case None => []
    case Some(nb) =>
      ChildBelow(adj, v, nb);
      Traversal(adj, nb.id, order)
  }

  /** Every node a traversal lists is one `v` reaches. */
  lemma {:induction false} TraversalWithin(adj: Adjacency, v: string, order: Order, x: string)
    requires WellFormed(adj) && !HasCycle(adj) && v in adj && x in Traversal(adj, v, order)
    ensures x in Below(adj, v)
    decreases Below(adj, v)
  {
    ReachableRefl(adj, v);
    var c1, c2 := Child1(adj[v]), Child2(adj[v]);
    assert x in multiset(Traversal(adj, v, order));
    if x in SlotTraversal(adj, v, c1, order) {
      ChildBelow(adj, v, c1.value);
      TraversalWithin(adj, c1.value.id, order, x);
    } else if x in SlotTraversal(adj, v, c2, order) {
      ChildBelow(adj, v, c2.value);
      TraversalWithin(adj, c2.value.id, order, x);
    }
  }

  /** Where no node has more than two children, a traversal lists every node `v` reaches. */
  lemma {:induction false} TraversalCovers(adj: Adjacency, v: string, order: Order, x: string)
    requires WellFormed(adj) && !HasCycle(adj) && Trees.AtMostTwoChildren(adj) && v in adj
    requires Reachable(adj, v, x)
    ensures x in Traversal(adj, v, order)
    decreases Below(adj, v)
  {
    var w :| IsWalk(adj, w) && w[0] == v && w[|w| - 1] == x;
    if |w| > 1 {
      assert HasEdge(adj, v, w[1]);
      var nb :| nb in adj[v].children && nb.id == w[1];
      ChildBelow(adj, v, nb);
      assert IsWalk(adj, w[1..]) && w[1..][0] == nb.id && w[1..][|w[1..]| - 1] == x;
      TraversalCovers(adj, nb.id, order, x);
      SlotListed(adj, v, nb, order, x);
    }
  }

  /** What the traversal below a child of `v` lists, the traversal from `v` lists too. */
  lemma SlotListed(adj: Adjacency, v: string, nb: Neighbor, order: Order, x: string)
    requires WellFormed(adj) && !HasCycle(adj) && Trees.AtMostTwoChildren(adj) && v in adj
    requires nb in adj[v].children && nb.id in adj && x in Traversal(adj, nb.id, order)
    ensures x in Traversal(adj, v, order)
  {
    ChildSlots(adj[v], nb);
    var c1, c2 := Child1(adj[v]), Child2(adj[v]);
    var left, right := SlotTraversal(adj, v, c1, order), SlotTraversal(adj, v, c2, order);
    assert x in left || x in right;
    assert x in multiset(Place(order, v, left, right));
  }

  /** The three orders list the same nodes, each as often: they are permutations of each other. */
  lemma {:induction false} TraversalsPermute(adj: Adjacency, v: string, o1: Order, o2: Order)
    requires WellFormed(adj) && !HasCycle(adj) && v in adj
    ensures multiset(Traversal(adj, v, o1)) == multiset(Traversal(adj, v, o2))
    decreases Below(adj, v)
  {
    var c1, c2 := Child1(adj[v]), Child2(adj[v]);
    if c1.Some? {
      ChildBelow(adj, v, c1.value);
      TraversalsPermute(adj, c1.value.id, o1, o2);
    }
    if c2.Some? {
      ChildBelow(adj, v, c2.value);
      TraversalsPermute(adj, c2.value.id, o1, o2);
    }
  }

  /** Where no node has two parents, a traversal lists no node twice. */
  lemma {:induction false} TraversalDistinct(adj: Adjacency, v: string, order: Order)
    requires WellFormed(adj) && !HasCycle(adj) && Trees.SingleParents(adj) && v in adj
    ensures Distinct(Traversal(adj, v, order))
    decreases Below(adj, v), 1
  {
    var c1, c2 := Child1(adj[v]), Child2(adj[v]);
    var left, right := SlotTraversal(adj, v, c1, order), SlotTraversal(adj, v, c2, order);
    SlotDistinct(adj, v, c1, order);
    SlotDistinct(adj, v, c2, order);
    if c1.Some? && c2.Some? {
      ListsDistinct(adj, v);
      SubtreesDisjoint(adj, v, c1.value, c2.value);
    }
    PlaceDistinct(order, v, left, right);
  }

  /** The listing below one slot repeats nothing, omits `v`, and stays below the slot's child. */
  lemma {:induction false} SlotDistinct(adj: Adjacency, v: string, slot: Option<Neighbor>, order: Order)
    requires WellFormed(adj) && !HasCycle(adj) && Trees.SingleParents(adj) && v in adj
    requires slot.Some? ==> slot.value in adj[v].children
    ensures Distinct(SlotTraversal(adj, v, slot, order)) && v !in SlotTraversal(adj, v, slot, order)
    ensures slot.Some? ==> forall x :: x in SlotTraversal(adj, v, slot, order) ==> x in Below(adj, slot.value.id)
    decreases Below(adj, v), 0
  {
    if slot.Some? {
      ChildBelow(adj, v, slot.value);
      TraversalDistinct(adj, slot.value.id, order);
      forall x | x in SlotTraversal(adj, v, slot, order) ensures x in Below(adj, slot.value.id) {
        TraversalWithin(adj, slot.value.id, order, x);
      }
    }
  }
}
