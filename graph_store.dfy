/**
 * The id-keyed node table of `Graph` (graph.cpp) and the edge operations on it.
 *
 * A node is stored under its id; its `children` list holds the outgoing edges and
 * its `parents` list the incoming ones, each entry a `Neighbor` naming the other
 * endpoint and the edge weight.  The source's `Neighbor` points at the other node's
 * id field, so renaming a node renames every entry that refers to it; here the
 * entry carries the id itself and `Swapped` performs that renaming explicitly.
 */
module GraphStore {
  import opened Wrappers
  import opened Sequences

  /** The weight that marks an edge of an unweighted graph. */
  const NoWeight: int := -1

  datatype Neighbor = Neighbor(id: string, weight: int)

  datatype GraphNode = GraphNode(children: seq<Neighbor>, parents: seq<Neighbor>)

  /** The `nodes` table: node id to node. */
  type Adjacency = map<string, GraphNode>

  /** The exceptions the graph, tree and search-tree layers throw. */
  datatype GraphError =
    | WeightedInUnweighted
    | UnweightedInWeighted
    | ParentMissing
    | ChildMissing
    | ChildExists
    | ParentFull
    | ChildHasParent
    | SecondLeftChild
    | SecondRightChild
    | Cycle
    | Disconnected
    | NotSorted

  // ---------------------------------------------------------------------------
  // Adjacency lists
  // ---------------------------------------------------------------------------

  /** `contains_id`: some entry of `ns` names `id`. */
  predicate ContainsId(ns: seq<Neighbor>, id: string) {
    exists nb :: nb in ns && nb.id == id
  }

  /** No two entries of an adjacency list name the same node. */
  ghost predicate DistinctIds(ns: seq<Neighbor>) {
    forall i, j :: 0 <= i < j < |ns| ==> ns[i].id != ns[j].id
  }

  /** `remove_id`: `ns` without its entries naming `id`, the rest in order. */
  function RemoveId(ns: seq<Neighbor>, id: string): (r: seq<Neighbor>)
    ensures forall nb :: nb in r <==> nb in ns && nb.id != id
    ensures !ContainsId(r, id)
  {
    if ns == [] then []
    else if ns[0].id == id then RemoveId(ns[1..], id)
    else [ns[0]] + RemoveId(ns[1..], id)
  }

  lemma {:induction false} RemoveIdAbsent(ns: seq<Neighbor>, id: string)
    requires !ContainsId(ns, id)
    ensures RemoveId(ns, id) == ns
  {
    if ns != [] {
      assert ns[0] in ns;
      assert !ContainsId(ns[1..], id) by {
        forall nb | nb in ns[1..] ensures nb.id != id {
          assert nb in ns;
        }
      }
      RemoveIdAbsent(ns[1..], id);
    }
  }

  /** Removing entries never lengthens a list. */
  lemma {:induction false} RemoveIdShorter(ns: seq<Neighbor>, id: string)
    ensures |RemoveId(ns, id)| <= |ns|
  {
    if ns != [] {
      RemoveIdShorter(ns[1..], id);
    }
  }

  lemma {:induction false} RemoveIdDistinct(ns: seq<Neighbor>, id: string)
    requires DistinctIds(ns)
    ensures DistinctIds(RemoveId(ns, id))
  {
    if ns != [] {
      var tail := ns[1..];
      assert DistinctIds(tail) by {
        forall i, j | 0 <= i < j < |tail| ensures tail[i].id != tail[j].id {
          assert tail[i] == ns[i + 1] && tail[j] == ns[j + 1];
        }
      }
      RemoveIdDistinct(tail, id);
      if ns[0].id != id {
        var rest := RemoveId(tail, id);
        var r := [ns[0]] + rest;
        forall i, j | 0 <= i < j < |r| ensures r[i].id != r[j].id {
          if i == 0 {
            assert r[j] in rest;
            assert r[j] in tail;
            var k :| 0 <= k < |tail| && tail[k] == r[j];
            assert tail[k] == ns[k + 1];
          } else {
            assert r[i] == rest[i - 1] && r[j] == rest[j - 1];
          }
        }
      }
    }
  }

  /** Removing the id of the first entry of a duplicate-free list drops exactly that entry. */
  lemma RemoveIdHead(ns: seq<Neighbor>)
    requires ns != [] && DistinctIds(ns)
    ensures RemoveId(ns, ns[0].id) == ns[1..]
  {
    assert !ContainsId(ns[1..], ns[0].id) by {
      forall nb | nb in ns[1..] ensures nb.id != ns[0].id {
        var k :| 0 <= k < |ns[1..]| && ns[1..][k] == nb;
        assert ns[1..][k] == ns[k + 1];
      }
    }
    RemoveIdAbsent(ns[1..], ns[0].id);
  }

  /** Appending an entry for a node the list does not name keeps the ids distinct. */
  lemma AppendDistinct(ns: seq<Neighbor>, nb: Neighbor)
    requires DistinctIds(ns) && !ContainsId(ns, nb.id)
    ensures DistinctIds(ns + [nb])
  {
    var r := ns + [nb];
    forall i, j | 0 <= i < j < |r| ensures r[i].id != r[j].id {
      if j == |ns| {
        assert r[i] in ns;
      }
    }
  }

  /** `get_id`: the first entry of `ns` naming `id`, or null. */
  function GetId(ns: seq<Neighbor>, id: string): (r: Option<Neighbor>)
    ensures r.Some? <==> ContainsId(ns, id)
    ensures r.Some? ==> r.value in ns && r.value.id == id
  {
    if ns == [] then None
    else if ns[0].id == id then Some(ns[0])
    else GetId(ns[1..], id)
  }

  /** In a list that names each node once, `get_id` finds the one entry naming it. */
  lemma GetIdDistinct(ns: seq<Neighbor>, nb: Neighbor)
    requires DistinctIds(ns) && nb in ns
    ensures GetId(ns, nb.id) == Some(nb)
  {
    var found := GetId(ns, nb.id).value;
    var i :| 0 <= i < |ns| && ns[i] == found;
    var j :| 0 <= j < |ns| && ns[j] == nb;
    if i < j {
      assert ns[i].id != ns[j].id;
    } else if j < i {
      assert ns[j].id != ns[i].id;
    }
  }

  // ---------------------------------------------------------------------------
  // The well-formedness invariant
  // ---------------------------------------------------------------------------

  /** There is an edge `u -> v`: `u` exists and lists `v` among its children. */
  predicate HasEdge(adj: Adjacency, u: string, v: string) {
    u in adj && ContainsId(adj[u].children, v)
  }

  /**
   * Every child entry of `u` pointing at `v` with weight `w` is mirrored by a parent
   * entry of `v` pointing back at `u` with the same weight, and vice versa.
   */
  ghost predicate Reciprocal(adj: Adjacency) {
    ChildrenMirrored(adj) && ParentsMirrored(adj)
  }

  /** `nb` is an entry of `u`'s children list. */
  predicate ChildEntry(adj: Adjacency, u: string, nb: Neighbor) {
    u in adj && nb in adj[u].children
  }

  /** `nb` is an entry of `u`'s parents list. */
  predicate ParentEntry(adj: Adjacency, u: string, nb: Neighbor) {
    u in adj && nb in adj[u].parents
  }

  ghost predicate ChildrenMirrored(adj: Adjacency) {
    forall u, nb {:trigger ChildEntry(adj, u, nb)} :: ChildEntry(adj, u, nb) ==>
      nb.id in adj && Neighbor(u, nb.weight) in adj[nb.id].parents
  }

  ghost predicate ParentsMirrored(adj: Adjacency) {
    forall u, nb {:trigger ParentEntry(adj, u, nb)} :: ParentEntry(adj, u, nb) ==>
      nb.id in adj && Neighbor(u, nb.weight) in adj[nb.id].children
  }

  /** Both lists of node `u` name each neighbour at most once. */
  ghost predicate NodeDistinct(adj: Adjacency, u: string) {
    u in adj ==> DistinctIds(adj[u].children) && DistinctIds(adj[u].parents)
  }

  /** Both lists of every node name each neighbour at most once. */
  ghost predicate NoDuplicateEdges(adj: Adjacency) {
    forall u {:trigger NodeDistinct(adj, u)} :: NodeDistinct(adj, u)
  }

  /** The invariant every graph operation keeps. */
  ghost predicate WellFormed(adj: Adjacency) {
    Reciprocal(adj) && NoDuplicateEdges(adj)
  }

  /** In a well-formed table a child entry names an existing node, whose parents name its owner. */
  lemma ChildMirrored(adj: Adjacency, u: string, nb: Neighbor)
    requires WellFormed(adj) && u in adj && nb in adj[u].children
    ensures nb.id in adj && Neighbor(u, nb.weight) in adj[nb.id].parents && HasEdge(adj, u, nb.id)
  {
    assert ChildEntry(adj, u, nb);
  }

  /** In a well-formed table a parent entry names an existing node, whose children name its owner. */
  lemma ParentMirrored(adj: Adjacency, u: string, nb: Neighbor)
    requires WellFormed(adj) && u in adj && nb in adj[u].parents
    ensures nb.id in adj && Neighbor(u, nb.weight) in adj[nb.id].children
  {
    assert ParentEntry(adj, u, nb);
  }

  /** The adjacency lists of a node of a well-formed table are duplicate-free. */
  lemma ListsDistinct(adj: Adjacency, u: string)
    requires WellFormed(adj) && u in adj
    ensures DistinctIds(adj[u].children) && DistinctIds(adj[u].parents)
  {
    assert NodeDistinct(adj, u);
  }

  /** In a well-formed table a child entry and the matching parent entry come together. */
  lemma EdgeBothWays(adj: Adjacency, u: string, v: string)
    requires WellFormed(adj) && u in adj && v in adj
    ensures ContainsId(adj[u].children, v) <==> ContainsId(adj[v].parents, u)
  {
    if ContainsId(adj[u].children, v) {
      var nb :| nb in adj[u].children && nb.id == v;
      ChildMirrored(adj, u, nb);
    }
    if ContainsId(adj[v].parents, u) {
      var nb :| nb in adj[v].parents && nb.id == u;
      ParentMirrored(adj, v, nb);
    }
  }

  // ---------------------------------------------------------------------------
  // make_edge
  // ---------------------------------------------------------------------------

  /**
   * The table after `make_edge(p, c, w)`: `c` is appended to `p`'s children unless
   * some child entry already names it, then `p` to `c`'s parents unless some parent
   * entry already names it.  For `p == c` both lists belong to the same node.
   */
  function AddEdge(adj: Adjacency, p: string, c: string, w: int): Adjacency
    requires p in adj && c in adj
  {
    var pn := adj[p];
    var adj1 := if ContainsId(pn.children, c) then adj
                else adj[p := pn.(children := pn.children + [Neighbor(c, w)])];
    var cn := adj1[c];
    if ContainsId(cn.parents, p) then adj1
    else adj1[c := cn.(parents := cn.parents + [Neighbor(p, w)])]
  }

  /** On a well-formed table without the edge, `AddEdge` appends one entry to each list. */
  lemma AddEdgeShape(adj: Adjacency, p: string, c: string, w: int)
    requires WellFormed(adj) && p in adj && c in adj && !HasEdge(adj, p, c)
    ensures var r := AddEdge(adj, p, c, w);
      && r.Keys == adj.Keys
      && r[p].children == adj[p].children + [Neighbor(c, w)]
      && r[c].parents == adj[c].parents + [Neighbor(p, w)]
      && (p != c ==> r[p].parents == adj[p].parents && r[c].children == adj[c].children)
      && (forall k :: k in adj && k != p && k != c ==> r[k] == adj[k])
  {
    EdgeBothWays(adj, p, c);
  }

  lemma AddEdgeNoDuplicates(adj: Adjacency, p: string, c: string, w: int)
    requires WellFormed(adj) && p in adj && c in adj && !HasEdge(adj, p, c)
    ensures NoDuplicateEdges(AddEdge(adj, p, c, w))
  {
    var r := AddEdge(adj, p, c, w);
    AddEdgeShape(adj, p, c, w);
    EdgeBothWays(adj, p, c);
    ListsDistinct(adj, p);
    ListsDistinct(adj, c);
    AppendDistinct(adj[p].children, Neighbor(c, w));
    AppendDistinct(adj[c].parents, Neighbor(p, w));
    forall k ensures NodeDistinct(r, k) {
      if k in adj {
        ListsDistinct(adj, k);
      }
    }
  }

  lemma AddEdgeReciprocal(adj: Adjacency, p: string, c: string, w: int)
    requires WellFormed(adj) && p in adj && c in adj && !HasEdge(adj, p, c)
    ensures Reciprocal(AddEdge(adj, p, c, w))
  {
    var r := AddEdge(adj, p, c, w);
    AddEdgeShape(adj, p, c, w);
    assert Neighbor(c, w) in r[p].children;
    assert Neighbor(p, w) in r[c].parents;
    forall u, nb | ChildEntry(r, u, nb)
      ensures nb.id in r && Neighbor(u, nb.weight) in r[nb.id].parents
    {
      if !(u == p && nb == Neighbor(c, w)) {
        assert nb in adj[u].children;
        ChildMirrored(adj, u, nb);
      }
    }
    forall u, nb | ParentEntry(r, u, nb)
      ensures nb.id in r && Neighbor(u, nb.weight) in r[nb.id].children
    {
      if !(u == c && nb == Neighbor(p, w)) {
        assert nb in adj[u].parents;
        ParentMirrored(adj, u, nb);
      }
    }
  }

  /**
   * On a well-formed table, `AddEdge` changes nothing when the edge is already there
   * (it keeps its first weight); the result is well formed and holds the edge in
   * both lists.
   */
  lemma AddEdgeEffect(adj: Adjacency, p: string, c: string, w: int)
    requires WellFormed(adj) && p in adj && c in adj
    ensures var r := AddEdge(adj, p, c, w);
      && WellFormed(r)
      && r.Keys == adj.Keys
      && HasEdge(r, p, c) && ContainsId(r[c].parents, p)
      && (HasEdge(adj, p, c) ==> r == adj)
  {
    EdgeBothWays(adj, p, c);
    if !HasEdge(adj, p, c) {
      AddEdgeShape(adj, p, c, w);
      AddEdgeNoDuplicates(adj, p, c, w);
      AddEdgeReciprocal(adj, p, c, w);
      var r := AddEdge(adj, p, c, w);
      assert Neighbor(c, w) in r[p].children;
      assert Neighbor(p, w) in r[c].parents;
    }
  }

  /** A second `make_edge` for the same pair appends nothing and keeps the first weight. */
  lemma AddEdgeIdempotent(adj: Adjacency, p: string, c: string, w: int, w': int)
    requires WellFormed(adj) && p in adj && c in adj
    ensures AddEdge(AddEdge(adj, p, c, w), p, c, w') == AddEdge(adj, p, c, w)
  {
    AddEdgeEffect(adj, p, c, w);
    AddEdgeEffect(AddEdge(adj, p, c, w), p, c, w');
  }

  /** `make_edge` adds the edge `p -> c` and no other edge. */
  lemma AddEdgeEdges(adj: Adjacency, p: string, c: string, w: int, u: string, v: string)
    requires WellFormed(adj) && p in adj && c in adj
    ensures HasEdge(AddEdge(adj, p, c, w), u, v) <==> HasEdge(adj, u, v) || (u == p && v == c)
  {
    EdgeBothWays(adj, p, c);
    if !HasEdge(adj, p, c) {
      AddEdgeShape(adj, p, c, w);
      if u == p {
        AppendContains(adj[p].children, Neighbor(c, w), v);
      }
    }
  }

  lemma AppendContains(ns: seq<Neighbor>, nb: Neighbor, id: string)
    ensures ContainsId(ns + [nb], id) <==> ContainsId(ns, id) || nb.id == id
  {
    if ContainsId(ns, id) {
      var m :| m in ns && m.id == id;
      assert m in ns + [nb];
    }
    assert nb in ns + [nb];
  }

  // ---------------------------------------------------------------------------
  // remove_edge and remove_node
  // ---------------------------------------------------------------------------

  /** The table after `remove_edge(p, c)` on two existing nodes. */
  function WithoutEdge(adj: Adjacency, p: string, c: string): Adjacency
    requires p in adj && c in adj
  {
    var pn := adj[p];
    var adj1 := adj[p := pn.(children := RemoveId(pn.children, c))];
    var cn := adj1[c];
    adj1[c := cn.(parents := RemoveId(cn.parents, p))]
  }

  /** Entry by entry, `remove_edge(p, c)` shortens only `p`'s child list and `c`'s parent list. */
  lemma WithoutEdgeAt(adj: Adjacency, p: string, c: string, k: string)
    requires p in adj && c in adj && k in adj
    ensures WithoutEdge(adj, p, c).Keys == adj.Keys
    ensures WithoutEdge(adj, p, c)[k] == GraphNode(
      if k == p then RemoveId(adj[k].children, c) else adj[k].children,
      if k == c then RemoveId(adj[k].parents, p) else adj[k].parents)
  {
  }

  /** `remove_edge` keeps the invariant. */
  lemma WithoutEdgeWellFormed(adj: Adjacency, p: string, c: string)
    requires WellFormed(adj) && p in adj && c in adj
    ensures WellFormed(WithoutEdge(adj, p, c))
  {
    var r := WithoutEdge(adj, p, c);
    forall k | k in adj ensures NodeDistinct(r, k) {
      ListsDistinct(adj, k);
      RemoveIdDistinct(adj[k].children, c);
      RemoveIdDistinct(adj[k].parents, p);
      if k == p && k == c {
        RemoveIdDistinct(RemoveId(adj[k].children, c), c);
      }
    }
    forall x, nb | ChildEntry(r, x, nb)
      ensures nb.id in r && Neighbor(x, nb.weight) in r[nb.id].parents
    {
      assert nb in adj[x].children;
      ChildMirrored(adj, x, nb);
    }
    forall x, nb | ParentEntry(r, x, nb)
      ensures nb.id in r && Neighbor(x, nb.weight) in r[nb.id].children
    {
      assert nb in adj[x].parents;
      ParentMirrored(adj, x, nb);
    }
  }

  /** `remove_edge` deletes the edge `p -> c` and keeps every other edge. */
  lemma WithoutEdgeEdges(adj: Adjacency, p: string, c: string, u: string, v: string)
    requires p in adj && c in adj
    ensures WithoutEdge(adj, p, c).Keys == adj.Keys
    ensures HasEdge(WithoutEdge(adj, p, c), u, v) <==> HasEdge(adj, u, v) && !(u == p && v == c)
  {
    var r := WithoutEdge(adj, p, c);
    if u in adj {
      assert r[u].children == if u == p then RemoveId(adj[u].children, c) else adj[u].children;
      if HasEdge(adj, u, v) && !(u == p && v == c) {
        var nb :| nb in adj[u].children && nb.id == v;
        assert nb in r[u].children;
      }
    }
  }

  /**
   * The table after `remove_node(x)`: `x` is gone and no list names it any more;
   * every other entry is untouched.
   */
  function Detached(adj: Adjacency, x: string): (r: Adjacency)
    ensures r.Keys == adj.Keys - {x}
  {
    map k | k in adj && k != x :: GraphNode(RemoveId(adj[k].children, x), RemoveId(adj[k].parents, x))
  }

  /** `remove_node` keeps the invariant. */
  lemma DetachedWellFormed(adj: Adjacency, x: string)
    requires WellFormed(adj)
    ensures WellFormed(Detached(adj, x))
  {
    var r := Detached(adj, x);
    forall k | k in r ensures NodeDistinct(r, k) {
      ListsDistinct(adj, k);
      RemoveIdDistinct(adj[k].children, x);
      RemoveIdDistinct(adj[k].parents, x);
    }
    forall y, nb | ChildEntry(r, y, nb)
      ensures nb.id in r && Neighbor(y, nb.weight) in r[nb.id].parents
    {
      assert nb in adj[y].children;
      ChildMirrored(adj, y, nb);
    }
    forall y, nb | ParentEntry(r, y, nb)
      ensures nb.id in r && Neighbor(y, nb.weight) in r[nb.id].children
    {
      assert nb in adj[y].parents;
      ParentMirrored(adj, y, nb);
    }
  }

  /** `remove_node` removes exactly the edges touching the node. */
  lemma DetachedEdges(adj: Adjacency, x: string, u: string, v: string)
    ensures HasEdge(Detached(adj, x), u, v) <==> HasEdge(adj, u, v) && u != x && v != x
  {
    var r := Detached(adj, x);
    if HasEdge(adj, u, v) && u != x && v != x {
      var nb :| nb in adj[u].children && nb.id == v;
      assert nb in r[u].children;
    }
  }

  // ---------------------------------------------------------------------------
  // transpose
  // ---------------------------------------------------------------------------

  /** Every node with its `children` and `parents` lists exchanged. */
  function Transposed(adj: Adjacency): (r: Adjacency)
    ensures r.Keys == adj.Keys
  {
    map k | k in adj :: GraphNode(adj[k].parents, adj[k].children)
  }

  /** Transposing twice gives back the original table. */
  lemma TransposeInvolution(adj: Adjacency)
    ensures Transposed(Transposed(adj)) == adj
  {
    var t := Transposed(Transposed(adj));
    forall k | k in adj ensures t[k] == adj[k] {
      assert t[k] == GraphNode(adj[k].children, adj[k].parents);
    }
  }

  /** Transposition keeps the invariant. */
  lemma TransposeWellFormed(adj: Adjacency)
    requires WellFormed(adj)
    ensures WellFormed(Transposed(adj))
  {
    var r := Transposed(adj);
    forall k | k in r ensures NodeDistinct(r, k) {
      ListsDistinct(adj, k);
    }
    forall u, nb | ChildEntry(r, u, nb)
      ensures nb.id in r && Neighbor(u, nb.weight) in r[nb.id].parents
    {
      ParentMirrored(adj, u, nb);
    }
    forall u, nb | ParentEntry(r, u, nb)
      ensures nb.id in r && Neighbor(u, nb.weight) in r[nb.id].children
    {
      ChildMirrored(adj, u, nb);
    }
  }

  /** On a well-formed table, transposition reverses every edge. */
  lemma TransposeEdges(adj: Adjacency, u: string, v: string)
    requires WellFormed(adj)
    ensures HasEdge(Transposed(adj), u, v) <==> HasEdge(adj, v, u)
  {
    if HasEdge(Transposed(adj), u, v) {
      var nb :| nb in adj[u].parents && nb.id == v;
      ParentMirrored(adj, u, nb);
      EdgeBothWays(adj, v, u);
    }
    if HasEdge(adj, v, u) {
      var nb :| nb in adj[v].children && nb.id == u;
      ChildMirrored(adj, v, nb);
      EdgeBothWays(adj, v, u);
    }
  }

  // ---------------------------------------------------------------------------
  // swap_nodes
  // ---------------------------------------------------------------------------

  /** The transposition of names that exchanges `a` and `b`. */
  function Swap(k: string, a: string, b: string): string {
    if k == a then b else if k == b then a else k
  }

  function RenameAll(ns: seq<Neighbor>, a: string, b: string): (r: seq<Neighbor>)
    ensures |r| == |ns|
    ensures forall i :: 0 <= i < |ns| ==> r[i] == Neighbor(Swap(ns[i].id, a, b), ns[i].weight)
  {
    seq(|ns|, i requires 0 <= i < |ns| => Neighbor(Swap(ns[i].id, a, b), ns[i].weight))
  }

  /**
   * The table after `swap_nodes(a, b)`: the node stored under `a` now lives under `b`
   * and the other way round, and since neighbour entries read the node's id field,
   * every list names the moved nodes by their new ids.
   */
  function Swapped(adj: Adjacency, a: string, b: string): (r: Adjacency)
    requires a in adj && b in adj
    ensures r.Keys == adj.Keys
  {
    map k | k in adj :: GraphNode(RenameAll(adj[Swap(k, a, b)].children, a, b),
                                   RenameAll(adj[Swap(k, a, b)].parents, a, b))
  }

  lemma SwapSelfInverse(k: string, a: string, b: string)
    ensures Swap(Swap(k, a, b), a, b) == k
  {
  }

  lemma RenameAllTwice(ns: seq<Neighbor>, a: string, b: string)
    ensures RenameAll(RenameAll(ns, a, b), a, b) == ns
  {
    var t := RenameAll(RenameAll(ns, a, b), a, b);
    forall i | 0 <= i < |ns| ensures t[i] == ns[i] {
      SwapSelfInverse(ns[i].id, a, b);
    }
  }

  /** Swapping the same two nodes twice restores the table. */
  lemma SwapInvolution(adj: Adjacency, a: string, b: string)
    requires a in adj && b in adj
    ensures Swapped(Swapped(adj, a, b), a, b) == adj
  {
    var t := Swapped(Swapped(adj, a, b), a, b);
    forall k | k in adj ensures t[k] == adj[k] {
      SwapTwiceAt(adj, a, b, k);
    }
  }

  lemma SwapTwiceAt(adj: Adjacency, a: string, b: string, k: string)
    requires a in adj && b in adj && k in adj
    ensures Swapped(Swapped(adj, a, b), a, b)[k] == adj[k]
  {
    var s1 := Swapped(adj, a, b);
    var k' := Swap(k, a, b);
    SwapSelfInverse(k, a, b);
    assert s1[k'] == GraphNode(RenameAll(adj[k].children, a, b), RenameAll(adj[k].parents, a, b));
    RenameAllTwice(adj[k].children, a, b);
    RenameAllTwice(adj[k].parents, a, b);
  }

  lemma RenameAllDistinct(ns: seq<Neighbor>, a: string, b: string)
    requires DistinctIds(ns)
    ensures DistinctIds(RenameAll(ns, a, b))
  {
    var r := RenameAll(ns, a, b);
    forall i, j | 0 <= i < j < |r| ensures r[i].id != r[j].id {
      SwapSelfInverse(ns[i].id, a, b);
      SwapSelfInverse(ns[j].id, a, b);
    }
  }

  lemma RenameAllContains(ns: seq<Neighbor>, a: string, b: string, nb: Neighbor)
    ensures nb in RenameAll(ns, a, b) <==> Neighbor(Swap(nb.id, a, b), nb.weight) in ns
  {
    var r := RenameAll(ns, a, b);
    SwapSelfInverse(nb.id, a, b);
    if nb in r {
      var i :| 0 <= i < |r| && r[i] == nb;
      SwapSelfInverse(ns[i].id, a, b);
      assert ns[i] == Neighbor(Swap(nb.id, a, b), nb.weight);
    }
    if Neighbor(Swap(nb.id, a, b), nb.weight) in ns {
      var i :| 0 <= i < |ns| && ns[i] == Neighbor(Swap(nb.id, a, b), nb.weight);
      assert r[i] == nb;
    }
  }

  /** A swap keeps the invariant. */
  lemma SwapWellFormed(adj: Adjacency, a: string, b: string)
    requires WellFormed(adj) && a in adj && b in adj
    ensures WellFormed(Swapped(adj, a, b))
  {
    var r := Swapped(adj, a, b);
    forall k | k in r ensures NodeDistinct(r, k) {
      ListsDistinct(adj, Swap(k, a, b));
      RenameAllDistinct(adj[Swap(k, a, b)].children, a, b);
      RenameAllDistinct(adj[Swap(k, a, b)].parents, a, b);
    }
    SwapChildrenMirrored(adj, a, b);
    SwapParentsMirrored(adj, a, b);
  }

  lemma SwapChildrenMirrored(adj: Adjacency, a: string, b: string)
    requires ChildrenMirrored(adj) && a in adj && b in adj
    ensures ChildrenMirrored(Swapped(adj, a, b))
  {
    var r := Swapped(adj, a, b);
    forall x, nb | ChildEntry(r, x, nb)
      ensures nb.id in r && Neighbor(x, nb.weight) in r[nb.id].parents
    {
      var x' := Swap(x, a, b);
      var m := Neighbor(Swap(nb.id, a, b), nb.weight);
      RenameAllContains(adj[x'].children, a, b, nb);
      assert ChildEntry(adj, x', m);
      SwapSelfInverse(nb.id, a, b);
      SwapSelfInverse(x, a, b);
      assert r[nb.id].parents == RenameAll(adj[m.id].parents, a, b);
      RenameAllContains(adj[m.id].parents, a, b, Neighbor(x, nb.weight));
    }
  }

  lemma SwapParentsMirrored(adj: Adjacency, a: string, b: string)
    requires ParentsMirrored(adj) && a in adj && b in adj
    ensures ParentsMirrored(Swapped(adj, a, b))
  {
    var r := Swapped(adj, a, b);
    forall x, nb | ParentEntry(r, x, nb)
      ensures nb.id in r && Neighbor(x, nb.weight) in r[nb.id].children
    {
      var x' := Swap(x, a, b);
      var m := Neighbor(Swap(nb.id, a, b), nb.weight);
      RenameAllContains(adj[x'].parents, a, b, nb);
      assert ParentEntry(adj, x', m);
      SwapSelfInverse(nb.id, a, b);
      SwapSelfInverse(x, a, b);
      assert r[nb.id].children == RenameAll(adj[m.id].children, a, b);
      RenameAllContains(adj[m.id].children, a, b, Neighbor(x, nb.weight));
    }
  }

  /** After a swap the edges are the old edges with both ends renamed. */
  lemma SwapEdges(adj: Adjacency, a: string, b: string, u: string, v: string)
    requires a in adj && b in adj
    ensures HasEdge(Swapped(adj, a, b), u, v) <==> HasEdge(adj, Swap(u, a, b), Swap(v, a, b))
  {
    var r := Swapped(adj, a, b);
    var u' := Swap(u, a, b);
    SwapSelfInverse(u, a, b);
    SwapSelfInverse(v, a, b);
    if HasEdge(adj, u', Swap(v, a, b)) {
      var nb :| nb in adj[u'].children && nb.id == Swap(v, a, b);
      RenameAllContains(adj[u'].children, a, b, Neighbor(v, nb.weight));
    }
    if HasEdge(r, u, v) {
      var nb :| nb in r[u].children && nb.id == v;
      RenameAllContains(adj[u'].children, a, b, nb);
    }
  }
}
