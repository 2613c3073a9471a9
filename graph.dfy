/**
 * The `Graph` object of graph.cpp: a `weighted` flag fixed at construction, the
 * `nodes` table, the `ids` list in insertion order and the node `count`, together
 * with the operations that grow and shrink it.  Exceptions become a returned
 * `Outcome`; diagnostics written to standard error are dropped.
 */
module Graphs {
  import opened Wrappers
  import opened Sequences
  import opened GraphStore

  /** The table with a fresh, edgeless node for `id` if it has none. */
  function WithNode(adj: Adjacency, id: string): (r: Adjacency)
    ensures id in r && r.Keys == adj.Keys + {id}
    ensures id in adj ==> r == adj
  {
    if id in adj then adj else adj[id := GraphNode([], [])]
  }

  lemma WithNodeWellFormed(adj: Adjacency, id: string)
    requires WellFormed(adj)
    ensures WellFormed(WithNode(adj, id))
    ensures forall u, v :: HasEdge(WithNode(adj, id), u, v) <==> HasEdge(adj, u, v)
  {
    var r := WithNode(adj, id);
    if id !in adj {
      forall u, nb | ChildEntry(r, u, nb)
        ensures nb.id in r && Neighbor(u, nb.weight) in r[nb.id].parents
      {
        ChildMirrored(adj, u, nb);
      }
      forall u, nb | ParentEntry(r, u, nb)
        ensures nb.id in r && Neighbor(u, nb.weight) in r[nb.id].children
      {
        ParentMirrored(adj, u, nb);
      }
      forall k ensures NodeDistinct(r, k) {
        if k in adj { ListsDistinct(adj, k); }
      }
    }
  }

  /** A weighted edge record: parent id, child id, weight. */
  type WeightedEdge = (string, string, int)

  // ---------------------------------------------------------------------------
  // The array inserts, as folds over their records
  // ---------------------------------------------------------------------------

  /** The node table and the id list of a graph, as one value. */
  datatype GraphState = GraphState(nodes: Adjacency, ids: seq<string>)

  /** The table is well formed and `ids` lists each of its keys once. */
  ghost predicate Consistent(g: GraphState) {
    WellFormed(g.nodes) && Distinct(g.ids) && forall k :: k in g.nodes <==> k in g.ids
  }

  /** `insert(nodeId)`: the node is created and its id appended, unless it exists. */
  function NodeAdded(g: GraphState, id: string): GraphState {
    if id in g.nodes then g else GraphState(g.nodes[id := GraphNode([], [])], g.ids + [id])
  }

  /**
   * `insert(parent, child[, w])` once the weight is accepted: nothing happens without
   * the parent; otherwise the child is created if absent and the edge is made.
   */
  function Inserted(g: GraphState, parent: string, child: string, w: int): GraphState {
    if parent !in g.nodes then g
    else GraphState(AddEdge(WithNode(g.nodes, child), parent, child, w),
                    g.ids + if child in g.nodes then [] else [child])
  }

  /** The records an insert loop acts on: all of them unweighted, those of non-negative weight weighted. */
  predicate Usable(e: WeightedEdge, weighted: bool) {
    !weighted || e.2 >= 0
  }

  /** The insert of each record in turn, skipping the ones that are not usable. */
  function EdgesInserted(g: GraphState, es: seq<WeightedEdge>, weighted: bool): GraphState
    decreases |es|
  {
    if es == [] then g
    else
      var g' := EdgesInserted(g, es[..|es| - 1], weighted);
      var e := es[|es| - 1];
      if Usable(e, weighted) then Inserted(g', e.0, e.1, e.2) else g'
  }

  /** The unweighted records `parent -> c` of `insert(parent, children[])`. */
  function FromParent(parent: string, cs: seq<string>): (r: seq<WeightedEdge>)
    ensures |r| == |cs| && forall k :: 0 <= k < |cs| ==> r[k] == (parent, cs[k], NoWeight)
  {
    seq(|cs|, k requires 0 <= k < |cs| => (parent, cs[k], NoWeight))
  }

  /** The unweighted records `p -> child` of `insert(parents[], child)`. */
  function ToChild(ps: seq<string>, child: string): (r: seq<WeightedEdge>)
    ensures |r| == |ps| && forall k :: 0 <= k < |ps| ==> r[k] == (ps[k], child, NoWeight)
  {
    seq(|ps|, k requires 0 <= k < |ps| => (ps[k], child, NoWeight))
  }

  /** One more child of `insert(parent, children[])` is one more insert. */
  lemma FromParentSnoc(g: GraphState, parent: string, cs: seq<string>, i: int)
    requires 0 <= i < |cs|
    ensures EdgesInserted(g, FromParent(parent, cs[..i + 1]), false) ==
      Inserted(EdgesInserted(g, FromParent(parent, cs[..i]), false), parent, cs[i], NoWeight)
  {
    assert FromParent(parent, cs[..i + 1])[..i] == FromParent(parent, cs[..i]);
  }

  /** One more parent of `insert(parents[], child)` is one more insert. */
  lemma ToChildSnoc(g: GraphState, ps: seq<string>, child: string, i: int)
    requires 0 <= i < |ps|
    ensures EdgesInserted(g, ToChild(ps[..i + 1], child), false) ==
      Inserted(EdgesInserted(g, ToChild(ps[..i], child), false), ps[i], child, NoWeight)
  {
    assert ToChild(ps[..i + 1], child)[..i] == ToChild(ps[..i], child);
  }

  /** The longest prefix of records whose child is named (`named`) or is `""` (`!named`). */
  function ChildRun(es: seq<WeightedEdge>, named: bool): (r: seq<WeightedEdge>)
    ensures r <= es && forall k :: 0 <= k < |r| ==> (r[k].1 != "") == named
    ensures |r| < |es| ==> (es[|r|].1 != "") != named
    decreases |es|
  {
    if es == [] || (es[0].1 != "") != named then []
    else [es[0]] + ChildRun(es[1..], named)
  }

  /** A scan that stops at the first record of the other kind has visited exactly `ChildRun`. */
  lemma {:induction false} ChildRunAt(es: seq<WeightedEdge>, named: bool, i: int)
    requires 0 <= i < |es| && (es[i].1 != "") != named
    requires forall j :: 0 <= j < i ==> (es[j].1 != "") == named
    ensures ChildRun(es, named) == es[..i]
  {
    if i > 0 {
      ChildRunAt(es[1..], named, i - 1);
      assert es[..i] == [es[0]] + es[1..][..i - 1];
    }
  }

  /** The edges of `b` are those of `a` and `parent -> v` for each `v` in `vs`. */
  ghost predicate GainsChildren(a: Adjacency, b: Adjacency, parent: string, vs: set<string>) {
    forall u, v :: HasEdge(b, u, v) <==> HasEdge(a, u, v) || (u == parent && v in vs)
  }

  /** The edges of `b` are those of `a` and `u -> child` for each `u` in `us`. */
  ghost predicate GainsParents(a: Adjacency, b: Adjacency, child: string, us: set<string>) {
    forall u, v :: HasEdge(b, u, v) <==> HasEdge(a, u, v) || (v == child && u in us)
  }

  /** The edges of `b` are those of `a`, `u -> node` for each `u` in `us` and `node -> v` for each `v` in `vs`. */
  ghost predicate GainsNeighbors(a: Adjacency, b: Adjacency, node: string, us: set<string>, vs: set<string>) {
    forall u, v :: HasEdge(b, u, v) <==> HasEdge(a, u, v) || (v == node && u in us) || (u == node && v in vs)
  }

  lemma GainsChildrenTrans(a: Adjacency, b: Adjacency, c: Adjacency, parent: string, vs: set<string>, ws: set<string>)
    requires GainsChildren(a, b, parent, vs) && GainsChildren(b, c, parent, ws)
    ensures GainsChildren(a, c, parent, vs + ws)
  {
  }

  lemma GainsParentsTrans(a: Adjacency, b: Adjacency, c: Adjacency, child: string, us: set<string>, ws: set<string>)
    requires GainsParents(a, b, child, us) && GainsParents(b, c, child, ws)
    ensures GainsParents(a, c, child, us + ws)
  {
  }

  /** `make_edge` on existing endpoints keeps the set of nodes. */
  lemma AddEdgeKeys(adj: Adjacency, p: string, c: string, w: int)
    requires p in adj && c in adj
    ensures AddEdge(adj, p, c, w).Keys == adj.Keys
  {
  }

  /** One insert adds the child, once, to the nodes and the ids. */
  lemma InsertedShape(g: GraphState, parent: string, child: string, w: int)
    requires parent in g.nodes
    ensures var r := Inserted(g, parent, child, w);
      && r.nodes.Keys == g.nodes.Keys + {child}
      && r.ids == g.ids + (if child in g.nodes then [] else [child])
  {
    AddEdgeKeys(WithNode(g.nodes, child), parent, child, w);
  }

  /** One insert keeps the table well formed and adds exactly the edge `parent -> child`. */
  lemma InsertedEdges(g: GraphState, parent: string, child: string, w: int)
    requires WellFormed(g.nodes) && parent in g.nodes
    ensures WellFormed(Inserted(g, parent, child, w).nodes)
    ensures GainsChildren(g.nodes, Inserted(g, parent, child, w).nodes, parent, {child})
    ensures GainsParents(g.nodes, Inserted(g, parent, child, w).nodes, child, {parent})
  {
    var a := WithNode(g.nodes, child);
    WithNodeWellFormed(g.nodes, child);
    AddEdgeEffect(a, parent, child, w);
    forall u, v ensures HasEdge(AddEdge(a, parent, child, w), u, v) <==> HasEdge(g.nodes, u, v) || (u == parent && v == child) {
      AddEdgeEdges(a, parent, child, w, u, v);
    }
  }

  /** Inserting records keeps the table well formed. */
  lemma {:induction false} InsertedWellFormed(g: GraphState, es: seq<WeightedEdge>, weighted: bool)
    requires WellFormed(g.nodes)
    ensures WellFormed(EdgesInserted(g, es, weighted).nodes)
    decreases |es|
  {
    if es != [] {
      var n := |es| - 1;
      InsertedWellFormed(g, es[..n], weighted);
      var r' := EdgesInserted(g, es[..n], weighted);
      if Usable(es[n], weighted) && es[n].0 in r'.nodes {
        InsertedEdges(r', es[n].0, es[n].1, es[n].2);
      }
    }
  }

  /** `ids` lists each node once: distinct, and exactly the keys. */
  ghost predicate Listed(g: GraphState) {
    Distinct(g.ids) && forall k :: k in g.nodes <==> k in g.ids
  }

  /** Appending distinct new ids for exactly the new keys keeps `Listed`. */
  lemma ListedGrow<T(!new)>(ids: seq<T>, keys: set<T>, more: seq<T>, keys': set<T>)
    requires Distinct(ids) && (forall k :: k in keys <==> k in ids)
    requires Distinct(more) && (forall k :: k in more ==> k !in keys) && keys' == keys + Elems(more)
    ensures Distinct(ids + more) && forall k :: k in keys' <==> k in ids + more
  {
    DistinctAppend(ids, more);
  }

  /**
   * `insert(parent, children[])` on the listed children: nothing without the parent;
   * with it, every listed child is created if absent, in list order, and gets an
   * edge from the parent, and no other edge appears.
   */
  lemma ChildrenEffect(g: GraphState, parent: string, cs: seq<string>)
    requires Consistent(g)
    ensures var r := EdgesInserted(g, FromParent(parent, cs), false);
      && Consistent(r)
      && (parent !in g.nodes ==> r == g)
      && (parent in g.nodes ==>
        && r.nodes.Keys == g.nodes.Keys + Elems(cs)
        && r.ids == g.ids + Unseen(cs, g.nodes.Keys)
        && GainsChildren(g.nodes, r.nodes, parent, Elems(cs)))
  {
    InsertedWellFormed(g, FromParent(parent, cs), false);
    ChildrenShape(g, parent, cs);
    if parent in g.nodes {
      ChildrenEdges(g, parent, cs);
      UnseenElems(cs, g.nodes.Keys);
      ListedGrow(g.ids, g.nodes.Keys, Unseen(cs, g.nodes.Keys), g.nodes.Keys + Elems(cs));
    }
  }

  /** The nodes and ids `insert(parent, children[])` leaves. */
  lemma {:induction false} ChildrenShape(g: GraphState, parent: string, cs: seq<string>)
    ensures var r := EdgesInserted(g, FromParent(parent, cs), false);
      && (parent !in g.nodes ==> r == g)
      && (parent in g.nodes ==>
        && r.nodes.Keys == g.nodes.Keys + Elems(cs)
        && r.ids == g.ids + Unseen(cs, g.nodes.Keys))
    decreases |cs|
  {
    if cs != [] {
      var n := |cs| - 1;
      var es := FromParent(parent, cs);
      assert es[..n] == FromParent(parent, cs[..n]);
      ChildrenShape(g, parent, cs[..n]);
      if parent in g.nodes {
        var r' := EdgesInserted(g, es[..n], false);
        InsertedShape(r', parent, cs[n], NoWeight);
        ElemsSnoc(cs);
        UnseenExtend(g.ids, cs, g.nodes.Keys, r'.ids, cs[n] in r'.nodes, Inserted(r', parent, cs[n], NoWeight).ids);
      }
    }
  }

  /** The edges `insert(parent, children[])` adds. */
  lemma {:induction false} ChildrenEdges(g: GraphState, parent: string, cs: seq<string>)
    requires WellFormed(g.nodes) && parent in g.nodes
    ensures GainsChildren(g.nodes, EdgesInserted(g, FromParent(parent, cs), false).nodes, parent, Elems(cs))
    decreases |cs|
  {
    if cs != [] {
      var n := |cs| - 1;
      var es := FromParent(parent, cs);
      assert es[..n] == FromParent(parent, cs[..n]);
      ChildrenEdges(g, parent, cs[..n]);
      var r' := EdgesInserted(g, es[..n], false);
      InsertedWellFormed(g, es[..n], false);
      ChildrenShape(g, parent, cs[..n]);
      InsertedEdges(r', parent, cs[n], NoWeight);
      ElemsSnoc(cs);
      GainsChildrenTrans(g.nodes, r'.nodes, Inserted(r', parent, cs[n], NoWeight).nodes, parent, Elems(cs[..n]), {cs[n]});
    }
  }

  /** Some usable record names a parent the table already holds. */
  ghost predicate Linked(g: GraphState, es: seq<WeightedEdge>, weighted: bool) {
    exists k :: 0 <= k < |es| && Usable(es[k], weighted) && es[k].0 in g.nodes
  }

  /**
   * The parents a run of records naming the child `c` links to it: those of usable
   * records that are nodes at their turn, either from the start or, for `c` itself,
   * once an earlier record has created it.
   */
  ghost function LinkParents(g: GraphState, es: seq<WeightedEdge>, weighted: bool, c: string): set<string> {
    set k | 0 <= k < |es| && Usable(es[k], weighted) &&
      (es[k].0 in g.nodes || (es[k].0 == c && Linked(g, es[..k], weighted))) :: es[k].0
  }

  /** `Linked` and `LinkParents` of a run, from those of the run without its last record. */
  lemma LinkStep(g: GraphState, es: seq<WeightedEdge>, weighted: bool, c: string)
    requires es != []
    ensures var init, e := es[..|es| - 1], es[|es| - 1];
      && (Linked(g, es, weighted) <==> Linked(g, init, weighted) || (Usable(e, weighted) && e.0 in g.nodes))
      && LinkParents(g, es, weighted, c) == LinkParents(g, init, weighted, c) +
           (if Usable(e, weighted) && (e.0 in g.nodes || (e.0 == c && Linked(g, init, weighted))) then {e.0} else {})
  {
    var n := |es| - 1;
    var init, e := es[..n], es[n];
    assert forall k :: 0 <= k < n ==> es[k] == init[k] && es[..k] == init[..k];
    assert es[..n] == init;
  }

  /**
   * Records that all name the child `c`: `c` is created, once, by the first usable
   * record whose parent is a node, and each usable record whose parent is a node
   * by then gains its edge to `c`; no other node or edge appears.
   */
  lemma SameChildEffect(g: GraphState, es: seq<WeightedEdge>, c: string, weighted: bool)
    requires Consistent(g) && forall k :: 0 <= k < |es| ==> es[k].1 == c
    ensures var r := EdgesInserted(g, es, weighted);
      && Consistent(r)
      && r.nodes.Keys == g.nodes.Keys + (if Linked(g, es, weighted) then {c} else {})
      && r.ids == g.ids + (if Linked(g, es, weighted) && c !in g.nodes then [c] else [])
      && GainsParents(g.nodes, r.nodes, c, LinkParents(g, es, weighted, c))
  {
    InsertedWellFormed(g, es, weighted);
    SameChildShape(g, es, c, weighted);
    SameChildEdges(g, es, c, weighted);
    var more := if Linked(g, es, weighted) && c !in g.nodes then [c] else [];
    ListedGrow(g.ids, g.nodes.Keys, more, g.nodes.Keys + Elems(more));
  }

  /** The nodes and ids a run of records naming the child `c` leaves. */
  lemma {:induction false} SameChildShape(g: GraphState, es: seq<WeightedEdge>, c: string, weighted: bool)
    requires forall k :: 0 <= k < |es| ==> es[k].1 == c
    ensures var r := EdgesInserted(g, es, weighted);
      && r.nodes.Keys == g.nodes.Keys + (if Linked(g, es, weighted) then {c} else {})
      && r.ids == g.ids + (if Linked(g, es, weighted) && c !in g.nodes then [c] else [])
    decreases |es|
  {
    if es != [] {
      var n := |es| - 1;
      SameChildShape(g, es[..n], c, weighted);
      LinkStep(g, es, weighted, c);
      var r' := EdgesInserted(g, es[..n], weighted);
      if Usable(es[n], weighted) && es[n].0 in r'.nodes {
        InsertedShape(r', es[n].0, c, es[n].2);
      }
    }
  }

  /** The edges a run of records naming the child `c` adds. */
  lemma {:induction false} SameChildEdges(g: GraphState, es: seq<WeightedEdge>, c: string, weighted: bool)
    requires WellFormed(g.nodes) && forall k :: 0 <= k < |es| ==> es[k].1 == c
    ensures GainsParents(g.nodes, EdgesInserted(g, es, weighted).nodes, c, LinkParents(g, es, weighted, c))
    decreases |es|
  {
    if es != [] {
      var n := |es| - 1;
      SameChildEdges(g, es[..n], c, weighted);
      SameChildShape(g, es[..n], c, weighted);
      InsertedWellFormed(g, es[..n], weighted);
      LinkStep(g, es, weighted, c);
      var r' := EdgesInserted(g, es[..n], weighted);
      if Usable(es[n], weighted) && es[n].0 in r'.nodes {
        InsertedEdges(r', es[n].0, c, es[n].2);
        GainsParentsTrans(g.nodes, r'.nodes, Inserted(r', es[n].0, c, es[n].2).nodes, c, LinkParents(g, es[..n], weighted, c), {es[n].0});
      }
    }
  }

  /**
   * `insert(node, parents[], children[])` on the listed neighbours: the node is
   * created if absent, then every listed child after it, in list order; the new
   * edges are exactly those from the listed parents that are nodes (the node itself
   * included) and those to the listed children.
   */
  lemma NeighborsEffect(g: GraphState, node: string, ps: seq<string>, cs: seq<string>)
    requires Consistent(g)
    ensures var r := EdgesInserted(EdgesInserted(NodeAdded(g, node), ToChild(ps, node), false), FromParent(node, cs), false);
      && Consistent(r)
      && r.nodes.Keys == g.nodes.Keys + {node} + Elems(cs)
      && r.ids == NodeAdded(g, node).ids + Unseen(cs, g.nodes.Keys + {node})
      && GainsNeighbors(g.nodes, r.nodes, node, Elems(ps) * (g.nodes.Keys + {node}), Elems(cs))
  {
    var g1 := NodeAdded(g, node);
    NodeAddedEffect(g, node);
    var es := ToChild(ps, node);
    SameChildEffect(g1, es, node, false);
    var g2 := EdgesInserted(g1, es, false);
    ToChildParents(g1, ps, node);
    ChildrenEffect(g2, node, cs);
    NeighborsCompose(g, g1, g2, EdgesInserted(g2, FromParent(node, cs), false), node, Elems(ps), Elems(cs));
  }

  /** The three stages of `insert(node, parents[], children[])` put together. */
  lemma NeighborsCompose(g: GraphState, g1: GraphState, g2: GraphState, r: GraphState, node: string, ps: set<string>, cs: set<string>)
    requires g1.nodes.Keys == g.nodes.Keys + {node} && GainsChildren(g.nodes, g1.nodes, node, {})
    requires g2.nodes.Keys == g1.nodes.Keys && g2.ids == g1.ids
    requires GainsParents(g1.nodes, g2.nodes, node, ps * g1.nodes.Keys)
    requires r.nodes.Keys == g2.nodes.Keys + cs && GainsChildren(g2.nodes, r.nodes, node, cs)
    ensures r.nodes.Keys == g.nodes.Keys + {node} + cs
    ensures GainsNeighbors(g.nodes, r.nodes, node, ps * (g.nodes.Keys + {node}), cs)
  {
  }

  /** `insert(nodeId)` keeps the state consistent and adds no edge. */
  lemma NodeAddedEffect(g: GraphState, node: string)
    requires Consistent(g)
    ensures Consistent(NodeAdded(g, node)) && NodeAdded(g, node).nodes.Keys == g.nodes.Keys + {node}
    ensures GainsChildren(g.nodes, NodeAdded(g, node).nodes, node, {})
  {
    WithNodeWellFormed(g.nodes, node);
    if node !in g.nodes {
      DistinctAppend(g.ids, [node]);
    }
  }

  /** Under an existing `node`, the parents `insert(parents[], node)` links are the listed nodes. */
  lemma ToChildParents(g: GraphState, ps: seq<string>, node: string)
    requires node in g.nodes
    ensures LinkParents(g, ToChild(ps, node), false, node) == Elems(ps) * g.nodes.Keys
  {
    var es := ToChild(ps, node);
    forall u | u in Elems(ps) * g.nodes.Keys ensures u in LinkParents(g, es, false, node) {
      var k :| 0 <= k < |ps| && ps[k] == u;
      assert es[k].0 == u;
    }
  }

  /**
   * `init_edges`' loop over `es`, all of whose endpoints are nodes: a record whose
   * edge exists is skipped, one of weight `NoWeight` throws from `make_edge`'s
   * weight check, any other makes its edge.  The result is the outcome and the table.
   */
  /** Both endpoints of every record are nodes of `adj`. */
  predicate EndpointsIn(adj: Adjacency, es: seq<WeightedEdge>) {
    forall k :: 0 <= k < |es| ==> es[k].0 in adj && es[k].1 in adj
  }

  function EdgesLinked(adj: Adjacency, es: seq<WeightedEdge>): (Outcome<GraphError>, Adjacency)
    requires EndpointsIn(adj, es)
    decreases |es|
  {
    if es == [] then (Pass, adj)
    else if HasEdge(adj, es[0].0, es[0].1) then EdgesLinked(adj, es[1..])
    else if es[0].2 == NoWeight then (Fail(UnweightedInWeighted), adj)
    else EdgesLinked(AddEdge(adj, es[0].0, es[0].1, es[0].2), es[1..])
  }

  /** A run of named records starting at a named record continues with the next one. */
  lemma ChildRunFrom(es: seq<WeightedEdge>, i: int)
    requires 0 <= i < |es| && es[i].1 != ""
    ensures ChildRun(es[i..], true) == [es[i]] + ChildRun(es[i + 1..], true)
  {
    assert es[i..][1..] == es[i + 1..];
  }

  lemma EndpointsSplit(adj: Adjacency, e: WeightedEdge, rest: seq<WeightedEdge>)
    requires EndpointsIn(adj, [e] + rest)
    ensures e.0 in adj && e.1 in adj && EndpointsIn(adj, rest)
  {
    assert ([e] + rest)[0] == e;
    assert forall k :: 0 <= k < |rest| ==> rest[k] == ([e] + rest)[k + 1];
  }

  /**
   * One step of `init_edges`' loop on the first record `e` of the run: `r` and `b`
   * are the outcome and the table after the step (a skip when the edge exists).
   */
  lemma EdgesLinkedFirst(adj: Adjacency, e: WeightedEdge, rest: seq<WeightedEdge>, r: Outcome<GraphError>, b: Adjacency)
    requires e.0 in adj && e.1 in adj && EndpointsIn(adj, rest)
    requires HasEdge(adj, e.0, e.1) ==> r == Pass && b == adj
    requires !HasEdge(adj, e.0, e.1) && e.2 == NoWeight ==> r == Fail(UnweightedInWeighted) && b == adj
    requires !HasEdge(adj, e.0, e.1) && e.2 != NoWeight ==> r == Pass && b == AddEdge(adj, e.0, e.1, e.2)
    ensures r.Pass? ==> EndpointsIn(b, rest) && EdgesLinked(adj, [e] + rest) == EdgesLinked(b, rest)
    ensures r.Fail? ==> EdgesLinked(adj, [e] + rest) == (r, b)
  {
    assert ([e] + rest)[0] == e && ([e] + rest)[1..] == rest;
    AddEdgeKeys(adj, e.0, e.1, e.2);
  }

  /**
   * `init_edges` keeps the nodes and the table well formed and adds only listed
   * edges; it fails only on a record of weight `NoWeight`, and without one it adds
   * exactly the listed edges, negative weights included.
   */
  lemma {:induction false} EdgesLinkedEffect(adj: Adjacency, es: seq<WeightedEdge>)
    requires WellFormed(adj) && EndpointsIn(adj, es)
    ensures var (r, a) := EdgesLinked(adj, es);
      && WellFormed(a) && a.Keys == adj.Keys
      && (r.Fail? ==> r.error == UnweightedInWeighted && exists k :: 0 <= k < |es| && es[k].2 == NoWeight)
      && (forall u, v :: HasEdge(adj, u, v) ==> HasEdge(a, u, v))
      && (forall u, v :: HasEdge(a, u, v) ==> HasEdge(adj, u, v) || exists k :: 0 <= k < |es| && es[k].0 == u && es[k].1 == v)
      && ((forall k :: 0 <= k < |es| ==> es[k].2 != NoWeight) ==>
            r.Pass? && forall k :: 0 <= k < |es| ==> HasEdge(a, es[k].0, es[k].1))
    decreases |es|
  {
    if es != [] {
      var e := es[0];
      var rest := es[1..];
      assert forall k :: 0 <= k < |rest| ==> rest[k] == es[k + 1];
      if HasEdge(adj, e.0, e.1) {
        EdgesLinkedEffect(adj, rest);
      } else if e.2 != NoWeight {
        var adj' := AddEdge(adj, e.0, e.1, e.2);
        AddEdgeEffect(adj, e.0, e.1, e.2);
        forall u, v ensures HasEdge(adj', u, v) <==> HasEdge(adj, u, v) || (u == e.0 && v == e.1) {
          AddEdgeEdges(adj, e.0, e.1, e.2, u, v);
        }
        EdgesLinkedEffect(adj', rest);
      }
    }
  }

  class Graph {
    const weighted: bool
    var nodes: Adjacency
    var ids: seq<string>
    var count: int

    /** The table is well formed and `ids`/`count` enumerate exactly its keys. */
    ghost predicate Valid()
      reads this
    {
      && WellFormed(nodes)
      && Distinct(ids)
      && (forall k :: k in nodes <==> k in ids)
      && count == |ids|
    }

    constructor(weighted: bool)
      ensures Valid()
      ensures this.weighted == weighted && nodes == map[] && ids == [] && count == 0
    {
      this.weighted := weighted;
      nodes := map[];
      ids := [];
      count := 0;
    }

    /** `validate_weight`: an operation of the other weight mode is refused. */
    function ValidateWeight(withWeight: bool): (r: Outcome<GraphError>)
      ensures r.Pass? <==> withWeight == weighted
      ensures r.Fail? ==> r.error == if withWeight then WeightedInUnweighted else UnweightedInWeighted
    {
      if withWeight && !weighted then Fail(WeightedInUnweighted)
      else if !withWeight && weighted then Fail(UnweightedInWeighted)
      else Pass
    }

    /**
     * `check_make_edge`: a weight that does not fit the graph's mode is refused; a
     * negative weight other than `NoWeight` ends the check without looking at the
     * endpoints; otherwise a missing parent, then a missing child, is refused.
     */
    function CheckMakeEdge(parent: string, child: string, w: int): (r: Outcome<GraphError>)
      reads this
      ensures (w == NoWeight) == weighted ==> r.Fail?
      ensures r.Fail? && (w == NoWeight) != weighted ==> parent !in nodes || child !in nodes
      ensures r.Pass? && (w == NoWeight || w >= 0) ==> parent in nodes && child in nodes
      ensures r.Fail? && r.error == ChildMissing ==> parent in nodes
    {
      if w == NoWeight && weighted then Fail(UnweightedInWeighted)
      else if w != NoWeight && !weighted then Fail(WeightedInUnweighted)
      else if w != NoWeight && w < 0 then Pass
      else if parent !in nodes then Fail(ParentMissing)
      else if child !in nodes then Fail(ChildMissing)
      else Pass
    }

    /**
     * `make_edge`: after the check, each side is linked unless it already names the
     * other.  The source dereferences both endpoints after a check that let a negative
     * weight through, so that case needs both endpoints to exist.
     */
    method MakeEdge(parent: string, child: string, w: int) returns (r: Outcome<GraphError>)
      requires Valid()
      requires weighted && w < 0 && w != NoWeight ==> parent in nodes && child in nodes
      modifies this
      ensures Valid() && ids == old(ids) && count == old(count)
      ensures r == old(CheckMakeEdge(parent, child, w))
      ensures r.Fail? ==> nodes == old(nodes)
      ensures r.Pass? ==> nodes == AddEdge(old(nodes), parent, child, w)
    {
      r := CheckMakeEdge(parent, child, w);
      if r.Fail? {
        return;
      }
      AddEdgeEffect(nodes, parent, child, w);
      var pn := nodes[parent];
      if !ContainsId(pn.children, child) {
        nodes := nodes[parent := pn.(children := pn.children + [Neighbor(child, w)])];
      }
      var cn := nodes[child];
      if !ContainsId(cn.parents, parent) {
        nodes := nodes[child := cn.(parents := cn.parents + [Neighbor(parent, w)])];
      }
    }

    /**
     * `create_node`: an edgeless node is added to the table, its id to `ids`, and
     * `count` grows by one.  Every caller in the model creates only absent ids.
     */
    method CreateNode(id: string)
      requires Valid() && id !in nodes
      modifies this
      ensures Valid()
      ensures nodes == old(nodes)[id := GraphNode([], [])]
      ensures ids == old(ids) + [id] && count == old(count) + 1
    {
      WithNodeWellFormed(nodes, id);
      count := count + 1;
      ids := ids + [id];
      nodes := nodes[id := GraphNode([], [])];
    }

    /** `insert(nodeId)`: creates the node unless it exists.  The weight mode is not checked. */
    method InsertNode(id: string)
      requires Valid()
      modifies this
      ensures Valid() && nodes == WithNode(old(nodes), id)
      ensures ids == old(ids) + (if id in old(nodes) then [] else [id])
    {
      if id !in nodes {
        CreateNode(id);
      }
    }

    /**
     * `insert(parentId, childId)` of an unweighted graph: an absent parent makes it a
     * no-op, an absent child is created, then the edge is made.
     */
    method Insert(parent: string, child: string) returns (r: Outcome<GraphError>)
      requires Valid()
      modifies this
      ensures Valid()
      ensures r.Fail? <==> weighted
      ensures r.Fail? || parent !in old(nodes) ==> nodes == old(nodes) && ids == old(ids)
      ensures r.Pass? && parent in old(nodes) ==>
        && nodes == AddEdge(WithNode(old(nodes), child), parent, child, NoWeight)
        && ids == old(ids) + (if child in old(nodes) then [] else [child])
    {
      r := ValidateWeight(false);
      if r.Fail? || parent !in nodes {
        return;
      }
      if child !in nodes {
        CreateNode(child);
      }
      r := MakeEdge(parent, child, NoWeight);
    }

    /**
     * `insert(parentId, childId, weight)` of a weighted graph: a negative weight or an
     * absent parent makes it a no-op, an absent child is created, then the edge is made.
     */
    method InsertWeighted(parent: string, child: string, w: int) returns (r: Outcome<GraphError>)
      requires Valid()
      modifies this
      ensures Valid()
      ensures r.Fail? <==> !weighted
      ensures r.Fail? || w < 0 || parent !in old(nodes) ==> nodes == old(nodes) && ids == old(ids)
      ensures r.Pass? && w >= 0 && parent in old(nodes) ==>
        && nodes == AddEdge(WithNode(old(nodes), child), parent, child, w)
        && ids == old(ids) + (if child in old(nodes) then [] else [child])
    {
      r := ValidateWeight(true);
      if r.Fail? || w < 0 || parent !in nodes {
        return;
      }
      if child !in nodes {
        CreateNode(child);
      }
      r := MakeEdge(parent, child, w);
    }

    /** `insert(weighted_edge&)`: `InsertWeighted` on the parts of the record. */
    method InsertWeightedEdge(e: WeightedEdge) returns (r: Outcome<GraphError>)
      requires Valid()
      modifies this
      ensures Valid()
      ensures r.Fail? <==> !weighted
      ensures r.Fail? || e.2 < 0 || e.0 !in old(nodes) ==> nodes == old(nodes) && ids == old(ids)
      ensures r.Pass? && e.2 >= 0 && e.0 in old(nodes) ==>
        && nodes == AddEdge(WithNode(old(nodes), e.1), e.0, e.1, e.2)
        && ids == old(ids) + (if e.1 in old(nodes) then [] else [e.1])
    {
      r := ValidateWeight(true);
      if r.Fail? {
        return;
      }
      r := InsertWeighted(e.0, e.1, e.2);
    }

    /**
     * `insert(parentId, children[])`: every child listed before the `""` terminator is
     * inserted under `parent` in turn.  With an existing parent the listed children
     * are created if absent, in list order, and gain an edge from it; nothing else
     * changes.
     */
    method InsertChildren(parent: string, children: seq<string>) returns (r: Outcome<GraphError>)
      requires Valid() && "" in children
      modifies this
      ensures Valid()
      ensures r.Fail? <==> weighted
      ensures r.Fail? || parent !in old(nodes) ==> nodes == old(nodes) && ids == old(ids)
      ensures r.Pass? ==>
        GraphState(nodes, ids) == EdgesInserted(GraphState(old(nodes), old(ids)), FromParent(parent, UpTo(children, "")), false)
      ensures r.Pass? && parent in old(nodes) ==>
        && nodes.Keys == old(nodes).Keys + Elems(UpTo(children, ""))
        && ids == old(ids) + Unseen(UpTo(children, ""), old(nodes).Keys)
        && GainsChildren(old(nodes), nodes, parent, Elems(UpTo(children, "")))
    {
      ghost var g0 := GraphState(nodes, ids);
      r := ValidateWeight(false);
      if r.Pass? {
        var i := 0;
        while children[i] != ""
          invariant 0 <= i < |children| && "" in children[i..] && "" !in children[..i]
          invariant Valid()
          invariant GraphState(nodes, ids) == EdgesInserted(g0, FromParent(parent, children[..i]), false)
          decreases |children| - i
        {
          assert children[..i + 1] == children[..i] + [children[i]];
          FromParentSnoc(g0, parent, children, i);
          var _ := Insert(parent, children[i]);
          i := i + 1;
        }
        UpToFirst(children, "", i);
        ChildrenEffect(g0, parent, children[..i]);
      }
    }

    /**
     * `insert(parents[], childId)`: `child` is inserted under every parent listed
     * before the `""` terminator, in turn; a parent that is not a node is skipped.
     * The child is created, once, by the first listed parent that exists, and every
     * parent existing at its turn gains an edge to it; nothing else changes.
     */
    method InsertParents(parents: seq<string>, child: string) returns (r: Outcome<GraphError>)
      requires Valid() && "" in parents
      modifies this
      ensures Valid()
      ensures r.Fail? <==> weighted
      ensures r.Fail? ==> nodes == old(nodes) && ids == old(ids)
      ensures r.Pass? ==>
        var g0, es := GraphState(old(nodes), old(ids)), ToChild(UpTo(parents, ""), child);
        && GraphState(nodes, ids) == EdgesInserted(g0, es, false)
        && nodes.Keys == old(nodes).Keys + (if Linked(g0, es, false) then {child} else {})
        && ids == old(ids) + (if Linked(g0, es, false) && child !in old(nodes) then [child] else [])
        && GainsParents(old(nodes), nodes, child, LinkParents(g0, es, false, child))
    {
      ghost var g0 := GraphState(nodes, ids);
      r := ValidateWeight(false);
      if r.Pass? {
        var i := 0;
        while parents[i] != ""
          invariant 0 <= i < |parents| && "" in parents[i..] && "" !in parents[..i]
          invariant Valid()
          invariant GraphState(nodes, ids) == EdgesInserted(g0, ToChild(parents[..i], child), false)
          decreases |parents| - i
        {
          assert parents[..i + 1] == parents[..i] + [parents[i]];
          ToChildSnoc(g0, parents, child, i);
          var _ := Insert(parents[i], child);
          i := i + 1;
        }
        UpToFirst(parents, "", i);
        SameChildEffect(g0, ToChild(parents[..i], child), child, false);
      }
    }

    /**
     * `insert(node, parents[], children[])`: the node is created if absent, then
     * inserted under the listed parents and over the listed children.  The new nodes
     * are the node and the listed children; the new edges run from the listed parents
     * that are nodes by then (the node itself included) and to the listed children.
     */
    method InsertWithNeighbors(node: string, parents: seq<string>, children: seq<string>)
      returns (r: Outcome<GraphError>)
      requires Valid() && "" in parents && "" in children
      modifies this
      ensures Valid()
      ensures r.Fail? <==> weighted
      ensures r.Fail? ==> nodes == old(nodes) && ids == old(ids)
      ensures r.Pass? ==>
        var g0, ps, cs := GraphState(old(nodes), old(ids)), UpTo(parents, ""), UpTo(children, "");
        && GraphState(nodes, ids) ==
             EdgesInserted(EdgesInserted(NodeAdded(g0, node), ToChild(ps, node), false), FromParent(node, cs), false)
        && nodes.Keys == old(nodes).Keys + {node} + Elems(cs)
        && ids == NodeAdded(g0, node).ids + Unseen(cs, old(nodes).Keys + {node})
        && GainsNeighbors(old(nodes), nodes, node, Elems(ps) * (old(nodes).Keys + {node}), Elems(cs))
    {
      ghost var g0 := GraphState(nodes, ids);
      r := ValidateWeight(false);
      if r.Fail? {
        return;
      }
      if node !in nodes {
        CreateNode(node);
      }
      r := InsertParents(parents, node);
      r := InsertChildren(node, children);
      NeighborsEffect(g0, node, UpTo(parents, ""), UpTo(children, ""));
    }

    /**
     * `insert(weighted_edge(&)[])` as written: it keeps inserting while the record's
     * child is `""`, so a list whose first record names a child inserts nothing, and
     * the records it does insert create a node named `""` under their parents.
     */
    method InsertWeightedEdges(edges: seq<WeightedEdge>) returns (r: Outcome<GraphError>)
      requires Valid() && exists k :: 0 <= k < |edges| && edges[k].1 != ""
      modifies this
      ensures Valid()
      ensures r.Fail? <==> !weighted
      ensures r.Fail? || edges[0].1 != "" ==> nodes == old(nodes) && ids == old(ids)
      ensures r.Pass? ==>
        var g0, es := GraphState(old(nodes), old(ids)), ChildRun(edges, false);
        && GraphState(nodes, ids) == EdgesInserted(g0, es, true)
        && nodes.Keys == old(nodes).Keys + (if Linked(g0, es, true) then {""} else {})
        && ids == old(ids) + (if Linked(g0, es, true) && "" !in old(nodes) then [""] else [])
        && GainsParents(old(nodes), nodes, "", LinkParents(g0, es, true, ""))
    {
      ghost var g0 := GraphState(nodes, ids);
      r := ValidateWeight(true);
      if r.Fail? {
        return;
      }
      var i := 0;
      while edges[i].1 == ""
        invariant 0 <= i < |edges| && exists k :: i <= k < |edges| && edges[k].1 != ""
        invariant forall j :: 0 <= j < i ==> edges[j].1 == ""
        invariant Valid() && r.Pass?
        invariant GraphState(nodes, ids) == EdgesInserted(g0, edges[..i], true)
        decreases |edges| - i
      {
        assert edges[..i + 1][..i] == edges[..i];
        r := InsertWeightedEdge(edges[i]);
        i := i + 1;
      }
      ChildRunAt(edges, false, i);
      SameChildEffect(g0, edges[..i], "", true);
    }

    /**
     * `init_edges(weighted_edge(&)[])`: after the weight-mode check, every record
     * before the first one whose child is `""` makes its edge unless the parent
     * already lists the child; the first failing `make_edge` ends it.  The source
     * looks both endpoints up without checking them, so they must be nodes.
     */
    method InitEdges(edges: seq<WeightedEdge>) returns (r: Outcome<GraphError>)
      requires Valid() && exists k :: 0 <= k < |edges| && edges[k].1 == ""
      requires weighted ==> EndpointsIn(nodes, ChildRun(edges, true))
      modifies this
      ensures Valid() && ids == old(ids)
      ensures !weighted ==> r == Fail(WeightedInUnweighted) && nodes == old(nodes)
      ensures weighted ==> (r, nodes) == EdgesLinked(old(nodes), ChildRun(edges, true))
    {
      r := ValidateWeight(true);
      if r.Pass? {
        ghost var run := ChildRun(edges, true);
        ghost var goal := EdgesLinked(nodes, run);
        ghost var todo := run;
        var i := 0;
        while r.Pass? && edges[i].1 != ""
          invariant 0 <= i <= |run| < |edges| && todo == run[i..]
          invariant Valid() && ids == old(ids)
          invariant r.Pass? ==> EndpointsIn(nodes, todo) && goal == EdgesLinked(nodes, todo)
          invariant r.Fail? ==> goal == (r, nodes)
          decreases |run| - i
        {
          assert todo == [edges[i]] + todo[1..];
          EndpointsSplit(nodes, edges[i], todo[1..]);
          ghost var before := nodes;
          if !ContainsId(nodes[edges[i].0].children, edges[i].1) {
            r := MakeEdge(edges[i].0, edges[i].1, edges[i].2);
          }
          EdgesLinkedFirst(before, edges[i], todo[1..], r, nodes);
          todo := todo[1..];
          i := i + 1;
        }
      }
    }

    /** `remove_edge(parentId, childId)`: when both nodes exist, the edge goes from both lists. */
    method RemoveEdge(parent: string, child: string)
      modifies this
      ensures ids == old(ids) && count == old(count)
      ensures nodes == if parent in old(nodes) && child in old(nodes)
                       then WithoutEdge(old(nodes), parent, child) else old(nodes)
      ensures old(Valid()) ==> Valid()
    {
      if parent in nodes && child in nodes {
        if Valid() {
          WithoutEdgeWellFormed(nodes, parent, child);
        }
        var pn := nodes[parent];
        nodes := nodes[parent := pn.(children := RemoveId(pn.children, child))];
        var cn := nodes[child];
        nodes := nodes[child := cn.(parents := RemoveId(cn.parents, parent))];
      }
    }

    /**
     * `remove_node(nodeId)`: the edge from every parent is removed, then the edge to
     * every child, then the node leaves `ids` and the table and `count` drops by one.
     * The source dereferences the node, so it must exist.
     */
    method RemoveNode(x: string)
      requires Valid() && x in nodes
      modifies this
      ensures Valid()
      ensures nodes == Detached(old(nodes), x)
      ensures ids == Without(old(ids), x) && count == old(count) - 1
    {
      ghost var adj0 := nodes;
      var ps := nodes[x].parents;
      var i := 0;
      while i < |ps|
        invariant 0 <= i <= |ps|
        invariant nodes == Unparented(adj0, x, i) && ids == old(ids) && count == old(count)
      {
        UnparentStep(adj0, x, i);
        RemoveEdge(ps[i].id, x);
        i := i + 1;
      }
      UnparentedIsUnchilding(adj0, x);
      var cs := nodes[x].children;
      var j := 0;
      while j < |cs|
        invariant 0 <= j <= |cs|
        invariant nodes == Unchilded(adj0, x, cs, j) && ids == old(ids) && count == old(count)
      {
        UnchildStep(adj0, x, cs, j);
        RemoveEdge(x, cs[j].id);
        j := j + 1;
      }
      UnchildedIsDetached(adj0, x, cs);
      DetachedTable(adj0, ids, x);
      ids := Without(ids, x);
      nodes := nodes - {x};
      count := count - 1;
    }

    /**
     * `swap_nodes(id1, id2)`: the two table entries are exchanged and the two nodes
     * exchange ids; neighbour entries follow the nodes, so the graph keeps its shape
     * with the two names exchanged.
     */
    method SwapNodes(a: string, b: string)
      requires Valid() && a in nodes && b in nodes
      modifies this
      ensures Valid() && ids == old(ids) && count == old(count)
      ensures nodes == Swapped(old(nodes), a, b)
    {
      SwapWellFormed(nodes, a, b);
      nodes := Swapped(nodes, a, b);
    }

    /** `transpose`: every node of the key list has its two lists exchanged in place. */
    method Transpose()
      requires Valid()
      modifies this
      ensures Valid() && ids == old(ids) && count == old(count)
      ensures nodes == Transposed(old(nodes))
    {
      TransposeWellFormed(nodes);
      var keys := nodes.Keys;
      while keys != {}
        invariant keys <= nodes.Keys && nodes.Keys == old(nodes).Keys
        invariant ids == old(ids) && count == old(count)
        invariant forall k :: k in nodes ==>
          nodes[k] == (if k in keys then old(nodes)[k] else Transposed(old(nodes))[k])
        decreases keys
      {
        var k :| k in keys;
        var node := nodes[k];
        nodes := nodes[k := GraphNode(node.parents, node.children)];
        keys := keys - {k};
      }
      assert nodes == Transposed(old(nodes));
    }
  }

  // ---------------------------------------------------------------------------
  // Steps of `remove_node`
  // ---------------------------------------------------------------------------

  /** Dropping `x` from a valid table and its id list leaves a valid table and id list. */
  lemma DetachedTable(adj0: Adjacency, ids: seq<string>, x: string)
    requires WellFormed(adj0) && Distinct(ids) && (forall k :: k in adj0 <==> k in ids) && x in adj0
    ensures WellFormed(Detached(adj0, x)) && Distinct(Without(ids, x))
    ensures forall k :: k in Detached(adj0, x) <==> k in Without(ids, x)
    ensures |Without(ids, x)| == |ids| - 1
  {
    DetachedWellFormed(adj0, x);
    WithoutDistinct(ids, x);
  }

  /**
   * Entry `k` of the table while the parents of `x` are unlinked: the parents in
   * `done` no longer list `x` as a child, and `x` still lists the parents `rest`.
   */
  ghost function UnparentedEntry(adj0: Adjacency, x: string, done: seq<Neighbor>, rest: seq<Neighbor>, k: string): GraphNode
    requires k in adj0
  {
    GraphNode(if ContainsId(done, k) then RemoveId(adj0[k].children, x) else adj0[k].children,
              if k == x then rest else adj0[k].parents)
  }

  ghost function PartlyUnparented(adj0: Adjacency, x: string, done: seq<Neighbor>, rest: seq<Neighbor>): Adjacency
  {
    map k | k in adj0 :: UnparentedEntry(adj0, x, done, rest, k)
  }

  /**
   * Entry `k` of the table while the children of `x` are unlinked: no node lists
   * `x` as a child any more, the children in `done` no longer list `x` as a
   * parent, and `x` still lists the children `rest`.
   */
  ghost function UnchildedEntry(adj0: Adjacency, x: string, done: seq<Neighbor>, rest: seq<Neighbor>, k: string): GraphNode
    requires k in adj0
  {
    if k == x then GraphNode(rest, [])
    else GraphNode(RemoveId(adj0[k].children, x),
                   if ContainsId(done, k) then RemoveId(adj0[k].parents, x) else adj0[k].parents)
  }

  ghost function PartlyUnchilded(adj0: Adjacency, x: string, done: seq<Neighbor>, rest: seq<Neighbor>): Adjacency
  {
    map k | k in adj0 :: UnchildedEntry(adj0, x, done, rest, k)
  }

  /** The table after the first `i` rounds of the parent loop of `remove_node(x)`. */
  ghost function Unparented(adj0: Adjacency, x: string, i: int): Adjacency
    requires x in adj0 && 0 <= i <= |adj0[x].parents|
  {
    PartlyUnparented(adj0, x, adj0[x].parents[..i], adj0[x].parents[i..])
  }

  /** The table after the first `j` rounds of the child loop of `remove_node(x)`, which runs over `cs`. */
  ghost function Unchilded(adj0: Adjacency, x: string, cs: seq<Neighbor>, j: int): Adjacency
    requires 0 <= j <= |cs|
  {
    PartlyUnchilded(adj0, x, cs[..j], cs[j..])
  }

  /** The parent unlinked in step `i` exists, and unlinking it advances the table by one parent. */
  lemma UnparentStep(adj0: Adjacency, x: string, i: int)
    requires WellFormed(adj0) && x in adj0 && 0 <= i < |adj0[x].parents|
    ensures adj0[x].parents[i].id in adj0
    ensures WithoutEdge(Unparented(adj0, x, i), adj0[x].parents[i].id, x) == Unparented(adj0, x, i + 1)
  {
    var ps := adj0[x].parents;
    ParentMirrored(adj0, x, ps[i]);
    ListsDistinct(adj0, x);
    FreshInPrefix(ps, i);
    assert ps[i..] == [ps[i]] + ps[i + 1..];
    assert ps[..i + 1] == ps[..i] + [ps[i]];
    UnparentAdvance(adj0, x, ps[..i], ps[i], ps[i + 1..]);
  }

  lemma UnparentAdvance(adj0: Adjacency, x: string, done: seq<Neighbor>, nb: Neighbor, rest: seq<Neighbor>)
    requires x in adj0 && nb.id in adj0
    requires !ContainsId(done, nb.id) && RemoveId([nb] + rest, nb.id) == rest
    ensures WithoutEdge(PartlyUnparented(adj0, x, done, [nb] + rest), nb.id, x)
      == PartlyUnparented(adj0, x, done + [nb], rest)
  {
    var m1 := PartlyUnparented(adj0, x, done + [nb], rest);
    var r := WithoutEdge(PartlyUnparented(adj0, x, done, [nb] + rest), nb.id, x);
    WithoutEdgeAt(PartlyUnparented(adj0, x, done, [nb] + rest), nb.id, x, x);
    forall k | k in adj0 ensures r[k] == m1[k] {
      UnparentStepAt(adj0, x, done, nb, rest, k);
    }
  }

  lemma FreshInPrefix(ns: seq<Neighbor>, i: int)
    requires DistinctIds(ns) && 0 <= i < |ns|
    ensures !ContainsId(ns[..i], ns[i].id)
    ensures RemoveId(ns[i..], ns[i].id) == ns[i + 1..]
  {
    assert DistinctIds(ns[i..]) by {
      forall a, b | 0 <= a < b < |ns[i..]| ensures ns[i..][a].id != ns[i..][b].id {
        assert ns[i..][a] == ns[i + a] && ns[i..][b] == ns[i + b];
      }
    }
    RemoveIdHead(ns[i..]);
    assert ns[i..][1..] == ns[i + 1..];
  }

  lemma UnparentStepAt(adj0: Adjacency, x: string, done: seq<Neighbor>, nb: Neighbor, rest: seq<Neighbor>, k: string)
    requires x in adj0 && nb.id in adj0 && k in adj0
    requires !ContainsId(done, nb.id) && RemoveId([nb] + rest, nb.id) == rest
    ensures WithoutEdge(PartlyUnparented(adj0, x, done, [nb] + rest), nb.id, x).Keys == adj0.Keys
    ensures WithoutEdge(PartlyUnparented(adj0, x, done, [nb] + rest), nb.id, x)[k]
      == UnparentedEntry(adj0, x, done + [nb], rest, k)
  {
    var m0 := PartlyUnparented(adj0, x, done, [nb] + rest);
    assert m0[k] == UnparentedEntry(adj0, x, done, [nb] + rest, k);
    assert m0[nb.id] == UnparentedEntry(adj0, x, done, [nb] + rest, nb.id);
    WithoutEdgeAt(m0, nb.id, x, k);
    AppendContains(done, nb, k);
  }

  /** Once every parent is unlinked, the table is the start of the children loop. */
  lemma UnparentedIsUnchilding(adj0: Adjacency, x: string)
    requires WellFormed(adj0) && x in adj0
    ensures Unparented(adj0, x, |adj0[x].parents|)[x].children == RemoveId(adj0[x].children, x)
    ensures Unparented(adj0, x, |adj0[x].parents|) == Unchilded(adj0, x, RemoveId(adj0[x].children, x), 0)
  {
    var ps := adj0[x].parents;
    var cs := RemoveId(adj0[x].children, x);
    assert ps[..|ps|] == ps && ps[|ps|..] == [];
    assert cs[..0] == [] && cs[0..] == cs;
    var m0 := PartlyUnparented(adj0, x, adj0[x].parents, []);
    var m1 := PartlyUnchilded(adj0, x, [], RemoveId(adj0[x].children, x));
    forall k | k in adj0 ensures m0[k] == m1[k] {
      UnparentedEntryIsUnchilding(adj0, x, k);
    }
  }

  lemma UnparentedEntryIsUnchilding(adj0: Adjacency, x: string, k: string)
    requires WellFormed(adj0) && x in adj0 && k in adj0
    ensures UnparentedEntry(adj0, x, adj0[x].parents, [], k)
      == UnchildedEntry(adj0, x, [], RemoveId(adj0[x].children, x), k)
  {
    EdgeBothWays(adj0, k, x);
    if !ContainsId(adj0[x].parents, k) {
      RemoveIdAbsent(adj0[k].children, x);
    }
    assert !ContainsId([], k);
  }

  /** The child unlinked in step `j` exists, differs from `x`, and unlinking it advances the table by one child. */
  lemma UnchildStep(adj0: Adjacency, x: string, cs: seq<Neighbor>, j: int)
    requires WellFormed(adj0) && x in adj0 && cs == RemoveId(adj0[x].children, x) && 0 <= j < |cs|
    ensures cs[j].id in adj0 && cs[j].id != x
    ensures WithoutEdge(Unchilded(adj0, x, cs, j), x, cs[j].id) == Unchilded(adj0, x, cs, j + 1)
  {
    ChildOfDetached(adj0, x, cs, j);
    UnchildStepIn(adj0, x, cs, j);
  }

  lemma UnchildStepIn(adj0: Adjacency, x: string, cs: seq<Neighbor>, j: int)
    requires x in adj0 && DistinctIds(cs) && 0 <= j < |cs| && cs[j].id in adj0 && cs[j].id != x
    ensures WithoutEdge(Unchilded(adj0, x, cs, j), x, cs[j].id) == Unchilded(adj0, x, cs, j + 1)
  {
    FreshInPrefix(cs, j);
    var done, nb, rest := cs[..j], cs[j], cs[j + 1..];
    assert cs[j..] == [nb] + rest;
    assert cs[..j + 1] == done + [nb];
    assert Unchilded(adj0, x, cs, j) == PartlyUnchilded(adj0, x, done, [nb] + rest);
    assert Unchilded(adj0, x, cs, j + 1) == PartlyUnchilded(adj0, x, done + [nb], rest);
    UnchildAdvance(adj0, x, done, nb, rest);
  }

  lemma UnchildAdvance(adj0: Adjacency, x: string, done: seq<Neighbor>, nb: Neighbor, rest: seq<Neighbor>)
    requires x in adj0 && nb.id in adj0 && nb.id != x
    requires !ContainsId(done, nb.id) && RemoveId([nb] + rest, nb.id) == rest
    ensures WithoutEdge(PartlyUnchilded(adj0, x, done, [nb] + rest), x, nb.id)
      == PartlyUnchilded(adj0, x, done + [nb], rest)
  {
    var m1 := PartlyUnchilded(adj0, x, done + [nb], rest);
    var r := WithoutEdge(PartlyUnchilded(adj0, x, done, [nb] + rest), x, nb.id);
    WithoutEdgeAt(PartlyUnchilded(adj0, x, done, [nb] + rest), x, nb.id, x);
    forall k | k in adj0 ensures r[k] == m1[k] {
      UnchildStepAt(adj0, x, done, nb, rest, k);
    }
  }

  lemma ChildOfDetached(adj0: Adjacency, x: string, cs: seq<Neighbor>, j: int)
    requires WellFormed(adj0) && x in adj0 && cs == RemoveId(adj0[x].children, x) && 0 <= j < |cs|
    ensures cs[j].id in adj0 && cs[j].id != x && DistinctIds(cs)
  {
    assert cs[j] in cs;
    ChildMirrored(adj0, x, cs[j]);
    ListsDistinct(adj0, x);
    RemoveIdDistinct(adj0[x].children, x);
  }

  lemma UnchildStepAt(adj0: Adjacency, x: string, done: seq<Neighbor>, nb: Neighbor, rest: seq<Neighbor>, k: string)
    requires x in adj0 && nb.id in adj0 && nb.id != x && k in adj0
    requires !ContainsId(done, nb.id) && RemoveId([nb] + rest, nb.id) == rest
    ensures WithoutEdge(PartlyUnchilded(adj0, x, done, [nb] + rest), x, nb.id).Keys == adj0.Keys
    ensures WithoutEdge(PartlyUnchilded(adj0, x, done, [nb] + rest), x, nb.id)[k]
      == UnchildedEntry(adj0, x, done + [nb], rest, k)
  {
    var m0 := PartlyUnchilded(adj0, x, done, [nb] + rest);
    assert m0[k] == UnchildedEntry(adj0, x, done, [nb] + rest, k);
    assert m0[x] == UnchildedEntry(adj0, x, done, [nb] + rest, x);
    WithoutEdgeAt(m0, x, nb.id, k);
    AppendContains(done, nb, k);
  }

  lemma UnchildedIsDetached(adj0: Adjacency, x: string, cs: seq<Neighbor>)
    requires WellFormed(adj0) && x in adj0 && cs == RemoveId(adj0[x].children, x)
    ensures Unchilded(adj0, x, cs, |cs|) - {x} == Detached(adj0, x)
  {
    assert cs[..|cs|] == cs && cs[|cs|..] == [];
    var m := PartlyUnchilded(adj0, x, cs, []) - {x};
    var d := Detached(adj0, x);
    forall k | k in d ensures m[k] == d[k] {
      StrippedParents(adj0, x, cs, k);
    }
  }

  lemma StrippedParents(adj0: Adjacency, x: string, cs: seq<Neighbor>, k: string)
    requires WellFormed(adj0) && x in adj0 && k in adj0 && k != x && cs == RemoveId(adj0[x].children, x)
    ensures (if ContainsId(cs, k) then RemoveId(adj0[k].parents, x) else adj0[k].parents)
      == RemoveId(adj0[k].parents, x)
  {
    EdgeBothWays(adj0, x, k);
    if ContainsId(adj0[x].children, k) {
      var nb :| nb in adj0[x].children && nb.id == k;
      assert nb in cs;
    } else {
      RemoveIdAbsent(adj0[k].parents, x);
    }
  }
}
