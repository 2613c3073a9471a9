/**
 * `dijsktras_algorithm` and `shortest_path` of graph.cpp.  The `remaining`
 * priority queue is the binary heap of binary_heap.h, whose operations have no
 * implementation; it is modelled as a list of `(id, distance)` entries from which
 * `pop` extracts the first entry of least distance (the left bias of
 * `priority_arg`) and `update_node` lowers the distance of an entry still present.
 * The `pathToNodeWeight` and `previous` hash tables are maps.
 */
module ShortestPaths {
  import opened Wrappers
  import opened Sequences
  import opened GraphStore

  /** A path weight: a number, or `INFINITY`. */
  datatype Dist = Fin(n: int) | Inf

  /** `a + w` in floating point: infinity absorbs every finite weight. */
  function Add(a: Dist, w: int): Dist {
    if a.Inf? then Inf else Fin(a.n + w)
  }

  /** `a <= b`, infinity above every number. */
  predicate AtMost(a: Dist, b: Dist) {
    b.Inf? || (a.Fin? && a.n <= b.n)
  }

  /** `a < b`, infinity above every number; `INFINITY < INFINITY` is false. */
  predicate Below(a: Dist, b: Dist) {
    a.Fin? && (b.Inf? || a.n < b.n)
  }

  // ---------------------------------------------------------------------------
  // Routes
  // ---------------------------------------------------------------------------

  /** `steps` are child entries leading from `from` to `to`, each taken from the node the previous one names. */
  ghost predicate IsRoute(adj: Adjacency, from: string, steps: seq<Neighbor>, to: string)
    decreases |steps|
  {
    from in adj && if steps == [] then to == from else steps[0] in adj[from].children && IsRoute(adj, steps[0].id, steps[1..], to)
  }

  /** The sum of the weights of the entries. */
  function RouteWeight(steps: seq<Neighbor>): int {
    if steps == [] then 0 else steps[0].weight + RouteWeight(steps[1..])
  }

  /** A route to `u` followed by a child entry of `u` is a route to that child, one weight heavier. */
  lemma {:induction false} RouteSnoc(adj: Adjacency, from: string, steps: seq<Neighbor>, u: string, nb: Neighbor)
    requires WellFormed(adj) && IsRoute(adj, from, steps, u) && u in adj && nb in adj[u].children
    ensures IsRoute(adj, from, steps + [nb], nb.id)
    ensures RouteWeight(steps + [nb]) == RouteWeight(steps) + nb.weight
    decreases |steps|
  {
    ChildMirrored(adj, u, nb);
    if steps == [] {
      assert ([] + [nb])[1..] == [];
    } else {
      assert (steps + [nb])[1..] == steps[1..] + [nb];
      RouteSnoc(adj, steps[0].id, steps[1..], u, nb);
    }
  }

  /** No edge weight is negative (`-1`, the unweighted marker, is). */
  ghost predicate NonNegative(adj: Adjacency) {
    forall u, nb :: u in adj && nb in adj[u].children ==> nb.weight >= 0
  }

  /** Every edge out of `u` satisfies the triangle inequality. */
  ghost predicate RelaxedAt(adj: Adjacency, dist: map<string, Dist>, u: string) {
    && u in adj && u in dist
    && forall nb :: nb in adj[u].children ==> nb.id in dist && AtMost(dist[nb.id], Add(dist[u], nb.weight))
  }

  /**
   * Distances that satisfy the triangle inequality on every edge and are 0 at
   * `start` bound the weight of every route from `start`.
   */
  lemma {:induction false} TriangleBoundsRoutes(adj: Adjacency, dist: map<string, Dist>, x: string,
                                                steps: seq<Neighbor>, v: string)
    requires forall u :: u in adj ==> RelaxedAt(adj, dist, u)
    requires IsRoute(adj, x, steps, v) && x in dist && dist[x].Fin?
    ensures v in dist && AtMost(dist[v], Fin(dist[x].n + RouteWeight(steps)))
    decreases |steps|
  {
    if steps != [] {
      assert RelaxedAt(adj, dist, x);
      TriangleBoundsRoutes(adj, dist, steps[0].id, steps[1..], v);
    }
  }

  // ---------------------------------------------------------------------------
  // The priority queue
  // ---------------------------------------------------------------------------

  type Entry = (string, Dist)

  /** `pop`'s choice: the first entry of least distance. */
  function FirstMin(h: seq<Entry>): (i: int)
    requires h != []
    ensures 0 <= i < |h|
    ensures forall j :: 0 <= j < |h| ==> AtMost(h[i].1, h[j].1)
    ensures forall j :: 0 <= j < i ==> Below(h[i].1, h[j].1)
  {
    if |h| == 1 then 0
    else
      var k := FirstMin(h[1..]) + 1;
      assert h[k] == h[1..][k - 1];
      assert forall j :: 1 <= j < |h| ==> h[j] == h[1..][j - 1];
      if AtMost(h[0].1, h[k].1) then 0 else k
  }

  /** `update_node(id, d)`: the entry for `id`, if still present, takes distance `d`. */
  function Update(h: seq<Entry>, id: string, d: Dist): (r: seq<Entry>)
    ensures |r| == |h|
    ensures forall j :: 0 <= j < |h| ==> r[j] == if h[j].0 == id then (id, d) else h[j]
  {
    seq(|h|, j requires 0 <= j < |h| => if h[j].0 == id then (id, d) else h[j])
  }

  function Ids(h: seq<Entry>): (r: seq<string>)
    ensures |r| == |h| && forall j :: 0 <= j < |h| ==> r[j] == h[j].0
  {
    seq(|h|, j requires 0 <= j < |h| => h[j].0)
  }

  // ---------------------------------------------------------------------------
  // dijsktras_algorithm
  // ---------------------------------------------------------------------------

  /** A finite distance is the weight of a route from `start`. */
  ghost predicate Realised(adj: Adjacency, start: string, dist: map<string, Dist>, v: string) {
    v in dist && dist[v].Fin? ==> exists steps :: IsRoute(adj, start, steps, v) && RouteWeight(steps) == dist[v].n
  }

  /**
   * The predecessor of a node is `""` while its distance is infinite; a node with a
   * finite distance is `start` with itself as predecessor, or its predecessor has
   * an edge to it.
   */
  ghost predicate PredecessorOk(adj: Adjacency, start: string, prev: map<string, string>, dist: map<string, Dist>, v: string) {
    && v in prev && v in dist
    && (dist[v].Inf? ==> prev[v] == "")
    && (dist[v].Fin? ==> (v == start && prev[v] == start) || HasEdge(adj, prev[v], v))
  }

  /** Every node's distance is realised and its predecessor is sound. */
  ghost predicate Labels(adj: Adjacency, start: string, prev: map<string, string>, dist: map<string, Dist>) {
    forall v :: v in adj ==> Realised(adj, start, dist, v) && PredecessorOk(adj, start, prev, dist, v)
  }

  /** The queue names distinct nodes, each with its recorded distance. */
  ghost predicate HeapOk(adj: Adjacency, heap: seq<Entry>, dist: map<string, Dist>) {
    && Distinct(Ids(heap))
    && forall j :: 0 <= j < |heap| ==> heap[j].0 in adj && heap[j].0 in dist && dist[heap[j].0] == heap[j].1
  }

  /** Every node is queued or settled, not both. */
  ghost predicate Split(adj: Adjacency, heap: seq<Entry>, settled: set<string>) {
    && (forall v :: v in adj <==> v in Ids(heap) || v in settled)
    && (forall v :: v in settled ==> v !in Ids(heap))
  }

  /** Without negative weights: `start` keeps its label and no distance is negative. */
  ghost predicate StartKept(start: string, prev: map<string, string>, dist: map<string, Dist>) {
    && start in dist && dist[start] == Fin(0) && start in prev && prev[start] == start
    && (forall v :: v in dist && dist[v].Fin? ==> dist[v].n >= 0)
  }

  /** Without negative weights: settled nodes are no further than queued ones, and relaxed. */
  ghost predicate SettledOk(adj: Adjacency, heap: seq<Entry>, settled: set<string>, dist: map<string, Dist>) {
    && (forall u, j :: u in settled && 0 <= j < |heap| ==> u in dist && AtMost(dist[u], heap[j].1))
    && (forall u :: u in settled ==> RelaxedAt(adj, dist, u))
  }

  /** The weight of the edge `u -> v`: that of `u`'s child entry naming `v`. */
  function EdgeWeight(adj: Adjacency, u: string, v: string): int
    requires HasEdge(adj, u, v)
  {
    GetId(adj[u].children, v).value.weight
  }

  /**
   * Node `v`, at a finite distance, hangs off its predecessor by a tight edge: the
   * predecessor is settled, at a finite distance, and that distance plus the edge's
   * weight is `v`'s; if `v` is settled too, the predecessor was settled first.
   */
  ghost predicate TightAt(adj: Adjacency, prev: map<string, string>, dist: map<string, Dist>,
                          settled: set<string>, rank: map<string, nat>, v: string) {
    && v in dist && dist[v].Fin? && v in prev && prev[v] in dist && prev[v] in settled && prev[v] in rank
    && HasEdge(adj, prev[v], v) && dist[prev[v]].Fin?
    && dist[v].n == dist[prev[v]].n + EdgeWeight(adj, prev[v], v)
    && (v in settled ==> v in rank && rank[prev[v]] < rank[v])
  }

  /**
   * Without negative weights: `rank` numbers the settled nodes in settling order,
   * and every node other than `start` at a finite distance hangs off its
   * predecessor by a tight edge.
   */
  ghost predicate Tight(adj: Adjacency, start: string, prev: map<string, string>, dist: map<string, Dist>,
                        settled: set<string>, rank: map<string, nat>) {
    && rank.Keys == settled
    && (forall s :: s in settled ==> rank[s] < |settled|)
    && (forall v :: v in dist && v != start && dist[v].Fin? ==> TightAt(adj, prev, dist, settled, rank, v))
  }

  /**
   * The first half of `dijsktras_algorithm`: the queue holds `start` at 0 and every
   * other key, in key-list order, at infinity; `start` is its own predecessor and
   * every other node has predecessor `""`.
   */
  method Initialise(adj: Adjacency, start: string, keys: seq<string>)
    returns (heap: seq<Entry>, prev: map<string, string>, dist: map<string, Dist>)
    requires WellFormed(adj) && start in adj && Distinct(keys) && forall v :: v in keys <==> v in adj
    ensures prev.Keys == adj.Keys && dist.Keys == adj.Keys
    ensures forall v :: v in adj ==> prev[v] == (if v == start then start else "")
    ensures forall v :: v in adj ==> dist[v] == (if v == start then Fin(0) else Inf)
    ensures HeapOk(adj, heap, dist) && Split(adj, heap, {})
    ensures Labels(adj, start, prev, dist) && StartKept(start, prev, dist)
    ensures OuterInv(adj, start, heap, {}, map[], prev, dist, NonNegative(adj))
  {
    heap := [(start, Fin(0))];
    dist := map[start := Fin(0)];
    prev := map[start := start];
    var rest := keys;
    assert Ids(heap) == [start];
    while rest != []
      invariant InitInv(adj, start, rest, heap, prev, dist)
      decreases |rest|
    {
      var id := rest[0];
      if id == start {
        InitSkip(adj, start, rest, heap, prev, dist);
      } else {
        InitStep(adj, start, rest, heap, prev, dist);
        heap := heap + [(id, Inf)];
        dist := dist[id := Inf];
        prev := prev[id := ""];
      }
      rest := rest[1..];
    }
    InitialLabels(adj, start, heap, prev, dist);
  }

  /** The loop over the key list in `Initialise`: the keys not yet in `rest` are queued and labelled. */
  ghost predicate InitInv(adj: Adjacency, start: string, rest: seq<string>, heap: seq<Entry>,
                          prev: map<string, string>, dist: map<string, Dist>) {
    && Distinct(rest) && (forall v :: v in rest ==> v in adj)
    && (forall v :: v in dist <==> v == start || (v in adj && v !in rest))
    && prev.Keys == dist.Keys
    && (forall v :: v in prev ==> prev[v] == (if v == start then start else ""))
    && (forall v :: v in dist ==> dist[v] == (if v == start then Fin(0) else Inf))
    && Distinct(Ids(heap)) && (forall v :: v in Ids(heap) <==> v in dist)
    && (forall j :: 0 <= j < |heap| ==> heap[j].1 == (if heap[j].0 == start then Fin(0) else Inf))
  }

  /** Queueing the next key at infinity keeps the loop invariant. */
  lemma InitStep(adj: Adjacency, start: string, rest: seq<string>, heap: seq<Entry>,
                 prev: map<string, string>, dist: map<string, Dist>)
    requires InitInv(adj, start, rest, heap, prev, dist) && rest != [] && rest[0] != start
    ensures InitInv(adj, start, rest[1..], heap + [(rest[0], Inf)], prev[rest[0] := ""], dist[rest[0] := Inf])
  {
    var id := rest[0];
    assert id !in rest[1..];
    InitQueue(start, heap, dist, id);
  }

  /** `start`, queued already, is passed over. */
  lemma InitSkip(adj: Adjacency, start: string, rest: seq<string>, heap: seq<Entry>,
                 prev: map<string, string>, dist: map<string, Dist>)
    requires InitInv(adj, start, rest, heap, prev, dist) && rest != [] && rest[0] == start
    ensures InitInv(adj, start, rest[1..], heap, prev, dist)
  {
    assert start !in rest[1..];
  }

  /** Appending an unqueued node at infinity keeps the queue distinct and at its initial values. */
  lemma InitQueue(start: string, heap: seq<Entry>, dist: map<string, Dist>, id: string)
    requires Distinct(Ids(heap)) && (forall v :: v in Ids(heap) <==> v in dist) && id !in dist && id != start
    requires forall j :: 0 <= j < |heap| ==> heap[j].1 == (if heap[j].0 == start then Fin(0) else Inf)
    ensures Distinct(Ids(heap + [(id, Inf)])) && (forall v :: v in Ids(heap + [(id, Inf)]) <==> v in dist[id := Inf])
    ensures forall j :: 0 <= j < |heap| + 1 ==>
      (heap + [(id, Inf)])[j].1 == (if (heap + [(id, Inf)])[j].0 == start then Fin(0) else Inf)
  {
    var h' := heap + [(id, Inf)];
    assert Ids(h') == Ids(heap) + [id];
    forall j | 0 <= j < |h'| ensures h'[j].1 == (if h'[j].0 == start then Fin(0) else Inf) {
      if j < |heap| {
        assert h'[j] == heap[j];
      }
    }
  }

  /** The initial queue and labels satisfy the invariant of the main loop. */
  lemma InitialLabels(adj: Adjacency, start: string, heap: seq<Entry>, prev: map<string, string>, dist: map<string, Dist>)
    requires WellFormed(adj) && start in adj
    requires forall v :: v in dist <==> v in adj
    requires prev.Keys == dist.Keys
    requires forall v :: v in prev ==> prev[v] == (if v == start then start else "")
    requires forall v :: v in dist ==> dist[v] == (if v == start then Fin(0) else Inf)
    requires Distinct(Ids(heap)) && forall v :: v in Ids(heap) <==> v in dist
    requires forall j :: 0 <= j < |heap| ==> heap[j].1 == (if heap[j].0 == start then Fin(0) else Inf)
    ensures HeapOk(adj, heap, dist) && Split(adj, heap, {})
    ensures Labels(adj, start, prev, dist) && StartKept(start, prev, dist)
    ensures OuterInv(adj, start, heap, {}, map[], prev, dist, NonNegative(adj))
  {
    forall v | v in adj ensures Realised(adj, start, dist, v) {
      if v == start {
        assert IsRoute(adj, start, [], start);
      }
    }
    forall j | 0 <= j < |heap| ensures heap[j].0 in adj && heap[j].0 in dist && dist[heap[j].0] == heap[j].1 {
      assert heap[j].0 in Ids(heap);
    }
  }

  /**
   * `dijsktras_algorithm(start, previous)`: while the queue is not empty, pop the
   * entry of least distance and, for each child entry of that node in list order,
   * route through it when that is strictly lighter than the child's recorded
   * distance: record the routed distance, lower the child's queue entry and make
   * the popped node its predecessor.  `keys` is the node table's key list.
   *
   * Whatever the weights, every finite distance is the weight of a route from
   * `start`, and every predecessor is an edge into its node.  Without negative
   * weights, `start` keeps distance 0 and itself as predecessor and the distances
   * satisfy the triangle inequality on every edge, so by `TriangleBoundsRoutes`
   * each is the least weight of any route from `start`.
   */
  method Dijkstra(adj: Adjacency, start: string, keys: seq<string>)
    returns (prev: map<string, string>, dist: map<string, Dist>, ghost rank: map<string, nat>)
    requires WellFormed(adj) && start in adj && Distinct(keys) && forall v :: v in keys <==> v in adj
    ensures prev.Keys == adj.Keys && dist.Keys == adj.Keys
    ensures Labels(adj, start, prev, dist)
    ensures NonNegative(adj) ==> dist[start] == Fin(0) && prev[start] == start
    ensures NonNegative(adj) ==> forall u :: u in adj ==> RelaxedAt(adj, dist, u)
    ensures NonNegative(adj) ==> Tight(adj, start, prev, dist, adj.Keys, rank)
  {
    var heap;
    heap, prev, dist := Initialise(adj, start, keys);
    ghost var settled: set<string> := {};
    rank := map[];
    ghost var nn := NonNegative(adj);
    while heap != []
      invariant OuterInv(adj, start, heap, settled, rank, prev, dist, nn)
      decreases |heap|
    {
      var i := FirstMin(heap);
      var u := heap[i].0;
      var d := heap[i].1;
      ghost var before := settled;
      ghost var route := PopStep(adj, start, heap, i, settled, rank, prev, dist, nn);
      ghost var n := |heap|;
      heap := heap[..i] + heap[i + 1..];
      assert |heap| == n - 1;
      rank := rank[u := |settled|];
      settled := settled + {u};
      ghost var dist0 := dist;
      heap, prev, dist := RelaxChildren(adj, start, u, d, heap, prev, dist, settled, before, rank, route, nn);
      InnerDone(adj, start, heap, settled, before, rank, prev, dist, dist0, u, d, route, adj[u].children, nn);
    }
    OuterDone(adj, start, settled, rank, prev, dist, nn);
  }

  /**
   * The inner loop of `dijsktras_algorithm`: for each child entry of the popped
   * node `u`, in list order, route through `u` when `d` plus the entry's weight is
   * strictly below the child's recorded distance.
   */
  method RelaxChildren(adj: Adjacency, start: string, u: string, d: Dist, heap: seq<Entry>,
                       prev: map<string, string>, dist: map<string, Dist>,
                       ghost settled: set<string>, ghost before: set<string>, ghost rank: map<string, nat>, ghost route: seq<Neighbor>, ghost nn: bool)
    returns (heap': seq<Entry>, prev': map<string, string>, dist': map<string, Dist>)
    requires u in adj
    requires InnerInv(adj, start, heap, settled, before, rank, prev, dist, dist, u, d, route, adj[u].children, 0, nn)
    ensures |heap'| == |heap|
    ensures InnerInv(adj, start, heap', settled, before, rank, prev', dist', dist, u, d, route, adj[u].children, |adj[u].children|, nn)
  {
    heap', prev', dist' := heap, prev, dist;
    var kids := adj[u].children;
    var k := 0;
    while k < |kids|
      invariant InnerInv(adj, start, heap', settled, before, rank, prev', dist', dist, u, d, route, kids, k, nn)
      invariant |heap'| == |heap|
    {
      var nb := kids[k];
      var routed := Add(d, nb.weight);
      InnerDomain(adj, start, heap', settled, before, rank, prev', dist', dist, u, d, route, kids, k, nn);
      if Below(routed, dist'[nb.id]) {
        RelaxStep(adj, start, heap', settled, before, rank, prev', dist', dist, u, d, route, kids, k, nn);
        dist' := dist'[nb.id := routed];
        heap' := Update(heap', nb.id, routed);
        prev' := prev'[nb.id := u];
      } else {
        SkipStep(adj, start, heap', settled, before, rank, prev', dist', dist, u, d, route, kids, k, nn);
      }
      k := k + 1;
    }
  }

  /** The invariant of the main loop. */
  ghost predicate OuterInv(adj: Adjacency, start: string, heap: seq<Entry>, settled: set<string>, rank: map<string, nat>,
                           prev: map<string, string>, dist: map<string, Dist>, nn: bool) {
    && WellFormed(adj) && start in adj && nn == NonNegative(adj)
    && prev.Keys == adj.Keys && dist.Keys == adj.Keys
    && HeapOk(adj, heap, dist) && Split(adj, heap, settled) && Labels(adj, start, prev, dist)
    && (nn ==> StartKept(start, prev, dist) && SettledOk(adj, heap, settled, dist) && Tight(adj, start, prev, dist, settled, rank))
  }

  /** Popping the least entry starts the loop over its node's children; `route` realises its distance. */
  lemma PopStep(adj: Adjacency, start: string, heap: seq<Entry>, i: int, settled: set<string>, rank: map<string, nat>,
                prev: map<string, string>, dist: map<string, Dist>, nn: bool) returns (route: seq<Neighbor>)
    requires OuterInv(adj, start, heap, settled, rank, prev, dist, nn) && heap != [] && i == FirstMin(heap)
    ensures heap[i].0 in adj
    ensures InnerInv(adj, start, heap[..i] + heap[i + 1..], settled + {heap[i].0}, settled, rank[heap[i].0 := |settled|], prev, dist, dist,
                     heap[i].0, heap[i].1, route, adj[heap[i].0].children, 0, nn)
  {
    var u := heap[i].0;
    var d := heap[i].1;
    PopHeap(adj, heap, i, settled, dist);
    if nn {
      PopSettled(adj, heap, i, settled, dist);
      PopTight(adj, start, prev, dist, settled, rank, u);
    }
    route := [];
    if d.Fin? {
      assert Realised(adj, start, dist, u);
      route :| IsRoute(adj, start, route, u) && RouteWeight(route) == d.n;
    }
    InnerStart(adj, start, heap[..i] + heap[i + 1..], settled + {u}, settled, rank[u := |settled|], prev, dist, u, d, route, adj[u].children, nn);
  }

  /** When the queue is empty every node is settled, hence relaxed. */
  lemma OuterDone(adj: Adjacency, start: string, settled: set<string>, rank: map<string, nat>,
                  prev: map<string, string>, dist: map<string, Dist>, nn: bool)
    requires OuterInv(adj, start, [], settled, rank, prev, dist, nn)
    ensures prev.Keys == adj.Keys && dist.Keys == adj.Keys && Labels(adj, start, prev, dist)
    ensures nn ==> dist[start] == Fin(0) && prev[start] == start
    ensures nn ==> forall u :: u in adj ==> RelaxedAt(adj, dist, u)
    ensures nn ==> Tight(adj, start, prev, dist, adj.Keys, rank)
  {
    assert Ids([]) == [];
    assert settled == adj.Keys;
  }

  /** What stays fixed while the children of the popped node `u` at distance `d` are relaxed. */
  ghost predicate InnerFrame(adj: Adjacency, start: string, settled: set<string>, before: set<string>,
                             u: string, d: Dist, route: seq<Neighbor>, kids: seq<Neighbor>, nn: bool) {
    && WellFormed(adj) && start in adj && u in adj && kids == adj[u].children && DistinctIds(kids)
    && nn == NonNegative(adj) && settled == before + {u}
    && (forall j :: 0 <= j < |kids| ==> kids[j].id in adj)
    && (d.Fin? ==> IsRoute(adj, start, route, u) && RouteWeight(route) == d.n)
  }

  /** The labels while the children are relaxed. */
  ghost predicate LabelState(adj: Adjacency, start: string, prev: map<string, string>, dist: map<string, Dist>) {
    prev.Keys == adj.Keys && dist.Keys == adj.Keys && Labels(adj, start, prev, dist)
  }

  /** The queue while the children are relaxed: distances only fall, and not yet for `kids[k..]`. */
  ghost predicate QueueState(adj: Adjacency, heap: seq<Entry>, settled: set<string>, dist: map<string, Dist>,
                             dist0: map<string, Dist>, kids: seq<Neighbor>, k: int) {
    && 0 <= k <= |kids| && dist.Keys == adj.Keys && dist0.Keys == adj.Keys
    && HeapOk(adj, heap, dist) && Split(adj, heap, settled)
    && (forall v :: v in adj ==> AtMost(dist[v], dist0[v]))
    && (forall j :: k <= j < |kids| ==> kids[j].id in dist && kids[j].id in dist0 && dist[kids[j].id] == dist0[kids[j].id])
  }

  /** The queue and the labels while the children are relaxed. */
  ghost predicate InnerState(adj: Adjacency, start: string, heap: seq<Entry>, settled: set<string>,
                             prev: map<string, string>, dist: map<string, Dist>, dist0: map<string, Dist>,
                             kids: seq<Neighbor>, k: int) {
    LabelState(adj, start, prev, dist) && QueueState(adj, heap, settled, dist, dist0, kids, k)
  }

  /** The invariant of the loop over the children of the popped node `u` at distance `d`. */
  ghost predicate InnerInv(adj: Adjacency, start: string, heap: seq<Entry>, settled: set<string>, before: set<string>, rank: map<string, nat>,
                           prev: map<string, string>, dist: map<string, Dist>, dist0: map<string, Dist>,
                           u: string, d: Dist, route: seq<Neighbor>, kids: seq<Neighbor>, k: int, nn: bool) {
    && InnerFrame(adj, start, settled, before, u, d, route, kids, nn)
    && InnerState(adj, start, heap, settled, prev, dist, dist0, kids, k)
    && (nn ==> StartKept(start, prev, dist) && Relaxing(adj, heap, before, dist, dist0, u, d, kids, k))
    && (nn ==> Tight(adj, start, prev, dist, settled, rank))
  }

  lemma InnerStart(adj: Adjacency, start: string, heap: seq<Entry>, settled: set<string>, before: set<string>, rank: map<string, nat>,
                   prev: map<string, string>, dist: map<string, Dist>,
                   u: string, d: Dist, route: seq<Neighbor>, kids: seq<Neighbor>, nn: bool)
    requires WellFormed(adj) && start in adj && u in adj && kids == adj[u].children && nn == NonNegative(adj) && settled == before + {u}
    requires d.Fin? ==> IsRoute(adj, start, route, u) && RouteWeight(route) == d.n
    requires prev.Keys == adj.Keys && dist.Keys == adj.Keys
    requires HeapOk(adj, heap, dist) && Split(adj, heap, settled) && Labels(adj, start, prev, dist)
    requires nn ==> StartKept(start, prev, dist) && Relaxing(adj, heap, before, dist, dist, u, d, kids, 0)
    requires nn ==> Tight(adj, start, prev, dist, settled, rank)
    ensures InnerInv(adj, start, heap, settled, before, rank, prev, dist, dist, u, d, route, kids, 0, nn)
  {
    ListsDistinct(adj, u);
    forall j | 0 <= j < |kids| ensures kids[j].id in adj {
      ChildMirrored(adj, u, kids[j]);
    }
  }

  lemma InnerDomain(adj: Adjacency, start: string, heap: seq<Entry>, settled: set<string>, before: set<string>, rank: map<string, nat>,
                    prev: map<string, string>, dist: map<string, Dist>, dist0: map<string, Dist>,
                    u: string, d: Dist, route: seq<Neighbor>, kids: seq<Neighbor>, k: int, nn: bool)
    requires InnerInv(adj, start, heap, settled, before, rank, prev, dist, dist0, u, d, route, kids, k, nn) && k < |kids|
    ensures kids[k].id in dist && kids[k].id in adj
  {
  }

  /** Routing `kids[k]` through `u` keeps the loop invariant. */
  lemma RelaxStep(adj: Adjacency, start: string, heap: seq<Entry>, settled: set<string>, before: set<string>, rank: map<string, nat>,
                  prev: map<string, string>, dist: map<string, Dist>, dist0: map<string, Dist>,
                  u: string, d: Dist, route: seq<Neighbor>, kids: seq<Neighbor>, k: int, nn: bool)
    requires InnerInv(adj, start, heap, settled, before, rank, prev, dist, dist0, u, d, route, kids, k, nn) && k < |kids|
    requires kids[k].id in dist && Below(Add(d, kids[k].weight), dist[kids[k].id])
    ensures var c := kids[k].id; var r := Add(d, kids[k].weight);
      InnerInv(adj, start, Update(heap, c, r), settled, before, rank, prev[c := u], dist[c := r], dist0, u, d, route, kids, k + 1, nn)
  {
    var r := Add(d, kids[k].weight);
    assert kids[k] in adj[u].children;
    RelaxLabels(adj, start, prev, dist, u, d, route, kids[k]);
    RelaxQueue(adj, heap, settled, dist, dist0, kids, k, r);
    if nn {
      RelaxSettled(adj, start, heap, before, prev, dist, dist0, u, d, kids, k);
      RelaxTight(adj, start, prev, dist, settled, rank, u, kids[k]);
    }
  }

  /** Routing `kids[k]` through `u` keeps the queue consistent. */
  lemma RelaxQueue(adj: Adjacency, heap: seq<Entry>, settled: set<string>, dist: map<string, Dist>,
                   dist0: map<string, Dist>, kids: seq<Neighbor>, k: int, r: Dist)
    requires QueueState(adj, heap, settled, dist, dist0, kids, k) && k < |kids| && DistinctIds(kids)
    requires kids[k].id in adj && Below(r, dist[kids[k].id])
    ensures QueueState(adj, Update(heap, kids[k].id, r), settled, dist[kids[k].id := r], dist0, kids, k + 1)
  {
    RelaxHeap(adj, heap, settled, dist, kids[k].id, r);
    ForwardUnchanged(kids, k, dist, dist0, r);
    LowerStaysBelow(adj, dist, dist0, kids[k].id, r);
  }

  /** Lowering one distance keeps every distance at most its value before the round. */
  lemma LowerStaysBelow(adj: Adjacency, dist: map<string, Dist>, dist0: map<string, Dist>, c: string, r: Dist)
    requires dist.Keys == adj.Keys && dist0.Keys == adj.Keys && c in adj
    requires forall v :: v in adj ==> AtMost(dist[v], dist0[v])
    requires Below(r, dist[c])
    ensures forall v :: v in adj ==> AtMost(dist[c := r][v], dist0[v])
  {
    forall v | v in adj ensures AtMost(dist[c := r][v], dist0[v]) {
      if v == c {
        assert AtMost(dist[v], dist0[v]);
      }
    }
  }

  /** Leaving `kids[k]` alone keeps the loop invariant. */
  lemma SkipStep(adj: Adjacency, start: string, heap: seq<Entry>, settled: set<string>, before: set<string>, rank: map<string, nat>,
                 prev: map<string, string>, dist: map<string, Dist>, dist0: map<string, Dist>,
                 u: string, d: Dist, route: seq<Neighbor>, kids: seq<Neighbor>, k: int, nn: bool)
    requires InnerInv(adj, start, heap, settled, before, rank, prev, dist, dist0, u, d, route, kids, k, nn) && k < |kids|
    requires kids[k].id in dist && !Below(Add(d, kids[k].weight), dist[kids[k].id])
    ensures InnerInv(adj, start, heap, settled, before, rank, prev, dist, dist0, u, d, route, kids, k + 1, nn)
  {
    if nn {
      RelaxSkip(adj, heap, before, dist, dist0, u, d, kids, k);
    }
  }

  /** After the last child the outer invariant holds again. */
  lemma InnerDone(adj: Adjacency, start: string, heap: seq<Entry>, settled: set<string>, before: set<string>, rank: map<string, nat>,
                  prev: map<string, string>, dist: map<string, Dist>, dist0: map<string, Dist>,
                  u: string, d: Dist, route: seq<Neighbor>, kids: seq<Neighbor>, nn: bool)
    requires InnerInv(adj, start, heap, settled, before, rank, prev, dist, dist0, u, d, route, kids, |kids|, nn)
    ensures OuterInv(adj, start, heap, settled, rank, prev, dist, nn)
  {
    if nn {
      RelaxedDone(adj, heap, before, dist, dist0, u, d, kids);
    }
  }

  /** Settling `u` ranks it after every node settled before it. */
  lemma PopTight(adj: Adjacency, start: string, prev: map<string, string>, dist: map<string, Dist>,
                 settled: set<string>, rank: map<string, nat>, u: string)
    requires Tight(adj, start, prev, dist, settled, rank) && u !in settled
    ensures Tight(adj, start, prev, dist, settled + {u}, rank[u := |settled|])
  {
    var settled', rank' := settled + {u}, rank[u := |settled|];
    forall v | v in dist && v != start && dist[v].Fin? ensures TightAt(adj, prev, dist, settled', rank', v) {
      assert TightAt(adj, prev, dist, settled, rank, v);
    }
  }

  /** Routing an unsettled child of the settled `u` through `u` hangs it off `u` by a tight edge. */
  lemma RelaxTight(adj: Adjacency, start: string, prev: map<string, string>, dist: map<string, Dist>,
                   settled: set<string>, rank: map<string, nat>, u: string, nb: Neighbor)
    requires WellFormed(adj) && Tight(adj, start, prev, dist, settled, rank)
    requires u in adj && nb in adj[u].children && u in settled && nb.id !in settled
    requires u in dist && dist[u].Fin?
    ensures Tight(adj, start, prev[nb.id := u], dist[nb.id := Add(dist[u], nb.weight)], settled, rank)
  {
    ChildMirrored(adj, u, nb);
    ListsDistinct(adj, u);
    GetIdDistinct(adj[u].children, nb);
    var c := nb.id;
    var prev', dist' := prev[c := u], dist[c := Add(dist[u], nb.weight)];
    forall v | v in dist' && v != start && dist'[v].Fin? ensures TightAt(adj, prev', dist', settled, rank, v) {
      if v != c {
        assert TightAt(adj, prev, dist, settled, rank, v);
      }
    }
  }

  /** Without negative weights, while the children of the popped `u` are relaxed. */
  ghost predicate Relaxing(adj: Adjacency, heap: seq<Entry>, before: set<string>, dist: map<string, Dist>,
                           dist0: map<string, Dist>, u: string, d: Dist, kids: seq<Neighbor>, k: int) {
    && NonNegative(adj) && u in adj && kids == adj[u].children && 0 <= k <= |kids|
    && u in dist && dist[u] == d && u !in before
    && (forall v :: v in before ==> v in dist0 && v in dist && dist[v] == dist0[v] && AtMost(dist[v], d))
    && (forall j :: 0 <= j < |heap| ==> AtMost(d, heap[j].1))
    && (forall v :: v in before ==> RelaxedAt(adj, dist0, v))
    && (forall j :: 0 <= j < k ==> kids[j].id in dist && AtMost(dist[kids[j].id], Add(d, kids[j].weight)))
  }

  lemma PopIds(h: seq<Entry>, i: int)
    requires 0 <= i < |h| && Distinct(Ids(h))
    ensures Distinct(Ids(h[..i] + h[i + 1..]))
    ensures forall v :: v in Ids(h[..i] + h[i + 1..]) <==> v in Ids(h) && v != h[i].0
  {
    var h' := h[..i] + h[i + 1..];
    forall j | 0 <= j < |h'| ensures h'[j] == h[if j < i then j else j + 1] {
    }
    forall a, b | 0 <= a < b < |h'| ensures Ids(h')[a] != Ids(h')[b] {
      assert h'[a] == h[if a < i then a else a + 1];
      assert h'[b] == h[if b < i then b else b + 1];
    }
    forall v ensures v in Ids(h') <==> v in Ids(h) && v != h[i].0 {
      if v in Ids(h) && v != h[i].0 {
        var j :| 0 <= j < |h| && h[j].0 == v;
        assert h'[if j < i then j else j - 1].0 == v;
      }
    }
  }

  /** Popping entry `i` moves its node from the queue to the settled part. */
  lemma PopHeap(adj: Adjacency, heap: seq<Entry>, i: int, settled: set<string>, dist: map<string, Dist>)
    requires HeapOk(adj, heap, dist) && Split(adj, heap, settled) && 0 <= i < |heap|
    ensures HeapOk(adj, heap[..i] + heap[i + 1..], dist) && Split(adj, heap[..i] + heap[i + 1..], settled + {heap[i].0})
    ensures heap[i].0 !in settled
  {
    PopIds(heap, i);
    var h' := heap[..i] + heap[i + 1..];
    forall j | 0 <= j < |h'| ensures h'[j].0 in adj && h'[j].0 in dist && dist[h'[j].0] == h'[j].1 {
      assert h'[j] == heap[if j < i then j else j + 1];
    }
    assert heap[i].0 in Ids(heap);
  }

  /** Without negative weights, popping the least entry starts the relaxation of its node. */
  lemma PopSettled(adj: Adjacency, heap: seq<Entry>, i: int, settled: set<string>, dist: map<string, Dist>)
    requires HeapOk(adj, heap, dist) && Split(adj, heap, settled) && heap != [] && i == FirstMin(heap)
    requires NonNegative(adj) && SettledOk(adj, heap, settled, dist)
    ensures Relaxing(adj, heap[..i] + heap[i + 1..], settled, dist, dist, heap[i].0, heap[i].1, adj[heap[i].0].children, 0)
  {
    assert heap[i].0 in Ids(heap);
    var h' := heap[..i] + heap[i + 1..];
    forall j | 0 <= j < |h'| ensures AtMost(heap[i].1, h'[j].1) {
      assert h'[j] == heap[if j < i then j else j + 1];
    }
    forall v | v in settled ensures AtMost(dist[v], heap[i].1) {
      assert AtMost(dist[v], heap[i].1);
    }
  }

  /** Routing a child entry `nb` of `u` through `u` keeps every label sound. */
  lemma RelaxLabels(adj: Adjacency, start: string, prev: map<string, string>, dist: map<string, Dist>,
                    u: string, d: Dist, route: seq<Neighbor>, nb: Neighbor)
    requires WellFormed(adj) && u in adj && nb in adj[u].children
    requires LabelState(adj, start, prev, dist)
    requires d.Fin? ==> IsRoute(adj, start, route, u) && RouteWeight(route) == d.n
    requires nb.id in dist && Below(Add(d, nb.weight), dist[nb.id])
    ensures LabelState(adj, start, prev[nb.id := u], dist[nb.id := Add(d, nb.weight)])
  {
    ChildMirrored(adj, u, nb);
    RouteSnoc(adj, start, route, u, nb);
    var dist' := dist[nb.id := Add(d, nb.weight)];
    var prev' := prev[nb.id := u];
    forall v | v in adj ensures Realised(adj, start, dist', v) && PredecessorOk(adj, start, prev', dist', v) {
      if v != nb.id {
        assert Realised(adj, start, dist, v) && PredecessorOk(adj, start, prev, dist, v);
      }
    }
  }

  /** Lowering the queue entry of `c` along with its recorded distance keeps the queue consistent. */
  lemma RelaxHeap(adj: Adjacency, heap: seq<Entry>, settled: set<string>, dist: map<string, Dist>, c: string, r: Dist)
    requires HeapOk(adj, heap, dist) && Split(adj, heap, settled)
    ensures HeapOk(adj, Update(heap, c, r), dist[c := r]) && Split(adj, Update(heap, c, r), settled)
  {
    assert Ids(Update(heap, c, r)) == Ids(heap);
  }

  lemma ForwardUnchanged(kids: seq<Neighbor>, k: int, dist: map<string, Dist>, dist0: map<string, Dist>, r: Dist)
    requires 0 <= k < |kids| && DistinctIds(kids)
    requires forall j :: k <= j < |kids| ==> kids[j].id in dist && kids[j].id in dist0 && dist[kids[j].id] == dist0[kids[j].id]
    ensures forall j :: k + 1 <= j < |kids| ==>
      kids[j].id in dist[kids[k].id := r] && kids[j].id in dist0 && dist[kids[k].id := r][kids[j].id] == dist0[kids[j].id]
  {
    forall j | k < j < |kids| ensures kids[j].id != kids[k].id {
    }
  }

  /** Without negative weights, routing `kids[k]` through `u` settles nothing again and relaxes that edge. */
  lemma RelaxSettled(adj: Adjacency, start: string, heap: seq<Entry>, before: set<string>, prev: map<string, string>,
                     dist: map<string, Dist>, dist0: map<string, Dist>, u: string, d: Dist, kids: seq<Neighbor>, k: int)
    requires WellFormed(adj) && prev.Keys == adj.Keys && dist.Keys == adj.Keys && dist0.Keys == adj.Keys
    requires forall v :: v in adj ==> AtMost(dist[v], dist0[v])
    requires StartKept(start, prev, dist) && Relaxing(adj, heap, before, dist, dist0, u, d, kids, k) && k < |kids|
    requires DistinctIds(kids) && kids[k].id in dist && Below(Add(d, kids[k].weight), dist[kids[k].id])
    ensures var c := kids[k].id; var r := Add(d, kids[k].weight);
      && c !in before && c != u
      && StartKept(start, prev[c := u], dist[c := r])
      && Relaxing(adj, Update(heap, c, r), before, dist[c := r], dist0, u, d, kids, k + 1)
  {
    var nb := kids[k];
    ChildMirrored(adj, u, nb);
    var c := nb.id;
    var r := Add(d, nb.weight);
    assert c !in before;
    assert c != start;
    var dist' := dist[c := r];
    forall j | 0 <= j < k + 1 ensures kids[j].id in dist' && AtMost(dist'[kids[j].id], Add(d, kids[j].weight)) {
      if j < k {
        assert kids[j].id != c;
        assert AtMost(dist[kids[j].id], Add(d, kids[j].weight));
      }
    }
    var h' := Update(heap, c, r);
    forall j | 0 <= j < |h'| ensures AtMost(d, h'[j].1) {
      assert AtMost(d, heap[j].1);
    }
  }

  /** Without negative weights, a child not routed through `u` already satisfies its edge's inequality. */
  lemma RelaxSkip(adj: Adjacency, heap: seq<Entry>, before: set<string>, dist: map<string, Dist>,
                  dist0: map<string, Dist>, u: string, d: Dist, kids: seq<Neighbor>, k: int)
    requires Relaxing(adj, heap, before, dist, dist0, u, d, kids, k) && k < |kids| && kids[k].id in dist
    requires !Below(Add(d, kids[k].weight), dist[kids[k].id])
    ensures Relaxing(adj, heap, before, dist, dist0, u, d, kids, k + 1)
  {
  }

  /** After the last child the popped node is relaxed and the settled invariant is back. */
  lemma RelaxedDone(adj: Adjacency, heap: seq<Entry>, before: set<string>, dist: map<string, Dist>,
                    dist0: map<string, Dist>, u: string, d: Dist, kids: seq<Neighbor>)
    requires dist.Keys == adj.Keys && dist0.Keys == adj.Keys
    requires forall v :: v in adj ==> AtMost(dist[v], dist0[v])
    requires Relaxing(adj, heap, before, dist, dist0, u, d, kids, |kids|)
    ensures SettledOk(adj, heap, before + {u}, dist)
  {
    forall v | v in before + {u} ensures RelaxedAt(adj, dist, v) {
      if v == u {
        forall nb | nb in adj[u].children ensures nb.id in dist && AtMost(dist[nb.id], Add(dist[u], nb.weight)) {
          var j :| 0 <= j < |kids| && kids[j] == nb;
        }
      } else {
        assert RelaxedAt(adj, dist0, v);
        forall nb | nb in adj[v].children ensures nb.id in dist && AtMost(dist[nb.id], Add(dist[v], nb.weight)) {
          assert AtMost(dist0[nb.id], Add(dist0[v], nb.weight));
        }
      }
    }
  }

  // ---------------------------------------------------------------------------
  // shortest_path
  // ---------------------------------------------------------------------------

  /** Each node of `back` after the first is a parent of the node before it, and is listed among its parents. */
  ghost predicate BackChain(adj: Adjacency, back: seq<string>) {
    forall i :: 0 <= i < |back| - 1 ==>
      HasEdge(adj, back[i + 1], back[i]) && back[i] in adj && ContainsId(adj[back[i]].parents, back[i + 1])
  }

  /** The weight `shortest_path` reads for the edge `p -> v`: that of `v`'s parent entry naming `p`. */
  function ParentWeight(adj: Adjacency, v: string, p: string): int
    requires v in adj && ContainsId(adj[v].parents, p)
  {
    GetId(adj[v].parents, p).value.weight
  }

  /** The sum `shortest_path` forms over its back-to-front list, edge by edge. */
  function BackWeight(adj: Adjacency, back: seq<string>): int
    requires BackChain(adj, back)
    decreases |back|
  {
    if |back| <= 1 then 0 else ParentWeight(adj, back[0], back[1]) + BackWeight(adj, back[1..])
  }

  /** The weight of a walk: the sum of the weights of its edges. */
  function PathWeight(adj: Adjacency, path: seq<string>): int
    requires forall i :: 0 <= i < |path| - 1 ==> HasEdge(adj, path[i], path[i + 1])
    decreases |path|
  {
    if |path| <= 1 then 0
    else PathWeight(adj, path[..|path| - 1]) + EdgeWeight(adj, path[|path| - 2], path[|path| - 1])
  }

  /** The parent entry of an edge carries the child entry's weight. */
  lemma ParentWeightMirrors(adj: Adjacency, p: string, v: string)
    requires WellFormed(adj) && HasEdge(adj, p, v)
    ensures v in adj && ContainsId(adj[v].parents, p) && ParentWeight(adj, v, p) == EdgeWeight(adj, p, v)
  {
    var nb := GetId(adj[p].children, v).value;
    ChildMirrored(adj, p, nb);
    ListsDistinct(adj, v);
    GetIdDistinct(adj[v].parents, Neighbor(p, nb.weight));
  }

  /** Summed back to front over parent entries, a chain weighs what its reversal weighs as a walk. */
  lemma {:induction false} BackWeightReversed(adj: Adjacency, back: seq<string>)
    requires WellFormed(adj) && BackChain(adj, back)
    ensures forall i :: 0 <= i < |back| - 1 ==> HasEdge(adj, Reversed(back)[i], Reversed(back)[i + 1])
    ensures BackWeight(adj, back) == PathWeight(adj, Reversed(back))
    decreases |back|
  {
    var r := Reversed(back);
    forall i | 0 <= i < |back| - 1 ensures HasEdge(adj, r[i], r[i + 1]) {
      var n := |back|;
      assert r[i] == back[n - 1 - i] && r[i + 1] == back[n - 2 - i];
    }
    if |back| >= 2 {
      assert BackChain(adj, back[1..]) by {
        forall i | 0 <= i < |back[1..]| - 1
          ensures HasEdge(adj, back[1..][i + 1], back[1..][i]) && back[1..][i] in adj
            && ContainsId(adj[back[1..][i]].parents, back[1..][i + 1]) {
          assert back[1..][i] == back[i + 1] && back[1..][i + 1] == back[i + 2];
        }
      }
      BackWeightReversed(adj, back[1..]);
      assert r[..|r| - 1] == Reversed(back[1..]);
      assert r[|r| - 2] == back[1] && r[|r| - 1] == back[0];
      ParentWeightMirrors(adj, back[1], back[0]);
    }
  }

  /** A walk is the route of its edges' child entries, of the same weight. */
  lemma {:induction false} WalkRoute(adj: Adjacency, path: seq<string>) returns (steps: seq<Neighbor>)
    requires WellFormed(adj) && |path| >= 1 && path[0] in adj
    requires forall i :: 0 <= i < |path| - 1 ==> HasEdge(adj, path[i], path[i + 1])
    ensures IsRoute(adj, path[0], steps, path[|path| - 1]) && RouteWeight(steps) == PathWeight(adj, path)
    decreases |path|
  {
    if |path| == 1 {
      steps := [];
    } else {
      var init := path[..|path| - 1];
      steps := WalkRoute(adj, init);
      var u, v := path[|path| - 2], path[|path| - 1];
      var nb := GetId(adj[u].children, v).value;
      RouteSnoc(adj, path[0], steps, u, nb);
      steps := steps + [nb];
    }
  }

  /**
   * The state of the predecessor walk of `shortest_path` without negative weights
   * and with `end` at a finite distance: the next node `curr` is at a finite
   * distance, ranked below every node listed so far, and its distance plus the
   * weight of the chain listed so far is the distance of `end`.
   */
  ghost predicate WalkTight(adj: Adjacency, dist: map<string, Dist>, rank: map<string, nat>,
                            back: seq<string>, curr: string, end: string) {
    && BackChain(adj, back + [curr]) && curr in adj && curr in dist && dist[curr].Fin? && end in dist && dist[end].Fin?
    && dist[end].n == dist[curr].n + BackWeight(adj, back + [curr])
    && (back != [] ==> curr in rank && forall x :: x in back ==> x in rank && rank[curr] < rank[x])
  }

  /**
   * `shortest_path(startId, endId, shortestPath, weight)`: run `dijsktras_algorithm`
   * from `start`, list the nodes from `end` back along the predecessors until
   * `start` or the `""` predecessor, add up the weights of the parent entries along
   * the list, and reverse it.
   *
   * The list is a duplicate-free walk ending at `end`, and the weight is that walk's
   * weight.  Without negative weights and without a node named `""`, the walk
   * starts at `start` whenever some route leads there, and then its weight is the
   * weight of a route and at most the weight of every route from `start` to `end`;
   * otherwise the list is `end` alone with weight 0.  A predecessor walk that
   * comes back to a node it listed makes the source loop forever: `Diverges`.
   */
  method ShortestPath(adj: Adjacency, start: string, end: string, keys: seq<string>) returns (r: Run<(seq<string>, int)>)
    requires WellFormed(adj) && start in adj && end in adj && end != ""
    requires Distinct(keys) && forall v :: v in keys <==> v in adj
    ensures r.Done? ==> WeighedWalk(adj, end, r.value.0, r.value.1)
    ensures NonNegative(adj) && "" !in adj ==> r.Done?
    ensures NonNegative(adj) && "" !in adj && r.Done? ==>
      || (r.value.0[0] == start && Lightest(adj, start, end, r.value.1))
      || (r.value.0 == [end] && r.value.1 == 0 && NoRoute(adj, start, end))
  {
    var prev, dist;
    ghost var rank;
    prev, dist, rank := Dijkstra(adj, start, keys);
    var walk := PredecessorWalk(adj, start, end, prev, dist, rank);
    if walk.Diverges? {
      return Diverges;
    }
    var back := walk.value;
    var w := WeighChain(adj, back);
    WalkShape(adj, end, back, w);
    if NonNegative(adj) && "" !in adj {
      WalkOptimal(adj, start, end, dist, back, w);
    }
    r := Done((Reversed(back), w));
  }

  /** `path` is a duplicate-free walk to `end` and `w` is its weight. */
  ghost predicate WeighedWalk(adj: Adjacency, end: string, path: seq<string>, w: int) {
    && |path| >= 1 && path[|path| - 1] == end && Distinct(path)
    && (forall i :: 0 <= i < |path| - 1 ==> HasEdge(adj, path[i], path[i + 1]))
    && w == PathWeight(adj, path)
  }

  /** The reversed chain is a duplicate-free walk to `end`, weighing what the chain weighs. */
  lemma WalkShape(adj: Adjacency, end: string, back: seq<string>, w: int)
    requires WellFormed(adj) && back != [] && back[0] == end && Distinct(back) && BackChain(adj, back)
    requires w == BackWeight(adj, back)
    ensures WeighedWalk(adj, end, Reversed(back), w)
  {
    BackWeightReversed(adj, back);
    ReversedDistinct(back);
  }

  /** Without negative weights, what the reversed chain and its weight are. */
  lemma WalkOptimal(adj: Adjacency, start: string, end: string, dist: map<string, Dist>, back: seq<string>, w: int)
    requires WellFormed(adj) && start in adj && end in adj && dist.Keys == adj.Keys
    requires NonNegative(adj) && "" !in adj && dist[start] == Fin(0) && forall u :: u in adj ==> RelaxedAt(adj, dist, u)
    requires back != [] && back[0] == end && Distinct(back) && BackChain(adj, back) && w == BackWeight(adj, back)
    requires dist[end].Fin? ==> back[|back| - 1] == start && dist[end].n == w
    requires dist[end].Inf? ==> back == [end]
    ensures var path := Reversed(back);
      || (path[0] == start && Lightest(adj, start, end, w))
      || (path == [end] && w == 0 && NoRoute(adj, start, end))
  {
    WalkShape(adj, end, back, w);
    var path := Reversed(back);
    assert path[0] == back[|back| - 1] && path[|path| - 1] == back[0];
    assert path[0] in adj by {
      if |back| >= 2 {
        assert HasEdge(adj, back[|back| - 1], back[|back| - 2]);
      }
    }
    if back == [end] {
      assert path == [end];
    }
    ShortestPathOptimal(adj, start, end, dist, path, w);
  }

  /**
   * The second loop of `shortest_path`: along the back-to-front list, add up the
   * weight of each node's parent entry naming the next node.
   */
  method WeighChain(adj: Adjacency, back: seq<string>) returns (w: int)
    requires back != [] && BackChain(adj, back)
    ensures w == BackWeight(adj, back)
  {
    w := 0;
    var i := 0;
    while i < |back| - 1
      invariant 0 <= i <= |back| - 1 && BackChain(adj, back[i..])
      invariant w + BackWeight(adj, back[i..]) == BackWeight(adj, back)
    {
      assert back[i..][1..] == back[i + 1..];
      w := w + ParentWeight(adj, back[i], back[i + 1]);
      i := i + 1;
    }
    assert back[i..] == [back[|back| - 1]];
  }

  /**
   * The first loop of `shortest_path`: from `end`, list each node and move to its
   * predecessor, until `start` has been listed or the predecessor is `""`.  The
   * list is a duplicate-free chain of parents from `end`; a node met a second time
   * would be listed again and again: `Diverges`.  Without negative weights and
   * without a node named `""`, the walk ends at `start` with the chain weighing the
   * distance of `end`, or, with `end` at infinity, lists `end` alone.
   */
  method PredecessorWalk(adj: Adjacency, start: string, end: string, prev: map<string, string>,
                         dist: map<string, Dist>, ghost rank: map<string, nat>) returns (r: Run<seq<string>>)
    requires WellFormed(adj) && start in adj && end in adj && end != ""
    requires prev.Keys == adj.Keys && dist.Keys == adj.Keys && Labels(adj, start, prev, dist)
    requires NonNegative(adj) ==> dist[start] == Fin(0) && Tight(adj, start, prev, dist, adj.Keys, rank)
    ensures r.Done? ==> r.value != [] && r.value[0] == end && Distinct(r.value) && BackChain(adj, r.value)
    ensures NonNegative(adj) && "" !in adj ==> r.Done?
    ensures NonNegative(adj) && "" !in adj && r.Done? && dist[end].Fin? ==>
      r.value[|r.value| - 1] == start && dist[end].n == BackWeight(adj, r.value)
    ensures NonNegative(adj) && "" !in adj && r.Done? && dist[end].Inf? ==> r.value == [end]
  {
    ghost var nn := NonNegative(adj) && "" !in adj;
    ghost var fin := dist[end].Fin?;
    var back: seq<string> := [];
    var curr := end;
    while curr != ""
      invariant WalkInv(adj, start, prev, end, back, curr)
      invariant nn && fin ==> WalkTight(adj, dist, rank, back, curr, end)
      invariant nn && !fin ==> back == [] || (back == [end] && curr == "")
      decreases adj.Keys - Elems(back)
    {
      if curr in back {
        return Diverges;
      }
      WalkStep(adj, start, prev, dist, end, back, curr);
      if nn && fin && curr != start {
        WalkTightStep(adj, start, prev, dist, rank, back, curr, end);
      }
      back := back + [curr];
      if curr == start {
        break;
      }
      curr := prev[curr];
    }
    r := Done(back);
  }

  /**
   * The predecessor walk so far: `back` runs from `end` along predecessors, names
   * nodes other than `start` once each, and `curr` is the predecessor of its last.
   */
  ghost predicate WalkInv(adj: Adjacency, start: string, prev: map<string, string>, end: string,
                          back: seq<string>, curr: string) {
    && (curr != "" ==> curr in adj)
    && (forall x :: x in back ==> x in adj && x != start)
    && (back == [] ==> curr == end)
    && (back != [] ==> back[0] == end && back[|back| - 1] in prev && curr == prev[back[|back| - 1]])
    && Distinct(back) && BackChain(adj, back)
  }

  /** Listing the next node of the predecessor walk keeps the list a duplicate-free chain. */
  lemma WalkStep(adj: Adjacency, start: string, prev: map<string, string>, dist: map<string, Dist>,
                 end: string, back: seq<string>, curr: string)
    requires WellFormed(adj) && prev.Keys == adj.Keys && dist.Keys == adj.Keys && Labels(adj, start, prev, dist)
    requires WalkInv(adj, start, prev, end, back, curr) && curr != "" && curr !in back
    ensures curr in adj && curr in prev && curr in dist
    ensures Elems(back + [curr]) == Elems(back) + {curr}
    ensures (back + [curr])[0] == end && Distinct(back + [curr]) && BackChain(adj, back + [curr])
    ensures curr != start ==> WalkInv(adj, start, prev, end, back + [curr], prev[curr])
    ensures dist[curr].Inf? ==> prev[curr] == ""
  {
    assert Elems(back + [curr]) == Elems(back) + {curr};
    assert PredecessorOk(adj, start, prev, dist, curr);
    var b := back + [curr];
    if back != [] {
      var v := back[|back| - 1];
      assert PredecessorOk(adj, start, prev, dist, v);
      assert HasEdge(adj, curr, v);
      EdgeBothWays(adj, curr, v);
      forall i | 0 <= i < |b| - 1
        ensures HasEdge(adj, b[i + 1], b[i]) && b[i] in adj && ContainsId(adj[b[i]].parents, b[i + 1]) {
        if i < |back| - 1 {
          assert b[i] == back[i] && b[i + 1] == back[i + 1];
        }
      }
    }
  }

  /** A chain extended by one node gains the weight of the parent entry joining them. */
  lemma {:induction false} BackWeightSnoc(adj: Adjacency, s: seq<string>, x: string)
    requires |s| >= 1 && BackChain(adj, s + [x])
    ensures BackChain(adj, s) && s[|s| - 1] in adj && ContainsId(adj[s[|s| - 1]].parents, x)
    ensures BackWeight(adj, s + [x]) == BackWeight(adj, s) + ParentWeight(adj, s[|s| - 1], x)
    decreases |s|
  {
    assert forall i :: 0 <= i < |s| ==> (s + [x])[i] == s[i];
    assert (s + [x])[|s|] == x;
    if |s| >= 2 {
      assert (s + [x])[1..] == s[1..] + [x];
      BackWeightSnoc(adj, s[1..], x);
    }
  }

  /**
   * Without negative weights and without a node named `""`, the predecessor of a
   * listed node other than `start` continues the walk's tight chain.
   */
  lemma WalkTightStep(adj: Adjacency, start: string, prev: map<string, string>, dist: map<string, Dist>,
                      rank: map<string, nat>, back: seq<string>, c: string, end: string)
    requires WellFormed(adj) && "" !in adj && prev.Keys == adj.Keys && dist.Keys == adj.Keys
    requires Tight(adj, start, prev, dist, adj.Keys, rank)
    requires WalkTight(adj, dist, rank, back, c, end) && c != start && c !in back
    ensures WalkTight(adj, dist, rank, back + [c], prev[c], end)
  {
    assert TightAt(adj, prev, dist, adj.Keys, rank, c);
    var p := prev[c];
    EdgeBothWays(adj, p, c);
    var b := back + [c] + [p];
    forall i | 0 <= i < |b| - 1
      ensures HasEdge(adj, b[i + 1], b[i]) && b[i] in adj && ContainsId(adj[b[i]].parents, b[i + 1]) {
      if i < |b| - 2 {
        assert b[i] == (back + [c])[i] && b[i + 1] == (back + [c])[i + 1];
      }
    }
    BackWeightSnoc(adj, back + [c], p);
    ParentWeightMirrors(adj, p, c);
  }

  /** `w` is the weight of a route from `start` to `end`, and no such route weighs less. */
  ghost predicate Lightest(adj: Adjacency, start: string, end: string, w: int) {
    && (exists steps :: IsRoute(adj, start, steps, end) && RouteWeight(steps) == w)
    && (forall steps :: IsRoute(adj, start, steps, end) ==> w <= RouteWeight(steps))
  }

  /** No route leads from `start` to `end`. */
  ghost predicate NoRoute(adj: Adjacency, start: string, end: string) {
    forall steps :: !IsRoute(adj, start, steps, end)
  }

  /**
   * Without negative weights, distances that satisfy the triangle inequality and
   * are 0 at `start` make the walk found to a reachable `end` a lightest route,
   * and leave an unreachable `end` alone.
   */
  lemma ShortestPathOptimal(adj: Adjacency, start: string, end: string, dist: map<string, Dist>,
                            path: seq<string>, w: int)
    requires WellFormed(adj) && start in adj && end in adj && dist.Keys == adj.Keys
    requires dist[start] == Fin(0) && forall u :: u in adj ==> RelaxedAt(adj, dist, u)
    requires |path| >= 1 && path[0] in adj && forall i :: 0 <= i < |path| - 1 ==> HasEdge(adj, path[i], path[i + 1])
    requires path[|path| - 1] == end && w == PathWeight(adj, path)
    requires dist[end].Fin? ==> path[0] == start && w == dist[end].n
    requires dist[end].Inf? ==> path == [end]
    ensures || (path[0] == start && Lightest(adj, start, end, w))
            || (path == [end] && w == 0 && NoRoute(adj, start, end))
  {
    forall steps | IsRoute(adj, start, steps, end) ensures dist[end].Fin? && w <= RouteWeight(steps) {
      TriangleBoundsRoutes(adj, dist, start, steps, end);
    }
    if dist[end].Fin? {
      var steps := WalkRoute(adj, path);
    }
  }
}
