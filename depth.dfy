/**
 * `depth_traverse` (graph.h) and the two visit policies built on it: the plain
 * depth-first search of graph.cpp and the component search Kosaraju's algorithm
 * runs.  The shared `memo` list is threaded through the calls: each call receives
 * the list as it stands and returns it extended.
 */
module DepthTraversal {
  import opened Wrappers
  import opened Sequences
  import opened GraphStore
  import opened Paths

  /** A callback that may ask a traversal to stop; the source's `callType`. */
  type Callback = string -> bool

  /** `doNothing`: the default callback, which never asks to stop. */
  function DoNothing(id: string): (stop: bool)
    ensures !stop
  {
    false
  }

  /**
   * The visit policy `depth_traverse` is run with:
   * `Search` is `depth_traverse_memo_stopcall` with its callback, and
   * `Component` is `kosaraju_memo_stopcall` with its `currNodes` and `seen` lists.
   */
  datatype DepthPolicy =
    | Search(call: Callback)
    | Component(currNodes: seq<string>, seen: seq<string>)
  {
    /** A node not yet in the memo that the policy records. */
    predicate Admits(v: string) {
      Component? ==> v in currNodes && v !in seen
    }

    /** A recorded node whose children the traversal goes on to visit. */
    predicate Expands(v: string) {
      Search? ==> !call(v)
    }
  }

  /** Every child of `v` is in `memo` or is one the policy refuses. */
  ghost predicate ChildrenCovered(adj: Adjacency, p: DepthPolicy, v: string, memo: seq<string>)
    requires v in adj
  {
    forall nb :: nb in adj[v].children ==> nb.id in memo || !p.Admits(nb.id)
  }

  /**
   * The memo/stop call of both policies: a node already in the memo stops the
   * descent; so does, for `Component`, a node already `seen` or outside `currNodes`.
   * Otherwise the node is appended, and `Search` stops below it when its callback
   * says so.
   */
  method DepthVisit(p: DepthPolicy, id: string, memo: seq<string>) returns (stop: bool, memo': seq<string>)
    ensures id in memo || !p.Admits(id) ==> stop && memo' == memo
    ensures id !in memo && p.Admits(id) ==> memo' == memo + [id] && (stop <==> !p.Expands(id))
  {
    match p
    case Search(call) =>
      if id in memo {
        return true, memo;
      }
      stop := call(id);
      memo' := memo + [id];
    case Component(currNodes, seen) =>
      if id in memo || id in seen || id !in currNodes {
        return true, memo;
      }
      return false, memo + [id];
  }

  /**
   * `m` extends `memo`, keeps it duplicate-free, and adds only nodes that are new,
   * admitted by the policy and reachable from `start`.
   */
  ghost predicate Grown(adj: Adjacency, p: DepthPolicy, start: string, memo: seq<string>, m: seq<string>) {
    && memo <= m
    && (Distinct(memo) ==> Distinct(m))
    && (forall j :: |memo| <= j < |m| ==> m[j] in adj && m[j] !in memo && p.Admits(m[j]) && Reachable(adj, start, m[j]))
  }

  /** Every node of `m` from position `lo` on that the policy expands has its children covered. */
  ghost predicate CoveredFrom(adj: Adjacency, p: DepthPolicy, m: seq<string>, lo: int) {
    forall j :: 0 <= lo <= j < |m| && m[j] in adj && p.Expands(m[j]) ==> ChildrenCovered(adj, p, m[j], m)
  }

  /**
   * `depth_traverse`: visit `start`; unless the visit says stop, traverse from each
   * child in adjacency order.  A stop prunes only the subtree below that node.
   *
   * The result extends the memo with new nodes the policy admits, all reachable
   * from `start`; `start` is the first node added when it is added at all; and every
   * added node the policy expands has all its admitted children in the result.
   */
  method DepthTraverse(adj: Adjacency, start: string, p: DepthPolicy, memo: seq<string>)
    returns (memo': seq<string>)
    requires WellFormed(adj) && start in adj
    ensures Grown(adj, p, start, memo, memo')
    ensures CoveredFrom(adj, p, memo', |memo|)
    ensures start in memo' || !p.Admits(start)
    ensures start !in memo && p.Admits(start) ==> |memo'| > |memo| && memo'[|memo|] == start
    ensures start in memo ==> memo' == memo
    decreases adj.Keys - Elems(memo)
  {
    var stop;
    stop, memo' := DepthVisit(p, start, memo);
    if stop {
      return;
    }
    ReachableRefl(adj, start);
    var kids := adj[start].children;
    var k := 0;
    while k < |kids|
      invariant 0 <= k <= |kids|
      invariant memo + [start] <= memo'
      invariant Grown(adj, p, start, memo, memo')
      invariant CoveredFrom(adj, p, memo', |memo| + 1)
      invariant forall j :: 0 <= j < k ==> kids[j].id in memo' || !p.Admits(kids[j].id)
    {
      var c := kids[k].id;
      ChildMirrored(adj, start, kids[k]);
      MeasureDrops(adj, start, memo, memo');
      var before := memo';
      memo' := DepthTraverse(adj, c, p, memo');
      StepPreserves(adj, p, start, c, memo, before, memo');
      k := k + 1;
    }
    assert memo'[|memo|] == start by {
      assert (memo + [start])[|memo|] == start;
    }
    assert ChildrenCovered(adj, p, start, memo');
  }

  lemma MeasureDrops(adj: Adjacency, start: string, memo: seq<string>, m: seq<string>)
    requires start in adj && start !in memo && memo + [start] <= m
    ensures adj.Keys - Elems(m) < adj.Keys - Elems(memo)
  {
    PrefixIn(memo + [start], m, start);
    forall x | x in memo ensures x in m {
      PrefixIn(memo, m, x);
    }
  }

  /** One child traversal keeps the loop invariant of `DepthTraverse`. */
  lemma StepPreserves(adj: Adjacency, p: DepthPolicy, start: string, c: string,
                      memo: seq<string>, before: seq<string>, after: seq<string>)
    requires WellFormed(adj) && start in adj && c in adj && HasEdge(adj, start, c)
    requires memo + [start] <= before && Grown(adj, p, start, memo, before)
    requires CoveredFrom(adj, p, before, |memo| + 1)
    requires Grown(adj, p, c, before, after) && CoveredFrom(adj, p, after, |before|)
    ensures memo + [start] <= after && Grown(adj, p, start, memo, after)
    ensures CoveredFrom(adj, p, after, |memo| + 1)
    ensures forall x :: x in before ==> x in after
  {
    forall x | x in before ensures x in after {
      PrefixIn(before, after, x);
    }
    forall j | |memo| <= j < |after|
      ensures after[j] in adj && after[j] !in memo && p.Admits(after[j]) && Reachable(adj, start, after[j])
    {
      if j < |before| {
        assert after[j] == before[j];
      } else {
        ReachablePrepend(adj, start, c, after[j]);
        if after[j] in memo {
          PrefixIn(memo, before, after[j]);
        }
      }
    }
    forall j | |memo| + 1 <= j < |after| && after[j] in adj && p.Expands(after[j])
      ensures ChildrenCovered(adj, p, after[j], after)
    {
      if j < |before| {
        assert after[j] == before[j];
      }
    }
  }

  /**
   * `depth_first_search(startId, memo, func)`: `depth_traverse` from `startId` with
   * `func`, or `doNothing` when no callback is given.
   */
  method DepthFirstSearch(adj: Adjacency, start: string, memo: seq<string>, func: Option<Callback>)
    returns (memo': seq<string>)
    requires WellFormed(adj) && start in adj
    ensures Grown(adj, Search(func.GetOr(DoNothing)), start, memo, memo')
    ensures CoveredFrom(adj, Search(func.GetOr(DoNothing)), memo', |memo|)
    ensures start in memo'
    ensures start in memo ==> memo' == memo
    ensures start !in memo ==> memo'[|memo|] == start
    ensures func == None && memo == [] ==> forall v :: v in memo' <==> Reachable(adj, start, v)
  {
    var p := Search(func.GetOr(DoNothing));
    memo' := DepthTraverse(adj, start, p, memo);
    if func == None && memo == [] {
      SearchFindsAll(adj, start, p, memo');
    }
  }

  /**
   * A search from an empty memo whose callback never stops records exactly the
   * nodes reachable from the start.
   */
  lemma SearchFindsAll(adj: Adjacency, start: string, p: DepthPolicy, memo': seq<string>)
    requires WellFormed(adj) && p == Search(DoNothing) && start in memo'
    requires Grown(adj, p, start, [], memo') && CoveredFrom(adj, p, memo', 0)
    ensures forall v :: v in memo' <==> Reachable(adj, start, v)
  {
    var s := set v | v in memo';
    assert ClosedUnder(adj, s) by {
      forall u, nb | u in s && u in adj && nb in adj[u].children ensures nb.id in s {
        var j :| 0 <= j < |memo'| && memo'[j] == u;
        assert ChildrenCovered(adj, p, memo'[j], memo');
      }
    }
    forall v | Reachable(adj, start, v) ensures v in memo' {
      ClosedContainsReachable(adj, s, start, v);
    }
  }

  /**
   * `kosaraju_search`: `depth_traverse` from `start` with the component policy; it
   * records the unseen nodes of `currNodes` that `start` reaches without leaving
   * `currNodes` or passing a seen node.
   */
  method KosarajuSearch(adj: Adjacency, start: string, memo: seq<string>, currNodes: seq<string>, seen: seq<string>)
    returns (memo': seq<string>)
    requires WellFormed(adj) && start in adj
    ensures Grown(adj, Component(currNodes, seen), start, memo, memo')
    ensures forall j :: |memo| <= j < |memo'| ==> memo'[j] in currNodes && memo'[j] !in seen
    ensures CoveredFrom(adj, Component(currNodes, seen), memo', |memo|)
    ensures start !in memo && start in currNodes && start !in seen ==> |memo'| > |memo| && memo'[|memo|] == start
  {
    memo' := DepthTraverse(adj, start, Component(currNodes, seen), memo);
  }
}
