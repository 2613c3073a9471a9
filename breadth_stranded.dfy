/**
 * `breadth_first_search(startId, memo, func)` run on queue.h's `Queue` as it is
 * written.  queue.h declares no `is_empty`; it is read here as "`head` is null",
 * which is what the queue's view calls empty.  The first round dequeues the start
 * from a one-element queue, which strands the queue: the start's new children are
 * recorded, but their enqueues are lost, the queue reads as empty and the traversal
 * ends.  Nodes two edges away are never recorded.
 *
 * `BreadthTraversal` models the same search over an ideal FIFO queue, the
 * behaviour the traversal is evidently meant to have.
 */
module StrandedBreadth {
  import opened Wrappers
  import opened Sequences
  import opened GraphStore
  import opened Paths
  import Queues
  import DepthTraversal
  import BreadthTraversal

  type Callback = DepthTraversal.Callback

  /** The ids of a child list, in list order. */
  function ChildIds(ns: seq<Neighbor>): (r: seq<string>)
    ensures |r| == |ns| && forall k :: 0 <= k < |ns| ==> r[k] == ns[k].id
  {
    seq(|ns|, k requires 0 <= k < |ns| => ns[k].id)
  }

  /** The longest prefix of `s` whose elements `f` lets through. */
  function Accepted<T>(s: seq<T>, f: T -> bool): (r: seq<T>)
    ensures r <= s && (forall v :: v in r ==> !f(v)) && (|r| < |s| ==> f(s[|r|]))
    decreases |s|
  {
    if s == [] || f(s[0]) then [] else [s[0]] + Accepted(s[1..], f)
  }

  /**
   * What the search appends to the memo: nothing if the callback stops at the start;
   * otherwise the start, then the start's children not seen before, in list order,
   * up to the first one the callback stops at.
   */
  function StrandedVisits(adj: Adjacency, start: string, f: Callback): seq<string>
    requires start in adj
  {
    if f(start) then [] else [start] + Accepted(Unseen(ChildIds(adj[start].children), {start}), f)
  }

  /**
   * `breadth_first_search(startId, memo, func)` through `breadth_traverse` and
   * `breadth_search_memo_stopcall` with one source, `visited` tested by id.
   */
  method StrandedSearch(adj: Adjacency, start: string, memo: seq<string>, func: Option<Callback>)
    returns (memo': seq<string>)
    requires start in adj
    ensures memo' == memo + StrandedVisits(adj, start, func.GetOr(DepthTraversal.DoNothing))
  {
    var f := func.GetOr(DepthTraversal.DoNothing);
    memo' := memo;
    var q: Queues.QueueView<string> := Queues.QueueView([], false);
    if f(start) {
      return;
    }
    var visited := [start];
    memo' := memo' + [start];
    q := Queues.Enqueued(q, start);
    var stop := false;
    var first := true;
    while !stop && q.items != []
      invariant first ==> !stop && q == Queues.QueueView([start], false) && visited == [start] && memo' == memo + [start]
      invariant !first ==> q == Queues.QueueView([], true)
      invariant !first ==> memo' == memo + StrandedVisits(adj, start, f)
      decreases |q.items|
    {
      var (x, q') := Queues.Dequeued(q);
      assert x == Some(start) && q' == Queues.QueueView([], true);
      q := q';
      first := false;
      stop, visited := Expand(adj, start, f, visited, q);
      memo' := memo + visited;
    }
  }

  /**
   * The round in which the start is taken off the queue: each child of the start
   * not yet visited is handed to the callback, then visited, recorded and enqueued
   * on the stranded queue, which drops it.
   */
  method Expand(adj: Adjacency, start: string, f: Callback, visited: seq<string>, q: Queues.QueueView<string>)
    returns (stop: bool, visited': seq<string>)
    requires start in adj && !f(start) && visited == [start] && q == Queues.QueueView([], true)
    ensures visited' == StrandedVisits(adj, start, f)
  {
    var ids := ChildIds(adj[start].children);
    visited' := visited;
    var queue := q;
    stop := false;
    var k := 0;
    while k < |ids| && !stop
      invariant 0 <= k <= |ids| && queue == q
      invariant !stop ==> visited' == [start] + Unseen(ids[..k], {start})
      invariant !stop ==> Accepted(Unseen(ids[..k], {start}), f) == Unseen(ids[..k], {start})
      invariant stop ==> visited' == [start] + Accepted(Unseen(ids, {start}), f)
      decreases |ids| - k
    {
      var c := ids[k];
      ScanStep(ids, start, k, f);
      if c !in visited' {
        if f(c) {
          stop := true;
        } else {
          visited' := visited' + [c];
          queue := Queues.Enqueued(queue, c);
        }
      }
      k := k + 1;
    }
    if !stop {
      assert ids[..k] == ids;
    }
  }

  /**
   * One child of the scan: a visited one changes nothing; a new one the callback
   * stops at ends the accepted prefix; a new one it lets through extends it.
   */
  lemma ScanStep<T>(ids: seq<T>, start: T, k: int, f: T -> bool)
    requires 0 <= k < |ids|
    requires Accepted(Unseen(ids[..k], {start}), f) == Unseen(ids[..k], {start})
    ensures var seen, c := Unseen(ids[..k], {start}), ids[k];
      && (c in [start] + seen ==> Unseen(ids[..k + 1], {start}) == seen)
      && (c !in [start] + seen ==> Unseen(ids[..k + 1], {start}) == seen + [c])
      && (c !in [start] + seen && f(c) ==> Accepted(Unseen(ids, {start}), f) == seen)
      && (c !in [start] + seen && !f(c) ==> Accepted(seen + [c], f) == seen + [c])
  {
    var seen, c := Unseen(ids[..k], {start}), ids[k];
    UnseenSnoc(ids[..k + 1], {start});
    assert ids[..k + 1][..k] == ids[..k];
    UnseenElems(ids[..k], {start});
    if c !in [start] + seen {
      if f(c) {
        UnseenPrefix(ids, {start}, k + 1);
        AcceptedStops(Unseen(ids, {start}), seen, f);
      } else {
        AcceptedGrows(seen, c, f);
      }
    }
  }

  /** `Unseen` of a prefix is a prefix of `Unseen`. */
  lemma {:induction false} UnseenPrefix<T>(s: seq<T>, known: set<T>, k: int)
    requires 0 <= k <= |s|
    ensures Unseen(s[..k], known) <= Unseen(s, known)
    decreases |s| - k
  {
    if k < |s| {
      UnseenPrefix(s, known, k + 1);
      UnseenSnoc(s[..k + 1], known);
      assert s[..k + 1][..k] == s[..k];
    } else {
      assert s[..k] == s;
    }
  }

  /** A prefix the callback lets through, followed by a node it stops at, is what `Accepted` keeps. */
  lemma {:induction false} AcceptedStops<T>(s: seq<T>, p: seq<T>, f: T -> bool)
    requires |p| < |s| && p == s[..|p|] && f(s[|p|]) && forall v :: v in p ==> !f(v)
    ensures Accepted(s, f) == p
    decreases |p|
  {
    if p != [] {
      assert s[1..][..|p| - 1] == p[1..];
      AcceptedStops(s[1..], p[1..], f);
    }
  }

  /** A sequence the callback lets through entirely stays so with one more such node. */
  lemma {:induction false} AcceptedGrows<T>(p: seq<T>, c: T, f: T -> bool)
    requires Accepted(p, f) == p && !f(c)
    ensures Accepted(p + [c], f) == p + [c]
    decreases |p|
  {
    if p != [] {
      assert (p + [c])[1..] == p[1..] + [c];
      AcceptedGrows(p[1..], c, f);
    }
  }

  /**
   * What the stranded search records is a record the ideal traversal allows:
   * distinct nodes reachable from the start that the callback lets through, the
   * start first.
   */
  lemma StrandedRecorded(adj: Adjacency, start: string, f: Callback, m0: seq<string>)
    requires WellFormed(adj) && start in adj
    ensures BreadthTraversal.Recorded(adj, start, f, m0, m0 + StrandedVisits(adj, start, f))
  {
    var m := m0 + StrandedVisits(adj, start, f);
    assert m[|m0|..] == StrandedVisits(adj, start, f);
    if !f(start) {
      var ids := ChildIds(adj[start].children);
      var all := Unseen(ids, {start});
      var acc := Accepted(all, f);
      UnseenElems(ids, {start});
      assert Distinct(acc) by {
        assert forall i :: 0 <= i < |acc| ==> acc[i] == all[i];
      }
      DistinctAppend([start], acc);
      ReachableRefl(adj, start);
      forall v | v in acc ensures Reachable(adj, start, v) {
        assert v in all;
        var k :| 0 <= k < |ids| && ids[k] == v;
        ChildMirrored(adj, start, adj[start].children[k]);
        ReachableStep(adj, start, start, v);
      }
    }
  }

  /** The chain `a -> b -> c`, every edge unweighted. */
  function Chain(): Adjacency {
    map[
      "a" := GraphNode([Neighbor("b", NoWeight)], []),
      "b" := GraphNode([Neighbor("c", NoWeight)], [Neighbor("a", NoWeight)]),
      "c" := GraphNode([], [Neighbor("b", NoWeight)])]
  }

  /**
   * On the chain `a -> b -> c`, with no callback, the stranded search from `a`
   * records `a` and `b` only, although `c` is reachable from `a`; the ideal
   * traversal (`BreadthTraversal.BreadthFirstSearch`) records every reachable node.
   */
  lemma StrandedMissesGrandchild()
    ensures WellFormed(Chain()) && Reachable(Chain(), "a", "c")
    ensures StrandedVisits(Chain(), "a", DepthTraversal.DoNothing) == ["a", "b"]
  {
    ChainWellFormed();
    ChainReaches();
    ChainVisits();
  }

  lemma ChainReaches()
    ensures Reachable(Chain(), "a", "c")
  {
    var adj := Chain();
    assert HasEdge(adj, "a", "b") by {
      assert adj["a"].children[0].id == "b";
    }
    assert HasEdge(adj, "b", "c") by {
      assert adj["b"].children[0].id == "c";
    }
    assert IsWalk(adj, ["a", "b", "c"]);
  }

  lemma ChainVisits()
    ensures StrandedVisits(Chain(), "a", DepthTraversal.DoNothing) == ["a", "b"]
  {
    var f: Callback := DepthTraversal.DoNothing;
    assert Chain()["a"].children == [Neighbor("b", NoWeight)];
    var ids := ChildIds(Chain()["a"].children);
    assert ids == ["b"];
    UnseenSnoc(ids, {"a"});
    assert ids[..0] == [];
    assert Unseen(ids, {"a"}) == ["b"];
    assert Accepted(["b"], f) == ["b"] by {
      assert !f("b");
      assert ["b"][1..] == [];
    }
    assert !f("a");
  }

  lemma ChainWellFormed()
    ensures WellFormed(Chain())
  {
    var adj := Chain();
    forall u, nb | ChildEntry(adj, u, nb)
      ensures nb.id in adj && Neighbor(u, nb.weight) in adj[nb.id].parents
    {
    }
    forall u, nb | ParentEntry(adj, u, nb)
      ensures nb.id in adj && Neighbor(u, nb.weight) in adj[nb.id].children
    {
    }
  }
}
