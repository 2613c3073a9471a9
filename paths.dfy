/**
 * Walks through the edge relation of a node table, and the notions the graph
 * algorithms are specified by: reachability, closure, cycles and topological order.
 */
module Paths {
  import opened Sequences
  import opened GraphStore

  /** `w` is a non-empty sequence of existing nodes, each an edge away from the previous one. */
  ghost predicate IsWalk(adj: Adjacency, w: seq<string>) {
    && |w| >= 1
    && (forall i :: 0 <= i < |w| ==> w[i] in adj)
    && (forall i :: 0 <= i < |w| - 1 ==> HasEdge(adj, w[i], w[i + 1]))
  }

  /** A walk leads from `u` to `v` (every existing node reaches itself). */
  ghost predicate Reachable(adj: Adjacency, u: string, v: string) {
    exists w :: IsWalk(adj, w) && w[0] == u && w[|w| - 1] == v
  }

  /** Some walk of at least one edge returns to where it started; a self-loop is one. */
  ghost predicate HasCycle(adj: Adjacency) {
    exists w :: IsWalk(adj, w) && |w| >= 2 && w[0] == w[|w| - 1]
  }

  /** Every edge leaving `s` ends in `s`. */
  ghost predicate ClosedUnder(adj: Adjacency, s: set<string>) {
    forall u, nb :: u in s && u in adj && nb in adj[u].children ==> nb.id in s
  }

  /**
   * `order` lists every node exactly once and places each parent before each of its
   * children.
   */
  ghost predicate IsTopologicalOrder(adj: Adjacency, order: seq<string>) {
    && Distinct(order)
    && (forall v :: v in order <==> v in adj)
    && (forall i, j :: 0 <= i < |order| && 0 <= j < |order| && HasEdge(adj, order[i], order[j]) ==> i < j)
  }

  lemma ReachableRefl(adj: Adjacency, u: string)
    requires u in adj
    ensures Reachable(adj, u, u)
  {
    assert IsWalk(adj, [u]);
  }

  /** A walk to `v` followed by an edge `v -> c` is a walk to `c`. */
  lemma ReachableStep(adj: Adjacency, u: string, v: string, c: string)
    requires Reachable(adj, u, v) && HasEdge(adj, v, c) && c in adj
    ensures Reachable(adj, u, c)
  {
    var w :| IsWalk(adj, w) && w[0] == u && w[|w| - 1] == v;
    var w' := w + [c];
    assert IsWalk(adj, w');
  }

  /** An edge `u -> c` followed by a walk from `c` is a walk from `u`. */
  lemma ReachablePrepend(adj: Adjacency, u: string, c: string, v: string)
    requires u in adj && HasEdge(adj, u, c) && Reachable(adj, c, v)
    ensures Reachable(adj, u, v)
  {
    var w :| IsWalk(adj, w) && w[0] == c && w[|w| - 1] == v;
    var w' := [u] + w;
    assert IsWalk(adj, w') by {
      forall i | 0 <= i < |w'| - 1 ensures HasEdge(adj, w'[i], w'[i + 1]) {
        if i > 0 {
          assert w'[i] == w[i - 1] && w'[i + 1] == w[i];
        }
      }
    }
  }

  lemma ReachableTrans(adj: Adjacency, u: string, v: string, x: string)
    requires Reachable(adj, u, v) && Reachable(adj, v, x)
    ensures Reachable(adj, u, x)
  {
    var w1 :| IsWalk(adj, w1) && w1[0] == u && w1[|w1| - 1] == v;
    var w2 :| IsWalk(adj, w2) && w2[0] == v && w2[|w2| - 1] == x;
    var w := w1 + w2[1..];
    assert IsWalk(adj, w) by {
      forall i | 0 <= i < |w| - 1 ensures HasEdge(adj, w[i], w[i + 1]) {
        if i < |w1| - 1 {
          assert w[i] == w1[i] && w[i + 1] == w1[i + 1];
        } else {
          assert w[i] == w2[i - |w1| + 1] && w[i + 1] == w2[i - |w1| + 2];
        }
      }
    }
  }

  /** A table that keeps every node and edge of `adj` keeps every walk of it. */
  ghost predicate Extends(adj: Adjacency, adj': Adjacency) {
    adj.Keys <= adj'.Keys && forall a, b :: HasEdge(adj, a, b) ==> HasEdge(adj', a, b)
  }

  lemma ReachableGrows(adj: Adjacency, adj': Adjacency, u: string, v: string)
    requires Extends(adj, adj') && Reachable(adj, u, v)
    ensures Reachable(adj', u, v)
  {
    var w :| IsWalk(adj, w) && w[0] == u && w[|w| - 1] == v;
    assert IsWalk(adj', w);
  }

  /** Dropping nodes and edges from an acyclic table leaves it acyclic. */
  lemma AcyclicShrinks(adj: Adjacency, adj': Adjacency)
    requires Extends(adj', adj) && !HasCycle(adj)
    ensures !HasCycle(adj')
  {
  }

  /** A set closed under the edges that holds `u` holds every node `u` reaches. */
  lemma ClosedContainsReachable(adj: Adjacency, s: set<string>, u: string, v: string)
    requires u in s && ClosedUnder(adj, s) && Reachable(adj, u, v)
    ensures v in s
  {
    var w :| IsWalk(adj, w) && w[0] == u && w[|w| - 1] == v;
    WalkStaysIn(adj, s, w, |w| - 1);
  }

  lemma {:induction false} WalkStaysIn(adj: Adjacency, s: set<string>, w: seq<string>, k: int)
    requires IsWalk(adj, w) && w[0] in s && ClosedUnder(adj, s) && 0 <= k < |w|
    ensures w[k] in s
  {
    if k > 0 {
      WalkStaysIn(adj, s, w, k - 1);
      assert HasEdge(adj, w[k - 1], w[k]);
      var nb :| nb in adj[w[k - 1]].children && nb.id == w[k];
    }
  }

  /** A topological order rules out every cycle, a self-loop included. */
  lemma {:induction false} TopologicalOrderAcyclic(adj: Adjacency, order: seq<string>)
    requires IsTopologicalOrder(adj, order)
    ensures !HasCycle(adj)
  {
    if HasCycle(adj) {
      var w :| IsWalk(adj, w) && |w| >= 2 && w[0] == w[|w| - 1];
      var pos := seq(|w|, i requires 0 <= i < |w| => IndexOf(order, w[i]));
      forall i | 0 <= i < |w| - 1 ensures pos[i] < pos[i + 1] {
        assert HasEdge(adj, order[pos[i]], order[pos[i + 1]]);
      }
      PositionsIncrease(pos, |w| - 1);
    }
  }

  lemma {:induction false} PositionsIncrease(pos: seq<int>, k: int)
    requires 0 < k < |pos| && forall i :: 0 <= i < |pos| - 1 ==> pos[i] < pos[i + 1]
    ensures pos[0] < pos[k]
  {
    if k > 1 {
      PositionsIncrease(pos, k - 1);
    }
  }

  /** The position of `x` in `s`. */
  function IndexOf<T(==)>(s: seq<T>, x: T): (i: int)
    requires x in s
    ensures 0 <= i < |s| && s[i] == x
  {
    if s[0] == x then 0 else 1 + IndexOf(s[1..], x)
  }

  /** A duplicate-free sequence drawn from a set is no longer than the set. */
  lemma {:induction false} DistinctBound<T>(s: seq<T>, a: set<T>)
    requires Distinct(s) && forall x :: x in s ==> x in a
    ensures |s| <= |a|
  {
    if s != [] {
      var t := s[1..];
      assert Distinct(t) by {
        forall i, j | 0 <= i < j < |t| ensures t[i] != t[j] {
          assert t[i] == s[i + 1] && t[j] == s[j + 1];
        }
      }
      assert s[0] !in t by {
        forall j | 0 <= j < |t| ensures t[j] != s[0] {
          assert t[j] == s[j + 1];
        }
      }
      DistinctBound(t, a - {s[0]});
    }
  }
}
