/**
 * `topological_sort` and `topological_sort_helper` (graph.cpp): a depth-first walk
 * that keeps the current `path`, the `seen` list and a stack `sorted` onto which a
 * node is pushed once all its children are; a child found on the path aborts the
 * sort, and otherwise the stack, popped to the end, is the result.
 */
module TopologicalSort {
  import opened Sequences
  import opened GraphStore
  import opened Paths

  /** Position `i` of `sorted` holds an existing node whose children all come earlier. */
  ghost predicate FinishedAt(adj: Adjacency, sorted: seq<string>, i: int) {
    && 0 <= i < |sorted|
    && sorted[i] in adj
    && forall nb :: nb in adj[sorted[i]].children ==> nb.id in sorted[..i]
  }

  /**
   * The bookkeeping of the helper: a node has been seen exactly when it is on the
   * path or on the stack; the stack is duplicate-free, shares nothing with the path,
   * and every node on it was pushed after its children.
   */
  ghost predicate SortState(adj: Adjacency, path: seq<string>, seen: seq<string>, sorted: seq<string>) {
    && (forall v :: v in seen <==> v in path || v in sorted)
    && (forall v :: v in sorted ==> v !in path)
    && Distinct(sorted)
    && (forall i :: 0 <= i < |sorted| ==> FinishedAt(adj, sorted, i))
  }

  /** `path` is the chain of nodes whose helper calls are active, each a child of the previous one. */
  ghost predicate PathTo(adj: Adjacency, path: seq<string>) {
    path == [] || IsWalk(adj, path)
  }

  /**
   * `topological_sort_helper(curr, path, seen, sorted)`: `curr` is marked seen and
   * put on the path; each child on the path fails the sort, each unseen child is
   * sorted first; then `curr` is pushed.  A failure is returned at once.
   *
   * A failure means the graph has a cycle.  On success `curr` and every node seen
   * on the way are on the stack, the earlier stack is a prefix of the new one, and
   * the bookkeeping holds for the caller's path.
   */
  method SortFrom(adj: Adjacency, curr: string, path: seq<string>, seen: seq<string>, sorted: seq<string>)
    returns (ok: bool, seen': seq<string>, sorted': seq<string>)
    requires WellFormed(adj) && curr in adj && curr !in seen
    requires SortState(adj, path, seen, sorted) && PathTo(adj, path)
    requires path != [] ==> HasEdge(adj, path[|path| - 1], curr)
    ensures !ok ==> HasCycle(adj)
    ensures ok ==> SortState(adj, path, seen', sorted') && sorted <= sorted' && curr in sorted'
    ensures ok ==> forall v :: v in seen ==> v in seen'
    decreases adj.Keys - Elems(seen)
  {
    var path1 := path + [curr];
    seen' := seen + [curr];
    sorted' := sorted;
    ExtendPath(adj, path, curr);
    var kids := adj[curr].children;
    var k := 0;
    while k < |kids|
      invariant 0 <= k <= |kids|
      invariant SortState(adj, path1, seen', sorted') && sorted <= sorted'
      invariant forall v :: v in seen + [curr] ==> v in seen'
      invariant forall j :: 0 <= j < k ==> kids[j].id in sorted'
    {
      var c := kids[k].id;
      ChildMirrored(adj, curr, kids[k]);
      if c in path1 {
        CycleFromPath(adj, path1, c);
        return false, seen', sorted';
      }
      if c !in seen' {
        assert Elems(seen') > Elems(seen);
        var before := sorted';
        var ok';
        ok', seen', sorted' := SortFrom(adj, c, path1, seen', sorted');
        if !ok' {
          return false, seen', sorted';
        }
        forall j | 0 <= j < k ensures kids[j].id in sorted' {
          PrefixIn(before, sorted', kids[j].id);
        }
      }
      k := k + 1;
    }
    assert curr !in sorted';
    Push(adj, path, seen', sorted', curr);
    sorted' := sorted' + [curr];
    return true, seen', sorted';
  }

  lemma ExtendPath(adj: Adjacency, path: seq<string>, curr: string)
    requires PathTo(adj, path) && curr in adj
    requires path != [] ==> HasEdge(adj, path[|path| - 1], curr)
    ensures IsWalk(adj, path + [curr])
  {
  }

  /** A child found on the path closes a cycle: the path from that child back to `curr`, then the edge. */
  lemma CycleFromPath(adj: Adjacency, path: seq<string>, c: string)
    requires IsWalk(adj, path) && c in path && HasEdge(adj, path[|path| - 1], c)
    ensures HasCycle(adj)
  {
    var k :| 0 <= k < |path| && path[k] == c;
    var w := path[k..] + [c];
    assert IsWalk(adj, w) by {
      forall i | 0 <= i < |w| - 1 ensures HasEdge(adj, w[i], w[i + 1]) {
        if i < |w| - 2 {
          assert w[i] == path[k + i] && w[i + 1] == path[k + i + 1];
        }
      }
    }
    assert |w| >= 2 && w[0] == w[|w| - 1];
  }

  /** Pushing `curr` once its children are on the stack keeps the bookkeeping, with `curr` off the path. */
  lemma Push(adj: Adjacency, path: seq<string>, seen: seq<string>, sorted: seq<string>, curr: string)
    requires SortState(adj, path + [curr], seen, sorted) && curr in adj && curr !in path
    requires forall nb :: nb in adj[curr].children ==> nb.id in sorted
    ensures SortState(adj, path, seen, sorted + [curr])
  {
    var s := sorted + [curr];
    assert s[..|sorted|] == sorted;
    forall i | 0 <= i < |s| ensures FinishedAt(adj, s, i) {
      if i < |sorted| {
        assert FinishedAt(adj, sorted, i);
        assert s[..i] == sorted[..i];
      }
    }
    assert Distinct(s) by {
      forall a, b | 0 <= a < b < |s| ensures s[a] != s[b] {
        if b == |sorted| {
          assert s[a] in sorted;
        }
      }
    }
  }

  /**
   * `topological_sort(memo)`: the helper is run from every key not yet seen, with an
   * empty path; on a failure nothing is returned, otherwise the stack is popped into
   * the result.  `keys` is the key list of the node table, in its own order.
   *
   * A graph with a cycle (a self-loop included) yields nothing; any other yields
   * every node exactly once, each parent before each of its children.
   */
  method TopologicalSort(adj: Adjacency, keys: seq<string>) returns (memo: seq<string>)
    requires WellFormed(adj) && forall v :: v in keys <==> v in adj
    ensures HasCycle(adj) ==> memo == []
    ensures !HasCycle(adj) ==> IsTopologicalOrder(adj, memo)
  {
    var seen: seq<string> := [];
    var sorted: seq<string> := [];
    var i := 0;
    while i < |keys|
      invariant 0 <= i <= |keys|
      invariant SortState(adj, [], seen, sorted)
      invariant forall j :: 0 <= j < i ==> keys[j] in seen
    {
      if keys[i] !in seen {
        var ok;
        ok, seen, sorted := SortFrom(adj, keys[i], [], seen, sorted);
        if !ok {
          return [];
        }
      }
      i := i + 1;
    }
    memo := [];
    var stack := sorted;
    while stack != []
      invariant |stack| <= |sorted| && stack == sorted[..|stack|]
      invariant memo == Reversed(sorted[|stack|..])
    {
      assert sorted[|stack| - 1..][1..] == sorted[|stack|..];
      memo := memo + [stack[|stack| - 1]];
      stack := stack[..|stack| - 1];
    }
    assert sorted[0..] == sorted;
    forall v | v in adj ensures v in sorted {
      var j :| 0 <= j < |keys| && keys[j] == v;
    }
    ReversedOrder(adj, sorted);
    TopologicalOrderAcyclic(adj, memo);
  }

  /** A stack holding every node, each pushed after its children, pops into a topological order. */
  lemma ReversedOrder(adj: Adjacency, sorted: seq<string>)
    requires Distinct(sorted) && forall i :: 0 <= i < |sorted| ==> FinishedAt(adj, sorted, i)
    requires forall v :: v in adj ==> v in sorted
    ensures IsTopologicalOrder(adj, Reversed(sorted))
  {
    forall i | 0 <= i < |sorted| ensures sorted[i] in adj {
      assert FinishedAt(adj, sorted, i);
    }
    ReversedKeys(adj, sorted);
    ReversedDistinct(sorted);
    ReversedEdges(adj, sorted);
  }

  /** The popped order lists exactly the nodes when the stack does. */
  lemma ReversedKeys(adj: Adjacency, sorted: seq<string>)
    requires forall i :: 0 <= i < |sorted| ==> sorted[i] in adj
    requires forall v :: v in adj ==> v in sorted
    ensures forall v :: v in Reversed(sorted) <==> v in adj
  {
    forall v ensures v in Reversed(sorted) <==> v in adj {
      ReversedElems(sorted, v);
    }
  }

  /** In the popped order every edge points forward. */
  lemma ReversedEdges(adj: Adjacency, sorted: seq<string>)
    requires Distinct(sorted) && forall i :: 0 <= i < |sorted| ==> FinishedAt(adj, sorted, i)
    ensures var memo := Reversed(sorted);
      forall i, j :: 0 <= i < |memo| && 0 <= j < |memo| && HasEdge(adj, memo[i], memo[j]) ==> i < j
  {
    var memo := Reversed(sorted);
    var n := |sorted|;
    forall i, j | 0 <= i < n && 0 <= j < n && HasEdge(adj, memo[i], memo[j]) ensures i < j {
      assert memo[i] == sorted[n - 1 - i] && memo[j] == sorted[n - 1 - j];
      EdgeGoesBack(adj, sorted, n - 1 - i, n - 1 - j);
    }
  }

  /** On the stack a child sits below each of its parents. */
  lemma EdgeGoesBack(adj: Adjacency, sorted: seq<string>, a: int, b: int)
    requires Distinct(sorted) && FinishedAt(adj, sorted, a) && 0 <= b < |sorted|
    requires HasEdge(adj, sorted[a], sorted[b])
    ensures b < a
  {
    var nb :| nb in adj[sorted[a]].children && nb.id == sorted[b];
    var c :| 0 <= c < a && sorted[..a][c] == sorted[b];
    assert sorted[c] == sorted[b];
  }
}
