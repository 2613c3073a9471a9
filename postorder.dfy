/**
 * The post-order and forest searches of graph.cpp: `post_order_depth_first_search`,
 * `find_furthest_parent`, `forest_post_order_depth_first_search` and
 * `forest_depth_first_search`.  The shared `seen` and `memo` lists are threaded
 * through the calls: each call receives them as they stand and returns them extended.
 */
module PostOrder {
  import opened Wrappers
  import opened Sequences
  import opened GraphStore
  import opened Paths
  import DepthTraversal

  // ---------------------------------------------------------------------------
  // post_order_depth_first_search
  // ---------------------------------------------------------------------------

  /**
   * Entry `j` of the nodes `added` a post-order search appended: each of its
   * children has been seen by the end, and was seen before the search began, or
   * was appended no later than it, or reaches it (an ancestor still being searched).
   */
  ghost predicate PostAt(adj: Adjacency, seen: seq<string>, seen': seq<string>, added: seq<string>, j: int) {
    && 0 <= j < |added| && added[j] in adj
    && forall nb :: nb in adj[added[j]].children ==>
         && nb.id in seen'
         && (nb.id in seen || nb.id in added[..j + 1] || Reachable(adj, nb.id, added[j]))
  }

  /**
   * A search from `start` turned `seen` into `seen'` and appended `added` to the
   * memo: `seen'` extends `seen` with exactly the appended nodes, which are new,
   * duplicate-free, reachable from `start` and in post order.
   */
  ghost predicate PostGrown(adj: Adjacency, start: string, seen: seq<string>, seen': seq<string>, added: seq<string>) {
    && seen <= seen'
    && (forall v :: v in seen' <==> v in seen || v in added)
    && Distinct(added)
    && (forall v :: v in added ==> v !in seen && Reachable(adj, start, v))
    && (forall j :: 0 <= j < |added| ==> PostAt(adj, seen, seen', added, j))
  }

  /**
   * `post_order_depth_first_search(start, memo, seen)`: an unseen `start` is marked
   * seen, the search runs from each child in adjacency order, and `start` is
   * appended to the memo last.  A seen `start` changes nothing.
   */
  method PostOrderSearch(adj: Adjacency, start: string, memo: seq<string>, seen: seq<string>)
    returns (memo': seq<string>, seen': seq<string>)
    requires WellFormed(adj) && start in adj
    ensures memo <= memo' && PostGrown(adj, start, seen, seen', memo'[|memo|..])
    ensures start in seen ==> memo' == memo && seen' == seen
    ensures start !in seen ==> |memo'| > |memo| && memo'[|memo'| - 1] == start
    decreases adj.Keys - Elems(seen)
  {
    if start in seen {
      assert memo[|memo|..] == [];
      return memo, seen;
    }
    var seen1 := seen + [start];
    seen' := seen1;
    memo' := memo;
    assert memo'[|memo|..] == [];
    var kids := adj[start].children;
    var k := 0;
    while k < |kids|
      invariant 0 <= k <= |kids|
      invariant memo <= memo' && PostGrown(adj, start, seen1, seen', memo'[|memo|..])
      invariant forall j :: 0 <= j < k ==> kids[j].id in seen'
    {
      ChildMirrored(adj, start, kids[k]);
      ghost var m0 := memo';
      ghost var s0 := seen';
      assert Elems(seen') > Elems(seen) by {
        PrefixIn(seen1, seen', start);
        forall v | v in seen ensures v in seen' {
          PrefixIn(seen1, seen', v);
        }
      }
      memo', seen' := PostOrderSearch(adj, kids[k].id, memo', seen');
      Combine(adj, start, kids[k].id, seen1, s0, seen', m0[|memo|..], memo'[|m0|..]);
      assert memo'[|memo|..] == m0[|memo|..] + memo'[|m0|..];
      forall j | 0 <= j < k + 1 ensures kids[j].id in seen' {
        if j < k {
          PrefixIn(s0, seen', kids[j].id);
        }
      }
      k := k + 1;
    }
    assert forall nb :: nb in kids ==> nb.id in seen';
    Finish(adj, start, seen, seen', memo'[|memo|..]);
    assert (memo' + [start])[|memo|..] == memo'[|memo|..] + [start];
    memo' := memo' + [start];
  }

  /** The search from one child extends what the searches from the earlier children appended. */
  lemma Combine(adj: Adjacency, start: string, c: string, seen1: seq<string>, s0: seq<string>, s1: seq<string>,
                f0: seq<string>, sub: seq<string>)
    requires start in adj && c in adj && HasEdge(adj, start, c)
    requires PostGrown(adj, start, seen1, s0, f0) && PostGrown(adj, c, s0, s1, sub)
    ensures PostGrown(adj, start, seen1, s1, f0 + sub)
  {
    var f := f0 + sub;
    assert Distinct(f) by {
      forall a, b | 0 <= a < b < |f| ensures f[a] != f[b] {
        if b >= |f0| {
          assert f[b] == sub[b - |f0|];
          if a < |f0| {
            assert f[a] in f0;
          } else {
            assert f[a] == sub[a - |f0|];
          }
        }
      }
    }
    forall v | v in f ensures v !in seen1 && Reachable(adj, start, v) {
      if v in sub {
        ReachablePrepend(adj, start, c, v);
      }
    }
    forall j | 0 <= j < |f| ensures PostAt(adj, seen1, s1, f, j) {
      if j < |f0| {
        PostAtEarlier(adj, seen1, s0, s1, f0, sub, j);
      } else {
        PostAtLater(adj, start, seen1, s0, s1, f0, sub, j - |f0|);
      }
    }
  }

  lemma PostAtEarlier(adj: Adjacency, seen1: seq<string>, s0: seq<string>, s1: seq<string>,
                      f0: seq<string>, sub: seq<string>, j: int)
    requires PostAt(adj, seen1, s0, f0, j) && s0 <= s1
    ensures PostAt(adj, seen1, s1, f0 + sub, j)
  {
    assert (f0 + sub)[..j + 1] == f0[..j + 1];
    forall nb | nb in adj[f0[j]].children ensures nb.id in s1 {
      PrefixIn(s0, s1, nb.id);
    }
  }

  lemma PostAtLater(adj: Adjacency, start: string, seen1: seq<string>, s0: seq<string>, s1: seq<string>,
                    f0: seq<string>, sub: seq<string>, j: int)
    requires PostAt(adj, s0, s1, sub, j)
    requires forall v :: v in s0 <==> v in seen1 || v in f0
    ensures PostAt(adj, seen1, s1, f0 + sub, |f0| + j)
  {
    var f := f0 + sub;
    assert f[|f0| + j] == sub[j];
    forall nb | nb in adj[sub[j]].children
      ensures nb.id in seen1 || nb.id in f[..|f0| + j + 1] || Reachable(adj, nb.id, sub[j])
    {
      if nb.id in f0 {
        var a :| 0 <= a < |f0| && f0[a] == nb.id;
        assert f[..|f0| + j + 1][a] == nb.id;
      } else if nb.id in sub[..j + 1] {
        var a :| 0 <= a < j + 1 && sub[..j + 1][a] == nb.id;
        assert f[..|f0| + j + 1][|f0| + a] == nb.id;
      }
    }
  }

  /** Appending `start` once its children are searched turns the loop invariant into the contract. */
  lemma Finish(adj: Adjacency, start: string, seen: seq<string>, s: seq<string>, f: seq<string>)
    requires start in adj && start !in seen
    requires PostGrown(adj, start, seen + [start], s, f)
    requires forall nb :: nb in adj[start].children ==> nb.id in s
    ensures PostGrown(adj, start, seen, s, f + [start])
  {
    var f' := f + [start];
    assert seen <= seen + [start];
    assert Distinct(f') by {
      forall a, b | 0 <= a < b < |f'| ensures f'[a] != f'[b] {
        if b == |f| {
          assert f'[a] in f;
        }
      }
    }
    ReachableRefl(adj, start);
    forall j | 0 <= j < |f'| ensures PostAt(adj, seen, s, f', j) {
      if j < |f| {
        PostAtBeforeStart(adj, start, seen, s, f, j);
      } else {
        forall nb | nb in adj[start].children ensures nb.id in seen || nb.id in f'[..j + 1] {
          assert f'[..j + 1] == f';
        }
      }
    }
  }

  lemma PostAtBeforeStart(adj: Adjacency, start: string, seen: seq<string>, s: seq<string>, f: seq<string>, j: int)
    requires PostAt(adj, seen + [start], s, f, j) && Reachable(adj, start, f[j])
    ensures PostAt(adj, seen, s, f + [start], j)
  {
    assert (f + [start])[..j + 1] == f[..j + 1];
  }

  /**
   * In a graph without cycles the post order is a true one: every child of an
   * appended node was seen before the search or appended before it.
   */
  lemma PostOrderAcyclic(adj: Adjacency, seen: seq<string>, seen': seq<string>, added: seq<string>, j: int)
    requires WellFormed(adj) && PostAt(adj, seen, seen', added, j) && !HasCycle(adj)
    ensures forall nb :: nb in adj[added[j]].children ==> nb.id in seen || nb.id in added[..j]
  {
    forall nb | nb in adj[added[j]].children ensures nb.id in seen || nb.id in added[..j] {
      ChildMirrored(adj, added[j], nb);
      assert added[..j + 1] == added[..j] + [added[j]];
      ReachableRefl(adj, nb.id);
      CycleThrough(adj, added[j], nb.id);
    }
  }

  /** An edge `v -> c` together with a walk from `c` back to `v` is a cycle. */
  lemma CycleThrough(adj: Adjacency, v: string, c: string)
    ensures v in adj && HasEdge(adj, v, c) && Reachable(adj, c, v) ==> HasCycle(adj)
  {
    if !(v in adj && HasEdge(adj, v, c) && Reachable(adj, c, v)) {
      return;
    }
    var w :| IsWalk(adj, w) && w[0] == c && w[|w| - 1] == v;
    var w' := [v] + w;
    assert IsWalk(adj, w') by {
      forall i | 0 <= i < |w'| - 1 ensures HasEdge(adj, w'[i], w'[i + 1]) {
        if i > 0 {
          assert w'[i] == w[i - 1] && w'[i + 1] == w[i];
        }
      }
    }
    assert w'[0] == w'[|w'| - 1];
  }

  // ---------------------------------------------------------------------------
  // find_furthest_parent
  // ---------------------------------------------------------------------------

  /**
   * `w` climbs from `w[0]` through parents: each node is a parent of the one
   * before it, and no node repeats or lies on `path`.
   */
  ghost predicate ParentChain(adj: Adjacency, w: seq<string>, path: seq<string>) {
    && |w| >= 1 && Distinct(w)
    && (forall i :: 0 <= i < |w| ==> w[i] in adj && w[i] !in path)
    && (forall i :: 0 <= i < |w| - 1 ==> HasEdge(adj, w[i + 1], w[i]))
  }

  /** No parent chain from `v` off `path` has more than `n` nodes. */
  ghost predicate LongestFrom(adj: Adjacency, v: string, path: seq<string>, n: int) {
    forall w :: ParentChain(adj, w, path) && w[0] == v ==> |w| <= n
  }

  /**
   * `find_furthest_parent(id, path, dist, memo)`: a node without parents or already
   * on the path is its own furthest parent at distance `dist`.  Otherwise `id` joins
   * the path and each parent off the path is searched at `dist + 1`; the first that
   * returns the largest distance supplies the result, and `id` itself does when
   * none beats `dist` or the winner's name is empty.
   *
   * The distance is that of the longest parent chain from `id` off the path, and the
   * returned node lies on such a chain; it is the chain's far end unless some node
   * is named by the empty string.
   */
  method FurthestParent(adj: Adjacency, id: string, path: seq<string>, dist: int) returns (d: int, memo: string)
    requires WellFormed(adj) && id in adj
    ensures id in path || adj[id].parents == [] ==> d == dist && memo == id
    ensures id !in path ==> exists w :: && ParentChain(adj, w, path) && w[0] == id && |w| - 1 == d - dist
                                      && memo in w && ("" !in adj ==> memo == w[|w| - 1])
    ensures LongestFrom(adj, id, path, d - dist + 1)
    decreases adj.Keys - Elems(path)
  {
    var ps := adj[id].parents;
    if ps == [] || id in path {
      if id !in path {
        assert ParentChain(adj, [id], path);
        NoLongerChain(adj, id, path);
      }
      return dist, id;
    }
    var path1 := path + [id];
    var maxD := dist;
    var fp := "";
    ghost var best := [id];
    assert ParentChain(adj, best, path);
    var k := 0;
    while k < |ps|
      invariant 0 <= k <= |ps|
      invariant ParentChain(adj, best, path) && best[0] == id && |best| - 1 == maxD - dist
      invariant fp != "" ==> fp in best
      invariant maxD == dist ==> fp == ""
      invariant "" !in adj && maxD > dist ==> fp == best[|best| - 1]
      invariant forall j :: 0 <= j < k ==> LongestFrom(adj, ps[j].id, path1, maxD - dist)
    {
      var p := ps[k].id;
      ParentMirrored(adj, id, ps[k]);
      if p !in path1 {
        assert Elems(path1) > Elems(path);
        var nd, m := FurthestParent(adj, p, path1, dist + 1);
        if nd > maxD {
          ghost var wp :| && ParentChain(adj, wp, path1) && wp[0] == p && |wp| - 1 == nd - dist - 1
                          && m in wp && ("" !in adj ==> m == wp[|wp| - 1]);
          ChainCons(adj, wp, path, id);
          forall j | 0 <= j < k ensures LongestFrom(adj, ps[j].id, path1, nd - dist) {
            LongestMono(adj, ps[j].id, path1, maxD - dist, nd - dist);
          }
          best := [id] + wp;
          maxD := nd;
          fp := m;
        } else {
          LongestMono(adj, p, path1, nd - dist, maxD - dist);
        }
      }
      k := k + 1;
    }
    LongestViaParents(adj, id, path, maxD - dist);
    d := maxD;
    memo := if fp != "" then fp else id;
  }

  lemma LongestMono(adj: Adjacency, v: string, path: seq<string>, n: int, n': int)
    requires LongestFrom(adj, v, path, n) && n <= n'
    ensures LongestFrom(adj, v, path, n')
  {
  }

  /** A node on the path starts no chain; one without parents starts only itself. */
  lemma NoLongerChain(adj: Adjacency, id: string, path: seq<string>)
    requires WellFormed(adj) && id in adj && adj[id].parents == []
    ensures LongestFrom(adj, id, path, 1)
  {
    forall w | ParentChain(adj, w, path) && w[0] == id ensures |w| <= 1 {
      if |w| >= 2 {
        ChainStep(adj, w, path, id);
      }
    }
  }

  /** Chains from the parents bounded by `n` nodes bound the chains from `id` by `n + 1`. */
  lemma LongestViaParents(adj: Adjacency, id: string, path: seq<string>, n: int)
    requires WellFormed(adj) && id in adj && n >= 0
    requires forall j :: 0 <= j < |adj[id].parents| ==> LongestFrom(adj, adj[id].parents[j].id, path + [id], n)
    ensures LongestFrom(adj, id, path, n + 1)
  {
    forall w | ParentChain(adj, w, path) && w[0] == id ensures |w| <= n + 1 {
      if |w| >= 2 {
        ChainStep(adj, w, path, id);
        var j :| 0 <= j < |adj[id].parents| && adj[id].parents[j].id == w[1];
        assert LongestFrom(adj, adj[id].parents[j].id, path + [id], n);
      }
    }
  }

  /** A chain of two or more nodes starts with an edge from a listed parent, then climbs off the longer path. */
  lemma ChainStep(adj: Adjacency, w: seq<string>, path: seq<string>, id: string)
    requires WellFormed(adj) && ParentChain(adj, w, path) && w[0] == id && |w| >= 2
    ensures ParentChain(adj, w[1..], path + [id])
    ensures exists j :: 0 <= j < |adj[id].parents| && adj[id].parents[j].id == w[1]
  {
    assert HasEdge(adj, w[1], w[0]);
    var nb :| nb in adj[w[1]].children && nb.id == id;
    ChildMirrored(adj, w[1], nb);
    var t := w[1..];
    forall i | 0 <= i < |t| ensures t[i] != id {
      assert t[i] == w[i + 1];
    }
    assert Distinct(t) by {
      forall a, b | 0 <= a < b < |t| ensures t[a] != t[b] {
        assert t[a] == w[a + 1] && t[b] == w[b + 1];
      }
    }
    forall i | 0 <= i < |t| - 1 ensures HasEdge(adj, t[i + 1], t[i]) {
      assert t[i] == w[i + 1] && t[i + 1] == w[i + 2];
    }
  }

  /** A parent chain from a parent `w[0]` of `id`, off the path and `id`, extends to a chain from `id`. */
  lemma ChainCons(adj: Adjacency, w: seq<string>, path: seq<string>, id: string)
    requires ParentChain(adj, w, path + [id]) && id in adj && id !in path && HasEdge(adj, w[0], id)
    ensures ParentChain(adj, [id] + w, path)
  {
    var w' := [id] + w;
    assert Distinct(w') by {
      forall a, b | 0 <= a < b < |w'| ensures w'[a] != w'[b] {
        assert w'[b] == w[b - 1];
        if a > 0 {
          assert w'[a] == w[a - 1];
        }
      }
    }
    forall i | 0 <= i < |w'| ensures w'[i] in adj && w'[i] !in path {
      if i > 0 {
        assert w'[i] == w[i - 1];
      }
    }
    forall i | 0 <= i < |w'| - 1 ensures HasEdge(adj, w'[i + 1], w'[i]) {
      if i > 0 {
        assert w'[i] == w[i - 1] && w'[i + 1] == w[i];
      }
    }
  }

  /** Every node of a parent chain reaches the chain's first node. */
  lemma {:induction false} ChainReaches(adj: Adjacency, w: seq<string>, path: seq<string>, i: int)
    requires ParentChain(adj, w, path) && 0 <= i < |w|
    ensures Reachable(adj, w[i], w[0])
  {
    if i == 0 {
      ReachableRefl(adj, w[0]);
    } else {
      ChainReaches(adj, w, path, i - 1);
      ReachablePrepend(adj, w[i], w[i - 1], w[0]);
    }
  }

  /** `find_furthest_parent(start, [], 0, memo)` as the forest searches call it: the result reaches `start`. */
  method FurthestAncestor(adj: Adjacency, start: string) returns (fp: string)
    requires WellFormed(adj) && start in adj
    ensures fp in adj && Reachable(adj, fp, start)
  {
    var _, m := FurthestParent(adj, start, [], 0);
    ghost var w :| ParentChain(adj, w, []) && w[0] == start && m in w;
    ghost var i :| 0 <= i < |w| && w[i] == m;
    ChainReaches(adj, w, [], i);
    fp := m;
  }

  // ---------------------------------------------------------------------------
  // The forest searches
  // ---------------------------------------------------------------------------

  /** Every node of every tree is reachable from that tree's node at position `root(tree)`. */
  ghost predicate TreesReach(adj: Adjacency, trees: seq<seq<string>>, last: bool) {
    forall i :: 0 <= i < |trees| ==> TreeReach(adj, trees, i, last)
  }

  ghost predicate TreeReach(adj: Adjacency, trees: seq<seq<string>>, i: int, last: bool) {
    && 0 <= i < |trees| && trees[i] != []
    && forall v :: v in trees[i] ==> Reachable(adj, trees[i][if last then |trees[i]| - 1 else 0], v)
  }

  /**
   * `forest_post_order_depth_first_search(memo)`: while some key is unseen, the
   * furthest parent of the first such key starts a post-order search over the
   * shared `seen` list, its memo becomes the next tree, and its nodes leave the key
   * list.  `keys` is the key list of the node table, in its own order.
   *
   * The trees split the nodes, and every node of a tree is reachable from the tree's
   * last node, where its search started.
   */
  method ForestPostOrder(adj: Adjacency, keys: seq<string>) returns (memo: seq<seq<string>>)
    requires WellFormed(adj) && forall v :: v in keys <==> v in adj
    ensures IsPartition(memo, adj.Keys)
    ensures TreesReach(adj, memo, true)
  {
    var ids := keys;
    var seen: seq<string> := [];
    memo := [];
    while ids != []
      invariant forall v :: v in ids <==> v in adj && v !in seen
      invariant forall v :: v in seen ==> v in adj
      invariant ClosedUnder(adj, Elems(seen))
      invariant IsPartition(memo, Elems(seen))
      invariant TreesReach(adj, memo, true)
      decreases adj.Keys - Elems(seen)
    {
      var start := ids[0];
      var fp := FurthestAncestor(adj, start);
      if fp in seen {
        ClosedContainsReachable(adj, Elems(seen), fp, start);
      }
      var tree, seen' := PostOrderSearch(adj, fp, [], seen);
      assert tree[0..] == tree;
      ForestStep(adj, fp, seen, seen', tree, memo);
      memo := memo + [tree];
      ids := Difference(ids, tree);
      seen := seen';
    }
  }

  /** One post-order tree keeps the invariant of the forest loop. */
  lemma ForestStep(adj: Adjacency, fp: string, seen: seq<string>, seen': seq<string>, tree: seq<string>,
                   memo: seq<seq<string>>)
    requires WellFormed(adj) && fp in adj && fp !in seen
    requires tree != [] && tree[|tree| - 1] == fp && PostGrown(adj, fp, seen, seen', tree)
    requires forall v :: v in seen ==> v in adj
    requires ClosedUnder(adj, Elems(seen)) && IsPartition(memo, Elems(seen)) && TreesReach(adj, memo, true)
    ensures forall v :: v in seen' ==> v in adj
    ensures ClosedUnder(adj, Elems(seen'))
    ensures IsPartition(memo + [tree], Elems(seen')) && TreesReach(adj, memo + [tree], true)
    ensures Elems(seen') > Elems(seen)
  {
    forall v | v in tree ensures v in adj {
      var j :| 0 <= j < |tree| && tree[j] == v;
      assert PostAt(adj, seen, seen', tree, j);
    }
    assert ClosedUnder(adj, Elems(seen')) by {
      forall u, nb | u in Elems(seen') && u in adj && nb in adj[u].children ensures nb.id in Elems(seen') {
        if u in tree {
          var j :| 0 <= j < |tree| && tree[j] == u;
          assert PostAt(adj, seen, seen', tree, j);
        } else {
          assert u in Elems(seen);
        }
      }
    }
    PartitionExtend(memo, Elems(seen), tree);
    assert Elems(seen') == Elems(seen) + Elems(tree);
    TreesReachExtend(adj, memo, tree, true);
    assert fp in Elems(seen');
  }

  /** A new tree whose nodes its root reaches keeps `TreesReach`. */
  lemma TreesReachExtend(adj: Adjacency, trees: seq<seq<string>>, tree: seq<string>, last: bool)
    requires TreesReach(adj, trees, last) && tree != []
    requires forall v :: v in tree ==> Reachable(adj, tree[if last then |tree| - 1 else 0], v)
    ensures TreesReach(adj, trees + [tree], last)
  {
    var ms := trees + [tree];
    forall i | 0 <= i < |ms| ensures TreeReach(adj, ms, i, last) {
      if i < |trees| {
        assert TreeReach(adj, trees, i, last);
        assert ms[i] == trees[i];
      }
    }
  }

  /** A memo whose every node has its children recorded is closed under the edges. */
  lemma CoveredClosed(adj: Adjacency, dfs: seq<string>)
    requires DepthTraversal.CoveredFrom(adj, DepthTraversal.Search(DepthTraversal.DoNothing), dfs, 0)
    ensures ClosedUnder(adj, Elems(dfs))
  {
    var p := DepthTraversal.Search(DepthTraversal.DoNothing);
    forall u, nb | u in Elems(dfs) && u in adj && nb in adj[u].children ensures nb.id in Elems(dfs) {
      var j :| 0 <= j < |dfs| && dfs[j] == u;
      assert DepthTraversal.ChildrenCovered(adj, p, dfs[j], dfs);
    }
  }

  /**
   * `forest_depth_first_search(memo, func)`: while some key is unrecorded, a
   * depth-first search from the furthest parent of the first such key extends the
   * shared memo, the nodes it adds become the next tree, and the recorded nodes
   * leave the key list.  When the search adds nothing, which a stopping callback
   * can cause, every later round repeats it and the loop never ends.
   *
   * Without a callback the search always ends.  When it ends, the trees split the
   * nodes and every node of a tree is reachable from the tree's first node.
   */
  method ForestDepthFirstSearch(adj: Adjacency, keys: seq<string>, func: Option<DepthTraversal.Callback>)
    returns (r: Run<seq<seq<string>>>)
    requires WellFormed(adj) && forall v :: v in keys <==> v in adj
    ensures func == None ==> r.Done?
    ensures r.Done? ==> IsPartition(r.value, adj.Keys) && TreesReach(adj, r.value, false)
  {
    var p := DepthTraversal.Search(func.GetOr(DepthTraversal.DoNothing));
    var ids := keys;
    var dfs: seq<string> := [];
    var memo: seq<seq<string>> := [];
    while ids != []
      invariant forall v :: v in ids <==> v in adj && v !in dfs
      invariant Distinct(dfs) && forall v :: v in dfs ==> v in adj
      invariant func == None ==> DepthTraversal.CoveredFrom(adj, p, dfs, 0)
      invariant IsPartition(memo, Elems(dfs)) && TreesReach(adj, memo, false)
      decreases adj.Keys - Elems(dfs)
    {
      var start := ids[0];
      var fp := FurthestAncestor(adj, start);
      if func == None && fp in dfs {
        CoveredClosed(adj, dfs);
        ClosedContainsReachable(adj, Elems(dfs), fp, start);
      }
      var dfs' := DepthTraversal.DepthFirstSearch(adj, fp, dfs, func);
      var tree := dfs'[|dfs|..];
      if tree == [] {
        return Diverges;
      }
      DfsForestStep(adj, p, fp, dfs, dfs', memo, func == None);
      memo := memo + [tree];
      ids := Difference(ids, dfs');
      dfs := dfs';
    }
    return Done(memo);
  }

  /** One depth-first tree keeps the invariant of the forest loop. */
  lemma DfsForestStep(adj: Adjacency, p: DepthTraversal.DepthPolicy, fp: string, dfs: seq<string>, dfs': seq<string>,
                      memo: seq<seq<string>>, plain: bool)
    requires WellFormed(adj) && p.Search? && fp in adj && fp !in dfs && |dfs'| > |dfs| && dfs'[|dfs|] == fp
    requires plain ==> p == DepthTraversal.Search(DepthTraversal.DoNothing)
    requires DepthTraversal.Grown(adj, p, fp, dfs, dfs') && DepthTraversal.CoveredFrom(adj, p, dfs', |dfs|)
    requires Distinct(dfs) && forall v :: v in dfs ==> v in adj
    requires plain ==> DepthTraversal.CoveredFrom(adj, p, dfs, 0)
    requires IsPartition(memo, Elems(dfs)) && TreesReach(adj, memo, false)
    ensures Distinct(dfs') && forall v :: v in dfs' ==> v in adj
    ensures plain ==> DepthTraversal.CoveredFrom(adj, p, dfs', 0)
    ensures IsPartition(memo + [dfs'[|dfs|..]], Elems(dfs')) && TreesReach(adj, memo + [dfs'[|dfs|..]], false)
    ensures Elems(dfs') > Elems(dfs)
  {
    var tree := dfs'[|dfs|..];
    forall v | v in dfs' ensures v in adj && (v in dfs || v in tree) {
      var j :| 0 <= j < |dfs'| && dfs'[j] == v;
      if j >= |dfs| {
        assert tree[j - |dfs|] == v;
      } else {
        assert dfs[j] == v;
      }
    }
    assert Distinct(tree) by {
      forall a, b | 0 <= a < b < |tree| ensures tree[a] != tree[b] {
        assert tree[a] == dfs'[|dfs| + a] && tree[b] == dfs'[|dfs| + b];
      }
    }
    forall v | v in tree ensures v !in dfs && Reachable(adj, fp, v) {
      var j :| 0 <= j < |tree| && tree[j] == v;
      assert dfs'[|dfs| + j] == v;
    }
    if plain {
      forall j | 0 <= j < |dfs'| && dfs'[j] in adj && p.Expands(dfs'[j])
        ensures DepthTraversal.ChildrenCovered(adj, p, dfs'[j], dfs')
      {
        if j < |dfs| {
          assert dfs'[j] == dfs[j];
          assert DepthTraversal.ChildrenCovered(adj, p, dfs[j], dfs);
          forall nb | nb in adj[dfs[j]].children ensures nb.id in dfs' {
            PrefixIn(dfs, dfs', nb.id);
          }
        }
      }
    }
    PartitionExtend(memo, Elems(dfs), tree);
    assert Elems(dfs') == Elems(dfs) + Elems(tree);
    assert tree[0] == fp;
    TreesReachExtend(adj, memo, tree, false);
    assert fp in Elems(dfs');
  }
}
