/**
 * `breadth_traverse` (graph.h): an N-source breadth-first traversal in lockstep,
 * and its two visit policies: `breadth_search_memo_stopcall` (record every newly
 * visited node) and `multi_directional_memo_stopcall` (keep a path per visited node
 * and stop once every source has reached a common node).
 *
 * The per-source queues and visited lists, the memo lists and path tables, and the
 * `memo_intersection` result are one `BfsState` value threaded through the calls.
 * A queue is an ideal FIFO sequence.
 */
module BreadthTraversal {
  import opened Wrappers
  import opened Sequences
  import opened GraphStore
  import opened Paths
  import DepthTraversal

  type Callback = DepthTraversal.Callback

  /** One source's table from visited node id to the path it was reached by. */
  type PathMap = map<string, seq<string>>

  /**
   * `Record` is `breadth_search_memo_stopcall` with its callback; `Converge` is
   * `multi_directional_memo_stopcall`, whose callback is always `doNothing`.
   */
  datatype BreadthPolicy = Record(call: Callback) | Converge
  {
    /** The callback's answer for a newly reached node. */
    predicate Calls(v: string) {
      if Record? then call(v) else DepthTraversal.DoNothing(v)
    }
  }

  datatype BfsState = BfsState(
    queues: seq<seq<string>>,
    visited: seq<seq<string>>,
    memo: seq<seq<string>>,
    paths: seq<Option<PathMap>>,
    meet: Option<seq<seq<string>>>)

  // ---------------------------------------------------------------------------
  // The intersection test of the convergence policy
  // ---------------------------------------------------------------------------

  /** Every source has a path table and `c` is a key of each. */
  ghost predicate InAll(paths: seq<Option<PathMap>>, c: string) {
    forall j :: 0 <= j < |paths| ==> paths[j].Some? && c in paths[j].value
  }

  /** The sources have converged: there are at least two and their tables share a key. */
  ghost predicate Meets(paths: seq<Option<PathMap>>) {
    |paths| >= 2 && exists c :: InAll(paths, c)
  }

  /** `meet` holds, for each source, its stored path to the common node `c`. */
  ghost predicate MeetAt(paths: seq<Option<PathMap>>, c: string, meet: seq<seq<string>>) {
    && InAll(paths, c)
    && |meet| == |paths|
    && forall j :: 0 <= j < |paths| ==> meet[j] == paths[j].value[c]
  }

  /**
   * The intersection loop of `multi_directional_memo_stopcall`: starting from the
   * keys of source 0, intersect with the keys of sources 1, 2, ...; an absent table
   * or an empty intersection ends the test without a meeting; the meeting is
   * declared only after the last source.  It reports a common node when there is
   * one.
   */
  method CommonNode(paths: seq<Option<PathMap>>) returns (found: Option<string>)
    requires |paths| >= 1 && paths[0].Some?
    ensures found.None? <==> !Meets(paths)
    ensures found.Some? ==> InAll(paths, found.value)
  {
    var inter := paths[0].value.Keys;
    var hasIntersect := false;
    var going := true;
    var k := 0;
    while going && k < |paths| - 1
      invariant 0 <= k <= |paths| - 1
      invariant going ==> forall j :: 0 <= j <= k ==> paths[j].Some?
      invariant going ==> forall c :: c in inter <==> (forall j :: 0 <= j <= k ==> paths[j].Some? && c in paths[j].value)
      invariant going ==> (hasIntersect <==> k == |paths| - 1 && k > 0 && inter != {})
      invariant !going ==> !hasIntersect && !Meets(paths)
    {
      if paths[k + 1].Some? {
        inter := inter * paths[k + 1].value.Keys;
        assert forall c :: InAll(paths, c) ==> c in inter;
        if inter == {} {
          hasIntersect := false;
          going := false;
        } else if k == |paths| - 2 {
          hasIntersect := true;
        }
      } else {
        going := false;
      }
      if going {
        k := k + 1;
      }
    }
    if going {
      forall c | InAll(paths, c) ensures c in inter {
      }
    }
    if hasIntersect {
      var c :| c in inter;
      assert InAll(paths, c);
      found := Some(c);
    } else {
      found := None;
    }
  }

  // ---------------------------------------------------------------------------
  // The visit policies
  // ---------------------------------------------------------------------------

  /** The state shape for `n` sources. */
  ghost predicate Shape(st: BfsState, n: int) {
    |st.queues| == n && |st.visited| == n && |st.memo| == n && |st.paths| == n
  }

  /**
   * The memo/stop call of both policies for node `curr` of source `i`, reached from
   * `last` (`""` for the source itself).  A node not yet visited by that source is
   * offered to the callback; unless it asks to stop, the node is marked visited and
   * queued, and `Record` appends it to the source's memo list while `Converge`
   * stores its path: `[curr]` in a fresh table for a source, otherwise the path of
   * `last` extended by `curr`.  `Converge` then stops as soon as all sources share
   * a node, copying each source's path to it into `meet`.
   */
  method BreadthVisit(p: BreadthPolicy, i: int, curr: string, last: string, st: BfsState)
    returns (stop: bool, st': BfsState)
    requires 0 <= i < |st.visited| && Shape(st, |st.visited|)
    requires p.Converge? && last != "" ==> st.paths[i].Some? && last in st.paths[i].value
    requires p.Converge? ==> st.paths[0].Some? || (i == 0 && last == "" && curr !in st.visited[0])
    ensures Shape(st', |st.visited|)
    ensures curr in st.visited[i] || p.Calls(curr) ==>
      st'.queues == st.queues && st'.visited == st.visited && st'.memo == st.memo && st'.paths == st.paths
    ensures curr !in st.visited[i] && !p.Calls(curr) ==>
      && st'.queues == st.queues[i := st.queues[i] + [curr]]
      && st'.visited == st.visited[i := st.visited[i] + [curr]]
      && st'.memo == (if p.Record? then st.memo[i := st.memo[i] + [curr]] else st.memo)
      && st'.paths == (if p.Record? then st.paths
                       else st.paths[i := Some(if last == "" then map[curr := [curr]]
                                               else st.paths[i].value[curr := st.paths[i].value[last] + [curr]])])
    ensures p.Record? ==> (stop <==> curr !in st.visited[i] && p.call(curr)) && st'.meet == st.meet
    ensures p.Converge? ==> (stop <==> Meets(st'.paths))
    ensures p.Converge? && !stop ==> st'.meet == st.meet
    ensures p.Converge? && stop ==> st'.meet.Some? && exists c :: MeetAt(st'.paths, c, st'.meet.value)
  {
    st' := st;
    stop := false;
    if curr !in st.visited[i] {
      stop := p.Calls(curr);
      if stop {
        return;
      }
      st' := st'.(visited := st'.visited[i := st'.visited[i] + [curr]],
                  queues := st'.queues[i := st'.queues[i] + [curr]]);
      if p.Record? {
        st' := st'.(memo := st'.memo[i := st'.memo[i] + [curr]]);
      } else if last == "" {
        st' := st'.(paths := st'.paths[i := Some(map[curr := [curr]])]);
      } else {
        var path := st'.paths[i].value[last];
        st' := st'.(paths := st'.paths[i := Some(st'.paths[i].value[curr := path + [curr]])]);
      }
    }
    if p.Converge? {
      var found := CommonNode(st'.paths);
      if found.Some? {
        stop := true;
        var c := found.value;
        var meet: seq<seq<string>> := [];
        var j := 0;
        while j < |st'.paths|
          invariant 0 <= j <= |st'.paths| && |meet| == j
          invariant forall k :: 0 <= k < j ==> meet[k] == st'.paths[k].value[c]
        {
          meet := meet + [st'.paths[j].value[c]];
          j := j + 1;
        }
        st' := st'.(meet := Some(meet));
        assert MeetAt(st'.paths, c, meet);
      }
    }
  }

  // ---------------------------------------------------------------------------
  // The traversal invariant
  // ---------------------------------------------------------------------------

  /** Every key of `pm` is a visited node and maps to a walk from `start` to it. */
  ghost predicate PathsFrom(adj: Adjacency, start: string, pm: PathMap, vis: seq<string>) {
    && (forall v :: v in pm <==> v in vis)
    && (forall v :: v in pm ==> IsWalk(adj, pm[v]) && pm[v][0] == start && pm[v][|pm[v]| - 1] == v)
  }

  /**
   * What holds of one source throughout: its visited nodes are distinct, reachable
   * from the source and accepted by the callback; the queue is the most recently
   * visited part of the visited list, in order; the source is visited first; the
   * memo list is the caller's list followed by the visited nodes, or the path table
   * has an entry for exactly the visited nodes.
   */
  ghost predicate SourceInv(adj: Adjacency, p: BreadthPolicy, start: string, m0: seq<string>,
                            vis: seq<string>, q: seq<string>, m: seq<string>, path: Option<PathMap>) {
    && Distinct(vis)
    && (forall v :: v in vis ==> v in adj && Reachable(adj, start, v) && !p.Calls(v))
    && |q| <= |vis| && q == vis[|vis| - |q|..]
    && (vis != [] ==> vis[0] == start)
    && (p.Record? ==> m == m0 + vis)
    && (p.Converge? ==> (path.Some? <==> vis != []) && (path.Some? ==> PathsFrom(adj, start, path.value, vis)))
  }

  /** `SourceInv` of source `i`. */
  ghost predicate SourceOk(adj: Adjacency, p: BreadthPolicy, starts: seq<string>, memo0: seq<seq<string>>, st: BfsState, i: int) {
    && Shape(st, |starts|) && |memo0| == |starts| && 0 <= i < |starts|
    && SourceInv(adj, p, starts[i], memo0[i], st.visited[i], st.queues[i], st.memo[i], st.paths[i])
  }

  ghost predicate Inv(adj: Adjacency, p: BreadthPolicy, starts: seq<string>, memo0: seq<seq<string>>, st: BfsState) {
    && Shape(st, |starts|) && |memo0| == |starts|
    && forall i :: 0 <= i < |starts| ==> SourceOk(adj, p, starts, memo0, st, i)
  }

  /** The first `n` visited nodes have every child visited. */
  ghost predicate ProcessedClosed(adj: Adjacency, vis: seq<string>, n: int) {
    forall k :: 0 <= k < n && k < |vis| && vis[k] in adj ==>
      forall nb :: nb in adj[vis[k]].children ==> nb.id in vis
  }

  /** Every source has expanded all nodes that have left its queue. */
  ghost predicate AllProcessedClosed(adj: Adjacency, st: BfsState) {
    forall i :: 0 <= i < |st.visited| && i < |st.queues| ==> ClosedAt(adj, st, i)
  }

  /** Source `i` has expanded all nodes that have left its queue. */
  ghost predicate ClosedAt(adj: Adjacency, st: BfsState, i: int) {
    && 0 <= i < |st.visited| && i < |st.queues|
    && ProcessedClosed(adj, st.visited[i], |st.visited[i]| - |st.queues[i]|)
  }

  /** `SourceInv` survives one visit of `curr`, the source itself or a child of the visited `last`. */
  lemma VisitKeepsSource(adj: Adjacency, p: BreadthPolicy, start: string, m0: seq<string>,
                         vis: seq<string>, q: seq<string>, m: seq<string>, path: Option<PathMap>,
                         curr: string, last: string)
    requires SourceInv(adj, p, start, m0, vis, q, m, path) && curr in adj
    requires Origin(adj, vis, start, curr, last)
    requires curr !in vis && !p.Calls(curr)
    requires p.Converge? ==> "" !in adj
    ensures SourceInv(adj, p, start, m0, vis + [curr], q + [curr], if p.Record? then m + [curr] else m,
                      if p.Record? then path
                      else Some(if last == "" then map[curr := [curr]] else path.value[curr := path.value[last] + [curr]]))
  {
    var vis' := vis + [curr];
    if vis == [] {
      ReachableRefl(adj, start);
    } else {
      ReachableStep(adj, start, last, curr);
    }
    if p.Converge? {
      VisitExtendsPaths(adj, start, vis, path, curr, last);
    }
    assert Distinct(vis') by {
      forall a, b | 0 <= a < b < |vis'| ensures vis'[a] != vis'[b] {
        if b == |vis| {
          assert vis'[a] in vis;
        }
      }
    }
    assert (q + [curr]) == vis'[|vis'| - |q + [curr]|..];
  }

  /** The path table gains a walk to `curr`: itself, or the walk to `last` extended by one edge. */
  lemma VisitExtendsPaths(adj: Adjacency, start: string, vis: seq<string>, path: Option<PathMap>,
                          curr: string, last: string)
    requires (path.Some? <==> vis != []) && (path.Some? ==> PathsFrom(adj, start, path.value, vis))
    requires Origin(adj, vis, start, curr, last) && curr in adj && curr !in vis && "" !in adj
    ensures PathsFrom(adj, start, if last == "" then map[curr := [curr]] else path.value[curr := path.value[last] + [curr]],
                      vis + [curr])
  {
    if vis == [] {
      assert IsWalk(adj, [curr]);
    } else {
      var w := path.value[last];
      assert IsWalk(adj, w + [curr]);
    }
  }

  // ---------------------------------------------------------------------------
  // The termination measure
  // ---------------------------------------------------------------------------

  /** The total length of a list of lists. */
  ghost function Total(ss: seq<seq<string>>): int {
    if ss == [] then 0 else |ss[0]| + Total(ss[1..])
  }

  lemma {:induction false} TotalUpdate(ss: seq<seq<string>>, i: int, s: seq<string>)
    requires 0 <= i < |ss|
    ensures Total(ss[i := s]) == Total(ss) - |ss[i]| + |s|
  {
    if i > 0 {
      assert ss[i := s][1..] == ss[1..][i - 1 := s];
      TotalUpdate(ss[1..], i - 1, s);
    } else {
      assert ss[i := s][1..] == ss[1..];
    }
  }

  /** The number of visits still possible: the room left in each list below `n` entries. */
  ghost function Slack(ss: seq<seq<string>>, n: int): int {
    if ss == [] then 0 else n - |ss[0]| + Slack(ss[1..], n)
  }

  lemma {:induction false} SlackUpdate(ss: seq<seq<string>>, n: int, i: int, s: seq<string>)
    requires 0 <= i < |ss|
    ensures Slack(ss[i := s], n) == Slack(ss, n) + |ss[i]| - |s|
  {
    if i > 0 {
      assert ss[i := s][1..] == ss[1..][i - 1 := s];
      SlackUpdate(ss[1..], n, i - 1, s);
    } else {
      assert ss[i := s][1..] == ss[1..];
    }
  }

  lemma {:induction false} SlackNonNegative(ss: seq<seq<string>>, n: int)
    requires forall i :: 0 <= i < |ss| ==> |ss[i]| <= n
    ensures Slack(ss, n) >= 0
  {
    if ss != [] {
      SlackNonNegative(ss[1..], n);
    }
  }

  /** Twice the number of visits still possible plus the number of queued nodes. */
  ghost function Measure(adj: Adjacency, st: BfsState): int {
    2 * Slack(st.visited, |adj.Keys|) + Total(st.queues)
  }

  lemma MeasureNonNegative(adj: Adjacency, p: BreadthPolicy, starts: seq<string>, memo0: seq<seq<string>>, st: BfsState)
    requires Inv(adj, p, starts, memo0, st)
    ensures Measure(adj, st) >= 0
  {
    forall i | 0 <= i < |st.visited| ensures |st.visited[i]| <= |adj.Keys| {
      SourceAt(adj, p, starts, memo0, st, i);
      DistinctBound(st.visited[i], adj.Keys);
    }
    SlackNonNegative(st.visited, |adj.Keys|);
    assert Total(st.queues) >= 0 by {
      TotalNonNegative(st.queues);
    }
  }

  lemma {:induction false} TotalNonNegative(ss: seq<seq<string>>)
    ensures Total(ss) >= 0
  {
    if ss != [] {
      TotalNonNegative(ss[1..]);
    }
  }

  // ---------------------------------------------------------------------------
  // Expanding one dequeued node
  // ---------------------------------------------------------------------------

  /** Records of source `j` are the same in both states. */
  ghost predicate SameSource(st: BfsState, st': BfsState, j: int)
    requires Shape(st, |st.visited|) && Shape(st', |st.visited|) && 0 <= j < |st.visited|
  {
    st'.queues[j] == st.queues[j] && st'.visited[j] == st.visited[j] &&
    st'.memo[j] == st.memo[j] && st'.paths[j] == st.paths[j]
  }

  /**
   * From `st` to `st'` only source `i` has moved: its visited list grew at the end,
   * exactly the new nodes joined its queue, and the measure did not grow.
   */
  ghost predicate Evolved(adj: Adjacency, starts: seq<string>, st: BfsState, st': BfsState, i: int) {
    && Shape(st, |starts|) && Shape(st', |starts|) && 0 <= i < |starts|
    && (forall j :: 0 <= j < |starts| && j != i ==> SameSource(st, st', j))
    && st.visited[i] <= st'.visited[i]
    && |st'.visited[i]| - |st'.queues[i]| == |st.visited[i]| - |st.queues[i]|
    && Measure(adj, st') <= Measure(adj, st)
  }

  lemma EvolvedTrans(adj: Adjacency, starts: seq<string>, a: BfsState, b: BfsState, c: BfsState, i: int)
    requires Evolved(adj, starts, a, b, i) && Evolved(adj, starts, b, c, i)
    ensures Evolved(adj, starts, a, c, i)
  {
    forall j | 0 <= j < |starts| && j != i ensures SameSource(a, c, j) {
      assert SameSource(a, b, j) && SameSource(b, c, j);
    }
  }

  /** The node a visit is offered: the source itself first, later a child of a visited node. */
  ghost predicate Origin(adj: Adjacency, vis: seq<string>, start: string, curr: string, last: string) {
    || (vis == [] && curr == start && last == "")
    || (last in vis && HasEdge(adj, last, curr))
  }

  /** Which callback run may have asked a traversal to stop. */
  ghost predicate StopJustified(adj: Adjacency, p: BreadthPolicy, starts: seq<string>, st: BfsState) {
    if p.Record? then exists j, v :: 0 <= j < |starts| && Reachable(adj, starts[j], v) && p.call(v)
    else Meets(st.paths) && st.meet.Some? && exists c :: MeetAt(st.paths, c, st.meet.value)
  }

  lemma SourceAt(adj: Adjacency, p: BreadthPolicy, starts: seq<string>, memo0: seq<seq<string>>, st: BfsState, i: int)
    requires Inv(adj, p, starts, memo0, st) && 0 <= i < |starts|
    ensures SourceInv(adj, p, starts[i], memo0[i], st.visited[i], st.queues[i], st.memo[i], st.paths[i])
  {
    assert SourceOk(adj, p, starts, memo0, st, i);
  }

  /** Changing only source `i`, in a way its own invariant survives, keeps the whole invariant. */
  lemma InvUpdate(adj: Adjacency, p: BreadthPolicy, starts: seq<string>, memo0: seq<seq<string>>,
                  st: BfsState, st': BfsState, i: int)
    requires Inv(adj, p, starts, memo0, st) && Shape(st', |starts|) && 0 <= i < |starts|
    requires forall j :: 0 <= j < |starts| && j != i ==> SameSource(st, st', j)
    requires SourceInv(adj, p, starts[i], memo0[i], st'.visited[i], st'.queues[i], st'.memo[i], st'.paths[i])
    ensures Inv(adj, p, starts, memo0, st')
  {
    forall j | 0 <= j < |starts| ensures SourceOk(adj, p, starts, memo0, st', j) {
      if j != i {
        assert SameSource(st, st', j);
        SourceAt(adj, p, starts, memo0, st, j);
      }
    }
  }

  /**
   * One visit inside the traversal: the invariant survives, only source `i` moves,
   * the measure does not grow, and a stop is justified.
   */
  method VisitStep(adj: Adjacency, p: BreadthPolicy, starts: seq<string>, memo0: seq<seq<string>>,
                   i: int, curr: string, last: string, st: BfsState)
    returns (stop: bool, st': BfsState)
    requires Inv(adj, p, starts, memo0, st) && 0 <= i < |starts| && curr in adj
    requires Origin(adj, st.visited[i], starts[i], curr, last)
    requires p.Converge? ==> "" !in adj && (st.paths[0].Some? || (i == 0 && st.visited[0] == []))
    ensures Inv(adj, p, starts, memo0, st') && Evolved(adj, starts, st, st', i)
    ensures |st'.visited[i]| <= |st.visited[i]| + 1
    ensures stop ==> StopJustified(adj, p, starts, st')
    ensures !stop ==> st'.meet == st.meet && curr in st'.visited[i]
    ensures st.paths[0].Some? ==> st'.paths[0].Some?
    ensures !stop && p.Converge? ==> !Meets(st'.paths)
  {
    SourceAt(adj, p, starts, memo0, st, i);
    stop, st' := BreadthVisit(p, i, curr, last, st);
    if curr !in st.visited[i] && !p.Calls(curr) {
      FreshVisit(adj, p, starts, memo0, st, st', i, curr, last);
      FreshEvolved(adj, starts, st, st', i, curr);
    } else {
      NothingVisited(adj, p, starts, memo0, st, st', i);
    }
    if stop && p.Record? {
      ReachableAt(adj, p, starts, memo0, st, i, curr, last);
    }
  }

  /** A visit that records a new node keeps the invariant and lowers the measure. */
  lemma FreshVisit(adj: Adjacency, p: BreadthPolicy, starts: seq<string>, memo0: seq<seq<string>>,
                   st: BfsState, st': BfsState, i: int, curr: string, last: string)
    requires Inv(adj, p, starts, memo0, st) && 0 <= i < |starts| && curr in adj
    requires Origin(adj, st.visited[i], starts[i], curr, last)
    requires curr !in st.visited[i] && !p.Calls(curr)
    requires p.Converge? ==> "" !in adj
    requires p.Converge? && last != "" ==> st.paths[i].Some? && last in st.paths[i].value
    requires Shape(st', |starts|)
    requires st'.queues == st.queues[i := st.queues[i] + [curr]]
    requires st'.visited == st.visited[i := st.visited[i] + [curr]]
    requires st'.memo == (if p.Record? then st.memo[i := st.memo[i] + [curr]] else st.memo)
    requires st'.paths == (if p.Record? then st.paths
                           else st.paths[i := Some(if last == "" then map[curr := [curr]]
                                                   else st.paths[i].value[curr := st.paths[i].value[last] + [curr]])])
    ensures Inv(adj, p, starts, memo0, st')
  {
    FreshSource(adj, p, starts, memo0, st, st', i, curr, last);
    forall j | 0 <= j < |starts| && j != i ensures SameSource(st, st', j) {
    }
    InvUpdate(adj, p, starts, memo0, st, st', i);
  }

  /** A visit that records nothing keeps the invariant. */
  lemma NothingVisited(adj: Adjacency, p: BreadthPolicy, starts: seq<string>, memo0: seq<seq<string>>,
                       st: BfsState, st': BfsState, i: int)
    requires Inv(adj, p, starts, memo0, st) && 0 <= i < |starts| && Shape(st', |starts|)
    requires st'.queues == st.queues && st'.visited == st.visited && st'.memo == st.memo && st'.paths == st.paths
    ensures Inv(adj, p, starts, memo0, st') && Evolved(adj, starts, st, st', i)
  {
    assert Measure(adj, st') == Measure(adj, st);
    forall j | 0 <= j < |starts| ensures SourceOk(adj, p, starts, memo0, st', j) {
      assert SourceOk(adj, p, starts, memo0, st, j);
    }
  }

  lemma FreshSource(adj: Adjacency, p: BreadthPolicy, starts: seq<string>, memo0: seq<seq<string>>,
                    st: BfsState, st': BfsState, i: int, curr: string, last: string)
    requires Inv(adj, p, starts, memo0, st) && 0 <= i < |starts| && curr in adj
    requires Origin(adj, st.visited[i], starts[i], curr, last)
    requires curr !in st.visited[i] && !p.Calls(curr)
    requires p.Converge? ==> "" !in adj
    requires p.Converge? && last != "" ==> st.paths[i].Some? && last in st.paths[i].value
    requires Shape(st', |starts|)
    requires st'.queues[i] == st.queues[i] + [curr]
    requires st'.visited[i] == st.visited[i] + [curr]
    requires st'.memo[i] == (if p.Record? then st.memo[i] + [curr] else st.memo[i])
    requires st'.paths[i] == (if p.Record? then st.paths[i]
                              else Some(if last == "" then map[curr := [curr]]
                                        else st.paths[i].value[curr := st.paths[i].value[last] + [curr]]))
    ensures SourceInv(adj, p, starts[i], memo0[i], st'.visited[i], st'.queues[i], st'.memo[i], st'.paths[i])
  {
    SourceAt(adj, p, starts, memo0, st, i);
    VisitKeepsSource(adj, p, starts[i], memo0[i], st.visited[i], st.queues[i], st.memo[i], st.paths[i], curr, last);
  }

  lemma FreshEvolved(adj: Adjacency, starts: seq<string>, st: BfsState, st': BfsState, i: int, curr: string)
    requires Shape(st, |starts|) && Shape(st', |starts|) && 0 <= i < |starts|
    requires st'.queues == st.queues[i := st.queues[i] + [curr]]
    requires st'.visited == st.visited[i := st.visited[i] + [curr]]
    requires forall j :: 0 <= j < |starts| && j != i ==> st'.memo[j] == st.memo[j] && st'.paths[j] == st.paths[j]
    ensures Evolved(adj, starts, st, st', i)
  {
    SlackUpdate(st.visited, |adj.Keys|, i, st.visited[i] + [curr]);
    TotalUpdate(st.queues, i, st.queues[i] + [curr]);
  }

  /** The node a visit is offered is reachable from its source. */
  lemma ReachableAt(adj: Adjacency, p: BreadthPolicy, starts: seq<string>, memo0: seq<seq<string>>,
                    st: BfsState, i: int, curr: string, last: string)
    requires Inv(adj, p, starts, memo0, st) && 0 <= i < |starts| && curr in adj
    requires Origin(adj, st.visited[i], starts[i], curr, last)
    ensures Reachable(adj, starts[i], curr)
  {
    SourceAt(adj, p, starts, memo0, st, i);
    if st.visited[i] == [] {
      ReachableRefl(adj, curr);
    } else {
      ReachableStep(adj, starts[i], last, curr);
    }
  }

  /**
   * The child loop of one round for source `i`: every child of the dequeued node
   * `x` is offered to the policy in adjacency order; a stop aborts.
   */
  method ExpandNode(adj: Adjacency, p: BreadthPolicy, starts: seq<string>, memo0: seq<seq<string>>,
                    i: int, x: string, st: BfsState)
    returns (stop: bool, st': BfsState)
    requires WellFormed(adj) && Inv(adj, p, starts, memo0, st) && 0 <= i < |starts|
    requires x in st.visited[i] && x in adj
    requires p.Converge? ==> "" !in adj && st.paths[0].Some? && !Meets(st.paths)
    ensures Inv(adj, p, starts, memo0, st') && Evolved(adj, starts, st, st', i)
    ensures stop ==> StopJustified(adj, p, starts, st')
    ensures !stop ==> st'.meet == st.meet
    ensures !stop ==> forall nb :: nb in adj[x].children ==> nb.id in st'.visited[i]
    ensures st'.paths[0].Some? || !st.paths[0].Some?
    ensures !stop && p.Converge? ==> !Meets(st'.paths)
  {
    var kids := adj[x].children;
    st' := st;
    stop := false;
    var k := 0;
    TotalNonNegative(st.queues);
    while k < |kids|
      invariant 0 <= k <= |kids|
      invariant Inv(adj, p, starts, memo0, st') && Evolved(adj, starts, st, st', i)
      invariant st'.meet == st.meet
      invariant forall j :: 0 <= j < k ==> kids[j].id in st'.visited[i]
      invariant st'.paths[0].Some? || !st.paths[0].Some?
      invariant p.Converge? ==> !Meets(st'.paths)
    {
      ChildMirrored(adj, x, kids[k]);
      PrefixIn(st.visited[i], st'.visited[i], x);
      var before := st';
      stop, st' := VisitStep(adj, p, starts, memo0, i, kids[k].id, x, st');
      EvolvedTrans(adj, starts, st, before, st', i);
      if stop {
        return;
      }
      forall j | 0 <= j < k + 1 ensures kids[j].id in st'.visited[i] {
        if j < k {
          PrefixIn(before.visited[i], st'.visited[i], kids[j].id);
        }
      }
      k := k + 1;
    }
  }

  // ---------------------------------------------------------------------------
  // Rounds and the traversal
  // ---------------------------------------------------------------------------

  /** Taking the head off source `i`'s queue moves it to the processed part and lowers the measure. */
  lemma DequeueKeeps(adj: Adjacency, p: BreadthPolicy, starts: seq<string>, memo0: seq<seq<string>>,
                     st: BfsState, st': BfsState, i: int)
    requires Inv(adj, p, starts, memo0, st) && 0 <= i < |starts| && st.queues[i] != []
    requires st' == st.(queues := st.queues[i := st.queues[i][1..]])
    ensures Inv(adj, p, starts, memo0, st')
    ensures Measure(adj, st') == Measure(adj, st) - 1
    ensures |st.queues[i]| <= |st.visited[i]|
    ensures st.queues[i][0] == st.visited[i][|st.visited[i]| - |st.queues[i]|]
    ensures st.queues[i][0] in st.visited[i] && st.queues[i][0] in adj
  {
    SourceAt(adj, p, starts, memo0, st, i);
    var vis, q := st.visited[i], st.queues[i];
    assert q[0] == vis[|vis| - |q|];
    assert q[1..] == vis[|vis| - |q[1..]|..];
    InvUpdate(adj, p, starts, memo0, st, st', i);
    TotalUpdate(st.queues, i, q[1..]);
  }

  /** After source `i` expanded the node it dequeued, every processed node is closed again. */
  lemma ClosedAfterExpand(adj: Adjacency, st: BfsState, st': BfsState, i: int, x: string)
    requires Shape(st, |st.visited|) && Shape(st', |st.visited|) && 0 <= i < |st.visited|
    requires AllProcessedClosed(adj, st)
    requires st.queues[i] != [] && |st.queues[i]| <= |st.visited[i]|
    requires x == st.visited[i][|st.visited[i]| - |st.queues[i]|]
    requires forall j :: 0 <= j < |st.visited| && j != i ==> SameSource(st, st', j)
    requires st.visited[i] <= st'.visited[i]
    requires |st'.visited[i]| - |st'.queues[i]| == |st.visited[i]| - |st.queues[i]| + 1
    requires x in adj && forall nb :: nb in adj[x].children ==> nb.id in st'.visited[i]
    ensures AllProcessedClosed(adj, st')
  {
    forall j | 0 <= j < |st'.visited| && j < |st'.queues| ensures ClosedAt(adj, st', j) {
      assert ClosedAt(adj, st, j);
      if j != i {
        assert SameSource(st, st', j);
      } else {
        var vis, vis' := st.visited[i], st'.visited[i];
        var n := |vis| - |st.queues[i]|;
        assert ProcessedClosed(adj, vis, n);
        forall k | 0 <= k < n + 1 && k < |vis'| && vis'[k] in adj
          ensures forall nb :: nb in adj[vis'[k]].children ==> nb.id in vis'
        {
          assert vis'[k] == vis[k];
          if k < n {
            forall nb | nb in adj[vis[k]].children ensures nb.id in vis' {
              PrefixIn(vis, vis', nb.id);
            }
          }
        }
      }
    }
  }

  /**
   * One expansion step of a round for source `i`: dequeue its next node and offer
   * that node's children.
   */
  method ExpandSource(adj: Adjacency, p: BreadthPolicy, starts: seq<string>, memo0: seq<seq<string>>,
                      i: int, st: BfsState)
    returns (stop: bool, st': BfsState)
    requires WellFormed(adj) && Inv(adj, p, starts, memo0, st) && AllProcessedClosed(adj, st)
    requires 0 <= i < |starts| && st.queues[i] != []
    requires p.Converge? ==> "" !in adj && st.paths[0].Some? && !Meets(st.paths)
    ensures Inv(adj, p, starts, memo0, st')
    ensures stop ==> StopJustified(adj, p, starts, st')
    ensures !stop ==> st'.meet == st.meet && AllProcessedClosed(adj, st')
    ensures !stop ==> Measure(adj, st') < Measure(adj, st)
    ensures !stop ==> forall j :: 0 <= j < |starts| && st.visited[j] != [] ==> st'.visited[j] != []
    ensures !stop && p.Converge? ==> st'.paths[0].Some? && !Meets(st'.paths)
  {
    var x := st.queues[i][0];
    var st1 := st.(queues := st.queues[i := st.queues[i][1..]]);
    DequeueKeeps(adj, p, starts, memo0, st, st1, i);
    stop, st' := ExpandNode(adj, p, starts, memo0, i, x, st1);
    if stop {
      return;
    }
    forall j | 0 <= j < |starts| && j != i ensures SameSource(st, st', j) {
      assert SameSource(st1, st', j);
    }
    assert st.visited[i] <= st'.visited[i] && |st'.visited[i]| - |st'.queues[i]| == |st.visited[i]| - |st.queues[i]| + 1 by {
      assert Evolved(adj, starts, st1, st', i);
    }
    ClosedAfterExpand(adj, st, st', i, x);
    forall j | 0 <= j < |starts| && st.visited[j] != [] ensures st'.visited[j] != [] {
      if j != i {
        assert SameSource(st1, st', j);
      }
    }
  }

  /**
   * One round: every source in index order dequeues at most one node and offers
   * its children.  A round that starts with some queue non-empty lowers the measure.
   */
  method Round(adj: Adjacency, p: BreadthPolicy, starts: seq<string>, memo0: seq<seq<string>>, st: BfsState)
    returns (stop: bool, st': BfsState)
    requires WellFormed(adj) && Inv(adj, p, starts, memo0, st) && AllProcessedClosed(adj, st)
    requires forall j :: 0 <= j < |starts| ==> st.visited[j] != []
    requires exists j :: 0 <= j < |starts| && st.queues[j] != []
    requires p.Converge? ==> "" !in adj && st.paths[0].Some? && !Meets(st.paths)
    ensures Inv(adj, p, starts, memo0, st')
    ensures stop ==> StopJustified(adj, p, starts, st')
    ensures !stop ==> st'.meet == st.meet && AllProcessedClosed(adj, st')
    ensures !stop ==> Measure(adj, st') < Measure(adj, st)
    ensures !stop ==> forall j :: 0 <= j < |starts| ==> st'.visited[j] != []
    ensures !stop && p.Converge? ==> st'.paths[0].Some? && !Meets(st'.paths)
  {
    st' := st;
    stop := false;
    ghost var dequeued := false;
    var i := 0;
    while i < |starts|
      invariant 0 <= i <= |starts|
      invariant Inv(adj, p, starts, memo0, st') && AllProcessedClosed(adj, st') && st'.meet == st.meet
      invariant forall j :: 0 <= j < |starts| ==> st'.visited[j] != []
      invariant p.Converge? ==> st'.paths[0].Some? && !Meets(st'.paths)
      invariant dequeued ==> Measure(adj, st') < Measure(adj, st)
      invariant !dequeued ==> st' == st && forall j :: 0 <= j < i ==> st.queues[j] == []
    {
      if st'.queues[i] != [] {
        stop, st' := ExpandSource(adj, p, starts, memo0, i, st');
        if stop {
          return;
        }
        dequeued := true;
      }
      i := i + 1;
    }
  }

  /**
   * The scan that decides whether another round runs: whether some source's queue
   * is non-empty.
   */
  method AnyQueued(queues: seq<seq<string>>) returns (pending: bool)
    ensures pending <==> exists j :: 0 <= j < |queues| && queues[j] != []
  {
    var j := 0;
    while j < |queues|
      invariant 0 <= j <= |queues|
      invariant forall k :: 0 <= k < j ==> queues[k] == []
    {
      if queues[j] != [] {
        return true;
      }
      j := j + 1;
    }
    return false;
  }

  /** Once every queue is empty, each source has visited exactly the nodes it reaches. */
  lemma AllReached(adj: Adjacency, p: BreadthPolicy, starts: seq<string>, memo0: seq<seq<string>>, st: BfsState)
    requires Inv(adj, p, starts, memo0, st) && AllProcessedClosed(adj, st)
    requires forall j :: 0 <= j < |starts| ==> st.visited[j] != [] && st.queues[j] == []
    ensures forall j, v :: 0 <= j < |starts| ==> (v in st.visited[j] <==> Reachable(adj, starts[j], v))
  {
    forall j, v | 0 <= j < |starts| && Reachable(adj, starts[j], v) ensures v in st.visited[j] {
      SourceAt(adj, p, starts, memo0, st, j);
      var vis := st.visited[j];
      assert ClosedAt(adj, st, j);
      assert ProcessedClosed(adj, vis, |vis|);
      var s := Elems(vis);
      assert ClosedUnder(adj, s) by {
        forall u, nb | u in s && u in adj && nb in adj[u].children ensures nb.id in s {
          var k :| 0 <= k < |vis| && vis[k] == u;
        }
      }
      assert vis[0] == starts[j];
      ClosedContainsReachable(adj, s, starts[j], v);
    }
    forall j, v | 0 <= j < |starts| && v in st.visited[j] ensures Reachable(adj, starts[j], v) {
      SourceAt(adj, p, starts, memo0, st, j);
    }
  }

  /**
   * `breadth_traverse`: visit every source in index order, then run rounds until
   * every queue is empty.  Any stop aborts the whole traversal.
   *
   * Visited nodes are reachable from their source and accepted by the callback.
   * A stop is justified by a reachable node the callback refused, or by a meeting
   * of all sources; without a stop every source has visited exactly the nodes it
   * reaches, and the sources have not met.
   */
  method BreadthTraverse(adj: Adjacency, p: BreadthPolicy, starts: seq<string>, memo0: seq<seq<string>>)
    returns (stop: bool, st: BfsState)
    requires WellFormed(adj) && |starts| >= 1 && |memo0| == |starts|
    requires forall i :: 0 <= i < |starts| ==> starts[i] in adj
    requires p.Converge? ==> "" !in adj
    ensures Inv(adj, p, starts, memo0, st)
    ensures stop ==> StopJustified(adj, p, starts, st)
    ensures !stop ==> st.meet == None
    ensures !stop ==> forall i, v :: 0 <= i < |starts| ==> (v in st.visited[i] <==> Reachable(adj, starts[i], v))
    ensures !stop && p.Converge? ==> !Meets(st.paths)
  {
    var n := |starts|;
    st := BfsState(seq(n, _ => []), seq(n, _ => []), memo0, seq(n, _ => None), None);
    assert Inv(adj, p, starts, memo0, st) by {
      forall j | 0 <= j < n
        ensures SourceInv(adj, p, starts[j], memo0[j], st.visited[j], st.queues[j], st.memo[j], st.paths[j])
      {
        assert st.visited[j] == [] && st.queues[j] == [] && st.paths[j] == None;
      }
    }
    stop := false;
    var i := 0;
    while i < n
      invariant 0 <= i <= n
      invariant Inv(adj, p, starts, memo0, st) && st.meet == None
      invariant forall j :: 0 <= j < i ==> st.visited[j] != [] && |st.queues[j]| == |st.visited[j]|
      invariant forall j :: i <= j < n ==> st.visited[j] == [] && st.queues[j] == []
      invariant p.Converge? && i > 0 ==> st.paths[0].Some? && !Meets(st.paths)
    {
      ghost var before := st;
      stop, st := VisitStep(adj, p, starts, memo0, i, starts[i], "", st);
      if stop {
        return;
      }
      forall j | 0 <= j < n && j != i
        ensures st.visited[j] == before.visited[j] && st.queues[j] == before.queues[j]
        ensures i < j ==> st.visited[j] == [] && st.queues[j] == []
      {
        assert SameSource(before, st, j);
        if i < j {
          assert before.visited[j] == [] && before.queues[j] == [];
        }
      }
      assert st.visited[i] != [] && |st.queues[i]| == |st.visited[i]| by {
        assert starts[i] in st.visited[i];
        assert Evolved(adj, starts, before, st, i);
      }
      if p.Converge? {
        SourceAt(adj, p, starts, memo0, st, 0);
      }
      i := i + 1;
    }
    assert AllProcessedClosed(adj, st) by {
      forall j | 0 <= j < n ensures |st.visited[j]| - |st.queues[j]| == 0 {
      }
    }
    var pending := AnyQueued(st.queues);
    while pending
      invariant Inv(adj, p, starts, memo0, st) && AllProcessedClosed(adj, st) && st.meet == None
      invariant forall j :: 0 <= j < n ==> st.visited[j] != []
      invariant p.Converge? ==> st.paths[0].Some? && !Meets(st.paths)
      invariant pending <==> exists j :: 0 <= j < n && st.queues[j] != []
      decreases Measure(adj, st)
    {
      MeasureNonNegative(adj, p, starts, memo0, st);
      stop, st := Round(adj, p, starts, memo0, st);
      if stop {
        return;
      }
      pending := AnyQueued(st.queues);
    }
    AllReached(adj, p, starts, memo0, st);
  }

  // ---------------------------------------------------------------------------
  // The searches
  // ---------------------------------------------------------------------------

  /**
   * `m` is `m0` followed by distinct nodes reachable from `start` that the callback
   * `f` accepts, `start` first.
   */
  ghost predicate Recorded(adj: Adjacency, start: string, f: Callback, m0: seq<string>, m: seq<string>) {
    && m0 <= m
    && Distinct(m[|m0|..])
    && (forall v :: v in m[|m0|..] ==> Reachable(adj, start, v) && !f(v))
    && (|m| > |m0| ==> m[|m0|] == start)
  }

  /** The nodes appended to `m0` are exactly those `start` reaches. */
  ghost predicate RecordedAll(adj: Adjacency, start: string, m0: seq<string>, m: seq<string>) {
    |m0| <= |m| && forall v :: v in m[|m0|..] <==> Reachable(adj, start, v)
  }

  /**
   * `breadth_first_search(startIds, memo, func)`: the breadth-first traversal that
   * appends every newly visited node of source `i` to `memo[i]`, with `func` or
   * `doNothing` as the callback.
   *
   * Each list gains distinct nodes reachable from its source that the callback
   * accepts, the source first; when the callback accepts every node any source
   * reaches, the lists gain exactly the reachable nodes.
   */
  method BreadthFirstSearchFrom(adj: Adjacency, starts: seq<string>, memo: seq<seq<string>>, func: Option<Callback>)
    returns (memo': seq<seq<string>>)
    requires WellFormed(adj) && |starts| >= 1 && |memo| == |starts|
    requires forall i :: 0 <= i < |starts| ==> starts[i] in adj
    ensures |memo'| == |starts|
    ensures forall i :: 0 <= i < |starts| ==>
      Recorded(adj, starts[i], func.GetOr(DepthTraversal.DoNothing), memo[i], memo'[i])
    ensures (forall i, v :: 0 <= i < |starts| && Reachable(adj, starts[i], v) ==> !func.GetOr(DepthTraversal.DoNothing)(v)) ==>
      forall i :: 0 <= i < |starts| ==> RecordedAll(adj, starts[i], memo[i], memo'[i])
  {
    var p := Record(func.GetOr(DepthTraversal.DoNothing));
    var stop, st := BreadthTraverse(adj, p, starts, memo);
    memo' := st.memo;
    forall i | 0 <= i < |starts| ensures Recorded(adj, starts[i], p.call, memo[i], memo'[i]) && memo'[i][|memo[i]|..] == st.visited[i] {
      SourceAt(adj, p, starts, memo, st, i);
      if |memo'[i]| > |memo[i]| {
        assert st.visited[i][0] == memo'[i][|memo[i]|..][0];
      }
    }
  }

  /**
   * `breadth_first_search(startId, memo, func)`: the single-source search.  Without
   * a callback it appends exactly the nodes reachable from `start`.
   */
  method BreadthFirstSearch(adj: Adjacency, start: string, memo: seq<string>, func: Option<Callback>)
    returns (memo': seq<string>)
    requires WellFormed(adj) && start in adj
    ensures Recorded(adj, start, func.GetOr(DepthTraversal.DoNothing), memo, memo')
    ensures func == None ==> RecordedAll(adj, start, memo, memo')
  {
    var lists := BreadthFirstSearchFrom(adj, [start], [memo], func);
    memo' := lists[0];
    assert Recorded(adj, [start][0], func.GetOr(DepthTraversal.DoNothing), [memo][0], lists[0]);
  }

  /** A walk from `u` to `v`. */
  ghost predicate WalkBetween(adj: Adjacency, w: seq<string>, u: string, v: string) {
    IsWalk(adj, w) && w[0] == u && w[|w| - 1] == v
  }

  /** Every source reaches `c`. */
  ghost predicate ReachedByAll(adj: Adjacency, starts: seq<string>, c: string) {
    forall j :: 0 <= j < |starts| ==> Reachable(adj, starts[j], c)
  }

  /** `meet` holds, for each source, a walk from it to `c`. */
  ghost predicate JoinsAt(adj: Adjacency, starts: seq<string>, meet: seq<seq<string>>, c: string) {
    |meet| == |starts| && forall j :: 0 <= j < |starts| ==> WalkBetween(adj, meet[j], starts[j], c)
  }

  /**
   * `multi_directional_search(startIds, memo_intersection)`: the breadth-first
   * traversal that keeps a path per visited node and stops once all sources share
   * a node.  The result is `memo_intersection`, `None` while it is left untouched.
   *
   * The sources meet exactly when there are at least two and some node is
   * reachable from all of them; then each entry is a walk from its source to one
   * common node.
   */
  method MultiDirectionalSearch(adj: Adjacency, starts: seq<string>) returns (meet: Option<seq<seq<string>>>)
    requires WellFormed(adj) && |starts| >= 1 && "" !in adj
    requires forall i :: 0 <= i < |starts| ==> starts[i] in adj
    ensures meet.Some? <==> |starts| >= 2 && exists c :: ReachedByAll(adj, starts, c)
    ensures meet.Some? ==> exists c :: JoinsAt(adj, starts, meet.value, c)
  {
    var memo0 := seq(|starts|, _ => []);
    var stop, st := BreadthTraverse(adj, Converge, starts, memo0);
    meet := st.meet;
    if stop {
      ghost var c :| MeetAt(st.paths, c, st.meet.value);
      MeetingWalks(adj, starts, memo0, st, c);
    } else if |starts| >= 2 && exists c :: ReachedByAll(adj, starts, c) {
      ghost var c :| ReachedByAll(adj, starts, c);
      assert InAll(st.paths, c) by {
        forall j | 0 <= j < |starts| ensures st.paths[j].Some? && c in st.paths[j].value {
          SourceAt(adj, Converge, starts, memo0, st, j);
        }
      }
      assert false;
    }
  }

  /** The paths copied at a meeting are walks from the sources to the common node. */
  lemma MeetingWalks(adj: Adjacency, starts: seq<string>, memo0: seq<seq<string>>, st: BfsState, c: string)
    requires Inv(adj, Converge, starts, memo0, st) && st.meet.Some? && MeetAt(st.paths, c, st.meet.value)
    ensures JoinsAt(adj, starts, st.meet.value, c) && ReachedByAll(adj, starts, c)
  {
    forall j | 0 <= j < |starts| ensures WalkBetween(adj, st.meet.value[j], starts[j], c) {
      SourceAt(adj, Converge, starts, memo0, st, j);
    }
  }
}
