/**
 * The unit-weight shortest-path search of `src/dijkstra.hpp` /
 * `src/dijkstra.cpp`. The search owns three buffers sized to the graph
 * (tentative distances, predecessors, settled marks) and reuses them on
 * every call; the graph is held by reference, so a search sees every edge
 * added before it runs.
 *
 * The priority queue of node indices ordered by their current distance is
 * modelled as a multiset from which a node of least distance is taken.
 */
module ShortestPaths {
  import opened Common
  import opened Graphs

  // ---------------------------------------------------------------------
  // Paths and reachability.
  // ---------------------------------------------------------------------

  /** A non-empty walk along edges of `adj`. */
  ghost predicate IsPath(adj: seq<seq<int>>, p: seq<int>)
  {
    && |p| > 0
    && (forall i :: 0 <= i < |p| ==> 0 <= p[i] < |adj|)
    && (forall i :: 0 <= i < |p| - 1 ==> p[i + 1] in adj[p[i]])
  }

  /** A walk from `s` to `t`. */
  ghost predicate PathBetween(adj: seq<seq<int>>, p: seq<int>, s: int, t: int)
  {
    IsPath(adj, p) && p[0] == s && p[|p| - 1] == t
  }

  ghost predicate Reachable(adj: seq<seq<int>>, s: int, t: int)
  {
    exists p :: PathBetween(adj, p, s, t)
  }

  /** A walk from `s` to `t` along the pairs of a directed edge relation. */
  ghost predicate WalkIn(edges: set<(int, int)>, p: seq<int>, s: int, t: int)
  {
    && |p| > 0 && p[0] == s && p[|p| - 1] == t
    && forall i :: 0 <= i < |p| - 1 ==> (p[i], p[i + 1]) in edges
  }

  /** `t` can be reached from `s` in the edge relation. */
  ghost predicate Joined(edges: set<(int, int)>, s: int, t: int)
  {
    exists p :: WalkIn(edges, p, s, t)
  }

  /**
   * Reachability depends on nothing but the edge relation: the order and
   * the duplicates of the chains do not matter.
   */
  lemma ReachableEdges(adj: seq<seq<int>>, s: int, t: int)
    requires TargetsInRange(adj) && 0 <= s < |adj|
    ensures Reachable(adj, s, t) <==> Joined(EdgesOf(adj), s, t)
  {
    if Reachable(adj, s, t) {
      var p :| PathBetween(adj, p, s, t);
      forall i | 0 <= i < |p| - 1 ensures (p[i], p[i + 1]) in EdgesOf(adj) {
        assert p[i + 1] in adj[p[i]];
      }
      assert WalkIn(EdgesOf(adj), p, s, t);
    }
    if Joined(EdgesOf(adj), s, t) {
      var p :| WalkIn(EdgesOf(adj), p, s, t);
      forall i | 0 <= i < |p| ensures 0 <= p[i] < |adj| {
        if i > 0 {
          assert (p[i - 1], p[i]) in EdgesOf(adj);
          var k :| 0 <= k < |adj[p[i - 1]]| && adj[p[i - 1]][k] == p[i];
        }
      }
      forall i | 0 <= i < |p| - 1 ensures p[i + 1] in adj[p[i]] {
        assert (p[i], p[i + 1]) in EdgesOf(adj);
      }
      assert PathBetween(adj, p, s, t);
    }
  }

  /** A walk from `s` to `t` with no fewer nodes than any other such walk. */
  ghost predicate IsShortestPath(adj: seq<seq<int>>, p: seq<int>, s: int, t: int)
  {
    PathBetween(adj, p, s, t) && forall q :: PathBetween(adj, q, s, t) ==> |p| <= |q|
  }

  /** No walk from `start` to `v` has fewer than `dv` edges. */
  ghost predicate ShortestBound(adj: seq<seq<int>>, start: int, v: int, dv: int)
  {
    forall p :: PathBetween(adj, p, start, v) ==> dv <= |p| - 1
  }

  /** The order of the priority queue: `a` comes after `b` when it is farther. */
  predicate DistanceCompare(dist: seq<int>, a: int, b: int)
    requires 0 <= a < |dist| && 0 <= b < |dist|
  {
    dist[a] > dist[b]
  }

  /** `s` back to front. */
  function Reversed(s: seq<int>): (r: seq<int>)
    ensures |r| == |s|
    ensures forall i :: 0 <= i < |s| ==> r[i] == s[|s| - 1 - i]
  {
    if s == [] then [] else Reversed(s[1..]) + [s[0]]
  }

  // ---------------------------------------------------------------------
  // Helper facts.
  // ---------------------------------------------------------------------

  lemma {:induction false} SubsetBound(s: set<int>, n: nat)
    requires forall x :: x in s ==> 0 <= x < n
    ensures |s| <= n
  {
    if n > 0 {
      SubsetBound(s - {n - 1}, n - 1);
    } else {
      assert forall x :: x !in s;
      assert s == {};
    }
  }

  /** Some element of the queue, when it is not empty. */
  lemma Member(q: multiset<int>) returns (x: int)
    ensures |q| > 0 ==> x in q
  {
    if y :| y in q {
      x := y;
    } else {
      assert forall y :: q[y] == multiset{}[y];
      assert q == multiset{};
      x := 0;
    }
  }

  /** A non-empty queue has an element that no other element precedes. */
  lemma {:induction false} QueueHasTop(q: multiset<int>, dist: seq<int>) returns (c: int)
    requires |q| > 0 && forall x :: x in q ==> 0 <= x < |dist|
    ensures c in q && forall y :: y in q ==> !DistanceCompare(dist, c, y)
    decreases |q|
  {
    var x := Member(q);
    var rest := q - multiset{x};
    assert q == rest + multiset{x};
    if |rest| == 0 {
      assert rest == multiset{};
      c := x;
      forall y | y in q ensures !DistanceCompare(dist, c, y) {
        assert y == x;
      }
    } else {
      var m := QueueHasTop(rest, dist);
      c := if dist[x] < dist[m] then x else m;
      forall y | y in q ensures !DistanceCompare(dist, c, y) {
        if y != x {
          assert y in rest;
        }
      }
    }
  }

  // ---------------------------------------------------------------------
  // The search invariant.
  // ---------------------------------------------------------------------

  /** The top of the queue is at a distance no larger than any queued node. */
  lemma TopIsNearest(q: multiset<int>, dist: seq<int>, c: int)
    requires forall x :: x in q ==> 0 <= x < |dist|
    requires c in q && forall y :: y in q ==> !DistanceCompare(dist, c, y)
    ensures forall y :: y in q ==> dist[c] <= dist[y]
  {
  }

  /**
   * The predecessor tree: distances are in [0, INT_MAX], the start has
   * distance 0 and no predecessor, an unreached node has no predecessor,
   * and every other reached node is one edge after its predecessor.
   */
  ghost predicate Tree(adj: seq<seq<int>>, d: seq<int>, prev: seq<int>, start: int)
  {
    && |d| == |adj| && |prev| == |adj| && 0 <= start < |adj|
    && d[start] == 0 && prev[start] == -1
    && (forall x :: 0 <= x < |adj| ==> 0 <= d[x] <= INT_MAX)
    && (forall x {:trigger prev[x]} :: 0 <= x < |adj| && d[x] == INT_MAX ==> prev[x] == -1)
    && (forall x {:trigger prev[x]} :: 0 <= x < |adj| && x != start && d[x] < INT_MAX ==>
          0 <= prev[x] < |adj| && x in adj[prev[x]] && d[x] == d[prev[x]] + 1)
  }

  /**
   * The state of the search between steps. `settled` is the set of
   * visited nodes; `cur`, when not -1, is the settled node whose first
   * `upTo` out-edges have been relaxed so far, while every other settled
   * node has had all of them relaxed: each successor is settled or has a
   * distance at most one more.
   */
  ghost predicate Inv(adj: seq<seq<int>>, d: seq<int>, prev: seq<int>, vis: seq<bool>,
                      settled: set<int>, q: multiset<int>, start: int, end: int, cur: int, upTo: int)
  {
    && Tree(adj, d, prev, start)
    && TargetsInRange(adj)
    && |vis| == |adj| && 0 <= end < |adj| && |adj| < INT_MAX
    && (forall x :: x in settled ==> 0 <= x < |adj|)
    && (forall x :: 0 <= x < |adj| ==> (vis[x] <==> x in settled))
    && (forall x :: x in q ==> 0 <= x < |adj| && d[x] < INT_MAX)
    && (forall x :: 0 <= x < |adj| && d[x] < INT_MAX ==> x in settled || x in q)
    && (forall x {:trigger prev[x]} :: 0 <= x < |adj| && x != start && d[x] < INT_MAX ==> prev[x] in settled)
    && (start in settled || (settled == {} && q == multiset{start}))
    && end !in settled
    && (forall v :: v in settled ==> d[v] < |settled|)
    && (cur != -1 ==> cur in settled && 0 <= upTo <= |adj[cur]|)
    && (forall v, k :: v in settled && 0 <= k < |adj[v]| && (v == cur ==> k < upTo) ==>
          adj[v][k] in settled || d[adj[v][k]] <= d[v] + 1)
    && (forall v :: v in settled ==> ShortestBound(adj, start, v, d[v]))
  }

  /** The state right after the buffers are reset and the start is queued. */
  lemma InitInv(adj: seq<seq<int>>, start: int, end: int)
    requires TargetsInRange(adj) && |adj| < INT_MAX
    requires 0 <= start < |adj| && 0 <= end < |adj|
    ensures Inv(adj, seq(|adj|, _ => INT_MAX)[start := 0], seq(|adj|, _ => -1), seq(|adj|, _ => false),
                {}, multiset{start}, start, end, -1, 0)
  {
  }

  /**
   * The node taken from the queue, when not yet settled, is at its true
   * distance: the first unsettled node of any walk to it is queued at a
   * distance no larger than its position on the walk.
   */
  lemma PoppedIsShortest(adj: seq<seq<int>>, d: seq<int>, prev: seq<int>, vis: seq<bool>,
                         settled: set<int>, q: multiset<int>, start: int, end: int, u: int)
    requires Inv(adj, d, prev, vis, settled, q, start, end, -1, 0)
    requires u in q && u !in settled && forall y :: y in q ==> d[u] <= d[y]
    ensures ShortestBound(adj, start, u, d[u])
  {
    SubsetBound(settled, |adj|);
    forall p | PathBetween(adj, p, start, u) ensures d[u] <= |p| - 1 {
      if settled == {} {
        assert u == start;
      } else {
        var i := 0;
        while p[i + 1] in settled
          invariant 0 <= i < |p| - 1
          invariant p[i] in settled
          decreases |p| - i
        {
          i := i + 1;
        }
        var x, y := p[i], p[i + 1];
        assert PathBetween(adj, p[..i + 1], start, x);
        assert d[x] <= i;
        var k :| 0 <= k < |adj[x]| && adj[x][k] == y;
        assert d[y] <= d[x] + 1;
        assert y in q;
      }
    }
  }

  /** Settling the node taken from the queue keeps the invariant, with none of its edges relaxed yet. */
  lemma SettleStep(adj: seq<seq<int>>, d: seq<int>, prev: seq<int>, vis: seq<bool>,
                   settled: set<int>, q: multiset<int>, start: int, end: int, u: int)
    requires Inv(adj, d, prev, vis, settled, q, start, end, -1, 0)
    requires u in q && u != end && !vis[u] && forall y :: y in q ==> d[u] <= d[y]
    ensures Inv(adj, d, prev, vis[u := true], settled + {u}, q - multiset{u}, start, end, u, 0)
  {
    PoppedIsShortest(adj, d, prev, vis, settled, q, start, end, u);
    var s' := settled + {u};
    assert |s'| == |settled| + 1;
    forall v | v in s' ensures d[v] < |s'| {
      if v == u && u != start {
        assert prev[u] in settled;
      }
    }
  }

  /** Settling an unvisited node grows the settled set by one, within the node count. */
  lemma SettledBound(adj: seq<seq<int>>, d: seq<int>, prev: seq<int>, vis: seq<bool>,
                     settled: set<int>, q: multiset<int>, start: int, end: int, u: int)
    requires Inv(adj, d, prev, vis, settled, q, start, end, -1, 0)
    requires u in q && !vis[u]
    ensures |settled + {u}| == |settled| + 1 <= |adj|
  {
    SubsetBound(settled + {u}, |adj|);
  }

  /** Dropping a queue entry of an already settled node keeps the invariant. */
  lemma SkipStep(adj: seq<seq<int>>, d: seq<int>, prev: seq<int>, vis: seq<bool>,
                 settled: set<int>, q: multiset<int>, start: int, end: int, u: int)
    requires Inv(adj, d, prev, vis, settled, q, start, end, -1, 0)
    requires u in q && vis[u]
    ensures Inv(adj, d, prev, vis, settled, q - multiset{u}, start, end, -1, 0)
  {
  }

  /** The next out-edge of `cur` leads to a node, and `cur` has a finite distance. */
  lemma RelaxReady(adj: seq<seq<int>>, d: seq<int>, prev: seq<int>, vis: seq<bool>,
                   settled: set<int>, q: multiset<int>, start: int, end: int, cur: int, j: int)
    requires Inv(adj, d, prev, vis, settled, q, start, end, cur, j)
    requires cur != -1 && j < |adj[cur]|
    ensures 0 <= cur < |adj| && 0 <= adj[cur][j] < |adj| && d[cur] < INT_MAX
  {
    SubsetBound(settled, |adj|);
  }

  /** Relaxing the next out-edge of `cur` keeps the invariant. */
  lemma RelaxStep(adj: seq<seq<int>>, d: seq<int>, prev: seq<int>, vis: seq<bool>,
                  settled: set<int>, q: multiset<int>, start: int, end: int, cur: int, j: int,
                  d': seq<int>, prev': seq<int>, q': multiset<int>)
    requires Inv(adj, d, prev, vis, settled, q, start, end, cur, j)
    requires cur != -1 && j < |adj[cur]|
    requires var w := adj[cur][j];
      var improves := !vis[w] && d[cur] + 1 < d[w];
      && d' == (if improves then d[w := d[cur] + 1] else d)
      && prev' == (if improves then prev[w := cur] else prev)
      && q' == (if improves then q + multiset{w} else q)
    ensures Inv(adj, d', prev', vis, settled, q', start, end, cur, j + 1)
  {
    var w := adj[cur][j];
    if !vis[w] && d[cur] + 1 < d[w] {
      RelaxImproves(adj, d, prev, vis, settled, q, start, end, cur, j);
    } else {
      RelaxKeeps(adj, d, prev, vis, settled, q, start, end, cur, j);
    }
  }

  /** An out-edge that leads to a settled node or improves nothing leaves the state as it is. */
  lemma RelaxKeeps(adj: seq<seq<int>>, d: seq<int>, prev: seq<int>, vis: seq<bool>,
                   settled: set<int>, q: multiset<int>, start: int, end: int, cur: int, j: int)
    requires Inv(adj, d, prev, vis, settled, q, start, end, cur, j)
    requires cur != -1 && j < |adj[cur]|
    requires vis[adj[cur][j]] || d[cur] + 1 >= d[adj[cur][j]]
    ensures Inv(adj, d, prev, vis, settled, q, start, end, cur, j + 1)
  {
  }

  /** An out-edge that improves an unsettled node lowers its distance, points it at `cur` and queues it. */
  lemma RelaxImproves(adj: seq<seq<int>>, d: seq<int>, prev: seq<int>, vis: seq<bool>,
                      settled: set<int>, q: multiset<int>, start: int, end: int, cur: int, j: int)
    requires Inv(adj, d, prev, vis, settled, q, start, end, cur, j)
    requires cur != -1 && j < |adj[cur]|
    requires !vis[adj[cur][j]] && d[cur] + 1 < d[adj[cur][j]]
    ensures var w := adj[cur][j];
      Inv(adj, d[w := d[cur] + 1], prev[w := cur], vis, settled, q + multiset{w}, start, end, cur, j + 1)
  {
    var w := adj[cur][j];
    var d', prev' := d[w := d[cur] + 1], prev[w := cur];
    SubsetBound(settled, |adj|);
    assert d[cur] < |settled|;
    assert w !in settled && w != start;
    TreeGrows(adj, d, prev, start, cur, w);
    forall v | v in settled ensures ShortestBound(adj, start, v, d'[v]) {
      assert ShortestBound(adj, start, v, d[v]);
      assert d'[v] == d[v];
    }
    forall v, k | v in settled && 0 <= k < |adj[v]| && (v == cur ==> k < j + 1)
      ensures adj[v][k] in settled || d'[adj[v][k]] <= d'[v] + 1
    {
      assert d'[v] == d[v];
    }
  }

  /**
   * Giving a node other than the start, that no reached node points at, a
   * shorter distance through one of its in-neighbours keeps the tree.
   */
  lemma TreeGrows(adj: seq<seq<int>>, d: seq<int>, prev: seq<int>, start: int, cur: int, w: int)
    requires Tree(adj, d, prev, start)
    requires 0 <= cur < |adj| && 0 <= w < |adj| && w != start && w in adj[cur]
    requires d[cur] + 1 < d[w]
    requires forall x {:trigger prev[x]} :: 0 <= x < |adj| && x != start && d[x] < INT_MAX ==> prev[x] != w
    ensures Tree(adj, d[w := d[cur] + 1], prev[w := cur], start)
  {
  }

  /** Once every out-edge of `cur` is relaxed, `cur` is like every other settled node. */
  lemma FinishRelax(adj: seq<seq<int>>, d: seq<int>, prev: seq<int>, vis: seq<bool>,
                    settled: set<int>, q: multiset<int>, start: int, end: int, cur: int)
    requires cur != -1 && 0 <= cur < |adj|
    requires Inv(adj, d, prev, vis, settled, q, start, end, cur, |adj[cur]|)
    ensures Inv(adj, d, prev, vis, settled, q, start, end, -1, 0)
  {
  }

  /** When the queue runs dry before `end` is taken, `end` cannot be reached. */
  lemma ExhaustedUnreachable(adj: seq<seq<int>>, d: seq<int>, prev: seq<int>, vis: seq<bool>,
                             settled: set<int>, start: int, end: int)
    requires Inv(adj, d, prev, vis, settled, multiset{}, start, end, -1, 0)
    ensures !Reachable(adj, start, end)
    ensures d[end] == INT_MAX
  {
    SubsetBound(settled, |adj|);
    forall v, k | v in settled && 0 <= k < |adj[v]| ensures adj[v][k] in settled {
      assert d[v] < |settled|;
    }
    forall p | IsPath(adj, p) && p[0] == start ensures p[|p| - 1] in settled {
      var i := 0;
      while i < |p| - 1
        invariant 0 <= i < |p| && p[i] in settled
      {
        var k :| 0 <= k < |adj[p[i]]| && adj[p[i]][k] == p[i + 1];
        i := i + 1;
      }
    }
  }

  /**
   * The walk `trace` has followed so far, from `end` backwards: `trail`
   * holds the nodes visited, each one edge after the next and one step
   * further than it, and `at` is the predecessor of the last one (-1 when
   * there is none).
   */
  ghost predicate Trail(adj: seq<seq<int>>, d: seq<int>, pr: seq<int>, end: int, trail: seq<int>, at: int)
  {
    && |d| == |adj| && |pr| == |adj| && 0 <= end < |adj|
    && (at == -1 || 0 <= at < |adj|)
    && (|trail| == 0 ==> at == end)
    && (forall k :: 0 <= k < |trail| ==> 0 <= trail[k] < |adj|)
    && (|trail| > 0 ==> trail[0] == end && at == pr[trail[|trail| - 1]])
    && (d[end] == INT_MAX ==> |trail| <= 1 && (|trail| == 1 ==> at == -1))
    && (forall k :: 0 <= k < |trail| - 1 ==> trail[k] in adj[trail[k + 1]])
    && (|trail| > 0 && at != -1 ==> trail[|trail| - 1] in adj[at])
    && (d[end] < INT_MAX ==> forall k :: 0 <= k < |trail| ==> d[trail[k]] == d[end] - k)
    && (d[end] < INT_MAX && at != -1 ==> d[at] == d[end] - |trail|)
  }

  /** Stepping back to the predecessor of `at` keeps the trail, and brings the walk nearer the start. */
  lemma TrailStep(adj: seq<seq<int>>, d: seq<int>, pr: seq<int>, start: int, end: int, trail: seq<int>, at: int)
    requires Tree(adj, d, pr, start) && Trail(adj, d, pr, end, trail, at) && at != -1
    ensures Trail(adj, d, pr, end, trail + [at], pr[at])
    ensures pr[at] == -1 || (0 <= pr[at] < |adj| && d[pr[at]] < d[at])
  {
    var t := trail + [at];
    forall k | 0 <= k < |t| - 1 ensures t[k] in adj[t[k + 1]] {
      if k < |trail| - 1 {
        assert t[k] == trail[k] && t[k + 1] == trail[k + 1];
      }
    }
  }

  /**
   * Where the trail stops, read front to back it is a shortest walk from
   * `start` to `end` when it begins at `start`, and otherwise `end` cannot
   * be reached; when `start` is `end` it is that node alone.
   */
  lemma TrailEnds(adj: seq<seq<int>>, d: seq<int>, pr: seq<int>, start: int, end: int, trail: seq<int>)
    requires Tree(adj, d, pr, start) && Trail(adj, d, pr, end, trail, -1)
    requires d[end] < INT_MAX ==> ShortestBound(adj, start, end, d[end])
    requires d[end] == INT_MAX ==> !Reachable(adj, start, end)
    ensures |trail| > 0
    ensures Reversed(trail)[0] == start ==>
      Reachable(adj, start, end) && IsShortestPath(adj, Reversed(trail), start, end) && d[end] == |trail| - 1
    ensures Reversed(trail)[0] != start ==> !Reachable(adj, start, end) && d[end] == INT_MAX
    ensures start == end ==> Reversed(trail) == [start]
  {
    var last := trail[|trail| - 1];
    assert pr[last] == -1;
    var reversed := Reversed(trail);
    if reversed[0] == start {
      assert d[end] < INT_MAX;
      assert PathBetween(adj, reversed, start, end);
    }
    assert start == end ==> PathBetween(adj, [start], start, end);
    if d[end] < INT_MAX {
      assert d[last] < INT_MAX;
    }
  }

  // ---------------------------------------------------------------------
  // The Dijkstra class.
  // ---------------------------------------------------------------------

  class Dijkstra {
    /** The searched graph, held by reference. */
    const graph: Graph
    /** Reused buffers, one entry per node. */
    const distances: array<int>
    const previous: array<int>
    const visited: array<bool>

    ghost predicate Valid()
      reads this, graph, graph.limits
    {
      && graph.Valid()
      && distances.Length == graph.nodes
      && previous.Length == graph.nodes
      && visited.Length == graph.nodes
      && distances != previous
    }

    /** Sizes the buffers to the graph: distances INT_MAX, no predecessors, nothing visited. */
    constructor (graph: Graph)
      requires graph.Valid()
      ensures Valid() && this.graph == graph
      ensures fresh(distances) && fresh(previous) && fresh(visited)
      ensures forall n :: 0 <= n < graph.nodes ==>
        distances[n] == INT_MAX && previous[n] == -1 && !visited[n]
    {
      this.graph := graph;
      var nodeCount := graph.CountNodes();
      distances := new int[nodeCount](_ => INT_MAX);
      previous := new int[nodeCount](_ => -1);
      visited := new bool[nodeCount](_ => false);
    }

    /**
     * A shortest path from `start` to `end`, both ends included, or the
     * empty sequence when `end` cannot be reached. Endpoints outside the
     * graph are refused. The search stops as soon as `end` leaves the
     * queue, and afterwards `distances[end]` is the path's edge count.
     */
    method FindShortestPath(start: int, end: int) returns (r: Result<seq<int>>)
      requires Valid()
      requires graph.nodes < INT_MAX
      modifies distances, previous, visited
      ensures Valid()
      ensures r.Err? <==> !(0 <= start < graph.nodes && 0 <= end < graph.nodes)
      ensures r.Err? ==> r.error == OutOfRange
      ensures r.Ok? ==> (r.value == [] <==> !Reachable(graph.Adj, start, end))
      ensures r.Ok? && r.value != [] ==> IsShortestPath(graph.Adj, r.value, start, end)
      ensures r.Ok? ==> end < distances.Length && distances[end] == if r.value == [] then INT_MAX else |r.value| - 1
      ensures r.Ok? && end == graph.nodes - 1 ==>
        GetPathDistance() == if r.value == [] then INT_MAX else |r.value| - 1
      ensures r.Ok? && start == end ==> r.value == [start]
    {
      var nodeCount := graph.CountNodes();
      if start < 0 || start >= nodeCount || end < 0 || end >= nodeCount {
        return Err(OutOfRange);
      }
      var path := Run(start, end);
      assert end == graph.nodes - 1 ==> GetPathDistance() == distances[end];
      r := Ok(path);
    }

    /** The search proper, for two nodes of the graph: reset, seed the start, search, and trace the path back. */
    method Run(start: int, end: int) returns (path: seq<int>)
      requires Valid() && graph.nodes < INT_MAX && 0 <= start < graph.nodes && 0 <= end < graph.nodes
      modifies distances, previous, visited
      ensures Valid()
      ensures path == [] <==> !Reachable(graph.Adj, start, end)
      ensures path != [] ==> IsShortestPath(graph.Adj, path, start, end)
      ensures distances[end] == if path == [] then INT_MAX else |path| - 1
      ensures start == end ==> path == [start]
    {
      ResetBuffers();
      distances[start] := 0;
      Search(start, end);
      path := TracePath(start, end);
    }

    /**
     * The search loop: pops the nearest queued node until the queue runs
     * dry or `end` comes out. Afterwards the buffers hold a predecessor
     * tree from `start`, and the distance of `end` is its true distance, or
     * INT_MAX when `end` cannot be reached.
     */
    method Search(start: int, end: int)
      requires Valid() && graph.nodes < INT_MAX && 0 <= start < graph.nodes && 0 <= end < graph.nodes
      requires distances[..] == seq(graph.nodes, _ => INT_MAX)[start := 0]
      requires previous[..] == seq(graph.nodes, _ => -1) && visited[..] == seq(graph.nodes, _ => false)
      modifies distances, previous, visited
      ensures Valid() && Tree(graph.Adj, distances[..], previous[..], start)
      ensures distances[end] < INT_MAX ==> ShortestBound(graph.Adj, start, end, distances[end])
      ensures distances[end] == INT_MAX ==> !Reachable(graph.Adj, start, end)
    {
      ghost var adj := graph.Adj;
      var nodeCount := graph.CountNodes();
      var queue: multiset<int> := multiset{start};
      ghost var settled: set<int> := {};
      ghost var found := false;
      ghost var d, prev, vis := distances[..], previous[..], visited[..];
      InitInv(adj, start, end);

      while queue != multiset{}
        invariant adj == graph.Adj
        invariant distances[..] == d && previous[..] == prev && visited[..] == vis
        invariant Inv(adj, d, prev, vis, settled, queue, start, end, -1, 0)
        invariant |settled| <= nodeCount
        decreases nodeCount - |settled|, |queue|
      {
        ghost var top := QueueHasTop(queue, d);
        var current :| current in queue && forall y :: y in queue ==> !DistanceCompare(distances[..], current, y);
        var before := queue;
        queue := queue - multiset{current};
        TopIsNearest(before, distances[..], current);

        if current == end {
          PoppedIsShortest(adj, d, prev, vis, settled, before, start, end, end);
          found := true;
          break;
        }

        if visited[current] {
          SkipStep(adj, d, prev, vis, settled, before, start, end, current);
          assert |queue| < |before|;
          continue;
        }

        SettledBound(adj, d, prev, vis, settled, before, start, end, current);
        queue, d, prev, vis := Visit(current, before, adj, d, prev, vis, settled, start, end);
        settled := settled + {current};
      }

      if !found {
        ExhaustedUnreachable(adj, d, prev, vis, settled, start, end);
      }
    }

    /** Resets the buffers: every distance INT_MAX, no predecessors, nothing visited. */
    method ResetBuffers()
      requires Valid()
      modifies distances, previous, visited
      ensures Valid()
      ensures distances[..] == seq(distances.Length, _ => INT_MAX)
      ensures previous[..] == seq(previous.Length, _ => -1)
      ensures visited[..] == seq(visited.Length, _ => false)
    {
      for i := 0 to distances.Length
        invariant forall k :: 0 <= k < i ==> distances[k] == INT_MAX
      {
        distances[i] := INT_MAX;
      }
      for i := 0 to previous.Length
        invariant forall k :: 0 <= k < i ==> previous[k] == -1
        invariant forall k :: 0 <= k < distances.Length ==> distances[k] == INT_MAX
      {
        previous[i] := -1;
      }
      for i := 0 to visited.Length
        invariant forall k :: 0 <= k < i ==> !visited[k]
        invariant forall k :: 0 <= k < distances.Length ==> distances[k] == INT_MAX
        invariant forall k :: 0 <= k < previous.Length ==> previous[k] == -1
      {
        visited[i] := false;
      }
    }

    /**
     * Marks the node just taken from the queue as visited and relaxes its
     * out-edges in chain order, returning the grown queue.
     */
    method Visit(current: int, before: multiset<int>,
                 ghost adj: seq<seq<int>>, ghost d: seq<int>, ghost prev: seq<int>, ghost vis: seq<bool>,
                 ghost settled: set<int>, ghost start: int, ghost end: int)
      returns (queue: multiset<int>, ghost d': seq<int>, ghost prev': seq<int>, ghost vis': seq<bool>)
      requires Valid() && adj == graph.Adj
      requires distances[..] == d && previous[..] == prev && visited[..] == vis
      requires Inv(adj, d, prev, vis, settled, before, start, end, -1, 0)
      requires current in before && current != end && !vis[current]
      requires forall y :: y in before ==> d[current] <= d[y]
      modifies distances, previous, visited
      ensures Valid()
      ensures distances[..] == d' && previous[..] == prev' && visited[..] == vis'
      ensures Inv(adj, d', prev', vis', settled + {current}, queue, start, end, -1, 0)
    {
      Settle(current, adj, d, prev, vis, settled, before, start, end);
      vis' := vis[current := true];
      queue, d', prev' := RelaxAll(current, before - multiset{current}, adj, d, prev, vis', settled + {current}, start, end);
      FinishRelax(adj, d', prev', vis', settled + {current}, queue, start, end, current);
    }

    /** `visited[current] = true` for the node just taken from the queue, which settles it. */
    method Settle(current: int, ghost adj: seq<seq<int>>, ghost d: seq<int>, ghost prev: seq<int>, ghost vis: seq<bool>,
                  ghost settled: set<int>, ghost before: multiset<int>, ghost start: int, ghost end: int)
      requires Valid() && adj == graph.Adj
      requires distances[..] == d && previous[..] == prev && visited[..] == vis
      requires Inv(adj, d, prev, vis, settled, before, start, end, -1, 0)
      requires current in before && current != end && !vis[current]
      requires forall y :: y in before ==> d[current] <= d[y]
      modifies visited
      ensures Valid()
      ensures distances[..] == d && previous[..] == prev && visited[..] == vis[current := true]
      ensures Inv(adj, d, prev, vis[current := true], settled + {current}, before - multiset{current}, start, end, current, 0)
    {
      SettleStep(adj, d, prev, vis, settled, before, start, end, current);
      visited[current] := true;
    }

    /** Relaxes every out-edge of the settled node `current`, in chain order. */
    method RelaxAll(current: int, queue0: multiset<int>,
                    ghost adj: seq<seq<int>>, ghost d: seq<int>, ghost prev: seq<int>, ghost vis: seq<bool>,
                    ghost s: set<int>, ghost start: int, ghost end: int)
      returns (queue: multiset<int>, ghost d': seq<int>, ghost prev': seq<int>)
      requires Valid() && adj == graph.Adj
      requires distances[..] == d && previous[..] == prev && visited[..] == vis
      requires current != -1 && Inv(adj, d, prev, vis, s, queue0, start, end, current, 0)
      modifies distances, previous
      ensures Valid()
      ensures distances[..] == d' && previous[..] == prev' && visited[..] == vis
      ensures Inv(adj, d', prev', vis, s, queue, start, end, current, |adj[current]|)
    {
      d', prev', queue := d, prev, queue0;
      var edges := graph.ForEachEdgeFrom(current);
      assert edges == OutEdges(adj, current);
      for j := 0 to |edges|
        invariant distances[..] == d' && previous[..] == prev' && visited[..] == vis
        invariant Inv(adj, d', prev', vis, s, queue, start, end, current, j)
      {
        RelaxReady(adj, d', prev', vis, s, queue, start, end, current, j);
        assert edges[j].to == adj[current][j];
        var next := RelaxEdge(current, edges[j], queue, d', prev', vis);
        ghost var d2, prev2 := distances[..], previous[..];
        RelaxStep(adj, d', prev', vis, s, queue, start, end, current, j, d2, prev2, next);
        d', prev', queue := d2, prev2, next;
      }
    }

    /**
     * Follows the predecessors back from `end` and returns the walk front
     * to back when it starts at `start`, and the empty sequence otherwise.
     */
    method TracePath(start: int, end: int) returns (path: seq<int>)
      requires Valid() && 0 <= end < graph.nodes
      requires Tree(graph.Adj, distances[..], previous[..], start)
      requires distances[end] < INT_MAX ==> ShortestBound(graph.Adj, start, end, distances[end])
      requires distances[end] == INT_MAX ==> !Reachable(graph.Adj, start, end)
      ensures path == [] <==> !Reachable(graph.Adj, start, end)
      ensures path != [] ==> IsShortestPath(graph.Adj, path, start, end) && distances[end] == |path| - 1
      ensures path == [] ==> distances[end] == INT_MAX
      ensures start == end ==> path == [start]
    {
      ghost var adj := graph.Adj;
      ghost var d := distances[..];
      ghost var pr := previous[..];
      var trail: seq<int> := [];
      var at := end;
      while at != -1
        invariant Trail(adj, d, pr, end, trail, at)
        decreases if at == -1 then 0 else d[at] + 1
      {
        TrailStep(adj, d, pr, start, end, trail, at);
        assert previous[at] == pr[at];
        trail := trail + [at];
        at := previous[at];
      }
      TrailEnds(adj, d, pr, start, end, trail);
      var reversed := Reversed(trail);
      path := if reversed[0] == start then reversed else [];
    }

    /**
     * The visitor applied to each edge leaving `current`: an edge into an
     * unvisited node that shortens its distance records the new distance
     * and predecessor and queues the node.
     */
    method RelaxEdge(current: int, edge: Edge, queue: multiset<int>,
                     ghost d: seq<int>, ghost prev: seq<int>, ghost vis: seq<bool>)
      returns (queue': multiset<int>)
      requires Valid() && 0 <= current < graph.nodes && 0 <= edge.to < graph.nodes
      requires distances[..] == d && previous[..] == prev && visited[..] == vis
      requires d[current] < INT_MAX
      modifies distances, previous
      ensures Valid() && visited[..] == vis
      ensures var improves := !vis[edge.to] && d[current] + 1 < d[edge.to];
        && distances[..] == (if improves then d[edge.to := d[current] + 1] else d)
        && previous[..] == (if improves then prev[edge.to := current] else prev)
        && queue' == (if improves then queue + multiset{edge.to} else queue)
    {
      queue' := queue;
      if visited[edge.to] {
        return;
      }
      var newDistance := distances[current] + 1;
      if newDistance < distances[edge.to] {
        distances[edge.to] := newDistance;
        previous[edge.to] := current;
        queue' := queue' + multiset{edge.to};
      }
    }

    /** Whether `end` can be reached from `start`; refused like the search for nodes outside the graph. */
    method NodesAreConnected(start: int, end: int) returns (r: Result<bool>)
      requires Valid()
      requires graph.nodes < INT_MAX
      modifies distances, previous, visited
      ensures Valid()
      ensures r.Err? <==> !(0 <= start < graph.nodes && 0 <= end < graph.nodes)
      ensures r.Ok? ==> (r.value <==> Reachable(graph.Adj, start, end))
    {
      var path := FindShortestPath(start, end);
      if path.Err? {
        return Err(path.error);
      }
      return Ok(path.value != []);
    }

    /** The distance stored for the last node, or -1 when the graph has no nodes. */
    function GetPathDistance(): (d: int)
      reads this, distances
      ensures distances.Length == 0 ==> d == -1
      ensures distances.Length > 0 ==> d == distances[distances.Length - 1]
    {
      if distances.Length == 0 then -1 else distances[distances.Length - 1]
    }
  }
}
