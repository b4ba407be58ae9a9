/**
 * The adjacency list of `src/graph.hpp` / `src/graph.cpp`: a fixed number
 * of nodes, per-node head/tail indices into an edge pool, and the edges of
 * each node threaded through the pool by `next` indices. Edges are only
 * ever appended.
 */
module Graphs {
  import opened Common

  datatype Edge = Edge(from: int, to: int)

  /** Index of the first and last edge of a node's chain, or (-1, -1). */
  datatype NodeLimit = NodeLimit(head: int, tail: int)

  /** One record of the edge pool: its target and the index of the next edge of the same source. */
  datatype NodeConnection = NodeConnection(target: int, next: int)

  // ---------------------------------------------------------------------
  // Abstract view: the targets of each node, in insertion order.
  // ---------------------------------------------------------------------

  /** Number of directed edges of an adjacency (a bidirected edge counts twice). */
  function TotalDegree(adj: seq<seq<int>>): nat
  {
    if adj == [] then 0 else TotalDegree(adj[..|adj| - 1]) + |adj[|adj| - 1]|
  }

  /** The directed edge relation of an adjacency. */
  ghost function EdgesOf(adj: seq<seq<int>>): set<(int, int)>
  {
    set f, t | 0 <= f < |adj| && t in adj[f] :: (f, t)
  }

  /** Every target is a node of the graph. */
  ghost predicate TargetsInRange(adj: seq<seq<int>>)
  {
    forall n, k :: 0 <= n < |adj| && 0 <= k < |adj[n]| ==> 0 <= adj[n][k] < |adj|
  }

  /** `adj` with one more record `f -> t` at the end of `f`'s chain. */
  function Append(adj: seq<seq<int>>, f: int, t: int): seq<seq<int>>
    requires 0 <= f < |adj|
  {
    adj[f := adj[f] + [t]]
  }

  /**
   * What `connect(f, t, bidirectional)` does to the adjacency: nothing when
   * `f -> t` exists and either the call is directed or `t -> f` exists too;
   * otherwise it appends `f -> t` and then, for a bidirected call, appends
   * `t -> f` unless that edge is present by then.
   */
  function WithEdge(adj: seq<seq<int>>, f: int, t: int, bidirectional: bool): seq<seq<int>>
    requires 0 <= f < |adj| && 0 <= t < |adj|
  {
    if t in adj[f] && (!bidirectional || f in adj[t]) then adj
    else
      var once := Append(adj, f, t);
      if bidirectional && f !in once[t] then Append(once, t, f) else once
  }

  /** The edges a traversal of node `n` reports, in chain order. */
  function OutEdges(adj: seq<seq<int>>, n: int): seq<Edge>
    requires 0 <= n < |adj|
  {
    seq(|adj[n]|, k requires 0 <= k < |adj[n]| => Edge(n, adj[n][k]))
  }

  /** The edges of nodes 0 .. upTo-1, node after node. */
  function AllEdges(adj: seq<seq<int>>, upTo: nat): seq<Edge>
    requires upTo <= |adj|
  {
    if upTo == 0 then [] else AllEdges(adj, upTo - 1) + OutEdges(adj, upTo - 1)
  }

  // ---------------------------------------------------------------------
  // The range test of `connect`.
  // ---------------------------------------------------------------------

  /** The test at src/graph.cpp:25-35 as written: it lets `from == nodes` and `to == nodes` through. */
  predicate RejectedAsWritten(nodes: int, from: int, to: int)
  {
    from < 0 || from > nodes || to < 0 || to > nodes
  }

  /** The intended test: both endpoints must be nodes of the graph. */
  predicate ConnectRejects(nodes: int, from: int, to: int)
  {
    from < 0 || from >= nodes || to < 0 || to >= nodes
  }

  /** The test as written accepts the endpoint `nodes`, which is not an index of `limits`. */
  lemma AsWrittenAdmitsMissingNode(nodes: nat)
    ensures !RejectedAsWritten(nodes, nodes, 0) && !RejectedAsWritten(nodes, 0, nodes)
    ensures ConnectRejects(nodes, nodes, 0) && ConnectRejects(nodes, 0, nodes)
  {
  }

  /** The corrected test rejects exactly the pairs that do not index `limits`. */
  lemma ConnectRejectsExactly(nodes: int, from: int, to: int)
    ensures ConnectRejects(nodes, from, to) <==> !(0 <= from < nodes && 0 <= to < nodes)
    ensures !ConnectRejects(nodes, from, to) ==> !RejectedAsWritten(nodes, from, to)
  {
  }

  // ---------------------------------------------------------------------
  // Lemmas about the abstract view.
  // ---------------------------------------------------------------------

  lemma {:induction false} TotalDegreeEmpty(n: nat)
    ensures TotalDegree(seq(n, _ => [])) == 0
  {
    if n > 0 {
      var empty: seq<seq<int>> := seq(n, _ => []);
      assert empty[..n - 1] == seq(n - 1, _ => []);
      TotalDegreeEmpty(n - 1);
    }
  }

  /** Replacing one node's targets changes the edge count by the difference of lengths. */
  lemma {:induction false} TotalDegreeUpdate(adj: seq<seq<int>>, i: int, s: seq<int>)
    requires 0 <= i < |adj|
    ensures TotalDegree(adj[i := s]) == TotalDegree(adj) - |adj[i]| + |s|
  {
    var last := |adj| - 1;
    if i < last {
      assert adj[i := s][..last] == adj[..last][i := s];
      TotalDegreeUpdate(adj[..last], i, s);
    } else {
      assert adj[i := s][..last] == adj[..last];
    }
  }

  lemma AppendTargets(adj: seq<seq<int>>, f: int, t: int)
    requires TargetsInRange(adj) && 0 <= f < |adj| && 0 <= t < |adj|
    ensures TargetsInRange(Append(adj, f, t))
  {
    var a := Append(adj, f, t);
    forall n, k | 0 <= n < |a| && 0 <= k < |a[n]| ensures 0 <= a[n][k] < |a| {
      if n == f && k == |adj[f]| {
        assert a[n][k] == t;
      } else {
        assert a[n][k] == adj[n][k];
      }
    }
  }

  lemma AppendCount(adj: seq<seq<int>>, f: int, t: int)
    requires 0 <= f < |adj|
    ensures TotalDegree(Append(adj, f, t)) == TotalDegree(adj) + 1
  {
    TotalDegreeUpdate(adj, f, adj[f] + [t]);
  }

  lemma AppendEdges(adj: seq<seq<int>>, f: int, t: int)
    requires 0 <= f < |adj|
    ensures EdgesOf(Append(adj, f, t)) == EdgesOf(adj) + {(f, t)}
  {
    var a := Append(adj, f, t);
    forall e | e in EdgesOf(a) ensures e in EdgesOf(adj) + {(f, t)} {
      var x, y :| e == (x, y) && 0 <= x < |a| && y in a[x];
      if x != f || y != t {
        if x == f {
          assert y in adj[f] + [t];
        }
        assert y in adj[x];
      }
    }
    forall e | e in EdgesOf(adj) + {(f, t)} ensures e in EdgesOf(a) {
      if e == (f, t) {
        assert t in a[f];
      } else {
        var x, y :| e == (x, y) && 0 <= x < |adj| && y in adj[x];
        assert y in a[x];
      }
    }
  }

  /** After a connect both requested directions are edges, and every old record is still in place. */
  lemma WithEdgeAdds(adj: seq<seq<int>>, f: int, t: int, bidirectional: bool)
    requires 0 <= f < |adj| && 0 <= t < |adj|
    ensures var r := WithEdge(adj, f, t, bidirectional);
      && |r| == |adj|
      && t in r[f]
      && (bidirectional ==> f in r[t])
      && (forall n :: 0 <= n < |adj| ==> adj[n] <= r[n])
  {
  }

  /** A connect adds exactly the requested directed edges to the edge relation. */
  lemma WithEdgeEdges(adj: seq<seq<int>>, f: int, t: int, bidirectional: bool)
    requires 0 <= f < |adj| && 0 <= t < |adj|
    ensures EdgesOf(WithEdge(adj, f, t, bidirectional))
         == EdgesOf(adj) + {(f, t)} + (if bidirectional then {(t, f)} else {})
  {
    if t in adj[f] && (!bidirectional || f in adj[t]) {
      assert (f, t) in EdgesOf(adj);
      if bidirectional {
        assert (t, f) in EdgesOf(adj);
      }
    } else {
      var once := Append(adj, f, t);
      AppendEdges(adj, f, t);
      if bidirectional && f !in once[t] {
        AppendEdges(once, t, f);
      } else if bidirectional {
        assert (t, f) in EdgesOf(once);
      }
    }
  }

  /**
   * How many records a connect appends: none when nothing is missing, one
   * for a fresh directed edge, two for a fresh bidirected pair between
   * distinct nodes, and two when only `f -> t` existed (a second `f -> t`
   * record and `t -> f`).
   */
  lemma WithEdgeCount(adj: seq<seq<int>>, f: int, t: int, bidirectional: bool)
    requires 0 <= f < |adj| && 0 <= t < |adj|
    ensures var r := TotalDegree(WithEdge(adj, f, t, bidirectional));
      && (t in adj[f] && (!bidirectional || f in adj[t]) ==> r == TotalDegree(adj))
      && (!bidirectional && t !in adj[f] ==> r == TotalDegree(adj) + 1)
      && (bidirectional && t !in adj[f] && f !in adj[t] && f != t ==> r == TotalDegree(adj) + 2)
      && (bidirectional && f == t && t !in adj[f] ==> r == TotalDegree(adj) + 1)
      && (bidirectional && t in adj[f] && f !in adj[t] ==> r == TotalDegree(adj) + 2)
      && (bidirectional && t !in adj[f] && f !in adj[t] ==> WithEdge(adj, f, t, bidirectional)[f] == adj[f] + [t])
  {
    if !(t in adj[f] && (!bidirectional || f in adj[t])) {
      var once := Append(adj, f, t);
      AppendCount(adj, f, t);
      if bidirectional && f !in once[t] {
        AppendCount(once, t, f);
      }
    }
  }

  lemma {:induction false} AllEdgesLength(adj: seq<seq<int>>, upTo: nat)
    requires upTo <= |adj|
    ensures |AllEdges(adj, upTo)| == TotalDegree(adj[..upTo])
  {
    if upTo > 0 {
      AllEdgesLength(adj, upTo - 1);
      assert adj[..upTo][..upTo - 1] == adj[..upTo - 1];
    }
  }

  /**
   * The full traversal lists every edge record exactly as the chains hold
   * them: it has one entry per record, node 0's edges first, and an edge
   * appears in it exactly when it is in the edge relation.
   */
  lemma {:induction false} AllEdgesFacts(adj: seq<seq<int>>, upTo: nat)
    requires upTo <= |adj|
    ensures var es := AllEdges(adj, upTo);
      && (forall i, j :: 0 <= i < j < |es| ==> es[i].from <= es[j].from)
      && (forall i :: 0 <= i < |es| ==> 0 <= es[i].from < upTo && es[i].to in adj[es[i].from])
      && (forall f, t :: 0 <= f < upTo && t in adj[f] ==> Edge(f, t) in es)
  {
    if upTo > 0 {
      AllEdgesFacts(adj, upTo - 1);
      var prev := AllEdges(adj, upTo - 1);
      var out := OutEdges(adj, upTo - 1);
      var es := prev + out;
      assert es == AllEdges(adj, upTo);
      forall i, j | 0 <= i < j < |es| ensures es[i].from <= es[j].from {
        if j >= |prev| {
          assert es[j] == out[j - |prev|];
        }
      }
      forall f, t | 0 <= f < upTo && t in adj[f] ensures Edge(f, t) in es {
        if f == upTo - 1 {
          var k :| 0 <= k < |adj[f]| && adj[f][k] == t;
          assert es[|prev| + k] == Edge(f, t);
        } else {
          assert Edge(f, t) in prev;
        }
      }
    }
  }

  // ---------------------------------------------------------------------
  // The chains threaded through the edge pool.
  // ---------------------------------------------------------------------

  /** The head/tail pair of a chain of edge indices. */
  function LimitOf(chain: seq<int>): NodeLimit
  {
    if chain == [] then NodeLimit(-1, -1) else NodeLimit(chain[0], chain[|chain| - 1])
  }

  /** Edge `k` of node `n`'s chain is a record of the pool holding the k-th target and pointing to the next edge. */
  ghost predicate LinkOk(conns: seq<NodeConnection>, adj: seq<seq<int>>, chain: seq<seq<int>>,
                         source: seq<int>, place: seq<int>, n: int, k: int)
    requires 0 <= n < |chain| && n < |adj| && 0 <= k < |chain[n]| && |chain[n]| == |adj[n]|
  {
    var i := chain[n][k];
    && 0 <= i < |conns| && i < |source| && i < |place|
    && source[i] == n
    && place[i] == k
    && conns[i] == NodeConnection(adj[n][k], if k + 1 < |chain[n]| then chain[n][k + 1] else -1)
  }

  /**
   * `chain[n]` lists the pool indices of node `n`'s edges: it starts at
   * `lims[n].head`, each record's `next` is the following index, the last
   * is `lims[n].tail` and its `next` is -1, and the records hold `adj[n]`
   * in order. `source`/`place` say which chain, and where in it, each pool
   * index sits, so no index is shared by two positions.
   */
  ghost predicate Threaded(lims: seq<NodeLimit>, conns: seq<NodeConnection>, adj: seq<seq<int>>,
                           chain: seq<seq<int>>, source: seq<int>, place: seq<int>)
  {
    && |lims| == |adj| && |chain| == |adj|
    && |source| == |conns| && |place| == |conns|
    && (forall n :: 0 <= n < |chain| ==> |chain[n]| == |adj[n]| && lims[n] == LimitOf(chain[n]))
    && (forall n, k :: 0 <= n < |chain| && 0 <= k < |chain[n]| ==> LinkOk(conns, adj, chain, source, place, n, k))
  }

  /** Appending a record and linking it behind the old tail keeps every chain threaded. */
  lemma ThreadedAppend(lims: seq<NodeLimit>, conns: seq<NodeConnection>, adj: seq<seq<int>>,
                       chain: seq<seq<int>>, source: seq<int>, place: seq<int>, f: int, t: int)
    requires Threaded(lims, conns, adj, chain, source, place) && 0 <= f < |adj|
    ensures lims[f].head == -1 <==> chain[f] == []
    ensures lims[f].head != -1 ==> 0 <= lims[f].tail < |conns|
    ensures var e := |conns|;
      var pushed := conns + [NodeConnection(t, -1)];
      var linked := if lims[f].head == -1 then pushed
                    else pushed[lims[f].tail := pushed[lims[f].tail].(next := e)];
      Threaded(lims[f := LimitOf(chain[f] + [e])], linked, Append(adj, f, t),
                  chain[f := chain[f] + [e]], source + [f], place + [|chain[f]|])
  {
    var e := |conns|;
    if chain[f] != [] {
      assert LinkOk(conns, adj, chain, source, place, f, 0);
      assert LinkOk(conns, adj, chain, source, place, f, |chain[f]| - 1);
    } else {
      assert lims[f] == NodeLimit(-1, -1);
    }
    var pushed := conns + [NodeConnection(t, -1)];
    var linked := if lims[f].head == -1 then pushed
                  else pushed[lims[f].tail := pushed[lims[f].tail].(next := e)];
    var adj' := Append(adj, f, t);
    var chain' := chain[f := chain[f] + [e]];
    var source' := source + [f];
    var place' := place + [|chain[f]|];
    forall n, k | 0 <= n < |chain'| && 0 <= k < |chain'[n]|
      ensures LinkOk(linked, adj', chain', source', place', n, k)
    {
      if n == f && k == |chain[f]| {
        assert chain'[n][k] == e;
      } else {
        assert chain'[n][k] == chain[n][k];
        assert LinkOk(conns, adj, chain, source, place, n, k);
        var i := chain[n][k];
        if chain[f] != [] && i == lims[f].tail {
          assert LinkOk(conns, adj, chain, source, place, f, |chain[f]| - 1);
          assert n == f && k == |chain[f]| - 1;
        } else {
          assert linked[i] == conns[i];
        }
      }
    }
  }

  // ---------------------------------------------------------------------
  // The Graph class.
  // ---------------------------------------------------------------------

  class Graph {
    /** Number of nodes, fixed at construction. */
    const nodes: nat
    /** Capacity hint for the edge pool. */
    var edgeCapacity: int
    /** Head and tail edge index of every node. */
    const limits: array<NodeLimit>
    /** The edge pool. */
    var connections: seq<NodeConnection>

    /** Abstract view: the targets of every node's chain, in insertion order. */
    ghost var Adj: seq<seq<int>>
    /** The edge indices of every node's chain, in chain order. */
    ghost var Chain: seq<seq<int>>
    /** For every edge index: the node whose chain holds it, and its place in that chain. */
    ghost var Source: seq<int>
    ghost var Place: seq<int>

    /**
     * The linked-list-in-an-array invariant: each node's chain starts at
     * `head`, follows `next`, visits the node's targets in insertion order,
     * ends at `tail` and then at -1; an empty chain has head and tail -1.
     */
    ghost predicate Valid()
      reads this, limits
    {
      && limits.Length == nodes
      && |Adj| == nodes
      && TotalDegree(Adj) == |connections|
      && TargetsInRange(Adj)
      && Threaded(limits[..], connections, Adj, Chain, Source, Place)
    }

    /** The directed edge relation. */
    ghost function EdgeSet(): set<(int, int)>
      reads this
    {
      EdgesOf(Adj)
    }

    /** What `Valid` says about the limits of node `n`. */
    lemma LimitAt(n: int)
      requires Valid() && 0 <= n < nodes
      ensures |Chain[n]| == |Adj[n]| && limits[n] == LimitOf(Chain[n])
      ensures forall k :: 0 <= k < |Chain[n]| ==> 0 <= Chain[n][k] < |connections|
    {
      assert limits[..][n] == limits[n];
      forall k | 0 <= k < |Chain[n]| ensures 0 <= Chain[n][k] < |connections| {
        assert LinkOk(connections, Adj, Chain, Source, Place, n, k);
      }
    }

    /** What `Valid` says about position `k` of node `n`'s chain. */
    lemma ChainAt(n: int, k: int)
      requires Valid() && 0 <= n < nodes && 0 <= k < |Chain[n]|
      ensures 0 <= Chain[n][k] < |connections|
      ensures connections[Chain[n][k]]
           == NodeConnection(Adj[n][k], if k + 1 < |Chain[n]| then Chain[n][k + 1] else -1)
    {
      assert LinkOk(connections, Adj, Chain, Source, Place, n, k);
    }

    constructor (nodes: nat, edgeCapacity: int)
      ensures Valid() && fresh(limits)
      ensures this.nodes == nodes && this.edgeCapacity == edgeCapacity
      ensures connections == [] && Adj == seq(nodes, _ => [])
      ensures forall n :: 0 <= n < nodes ==> limits[n] == NodeLimit(-1, -1)
      ensures EdgeSet() == {}
    {
      this.nodes := nodes;
      this.edgeCapacity := edgeCapacity;
      limits := new NodeLimit[nodes](_ => NodeLimit(-1, -1));
      connections := [];
      Adj := seq(nodes, _ => []);
      Chain := seq(nodes, _ => []);
      Source := [];
      Place := [];
      new;
      TotalDegreeEmpty(nodes);
      assert forall n :: 0 <= n < nodes ==> Adj[n] == [];
    }

    /** The node count given at construction. */
    function CountNodes(): (n: int)
      reads this, limits
      requires Valid()
      ensures n == |Adj| == limits.Length
    {
      nodes
    }

    /** The number of edge records; a bidirected edge counts as two. */
    function CountEdges(): (n: int)
      reads this, limits
      requires Valid()
      ensures n == TotalDegree(Adj)
    {
      |connections|
    }

    /** Grows the capacity hint when the pool is full; the edges themselves are untouched. */
    method ReserveIfNeeded()
      modifies this`edgeCapacity
      ensures edgeCapacity == if old(edgeCapacity) == |connections|
                              then old(edgeCapacity) * old(edgeCapacity) / 2
                              else old(edgeCapacity)
    {
      if edgeCapacity == |connections| {
        edgeCapacity := edgeCapacity * edgeCapacity / 2;
      }
    }

    /** Appends the record `from -> to` and links it behind the old tail of `from`. */
    method AppendEdge(from: int, to: int)
      requires Valid() && 0 <= from < nodes && 0 <= to < nodes
      modifies this, limits
      ensures Valid()
      ensures Adj == Append(old(Adj), from, to)
      ensures |connections| == old(|connections|) + 1
      ensures edgeCapacity == old(edgeCapacity)
    {
      AppendCount(Adj, from, to);
      AppendTargets(Adj, from, to);
      ThreadedAppend(limits[..], connections, Adj, Chain, Source, Place, from, to);
      var edge := |connections|;
      var pushed := connections + [NodeConnection(to, -1)];
      var limit := limits[from];
      if limit.head == -1 {
        limit := limit.(head := edge);
      } else {
        pushed := pushed[limit.tail := pushed[limit.tail].(next := edge)];
      }
      limit := limit.(tail := edge);
      assert limit == LimitOf(Chain[from] + [edge]);
      ghost var oldLimits := limits[..];
      limits[from] := limit;
      assert limits[..] == oldLimits[from := limit];
      connections := pushed;
      Source := Source + [from];
      Place := Place + [|Chain[from]|];
      Chain := Chain[from := Chain[from] + [edge]];
      Adj := Append(Adj, from, to);
    }

    /**
     * Connects `from` to `to` (and back when `bidirectional`), skipping
     * directions that already exist. Endpoints outside the graph are
     * refused with `OutOfRange`, after the capacity check has run.
     */
    method Connect(from: int, to: int, bidirectional: bool := true) returns (status: Status)
      requires Valid()
      modifies this, limits
      decreases if bidirectional then 1 else 0
      ensures Valid()
      ensures status == if ConnectRejects(nodes, from, to) then Failed(OutOfRange) else Done
      ensures status.Failed? ==> Adj == old(Adj) && connections == old(connections)
      ensures status.Done? ==> Adj == WithEdge(old(Adj), from, to, bidirectional)
      ensures status.Done? ==>
        EdgeSet() == old(EdgeSet()) + {(from, to)} + (if bidirectional then {(to, from)} else {})
      ensures |connections| >= old(|connections|)
    {
      ReserveIfNeeded();
      if from < 0 || from >= nodes {
        return Failed(OutOfRange);
      }
      if to < 0 || to >= nodes {
        return Failed(OutOfRange);
      }
      WithEdgeEdges(Adj, from, to, bidirectional);
      var there := NodesAreConnected(from, to);
      if there {
        if !bidirectional {
          return Done;
        }
        var back := NodesAreConnected(to, from);
        if back {
          return Done;
        }
      }
      AppendEdge(from, to);
      if bidirectional {
        var _ := Connect(to, from, false);
      }
      return Done;
    }

    /** `connect(from, to, true)`. */
    method BidirectedConnect(from: int, to: int) returns (status: Status)
      requires Valid()
      modifies this, limits
      ensures Valid()
      ensures status == if ConnectRejects(nodes, from, to) then Failed(OutOfRange) else Done
      ensures status.Failed? ==> Adj == old(Adj) && connections == old(connections)
      ensures status.Done? ==> Adj == WithEdge(old(Adj), from, to, true)
      ensures status.Done? ==> EdgeSet() == old(EdgeSet()) + {(from, to), (to, from)}
    {
      status := Connect(from, to, true);
    }

    /** `connect(from, to, false)`. */
    method DirectedConnect(from: int, to: int) returns (status: Status)
      requires Valid()
      modifies this, limits
      ensures Valid()
      ensures status == if ConnectRejects(nodes, from, to) then Failed(OutOfRange) else Done
      ensures status.Failed? ==> Adj == old(Adj) && connections == old(connections)
      ensures status.Done? ==> Adj == WithEdge(old(Adj), from, to, false)
      ensures status.Done? ==> EdgeSet() == old(EdgeSet()) + {(from, to)}
    {
      status := Connect(from, to, false);
    }

    /** Whether `to` is a direct successor of `from`; false for endpoints outside the graph. */
    method NodesAreConnected(from: int, to: int) returns (connected: bool)
      requires Valid()
      ensures connected <==> 0 <= from < nodes && 0 <= to < nodes && to in Adj[from]
      ensures connected <==> (from, to) in EdgeSet() && 0 <= to < nodes
    {
      if from < 0 || from >= nodes || to < 0 || to >= nodes {
        return false;
      }
      LimitAt(from);
      var i := limits[from].head;
      ghost var k := 0;
      while i != -1
        invariant 0 <= k <= |Chain[from]|
        invariant i == if k < |Chain[from]| then Chain[from][k] else -1
        invariant to !in Adj[from][..k]
        decreases |Chain[from]| - k
      {
        ChainAt(from, k);
        if connections[i].target == to {
          return true;
        }
        assert Adj[from][..k + 1] == Adj[from][..k] + [Adj[from][k]];
        i := connections[i].next;
        k := k + 1;
      }
      assert Adj[from][..k] == Adj[from];
      return false;
    }

    /** The edges leaving `node`, in the order they were inserted. */
    method ForEachEdgeFrom(node: int) returns (edges: seq<Edge>)
      requires Valid() && 0 <= node < nodes
      ensures edges == OutEdges(Adj, node)
    {
      LimitAt(node);
      edges := [];
      var edge := limits[node].head;
      ghost var k := 0;
      while edge != -1
        invariant 0 <= k <= |Chain[node]|
        invariant edge == if k < |Chain[node]| then Chain[node][k] else -1
        invariant edges == OutEdges(Adj, node)[..k]
        decreases |Chain[node]| - k
      {
        ChainAt(node, k);
        edges := edges + [Edge(node, connections[edge].target)];
        edge := connections[edge].next;
        k := k + 1;
      }
    }

    /** Every edge of the graph, node 0's first, each node's in insertion order. */
    method ForEachEdge() returns (edges: seq<Edge>)
      requires Valid()
      ensures edges == AllEdges(Adj, nodes)
      ensures |edges| == CountEdges()
    {
      edges := [];
      for node := 0 to nodes
        invariant edges == AllEdges(Adj, node)
      {
        var out := ForEachEdgeFrom(node);
        edges := edges + out;
      }
      AllEdgesLength(Adj, nodes);
      assert Adj[..nodes] == Adj;
    }
  }
}
