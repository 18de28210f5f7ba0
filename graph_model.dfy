/** Values of the shortest-path view: nodes placed on the canvas, directed
    edges between them, tentative distances, and the chains of back
    pointers (`prev`) that the search leaves behind. */
module GraphModel {
  import opened Optional

  /** A drawn node. Its `id` is its position in the node list; `prev` is
      the index of the edge that last improved its distance. */
  datatype Node = Node(id: nat, x: int, y: int, radius: int, prev: Option<nat>, visited: bool)

  /** A directed edge from node `start` to node `end`, with its drawn length. */
  datatype Edge = Edge(start: nat, end: nat, w: real)

  /** A tentative distance: a finite number or `Infinity`. */
  datatype Dist = Fin(d: real) | Inf

  /** `a <= b` on distances, where `Infinity <= Infinity` holds. The order
      is total and is the negation of `>`: `a <= b` exactly when not `b < a`. */
  predicate Le(a: Dist, b: Dist)
    ensures a == b ==> Le(a, b)
    ensures Le(a, b) <==> !Lt(b, a)
  {
    b.Inf? || (a.Fin? && a.d <= b.d)
  }

  /** `a < b` on distances: it is irreflexive and `Infinity` is below nothing. */
  predicate Lt(a: Dist, b: Dist)
    ensures Lt(a, b) ==> a != b && a.Fin?
  {
    a.Fin? && (b.Inf? || a.d < b.d)
  }

  /** `a + w`, where `Infinity + w` is `Infinity`; a non-negative weight
      never makes a distance smaller. */
  function Add(a: Dist, w: real): (r: Dist)
    ensures r.Inf? <==> a.Inf?
    ensures w >= 0.0 ==> Le(a, r)
  {
    if a.Inf? then Inf else Fin(a.d + w)
  }

  // ---------------------------------------------------------------------------
  // Well-formed graphs

  /** Every edge joins two existing, distinct nodes and has a non-negative weight. */
  ghost predicate EdgesWithin(n: nat, edges: seq<Edge>) {
    forall j :: 0 <= j < |edges| ==>
      edges[j].start < n && edges[j].end < n && edges[j].start != edges[j].end && edges[j].w >= 0.0
  }

  /** The position a node's back-pointer chain is measured by: its visiting
      rank once visited, and `clock` (larger than every such rank) before. */
  function Measure(nodes: seq<Node>, rank: seq<nat>, clock: nat, v: nat): nat
    requires v < |nodes| == |rank|
  {
    if nodes[v].visited then rank[v] else clock
  }

  /** The back pointer of node `v`, if any, is an edge into `v` from a
      visited node that was visited before `v`. */
  ghost predicate PrevOk(nodes: seq<Node>, edges: seq<Edge>, rank: seq<nat>, clock: nat, v: nat)
    requires v < |nodes| == |rank|
  {
    nodes[v].prev.Some? ==>
      var e := nodes[v].prev.value;
      e < |edges| && edges[e].end == v && edges[e].start < |nodes| &&
      nodes[edges[e].start].visited && rank[edges[e].start] < Measure(nodes, rank, clock, v)
  }

  /** The invariant of the node and edge lists: ids are positions, edges
      stay within the graph, and back pointers lead to nodes visited
      earlier (`rank` numbers the visits; `clock` is the next number). */
  ghost predicate Wf(nodes: seq<Node>, edges: seq<Edge>, rank: seq<nat>, clock: nat) {
    |rank| == |nodes| &&
    (forall i :: 0 <= i < |nodes| ==> nodes[i].id == i) &&
    EdgesWithin(|nodes|, edges) &&
    (forall v :: 0 <= v < |nodes| && nodes[v].visited ==> rank[v] < clock) &&
    (forall v :: 0 <= v < |nodes| ==> PrevOk(nodes, edges, rank, clock, v))
  }

  /** Following the back pointers from `v` ends at a node without one. */
  ghost function Root(nodes: seq<Node>, edges: seq<Edge>, rank: seq<nat>, clock: nat, v: nat): (r: nat)
    requires Wf(nodes, edges, rank, clock) && v < |nodes|
    ensures r < |nodes| && nodes[r].prev.None?
    decreases Measure(nodes, rank, clock, v)
  {
    assert PrevOk(nodes, edges, rank, clock, v);
    if nodes[v].prev.None? then v
    else Root(nodes, edges, rank, clock, edges[nodes[v].prev.value].start)
  }

  /** The edges of the back-pointer chain ending at `v`, in forward order. */
  ghost function PathTo(nodes: seq<Node>, edges: seq<Edge>, rank: seq<nat>, clock: nat, v: nat): seq<Edge>
    requires Wf(nodes, edges, rank, clock) && v < |nodes|
    decreases Measure(nodes, rank, clock, v)
  {
    assert PrevOk(nodes, edges, rank, clock, v);
    if nodes[v].prev.None? then []
    else
      var e := edges[nodes[v].prev.value];
      PathTo(nodes, edges, rank, clock, e.start) + [e]
  }

  // ---------------------------------------------------------------------------
  // Directed paths

  /** `p` is a sequence of edges of the graph leading from `s` to `t`. */
  ghost predicate IsPath(edges: seq<Edge>, p: seq<Edge>, s: nat, t: nat)
    decreases |p|
  {
    if p == [] then s == t
    else p[|p| - 1] in edges && p[|p| - 1].end == t && IsPath(edges, p[..|p| - 1], s, p[|p| - 1].start)
  }

  /** The total weight of a path. */
  ghost function Length(p: seq<Edge>): real
    decreases |p|
  {
    if p == [] then 0.0 else Length(p[..|p| - 1]) + p[|p| - 1].w
  }

  function Reverse<T>(s: seq<T>): (r: seq<T>)
    ensures |r| == |s| && forall i :: 0 <= i < |s| ==> r[i] == s[|s| - 1 - i]
  {
    if s == [] then [] else [s[|s| - 1]] + Reverse(s[..|s| - 1])
  }

  /** The back-pointer chain of `v` is a path of the graph from its root to `v`. */
  lemma {:induction false} PathToIsPath(nodes: seq<Node>, edges: seq<Edge>, rank: seq<nat>, clock: nat, v: nat)
    requires Wf(nodes, edges, rank, clock) && v < |nodes|
    ensures IsPath(edges, PathTo(nodes, edges, rank, clock, v), Root(nodes, edges, rank, clock, v), v)
    decreases Measure(nodes, rank, clock, v)
  {
    assert PrevOk(nodes, edges, rank, clock, v);
    if nodes[v].prev.Some? {
      var e := edges[nodes[v].prev.value];
      PathToIsPath(nodes, edges, rank, clock, e.start);
      var p := PathTo(nodes, edges, rank, clock, e.start);
      assert (p + [e])[..|p|] == p;
    }
  }

  /** Distances satisfying the triangle inequality along every edge, and 0
      at the source, are below the length of every path from the source. */
  lemma {:induction false} BelowEveryPath(edges: seq<Edge>, dist: seq<Dist>, source: nat, p: seq<Edge>, t: nat)
    requires source < |dist| && dist[source] == Fin(0.0)
    requires forall j :: 0 <= j < |edges| ==>
      edges[j].start < |dist| && edges[j].end < |dist| && Le(dist[edges[j].end], Add(dist[edges[j].start], edges[j].w))
    requires IsPath(edges, p, source, t) && t < |dist|
    ensures Le(dist[t], Fin(Length(p)))
    decreases |p|
  {
    if p != [] {
      var e := p[|p| - 1];
      var j :| 0 <= j < |edges| && edges[j] == e;
      BelowEveryPath(edges, dist, source, p[..|p| - 1], e.start);
    }
  }
}
