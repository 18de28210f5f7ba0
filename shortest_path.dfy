/** The shortest-path view: nodes are placed by clicking, directed edges by
    dragging from one node to another, and the search computes from the
    first node placed a distance for every node, leaving back pointers
    along the shortest paths it found. */
module ShortestPath {
  import opened Optional
  import opened GraphModel
  import opened DijkstraSpec

  /** The radius every node is drawn with. */
  const Radius := 10

  /** Whether the point (x, y) lies strictly inside the circle of node `n`. */
  predicate Inside(n: Node, x: int, y: int)
    ensures x == n.x && y == n.y && n.radius != 0 ==> Inside(n, x, y)
    ensures Inside(n, x, y) ==> (n.x - x) * (n.x - x) < n.radius * n.radius && (n.y - y) * (n.y - y) < n.radius * n.radius
  {
    (n.x - x) * (n.x - x) + (n.y - y) * (n.y - y) < n.radius * n.radius
  }

  function SquaredDistance(a: Node, b: Node): int {
    (a.x - b.x) * (a.x - b.x) + (a.y - b.y) * (a.y - b.y)
  }

  /** Node ids, edge ends and radii stay as they were; visiting only grows,
      and a node visited before keeps its back pointer. */
  ghost predicate Preserved(before: seq<Node>, after: seq<Node>) {
    |after| == |before| &&
    forall v :: 0 <= v < |before| ==>
      after[v].id == before[v].id && after[v].x == before[v].x && after[v].y == before[v].y &&
      after[v].radius == before[v].radius && (before[v].visited ==> after[v].visited && after[v].prev == before[v].prev)
  }

  /** The nearest id of `toVisit`; among equally near ids, the last one. */
  method FindMinimum(distances: seq<Dist>, toVisit: seq<nat>) returns (idToVisit: int, ghost at: nat)
    requires forall k :: 0 <= k < |toVisit| ==> toVisit[k] < |distances|
    ensures toVisit == [] ==> idToVisit == -1
    ensures toVisit != [] ==>
      at < |toVisit| && idToVisit == toVisit[at] &&
      (forall k :: 0 <= k < |toVisit| ==> Le(distances[idToVisit], distances[toVisit[k]])) &&
      (forall k :: at < k < |toVisit| ==> Lt(distances[idToVisit], distances[toVisit[k]]))
  {
    var minDistance := Inf;
    idToVisit, at := -1, 0;
    for k := 0 to |toVisit|
      invariant k == 0 ==> idToVisit == -1 && minDistance == Inf
      invariant k > 0 ==> at < k && idToVisit == toVisit[at] && minDistance == distances[idToVisit]
      invariant forall i :: 0 <= i < k ==> Le(minDistance, distances[toVisit[i]])
      invariant forall i :: at < i < k ==> Lt(minDistance, distances[toVisit[i]])
    {
      var id := toVisit[k];
      if Le(distances[id], minDistance) {
        minDistance := distances[id];
        idToVisit, at := id, k;
      }
    }
  }

  /** The distances the search starts from: 0 for the first node, `Infinity`
      for every other. */
  method InitialDistances(nodes: seq<Node>) returns (distances: seq<Dist>)
    ensures |distances| == |nodes| && Initial(distances)
  {
    distances := [];
    for i := 0 to |nodes|
      invariant |distances| == i && Initial(distances)
    {
      if i == 0 {
        distances := distances + [Fin(0.0)];
      } else {
        distances := distances + [Inf];
      }
    }
  }

  /** One settle step keeps what `Preserved` keeps. */
  lemma StepPreserves(before: seq<Node>, after: seq<Node>, edges: seq<Edge>, dist0: seq<Dist>, dist1: seq<Dist>, c: nat)
    requires c < |before| && Relaxed(Visit(before, c), after, edges, dist0, dist1, c, |edges|)
    ensures Preserved(before, after)
    ensures after[c].visited && forall v :: 0 <= v < |before| ==> (after[v].visited <==> before[v].visited || v == c)
  {
    var visited := Visit(before, c);
    forall v | 0 <= v < |before| && before[v].visited
      ensures after[v].prev == before[v].prev
    {
      assert Kept(visited, after, dist0, dist1, v) || Improved(visited, after, edges, dist0, dist1, c, |edges|, v);
    }
  }

  lemma PreservedTrans(a: seq<Node>, b: seq<Node>, c: seq<Node>)
    requires Preserved(a, b) && Preserved(b, c)
    ensures Preserved(a, c)
  {
  }

  /** What holds between rounds of the search: `start` is the node list
      before the search, `order` the ids visited so far, `toVisit` the
      others in ascending order; when the graph was `untouched` before, the
      invariant of a search on a fresh graph holds as well. */
  ghost predicate Progress(start: seq<Node>, nodes: seq<Node>, edges: seq<Edge>, distances: seq<Dist>,
                           toVisit: seq<nat>, order: seq<nat>, untouched: bool)
  {
    Preserved(start, nodes) && |distances| == |nodes| &&
    Ascending(toVisit) && (forall k :: 0 <= k < |toVisit| ==> toVisit[k] < |nodes|) &&
    (forall v :: 0 <= v < |nodes| ==> (v in order <==> v !in toVisit)) &&
    (forall v :: v in order ==> v < |nodes| && nodes[v].visited) &&
    |order| + |toVisit| == |nodes| &&
    (forall i, j :: 0 <= i < j < |order| ==> order[i] != order[j]) &&
    (order == [] ==> Initial(distances)) &&
    (|order| > 0 ==> order[0] == 0) &&
    (untouched ==> RunInv(nodes, edges, distances) && forall v :: 0 <= v < |nodes| ==> (nodes[v].visited <==> v in order))
  }

  lemma ProgressStart(nodes: seq<Node>, edges: seq<Edge>, distances: seq<Dist>, toVisit: seq<nat>, untouched: bool)
    requires Initial(distances) && |distances| == |nodes| == |toVisit|
    requires forall v :: 0 <= v < |nodes| ==> nodes[v].id == v
    requires toVisit == seq(|nodes|, i requires 0 <= i < |nodes| => nodes[i].id)
    requires untouched ==> Fresh(nodes)
    ensures Progress(nodes, nodes, edges, distances, toVisit, [], untouched)
  {
    forall v | 0 <= v < |nodes| ensures v in toVisit {
      assert toVisit[v] == v;
    }
    if untouched {
      RunStart(nodes, edges, distances);
    }
  }

  /** The bookkeeping of one round: `current` leaves `toVisit` and joins `order`. */
  lemma OrderStep(toVisit0: seq<nat>, order0: seq<nat>, n: nat, current: nat, at: nat)
    requires Ascending(toVisit0) && (forall k :: 0 <= k < |toVisit0| ==> toVisit0[k] < n)
    requires forall v :: 0 <= v < n ==> (v in order0 <==> v !in toVisit0)
    requires forall v :: v in order0 ==> v < n
    requires |order0| + |toVisit0| == n
    requires forall i, j :: 0 <= i < j < |order0| ==> order0[i] != order0[j]
    requires at < |toVisit0| && toVisit0[at] == current
    ensures Ascending(Without(toVisit0, current))
    ensures forall k :: 0 <= k < |Without(toVisit0, current)| ==> Without(toVisit0, current)[k] < n
    ensures forall v :: 0 <= v < n ==> (v in order0 + [current] <==> v !in Without(toVisit0, current))
    ensures |order0 + [current]| + |Without(toVisit0, current)| == n
    ensures forall i, j :: 0 <= i < j < |order0 + [current]| ==> (order0 + [current])[i] != (order0 + [current])[j]
  {
    WithoutAscending(toVisit0, current);
    var toVisit := Without(toVisit0, current);
    forall k | 0 <= k < |toVisit| ensures toVisit[k] < n {
      assert toVisit[k] in toVisit;
    }
  }

  /** The first round settles the first node: it alone has a finite
      distance. */
  lemma FirstRound(toVisit0: seq<nat>, dist0: seq<Dist>, current: nat, at: nat)
    requires Ascending(toVisit0) && 0 in toVisit0 && Initial(dist0)
    requires forall k :: 0 <= k < |toVisit0| ==> toVisit0[k] < |dist0|
    requires at < |toVisit0| && toVisit0[at] == current
    requires forall k :: 0 <= k < |toVisit0| ==> Le(dist0[current], dist0[toVisit0[k]])
    ensures current == 0
  {
    var k :| 0 <= k < |toVisit0| && toVisit0[k] == 0;
    assert toVisit0[0] <= toVisit0[k];
    assert Le(dist0[current], dist0[toVisit0[0]]);
  }

  /** On an untouched graph, one round keeps the invariant of the search,
      and the visited nodes stay exactly those in `order`. */
  lemma UntouchedRound(before: seq<Node>, nodes: seq<Node>, edges: seq<Edge>, rank0: seq<nat>, clock0: nat,
                       dist0: seq<Dist>, distances: seq<Dist>, toVisit0: seq<nat>, order0: seq<nat>, current: nat, at: nat)
    requires Wf(before, edges, rank0, clock0) && RunInv(before, edges, dist0)
    requires forall v :: 0 <= v < |before| ==> (before[v].visited <==> v in order0)
    requires forall v :: 0 <= v < |before| ==> (v in order0 <==> v !in toVisit0)
    requires forall k :: 0 <= k < |toVisit0| ==> toVisit0[k] < |before|
    requires at < |toVisit0| && toVisit0[at] == current
    requires forall k :: 0 <= k < |toVisit0| ==> Le(dist0[current], dist0[toVisit0[k]])
    requires Relaxed(Visit(before, current), nodes, edges, dist0, distances, current, |edges|)
    ensures RunInv(nodes, edges, distances)
    ensures forall v :: 0 <= v < |nodes| ==> (nodes[v].visited <==> v in order0 + [current])
  {
    forall v | 0 <= v < |before| && !before[v].visited
      ensures Le(dist0[current], dist0[v])
    {
      var k :| 0 <= k < |toVisit0| && toVisit0[k] == v;
    }
    SettleKeepsRunInv(before, edges, rank0, clock0, dist0, current, nodes, distances);
    StepPreserves(before, nodes, edges, dist0, distances, current);
  }

  /** One round keeps `Progress`. */
  lemma ProgressStep(start: seq<Node>, before: seq<Node>, nodes: seq<Node>, edges: seq<Edge>, rank0: seq<nat>, clock0: nat,
                     dist0: seq<Dist>, distances: seq<Dist>, toVisit0: seq<nat>, order0: seq<nat>,
                     current: nat, at: nat, untouched: bool)
    requires Wf(before, edges, rank0, clock0)
    requires Progress(start, before, edges, dist0, toVisit0, order0, untouched)
    requires at < |toVisit0| && toVisit0[at] == current
    requires forall k :: 0 <= k < |toVisit0| ==> Le(dist0[current], dist0[toVisit0[k]])
    requires Relaxed(Visit(before, current), nodes, edges, dist0, distances, current, |edges|)
    ensures Progress(start, nodes, edges, distances, Without(toVisit0, current), order0 + [current], untouched)
  {
    OrderStep(toVisit0, order0, |before|, current, at);
    StepPreserves(before, nodes, edges, dist0, distances, current);
    PreservedTrans(start, before, nodes);
    if order0 == [] {
      assert 0 in toVisit0;
      FirstRound(toVisit0, dist0, current, at);
    }
    if untouched {
      UntouchedRound(before, nodes, edges, rank0, clock0, dist0, distances, toVisit0, order0, current, at);
    }
  }

  /** When no id is left to visit, every node is visited and, on an
      untouched graph, the distances are shortest path lengths. */
  lemma ProgressEnd(start: seq<Node>, nodes: seq<Node>, edges: seq<Edge>, rank: seq<nat>, clock: nat,
                    distances: seq<Dist>, order: seq<nat>, untouched: bool)
    requires Wf(nodes, edges, rank, clock)
    requires Progress(start, nodes, edges, distances, [], order, untouched)
    ensures forall v :: 0 <= v < |nodes| ==> nodes[v].visited && v in order
    ensures |order| == |nodes|
    ensures untouched ==>
      forall v, p :: 0 <= v < |nodes| && IsPath(edges, p, 0, v) ==> Le(distances[v], Fin(Length(p)))
    ensures untouched ==>
      forall v :: 0 <= v < |nodes| && distances[v].Fin? ==>
        IsPath(edges, PathTo(nodes, edges, rank, clock, v), 0, v) &&
        Length(PathTo(nodes, edges, rank, clock, v)) == distances[v].d
  {
    if untouched {
      forall v | 0 <= v < |nodes|
        ensures forall p :: IsPath(edges, p, 0, v) ==> Le(distances[v], Fin(Length(p)))
        ensures distances[v].Fin? ==>
          IsPath(edges, PathTo(nodes, edges, rank, clock, v), 0, v) &&
          Length(PathTo(nodes, edges, rank, clock, v)) == distances[v].d
      {
        RunResult(nodes, edges, rank, clock, distances, v);
      }
    }
  }

  class Graph {
    var nodes: seq<Node>
    var edges: seq<Edge>
    /** The order in which nodes were first visited, and the next number. */
    ghost var rank: seq<nat>
    ghost var clock: nat

    ghost predicate Valid()
      reads this
    {
      Wf(nodes, edges, rank, clock)
    }

    constructor ()
      ensures Valid() && nodes == [] && edges == []
    {
      nodes, edges := [], [];
      rank, clock := [], 0;
    }

    /** The first node, in placement order, whose circle holds (x, y). */
    method IsInACircle(x: int, y: int) returns (r: Option<nat>)
      ensures r.Some? ==> r.value < |nodes| && Inside(nodes[r.value], x, y)
      ensures r.Some? ==> forall i :: 0 <= i < r.value ==> !Inside(nodes[i], x, y)
      ensures r.None? ==> forall i :: 0 <= i < |nodes| ==> !Inside(nodes[i], x, y)
    {
      for i := 0 to |nodes|
        invariant forall k :: 0 <= k < i ==> !Inside(nodes[k], x, y)
      {
        if Inside(nodes[i], x, y) {
          return Some(i);
        }
      }
      return None;
    }

    /** Places a new unvisited node; its id is its position. */
    method MakeNode(x: int, y: int)
      requires Valid()
      modifies this
      ensures Valid() && edges == old(edges)
      ensures nodes == old(nodes) + [Node(|old(nodes)|, x, y, Radius, None, false)]
    {
      nodes := nodes + [Node(|nodes|, x, y, Radius, None, false)];
      rank := rank + [0];
      forall v | 0 <= v < |nodes|
        ensures PrevOk(nodes, edges, rank, clock, v)
      {
        if v < |old(nodes)| {
          assert PrevOk(old(nodes), edges, old(rank), clock, v);
        }
      }
    }

    /** Adds an edge from `n1` to `n2` when both are nodes and they differ.
        `w` is the Euclidean distance between them: its square is their
        squared distance. */
    method CreateEdge(n1: Option<nat>, n2: Option<nat>, w: real)
      requires Valid()
      requires n1.Some? ==> n1.value < |nodes|
      requires n2.Some? ==> n2.value < |nodes|
      requires n1.Some? && n2.Some? ==>
        w >= 0.0 && w * w == SquaredDistance(nodes[n1.value], nodes[n2.value]) as real
      modifies this
      ensures Valid() && nodes == old(nodes)
      ensures edges == if n1.Some? && n2.Some? && n1.value != n2.value
                       then old(edges) + [Edge(n1.value, n2.value, w)]
                       else old(edges)
    {
      if n1.Some? && n2.Some? && nodes[n1.value].id != nodes[n2.value].id {
        edges := edges + [Edge(nodes[n1.value].id, nodes[n2.value].id, w)];
        forall v | 0 <= v < |nodes|
          ensures PrevOk(nodes, edges, rank, clock, v)
        {
          assert PrevOk(nodes, old(edges), rank, clock, v);
        }
      }
    }

    /** The back pointers followed from `n`: the edges of the chain into
        `n`, from `n` back toward where the chain starts. */
    method GetBackEdges(n: nat) returns (backEdges: seq<Edge>)
      requires Valid() && n < |nodes|
      ensures backEdges == Reverse(PathTo(nodes, edges, rank, clock, n))
    {
      var current: nat := n;
      backEdges := [];
      while nodes[current].prev.Some?
        invariant current < |nodes|
        invariant Reverse(PathTo(nodes, edges, rank, clock, n)) == backEdges + Reverse(PathTo(nodes, edges, rank, clock, current))
        decreases Measure(nodes, rank, clock, current)
      {
        assert PrevOk(nodes, edges, rank, clock, current);
        var e := edges[nodes[current].prev.value];
        ghost var p := PathTo(nodes, edges, rank, clock, e.start);
        assert (p + [e])[..|p|] == p;
        backEdges := backEdges + [e];
        current := e.start;
      }
    }

    /** Marks the node with id `current` visited. */
    method MarkVisited(current: nat)
      requires Valid() && current < |nodes|
      modifies this
      ensures Valid() && edges == old(edges)
      ensures nodes == Visit(old(nodes), current)
    {
      for i := 0 to |nodes|
        invariant Valid() && edges == old(edges)
        invariant nodes == if i <= current then old(nodes) else Visit(old(nodes), current)
      {
        if nodes[i].id == current {
          VisitKeepsWf(nodes, edges, rank, clock, i);
          if !nodes[i].visited {
            rank, clock := rank[i := clock], clock + 1;
          }
          nodes := nodes[i := nodes[i].(visited := true)];
        }
      }
    }

    /** Relaxes every edge out of `current` into an unvisited node, in edge
        order: a strictly shorter distance replaces the old one and the
        edge becomes the node's back pointer. */
    method Relax(current: nat, distances: seq<Dist>) returns (updated: seq<Dist>)
      requires Valid() && current < |nodes| == |distances| && nodes[current].visited
      modifies this
      ensures Valid() && edges == old(edges) && rank == old(rank) && clock == old(clock)
      ensures Relaxed(old(nodes), nodes, edges, distances, updated, current, |edges|)
    {
      updated := distances;
      RelaxStart(nodes, edges, distances, current);
      for k := 0 to |edges|
        invariant Valid() && edges == old(edges) && rank == old(rank) && clock == old(clock)
        invariant Relaxed(old(nodes), nodes, edges, distances, updated, current, k)
      {
        var edge := edges[k];
        if edge.start == current && !nodes[edge.end].visited {
          var newDistance := Add(updated[current], edge.w);
          if Lt(newDistance, updated[edge.end]) {
            RelaxTake(old(nodes), nodes, edges, distances, updated, current, k);
            TakeKeepsWf(nodes, edges, rank, clock, k);
            updated := updated[edge.end := newDistance];
            nodes := nodes[edge.end := nodes[edge.end].(prev := Some(k))];
          } else {
            RelaxSkip(old(nodes), nodes, edges, distances, updated, current, k);
          }
        } else {
          RelaxSkip(old(nodes), nodes, edges, distances, updated, current, k);
        }
      }
    }

    /** The search from the first node placed. Every node is visited once,
        nearest first, and the edges out of it relaxed. On a graph no search
        has touched yet, the resulting distance of each node is the length
        of a shortest directed path to it from the first node (`Infinity`
        when there is none), and its back-pointer chain is such a path. */
    method Dijkstra() returns (distances: seq<Dist>, ghost order: seq<nat>)
      requires Valid()
      modifies this
      ensures Valid() && edges == old(edges) && Preserved(old(nodes), nodes)
      ensures |distances| == |nodes| && forall v :: 0 <= v < |nodes| ==> nodes[v].visited
      ensures |order| == |nodes| && (forall v :: 0 <= v < |nodes| ==> v in order)
      ensures forall i, j :: 0 <= i < j < |order| ==> order[i] != order[j]
      ensures |nodes| > 0 ==> order[0] == 0
      ensures old(Fresh(nodes)) ==>
        forall v, p :: 0 <= v < |nodes| && IsPath(edges, p, 0, v) ==> Le(distances[v], Fin(Length(p)))
      ensures old(Fresh(nodes)) ==>
        forall v :: 0 <= v < |nodes| && distances[v].Fin? ==>
          IsPath(edges, PathTo(nodes, edges, rank, clock, v), 0, v) &&
          Length(PathTo(nodes, edges, rank, clock, v)) == distances[v].d
    {
      ghost var untouched := Fresh(nodes);
      distances := InitialDistances(nodes);
      var toVisit: seq<nat> := seq(|nodes|, i requires 0 <= i < |nodes| reads this => nodes[i].id);
      order := [];
      ProgressStart(nodes, edges, distances, toVisit, untouched);
      while |toVisit| > 0
        invariant Valid() && edges == old(edges)
        invariant Progress(old(nodes), nodes, edges, distances, toVisit, order, untouched)
        decreases |toVisit|
      {
        var idToVisit, at := FindMinimum(distances, toVisit);
        if idToVisit == -1 {
          assert false;
        }
        var current: nat := idToVisit;
        ghost var before, dist0, rank0, clock0, toVisit0, order0 := nodes, distances, rank, clock, toVisit, order;

        MarkVisited(current);
        toVisit := Without(toVisit, current);
        distances := Relax(current, distances);
        order := order + [current];

        ProgressStep(old(nodes), before, nodes, edges, rank0, clock0, dist0, distances, toVisit0, order0, current, at, untouched);
      }
      ProgressEnd(old(nodes), nodes, edges, rank, clock, distances, order, untouched);
    }
  }
}
