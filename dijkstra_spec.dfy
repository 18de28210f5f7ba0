/** What one round of the search does to the values of the graph, and the
    facts that hold between rounds of a search started on a fresh graph:
    from them, the settled distances are shortest path lengths. */
module DijkstraSpec {
  import opened Optional
  import opened GraphModel

  // ---------------------------------------------------------------------------
  // The set of ids still to visit, kept in insertion (ascending) order

  ghost predicate Ascending(t: seq<nat>) {
    forall i, j :: 0 <= i < j < |t| ==> t[i] < t[j]
  }

  /** `t` with `c` deleted, order kept. */
  function Without(t: seq<nat>, c: nat): (r: seq<nat>)
    ensures forall x :: x in r <==> x in t && x != c
    ensures c !in t ==> r == t
  {
    if t == [] then []
    else (if t[0] == c then [] else [t[0]]) + Without(t[1..], c)
  }

  lemma ConsAscending(x: nat, rest: seq<nat>)
    requires Ascending(rest) && forall i :: 0 <= i < |rest| ==> x < rest[i]
    ensures Ascending([x] + rest)
  {
  }

  /** Deleting from an ascending sequence keeps it ascending, and deleting
      a present element shortens it by one. */
  lemma {:induction false} WithoutAscending(t: seq<nat>, c: nat)
    requires Ascending(t)
    ensures Ascending(Without(t, c))
    ensures c in t ==> |Without(t, c)| == |t| - 1
  {
    if t != [] {
      var tail := t[1..];
      assert Ascending(tail);
      WithoutAscending(tail, c);
      var rest := Without(tail, c);
      assert Without(t, c) == (if t[0] == c then [] else [t[0]]) + rest;
      if t[0] == c {
        assert c !in tail by {
          forall i | 0 <= i < |tail| ensures tail[i] != c {
            assert t[0] < t[i + 1];
          }
        }
        assert Without(t, c) == rest == tail;
      } else {
        forall i | 0 <= i < |rest| ensures t[0] < rest[i] {
          assert rest[i] in tail;
        }
        ConsAscending(t[0], rest);
        assert c in t ==> c in tail;
      }
    }
  }

  // ---------------------------------------------------------------------------
  // Marking a node visited

  function Visit(nodes: seq<Node>, c: nat): (r: seq<Node>)
    requires c < |nodes|
    ensures |r| == |nodes| && r[c].visited
    ensures forall v :: 0 <= v < |nodes| && v != c ==> r[v] == nodes[v]
  {
    nodes[c := nodes[c].(visited := true)]
  }

  /** Visiting a node keeps the graph well formed; a node visited for the
      first time takes the next rank. */
  lemma VisitKeepsWf(nodes: seq<Node>, edges: seq<Edge>, rank: seq<nat>, clock: nat, c: nat)
    requires Wf(nodes, edges, rank, clock) && c < |nodes|
    ensures !nodes[c].visited ==> Wf(Visit(nodes, c), edges, rank[c := clock], clock + 1)
    ensures nodes[c].visited ==> Visit(nodes, c) == nodes
  {
    if !nodes[c].visited {
      var nodes', rank', clock' := Visit(nodes, c), rank[c := clock], clock + 1;
      forall v | 0 <= v < |nodes'|
        ensures PrevOk(nodes', edges, rank', clock', v)
      {
        assert PrevOk(nodes, edges, rank, clock, v);
      }
    }
  }

  // ---------------------------------------------------------------------------
  // Relaxing the edges out of the node just visited

  /** Node `v` kept its distance and its back pointer. */
  ghost predicate Kept(nodes0: seq<Node>, nodes1: seq<Node>, dist0: seq<Dist>, dist1: seq<Dist>, v: nat)
    requires v < |nodes0| == |nodes1| == |dist0| == |dist1|
  {
    dist1[v] == dist0[v] && nodes1[v].prev == nodes0[v].prev
  }

  /** Node `v` was unvisited and its distance went strictly down through an
      edge `j` (among the first `k`) out of `c`; its back pointer is the
      earliest edge from `c` to `v` that gives the new distance. */
  ghost predicate Improved(nodes0: seq<Node>, nodes1: seq<Node>, edges: seq<Edge>, dist0: seq<Dist>, dist1: seq<Dist>,
                           c: nat, k: nat, v: nat)
    requires c < |nodes0| && v < |nodes0| == |nodes1| == |dist0| == |dist1|
  {
    !nodes0[v].visited && nodes1[v].prev.Some? &&
    var j := nodes1[v].prev.value;
    j < k && j < |edges| && edges[j].start == c && edges[j].end == v &&
    dist1[v] == Add(dist0[c], edges[j].w) && Lt(dist1[v], dist0[v]) &&
    forall i :: 0 <= i < j && edges[i].start == c && edges[i].end == v ==> Lt(dist1[v], Add(dist0[c], edges[i].w))
  }

  /** The state after relaxing the first `k` edges out of `c`: only back
      pointers and distances change, each node is kept or improved, and no
      edge out of `c` into an unvisited node offers a shorter distance. */
  ghost predicate Relaxed(nodes0: seq<Node>, nodes1: seq<Node>, edges: seq<Edge>, dist0: seq<Dist>, dist1: seq<Dist>,
                          c: nat, k: nat)
  {
    c < |nodes0| && |nodes1| == |nodes0| == |dist0| == |dist1| && k <= |edges| &&
    (forall v :: 0 <= v < |nodes0| ==> nodes1[v] == nodes0[v].(prev := nodes1[v].prev)) &&
    (forall v :: 0 <= v < |nodes0| ==>
       Kept(nodes0, nodes1, dist0, dist1, v) || Improved(nodes0, nodes1, edges, dist0, dist1, c, k, v)) &&
    (forall j :: 0 <= j < k && edges[j].start == c && edges[j].end < |nodes0| && !nodes0[edges[j].end].visited ==>
       Le(dist1[edges[j].end], Add(dist0[c], edges[j].w)))
  }

  lemma RelaxStart(nodes: seq<Node>, edges: seq<Edge>, dist: seq<Dist>, c: nat)
    requires c < |nodes| == |dist|
    ensures Relaxed(nodes, nodes, edges, dist, dist, c, 0)
  {
  }

  /** Edge `k` is skipped: it does not leave `c`, ends at a visited node, or
      offers no strictly shorter distance. */
  lemma RelaxSkip(nodes0: seq<Node>, nodes1: seq<Node>, edges: seq<Edge>, dist0: seq<Dist>, dist1: seq<Dist>, c: nat, k: nat)
    requires Relaxed(nodes0, nodes1, edges, dist0, dist1, c, k) && k < |edges| && edges[k].end < |nodes0|
    requires edges[k].start == c && !nodes1[edges[k].end].visited ==>
               !Lt(Add(dist1[c], edges[k].w), dist1[edges[k].end])
    requires nodes0[c].visited
    ensures Relaxed(nodes0, nodes1, edges, dist0, dist1, c, k + 1)
  {
    assert Kept(nodes0, nodes1, dist0, dist1, c);
    forall v | 0 <= v < |nodes0| && !Kept(nodes0, nodes1, dist0, dist1, v)
      ensures Improved(nodes0, nodes1, edges, dist0, dist1, c, k + 1, v)
    {
      assert Improved(nodes0, nodes1, edges, dist0, dist1, c, k, v);
    }
  }

  /** Edge `k` leaves `c` for an unvisited node and offers a strictly
      shorter distance: that node takes it, with `k` as back pointer. */
  lemma RelaxTake(nodes0: seq<Node>, nodes1: seq<Node>, edges: seq<Edge>, dist0: seq<Dist>, dist1: seq<Dist>, c: nat, k: nat)
    requires Relaxed(nodes0, nodes1, edges, dist0, dist1, c, k) && k < |edges| && edges[k].end < |nodes0|
    requires edges[k].start == c && !nodes1[edges[k].end].visited
    requires Lt(Add(dist1[c], edges[k].w), dist1[edges[k].end])
    requires nodes0[c].visited
    ensures Relaxed(nodes0, nodes1[edges[k].end := nodes1[edges[k].end].(prev := Some(k))], edges,
                    dist0, dist1[edges[k].end := Add(dist1[c], edges[k].w)], c, k + 1)
  {
    var o := edges[k].end;
    assert Kept(nodes0, nodes1, dist0, dist1, c);
    var nodes2, dist2 := nodes1[o := nodes1[o].(prev := Some(k))], dist1[o := Add(dist1[c], edges[k].w)];
    forall v | 0 <= v < |nodes0|
      ensures Kept(nodes0, nodes2, dist0, dist2, v) || Improved(nodes0, nodes2, edges, dist0, dist2, c, k + 1, v)
    {
      if v != o {
        if !Kept(nodes0, nodes1, dist0, dist1, v) {
          assert Improved(nodes0, nodes1, edges, dist0, dist1, c, k, v);
        }
      } else {
        assert Kept(nodes0, nodes1, dist0, dist1, v) || Improved(nodes0, nodes1, edges, dist0, dist1, c, k, v);
        assert Improved(nodes0, nodes2, edges, dist0, dist2, c, k + 1, v);
      }
    }
  }

  /** Taking an edge out of a visited node into an unvisited one as back
      pointer keeps the graph well formed. */
  lemma TakeKeepsWf(nodes: seq<Node>, edges: seq<Edge>, rank: seq<nat>, clock: nat, k: nat)
    requires Wf(nodes, edges, rank, clock) && k < |edges|
    requires nodes[edges[k].start].visited && !nodes[edges[k].end].visited
    ensures Wf(nodes[edges[k].end := nodes[edges[k].end].(prev := Some(k))], edges, rank, clock)
  {
    var o := edges[k].end;
    var nodes' := nodes[o := nodes[o].(prev := Some(k))];
    forall v | 0 <= v < |nodes'|
      ensures PrevOk(nodes', edges, rank, clock, v)
    {
      assert PrevOk(nodes, edges, rank, clock, v);
    }
  }

  // ---------------------------------------------------------------------------
  // Between rounds of a search started on a fresh graph

  /** No node has been visited and no back pointer is set. */
  ghost predicate Fresh(nodes: seq<Node>) {
    forall v :: 0 <= v < |nodes| ==> !nodes[v].visited && nodes[v].prev.None?
  }

  /** The distances the search starts from: 0 at `nodes[0]`, `Infinity` elsewhere. */
  ghost predicate Initial(dist: seq<Dist>) {
    forall v :: 0 <= v < |dist| ==> dist[v] == if v == 0 then Fin(0.0) else Inf
  }

  /** A back pointer of `v` comes from a node with a finite distance, and
      `v`'s distance is that distance plus the edge's weight. */
  ghost predicate PrevDist(nodes: seq<Node>, edges: seq<Edge>, dist: seq<Dist>, v: nat)
    requires v < |nodes| == |dist|
  {
    nodes[v].prev.Some? ==>
      var e := nodes[v].prev.value;
      e < |edges| && edges[e].start < |nodes| && dist[edges[e].start].Fin? &&
      dist[v] == Add(dist[edges[e].start], edges[e].w)
  }

  /** Visited nodes are no further than unvisited ones. */
  ghost predicate VisitedFirst(nodes: seq<Node>, dist: seq<Dist>)
    requires |nodes| == |dist|
  {
    forall u, v :: 0 <= u < |nodes| && 0 <= v < |nodes| && nodes[u].visited && !nodes[v].visited ==>
      Le(dist[u], dist[v])
  }

  /** Every edge out of a visited node has been relaxed. */
  ghost predicate RelaxedOut(nodes: seq<Node>, edges: seq<Edge>, dist: seq<Dist>)
    requires |nodes| == |dist|
  {
    forall j :: 0 <= j < |edges| && edges[j].start < |nodes| && edges[j].end < |nodes| && nodes[edges[j].start].visited ==>
      Le(dist[edges[j].end], Add(dist[edges[j].start], edges[j].w))
  }

  /** What holds between rounds of a search on a fresh graph. */
  ghost predicate RunInv(nodes: seq<Node>, edges: seq<Edge>, dist: seq<Dist>) {
    |dist| == |nodes| &&
    (|nodes| > 0 ==> dist[0] == Fin(0.0) && nodes[0].prev.None?) &&
    (forall v :: 0 <= v < |nodes| && dist[v].Fin? ==> dist[v].d >= 0.0) &&
    (forall v :: 0 <= v < |nodes| ==> PrevDist(nodes, edges, dist, v)) &&
    (forall v :: 0 < v < |nodes| && dist[v].Fin? ==> nodes[v].prev.Some?) &&
    VisitedFirst(nodes, dist) &&
    RelaxedOut(nodes, edges, dist)
  }

  /** The search starts in a state satisfying the invariant. */
  lemma RunStart(nodes: seq<Node>, edges: seq<Edge>, dist: seq<Dist>)
    requires Fresh(nodes) && Initial(dist) && |dist| == |nodes|
    ensures RunInv(nodes, edges, dist)
  {
  }

  /** The facts about one settle step that the invariant's parts need. */
  ghost predicate SettleStep(nodes0: seq<Node>, edges: seq<Edge>, dist0: seq<Dist>, c: nat,
                             nodes2: seq<Node>, dist2: seq<Dist>)
  {
    RunInv(nodes0, edges, dist0) && EdgesWithin(|nodes0|, edges) &&
    c < |nodes0| && !nodes0[c].visited &&
    (forall v :: 0 <= v < |nodes0| && !nodes0[v].visited ==> Le(dist0[c], dist0[v])) &&
    Relaxed(Visit(nodes0, c), nodes2, edges, dist0, dist2, c, |edges|)
  }

  /** After a step, a node's distance is its old one or `c`'s plus an edge weight. */
  lemma SettleChanges(nodes0: seq<Node>, edges: seq<Edge>, dist0: seq<Dist>, c: nat, nodes2: seq<Node>, dist2: seq<Dist>, v: nat)
    requires SettleStep(nodes0, edges, dist0, c, nodes2, dist2) && v < |nodes0|
    ensures nodes2[v].visited == (nodes0[v].visited || v == c)
    ensures Le(dist2[v], dist0[v])
    ensures dist2[v] == dist0[v] || (v != c && !nodes0[v].visited && Le(dist0[c], dist2[v]) && dist2[v].Fin? && dist2[v].d >= 0.0)
    ensures nodes0[v].visited || v == c ==> dist2[v] == dist0[v] && nodes2[v].prev == nodes0[v].prev
  {
    var nodes1 := Visit(nodes0, c);
    if !Kept(nodes1, nodes2, dist0, dist2, v) {
      assert Improved(nodes1, nodes2, edges, dist0, dist2, c, |edges|, v);
      var j := nodes2[v].prev.value;
      assert edges[j].w >= 0.0;
    }
  }

  lemma SettleKeepsVisitedFirst(nodes0: seq<Node>, edges: seq<Edge>, dist0: seq<Dist>, c: nat, nodes2: seq<Node>, dist2: seq<Dist>)
    requires SettleStep(nodes0, edges, dist0, c, nodes2, dist2)
    ensures VisitedFirst(nodes2, dist2)
  {
    forall u, v | 0 <= u < |nodes2| && 0 <= v < |nodes2| && nodes2[u].visited && !nodes2[v].visited
      ensures Le(dist2[u], dist2[v])
    {
      SettleChanges(nodes0, edges, dist0, c, nodes2, dist2, u);
      SettleChanges(nodes0, edges, dist0, c, nodes2, dist2, v);
      if u != c {
        assert Le(dist0[u], dist0[c]);
      }
    }
  }

  lemma SettleKeepsRelaxedOut(nodes0: seq<Node>, edges: seq<Edge>, dist0: seq<Dist>, c: nat, nodes2: seq<Node>, dist2: seq<Dist>)
    requires SettleStep(nodes0, edges, dist0, c, nodes2, dist2)
    ensures RelaxedOut(nodes2, edges, dist2)
  {
    var nodes1 := Visit(nodes0, c);
    forall j | 0 <= j < |edges| && edges[j].start < |nodes2| && edges[j].end < |nodes2| && nodes2[edges[j].start].visited
      ensures Le(dist2[edges[j].end], Add(dist2[edges[j].start], edges[j].w))
    {
      var a, b := edges[j].start, edges[j].end;
      SettleChanges(nodes0, edges, dist0, c, nodes2, dist2, a);
      SettleChanges(nodes0, edges, dist0, c, nodes2, dist2, b);
      if a == c && nodes0[b].visited {
        assert Le(dist0[b], dist0[c]);
      }
    }
  }

  lemma SettleKeepsPrevDist(nodes0: seq<Node>, edges: seq<Edge>, rank: seq<nat>, clock: nat, dist0: seq<Dist>, c: nat,
                            nodes2: seq<Node>, dist2: seq<Dist>)
    requires SettleStep(nodes0, edges, dist0, c, nodes2, dist2) && Wf(nodes0, edges, rank, clock)
    ensures forall v :: 0 <= v < |nodes2| ==> PrevDist(nodes2, edges, dist2, v)
    ensures forall v :: 0 < v < |nodes2| && dist2[v].Fin? ==> nodes2[v].prev.Some?
    ensures |nodes2| > 0 ==> dist2[0] == Fin(0.0) && nodes2[0].prev.None?
  {
    var nodes1 := Visit(nodes0, c);
    forall v | 0 <= v < |nodes2|
      ensures PrevDist(nodes2, edges, dist2, v)
      ensures v > 0 && dist2[v].Fin? ==> nodes2[v].prev.Some?
      ensures v == 0 ==> dist2[0] == Fin(0.0) && nodes2[0].prev.None?
    {
      SettleChanges(nodes0, edges, dist0, c, nodes2, dist2, v);
      if Kept(nodes1, nodes2, dist0, dist2, v) {
        assert PrevDist(nodes0, edges, dist0, v);
        assert PrevOk(nodes0, edges, rank, clock, v);
        if nodes0[v].prev.Some? {
          SettleChanges(nodes0, edges, dist0, c, nodes2, dist2, edges[nodes0[v].prev.value].start);
        }
      } else {
        assert Improved(nodes1, nodes2, edges, dist0, dist2, c, |edges|, v);
        SettleChanges(nodes0, edges, dist0, c, nodes2, dist2, c);
      }
    }
  }

  /** One settle step (visit the nearest unvisited node, relax its edges)
      keeps the invariant. */
  lemma SettleKeepsRunInv(nodes0: seq<Node>, edges: seq<Edge>, rank: seq<nat>, clock: nat, dist0: seq<Dist>, c: nat,
                          nodes2: seq<Node>, dist2: seq<Dist>)
    requires Wf(nodes0, edges, rank, clock) && RunInv(nodes0, edges, dist0)
    requires c < |nodes0| && !nodes0[c].visited
    requires forall v :: 0 <= v < |nodes0| && !nodes0[v].visited ==> Le(dist0[c], dist0[v])
    requires Relaxed(Visit(nodes0, c), nodes2, edges, dist0, dist2, c, |edges|)
    ensures RunInv(nodes2, edges, dist2)
  {
    SettleKeepsVisitedFirst(nodes0, edges, dist0, c, nodes2, dist2);
    SettleKeepsRelaxedOut(nodes0, edges, dist0, c, nodes2, dist2);
    SettleKeepsPrevDist(nodes0, edges, rank, clock, dist0, c, nodes2, dist2);
    forall v | 0 <= v < |nodes2| && dist2[v].Fin?
      ensures dist2[v].d >= 0.0
    {
      SettleChanges(nodes0, edges, dist0, c, nodes2, dist2, v);
    }
  }

  // ---------------------------------------------------------------------------
  // The result

  /** A finite distance is the length of the back-pointer chain, which
      starts at `nodes[0]`. */
  lemma {:induction false} ChainMeetsDistance(nodes: seq<Node>, edges: seq<Edge>, rank: seq<nat>, clock: nat, dist: seq<Dist>, v: nat)
    requires Wf(nodes, edges, rank, clock) && RunInv(nodes, edges, dist) && v < |nodes| && dist[v].Fin?
    ensures Root(nodes, edges, rank, clock, v) == 0
    ensures Length(PathTo(nodes, edges, rank, clock, v)) == dist[v].d
    decreases Measure(nodes, rank, clock, v)
  {
    assert PrevOk(nodes, edges, rank, clock, v);
    assert PrevDist(nodes, edges, dist, v);
    if nodes[v].prev.Some? {
      var e := edges[nodes[v].prev.value];
      ChainMeetsDistance(nodes, edges, rank, clock, dist, e.start);
      var p := PathTo(nodes, edges, rank, clock, e.start);
      assert (p + [e])[..|p|] == p;
    }
  }

  /** Once every node is visited, each distance is the length of a shortest
      path from `nodes[0]`: no path is shorter, and a finite distance is
      met by the back-pointer chain, which is such a path. */
  lemma RunResult(nodes: seq<Node>, edges: seq<Edge>, rank: seq<nat>, clock: nat, dist: seq<Dist>, v: nat)
    requires Wf(nodes, edges, rank, clock) && RunInv(nodes, edges, dist)
    requires forall u :: 0 <= u < |nodes| ==> nodes[u].visited
    requires v < |nodes|
    ensures forall p :: IsPath(edges, p, 0, v) ==> Le(dist[v], Fin(Length(p)))
    ensures dist[v].Fin? ==>
      Root(nodes, edges, rank, clock, v) == 0 && IsPath(edges, PathTo(nodes, edges, rank, clock, v), 0, v) &&
      Length(PathTo(nodes, edges, rank, clock, v)) == dist[v].d
  {
    forall p | IsPath(edges, p, 0, v)
      ensures Le(dist[v], Fin(Length(p)))
    {
      BelowEveryPath(edges, dist, 0, p, v);
    }
    if dist[v].Fin? {
      ChainMeetsDistance(nodes, edges, rank, clock, dist, v);
      PathToIsPath(nodes, edges, rank, clock, v);
    }
  }
}
