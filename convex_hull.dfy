/** The convex-hull view: points are placed by clicking; the scan picks the
    first lowest point as anchor, orders all points by their angle to it,
    keeps a stack of candidate hull points, popping while the last two and
    the new point make a positive cross product, and outlines the stack as
    a closed polygon. */
module ConvexHull {
  import opened Optional

  /** The radius every point is drawn with. */
  const Radius := 10

  /** A placed point and the angle it makes with the anchor. */
  datatype Point = Point(id: nat, x: int, y: int, radius: int, angleToOrigin: real)

  /** A drawn segment between two points. */
  datatype Segment = Segment(n1: Point, n2: Point)

  /** The angle of the vector from `n2` to `n1`, as `atan2(dy, dx)`. */
  function Angle(n1: Point, n2: Point, atan2: (int, int) -> real): (r: real)
    ensures n1.x == n2.x && n1.y == n2.y ==> r == atan2(0, 0)
  {
    atan2(n1.y - n2.y, n1.x - n2.x)
  }

  /** The angle depends only on where the two points lie relative to each
      other: moving both by the same offset leaves it unchanged. */
  lemma AngleShift(n1: Point, n2: Point, u: int, v: int, atan2: (int, int) -> real)
    ensures Angle(n1.(x := n1.x + u, y := n1.y + v), n2.(x := n2.x + u, y := n2.y + v), atan2) == Angle(n1, n2, atan2)
  {
    assert (n1.y + v) - (n2.y + v) == n1.y - n2.y;
    assert (n1.x + u) - (n2.x + u) == n1.x - n2.x;
  }

  // ---------------------------------------------------------------------------
  // The cross product

  /** The cross product of `b - a` and `c - a`: positive when `a, b, c` turn
      counter-clockwise in a y-up frame, zero when they are collinear. */
  function Ccw(a: Point, b: Point, c: Point): (r: int)
    ensures (b.x == a.x && b.y == a.y) || (c.x == a.x && c.y == a.y) || (b.x == c.x && b.y == c.y) ==> r == 0
  {
    (b.x - a.x) * (c.y - a.y) - (c.x - a.x) * (b.y - a.y)
  }

  /** Three points on one line have a zero cross product: `b - a` and
      `c - a` are both integer multiples of one direction `(dx, dy)`. */
  lemma CcwCollinear(a: Point, b: Point, c: Point, s: int, t: int, dx: int, dy: int)
    requires b.x - a.x == s * dx && b.y - a.y == s * dy
    requires c.x - a.x == t * dx && c.y - a.y == t * dy
    ensures Ccw(a, b, c) == 0
  {
    assert (s * dx) * (t * dy) == (s * t) * (dx * dy);
    assert (t * dx) * (s * dy) == (s * t) * (dx * dy);
  }

  /** Exchanging the last two points flips the sign. */
  lemma CcwSwap(a: Point, b: Point, c: Point)
    ensures Ccw(a, c, b) == -Ccw(a, b, c)
  {
  }

  /** Rotating the three points leaves the cross product unchanged. */
  lemma CcwRotate(a: Point, b: Point, c: Point)
    ensures Ccw(b, c, a) == Ccw(a, b, c)
  {
    assert (c.x - b.x) * (a.y - b.y) == (c.x - a.x + (a.x - b.x)) * (a.y - b.y);
    assert (a.x - b.x) * (c.y - b.y) == (a.x - b.x) * (c.y - a.y + (a.y - b.y));
  }

  // ---------------------------------------------------------------------------
  // Ordering by angle

  ghost predicate NonIncreasing(s: seq<Point>) {
    forall i, j :: 0 <= i < j < |s| ==> s[i].angleToOrigin >= s[j].angleToOrigin
  }

  /** Inserts `p` after the leading points whose angle is at least its own. */
  function InsertByAngle(p: Point, s: seq<Point>): (r: seq<Point>)
    ensures multiset(r) == multiset(s) + multiset{p}
    ensures r[0] == p || (s != [] && r[0] == s[0])
  {
    if s == [] then [p]
    else if s[0].angleToOrigin >= p.angleToOrigin then
      assert s == [s[0]] + s[1..];
      [s[0]] + InsertByAngle(p, s[1..])
    else [p] + s
  }

  lemma ConsNonIncreasing(x: Point, rest: seq<Point>)
    requires NonIncreasing(rest) && (rest != [] ==> rest[0].angleToOrigin <= x.angleToOrigin)
    ensures NonIncreasing([x] + rest)
  {
    var r := [x] + rest;
    forall i, j | 0 <= i < j < |r| ensures r[i].angleToOrigin >= r[j].angleToOrigin {
      if i == 0 {
        assert r[j] == rest[j - 1];
      }
    }
  }

  /** Inserting into a non-increasing sequence keeps it non-increasing. */
  lemma {:induction false} InsertKeepsOrder(p: Point, s: seq<Point>)
    requires NonIncreasing(s)
    ensures NonIncreasing(InsertByAngle(p, s))
  {
    if s == [] {
    } else if s[0].angleToOrigin >= p.angleToOrigin {
      InsertKeepsOrder(p, s[1..]);
      ConsNonIncreasing(s[0], InsertByAngle(p, s[1..]));
    } else {
      ConsNonIncreasing(p, s);
    }
  }

  /** The points ordered by decreasing angle; points of equal angle keep
      their relative order. */
  function SortByAngle(s: seq<Point>): (r: seq<Point>)
    ensures multiset(r) == multiset(s)
    ensures NonIncreasing(r)
  {
    if s == [] then []
    else
      assert s == s[..|s| - 1] + [s[|s| - 1]];
      InsertKeepsOrder(s[|s| - 1], SortByAngle(s[..|s| - 1]));
      InsertByAngle(s[|s| - 1], SortByAngle(s[..|s| - 1]))
  }

  // ---------------------------------------------------------------------------
  // The scan

  /** The position of the first lowest point of a non-empty sequence. */
  function AnchorIndex(nodes: seq<Point>): (at: nat)
    requires nodes != []
    ensures at < |nodes|
    ensures forall k :: 0 <= k < |nodes| ==> nodes[at].y <= nodes[k].y
    ensures forall k :: 0 <= k < at ==> nodes[at].y < nodes[k].y
  {
    if |nodes| == 1 then 0
    else
      var at := AnchorIndex(nodes[..|nodes| - 1]);
      assert forall k :: 0 <= k < |nodes| - 1 ==> nodes[..|nodes| - 1][k] == nodes[k];
      if nodes[|nodes| - 1].y < nodes[at].y then |nodes| - 1 else at
  }

  /** The first lowest point of `nodes`; `None` when there are none. */
  method GetAnchorPoint(nodes: seq<Point>) returns (anchor: Option<Point>)
    ensures anchor.None? <==> nodes == []
    ensures anchor.Some? ==> anchor == Some(nodes[AnchorIndex(nodes)])
  {
    var minY: Option<int> := None;
    anchor := if |nodes| > 0 then Some(nodes[0]) else None;
    ghost var at := 0;
    for i := 0 to |nodes|
      invariant i == 0 ==> minY.None?
      invariant i > 0 ==> minY.Some? && at < i && anchor == Some(nodes[at]) && minY.value == nodes[at].y
      invariant i > 0 ==> at == AnchorIndex(nodes[..i])
      invariant anchor.None? <==> nodes == []
    {
      assert nodes[..i + 1][..i] == nodes[..i];
      var n := nodes[i];
      if minY.None? || n.y < minY.value {
        anchor := Some(n);
        at := i;
        minY := Some(n.y);
      }
    }
    assert nodes[..|nodes|] == nodes;
  }

  /** `stack` lists the points of `nodes` at the ascending positions `idx`,
      all below `bound`. */
  ghost predicate InOrder(nodes: seq<Point>, stack: seq<Point>, idx: seq<nat>, bound: nat) {
    bound <= |nodes| && |stack| == |idx| &&
    (forall k :: 0 <= k < |idx| ==> idx[k] < bound && stack[k] == nodes[idx[k]]) &&
    (forall k, l :: 0 <= k < l < |idx| ==> idx[k] < idx[l])
  }

  /** No three consecutive points of `stack` turn counter-clockwise. */
  ghost predicate NoLeftTurn(stack: seq<Point>) {
    forall k :: 0 <= k < |stack| - 2 ==> Ccw(stack[k], stack[k + 1], stack[k + 2]) <= 0
  }

  /** Every position below `below` missing from `idx` was popped: `why`
      names an earlier kept point and a later point, at most `top`, with
      which it turned counter-clockwise. */
  ghost predicate PopsJustified(nodes: seq<Point>, idx: seq<nat>, why: map<nat, (nat, nat)>, below: nat, top: nat) {
    forall j :: 0 <= j < below && j !in idx ==>
      j in why && why[j].0 < j < why[j].1 <= top && why[j].1 < |nodes| &&
      Ccw(nodes[why[j].0], nodes[j], nodes[why[j].1]) > 0
  }

  /** The state of the scan once the first `i` points are processed: the
      stack starts with the first point and ends with the last processed. */
  ghost predicate Scanned(nodes: seq<Point>, stack: seq<Point>, idx: seq<nat>, why: map<nat, (nat, nat)>, i: nat) {
    InOrder(nodes, stack, idx, i) && NoLeftTurn(stack) && PopsJustified(nodes, idx, why, i, i) &&
    (i == 0 <==> stack == []) &&
    (i > 0 ==> idx[0] == 0 && idx[|idx| - 1] == i - 1)
  }

  /** The state while points are popped before the point at `i` is pushed:
      what is left is a prefix of the stack the round started with. */
  ghost predicate Popping(nodes: seq<Point>, stack0: seq<Point>, stack: seq<Point>, idx: seq<nat>, why: map<nat, (nat, nat)>, i: nat) {
    i < |nodes| && InOrder(nodes, stack, idx, i) && NoLeftTurn(stack) && PopsJustified(nodes, idx, why, i, i) &&
    |stack| <= |stack0| && stack == stack0[..|stack|] &&
    (i == 0 <==> stack == []) && (i > 0 ==> idx[0] == 0)
  }

  /** Popping the top, which turns counter-clockwise with the point at `i`,
      keeps the state; `why` records the two points that showed it off. */
  lemma PopKeeps(nodes: seq<Point>, stack0: seq<Point>, stack: seq<Point>, idx: seq<nat>, why: map<nat, (nat, nat)>, i: nat)
    requires Popping(nodes, stack0, stack, idx, why, i)
    requires |stack| > 1 && Ccw(stack[|stack| - 2], stack[|stack| - 1], nodes[i]) > 0
    ensures Popping(nodes, stack0, stack[..|stack| - 1], idx[..|idx| - 1], why[idx[|idx| - 1] := (idx[|idx| - 2], i)], i)
  {
    var removed := idx[|idx| - 1];
    var idx', why' := idx[..|idx| - 1], why[removed := (idx[|idx| - 2], i)];
    forall j | 0 <= j < i && j !in idx'
      ensures j in why' && why'[j].0 < j < why'[j].1 <= i && why'[j].1 < |nodes|
      ensures Ccw(nodes[why'[j].0], nodes[j], nodes[why'[j].1]) > 0
    {
      if j != removed {
        assert j !in idx;
      }
    }
    assert stack[..|stack| - 1] == stack0[..|stack| - 1];
  }

  /** Pushing the point at `i`, which makes no counter-clockwise turn with
      the two topmost points, keeps the scan's invariant one point further. */
  lemma PushKeeps(nodes: seq<Point>, stack0: seq<Point>, stack: seq<Point>, idx: seq<nat>, why: map<nat, (nat, nat)>, i: nat)
    requires Popping(nodes, stack0, stack, idx, why, i)
    requires |stack| > 1 ==> Ccw(stack[|stack| - 2], stack[|stack| - 1], nodes[i]) <= 0
    ensures Scanned(nodes, stack + [nodes[i]], idx + [i], why, i + 1)
  {
    PushKeepsTurns(stack, nodes[i]);
  }

  lemma PushKeepsTurns(stack: seq<Point>, p: Point)
    requires NoLeftTurn(stack)
    requires |stack| > 1 ==> Ccw(stack[|stack| - 2], stack[|stack| - 1], p) <= 0
    ensures NoLeftTurn(stack + [p])
  {
    var stack' := stack + [p];
    forall k | 0 <= k < |stack'| - 2
      ensures Ccw(stack'[k], stack'[k + 1], stack'[k + 2]) <= 0
    {
      if k < |stack| - 2 {
        assert stack'[k + 2] == stack[k + 2];
      }
    }
  }

  /** Pops while the two topmost points and the point at `i` turn
      counter-clockwise, never below the first point, then pushes the
      point at `i`. */
  method PushPoint(nodes: seq<Point>, i: nat, stack: seq<Point>, ghost idx: seq<nat>, ghost why: map<nat, (nat, nat)>)
    returns (stack': seq<Point>, ghost idx': seq<nat>, ghost why': map<nat, (nat, nat)>)
    requires i < |nodes| && Scanned(nodes, stack, idx, why, i)
    ensures Scanned(nodes, stack', idx', why', i + 1)
    ensures 0 < |stack'| <= |stack| + 1 && stack' == stack[..|stack'| - 1] + [nodes[i]]
  {
    stack', idx', why' := stack, idx, why;
    assert stack == stack[..|stack|];
    while |stack'| > 1 && Ccw(stack'[|stack'| - 2], stack'[|stack'| - 1], nodes[i]) > 0
      invariant Popping(nodes, stack, stack', idx', why', i)
      decreases |stack'|
    {
      PopKeeps(nodes, stack, stack', idx', why', i);
      why' := why'[idx'[|idx'| - 1] := (idx'[|idx'| - 2], i)];
      stack', idx' := stack'[..|stack'| - 1], idx'[..|idx'| - 1];
    }
    PushKeeps(nodes, stack, stack', idx', why', i);
    stack', idx' := stack' + [nodes[i]], idx' + [i];
  }

  /** The candidate hull: each point is pushed in turn, after popping while
      the two topmost points and the new one turn counter-clockwise.
      `idx` gives the position in `nodes` of each stacked point, and `why`
      the two points that showed each popped point off. */
  method ScanStack(nodes: seq<Point>) returns (stack: seq<Point>, ghost idx: seq<nat>, ghost why: map<nat, (nat, nat)>)
    ensures InOrder(nodes, stack, idx, |nodes|)
    ensures nodes == [] <==> stack == []
    ensures nodes != [] ==> idx[0] == 0 && idx[|idx| - 1] == |nodes| - 1
    ensures NoLeftTurn(stack)
    ensures PopsJustified(nodes, idx, why, |nodes|, |nodes|)
  {
    stack, idx, why := [], [], map[];
    for i := 0 to |nodes|
      invariant Scanned(nodes, stack, idx, why, i)
    {
      stack, idx, why := PushPoint(nodes, i, stack, idx, why);
    }
  }

  /** `segments` outline `stack` as a closed polygon: the k-th starts at the
      k-th point and ends where the next one starts, the last one ending at
      the first point. */
  ghost predicate ClosedOutline(segments: seq<Segment>, stack: seq<Point>) {
    |segments| == |stack| &&
    (forall k :: 0 <= k < |stack| ==> segments[k].n1 == stack[k]) &&
    (forall k :: 0 <= k < |stack| ==> segments[k].n2 == segments[(k + 1) % |stack|].n1)
  }

  /** The closing outline of a stack of points. */
  method Outline(stack: seq<Point>) returns (segments: seq<Segment>)
    ensures ClosedOutline(segments, stack)
  {
    segments := [];
    for i := 0 to |stack|
      invariant |segments| == i
      invariant forall k :: 0 <= k < i ==> segments[k] == Segment(stack[k], stack[(k + 1) % |stack|])
    {
      segments := segments + [Segment(stack[i], stack[(i + 1) % |stack|])];
    }
  }

  /** What the scan leaves in `stack` for `nodes`: a subsequence that starts
      with the first point and ends with the last, with no counter-clockwise
      turn, every left-out point having been popped for one. */
  ghost predicate HullOf(nodes: seq<Point>, stack: seq<Point>) {
    exists idx: seq<nat>, why: map<nat, (nat, nat)> ::
      InOrder(nodes, stack, idx, |nodes|) && PopsJustified(nodes, idx, why, |nodes|, |nodes|) &&
      (nodes == [] <==> stack == []) && NoLeftTurn(stack) &&
      (nodes != [] ==> idx[0] == 0 && idx[|idx| - 1] == |nodes| - 1)
  }

  /** The points placed so far and the segments drawn. */
  class PointSet {
    var nodes: seq<Point>
    var edges: seq<Segment>

    constructor ()
      ensures nodes == [] && edges == []
    {
      nodes, edges := [], [];
    }

    /** Places a new point; its id is the number of points before it. */
    method AddPoint(x: int, y: int)
      modifies this
      ensures nodes == old(nodes) + [Point(|old(nodes)|, x, y, Radius, 0.0)] && edges == old(edges)
    {
      nodes := nodes + [Point(|nodes|, x, y, Radius, 0.0)];
    }

    /** Sets every point's angle to the first lowest point and orders the
        points by decreasing angle; fails, changing nothing, when there is
        no point. */
    method Sort(atan2: (int, int) -> real) returns (ok: bool)
      modifies this
      ensures edges == old(edges)
      ensures ok <==> old(nodes) != []
      ensures !ok ==> nodes == old(nodes)
      ensures ok ==> nodes == SortByAngle(WithAngles(old(nodes), old(nodes)[AnchorIndex(old(nodes))], atan2))
    {
      var anchor := GetAnchorPoint(nodes);
      if anchor.None? {
        return false;
      }
      for i := 0 to |nodes|
        invariant |nodes| == |old(nodes)| && edges == old(edges)
        invariant forall k :: 0 <= k < |nodes| ==>
          nodes[k] == if k < i then old(nodes)[k].(angleToOrigin := Angle(anchor.value, old(nodes)[k], atan2)) else old(nodes)[k]
      {
        nodes := nodes[i := nodes[i].(angleToOrigin := Angle(anchor.value, nodes[i], atan2))];
      }
      assert anchor.value == old(nodes)[AnchorIndex(old(nodes))];
      assert nodes == WithAngles(old(nodes), anchor.value, atan2);
      nodes := SortByAngle(nodes);
      return true;
    }

    /** Runs the stack scan over the points in their current order and
        appends the closing outline of the stack to the drawn segments. */
    method ComputeHull() returns (ghost stack: seq<Point>)
      modifies this
      ensures nodes == old(nodes) && |edges| >= |old(edges)| && edges[..|old(edges)|] == old(edges)
      ensures HullOf(nodes, stack) && ClosedOutline(edges[|old(edges)|..], stack)
    {
      var s, idx, why := ScanStack(nodes);
      var outline := Outline(s);
      stack := s;
      edges := edges + outline;
      assert edges[|old(edges)|..] == outline;
    }

    /** Sorts the points and, when there are any, computes their hull;
        fails, changing nothing, when there is no point. */
    method Graham(atan2: (int, int) -> real) returns (ok: bool, ghost stack: seq<Point>)
      modifies this
      ensures ok <==> old(nodes) != []
      ensures old(nodes) == [] ==> nodes == [] && edges == old(edges)
      ensures old(nodes) != [] ==>
        nodes == SortByAngle(WithAngles(old(nodes), old(nodes)[AnchorIndex(old(nodes))], atan2)) &&
        |edges| >= |old(edges)| && edges[..|old(edges)|] == old(edges) &&
        HullOf(nodes, stack) && ClosedOutline(edges[|old(edges)|..], stack)
    {
      stack := [];
      ok := Sort(atan2);
      if ok {
        stack := ComputeHull();
      }
    }
  }

  /** Every point with its angle to `anchor` set. */
  function WithAngles(nodes: seq<Point>, anchor: Point, atan2: (int, int) -> real): (r: seq<Point>)
    ensures |r| == |nodes|
    ensures forall k :: 0 <= k < |nodes| ==> r[k] == nodes[k].(angleToOrigin := Angle(anchor, nodes[k], atan2))
  {
    seq(|nodes|, k requires 0 <= k < |nodes| => nodes[k].(angleToOrigin := Angle(anchor, nodes[k], atan2)))
  }
}
