# AlgoVisualization engines in Dafny

AlgoVisualization is a set of React canvas views that animate three
algorithms. This project models the algorithmic core of each view and
proves what each one computes. Drawing, mouse handling and animation
pauses are not modelled.

- **Quicksort view** (`PartitionSort`, `partition_sort.dfy`). This is the
  in-place three-way quicksort of `partition` and `quickSort`. The middle
  element is the pivot. The step counts the elements below and equal to
  the pivot and moves every pivot-valued element into a reserved block.
  A two-pointer sweep then fixes the two sides, and the step recurses on
  both sides. The model works on an `array<int>` in place, one method per
  phase. `PermutedWithin` states that only `[start, end)` is rearranged.
  Each phase is proved against `Count`, `Partitioned` and `PermutedWithin`.
- **Shortest-path view** (`GraphModel`, `DijkstraSpec`, `ShortestPath`).
  Nodes are placed by clicking and directed edges by dragging. `djikstra`
  searches from the first node. `Graph` is a class whose `nodes` and
  `edges` fields the methods update. A node's `id` is its position.
  `prev` is the index of the edge that last improved the node, and an
  edge names its end nodes by id. Two ghost fields (`rank` and `clock`)
  record the order in which nodes were first visited. They are what
  proves that back-pointer chains end. `DijkstraSpec` states what one
  round does to the values. It proves that a search started on an
  untouched graph ends with shortest-path distances from node 0, with
  back-pointer chains that realise them.
- **Convex-hull view** (`ConvexHull`, `convex_hull.dfy`). This is the
  Graham scan:
  - the first lowest point is the anchor;
  - each point gets its angle to the anchor;
  - the points are ordered by decreasing angle;
  - a stack scan pops while the two topmost points and the new point have
    a positive cross product;
  - the stack is outlined as a closed polygon.

  `PointSet` is a class with the `nodes` and `edges` fields. The scan
  records ghost witnesses: the position of each stacked point, and the
  two points that showed each popped point off.

`Optional` holds the `Option` type that stands for the source's `null`
and `undefined`.

Where the code differs from what its comments or an idealised account
of these algorithms suggest, the model follows the code:

- The hull scan pops only on a strictly positive cross product, so
  collinear points stay on the stack.
- The minimum scan compares with `<=`, so among equally near ids the last
  one in set order wins.
- The anchor is the first point with the smallest `y`. There is no
  tie-break on `x`.
- With fewer than three points the hull step only raises an alert and
  then carries on. No error stops it.
- Nodes at distance `Infinity` are still visited in turn. The search does
  not stop at unreachable nodes.
- `getBackEdges` has no guard against cycles. The model proves instead
  that the back pointers cannot form one.

## Model

| member | source | states |
|---|---|---|
| PartitionSort.QuickSort | src/QuickSortCanvas.tsx:20-30 | an absent array is handed back as it is; otherwise the whole array ends ascending and is a permutation of the input |
| PartitionSort.Partition | src/QuickSortCanvas.tsx:32-142 | `[start, end)` ends ascending and is a rearrangement of its old contents; everything outside it is unchanged |
| PartitionSort.SortSmall | src/QuickSortCanvas.tsx:37-50 | a range of at most two elements ends ascending and is rearranged only within itself; a range of size 0 or 1, or a pair already in order, is left unchanged |
| PartitionSort.PartitionStep | src/QuickSortCanvas.tsx:53-131 | on a range of at least three elements, the pivot is the old element at the middle index `(start + end) / 2`, and at least one element equals it; afterwards the range is a rearrangement split into the elements below, equal to and above the pivot, in that order, with the two counts as block sizes |
| PartitionSort.PivotCounted | src/QuickSortCanvas.tsx:53 | the pivot is taken from inside the range, so at least one element equals it and both recursive ranges are strictly shorter |
| PartitionSort.CountAroundPivot | src/QuickSortCanvas.tsx:60-69 | the two counters are the number of elements of the range equal to the pivot and below it |
| PartitionSort.CountSides | src/QuickSortCanvas.tsx:63-69 | every element lies below, at or above the pivot: the three counts add up to the length |
| PartitionSort.CountPerm | src/QuickSortCanvas.tsx:75-96 | counts relative to the pivot depend only on the multiset of elements, so they survive the exchanges |
| PartitionSort.SideKept | src/QuickSortCanvas.tsx:138-139 | a rearrangement of elements that all lie on one side of the pivot still lies on that side |
| PartitionSort.SwapPermutes | src/QuickSortCanvas.tsx:90-91 | exchanging two positions of a range is a rearrangement of that range that leaves every other position unchanged |
| PartitionSort.NonPivotInBlock | src/QuickSortCanvas.tsx:83-88 | while a pivot-valued element lies outside the block, some slot of the unfilled part of the block holds a non-pivot, so the unguarded scan stops inside the block |
| PartitionSort.MovePivot | src/QuickSortCanvas.tsx:83-93 | the scan stops at the first non-pivot slot at or after the placement index and before the block's end; the two writes exchange it with the pivot found outside |
| PartitionSort.PlaceAt | src/QuickSortCanvas.tsx:76-95 | one iteration skips the block, or moves a pivot found outside it in, keeping the relocation invariant one position further |
| PartitionSort.BlockFilled | src/QuickSortCanvas.tsx:75-96 | when no pivot is left outside the block and the block is as large as the pivot count, every slot of the block holds the pivot |
| PartitionSort.PlacePivots | src/QuickSortCanvas.tsx:73-96 | afterwards exactly the positions of the reserved block hold the pivot, and the range is a rearrangement of its old contents |
| PartitionSort.SweepBalanced | src/QuickSortCanvas.tsx:103-104 | before the sweep, the left part holds as many elements above the pivot as the right part holds below it |
| PartitionSort.SweepStep | src/QuickSortCanvas.tsx:110-130 | each of the four branches keeps that balance |
| PartitionSort.SweepStart | src/QuickSortCanvas.tsx:103-104 | the pointers start at the two ends of the range in a state satisfying the sweep invariant |
| PartitionSort.SweepKeeps | src/QuickSortCanvas.tsx:105-131 | one iteration, on values, keeps the sweep invariant (prefix below, suffix above, block in place, still a rearrangement) |
| PartitionSort.SweepIteration | src/QuickSortCanvas.tsx:110-130 | every iteration moves `a` up or `b` down, or both, and keeps the sweep invariant; the branch no element can reach is proved unreachable |
| PartitionSort.SweepEnd | src/QuickSortCanvas.tsx:105-107 | when a pointer reaches the block, the other side holds nothing out of place, so the range is partitioned |
| PartitionSort.SweepOutOfPlace | src/QuickSortCanvas.tsx:103-131 | the sweep ends with everything before the block below the pivot and everything after it above, as a rearrangement |
| PartitionSort.SortedJoin | src/QuickSortCanvas.tsx:138-139 | two sorted pieces, everything of the first at most everything of the second, form a sorted range |
| PartitionSort.SidesSorted | src/QuickSortCanvas.tsx:138-139 | sorting the part below the block and the part above it, each in place, sorts and rearranges the whole partitioned range |
| PartitionSort.SortAroundBlock | src/QuickSortCanvas.tsx:138-139 | the two recursive calls on the strictly smaller sides sort the whole range as a rearrangement |
| PartitionSort.SortedUnique | src/QuickSortCanvas.tsx:20-30 | two ascending rearrangements of the same elements are equal: the sorted result is determined by the input |
| GraphModel.Le | src/Canvas.tsx:174 | `<=` with `Infinity`: reflexive, and exactly the negation of `>` (`Lt` with the arguments exchanged), so the order is total |
| GraphModel.Lt | src/Canvas.tsx:223 | `<` with `Infinity`: irreflexive, and `Infinity` is below nothing |
| GraphModel.Add | src/Canvas.tsx:216 | `d + w` with `Infinity + w = Infinity`; a non-negative weight never makes the distance smaller |
| GraphModel.Root | src/Canvas.tsx:242-245 | following back pointers from any node ends at a node without one |
| GraphModel.PathToIsPath | src/Canvas.tsx:239-247 | the back-pointer chain of a node is a directed path of the graph from the chain's root to the node |
| GraphModel.BelowEveryPath | src/Canvas.tsx:201-226 | distances that are 0 at the source and satisfy the relaxation inequality on every edge are at most the length of every path from the source |
| GraphModel.Reverse | src/Canvas.tsx:243 | the i-th element of the reversal is the i-th from the end |
| DijkstraSpec.Without | src/Canvas.tsx:199 | deleting `current` from the ids to visit keeps exactly the other ids |
| DijkstraSpec.WithoutAscending | src/Canvas.tsx:165 | deleting keeps the set's ascending insertion order and shortens it by one when the id was present |
| DijkstraSpec.Visit | src/Canvas.tsx:185-188 | marks the node visited and changes no other node |
| DijkstraSpec.VisitKeepsWf | src/Canvas.tsx:185-188 | visiting keeps the graph well formed (ids are positions, back pointers lead to nodes visited earlier); visiting a node twice changes nothing |
| DijkstraSpec.RelaxSkip | src/Canvas.tsx:204-226 | an edge not out of `current`, into a visited node, or offering no strictly smaller distance changes nothing |
| DijkstraSpec.RelaxTake | src/Canvas.tsx:223-226 | a strictly smaller distance through edge `k` replaces the old one and `k` becomes the end node's back pointer |
| DijkstraSpec.TakeKeepsWf | src/Canvas.tsx:225 | that new back pointer, from a visited node into an unvisited one, keeps back-pointer chains acyclic |
| DijkstraSpec.SettleChanges | src/Canvas.tsx:201-226 | after a round, no distance has grown; only unvisited nodes change, and they change to at least the distance of `current`; visited nodes keep distance and back pointer |
| DijkstraSpec.SettleKeepsVisitedFirst | src/Canvas.tsx:168-226 | visiting the nearest unvisited node keeps every visited node no further than every unvisited one |
| DijkstraSpec.SettleKeepsRelaxedOut | src/Canvas.tsx:201-226 | every edge out of a visited node stays relaxed |
| DijkstraSpec.SettleKeepsPrevDist | src/Canvas.tsx:223-226 | each back pointer comes from a node at finite distance whose distance plus the edge weight is the node's distance; node 0 keeps distance 0 and no back pointer |
| DijkstraSpec.SettleKeepsRunInv | src/Canvas.tsx:168-231 | one round keeps the whole invariant of a search on an untouched graph |
| DijkstraSpec.ChainMeetsDistance | src/Canvas.tsx:239-247 | on that invariant, a finite distance is the length of the node's back-pointer chain, which starts at node 0 |
| DijkstraSpec.RunResult | src/Canvas.tsx:152-236 | once every node is visited, no path from node 0 is shorter than a node's distance, and a finite distance is met by the back-pointer chain |
| ShortestPath.FindMinimum | src/Canvas.tsx:170-178 | returns -1 only for an empty set; otherwise an id whose distance is at most every other candidate's, with every later candidate strictly further (last tie wins) |
| ShortestPath.InitialDistances | src/Canvas.tsx:154-162 | node 0 starts at distance 0 and every other node at `Infinity` |
| ShortestPath.StepPreserves | src/Canvas.tsx:185-226 | a round keeps ids, positions and radii, visits exactly `current` in addition, and freezes the back pointers of visited nodes |
| ShortestPath.ProgressStart | src/Canvas.tsx:154-165 | the search starts with every id to visit, none visited in order, and initial distances |
| ShortestPath.OrderStep | src/Canvas.tsx:199 | moving `current` from the set to the visiting order keeps the two disjoint, covering all ids, with no id visited twice |
| ShortestPath.FirstRound | src/Canvas.tsx:154-181 | the first round settles node 0 |
| ShortestPath.UntouchedRound | src/Canvas.tsx:168-231 | on an untouched graph a round keeps the search invariant, and the visited nodes stay exactly those settled |
| ShortestPath.ProgressStep | src/Canvas.tsx:168-231 | one round of the outer loop keeps the loop invariant |
| ShortestPath.ProgressEnd | src/Canvas.tsx:168-236 | when the set is empty every node is visited, each exactly once, and on an untouched graph the distances are shortest path lengths |
| ShortestPath.Graph.constructor | src/Canvas.tsx:41-42 | an empty, well-formed graph |
| ShortestPath.Inside | src/Canvas.tsx:85-87 | the strict circle test: a node's own centre is inside it, and a point inside lies less than the radius away along each axis |
| ShortestPath.Graph.IsInACircle | src/Canvas.tsx:82-92 | the first node whose squared distance to (x, y) is strictly below its squared radius, or none when no node's is |
| ShortestPath.Graph.MakeNode | src/Canvas.tsx:94-97 | appends an unvisited node with id = its position, radius 10 and no back pointer; the graph stays well formed |
| ShortestPath.Graph.CreateEdge | src/Canvas.tsx:111-117 | appends exactly one edge when both ends exist and differ, and none otherwise, so no self-loop is created |
| ShortestPath.Graph.GetBackEdges | src/Canvas.tsx:239-247 | the returned edges are the node's back-pointer chain, from the node back toward its root; the walk ends |
| ShortestPath.Graph.MarkVisited | src/Canvas.tsx:184-197 | the node with id `current`, and only it, becomes visited |
| ShortestPath.Graph.Relax | src/Canvas.tsx:201-231 | relaxing the edges of `current` in order: only unvisited ends of edges out of `current` change, only to a strictly smaller distance with that edge as back pointer, and afterwards no such edge offers a shorter distance |
| ShortestPath.Graph.Dijkstra | src/Canvas.tsx:152-236 | every node is visited exactly once, node 0 first, and the "no minimum" error is unreachable; on an untouched graph each distance is at most every path's length from node 0, and each finite one is the length of the node's back-pointer chain, which is such a path |
| ConvexHull.Ccw | src/GrahamCanvas.tsx:196-206 | the cross product of `b - a` and `c - a`; it is 0 whenever two of the three points coincide |
| ConvexHull.CcwCollinear | src/GrahamCanvas.tsx:205 | three collinear points have cross product 0: when `b - a` and `c - a` are integer multiples of one direction, whatever the multiples |
| ConvexHull.CcwSwap | src/GrahamCanvas.tsx:205 | exchanging the last two points flips the sign of the cross product |
| ConvexHull.CcwRotate | src/GrahamCanvas.tsx:205 | rotating the three points leaves the cross product unchanged |
| ConvexHull.Angle | src/GrahamCanvas.tsx:135-139 | `atan2` of the offset from `n2` to `n1`; coincident points give `atan2(0, 0)` |
| ConvexHull.AngleShift | src/GrahamCanvas.tsx:135-139 | the angle depends only on the offset between the two points: moving both by the same amount leaves it unchanged |
| ConvexHull.InsertByAngle | src/GrahamCanvas.tsx:173-175 | inserting adds exactly the one point to the multiset of points |
| ConvexHull.InsertKeepsOrder | src/GrahamCanvas.tsx:173-175 | inserting into a sequence of non-increasing angles keeps it non-increasing |
| ConvexHull.SortByAngle | src/GrahamCanvas.tsx:173-175 | the result is a permutation of the points with non-increasing angles |
| ConvexHull.AnchorIndex | src/GrahamCanvas.tsx:143-161 | the position of a point whose `y` is at most every point's, earlier than every other point with that `y` |
| ConvexHull.GetAnchorPoint | src/GrahamCanvas.tsx:143-161 | none exactly when there are no points; otherwise the first point of smallest `y` |
| ConvexHull.WithAngles | src/GrahamCanvas.tsx:170-172 | every point gets its angle to the anchor, and nothing else changes |
| ConvexHull.PopKeeps | src/GrahamCanvas.tsx:221-222 | popping a top that turns counter-clockwise with the new point keeps the stack a subsequence in order, without left turns, starting at point 0, and records why it was popped |
| ConvexHull.PushKeepsTurns | src/GrahamCanvas.tsx:221-235 | pushing a point that makes no counter-clockwise turn with the two topmost keeps every consecutive triple at cross product at most 0 |
| ConvexHull.PushKeeps | src/GrahamCanvas.tsx:235 | after the push the stack ends with the point just processed and keeps the scan invariant one point further |
| ConvexHull.PushPoint | src/GrahamCanvas.tsx:218-235 | one round pops only while the stack has more than one point, then pushes `nodes[i]` onto what is left of the old stack |
| ConvexHull.ScanStack | src/GrahamCanvas.tsx:215-236 | the stack is a subsequence of the points in order, starting with the first and ending with the last, with no counter-clockwise turn, and every left-out point was popped for a counter-clockwise turn |
| ConvexHull.Outline | src/GrahamCanvas.tsx:239-246 | one segment per stacked point; the i-th starts at the i-th point and ends where the next starts, the last closing back to the first |
| ConvexHull.PointSet.constructor | src/GrahamCanvas.tsx:28-29 | the view starts with no points and no segments |
| ConvexHull.PointSet.AddPoint | src/GrahamCanvas.tsx:87-90 | appends a point with id = its position, radius 10 and angle 0 |
| ConvexHull.PointSet.Sort | src/GrahamCanvas.tsx:163-175 | fails, changing nothing, exactly when there is no point (no anchor); otherwise the points are the angle-annotated points in non-increasing angle order |
| ConvexHull.PointSet.ComputeHull | src/GrahamCanvas.tsx:208-248 | the points are unchanged, and the segments gain the closed outline of a stack with the scan's properties |
| ConvexHull.PointSet.Graham | src/GrahamCanvas.tsx:250-253 | fails, changing nothing, exactly when there is no point, as the rejected `sort` does; otherwise sorts, then appends the hull outline of the sorted points |

## Left out

- Drawing, React state and hooks, mouse handlers and buttons are not modelled. These are `redraw`, `reDraw`, `drawCircle`, `drawEdge`, `justDrawEdge`, `colorEdges`, `clear` and similar. Neither is the colour shading by `Math.round`.
- The `setTimeout` animation pauses are left out. Each engine runs synchronously.
- The random numbers of the quicksort view, `console.log`, `alert` and the deep copy of the anchor are left out. None of them affects the result.
- Numbers: JavaScript numbers are modelled as `int` for array elements and coordinates and as `real` for weights, angles and distances. NaN and floating-point rounding are not modelled.
- `Graph.CreateEdge` does not compute `Math.sqrt`. The caller passes the weight `w`, which must be non-negative with `w * w` equal to the squared distance between the two nodes.
- `PointSet.Sort` takes `Math.atan2` as a function parameter `atan2`. Nothing about it is assumed.
- Object identity is not modelled. Nodes are values at their id's position. An edge names its end nodes by id and a back pointer names an edge by index. The source links the objects themselves; in this program the two representations behave the same.
- The distance `Map` of `djikstra` is a sequence indexed by id. The `Set` of ids to visit is a sequence in ascending insertion order.
- `Graph.Dijkstra` returns the distances, which the source keeps in a local variable, so that the result can be stated.
- `Graph.Dijkstra`: the shortest-path guarantee is proved only for a graph no search has touched. `visited` and `prev` are never reset in the source, so a second run starts from stale flags.
- The `solutionEdges` list and the `getBackEdges` calls inside `djikstra` only colour edges on screen.
- The unused `visited` parameter of `makeNode` is left out.
- The checks that a drawing context exists are left out.
- The `return false` at the end of `sort` for fewer than three points is ignored by `graham`, so it is left out.
- The `getBackEdges` of the convex-hull view is never used there and is left out.
- `ConvexHull.SortByAngle` is a stable insertion sort standing for the array's `sort` with a descending comparator. Its stability is not stated as a theorem.
- `ConvexHull.PointSet.ComputeHull`: the stack's properties are stated. That these make it the convex hull of the points is not proved.
- `src/App.tsx` is not part of this model.
