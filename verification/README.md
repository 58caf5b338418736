# Layered graph coordinates

A model of the coordinate generation in `graph_viz_v4.py` (Network_Viz).
A graph arrives with node records and edges. Each node record has a width, a height, parents, children and a level. The graph also comes with a level index that lists the nodes of level 0, 1, 2, ….
The program lays it out in four steps:

- **Parent normalisation.** Every node keeps only its first parent. Each parent popped off the end of its parent list loses the node from its own child list.
- **Childless list.** A depth-first walk from every level-0 node descends only into children on a strictly greater level. It collects the childless nodes it reaches, in pre-order.
- **Spacing steps.** The spread step V is three quarters of the largest box along the spread axis. The depth step H is the larger of 2V and the largest box along the depth axis. Widths are floored at 10 and heights at 5.
- **Coordinates.** Every level gets one depth value. The leaves are spread evenly over `[-Y_MAX, Y_MAX]`. Walking up from the second-deepest level, every other node gets the mean of its children outside its own level. Proximity edges are then taken in order. Each one moves its target to the centre distance from its source, on the side where the target was. An edge whose two endpoints have equal values moves nothing, and a later edge may move the same target again. Last, the two values are projected onto the drawing plane: vertical view `(spread, -depth)`, horizontal view `(depth, spread)`.

Modules follow these steps:

- `LayeredGraph` (graph.dfy): the data model and the error type.
- `Seqs` (seqs.dfy): sums, means and `list.remove`.
- `Normalize` (normalize.dfy)
- `Childless` (childless.dfy)
- `Spacing` (spacing.dfy)
- `DepthAxis` (depth_axis.dfy)
- `SpreadAxis` (spread_axis.dfy)
- `Proximity` (proximity.dfy)
- `Coordinates` (coordinates.dfy): the pipeline.

Where the source would crash (a `KeyError`, a `ValueError` from `list.remove`, a `TypeError` on the empty set a `defaultdict(set)` hands out), the model returns an `Err` of `LayoutError`. Every error names the offending node, except `EmptyLevelIndex`: it stands for the `KeyError` of a level index without key `"0"` (line 167), where there is no node to name.

Three behaviours of the code are kept as written:

- The spread axis is always proximity-adjusted as in the vertical view. Line 111 does not pass the orientation on, so the centre distance is the mean of the two widths, even in the horizontal view (`Coordinates.GenerateCoordinates`).
- `list.pop` removes the last parent, so it is the first parent that survives normalisation.
- The leaf layout is taken from `np.linspace` with `num = n1`. A single leaf therefore sits at `-Y_MAX = 0`, since `Y_MAX = (1 // 2)·V = 0`.

Normalisation is not total. It fails when a popped parent has no record, or when that parent does not list the node as a child. The model keeps both error paths (`Normalize.DropParentsSpec`, `Normalize.NormalizeSpec`).

## Model

| member | source | states |
|---|---|---|
| Normalize.PopParent | graph_viz_v4.py:19-20 | one pop shortens the node's parent list by exactly one and keeps the set of node identifiers |
| Normalize.PopParentSpec | graph_viz_v4.py:19-20 | one pop takes the last parent off the node's list and removes the first occurrence of the node from that parent's children; every other parent list and child list, and every size and level, stays |
| Normalize.DropParentsSpec | graph_viz_v4.py:18-20 | normalising one node succeeds iff every popped parent exists and lists the node as a child at least as often as it is popped; then the node keeps only its first parent, other parent lists stay, and each popped parent loses one occurrence of the node per pop |
| Normalize.NormalizeAllOk | graph_viz_v4.py:17-20 | normalising the nodes in turn succeeds iff each of them could be normalised in the original graph |
| Normalize.NormalizeAllResult | graph_viz_v4.py:17-20 | after a successful pass each normalised node keeps its first parent only; every child list lost exactly the occurrences its dropped-parent relations account for, these are the first occurrences of each dropped child, and the survivors keep their order; untouched child lists, sizes and levels stay |
| Normalize.NormalizeAllOrder | graph_viz_v4.py:17-20 | for one node, its child list after the pass is its original list with the first occurrences that the pops account for removed, the rest in their order |
| Seqs.RemoveFirstAt | graph_viz_v4.py:20 | `list.remove(x)` deletes exactly the element at the first index of `x`: the result is the part before it followed by the part after it |
| Seqs.RemoveNIsRemoveFirsts | graph_viz_v4.py:20 | `k` successive `list.remove(x)` calls remove the first `k` occurrences of `x` and keep the order of the rest |
| Normalize.CanDropPreserved | graph_viz_v4.py:17-20 | normalising one node does not change whether another node can be normalised |
| Normalize.NormalizeSpec | graph_viz_v4.py:17-20 | graph-wide normalisation succeeds iff every node can be normalised; afterwards a node without parents still has none, and every other node has exactly its original first parent |
| Normalize.NormalizeIdempotent | graph_viz_v4.py:17-20 | normalising a normalised graph changes nothing |
| Normalize.SingleParentsFixed | graph_viz_v4.py:18 | nodes with at most one parent are left as they are |
| Childless.RankDecreases | graph_viz_v4.py:31-32 | every edge the walk follows leads to a node with fewer nodes above its level, so the walk terminates even on cyclic child lists |
| Childless.Collect | graph_viz_v4.py:25-32 | the walk only appends to the list it is given, and it fails only on an identifier without a node record |
| Childless.CollectIsLeavesOf | graph_viz_v4.py:25-32 | when every child has a record, the walk from a node appends exactly its pre-order leaves |
| Childless.LeafReached | graph_viz_v4.py:27-32 | every collected node is childless and reachable from the start node along strictly level-increasing child edges |
| Childless.ReachedLeafCollected | graph_viz_v4.py:27-32 | every childless node reachable from a node along such edges is collected |
| Childless.CollectRoots | graph_viz_v4.py:166-168 | the loop over the roots only appends, and it fails only on an identifier without a node record |
| Childless.CollectRootsIsLeavesOfRoots | graph_viz_v4.py:166-168 | the loop over the level-0 nodes appends the leaves of each root in turn |
| Childless.LeavesOfRootsExact | graph_viz_v4.py:25-32 | a node is among the leaves of the roots iff it is a childless node reachable from one of them |
| Childless.ChildlessListExact | graph_viz_v4.py:165-168 | the childless list is the roots' pre-order leaves, and contains exactly the reachable childless nodes |
| Spacing.MaxExtent | graph_viz_v4.py:97-101 | the running maximum is at least its start and every node's extent, and equals one of them |
| Spacing.MaxOver | graph_viz_v4.py:95-101 | the largest width (height) is at least 10 (5) and every node's width (height), and is the floor or some node's extent |
| Spacing.AxisSteps | graph_viz_v4.py:103-108 | V is three quarters of the largest box along the spread axis; H is at least 2V and the largest box along the depth axis and equals one of them; both are positive |
| Spacing.SpreadStepCoversBoxes | graph_viz_v4.py:103-108 | V is at least three quarters of every box along the spread axis and of the floor |
| DepthAxis.AssignAllAt | graph_viz_v4.py:39-41 | every node of a level gets the level's value; other entries stay |
| DepthAxis.SlotsFromLast | graph_viz_v4.py:38-42 | started at the running offset of a level, the loop leaves a node in the slot of the last level listing it |
| DepthAxis.DepthAxisSpec | graph_viz_v4.py:35-44 | exactly the listed nodes get a depth value; it is `(nodes before the level + level size − 1)·H` for the last level listing the node |
| DepthAxis.SharedDepthPerLevel | graph_viz_v4.py:38-41 | when no node is listed twice, all nodes of a level share one depth value |
| DepthAxis.LevelSlotIncreasing | graph_viz_v4.py:40-42 | with non-empty levels, each level's slot lies after every earlier level's |
| DepthAxis.LevelDepthIncreasing | graph_viz_v4.py:40-42 | a deeper level's depth value is at least one step H further |
| SpreadAxis.LeafSpreadEnds | graph_viz_v4.py:71-72 | the first leaf sits at `-Y_MAX` and the last one at `Y_MAX` |
| SpreadAxis.SingleLeafCentred | graph_viz_v4.py:70-72 | a lone leaf sits at 0 |
| SpreadAxis.LeafSpreadSymmetric | graph_viz_v4.py:71-72 | leaf `i` and leaf `n1−1−i` are mirror images |
| SpreadAxis.LeafStepAtLeastV | graph_viz_v4.py:71-72 | neighbouring leaves are at least V apart, exactly V for an odd number of leaves |
| SpreadAxis.LeafSpreadIncreasing | graph_viz_v4.py:71-72 | leaves are in increasing order, at least `(j−i)·V` apart |
| SpreadAxis.LeafSpreadWithin | graph_viz_v4.py:71-72 | every leaf lies in `[-Y_MAX, Y_MAX]` |
| SpreadAxis.LeafValuesSpec | graph_viz_v4.py:70-75 | exactly the leaves get a value; a leaf listed twice keeps the value of its last position |
| SpreadAxis.DistinctLeafValues | graph_viz_v4.py:73-75 | in a list without repeats, leaf `k` gets the `k`-th evenly spaced value |
| SpreadAxis.Eligible | graph_viz_v4.py:82 | the children taken into the mean are those outside the current layer, each as often as the child list names it, in child-list order |
| SpreadAxis.Lookup | graph_viz_v4.py:82 | reading the children's values succeeds iff all have one; otherwise the error names a child without one |
| SpreadAxis.PlaceNode | graph_viz_v4.py:80-83 | a placed node is kept; otherwise the node gets the mean of its eligible children and nothing else changes; failure iff the node has no record, no eligible child, or an eligible child without a value |
| SpreadAxis.FitsWithin | graph_viz_v4.py:82-83 | a node's mean lies within any bounds of its eligible children's values |
| SpreadAxis.PlaceLayerFromSpec | graph_viz_v4.py:80-83 | a layer pass keeps earlier values, adds exactly the layer's nodes, and fits each newly placed node to its children |
| SpreadAxis.PlaceLevelsSpec | graph_viz_v4.py:78-83 | the upward walk keeps earlier values, adds exactly the nodes of the walked layers, and fits each newly placed node in the layer where the walk first meets it |
| SpreadAxis.SpreadValuesSpec | graph_viz_v4.py:65-83 | leaves keep their evenly spaced values; the placed nodes are the leaves plus all layers but the deepest; every other node is the mean of its eligible children |
| Proximity.AdjustEdge | graph_viz_v4.py:48-60 | plain edges change nothing; a proximity edge moves only its target, to exactly the centre distance on the side it was on, or leaves equal values alone; it fails iff an endpoint lacks a record, or exactly one endpoint lacks a value; when both lack a value nothing changes |
| Proximity.AdjustEdgeKeepsSide | graph_viz_v4.py:57-60 | with a positive distance the moved target stays on its side of the source |
| Proximity.CentreDistancePositive | graph_viz_v4.py:52-55 | boxes of positive size are a positive centre distance apart |
| Proximity.AdjustAllOk | graph_viz_v4.py:47-62 | the pass succeeds iff every proximity edge has both endpoints recorded and either both or neither placed, and it adds no node |
| Proximity.AdjustAllKeeps | graph_viz_v4.py:47-62 | a node no proximity edge targets keeps its value |
| Proximity.ProximityEdges | graph_viz_v4.py:50-51 | the filtered edges are the proximity edges, each as often as the edge list holds it, in edge order |
| Proximity.PlainEdgesIgnored | graph_viz_v4.py:50-51 | the pass over all edges equals the pass over the proximity edges alone |
| Proximity.AdjustAllSeparates | graph_viz_v4.py:47-62 | after the pass, a proximity edge whose endpoints no later edge moves has both endpoints placed or neither, and placed ones equal or exactly the centre distance apart |
| Coordinates.ProjectRoundTrip | graph_viz_v4.py:113-117 | the projection can be undone, so distinct value pairs give distinct points |
| Coordinates.UnprojectRoundTrip | graph_viz_v4.py:113-117 | every point is the projection of some value pair |
| Coordinates.Flatten | graph_viz_v4.py:38-39 | the flattened level index holds exactly the listed nodes |
| Coordinates.Projection | graph_viz_v4.py:113-117 | each node with a depth value gets the projection of its two values; the loop fails iff some such node has no spread value, and the error names it |
| Coordinates.GenerateCoordinatesSpec | graph_viz_v4.py:90-119 | exactly the listed nodes get a point; the depth coordinate is the closed-form depth of the node's last level; the spread coordinate is its spread value after the vertical-mode proximity pass, in both views |
| Coordinates.LevelsAligned | graph_viz_v4.py:35-44 | nodes of one level share the depth coordinate; deeper levels lie strictly further along it |
| Coordinates.SameSteps | graph_viz_v4.py:17-20 | normalisation changes no box, so V and H are those of the loaded graph |
| Coordinates.LayoutSpec | graph_viz_v4.py:158-172 | the pipeline fails when some node cannot drop its extra parents; on success exactly the listed nodes get a point, at the depth of their last level |

## Left out

- Loading the JSON file, the `input()` prompts and plotting (lines 8-14, 122-156, 160-161, 170, 174) are left out. The graph, the edges, the level index and the orientation are parameters.
- Floating point is not modelled. Values are exact reals, and `np.linspace` is taken as `-Y_MAX + i·step` with step `2·Y_MAX/(n1−1)`.
- Node and level values are assumed to be well-typed. Parsing `"a::b"` edge keys and `int()` conversions of levels are left out: edges are `(source, target, proximity)` records and levels are integers.
- The level index is a sequence whose position `k` is key `"k"`. The source iterates the dictionary in insertion order on line 38 but indexes `str(i)` on line 79. The model assumes these agree.
- Empty levels are excluded (`NonEmptyLevels`). On an empty level, line 40 never runs, and line 42 reuses the previous level's size.
- A node with no eligible child is an error (`NoEligibleChildren`). In the source, `np.mean([])` would give NaN with a warning.
- A lookup into a `defaultdict(set)` that hands out `set()` is an error (`UnassignedChild` or `UnplacedNode`). This covers three cases. For a child without a value on line 82, `np.mean` on line 83 raises a `TypeError`. For a proximity edge with exactly one endpoint without a spread value, the comparison on line 57 raises it. For a listed node without a spread value, lines 115/117 return a pair holding `set()`, and plotting raises the `TypeError` on lines 129-130 when it subtracts half the box from it. The model reports the error at the lookup. When neither endpoint of a proximity edge has a spread value, line 57 compares two empty sets, and both comparisons are false; the model leaves the values unchanged, as the source does. The source also stores `set()` under both keys there, and the model does not add them. A listed node that ends up with such an entry is an `UnplacedNode` error in `Coordinates.Projection`.
- Orientations other than `vertical` and `horizontal` are left out. With any other mode, the source leaves V, H and the distance unset.
- Childless.Collect: its contract does not say which identifier the walk fails on first, only that the failure names an identifier without a record.
