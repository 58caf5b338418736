/** Coordinate generation: the spacing steps, the two axes, the proximity
    adjustment and the projection onto the drawing plane, and the whole
    pipeline from a loaded graph to one point per listed node. */
module Coordinates {
  import opened LayeredGraph
  import opened Normalize
  import opened Childless
  import opened Spacing
  import opened DepthAxis
  import opened SpreadAxis
  import opened Proximity

  /** A point of the drawing plane. */
  datatype Point = Point(x: real, y: real)

  /** The spread axis as a whole: leaves and internal nodes, then the
      proximity adjustment in the given orientation. */
  function SpreadAxisValues(nodes: NodeMap, edges: seq<Edge>, levels: LevelIndex, leaves: seq<NodeId>,
                            v: real, mode: Orientation): Result<map<NodeId, real>>
  {
    match SpreadValues(nodes, levels, leaves, v)
    case Err(e) => Err(e)
    case Ok(y) => AdjustAll(nodes, y, edges, mode)
  }

  /** Places a node with depth value `depth` and spread value `spread`:
      the horizontal view runs depth left to right, the vertical view
      runs it top to bottom. */
  function Project(depth: real, spread: real, mode: Orientation): (p: Point)
    ensures mode == Horizontal ==> p.x == depth && p.y == spread
    ensures mode == Vertical ==> p.x == spread && p.y == -depth
  {
    match mode
    case Horizontal => Point(depth, spread)
    case Vertical => Point(spread, -depth)
  }

  /** Recovers the depth and spread values from a point. */
  function Unproject(p: Point, mode: Orientation): (real, real) {
    match mode
    case Horizontal => (p.x, p.y)
    case Vertical => (-p.y, p.x)
  }

  /** The projection loses nothing: distinct value pairs give distinct points. */
  lemma ProjectRoundTrip(depth: real, spread: real, mode: Orientation)
    ensures Unproject(Project(depth, spread, mode), mode) == (depth, spread)
  {
  }

  lemma UnprojectRoundTrip(p: Point, mode: Orientation)
    ensures Project(Unproject(p, mode).0, Unproject(p, mode).1, mode) == p
  {
  }

  /** All node identifiers of the level index, level by level. */
  function Flatten(levels: LevelIndex): (r: seq<NodeId>)
    ensures forall id :: id in r <==> exists k :: 0 <= k < |levels| && id in levels[k]
  {
    if levels == [] then []
    else
      var r := levels[0] + Flatten(levels[1..]);
      assert forall id :: (exists k :: 1 <= k < |levels| && id in levels[k]) ==> id in Flatten(levels[1..]) by {
        forall id | exists k :: 1 <= k < |levels| && id in levels[k]
          ensures id in Flatten(levels[1..])
        {
          var k :| 1 <= k < |levels| && id in levels[k];
          assert levels[1..][k - 1] == levels[k];
        }
      }
      r
  }

  /** The identifiers of `ids` that have no value in `y`, in order. */
  function Unplaced(ids: seq<NodeId>, y: map<NodeId, real>): (r: seq<NodeId>)
    ensures forall id :: id in r <==> id in ids && id !in y
  {
    if ids == [] then []
    else if ids[0] in y then Unplaced(ids[1..], y)
    else [ids[0]] + Unplaced(ids[1..], y)
  }

  /** The loop over the nodes with a depth value: each gets the projection
      of its two values. A node without a spread value is an error. */
  function Projection(x: map<NodeId, real>, y: map<NodeId, real>, ids: seq<NodeId>, mode: Orientation): (r: Result<map<NodeId, Point>>)
    requires forall id :: id in ids ==> id in x
    ensures r.Ok? <==> forall id :: id in ids ==> id in y
    ensures r.Ok? ==> forall id :: id in r.value <==> id in ids
    ensures r.Ok? ==> forall id :: id in ids ==> r.value[id] == Project(x[id], y[id], mode)
    ensures r.Err? ==> r.error.UnplacedNode? && r.error.id in ids && r.error.id !in y
  {
    var missing := Unplaced(ids, y);
    if missing != [] then
      assert missing[0] in missing;
      Err(UnplacedNode(missing[0]))
    else Ok(map id | id in ids :: Project(x[id], y[id], mode))
  }

  /** Coordinates of every node listed in the level index. The spread axis
      is always adjusted as in the vertical view, whatever `mode` is: the
      orientation is not passed on to it. */
  function GenerateCoordinates(g: Graph, edges: seq<Edge>, levels: LevelIndex, leaves: seq<NodeId>,
                               mode: Orientation): Result<map<NodeId, Point>>
    requires Valid(g) && NonEmptyLevels(levels)
  {
    var steps := AxisSteps(g, mode);
    var x := DepthAxisValues(levels, steps.depth);
    DepthAxisSpec(levels, steps.depth);
    match SpreadAxisValues(g.nodes, edges, levels, leaves, steps.spread, Vertical)
    case Err(e) => Err(e)
    case Ok(y) => Projection(x, y, Flatten(levels), mode)
  }

  /** The whole pipeline after loading: normalise the parents, collect the
      leaves from the level-0 nodes, then generate the coordinates. */
  function Layout(g: Graph, edges: seq<Edge>, levels: LevelIndex, mode: Orientation): Result<map<NodeId, Point>>
    requires Valid(g) && NonEmptyLevels(levels)
  {
    match Normalize.Normalize(g)
    case Err(e) => Err(e)
    case Ok(g') =>
      match ChildlessList(g'.nodes, levels)
      case Err(e) => Err(e)
      case Ok(leaves) => GenerateCoordinates(g', edges, levels, leaves, mode)
  }

  /** On success every node listed in the level index gets exactly one
      point, and nothing else does. Its depth coordinate is the closed-form
      depth of the last level listing it; its spread coordinate is its
      spread value adjusted with the widths of the boxes, in either view. */
  lemma GenerateCoordinatesSpec(g: Graph, edges: seq<Edge>, levels: LevelIndex, leaves: seq<NodeId>, mode: Orientation)
    requires Valid(g) && NonEmptyLevels(levels)
    requires GenerateCoordinates(g, edges, levels, leaves, mode).Ok?
    ensures var c := GenerateCoordinates(g, edges, levels, leaves, mode).value;
      var steps := AxisSteps(g, mode);
      var y := SpreadAxisValues(g.nodes, edges, levels, leaves, steps.spread, Vertical);
      && (forall id :: id in c <==> exists k :: 0 <= k < |levels| && id in levels[k])
      && (forall id, k :: LastListedAt(levels, id, k) ==>
            (mode == Horizontal ==> c[id].x == LevelDepth(levels, k, steps.depth))
            && (mode == Vertical ==> c[id].y == -LevelDepth(levels, k, steps.depth)))
      && y.Ok?
      && (forall id :: id in c ==>
            && id in y.value
            && (mode == Horizontal ==> c[id].y == y.value[id])
            && (mode == Vertical ==> c[id].x == y.value[id]))
  {
    DepthAxisSpec(levels, AxisSteps(g, mode).depth);
  }

  /** The whole pipeline fails as soon as some node cannot drop its extra
      parents, and otherwise, on success, gives a point to exactly the
      nodes the level index lists, with the depth coordinate of the last
      level listing each of them. */
  lemma LayoutSpec(g: Graph, edges: seq<Edge>, levels: LevelIndex, mode: Orientation)
    requires Valid(g) && NonEmptyLevels(levels)
    ensures (exists n :: n in g.nodes && !CanDrop(g.nodes, n, Dropped(g.nodes[n]))) ==> Layout(g, edges, levels, mode).Err?
    ensures Layout(g, edges, levels, mode).Ok? ==>
      var c := Layout(g, edges, levels, mode).value;
      var h := AxisSteps(g, mode).depth;
      && (forall id :: id in c <==> exists k :: 0 <= k < |levels| && id in levels[k])
      && (forall id, k :: LastListedAt(levels, id, k) ==>
            (mode == Horizontal ==> c[id].x == LevelDepth(levels, k, h))
            && (mode == Vertical ==> c[id].y == -LevelDepth(levels, k, h)))
  {
    NormalizeSpec(g);
    if Layout(g, edges, levels, mode).Ok? {
      var g' := Normalize.Normalize(g).value;
      var leaves := ChildlessList(g'.nodes, levels).value;
      GenerateCoordinatesSpec(g', edges, levels, leaves, mode);
      SameSteps(g, g', mode);
    }
  }

  /** Normalisation keeps every box, so the spacing steps do not change. */
  lemma SameSteps(g: Graph, g': Graph, mode: Orientation)
    requires Valid(g) && Normalize.Normalize(g) == Ok(g')
    ensures AxisSteps(g', mode) == AxisSteps(g, mode)
  {
    NormalizeAllShape(g.nodes, g.order);
    forall d: Dimension
      ensures MaxOver(g', d) == MaxOver(g, d)
    {
      SameExtents(g.nodes, g'.nodes, g.order, d, Floor(d));
    }
  }

  lemma {:induction false} SameExtents(nodes: NodeMap, nodes': NodeMap, ids: seq<NodeId>, d: Dimension, m: real)
    requires forall id :: id in ids ==> id in nodes
    requires nodes'.Keys == nodes.Keys && ShapesKept(nodes, nodes')
    ensures MaxExtent(nodes', ids, d, m) == MaxExtent(nodes, ids, d, m)
    decreases |ids|
  {
    if ids != [] {
      var x := ids[0];
      assert Relink(nodes'[x], nodes[x].parents, nodes[x].children) == nodes[x];
      assert Extent(nodes'[x], d) == Extent(nodes[x], d);
      var e := Extent(nodes[x], d);
      SameExtents(nodes, nodes', ids[1..], d, if e > m then e else m);
    }
  }

  /** In one level of a level index that lists no node twice, all nodes
      share their depth coordinate, and deeper levels lie strictly further
      along the depth axis. */
  lemma LevelsAligned(g: Graph, edges: seq<Edge>, levels: LevelIndex, leaves: seq<NodeId>, mode: Orientation,
                      j: nat, k: nat, a: NodeId, b: NodeId)
    requires Valid(g) && NonEmptyLevels(levels) && DisjointLevels(levels)
    requires GenerateCoordinates(g, edges, levels, leaves, mode).Ok?
    requires j <= k < |levels| && a in levels[j] && b in levels[k]
    ensures var c := GenerateCoordinates(g, edges, levels, leaves, mode).value;
      && a in c && b in c
      && (mode == Horizontal ==> (j == k ==> c[a].x == c[b].x) && (j < k ==> c[a].x < c[b].x))
      && (mode == Vertical ==> (j == k ==> c[a].y == c[b].y) && (j < k ==> c[a].y > c[b].y))
  {
    var h := AxisSteps(g, mode).depth;
    GenerateCoordinatesSpec(g, edges, levels, leaves, mode);
    assert LastListedAt(levels, a, j);
    assert LastListedAt(levels, b, k);
    if j < k {
      LevelDepthIncreasing(levels, h, j, k);
    }
  }
}
