/** The two spacing constants of a layout: the spread-axis step V and the
    depth-axis step H, derived from the largest node box. */
module Spacing {
  import opened LayeredGraph

  /** The smallest maximum each dimension can have: 10 for widths, 5 for heights. */
  function Floor(d: Dimension): real {
    match d
    case Width => 10.0
    case Height => 5.0
  }

  /** The running maximum of one box dimension over the nodes of `ids`,
      starting from `m`: the least value that is at least `m` and at least
      every node's extent. */
  function MaxExtent(nodes: NodeMap, ids: seq<NodeId>, d: Dimension, m: real): (r: real)
    requires forall id :: id in ids ==> id in nodes
    ensures r >= m
    ensures forall id :: id in ids ==> r >= Extent(nodes[id], d)
    ensures r == m || exists id :: id in ids && r == Extent(nodes[id], d)
  {
    if ids == [] then m
    else
      var e := Extent(nodes[ids[0]], d);
      var r := MaxExtent(nodes, ids[1..], d, if e > m then e else m);
      assert r == e ==> ids[0] in ids && r == Extent(nodes[ids[0]], d);
      r
  }

  /** The largest width (or height) of the graph, floored. */
  function MaxOver(g: Graph, d: Dimension): (r: real)
    requires Valid(g)
    ensures r >= Floor(d)
    ensures forall id :: id in g.nodes ==> r >= Extent(g.nodes[id], d)
    ensures r == Floor(d) || exists id :: id in g.nodes && r == Extent(g.nodes[id], d)
  {
    MaxExtent(g.nodes, g.order, d, Floor(d))
  }

  /** The dimension measured along the spread axis: widths side by side
      in the vertical view, heights stacked in the horizontal one. */
  function SpreadDimension(mode: Orientation): Dimension {
    match mode
    case Vertical => Width
    case Horizontal => Height
  }

  /** The dimension measured along the depth axis. */
  function DepthDimension(mode: Orientation): Dimension {
    match mode
    case Vertical => Height
    case Horizontal => Width
  }

  /** V (spread step) and H (depth step). */
  datatype Steps = Steps(spread: real, depth: real)

  /** V is three quarters of the largest box along the spread axis; H is
      the larger of 2V and the largest box along the depth axis. */
  function AxisSteps(g: Graph, mode: Orientation): (s: Steps)
    requires Valid(g)
    ensures s.spread == 0.75 * MaxOver(g, SpreadDimension(mode))
    ensures s.depth >= 2.0 * s.spread && s.depth >= MaxOver(g, DepthDimension(mode))
    ensures s.depth == 2.0 * s.spread || s.depth == MaxOver(g, DepthDimension(mode))
    ensures s.depth >= 2.0 * s.spread > 0.0
  {
    var v := MaxOver(g, SpreadDimension(mode)) * 3.0 / 4.0;
    var h := MaxOver(g, DepthDimension(mode));
    Steps(v, if 2.0 * v > h then 2.0 * v else h)
  }

  /** The spread step is at least 3/4 of the floor and at least 3/4 of
      every node's extent along the spread axis, so neighbouring leaves
      are never closer than three quarters of the widest box. */
  lemma SpreadStepCoversBoxes(g: Graph, mode: Orientation)
    requires Valid(g)
    ensures AxisSteps(g, mode).spread >= 0.75 * Floor(SpreadDimension(mode))
    ensures forall id :: id in g.nodes ==>
              AxisSteps(g, mode).spread >= 0.75 * Extent(g.nodes[id], SpreadDimension(mode))
  {
  }
}
