/** Proximity adjustment: for each proximity edge in order, the target is
    moved to exactly the centre distance from the source, on the side it
    was already on; equal values are left alone. */
module Proximity {
  import opened LayeredGraph
  import opened Spacing
  import opened Seqs

  /** The distance between the centres of two boxes standing side by side
      along the spread axis: the mean of their extents. */
  function CentreDistance(a: Node, b: Node, mode: Orientation): real {
    (Extent(a, SpreadDimension(mode)) + Extent(b, SpreadDimension(mode))) / 2.0
  }

  /** Processes one edge. An endpoint without a node record is an error
      (a KeyError in the source). So is an edge with exactly one endpoint
      without a spread value: the source compares a number with the empty
      set it reads there. When neither endpoint has a value, the source
      compares two empty sets, neither is less than the other, and
      nothing moves. */
  function AdjustEdge(nodes: NodeMap, y: map<NodeId, real>, e: Edge, mode: Orientation): (r: Result<map<NodeId, real>>)
    ensures !e.proximity ==> r == Ok(y)
    ensures r.Err? <==> e.proximity && (e.source !in nodes || e.target !in nodes || (e.source in y) != (e.target in y))
    ensures e.proximity && e.source in nodes && e.target in nodes && e.source !in y && e.target !in y ==> r == Ok(y)
    ensures r.Ok? ==> r.value.Keys == y.Keys
    ensures r.Ok? ==> forall id :: id in y && id != e.target ==> r.value[id] == y[id]
    ensures r.Ok? && e.proximity && e.source in y && e.target in y ==>
      var d := CentreDistance(nodes[e.source], nodes[e.target], mode);
      var (a, b) := (y[e.source], y[e.target]);
      && (a == b ==> r.value == y)
      && (a < b ==> r.value[e.target] - r.value[e.source] == d)
      && (a > b ==> r.value[e.target] - r.value[e.source] == -d)
  {
    if !e.proximity then Ok(y)
    else if e.source !in nodes then Err(MissingNode(e.source))
    else if e.target !in nodes then Err(MissingNode(e.target))
    else if e.source !in y && e.target !in y then Ok(y)
    else if e.source !in y then Err(UnplacedNode(e.source))
    else if e.target !in y then Err(UnplacedNode(e.target))
    else
      var d := CentreDistance(nodes[e.source], nodes[e.target], mode);
      var (a, b) := (y[e.source], y[e.target]);
      if a < b then Ok(y[e.target := a + d])
      else if a > b then Ok(y[e.target := a - d])
      else Ok(y)
  }

  /** With a positive centre distance, a moved target stays on the side of
      the source it was on, at exactly that distance. */
  lemma AdjustEdgeKeepsSide(nodes: NodeMap, y: map<NodeId, real>, e: Edge, mode: Orientation)
    requires e.proximity && AdjustEdge(nodes, y, e, mode).Ok?
    requires e.source in y && e.target in y && y[e.source] != y[e.target]
    requires CentreDistance(nodes[e.source], nodes[e.target], mode) > 0.0
    ensures var r := AdjustEdge(nodes, y, e, mode).value;
      && (r[e.target] < r[e.source] <==> y[e.target] < y[e.source])
      && (r[e.target] > r[e.source] <==> y[e.target] > y[e.source])
      && (r[e.target] - r[e.source] == CentreDistance(nodes[e.source], nodes[e.target], mode)
          || r[e.source] - r[e.target] == CentreDistance(nodes[e.source], nodes[e.target], mode))
  {
  }

  /** Boxes of positive size are a positive centre distance apart, so the
      side condition of `AdjustEdgeKeepsSide` holds on such graphs. */
  lemma CentreDistancePositive(nodes: NodeMap, a: NodeId, b: NodeId, mode: Orientation)
    requires PositiveBoxes(nodes) && a in nodes && b in nodes
    ensures CentreDistance(nodes[a], nodes[b], mode) > 0.0
  {
    assert Extent(nodes[a], SpreadDimension(mode)) > 0.0;
    assert Extent(nodes[b], SpreadDimension(mode)) > 0.0;
  }

  /** The loop over the edges, in insertion order. */
  function AdjustAll(nodes: NodeMap, y: map<NodeId, real>, edges: seq<Edge>, mode: Orientation): Result<map<NodeId, real>>
    decreases |edges|
  {
    if edges == [] then Ok(y)
    else
      match AdjustEdge(nodes, y, edges[0], mode)
      case Err(e) => Err(e)
      case Ok(y') => AdjustAll(nodes, y', edges[1..], mode)
  }

  /** Every proximity edge has both endpoints recorded, and either both
      or neither of them placed. */
  ghost predicate Resolvable(nodes: NodeMap, y: map<NodeId, real>, edges: seq<Edge>) {
    forall e :: e in edges && e.proximity ==>
      e.source in nodes && e.target in nodes && (e.source in y <==> e.target in y)
  }

  /** The adjustment succeeds exactly when every proximity edge can be
      resolved, and then it changes no key of the map. */
  lemma {:induction false} AdjustAllOk(nodes: NodeMap, y: map<NodeId, real>, edges: seq<Edge>, mode: Orientation)
    ensures AdjustAll(nodes, y, edges, mode).Ok? <==> Resolvable(nodes, y, edges)
    ensures AdjustAll(nodes, y, edges, mode).Ok? ==> AdjustAll(nodes, y, edges, mode).value.Keys == y.Keys
    decreases |edges|
  {
    if edges != [] {
      var r := AdjustEdge(nodes, y, edges[0], mode);
      if r.Ok? {
        AdjustAllOk(nodes, r.value, edges[1..], mode);
        assert forall e :: e in edges <==> e == edges[0] || e in edges[1..];
      }
    }
  }

  /** `id` is the target of no proximity edge of `edges`. */
  ghost predicate NeverMoved(edges: seq<Edge>, id: NodeId) {
    forall e :: e in edges && e.proximity ==> e.target != id
  }

  /** A node no proximity edge targets keeps its value. */
  lemma {:induction false} AdjustAllKeeps(nodes: NodeMap, y: map<NodeId, real>, edges: seq<Edge>, mode: Orientation, id: NodeId)
    requires AdjustAll(nodes, y, edges, mode).Ok?
    requires id in y && NeverMoved(edges, id)
    ensures id in AdjustAll(nodes, y, edges, mode).value
    ensures AdjustAll(nodes, y, edges, mode).value[id] == y[id]
    decreases |edges|
  {
    if edges != [] {
      var y' := AdjustEdge(nodes, y, edges[0], mode).value;
      assert edges[0] in edges;
      assert NeverMoved(edges[1..], id) by {
        forall e | e in edges[1..] && e.proximity ensures e.target != id {
          assert e in edges;
        }
      }
      AdjustAllKeeps(nodes, y', edges[1..], mode, id);
    }
  }

  /** The edges the adjustment acts on, each as often as `edges` lists it,
      in their order. */
  function ProximityEdges(edges: seq<Edge>): (r: seq<Edge>)
    ensures forall e :: e in r <==> e in edges && e.proximity
    ensures forall e :: multiset(r)[e] == if e.proximity then multiset(edges)[e] else 0
    ensures Subsequence(r, edges)
  {
    if edges == [] then []
    else
      assert edges == [edges[0]] + edges[1..];
      if edges[0].proximity then [edges[0]] + ProximityEdges(edges[1..])
      else ProximityEdges(edges[1..])
  }

  /** Adjusting along a proximity edge followed by `rest`. */
  lemma AdjustAllCons(nodes: NodeMap, y: map<NodeId, real>, e: Edge, rest: seq<Edge>, mode: Orientation)
    ensures AdjustEdge(nodes, y, e, mode).Err? ==>
      AdjustAll(nodes, y, [e] + rest, mode) == Err(AdjustEdge(nodes, y, e, mode).error)
    ensures AdjustEdge(nodes, y, e, mode).Ok? ==>
      AdjustAll(nodes, y, [e] + rest, mode) == AdjustAll(nodes, AdjustEdge(nodes, y, e, mode).value, rest, mode)
  {
    assert ([e] + rest)[0] == e && ([e] + rest)[1..] == rest;
  }

  /** Plain edges have no effect: adjusting along all edges is adjusting
      along the proximity edges alone. */
  lemma {:induction false} PlainEdgesIgnored(nodes: NodeMap, y: map<NodeId, real>, edges: seq<Edge>, mode: Orientation)
    ensures AdjustAll(nodes, y, edges, mode) == AdjustAll(nodes, y, ProximityEdges(edges), mode)
    decreases |edges|
  {
    if edges != [] {
      var rest := ProximityEdges(edges[1..]);
      if edges[0].proximity {
        assert ProximityEdges(edges) == [edges[0]] + rest;
        AdjustAllCons(nodes, y, edges[0], rest, mode);
        var r := AdjustEdge(nodes, y, edges[0], mode);
        if r.Ok? {
          PlainEdgesIgnored(nodes, r.value, edges[1..], mode);
        }
      } else {
        assert ProximityEdges(edges) == rest;
        PlainEdgesIgnored(nodes, y, edges[1..], mode);
      }
    }
  }

  /** After the whole pass, a proximity edge whose endpoints no later
      proximity edge targets has both endpoints placed or neither, and
      placed endpoints are either equal or exactly the centre distance
      apart. */
  lemma {:induction false} AdjustAllSeparates(nodes: NodeMap, y: map<NodeId, real>, edges: seq<Edge>, mode: Orientation, k: nat)
    requires AdjustAll(nodes, y, edges, mode).Ok?
    requires k < |edges| && edges[k].proximity
    requires NeverMoved(edges[k + 1..], edges[k].source) && NeverMoved(edges[k + 1..], edges[k].target)
    ensures var r := AdjustAll(nodes, y, edges, mode).value;
      var e := edges[k];
      && e.source in nodes && e.target in nodes
      && (e.source in r <==> e.target in r)
      && (e.source in r ==>
           var d := CentreDistance(nodes[e.source], nodes[e.target], mode);
           r[e.target] == r[e.source] || r[e.target] - r[e.source] == d || r[e.target] - r[e.source] == -d)
    decreases k
  {
    var y' := AdjustEdge(nodes, y, edges[0], mode).value;
    if k == 0 {
      AdjustAllOk(nodes, y', edges[1..], mode);
      if edges[0].source in y' {
        AdjustAllKeeps(nodes, y', edges[1..], mode, edges[0].source);
        AdjustAllKeeps(nodes, y', edges[1..], mode, edges[0].target);
      }
    } else {
      assert edges[1..][k - 1] == edges[k] && edges[1..][k..] == edges[k + 1..];
      AdjustAllSeparates(nodes, y', edges[1..], mode, k - 1);
    }
  }
}
