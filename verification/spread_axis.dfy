/** Spread-axis allocation. Leaves are spread evenly over
    `[-Y, Y]` with `Y = (n1 div 2)·V` (as `np.linspace` does), then every
    internal node not yet placed gets the mean of the values of its
    children outside its own layer, walking the layers upwards from the
    second-deepest one. */
module SpreadAxis {
  import opened LayeredGraph
  import opened Seqs

  /** The half-width of the leaf interval: `(n1 div 2)·V`. */
  function YMax(n1: nat, v: real): real {
    (n1 / 2) as real * v
  }

  /** The distance between neighbouring leaves, `2Y / (n1 - 1)`. */
  function LeafStep(n1: nat, v: real): real
    requires n1 >= 2
  {
    2.0 * YMax(n1, v) / (n1 - 1) as real
  }

  /** The `i`-th of `n1` evenly spaced values from `-Y` to `Y`; a single
      value is the start of the interval. */
  function LeafSpread(n1: nat, v: real, i: nat): real
    requires i < n1
  {
    if n1 == 1 then -YMax(n1, v) else -YMax(n1, v) + i as real * LeafStep(n1, v)
  }

  /** `n1 - 1` steps span the whole interval. */
  lemma LeafStepSpans(n1: nat, v: real)
    requires n1 >= 2
    ensures (n1 - 1) as real * LeafStep(n1, v) == 2.0 * YMax(n1, v)
  {
  }

  /** The first leaf sits at `-Y` and the last at `Y`. */
  lemma LeafSpreadEnds(n1: nat, v: real)
    requires n1 >= 1
    ensures LeafSpread(n1, v, 0) == -YMax(n1, v)
    ensures n1 >= 2 ==> LeafSpread(n1, v, n1 - 1) == YMax(n1, v)
  {
    if n1 >= 2 {
      LeafStepSpans(n1, v);
    }
  }

  /** A single leaf is placed at the centre. */
  lemma SingleLeafCentred(v: real)
    ensures LeafSpread(1, v, 0) == 0.0
  {
    assert 1 / 2 == 0;
    assert YMax(1, v) == 0.0;
  }

  /** Leaves are placed symmetrically about zero. */
  lemma LeafSpreadSymmetric(n1: nat, v: real, i: nat)
    requires i < n1
    ensures LeafSpread(n1, v, i) + LeafSpread(n1, v, n1 - 1 - i) == 0.0
  {
    if n1 >= 2 {
      var s := LeafStep(n1, v);
      LeafStepSpans(n1, v);
      assert i as real * s + (n1 - 1 - i) as real * s == (n1 - 1) as real * s;
    }
  }

  /** With `V > 0` the step is at least `V`: `2·(n1 div 2) >= n1 - 1`. For
      an odd number of leaves it is exactly `V`. */
  lemma LeafStepAtLeastV(n1: nat, v: real)
    requires n1 >= 2 && v > 0.0
    ensures LeafStep(n1, v) >= v
    ensures n1 % 2 == 1 ==> LeafStep(n1, v) == v
  {
    var d := (n1 - 1) as real;
    var a := (2 * (n1 / 2)) as real;
    var s := LeafStep(n1, v);
    LeafStepSpans(n1, v);
    assert d * s == a * v;
    assert a >= d;
    assert a * v - d * v == (a - d) * v;
    MulNonneg(a - d, v);
    if n1 % 2 == 1 {
      assert a == d;
      assert d * (s - v) == 0.0;
    }
  }

  /** With `V > 0`, leaves further along the list are placed strictly
      further along the axis, at least `V` apart per position. */
  lemma LeafSpreadIncreasing(n1: nat, v: real, i: nat, j: nat)
    requires v > 0.0 && i < j < n1
    ensures LeafSpread(n1, v, i) + (j - i) as real * v <= LeafSpread(n1, v, j)
  {
    var s := LeafStep(n1, v);
    LeafStepAtLeastV(n1, v);
    var k := (j - i) as real;
    assert LeafSpread(n1, v, j) == LeafSpread(n1, v, i) + k * s;
    assert k * s >= k * v;
  }

  /** Every leaf value lies in `[-Y, Y]`. */
  lemma LeafSpreadWithin(n1: nat, v: real, i: nat)
    requires v >= 0.0 && i < n1
    ensures -YMax(n1, v) <= LeafSpread(n1, v, i) <= YMax(n1, v)
  {
    if n1 >= 2 {
      var s := LeafStep(n1, v);
      LeafStepSpans(n1, v);
      MulNonneg((n1 / 2) as real, v);
      assert s >= 0.0;
      assert i as real * s <= (n1 - 1) as real * s;
    }
  }

  lemma MulNonneg(a: real, b: real)
    requires a >= 0.0 && b >= 0.0
    ensures a * b >= 0.0
  {
  }

  // ---------------------------------------------------------------------
  // Leaf placement

  /** The loop over the leaf list from position `i` on; a leaf listed twice
      keeps the value of its last position. */
  function PlaceLeavesFrom(leaves: seq<NodeId>, v: real, i: nat, y: map<NodeId, real>): map<NodeId, real>
    requires i <= |leaves|
    decreases |leaves| - i
  {
    if i == |leaves| then y
    else PlaceLeavesFrom(leaves, v, i + 1, y[leaves[i] := LeafSpread(|leaves|, v, i)])
  }

  /** The spread values of the leaves, before any internal node is placed. */
  function LeafValues(leaves: seq<NodeId>, v: real): map<NodeId, real> {
    PlaceLeavesFrom(leaves, v, 0, map[])
  }

  /** `k` is the last position of `id` in `s`. */
  ghost predicate LastAt(s: seq<NodeId>, id: NodeId, k: nat) {
    && k < |s|
    && s[k] == id
    && forall j :: k < j < |s| ==> s[j] != id
  }

  lemma {:induction false} PlaceLeavesFromKeys(leaves: seq<NodeId>, v: real, i: nat, y: map<NodeId, real>, id: NodeId)
    requires i <= |leaves|
    ensures id in PlaceLeavesFrom(leaves, v, i, y) <==> id in y || id in leaves[i..]
    decreases |leaves| - i
  {
    if i < |leaves| {
      PlaceLeavesFromKeys(leaves, v, i + 1, y[leaves[i] := LeafSpread(|leaves|, v, i)], id);
      assert leaves[i..] == [leaves[i]] + leaves[i + 1..];
    }
  }

  lemma {:induction false} PlaceLeavesFromKept(leaves: seq<NodeId>, v: real, i: nat, y: map<NodeId, real>, id: NodeId)
    requires i <= |leaves| && id in y && id !in leaves[i..]
    ensures id in PlaceLeavesFrom(leaves, v, i, y)
    ensures PlaceLeavesFrom(leaves, v, i, y)[id] == y[id]
    decreases |leaves| - i
  {
    PlaceLeavesFromKeys(leaves, v, i, y, id);
    if i < |leaves| {
      assert leaves[i..] == [leaves[i]] + leaves[i + 1..];
      PlaceLeavesFromKept(leaves, v, i + 1, y[leaves[i] := LeafSpread(|leaves|, v, i)], id);
    }
  }

  lemma {:induction false} PlaceLeavesFromLast(leaves: seq<NodeId>, v: real, i: nat, y: map<NodeId, real>, id: NodeId, k: nat)
    requires i <= k && LastAt(leaves, id, k)
    ensures id in PlaceLeavesFrom(leaves, v, i, y)
    ensures PlaceLeavesFrom(leaves, v, i, y)[id] == LeafSpread(|leaves|, v, k)
    decreases |leaves| - i
  {
    var y' := y[leaves[i] := LeafSpread(|leaves|, v, i)];
    if i == k {
      assert id !in leaves[i + 1..];
      PlaceLeavesFromKept(leaves, v, i + 1, y', id);
    } else {
      PlaceLeavesFromLast(leaves, v, i + 1, y', id, k);
    }
  }

  /** Exactly the leaves get a value, and each gets the evenly spaced value
      of its last position in the leaf list. */
  lemma LeafValuesSpec(leaves: seq<NodeId>, v: real)
    ensures forall id :: id in LeafValues(leaves, v) <==> id in leaves
    ensures forall id, k :: LastAt(leaves, id, k) ==> LeafValues(leaves, v)[id] == LeafSpread(|leaves|, v, k)
  {
    assert leaves[0..] == leaves;
    forall id
      ensures id in LeafValues(leaves, v) <==> id in leaves
    {
      PlaceLeavesFromKeys(leaves, v, 0, map[], id);
    }
    forall id, k | LastAt(leaves, id, k)
      ensures LeafValues(leaves, v)[id] == LeafSpread(|leaves|, v, k)
    {
      PlaceLeavesFromLast(leaves, v, 0, map[], id, k);
    }
  }

  /** With no leaf listed twice, the `k`-th leaf gets the `k`-th value. */
  lemma DistinctLeafValues(leaves: seq<NodeId>, v: real, k: nat)
    requires Distinct(leaves) && k < |leaves|
    ensures leaves[k] in LeafValues(leaves, v)
    ensures LeafValues(leaves, v)[leaves[k]] == LeafSpread(|leaves|, v, k)
  {
    LeafValuesSpec(leaves, v);
    assert LastAt(leaves, leaves[k], k);
  }

  // ---------------------------------------------------------------------
  // Internal nodes

  /** The children in `cs` that are not listed in the layer being placed,
      each as often as `cs` lists it, in their order. */
  function Eligible(cs: seq<NodeId>, layer: seq<NodeId>): (r: seq<NodeId>)
    ensures forall c :: c in r <==> c in cs && c !in layer
    ensures forall c :: multiset(r)[c] == if c in layer then 0 else multiset(cs)[c]
    ensures Subsequence(r, cs)
    ensures |r| <= |cs|
  {
    if cs == [] then []
    else
      assert cs == [cs[0]] + cs[1..];
      if cs[0] in layer then Eligible(cs[1..], layer)
      else [cs[0]] + Eligible(cs[1..], layer)
  }

  /** The values `y` records for `cs`, in order. */
  function ValuesIn(y: map<NodeId, real>, cs: seq<NodeId>): (r: seq<real>)
    requires forall c :: c in cs ==> c in y
    ensures |r| == |cs|
  {
    if cs == [] then [] else [y[cs[0]]] + ValuesIn(y, cs[1..])
  }

  /** Reads the values of the children `cs` of `v`. A child without a value
      is an error: the source would read an empty set there and fail when
      averaging. */
  function Lookup(y: map<NodeId, real>, v: NodeId, cs: seq<NodeId>): (r: Result<seq<real>>)
    ensures r.Ok? <==> forall c :: c in cs ==> c in y
    ensures r.Ok? ==> r.value == ValuesIn(y, cs)
    ensures r.Err? ==> r.error.UnassignedChild? && r.error.id == v && r.error.child in cs && r.error.child !in y
  {
    if cs == [] then Ok([])
    else if cs[0] !in y then Err(UnassignedChild(v, cs[0]))
    else
      match Lookup(y, v, cs[1..])
      case Err(e) => Err(e)
      case Ok(vs) => Ok([y[cs[0]]] + vs)
  }

  /** `r` keeps every value `y` has. */
  ghost predicate Extends(y: map<NodeId, real>, r: map<NodeId, real>) {
    forall id :: id in y ==> id in r && r[id] == y[id]
  }

  /** `v`'s value in `y` is the mean of the values of its children outside
      `layer`, of which there is at least one. */
  ghost predicate Fits(nodes: NodeMap, y: map<NodeId, real>, layer: seq<NodeId>, v: NodeId) {
    && v in nodes && v in y
    && var cs := Eligible(nodes[v].children, layer);
    && |cs| > 0
    && (forall c :: c in cs ==> c in y)
    && y[v] == Mean(ValuesIn(y, cs))
  }

  /** Places one node of `layer`: a node that already has a value keeps it;
      otherwise it gets the mean of its eligible children's values. */
  function PlaceNode(nodes: NodeMap, y: map<NodeId, real>, layer: seq<NodeId>, v: NodeId): (r: Result<map<NodeId, real>>)
    requires v in layer
    ensures v in y ==> r == Ok(y)
    ensures r.Ok? ==> Extends(y, r.value) && r.value.Keys == y.Keys + {v}
    ensures r.Ok? && v !in y ==> Fits(nodes, r.value, layer, v)
    ensures r.Err? <==> v !in y && (v !in nodes || Eligible(nodes[v].children, layer) == []
                                    || exists c :: c in Eligible(nodes[v].children, layer) && c !in y)
  {
    if v in y then Ok(y)
    else if v !in nodes then Err(MissingNode(v))
    else
      var cs := Eligible(nodes[v].children, layer);
      if cs == [] then Err(NoEligibleChildren(v))
      else
        match Lookup(y, v, cs)
        case Err(e) => Err(e)
        case Ok(vals) =>
          var r := y[v := Mean(vals)];
          ValuesInExtend(y, r, cs);
          Ok(r)
  }

  /** Values read from a map that only gained entries are the same. */
  lemma {:induction false} ValuesInExtend(y: map<NodeId, real>, r: map<NodeId, real>, cs: seq<NodeId>)
    requires forall c :: c in cs ==> c in y
    requires Extends(y, r)
    ensures forall c :: c in cs ==> c in r
    ensures ValuesIn(r, cs) == ValuesIn(y, cs)
  {
    if cs != [] {
      ValuesInExtend(y, r, cs[1..]);
    }
  }

  /** A fitting value stays fitting while the map only gains entries. */
  lemma FitsExtend(nodes: NodeMap, y: map<NodeId, real>, r: map<NodeId, real>, layer: seq<NodeId>, v: NodeId)
    requires Fits(nodes, y, layer, v) && Extends(y, r)
    ensures Fits(nodes, r, layer, v)
  {
    ValuesInExtend(y, r, Eligible(nodes[v].children, layer));
  }

  /** A fitting value lies between the least and the greatest value of the
      children it averages. */
  lemma FitsWithin(nodes: NodeMap, y: map<NodeId, real>, layer: seq<NodeId>, v: NodeId, lo: real, hi: real)
    requires Fits(nodes, y, layer, v)
    requires forall c :: c in Eligible(nodes[v].children, layer) ==> lo <= y[c] <= hi
    ensures lo <= y[v] <= hi
  {
    var cs := Eligible(nodes[v].children, layer);
    ValuesInBounded(y, cs, lo, hi);
    MeanWithin(ValuesIn(y, cs), lo, hi);
  }

  lemma {:induction false} ValuesInBounded(y: map<NodeId, real>, cs: seq<NodeId>, lo: real, hi: real)
    requires forall c :: c in cs ==> c in y && lo <= y[c] <= hi
    ensures forall i :: 0 <= i < |cs| ==> lo <= ValuesIn(y, cs)[i] <= hi
  {
    if cs != [] {
      ValuesInBounded(y, cs[1..], lo, hi);
      assert ValuesIn(y, cs) == [y[cs[0]]] + ValuesIn(y, cs[1..]);
    }
  }

  // ---------------------------------------------------------------------
  // Layers

  /** The loop over the nodes of `layer` from position `j` on. */
  function PlaceLayerFrom(nodes: NodeMap, layer: seq<NodeId>, j: nat, y: map<NodeId, real>): Result<map<NodeId, real>>
    requires j <= |layer|
    decreases |layer| - j
  {
    if j == |layer| then Ok(y)
    else
      match PlaceNode(nodes, y, layer, layer[j])
      case Err(e) => Err(e)
      case Ok(y') => PlaceLayerFrom(nodes, layer, j + 1, y')
  }

  /** A successful pass over a layer keeps every earlier value, adds
      exactly the layer's nodes, and leaves each node it placed fitting. */
  lemma {:induction false} PlaceLayerFromSpec(nodes: NodeMap, layer: seq<NodeId>, j: nat, y: map<NodeId, real>)
    requires j <= |layer|
    requires PlaceLayerFrom(nodes, layer, j, y).Ok?
    ensures var r := PlaceLayerFrom(nodes, layer, j, y).value;
      && Extends(y, r)
      && (forall id :: id in r <==> id in y || id in layer[j..])
      && (forall v :: v in layer[j..] && v !in y ==> Fits(nodes, r, layer, v))
    decreases |layer| - j
  {
    if j < |layer| {
      var y' := PlaceNode(nodes, y, layer, layer[j]).value;
      PlaceLayerFromSpec(nodes, layer, j + 1, y');
      var r := PlaceLayerFrom(nodes, layer, j, y).value;
      assert layer[j..] == [layer[j]] + layer[j + 1..];
      if layer[j] !in y {
        FitsExtend(nodes, y', r, layer, layer[j]);
      }
    }
  }

  /** `id` is listed at some level from `0` to `i`. */
  predicate ListedUpTo(levels: LevelIndex, i: int, id: NodeId)
    requires i < |levels|
    decreases i + 1
  {
    0 <= i && (id in levels[i] || ListedUpTo(levels, i - 1, id))
  }

  /** `k` is the first level the upward walk from level `i` meets `v` at:
      `v` is listed at `k` and at no level between `k` and `i`. */
  ghost predicate PlacedAt(levels: LevelIndex, i: int, v: NodeId, k: nat) {
    && k <= i < |levels|
    && v in levels[k]
    && forall k' :: k < k' <= i ==> v !in levels[k']
  }

  /** The walk over the layers from layer `i` up to layer `0`. */
  function PlaceLevels(nodes: NodeMap, levels: LevelIndex, i: int, y: map<NodeId, real>): Result<map<NodeId, real>>
    requires i < |levels|
    decreases i + 1
  {
    if i < 0 then Ok(y)
    else
      match PlaceLayerFrom(nodes, levels[i], 0, y)
      case Err(e) => Err(e)
      case Ok(y') => PlaceLevels(nodes, levels, i - 1, y')
  }

  /** A successful walk keeps every earlier value, adds exactly the nodes of
      layers `0..i`, and every node it placed fits in the layer at which the
      walk first met it. */
  lemma {:induction false} PlaceLevelsSpec(nodes: NodeMap, levels: LevelIndex, i: int, y: map<NodeId, real>)
    requires i < |levels|
    requires PlaceLevels(nodes, levels, i, y).Ok?
    ensures var r := PlaceLevels(nodes, levels, i, y).value;
      && Extends(y, r)
      && (forall id :: id in r <==> id in y || ListedUpTo(levels, i, id))
      && (forall v, k: nat :: PlacedAt(levels, i, v, k) && v !in y ==> Fits(nodes, r, levels[k], v))
    decreases i + 1
  {
    if i >= 0 {
      var y' := PlaceLayerFrom(nodes, levels[i], 0, y).value;
      PlaceLayerFromSpec(nodes, levels[i], 0, y);
      assert levels[i][0..] == levels[i];
      PlaceLevelsSpec(nodes, levels, i - 1, y');
      var r := PlaceLevels(nodes, levels, i, y).value;
      forall v, k: nat | PlacedAt(levels, i, v, k) && v !in y
        ensures Fits(nodes, r, levels[k], v)
      {
        if k == i {
          FitsExtend(nodes, y', r, levels[k], v);
        } else {
          assert PlacedAt(levels, i - 1, v, k);
        }
      }
    }
  }

  // ---------------------------------------------------------------------
  // The whole spread axis (before proximity adjustment)

  /** Leaves first, then the layers from the second-deepest one up to
      layer `0`; the deepest layer is never walked. */
  function SpreadValues(nodes: NodeMap, levels: LevelIndex, leaves: seq<NodeId>, v: real): Result<map<NodeId, real>> {
    PlaceLevels(nodes, levels, |levels| - 2, LeafValues(leaves, v))
  }

  lemma {:induction false} ListedUpToExists(levels: LevelIndex, i: int, id: NodeId)
    requires i < |levels|
    ensures ListedUpTo(levels, i, id) <==> exists k :: 0 <= k <= i && id in levels[k]
    decreases i + 1
  {
    if i >= 0 {
      ListedUpToExists(levels, i - 1, id);
      if exists k :: 0 <= k <= i && id in levels[k] {
        var k :| 0 <= k <= i && id in levels[k];
        assert k == i || k <= i - 1;
      }
    }
  }

  /** On success: every leaf keeps its evenly spaced value, the placed nodes
      are exactly the leaves and the nodes of all layers but the deepest,
      and every other node gets the mean of its children outside the layer
      at which the upward walk first meets it. */
  lemma SpreadValuesSpec(nodes: NodeMap, levels: LevelIndex, leaves: seq<NodeId>, v: real)
    requires SpreadValues(nodes, levels, leaves, v).Ok?
    ensures var r := SpreadValues(nodes, levels, leaves, v).value;
      && (forall id, k :: LastAt(leaves, id, k) ==> id in r && r[id] == LeafSpread(|leaves|, v, k))
      && (forall id :: id in r <==> id in leaves || exists k :: 0 <= k < |levels| - 1 && id in levels[k])
      && (forall id, k: nat :: PlacedAt(levels, |levels| - 2, id, k) && id !in leaves ==> Fits(nodes, r, levels[k], id))
  {
    var y := LeafValues(leaves, v);
    LeafValuesSpec(leaves, v);
    PlaceLevelsSpec(nodes, levels, |levels| - 2, y);
    forall id
      ensures id in SpreadValues(nodes, levels, leaves, v).value
          <==> id in leaves || exists k :: 0 <= k < |levels| - 1 && id in levels[k]
    {
      ListedUpToExists(levels, |levels| - 2, id);
    }
  }
}
