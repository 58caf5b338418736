/** Depth-axis allocation. The source keeps a running offset `acc`
    (a multiple of the depth step H): every node of a level of n1 nodes
    gets `acc + (n1 - 1)·H`, and `acc` then grows by `n1·H`. The model
    counts the offset in whole steps ("slots") and multiplies by H once at
    the end, which gives the same exact values. */
module DepthAxis {
  import opened LayeredGraph

  /** Records the value `v` for every node of `ids`. */
  function AssignAll<V>(m: map<NodeId, V>, ids: seq<NodeId>, v: V): map<NodeId, V>
    decreases |ids|
  {
    if ids == [] then m else AssignAll(m[ids[0] := v], ids[1..], v)
  }

  /** What `AssignAll` does to one node: nodes of `ids` get `v`, the others
      keep their entry (or stay absent). */
  lemma {:induction false} AssignAllAt<V>(m: map<NodeId, V>, ids: seq<NodeId>, v: V, id: NodeId)
    ensures id in AssignAll(m, ids, v) <==> id in m || id in ids
    ensures id in ids ==> AssignAll(m, ids, v)[id] == v
    ensures id in m && id !in ids ==> AssignAll(m, ids, v)[id] == m[id]
    decreases |ids|
  {
    if ids != [] {
      AssignAllAt(m[ids[0] := v], ids[1..], v, id);
      assert id in ids <==> id == ids[0] || id in ids[1..];
    }
  }

  /** The loop over the levels from level `i` on; `acc` is the running
      offset in slots. */
  function SlotsFrom(levels: LevelIndex, i: nat, acc: int, m: map<NodeId, int>): map<NodeId, int>
    requires i <= |levels|
    decreases |levels| - i
  {
    if i == |levels| then m
    else
      var n1 := |levels[i]|;
      SlotsFrom(levels, i + 1, acc + n1, AssignAll(m, levels[i], acc + n1 - 1))
  }

  /** Depth values of all nodes listed in the level index. Levels must be
      non-empty: on an empty level the source reuses the previous level's
      size. */
  function DepthAxisValues(levels: LevelIndex, h: real): map<NodeId, real>
    requires NonEmptyLevels(levels)
  {
    var slots := SlotsFrom(levels, 0, 0, map[]);
    map id | id in slots :: slots[id] as real * h
  }

  /** How many nodes the levels before level `k` list. */
  function CountBefore(levels: LevelIndex, k: nat): nat
    requires k <= |levels|
  {
    if k == 0 then 0 else CountBefore(levels, k - 1) + |levels[k - 1]|
  }

  /** The slot of level `k`: the last of the `|levels[k]|` slots it takes
      after those of the earlier levels. */
  function LevelSlot(levels: LevelIndex, k: nat): int
    requires k < |levels|
  {
    CountBefore(levels, k) + |levels[k]| - 1
  }

  /** The closed form of the depth value of level `k`. */
  function LevelDepth(levels: LevelIndex, k: nat, h: real): real
    requires k < |levels|
  {
    LevelSlot(levels, k) as real * h
  }

  /** `id` is listed at level `k` and at no later level. */
  ghost predicate LastListedAt(levels: LevelIndex, id: NodeId, k: nat) {
    && k < |levels|
    && id in levels[k]
    && forall j :: k < j < |levels| ==> id !in levels[j]
  }

  /** One round of the loop: level `i` is assigned its slot. */
  lemma SlotsFromStep(levels: LevelIndex, i: nat, acc: int, m: map<NodeId, int>)
    requires i < |levels|
    ensures SlotsFrom(levels, i, acc, m)
         == SlotsFrom(levels, i + 1, acc + |levels[i]|, AssignAll(m, levels[i], acc + |levels[i]| - 1))
  {
  }

  /** `id` is listed at some level from `i` on. */
  predicate ListedFrom(levels: LevelIndex, i: nat, id: NodeId)
    decreases |levels| - i
  {
    i < |levels| && (id in levels[i] || ListedFrom(levels, i + 1, id))
  }

  lemma {:induction false} ListedFromExists(levels: LevelIndex, i: nat, id: NodeId)
    ensures ListedFrom(levels, i, id) <==> exists k :: i <= k < |levels| && id in levels[k]
    decreases |levels| - i
  {
    if i < |levels| {
      ListedFromExists(levels, i + 1, id);
      if exists k :: i <= k < |levels| && id in levels[k] {
        var k :| i <= k < |levels| && id in levels[k];
        assert k == i || i + 1 <= k;
      }
    }
  }

  /** The walk from level `i` records exactly the nodes of `m` and of the
      levels from `i` on. */
  lemma {:induction false} SlotsFromKeys(levels: LevelIndex, i: nat, acc: int, m: map<NodeId, int>, id: NodeId)
    requires i <= |levels|
    ensures id in SlotsFrom(levels, i, acc, m) <==> id in m || ListedFrom(levels, i, id)
    decreases |levels| - i
  {
    if i == |levels| {
      assert SlotsFrom(levels, i, acc, m) == m;
      assert !ListedFrom(levels, i, id);
    } else {
      var n1 := |levels[i]|;
      var m' := AssignAll(m, levels[i], acc + n1 - 1);
      SlotsFromStep(levels, i, acc, m);
      AssignAllAt(m, levels[i], acc + n1 - 1, id);
      SlotsFromKeys(levels, i + 1, acc + n1, m', id);
    }
  }

  /** A node listed at no level from `i` on keeps its value from `m`. */
  lemma {:induction false} SlotsFromUnlisted(levels: LevelIndex, i: nat, acc: int, m: map<NodeId, int>, id: NodeId)
    requires i <= |levels| && id in m
    requires forall k :: i <= k < |levels| ==> id !in levels[k]
    ensures id in SlotsFrom(levels, i, acc, m)
    ensures SlotsFrom(levels, i, acc, m)[id] == m[id]
    decreases |levels| - i
  {
    SlotsFromKeys(levels, i, acc, m, id);
    if i < |levels| {
      var n1 := |levels[i]|;
      SlotsFromStep(levels, i, acc, m);
      AssignAllAt(m, levels[i], acc + n1 - 1, id);
      SlotsFromUnlisted(levels, i + 1, acc + n1, AssignAll(m, levels[i], acc + n1 - 1), id);
    }
  }

  /** Started with the offset of level `i`, the walk leaves a node whose
      last level is `k >= i` in the slot of level `k`. */
  lemma {:induction false} SlotsFromLast(levels: LevelIndex, i: nat, acc: int, m: map<NodeId, int>, id: NodeId, k: nat)
    requires i <= k && LastListedAt(levels, id, k)
    requires acc == CountBefore(levels, i)
    ensures id in SlotsFrom(levels, i, acc, m)
    ensures SlotsFrom(levels, i, acc, m)[id] == LevelSlot(levels, k)
    decreases |levels| - i
  {
    SlotsFromKeys(levels, i, acc, m, id);
    var n1 := |levels[i]|;
    var m' := AssignAll(m, levels[i], acc + n1 - 1);
    SlotsFromStep(levels, i, acc, m);
    AssignAllAt(m, levels[i], acc + n1 - 1, id);
    if i == k {
      SlotsFromUnlisted(levels, i + 1, acc + n1, m', id);
    } else {
      SlotsFromLast(levels, i + 1, acc + n1, m', id, k);
    }
  }

  /** Every listed node gets a depth value, and a node's value is the
      closed-form depth of the last level that lists it. */
  lemma DepthAxisSpec(levels: LevelIndex, h: real)
    requires NonEmptyLevels(levels)
    ensures forall id :: id in DepthAxisValues(levels, h) <==> exists k :: 0 <= k < |levels| && id in levels[k]
    ensures forall id, k :: LastListedAt(levels, id, k) ==> DepthAxisValues(levels, h)[id] == LevelDepth(levels, k, h)
  {
    forall id
      ensures id in DepthAxisValues(levels, h) <==> exists k :: 0 <= k < |levels| && id in levels[k]
    {
      SlotsFromKeys(levels, 0, 0, map[], id);
      ListedFromExists(levels, 0, id);
    }
    forall id, k | LastListedAt(levels, id, k)
      ensures DepthAxisValues(levels, h)[id] == LevelDepth(levels, k, h)
    {
      SlotsFromLast(levels, 0, 0, map[], id, k);
    }
  }

  /** When no node is listed twice, all nodes of a level share one depth. */
  lemma SharedDepthPerLevel(levels: LevelIndex, h: real, k: nat, a: NodeId, b: NodeId)
    requires NonEmptyLevels(levels) && DisjointLevels(levels)
    requires k < |levels| && a in levels[k] && b in levels[k]
    ensures a in DepthAxisValues(levels, h) && b in DepthAxisValues(levels, h)
    ensures DepthAxisValues(levels, h)[a] == DepthAxisValues(levels, h)[b] == LevelDepth(levels, k, h)
  {
    DepthAxisSpec(levels, h);
    assert LastListedAt(levels, a, k);
    assert LastListedAt(levels, b, k);
  }

  /** Deeper levels take strictly later slots: level `k` starts after all
      the slots of the levels before it. */
  lemma {:induction false} LevelSlotIncreasing(levels: LevelIndex, j: nat, k: nat)
    requires NonEmptyLevels(levels) && j < k < |levels|
    ensures LevelSlot(levels, j) < LevelSlot(levels, k)
    decreases k - j
  {
    assert CountBefore(levels, j + 1) == CountBefore(levels, j) + |levels[j]|;
    assert |levels[j + 1]| >= 1;
    if j + 1 < k {
      LevelSlotIncreasing(levels, j + 1, k);
    }
  }

  /** With a positive step, deeper levels get strictly larger depth values,
      at least one step apart. */
  lemma LevelDepthIncreasing(levels: LevelIndex, h: real, j: nat, k: nat)
    requires NonEmptyLevels(levels) && h > 0.0
    requires j < k < |levels|
    ensures LevelDepth(levels, j, h) + h <= LevelDepth(levels, k, h)
  {
    LevelSlotIncreasing(levels, j, k);
    var x := LevelSlot(levels, j);
    var y := LevelSlot(levels, k);
    var d := (y - x - 1) as real;
    assert d >= 0.0 && d * h >= 0.0;
    assert LevelDepth(levels, k, h) == LevelDepth(levels, j, h) + h + d * h;
  }
}
