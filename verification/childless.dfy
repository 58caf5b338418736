/** Leaf collection: a depth-first pre-order walk from each level-0 node
    that only descends into children on a strictly greater level and
    appends every childless node it reaches. */
module Childless {
  import opened LayeredGraph

  /** The nodes on a level strictly greater than `lvl`. */
  function Above(nodes: NodeMap, lvl: int): set<NodeId> {
    set id | id in nodes && nodes[id].level > lvl
  }

  /** The recursion measure: how many nodes lie on a greater level. It
      shrinks along every edge the walk follows, so the walk terminates. */
  function Rank(nodes: NodeMap, v: NodeId): nat {
    if v in nodes then |Above(nodes, nodes[v].level)| else 0
  }

  lemma RankDecreases(nodes: NodeMap, v: NodeId, c: NodeId)
    requires v in nodes && c in nodes && nodes[v].level < nodes[c].level
    ensures Rank(nodes, c) < Rank(nodes, v)
  {
    var a := Above(nodes, nodes[c].level);
    var b := Above(nodes, nodes[v].level);
    assert a <= b;
    assert c in b - a;
    assert b == a + (b - a);
    assert a * (b - a) == {};
  }

  /** Walks the subtree of `v`, appending its leaves to `acc`. A node
      identifier without a record is an error (a KeyError in the source). */
  function Collect(nodes: NodeMap, acc: seq<NodeId>, v: NodeId): (r: Result<seq<NodeId>>)
    ensures r.Ok? ==> acc <= r.value
    ensures r.Err? ==> r.error.MissingNode? && r.error.id !in nodes
    decreases Rank(nodes, v), 1, 0
  {
    if v !in nodes then Err(MissingNode(v))
    else if nodes[v].children == [] then Ok(acc + [v])
    else CollectChildren(nodes, acc, v, nodes[v].children)
  }

  /** The loop over the children `cs` of `v`: recurse into those on a
      strictly greater level, skip the others. */
  function CollectChildren(nodes: NodeMap, acc: seq<NodeId>, v: NodeId, cs: seq<NodeId>): (r: Result<seq<NodeId>>)
    requires v in nodes
    ensures r.Ok? ==> acc <= r.value
    ensures r.Err? ==> r.error.MissingNode? && r.error.id !in nodes
    decreases Rank(nodes, v), 0, |cs|
  {
    if cs == [] then Ok(acc)
    else if cs[0] !in nodes then Err(MissingNode(cs[0]))
    else if nodes[v].level < nodes[cs[0]].level then
      RankDecreases(nodes, v, cs[0]);
      match Collect(nodes, acc, cs[0])
      case Err(e) => Err(e)
      case Ok(acc') => CollectChildren(nodes, acc', v, cs[1..])
    else CollectChildren(nodes, acc, v, cs[1..])
  }

  /** The leaves below `v` in pre-order, defined without an accumulator. */
  function LeavesOf(nodes: NodeMap, v: NodeId): seq<NodeId>
    requires Closed(nodes) && v in nodes
    decreases Rank(nodes, v), 1
  {
    if nodes[v].children == [] then [v] else LeavesUnder(nodes, v, nodes[v].children)
  }

  /** The leaves below those children `cs` of `v` that lie on a greater level. */
  function LeavesUnder(nodes: NodeMap, v: NodeId, cs: seq<NodeId>): seq<NodeId>
    requires Closed(nodes) && v in nodes
    requires forall c :: c in cs ==> c in nodes
    decreases Rank(nodes, v), 0, |cs|
  {
    if cs == [] then []
    else
      var first := if nodes[v].level < nodes[cs[0]].level
        then RankDecreases(nodes, v, cs[0]); LeavesOf(nodes, cs[0])
        else [];
      first + LeavesUnder(nodes, v, cs[1..])
  }

  /** On a graph whose child identifiers all have records, the walk
      succeeds and appends exactly the pre-order leaves of `v`. */
  lemma {:induction false} CollectIsLeavesOf(nodes: NodeMap, acc: seq<NodeId>, v: NodeId)
    requires Closed(nodes) && v in nodes
    ensures Collect(nodes, acc, v) == Ok(acc + LeavesOf(nodes, v))
    decreases Rank(nodes, v), 1
  {
    if nodes[v].children != [] {
      CollectChildrenIsLeavesUnder(nodes, acc, v, nodes[v].children);
    }
  }

  lemma {:induction false} CollectChildrenIsLeavesUnder(nodes: NodeMap, acc: seq<NodeId>, v: NodeId, cs: seq<NodeId>)
    requires Closed(nodes) && v in nodes
    requires forall c :: c in cs ==> c in nodes
    ensures CollectChildren(nodes, acc, v, cs) == Ok(acc + LeavesUnder(nodes, v, cs))
    decreases Rank(nodes, v), 0, |cs|
  {
    if cs != [] {
      var c := cs[0];
      if nodes[v].level < nodes[c].level {
        RankDecreases(nodes, v, c);
        CollectIsLeavesOf(nodes, acc, c);
        var acc' := acc + LeavesOf(nodes, c);
        CollectChildrenIsLeavesUnder(nodes, acc', v, cs[1..]);
        assert CollectChildren(nodes, acc, v, cs) == CollectChildren(nodes, acc', v, cs[1..]);
        assert LeavesUnder(nodes, v, cs) == LeavesOf(nodes, c) + LeavesUnder(nodes, v, cs[1..]);
        assert acc' + LeavesUnder(nodes, v, cs[1..]) == acc + LeavesUnder(nodes, v, cs);
      } else {
        CollectChildrenIsLeavesUnder(nodes, acc, v, cs[1..]);
        assert CollectChildren(nodes, acc, v, cs) == CollectChildren(nodes, acc, v, cs[1..]);
        assert LeavesUnder(nodes, v, cs) == [] + LeavesUnder(nodes, v, cs[1..]);
        assert [] + LeavesUnder(nodes, v, cs[1..]) == LeavesUnder(nodes, v, cs[1..]);
      }
    } else {
      assert acc + [] == acc;
    }
  }

  /** `b` is a child of `a` on a strictly greater level: an edge the walk follows. */
  ghost predicate Descends(nodes: NodeMap, a: NodeId, b: NodeId)
    requires a in nodes && b in nodes
  {
    b in nodes[a].children && nodes[a].level < nodes[b].level
  }

  /** A non-empty path of nodes along edges the walk follows. */
  ghost predicate Path(nodes: NodeMap, p: seq<NodeId>)
    decreases |p|
  {
    && |p| > 0
    && p[0] in nodes
    && (|p| == 1 || (p[1] in nodes && Descends(nodes, p[0], p[1]) && Path(nodes, p[1..])))
  }

  /** Soundness: every collected node is childless and reachable from `v`
      along edges the walk follows. */
  lemma {:induction false} LeafReached(nodes: NodeMap, v: NodeId, x: NodeId) returns (p: seq<NodeId>)
    requires Closed(nodes) && v in nodes && x in LeavesOf(nodes, v)
    ensures Path(nodes, p) && p[0] == v && p[|p| - 1] == x
    ensures x in nodes && nodes[x].children == []
    decreases Rank(nodes, v), 1
  {
    if nodes[v].children == [] {
      p := [v];
    } else {
      var q := LeafReachedUnder(nodes, v, nodes[v].children, x);
      p := [v] + q;
      assert p[1..] == q;
    }
  }

  lemma {:induction false} LeafReachedUnder(nodes: NodeMap, v: NodeId, cs: seq<NodeId>, x: NodeId) returns (p: seq<NodeId>)
    requires Closed(nodes) && v in nodes
    requires forall c :: c in cs ==> c in nodes
    requires x in LeavesUnder(nodes, v, cs)
    ensures Path(nodes, p) && p[0] in cs && nodes[v].level < nodes[p[0]].level && p[|p| - 1] == x
    ensures x in nodes && nodes[x].children == []
    decreases Rank(nodes, v), 0, |cs|
  {
    var c := cs[0];
    if nodes[v].level < nodes[c].level && x in LeavesOf(nodes, c) {
      RankDecreases(nodes, v, c);
      p := LeafReached(nodes, c, x);
    } else {
      p := LeafReachedUnder(nodes, v, cs[1..], x);
    }
  }

  /** Completeness: every childless node at the end of a path from `p[0]`
      is collected. */
  lemma {:induction false} ReachedLeafCollected(nodes: NodeMap, p: seq<NodeId>)
    requires Closed(nodes) && Path(nodes, p)
    requires p[|p| - 1] in nodes && nodes[p[|p| - 1]].children == []
    ensures p[|p| - 1] in LeavesOf(nodes, p[0])
    decreases |p|
  {
    if |p| > 1 {
      var v := p[0];
      ReachedLeafCollected(nodes, p[1..]);
      LeavesUnderIncludes(nodes, v, nodes[v].children, p[1], p[|p| - 1]);
    }
  }

  lemma {:induction false} LeavesUnderIncludes(nodes: NodeMap, v: NodeId, cs: seq<NodeId>, c: NodeId, x: NodeId)
    requires Closed(nodes) && v in nodes
    requires forall c' :: c' in cs ==> c' in nodes
    requires c in cs && c in nodes && nodes[v].level < nodes[c].level && x in LeavesOf(nodes, c)
    ensures x in LeavesUnder(nodes, v, cs)
    decreases |cs|
  {
    if cs[0] != c {
      LeavesUnderIncludes(nodes, v, cs[1..], c, x);
    }
  }

  /** The walk from every root in turn, appending to one shared list. */
  function CollectRoots(nodes: NodeMap, acc: seq<NodeId>, roots: seq<NodeId>): (r: Result<seq<NodeId>>)
    ensures r.Ok? ==> acc <= r.value
    ensures r.Err? ==> r.error.MissingNode? && r.error.id !in nodes
    decreases |roots|
  {
    if roots == [] then Ok(acc)
    else
      match Collect(nodes, acc, roots[0])
      case Err(e) => Err(e)
      case Ok(acc') => CollectRoots(nodes, acc', roots[1..])
  }

  /** The childless list: the walk from every level-0 node. With no level
      0 there is nothing to start from (a KeyError in the source). */
  function ChildlessList(nodes: NodeMap, levels: LevelIndex): Result<seq<NodeId>> {
    if |levels| == 0 then Err(EmptyLevelIndex) else CollectRoots(nodes, [], levels[0])
  }

  /** The pre-order leaves below each root in turn. */
  function LeavesOfRoots(nodes: NodeMap, roots: seq<NodeId>): seq<NodeId>
    requires Closed(nodes) && forall r :: r in roots ==> r in nodes
  {
    if roots == [] then [] else LeavesOf(nodes, roots[0]) + LeavesOfRoots(nodes, roots[1..])
  }

  lemma {:induction false} CollectRootsIsLeavesOfRoots(nodes: NodeMap, acc: seq<NodeId>, roots: seq<NodeId>)
    requires Closed(nodes) && forall r :: r in roots ==> r in nodes
    ensures CollectRoots(nodes, acc, roots) == Ok(acc + LeavesOfRoots(nodes, roots))
    decreases |roots|
  {
    if roots != [] {
      CollectIsLeavesOf(nodes, acc, roots[0]);
      CollectRootsIsLeavesOfRoots(nodes, acc + LeavesOf(nodes, roots[0]), roots[1..]);
      assert CollectRoots(nodes, acc, roots) == CollectRoots(nodes, acc + LeavesOf(nodes, roots[0]), roots[1..]);
      assert acc + LeavesOf(nodes, roots[0]) + LeavesOfRoots(nodes, roots[1..]) == acc + LeavesOfRoots(nodes, roots);
    } else {
      assert acc + [] == acc;
    }
  }

  /** `x` is a childless node reachable from one of `roots` along edges
      the walk follows. */
  ghost predicate ReachableLeaf(nodes: NodeMap, roots: seq<NodeId>, x: NodeId) {
    exists p :: Path(nodes, p) && p[0] in roots && p[|p| - 1] == x && x in nodes && nodes[x].children == []
  }

  /** The leaves of the roots are exactly the reachable childless nodes. */
  lemma {:induction false} LeavesOfRootsExact(nodes: NodeMap, roots: seq<NodeId>, x: NodeId)
    requires Closed(nodes) && forall r :: r in roots ==> r in nodes
    ensures x in LeavesOfRoots(nodes, roots) <==> ReachableLeaf(nodes, roots, x)
  {
    if roots != [] {
      LeavesOfRootsExact(nodes, roots[1..], x);
      if x in LeavesOf(nodes, roots[0]) {
        var p := LeafReached(nodes, roots[0], x);
      }
      if ReachableLeaf(nodes, roots, x) {
        var p :| Path(nodes, p) && p[0] in roots && p[|p| - 1] == x && x in nodes && nodes[x].children == [];
        if p[0] == roots[0] {
          ReachedLeafCollected(nodes, p);
        } else {
          assert ReachableLeaf(nodes, roots[1..], x);
        }
      }
    }
  }

  /** On a graph whose child identifiers all have records and whose roots
      all exist, the childless list is the pre-order leaves of the roots,
      and a node is in it exactly when it is a childless node reachable
      from a root along strictly-level-increasing child edges. */
  lemma ChildlessListExact(nodes: NodeMap, levels: LevelIndex)
    requires Closed(nodes) && |levels| > 0 && forall r :: r in levels[0] ==> r in nodes
    ensures ChildlessList(nodes, levels) == Ok(LeavesOfRoots(nodes, levels[0]))
    ensures forall x :: x in ChildlessList(nodes, levels).value <==> ReachableLeaf(nodes, levels[0], x)
  {
    CollectRootsIsLeavesOfRoots(nodes, [], levels[0]);
    assert [] + LeavesOfRoots(nodes, levels[0]) == LeavesOfRoots(nodes, levels[0]);
    forall x
      ensures x in LeavesOfRoots(nodes, levels[0]) <==> ReachableLeaf(nodes, levels[0], x)
    {
      LeavesOfRootsExact(nodes, levels[0], x);
    }
  }
}
