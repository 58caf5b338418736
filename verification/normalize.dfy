/** Parent normalisation: every node keeps only the first entry of its
    parent list; each parent popped off the end loses the node from its
    child list. Modelled as a fold over the nodes in iteration order, each
    step a fold over the popped parents. */
module Normalize {
  import opened LayeredGraph
  import opened Seqs

  /** The parents normalisation pops off a node: all but the first. */
  function Dropped(nd: Node): seq<NodeId> {
    if |nd.parents| <= 1 then [] else nd.parents[1..]
  }

  /** The parent list normalisation leaves a node with. */
  function Kept(nd: Node): seq<NodeId> {
    if |nd.parents| <= 1 then nd.parents else nd.parents[..1]
  }

  /** Every parent in `dropped` exists and lists `n` as a child at least as
      often as it occurs in `dropped`, so every `remove` call succeeds. */
  ghost predicate CanDrop(nodes: NodeMap, n: NodeId, dropped: seq<NodeId>) {
    forall p :: p in dropped ==> p in nodes && multiset(dropped)[p] <= multiset(nodes[p].children)[n]
  }

  /** A node record with its parent and child lists replaced. */
  function Relink(nd: Node, parents: seq<NodeId>, children: seq<NodeId>): Node {
    nd.(parents := parents, children := children)
  }

  /** `after` is `before` with node `n` normalised: `n` keeps its first
      parent only, each dropped parent lost one occurrence of `n` per time
      it was dropped, and nothing else changed. */
  ghost predicate DroppedFrom(before: NodeMap, after: NodeMap, n: NodeId)
    requires n in before
  {
    && CanDrop(before, n, Dropped(before[n]))
    && after.Keys == before.Keys
    && after[n].parents == Kept(before[n])
    && (forall m :: m in before && m != n ==> after[m].parents == before[m].parents)
    && (forall m :: m in before ==> Trimmed(before, after, n, m))
  }

  /** Node `m` of `after` is node `m` of `before` with its parent list
      possibly replaced and with one occurrence of child `n` removed for
      each time `n` drops `m` as a parent. */
  ghost predicate Trimmed(before: NodeMap, after: NodeMap, n: NodeId, m: NodeId)
    requires n in before && m in before && m in after
    requires CanDrop(before, n, Dropped(before[n]))
  {
    after[m] == Relink(before[m], after[m].parents, RemoveN(before[m].children, n, multiset(Dropped(before[n]))[m]))
  }

  /** The last parent of `n`, the next one `list.pop` removes. */
  function LastParent(nodes: NodeMap, n: NodeId): NodeId
    requires n in nodes && |nodes[n].parents| >= 2
  {
    nodes[n].parents[|nodes[n].parents| - 1]
  }

  /** One iteration of the inner loop: pop the last parent of `n` and
      remove `n` from that parent's child list. */
  function PopParent(nodes: NodeMap, n: NodeId): (next: NodeMap)
    requires n in nodes && |nodes[n].parents| >= 2
    requires LastParent(nodes, n) in nodes && n in nodes[LastParent(nodes, n)].children
    ensures next.Keys == nodes.Keys
    ensures |next[n].parents| == |nodes[n].parents| - 1
  {
    var ps := nodes[n].parents;
    var par := LastParent(nodes, n);
    var popped := nodes[n := nodes[n].(parents := ps[..|ps| - 1])];
    popped[par := popped[par].(children := RemoveFirst(popped[par].children, n))]
  }

  /** One pop takes the last parent off the parent list of `n` and the
      first occurrence of `n` out of that parent's child list; no other
      list and no size or level changes. The popped parent may be `n`
      itself. */
  lemma PopParentSpec(nodes: NodeMap, n: NodeId)
    requires n in nodes && |nodes[n].parents| >= 2
    requires LastParent(nodes, n) in nodes && n in nodes[LastParent(nodes, n)].children
    ensures var next := PopParent(nodes, n);
      var ps := nodes[n].parents;
      var par := LastParent(nodes, n);
      && next[n].parents == ps[..|ps| - 1]
      && next[par].children == RemoveFirst(nodes[par].children, n)
      && (forall m :: m in nodes && m != n ==> next[m].parents == nodes[m].parents)
      && (forall m :: m in nodes && m != par ==> next[m].children == nodes[m].children)
      && (forall m :: m in nodes ==> Relink(next[m], nodes[m].parents, nodes[m].children) == nodes[m])
  {
    var ps := nodes[n].parents;
    var par := LastParent(nodes, n);
    var popped := nodes[n := nodes[n].(parents := ps[..|ps| - 1])];
    assert popped[par].children == nodes[par].children;
    var next := popped[par := popped[par].(children := RemoveFirst(nodes[par].children, n))];
    assert PopParent(nodes, n) == next;
    forall m | m in nodes
      ensures Relink(next[m], nodes[m].parents, nodes[m].children) == nodes[m]
    {
      assert Relink(popped[m], nodes[m].parents, nodes[m].children) == nodes[m];
    }
  }

  /** Pops the parents of `n` one at a time from the end until one is
      left, removing `n` from each popped parent's child list.
      A popped parent with no record, or one that does not list `n` as a
      child, is an error (a KeyError or ValueError in the source). */
  function DropParents(nodes: NodeMap, n: NodeId): (r: Result<NodeMap>)
    requires n in nodes
    ensures r.Ok? ==> r.value.Keys == nodes.Keys
    decreases |nodes[n].parents|
  {
    if |nodes[n].parents| <= 1 then Ok(nodes)
    else
      var par := LastParent(nodes, n);
      if par !in nodes then Err(MissingNode(par))
      else if n !in nodes[par].children then Err(NotAChild(par, n))
      else DropParents(PopParent(nodes, n), n)
  }

  /** Normalising one node succeeds exactly when every `remove` call can
      succeed, and then leaves the graph as `DroppedFrom` describes. */
  lemma DropParentsSpec(nodes: NodeMap, n: NodeId)
    requires n in nodes
    ensures DropParents(nodes, n).Ok? <==> CanDrop(nodes, n, Dropped(nodes[n]))
    ensures DropParents(nodes, n).Ok? ==> DroppedFrom(nodes, DropParents(nodes, n).value, n)
  {
    DropParentsOk(nodes, n);
    if DropParents(nodes, n).Ok? {
      DropParentsResult(nodes, n);
    }
  }

  /** The success half of `DropParentsSpec`. */
  lemma {:induction false} DropParentsOk(nodes: NodeMap, n: NodeId)
    requires n in nodes
    ensures DropParents(nodes, n).Ok? <==> CanDrop(nodes, n, Dropped(nodes[n]))
    decreases |nodes[n].parents|
  {
    var ps := nodes[n].parents;
    if |ps| <= 1 {
      assert Dropped(nodes[n]) == [];
    } else {
      var d := ps[1..];
      var d' := ps[1..|ps| - 1];
      var par := LastParent(nodes, n);
      assert d == d' + [par];
      assert multiset(d) == multiset(d') + multiset{par};
      if par !in nodes {
        assert !CanDrop(nodes, n, d);
      } else if n !in nodes[par].children {
        assert !CanDrop(nodes, n, d);
      } else {
        var next := PopParent(nodes, n);
        assert Dropped(next[n]) == d';
        DropParentsOk(next, n);
        CanDropStep(nodes, next, n, par, d, d');
      }
    }
  }

  /** The result half of `DropParentsSpec`. */
  lemma {:induction false} DropParentsResult(nodes: NodeMap, n: NodeId)
    requires n in nodes && DropParents(nodes, n).Ok?
    ensures CanDrop(nodes, n, Dropped(nodes[n]))
    ensures DroppedFrom(nodes, DropParents(nodes, n).value, n)
    decreases |nodes[n].parents|
  {
    DropParentsOk(nodes, n);
    if |nodes[n].parents| <= 1 {
      assert Dropped(nodes[n]) == [];
      assert DroppedFrom(nodes, nodes, n);
    } else {
      var next := PopParent(nodes, n);
      DropParentsResult(next, n);
      PopParentStep(nodes, n, DropParents(nodes, n).value);
    }
  }

  /** Popping the last parent moves it out of the dropped list. */
  lemma DroppedSplit(nodes: NodeMap, n: NodeId)
    requires n in nodes && |nodes[n].parents| >= 2
    ensures multiset(Dropped(nodes[n])) == multiset(nodes[n].parents[1..|nodes[n].parents| - 1]) + multiset{LastParent(nodes, n)}
  {
    var ps := nodes[n].parents;
    assert ps[1..] == ps[1..|ps| - 1] + [LastParent(nodes, n)];
  }

  /** If the rest of the popping takes `PopParent(nodes, n)` to `r`, then
      the whole of it takes `nodes` to `r`. */
  lemma PopParentStep(nodes: NodeMap, n: NodeId, r: NodeMap)
    requires n in nodes && |nodes[n].parents| >= 2
    requires LastParent(nodes, n) in nodes && n in nodes[LastParent(nodes, n)].children
    requires CanDrop(nodes, n, Dropped(nodes[n]))
    requires DroppedFrom(PopParent(nodes, n), r, n)
    ensures DroppedFrom(nodes, r, n)
  {
    var next := PopParent(nodes, n);
    ParentsStep(nodes, n, r);
    forall m | m in nodes
      ensures m in r && Trimmed(nodes, r, n, m)
    {
      assert Trimmed(next, r, n, m);
      TrimmedStep(nodes, r, n, m);
    }
  }

  /** The parent-list part of `PopParentStep`. */
  lemma ParentsStep(nodes: NodeMap, n: NodeId, r: NodeMap)
    requires n in nodes && |nodes[n].parents| >= 2
    requires LastParent(nodes, n) in nodes && n in nodes[LastParent(nodes, n)].children
    requires r.Keys == nodes.Keys
    requires r[n].parents == Kept(PopParent(nodes, n)[n])
    requires forall m :: m in nodes && m != n ==> r[m].parents == PopParent(nodes, n)[m].parents
    ensures r[n].parents == Kept(nodes[n])
    ensures forall m :: m in nodes && m != n ==> r[m].parents == nodes[m].parents
  {
    var ps := nodes[n].parents;
    assert PopParent(nodes, n)[n].parents == ps[..|ps| - 1];
    forall m | m in nodes && m != n
      ensures r[m].parents == nodes[m].parents
    {
      assert PopParent(nodes, n)[m].parents == nodes[m].parents;
    }
  }

  /** After one pop, the parents still to drop are the middle ones. */
  lemma PoppedDropped(nodes: NodeMap, n: NodeId)
    requires n in nodes && |nodes[n].parents| >= 2
    requires LastParent(nodes, n) in nodes && n in nodes[LastParent(nodes, n)].children
    ensures Dropped(PopParent(nodes, n)[n]) == nodes[n].parents[1..|nodes[n].parents| - 1]
  {
    PopParentSpec(nodes, n);
  }

  /** The per-node part of `PopParentStep`. */
  lemma TrimmedStep(nodes: NodeMap, r: NodeMap, n: NodeId, m: NodeId)
    requires n in nodes && |nodes[n].parents| >= 2
    requires LastParent(nodes, n) in nodes && n in nodes[LastParent(nodes, n)].children
    requires CanDrop(nodes, n, Dropped(nodes[n]))
    requires CanDrop(PopParent(nodes, n), n, Dropped(PopParent(nodes, n)[n]))
    requires m in nodes && m in r
    requires Trimmed(PopParent(nodes, n), r, n, m)
    ensures Trimmed(nodes, r, n, m)
  {
    var ps := nodes[n].parents;
    var next := PopParent(nodes, n);
    var par := LastParent(nodes, n);
    var d' := ps[1..|ps| - 1];
    PopParentSpec(nodes, n);
    PoppedDropped(nodes, n);
    DroppedSplit(nodes, n);
    var k := multiset(Dropped(nodes[n]))[m];
    var cs := nodes[m].children;
    if m == par {
      assert k == multiset(d')[m] + 1;
      assert multiset(cs)[n] >= k;
      RemoveNStep(cs, n, k);
      RelinkTwice(nodes[m], next[m], r[m], RemoveN(cs, n, k));
    } else {
      assert k == multiset(d')[m];
      RelinkTwice(nodes[m], next[m], r[m], RemoveN(cs, n, k));
    }
  }

  /** Relinking a relinked record is relinking the original. */
  lemma RelinkTwice(a: Node, b: Node, c: Node, cs: seq<NodeId>)
    requires b == Relink(a, b.parents, b.children)
    requires c == Relink(b, c.parents, cs)
    ensures c == Relink(a, c.parents, cs)
  {
  }

  /** One popped parent `par` moves from the still-to-drop list into the
      removed child occurrence: the remaining removals are possible in the
      updated graph exactly when all were possible in the original. */
  lemma CanDropStep(nodes: NodeMap, next: NodeMap, n: NodeId, par: NodeId, d: seq<NodeId>, d': seq<NodeId>)
    requires n in nodes && par in nodes && n in nodes[par].children
    requires multiset(d) == multiset(d') + multiset{par}
    requires next.Keys == nodes.Keys
    requires next[par].children == RemoveFirst(nodes[par].children, n)
    requires forall m :: m in nodes && m != par ==> next[m].children == nodes[m].children
    ensures CanDrop(next, n, d') <==> CanDrop(nodes, n, d)
  {
    assert multiset(next[par].children)[n] + 1 == multiset(nodes[par].children)[n];
    if CanDrop(nodes, n, d) {
      CanDropShrinks(nodes, next, n, par, d, d');
    }
    if CanDrop(next, n, d') {
      CanDropGrows(nodes, next, n, par, d, d');
    }
  }

  lemma CanDropShrinks(nodes: NodeMap, next: NodeMap, n: NodeId, par: NodeId, d: seq<NodeId>, d': seq<NodeId>)
    requires par in nodes
    requires multiset(d) == multiset(d') + multiset{par}
    requires next.Keys == nodes.Keys
    requires multiset(next[par].children)[n] + 1 == multiset(nodes[par].children)[n]
    requires forall m :: m in nodes && m != par ==> next[m].children == nodes[m].children
    requires CanDrop(nodes, n, d)
    ensures CanDrop(next, n, d')
  {
    forall p | p in d'
      ensures p in next && multiset(d')[p] <= multiset(next[p].children)[n]
    {
      assert multiset(d)[p] >= multiset(d')[p] > 0;
    }
  }

  lemma CanDropGrows(nodes: NodeMap, next: NodeMap, n: NodeId, par: NodeId, d: seq<NodeId>, d': seq<NodeId>)
    requires par in nodes && n in nodes[par].children
    requires multiset(d) == multiset(d') + multiset{par}
    requires next.Keys == nodes.Keys
    requires multiset(next[par].children)[n] + 1 == multiset(nodes[par].children)[n]
    requires forall m :: m in nodes && m != par ==> next[m].children == nodes[m].children
    requires CanDrop(next, n, d')
    ensures CanDrop(nodes, n, d)
  {
    forall p | p in d
      ensures p in nodes && multiset(d)[p] <= multiset(nodes[p].children)[n]
    {
      if p != par {
        assert multiset(d')[p] == multiset(d)[p] > 0;
      } else if par !in d' {
        assert multiset(d')[par] == 0;
      }
    }
  }

  /** Normalises the nodes of `ids` one after the other. */
  function NormalizeAll(nodes: NodeMap, ids: seq<NodeId>): (r: Result<NodeMap>)
    requires forall id :: id in ids ==> id in nodes
    ensures r.Ok? ==> r.value.Keys == nodes.Keys
  {
    if ids == [] then Ok(nodes)
    else
      match DropParents(nodes, ids[0])
      case Err(e) => Err(e)
      case Ok(next) => NormalizeAll(next, ids[1..])
  }

  /** How many occurrences of child `x` normalising the nodes of `ids`
      removes from the child list of `m`. */
  function DropCount(nodes: NodeMap, ids: seq<NodeId>, x: NodeId, m: NodeId): nat {
    if x in ids && x in nodes then multiset(Dropped(nodes[x]))[m] else 0
  }

  /** No node of `ids` drops `m` as a parent. */
  ghost predicate NeverDropped(nodes: NodeMap, ids: seq<NodeId>, m: NodeId) {
    forall x :: x in ids && x in nodes ==> m !in Dropped(nodes[x])
  }

  /** Facts about one node that `Trimmed` packs together. */
  lemma TrimmedFacts(nodes: NodeMap, next: NodeMap, n: NodeId, m: NodeId)
    requires n in nodes && m in nodes && m in next
    requires CanDrop(nodes, n, Dropped(nodes[n]))
    requires Trimmed(nodes, next, n, m)
    ensures Relink(next[m], nodes[m].parents, nodes[m].children) == nodes[m]
    ensures multiset(next[m].children)[n] + multiset(Dropped(nodes[n]))[m] == multiset(nodes[m].children)[n]
    ensures forall x :: x != n ==> multiset(next[m].children)[x] == multiset(nodes[m].children)[x]
    ensures m !in Dropped(nodes[n]) ==> next[m].children == nodes[m].children
  {
  }

  /** Each of `ids` keeps only its first parent; other parent lists stay. */
  ghost predicate ParentsKept(before: NodeMap, after: NodeMap, ids: seq<NodeId>)
    requires after.Keys == before.Keys
  {
    forall m :: m in before ==> after[m].parents == (if m in ids then Kept(before[m]) else before[m].parents)
  }

  /** Sizes and levels never change. */
  ghost predicate ShapesKept(before: NodeMap, after: NodeMap)
    requires after.Keys == before.Keys
  {
    forall m :: m in before ==> Relink(after[m], before[m].parents, before[m].children) == before[m]
  }

  /** Every child list lost exactly the occurrences the dropped parents
      of `ids` account for. */
  ghost predicate ChildCounts(before: NodeMap, after: NodeMap, ids: seq<NodeId>)
    requires after.Keys == before.Keys
  {
    forall m, x :: m in before ==>
      multiset(after[m].children)[x] + DropCount(before, ids, x, m) == multiset(before[m].children)[x]
  }

  /** Child lists of nodes that no node of `ids` dropped are untouched. */
  ghost predicate UntouchedChildren(before: NodeMap, after: NodeMap, ids: seq<NodeId>)
    requires after.Keys == before.Keys
  {
    forall m :: m in before && NeverDropped(before, ids, m) ==> after[m].children == before[m].children
  }

  /** `after` is `before` with the nodes of `ids` normalised. */
  ghost predicate NormalizedFrom(before: NodeMap, after: NodeMap, ids: seq<NodeId>) {
    && after.Keys == before.Keys
    && ParentsKept(before, after, ids)
    && ShapesKept(before, after)
    && ChildCounts(before, after, ids)
    && UntouchedChildren(before, after, ids)
  }

  /** Every node of `ids` could be normalised on its own in `nodes`. */
  ghost predicate AllCanDrop(nodes: NodeMap, ids: seq<NodeId>)
    requires forall id :: id in ids ==> id in nodes
  {
    forall n :: n in ids ==> CanDrop(nodes, n, Dropped(nodes[n]))
  }

  /** Normalising the nodes of `ids` in turn succeeds exactly when each of
      them could be normalised in the original graph. */
  lemma NormalizeAllOk(nodes: NodeMap, ids: seq<NodeId>)
    requires Distinct(ids) && forall id :: id in ids ==> id in nodes
    ensures NormalizeAll(nodes, ids).Ok? <==> AllCanDrop(nodes, ids)
  {
    if AllCanDrop(nodes, ids) {
      NormalizeAllSucceeds(nodes, ids);
    }
    if NormalizeAll(nodes, ids).Ok? {
      NormalizeAllNeeds(nodes, ids);
    }
  }

  lemma {:induction false} NormalizeAllSucceeds(nodes: NodeMap, ids: seq<NodeId>)
    requires Distinct(ids) && forall id :: id in ids ==> id in nodes
    requires AllCanDrop(nodes, ids)
    ensures NormalizeAll(nodes, ids).Ok?
  {
    if ids != [] {
      var n := ids[0];
      var rest := ids[1..];
      assert Distinct(rest);
      DropParentsSpec(nodes, n);
      var next := DropParents(nodes, n).value;
      forall x | x in rest
        ensures CanDrop(next, x, Dropped(next[x]))
      {
        CanDropPreserved(nodes, next, n, x);
      }
      NormalizeAllSucceeds(next, rest);
    }
  }

  lemma {:induction false} NormalizeAllNeeds(nodes: NodeMap, ids: seq<NodeId>)
    requires Distinct(ids) && forall id :: id in ids ==> id in nodes
    requires NormalizeAll(nodes, ids).Ok?
    ensures AllCanDrop(nodes, ids)
  {
    if ids != [] {
      var n := ids[0];
      var rest := ids[1..];
      assert Distinct(rest);
      assert ids == [n] + rest;
      DropParentsSpec(nodes, n);
      var next := DropParents(nodes, n).value;
      NormalizeAllNeeds(next, rest);
      forall x | x in rest
        ensures CanDrop(nodes, x, Dropped(nodes[x]))
      {
        CanDropPreserved(nodes, next, n, x);
      }
    }
  }

  /** A successful normalisation of the nodes of `ids`: each of them keeps
      only its first parent, every child list lost exactly the first
      occurrences the dropped parents account for and keeps the order of
      the rest, child lists nobody dropped are untouched, and sizes and
      levels never change. */
  lemma NormalizeAllResult(nodes: NodeMap, ids: seq<NodeId>)
    requires Distinct(ids) && forall id :: id in ids ==> id in nodes
    requires NormalizeAll(nodes, ids).Ok?
    ensures NormalizedFrom(nodes, NormalizeAll(nodes, ids).value, ids)
    ensures forall m :: m in nodes ==>
      NormalizeAll(nodes, ids).value[m].children == RemoveFirsts(nodes[m].children, Drops(nodes, ids, m))
  {
    NormalizeAllShape(nodes, ids);
    forall m | m in nodes
      ensures NormalizeAll(nodes, ids).value[m].children == RemoveFirsts(nodes[m].children, Drops(nodes, ids, m))
    {
      NormalizeAllOrder(nodes, ids, m);
    }
  }

  /** The multiset of children that normalising the nodes of `ids` removes
      from the child list of `m`: each node of `ids` once per time it
      drops `m` as a parent. */
  function Drops(nodes: NodeMap, ids: seq<NodeId>, m: NodeId): multiset<NodeId> {
    if ids == [] then multiset{}
    else
      var k := if ids[0] in nodes then multiset(Dropped(nodes[ids[0]]))[m] else 0;
      Copies(ids[0], k) + Drops(nodes, ids[1..], m)
  }

  /** `Drops` counts what `DropCount` counts. */
  lemma {:induction false} DropsCount(nodes: NodeMap, ids: seq<NodeId>, m: NodeId, x: NodeId)
    requires Distinct(ids)
    ensures Drops(nodes, ids, m)[x] == DropCount(nodes, ids, x, m)
  {
    if ids != [] {
      assert Distinct(ids[1..]);
      var k := if ids[0] in nodes then multiset(Dropped(nodes[ids[0]]))[m] else 0;
      CopiesCount(ids[0], k, x);
      DropsCount(nodes, ids[1..], m, x);
      assert x in ids <==> x == ids[0] || x in ids[1..];
      assert ids[0] !in ids[1..];
    }
  }

  /** `Drops` only looks at the parent lists of the nodes of `ids`. */
  lemma {:induction false} DropsUnchanged(nodes: NodeMap, next: NodeMap, ids: seq<NodeId>, m: NodeId)
    requires forall x :: x in ids ==> x in nodes && x in next && Dropped(next[x]) == Dropped(nodes[x])
    ensures Drops(next, ids, m) == Drops(nodes, ids, m)
  {
    if ids != [] {
      DropsUnchanged(nodes, next, ids[1..], m);
    }
  }

  /** The child list of one node after normalising the nodes of `ids`:
      the first occurrences named by `Drops` are gone, the rest keep
      their order. */
  lemma {:induction false} NormalizeAllOrder(nodes: NodeMap, ids: seq<NodeId>, m: NodeId)
    requires Distinct(ids) && forall id :: id in ids ==> id in nodes
    requires NormalizeAll(nodes, ids).Ok? && m in nodes
    ensures m in NormalizeAll(nodes, ids).value
    ensures NormalizeAll(nodes, ids).value[m].children == RemoveFirsts(nodes[m].children, Drops(nodes, ids, m))
  {
    if ids == [] {
      RemoveFirstsNone(nodes[m].children);
    } else {
      var n := ids[0];
      var rest := ids[1..];
      assert Distinct(rest);
      var next := DropParents(nodes, n).value;
      var cs := nodes[m].children;
      var k := multiset(Dropped(nodes[n]))[m];
      DropParentsChildren(nodes, n, m, rest);
      assert NormalizeAll(nodes, ids) == NormalizeAll(next, rest);
      NormalizeAllOrder(next, rest, m);
      DropsUnchanged(nodes, next, rest, m);
      RemoveFirstsCompose(cs, Copies(n, k), Drops(nodes, rest, m));
    }
  }

  /** One node's normalisation, as `NormalizeAllOrder` needs it: the child
      list of `m` loses the first copies of `n`, and the nodes of `rest`
      keep their parent lists. */
  lemma DropParentsChildren(nodes: NodeMap, n: NodeId, m: NodeId, rest: seq<NodeId>)
    requires n in nodes && m in nodes && DropParents(nodes, n).Ok?
    requires n !in rest && forall x :: x in rest ==> x in nodes
    ensures var next := DropParents(nodes, n).value;
      && m in next
      && next[m].children == RemoveFirsts(nodes[m].children, Copies(n, multiset(Dropped(nodes[n]))[m]))
      && forall x :: x in rest ==> x in next && Dropped(next[x]) == Dropped(nodes[x])
  {
    DropParentsSpec(nodes, n);
    var next := DropParents(nodes, n).value;
    var k := multiset(Dropped(nodes[n]))[m];
    assert Trimmed(nodes, next, n, m);
    assert next[m].children == RemoveN(nodes[m].children, n, k);
    RemoveNIsRemoveFirsts(nodes[m].children, n, k);
    forall x | x in rest
      ensures x in next && Dropped(next[x]) == Dropped(nodes[x])
    {
      assert next[x].parents == nodes[x].parents;
    }
  }

  /** The shape half of `NormalizeAllResult`. */
  lemma {:induction false} NormalizeAllShape(nodes: NodeMap, ids: seq<NodeId>)
    requires Distinct(ids) && forall id :: id in ids ==> id in nodes
    requires NormalizeAll(nodes, ids).Ok?
    ensures NormalizedFrom(nodes, NormalizeAll(nodes, ids).value, ids)
  {
    if ids == [] {
      assert NormalizedFrom(nodes, nodes, ids);
    } else {
      var n := ids[0];
      var rest := ids[1..];
      assert Distinct(rest);
      DropParentsSpec(nodes, n);
      var next := DropParents(nodes, n).value;
      assert NormalizeAll(nodes, ids) == NormalizeAll(next, rest);
      NormalizeAllShape(next, rest);
      NormalizedStep(nodes, next, NormalizeAll(nodes, ids).value, ids);
    }
  }

  /** Normalising `n` changes neither the parents of another node `x` nor
      any count of `x` among children, so whether `x` can be normalised
      is unaffected. */
  lemma CanDropPreserved(nodes: NodeMap, next: NodeMap, n: NodeId, x: NodeId)
    requires n in nodes && x in nodes && x != n
    requires DroppedFrom(nodes, next, n)
    ensures Dropped(next[x]) == Dropped(nodes[x])
    ensures CanDrop(next, x, Dropped(next[x])) <==> CanDrop(nodes, x, Dropped(nodes[x]))
  {
    var d := Dropped(nodes[x]);
    assert Dropped(next[x]) == d;
    forall p | p in nodes
      ensures multiset(next[p].children)[x] == multiset(nodes[p].children)[x]
    {
      TrimmedFacts(nodes, next, n, p);
    }
  }

  /** Composes the first normalisation step with the rest. */
  lemma NormalizedStep(nodes: NodeMap, next: NodeMap, r: NodeMap, ids: seq<NodeId>)
    requires Distinct(ids) && |ids| > 0 && forall id :: id in ids ==> id in nodes
    requires DroppedFrom(nodes, next, ids[0])
    requires NormalizedFrom(next, r, ids[1..])
    ensures NormalizedFrom(nodes, r, ids)
  {
    var n := ids[0];
    var rest := ids[1..];
    assert n !in rest;
    assert ShapesKept(nodes, r) by {
      forall m | m in nodes
        ensures Relink(next[m], nodes[m].parents, nodes[m].children) == nodes[m]
      {
        TrimmedFacts(nodes, next, n, m);
      }
      ShapesStep(nodes, next, r);
    }
    assert ChildCounts(nodes, r, ids) by {
      forall m | m in nodes
        ensures forall x :: multiset(next[m].children)[x] + (if x == n then multiset(Dropped(nodes[n]))[m] else 0)
                              == multiset(nodes[m].children)[x]
      {
        TrimmedFacts(nodes, next, n, m);
      }
      forall x | x in rest
        ensures Dropped(next[x]) == Dropped(nodes[x])
      {
        assert next[x].parents == nodes[x].parents;
      }
      CountsStep(nodes, next, r, ids);
    }
    assert UntouchedChildren(nodes, r, ids) by {
      forall m | m in nodes
        ensures m !in Dropped(nodes[n]) ==> next[m].children == nodes[m].children
      {
        TrimmedFacts(nodes, next, n, m);
      }
      UntouchedStep(nodes, next, r, ids);
    }
    ParentsKeptStep(nodes, next, r, ids);
  }

  lemma ParentsKeptStep(nodes: NodeMap, next: NodeMap, r: NodeMap, ids: seq<NodeId>)
    requires Distinct(ids) && |ids| > 0
    requires next.Keys == nodes.Keys && r.Keys == nodes.Keys && ids[0] in nodes
    requires next[ids[0]].parents == Kept(nodes[ids[0]])
    requires forall m :: m in nodes && m != ids[0] ==> next[m].parents == nodes[m].parents
    requires ParentsKept(next, r, ids[1..])
    ensures ParentsKept(nodes, r, ids)
  {
    assert ids[0] !in ids[1..];
  }

  lemma ShapesStep(nodes: NodeMap, next: NodeMap, r: NodeMap)
    requires next.Keys == nodes.Keys && r.Keys == nodes.Keys
    requires forall m :: m in nodes ==> Relink(next[m], nodes[m].parents, nodes[m].children) == nodes[m]
    requires ShapesKept(next, r)
    ensures ShapesKept(nodes, r)
  {
  }

  lemma CountsStep(nodes: NodeMap, next: NodeMap, r: NodeMap, ids: seq<NodeId>)
    requires Distinct(ids) && |ids| > 0 && forall id :: id in ids ==> id in nodes
    requires next.Keys == nodes.Keys && r.Keys == nodes.Keys
    requires forall m, x :: m in nodes ==>
      multiset(next[m].children)[x] + (if x == ids[0] then multiset(Dropped(nodes[ids[0]]))[m] else 0)
        == multiset(nodes[m].children)[x]
    requires forall x :: x in ids[1..] ==> Dropped(next[x]) == Dropped(nodes[x])
    requires ChildCounts(next, r, ids[1..])
    ensures ChildCounts(nodes, r, ids)
  {
    var n := ids[0];
    var rest := ids[1..];
    assert n !in rest;
    assert ids == [n] + rest;
    forall m, x | m in nodes
      ensures multiset(r[m].children)[x] + DropCount(nodes, ids, x, m) == multiset(nodes[m].children)[x]
    {
      assert DropCount(next, rest, x, m) == DropCount(nodes, rest, x, m);
      assert DropCount(nodes, ids, x, m)
          == DropCount(nodes, rest, x, m) + (if x == n then multiset(Dropped(nodes[n]))[m] else 0);
    }
  }

  lemma UntouchedStep(nodes: NodeMap, next: NodeMap, r: NodeMap, ids: seq<NodeId>)
    requires Distinct(ids) && |ids| > 0 && ids[0] in nodes
    requires next.Keys == nodes.Keys && r.Keys == nodes.Keys
    requires forall m :: m in nodes && m != ids[0] ==> next[m].parents == nodes[m].parents
    requires forall m :: m in nodes && m !in Dropped(nodes[ids[0]]) ==> next[m].children == nodes[m].children
    requires UntouchedChildren(next, r, ids[1..])
    ensures UntouchedChildren(nodes, r, ids)
  {
    var rest := ids[1..];
    assert ids[0] !in rest;
    forall m | m in nodes && NeverDropped(nodes, ids, m)
      ensures r[m].children == nodes[m].children
    {
      assert m !in Dropped(nodes[ids[0]]);
      forall x | x in rest && x in next
        ensures m !in Dropped(next[x])
      {
        assert next[x].parents == nodes[x].parents;
      }
    }
  }

  /** The graph-wide normalisation (the loop over all nodes). */
  function Normalize(g: Graph): (r: Result<Graph>)
    requires Valid(g)
    ensures r.Ok? ==> r.value.order == g.order && Valid(r.value)
  {
    match NormalizeAll(g.nodes, g.order)
    case Err(e) => Err(e)
    case Ok(nodes) => Ok(Graph(g.order, nodes))
  }

  /** After normalisation a node without parents still has none and
      every other node has exactly one, the first of its original list; a node whose parents could not all
      be dropped makes normalisation fail. */
  lemma NormalizeSpec(g: Graph)
    requires Valid(g)
    ensures Normalize(g).Ok? <==> forall n :: n in g.nodes ==> CanDrop(g.nodes, n, Dropped(g.nodes[n]))
    ensures Normalize(g).Ok? ==> forall n :: n in g.nodes ==>
              var ps := Normalize(g).value.nodes[n].parents;
              && |ps| <= 1
              && (|g.nodes[n].parents| == 0 ==> ps == [])
              && (|g.nodes[n].parents| > 0 ==> ps == [g.nodes[n].parents[0]])
  {
    NormalizeAllOk(g.nodes, g.order);
    if Normalize(g).Ok? {
      NormalizeAllParents(g.nodes, g.order);
      FirstParentsOnly(g.nodes, Normalize(g).value.nodes, g.order);
    }
  }

  /** When every node is among `ids`, `ParentsKept` leaves each node with
      at most its original first parent. */
  lemma FirstParentsOnly(before: NodeMap, after: NodeMap, ids: seq<NodeId>)
    requires after.Keys == before.Keys && before.Keys == set id | id in ids
    requires ParentsKept(before, after, ids)
    ensures forall n :: n in before ==>
              var ps := after[n].parents;
              && |ps| <= 1
              && (|before[n].parents| == 0 ==> ps == [])
              && (|before[n].parents| > 0 ==> ps == [before[n].parents[0]])
  {
    forall n | n in before
      ensures var ps := after[n].parents;
        && |ps| <= 1
        && (|before[n].parents| == 0 ==> ps == [])
        && (|before[n].parents| > 0 ==> ps == [before[n].parents[0]])
    {
      assert n in ids;
      assert after[n].parents == Kept(before[n]);
    }
  }

  /** The parent lists alone after a successful normalisation. */
  lemma NormalizeAllParents(nodes: NodeMap, ids: seq<NodeId>)
    requires Distinct(ids) && forall id :: id in ids ==> id in nodes
    requires NormalizeAll(nodes, ids).Ok?
    ensures NormalizeAll(nodes, ids).value.Keys == nodes.Keys
    ensures ParentsKept(nodes, NormalizeAll(nodes, ids).value, ids)
  {
    NormalizeAllShape(nodes, ids);
  }

  /** Normalisation is idempotent: a normalised graph normalises to itself. */
  lemma NormalizeIdempotent(g: Graph)
    requires Valid(g) && Normalize(g).Ok?
    ensures Normalize(Normalize(g).value) == Normalize(g)
  {
    var h := Normalize(g).value;
    NormalizeSpec(g);
    SingleParentsFixed(h.nodes, h.order);
  }

  /** Nodes with at most one parent are left alone by normalisation. */
  lemma {:induction false} SingleParentsFixed(nodes: NodeMap, ids: seq<NodeId>)
    requires forall id :: id in ids ==> id in nodes
    requires forall id :: id in nodes ==> |nodes[id].parents| <= 1
    ensures NormalizeAll(nodes, ids) == Ok(nodes)
  {
    if ids != [] {
      SingleParentsFixed(nodes, ids[1..]);
    }
  }
}
