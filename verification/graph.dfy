/** The in-memory graph snapshot that the coordinate pipeline works on:
    node records keyed by identifier, the edge collection, the level index,
    the orientation setting, and the errors the pipeline can raise. */
module LayeredGraph {

  /** Node identifiers are opaque strings. */
  type NodeId = string

  /** One node record: its box size, its parent and child lists (in the
      order the graph description lists them) and its level. */
  datatype Node = Node(width: real, height: real, parents: seq<NodeId>, children: seq<NodeId>, level: int)

  /** Node records keyed by identifier. */
  type NodeMap = map<NodeId, Node>

  /** A node collection together with its iteration order (the insertion
      order of the underlying dictionary). */
  datatype Graph = Graph(order: seq<NodeId>, nodes: NodeMap)

  /** A directed edge between two nodes, possibly flagged as a proximity edge. */
  datatype Edge = Edge(source: NodeId, target: NodeId, proximity: bool)

  /** Level `k` of the index lists the identifiers placed at level `k`. */
  type LevelIndex = seq<seq<NodeId>>

  /** The two recognised view orientations. */
  datatype Orientation = Vertical | Horizontal

  /** The two box dimensions a node has. */
  datatype Dimension = Width | Height

  /** Failures of the pipeline on inconsistent input. */
  datatype LayoutError =
    | MissingNode(id: NodeId)                      // an identifier with no node record
    | NotAChild(parent: NodeId, child: NodeId)     // a listed parent does not list the node as a child
    | EmptyLevelIndex                              // there is no level 0 to start from
    | NoEligibleChildren(id: NodeId)               // an internal node has nothing to average over
    | UnassignedChild(id: NodeId, child: NodeId)   // a child's spread value is not yet known
    | UnplacedNode(id: NodeId)                     // a node needed a spread value it does not have

  datatype Result<T> = Ok(value: T) | Err(error: LayoutError)

  /** The size of a node box along one dimension. */
  function Extent(nd: Node, d: Dimension): real {
    match d
    case Width => nd.width
    case Height => nd.height
  }

  predicate Distinct<T(==)>(s: seq<T>) {
    forall i, j :: 0 <= i < j < |s| ==> s[i] != s[j]
  }

  /** The iteration order visits every node exactly once. */
  predicate Valid(g: Graph) {
    && Distinct(g.order)
    && g.nodes.Keys == set id | id in g.order
  }

  /** Every child identifier has a node record. */
  ghost predicate Closed(nodes: NodeMap) {
    forall id, c :: id in nodes && c in nodes[id].children ==> c in nodes
  }

  /** Every node box has positive width and height. */
  ghost predicate PositiveBoxes(nodes: NodeMap) {
    forall id :: id in nodes ==> nodes[id].width > 0.0 && nodes[id].height > 0.0
  }

  /** Every level lists at least one node. */
  predicate NonEmptyLevels(levels: LevelIndex) {
    forall k :: 0 <= k < |levels| ==> |levels[k]| > 0
  }

  /** No node is listed at two different levels. */
  ghost predicate DisjointLevels(levels: LevelIndex) {
    forall i, j, id :: 0 <= i < j < |levels| && id in levels[i] ==> id !in levels[j]
  }
}
