/** A vertex of the tour graph together with the two fields Prim's algorithm
    fills in: the cheapest known cost of reaching it and the vertex it is
    reached from. Unset fields (Java's null) are None. */
module Nodes {

  datatype Option<T> = None | Some(value: T)

  datatype Node = Node(vertex: nat, minimumCost: Option<int>, parent: Option<nat>)

  /** A node has been reached once its minimum cost is set. */
  predicate Reached(n: Node) {
    n.minimumCost.Some?
  }

  /** The priority of a node inside a heap. */
  function Key(n: Node): int
    requires Reached(n)
  {
    n.minimumCost.value
  }

  /** The node list as the tour builds it: node i has vertex i and no cost or parent yet. */
  function FreshNodes(n: nat): (ns: seq<Node>)
    ensures |ns| == n
    ensures forall v :: 0 <= v < n ==> ns[v] == Node(v, None, None)
  {
    seq(n, (v: int) requires 0 <= v => Node(v as nat, None, None))
  }
}
