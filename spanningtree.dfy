/** Eager Prim's algorithm over the cost matrix, with one global heap of
    reached-but-unvisited nodes and one child heap per vertex recording the
    vertex's children in the tree. A cheaper edge to a queued node is handled
    by removing the node from both heaps, updating it, and adding it back. */
module SpanningTree {
  import opened Nodes
  import opened Heaps
  import opened Sequences
  import opened CostMatrix

  /* The invariants below are stated over values: ns is the node list, vis
     the visited flags, q the contents of the global heap, ch the contents of
     the child heaps, order the vertices in the order they were extracted and
     rank[v] the position of v in that order. */

  /** Node i describes vertex i; the start vertex 0 keeps cost 0 and no
      parent; a node with no cost has no parent either. */
  ghost predicate NodesShape(ns: seq<Node>) {
    && |ns| > 0
    && ns[0] == Node(0, Some(0), None)
    && (forall v :: 0 <= v < |ns| ==> ns[v].vertex == v)
    && (forall v :: 0 <= v < |ns| && !Reached(ns[v]) ==> ns[v].parent.None?)
  }

  /** The visited vertices are exactly those extracted so far, each once,
      the start vertex first, and every visited vertex has been reached. */
  ghost predicate VisitOrder(ns: seq<Node>, vis: seq<bool>, rank: seq<nat>, order: seq<nat>)
    requires |vis| == |ns| && |rank| == |ns|
  {
    && Distinct(order)
    && (forall i :: 0 <= i < |order| ==> order[i] < |ns| && rank[order[i]] == i)
    && (forall v :: 0 <= v < |ns| ==> (vis[v] <==> v in order))
    && (forall v {:trigger ns[v]} :: 0 <= v < |ns| && vis[v] ==> Reached(ns[v]))
    && (order == [] ==> forall v :: 0 < v < |ns| ==> !Reached(ns[v]))
    && (order != [] ==> order[0] == 0)
  }

  /** Every reached vertex other than the start hangs off a visited parent by
      an edge whose cost is its key, and was visited after that parent. */
  ghost predicate TreeEdges(adj: seq<seq<int>>, ns: seq<Node>, vis: seq<bool>, rank: seq<nat>)
    requires IsSquare(adj) && |ns| == |adj| && |vis| == |ns| && |rank| == |ns|
  {
    forall v {:trigger ns[v]} :: 0 < v < |ns| && Reached(ns[v]) ==>
      && ns[v].parent.Some? && ns[v].parent.value < |ns|
      && vis[ns[v].parent.value]
      && Key(ns[v]) == adj[ns[v].parent.value][v]
      && (vis[v] ==> rank[ns[v].parent.value] < rank[v])
  }

  /** The global heap holds exactly the reached-but-unvisited nodes, each
      once and with its current key. */
  ghost predicate QueueExact(ns: seq<Node>, vis: seq<bool>, q: multiset<Node>)
    requires |vis| == |ns|
  {
    && (forall e :: e in q ==> Reached(e) && e.vertex < |ns| && e == ns[e.vertex] && !vis[e.vertex])
    && (forall v {:trigger ns[v]} :: 0 <= v < |ns| && Reached(ns[v]) && !vis[v] ==> q[ns[v]] == 1)
  }

  /** Every reached vertex other than the start sits exactly once in the
      child heap of its parent, and every child heap entry is current and
      names that heap's vertex as its parent. */
  ghost predicate ChildrenExact(ns: seq<Node>, ch: seq<multiset<Node>>)
    requires |ch| == |ns|
  {
    ChildEntries(ns, ch) && ChildCounts(ns, ch)
  }

  ghost predicate ChildEntries(ns: seq<Node>, ch: seq<multiset<Node>>) {
    forall u, e :: 0 <= u < |ch| && e in ch[u] ==>
      Reached(e) && e.vertex < |ns| && e == ns[e.vertex] && e.parent == Some(u)
  }

  ghost predicate ChildCounts(ns: seq<Node>, ch: seq<multiset<Node>>) {
    forall v :: 0 < v < |ns| && Reached(ns[v]) ==>
      ns[v].parent.Some? && ns[v].parent.value < |ch| && ch[ns[v].parent.value][ns[v]] == 1
  }

  ghost predicate PrimInv(adj: seq<seq<int>>, ns: seq<Node>, vis: seq<bool>, q: multiset<Node>,
                          ch: seq<multiset<Node>>, rank: seq<nat>, order: seq<nat>)
  {
    && IsSquare(adj) && |ns| == |adj| && |vis| == |ns| && |ch| == |ns| && |rank| == |ns|
    && NodesShape(ns)
    && VisitOrder(ns, vis, rank, order)
    && TreeEdges(adj, ns, vis, rank)
    && QueueExact(ns, vis, q)
    && ChildrenExact(ns, ch)
  }

  /** Prim's key invariant: the key of every unvisited vertex is no larger
      than the edge to it from any visited vertex whose neighbours have been
      scanned (all of them, except that vertex cur is scanned below upto). */
  ghost predicate Light(adj: seq<seq<int>>, ns: seq<Node>, vis: seq<bool>, cur: nat, upto: nat)
    requires IsSquare(adj) && |ns| == |adj| && |vis| == |ns|
  {
    forall x, v {:trigger ns[v], vis[x]} :: 0 <= x < |ns| && 0 <= v < |ns| && vis[x] && !vis[v] && (x != cur || v < upto) ==>
      Reached(ns[v]) && Key(ns[v]) <= adj[x][v]
  }

  /** The state just before the loop: only the start node is queued. */
  lemma InitialState(adj: seq<seq<int>>, ns: seq<Node>)
    requires IsSquare(adj) && |ns| == |adj| > 0
    requires ns[0] == Node(0, Some(0), None)
    requires forall v :: 0 < v < |ns| ==> ns[v] == Node(v, None, None)
    ensures PrimInv(adj, ns, seq(|ns|, _ => false), multiset{ns[0]},
                    seq(|ns|, _ => multiset{}), seq(|ns|, _ => 0), [])
    ensures Light(adj, ns, seq(|ns|, _ => false), 0, |ns|)
  {
  }

  /* Extraction: the queued node e is removed and its vertex visited. */

  lemma VisitKeepsOrder(ns: seq<Node>, vis: seq<bool>, rank: seq<nat>, order: seq<nat>, u: nat)
    requires |vis| == |ns| && |rank| == |ns| && u < |ns|
    requires VisitOrder(ns, vis, rank, order) && !vis[u] && Reached(ns[u])
    ensures VisitOrder(ns, vis[u := true], rank[u := |order|], order + [u])
  {
    assert u !in order;
    assert order == [] ==> u == 0;
  }

  lemma VisitKeepsTreeEdges(adj: seq<seq<int>>, ns: seq<Node>, vis: seq<bool>, rank: seq<nat>,
                            order: seq<nat>, u: nat)
    requires IsSquare(adj) && |ns| == |adj| && |vis| == |ns| && |rank| == |ns| && u < |ns|
    requires VisitOrder(ns, vis, rank, order) && TreeEdges(adj, ns, vis, rank) && !vis[u]
    ensures TreeEdges(adj, ns, vis[u := true], rank[u := |order|])
  {
    var vis', rank' := vis[u := true], rank[u := |order|];
    forall v | 0 < v < |ns| && Reached(ns[v]) && vis'[v]
      ensures rank'[ns[v].parent.value] < rank'[v]
    {
      var p := ns[v].parent.value;
      var i :| 0 <= i < |order| && order[i] == p;
      assert rank[p] == i;
    }
  }

  lemma VisitKeepsQueue(ns: seq<Node>, vis: seq<bool>, q: multiset<Node>, e: Node)
    requires |vis| == |ns| && NodesShape(ns) && QueueExact(ns, vis, q) && e in q
    ensures QueueExact(ns, vis[e.vertex := true], q - multiset{e})
  {
    assert q[ns[e.vertex]] == 1;
    forall f | f in q - multiset{e} ensures f != e && f.vertex != e.vertex {
      assert f in q;
    }
  }

  /** Extracting the queued node e visits its vertex and keeps the invariant;
      the new vertex's neighbours are still to be scanned. */
  lemma VisitStep(adj: seq<seq<int>>, ns: seq<Node>, vis: seq<bool>, q: multiset<Node>,
                  ch: seq<multiset<Node>>, rank: seq<nat>, order: seq<nat>, e: Node)
    requires PrimInv(adj, ns, vis, q, ch, rank, order) && Light(adj, ns, vis, 0, |ns|)
    requires e in q
    ensures e.vertex < |ns| && e == ns[e.vertex] && !vis[e.vertex]
    ensures PrimInv(adj, ns, vis[e.vertex := true], q - multiset{e}, ch,
                    rank[e.vertex := |order|], order + [e.vertex])
    ensures Light(adj, ns, vis[e.vertex := true], e.vertex, 0)
  {
    VisitKeepsOrder(ns, vis, rank, order, e.vertex);
    VisitKeepsTreeEdges(adj, ns, vis, rank, order, e.vertex);
    VisitKeepsQueue(ns, vis, q, e);
    var vis' := vis[e.vertex := true];
    forall x, v | 0 <= x < |ns| && 0 <= v < |ns| && vis'[x] && !vis'[v] && x != e.vertex
      ensures Reached(ns[v]) && Key(ns[v]) <= adj[x][v]
    {
      assert vis[x] && !vis[v];
    }
  }

  /* Update: the unvisited vertex nb gets cost adj[u][nb] and parent u. */

  lemma UpdateKeepsShape(ns: seq<Node>, nb: nat, x: Node)
    requires NodesShape(ns) && 0 < nb < |ns| && x.vertex == nb && Reached(x)
    ensures NodesShape(ns[nb := x])
  {
  }

  lemma UpdateKeepsOrder(ns: seq<Node>, vis: seq<bool>, rank: seq<nat>, order: seq<nat>, nb: nat, x: Node)
    requires |vis| == |ns| && |rank| == |ns| && nb < |ns|
    requires VisitOrder(ns, vis, rank, order) && order != [] && !vis[nb]
    ensures VisitOrder(ns[nb := x], vis, rank, order)
  {
  }

  lemma UpdateKeepsTreeEdges(adj: seq<seq<int>>, ns: seq<Node>, vis: seq<bool>, rank: seq<nat>, u: nat, nb: nat)
    requires IsSquare(adj) && |ns| == |adj| && |vis| == |ns| && |rank| == |ns| && u < |ns| && nb < |ns|
    requires TreeEdges(adj, ns, vis, rank) && vis[u] && !vis[nb]
    ensures TreeEdges(adj, ns[nb := Node(nb, Some(adj[u][nb]), Some(u))], vis, rank)
  {
  }

  lemma UpdateKeepsQueue(ns: seq<Node>, vis: seq<bool>, q: multiset<Node>, nb: nat, x: Node)
    requires |vis| == |ns| && nb < |ns| && NodesShape(ns) && QueueExact(ns, vis, q)
    requires !vis[nb] && x.vertex == nb && Reached(x)
    ensures QueueExact(ns[nb := x], vis, q - multiset{ns[nb]} + multiset{x})
  {
    var ns', q' := ns[nb := x], q - multiset{ns[nb]} + multiset{x};
    assert x !in q - multiset{ns[nb]};
    forall e | e in q'
      ensures Reached(e) && e.vertex < |ns'| && e == ns'[e.vertex] && !vis[e.vertex]
    {
      if e != x {
        assert e in q && e != ns[nb];
      }
    }
    forall v | 0 <= v < |ns'| && Reached(ns'[v]) && !vis[v]
      ensures q'[ns'[v]] == 1
    {
      if v != nb {
        assert ns[v] != ns[nb] && ns[v] != x;
      }
    }
  }

  lemma UpdateKeepsLight(adj: seq<seq<int>>, ns: seq<Node>, vis: seq<bool>, u: nat, nb: nat)
    requires IsSquare(adj) && |ns| == |adj| && |vis| == |ns| && u < |ns| && nb < |ns|
    requires Light(adj, ns, vis, u, nb) && vis[u] && !vis[nb]
    requires !Reached(ns[nb]) || Key(ns[nb]) > adj[u][nb]
    ensures Light(adj, ns[nb := Node(nb, Some(adj[u][nb]), Some(u))], vis, u, nb + 1)
  {
    var ns' := ns[nb := Node(nb, Some(adj[u][nb]), Some(u))];
    forall x, v | 0 <= x < |ns| && 0 <= v < |ns| && vis[x] && !vis[v] && (x != u || v < nb + 1)
      ensures Reached(ns'[v]) && Key(ns'[v]) <= adj[x][v]
    {
      if v == nb && x != u {
        assert Reached(ns[nb]) && Key(ns[nb]) <= adj[x][nb];
      }
    }
  }

  /** A neighbour left as it is: already visited, or no cheaper from u. */
  lemma SkipKeepsLight(adj: seq<seq<int>>, ns: seq<Node>, vis: seq<bool>, u: nat, nb: nat)
    requires IsSquare(adj) && |ns| == |adj| && |vis| == |ns| && u < |ns| && nb < |ns|
    requires Light(adj, ns, vis, u, nb)
    requires vis[nb] || (Reached(ns[nb]) && Key(ns[nb]) <= adj[u][nb])
    ensures Light(adj, ns, vis, u, nb + 1)
  {
  }

  lemma ReachKeepsChildren(ns: seq<Node>, ch: seq<multiset<Node>>, u: nat, nb: nat, x: Node)
    requires |ch| == |ns| && u < |ns| && 0 < nb < |ns| && NodesShape(ns) && ChildrenExact(ns, ch)
    requires !Reached(ns[nb]) && x == Node(nb, x.minimumCost, Some(u)) && Reached(x)
    ensures ChildrenExact(ns[nb := x], ch[u := ch[u] + multiset{x}])
  {
    ReachChildEntries(ns, ch, u, nb, x);
    ReachChildCounts(ns, ch, u, nb, x);
  }

  lemma ReachChildEntries(ns: seq<Node>, ch: seq<multiset<Node>>, u: nat, nb: nat, x: Node)
    requires |ch| == |ns| && u < |ns| && 0 < nb < |ns| && NodesShape(ns) && ChildrenExact(ns, ch)
    requires !Reached(ns[nb]) && x == Node(nb, x.minimumCost, Some(u)) && Reached(x)
    ensures ChildEntries(ns[nb := x], ch[u := ch[u] + multiset{x}])
  {
    var ns', ch' := ns[nb := x], ch[u := ch[u] + multiset{x}];
    forall w, f | 0 <= w < |ch'| && f in ch'[w]
      ensures Reached(f) && f.vertex < |ns'| && f == ns'[f.vertex] && f.parent == Some(w)
    {
      if f != x {
        assert f in ch[w];
      }
    }
  }

  lemma ReachChildCounts(ns: seq<Node>, ch: seq<multiset<Node>>, u: nat, nb: nat, x: Node)
    requires |ch| == |ns| && u < |ns| && 0 < nb < |ns| && NodesShape(ns) && ChildrenExact(ns, ch)
    requires !Reached(ns[nb]) && x == Node(nb, x.minimumCost, Some(u)) && Reached(x)
    ensures ChildCounts(ns[nb := x], ch[u := ch[u] + multiset{x}])
  {
    var ns', ch' := ns[nb := x], ch[u := ch[u] + multiset{x}];
    assert x !in ch[u];
    forall v | 0 < v < |ns'| && Reached(ns'[v])
      ensures ns'[v].parent.Some? && ns'[v].parent.value < |ch'| && ch'[ns'[v].parent.value][ns'[v]] == 1
    {
      if v != nb {
        assert ns'[v] == ns[v] && ns[v].vertex == v && ns[v] != x;
      }
    }
  }

  lemma RelaxKeepsChildren(ns: seq<Node>, ch: seq<multiset<Node>>, u: nat, nb: nat, x: Node)
    requires |ch| == |ns| && u < |ns| && 0 < nb < |ns| && NodesShape(ns) && ChildrenExact(ns, ch)
    requires Reached(ns[nb]) && ns[nb].parent != Some(u)
    requires x == Node(nb, x.minimumCost, Some(u)) && Reached(x)
    ensures ns[nb].parent.Some? && ns[nb].parent.value < |ns| && ns[nb] in ch[ns[nb].parent.value]
    ensures var p := ns[nb].parent.value;
      ChildrenExact(ns[nb := x], ch[p := ch[p] - multiset{ns[nb]}][u := ch[u] + multiset{x}])
  {
    RelaxChildEntries(ns, ch, u, nb, x);
    RelaxChildCounts(ns, ch, u, nb, x);
  }

  lemma RelaxChildEntries(ns: seq<Node>, ch: seq<multiset<Node>>, u: nat, nb: nat, x: Node)
    requires |ch| == |ns| && u < |ns| && 0 < nb < |ns| && NodesShape(ns) && ChildrenExact(ns, ch)
    requires Reached(ns[nb]) && ns[nb].parent != Some(u)
    requires x == Node(nb, x.minimumCost, Some(u)) && Reached(x)
    ensures ns[nb].parent.Some? && ns[nb].parent.value < |ns|
    ensures var p := ns[nb].parent.value;
      ChildEntries(ns[nb := x], ch[p := ch[p] - multiset{ns[nb]}][u := ch[u] + multiset{x}])
  {
    var p, old_ := ns[nb].parent.value, ns[nb];
    var ns', ch' := ns[nb := x], ch[p := ch[p] - multiset{old_}][u := ch[u] + multiset{x}];
    forall w, f | 0 <= w < |ch'| && f in ch'[w]
      ensures Reached(f) && f.vertex < |ns'| && f == ns'[f.vertex] && f.parent == Some(w)
    {
      if f != x {
        assert f in ch[w] && f != old_;
      }
    }
  }

  lemma RelaxChildCounts(ns: seq<Node>, ch: seq<multiset<Node>>, u: nat, nb: nat, x: Node)
    requires |ch| == |ns| && u < |ns| && 0 < nb < |ns| && NodesShape(ns) && ChildrenExact(ns, ch)
    requires Reached(ns[nb]) && ns[nb].parent != Some(u)
    requires x == Node(nb, x.minimumCost, Some(u)) && Reached(x)
    ensures ns[nb].parent.Some? && ns[nb].parent.value < |ns| && ns[nb] in ch[ns[nb].parent.value]
    ensures var p := ns[nb].parent.value;
      ChildCounts(ns[nb := x], ch[p := ch[p] - multiset{ns[nb]}][u := ch[u] + multiset{x}])
  {
    var p, old_ := ns[nb].parent.value, ns[nb];
    var ns', ch' := ns[nb := x], ch[p := ch[p] - multiset{old_}][u := ch[u] + multiset{x}];
    assert x !in ch[u];
    forall v | 0 < v < |ns'| && Reached(ns'[v])
      ensures ns'[v].parent.Some? && ns'[v].parent.value < |ch'| && ch'[ns'[v].parent.value][ns'[v]] == 1
    {
      if v != nb {
        assert ns'[v] == ns[v] && ns[v].vertex == v && ns[v] != old_ && ns[v] != x;
      }
    }
  }

  /** Reaching the unreached vertex nb from the visited vertex u. */
  lemma ReachStep(adj: seq<seq<int>>, ns: seq<Node>, vis: seq<bool>, q: multiset<Node>,
                  ch: seq<multiset<Node>>, rank: seq<nat>, order: seq<nat>, u: nat, nb: nat)
    requires PrimInv(adj, ns, vis, q, ch, rank, order) && u < |ns| && nb < |ns|
    requires Light(adj, ns, vis, u, nb)
    requires vis[u] && !vis[nb] && !Reached(ns[nb])
    ensures var x := Node(nb, Some(adj[u][nb]), Some(u));
      && PrimInv(adj, ns[nb := x], vis, q + multiset{x}, ch[u := ch[u] + multiset{x}], rank, order)
      && Light(adj, ns[nb := x], vis, u, nb + 1)
  {
    var x := Node(nb, Some(adj[u][nb]), Some(u));
    assert order[0] == 0;
    UpdateKeepsShape(ns, nb, x);
    UpdateKeepsOrder(ns, vis, rank, order, nb, x);
    UpdateKeepsTreeEdges(adj, ns, vis, rank, u, nb);
    UpdateKeepsQueue(ns, vis, q, nb, x);
    assert q - multiset{ns[nb]} == q;
    ReachKeepsChildren(ns, ch, u, nb, x);
    UpdateKeepsLight(adj, ns, vis, u, nb);
  }

  /** Re-parenting the queued vertex nb to u along a strictly cheaper edge:
      remove it from the global heap and from its old parent's child heap,
      update it, and add it to the global heap and to u's child heap. */
  lemma RelaxStep(adj: seq<seq<int>>, ns: seq<Node>, vis: seq<bool>, q: multiset<Node>,
                  ch: seq<multiset<Node>>, rank: seq<nat>, order: seq<nat>, u: nat, nb: nat)
    requires PrimInv(adj, ns, vis, q, ch, rank, order) && u < |ns| && nb < |ns|
    requires Light(adj, ns, vis, u, nb)
    requires vis[u] && !vis[nb] && Reached(ns[nb]) && Key(ns[nb]) > adj[u][nb]
    ensures nb > 0 && ns[nb].parent.Some? && ns[nb].parent.value < |ns| && ns[nb].parent.value != u
    ensures ns[nb] in q && ns[nb] in ch[ns[nb].parent.value]
    ensures var x, p := Node(nb, Some(adj[u][nb]), Some(u)), ns[nb].parent.value;
      && PrimInv(adj, ns[nb := x], vis, q - multiset{ns[nb]} + multiset{x},
                 ch[p := ch[p] - multiset{ns[nb]}][u := ch[u] + multiset{x}], rank, order)
      && Light(adj, ns[nb := x], vis, u, nb + 1)
  {
    var x := Node(nb, Some(adj[u][nb]), Some(u));
    assert order[0] == 0;
    UpdateKeepsShape(ns, nb, x);
    UpdateKeepsOrder(ns, vis, rank, order, nb, x);
    UpdateKeepsTreeEdges(adj, ns, vis, rank, u, nb);
    UpdateKeepsQueue(ns, vis, q, nb, x);
    RelaxKeepsChildren(ns, ch, u, nb, x);
    UpdateKeepsLight(adj, ns, vis, u, nb);
  }

  /** The heaps are pairwise distinct objects, each valid, and hold the
      child multisets ch. */
  ghost predicate Coupled(heap: Heap, tree: seq<Heap>, ch: seq<multiset<Node>>)
    reads heap, tree
  {
    && |ch| == |tree| && heap.Valid()
    && (forall k :: 0 <= k < |tree| ==> tree[k] != heap && tree[k].Valid() && multiset(tree[k].heap) == ch[k])
    && (forall j, k :: 0 <= j < k < |tree| ==> tree[j] != tree[k])
  }

  /** First reach of a vertex: its node x goes into the global heap and
      into the child heap of u. */
  method AddReached(heap: Heap, tree: seq<Heap>, u: nat, x: Node, ghost ch: seq<multiset<Node>>)
    returns (ghost ch': seq<multiset<Node>>)
    requires Coupled(heap, tree, ch) && u < |tree| && Reached(x)
    modifies heap, tree[u]
    ensures Coupled(heap, tree, ch')
    ensures multiset(heap.heap) == old(multiset(heap.heap)) + multiset{x}
    ensures ch' == ch[u := ch[u] + multiset{x}]
  {
    heap.Add(x);
    tree[u].Add(x);
    ch' := ch[u := ch[u] + multiset{x}];
  }

  /** Re-parenting: the old node leaves the global heap and the child heap
      of its old parent p; its replacement x enters the global heap and the
      child heap of u. */
  method Reattach(heap: Heap, tree: seq<Heap>, p: nat, u: nat, previous: Node, x: Node,
                  ghost ch: seq<multiset<Node>>)
    returns (ghost ch': seq<multiset<Node>>)
    requires Coupled(heap, tree, ch) && p < |tree| && u < |tree| && p != u && Reached(x)
    requires previous in heap.heap && previous in tree[p].heap
    modifies heap, tree[p], tree[u]
    ensures Coupled(heap, tree, ch')
    ensures multiset(heap.heap) == old(multiset(heap.heap)) - multiset{previous} + multiset{x}
    ensures ch' == ch[p := ch[p] - multiset{previous}][u := ch[u] + multiset{x}]
  {
    heap.RemoveNode(previous);
    tree[p].RemoveNode(previous);
    heap.Add(x);
    tree[u].Add(x);
    ch' := ch[p := ch[p] - multiset{previous}][u := ch[u] + multiset{x}];
  }

  /** The branch for a neighbour nb that has not been reached: it gets cost
      adj[u][nb] and parent u, and enters the global heap and u's child heap. */
  method ReachNeighbour(adj: seq<seq<int>>, u: nat, nb: nat, startNodes: seq<Node>, heap: Heap, tree: seq<Heap>,
                        ghost vis: seq<bool>, ghost startCh: seq<multiset<Node>>,
                        ghost rank: seq<nat>, ghost order: seq<nat>)
    returns (nodes: seq<Node>, ghost ch: seq<multiset<Node>>)
    requires |tree| == |adj| && u < |adj| && nb < |adj| && Coupled(heap, tree, startCh)
    requires PrimInv(adj, startNodes, vis, multiset(heap.heap), startCh, rank, order)
    requires Light(adj, startNodes, vis, u, nb)
    requires vis[u] && !vis[nb] && !Reached(startNodes[nb])
    modifies heap, tree[u]
    ensures nodes == startNodes[nb := Node(nb, Some(adj[u][nb]), Some(u))]
    ensures Coupled(heap, tree, ch)
    ensures PrimInv(adj, nodes, vis, multiset(heap.heap), ch, rank, order)
    ensures Light(adj, nodes, vis, u, nb + 1)
  {
    ghost var x := Node(nb, Some(adj[u][nb]), Some(u));
    assert startNodes[nb].vertex == nb;
    nodes := startNodes[nb := startNodes[nb].(minimumCost := Some(adj[u][nb]))];
    nodes := nodes[nb := nodes[nb].(parent := Some(u))];
    assert nodes == startNodes[nb := x];
    ReachStep(adj, startNodes, vis, multiset(heap.heap), startCh, rank, order, u, nb);
    ch := AddReached(heap, tree, u, nodes[nb], startCh);
  }

  /** The branch for a queued neighbour nb that u reaches strictly more
      cheaply: it leaves both heaps, gets cost adj[u][nb] and parent u, and
      enters the global heap and u's child heap. */
  method RelaxNeighbour(adj: seq<seq<int>>, u: nat, nb: nat, startNodes: seq<Node>, heap: Heap, tree: seq<Heap>,
                        ghost vis: seq<bool>, ghost startCh: seq<multiset<Node>>,
                        ghost rank: seq<nat>, ghost order: seq<nat>)
    returns (nodes: seq<Node>, ghost ch: seq<multiset<Node>>)
    requires |tree| == |adj| && u < |adj| && nb < |adj| && Coupled(heap, tree, startCh)
    requires PrimInv(adj, startNodes, vis, multiset(heap.heap), startCh, rank, order)
    requires Light(adj, startNodes, vis, u, nb)
    requires vis[u] && !vis[nb] && Reached(startNodes[nb]) && Key(startNodes[nb]) > adj[u][nb]
    modifies heap, tree
    ensures nodes == startNodes[nb := Node(nb, Some(adj[u][nb]), Some(u))]
    ensures Coupled(heap, tree, ch)
    ensures PrimInv(adj, nodes, vis, multiset(heap.heap), ch, rank, order)
    ensures Light(adj, nodes, vis, u, nb + 1)
  {
    ghost var x := Node(nb, Some(adj[u][nb]), Some(u));
    var previous := startNodes[nb];
    assert previous.vertex == nb;
    nodes := startNodes[nb := startNodes[nb].(minimumCost := Some(adj[u][nb]))];
    nodes := nodes[nb := nodes[nb].(parent := Some(u))];
    assert nodes == startNodes[nb := x];
    RelaxStep(adj, startNodes, vis, multiset(heap.heap), startCh, rank, order, u, nb);
    var p := previous.parent.value;
    ch := Reattach(heap, tree, p, u, previous, nodes[nb], startCh);
  }

  /** Scanning u's neighbours leaves a node as it was, or gives it cost
      adj[u][v] and parent u, and only when that is strictly cheaper than
      its previous cost or it had none: costs never increase. */
  ghost predicate KeptOrImproved(adj: seq<seq<int>>, u: nat, v: nat, before: Node, after: Node)
    requires u < |adj| && v < |adj[u]|
  {
    || after == before
    || (after == Node(v, Some(adj[u][v]), Some(u)) && (!Reached(before) || Key(before) > adj[u][v]))
  }

  /** One more neighbour scanned: nodes below upto may have improved, the
      rest are as they were at the start of the scan. */
  ghost predicate ScannedUpTo(adj: seq<seq<int>>, u: nat, upto: nat, startNodes: seq<Node>, nodes: seq<Node>)
    requires IsSquare(adj) && u < |adj| && |startNodes| == |adj| && |nodes| == |adj|
  {
    && (forall v {:trigger nodes[v]} :: 0 <= v < |adj| ==> KeptOrImproved(adj, u, v, startNodes[v], nodes[v]))
    && (forall v {:trigger nodes[v]} :: upto <= v < |adj| ==> nodes[v] == startNodes[v])
  }

  lemma ScannedOneMore(adj: seq<seq<int>>, u: nat, nb: nat, startNodes: seq<Node>, before: seq<Node>, after: seq<Node>)
    requires IsSquare(adj) && u < |adj| && nb < |adj| && |startNodes| == |adj| && |before| == |adj| && |after| == |adj|
    requires ScannedUpTo(adj, u, nb, startNodes, before)
    requires forall v :: 0 <= v < |adj| && v != nb ==> after[v] == before[v]
    requires KeptOrImproved(adj, u, nb, before[nb], after[nb])
    ensures ScannedUpTo(adj, u, nb + 1, startNodes, after)
  {
    forall v | 0 <= v < |adj| ensures KeptOrImproved(adj, u, v, startNodes[v], after[v]) {
      if v != nb {
        assert after[v] == before[v];
      }
    }
  }

  /** One step of the scan: neighbour nb is reached from u if it was not
      reached yet, re-parented to u if u reaches it strictly more cheaply,
      and left alone otherwise (in particular when it is visited). */
  method ConsiderNeighbour(adj: seq<seq<int>>, u: nat, nb: nat, startNodes: seq<Node>, heap: Heap, tree: seq<Heap>,
                           visited: array<bool>, ghost vis: seq<bool>, ghost startCh: seq<multiset<Node>>,
                           ghost rank: seq<nat>, ghost order: seq<nat>)
    returns (nodes: seq<Node>, ghost ch: seq<multiset<Node>>)
    requires |tree| == |adj| && u < |adj| && nb < |adj| && visited[..] == vis
    requires Coupled(heap, tree, startCh)
    requires PrimInv(adj, startNodes, vis, multiset(heap.heap), startCh, rank, order)
    requires Light(adj, startNodes, vis, u, nb) && vis[u]
    modifies heap, tree
    ensures |nodes| == |adj|
    ensures Coupled(heap, tree, ch)
    ensures PrimInv(adj, nodes, vis, multiset(heap.heap), ch, rank, order)
    ensures Light(adj, nodes, vis, u, nb + 1)
    ensures forall v :: 0 <= v < |adj| && v != nb ==> nodes[v] == startNodes[v]
    ensures KeptOrImproved(adj, u, nb, startNodes[nb], nodes[nb])
  {
    if !visited[nb] && startNodes[nb].minimumCost.None? {
      nodes, ch := ReachNeighbour(adj, u, nb, startNodes, heap, tree, vis, startCh, rank, order);
    } else if !visited[nb] && startNodes[nb].minimumCost.value > adj[u][nb] {
      nodes, ch := RelaxNeighbour(adj, u, nb, startNodes, heap, tree, vis, startCh, rank, order);
    } else {
      nodes, ch := startNodes, startCh;
      SkipKeepsLight(adj, nodes, vis, u, nb);
    }
  }

  /** The scan of u's neighbours after u is visited: every node is either
      left alone or now reached from u, and only where that is strictly
      cheaper than before. vis is the content of visited, which the scan
      only reads. */
  method ScanNeighbours(adj: seq<seq<int>>, u: nat, startNodes: seq<Node>, heap: Heap, tree: seq<Heap>,
                        visited: array<bool>, ghost vis: seq<bool>, ghost startCh: seq<multiset<Node>>,
                        ghost rank: seq<nat>, ghost order: seq<nat>)
    returns (nodes: seq<Node>, ghost ch: seq<multiset<Node>>)
    requires |tree| == |adj| && u < |adj| && visited[..] == vis
    requires Coupled(heap, tree, startCh)
    requires PrimInv(adj, startNodes, vis, multiset(heap.heap), startCh, rank, order)
    requires Light(adj, startNodes, vis, u, 0) && vis[u]
    modifies heap, tree
    ensures Coupled(heap, tree, ch) && visited[..] == vis
    ensures PrimInv(adj, nodes, vis, multiset(heap.heap), ch, rank, order)
    ensures Light(adj, nodes, vis, u, |adj|)
    ensures forall v :: 0 <= v < |adj| ==> Reached(nodes[v])
    ensures |nodes| == |adj| && ScannedUpTo(adj, u, |adj|, startNodes, nodes)
  {
    nodes, ch := startNodes, startCh;
    var n := |adj|;
    var neighbor := 0;
    while neighbor < |adj[u]|
      invariant 0 <= neighbor <= n && |nodes| == n && |vis| == n && IsSquare(adj)
      invariant Coupled(heap, tree, ch)
      invariant PrimInv(adj, nodes, vis, multiset(heap.heap), ch, rank, order)
      invariant Light(adj, nodes, vis, u, neighbor)
      invariant ScannedUpTo(adj, u, neighbor, startNodes, nodes)
    {
      ghost var before := nodes;
      nodes, ch := ConsiderNeighbour(adj, u, neighbor, nodes, heap, tree, visited, vis, ch, rank, order);
      ScannedOneMore(adj, u, neighbor, startNodes, before, nodes);
      neighbor := neighbor + 1;
    }
    ScanReachesAll(adj, nodes, vis, rank, order, u);
  }

  /** Once a visited vertex's neighbours are all scanned, every vertex has
      been reached: the unvisited ones from it, the visited ones before. */
  lemma ScanReachesAll(adj: seq<seq<int>>, ns: seq<Node>, vis: seq<bool>, rank: seq<nat>, order: seq<nat>, u: nat)
    requires IsSquare(adj) && |ns| == |adj| && |vis| == |ns| && |rank| == |ns| && u < |ns| && vis[u]
    requires VisitOrder(ns, vis, rank, order) && Light(adj, ns, vis, u, |ns|)
    ensures forall v :: 0 <= v < |ns| ==> Reached(ns[v])
  {
    forall v | 0 <= v < |ns| ensures Reached(ns[v]) {
      if !vis[v] {
        assert vis[u] && Reached(ns[v]);
      }
    }
  }

  /** Once every neighbour of cur is scanned it no longer matters which
      vertex was scanned last. */
  lemma LightScanned(adj: seq<seq<int>>, ns: seq<Node>, vis: seq<bool>, cur: nat, cur': nat)
    requires IsSquare(adj) && |ns| == |adj| && |vis| == |ns|
    requires Light(adj, ns, vis, cur, |ns|)
    ensures Light(adj, ns, vis, cur', |ns|)
  {
  }

  /** When the queue is empty and every vertex has been reached, every vertex
      has been visited exactly once and the parent links form a tree whose
      edges are recorded in the child heaps. */
  lemma PrimDone(adj: seq<seq<int>>, ns: seq<Node>, vis: seq<bool>, ch: seq<multiset<Node>>,
                 rank: seq<nat>, order: seq<nat>)
    requires PrimInv(adj, ns, vis, multiset{}, ch, rank, order)
    requires forall v :: 0 <= v < |ns| ==> Reached(ns[v])
    ensures Distinct(order) && |order| == |ns|
    ensures forall i :: 0 <= i < |order| ==> order[i] < |ns| && rank[order[i]] == i
    ensures forall v :: 0 < v < |ns| ==>
      && ns[v].parent.Some? && ns[v].parent.value < |ns|
      && Key(ns[v]) == adj[ns[v].parent.value][v]
      && rank[ns[v].parent.value] < rank[v]
      && ch[ns[v].parent.value][ns[v]] == 1
    ensures forall u, e :: 0 <= u < |ch| && e in ch[u] ==> e.vertex < |ns| && e == ns[e.vertex] && e.parent == Some(u)
  {
    var n := |ns|;
    forall v | 0 <= v < n ensures vis[v] && v in order {
      assert Reached(ns[v]);
    }
    forall v | v in Elements(order) ensures v < n {
      var i :| 0 <= i < |order| && order[i] == v;
    }
    DistinctCardinality(order);
    BoundedCardinality(Elements(order), n);
    SubsetCardinality(Range(n), Elements(order));
  }

  /** The final state read off the child heaps. */
  lemma TreeDone(adj: seq<seq<int>>, nodes: seq<Node>, heap: Heap, tree: seq<Heap>, vis: seq<bool>,
                 ch: seq<multiset<Node>>, rank: seq<nat>, order: seq<nat>)
    requires Coupled(heap, tree, ch) && heap.heap == []
    requires PrimInv(adj, nodes, vis, multiset(heap.heap), ch, rank, order)
    requires forall v :: 0 <= v < |nodes| ==> Reached(nodes[v])
    ensures forall v :: 0 < v < |nodes| ==>
      && nodes[v].parent.Some? && nodes[v].parent.value < |nodes|
      && Key(nodes[v]) == adj[nodes[v].parent.value][v]
      && rank[nodes[v].parent.value] < rank[v]
      && multiset(tree[nodes[v].parent.value].heap)[nodes[v]] == 1
    ensures forall u, e :: 0 <= u < |tree| && e in tree[u].heap ==>
      e.vertex < |nodes| && e == nodes[e.vertex] && e.parent == Some(u)
    ensures Distinct(order) && |order| == |adj|
    ensures forall i :: 0 <= i < |order| ==> order[i] < |adj| && rank[order[i]] == i
    ensures forall v :: 0 <= v < |adj| ==> v < |rank| && rank[v] < |adj|
  {
    assert multiset(heap.heap) == multiset{};
    PrimDone(adj, nodes, vis, ch, rank, order);
    DistinctCovers(order, |adj|);
    forall v | 0 <= v < |adj| ensures v < |rank| && rank[v] < |adj| {
      assert order[IndexOf(order, v)] == v;
    }
    forall u, e | 0 <= u < |tree| && e in tree[u].heap
      ensures e.vertex < |nodes| && e == nodes[e.vertex] && e.parent == Some(u)
    {
      assert e in multiset(tree[u].heap);
    }
  }

  /** One empty child heap per vertex, all distinct. */
  method NewChildHeaps(n: nat) returns (tree: seq<Heap>)
    ensures |tree| == n
    ensures forall k :: 0 <= k < n ==> fresh(tree[k]) && tree[k].Valid() && tree[k].heap == []
    ensures forall j, k :: 0 <= j < k < n ==> tree[j] != tree[k]
  {
    tree := [];
    var i := 0;
    while i < n
      invariant 0 <= i <= n && |tree| == i
      invariant forall k :: 0 <= k < i ==> fresh(tree[k]) && tree[k].Valid() && tree[k].heap == []
      invariant forall j, k :: 0 <= j < k < i ==> tree[j] != tree[k]
    {
      var h := new Heap();
      tree := tree + [h];
      i := i + 1;
    }
  }

  /** Extraction of the cheapest queued node next and marking of its vertex
      as visited; rank and order record the visit. */
  method VisitNext(adj: seq<seq<int>>, next: Node, nodes: seq<Node>, heap: Heap, tree: seq<Heap>,
                   visited: array<bool>, ghost vis: seq<bool>, ghost ch: seq<multiset<Node>>,
                   ghost rank: seq<nat>, ghost order: seq<nat>)
    returns (u: nat, ghost vis': seq<bool>, ghost rank': seq<nat>, ghost order': seq<nat>)
    requires Coupled(heap, tree, ch) && visited[..] == vis
    requires PrimInv(adj, nodes, vis, multiset(heap.heap), ch, rank, order)
    requires Light(adj, nodes, vis, 0, |adj|)
    requires heap.heap != [] && next == heap.heap[0]
    modifies heap, visited
    ensures u == next.vertex && u < |adj| && |vis'| == |adj| && vis'[u]
    ensures Coupled(heap, tree, ch) && visited[..] == vis'
    ensures PrimInv(adj, nodes, vis', multiset(heap.heap), ch, rank', order')
    ensures Light(adj, nodes, vis', u, 0)
    ensures order' == order + [u] && |order'| <= |adj|
  {
    u := next.vertex;
    ghost var q := multiset(heap.heap);
    VisitStep(adj, nodes, vis, q, ch, rank, order, next);
    var removed := heap.RemoveMin();
    assert removed == next && multiset(heap.heap) == q - multiset{removed};
    visited[u] := true;
    vis' := vis[u := true];
    assert visited[..] == vis';
    rank' := rank[u := |order|];
    order' := order + [u];
    forall v | v in Elements(order') ensures v < |adj| {
      var k :| 0 <= k < |order'| && order'[k] == v;
    }
    DistinctCardinality(order');
    BoundedCardinality(Elements(order'), |adj|);
  }

  /** One round of the main loop: visit the cheapest queued node, then scan
      its neighbours. */
  method PrimRound(adj: seq<seq<int>>, next: Node, startNodes: seq<Node>, heap: Heap, tree: seq<Heap>,
                   visited: array<bool>, ghost vis: seq<bool>, ghost ch: seq<multiset<Node>>,
                   ghost rank: seq<nat>, ghost order: seq<nat>)
    returns (nodes: seq<Node>, nextNode: Option<Node>, empty: bool, ghost vis': seq<bool>,
             ghost ch': seq<multiset<Node>>, ghost rank': seq<nat>, ghost order': seq<nat>)
    requires |tree| == |adj| && Coupled(heap, tree, ch) && visited[..] == vis
    requires PrimInv(adj, startNodes, vis, multiset(heap.heap), ch, rank, order)
    requires Light(adj, startNodes, vis, 0, |adj|)
    requires heap.heap != [] && next == heap.heap[0]
    modifies heap, tree, visited
    ensures Coupled(heap, tree, ch') && visited[..] == vis'
    ensures PrimInv(adj, nodes, vis', multiset(heap.heap), ch', rank', order')
    ensures Light(adj, nodes, vis', 0, |adj|)
    ensures forall v :: 0 <= v < |adj| ==> Reached(nodes[v])
    ensures |order'| == |order| + 1 && |order'| <= |adj|
    ensures empty <==> heap.heap == []
    ensures nextNode == if heap.heap == [] then None else Some(heap.heap[0])
  {
    var u;
    u, vis', rank', order' := VisitNext(adj, next, startNodes, heap, tree, visited, vis, ch, rank, order);
    nodes, ch' := ScanNeighbours(adj, u, startNodes, heap, tree, visited, vis', ch, rank', order');
    LightScanned(adj, nodes, vis', u, 0);
    nextNode := heap.Peek();
    empty := heap.IsEmpty();
  }

  /** The state before the main loop: nothing visited, empty child heaps and
      the start node alone in the global heap. */
  method InitialQueue(adj: seq<seq<int>>, startNodes: seq<Node>, tree: seq<Heap>)
    returns (heap: Heap, visited: array<bool>, ghost vis: seq<bool>, ghost ch: seq<multiset<Node>>,
             ghost rank: seq<nat>, ghost order: seq<nat>)
    requires IsSquare(adj) && |startNodes| == |adj| > 0 && |tree| == |adj|
    requires startNodes[0] == Node(0, Some(0), None)
    requires forall v :: 0 < v < |startNodes| ==> startNodes[v] == Node(v, None, None)
    requires forall k :: 0 <= k < |tree| ==> tree[k].Valid() && tree[k].heap == []
    requires forall j, k :: 0 <= j < k < |tree| ==> tree[j] != tree[k]
    ensures fresh(heap) && fresh(visited)
    ensures Coupled(heap, tree, ch) && visited[..] == vis
    ensures PrimInv(adj, startNodes, vis, multiset(heap.heap), ch, rank, order)
    ensures Light(adj, startNodes, vis, 0, |adj|)
    ensures order == [] && multiset(heap.heap) == multiset{startNodes[0]}
  {
    var n := |adj|;
    heap := new Heap();
    visited := new bool[n](_ => false);
    heap.Add(startNodes[0]);
    vis := seq(n, _ => false);
    ch := seq(n, _ => multiset{});
    rank := seq(n, _ => 0);
    order := [];
    assert visited[..] == vis;
    InitialState(adj, startNodes);
  }

  /** The main loop: repeatedly visits the cheapest queued node until the
      global heap is empty. */
  method PrimLoop(adj: seq<seq<int>>, startNodes: seq<Node>, heap: Heap, tree: seq<Heap>, visited: array<bool>,
                  ghost vis0: seq<bool>, ghost ch0: seq<multiset<Node>>, ghost rank0: seq<nat>, ghost order0: seq<nat>)
    returns (nodes: seq<Node>, ghost vis: seq<bool>, ghost ch: seq<multiset<Node>>,
             ghost rank: seq<nat>, ghost order: seq<nat>)
    requires |tree| == |adj| && Coupled(heap, tree, ch0) && visited[..] == vis0
    requires PrimInv(adj, startNodes, vis0, multiset(heap.heap), ch0, rank0, order0)
    requires Light(adj, startNodes, vis0, 0, |adj|)
    requires order0 == [] && heap.heap != []
    modifies heap, tree, visited
    ensures Coupled(heap, tree, ch) && heap.heap == []
    ensures PrimInv(adj, nodes, vis, multiset(heap.heap), ch, rank, order)
    ensures forall v :: 0 <= v < |nodes| ==> Reached(nodes[v])
  {
    nodes, vis, ch, rank, order := startNodes, vis0, ch0, rank0, order0;
    var n := |adj|;
    var nextNode := heap.Peek();
    var empty := heap.IsEmpty();
    while !empty
      invariant Coupled(heap, tree, ch) && visited[..] == vis
      invariant PrimInv(adj, nodes, vis, multiset(heap.heap), ch, rank, order)
      invariant Light(adj, nodes, vis, 0, n)
      invariant order != [] ==> forall v :: 0 <= v < n ==> Reached(nodes[v])
      invariant order != [] || heap.heap != []
      invariant |order| <= n
      invariant empty <==> heap.heap == []
      invariant nextNode == if heap.heap == [] then None else Some(heap.heap[0])
      decreases n - |order|
    {
      nodes, nextNode, empty, vis, ch, rank, order :=
        PrimRound(adj, nextNode.value, nodes, heap, tree, visited, vis, ch, rank, order);
    }
  }

  /** Prim's algorithm from vertex 0. Returns the nodes with their final cost
      and parent, and one heap per vertex holding that vertex's children.
      rank and order record the extraction order. */
  method BuildMinimumSpanningTree(adj: seq<seq<int>>, startNodes: seq<Node>)
    returns (nodes: seq<Node>, tree: seq<Heap>, ghost rank: seq<nat>, ghost order: seq<nat>)
    requires IsSquare(adj) && |startNodes| == |adj| > 0
    requires startNodes[0] == Node(0, Some(0), None)
    requires forall v :: 0 < v < |startNodes| ==> startNodes[v] == Node(v, None, None)
    ensures |nodes| == |adj| && |tree| == |adj| && |rank| == |adj|
    ensures nodes[0] == Node(0, Some(0), None)
    ensures forall v :: 0 <= v < |nodes| ==> nodes[v].vertex == v && Reached(nodes[v])
    ensures forall v :: 0 < v < |nodes| ==>
      && nodes[v].parent.Some? && nodes[v].parent.value < |nodes|
      && Key(nodes[v]) == adj[nodes[v].parent.value][v]
      && rank[nodes[v].parent.value] < rank[v]
      && multiset(tree[nodes[v].parent.value].heap)[nodes[v]] == 1
    ensures forall u, e :: 0 <= u < |tree| && e in tree[u].heap ==>
      e.vertex < |nodes| && e == nodes[e.vertex] && e.parent == Some(u)
    ensures Distinct(order) && |order| == |adj|
    ensures forall i :: 0 <= i < |order| ==> order[i] < |adj| && rank[order[i]] == i
    ensures forall v :: 0 <= v < |adj| ==> rank[v] < |adj|
    ensures forall u :: 0 <= u < |tree| ==> fresh(tree[u]) && tree[u].Valid()
    ensures forall i, j :: 0 <= i < j < |tree| ==> tree[i] != tree[j]
  {
    tree := NewChildHeaps(|adj|);
    var heap, visited;
    ghost var vis, ch;
    heap, visited, vis, ch, rank, order := InitialQueue(adj, startNodes, tree);
    nodes, vis, ch, rank, order := PrimLoop(adj, startNodes, heap, tree, visited, vis, ch, rank, order);
    TreeDone(adj, nodes, heap, tree, vis, ch, rank, order);
  }
}
