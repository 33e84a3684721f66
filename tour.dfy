/** The tour: the cost matrix of the records, Prim's spanning tree from
    record 0, the Hamiltonian cycle read off the tree's pre-order walk, and
    the exhaustive search over every ordering of that cycle's vertices. */
module Tours {
  import opened Nodes
  import opened Sequences
  import opened CostMatrix
  import opened Cycles
  import opened Heaps
  import opened SpanningTree
  import opened Walks

  /** n! as the number of orderings of n vertices: one ordering of none,
      and for n > 0, n choices of the first vertex, each followed by the
      orderings of the other n - 1. */
  function Factorial(n: nat): nat {
    if n == 0 then 1 else Batches(n, Factorial(n - 1))
  }

  /** p visits each of the n vertices exactly once. */
  ghost predicate IsTour(p: seq<nat>, n: nat) {
    |p| == n && Distinct(p) && OnVertices(p, n)
  }

  /** p orders the vertices of hp, no repeats, and starts with cp. */
  ghost predicate Completes(hp: seq<nat>, cp: seq<nat>, p: seq<nat>) {
    && |p| == |hp| && |cp| <= |p| && p[..|cp|] == cp && Distinct(p)
    && forall i :: 0 <= i < |p| ==> p[i] in hp
  }

  /** path is a completion of cp closed by a return to its first vertex. */
  ghost predicate ClosedCompletion(hp: seq<nat>, cp: seq<nat>, path: seq<nat>) {
    |path| == |hp| + 1 && Completes(hp, cp, path[..|hp|]) && path[|hp|] == path[0]
  }

  /** The number of entries of s that are not in cp. */
  function CountNotIn(cp: seq<nat>, s: seq<nat>): (k: nat)
    ensures k <= |s|
  {
    if s == [] then 0
    else CountNotIn(cp, s[..|s| - 1]) + if s[|s| - 1] in cp then 0 else 1
  }

  /** Counted over a list without repeats, the entries missing from cp are
      those of the list's set less cp's set. */
  lemma {:induction false} CountNotInElements(cp: seq<nat>, s: seq<nat>)
    requires Distinct(s)
    ensures CountNotIn(cp, s) == |Elements(s) - Elements(cp)|
    decreases |s|
  {
    if s != [] {
      var t, x := s[..|s| - 1], s[|s| - 1];
      assert s == t + [x];
      assert x !in t by {
        forall i | 0 <= i < |t| ensures t[i] != x {
          assert t[i] == s[i];
        }
      }
      assert Distinct(t);
      CountNotInElements(cp, t);
      ElementsLast(t, x);
      if x in cp {
        assert (Elements(t) + {x}) - Elements(cp) == Elements(t) - Elements(cp);
      } else {
        assert (Elements(t) + {x}) - Elements(cp) == (Elements(t) - Elements(cp)) + {x};
      }
    }
  }

  lemma ElementsLast(t: seq<nat>, x: nat)
    ensures Elements(t + [x]) == Elements(t) + {x}
  {
  }

  /** Counting one more entry of s adds one exactly when that entry is not in cp. */
  lemma CountNotInStep(cp: seq<nat>, s: seq<nat>, i: nat)
    requires i < |s|
    ensures CountNotIn(cp, s[..i + 1]) == CountNotIn(cp, s[..i]) + if s[i] in cp then 0 else 1
  {
    assert s[..i + 1][..i] == s[..i];
  }

  /** A repeat-free cp drawn from hp leaves |hp| - |cp| entries of hp to place. */
  lemma CountNotInAll(cp: seq<nat>, hp: seq<nat>)
    requires Distinct(hp) && Distinct(cp) && forall i :: 0 <= i < |cp| ==> cp[i] in hp
    ensures |cp| <= |hp| && CountNotIn(cp, hp) == |hp| - |cp|
  {
    CountNotInElements(cp, hp);
    DistinctCardinality(cp);
    DistinctCardinality(hp);
    assert Elements(cp) <= Elements(hp);
    assert Elements(hp) == Elements(cp) + (Elements(hp) - Elements(cp));
    SubsetCardinality(Elements(cp), Elements(hp));
  }

  /** A completion of cp that is longer than cp has a next vertex not in cp,
      and is a completion of cp extended by that vertex. */
  lemma CompletionNext(hp: seq<nat>, cp: seq<nat>, p: seq<nat>)
    requires Completes(hp, cp, p) && |cp| < |hp|
    ensures p[|cp|] in hp && p[|cp|] !in cp && Completes(hp, cp + [p[|cp|]], p)
  {
    assert p[..|cp| + 1] == p[..|cp|] + [p[|cp|]];
    forall j | 0 <= j < |cp| ensures cp[j] != p[|cp|] {
      assert cp[j] == p[j];
    }
  }

  /** A completion of cp + [v] is a completion of cp. */
  lemma CompletionShorter(hp: seq<nat>, cp: seq<nat>, v: nat, p: seq<nat>)
    requires Completes(hp, cp + [v], p)
    ensures Completes(hp, cp, p)
  {
    assert p[..|cp|] == p[..|cp| + 1][..|cp|];
  }

  /** Once cp has every vertex, cp is its one completion. */
  lemma CompletionFull(hp: seq<nat>, cp: seq<nat>, p: seq<nat>)
    requires |cp| == |hp| && Completes(hp, cp, p)
    ensures p == cp
  {
    assert p == p[..|cp|];
  }

  /** With hp a tour of all n vertices, the completions of nothing are
      exactly the tours. */
  lemma ToursComplete(hp: seq<nat>, n: nat, p: seq<nat>)
    requires IsTour(hp, n)
    ensures IsTour(p, n) <==> Completes(hp, [], p)
  {
    DistinctCovers(hp, n);
    if Completes(hp, [], p) {
      forall i | 0 <= i < |p| ensures p[i] < n {
        assert hp[IndexOf(hp, p[i])] == p[i];
      }
    }
  }

  /** The tree Prim's algorithm leaves: node v describes vertex v, every
      vertex but the root 0 is held once in the child heap of its parent,
      which ranks before it, and every held entry is its vertex's node. */
  ghost predicate RootedTree(c: seq<multiset<Node>>, nodes: seq<Node>, rank: seq<nat>) {
    && |nodes| == |c| && |rank| == |c| && |c| > 0
    && (forall v :: 0 <= v < |c| ==> nodes[v].vertex == v && rank[v] < |c|)
    && nodes[0].parent == None
    && (forall v :: 0 < v < |c| ==>
          && nodes[v].parent.Some? && nodes[v].parent.value < |c|
          && rank[nodes[v].parent.value] < rank[v] && c[nodes[v].parent.value][nodes[v]] == 1)
    && (forall u, e :: 0 <= u < |c| && e in c[u] ==>
          e.vertex < |c| && e == nodes[e.vertex] && e.parent == Some(u))
  }

  /** The parent links Prim's algorithm leaves form a tree rooted at 0:
      vertex 0 has no parent, and every other vertex has a parent that was
      visited before it. */
  ghost predicate RankedTree(nodes: seq<Node>, rank: seq<nat>) {
    && |nodes| > 0 && |rank| == |nodes| && nodes[0].parent == None
    && forall v :: 0 < v < |nodes| ==>
         nodes[v].parent.Some? && nodes[v].parent.value < |nodes|
         && rank[nodes[v].parent.value] < rank[v]
  }

  /** The chain of parents from v: it follows a parent link at every step,
      passes the root only at its end, and ends at the root 0. */
  ghost function PathToRoot(nodes: seq<Node>, rank: seq<nat>, v: nat): (p: seq<nat>)
    requires RankedTree(nodes, rank) && v < |nodes|
    ensures |p| > 0 && p[0] == v && p[|p| - 1] == 0
    ensures forall i :: 0 <= i < |p| - 1 ==>
      p[i] != 0 && p[i] < |nodes| && nodes[p[i]].parent == Some(p[i + 1])
    decreases rank[v]
  {
    if v == 0 then [0] else [v] + PathToRoot(nodes, rank, nodes[v].parent.value)
  }

  /** Prim's tree has the shape the pre-order walk needs. */
  lemma RootedTreeShape(c: seq<multiset<Node>>, nodes: seq<Node>, rank: seq<nat>)
    requires RootedTree(c, nodes, rank)
    ensures Shape(c, nodes, rank)
  {
    forall u, e: Node | 0 <= u < |c| && e in c[u]
      ensures && e.vertex < |nodes| && e == nodes[e.vertex] && e.parent == Some(u)
              && rank[u] < rank[e.vertex] && c[u][e] == 1
    {
      var x := e.vertex;
      assert x < |c| && e == nodes[x] && e.parent == Some(u);
      assert 0 < x;
      assert nodes[x].parent.value == u;
    }
  }

  /** Every vertex but the root hangs, as a held entry, from a parent that
      ranks before it: the premise of WalkCoversTree. */
  lemma RootedTreeParents(c: seq<multiset<Node>>, nodes: seq<Node>, rank: seq<nat>)
    requires RootedTree(c, nodes, rank)
    ensures forall u :: 0 < u < |nodes| ==>
      && nodes[u].vertex == u && nodes[u].parent.Some? && nodes[u].parent.value < |nodes|
      && rank[nodes[u].parent.value] < rank[u] && nodes[u] in c[nodes[u].parent.value]
  {
  }

  /** The child heaps Prim's algorithm leaves, seen as contents, form the
      rooted tree the walk needs. */
  lemma PrimTreeRooted(tree: seq<Heap>, nodes: seq<Node>, rank: seq<nat>)
    requires |nodes| == |tree| == |rank| > 0 && nodes[0].parent == None
    requires forall v :: 0 <= v < |nodes| ==> nodes[v].vertex == v && rank[v] < |tree|
    requires forall v :: 0 < v < |nodes| ==>
      && nodes[v].parent.Some? && nodes[v].parent.value < |nodes|
      && rank[nodes[v].parent.value] < rank[v]
      && multiset(tree[nodes[v].parent.value].heap)[nodes[v]] == 1
    requires forall u, e :: 0 <= u < |tree| && e in tree[u].heap ==>
      e.vertex < |nodes| && e == nodes[e.vertex] && e.parent == Some(u)
    ensures RootedTree(Contents(tree), nodes, rank)
  {
    var c := Contents(tree);
    forall u, e: Node | 0 <= u < |c| && e in c[u] ensures e.vertex < |c| && e == nodes[e.vertex] && e.parent == Some(u) {
      assert e in tree[u].heap;
    }
  }

  /** A completed walk from the root of Prim's tree starts at 0 and stays
      on the tree's vertices. */
  lemma WalkedBounds(c0: seq<multiset<Node>>, c: seq<multiset<Node>>, nodes: seq<Node>,
                     rank: seq<nat>, w: seq<nat>)
    requires RootedTree(c0, nodes, rank) && Walked(c0, c, nodes, rank, 0, w)
    ensures |w| > 0 && w[0] == 0 && OnVertices(w, |c0|)
  {
    assert Ends(w, 0) && Below(c, rank, 0, w) && Shrinks(c0, c);
    forall i | 0 <= i < |w| ensures w[i] < |c0| {
      assert w[i] in w;
    }
  }

  /** A completed walk from the root of Prim's tree visits every vertex. */
  lemma WalkedCovers(c0: seq<multiset<Node>>, c: seq<multiset<Node>>, nodes: seq<Node>,
                     rank: seq<nat>, w: seq<nat>)
    requires RootedTree(c0, nodes, rank) && Walked(c0, c, nodes, rank, 0, w)
    ensures forall v :: 0 <= v < |c0| ==> v in w
  {
    RootedTreeParents(c0, nodes, rank);
    WalkedClosed(c0, c, nodes, rank, 0, w);
    assert Ends(w, 0);
    forall v | 0 <= v < |c0| ensures v in w {
      WalkCoversTree(c0, nodes, rank, w, v);
    }
  }

  /** A completed walk from the root of Prim's tree starts at 0, visits
      every vertex and, crossing each of the n - 1 tree edges twice, has
      2n - 1 entries. */
  lemma WalkedWholeTree(c0: seq<multiset<Node>>, c: seq<multiset<Node>>, nodes: seq<Node>,
                        rank: seq<nat>, w: seq<nat>)
    requires RootedTree(c0, nodes, rank) && Walked(c0, c, nodes, rank, 0, w)
    ensures |w| > 0 && w[0] == 0 && OnVertices(w, |c0|)
    ensures forall v :: 0 <= v < |c0| ==> v in w
    ensures |w| == 2 * |c0| - 1
  {
    WalkedBounds(c0, c, nodes, rank, w);
    WalkedCovers(c0, c, nodes, rank, w);
    assert EulerLength(w);
    assert Elements(w) == Range(|c0|);
  }

  /** A completed walk from the root of Prim's tree has emptied every child
      heap, and is the walk WalkedWholeTree describes. */
  lemma WalkedEmptiesTree(c0: seq<multiset<Node>>, c: seq<multiset<Node>>, nodes: seq<Node>,
                          rank: seq<nat>, w: seq<nat>)
    requires RootedTree(c0, nodes, rank) && Walked(c0, c, nodes, rank, 0, w)
    ensures |w| > 0 && w[0] == 0 && OnVertices(w, |c0|)
    ensures forall v :: 0 <= v < |c0| ==> v in w
    ensures |w| == 2 * |c0| - 1
    ensures |c| == |c0| && forall u :: 0 <= u < |c| ==> c[u] == multiset{}
  {
    WalkedWholeTree(c0, c, nodes, rank, w);
    WalkedClosed(c0, c, nodes, rank, 0, w);
  }

  /** The pre-order walk of Prim's tree from vertex 0: it starts at 0,
      visits every vertex, and empties every child heap. */
  method WalkWholeTree(tree: seq<Heap>, nodes: seq<Node>, ghost rank: seq<nat>) returns (preOrderWalk: seq<nat>)
    requires Forest(tree) && RootedTree(Contents(tree), nodes, rank)
    modifies tree
    ensures |preOrderWalk| > 0 && preOrderWalk[0] == 0 && OnVertices(preOrderWalk, |tree|)
    ensures forall v :: 0 <= v < |tree| ==> v in preOrderWalk
    ensures |preOrderWalk| == 2 * |tree| - 1
    ensures Forest(tree) && forall u :: 0 <= u < |tree| ==> tree[u].heap == []
  {
    ghost var c0 := Contents(tree);
    RootedTreeShape(c0, nodes, rank);
    preOrderWalk := GetPreOrderWalk(tree, 0, [], nodes, rank);
    assert preOrderWalk[0..] == preOrderWalk;
    ghost var c := Contents(tree);
    WalkedEmptiesTree(c0, c, nodes, rank, preOrderWalk);
    EmptyContents(tree, c);
  }

  /** The Hamiltonian cycle of a walk that starts at 0 and visits every
      vertex, its cost, and the cycle with its closing vertex removed. */
  method TourFromWalk(adj: seq<seq<int>>, preOrderWalk: seq<nat>)
    returns (hamiltonianPath: seq<nat>, hamiltonianPathCost: int)
    requires IsSquare(adj) && |preOrderWalk| > 0 && preOrderWalk[0] == 0
    requires OnVertices(preOrderWalk, |adj|) && forall v :: 0 <= v < |adj| ==> v in preOrderWalk
    ensures IsTour(hamiltonianPath, |adj|) && hamiltonianPath[0] == 0
    ensures hamiltonianPath == FirstOccurrences(preOrderWalk)
    ensures hamiltonianPathCost == ClosedCost(adj, hamiltonianPath)
  {
    var n := |adj|;
    var cycle := GetHamiltonianCycle(preOrderWalk);
    assert OnVertices(cycle, n) by {
      forall i | 0 <= i < |cycle| ensures cycle[i] < n {
        assert cycle[i] in preOrderWalk;
      }
    }
    hamiltonianPathCost := GetCostOfPath(adj, cycle);
    hamiltonianPath := cycle[..|cycle| - 1];
    assert cycle == hamiltonianPath + [hamiltonianPath[0]];
    forall v | 0 <= v < n ensures v in hamiltonianPath {
      assert v in cycle;
      if v != cycle[|cycle| - 1] {
        assert cycle[IndexOf(cycle, v)] == v;
      } else {
        assert hamiltonianPath[0] == v;
      }
    }
    DistinctCardinality(hamiltonianPath);
    assert Elements(hamiltonianPath) == Range(n);
  }

  /** The rest of buildMinimumSpanningTree: the pre-order walk from vertex 0,
      the Hamiltonian cycle taken from it, its cost, and the cycle with its
      closing vertex removed. */
  method HamiltonianFromTree(adj: seq<seq<int>>, nodes: seq<Node>, tree: seq<Heap>, ghost rank: seq<nat>)
    returns (hamiltonianPath: seq<nat>, hamiltonianPathCost: int)
    requires IsSquare(adj) && |tree| == |adj|
    requires Forest(tree) && RootedTree(Contents(tree), nodes, rank)
    modifies tree
    ensures IsTour(hamiltonianPath, |adj|) && hamiltonianPath[0] == 0
    ensures hamiltonianPathCost == ClosedCost(adj, hamiltonianPath)
    ensures Forest(tree) && forall u :: 0 <= u < |tree| ==> tree[u].heap == []
  {
    var preOrderWalk := WalkWholeTree(tree, nodes, rank);
    hamiltonianPath, hamiltonianPathCost := TourFromWalk(adj, preOrderWalk);
  }

  /* The search over orderings, stated on values: hp is the Hamiltonian
     path whose vertices are ordered, cp the ordering built so far, and
     (path, cost) the best closed tour known. */

  /** The best closed tour is either the one held before, (path0, cost0),
      or a strictly cheaper closed completion of cp, costed as it is. */
  ghost predicate IncumbentFrom(adj: seq<seq<int>>, hp: seq<nat>, cp: seq<nat>,
                                 path: seq<nat>, cost: int, path0: seq<nat>, cost0: int)
    requires IsSquare(adj)
  {
    || (path == path0 && cost == cost0)
    || (&& ClosedCompletion(hp, cp, path) && OnVertices(path, |adj|)
        && cost == PathCost(adj, path) && cost < cost0)
  }

  /** No completion of cp is cheaper, as a closed tour, than cost. */
  ghost predicate BestOver(adj: seq<seq<int>>, hp: seq<nat>, cp: seq<nat>, cost: int)
    requires IsSquare(adj)
  {
    forall p {:trigger Completes(hp, cp, p)} :: Completes(hp, cp, p) && |p| > 0 ==>
      OnVertices(p, |adj|) && cost <= ClosedCost(adj, p)
  }

  /** No completion of cp whose next vertex is among the first k entries of
      hp is cheaper than cost. */
  ghost predicate BestAmongFirst(adj: seq<seq<int>>, hp: seq<nat>, cp: seq<nat>, k: nat, cost: int)
    requires IsSquare(adj) && k <= |hp|
  {
    forall p {:trigger Completes(hp, cp, p)} :: Completes(hp, cp, p) && |cp| < |p| && p[|cp|] in hp[..k] ==>
      OnVertices(p, |adj|) && cost <= ClosedCost(adj, p)
  }

  /** What the search needs of the matrix and the Hamiltonian path. */
  ghost predicate SearchSpace(adj: seq<seq<int>>, hp: seq<nat>) {
    IsSquare(adj) && |hp| > 0 && Distinct(hp) && OnVertices(hp, |adj|)
  }

  /** Every completion of cp visits vertices of the matrix. */
  lemma CompletionOnVertices(adj: seq<seq<int>>, hp: seq<nat>, cp: seq<nat>, p: seq<nat>)
    requires SearchSpace(adj, hp) && Completes(hp, cp, p)
    ensures OnVertices(p, |adj|)
  {
    forall i | 0 <= i < |p| ensures p[i] < |adj| {
      assert hp[IndexOf(hp, p[i])] == p[i];
    }
  }

  /** Nothing has been tried yet when the round over hp starts. */
  lemma RoundsStart(adj: seq<seq<int>>, hp: seq<nat>, cp: seq<nat>, cost: int)
    requires IsSquare(adj)
    ensures BestAmongFirst(adj, hp, cp, 0, cost)
  {
  }

  /** A vertex already in cp is skipped: no completion places it next. */
  lemma RoundSkip(adj: seq<seq<int>>, hp: seq<nat>, cp: seq<nat>, i: nat, cost: int)
    requires SearchSpace(adj, hp) && i < |hp| && hp[i] in cp
    requires BestAmongFirst(adj, hp, cp, i, cost)
    ensures BestAmongFirst(adj, hp, cp, i + 1, cost)
  {
    forall p | Completes(hp, cp, p) && |cp| < |p| && p[|cp|] in hp[..i + 1]
      ensures OnVertices(p, |adj|) && cost <= ClosedCost(adj, p)
    {
      CompletionNext(hp, cp, p);
      assert hp[..i + 1] == hp[..i] + [hp[i]];
    }
  }

  /** A vertex v = hp[i] not in cp is placed next and every completion of
      cp + [v] tried (the best going from (path0, cost0) to (path1, cost1)):
      the completions placing v next are covered, and the best is still
      either what it was when the rounds began or a cheaper completion of cp. */
  lemma RoundTried(adj: seq<seq<int>>, hp: seq<nat>, cp: seq<nat>, i: nat,
                   path0: seq<nat>, cost0: int, path1: seq<nat>, cost1: int,
                   pathStart: seq<nat>, costStart: int)
    requires SearchSpace(adj, hp) && i < |hp| && hp[i] !in cp
    requires BestAmongFirst(adj, hp, cp, i, cost0)
    requires IncumbentFrom(adj, hp, cp, path0, cost0, pathStart, costStart) && cost0 <= costStart
    requires BestOver(adj, hp, cp + [hp[i]], cost1) && cost1 <= cost0
    requires IncumbentFrom(adj, hp, cp + [hp[i]], path1, cost1, path0, cost0)
    ensures BestAmongFirst(adj, hp, cp, i + 1, cost1)
    ensures IncumbentFrom(adj, hp, cp, path1, cost1, pathStart, costStart) && cost1 <= costStart
  {
    forall p | Completes(hp, cp, p) && |cp| < |p| && p[|cp|] in hp[..i + 1]
      ensures OnVertices(p, |adj|) && cost1 <= ClosedCost(adj, p)
    {
      CompletionNext(hp, cp, p);
      assert hp[..i + 1] == hp[..i] + [hp[i]];
      if p[|cp|] == hp[i] {
        assert Completes(hp, cp + [hp[i]], p);
      }
    }
    if path1 != path0 || cost1 != cost0 {
      CompletionShorter(hp, cp, hp[i], path1[..|hp|]);
    }
  }

  /** Once every entry of hp has had its round, every completion of cp
      longer than cp is covered. */
  lemma RoundsDone(adj: seq<seq<int>>, hp: seq<nat>, cp: seq<nat>, cost: int)
    requires SearchSpace(adj, hp) && |cp| < |hp|
    requires BestAmongFirst(adj, hp, cp, |hp|, cost)
    ensures BestOver(adj, hp, cp, cost)
  {
    forall p | Completes(hp, cp, p) && |p| > 0 ensures OnVertices(p, |adj|) && cost <= ClosedCost(adj, p) {
      CompletionNext(hp, cp, p);
      assert hp[..|hp|] == hp;
    }
  }

  /** A complete ordering is its own one completion: costing it closed and
      keeping it when strictly cheaper leaves the best over it. */
  lemma LeafBest(adj: seq<seq<int>>, hp: seq<nat>, cp: seq<nat>, cost: int)
    requires SearchSpace(adj, hp) && |cp| == |hp| && Distinct(cp)
    requires forall i :: 0 <= i < |cp| ==> cp[i] in hp
    requires OnVertices(cp, |adj|) && cost <= ClosedCost(adj, cp)
    ensures BestOver(adj, hp, cp, cost)
  {
    forall p | Completes(hp, cp, p) && |p| > 0 ensures OnVertices(p, |adj|) && cost <= ClosedCost(adj, p) {
      CompletionFull(hp, cp, p);
    }
  }

  /** k batches of size orderings each, counted by repeated addition. */
  function Batches(k: nat, size: nat): nat {
    if k == 0 then 0 else Batches(k - 1, size) + size
  }

  /** The factorial recurrence: n! = n * (n - 1)!, and 0! = 1. */
  lemma FactorialRecurrence(n: nat)
    ensures Factorial(0) == 1
    ensures n > 0 ==> Factorial(n) == n * Factorial(n - 1)
  {
    if n > 0 {
      BatchesProduct(n, Factorial(n - 1));
    }
  }

  lemma {:induction false} BatchesProduct(k: nat, size: nat)
    ensures Batches(k, size) == k * size
  {
    if k > 0 {
      BatchesProduct(k - 1, size);
    }
  }

  /** The constructor's work before the search: the cost matrix, Prim's
      tree from record 0 and the Hamiltonian cycle of its pre-order walk. */
  method PlanTour(points: seq<Point>, distance: (Point, Point) -> int)
    returns (adj: seq<seq<int>>, nodes: seq<Node>, tree: seq<Heap>, ghost rank: seq<nat>, hp: seq<nat>, cost: int)
    requires |points| > 0
    ensures |adj| == |points| && IsSquare(adj) && ZeroDiagonal(adj)
    ensures forall i, j :: 0 <= i < |points| && 0 <= j < |points| && i != j ==>
      adj[i][j] == distance(points[i], points[j])
    ensures |nodes| == |points| && nodes[0] == Node(0, Some(0), None)
    ensures forall v :: 0 <= v < |nodes| ==> nodes[v].vertex == v && Reached(nodes[v])
    ensures forall v :: 0 < v < |nodes| ==>
      nodes[v].parent.Some? && nodes[v].parent.value < |nodes|
      && Key(nodes[v]) == adj[nodes[v].parent.value][v]
    ensures RankedTree(nodes, rank)
    ensures |tree| == |points| && forall u :: 0 <= u < |tree| ==> tree[u].heap == []
    ensures IsTour(hp, |points|) && hp[0] == 0 && cost == ClosedCost(adj, hp)
  {
    adj := PopulateAdjMatrix(points, distance);
    var startNodes := FreshNodes(|points|)[0 := Node(0, Some(0), None)];
    ghost var order;
    nodes, tree, rank, order := BuildMinimumSpanningTree(adj, startNodes);
    PrimTreeRooted(tree, nodes, rank);
    hp, cost := HamiltonianFromTree(adj, nodes, tree, rank);
  }

  /** The search from the empty ordering, over a Hamiltonian path that is
      a tour, leaves a cost no tour beats. */
  lemma OptimumOverTours(adj: seq<seq<int>>, hp: seq<nat>, cost: int)
    requires SearchSpace(adj, hp) && IsTour(hp, |adj|) && BestOver(adj, hp, [], cost)
    ensures forall p :: IsTour(p, |adj|) ==> cost <= ClosedCost(adj, p)
  {
    forall p | IsTour(p, |adj|) ensures cost <= ClosedCost(adj, p) {
      ToursComplete(hp, |adj|, p);
    }
  }

  /** The best after the search from the empty ordering is the Hamiltonian
      path it started from, or a strictly cheaper closed tour of all
      vertices, costed as it is. */
  lemma IncumbentIsTour(adj: seq<seq<int>>, hp: seq<nat>, path: seq<nat>, cost: int, cost0: int)
    requires SearchSpace(adj, hp) && IsTour(hp, |adj|)
    requires IncumbentFrom(adj, hp, [], path, cost, hp, cost0)
    ensures || (path == hp && cost == cost0)
            || (&& |path| == |adj| + 1 && IsTour(path[..|adj|], |adj|) && path[|adj|] == path[0]
                && OnVertices(path, |adj|) && cost == PathCost(adj, path) && cost < cost0)
  {
    if path != hp || cost != cost0 {
      ToursComplete(hp, |adj|, path[..|adj|]);
    }
  }

  class Tour {
    /** adjMatrix[i][j]: the cost of going from record i to record j. */
    var adjMatrix: seq<seq<int>>
    /** Node v: vertex v with the cost and parent Prim's algorithm gave it. */
    var nodes: seq<Node>
    /** The child heap of every vertex (emptied by the pre-order walk). */
    var minimumSpanningTree: seq<Heap>
    /** The Hamiltonian cycle without its closing vertex. */
    var hamiltonianPath: seq<nat>
    var hamiltonianPathCost: int
    var optimalPath: seq<nat>
    var optimalPathCost: int
    var totalPermutationsVisited: nat

    /** Builds the cost matrix of the records, Prim's tree from record 0,
        the Hamiltonian cycle of its pre-order walk, and then searches every
        ordering of the cycle's vertices for a cheaper closed tour. */
    constructor(points: seq<Point>, distance: (Point, Point) -> int)
      requires |points| > 0
      ensures |adjMatrix| == |points| && IsSquare(adjMatrix) && ZeroDiagonal(adjMatrix)
      ensures forall i, j :: 0 <= i < |points| && 0 <= j < |points| && i != j ==>
        adjMatrix[i][j] == distance(points[i], points[j])
      ensures |nodes| == |points| && nodes[0] == Node(0, Some(0), None)
      ensures forall v :: 0 <= v < |nodes| ==> nodes[v].vertex == v && Reached(nodes[v])
      ensures forall v :: 0 < v < |nodes| ==>
        nodes[v].parent.Some? && nodes[v].parent.value < |nodes|
        && Key(nodes[v]) == adjMatrix[nodes[v].parent.value][v]
      ensures exists rank :: RankedTree(nodes, rank)
      ensures |minimumSpanningTree| == |points|
      ensures forall u :: 0 <= u < |points| ==> minimumSpanningTree[u].heap == []
      ensures IsTour(hamiltonianPath, |points|) && hamiltonianPath[0] == 0
      ensures hamiltonianPathCost == ClosedCost(adjMatrix, hamiltonianPath)
      ensures totalPermutationsVisited == Factorial(|points|)
      ensures forall p :: IsTour(p, |points|) ==> optimalPathCost <= ClosedCost(adjMatrix, p)
      ensures optimalPathCost <= hamiltonianPathCost
      ensures || (optimalPath == hamiltonianPath && optimalPathCost == hamiltonianPathCost)
              || (&& |optimalPath| == |points| + 1 && IsTour(optimalPath[..|points|], |points|)
                  && optimalPath[|points|] == optimalPath[0] && OnVertices(optimalPath, |points|)
                  && optimalPathCost == PathCost(adjMatrix, optimalPath)
                  && optimalPathCost < hamiltonianPathCost)
    {
      var adj, ns, tree, hp, cost;
      ghost var rank;
      adj, ns, tree, rank, hp, cost := PlanTour(points, distance);
      adjMatrix := adj;
      nodes := ns;
      minimumSpanningTree := tree;
      hamiltonianPath := hp;
      hamiltonianPathCost := cost;
      totalPermutationsVisited := 0;
      optimalPathCost := cost;
      optimalPath := hp;
      new;
      var currentPath := Permute([]);
      OptimumOverTours(adjMatrix, hamiltonianPath, optimalPathCost);
      IncumbentIsTour(adjMatrix, hamiltonianPath, optimalPath, optimalPathCost, hamiltonianPathCost);
      assert RankedTree(nodes, rank);
    }

    /** Tries every completion of currentPath by the vertices of the
        Hamiltonian path: a complete ordering is costed as a closed tour and
        kept if strictly cheaper than the best so far. currentPath is handed
        back as it came. */
    method Permute(currentPath: seq<nat>) returns (restored: seq<nat>)
      requires SearchSpace(adjMatrix, hamiltonianPath)
      requires Distinct(currentPath) && forall i :: 0 <= i < |currentPath| ==> currentPath[i] in hamiltonianPath
      requires |currentPath| <= |hamiltonianPath|
      modifies this
      ensures restored == currentPath
      ensures adjMatrix == old(adjMatrix) && hamiltonianPath == old(hamiltonianPath)
      ensures nodes == old(nodes) && minimumSpanningTree == old(minimumSpanningTree)
      ensures hamiltonianPathCost == old(hamiltonianPathCost)
      ensures totalPermutationsVisited == old(totalPermutationsVisited) + Factorial(|hamiltonianPath| - |currentPath|)
      ensures optimalPathCost <= old(optimalPathCost)
      ensures BestOver(adjMatrix, hamiltonianPath, currentPath, optimalPathCost)
      ensures IncumbentFrom(adjMatrix, hamiltonianPath, currentPath, optimalPath, optimalPathCost,
                             old(optimalPath), old(optimalPathCost))
      decreases |hamiltonianPath| - |currentPath|, 3
    {
      if |currentPath| == |hamiltonianPath| {
        Visit(currentPath);
        restored := currentPath;
      } else {
        restored := TryAll(currentPath);
      }
    }

    /** A complete ordering: costed as a closed tour, counted, and kept when
        strictly cheaper than the best so far. */
    method Visit(currentPath: seq<nat>)
      requires SearchSpace(adjMatrix, hamiltonianPath)
      requires Distinct(currentPath) && forall i :: 0 <= i < |currentPath| ==> currentPath[i] in hamiltonianPath
      requires |currentPath| == |hamiltonianPath|
      modifies this
      ensures adjMatrix == old(adjMatrix) && hamiltonianPath == old(hamiltonianPath)
      ensures nodes == old(nodes) && minimumSpanningTree == old(minimumSpanningTree)
      ensures hamiltonianPathCost == old(hamiltonianPathCost)
      ensures totalPermutationsVisited == old(totalPermutationsVisited) + 1
      ensures optimalPathCost <= old(optimalPathCost)
      ensures BestOver(adjMatrix, hamiltonianPath, currentPath, optimalPathCost)
      ensures IncumbentFrom(adjMatrix, hamiltonianPath, currentPath, optimalPath, optimalPathCost,
                             old(optimalPath), old(optimalPathCost))
    {
      var possiblePath := currentPath + [currentPath[0]];
      assert Completes(hamiltonianPath, currentPath, currentPath);
      CompletionOnVertices(adjMatrix, hamiltonianPath, currentPath, currentPath);
      var costOfCurrentPath := GetCostOfPath(adjMatrix, possiblePath);
      totalPermutationsVisited := totalPermutationsVisited + 1;
      if optimalPathCost > costOfCurrentPath {
        optimalPathCost := costOfCurrentPath;
        optimalPath := possiblePath;
        assert possiblePath[..|hamiltonianPath|] == currentPath;
      }
      LeafBest(adjMatrix, hamiltonianPath, currentPath, optimalPathCost);
    }

    /** For every vertex of the Hamiltonian path not yet in currentPath, in
        the path's order: place it next and try every completion. */
    method TryAll(currentPath: seq<nat>) returns (restored: seq<nat>)
      requires SearchSpace(adjMatrix, hamiltonianPath)
      requires Distinct(currentPath) && forall i :: 0 <= i < |currentPath| ==> currentPath[i] in hamiltonianPath
      requires |currentPath| < |hamiltonianPath|
      modifies this
      ensures restored == currentPath
      ensures adjMatrix == old(adjMatrix) && hamiltonianPath == old(hamiltonianPath)
      ensures nodes == old(nodes) && minimumSpanningTree == old(minimumSpanningTree)
      ensures hamiltonianPathCost == old(hamiltonianPathCost)
      ensures totalPermutationsVisited == old(totalPermutationsVisited) + Factorial(|hamiltonianPath| - |currentPath|)
      ensures optimalPathCost <= old(optimalPathCost)
      ensures BestOver(adjMatrix, hamiltonianPath, currentPath, optimalPathCost)
      ensures IncumbentFrom(adjMatrix, hamiltonianPath, currentPath, optimalPath, optimalPathCost,
                             old(optimalPath), old(optimalPathCost))
      decreases |hamiltonianPath| - |currentPath|, 2
    {
      CountNotInAll(currentPath, hamiltonianPath);
      var cp := currentPath;
      var i := 0;
      ghost var m := |hamiltonianPath| - |currentPath|;
      ghost var perVertex := Factorial(m - 1);
      assert Factorial(m) == Batches(m, perVertex);
      ghost var visited0 := totalPermutationsVisited;
      ghost var counted := 0;
      RoundsStart(adjMatrix, hamiltonianPath, cp, optimalPathCost);
      while i < |hamiltonianPath|
        invariant 0 <= i <= |hamiltonianPath| && cp == currentPath
        invariant adjMatrix == old(adjMatrix) && hamiltonianPath == old(hamiltonianPath)
        invariant nodes == old(nodes) && minimumSpanningTree == old(minimumSpanningTree)
        invariant hamiltonianPathCost == old(hamiltonianPathCost)
        invariant counted == CountNotIn(currentPath, hamiltonianPath[..i])
        invariant totalPermutationsVisited == visited0 + Batches(counted, perVertex)
        invariant optimalPathCost <= old(optimalPathCost)
        invariant BestAmongFirst(adjMatrix, hamiltonianPath, cp, i, optimalPathCost)
        invariant IncumbentFrom(adjMatrix, hamiltonianPath, currentPath, optimalPath, optimalPathCost,
                                 old(optimalPath), old(optimalPathCost))
      {
        cp, counted := TryVertex(cp, i, perVertex, visited0, counted, old(optimalPath), old(optimalPathCost));
        i := i + 1;
      }
      assert hamiltonianPath[..i] == hamiltonianPath;
      assert counted == m;
      RoundsDone(adjMatrix, hamiltonianPath, cp, optimalPathCost);
      restored := cp;
    }

    /** One round of the loop in Permute: the orderings that continue
        currentPath with hamiltonianPath[i] are tried when that vertex is not
        yet in currentPath, and the round is skipped otherwise. */
    method TryVertex(currentPath: seq<nat>, i: nat, ghost perVertex: nat, ghost visited0: nat,
                     ghost counted: nat, ghost pathStart: seq<nat>, ghost costStart: int)
      returns (restored: seq<nat>, ghost counted': nat)
      requires SearchSpace(adjMatrix, hamiltonianPath) && i < |hamiltonianPath|
      requires Distinct(currentPath) && forall j :: 0 <= j < |currentPath| ==> currentPath[j] in hamiltonianPath
      requires |currentPath| < |hamiltonianPath| && perVertex == Factorial(|hamiltonianPath| - |currentPath| - 1)
      requires counted == CountNotIn(currentPath, hamiltonianPath[..i])
      requires totalPermutationsVisited == visited0 + Batches(counted, perVertex)
      requires BestAmongFirst(adjMatrix, hamiltonianPath, currentPath, i, optimalPathCost)
      requires IncumbentFrom(adjMatrix, hamiltonianPath, currentPath, optimalPath, optimalPathCost, pathStart, costStart)
      requires optimalPathCost <= costStart
      modifies this
      ensures restored == currentPath
      ensures adjMatrix == old(adjMatrix) && hamiltonianPath == old(hamiltonianPath)
      ensures nodes == old(nodes) && minimumSpanningTree == old(minimumSpanningTree)
      ensures hamiltonianPathCost == old(hamiltonianPathCost)
      ensures counted' == CountNotIn(currentPath, hamiltonianPath[..i + 1])
      ensures totalPermutationsVisited == visited0 + Batches(counted', perVertex)
      ensures BestAmongFirst(adjMatrix, hamiltonianPath, currentPath, i + 1, optimalPathCost)
      ensures IncumbentFrom(adjMatrix, hamiltonianPath, currentPath, optimalPath, optimalPathCost, pathStart, costStart)
      ensures optimalPathCost <= costStart
      decreases |hamiltonianPath| - |currentPath|, 1
    {
      var v := hamiltonianPath[i];
      CountNotInStep(currentPath, hamiltonianPath, i);
      if v !in currentPath {
        restored := Place(currentPath, i, perVertex, pathStart, costStart);
        counted' := counted + 1;
        assert Batches(counted', perVertex) == Batches(counted, perVertex) + perVertex;
      } else {
        RoundSkip(adjMatrix, hamiltonianPath, currentPath, i, optimalPathCost);
        restored := currentPath;
        counted' := counted;
      }
    }

    /** One round of the loop in Permute: v = hamiltonianPath[i], not yet in
        currentPath, is placed next, every completion is tried, and v is
        removed again. */
    method Place(currentPath: seq<nat>, i: nat, ghost perVertex: nat, ghost pathStart: seq<nat>, ghost costStart: int)
      returns (restored: seq<nat>)
      requires SearchSpace(adjMatrix, hamiltonianPath) && i < |hamiltonianPath|
      requires |currentPath| < |hamiltonianPath| && perVertex == Factorial(|hamiltonianPath| - |currentPath| - 1)
      requires Distinct(currentPath) && forall j :: 0 <= j < |currentPath| ==> currentPath[j] in hamiltonianPath
      requires hamiltonianPath[i] !in currentPath
      requires BestAmongFirst(adjMatrix, hamiltonianPath, currentPath, i, optimalPathCost)
      requires IncumbentFrom(adjMatrix, hamiltonianPath, currentPath, optimalPath, optimalPathCost, pathStart, costStart)
      requires optimalPathCost <= costStart
      modifies this
      ensures restored == currentPath
      ensures adjMatrix == old(adjMatrix) && hamiltonianPath == old(hamiltonianPath)
      ensures nodes == old(nodes) && minimumSpanningTree == old(minimumSpanningTree)
      ensures hamiltonianPathCost == old(hamiltonianPathCost)
      ensures totalPermutationsVisited == old(totalPermutationsVisited) + perVertex
      ensures BestAmongFirst(adjMatrix, hamiltonianPath, currentPath, i + 1, optimalPathCost)
      ensures IncumbentFrom(adjMatrix, hamiltonianPath, currentPath, optimalPath, optimalPathCost, pathStart, costStart)
      ensures optimalPathCost <= costStart
      decreases |hamiltonianPath| - |currentPath|, 0
    {
      var v := hamiltonianPath[i];
      CountNotInAll(currentPath + [v], hamiltonianPath);
      ghost var path0, cost0 := optimalPath, optimalPathCost;
      var cp := currentPath + [v];
      cp := Permute(cp);
      assert totalPermutationsVisited == old(totalPermutationsVisited) + perVertex;
      RemoveFirstAppended(currentPath, v);
      cp := RemoveFirst(cp, v);
      RoundTried(adjMatrix, hamiltonianPath, currentPath, i, path0, cost0, optimalPath, optimalPathCost,
                 pathStart, costStart);
      restored := cp;
    }
  }
}
