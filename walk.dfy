/** The pre-order walk of the spanning tree. The walk enters a vertex, then
    for each child (taken from the vertex's child heap, cheapest first, which
    empties the heap) walks the child's subtree and comes back to the vertex. */
module Walks {
  import opened Nodes
  import opened Heaps
  import opened Sequences

  /* The contracts below speak of the contents of the child heaps as values:
     c0 is the contents when a walk starts, c the contents now. */

  /** The contents of every child heap. */
  ghost function Contents(tree: seq<Heap>): (c: seq<multiset<Node>>)
    reads tree
    ensures |c| == |tree|
    ensures forall k :: 0 <= k < |tree| ==> c[k] == multiset(tree[k].heap)
  {
    seq(|tree|, k requires 0 <= k < |tree| reads tree => multiset(tree[k].heap))
  }

  /** Heaps whose contents are empty hold nothing. */
  lemma EmptyContents(tree: seq<Heap>, c: seq<multiset<Node>>)
    requires c == Contents(tree) && forall k :: 0 <= k < |c| ==> c[k] == multiset{}
    ensures forall k :: 0 <= k < |tree| ==> tree[k].heap == []
  {
    forall k | 0 <= k < |tree| ensures tree[k].heap == [] {
      assert multiset(tree[k].heap) == c[k];
    }
  }

  /** One valid heap per vertex, no two of them the same object. */
  ghost predicate Forest(tree: seq<Heap>)
    reads tree
  {
    && (forall k :: 0 <= k < |tree| ==> tree[k].Valid())
    && (forall j, k :: 0 <= j < k < |tree| ==> tree[j] != tree[k])
  }

  /** Node v describes vertex v, every child heap entry is the current node
      of its vertex, names the heap's vertex as its parent, ranks after it
      and is held once. */
  ghost predicate Shape(c: seq<multiset<Node>>, ns: seq<Node>, rank: seq<nat>)
  {
    && |ns| == |c| && |rank| == |c|
    && (forall k :: 0 <= k < |c| ==> rank[k] < |c|)
    && (forall v :: 0 <= v < |ns| ==> ns[v].vertex == v)
    && (forall u, e :: 0 <= u < |c| && e in c[u] ==>
          && e.vertex < |ns| && e == ns[e.vertex] && e.parent == Some(u)
          && rank[u] < rank[e.vertex] && c[u][e] == 1)
  }

  /** Heaps only lose entries. */
  ghost predicate Shrinks(c0: seq<multiset<Node>>, c: seq<multiset<Node>>) {
    |c| == |c0| && forall k :: 0 <= k < |c| ==> c[k] <= c0[k]
  }

  /** a and b are joined by a tree edge: one names the other as its parent. */
  ghost predicate Adjacent(ns: seq<Node>, a: nat, b: nat) {
    (b < |ns| && ns[b].parent == Some(a)) || (a < |ns| && ns[a].parent == Some(b))
  }

  /** Entries i and i + 1 of the walk are joined by a tree edge. */
  ghost predicate StepAt(ns: seq<Node>, w: seq<nat>, i: nat)
    requires i + 1 < |w|
  {
    Adjacent(ns, w[i], w[i + 1])
  }

  /** Every two consecutive entries of the walk are joined by a tree edge. */
  ghost predicate Steps(ns: seq<Node>, w: seq<nat>) {
    forall i :: 0 <= i < |w| - 1 ==> StepAt(ns, w, i)
  }

  /** The node of x was in its parent's heap in c0 and has been taken out by c. */
  ghost predicate Taken(c0: seq<multiset<Node>>, c: seq<multiset<Node>>, ns: seq<Node>, x: nat)
    requires |c| == |c0|
  {
    && x < |ns| && ns[x].parent.Some? && ns[x].parent.value < |c0|
    && ns[x] in c0[ns[x].parent.value] && ns[x] !in c[ns[x].parent.value]
  }

  /** The walk starts and ends at s. */
  ghost predicate Ends(w: seq<nat>, s: nat) {
    |w| > 0 && w[0] == s && w[|w| - 1] == s
  }

  /** Every vertex of the walk is a vertex, ranked no earlier than s. */
  ghost predicate Below(c: seq<multiset<Node>>, rank: seq<nat>, s: nat, w: seq<nat>) {
    s < |rank| && forall x :: x in w ==> x < |c| && x < |rank| && rank[s] <= rank[x]
  }

  /** Every vertex of the walk other than s has its heap emptied and has
      been taken out of its parent's heap. */
  ghost predicate Done(c0: seq<multiset<Node>>, c: seq<multiset<Node>>, ns: seq<Node>, s: nat, w: seq<nat>) {
    |c| == |c0| && forall x :: x in w && x != s && x < |c| ==> c[x] == multiset{} && Taken(c0, c, ns, x)
  }

  /** The heap of every vertex off the walk is as it was. */
  ghost predicate Untouched(c0: seq<multiset<Node>>, c: seq<multiset<Node>>, w: seq<nat>) {
    |c| == |c0| && forall k {:trigger k in w} :: 0 <= k < |c| && k !in w ==> c[k] == c0[k]
  }

  /** The children of the walk's vertices other than s are on the walk. */
  ghost predicate Closed(c0: seq<multiset<Node>>, s: nat, w: seq<nat>) {
    forall x, e :: x in w && x != s && x < |c0| && e in c0[x] ==> e.vertex in w
  }

  /** Every child of s is on the walk or still in s's heap. */
  ghost predicate Pending(c0: seq<multiset<Node>>, c: seq<multiset<Node>>, s: nat, w: seq<nat>) {
    s < |c0| && |c| == |c0| && forall e :: e in c0[s] ==> e in c[s] || e.vertex in w
  }

  /** The walk has 2m - 1 entries, m being the number of vertices on it. */
  ghost predicate EulerLength(w: seq<nat>) {
    |w| == 2 * |Elements(w)| - 1
  }

  /** What holds of the walk w from s part way through. */
  ghost predicate Partial(c0: seq<multiset<Node>>, c: seq<multiset<Node>>, ns: seq<Node>, rank: seq<nat>,
                          s: nat, w: seq<nat>)
  {
    && Shape(c0, ns, rank) && Shrinks(c0, c) && Shape(c, ns, rank)
    && Ends(w, s) && Below(c, rank, s, w) && Done(c0, c, ns, s, w) && Untouched(c0, c, w)
    && Closed(c0, s, w) && Pending(c0, c, s, w) && Steps(ns, w) && EulerLength(w)
  }

  /** The walk w from s is complete: s's heap is empty as well. */
  ghost predicate Walked(c0: seq<multiset<Node>>, c: seq<multiset<Node>>, ns: seq<Node>, rank: seq<nat>,
                         s: nat, w: seq<nat>)
  {
    Partial(c0, c, ns, rank, s, w) && c[s] == multiset{}
  }

  /** A completed walk contains every child of every vertex on it, and its
      vertices' heaps are empty. */
  lemma WalkedClosed(c0: seq<multiset<Node>>, c: seq<multiset<Node>>, ns: seq<Node>, rank: seq<nat>,
                     s: nat, w: seq<nat>)
    requires Walked(c0, c, ns, rank, s, w)
    ensures forall x, e :: x in w && x < |c0| && e in c0[x] ==> e.vertex in w
    ensures forall x :: x in w ==> x < |c| && c[x] == multiset{}
  {
    assert Pending(c0, c, s, w) && Closed(c0, s, w);
  }

  /** A sub-multiset of a shaped heap family is shaped. */
  lemma ShrinkKeepsShape(c0: seq<multiset<Node>>, c: seq<multiset<Node>>, ns: seq<Node>, rank: seq<nat>)
    requires Shape(c0, ns, rank) && Shrinks(c0, c)
    ensures Shape(c, ns, rank)
  {
    forall u, e | 0 <= u < |c| && e in c[u] ensures c[u][e] == 1 {
      assert c[u][e] <= c0[u][e];
    }
  }

  /** The state right after s is appended to the walk. */
  lemma PartialStart(c0: seq<multiset<Node>>, ns: seq<Node>, rank: seq<nat>, s: nat)
    requires Shape(c0, ns, rank) && s < |c0|
    ensures Partial(c0, c0, ns, rank, s, [s])
  {
    assert Elements([s]) == {s};
  }

  /** Taking entry e out of s's heap (c1 to c2), then walking e's subtree
      (c2 to c3, walk wc) and coming back to s, extends the partial walk w. */
  lemma PartialStep(c0: seq<multiset<Node>>, c1: seq<multiset<Node>>, c2: seq<multiset<Node>>,
                    c3: seq<multiset<Node>>, ns: seq<Node>, rank: seq<nat>, s: nat, w: seq<nat>,
                    e: Node, wc: seq<nat>)
    requires Partial(c0, c1, ns, rank, s, w) && e in c1[s]
    requires c2 == c1[s := c1[s] - multiset{e}]
    requires Walked(c2, c3, ns, rank, e.vertex, wc)
    ensures Partial(c0, c3, ns, rank, s, w + wc + [s])
    ensures |c3[s]| < |c1[s]|
  {
    StepVertices(c0, c1, c2, c3, ns, rank, s, w, e, wc);
    ChildAfter(c1, c2, c3, ns, rank, s, e, wc);
    WalkedClosed(c2, c3, ns, rank, e.vertex, wc);
    StepHeaps(c0, c1, c2, c3, s, w, e, wc);
    StepAdjacent(ns, s, w, e.vertex, wc);
    assert c3[s] == c2[s];
  }

  /** The child ranks after s, so s is not on the child's walk. */
  lemma ChildAfter(c1: seq<multiset<Node>>, c2: seq<multiset<Node>>, c3: seq<multiset<Node>>,
                   ns: seq<Node>, rank: seq<nat>, s: nat, e: Node, wc: seq<nat>)
    requires Shape(c1, ns, rank) && s < |c1| && e in c1[s]
    requires Walked(c2, c3, ns, rank, e.vertex, wc)
    ensures e.vertex < |ns| && e == ns[e.vertex] && e.parent == Some(s) && c1[s][e] == 1
    ensures rank[s] < rank[e.vertex] && s !in wc
  {
    assert Below(c3, rank, e.vertex, wc);
    forall x | x in wc ensures x != s {
      assert rank[s] < rank[e.vertex] <= rank[x];
    }
  }

  /** The first half of the step: heap shapes, ranks, emptied heaps and length. */
  lemma StepVertices(c0: seq<multiset<Node>>, c1: seq<multiset<Node>>, c2: seq<multiset<Node>>,
                     c3: seq<multiset<Node>>, ns: seq<Node>, rank: seq<nat>, s: nat, w: seq<nat>,
                     e: Node, wc: seq<nat>)
    requires Partial(c0, c1, ns, rank, s, w) && e in c1[s]
    requires c2 == c1[s := c1[s] - multiset{e}]
    requires Walked(c2, c3, ns, rank, e.vertex, wc)
    ensures Shrinks(c0, c3) && Shape(c3, ns, rank) && Ends(w + wc + [s], s)
    ensures Below(c3, rank, s, w + wc + [s]) && Done(c0, c3, ns, s, w + wc + [s])
    ensures EulerLength(w + wc + [s])
  {
    ChildAfter(c1, c2, c3, ns, rank, s, e, wc);
    TakeOutShrinks(c1, s, e);
    StepShrinks(c0, c1, c2, c3);
    ShrinkKeepsShape(c0, c3, ns, rank);
    StepBelow(c1, c3, rank, s, w, e.vertex, wc);
    StepDisjoint(c0, c1, c2, c3, ns, s, w, e, wc);
    StepLength(w, wc, s);
    StepDone(c0, c1, c2, c3, ns, s, w, e, wc);
  }

  /** The second half of the step: untouched heaps and children. */
  lemma StepHeaps(c0: seq<multiset<Node>>, c1: seq<multiset<Node>>, c2: seq<multiset<Node>>,
                  c3: seq<multiset<Node>>, s: nat, w: seq<nat>, e: Node, wc: seq<nat>)
    requires |c1| == |c0| && |c2| == |c1| && |c3| == |c2| && s < |c1|
    requires e in c1[s] && c2 == c1[s := c1[s] - multiset{e}]
    requires |wc| > 0 && wc[0] == e.vertex && s !in wc
    requires Untouched(c0, c1, w) && Closed(c0, s, w) && Pending(c0, c1, s, w)
    requires Untouched(c2, c3, wc)
    requires forall x, f :: x in wc && x < |c2| && f in c2[x] ==> f.vertex in wc
    ensures Untouched(c0, c3, w + wc + [s]) && Closed(c0, s, w + wc + [s])
    ensures Pending(c0, c3, s, w + wc + [s])
  {
    StepUntouched(c0, c1, c2, c3, s, w, wc);
    StepClosure(c0, c1, c2, c3, s, w, e, wc);
  }

  /** Taking one entry out of one heap only loses entries. */
  lemma TakeOutShrinks(c1: seq<multiset<Node>>, s: nat, e: Node)
    requires s < |c1|
    ensures Shrinks(c1, c1[s := c1[s] - multiset{e}])
  {
    var c2 := c1[s := c1[s] - multiset{e}];
    forall k | 0 <= k < |c2| ensures c2[k] <= c1[k] {
      if k == s {
        assert forall x :: c2[s][x] <= c1[s][x];
      }
    }
  }

  lemma StepShrinks(c0: seq<multiset<Node>>, c1: seq<multiset<Node>>, c2: seq<multiset<Node>>,
                    c3: seq<multiset<Node>>)
    requires Shrinks(c0, c1) && Shrinks(c1, c2) && Shrinks(c2, c3)
    ensures Shrinks(c0, c3)
  {
  }

  lemma StepBelow(c1: seq<multiset<Node>>, c3: seq<multiset<Node>>, rank: seq<nat>, s: nat, w: seq<nat>,
                  v: nat, wc: seq<nat>)
    requires |c3| == |c1| && s in w && Below(c1, rank, s, w) && Below(c3, rank, v, wc) && rank[s] < rank[v]
    ensures Below(c3, rank, s, w + wc + [s])
  {
    forall x | x in w + wc + [s] ensures x < |c3| && x < |rank| && rank[s] <= rank[x] {
      if x in wc {
        assert rank[v] <= rank[x];
      } else if x != s {
        assert x in w;
      }
    }
  }

  /** The subtree walked from a child shares no vertex with the walk so far:
      every vertex on either has been taken out of its parent's heap, and the
      child was still in its parent's heap when its subtree was walked. */
  lemma StepDisjoint(c0: seq<multiset<Node>>, c1: seq<multiset<Node>>, c2: seq<multiset<Node>>,
                     c3: seq<multiset<Node>>, ns: seq<Node>, s: nat, w: seq<nat>, e: Node, wc: seq<nat>)
    requires |c1| == |c0| && |c2| == |c1| && |c3| == |c2|
    requires forall k :: 0 <= k < |c2| ==> c2[k] <= c1[k]
    requires e.vertex < |ns| && e == ns[e.vertex] && e.parent == Some(s) && s < |c1| && e in c1[s]
    requires s !in wc && forall x :: x in wc ==> x < |c1|
    requires Done(c0, c1, ns, s, w) && Done(c2, c3, ns, e.vertex, wc)
    ensures forall x :: x in wc ==> x !in w
  {
    forall x | x in wc ensures x !in w {
      if x != e.vertex {
        assert Taken(c2, c3, ns, x);
        var p := ns[x].parent.value;
        assert c2[p][ns[x]] <= c1[p][ns[x]];
      }
    }
  }

  lemma StepLength(w: seq<nat>, wc: seq<nat>, s: nat)
    requires s in w && EulerLength(w) && EulerLength(wc)
    requires forall x :: x in wc ==> x !in w
    ensures EulerLength(w + wc + [s])
  {
    assert Elements(w + wc + [s]) == Elements(w) + Elements(wc);
    assert Elements(w) * Elements(wc) == {};
  }

  /** Every vertex of the extended walk other than s has its heap emptied and
      has been taken out of its parent's heap, the child itself included. */
  lemma StepDone(c0: seq<multiset<Node>>, c1: seq<multiset<Node>>, c2: seq<multiset<Node>>,
                 c3: seq<multiset<Node>>, ns: seq<Node>, s: nat, w: seq<nat>, e: Node, wc: seq<nat>)
    requires |c1| == |c0| && |c2| == |c1| && |c3| == |c2|
    requires forall k :: 0 <= k < |c1| ==> c3[k] <= c2[k] <= c1[k] <= c0[k]
    requires e.vertex < |ns| && e == ns[e.vertex] && e.parent == Some(s) && s < |c1| && e in c1[s]
    requires c2 == c1[s := c1[s] - multiset{e}] && c1[s][e] == 1
    requires s !in wc && |wc| > 0 && wc[0] == e.vertex && e.vertex < |c3| && c3[e.vertex] == multiset{}
    requires Done(c0, c1, ns, s, w) && Done(c2, c3, ns, e.vertex, wc) && Untouched(c2, c3, wc)
    ensures Done(c0, c3, ns, s, w + wc + [s])
  {
    forall x | x in w + wc + [s] && x != s && x < |c3| ensures c3[x] == multiset{} && Taken(c0, c3, ns, x) {
      if x in wc {
        if x == e.vertex {
          assert c0[s][e] >= c1[s][e];
          assert c3[s][e] <= c2[s][e] == 0;
        } else {
          assert Taken(c2, c3, ns, x);
          var p := ns[x].parent.value;
          assert c2[p][ns[x]] <= c1[p][ns[x]] <= c0[p][ns[x]];
        }
      } else {
        assert x in w && Taken(c0, c1, ns, x);
        assert c3[x] == c2[x] == c1[x];
        var p := ns[x].parent.value;
        assert c3[p][ns[x]] <= c2[p][ns[x]] <= c1[p][ns[x]];
      }
    }
  }

  lemma StepUntouched(c0: seq<multiset<Node>>, c1: seq<multiset<Node>>, c2: seq<multiset<Node>>,
                      c3: seq<multiset<Node>>, s: nat, w: seq<nat>, wc: seq<nat>)
    requires s < |c1| && |c2| == |c1| && (forall k :: 0 <= k < |c1| && k != s ==> c2[k] == c1[k])
    requires Untouched(c0, c1, w) && Untouched(c2, c3, wc)
    ensures Untouched(c0, c3, w + wc + [s])
  {
    forall k | 0 <= k < |c3| && k !in w + wc + [s] ensures c3[k] == c0[k] {
      assert k !in w && k !in wc;
    }
  }

  /** The extended walk contains the children of its walked vertices, and
      every child of s is on it or still queued. */
  lemma StepClosure(c0: seq<multiset<Node>>, c1: seq<multiset<Node>>, c2: seq<multiset<Node>>,
                    c3: seq<multiset<Node>>, s: nat, w: seq<nat>, e: Node, wc: seq<nat>)
    requires |c1| == |c0| && |c2| == |c1| && |c3| == |c2| && s < |c1|
    requires e in c1[s] && c2 == c1[s := c1[s] - multiset{e}]
    requires |wc| > 0 && wc[0] == e.vertex && s !in wc
    requires Untouched(c0, c1, w) && Closed(c0, s, w) && Pending(c0, c1, s, w)
    requires Untouched(c2, c3, wc)
    requires forall x, f :: x in wc && x < |c2| && f in c2[x] ==> f.vertex in wc
    ensures Closed(c0, s, w + wc + [s]) && Pending(c0, c3, s, w + wc + [s])
  {
    var w' := w + wc + [s];
    forall x, f | x in w' && x != s && x < |c0| && f in c0[x] ensures f.vertex in w' {
      if x in w {
        assert f.vertex in w;
      } else {
        assert x in wc && c1[x] == c0[x] && c2[x] == c1[x];
        assert f.vertex in wc;
      }
    }
    forall f | f in c0[s] ensures f in c3[s] || f.vertex in w' {
      if f !in c1[s] {
        assert f.vertex in w;
      } else if f == e {
        assert e.vertex in wc;
      } else {
        assert f in c2[s] && c3[s] == c2[s];
      }
    }
  }

  lemma StepAdjacent(ns: seq<Node>, s: nat, w: seq<nat>, v: nat, wc: seq<nat>)
    requires Ends(w, s) && Ends(wc, v) && v < |ns| && ns[v].parent == Some(s)
    requires Steps(ns, w) && Steps(ns, wc)
    ensures Steps(ns, w + wc + [s])
  {
    var w' := w + wc + [s];
    forall i | 0 <= i < |w'| - 1 ensures StepAt(ns, w', i) {
      if i < |w| - 1 {
        assert StepAt(ns, w, i);
        assert w'[i] == w[i] && w'[i + 1] == w[i + 1];
      } else if i == |w| - 1 {
        assert w'[i] == s && w'[i + 1] == v;
      } else if i < |w| + |wc| - 1 {
        assert StepAt(ns, wc, i - |w|);
        assert w'[i] == wc[i - |w|] && w'[i + 1] == wc[i - |w| + 1];
      } else {
        assert w'[i] == v && w'[i + 1] == s;
      }
    }
  }

  /** Appends the walk of startNode's subtree to preOrderWalk, draining the
      child heaps of the subtree's vertices. */
  method GetPreOrderWalk(tree: seq<Heap>, startNode: nat, preOrderWalk: seq<nat>,
                         ghost ns: seq<Node>, ghost rank: seq<nat>)
    returns (walk: seq<nat>)
    requires Forest(tree) && startNode < |tree| && Shape(Contents(tree), ns, rank)
    modifies tree
    ensures Forest(tree)
    ensures |walk| > |preOrderWalk| && walk[..|preOrderWalk|] == preOrderWalk
    ensures Walked(old(Contents(tree)), Contents(tree), ns, rank, startNode, walk[|preOrderWalk|..])
    decreases |tree| - rank[startNode], 2
  {
    ghost var c0 := Contents(tree);
    walk := preOrderWalk + [startNode];
    ghost var w := [startNode];
    PartialStart(c0, ns, rank, startNode);
    var empty := tree[startNode].IsEmpty();
    if empty {
      return;
    }
    while !empty
      invariant Forest(tree)
      invariant walk == preOrderWalk + w
      invariant Partial(c0, Contents(tree), ns, rank, startNode, w)
      invariant empty <==> tree[startNode].heap == []
      decreases |tree[startNode].heap|
    {
      walk, w := WalkChild(tree, startNode, walk, preOrderWalk, c0, w, ns, rank);
      empty := tree[startNode].IsEmpty();
    }
  }

  /** One round of the loop above: the cheapest child left in startNode's
      heap is taken out, its subtree walked, and the walk returns to startNode. */
  method WalkChild(tree: seq<Heap>, startNode: nat, walk: seq<nat>, ghost preOrderWalk: seq<nat>,
                   ghost c0: seq<multiset<Node>>, ghost w: seq<nat>, ghost ns: seq<Node>, ghost rank: seq<nat>)
    returns (walk': seq<nat>, ghost w': seq<nat>)
    requires Forest(tree) && startNode < |tree| && tree[startNode].heap != []
    requires walk == preOrderWalk + w && Partial(c0, Contents(tree), ns, rank, startNode, w)
    modifies tree
    ensures Forest(tree) && walk' == preOrderWalk + w'
    ensures Partial(c0, Contents(tree), ns, rank, startNode, w')
    ensures |tree[startNode].heap| < old(|tree[startNode].heap|)
    decreases |tree| - rank[startNode], 1
  {
    ghost var c1 := Contents(tree);
    var nextNode := TakeChild(tree, startNode);
    walk', w' := WalkSubtree(tree, startNode, nextNode, walk, preOrderWalk, c0, c1, w, ns, rank);
  }

  /** The rest of the round, once child e is out of s's heap: e's subtree
      is walked and the walk returns to s. */
  method WalkSubtree(tree: seq<Heap>, s: nat, e: Node, walk: seq<nat>, ghost preOrderWalk: seq<nat>,
                     ghost c0: seq<multiset<Node>>, ghost c1: seq<multiset<Node>>, ghost w: seq<nat>,
                     ghost ns: seq<Node>, ghost rank: seq<nat>)
    returns (walk': seq<nat>, ghost w': seq<nat>)
    requires Forest(tree) && s < |tree| && |c1| == |tree| && e in c1[s]
    requires Contents(tree) == c1[s := c1[s] - multiset{e}]
    requires walk == preOrderWalk + w && Partial(c0, c1, ns, rank, s, w)
    modifies tree
    ensures Forest(tree) && walk' == preOrderWalk + w'
    ensures Partial(c0, Contents(tree), ns, rank, s, w')
    ensures |tree[s].heap| < |c1[s]|
    decreases |tree| - rank[s], 0
  {
    ghost var c2 := Contents(tree);
    TakeOutShrinks(c1, s, e);
    ShrinkKeepsShape(c1, c2, ns, rank);
    walk' := GetPreOrderWalk(tree, e.vertex, walk, ns, rank);
    ghost var wc, c3 := walk'[|walk|..], Contents(tree);
    PartialStep(c0, c1, c2, c3, ns, rank, s, w, e, wc);
    assert |tree[s].heap| == |c3[s]|;
    Regroup(preOrderWalk, w, walk, walk', s);
    walk' := walk' + [s];
    w' := w + wc + [s];
  }

  /** Removes the cheapest entry of heap s, and nothing else. */
  method TakeChild(tree: seq<Heap>, s: nat) returns (e: Node)
    requires Forest(tree) && s < |tree| && tree[s].heap != []
    modifies tree[s]
    ensures Forest(tree) && e in old(Contents(tree))[s]
    ensures Contents(tree) == old(Contents(tree))[s := old(Contents(tree))[s] - multiset{e}]
    ensures |tree[s].heap| < old(|tree[s].heap|)
  {
    ghost var c1 := Contents(tree);
    e := tree[s].RemoveMin();
    assert Contents(tree) == c1[s := c1[s] - multiset{e}];
  }

  /** The walk so far, the child's walk and the return to s, regrouped. */
  lemma Regroup(p: seq<nat>, w: seq<nat>, before: seq<nat>, walk: seq<nat>, s: nat)
    requires before == p + w && |walk| >= |before| && walk[..|before|] == before
    ensures walk + [s] == p + (w + walk[|before|..] + [s])
  {
    assert walk == before + walk[|before|..];
  }

  /** A walk from the root that contains every child of every vertex on it
      reaches every vertex whose parent chain leads to the root. */
  lemma {:induction false} WalkCoversTree(c0: seq<multiset<Node>>, ns: seq<Node>, rank: seq<nat>,
                                          w: seq<nat>, v: nat)
    requires |ns| == |c0| && |rank| == |c0| && v < |ns| && 0 in w
    requires forall x, e :: x in w && x < |c0| && e in c0[x] ==> e.vertex in w
    requires forall u :: 0 < u < |ns| ==>
      && ns[u].vertex == u && ns[u].parent.Some? && ns[u].parent.value < |ns|
      && rank[ns[u].parent.value] < rank[u] && ns[u] in c0[ns[u].parent.value]
    ensures v in w
    decreases rank[v]
  {
    if v != 0 {
      var p := ns[v].parent.value;
      WalkCoversTree(c0, ns, rank, w, p);
    }
  }
}
