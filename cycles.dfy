/** The cost of a path through the cost matrix, and the Hamiltonian cycle
    obtained by shortcutting a walk to the first visit of every vertex. */
module Cycles {
  import opened Sequences
  import opened CostMatrix

  /** The sum of adj[path[i-1]][path[i]] over consecutive entries. */
  function PathCost(adj: seq<seq<int>>, path: seq<nat>): int
    requires IsSquare(adj) && OnVertices(path, |adj|)
  {
    if |path| < 2 then 0
    else PathCost(adj, path[..|path| - 1]) + adj[path[|path| - 2]][path[|path| - 1]]
  }

  /** The cost of visiting p in order and returning to its first entry. */
  function ClosedCost(adj: seq<seq<int>>, p: seq<nat>): int
    requires IsSquare(adj) && OnVertices(p, |adj|) && |p| > 0
  {
    PathCost(adj, p + [p[0]])
  }

  method GetCostOfPath(adj: seq<seq<int>>, path: seq<nat>) returns (cost: int)
    requires IsSquare(adj) && OnVertices(path, |adj|)
    ensures cost == PathCost(adj, path)
  {
    cost := 0;
    var i := 1;
    while i < |path|
      invariant |path| == 0 || i <= |path|
      invariant 1 <= i
      invariant cost == PathCost(adj, if |path| == 0 then [] else path[..i])
    {
      assert path[..i + 1][..i] == path[..i];
      cost := cost + adj[path[i - 1]][path[i]];
      i := i + 1;
    }
    assert |path| > 0 ==> path[..|path|] == path;
  }

  /** Cost is additive over a concatenation: the two parts plus the edge joining them. */
  lemma {:induction false} PathCostAppend(adj: seq<seq<int>>, p: seq<nat>, q: seq<nat>)
    requires IsSquare(adj) && OnVertices(p, |adj|) && OnVertices(q, |adj|)
    requires |p| > 0 && |q| > 0
    ensures OnVertices(p + q, |adj|)
    ensures PathCost(adj, p + q) == PathCost(adj, p) + adj[p[|p| - 1]][q[0]] + PathCost(adj, q)
    decreases |q|
  {
    if |q| == 1 {
      assert (p + q)[..|p + q| - 1] == p;
    } else {
      var q' := q[..|q| - 1];
      PathCostAppend(adj, p, q');
      assert (p + q)[..|p + q| - 1] == p + q';
    }
  }

  /** With non-negative costs a path costs at least nothing. */
  lemma {:induction false} PathCostNonNegative(adj: seq<seq<int>>, path: seq<nat>)
    requires IsSquare(adj) && NonNegative(adj) && OnVertices(path, |adj|)
    ensures PathCost(adj, path) >= 0
    decreases |path|
  {
    if |path| >= 2 {
      PathCostNonNegative(adj, path[..|path| - 1]);
    }
  }

  /** A closed tour cut into a and b costs both parts plus the two edges
      joining them. */
  lemma ClosedCostSplit(adj: seq<seq<int>>, a: seq<nat>, b: seq<nat>)
    requires IsSquare(adj) && OnVertices(a, |adj|) && OnVertices(b, |adj|)
    requires |a| > 0 && |b| > 0
    ensures OnVertices(a + b, |adj|)
    ensures ClosedCost(adj, a + b)
      == PathCost(adj, a) + adj[a[|a| - 1]][b[0]] + PathCost(adj, b) + adj[b[|b| - 1]][a[0]]
  {
    var ab, c := a + b, b + [a[0]];
    assert ab + [ab[0]] == a + c;
    PathCostAppend(adj, b, [a[0]]);
    PathCostAppend(adj, a, c);
  }

  /** A closed tour costs the same from whichever of its vertices it starts. */
  lemma ClosedCostRotation(adj: seq<seq<int>>, p: seq<nat>, k: nat)
    requires IsSquare(adj) && OnVertices(p, |adj|) && 0 < k < |p|
    ensures OnVertices(p[k..] + p[..k], |adj|)
    ensures ClosedCost(adj, p[k..] + p[..k]) == ClosedCost(adj, p)
  {
    var a, b := p[..k], p[k..];
    assert p == a + b;
    ClosedCostSplit(adj, a, b);
    ClosedCostSplit(adj, b, a);
  }

  /** The walk with every repeated visit dropped, first visits in order. */
  function FirstOccurrences(walk: seq<nat>): seq<nat> {
    if walk == [] then []
    else
      var d := FirstOccurrences(walk[..|walk| - 1]);
      if walk[|walk| - 1] in d then d else d + [walk[|walk| - 1]]
  }

  /** The shortcut walk has no repeats, the same vertices as the walk,
      the walk's first vertex first, and keeps the order of first visits. */
  lemma FirstOccurrencesProperties(walk: seq<nat>)
    ensures Distinct(FirstOccurrences(walk))
    ensures forall v :: v in FirstOccurrences(walk) <==> v in walk
    ensures |walk| > 0 ==> |FirstOccurrences(walk)| > 0 && FirstOccurrences(walk)[0] == walk[0]
    ensures forall i, j :: 0 <= i < j < |FirstOccurrences(walk)| ==>
      IndexOf(walk, FirstOccurrences(walk)[i]) < IndexOf(walk, FirstOccurrences(walk)[j])
  {
    FirstOccurrencesElements(walk);
    FirstOccurrencesOrder(walk);
  }

  /** The shortcut walk has no repeats, the same vertices as the walk and
      the walk's first vertex first. */
  lemma {:induction false} FirstOccurrencesElements(walk: seq<nat>)
    ensures Distinct(FirstOccurrences(walk))
    ensures forall v :: v in FirstOccurrences(walk) <==> v in walk
    ensures |walk| > 0 ==> |FirstOccurrences(walk)| > 0 && FirstOccurrences(walk)[0] == walk[0]
    decreases |walk|
  {
    if walk != [] {
      var w := walk[..|walk| - 1];
      var x := walk[|walk| - 1];
      FirstOccurrencesElements(w);
      assert walk == w + [x];
      if |w| == 0 {
        assert FirstOccurrences(walk) == [x];
      } else {
        assert walk[0] == w[0];
      }
    }
  }

  /** Every vertex of d is visited by walk, and d lists them in the order
      of their first visits. */
  ghost predicate FirstVisitOrder(walk: seq<nat>, d: seq<nat>) {
    && (forall v :: v in d ==> v in walk)
    && (forall i, j :: 0 <= i < j < |d| ==> IndexOf(walk, d[i]) < IndexOf(walk, d[j]))
  }

  /** The shortcut walk lists vertices in the order of their first visits. */
  lemma {:induction false} FirstOccurrencesOrder(walk: seq<nat>)
    ensures FirstVisitOrder(walk, FirstOccurrences(walk))
    decreases |walk|
  {
    if walk != [] {
      var w := walk[..|walk| - 1];
      var x := walk[|walk| - 1];
      assert walk == w + [x];
      FirstOccurrencesOrder(w);
      var d := FirstOccurrences(w);
      VisitOrderExtends(w, x, d);
      if x !in d {
        FirstOccurrencesElements(w);
        VisitOrderAppends(w, x, d);
      }
    }
  }

  /** Walking on keeps the order of the first visits made so far. */
  lemma VisitOrderExtends(w: seq<nat>, x: nat, d: seq<nat>)
    requires FirstVisitOrder(w, d)
    ensures FirstVisitOrder(w + [x], d)
  {
    forall v | v in w ensures IndexOf(w + [x], v) == IndexOf(w, v) {
      IndexOfPrefix(w, x, v);
    }
  }

  /** A first visit to x comes after every earlier first visit. */
  lemma VisitOrderAppends(w: seq<nat>, x: nat, d: seq<nat>)
    requires FirstVisitOrder(w, d) && x !in w
    ensures FirstVisitOrder(w + [x], d + [x])
  {
    VisitOrderExtends(w, x, d);
    IndexOfLast(w, x);
    forall i, j | 0 <= i < j < |d + [x]|
      ensures IndexOf(w + [x], (d + [x])[i]) < IndexOf(w + [x], (d + [x])[j])
    {
      if j == |d| {
        assert (d + [x])[i] == d[i] && d[i] in w;
        IndexOfPrefix(w, x, d[i]);
      }
    }
  }

  lemma IndexOfPrefix(w: seq<nat>, x: nat, v: nat)
    requires v in w
    ensures IndexOf(w + [x], v) == IndexOf(w, v)
  {
    var k := IndexOf(w, v);
    var k' := IndexOf(w + [x], v);
    forall j | 0 <= j < k' ensures (w + [x])[j] != v {
      assert (w + [x])[..k'][j] == (w + [x])[j];
    }
    forall j | 0 <= j < k ensures (w + [x])[j] != v {
      assert w[..k][j] == (w + [x])[j];
    }
    assert (w + [x])[k] == v;
  }

  lemma IndexOfLast(w: seq<nat>, x: nat)
    requires x !in w
    ensures IndexOf(w + [x], x) == |w|
  {
    var k := IndexOf(w + [x], x);
    assert (w + [x])[..|w|] == w;
  }

  /** Keeps the first visit of every vertex of the walk and closes the cycle
      with the walk's first vertex. */
  method GetHamiltonianCycle(preOrderWalk: seq<nat>) returns (hamiltonianCycle: seq<nat>)
    requires |preOrderWalk| > 0
    ensures hamiltonianCycle == FirstOccurrences(preOrderWalk) + [preOrderWalk[0]]
    ensures |hamiltonianCycle| >= 2
    ensures hamiltonianCycle[0] == preOrderWalk[0] == hamiltonianCycle[|hamiltonianCycle| - 1]
    ensures Distinct(hamiltonianCycle[..|hamiltonianCycle| - 1])
    ensures forall v :: v in hamiltonianCycle <==> v in preOrderWalk
  {
    hamiltonianCycle := [];
    var i := 0;
    while i < |preOrderWalk|
      invariant 0 <= i <= |preOrderWalk|
      invariant hamiltonianCycle == FirstOccurrences(preOrderWalk[..i])
    {
      assert preOrderWalk[..i + 1][..i] == preOrderWalk[..i];
      var v := preOrderWalk[i];
      if v !in hamiltonianCycle {
        hamiltonianCycle := hamiltonianCycle + [v];
      }
      i := i + 1;
    }
    assert preOrderWalk[..i] == preOrderWalk;
    FirstOccurrencesProperties(preOrderWalk);
    hamiltonianCycle := hamiltonianCycle + [preOrderWalk[0]];
    assert hamiltonianCycle[..|hamiltonianCycle| - 1] == FirstOccurrences(preOrderWalk);
  }
}
