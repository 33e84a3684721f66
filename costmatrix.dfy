/** The n-by-n matrix of travel costs between the recorded points. */
module CostMatrix {

  /** The planar coordinates of one record. */
  datatype Point = Point(x: int, y: int)

  ghost predicate IsSquare(adj: seq<seq<int>>) {
    forall i :: 0 <= i < |adj| ==> |adj[i]| == |adj|
  }

  ghost predicate Symmetric(adj: seq<seq<int>>)
    requires IsSquare(adj)
  {
    forall i, j :: 0 <= i < |adj| && 0 <= j < |adj| ==> adj[i][j] == adj[j][i]
  }

  ghost predicate ZeroDiagonal(adj: seq<seq<int>>)
    requires IsSquare(adj)
  {
    forall i :: 0 <= i < |adj| ==> adj[i][i] == 0
  }

  ghost predicate NonNegative(adj: seq<seq<int>>)
    requires IsSquare(adj)
  {
    forall i, j :: 0 <= i < |adj| && 0 <= j < |adj| ==> adj[i][j] >= 0
  }

  /** Every entry of path names a vertex of an n-vertex graph. */
  ghost predicate OnVertices(path: seq<nat>, n: nat) {
    forall i :: 0 <= i < |path| ==> path[i] < n
  }

  /** The cost between records i and j: zero between a record and itself
      (the same node object), the distance between their points otherwise. */
  function Entry(points: seq<Point>, distance: (Point, Point) -> int, i: nat, j: nat): int
    requires i < |points| && j < |points|
  {
    if i == j then 0 else distance(points[i], points[j])
  }

  /** Fills the matrix row by row: zero between a record and itself, the
      distance between their points otherwise. */
  method PopulateAdjMatrix(points: seq<Point>, distance: (Point, Point) -> int) returns (adj: seq<seq<int>>)
    ensures |adj| == |points| && IsSquare(adj)
    ensures ZeroDiagonal(adj)
    ensures forall i, j :: 0 <= i < |adj| && 0 <= j < |adj| && i != j ==> adj[i][j] == distance(points[i], points[j])
    ensures (forall p, q :: distance(p, q) == distance(q, p)) ==> Symmetric(adj)
    ensures (forall p, q :: distance(p, q) >= 0) ==> NonNegative(adj)
  {
    var n := |points|;
    adj := [];
    var i := 0;
    while i < n
      invariant 0 <= i <= n && |adj| == i
      invariant forall r :: 0 <= r < i ==> |adj[r]| == n
      invariant forall r, c :: 0 <= r < i && 0 <= c < n ==>
        adj[r][c] == Entry(points, distance, r, c)
    {
      var row := [];
      var j := 0;
      while j < n
        invariant 0 <= j <= n && |row| == j
        invariant forall c :: 0 <= c < j ==> row[c] == Entry(points, distance, i, c)
      {
        if i == j {
          row := row + [0];
        } else {
          row := row + [distance(points[i], points[j])];
        }
        j := j + 1;
      }
      adj := adj + [row];
      i := i + 1;
    }
    forall r | 0 <= r < n ensures adj[r][r] == 0 {
      assert adj[r][r] == Entry(points, distance, r, r);
    }
    if forall p, q :: distance(p, q) == distance(q, p) {
      forall r, c | 0 <= r < n && 0 <= c < n ensures adj[r][c] == adj[c][r] {
        assert adj[r][c] == Entry(points, distance, r, c);
        assert adj[c][r] == Entry(points, distance, c, r);
      }
    }
    if forall p, q :: distance(p, q) >= 0 {
      forall r, c | 0 <= r < n && 0 <= c < n ensures adj[r][c] >= 0 {
        assert adj[r][c] == Entry(points, distance, r, c);
      }
    }
  }
}
