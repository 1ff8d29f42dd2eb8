/** The graph-weighted accuracy scorer of dynamicScore.py: all-pairs shortest
    paths over a hand-written relatedness graph of the six candidate
    languages (Floyd-Warshall, in place), then partial credit
    max(1 - distance, 0) for each (predicted, actual) name pair. */
module DynamicScore {
  import opened Wrappers

  /** The "no edge" sentinel of the source. It is compared with the float
      weights, never added to them (RelaxGuard). */
  const INF: real := 2147483647.0

  /** A V x V weight matrix, as a value. */
  type Matrix = seq<seq<real>>

  predicate IsSquare(m: Matrix) {
    forall i :: 0 <= i < |m| ==> |m[i]| == |m|
  }

  predicate NonNegative(m: Matrix) {
    IsSquare(m) && forall i, j :: 0 <= i < |m| && 0 <= j < |m| ==> 0.0 <= m[i][j]
  }

  /** Non-negative weights, none above the sentinel. */
  predicate Bounded(m: Matrix) {
    NonNegative(m) && forall i, j :: 0 <= i < |m| && 0 <= j < |m| ==> m[i][j] <= INF
  }

  predicate ZeroDiagonal(m: Matrix) {
    IsSquare(m) && forall i :: 0 <= i < |m| ==> m[i][i] == 0.0
  }

  predicate Symmetric(m: Matrix) {
    IsSquare(m) && forall i, j :: 0 <= i < |m| && 0 <= j < |m| ==> m[i][j] == m[j][i]
  }

  /** Every two-hop route through a node p < k is no shorter than the direct
      entry. With k == |m| this is the triangle inequality. */
  predicate TriangleUpTo(m: Matrix, k: nat) {
    IsSquare(m) &&
    forall i, j, p :: 0 <= i < |m| && 0 <= j < |m| && 0 <= p < k && p < |m| ==> NoShortcut(m, i, j, p)
  }

  /** Going from i to j through p is no shorter than the entry for (i, j). */
  predicate NoShortcut(m: Matrix, i: nat, j: nat, p: nat)
    requires IsSquare(m) && i < |m| && j < |m| && p < |m|
  {
    m[i][j] <= m[i][p] + m[p][j]
  }

  /** Python's min(a, b): a unless b is smaller. */
  function Min(a: real, b: real): real {
    if b < a then b else a
  }

  /** The guarded update of dynamicScore.py:13-14 for one entry. */
  function Relax(dij: real, dik: real, dkj: real): real {
    if dik != INF && dkj != INF then Min(dij, dik + dkj) else dij
  }

  /** An update never raises an entry, and it changes an entry only to the
      sum of two legs that are both different from INF. */
  lemma RelaxGuard(dij: real, dik: real, dkj: real)
    ensures Relax(dij, dik, dkj) <= dij
    ensures Relax(dij, dik, dkj) != dij ==>
              dik != INF && dkj != INF && Relax(dij, dik, dkj) == dik + dkj < dij
  {
  }

  /** Round k of the triple loop, every entry relaxed through node k. */
  function Round(m: Matrix, k: nat): (r: Matrix)
    requires IsSquare(m) && k < |m|
    ensures |r| == |m| && IsSquare(r)
  {
    seq(|m|, i requires 0 <= i < |m| =>
      seq(|m|, j requires 0 <= j < |m| => Relax(m[i][j], m[i][k], m[k][j])))
  }

  /** The first k rounds. */
  function Rounds(m: Matrix, k: nat): (r: Matrix)
    requires IsSquare(m) && k <= |m|
    ensures |r| == |m| && IsSquare(r)
  {
    if k == 0 then m else Round(Rounds(m, k - 1), k - 1)
  }

  /** What floydWarshall leaves in its argument. */
  function AllPairs(m: Matrix): (r: Matrix)
    requires IsSquare(m)
    ensures |r| == |m| && IsSquare(r)
  {
    Rounds(m, |m|)
  }

  // ---------------------------------------------------------------------
  // floydWarshall on the array itself

  /** The array's contents as a matrix value. */
  function Snapshot(a: array2<real>): (m: Matrix)
    reads a
    ensures |m| == a.Length0
    ensures forall i :: 0 <= i < |m| ==> |m[i]| == a.Length1
    ensures forall i, j :: 0 <= i < a.Length0 && 0 <= j < a.Length1 ==> m[i][j] == a[i, j]
  {
    seq(a.Length0, i requires 0 <= i < a.Length0 reads a =>
      seq(a.Length1, j requires 0 <= j < a.Length1 reads a => a[i, j]))
  }

  lemma SnapshotIs(a: array2<real>, m: Matrix)
    requires a.Length0 == a.Length1 == |m| && IsSquare(m)
    requires forall i, j :: 0 <= i < |m| && 0 <= j < |m| ==> a[i, j] == m[i][j]
    ensures Snapshot(a) == m
  {
    var s := Snapshot(a);
    forall i | 0 <= i < |m| ensures s[i] == m[i] {
      assert |s[i]| == |m[i]|;
    }
  }

  /** During round k, with non-negative entries, the pivot row and column
      keep their values, so reading them after they were visited is the
      same as reading them before. */
  lemma RoundFixesPivot(m: Matrix, k: nat)
    requires NonNegative(m) && k < |m|
    ensures forall i :: 0 <= i < |m| ==> Round(m, k)[i][k] == m[i][k] && Round(m, k)[k][i] == m[k][i]
  {
  }

  lemma RoundKeepsNonNegative(m: Matrix, k: nat)
    requires NonNegative(m) && k < |m|
    ensures NonNegative(Round(m, k))
  {
  }

  /** Round k of dynamicScore.py:10-14 (the two inner loops), in place. No
      entry increases; with non-negative entries the array ends as
      Round of what it held, because row k and column k, which the round
      reads, keep their values. */
  method RelaxThrough(dist: array2<real>, k: nat)
    requires dist.Length0 == dist.Length1 && k < dist.Length0
    modifies dist
    ensures forall x, y :: 0 <= x < dist.Length0 && 0 <= y < dist.Length1 ==> dist[x, y] <= old(dist[x, y])
    ensures NonNegative(old(Snapshot(dist))) ==> Snapshot(dist) == Round(old(Snapshot(dist)), k)
  {
    var V := dist.Length0;
    ghost var d := Snapshot(dist);
    ghost var nonneg := NonNegative(d);
    ghost var next := if nonneg then Round(d, k) else d;
    if nonneg {
      RoundFixesPivot(d, k);
    }
    for i := 0 to V
      invariant forall x, y :: 0 <= x < V && 0 <= y < V ==> dist[x, y] <= d[x][y]
      invariant nonneg ==> forall x, y :: 0 <= x < V && 0 <= y < V ==>
                  dist[x, y] == if x < i then next[x][y] else d[x][y]
    {
      for j := 0 to V
        invariant forall x, y :: 0 <= x < V && 0 <= y < V ==> dist[x, y] <= d[x][y]
        invariant nonneg ==> forall x, y :: 0 <= x < V && 0 <= y < V ==>
                    dist[x, y] == if x < i || (x == i && y < j) then next[x][y] else d[x][y]
      {
        if nonneg {
          assert dist[i, k] == d[i][k] && dist[k, j] == d[k][j] && dist[i, j] == d[i][j];
          assert next[i][j] == Relax(d[i][j], d[i][k], d[k][j]);
        }
        if dist[i, k] != INF && dist[k, j] != INF {
          dist[i, j] := Min(dist[i, j], dist[i, k] + dist[k, j]);
        }
        if nonneg {
          assert dist[i, j] == next[i][j];
          forall x, y | 0 <= x < V && 0 <= y < V
            ensures dist[x, y] == if x < i || (x == i && y < j + 1) then next[x][y] else d[x][y]
          {
            if x != i || y != j {
              assert dist[x, y] == if x < i || (x == i && y < j) then next[x][y] else d[x][y];
            }
          }
        }
      }
    }
    if nonneg {
      SnapshotIs(dist, next);
    }
  }

  /** dynamicScore.py:5-15. The matrix is relaxed in place and the same
      object is returned. No entry ever increases; when the weights are
      non-negative the result is AllPairs of the input. */
  method FloydWarshall(dist: array2<real>) returns (r: array2<real>)
    requires dist.Length0 == dist.Length1
    modifies dist
    ensures r == dist
    ensures forall i, j :: 0 <= i < dist.Length0 && 0 <= j < dist.Length1 ==> dist[i, j] <= old(dist[i, j])
    ensures NonNegative(old(Snapshot(dist))) ==> Snapshot(dist) == AllPairs(old(Snapshot(dist)))
  {
    var V := dist.Length0;
    ghost var m0 := Snapshot(dist);
    ghost var nonneg := NonNegative(m0);
    for k := 0 to V
      invariant forall x, y :: 0 <= x < V && 0 <= y < V ==> dist[x, y] <= m0[x][y]
      invariant nonneg ==> Snapshot(dist) == Rounds(m0, k) && NonNegative(Rounds(m0, k))
    {
      if nonneg {
        RoundKeepsNonNegative(Rounds(m0, k), k);
      }
      RelaxThrough(dist, k);
    }
    r := dist;
  }

  // ---------------------------------------------------------------------
  // What the shortest-path matrix satisfies

  lemma {:induction false} RoundsNonIncreasing(m: Matrix, k: nat)
    requires IsSquare(m) && k <= |m|
    ensures forall i, j :: 0 <= i < |m| && 0 <= j < |m| ==> Rounds(m, k)[i][j] <= m[i][j]
  {
    if k > 0 {
      RoundsNonIncreasing(m, k - 1);
    }
  }

  /** No shortest-path entry exceeds the corresponding edge weight. */
  lemma AllPairsNonIncreasing(m: Matrix)
    requires IsSquare(m)
    ensures forall i, j :: 0 <= i < |m| && 0 <= j < |m| ==> AllPairs(m)[i][j] <= m[i][j]
  {
    RoundsNonIncreasing(m, |m|);
  }

  /** The arithmetic of one triple (i, j, p) in round k, with d the matrix
      before the round and the r-values after it. */
  lemma TriangleStep(dij: real, dip: real, dpj: real, dik: real, dkj: real, dkp: real, dpk: real,
                     rij: real, rip: real, rpj: real)
    requires 0.0 <= dip && 0.0 <= dpj && 0.0 <= dik && 0.0 <= dkj && 0.0 <= dkp && 0.0 <= dpk
    requires rij <= dij && rij <= dik + dkj
    requires dij <= dip + dpj && dkj <= dkp + dpj && dik <= dip + dpk
    requires rip == dip || rip == dik + dkp
    requires rpj == dpj || rpj == dpk + dkj
    ensures rij <= rip + rpj
  {
  }

  /** Round k extends the triangle inequality to routes through k. */
  lemma RoundTriangle(d: Matrix, k: nat)
    requires Bounded(d) && k < |d| && TriangleUpTo(d, k)
    ensures Bounded(Round(d, k)) && TriangleUpTo(Round(d, k), k + 1)
  {
    var r := Round(d, k);
    var n := |d|;
    RoundFixesPivot(d, k);
    assert Bounded(r);
    forall x, y | 0 <= x < n && 0 <= y < n ensures r[x][y] <= d[x][k] + d[k][y] {
      if d[x][k] == INF || d[k][y] == INF {
        assert r[x][y] <= d[x][y] <= INF;
      }
    }
    forall i, j, p | 0 <= i < n && 0 <= j < n && 0 <= p < k + 1 && p < n
      ensures NoShortcut(r, i, j, p)
    {
      if p < k {
        assert NoShortcut(d, i, j, p) && NoShortcut(d, k, j, p) && NoShortcut(d, i, k, p);
        TriangleStep(d[i][j], d[i][p], d[p][j], d[i][k], d[k][j], d[k][p], d[p][k],
                     r[i][j], r[i][p], r[p][j]);
      }
    }
  }

  lemma {:induction false} RoundsTriangle(m: Matrix, k: nat)
    requires Bounded(m) && k <= |m|
    ensures Bounded(Rounds(m, k)) && TriangleUpTo(Rounds(m, k), k)
  {
    if k > 0 {
      RoundsTriangle(m, k - 1);
      RoundTriangle(Rounds(m, k - 1), k - 1);
    }
  }

  /** With weights in [0, INF], the result satisfies the triangle inequality
      for every triple and stays within [0, INF]. */
  lemma AllPairsTriangle(m: Matrix)
    requires Bounded(m)
    ensures Bounded(AllPairs(m))
    ensures forall i, j, p :: 0 <= i < |m| && 0 <= j < |m| && 0 <= p < |m| ==>
              AllPairs(m)[i][j] <= AllPairs(m)[i][p] + AllPairs(m)[p][j]
  {
    RoundsTriangle(m, |m|);
    var r := AllPairs(m);
    forall i, j, p | 0 <= i < |m| && 0 <= j < |m| && 0 <= p < |m| ensures r[i][j] <= r[i][p] + r[p][j] {
      assert NoShortcut(r, i, j, p);
    }
  }

  lemma {:induction false} RoundsZeroDiagonal(m: Matrix, k: nat)
    requires NonNegative(m) && ZeroDiagonal(m) && k <= |m|
    ensures NonNegative(Rounds(m, k)) && ZeroDiagonal(Rounds(m, k))
  {
    if k > 0 {
      RoundsZeroDiagonal(m, k - 1);
      RoundKeepsNonNegative(Rounds(m, k - 1), k - 1);
    }
  }

  /** Distance from a language to itself stays 0. */
  lemma AllPairsZeroDiagonal(m: Matrix)
    requires NonNegative(m) && ZeroDiagonal(m)
    ensures ZeroDiagonal(AllPairs(m))
  {
    RoundsZeroDiagonal(m, |m|);
  }

  lemma {:induction false} RoundsSymmetric(m: Matrix, k: nat)
    requires Symmetric(m) && k <= |m|
    ensures Symmetric(Rounds(m, k))
  {
    if k > 0 {
      RoundsSymmetric(m, k - 1);
    }
  }

  /** A symmetric graph gives a symmetric distance matrix. */
  lemma AllPairsSymmetric(m: Matrix)
    requires Symmetric(m)
    ensures Symmetric(AllPairs(m))
  {
    RoundsSymmetric(m, |m|);
  }

  lemma {:induction false} RoundsOfRelaxed(m: Matrix, k: nat)
    requires Bounded(m) && TriangleUpTo(m, |m|) && k <= |m|
    ensures Rounds(m, k) == m
  {
    if k > 0 {
      RoundsOfRelaxed(m, k - 1);
      var r := Round(m, k - 1);
      forall i | 0 <= i < |m| ensures r[i] == m[i] {
        forall j | 0 <= j < |m| ensures r[i][j] == m[i][j] {
          assert NoShortcut(m, i, j, k - 1);
        }
      }
    }
  }

  /** Running the relaxation again on its own result changes nothing. */
  lemma AllPairsIdempotent(m: Matrix)
    requires Bounded(m)
    ensures AllPairs(AllPairs(m)) == AllPairs(m)
  {
    AllPairsTriangle(m);
    RoundsOfRelaxed(AllPairs(m), |m|);
  }

  // ---------------------------------------------------------------------
  // Entries as route weights

  /** A route from i to j over the nodes of m, with at least one edge. */
  predicate IsPath(m: Matrix, p: seq<nat>, i: nat, j: nat) {
    |p| >= 2 && p[0] == i && p[|p| - 1] == j && forall t :: 0 <= t < |p| ==> p[t] < |m|
  }

  /** The sum of the edge weights along p; a missing edge counts as INF. */
  function PathWeight(m: Matrix, p: seq<nat>): real
    requires IsSquare(m) && forall t :: 0 <= t < |p| ==> p[t] < |m|
  {
    if |p| < 2 then 0.0 else m[p[0]][p[1]] + PathWeight(m, p[1..])
  }

  /** Joining a route that ends where a second one starts adds the weights. */
  lemma {:induction false} PathWeightJoin(m: Matrix, p: seq<nat>, q: seq<nat>)
    requires IsSquare(m) && |p| >= 1 && |q| >= 1 && p[|p| - 1] == q[0]
    requires forall t :: 0 <= t < |p| ==> p[t] < |m|
    requires forall t :: 0 <= t < |q| ==> q[t] < |m|
    ensures forall t :: 0 <= t < |p + q[1..]| ==> (p + q[1..])[t] < |m|
    ensures PathWeight(m, p + q[1..]) == PathWeight(m, p) + PathWeight(m, q)
    decreases |p|
  {
    if |p| == 1 {
      assert p + q[1..] == q;
    } else {
      PathWeightJoin(m, p[1..], q);
      assert (p + q[1..])[1..] == p[1..] + q[1..];
    }
  }

  /** Two routes that meet at node k join into a route from i to j. */
  lemma JoinWeight(m: Matrix, a: seq<nat>, b: seq<nat>, i: nat, k: nat, j: nat)
    requires IsSquare(m) && IsPath(m, a, i, k) && IsPath(m, b, k, j)
    ensures IsPath(m, a + b[1..], i, j)
    ensures PathWeight(m, a + b[1..]) == PathWeight(m, a) + PathWeight(m, b)
  {
    PathWeightJoin(m, a, b);
  }

  /** Entry (i, j) of round k + 1, from the entries before it. */
  lemma RoundsEntry(m: Matrix, k: nat, i: nat, j: nat)
    requires IsSquare(m) && k < |m| && i < |m| && j < |m|
    ensures Rounds(m, k + 1)[i][j] == Relax(Rounds(m, k)[i][j], Rounds(m, k)[i][k], Rounds(m, k)[k][j])
  {
  }

  /** The route behind entry (i, j) after k rounds, whose weight is that
      entry: the direct edge, or, where round k - 1 took the detour through
      its pivot, the routes to and from the pivot joined. */
  function Route(m: Matrix, k: nat, i: nat, j: nat): (p: seq<nat>)
    requires IsSquare(m) && k <= |m| && i < |m| && j < |m|
    ensures IsPath(m, p, i, j)
    ensures PathWeight(m, p) == Rounds(m, k)[i][j]
  {
    if k == 0 then
      assert PathWeight(m, [i, j]) == m[i][j] + PathWeight(m, [j]);
      [i, j]
    else
      var d := Rounds(m, k - 1);
      RoundsEntry(m, k - 1, i, j);
      if d[i][k - 1] != INF && d[k - 1][j] != INF && d[i][k - 1] + d[k - 1][j] < d[i][j] then
        var a := Route(m, k - 1, i, k - 1);
        var b := Route(m, k - 1, k - 1, j);
        JoinWeight(m, a, b, i, k - 1, j);
        a + b[1..]
      else Route(m, k - 1, i, j)
  }

  /** No route from i to j weighs less than the result's entry (i, j). */
  lemma {:induction false} NoRouteShorter(m: Matrix, p: seq<nat>, i: nat, j: nat)
    requires Bounded(m) && IsPath(m, p, i, j)
    ensures AllPairs(m)[i][j] <= PathWeight(m, p)
    decreases |p|
  {
    AllPairsNonIncreasing(m);
    if |p| == 2 {
      assert PathWeight(m, p) == m[i][j] + PathWeight(m, p[1..]);
    } else {
      NoRouteShorter(m, p[1..], p[1], j);
      AllPairsTriangle(m);
      assert AllPairs(m)[i][j] <= AllPairs(m)[i][p[1]] + AllPairs(m)[p[1]][j];
    }
  }

  /** With weights in [0, INF], every entry of the result is the weight of
      a lightest route between its two nodes, the minimum over all
      routings through intermediate nodes: Route is a route of exactly that
      weight, and no route weighs less. */
  lemma AllPairsShortestPaths(m: Matrix, i: nat, j: nat)
    requires Bounded(m) && i < |m| && j < |m|
    ensures IsPath(m, Route(m, |m|, i, j), i, j)
    ensures PathWeight(m, Route(m, |m|, i, j)) == AllPairs(m)[i][j]
    ensures forall p :: IsPath(m, p, i, j) ==> AllPairs(m)[i][j] <= PathWeight(m, p)
  {
    forall p | IsPath(m, p, i, j) ensures AllPairs(m)[i][j] <= PathWeight(m, p) {
      NoRouteShorter(m, p, i, j);
    }
  }

  // ---------------------------------------------------------------------
  // The literal graph of dynamicScore.py:18-25

  const Graph: Matrix := [
    [0.0, 0.8, 0.9, 1.0, 1.0, 1.0],
    [0.8, 0.0, 0.6, 1.0, 0.4, 0.3],
    [0.9, 0.6, 0.0, 0.2, 0.5, 1.0],
    [1.0, 1.0, 0.2, 0.0, 1.0, 1.0],
    [1.0, 0.4, 0.5, 1.0, 0.0, 1.0],
    [1.0, 0.3, 1.0, 1.0, 1.0, 0.0]
  ]

  /** The graph after the round through node 1 (Latin). */
  const ThroughLatin: Matrix := [
    [0.0, 0.8, 0.9, 1.0, 1.0, 1.0],
    [0.8, 0.0, 0.6, 1.0, 0.4, 0.3],
    [0.9, 0.6, 0.0, 0.2, 0.5, 0.9],
    [1.0, 1.0, 0.2, 0.0, 1.0, 1.0],
    [1.0, 0.4, 0.5, 1.0, 0.0, 0.7],
    [1.0, 0.3, 0.9, 1.0, 0.7, 0.0]
  ]

  /** The graph after the round through node 2 (Old English); later rounds
      change nothing. */
  const Distances: Matrix := [
    [0.0, 0.8, 0.9, 1.0, 1.0, 1.0],
    [0.8, 0.0, 0.6, 0.8, 0.4, 0.3],
    [0.9, 0.6, 0.0, 0.2, 0.5, 0.9],
    [1.0, 0.8, 0.2, 0.0, 0.7, 1.0],
    [1.0, 0.4, 0.5, 0.7, 0.0, 0.7],
    [1.0, 0.3, 0.9, 1.0, 0.7, 0.0]
  ]

  lemma RoundIs(m: Matrix, k: nat, e: Matrix)
    requires IsSquare(m) && k < |m| && |e| == |m| && IsSquare(e)
    requires forall i, j :: 0 <= i < |m| && 0 <= j < |m| ==> Relax(m[i][j], m[i][k], m[k][j]) == e[i][j]
    ensures Round(m, k) == e
  {
    var r := Round(m, k);
    forall i | 0 <= i < |m| ensures r[i] == e[i] {
      assert |r[i]| == |e[i]|;
    }
  }

  lemma GraphShape()
    ensures Bounded(Graph) && ZeroDiagonal(Graph) && Symmetric(Graph)
  {
  }

  lemma RoundThroughBrittonic()
    ensures Round(Graph, 0) == Graph
  {
    RoundIs(Graph, 0, Graph);
  }

  lemma RoundThroughLatin()
    ensures Round(Graph, 1) == ThroughLatin
  {
    RoundIs(Graph, 1, ThroughLatin);
  }

  lemma RoundThroughOldEnglish()
    ensures Round(ThroughLatin, 2) == Distances
  {
    RoundIs(ThroughLatin, 2, Distances);
  }

  /** Rounds 3 to 5 find no shorter route. */
  lemma LaterRoundsFixed(k: nat)
    requires 3 <= k < 6
    ensures Round(Distances, k) == Distances
  {
    RoundIs(Distances, k, Distances);
  }

  /** The shortest paths of the literal graph: entry [3][4] (Old Norse to
      Middle French) relaxes from 1 to 0.2 + 0.5 = 0.7 through Old English,
      while [0][3] (Brittonic to Old Norse) stays 1 because 0.9 + 0.2 > 1. */
  lemma LiteralGraphDistances()
    ensures Bounded(Graph) && ZeroDiagonal(Graph) && Symmetric(Graph)
    ensures AllPairs(Graph) == Distances
    ensures AllPairs(Graph)[3][4] == 0.7 && AllPairs(Graph)[0][3] == 1.0
  {
    GraphShape();
    RoundThroughBrittonic();
    assert Rounds(Graph, 1) == Graph;
    RoundThroughLatin();
    assert Rounds(Graph, 2) == ThroughLatin;
    RoundThroughOldEnglish();
    assert Rounds(Graph, 3) == Distances;
    LaterRoundsFixed(3);
    assert Rounds(Graph, 4) == Distances;
    LaterRoundsFixed(4);
    assert Rounds(Graph, 5) == Distances;
    LaterRoundsFixed(5);
    assert Rounds(Graph, 6) == Distances;
  }

  /** Each entry of Distances is the weight of the lightest route between
      the two languages in the literal graph. */
  lemma LiteralShortestPaths(i: nat, j: nat)
    requires i < 6 && j < 6
    ensures AllPairs(Graph) == Distances
    ensures IsPath(Graph, Route(Graph, 6, i, j), i, j)
    ensures PathWeight(Graph, Route(Graph, 6, i, j)) == Distances[i][j]
    ensures forall p :: IsPath(Graph, p, i, j) ==> Distances[i][j] <= PathWeight(Graph, p)
  {
    LiteralGraphDistances();
    AllPairsShortestPaths(Graph, i, j);
  }

  // ---------------------------------------------------------------------
  // Graded credit and the scoring loop (dynamicScore.py:27-36)

  const Languages: seq<string> := ["Brittonic", "Latin", "Old English", "Old Norse", "Middle French", "Greek"]

  /** Python's names.index(name), None standing for the ValueError. */
  function IndexIn(names: seq<string>, name: string): (r: Option<nat>)
    ensures r.None? <==> name !in names
    ensures r.Some? ==> r.value < |names| && names[r.value] == name && name !in names[..r.value]
  {
    if |names| == 0 then None
    else if names[0] == name then Some(0)
    else
      match IndexIn(names[1..], name)
      case None => None
      case Some(k) =>
        assert names[1..][..k] == names[1..k + 1];
        Some(k + 1)
  }

  /** max(1 - d, 0): full credit at distance 0, none from distance 1 on. */
  function Credit(d: real): (c: real)
    ensures 0.0 <= c
    ensures 0.0 <= d ==> c <= 1.0
    ensures c == 1.0 <==> d == 0.0
    ensures c == 0.0 <==> d >= 1.0
  {
    if 0.0 > 1.0 - d then 0.0 else 1.0 - d
  }

  /** Credit never grows with distance. */
  lemma CreditMonotone(d1: real, d2: real)
    requires d1 <= d2
    ensures Credit(d2) <= Credit(d1)
  {
  }

  /** One row of rawResult.xlsx: the estimated closest language and the
      actual etymology. */
  datatype Row = Row(predicted: string, actual: string)

  /** The ValueError of languages.index (row and name), or the
      ZeroDivisionError of the percentage on an empty table. */
  datatype ScoreError = UnknownLabel(row: nat, name: string) | EmptyTable

  datatype Report = Report(score: real, percentage: real)

  predicate Known(langs: seq<string>, row: Row) {
    row.predicted in langs && row.actual in langs
  }

  /** The credit of row n (line 31-33); the predicted name is looked up first. */
  function RowCredit(dis: Matrix, langs: seq<string>, row: Row, n: nat): Result<real, ScoreError>
    requires IsSquare(dis) && |dis| == |langs|
  {
    match IndexIn(langs, row.predicted)
    case None => Failure(UnknownLabel(n, row.predicted))
    case Some(a) =>
      match IndexIn(langs, row.actual)
      case None => Failure(UnknownLabel(n, row.actual))
      case Some(b) => Success(Credit(dis[a][b]))
  }

  /** The running sum over rows[..], stopping at the first failing row. */
  function Tally(dis: Matrix, langs: seq<string>, rows: seq<Row>): Result<real, ScoreError>
    requires IsSquare(dis) && |dis| == |langs|
  {
    if |rows| == 0 then Success(0.0)
    else
      match Tally(dis, langs, rows[..|rows| - 1])
      case Failure(e) => Failure(e)
      case Success(s) =>
        match RowCredit(dis, langs, rows[|rows| - 1], |rows| - 1)
        case Failure(e) => Failure(e)
        case Success(c) => Success(s + c)
  }

  /** The two printed figures, the sum and the sum divided by the row count. */
  function Score(dis: Matrix, langs: seq<string>, rows: seq<Row>): Result<Report, ScoreError>
    requires IsSquare(dis) && |dis| == |langs|
  {
    match Tally(dis, langs, rows)
    case Failure(e) => Failure(e)
    case Success(s) =>
      if |rows| == 0 then Failure(EmptyTable) else Success(Report(s, s / |rows| as real))
  }

  /** dynamicScore.py:28-36: the accumulation loop. */
  method ScoreRows(dis: array2<real>, langs: seq<string>, rows: seq<Row>) returns (res: Result<Report, ScoreError>)
    requires dis.Length0 == dis.Length1 == |langs|
    ensures res == Score(Snapshot(dis), langs, rows)
  {
    ghost var m := Snapshot(dis);
    var sum := 0.0;
    for i := 0 to |rows|
      invariant Tally(m, langs, rows[..i]) == Success(sum)
    {
      assert rows[..i + 1][..i] == rows[..i];
      var a := IndexIn(langs, rows[i].predicted);
      if a.None? {
        res := Failure(UnknownLabel(i, rows[i].predicted));
        TallyStops(m, langs, rows, i + 1);
        return;
      }
      var b := IndexIn(langs, rows[i].actual);
      if b.None? {
        res := Failure(UnknownLabel(i, rows[i].actual));
        TallyStops(m, langs, rows, i + 1);
        return;
      }
      sum := sum + Credit(dis[a.value, b.value]);
    }
    assert rows[..|rows|] == rows;
    if |rows| == 0 {
      return Failure(EmptyTable);
    }
    res := Success(Report(sum, sum / |rows| as real));
  }

  /** Once a prefix fails, the whole table fails the same way. */
  lemma {:induction false} TallyStops(dis: Matrix, langs: seq<string>, rows: seq<Row>, n: nat)
    requires IsSquare(dis) && |dis| == |langs| && n <= |rows|
    requires Tally(dis, langs, rows[..n]).Failure?
    ensures Tally(dis, langs, rows) == Tally(dis, langs, rows[..n])
    decreases |rows|
  {
    if n < |rows| {
      assert rows[..|rows| - 1][..n] == rows[..n];
      TallyStops(dis, langs, rows[..|rows| - 1], n);
    } else {
      assert rows[..n] == rows;
    }
  }

  /** A row fails exactly when one of its labels is unknown, naming the
      predicted label when that one is. */
  lemma RowCreditFailure(dis: Matrix, langs: seq<string>, row: Row, n: nat)
    requires IsSquare(dis) && |dis| == |langs|
    ensures RowCredit(dis, langs, row, n).Failure? <==> !Known(langs, row)
    ensures RowCredit(dis, langs, row, n).Failure? ==>
              RowCredit(dis, langs, row, n).error ==
                UnknownLabel(n, if row.predicted !in langs then row.predicted else row.actual)
  {
  }

  /** The table fails exactly when some row has a label outside Languages,
      and the failure names the first such row and, in it, the predicted
      label if that one is unknown. */
  lemma {:induction false} TallyFailure(dis: Matrix, langs: seq<string>, rows: seq<Row>)
    requires IsSquare(dis) && |dis| == |langs|
    ensures Tally(dis, langs, rows).Success? <==> forall k :: 0 <= k < |rows| ==> Known(langs, rows[k])
    ensures Tally(dis, langs, rows).Failure? ==>
              var e := Tally(dis, langs, rows).error;
              e.UnknownLabel? && e.row < |rows| && !Known(langs, rows[e.row]) &&
              (forall k :: 0 <= k < e.row ==> Known(langs, rows[k])) &&
              e.name == (if rows[e.row].predicted !in langs then rows[e.row].predicted else rows[e.row].actual)
  {
    if |rows| > 0 {
      var n := |rows| - 1;
      var init := rows[..n];
      TallyFailure(dis, langs, init);
      RowCreditFailure(dis, langs, rows[n], n);
      assert forall k :: 0 <= k < n ==> init[k] == rows[k];
    }
  }

  /** 0 <= s / n <= 1 when 0 <= s <= n. */
  lemma FractionBounds(s: real, n: real)
    requires 0.0 <= s <= n && 0.0 < n
    ensures 0.0 <= s / n <= 1.0
  {
    var q := s / n;
    assert q * n == s;
  }

  /** With non-negative distances the sum lies in [0, number of rows]. */
  lemma {:induction false} TallyBounds(dis: Matrix, langs: seq<string>, rows: seq<Row>)
    requires NonNegative(dis) && |dis| == |langs|
    ensures Tally(dis, langs, rows).Success? ==> 0.0 <= Tally(dis, langs, rows).value <= |rows| as real
  {
    if |rows| > 0 {
      TallyBounds(dis, langs, rows[..|rows| - 1]);
    }
  }

  /** The score lies in [0, number of rows] and the percentage in [0, 1];
      an empty table has none. */
  lemma ScoreBounds(dis: Matrix, langs: seq<string>, rows: seq<Row>)
    requires NonNegative(dis) && |dis| == |langs|
    ensures rows == [] ==> Score(dis, langs, rows) == Failure(EmptyTable)
    ensures Score(dis, langs, rows).Success? ==>
              0.0 <= Score(dis, langs, rows).value.score <= |rows| as real &&
              0.0 <= Score(dis, langs, rows).value.percentage <= 1.0
  {
    TallyBounds(dis, langs, rows);
    if Score(dis, langs, rows).Success? {
      FractionBounds(Tally(dis, langs, rows).value, |rows| as real);
    }
  }

  /** When every prediction is right, every row earns full credit. */
  lemma {:induction false} PerfectTally(dis: Matrix, langs: seq<string>, rows: seq<Row>)
    requires ZeroDiagonal(dis) && |dis| == |langs|
    requires forall k :: 0 <= k < |rows| ==> Known(langs, rows[k]) && rows[k].predicted == rows[k].actual
    ensures Tally(dis, langs, rows) == Success(|rows| as real)
  {
    if |rows| > 0 {
      var n := |rows| - 1;
      PerfectTally(dis, langs, rows[..n]);
      var a := IndexIn(langs, rows[n].predicted);
      assert RowCredit(dis, langs, rows[n], n) == Success(Credit(dis[a.value][a.value]));
    }
  }

  lemma PerfectScore(dis: Matrix, langs: seq<string>, rows: seq<Row>)
    requires ZeroDiagonal(dis) && |dis| == |langs| && rows != []
    requires forall k :: 0 <= k < |rows| ==> Known(langs, rows[k]) && rows[k].predicted == rows[k].actual
    ensures Score(dis, langs, rows) == Success(Report(|rows| as real, 1.0))
  {
    PerfectTally(dis, langs, rows);
    var n := |rows| as real;
    assert Score(dis, langs, rows) == Success(Report(n, n / n));
    SelfQuotient(n);
  }

  lemma SelfQuotient(n: real)
    requires n > 0.0
    ensures n / n == 1.0
  {
  }

  /** main.py labels the Welsh column "Brythonic"; this list spells it
      "Brittonic", so such a row fails with the ValueError. */
  lemma BrythonicIsUnknown(dis: Matrix)
    requires IsSquare(dis) && |dis| == |Languages|
    ensures Score(dis, Languages, [Row("Brythonic", "Latin")]) == Failure(UnknownLabel(0, "Brythonic"))
  {
    var rows := [Row("Brythonic", "Latin")];
    assert "Brythonic"[2] != "Brittonic"[2];
    assert "Brythonic" !in Languages;
    assert rows[..|rows| - 1] == [];
    RowCreditFailure(dis, Languages, rows[0], 0);
    assert RowCredit(dis, Languages, rows[0], 0) == Failure(UnknownLabel(0, "Brythonic"));
    assert Tally(dis, Languages, rows) == Failure(UnknownLabel(0, "Brythonic"));
  }

  /** The script as a whole: the literal graph is relaxed in place and the
      rows are scored against the result. */
  method Run(rows: seq<Row>) returns (res: Result<Report, ScoreError>)
    ensures res == Score(AllPairs(Graph), Languages, rows)
  {
    var dist := LoadGraph();
    GraphShape();
    var dis := FloydWarshall(dist);
    res := ScoreRows(dis, Languages, rows);
  }

  /** The literal graph of dynamicScore.py:18-25 as a fresh 6 x 6 array. */
  method LoadGraph() returns (dist: array2<real>)
    ensures fresh(dist) && dist.Length0 == dist.Length1 == 6
    ensures Snapshot(dist) == Graph
  {
    dist := new real[6, 6]((i, j) requires 0 <= i < 6 && 0 <= j < 6 => Graph[i][j]);
    SnapshotIs(dist, Graph);
  }
}
