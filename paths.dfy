/** Hop distances in an adjacency matrix, defined independently of any
    search: the reference against which breadth-first search and the
    shortest-path vector are proved. An edge from v to w is an entry
    `a[v][w] == 1`, the test breadth-first search applies. */
module Paths {
  import opened Matrices

  /** A hop count, or `inf` for a node that cannot be reached. */
  datatype Distance = Finite(hops: nat) | Infinite

  /** w can be reached from s in at most k hops. */
  ghost predicate InBall(a: Matrix, s: nat, w: nat, k: nat)
    requires IsSquare(a)
    decreases k
  {
    if k == 0 then w == s
    else
      InBall(a, s, w, k - 1) ||
      (w < |a| && exists v: nat :: v < |a| && InBall(a, s, v, k - 1) && a[v][w] == 1)
  }

  ghost predicate Reachable(a: Matrix, s: nat, w: nat)
    requires IsSquare(a)
  {
    exists k: nat :: InBall(a, s, w, k)
  }

  /** The shortest path from s to w has exactly d hops. */
  ghost predicate AtDistance(a: Matrix, s: nat, w: nat, d: nat)
    requires IsSquare(a)
  {
    InBall(a, s, w, d) && (d == 0 || !InBall(a, s, w, d - 1))
  }

  /** The shortest-path length from s to w, `Infinite` when there is none. */
  ghost function DistanceTo(a: Matrix, s: nat, w: nat): (d: Distance)
    requires IsSquare(a)
  {
    if exists d: nat :: AtDistance(a, s, w, d) then
      var d: nat :| AtDistance(a, s, w, d); Finite(d)
    else
      Infinite
  }

  lemma {:induction false} BallMonotone(a: Matrix, s: nat, w: nat, j: nat, k: nat)
    requires IsSquare(a) && j <= k && InBall(a, s, w, j)
    ensures InBall(a, s, w, k)
  {
    if j < k {
      BallMonotone(a, s, w, j, k - 1);
    }
  }

  lemma {:induction false} BallStep(a: Matrix, s: nat, v: nat, w: nat, k: nat)
    requires IsSquare(a) && v < |a| && w < |a| && a[v][w] == 1 && InBall(a, s, v, k)
    ensures InBall(a, s, w, k + 1)
  {
  }

  /** Every node within reach of a valid source is a valid index. */
  lemma {:induction false} BallInRange(a: Matrix, s: nat, w: nat, k: nat)
    requires IsSquare(a) && s < |a| && InBall(a, s, w, k)
    ensures w < |a|
  {
    if k > 0 && InBall(a, s, w, k - 1) {
      BallInRange(a, s, w, k - 1);
    }
  }

  /** The shortest-path length is unique. */
  lemma {:induction false} DistanceUnique(a: Matrix, s: nat, w: nat, d1: nat, d2: nat)
    requires IsSquare(a) && AtDistance(a, s, w, d1) && AtDistance(a, s, w, d2)
    ensures d1 == d2
  {
    if d1 < d2 {
      BallMonotone(a, s, w, d1, d2 - 1);
    } else if d2 < d1 {
      BallMonotone(a, s, w, d2, d1 - 1);
    }
  }

  /** A node within k hops has a shortest-path length of at most k. */
  lemma {:induction false} BallHasDistance(a: Matrix, s: nat, w: nat, k: nat)
    requires IsSquare(a) && InBall(a, s, w, k)
    ensures exists d: nat :: d <= k && AtDistance(a, s, w, d)
  {
    if k == 0 {
      assert AtDistance(a, s, w, 0);
    } else if InBall(a, s, w, k - 1) {
      BallHasDistance(a, s, w, k - 1);
    } else {
      assert AtDistance(a, s, w, k);
    }
  }

  /** `DistanceTo` agrees with `AtDistance`, and is infinite exactly for the
      nodes that cannot be reached. */
  lemma {:induction false} DistanceToMeaning(a: Matrix, s: nat, w: nat)
    requires IsSquare(a)
    ensures forall d: nat :: DistanceTo(a, s, w) == Finite(d) <==> AtDistance(a, s, w, d)
    ensures DistanceTo(a, s, w) == Infinite <==> !Reachable(a, s, w)
  {
    if exists d: nat :: AtDistance(a, s, w, d) {
      var r := DistanceTo(a, s, w);
      assert r.Finite? && AtDistance(a, s, w, r.hops);
      forall d': nat | AtDistance(a, s, w, d')
        ensures d' == r.hops
      {
        DistanceUnique(a, s, w, r.hops, d');
      }
    } else {
      if Reachable(a, s, w) {
        var k: nat :| InBall(a, s, w, k);
        BallHasDistance(a, s, w, k);
      }
    }
  }

  /** Only the source is at distance 0. */
  lemma {:induction false} DistanceZero(a: Matrix, s: nat, w: nat)
    requires IsSquare(a)
    ensures DistanceTo(a, s, w) == Finite(0) <==> w == s
  {
    DistanceToMeaning(a, s, w);
    if w == s {
      assert AtDistance(a, s, w, 0);
    }
  }

  /** Walking from s to v and then from v to w reaches w from s. */
  lemma {:induction false} BallTransitive(a: Matrix, s: nat, v: nat, w: nat, j: nat, k: nat)
    requires IsSquare(a) && InBall(a, s, v, j) && InBall(a, v, w, k)
    ensures InBall(a, s, w, j + k)
    decreases k
  {
    if k > 0 {
      if InBall(a, v, w, k - 1) {
        BallTransitive(a, s, v, w, j, k - 1);
        BallMonotone(a, s, w, j + k - 1, j + k);
      } else {
        var x: nat :| x < |a| && InBall(a, v, x, k - 1) && a[x][w] == 1;
        BallTransitive(a, s, v, x, j, k - 1);
        BallStep(a, s, x, w, j + k - 1);
      }
    }
  }

  /** In a symmetric matrix every walk can be walked backwards. */
  lemma {:induction false} BallSymmetric(a: Matrix, s: nat, w: nat, k: nat)
    requires IsSymmetric(a) && s < |a| && InBall(a, s, w, k)
    ensures InBall(a, w, s, k)
    decreases k
  {
    if k > 0 {
      if InBall(a, s, w, k - 1) {
        BallSymmetric(a, s, w, k - 1);
        BallMonotone(a, w, s, k - 1, k);
      } else {
        var v: nat :| v < |a| && InBall(a, s, v, k - 1) && a[v][w] == 1;
        BallSymmetric(a, s, v, k - 1);
        assert a[w][v] == 1;
        assert InBall(a, w, w, 0);
        BallStep(a, w, w, v, 0);
        BallTransitive(a, w, v, s, 1, k - 1);
      }
    }
  }

  lemma {:induction false} ReachableTransitive(a: Matrix, s: nat, v: nat, w: nat)
    requires IsSquare(a) && Reachable(a, s, v) && Reachable(a, v, w)
    ensures Reachable(a, s, w)
  {
    var j: nat :| InBall(a, s, v, j);
    var k: nat :| InBall(a, v, w, k);
    BallTransitive(a, s, v, w, j, k);
  }

  lemma {:induction false} ReachableSymmetric(a: Matrix, s: nat, w: nat)
    requires IsSymmetric(a) && s < |a| && Reachable(a, s, w)
    ensures Reachable(a, w, s)
  {
    var k: nat :| InBall(a, s, w, k);
    BallSymmetric(a, s, w, k);
  }

  lemma {:induction false} ReachableSelf(a: Matrix, s: nat)
    requires IsSquare(a)
    ensures Reachable(a, s, s)
  {
    assert InBall(a, s, s, 0);
  }

  lemma {:induction false} ReachableInRange(a: Matrix, s: nat, w: nat)
    requires IsSquare(a) && s < |a| && Reachable(a, s, w)
    ensures w < |a|
  {
    var k: nat :| InBall(a, s, w, k);
    BallInRange(a, s, w, k);
  }
}
