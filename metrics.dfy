/** Distance and clustering routines of project/our_functions.py: the
    shortest-path vector from one source, the diameter over the nodes that
    have edges, and the clustering coefficient of a node. */
module Metrics {
  import opened Matrices
  import opened Paths
  import opened Bfs
  import opened Connectivity

  /** What the layering of a search says about one node: the layer holding
      it is its distance, and a node in no layer cannot be reached. */
  lemma {:induction false} LayerGivesDistance(a: Matrix, s: nat, layers: seq<set<nat>>, w: nat)
    requires IsSquare(a) && s < |a| && IsLayering(a, s, layers)
    ensures forall d :: 0 <= d < |layers| && w in layers[d] ==> DistanceTo(a, s, w) == Finite(d)
    ensures (forall d :: 0 <= d < |layers| ==> w !in layers[d]) ==> DistanceTo(a, s, w) == Infinite
  {
    DistanceToMeaning(a, s, w);
    UnionMember(layers, w);
  }

  /** `compute_shortest_path_lengths`: start from a vector of -1, write for
      every node the index of the layer that holds it, then read the
      remaining -1 entries as infinite. Entry w is the shortest-path length
      from `source` to w, and the source is at distance 0. */
  method ShortestPathLengths(a: Matrix, source: nat) returns (r: seq<Distance>)
    requires IsSquare(a) && source < |a|
    ensures |r| == |a|
    ensures forall w :: 0 <= w < |a| ==> r[w] == DistanceTo(a, source, w)
    ensures r[source] == Finite(0)
  {
    var lengths := new int[|a|](_ => -1);
    var layers := BreadthFirstSearch(a, source);
    for node := 0 to |a|
      invariant forall w :: 0 <= w < node ==>
                  lengths[w] == if DistanceTo(a, source, w).Finite? then DistanceTo(a, source, w).hops else -1
      invariant forall w :: node <= w < |a| ==> lengths[w] == -1
    {
      ghost var before := lengths[..];
      for n := 0 to |layers|
        invariant forall w :: 0 <= w < |a| && w != node ==> lengths[w] == before[w]
        invariant lengths[node] == -1 || (0 <= lengths[node] < n && node in layers[lengths[node]])
        invariant lengths[node] == -1 ==> forall d :: 0 <= d < n ==> node !in layers[d]
      {
        if node in layers[n] {
          // the layer index is the hop distance
          lengths[node] := n;
        }
      }
      LayerGivesDistance(a, source, layers, node);
    }
    // every entry is now -1 or a hop count
    r := seq(|a|, w requires 0 <= w < |a| reads lengths =>
      if lengths[w] < 0 then Infinite else Finite(lengths[w]));
    DistanceZero(a, source, source);
  }

  /** The finite entries of a distance vector, in order (the source's
      filter `lengths != inf`). */
  function FiniteHops(ds: seq<Distance>): (r: seq<nat>)
    ensures forall x :: x in r <==> Finite(x) in ds
  {
    if ds == [] then []
    else
      var rest := FiniteHops(ds[..|ds| - 1]);
      assert ds == ds[..|ds| - 1] + [ds[|ds| - 1]];
      match ds[|ds| - 1]
      case Finite(h) => rest + [h]
      case Infinite => rest
  }

  /** Python's `max` of a nonempty list. */
  function MaxNat(xs: seq<nat>): (m: nat)
    requires xs != []
    ensures m in xs
    ensures forall x :: x in xs ==> x <= m
  {
    if |xs| == 1 then xs[0]
    else
      var rest := MaxNat(xs[1..]);
      assert xs == [xs[0]] + xs[1..];
      if xs[0] > rest then xs[0] else rest
  }

  /** `compute_diameter`: over every node whose row sums to more than 0,
      take the largest finite distance from it, and keep the largest of
      these, starting from 0. The diameter bounds every finite distance
      from such a node and, unless it is 0, is one of them. */
  method Diameter(a: Matrix) returns (diameter: nat)
    requires IsSquare(a)
    ensures forall s, w :: (0 <= s < |a| && 0 <= w < |a| && RowSum(a[s]) > 0 &&
                            DistanceTo(a, s, w).Finite?) ==> DistanceTo(a, s, w).hops <= diameter
    ensures diameter == 0 || exists s, w :: (0 <= s < |a| && 0 <= w < |a| && RowSum(a[s]) > 0 &&
                                             DistanceTo(a, s, w) == Finite(diameter))
  {
    diameter := 0;
    // the nodes of `np.where(np.sum(adjacency, axis=1) > 0)`, in order
    for node := 0 to |a|
      invariant forall s, w :: (0 <= s < node && 0 <= w < |a| && RowSum(a[s]) > 0 &&
                                DistanceTo(a, s, w).Finite?) ==> DistanceTo(a, s, w).hops <= diameter
      invariant diameter == 0 || exists s, w :: (0 <= s < node && 0 <= w < |a| && RowSum(a[s]) > 0 &&
                                                 DistanceTo(a, s, w) == Finite(diameter))
    {
      if RowSum(a[node]) > 0 {
        var maxS := Eccentricity(a, node);
        if maxS > diameter {
          diameter := maxS;
        }
      }
    }
  }

  /** The largest finite distance from `node`, `max(lengths[lengths !=
      inf])`: it bounds every finite distance from the node and is one of
      them. */
  method Eccentricity(a: Matrix, node: nat) returns (maxS: nat)
    requires IsSquare(a) && node < |a|
    ensures forall w :: 0 <= w < |a| && DistanceTo(a, node, w).Finite? ==>
              DistanceTo(a, node, w).hops <= maxS
    ensures exists w :: 0 <= w < |a| && DistanceTo(a, node, w) == Finite(maxS)
  {
    var lengths := ShortestPathLengths(a, node);
    var finite := FiniteHops(lengths);
    maxS := MaxNat(finite);
    forall w | 0 <= w < |a| && DistanceTo(a, node, w).Finite?
      ensures DistanceTo(a, node, w).hops <= maxS
    {
      assert lengths[w] == Finite(DistanceTo(a, node, w).hops);
    }
    ghost var i :| 0 <= i < |lengths| && lengths[i] == Finite(maxS);
  }

  /** The nodes with a nonzero entry in column `node`, in increasing order
      (numpy's `nonzero` of that column). */
  function ColumnSupport(a: Matrix, node: nat, n: nat): (r: seq<nat>)
    requires IsSquare(a) && node < |a| && n <= |a|
    ensures forall i :: 0 <= i < |r| ==> r[i] < n && a[r[i]][node] != 0
    ensures forall x: nat :: x < n && a[x][node] != 0 ==> x in r
    ensures forall i, j :: 0 <= i < j < |r| ==> r[i] < r[j]
  {
    if n == 0 then []
    else if a[n - 1][node] != 0 then ColumnSupport(a, node, n - 1) + [n - 1]
    else ColumnSupport(a, node, n - 1)
  }

  /** The sum of the entries `a[x][y]` over `y` in `ns`. */
  function RowOver(a: Matrix, x: nat, ns: seq<nat>): (sum: int)
    requires IsSquare(a) && x < |a| && forall i :: 0 <= i < |ns| ==> ns[i] < |a|
  {
    if ns == [] then 0 else RowOver(a, x, ns[..|ns| - 1]) + a[x][ns[|ns| - 1]]
  }

  /** The sum of the submatrix on rows and columns `ns` (numpy's `np.sum` of
      the `np.take` of both axes). */
  function BlockSum(a: Matrix, rows: seq<nat>, ns: seq<nat>): (sum: int)
    requires IsSquare(a)
    requires forall i :: 0 <= i < |rows| ==> rows[i] < |a|
    requires forall i :: 0 <= i < |ns| ==> ns[i] < |a|
  {
    if rows == [] then 0 else BlockSum(a, rows[..|rows| - 1], ns) + RowOver(a, rows[|rows| - 1], ns)
  }

  /** `compute_clustering_coefficient`: with k the number of neighbours
      (nonzero entries of the node's column), 0 when k < 2, and otherwise
      2L / (k(k-1)) where L is half the sum of the neighbours' submatrix. */
  function ClusteringCoefficient(a: Matrix, node: nat): (c: real)
    requires IsSquare(a) && node < |a|
  {
    var neighbors := ColumnSupport(a, node, |a|);
    var k := |neighbors|;
    if k < 2 then 0.0 else Coefficient(BlockSum(a, neighbors, neighbors), k)
  }

  /** `2 * links / (k * (k - 1))`, the number of links being half the sum
      of the neighbours' submatrix. */
  function Coefficient(sum: int, k: nat): (c: real)
    requires k >= 2
  {
    var links := sum as real / 2.0;
    2.0 * links / ((k * (k - 1)) as real)
  }

  /** A row of a 0/1 matrix without self-loops has at most one 1 per other
      member of a strictly increasing index list. */
  lemma {:induction false} RowOverBound(a: Matrix, x: nat, ns: seq<nat>)
    requires IsGraph(a) && x < |a|
    requires forall i :: 0 <= i < |ns| ==> ns[i] < |a|
    requires forall i, j :: 0 <= i < j < |ns| ==> ns[i] < ns[j]
    ensures 0 <= RowOver(a, x, ns) <= |ns| - (if x in ns then 1 else 0)
  {
    if ns != [] {
      var init := ns[..|ns| - 1];
      RowOverBound(a, x, init);
      assert ns == init + [ns[|ns| - 1]];
      if x == ns[|ns| - 1] {
        assert x !in init;
      }
    }
  }

  /** The neighbours' submatrix of a graph has at most k(k-1) ones. */
  lemma {:induction false} BlockSumBound(a: Matrix, rows: seq<nat>, ns: seq<nat>)
    requires IsGraph(a)
    requires forall i :: 0 <= i < |rows| ==> rows[i] in ns
    requires forall i :: 0 <= i < |ns| ==> ns[i] < |a|
    requires forall i, j :: 0 <= i < j < |ns| ==> ns[i] < ns[j]
    ensures 0 <= BlockSum(a, rows, ns) <= |rows| * (|ns| - 1)
  {
    if rows != [] {
      var k := |ns|;
      BlockSumBound(a, rows[..|rows| - 1], ns);
      RowOverBound(a, rows[|rows| - 1], ns);
      assert |rows| * (k - 1) == (|rows| - 1) * (k - 1) + (k - 1);
    }
  }

  /** In an undirected simple graph the clustering coefficient lies in
      [0, 1]. */
  lemma {:induction false} ClusteringBounds(a: Matrix, node: nat)
    requires IsGraph(a) && node < |a|
    ensures 0.0 <= ClusteringCoefficient(a, node) <= 1.0
  {
    var neighbors := ColumnSupport(a, node, |a|);
    var k := |neighbors|;
    if k >= 2 {
      BlockSumBound(a, neighbors, neighbors);
      CoefficientValue(BlockSum(a, neighbors, neighbors), k);
    }
  }

  /** A row that has a 1 towards every other member of the list. */
  lemma {:induction false} RowOverFull(a: Matrix, x: nat, ns: seq<nat>)
    requires IsGraph(a) && x < |a|
    requires forall i :: 0 <= i < |ns| ==> ns[i] < |a| && (ns[i] != x ==> a[x][ns[i]] == 1)
    requires forall i, j :: 0 <= i < j < |ns| ==> ns[i] < ns[j]
    ensures RowOver(a, x, ns) == |ns| - (if x in ns then 1 else 0)
  {
    if ns != [] {
      var init := ns[..|ns| - 1];
      RowOverFull(a, x, init);
      assert ns == init + [ns[|ns| - 1]];
      if x == ns[|ns| - 1] {
        assert x !in init;
      }
    }
  }

  lemma {:induction false} BlockSumFull(a: Matrix, rows: seq<nat>, ns: seq<nat>)
    requires IsGraph(a)
    requires forall i :: 0 <= i < |rows| ==> rows[i] in ns
    requires forall i :: 0 <= i < |ns| ==> ns[i] < |a|
    requires forall i, j :: 0 <= i < j < |ns| ==> ns[i] < ns[j]
    requires forall i, j :: 0 <= i < |ns| && 0 <= j < |ns| && i != j ==> a[ns[i]][ns[j]] == 1
    ensures BlockSum(a, rows, ns) == |rows| * (|ns| - 1)
  {
    if rows != [] {
      var k := |ns|;
      var x := rows[|rows| - 1];
      BlockSumFull(a, rows[..|rows| - 1], ns);
      forall i | 0 <= i < |ns|
        ensures ns[i] != x ==> a[x][ns[i]] == 1
      {
        var j :| 0 <= j < |ns| && ns[j] == x;
      }
      RowOverFull(a, x, ns);
      assert |rows| * (k - 1) == (|rows| - 1) * (k - 1) + (k - 1);
    }
  }

  /** A node with at least two neighbours, all linked to each other, has
      clustering coefficient 1. */
  lemma {:induction false} ClusteringOfClique(a: Matrix, node: nat)
    requires IsGraph(a) && node < |a|
    requires var ns := ColumnSupport(a, node, |a|);
      |ns| >= 2 && forall i, j :: 0 <= i < |ns| && 0 <= j < |ns| && i != j ==> a[ns[i]][ns[j]] == 1
    ensures ClusteringCoefficient(a, node) == 1.0
  {
    var neighbors := ColumnSupport(a, node, |a|);
    CliqueBlockSum(a, neighbors);
    FullCoefficient(|neighbors|);
  }

  /** Neighbours all linked to each other fill their submatrix off the
      diagonal: k(k-1) ones. */
  lemma {:induction false} CliqueBlockSum(a: Matrix, ns: seq<nat>)
    requires IsGraph(a)
    requires forall i :: 0 <= i < |ns| ==> ns[i] < |a|
    requires forall i, j :: 0 <= i < j < |ns| ==> ns[i] < ns[j]
    requires forall i, j :: 0 <= i < |ns| && 0 <= j < |ns| && i != j ==> a[ns[i]][ns[j]] == 1
    ensures BlockSum(a, ns, ns) == |ns| * (|ns| - 1)
  {
    assert forall i :: 0 <= i < |ns| ==> ns[i] in ns;
    BlockSumFull(a, ns, ns);
  }

  /** The sum of the entries `a[x][y]` over `x` in `rows`. */
  function ColumnOver(a: Matrix, rows: seq<nat>, y: nat): (sum: int)
    requires IsSquare(a) && y < |a| && forall i :: 0 <= i < |rows| ==> rows[i] < |a|
  {
    if rows == [] then 0 else ColumnOver(a, rows[..|rows| - 1], y) + a[rows[|rows| - 1]][y]
  }

  /** The links among the nodes listed in ns: the index pairs i < j whose
      nodes are adjacent. */
  ghost function LinkedPairs(a: Matrix, ns: seq<nat>): (r: set<(nat, nat)>)
    requires IsSquare(a) && forall i :: 0 <= i < |ns| ==> ns[i] < |a|
  {
    set i: nat, j: nat | i < j < |ns| && a[ns[i]][ns[j]] == 1 :: (i, j)
  }

  /** The links from the nodes listed in rows to node y, as index pairs
      (i, n). */
  ghost function LinksInto(a: Matrix, rows: seq<nat>, y: nat, n: nat): (r: set<(nat, nat)>)
    requires IsSquare(a) && y < |a| && forall i :: 0 <= i < |rows| ==> rows[i] < |a|
  {
    set i: nat | i < |rows| && a[rows[i]][y] == 1 :: (i, n)
  }

  /** In a 0/1 matrix the column sum over rows counts the links into y. */
  lemma {:induction false} LinksIntoSize(a: Matrix, rows: seq<nat>, y: nat, n: nat)
    requires IsBinary(a) && y < |a| && forall i :: 0 <= i < |rows| ==> rows[i] < |a|
    ensures |LinksInto(a, rows, y, n)| == ColumnOver(a, rows, y)
  {
    if rows != [] {
      var init := rows[..|rows| - 1];
      var z := rows[|rows| - 1];
      LinksIntoSize(a, init, y, n);
      var last: set<(nat, nat)> := if a[z][y] == 1 then {(|init|, n)} else {};
      assert LinksInto(a, rows, y, n) == LinksInto(a, init, y, n) + last by {
        forall t | t in LinksInto(a, rows, y, n)
          ensures t in LinksInto(a, init, y, n) + last
        {
          var i: nat :| i < |rows| && a[rows[i]][y] == 1 && t == (i, n);
          if i < |init| {
            assert rows[i] == init[i];
          }
        }
      }
      assert (|init|, n) !in LinksInto(a, init, y, n);
    }
  }

  /** The last listed node adds its links to the earlier ones. */
  lemma {:induction false} LinkedPairsSplit(a: Matrix, ns: seq<nat>)
    requires IsSquare(a) && ns != [] && forall i :: 0 <= i < |ns| ==> ns[i] < |a|
    ensures var init := ns[..|ns| - 1];
            && LinkedPairs(a, ns) == LinkedPairs(a, init) + LinksInto(a, init, ns[|ns| - 1], |init|)
            && LinkedPairs(a, init) !! LinksInto(a, init, ns[|ns| - 1], |init|)
  {
    var init := ns[..|ns| - 1];
    var y := ns[|ns| - 1];
    forall t | t in LinkedPairs(a, ns)
      ensures t in LinkedPairs(a, init) + LinksInto(a, init, y, |init|)
    {
      var i: nat, j: nat :| i < j < |ns| && a[ns[i]][ns[j]] == 1 && t == (i, j);
      assert ns[i] == init[i];
      if j < |init| {
        assert ns[j] == init[j];
      }
    }
  }

  /** Adding column y to every row adds the column sum. */
  lemma {:induction false} BlockSumAppendColumn(a: Matrix, rows: seq<nat>, ns: seq<nat>, y: nat)
    requires IsSquare(a) && y < |a|
    requires forall i :: 0 <= i < |rows| ==> rows[i] < |a|
    requires forall i :: 0 <= i < |ns| ==> ns[i] < |a|
    ensures BlockSum(a, rows, ns + [y]) == BlockSum(a, rows, ns) + ColumnOver(a, rows, y)
  {
    if rows != [] {
      BlockSumAppendColumn(a, rows[..|rows| - 1], ns, y);
      assert (ns + [y])[..|ns|] == ns;
    }
  }

  /** In a symmetric matrix a row sum over a list equals the matching
      column sum. */
  lemma {:induction false} RowOverSymmetric(a: Matrix, y: nat, rows: seq<nat>)
    requires IsSymmetric(a) && y < |a| && forall i :: 0 <= i < |rows| ==> rows[i] < |a|
    ensures RowOver(a, y, rows) == ColumnOver(a, rows, y)
  {
    if rows != [] {
      RowOverSymmetric(a, y, rows[..|rows| - 1]);
    }
  }

  /** The neighbours' submatrix of a simple graph counts each link among
      them twice, once per direction. */
  lemma {:induction false} BlockSumLinks(a: Matrix, ns: seq<nat>)
    requires IsGraph(a) && forall i :: 0 <= i < |ns| ==> ns[i] < |a|
    ensures BlockSum(a, ns, ns) == 2 * |LinkedPairs(a, ns)|
  {
    if ns != [] {
      var init := ns[..|ns| - 1];
      var y := ns[|ns| - 1];
      BlockSumLinks(a, init);
      assert ns == init + [y];
      BlockSumAppendColumn(a, init, init, y);
      assert (init + [y])[..|init|] == init;
      RowOverSymmetric(a, y, init);
      LinksIntoSize(a, init, y, |init|);
      LinkedPairsSplit(a, ns);
    }
  }

  /** `L = np.sum(A) / 2` is the number of links among the neighbours, so
      the coefficient is the share of linked neighbour pairs among the
      k(k-1)/2 possible ones. */
  lemma {:induction false} ClusteringCountsLinks(a: Matrix, node: nat)
    requires IsGraph(a) && node < |a|
    ensures var ns := ColumnSupport(a, node, |a|);
            var k := |ns|;
            ClusteringCoefficient(a, node) ==
              if k < 2 then 0.0
              else |LinkedPairs(a, ns)| as real / PossibleLinks(k)
  {
    var ns := ColumnSupport(a, node, |a|);
    var k := |ns|;
    if k >= 2 {
      var links := |LinkedPairs(a, ns)|;
      assert ClusteringCoefficient(a, node) == Coefficient(BlockSum(a, ns, ns), k);
      BlockSumLinks(a, ns);
      assert BlockSum(a, ns, ns) == 2 * links;
      LinkShare(links, k);
    }
  }

  /** The number k(k-1)/2 of unordered pairs among k nodes. */
  function PossibleLinks(k: nat): (r: real)
    ensures k >= 2 ==> r >= 1.0
  {
    assert k >= 2 ==> k * (k - 1) >= 2 by {
      if k >= 2 {
        assert k - 1 >= 1;
      }
    }
    (k * (k - 1)) as real / 2.0
  }

  /** 2L/(k(k-1)) with L = 2l/2 is l over k(k-1)/2. */
  lemma {:induction false} LinkShare(links: nat, k: nat)
    requires k >= 2
    ensures Coefficient(2 * links, k) == links as real / PossibleLinks(k)
  {
    var pairs := k * (k - 1);
    assert pairs > 0 by {
      assert k - 1 >= 1;
    }
    var l := links as real;
    var p := pairs as real;
    assert (2 * links) as real / 2.0 == l;
    assert 2.0 * l / p == l / (p / 2.0);
  }

  /** The coefficient formula: 2L/(k(k-1)) with L = sum/2 is sum/(k(k-1)),
      within [0, 1] when 0 <= sum <= k(k-1), and 1 at the upper end. */
  lemma {:induction false} CoefficientValue(sum: int, k: nat)
    requires k >= 2
    ensures 0 <= sum <= k * (k - 1) ==> 0.0 <= Coefficient(sum, k) <= 1.0
  {
    var pairs := k * (k - 1);
    assert pairs > 0 by {
      assert k - 1 >= 1;
    }
    assert 2.0 * (sum as real / 2.0) == sum as real;
    if 0 <= sum <= pairs {
      RatioBounds(sum, pairs);
    }
  }

  /** All k(k-1) ordered pairs linked: the coefficient is 1. */
  lemma {:induction false} FullCoefficient(k: nat)
    requires k >= 2
    ensures Coefficient(k * (k - 1), k) == 1.0
  {
    var pairs := k * (k - 1);
    assert pairs > 0 by {
      assert k - 1 >= 1;
    }
    var p := pairs as real;
    assert 2.0 * (p / 2.0) == p;
    assert p / p == 1.0;
  }

  lemma {:induction false} RatioBounds(x: int, y: int)
    requires 0 <= x <= y && y > 0
    ensures 0.0 <= x as real / y as real <= 1.0
  {
  }
}
