/** Dense 0/1 adjacency matrices, as numpy arrays are used throughout the
    repository, together with the small set and counting facts the graph
    routines rely on. */
module Matrices {

  /** A matrix is a sequence of rows; a well-formed one is square. */
  type Matrix = seq<seq<int>>

  ghost predicate IsSquare(a: Matrix) {
    forall i :: 0 <= i < |a| ==> |a[i]| == |a|
  }

  /** Every entry is 0 or 1: the only edge weights the repository uses. */
  ghost predicate IsBinary(a: Matrix) {
    IsSquare(a) && forall i, j :: 0 <= i < |a| && 0 <= j < |a| ==> a[i][j] == 0 || a[i][j] == 1
  }

  ghost predicate IsSymmetric(a: Matrix) {
    IsSquare(a) && forall i, j :: 0 <= i < |a| && 0 <= j < |a| ==> a[i][j] == a[j][i]
  }

  /** An undirected simple graph: binary, symmetric, no self-loops. */
  ghost predicate IsGraph(a: Matrix) {
    IsBinary(a) && IsSymmetric(a) && forall i :: 0 <= i < |a| ==> a[i][i] == 0
  }

  /** The node indices 0 .. n-1, Python's `set(range(n))`. */
  function RangeSet(n: nat): (r: set<nat>)
    ensures forall x: nat :: x in r <==> x < n
    ensures |r| == n
  {
    if n == 0 then {} else RangeSet(n - 1) + {n - 1}
  }

  /** A set of indices below n has at most n members, and exactly n only when
      it is all of them. */
  lemma {:induction false} SubsetOfRange(s: set<nat>, n: nat)
    requires forall x :: x in s ==> x < n
    ensures |s| <= n
    ensures |s| == n ==> s == RangeSet(n)
  {
    if n > 0 {
      var rest := s - {n - 1};
      SubsetOfRange(rest, n - 1);
      if |s| == n {
        assert n - 1 in s;
        assert |rest| == n - 1;
        assert s == rest + {n - 1};
      }
    }
  }

  /** Sum of a row (numpy's `np.sum(m, axis=1)` entry). */
  function RowSum(row: seq<int>): (sum: int)
  {
    if row == [] then 0 else RowSum(row[..|row| - 1]) + row[|row| - 1]
  }

  /** A row of non-negative entries sums to something nonzero exactly when one
      of its entries is nonzero. */
  lemma {:induction false} RowSumNonzero(row: seq<int>)
    requires forall j :: 0 <= j < |row| ==> row[j] >= 0
    ensures RowSum(row) >= 0
    ensures RowSum(row) != 0 <==> exists j :: 0 <= j < |row| && row[j] != 0
  {
    if row != [] {
      var init := row[..|row| - 1];
      RowSumNonzero(init);
      if RowSum(init) != 0 {
        var j :| 0 <= j < |init| && init[j] != 0;
        assert row[j] != 0;
      }
      if exists j :: 0 <= j < |row| && row[j] != 0 {
        var j :| 0 <= j < |row| && row[j] != 0;
        if j < |row| - 1 {
          assert init[j] != 0;
        }
      }
    }
  }

  /** Union of a sequence of sets: the node set of a layering or a partition. */
  function Union(p: seq<set<nat>>): (u: set<nat>)
  {
    if p == [] then {} else Union(p[..|p| - 1]) + p[|p| - 1]
  }

  lemma {:induction false} UnionMember(p: seq<set<nat>>, x: nat)
    ensures x in Union(p) <==> exists k :: 0 <= k < |p| && x in p[k]
  {
    if p != [] {
      var init := p[..|p| - 1];
      UnionMember(init, x);
      if x in Union(init) {
        var k :| 0 <= k < |init| && x in init[k];
        assert x in p[k];
      }
      if exists k :: 0 <= k < |p| && x in p[k] {
        var k :| 0 <= k < |p| && x in p[k];
        if k < |p| - 1 {
          assert x in init[k];
        }
      }
    }
  }

  lemma {:induction false} UnionAppend(p: seq<set<nat>>, s: set<nat>)
    ensures Union(p + [s]) == Union(p) + s
  {
    assert (p + [s])[..|p|] == p;
  }

  /** Total size of the sets, Python's `sum(len(s) for s in p)`. */
  function SizeSum(p: seq<set<nat>>): (total: nat)
  {
    if p == [] then 0 else SizeSum(p[..|p| - 1]) + |p[|p| - 1]|
  }

  ghost predicate PairwiseDisjoint(p: seq<set<nat>>) {
    forall j, k :: 0 <= j < |p| && 0 <= k < |p| && j != k ==> p[j] * p[k] == {}
  }

  /** For disjoint sets, the size of the union is the sum of the sizes. */
  lemma {:induction false} UnionSize(p: seq<set<nat>>)
    requires PairwiseDisjoint(p)
    ensures |Union(p)| == SizeSum(p)
  {
    if p != [] {
      var init := p[..|p| - 1];
      var last := p[|p| - 1];
      UnionSize(init);
      forall x | x in Union(init)
        ensures x !in last
      {
        UnionMember(init, x);
        var k :| 0 <= k < |init| && x in init[k];
        var part := p[k];
        assert init[k] == part && k != |p| - 1;
        assert part * last == {};
        assert x in last ==> x in part * last;
      }
      assert Union(init) * last == {};
    }
  }
}
