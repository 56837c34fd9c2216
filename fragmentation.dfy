/** The remove-and-prune step that every measure of
    fragmentation_measures.py applies to each node n: copy the matrix, zero
    row and column n, then delete every node whose column now sums to zero
    (rows and columns alike). */
module Fragmentation {
  import opened Matrices

  /** The matrix with row n and column n set to zero. */
  function Zeroed(a: Matrix, n: nat): (z: Matrix)
    requires IsSquare(a)
    ensures IsSquare(z) && |z| == |a|
    ensures forall i, j :: 0 <= i < |a| && 0 <= j < |a| ==>
              z[i][j] == if i == n || j == n then 0 else a[i][j]
  {
    seq(|a|, i requires 0 <= i < |a| => ZeroedRow(a, n, i))
  }

  /** Row i of `Zeroed(a, n)`. */
  function ZeroedRow(a: Matrix, n: nat, i: nat): (r: seq<int>)
    requires IsSquare(a) && i < |a|
    ensures |r| == |a|
    ensures forall j :: 0 <= j < |a| ==> r[j] == if i == n || j == n then 0 else a[i][j]
  {
    seq(|a|, j requires 0 <= j < |a| => if i == n || j == n then 0 else a[i][j])
  }

  /** Sum of column j over the given rows (numpy's `np.sum(m, axis=0)`). */
  function ColSum(rows: seq<seq<int>>, j: nat): (sum: int)
    requires forall i :: 0 <= i < |rows| ==> j < |rows[i]|
  {
    if rows == [] then 0 else ColSum(rows[..|rows| - 1], j) + rows[|rows| - 1][j]
  }

  /** A column of non-negative entries sums to zero exactly when all of its
      entries are zero. */
  lemma {:induction false} ColSumZero(rows: seq<seq<int>>, j: nat)
    requires forall i :: 0 <= i < |rows| ==> j < |rows[i]| && rows[i][j] >= 0
    ensures ColSum(rows, j) >= 0
    ensures ColSum(rows, j) == 0 <==> forall i :: 0 <= i < |rows| ==> rows[i][j] == 0
  {
    if rows != [] {
      var init := rows[..|rows| - 1];
      ColSumZero(init, j);
      assert forall i :: 0 <= i < |init| ==> init[i] == rows[i];
    }
  }

  /** The columns below `count` whose sum is nonzero, in increasing order:
      the indices that `np.delete` keeps. */
  function KeptBelow(z: Matrix, count: nat): (k: seq<nat>)
    requires IsSquare(z) && count <= |z|
    ensures forall i :: 0 <= i < |k| ==> k[i] < count && ColSum(z, k[i]) != 0
    ensures forall j: nat :: j < count && ColSum(z, j) != 0 ==> j in k
    ensures forall i, j :: 0 <= i < j < |k| ==> k[i] < k[j]
  {
    if count == 0 then []
    else if ColSum(z, count - 1) != 0 then KeptBelow(z, count - 1) + [count - 1]
    else KeptBelow(z, count - 1)
  }

  function Kept(z: Matrix): (k: seq<nat>)
    requires IsSquare(z)
  {
    KeptBelow(z, |z|)
  }

  /** The working matrix once node n is removed and the emptied nodes are
      pruned: the submatrix of `Zeroed(a, n)` on the kept indices. */
  function Pruned(a: Matrix, n: nat): (p: Matrix)
    requires IsSquare(a)
    ensures IsSquare(p)
  {
    var z := Zeroed(a, n);
    var k := Kept(z);
    seq(|k|, i requires 0 <= i < |k| => PrunedRow(z, k, i))
  }

  /** Row i of the submatrix of z on the indices k. */
  function PrunedRow(z: Matrix, k: seq<nat>, i: nat): (r: seq<int>)
    requires IsSquare(z) && i < |k|
    requires forall x :: 0 <= x < |k| ==> k[x] < |z|
    ensures |r| == |k|
    ensures forall j :: 0 <= j < |k| ==> r[j] == z[k[i]][k[j]]
  {
    seq(|k|, j requires 0 <= j < |k| => z[k[i]][k[j]])
  }

  lemma {:induction false} MatrixExt(x: Matrix, y: Matrix)
    requires |x| == |y|
    requires forall i :: 0 <= i < |x| ==> |x[i]| == |y[i]|
    requires forall i, j :: 0 <= i < |x| && 0 <= j < |x[i]| ==> x[i][j] == y[i][j]
    ensures x == y
  {
    forall i | 0 <= i < |x|
      ensures x[i] == y[i]
    {
    }
  }

  /** `deepcopy` of the matrix into a fresh buffer, then row n and column n
      zeroed in place. */
  method CopyAndZero(a: Matrix, n: nat) returns (temp: array2<int>)
    requires IsSquare(a) && n < |a|
    ensures fresh(temp)
    ensures temp.Length0 == |a| && temp.Length1 == |a|
    ensures forall r, c :: 0 <= r < |a| && 0 <= c < |a| ==> temp[r, c] == Zeroed(a, n)[r][c]
  {
    var size := |a|;
    temp := new int[size, size];
    for i := 0 to size
      invariant forall r, c :: 0 <= r < i && 0 <= c < size ==> temp[r, c] == a[r][c]
    {
      for j := 0 to size
        invariant forall r, c :: 0 <= r < i && 0 <= c < size ==> temp[r, c] == a[r][c]
        invariant forall c :: 0 <= c < j ==> temp[i, c] == a[i][c]
      {
        temp[i, j] := a[i][j];
      }
    }
    // temp[n, :] = 0
    for j := 0 to size
      invariant forall r, c :: 0 <= r < size && 0 <= c < size ==>
                  temp[r, c] == if r == n && c < j then 0 else a[r][c]
    {
      temp[n, j] := 0;
    }
    // temp[:, n] = 0
    for i := 0 to size
      invariant forall r, c :: 0 <= r < size && 0 <= c < size ==>
                  temp[r, c] == if r == n || (c == n && r < i) then 0 else a[r][c]
    {
      temp[i, n] := 0;
    }
  }

  /** The column sum of the buffer, which holds the matrix z. */
  method ColumnTotal(temp: array2<int>, ghost z: Matrix, j: nat) returns (sum: int)
    requires IsSquare(z) && j < |z|
    requires temp.Length0 == |z| && temp.Length1 == |z|
    requires forall r, c :: 0 <= r < |z| && 0 <= c < |z| ==> temp[r, c] == z[r][c]
    ensures sum == ColSum(z, j)
  {
    sum := 0;
    for r := 0 to temp.Length0
      invariant sum == ColSum(z[..r], j)
    {
      assert z[..r + 1][..r] == z[..r];
      sum := sum + temp[r, j];
    }
    assert z[..|z|] == z;
  }

  /** `zero_index`: the columns of the buffer whose sum is zero. */
  method ZeroColumns(temp: array2<int>, ghost z: Matrix) returns (zeroIndex: set<nat>)
    requires IsSquare(z)
    requires temp.Length0 == |z| && temp.Length1 == |z|
    requires forall r, c :: 0 <= r < |z| && 0 <= c < |z| ==> temp[r, c] == z[r][c]
    ensures forall c: nat :: c in zeroIndex <==> c < |z| && ColSum(z, c) == 0
  {
    zeroIndex := {};
    for j := 0 to temp.Length1
      invariant forall c: nat :: c in zeroIndex <==> c < j && ColSum(z, c) == 0
    {
      var sum := ColumnTotal(temp, z, j);
      if sum == 0 {
        zeroIndex := zeroIndex + {j};
      }
    }
  }

  /** The indices that `np.delete` keeps: those not in the zero-sum set,
      in increasing order. */
  method KeptColumns(temp: array2<int>, ghost z: Matrix, zeroIndex: set<nat>)
    returns (kept: seq<nat>)
    requires IsSquare(z) && temp.Length1 == |z|
    requires forall c: nat :: c in zeroIndex <==> c < |z| && ColSum(z, c) == 0
    ensures kept == Kept(z)
  {
    kept := [];
    for j := 0 to temp.Length1
      invariant kept == KeptBelow(z, j)
    {
      if j !in zeroIndex {
        kept := kept + [j];
      }
    }
  }

  /** Row `kept[i]` of the array, restricted to the kept columns. */
  method KeptRow(temp: array2<int>, ghost z: Matrix, kept: seq<nat>, i: nat)
    returns (row: seq<int>)
    requires IsSquare(z)
    requires temp.Length0 == |z| && temp.Length1 == |z|
    requires forall r, c :: 0 <= r < |z| && 0 <= c < |z| ==> temp[r, c] == z[r][c]
    requires i < |kept| && forall x :: 0 <= x < |kept| ==> kept[x] < |z|
    ensures |row| == |kept|
    ensures forall x :: 0 <= x < |kept| ==> row[x] == z[kept[i]][kept[x]]
  {
    row := [];
    for c := 0 to |kept|
      invariant |row| == c
      invariant forall x :: 0 <= x < c ==> row[x] == z[kept[i]][kept[x]]
    {
      row := row + [temp[kept[i], kept[c]]];
    }
  }

  /** `np.delete` of the zero-sum rows and then columns: the submatrix on
      the other indices, in order. */
  method DeleteZeroColumns(temp: array2<int>, ghost z: Matrix, zeroIndex: set<nat>)
    returns (t: Matrix)
    requires IsSquare(z)
    requires temp.Length0 == |z| && temp.Length1 == |z|
    requires forall r, c :: 0 <= r < |z| && 0 <= c < |z| ==> temp[r, c] == z[r][c]
    requires forall c: nat :: c in zeroIndex <==> c < |z| && ColSum(z, c) == 0
    ensures var k := Kept(z);
      |t| == |k| &&
      (forall r :: 0 <= r < |t| ==> |t[r]| == |k|) &&
      forall r, c :: 0 <= r < |k| && 0 <= c < |k| ==> t[r][c] == z[k[r]][k[c]]
  {
    var kept := KeptColumns(temp, z, zeroIndex);
    t := [];
    for i := 0 to |kept|
      invariant |t| == i
      invariant forall r :: 0 <= r < i ==> |t[r]| == |kept|
      invariant forall r, c :: 0 <= r < i && 0 <= c < |kept| ==> t[r][c] == z[kept[r]][kept[c]]
    {
      var row := KeptRow(temp, z, kept, i);
      t := t + [row];
    }
  }

  /** One node's step of a measure, as written: a deep copy with row and
      column n zeroed, the column sums, and the deletion of the zero-sum
      rows and columns. The result is `Pruned(a, n)`, and `a` itself is a
      value the step cannot change. */
  method RemoveAndPrune(a: Matrix, n: nat) returns (t: Matrix)
    requires IsSquare(a) && n < |a|
    ensures t == Pruned(a, n)
  {
    var temp := CopyAndZero(a, n);
    var zeroIndex := ZeroColumns(temp, Zeroed(a, n));
    t := DeleteZeroColumns(temp, Zeroed(a, n), zeroIndex);
    MatrixExt(t, Pruned(a, n));
  }

  /** Node n never survives its own removal: the working matrix shrinks. */
  lemma {:induction false} PrunedExcludes(a: Matrix, n: nat)
    requires IsSquare(a) && n < |a|
    ensures n !in Kept(Zeroed(a, n))
    ensures |Pruned(a, n)| < |a|
  {
    var z := Zeroed(a, n);
    ColSumZero(z, n);
    var k := Kept(z);
    SubsetOfRange(set i | 0 <= i < |k| :: k[i], |a|);
    DistinctSize(k);
    assert forall i :: 0 <= i < |k| ==> k[i] != n;
    SubsetOfRange(set i | 0 <= i < |k| :: k[i], |a|);
    assert (set i | 0 <= i < |k| :: k[i]) != RangeSet(|a|) by {
      assert n in RangeSet(|a|);
    }
  }

  /** A strictly increasing sequence has as many distinct members as
      entries. */
  lemma {:induction false} DistinctSize(k: seq<nat>)
    requires forall i, j :: 0 <= i < j < |k| ==> k[i] < k[j]
    ensures |set i | 0 <= i < |k| :: k[i]| == |k|
  {
    if k != [] {
      var init := k[..|k| - 1];
      DistinctSize(init);
      var s := set i | 0 <= i < |init| :: init[i];
      assert (set i | 0 <= i < |k| :: k[i]) == s + {k[|k| - 1]};
      assert k[|k| - 1] !in s;
    }
  }

  /** Entry (i, j) of the working matrix is entry (K[i], K[j]) of the
      input, K being the kept indices; none of them is n. */
  lemma {:induction false} PrunedEntries(a: Matrix, n: nat)
    requires IsSquare(a) && n < |a|
    ensures var k := Kept(Zeroed(a, n));
      forall i, j :: 0 <= i < |k| && 0 <= j < |k| ==> Pruned(a, n)[i][j] == a[k[i]][k[j]]
  {
    PrunedExcludes(a, n);
  }

  /** Removing a node keeps a symmetric 0/1 matrix one. */
  lemma {:induction false} PrunedUndirected(a: Matrix, n: nat)
    requires IsBinary(a) && IsSymmetric(a) && n < |a|
    ensures IsBinary(Pruned(a, n)) && IsSymmetric(Pruned(a, n))
  {
    PrunedEntries(a, n);
  }

  /** Removing a node keeps an undirected simple graph one. */
  lemma {:induction false} PrunedGraph(a: Matrix, n: nat)
    requires IsGraph(a) && n < |a|
    ensures IsGraph(Pruned(a, n))
  {
    PrunedUndirected(a, n);
    PrunedEntries(a, n);
  }

  /** Removing the centre of a star prunes every leaf: nothing is left. */
  lemma {:induction false} StarCentre(a: Matrix)
    requires IsSquare(a) && |a| >= 1
    requires forall i, j :: 0 <= i < |a| && 0 <= j < |a| ==>
               a[i][j] == if (i == 0) != (j == 0) then 1 else 0
    ensures Pruned(a, 0) == []
  {
    var z := Zeroed(a, 0);
    forall j | 0 <= j < |a|
      ensures ColSum(z, j) == 0
    {
      ColSumZero(z, j);
    }
    var k := Kept(z);
    assert forall x: nat :: x !in k;
    DistinctSize(k);
    assert (set i | 0 <= i < |k| :: k[i]) == {};
  }

  /** In a symmetric 0/1 input, every node left in the working matrix has
      an edge in it: the pruning removes exactly the isolated nodes. */
  lemma {:induction false} PrunedHasEdges(a: Matrix, n: nat, i: nat)
    requires IsBinary(a) && IsSymmetric(a) && n < |a|
    requires i < |Pruned(a, n)|
    ensures exists j :: 0 <= j < |Pruned(a, n)| && Pruned(a, n)[i][j] == 1
  {
    var z := Zeroed(a, n);
    var k := Kept(z);
    PrunedEntries(a, n);
    ColSumZero(z, k[i]);
    var r :| 0 <= r < |z| && z[r][k[i]] != 0;
    assert z[k[i]][r] != 0;
    ColSumZero(z, r);
    assert r in k;
    var j :| 0 <= j < |k| && k[j] == r;
    assert Pruned(a, n)[i][j] == 1;
  }
}
