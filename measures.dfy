/** The node-removal measures of fragmentation_measures.py. Each one runs,
    for every node n, the remove-and-prune step of module Fragmentation,
    decomposes what is left into components (or measures its distances),
    and reduces that to entry n of a vector as long as the input.
    `find_components` may discover the components in any order, so every
    entry is specified over the reachability classes of the working
    matrix (module Components), and the order-free sum lemmas show that
    whatever order is found gives the same value. */
module Measures {
  import opened Matrices
  import opened Paths
  import opened Connectivity
  import opened Fragmentation
  import opened Components
  import Metrics

  /** Sum of a sequence of counts. */
  function Total(xs: seq<nat>): (total: nat)
  {
    if xs == [] then 0 else Total(xs[..|xs| - 1]) + xs[|xs| - 1]
  }

  /** s (s - 1): the ordered pairs of distinct nodes in a component of s
      nodes. */
  function Pairs(s: nat): (pairs: nat)
  {
    if s == 0 then 0 else s * (s - 1)
  }

  /** The F-measure numerator over a sequence of component sizes. */
  function PairCount(sizes: seq<nat>): (count: nat)
  {
    if sizes == [] then 0 else PairCount(sizes[..|sizes| - 1]) + Pairs(sizes[|sizes| - 1])
  }

  /** `num_nodes` of each component matrix. */
  function ComponentSizes(components: seq<Matrix>): (sizes: seq<nat>)
    ensures |sizes| == |components|
    ensures forall k :: 0 <= k < |components| ==> sizes[k] == NumNodes(components[k])
  {
    seq(|components|, k requires 0 <= k < |components| => NumNodes(components[k]))
  }

  /** The component matrices of a partition, as `find_components` builds
      them. */
  ghost function ComponentMatrices(p: Matrix, parts: seq<set<nat>>): (cs: seq<Matrix>)
    requires IsSquare(p)
    ensures |cs| == |parts|
    ensures forall k :: 0 <= k < |parts| ==> cs[k] == Restrict(p, parts[k])
  {
    seq(|parts|, k requires 0 <= k < |parts| => Restrict(p, parts[k]))
  }

  /** The node count of each part. */
  ghost function PartSizes(parts: seq<set<nat>>): (sizes: seq<nat>)
    ensures |sizes| == |parts|
    ensures forall k :: 0 <= k < |parts| ==> sizes[k] == |parts[k]|
  {
    seq(|parts|, k requires 0 <= k < |parts| => |parts[k]|)
  }

  /** The component sizes that `num_nodes` reports for the parts of p. */
  ghost function Sizes(p: Matrix, parts: seq<set<nat>>): (sizes: seq<nat>)
    requires IsSquare(p)
  {
    ComponentSizes(ComponentMatrices(p, parts))
  }

  /** `num_nodes` of the component matrix of node set c. */
  ghost function ClassSize(p: Matrix, c: set<nat>): (size: nat)
    requires IsSquare(p)
  {
    NumNodes(Restrict(p, c))
  }

  /** Decomposes the working matrix of node n into components: the
      component matrices, and as ghost output the partition they come
      from. */
  method PrunedComponents(a: Matrix, n: nat) returns (components: seq<Matrix>,
                                                     ghost members: seq<set<nat>>)
    requires IsBinary(a) && IsSymmetric(a) && n < |a|
    ensures IsComponentPartition(Pruned(a, n), members)
    ensures components == ComponentMatrices(Pruned(a, n), members)
  {
    var temp := RemoveAndPrune(a, n);
    ghost var roots;
    components, roots, members := FindComponents(temp);
    PrunedUndirected(a, n);
    ComponentsPartition(temp, roots, members);
  }

  /** Writes entry n of a result vector. */
  method Store(xs: array<real>, n: nat, value: real)
    requires n < xs.Length
    modifies xs
    ensures xs[..] == old(xs[..])[n := value]
  {
    xs[n] := value;
  }

  // ---------------------------------------------------------------------
  // num_disconnected_components

  /** `count / N`. */
  function Share(count: nat, size: nat): (share: real)
    requires size >= 1
  {
    (count as real) / (size as real)
  }

  /** Entry n of `num_disconnected_components`: the number of components
      left once node n is removed, as a share of the original size. */
  ghost function CountEntry(a: Matrix, n: nat): (e: real)
    requires IsSquare(a) && |a| >= 1
  {
    Share(|Classes(Pruned(a, n))|, |a|)
  }

  /** One entry of `num_disconnected_components`. */
  method CountEntryOf(a: Matrix, n: nat) returns (value: real)
    requires IsBinary(a) && IsSymmetric(a) && n < |a|
    ensures value == CountEntry(a, n)
  {
    var components, members := PrunedComponents(a, n);
    PartitionCount(Pruned(a, n), members);
    value := Share(|components|, |a|);
  }

  /** `num_disconnected_components`. */
  method NumDisconnectedComponents(a: Matrix) returns (r: seq<real>)
    requires IsBinary(a) && IsSymmetric(a)
    ensures |r| == |a|
    ensures forall n :: 0 <= n < |a| ==> r[n] == CountEntry(a, n)
  {
    var numDis := new real[|a|];
    for n := 0 to |a|
      invariant forall m :: 0 <= m < n ==> numDis[m] == CountEntry(a, m)
    {
      numDis[n] := CountEntryOf(a, n);
    }
    r := numDis[..];
  }

  /** The count measure is a share below one: removing a node never leaves
      more components than nodes, and it leaves none exactly when nothing
      survives the pruning. */
  lemma {:induction false} CountBounds(a: Matrix, n: nat)
    requires IsBinary(a) && IsSymmetric(a) && n < |a|
    ensures 0.0 <= CountEntry(a, n) < 1.0
    ensures CountEntry(a, n) == 0.0 <==> Pruned(a, n) == []
  {
    var p := Pruned(a, n);
    PrunedUndirected(a, n);
    PrunedExcludes(a, n);
    ClassCountBound(p);
  }

  /** What the count measure says about the rest of the network: a single
      component means what was left is connected. */
  lemma {:induction false} SingleComponentMeaning(a: Matrix, n: nat)
    requires IsBinary(a) && IsSymmetric(a) && n < |a| && |Pruned(a, n)| >= 1
    ensures CountEntry(a, n) == Share(1, |a|) <==>
              forall w :: 0 <= w < |Pruned(a, n)| ==> Reachable(Pruned(a, n), 0, w)
  {
    PrunedUndirected(a, n);
    ConnectedIffOneClass(Pruned(a, n));
    ShareInjective(|Classes(Pruned(a, n))|, 1, |a|);
  }

  lemma {:induction false} ShareInjective(x: nat, y: nat, size: nat)
    requires size >= 1
    ensures Share(x, size) == Share(y, size) <==> x == y
  {
    if Share(x, size) == Share(y, size) {
      assert (x as real) == Share(x, size) * (size as real);
    }
  }

  // ---------------------------------------------------------------------
  // F_measure

  /** `1 - numerator / (N (N - 1))`. */
  function FValue(size: nat, numerator: int): (f: real)
    requires size >= 2
  {
    1.0 - (numerator as real) / ((size * (size - 1)) as real)
  }

  /** s (s - 1) for the `num_nodes` size s of each class. */
  ghost function PairsOf(p: Matrix): (g: set<nat> -> int)
    requires IsSquare(p)
  {
    c => Pairs(ClassSize(p, c))
  }

  /** Entry n of `F_measure`: one minus Σ s (s - 1) over the components
      left once node n is removed, divided by N (N - 1). */
  ghost function FEntry(a: Matrix, n: nat): (f: real)
    requires IsSquare(a) && |a| >= 2
  {
    var p := Pruned(a, n);
    FValue(|a|, SumOver(ClassSeq(p), PairsOf(p)))
  }

  /** The numerator loop of `F_measure`: Σ s_k (s_k - 1) over the
      components. */
  method PairNumerator(components: seq<Matrix>) returns (numerator: nat)
    ensures numerator == PairCount(ComponentSizes(components))
  {
    ghost var sizes := ComponentSizes(components);
    var total: int := 0;
    for k := 0 to |components|
      invariant total == PairCount(sizes[..k])
    {
      assert sizes[..k + 1][..k] == sizes[..k];
      var s: int := NumNodes(components[k]);
      total := total + s * (s - 1);
    }
    assert sizes[..|components|] == sizes;
    numerator := total;
  }

  /** The pair count of the sizes of any partition is the sum of `PairsOf`
      over its parts. */
  lemma {:induction false} PairCountOfParts(p: Matrix, parts: seq<set<nat>>)
    requires IsSquare(p)
    ensures PairCount(Sizes(p, parts)) == SumOver(parts, PairsOf(p))
  {
    if parts != [] {
      var init := parts[..|parts| - 1];
      PairCountOfParts(p, init);
      assert Sizes(p, parts)[..|parts| - 1] == Sizes(p, init);
    }
  }

  /** value is entry n of `F_measure(a)`. The quantifier fires only on an
      `FEntry` term, so a proof that merely stores and moves entries does
      not unfold the measure. */
  ghost predicate IsFEntry(a: Matrix, n: nat, value: real)
    requires IsSquare(a) && |a| >= 2
  {
    forall k {:trigger FEntry(a, k)} :: k == n ==> value == FEntry(a, k)
  }

  /** One entry of `F_measure`. */
  method FEntryOf(a: Matrix, n: nat) returns (value: real)
    requires IsBinary(a) && IsSymmetric(a) && 2 <= |a| && n < |a|
    ensures IsFEntry(a, n, value)
  {
    var components, members := PrunedComponents(a, n);
    var numerator := PairNumerator(components);
    PairCountOfParts(Pruned(a, n), members);
    PartitionSum(Pruned(a, n), members, PairsOf(Pruned(a, n)));
    value := FValue(|a|, numerator);
  }

  /** `F_measure`. A one-row input divides 0 by 0 in the source. */
  method FMeasure(a: Matrix) returns (r: seq<real>)
    requires IsBinary(a) && IsSymmetric(a) && |a| != 1
    ensures |r| == |a|
    ensures forall n :: 0 <= n < |a| ==> IsFEntry(a, n, r[n])
  {
    var originalSize := |a|;
    var f := new real[originalSize];
    for n := 0 to originalSize
      invariant forall m :: 0 <= m < n ==> IsFEntry(a, m, f[m])
    {
      f[n] := FEntryOf(a, n);
    }
    r := f[..];
  }

  lemma {:induction false} PairCountMono(xs: seq<nat>, ys: seq<nat>)
    requires |xs| == |ys|
    requires forall k :: 0 <= k < |xs| ==> xs[k] <= ys[k]
    ensures PairCount(xs) <= PairCount(ys)
  {
    if xs != [] {
      PairCountMono(xs[..|xs| - 1], ys[..|ys| - 1]);
      PairsMono(xs[|xs| - 1], ys[|ys| - 1]);
    }
  }

  lemma {:induction false} PairsMono(x: nat, y: nat)
    requires x <= y
    ensures Pairs(x) <= Pairs(y)
  {
    if x >= 1 {
      assert x * (x - 1) <= y * (x - 1);
      assert y * (x - 1) <= y * (y - 1);
    }
  }

  /** Two groups together have at least the pairs of each. */
  lemma {:induction false} PairsSplit(t: nat, x: nat)
    ensures Pairs(t) + Pairs(x) <= Pairs(t + x)
  {
    if t >= 1 && x >= 1 {
      assert (t + x) * (t + x - 1) == t * (t - 1) + x * (x - 1) + 2 * t * x;
      assert 2 * t * x >= 0;
    }
  }

  /** Splitting a group of nodes into parts never adds pairs:
      Σ s_k (s_k - 1) <= S (S - 1) for S = Σ s_k. */
  lemma {:induction false} PairCountTotal(xs: seq<nat>)
    ensures PairCount(xs) <= Pairs(Total(xs))
  {
    if xs != [] {
      var init := xs[..|xs| - 1];
      PairCountTotal(init);
      PairsSplit(Total(init), xs[|xs| - 1]);
    }
  }

  lemma {:induction false} TotalPartSizes(parts: seq<set<nat>>)
    ensures Total(PartSizes(parts)) == SizeSum(parts)
  {
    if parts != [] {
      var init := parts[..|parts| - 1];
      TotalPartSizes(init);
      assert PartSizes(parts)[..|parts| - 1] == PartSizes(init);
    }
  }

  /** In a symmetric 0/1 matrix, `num_nodes` of a component matrix is at
      most the size of the component: only its own rows can be nonzero. */
  lemma {:induction false} ComponentNumNodesBound(p: Matrix, s: nat)
    requires IsBinary(p) && IsSymmetric(p) && s < |p|
    ensures NumNodes(Restrict(p, ReachSet(p, s))) <= |ReachSet(p, s)|
  {
    var m := ReachSet(p, s);
    var c := Restrict(p, m);
    ComponentMatrixInduced(p, s);
    forall i | i in NonzeroRows(c)
      ensures i in m
    {
      RowSumNonzero(c[i]);
    }
    NumNodesCounts(c);
    SetSizeMono(NonzeroRows(c), m);
  }

  lemma {:induction false} SetSizeMono(x: set<nat>, y: set<nat>)
    requires x <= y
    ensures |x| <= |y|
  {
    assert y == x + (y - x);
  }

  /** The sizes `num_nodes` reports never exceed the part sizes, and the
      parts together hold every node. */
  lemma {:induction false} SizesBound(p: Matrix, parts: seq<set<nat>>)
    requires IsBinary(p) && IsSymmetric(p) && IsComponentPartition(p, parts)
    ensures PairCount(Sizes(p, parts)) <= Pairs(|p|)
  {
    SizesBelowParts(p, parts);
    PartitionPairBound(parts, Sizes(p, parts), |p|);
  }

  /** Counts bounded by the sizes of disjoint parts covering n nodes give
      at most n (n - 1) pairs. */
  lemma {:induction false} PartitionPairBound(parts: seq<set<nat>>, xs: seq<nat>, n: nat)
    requires |xs| == |parts| && forall k :: 0 <= k < |parts| ==> xs[k] <= PartSizes(parts)[k]
    requires PairwiseDisjoint(parts) && Union(parts) == RangeSet(n)
    ensures PairCount(xs) <= Pairs(n)
  {
    var ys := PartSizes(parts);
    PairCountMono(xs, ys);
    TotalPartSizes(parts);
    UnionSize(parts);
    PairCountTotal(ys);
  }

  lemma {:induction false} SizesBelowParts(p: Matrix, parts: seq<set<nat>>)
    requires IsBinary(p) && IsSymmetric(p) && IsComponentPartition(p, parts)
    ensures |Sizes(p, parts)| == |parts|
    ensures forall k :: 0 <= k < |parts| ==> Sizes(p, parts)[k] <= PartSizes(parts)[k]
  {
    forall k | 0 <= k < |parts|
      ensures Sizes(p, parts)[k] <= |parts[k]|
    {
      var x :| x in parts[k];
      PartMember(p, parts, k, x);
      ComponentNumNodesBound(p, x);
    }
  }

  /** The F-measure lies in [0, 1], as its documentation promises. */
  lemma {:induction false} FMeasureBounds(a: Matrix, n: nat)
    requires IsBinary(a) && IsSymmetric(a) && 2 <= |a| && n < |a|
    ensures 0.0 <= FEntry(a, n) <= 1.0
  {
    var p := Pruned(a, n);
    PrunedUndirected(a, n);
    PrunedExcludes(a, n);
    ClassSeqPartition(p);
    SizesBound(p, ClassSeq(p));
    PairCountOfParts(p, ClassSeq(p));
    PairsMono(|p|, |a|);
    FValueBounds(|a|, PairCount(Sizes(p, ClassSeq(p))));
  }

  lemma {:induction false} FValueBounds(size: nat, numerator: nat)
    requires size >= 2 && numerator <= Pairs(size)
    ensures 0.0 <= FValue(size, numerator) <= 1.0
  {
    var d := (size * (size - 1)) as real;
    assert d > 0.0;
    assert (numerator as real) <= d;
    assert (numerator as real) / d <= 1.0;
  }

  /** In an undirected simple graph every part of what is left has at
      least two nodes, so `num_nodes` reports the exact part sizes. */
  lemma {:induction false} SizesExact(a: Matrix, n: nat, parts: seq<set<nat>>)
    requires IsGraph(a) && n < |a| && IsComponentPartition(Pruned(a, n), parts)
    ensures Sizes(Pruned(a, n), parts) == PartSizes(parts)
  {
    var p := Pruned(a, n);
    PrunedGraph(a, n);
    forall k | 0 <= k < |parts|
      ensures Sizes(p, parts)[k] == |parts[k]|
    {
      var x :| x in parts[k];
      PartMember(p, parts, k, x);
      NumNodesOfComponent(p, x);
      PrunedHasEdges(a, n, x);
      var j :| 0 <= j < |p| && p[x][j] == 1;
      HasEdgeIffShared(p, x, x);
      ReachSetInRange(p, x);
    }
  }

  /** The F-measure of an undirected simple graph, in the terms of its
      definition: one minus the share of ordered node pairs that stay
      connected, counted with the class sizes. */
  lemma {:induction false} FMeasureOfGraph(a: Matrix, n: nat)
    requires IsGraph(a) && 2 <= |a| && n < |a|
    ensures FEntry(a, n) == FValue(|a|, PairCount(PartSizes(ClassSeq(Pruned(a, n)))))
  {
    var p := Pruned(a, n);
    PrunedUndirected(a, n);
    ClassSeqPartition(p);
    SizesExact(a, n, ClassSeq(p));
    PairCountOfParts(p, ClassSeq(p));
  }

  /** When what is left is connected, the F-measure is one minus the share
      of pairs among the surviving nodes. */
  lemma {:induction false} FMeasureConnected(a: Matrix, n: nat)
    requires IsGraph(a) && 2 <= |a| && n < |a|
    requires |Classes(Pruned(a, n))| == 1
    ensures FEntry(a, n) == FValue(|a|, Pairs(|Pruned(a, n)|))
  {
    FMeasureOfGraph(a, n);
    PrunedUndirected(a, n);
    OneClassPairs(Pruned(a, n));
  }

  /** A single class holds every node. */
  lemma {:induction false} OneClassPairs(p: Matrix)
    requires IsSymmetric(p) && |Classes(p)| == 1
    ensures PairCount(PartSizes(ClassSeq(p))) == Pairs(|p|)
  {
    var parts := ClassSeq(p);
    ClassSeqPartition(p);
    UnionSize(parts);
    SingleSizes(parts);
  }

  /** One part: its size is the total, its pairs the pair count. */
  lemma {:induction false} SingleSizes(parts: seq<set<nat>>)
    requires |parts| == 1
    ensures SizeSum(parts) == |parts[0]|
    ensures PairCount(PartSizes(parts)) == Pairs(|parts[0]|)
  {
    assert parts[..0] == [];
    assert PartSizes(parts)[..0] == [];
  }

  // ---------------------------------------------------------------------
  // information_entropy

  /** `(s / N) * log(s / N)`, the logarithm being a parameter. */
  function EntropyTerm(ln: real -> real, size: nat, s: nat): (term: real)
    requires size >= 1
  {
    Share(s, size) * ln(Share(s, size))
  }

  /** The entropy numerator over a sequence of component sizes. */
  function TermSum(ln: real -> real, size: nat, sizes: seq<nat>): (sum: real)
    requires size >= 1
  {
    if sizes == [] then 0.0
    else TermSum(ln, size, sizes[..|sizes| - 1]) + EntropyTerm(ln, size, sizes[|sizes| - 1])
  }

  /** The entropy term of each class. */
  ghost function TermsOf(p: Matrix, size: nat, ln: real -> real): (g: set<nat> -> real)
    requires IsSquare(p) && size >= 1
  {
    c => EntropyTerm(ln, size, ClassSize(p, c))
  }

  /** Entry n of `information_entropy`: minus Σ (s/N) log(s/N) over the
      components left once node n is removed. */
  ghost function EntropyEntry(a: Matrix, n: nat, ln: real -> real): (e: real)
    requires IsSquare(a) && |a| >= 1
  {
    var p := Pruned(a, n);
    Negated(RealSumOver(ClassSeq(p), TermsOf(p, |a|, ln)))
  }

  /** The entropy is the negated numerator. */
  function Negated(numerator: real): (r: real)
  {
    -numerator
  }

  /** The numerator loop of `information_entropy`. */
  method EntropyNumerator(components: seq<Matrix>, size: nat, ln: real -> real) returns (numerator: real)
    requires size >= 1
    ensures numerator == TermSum(ln, size, ComponentSizes(components))
  {
    ghost var sizes := ComponentSizes(components);
    numerator := 0.0;
    for k := 0 to |components|
      invariant numerator == TermSum(ln, size, sizes[..k])
    {
      assert sizes[..k + 1][..k] == sizes[..k];
      var s := NumNodes(components[k]);
      numerator := numerator + EntropyTerm(ln, size, s);
    }
    assert sizes[..|components|] == sizes;
  }

  lemma {:induction false} TermSumOfParts(p: Matrix, size: nat, ln: real -> real, parts: seq<set<nat>>)
    requires IsSquare(p) && size >= 1
    ensures TermSum(ln, size, Sizes(p, parts)) == RealSumOver(parts, TermsOf(p, size, ln))
  {
    if parts != [] {
      var init := parts[..|parts| - 1];
      TermSumOfParts(p, size, ln, init);
      assert Sizes(p, parts)[..|parts| - 1] == Sizes(p, init);
    }
  }

  /** value is entry n of `information_entropy(a)`, sealed like
      `IsFEntry`. */
  ghost predicate IsEntropyEntry(a: Matrix, n: nat, ln: real -> real, value: real)
    requires IsSquare(a) && |a| >= 1
  {
    forall k {:trigger EntropyEntry(a, k, ln)} :: k == n ==> value == EntropyEntry(a, k, ln)
  }

  /** One entry of `information_entropy`. */
  method EntropyEntryOf(a: Matrix, n: nat, ln: real -> real) returns (value: real)
    requires IsBinary(a) && IsSymmetric(a) && n < |a|
    ensures IsEntropyEntry(a, n, ln, value)
  {
    var components, members := PrunedComponents(a, n);
    var numerator := EntropyNumerator(components, |a|, ln);
    TermSumOfParts(Pruned(a, n), |a|, ln, members);
    RealPartitionSum(Pruned(a, n), members, TermsOf(Pruned(a, n), |a|, ln));
    value := Negated(numerator);
  }

  /** `information_entropy`, with `np.log` passed in as `ln`. */
  method InformationEntropy(a: Matrix, ln: real -> real) returns (r: seq<real>)
    requires IsBinary(a) && IsSymmetric(a)
    ensures |r| == |a|
    ensures forall n :: 0 <= n < |a| ==> IsEntropyEntry(a, n, ln, r[n])
  {
    var originalSize := |a|;
    var entropy := new real[originalSize];
    for n := 0 to originalSize
      invariant forall m :: 0 <= m < n ==> IsEntropyEntry(a, m, ln, entropy[m])
    {
      var value := EntropyEntryOf(a, n, ln);
      Store(entropy, n, value);
    }
    r := entropy[..];
  }

  /** Terms of shares at most one are never positive for a logarithm that
      is non-positive on (0, 1]. */
  lemma {:induction false} TermSumNonpositive(ln: real -> real, size: nat, sizes: seq<nat>)
    requires size >= 1
    requires forall x: real :: 0.0 < x <= 1.0 ==> ln(x) <= 0.0
    requires forall k :: 0 <= k < |sizes| ==> sizes[k] <= size
    ensures TermSum(ln, size, sizes) <= 0.0
  {
    if sizes != [] {
      var init := sizes[..|sizes| - 1];
      TermSumNonpositive(ln, size, init);
      TermNonpositive(ln, size, sizes[|sizes| - 1]);
      assert TermSum(ln, size, sizes) == TermSum(ln, size, init) + EntropyTerm(ln, size, sizes[|sizes| - 1]);
    }
  }

  /** One entropy term is never positive. */
  lemma {:induction false} TermNonpositive(ln: real -> real, size: nat, s: nat)
    requires size >= 1 && s <= size
    requires forall x: real :: 0.0 < x <= 1.0 ==> ln(x) <= 0.0
    ensures EntropyTerm(ln, size, s) <= 0.0
  {
    var x := Share(s, size);
    ShareBounds(s, size);
    if s > 0 {
      NonpositiveProduct(x, ln(x));
    } else {
      assert x == 0.0;
    }
  }

  /** A share of at most the whole lies in [0, 1], and is positive when
      the count is. */
  lemma {:induction false} ShareBounds(count: nat, size: nat)
    requires size >= 1 && count <= size
    ensures 0.0 <= Share(count, size) <= 1.0
    ensures count > 0 ==> Share(count, size) > 0.0
  {
  }

  lemma {:induction false} NonpositiveProduct(x: real, y: real)
    requires x >= 0.0 && y <= 0.0
    ensures x * y <= 0.0
  {
  }

  /** The entropy is never negative, for any logarithm that is
      non-positive on (0, 1]. */
  lemma {:induction false} EntropyNonnegative(a: Matrix, n: nat, ln: real -> real)
    requires IsBinary(a) && IsSymmetric(a) && n < |a|
    requires forall x: real :: 0.0 < x <= 1.0 ==> ln(x) <= 0.0
    ensures EntropyEntry(a, n, ln) >= 0.0
  {
    var p := Pruned(a, n);
    var sizes := Sizes(p, ClassSeq(p));
    PrunedExcludes(a, n);
    TermSumOfParts(p, |a|, ln, ClassSeq(p));
    TermSumNonpositive(ln, |a|, sizes);
  }

  // ---------------------------------------------------------------------
  // Fd_measure

  /** `1 / length`, with `1 / inf == 0`; a length of 0 never occurs. */
  function Recip(d: Distance): (r: real)
    requires d != Finite(0)
  {
    match d
    case Infinite => 0.0
    case Finite(h) => 1.0 / (h as real)
  }

  /** Σ 1 / d(i, j) over j < count, count <= i. */
  ghost function RowRecip(p: Matrix, i: nat, count: nat): (sum: real)
    requires IsSquare(p) && count <= i
  {
    if count == 0 then 0.0
    else
      DistanceZero(p, i, count - 1);
      RowRecip(p, i, count - 1) + Recip(DistanceTo(p, i, count - 1))
  }

  /** Σ 1 / d(i, j) over the pairs j < i < count. */
  ghost function PairRecip(p: Matrix, count: nat): (sum: real)
    requires IsSquare(p)
  {
    if count == 0 then 0.0 else PairRecip(p, count - 1) + RowRecip(p, count - 1, count - 1)
  }

  /** `1 - numerator / ((N - 1) (N - 2) / 2)`. */
  function FdValue(size: nat, numerator: real): (fd: real)
    requires size != 1 && size != 2
  {
    1.0 - numerator / (((size - 1) * (size - 2)) as real / 2.0)
  }

  /** Entry n of `Fd_measure`: one minus the sum of reciprocal distances
      between the pairs of nodes left once node n is removed, divided by
      (N - 1) (N - 2) / 2. */
  ghost function FdEntry(a: Matrix, n: nat): (fd: real)
    requires IsSquare(a) && |a| != 1 && |a| != 2
  {
    var p := Pruned(a, n);
    FdValue(|a|, PairRecip(p, |p|))
  }

  /** The nested loops of `Fd_measure`: a shortest-path vector from each
      node i, and 1 / length summed over the j below i. */
  method DistanceNumerator(p: Matrix) returns (numerator: real)
    requires IsSquare(p)
    ensures numerator == PairRecip(p, |p|)
  {
    numerator := 0.0;
    for i := 0 to |p|
      invariant numerator == PairRecip(p, i)
    {
      var lengths := Metrics.ShortestPathLengths(p, i);
      for j := 0 to |p|
        invariant numerator == PairRecip(p, i) + RowRecip(p, i, if j < i then j else i)
      {
        if i <= j {
          continue;
        }
        DistanceZero(p, i, j);
        numerator := numerator + Recip(lengths[j]);
      }
    }
  }

  /** One entry of `Fd_measure`. */
  method FdEntryOf(a: Matrix, n: nat) returns (value: real)
    requires IsSquare(a) && |a| != 1 && |a| != 2 && n < |a|
    ensures value == FdEntry(a, n)
  {
    var temp := RemoveAndPrune(a, n);
    var numerator := DistanceNumerator(temp);
    value := FdValue(|a|, numerator);
  }

  /** `Fd_measure`. A matrix of one or two rows divides by zero in the
      source. */
  method FdMeasure(a: Matrix) returns (r: seq<real>)
    requires IsSquare(a) && |a| != 1 && |a| != 2
    ensures |r| == |a|
    ensures forall n :: 0 <= n < |a| ==> r[n] == FdEntry(a, n)
  {
    var fd := new real[|a|];
    for n := 0 to |a|
      invariant forall m :: 0 <= m < n ==> fd[m] == FdEntry(a, m)
    {
      fd[n] := FdEntryOf(a, n);
    }
    r := fd[..];
  }

  lemma {:induction false} RecipBounds(d: Distance)
    requires d != Finite(0)
    ensures 0.0 <= Recip(d) <= 1.0
  {
    if d.Finite? {
      assert d.hops as real >= 1.0;
    }
  }

  lemma {:induction false} RowRecipBounds(p: Matrix, i: nat, count: nat)
    requires IsSquare(p) && count <= i
    ensures 0.0 <= RowRecip(p, i, count) <= count as real
  {
    if count > 0 {
      RowRecipBounds(p, i, count - 1);
      DistanceZero(p, i, count - 1);
      RecipBounds(DistanceTo(p, i, count - 1));
    }
  }

  /** Every pair contributes at most 1, so the numerator is at most the
      number of unordered pairs. */
  lemma {:induction false} PairRecipBounds(p: Matrix, count: nat)
    requires IsSquare(p)
    ensures 0.0 <= PairRecip(p, count) <= ((count * (count - 1)) as real) / 2.0
  {
    if count > 0 {
      PairRecipBounds(p, count - 1);
      RowRecipBounds(p, count - 1, count - 1);
      assert count * (count - 1) == (count - 1) * (count - 2) + 2 * (count - 1);
    }
  }

  /** The Fd-measure lies in [0, 1], as its documentation promises: the
      working matrix has fewer than N nodes, so it has at most
      (N - 1) (N - 2) / 2 pairs. */
  lemma {:induction false} FdMeasureBounds(a: Matrix, n: nat)
    requires IsSquare(a) && |a| != 1 && |a| != 2 && n < |a|
    ensures 0.0 <= FdEntry(a, n) <= 1.0
  {
    var p := Pruned(a, n);
    PrunedExcludes(a, n);
    PairRecipBounds(p, |p|);
    FdValueBounds(|a|, |p|, PairRecip(p, |p|));
  }

  lemma {:induction false} FdValueBounds(size: nat, s: nat, numerator: real)
    requires size >= 3 && s < size
    requires 0.0 <= numerator <= ((s * (s - 1)) as real) / 2.0
    ensures 0.0 <= FdValue(size, numerator) <= 1.0
  {
    var pairs := s * (s - 1);
    var most := (size - 1) * (size - 2);
    PairsBelow(s, size);
    assert pairs <= most;
    var d := most as real / 2.0;
    assert d > 0.0 && numerator <= d;
    QuotientBounds(numerator, d);
  }

  /** Fewer nodes make fewer ordered pairs: s (s - 1) <= (N - 1) (N - 2)
      for s < N. */
  lemma {:induction false} PairsBelow(s: nat, size: nat)
    requires size >= 3 && s < size
    ensures s * (s - 1) <= (size - 1) * (size - 2)
    ensures (size - 1) * (size - 2) > 0
  {
    if s >= 1 {
      assert s * (s - 1) <= (size - 1) * (s - 1);
      assert (size - 1) * (s - 1) <= (size - 1) * (size - 2);
    }
  }

  lemma {:induction false} QuotientBounds(x: real, d: real)
    requires d > 0.0 && 0.0 <= x <= d
    ensures 0.0 <= x / d <= 1.0
  {
  }

  // ---------------------------------------------------------------------
  // A star's centre

  /** Removing the centre of a star prunes every leaf, so no component is
      left: the count measure is 0, the F-measure and the Fd-measure are 1
      and the entropy is 0. */
  lemma {:induction false} StarCentreMeasures(a: Matrix, ln: real -> real)
    requires IsSquare(a) && |a| >= 3
    requires forall i, j :: 0 <= i < |a| && 0 <= j < |a| ==>
               a[i][j] == if (i == 0) != (j == 0) then 1 else 0
    ensures CountEntry(a, 0) == 0.0
    ensures FEntry(a, 0) == 1.0
    ensures EntropyEntry(a, 0, ln) == 0.0
    ensures FdEntry(a, 0) == 1.0
  {
    StarCentre(a);
    var p := Pruned(a, 0);
    assert Classes(p) == {};
    assert ClassSeq(p) == [];
  }
}
