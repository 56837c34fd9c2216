/** Connectivity routines of project/our_functions.py: whether a graph is
    connected, its connected components (each returned as an adjacency
    matrix of the original size), the node count of a component and the
    largest component. All of them are built on breadth-first search. */
module Connectivity {
  import opened Matrices
  import opened Paths
  import opened Bfs

  /** The nodes reachable from s. */
  ghost function ReachSet(a: Matrix, s: nat): (r: set<nat>)
    requires IsSquare(a) && s < |a|
    ensures forall w :: w in r <==> Reachable(a, s, w)
  {
    var r := set w: nat | w < |a| && Reachable(a, s, w);
    forall w | Reachable(a, s, w)
      ensures w in r
    {
      ReachableInRange(a, s, w);
    }
    r
  }

  lemma {:induction false} ReachSetInRange(a: Matrix, s: nat)
    requires IsSquare(a) && s < |a|
    ensures forall w :: w in ReachSet(a, s) ==> w < |a|
    ensures s in ReachSet(a, s)
  {
    ReachableSelf(a, s);
  }

  /** The layers a breadth-first search returns, as its postcondition states
      them. */
  ghost predicate IsLayering(a: Matrix, s: nat, layers: seq<set<nat>>)
    requires IsSquare(a)
  {
    && |layers| >= 2
    && layers[|layers| - 1] == {}
    && (forall d, w :: 0 <= d < |layers| ==> (w in layers[d] <==> AtDistance(a, s, w, d)))
    && (forall w :: w in Union(layers) <==> Reachable(a, s, w))
  }

  lemma {:induction false} UnionPrefix(p: seq<set<nat>>, i: nat)
    requires i < |p|
    ensures Union(p[..i + 1]) == Union(p[..i]) + p[i]
    ensures SizeSum(p[..i + 1]) == SizeSum(p[..i]) + |p[i]|
  {
    assert p[..i + 1][..i] == p[..i];
  }

  /** All layers but the trailing empty one hold the reachable nodes, each
      once: their sizes add up to the number of reachable nodes. */
  lemma {:induction false} LayeringCounts(a: Matrix, s: nat, layers: seq<set<nat>>)
    requires IsSquare(a) && s < |a| && IsLayering(a, s, layers)
    ensures Union(layers[..|layers| - 1]) == ReachSet(a, s)
    ensures SizeSum(layers[..|layers| - 1]) == |ReachSet(a, s)|
  {
    var init := layers[..|layers| - 1];
    assert layers == init + [{}];
    UnionAppend(init, {});
    forall j, k | 0 <= j < |init| && 0 <= k < |init| && j != k
      ensures init[j] * init[k] == {}
    {
      forall w | w in init[j] && w in init[k]
        ensures false
      {
        assert AtDistance(a, s, w, j) && AtDistance(a, s, w, k);
        DistanceUnique(a, s, w, j, k);
      }
    }
    UnionSize(init);
  }

  /** Counting the nodes of every layer but the last gives the number of
      nodes exactly when every node is reachable. */
  lemma {:induction false} CountMeansConnected(a: Matrix, s: nat, count: int)
    requires IsSquare(a) && s < |a| && count == |ReachSet(a, s)|
    ensures count == |a| <==> forall w :: 0 <= w < |a| ==> Reachable(a, s, w)
  {
    ReachSetInRange(a, s);
    SubsetOfRange(ReachSet(a, s), |a|);
    if forall w :: 0 <= w < |a| ==> Reachable(a, s, w) {
      assert ReachSet(a, s) == RangeSet(|a|);
    }
    if count == |a| {
      forall w | 0 <= w < |a|
        ensures Reachable(a, s, w)
      {
        assert w in RangeSet(|a|);
      }
    }
  }

  /** `connected_graph`: search from node 0 and compare the number of nodes
      found with the number of nodes. The graph is connected exactly when
      every node can be reached from node 0. */
  method ConnectedGraph(a: Matrix) returns (r: bool)
    requires IsSquare(a) && |a| >= 1
    ensures r <==> forall w :: 0 <= w < |a| ==> Reachable(a, 0, w)
  {
    var layers := BreadthFirstSearch(a, 0);
    // every layer but the trailing empty one
    var found := layers[..|layers| - 1];
    var count := 0;
    for i := 0 to |found|
      invariant count == SizeSum(found[..i])
    {
      UnionPrefix(found, i);
      count := count + |found[i]|;
    }
    assert found[..|found|] == found;
    LayeringCounts(a, 0, layers);
    CountMeansConnected(a, 0, count);
    r := count == |a|;
  }

  /** The component matrix of a node set M: rows and columns of the nodes in
      M are copied from the adjacency matrix, every other entry is zero. */
  function Restrict(a: Matrix, m: set<nat>): (c: Matrix)
    requires IsSquare(a)
    ensures IsSquare(c) && |c| == |a|
    ensures forall i, j :: 0 <= i < |a| && 0 <= j < |a| ==>
              c[i][j] == if i in m || j in m then a[i][j] else 0
  {
    seq(|a|, i requires 0 <= i < |a| => RestrictRow(a, m, i))
  }

  /** Row i of `Restrict(a, m)`. */
  function RestrictRow(a: Matrix, m: set<nat>, i: nat): (r: seq<int>)
    requires IsSquare(a) && i < |a|
    ensures |r| == |a|
    ensures forall j :: 0 <= j < |a| ==> r[j] == if i in m || j in m then a[i][j] else 0
  {
    seq(|a|, j requires 0 <= j < |a| => if i in m || j in m then a[i][j] else 0)
  }

  /** A partition of the nodes into connected components: every part is the
      reachability class of each of its members, parts are disjoint and
      together they cover every node. */
  ghost predicate IsComponentPartition(a: Matrix, parts: seq<set<nat>>)
    requires IsSquare(a)
  {
    && (forall k :: 0 <= k < |parts| ==> parts[k] != {})
    && (forall k :: 0 <= k < |parts| ==> forall x :: x in parts[k] ==> x < |a| && parts[k] == ReachSet(a, x))
    && PairwiseDisjoint(parts)
    && Union(parts) == RangeSet(|a|)
  }

  /** `find_components`: repeatedly search from a node not yet assigned to
      a component. The node is taken from the front of the set's iteration
      order, which is modelled as an arbitrary remaining node. Each
      component is the set of nodes reachable from its root, the root was
      not in an earlier component, the components cover every node, and the
      returned matrices are the component matrices. */
  method FindComponents(a: Matrix) returns (components: seq<Matrix>, ghost roots: seq<nat>,
                                            ghost members: seq<set<nat>>)
    requires IsSquare(a)
    ensures |components| == |roots| == |members|
    ensures forall k :: 0 <= k < |members| ==>
              roots[k] < |a| && members[k] == ReachSet(a, roots[k]) &&
              roots[k] !in Union(members[..k]) && components[k] == Restrict(a, members[k])
    ensures Union(members) == RangeSet(|a|)
  {
    components, roots, members := [], [], [];
    var searchList := RangeSet(|a|);
    while searchList != {}
      invariant searchList <= RangeSet(|a|)
      invariant Union(members) == RangeSet(|a|) - searchList
      invariant |components| == |roots| == |members|
      invariant forall k :: 0 <= k < |members| ==> roots[k] < |a| && members[k] == ReachSet(a, roots[k])
      invariant forall k :: 0 <= k < |members| ==> roots[k] !in Union(members[..k])
      invariant forall k :: 0 <= k < |members| ==> components[k] == Restrict(a, members[k])
      decreases searchList
    {
      var vertex :| vertex in searchList;
      var allNodes := SearchedNodes(a, vertex);
      ReachSetInRange(a, vertex);
      var component := Restrict(a, allNodes);
      ComponentStep(a, roots, members, searchList, vertex, allNodes);
      roots := roots + [vertex];
      members := members + [allNodes];
      searchList := searchList - allNodes;
      components := components + [component];
    }
  }

  /** Adding the class of a node not yet assigned keeps the loop invariant
      of `FindComponents`. */
  lemma {:induction false} ComponentStep(a: Matrix, roots: seq<nat>, members: seq<set<nat>>, searchList: set<nat>,
                      vertex: nat, allNodes: set<nat>)
    requires IsSquare(a) && |roots| == |members|
    requires searchList <= RangeSet(|a|)
    requires Union(members) == RangeSet(|a|) - searchList
    requires forall k :: 0 <= k < |members| ==> roots[k] < |a| && members[k] == ReachSet(a, roots[k])
    requires forall k :: 0 <= k < |members| ==> roots[k] !in Union(members[..k])
    requires vertex in searchList && allNodes == ReachSet(a, vertex)
    ensures var members' := members + [allNodes];
      var roots' := roots + [vertex];
      && searchList - allNodes <= RangeSet(|a|)
      && Union(members') == RangeSet(|a|) - (searchList - allNodes)
      && (forall k :: 0 <= k < |members'| ==> roots'[k] < |a| && members'[k] == ReachSet(a, roots'[k]))
      && (forall k :: 0 <= k < |members'| ==> roots'[k] !in Union(members'[..k]))
  {
    ReachSetInRange(a, vertex);
    CoverStep(members, searchList, allNodes, |a|);
    RootsStep(roots, members, vertex, allNodes);
  }

  lemma {:induction false} CoverStep(members: seq<set<nat>>, searchList: set<nat>, allNodes: set<nat>, n: nat)
    requires searchList <= RangeSet(n) && Union(members) == RangeSet(n) - searchList
    requires forall w :: w in allNodes ==> w < n
    ensures Union(members + [allNodes]) == RangeSet(n) - (searchList - allNodes)
  {
    UnionAppend(members, allNodes);
  }

  lemma {:induction false} RootsStep(roots: seq<nat>, members: seq<set<nat>>, vertex: nat, allNodes: set<nat>)
    requires |roots| == |members|
    requires forall k :: 0 <= k < |members| ==> roots[k] !in Union(members[..k])
    requires vertex !in Union(members)
    ensures var members' := members + [allNodes];
      forall k :: 0 <= k < |members'| ==> (roots + [vertex])[k] !in Union(members'[..k])
  {
    var members' := members + [allNodes];
    assert members'[..|members|] == members;
    forall k | 0 <= k < |members|
      ensures members'[..k] == members[..k]
    {
    }
  }

  /** The nodes a breadth-first search from `vertex` finds: the union of
      all its layers but the trailing empty one, which is the set of nodes
      reachable from `vertex`. */
  method SearchedNodes(a: Matrix, vertex: nat) returns (allNodes: set<nat>)
    requires IsSquare(a) && vertex < |a|
    ensures allNodes == ReachSet(a, vertex)
  {
    var layers := BreadthFirstSearch(a, vertex);
    var nodeSets := layers[..|layers| - 1];
    allNodes := {};
    for i := 0 to |nodeSets|
      invariant allNodes == Union(nodeSets[..i])
    {
      UnionPrefix(nodeSets, i);
      allNodes := allNodes + nodeSets[i];
    }
    assert nodeSets[..|nodeSets|] == nodeSets;
    LayeringCounts(a, vertex, layers);
  }

  /** In a symmetric matrix the components found form a partition into
      connected components. */
  lemma {:induction false} ComponentsPartition(a: Matrix, roots: seq<nat>, members: seq<set<nat>>)
    requires IsSymmetric(a)
    requires |roots| == |members|
    requires forall k :: 0 <= k < |members| ==>
               roots[k] < |a| && members[k] == ReachSet(a, roots[k]) && roots[k] !in Union(members[..k])
    requires Union(members) == RangeSet(|a|)
    ensures IsComponentPartition(a, members)
  {
    forall k | 0 <= k < |members|
      ensures members[k] != {}
    {
      ReachSetInRange(a, roots[k]);
    }
    forall k, x | 0 <= k < |members| && x in members[k]
      ensures x < |a| && members[k] == ReachSet(a, x)
    {
      SameClass(a, roots[k], x);
    }
    forall j, k | 0 <= j < |members| && 0 <= k < |members| && j != k
      ensures members[j] * members[k] == {}
    {
      if j < k {
        ClassesApart(a, roots, members, j, k);
      } else {
        ClassesApart(a, roots, members, k, j);
      }
    }
  }

  /** Any member of a reachability class has that same class. */
  lemma {:induction false} SameClass(a: Matrix, s: nat, x: nat)
    requires IsSymmetric(a) && s < |a| && x in ReachSet(a, s)
    ensures x < |a| && ReachSet(a, x) == ReachSet(a, s)
  {
    ReachableInRange(a, s, x);
    ReachableSymmetric(a, s, x);
    forall w | w in ReachSet(a, x)
      ensures w in ReachSet(a, s)
    {
      ReachableTransitive(a, s, x, w);
    }
    forall w | w in ReachSet(a, s)
      ensures w in ReachSet(a, x)
    {
      ReachableTransitive(a, x, s, w);
    }
  }

  lemma {:induction false} ClassesApart(a: Matrix, roots: seq<nat>, members: seq<set<nat>>, j: nat, k: nat)
    requires IsSymmetric(a)
    requires |roots| == |members|
    requires forall k :: 0 <= k < |members| ==>
               roots[k] < |a| && members[k] == ReachSet(a, roots[k]) && roots[k] !in Union(members[..k])
    requires j < k < |members|
    ensures members[j] * members[k] == {}
  {
    var mj, mk := members[j], members[k];
    ReachSetInRange(a, roots[k]);
    UnionMember(members[..k], roots[k]);
    assert members[..k][j] == mj;
    assert roots[k] in mk && roots[k] !in mj;
    forall x | x in mk
      ensures x !in mj
    {
      SameClass(a, roots[k], x);
      assert x in mj ==> x in ReachSet(a, roots[j]);
      SameClassIf(a, roots[j], x);
    }
  }

  lemma {:induction false} SameClassIf(a: Matrix, s: nat, x: nat)
    requires IsSymmetric(a) && s < |a|
    ensures x in ReachSet(a, s) ==> ReachSet(a, x) == ReachSet(a, s)
  {
    if x in ReachSet(a, s) {
      SameClass(a, s, x);
    }
  }

  lemma {:induction false} PartMember(a: Matrix, parts: seq<set<nat>>, k: nat, x: nat)
    requires IsSquare(a) && IsComponentPartition(a, parts)
    requires k < |parts| && x in parts[k]
    ensures x < |a| && parts[k] == ReachSet(a, x)
  {
  }

  /** A graph is connected exactly when it has one component. */
  lemma {:induction false} ConnectedIffOneComponent(a: Matrix, parts: seq<set<nat>>)
    requires IsSymmetric(a) && |a| >= 1 && IsComponentPartition(a, parts)
    ensures |parts| == 1 <==> forall w :: 0 <= w < |a| ==> Reachable(a, 0, w)
  {
    assert 0 in RangeSet(|a|);
    UnionMember(parts, 0);
    var k :| 0 <= k < |parts| && 0 in parts[k];
    assert parts[k] == ReachSet(a, 0);
    if |parts| == 1 {
      forall w | 0 <= w < |a|
        ensures Reachable(a, 0, w)
      {
        assert w in RangeSet(|a|);
        UnionMember(parts, w);
      }
    }
    if forall w :: 0 <= w < |a| ==> Reachable(a, 0, w) {
      forall j {:trigger parts[j]} | 0 <= j < |parts|
        ensures j == k
      {
        var x :| x in parts[j];
        PartMember(a, parts, j, x);
        assert Reachable(a, 0, x);
        assert x in parts[j] * parts[k];
        assert PairwiseDisjoint(parts);
      }
      assert parts[0] != {} && parts[|parts| - 1] != {};
    }
  }

  /** `num_nodes`: how many rows have a nonzero sum (numpy's
      `count_nonzero` of the row sums). */
  function NumNodes(m: Matrix): (r: nat)
    ensures r <= |m|
  {
    if m == [] then 0
    else NumNodes(m[..|m| - 1]) + (if RowSum(m[|m| - 1]) != 0 then 1 else 0)
  }

  /** The rows with a nonzero sum. */
  ghost function NonzeroRows(m: Matrix): (rows: set<nat>)
  {
    set i: nat | i < |m| && RowSum(m[i]) != 0
  }

  /** `NumNodes` counts the rows with a nonzero sum. */
  lemma {:induction false} NumNodesCounts(m: Matrix)
    ensures NumNodes(m) == |NonzeroRows(m)|
  {
    if m != [] {
      var init := m[..|m| - 1];
      NumNodesCounts(init);
      var last: set<nat> := if RowSum(m[|m| - 1]) != 0 then {|m| - 1} else {};
      assert NonzeroRows(m) == NonzeroRows(init) + last by {
        forall i: nat | i < |init|
          ensures init[i] == m[i]
        {
        }
      }
      assert |m| - 1 !in NonzeroRows(init);
    }
  }

  /** A walk from s that ends elsewhere leaves s along an edge. */
  lemma {:induction false} FirstStep(a: Matrix, s: nat, w: nat, k: nat)
    requires IsSquare(a) && s < |a| && InBall(a, s, w, k) && w != s
    ensures exists v :: 0 <= v < |a| && a[s][v] == 1
    decreases k
  {
    assert k != 0;
    if InBall(a, s, w, k - 1) {
      FirstStep(a, s, w, k - 1);
    } else {
      var v: nat :| v < |a| && InBall(a, s, v, k - 1) && a[v][w] == 1;
      if v == s {
        assert a[s][w] == 1;
      } else {
        FirstStep(a, s, v, k - 1);
      }
    }
  }

  /** In an undirected simple graph, a node has an edge exactly when its
      component has another node. */
  lemma {:induction false} HasEdgeIffShared(a: Matrix, s: nat, i: nat)
    requires IsGraph(a) && s < |a| && i in ReachSet(a, s)
    ensures (exists j :: 0 <= j < |a| && a[i][j] == 1) <==> |ReachSet(a, s)| >= 2
  {
    SameClass(a, s, i);
    if exists j :: 0 <= j < |a| && a[i][j] == 1 {
      var j :| 0 <= j < |a| && a[i][j] == 1;
      EdgeMeansShared(a, i, j);
    }
    if |ReachSet(a, i)| >= 2 {
      SharedMeansEdge(a, i);
    }
  }

  lemma {:induction false} EdgeMeansShared(a: Matrix, i: nat, j: nat)
    requires IsGraph(a) && i < |a| && j < |a| && a[i][j] == 1
    ensures |ReachSet(a, i)| >= 2
  {
    var m := ReachSet(a, i);
    assert InBall(a, i, i, 0);
    BallStep(a, i, i, j, 0);
    assert i != j;
    assert i in m && j in m;
    assert m == (m - {i, j}) + {i, j};
  }

  lemma {:induction false} SharedMeansEdge(a: Matrix, i: nat)
    requires IsSquare(a) && i < |a| && |ReachSet(a, i)| >= 2
    ensures exists j :: 0 <= j < |a| && a[i][j] == 1
  {
    var m := ReachSet(a, i);
    assert m - {i} != {} by {
      assert m <= (m - {i}) + {i};
      assert |m| <= |m - {i}| + 1;
    }
    var w :| w in m - {i};
    var k: nat :| InBall(a, i, w, k);
    FirstStep(a, i, w, k);
  }

  /** No edge leaves a connected component of an undirected 0/1 graph. */
  lemma {:induction false} ClassClosed(a: Matrix, s: nat, i: nat, j: nat)
    requires IsBinary(a) && IsSymmetric(a) && s < |a|
    requires i < |a| && j < |a| && j in ReachSet(a, s) && i !in ReachSet(a, s)
    ensures a[i][j] == 0 && a[j][i] == 0
  {
    var k: nat :| InBall(a, s, j, k);
    if a[j][i] == 1 {
      BallStep(a, s, j, i, k);
    }
  }

  /** In an undirected 0/1 graph a component matrix keeps exactly the edges
      between nodes of the component: it is the adjacency matrix of the
      component, padded with zeros to the original size. */
  lemma {:induction false} ComponentMatrixInduced(a: Matrix, s: nat)
    requires IsBinary(a) && IsSymmetric(a) && s < |a|
    ensures var m := ReachSet(a, s);
      forall i, j :: 0 <= i < |a| && 0 <= j < |a| ==>
        Restrict(a, m)[i][j] == if i in m && j in m then a[i][j] else 0
  {
    var m := ReachSet(a, s);
    forall i, j | 0 <= i < |a| && 0 <= j < |a|
      ensures Restrict(a, m)[i][j] == if i in m && j in m then a[i][j] else 0
    {
      if i in m && j !in m {
        ClassClosed(a, s, j, i);
      } else if i !in m && j in m {
        ClassClosed(a, s, i, j);
      }
    }
  }

  /** The rows of a component matrix that `num_nodes` counts: in an
      undirected simple graph, every node of a component with at least two
      nodes, and none of a single-node component. */
  lemma {:induction false} NumNodesOfComponent(a: Matrix, s: nat)
    requires IsGraph(a) && s < |a|
    ensures NumNodes(Restrict(a, ReachSet(a, s))) ==
            if |ReachSet(a, s)| >= 2 then |ReachSet(a, s)| else 0
  {
    var m := ReachSet(a, s);
    var c := Restrict(a, m);
    ReachSetInRange(a, s);
    forall i: nat | i < |a|
      ensures i in NonzeroRows(c) <==> i in m && |m| >= 2
    {
      forall j | 0 <= j < |a|
        ensures c[i][j] >= 0
      {
      }
      RowSumNonzero(c[i]);
      if i in m {
        HasEdgeIffShared(a, s, i);
        forall j | 0 <= j < |a|
          ensures c[i][j] == a[i][j]
        {
        }
      } else {
        forall j | 0 <= j < |a|
          ensures c[i][j] == 0
        {
          if j in m {
            ClassClosed(a, s, i, j);
          }
        }
      }
    }
    NumNodesCounts(c);
    if |m| >= 2 {
      assert NonzeroRows(c) == m;
    } else {
      assert NonzeroRows(c) == {};
    }
  }

  /** What `find_largest_component` returns: the first component with the
      most nodes and its node count, or no component when every count is
      zero (the source then fails on an unset index). */
  datatype LargestComponent = Largest(component: Matrix, size: nat) | NoComponent

  /** `find_largest_component`: scan the components keeping the first one
      whose node count beats every earlier count. */
  method FindLargestComponent(components: seq<Matrix>) returns (r: LargestComponent, ghost index: nat)
    ensures r.NoComponent? <==> forall k :: 0 <= k < |components| ==> NumNodes(components[k]) == 0
    ensures r.Largest? ==>
              && index < |components| && r.component == components[index]
              && r.size == NumNodes(components[index]) > 0
              && (forall k :: 0 <= k < |components| ==> NumNodes(components[k]) <= r.size)
              && (forall k :: 0 <= k < index ==> NumNodes(components[k]) < r.size)
  {
    var size := 0;
    var largestIndex := 0;
    for c := 0 to |components|
      invariant largestIndex <= c
      invariant size == 0 ==> forall k :: 0 <= k < c ==> NumNodes(components[k]) == 0
      invariant size > 0 ==> largestIndex < c && size == NumNodes(components[largestIndex])
      invariant forall k :: 0 <= k < c ==> NumNodes(components[k]) <= size
      invariant forall k :: 0 <= k < largestIndex ==> NumNodes(components[k]) < size
    {
      var n := NumNodes(components[c]);
      if n > size {
        size := n;
        largestIndex := c;
      }
    }
    index := largestIndex;
    if size > 0 {
      r := Largest(components[largestIndex], size);
    } else {
      r := NoComponent;
    }
  }
}
