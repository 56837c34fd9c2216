/** The connected components of a matrix as a set of reachability classes,
    independent of the order in which `find_components` happens to
    discover them, and sums over them that do not depend on that order. */
module Components {
  import opened Matrices
  import opened Paths
  import opened Connectivity

  /** The reachability classes of the nodes of a. */
  ghost function Classes(a: Matrix): (cs: set<set<nat>>)
    requires IsSquare(a)
  {
    set x: nat | x < |a| :: ReachSet(a, x)
  }

  ghost predicate Distinct(xs: seq<set<nat>>)
  {
    forall i, j :: 0 <= i < |xs| && 0 <= j < |xs| && i != j ==> xs[i] != xs[j]
  }

  /** Some enumeration without repetition of a finite set of node sets. */
  ghost function SetToSeq(s: set<set<nat>>): (xs: seq<set<nat>>)
    ensures Distinct(xs)
    ensures forall c :: c in xs <==> c in s
    ensures |xs| == |s|
    decreases s
  {
    if s == {} then []
    else
      var c :| c in s;
      SetToSeq(s - {c}) + [c]
  }

  /** The components of a, in a fixed order. */
  ghost function ClassSeq(a: Matrix): (parts: seq<set<nat>>)
    requires IsSquare(a)
  {
    SetToSeq(Classes(a))
  }

  /** Sum of g over a sequence of node sets. */
  ghost function SumOver(xs: seq<set<nat>>, g: set<nat> -> int): (sum: int)
  {
    if xs == [] then 0 else SumOver(xs[..|xs| - 1], g) + g(xs[|xs| - 1])
  }

  ghost function RealSumOver(xs: seq<set<nat>>, g: set<nat> -> real): (sum: real)
  {
    if xs == [] then 0.0 else RealSumOver(xs[..|xs| - 1], g) + g(xs[|xs| - 1])
  }

  lemma {:induction false} SumOverRemoveAt(xs: seq<set<nat>>, i: nat, g: set<nat> -> int)
    requires i < |xs|
    ensures SumOver(xs, g) == SumOver(xs[..i] + xs[i + 1..], g) + g(xs[i])
  {
    var rest := xs[..i] + xs[i + 1..];
    if i < |xs| - 1 {
      var init := xs[..|xs| - 1];
      SumOverRemoveAt(init, i, g);
      assert init[..i] + init[i + 1..] == rest[..|rest| - 1];
    } else {
      assert rest == xs[..|xs| - 1];
    }
  }

  lemma {:induction false} RealSumOverRemoveAt(xs: seq<set<nat>>, i: nat, g: set<nat> -> real)
    requires i < |xs|
    ensures RealSumOver(xs, g) == RealSumOver(xs[..i] + xs[i + 1..], g) + g(xs[i])
  {
    var rest := xs[..i] + xs[i + 1..];
    if i < |xs| - 1 {
      var init := xs[..|xs| - 1];
      RealSumOverRemoveAt(init, i, g);
      assert init[..i] + init[i + 1..] == rest[..|rest| - 1];
    } else {
      assert rest == xs[..|xs| - 1];
    }
  }

  lemma {:induction false} FirstMember(ys: seq<set<nat>>)
    ensures ys == [] || ys[0] in ys
  {
  }

  lemma {:induction false} NoMembersEmpty(ys: seq<set<nat>>)
    requires forall c :: c !in ys
    ensures ys == []
  {
    FirstMember(ys);
  }

  /** Removing entry i of a sequence without repetition removes exactly
      that member. */
  lemma {:induction false} RemoveAtMembers(ys: seq<set<nat>>, i: nat)
    requires Distinct(ys) && i < |ys|
    ensures Distinct(ys[..i] + ys[i + 1..])
    ensures forall c :: c in ys[..i] + ys[i + 1..] <==> c in ys && c != ys[i]
  {
    var rest := ys[..i] + ys[i + 1..];
    assert forall k :: 0 <= k < |rest| ==> rest[k] == if k < i then ys[k] else ys[k + 1];
    forall c | c in ys && c != ys[i]
      ensures c in rest
    {
      var k :| 0 <= k < |ys| && ys[k] == c;
      if k < i {
        assert rest[k] == c;
      } else {
        assert rest[k - 1] == c;
      }
    }
  }

  /** Two enumerations of the same set without repetition give the same
      sum. */
  lemma {:induction false} SumOverPermutation(xs: seq<set<nat>>, ys: seq<set<nat>>, g: set<nat> -> int)
    requires Distinct(xs) && Distinct(ys)
    requires forall c :: c in xs <==> c in ys
    ensures SumOver(xs, g) == SumOver(ys, g)
    decreases |xs|
  {
    if xs == [] {
      NoMembersEmpty(ys);
    } else {
      var x := xs[|xs| - 1];
      var init := xs[..|xs| - 1];
      assert x in ys;
      var i :| 0 <= i < |ys| && ys[i] == x;
      RemoveAtMembers(ys, i);
      assert forall c :: c in init <==> c in xs && c != x by {
        forall c | c in init
          ensures c != x
        {
          var k :| 0 <= k < |init| && init[k] == c;
          assert xs[k] == c;
        }
        forall c | c in xs && c != x
          ensures c in init
        {
          var k :| 0 <= k < |xs| && xs[k] == c;
          assert init[k] == c;
        }
      }
      SumOverPermutation(init, ys[..i] + ys[i + 1..], g);
      SumOverRemoveAt(ys, i, g);
    }
  }

  lemma {:induction false} RealSumOverPermutation(xs: seq<set<nat>>, ys: seq<set<nat>>, g: set<nat> -> real)
    requires Distinct(xs) && Distinct(ys)
    requires forall c :: c in xs <==> c in ys
    ensures RealSumOver(xs, g) == RealSumOver(ys, g)
    decreases |xs|
  {
    if xs == [] {
      NoMembersEmpty(ys);
    } else {
      var x := xs[|xs| - 1];
      var init := xs[..|xs| - 1];
      assert x in ys;
      var i :| 0 <= i < |ys| && ys[i] == x;
      RemoveAtMembers(ys, i);
      assert forall c :: c in init <==> c in xs && c != x by {
        forall c | c in init
          ensures c != x
        {
          var k :| 0 <= k < |init| && init[k] == c;
          assert xs[k] == c;
        }
        forall c | c in xs && c != x
          ensures c in init
        {
          var k :| 0 <= k < |xs| && xs[k] == c;
          assert init[k] == c;
        }
      }
      RealSumOverPermutation(init, ys[..i] + ys[i + 1..], g);
      RealSumOverRemoveAt(ys, i, g);
    }
  }

  /** Two enumerations of the same set without repetition have the same
      length. */
  lemma {:induction false} PermutationLength(xs: seq<set<nat>>, ys: seq<set<nat>>)
    requires Distinct(xs) && Distinct(ys)
    requires forall c :: c in xs <==> c in ys
    ensures |xs| == |ys|
    decreases |xs|
  {
    if xs == [] {
      NoMembersEmpty(ys);
    } else {
      var x := xs[|xs| - 1];
      var init := xs[..|xs| - 1];
      assert x in ys;
      var i :| 0 <= i < |ys| && ys[i] == x;
      RemoveAtMembers(ys, i);
      assert forall c :: c in init <==> c in xs && c != x by {
        forall c | c in init
          ensures c != x
        {
          var k :| 0 <= k < |init| && init[k] == c;
          assert xs[k] == c;
        }
        forall c | c in xs && c != x
          ensures c in init
        {
          var k :| 0 <= k < |xs| && xs[k] == c;
          assert init[k] == c;
        }
      }
      PermutationLength(init, ys[..i] + ys[i + 1..]);
    }
  }

  /** The parts of a component partition are exactly the classes, each
      once. */
  lemma {:induction false} PartitionIsClasses(a: Matrix, parts: seq<set<nat>>)
    requires IsSquare(a) && IsComponentPartition(a, parts)
    ensures Distinct(parts)
    ensures forall c :: c in parts <==> c in Classes(a)
  {
    forall i, j | 0 <= i < |parts| && 0 <= j < |parts| && i != j
      ensures parts[i] != parts[j]
    {
      var x :| x in parts[i];
      assert parts[i] * parts[j] == {};
      assert x !in parts[j];
    }
    forall c | c in parts
      ensures c in Classes(a)
    {
      var k :| 0 <= k < |parts| && parts[k] == c;
      var x :| x in parts[k];
      PartMember(a, parts, k, x);
    }
    forall c | c in Classes(a)
      ensures c in parts
    {
      var x: nat :| x < |a| && c == ReachSet(a, x);
      assert x in RangeSet(|a|);
      UnionMember(parts, x);
      var k :| 0 <= k < |parts| && x in parts[k];
      PartMember(a, parts, k, x);
    }
  }

  /** In a symmetric matrix the classes, enumerated, form a component
      partition. */
  lemma {:induction false} ClassSeqPartition(a: Matrix)
    requires IsSymmetric(a)
    ensures IsComponentPartition(a, ClassSeq(a))
  {
    var parts := ClassSeq(a);
    ClassPartsRooted(a, parts);
    ClassPartsDisjoint(a, parts);
    ClassPartsCover(a, parts);
  }

  /** Each class is nonempty and is the class of every one of its members. */
  lemma {:induction false} ClassPartsRooted(a: Matrix, parts: seq<set<nat>>)
    requires IsSymmetric(a)
    requires forall k :: 0 <= k < |parts| ==> parts[k] in Classes(a)
    ensures forall k :: 0 <= k < |parts| ==> parts[k] != {}
    ensures forall k :: 0 <= k < |parts| ==>
      forall x :: x in parts[k] ==> x < |a| && parts[k] == ReachSet(a, x)
  {
    forall k | 0 <= k < |parts|
      ensures parts[k] != {}
      ensures forall x :: x in parts[k] ==> x < |a| && parts[k] == ReachSet(a, x)
    {
      var s: nat :| s < |a| && parts[k] == ReachSet(a, s);
      ReachSetInRange(a, s);
      forall x | x in parts[k]
        ensures x < |a| && parts[k] == ReachSet(a, x)
      {
        SameClass(a, s, x);
      }
    }
  }

  /** Distinct classes share no node. */
  lemma {:induction false} ClassPartsDisjoint(a: Matrix, parts: seq<set<nat>>)
    requires IsSymmetric(a) && Distinct(parts)
    requires forall k :: 0 <= k < |parts| ==> parts[k] in Classes(a)
    ensures PairwiseDisjoint(parts)
  {
    ClassPartsRooted(a, parts);
    forall j, k | 0 <= j < |parts| && 0 <= k < |parts| && j != k
      ensures parts[j] * parts[k] == {}
    {
      forall x | x in parts[j]
        ensures x !in parts[k]
      {
        assert parts[j] == ReachSet(a, x) && parts[j] != parts[k];
      }
    }
  }

  /** Every class listed, the classes together hold exactly the nodes. */
  lemma {:induction false} ClassPartsCover(a: Matrix, parts: seq<set<nat>>)
    requires IsSymmetric(a)
    requires forall c :: c in parts <==> c in Classes(a)
    ensures Union(parts) == RangeSet(|a|)
  {
    ClassPartsRooted(a, parts);
    forall x: nat
      ensures x in Union(parts) <==> x < |a|
    {
      UnionMember(parts, x);
      if x < |a| {
        ReachSetInRange(a, x);
        assert ReachSet(a, x) in Classes(a);
        assert ReachSet(a, x) in parts;
      }
    }
  }

  /** Any component partition enumerates the classes: it has one part per
      class, and a sum over its parts equals the sum over `ClassSeq`,
      whatever order the parts were found in. */
  lemma {:induction false} PartitionCount(a: Matrix, parts: seq<set<nat>>)
    requires IsSquare(a) && IsComponentPartition(a, parts)
    ensures |parts| == |Classes(a)|
  {
    PartitionIsClasses(a, parts);
    PermutationLength(parts, ClassSeq(a));
  }

  lemma {:induction false} PartitionSum(a: Matrix, parts: seq<set<nat>>, g: set<nat> -> int)
    requires IsSquare(a) && IsComponentPartition(a, parts)
    ensures SumOver(parts, g) == SumOver(ClassSeq(a), g)
  {
    PartitionIsClasses(a, parts);
    SumOverPermutation(parts, ClassSeq(a), g);
  }

  lemma {:induction false} RealPartitionSum(a: Matrix, parts: seq<set<nat>>, g: set<nat> -> real)
    requires IsSquare(a) && IsComponentPartition(a, parts)
    ensures RealSumOver(parts, g) == RealSumOver(ClassSeq(a), g)
  {
    PartitionIsClasses(a, parts);
    RealSumOverPermutation(parts, ClassSeq(a), g);
  }

  /** Nonempty parts are at most as many as their total size. */
  lemma {:induction false} PartsBelowSize(parts: seq<set<nat>>)
    requires forall k :: 0 <= k < |parts| ==> parts[k] != {}
    ensures |parts| <= SizeSum(parts)
  {
    if parts != [] {
      PartsBelowSize(parts[..|parts| - 1]);
      assert |parts[|parts| - 1]| >= 1;
    }
  }

  /** A symmetric matrix has no more classes than nodes, and has none
      exactly when it has no nodes. */
  lemma {:induction false} ClassCountBound(a: Matrix)
    requires IsSymmetric(a)
    ensures |Classes(a)| <= |a|
    ensures |Classes(a)| == 0 <==> |a| == 0
  {
    var parts := ClassSeq(a);
    ClassPartsRooted(a, parts);
    ClassPartsDisjoint(a, parts);
    ClassPartsCover(a, parts);
    PartsBelowSize(parts);
    UnionSize(parts);
    assert |Classes(a)| == |parts| <= SizeSum(parts) == |Union(parts)| == |a|;
    if |a| > 0 {
      assert ReachSet(a, 0) in Classes(a);
    }
  }

  /** A symmetric matrix is connected exactly when it has one class. */
  lemma {:induction false} ConnectedIffOneClass(a: Matrix)
    requires IsSymmetric(a) && |a| >= 1
    ensures |Classes(a)| == 1 <==> forall w :: 0 <= w < |a| ==> Reachable(a, 0, w)
  {
    ClassSeqPartition(a);
    ConnectedIffOneComponent(a, ClassSeq(a));
  }
}
