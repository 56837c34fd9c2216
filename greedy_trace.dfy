/** The specification of the greedy key-terrorist selector of
    project/optimization_algorithms.py, as a trace of its selections:
    repeatedly remove the node of highest F-measure, keep a cumulative
    objective penalised by C = 0.15 per selected node, and stop once the
    objective no longer strictly increases. The bookkeeping of original
    indices is modelled as written: `np.delete(original_indices,
    original_indices[key])` deletes the POSITION equal to the stored index,
    and nodes pruned from the working matrix stay in the index list. */
module GreedyTrace {
  import opened Matrices
  import opened Fragmentation
  import opened Measures


  /** The penalty `C * count` with C = 0.15 that the objective pays once
      `count` nodes are selected. */
  function Penalty(count: nat): (p: real)
  {
    0.15 * (count as real)
  }


  datatype Option<T> = None | Some(value: T)

  /** How a run ends: the selection and its cumulative objective, or the
      exception the source raises. */
  datatype Outcome =
    | Selection(keys: seq<nat>, objective: seq<real>)
    | EmptyScore       // `max` (before the loop) or `np.argmax` (in it) of an empty score vector (ValueError)
    | ZeroDivision     // `F_measure` of a one-row matrix divides 0 by 0
    | IndexOutOfRange  // `np.delete` past the end of the index list

  /** Python's `max` over a nonempty vector. */
  function Max(xs: seq<real>): (m: real)
    requires xs != []
  {
    if |xs| == 1 then xs[0]
    else
      var m := Max(xs[..|xs| - 1]);
      if xs[|xs| - 1] > m then xs[|xs| - 1] else m
  }

  /** `np.argmax`: the lowest index holding the maximum. */
  function ArgMax(xs: seq<real>): (k: nat)
    requires xs != []
    ensures k < |xs|
  {
    if |xs| == 1 then 0
    else
      var k := ArgMax(xs[..|xs| - 1]);
      if xs[|xs| - 1] > xs[k] then |xs| - 1 else k
  }

  /** Max is an entry of the vector and bounds every entry. */
  lemma {:induction false} MaxIsMaximum(xs: seq<real>)
    requires xs != []
    ensures forall i :: 0 <= i < |xs| ==> xs[i] <= Max(xs)
    ensures exists i :: 0 <= i < |xs| && xs[i] == Max(xs)
  {
    if |xs| > 1 {
      var init := xs[..|xs| - 1];
      MaxIsMaximum(init);
      assert forall i :: 0 <= i < |init| ==> init[i] == xs[i];
      var j :| 0 <= j < |init| && init[j] == Max(init);
      if xs[|xs| - 1] > Max(init) {
        assert xs[|xs| - 1] == Max(xs);
      } else {
        assert xs[j] == Max(xs);
      }
    } else {
      assert xs[0] == Max(xs);
    }
  }

  /** ArgMax holds the maximum, and every earlier entry is strictly
      smaller: ties go to the lowest index. */
  lemma {:induction false} ArgMaxIsFirstMaximum(xs: seq<real>)
    requires xs != []
    ensures xs[ArgMax(xs)] == Max(xs)
    ensures forall i :: 0 <= i < ArgMax(xs) ==> xs[i] < xs[ArgMax(xs)]
  {
    if |xs| > 1 {
      var init := xs[..|xs| - 1];
      ArgMaxIsFirstMaximum(init);
      MaxIsMaximum(init);
      assert forall i :: 0 <= i < |init| ==> init[i] == xs[i];
    }
  }

  /** `np.array(range(n))`. */
  function Identity(n: nat): (r: seq<nat>)
    ensures |r| == n && forall i :: 0 <= i < n ==> r[i] == i
  {
    seq(n, i requires 0 <= i < n => i)
  }

  /** `np.delete(xs, i)`: the entry at position i is dropped, the others
      keep their order. */
  function RemoveAt(xs: seq<nat>, i: nat): (r: seq<nat>)
    requires i < |xs|
    ensures |r| == |xs| - 1
    ensures forall j :: 0 <= j < |r| ==> r[j] == if j < i then xs[j] else xs[j + 1]
  {
    xs[..i] + xs[i + 1..]
  }

  /** v is the F-measure vector of working matrix m: entry n is the F
      measure of m after removing node n. */
  ghost predicate IsFVector(m: Matrix, v: seq<real>)
  {
    && IsSquare(m) && |m| >= 2 && |v| == |m|
    && forall n :: 0 <= n < |m| ==> IsFEntry(m, n, v[n])
  }

  /** One selection step: working matrix m, scored v, and index list orig;
      the arg-max row's stored index is recorded as key, the matrix loses
      that row and every emptied node, and the index list loses the
      position equal to the stored index. */
  ghost predicate IsStep(m: Matrix, v: seq<real>, orig: seq<nat>, key: nat, next: Matrix, nextOrig: seq<nat>)
  {
    && IsFVector(m, v)
    && var k := ArgMax(v);
    && k < |orig|
    && key == orig[k]
    && key < |orig|
    && PrunedTo(m, k, next)
    && nextOrig == RemoveAt(orig, key)
  }

  /** next is m with node k removed and the emptied nodes pruned. Stated
      so that only a `Pruned` term in scope unfolds it, which keeps the
      selector's proofs from looking inside the pruning. */
  ghost predicate PrunedTo(m: Matrix, k: nat, next: Matrix)
    requires IsSquare(m)
  {
    forall n {:trigger Pruned(m, n)} :: n == k ==> next == Pruned(m, n)
  }

  /** trace[i], scores[i] and indices[i] are the working matrix, its
      F-measure vector and the index list before selection i, and keys[i]
      the stored index selection i records. The last working matrix may or
      may not have been scored. */
  ghost predicate Steps(trace: seq<Matrix>, scores: seq<seq<real>>, indices: seq<seq<nat>>, keys: seq<nat>)
    decreases |keys|
  {
    && |trace| == |keys| + 1
    && |indices| == |keys| + 1
    && |keys| <= |scores| <= |keys| + 1
    && (|keys| > 0 ==>
          var s := |keys| - 1;
          && Steps(trace[..s + 1], scores[..s + 1], indices[..s + 1], keys[..s])
          && IsStep(trace[s], scores[s], indices[s], keys[s], trace[s + 1], indices[s + 1]))
  }

  /** objective[i] is the cumulative objective once working matrix i is
      scored: objective[0] is the first best score less the penalty for one
      node, and every later entry adds its best score less the penalty for
      its selection count to the entry before. */
  ghost predicate Accumulates(objective: seq<real>, scores: seq<seq<real>>)
    decreases |objective|
  {
    && |objective| == |scores| >= 1
    && var last := |objective| - 1;
    && scores[last] != []
    && if last == 0 then objective[0] == Max(scores[0]) - Penalty(1)
       else
         && Accumulates(objective[..last], scores[..last])
         && objective[last] == objective[last - 1] + Max(scores[last]) - Penalty(last + 1)
  }

  lemma {:induction false} StepsAppend(trace: seq<Matrix>, scores: seq<seq<real>>, indices: seq<seq<nat>>, keys: seq<nat>,
                    next: Matrix, nextOrig: seq<nat>, key: nat)
    requires Steps(trace, scores, indices, keys) && |scores| == |keys| + 1
    requires IsStep(trace[|keys|], scores[|keys|], indices[|keys|], key, next, nextOrig)
    ensures Steps(trace + [next], scores, indices + [nextOrig], keys + [key])
  {
    assert (trace + [next])[..|keys| + 1] == trace;
    assert scores[..|keys| + 1] == scores;
    assert (indices + [nextOrig])[..|keys| + 1] == indices;
    assert (keys + [key])[..|keys|] == keys;
  }

  lemma {:induction false} StepsScored(trace: seq<Matrix>, scores: seq<seq<real>>, indices: seq<seq<nat>>, keys: seq<nat>,
                    v: seq<real>)
    requires Steps(trace, scores, indices, keys) && |scores| == |keys|
    ensures Steps(trace, scores + [v], indices, keys)
  {
    if |keys| > 0 {
      assert (scores + [v])[..|keys|] == scores[..|keys|];
    }
  }

  lemma {:induction false} AccumulatesAppend(objective: seq<real>, scores: seq<seq<real>>, v: seq<real>, value: real)
    requires Accumulates(objective, scores) && v != []
    requires value == objective[|objective| - 1] + Max(v) - Penalty(|objective| + 1)
    ensures Accumulates(objective + [value], scores + [v])
  {
    assert (objective + [value])[..|objective|] == objective;
    assert (scores + [v])[..|scores|] == scores;
  }

  /** The first `count` entries of objective strictly increase, each over
      the one before. */
  ghost predicate IncreasingUpTo(objective: seq<real>, count: nat)
    requires count <= |objective|
  {
    count <= 1 || (IncreasingUpTo(objective, count - 1) && objective[count - 2] < objective[count - 1])
  }

  /** The guard that let the loop run once more extends the strictly
      increasing prefix by one entry. */
  lemma {:induction false} IncreasingAppend(objective: seq<real>, count: nat, value: real)
    requires count + 1 == |objective|
    requires IncreasingUpTo(objective, count)
    requires count >= 1 ==> objective[count - 1] < objective[count]
    ensures IncreasingUpTo(objective + [value], count + 1)
  {
    IncreasingPrefix(objective, objective + [value], count);
  }

  /** IncreasingUpTo only looks at the first `count` entries. */
  lemma {:induction false} IncreasingPrefix(xs: seq<real>, ys: seq<real>, count: nat)
    requires count <= |xs| && count <= |ys| && xs[..count] == ys[..count]
    ensures IncreasingUpTo(xs, count) <==> IncreasingUpTo(ys, count)
  {
    if count > 1 {
      assert xs[..count - 1] == ys[..count - 1];
      assert xs[count - 2] == xs[..count][count - 2] && ys[count - 2] == ys[..count][count - 2];
      assert xs[count - 1] == xs[..count][count - 1] && ys[count - 1] == ys[..count][count - 1];
      IncreasingPrefix(xs, ys, count - 1);
    }
  }

  /** The selections so far, starting from adjacency matrix a and the
      identity index list. */
  ghost predicate Run(a: Matrix, trace: seq<Matrix>, scores: seq<seq<real>>, indices: seq<seq<nat>>, keys: seq<nat>)
  {
    && |trace| == |keys| + 1 && |indices| == |keys| + 1
    && Steps(trace, scores, indices, keys)
    && trace[0] == a && indices[0] == Identity(|a|)
  }

  /** A run whose last working matrix was scored too, with the cumulative
      objective strictly increasing up to the last selection. */
  ghost predicate Progress(a: Matrix, trace: seq<Matrix>, scores: seq<seq<real>>, indices: seq<seq<nat>>,
                           keys: seq<nat>, objective: seq<real>)
  {
    && Run(a, trace, scores, indices, keys)
    && |scores| == |keys| + 1
    && IsFVector(trace[|keys|], scores[|keys|])
    && Accumulates(objective, scores)
    && IncreasingUpTo(objective, |keys|)
  }

  lemma {:induction false} ProgressStart(a: Matrix, v: seq<real>)
    requires IsFVector(a, v)
    ensures Progress(a, [a], [v], [Identity(|a|)], [], [Max(v) - Penalty(1)])
  {
    assert Steps([a], [v], [Identity(|a|)], []);
  }

  lemma {:induction false} RunAppend(a: Matrix, trace: seq<Matrix>, scores: seq<seq<real>>, indices: seq<seq<nat>>,
                  keys: seq<nat>, next: Matrix, nextOrig: seq<nat>, key: nat)
    requires Run(a, trace, scores, indices, keys) && |scores| == |keys| + 1
    requires IsStep(trace[|keys|], scores[|keys|], indices[|keys|], key, next, nextOrig)
    ensures Run(a, trace + [next], scores, indices + [nextOrig], keys + [key])
  {
    StepsAppend(trace, scores, indices, keys, next, nextOrig, key);
  }

  lemma {:induction false} ProgressAppend(a: Matrix, trace: seq<Matrix>, scores: seq<seq<real>>, indices: seq<seq<nat>>,
                       keys: seq<nat>, objective: seq<real>,
                       next: Matrix, nextOrig: seq<nat>, key: nat, v: seq<real>, value: real)
    requires Progress(a, trace, scores, indices, keys, objective)
    requires IsStep(trace[|keys|], scores[|keys|], indices[|keys|], key, next, nextOrig)
    requires |keys| >= 1 ==> objective[|keys| - 1] < objective[|keys|]
    requires IsFVector(next, v)
    requires value == objective[|keys|] + Max(v) - Penalty(|keys| + 2)
    ensures Progress(a, trace + [next], scores + [v], indices + [nextOrig], keys + [key], objective + [value])
  {
    RunAppend(a, trace, scores, indices, keys, next, nextOrig, key);
    StepsScored(trace + [next], scores, indices + [nextOrig], keys + [key], v);
    AccumulatesAppend(objective, scores, v, value);
    IncreasingAppend(objective, |keys|, value);
  }

  /** The state at the head of the selection loop: the working matrix m,
      its F-measure vector score and index list orig end the trace, and
      key is score's arg-max. */
  ghost predicate LoopHead(a: Matrix, m: Matrix, orig: seq<nat>, score: seq<real>, key: nat,
                           keys: seq<nat>, objective: seq<real>,
                           trace: seq<Matrix>, scores: seq<seq<real>>, indices: seq<seq<nat>>)
  {
    && IsBinary(m) && IsSymmetric(m) && |m| >= 2 && |m| <= |orig|
    && Progress(a, trace, scores, indices, keys, objective)
    && trace[|keys|] == m && scores[|keys|] == score && indices[|keys|] == orig
    && key == ArgMax(score)
  }

  /** The loop invariant: the state at the loop head, where `current` is
      the objective before the last selection once there was one (None
      stands for the source's initial `-inf`). */
  ghost predicate Looping(a: Matrix, m: Matrix, orig: seq<nat>, score: seq<real>, key: nat,
                          keys: seq<nat>, objective: seq<real>, current: Option<real>,
                          trace: seq<Matrix>, scores: seq<seq<real>>, indices: seq<seq<nat>>)
  {
    (match current
     case None =>
       keys == [] && LoopHead(a, m, orig, score, key, keys, objective, trace, scores, indices)
     case Some(c) =>
       && LoopHead(a, m, orig, score, key, keys, objective, trace, scores, indices)
       && |keys| >= 1 && c == objective[|keys| - 1]) == true
  }

  /** The loop guard `current < objective[-1]`. */
  predicate Rising(current: Option<real>, last: real)
  {
    current.None? || current.value < last
  }

  /** One more pass of the loop body, once `Advance` found no exception. */
  lemma {:induction false} LoopingStep(a: Matrix, m: Matrix, orig: seq<nat>, score: seq<real>, key: nat,
                    keys: seq<nat>, objective: seq<real>, current: Option<real>,
                    trace: seq<Matrix>, scores: seq<seq<real>>, indices: seq<seq<nat>>,
                    next: Matrix, nextOrig: seq<nat>, recorded: nat, nextScore: seq<real>)
    requires Looping(a, m, orig, score, key, keys, objective, current, trace, scores, indices)
    requires Rising(current, objective[|keys|])
    requires IsStep(m, score, orig, recorded, next, nextOrig)
    requires IsBinary(next) && IsSymmetric(next) && |next| <= |nextOrig|
    requires IsFVector(next, nextScore)
    ensures var value := Max(nextScore) - Penalty(|keys| + 2) + objective[|keys|];
            Looping(a, next, nextOrig, nextScore, ArgMax(nextScore), keys + [recorded],
                    objective + [value], Some(objective[|keys|]),
                    trace + [next], scores + [nextScore], indices + [nextOrig])
  {
    var value := Max(nextScore) - Penalty(|keys| + 2) + objective[|keys|];
    ProgressAppend(a, trace, scores, indices, keys, objective, next, nextOrig, recorded, nextScore, value);
  }

  /** Every loop test `current < objective[-1]` the run took passed: the
      cumulative objective of the scored working matrices rose strictly
      from each one to the next. */
  ghost predicate PassedTests(scores: seq<seq<real>>)
  {
    |scores| == 0 ||
    exists objective :: Accumulates(objective, scores) && IncreasingUpTo(objective, |scores|)
  }

  /** How a run that started from adjacency matrix a ended: the
      selections recorded in the trace, and for each outcome the state
      that produced it. Every loop test the run took passed; a selection
      ends at the first test that fails, an exception at the step after
      the last test. */
  ghost predicate Finished(a: Matrix, result: Outcome, trace: seq<Matrix>, scores: seq<seq<real>>,
                           indices: seq<seq<nat>>, picked: seq<nat>)
  {
    (match result
     case EmptyScore =>
       && Run(a, trace, scores, indices, picked) && |scores| == |picked| && trace[|picked|] == []
       && PassedTests(scores)
     case ZeroDivision =>
       && Run(a, trace, scores, indices, picked) && |scores| == |picked| && |trace[|picked|]| == 1
       && PassedTests(scores)
     case IndexOutOfRange =>
       && Run(a, trace, scores, indices, picked)
       && |scores| == |picked| + 1
       && var m, v, orig := trace[|picked|], scores[|picked|], indices[|picked|];
       && IsFVector(m, v)
       && ArgMax(v) < |orig| && orig[ArgMax(v)] >= |orig|
       && PassedTests(scores)
     case Selection(keys, objective) =>
       && keys == picked
       && |picked| >= 1
       && Progress(a, trace, scores, indices, picked, objective)
       && objective[|picked|] <= objective[|picked| - 1]) == true
  }

  /** The loop test that let the loop run once more, with the loop state,
      means every test so far passed. */
  lemma {:induction false} RisingPassed(a: Matrix, m: Matrix, orig: seq<nat>, score: seq<real>, key: nat,
                     keys: seq<nat>, objective: seq<real>, current: Option<real>,
                     trace: seq<Matrix>, scores: seq<seq<real>>, indices: seq<seq<nat>>)
    requires Looping(a, m, orig, score, key, keys, objective, current, trace, scores, indices)
    requires |objective| == |keys| + 1 && Rising(current, objective[|keys|])
    ensures |scores| == |keys| + 1 && PassedTests(scores)
  {
    assert Progress(a, trace, scores, indices, keys, objective);
    if |keys| >= 1 {
      assert current == Some(objective[|keys| - 1]);
    }
    assert Accumulates(objective, scores) && IncreasingUpTo(objective, |scores|);
  }

  /** The source raises before the loop: on an empty matrix `max` has
      nothing to take, and on a one-row one `F_measure` divides by zero. */
  lemma {:induction false} FinishedEarly(a: Matrix, result: Outcome)
    requires (|a| == 0 && result == EmptyScore) || (|a| == 1 && result == ZeroDivision)
    ensures Finished(a, result, [a], [], [Identity(|a|)], [])
  {
  }

  /** The loop stops when the step it just took left a matrix that cannot
      be scored. */
  lemma {:induction false} FinishedUnscored(a: Matrix, m: Matrix, orig: seq<nat>, score: seq<real>, key: nat,
                         keys: seq<nat>, objective: seq<real>, current: Option<real>,
                         trace: seq<Matrix>, scores: seq<seq<real>>, indices: seq<seq<nat>>,
                         next: Matrix, nextOrig: seq<nat>, recorded: nat, result: Outcome)
    requires Looping(a, m, orig, score, key, keys, objective, current, trace, scores, indices)
    requires |objective| == |keys| + 1 && Rising(current, objective[|keys|])
    requires IsStep(m, score, orig, recorded, next, nextOrig)
    requires (|next| == 0 && result == EmptyScore) || (|next| == 1 && result == ZeroDivision)
    ensures Finished(a, result, trace + [next], scores, indices + [nextOrig], keys + [recorded])
  {
    RisingPassed(a, m, orig, score, key, keys, objective, current, trace, scores, indices);
    RunAppend(a, trace, scores, indices, keys, next, nextOrig, recorded);
  }

  /** The loop stops when `np.delete` is asked for a position past the end
      of the index list. */
  lemma {:induction false} FinishedOutOfRange(a: Matrix, m: Matrix, orig: seq<nat>, score: seq<real>, key: nat,
                           keys: seq<nat>, objective: seq<real>, current: Option<real>,
                           trace: seq<Matrix>, scores: seq<seq<real>>, indices: seq<seq<nat>>)
    requires Looping(a, m, orig, score, key, keys, objective, current, trace, scores, indices)
    requires |objective| == |keys| + 1 && Rising(current, objective[|keys|])
    requires key < |orig| && orig[key] >= |orig|
    ensures Finished(a, IndexOutOfRange, trace, scores, indices, keys)
  {
    RisingPassed(a, m, orig, score, key, keys, objective, current, trace, scores, indices);
  }

  /** The loop stops when the objective no longer rose. */
  lemma {:induction false} FinishedSelection(a: Matrix, m: Matrix, orig: seq<nat>, score: seq<real>, key: nat,
                          keys: seq<nat>, objective: seq<real>, current: Option<real>,
                          trace: seq<Matrix>, scores: seq<seq<real>>, indices: seq<seq<nat>>)
    requires Looping(a, m, orig, score, key, keys, objective, current, trace, scores, indices)
    requires |objective| == |keys| + 1 && !Rising(current, objective[|keys|])
    ensures Finished(a, Selection(keys, objective), trace, scores, indices, keys)
  {
  }

  /** A step removes a node: the working matrix strictly shrinks and the
      index list loses exactly one entry. */
  lemma {:induction false} StepShrinks(m: Matrix, v: seq<real>, orig: seq<nat>, key: nat, next: Matrix, nextOrig: seq<nat>)
    requires IsStep(m, v, orig, key, next, nextOrig)
    ensures |next| < |m| && |nextOrig| + 1 == |orig|
  {
    PrunedExcludes(m, ArgMax(v));
  }

  /** Selection i of a trace is a step from trace[i] to trace[i + 1]. */
  lemma {:induction false} StepsAt(trace: seq<Matrix>, scores: seq<seq<real>>, indices: seq<seq<nat>>,
                                   keys: seq<nat>, i: nat)
    requires Steps(trace, scores, indices, keys) && i < |keys|
    ensures IsStep(trace[i], scores[i], indices[i], keys[i], trace[i + 1], indices[i + 1])
  {
    var s := |keys| - 1;
    if i < s {
      StepsAt(trace[..s + 1], scores[..s + 1], indices[..s + 1], keys[..s], i);
    }
  }

  /** After i selections the index list has i entries fewer than at the
      start and the working matrix at least i rows fewer. */
  lemma {:induction false} StepsLengths(trace: seq<Matrix>, scores: seq<seq<real>>, indices: seq<seq<nat>>,
                                        keys: seq<nat>, i: nat)
    requires Steps(trace, scores, indices, keys) && i <= |keys|
    ensures |indices[i]| + i == |indices[0]|
    ensures |trace[i]| + i <= |trace[0]|
  {
    if i > 0 {
      StepsLengths(trace, scores, indices, keys, i - 1);
      StepsAt(trace, scores, indices, keys, i - 1);
      StepShrinks(trace[i - 1], scores[i - 1], indices[i - 1], keys[i - 1], trace[i], indices[i]);
    }
  }

  /** A run on an n-node network makes at most n selections, and after i
      of them the index list holds n - i entries. */
  lemma {:induction false} RunLengths(a: Matrix, trace: seq<Matrix>, scores: seq<seq<real>>, indices: seq<seq<nat>>,
                   keys: seq<nat>, i: nat)
    requires Run(a, trace, scores, indices, keys) && i <= |keys|
    ensures |keys| <= |a|
    ensures |indices[i]| + i == |a| && |trace[i]| + i <= |a|
  {
    StepsLengths(trace, scores, indices, keys, |keys|);
    StepsLengths(trace, scores, indices, keys, i);
  }

  /** The first key is the node of highest F-measure in the input, the
      lowest such index on ties: the index list starts as the identity. */
  lemma {:induction false} FirstKey(a: Matrix, trace: seq<Matrix>, scores: seq<seq<real>>, indices: seq<seq<nat>>, keys: seq<nat>)
    requires Run(a, trace, scores, indices, keys) && |keys| >= 1
    ensures IsFVector(a, scores[0])
    ensures keys[0] == ArgMax(scores[0])
    ensures forall n :: 0 <= n < |a| ==> scores[0][n] <= scores[0][keys[0]]
  {
    StepsAt(trace, scores, indices, keys, 0);
    MaxIsMaximum(scores[0]);
    ArgMaxIsFirstMaximum(scores[0]);
  }

  /** Entry i of the objective adds the best score of working matrix i,
      less the penalty for i + 1 selected nodes, to entry i - 1. */
  lemma {:induction false} ObjectiveRecurrence(objective: seq<real>, scores: seq<seq<real>>, i: nat)
    requires Accumulates(objective, scores) && i < |objective|
    ensures scores[i] != []
    ensures objective[i] == (if i == 0 then 0.0 else objective[i - 1]) + Max(scores[i]) - Penalty(i + 1)
  {
    var last := |objective| - 1;
    if i < last {
      ObjectiveRecurrence(objective[..last], scores[..last], i);
      assert objective[..last][i] == objective[i] && scores[..last][i] == scores[i];
      if i > 0 {
        assert objective[..last][i - 1] == objective[i - 1];
      }
    }
  }

  /** A strictly increasing prefix is ordered throughout, not just between
      neighbours. */
  lemma {:induction false} IncreasingOrder(objective: seq<real>, count: nat, i: nat, j: nat)
    requires count <= |objective| && IncreasingUpTo(objective, count)
    requires i < j < count
    ensures objective[i] < objective[j]
  {
    if j < count - 1 {
      IncreasingOrder(objective, count - 1, i, j);
    } else if i < j - 1 {
      IncreasingOrder(objective, count - 1, i, j - 1);
    }
  }
}
