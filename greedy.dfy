/** The greedy key-terrorist selector itself, proved against the trace
    specification of module GreedyTrace. */
module Greedy {
  import opened Matrices
  import opened Fragmentation
  import opened Measures
  import opened GreedyTrace

  /** `F_measure(newAdjacency)` as the selector sees it. */
  method FMeasureVector(m: Matrix) returns (score: seq<real>)
    requires IsBinary(m) && IsSymmetric(m) && |m| != 1
    ensures |score| == |m|
    ensures |m| >= 2 ==> IsFVector(m, score)
  {
    score := FMeasure(m);
  }

  /** The body of the selection loop up to the new scores: remove the
      picked row, record its stored index, drop the position equal to that
      index from the index list and score the new working matrix. `stop`
      is the exception this raises, if any. */
  method Advance(m: Matrix, orig: seq<nat>, key: nat, ghost v: seq<real>)
    returns (stop: Option<Outcome>, next: Matrix, nextOrig: seq<nat>, recorded: nat, score: seq<real>)
    requires IsBinary(m) && IsSymmetric(m) && |m| <= |orig|
    requires IsFVector(m, v) && key == ArgMax(v)
    ensures recorded == orig[key]
    ensures stop == Some(IndexOutOfRange) <==> recorded >= |orig|
    ensures recorded < |orig| ==>
              && IsStep(m, v, orig, recorded, next, nextOrig)
              && IsBinary(next) && IsSymmetric(next) && |next| < |m| && |next| <= |nextOrig|
              && (stop == Some(ZeroDivision) <==> |next| == 1)
              && (stop == Some(EmptyScore) <==> |next| == 0)
              && (stop == None <==> |next| >= 2)
              && (stop == None ==> IsFVector(next, score))
  {
    next := RemoveAndPrune(m, key);
    PrunedUndirected(m, key);
    PrunedExcludes(m, key);
    recorded := orig[key];
    score := [];
    if recorded >= |orig| {
      return Some(IndexOutOfRange), next, orig, recorded, score;
    }
    nextOrig := RemoveAt(orig, recorded);
    if |next| == 1 {
      return Some(ZeroDivision), next, nextOrig, recorded, score;
    }
    score := FMeasureVector(next);
    stop := if |score| == 0 then Some(EmptyScore) else None;
  }

  /** One pass of the selection loop: remove the picked node, record its
      stored index, rescore, and extend the cumulative objective. `stop`
      is the exception the pass raises, if any; otherwise the new loop
      state is returned. */
  method SelectNext(ghost a: Matrix, m: Matrix, orig: seq<nat>, score: seq<real>, key: nat,
                    keys: seq<nat>, objective: seq<real>, current: Option<real>,
                    ghost trace: seq<Matrix>, ghost scores: seq<seq<real>>, ghost indices: seq<seq<nat>>)
    returns (stop: Option<Outcome>, m': Matrix, orig': seq<nat>, score': seq<real>, key': nat,
             keys': seq<nat>, objective': seq<real>, current': Option<real>,
             ghost trace': seq<Matrix>, ghost scores': seq<seq<real>>, ghost indices': seq<seq<nat>>)
    requires Looping(a, m, orig, score, key, keys, objective, current, trace, scores, indices)
    requires |objective| == |keys| + 1 && Rising(current, objective[|keys|])
    ensures stop.Some? ==> Finished(a, stop.value, trace', scores', indices', keys')
    ensures stop.None? ==>
              && Looping(a, m', orig', score', key', keys', objective', current', trace', scores', indices')
              && |objective'| == |keys'| + 1 && |m'| < |m|
  {
    // a one-row working matrix never reaches this point: its F-measure
    // divided by zero when it was computed
    var next, nextOrig, recorded, nextScore;
    stop, next, nextOrig, recorded, nextScore := Advance(m, orig, key, score);
    if stop == Some(IndexOutOfRange) {
      FinishedOutOfRange(a, m, orig, score, key, keys, objective, current, trace, scores, indices);
      return stop, m, orig, score, key, keys, objective, current, trace, scores, indices;
    }
    if stop.Some? {
      FinishedUnscored(a, m, orig, score, key, keys, objective, current, trace, scores, indices,
                       next, nextOrig, recorded, stop.value);
      return stop, next, nextOrig, score, key, keys + [recorded], objective, current,
             trace + [next], scores, indices + [nextOrig];
    }
    LoopingStep(a, m, orig, score, key, keys, objective, current, trace, scores, indices,
                next, nextOrig, recorded, nextScore);
    // the source updates `current` first; no exception can observe the
    // difference
    current' := Some(objective[|objective| - 1]);
    m', orig', score' := next, nextOrig, nextScore;
    keys' := keys + [recorded];
    key' := ArgMax(score');
    var bestScore := Max(score') - Penalty(|keys'| + 1);
    objective' := objective + [bestScore + objective[|objective| - 1]];
    trace', scores', indices' := trace + [next], scores + [nextScore], indices + [nextOrig];
  }

  /** `find_key_terrorists_fragmentation`. The ghost outputs are the
      working matrices, their F-measure vectors (as far as they were
      computed), the index lists and the recorded keys of the selections
      that completed. */
  method FindKeyTerrorists(a: Matrix)
    returns (result: Outcome, ghost trace: seq<Matrix>, ghost scores: seq<seq<real>>,
             ghost indices: seq<seq<nat>>, ghost picked: seq<nat>)
    requires IsBinary(a) && IsSymmetric(a)
    ensures |a| == 0 ==> result == EmptyScore
    ensures |a| == 1 ==> result == ZeroDivision
    ensures Finished(a, result, trace, scores, indices, picked)
  {
    trace, scores, indices, picked := [a], [], [Identity(|a|)], [];
    if |a| == 1 {
      FinishedEarly(a, ZeroDivision);
      return ZeroDivision, trace, scores, indices, picked;
    }
    var score := FMeasureVector(a);
    if |score| == 0 {
      FinishedEarly(a, EmptyScore);
      return EmptyScore, trace, scores, indices, picked;
    }
    scores := [score];
    var keys: seq<nat> := [];
    var objective := [Max(score) - Penalty(|keys| + 1)];
    var key := ArgMax(score);
    var current: Option<real> := None;
    var newAdjacency := a;
    var originalIndices := Identity(|a|);
    ProgressStart(a, score);
    while Rising(current, objective[|objective| - 1])
      invariant Looping(a, newAdjacency, originalIndices, score, key, keys, objective, current, trace, scores, indices)
      invariant |objective| == |keys| + 1
      decreases |newAdjacency|
    {
      var stop;
      stop, newAdjacency, originalIndices, score, key, keys, objective, current, trace, scores, indices :=
        SelectNext(a, newAdjacency, originalIndices, score, key, keys, objective, current, trace, scores, indices);
      if stop.Some? {
        return stop.value, trace, scores, indices, keys;
      }
    }
    FinishedSelection(a, newAdjacency, originalIndices, score, key, keys, objective, current,
                      trace, scores, indices);
    return Selection(keys, objective), trace, scores, indices, keys;
  }
}
