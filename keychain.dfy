/**
  Reconciling the whole chain of transform keys (PrepareTransforms, lines
  307-331): every adjacent pair of keys is made interpolable by
  PrepareTransformPair. Since reconciling a pair can change its first key,
  which the pair before it shares, the walk steps back after such a change,
  and a hard cap on the number of pair reconciliations guarantees that it
  stops.
*/
module KeyChain {
  import opened Values
  import opened TransformMatching

  /** Every pair (keys[j - 1], keys[j]) with 1 <= j < n is ready to be interpolated. */
  predicate ChainedBelow(keys: seq<AnimationKey>, n: int)
  {
    forall j :: 1 <= j < n && j < |keys| ==> Matched(Prims(keys[j - 1]), Prims(keys[j]))
  }

  /** Every adjacent pair of keys is ready to be interpolated. */
  predicate Chained(keys: seq<AnimationKey>)
  {
    ChainedBelow(keys, |keys|)
  }

  /** The key with its transform replaced by the primitive list `prims`. */
  function WithPrims(k: AnimationKey, prims: seq<Primitive>): (r: AnimationKey)
    ensures r.time == k.time && r.tween == k.tween && r.value.TransformValue?
    ensures Prims(r) == prims
  {
    AnimationKey(k.time, TransformValue(prims), k.tween)
  }

  /**
    A reconciliation of two primitive lists. The walk below is stated for any
    of them; PrepareTransforms walks with PrepareTransformPair's.
  */
  type PairReconciler = (seq<Primitive>, seq<Primitive>) -> (PrepareTransformResult, seq<Primitive>, seq<Primitive>)

  /** PrepareTransformPair's reconciliation under the collaborators `env`. */
  function Reconciler(env: Env): PairReconciler
  {
    (p0: seq<Primitive>, p1: seq<Primitive>) => ReconciledPair(env, p0, p1)
  }

  /**
    The pair (keys[i - 1], keys[i]) reconciled: the verdict and the key list
    with both keys carrying their new primitive lists.
  */
  function PairStep(rec: PairReconciler, keys: seq<AnimationKey>, i: nat): (r: (PrepareTransformResult, seq<AnimationKey>))
    requires 1 <= i < |keys|
    ensures |r.1| == |keys|
  {
    var p := rec(Prims(keys[i - 1]), Prims(keys[i]));
    (p.0, keys[i - 1 := WithPrims(keys[i - 1], p.1)][i := WithPrims(keys[i], p.2)])
  }

  /**
    The walk of lines 314-330 from pair i with `count` iterations spent of
    `cap`: whether it finished within the budget, the keys it leaves and the
    verdict of every pair reconciliation it made, in order. Only the last
    verdict can be Invalid, and the walk succeeds exactly when none is and
    the budget was not used up.
  */
  function Walk(rec: PairReconciler, keys: seq<AnimationKey>, i: nat, count: int, cap: nat)
    : (r: (bool, seq<AnimationKey>, seq<PrepareTransformResult>))
    requires 1 <= i && -1 <= count <= cap
    ensures |r.1| == |keys|
    decreases cap - count
  {
    if i >= |keys| || count >= cap then (count < cap, keys, [])
    else
      var step := PairStep(rec, keys, i);
      if step.0 == Invalid then (false, step.1, [Invalid])
      else
        var changedT0 := step.0 == ChangedT0 || step.0 == ChangedT0andT1;
        var w := Walk(rec, step.1, if changedT0 && i > 1 then i - 1 else i + 1, count + 1, cap);
        (w.0, w.1, [step.0] + w.2)
  }

  /**
    The verdicts of a walk: at most the remaining budget of them, only the
    last can be Invalid, and the walk succeeds exactly when none is and the
    budget was not used up.
  */
  lemma {:induction false} WalkVerdicts(rec: PairReconciler, keys: seq<AnimationKey>, i: nat, count: int, cap: nat)
    requires 1 <= i && -1 <= count <= cap
    ensures var r := Walk(rec, keys, i, count, cap);
      |r.2| <= cap - count &&
      (forall k :: 0 <= k < |r.2| - 1 ==> r.2[k] != Invalid) &&
      (r.0 <==> Invalid !in r.2 && count + |r.2| < cap)
    decreases cap - count
  {
    if i < |keys| && count < cap {
      var step := PairStep(rec, keys, i);
      if step.0 != Invalid {
        var changedT0 := step.0 == ChangedT0 || step.0 == ChangedT0andT1;
        WalkVerdicts(rec, step.1, if changedT0 && i > 1 then i - 1 else i + 1, count + 1, cap);
      }
    }
  }

  /** The whole of PrepareTransforms: the walk from max(startIndex, 1) with 3 * |keys| iterations. */
  function Reconciliation(env: Env, keys: seq<AnimationKey>, startIndex: int)
    : (r: (bool, seq<AnimationKey>, seq<PrepareTransformResult>))
    ensures |r.1| == |keys| && |r.2| <= 3 * |keys| + 1
    ensures r.0 <==> Invalid !in r.2 && |r.2| <= 3 * |keys|
    ensures forall k :: 0 <= k < |r.2| - 1 ==> r.2[k] != Invalid
    ensures !r.0 ==> (|r.2| > 0 && r.2[|r.2| - 1] == Invalid) || |r.2| == 3 * |keys| + 1
  {
    WalkVerdicts(Reconciler(env), keys, if startIndex < 1 then 1 else startIndex, -1, 3 * |keys|);
    Walk(Reconciler(env), keys, if startIndex < 1 then 1 else startIndex, -1, 3 * |keys|)
  }

  /**
    One step of the walk (lines 316-321): the pair (keys[i - 1], keys[i]) is
    reconciled in place. Only those two keys change, and only in their
    primitive lists.
  */
  method ReconcilePair(env: Env, keys: seq<AnimationKey>, i: nat)
    returns (result: PrepareTransformResult, keys2: seq<AnimationKey>)
    requires ValidEnv(env)
    requires AllTransforms(keys) && 1 <= i < |keys|
    ensures SameTimeline(keys, keys2) && AllTransforms(keys2)
    ensures forall j :: 0 <= j < |keys| && j != i - 1 && j != i ==> keys2[j] == keys[j]
    ensures result != Invalid ==> Matched(Prims(keys2[i - 1]), Prims(keys2[i]))
    ensures result != Invalid && !result.ChangedFirst() ==> keys2[i - 1] == keys[i - 1]
    ensures Matched(Prims(keys[i - 1]), Prims(keys[i])) ==> result == Unchanged && keys2 == keys
    ensures (result, keys2) == PairStep(Reconciler(env), keys, i)
  {
    var q0, q1; ghost var c0, c1;
    result, q0, q1, c0, c1 := PrepareTransformPair(env, Prims(keys[i - 1]), Prims(keys[i]));
    keys2 := keys[i - 1 := WithPrims(keys[i - 1], q0)][i := WithPrims(keys[i], q1)];
    WithPrimsTimeline(keys, i, q0, q1);
    if result != Invalid && !result.ChangedFirst() {
      assert keys2[i - 1] == keys[i - 1];
    }
    if Matched(Prims(keys[i - 1]), Prims(keys[i])) {
      assert keys2[i - 1] == keys[i - 1] && keys2[i] == keys[i];
      assert keys2 == keys;
    }
  }

  /** New primitive lists for the keys i - 1 and i leave the timeline as it was. */
  lemma WithPrimsTimeline(keys: seq<AnimationKey>, i: nat, q0: seq<Primitive>, q1: seq<Primitive>)
    requires AllTransforms(keys) && 1 <= i < |keys|
    ensures var keys2 := keys[i - 1 := WithPrims(keys[i - 1], q0)][i := WithPrims(keys[i], q1)];
      SameTimeline(keys, keys2) && AllTransforms(keys2)
  {
  }

  /**
    Walks the chain from max(startIndex, 1): a pair whose first key changed
    sends the walk one pair back (unless it is the first pair), any other
    outcome moves it on. An Invalid pair stops the walk with false, keeping
    the edits made so far; so does running out of the 3 * |keys| budget.
    `results` are the verdicts of the reconciliations made, in order.
  */
  method PrepareTransforms(env: Env, keys: seq<AnimationKey>, startIndex: int)
    returns (ok: bool, keys2: seq<AnimationKey>, ghost results: seq<PrepareTransformResult>)
    requires ValidEnv(env)
    requires AllTransforms(keys)
    ensures (ok, keys2, results) == Reconciliation(env, keys, startIndex)
    ensures SameTimeline(keys, keys2) && AllTransforms(keys2)
    ensures ok && ChainedBelow(keys, if startIndex < 1 then 1 else startIndex) ==> Chained(keys2)
    ensures Chained(keys) ==> ok && keys2 == keys
  {
    var countIterations := -1;
    var maxIterations := 3 * |keys|;
    var start: nat := if startIndex < 1 then 1 else startIndex;
    keys2 := keys;
    results := [];
    var i: nat := start;
    assert results + Walk(Reconciler(env), keys, start, -1, maxIterations).2 == Walk(Reconciler(env), keys, start, -1, maxIterations).2;
    while i < |keys2| && countIterations < maxIterations
      invariant ChainLoop(env, keys, start, maxIterations, keys2, i, countIterations, results)
      decreases maxIterations - countIterations
    {
      var invalid;
      invalid, keys2, i, countIterations, results := WalkPair(env, keys, start, maxIterations, keys2, i, countIterations, results);
      if invalid {
        return false, keys2, results;
      }
    }
    WalkStateDone(Reconciler(env), keys, start, maxIterations, keys2, i, countIterations, results);
    ok := countIterations < maxIterations;
  }

  /**
    The loop state of PrepareTransforms: the walk still to come completes the
    walk from the start, and ChainFacts hold.
  */
  ghost predicate ChainLoop(env: Env, keys: seq<AnimationKey>, start: nat, cap: nat,
                            keys2: seq<AnimationKey>, i: nat, count: int, results: seq<PrepareTransformResult>)
  {
    WalkState(Reconciler(env), keys, start, cap, keys2, i, count, results) &&
    ChainFacts(keys, start, keys2, i, count)
  }

  /**
    Only primitive lists have changed, the pairs below i are matched when
    those below the start were, and an already matched chain is walked
    through unchanged.
  */
  ghost predicate ChainFacts(keys: seq<AnimationKey>, start: nat, keys2: seq<AnimationKey>, i: nat, count: int)
  {
    SameTimeline(keys, keys2) && AllTransforms(keys2) &&
    (ChainedBelow(keys, start) ==> ChainedBelow(keys2, i)) &&
    (Chained(keys) ==> keys2 == keys && i <= (if start < |keys| then |keys| else start) && count == i - start - 1)
  }

  /** ChainFacts survive the reconciliation of pair i when its verdict is not Invalid; an Invalid verdict means the chain was not matched. */
  lemma ChainFactsStep(keys: seq<AnimationKey>, start: nat, keys2: seq<AnimationKey>, i: nat, count: int,
                       result: PrepareTransformResult, keys3: seq<AnimationKey>)
    requires ChainFacts(keys, start, keys2, i, count)
    requires 1 <= i < |keys2|
    requires SameTimeline(keys2, keys3) && AllTransforms(keys3)
    requires forall j :: 0 <= j < |keys2| && j != i - 1 && j != i ==> keys3[j] == keys2[j]
    requires result != Invalid ==> Matched(Prims(keys3[i - 1]), Prims(keys3[i]))
    requires result != Invalid && !result.ChangedFirst() ==> keys3[i - 1] == keys2[i - 1]
    requires Matched(Prims(keys2[i - 1]), Prims(keys2[i])) ==> result == Unchanged && keys3 == keys2
    ensures SameTimeline(keys, keys3)
    ensures result == Invalid ==> !Chained(keys)
    ensures var changedT0 := result == ChangedT0 || result == ChangedT0andT1;
      result != Invalid ==> ChainFacts(keys, start, keys3, if changedT0 && i > 1 then i - 1 else i + 1, count + 1)
  {
    SameTimelineTransitive(keys, keys2, keys3);
    if result != Invalid && ChainedBelow(keys, start) {
      ChainStep(keys2, keys3, i, result.ChangedFirst());
    }
  }

  /**
    One iteration of the loop of lines 314-330: the pair at i is reconciled;
    an Invalid verdict ends the walk, any other moves i back or on.
  */
  method WalkPair(env: Env, keys: seq<AnimationKey>, start: nat, cap: nat,
                  keys2: seq<AnimationKey>, i: nat, count: int, ghost results: seq<PrepareTransformResult>)
    returns (invalid: bool, keys3: seq<AnimationKey>, i3: nat, count3: int, ghost results3: seq<PrepareTransformResult>)
    requires ValidEnv(env)
    requires ChainLoop(env, keys, start, cap, keys2, i, count, results)
    requires i < |keys2| && count < cap
    ensures invalid ==>
      Walk(Reconciler(env), keys, start, -1, cap) == (false, keys3, results3) &&
      SameTimeline(keys, keys3) && AllTransforms(keys3) && !Chained(keys)
    ensures !invalid ==> count3 == count + 1 && ChainLoop(env, keys, start, cap, keys3, i3, count3, results3)
  {
    var result;
    result, keys3 := ReconcilePair(env, keys2, i);
    WalkStateStep(Reconciler(env), keys, start, cap, keys2, i, count, results);
    ChainFactsStep(keys, start, keys2, i, count, result, keys3);
    results3 := results + [result];
    invalid := result == Invalid;
    var changedT0 := result == ChangedT0 || result == ChangedT0andT1;
    i3 := if invalid then i else if changedT0 && i > 1 then i - 1 else i + 1;
    count3 := if invalid then count else count + 1;
  }

  /** Loop state of PrepareTransforms: the walk still to come completes the walk from the start. */
  ghost predicate WalkState(rec: PairReconciler, keys: seq<AnimationKey>, start: nat, cap: nat,
                            keys2: seq<AnimationKey>, i: nat, count: int, results: seq<PrepareTransformResult>)
  {
    1 <= start && 1 <= i && -1 <= count <= cap && |keys2| == |keys| &&
    var w := Walk(rec, keys2, i, count, cap);
    Walk(rec, keys, start, -1, cap) == (w.0, w.1, results + w.2)
  }

  /** A walk with no pair left, or no budget left, adds nothing. */
  lemma WalkStateDone(rec: PairReconciler, keys: seq<AnimationKey>, start: nat, cap: nat,
                      keys2: seq<AnimationKey>, i: nat, count: int, results: seq<PrepareTransformResult>)
    requires WalkState(rec, keys, start, cap, keys2, i, count, results)
    requires i >= |keys2| || count >= cap
    ensures Walk(rec, keys, start, -1, cap) == (count < cap, keys2, results)
  {
    assert results + [] == results;
  }

  /** Reconciling pair i is one step of the walk: an Invalid verdict ends it, any other moves it to the next pair. */
  lemma WalkStateStep(rec: PairReconciler, keys: seq<AnimationKey>, start: nat, cap: nat,
                      keys2: seq<AnimationKey>, i: nat, count: int, results: seq<PrepareTransformResult>)
    requires WalkState(rec, keys, start, cap, keys2, i, count, results)
    requires i < |keys2| && count < cap
    ensures var step := PairStep(rec, keys2, i);
      step.0 == Invalid ==> Walk(rec, keys, start, -1, cap) == (false, step.1, results + [Invalid])
    ensures var step := PairStep(rec, keys2, i);
      var next := if (step.0 == ChangedT0 || step.0 == ChangedT0andT1) && i > 1 then i - 1 else i + 1;
      step.0 != Invalid ==> WalkState(rec, keys, start, cap, step.1, next, count + 1, results + [step.0])
  {
    var step := PairStep(rec, keys2, i);
    var next := if (step.0 == ChangedT0 || step.0 == ChangedT0andT1) && i > 1 then i - 1 else i + 1;
    if step.0 != Invalid {
      var w := Walk(rec, step.1, next, count + 1, cap);
      assert results + ([step.0] + w.2) == (results + [step.0]) + w.2;
    }
  }

  /**
    After the pair at i is reconciled, the pairs below i - 1 are still
    matched, and so are those up to i when the first key of the pair kept its
    primitives or is the first key of the chain.
  */
  lemma ChainStep(keys: seq<AnimationKey>, keys2: seq<AnimationKey>, i: nat, changedFirst: bool)
    requires 1 <= i < |keys| == |keys2|
    requires ChainedBelow(keys, i)
    requires forall j :: 0 <= j < |keys| && j != i - 1 && j != i ==> keys2[j] == keys[j]
    requires Matched(Prims(keys2[i - 1]), Prims(keys2[i]))
    requires !changedFirst ==> keys2[i - 1] == keys[i - 1]
    ensures ChainedBelow(keys2, i - 1)
    ensures !changedFirst || i == 1 ==> ChainedBelow(keys2, i + 1)
  {
    forall j | 1 <= j < i - 1
      ensures Matched(Prims(keys2[j - 1]), Prims(keys2[j]))
    {
      assert keys2[j - 1] == keys[j - 1] && keys2[j] == keys[j];
    }
    if !changedFirst && i > 1 {
      assert keys2[i - 2] == keys[i - 2];
    }
  }

  lemma SameTimelineTransitive(a: seq<AnimationKey>, b: seq<AnimationKey>, c: seq<AnimationKey>)
    requires SameTimeline(a, b) && SameTimeline(b, c)
    ensures SameTimeline(a, c)
  {
  }
}
