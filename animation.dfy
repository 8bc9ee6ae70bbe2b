/**
  ElementAnimation: the animation of one property of an element. It owns the
  key list and the playback fields; keys are added one at a time (with
  transform keys reconciled against their neighbours as they arrive) and
  the animation is advanced to a world time, yielding the property value at
  that time.
*/
module Animations {
  import opened Wrappers
  import opened Values
  import opened Interpolation
  import opened TransformMatching
  import opened KeyChain
  import opened Timeline

  /**
    Who started the animation: the element's API, the 'animation' property
    or the 'transition' property.
  */
  datatype ElementAnimationOrigin = User | Animation | Transition

  /** The primitive after Primitive::ResolveUnits: its new numbers, or itself when resolution fails. */
  function Resolved(env: Env, p: Primitive): (r: Primitive)
    ensures r.kind == p.kind
    ensures env.resolveUnits(p).Some? ==> r.values == env.resolveUnits(p).value
  {
    match env.resolveUnits(p)
    case Some(v) => Primitive(p.kind, v)
    case None => p
  }

  /** Every primitive resolves against the element. */
  predicate AllResolve(env: Env, prims: seq<Primitive>)
  {
    forall i :: 0 <= i < |prims| ==> env.resolveUnits(prims[i]).Some?
  }

  /** The primitives after resolution, each kept as it was where resolution fails. */
  function ResolvedAll(env: Env, prims: seq<Primitive>): (r: seq<Primitive>)
    ensures |r| == |prims|
    ensures forall i :: 0 <= i < |prims| ==> r[i].kind == prims[i].kind
    ensures AllResolve(env, prims) ==> forall i :: 0 <= i < |prims| ==> r[i].values == env.resolveUnits(prims[i]).value
  {
    seq(|prims|, i requires 0 <= i < |prims| => Resolved(env, prims[i]))
  }

  /**
    The verdict and key list of lines 371-386 on a copy of `keys`: the new
    key is pushed and made interpolable; a transform has its primitives
    resolved and then the chain is reconciled from the new key's pair.
  */
  function AddedKeys(env: Env, keys: seq<AnimationKey>, time: real, property: Property, tween: Tween)
    : (r: (bool, seq<AnimationKey>))
    requires WellFormedProperty(property)
    ensures |r.1| == |keys| + 1
  {
    var made := TryMakeUnitValid(env, property.value);
    if !made.0 || property.unit != TransformUnit then (made.0, keys + [AnimationKey(time, made.1, tween)])
    else
      var pushed := keys + [AnimationKey(time, TransformValue(ResolvedAll(env, property.value.prims)), tween)];
      if !AllResolve(env, property.value.prims) then (false, pushed)
      else
        var w := Reconciliation(env, pushed, |keys|);
        (w.0, w.1)
  }

  /**
    Lines 375-379: every primitive of the new transform key is resolved
    against the element; a failure is remembered but the loop carries on.
  */
  method ResolvePrimitives(env: Env, prims: seq<Primitive>) returns (ok: bool, prims2: seq<Primitive>)
    ensures |prims2| == |prims|
    ensures ok <==> AllResolve(env, prims)
    ensures forall i :: 0 <= i < |prims| ==> prims2[i] == Resolved(env, prims[i])
    ensures prims2 == ResolvedAll(env, prims)
  {
    ok := true;
    prims2 := prims;
    for i := 0 to |prims|
      invariant |prims2| == |prims|
      invariant ok <==> forall j :: 0 <= j < i ==> env.resolveUnits(prims[j]).Some?
      invariant forall j :: 0 <= j < i ==> prims2[j] == Resolved(env, prims[j])
      invariant forall j :: i <= j < |prims| ==> prims2[j] == prims[j]
    {
      var r := env.resolveUnits(prims2[i]);
      if r.None? {
        ok := false;
      } else {
        prims2 := prims2[i := Primitive(prims2[i].kind, r.value)];
      }
    }
  }

  class ElementAnimation {
    const propertyName: string
    const propertyUnit: Unit
    const propertySpecificity: int
    /** For a single iteration. */
    const duration: real
    /** Infinite (-1) for an animation that repeats forever. */
    const numIterations: int
    /** Between iterations. */
    const alternateDirection: bool
    const origin: ElementAnimationOrigin
    /** False when the first value could not be made interpolable: the animation then never does anything. */
    const valid: bool

    var keys: seq<AnimationKey>

    var lastUpdateWorldTime: real
    var timeSinceIterationStart: real
    var currentIteration: int
    var reverseDirection: bool
    var animationComplete: bool

    function PlaybackTiming(): Timing
    {
      Timing(duration, numIterations, alternateDirection)
    }

    function State(): Playback
      reads this
    {
      Playback(lastUpdateWorldTime, timeSinceIterationStart, currentIteration, reverseDirection, animationComplete)
    }

    /**
      At least one key and the first at time 0; the playback invariant; once
      valid, every key holds a value that can be blended; an animation of
      the transform unit holds transforms only.
    */
    ghost predicate Valid()
      reads this
    {
      |keys| >= 1 && keys[0].time == 0.0 &&
      PlaybackInvariant(PlaybackTiming(), State()) &&
      (valid ==> forall k :: 0 <= k < |keys| ==> Interpolable(keys[k].value)) &&
      (propertyUnit == TransformUnit ==> AllTransforms(keys))
    }

    /** Every pair of adjacent transform keys is ready to be interpolated. */
    ghost predicate Reconciled()
      reads this
    {
      propertyUnit == TransformUnit ==> Chained(keys)
    }

    /**
      Lines 356-363: one key at time 0 holding the current value, made
      interpolable if it can be, with the linear tween; the animation is
      valid exactly when that succeeded.
    */
    constructor(env: Env, propertyName: string, origin: ElementAnimationOrigin, currentValue: Property,
                startWorldTime: real, duration: real, numIterations: int, alternateDirection: bool)
      requires WellFormedProperty(currentValue)
      ensures Valid() && Reconciled()
      ensures this.propertyName == propertyName && this.origin == origin
      ensures propertyUnit == currentValue.unit && propertySpecificity == currentValue.specificity
      ensures this.duration == duration && this.numIterations == numIterations && this.alternateDirection == alternateDirection
      ensures keys == [AnimationKey(0.0, TryMakeUnitValid(env, currentValue.value).1, LinearTween())]
      ensures valid == TryMakeUnitValid(env, currentValue.value).0
      ensures State() == Start(startWorldTime)
    {
      this.propertyName := propertyName;
      this.origin := origin;
      propertyUnit := currentValue.unit;
      propertySpecificity := currentValue.specificity;
      this.duration := duration;
      this.numIterations := numIterations;
      this.alternateDirection := alternateDirection;
      var made := TryMakeUnitValid(env, currentValue.value);
      keys := [AnimationKey(0.0, made.1, LinearTween())];
      lastUpdateWorldTime := startWorldTime;
      timeSinceIterationStart := 0.0;
      currentIteration := 0;
      reverseDirection := false;
      animationComplete := false;
      valid := made.0;
    }

    /**
      Lines 366-392, with the rollback restoring the whole key list: a key
      of the animation's unit is appended, made interpolable, and for
      transforms its units are resolved and the chain is reconciled. On any
      failure the key list is exactly what it was.
    */
    method AddKey(env: Env, time: real, property: Property, tween: Tween) returns (result: bool)
      requires ValidEnv(env)
      requires Valid() && Reconciled() && WellFormedProperty(property)
      modifies this
      ensures Valid() && Reconciled()
      ensures State() == old(State())
      ensures property.unit != propertyUnit || !valid ==> !result
      ensures !TryMakeUnitValid(env, property.value).0 ==> !result
      ensures (property.unit == TransformUnit &&
               exists i :: 0 <= i < |property.value.prims| && env.resolveUnits(property.value.prims[i]).None?) ==> !result
      ensures !result ==> keys == old(keys)
      ensures result ==>
        |keys| == |old(keys)| + 1 && SameTimeline(old(keys), keys[..|old(keys)|]) &&
        keys[|old(keys)|].time == time && keys[|old(keys)|].tween == tween
      ensures result && propertyUnit != TransformUnit ==>
        keys == old(keys) + [AnimationKey(time, TryMakeUnitValid(env, property.value).1, tween)]
      ensures result <==>
        property.unit == propertyUnit && valid && TryMakeUnitValid(env, property.value).0 &&
        (propertyUnit == TransformUnit ==>
          AllResolve(env, property.value.prims) &&
          Reconciliation(env, old(keys) + [AnimationKey(time, TransformValue(ResolvedAll(env, property.value.prims)), tween)], |old(keys)|).0)
      ensures result ==> keys == AddedKeys(env, old(keys), time, property, tween).1
    {
      if property.unit != propertyUnit || !valid {
        return false;
      }
      var saved := keys;
      var appended, ok := AppendAndReconcile(env, time, property, tween);
      result := ok;
      if !result {
        keys := saved;
      } else {
        keys := appended;
      }
    }

    /**
      Lines 366-392 as written: on failure only the appended key is popped,
      so edits that reconciliation already made to earlier keys remain.
    */
    method AddKeyAsWritten(env: Env, time: real, property: Property, tween: Tween) returns (result: bool)
      requires ValidEnv(env)
      requires Valid() && WellFormedProperty(property)
      modifies this
      ensures Valid()
      ensures State() == old(State())
      ensures property.unit != propertyUnit || !valid ==> !result && keys == old(keys)
      ensures property.unit == propertyUnit && valid ==>
        var a := AddedKeys(env, old(keys), time, property, tween);
        result == a.0 && keys == (if a.0 then a.1 else a.1[..|old(keys)|])
      ensures !result ==> SameTimeline(old(keys), keys)
      ensures result ==>
        |keys| == |old(keys)| + 1 && SameTimeline(old(keys), keys[..|old(keys)|]) &&
        keys[|old(keys)|].time == time && keys[|old(keys)|].tween == tween
      ensures result && old(Reconciled()) ==> Reconciled()
    {
      if property.unit != propertyUnit || !valid {
        return false;
      }
      var appended, ok := AppendAndReconcile(env, time, property, tween);
      result := ok;
      if !result {
        keys := appended[..|appended| - 1];
        assert SameTimeline(old(keys), keys);
      } else {
        keys := appended;
      }
    }

    /**
      The common part of AddKey (lines 371-386), computed on a copy of the
      key list: the list after the push, the coercion, the unit resolution
      and the chain reconciliation, and whether all of them succeeded.
    */
    method AppendAndReconcile(env: Env, time: real, property: Property, tween: Tween)
      returns (appended: seq<AnimationKey>, result: bool)
      requires ValidEnv(env)
      requires Valid() && WellFormedProperty(property)
      requires property.unit == propertyUnit && valid
      ensures (result, appended) == AddedKeys(env, keys, time, property, tween)
      ensures result <==>
        TryMakeUnitValid(env, property.value).0 &&
        (propertyUnit == TransformUnit ==>
          AllResolve(env, property.value.prims) &&
          Reconciliation(env, keys + [AnimationKey(time, TransformValue(ResolvedAll(env, property.value.prims)), tween)], |keys|).0)
      ensures |appended| == |keys| + 1 && SameTimeline(keys, appended[..|keys|])
      ensures appended[|keys|].time == time && appended[|keys|].tween == tween
      ensures !TryMakeUnitValid(env, property.value).0 ==> !result
      ensures (property.unit == TransformUnit &&
               exists i :: 0 <= i < |property.value.prims| && env.resolveUnits(property.value.prims[i]).None?) ==> !result
      ensures propertyUnit != TransformUnit ==>
        appended == keys + [AnimationKey(time, TryMakeUnitValid(env, property.value).1, tween)]
      ensures result ==> forall k :: 0 <= k < |appended| ==> Interpolable(appended[k].value)
      ensures result && propertyUnit == TransformUnit ==> AllTransforms(appended)
      ensures result && propertyUnit == TransformUnit && Chained(keys) ==> Chained(appended)
    {
      appended := keys + [AnimationKey(time, property.value, tween)];
      var last := |appended| - 1;
      var made := TryMakeUnitValid(env, appended[last].value);
      result := made.0;
      appended := appended[last := AnimationKey(time, made.1, tween)];
      assert appended == keys + [AnimationKey(time, made.1, tween)];
      assert SameTimeline(keys, appended[..|keys|]) by {
        assert appended[..|keys|] == keys;
      }
      if result && property.unit == TransformUnit {
        var resolved, prims2 := ResolvePrimitives(env, property.value.prims);
        appended := appended[last := AnimationKey(time, TransformValue(prims2), tween)];
        assert appended == keys + [AnimationKey(time, TransformValue(prims2), tween)];
        assert appended[..|keys|] == keys;
        if !resolved {
          result := false;
        }
        if result {
          if Chained(keys) {
            assert ChainedBelow(appended, last) by {
              assert forall j :: 0 <= j < last ==> appended[j] == keys[j];
            }
          }
          var chained, keys2, results := PrepareTransforms(env, appended, last);
          SameTimelinePrefix(keys, appended, keys2);
          appended := keys2;
          result := chained;
        }
      }
    }

    /**
      Lines 394-470: a no-op returning nothing when the animation is
      complete, invalid, or world time has not moved forward; otherwise the
      playback fields advance to the new world time and the result is the
      blend of the bracketing keys at the local time, in the animation's
      unit and specificity.
    */
    method UpdateAndGetProperty(env: Env, worldTime: real) returns (r: Option<Property>)
      requires Valid()
      modifies this
      ensures Valid()
      ensures keys == old(keys)
      ensures !Advances(valid, old(State()), worldTime) ==> r.None? && State() == old(State())
      ensures Advances(valid, old(State()), worldTime) ==>
        State() == Advance(PlaybackTiming(), old(State()), worldTime) &&
        r == Some(Property(SampleKeys(env, keys, LocalTime(PlaybackTiming(), State())), propertyUnit, propertySpecificity))
    {
      if animationComplete || !valid || worldTime - lastUpdateWorldTime <= 0.0 {
        return None;
      }
      AdvanceKeepsInvariant(PlaybackTiming(), State(), worldTime);
      AdvancePlayback(worldTime);

      var t := timeSinceIterationStart;
      if reverseDirection {
        t := duration - t;
      }
      var value := Sample(env, keys, t);
      r := Some(Property(value, propertyUnit, propertySpecificity));
    }

    /**
      Lines 401-423: the playback fields move on to worldTime; reaching the
      end of an iteration starts the next one (turning round when the
      direction alternates) or completes the animation.
    */
    method AdvancePlayback(worldTime: real)
      modifies this
      ensures keys == old(keys)
      ensures State() == Advance(PlaybackTiming(), old(State()), worldTime)
    {
      var dt := worldTime - lastUpdateWorldTime;
      lastUpdateWorldTime := worldTime;
      timeSinceIterationStart := timeSinceIterationStart + dt;

      if timeSinceIterationStart >= duration {
        // next iteration
        currentIteration := currentIteration + 1;
        if currentIteration < numIterations || numIterations == Infinite {
          timeSinceIterationStart := 0.0;
          if alternateDirection {
            reverseDirection := !reverseDirection;
          }
        } else {
          animationComplete := true;
          timeSinceIterationStart := duration;
        }
      }
    }

    /**
      GetInterpolationFactorAndKeys: the bracketing keys and the tweened
      blend factor at the current local time, as UpdateAndGetProperty
      computes them (lines 425-463); the animation is left as it is.
    */
    method GetInterpolationFactorAndKeys() returns (alpha: real, key0: nat, key1: nat)
      requires Valid()
      ensures var t := LocalTime(PlaybackTiming(), State());
        key1 == UpperKey(keys, t) && key0 == LowerKey(key1) &&
        alpha == keys[key1].tween(BlendFactor(t, keys[key0].time, keys[key1].time))
      ensures key0 <= key1 < |keys|
    {
      var t := timeSinceIterationStart;
      if reverseDirection {
        t := duration - t;
      }
      key0, key1 := FindKeys(keys, t);
      alpha := 0.0;
      var t0 := keys[key0].time;
      var t1 := keys[key1].time;
      if t1 - t0 > Epsilon {
        alpha := (t - t0) / (t1 - t0);
      }
      alpha := keys[key1].tween(Clamp(alpha, 0.0, 1.0));
    }

    /** The blend factor alone (header line 86); a query that changes nothing. */
    method GetInterpolationFactor() returns (alpha: real)
      requires Valid()
      ensures var t := LocalTime(PlaybackTiming(), State());
        var key1 := UpperKey(keys, t);
        alpha == keys[key1].tween(BlendFactor(t, keys[LowerKey(key1)].time, keys[key1].time))
    {
      var key0, key1;
      alpha, key0, key1 := GetInterpolationFactorAndKeys();
    }

    /** Completion is only ever reached with a finite iteration count, all iterations played. */
    function IsComplete(): (r: bool)
      reads this
      ensures r == animationComplete
      ensures Valid() && r ==> numIterations != Infinite && currentIteration >= numIterations
    {
      animationComplete
    }

    function IsTransition(): (r: bool)
      ensures r <==> origin == Transition
    {
      origin == Transition
    }

    function GetOrigin(): (r: ElementAnimationOrigin)
      ensures r == origin
    {
      origin
    }

    function GetDuration(): (r: real)
      ensures r == duration
    {
      duration
    }

    function GetPropertyName(): (r: string)
      ensures r == propertyName
    {
      propertyName
    }
  }

  /** Reconciling a list whose first part is `keys` keeps that part on the same timeline as `keys`. */
  lemma SameTimelinePrefix(keys: seq<AnimationKey>, appended: seq<AnimationKey>, keys2: seq<AnimationKey>)
    requires |appended| == |keys| + 1 && appended[..|keys|] == keys
    requires SameTimeline(appended, keys2)
    ensures SameTimeline(keys, keys2[..|keys|])
  {
    forall k | 0 <= k < |keys|
      ensures keys[k] == appended[k]
    {
      assert keys[k] == appended[..|keys|][k];
    }
  }

  /**
    Collaborators in which no two primitives convert or interpolate and only
    a lone primitive of kind 0 decomposes (into kind 2).
  */
  function OnlyKindZeroDecomposes(): (env: Env)
    ensures ValidEnv(env)
    ensures env.decompose([Primitive(0, [1.0])]).Some? && env.decompose([Primitive(1, [2.0])]).None?
  {
    Env((p, q) => None, p => [], (p, q, a) => None, (p: Primitive) => Some(p.values), 2,
        (l: seq<Primitive>) => if |l| == 1 && l[0].kind == 0 then Some([0.0]) else None,
        (c0, c1, a) => c0, v => None)
  }

  /**
    The rollback of lines 388-389 as written. Keys [A], [A] are reconciled;
    the new key [B] cannot be paired with [A] and its fallback replaces the
    middle key by its decomposition [D] before [B] fails to decompose. Popping
    the new key then leaves the pair [A], [D], which is not matched. The
    atomic fallback leaves both lists as they were.
  */
  lemma RollbackLeavesUnmatchedPair()
    ensures var env := OnlyKindZeroDecomposes();
      var a, b := [Primitive(0, [1.0])], [Primitive(1, [2.0])];
      var r := MatrixFallback(env, a, b);
      var keyA := AnimationKey(0.0, TransformValue(a), LinearTween());
      NeedsFallback(env, a, b) && r.0 == Invalid &&
      Chained([keyA, keyA]) && !Chained([keyA, WithPrims(keyA, r.1)]) &&
      MatrixFallbackAtomic(env, a, b) == (Invalid, a, b)
    ensures var env := OnlyKindZeroDecomposes();
      var a, b := [Primitive(0, [1.0])], [Primitive(1, [2.0])];
      var keyA := AnimationKey(0.0, TransformValue(a), LinearTween());
      var ak := AddedKeys(env, [keyA, keyA], 1.0, Property(TransformValue(b), TransformUnit, 0), LinearTween());
      !ak.0 && !Chained(ak.1[..2])
  {
    var env := OnlyKindZeroDecomposes();
    var a, b := [Primitive(0, [1.0])], [Primitive(1, [2.0])];
    assert !Compatible(env, a[0], b[0]);
    assert !EqualLengthMatch(env, a, b);
    var r := MatrixFallback(env, a, b);
    assert r.1 == [Primitive(2, [0.0])];
    var keyA := AnimationKey(0.0, TransformValue(a), LinearTween());
    var popped := [keyA, WithPrims(keyA, r.1)];
    assert !Matched(Prims(popped[0]), Prims(popped[1]));
    // The same pair reached through AddKey's own steps (lines 371-389).
    assert FirstIncompatible(env, a, b, 0) == 0;
    var w := WidenedLists(env, a, b);
    assert w.0 == a by { assert |w.0| == 1 && w.0[0] == a[0]; }
    assert w.1 == b by { assert |w.1| == 1 && w.1[0] == b[0]; }
    assert ReconciledPair(env, a, b) == r;
    assert AllResolve(env, b);
    var rb := ResolvedAll(env, b);
    assert rb == b by { assert |rb| == 1 && rb[0] == b[0]; }
    var pushed := [keyA, keyA, AnimationKey(1.0, TransformValue(b), LinearTween())];
    var step := PairStep(Reconciler(env), pushed, 2);
    assert step.0 == Invalid;
    var ak := AddedKeys(env, [keyA, keyA], 1.0, Property(TransformValue(b), TransformUnit, 0), LinearTween());
    assert [keyA, keyA] + [AnimationKey(1.0, TransformValue(rb), LinearTween())] == pushed;
    assert ak == (false, step.1);
    assert ak.1[..2] == popped;
  }
}
