/**
  The playback state machine of an animation (UpdateAndGetProperty, lines
  394-470) as functions on values: advancing the state to a new world time,
  the time local to the current iteration, the pair of keys bracketing it
  and the blend factor between them.
*/
module Timeline {
  import opened Values
  import opened Interpolation

  /** num_iterations: -1 stands for an animation that repeats forever. */
  const Infinite: int := -1

  /** The fixed playback parameters: one iteration's duration, the iteration count, ping-pong between iterations. */
  datatype Timing = Timing(duration: real, numIterations: int, alternateDirection: bool)

  /** The mutable playback fields of ElementAnimation. */
  datatype Playback = Playback(
    lastUpdateWorldTime: real,
    timeSinceIterationStart: real,
    currentIteration: int,
    reverseDirection: bool,
    animationComplete: bool)

  /** The state the constructor sets up (lines 356-363). */
  function Start(startWorldTime: real): (s: Playback)
    ensures s.lastUpdateWorldTime == startWorldTime && s.timeSinceIterationStart == 0.0
    ensures s.currentIteration == 0 && !s.reverseDirection && !s.animationComplete
  {
    Playback(startWorldTime, 0.0, 0, false, false)
  }

  /**
    What the playback fields always satisfy: the direction is only ever
    reversed when alternating, completion means the finite iteration count
    was reached and the elapsed time sits at the end of the iteration, and
    otherwise the elapsed time lies inside the iteration.
  */
  predicate PlaybackInvariant(timing: Timing, s: Playback)
  {
    s.currentIteration >= 0 &&
    (s.reverseDirection ==> timing.alternateDirection) &&
    (s.animationComplete ==>
       timing.numIterations != Infinite && s.currentIteration >= timing.numIterations &&
       s.timeSinceIterationStart == timing.duration) &&
    (!s.animationComplete ==>
       0.0 <= s.timeSinceIterationStart &&
       (s.timeSinceIterationStart < timing.duration || s.timeSinceIterationStart == 0.0))
  }

  lemma StartInvariant(timing: Timing, startWorldTime: real)
    ensures PlaybackInvariant(timing, Start(startWorldTime))
  {
  }

  /** The guard of line 399 fails: the animation is running, valid, and world time has moved forward. */
  predicate Advances(valid: bool, s: Playback, worldTime: real)
  {
    !s.animationComplete && valid && worldTime - s.lastUpdateWorldTime > 0.0
  }

  /**
    Lines 401-423: the elapsed time grows by the step; when it reaches the
    duration a new iteration starts from exactly 0 (the overshoot is
    dropped), flipping the direction when alternating, unless the iteration
    count is used up, in which case the animation completes at the end of
    the iteration.
  */
  function Advance(timing: Timing, s: Playback, worldTime: real): (r: Playback)
    ensures r.lastUpdateWorldTime == worldTime
    ensures r.currentIteration == s.currentIteration + 1 <==>
      s.timeSinceIterationStart + (worldTime - s.lastUpdateWorldTime) >= timing.duration
    ensures r.currentIteration == s.currentIteration || r.currentIteration == s.currentIteration + 1
    ensures r.currentIteration == s.currentIteration ==>
      r.timeSinceIterationStart == s.timeSinceIterationStart + (worldTime - s.lastUpdateWorldTime) &&
      r.reverseDirection == s.reverseDirection && r.animationComplete == s.animationComplete
    ensures r.reverseDirection != s.reverseDirection ==>
      timing.alternateDirection && r.currentIteration == s.currentIteration + 1 && r.timeSinceIterationStart == 0.0
    ensures r.animationComplete != s.animationComplete ==>
      r.animationComplete && timing.numIterations != Infinite && r.currentIteration >= timing.numIterations &&
      r.timeSinceIterationStart == timing.duration && r.reverseDirection == s.reverseDirection
    ensures r.currentIteration == s.currentIteration + 1 && !r.animationComplete ==> r.timeSinceIterationStart == 0.0
    ensures timing.numIterations == Infinite ==> r.animationComplete == s.animationComplete
  {
    var dt := worldTime - s.lastUpdateWorldTime;
    var elapsed := s.timeSinceIterationStart + dt;
    if elapsed >= timing.duration then
      var iteration := s.currentIteration + 1;
      if iteration < timing.numIterations || timing.numIterations == Infinite then
        var reverse := if timing.alternateDirection then !s.reverseDirection else s.reverseDirection;
        Playback(worldTime, 0.0, iteration, reverse, s.animationComplete)
      else
        Playback(worldTime, timing.duration, iteration, s.reverseDirection, true)
    else
      Playback(worldTime, elapsed, s.currentIteration, s.reverseDirection, s.animationComplete)
  }

  /** Advancing a running animation keeps the playback invariant. */
  lemma AdvanceKeepsInvariant(timing: Timing, s: Playback, worldTime: real)
    requires PlaybackInvariant(timing, s)
    requires Advances(true, s, worldTime)
    ensures PlaybackInvariant(timing, Advance(timing, s, worldTime))
  {
  }

  /**
    Time must not go back: right after an advance to worldTime, a call with
    a world time no later than it is a no-op.
  */
  lemma AdvanceThenEarlierIsNoOp(timing: Timing, valid: bool, s: Playback, worldTime: real, laterCall: real)
    requires laterCall <= worldTime
    ensures !Advances(valid, Advance(timing, s, worldTime), laterCall)
  {
  }

  /** A completed animation stays complete and is never advanced again. */
  lemma CompleteIsFinal(timing: Timing, valid: bool, s: Playback, worldTime: real)
    requires s.animationComplete
    ensures !Advances(valid, s, worldTime)
    ensures Advance(timing, s, worldTime).animationComplete
  {
  }

  /** Lines 425-428: the time within the iteration, read backwards when the direction is reversed. */
  function LocalTime(timing: Timing, s: Playback): (r: real)
    ensures !s.reverseDirection ==> r == s.timeSinceIterationStart
    ensures s.reverseDirection ==> r + s.timeSinceIterationStart == timing.duration
    ensures 0.0 <= s.timeSinceIterationStart <= timing.duration ==> 0.0 <= r <= timing.duration
  {
    if s.reverseDirection then timing.duration - s.timeSinceIterationStart else s.timeSinceIterationStart
  }

  /** For a non-negative duration the elapsed and local times stay within [0, duration]. */
  lemma LocalTimeBounds(timing: Timing, s: Playback)
    requires PlaybackInvariant(timing, s) && timing.duration >= 0.0
    ensures 0.0 <= s.timeSinceIterationStart <= timing.duration
    ensures 0.0 <= LocalTime(timing, s) <= timing.duration
  {
  }

  /** The first index k >= from with keys[k].time >= t, or |keys| when there is none. */
  function FirstAtOrAfter(keys: seq<AnimationKey>, t: real, from: nat): (k: nat)
    requires from <= |keys|
    ensures from <= k <= |keys|
    ensures k < |keys| ==> keys[k].time >= t
    ensures forall j :: from <= j < k ==> keys[j].time < t
    decreases |keys| - from
  {
    if from == |keys| then |keys|
    else if keys[from].time >= t then from
    else FirstAtOrAfter(keys, t, from + 1)
  }

  /** key1 of lines 434-443: the first key whose time is at least t, or the last key. */
  function UpperKey(keys: seq<AnimationKey>, t: real): (k: nat)
    requires |keys| > 0
    ensures k < |keys|
    ensures forall j :: 0 <= j < k ==> keys[j].time < t
    ensures k < |keys| - 1 ==> keys[k].time >= t
    ensures (exists j :: 0 <= j < |keys| && keys[j].time >= t) ==> keys[k].time >= t
  {
    var k := FirstAtOrAfter(keys, t, 0);
    if k == |keys| then |keys| - 1 else k
  }

  /** key0 of line 444: the key before key1, or key1 itself when it is the first key. */
  function LowerKey(key1: nat): (k: nat)
    ensures k <= key1 && (key1 > 0 ==> k + 1 == key1)
  {
    if key1 == 0 then 0 else key1 - 1
  }

  /** Line 455: key times closer than this are treated as one instant. */
  const Epsilon: real := 0.001

  /** Math::Clamp: x brought into [lo, hi]. */
  function Clamp(x: real, lo: real, hi: real): (r: real)
    ensures lo <= hi ==> lo <= r <= hi
    ensures lo <= x <= hi ==> r == x
    ensures x < lo ==> r == lo
    ensures lo <= hi && x > hi ==> r == hi
  {
    if x < lo then lo else if x > hi then hi else x
  }

  /**
    Lines 449-461: the position of t between the times t0 and t1, as a
    fraction clamped to [0, 1]; 0 when the two times are within epsilon.
  */
  function BlendFactor(t: real, t0: real, t1: real): (alpha: real)
    ensures 0.0 <= alpha <= 1.0
    ensures t1 - t0 <= Epsilon ==> alpha == 0.0
    ensures t1 - t0 > Epsilon && t0 <= t <= t1 ==> alpha * (t1 - t0) == t - t0
    ensures t1 - t0 > Epsilon && t <= t0 ==> alpha == 0.0
    ensures t1 - t0 > Epsilon && t >= t1 ==> alpha == 1.0
  {
    var raw := if t1 - t0 > Epsilon then DivideByWidth(t - t0, t1 - t0); (t - t0) / (t1 - t0) else 0.0;
    Clamp(raw, 0.0, 1.0)
  }

  lemma DivideByWidth(x: real, d: real)
    requires d > 0.0
    ensures (x / d) * d == x
    ensures x <= 0.0 ==> x / d <= 0.0
    ensures x >= d ==> x / d >= 1.0
  {
  }

  /** Two factors that give the same x over the same positive width are equal. */
  lemma CancelWidth(a: real, b: real, d: real, x: real)
    requires d > 0.0 && a * d == x && b * d == x
    ensures a == b
  {
    assert (a - b) * d == 0.0;
  }

  /**
    The value of lines 430-467 at local time t: the bracketing keys are
    blended with the factor, passed through the tween of the upper key.
  */
  function SampleKeys(env: Env, keys: seq<AnimationKey>, t: real): (r: Value)
    requires |keys| > 0
    ensures (forall j :: 0 <= j < |keys| ==> TypeOf(keys[j].value) == TypeOf(keys[0].value)) ==> TypeOf(r) == TypeOf(keys[0].value)
    ensures |keys| == 1 ==> r == InterpolatedValue(env, keys[0].value, keys[0].value, keys[0].tween(0.0))
  {
    var key1 := UpperKey(keys, t);
    var key0 := LowerKey(key1);
    var alpha := keys[key1].tween(BlendFactor(t, keys[key0].time, keys[key1].time));
    InterpolatedValue(env, keys[key0].value, keys[key1].value, alpha)
  }

  /**
    The linear scan of lines 434-444, which finds the bracketing keys.
  */
  method FindKeys(keys: seq<AnimationKey>, t: real) returns (key0: nat, key1: nat)
    requires |keys| > 0
    ensures key1 == UpperKey(keys, t) && key0 == LowerKey(key1)
    ensures key0 <= key1 < |keys|
  {
    var found := -1;
    var i := 0;
    while i < |keys|
      invariant 0 <= i <= |keys|
      invariant forall j :: 0 <= j < i ==> keys[j].time < t
      invariant FirstAtOrAfter(keys, t, 0) == FirstAtOrAfter(keys, t, i)
    {
      if keys[i].time >= t {
        found := i;
        break;
      }
      i := i + 1;
    }
    key1 := if found < 0 then |keys| - 1 else found;
    key0 := if key1 == 0 then 0 else key1 - 1;
  }

  /**
    Lines 430-467: brackets t between two keys with the linear scan, blends
    their values at the tweened, clamped factor.
  */
  method Sample(env: Env, keys: seq<AnimationKey>, t: real) returns (value: Value)
    requires |keys| > 0
    ensures value == SampleKeys(env, keys, t)
  {
    var key0, key1 := FindKeys(keys, t);
    var alpha := 0.0;
    var t0 := keys[key0].time;
    var t1 := keys[key1].time;
    if t1 - t0 > Epsilon {
      alpha := (t - t0) / (t1 - t0);
    }
    alpha := Clamp(alpha, 0.0, 1.0);
    alpha := keys[key1].tween(alpha);
    value := InterpolateValues(env, keys[key0].value, keys[key1].value, alpha);
  }

  /**
    Up to and including the first key's time, the sample is the first key's
    value blended with itself; for a float key that is the key's value.
  */
  lemma SampleAtFirstKey(env: Env, keys: seq<AnimationKey>, t: real)
    requires |keys| > 0 && t <= keys[0].time
    ensures SampleKeys(env, keys, t) == InterpolatedValue(env, keys[0].value, keys[0].value, keys[0].tween(0.0))
    ensures keys[0].value.FloatValue? ==> SampleKeys(env, keys, t) == keys[0].value
  {
  }

  /**
    Past the last key, the sample is the blend of the last two keys at the
    tweened factor 1; for float keys and a tween that keeps 1, it is the last
    key's value.
  */
  lemma SampleAfterLastKey(env: Env, keys: seq<AnimationKey>, t: real)
    requires |keys| >= 2
    requires forall j :: 0 <= j < |keys| ==> keys[j].time < t
    requires keys[|keys| - 1].time - keys[|keys| - 2].time > Epsilon
    ensures SampleKeys(env, keys, t) ==
      InterpolatedValue(env, keys[|keys| - 2].value, keys[|keys| - 1].value, keys[|keys| - 1].tween(1.0))
    ensures keys[|keys| - 2].value.FloatValue? && keys[|keys| - 1].value.FloatValue? && keys[|keys| - 1].tween(1.0) == 1.0 ==>
      SampleKeys(env, keys, t) == keys[|keys| - 1].value
  {
    var n := |keys|;
    assert UpperKey(keys, t) == n - 1;
  }

  /**
    Strictly after key k - 1 and up to key k, when all earlier keys lie
    before t, the sample blends keys k - 1 and k at the tweened fraction of
    the way from one to the other.
  */
  lemma SampleBetweenKeys(env: Env, keys: seq<AnimationKey>, t: real, k: nat, alpha: real)
    requires 0 < k < |keys|
    requires forall j :: 0 <= j < k ==> keys[j].time < t
    requires t <= keys[k].time
    requires keys[k].time - keys[k - 1].time > Epsilon
    requires alpha * (keys[k].time - keys[k - 1].time) == t - keys[k - 1].time
    ensures SampleKeys(env, keys, t) == InterpolatedValue(env, keys[k - 1].value, keys[k].value, keys[k].tween(alpha))
  {
    assert UpperKey(keys, t) == k;
    var t0, t1 := keys[k - 1].time, keys[k].time;
    assert t0 < t <= t1 by {
      assert keys[k - 1].time < t;
    }
    var b := BlendFactor(t, t0, t1);
    assert b * (t1 - t0) == t - t0;
    CancelWidth(b, alpha, t1 - t0, t - t0);
  }

  /**
    An example: an animation of one second, two iterations, alternating,
    from 0.0 at time 0 to 10.0 at time 1 with linear tweens, started at
    world time 0 and advanced to 0.5, 1.5, 2.0 and 3.0.
  */
  const ExampleTiming := Timing(1.0, 2, true)

  function ExampleKeys(): seq<AnimationKey>
  {
    [AnimationKey(0.0, FloatValue(0.0), LinearTween()), AnimationKey(1.0, FloatValue(10.0), LinearTween())]
  }

  /**
    The example's states: at 1.5 the second iteration starts reversed from
    its very beginning (the half second of overshoot is dropped); at 3.0 the
    animation completes, and later calls are no-ops.
  */
  lemma ExamplePlayback()
    ensures Advances(true, Start(0.0), 0.5) && Advance(ExampleTiming, Start(0.0), 0.5) == Playback(0.5, 0.5, 0, false, false)
    ensures Advances(true, Playback(0.5, 0.5, 0, false, false), 1.5)
    ensures Advance(ExampleTiming, Playback(0.5, 0.5, 0, false, false), 1.5) == Playback(1.5, 0.0, 1, true, false)
    ensures Advances(true, Playback(1.5, 0.0, 1, true, false), 2.0)
    ensures Advance(ExampleTiming, Playback(1.5, 0.0, 1, true, false), 2.0) == Playback(2.0, 0.5, 1, true, false)
    ensures Advances(true, Playback(2.0, 0.5, 1, true, false), 3.0)
    ensures Advance(ExampleTiming, Playback(2.0, 0.5, 1, true, false), 3.0) == Playback(3.0, 1.0, 2, true, true)
    ensures forall later :: !Advances(true, Playback(3.0, 1.0, 2, true, true), later)
  {
  }

  /** The example's values in those states: 5.0, then 10.0 (reversed, at the iteration start), 5.0, and 0.0 at completion. */
  lemma ExampleValues(env: Env)
    ensures SampleKeys(env, ExampleKeys(), LocalTime(ExampleTiming, Playback(0.5, 0.5, 0, false, false))) == FloatValue(5.0)
    ensures SampleKeys(env, ExampleKeys(), LocalTime(ExampleTiming, Playback(1.5, 0.0, 1, true, false))) == FloatValue(10.0)
    ensures SampleKeys(env, ExampleKeys(), LocalTime(ExampleTiming, Playback(2.0, 0.5, 1, true, false))) == FloatValue(5.0)
    ensures SampleKeys(env, ExampleKeys(), LocalTime(ExampleTiming, Playback(3.0, 1.0, 2, true, true))) == FloatValue(0.0)
  {
    TwoFloatKeys(env, 0.0, 10.0, 0.5);
    TwoFloatKeys(env, 0.0, 10.0, 1.0);
    TwoFloatKeys(env, 0.0, 10.0, 0.0);
  }

  /** Two float keys at times 0 and 1 with linear tweens: at t in [0, 1] the sample is the straight-line blend. */
  lemma TwoFloatKeys(env: Env, a: real, b: real, t: real)
    requires 0.0 <= t <= 1.0
    ensures SampleKeys(env, [AnimationKey(0.0, FloatValue(a), LinearTween()), AnimationKey(1.0, FloatValue(b), LinearTween())], t)
         == FloatValue((1.0 - t) * a + t * b)
  {
    var keys := [AnimationKey(0.0, FloatValue(a), LinearTween()), AnimationKey(1.0, FloatValue(b), LinearTween())];
    if t == 0.0 {
      assert UpperKey(keys, t) == 0;
      assert BlendFactor(t, 0.0, 0.0) == 0.0;
    } else {
      assert UpperKey(keys, t) == 1;
      assert BlendFactor(t, 0.0, 1.0) == t;
    }
  }
}
