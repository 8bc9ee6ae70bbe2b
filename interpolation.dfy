/**
  Blending two key values (InterpolateValues) and normalising a key value to
  a kind that can be blended (TryMakeUnitValid).
*/
module Interpolation {
  import opened Wrappers
  import opened Values

  /** Every primitive pair of two equally long lists can be interpolated. */
  predicate AllInterpolate(env: Env, p0: seq<Primitive>, p1: seq<Primitive>, alpha: real)
    requires |p0| == |p1|
  {
    forall i :: 0 <= i < |p0| ==> env.interpolateWith(p0[i], p1[i], alpha).Some?
  }

  /**
    The value InterpolateValues builds: values of different types, and types
    other than float, colour and transform, give `v0` back; floats blend
    linearly; colours go through the colour blend; transforms blend primitive
    by primitive, falling back to `v0` when the lists differ in length or one
    pair refuses to interpolate.
  */
  function InterpolatedValue(env: Env, v0: Value, v1: Value, alpha: real): (r: Value)
    ensures TypeOf(v0) != TypeOf(v1) ==> r == v0
    ensures !Interpolable(v0) ==> r == v0
    ensures v0.FloatValue? && v1.FloatValue? ==> r == FloatValue((1.0 - alpha) * v0.f + alpha * v1.f)
    ensures v0.FloatValue? && v1.FloatValue? && alpha == 0.0 ==> r == v0
    ensures v0.FloatValue? && v1.FloatValue? && alpha == 1.0 ==> r == v1
    ensures v0.FloatValue? && v0 == v1 ==> r == v0
    ensures v0.ColourValue? && v1.ColourValue? ==> r == ColourValue(env.blendColour(v0.c, v1.c, alpha))
    ensures v0.TransformValue? && v1.TransformValue? ==>
      if |v0.prims| == |v1.prims| && AllInterpolate(env, v0.prims, v1.prims, alpha) then
        r.TransformValue? && |r.prims| == |v0.prims| &&
        forall i :: 0 <= i < |r.prims| ==> Some(r.prims[i]) == env.interpolateWith(v0.prims[i], v1.prims[i], alpha)
      else
        r == v0
    ensures ValidEnv(env) && v0.TransformValue? ==>
      r.TransformValue? && |r.prims| == |v0.prims| &&
      forall i :: 0 <= i < |r.prims| ==> r.prims[i].kind == v0.prims[i].kind
  {
    if TypeOf(v0) != TypeOf(v1) then v0
    else match v0
      case FloatValue(_) => FloatValue((1.0 - alpha) * v0.f + alpha * v1.f)
      case ColourValue(c0) => ColourValue(env.blendColour(c0, v1.c, alpha))
      case TransformValue(p0) =>
        var p1 := v1.prims;
        if |p0| == |p1| && AllInterpolate(env, p0, p1, alpha) then
          TransformValue(seq(|p0|, i requires 0 <= i < |p0| => env.interpolateWith(p0[i], p1[i], alpha).value))
        else v0
      case OtherValue(_, _) => v0
  }

  /** InterpolateValues (lines 58-123): the transform case builds the new list in a loop. */
  method InterpolateValues(env: Env, v0: Value, v1: Value, alpha: real) returns (r: Value)
    ensures r == InterpolatedValue(env, v0, v1, alpha)
  {
    if TypeOf(v0) != TypeOf(v1) {
      return v0;
    }
    match v0 {
      case FloatValue(f0) =>
        var f1 := v1.f;
        r := FloatValue((1.0 - alpha) * f0 + alpha * f1);
      case ColourValue(c0) =>
        r := ColourValue(env.blendColour(c0, v1.c, alpha));
      case TransformValue(p0) =>
        var p1 := v1.prims;
        if |p0| != |p1| {
          return v0;
        }
        var t: seq<Primitive> := [];
        var i := 0;
        while i < |p0|
          invariant 0 <= i <= |p0|
          invariant |t| == i
          invariant forall j :: 0 <= j < i ==>
            env.interpolateWith(p0[j], p1[j], alpha).Some? && t[j] == env.interpolateWith(p0[j], p1[j], alpha).value
        {
          var p := env.interpolateWith(p0[i], p1[i], alpha);
          if p.None? {
            return v0;
          }
          t := t + [p.value];
          i := i + 1;
        }
        r := TransformValue(t);
      case OtherValue(_, _) =>
        r := v0;
    }
  }

  /**
    TryMakeUnitValid (lines 334-354): floats, colours and transforms pass
    unchanged; anything else is coerced to a float, and a value that cannot
    be coerced is reported and left as it was.
  */
  function TryMakeUnitValid(env: Env, value: Value): (r: (bool, Value))
    ensures Interpolable(value) ==> r == (true, value)
    ensures r.0 ==> Interpolable(r.1)
    ensures !r.0 ==> r.1 == value
    ensures !Interpolable(value) ==> (r.0 <==> env.toFloat(value).Some?)
    ensures !Interpolable(value) && r.0 ==> r.1 == FloatValue(env.toFloat(value).value)
  {
    if Interpolable(value) then (true, value)
    else match env.toFloat(value)
      case Some(f) => (true, FloatValue(f))
      case None => (false, value)
  }
}
