/** Optional results, for the collaborators that can fail. */
module Wrappers {

  datatype Option<+T> = None | Some(value: T)
}

/**
  The values an animation works on, and the collaborators of the style system
  it calls without defining them: transform primitives and their operations,
  colour blending, float coercion and the matrix decomposition fallback.
  Each collaborator is a field of `Env`; `ValidEnv` states the few laws the
  animation core relies on.
*/
module Values {
  import opened Wrappers

  /** Colourb: four 8-bit channels. */
  newtype byte = x: int | 0 <= x < 256

  datatype Colour = Colour(red: byte, green: byte, blue: byte, alpha: byte)

  /**
    One transform primitive: the index of its alternative in the primitive
    variant (translateX, rotate3d, decomposed matrix, ...) and its numbers.
  */
  datatype Primitive = Primitive(kind: nat, values: seq<real>)

  /** The Variant payloads the core distinguishes; every other type is `OtherValue`. */
  datatype Value =
    | FloatValue(f: real)
    | ColourValue(c: Colour)
    | TransformValue(prims: seq<Primitive>)
    | OtherValue(tag: nat, data: seq<int>)

  /** Variant::GetType(), the tag compared before interpolating. */
  datatype VariantType = FloatType | ColourType | TransformType | OtherType(tag: nat)

  function TypeOf(v: Value): VariantType
  {
    match v
    case FloatValue(_) => FloatType
    case ColourValue(_) => ColourType
    case TransformValue(_) => TransformType
    case OtherValue(tag, _) => OtherType(tag)
  }

  /** A value of a kind InterpolateValues knows how to blend. */
  predicate Interpolable(v: Value)
  {
    v.FloatValue? || v.ColourValue? || v.TransformValue?
  }

  /** Property::unit; only the transform unit is told apart by the core. */
  datatype Unit = TransformUnit | OtherUnit(code: nat)

  datatype Property = Property(value: Value, unit: Unit, specificity: int)

  /** The style system stores a transform reference in every property of the transform unit. */
  predicate WellFormedProperty(p: Property)
  {
    p.unit == TransformUnit ==> p.value.TransformValue?
  }

  /** An easing function, applied to the blend factor going into a key. */
  type Tween = real -> real

  /** The default-constructed Tween{}: the linear tween. */
  function LinearTween(): Tween
  {
    x => x
  }

  /** AnimationKey: a time local to one iteration, a value and the tween into this key. */
  datatype AnimationKey = AnimationKey(time: real, value: Value, tween: Tween)

  /** The primitive list of a transform-valued key (empty for any other value). */
  function Prims(k: AnimationKey): seq<Primitive>
  {
    if k.value.TransformValue? then k.value.prims else []
  }

  predicate AllTransforms(keys: seq<AnimationKey>)
  {
    forall k :: 0 <= k < |keys| ==> keys[k].value.TransformValue?
  }

  /** Two key lists that agree on everything but possibly the primitive lists of their transforms. */
  ghost predicate SameTimeline(a: seq<AnimationKey>, b: seq<AnimationKey>)
  {
    |a| == |b| &&
    forall k :: 0 <= k < |a| ==>
      a[k].time == b[k].time && a[k].tween == b[k].tween &&
      (a[k].value.TransformValue? <==> b[k].value.TransformValue?) &&
      (!a[k].value.TransformValue? ==> a[k].value == b[k].value)
  }

  /**
    The collaborators of the core, none of which it defines.
    - convertGeneric: Primitive::TryConvertToMatchingGenericType, widening a
      pair of primitives of different kinds to a common kind, or failing;
    - identityValues: the numbers Primitive::SetIdentity gives a primitive of that kind;
    - interpolateWith: Primitive::InterpolateWith;
    - resolveUnits: Primitive::ResolveUnits against the element (new numbers, or failure);
    - decomposedKind, decompose: CombineAndDecompose, i.e. multiplying the
      resolved matrices of a list and decomposing the product (the numbers of
      one decomposed-matrix primitive, or failure);
    - blendColour: the gamma-space colour blend of InterpolateValues;
    - toFloat: Variant::GetInto<float>.
  */
  datatype Env = Env(
    convertGeneric: (Primitive, Primitive) -> Option<(Primitive, Primitive)>,
    identityValues: Primitive -> seq<real>,
    interpolateWith: (Primitive, Primitive, real) -> Option<Primitive>,
    resolveUnits: Primitive -> Option<seq<real>>,
    decomposedKind: nat,
    decompose: seq<Primitive> -> Option<seq<real>>,
    blendColour: (Colour, Colour, real) -> Colour,
    toFloat: Value -> Option<real>)

  /**
    A widening of (p, q) to (r.0, r.1): both end up of one kind, and a side
    whose kind did not change is left as it was (widening only changes the
    representation).
  */
  predicate Widened(p: Primitive, q: Primitive, r: (Primitive, Primitive))
  {
    r.0.kind == r.1.kind &&
    (r.0.kind == p.kind ==> r.0 == p) &&
    (r.1.kind == q.kind ==> r.1 == q)
  }

  /** The laws of the collaborators that the core relies on. */
  ghost predicate ValidEnv(env: Env)
  {
    (forall p, q :: env.convertGeneric(p, q).Some? ==> Widened(p, q, env.convertGeneric(p, q).value)) &&
    (forall p, q, a :: env.interpolateWith(p, q, a).Some? ==>
       p.kind == q.kind && env.interpolateWith(p, q, a).value.kind == p.kind)
  }

  /** Primitive::SetIdentity: the identity of the same kind. */
  function SetIdentity(env: Env, p: Primitive): (r: Primitive)
    ensures r.kind == p.kind
  {
    Primitive(p.kind, env.identityValues(p))
  }
}
