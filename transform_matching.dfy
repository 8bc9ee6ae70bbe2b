/**
  Reconciling the primitive lists of two transforms (PrepareTransformPair):
  the lists are edited until they have equal length and the same primitive
  kind at every index, so that they can be interpolated primitive by
  primitive. Three attempts, first success wins: an equal-length match with
  generic widening, an ordered subsequence match that pads the shorter list
  with identity primitives, and a matrix-decomposition fallback.
*/
module TransformMatching {
  import opened Wrappers
  import opened Values

  /** PrepareTransformResult; the first four are the bit sets {}, {t0}, {t1}, {t0, t1}. */
  datatype PrepareTransformResult = Unchanged | ChangedT0 | ChangedT1 | ChangedT0andT1 | Invalid
  {
    predicate ChangedFirst()
    {
      this == ChangedT0 || this == ChangedT0andT1
    }

    predicate ChangedSecond()
    {
      this == ChangedT1 || this == ChangedT0andT1
    }

    /** `result |= ChangedT0` */
    function MarkFirst(): (r: PrepareTransformResult)
      requires this != Invalid
      ensures r.ChangedFirst() && (r.ChangedSecond() <==> ChangedSecond())
    {
      if ChangedSecond() then ChangedT0andT1 else ChangedT0
    }

    /** `result |= ChangedT1` */
    function MarkSecond(): (r: PrepareTransformResult)
      requires this != Invalid
      ensures r.ChangedSecond() && (r.ChangedFirst() <==> ChangedFirst())
    {
      if ChangedFirst() then ChangedT0andT1 else ChangedT1
    }
  }

  /** Equal length and the same kind at every index: ready to be interpolated pairwise. */
  predicate Matched(a: seq<Primitive>, b: seq<Primitive>)
  {
    |a| == |b| && forall i :: 0 <= i < |a| ==> a[i].kind == b[i].kind
  }

  /** `s` pairs with `b`: the same kind, or both can be widened to a common kind. */
  predicate Compatible(env: Env, s: Primitive, b: Primitive)
  {
    s.kind == b.kind || env.convertGeneric(s, b).Some?
  }

  /** (s2, b2) is what pairing `s` with `b` leaves: both untouched when the kinds agree, their widening otherwise. */
  predicate PairOutcome(env: Env, s: Primitive, b: Primitive, s2: Primitive, b2: Primitive)
  {
    if s.kind == b.kind then s2 == s && b2 == b else env.convertGeneric(s, b) == Some((s2, b2))
  }

  /** The pair a compatible (s, b) becomes: itself for equal kinds, its widening otherwise. */
  function Widen(env: Env, s: Primitive, b: Primitive): (r: (Primitive, Primitive))
    requires Compatible(env, s, b)
    ensures PairOutcome(env, s, b, r.0, r.1)
    ensures forall s2, b2 :: PairOutcome(env, s, b, s2, b2) ==> r == (s2, b2)
    ensures ValidEnv(env) ==> r.0.kind == r.1.kind
    ensures ValidEnv(env) ==> (r.0.kind == s.kind ==> r.0 == s) && (r.1.kind == b.kind ==> r.1 == b)
  {
    if s.kind == b.kind then (s, b) else env.convertGeneric(s, b).value
  }

  // ---------------------------------------------------------------------------
  // First attempt: equal lengths (lines 162-186)

  /** The first attempt applies and succeeds: equal lengths, every pair compatible. */
  ghost predicate EqualLengthMatch(env: Env, p0: seq<Primitive>, p1: seq<Primitive>)
  {
    |p0| == |p1| && forall i :: 0 <= i < |p0| ==> Compatible(env, p0[i], p1[i])
  }

  /** The first index from i on whose pair is not compatible, or |p0| when there is none. */
  function FirstIncompatible(env: Env, p0: seq<Primitive>, p1: seq<Primitive>, i: nat): (n: nat)
    requires |p0| == |p1| && i <= |p0|
    ensures i <= n <= |p0|
    ensures forall j :: i <= j < n ==> Compatible(env, p0[j], p1[j])
    ensures n < |p0| ==> !Compatible(env, p0[n], p1[n])
    decreases |p0| - i
  {
    if i == |p0| || !Compatible(env, p0[i], p1[i]) then i else FirstIncompatible(env, p0, p1, i + 1)
  }

  /**
    The lists the pairwise walk leaves: every pair before the first
    incompatible one widened, every pair from there on as it was.
  */
  function WidenedLists(env: Env, p0: seq<Primitive>, p1: seq<Primitive>): (r: (seq<Primitive>, seq<Primitive>))
    requires |p0| == |p1|
    ensures |r.0| == |p0| && |r.1| == |p1|
  {
    var n := FirstIncompatible(env, p0, p1, 0);
    (seq(|p0|, j requires 0 <= j < |p0| => if j < n then Widen(env, p0[j], p1[j]).0 else p0[j]),
     seq(|p1|, j requires 0 <= j < |p1| => if j < n then Widen(env, p0[j], p1[j]).1 else p1[j]))
  }

  /** The result whose bits are the two flags given. */
  function Flags(changedFirst: bool, changedSecond: bool): (r: PrepareTransformResult)
    ensures r != Invalid && (r.ChangedFirst() <==> changedFirst) && (r.ChangedSecond() <==> changedSecond)
    ensures forall o :: o != Invalid && (o.ChangedFirst() <==> changedFirst) && (o.ChangedSecond() <==> changedSecond) ==> o == r
  {
    if changedFirst then (if changedSecond then ChangedT0andT1 else ChangedT0)
    else if changedSecond then ChangedT1 else Unchanged
  }

  /**
    Walks two equally long lists pairwise and widens every pair of differing
    kinds, stopping at the first pair that cannot be widened. The result
    records which side had a primitive change kind.
  */
  method MatchEqualLength(env: Env, p0: seq<Primitive>, p1: seq<Primitive>)
    returns (same: bool, result: PrepareTransformResult, q0: seq<Primitive>, q1: seq<Primitive>)
    requires ValidEnv(env)
    requires |p0| == |p1|
    ensures |q0| == |p0| && |q1| == |p1|
    ensures same <==> EqualLengthMatch(env, p0, p1)
    ensures same ==> result != Invalid && Matched(q0, q1)
    ensures same ==> forall i :: 0 <= i < |p0| ==> PairOutcome(env, p0[i], p1[i], q0[i], q1[i])
    ensures same ==> (result.ChangedFirst() <==> q0 != p0) && (result.ChangedSecond() <==> q1 != p1)
    ensures Matched(p0, p1) ==> same && result == Unchanged && q0 == p0 && q1 == p1
    ensures forall j :: 0 <= j < |p0| ==>
      (q0[j] == p0[j] && q1[j] == p1[j]) || PairOutcome(env, p0[j], p1[j], q0[j], q1[j])
    ensures (q0, q1) == WidenedLists(env, p0, p1)
    ensures same <==> FirstIncompatible(env, p0, p1, 0) == |p0|
    ensures same ==> result == Flags(q0 != p0, q1 != p1)
  {
    q0, q1 := p0, p1;
    result := Unchanged;
    same := true;
    var i := 0;
    while i < |p0|
      invariant WidenState(env, p0, p1, q0, q1, i, result)
    {
      var ok;
      ok, q0, q1, result := WidenAt(env, p0, p1, q0, q1, i, result);
      if !ok {
        same := false;
        break;
      }
      i := i + 1;
    }
    WidenFinish(env, p0, p1, q0, q1, i, result, same);
  }

  /** Where the pairwise walk ends: complete with every pair compatible, or stopped at an incompatible pair i. */
  lemma WidenFinish(env: Env, p0: seq<Primitive>, p1: seq<Primitive>, q0: seq<Primitive>, q1: seq<Primitive>,
                    i: nat, result: PrepareTransformResult, same: bool)
    requires ValidEnv(env)
    requires WidenState(env, p0, p1, q0, q1, i, result)
    requires same ==> i == |p0|
    requires !same ==> i < |p0| && !Compatible(env, p0[i], p1[i])
    ensures |q0| == |p0| && |q1| == |p1|
    ensures same <==> EqualLengthMatch(env, p0, p1)
    ensures same ==> result != Invalid && Matched(q0, q1)
    ensures same ==> forall i :: 0 <= i < |p0| ==> PairOutcome(env, p0[i], p1[i], q0[i], q1[i])
    ensures same ==> (result.ChangedFirst() <==> q0 != p0) && (result.ChangedSecond() <==> q1 != p1)
    ensures Matched(p0, p1) ==> same && result == Unchanged && q0 == p0 && q1 == p1
    ensures forall j :: 0 <= j < |p0| ==>
      (q0[j] == p0[j] && q1[j] == p1[j]) || PairOutcome(env, p0[j], p1[j], q0[j], q1[j])
    ensures (q0, q1) == WidenedLists(env, p0, p1)
    ensures same <==> FirstIncompatible(env, p0, p1, 0) == |p0|
    ensures same ==> result == Flags(q0 != p0, q1 != p1)
  {
    WidenStateUntouchedOrPaired(env, p0, p1, q0, q1, i, result);
    FirstIncompatibleAt(env, p0, p1, 0, i);
    WidenStateLists(env, p0, p1, q0, q1, i, result);
    if same {
      WidenDone(env, p0, p1, q0, q1, result);
    }
  }

  /** The first incompatible index is the i that has only compatible pairs below it and stops there. */
  lemma {:induction false} FirstIncompatibleAt(env: Env, p0: seq<Primitive>, p1: seq<Primitive>, k: nat, i: nat)
    requires |p0| == |p1| && k <= i <= |p0|
    requires forall j :: k <= j < i ==> Compatible(env, p0[j], p1[j])
    requires i < |p0| ==> !Compatible(env, p0[i], p1[i])
    ensures FirstIncompatible(env, p0, p1, k) == i
    decreases i - k
  {
    if k < i {
      FirstIncompatibleAt(env, p0, p1, k + 1, i);
    }
  }

  /** The lists of a walk stopped at the first incompatible pair i are the widened lists. */
  lemma WidenStateLists(env: Env, p0: seq<Primitive>, p1: seq<Primitive>, q0: seq<Primitive>, q1: seq<Primitive>,
                        i: nat, result: PrepareTransformResult)
    requires WidenState(env, p0, p1, q0, q1, i, result)
    requires FirstIncompatible(env, p0, p1, 0) == i
    ensures (q0, q1) == WidenedLists(env, p0, p1)
  {
    var w := WidenedLists(env, p0, p1);
    forall j | 0 <= j < |p0|
      ensures q0[j] == w.0[j] && q1[j] == w.1[j]
    {
      if j < i {
        assert PairOutcome(env, p0[j], p1[j], q0[j], q1[j]);
      }
    }
    assert q0 == w.0 && q1 == w.1;
  }

  /** Every pair is either untouched or as pairing leaves it. */
  lemma WidenStateUntouchedOrPaired(env: Env, p0: seq<Primitive>, p1: seq<Primitive>, q0: seq<Primitive>, q1: seq<Primitive>,
                                    i: nat, result: PrepareTransformResult)
    requires WidenState(env, p0, p1, q0, q1, i, result)
    ensures forall j :: 0 <= j < |p0| ==>
      (q0[j] == p0[j] && q1[j] == p1[j]) || PairOutcome(env, p0[j], p1[j], q0[j], q1[j])
  {
  }

  /** A walk that reached the end: every pair was compatible, the lists are matched and the flags name exactly the changed lists. */
  lemma WidenDone(env: Env, p0: seq<Primitive>, p1: seq<Primitive>, q0: seq<Primitive>, q1: seq<Primitive>,
                  result: PrepareTransformResult)
    requires ValidEnv(env)
    requires WidenState(env, p0, p1, q0, q1, |p0|, result)
    ensures EqualLengthMatch(env, p0, p1) && Matched(q0, q1)
    ensures (result.ChangedFirst() <==> q0 != p0) && (result.ChangedSecond() <==> q1 != p1)
  {
    PairwiseChangedIff(env, p0, p1, q0, q1);
  }

  /**
    The pairwise walk before index i: the pairs below i are compatible and
    left as pairing leaves them, the rest untouched, the flags record which
    side had a primitive change kind.
  */
  ghost predicate WidenState(env: Env, p0: seq<Primitive>, p1: seq<Primitive>, q0: seq<Primitive>, q1: seq<Primitive>,
                             i: nat, result: PrepareTransformResult)
  {
    |p0| == |p1| && i <= |p0| && |q0| == |p0| && |q1| == |p1| && result != Invalid &&
    (forall j :: 0 <= j < i ==> Compatible(env, p0[j], p1[j]) && PairOutcome(env, p0[j], p1[j], q0[j], q1[j])) &&
    (forall j :: i <= j < |p0| ==> q0[j] == p0[j] && q1[j] == p1[j]) &&
    (result.ChangedFirst() <==> exists j :: 0 <= j < i && q0[j].kind != p0[j].kind) &&
    (result.ChangedSecond() <==> exists j :: 0 <= j < i && q1[j].kind != p1[j].kind)
  }

  /**
    One round of the pairwise walk (lines 168-182): equal kinds pass, a
    pair of differing kinds is widened and flagged, and a pair that cannot
    be widened stops the walk with the lists as they are.
  */
  method WidenAt(env: Env, p0: seq<Primitive>, p1: seq<Primitive>, q0: seq<Primitive>, q1: seq<Primitive>,
                 i: nat, result: PrepareTransformResult)
    returns (ok: bool, q0': seq<Primitive>, q1': seq<Primitive>, result': PrepareTransformResult)
    requires WidenState(env, p0, p1, q0, q1, i, result) && i < |p0|
    ensures ok <==> Compatible(env, p0[i], p1[i])
    ensures ok ==> WidenState(env, p0, p1, q0', q1', i + 1, result')
    ensures !ok ==> q0' == q0 && q1' == q1 && result' == result
  {
    q0', q1', result' := q0, q1, result;
    var p0Type := q0[i].kind;
    var p1Type := q1[i].kind;
    if p0Type != p1Type {
      var c := env.convertGeneric(q0[i], q1[i]);
      if c.None? {
        return false, q0', q1', result';
      }
      q0' := q0[i := c.value.0];
      q1' := q1[i := c.value.1];
      if q0'[i].kind != p0Type {
        result' := result'.MarkFirst();
      }
      if q1'[i].kind != p1Type {
        result' := result'.MarkSecond();
      }
    }
    ok := true;
  }

  /** After pairwise widening, a list changed exactly when one of its primitives changed kind. */
  lemma PairwiseChangedIff(env: Env, p0: seq<Primitive>, p1: seq<Primitive>, q0: seq<Primitive>, q1: seq<Primitive>)
    requires ValidEnv(env)
    requires |p0| == |p1| == |q0| == |q1|
    requires forall i :: 0 <= i < |p0| ==> PairOutcome(env, p0[i], p1[i], q0[i], q1[i])
    ensures q0 != p0 <==> exists j :: 0 <= j < |p0| && q0[j].kind != p0[j].kind
    ensures q1 != p1 <==> exists j :: 0 <= j < |p1| && q1[j].kind != p1[j].kind
  {
    if q0 != p0 {
      var j :| 0 <= j < |p0| && q0[j] != p0[j];
      assert PairOutcome(env, p0[j], p1[j], q0[j], q1[j]);
    }
    if q1 != p1 {
      var j :| 0 <= j < |p1| && q1[j] != p1[j];
      assert PairOutcome(env, p0[j], p1[j], q0[j], q1[j]);
    }
  }

  // ---------------------------------------------------------------------------
  // Second attempt: ordered subsequence match (lines 188-272)

  /** The first index j >= from of `big` that `s` is compatible with. */
  function NextCompatible(env: Env, s: Primitive, big: seq<Primitive>, from: nat): (r: Option<nat>)
    decreases |big| - from
    ensures r.Some? ==> from <= r.value < |big| && Compatible(env, s, big[r.value])
    ensures forall j :: from <= j < |big| && (r.None? || j < r.value) ==> !Compatible(env, s, big[j])
  {
    if from >= |big| then None
    else if Compatible(env, s, big[from]) then Some(from)
    else NextCompatible(env, s, big, from + 1)
  }

  /**
    The greedy embedding of small[k..] into big[from..]: each primitive of
    `small`, in order, takes the next compatible index of `big`.
  */
  function GreedyMatch(env: Env, small: seq<Primitive>, big: seq<Primitive>, k: nat, from: nat): (r: Option<seq<nat>>)
    requires k <= |small|
    ensures r.Some? ==> |r.value| == |small| - k
    decreases |small| - k
  {
    if k == |small| then Some([])
    else match NextCompatible(env, small[k], big, from)
      case None => None
      case Some(j) =>
        match GreedyMatch(env, small, big, k + 1, j + 1)
        case None => None
        case Some(rest) => Some([j] + rest)
  }

  function Prepend(m: seq<nat>, o: Option<seq<nat>>): Option<seq<nat>>
  {
    match o
    case None => None
    case Some(rest) => Some(m + rest)
  }

  /**
    The indices the scan of small[k..] over big[from..] picks before it
    stops: each primitive of `small`, in order, takes the next compatible
    index of `big`, and the first one with none left ends the scan.
  */
  function GreedyScan(env: Env, small: seq<Primitive>, big: seq<Primitive>, k: nat, from: nat): (m: seq<nat>)
    requires k <= |small|
    ensures |m| <= |small| - k
    ensures forall a :: 0 <= a < |m| ==> from <= m[a] < |big| && Compatible(env, small[k + a], big[m[a]])
    ensures forall a, b :: 0 <= a < b < |m| ==> m[a] < m[b]
    decreases |small| - k
  {
    if k == |small| then []
    else match NextCompatible(env, small[k], big, from)
      case None => []
      case Some(j) =>
        var rest := GreedyScan(env, small, big, k + 1, j + 1);
        assert forall a :: 0 < a <= |rest| ==> ([j] + rest)[a] == rest[a - 1];
        [j] + rest
  }

  /** The greedy match succeeds exactly when the scan picks an index for every primitive, and is then what the scan picks. */
  lemma {:induction false} GreedyScanMatch(env: Env, small: seq<Primitive>, big: seq<Primitive>, k: nat, from: nat)
    requires k <= |small|
    ensures var m := GreedyScan(env, small, big, k, from);
      GreedyMatch(env, small, big, k, from) == if |m| == |small| - k then Some(m) else None
    decreases |small| - k
  {
    if k < |small| {
      match NextCompatible(env, small[k], big, from)
      case None =>
      case Some(j) => GreedyScanMatch(env, small, big, k + 1, j + 1);
    }
  }

  /** `m` places every primitive of `small`, in order, at a compatible index of `big`. */
  ghost predicate IsEmbedding(env: Env, small: seq<Primitive>, big: seq<Primitive>, m: seq<nat>)
  {
    |m| == |small| &&
    (forall k :: 0 <= k < |m| ==> m[k] < |big| && Compatible(env, small[k], big[m[k]])) &&
    (forall k, l :: 0 <= k < l < |m| ==> m[k] < m[l])
  }

  /** A greedy match from (k, from) is an embedding of small[k..] at indices from `from` on. */
  lemma {:induction false} GreedyMatchSound(env: Env, small: seq<Primitive>, big: seq<Primitive>, k: nat, from: nat)
    requires k <= |small|
    requires GreedyMatch(env, small, big, k, from).Some?
    ensures var m := GreedyMatch(env, small, big, k, from).value;
      |m| == |small| - k &&
      (forall t :: 0 <= t < |m| ==> from <= m[t] < |big| && Compatible(env, small[k + t], big[m[t]])) &&
      (forall t, u :: 0 <= t < u < |m| ==> m[t] < m[u])
    decreases |small| - k
  {
    if k < |small| {
      var j := NextCompatible(env, small[k], big, from).value;
      GreedyMatchSound(env, small, big, k + 1, j + 1);
      var rest := GreedyMatch(env, small, big, k + 1, j + 1).value;
      var m := GreedyMatch(env, small, big, k, from).value;
      assert m == [j] + rest;
      forall t | 0 <= t < |m|
        ensures from <= m[t] < |big| && Compatible(env, small[k + t], big[m[t]])
      {
        if t > 0 {
          assert m[t] == rest[t - 1];
        }
      }
    }
  }

  /**
    Greedy matching misses no embedding: if small[k..] embeds at indices
    from `from` on, the greedy match from (k, from) succeeds.
  */
  lemma {:induction false} GreedyMatchComplete(env: Env, small: seq<Primitive>, big: seq<Primitive>, m: seq<nat>, k: nat, from: nat)
    requires IsEmbedding(env, small, big, m)
    requires k <= |small|
    requires k < |small| ==> from <= m[k]
    ensures GreedyMatch(env, small, big, k, from).Some?
    decreases |small| - k
  {
    if k < |small| {
      var next := NextCompatible(env, small[k], big, from);
      assert next.Some? && next.value <= m[k];
      GreedyMatchComplete(env, small, big, m, k + 1, next.value + 1);
    }
  }

  /** The subsequence match succeeds exactly when `small` embeds in order into `big`, and what it finds is an embedding. */
  lemma SubsequenceMatchIffEmbedding(env: Env, small: seq<Primitive>, big: seq<Primitive>)
    ensures GreedyMatch(env, small, big, 0, 0).Some? <==> exists m :: IsEmbedding(env, small, big, m)
    ensures GreedyMatch(env, small, big, 0, 0).Some? ==> IsEmbedding(env, small, big, GreedyMatch(env, small, big, 0, 0).value)
  {
    if GreedyMatch(env, small, big, 0, 0).Some? {
      GreedyMatchSound(env, small, big, 0, 0);
      var m := GreedyMatch(env, small, big, 0, 0).value;
      assert IsEmbedding(env, small, big, m);
    }
    if m :| IsEmbedding(env, small, big, m) {
      GreedyMatchComplete(env, small, big, m, 0, 0);
    }
  }

  /** NextCompatible only looks at big[from..]. */
  lemma {:induction false} NextCompatibleSuffix(env: Env, s: Primitive, big: seq<Primitive>, big2: seq<Primitive>, from: nat)
    requires |big2| == |big| && from <= |big|
    requires forall j :: from <= j < |big| ==> big2[j] == big[j]
    ensures NextCompatible(env, s, big2, from) == NextCompatible(env, s, big, from)
    decreases |big| - from
  {
    if from < |big| {
      NextCompatibleSuffix(env, s, big, big2, from + 1);
    }
  }

  /**
    The inner scan of lines 216-240: from index `from` on, the first
    primitive of `big` that `s` matches exactly or after widening, with the
    pair as the match leaves it.
  */
  method ScanForMatch(env: Env, s: Primitive, big: seq<Primitive>, from: nat)
    returns (found: bool, j: nat, s2: Primitive, b2: Primitive)
    ensures found <==> NextCompatible(env, s, big, from).Some?
    ensures found ==> NextCompatible(env, s, big, from) == Some(j) && PairOutcome(env, s, big[j], s2, b2)
    ensures found ==> (s2, b2) == Widen(env, s, big[j])
  {
    j, s2, b2 := from, s, s;
    while j < |big|
      invariant from <= j
      invariant NextCompatible(env, s, big, from) == NextCompatible(env, s, big, j)
      decreases |big| - j
    {
      if s.kind == big[j].kind {
        // exact match
        return true, j, s, big[j];
      }
      var c := env.convertGeneric(s, big[j]);
      if c.Some? {
        // matched in the more generic form; one or both primitives converted
        return true, j, c.value.0, c.value.1;
      }
      j := j + 1;
    }
    found := false;
  }

  /**
    The two lists the scan leaves: every picked pair widened where the kinds
    differ, everything else as it was.
  */
  function ScanLists(env: Env, small: seq<Primitive>, big: seq<Primitive>): (r: (seq<Primitive>, seq<Primitive>))
    ensures |r.0| == |small| && |r.1| == |big|
  {
    var m := GreedyScan(env, small, big, 0, 0);
    (seq(|small|, k requires 0 <= k < |small| => if k < |m| then Widen(env, small[k], big[m[k]]).0 else small[k]),
     seq(|big|, j requires 0 <= j < |big| =>
       var k := Pos(m, j); if k < |m| then Widen(env, small[k], big[j]).1 else big[j]))
  }

  /**
    What the subsequence scan has established after matching
    small[..|matching|]: each matched pair is widened where needed, nothing
    else of `big` has changed, and `changedBig` records whether a primitive
    of `big` changed kind.
  */
  ghost predicate ScanOutcome(env: Env, small: seq<Primitive>, big: seq<Primitive>, matching: seq<nat>,
                              small2: seq<Primitive>, big2: seq<Primitive>, changedBig: bool)
  {
    |matching| <= |small| && |small2| == |small| && |big2| == |big| &&
    (forall k :: 0 <= k < |matching| ==>
       matching[k] < |big| && PairOutcome(env, small[k], big[matching[k]], small2[k], big2[matching[k]])) &&
    (forall j :: 0 <= j < |big| && j !in matching ==> big2[j] == big[j]) &&
    (changedBig <==> exists k :: 0 <= k < |matching| && big2[matching[k]].kind != big[matching[k]].kind)
  }

  /** The scan has matched small[..|matching|] below `from`, and touched nothing from there on. */
  ghost predicate ScanFrontier(small: seq<Primitive>, big: seq<Primitive>, matching: seq<nat>,
                               small2: seq<Primitive>, big2: seq<Primitive>, from: nat)
    requires |small2| == |small| && |big2| == |big|
  {
    from <= |big| &&
    (forall k :: 0 <= k < |matching| ==> matching[k] < from) &&
    (forall k :: |matching| <= k < |small| ==> small2[k] == small[k]) &&
    (forall j :: from <= j < |big| ==> big2[j] == big[j])
  }

  /**
    One round of the outer loop of lines 211-244: the next primitive of
    `small` is matched at the first compatible index of `big` from `from` on,
    and the pair is widened in place when the kinds differ.
  */
  method MatchNext(env: Env, small: seq<Primitive>, big: seq<Primitive>, matching: seq<nat>,
                   small2: seq<Primitive>, big2: seq<Primitive>, from: nat, changedBig: bool)
    returns (found: bool, j: nat, small3: seq<Primitive>, big3: seq<Primitive>, changedBig3: bool)
    requires ScanOutcome(env, small, big, matching, small2, big2, changedBig)
    requires ScanFrontier(small, big, matching, small2, big2, from)
    requires |matching| < |small|
    ensures found <==> NextCompatible(env, small[|matching|], big, from).Some?
    ensures found ==>
      NextCompatible(env, small[|matching|], big, from) == Some(j) &&
      ScanOutcome(env, small, big, matching + [j], small3, big3, changedBig3) &&
      ScanFrontier(small, big, matching + [j], small3, big3, j + 1)
  {
    var iSmall := |matching|;
    NextCompatibleSuffix(env, small[iSmall], big, big2, from);
    small3, big3, changedBig3 := small2, big2, changedBig;
    var s2, b2;
    found, j, s2, b2 := ScanForMatch(env, small2[iSmall], big2, from);
    if !found {
      return;
    }
    var bigType := big2[j].kind;
    small3 := small2[iSmall := s2];
    big3 := big2[j := b2];
    changedBig3 := changedBig || big3[j].kind != bigType;
    ghost var m := matching + [j];
    assert forall k :: 0 <= k < |matching| ==> m[k] == matching[k] && m[k] != j;
    assert m[iSmall] == j;
  }

  /** Where the search for the match of small[k] starts: just after the previous match. */
  function After(matching: seq<nat>, k: nat): nat
    requires k <= |matching|
  {
    if k == 0 then 0 else matching[k - 1] + 1
  }

  /** `matching` is what the greedy match picks for small[..|matching|]. */
  ghost predicate GreedyPrefix(env: Env, small: seq<Primitive>, big: seq<Primitive>, matching: seq<nat>)
  {
    |matching| <= |small| &&
    forall k {:trigger NextCompatible(env, small[k], big, After(matching, k))} :: 0 <= k < |matching| ==>
      NextCompatible(env, small[k], big, After(matching, k)) == Some(matching[k])
  }

  lemma GreedyPrefixExtend(env: Env, small: seq<Primitive>, big: seq<Primitive>, matching: seq<nat>, j: nat)
    requires GreedyPrefix(env, small, big, matching) && |matching| < |small|
    requires NextCompatible(env, small[|matching|], big, After(matching, |matching|)) == Some(j)
    ensures GreedyPrefix(env, small, big, matching + [j])
  {
    var m := matching + [j];
    forall k | 0 <= k < |m|
      ensures NextCompatible(env, small[k], big, After(m, k)) == Some(m[k])
    {
      assert After(m, k) == After(matching, k);
    }
  }

  /** One step of the greedy match: small[k] takes index j, and the rest is matched after j. */
  lemma GreedyMatchCons(env: Env, small: seq<Primitive>, big: seq<Primitive>, k: nat, from: nat, j: nat)
    requires k < |small|
    requires NextCompatible(env, small[k], big, from) == Some(j)
    ensures GreedyMatch(env, small, big, k, from) == Prepend([j], GreedyMatch(env, small, big, k + 1, j + 1))
  {
  }

  lemma PrependAssociative(a: seq<nat>, b: seq<nat>, o: Option<seq<nat>>)
    ensures Prepend(a, Prepend(b, o)) == Prepend(a + b, o)
  {
    if o.Some? {
      assert a + (b + o.value) == (a + b) + o.value;
    }
  }

  /** The first n picks of a greedy prefix agree with the greedy match: the rest is whatever the match finds after them. */
  lemma {:induction false} GreedyPrefixMatch(env: Env, small: seq<Primitive>, big: seq<Primitive>, matching: seq<nat>, n: nat)
    requires GreedyPrefix(env, small, big, matching) && n <= |matching|
    ensures GreedyMatch(env, small, big, 0, 0)
         == Prepend(matching[..n], GreedyMatch(env, small, big, n, After(matching, n)))
    decreases n
  {
    if n == 0 {
      var all := GreedyMatch(env, small, big, 0, 0);
      if all.Some? {
        assert matching[..0] + all.value == all.value;
      }
    } else {
      GreedyPrefixMatch(env, small, big, matching, n - 1);
      GreedyPrefixMatchStep(env, small, big, matching, n - 1);
    }
  }

  /** One pick of a greedy prefix moves from the match after k picks to the match after k + 1. */
  lemma GreedyPrefixMatchStep(env: Env, small: seq<Primitive>, big: seq<Primitive>, matching: seq<nat>, k: nat)
    requires GreedyPrefix(env, small, big, matching) && k < |matching|
    ensures Prepend(matching[..k], GreedyMatch(env, small, big, k, After(matching, k)))
         == Prepend(matching[..k + 1], GreedyMatch(env, small, big, k + 1, After(matching, k + 1)))
  {
    assert NextCompatible(env, small[k], big, After(matching, k)) == Some(matching[k]);
    GreedyMatchCons(env, small, big, k, After(matching, k), matching[k]);
    PrependAssociative(matching[..k], [matching[k]], GreedyMatch(env, small, big, k + 1, After(matching, k + 1)));
    assert matching[..k] + [matching[k]] == matching[..k + 1];
  }

  /** The picks of a greedy prefix are the first picks of the scan, and the scan goes on after them. */
  lemma {:induction false} GreedyScanOfPrefix(env: Env, small: seq<Primitive>, big: seq<Primitive>, matching: seq<nat>, n: nat)
    requires GreedyPrefix(env, small, big, matching) && n <= |matching|
    ensures GreedyScan(env, small, big, 0, 0) == matching[..n] + GreedyScan(env, small, big, n, After(matching, n))
    decreases n
  {
    if n == 0 {
      assert After(matching, 0) == 0;
      assert matching[..0] + GreedyScan(env, small, big, 0, 0) == GreedyScan(env, small, big, 0, 0);
    } else {
      var k := n - 1;
      GreedyScanOfPrefix(env, small, big, matching, k);
      GreedyScanOfPrefixStep(env, small, big, matching, k);
      assert k + 1 == n;
    }
  }

  /** One pick of a greedy prefix moves from the scan after k picks to the scan after k + 1. */
  lemma GreedyScanOfPrefixStep(env: Env, small: seq<Primitive>, big: seq<Primitive>, matching: seq<nat>, k: nat)
    requires GreedyPrefix(env, small, big, matching) && k < |matching|
    ensures matching[..k] + GreedyScan(env, small, big, k, After(matching, k))
         == matching[..k + 1] + GreedyScan(env, small, big, k + 1, After(matching, k + 1))
  {
    assert NextCompatible(env, small[k], big, After(matching, k)) == Some(matching[k]);
    var rest := GreedyScan(env, small, big, k + 1, After(matching, k + 1));
    assert GreedyScan(env, small, big, k, After(matching, k)) == [matching[k]] + rest;
    assert matching[..k] + ([matching[k]] + rest) == (matching[..k] + [matching[k]]) + rest;
    assert matching[..k] + [matching[k]] == matching[..k + 1];
  }

  /** The scan's pairs widened in place, with the rest of `small` untouched, are the lists the scan leaves. */
  lemma ScanOutcomeLists(env: Env, small: seq<Primitive>, big: seq<Primitive>, matching: seq<nat>,
                         small2: seq<Primitive>, big2: seq<Primitive>, changedBig: bool)
    requires ScanOutcome(env, small, big, matching, small2, big2, changedBig)
    requires matching == GreedyScan(env, small, big, 0, 0)
    requires forall k :: |matching| <= k < |small| ==> small2[k] == small[k]
    ensures (small2, big2) == ScanLists(env, small, big)
  {
    var l := ScanLists(env, small, big);
    forall k | 0 <= k < |small|
      ensures small2[k] == l.0[k]
    {
      if k < |matching| {
        assert PairOutcome(env, small[k], big[matching[k]], small2[k], big2[matching[k]]);
      }
    }
    forall j | 0 <= j < |big|
      ensures big2[j] == l.1[j]
    {
      var k := Pos(matching, j);
      if k < |matching| {
        assert PairOutcome(env, small[k], big[matching[k]], small2[k], big2[matching[k]]);
      }
    }
    assert small2 == l.0 && big2 == l.1;
  }

  /** Where the scan ends: every primitive of `small` matched, or stopped at one with no compatible index left. */
  lemma ScanFinish(env: Env, small: seq<Primitive>, big: seq<Primitive>, matching: seq<nat>,
                   small2: seq<Primitive>, big2: seq<Primitive>, iBig: nat, changedBig: bool, success: bool)
    requires ScanOutcome(env, small, big, matching, small2, big2, changedBig)
    requires ScanFrontier(small, big, matching, small2, big2, iBig)
    requires GreedyPrefix(env, small, big, matching) && iBig == After(matching, |matching|)
    requires success ==> |matching| == |small|
    requires !success ==> |matching| < |small| && NextCompatible(env, small[|matching|], big, iBig).None?
    ensures success <==> GreedyMatch(env, small, big, 0, 0).Some?
    ensures success ==> GreedyMatch(env, small, big, 0, 0) == Some(matching)
    ensures success <==> |matching| == |small|
    ensures matching == GreedyScan(env, small, big, 0, 0)
    ensures (small2, big2) == ScanLists(env, small, big)
  {
    GreedyPrefixMatch(env, small, big, matching, |matching|);
    GreedyScanOfPrefix(env, small, big, matching, |matching|);
    assert matching[..|matching|] == matching;
    GreedyMatchEnd(env, small, big, matching, iBig);
    assert GreedyScan(env, small, big, |matching|, iBig) == [];
    assert matching + [] == matching;
    ScanOutcomeLists(env, small, big, matching, small2, big2, changedBig);
  }

  /** The greedy match fails when the next primitive has no compatible index left, and is complete once all are matched. */
  lemma GreedyMatchEnd(env: Env, small: seq<Primitive>, big: seq<Primitive>, matching: seq<nat>, from: nat)
    requires |matching| <= |small|
    ensures |matching| < |small| && NextCompatible(env, small[|matching|], big, from).None? ==>
      Prepend(matching, GreedyMatch(env, small, big, |matching|, from)).None?
    ensures |matching| == |small| ==> Prepend(matching, GreedyMatch(env, small, big, |matching|, from)) == Some(matching)
  {
    assert matching + [] == matching;
  }

  /**
    Scans `big` once, left to right, matching each primitive of `small` in
    turn with the next compatible one and widening pairs of differing kinds
    as it goes (lines 198-244).
  */
  method MatchSubsequence(env: Env, small: seq<Primitive>, big: seq<Primitive>)
    returns (success: bool, matching: seq<nat>, changedBig: bool, small2: seq<Primitive>, big2: seq<Primitive>)
    ensures |small2| == |small| && |big2| == |big|
    ensures success <==> GreedyMatch(env, small, big, 0, 0).Some?
    ensures success ==> GreedyMatch(env, small, big, 0, 0) == Some(matching)
    ensures success <==> |matching| == |small|
    ensures ScanOutcome(env, small, big, matching, small2, big2, changedBig)
    ensures matching == GreedyScan(env, small, big, 0, 0)
    ensures (small2, big2) == ScanLists(env, small, big)
  {
    small2, big2 := small, big;
    matching := [];
    var iBig := 0;
    var matchSuccess := true;
    changedBig := false;
    while |matching| < |small|
      invariant ScanOutcome(env, small, big, matching, small2, big2, changedBig)
      invariant ScanFrontier(small, big, matching, small2, big2, iBig)
      invariant GreedyPrefix(env, small, big, matching) && iBig == After(matching, |matching|)
      decreases |small| - |matching|
    {
      var found, j, small3, big3, changedBig3 := MatchNext(env, small, big, matching, small2, big2, iBig, changedBig);
      if !found {
        matchSuccess := false;
        break;
      }
      GreedyPrefixExtend(env, small, big, matching, j);
      matching, small2, big2, iBig, changedBig := matching + [j], small3, big3, j + 1, changedBig3;
    }
    success := matchSuccess;
    ScanFinish(env, small, big, matching, small2, big2, iBig, changedBig, success);
  }

  /**
    After a complete scan, `big` changed exactly when one of its primitives
    changed kind: widening leaves a primitive whose kind it keeps untouched.
  */
  lemma ChangedIffKindChanged(env: Env, small: seq<Primitive>, big: seq<Primitive>, matching: seq<nat>,
                              small2: seq<Primitive>, big2: seq<Primitive>, changedBig: bool)
    requires ValidEnv(env)
    requires ScanOutcome(env, small, big, matching, small2, big2, changedBig)
    ensures changedBig <==> big2 != big
  {
    if big2 != big {
      var j :| 0 <= j < |big| && big2[j] != big[j];
      var k :| 0 <= k < |matching| && matching[k] == j;
      assert PairOutcome(env, small[k], big[j], small2[k], big2[j]);
    }
  }

  /** The inner loop of lines 255-260: identity copies of big[lo..hi] inserted into `r` at index lo. */
  method InsertIdentityRun(env: Env, r: seq<Primitive>, big: seq<Primitive>, lo: nat, hi: nat) returns (r2: seq<Primitive>)
    requires lo <= hi <= |big| && lo <= |r|
    ensures |r2| == |r| + (hi - lo)
    ensures r2[..lo] == r[..lo]
    ensures forall j :: lo <= j < hi ==> r2[j] == SetIdentity(env, big[j])
    ensures r2[hi..] == r[lo..]
  {
    r2 := r;
    for i := lo to hi
      invariant |r2| == |r| + (i - lo)
      invariant r2[..lo] == r[..lo]
      invariant forall j :: lo <= j < i ==> r2[j] == SetIdentity(env, big[j])
      invariant r2[i..] == r[lo..]
    {
      var p := SetIdentity(env, big[i]);
      r2 := r2[..i] + [p] + r2[i..];
    }
  }

  /** The n-th stop of the padding walk: the n-th matched index, and |big| after the last one. */
  function Stop(matching: seq<nat>, big: seq<Primitive>, n: nat): nat
  {
    if n < |matching| then matching[n] else |big|
  }

  /**
    The padding walk before stop n: `r` holds small[..n] at the matched
    indices below i0 (the index after the previous stop), identity copies at
    the other indices below i0, and small[n..] from i0 on.
  */
  ghost predicate PadState(env: Env, small: seq<Primitive>, big: seq<Primitive>, matching: seq<nat>,
                           n: nat, i0: nat, r: seq<Primitive>)
    requires |matching| == |small|
  {
    i0 == (if n == 0 then 0 else Stop(matching, big, n - 1) + 1) &&
    |r| == i0 + |small| - n &&
    (if n <= |small| then i0 <= |r| && r[i0..] == small[n..] else |r| == |big|) &&
    (forall k :: 0 <= k < n && k < |small| ==> matching[k] < i0 && matching[k] < |r| && r[matching[k]] == small[k]) &&
    (forall j :: 0 <= j < i0 && j < |big| && j !in matching ==> r[j] == SetIdentity(env, big[j]))
  }

  /** Inserting the identities up to stop n, and stepping over it, moves the walk to stop n + 1. */
  lemma PadStep(env: Env, small: seq<Primitive>, big: seq<Primitive>, matching: seq<nat>,
                n: nat, i0: nat, before: seq<Primitive>, r: seq<Primitive>)
    requires |matching| == |small| && n <= |small|
    requires forall k :: 0 <= k < |matching| ==> matching[k] < |big|
    requires forall k, l :: 0 <= k < l < |matching| ==> matching[k] < matching[l]
    requires PadState(env, small, big, matching, n, i0, before)
    requires i0 <= Stop(matching, big, n) <= |big|
    requires |r| == |before| + (Stop(matching, big, n) - i0)
    requires r[..i0] == before[..i0]
    requires forall j :: i0 <= j < Stop(matching, big, n) ==> r[j] == SetIdentity(env, big[j])
    requires r[Stop(matching, big, n)..] == before[i0..]
    ensures PadState(env, small, big, matching, n + 1, Stop(matching, big, n) + 1, r)
  {
    var stop := Stop(matching, big, n);
    forall k | 0 <= k < n && k < |small|
      ensures r[matching[k]] == small[k]
    {
      assert r[matching[k]] == r[..i0][matching[k]];
    }
    forall j | 0 <= j < i0 && j < |big| && j !in matching
      ensures r[j] == SetIdentity(env, big[j])
    {
      assert r[j] == r[..i0][j];
    }
    if n < |small| {
      assert r[stop] == small[n] by {
        assert r[stop..][0] == small[n..][0];
      }
      assert r[stop + 1..] == small[n + 1..] by {
        assert r[stop + 1..] == r[stop..][1..];
      }
      forall k | 0 <= k < n
        ensures matching[k] < stop
      {
        assert matching[k] < matching[n];
      }
    }
  }

  /** The next stop lies ahead of the walk. */
  lemma PadAhead(env: Env, small: seq<Primitive>, big: seq<Primitive>, matching: seq<nat>,
                 n: nat, i0: nat, r: seq<Primitive>)
    requires |matching| == |small| && n <= |small|
    requires forall k :: 0 <= k < |matching| ==> matching[k] < |big|
    requires forall k, l :: 0 <= k < l < |matching| ==> matching[k] < matching[l]
    requires PadState(env, small, big, matching, n, i0, r)
    ensures i0 <= Stop(matching, big, n) <= |big| && i0 <= |r|
  {
    if 0 < n < |small| {
      assert matching[n - 1] < matching[n];
    }
  }

  /** The position of the first occurrence of j in m, or |m| when j does not occur. */
  function Pos(m: seq<nat>, j: nat): (k: nat)
    ensures k <= |m|
    ensures k < |m| <==> j in m
    ensures k < |m| ==> m[k] == j
  {
    if |m| == 0 then 0
    else if m[0] == j then 0
    else
      assert m == [m[0]] + m[1..];
      1 + Pos(m[1..], j)
  }

  /**
    `small` laid out over the indices of `big`: the k-th primitive of
    `small` at the index matching[k], an identity copy of big's primitive
    at every other index.
  */
  function Padded(env: Env, small: seq<Primitive>, big: seq<Primitive>, matching: seq<nat>): (r: seq<Primitive>)
    ensures |r| == |big|
    ensures forall j :: 0 <= j < |big| && j !in matching ==> r[j] == SetIdentity(env, big[j])
  {
    seq(|big|, j requires 0 <= j < |big| =>
      var k := Pos(matching, j);
      if k < |matching| && k < |small| then small[k] else SetIdentity(env, big[j]))
  }

  /** With strictly increasing indices, the padded list is the only one with small's primitives at the matched indices and identities elsewhere. */
  lemma PaddedUnique(env: Env, small: seq<Primitive>, big: seq<Primitive>, matching: seq<nat>, r: seq<Primitive>)
    requires |matching| == |small|
    requires forall k, l :: 0 <= k < l < |matching| ==> matching[k] < matching[l]
    requires |r| == |big|
    requires forall k :: 0 <= k < |matching| ==> matching[k] < |big| && r[matching[k]] == small[k]
    requires forall j :: 0 <= j < |big| && j !in matching ==> r[j] == SetIdentity(env, big[j])
    ensures r == Padded(env, small, big, matching)
  {
    var p := Padded(env, small, big, matching);
    forall j | 0 <= j < |big|
      ensures r[j] == p[j]
    {
      if j in matching {
        var k := Pos(matching, j);
        assert matching[k] == j;
      }
    }
  }

  /**
    Pads `small` to the length of `big` (lines 247-264): for the matched
    indices taken in order, plus |big| as a last stop, an identity copy of
    every skipped primitive of `big` is inserted into `small` at its index.
  */
  method InsertIdentities(env: Env, small: seq<Primitive>, big: seq<Primitive>, matching: seq<nat>) returns (r: seq<Primitive>)
    requires |matching| == |small|
    requires forall k :: 0 <= k < |matching| ==> matching[k] < |big|
    requires forall k, l :: 0 <= k < l < |matching| ==> matching[k] < matching[l]
    ensures |r| == |big|
    ensures forall k :: 0 <= k < |matching| ==> r[matching[k]] == small[k]
    ensures forall j :: 0 <= j < |big| && j !in matching ==> r[j] == SetIdentity(env, big[j])
    ensures r == Padded(env, small, big, matching)
  {
    r := small;
    var i0 := 0;
    assert r[0..] == small;
    for n := 0 to |small| + 1
      invariant PadState(env, small, big, matching, n, i0, r)
    {
      PadAhead(env, small, big, matching, n, i0, r);
      var matchIndex := Stop(matching, big, n);
      ghost var before := r;
      r := InsertIdentityRun(env, r, big, i0, matchIndex);
      PadStep(env, small, big, matching, n, i0, before, r);
      i0 := matchIndex + 1;
    }
    PadDone(env, small, big, matching, i0, r);
    PaddedUnique(env, small, big, matching, r);
  }

  /** After the last stop the walk has covered every index of `big`. */
  lemma PadDone(env: Env, small: seq<Primitive>, big: seq<Primitive>, matching: seq<nat>, i0: nat, r: seq<Primitive>)
    requires |matching| == |small|
    requires PadState(env, small, big, matching, |small| + 1, i0, r)
    ensures |r| == |big|
    ensures forall k :: 0 <= k < |matching| ==> r[matching[k]] == small[k]
    ensures forall j :: 0 <= j < |big| && j !in matching ==> r[j] == SetIdentity(env, big[j])
  {
  }

  // ---------------------------------------------------------------------------
  // Third attempt: matrix decomposition (lines 125-145, 276-303)

  /**
    CombineAndDecompose: the list is replaced by one decomposed-matrix
    primitive, or left alone when the product cannot be decomposed.
  */
  function CombineAndDecompose(env: Env, prims: seq<Primitive>): (r: Option<seq<Primitive>>)
    ensures r.None? <==> env.decompose(prims).None?
    ensures r.Some? ==> |r.value| == 1 && r.value[0].kind == env.decomposedKind
  {
    match env.decompose(prims)
    case None => None
    case Some(d) => Some([Primitive(env.decomposedKind, d)])
  }

  /**
    The fallback, decomposing t0 and then t1. It is Invalid exactly when one
    of the two decompositions fails; a failure of t1 comes after t0 was
    already replaced, and t0 stays replaced.
  */
  function MatrixFallback(env: Env, t0: seq<Primitive>, t1: seq<Primitive>)
    : (r: (PrepareTransformResult, seq<Primitive>, seq<Primitive>))
    ensures r.0 == Invalid || r.0 == ChangedT0andT1
    ensures r.0 == Invalid <==> env.decompose(t0).None? || env.decompose(t1).None?
    ensures r.0 == ChangedT0andT1 ==> Matched(r.1, r.2) && |r.1| == 1 && r.1[0].kind == env.decomposedKind
    ensures env.decompose(t0).None? ==> r.1 == t0 && r.2 == t1
    ensures env.decompose(t0).Some? ==> r.1 == [Primitive(env.decomposedKind, env.decompose(t0).value)]
    ensures env.decompose(t1).None? ==> r.2 == t1
  {
    match CombineAndDecompose(env, t0)
    case None => (Invalid, t0, t1)
    case Some(d0) =>
      match CombineAndDecompose(env, t1)
      case None => (Invalid, d0, t1)
      case Some(d1) => (ChangedT0andT1, d0, d1)
  }

  /**
    The decomposition of both lists, checked before either is replaced, so
    that an Invalid outcome leaves both as they were.
  */
  function MatrixFallbackAtomic(env: Env, t0: seq<Primitive>, t1: seq<Primitive>)
    : (r: (PrepareTransformResult, seq<Primitive>, seq<Primitive>))
    ensures r.0 == Invalid <==> env.decompose(t0).None? || env.decompose(t1).None?
    ensures r.0 == Invalid ==> r.1 == t0 && r.2 == t1
    ensures r.0 != Invalid ==> r == MatrixFallback(env, t0, t1)
  {
    match (CombineAndDecompose(env, t0), CombineAndDecompose(env, t1))
    case (Some(d0), Some(d1)) => (ChangedT0andT1, d0, d1)
    case _ => (Invalid, t0, t1)
  }


  /** Neither structural attempt succeeds: lengths equal with an incompatible pair, or no ordered embedding of the shorter list. */
  ghost predicate NeedsFallback(env: Env, p0: seq<Primitive>, p1: seq<Primitive>)
  {
    if |p0| == |p1| then !EqualLengthMatch(env, p0, p1)
    else if |p0| < |p1| then GreedyMatch(env, p0, p1, 0, 0).None?
    else GreedyMatch(env, p1, p0, 0, 0).None?
  }

  /**
    The shorter list `small2` is `small` padded to the length of `big`: its
    primitives sit at the matched indices `m` (widened with their partner
    where the kinds differed), every other index holds an identity copy of
    the primitive of `big` there, and `big` is only changed by widening at
    the matched indices.
  */
  ghost predicate SubsequenceOutcome(env: Env, small: seq<Primitive>, big: seq<Primitive>, m: seq<nat>,
                                     small2: seq<Primitive>, big2: seq<Primitive>)
  {
    |m| == |small| && |small2| == |big| && |big2| == |big| &&
    (forall k :: 0 <= k < |m| ==> m[k] < |big| && PairOutcome(env, small[k], big[m[k]], small2[m[k]], big2[m[k]])) &&
    (forall j :: 0 <= j < |big| && j !in m ==> big2[j] == big[j] && small2[j] == SetIdentity(env, big[j]))
  }

  lemma SubsequenceOutcomeMatched(env: Env, small: seq<Primitive>, big: seq<Primitive>, m: seq<nat>,
                                  small2: seq<Primitive>, big2: seq<Primitive>)
    requires ValidEnv(env)
    requires SubsequenceOutcome(env, small, big, m, small2, big2)
    ensures Matched(small2, big2)
  {
    forall j | 0 <= j < |big|
      ensures small2[j].kind == big2[j].kind
    {
      if k :| 0 <= k < |m| && m[k] == j {
        assert PairOutcome(env, small[k], big[j], small2[j], big2[j]);
      }
    }
  }

  /** A complete scan padded with identities is the outcome of the second attempt. */
  lemma PadFinish(env: Env, small: seq<Primitive>, big: seq<Primitive>, matching: seq<nat>,
                  scanned: seq<Primitive>, small2: seq<Primitive>, big2: seq<Primitive>, changedBig: bool)
    requires ValidEnv(env)
    requires ScanOutcome(env, small, big, matching, scanned, big2, changedBig)
    requires GreedyMatch(env, small, big, 0, 0) == Some(matching)
    requires |small2| == |big|
    requires forall k :: 0 <= k < |matching| ==> small2[matching[k]] == scanned[k]
    requires forall j :: 0 <= j < |big| && j !in matching ==> small2[j] == SetIdentity(env, big[j])
    ensures SubsequenceOutcome(env, small, big, matching, small2, big2)
    ensures Matched(small2, big2) && (changedBig <==> big2 != big)
  {
    GreedyMatchSound(env, small, big, 0, 0);
    ChangedIffKindChanged(env, small, big, matching, scanned, big2, changedBig);
    assert SubsequenceOutcome(env, small, big, matching, small2, big2);
    SubsequenceOutcomeMatched(env, small, big, matching, small2, big2);
  }

  /**
    The second attempt (lines 188-272): the ordered subsequence match of
    `small` into `big`, followed on success by the padding of `small` with
    identities. On failure the lists are returned as the scan left them.
  */
  method MatchAndPad(env: Env, small: seq<Primitive>, big: seq<Primitive>)
    returns (success: bool, changedBig: bool, small2: seq<Primitive>, big2: seq<Primitive>)
    requires ValidEnv(env)
    ensures success <==> GreedyMatch(env, small, big, 0, 0).Some?
    ensures success ==>
      SubsequenceOutcome(env, small, big, GreedyMatch(env, small, big, 0, 0).value, small2, big2) &&
      Matched(small2, big2) && (changedBig <==> big2 != big)
    ensures !success ==> |small2| == |small| && |big2| == |big|
    ensures var m := GreedyScan(env, small, big, 0, 0); var l := ScanLists(env, small, big);
      (success <==> |m| == |small|) && big2 == l.1 && small2 == (if success then Padded(env, l.0, l.1, m) else l.0)
  {
    var matching, scanned;
    success, matching, changedBig, scanned, big2 := MatchSubsequence(env, small, big);
    small2 := scanned;
    if success {
      GreedyMatchSound(env, small, big, 0, 0);
      small2 := InsertIdentities(env, scanned, big2, matching);
      PadFinish(env, small, big, matching, scanned, small2, big2, changedBig);
    }
  }

  // ---------------------------------------------------------------------------
  // The three attempts together (lines 151-304)

  /**
    The two lists the matrix fallback receives: each attempt that fails
    leaves behind the pairs it widened before it stopped.
  */
  function FallbackLists(env: Env, p0: seq<Primitive>, p1: seq<Primitive>): (r: (seq<Primitive>, seq<Primitive>))
    ensures |r.0| == |p0| && |r.1| == |p1|
  {
    if |p0| == |p1| then WidenedLists(env, p0, p1)
    else if |p0| < |p1| then ScanLists(env, p0, p1)
    else var l := ScanLists(env, p1, p0); (l.1, l.0)
  }

  /**
    The outcome of lines 151-304 as one definition: the equal-length walk,
    else the subsequence scan of the shorter list with identity padding,
    else the matrix fallback on the lists the failed attempt left.
  */
  function ReconciledPair(env: Env, p0: seq<Primitive>, p1: seq<Primitive>)
    : (r: (PrepareTransformResult, seq<Primitive>, seq<Primitive>))
  {
    var f := FallbackLists(env, p0, p1);
    if |p0| == |p1| then
      if FirstIncompatible(env, p0, p1, 0) == |p0| then (Flags(f.0 != p0, f.1 != p1), f.0, f.1)
      else MatrixFallback(env, f.0, f.1)
    else if |p0| < |p1| then
      if |GreedyScan(env, p0, p1, 0, 0)| == |p0| then
        (if f.1 != p1 then ChangedT0andT1 else ChangedT0, Padded(env, f.0, f.1, GreedyScan(env, p0, p1, 0, 0)), f.1)
      else MatrixFallback(env, f.0, f.1)
    else
      if |GreedyScan(env, p1, p0, 0, 0)| == |p1| then
        (if f.0 != p0 then ChangedT0andT1 else ChangedT1, f.0, Padded(env, f.1, f.0, GreedyScan(env, p1, p0, 0, 0)))
      else MatrixFallback(env, f.0, f.1)
  }

  /**
    PrepareTransformPair: reconciles t0 = p0 and t1 = p1 into q0, q1. The
    ghost c0, c1 are the lists handed to the fallback, which may already
    carry primitives widened by the failed attempts.
  */
  method PrepareTransformPair(env: Env, p0: seq<Primitive>, p1: seq<Primitive>)
    returns (result: PrepareTransformResult, q0: seq<Primitive>, q1: seq<Primitive>, ghost c0: seq<Primitive>, ghost c1: seq<Primitive>)
    requires ValidEnv(env)
    ensures result != Invalid ==> Matched(q0, q1)
    ensures result != Invalid && !result.ChangedFirst() ==> q0 == p0
    ensures result != Invalid && !result.ChangedSecond() ==> q1 == p1
    ensures Matched(p0, p1) ==> result == Unchanged && q0 == p0 && q1 == p1
    ensures EqualLengthMatch(env, p0, p1) ==>
      result != Invalid && |q0| == |p0| && |q1| == |p1| &&
      (forall i :: 0 <= i < |p0| ==> PairOutcome(env, p0[i], p1[i], q0[i], q1[i])) &&
      (result.ChangedFirst() <==> q0 != p0) && (result.ChangedSecond() <==> q1 != p1)
    ensures |p0| < |p1| && GreedyMatch(env, p0, p1, 0, 0).Some? ==>
      SubsequenceOutcome(env, p0, p1, GreedyMatch(env, p0, p1, 0, 0).value, q0, q1) &&
      result == (if q1 != p1 then ChangedT0andT1 else ChangedT0)
    ensures |p1| < |p0| && GreedyMatch(env, p1, p0, 0, 0).Some? ==>
      SubsequenceOutcome(env, p1, p0, GreedyMatch(env, p1, p0, 0, 0).value, q1, q0) &&
      result == (if q0 != p0 then ChangedT0andT1 else ChangedT1)
    ensures NeedsFallback(env, p0, p1) ==>
      (c0, c1) == FallbackLists(env, p0, p1) && (result, q0, q1) == MatrixFallback(env, c0, c1)
    ensures (result, q0, q1) == ReconciledPair(env, p0, p1)
  {
    // the working lists: the fallback receives them as the failed attempts left them
    var w0, w1 := p0, p1;
    if |p0| == |p1| {
      var same, r, e0, e1 := MatchEqualLength(env, p0, p1);
      if same {
        return r, e0, e1, e0, e1;
      }
      w0, w1 := e0, e1;
    } else {
      var p0Smallest := |p0| < |p1|;
      var small, big := if p0Smallest then p0 else p1, if p0Smallest then p1 else p0;
      var success, changedBig, small2, big2 := MatchAndPad(env, small, big);
      if success {
        if p0Smallest {
          q0, q1 := small2, big2;
        } else {
          q0, q1 := big2, small2;
        }
        // small has always changed; big only if a primitive was converted
        result := if changedBig then ChangedT0andT1 else if p0Smallest then ChangedT0 else ChangedT1;
        c0, c1 := q0, q1;
        return;
      }
      w0, w1 := if p0Smallest then small2 else big2, if p0Smallest then big2 else small2;
    }
    c0, c1 := w0, w1;
    var decomposed0 := CombineAndDecompose(env, w0);
    if decomposed0.None? {
      return Invalid, w0, w1, c0, c1;
    }
    var decomposed1 := CombineAndDecompose(env, w1);
    if decomposed1.None? {
      return Invalid, decomposed0.value, w1, c0, c1;
    }
    result, q0, q1 := ChangedT0andT1, decomposed0.value, decomposed1.value;
  }
}
