# ElementAnimation: a verified model

This project models libRocket's keyframe animation of one element property.
The model covers `ElementAnimation` (`Source/Core/ElementAnimation.cpp`, with
its state and accessors from `Source/Core/ElementAnimation.h`).

An animation holds a list of keys: a time local to one iteration, a value, and
the tween that eases into that key. The constructor seeds the first key at
time 0 with the property's current value. `AddKey` appends keys. Keys of the
transform unit are reconciled with their neighbours so that every adjacent
pair has equally long primitive lists whose kinds agree index by index. The
reconciliation tries three things in turn:

1. an equal-length, pairwise generic widening;
2. an ordered subsequence match, which pads the shorter list with identity
   primitives;
3. a matrix-decomposition fallback.

This follows the "Interpolation of Transforms" section of CSS Transforms
Module Level 1; the subsequence rule is libRocket's own extension.
`UpdateAndGetProperty` is a small state machine over the playback fields. It
advances to a world time, finds the two keys that bracket the local time,
and blends their values at the clamped, tweened factor.

Line numbers in comments of the `.dfy` files refer to
`Source/Core/ElementAnimation.cpp` unless they say "header line".

Layout:

- `values.dfy`: module `Wrappers` (`Option`) and module `Values`. `Values`
  holds primitives, values, properties, keys and the collaborator record
  `Env`, with the laws `ValidEnv` the core relies on.
- `interpolation.dfy`: module `Interpolation`, with `InterpolateValues` and
  `TryMakeUnitValid`.
- `transform_matching.dfy`: module `TransformMatching`, with
  `PrepareTransformPair` and its three attempts.
- `keychain.dfy`: module `KeyChain`, with `PrepareTransforms`, the bounded
  walk along the key list.
- `timeline.dfy`: module `Timeline`. It holds the playback state machine
  (`Advance`), key bracketing and the blend factor as functions on values,
  with the loop versions proved against them.
- `animation.dfy`: module `Animations`, with the `ElementAnimation` class.

Transforms are modelled as values: a key's transform is its list of
primitives, and reconciliation returns the new lists. The primitive
operations the core calls are defined elsewhere in libRocket. The model
treats them as collaborators, which are fields of `Env`:

- `Primitive::TryConvertToMatchingGenericType`;
- `Primitive::SetIdentity`;
- `Primitive::InterpolateWith`;
- `Primitive::ResolveUnits`;
- `CombineAndDecompose`'s matrix product and decomposition;
- the gamma-space colour blend;
- `Variant::GetInto<float>`.

`ValidEnv` states the only laws used:

- a widening gives both primitives one kind, and leaves a side whose kind it
  kept as it was;
- interpolation only succeeds on equal kinds and keeps that kind.

When a new iteration starts, the code drops the overshoot (line 413): the
elapsed time restarts at 0 rather than at the time past the end. Take an
animation of duration 1 with 2 alternating iterations and float keys 0.0 at
time 0 and 10.0 at time 1. Advanced to 0.5, 1.5, 2.0 and 3.0, it yields 5.0,
10.0 (the second iteration starts at its very beginning, reversed), 5.0, and
0.0 on completion at 3.0; after that nothing advances.
`Timeline.ExamplePlayback` and `Timeline.ExampleValues` prove this sequence.

## Model

| member | source | states |
|---|---|---|
| Interpolation.InterpolatedValue | Source/Core/ElementAnimation.cpp:58-123 | values of different types, and types other than float/colour/transform, give v0 back; floats give (1-α)·f0 + α·f1, so α = 0 gives v0 and α = 1 gives v1; colours go through the colour blend; transforms of unequal length, or with a pair that refuses to interpolate, give v0, and otherwise give exactly \|p0\| primitives, each the interpolation of the pair at its index and of that pair's kind |
| Interpolation.InterpolateValues | Source/Core/ElementAnimation.cpp:58-123 | the loop over the primitive pairs builds exactly the value InterpolatedValue describes |
| Interpolation.TryMakeUnitValid | Source/Core/ElementAnimation.cpp:334-354 | floats, colours and transforms pass unchanged with success; any other value succeeds exactly when it coerces to a float, and then becomes that float; a failed coercion leaves the value as it was; a success always yields a blendable value |
| TransformMatching.PrepareTransformResult.MarkFirst | Source/Core/ElementAnimation.cpp:178-179 | or-ing ChangedT0 into a result sets the first flag and keeps the second |
| TransformMatching.PrepareTransformResult.MarkSecond | Source/Core/ElementAnimation.cpp:180-181 | or-ing ChangedT1 into a result sets the second flag and keeps the first |
| TransformMatching.Widen | Source/Core/ElementAnimation.cpp:170-182 | a compatible pair is left as it is when the kinds agree and becomes its widening otherwise; that is the only outcome pairing allows; under the collaborators' laws both sides end up with one kind, and a side that keeps its kind is unchanged |
| TransformMatching.Flags | Source/Core/ElementAnimation.cpp:164-181 | the non-Invalid result whose first and second flags are exactly the two given, and the only one |
| TransformMatching.FirstIncompatible | Source/Core/ElementAnimation.cpp:166-177 | where the equal-length walk stops: every pair before it is compatible, the pair at it (if any) is not |
| TransformMatching.MatchEqualLength | Source/Core/ElementAnimation.cpp:162-186 | on equal lengths, succeeds exactly when every pair has equal kinds or can be widened, i.e. when there is no incompatible pair; the lists it leaves, also on failure, are exactly the widened lists (each pair before the first incompatible one as pairing leaves it, every pair from there on untouched); on success the lists are matched and the result is exactly the flags "first list changed" and "second list changed"; lists whose kinds already agree give Unchanged and are not touched |
| TransformMatching.WidenAt | Source/Core/ElementAnimation.cpp:168-182 | one round of the walk succeeds exactly when pair i is compatible; it then widens only that pair and keeps the flags equal to "some primitive of this side changed kind"; otherwise nothing changes |
| TransformMatching.WidenFinish | Source/Core/ElementAnimation.cpp:184-185 | a walk that ran to the end, or stopped at an incompatible pair, has every property MatchEqualLength promises |
| TransformMatching.FirstIncompatibleAt | Source/Core/ElementAnimation.cpp:166-177 | an index with only compatible pairs before it and an incompatible pair (or the end) at it is the first incompatible index |
| TransformMatching.WidenStateLists | Source/Core/ElementAnimation.cpp:166-183 | the lists of a walk stopped at the first incompatible pair are exactly the widened lists |
| TransformMatching.WidenStateUntouchedOrPaired | Source/Core/ElementAnimation.cpp:166-183 | during the walk every pair is either untouched or as pairing leaves it |
| TransformMatching.WidenDone | Source/Core/ElementAnimation.cpp:184-185 | a walk that reached the end had only compatible pairs, leaves the lists matched, and flags exactly the lists that changed |
| TransformMatching.PairwiseChangedIff | Source/Core/ElementAnimation.cpp:170-182 | after pairwise widening, a list differs from the original exactly when one of its primitives changed kind |
| TransformMatching.NextCompatible | Source/Core/ElementAnimation.cpp:216-240 | the index found is the first index from `from` on whose primitive matches exactly or after widening; with none found, no index from `from` on matches |
| TransformMatching.GreedyMatch | Source/Core/ElementAnimation.cpp:211-244 | the greedy embedding of the rest of small, when it exists, has exactly one index per remaining primitive |
| TransformMatching.GreedyScan | Source/Core/ElementAnimation.cpp:211-244 | the indices the scan picks before it stops: at most one per remaining primitive of small, strictly increasing, from the start index on and within big, each compatible with its primitive of small |
| TransformMatching.GreedyScanMatch | Source/Core/ElementAnimation.cpp:211-247 | the greedy match exists exactly when the scan picks an index for every remaining primitive, and is then the scan's picks |
| TransformMatching.GreedyMatchSound | Source/Core/ElementAnimation.cpp:198-244 | the indices the greedy scan picks are strictly increasing and in range, and each picked primitive of big is compatible with its primitive of small |
| TransformMatching.GreedyMatchComplete | Source/Core/ElementAnimation.cpp:190-197 | if small embeds in order into big at all, the greedy scan finds an embedding |
| TransformMatching.SubsequenceMatchIffEmbedding | Source/Core/ElementAnimation.cpp:190-244 | the subsequence match succeeds exactly when small embeds in order into big, and what it returns is such an embedding |
| TransformMatching.NextCompatibleSuffix | Source/Core/ElementAnimation.cpp:216-217 | the scan for the next match depends only on big from the scan's start on |
| TransformMatching.ScanForMatch | Source/Core/ElementAnimation.cpp:216-240 | the inner scan finds a match exactly when a compatible index exists from `from` on; it returns the first one, with the pair left as it was (equal kinds) or widened |
| TransformMatching.MatchNext | Source/Core/ElementAnimation.cpp:211-244 | one round of the outer loop matches the next primitive of small at the first compatible index after the previous match, widens only that pair, and keeps changed_big equal to "some primitive of big changed kind" |
| TransformMatching.GreedyPrefixExtend | Source/Core/ElementAnimation.cpp:233-238 | pushing the index just found keeps the matching indices equal to the greedy choices so far |
| TransformMatching.GreedyPrefixMatch | Source/Core/ElementAnimation.cpp:211-244 | the indices matched so far are a prefix of the whole greedy match |
| TransformMatching.GreedyPrefixMatchStep | Source/Core/ElementAnimation.cpp:233-238 | one more pick of a greedy prefix moves the split between the picks made and the match still to come by one, without changing the whole |
| TransformMatching.GreedyScanOfPrefix | Source/Core/ElementAnimation.cpp:211-244 | the indices matched so far are the first picks of the scan, which carries on after them |
| TransformMatching.GreedyScanOfPrefixStep | Source/Core/ElementAnimation.cpp:233-238 | one more pick of a greedy prefix moves the split between the picks made and the scan still to come by one |
| TransformMatching.ScanOutcomeLists | Source/Core/ElementAnimation.cpp:216-240 | the picked pairs widened in place, with the rest of small untouched and nothing else of big changed, are exactly the scanned lists |
| TransformMatching.ScanFinish | Source/Core/ElementAnimation.cpp:242-247 | a scan that matched every primitive, or stopped at one with no compatible index left, returns the scan's picks, the scanned lists, and success exactly when the greedy match exists |
| TransformMatching.GreedyMatchEnd | Source/Core/ElementAnimation.cpp:242-247 | the match fails when the next primitive of small has no compatible index left, and is complete once every primitive of small is matched |
| TransformMatching.MatchSubsequence | Source/Core/ElementAnimation.cpp:198-244 | the scan succeeds exactly when the greedy match exists, i.e. exactly when it picks an index for every primitive of small; its indices are always the scan's picks, and equal the greedy match on success; the lists it leaves, also on failure, are the scanned lists: every picked pair widened where needed and nothing else changed; changed_big is true exactly when a matched primitive of big changed kind |
| TransformMatching.ChangedIffKindChanged | Source/Core/ElementAnimation.cpp:225-231 | after the scan, changed_big holds exactly when big was changed |
| TransformMatching.InsertIdentityRun | Source/Core/ElementAnimation.cpp:255-260 | inserting at indices lo..hi puts the identity of big[i] at each index i in that range, keeps everything before lo, and shifts the rest up by hi - lo |
| TransformMatching.PadStep | Source/Core/ElementAnimation.cpp:253-264 | one round of the padding loop moves the walk to the index just after the next matching index |
| TransformMatching.PadAhead | Source/Core/ElementAnimation.cpp:250-255 | the stops of the padding walk, including the appended \|big\|, never go backwards |
| TransformMatching.PadDone | Source/Core/ElementAnimation.cpp:250-264 | after the last stop the padded list is as long as big |
| TransformMatching.Pos | Source/Core/ElementAnimation.cpp:253-263 | the position of an index among the matching indices, or their count when it is not one of them |
| TransformMatching.Padded | Source/Core/ElementAnimation.cpp:247-264 | the padded small is as long as big and holds the identity of big's primitive at every unmatched index |
| TransformMatching.PaddedUnique | Source/Core/ElementAnimation.cpp:247-264 | with strictly increasing matching indices, the padded list is the only list as long as big with small's primitives at the matched indices and identities elsewhere |
| TransformMatching.InsertIdentities | Source/Core/ElementAnimation.cpp:247-264 | for strictly increasing matching indices, the padded small has \|big\| primitives; small's own primitives sit at the matched indices in their order, and every other index holds the identity of big's primitive there |
| TransformMatching.SubsequenceOutcomeMatched | Source/Core/ElementAnimation.cpp:247-272 | after padding, the two lists are matched: equal length, equal kinds at every index |
| TransformMatching.PadFinish | Source/Core/ElementAnimation.cpp:247-272 | a complete scan padded with identities is the subsequence outcome: the pair is matched, and changed_big holds exactly when big changed |
| TransformMatching.MatchAndPad | Source/Core/ElementAnimation.cpp:188-272 | the second attempt succeeds exactly when small embeds in order into big; small then becomes big's length with its primitives at the greedy indices and identities elsewhere; the pair is matched, and changed_big holds exactly when big changed; in every case big is left as the scan leaves it, and small is the scanned list, padded exactly when the scan succeeded |
| TransformMatching.CombineAndDecompose | Source/Core/ElementAnimation.cpp:125-145 | fails exactly when the product cannot be decomposed; otherwise the list becomes exactly one decomposed-matrix primitive |
| TransformMatching.MatrixFallback | Source/Core/ElementAnimation.cpp:279-285 | Invalid exactly when either decomposition fails, otherwise ChangedT0andT1 with both lists single decomposed primitives (so matched); when only t1 fails, t0 is already replaced |
| TransformMatching.MatrixFallbackAtomic | Source/Core/ElementAnimation.cpp:279-285 | the same verdict as the fallback, but an Invalid outcome leaves both lists as they were |
| TransformMatching.PrepareTransformPair | Source/Core/ElementAnimation.cpp:151-304 | any outcome but Invalid leaves the lists matched, and a side not flagged as changed is untouched; matched lists give Unchanged; equal lengths with all pairs compatible widen pairwise, flagging exactly the changed sides; a successful subsequence match pads the shorter list, with ChangedT0/ChangedT1 for the shorter side, or ChangedT0andT1 when the longer one changed too; when neither attempt succeeds, the ghost c0, c1 are the lists the failed attempt left behind (its widened pairs included) and the outcome is the matrix fallback applied to them; the whole outcome equals the three-attempt definition ReconciledPair |
| KeyChain.WithPrims | Source/Core/ElementAnimation.cpp:316-317 | editing a key's transform in place keeps its time and tween and gives it exactly the new primitive list |
| KeyChain.WalkVerdicts | Source/Core/ElementAnimation.cpp:314-330 | the walk makes at most the remaining budget of pair calls, only the last of which can be Invalid, and returns true exactly when none is Invalid and the count stayed below the budget |
| KeyChain.Reconciliation | Source/Core/ElementAnimation.cpp:307-331 | the walk from max(start_index, 1) makes at most 3·\|keys\|+1 pair calls; it returns true exactly when none returned Invalid and at most 3·\|keys\| were made; a false verdict means the last call returned Invalid or the budget ran out |
| KeyChain.ReconcilePair | Source/Core/ElementAnimation.cpp:316-321 | reconciling pair i touches only keys i-1 and i, and only their primitives; a non-Invalid result leaves the pair matched and key i-1 untouched unless flagged; an already matched pair is left alone; verdict and keys are exactly one step of the walk with the pair reconciliation |
| KeyChain.PrepareTransforms | Source/Core/ElementAnimation.cpp:307-331 | the verdict, the edited keys and the ghost sequence of pair verdicts are exactly those of the walk Reconciliation defines, so it returns true exactly when no pair call returned Invalid and at most 3·\|keys\| calls were made; the walk only edits primitive lists; starting from max(start_index, 1) with the pairs below already matched, success leaves every adjacent pair matched; an already reconciled chain succeeds and is left alone |
| KeyChain.WalkPair | Source/Core/ElementAnimation.cpp:314-329 | one iteration: an Invalid verdict means the whole walk ends here with false and the chain was not matched; any other verdict moves i back or on and counts the iteration |
| KeyChain.WalkStateStep | Source/Core/ElementAnimation.cpp:319-328 | reconciling pair i is one step of the walk: an Invalid verdict ends it with false, any other continues it from the next pair with one more iteration spent |
| KeyChain.WalkStateDone | Source/Core/ElementAnimation.cpp:314-330 | with no pair or no budget left, the walk's verdict is whether the budget was kept |
| KeyChain.ChainFactsStep | Source/Core/ElementAnimation.cpp:319-328 | a non-Invalid pair reconciliation keeps the timeline, keeps the pairs below the walk matched, and leaves an already matched chain alone; an Invalid one means the chain was not matched |
| KeyChain.WithPrimsTimeline | Source/Core/ElementAnimation.cpp:316-319 | giving keys i-1 and i new primitive lists keeps the timeline and keeps every key a transform |
| KeyChain.ChainStep | Source/Core/ElementAnimation.cpp:324-328 | after reconciling pair i, the pairs below i-1 stay matched, and so do those up to i when key i-1 was not changed or is the first key: hence stepping back only when t0 changed |
| Timeline.Start | Source/Core/ElementAnimation.cpp:356-363 | a new animation starts at the given world time, at iteration 0, with no elapsed time, forwards, and not complete |
| Timeline.StartInvariant | Source/Core/ElementAnimation.cpp:356-363 | the starting state satisfies the playback invariant |
| Timeline.Advance | Source/Core/ElementAnimation.cpp:401-423 | last_update_world_time becomes world_time; the iteration count rises by one exactly when the elapsed time reaches the duration, and only then; a new iteration restarts from 0, dropping the overshoot; the direction flips only when alternating and a new iteration starts; completion happens only with a finite count that has been reached, and then sets elapsed to duration; infinite animations never complete |
| Timeline.AdvanceKeepsInvariant | Source/Core/ElementAnimation.cpp:401-423 | advancing keeps the playback invariant: iteration count ≥ 0; reversed only when alternating; complete only with a reached finite count and elapsed == duration; otherwise elapsed in [0, duration) or exactly 0 |
| Timeline.AdvanceThenEarlierIsNoOp | Source/Core/ElementAnimation.cpp:398-399 | right after advancing to a world time, a call at that time or earlier is a no-op |
| Timeline.CompleteIsFinal | Source/Core/ElementAnimation.cpp:398-399 | a complete animation is never advanced again and stays complete |
| Timeline.LocalTime | Source/Core/ElementAnimation.cpp:425-428 | forwards, the local time is the elapsed time; reversed, it and the elapsed time add up to the duration; with the elapsed time in [0, duration] it stays there |
| Timeline.LocalTimeBounds | Source/Core/ElementAnimation.cpp:425-428 | with a non-negative duration, elapsed and local time both stay in [0, duration] |
| Timeline.FirstAtOrAfter | Source/Core/ElementAnimation.cpp:434-441 | the scan stops at the first key from `from` on whose time is at least t, every key it passes is earlier than t, and without such a key it runs off the end |
| Timeline.UpperKey | Source/Core/ElementAnimation.cpp:434-443 | key1 is the first key with time ≥ t, or the last key when there is none; all keys before it are earlier than t |
| Timeline.LowerKey | Source/Core/ElementAnimation.cpp:444 | key0 is key1 - 1, or 0 when key1 is 0, so 0 ≤ key0 ≤ key1 |
| Timeline.Clamp | Source/Core/ElementAnimation.cpp:460 | for lo ≤ hi the result lies in [lo, hi]; a value already in range is kept, one below lo becomes lo, one above hi becomes hi |
| Timeline.DivideByWidth | Source/Core/ElementAnimation.cpp:457-458 | dividing by a positive width and multiplying back gives the numerator; a non-positive numerator gives at most 0, one at least the width gives at least 1 |
| Timeline.BlendFactor | Source/Core/ElementAnimation.cpp:449-461 | the factor is in [0, 1]; it is 0 when the keys are at most 1e-3 apart or t is at or before t0, 1 at or after t1, and otherwise the fraction of the way from t0 to t1 |
| Timeline.FindKeys | Source/Core/ElementAnimation.cpp:430-447 | the linear scan returns key1 = the first key with time ≥ t (else the last) and key0 = max(key1-1, 0), both in range |
| Timeline.SampleKeys | Source/Core/ElementAnimation.cpp:430-467 | when all keys hold values of one type the sample has that type; a single key is blended with itself at tween(0) |
| Timeline.Sample | Source/Core/ElementAnimation.cpp:430-467 | the value computed from the bracketing keys, the clamped factor and the upper key's tween is the blend of the keys around t |
| Timeline.SampleAtFirstKey | Source/Core/ElementAnimation.cpp:434-461 | at or before the first key's time the sample is the first key's value blended with itself; for a float key that is the key's value |
| Timeline.SampleAfterLastKey | Source/Core/ElementAnimation.cpp:443-463 | past the last key the sample blends the last two keys at tween(1); for floats and a tween with tween(1) = 1 it is the last key's value |
| Timeline.SampleBetweenKeys | Source/Core/ElementAnimation.cpp:434-467 | strictly between key k-1 and up to key k (keys more than 1e-3 apart), the sample blends those two keys at the tweened fraction of the way between them |
| Timeline.ExamplePlayback | Source/Core/ElementAnimation.cpp:398-423 | the worked example's states: half way at 0.5; the second iteration starting reversed at its very beginning at 1.5; half way back at 2.0; complete at 3.0, after which nothing advances |
| Timeline.ExampleValues | Source/Core/ElementAnimation.cpp:425-467 | the worked example's values: 5.0, 10.0, 5.0, and 0.0 on completion |
| Timeline.TwoFloatKeys | Source/Core/ElementAnimation.cpp:449-467 | with float keys at times 0 and 1 and linear tweens, the sample at t in [0, 1] is the straight-line blend |
| Animations.Resolved | Source/Core/ElementAnimation.cpp:380 | unit resolution keeps a primitive's kind and takes the resolved numbers when it succeeds |
| Animations.ResolvePrimitives | Source/Core/ElementAnimation.cpp:376-382 | every primitive of the new key is resolved; the result is true exactly when all resolutions succeed, and a failure does not stop the loop |
| Animations.ResolvedAll | Source/Core/ElementAnimation.cpp:378-382 | resolving every primitive keeps their number and kinds, and gives each the resolved numbers when all resolutions succeed |
| Animations.AddedKeys | Source/Core/ElementAnimation.cpp:371-386 | the extended list has exactly one key more than the list before |
| Animations.ElementAnimation.constructor | Source/Core/ElementAnimation.cpp:356-363 | one key at time 0 holding the current value, made blendable when possible, with the linear tween; valid exactly when that succeeded; the unit and specificity copied; the start playback state; the class invariant holds |
| Animations.ElementAnimation.AddKey | Source/Core/ElementAnimation.cpp:366-392 | succeeds exactly when the unit matches, the animation is valid, the value coerces and, for transforms, every primitive resolves and reconciling the extended list from the new pair succeeds; on failure the key list is exactly as it was; on success it is the extended, reconciled list: exactly one key with the given time and tween is appended, the earlier keys keep their times and tweens, a non-transform value is appended as coerced, and the chain stays reconciled |
| Animations.ElementAnimation.AddKeyAsWritten | Source/Core/ElementAnimation.cpp:366-392 | the rollback as written: with a matching unit on a valid animation, the verdict is that of the extended, reconciled list; on success the list is that list, on failure that list without its last key, so it has its old length and timeline but its primitive lists may have been edited; a success keeps a reconciled chain reconciled |
| Animations.ElementAnimation.AppendAndReconcile | Source/Core/ElementAnimation.cpp:371-386 | computes exactly AddedKeys on a copy of the key list; succeeds exactly when the value coerces and, for transforms, every primitive resolves and the reconciliation from the new pair succeeds; success implies every key is blendable, for transforms every key is a transform, and a chain whose pairs were matched stays matched |
| Animations.ElementAnimation.UpdateAndGetProperty | Source/Core/ElementAnimation.cpp:394-470 | a no-op returning nothing, with no field changed, when complete, invalid or not moved forward; otherwise the playback state becomes Advance of the old one, the keys do not change, and the result is the blend of the keys around the local time, with the animation's unit and specificity; the class invariant is kept |
| Animations.ElementAnimation.AdvancePlayback | Source/Core/ElementAnimation.cpp:401-423 | the field updates produce exactly the state Advance describes |
| Animations.ElementAnimation.GetInterpolationFactorAndKeys | Source/Core/ElementAnimation.h:73 | a query returning the bracketing keys and the tweened blend factor at the current local time |
| Animations.ElementAnimation.GetInterpolationFactor | Source/Core/ElementAnimation.h:86 | the tweened blend factor at the current local time, changing nothing |
| Animations.ElementAnimation.IsComplete | Source/Core/ElementAnimation.h:84 | returns animation_complete; under the invariant, completion implies a finite iteration count that has been reached |
| Animations.ElementAnimation.IsTransition | Source/Core/ElementAnimation.h:85 | true exactly when the origin is Transition |
| Animations.ElementAnimation.GetOrigin | Source/Core/ElementAnimation.h:87 | the stored origin |
| Animations.ElementAnimation.GetDuration | Source/Core/ElementAnimation.h:83 | the stored duration of one iteration |
| Animations.ElementAnimation.GetPropertyName | Source/Core/ElementAnimation.h:82 | the stored property name (the .cpp revision's property_name, where the header has property_id) |
| Animations.RollbackLeavesUnmatchedPair | Source/Core/ElementAnimation.cpp:388-389 | a concrete case where the fallback reports Invalid after replacing the earlier key's list, so popping only the new key leaves an unmatched pair; the atomic fallback leaves both lists alone; carried through `AddedKeys`, adding [B] to the matched keys [A], [A] is refused and the first two keys it leaves, which `AddKeyAsWritten` keeps, are not matched |

## Left out

- Colour gamma conversion (lines 36-55): float square roots, clamping and byte truncation. The blend is the `blendColour` collaborator.
- Matrix composition and decomposition inside `CombineAndDecompose`: floating-point linear algebra defined outside this file. It is the `decompose` collaborator, which fails or yields the numbers of one decomposed-matrix primitive.
- The primitive operations and `Variant::GetInto` are collaborators constrained only by `ValidEnv`. Their own behaviour is defined in files that are not part of this model.
- Tween easing functions are arbitrary functions on reals. The first key's tween is the linear `Tween{}`.
- `Log::Message` calls: logging only.
- Dead code: the `else` branch of `if constexpr(true)` (lines 286-301) and the unreachable log at line 116.
- IEEE float rounding: times and factors are `real`. The world time is a `real`, although the header revision makes it a `double`.
- `TransformRef` sharing: transforms are values, and reconciliation returns new primitive lists. So the model does not capture that `ResolveUnits` at line 378 also edits the caller's property, whose transform the new key shares.
- The `*ref0`/`*ref1` references of lines 316-319: `PrepareTransformPair` edits the two keys' transforms in place through shared pointers. The first key (line 359) copies the `TransformRef` of the constructor's `current_value`, and a key pushed at line 372 copies that of the property passed to `AddKey`. So reconciliation also edits those callers' transforms, keys added from one property share one `Transform` object, and reconciling one of them edits the others too. The model gives every key its own primitive list, so it does not capture that aliasing.
- `UpdateAndGetProperty` returns a default-constructed `Property` in the no-op case; the model returns `None`.
- Animations.ElementAnimation.AddKey: key times are not required to increase. The code does not check it either, and bracketing then still follows the linear scan.
- Animations.ElementAnimation.AddKey: the corrected rollback restores the whole key list, where the code pops only the new key (see Findings). `AddKeyAsWritten` models the code.
- Source/Core/PropertyShorthandDefinition.h is not part of this model: it holds declarations only.
- The header's revision differs from the .cpp. It has `property_id`, `double` times, `AnimationKey::property`, `extend_duration` and `InternalAddKey`. The model takes behaviour from the .cpp (`property_name`, a 4-argument `AddKey`). From the header it takes only `origin` and the accessors. `GetInterpolationFactorAndKeys` is declared but has no definition in this .cpp. It is modelled on the computation of lines 425-463.
- The element passed to `AddKey` appears only through `resolveUnits` and `decompose`.

## Findings

| source | as written | input that shows it | evidently intended | confidence | as-written member | corrected member |
|---|---|---|---|---|---|---|
| Source/Core/ElementAnimation.cpp:388-389 | on failure `AddKey` pops only the new key, but `PrepareTransforms` may already have edited earlier keys in place (the fallback at lines 281-284 replaces t0 before t1's decomposition fails) | keys [A], [A] of one kind-0 primitive each; add [B] of kind 1, where A and B do not widen, [A] decomposes and [B] does not: key 1 becomes the decomposition [D] and is kept after the pop, so keys [A], [D] are no longer matched | a failed `AddKey` leaves the key list exactly as it was | medium, not executed | Animations.RollbackLeavesUnmatchedPair | Animations.ElementAnimation.AddKey |
