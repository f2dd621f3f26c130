# Mutation core of hanzi-writer, in Dafny

This project models the animation core of hanzi-writer, `src/Mutation.js`.
A **mutation** tweens a render state from its current value tree to a target
value tree over a duration. It applies one partial state per delivered
animation frame and settles a completion when it finishes or is cancelled.
A **pause** settles a completion when a timer fires or when it is cancelled.

The model is in three parts:

- `value_tree.dfy`, module `ValueTree`: the value tree and the two pure helpers.
  - The tree is `datatype Tree = Leaf(real) | Node(map<string, Tree>)`.
  - `GetPartialValues` models `getPartialValues` and `IsAlreadyAtEnd` models `isAlreadyAtEnd`, both as recursive functions.
  - Lemmas state each result leaf by leaf, through `LeafAt(tree, path)`.
  - A start tree must be congruent with the target: it holds a value of the same kind at every key of the target. The predicate `Fits` states this, and it is a precondition of both helpers. On a shape mismatch the source computes `NaN`, a string such as `"NaN[object Object]"` (a sub-tree in the start where the target has a number: `progress * (e - {}) + {}` at src/Mutation.js:18), or throws a `TypeError`, and the caller is at fault. In that string case `isAlreadyAtEnd` answers false (src/Mutation.js:32), so the run goes ahead and writes the string into the state. The source does not handle this case, so the model does not either.
- `mutation.dfy`, module `Mutation`: the classes `Mutation` and `Pause`.
  - Their fields are the source's fields: `resolve` for `_resolve`, `frameHandle`, `startState`, `startTime` and `timeout`.
  - Every effect on the host goes into a ghost log of `Effect` values, in order: `updateState`, `requestAnimationFrame`, `cancelAnimationFrame`, `setTimeout`, `clearTimeout`, and calling the stored `resolve`.
  - Each pending run gets a ghost number. The invariant `ResolvesAtMostOnce` states three things:
    - no run's completion is resolved twice;
    - no run that has not started is resolved;
    - while `resolve` is set, the current run is still unresolved.
  - The host's inputs are method parameters: the render state's current tree, the clock reading (`now`, `timing`) and the handles the frame scheduler and the timer return.
- `scenarios.dfy`, module `Scenarios`: client methods. Each one drives an object through a short history and asserts what the contracts give. The histories are: zero duration, already at end, forced and plain cancel mid-run, cancel twice, cancel before run, running to completion, and a pause cancelled early.

`wrappers.dfy` holds `Option`.

Three behaviours of the code that a reader may not expect:

- The progress of a tick is clamped only above, as `Math.min(1, …)`. It is not clamped to [0, 1] (`src/Mutation.js:67`).
- `Pause.cancel` does not clear the stored `_timeout`. A second cancel passes the same handle to `clearTimeout` again.
- The source tells leaves from sub-trees by the probe `>= 0`. The model tags them in the datatype instead (see Findings).

## Model

| member | source | states |
|---|---|---|
| `ValueTree.GetPartialValues` | src/Mutation.js:10-24 | The partial state has exactly the target's keys at every level. Leaves are where the target has leaves and sub-trees where it has sub-trees. The result is again congruent with the target. |
| `ValueTree.Lerp` | src/Mutation.js:18 | The leaf formula `progress * (e - s) + s`: at progress 0 it is the start value, at progress 1 the target value. `LerpBetween` bounds it in between. |
| `ValueTree.PartialValuesLeafAt` | src/Mutation.js:10-24 | The result has a leaf on a path exactly when the target does. There the value is `progress * (end - start) + start`, made from the start's and the target's leaves on that path. |
| `ValueTree.PartialValuesDropsStartOnlyKeys` | src/Mutation.js:12-16 | A path that leads to no leaf of the target leads to no leaf of the result, so keys found only in the start never lead to a leaf of the result. That they never appear at all is the `SameShape` ensures of `GetPartialValues`. |
| `ValueTree.PartialValuesAtOne` | src/Mutation.js:18 | At progress 1 the partial state equals the target tree exactly. |
| `ValueTree.PartialValuesAtZero` | src/Mutation.js:18 | At progress 0 every leaf of the result equals the start's leaf on the same path. |
| `ValueTree.PartialValuesBetween` | src/Mutation.js:18 | For progress in [0, 1], every leaf of the result lies between its start value and its target value. |
| `ValueTree.LerpBetween` | src/Mutation.js:18 | The leaf formula with a factor in [0, 1] lies between its two endpoints, for either order of the endpoints. |
| `ValueTree.IsAlreadyAtEnd` | src/Mutation.js:26-39 | No ensures of its own: a predicate over the target's keys, compared exactly. `AtEndIffLeavesAgree` characterises it in both directions. |
| `ValueTree.AtEndIffLeavesAgree` | src/Mutation.js:26-39 | `IsAlreadyAtEnd(start, end)` holds if and only if every leaf of the target equals the start's leaf on the same path. Paths outside the target are ignored. |
| `ValueTree.AtEndOfEmptyTarget` | src/Mutation.js:26-39 | A target with no keys is already reached. |
| `ValueTree.AtEndReflexive` | src/Mutation.js:26-39 | Every tree is congruent with itself and is already at its own end. |
| `ValueTree.AtEndAfterFullProgress` | src/Mutation.js:10-39 | The partial state at progress 1 is already at the end. |
| `ValueTree.FitsLeafAt` | src/Mutation.js:15-16 | A congruent start has a leaf on every path where the target has one. |
| `ValueTree.GetPartialValuesAsWritten` | src/Mutation.js:10-24 | No ensures of its own: `getPartialValues` with the source's `>= 0` probe, so a negative target leaf becomes an empty sub-tree. `AgreeOnNonNegative` ties it to `GetPartialValues`, and `NegativeLeafLostAsWritten` shows where they part. |
| `ValueTree.IsAlreadyAtEndAsWritten` | src/Mutation.js:26-39 | No ensures of its own: `isAlreadyAtEnd` with the source's `>= 0` probe, so a negative target leaf always counts as reached. `AgreeOnNonNegative` ties it to `IsAlreadyAtEnd`, and `NegativeLeafAtEndAsWritten` shows where they part. |
| `ValueTree.NegativeLeafLostAsWritten` | src/Mutation.js:17-20 | As written, the source turns a negative target leaf (-1 against a start of 0) into an empty sub-tree. The tagged model interpolates it to -1. |
| `ValueTree.NegativeLeafAtEndAsWritten` | src/Mutation.js:31-33 | As written, the source counts a negative target leaf (-1) as reached against a start of 0. The tagged model does not. |
| `ValueTree.AgreeOnNonNegative` | src/Mutation.js:10-39 | On targets whose leaves are all non-negative, the as-written sign probe and the tagged model compute the same partial state and the same at-end answer. |
| `Mutation.Min` | src/Mutation.js:67 | `Math.min`: the result is at most both arguments and is one of them. |
| `Mutation.Progress` | src/Mutation.js:67 | Progress is never above 1. For a positive duration it is non-negative from the start time on, and it equals 1 exactly when the duration has elapsed. |
| `Mutation.ProgressMonotone` | src/Mutation.js:67 | For a positive duration, a later tick never has less progress. |
| `Mutation.OtherEffectKeepsResolutions` | src/Mutation.js:53-83 | Logging an update, a frame request or a frame cancellation keeps the at-most-once bookkeeping of completions. |
| `Mutation.ResolvePendingKeepsResolutions` | src/Mutation.js:79-80 | Resolving the pending completion and then clearing `_resolve` leaves that completion resolved exactly once. |
| `Mutation.StartRunKeepsResolutions` | src/Mutation.js:61-63 | A freshly stored `resolve` belongs to a new, unresolved run. |
| `Mutation.Mutation.constructor` | src/Mutation.js:44-50 | The mutation keeps the given target, its duration (0 when absent) and `force` (false when absent). Nothing is pending, no frame is held and nothing has been done to the host. |
| `Mutation.Mutation.Run` | src/Mutation.js:52-64 | The state must be congruent with the target only when the duration is not 0, since only then is it read. With duration 0, exactly one `updateState(values)` is logged, no frame is requested, nothing else changes and the completion is settled, whatever `force` is. Otherwise, with the state already at the end, nothing is logged or changed and the completion is settled. Otherwise the start state and time are captured, exactly one frame is requested and stored, and a new completion is left pending. |
| `Mutation.Mutation.Tick` | src/Mutation.js:66-76 | Exactly one `updateState` with the partial state for `ease(Progress(...))` is logged. If the eased progress is 1, the frame handle is dropped without cancelling a frame, the pending completion is resolved once, and the target is applied again when `force` is set. Otherwise exactly one new frame is requested and stored. A tick at or past the end of a positive duration always finishes: its update is the exact target and the run is resolved exactly once. |
| `Mutation.Mutation.Cancel` | src/Mutation.js:78-84 | The pending completion, if any, is resolved once. Then the stored frame, if any, is cancelled. Then `updateState(values)` is logged if and only if `force` is set. Afterwards nothing is pending and no frame handle is held. A call before any run, or a second call, resolves nothing. |
| `Mutation.Pause.constructor` | src/Mutation.js:88-90 | The pause keeps its duration. Nothing is pending and no timer is held. |
| `Mutation.Pause.Run` | src/Mutation.js:92-98 | A new completion is left pending, and exactly one timer for the duration is set and stored. |
| `Mutation.Pause.Cancel` | src/Mutation.js:100-104 | The stored timer is cleared, even when none is stored. The pending completion, if any, is resolved once, and afterwards none is pending. So a second cancel, or the timer firing after an early cancel, resolves nothing. |

## Left out

- `ease` (src/Mutation.js:42) is a cosine curve over floating point. The model takes the curve as the constructor argument `ease`, which must satisfy `ease(0) == 0` and `ease(1) == 1`. Its other properties (monotonicity, `ease(0.5) == 0.5`) are not modelled.
- Mutation.Mutation.Tick: the branch on "eased progress equals 1" follows the code. With an arbitrary curve, the model does not prove that this branch is taken only at the end of the duration.
- Floating point as a whole: all numbers are `real`, so rounding and `NaN` are not modelled (a computed leaf of `NaN`, say from infinite endpoints, has no counterpart).
- ValueTree.PartialValuesAtOne, ValueTree.AtEndAfterFullProgress and the last ensures of Mutation.Mutation.Tick ("its update is the exact target") hold only in real arithmetic. In doubles `1 * (0.3 - 1) + 1` is `0.30000000000000004`, so in the program only `force` (src/Mutation.js:83) makes the final state exactly the target.
- Inherited keys: the `for…in` of `getPartialValues` has no `hasOwnProperty` check and would also walk keys inherited through the prototype chain (src/Mutation.js:12-14), while `isAlreadyAtEnd` skips them (src/Mutation.js:28). The model's maps have no inherited keys, so both helpers visit exactly the target's own keys.
- `inflate` from `./utils` (src/Mutation.js:46) is not part of this model. The constructor takes the already inflated target tree.
- The render-state object is not part of this model.
  - `run` receives its current tree by value.
  - `updateState` calls are logged with their argument, but their merge into the live state is not modelled.
  - The model does not record which render state `cancel` or a tick writes to (`_renderState`, src/Mutation.js:57).
- `requestAnimationFrame`, `cancelAnimationFrame`, `performanceNow`, `setTimeout` and `clearTimeout` are host calls.
  - Handles and clock readings are method parameters, and the calls are logged.
  - The host delivers a frame by calling `Mutation.Tick`. A timer fires by calling `Pause.Cancel`, which is the callback the source sets.
- Promises: settling is the logged resolution. The asynchronous delivery of settlement to awaiting callers is not modelled, and neither is `_tickBound`.
- Aliasing of `_startState` (src/Mutation.js:58): the model captures the start state by value.
- Calling `run` again while a run is pending is modelled as the code behaves. The new run overwrites `_resolve` and `_frameHandle`, so the earlier completion is never resolved and the earlier frame is no longer cancelled by `cancel`. The model does not track the set of frames still scheduled in the host. A frame from the earlier chain still runs `_tick` (src/Mutation.js:66-76) after `cancel` or completion has set `_frameHandle` to null (:71, :82). That tick writes a partial state, and when it is not at the end it requests and stores a new frame, so the animation starts again after `cancel`. The precondition `frameHandle.Some?` of `Mutation.Mutation.Tick` excludes this case, so the model does not show it.
- A shape mismatch between the start and the target is excluded by the `Fits` precondition of both tree helpers. The source has no error path for it.

## Findings

| source | as written | input that shows it | evidently intended | confidence | as-written member | corrected member |
|---|---|---|---|---|---|---|
| src/Mutation.js:17 | A leaf is recognised by `endValue >= 0`. A negative target number is walked as an object with no keys, so the partial state gets `{}` in its place. | start `0`, target `-1`, progress 1: the result is `{}`, not `-1` | every numeric leaf is interpolated, whatever its sign | medium, not executed | `ValueTree.NegativeLeafLostAsWritten` | `ValueTree.PartialValuesLeafAt` |
| src/Mutation.js:31 | The same probe in `isAlreadyAtEnd` means a negative target number always counts as reached. | start `0`, target `-1`: the result is `true` | at the end only when the start equals the target | medium, not executed | `ValueTree.NegativeLeafAtEndAsWritten` | `ValueTree.AtEndIffLeavesAgree` |
