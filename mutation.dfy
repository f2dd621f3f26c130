/**
 * The two animation units of src/Mutation.js as objects whose fields change:
 * `Mutation`, which tweens the render state towards a target tree one frame
 * at a time, and `Pause`, which waits for a timer.
 *
 * The host is outside the model. The current state of the render state, the
 * clock reading and the handles that the frame scheduler and the timer hand
 * out come in as method parameters; what the objects do to the host
 * (`updateState`, `requestAnimationFrame`, `cancelAnimationFrame`,
 * `setTimeout`, `clearTimeout`, calling the stored `resolve`) is appended to
 * a ghost log of effects.
 */
module Mutation {
  import opened Wrappers
  import opened ValueTree

  /** A frame or timer handle handed out by the host; never null, and never 0 (which the source would read as none). */
  type Handle = h: nat | h > 0 witness 1

  /** What `run` hands back: a completion already settled, or one left pending. */
  datatype Completion = Settled | Pending

  /** The options a mutation is built with; an absent option is `None`. */
  datatype Options = Options(duration: Option<real>, force: Option<bool>)

  /** One effect on the host, in the order the object performs them. */
  datatype Effect =
    | UpdateState(partial: Tree)
    | RequestFrame(frame: Handle)
    | CancelFrame(frame: Handle)
    | SetTimeout(timer: Handle, delay: real)
    | ClearTimeout(cleared: Option<Handle>)
    | Resolve(run: nat)   // the completion of pending run number `run` is resolved

  /** How often the completion of pending run `run` has been resolved in `log`. */
  ghost function Resolutions(log: seq<Effect>, run: nat): nat {
    multiset(log)[Resolve(run)]
  }

  /**
   * Completion bookkeeping: the pending runs are numbered from 0 up to
   * `runs`; none is resolved twice, none that has not started is resolved,
   * and while a completion is pending (`pending`) run `current` is
   * unresolved.
   */
  ghost predicate ResolvesAtMostOnce(log: seq<Effect>, runs: nat, current: nat, pending: bool) {
    && (forall r: nat :: Resolutions(log, r) <= 1)
    && (forall r: nat :: runs <= r ==> Resolutions(log, r) == 0)
    && (pending ==> current < runs && Resolutions(log, current) == 0)
  }

  lemma ResolutionsAppend(log: seq<Effect>, e: Effect, r: nat)
    ensures Resolutions(log + [e], r) == Resolutions(log, r) + (if e == Resolve(r) then 1 else 0)
  {
    assert multiset(log + [e]) == multiset(log) + multiset{e};
  }

  /** An effect other than a resolution keeps the bookkeeping. */
  lemma OtherEffectKeepsResolutions(log: seq<Effect>, e: Effect, runs: nat, current: nat, pending: bool)
    requires ResolvesAtMostOnce(log, runs, current, pending) && !e.Resolve?
    ensures ResolvesAtMostOnce(log + [e], runs, current, pending)
  {
    forall r: nat ensures Resolutions(log + [e], r) == Resolutions(log, r) {
      ResolutionsAppend(log, e, r);
    }
  }

  /** Resolving the pending run settles it, and it stays resolved once. */
  lemma ResolvePendingKeepsResolutions(log: seq<Effect>, runs: nat, current: nat)
    requires ResolvesAtMostOnce(log, runs, current, true)
    ensures ResolvesAtMostOnce(log + [Resolve(current)], runs, current, false)
    ensures Resolutions(log + [Resolve(current)], current) == 1
  {
    forall r: nat ensures Resolutions(log + [Resolve(current)], r) == Resolutions(log, r) + (if r == current then 1 else 0) {
      ResolutionsAppend(log, Resolve(current), r);
    }
  }

  /** Starting run number `runs` leaves its completion pending and unresolved. */
  lemma StartRunKeepsResolutions(log: seq<Effect>, runs: nat, current: nat, pending: bool)
    requires ResolvesAtMostOnce(log, runs, current, pending)
    ensures ResolvesAtMostOnce(log, runs + 1, runs, true)
  {
  }

  /** The smaller of two numbers, as `Math.min`. */
  function Min(a: real, b: real): (m: real)
    ensures m <= a && m <= b && (m == a || m == b)
  {
    if a < b then a else b
  }

  /**
   * The progress of a tick at time `timing` of a run started at
   * `startTime`: the elapsed share of the duration, clamped above at 1 and
   * not below (src/Mutation.js, `_tick`).
   */
  function Progress(timing: real, startTime: real, duration: real): (p: real)
    requires duration != 0.0
    ensures p <= 1.0
    ensures duration > 0.0 && startTime <= timing ==> 0.0 <= p
    ensures duration > 0.0 ==> (p == 1.0 <==> startTime + duration <= timing)
  {
    Min(1.0, (timing - startTime) / duration)
  }

  /** For a positive duration, later ticks never report less progress. */
  lemma ProgressMonotone(t0: real, t1: real, startTime: real, duration: real)
    requires duration > 0.0 && t0 <= t1
    ensures Progress(t0, startTime, duration) <= Progress(t1, startTime, duration)
  {
    var q0, q1 := (t0 - startTime) / duration, (t1 - startTime) / duration;
    assert q0 * duration == t0 - startTime && q1 * duration == t1 - startTime;
    assert (q1 - q0) * duration == t1 - t0;
  }

  class Mutation {
    /** The target tree (`_values`), already inflated by the caller. */
    const values: Tree
    /** `_duration`: 0 when the option is absent. */
    const duration: real
    /** `_force`: apply the target on cancel. */
    const force: bool
    /** The easing curve; the source's is a cosine curve with ease(0) = 0 and ease(1) = 1. */
    const ease: real -> real

    /** `_resolve` is set: the completion of run `pendingRun` is waiting. */
    var resolve: bool
    /** `_frameHandle`: the frame requested and not delivered or cancelled. */
    var frameHandle: Option<Handle>
    /** `_startState`: the render state captured by value when the run started. */
    var startState: Tree
    /** `_startTime`: the clock reading when the run started. */
    var startTime: real

    ghost var log: seq<Effect>
    ghost var runs: nat
    ghost var pendingRun: nat

    ghost predicate Valid()
      reads this
    {
      && ease(0.0) == 0.0 && ease(1.0) == 1.0
      && ResolvesAtMostOnce(log, runs, pendingRun, resolve)
      && (frameHandle.Some? ==> resolve && duration != 0.0 && Fits(startState, values))
    }

    constructor (values: Tree, options: Options, ease: real -> real)
      requires ease(0.0) == 0.0 && ease(1.0) == 1.0
      ensures Valid()
      ensures this.values == values && this.ease == ease
      ensures duration == options.duration.GetOr(0.0) && force == options.force.GetOr(false)
      ensures !resolve && frameHandle.None?
      ensures log == [] && runs == 0
    {
      this.values := values;
      this.duration := options.duration.GetOr(0.0);
      this.force := options.force.GetOr(false);
      this.ease := ease;
      resolve := false;
      frameHandle := None;
      startState := Node(map[]);
      startTime := 0.0;
      log := [];
      runs := 0;
      pendingRun := 0;
    }

    /**
     * `run`: `state` is the render state's current tree, `now` the clock
     * reading and `frame` the handle the scheduler returns if asked.
     * A zero duration applies the target at once; a state already at the
     * target does nothing; otherwise the run starts and its first frame is
     * requested.
     */
    method Run(state: Tree, now: real, frame: Handle) returns (completion: Completion)
      requires Valid() && (duration != 0.0 ==> Fits(state, values))
      modifies this
      ensures Valid()
      ensures duration == 0.0 ==>
        && completion == Settled
        && log == old(log) + [UpdateState(values)]
        && resolve == old(resolve) && frameHandle == old(frameHandle)
        && startState == old(startState) && startTime == old(startTime)
        && runs == old(runs) && pendingRun == old(pendingRun)
      ensures duration != 0.0 && IsAlreadyAtEnd(state, values) ==>
        && completion == Settled
        && log == old(log)
        && resolve == old(resolve) && frameHandle == old(frameHandle)
        && startState == old(startState) && startTime == old(startTime)
        && runs == old(runs) && pendingRun == old(pendingRun)
      ensures duration != 0.0 && !IsAlreadyAtEnd(state, values) ==>
        && completion == Pending
        && log == old(log) + [RequestFrame(frame)]
        && resolve && frameHandle == Some(frame)
        && startState == state && startTime == now
        && runs == old(runs) + 1 && pendingRun == old(runs)
    {
      if duration == 0.0 {
        OtherEffectKeepsResolutions(log, UpdateState(values), runs, pendingRun, resolve);
        log := log + [UpdateState(values)];
      }
      if duration == 0.0 || IsAlreadyAtEnd(state, values) {
        return Settled;
      }
      startState := state;
      startTime := now;
      frameHandle := Some(frame);
      OtherEffectKeepsResolutions(log, RequestFrame(frame), runs, pendingRun, resolve);
      log := log + [RequestFrame(frame)];
      StartRunKeepsResolutions(log, runs, pendingRun, resolve);
      resolve := true;
      pendingRun := runs;
      runs := runs + 1;
      completion := Pending;
    }

    /**
     * `_tick`: the requested frame is delivered at time `timing`; `next` is
     * the handle the scheduler returns if another frame is requested.
     * The partial state for the eased progress is applied; at eased progress
     * 1 the frame handle is dropped and the run is cancelled, otherwise the
     * next frame is requested.
     */
    method Tick(timing: real, next: Handle)
      requires Valid() && frameHandle.Some?
      modifies this
      ensures Valid()
      ensures startState == old(startState) && startTime == old(startTime)
      ensures runs == old(runs) && pendingRun == old(pendingRun)
      ensures
        var eased := ease(Progress(timing, startTime, duration));
        var partial := GetPartialValues(startState, values, eased);
        if eased == 1.0 then
          && !resolve && frameHandle.None?
          && log == old(log) + [UpdateState(partial), Resolve(pendingRun)]
                            + (if force then [UpdateState(values)] else [])
        else
          && resolve && frameHandle == Some(next)
          && log == old(log) + [UpdateState(partial), RequestFrame(next)]
      ensures duration > 0.0 && startTime + duration <= timing ==>
        && !resolve && frameHandle.None?
        && log[|old(log)|] == UpdateState(values)
        && Resolutions(log, pendingRun) == 1
    {
      var progress := Progress(timing, startTime, duration);
      var eased := ease(progress);
      OtherEffectKeepsResolutions(log, UpdateState(GetPartialValues(startState, values, eased)), runs, pendingRun, resolve);
      log := log + [UpdateState(GetPartialValues(startState, values, eased))];
      if eased == 1.0 {
        frameHandle := None;
        Cancel();
      } else {
        frameHandle := Some(next);
        OtherEffectKeepsResolutions(log, RequestFrame(next), runs, pendingRun, resolve);
        log := log + [RequestFrame(next)];
      }
      if duration > 0.0 && startTime + duration <= timing {
        PartialValuesAtOne(startState, values);
      }
    }

    /**
     * `cancel`: resolves the pending completion if there is one, cancels the
     * requested frame if there is one, and applies the target when `force`
     * is set. Calling it again, or before any run, resolves nothing.
     */
    method Cancel()
      requires Valid()
      modifies this
      ensures Valid()
      ensures !resolve && frameHandle.None?
      ensures startState == old(startState) && startTime == old(startTime)
      ensures runs == old(runs) && pendingRun == old(pendingRun)
      ensures log == old(log)
        + (if old(resolve) then [Resolve(pendingRun)] else [])
        + (if old(frameHandle).Some? then [CancelFrame(old(frameHandle).value)] else [])
        + (if force then [UpdateState(values)] else [])
    {
      if resolve {
        ResolvePendingKeepsResolutions(log, runs, pendingRun);
        log := log + [Resolve(pendingRun)];
      }
      resolve := false;
      if frameHandle.Some? {
        OtherEffectKeepsResolutions(log, CancelFrame(frameHandle.value), runs, pendingRun, resolve);
        log := log + [CancelFrame(frameHandle.value)];
      }
      frameHandle := None;
      if force {
        OtherEffectKeepsResolutions(log, UpdateState(values), runs, pendingRun, resolve);
        log := log + [UpdateState(values)];
      }
    }
  }

  class Pause {
    /** `_duration`: the delay handed to the timer. */
    const duration: real

    /** `_resolve` is set: the completion of run `pendingRun` is waiting. */
    var resolve: bool
    /** `_timeout`: the last timer set; it is not cleared by `cancel`. */
    var timeout: Option<Handle>

    ghost var log: seq<Effect>
    ghost var runs: nat
    ghost var pendingRun: nat

    ghost predicate Valid()
      reads this
    {
      && ResolvesAtMostOnce(log, runs, pendingRun, resolve)
      && (resolve ==> timeout.Some?)
    }

    constructor (duration: real)
      ensures Valid()
      ensures this.duration == duration
      ensures !resolve && timeout.None?
      ensures log == [] && runs == 0
    {
      this.duration := duration;
      resolve := false;
      timeout := None;
      log := [];
      runs := 0;
      pendingRun := 0;
    }

    /**
     * `run`: leaves a pending completion and sets a timer for `duration`;
     * `timer` is the handle the host returns. When the timer fires the host
     * calls `Cancel`.
     */
    method Run(timer: Handle) returns (completion: Completion)
      requires Valid()
      modifies this
      ensures Valid()
      ensures completion == Pending
      ensures resolve && timeout == Some(timer)
      ensures log == old(log) + [SetTimeout(timer, duration)]
      ensures runs == old(runs) + 1 && pendingRun == old(runs)
    {
      resolve := true;
      pendingRun := runs;
      runs := runs + 1;
      timeout := Some(timer);
      OtherEffectKeepsResolutions(log, SetTimeout(timer, duration), runs, pendingRun, resolve);
      log := log + [SetTimeout(timer, duration)];
      completion := Pending;
    }

    /**
     * `cancel`: clears the timer (whatever is stored, even nothing) and
     * resolves the pending completion if there is one; afterwards nothing is
     * pending, so a second call or the timer firing late resolves nothing.
     */
    method Cancel()
      requires Valid()
      modifies this
      ensures Valid()
      ensures !resolve && timeout == old(timeout)
      ensures runs == old(runs) && pendingRun == old(pendingRun)
      ensures log == old(log) + [ClearTimeout(old(timeout))]
        + (if old(resolve) then [Resolve(pendingRun)] else [])
    {
      OtherEffectKeepsResolutions(log, ClearTimeout(timeout), runs, pendingRun, resolve);
      log := log + [ClearTimeout(timeout)];
      if resolve {
        ResolvePendingKeepsResolutions(log, runs, pendingRun);
        log := log + [Resolve(pendingRun)];
      }
      resolve := false;
    }
  }
}
