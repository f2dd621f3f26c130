/**
 * Clients of the two classes: each method drives one object through a
 * short history and asserts what its contracts promise about the effects.
 */
module Scenarios {
  import opened Wrappers
  import opened ValueTree
  import opened Mutation

  /** A zero-duration mutation applies the target at once and requests no frame, forced or not. */
  method ZeroDuration(values: Tree, state: Tree, force: bool)
  {
    var m := new Mutation(values, Options(None, Some(force)), x => x);
    var c := m.Run(state, 0.0, 1);
    assert c == Settled && m.log == [UpdateState(values)] && m.frameHandle.None?;
  }

  /** A state already at the target settles at once and touches nothing. */
  method AlreadyAtEnd(values: Tree)
  {
    AtEndReflexive(values);
    var m := new Mutation(values, Options(Some(100.0), None), x => x);
    var c := m.Run(values, 0.0, 1);
    assert c == Settled && m.log == [] && m.frameHandle.None?;
  }

  /** With `force`, cancelling mid-run cancels the next frame and then applies the exact target. */
  method ForceCancelMidRun(values: Tree, state: Tree)
    requires Fits(state, values) && !IsAlreadyAtEnd(state, values)
  {
    var m := new Mutation(values, Options(Some(100.0), Some(true)), x => x);
    var c := m.Run(state, 0.0, 1);
    assert Progress(50.0, 0.0, 100.0) == 0.5;
    m.Tick(50.0, 2);
    m.Cancel();
    assert m.log[3..] == [Resolve(0), CancelFrame(2), UpdateState(values)];
  }

  /** A second cancel resolves nothing more. */
  method CancelTwice(values: Tree, state: Tree)
    requires Fits(state, values) && !IsAlreadyAtEnd(state, values)
  {
    var m := new Mutation(values, Options(Some(100.0), Some(true)), x => x);
    var c := m.Run(state, 0.0, 1);
    m.Cancel();
    var before := m.log;
    assert Resolutions(before, 0) == 1;
    m.Cancel();
    assert m.log == before + [UpdateState(values)];
    ResolutionsAppend(before, UpdateState(values), 0);
    assert Resolutions(m.log, 0) == 1;
  }

  /** Without `force`, cancelling leaves the last partial state as the last update. */
  method PlainCancelMidRun(values: Tree, state: Tree)
    requires Fits(state, values) && !IsAlreadyAtEnd(state, values)
  {
    var m := new Mutation(values, Options(Some(100.0), None), x => x);
    var c := m.Run(state, 0.0, 1);
    assert Progress(50.0, 0.0, 100.0) == 0.5;
    m.Tick(50.0, 2);
    m.Cancel();
    assert m.log == [RequestFrame(1), UpdateState(GetPartialValues(state, values, 0.5)),
                     RequestFrame(2), Resolve(0), CancelFrame(2)];
  }

  /** A tick at or past the end applies the target and resolves, with no frame left over. */
  method RunToCompletion(values: Tree, state: Tree, ease: real -> real)
    requires Fits(state, values) && !IsAlreadyAtEnd(state, values)
    requires ease(0.0) == 0.0 && ease(1.0) == 1.0
  {
    var m := new Mutation(values, Options(Some(100.0), None), ease);
    var c := m.Run(state, 10.0, 1);
    m.Tick(60.0, 2);
    if m.resolve {
      m.Tick(110.0, 3);
    }
    assert !m.resolve && m.frameHandle.None?;
    assert Resolutions(m.log, 0) == 1;
  }

  /** Cancelling before any run resolves nothing and cancels no frame. */
  method CancelBeforeRun(values: Tree)
  {
    var m := new Mutation(values, Options(Some(100.0), None), x => x);
    m.Cancel();
    assert m.log == [];
  }

  /** A pause cancelled early resolves once; the timer firing afterwards resolves nothing. */
  method PauseCancelledEarly()
  {
    var p := new Pause(100.0);
    var c := p.Run(7);
    assert c == Pending;
    p.Cancel();
    assert p.log == [SetTimeout(7, 100.0), ClearTimeout(Some(7)), Resolve(0)];
    p.Cancel();
    assert p.log == [SetTimeout(7, 100.0), ClearTimeout(Some(7)), Resolve(0), ClearTimeout(Some(7))];
    assert !p.resolve;
  }
}
