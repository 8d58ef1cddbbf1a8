/**
 * The life of a pyuv handle object: its Python reference count, the PYREF flag, the close protocol, and
 * the resurrection of a dropped but still open handle until libuv has let go of it.
 *
 * `Apply` is the specification, one transition per operation of the extension or callback of the loop;
 * the methods of class `Handle` are proved to perform it. Every reference to a handle is owned by
 * somebody: the program, a request in flight, a running callback, the PYREF flag, or the pending close.
 * The ledger part of `State` counts the owners, and the invariant says that the reference count is their
 * sum. All safety results are consequences of that balance over whole runs.
 *
 * Python's cycle collector is one more actor: it may clear the loop reference of a handle all of whose
 * owners are garbage. After that the source may dereference a null loop, or use a loop object that is
 * gone. The model takes such a step, which ends the run; when it happens is stated exactly. The loop is
 * one that the program made, not the default loop, so its `uv_loop_t` goes with the object.
 */
module HandleLifetime {
  /** What libuv thinks of the handle embedded in the object. */
  datatype Phase =
    | Unset                    // never given to libuv
    | Open
    | Closing(byUser: bool)    // uv_close called, from close() or from the deallocator
    | CloseRunning             // inside the callback of close()
    | Closed

  datatype State = State(
    refcnt: int, freed: bool, pyref: bool, initialized: bool, phase: Phase, active: bool, hasLoop: bool,
    user: int, inflight: int, frames: int, resurrections: int, closeRuns: int, cleared: bool)

  datatype Outcome = Done | NotInitialized | AlreadyInitialized | HandleClosed | BadCallback | UvError(code: int)

  datatype Action =
    | Init | Start(err: int) | Stop(err: int) | Again(err: int, armed: bool) | Submit(err: int) | Close(callable: bool)
    | Incref | Decref | Borrow | Collect
    | Fire(armed: bool) | Complete | FrameEnd | CloseBegin | CloseEnd | DeallocClose

  function B(b: bool): int { if b then 1 else 0 }

  // ---- Reference counting --------------------------------------------------------------------------

  function Inc(s: State): State { s.(refcnt := s.refcnt + 1) }

  /** The deallocator: close and resurrect an open handle, free any other. */
  function Dealloc(s: State): State {
    if s.initialized && s.phase.Open? then
      s.(phase := Closing(false), active := false, refcnt := s.refcnt + 1, resurrections := s.resurrections + 1)
    else
      s.(freed := true, hasLoop := false)
  }

  function Dec(s: State): State {
    var t := s.(refcnt := s.refcnt - 1);
    if t.refcnt == 0 then Dealloc(t) else t
  }

  function Hold(s: State): State { if s.pyref then s else Inc(s.(pyref := true)) }

  function Release(s: State): State { if s.pyref then Dec(s.(pyref := false)) else s }

  // ---- Transitions ---------------------------------------------------------------------------------

  function Fresh(): State { State(1, false, false, false, Unset, false, false, 1, 0, 0, 0, 0, false) }

  /** Registered with the loop: visible to `uv_walk`. */
  predicate Registered(s: State) { s.phase.Open? || s.phase.Closing? }

  /** The reference taken by `close()`, or by the deallocator, has not been given back. */
  predicate CloseHolds(s: State) { s.phase.Closing? || s.phase.CloseRunning? }

  /** The checks at the head of every operation. */
  function Check(s: State): Outcome {
    if !s.initialized then NotInitialized else if !s.phase.Open? then HandleClosed else Done
  }

  /** What a call reports when libuv answers `err`. */
  function Report(s: State, err: int): Outcome {
    if Check(s) != Done then Check(s) else if err < 0 then UvError(err) else Done
  }

  /** Every reference to the object is one the collector can see: libuv and its callbacks hold none. */
  predicate OnlyPythonHolds(s: State) {
    s.user > 0 && s.inflight == 0 && s.frames == 0 && !s.pyref && !CloseHolds(s)
  }

  /** Somebody who can make calls has the object: the program, or a callback with its argument. */
  predicate InHand(s: State) { s.user > 0 || s.frames > 0 || s.phase.CloseRunning? }

  /**
   * Calls need a reference held by the caller, or the argument of a running callback; callbacks need only
   * what libuv itself knows.
   */
  predicate Enabled(s: State, a: Action) {
    match a
    case Decref => s.user > 0
    case Borrow => Registered(s)
    case Fire(_) => s.phase.Open? && s.active
    case Complete => s.inflight > 0
    case FrameEnd => s.frames > 0
    case CloseBegin => s.phase == Closing(true) && s.inflight == 0
    case CloseEnd => s.phase.CloseRunning?
    case DeallocClose => s.phase == Closing(false) && s.inflight == 0
    case Collect => OnlyPythonHolds(s)
    case _ => InHand(s)
  }

  function Apply(s: State, a: Action): State {
    match a
    case Init => if s.initialized then s else s.(hasLoop := true, pyref := false, initialized := true, phase := Open)
    case Start(err) => if Report(s, err) != Done then s else Hold(s.(active := true))
    case Stop(err) => if Report(s, err) != Done then s else Release(s.(active := false))
    case Again(err, armed) => if Report(s, err) != Done then s else s.(active := armed)
    case Submit(err) => if Report(s, err) != Done then s else Inc(s.(inflight := s.inflight + 1))
    case Close(callable) =>
      if Check(s) != Done || !callable then s else Inc(s).(phase := Closing(true), active := false)
    case Incref => Inc(s.(user := s.user + 1))
    case Borrow => Inc(s.(user := s.user + 1))
    case Decref => Dec(s.(user := s.user - 1))
    case Collect => s.(hasLoop := false, cleared := s.cleared || s.hasLoop)
    case Fire(armed) => Inc(s.(frames := s.frames + 1, active := armed))
    case Complete => s.(inflight := s.inflight - 1, frames := s.frames + 1)
    case FrameEnd => Dec(s.(frames := s.frames - 1))
    case CloseBegin => s.(phase := CloseRunning, closeRuns := s.closeRuns + 1)
    // without a loop the source dereferences a null pointer: see Faulty
    case CloseEnd => if !s.hasLoop then s else Dec(Release(s.(phase := Closed, hasLoop := false)))
    case DeallocClose => Dec(s.(phase := Closed, closeRuns := s.closeRuns + 1))
  }

  // ---- The invariant -------------------------------------------------------------------------------

  /** The reference count is the number of owners, and an object with no owner is gone. */
  predicate Balanced(s: State) {
    && s.user >= 0 && s.inflight >= 0 && s.frames >= 0
    && s.refcnt == s.user + s.inflight + s.frames + B(s.pyref) + B(CloseHolds(s))
    && (s.freed <==> s.refcnt == 0)
  }

  predicate Consistent(s: State) {
    && (s.initialized <==> s.phase != Unset)
    && (s.phase.Unset? ==> !s.hasLoop && s.inflight == 0)
    && (s.phase.Open? || CloseHolds(s) ==> (s.hasLoop <==> !s.cleared))
    && (s.cleared ==> s.initialized)
    && (s.freed ==> !s.hasLoop && (s.phase.Unset? || s.phase.Closed?))
    && (s.active ==> s.phase.Open?)
    && (s.inflight > 0 ==> s.phase.Open? || s.phase == Closing(true))
    && (s.pyref ==> s.phase.Open? || s.phase == Closing(true) || s.phase.CloseRunning?)
    && s.resurrections == B(s.resurrections > 0)
    && (s.resurrections > 0 ==> s.phase == Closing(false) || s.phase.Closed?)
    && s.closeRuns == B(s.phase.CloseRunning? || s.phase.Closed?)
  }

  predicate Inv(s: State) { Balanced(s) && Consistent(s) }

  lemma FreshInv()
    ensures Inv(Fresh())
  {
  }

  /** The calls that hand the handle to libuv, start it and stop it. */
  lemma CallInv(s: State, a: Action)
    requires Inv(s) && Enabled(s, a) && (a.Init? || a.Start? || a.Stop? || a.Again?)
    ensures Inv(Apply(s, a))
    ensures Apply(s, a).hasLoop ==> s.hasLoop || a.Init?
    ensures !a.Collect? ==> Apply(s, a).cleared == s.cleared
  {
  }

  lemma SubmitCloseInv(s: State, a: Action)
    requires Inv(s) && Enabled(s, a) && (a.Submit? || a.Close? || a.Collect?)
    ensures Inv(Apply(s, a))
    ensures Apply(s, a).hasLoop ==> s.hasLoop || a.Init?
    ensures !a.Collect? ==> Apply(s, a).cleared == s.cleared
  {
  }

  lemma ReferenceInv(s: State, a: Action)
    requires Inv(s) && Enabled(s, a) && (a.Incref? || a.Decref? || a.Borrow?)
    ensures Inv(Apply(s, a))
    ensures Apply(s, a).hasLoop ==> s.hasLoop || a.Init?
    ensures !a.Collect? ==> Apply(s, a).cleared == s.cleared
  {
  }

  lemma CallbackInv(s: State, a: Action)
    requires Inv(s) && Enabled(s, a) && (a.Fire? || a.Complete? || a.FrameEnd?)
    ensures Inv(Apply(s, a))
    ensures Apply(s, a).hasLoop ==> s.hasLoop || a.Init?
    ensures !a.Collect? ==> Apply(s, a).cleared == s.cleared
  {
  }

  lemma CloseCallbackInv(s: State, a: Action)
    requires Inv(s) && Enabled(s, a) && (a.CloseBegin? || a.CloseEnd? || a.DeallocClose?)
    ensures Inv(Apply(s, a))
    ensures Apply(s, a).hasLoop ==> s.hasLoop || a.Init?
    ensures !a.Collect? ==> Apply(s, a).cleared == s.cleared
  {
  }

  /** Every operation and callback that can happen keeps the balance, and none touches a freed object. */
  lemma StepInv(s: State, a: Action)
    requires Inv(s) && Enabled(s, a)
    ensures !s.freed && s.refcnt >= 1
    ensures Inv(Apply(s, a))
    ensures Apply(s, a).hasLoop ==> s.hasLoop || a.Init?
    ensures !a.Collect? ==> Apply(s, a).cleared == s.cleared
  {
    match a
    case Init | Start(_) | Stop(_) | Again(_, _) => CallInv(s, a);
    case Submit(_) | Close(_) | Collect => SubmitCloseInv(s, a);
    case Incref | Decref | Borrow => ReferenceInv(s, a);
    case Fire(_) | Complete | FrameEnd => CallbackInv(s, a);
    case CloseBegin | CloseEnd | DeallocClose => CloseCallbackInv(s, a);
  }

  /** Stop and the end of the close callback are the only ways to lose PYREF. */
  predicate DropsPyref(s: State, a: Action) { a.CloseEnd? || (a.Stop? && Report(s, a.err) == Done) }

  /**
   * A started handle stays alive, keeps its one PYREF reference and its loop reference until stop()
   * succeeds or close() finishes: the collector cannot take it.
   */
  lemma StartedStaysAlive(s: State, a: Action)
    requires Inv(s) && Enabled(s, a) && s.pyref && !DropsPyref(s, a)
    ensures !a.Collect?
    ensures Apply(s, a).pyref && !Apply(s, a).freed && Apply(s, a).hasLoop == s.hasLoop
  {
  }

  /**
   * A handle dropped by its only owner while open is closed and comes back exactly once; the close
   * callback then frees it and gives its reference on the loop back.
   */
  lemma DroppedHandleIsFreed(s: State)
    requires Inv(s) && s.phase.Open? && s.refcnt == 1 && s.user == 1
    ensures var t := Apply(s, Decref);
            && !t.freed && t.refcnt == 1 && t.resurrections == 1 && t.hasLoop == s.hasLoop
            && Enabled(t, DeallocClose)
            && Apply(t, DeallocClose).freed && !Apply(t, DeallocClose).hasLoop
  {
  }

  // ---- Runs of many handles on one loop --------------------------------------------------------------

  /** `broken`: the source has dereferenced a null loop, or used the loop object after its end. */
  datatype System = System(
    handles: seq<State>, loopUser: int, loopCount: int, loopFreed: bool, broken: bool)

  datatype Step = NewHandle | LoopIncref | LoopDecref | On(i: nat, a: Action)

  function LoopRefs(hs: seq<State>): (n: int)
    ensures n >= 0
  {
    if hs == [] then 0 else B(hs[0].hasLoop) + LoopRefs(hs[1..])
  }

  /** Steps made from inside `Loop.run`, or with the loop object as an argument. */
  predicate NeedsLoop(a: Action) {
    a.Init? || a.Borrow? || a.Fire? || a.Complete? || a.FrameEnd? || a.CloseBegin? || a.CloseEnd? || a.DeallocClose?
  }

  /** The program can get at the loop object through its own reference or as the `loop` of a handle. */
  predicate SysEnabled(y: System, s: Step) {
    && !y.broken
    && match s
       case NewHandle => true
       case LoopIncref =>
         y.loopUser > 0 || exists i :: 0 <= i < |y.handles| && y.handles[i].hasLoop && InHand(y.handles[i])
       case LoopDecref => y.loopUser > 0
       case On(i, a) => i < |y.handles| && Enabled(y.handles[i], a) && (NeedsLoop(a) ==> y.loopUser > 0)
  }

  /**
   * Steps on an open handle that call libuv, which uses the loop the handle was initialised on: the calls,
   * and the end of the last reference, where the deallocator calls `uv_close`.
   */
  predicate EntersUv(h: State, a: Action) {
    && Check(h) == Done
    && match a
       case Start(_) => true
       case Stop(_) => true
       case Again(_, _) => true
       case Submit(_) => true
       case Close(callable) => callable
       case Decref => h.refcnt == 1
       case FrameEnd => h.refcnt == 1
       case _ => false
  }

  /** What no program survives. */
  predicate Faulty(y: System, i: nat, a: Action)
    requires i < |y.handles|
  {
    (a.CloseEnd? && !y.handles[i].hasLoop) || (EntersUv(y.handles[i], a) && y.loopFreed)
  }

  /** The loop object's count changes by `d`; reaching zero frees it. */
  function MoveLoop(y: System, d: int): System {
    y.(loopCount := y.loopCount + d, loopFreed := y.loopFreed || (d < 0 && y.loopCount + d == 0))
  }

  /** Handle `i` becomes `h`, with what that means for the loop object. */
  function SysPut(y: System, i: nat, h: State): System
    requires i < |y.handles|
  {
    MoveLoop(y, B(h.hasLoop) - B(y.handles[i].hasLoop)).(handles := y.handles[i := h])
  }

  function SysApply(y: System, s: Step): System
    requires SysEnabled(y, s)
  {
    match s
    case NewHandle => y.(handles := y.handles + [Fresh()])
    case LoopIncref => MoveLoop(y.(loopUser := y.loopUser + 1), 1)
    case LoopDecref => MoveLoop(y.(loopUser := y.loopUser - 1), -1)
    case On(i, a) =>
      if Faulty(y, i, a) then y.(broken := true) else SysPut(y, i, Apply(y.handles[i], a))
  }

  function Start0(): System { System([], 1, 1, false, false) }

  predicate SysInv(y: System) {
    && y.loopUser >= 0
    && y.loopCount == y.loopUser + LoopRefs(y.handles)
    && (y.loopFreed <==> y.loopCount == 0)
    && (forall i :: 0 <= i < |y.handles| ==> Inv(y.handles[i]))
  }

  lemma {:induction false} LoopRefsUpdate(hs: seq<State>, i: nat, h: State)
    requires i < |hs|
    ensures LoopRefs(hs[i := h]) == LoopRefs(hs) + B(h.hasLoop) - B(hs[i].hasLoop)
    ensures LoopRefs(hs) >= B(hs[i].hasLoop)
  {
    if i == 0 {
      assert hs[0 := h][1..] == hs[1..];
    } else {
      LoopRefsUpdate(hs[1..], i - 1, h);
      assert hs[i := h][1..] == hs[1..][i - 1 := h];
    }
  }

  lemma {:induction false} LoopRefsAppend(hs: seq<State>, h: State)
    ensures LoopRefs(hs + [h]) == LoopRefs(hs) + B(h.hasLoop)
    decreases |hs|
  {
    if hs == [] {
      assert ([h])[1..] == [];
    } else {
      LoopRefsAppend(hs[1..], h);
      assert (hs + [h])[1..] == hs[1..] + [h];
    }
  }

  lemma PutInv(y: System, i: nat, h: State)
    requires SysInv(y) && i < |y.handles| && Inv(h)
    requires h.hasLoop && !y.handles[i].hasLoop ==> y.loopUser > 0
    ensures SysInv(SysPut(y, i, h))
  {
    LoopRefsUpdate(y.handles, i, h);
    var hs := y.handles[i := h];
    forall j | 0 <= j < |hs| ensures Inv(hs[j]) {
      if j != i { assert hs[j] == y.handles[j]; }
    }
  }

  lemma OneHandleStep(y: System, i: nat, a: Action)
    requires SysInv(y) && SysEnabled(y, On(i, a))
    ensures SysInv(SysApply(y, On(i, a)))
  {
    StepInv(y.handles[i], a);
    if !Faulty(y, i, a) { PutInv(y, i, Apply(y.handles[i], a)); }
  }

  lemma NewStepInv(y: System, h: State)
    requires SysInv(y) && Inv(h) && !h.hasLoop
    ensures SysInv(y.(handles := y.handles + [h]))
  {
    LoopRefsAppend(y.handles, h);
    var hs := y.handles + [h];
    forall j | 0 <= j < |hs| ensures Inv(hs[j]) {
      if j < |y.handles| { assert hs[j] == y.handles[j]; }
    }
  }

  predicate IsRun(y: System, run: seq<Step>)
    decreases |run|
  {
    run == [] || (SysEnabled(y, run[0]) && IsRun(SysApply(y, run[0]), run[1..]))
  }

  function Exec(y: System, run: seq<Step>): System
    requires IsRun(y, run)
    decreases |run|
  {
    if run == [] then y else Exec(SysApply(y, run[0]), run[1..])
  }

  lemma SystemStepInv(y: System, s: Step)
    requires SysInv(y) && SysEnabled(y, s)
    ensures SysInv(SysApply(y, s))
  {
    match s
    case NewHandle =>
      FreshInv();
      NewStepInv(y, Fresh());
    case LoopIncref =>
      if i :| 0 <= i < |y.handles| && y.handles[i].hasLoop {
        LoopRefsUpdate(y.handles, i, y.handles[i]);
      }
    case LoopDecref =>
    case On(i, a) => OneHandleStep(y, i, a);
  }

  lemma {:induction false} RunInv(y: System, run: seq<Step>)
    requires SysInv(y) && IsRun(y, run)
    ensures SysInv(Exec(y, run))
    decreases |run|
  {
    if run != [] {
      SystemStepInv(y, run[0]);
      RunInv(SysApply(y, run[0]), run[1..]);
    }
  }

  /** `y` is the outcome of a run that begins with a loop object and no handle. */
  predicate Reached(y: System, run: seq<Step>) { IsRun(Start0(), run) && y == Exec(Start0(), run) }

  lemma {:induction false} RunOn(y: System, run: seq<Step>, s: Step)
    requires IsRun(y, run) && SysEnabled(Exec(y, run), s)
    ensures IsRun(y, run + [s]) && Exec(y, run + [s]) == SysApply(Exec(y, run), s)
    decreases |run|
  {
    if run == [] {
      assert [] + [s] == [s] && [s][1..] == [];
    } else {
      RunOn(SysApply(y, run[0]), run[1..], s);
      assert (run + [s])[1..] == run[1..] + [s];
    }
  }

  /** One step further. */
  lemma ReachedOn(y: System, run: seq<Step>, s: Step) returns (z: System, run': seq<Step>)
    requires Reached(y, run) && SysEnabled(y, s)
    ensures z == SysApply(y, s) && run' == run + [s] && Reached(z, run')
  {
    RunOn(Start0(), run, s);
    z, run' := SysApply(y, s), run + [s];
  }

  lemma ReachedInv(y: System, run: seq<Step>)
    requires Reached(y, run)
    ensures SysInv(y)
  {
    RunInv(Start0(), run);
  }

  predicate Safe(y: System, h: State) {
    && (h.freed ==> !h.initialized || h.phase.Closed?)
    && h.closeRuns <= 1 && (h.freed && h.initialized ==> h.closeRuns == 1)
    && h.resurrections <= 1
    && (Registered(h) ==> !h.freed && h.refcnt >= 1 && (h.hasLoop <==> !h.cleared))
    && (h.hasLoop ==> !y.loopFreed && y.loopCount >= 1)
    && (h.freed <==> h.user == 0 && h.inflight == 0 && h.frames == 0 && !h.pyref && !CloseHolds(h))
  }

  lemma SafeState(y: System, i: nat)
    requires SysInv(y) && i < |y.handles|
    ensures Safe(y, y.handles[i])
  {
    assert Inv(y.handles[i]);
    LoopRefsUpdate(y.handles, i, y.handles[i]);
  }

  /**
   * Over every run: an object is freed only if libuv never saw it or its close callback has run, and then
   * exactly once; no object comes back from its deallocator twice; and while libuv still has a handle
   * registered, the handle object is alive, and so is its loop object unless the collector has cleared
   * the handle. A run in which the source dereferences a null or freed loop ends there.
   */
  lemma LifetimeSafety(y: System, run: seq<Step>, i: nat)
    requires Reached(y, run) && i < |y.handles|
    ensures Safe(y, y.handles[i])
  {
    assert SysInv(y) by { ReachedInv(y, run); }
    SafeState(y, i);
  }

  lemma {:induction false} NoLoopRefs(hs: seq<State>)
    ensures LoopRefs(hs) == 0 <==> forall i :: 0 <= i < |hs| ==> !hs[i].hasLoop
    decreases |hs|
  {
    if hs != [] {
      NoLoopRefs(hs[1..]);
      assert forall i :: 1 <= i < |hs| ==> hs[i] == hs[1..][i - 1];
    }
  }

  /** The loop object goes exactly when the program and every handle have let go of it. */
  lemma LoopFreedExactly(y: System, run: seq<Step>)
    requires Reached(y, run)
    ensures y.loopFreed <==> y.loopUser == 0 && forall i :: 0 <= i < |y.handles| ==> !y.handles[i].hasLoop
  {
    assert SysInv(y) by { ReachedInv(y, run); }
    NoLoopRefs(y.handles);
  }

  lemma TouchState(y: System, i: nat, a: Action)
    requires SysInv(y) && SysEnabled(y, On(i, a))
    ensures !y.handles[i].freed && y.handles[i].refcnt >= 1
    ensures NeedsLoop(a) || y.handles[i].hasLoop ==> !y.loopFreed
    ensures a.CloseEnd? ==> (y.handles[i].hasLoop <==> !y.handles[i].cleared)
  {
    StepInv(y.handles[i], a);
    LoopRefsUpdate(y.handles, i, y.handles[i]);
  }

  /**
   * Whatever can happen next in a run happens to a live object, and finds the loop object alive if it is
   * a callback of the loop or the handle refers to the loop. The loop is missing in exactly two cases:
   * at the end of the close callback of a handle that the collector has cleared, and where a step enters
   * libuv when neither the program nor any handle refers to the loop any more. Neither can befall a
   * handle that still has its loop.
   */
  lemma NothingTouchesTheFreed(y: System, run: seq<Step>, i: nat, a: Action)
    requires Reached(y, run) && SysEnabled(y, On(i, a))
    ensures !y.handles[i].freed && y.handles[i].refcnt >= 1
    ensures NeedsLoop(a) || y.handles[i].hasLoop ==> !y.loopFreed
    ensures Faulty(y, i, a) <==>
      || (a.CloseEnd? && y.handles[i].cleared)
      || (EntersUv(y.handles[i], a) && y.loopUser == 0 && forall j :: 0 <= j < |y.handles| ==> !y.handles[j].hasLoop)
    ensures y.handles[i].hasLoop ==> !Faulty(y, i, a)
  {
    assert SysInv(y) by { ReachedInv(y, run); }
    TouchState(y, i, a);
    LoopFreedExactly(y, run);
  }

  /** No freed handle keeps the loop object. */
  lemma AllReleased(y: System, run: seq<Step>)
    requires Reached(y, run)
    requires y.loopUser == 0 && forall i :: 0 <= i < |y.handles| ==> y.handles[i].freed
    ensures y.loopFreed
  {
    LoopFreedExactly(y, run);
    forall i | 0 <= i < |y.handles| ensures !y.handles[i].hasLoop {
      assert Inv(y.handles[i]) by { ReachedInv(y, run); }
    }
  }

  /** The loop object goes under a handle that libuv still knows only where the collector cleared the handle. */
  lemma LoopOutlivesHandle(y: System, run: seq<Step>, i: nat)
    requires Reached(y, run) && i < |y.handles| && Registered(y.handles[i]) && y.loopFreed
    ensures y.handles[i].cleared
  {
    LifetimeSafety(y, run, i);
  }

  /** The first three steps of the runs below: an open handle, cleared by the collector. */
  lemma ClearedHandle() returns (y: System, run: seq<Step>)
    ensures Reached(y, run) && run == [NewHandle, On(0, Init), On(0, Collect)] && !y.broken
    ensures |y.handles| == 1 && y.handles[0].phase.Open? && y.handles[0].initialized && y.handles[0].cleared
    ensures !y.handles[0].hasLoop && y.handles[0].user == y.handles[0].refcnt == 1 && y.handles[0].inflight == 0
    ensures y.loopUser == y.loopCount == 1 && !y.loopFreed
  {
    y, run := ReachedOn(Start0(), [], NewHandle);
    assert y.handles == [Fresh()];
    y, run := ReachedOn(y, run, On(0, Init));
    y, run := ReachedOn(y, run, On(0, Collect));
  }

  /** The collector does that: an open handle in a garbage cycle loses its loop, which goes with the last user. */
  lemma CollectorFreesTheLoop() returns (y: System, run: seq<Step>)
    ensures run == [NewHandle, On(0, Init), On(0, Collect), LoopDecref] && Reached(y, run)
    ensures |y.handles| == 1 && y.loopFreed && Registered(y.handles[0])
    ensures SysEnabled(y, On(0, Decref)) && EntersUv(y.handles[0], Decref)
  {
    y, run := ClearedHandle();
    y, run := ReachedOn(y, run, LoopDecref);
  }

  /** Then dropping the handle closes it on a loop object that is gone. */
  lemma DroppedOnAFreedLoop() returns (y: System, run: seq<Step>)
    ensures run == [NewHandle, On(0, Init), On(0, Collect), LoopDecref, On(0, Decref)]
    ensures Reached(y, run) && y.broken && y.loopFreed
  {
    y, run := CollectorFreesTheLoop();
    y, run := ReachedOn(y, run, On(0, Decref));
  }

  /** And the close callback of a cleared handle gives a loop reference back that is not there. */
  lemma ClosedWithoutLoop() returns (y: System, run: seq<Step>)
    ensures run == [NewHandle, On(0, Init), On(0, Collect), On(0, Close(true)), On(0, CloseBegin), On(0, CloseEnd)]
    ensures Reached(y, run) && y.broken && !y.loopFreed
  {
    y, run := ClearedHandle();
    y, run := ReachedOn(y, run, On(0, Close(true)));
    y, run := ReachedOn(y, run, On(0, CloseBegin));
    assert y.handles[0].phase.CloseRunning? && !y.handles[0].hasLoop;
    y, run := ReachedOn(y, run, On(0, CloseEnd));
  }

  predicate ClosedByUser(s: State) { s.phase == Closing(true) || s.phase.CloseRunning? }

  lemma CloseKeepsLoop(s: State, a: Action)
    requires Inv(s) && Enabled(s, a) && ClosedByUser(s) && !a.CloseEnd?
    ensures ClosedByUser(Apply(s, a)) && Apply(s, a).hasLoop == s.hasLoop
  {
  }

  lemma {:induction false} ClosingKeepsLoop(y: System, run: seq<Step>, i: nat)
    requires SysInv(y) && IsRun(y, run) && i < |y.handles| && ClosedByUser(y.handles[i])
    requires forall k :: 0 <= k < |run| && run[k].On? && run[k].i == i ==> !run[k].a.CloseEnd?
    ensures i < |Exec(y, run).handles| && ClosedByUser(Exec(y, run).handles[i])
    ensures Exec(y, run).handles[i].hasLoop == y.handles[i].hasLoop
    decreases |run|
  {
    if run != [] {
      SystemStepInv(y, run[0]);
      if run[0].On? && run[0].i == i { CloseKeepsLoop(y.handles[i], run[0].a); }
      ClosingKeepsLoop(SysApply(y, run[0]), run[1..], i);
    }
  }

  /**
   * Whether the close callback will find its loop is settled when close() is called: in every run from the
   * call to the end of the callback, that end is faulty if and only if the handle had no loop at the call,
   * which the caller can see as `handle.loop`.
   */
  lemma CloseNeedsLoop(y: System, i: nat, run: seq<Step>)
    requires SysInv(y) && SysEnabled(y, On(i, Close(true))) && Check(y.handles[i]) == Done
    requires !Faulty(y, i, Close(true)) && IsRun(SysApply(y, On(i, Close(true))), run)
    requires forall k :: 0 <= k < |run| && run[k].On? && run[k].i == i ==> !run[k].a.CloseEnd?
    ensures var z := Exec(SysApply(y, On(i, Close(true))), run);
      i < |z.handles| && (Faulty(z, i, CloseEnd) <==> !y.handles[i].hasLoop)
  {
    SystemStepInv(y, On(i, Close(true)));
    ClosingKeepsLoop(SysApply(y, On(i, Close(true))), run, i);
  }

  predicate Uncleared(y: System) { forall i :: 0 <= i < |y.handles| ==> !y.handles[i].cleared }

  lemma UnclearedStep(y: System, s: Step)
    requires SysInv(y) && SysEnabled(y, s) && Uncleared(y) && !(s.On? && s.a.Collect?)
    ensures Uncleared(SysApply(y, s)) && !SysApply(y, s).broken
  {
    if s.On? {
      TouchState(y, s.i, s.a);
      StepInv(y.handles[s.i], s.a);
    }
  }

  /** Without the collector nothing of the kind happens, in any run. */
  lemma {:induction false} NoFaultWithoutCollector(y: System, run: seq<Step>)
    requires SysInv(y) && IsRun(y, run) && Uncleared(y) && !y.broken
    requires forall k :: 0 <= k < |run| ==> !(run[k].On? && run[k].a.Collect?)
    ensures !Exec(y, run).broken
    decreases |run|
  {
    if run != [] {
      SystemStepInv(y, run[0]);
      UnclearedStep(y, run[0]);
      NoFaultWithoutCollector(SysApply(y, run[0]), run[1..]);
    }
  }

  /** A started handle keeps its loop object alive through any run that neither stops nor closes it. */
  lemma {:induction false} StartedKeepsLoop(y: System, run: seq<Step>, i: nat)
    requires SysInv(y) && IsRun(y, run) && i < |y.handles| && y.handles[i].pyref && y.handles[i].hasLoop
    requires NoStop(run, i)
    ensures i < |Exec(y, run).handles| && Exec(y, run).handles[i].pyref && Exec(y, run).handles[i].hasLoop
    ensures !Exec(y, run).loopFreed
    decreases |run|
  {
    if run == [] {
      LoopRefsUpdate(y.handles, i, y.handles[i]);
    } else {
      SystemStepInv(y, run[0]);
      if run[0].On? && run[0].i == i {
        StartedStaysAlive(y.handles[i], run[0].a);
      }
      assert forall k :: 0 <= k < |run[1..]| ==> run[1..][k] == run[k + 1];
      StartedKeepsLoop(SysApply(y, run[0]), run[1..], i);
    }
  }

  /** No call that could stop handle `i`, and no end of its close callback. A stop that libuv refuses does not count. */
  predicate NoStop(run: seq<Step>, i: nat) {
    forall k :: 0 <= k < |run| && run[k].On? && run[k].i == i ==>
      !run[k].a.CloseEnd? && (run[k].a.Stop? ==> run[k].a.err < 0)
  }

  predicate Never(run: seq<Step>, i: nat, a: Action) {
    forall k :: 0 <= k < |run| ==> run[k] != On(i, a)
  }

  /**
   * A successful start is what it takes to keep a handle: from then on, in every run without a stop or the end
   * of a close, whatever the program drops, the handle and its loop are not freed and never resurrected.
   */
  lemma StartKeepsAlive(y: System, i: nat, err: int, run: seq<Step>)
    requires SysInv(y) && SysEnabled(y, On(i, Start(err))) && Report(y.handles[i], err) == Done
    requires y.handles[i].hasLoop && IsRun(SysApply(y, On(i, Start(err))), run) && NoStop(run, i)
    ensures SysApply(y, On(i, Start(err))).handles[i].active
    ensures var z := Exec(SysApply(y, On(i, Start(err))), run);
      && i < |z.handles| && z.handles[i].pyref && z.handles[i].hasLoop
      && !z.handles[i].freed && z.handles[i].resurrections == 0 && !z.loopFreed
  {
    var z := SysApply(y, On(i, Start(err)));
    TouchState(y, i, Start(err));
    SystemStepInv(y, On(i, Start(err)));
    StartedKeepsLoop(z, run, i);
    RunInv(z, run);
    assert Inv(Exec(z, run).handles[i]);
  }

  // ---- Who owns what, and for how long -----------------------------------------------------------------

  predicate Accepted(s: State, a: Action) {
    match a
    case Init => !s.initialized
    case Start(err) => Report(s, err) == Done
    case Stop(err) => Report(s, err) == Done
    case Again(err, _) => Report(s, err) == Done
    case Submit(err) => Report(s, err) == Done
    case Close(callable) => Check(s) == Done && callable
    case CloseEnd => s.hasLoop
    case _ => true
  }

  /** The last reference to an open handle goes. */
  predicate Abandons(s: State, a: Action) { (a.Decref? || a.FrameEnd?) && s.refcnt == 1 && s.phase.Open? }

  /** Owner by owner, what an operation adds and takes away. The balance turns this into the reference count. */
  predicate OwnersMove(s: State, a: Action, t: State) {
    var ok := Accepted(s, a);
    && t.user == s.user + B(a.Incref? || a.Borrow?) - B(a.Decref?)
    && t.inflight == s.inflight + B(a.Submit? && ok) - B(a.Complete?)
    && t.frames == s.frames + B(a.Fire? || a.Complete?) - B(a.FrameEnd?)
    && (t.pyref <==> (s.pyref || (a.Start? && ok)) && !(a.Stop? && ok) && !(a.CloseEnd? && ok))
    && (CloseHolds(t) <==>
          (CloseHolds(s) || (a.Close? && ok) || Abandons(s, a)) && !(a.CloseEnd? && ok) && !a.DeallocClose?)
    && (t.hasLoop <==> (s.hasLoop || (a.Init? && ok)) && !a.Collect? && !(a.CloseEnd? && ok) && !t.freed)
    && (t.cleared <==> s.cleared || (a.Collect? && s.hasLoop))
  }

  /** Where the handle stands with libuv. */
  predicate PhaseMoves(s: State, a: Action, t: State) {
    var ok := Accepted(s, a);
    && (t.initialized <==> s.initialized || a.Init?)
    && t.phase == (if a.Init? && ok then Open
                   else if a.Close? && ok then Closing(true)
                   else if Abandons(s, a) then Closing(false)
                   else if a.CloseBegin? then CloseRunning
                   else if (a.CloseEnd? && ok) || a.DeallocClose? then Closed
                   else s.phase)
    && (t.active <==> if a.Start? && ok then true
                      else if a.Stop? && ok then false
                      else if (a.Again? && ok) || a.Fire? then a.armed
                      else s.active && t.phase.Open?)
    && t.closeRuns == s.closeRuns + B(a.CloseBegin? || a.DeallocClose?)
    && t.resurrections == s.resurrections + B(Abandons(s, a))
  }

  lemma CallChanges(s: State, a: Action)
    requires Inv(s) && Enabled(s, a) && (a.Init? || a.Start? || a.Stop? || a.Again?)
    ensures OwnersMove(s, a, Apply(s, a)) && PhaseMoves(s, a, Apply(s, a))
  {
  }

  lemma SubmitCloseChanges(s: State, a: Action)
    requires Inv(s) && Enabled(s, a) && (a.Submit? || a.Close? || a.Collect?)
    ensures OwnersMove(s, a, Apply(s, a)) && PhaseMoves(s, a, Apply(s, a))
  {
  }

  lemma ReferenceChanges(s: State, a: Action)
    requires Inv(s) && Enabled(s, a) && (a.Incref? || a.Decref? || a.Borrow?)
    ensures OwnersMove(s, a, Apply(s, a)) && PhaseMoves(s, a, Apply(s, a))
  {
  }

  lemma CallbackChanges(s: State, a: Action)
    requires Inv(s) && Enabled(s, a) && (a.Fire? || a.Complete? || a.FrameEnd?)
    ensures OwnersMove(s, a, Apply(s, a)) && PhaseMoves(s, a, Apply(s, a))
  {
  }

  lemma CloseCallbackChanges(s: State, a: Action)
    requires Inv(s) && Enabled(s, a) && (a.CloseBegin? || a.CloseEnd? || a.DeallocClose?)
    ensures OwnersMove(s, a, Apply(s, a)) && PhaseMoves(s, a, Apply(s, a))
  {
  }

  /**
   * Libuv is entered on an open handle by the calls that it has to answer, and where the handle is closed. A
   * watcher's event is the loop's own doing.
   */
  lemma EntersUvExactly(s: State, a: Action)
    requires Inv(s) && Enabled(s, a) && Check(s) == Done && !a.Fire?
    ensures EntersUv(s, a) <==>
      a.Start? || a.Stop? || a.Again? || a.Submit? || Apply(s, a).phase != s.phase
  {
  }

  /** What a call reports: the state of the handle first, then libuv's error. */
  lemma ReportMeans(s: State, err: int)
    requires Inv(s)
    ensures Report(s, err) == Done <==> s.initialized && s.phase.Open? && err >= 0
    ensures forall c :: Report(s, err) == UvError(c) <==> s.initialized && s.phase.Open? && err == c < 0
    ensures Report(s, err) == NotInitialized <==> s.phase.Unset?
    ensures Report(s, err) == HandleClosed <==> CloseHolds(s) || s.phase.Closed?
  {
  }

  /** What can happen next does happen in some run: libuv and the program are free to go on in all these ways. */
  lemma NothingIsHeldUp(s: State, b: bool, err: int)
    requires Inv(s)
    ensures s.phase.Open? && s.active ==> Enabled(s, Fire(b))
    ensures s.inflight > 0 ==> Enabled(s, Complete)
    ensures s.frames > 0 ==> Enabled(s, FrameEnd)
    ensures s.phase.Open? || s.phase.Closing? ==> Enabled(s, Borrow)
    ensures s.phase.Closing? && s.inflight == 0 ==> Enabled(s, if s.phase.byUser then CloseBegin else DeallocClose)
    ensures s.phase.CloseRunning? ==> Enabled(s, CloseEnd)
    ensures s.user > 0 ==> Enabled(s, Decref)
    ensures s.user > 0 && s.refcnt == s.user ==> Enabled(s, Collect)
    ensures s.user > 0 || s.frames > 0 || s.phase.CloseRunning? ==>
      && Enabled(s, Init) && Enabled(s, Start(err)) && Enabled(s, Stop(err)) && Enabled(s, Again(err, b))
      && Enabled(s, Submit(err)) && Enabled(s, Close(b)) && Enabled(s, Incref)
  {
  }

  /** The owners of a handle and its standing with libuv change as the operations say, and in no other way. */
  lemma Changes(s: State, a: Action)
    requires Inv(s) && Enabled(s, a)
    ensures OwnersMove(s, a, Apply(s, a)) && PhaseMoves(s, a, Apply(s, a))
  {
    match a
    case Init | Start(_) | Stop(_) | Again(_, _) => CallChanges(s, a);
    case Submit(_) | Close(_) | Collect => SubmitCloseChanges(s, a);
    case Incref | Decref | Borrow => ReferenceChanges(s, a);
    case Fire(_) | Complete | FrameEnd => CallbackChanges(s, a);
    case CloseBegin | CloseEnd | DeallocClose => CloseCallbackChanges(s, a);
  }

  /** A request in flight keeps its handle: no close callback, no collection and no deallocation until it is done. */
  predicate Requested(s: State) { s.inflight > 0 && (s.phase.Open? || s.phase == Closing(true)) && !s.freed }

  lemma RequestedStep(s: State, a: Action, n: nat)
    requires Inv(s) && Enabled(s, a) && Requested(s) && s.inflight > n && (a.Complete? ==> n > 0)
    ensures Requested(Apply(s, a)) && Apply(s, a).hasLoop == s.hasLoop
    ensures Apply(s, a).inflight > n - B(a.Complete?)
  {
    StepInv(s, a);
    Changes(s, a);
  }

  function Completions(run: seq<Step>, i: nat): nat {
    if run == [] then 0 else (if run[0] == On(i, Complete) then 1 else 0) + Completions(run[1..], i)
  }

  lemma {:induction false} RequestedRun(y: System, i: nat, run: seq<Step>, n: nat)
    requires SysInv(y) && IsRun(y, run) && i < |y.handles| && Requested(y.handles[i]) && y.handles[i].inflight > n
    requires Completions(run, i) <= n
    ensures var z := Exec(y, run);
      i < |z.handles| && Requested(z.handles[i]) && z.handles[i].hasLoop == y.handles[i].hasLoop
    decreases |run|
  {
    if run != [] {
      var n' := if run[0] == On(i, Complete) then n - 1 else n;
      SystemStepInv(y, run[0]);
      if run[0].On? && run[0].i == i { RequestedStep(y.handles[i], run[0].a, n); }
      RequestedRun(SysApply(y, run[0]), i, run[1..], n');
    }
  }

  /**
   * An accepted request keeps its handle until it is delivered: in every run from the call that delivers no more
   * requests of the handle than were in flight before it, the handle is alive, with its loop, and not closed.
   */
  lemma RequestKeepsAlive(y: System, i: nat, err: int, run: seq<Step>)
    requires SysInv(y) && SysEnabled(y, On(i, Submit(err))) && Report(y.handles[i], err) == Done
    requires !Faulty(y, i, Submit(err)) && IsRun(SysApply(y, On(i, Submit(err))), run)
    requires Completions(run, i) <= y.handles[i].inflight
    ensures var z := Exec(SysApply(y, On(i, Submit(err))), run);
      && i < |z.handles| && !z.handles[i].freed && z.handles[i].closeRuns == 0 && z.handles[i].resurrections == 0
      && z.handles[i].hasLoop == y.handles[i].hasLoop
  {
    var z := SysApply(y, On(i, Submit(err)));
    var h := y.handles[i];
    SystemStepInv(y, On(i, Submit(err)));
    Changes(h, Submit(err));
    RequestedRun(z, i, run, h.inflight);
    RunInv(z, run);
    assert Inv(Exec(z, run).handles[i]);
  }

  function Returns(run: seq<Step>, i: nat): nat {
    if run == [] then 0 else (if run[0] == On(i, FrameEnd) then 1 else 0) + Returns(run[1..], i)
  }

  lemma {:induction false} FramesRun(y: System, i: nat, run: seq<Step>, n: nat)
    requires SysInv(y) && IsRun(y, run) && i < |y.handles| && y.handles[i].frames > n && Returns(run, i) <= n
    ensures i < |Exec(y, run).handles| && Exec(y, run).handles[i].frames > 0
    decreases |run|
  {
    if run != [] {
      var n' := if run[0] == On(i, FrameEnd) then n - 1 else n;
      SystemStepInv(y, run[0]);
      if run[0].On? && run[0].i == i {
        Changes(y.handles[i], run[0].a);
        FrameNotFaulty(y, i, run[0].a);
      }
      FramesRun(SysApply(y, run[0]), i, run[1..], n');
    }
  }

  lemma FrameNotFaulty(y: System, i: nat, a: Action)
    requires SysInv(y) && SysEnabled(y, On(i, a))
    ensures SysApply(y, On(i, a)).handles[i] == if Faulty(y, i, a) then y.handles[i] else Apply(y.handles[i], a)
  {
  }

  /** A running callback keeps its handle until it returns, whatever else is dropped, stopped or closed in it. */
  lemma CallbackKeepsAlive(y: System, i: nat, a: Action, run: seq<Step>)
    requires SysInv(y) && SysEnabled(y, On(i, a)) && (a.Fire? || a.Complete?)
    requires IsRun(SysApply(y, On(i, a)), run) && Returns(run, i) <= y.handles[i].frames
    ensures var z := Exec(SysApply(y, On(i, a)), run);
      i < |z.handles| && z.handles[i].frames > 0 && !z.handles[i].freed
  {
    var z := SysApply(y, On(i, a));
    SystemStepInv(y, On(i, a));
    Changes(y.handles[i], a);
    FramesRun(z, i, run, y.handles[i].frames);
    RunInv(z, run);
    assert Inv(Exec(z, run).handles[i]);
  }

  /** No call that could make handle `i` active. */
  predicate NoStart(run: seq<Step>, i: nat) {
    forall k :: 0 <= k < |run| && run[k].On? && run[k].i == i ==>
      (run[k].a.Start? ==> run[k].a.err < 0) && (run[k].a.Again? ==> run[k].a.err < 0 || !run[k].a.armed)
  }

  lemma {:induction false} SilentRun(y: System, i: nat, run: seq<Step>)
    requires SysInv(y) && IsRun(y, run) && i < |y.handles| && !y.handles[i].active && NoStart(run, i)
    ensures i < |Exec(y, run).handles| && !Exec(y, run).handles[i].active
    decreases |run|
  {
    if run != [] {
      SystemStepInv(y, run[0]);
      if run[0].On? && run[0].i == i { Changes(y.handles[i], run[0].a); }
      assert forall k :: 0 <= k < |run[1..]| ==> run[1..][k] == run[k + 1];
      SilentRun(SysApply(y, run[0]), i, run[1..]);
    }
  }

  /** After a successful stop, or a close, the callback is not called in any run without another start. */
  lemma StoppedIsSilent(y: System, i: nat, a: Action, run: seq<Step>, armed: bool)
    requires SysInv(y) && SysEnabled(y, On(i, a)) && (a.Stop? || a.Close?) && Accepted(y.handles[i], a)
    requires !Faulty(y, i, a) && IsRun(SysApply(y, On(i, a)), run) && NoStart(run, i)
    ensures var z := Exec(SysApply(y, On(i, a)), run);
      i < |z.handles| && !Enabled(z.handles[i], Fire(armed))
  {
    SystemStepInv(y, On(i, a));
    Changes(y.handles[i], a);
    SilentRun(SysApply(y, On(i, a)), i, run);
  }

  lemma {:induction false} ClosedRun(y: System, i: nat, run: seq<Step>)
    requires SysInv(y) && IsRun(y, run) && i < |y.handles| && y.handles[i].initialized && !y.handles[i].phase.Open?
    ensures var z := Exec(y, run);
      i < |z.handles| && z.handles[i].initialized && !z.handles[i].phase.Open?
    decreases |run|
  {
    if run != [] {
      SystemStepInv(y, run[0]);
      if run[0].On? && run[0].i == i { Changes(y.handles[i], run[0].a); }
      ClosedRun(SysApply(y, run[0]), i, run[1..]);
    }
  }

  lemma {:induction false} CloseWaits(y: System, i: nat, run: seq<Step>)
    requires SysInv(y) && IsRun(y, run) && i < |y.handles| && y.handles[i].phase == Closing(true)
    requires Never(run, i, CloseBegin)
    ensures i < |Exec(y, run).handles| && Exec(y, run).handles[i].phase == Closing(true)
    decreases |run|
  {
    if run != [] {
      SystemStepInv(y, run[0]);
      if run[0].On? && run[0].i == i { Changes(y.handles[i], run[0].a); }
      assert forall k :: 0 <= k < |run[1..]| ==> run[1..][k] == run[k + 1];
      CloseWaits(SysApply(y, run[0]), i, run[1..]);
    }
  }

  /**
   * An accepted close() is final: in every run from it each further call reports that the handle is closed. Until
   * the close callback begins the handle is alive, and the callback can begin once no request is in flight.
   */
  lemma CloseIsFinal(y: System, i: nat, run: seq<Step>)
    requires SysInv(y) && SysEnabled(y, On(i, Close(true))) && Check(y.handles[i]) == Done
    requires !Faulty(y, i, Close(true)) && IsRun(SysApply(y, On(i, Close(true))), run)
    ensures var z := Exec(SysApply(y, On(i, Close(true))), run);
      && i < |z.handles| && Check(z.handles[i]) == HandleClosed
      && (Never(run, i, CloseBegin) ==>
            && !z.handles[i].freed && z.handles[i].closeRuns == 0
            && (z.handles[i].inflight == 0 ==> Enabled(z.handles[i], CloseBegin)))
  {
    var z := SysApply(y, On(i, Close(true)));
    SystemStepInv(y, On(i, Close(true)));
    Changes(y.handles[i], Close(true));
    ClosedRun(z, i, run);
    if Never(run, i, CloseBegin) { CloseWaits(z, i, run); }
    RunInv(z, run);
    assert Inv(Exec(z, run).handles[i]);
  }

  /** A handle object reports that it was not initialised until it is, and never again. */
  lemma {:induction false} UntilInit(y: System, i: nat, run: seq<Step>)
    requires SysInv(y) && IsRun(y, run) && i < |y.handles| && !y.handles[i].initialized && Never(run, i, Init)
    ensures i < |Exec(y, run).handles| && !Exec(y, run).handles[i].initialized
    ensures Check(Exec(y, run).handles[i]) == NotInitialized
    decreases |run|
  {
    if run != [] {
      SystemStepInv(y, run[0]);
      if run[0].On? && run[0].i == i { Changes(y.handles[i], run[0].a); }
      assert forall k :: 0 <= k < |run[1..]| ==> run[1..][k] == run[k + 1];
      UntilInit(SysApply(y, run[0]), i, run[1..]);
    }
  }

  lemma {:induction false} OnceInitialized(y: System, i: nat, run: seq<Step>)
    requires SysInv(y) && IsRun(y, run) && i < |y.handles| && y.handles[i].initialized
    ensures i < |Exec(y, run).handles| && Exec(y, run).handles[i].initialized
    ensures Check(Exec(y, run).handles[i]) != NotInitialized
    decreases |run|
  {
    if run != [] {
      SystemStepInv(y, run[0]);
      if run[0].On? && run[0].i == i { Changes(y.handles[i], run[0].a); }
      OnceInitialized(SysApply(y, run[0]), i, run[1..]);
    }
  }

  /** The program may make handles, and take and drop references to the loop wherever it can get at one. */
  lemma ProgramIsFree(y: System, i: nat)
    requires !y.broken
    ensures SysEnabled(y, NewHandle)
    ensures y.loopUser > 0 ==> SysEnabled(y, LoopIncref) && SysEnabled(y, LoopDecref)
    ensures i < |y.handles| && y.handles[i].hasLoop && (y.handles[i].user > 0 || y.handles[i].frames > 0) ==>
      SysEnabled(y, LoopIncref)
  {
  }

  /** An operation changes its own handle only; the program's references to the loop are its own affair. */
  lemma SystemChanges(y: System, s: Step, i: nat)
    requires SysInv(y) && SysEnabled(y, s) && i < |y.handles|
    ensures var z := SysApply(y, s);
      && |z.handles| == |y.handles| + B(s.NewHandle?)
      && (!s.On? || s.i != i ==> z.handles[i] == y.handles[i])
      && z.loopUser == y.loopUser + B(s.LoopIncref?) - B(s.LoopDecref?)
      && z.loopCount == z.loopUser + LoopRefs(z.handles)
  {
    SystemStepInv(y, s);
  }

  // ---- The objects ---------------------------------------------------------------------------------

  class Loop {
    var refcnt: int
    var freed: bool

    method IncRef()
      requires !freed
      modifies this`refcnt
      ensures refcnt == old(refcnt) + 1
    {
      refcnt := refcnt + 1;
    }

    method DecRef()
      requires !freed && refcnt > 0
      modifies this
      ensures refcnt == old(refcnt) - 1
      ensures freed == (refcnt == 0)
    {
      refcnt := refcnt - 1;
      if refcnt == 0 {
        freed := true;
      }
    }
  }

  class Handle {
    var refcnt: int
    var freed: bool
    var pyref: bool
    var initialized: bool
    var phase: Phase
    var active: bool
    var loop: Loop?
    ghost var user: int
    ghost var inflight: int
    ghost var frames: int
    ghost var resurrections: int
    ghost var closeRuns: int
    ghost var cleared: bool

    ghost function Spec(): State
      reads this
    {
      State(refcnt, freed, pyref, initialized, phase, active, loop != null, user, inflight, frames, resurrections,
            closeRuns, cleared)
    }

    /** The loop object a handle refers to is alive. */
    ghost predicate LoopAlive()
      reads this, loop
    {
      loop != null ==> !loop.freed && loop.refcnt > 0
    }

    /** The only effect on the loop object is that a dropped reference is given back. */
    twostate predicate LoopKept(l: Loop?)
      reads this, l
    {
      && (loop == l || loop == null)
      && (l != null ==>
            if loop == null then l.refcnt == old(l.refcnt) - 1 && l.freed == (l.refcnt == 0)
            else l.refcnt == old(l.refcnt) && l.freed == old(l.freed))
    }

    constructor ()
      ensures Spec() == Fresh() && refcnt == user == 1 && !initialized && !pyref && !active && loop == null
    {
      refcnt, freed, pyref, initialized, phase, active, loop := 1, false, false, false, Unset, false, null;
      user, inflight, frames, resurrections, closeRuns, cleared := 1, 0, 0, 0, 0, false;
    }

    method IncRef()
      requires !freed
      modifies this`refcnt
      ensures Spec() == Inc(old(Spec()))
    {
      refcnt := refcnt + 1;
    }

    method DropLoop()
      requires loop != null && !loop.freed && loop.refcnt > 0
      modifies this`loop, loop
      ensures loop == null && LoopKept(old(loop))
      ensures Spec() == old(Spec()).(hasLoop := false)
    {
      loop.DecRef();
      loop := null;
    }

    /** `tp_clear`, run by the deallocator and by the collector. */
    method TpClear()
      requires LoopAlive()
      modifies this`loop, loop
      ensures loop == null && LoopKept(old(loop))
      ensures Spec() == old(Spec()).(hasLoop := false)
    {
      if loop != null {
        DropLoop();
      }
    }

    /** The collector has found that only garbage refers to this handle. */
    method CollectCall()
      requires Inv(Spec()) && Enabled(Spec(), Collect) && LoopAlive()
      modifies this, loop
      ensures Spec() == Apply(old(Spec()), Collect) && LoopKept(old(loop))
    {
      cleared := cleared || loop != null;
      TpClear();
    }

    method TpDealloc()
      requires !freed && refcnt == 0 && LoopAlive()
      modifies this, loop
      ensures Spec() == Dealloc(old(Spec())) && LoopKept(old(loop))
    {
      if initialized && phase.Open? {
        phase, active := Closing(false), false;
        refcnt := refcnt + 1;
        resurrections := resurrections + 1;
        return;
      }
      TpClear();
      freed := true;
    }

    method DecRef()
      requires !freed && refcnt > 0 && LoopAlive()
      modifies this, loop
      ensures Spec() == Dec(old(Spec())) && LoopKept(old(loop))
    {
      refcnt := refcnt - 1;
      if refcnt == 0 {
        TpDealloc();
      }
    }

    method HandleIncref()
      requires !freed
      modifies this
      ensures Spec() == Hold(old(Spec())) && loop == old(loop)
      ensures pyref && refcnt == old(refcnt) + B(!old(pyref))
    {
      if !pyref {
        pyref := true;
        IncRef();
      }
    }

    method HandleDecref()
      requires !freed && refcnt > 0 && LoopAlive()
      modifies this, loop
      ensures Spec() == Release(old(Spec())) && LoopKept(old(loop))
      ensures !pyref && (!old(pyref) ==> refcnt == old(refcnt))
      ensures old(pyref && refcnt > 1) ==> refcnt == old(refcnt) - 1
    {
      if pyref {
        pyref := false;
        DecRef();
      }
    }

    /** `tp_init`: hand the embedded handle to libuv and take a reference on the loop. */
    method TpInit(l: Loop) returns (r: Outcome)
      requires Inv(Spec()) && Enabled(Spec(), Init) && !l.freed && l.refcnt > 0
      modifies this, l
      ensures Spec() == Apply(old(Spec()), Init)
      ensures r == if old(initialized) then AlreadyInitialized else Done
      ensures loop == if r == Done then l else old(loop)
      ensures l.refcnt == old(l.refcnt) + B(r == Done) && !l.freed
    {
      if initialized {
        return AlreadyInitialized;
      }
      l.IncRef();
      loop := l;
      pyref := false;
      initialized := true;
      phase := Open;
      return Done;
    }

    /** The handle checks shared by all operations. */
    method Guard() returns (r: Outcome)
      requires !freed
      ensures r == Check(Spec())
    {
      if !initialized {
        return NotInitialized;
      }
      if !phase.Open? {
        return HandleClosed;
      }
      return Done;
    }

    /** `Timer.start`, `Stream.start_read`: libuv answers `err`. */
    method StartCall(err: int) returns (r: Outcome)
      requires Inv(Spec()) && Enabled(Spec(), Start(err))
      modifies this
      ensures Spec() == Apply(old(Spec()), Start(err)) && loop == old(loop)
      ensures r == Report(old(Spec()), err) && (r == Done ==> pyref && active)
    {
      r := Guard();
      if r != Done { return; }
      if err < 0 { return UvError(err); }
      active := true;
      HandleIncref();
    }

    /** `Timer.stop`, `Stream.stop_read`. The caller's own reference keeps the object from going here. */
    method StopCall(err: int) returns (r: Outcome)
      requires Inv(Spec()) && Enabled(Spec(), Stop(err)) && LoopAlive()
      modifies this, loop
      ensures Spec() == Apply(old(Spec()), Stop(err)) && loop == old(loop) && LoopKept(old(loop))
      ensures r == Report(old(Spec()), err) && (r == Done ==> !pyref && !active) && !freed
    {
      r := Guard();
      if r != Done { return; }
      if err < 0 { return UvError(err); }
      active := false;
      HandleDecref();
    }

    /** `Timer.again`: rearms a repeating timer without touching the PYREF flag. */
    method AgainCall(err: int, armed: bool) returns (r: Outcome)
      requires Inv(Spec()) && Enabled(Spec(), Again(err, armed))
      modifies this
      ensures Spec() == Apply(old(Spec()), Again(err, armed)) && loop == old(loop)
      ensures r == Report(old(Spec()), err) && pyref == old(pyref) && (r == Done ==> active == armed)
    {
      r := Guard();
      if r != Done { return; }
      if err < 0 { return UvError(err); }
      active := armed;
    }

    /** `Stream.shutdown`, `Stream.write`: a request in flight owns a reference. */
    method SubmitCall(err: int) returns (r: Outcome)
      requires Inv(Spec()) && Enabled(Spec(), Submit(err))
      modifies this
      ensures Spec() == Apply(old(Spec()), Submit(err)) && loop == old(loop)
      ensures r == Report(old(Spec()), err)
      ensures r == Done ==> inflight == old(inflight) + 1 && refcnt == old(refcnt) + 1
    {
      r := Guard();
      if r != Done { return; }
      if err < 0 { return UvError(err); }
      inflight := inflight + 1;
      IncRef();
    }

    method CloseCall(callable: bool) returns (r: Outcome)
      requires Inv(Spec()) && Enabled(Spec(), Close(callable))
      modifies this
      ensures Spec() == Apply(old(Spec()), Close(callable)) && loop == old(loop)
      ensures r == if Check(old(Spec())) != Done then Check(old(Spec())) else if callable then Done else BadCallback
      ensures r == Done ==> phase == Closing(true) && !active && refcnt == old(refcnt) + 1
    {
      r := Guard();
      if r != Done { return; }
      if !callable { return BadCallback; }
      IncRef();
      phase, active := Closing(true), false;
    }

    /** The loop runs a watcher's callback: entry, up to the call of the Python function. */
    method FireCallback(armed: bool)
      requires Inv(Spec()) && Enabled(Spec(), Fire(armed))
      modifies this
      ensures Spec() == Apply(old(Spec()), Fire(armed)) && loop == old(loop)
      ensures active == armed && frames == old(frames) + 1 && refcnt == old(refcnt) + 1
    {
      active := armed;
      frames := frames + 1;
      IncRef();
    }

    /** The loop delivers a finished request: its reference now belongs to the running callback. */
    ghost method CompleteCallback()
      requires Inv(Spec()) && Enabled(Spec(), Complete)
      modifies this`inflight, this`frames
      ensures Spec() == Apply(old(Spec()), Complete)
    {
      inflight := inflight - 1;
      frames := frames + 1;
    }

    /** A watcher or request callback returns. This may be the last reference. */
    method EndCallback()
      requires Inv(Spec()) && Enabled(Spec(), FrameEnd) && LoopAlive()
      modifies this, loop
      ensures Spec() == Apply(old(Spec()), FrameEnd) && LoopKept(old(loop))
    {
      frames := frames - 1;
      DecRef();
    }

    /**
     * The end of `pyuv__handle_close_cb`, after the Python close callback has returned. Where `ok` is false
     * the source dereferences a null pointer.
     */
    method EndClose() returns (ok: bool)
      requires Inv(Spec()) && Enabled(Spec(), CloseEnd) && LoopAlive()
      modifies this, loop
      ensures (ok <==> old(loop) != null) && (ok ==> phase.Closed? && loop == null && !pyref)
      ensures Spec() == Apply(old(Spec()), CloseEnd) && LoopKept(old(loop))
    {
      if loop == null { return false; }
      phase := Closed;
      DropLoop();
      HandleDecref();
      DecRef();
      return true;
    }

    /** `pyuv__handle_dealloc_close_cb`. */
    method DeallocCloseCallback()
      requires Inv(Spec()) && Enabled(Spec(), DeallocClose) && LoopAlive()
      modifies this, loop
      ensures Spec() == Apply(old(Spec()), DeallocClose) && LoopKept(old(loop))
    {
      phase := Closed;
      closeRuns := closeRuns + 1;
      DecRef();
    }
  }
}
