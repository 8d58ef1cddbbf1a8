/**
 * The loop's bookkeeping of its handles and requests: the count of handles that keep it alive, the queue
 * of registered handles, the queue of active requests, and the list of closing handles whose callbacks
 * run in passes. A signal handle joins that list only when the signals caught for it have been dispatched.
 *
 * The first part is the transition system and its theorems; the second part has the objects, where the
 * closing list is threaded through the handles themselves, with methods proved to make the transitions.
 */
module LoopHandles {
  import opened Sequences

  /**
   * Flags of one handle, and the signals caught for it and dispatched to it if it is a signal handle.
   * `inClose` says that the loop thread is inside `uv_close` of the handle. `listed` and `cbRuns` are
   * history: whether the handle has been put on the list of closing handles, and how often its close
   * callback was called.
   */
  datatype H = H(
    signal: bool, active: bool, ref: bool, closing: bool, closed: bool, caught: nat, dispatched: nat,
    inClose: bool, listed: bool, cbRuns: nat)

  function NewH(signal: bool): H { H(signal, false, true, false, false, 0, 0, false, false, 0) }

  function StartH(h: H): H { h.(active := true) }

  function StopH(h: H): H { h.(active := false) }

  function RefH(h: H): H { h.(ref := true) }

  function UnrefH(h: H): H { h.(ref := false) }

  function MarkH(h: H): H { h.(closing := true, inClose := true) }

  function ListH(h: H): H { h.(inClose := false, listed := true) }

  function CaughtH(h: H): H { h.(caught := h.caught + 1) }

  function DispatchedH(h: H): H { h.(dispatched := h.dispatched + 1) }

  function CalledH(h: H): H { h.(cbRuns := h.cbRuns + 1) }

  /** Signals for the handle are still on their way. */
  predicate Waits(h: H) { h.signal && h.caught != h.dispatched }

  /** Whether a handle keeps its loop alive. */
  function Weight(h: H): int { if h.active && h.ref then 1 else 0 }

  function Total(hs: seq<H>): (n: int)
    ensures n >= 0
  {
    if hs == [] then 0 else Weight(hs[0]) + Total(hs[1..])
  }

  // ---- The transition system --------------------------------------------------------------------------

  /**
   * `uv_close` marks a handle, stops it, and at its end makes it pending, which puts it on the list, unless
   * signals are on their way to it. `uv__finish_close` marks it closed (`FinishBegin`), unreferences it, and
   * takes it off the handle queue and calls back (`FinishEnd`). What a type does besides are steps between.
   *
   * `queue` holds the registered handles in order, `closing` the list `closing_handles`, newest first,
   * `pass` what is left of the list detached by the current run of the close callbacks, and `finishing`
   * the handle inside `uv__finish_close`, if there is one; `log` records the close callbacks.
   */
  datatype Loop = Loop(
    handles: seq<H>, activeHandles: int, reqs: seq<nat>, queue: seq<nat>,
    closing: seq<nat>, pass: seq<nat>, finishing: seq<nat>, log: seq<nat>)

  datatype Action =
    | Init(signal: bool) | Start(i: nat) | Stop(i: nat) | Ref(i: nat) | Unref(i: nat)
    | Mark(i: nat) | Settle(i: nat) | Catch(i: nat) | Dispatch(i: nat)
    | Register(r: nat) | Unregister(r: nat)
    | BeginPass | FinishBegin | FinishEnd

  predicate Enabled(l: Loop, a: Action) {
    match a
    case Init(_) => true
    case Start(i) => i < |l.handles| && (l.handles[i].signal ==> !l.handles[i].closing)
    case Mark(i) => i < |l.handles| && !l.handles[i].closing && !l.handles[i].closed
    case Settle(i) => i < |l.handles| && l.handles[i].inClose && (l.handles[i].signal ==> !l.handles[i].active)
    case Catch(i) => i < |l.handles| && l.handles[i].signal && l.handles[i].active
    case Dispatch(i) =>
      && i < |l.handles| && l.handles[i].signal && !l.handles[i].inClose
      && l.handles[i].dispatched < l.handles[i].caught
    case Register(r) => r !in l.reqs
    case Unregister(r) => r in l.reqs
    case BeginPass => l.pass == [] && l.finishing == []
    case FinishBegin => l.pass != [] && l.pass[0] < |l.handles| && l.finishing == []
    case FinishEnd => l.finishing != [] && l.finishing[0] < |l.handles|
    case _ => a.i < |l.handles|
  }

  /** Replace handle `i`; the count moves as the macros move it. */
  function Put(l: Loop, i: nat, h: H): Loop
    requires i < |l.handles|
  {
    l.(handles := l.handles[i := h], activeHandles := l.activeHandles + Weight(h) - Weight(l.handles[i]))
  }

  /** `uv__make_close_pending`. */
  function Pend(l: Loop, i: nat, h: H): Loop
    requires i < |l.handles|
  {
    Put(l, i, ListH(h)).(closing := [i] + l.closing)
  }

  /** The step that puts handle `i` on the list. */
  predicate Pends(l: Loop, a: Action)
    requires Enabled(l, a)
  {
    || (a.Settle? && !Waits(l.handles[a.i]))
    || (a.Dispatch? && l.handles[a.i].closing && !Waits(DispatchedH(l.handles[a.i])))
  }

  function Apply(l: Loop, a: Action): Loop
    requires Enabled(l, a)
  {
    match a
    case Init(signal) => l.(handles := l.handles + [NewH(signal)], queue := l.queue + [|l.handles|])
    case Start(i) => Put(l, i, StartH(l.handles[i]))
    case Stop(i) => Put(l, i, StopH(l.handles[i]))
    case Ref(i) => Put(l, i, RefH(l.handles[i]))
    case Unref(i) => Put(l, i, UnrefH(l.handles[i]))
    case Mark(i) => Put(l, i, MarkH(l.handles[i]))
    case Settle(i) =>
      if Pends(l, a) then Pend(l, i, l.handles[i]) else Put(l, i, l.handles[i].(inClose := false))
    case Catch(i) => Put(l, i, CaughtH(l.handles[i]))
    case Dispatch(i) =>
      var h := DispatchedH(l.handles[i]);
      if Pends(l, a) then Pend(l, i, h) else Put(l, i, h)
    case Register(r) => l.(reqs := l.reqs + [r])
    case Unregister(r) => l.(reqs := Without(l.reqs, r))
    case BeginPass => l.(pass := l.closing, closing := [])
    case FinishBegin =>
      var i := l.pass[0];
      Put(l, i, l.handles[i].(closed := true)).(pass := l.pass[1..], finishing := [i])
    case FinishEnd =>
      var i := l.finishing[0];
      Put(l, i, CalledH(l.handles[i])).(finishing := [], queue := Without(l.queue, i), log := l.log + [i])
  }

  // ---- The invariants ---------------------------------------------------------------------------------

  /** The pass and the list together hold exactly the handles that are listed and not yet closed, once each. */
  predicate Lists(l: Loop) {
    var s := l.pass + l.closing;
    && NoRepeats(s)
    && (forall x :: x in s ==> x < |l.handles|)
    && (forall i :: 0 <= i < |l.handles| ==> (i in s <==> l.handles[i].listed && !l.handles[i].closed))
  }

  /**
   * A closing handle that is not inside `uv_close` any more waits for its signals or is on the list, and a
   * signal handle among them has been stopped.
   */
  predicate Closes(h: H) {
    && h.dispatched <= h.caught && (h.inClose ==> h.closing && !h.listed)
    && (h.closing && !h.inClose ==> (h.listed <==> !Waits(h)) && (h.signal ==> !h.active))
  }

  /** A close callback has been called exactly once for each closed handle but the one that is being finished. */
  predicate Flags(l: Loop, i: nat)
    requires i < |l.handles|
  {
    var h := l.handles[i];
    && (h.closed ==> h.listed) && (h.listed ==> h.closing)
    && h.cbRuns == (if h.closed && i !in l.finishing then 1 else 0)
    && (i in l.finishing ==> h.closed)
    && Closes(h)
  }

  predicate Counted(l: Loop) { l.activeHandles == Total(l.handles) }

  predicate Ascending(s: seq<nat>) { forall j, k :: 0 <= j < k < |s| ==> s[j] < s[k] }

  /**
   * A handle is registered from its initialisation until it is closed and about to be called back, in the order
   * of initialisation.
   */
  predicate Registered(l: Loop) {
    && NoRepeats(l.queue) && Ascending(l.queue)
    && (forall x :: x in l.queue ==> x < |l.handles|)
    && (forall i :: 0 <= i < |l.handles| ==> (i in l.queue <==> l.handles[i].cbRuns == 0))
  }

  predicate Inv(l: Loop) {
    && Counted(l) && Lists(l) && Registered(l) && NoRepeats(l.reqs)
    && |l.finishing| <= 1 && (forall x :: x in l.finishing ==> x < |l.handles|)
    && (forall i :: 0 <= i < |l.handles| ==> Flags(l, i))
  }

  lemma {:induction false} TotalPut(hs: seq<H>, i: nat, h: H)
    requires i < |hs|
    ensures Total(hs[i := h]) == Total(hs) + Weight(h) - Weight(hs[i])
    ensures Total(hs) >= Weight(hs[i])
    decreases |hs|
  {
    if i == 0 {
      assert hs[0 := h][1..] == hs[1..];
    } else {
      TotalPut(hs[1..], i - 1, h);
      assert hs[i := h][1..] == hs[1..][i - 1 := h];
    }
  }

  lemma {:induction false} TotalAppend(hs: seq<H>, h: H)
    ensures Total(hs + [h]) == Total(hs) + Weight(h)
    decreases |hs|
  {
    if hs == [] {
      assert (hs + [h])[1..] == [];
    } else {
      TotalAppend(hs[1..], h);
      assert (hs + [h])[1..] == hs[1..] + [h];
    }
  }

  /** One more at the end. */
  lemma AppendOnce(s: seq<nat>, x: nat)
    requires NoRepeats(s) && x !in s
    ensures NoRepeats(s + [x]) && forall y :: y in s + [x] <==> y == x || y in s
  {
    assert s + [] == s && s + [x] + [] == s + [x];
    InsertBetween(s, x, []);
  }

  lemma {:induction false} WithoutAscending(s: seq<nat>, x: nat)
    requires Ascending(s)
    ensures Ascending(Without(s, x))
  {
    if s != [] {
      var r := Without(s[1..], x);
      WithoutAscending(s[1..], x);
      WithoutIn(s[1..], x);
      forall k | 0 <= k < |r| ensures s[0] < r[k] {
        assert r[k] in r;
        var j :| 0 <= j < |s[1..]| && s[1..][j] == r[k];
      }
    }
  }

  lemma InitInv(l: Loop, signal: bool)
    requires Inv(l)
    ensures Inv(Apply(l, Init(signal)))
  {
    var m := Apply(l, Init(signal));
    TotalAppend(l.handles, NewH(signal));
    AppendOnce(l.queue, |l.handles|);
    assert forall k :: 0 <= k < |l.queue| ==> l.queue[k] in l.queue;
    forall i | 0 <= i < |m.handles| ensures Flags(m, i) {
      if i < |l.handles| { assert Flags(l, i); }
    }
  }

  /** Operations that put no handle on a list and take none off. */
  lemma PutInv(l: Loop, i: nat, h: H)
    requires Inv(l) && i < |l.handles| && Closes(h) && (l.handles[i].closing ==> h.closing)
    requires h.listed == l.handles[i].listed && h.closed == l.handles[i].closed && h.cbRuns == l.handles[i].cbRuns
    ensures Inv(Put(l, i, h))
  {
    var m := Put(l, i, h);
    TotalPut(l.handles, i, h);
    forall j | 0 <= j < |m.handles| ensures Flags(m, j) { assert Flags(l, j); }
  }

  /** A handle joins the list. */
  lemma PendInv(l: Loop, i: nat, h: H)
    requires Inv(l) && i < |l.handles| && !l.handles[i].listed && h.closing && Closes(ListH(h))
    requires h.closed == l.handles[i].closed && h.cbRuns == l.handles[i].cbRuns
    ensures Inv(Pend(l, i, h))
  {
    var m := Pend(l, i, h);
    TotalPut(l.handles, i, ListH(h));
    assert Flags(l, i);
    assert m.pass + m.closing == l.pass + [i] + l.closing;
    InsertBetween(l.pass, i, l.closing);
    forall j | 0 <= j < |m.handles| ensures Flags(m, j) { assert Flags(l, j); }
  }

  lemma SettleInv(l: Loop, i: nat)
    requires Inv(l) && Enabled(l, Settle(i))
    ensures Inv(Apply(l, Settle(i)))
  {
    assert Flags(l, i);
    if Pends(l, Settle(i)) {
      PendInv(l, i, l.handles[i]);
    } else {
      PutInv(l, i, l.handles[i].(inClose := false));
    }
  }

  lemma DispatchInv(l: Loop, i: nat)
    requires Inv(l) && Enabled(l, Dispatch(i))
    ensures Inv(Apply(l, Dispatch(i)))
  {
    assert Flags(l, i);
    if Pends(l, Dispatch(i)) {
      PendInv(l, i, DispatchedH(l.handles[i]));
    } else {
      PutInv(l, i, DispatchedH(l.handles[i]));
    }
  }

  lemma FlagInv(l: Loop, a: Action)
    requires Inv(l) && Enabled(l, a) && (a.Start? || a.Stop? || a.Ref? || a.Unref? || a.Mark? || a.Catch?)
    ensures Inv(Apply(l, a))
  {
    assert Flags(l, a.i);
    PutInv(l, a.i, Apply(l, a).handles[a.i]);
  }

  lemma RequestInv(l: Loop, a: Action)
    requires Inv(l) && Enabled(l, a) && (a.Register? || a.Unregister?)
    ensures Inv(Apply(l, a))
  {
    var m := Apply(l, a);
    if a.Register? { AppendOnce(l.reqs, a.r); } else { WithoutNoRepeats(l.reqs, a.r); }
    forall j | 0 <= j < |m.handles| ensures Flags(m, j) { assert Flags(l, j); }
  }

  lemma BeginInv(l: Loop)
    requires Inv(l) && Enabled(l, BeginPass)
    ensures Inv(Apply(l, BeginPass))
  {
    var m := Apply(l, BeginPass);
    assert l.closing + [] == l.closing && [] + l.closing == l.closing;
    forall j | 0 <= j < |m.handles| ensures Flags(m, j) { assert Flags(l, j); }
  }

  lemma FinishBeginInv(l: Loop)
    requires Inv(l) && Enabled(l, FinishBegin)
    ensures Inv(Apply(l, FinishBegin))
  {
    var i, m := l.pass[0], Apply(l, FinishBegin);
    TotalPut(l.handles, i, l.handles[i].(closed := true));
    HeadAlone(l.pass + l.closing);
    assert (l.pass + l.closing)[1..] == m.pass + m.closing;
    forall j | 0 <= j < |m.handles| ensures Flags(m, j) { assert Flags(l, j); }
  }

  lemma FinishEndInv(l: Loop)
    requires Inv(l) && Enabled(l, FinishEnd)
    ensures Inv(Apply(l, FinishEnd))
  {
    var i, m := l.finishing[0], Apply(l, FinishEnd);
    TotalPut(l.handles, i, CalledH(l.handles[i]));
    WithoutIn(l.queue, i);
    WithoutNoRepeats(l.queue, i);
    WithoutAscending(l.queue, i);
    assert l.finishing == [i];
    assert Flags(l, i);
    forall j | 0 <= j < |m.handles| ensures Flags(m, j) { assert Flags(l, j); }
  }

  lemma StepInv(l: Loop, a: Action)
    requires Inv(l) && Enabled(l, a)
    ensures Inv(Apply(l, a))
  {
    match a
    case Init(signal) => InitInv(l, signal);
    case Start(_) | Stop(_) | Ref(_) | Unref(_) | Mark(_) | Catch(_) => FlagInv(l, a);
    case Settle(i) => SettleInv(l, i);
    case Dispatch(i) => DispatchInv(l, i);
    case Register(_) => RequestInv(l, a);
    case Unregister(_) => RequestInv(l, a);
    case BeginPass => BeginInv(l);
    case FinishBegin => FinishBeginInv(l);
    case FinishEnd => FinishEndInv(l);
  }

  // ---- Whole runs -------------------------------------------------------------------------------------

  predicate IsRun(l: Loop, run: seq<Action>)
    decreases |run|
  {
    run == [] || (Enabled(l, run[0]) && IsRun(Apply(l, run[0]), run[1..]))
  }

  function Exec(l: Loop, run: seq<Action>): Loop
    requires IsRun(l, run)
    decreases |run|
  {
    if run == [] then l else Exec(Apply(l, run[0]), run[1..])
  }

  lemma {:induction false} RunInv(l: Loop, run: seq<Action>)
    requires Inv(l) && IsRun(l, run)
    ensures Inv(Exec(l, run))
    decreases |run|
  {
    if run != [] {
      StepInv(l, run[0]);
      RunInv(Apply(l, run[0]), run[1..]);
    }
  }

  /** One run after another. */
  lemma {:induction false} RunOn(l: Loop, run: seq<Action>, more: seq<Action>)
    requires IsRun(l, run) && IsRun(Exec(l, run), more)
    ensures IsRun(l, run + more) && Exec(l, run + more) == Exec(Exec(l, run), more)
    decreases |run|
  {
    if run == [] {
      assert run + more == more;
    } else {
      RunOn(Apply(l, run[0]), run[1..], more);
      assert (run + more)[1..] == run[1..] + more;
    }
  }

  lemma OneStep(l: Loop, a: Action)
    requires Enabled(l, a)
    ensures IsRun(l, [a]) && Exec(l, [a]) == Apply(l, a)
  {
    assert [a][1..] == [];
  }

  function Empty(): (l: Loop)
    ensures Inv(l)
  {
    Loop([], 0, [], [], [], [], [], [])
  }

  /** What some run leads to. */
  ghost predicate Reached(l: Loop) { exists run :: IsRun(Empty(), run) && l == Exec(Empty(), run) }

  lemma ReachedEmpty()
    ensures Reached(Empty())
  {
    assert IsRun(Empty(), []) && Exec(Empty(), []) == Empty();
  }

  lemma ReachedInv(l: Loop)
    requires Reached(l)
    ensures Inv(l)
  {
    var run :| IsRun(Empty(), run) && l == Exec(Empty(), run);
    RunInv(Empty(), run);
  }

  lemma ReachedStep(l: Loop, a: Action)
    requires Reached(l) && Enabled(l, a)
    ensures Reached(Apply(l, a))
  {
    var run :| IsRun(Empty(), run) && l == Exec(Empty(), run);
    OneStep(l, a);
    RunOn(Empty(), run, [a]);
  }

  /** The count is the number of active, referenced handles, and the decrement of any of them cannot underflow. */
  lemma CountIsExact(l: Loop, i: nat)
    requires Reached(l) && i < |l.handles|
    ensures l.activeHandles == Total(l.handles) >= Weight(l.handles[i])
    ensures l.handles[i].cbRuns == if l.handles[i].closed && i !in l.finishing then 1 else 0
  {
    ReachedInv(l);
    TotalPut(l.handles, i, l.handles[i]);
    assert Flags(l, i);
  }

  function B(b: bool): nat { if b then 1 else 0 }

  /** The handles that keep the loop alive. */
  function Keepers(hs: seq<H>): set<nat> { set i: nat | i < |hs| && hs[i].active && hs[i].ref }

  lemma {:induction false} TotalIsSize(hs: seq<H>)
    ensures Total(hs) == |Keepers(hs)|
    decreases |hs|
  {
    if hs != [] {
      var n := |hs| - 1;
      var rest := hs[..n];
      TotalIsSize(rest);
      TotalAppend(rest, hs[n]);
      assert hs == rest + [hs[n]];
      assert Keepers(hs) == if hs[n].active && hs[n].ref then Keepers(rest) + {n} else Keepers(rest);
    }
  }

  /** In every reachable state the count is the number of handles that are both active and referenced. */
  lemma CountIsKeepers(l: Loop)
    requires Reached(l)
    ensures l.activeHandles == |Keepers(l.handles)|
  {
    ReachedInv(l);
    TotalIsSize(l.handles);
  }

  /** Which operation changes which flag of handle `i`. */
  predicate FlagsMove(l: Loop, a: Action, i: nat, h: H, m: H)
    requires Enabled(l, a)
  {
    && (m.active <==> (h.active || a == Start(i)) && a != Stop(i))
    && (m.ref <==> (h.ref || a == Ref(i)) && a != Unref(i))
    && (m.closing <==> h.closing || a == Mark(i))
    && (m.closed <==> h.closed || (a.FinishBegin? && l.pass[0] == i))
    && (m.signal <==> h.signal)
    && m.caught == h.caught + B(a == Catch(i))
    && m.dispatched == h.dispatched + B(a == Dispatch(i))
    && (m.listed <==> h.listed || (Pends(l, a) && a.i == i))
  }

  lemma OneHandleChanges(l: Loop, a: Action, i: nat)
    requires Enabled(l, a) && i < |l.handles|
    requires a.Start? || a.Stop? || a.Ref? || a.Unref? || a.Mark? || a.Catch?
    ensures i < |Apply(l, a).handles| && FlagsMove(l, a, i, l.handles[i], Apply(l, a).handles[i])
  {
  }

  lemma PendingChanges(l: Loop, a: Action, i: nat)
    requires Enabled(l, a) && i < |l.handles| && (a.Settle? || a.Dispatch?)
    ensures i < |Apply(l, a).handles| && FlagsMove(l, a, i, l.handles[i], Apply(l, a).handles[i])
  {
  }

  lemma ListChanges(l: Loop, a: Action, i: nat)
    requires Enabled(l, a) && i < |l.handles|
    requires a.Init? || a.Register? || a.Unregister? || a.BeginPass? || a.FinishBegin? || a.FinishEnd?
    ensures i < |Apply(l, a).handles| && FlagsMove(l, a, i, l.handles[i], Apply(l, a).handles[i])
  {
  }

  lemma FlagsChange(l: Loop, a: Action, i: nat)
    requires Enabled(l, a) && i < |l.handles|
    ensures i < |Apply(l, a).handles| && FlagsMove(l, a, i, l.handles[i], Apply(l, a).handles[i])
  {
    if a.Settle? || a.Dispatch? {
      PendingChanges(l, a, i);
    } else if a.Start? || a.Stop? || a.Ref? || a.Unref? || a.Mark? || a.Catch? {
      OneHandleChanges(l, a, i);
    } else {
      ListChanges(l, a, i);
    }
  }

  /** A new handle is referenced, not active, and the last of the queue. */
  lemma NewHandle(l: Loop, signal: bool)
    requires Reached(l)
    ensures var m, i := Apply(l, Init(signal)), |l.handles|;
      && |m.handles| == i + 1 && m.queue != [] && m.queue[|m.queue| - 1] == i
      && m.handles[i].ref && !m.handles[i].active && !m.handles[i].closing && m.handles[i].signal == signal
      && m.handles[i].caught == m.handles[i].dispatched == 0
      && m.activeHandles == l.activeHandles
  {
  }

  /** `uv__loop_alive`. */
  predicate Alive(l: Loop) { l.activeHandles > 0 || l.reqs != [] || l.closing != [] }

  /**
   * Nothing holds the loop up: a signal caught can be dispatched, a pass begun and finished, a request ended, and
   * handles that are not closing can be started and closed at any time. A closing handle has a next step until it
   * is called back.
   */
  lemma NothingIsHeldUp(l: Loop, i: nat, r: nat)
    requires Reached(l) && i < |l.handles|
    ensures var h := l.handles[i];
      && (!h.closing ==> Enabled(l, Start(i)) && Enabled(l, Mark(i)))
      && (h.signal && h.active ==> Enabled(l, Catch(i)))
      && (h.signal && h.dispatched < h.caught && !h.inClose ==> Enabled(l, Dispatch(i)))
      && Enabled(l, if r in l.reqs then Unregister(r) else Register(r))
      && Enabled(l, if l.finishing != [] then FinishEnd else if l.pass != [] then FinishBegin else BeginPass)
      && (h.closing && h.cbRuns == 0 ==>
            || i in l.finishing || i in l.pass || i in l.closing
            || (h.inClose && Enabled(Apply(l, Stop(i)), Settle(i))) || Enabled(l, Dispatch(i)))
  {
    ReachedInv(l);
    assert Flags(l, i);
    assert i in l.pass + l.closing <==> i in l.pass || i in l.closing;
    assert l.pass != [] ==> l.pass[0] in l.pass + l.closing;
    assert l.finishing != [] ==> l.finishing[0] in l.finishing;
  }

  /**
   * What a reference is for: in every run from a state in which a handle is active and referenced, the loop is
   * alive as long as the handle is not stopped or unreferenced, whatever happens to the others.
   */
  lemma {:induction false} KeepsLoopAlive(l: Loop, run: seq<Action>, i: nat)
    requires Inv(l) && IsRun(l, run) && i < |l.handles| && l.handles[i].active && l.handles[i].ref
    requires Stop(i) !in run && Unref(i) !in run
    ensures i < |Exec(l, run).handles| && Exec(l, run).handles[i].active && Exec(l, run).handles[i].ref
    ensures Alive(Exec(l, run))
    decreases |run|
  {
    if run == [] {
      TotalPut(l.handles, i, l.handles[i]);
    } else {
      FlagsChange(l, run[0], i);
      StepInv(l, run[0]);
      KeepsLoopAlive(Apply(l, run[0]), run[1..], i);
    }
  }

  /** A request keeps the loop alive from its registration on, in every run in which it is not unregistered. */
  lemma {:induction false} RequestKeepsAlive(l: Loop, run: seq<Action>, r: nat)
    requires IsRun(l, run) && (r in l.reqs || (run != [] && run[0] == Register(r))) && Unregister(r) !in run
    ensures r in Exec(l, run).reqs && Alive(Exec(l, run))
    decreases |run|
  {
    if run != [] {
      var m := Apply(l, run[0]);
      if run[0].Unregister? { WithoutIn(l.reqs, run[0].r); }
      assert r in m.reqs;
      RequestKeepsAlive(m, run[1..], r);
    }
  }

  /** Only that: a request unregistered is gone. */
  lemma Unregistered(l: Loop, r: nat)
    requires r in l.reqs
    ensures forall q :: q in Apply(l, Unregister(r)).reqs <==> q in l.reqs && q != r
  {
    WithoutIn(l.reqs, r);
  }

  /** A step after which a handle is active and referenced leaves a loop that is alive. */
  lemma StepKeepsAlive(l: Loop, a: Action, i: nat)
    requires Inv(l) && Enabled(l, a) && i < |l.handles|
    requires Apply(l, a).handles[i].active && Apply(l, a).handles[i].ref
    ensures Alive(Apply(l, a))
  {
    var m := Apply(l, a);
    StepInv(l, a);
    TotalPut(m.handles, i, m.handles[i]);
  }

  /** `uv_ref` of an active handle keeps its loop alive, and so does the start of a referenced one. */
  lemma RefAndStart(l: Loop, i: nat)
    requires Reached(l) && i < |l.handles|
    ensures l.handles[i].active ==> Alive(Apply(l, Ref(i)))
    ensures l.handles[i].ref && Enabled(l, Start(i)) ==> Alive(Apply(l, Start(i)))
  {
    ReachedInv(l);
    if l.handles[i].active { StepKeepsAlive(l, Ref(i), i); }
    if l.handles[i].ref && Enabled(l, Start(i)) { StepKeepsAlive(l, Start(i), i); }
  }

  /**
   * `uv_unref` and a stop take away just what the handle counted for, so that a loop kept alive by it alone
   * is dead.
   */
  lemma UnrefAndStop(l: Loop, i: nat)
    requires Reached(l) && i < |l.handles|
    ensures Apply(l, Unref(i)).activeHandles == l.activeHandles - Weight(l.handles[i])
    ensures Apply(l, Stop(i)).activeHandles == l.activeHandles - Weight(l.handles[i])
    ensures l.reqs == [] && l.closing == [] && l.activeHandles == Weight(l.handles[i]) ==>
      !Alive(Apply(l, Unref(i))) && !Alive(Apply(l, Stop(i)))
  {
  }

  predicate BetweenPasses(l: Loop) { l.pass == [] && l.finishing == [] }

  /** Between two passes, and not inside `uv_close`. */
  predicate AtRest(l: Loop) { BetweenPasses(l) && forall i :: 0 <= i < |l.handles| ==> !l.handles[i].inClose }

  /**
   * A loop that is found dead at rest has no active and referenced handle and no request. The closing
   * handles it still owes a callback are exactly the signal handles with signals caught but not dispatched.
   */
  lemma NothingOwedWhenDead(l: Loop, i: nat)
    requires Reached(l) && AtRest(l) && !Alive(l) && i < |l.handles|
    ensures Weight(l.handles[i]) == 0 && l.reqs == []
    ensures var h := l.handles[i];
      h.closing && h.cbRuns == 0 <==> h.closing && h.signal && h.caught != h.dispatched
  {
    ReachedInv(l);
    assert l.pass + l.closing == [];
    assert Flags(l, i);
    TotalPut(l.handles, i, l.handles[i]);
  }

  lemma ReachedOn(l: Loop, a: Action) returns (m: Loop)
    requires Reached(l) && Enabled(l, a)
    ensures m == Apply(l, a) && Reached(m)
  {
    ReachedStep(l, a);
    m := Apply(l, a);
  }

  /** There are such handles: nothing keeps the loop alive for the sake of a signal under way. */
  lemma SignalOwed() returns (l: Loop)
    ensures Reached(l) && AtRest(l) && !Alive(l)
    ensures |l.handles| == 1 && l.handles[0].closing && l.handles[0].cbRuns == 0
  {
    ReachedEmpty();
    l := ReachedOn(Empty(), Init(true));
    l := ReachedOn(l, Start(0));
    l := ReachedOn(l, Catch(0));
    l := ReachedOn(l, Mark(0));
    l := ReachedOn(l, Stop(0));
    l := ReachedOn(l, Settle(0));
  }

  /** The dispatch of the last of these signals puts the handle on the list. */
  lemma LastSignalPends(l: Loop, i: nat)
    requires Reached(l) && Enabled(l, Dispatch(i)) && l.handles[i].closing
    requires l.handles[i].caught == l.handles[i].dispatched + 1
    ensures Apply(l, Dispatch(i)).closing == [i] + l.closing && Alive(Apply(l, Dispatch(i)))
    ensures !l.handles[i].listed && i !in l.closing && i !in l.pass
  {
    ReachedInv(l);
    assert Flags(l, i);
    assert i !in l.pass + l.closing;
  }

  /** What the running pass still has to call back. */
  function Todo(l: Loop): seq<nat> { l.finishing + l.pass }

  /** `m` has finished a front part of what `l` had detached, and its list has only grown at the front. */
  predicate Snapshot(l: Loop, m: Loop) {
    && |Todo(m)| <= |Todo(l)|
    && Todo(m) == Todo(l)[|Todo(l)| - |Todo(m)|..]
    && m.log == l.log + Todo(l)[..|Todo(l)| - |Todo(m)|]
    && |m.closing| >= |l.closing| && m.closing[|m.closing| - |l.closing|..] == l.closing
  }

  /**
   * Within a pass, whatever its callbacks do, what is left of it is called back in the order of the list
   * it detached; everything closed meanwhile only goes to the next list.
   */
  lemma {:induction false} PassFinishesItsSnapshot(l: Loop, run: seq<Action>)
    requires Inv(l) && IsRun(l, run)
    requires forall k :: 0 <= k < |run| ==> !run[k].BeginPass?
    ensures Snapshot(l, Exec(l, run))
    decreases |run|
  {
    if run != [] {
      var q := Apply(l, run[0]);
      StepInv(l, run[0]);
      assert forall k :: 0 <= k < |run[1..]| ==> run[1..][k] == run[k + 1];
      PassFinishesItsSnapshot(q, run[1..]);
      SnapshotStep(l, q, Exec(q, run[1..]), run[0]);
    }
  }

  /** What a step does to the pass, the list and the log. */
  lemma TodoStep(l: Loop, a: Action)
    requires Enabled(l, a) && !a.BeginPass? && |l.finishing| <= 1
    ensures var q := Apply(l, a);
      if a.FinishEnd? then
        Todo(l) != [] && Todo(q) == Todo(l)[1..] && q.log == l.log + [Todo(l)[0]] && q.closing == l.closing
      else
        Todo(q) == Todo(l) && q.log == l.log && q.closing == (if Pends(l, a) then [a.i] else []) + l.closing
  {
    var q := Apply(l, a);
    assert [] + l.closing == l.closing;
    if a.FinishEnd? {
      assert l.finishing == [l.finishing[0]];
      assert Todo(l)[1..] == l.pass && Todo(q) == l.pass;
    } else if a.FinishBegin? {
      assert Todo(l) == l.pass && [l.pass[0]] + l.pass[1..] == l.pass;
    }
  }

  lemma SnapshotStep(l: Loop, q: Loop, m: Loop, a: Action)
    requires Inv(l) && Enabled(l, a) && q == Apply(l, a) && !a.BeginPass?
    requires Snapshot(q, m)
    ensures Snapshot(l, m)
  {
    TodoStep(l, a);
    if a.FinishEnd? {
      SnapshotFinish(l, q, m);
    } else if Pends(l, a) {
      SnapshotClose(l, q, m, a.i);
    } else {
      SnapshotSame(l, q, m);
    }
  }

  lemma SnapshotSame(l: Loop, q: Loop, m: Loop)
    requires Todo(q) == Todo(l) && q.log == l.log && q.closing == [] + l.closing
    requires Snapshot(q, m)
    ensures Snapshot(l, m)
  {
    assert [] + l.closing == l.closing;
  }

  lemma SnapshotFinish(l: Loop, q: Loop, m: Loop)
    requires Todo(l) != [] && Todo(q) == Todo(l)[1..] && q.log == l.log + [Todo(l)[0]] && q.closing == l.closing
    requires Snapshot(q, m)
    ensures Snapshot(l, m)
  {
    SplitTail(l.log, Todo(l), |Todo(q)| - |Todo(m)|);
  }

  lemma SplitTail(s: seq<nat>, t: seq<nat>, d: nat)
    requires t != [] && d < |t|
    ensures t[1..][d..] == t[d + 1..]
    ensures s + [t[0]] + t[1..][..d] == s + t[..d + 1]
  {
  }

  lemma SnapshotClose(l: Loop, q: Loop, m: Loop, i: nat)
    requires Todo(q) == Todo(l) && q.log == l.log && q.closing == [i] + l.closing
    requires Snapshot(q, m)
    ensures Snapshot(l, m)
  {
    var d := |m.closing| - |q.closing|;
    assert m.closing[d + 1..] == m.closing[d..][1..];
  }

  /** Only the end of `uv__finish_close` calls back. */
  lemma QuietStep(l: Loop, a: Action, i: nat)
    requires Enabled(l, a) && !a.FinishEnd? && i < |l.handles|
    ensures i < |Apply(l, a).handles| && Apply(l, a).handles[i].cbRuns == l.handles[i].cbRuns
  {
  }

  /** It calls back the handle that it has taken from the detached list, which is not there twice. */
  lemma LoudStep(l: Loop, i: nat)
    requires Inv(l) && Enabled(l, FinishEnd) && i < |l.handles|
    ensures var m := Apply(l, FinishEnd);
      && i < |m.handles| && (i in Todo(m) ==> i in Todo(l))
      && m.handles[i].cbRuns == l.handles[i].cbRuns + if i in Todo(l) && i !in Todo(m) then 1 else 0
  {
    var x, m := l.finishing[0], Apply(l, FinishEnd);
    assert l.finishing == [x] && Flags(l, x);
    assert x in l.pass ==> x in l.pass + l.closing;
    assert forall y :: y in Todo(l) <==> y == x || y in l.pass;
    assert Todo(m) == l.pass;
  }

  lemma CallsStep(l: Loop, a: Action, i: nat)
    requires Inv(l) && Enabled(l, a) && !a.BeginPass? && i < |l.handles|
    ensures var m := Apply(l, a);
      && i < |m.handles| && (i in Todo(m) ==> i in Todo(l))
      && m.handles[i].cbRuns == l.handles[i].cbRuns + if i in Todo(l) && i !in Todo(m) then 1 else 0
  {
    if a.FinishEnd? {
      LoudStep(l, i);
    } else {
      TodoStep(l, a);
      QuietStep(l, a, i);
    }
  }

  /** Within a pass a close callback is called once for each handle that it takes from the detached list. */
  lemma {:induction false} PassCalls(l: Loop, run: seq<Action>, i: nat)
    requires Inv(l) && IsRun(l, run) && i < |l.handles|
    requires forall k :: 0 <= k < |run| ==> !run[k].BeginPass?
    ensures var m := Exec(l, run);
      && i < |m.handles| && (i in Todo(m) ==> i in Todo(l))
      && m.handles[i].cbRuns == l.handles[i].cbRuns + if i in Todo(l) && i !in Todo(m) then 1 else 0
    decreases |run|
  {
    if run != [] {
      CallsStep(l, run[0], i);
      StepInv(l, run[0]);
      assert forall k :: 0 <= k < |run[1..]| ==> run[1..][k] == run[k + 1];
      PassCalls(Apply(l, run[0]), run[1..], i);
    }
  }

  lemma LateStep(l: Loop, a: Action, i: nat)
    requires Inv(l) && Enabled(l, a) && !a.BeginPass? && i < |l.handles| && i !in l.pass && !l.handles[i].closed
    ensures var m := Apply(l, a); i < |m.handles| && i !in m.pass && !m.handles[i].closed
  {
    if a.FinishBegin? { assert l.pass == [l.pass[0]] + l.pass[1..]; }
  }

  /** A handle that is not in the detached list when a pass is under way is not finished by that pass. */
  lemma {:induction false} LateClosesWait(l: Loop, run: seq<Action>, i: nat)
    requires Inv(l) && IsRun(l, run) && i < |l.handles| && i !in l.pass && !l.handles[i].closed
    requires forall k :: 0 <= k < |run| ==> !run[k].BeginPass?
    ensures i < |Exec(l, run).handles| && !Exec(l, run).handles[i].closed && Exec(l, run).handles[i].cbRuns == 0
    decreases |run|
  {
    assert Flags(l, i);
    if run != [] {
      StepInv(l, run[0]);
      LateStep(l, run[0], i);
      assert forall k :: 0 <= k < |run[1..]| ==> run[1..][k] == run[k + 1];
      LateClosesWait(Apply(l, run[0]), run[1..], i);
    }
  }

  // ---- The objects --------------------------------------------------------------------------------------

  class Handle {
    const loop: UvLoop
    ghost const id: nat     // its place among all handles of the loop
    const signal: bool
    var active: bool
    var ref: bool
    var closing: bool
    var closed: bool
    var caught: nat
    var dispatched: nat
    var nextClosing: Handle?
    ghost var inClose: bool
    ghost var listed: bool
    ghost var cbRuns: nat

    ghost function Spec(): H
      reads this`active, this`ref, this`closing, this`closed, this`caught, this`dispatched
      reads this`inClose, this`listed, this`cbRuns
    {
      H(signal, active, ref, closing, closed, caught, dispatched, inClose, listed, cbRuns)
    }

    constructor (l: UvLoop, ghost n: nat, sig: bool)
      ensures Spec() == NewH(sig) && loop == l && id == n && nextClosing == null
    {
      loop, signal := l, sig;
      id := n;
      active, ref, closing, closed, caught, dispatched, nextClosing := false, true, false, false, 0, 0, null;
      inClose, listed, cbRuns := false, false, 0;
    }

    method HandleStart()
      requires loop.Valid() && loop.Has(this) && (signal ==> !closing)
      modifies this`active, loop`activeHandles, loop`abs
      ensures loop.Valid() && loop.abs == Apply(old(loop.abs), Start(id))
      ensures active && ref == old(ref)
      ensures loop.activeHandles == old(loop.activeHandles) + B(!old(active) && ref)
    {
      if !active {
        active := true;
        if ref { loop.activeHandles := loop.activeHandles + 1; }
      }
      loop.AdvanceOne(Start(id), this);
    }

    method HandleStop()
      requires loop.Valid() && loop.Has(this)
      modifies this`active, loop`activeHandles, loop`abs
      ensures loop.Valid() && loop.abs == Apply(old(loop.abs), Stop(id))
      ensures !active && ref == old(ref)
      ensures loop.activeHandles == old(loop.activeHandles) - B(old(active) && ref)
    {
      if active {
        active := false;
        if ref { loop.activeHandles := loop.activeHandles - 1; }
      }
      loop.AdvanceOne(Stop(id), this);
    }

    method HandleRef()
      requires loop.Valid() && loop.Has(this)
      modifies this`ref, loop`activeHandles, loop`abs
      ensures loop.Valid() && loop.abs == Apply(old(loop.abs), Ref(id))
      ensures ref && active == old(active)
      ensures loop.activeHandles == old(loop.activeHandles) + B(!old(ref) && active)
    {
      if !ref {
        ref := true;
        if active { loop.activeHandles := loop.activeHandles + 1; }
      }
      loop.AdvanceOne(Ref(id), this);
    }

    method HandleUnref()
      requires loop.Valid() && loop.Has(this)
      modifies this`ref, loop`activeHandles, loop`abs
      ensures loop.Valid() && loop.abs == Apply(old(loop.abs), Unref(id))
      ensures !ref && active == old(active)
      ensures loop.activeHandles == old(loop.activeHandles) - B(old(ref) && active)
    {
      if ref {
        ref := false;
        if active { loop.activeHandles := loop.activeHandles - 1; }
      }
      loop.AdvanceOne(Unref(id), this);
    }
  }

  /** From `p` along the `nextClosing` links lie exactly the handles of `c`. */
  ghost predicate Linked(p: Handle?, c: seq<Handle>)
    reads c`nextClosing
    decreases |c|
  {
    if c == [] then p == null else p == c[0] && Linked(c[0].nextClosing, c[1..])
  }

  ghost function Ids(s: seq<Handle>): seq<nat> { seq(|s|, k requires 0 <= k < |s| => s[k].id) }

  /** What a callback does to the handles and requests of its loop, and the signals caught meanwhile. */
  datatype Op =
    | Starts(h: Handle) | Stops(h: Handle) | Refs(h: Handle) | Unrefs(h: Handle)
    | Shuts(h: Handle) | Catches(h: Handle) | Registers(r: nat) | Unregisters(r: nat)

  /** Some run that begins no closing pass leads from `l` to `m`. */
  ghost predicate Evolves(l: Loop, m: Loop) {
    exists run :: IsRun(l, run) && m == Exec(l, run) && NoBegin(run)
  }

  predicate NoBegin(run: seq<Action>) { forall k :: 0 <= k < |run| ==> !run[k].BeginPass? }

  lemma Stays(l: Loop)
    ensures Evolves(l, l)
  {
    assert IsRun(l, []) && Exec(l, []) == l && NoBegin([]);
  }

  lemma Steps(l: Loop, a: Action)
    requires Enabled(l, a) && !a.BeginPass?
    ensures Evolves(l, Apply(l, a))
  {
    OneStep(l, a);
    assert NoBegin([a]);
  }

  lemma StepsOn(l: Loop, a: Action, m: Loop, n: Loop)
    requires Enabled(l, a) && !a.BeginPass? && m == Apply(l, a) && Evolves(m, n)
    ensures Evolves(l, n)
  {
    Steps(l, a);
    EvolvesOn(l, m, n);
  }

  lemma EvolvesOn(l: Loop, m: Loop, n: Loop)
    requires Evolves(l, m) && Evolves(m, n)
    ensures Evolves(l, n)
  {
    var run :| IsRun(l, run) && m == Exec(l, run) && NoBegin(run);
    var more :| IsRun(m, more) && n == Exec(m, more) && NoBegin(more);
    RunOn(l, run, more);
    assert NoBegin(run + more);
  }

  lemma Regroup(s: seq<Handle>, t: seq<Handle>, u: seq<Handle>)
    ensures (s + t) + u == s + (t + u)
  {
  }

  // ---- What callbacks do, as a function on states ---------------------------------------------------

  /** A step, where it can be made. */
  function Do(l: Loop, a: Action): Loop { if Enabled(l, a) then Apply(l, a) else l }

  /** All of `uv_close`. */
  function Shut(l: Loop, i: nat): Loop
    requires i < |l.handles|
  {
    var h := l.handles[i].(closing := true, active := false);
    if Waits(h) then Put(l, i, h) else Pend(l, i, h)
  }

  /** One thing a callback does; what is already so is left alone. */
  ghost function Effect(l: Loop, op: Op): Loop {
    match op
    case Starts(h) => Do(l, Start(h.id))
    case Stops(h) => Do(l, Stop(h.id))
    case Refs(h) => Do(l, Ref(h.id))
    case Unrefs(h) => Do(l, Unref(h.id))
    case Shuts(h) => if Enabled(l, Mark(h.id)) then Shut(l, h.id) else l
    case Catches(h) => Do(l, Catch(h.id))
    case Registers(r) => Do(l, Register(r))
    case Unregisters(r) => Do(l, Unregister(r))
  }

  ghost function Effects(l: Loop, ops: seq<Op>): Loop
    decreases |ops|
  {
    if ops == [] then l else Effect(Effects(l, ops[..|ops| - 1]), ops[|ops| - 1])
  }

  lemma EffectsNext(l: Loop, ops: seq<Op>, k: nat)
    requires k < |ops|
    ensures Effects(l, ops[..k + 1]) == Effect(Effects(l, ops[..k]), ops[k])
  {
    assert ops[..k + 1][..k] == ops[..k];
  }

  /** `uv__finish_close` of `h`, with what its type does first and what its close callback does. */
  ghost function Finished(l: Loop, h: Handle, cleanup: seq<Op>, callback: seq<Op>): Loop {
    Effects(Do(Do(Effects(Do(l, FinishBegin), cleanup), Unref(h.id)), FinishEnd), callback)
  }

  function OpsOf(script: map<Handle, seq<Op>>, h: Handle): seq<Op> { if h in script then script[h] else [] }

  /** A pass over the detached list `list`. */
  ghost function Passed(l: Loop, list: seq<Handle>, cleanup: map<Handle, seq<Op>>, script: map<Handle, seq<Op>>): Loop
    decreases |list|
  {
    if list == [] then l
    else Passed(Finished(l, list[0], OpsOf(cleanup, list[0]), OpsOf(script, list[0])), list[1..], cleanup, script)
  }

  /** What the operations are for. */
  lemma EffectMeans(l: Loop, op: Op)
    requires op.Registers? || op.Unregisters? || op.h.id < |l.handles|
    ensures var m := Effect(l, op);
      match op
      case Starts(h) => (l.handles[h.id].signal && l.handles[h.id].closing) || m.handles[h.id].active
      case Stops(h) => !m.handles[h.id].active
      case Refs(h) => m.handles[h.id].ref
      case Unrefs(h) => !m.handles[h.id].ref
      case Shuts(h) => l.handles[h.id].closed || m.handles[h.id].closing
      case Catches(h) =>
        l.handles[h.id].signal && l.handles[h.id].active ==> m.handles[h.id].caught == l.handles[h.id].caught + 1
      case Registers(r) => r in m.reqs
      case Unregisters(r) => r !in m.reqs
  {
    if op.Unregisters? { WithoutIn(l.reqs, op.r); }
  }

  class UvLoop {
    var activeHandles: int
    var activeReqs: seq<nat>
    var handleQueue: seq<Handle>
    var closingHandles: Handle?
    ghost var members: seq<Handle>      // every handle ever initialised
    ghost var chain: seq<Handle>        // the list of closing handles
    ghost var pass: seq<Handle>         // the detached list, from `next` on
    ghost var next: Handle?
    ghost var finishing: seq<Handle>
    ghost var log: seq<Handle>
    ghost var abs: Loop                 // the state of the transition system that the objects stand for

    ghost predicate Has(h: Handle)
      reads this`members
    {
      h.loop == this && h.id < |members| && members[h.id] == h
    }

    ghost predicate HasAll(s: seq<Handle>)
      reads this`members
    {
      forall h :: h in s ==> Has(h)
    }

    ghost predicate Shaped()
      reads this`members, this`handleQueue, this`chain, this`pass, this`finishing, this`closingHandles, this`next
      reads chain`nextClosing, pass`nextClosing
    {
      && (forall i :: 0 <= i < |members| ==> members[i].loop == this && members[i].id == i)
      && HasAll(handleQueue) && HasAll(chain) && HasAll(pass) && HasAll(finishing)
      && Linked(closingHandles, chain) && Linked(next, pass)
    }

    /** All but the flags of the handles is as in `m`. */
    ghost predicate Matches(m: Loop)
      reads this
    {
      && activeHandles == m.activeHandles && activeReqs == m.reqs && Ids(handleQueue) == m.queue
      && Ids(chain) == m.closing && Ids(pass) == m.pass && Ids(finishing) == m.finishing && Ids(log) == m.log
    }

    /** The handles have the flags that `m` gives them; `h`, if it is one, may differ. */
    ghost predicate Coupled(m: Loop, h: Handle?)
      reads this`members, members
    {
      && |m.handles| == |members|
      && forall i :: 0 <= i < |members| && members[i] != h ==> members[i].Spec() == m.handles[i]
    }

    /** The links are in order, and `abs` is what the objects show and a state that some run reaches. */
    ghost predicate Valid()
      reads this, members, chain, pass
    {
      Shaped() && Matches(abs) && Coupled(abs, null) && Reached(abs)
    }

    constructor ()
      ensures Valid() && abs == Empty() && members == [] && next == null
    {
      activeHandles, activeReqs, handleQueue, closingHandles := 0, [], [], null;
      members, chain, pass, next, finishing, log, abs := [], [], [], null, [], [], Empty();
      ReachedEmpty();
    }

    /** The objects have made a step that changes no handle. */
    ghost method Advance(a: Action)
      requires Shaped() && Reached(abs) && Enabled(abs, a)
      requires Coupled(Apply(abs, a), null) && Matches(Apply(abs, a))
      modifies this`abs
      ensures Valid() && abs == Apply(old(abs), a)
    {
      ReachedStep(abs, a);
      abs := Apply(abs, a);
    }

    /** The objects have made a step that changes the flags of `h`. */
    ghost method AdvanceOne(a: Action, h: Handle)
      requires Shaped() && Has(h) && Reached(abs) && Enabled(abs, a) && Coupled(abs, h)
      requires Apply(abs, a).handles == abs.handles[h.id := h.Spec()] && Matches(Apply(abs, a))
      modifies this`abs
      ensures Valid() && abs == Apply(old(abs), a)
    {
      Advance(a);
    }

    /** The same, where what the step leads to is known in other words. */
    ghost method AdvanceTo(a: Action, h: Handle, m: Loop)
      requires Shaped() && Has(h) && Reached(abs) && Enabled(abs, a) && Coupled(abs, h) && m == Apply(abs, a)
      requires m.handles == abs.handles[h.id := h.Spec()] && Matches(m)
      modifies this`abs
      ensures Valid() && abs == m
    {
      Advance(a);
    }

    /** Identities are as good as handles. */
    lemma IdsIn(s: seq<Handle>, h: Handle)
      requires HasAll(s) && Has(h)
      ensures h in s <==> h.id in Ids(s)
    {
      if h in s {
        var k :| 0 <= k < |s| && s[k] == h;
        assert Ids(s)[k] == h.id;
      }
      if h.id in Ids(s) {
        var k :| 0 <= k < |s| && Ids(s)[k] == h.id;
        assert Has(s[k]);
      }
    }

    lemma {:induction false} IdsWithout(s: seq<Handle>, h: Handle)
      requires HasAll(s) && Has(h)
      ensures Ids(Without(s, h)) == Without(Ids(s), h.id)
      decreases |s|
    {
      if s != [] {
        assert Has(s[0]);
        IdsWithout(s[1..], h);
        assert Ids(s)[1..] == Ids(s[1..]);
        var r := Without(s[1..], h);
        assert Ids([s[0]] + r) == [s[0].id] + Ids(r);
      }
    }

    /** `uv__handle_init`. */
    method HandleInit(signal: bool) returns (h: Handle)
      requires Valid()
      modifies this`members, this`handleQueue, this`abs
      ensures Valid() && Has(h) && fresh(h) && members == old(members) + [h] && h.signal == signal
      ensures abs == Apply(old(abs), Init(h.signal))
      ensures handleQueue == old(handleQueue) + [h] && h.ref && !h.active && !h.closing
    {
      h := new Handle(this, |members|, signal);
      assert Valid();
      Enrol(h);
    }

    method Enrol(h: Handle)
      requires Valid() && h.loop == this && h.id == |members| && h.Spec() == NewH(h.signal)
      modifies this`members, this`handleQueue, this`abs
      ensures Valid() && Has(h) && members == old(members) + [h]
      ensures abs == Apply(old(abs), Init(h.signal)) && handleQueue == old(handleQueue) + [h]
    {
      members := members + [h];
      handleQueue := handleQueue + [h];
      assert Ids(handleQueue) == abs.queue + [|abs.handles|];
      Advance(Init(h.signal));
    }

    /** `uv__make_close_pending`. */
    method MakeClosePending(h: Handle)
      requires Shaped() && Has(h) && h !in chain && h !in pass && Coupled(abs, h) && h.closing && !h.closed
      modifies h`nextClosing, h`inClose, h`listed, this`closingHandles, this`chain
      ensures Shaped() && chain == [h] + old(chain) && Ids(chain) == [h.id] + Ids(old(chain))
      ensures h.Spec() == ListH(old(h.Spec())) && Coupled(abs, h)
    {
      h.nextClosing := closingHandles;
      closingHandles := h;
      chain := [h] + chain;
      h.inClose, h.listed := false, true;
      assert chain[1..] == old(chain);
    }

    /** A handle that is not listed is on no list. */
    lemma NotListed(h: Handle)
      requires Shaped() && Matches(abs) && Reached(abs) && Has(h)
      requires h.id < |abs.handles| && !abs.handles[h.id].listed
      ensures h !in chain && h !in pass
    {
      ReachedInv(abs);
      IdsIn(chain, h);
      IdsIn(pass, h);
      assert h.id !in abs.pass + abs.closing;
    }

    /** What `uv_close` has done to the loop. */
    static ghost predicate HasClosed(l: Loop, m: Loop, i: nat)
      requires i < |l.handles|
    {
      m == Shut(l, i)
    }

    static lemma CloseSteps(l: Loop, m1: Loop, m2: Loop, i: nat)
      requires Enabled(l, Mark(i)) && !l.handles[i].inClose
      requires m1 == Apply(l, Mark(i)) && m2 == Apply(m1, Stop(i))
      ensures Enabled(m2, Settle(i)) && HasClosed(l, Apply(m2, Settle(i)), i)
      ensures Pends(m2, Settle(i)) <==> !Waits(l.handles[i])
    {
      var h := StopH(MarkH(l.handles[i]));
      assert m2.handles == l.handles[i := h];
      assert m2.handles[i := h.(inClose := false)] == l.handles[i := h.(inClose := false)];
      assert m2.handles[i := ListH(h)] == l.handles[i := ListH(h)];
    }

    method MarkClosing(h: Handle)
      requires Valid() && Has(h) && Enabled(abs, Mark(h.id))
      modifies h`closing, h`inClose, this`abs
      ensures Valid() && abs == Apply(old(abs), Mark(h.id))
    {
      h.closing, h.inClose := true, true;
      AdvanceOne(Mark(h.id), h);
    }

    /** The step `a` makes `h` pending. */
    method PendNow(h: Handle, ghost a: Action, ghost m: Loop)
      requires Shaped() && Matches(abs) && Reached(abs) && Has(h) && Coupled(abs, h)
      requires Enabled(abs, a) && h.id < |abs.handles| && !abs.handles[h.id].listed && h.closing && !h.closed
      requires m == Apply(abs, a) && m == abs.(handles := m.handles, closing := [h.id] + abs.closing)
      requires m.handles == abs.handles[h.id := ListH(h.Spec())]
      modifies h`nextClosing, h`inClose, h`listed, this`closingHandles, this`chain, this`abs
      ensures Valid() && chain == [h] + old(chain) && abs == m
    {
      NotListed(h);
      MakeClosePending(h);
      AdvanceTo(a, h, m);
    }

    /** The end of `uv_close`, and of `uv__signal_close`. */
    method EndOfClose(h: Handle)
      requires Valid() && Has(h) && Enabled(abs, Settle(h.id))
      modifies h`nextClosing, h`inClose, h`listed, this`closingHandles, this`chain, this`abs
      ensures Valid() && chain == (if Waits(h.Spec()) then [] else [h]) + old(chain)
      ensures abs == Apply(old(abs), Settle(h.id))
    {
      ReachedFlags(h);
      if !h.signal || h.caught == h.dispatched {
        PendNow(h, Settle(h.id), Apply(abs, Settle(h.id)));
      } else {
        assert [] + chain == chain;
        h.inClose := false;
        AdvanceOne(Settle(h.id), h);
      }
    }

    /** The first half of `uv_close`. */
    method MarkAndStop(h: Handle) returns (ghost marked: Loop)
      requires Valid() && Has(h) && Enabled(abs, Mark(h.id))
      modifies h`active, h`closing, h`inClose, this`activeHandles, this`abs
      ensures Valid() && h.closing && !h.active && chain == old(chain)
      ensures marked == Apply(old(abs), Mark(h.id)) && Enabled(marked, Stop(h.id))
      ensures abs == Apply(marked, Stop(h.id))
    {
      MarkClosing(h);
      marked := abs;
      h.HandleStop();
    }

    /**
     * `uv_close`: mark, stop, and push on the list, unless the handle is a signal handle and signals are
     * under way; no callback is called here.
     */
    method UvClose(h: Handle)
      requires Valid() && Has(h) && !h.closing && !h.closed
      modifies h`active, h`closing, h`nextClosing, h`inClose, h`listed
      modifies this`activeHandles, this`closingHandles, this`chain, this`abs
      ensures Valid() && chain == (if h.signal && h.caught != h.dispatched then [] else [h]) + old(chain)
      ensures HasClosed(old(abs), abs, h.id) && h.closing && !h.active
    {
      ghost var was := abs;
      ReachedFlags(h);
      ghost var marked := MarkAndStop(h);
      CloseSteps(was, marked, abs, h.id);
      EndOfClose(h);
    }

    /** The signal handler has written a message for the handle. */
    method CatchSignal(h: Handle)
      requires Valid() && Has(h) && h.signal && h.active
      modifies h`caught, this`abs
      ensures Valid() && abs == Apply(old(abs), Catch(h.id)) && h.caught == old(h.caught) + 1
    {
      h.caught := h.caught + 1;
      AdvanceOne(Catch(h.id), h);
    }

    /** A signal that is not the last one under way to a closing handle. */
    method DispatchOther(h: Handle)
      requires Valid() && Has(h) && Enabled(abs, Dispatch(h.id)) && !(h.closing && h.caught == h.dispatched + 1)
      modifies h`dispatched, this`abs
      ensures Valid() && abs == Apply(old(abs), Dispatch(h.id)) && h.dispatched == old(h.dispatched) + 1
    {
      h.dispatched := h.dispatched + 1;
      AdvanceOne(Dispatch(h.id), h);
    }

    method DispatchLast(h: Handle)
      requires Valid() && Has(h) && Enabled(abs, Dispatch(h.id)) && h.closing && h.caught == h.dispatched + 1
      modifies h`dispatched, h`nextClosing, h`inClose, h`listed, this`closingHandles, this`chain, this`abs
      ensures Valid() && abs == Apply(old(abs), Dispatch(h.id)) && h.dispatched == old(h.dispatched) + 1
      ensures chain == [h] + old(chain)
    {
      ReachedFlags(h);
      h.dispatched := h.dispatched + 1;
      PendNow(h, Dispatch(h.id), Apply(abs, Dispatch(h.id)));
    }

    /** The end of a turn of `uv__signal_event`, after the callback of the signal. */
    method DispatchSignal(h: Handle)
      requires Valid() && Has(h) && Enabled(abs, Dispatch(h.id))
      modifies h`dispatched, h`nextClosing, h`inClose, h`listed, this`closingHandles, this`chain, this`abs
      ensures Valid() && abs == Apply(old(abs), Dispatch(h.id)) && h.dispatched == old(h.dispatched) + 1
      ensures chain == (if h.closing && h.caught == h.dispatched then [h] else []) + old(chain)
    {
      if h.closing && h.caught == h.dispatched + 1 {
        DispatchLast(h);
      } else {
        DispatchOther(h);
        assert [] + chain == chain;
      }
    }

    lemma ReachedFlags(h: Handle)
      requires Valid() && Has(h)
      ensures Flags(abs, h.id)
    {
      ReachedInv(abs);
    }

    /** Detach the list. */
    method Detach() returns (p: Handle?)
      requires Valid() && BetweenPasses(abs)
      modifies this`closingHandles, this`chain, this`pass, this`next, this`abs
      ensures Valid() && p == next && pass == old(chain) && chain == []
      ensures abs == Apply(old(abs), BeginPass)
    {
      p := closingHandles;
      closingHandles := null;
      chain, pass, next := [], chain, p;
      Advance(BeginPass);
    }

    /** The links, when the head of the detached list is taken. */
    ghost method Pop(h: Handle)
      requires Shaped() && pass != [] && next == h
      modifies this`pass, this`next, this`finishing
      ensures Shaped() && [h] + pass == old(pass) && finishing == [h] && next == h.nextClosing
      ensures Ids(pass) == Ids(old(pass))[1..] && Ids(finishing) == [Ids(old(pass))[0]]
    {
      assert Has(h) && h == pass[0];
      pass, next, finishing := pass[1..], h.nextClosing, [h];
    }

    /** The first half of `uv__finish_close` on the head of the pass. */
    method FinishFirst(h: Handle)
      requires Valid() && Enabled(abs, FinishBegin) && next == h
      modifies h`closed, this`pass, this`next, this`finishing, this`abs
      ensures Valid() && Has(h) && [h] + pass == old(pass) && finishing == [h] && next == h.nextClosing
      ensures abs == Apply(old(abs), FinishBegin)
    {
      assert pass[0] == h && Has(h);
      Pop(h);
      h.closed := true;
      AdvanceOne(FinishBegin, h);
    }

    /** The second half: the reference and the place on the handle queue go, and the callback is called. */
    method FinishLast(h: Handle)
      requires Valid() && Has(h) && finishing == [h]
      modifies h`ref, h`cbRuns, this`activeHandles, this`handleQueue, this`finishing, this`log, this`abs
      ensures Valid() && finishing == [] && log == old(log) + [h] && handleQueue == Without(old(handleQueue), h)
      ensures HasFinished(old(abs), abs, h.id)
    {
      h.HandleUnref();
      EndOfFinish(h);
    }

    method EndOfFinish(h: Handle)
      requires Valid() && Has(h) && finishing == [h] && Enabled(abs, FinishEnd)
      modifies h`cbRuns, this`handleQueue, this`finishing, this`log, this`abs
      ensures Valid() && finishing == [] && log == old(log) + [h] && handleQueue == Without(old(handleQueue), h)
      ensures abs == Apply(old(abs), FinishEnd)
    {
      Retire(h);
      h.cbRuns := h.cbRuns + 1;
      AdvanceOne(FinishEnd, h);
    }

    /** What the second half of `uv__finish_close` has done to the loop. */
    static ghost predicate HasFinished(l: Loop, m: Loop, i: nat) {
      Enabled(l, Unref(i)) && Enabled(Apply(l, Unref(i)), FinishEnd) && m == Apply(Apply(l, Unref(i)), FinishEnd)
    }

    method Retire(h: Handle)
      requires Shaped() && Has(h)
      modifies this`handleQueue, this`finishing, this`log
      ensures Shaped() && finishing == [] && log == old(log) + [h] && handleQueue == Without(old(handleQueue), h)
      ensures Ids(log) == Ids(old(log)) + [h.id] && Ids(handleQueue) == Without(Ids(old(handleQueue)), h.id)
    {
      IdsWithout(handleQueue, h);
      WithoutIn(handleQueue, h);
      handleQueue := Without(handleQueue, h);
      finishing, log := [], log + [h];
    }

    method RegisterReq(r: nat)
      requires Valid() && r !in activeReqs
      modifies this`activeReqs, this`abs
      ensures Valid() && abs == Apply(old(abs), Register(r)) && activeReqs == old(activeReqs) + [r]
    {
      activeReqs := activeReqs + [r];
      Advance(Register(r));
    }

    method UnregisterReq(r: nat)
      requires Valid() && r in activeReqs
      modifies this`activeReqs, this`abs
      ensures Valid() && abs == Apply(old(abs), Unregister(r)) && activeReqs == Without(old(activeReqs), r)
    {
      activeReqs := Without(activeReqs, r);
      Advance(Unregister(r));
    }

    // ---- Callbacks and passes --------------------------------------------------------------------------

    ghost predicate Fits(op: Op)
      reads this`members
    {
      match op
      case Registers(_) => true
      case Unregisters(_) => true
      case _ => Has(op.h)
    }

    ghost predicate FitAll(m: map<Handle, seq<Op>>)
      reads this`members
    {
      forall h, op :: h in m && op in m[h] ==> Fits(op)
    }

    static lemma ClosingEvolves(l: Loop, m: Loop, i: nat)
      requires Enabled(l, Mark(i)) && !l.handles[i].inClose && HasClosed(l, m, i)
      ensures Evolves(l, m)
    {
      var m1 := Apply(l, Mark(i));
      var m2 := Apply(m1, Stop(i));
      CloseSteps(l, m1, m2, i);
      Steps(m2, Settle(i));
      StepsOn(m1, Stop(i), m2, m);
      StepsOn(l, Mark(i), m1, m);
    }

    method PerformShut(h: Handle)
      requires Valid() && Has(h)
      modifies h`active, h`closing, h`nextClosing, h`inClose, h`listed
      modifies this`activeHandles, this`closingHandles, this`chain, this`abs
      ensures Valid() && Evolves(old(abs), abs) && abs == Effect(old(abs), Shuts(h))
    {
      ghost var was := abs;
      Stays(was);
      if !h.closing && !h.closed {
        ReachedFlags(h);
        UvClose(h);
        ClosingEvolves(was, abs, h.id);
      }
    }

    method PerformReq(op: Op)
      requires Valid() && (op.Registers? || op.Unregisters?)
      modifies this`activeReqs, this`abs
      ensures Valid() && Evolves(old(abs), abs) && abs == Effect(old(abs), op)
    {
      ghost var was := abs;
      Stays(was);
      if op.Registers? {
        if op.r !in activeReqs {
          RegisterReq(op.r);
          Steps(was, Register(op.r));
        }
      } else if op.r in activeReqs {
        UnregisterReq(op.r);
        Steps(was, Unregister(op.r));
      }
    }

    /** One thing a callback does; what is already so is left alone. */
    method Perform(op: Op)
      requires Valid() && Fits(op)
      modifies members`active, members`ref, members`closing, members`nextClosing, members`listed
      modifies members`inClose, members`caught
      modifies this`activeHandles, this`activeReqs, this`closingHandles, this`chain, this`abs
      ensures Valid() && Evolves(old(abs), abs) && abs == Effect(old(abs), op)
    {
      ghost var was := abs;
      Stays(was);
      match op
      case Starts(h) =>
        if !h.signal || !h.closing {
          h.HandleStart();
          Steps(was, Start(h.id));
        }
      case Stops(h) =>
        h.HandleStop();
        Steps(was, Stop(h.id));
      case Refs(h) =>
        h.HandleRef();
        Steps(was, Ref(h.id));
      case Unrefs(h) =>
        h.HandleUnref();
        Steps(was, Unref(h.id));
      case Shuts(h) => PerformShut(h);
      case Catches(h) =>
        if h.signal && h.active {
          CatchSignal(h);
          Steps(was, Catch(h.id));
        }
      case Registers(r) => PerformReq(op);
      case Unregisters(r) => PerformReq(op);
    }

    /** The next of the things a callback does. */
    method PerformNext(ops: seq<Op>, k: nat, ghost was: Loop)
      requires Valid() && k < |ops| && Fits(ops[k])
      requires Evolves(was, abs) && abs == Effects(was, ops[..k])
      modifies members`active, members`ref, members`closing, members`nextClosing, members`listed
      modifies members`inClose, members`caught
      modifies this`activeHandles, this`activeReqs, this`closingHandles, this`chain, this`abs
      ensures Valid() && Evolves(was, abs) && abs == Effects(was, ops[..k + 1])
    {
      ghost var mid := abs;
      Perform(ops[k]);
      EvolvesOn(was, mid, abs);
      EffectsNext(was, ops, k);
    }

    method PerformAll(ops: seq<Op>)
      requires Valid() && forall op :: op in ops ==> Fits(op)
      modifies members`active, members`ref, members`closing, members`nextClosing, members`listed
      modifies members`inClose, members`caught
      modifies this`activeHandles, this`activeReqs, this`closingHandles, this`chain, this`abs
      ensures Valid() && Evolves(old(abs), abs) && abs == Effects(old(abs), ops)
    {
      ghost var was := abs;
      Stays(was);
      for k := 0 to |ops|
        invariant Valid() && Evolves(was, abs) && abs == Effects(was, ops[..k])
      {
        PerformNext(ops, k, was);
      }
      assert ops[..|ops|] == ops;
    }

    static lemma FinishSteps(l: Loop, m: Loop, n: Loop, i: nat)
      requires HasFinished(l, m, i) && Evolves(m, n)
      ensures Evolves(l, n)
    {
      StepsOn(Apply(l, Unref(i)), FinishEnd, m, n);
      StepsOn(l, Unref(i), Apply(l, Unref(i)), n);
    }

    /** `uv__finish_close` up to the end of what the type does first. */
    method FinishUntilClean(p: Handle, cleanup: seq<Op>)
      requires Valid() && Enabled(abs, FinishBegin) && next == p
      requires forall op :: op in cleanup ==> Fits(op)
      modifies members`active, members`ref, members`closing, members`nextClosing, members`listed
      modifies members`inClose, members`caught, p`closed
      modifies this`activeHandles, this`activeReqs, this`closingHandles, this`chain, this`abs
      modifies this`pass, this`next, this`finishing
      ensures Valid() && Has(p) && Evolves(old(abs), abs)
      ensures abs == Effects(Do(old(abs), FinishBegin), cleanup)
      ensures finishing == [p] && [p] + pass == old(pass) && next == old(p.nextClosing)
    {
      ghost var l0 := abs;
      FinishFirst(p);
      ghost var l1 := abs;
      PerformAll(cleanup);
      StepsOn(l0, FinishBegin, l1, abs);
    }

    /** The rest of it, with the close callback. */
    method FinishAndCall(p: Handle, callback: seq<Op>)
      requires Valid() && Has(p) && finishing == [p]
      requires forall op :: op in callback ==> Fits(op)
      modifies members`active, members`ref, members`closing, members`nextClosing, members`listed
      modifies members`inClose, members`caught, p`ref, p`cbRuns
      modifies this`activeHandles, this`activeReqs, this`closingHandles, this`chain, this`abs
      modifies this`handleQueue, this`finishing, this`log
      ensures Valid() && Evolves(old(abs), abs)
      ensures abs == Effects(Do(Do(old(abs), Unref(p.id)), FinishEnd), callback)
      ensures finishing == [] && log == old(log) + [p] && handleQueue == Without(old(handleQueue), p)
    {
      ghost var l0 := abs;
      FinishLast(p);
      ghost var l1 := abs;
      PerformAll(callback);
      FinishSteps(l0, l1, abs, p.id);
    }

    /**
     * `uv__finish_close` on the head of the pass. `cleanup` is what the type does first, such as ending the
     * requests of a stream and calling their callbacks; `callback` is what the close callback does.
     */
    method FinishClose(p: Handle, cleanup: seq<Op>, callback: seq<Op>)
      requires Valid() && Enabled(abs, FinishBegin) && next == p
      requires forall op :: op in cleanup || op in callback ==> Fits(op)
      modifies members`active, members`ref, members`closing, members`nextClosing, members`listed
      modifies members`inClose, members`caught
      modifies p`ref, p`closed, p`cbRuns
      modifies this`activeHandles, this`activeReqs, this`closingHandles, this`chain, this`abs
      modifies this`handleQueue, this`pass, this`next, this`finishing, this`log
      ensures Valid() && Evolves(old(abs), abs) && abs == Finished(old(abs), p, cleanup, callback)
      ensures finishing == [] && [p] + pass == old(pass) && next == old(p.nextClosing) && log == old(log) + [p]
      ensures handleQueue == Without(old(handleQueue), p)
    {
      ghost var l0 := abs;
      FinishUntilClean(p, cleanup);
      ghost var l1 := abs;
      FinishAndCall(p, callback);
      EvolvesOn(l0, l1, abs);
    }

    /**
     * `uv__run_closing_handles`, where `cleanup` and `script` give what is done while a handle is finished
     * and in its close callback. Every handle that was on the list is closed and called back once, in list
     * order; nobody else is. After the list is detached, the whole is a run without another `BeginPass`.
     */
    method RunClosingHandles(cleanup: map<Handle, seq<Op>>, script: map<Handle, seq<Op>>)
      requires Valid() && BetweenPasses(abs)
      requires FitAll(cleanup) && FitAll(script)
      modifies members
      modifies this`activeHandles, this`activeReqs, this`closingHandles, this`chain, this`abs
      modifies this`handleQueue, this`pass, this`next, this`finishing, this`log
      ensures Valid() && BetweenPasses(abs)
      ensures log == old(log) + old(chain)
      ensures forall h :: h in members ==>
          && h.cbRuns == old(h.cbRuns) + (if h in old(chain) then 1 else 0)
          && (h.closed <==> old(h.closed) || h in old(chain))
      ensures Evolves(Apply(old(abs), BeginPass), abs)
      ensures abs == Passed(Apply(old(abs), BeginPass), old(chain), cleanup, script)
    {
      ghost var l0, list := abs, chain;
      var p := Detach();
      ghost var l1 := abs;
      RunPass(p, cleanup, script);
      forall h | h in members
        ensures h.cbRuns == old(h.cbRuns) + if h in list then 1 else 0
        ensures h.closed <==> old(h.closed) || h in list
      {
        Ledger(l0, l1, list, h);
      }
    }

    /** What the run says of one handle. */
    lemma Ledger(l0: Loop, l1: Loop, list: seq<Handle>, h: Handle)
      requires Valid() && HasAll(list) && h in members
      requires Reached(l0) && BetweenPasses(l0) && l1 == Apply(l0, BeginPass) && Evolves(l1, abs)
      requires BetweenPasses(abs) && l0.closing == Ids(list) && |l0.handles| == |members|
      ensures h.id < |members|
      ensures h.cbRuns == l0.handles[h.id].cbRuns + if h in list then 1 else 0
      ensures h.closed <==> l0.handles[h.id].closed || h in list
    {
      ReachedInv(l0);
      StepInv(l0, BeginPass);
      ReachedInv(abs);
      var k :| 0 <= k < |members| && members[k] == h;
      assert Has(h);
      var more :| IsRun(l1, more) && abs == Exec(l1, more) && NoBegin(more);
      PassCalls(l1, more, h.id);
      IdsIn(list, h);
      assert [] + l1.pass == l1.pass;
      assert Flags(l0, h.id) && Flags(abs, h.id);
    }

    /** One turn of the loop over the detached list. */
    method PassStep(p: Handle, cleanup: map<Handle, seq<Op>>, script: map<Handle, seq<Op>>) returns (q: Handle?)
      requires Valid() && finishing == [] && p == next
      requires FitAll(cleanup) && FitAll(script)
      modifies members
      modifies this`activeHandles, this`activeReqs, this`closingHandles, this`chain, this`abs
      modifies this`handleQueue, this`pass, this`next, this`finishing, this`log
      ensures Valid() && finishing == [] && q == next
      ensures log + pass == old(log) + old(pass) && |pass| < |old(pass)|
      ensures old(pass) != [] && pass == old(pass)[1..] && p == old(pass)[0] && Evolves(old(abs), abs)
      ensures abs == Finished(old(abs), p, OpsOf(cleanup, p), OpsOf(script, p))
    {
      assert Has(pass[0]);
      q := p.nextClosing;
      FinishClose(p, OpsOf(cleanup, p), OpsOf(script, p));
      Regroup(old(log), [p], pass);
    }

    /** The loop over the detached list. */
    method RunPass(start: Handle?, cleanup: map<Handle, seq<Op>>, script: map<Handle, seq<Op>>)
      requires Valid() && finishing == [] && start == next
      requires FitAll(cleanup) && FitAll(script)
      modifies members
      modifies this`activeHandles, this`activeReqs, this`closingHandles, this`chain, this`abs
      modifies this`handleQueue, this`pass, this`next, this`finishing, this`log
      ensures Valid() && BetweenPasses(abs)
      ensures log == old(log) + old(pass)
      ensures Evolves(old(abs), abs) && abs == Passed(old(abs), old(pass), cleanup, script)
    {
      var p := start;
      ghost var l0, all := abs, log + pass;
      Stays(l0);
      while p != null
        invariant Valid() && finishing == [] && p == next
        invariant log + pass == all
        invariant Evolves(l0, abs)
        invariant Passed(abs, pass, cleanup, script) == Passed(l0, old(pass), cleanup, script)
        decreases |pass|
      {
        ghost var mid := abs;
        p := PassStep(p, cleanup, script);
        EvolvesOn(l0, mid, abs);
      }
      assert pass == [] && log + [] == log;
    }
  }
}
