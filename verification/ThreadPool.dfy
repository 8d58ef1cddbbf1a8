/**
 The thread pool (threadpool.c) on top of the async wakeup of each loop, as a transition system.

 The atomic steps are the regions of the source between taking and releasing a mutex, and the
 single steps of uv_async_send and uv__async_io. A worker in uv_cond_wait may wake without a
 signal; a signal wakes one worker that has not been woken yet, if there is one.
 */
module ThreadPool {
  import A = AsyncWakeup
  import opened Sequences

  type Work = nat

  /** The wq_async handle of every loop. */
  const WQ: A.Handle := 0

  const ECANCELED := -125

  datatype Entry = Item(w: Work) | Exit

  /** w->work: the function, NULL, or uv__cancelled. */
  datatype WorkField = Fn | Null | Mark

  /** History: where a work item is. */
  datatype Phase =
    | Queued                // in the global queue
    | Held(t: nat)          // taken by worker t
    | Cut                   // taken out by uv__work_cancel, not yet put back
    | Finished              // in its loop's queue, or in the local queue of uv__work_done
    | Delivered             // its done callback has begun

  /** `linked` is !QUEUE_EMPTY(&w->wq). phase, started, ended, dones and status are history. */
  datatype Rec = Rec(loop: nat, work: WorkField, linked: bool,
                     phase: Phase, started: nat, ended: nat, dones: nat, status: int)

  datatype WorkerPc =
    | Awake                 // about to lock the global mutex at the top of its loop
    | Waiting               // in uv_cond_wait, not woken
    | Woken                 // woken, has not got the mutex back yet
    | Running(w: Work)      // in w->work(w)
    | Ran(w: Work)          // work done, about to lock the loop's mutex
    | Sending(l: nat)       // has queued its item with loop l, inside uv_async_send
    | Exited

  datatype LoopPc =
    | Idle                  // outside uv__work_done
    | Collect               // in uv__work_done, before QUEUE_MOVE
    | Deliver               // in its loop over the local queue
    | InDone(w: Work)       // inside w->done(w, err)

  /** Where the loop thread is inside uv__work_cancel. */
  datatype CancelPc = NoCancel | CutOut(w: Work) | CancelSend

  datatype LoopState = LoopState(
    wq: seq<Work>,          // loop->wq
    local: seq<Work>,       // the local queue of uv__work_done
    pc: LoopPc,
    cancel: CancelPc,
    a: A.State)

  datatype State = State(
    queue: seq<Entry>,      // the global wq
    idle: nat,              // idle_threads
    workers: seq<WorkerPc>,
    items: map<Work, Rec>,
    loops: seq<LoopState>,
    exiting: bool)          // exit_message has been posted

  datatype Action =
    | Submit(w: Work, l: nat, pick: nat)
    | PostExit(pick: nat)
    | Turn(t: nat, pick: nat)
    | Spurious(t: nat)
    | Finish(t: nat)
    | Publish(t: nat)
    | WorkerSend(t: nat, act: A.Action)
    | LoopStep(l: nat, act: A.Action)
    | Move(l: nat)
    | Pop(l: nat)
    | DoneReturns(l: nat)
    | EndDrain(l: nat)
    | Cancel(l: nat, w: Work)
    | CancelPut(l: nat)
    | CancelSends(l: nat, act: A.Action)

  function Get(s: State, w: Work): Rec {
    if w in s.items then s.items[w] else Rec(0, Null, false, Delivered, 0, 0, 0, 0)
  }

  /** The test under both mutexes in uv__work_cancel. */
  predicate CanCancel(s: State, w: Work) {
    Get(s, w).linked && Get(s, w).work != Null
  }

  /** uv_cond_signal: wakes `pick`, a waiting worker if there is any. */
  predicate CanSignal(workers: seq<WorkerPc>, pick: nat) {
    (exists t :: 0 <= t < |workers| && workers[t] == Waiting) ==> pick < |workers| && workers[pick] == Waiting
  }

  function Signal(workers: seq<WorkerPc>, pick: nat): seq<WorkerPc> {
    if pick < |workers| && workers[pick] == Waiting then workers[pick := Woken] else workers
  }

  /** post(): insert at the tail, signal if idle_threads > 0. */
  function Post(s: State, e: Entry, pick: nat): State {
    s.(queue := s.queue + [e], workers := if s.idle > 0 then Signal(s.workers, pick) else s.workers)
  }

  /** The sender id of the loop thread itself; higher ids are foreign threads. */
  function LoopThread(s: State): A.Thread {
    |s.workers|
  }

  predicate SendsBy(act: A.Action, t: A.Thread) {
    (act.ReadFlag? || act.TrySet? || act.Put?) && act.t == t
  }

  /** The loop thread runs user code and is not inside uv__work_cancel. */
  predicate User(ls: LoopState) {
    ls.cancel.NoCancel? && A.UserCode(ls.a) && (ls.pc.Idle? || ls.pc.InDone?)
  }

  /** The steps of a loop's async machinery that are not part of threadpool.c. */
  predicate OwnStep(s: State, ls: LoopState, act: A.Action) {
    match act
    case Send(t, _) => LoopThread(s) < t
    case ReadFlag(t) => LoopThread(s) < t
    case TrySet(t) => LoopThread(s) < t
    case Put(t, _) => LoopThread(s) < t
    case Return => ls.cancel.NoCancel? && ls.a.pc != A.Calling(WQ)
    case Init(h, _) => h != WQ && User(ls)
    case Close(h) => h != WQ && User(ls)
    case _ => ls.cancel.NoCancel?
  }

  predicate Enabled(s: State, a: Action) {
    match a
    case Submit(w, l, pick) => w !in s.items && l < |s.loops| && CanSignal(s.workers, pick)
    case PostExit(pick) => !s.exiting && CanSignal(s.workers, pick)
    case Turn(t, pick) => t < |s.workers| && (s.workers[t].Awake? || s.workers[t].Woken?) && CanSignal(s.workers, pick)
    case Spurious(t) => t < |s.workers| && s.workers[t].Waiting?
    case Finish(t) => t < |s.workers| && s.workers[t].Running?
    case Publish(t) =>
      && t < |s.workers| && s.workers[t].Ran? && Get(s, s.workers[t].w).loop < |s.loops|
      && A.Pc(s.loops[Get(s, s.workers[t].w).loop].a, t).Outside?
    case WorkerSend(t, act) =>
      && t < |s.workers| && s.workers[t].Sending? && s.workers[t].l < |s.loops|
      && SendsBy(act, t) && A.Enabled(s.loops[s.workers[t].l].a, act)
    case LoopStep(l, act) => l < |s.loops| && A.Enabled(s.loops[l].a, act) && OwnStep(s, s.loops[l], act)
    case Move(l) => l < |s.loops| && s.loops[l].pc.Collect?
    case Pop(l) => l < |s.loops| && s.loops[l].pc.Deliver? && s.loops[l].local != []
    case DoneReturns(l) => l < |s.loops| && s.loops[l].pc.InDone? && s.loops[l].cancel.NoCancel?
    case EndDrain(l) => l < |s.loops| && s.loops[l].pc.Deliver? && s.loops[l].local == [] && s.loops[l].a.pc.Calling?
    // the caller's duty: on the loop thread, and before the done callback of w has begun
    case Cancel(l, w) =>
      l < |s.loops| && User(s.loops[l]) && w in s.items && s.items[w].loop == l && !s.items[w].phase.Delivered?
    case CancelPut(l) => l < |s.loops| && s.loops[l].cancel.CutOut? && A.Pc(s.loops[l].a, LoopThread(s)).Outside?
    case CancelSends(l, act) =>
      && l < |s.loops| && s.loops[l].cancel.CancelSend?
      && SendsBy(act, LoopThread(s)) && A.Enabled(s.loops[l].a, act)
  }

  /** The region of lines 59-77: sleep, take the head, or pass exit_message on. */
  function TakeTurn(s: State, t: nat, pick: nat): State
    requires t < |s.workers| && (s.workers[t].Awake? || s.workers[t].Woken?)
  {
    var idle := if s.workers[t].Woken? && 0 < s.idle then s.idle - 1 else s.idle;
    if s.queue == [] then
      s.(workers := s.workers[t := Waiting], idle := idle + 1)
    else match s.queue[0]
      case Exit => s.(workers := Signal(s.workers, pick)[t := Exited], idle := idle)
      case Item(w) =>
        s.(queue := s.queue[1..], workers := s.workers[t := Running(w)], idle := idle,
           items := s.items[w := Get(s, w).(linked := false, phase := Held(t), started := Get(s, w).started + 1)])
  }

  function SetItem(s: State, w: Work, r: Rec): State {
    s.(items := s.items[w := r])
  }

  function SetLoop(s: State, l: nat, ls: LoopState): State
    requires l < |s.loops|
  {
    s.(loops := s.loops[l := ls])
  }

  function Apply(s: State, a: Action): State
    requires Enabled(s, a)
  {
    match a
    case Submit(w, l, pick) =>
      Post(SetItem(s, w, Rec(l, Fn, true, Queued, 0, 0, 0, 0)), Item(w), pick)
    case PostExit(pick) => Post(s, Exit, pick).(exiting := true)
    case Turn(t, pick) => TakeTurn(s, t, pick)
    case Spurious(t) => s.(workers := s.workers[t := Woken])
    case Finish(t) =>
      var w := s.workers[t].w;
      SetItem(s, w, Get(s, w).(ended := Get(s, w).ended + 1)).(workers := s.workers[t := Ran(w)])
    case Publish(t) =>
      var w := s.workers[t].w;
      var l := Get(s, w).loop;
      var ls := s.loops[l];
      SetLoop(SetItem(s, w, Get(s, w).(work := Null, linked := true, phase := Finished)), l,
              ls.(wq := ls.wq + [w], a := A.Apply(ls.a, A.Send(t, WQ))))
        .(workers := s.workers[t := Sending(l)])
    case WorkerSend(t, act) =>
      var l := s.workers[t].l;
      var a' := A.Apply(s.loops[l].a, act);
      SetLoop(s, l, s.loops[l].(a := a'))
        .(workers := if A.Pc(a', t).Outside? then s.workers[t := Awake] else s.workers)
    case LoopStep(l, act) =>
      var a' := A.Apply(s.loops[l].a, act);
      var pc := if act.Examine? && a'.pc == A.Calling(WQ) then Collect else s.loops[l].pc;
      SetLoop(s, l, s.loops[l].(a := a', pc := pc))
    case Move(l) =>
      SetLoop(s, l, s.loops[l].(local := s.loops[l].wq, wq := [], pc := Deliver))
    case Pop(l) =>
      var w := s.loops[l].local[0];
      var r := Get(s, w);
      var status := if r.work == Mark then ECANCELED else 0;
      SetLoop(SetItem(s, w, r.(phase := Delivered, dones := r.dones + 1, status := status)), l,
              s.loops[l].(local := s.loops[l].local[1..], pc := InDone(w)))
    case DoneReturns(l) => SetLoop(s, l, s.loops[l].(pc := Deliver))
    case EndDrain(l) => SetLoop(s, l, s.loops[l].(pc := Idle, a := A.Apply(s.loops[l].a, A.Return)))
    case Cancel(l, w) =>
      if CanCancel(s, w) then
        var ls := s.loops[l];
        SetLoop(SetItem(s, w, Get(s, w).(phase := Cut)), l,
                ls.(wq := Without(ls.wq, w), local := Without(ls.local, w), cancel := CutOut(w)))
          .(queue := Without(s.queue, Item(w)))
      else s    // UV_EBUSY
    case CancelPut(l) =>
      var w := s.loops[l].cancel.w;
      var ls := s.loops[l];
      SetLoop(SetItem(s, w, Get(s, w).(work := Mark, linked := true, phase := Finished)), l,
              ls.(wq := ls.wq + [w], cancel := CancelSend, a := A.Apply(ls.a, A.Send(LoopThread(s), WQ))))
    case CancelSends(l, act) =>
      var a' := A.Apply(s.loops[l].a, act);
      SetLoop(s, l, s.loops[l].(a := a', cancel := if A.Pc(a', LoopThread(s)).Outside? then NoCancel else CancelSend))
  }

  // ---------------------------------------------------------------- the invariant

  function InLoop(ls: LoopState, w: Work): nat {
    multiset(ls.wq)[w] + multiset(ls.local)[w]
  }

  /** Item w is in the list its phase says, once, and in no other. */
  ghost predicate Placed(s: State, w: Work) {
    && multiset(s.queue)[Item(w)] == (if w in s.items && s.items[w].phase.Queued? then 1 else 0)
    && forall l :: 0 <= l < |s.loops| ==>
         InLoop(s.loops[l], w) == (if w in s.items && s.items[w].phase.Finished? && s.items[w].loop == l then 1 else 0)
  }

  /** What has happened to an item, as far as its phase tells. */
  ghost predicate RecOk(s: State, r: Rec, w: Work) {
    && r.loop < |s.loops|
    && match r.phase
       case Queued => r.work == Fn && r.linked && r.started == 0 && r.ended == 0 && r.dones == 0
       case Held(t) =>
         && t < |s.workers| && r.work == Fn && !r.linked && r.started == 1 && r.dones == 0
         && ((s.workers[t] == Running(w) && r.ended == 0) || (s.workers[t] == Ran(w) && r.ended == 1))
       case Cut =>
         && s.loops[r.loop].cancel == CutOut(w)
         && r.work != Null && r.linked && r.started == 0 && r.ended == 0 && r.dones == 0
       case Finished =>
         && r.linked && r.dones == 0
         && ((r.work == Null && r.started == 1 && r.ended == 1) || (r.work == Mark && r.started == 0 && r.ended == 0))
       case Delivered =>
         && r.dones == 1
         && ((r.status == 0 && r.started == 1 && r.ended == 1)
             || (r.status == ECANCELED && r.started == 0 && r.ended == 0))
  }

  ghost predicate WorkerOk(s: State, pc: WorkerPc, t: nat) {
    && (pc.Running? || pc.Ran? ==> pc.w in s.items && s.items[pc.w].phase == Held(t))
    && (pc.Sending? ==> pc.l < |s.loops|)
  }

  ghost predicate LoopOk(s: State, ls: LoopState, l: nat) {
    && (ls.cancel.CutOut? ==>
          ls.cancel.w in s.items && s.items[ls.cancel.w].loop == l && s.items[ls.cancel.w].phase.Cut?)
    && (ls.pc.Idle? || ls.pc.Collect? ==> ls.local == [])
    && (ls.a.pc == A.Calling(WQ) <==> !ls.pc.Idle?)
  }

  ghost predicate ItemsInv(s: State) {
    && (forall w :: Placed(s, w))
    && (forall w :: w in s.items ==> RecOk(s, s.items[w], w))
    && (forall t :: 0 <= t < |s.workers| ==> WorkerOk(s, s.workers[t], t))
    && (forall l :: 0 <= l < |s.loops| ==> LoopOk(s, s.loops[l], l))
  }

  lemma ItemsSubmit(s: State, w: Work, l: nat, pick: nat)
    requires ItemsInv(s) && Enabled(s, Submit(w, l, pick))
    ensures ItemsInv(Apply(s, Submit(w, l, pick)))
  {
    var s' := Apply(s, Submit(w, l, pick));
    forall v ensures Placed(s', v) { assert Placed(s, v); }
    forall v | v in s'.items ensures RecOk(s', s'.items[v], v) {
      if v != w { assert RecOk(s, s.items[v], v); }
    }
    forall t | 0 <= t < |s'.workers| ensures WorkerOk(s', s'.workers[t], t) { assert WorkerOk(s, s.workers[t], t); }
    forall k | 0 <= k < |s'.loops| ensures LoopOk(s', s'.loops[k], k) { assert LoopOk(s, s.loops[k], k); }
  }

  predicate Holds(pc: WorkerPc) {
    pc.Running? || pc.Ran?
  }

  /** A step that moves no item and changes no item. */
  ghost predicate SameItems(s: State, s': State) {
    && s'.items == s.items
    && (forall w :: multiset(s'.queue)[Item(w)] == multiset(s.queue)[Item(w)])
    && |s'.workers| == |s.workers| && |s'.loops| == |s.loops|
    && (forall t :: 0 <= t < |s.workers| ==>
          s'.workers[t] == s.workers[t] || (!Holds(s'.workers[t]) && !Holds(s.workers[t]) && !s'.workers[t].Sending?))
    && (forall l :: 0 <= l < |s.loops| ==> SameLoop(s.loops[l], s'.loops[l]))
  }

  ghost predicate SameLoop(ls: LoopState, ls': LoopState) {
    && multiset(ls'.wq) + multiset(ls'.local) == multiset(ls.wq) + multiset(ls.local)
    && (ls'.cancel == ls.cancel || (!ls.cancel.CutOut? && !ls'.cancel.CutOut?))
    && (ls'.pc.Idle? || ls'.pc.Collect? ==> ls'.local == [])
    && (ls'.a.pc == A.Calling(WQ) <==> !ls'.pc.Idle?)
  }

  lemma ItemsFrame(s: State, s': State)
    requires ItemsInv(s) && SameItems(s, s')
    ensures ItemsInv(s')
  {
    forall v ensures Placed(s', v) {
      assert Placed(s, v);
      forall l | 0 <= l < |s'.loops| ensures InLoop(s'.loops[l], v) == InLoop(s.loops[l], v) {
        assert SameLoop(s.loops[l], s'.loops[l]);
        assert (multiset(s'.loops[l].wq) + multiset(s'.loops[l].local))[v] == InLoop(s'.loops[l], v);
        assert (multiset(s.loops[l].wq) + multiset(s.loops[l].local))[v] == InLoop(s.loops[l], v);
      }
    }
    forall v | v in s'.items ensures RecOk(s', s'.items[v], v) {
      var r := s.items[v];
      assert RecOk(s, r, v) && SameLoop(s.loops[r.loop], s'.loops[r.loop]);
    }
    forall t | 0 <= t < |s'.workers| ensures WorkerOk(s', s'.workers[t], t) { assert WorkerOk(s, s.workers[t], t); }
    forall k | 0 <= k < |s'.loops| ensures LoopOk(s', s'.loops[k], k) {
      assert LoopOk(s, s.loops[k], k) && SameLoop(s.loops[k], s'.loops[k]);
    }
  }

  predicate MovesItem(s: State, a: Action) {
    a.Turn? && s.queue != [] && s.queue[0].Item?
  }

  lemma QuietLoop(s: State, s': State, l: nat, t: nat)
    requires ItemsInv(s) && l < |s.loops| && s'.items == s.items && s'.queue == s.queue
    requires |s'.loops| == |s.loops| && s' == s.(loops := s.loops[l := s'.loops[l]], workers := s'.workers)
    requires SameLoop(s.loops[l], s'.loops[l])
    requires s'.workers == s.workers
      || (t < |s.workers| && s.workers[t].Sending? && s'.workers == s.workers[t := Awake])
    ensures ItemsInv(s')
  {
    forall k | 0 <= k < |s.loops| ensures SameLoop(s.loops[k], s'.loops[k]) {
      assert LoopOk(s, s.loops[k], k);
    }
    assert SameItems(s, s');
    ItemsFrame(s, s');
  }

  lemma ItemsLoopStep(s: State, l: nat, act: A.Action)
    requires ItemsInv(s) && Enabled(s, LoopStep(l, act))
    ensures ItemsInv(Apply(s, LoopStep(l, act)))
  {
    assert LoopOk(s, s.loops[l], l);
    QuietLoop(s, Apply(s, LoopStep(l, act)), l, 0);
  }

  lemma ItemsSend(s: State, a: Action)
    requires ItemsInv(s) && Enabled(s, a) && (a.WorkerSend? || a.CancelSends?)
    ensures ItemsInv(Apply(s, a))
  {
    var l := if a.WorkerSend? then s.workers[a.t].l else a.l;
    assert LoopOk(s, s.loops[l], l);
    QuietLoop(s, Apply(s, a), l, if a.WorkerSend? then a.t else 0);
  }

  lemma ItemsDrain(s: State, a: Action)
    requires ItemsInv(s) && Enabled(s, a) && (a.Move? || a.DoneReturns? || a.EndDrain?)
    ensures ItemsInv(Apply(s, a))
  {
    assert LoopOk(s, s.loops[a.l], a.l);
    QuietLoop(s, Apply(s, a), a.l, 0);
  }

  /** exit_message is not a work item. */
  lemma ExitCountsNowhere(q: seq<Entry>, w: Work)
    ensures multiset(q + [Exit])[Item(w)] == multiset(q)[Item(w)]
  {
  }

  lemma SleepersFrame(s: State, a: Action)
    requires Enabled(s, a) && !MovesItem(s, a) && (a.PostExit? || a.Turn? || a.Spurious?)
    ensures var s' := Apply(s, a);
      && s'.loops == s.loops && s'.items == s.items && |s'.workers| == |s.workers|
      && (s'.queue == s.queue || s'.queue == s.queue + [Exit])
      && forall t :: 0 <= t < |s.workers| ==>
           s'.workers[t] == s.workers[t] || (!Holds(s'.workers[t]) && !Holds(s.workers[t]) && !s'.workers[t].Sending?)
  {
  }

  lemma ItemsSleepers(s: State, a: Action)
    requires ItemsInv(s) && Enabled(s, a) && !MovesItem(s, a) && (a.PostExit? || a.Turn? || a.Spurious?)
    ensures ItemsInv(Apply(s, a))
  {
    var s' := Apply(s, a);
    SleepersFrame(s, a);
    forall k | 0 <= k < |s.loops| ensures SameLoop(s.loops[k], s'.loops[k]) {
      assert LoopOk(s, s.loops[k], k);
    }
    forall w ensures multiset(s'.queue)[Item(w)] == multiset(s.queue)[Item(w)] {
      ExitCountsNowhere(s.queue, w);
    }
    ItemsFrame(s, s');
  }

  lemma ItemsTake(s: State, t: nat, pick: nat)
    requires ItemsInv(s) && Enabled(s, Turn(t, pick)) && s.queue != [] && s.queue[0].Item?
    ensures ItemsInv(Apply(s, Turn(t, pick)))
  {
    var s' := Apply(s, Turn(t, pick));
    var w := s.queue[0].w;
    HeadCounts(s.queue);
    assert Placed(s, w) && RecOk(s, s.items[w], w);
    forall v ensures Placed(s', v) { assert Placed(s, v); }
    forall v | v in s'.items ensures RecOk(s', s'.items[v], v) { assert RecOk(s, s.items[v], v); }
    forall u | 0 <= u < |s'.workers| ensures WorkerOk(s', s'.workers[u], u) { assert WorkerOk(s, s.workers[u], u); }
    forall k | 0 <= k < |s'.loops| ensures LoopOk(s', s'.loops[k], k) { assert LoopOk(s, s.loops[k], k); }
  }

  lemma ItemsFinish(s: State, t: nat)
    requires ItemsInv(s) && Enabled(s, Finish(t))
    ensures ItemsInv(Apply(s, Finish(t)))
  {
    var s' := Apply(s, Finish(t));
    assert WorkerOk(s, s.workers[t], t);
    forall v ensures Placed(s', v) { assert Placed(s, v); }
    forall v | v in s'.items ensures RecOk(s', s'.items[v], v) { assert RecOk(s, s.items[v], v); }
    forall u | 0 <= u < |s'.workers| ensures WorkerOk(s', s'.workers[u], u) { assert WorkerOk(s, s.workers[u], u); }
    forall k | 0 <= k < |s'.loops| ensures LoopOk(s', s'.loops[k], k) { assert LoopOk(s, s.loops[k], k); }
  }

  lemma InsertCounts(ls: LoopState, ls': LoopState, w: Work, v: Work)
    requires ls'.wq == ls.wq + [w] && ls'.local == ls.local
    ensures InLoop(ls', v) == InLoop(ls, v) + if v == w then 1 else 0
  {
  }

  /** The one change to the items and loops when item w joins the queue of loop l. */
  ghost predicate JoinsLoop(s: State, s': State, w: Work, l: nat) {
    && w in s.items && !s.items[w].phase.Queued? && !s.items[w].phase.Finished? && s.items[w].loop == l
    && s'.queue == s.queue && w in s'.items && s'.items == s.items[w := s'.items[w]]
    && s'.items[w].phase.Finished? && s'.items[w].loop == l
    && l < |s.loops| && |s'.loops| == |s.loops| && s'.loops == s.loops[l := s'.loops[l]]
    && s'.loops[l].wq == s.loops[l].wq + [w] && s'.loops[l].local == s.loops[l].local
  }

  lemma JoinsPlaced(s: State, s': State, w: Work, l: nat, v: Work)
    requires Placed(s, v) && JoinsLoop(s, s', w, l)
    ensures Placed(s', v)
  {
    InsertCounts(s.loops[l], s'.loops[l], w, v);
  }

  lemma ItemsPublish(s: State, t: nat)
    requires ItemsInv(s) && Enabled(s, Publish(t))
    ensures ItemsInv(Apply(s, Publish(t)))
  {
    var s' := Apply(s, Publish(t));
    var w := s.workers[t].w;
    assert WorkerOk(s, s.workers[t], t) && RecOk(s, s.items[w], w);
    assert JoinsLoop(s, s', w, s.items[w].loop);
    forall v ensures Placed(s', v) { JoinsPlaced(s, s', w, s.items[w].loop, v); }
    forall v | v in s'.items ensures RecOk(s', s'.items[v], v) { assert RecOk(s, s.items[v], v); }
    forall u | 0 <= u < |s'.workers| ensures WorkerOk(s', s'.workers[u], u) { assert WorkerOk(s, s.workers[u], u); }
    forall k | 0 <= k < |s'.loops| ensures LoopOk(s', s'.loops[k], k) { assert LoopOk(s, s.loops[k], k); }
  }

  lemma PopCounts(ls: LoopState, ls': LoopState, v: Work)
    requires ls.local != [] && ls'.wq == ls.wq && ls'.local == ls.local[1..]
    ensures InLoop(ls', v) == InLoop(ls, v) - if v == ls.local[0] then 1 else 0
  {
    HeadCounts(ls.local);
  }

  lemma PopPlaced(s: State, l: nat, v: Work)
    requires Enabled(s, Pop(l)) && Placed(s, v) && Placed(s, s.loops[l].local[0])
    ensures Placed(Apply(s, Pop(l)), v)
    ensures var w := s.loops[l].local[0]; w in s.items && s.items[w].phase.Finished? && s.items[w].loop == l
  {
    PopCounts(s.loops[l], Apply(s, Pop(l)).loops[l], v);
    PopCounts(s.loops[l], Apply(s, Pop(l)).loops[l], s.loops[l].local[0]);
  }

  lemma PopRec(s: State, l: nat, v: Work)
    requires ItemsInv(s) && Enabled(s, Pop(l)) && v in Apply(s, Pop(l)).items
    ensures RecOk(Apply(s, Pop(l)), Apply(s, Pop(l)).items[v], v)
  {
    var w := s.loops[l].local[0];
    assert Placed(s, w);
    PopPlaced(s, l, w);
    assert RecOk(s, s.items[w], w) && RecOk(s, s.items[v], v);
  }

  lemma PopWorker(s: State, l: nat, t: nat)
    requires ItemsInv(s) && Enabled(s, Pop(l)) && t < |s.workers|
    ensures WorkerOk(Apply(s, Pop(l)), s.workers[t], t)
  {
    assert WorkerOk(s, s.workers[t], t);
    PopPlaced(s, l, s.loops[l].local[0]);
  }

  lemma PopLoop(s: State, l: nat, k: nat)
    requires ItemsInv(s) && Enabled(s, Pop(l)) && k < |s.loops|
    ensures LoopOk(Apply(s, Pop(l)), Apply(s, Pop(l)).loops[k], k)
  {
    assert LoopOk(s, s.loops[k], k);
    PopPlaced(s, l, s.loops[l].local[0]);
  }

  lemma ItemsPop(s: State, l: nat)
    requires ItemsInv(s) && Enabled(s, Pop(l))
    ensures ItemsInv(Apply(s, Pop(l)))
  {
    var s' := Apply(s, Pop(l));
    forall v ensures Placed(s', v) { PopPlaced(s, l, v); }
    forall v | v in s'.items ensures RecOk(s', s'.items[v], v) { PopRec(s, l, v); }
    forall t | 0 <= t < |s'.workers| ensures WorkerOk(s', s'.workers[t], t) { PopWorker(s, l, t); }
    forall k | 0 <= k < |s'.loops| ensures LoopOk(s', s'.loops[k], k) { PopLoop(s, l, k); }
  }

  /** The test in uv__work_cancel succeeds exactly on items that have not started. */
  lemma CancelTest(s: State, l: nat, w: Work)
    requires ItemsInv(s) && Enabled(s, Cancel(l, w))
    ensures CanCancel(s, w) <==> s.items[w].started == 0
    ensures CanCancel(s, w) <==> s.items[w].phase.Queued? || (s.items[w].phase.Finished? && s.items[w].work == Mark)
  {
    assert RecOk(s, s.items[w], w);
  }

  lemma CancelQueue(q: seq<Entry>, w: Work, v: Work)
    ensures multiset(Without(q, Item(w)))[Item(v)] == if v == w then 0 else multiset(q)[Item(v)]
  {
    WithoutCounts(q, Item(w));
  }

  lemma CancelLoop(ls: LoopState, ls': LoopState, w: Work, v: Work)
    requires ls'.wq == Without(ls.wq, w) && ls'.local == Without(ls.local, w)
    ensures InLoop(ls', v) == if v == w then 0 else InLoop(ls, v)
  {
    WithoutCounts(ls.wq, w);
    WithoutCounts(ls.local, w);
  }

  lemma CancelPlaced(s: State, l: nat, w: Work, v: Work)
    requires Enabled(s, Cancel(l, w)) && CanCancel(s, w) && Placed(s, v)
    ensures Placed(Apply(s, Cancel(l, w)), v)
  {
    var s' := Apply(s, Cancel(l, w));
    CancelQueue(s.queue, w, v);
    CancelLoop(s.loops[l], s'.loops[l], w, v);
    assert s'.items == s.items[w := s.items[w].(phase := Cut)] && |s'.loops| == |s.loops|;
    forall k | 0 <= k < |s'.loops|
      ensures InLoop(s'.loops[k], v) == if k == l && v == w then 0 else InLoop(s.loops[k], v)
    {
      assert k != l ==> s'.loops[k] == s.loops[k];
    }
  }

  lemma ItemsCancel(s: State, l: nat, w: Work)
    requires ItemsInv(s) && Enabled(s, Cancel(l, w)) && CanCancel(s, w)
    ensures ItemsInv(Apply(s, Cancel(l, w)))
  {
    var s' := Apply(s, Cancel(l, w));
    CancelTest(s, l, w);
    assert RecOk(s, s.items[w], w);
    forall v ensures Placed(s', v) { CancelPlaced(s, l, w, v); }
    forall v | v in s'.items ensures RecOk(s', s'.items[v], v) { assert RecOk(s, s.items[v], v); }
    forall u | 0 <= u < |s'.workers| ensures WorkerOk(s', s'.workers[u], u) { assert WorkerOk(s, s.workers[u], u); }
    forall k | 0 <= k < |s'.loops| ensures LoopOk(s', s'.loops[k], k) { assert LoopOk(s, s.loops[k], k); }
  }

  lemma ItemsCancelPut(s: State, l: nat)
    requires ItemsInv(s) && Enabled(s, CancelPut(l))
    ensures ItemsInv(Apply(s, CancelPut(l)))
  {
    var s' := Apply(s, CancelPut(l));
    var w := s.loops[l].cancel.w;
    assert LoopOk(s, s.loops[l], l) && RecOk(s, s.items[w], w);
    assert JoinsLoop(s, s', w, l);
    forall v ensures Placed(s', v) { JoinsPlaced(s, s', w, l, v); }
    forall v | v in s'.items ensures RecOk(s', s'.items[v], v) { assert RecOk(s, s.items[v], v); }
    forall u | 0 <= u < |s'.workers| ensures WorkerOk(s', s'.workers[u], u) { assert WorkerOk(s, s.workers[u], u); }
    forall k | 0 <= k < |s'.loops| ensures LoopOk(s', s'.loops[k], k) { assert LoopOk(s, s.loops[k], k); }
  }

  lemma ItemsStep(s: State, a: Action)
    requires ItemsInv(s) && Enabled(s, a)
    ensures ItemsInv(Apply(s, a))
  {
    match a
    case Submit(w, l, pick) => ItemsSubmit(s, w, l, pick);
    case PostExit(_) => ItemsSleepers(s, a);
    case Turn(t, pick) => if MovesItem(s, a) { ItemsTake(s, t, pick); } else { ItemsSleepers(s, a); }
    case Spurious(_) => ItemsSleepers(s, a);
    case Finish(t) => ItemsFinish(s, t);
    case Publish(t) => ItemsPublish(s, t);
    case WorkerSend(_, _) => ItemsSend(s, a);
    case LoopStep(l, act) => ItemsLoopStep(s, l, act);
    case Move(_) => ItemsDrain(s, a);
    case Pop(l) => ItemsPop(s, l);
    case DoneReturns(_) => ItemsDrain(s, a);
    case EndDrain(_) => ItemsDrain(s, a);
    case Cancel(l, w) => if CanCancel(s, w) { ItemsCancel(s, l, w); }
    case CancelPut(l) => ItemsCancelPut(s, l);
    case CancelSends(_, _) => ItemsSend(s, a);
  }

  // ---------------------------------------------------------------- sleeping workers

  ghost function At(workers: seq<WorkerPc>, pc: WorkerPc): set<nat> {
    set t: nat | t < |workers| && workers[t] == pc
  }

  ghost function Count(workers: seq<WorkerPc>, pc: WorkerPc): nat {
    |At(workers, pc)|
  }

  lemma CountUpdate(workers: seq<WorkerPc>, t: nat, new_: WorkerPc, pc: WorkerPc)
    requires t < |workers|
    ensures Count(workers[t := new_], pc)
      == Count(workers, pc) - (if workers[t] == pc then 1 else 0) + (if new_ == pc then 1 else 0)
  {
    var rest := At(workers, pc) - {t};
    assert At(workers, pc) == if workers[t] == pc then rest + {t} else rest;
    assert At(workers[t := new_], pc) == if new_ == pc then rest + {t} else rest;
  }

  lemma CountSome(workers: seq<WorkerPc>, pc: WorkerPc)
    ensures Count(workers, pc) > 0 <==> exists t :: 0 <= t < |workers| && workers[t] == pc
  {
    if exists t :: 0 <= t < |workers| && workers[t] == pc {
      var t: nat :| t < |workers| && workers[t] == pc;
      assert t in At(workers, pc);
    } else {
      assert At(workers, pc) == {};
    }
  }

  /**
   idle_threads counts the workers inside uv_cond_wait. While a worker sleeps unwoken there is
   no more work queued than workers on their way to it. A worker leaves only when exit_message
   is at the head of the queue, and it stays there.
   */
  ghost predicate SleepInv(s: State) {
    && s.idle == Count(s.workers, Waiting) + Count(s.workers, Woken)
    && (Count(s.workers, Waiting) > 0 ==> |s.queue| <= Count(s.workers, Woken))
    && (Count(s.workers, Exited) > 0 ==> s.queue != [] && s.queue[0] == Exit)
    && (s.exiting <==> Exit in s.queue)
  }

  lemma SignalCounts(workers: seq<WorkerPc>, pick: nat)
    requires CanSignal(workers, pick)
    ensures var w' := Signal(workers, pick); var any := if Count(workers, Waiting) > 0 then 1 else 0;
      && |w'| == |workers|
      && Count(w', Waiting) == Count(workers, Waiting) - any
      && Count(w', Woken) == Count(workers, Woken) + any
      && Count(w', Exited) == Count(workers, Exited)
  {
    CountSome(workers, Waiting);
    if pick < |workers| && workers[pick] == Waiting {
      CountUpdate(workers, pick, Woken, Waiting);
      CountUpdate(workers, pick, Woken, Woken);
      CountUpdate(workers, pick, Woken, Exited);
    }
  }

  lemma SleepPost(s: State, e: Entry, pick: nat)
    requires SleepInv(s) && CanSignal(s.workers, pick)
    ensures var s' := Post(s, e, pick); SleepInv(s'.(exiting := s.exiting || e.Exit?))
  {
    SignalCounts(s.workers, pick);
  }

  lemma SleepTurn(s: State, t: nat, pick: nat)
    requires SleepInv(s) && Enabled(s, Turn(t, pick))
    ensures SleepInv(Apply(s, Turn(t, pick)))
  {
    if s.queue == [] {
      CountUpdate(s.workers, t, Waiting, Waiting);
      CountUpdate(s.workers, t, Waiting, Woken);
      CountUpdate(s.workers, t, Waiting, Exited);
    } else if s.queue[0] == Exit {
      SignalCounts(s.workers, pick);
      var ws := Signal(s.workers, pick);
      assert ws[t] == s.workers[t];
      CountUpdate(ws, t, Exited, Waiting);
      CountUpdate(ws, t, Exited, Woken);
      CountUpdate(ws, t, Exited, Exited);
    } else {
      CountUpdate(s.workers, t, Running(s.queue[0].w), Waiting);
      CountUpdate(s.workers, t, Running(s.queue[0].w), Woken);
      CountUpdate(s.workers, t, Running(s.queue[0].w), Exited);
      assert Exit in s.queue <==> Exit in s.queue[1..];
    }
  }

  /** exit_message at the head stays at the head when an item is taken out. */
  lemma HeadStays(q: seq<Entry>, w: Work)
    ensures Exit in Without(q, Item(w)) <==> Exit in q
    ensures |Without(q, Item(w))| <= |q|
    ensures q != [] && q[0] == Exit ==> Without(q, Item(w)) != [] && Without(q, Item(w))[0] == Exit
  {
    WithoutIn(q, Item(w));
  }

  lemma SleepOther(s: State, s': State, t: nat, pc: WorkerPc)
    requires SleepInv(s) && s'.queue == s.queue && s'.idle == s.idle && s'.exiting == s.exiting
    requires t < |s.workers| && s'.workers == s.workers[t := pc]
    requires !pc.Waiting? && !pc.Exited? && !s.workers[t].Woken? && !s.workers[t].Exited?
    requires pc.Woken? <==> s.workers[t].Waiting?
    ensures SleepInv(s')
  {
    CountUpdate(s.workers, t, pc, Waiting);
    CountUpdate(s.workers, t, pc, Woken);
    CountUpdate(s.workers, t, pc, Exited);
  }

  lemma SleepElsewhere(s: State, a: Action)
    requires SleepInv(s) && Enabled(s, a)
    requires a.LoopStep? || a.Move? || a.Pop? || a.DoneReturns? || a.EndDrain? || a.CancelPut? || a.CancelSends?
    ensures SleepInv(Apply(s, a))
  {
  }

  lemma SleepWorker(s: State, a: Action)
    requires SleepInv(s) && Enabled(s, a) && (a.Spurious? || a.Finish? || a.Publish? || a.WorkerSend?)
    ensures SleepInv(Apply(s, a))
  {
    var s' := Apply(s, a);
    if s'.workers != s.workers {
      SleepOther(s, s', a.t, s'.workers[a.t]);
    }
  }

  lemma SleepStep(s: State, a: Action)
    requires SleepInv(s) && Enabled(s, a)
    ensures SleepInv(Apply(s, a))
  {
    match a
    case Submit(w, l, pick) => SleepPost(s, Item(w), pick);
    case PostExit(pick) => SleepPost(s, Exit, pick);
    case Turn(t, pick) => SleepTurn(s, t, pick);
    case Spurious(_) => SleepWorker(s, a);
    case Finish(_) => SleepWorker(s, a);
    case Publish(_) => SleepWorker(s, a);
    case WorkerSend(_, _) => SleepWorker(s, a);
    case Cancel(l, w) => HeadStays(s.queue, w);
    case _ => SleepElsewhere(s, a);
  }

  /** Work-conserving: with nobody on the way to the queue, a sleeping worker means an empty queue. */
  lemma SleepersMeanNoWork(s: State)
    requires SleepInv(s)
    requires Count(s.workers, Waiting) > 0 && Count(s.workers, Woken) == 0
    ensures s.queue == []
  {
  }

  /** As long as there is something in the queue and a worker is left, some worker is awake. */
  lemma SomeoneAwake(s: State, t: nat)
    requires SleepInv(s) && s.queue != [] && t < |s.workers| && !s.workers[t].Exited?
    ensures exists u :: 0 <= u < |s.workers| && !s.workers[u].Exited? && !s.workers[u].Waiting?
  {
    CountSome(s.workers, Waiting);
    CountSome(s.workers, Woken);
    if s.workers[t] == Waiting {
      var u :| 0 <= u < |s.workers| && s.workers[u] == Woken;
    }
  }

  // ---------------------------------------------------------------- waking the loops

  /** The sender ids of the pool are inside uv_async_send(wq_async) just when their program counters say so. */
  ghost predicate SendersOk(s: State, ls: LoopState, l: nat) {
    && (forall t: nat :: t < |s.workers| ==>
          if s.workers[t] == Sending(l) then !A.Pc(ls.a, t).Outside? && A.Pc(ls.a, t).h == WQ
          else A.Pc(ls.a, t).Outside?)
    && (if ls.cancel.CancelSend? then !A.Pc(ls.a, LoopThread(s)).Outside? && A.Pc(ls.a, LoopThread(s)).h == WQ
        else A.Pc(ls.a, LoopThread(s)).Outside?)
  }

  /** A thread of the pool has queued an item with the loop and has not got past the pending flag yet. */
  ghost predicate AboutToAnnounce(s: State, ls: LoopState) {
    exists t: nat :: t <= |s.workers| && A.Tries(A.Pc(ls.a, t), WQ)
  }

  /** Completed work is never stranded. */
  ghost predicate Announced(s: State, ls: LoopState) {
    ls.wq != [] ==> WQ in ls.a.owed || AboutToAnnounce(s, ls) || ls.pc.Collect?
  }

  ghost predicate LoopInv(s: State, ls: LoopState, l: nat) {
    && A.Inv(ls.a) && A.Open(ls.a, WQ) && WQ !in ls.a.mute
    && SendersOk(s, ls, l) && Announced(s, ls)
  }

  ghost predicate WakeInv(s: State) {
    forall l :: 0 <= l < |s.loops| ==> LoopInv(s, s.loops[l], l)
  }

  /** One async step of a loop, by whomever, when the pool's part of the state does not change. */
  lemma AsyncKeeps(s: State, ls: LoopState, l: nat, act: A.Action)
    requires LoopInv(s, ls, l) && A.Enabled(ls.a, act) && (act.Init? || act.Close? ==> act.h != WQ)
    ensures var a' := A.Apply(ls.a, act);
      && A.Inv(a') && A.Open(a', WQ) && WQ !in a'.mute
      && (WQ in ls.a.owed && WQ !in a'.owed ==> act.Examine? && a'.pc == A.Calling(WQ))
  {
    A.StepInv(ls.a, act);
    if act.Examine? { assert ls.a.todo == [ls.a.todo[0]] + ls.a.todo[1..]; }
    if act.Close? {
      WithoutIn(ls.a.handles, act.h);
      WithoutIn(ls.a.todo, act.h);
    }
  }

  /** A thread that gets past the pending flag leaves the loop owed a callback. */
  lemma AnnounceKeeps(s: State, ls: LoopState, l: nat, act: A.Action)
    requires LoopInv(s, ls, l) && A.Enabled(ls.a, act) && AboutToAnnounce(s, ls)
    ensures var a' := A.Apply(ls.a, act);
      WQ in a'.owed || AboutToAnnounce(s, ls.(a := a'))
  {
    var t: nat :| t <= |s.workers| && A.Tries(A.Pc(ls.a, t), WQ);
    var a' := A.Apply(ls.a, act);
    if !A.Tries(A.Pc(a', t), WQ) {
      A.SendLeavesOwed(ls.a, act, t, WQ);
    }
  }

  /** The workers inside uv_async_send, for every loop but l, are the same. */
  ghost predicate SameSenders(s: State, s': State, l: nat) {
    && |s'.workers| == |s.workers| && |s'.loops| == |s.loops|
    && forall t, k :: 0 <= t < |s.workers| && k != l ==> (s'.workers[t] == Sending(k) <==> s.workers[t] == Sending(k))
  }

  lemma WakeAt(s: State, s': State, l: nat)
    requires WakeInv(s) && SameSenders(s, s', l) && (l < |s.loops| ==> LoopInv(s', s'.loops[l], l))
    requires forall k :: 0 <= k < |s.loops| && k != l ==> s'.loops[k] == s.loops[k]
    ensures WakeInv(s')
  {
    forall k | 0 <= k < |s'.loops| ensures LoopInv(s', s'.loops[k], k) {
      if k != l {
        assert LoopInv(s, s.loops[k], k);
        assert SendersOk(s', s'.loops[k], k);
      }
    }
  }

  /** Work that was announced, or about to be, still is after an async step that leaves the work queue alone. */
  lemma AnnouncedStep(s: State, s': State, ls: LoopState, ls': LoopState, l: nat, act: A.Action)
    requires LoopInv(s, ls, l) && A.Enabled(ls.a, act) && (act.Init? || act.Close? ==> act.h != WQ)
    requires |s'.workers| == |s.workers| && ls'.a == A.Apply(ls.a, act) && ls'.wq == ls.wq
    requires if act.Examine? && ls'.a.pc == A.Calling(WQ) then ls'.pc.Collect? else ls'.pc == ls.pc
    ensures A.Inv(ls'.a) && A.Open(ls'.a, WQ) && WQ !in ls'.a.mute && Announced(s', ls')
  {
    AsyncKeeps(s, ls, l, act);
    if AboutToAnnounce(s, ls) {
      AnnounceKeeps(s, ls, l, act);
      assert AboutToAnnounce(s, ls.(a := ls'.a)) ==> AboutToAnnounce(s', ls');
    }
  }

  /** The steps that are not sends of wq_async do not move the pool's threads inside uv_async_send. */
  lemma OwnStepSenders(s: State, ls: LoopState, act: A.Action, t: nat)
    requires A.Enabled(ls.a, act) && OwnStep(s, ls, act) && t <= LoopThread(s)
    ensures A.Pc(A.Apply(ls.a, act), t) == A.Pc(ls.a, t)
  {
  }

  /** A step of the async machinery that is not a send of wq_async keeps the loop in order. */
  lemma LoopInvOther(s: State, ls: LoopState, l: nat, act: A.Action, pc: LoopPc)
    requires LoopInv(s, ls, l) && A.Enabled(ls.a, act) && OwnStep(s, ls, act)
    requires if act.Examine? && A.Apply(ls.a, act).pc == A.Calling(WQ) then pc.Collect? else pc == ls.pc
    ensures LoopInv(s, ls.(a := A.Apply(ls.a, act), pc := pc), l)
  {
    var ls' := ls.(a := A.Apply(ls.a, act), pc := pc);
    AnnouncedStep(s, s, ls, ls', l, act);
    assert SendersOk(s, ls', l) by {
      forall t: nat | t <= |s.workers| ensures A.Pc(ls'.a, t) == A.Pc(ls.a, t) {
        OwnStepSenders(s, ls, act, t);
      }
    }
  }

  lemma WakeLoopStep(s: State, l: nat, act: A.Action)
    requires WakeInv(s) && Enabled(s, LoopStep(l, act))
    ensures WakeInv(Apply(s, LoopStep(l, act)))
  {
    var s' := Apply(s, LoopStep(l, act));
    assert LoopInv(s, s.loops[l], l);
    LoopInvOther(s, s.loops[l], l, act, s'.loops[l].pc);
    assert LoopInv(s', s'.loops[l], l);
    WakeAt(s, s', l);
  }

  /** A send of wq_async by a worker or by the loop thread goes one step further. */
  lemma LoopInvSend(s: State, s': State, l: nat, act: A.Action, t: A.Thread)
    requires l < |s.loops| && |s'.loops| == |s.loops| && |s'.workers| == |s.workers|
    requires LoopInv(s, s.loops[l], l) && A.Enabled(s.loops[l].a, act) && SendsBy(act, t) && t <= |s.workers|
    requires s'.loops[l].a == A.Apply(s.loops[l].a, act)
    requires s'.loops[l].wq == s.loops[l].wq && s'.loops[l].pc == s.loops[l].pc
    requires SendersOk(s', s'.loops[l], l)
    ensures LoopInv(s', s'.loops[l], l)
  {
    AnnouncedStep(s, s', s.loops[l], s'.loops[l], l, act);
  }

  /** What a thread that is sending wq_async is doing next. */
  lemma SenderMoves(a: A.State, act: A.Action, t: A.Thread)
    requires A.Enabled(a, act) && SendsBy(act, t)
    ensures A.Pc(A.Apply(a, act), t).Outside? || A.Pc(A.Apply(a, act), t).h == A.Pc(a, t).h
    ensures forall u :: u != t ==> A.Pc(A.Apply(a, act), u) == A.Pc(a, u)
  {
  }

  lemma SendersAfterWorker(s: State, t: nat, act: A.Action)
    requires WakeInv(s) && Enabled(s, WorkerSend(t, act))
    ensures var s' := Apply(s, WorkerSend(t, act)); SendersOk(s', s'.loops[s.workers[t].l], s.workers[t].l)
  {
    var l := s.workers[t].l;
    assert LoopInv(s, s.loops[l], l);
    SenderMoves(s.loops[l].a, act, t);
  }

  lemma WakeWorkerSend(s: State, t: nat, act: A.Action)
    requires WakeInv(s) && Enabled(s, WorkerSend(t, act))
    ensures WakeInv(Apply(s, WorkerSend(t, act)))
  {
    var s' := Apply(s, WorkerSend(t, act));
    var l := s.workers[t].l;
    assert LoopInv(s, s.loops[l], l);
    SendersAfterWorker(s, t, act);
    LoopInvSend(s, s', l, act, t);
    WakeAt(s, s', l);
  }

  lemma WakeCancelSends(s: State, l: nat, act: A.Action)
    requires WakeInv(s) && Enabled(s, CancelSends(l, act))
    ensures WakeInv(Apply(s, CancelSends(l, act)))
  {
    var s' := Apply(s, CancelSends(l, act));
    assert LoopInv(s, s.loops[l], l);
    SenderMoves(s.loops[l].a, act, LoopThread(s));
    assert SendersOk(s', s'.loops[l], l);
    LoopInvSend(s, s', l, act, LoopThread(s));
    WakeAt(s, s', l);
  }

  lemma WakePublish(s: State, t: nat)
    requires WakeInv(s) && Enabled(s, Publish(t))
    ensures WakeInv(Apply(s, Publish(t)))
  {
    var s' := Apply(s, Publish(t));
    var l := Get(s, s.workers[t].w).loop;
    var ls := s.loops[l];
    assert LoopInv(s, ls, l);
    AsyncKeeps(s, ls, l, A.Send(t, WQ));
    assert A.Tries(A.Pc(s'.loops[l].a, t), WQ);
    assert SendersOk(s', s'.loops[l], l);
    WakeAt(s, s', l);
  }

  lemma WakeCancelPut(s: State, l: nat)
    requires WakeInv(s) && Enabled(s, CancelPut(l))
    ensures WakeInv(Apply(s, CancelPut(l)))
  {
    var s' := Apply(s, CancelPut(l));
    var ls := s.loops[l];
    assert LoopInv(s, ls, l);
    AsyncKeeps(s, ls, l, A.Send(LoopThread(s), WQ));
    assert A.Tries(A.Pc(s'.loops[l].a, LoopThread(s)), WQ);
    assert SendersOk(s', s'.loops[l], l);
    WakeAt(s, s', l);
  }

  /** Steps that leave the senders alone: those of uv__work_done, and the first half of a cancellation. */
  lemma LoopInvQuiet(s: State, s': State, l: nat)
    requires l < |s.loops| && |s'.loops| == |s.loops| && s'.workers == s.workers && LoopInv(s, s.loops[l], l)
    requires s'.loops[l].cancel.CancelSend? <==> s.loops[l].cancel.CancelSend?
    requires s'.loops[l].a == s.loops[l].a
      || (A.Enabled(s.loops[l].a, A.Return) && s'.loops[l].a == A.Apply(s.loops[l].a, A.Return))
    requires s'.loops[l].wq != [] ==> s.loops[l].wq != [] && (s.loops[l].pc.Collect? ==> s'.loops[l].pc.Collect?)
    ensures LoopInv(s', s'.loops[l], l)
  {
    var ls, ls' := s.loops[l], s'.loops[l];
    if ls'.a != ls.a { AsyncKeeps(s, ls, l, A.Return); }
    assert forall t :: A.Pc(ls'.a, t) == A.Pc(ls.a, t);
    assert AboutToAnnounce(s, ls) ==> AboutToAnnounce(s', ls');
  }

  lemma WakeDrain(s: State, a: Action)
    requires WakeInv(s) && Enabled(s, a)
    requires a.Move? || a.Pop? || a.DoneReturns? || a.EndDrain? || a.Cancel?
    ensures WakeInv(Apply(s, a))
  {
    assert LoopInv(s, s.loops[a.l], a.l);
    LoopInvQuiet(s, Apply(s, a), a.l);
    WakeAt(s, Apply(s, a), a.l);
  }

  lemma WakeElsewhere(s: State, a: Action)
    requires WakeInv(s) && Enabled(s, a)
    requires a.Submit? || a.PostExit? || a.Turn? || a.Spurious? || a.Finish?
    ensures WakeInv(Apply(s, a))
  {
    assert Apply(s, a).loops == s.loops;
    assert SameSenders(s, Apply(s, a), |s.loops|);
    WakeAt(s, Apply(s, a), |s.loops|);
  }

  lemma WakeStep(s: State, a: Action)
    requires WakeInv(s) && Enabled(s, a)
    ensures WakeInv(Apply(s, a))
  {
    match a
    case WorkerSend(t, act) => WakeWorkerSend(s, t, act);
    case CancelSends(l, act) => WakeCancelSends(s, l, act);
    case LoopStep(l, act) => WakeLoopStep(s, l, act);
    case Publish(t) => WakePublish(s, t);
    case CancelPut(l) => WakeCancelPut(s, l);
    case Move(_) => WakeDrain(s, a);
    case Pop(_) => WakeDrain(s, a);
    case DoneReturns(_) => WakeDrain(s, a);
    case EndDrain(_) => WakeDrain(s, a);
    case Cancel(_, _) => WakeDrain(s, a);
    case _ => WakeElsewhere(s, a);
  }

  // ---------------------------------------------------------------- runs

  ghost predicate Inv(s: State) {
    ItemsInv(s) && SleepInv(s) && WakeInv(s)
  }

  /** A pool whose threads have just been made, and loops that have made their wq_async handle. */
  ghost predicate Initial(s: State) {
    && s.queue == [] && s.idle == 0 && s.items == map[] && !s.exiting
    && (forall t :: 0 <= t < |s.workers| ==> s.workers[t] == Awake)
    && (forall l :: 0 <= l < |s.loops| ==> FreshLoop(s.loops[l]))
  }

  ghost predicate FreshLoop(ls: LoopState) {
    && ls.wq == [] && ls.local == [] && ls.pc.Idle? && ls.cancel.NoCancel?
    && exists a: A.State :: A.Initial(a) && ls.a == A.Apply(a, A.Init(WQ, false))
  }

  lemma InitialInv(s: State)
    requires Initial(s)
    ensures Inv(s)
  {
    assert At(s.workers, Waiting) == {} && At(s.workers, Woken) == {} && At(s.workers, Exited) == {};
    forall l | 0 <= l < |s.loops| ensures LoopInv(s, s.loops[l], l) && s.loops[l].a.pc.Polling? {
      assert FreshLoop(s.loops[l]);
      var a :| A.Initial(a) && s.loops[l].a == A.Apply(a, A.Init(WQ, false));
      A.InitialInv(a);
      A.StepInv(a, A.Init(WQ, false));
    }
    assert ItemsInv(s);
  }

  lemma StepInv(s: State, a: Action)
    requires Inv(s) && Enabled(s, a)
    ensures Inv(Apply(s, a))
  {
    ItemsStep(s, a);
    SleepStep(s, a);
    WakeStep(s, a);
  }

  ghost predicate IsRun(s: State, run: seq<Action>)
    decreases |run|
  {
    run != [] ==> Enabled(s, run[0]) && IsRun(Apply(s, run[0]), run[1..])
  }

  ghost function Exec(s: State, run: seq<Action>): State
    requires IsRun(s, run)
    decreases |run|
  {
    if run == [] then s else Exec(Apply(s, run[0]), run[1..])
  }

  lemma {:induction false} RunInv(s: State, run: seq<Action>)
    requires Inv(s) && IsRun(s, run)
    ensures Inv(Exec(s, run))
    decreases |run|
  {
    if run != [] {
      StepInv(s, run[0]);
      RunInv(Apply(s, run[0]), run[1..]);
    }
  }

  /**
   In every interleaving: done is called at most once per item. Once it has been, status 0 means
   that the work function ran exactly once and to its end, UV_ECANCELED that it never ran.
   */
  lemma DoneOnce(s: State, run: seq<Action>, w: Work)
    requires Initial(s) && IsRun(s, run) && w in Exec(s, run).items
    ensures var r := Exec(s, run).items[w];
      && r.dones <= 1 && r.started <= 1 && r.ended <= r.started
      && (r.dones == 1 ==>
            || (r.status == 0 && r.started == 1 && r.ended == 1)
            || (r.status == ECANCELED && r.started == 0))
  {
    InitialInv(s);
    RunInv(s, run);
    assert RecOk(Exec(s, run), Exec(s, run).items[w], w);
  }

  /**
   No completed work is stranded. In every reachable state a loop with finished items has its wq_async
   pending with the wakeup on its way, or a thread that has inserted an item and is yet to set the flag,
   or has cleared the flag and is yet to collect the queue.
   */
  lemma NothingStranded(s: State, run: seq<Action>, l: nat)
    requires Initial(s) && IsRun(s, run) && l < |Exec(s, run).loops| && Exec(s, run).loops[l].wq != []
    ensures var ls := Exec(s, run).loops[l];
      || (WQ in ls.a.pending && A.OnItsWay(ls.a, WQ))
      || AboutToAnnounce(Exec(s, run), ls)
      || ls.pc.Collect?
  {
    InitialInv(s);
    RunInv(s, run);
    var s' := Exec(s, run);
    assert LoopInv(s', s'.loops[l], l);
  }

  /** Nothing moves: all workers sleep or are gone, all loops are back in their polls, nothing is unread. */
  ghost predicate Quiet(s: State) {
    && (forall t :: 0 <= t < |s.workers| ==> s.workers[t].Waiting? || s.workers[t].Exited?)
    && (forall l :: 0 <= l < |s.loops| ==>
          s.loops[l].pc.Idle? && s.loops[l].cancel.NoCancel? && A.Quiescent(s.loops[l].a))
  }

  lemma QuietLoops(s: State, w: Work)
    requires Inv(s) && Quiet(s) && w in s.items
    ensures s.items[w].phase.Delivered? || s.items[w].phase.Queued?
  {
    var r := s.items[w];
    assert RecOk(s, r, w);
    var ls := s.loops[r.loop];
    assert LoopInv(s, ls, r.loop) && LoopOk(s, ls, r.loop);
    assert Placed(s, w);
    assert !AboutToAnnounce(s, ls);
    assert !A.OnItsWay(ls.a, WQ);
    assert WQ !in ls.a.owed;
    assert ls.wq == [] && ls.local == [];
    assert InLoop(ls, w) == 0;
  }

  /**
   Nothing is lost. When nothing moves any more, every item ever submitted has had its done
   called exactly once; the only exception are items posted behind exit_message, once every
   worker is gone.
   */
  lemma EveryItemDelivered(s: State, run: seq<Action>, w: Work)
    requires Initial(s) && IsRun(s, run) && |s.workers| > 0
    requires Quiet(Exec(s, run)) && w in Exec(s, run).items
    ensures var s' := Exec(s, run);
      || s'.items[w].dones == 1
      || (s'.exiting && s'.items[w].phase.Queued? && s'.queue != [] && s'.queue[0] == Exit
          && forall t :: 0 <= t < |s'.workers| ==> s'.workers[t].Exited?)
  {
    InitialInv(s);
    RunInv(s, run);
    WorkersStay(s, run);
    var s' := Exec(s, run);
    QuietLoops(s', w);
    assert RecOk(s', s'.items[w], w) && Placed(s', w);
    CountSome(s'.workers, Waiting);
    CountSome(s'.workers, Woken);
    CountSome(s'.workers, Exited);
    assert s'.items[w].phase.Queued? ==> Item(w) in s'.queue;
    assert s'.workers[0].Exited? || s'.workers[0].Waiting?;
  }

  lemma {:induction false} WorkersStay(s: State, run: seq<Action>)
    requires IsRun(s, run)
    ensures |Exec(s, run).workers| == |s.workers|
    decreases |run|
  {
    if run != [] { WorkersStay(Apply(s, run[0]), run[1..]); }
  }

  // ---------------------------------------------------------------- shutting down

  /** Item w stands in the queue in front of every exit_message. */
  predicate Ahead(q: seq<Entry>, w: Work) {
    q != [] && q[0] != Exit && (q[0] == Item(w) || Ahead(q[1..], w))
  }

  lemma {:induction false} AheadStays(q: seq<Entry>, e: Entry, w: Work)
    requires Ahead(q, w)
    ensures Ahead(q + [e], w)
  {
    assert (q + [e])[1..] == q[1..] + [e];
    if q[0] != Item(w) { AheadStays(q[1..], e, w); }
  }

  lemma {:induction false} AheadRemove(q: seq<Entry>, v: Work, w: Work)
    requires Ahead(q, w) && v != w
    ensures Ahead(Without(q, Item(v)), w)
  {
    if q[0] != Item(w) { AheadRemove(q[1..], v, w); }
  }

  /** Before exit_message is posted, everything in the queue will be ahead of it. */
  lemma {:induction false} AheadAtPost(q: seq<Entry>, w: Work)
    requires Exit !in q && Item(w) in q
    ensures Ahead(q + [Exit], w)
  {
    assert (q + [Exit])[1..] == q[1..] + [Exit];
    if q[0] != Item(w) { AheadAtPost(q[1..], w); }
  }

  /** w has left the queue, or is still ahead of exit_message. */
  predicate GoneOrAhead(s: State, w: Work) {
    w in s.items && (Item(w) in s.queue ==> Ahead(s.queue, w))
  }

  lemma NoneTwice(s: State, w: Work)
    requires ItemsInv(s) && s.queue != [] && s.queue[0] == Item(w)
    ensures Item(w) !in s.queue[1..]
  {
    HeadCounts(s.queue);
    assert Placed(s, w);
  }

  lemma GoneOrAheadStep(s: State, a: Action, w: Work)
    requires Inv(s) && Enabled(s, a) && GoneOrAhead(s, w)
    ensures GoneOrAhead(Apply(s, a), w)
  {
    match a
    case Submit(v, _, _) => if Item(w) in s.queue { AheadStays(s.queue, Item(v), w); }
    case PostExit(_) => if Item(w) in s.queue { AheadStays(s.queue, Exit, w); }
    case Turn(_, _) => if s.queue != [] && s.queue[0] == Item(w) { NoneTwice(s, w); }
    case Cancel(_, v) =>
      WithoutIn(s.queue, Item(v));
      if Item(w) in s.queue && v != w { AheadRemove(s.queue, v, w); }
    case _ =>
  }

  lemma {:induction false} GoneOrAheadRun(s: State, run: seq<Action>, w: Work)
    requires Inv(s) && IsRun(s, run) && GoneOrAhead(s, w)
    ensures GoneOrAhead(Exec(s, run), w)
    decreases |run|
  {
    if run != [] {
      StepInv(s, run[0]);
      GoneOrAheadStep(s, run[0], w);
      GoneOrAheadRun(Apply(s, run[0]), run[1..], w);
    }
  }

  /**
   No worker exits before every item posted ahead of exit_message has left the queue: of any item
   that was in the queue when exit_message was posted, nothing is left there in any later state in
   which a worker is gone. It has been taken by a worker or cancelled.
   */
  lemma ExitWaitsForEarlierWork(s: State, pick: nat, run: seq<Action>, w: Work, t: nat)
    requires Inv(s) && Enabled(s, PostExit(pick)) && Item(w) in s.queue
    requires IsRun(Apply(s, PostExit(pick)), run)
    requires var s' := Exec(Apply(s, PostExit(pick)), run); t < |s'.workers| && s'.workers[t].Exited?
    ensures var s' := Exec(Apply(s, PostExit(pick)), run);
      Item(w) !in s'.queue && w in s'.items && !s'.items[w].phase.Queued?
  {
    var s1 := Apply(s, PostExit(pick));
    assert Placed(s, w);
    AheadAtPost(s.queue, w);
    StepInv(s, PostExit(pick));
    GoneOrAheadRun(s1, run, w);
    RunInv(s1, run);
    ExitedMeansGone(Exec(s1, run), w, t);
  }

  lemma ExitedMeansGone(s: State, w: Work, t: nat)
    requires Inv(s) && GoneOrAhead(s, w) && t < |s.workers| && s.workers[t].Exited?
    ensures Item(w) !in s.queue && !s.items[w].phase.Queued?
  {
    CountSome(s.workers, Exited);
    assert Placed(s, w);
  }

  /** uv_cancel succeeds exactly when the work has not begun; a second success does not deliver twice. */
  lemma CancelWorks(s: State, l: nat, w: Work)
    requires Inv(s) && Enabled(s, Cancel(l, w))
    ensures Apply(s, Cancel(l, w)) != s <==> s.items[w].started == 0
  {
    CancelTest(s, l, w);
    if CanCancel(s, w) { assert Apply(s, Cancel(l, w)).items[w].phase == Cut; }
    assert RecOk(s, s.items[w], w);
    assert s.loops[l].cancel.NoCancel?;
  }

  /** The guards of the worker's steps never hold it up: what it needs next is always there. */
  lemma WorkerGoesOn(s: State, t: nat)
    requires Inv(s) && t < |s.workers|
    ensures s.workers[t].Ran? ==> Enabled(s, Publish(t))
    ensures s.workers[t].Sending? ==> exists act :: Enabled(s, WorkerSend(t, act))
    ensures s.workers[t].Woken? ==> 0 < s.idle
  {
    var pc := s.workers[t];
    assert WorkerOk(s, pc, t);
    if pc.Ran? {
      assert RecOk(s, s.items[pc.w], pc.w);
      assert LoopInv(s, s.loops[s.items[pc.w].loop], s.items[pc.w].loop);
    }
    if pc.Sending? {
      assert LoopInv(s, s.loops[pc.l], pc.l);
      var act := match A.Pc(s.loops[pc.l].a, t) {
        case Check(_) => A.ReadFlag(t)
        case Cas(_) => A.TrySet(t)
        case _ => A.Put(t, false)
      };
      assert Enabled(s, WorkerSend(t, act));
    }
    CountSome(s.workers, Woken);
  }
}
