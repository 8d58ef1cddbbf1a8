/**
 Where, when and in what order the thread pool does what it does (threadpool.c): the done callback of an
 item runs on the loop that submitted it, work is begun in the order of submission, and finished items
 are delivered in the order in which they finished.
 */
module WorkOrder {
  import A = AsyncWakeup
  import opened Sequences
  import opened ThreadPool

  function B(b: bool): nat { if b then 1 else 0 }

  // ---------------------------------------------------------------- what the history records

  /** The step in which the work function of w begins, and its end. */
  predicate Begins(s: State, a: Action, w: Work) {
    a.Turn? && s.queue != [] && s.queue[0] == Item(w)
  }

  predicate Ends(s: State, a: Action, w: Work)
    requires Enabled(s, a)
  {
    a.Finish? && s.workers[a.t] == Running(w)
  }

  /** The step in which done(w) begins, on loop a.l. */
  predicate Delivers(s: State, a: Action, w: Work)
    requires Enabled(s, a)
  {
    a.Pop? && s.loops[a.l].local[0] == w
  }

  lemma OtherHistory(s: State, a: Action, w: Work)
    requires Enabled(s, a) && w in s.items && !a.Turn? && !a.Finish? && !a.Pop?
    ensures w in Apply(s, a).items
    ensures var r, r' := s.items[w], Apply(s, a).items[w];
      r'.started == r.started && r'.ended == r.ended && r'.dones == r.dones && r'.loop == r.loop
  {
  }

  /**
   The history of an item is what has happened to it: each of its counts moves in the steps that begin or
   end its work or begin its done callback, and in no others; its loop never changes.
   */
  lemma HistoryIsTrue(s: State, a: Action, w: Work)
    requires Inv(s) && Enabled(s, a) && w in s.items
    ensures w in Apply(s, a).items
    ensures var r, r' := s.items[w], Apply(s, a).items[w];
      && r'.started == r.started + B(Begins(s, a, w))
      && r'.ended == r.ended + B(Ends(s, a, w))
      && r'.dones == r.dones + B(Delivers(s, a, w))
      && r'.loop == r.loop
    ensures Begins(s, a, w) ==> Apply(s, a).workers[a.t] == Running(w)
    ensures Delivers(s, a, w) ==> Apply(s, a).loops[a.l].pc == InDone(w)
  {
    if a.Finish? {
      assert WorkerOk(s, s.workers[a.t], a.t);
    } else if !a.Turn? && !a.Pop? {
      OtherHistory(s, a, w);
    }
  }

  // ---------------------------------------------------------------- done on the loop that submitted the work

  lemma {:induction false} LoopStays(s: State, run: seq<Action>, w: Work)
    requires Inv(s) && IsRun(s, run) && w in s.items
    ensures w in Exec(s, run).items && Exec(s, run).items[w].loop == s.items[w].loop
    decreases |run|
  {
    if run != [] {
      StepInv(s, run[0]);
      HistoryIsTrue(s, run[0], w);
      LoopStays(Apply(s, run[0]), run[1..], w);
    }
  }

  /** The item at the head of a local queue belongs to that loop. */
  lemma HeadIsOwn(s: State, l: nat)
    requires Inv(s) && l < |s.loops| && s.loops[l].local != []
    ensures var w := s.loops[l].local[0]; w in s.items && s.items[w].loop == l
  {
    var w := s.loops[l].local[0];
    assert Placed(s, w) && InLoop(s.loops[l], w) > 0;
  }

  /** In every run from the submission of w on loop l, if done(w) is called, it is called on loop l. */
  lemma DoneOnItsLoop(s: State, w: Work, l: nat, pick: nat, run: seq<Action>, k: nat)
    requires Inv(s) && Enabled(s, Submit(w, l, pick)) && IsRun(Apply(s, Submit(w, l, pick)), run)
    requires var s' := Exec(Apply(s, Submit(w, l, pick)), run);
      Enabled(s', Pop(k)) && s'.loops[k].local[0] == w
    ensures k == l
  {
    var s1 := Apply(s, Submit(w, l, pick));
    StepInv(s, Submit(w, l, pick));
    RunInv(s1, run);
    LoopStays(s1, run, w);
    HeadIsOwn(Exec(s1, run), k);
  }

  // ---------------------------------------------------------------- cancelled for good

  predicate OutOfQueue(s: State, w: Work) {
    w in s.items && !s.items[w].phase.Queued? && s.items[w].started == 0
  }

  lemma OutKeepsPhase(s: State, a: Action, w: Work)
    requires Inv(s) && Enabled(s, a) && OutOfQueue(s, w)
    ensures !Begins(s, a, w) && w in Apply(s, a).items && !Apply(s, a).items[w].phase.Queued?
  {
    assert Placed(s, w);
    assert Item(w) !in s.queue;
  }

  lemma OutStep(s: State, a: Action, w: Work)
    requires Inv(s) && Enabled(s, a) && OutOfQueue(s, w)
    ensures OutOfQueue(Apply(s, a), w)
  {
    HistoryIsTrue(s, a, w);
    OutKeepsPhase(s, a, w);
  }

  lemma {:induction false} OutRun(s: State, run: seq<Action>, w: Work)
    requires Inv(s) && IsRun(s, run) && OutOfQueue(s, w)
    ensures OutOfQueue(Exec(s, run), w)
    decreases |run|
  {
    if run != [] {
      StepInv(s, run[0]);
      OutStep(s, run[0], w);
      OutRun(Apply(s, run[0]), run[1..], w);
    }
  }

  /** Work that was cancelled never begins in any run, and its done callback is called with UV_ECANCELED. */
  lemma CancelIsFinal(s: State, l: nat, w: Work, run: seq<Action>)
    requires Inv(s) && Enabled(s, Cancel(l, w)) && CanCancel(s, w) && IsRun(Apply(s, Cancel(l, w)), run)
    ensures var s' := Exec(Apply(s, Cancel(l, w)), run);
      && w in s'.items && s'.items[w].started == 0
      && (s'.items[w].dones > 0 ==> s'.items[w].status == ECANCELED)
  {
    var s1 := Apply(s, Cancel(l, w));
    StepInv(s, Cancel(l, w));
    CancelTest(s, l, w);
    OutRun(s1, run, w);
    RunInv(s1, run);
    assert RecOk(Exec(s1, run), Exec(s1, run).items[w], w);
  }

  // ---------------------------------------------------------------- first in, first begun

  /** As long as v is in the queue, w has not begun and is not in front of v. */
  predicate BeginsLater(s: State, v: Work, w: Work) {
    && v in s.items && w in s.items
    && (Item(v) in s.queue ==>
          s.items[w].started == 0 && (Item(w) in s.queue ==> Precedes(s.queue, Item(v), Item(w))))
  }

  lemma TurnKeepsOrder(s: State, t: nat, pick: nat, v: Work, w: Work)
    requires Inv(s) && Enabled(s, Turn(t, pick)) && BeginsLater(s, v, w) && v != w
    ensures BeginsLater(Apply(s, Turn(t, pick)), v, w)
  {
    var s' := Apply(s, Turn(t, pick));
    HistoryIsTrue(s, Turn(t, pick), v);
    HistoryIsTrue(s, Turn(t, pick), w);
    if s.queue != [] && s.queue[0].Item? {
      var x := s.queue[0].w;
      NoneTwice(s, x);
      assert s.queue == [s.queue[0]] + s.queue[1..];
      if Item(v) in s'.queue && x == w { NotFirst(s.queue, Item(v), Item(w)); }
    }
  }

  lemma PostKeepsOrder(s: State, a: Action, v: Work, w: Work)
    requires Inv(s) && Enabled(s, a) && BeginsLater(s, v, w) && v != w && (a.Submit? || a.PostExit?)
    ensures BeginsLater(Apply(s, a), v, w)
  {
    var e := if a.Submit? then Item(a.w) else Exit;
    HistoryIsTrue(s, a, v);
    HistoryIsTrue(s, a, w);
    PrecedesAppend(s.queue, e, Item(v));
  }

  lemma CancelKeepsOrder(s: State, l: nat, x: Work, v: Work, w: Work)
    requires Inv(s) && Enabled(s, Cancel(l, x)) && BeginsLater(s, v, w) && v != w
    ensures BeginsLater(Apply(s, Cancel(l, x)), v, w)
  {
    HistoryIsTrue(s, Cancel(l, x), v);
    HistoryIsTrue(s, Cancel(l, x), w);
    WithoutIn(s.queue, Item(x));
    if Item(v) in s.queue && Item(w) in s.queue && x != v && x != w {
      PrecedesWithout(s.queue, Item(x), Item(v), Item(w));
    }
  }

  lemma QueueStays(s: State, a: Action)
    requires Enabled(s, a) && !a.Turn? && !a.Submit? && !a.PostExit? && !a.Cancel?
    ensures Apply(s, a).queue == s.queue
  {
  }

  lemma OtherKeepsOrder(s: State, a: Action, v: Work, w: Work)
    requires Inv(s) && Enabled(s, a) && BeginsLater(s, v, w)
    requires !a.Turn? && !a.Submit? && !a.PostExit? && !a.Cancel?
    ensures BeginsLater(Apply(s, a), v, w)
  {
    QueueStays(s, a);
    HistoryIsTrue(s, a, v);
    HistoryIsTrue(s, a, w);
  }

  lemma BeginsLaterStep(s: State, a: Action, v: Work, w: Work)
    requires Inv(s) && Enabled(s, a) && BeginsLater(s, v, w) && v != w
    ensures BeginsLater(Apply(s, a), v, w)
  {
    if a.Turn? {
      TurnKeepsOrder(s, a.t, a.pick, v, w);
    } else if a.Submit? || a.PostExit? {
      PostKeepsOrder(s, a, v, w);
    } else if a.Cancel? {
      CancelKeepsOrder(s, a.l, a.w, v, w);
    } else {
      OtherKeepsOrder(s, a, v, w);
    }
  }

  lemma {:induction false} BeginsLaterRun(s: State, run: seq<Action>, v: Work, w: Work)
    requires Inv(s) && IsRun(s, run) && BeginsLater(s, v, w) && v != w
    ensures BeginsLater(Exec(s, run), v, w)
    decreases |run|
  {
    if run != [] {
      StepInv(s, run[0]);
      BeginsLaterStep(s, run[0], v, w);
      BeginsLaterRun(Apply(s, run[0]), run[1..], v, w);
    }
  }

  /**
   Work is begun in the order of submission, by however many workers: in every run, an item submitted while
   v is in the queue has not begun as long as v is still there.
   */
  lemma BegunInOrder(s: State, v: Work, w: Work, l: nat, pick: nat, run: seq<Action>)
    requires Inv(s) && Item(v) in s.queue
    requires Enabled(s, Submit(w, l, pick)) && IsRun(Apply(s, Submit(w, l, pick)), run)
    ensures var s' := Exec(Apply(s, Submit(w, l, pick)), run);
      w in s'.items && (Item(v) in s'.queue ==> s'.items[w].started == 0)
  {
    assert Placed(s, v) && Placed(s, w);
    StepInv(s, Submit(w, l, pick));
    PrecedesAppend(s.queue, Item(w), Item(v));
    BeginsLaterRun(Apply(s, Submit(w, l, pick)), run, v, w);
  }

  // ---------------------------------------------------------------- first finished, first delivered

  /** The items that wait for delivery on a loop, in the order in which they will be delivered. */
  function Due(ls: LoopState): seq<Work> { ls.local + ls.wq }

  /** As long as v is due, done(w) has not been called and w is not due before v. */
  predicate DeliveredLater(s: State, l: nat, v: Work, w: Work) {
    && l < |s.loops| && w in s.items && s.items[w].loop == l
    && (v in Due(s.loops[l]) ==> s.items[w].dones == 0 && NotBefore(Due(s.loops[l]), v, w))
  }

  predicate NotBefore(d: seq<Work>, v: Work, w: Work) {
    v in d && w in d ==> Precedes(d, v, w)
  }

  /** What a step does to the list of due items of loop l. */
  predicate Moves(s: State, a: Action, l: nat, d: seq<Work>, d': seq<Work>)
    requires Enabled(s, a)
  {
    if a.Pop? && a.l == l then d != [] && d[0] == s.loops[l].local[0] && d' == d[1..]
    else if a.Cancel? && a.l == l && CanCancel(s, a.w) then d' == Without(d, a.w)
    else d' == d || (d' != [] && d' == d + [d'[|d'| - 1]])
  }

  lemma DueOnce(s: State, l: nat)
    requires Inv(s) && l < |s.loops| && Due(s.loops[l]) != []
    ensures Due(s.loops[l])[0] !in Due(s.loops[l])[1..]
  {
    var d := Due(s.loops[l]);
    var x := d[0];
    assert Placed(s, x);
    assert multiset(d) == multiset(s.loops[l].wq) + multiset(s.loops[l].local);
    assert multiset(d)[x] == InLoop(s.loops[l], x);
    HeadCounts(d);
  }

  predicate MovesDue(s: State, a: Action, l: nat)
    requires Enabled(s, a)
  {
    l < |s.loops| && l < |Apply(s, a).loops| && Moves(s, a, l, Due(s.loops[l]), Due(Apply(s, a).loops[l]))
  }

  lemma OtherLoops(s: State, a: Action, l: nat)
    requires Enabled(s, a) && l < |s.loops|
    requires a.Submit? || a.PostExit? || a.Turn? || a.Spurious? || a.Finish? || a.WorkerSend? || a.LoopStep?
      || a.DoneReturns? || a.EndDrain? || a.CancelSends?
    ensures MovesDue(s, a, l)
  {
  }

  lemma MoveDue(s: State, k: nat, l: nat)
    requires Inv(s) && Enabled(s, Move(k)) && l < |s.loops|
    ensures MovesDue(s, Move(k), l)
  {
    assert LoopOk(s, s.loops[l], l);
    assert Due(Apply(s, Move(k)).loops[l]) == Due(s.loops[l]);
  }

  lemma PopDue(s: State, k: nat, l: nat)
    requires Enabled(s, Pop(k)) && l < |s.loops|
    ensures MovesDue(s, Pop(k), l)
  {
    if k == l { assert Due(Apply(s, Pop(k)).loops[l]) == Due(s.loops[l])[1..]; }
  }

  lemma CancelDue(s: State, k: nat, w: Work, l: nat)
    requires Enabled(s, Cancel(k, w)) && l < |s.loops|
    ensures MovesDue(s, Cancel(k, w), l)
  {
    if k == l && CanCancel(s, w) { WithoutConcat(s.loops[l].local, s.loops[l].wq, w); }
  }

  lemma JoinDue(s: State, a: Action, l: nat)
    requires Enabled(s, a) && l < |s.loops| && (a.Publish? || a.CancelPut?)
    ensures MovesDue(s, a, l)
  {
    var ls, ls' := s.loops[l], Apply(s, a).loops[l];
    if ls'.wq != ls.wq {
      var x := ls'.wq[|ls'.wq| - 1];
      assert ls'.wq == ls.wq + [x] && ls'.local + (ls.wq + [x]) == (ls.local + ls.wq) + [x];
    }
  }

  lemma DueStep(s: State, a: Action, l: nat)
    requires Inv(s) && Enabled(s, a) && l < |s.loops|
    ensures MovesDue(s, a, l)
  {
    if a.Publish? || a.CancelPut? {
      JoinDue(s, a, l);
    } else if a.Move? {
      MoveDue(s, a.l, l);
    } else if a.Pop? {
      PopDue(s, a.l, l);
    } else if a.Cancel? {
      CancelDue(s, a.l, a.w, l);
    } else {
      OtherLoops(s, a, l);
    }
  }

  /** Neither step of a list brings w in front of v. */
  lemma OrderOfDue(s: State, a: Action, l: nat, d: seq<Work>, d': seq<Work>, v: Work, w: Work)
    requires Enabled(s, a) && Moves(s, a, l, d, d') && v != w && !(a.Cancel? && a.w == v)
    requires v in d && NotBefore(d, v, w) && d[0] !in d[1..]
    ensures NotBefore(d', v, w) && (a.Pop? && a.l == l ==> d[0] != w)
    ensures v in d' || (a.Pop? && a.l == l && d[0] == v)
  {
    assert d == [d[0]] + d[1..];
    if a.Pop? && a.l == l {
      if w in d { NotFirst(d, v, w); }
    } else if a.Cancel? && a.l == l && CanCancel(s, a.w) {
      WithoutIn(d, a.w);
      if a.w != w && w in d { PrecedesWithout(d, a.w, v, w); }
    } else if d' != d {
      PrecedesAppend(d, d'[|d'| - 1], v);
    }
  }

  /** v is due, with w behind it, or has been delivered. */
  predicate FirstInLine(s: State, l: nat, v: Work, w: Work) {
    && v in s.items && w in s.items
    && (s.items[v].dones > 0 || (DeliveredLater(s, l, v, w) && v in Due(s.loops[l])))
  }

  lemma FirstInLineStep(s: State, a: Action, l: nat, v: Work, w: Work)
    requires Inv(s) && Enabled(s, a) && FirstInLine(s, l, v, w) && v != w && !(a.Cancel? && a.w == v)
    ensures FirstInLine(Apply(s, a), l, v, w)
  {
    HistoryIsTrue(s, a, v);
    HistoryIsTrue(s, a, w);
    if s.items[v].dones == 0 {
      DueStep(s, a, l);
      DueOnce(s, l);
      OrderOfDue(s, a, l, Due(s.loops[l]), Due(Apply(s, a).loops[l]), v, w);
      if Delivers(s, a, w) { HeadIsOwn(s, a.l); }
    }
  }

  lemma {:induction false} FirstInLineRun(s: State, run: seq<Action>, l: nat, v: Work, w: Work)
    requires Inv(s) && IsRun(s, run) && FirstInLine(s, l, v, w) && v != w
    requires forall k :: 0 <= k < |run| ==> !(run[k].Cancel? && run[k].w == v)
    ensures FirstInLine(Exec(s, run), l, v, w)
    decreases |run|
  {
    if run != [] {
      StepInv(s, run[0]);
      FirstInLineStep(s, run[0], l, v, w);
      assert forall k :: 0 <= k < |run[1..]| ==> run[1..][k] == run[k + 1];
      FirstInLineRun(Apply(s, run[0]), run[1..], l, v, w);
    }
  }

  /**
   A loop delivers in the order in which its items finished: if v is due on loop l and w, an item of the same
   loop, is not, then in every run in which v is not cancelled, done(w) is called only after done(v).
   */
  lemma DeliveredInOrder(s: State, run: seq<Action>, l: nat, v: Work, w: Work)
    requires Inv(s) && IsRun(s, run) && l < |s.loops| && v in Due(s.loops[l])
    requires w in s.items && s.items[w].loop == l && s.items[w].dones == 0 && w !in Due(s.loops[l])
    requires forall k :: 0 <= k < |run| ==> !(run[k].Cancel? && run[k].w == v)
    ensures var s' := Exec(s, run);
      && v in s'.items && w in s'.items
      && (s'.items[w].dones > 0 ==> s'.items[v].dones > 0)
  {
    assert Placed(s, v) && InLoop(s.loops[l], v) > 0;
    FirstInLineRun(s, run, l, v, w);
  }

  // ---------------------------------------------------------------- the wakeup protocol inside the pool

  /** The step of the wakeup protocol of loop k that a step of the pool is, if it is one. */
  function Wakeup(s: State, a: Action, k: nat): seq<A.Action>
    requires Enabled(s, a)
  {
    match a
    case LoopStep(l, act) => if l == k then [act] else []
    case WorkerSend(t, act) => if s.workers[t].l == k then [act] else []
    case CancelSends(l, act) => if l == k then [act] else []
    case Publish(t) => if Get(s, s.workers[t].w).loop == k then [A.Send(t, WQ)] else []
    case CancelPut(l) => if l == k then [A.Send(LoopThread(s), WQ)] else []
    case EndDrain(l) => if l == k then [A.Return] else []
    case _ => []
  }

  lemma WakeupStep(s: State, a: Action, k: nat)
    requires Enabled(s, a) && k < |s.loops|
    ensures |Wakeup(s, a, k)| <= 1 && k < |Apply(s, a).loops|
    ensures var x, x' := s.loops[k].a, Apply(s, a).loops[k].a;
      if Wakeup(s, a, k) == [] then x' == x
      else A.Enabled(x, Wakeup(s, a, k)[0]) && x' == A.Apply(x, Wakeup(s, a, k)[0])
  {
  }

  /** What loop k sees of a run of the pool. */
  ghost function Seen(s: State, run: seq<Action>, k: nat): seq<A.Action>
    requires IsRun(s, run)
    decreases |run|
  {
    if run == [] then [] else Wakeup(s, run[0], k) + Seen(Apply(s, run[0]), run[1..], k)
  }

  /**
   Every run of the pool is, for each of its loops, a run of the wakeup protocol of that loop: what is proved
   of the protocol holds inside the pool.
   */
  lemma {:induction false} PoolRunsWakeup(s: State, run: seq<Action>, k: nat)
    requires IsRun(s, run) && k < |s.loops|
    ensures k < |Exec(s, run).loops|
    ensures A.IsRun(s.loops[k].a, Seen(s, run, k))
    ensures A.Exec(s.loops[k].a, Seen(s, run, k)) == Exec(s, run).loops[k].a
    decreases |run|
  {
    if run != [] {
      var first, rest := Wakeup(s, run[0], k), Seen(Apply(s, run[0]), run[1..], k);
      WakeupStep(s, run[0], k);
      PoolRunsWakeup(Apply(s, run[0]), run[1..], k);
      if first == [] {
        assert first + rest == rest;
      } else {
        assert (first + rest)[0] == first[0] && (first + rest)[1..] == rest;
      }
    }
  }

  // ---------------------------------------------------------------- what is begun is brought to its end

  /** A post puts its entry behind all others. */
  lemma PostMeans(s: State, w: Work, l: nat, pick: nat)
    ensures Enabled(s, Submit(w, l, pick)) ==>
      var s' := Apply(s, Submit(w, l, pick));
      s'.queue == s.queue + [Item(w)] && w in s'.items && s'.items[w].loop == l && s'.items[w].dones == 0
    ensures Enabled(s, PostExit(pick)) ==>
      Apply(s, PostExit(pick)).queue == s.queue + [Exit] && Apply(s, PostExit(pick)).exiting
  {
  }

  /** The next step of a worker that has taken an item. */
  function NextOf(s: State, t: nat): Action
    requires t < |s.workers|
    requires match s.workers[t]
             case Running(_) => true
             case Ran(_) => true
             case Sending(l) => l < |s.loops| && !A.Pc(s.loops[l].a, t).Outside?
             case _ => false
  {
    match s.workers[t]
    case Running(_) => Finish(t)
    case Ran(_) => Publish(t)
    case Sending(l) => WorkerSend(t, A.NextOf(s.loops[l].a, t))
  }

  predicate Busy(pc: WorkerPc) { pc.Running? || pc.Ran? || pc.Sending? }

  lemma BusyWorker(s: State, t: nat)
    requires Inv(s) && t < |s.workers| && Busy(s.workers[t])
    ensures s.workers[t].Sending? ==>
      s.workers[t].l < |s.loops| && !A.Pc(s.loops[s.workers[t].l].a, t).Outside?
    ensures !s.workers[t].Sending? ==> s.workers[t].w in s.items && s.items[s.workers[t].w].phase == Held(t)
    ensures Enabled(s, NextOf(s, t))
  {
    assert WorkerOk(s, s.workers[t], t);
    match s.workers[t]
    case Sending(l) =>
      assert LoopInv(s, s.loops[l], l);
      A.NextStep(s.loops[l].a, t);
    case _ => WorkerGoesOn(s, t);
  }

  /** How far a worker is from the top of its loop. */
  function ToGo(s: State, t: nat): nat
    requires t < |s.workers|
  {
    match s.workers[t]
    case Running(_) => 6
    case Ran(_) => 5
    case Sending(l) => if l < |s.loops| then 1 + A.StepsLeft(A.Pc(s.loops[l].a, t)) else 0
    case _ => 0
  }

  /** The item of a worker ends up with its loop. */
  predicate HandedOver(s: State, w: Work) { w in s.items && s.items[w].phase.Finished? }

  lemma BusyStep(s: State, t: nat)
    requires Inv(s) && t < |s.workers| && Busy(s.workers[t]) && Enabled(s, NextOf(s, t))
    ensures var s' := Apply(s, NextOf(s, t));
      && t < |s'.workers| && (Busy(s'.workers[t]) || s'.workers[t].Awake?) && ToGo(s', t) < ToGo(s, t)
      && (s.workers[t].Running? ==> s'.workers[t] == Ran(s.workers[t].w))
      && (s.workers[t].Ran? ==> s'.workers[t].Sending? && HandedOver(s', s.workers[t].w))
      && (s.workers[t].Sending? ==> s'.items == s.items)
  {
    BusyWorker(s, t);
    if s.workers[t].Sending? { A.NextStep(s.loops[s.workers[t].l].a, t); }
  }

  /** A worker with an item hands it to its loop, announces it and gets back to the queue, by its own steps. */
  lemma {:induction false} WorkerGetsBack(s: State, t: nat) returns (run: seq<Action>)
    requires Inv(s) && t < |s.workers| && Busy(s.workers[t])
    ensures IsRun(s, run) && t < |Exec(s, run).workers| && Exec(s, run).workers[t].Awake?
    ensures !s.workers[t].Sending? ==> HandedOver(Exec(s, run), s.workers[t].w)
    ensures s.workers[t].Sending? ==> Exec(s, run).items == s.items
    decreases ToGo(s, t)
  {
    BusyWorker(s, t);
    BusyStep(s, t);
    var a := NextOf(s, t);
    StepInv(s, a);
    var rest := [];
    if !Apply(s, a).workers[t].Awake? { rest := WorkerGetsBack(Apply(s, a), t); }
    run := [a] + rest;
    assert run[1..] == rest;
  }

  /** uv__work_cancel comes to its end, with the item handed to its loop. */
  lemma {:induction false} CancelEnds(s: State, l: nat) returns (run: seq<Action>)
    requires Inv(s) && l < |s.loops| && !s.loops[l].cancel.NoCancel?
    ensures IsRun(s, run) && l < |Exec(s, run).loops| && Exec(s, run).loops[l].cancel.NoCancel?
    ensures s.loops[l].cancel.CutOut? ==> HandedOver(Exec(s, run), s.loops[l].cancel.w)
    ensures s.loops[l].cancel.CancelSend? ==> Exec(s, run).items == s.items
    decreases s.loops[l].cancel.CutOut?, A.StepsLeft(A.Pc(s.loops[l].a, LoopThread(s)))
  {
    var ls := s.loops[l];
    assert LoopInv(s, ls, l);
    var a: Action;
    if ls.cancel.CutOut? {
      a := CancelPut(l);
    } else {
      A.NextStep(ls.a, LoopThread(s));
      a := CancelSends(l, A.NextOf(ls.a, LoopThread(s)));
    }
    StepInv(s, a);
    var rest := [];
    if !Apply(s, a).loops[l].cancel.NoCancel? { rest := CancelEnds(Apply(s, a), l); }
    run := [a] + rest;
    assert run[1..] == rest;
  }

  // ---------------------------------------------------------------- uv__work_done comes to its end

  /** The next step of the loop thread inside uv__work_done. */
  function NextDrain(ls: LoopState, l: nat): Action {
    match ls.pc
    case Collect => Move(l)
    case InDone(_) => DoneReturns(l)
    case _ => if ls.local != [] then Pop(l) else EndDrain(l)
  }

  lemma DrainStep(s: State, l: nat)
    requires Inv(s) && l < |s.loops| && s.loops[l].cancel.NoCancel? && !s.loops[l].pc.Idle?
    ensures Enabled(s, NextDrain(s.loops[l], l)) && l < |Apply(s, NextDrain(s.loops[l], l)).loops|
    ensures var ls, ls' := s.loops[l], Apply(s, NextDrain(s.loops[l], l)).loops[l];
      && ls'.cancel.NoCancel?
      && match ls.pc
         case Collect => ls'.pc.Deliver?
         case InDone(_) => ls'.pc.Deliver? && ls'.local == ls.local
         case _ => (ls'.local == [] && ls'.pc.Idle?) || (ls'.pc.InDone? && |ls'.local| == |ls.local| - 1)
  {
    assert LoopOk(s, s.loops[l], l);
  }

  /** From wherever the loop thread is in it, uv__work_done comes to its end by its own steps. */
  lemma {:induction false} DrainEnds(s: State, l: nat) returns (run: seq<Action>)
    requires Inv(s) && l < |s.loops| && s.loops[l].cancel.NoCancel? && !s.loops[l].pc.Idle?
    ensures IsRun(s, run) && l < |Exec(s, run).loops|
    ensures Exec(s, run).loops[l].pc.Idle? && Exec(s, run).loops[l].local == []
    ensures forall a :: a in run ==> a == Move(l) || a == Pop(l) || a == DoneReturns(l) || a == EndDrain(l)
    decreases s.loops[l].pc.Collect?, |s.loops[l].local|, s.loops[l].pc.InDone?
  {
    var a := NextDrain(s.loops[l], l);
    DrainStep(s, l);
    StepInv(s, a);
    var s' := Apply(s, a);
    var rest := [];
    if !s'.loops[l].pc.Idle? { rest := DrainEnds(s', l); }
    run := [a] + rest;
    assert run[1..] == rest;
  }

  // ---------------------------------------------------------------- shutdown

  /**
   What a worker does with what it finds: it sleeps on an empty queue, begins the first item, and on exit_message
   leaves, for good, having woken a sleeper if there is one.
   */
  lemma TurnMeans(s: State, t: nat, pick: nat)
    requires Inv(s) && Enabled(s, Turn(t, pick))
    ensures var s' := Apply(s, Turn(t, pick));
      && (s.queue == [] ==> s'.workers[t] == Waiting && s'.queue == [])
      && (s.queue != [] && s.queue[0].Item? ==> s'.workers[t] == Running(s.queue[0].w) && s'.queue == s.queue[1..])
      && (s.queue != [] && s.queue[0] == Exit ==>
            && s'.workers[t] == Exited && s'.queue == s.queue
            && (Waiting in s.workers ==> pick < |s.workers| && s.workers[pick] == Waiting && s'.workers[pick] == Woken))
  {
  }

  lemma ExitedStep(s: State, a: Action, t: nat)
    requires Enabled(s, a) && t < |s.workers| && s.workers[t].Exited?
    ensures t < |Apply(s, a).workers| && Apply(s, a).workers[t].Exited?
  {
  }

  lemma {:induction false} ExitedStays(s: State, run: seq<Action>, t: nat)
    requires IsRun(s, run) && t < |s.workers| && s.workers[t].Exited?
    ensures t < |Exec(s, run).workers| && Exec(s, run).workers[t].Exited?
    decreases |run|
  {
    if run != [] {
      ExitedStep(s, run[0], t);
      ExitedStays(Apply(s, run[0]), run[1..], t);
    }
  }

  /** When nothing moves any more after exit_message was posted, every worker has left. */
  lemma ShutdownIsComplete(s: State, run: seq<Action>, t: nat)
    requires Initial(s) && IsRun(s, run) && Quiet(Exec(s, run)) && Exec(s, run).exiting
    requires t < |Exec(s, run).workers|
    ensures Exec(s, run).workers[t].Exited?
  {
    InitialInv(s);
    RunInv(s, run);
    var s' := Exec(s, run);
    CountSome(s'.workers, Waiting);
    CountSome(s'.workers, Woken);
  }

  // ---------------------------------------------------------------- no deadlock

  /** A step of work that is under way: no new item, send, handle or cancellation, and no wakeup for nothing. */
  predicate GoesOn(s: State, a: Action) {
    match a
    case Submit(_, _, _) => false
    case PostExit(_) => false
    case Spurious(_) => false
    case Cancel(_, _) => false
    case LoopStep(l, act) =>
      && !act.Send? && !act.Init? && !act.Close? && !act.Interrupted?
      && (act.Wake? ==> l < |s.loops| && s.loops[l].a.unread > 0)
    case _ => true
  }

  lemma SomebodyToSignal(s: State) returns (pick: nat)
    ensures CanSignal(s.workers, pick)
  {
    pick := 0;
    if t: nat :| t < |s.workers| && s.workers[t] == Waiting { pick := t; }
  }

  lemma WorkerStep(s: State, t: nat) returns (a: Action)
    requires Inv(s) && t < |s.workers| && !s.workers[t].Waiting? && !s.workers[t].Exited?
    ensures Enabled(s, a) && GoesOn(s, a)
  {
    WorkerGoesOn(s, t);
    match s.workers[t]
    case Running(_) => a := Finish(t);
    case Ran(_) => a := Publish(t);
    case Sending(_) =>
      var act :| Enabled(s, WorkerSend(t, act));
      a := WorkerSend(t, act);
    case _ =>
      var pick := SomebodyToSignal(s);
      a := Turn(t, pick);
  }

  /** What the loop thread does next inside uv__work_cancel. */
  lemma CancelStep(s: State, l: nat) returns (a: Action)
    requires Inv(s) && l < |s.loops| && !s.loops[l].cancel.NoCancel?
    ensures Enabled(s, a) && GoesOn(s, a)
  {
    var ls := s.loops[l];
    assert LoopInv(s, ls, l);
    if ls.cancel.CutOut? {
      a := CancelPut(l);
    } else {
      A.NextStep(ls.a, LoopThread(s));
      a := CancelSends(l, A.NextOf(ls.a, LoopThread(s)));
    }
  }

  /** What it does next in its callbacks and its scan. */
  lemma LoopThreadStep(s: State, l: nat) returns (a: Action)
    requires Inv(s) && l < |s.loops| && s.loops[l].cancel.NoCancel?
    requires !s.loops[l].a.pc.Polling? || s.loops[l].a.unread > 0
    ensures Enabled(s, a) && GoesOn(s, a)
  {
    var ls := s.loops[l];
    assert LoopInv(s, ls, l) && LoopOk(s, ls, l);
    match ls.a.pc
    case Polling => a := LoopStep(l, A.Wake);
    case Reading => a := LoopStep(l, A.ReadRest);
    case Scanning => a := LoopStep(l, if ls.a.todo != [] then A.Examine else A.Done);
    case Calling(h) =>
      match ls.pc
      case Idle => a := LoopStep(l, A.Return);
      case Collect => a := Move(l);
      case Deliver => a := if ls.local != [] then Pop(l) else EndDrain(l);
      case InDone(_) => a := DoneReturns(l);
  }

  /** What a foreign thread inside uv_async_send does next. */
  lemma SenderStep(s: State, l: nat, t: nat) returns (a: Action)
    requires Inv(s) && l < |s.loops| && LoopThread(s) < t && !A.Pc(s.loops[l].a, t).Outside?
    ensures Enabled(s, a) && GoesOn(s, a)
  {
    A.NextStep(s.loops[l].a, t);
    a := LoopStep(l, A.NextOf(s.loops[l].a, t));
  }

  /**
   No deadlock: as long as anything is under way, the pool, a loop or a sender can go on with it. By
   EveryItemDelivered, where they cannot go on every item has been delivered.
   */
  lemma NoDeadlock(s: State) returns (a: Action)
    requires Inv(s) && !Quiet(s)
    ensures Enabled(s, a) && GoesOn(s, a)
  {
    if t: nat :| t < |s.workers| && !s.workers[t].Waiting? && !s.workers[t].Exited? {
      a := WorkerStep(s, t);
      return;
    }
    var l: nat :| l < |s.loops| && !(s.loops[l].pc.Idle? && s.loops[l].cancel.NoCancel? && A.Quiescent(s.loops[l].a));
    var ls := s.loops[l];
    assert LoopInv(s, ls, l) && LoopOk(s, ls, l);
    if !ls.cancel.NoCancel? {
      a := CancelStep(s, l);
    } else if !ls.a.pc.Polling? || ls.a.unread > 0 {
      a := LoopThreadStep(s, l);
    } else {
      var t: nat :| !A.Pc(ls.a, t).Outside?;
      assert LoopThread(s) < t;
      a := SenderStep(s, l, t);
    }
  }
}
