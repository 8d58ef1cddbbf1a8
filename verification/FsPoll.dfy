/**
 * `uv_fs_poll_t`: a handle that watches a file by repeated stat requests. The work is done by a context
 * object that outlives the handle's interest in it: after a stop it still has a stat request in flight, a
 * callback on the stack, or a timer to close, and frees itself only when that is over.
 *
 * The functions on `Ctx` and `Poll` specify the callbacks; the methods of the classes at the end are
 * proved to compute them; the theorems are about every run of user calls, callbacks and clock ticks.
 */
module FsPoll {
  import opened Sequences

  datatype Timespec = Timespec(sec: int, nsec: int)

  datatype Stat = Stat(
    dev: int, mode: int, nlink: int, uid: int, gid: int, rdev: int, ino: int, size: int, blksize: int, blocks: int,
    flags: int, gen: int, atim: Timespec, mtim: Timespec, ctim: Timespec, birthtim: Timespec)

  const UV_ENOMEM := -12

  const ZERO := Timespec(0, 0)
  const ZERO_STAT := Stat(0, 0, 0, 0, 0, 0, 0, 0, 0, 0, 0, 0, ZERO, ZERO, ZERO, ZERO)

  /** Link counts, device numbers of special files, block sizes and counts and access times are not compared. */
  predicate SameStat(a: Stat, b: Stat) {
    && a.ctim.nsec == b.ctim.nsec
    && a.mtim.nsec == b.mtim.nsec
    && a.birthtim.nsec == b.birthtim.nsec
    && a.ctim.sec == b.ctim.sec
    && a.mtim.sec == b.mtim.sec
    && a.birthtim.sec == b.birthtim.sec
    && a.size == b.size
    && a.mode == b.mode
    && a.uid == b.uid
    && a.gid == b.gid
    && a.ino == b.ino
    && a.dev == b.dev
    && a.flags == b.flags
    && a.gen == b.gen
  }

  /** `b` is `a` but for these five. */
  lemma SameStatExactly(a: Stat, b: Stat)
    ensures SameStat(a, b) <==>
      a.(nlink := b.nlink, rdev := b.rdev, blksize := b.blksize, blocks := b.blocks, atim := b.atim) == b
  {
  }

  /** The outcome of one stat request: `code` is 0, or negative and then the buffer means nothing. */
  datatype Answer = Answer(code: int, stat: Stat)

  predicate ValidAnswer(r: Answer) { r.code <= 0 }

  /** One call of the user's callback. */
  datatype Report = Report(status: int, prev: Stat, curr: Stat)

  datatype Option<T> = None | Some(value: T)

  // ---- What the user should be told: a specification on the history of answers -------------------------

  /** The last good answer, or all zeros. */
  function LastGood(seen: seq<Answer>): Stat {
    if seen == [] then ZERO_STAT
    else if seen[|seen| - 1].code == 0 then seen[|seen| - 1].stat
    else LastGood(seen[..|seen| - 1])
  }

  /** An answer is news when it differs from the one before it; a first success is only remembered. */
  predicate News(seen: seq<Answer>, r: Answer) {
    if r.code != 0 then seen == [] || seen[|seen| - 1].code != r.code
    else seen != [] && (seen[|seen| - 1].code != 0 || !SameStat(LastGood(seen), r.stat))
  }

  function Told(seen: seq<Answer>, r: Answer): Option<Report> {
    if !News(seen, r) then None
    else Some(Report(r.code, LastGood(seen), if r.code == 0 then r.stat else ZERO_STAT))
  }

  // ---- The context --------------------------------------------------------------------------------------

  /** `seen` is the ledger of answers delivered while the handle was interested. */
  datatype Ctx = Ctx(
    parent: bool, busy: int, interval: int, start: int, stat: Stat,
    statPending: bool, inPoll: bool, timerActive: bool, timerDue: int, timerClosing: bool, freed: bool,
    seen: seq<Answer>)

  function NewCtx(interval: nat, now: int): Ctx {
    Ctx(true, 0, if interval > 0 then interval else 1, now, ZERO_STAT, true, false, false, 0, false, false, [])
  }

  function CloseTimer(c: Ctx): Ctx { c.(timerActive := false, timerClosing := true) }

  /** The context's side of a stop. */
  function Abandon(c: Ctx): Ctx {
    var d := c.(parent := false);
    if c.timerActive then CloseTimer(d) else d
  }

  /** The timer fires: a new period begins with a new stat request. */
  function Ring(c: Ctx, now: int): Ctx { c.(timerActive := false, start := now, statPending := true) }

  /** The head of `poll_cb`, up to the call of the user's callback. */
  function Head(c: Ctx, r: Answer): Ctx {
    var d := c.(statPending := false);
    if !c.parent then CloseTimer(d)
    else if r.code != 0 then d.(inPoll := true, busy := r.code, seen := c.seen + [r])
    else d.(inPoll := true, busy := 1, stat := r.stat, seen := c.seen + [r])
  }

  /** What `poll_cb` passes to the user's callback, if it calls it. */
  function Call(c: Ctx, r: Answer): Option<Report> {
    if !c.parent then None
    else if r.code != 0 then (if c.busy != r.code then Some(Report(r.code, c.stat, ZERO_STAT)) else None)
    else if c.busy != 0 && (c.busy < 0 || !SameStat(c.stat, r.stat)) then Some(Report(0, c.stat, r.stat))
    else None
  }

  function Delay(c: Ctx, now: int): int
    requires c.interval > 0
  {
    c.interval - (now - c.start) % c.interval
  }

  /** The tail of `poll_cb`: close the timer if the handle was stopped meanwhile, else rearm it. */
  function Tail(c: Ctx, now: int): Ctx
    requires c.interval > 0
  {
    var d := c.(inPoll := false);
    if !c.parent then CloseTimer(d) else d.(timerActive := true, timerDue := now + Delay(c, now))
  }

  function B(b: bool): int { if b then 1 else 0 }

  /** Exactly one thing keeps a live context alive; a freed one has none. */
  predicate OneOwner(c: Ctx) {
    B(c.statPending) + B(c.inPoll) + B(c.timerActive) + B(c.timerClosing) + B(c.freed) == 1
  }

  function Code(seen: seq<Answer>): int {
    if seen == [] then 0 else if seen[|seen| - 1].code == 0 then 1 else seen[|seen| - 1].code
  }

  function GridPoint(start: int, interval: int, k: int): int { start + k * interval }

  /** `due` is a whole number of intervals after `start`. */
  ghost predicate OnGrid(due: int, start: int, interval: int) {
    exists k :: k >= 1 && due == GridPoint(start, interval, k)
  }

  ghost predicate CtxInv(c: Ctx, now: int) {
    && OneOwner(c)
    && c.interval > 0 && c.start <= now
    && (c.timerActive ==> c.parent)
    && (c.parent ==> !c.timerClosing && !c.freed)
    && (c.timerActive ==> c.start < c.timerDue && OnGrid(c.timerDue, c.start, c.interval))
    && (forall k :: 0 <= k < |c.seen| ==> ValidAnswer(c.seen[k]))
    && c.busy == Code(c.seen) && c.stat == LastGood(c.seen)
  }

  /**
   * The rearmed timer is due after 1 to `interval` ticks, on a whole number of intervals after the start
   * of the period, however long the stat took.
   */
  lemma RearmsOnTheGrid(c: Ctx, now: int)
    requires CtxInv(c, now) && c.inPoll && c.parent
    ensures 1 <= Delay(c, now) <= c.interval
    ensures Tail(c, now).timerActive && Tail(c, now).timerDue == now + Delay(c, now)
    ensures OnGrid(Tail(c, now).timerDue, c.start, c.interval)
    ensures CtxInv(Tail(c, now), now)
  {
    var k := (now - c.start) / c.interval;
    assert now - c.start == k * c.interval + (now - c.start) % c.interval;
    assert Tail(c, now).timerDue == GridPoint(c.start, c.interval, k + 1);
  }

  lemma LastGoodAppend(seen: seq<Answer>, r: Answer)
    ensures LastGood(seen + [r]) == if r.code == 0 then r.stat else LastGood(seen)
    ensures Code(seen + [r]) == if r.code == 0 then 1 else r.code
  {
    assert (seen + [r])[..|seen|] == seen;
  }

  /** `poll_cb` calls the user exactly for the news, with the last good state and the new one. */
  lemma TellsTheNews(c: Ctx, now: int, r: Answer)
    requires CtxInv(c, now) && c.statPending && ValidAnswer(r)
    ensures Call(c, r) == if c.parent then Told(c.seen, r) else None
    ensures CtxInv(Head(c, r), now)
  {
    LastGoodAppend(c.seen, r);
    assert c.seen != [] ==> ValidAnswer(c.seen[|c.seen| - 1]);
  }

  // ---- The handle and all the contexts it ever had ---------------------------------------------------------

  /** `cur` is the handle's `poll_ctx`; `log` records every call of the user's callback. */
  datatype Poll = Poll(
    active: bool, closing: bool, cur: Option<nat>, ctxs: seq<Ctx>, now: int, log: seq<(nat, Report)>)

  datatype Action =
    | Start(interval: nat)
    | Stop
    | Close
    | Tick(d: nat)
    | StatDone(i: nat, r: Answer)
    | PollReturns(i: nat)
    | TimerFires(i: nat)
    | TimerClosed(i: nat)

  predicate Enabled(p: Poll, a: Action) {
    match a
    case Start(_) => !p.closing
    case Stop => true
    case Close => !p.closing
    case Tick(_) => true
    case StatDone(i, r) => i < |p.ctxs| && p.ctxs[i].statPending && ValidAnswer(r)
    case PollReturns(i) => i < |p.ctxs| && p.ctxs[i].inPoll
    case TimerFires(i) => i < |p.ctxs| && p.ctxs[i].timerActive && p.ctxs[i].timerDue <= p.now
    case TimerClosed(i) => i < |p.ctxs| && p.ctxs[i].timerClosing
  }

  function StopPoll(p: Poll): Poll
    requires p.active ==> p.cur.Some? && p.cur.value < |p.ctxs|
  {
    if !p.active then p
    else
      p.(active := false, cur := None, ctxs := p.ctxs[p.cur.value := Abandon(p.ctxs[p.cur.value])])
  }

  function Apply(p: Poll, a: Action): Poll
    requires Inv(p) && Enabled(p, a)
  {
    match a
    case Start(interval) =>
      if p.active then p
      else p.(active := true, cur := Some(|p.ctxs|), ctxs := p.ctxs + [NewCtx(interval, p.now)])
    case Stop => StopPoll(p)
    case Close => StopPoll(p).(closing := true)
    case Tick(d) => p.(now := p.now + d)
    case StatDone(i, r) =>
      var t := Call(p.ctxs[i], r);
      p.(ctxs := p.ctxs[i := Head(p.ctxs[i], r)], log := if t.Some? then p.log + [(i, t.value)] else p.log)
    case PollReturns(i) => p.(ctxs := p.ctxs[i := Tail(p.ctxs[i], p.now)])
    case TimerFires(i) => p.(ctxs := p.ctxs[i := Ring(p.ctxs[i], p.now)])
    case TimerClosed(i) => p.(ctxs := p.ctxs[i := p.ctxs[i].(timerClosing := false, freed := true)])
  }

  /** Only the current context has a parent, and the handle is active exactly when it has a context. */
  predicate Wired(p: Poll) {
    && (p.active <==> p.cur.Some?)
    && (p.cur.Some? ==> p.cur.value < |p.ctxs|)
    && (p.closing ==> !p.active)
    && (forall i :: 0 <= i < |p.ctxs| ==> (p.ctxs[i].parent <==> p.cur == Some(i)))
  }

  ghost predicate Inv(p: Poll) {
    && Wired(p)
    && (forall i :: 0 <= i < |p.ctxs| ==> CtxInv(p.ctxs[i], p.now))
  }

  lemma PutCtx(p: Poll, i: nat, c: Ctx, log: seq<(nat, Report)>)
    requires Inv(p) && i < |p.ctxs|
    requires CtxInv(c, p.now) && c.parent == p.ctxs[i].parent
    ensures Inv(p.(ctxs := p.ctxs[i := c], log := log))
  {
  }

  lemma StopInv(p: Poll)
    requires Inv(p)
    ensures Inv(StopPoll(p)) && !StopPoll(p).active
  {
    if p.active {
      var i := p.cur.value;
      assert CtxInv(p.ctxs[i], p.now);
      assert CtxInv(Abandon(p.ctxs[i]), p.now);
    }
  }

  lemma StartInv(p: Poll, interval: nat)
    requires Inv(p) && Enabled(p, Start(interval))
    ensures Inv(Apply(p, Start(interval)))
  {
    assert CtxInv(NewCtx(interval, p.now), p.now);
  }

  /**
   * A fired timer's context still has its parent, whose current context it is: both asserts of `timer_cb`. And it
   * does not ring in the moment in which its period began.
   */
  lemma TimerFindsItsParent(p: Poll, i: nat)
    requires Inv(p) && Enabled(p, TimerFires(i))
    ensures p.ctxs[i].parent && p.cur == Some(i) && p.active && !p.closing
    ensures p.ctxs[i].start < p.ctxs[i].timerDue <= p.now
  {
    assert CtxInv(p.ctxs[i], p.now);
  }

  lemma CtxStep(p: Poll, a: Action, i: nat)
    requires Inv(p) && Enabled(p, a)
    requires a == PollReturns(i) || a == TimerFires(i) || a == TimerClosed(i) || (a.StatDone? && a.i == i)
    ensures Inv(Apply(p, a))
  {
    var c := p.ctxs[i];
    assert CtxInv(c, p.now);
    if a.StatDone? {
      TellsTheNews(c, p.now, a.r);
      PutCtx(p, i, Head(c, a.r), Apply(p, a).log);
    } else if a.PollReturns? {
      if c.parent { RearmsOnTheGrid(c, p.now); }
      PutCtx(p, i, Tail(c, p.now), p.log);
    } else if a.TimerFires? {
      PutCtx(p, i, Ring(c, p.now), p.log);
    } else {
      PutCtx(p, i, c.(timerClosing := false, freed := true), p.log);
    }
  }

  lemma StepInv(p: Poll, a: Action)
    requires Inv(p) && Enabled(p, a)
    ensures Inv(Apply(p, a))
  {
    match a
    case Start(interval) => StartInv(p, interval);
    case Stop => StopInv(p);
    case Close => StopInv(p);
    case Tick(d) =>
    case StatDone(i, _) => CtxStep(p, a, i);
    case PollReturns(i) => CtxStep(p, a, i);
    case TimerFires(i) => CtxStep(p, a, i);
    case TimerClosed(i) => CtxStep(p, a, i);
  }

  // ---- Whole runs -----------------------------------------------------------------------------------------

  predicate IsRun(p: Poll, run: seq<Action>)
    requires Inv(p)
    decreases |run|
  {
    run == [] || (Enabled(p, run[0]) && (StepInv(p, run[0]); IsRun(Apply(p, run[0]), run[1..])))
  }

  function Exec(p: Poll, run: seq<Action>): (q: Poll)
    requires Inv(p) && IsRun(p, run)
    ensures Inv(q)
    decreases |run|
  {
    if run == [] then p else (StepInv(p, run[0]); Exec(Apply(p, run[0]), run[1..]))
  }

  function Idle(now: int): (p: Poll)
    ensures Inv(p) && !p.active && !p.closing && p.now == now
  {
    Poll(false, false, None, [], now, [])
  }

  /**
   * The user hears only from the current context of an active handle, one report per answer, and only the
   * news since that context was started.
   */
  lemma OnlyTheCurrentSpeaks(p: Poll, a: Action)
    requires Inv(p) && Enabled(p, a) && Apply(p, a).log != p.log
    ensures a.StatDone? && p.active && p.cur == Some(a.i)
    ensures Told(p.ctxs[a.i].seen, a.r).Some?
    ensures Apply(p, a).log == p.log + [(a.i, Told(p.ctxs[a.i].seen, a.r).value)]
  {
    if a.StatDone? {
      assert CtxInv(p.ctxs[a.i], p.now);
      TellsTheNews(p.ctxs[a.i], p.now, a.r);
    }
  }

  /** From a stop or close to the next start, no callback: whatever requests and timers are still under way. */
  lemma {:induction false} NoCallAfterStop(p: Poll, run: seq<Action>)
    requires Inv(p) && !p.active && IsRun(p, run)
    requires forall k :: 0 <= k < |run| ==> !run[k].Start?
    ensures Exec(p, run).log == p.log && !Exec(p, run).active
    decreases |run|
  {
    if run != [] {
      var q := Apply(p, run[0]);
      StepInv(p, run[0]);
      if q.log != p.log { OnlyTheCurrentSpeaks(p, run[0]); }
      assert forall k :: 0 <= k < |run[1..]| ==> run[1..][k] == run[k + 1];
      NoCallAfterStop(q, run[1..]);
    }
  }

  /** The calls in `log` that came from context `i`. */
  function CallsOf(log: seq<(nat, Report)>, i: nat): seq<Report>
    decreases |log|
  {
    if log == [] then []
    else CallsOf(log[..|log| - 1], i) + if log[|log| - 1].0 == i then [log[|log| - 1].1] else []
  }

  lemma GivenUpStep(p: Poll, a: Action, i: nat)
    requires Inv(p) && Enabled(p, a) && i < |p.ctxs| && p.cur != Some(i)
    ensures i < |Apply(p, a).ctxs| && Apply(p, a).cur != Some(i)
    ensures CallsOf(Apply(p, a).log, i) == CallsOf(p.log, i)
  {
    if Apply(p, a).log != p.log {
      OnlyTheCurrentSpeaks(p, a);
      assert Apply(p, a).log[..|p.log|] == p.log;
    }
  }

  /** A context that was given up stays given up and silent, even when the handle is started again. */
  lemma {:induction false} GivenUpForGood(p: Poll, run: seq<Action>, i: nat)
    requires Inv(p) && IsRun(p, run) && i < |p.ctxs| && p.cur != Some(i)
    ensures i < |Exec(p, run).ctxs| && Exec(p, run).cur != Some(i)
    ensures CallsOf(Exec(p, run).log, i) == CallsOf(p.log, i)
    decreases |run|
  {
    if run != [] {
      StepInv(p, run[0]);
      GivenUpStep(p, run[0], i);
      GivenUpForGood(Apply(p, run[0]), run[1..], i);
    }
  }

  /** How far a context is from being freed once it has been given up. */
  function Rank(c: Ctx): int { if c.freed then 0 else if c.timerClosing then 1 else 2 }

  predicate About(a: Action, i: nat) {
    match a
    case StatDone(k, _) => k == i
    case PollReturns(k) => k == i
    case TimerFires(k) => k == i
    case TimerClosed(k) => k == i
    case _ => false
  }

  /** Each own callback of a given-up context brings it closer to its end, and the rest leaves it alone. */
  lemma GivenUpTurn(p: Poll, a: Action, i: nat)
    requires Inv(p) && Enabled(p, a) && i < |p.ctxs| && p.cur != Some(i)
    ensures About(a, i) ==> Rank(Apply(p, a).ctxs[i]) == Rank(p.ctxs[i]) - 1
    ensures !About(a, i) ==> Apply(p, a).ctxs[i] == p.ctxs[i]
  {
    assert CtxInv(p.ctxs[i], p.now) && !p.ctxs[i].parent;
  }

  /** There is always one to come until it is freed, and none afterwards. */
  lemma GivenUpGoesOn(p: Poll, i: nat)
    requires Inv(p) && i < |p.ctxs| && p.cur != Some(i)
    ensures !p.ctxs[i].freed <==> (Enabled(p, StatDone(i, Answer(0, ZERO_STAT))) || Enabled(p, PollReturns(i))
                                   || Enabled(p, TimerClosed(i)))
    ensures forall a :: Enabled(p, a) && About(a, i) ==> !p.ctxs[i].freed
  {
    assert CtxInv(p.ctxs[i], p.now) && !p.ctxs[i].parent;
  }

  /** The number of own callbacks of context `i` in a run. */
  function Turns(run: seq<Action>, i: nat): nat {
    if run == [] then 0 else (if About(run[0], i) then 1 else 0) + Turns(run[1..], i)
  }

  /**
   * Over every run a given-up context is freed by exactly as many own callbacks as its rank says, which is
   * at most two, and then has no more of them; until then there is one to come.
   */
  lemma {:induction false} GivenUpIsFreed(p: Poll, run: seq<Action>, i: nat)
    requires Inv(p) && IsRun(p, run) && i < |p.ctxs| && p.cur != Some(i)
    ensures var q := Exec(p, run);
      && i < |q.ctxs| && Rank(q.ctxs[i]) == Rank(p.ctxs[i]) - Turns(run, i)
      && Turns(run, i) <= Rank(p.ctxs[i]) <= 2
      && (q.ctxs[i].freed <==> Turns(run, i) == Rank(p.ctxs[i]))
      && (!q.ctxs[i].freed <==> (Enabled(q, StatDone(i, Answer(0, ZERO_STAT))) || Enabled(q, PollReturns(i))
                                 || Enabled(q, TimerClosed(i))))
    decreases |run|
  {
    if run == [] {
      GivenUpGoesOn(p, i);
    } else {
      StepInv(p, run[0]);
      GivenUpTurn(p, run[0], i);
      GivenUpStep(p, run[0], i);
      GivenUpIsFreed(Apply(p, run[0]), run[1..], i);
    }
  }

  // ---- What a start asks for ------------------------------------------------------------------------------

  /** The interval of a context, in milliseconds, when `asked` was asked for. */
  predicate IsInterval(interval: int, asked: nat) {
    (asked > 0 ==> interval == asked) && (asked == 0 ==> interval == 1)
  }

  /** A start makes a new context and asks for a first stat; on an active handle it does nothing. */
  lemma StartMakesContext(p: Poll, asked: nat)
    requires Inv(p) && Enabled(p, Start(asked))
    ensures p.active ==> Apply(p, Start(asked)) == p
    ensures !p.active ==>
      var q, n := Apply(p, Start(asked)), |p.ctxs|;
      && q.active && q.cur == Some(n) && |q.ctxs| == n + 1 && q.ctxs[..n] == p.ctxs && q.log == p.log
      && q.ctxs[n].parent && q.ctxs[n].statPending && q.ctxs[n].start == p.now && q.ctxs[n].seen == []
      && IsInterval(q.ctxs[n].interval, asked)
  {
  }

  function Started(p: Poll, asked: nat): (q: Poll)
    requires Inv(p) && !p.active && Enabled(p, Start(asked))
    ensures Inv(q) && |q.ctxs| == |p.ctxs| + 1
  {
    StepInv(p, Start(asked));
    Apply(p, Start(asked))
  }

  /**
   * Nothing holds a context up: until it is freed, its stat can be answered, its callback return, its timer end
   * closing, or its timer ring, if only time goes by. And the user may start, stop and close at any time.
   */
  lemma NothingIsHeldUp(p: Poll, i: nat, asked: nat, d: nat)
    requires Inv(p) && i < |p.ctxs|
    ensures || p.ctxs[i].freed || Enabled(p, StatDone(i, Answer(0, ZERO_STAT))) || Enabled(p, PollReturns(i))
            || Enabled(p, TimerClosed(i))
            || (p.ctxs[i].timerActive && (p.ctxs[i].timerDue - p.now <= d ==>
                  Enabled(p.(now := p.now + d), TimerFires(i))))
    ensures Enabled(p, Stop) && Enabled(p, Tick(d)) && (!p.closing ==> Enabled(p, Start(asked)) && Enabled(p, Close))
  {
    assert CtxInv(p.ctxs[i], p.now);
  }

  /** What an action does to a context: to its period, to what it waits for, and to what it has heard. */
  lemma CtxChanges(p: Poll, a: Action, i: nat)
    requires Inv(p) && Enabled(p, a) && i < |p.ctxs|
    ensures i < |Apply(p, a).ctxs|
    ensures var c, d := p.ctxs[i], Apply(p, a).ctxs[i];
      && d.interval == c.interval
      && d.start == (if a == TimerFires(i) then p.now else c.start)
      && d.seen == c.seen + (if a.StatDone? && a.i == i && p.cur == Some(i) then [a.r] else [])
      && (d.statPending <==> (c.statPending && !(a.StatDone? && a.i == i)) || a == TimerFires(i))
      && (d.inPoll <==> (c.inPoll && a != PollReturns(i)) || (a.StatDone? && a.i == i && c.parent))
      && (d.timerActive <==>
            d.parent && ((c.timerActive && a != TimerFires(i)) || a == PollReturns(i)))
      && (d.freed <==> c.freed || a == TimerClosed(i))
      && (d.parent <==> c.parent && !a.Stop? && !a.Close?)
  {
    assert CtxInv(p.ctxs[i], p.now);
    assert p.ctxs[i].seen + [] == p.ctxs[i].seen;
  }

  /** What the handle as a whole does. */
  lemma HandleChanges(p: Poll, a: Action)
    requires Inv(p) && Enabled(p, a)
    ensures var q := Apply(p, a);
      && (q.active <==> (p.active || a.Start?) && !a.Stop? && !a.Close?)
      && (q.closing <==> p.closing || a.Close?)
      && q.now == p.now + (if a.Tick? then a.d else 0)
  {
  }

  lemma {:induction false} IntervalStays(p: Poll, run: seq<Action>, i: nat)
    requires Inv(p) && IsRun(p, run) && i < |p.ctxs|
    ensures i < |Exec(p, run).ctxs| && Exec(p, run).ctxs[i].interval == p.ctxs[i].interval
    decreases |run|
  {
    if run != [] {
      StepInv(p, run[0]);
      CtxChanges(p, run[0], i);
      IntervalStays(Apply(p, run[0]), run[1..], i);
    }
  }

  /** The time at which the current period of context `i` began: its last timer, or its start. */
  function PeriodStart(p: Poll, run: seq<Action>, i: nat): int
    requires Inv(p) && IsRun(p, run) && i < |p.ctxs|
    decreases |run|
  {
    if run == [] then p.ctxs[i].start
    else
      StepInv(p, run[0]);
      CtxChanges(p, run[0], i);
      if run[0] == TimerFires(i) && TimerFires(i) !in run[1..] then p.now
      else PeriodStart(Apply(p, run[0]), run[1..], i)
  }

  lemma {:induction false} StartStays(p: Poll, run: seq<Action>, i: nat)
    requires Inv(p) && IsRun(p, run) && i < |p.ctxs| && TimerFires(i) !in run
    ensures i < |Exec(p, run).ctxs| && Exec(p, run).ctxs[i].start == p.ctxs[i].start
    decreases |run|
  {
    if run != [] {
      StepInv(p, run[0]);
      CtxChanges(p, run[0], i);
      StartStays(Apply(p, run[0]), run[1..], i);
    }
  }

  lemma {:induction false} StartIsPeriodStart(p: Poll, run: seq<Action>, i: nat)
    requires Inv(p) && IsRun(p, run) && i < |p.ctxs|
    ensures i < |Exec(p, run).ctxs| && Exec(p, run).ctxs[i].start == PeriodStart(p, run, i)
    decreases |run|
  {
    if run != [] {
      StepInv(p, run[0]);
      CtxChanges(p, run[0], i);
      if run[0] == TimerFires(i) && TimerFires(i) !in run[1..] {
        StartStays(Apply(p, run[0]), run[1..], i);
      } else {
        StartIsPeriodStart(Apply(p, run[0]), run[1..], i);
      }
    }
  }

  /**
   * Polling is as it was asked for: in every run from a start with `asked` milliseconds, whenever the callback of
   * the new context rearms its timer, the timer is due in 1 to `asked` milliseconds (1, if 0 was asked for), a
   * whole number of intervals after the last ring of the timer, or after the start if it has not rung.
   */
  lemma PollsAsAsked(p: Poll, asked: nat, run: seq<Action>)
    requires Inv(p) && !p.active && Enabled(p, Start(asked)) && IsRun(Started(p, asked), run)
    ensures var q, n := Exec(Started(p, asked), run), |p.ctxs|;
      && n < |q.ctxs|
      && (Enabled(q, PollReturns(n)) && q.cur == Some(n) ==>
            var c, d := q.ctxs[n], Apply(q, PollReturns(n)).ctxs[n];
            && IsInterval(c.interval, asked) && d.timerActive && 1 <= d.timerDue - q.now <= c.interval
            && OnGrid(d.timerDue, PeriodStart(Started(p, asked), run, n), c.interval))
  {
    var p1, n := Started(p, asked), |p.ctxs|;
    StartMakesContext(p, asked);
    IntervalStays(p1, run, n);
    StartIsPeriodStart(p1, run, n);
    var q := Exec(p1, run);
    if Enabled(q, PollReturns(n)) && q.cur == Some(n) { RearmsOnTheGrid(q.ctxs[n], q.now); }
  }

  // ---- What the user is told over a whole run -------------------------------------------------------------

  /** The answer that a step brings to context `i`. */
  function HeardIn(p: Poll, a: Action, i: nat): seq<Answer> {
    if a.StatDone? && a.i == i && p.cur == Some(i) then [a.r] else []
  }

  /** The answers that reach context `i` in a run while it is the current one. */
  function Heard(p: Poll, run: seq<Action>, i: nat): seq<Answer>
    requires Inv(p) && IsRun(p, run)
    decreases |run|
  {
    if run == [] then []
    else
      StepInv(p, run[0]);
      HeardIn(p, run[0], i) + Heard(Apply(p, run[0]), run[1..], i)
  }

  /** The news in a history of answers. */
  function NewsOf(seen: seq<Answer>): seq<Report> {
    if seen == [] then []
    else
      var before, r := seen[..|seen| - 1], seen[|seen| - 1];
      NewsOf(before) + if Told(before, r).Some? then [Told(before, r).value] else []
  }

  lemma Regroup(s: seq<Answer>, t: seq<Answer>, u: seq<Answer>)
    ensures (s + t) + u == s + (t + u)
  {
  }

  lemma {:induction false} SeenIsHeard(p: Poll, run: seq<Action>, i: nat)
    requires Inv(p) && IsRun(p, run) && i < |p.ctxs|
    ensures i < |Exec(p, run).ctxs| && Exec(p, run).ctxs[i].seen == p.ctxs[i].seen + Heard(p, run, i)
    decreases |run|
  {
    if run == [] {
      assert p.ctxs[i].seen + [] == p.ctxs[i].seen;
    } else {
      var q := Apply(p, run[0]);
      StepInv(p, run[0]);
      SeenStep(p, run[0], i);
      SeenIsHeard(q, run[1..], i);
      Regroup(p.ctxs[i].seen, HeardIn(p, run[0], i), Heard(q, run[1..], i));
    }
  }

  lemma SeenStep(p: Poll, a: Action, i: nat)
    requires Inv(p) && Enabled(p, a) && i < |p.ctxs|
    ensures i < |Apply(p, a).ctxs| && Apply(p, a).ctxs[i].seen == p.ctxs[i].seen + HeardIn(p, a, i)
  {
    CtxChanges(p, a, i);
  }

  lemma CallsOfOne(log: seq<(nat, Report)>, k: nat, r: Report, i: nat)
    ensures CallsOf(log + [(k, r)], i) == CallsOf(log, i) + if k == i then [r] else []
  {
    assert (log + [(k, r)])[..|log|] == log;
  }

  lemma NewsAppend(seen: seq<Answer>, r: Answer)
    ensures NewsOf(seen + [r]) == NewsOf(seen) + if Told(seen, r).Some? then [Told(seen, r).value] else []
  {
    assert (seen + [r])[..|seen|] == seen;
  }

  /** What one answer adds to the log. */
  lemma LogStep(p: Poll, k: nat, r: Answer)
    requires Inv(p) && Enabled(p, StatDone(k, r))
    ensures var t := if p.cur == Some(k) then Told(p.ctxs[k].seen, r) else None;
      Apply(p, StatDone(k, r)).log == p.log + if t.Some? then [(k, t.value)] else []
  {
    assert CtxInv(p.ctxs[k], p.now);
    TellsTheNews(p.ctxs[k], p.now, r);
    assert p.log + [] == p.log;
  }

  lemma ToldStep(p: Poll, a: Action, i: nat)
    requires Inv(p) && Enabled(p, a) && i < |p.ctxs| && CallsOf(p.log, i) == NewsOf(p.ctxs[i].seen)
    ensures i < |Apply(p, a).ctxs|
    ensures CallsOf(Apply(p, a).log, i) == NewsOf(Apply(p, a).ctxs[i].seen)
  {
    CtxChanges(p, a, i);
    if a.StatDone? {
      var t := if p.cur == Some(a.i) then Told(p.ctxs[a.i].seen, a.r) else None;
      LogStep(p, a.i, a.r);
      NewsAppend(p.ctxs[i].seen, a.r);
      if t.Some? { CallsOfOne(p.log, a.i, t.value, i); }
    }
  }

  lemma {:induction false} ToldRun(p: Poll, run: seq<Action>, i: nat)
    requires Inv(p) && IsRun(p, run) && i < |p.ctxs| && CallsOf(p.log, i) == NewsOf(p.ctxs[i].seen)
    ensures i < |Exec(p, run).ctxs| && CallsOf(Exec(p, run).log, i) == NewsOf(Exec(p, run).ctxs[i].seen)
    decreases |run|
  {
    if run != [] {
      StepInv(p, run[0]);
      ToldStep(p, run[0], i);
      ToldRun(Apply(p, run[0]), run[1..], i);
    }
  }

  /** Reports come from contexts that exist. */
  lemma {:induction false} NoCallsYet(p: Poll, run: seq<Action>, i: nat)
    requires Inv(p) && IsRun(p, run) && CallsOf(p.log, i) == []
    requires |Exec(p, run).ctxs| <= i
    ensures |p.ctxs| <= i && CallsOf(Exec(p, run).log, i) == []
    decreases |run|
  {
    if run != [] {
      var q := Apply(p, run[0]);
      StepInv(p, run[0]);
      assert |p.ctxs| <= |q.ctxs|;
      MoreContexts(q, run[1..]);
      if q.log != p.log {
        OnlyTheCurrentSpeaks(p, run[0]);
        CallsOfOne(p.log, run[0].i, Told(p.ctxs[run[0].i].seen, run[0].r).value, i);
      }
      NoCallsYet(q, run[1..], i);
    }
  }

  lemma {:induction false} MoreContexts(p: Poll, run: seq<Action>)
    requires Inv(p) && IsRun(p, run)
    ensures |p.ctxs| <= |Exec(p, run).ctxs|
    decreases |run|
  {
    if run != [] {
      StepInv(p, run[0]);
      MoreContexts(Apply(p, run[0]), run[1..]);
    }
  }

  /**
   * The user is told exactly the news: take any run from an idle handle, a start, and any run from there. The calls
   * of the user's callback from the new context are, one for one and in order, the news in the answers that
   * reached it before it was given up.
   */
  lemma UserHearsTheNews(now: int, run: seq<Action>, asked: nat, more: seq<Action>)
    requires IsRun(Idle(now), run) && !Exec(Idle(now), run).active && Enabled(Exec(Idle(now), run), Start(asked))
    requires IsRun(Started(Exec(Idle(now), run), asked), more)
    ensures var p := Exec(Idle(now), run);
      var p1, n := Started(p, asked), |p.ctxs|;
      CallsOf(Exec(p1, more).log, n) == NewsOf(Heard(p1, more, n))
  {
    var p := Exec(Idle(now), run);
    var p1, n := Started(p, asked), |p.ctxs|;
    NoCallsYet(Idle(now), run, n);
    StartMakesContext(p, asked);
    ToldRun(p1, more, n);
    SeenIsHeard(p1, more, n);
    assert [] + Heard(p1, more, n) == Heard(p1, more, n);
  }

  /** In every state of every run each context is owed to exactly one of: a stat, a callback, a timer, its end. */
  lemma EachContextHasOneOwner(run: seq<Action>, now: int, i: nat)
    requires IsRun(Idle(now), run) && i < |Exec(Idle(now), run).ctxs|
    ensures OneOwner(Exec(Idle(now), run).ctxs[i])
    ensures Exec(Idle(now), run).ctxs[i].parent ==> !Exec(Idle(now), run).closing
  {
    assert CtxInv(Exec(Idle(now), run).ctxs[i], Exec(Idle(now), run).now);
  }

  // ---- The objects ----------------------------------------------------------------------------------------

  /** The handle queue of the loop, as far as it holds the timers of contexts. */
  class Loop {
    var timers: seq<Context>

    /** No timer of a freed context is in the queue. */
    ghost predicate Sound()
      reads this, timers
    {
      forall c :: c in timers ==> !c.freed
    }

    constructor ()
      ensures timers == []
    {
      timers := [];
    }
  }

  class Context {
    var parent: Handle?
    var busy: int
    const interval: int
    var start: int
    var statbuf: Stat
    var statPending: bool
    var timerActive: bool
    var timerDue: int
    var timerClosing: bool
    ghost var inPoll: bool
    ghost var freed: bool
    ghost var seen: seq<Answer>

    ghost function Spec(): Ctx
      reads this
    {
      Ctx(parent != null, busy, interval, start, statbuf, statPending, inPoll, timerActive, timerDue, timerClosing,
          freed, seen)
    }

    constructor (h: Handle, every: nat, now: int)
      ensures Spec() == NewCtx(every, now) && parent == h && IsInterval(interval, every)
    {
      parent, busy, start, statbuf := h, 0, now, ZERO_STAT;
      interval := if every > 0 then every else 1;
      statPending, timerActive, timerDue, timerClosing := true, false, 0, false;
      inPoll, freed, seen := false, false, [];
    }

    /** `uv_close` on the timer, which must not be closing already; closing stops it. */
    method UvCloseTimer()
      requires !timerClosing && !freed
      modifies this`timerActive, this`timerClosing
      ensures Spec() == CloseTimer(old(Spec()))
    {
      timerActive, timerClosing := false, true;
    }

    ghost method Free()
      modifies this`freed
      ensures freed
    {
      freed := true;
    }

    /** The end of the timer's close: it leaves the handle queue, and `timer_close_cb` frees the context. */
    method TimerCloseCb(loop: Loop)
      requires timerClosing && loop.Sound()
      modifies this`timerClosing, this`freed, loop
      ensures Spec() == old(Spec()).(timerClosing := false, freed := true)
      ensures loop.Sound() && loop.timers == Without(old(loop.timers), this)
    {
      WithoutIn(loop.timers, this);
      loop.timers := Without(loop.timers, this);
      timerClosing := false;
      Free();
    }

    method TimerCb(now: int)
      requires CtxInv(Spec(), now) && timerActive && timerDue <= now
      modifies this`timerActive, this`start, this`statPending
      ensures Spec() == Ring(old(Spec()), now) && statPending && !timerActive && start == now
    {
      assert parent != null;
      timerActive := false;
      start := now;
      statPending := true;
    }

    /** `poll_cb` up to the user's callback, for which it returns the arguments. */
    method PollHead(r: Answer, ghost now: int) returns (call: Option<Report>)
      requires CtxInv(Spec(), now) && statPending && ValidAnswer(r)
      modifies this
      ensures Spec() == Head(old(Spec()), r) && call == Call(old(Spec()), r) && parent == old(parent)
    {
      call := None;
      statPending := false;
      if parent == null {
        UvCloseTimer();
        return;
      }
      inPoll, seen := true, seen + [r];
      if r.code != 0 {
        if busy != r.code {
          call := Some(Report(r.code, statbuf, ZERO_STAT));
          busy := r.code;
        }
        return;
      }
      if busy != 0 {
        if busy < 0 || !SameStat(statbuf, r.stat) {
          call := Some(Report(0, statbuf, r.stat));
        }
      }
      statbuf := r.stat;
      busy := 1;
    }

    /** `poll_cb` after the user's callback has returned. */
    method PollTail(now: int)
      requires CtxInv(Spec(), now) && inPoll
      modifies this
      ensures Spec() == Tail(old(Spec()), now) && parent == old(parent)
      ensures if parent == null then timerClosing else timerActive && now < timerDue <= now + interval
    {
      inPoll := false;
      if parent == null {
        UvCloseTimer();
        return;
      }
      var delay := interval;
      delay := delay - (now - start) % delay;
      timerActive, timerDue := true, now + delay;
    }
  }

  class Handle {
    var active: bool
    var closing: bool
    var pollCtx: Context?

    /** What `uv_fs_poll_stop` asserts, as an invariant. */
    ghost predicate Valid(now: int)
      reads this, pollCtx
    {
      && (active <==> pollCtx != null)
      && (pollCtx != null ==> pollCtx.parent == this && CtxInv(pollCtx.Spec(), now))
    }

    constructor (ghost now: int)
      ensures Valid(now) && !active && !closing
    {
      active, closing, pollCtx := false, false, null;
    }

    /**
     * `uv_fs_poll_start`: `memory` says whether the context can be allocated, and `refusal` is what the
     * submission of the first stat request returns. After an error the handle is as it was. But after a
     * refusal the context is freed with its timer still in the loop's handle queue.
     */
    method StartPolling(loop: Loop, interval: nat, now: int, memory: bool, refusal: int) returns (err: int)
      requires Valid(now) && !closing
      modifies this, loop
      ensures Valid(now) && !closing
      ensures err == if old(active) then 0 else if !memory then UV_ENOMEM else if refusal < 0 then refusal else 0
      ensures active <==> err == 0
      ensures old(active) || err != 0 ==> pollCtx == old(pollCtx)
      ensures !old(active) && err == 0 ==> fresh(pollCtx) && pollCtx.Spec() == NewCtx(interval, now)
      ensures !old(active) && err == 0 ==>
        pollCtx.parent == this && pollCtx.statPending && pollCtx.start == now && IsInterval(pollCtx.interval, interval)
      ensures if old(active) || !memory then loop.timers == old(loop.timers)
              else |loop.timers| == |old(loop.timers)| + 1 && old(loop.timers) <= loop.timers
      ensures !old(active) && err == 0 ==> loop.timers == old(loop.timers) + [pollCtx]
      ensures old(loop.Sound()) ==> (loop.Sound() <==> old(active) || !memory || refusal >= 0)
    {
      if active { return 0; }
      if !memory { return UV_ENOMEM; }
      var ctx := new Context(this, interval, now);
      loop.timers := loop.timers + [ctx];
      assert loop.timers[|loop.timers| - 1] == ctx;
      if refusal < 0 {
        ctx.Free();
        return refusal;
      }
      pollCtx := ctx;
      active := true;
      return 0;
    }

    method StopPolling(ghost now: int)
      requires Valid(now)
      modifies this, pollCtx
      ensures Valid(now) && !active && pollCtx == null && closing == old(closing)
      ensures old(active) ==> old(pollCtx).Spec() == Abandon(old(pollCtx.Spec())) && old(pollCtx).parent == null
    {
      if !active { return; }
      var ctx := pollCtx;
      assert ctx.parent != null;
      ctx.parent := null;
      pollCtx := null;
      if ctx.timerActive {
        ctx.UvCloseTimer();
      }
      active := false;
    }

    method CloseHandle(ghost now: int)
      requires Valid(now) && !closing
      modifies this, pollCtx
      ensures Valid(now) && !active && closing
      ensures old(active) ==> old(pollCtx).Spec() == Abandon(old(pollCtx.Spec()))
    {
      closing := true;
      StopPolling(now);
    }
  }
}
