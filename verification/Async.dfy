/**
 The async wakeup of one event loop (unix/async.c), as a transition system.

 Any number of threads run uv_async_send; the loop thread runs uv__async_io. The atomic steps
 are the single reads, writes and compare-and-swaps of the source, interleaved in any order.
 The history part of the state (`owed`, `sends`, `wins`, `calls`) is written but never read by
 the steps.
 */
module AsyncWakeup {
  import opened Sequences

  type Handle = nat
  type Thread = nat

  /** Where a thread is inside uv_async_send. */
  datatype SendPc =
    | Outside
    | Check(h: Handle)      // about to read handle->pending
    | Cas(h: Handle)        // about to run cmpxchgi(&handle->pending, 0, 1)
    | Write(h: Handle)      // won the flag, about to write to the wakeup fd

  /** Where the loop thread is. */
  datatype LoopPc =
    | Polling               // anywhere outside uv__async_io
    | Reading               // in the read loop at the top of uv__async_io
    | Scanning              // in the loop over the moved queue
    | Calling(h: Handle)    // inside h's callback

  datatype State = State(
    pending: set<Handle>,           // handles whose flag is 1
    handles: seq<Handle>,           // loop->async_handles
    todo: seq<Handle>,              // the local queue of uv__async_io
    unread: nat,                    // bytes (or the counter) in the wakeup fd
    senders: map<Thread, SendPc>,
    pc: LoopPc,
    mute: set<Handle>,              // handles whose async_cb is NULL
    owed: set<Handle>,              // history: a send took effect after the last callback began
    sends: multiset<Handle>,        // history: calls of uv_async_send
    wins: multiset<Handle>,         // history: sends whose compare-and-swap succeeded
    calls: multiset<Handle>         // history: callbacks begun
  )

  const BUF := 1024

  datatype Action =
    | Send(t: Thread, h: Handle)
    | ReadFlag(t: Thread)
    | TrySet(t: Thread)
    | Put(t: Thread, full: bool)
    | Wake
    | Interrupted
    | ReadFull
    | ReadRest
    | Examine
    | Return
    | Done
    | Init(h: Handle, mute: bool)
    | Close(h: Handle)

  function Pc(s: State, t: Thread): SendPc {
    if t in s.senders then s.senders[t] else Outside
  }

  predicate Open(s: State, h: Handle) {
    h in s.handles || h in s.todo
  }

  /** The loop thread runs user code: outside uv__async_io, or inside a callback. */
  predicate UserCode(s: State) {
    s.pc.Polling? || s.pc.Calling?
  }

  predicate Enabled(s: State, a: Action) {
    match a
    case Send(t, h) => Pc(s, t).Outside?
    case ReadFlag(t) => Pc(s, t).Check?
    case TrySet(t) => Pc(s, t).Cas?
    case Put(t, full) => Pc(s, t).Write? && (full ==> 0 < s.unread)    // EAGAIN: the fd is full
    case Wake => s.pc.Polling?
    case Interrupted => s.pc.Reading?                                  // EINTR
    case ReadFull => s.pc.Reading? && BUF <= s.unread                  // r == sizeof(buf)
    case ReadRest => s.pc.Reading?                                     // a short read empties the fd; EAGAIN
    case Examine => s.pc.Scanning? && s.todo != []
    case Return => s.pc.Calling?
    case Done => s.pc.Scanning? && s.todo == []
    case Init(h, _) => UserCode(s) && !Open(s, h)
    case Close(h) => UserCode(s) && Open(s, h)
  }

  function Apply(s: State, a: Action): State
    requires Enabled(s, a)
  {
    match a
    case Send(t, h) =>
      s.(senders := s.senders[t := Check(h)], sends := s.sends + multiset{h})
    case ReadFlag(t) =>
      var h := Pc(s, t).h;
      if h in s.pending then s.(senders := s.senders[t := Outside], owed := s.owed + {h})
      else s.(senders := s.senders[t := Cas(h)])
    case TrySet(t) =>
      var h := Pc(s, t).h;
      if h in s.pending then s.(senders := s.senders[t := Outside], owed := s.owed + {h})
      else s.(senders := s.senders[t := Write(h)], pending := s.pending + {h},
              owed := s.owed + {h}, wins := s.wins + multiset{h})
    case Put(t, full) =>
      s.(senders := s.senders[t := Outside], unread := if full then s.unread else s.unread + 1)
    case Wake => s.(pc := Reading)
    case Interrupted => s
    case ReadFull => s.(unread := s.unread - BUF)
    case ReadRest => s.(unread := 0, pc := Scanning, todo := s.handles, handles := [])
    case Examine =>
      var h := s.todo[0];
      var s1 := s.(todo := s.todo[1..], handles := s.handles + [h]);
      if h !in s.pending then s1
      else if h in s.mute then s1.(pending := s.pending - {h}, owed := s.owed - {h})
      else s1.(pending := s.pending - {h}, owed := s.owed - {h}, pc := Calling(h), calls := s.calls + multiset{h})
    case Return => s.(pc := Scanning)
    case Done => s.(pc := Polling)
    case Init(h, mute) =>
      s.(handles := s.handles + [h], pending := s.pending - {h}, owed := s.owed - {h},
         mute := if mute then s.mute + {h} else s.mute - {h})
    case Close(h) => s.(handles := Without(s.handles, h), todo := Without(s.todo, h))
  }

  /** A loop whose wakeup fd has just been made. */
  predicate Initial(s: State) {
    && s.pending == {} && s.handles == [] && s.todo == [] && s.unread == 0 && s.senders == map[] && s.pc.Polling?
    && s.owed == {} && s.sends == multiset{} && s.wins == multiset{} && s.calls == multiset{}
  }

  // ---------------------------------------------------------------- the invariant

  /** Somebody will still see to it that h is examined. */
  ghost predicate OnItsWay(s: State, h: Handle) {
    || (exists t :: Pc(s, t) == Write(h))
    || 0 < s.unread
    || s.pc.Reading?
    || h in s.todo
  }

  ghost predicate NoLostWakeup(s: State) {
    forall h :: h in s.pending && Open(s, h) ==> OnItsWay(s, h)
  }

  predicate Tries(pc: SendPc, h: Handle) {
    pc == Check(h) || pc == Cas(h)
  }

  /** The threads that have called uv_async_send(h) and not yet got past the flag. */
  ghost function Trying(senders: map<Thread, SendPc>, h: Handle): set<Thread> {
    set t | t in senders && Tries(senders[t], h)
  }

  ghost predicate Accounts(s: State, h: Handle) {
    && s.calls[h] + (if h in s.pending then 1 else 0) <= s.wins[h]
    && s.wins[h] + |Trying(s.senders, h)| <= s.sends[h]
  }

  ghost predicate Inv(s: State) {
    && (s.pc.Polling? || s.pc.Reading? ==> s.todo == [])
    && NoLostWakeup(s)
    && (forall h :: h in s.owed && Open(s, h) ==> h in s.pending)
    && (forall h :: Accounts(s, h))
  }

  lemma InitialInv(s: State)
    requires Initial(s)
    ensures Inv(s)
  {
    forall h ensures Accounts(s, h) {
      assert Trying(s.senders, h) == {};
    }
  }

  /** Only uv_async_init makes a handle open. */
  lemma OpenStep(s: State, a: Action, h: Handle)
    requires Enabled(s, a) && Open(Apply(s, a), h)
    ensures Open(s, h) || (a.Init? && a.h == h)
    ensures a.Close? ==> a.h != h
  {
    if a.Close? {
      WithoutIn(s.handles, a.h);
      WithoutIn(s.todo, a.h);
    }
  }

  predicate SenderStep(a: Action) { a.Send? || a.ReadFlag? || a.TrySet? || a.Put? }

  /** The steps of the threads inside uv_async_send. */
  lemma SendersKeepWay(s: State, a: Action, h: Handle)
    requires Enabled(s, a) && SenderStep(a) && (h in s.pending ==> OnItsWay(s, h))
    ensures h in Apply(s, a).pending ==> OnItsWay(Apply(s, a), h)
  {
    var s' := Apply(s, a);
    if h in s.pending {
      if u :| Pc(s, u) == Write(h) {
        assert Pc(s', u) == Write(h) || 0 < s'.unread;
      }
    } else if a.TrySet? && Pc(s, a.t).h == h {
      assert Pc(s', a.t) == Write(h);
    }
  }

  /** The steps of the loop thread. */
  lemma LoopKeepsWay(s: State, a: Action, h: Handle)
    requires Enabled(s, a) && !SenderStep(a) && Open(Apply(s, a), h)
    requires h in s.pending && Open(s, h) ==> OnItsWay(s, h)
    ensures h in Apply(s, a).pending ==> OnItsWay(Apply(s, a), h)
  {
    var s' := Apply(s, a);
    OpenStep(s, a, h);
    if u :| Pc(s, u) == Write(h) {
      assert Pc(s', u) == Write(h);
    }
    if a.Close? { WithoutIn(s.todo, a.h); }
  }

  lemma WakeupStep(s: State, a: Action)
    requires Inv(s) && Enabled(s, a)
    ensures NoLostWakeup(Apply(s, a))
  {
    forall h | h in Apply(s, a).pending && Open(Apply(s, a), h) ensures OnItsWay(Apply(s, a), h) {
      if SenderStep(a) {
        SendersKeepWay(s, a, h);
      } else {
        LoopKeepsWay(s, a, h);
      }
    }
  }

  /** What a send has announced stays in the flag until the handle is examined. */
  lemma OwedStep(s: State, a: Action, h: Handle)
    requires Enabled(s, a) && (h in s.owed && Open(s, h) ==> h in s.pending)
    ensures h in Apply(s, a).owed && Open(Apply(s, a), h) ==> h in Apply(s, a).pending
  {
    if Open(Apply(s, a), h) { OpenStep(s, a, h); }
  }

  lemma TryingUpdate(m: map<Thread, SendPc>, t: Thread, pc: SendPc, h: Handle)
    ensures |Trying(m[t := pc], h)| ==
      |Trying(m, h)| - (if t in m && Tries(m[t], h) then 1 else 0) + (if Tries(pc, h) then 1 else 0)
  {
    var rest := Trying(m, h) - {t};
    assert Trying(m, h) == if t in m && Tries(m[t], h) then rest + {t} else rest;
    assert Trying(m[t := pc], h) == if Tries(pc, h) then rest + {t} else rest;
  }

  lemma AccountsStep(s: State, a: Action, h: Handle)
    requires Accounts(s, h) && Enabled(s, a)
    ensures Accounts(Apply(s, a), h)
  {
    if a.Send? || a.ReadFlag? || a.TrySet? || a.Put? {
      TryingUpdate(s.senders, a.t, Apply(s, a).senders[a.t], h);
    }
  }

  lemma StepInv(s: State, a: Action)
    requires Inv(s) && Enabled(s, a)
    ensures Inv(Apply(s, a))
  {
    var s' := Apply(s, a);
    WakeupStep(s, a);
    forall h ensures Accounts(s', h) {
      AccountsStep(s, a, h);
    }
    forall h | h in s'.owed && Open(s', h) ensures h in s'.pending {
      OwedStep(s, a, h);
    }
    if a.Close? { WithoutIn(s.todo, a.h); }
  }

  // ---------------------------------------------------------------- runs

  ghost predicate IsRun(s: State, run: seq<Action>)
    decreases |run|
  {
    run != [] ==> Enabled(s, run[0]) && IsRun(Apply(s, run[0]), run[1..])
  }

  ghost function Exec(s: State, run: seq<Action>): State
    requires IsRun(s, run)
    decreases |run|
  {
    if run == [] then s else Exec(Apply(s, run[0]), run[1..])
  }

  lemma {:induction false} RunInv(s: State, run: seq<Action>)
    requires Inv(s) && IsRun(s, run)
    ensures Inv(Exec(s, run))
    decreases |run|
  {
    if run != [] {
      StepInv(s, run[0]);
      RunInv(Apply(s, run[0]), run[1..]);
    }
  }

  /** No thread is sending, nothing is left to read, the loop is back in its poll. */
  ghost predicate Quiescent(s: State) {
    s.pc.Polling? && s.unread == 0 && forall t :: Pc(s, t).Outside?
  }

  /** A send stays owed until a callback of its handle begins, unless there is none to run. */
  lemma OwedUntilCalled(s: State, a: Action, h: Handle)
    requires Enabled(s, a) && h in s.owed && h !in Apply(s, a).owed
    ensures || (Apply(s, a).pc == Calling(h) && Apply(s, a).calls[h] == s.calls[h] + 1)
            || h in s.mute || (a.Init? && a.h == h)
  {
  }

  /** A send that is over has left its handle owed: what it announced is answered later or not at all. */
  lemma SendLeavesOwed(s: State, a: Action, t: Thread, h: Handle)
    requires Enabled(s, a) && (Pc(s, t) == Check(h) || Pc(s, t) == Cas(h))
    requires Pc(Apply(s, a), t) != Check(h) && Pc(Apply(s, a), t) != Cas(h)
    ensures h in Apply(s, a).owed
  {
  }

  /** Callbacks never outnumber sends. */
  lemma CallsAtMostSends(s: State, run: seq<Action>, h: Handle)
    requires Initial(s) && IsRun(s, run)
    ensures Exec(s, run).calls[h] <= Exec(s, run).sends[h]
  {
    InitialInv(s);
    RunInv(s, run);
    assert Accounts(Exec(s, run), h);
  }

  lemma {:induction false} CallsGrow(s: State, run: seq<Action>, h: Handle)
    requires IsRun(s, run)
    ensures s.calls[h] <= Exec(s, run).calls[h]
    decreases |run|
  {
    if run != [] { CallsGrow(Apply(s, run[0]), run[1..], h); }
  }

  /**
   No lost wakeup. Take any reachable state in which a send on h has taken effect, and any run
   from there to a quiet state in which h is still open and has not been made anew: on the way
   a callback of h begins.
   */
  lemma {:induction false} SendIsAnswered(s: State, run: seq<Action>, h: Handle)
    requires Inv(s) && IsRun(s, run) && h in s.owed && h !in s.mute
    requires forall i :: 0 <= i < |run| ==> !(run[i].Init? && run[i].h == h)
    requires Quiescent(Exec(s, run)) && Open(Exec(s, run), h)
    ensures s.calls[h] < Exec(s, run).calls[h]
    decreases |run|
  {
    if run != [] {
      var s' := Apply(s, run[0]);
      StepInv(s, run[0]);
      if h in s'.owed {
        SendIsAnswered(s', run[1..], h);
      } else {
        OwedUntilCalled(s, run[0], h);
        CallsGrow(s', run[1..], h);
      }
    }
  }

  /**
   Every call of uv_async_send, from its first step on: in any run from there to a quiet state in
   which h is still open and has not been made anew, a callback of h begins after the call.
   */
  lemma {:induction false} CallIsAnswered(s: State, run: seq<Action>, t: Thread, h: Handle)
    requires Inv(s) && IsRun(s, run) && (Pc(s, t) == Check(h) || Pc(s, t) == Cas(h)) && h !in s.mute
    requires forall i :: 0 <= i < |run| ==> !(run[i].Init? && run[i].h == h)
    requires Quiescent(Exec(s, run)) && Open(Exec(s, run), h)
    ensures s.calls[h] < Exec(s, run).calls[h]
    decreases |run|
  {
    if run != [] {
      var s' := Apply(s, run[0]);
      StepInv(s, run[0]);
      if Pc(s', t) == Check(h) || Pc(s', t) == Cas(h) {
        CallIsAnswered(s', run[1..], t, h);
      } else {
        SendLeavesOwed(s, run[0], t, h);
        SendIsAnswered(s', run[1..], h);
      }
    }
  }

  // ---------------------------------------------------------------- the handles of the loop

  /** The handles in the order in which they are examined. A pass moves them from `todo` back to `handles`. */
  function Order(s: State): seq<Handle> { s.handles + s.todo }

  /** No step but uv_async_init and uv_close changes the handles or their order, wherever a pass stands. */
  lemma OrderStep(s: State, a: Action)
    requires Inv(s) && Enabled(s, a)
    ensures if a.Close? then Order(Apply(s, a)) == Without(Order(s), a.h)
            else if a.Init? then a.h in Order(Apply(s, a)) && Without(Order(Apply(s, a)), a.h) == Order(s)
            else Order(Apply(s, a)) == Order(s)
  {
    if a.Examine? {
      assert s.todo == [s.todo[0]] + s.todo[1..];
    } else if a.Close? {
      WithoutConcat(s.handles, s.todo, a.h);
    } else if a.Init? {
      WithoutBetween(s.handles, a.h, s.todo);
    }
  }

  /** A handle is open from its initialisation to its close, and there is nothing else that opens or closes one. */
  lemma OpenExactly(s: State, a: Action, h: Handle)
    requires Inv(s) && Enabled(s, a)
    ensures Open(Apply(s, a), h) <==> (Open(s, h) || a == Init(h, true) || a == Init(h, false)) && a != Close(h)
  {
    OrderStep(s, a);
    assert forall z: State :: Open(z, h) <==> h in Order(z);
    if a.Close? {
      WithoutIn(Order(s), a.h);
    } else if a.Init? {
      WithoutIn(Order(Apply(s, a)), a.h);
    }
  }

  lemma {:induction false} OpenUntilClosed(s: State, run: seq<Action>, h: Handle)
    requires Inv(s) && IsRun(s, run) && Open(s, h) && Close(h) !in run
    ensures Open(Exec(s, run), h)
    decreases |run|
  {
    if run != [] {
      OpenExactly(s, run[0], h);
      StepInv(s, run[0]);
      OpenUntilClosed(Apply(s, run[0]), run[1..], h);
    }
  }

  // ---------------------------------------------------------------- what the history records

  function B(b: bool): nat { if b then 1 else 0 }

  /** The step that begins a callback of h. */
  predicate Begins(s: State, a: Action, h: Handle)
    requires Enabled(s, a)
  {
    a.Examine? && s.todo[0] == h && h in s.pending && h !in s.mute
  }

  /**
   The history is true: a callback begins exactly where an examination finds the flag set and a callback to
   call, and takes the flag down; a send is a call of uv_async_send; a win takes the flag from 0 to 1.
   */
  lemma HistoryIsTrue(s: State, a: Action, h: Handle)
    requires Enabled(s, a)
    ensures var s' := Apply(s, a);
      && s'.calls[h] == s.calls[h] + B(Begins(s, a, h))
      && s'.sends[h] == s.sends[h] + B(a.Send? && a.h == h)
      && s'.wins[h] == s.wins[h] + B(h !in s.pending && h in s'.pending)
      && (Begins(s, a, h) ==> s'.pc == Calling(h) && h !in s'.pending)
      && (s'.pc == Calling(h) ==> s.pc == Calling(h) || Begins(s, a, h))
  {
  }

  /** Flags go down only where the handle is examined or made anew, and its callback is what it was made with. */
  lemma FlagsAndCallbacks(s: State, a: Action, h: Handle)
    requires Enabled(s, a)
    ensures var s' := Apply(s, a);
      && (h in s.pending && h !in s'.pending ==> (a.Examine? && s.todo[0] == h) || (a.Init? && a.h == h))
      && (h in s'.mute <==> if a.Init? && a.h == h then a.mute else h in s.mute)
  {
  }

  /**
   Sends coalesce: a thread that finds the flag set is done and changes nothing; one that sets it goes on to write
   one byte, unless the descriptor is full.
   */
  lemma Coalesces(s: State, a: Action, t: Thread, h: Handle)
    requires Enabled(s, a)
    ensures (a == ReadFlag(t) || a == TrySet(t)) && Pc(s, t).h == h && h in s.pending ==>
      Pc(Apply(s, a), t).Outside? && Apply(s, a).pending == s.pending && Apply(s, a).wins == s.wins
    ensures Pc(Apply(s, a), t) == Write(h) && Pc(s, t) != Write(h) ==> h !in s.pending && h in Apply(s, a).pending
    ensures Apply(s, a).unread > s.unread ==> (exists u :: a == Put(u, false)) && Apply(s, a).unread == s.unread + 1
    ensures a == ReadFull || (a == ReadRest && s.unread > 0) ==> Apply(s, a).unread < s.unread
  {
  }

  ghost function Writers(senders: map<Thread, SendPc>): set<Thread> {
    set t | t in senders && senders[t].Write?
  }

  lemma WritersUpdate(m: map<Thread, SendPc>, t: Thread, pc: SendPc)
    ensures |Writers(m[t := pc])| ==
      |Writers(m)| - (if t in m && m[t].Write? then 1 else 0) + (if pc.Write? then 1 else 0)
  {
    var rest := Writers(m) - {t};
    assert Writers(m) == if t in m && m[t].Write? then rest + {t} else rest;
    assert Writers(m[t := pc]) == if pc.Write? then rest + {t} else rest;
  }

  /** No more is unread or about to be written than one byte for each time a flag was raised. */
  ghost predicate BytesAreWins(s: State) { s.unread + |Writers(s.senders)| <= |s.wins| }

  lemma BytesStep(s: State, a: Action)
    requires Enabled(s, a) && BytesAreWins(s)
    ensures BytesAreWins(Apply(s, a))
  {
    if a.Send? || a.ReadFlag? || a.TrySet? || a.Put? {
      WritersUpdate(s.senders, a.t, Apply(s, a).senders[a.t]);
    }
  }

  lemma {:induction false} BytesRun(s: State, run: seq<Action>)
    requires BytesAreWins(s) && IsRun(s, run)
    ensures BytesAreWins(Exec(s, run))
    decreases |run|
  {
    if run != [] {
      BytesStep(s, run[0]);
      BytesRun(Apply(s, run[0]), run[1..]);
    }
  }

  /** Over every run: at most one byte is written for each time a flag was raised, so sends on a set flag are free. */
  lemma OneBytePerWin(s: State, run: seq<Action>)
    requires Initial(s) && IsRun(s, run)
    ensures Exec(s, run).unread + |Writers(Exec(s, run).senders)| <= |Exec(s, run).wins|
  {
    assert Writers(s.senders) == {};
    BytesRun(s, run);
  }

  /** A loop just made. */
  lemma FreshIsInitial()
    ensures var s := State({}, [], [], 0, map[], Polling, {}, {}, multiset{}, multiset{}, multiset{});
      Initial(s)
  {
  }

  /** Once closed, a handle is not called back any more, whatever sends are still under way. */
  lemma {:induction false} ClosedIsSilent(s: State, run: seq<Action>, h: Handle)
    requires Inv(s) && IsRun(s, run) && !Open(s, h)
    requires forall i :: 0 <= i < |run| ==> !(run[i].Init? && run[i].h == h)
    ensures Exec(s, run).calls[h] == s.calls[h] && !Open(Exec(s, run), h)
    decreases |run|
  {
    if run != [] {
      HistoryIsTrue(s, run[0], h);
      OpenExactly(s, run[0], h);
      StepInv(s, run[0]);
      ClosedIsSilent(Apply(s, run[0]), run[1..], h);
    }
  }

  // ---------------------------------------------------------------- the loop can always come to rest

  /** Threads may send and the loop thread's own code may make and close handles whenever they get to it. */
  lemma UserIsFree(s: State, t: Thread, h: Handle, mute: bool)
    ensures Pc(s, t).Outside? ==> Enabled(s, Send(t, h))
    ensures s.pc.Polling? || s.pc.Calling? ==> Enabled(s, if Open(s, h) then Close(h) else Init(h, mute))
  {
  }

  /** Steps by which what is under way is brought to its end: no new send, no handle made or closed. */
  predicate Calm(run: seq<Action>) {
    forall i :: 0 <= i < |run| ==> !run[i].Send? && !run[i].Init? && !run[i].Close?
  }

  lemma First(s: State, a: Action, rest: seq<Action>) returns (run: seq<Action>)
    requires Enabled(s, a) && !a.Send? && !a.Init? && !a.Close? && IsRun(Apply(s, a), rest) && Calm(rest)
    ensures IsRun(s, run) && Calm(run) && Exec(s, run) == Exec(Apply(s, a), rest)
  {
    run := [a] + rest;
    assert run[1..] == rest;
  }

  ghost function Busy(s: State): set<Thread> { set t | t in s.senders && !s.senders[t].Outside? }

  /** What a thread inside uv_async_send does next. */
  function NextOf(s: State, t: Thread): Action
    requires !Pc(s, t).Outside?
  {
    match Pc(s, t)
    case Check(_) => ReadFlag(t)
    case Cas(_) => TrySet(t)
    case _ => Put(t, false)
  }

  function StepsLeft(pc: SendPc): nat {
    match pc
    case Outside => 0
    case Check(_) => 3
    case Cas(_) => 2
    case Write(_) => 1
  }

  lemma NextStep(s: State, t: Thread)
    requires !Pc(s, t).Outside?
    ensures Enabled(s, NextOf(s, t))
    ensures var s' := Apply(s, NextOf(s, t));
      && StepsLeft(Pc(s', t)) < StepsLeft(Pc(s, t)) && s'.pc == s.pc && s'.todo == s.todo
      && Busy(s') == (if Pc(s', t).Outside? then Busy(s) - {t} else Busy(s))
  {
    var s' := Apply(s, NextOf(s, t));
    assert t in Busy(s);
    forall u ensures u in Busy(s') <==> u in Busy(s) && (u == t ==> !Pc(s', t).Outside?) {}
  }

  /** All senders finish. */
  lemma {:induction false} SendersFinish(s: State, t: Thread) returns (run: seq<Action>)
    requires !Pc(s, t).Outside?
    ensures IsRun(s, run) && Calm(run) && Busy(Exec(s, run)) == {} && Exec(s, run).pc == s.pc
    decreases Busy(s), StepsLeft(Pc(s, t))
  {
    var s' := Apply(s, NextOf(s, t));
    NextStep(s, t);
    var rest := [];
    if !Pc(s', t).Outside? {
      rest := SendersFinish(s', t);
    } else if u :| u in Busy(s') {
      assert t in Busy(s);
      rest := SendersFinish(s', u);
    }
    run := First(s, NextOf(s, t), rest);
  }

  /** The loop thread gets back to its poll. */
  lemma {:induction false} ScanEnds(s: State) returns (run: seq<Action>)
    requires s.pc.Scanning? || s.pc.Calling?
    ensures IsRun(s, run) && Calm(run)
    ensures Exec(s, run).pc.Polling? && Exec(s, run).unread == s.unread && Exec(s, run).senders == s.senders
    decreases |s.todo|, s.pc.Calling?
  {
    var a := if s.pc.Calling? then Return else if s.todo != [] then Examine else Done;
    var rest := [];
    if a != Done { rest := ScanEnds(Apply(s, a)); }
    run := First(s, a, rest);
  }

  /** One wakeup, with all that is unread. */
  lemma WakeupEnds(s: State) returns (run: seq<Action>)
    requires s.pc.Polling? || s.pc.Reading?
    ensures IsRun(s, run) && Calm(run)
    ensures Exec(s, run).pc.Polling? && Exec(s, run).unread == 0 && Exec(s, run).senders == s.senders
  {
    var s1 := if s.pc.Polling? then Apply(s, Wake) else s;
    var rest := ScanEnds(Apply(s1, ReadRest));
    run := First(s1, ReadRest, rest);
    if s.pc.Polling? { run := First(s, Wake, run); }
  }

  lemma {:induction false} RunOn(s: State, run: seq<Action>, more: seq<Action>)
    requires IsRun(s, run) && IsRun(Exec(s, run), more)
    ensures IsRun(s, run + more) && Exec(s, run + more) == Exec(Exec(s, run), more)
    decreases |run|
  {
    if run == [] {
      assert run + more == more;
    } else {
      RunOn(Apply(s, run[0]), run[1..], more);
      assert (run + more)[1..] == run[1..] + more;
    }
  }

  /** From every state there is a run, without new sends, that brings the loop and all senders to rest. */
  lemma ComesToRest(s: State) returns (run: seq<Action>)
    ensures IsRun(s, run) && Calm(run) && Quiescent(Exec(s, run))
  {
    run := [];
    if t :| t in Busy(s) { run := SendersFinish(s, t); }
    var s1 := Exec(s, run);
    assert Busy(s1) == {};
    if s1.pc.Scanning? || s1.pc.Calling? {
      var more := ScanEnds(s1);
      RunOn(s, run, more);
      run := run + more;
    }
    var more := WakeupEnds(Exec(s, run));
    RunOn(s, run, more);
    run := run + more;
    var s2 := Exec(s, run);
    assert s2.senders == s1.senders;
    forall t ensures Pc(s2, t).Outside? { assert t !in Busy(s1); }
  }

  /** So every send under way on an open handle with a callback can be answered, by a run that sends nothing more. */
  lemma AnswerCanCome(s: State, t: Thread, h: Handle) returns (run: seq<Action>)
    requires Inv(s) && (Pc(s, t) == Check(h) || Pc(s, t) == Cas(h)) && Open(s, h) && h !in s.mute
    ensures IsRun(s, run) && Calm(run) && Quiescent(Exec(s, run)) && s.calls[h] < Exec(s, run).calls[h]
  {
    run := ComesToRest(s);
    OpenUntilClosed(s, run, h);
    CallIsAnswered(s, run, t, h);
  }
}
