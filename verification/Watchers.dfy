/**
 * The table of I/O watchers of an event loop: slots indexed by file descriptor, grown to powers of two,
 * with two hidden slots behind the last one in which the poll step keeps the events it is working
 * through, the queue of watchers whose requested events the backend has yet to be told, and the queue of
 * watchers fed with work by hand.
 */
module Watchers {
  import opened PowerOfTwo
  import opened Sequences

  datatype Event = PollIn | PollOut | PollRdHup

  const ALL: set<Event> := {PollIn, PollOut, PollRdHup}

  /** A pointer in the table: null, a watcher, or what the poll step puts behind the end of the table. */
  datatype Slot = Null | Reg(w: Watcher) | Events(fds: array<int>) | Count(n: nat)

  const INT_MAX := 0x7fff_ffff

  /** A file descriptor, or -1. */
  type Fd = n: int | -1 <= n <= INT_MAX witness -1

  class Watcher {
    const fd: Fd
    var events: set<Event>
    var pevents: set<Event>

    constructor (n: Fd)
      ensures fd == n && events == {} && pevents == {}
    {
      fd, events, pevents := n, {}, {};
    }
  }

  // ---- Counting the used slots ---------------------------------------------------------------------

  ghost function Used(s: seq<Slot>): nat {
    if s == [] then 0 else (if s[0].Null? then 0 else 1) + Used(s[1..])
  }

  lemma {:induction false} UsedPut(s: seq<Slot>, i: nat, x: Slot)
    requires i < |s|
    ensures Used(s[i := x]) == Used(s) + (if x.Null? then 0 else 1) - (if s[i].Null? then 0 else 1)
    decreases |s|
  {
    if i == 0 {
      assert s[0 := x][1..] == s[1..];
    } else {
      UsedPut(s[1..], i - 1, x);
      assert s[i := x][1..] == s[1..][i - 1 := x];
    }
  }

  lemma {:induction false} UsedNulls(s: seq<Slot>, t: seq<Slot>)
    requires forall k :: 0 <= k < |t| ==> t[k].Null?
    ensures Used(s + t) == Used(s)
    decreases |s| + |t|
  {
    if s != [] {
      UsedNulls(s[1..], t);
      assert (s + t)[1..] == s[1..] + t;
    } else if t != [] {
      assert s + t == t;
      UsedNulls([], t[1..]);
      assert [] + t[1..] == t[1..];
    }
  }

  lemma {:induction false} UsedSome(s: seq<Slot>, i: nat)
    requires i < |s| && !s[i].Null?
    ensures Used(s) > 0
    decreases i
  {
    if i > 0 { UsedSome(s[1..], i - 1); }
  }

  class EventLoop {
    var watchers: array?<Slot>
    var nwatchers: nat
    var nfds: int
    var queue: seq<Watcher>
    var pending: seq<Watcher>

    /** The visible slots. */
    ghost function Table(): seq<Slot>
      requires Shaped()
      reads this`watchers, this`nwatchers, watchers
    {
      if watchers == null then [] else watchers[..nwatchers]
    }

    /** The two hidden slots behind them. */
    ghost function Hidden(): (Slot, Slot)
      requires Shaped()
      reads this`watchers, this`nwatchers, watchers
    {
      if watchers == null then (Null, Null) else (watchers[nwatchers], watchers[nwatchers + 1])
    }

    ghost predicate Shaped()
      reads this`watchers, this`nwatchers
    {
      && (watchers == null ==> nwatchers == 0)
      && (watchers != null ==> watchers.Length == nwatchers + 2 && IsPow2(nwatchers + 2))
      && nwatchers + 2 <= 0x8000_0000
    }

    constructor ()
      ensures Valid({}) && Table() == [] && Hidden() == (Null, Null) && nfds == 0 && queue == [] && pending == []
    {
      watchers, nwatchers, nfds, queue, pending := null, 0, 0, [], [];
    }

    /**
     * Make room for `len` slots. What was there stays, the rest is empty, the hidden slots move along, and
     * the new size plus two is the least power of two that will do. For `INT_MAX` slots alone that size
     * wraps around to zero, and the C library is asked for a table of no bytes: there `ok` is false, and
     * the model's table stays as it was.
     */
    method MaybeResize(len: nat) returns (ok: bool)
      requires Shaped() && len <= INT_MAX
      modifies this`watchers, this`nwatchers
      ensures Shaped() && (ok <==> len != INT_MAX)
      ensures !ok ==> watchers == old(watchers) && nwatchers == old(nwatchers)
      ensures ok ==> len <= nwatchers && (watchers != null || len == 0)
      ensures Hidden() == old(Hidden())
      ensures old(nwatchers) <= nwatchers && Table()[..old(nwatchers)] == old(Table())
      ensures forall i :: old(nwatchers) <= i < nwatchers ==> Table()[i].Null?
      ensures len <= old(nwatchers) ==> watchers == old(watchers) && nwatchers == old(nwatchers)
      ensures ok && old(nwatchers) < len ==>
          fresh(watchers) && forall p :: IsPow2(p) && len + 2 <= p ==> nwatchers + 2 <= p
    {
      if len <= nwatchers { return true; }
      var fakeList, fakeCount := Null, Null;
      if watchers != null {
        fakeList, fakeCount := watchers[nwatchers], watchers[nwatchers + 1];
      }
      var n := NextPowerOfTwo(len + 2);
      if n == 0 { return false; }
      n := n - 2;
      var table := Realloc(n);
      table[n], table[n + 1] := fakeList, fakeCount;
      watchers := table;
      nwatchers := n;
      ok := true;
    }

    /** The copying and clearing part of the resize. */
    method Realloc(n: nat) returns (table: array<Slot>)
      requires Shaped() && nwatchers < n
      ensures fresh(table) && table.Length == n + 2
      ensures table[..nwatchers] == Table()
      ensures forall i :: nwatchers <= i < n ==> table[i].Null?
    {
      table := new Slot[n + 2](_ => Null);
      if watchers == null { return; }
      for i := 0 to nwatchers
        invariant table[..i] == watchers[..i]
        invariant forall j :: nwatchers <= j < n ==> table[j].Null?
      {
        table[i] := watchers[i];
      }
    }

    /** A watcher with a request owns its slot, and is queued while the backend's mask is out of date. */
    ghost predicate Settled(w: Watcher)
      requires Shaped()
      reads this`watchers, this`nwatchers, watchers, this`queue, w
    {
      && (w.pevents != {} ==> 0 <= w.fd < nwatchers && Table()[w.fd] == Reg(w))
      && (w.pevents == {} ==> w.events == {} && w !in queue)
      && (w.pevents != {} && w.events != w.pevents ==> w in queue)
    }

    /** Every used slot belongs to the watcher of that descriptor. */
    ghost predicate Owned(all: set<Watcher>)
      requires Shaped()
      reads this`watchers, this`nwatchers, watchers, all
    {
      forall i :: 0 <= i < nwatchers ==>
        (Table()[i].Null? ||
         (Table()[i].Reg? && Table()[i].w in all && Table()[i].w.fd == i && Table()[i].w.pevents != {}))
    }

    /** As `Valid`, but `w` has just given up its last request: its slot may still be there. */
    ghost predicate ValidNo(all: set<Watcher>, w: Watcher)
      reads this, watchers, all
    {
      && Shaped()
      && nfds == Used(Table())
      && (forall i :: 0 <= i < nwatchers ==>
            (Table()[i].Null? || (Table()[i].Reg? && Table()[i].w in all && Table()[i].w.fd == i
                                  && (Table()[i].w == w || Table()[i].w.pevents != {}))))
      && (forall v :: v in all && v != w ==> Settled(v))
      && (forall v :: v in queue ==> v in all)
      && NoRepeats(queue)
    }

    /** The table is in order, and every watcher outside `busy` is settled. */
    ghost predicate ValidBut(all: set<Watcher>, busy: set<Watcher>)
      reads this, watchers, all
    {
      && Shaped()
      && nfds == Used(Table())
      && Owned(all)
      && (forall w :: w in all && w !in busy ==> Settled(w))
      && (forall w :: w in queue ==> w in all)
      && NoRepeats(queue)
    }

    ghost predicate Valid(all: set<Watcher>)
      reads this, watchers, all
    {
      ValidBut(all, {})
    }

    /** Queue the watcher and give it its slot, if it has not got them. */
    method Enlist(w: Watcher)
      requires Shaped() && 0 <= w.fd < nwatchers && (Table()[w.fd].Null? || Table()[w.fd] == Reg(w))
      requires nfds == Used(Table()) && NoRepeats(queue)
      modifies this`queue, this`nfds, watchers
      ensures Shaped() && Table() == old(Table())[w.fd := Reg(w)] && Hidden() == old(Hidden())
      ensures nfds == Used(Table()) && NoRepeats(queue)
      ensures queue == if w in old(queue) then old(queue) else old(queue) + [w]
    {
      if w !in queue {
        queue := queue + [w];
      }
      if watchers[w.fd].Null? {
        UsedPut(Table(), w.fd, Reg(w));
        watchers[w.fd] := Reg(w);
        nfds := nfds + 1;
      }
    }

    /** Growing the table settles and unsettles nobody. */
    method Grow(len: nat, ghost all: set<Watcher>, ghost busy: set<Watcher>) returns (ok: bool)
      requires ValidBut(all, busy) && len <= INT_MAX
      modifies this`watchers, this`nwatchers
      ensures ok <==> len != INT_MAX
      ensures ValidBut(all, busy) && (ok ==> len <= nwatchers) && old(nwatchers) <= nwatchers
      ensures Hidden() == old(Hidden())
      ensures forall i :: 0 <= i < nwatchers ==> Table()[i] == if i < old(nwatchers) then old(Table())[i] else Null
      ensures watchers == old(watchers) || fresh(watchers)
    {
      ghost var was := Table();
      ok := MaybeResize(len);
      assert Table() == was + Table()[|was|..];
      UsedNulls(was, Table()[|was|..]);
      assert forall i :: 0 <= i < |was| ==> Table()[i] == was[i];
    }

    /** The table, grown from `was`, now has `w` in its slot, and the backend will hear of a new mask. */
    ghost predicate Started(w: Watcher, was: seq<Slot>)
      requires Shaped()
      reads this`watchers, this`nwatchers, watchers, this`queue, w
    {
      && |was| <= nwatchers
      && (forall i :: 0 <= i < nwatchers ==>
            Table()[i] == if i == w.fd then Reg(w) else if i < |was| then was[i] else Null)
      && (w.events != w.pevents ==> w in queue)
    }

    /** Watch for `events` too. `ok` is false for the one descriptor the table cannot be grown for. */
    method IoStart(w: Watcher, events: set<Event>, ghost all: set<Watcher>) returns (ok: bool)
      requires Valid(all) && w in all && events != {}
      requires forall v :: v in all && v.fd == w.fd ==> v == w
      requires 0 <= w.fd < INT_MAX
      modifies this, watchers, w`pevents
      ensures Shaped() && (ok <==> w.fd != INT_MAX - 1)
      ensures ok ==> Valid(all)
      ensures ok ==> Started(w, old(Table()))
      ensures queue == old(queue) || queue == old(queue) + [w]
      ensures pending == old(pending) && Hidden() == old(Hidden())
      ensures w.pevents == old(w.pevents) + events
    {
      w.pevents := w.pevents + events;
      assert ValidBut(all, {w});
      ok := Grow(w.fd + 1, all, {w});
      if !ok { return; }
      if w.events == w.pevents { return; }
      Settle(w, all);
    }

    /** With its slot and its place in the queue, a watcher with a request is settled. */
    method Settle(w: Watcher, ghost all: set<Watcher>)
      requires ValidBut(all, {w}) && w in all && w.pevents != {} && 0 <= w.fd < nwatchers
      requires Table()[w.fd].Null? || Table()[w.fd] == Reg(w)
      modifies this`queue, this`nfds, watchers
      ensures Valid(all) && Table() == old(Table())[w.fd := Reg(w)] && Hidden() == old(Hidden())
      ensures queue == if w in old(queue) then old(queue) else old(queue) + [w]
    {
      Enlist(w);
      assert w in queue;
    }

    /** Take the watcher off the queue and out of the table. */
    method Delist(w: Watcher)
      requires Shaped() && 0 <= w.fd < nwatchers && (Table()[w.fd].Null? || Table()[w.fd] == Reg(w))
      requires nfds == Used(Table()) && NoRepeats(queue) && w.pevents == {}
      requires Table()[w.fd].Null? ==> w.events == {}
      modifies this`queue, this`nfds, watchers, w`events
      ensures Shaped() && Table() == old(Table())[w.fd := Null] && Hidden() == old(Hidden())
      ensures nfds == Used(Table()) && NoRepeats(queue) && queue == Without(old(queue), w) && w.events == {}
      ensures forall v :: v in queue <==> v in old(queue) && v != w
    {
      WithoutIn(queue, w);
      WithoutNoRepeats(queue, w);
      queue := Without(queue, w);
      if !watchers[w.fd].Null? {
        assert watchers[w.fd] == Reg(w);
        UsedSome(Table(), w.fd);
        assert nfds > 0;
        UsedPut(Table(), w.fd, Null);
        watchers[w.fd] := Null;
        nfds := nfds - 1;
        w.events := {};
      }
    }

    method Unsettle(w: Watcher, ghost all: set<Watcher>)
      requires ValidNo(all, w) && w in all && w.pevents == {} && 0 <= w.fd < nwatchers
      requires forall v :: v in all && v.fd == w.fd ==> v == w
      requires Table()[w.fd].Null? ==> w.events == {}
      modifies this`queue, this`nfds, watchers, w`events
      ensures Valid(all) && Table() == old(Table())[w.fd := Null] && Hidden() == old(Hidden())
      ensures w.events == {} && queue == Without(old(queue), w)
    {
      Delist(w);
    }

    method IoStop(w: Watcher, events: set<Event>, ghost all: set<Watcher>)
      requires Valid(all) && w in all && events != {}
      requires forall v :: v in all && v.fd == w.fd ==> v == w
      modifies this`queue, this`nfds, watchers, w
      ensures Valid(all)
      ensures w.pevents == old(w.pevents) - events
      ensures Hidden() == old(Hidden()) && nwatchers == old(nwatchers)
      ensures forall i :: 0 <= i < nwatchers ==>
          Table()[i] == if i == w.fd && w.pevents == {} then Null else old(Table())[i]
      ensures w.events == if w.pevents == {} then {} else old(w.events)
      ensures w.pevents == {} ==> queue == Without(old(queue), w)
      ensures w.pevents != {} ==> queue == if w in old(queue) then old(queue) else old(queue) + [w]
    {
      if w !in queue { WithoutAbsent(queue, w); }
      if w.fd == -1 { return; }
      if w.fd >= nwatchers { return; }
      w.pevents := w.pevents - events;
      if w.pevents == {} {
        Unsettle(w, all);
      } else if w !in queue {
        queue := queue + [w];
      }
    }

    /** `uv__io_feed`: have the watcher's callback run by hand in the next turn of the loop. */
    method IoFeed(w: Watcher)
      requires NoRepeats(pending)
      modifies this`pending
      ensures NoRepeats(pending) && (forall v :: v in pending <==> v == w || v in old(pending))
      ensures old(pending) <= pending
    {
      if w !in pending {
        InsertBetween(pending, w, []);
        assert pending + [w] == pending + [w] + [] && pending + [] == pending;
        pending := pending + [w];
      }
    }

    // ---- The events of the running poll step ---------------------------------------------------------

    /** The hidden slots hold nothing, or a list of events and its length. */
    ghost predicate Lent()
      requires Shaped()
      reads this`watchers, this`nwatchers, watchers
    {
      Hidden().0.Null? || (Hidden().0.Events? && Hidden().1.Count? && Hidden().1.n <= Hidden().0.fds.Length)
    }

    ghost function EventLists(): set<array<int>>
      requires Shaped()
      reads this`watchers, this`nwatchers, watchers
    {
      if Hidden().0.Events? then {Hidden().0.fds} else {}
    }

    /** The descriptors of the events still in the list. */
    ghost function Stale(): seq<int>
      requires Shaped() && Lent()
      reads this`watchers, this`nwatchers, watchers, EventLists()
    {
      if Hidden().0.Null? then [] else Hidden().0.fds[..Hidden().1.n]
    }

    /** The poll step lends the loop its list of `n` events. */
    method Lend(fds: array<int>, n: nat)
      requires Shaped() && watchers != null && n <= fds.Length
      modifies watchers
      ensures Shaped() && Lent() && Table() == old(Table()) && Hidden() == (Events(fds), Count(n))
    {
      watchers[nwatchers] := Events(fds);
      watchers[nwatchers + 1] := Count(n);
    }

    method TakeBack()
      requires Shaped() && watchers != null
      modifies watchers
      ensures Shaped() && Lent() && Table() == old(Table()) && Hidden() == (Null, Null)
    {
      watchers[nwatchers] := Null;
      watchers[nwatchers + 1] := Null;
    }

    /** Events of this descriptor that are still in the list get the descriptor -1, which is skipped. */
    method InvalidateFd(fd: int)
      requires Shaped() && Lent() && watchers != null
      modifies EventLists()
      ensures Shaped() && Lent() && Table() == old(Table()) && Hidden() == old(Hidden())
      ensures |Stale()| == |old(Stale())|
      ensures forall i :: 0 <= i < |Stale()| ==> Stale()[i] == if old(Stale())[i] == fd then -1 else old(Stale())[i]
    {
      if watchers[nwatchers].Null? { return; }
      var fds, n := watchers[nwatchers].fds, watchers[nwatchers + 1].n;
      for i := 0 to n
        invariant forall k :: 0 <= k < i ==> fds[k] == if old(fds[k]) == fd then -1 else old(fds[k])
        invariant forall k :: i <= k < n ==> fds[k] == old(fds[k])
      {
        if fds[i] == fd {
          fds[i] := -1;
        }
      }
    }

    /** Whose callback event `i` of the list calls: that of the watcher of its descriptor, if there is one. */
    method EventTarget(fds: array<int>, i: nat, ghost all: set<Watcher>) returns (w: Watcher?)
      requires Valid(all) && i < fds.Length && (fds[i] == -1 || 0 <= fds[i] < nwatchers)
      ensures w != null <==> exists v :: v in all && v.fd == fds[i] && v.pevents != {}
      ensures w != null ==> w in all && w.fd == fds[i] && w.pevents != {}
    {
      w := null;
      if fds[i] != -1 {
        SlotsAreRequests(this, all, fds[i]);
        if !watchers[fds[i]].Null? {
          w := watchers[fds[i]].w;
        }
      } else {
        assert forall v :: v in all ==> Settled(v);
      }
    }

    /**
     * `uv__io_close`, apart from the system call: the watcher is gone from the table and from both
     * queues, and no event of the running poll step is left that names its descriptor.
     */
    method IoClose(w: Watcher, ghost all: set<Watcher>)
      requires Valid(all) && Lent() && watchers != null && w in all
      requires forall v :: v in all && v.fd == w.fd ==> v == w
      modifies this`queue, this`nfds, this`pending, watchers, w, EventLists()
      ensures Valid(all) && Lent() && w.pevents == {} && w.events == {} && w !in queue
      ensures forall i :: 0 <= i < nwatchers ==> Table()[i] != Reg(w)
      ensures pending == Without(old(pending), w) && w !in pending
      ensures Hidden() == old(Hidden()) && |Stale()| == |old(Stale())|
      ensures forall i :: 0 <= i < |Stale()| ==>
          Stale()[i] == if old(Stale())[i] == w.fd then -1 else old(Stale())[i]
    {
      forall e | e in w.pevents ensures e in ALL {
        match e
        case PollIn =>
        case PollOut =>
        case PollRdHup =>
      }
      IoStop(w, ALL, all);
      assert w.pevents == {};
      WithoutIn(pending, w);
      pending := Without(pending, w);
      InvalidateFd(w.fd);
    }

    /** The head of the poll step: tell the backend about every queued watcher. */
    method SyncBackend(ghost all: set<Watcher>)
      requires Valid(all)
      modifies this`queue, all`events
      ensures Valid(all) && queue == []
      ensures forall w :: w in all ==> w.events == w.pevents
    {
      while queue != []
        invariant Valid(all)
        decreases |queue|
      {
        var w := queue[0];
        assert Settled(w);
        assert w.pevents != {} && 0 <= w.fd < nwatchers;
        HeadAlone(queue);
        queue := queue[1..];
        w.events := w.pevents;
      }
    }
  }

  /** A watcher just initialised can join: it owns nothing and owes nothing. */
  lemma Joins(l: EventLoop, all: set<Watcher>, w: Watcher)
    requires l.Valid(all) && w !in all && w.events == {} && w.pevents == {}
    ensures l.Valid(all + {w})
  {
    assert w !in l.queue;
  }

  /** The short cut of the poll step: without used slots nobody is queued. */
  lemma NoSlotsNoQueue(l: EventLoop, all: set<Watcher>)
    requires l.Valid(all) && l.nfds == 0
    ensures l.queue == []
  {
    if l.queue != [] {
      var w := l.queue[0];
      assert l.Settled(w);
      UsedSome(l.Table(), w.fd);
    }
  }

  /** `nfds` counts the watchers with a request: their descriptors are exactly the used slots. */
  lemma SlotsAreRequests(l: EventLoop, all: set<Watcher>, i: nat)
    requires l.Valid(all) && i < l.nwatchers
    ensures !l.Table()[i].Null? <==> exists w :: w in all && w.fd == i && w.pevents != {}
  {
    if w :| w in all && w.fd == i && w.pevents != {} {
      assert l.Settled(w);
    }
  }
}
