/**
 * `uv_walk`: visit every handle of a loop while the visitor may register new handles and take any handle,
 * visited or not, off the queue. The walk moves the whole queue aside and then brings one handle back at
 * a time, so that it meets each of the original handles at most once and none of the new ones.
 */
module LoopWalk {
  import opened Queue
  import opened Sequences

  /** What a visitor can do to the queue: register a new handle, or finish closing a registered one. */
  datatype Op = Append(n: Link) | Drop(n: Link)

  /** The handles back in the loop's queue, and those still set aside. */
  datatype Lists = Lists(main: seq<Link>, rest: seq<Link>)

  function Effect(o: Op, ls: Lists): Lists {
    match o
    case Append(n) => ls.(main := ls.main + [n])
    case Drop(n) => Lists(Without(ls.main, n), Without(ls.rest, n))
  }

  /** A handle is registered once, and only a registered one can be taken off. */
  predicate Legal(o: Op, ls: Lists) {
    match o
    case Append(n) => n !in ls.main && n !in ls.rest
    case Drop(n) => n in ls.main || n in ls.rest
  }

  function RunOps(ops: seq<Op>, ls: Lists): Lists {
    if ops == [] then ls else RunOps(ops[1..], Effect(ops[0], ls))
  }

  predicate LegalOps(ops: seq<Op>, ls: Lists) {
    ops == [] || (Legal(ops[0], ls) && LegalOps(ops[1..], Effect(ops[0], ls)))
  }

  function Ops(script: map<Link, seq<Op>>, x: Link): seq<Op> { if x in script then script[x] else [] }

  /** The first of the rest is back in the queue, at its end. */
  function Moved(ls: Lists): Lists
    requires ls.rest != []
  {
    Lists(ls.main + [ls.rest[0]], ls.rest[1..])
  }

  function Turn(ls: Lists, script: map<Link, seq<Op>>): Lists
    requires ls.rest != []
  {
    if ls.rest[0].internal then Moved(ls) else RunOps(Ops(script, ls.rest[0]), Moved(ls))
  }

  lemma {:induction false} RestShrinks(ops: seq<Op>, ls: Lists)
    ensures |RunOps(ops, ls).rest| <= |ls.rest|
    decreases |ops|
  {
    if ops != [] {
      if ops[0].Drop? { WithoutIn(ls.rest, ops[0].n); }
      RestShrinks(ops[1..], Effect(ops[0], ls));
    }
  }

  /** The handles visited, in order. */
  function Visits(ls: Lists, script: map<Link, seq<Op>>): seq<Link>
    decreases |ls.rest|
  {
    if ls.rest == [] then []
    else
      RestShrinks(Ops(script, ls.rest[0]), Moved(ls));
      (if ls.rest[0].internal then [] else [ls.rest[0]]) + Visits(Turn(ls, script), script)
  }

  /** The loop's queue when the walk is over. */
  function Left(ls: Lists, script: map<Link, seq<Op>>): seq<Link>
    decreases |ls.rest|
  {
    if ls.rest == [] then ls.main
    else
      RestShrinks(Ops(script, ls.rest[0]), Moved(ls));
      Left(Turn(ls, script), script)
  }

  predicate LegalWalk(ls: Lists, script: map<Link, seq<Op>>)
    decreases |ls.rest|
  {
    if ls.rest == [] then true
    else
      RestShrinks(Ops(script, ls.rest[0]), Moved(ls));
      && (ls.rest[0].internal || LegalOps(Ops(script, ls.rest[0]), Moved(ls)))
      && LegalWalk(Turn(ls, script), script)
  }

  // ---- What the walk visits -------------------------------------------------------------------------

  /** The members of `s` that `ops` does not drop. */
  function Keep(s: seq<Link>, ops: seq<Op>): seq<Link> {
    if s == [] then [] else (if Drop(s[0]) in ops then [] else [s[0]]) + Keep(s[1..], ops)
  }

  lemma {:induction false} KeepIn(s: seq<Link>, ops: seq<Op>)
    ensures forall x :: x in Keep(s, ops) <==> x in s && Drop(x) !in ops
    decreases |s|
  {
    if s != [] {
      KeepIn(s[1..], ops);
      assert s == [s[0]] + s[1..];
    }
  }

  lemma {:induction false} KeepNoRepeats(s: seq<Link>, ops: seq<Op>)
    requires NoRepeats(s)
    ensures NoRepeats(Keep(s, ops))
    decreases |s|
  {
    if s != [] {
      var k := Keep(s[1..], ops);
      HeadAlone(s);
      KeepNoRepeats(s[1..], ops);
      KeepIn(s[1..], ops);
      HeadAlone([s[0]] + k);
      assert ([s[0]] + k)[1..] == k && [] + k == k;
    }
  }

  lemma {:induction false} KeepOrder(s: seq<Link>, ops: seq<Op>, y: Link, x: Link)
    requires y in Keep(s, ops) && x in Keep(s, ops)
    ensures Precedes(Keep(s, ops), y, x) <==> Precedes(s, y, x)
    decreases |s|
  {
    var k := Keep(s[1..], ops);
    KeepIn(s, ops);
    KeepIn(s[1..], ops);
    PairsAreMembers(k);
    PairsAreMembers(s[1..]);
    assert s == [s[0]] + s[1..];
    assert ([s[0]] + k)[1..] == k && [] + k == k;
    if y in k && x in k {
      KeepOrder(s[1..], ops, y, x);
    }
  }

  lemma {:induction false} KeepAll(s: seq<Link>)
    ensures Keep(s, []) == s
  {
    if s != [] { KeepAll(s[1..]); }
  }

  lemma {:induction false} KeepStep(s: seq<Link>, o: Op, ops: seq<Op>)
    ensures Keep(s, [o] + ops) == Keep(if o.Drop? then Without(s, o.n) else s, ops)
    decreases |s|
  {
    if s != [] {
      var x := s[0];
      assert Drop(x) in [o] + ops <==> o == Drop(x) || Drop(x) in ops;
      KeepStep(s[1..], o, ops);
      if o.Drop? {
        var w := Without(s[1..], o.n);
        assert ([x] + w)[1..] == w && [] + Keep(w, ops) == Keep(w, ops);
      }
    }
  }

  /** A visitor can only thin out what is still set aside. */
  lemma {:induction false} RestIsKept(ops: seq<Op>, ls: Lists)
    ensures RunOps(ops, ls).rest == Keep(ls.rest, ops)
    decreases |ops|
  {
    if ops == [] {
      KeepAll(ls.rest);
    } else {
      assert ops == [ops[0]] + ops[1..];
      KeepStep(ls.rest, ops[0], ops[1..]);
      RestIsKept(ops[1..], Effect(ops[0], ls));
    }
  }

  /** What the visitor called with the first of the rest does to the queue. */
  function TurnOps(ls: Lists, script: map<Link, seq<Op>>): seq<Op>
    requires ls.rest != []
  {
    if ls.rest[0].internal then [] else Ops(script, ls.rest[0])
  }

  lemma TurnRest(ls: Lists, script: map<Link, seq<Op>>)
    requires ls.rest != []
    ensures Turn(ls, script).rest == Keep(ls.rest[1..], TurnOps(ls, script))
    ensures |Turn(ls, script).rest| < |ls.rest|
    ensures forall x :: x in Turn(ls, script).rest <==> x in ls.rest[1..] && Drop(x) !in TurnOps(ls, script)
  {
    RestShrinks(Ops(script, ls.rest[0]), Moved(ls));
    RestIsKept(Ops(script, ls.rest[0]), Moved(ls));
    KeepAll(ls.rest[1..]);
    KeepIn(ls.rest[1..], TurnOps(ls, script));
  }

  lemma VisitsStep(ls: Lists, script: map<Link, seq<Op>>)
    requires ls.rest != []
    ensures Visits(ls, script) == var w := Visits(Turn(ls, script), script);
                                  if ls.rest[0].internal then w else [ls.rest[0]] + w
  {
    RestShrinks(Ops(script, ls.rest[0]), Moved(ls));
    var w := Visits(Turn(ls, script), script);
    assert [] + w == w;
  }

  /** Each visit is to a public handle that was there at the start. */
  lemma {:induction false} VisitsIn(ls: Lists, script: map<Link, seq<Op>>)
    ensures forall x :: x in Visits(ls, script) ==> x in ls.rest && !x.internal
    decreases |ls.rest|
  {
    if ls.rest != [] {
      var v, w := Visits(ls, script), Visits(Turn(ls, script), script);
      TurnRest(ls, script);
      VisitsStep(ls, script);
      VisitsIn(Turn(ls, script), script);
      forall x | x in v ensures x in ls.rest && !x.internal {
        assert x in w || (x == ls.rest[0] && !x.internal);
        assert x in w ==> x in ls.rest[1..];
      }
    }
  }

  /** No handle is visited twice. */
  lemma {:induction false} VisitsOnce(ls: Lists, script: map<Link, seq<Op>>)
    requires NoRepeats(ls.rest)
    ensures NoRepeats(Visits(ls, script))
    decreases |ls.rest|
  {
    if ls.rest != [] {
      var next := Turn(ls, script);
      TurnRest(ls, script);
      VisitsStep(ls, script);
      HeadAlone(ls.rest);
      KeepNoRepeats(ls.rest[1..], TurnOps(ls, script));
      VisitsOnce(next, script);
      VisitsIn(next, script);
      var w := Visits(next, script);
      HeadAlone([ls.rest[0]] + w);
      assert ([ls.rest[0]] + w)[1..] == w;
    }
  }

  /** The visits are made in the order of the queue. */
  lemma {:induction false} VisitsInOrder(ls: Lists, script: map<Link, seq<Op>>, y: Link, x: Link)
    requires Precedes(Visits(ls, script), y, x)
    ensures Precedes(ls.rest, y, x)
    decreases |ls.rest|
  {
    if ls.rest != [] {
      var next := Turn(ls, script);
      TurnRest(ls, script);
      VisitsStep(ls, script);
      VisitsIn(next, script);
      var w := Visits(next, script);
      assert ([ls.rest[0]] + w)[1..] == w;
      if Precedes(w, y, x) {
        VisitsInOrder(next, script, y, x);
        PairsAreMembers(next.rest);
        KeepOrder(ls.rest[1..], TurnOps(ls, script), y, x);
      }
    }
  }

  /** No visit to a handle in front of `x` in the queue drops `x`. */
  predicate Spared(v: seq<Link>, order: seq<Link>, script: map<Link, seq<Op>>, x: Link) {
    forall y :: y in v && Precedes(order, y, x) ==> Drop(x) !in Ops(script, y)
  }

  /** Whether `x`, neither first nor dropped by the first, is spared, the rest of the walk decides. */
  lemma SparedLater(order: seq<Link>, ops: seq<Op>, v: seq<Link>, w: seq<Link>, script: map<Link, seq<Op>>, x: Link)
    requires order != [] && x in Keep(order[1..], ops) && order[0] !in w
    requires forall y :: y in w ==> y in Keep(order[1..], ops)
    requires v == w || (v == [order[0]] + w && ops == Ops(script, order[0]))
    ensures Spared(v, order, script, x) <==> Spared(w, Keep(order[1..], ops), script, x)
  {
    var keep := Keep(order[1..], ops);
    KeepIn(order[1..], ops);
    forall y | y in w ensures Precedes(keep, y, x) <==> Precedes(order, y, x) {
      KeepOrder(order[1..], ops, y, x);
    }
    assert forall y :: y in v ==> y in w || y == order[0];
    assert forall y :: y in w ==> y in v;
  }

  /** Nothing comes before the first. */
  lemma SparedFirst(order: seq<Link>, v: seq<Link>, script: map<Link, seq<Op>>)
    requires order != [] && NoRepeats(order)
    ensures Spared(v, order, script, order[0])
  {
    HeadAlone(order);
    PairsAreMembers(order[1..]);
  }

  /**
   * A public handle registered at the start is visited exactly unless a visit that came before it took it
   * off the queue. What visitors add, drop and add again makes no difference.
   */
  lemma {:induction false} VisitedUnlessDropped(ls: Lists, script: map<Link, seq<Op>>, x: Link)
    requires NoRepeats(ls.rest) && x in ls.rest && !x.internal
    ensures x in Visits(ls, script) <==> Spared(Visits(ls, script), ls.rest, script, x)
    decreases |ls.rest|
  {
    var x0, v := ls.rest[0], Visits(ls, script);
    var next, ops := Turn(ls, script), TurnOps(ls, script);
    var w := Visits(next, script);
    TurnRest(ls, script);
    VisitsStep(ls, script);
    VisitsIn(next, script);
    HeadAlone(ls.rest);
    if x == x0 {
      SparedFirst(ls.rest, v, script);
    } else if Drop(x) in ops {
      assert x !in w && x0 in v && Precedes(ls.rest, x0, x);
    } else {
      KeepNoRepeats(ls.rest[1..], ops);
      VisitedUnlessDropped(next, script, x);
      SparedLater(ls.rest, ops, v, w, script, x);
    }
  }

  /** A walk whose visitor leaves the queue alone visits every public handle and leaves the queue as it was. */
  lemma {:induction false} IdleWalk(ls: Lists)
    ensures Left(ls, map[]) == ls.main + ls.rest
    ensures forall x :: x in Visits(ls, map[]) <==> x in ls.rest && !x.internal
    decreases |ls.rest|
  {
    if ls.rest != [] {
      IdleWalk(Moved(ls));
      assert Turn(ls, map[]) == Moved(ls);
      assert ls.main + [ls.rest[0]] + ls.rest[1..] == ls.main + ls.rest;
      assert ls.rest == [ls.rest[0]] + ls.rest[1..];
    } else {
      assert ls.main + ls.rest == ls.main;
    }
  }

  // ---- What the walk leaves behind ------------------------------------------------------------------

  /** All handles, in the order in which they would stand if the rest were put back. */
  function All(ls: Lists): seq<Link> { ls.main + ls.rest }

  /** No visit takes `y` off the queue. */
  predicate Kept(script: map<Link, seq<Op>>, y: Link) { forall v :: v in script ==> Drop(y) !in script[v] }

  /** `y` is back in the queue, and `x` comes after it, if `x` is there at all. */
  predicate Ahead(ls: Lists, y: Link, x: Link) { y in ls.main && (x in All(ls) ==> Precedes(All(ls), y, x)) }

  lemma {:induction false} PrecedesInsert(s: seq<Link>, n: Link, t: seq<Link>, y: Link, x: Link)
    requires y in s && (x in s + t ==> Precedes(s + t, y, x)) && x in s + [n] + t
    ensures Precedes(s + [n] + t, y, x)
    decreases |s|
  {
    assert (s + t)[1..] == s[1..] + t && (s + [n] + t)[1..] == s[1..] + [n] + t;
    assert s == [s[0]] + s[1..];
    assert x in s[1..] + [n] + t <==> x == n || x in s[1..] + t;
    PairsAreMembers(s[1..] + t);
    if s[0] == y && x in s[1..] + [n] + t {
    } else if x in s + t {
      PrecedesDeep(s, n, t, y, x);
    } else {
      PrecedesInsert(s[1..], n, t, y, x);
    }
  }

  lemma {:induction false} PrecedesDeep(s: seq<Link>, n: Link, t: seq<Link>, y: Link, x: Link)
    requires Precedes(s + t, y, x)
    ensures Precedes(s + [n] + t, y, x)
    decreases |s|
  {
    if s == [] {
      assert s + t == t && (s + [n] + t)[1..] == t;
    } else {
      assert (s + t)[1..] == s[1..] + t && (s + [n] + t)[1..] == s[1..] + [n] + t;
      if Precedes(s[1..] + t, y, x) { PrecedesDeep(s[1..], n, t, y, x); }
    }
  }

  lemma EffectKeepsAhead(o: Op, ls: Lists, y: Link, x: Link)
    requires Ahead(ls, y, x) && o != Drop(y)
    ensures Ahead(Effect(o, ls), y, x)
  {
    match o
    case Append(n) => if x in All(Effect(o, ls)) { PrecedesInsert(ls.main, n, ls.rest, y, x); }
    case Drop(n) =>
      WithoutIn(ls.main, n);
      WithoutConcat(ls.main, ls.rest, n);
      WithoutIn(All(ls), n);
      if x != n && x in All(ls) { PrecedesWithout(All(ls), n, y, x); }
  }

  lemma {:induction false} OpsKeepAhead(ops: seq<Op>, ls: Lists, y: Link, x: Link)
    requires Ahead(ls, y, x) && Drop(y) !in ops
    ensures Ahead(RunOps(ops, ls), y, x)
    decreases |ops|
  {
    if ops != [] {
      EffectKeepsAhead(ops[0], ls, y, x);
      OpsKeepAhead(ops[1..], Effect(ops[0], ls), y, x);
    }
  }

  /**
   * A handle that is back in the queue and that no visit takes off is there when the walk is over, in front of
   * all that stood behind it and of all that is registered later.
   */
  lemma {:induction false} StaysAhead(ls: Lists, script: map<Link, seq<Op>>, y: Link, x: Link)
    requires Ahead(ls, y, x) && Kept(script, y)
    ensures y in Left(ls, script) && (x in Left(ls, script) ==> Precedes(Left(ls, script), y, x))
    decreases |ls.rest|
  {
    if ls.rest == [] {
      assert All(ls) == ls.main;
    } else {
      assert All(Moved(ls)) == All(ls);
      OpsKeepAhead(TurnOps(ls, script), Moved(ls), y, x);
      TurnRest(ls, script);
      StaysAhead(Turn(ls, script), script, y, x);
    }
  }

  /** Some visit registers `x`, or takes it off. */
  predicate Does(visits: seq<Link>, script: map<Link, seq<Op>>, o: Op) {
    exists v :: v in visits && v in script && o in script[v]
  }

  lemma EffectMembers(o: Op, ls: Lists, x: Link)
    ensures x in All(Effect(o, ls)) <==> o == Append(x) || (x in All(ls) && o != Drop(x))
  {
    match o
    case Append(n) =>
    case Drop(n) =>
      WithoutIn(ls.main, n);
      WithoutIn(ls.rest, n);
  }

  lemma {:induction false} OpsMembers(ops: seq<Op>, ls: Lists, x: Link)
    ensures Drop(x) !in ops ==> (x in All(RunOps(ops, ls)) <==> x in All(ls) || Append(x) in ops)
    ensures Append(x) !in ops ==> (x in All(RunOps(ops, ls)) <==> x in All(ls) && Drop(x) !in ops)
    decreases |ops|
  {
    if ops != [] {
      EffectMembers(ops[0], ls, x);
      OpsMembers(ops[1..], Effect(ops[0], ls), x);
      assert ops == [ops[0]] + ops[1..];
    }
  }

  lemma TurnDoes(ls: Lists, script: map<Link, seq<Op>>, o: Op)
    requires ls.rest != []
    ensures Does(Visits(ls, script), script, o) <==>
      o in TurnOps(ls, script) || Does(Visits(Turn(ls, script), script), script, o)
  {
    var x0, w := ls.rest[0], Visits(Turn(ls, script), script);
    VisitsStep(ls, script);
    assert forall v :: v in Visits(ls, script) <==> v in w || (v == x0 && !x0.internal);
  }

  /**
   * Who is in the queue when the walk is over. A handle that no visitor would take off is there if and only if it
   * was there before or some visit registered it; one that no visitor would register, if and only if it was there
   * before and no visit took it off.
   */
  lemma {:induction false} LeftExactly(ls: Lists, script: map<Link, seq<Op>>, x: Link)
    ensures Kept(script, x) ==>
      (x in Left(ls, script) <==> x in All(ls) || Does(Visits(ls, script), script, Append(x)))
    ensures (forall v :: v in script ==> Append(x) !in script[v]) ==>
      (x in Left(ls, script) <==> x in All(ls) && !Does(Visits(ls, script), script, Drop(x)))
    decreases |ls.rest|
  {
    if ls.rest == [] {
      assert All(ls) == ls.main;
    } else {
      assert All(Moved(ls)) == All(ls);
      OpsMembers(TurnOps(ls, script), Moved(ls), x);
      TurnRest(ls, script);
      TurnDoes(ls, script, Append(x));
      TurnDoes(ls, script, Drop(x));
      LeftExactly(Turn(ls, script), script, x);
    }
  }

  // ---- The walk itself ------------------------------------------------------------------------------

  /** The loop's queue and the local one, sharing no link; every member is one of `all`. */
  ghost predicate Both(h: Link, aside: Link, ls: Lists, all: set<Link>)
    reads h, aside, ls.main, ls.rest
  {
    && Ring(h, ls.main) && Ring(aside, ls.rest)
    && h != aside && h !in all && aside !in all
    && Apart(ls.main, ls.rest)
    && (forall i :: 0 <= i < |ls.main| ==> ls.main[i] in all)
    && (forall i :: 0 <= i < |ls.rest| ==> ls.rest[i] in all)
  }

  /** Split a queue around one of its members. */
  lemma Locate(h: Link, m: seq<Link>, n: Link) returns (s: seq<Link>, t: seq<Link>)
    requires n in m && NoRepeats([h] + m)
    ensures m == s + [n] + t && Without(m, n) == s + t
  {
    var i :| 0 <= i < |m| && m[i] == n;
    s, t := m[..i], m[i + 1..];
    assert m == s + [n] + t;
    Around(h, s, n, t);
    WithoutBetween(s, n, t);
  }

  /** A new handle joins the loop's queue. */
  method Register(h: Link, n: Link, ghost aside: Link, ghost ls: Lists, ghost all: set<Link>)
    requires Both(h, aside, ls, all) && n in all && Legal(Append(n), ls)
    modifies h, all
    ensures Both(h, aside, Effect(Append(n), ls), all)
  {
    assert allocated(ls.main) && allocated(ls.rest);
    InsertTail(h, n, ls.main);
  }

  lemma Fewer(s: seq<Link>, n: Link, t: seq<Link>, other: seq<Link>, all: set<Link>)
    requires Apart(s + [n] + t, other)
    requires forall i :: 0 <= i < |s + [n] + t| ==> (s + [n] + t)[i] in all
    ensures Apart(s + t, other) && Apart(s, other) && Apart(t, other) && n in all
    ensures forall i :: 0 <= i < |s + t| ==> (s + t)[i] in all
    ensures forall i :: 0 <= i < |other| ==> other[i] != n
  {
    var c, d := s + [n] + t, s + t;
    assert c[|s|] == n;
    assert forall i :: 0 <= i < |s| ==> s[i] == c[i] == d[i];
    assert forall i :: 0 <= i < |t| ==> t[i] == c[|s| + 1 + i] == d[|s| + i];
    forall i | 0 <= i < |d| ensures d[i] in all && forall j :: 0 <= j < |other| ==> d[i] != other[j] {
      if i < |s| { assert d[i] == c[i]; } else { assert d[i] == c[i + 1]; }
    }
  }

  /** A handle finishes closing. It is taken off without knowing which queue it is in. */
  method Unregister(n: Link, ghost h: Link, ghost aside: Link, ghost ls: Lists, ghost all: set<Link>)
    requires Both(h, aside, ls, all) && Legal(Drop(n), ls)
    modifies h, aside, all
    ensures Both(h, aside, Effect(Drop(n), ls), all)
  {
    ghost var inMain := n in ls.main;
    ghost var s, t;
    if inMain {
      s, t := Locate(h, ls.main, n);
      WithoutAbsent(ls.rest, n);
      Fewer(s, n, t, ls.rest, all);
    } else {
      s, t := Locate(aside, ls.rest, n);
      WithoutAbsent(ls.main, n);
    }
    TakeOut(n, h, aside, inMain, s, t, ls, all);
  }

  method TakeOut(n: Link, ghost h: Link, ghost aside: Link, ghost inMain: bool, ghost s: seq<Link>, ghost t: seq<Link>,
                 ghost ls: Lists, ghost all: set<Link>)
    requires Both(h, aside, ls, all)
    requires s + [n] + t == if inMain then ls.main else ls.rest
    modifies h, aside, all
    ensures Both(h, aside, if inMain then ls.(main := s + t) else ls.(rest := s + t), all)
  {
    Fewer(s, n, t, if inMain then ls.rest else ls.main, all);
    assert forall i :: 0 <= i < |s| ==> (s + [n] + t)[i] == s[i];
    assert forall i :: 0 <= i < |t| ==> (s + [n] + t)[|s| + 1 + i] == t[i];
    Remove(n, if inMain then h else aside, s, t);
  }

  /** A visitor at work. */
  method Visit(ops: seq<Op>, h: Link, ghost aside: Link, ghost ls: Lists, ghost all: set<Link>)
    requires Both(h, aside, ls, all) && LegalOps(ops, ls)
    requires forall o :: o in ops ==> o.n in all
    modifies h, aside, all
    ensures Both(h, aside, RunOps(ops, ls), all)
  {
    ghost var now := ls;
    for k := 0 to |ops|
      invariant Both(h, aside, now, all) && LegalOps(ops[k..], now)
      invariant RunOps(ops[k..], now) == RunOps(ops, ls)
    {
      var o := ops[k];
      assert ops[k..][1..] == ops[k + 1..];
      match o {
        case Append(n) => Register(h, n, aside, now, all);
        case Drop(n) => Unregister(n, h, aside, now, all);
      }
      now := Effect(o, now);
    }
  }

  lemma OneTurn(ls: Lists, script: map<Link, seq<Op>>)
    requires ls.rest != [] && LegalWalk(ls, script)
    ensures ls.rest[0].internal || LegalOps(Ops(script, ls.rest[0]), Moved(ls))
    ensures LegalWalk(Turn(ls, script), script) && |Turn(ls, script).rest| < |ls.rest|
    ensures Visits(ls, script) == (if ls.rest[0].internal then [] else [ls.rest[0]]) + Visits(Turn(ls, script), script)
    ensures Left(ls, script) == Left(Turn(ls, script), script)
  {
    RestShrinks(Ops(script, ls.rest[0]), Moved(ls));
  }

  /** Between rounds nothing is lost of what the whole walk is to visit. */
  predicate OnTrack(ls: Lists, visited: seq<Link>, script: map<Link, seq<Op>>, start: Lists) {
    && LegalWalk(ls, script)
    && visited + Visits(ls, script) == Visits(start, script)
    && Left(ls, script) == Left(start, script)
  }

  lemma StaysOnTrack(ls: Lists, visited: seq<Link>, more: seq<Link>, script: map<Link, seq<Op>>, start: Lists)
    requires OnTrack(ls, visited, script, start) && ls.rest != []
    requires more == if ls.rest[0].internal then [] else [ls.rest[0]]
    ensures OnTrack(Turn(ls, script), visited + more, script, start)
  {
    OneTurn(ls, script);
    var v := Visits(Turn(ls, script), script);
    assert visited + more + v == visited + (more + v);
  }

  /** One round of the loop: the first handle set aside is put back and, if it is public, visited. */
  method Round(h: Link, aside: Link, script: map<Link, seq<Op>>, visited: seq<Link>,
               ghost ls: Lists, ghost all: set<Link>, ghost start: Lists)
    returns (more: seq<Link>, ghost next: Lists)
    requires Both(h, aside, ls, all) && OnTrack(ls, visited, script, start) && ls.rest != []
    requires forall x, o :: x in script && o in script[x] ==> o.n in all
    modifies h, aside, all
    ensures Both(h, aside, next, all) && OnTrack(next, more, script, start) && |next.rest| < |ls.rest|
  {
    var q := Head(aside, ls.rest);
    OneTurn(ls, script);
    next := Turn(ls, script);
    StaysOnTrack(ls, visited, if q.internal then [] else [q], script, start);
    PutBack(h, aside, q, ls, all);
    if q.internal { return visited + [], next; }
    Visit(Ops(script, q), h, aside, Moved(ls), all);
    more := visited + [q];
  }

  /**
   * `uv_walk` on the handle queue `h`, with a visitor that does to the queue what `script` says for the
   * handle it is called with.
   */
  method UvWalk(h: Link, script: map<Link, seq<Op>>, ghost s: seq<Link>, ghost all: set<Link>)
    returns (visited: seq<Link>)
    requires Ring(h, s) && h !in all
    requires forall i :: 0 <= i < |s| ==> s[i] in all
    requires forall x, o :: x in script && o in script[x] ==> o.n in all
    requires LegalWalk(Lists([], s), script)
    modifies h, all
    ensures visited == Visits(Lists([], s), script)
    ensures NoRepeats(visited) && forall x :: x in visited ==> x in s && !x.internal
    ensures Ring(h, Left(Lists([], s), script))
  {
    var aside := new Link(false);
    Move(h, aside, s);
    visited := WalkAside(h, aside, script, Lists([], s), all);
    RingOnce(h, s, Lists([], s), script);
  }

  lemma RingOnce(h: Link, s: seq<Link>, ls: Lists, script: map<Link, seq<Op>>)
    requires NoRepeats([h] + s) && ls.rest == s
    ensures NoRepeats(Visits(ls, script)) && forall x :: x in Visits(ls, script) ==> x in s && !x.internal
  {
    Parts([h], s);
    VisitsOnce(ls, script);
    VisitsIn(ls, script);
  }

  /** The loop of `uv_walk`. */
  method WalkAside(h: Link, aside: Link, script: map<Link, seq<Op>>, ghost start: Lists, ghost all: set<Link>)
    returns (visited: seq<Link>)
    requires Both(h, aside, start, all) && LegalWalk(start, script)
    requires forall x, o :: x in script && o in script[x] ==> o.n in all
    modifies h, aside, all
    ensures visited == Visits(start, script)
    ensures Ring(h, Left(start, script))
  {
    visited := [];
    ghost var ls := start;
    var empty := Empty(aside, ls.rest);
    while !empty
      invariant Both(h, aside, ls, all) && OnTrack(ls, visited, script, start)
      invariant empty == (ls.rest == [])
      decreases |ls.rest|
    {
      visited, ls := Round(h, aside, script, visited, ls, all, start);
      empty := Empty(aside, ls.rest);
    }
  }

  /** Take the first handle off the local queue and append it to the loop's. */
  method PutBack(h: Link, aside: Link, q: Link, ghost ls: Lists, ghost all: set<Link>)
    requires Both(h, aside, ls, all) && ls.rest != [] && q == ls.rest[0]
    modifies h, aside, all
    ensures Both(h, aside, Moved(ls), all)
  {
    ghost var tail := ls.rest[1..];
    assert ls.rest == [] + [q] + tail && [] + tail == tail;
    Around(aside, [], q, tail);
    Fewer([], q, tail, ls.main, all);
    TakeOut(q, h, aside, false, [], tail, ls, all);
    Register(h, q, aside, ls.(rest := tail), all);
  }

  lemma Step(h: Link, s: seq<Link>, i: nat)
    requires Ring(h, s) && i < |s|
    ensures s[i] != h && First(s[i..], h) == s[i] && s[i].next == First(s[i + 1..], h)
    ensures s[..i + 1] == s[..i] + [s[i]]
  {
    assert s == s[..i] + [s[i]] + s[i + 1..];
    Around(h, s[..i], s[i], s[i + 1..]);
    ChainSplit(h, s[..i], s[i], s[i + 1..], h);
    ChainEnds(s[i], s[i + 1..], h);
  }

  /** `uv_loop_close`, apart from tearing the loop down: it is busy while a request or a public handle remains. */
  method LoopIsBusy(h: Link, hasRequests: bool, ghost s: seq<Link>) returns (busy: bool)
    requires Ring(h, s)
    ensures busy <==> hasRequests || exists x :: x in s && !x.internal
  {
    if hasRequests { return true; }
    ChainEnds(h, s, h);
    var q := h.next;
    ghost var i := 0;
    while q != h
      invariant 0 <= i <= |s| && q == First(s[i..], h)
      invariant forall x :: x in s[..i] ==> x.internal
      decreases |s| - i
    {
      Step(h, s, i);
      if !q.internal { return true; }
      q := q.next;
      i := i + 1;
    }
    assert s[..i] == s by { if i < |s| { Step(h, s, i); } }
    return false;
  }
}
