/**
 * The intrusive queue: a circular doubly linked list through a head link. Each macro is a method proved
 * to do to the chain of links what its name says to the sequence of members.
 */
module Queue {
  import opened Sequences

  /** `internal` is the flag of the handle the link is embedded in. */
  class Link {
    var next: Link?
    var prev: Link?
    const internal: bool

    constructor (hidden: bool)
      ensures internal == hidden && next == null && prev == null
    {
      internal, next, prev := hidden, null, null;
    }
  }

  /** The members of a queue around one of them are different from it, from each other and from the head. */
  lemma Around(h: Link, s: seq<Link>, q: Link, t: seq<Link>)
    requires NoRepeats([h] + (s + [q] + t))
    ensures h !in s && h !in t && q !in s && q !in t && q != h
    ensures Apart(s, t) && NoRepeats(s) && NoRepeats(t) && NoRepeats([h] + (s + t))
    ensures NoRepeats([h] + s) && NoRepeats([h] + t) && NoRepeats([q] + t)
  {
    assert s + [q] + t == s + ([q] + t);
    Parts([h], s + ([q] + t));
    Parts(s, [q] + t);
    Parts([q], t);
    ApartParts(s, [q], t);
    ApartParts([h], s, [q] + t);
    ApartParts([h], [q], t);
    ApartParts([h], s, t);
    OneApart(h, s);
    OneApart(h, t);
    OneApart(h, [q]);
    OneApart(q, s);
    OneApart(q, t);
    Parts(s, t);
    Parts([h], s + t);
    Parts([h], s);
    Parts([h], t);
  }

  /** From `a` to `b` the links run through exactly `s`, and back. */
  ghost predicate Chain(a: Link, s: seq<Link>, b: Link)
    reads a`next, s`next, s`prev, b`prev
    decreases |s|
  {
    if s == [] then a.next == b && b.prev == a
    else a.next == s[0] && s[0].prev == a && Chain(s[0], s[1..], b)
  }

  /** `h` is the head of a queue with the members `s`. */
  ghost predicate Ring(h: Link, s: seq<Link>)
    reads h`next, h`prev, s`next, s`prev
  {
    Chain(h, s, h) && NoRepeats([h] + s)
  }

  function Last(a: Link, s: seq<Link>): Link { if s == [] then a else s[|s| - 1] }

  function First(s: seq<Link>, b: Link): Link { if s == [] then b else s[0] }

  lemma {:induction false} ChainJoin(a: Link, s: seq<Link>, x: Link, t: seq<Link>, b: Link)
    requires Chain(a, s, x) && Chain(x, t, b)
    ensures Chain(a, s + [x] + t, b)
    decreases |s|
  {
    var c := s + [x] + t;
    if s == [] {
      assert c[1..] == t;
    } else {
      ChainJoin(s[0], s[1..], x, t, b);
      assert c[1..] == s[1..] + [x] + t;
    }
  }

  lemma {:induction false} ChainSplit(a: Link, s: seq<Link>, x: Link, t: seq<Link>, b: Link)
    requires Chain(a, s + [x] + t, b)
    ensures Chain(a, s, x) && Chain(x, t, b)
    decreases |s|
  {
    var c := s + [x] + t;
    if s == [] {
      assert c[1..] == t;
    } else {
      assert c[1..] == s[1..] + [x] + t;
      ChainSplit(s[0], s[1..], x, t, b);
    }
  }

  lemma {:induction false} ChainEnds(a: Link, s: seq<Link>, b: Link)
    requires Chain(a, s, b)
    ensures a.next == First(s, b) && b.prev == Last(a, s)
    decreases |s|
  {
    if s != [] { ChainEnds(s[0], s[1..], b); }
  }

  /** `s` is strung after `a`, whatever its last link points to; `t` is strung before `b`. */
  ghost predicate After(a: Link, s: seq<Link>)
    reads a`next, s`next, s`prev
  {
    s == [] || Chain(a, s[..|s| - 1], s[|s| - 1])
  }

  ghost predicate Before(t: seq<Link>, b: Link)
    reads t`next, t`prev, b`prev
  {
    t == [] || Chain(t[0], t[1..], b)
  }

  /** A chain is two strands and one link between them. */
  lemma Stitch(a: Link, s: seq<Link>, t: seq<Link>, b: Link)
    requires After(a, s) && Before(t, b)
    requires Last(a, s).next == First(t, b) && First(t, b).prev == Last(a, s)
    ensures Chain(a, s + t, b)
  {
    var x := Last(a, s);
    assert Chain(x, t, b);
    if s == [] {
      assert s + t == t;
    } else {
      ChainJoin(a, s[..|s| - 1], x, t, b);
      assert s[..|s| - 1] + [x] + t == s + t;
    }
  }

  lemma Unstitch(a: Link, s: seq<Link>, t: seq<Link>, b: Link)
    requires Chain(a, s + t, b)
    ensures After(a, s) && Before(t, b)
    ensures Last(a, s).next == First(t, b) && First(t, b).prev == Last(a, s)
  {
    var x := Last(a, s);
    if s == [] {
      assert s + t == t;
    } else {
      assert s[..|s| - 1] + [x] + t == s + t;
      ChainSplit(a, s[..|s| - 1], x, t, b);
    }
    assert Chain(x, t, b);
  }

  method Init(q: Link)
    modifies q`next, q`prev
    ensures Ring(q, [])
  {
    q.next := q;
    q.prev := q;
    assert NoRepeats([q] + []);
  }

  method Empty(h: Link, ghost s: seq<Link>) returns (empty: bool)
    requires Ring(h, s)
    ensures empty == (s == [])
  {
    ChainEnds(h, s, h);
    if s != [] {
      Around(h, [], s[0], s[1..]) by { assert [] + [s[0]] + s[1..] == s; }
    }
    empty := h == h.next;
  }

  method Head(h: Link, ghost s: seq<Link>) returns (q: Link)
    requires Ring(h, s) && s != []
    ensures q == s[0]
  {
    q := h.next;
  }

  method InsertTail(h: Link, q: Link, ghost s: seq<Link>)
    requires Ring(h, s) && q !in [h] + s
    modifies q`next, q`prev, h`next, h`prev, s`next
    ensures Ring(h, s + [q])
  {
    assert s + [] == s && s + [q] + [] == s + [q];
    Joining(h, s, q, []);
    Unstitch(h, s, [], h);
    q.next := h;
    q.prev := h.prev;
    h.prev.next := q;
    h.prev := q;
    Stitch(h, s, [q], h);
  }

  method InsertHead(h: Link, q: Link, ghost s: seq<Link>)
    requires Ring(h, s) && q !in [h] + s
    modifies q`next, q`prev, h`next, h`prev, s`prev
    ensures Ring(h, [q] + s)
  {
    assert [] + s == s && [] + [q] + s == [q] + s;
    Joining(h, [], q, s);
    Unstitch(h, [], s, h);
    q.next := h.next;
    q.prev := h;
    q.next.prev := q;
    h.next := q;
    Stitch(h, [q], s, h);
  }

  /** What the two writes of a removal must not mix up. */
  predicate Flanks(h: Link, s: seq<Link>, q: Link, t: seq<Link>) {
    && h != q && h !in s && q !in s && h !in t && q !in t
    && (forall x :: x in s ==> x !in t)
    && (s != [] ==> s[|s| - 1] !in s[..|s| - 1])
    && (t != [] ==> t[0] !in t[1..])
  }

  lemma FlankParts(h: Link, s: seq<Link>, q: Link, t: seq<Link>)
    requires NoRepeats([h] + (s + [q] + t))
    ensures Flanks(h, s, q, t) && NoRepeats([h] + (s + t))
  {
    Around(h, s, q, t);
    if s != [] { LastOnce(s); }
    if t != [] { HeadAlone(t); }
  }

  lemma FlankChain(h: Link, s: seq<Link>, q: Link, t: seq<Link>)
    requires Chain(h, s + [q] + t, h)
    ensures After(h, s) && Before(t, h) && q.prev == Last(h, s) && q.next == First(t, h)
  {
    ChainSplit(h, s, q, t, h);
    assert s + [] == s && [] + t == t;
    Unstitch(h, s, [], q);
    Unstitch(q, [], t, h);
  }

  method RemoveLinks(q: Link, ghost h: Link, ghost s: seq<Link>, ghost t: seq<Link>)
    requires Flanks(h, s, q, t) && After(h, s) && Before(t, h)
    requires q.prev == Last(h, s) && q.next == First(t, h)
    modifies h`next, h`prev, s`next, t`prev
    ensures After(h, s) && Before(t, h)
    ensures Last(h, s).next == First(t, h) && First(t, h).prev == Last(h, s)
    ensures q.next == old(q.next) && q.prev == old(q.prev)
  {
    ghost var x, y := Last(h, s), First(t, h);
    assert (s != [] ==> x in s) && (t != [] ==> y in t);
    q.prev.next := q.next;
    q.next.prev := q.prev;
    if s != [] {
      ghost var s0 := s[..|s| - 1];
      assert forall z :: z in s0 ==> z in s;
      assert Chain(h, s0, x);
    }
    if t != [] {
      ghost var u := t[1..];
      assert forall z :: z in u ==> z in t;
      assert Chain(y, u, h);
    }
  }

  /** A link can be taken out without knowing which queue it is in. */
  method Remove(q: Link, ghost h: Link, ghost s: seq<Link>, ghost t: seq<Link>)
    requires Ring(h, s + [q] + t)
    modifies h`next, h`prev, s`next, t`prev
    ensures Ring(h, s + t) && q.next == old(q.next) && q.prev == old(q.prev)
  {
    FlankParts(h, s, q, t);
    FlankChain(h, s, q, t);
    RemoveLinks(q, h, s, t);
    Stitch(h, s, t, h);
  }

  /** No two of these meet, and the last of `s` comes only once: what the writes of a split must not mix up. */
  predicate Unmixed(h: Link, s: seq<Link>, q: Link, t: seq<Link>, n: Link) {
    && h != n && q != h && q != n
    && h !in s && q !in s && n !in s && h !in t && q !in t && n !in t
    && (forall x :: x in s ==> x !in t)
    && (s != [] ==> s[|s| - 1] !in s[..|s| - 1])
    && (t != [] ==> t[|t| - 1] !in t[..|t| - 1])
  }

  method SplitLinks(h: Link, q: Link, n: Link, ghost s: seq<Link>, ghost t: seq<Link>)
    requires Unmixed(h, s, q, t, n) && After(h, s) && After(q, t)
    requires h.prev == Last(q, t) && q.prev == Last(h, s)
    modifies h`next, h`prev, n`next, n`prev, s`next, q`prev, q`next, t`next
    ensures After(h, s) && After(q, t)
    ensures Last(h, s).next == h && h.prev == Last(h, s)
    ensures n.next == q && q.prev == n && Last(q, t).next == n && n.prev == Last(q, t)
  {
    ghost var x, y := Last(h, s), Last(q, t);
    assert (s != [] ==> x in s) && (t != [] ==> y in t);
    assert x != y && x != n && y != n;
    n.prev := h.prev;
    n.prev.next := n;
    n.next := q;
    h.prev := q.prev;
    h.prev.next := h;
    q.prev := n;
    if s != [] {
      ghost var s0 := s[..|s| - 1];
      assert forall z :: z in s0 ==> z in s;
      assert Chain(h, s0, x);
    }
    if t != [] {
      ghost var t0 := t[..|t| - 1];
      assert forall z :: z in t0 ==> z in t;
      assert Chain(q, t0, y);
    }
  }

  lemma UnmixedParts(h: Link, s: seq<Link>, q: Link, t: seq<Link>, n: Link)
    requires NoRepeats([h] + (s + [q] + t)) && n !in [h] + (s + [q] + t)
    ensures Unmixed(h, s, q, t, n) && NoRepeats([h] + s) && NoRepeats([n] + ([q] + t))
  {
    Around(h, s, q, t);
    var c := [h] + (s + [q] + t);
    assert c[0] == h && c[1 + |s|] == q;
    assert forall j :: 0 <= j < |s| ==> c[1 + j] == s[j];
    assert forall j :: 0 <= j < |t| ==> c[2 + |s| + j] == t[j];
    Parts([n], [q] + t);
  }

  /** From `q` on, the members of `h` move to the queue of `n`. */
  method Split(h: Link, q: Link, n: Link, ghost s: seq<Link>, ghost t: seq<Link>)
    requires Ring(h, s + [q] + t) && n !in [h] + (s + [q] + t)
    modifies h`next, h`prev, n`next, n`prev, s`next, q`prev, q`next, t`next
    ensures Ring(h, s) && Ring(n, [q] + t)
  {
    UnmixedParts(h, s, q, t, n);
    SplitChain(h, q, s, t);
    SplitLinks(h, q, n, s, t);
    JoinHalves(h, q, n, s, t);
  }

  lemma SplitChain(h: Link, q: Link, s: seq<Link>, t: seq<Link>)
    requires Chain(h, s + [q] + t, h)
    ensures After(h, s) && After(q, t) && h.prev == Last(q, t) && q.prev == Last(h, s)
  {
    ChainSplit(h, s, q, t, h);
    assert s + [] == s && t + [] == t;
    Unstitch(h, s, [], q);
    Unstitch(q, t, [], h);
  }

  lemma JoinHalves(h: Link, q: Link, n: Link, s: seq<Link>, t: seq<Link>)
    requires After(h, s) && After(q, t)
    requires Last(h, s).next == h && h.prev == Last(h, s)
    requires n.next == q && q.prev == n && Last(q, t).next == n && n.prev == Last(q, t)
    ensures Chain(h, s, h) && Chain(n, [q] + t, n)
  {
    assert s + [] == s && t + [] == t;
    Stitch(h, s, [], h);
    Stitch(q, t, [], n);
    assert ([q] + t)[1..] == t;
  }

  /** Everything moves to the queue of `n`, in order, and `h` is left empty. */
  method Move(h: Link, n: Link, ghost s: seq<Link>)
    requires Ring(h, s) && n !in [h] + s
    modifies h`next, h`prev, n`next, n`prev, s`next, s`prev
    ensures Ring(h, []) && Ring(n, s)
  {
    var empty := Empty(h, s);
    if empty {
      Init(n);
    } else {
      var q := Head(h, s);
      assert [] + [q] + s[1..] == s && [q] + s[1..] == s;
      Split(h, q, n, [], s[1..]);
    }
  }

  /** Nothing in the two queues is written twice by `Add`. */
  predicate Separate(h: Link, s: seq<Link>, n: Link, t: seq<Link>) {
    && h != n && h !in s && h !in t && n !in s && n !in t
    && (forall x :: x in s ==> x !in t)
    && (s != [] ==> s[|s| - 1] !in s[..|s| - 1])
    && (t != [] ==> t[0] !in t[1..])
    && (|t| > 1 ==> t[|t| - 1] !in t[1..][..|t| - 2])
  }

  method AddLinks(h: Link, n: Link, ghost s: seq<Link>, ghost t: seq<Link>)
    requires Separate(h, s, n, t) && After(h, s) && Before(t, n)
    requires h.prev == Last(h, s) && n.prev == Last(n, t) && n.next == First(t, n)
    modifies h`next, h`prev, n`prev, s`next, t`prev, t`next
    ensures After(h, s) && Before(t, h)
    ensures Last(h, s).next == First(t, h) && First(t, h).prev == Last(h, s)
  {
    ghost var x, y := Last(h, s), Last(n, t);
    assert (s != [] ==> x in s) && (t != [] ==> y in t && t[0] in t);
    if t != [] { LastStrand(t, n); }
    h.prev.next := n.next;
    n.next.prev := h.prev;
    h.prev := n.prev;
    h.prev.next := h;
    if s != [] {
      ghost var s0 := s[..|s| - 1];
      assert forall z :: z in s0 ==> z in s;
      assert Chain(h, s0, x);
    }
    if t != [] {
      ghost var u := t[1..];
      assert forall z :: z in u ==> z in t;
      if u != [] {
        ghost var u0 := u[..|u| - 1];
        assert y == u[|u| - 1] && y in u;
        assert forall z :: z in u0 ==> z in u;
        assert Chain(t[0], u0, y);
      }
      NextStrand(t, h);
    }
  }

  lemma LastStrand(t: seq<Link>, b: Link)
    requires t != [] && Before(t, b)
    ensures After(t[0], t[1..]) && Last(t[0], t[1..]) == t[|t| - 1]
  {
    assert t[1..] + [] == t[1..];
    Unstitch(t[0], t[1..], [], b);
  }

  lemma NextStrand(t: seq<Link>, b: Link)
    requires t != [] && After(t[0], t[1..]) && Last(t[0], t[1..]).next == b && b.prev == Last(t[0], t[1..])
    ensures Before(t, b)
  {
    assert t[1..] + [] == t[1..];
    Stitch(t[0], t[1..], [], b);
  }

  /** The members of `n` follow those of `h`. The head `n` is left as it was or dangling. */
  method Add(h: Link, n: Link, ghost s: seq<Link>, ghost t: seq<Link>)
    requires Ring(h, s) && Ring(n, t) && Apart([h] + s, [n] + t)
    modifies h`next, h`prev, n`prev, s`next, t`prev, t`next
    ensures Ring(h, s + t)
  {
    AddDistinct(h, n, s, t);
    EndsOf(h, s);
    EndsOf(n, t);
    AddLinks(h, n, s, t);
    Stitch(h, s, t, h);
  }

  lemma EndsOf(h: Link, s: seq<Link>)
    requires Chain(h, s, h)
    ensures After(h, s) && Before(s, h) && h.prev == Last(h, s) && h.next == First(s, h)
  {
    assert s + [] == s && [] + s == s;
    Unstitch(h, s, [], h);
    Unstitch(h, [], s, h);
  }

  lemma AddDistinct(h: Link, n: Link, s: seq<Link>, t: seq<Link>)
    requires NoRepeats([h] + s) && NoRepeats([n] + t) && Apart([h] + s, [n] + t)
    ensures NoRepeats([h] + (s + t))
    ensures Separate(h, s, n, t)
  {
    Parts([h], s);
    Parts([n], t);
    Parts([h] + s, [n] + t);
    assert ([h] + s) + ([n] + t) == [h] + (s + [n] + t);
    Around(h, s, n, t);
    if t != [] {
      assert t == [t[0]] + t[1..];
      Parts([t[0]], t[1..]);
      OneApart(t[0], t[1..]);
    }
    if s != [] { LastOnce(s); }
    if |t| > 1 { LastOnce(t[1..]); }
  }

  lemma Joining(h: Link, s: seq<Link>, q: Link, t: seq<Link>)
    requires NoRepeats([h] + (s + t)) && q !in [h] + (s + t)
    ensures NoRepeats([h] + (s + [q] + t)) && NoRepeats([h] + (s + [q])) && NoRepeats([h] + ([q] + t))
    ensures h !in s && h !in t && q !in s && q !in t && q != h && Apart(s, t) && NoRepeats(s) && NoRepeats(t)
  {
    assert q !in s && q !in t && q != h by {
      assert forall x :: x in [h] + (s + t) <==> x == h || x in s || x in t;
    }
    Parts([h], s + t);
    Parts(s, t);
    ApartParts([h], s, t);
    OneApart(h, s);
    OneApart(h, t);
    OneApart(q, s);
    OneApart(q, t);
    OneApart(q, [h]);
    assert s + [q] + t == s + ([q] + t);
    Parts([q], t);
    ApartParts(s, [q], t);
    Parts(s, [q] + t);
    ApartParts([h], [q], t);
    ApartParts([h], s, [q] + t);
    Parts([h], s + ([q] + t));
    Parts(s, [q]);
    ApartParts([h], s, [q]);
    Parts([h], s + [q]);
    Parts([h], [q] + t);
  }
}
