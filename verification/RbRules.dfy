/**
 The red-black rules on ghost trees, and what each step of the insertion and removal fix-ups
 does to them. Colours are read off a set of red nodes.
 */
module RbRules {
  import opened LinkedTree
  import opened Powers

  function IsRed(p: Node?): bool
    reads p
  {
    p != null && p.red
  }

  // ---------------------------------------------------------------- colours

  ghost predicate Red(t: Tree, reds: set<Node>) {
    t.T? && t.n in reds
  }

  ghost predicate CRed(c: Ctx, reds: set<Node>) {
    c.In? && c.n in reds
  }

  /** Red nodes have black children, every path meets h black nodes. */
  ghost predicate RB(t: Tree, h: nat, reds: set<Node>) {
    match t
    case Leaf => h == 0
    case T(l, n, r) =>
      if n in reds then !Red(l, reds) && !Red(r, reds) && RB(l, h, reds) && RB(r, h, reds)
      else h > 0 && RB(l, h - 1, reds) && RB(r, h - 1, reds)
  }

  /** As RB, but a red root may have red children. */
  ghost predicate WeakRB(t: Tree, h: nat, reds: set<Node>) {
    match t
    case Leaf => h == 0
    case T(l, n, r) =>
      if n in reds then RB(l, h, reds) && RB(r, h, reds)
      else h > 0 && RB(l, h - 1, reds) && RB(r, h - 1, reds)
  }

  /** Filling the hole with a black-rooted tree of black height h gives a red-black tree. */
  ghost predicate CRB(c: Ctx, h: nat, reds: set<Node>) {
    match c
    case Top => true
    case In(up, s, n, sib) =>
      && RB(sib, h, reds)
      && if n in reds then !Red(sib, reds) && up.In? && !CRed(up, reds) && CRB(up, h, reds)
         else CRB(up, h + 1, reds)
  }

  lemma {:induction false} PlugRB(c: Ctx, t: Tree, h: nat, reds: set<Node>) returns (h': nat)
    requires RB(t, h, reds) && CRB(c, h, reds)
    requires Red(t, reds) ==> c.In? && !CRed(c, reds)
    ensures RB(Plug(c, t), h', reds) && !Red(Plug(c, t), reds)
  {
    match c
    case Top => h' := h;
    case In(up, s, n, sib) =>
      h' := PlugRB(up, Mk(s, t, n, sib), if n in reds then h else h + 1, reds);
  }

  /** Repainting nodes outside t does not matter to t. */
  lemma {:induction false} Repaint(t: Tree, h: nat, reds: set<Node>, reds': set<Node>)
    requires RB(t, h, reds)
    requires forall n :: n in Nodes(t) ==> (n in reds <==> n in reds')
    ensures RB(t, h, reds')
  {
    if t.T? {
      var k := if t.n in reds then h else h - 1;
      Repaint(t.l, k, reds, reds');
      Repaint(t.r, k, reds, reds');
    }
  }

  lemma WeakRepaint(t: Tree, h: nat, reds: set<Node>, reds': set<Node>)
    requires WeakRB(t, h, reds)
    requires forall n :: n in Nodes(t) ==> (n in reds <==> n in reds')
    ensures WeakRB(t, h, reds') && (Red(t, reds) <==> Red(t, reds'))
    ensures RB(t, h, reds) ==> RB(t, h, reds')
  {
    if t.T? {
      var k := if t.n in reds then h else h - 1;
      Repaint(t.l, k, reds, reds');
      Repaint(t.r, k, reds, reds');
      assert t.l.T? ==> t.l.n in Nodes(t.l);
      assert t.r.T? ==> t.r.n in Nodes(t.r);
    }
  }

  lemma {:induction false} CRepaint(c: Ctx, h: nat, reds: set<Node>, reds': set<Node>)
    requires CRB(c, h, reds)
    requires forall n :: n in CNodes(c) ==> (n in reds <==> n in reds')
    ensures CRB(c, h, reds')
  {
    if c.In? {
      Repaint(c.sib, h, reds, reds');
      CRepaint(c.up, if c.n in reds then h else h + 1, reds, reds');
    }
  }

  ghost predicate Coloured(nodes: set<Node>, reds: set<Node>)
    reads nodes`red
  {
    forall n :: n in nodes ==> (n.red <==> n in reds)
  }

  // ---------------------------------------------------------------- insertion fix-up

  /** The insertion fix-up: t is red-rooted and may only clash with its parent. */
  ghost predicate Clash(c: Ctx, t: Tree, h: nat, reds: set<Node>) {
    Red(t, reds) && RB(t, h, reds) && CRB(c, h, reds)
  }

  /** The two nodes above the hole occur nowhere else. */
  ghost predicate Apart(c: Ctx, t: Tree)
    requires c.In? && c.up.In?
  {
    var pair := {c.n, c.up.n};
    && c.n != c.up.n
    && pair !! Nodes(t) && pair !! Nodes(c.sib) && pair !! Nodes(c.up.sib) && pair !! CNodes(c.up.up)
  }

  ghost predicate UncleApart(c: Ctx, t: Tree)
    requires c.In? && c.up.In? && c.up.sib.T?
  {
    var u := c.up.sib;
    u.n !in Nodes(t) + Nodes(c.sib) + Nodes(u.l) + Nodes(u.r) + CNodes(c.up.up)
  }

  /** The tree at the grandparent of t. */
  ghost function Grand(c: Ctx, t: Tree): Tree
    requires c.In? && c.up.In?
  {
    Mk(c.up.side, Mk(c.side, t, c.n, c.sib), c.up.n, c.up.sib)
  }

  lemma SepApart(c: Ctx, t: Tree)
    requires Sep(c, t) && c.In? && c.up.In?
    ensures Apart(c, t) && (c.up.sib.T? ==> UncleApart(c, t))
  {
    assert CDist(c.up) && Dist(c.up.sib);
  }

  lemma RedUncle(c: Ctx, t: Tree, h: nat, reds: set<Node>)
    requires Clash(c, t, h, reds) && CRed(c, reds) && Red(c.up.sib, reds)
    requires Apart(c, t) && UncleApart(c, t)
    ensures var reds' := reds - {c.n, c.up.sib.n} + {c.up.n};
            Clash(c.up.up, Grand(c, t), h + 1, reds')
  {
    var reds' := reds - {c.n, c.up.sib.n} + {c.up.n};
    var u := c.up.sib;
    assert CRB(c.up, h, reds);
    assert u.n in Nodes(u);
    Repaint(t, h, reds, reds');
    Repaint(c.sib, h, reds, reds');
    Repaint(u.l, h, reds, reds');
    Repaint(u.r, h, reds, reds');
    CRepaint(c.up.up, h + 1, reds, reds');
    assert RB(Mk(c.side, t, c.n, c.sib), h + 1, reds');
    assert RB(u, h + 1, reds');
  }

  // t is the inner grandchild of g: the first rotation makes it the outer one.

  ghost function InnerTree(c: Ctx, t: Tree): Tree
    requires c.In? && c.up.In? && t.T?
  {
    Mk(c.up.side, c.sib, c.n, Sub(t, c.up.side))
  }

  ghost function InnerCtx(c: Ctx, t: Tree): Ctx
    requires c.In? && c.up.In? && t.T?
  {
    In(c.up, c.up.side, t.n, Sub(t, Opp(c.up.side)))
  }

  lemma InnerClash(c: Ctx, t: Tree, h: nat, reds: set<Node>)
    requires Clash(c, t, h, reds) && CRed(c, reds) && c.side == Opp(c.up.side)
    ensures Clash(InnerCtx(c, t), InnerTree(c, t), h, reds) && CRed(InnerCtx(c, t), reds)
    ensures Rotated(c.up.side, Mk(c.side, t, c.n, c.sib)) == Mk(c.up.side, InnerTree(c, t), t.n, Sub(t, Opp(c.up.side)))
  {
    assert CRB(c.up, h, reds);
  }

  // t is the outer grandchild of g: the second rotation ends the clash.

  ghost function OuterCtx(c: Ctx): Ctx
    requires c.In? && c.up.In?
  {
    In(c.up.up, c.up.side, c.n, Mk(c.up.side, c.sib, c.up.n, c.up.sib))
  }

  lemma OuterClash(c: Ctx, t: Tree, h: nat, reds: set<Node>)
    requires Clash(c, t, h, reds) && CRed(c, reds) && c.side == c.up.side && !Red(c.up.sib, reds)
    requires Apart(c, t)
    ensures Clash(OuterCtx(c), t, h, reds - {c.n} + {c.up.n})
    ensures Rotated(Opp(c.up.side), Grand(c, t)) == Mk(c.up.side, t, c.n, OuterCtx(c).sib)
  {
    var reds' := reds - {c.n} + {c.up.n};
    assert CRB(c.up, h, reds);
    Repaint(t, h, reds, reds');
    Repaint(c.sib, h, reds, reds');
    Repaint(c.up.sib, h, reds, reds');
    CRepaint(c.up.up, h + 1, reds, reds');
    assert c.up.sib.T? ==> c.up.sib.n in Nodes(c.up.sib);
    assert c.sib.T? ==> c.sib.n in Nodes(c.sib);
    assert RB(OuterCtx(c).sib, h, reds');
  }

  lemma InnerOrder(c: Ctx, t: Tree)
    requires c.In? && c.up.In? && t.T? && c.side == Opp(c.up.side)
    ensures InOrder(Plug(InnerCtx(c, t), InnerTree(c, t))) == InOrder(Plug(c, t))
  {
    var tp := Mk(c.side, t, c.n, c.sib);
    RotatedOrder(c.up.side, tp);
    PlugOrder(c.up, tp);
    PlugOrder(c.up, Rotated(c.up.side, tp));
  }

  lemma OuterOrder(c: Ctx, t: Tree)
    requires c.In? && c.up.In? && c.side == c.up.side
    ensures InOrder(Plug(OuterCtx(c), t)) == InOrder(Plug(c, t))
  {
    RotatedOrder(Opp(c.up.side), Grand(c, t));
    PlugOrder(c.up.up, Grand(c, t));
    PlugOrder(c.up.up, Rotated(Opp(c.up.side), Grand(c, t)));
  }

  lemma Blackened(w: Tree, h: nat, reds: set<Node>) returns (h': nat)
    requires Dist(w) && RB(w, h, reds) && w.T?
    ensures RB(w, h', reds - {w.n})
  {
    h' := if w.n in reds then h + 1 else h;
    var k := if w.n in reds then h else h - 1;
    Repaint(w.l, k, reds, reds - {w.n});
    Repaint(w.r, k, reds, reds - {w.n});
  }

  lemma PlugClash(c: Ctx, t: Tree, h: nat, reds: set<Node>) returns (h': nat)
    requires Clash(c, t, h, reds) && !CRed(c, reds)
    ensures Plug(c, t).T? && RB(Plug(c, t), h', reds)
  {
    PlugIsT(c, t);
    if c.Top? { h' := h; } else { h' := PlugRB(c, t, h, reds); }
  }

  /** A red-black tree with a hole at an empty place. */
  lemma {:induction false} SplitRB(c: Ctx, t: Tree, h': nat, reds: set<Node>) returns (h: nat)
    requires RB(Plug(c, t), h', reds) && !Red(Plug(c, t), reds)
    ensures RB(t, h, reds) && CRB(c, h, reds) && (CRed(c, reds) ==> !Red(t, reds))
    ensures c.Top? ==> !Red(t, reds)
  {
    match c
    case Top => h := h';
    case In(up, s, n, sib) =>
      var k := SplitRB(up, Mk(s, t, n, sib), h', reds);
      h := if n in reds then k else k - 1;
  }

  // ---------------------------------------------------------------- removal fix-up

  /** The removal fix-up: the paths through t are one black node short. */
  ghost predicate Lack(c: Ctx, t: Tree, h: nat, reds: set<Node>) {
    WeakRB(t, h, reds) && CRB(c, h + 1, reds)
  }

  /** There is always a sibling. */
  lemma LackSibling(c: Ctx, t: Tree, h: nat, reds: set<Node>)
    requires Lack(c, t, h, reds) && c.In?
    ensures c.sib.T?
    ensures !Red(c.sib, reds) ==> RB(c.sib.l, h, reds) && RB(c.sib.r, h, reds)
    ensures Red(c.sib, reds) ==> c.n !in reds && Sub(c.sib, c.side).T?
  {
    assert Red(c.sib, reds) ==> RB(Sub(c.sib, c.side), h + 1, reds);
  }

  /** The nodes p and its sibling w occur nowhere else. */
  ghost predicate SibApart(c: Ctx, t: Tree)
    requires c.In? && c.sib.T?
  {
    var pair := {c.n, c.sib.n};
    && c.n != c.sib.n
    && pair !! Nodes(t) && pair !! Nodes(c.sib.l) && pair !! Nodes(c.sib.r) && pair !! CNodes(c.up)
  }

  // Case 1: red sibling.

  ghost function RedSibCtx(c: Ctx): Ctx
    requires c.In? && c.sib.T?
  {
    In(In(c.up, c.side, c.sib.n, Sub(c.sib, Opp(c.side))), c.side, c.n, Sub(c.sib, c.side))
  }

  lemma RedSib(c: Ctx, t: Tree, h: nat, reds: set<Node>)
    requires Lack(c, t, h, reds) && c.In? && !Red(t, reds) && Red(c.sib, reds) && SibApart(c, t)
    ensures var reds' := reds - {c.sib.n} + {c.n};
      && Lack(RedSibCtx(c), t, h, reds') && !Red(t, reds') && !Red(RedSibCtx(c).sib, reds')
    ensures Rotated(c.side, Mk(c.side, t, c.n, c.sib)) ==
      Mk(c.side, Mk(c.side, t, c.n, Sub(c.sib, c.side)), c.sib.n, Sub(c.sib, Opp(c.side)))
  {
    var reds' := reds - {c.sib.n} + {c.n};
    assert RB(t, h, reds);
    assert t.T? ==> t.n in Nodes(t);
    assert Sub(c.sib, c.side).T? ==> Sub(c.sib, c.side).n in Nodes(Sub(c.sib, c.side));
    Repaint(t, h, reds, reds');
    Repaint(c.sib.l, h + 1, reds, reds');
    Repaint(c.sib.r, h + 1, reds, reds');
    CRepaint(c.up, h + 2, reds, reds');
    assert CRB(RedSibCtx(c).up, h + 1, reds');
  }

  // Case 2: black sibling with black children.

  lemma BlackSib(c: Ctx, t: Tree, h: nat, reds: set<Node>)
    requires Lack(c, t, h, reds) && c.In? && !Red(t, reds) && c.sib.T? && SibApart(c, t)
    requires !Red(c.sib, reds) && !Red(c.sib.l, reds) && !Red(c.sib.r, reds)
    ensures Lack(c.up, Mk(c.side, t, c.n, c.sib), if c.n in reds then h else h + 1, reds + {c.sib.n})
  {
    var reds' := reds + {c.sib.n};
    assert RB(t, h, reds);
    assert t.T? ==> t.n in Nodes(t);
    assert c.sib.l.T? ==> c.sib.l.n in Nodes(c.sib.l);
    assert c.sib.r.T? ==> c.sib.r.n in Nodes(c.sib.r);
    Repaint(t, h, reds, reds');
    Repaint(c.sib.l, h, reds, reds');
    Repaint(c.sib.r, h, reds, reds');
    CRepaint(c.up, if c.n in reds then h + 1 else h + 2, reds, reds');
    assert RB(c.sib, h, reds');
  }

  // Case 3: black sibling, only its near child is red.

  ghost function NearRedSib(c: Ctx): Tree
    requires c.In? && c.sib.T? && Sub(c.sib, c.side).T?
  {
    var near := Sub(c.sib, c.side);
    Mk(c.side, Sub(near, c.side), near.n, Mk(c.side, Sub(near, Opp(c.side)), c.sib.n, Sub(c.sib, Opp(c.side))))
  }

  ghost predicate NearApart(c: Ctx, t: Tree)
    requires c.In? && c.sib.T? && Sub(c.sib, c.side).T?
  {
    var near := Sub(c.sib, c.side);
    && near.n !in Nodes(t) + Nodes(near.l) + Nodes(near.r) + Nodes(Sub(c.sib, Opp(c.side))) + CNodes(c.up)
    && near.n != c.n
  }

  lemma NearRed(c: Ctx, t: Tree, h: nat, reds: set<Node>)
    requires Lack(c, t, h, reds) && c.In? && !Red(t, reds) && c.sib.T? && SibApart(c, t)
    requires !Red(c.sib, reds) && Red(Sub(c.sib, c.side), reds) && !Red(Sub(c.sib, Opp(c.side)), reds)
    requires NearApart(c, t)
    ensures var reds' := reds - {Sub(c.sib, c.side).n} + {c.sib.n}; var c' := c.(sib := NearRedSib(c));
      && Lack(c', t, h, reds') && !Red(t, reds') && !Red(c'.sib, reds') && Red(Sub(c'.sib, Opp(c.side)), reds')
    ensures Rotated(Opp(c.side), c.sib) == NearRedSib(c)
  {
    var near, far := Sub(c.sib, c.side), Sub(c.sib, Opp(c.side));
    var reds' := reds - {near.n} + {c.sib.n};
    assert RB(near, h, reds) && RB(far, h, reds);
    assert near.n in Nodes(near);
    assert t.T? ==> t.n in Nodes(t);
    assert far.T? ==> far.n in Nodes(far);
    assert near.l.T? ==> near.l.n in Nodes(near.l);
    assert near.r.T? ==> near.r.n in Nodes(near.r);
    assert Nodes(near) == Nodes(near.l) + {near.n} + Nodes(near.r);
    Repaint(t, h, reds, reds');
    Repaint(near.l, h, reds, reds');
    Repaint(near.r, h, reds, reds');
    Repaint(far, h, reds, reds');
    CRepaint(c.up, if c.n in reds then h + 1 else h + 2, reds, reds');
    assert RB(Mk(c.side, Sub(near, Opp(c.side)), c.sib.n, far), h, reds');
    assert RB(NearRedSib(c), h + 1, reds');
  }

  // Case 4: black sibling whose far child is red: one rotation pays the debt.

  ghost function FarRedTree(c: Ctx, t: Tree): Tree
    requires c.In? && c.sib.T?
  {
    Mk(c.side, Mk(c.side, t, c.n, Sub(c.sib, c.side)), c.sib.n, Sub(c.sib, Opp(c.side)))
  }

  ghost function FarReds(c: Ctx, reds: set<Node>): set<Node>
    requires c.In? && c.sib.T? && Sub(c.sib, Opp(c.side)).T?
  {
    (if c.n in reds then reds + {c.sib.n} else reds - {c.sib.n}) - {c.n, Sub(c.sib, Opp(c.side)).n}
  }

  ghost predicate FarApart(c: Ctx, t: Tree)
    requires c.In? && c.sib.T? && Sub(c.sib, Opp(c.side)).T?
  {
    var far := Sub(c.sib, Opp(c.side));
    && far.n !in Nodes(t) + Nodes(far.l) + Nodes(far.r) + Nodes(Sub(c.sib, c.side)) + CNodes(c.up)
    && far.n != c.n && far.n != c.sib.n
  }

  lemma FarRed(c: Ctx, t: Tree, h: nat, reds: set<Node>) returns (h': nat)
    requires Lack(c, t, h, reds) && c.In? && !Red(t, reds) && c.sib.T? && SibApart(c, t)
    requires !Red(c.sib, reds) && Red(Sub(c.sib, Opp(c.side)), reds)
    requires FarApart(c, t)
    ensures Rotated(c.side, Mk(c.side, t, c.n, c.sib)) == FarRedTree(c, t)
    ensures RB(FarRedTree(c, t), h', FarReds(c, reds)) && CRB(c.up, h', FarReds(c, reds))
    ensures Red(FarRedTree(c, t), FarReds(c, reds)) ==> c.up.In? && !CRed(c.up, FarReds(c, reds))
  {
    var near, far := Sub(c.sib, c.side), Sub(c.sib, Opp(c.side));
    var reds' := FarReds(c, reds);
    h' := if c.n in reds then h + 1 else h + 2;
    assert RB(t, h, reds) && RB(near, h, reds) && RB(far, h, reds);
    assert far.n in Nodes(far);
    assert Nodes(far) == Nodes(far.l) + {far.n} + Nodes(far.r);
    assert c.up.In? ==> c.up.n in CNodes(c.up);
    Repaint(t, h, reds, reds');
    Repaint(near, h, reds, reds');
    Repaint(far.l, h, reds, reds');
    Repaint(far.r, h, reds, reds');
    CRepaint(c.up, h', reds, reds');
    assert RB(Mk(c.side, t, c.n, near), h + 1, reds');
    assert RB(far, h + 1, reds');
  }

  lemma SepSib(c: Ctx, t: Tree)
    requires Sep(c, t) && c.In? && c.sib.T?
    ensures SibApart(c, t)
    ensures Sub(c.sib, c.side).T? ==> NearApart(c, t)
    ensures Sub(c.sib, Opp(c.side)).T? ==> FarApart(c, t)
  {
    assert Dist(c.sib) && Dist(Sub(c.sib, c.side)) && Dist(Sub(c.sib, Opp(c.side)));
    var near, far := Sub(c.sib, c.side), Sub(c.sib, Opp(c.side));
    assert near.T? ==> near.n in Nodes(near) && Nodes(near) == Nodes(near.l) + {near.n} + Nodes(near.r);
    assert far.T? ==> far.n in Nodes(far) && Nodes(far) == Nodes(far.l) + {far.n} + Nodes(far.r);
  }

  lemma PlugSameOrder(c: Ctx, t: Tree, t': Tree)
    requires InOrder(t) == InOrder(t')
    ensures InOrder(Plug(c, t)) == InOrder(Plug(c, t'))
  {
    PlugOrder(c, t);
    PlugOrder(c, t');
  }

  lemma RedSibOrder(c: Ctx, t: Tree)
    requires c.In? && c.sib.T?
    ensures InOrder(Plug(RedSibCtx(c), t)) == InOrder(Plug(c, t))
  {
    var tp := Mk(c.side, t, c.n, c.sib);
    RotatedOrder(c.side, tp);
    PlugSameOrder(c.up, tp, Rotated(c.side, tp));
  }

  lemma NearOrder(c: Ctx, t: Tree)
    requires c.In? && c.sib.T? && Sub(c.sib, c.side).T?
    ensures InOrder(Plug(c.(sib := NearRedSib(c)), t)) == InOrder(Plug(c, t))
  {
    RotatedOrder(Opp(c.side), c.sib);
    PlugSameOrder(c.up, Mk(c.side, t, c.n, c.sib), Mk(c.side, t, c.n, NearRedSib(c)));
  }

  lemma FarOrder(c: Ctx, t: Tree)
    requires c.In? && c.sib.T?
    ensures InOrder(Plug(c.up, FarRedTree(c, t))) == InOrder(Plug(c, t))
  {
    var tp := Mk(c.side, t, c.n, c.sib);
    RotatedOrder(c.side, tp);
    PlugSameOrder(c.up, tp, FarRedTree(c, t));
  }

  /** Painting a red root black, or stopping at the root, pays the debt. */
  lemma PayDebt(c: Ctx, t: Tree, h: nat, reds: set<Node>) returns (h': nat)
    requires Sep(c, t) && Lack(c, t, h, reds) && (Red(t, reds) || c.Top?)
    ensures RB(Plug(c, t), h', reds - {Root(t)}) && !Red(Plug(c, t), reds - {Root(t)})
  {
    var reds' := reds - {Root(t)};
    if t.Leaf? {
      h' := 0;
    } else {
      var k := if t.n in reds then h else h - 1;
      Repaint(t.l, k, reds, reds');
      Repaint(t.r, k, reds, reds');
      assert t.n in Nodes(t);
      CRepaint(c, h + 1, reds, reds');
      h' := PlugRB(c, t, k + 1, reds');
    }
  }

  // ---------------------------------------------------------------- removal

  /** Taking out a node with at most one subtree x: a black one leaves a debt, a red one does not. */
  lemma SpliceRB(c: Ctx, t: Tree, x: Tree, h': nat, reds: set<Node>) returns (h: nat)
    requires t.T? && (t == T(Leaf, t.n, x) || t == T(x, t.n, Leaf))
    requires RB(Plug(c, t), h', reds) && !Red(Plug(c, t), reds)
    ensures WeakRB(x, h, reds) && CRB(c, if t.n in reds then h else h + 1, reds)
    ensures t.n in reds ==> RB(x, h, reds) && !Red(x, reds)
  {
    h := SplitRB(c, t, h', reds);
    if t.n !in reds { h := h - 1; }
  }

  lemma SpliceOrder(c: Ctx, t: Tree, x: Tree)
    requires t.T? && (t == T(Leaf, t.n, x) || t == T(x, t.n, Leaf))
    requires Sorted(InOrder(Plug(c, t)))
    ensures Sorted(InOrder(Plug(c, x)))
  {
    PlugOrder(c, t);
    PlugOrder(c, x);
    var a, b, o := Before(c), After(c), InOrder(x);
    RegroupSplice(a, t.n, o, b);
    if t == T(Leaf, t.n, x) {
      SortedWithout(a, t.n, o + b);
    } else {
      SortedWithout(a + o, t.n, b);
    }
  }

  lemma SpliceNodes(c: Ctx, t: Tree, x: Tree)
    requires t.T? && (t == T(Leaf, t.n, x) || t == T(x, t.n, Leaf)) && Sep(c, t)
    ensures CNodes(c) + Nodes(x) == Nodes(Plug(c, t)) - {t.n}
  {
    PlugNodes(c, t);
  }

  /** The path from the successor of old_ to the root, with old_ in it. */
  ghost function Via(d: Ctx, c: Ctx, l: Tree, n: Node): Ctx {
    Join(d, In(c, Right, n, l))
  }

  /** y takes old_'s place, in its colour. */
  lemma {:induction false} ReplaceCRB(d: Ctx, c: Ctx, l: Tree, old_: Node, y: Node, k: nat,
                                          reds: set<Node>, reds': set<Node>)
    requires CRB(Via(d, c, l, old_), k, reds)
    requires y !in CNodes(Via(d, c, l, old_)) && (y in reds' <==> old_ in reds)
    requires forall n :: n in CNodes(d) + CNodes(c) + Nodes(l) ==> (n in reds <==> n in reds')
    ensures CRB(Via(d, c, l, y), k, reds')
    ensures CRed(Via(d, c, l, old_), reds) <==> CRed(Via(d, c, l, y), reds')
  {
    if d.Top? {
      Repaint(l, k, reds, reds');
      assert l.T? ==> l.n in Nodes(l);
      assert c.In? ==> c.n in CNodes(c);
      CRepaint(c, if old_ in reds then k else k + 1, reds, reds');
    } else {
      Repaint(d.sib, k, reds, reds');
      assert d.sib.T? ==> d.sib.n in Nodes(d.sib);
      ReplaceCRB(d.up, c, l, old_, y, if d.n in reds then k else k + 1, reds, reds');
    }
  }

  lemma RegroupReplace(a: seq<Node>, m: Node, n: Node, o: seq<Node>, b: seq<Node>)
    ensures (a + [m]) + ([] + [n] + o) + b == a + [m] + ([n] + o + b)
    ensures (a + [n]) + o + b == a + ([n] + o + b)
  {
  }

  lemma ReplaceOrder(d: Ctx, c: Ctx, l: Tree, old_: Node, y: Node, x: Tree)
    requires AllLeft(d) && Sorted(InOrder(Plug(Via(d, c, l, old_), T(Leaf, y, x))))
    ensures Sorted(InOrder(Plug(Via(d, c, l, y), x)))
  {
    var a, b, o := Before(c) + InOrder(l), After(d) + After(c), InOrder(x);
    JoinOrder(d, In(c, Right, old_, l));
    JoinOrder(d, In(c, Right, y, l));
    PlugOrder(Via(d, c, l, old_), T(Leaf, y, x));
    PlugOrder(Via(d, c, l, y), x);
    RegroupReplace(a, old_, y, o, b);
    SortedWithout(a, old_, [y] + o + b);
  }

  lemma ViaNodes(d: Ctx, c: Ctx, l: Tree, n: Node, x: Tree)
    ensures CNodes(Via(d, c, l, n)) == CNodes(d) + CNodes(c) + Nodes(l) + {n}
    ensures Par(Via(d, c, l, n)) == if d.Top? then n else d.n
    ensures Plug(Via(d, c, l, n), x) == Plug(c, T(l, n, Plug(d, x)))
  {
    JoinPlug(d, In(c, Right, n, l), x);
  }

  /** The successor y of old_ is taken out and put in the place of old_. */
  lemma ReplaceFacts(d: Ctx, c: Ctx, l: Tree, old_: Node, y: Node, x: Tree, w: Tree, reds: set<Node>) returns (h: nat)
    requires w == Plug(Via(d, c, l, old_), T(Leaf, y, x)) && AllLeft(d)
    requires y !in CNodes(d) + CNodes(c) + Nodes(l) + Nodes(x) + {old_}
    requires old_ !in CNodes(d) + CNodes(c) + Nodes(l) + Nodes(x)
    requires Sorted(InOrder(w)) && !Red(w, reds) && exists k :: RB(w, k, reds)
    ensures Sorted(InOrder(Plug(Via(d, c, l, y), x)))
    ensures CNodes(Via(d, c, l, y)) + Nodes(x) == Nodes(w) - {old_}
    ensures var reds' := if old_ in reds then reds + {y} else reds - {y};
      if y in reds then RB(x, h, reds') && !Red(x, reds') && CRB(Via(d, c, l, y), h, reds')
      else Lack(Via(d, c, l, y), x, h, reds')
  {
    var j, t := Via(d, c, l, old_), T(Leaf, y, x);
    var reds' := if old_ in reds then reds + {y} else reds - {y};
    var k :| RB(w, k, reds);
    h := SpliceRB(j, t, x, k, reds);
    ReplaceOrder(d, c, l, old_, y, x);
    ViaNodes(d, c, l, old_, x);
    ViaNodes(d, c, l, y, x);
    PlugNodes(j, t);
    ReplaceCRB(d, c, l, old_, y, if y in reds then h else h + 1, reds, reds');
    WeakRepaint(x, h, reds, reds');
  }

  lemma ViaSep(d: Ctx, c: Ctx, l: Tree, n: Node, y: Node, x: Tree)
    requires Sep(c, T(l, n, Plug(d, T(Leaf, y, x))))
    ensures n !in CNodes(d) + CNodes(c) + Nodes(l) + Nodes(x)
  {
    PlugNodes(d, T(Leaf, y, x));
  }

  lemma ViaSepLeaf(d: Ctx, c: Ctx, l: Tree, n: Node, y: Node, x: Tree)
    requires Sep(Via(d, c, l, n), T(Leaf, y, x))
    ensures y !in CNodes(d) + CNodes(c) + Nodes(l) + Nodes(x) + {n}
  {
    ViaNodes(d, c, l, n, x);
    assert y in Nodes(T(Leaf, y, x));
  }

  // ---------------------------------------------------------------- height

  lemma {:induction false} BlackHeight(t: Tree, h: nat, reds: set<Node>)
    requires RB(t, h, reds)
    ensures Height(t) <= 2 * h + (if Red(t, reds) then 1 else 0)
    ensures Pow2(h) <= |InOrder(t)| + 1
  {
    if t.T? {
      var k := if t.n in reds then h else h - 1;
      BlackHeight(t.l, k, reds);
      BlackHeight(t.r, k, reds);
    }
  }

  /** A red-black tree of n nodes is at most 2 lg(n + 1) high: even twice a whole number k with 2^k <= n + 1. */
  lemma HeightBound(t: Tree, h: nat, reds: set<Node>)
    requires RB(t, h, reds) && !Red(t, reds)
    ensures exists k: nat :: Height(t) <= 2 * k && Pow2(k) <= |InOrder(t)| + 1
  {
    BlackHeight(t, h, reds);
  }
}
