/**
 * The splay tree: a search tree without parent pointers or colours that brings the searched node to the
 * root top-down, hanging the nodes it passes on two side trees and putting the three together at the end.
 */
module SplayTree {
  import opened LinkedTree

  /** A key to look for, or one of the ends for the minimum and the maximum. */
  datatype Target = Key(k: int) | NegInf | PosInf

  function Cmp(x: Target, n: Node): int {
    match x
    case Key(k) => if k < n.key then -1 else if k > n.key then 1 else 0
    case NegInf => -1
    case PosInf => 1
  }

  /** The side on which to go on, if the comparison is not equal. */
  function Toward(comp: int): Side { if comp < 0 then Left else Right }

  predicate Beyond(x: Target, s: Side, n: Node) { if s.Left? then Cmp(x, n) < 0 else Cmp(x, n) > 0 }

  // ---- Ghost state of the descent -----------------------------------------------------------------------

  /** The links spell `t`. Other than in the red-black tree there is no parent to agree with. */
  ghost predicate Spells(t: Tree)
    reads Nodes(t)`left, Nodes(t)`right
  {
    t.T? ==> t.n.left == Root(t.l) && t.n.right == Root(t.r) && Spells(t.l) && Spells(t.r)
  }

  /** One of the two links of a node; unlike `Child` it depends on that link only. */
  function Link(s: Side, n: Node): Node?
    reads (if s.Left? then {n} else {})`left, (if s.Right? then {n} else {})`right
  {
    if s.Left? then n.left else n.right
  }

  /** The node whose link is the hole of a side tree; the scratch node while the side tree is empty. */
  ghost function End(c: Ctx, d: Node): Node { if c.Top? then d else c.n }

  /** The side tree that hangs off the `s` link of the scratch node, except for the link of its last node. */
  ghost predicate Spine(s: Side, c: Ctx, d: Node)
    reads (if s.Left? then {d} else {})`left, (if s.Right? then {d} else {})`right, CNodes(c)`left, CNodes(c)`right
  {
    c.In? ==>
      && c.side == s && Link(Opp(s), c.n) == Root(c.sib) && Spells(c.sib)
      && (assert c.up.In? ==> c.up.n in CNodes(c.up); Link(s, End(c.up, d)) == c.n) && Spine(s, c.up, d)
  }

  /** The side trees `a` (nodes before the target) and `b` (after it) and the rest `t`, of disjoint nodes. */
  ghost predicate Parted(a: Ctx, t: Tree, b: Ctx, d: Node) {
    && CDist(a) && Dist(t) && CDist(b)
    && CNodes(a) !! CNodes(b) && CNodes(a) !! Nodes(t) && CNodes(b) !! Nodes(t)
    && d !in CNodes(a) && d !in CNodes(b) && d !in Nodes(t)
  }

  ghost predicate Arranged(x: Target, a: Ctx, t: Tree, b: Ctx, t0: Tree) {
    && AllRight(a) && AllLeft(b)
    && CNodes(a) + Nodes(t) + CNodes(b) == Nodes(t0)
    && Before(a) + InOrder(t) + After(b) == InOrder(t0)
    && (forall n :: n in Before(a) ==> Cmp(x, n) > 0)
    && (forall n :: n in After(b) ==> Cmp(x, n) < 0)
  }

  lemma RotateKeeps(x: Target, s: Side, a: Ctx, t: Tree, b: Ctx, d: Node, t0: Tree)
    requires Parted(a, t, b, d) && Arranged(x, a, t, b, t0)
    requires t.T? && Sub(t, Opp(s)).T?
    ensures Parted(a, Rotated(s, t), b, d) && Arranged(x, a, Rotated(s, t), b, t0)
  {
    RotatedSep(s, Top, t);
    RotatedOrder(s, t);
  }

  ghost function Size(t: Tree): nat { if t.Leaf? then 0 else Size(t.l) + 1 + Size(t.r) }

  /** The side trees after the root of `t` and its far subtree have joined one of them. */
  ghost function NextA(s: Side, a: Ctx, t: Tree): Ctx
    requires t.T?
  {
    if s.Right? then In(a, Right, t.n, t.l) else a
  }

  ghost function NextB(s: Side, t: Tree, b: Ctx): Ctx
    requires t.T?
  {
    if s.Left? then In(b, Left, t.n, t.r) else b
  }

  lemma LinkParted(s: Side, a: Ctx, t: Tree, b: Ctx, d: Node)
    requires Parted(a, t, b, d) && t.T?
    ensures Parted(NextA(s, a, t), Sub(t, s), NextB(s, t, b), d)
  {
  }

  /** In a sorted listing, what stands behind a node beyond the target is beyond it too. */
  lemma SortedBeyond(x: Target, p: seq<Node>, n: Node, q: seq<Node>)
    requires Sorted(p + [n] + q)
    ensures Cmp(x, n) < 0 ==> forall m :: m in q ==> Cmp(x, m) < 0
    ensures Cmp(x, n) > 0 ==> forall m :: m in p ==> Cmp(x, m) > 0
    ensures x.Key? && Cmp(x, n) == 0 ==>
              (forall m :: m in q ==> Cmp(x, m) < 0) && (forall m :: m in p ==> Cmp(x, m) > 0)
  {
    var c := p + [n] + q;
    assert c[|p|] == n;
    assert forall i :: 0 <= i < |p| ==> p[i] == c[i];
    assert forall i :: 0 <= i < |q| ==> q[i] == c[|p| + 1 + i];
  }

  /** The listing of the whole around the root of `t`. */
  lemma AroundRoot(x: Target, a: Ctx, t: Tree, b: Ctx, t0: Tree)
    requires Arranged(x, a, t, b, t0) && t.T?
    ensures InOrder(t0) == (Before(a) + InOrder(t.l)) + [t.n] + (InOrder(t.r) + After(b))
  {
    Regroup(Before(a), InOrder(t.l), t.n, InOrder(t.r), After(b));
    RegroupNode(Before(a), InOrder(t.l), t.n, InOrder(t.r), After(b));
  }

  /** The side tree that the root of `t` joins stays on its side of the target. */
  lemma LinkBeyond(x: Target, s: Side, a: Ctx, t: Tree, b: Ctx, t0: Tree)
    requires Arranged(x, a, t, b, t0) && t.T? && Beyond(x, s, t.n) && Sorted(InOrder(t0))
    ensures forall n :: n in Before(NextA(s, a, t)) ==> Cmp(x, n) > 0
    ensures forall n :: n in After(NextB(s, t, b)) ==> Cmp(x, n) < 0
  {
    AroundRoot(x, a, t, b, t0);
    SortedBeyond(x, Before(a) + InOrder(t.l), t.n, InOrder(t.r) + After(b));
    assert s.Left? ==> After(NextB(s, t, b)) == [t.n] + (InOrder(t.r) + After(b));
    assert s.Right? ==> Before(NextA(s, a, t)) == Before(a) + InOrder(t.l) + [t.n];
  }

  lemma LinkArranged(x: Target, s: Side, a: Ctx, t: Tree, b: Ctx, t0: Tree)
    requires Arranged(x, a, t, b, t0) && t.T? && Beyond(x, s, t.n) && Sorted(InOrder(t0))
    ensures Arranged(x, NextA(s, a, t), Sub(t, s), NextB(s, t, b), t0)
  {
    LinkOrder(s, a, t, b);
    LinkBeyond(x, s, a, t, b, t0);
  }

  lemma LinkOrder(s: Side, a: Ctx, t: Tree, b: Ctx)
    requires t.T?
    ensures Before(NextA(s, a, t)) + InOrder(Sub(t, s)) + After(NextB(s, t, b))
         == Before(a) + InOrder(t) + After(b)
  {
    Regroup(Before(a), InOrder(t.l), t.n, InOrder(t.r), After(b));
  }

  /** What the assembled tree is. */
  ghost function Assembled(a: Ctx, t: Tree, b: Ctx): Tree
    requires t.T?
  {
    T(Plug(a, t.l), t.n, Plug(b, t.r))
  }

  /** Everything left of the root is before the target, everything right of it after the target. */
  ghost predicate SplitBy(x: Target, t: Tree) {
    t.T? && (forall m :: m in InOrder(t.l) ==> Cmp(x, m) > 0) && (forall m :: m in InOrder(t.r) ==> Cmp(x, m) < 0)
  }

  /** The descent stops at the target, or where nothing is left on the target's side. */
  ghost predicate Stops(x: Target, t: Tree) {
    t.T? && (Cmp(x, t.n) == 0 || (Cmp(x, t.n) < 0 && t.l.Leaf?) || (Cmp(x, t.n) > 0 && t.r.Leaf?))
  }

  lemma AssembledOrder(x: Target, a: Ctx, t: Tree, b: Ctx, t0: Tree)
    requires Arranged(x, a, t, b, t0) && t.T?
    ensures InOrder(Plug(a, t.l)) == Before(a) + InOrder(t.l)
    ensures InOrder(Plug(b, t.r)) == InOrder(t.r) + After(b)
    ensures InOrder(Assembled(a, t, b)) == InOrder(t0)
    ensures Nodes(Assembled(a, t, b)) == Nodes(t0)
  {
    PlugOrder(a, t.l);
    PlugOrder(b, t.r);
    AllRightAfter(a);
    AllLeftBefore(b);
    AroundRoot(x, a, t, b, t0);
    PlugNodes(a, t.l);
    PlugNodes(b, t.r);
    assert Before(a) + InOrder(t.l) + [] == Before(a) + InOrder(t.l);
    assert [] + InOrder(t.r) + After(b) == InOrder(t.r) + After(b);
  }

  lemma AssembledSplit(x: Target, a: Ctx, t: Tree, b: Ctx, t0: Tree)
    requires Arranged(x, a, t, b, t0) && Stops(x, t) && Sorted(InOrder(t0))
    ensures SplitBy(x, Assembled(a, t, b))
  {
    AssembledOrder(x, a, t, b, t0);
    AroundRoot(x, a, t, b, t0);
    SortedBeyond(x, Before(a) + InOrder(t.l), t.n, InOrder(t.r) + After(b));
  }

  lemma {:induction false} PlugDist(c: Ctx, t: Tree)
    requires Sep(c, t)
    ensures Dist(Plug(c, t))
  {
    if c.In? { PlugDist(c.up, Mk(c.side, t, c.n, c.sib)); }
  }

  lemma AssembledDist(a: Ctx, t: Tree, b: Ctx, d: Node)
    requires Parted(a, t, b, d) && t.T?
    ensures Dist(Assembled(a, t, b)) && d !in Nodes(Assembled(a, t, b))
  {
    PlugDist(a, t.l);
    PlugDist(b, t.r);
    PlugNodes(a, t.l);
    PlugNodes(b, t.r);
  }

  lemma AssembledWhole(x: Target, a: Ctx, t: Tree, b: Ctx, d: Node, t0: Tree)
    requires Parted(a, t, b, d) && Arranged(x, a, t, b, t0) && Stops(x, t) && Sorted(InOrder(t0))
    ensures var w := Assembled(a, t, b);
      Dist(w) && InOrder(w) == InOrder(t0) && Nodes(w) == Nodes(t0) && SplitBy(x, w) && Sorted(InOrder(w))
  {
    AssembledOrder(x, a, t, b, t0);
    AssembledSplit(x, a, t, b, t0);
    AssembledDist(a, t, b, d);
  }

  /** With its last link set, a side tree is a tree. */
  lemma {:induction false} SpinePlug(s: Side, c: Ctx, d: Node, t: Tree)
    requires Spine(s, c, d) && Spells(t) && Link(s, End(c, d)) == Root(t)
    ensures Spells(Plug(c, t)) && Link(s, d) == Root(Plug(c, t))
  {
    if c.In? { SpinePlug(s, c.up, d, Mk(s, t, c.n, c.sib)); }
  }

  class Head {
    var root: Node?
    ghost var tree: Tree

    ghost predicate Valid()
      reads this, Nodes(tree)`left, Nodes(tree)`right
    {
      root == Root(tree) && Spells(tree) && Dist(tree) && Sorted(InOrder(tree))
    }

    constructor ()
      ensures Valid() && tree == Leaf
    {
      root, tree := null, Leaf;
    }

    /** SPLAY_ROTATE_RIGHT and SPLAY_ROTATE_LEFT: the child `tmp` on side `s` becomes the root. */
    method Rotate(s: Side, tmp: Node, ghost t: Tree)
      requires t.T? && root == t.n && Sub(t, s).T? && tmp == Sub(t, s).n && Spells(t) && Dist(t)
      modifies this`root, root`left, root`right, tmp`left, tmp`right
      ensures root == tmp && Spells(Rotated(Opp(s), t))
    {
      assert tmp in Nodes(Sub(t, s)) && tmp != root;
      if s.Left? {
        root.left := tmp.right;
        tmp.right := root;
      } else {
        root.right := tmp.left;
        tmp.left := root;
      }
      root := tmp;
    }

    /** SPLAY_LINKLEFT and SPLAY_LINKRIGHT: the root joins the side tree that ends in `tmp`. */
    method LinkRoot(s: Side, tmp: Node, ghost c: Ctx, ghost d: Node, ghost t: Tree) returns (end: Node)
      requires t.T? && root == t.n && Spells(t) && Dist(t)
      requires Spine(s, c, d) && CDist(c) && CNodes(c) !! Nodes(t) && d !in CNodes(c) && d !in Nodes(t)
      requires tmp == End(c, d)
      modifies this`root, (if s.Left? then {tmp} else {})`left, (if s.Right? then {tmp} else {})`right
      ensures root == Root(Sub(t, s)) && Spells(Sub(t, s)) && end == t.n
      ensures Spine(s, In(c, s, t.n, Sub(t, Opp(s))), d)
    {
      assert c.In? ==> c.n in CNodes(c);
      if s.Left? { tmp.left := root; } else { tmp.right := root; }
      end := root;
      root := if s.Left? then root.left else root.right;
      assert Spine(s, c, d);
    }

    /** The three trees in the links while the descent is at `t`. */
    ghost predicate Descent(d: Node, left: Node, right: Node, a: Ctx, t: Tree, b: Ctx)
      reads this`root, d`left, d`right
      reads (CNodes(a) + Nodes(t) + CNodes(b))`left, (CNodes(a) + Nodes(t) + CNodes(b))`right
    {
      && t.T? && root == t.n && Spells(t)
      && left == End(a, d) && right == End(b, d)
      && Spine(Right, a, d) && Spine(Left, b, d)
      && Parted(a, t, b, d)
    }

    method RotateStep(s: Side, tmp: Node, d: Node, left: Node, right: Node, ghost a: Ctx, ghost t: Tree, ghost b: Ctx)
      requires Descent(d, left, right, a, t, b) && Sub(t, s).T? && tmp == Sub(t, s).n
      modifies this`root, root`left, root`right, tmp`left, tmp`right
      ensures Descent(d, left, right, a, Rotated(Opp(s), t), b)
    {
      assert tmp in Nodes(t) && root in Nodes(t);
      RotatedSep(Opp(s), Top, t);
      assert allocated(Nodes(t)) && allocated(CNodes(a)) && allocated(CNodes(b));
      Rotate(s, tmp, t);
    }

    method LinkLeft(d: Node, left: Node, right: Node, ghost a: Ctx, ghost t: Tree, ghost b: Ctx) returns (right': Node)
      requires Descent(d, left, right, a, t, b) && t.l.T?
      modifies this`root, right`left
      ensures Descent(d, left, right', a, t.l, In(b, Left, t.n, t.r))
    {
      LinkParted(Left, a, t, b, d);
      assert a.In? ==> a.n in CNodes(a);
      assert b.In? ==> b.n in CNodes(b);
      assert allocated(Nodes(t)) && allocated(CNodes(a)) && allocated(CNodes(b));
      right' := LinkRoot(Left, right, b, d, t);
      assert Spine(Right, a, d);
    }

    method LinkRight(d: Node, left: Node, right: Node, ghost a: Ctx, ghost t: Tree, ghost b: Ctx) returns (left': Node)
      requires Descent(d, left, right, a, t, b) && t.r.T?
      modifies this`root, left`right
      ensures Descent(d, left', right, In(a, Right, t.n, t.l), t.r, b)
    {
      LinkParted(Right, a, t, b, d);
      assert a.In? ==> a.n in CNodes(a);
      assert b.In? ==> b.n in CNodes(b);
      assert allocated(Nodes(t)) && allocated(CNodes(a)) && allocated(CNodes(b));
      left' := LinkRoot(Right, left, a, d, t);
      assert Spine(Left, b, d);
    }

    method LinkStep(s: Side, d: Node, left: Node, right: Node, ghost a: Ctx, ghost t: Tree, ghost b: Ctx)
      returns (left': Node, right': Node)
      requires Descent(d, left, right, a, t, b) && Sub(t, s).T?
      modifies this`root, (if s.Left? then {right} else {})`left, (if s.Right? then {left} else {})`right
      ensures Descent(d, left', right', NextA(s, a, t), Sub(t, s), NextB(s, t, b))
    {
      left', right' := left, right;
      if s.Left? {
        right' := LinkLeft(d, left, right, a, t, b);
      } else {
        left' := LinkRight(d, left, right, a, t, b);
      }
    }

    /** A side tree is completed: its last node gets the tree `u` as its child on side `s`. */
    method FillHole(s: Side, end: Node, x: Node?, d: Node, ghost c: Ctx, ghost u: Tree)
      requires Spine(s, c, d) && Spells(u) && Sep(c, u) && d !in CNodes(c) && d !in Nodes(u)
      requires end == End(c, d) && x == Root(u)
      modifies (if s.Left? then {end} else {})`left, (if s.Right? then {end} else {})`right
      ensures Spells(Plug(c, u)) && Link(s, d) == Root(Plug(c, u))
    {
      assert c.In? ==> c.n in CNodes(c);
      if s.Left? { end.left := x; } else { end.right := x; }
      SpinePlug(s, c, d, u);
    }

    method CloseLeft(d: Node, left: Node, right: Node, ghost a: Ctx, ghost t: Tree, ghost b: Ctx)
      requires Descent(d, left, right, a, t, b)
      modifies left`right
      ensures root == t.n && root.right == Root(t.r)
      ensures Spells(Plug(a, t.l)) && d.right == Root(Plug(a, t.l))
      ensures Spine(Left, b, d) && Spells(t.r)
    {
      assert a.In? ==> a.n in CNodes(a);
      assert allocated(Nodes(t)) && allocated(CNodes(b));
      FillHole(Right, left, root.left, d, a, t.l);
    }

    /** The first half of SPLAY_ASSEMBLE: the subtrees of the root fill the holes of the side trees. */
    method CloseSides(d: Node, left: Node, right: Node, ghost a: Ctx, ghost t: Tree, ghost b: Ctx)
      requires Descent(d, left, right, a, t, b)
      modifies left`right, right`left
      ensures root == t.n
      ensures Spells(Plug(a, t.l)) && d.right == Root(Plug(a, t.l))
      ensures Spells(Plug(b, t.r)) && d.left == Root(Plug(b, t.r))
    {
      CloseLeft(d, left, right, a, t, b);
      assert b.In? ==> b.n in CNodes(b);
      PlugNodes(a, t.l);
      assert allocated(Nodes(Plug(a, t.l)));
      FillHole(Left, right, root.right, d, b, t.r);
    }

    /** SPLAY_ASSEMBLE. */
    method Assemble(d: Node, left: Node, right: Node, ghost a: Ctx, ghost t: Tree, ghost b: Ctx)
      requires Descent(d, left, right, a, t, b)
      modifies left`right, right`left, root`left, root`right
      ensures root == t.n && Spells(Assembled(a, t, b))
    {
      AssembledDist(a, t, b, d);
      CloseSides(d, left, right, a, t, b);
      root.left := d.right;
      root.right := d.left;
      assert Spells(Plug(a, t.l)) && Spells(Plug(b, t.r));
    }

    /** The child that the target lies beyond becomes the root. */
    method RotateToward(x: Target, s: Side, tmp: Node, d: Node, left: Node, right: Node,
                        ghost a: Ctx, ghost t: Tree, ghost b: Ctx, ghost t0: Tree)
      returns (ghost t': Tree)
      requires Descent(d, left, right, a, t, b) && Arranged(x, a, t, b, t0)
      requires Sub(t, s).T? && tmp == Sub(t, s).n && Beyond(x, s, tmp)
      modifies this`root, Nodes(t0)`left, Nodes(t0)`right
      ensures t' == Rotated(Opp(s), t) && t'.n == tmp && Size(Sub(t', s)) < Size(t)
      ensures Descent(d, left, right, a, t', b) && Arranged(x, a, t', b, t0)
    {
      assert tmp in Nodes(t) && root in Nodes(t);
      RotateKeeps(x, Opp(s), a, t, b, d, t0);
      RotateStep(s, tmp, d, left, right, a, t, b);
      t' := Rotated(Opp(s), t);
    }

    /** The root, which lies beyond the target, joins its side tree. */
    method LinkToward(x: Target, s: Side, d: Node, left: Node, right: Node,
                      ghost a: Ctx, ghost t: Tree, ghost b: Ctx, ghost t0: Tree)
      returns (left': Node, right': Node, ghost a': Ctx, ghost t': Tree, ghost b': Ctx)
      requires Descent(d, left, right, a, t, b) && Arranged(x, a, t, b, t0) && Sorted(InOrder(t0))
      requires Sub(t, s).T? && Beyond(x, s, t.n)
      modifies this`root, d`left, d`right, Nodes(t0)`left, Nodes(t0)`right
      ensures Descent(d, left', right', a', t', b') && Arranged(x, a', t', b', t0)
      ensures t' == Sub(t, s) && Size(t') < Size(t)
    {
      assert a.In? ==> a.n in CNodes(a);
      assert b.In? ==> b.n in CNodes(b);
      LinkArranged(x, s, a, t, b, t0);
      left', right' := LinkStep(s, d, left, right, a, t, b);
      a', t', b' := NextA(s, a, t), Sub(t, s), NextB(s, t, b);
    }

    /** One round of the loop of SPLAY; `done` where the source breaks out of it. */
    method Turn(x: Target, d: Node, left: Node, right: Node, ghost a: Ctx, ghost t: Tree, ghost b: Ctx, ghost t0: Tree)
      returns (done: bool, left': Node, right': Node, ghost a': Ctx, ghost t': Tree, ghost b': Ctx)
      requires Descent(d, left, right, a, t, b) && Arranged(x, a, t, b, t0) && Sorted(InOrder(t0))
      modifies this`root, d`left, d`right, Nodes(t0)`left, Nodes(t0)`right
      ensures Descent(d, left', right', a', t', b') && Arranged(x, a', t', b', t0)
      ensures if done then Stops(x, t') else Size(t') < Size(t)
    {
      left', right', a', t', b' := left, right, a, t, b;
      var comp := Cmp(x, root);
      if comp == 0 { return true, left, right, a, t, b; }
      var s := Toward(comp);
      var tmp := root.Child(s);
      assert tmp == Root(Sub(t, s));
      if tmp == null { return true, left, right, a, t, b; }
      done, left', right', a', t', b' := GoOn(x, s, tmp, d, left, right, a, t, b, t0);
    }

    /** The rest of a round: rotate if the target lies beyond the child too, then link. */
    method GoOn(x: Target, s: Side, tmp: Node, d: Node, left: Node, right: Node,
                ghost a: Ctx, ghost t: Tree, ghost b: Ctx, ghost t0: Tree)
      returns (done: bool, left': Node, right': Node, ghost a': Ctx, ghost t': Tree, ghost b': Ctx)
      requires Descent(d, left, right, a, t, b) && Arranged(x, a, t, b, t0) && Sorted(InOrder(t0))
      requires Beyond(x, s, t.n) && Sub(t, s).T? && tmp == Sub(t, s).n
      modifies this`root, d`left, d`right, Nodes(t0)`left, Nodes(t0)`right
      ensures Descent(d, left', right', a', t', b') && Arranged(x, a', t', b', t0)
      ensures if done then Stops(x, t') else Size(t') < Size(t)
    {
      left', right', a', t', b' := left, right, a, t, b;
      if Beyond(x, s, tmp) {
        t' := RotateToward(x, s, tmp, d, left, right, a, t, b, t0);
        assert root.Child(s) == Root(Sub(t', s));
        if root.Child(s) == null { return true, left, right, a, t', b; }
      }
      left', right', a', t', b' := LinkToward(x, s, d, left, right, a, t', b, t0);
      done := false;
    }

    method Finish(x: Target, d: Node, left: Node, right: Node,
                  ghost a: Ctx, ghost t: Tree, ghost b: Ctx, ghost t0: Tree)
      requires Descent(d, left, right, a, t, b) && Arranged(x, a, t, b, t0) && Sorted(InOrder(t0)) && Stops(x, t)
      modifies this`tree, left`right, right`left, root`left, root`right
      ensures Valid() && root != null && InOrder(tree) == InOrder(t0) && Nodes(tree) == Nodes(t0) && SplitBy(x, tree)
    {
      AssembledWhole(x, a, t, b, d, t0);
      Assemble(d, left, right, a, t, b);
      tree := Assembled(a, t, b);
    }

    /**
     * SPLAY and SPLAY_MINMAX: the nodes and their order stay, and the new root splits them at the target.
     * A node that compares equal to the target is therefore at the root.
     */
    method Splay(x: Target)
      requires Valid() && root != null
      modifies this, Nodes(tree)`left, Nodes(tree)`right
      ensures Valid() && root != null
      ensures InOrder(tree) == old(InOrder(tree)) && Nodes(tree) == old(Nodes(tree))
      ensures SplitBy(x, tree)
    {
      assert allocated(Nodes(tree));
      var node := new Node(0);
      var left, right := node, node;
      ghost var t0, t, a, b := tree, tree, Top, Top;
      assert [] + InOrder(t0) + [] == InOrder(t0);
      var done := false;
      while !done
        invariant Descent(node, left, right, a, t, b) && Arranged(x, a, t, b, t0)
        invariant fresh(node) && (done ==> Stops(x, t))
        decreases !done, Size(t)
      {
        done, left, right, a, t, b := Turn(x, node, left, right, a, t, b, t0);
      }
      Finish(x, node, left, right, a, t, b, t0);
    }

    /** SPLAY_FIND. */
    method Find(k: int) returns (r: Node?)
      requires Valid()
      modifies this, Nodes(tree)`left, Nodes(tree)`right
      ensures Valid() && InOrder(tree) == old(InOrder(tree)) && Nodes(tree) == old(Nodes(tree))
      ensures if r == null then forall n :: n in Nodes(tree) ==> n.key != k else r in Nodes(tree) && r.key == k
    {
      if root == null { return null; }
      Splay(Key(k));
      KeyAtRoot(k, tree);
      return if Cmp(Key(k), root) == 0 then root else null;
    }

    /** SPLAY_MIN for `NegInf` and SPLAY_MAX for `PosInf`: the first or the last node in order. */
    method MinMax(x: Target) returns (r: Node?)
      requires Valid() && !x.Key?
      modifies this, Nodes(tree)`left, Nodes(tree)`right
      ensures Valid() && InOrder(tree) == old(InOrder(tree)) && Nodes(tree) == old(Nodes(tree))
      ensures r == null <==> InOrder(tree) == []
      ensures r != null ==> r == InOrder(tree)[if x.NegInf? then 0 else |InOrder(tree)| - 1]
    {
      if root == null { return null; }
      Splay(x);
      EndAtRoot(x, tree);
      return root;
    }

    /** SPLAY_NEXT for a node of the tree. */
    method Next(elm: Node) returns (r: Node?)
      requires Valid() && elm in Nodes(tree)
      modifies this, Nodes(tree)`left, Nodes(tree)`right
      ensures Valid() && InOrder(tree) == old(InOrder(tree)) && Nodes(tree) == old(Nodes(tree))
      ensures Follows(InOrder(tree), elm, r)
    {
      assert tree.T?;
      Splay(Key(elm.key));
      KeyAtRoot(elm.key, tree);
      assert tree.n == elm;
      if elm.right == null {
        LeafNeighbour(Top, tree);
        return null;
      }
      assert allocated(Nodes(tree));
      r := Leftmost(elm.right, tree.r);
      FirstOf(tree.r);
      RightNeighbour(Top, tree);
    }

    /** Down the left links from `n`: the first node in order. */
    method Leftmost(n: Node, ghost t: Tree) returns (r: Node)
      requires t.T? && n == t.n && Spells(t)
      ensures InOrder(t) != [] && r == InOrder(t)[0]
    {
      r := n;
      ghost var u := t;
      while r.left != null
        invariant u.T? && r == u.n && Spells(u)
        invariant InOrder(u) <= InOrder(t)
        decreases u
      {
        FirstOf(u);
        u := u.l;
        r := r.left;
      }
      FirstOf(u);
    }

    /** SPLAY_INSERT. */
    method Insert(elm: Node) returns (r: Node?)
      requires Valid() && elm !in Nodes(tree)
      modifies this, Nodes(tree)`left, Nodes(tree)`right, elm`left, elm`right
      ensures Valid()
      ensures if r == null then Nodes(tree) == old(Nodes(tree)) + {elm}
              else Nodes(tree) == old(Nodes(tree)) && r in Nodes(tree) && r.key == elm.key
      ensures r == null <==> forall n :: n in old(Nodes(tree)) ==> n.key != elm.key
    {
      assert allocated(Nodes(tree));
      if root == null {
        elm.left, elm.right := null, null;
        root, tree := elm, T(Leaf, elm, Leaf);
        return null;
      }
      Splay(Key(elm.key));
      KeyAtRoot(elm.key, tree);
      var comp := Cmp(Key(elm.key), root);
      if comp == 0 { return root; }
      InsertTop(elm, comp);
      return null;
    }

    /** The relinking part of SPLAY_INSERT: the new node above the old root, which keeps one of its subtrees. */
    method InsertTop(elm: Node, comp: int)
      requires Valid() && root != null && elm !in Nodes(tree)
      requires SplitBy(Key(elm.key), tree) && comp == Cmp(Key(elm.key), root) != 0
      modifies this, root`left, root`right, elm`left, elm`right
      ensures Valid() && Nodes(tree) == old(Nodes(tree)) + {elm}
    {
      InsertedOrder(elm, tree);
      InsertedNodes(elm, tree);
      assert allocated(Nodes(tree));
      if comp < 0 {
        elm.left := root.left;
        elm.right := root;
        root.left := null;
      } else {
        elm.right := root.right;
        elm.left := root;
        root.right := null;
      }
      root := elm;
      tree := Inserted(elm, tree);
    }

    /** SPLAY_REMOVE. It returns its argument, which need not be the node it takes out. */
    method Remove(elm: Node) returns (r: Node?)
      requires Valid()
      modifies this, Nodes(tree)`left, Nodes(tree)`right
      ensures Valid()
      ensures forall n :: n in Nodes(tree) <==> n in old(Nodes(tree)) && n.key != elm.key
      ensures r == if exists n :: n in old(Nodes(tree)) && n.key == elm.key then elm else null
    {
      if root == null { return null; }
      Splay(Key(elm.key));
      KeyAtRoot(elm.key, tree);
      if Cmp(Key(elm.key), root) == 0 {
        RemoveTop(elm.key);
        return elm;
      }
      return null;
    }

    method RemoveTop(k: int)
      requires Valid() && root != null && root.key == k && SplitBy(Key(k), tree)
      modifies this, Nodes(tree)`left, Nodes(tree)`right
      ensures Valid()
      ensures Nodes(tree) == old(Nodes(tree)) - {old(root)}
    {
      ghost var t := tree;
      SubtreesSorted(t);
      if root.left == null {
        root, tree := root.right, t.r;
      } else {
        var tmp := root.right;
        root, tree := root.left, t.l;
        SplayLeft(k, tmp, t);
      }
    }

    /** The rest of the removal: the left subtree splayed once more takes the right one. */
    method SplayLeft(k: int, tmp: Node?, ghost t: Tree)
      requires Valid() && t.T? && Dist(t) && Sorted(InOrder(t)) && SplitBy(Key(k), t)
      requires tree == t.l && root != null && tmp == Root(t.r) && Spells(t.r)
      modifies this, Nodes(t.l)`left, Nodes(t.l)`right
      ensures Valid() && Nodes(tree) == Nodes(t.l) + Nodes(t.r)
    {
      assert allocated(Nodes(t.r)) && allocated(Nodes(t.l));
      Splay(Key(k));
      assert Spells(t.r);
      NothingRight(k, tree, t);
      root.right := tmp;
      assert Spells(t.r) && Spells(tree.l);
      JoinedOrder(k, tree, t);
      tree := T(tree.l, tree.n, t.r);
    }
  }

  // ---- What splitting at the target gives --------------------------------------------------------------------

  lemma KeyAtRoot(k: int, t: Tree)
    requires SplitBy(Key(k), t)
    ensures forall n :: n in Nodes(t) && n != t.n ==> n.key != k
  {
    forall n | n in Nodes(t) && n != t.n ensures n.key != k {
      InOrderNodes(t.l, n);
      InOrderNodes(t.r, n);
    }
  }

  lemma EndAtRoot(x: Target, t: Tree)
    requires SplitBy(x, t) && !x.Key?
    ensures t.n == InOrder(t)[if x.NegInf? then 0 else |InOrder(t)| - 1]
  {
    var u, v := InOrder(t.l), InOrder(t.r);
    assert u != [] ==> u[0] in u;
    assert v != [] ==> v[0] in v;
  }

  /** The listing of a tree starts with that of its left subtree, or with its root. */
  lemma FirstOf(t: Tree)
    requires t.T?
    ensures InOrder(t.l) <= InOrder(t)
    ensures InOrder(t) != [] && (t.l.Leaf? ==> InOrder(t)[0] == t.n)
  {
  }

  ghost function Inserted(elm: Node, t: Tree): Tree
    requires t.T?
  {
    if elm.key < t.n.key then T(t.l, elm, T(Leaf, t.n, t.r)) else T(T(t.l, t.n, Leaf), elm, t.r)
  }

  lemma SortedInsert(a: seq<Node>, elm: Node, b: seq<Node>)
    requires Sorted(a + b)
    requires (forall m :: m in a ==> m.key < elm.key) && (forall m :: m in b ==> elm.key < m.key)
    ensures Sorted(a + [elm] + b)
  {
    var c, d := a + b, a + [elm] + b;
    forall i, j | 0 <= i < j < |d| ensures d[i].key < d[j].key {
      if i < |a| { assert d[i] in a && d[i] == c[i]; }
      if j < |a| { assert d[j] == c[j]; }
      if i > |a| { assert d[i] == c[i - 1]; }
      if j > |a| { assert d[j] in b && d[j] == c[j - 1]; }
    }
  }

  lemma InsertedOrder(elm: Node, t: Tree)
    requires t.T? && Sorted(InOrder(t))
    requires SplitBy(Key(elm.key), t) && elm.key != t.n.key
    ensures Sorted(InOrder(Inserted(elm, t)))
  {
    var u, v := InOrder(t.l), InOrder(t.r);
    if elm.key < t.n.key {
      SortedInsertLeft(u, elm, t.n, v);
      assert InOrder(T(Leaf, t.n, t.r)) == [] + [t.n] + v == [t.n] + v;
    } else {
      SortedInsertRight(u, elm, t.n, v);
      assert InOrder(T(t.l, t.n, Leaf)) == u + [t.n] + [] == u + [t.n];
    }
  }

  lemma SortedInsertLeft(u: seq<Node>, elm: Node, n: Node, v: seq<Node>)
    requires Sorted(u + [n] + v) && elm.key < n.key
    requires (forall m :: m in u ==> Cmp(Key(elm.key), m) > 0) && (forall m :: m in v ==> Cmp(Key(elm.key), m) < 0)
    ensures Sorted(u + [elm] + ([n] + v))
  {
    assert u + [n] + v == u + ([n] + v);
    SortedInsert(u, elm, [n] + v);
  }

  lemma SortedInsertRight(u: seq<Node>, elm: Node, n: Node, v: seq<Node>)
    requires Sorted(u + [n] + v) && n.key < elm.key
    requires (forall m :: m in u ==> Cmp(Key(elm.key), m) > 0) && (forall m :: m in v ==> Cmp(Key(elm.key), m) < 0)
    ensures Sorted(u + [n] + [elm] + v)
  {
    SortedInsert(u + [n], elm, v);
  }

  lemma InsertedNodes(elm: Node, t: Tree)
    requires t.T? && Dist(t) && elm !in Nodes(t)
    ensures Dist(Inserted(elm, t)) && Nodes(Inserted(elm, t)) == Nodes(t) + {elm}
  {
  }

  lemma SubtreesSorted(t: Tree)
    requires t.T? && Sorted(InOrder(t))
    ensures Sorted(InOrder(t.l)) && Sorted(InOrder(t.r))
  {
    var c, u, v := InOrder(t), InOrder(t.l), InOrder(t.r);
    assert forall i :: 0 <= i < |u| ==> u[i] == c[i];
    assert forall i :: 0 <= i < |v| ==> v[i] == c[|u| + 1 + i];
  }

  /** Splayed for a key beyond all of its nodes, a tree has nothing right of its root. */
  lemma NothingRight(k: int, t': Tree, t: Tree)
    requires t.T? && SplitBy(Key(k), t) && SplitBy(Key(k), t') && InOrder(t') == InOrder(t.l)
    ensures t'.r == Leaf
  {
    assert t'.r.T? ==> t'.r.n in InOrder(t'.r);
    assert forall m :: m in InOrder(t'.r) ==> m in InOrder(t');
  }

  lemma JoinedOrder(k: int, t': Tree, t: Tree)
    requires t.T? && Dist(t) && Sorted(InOrder(t)) && Dist(t') && t'.T? && t'.r == Leaf
    requires InOrder(t') == InOrder(t.l) && Nodes(t') == Nodes(t.l)
    ensures Sorted(InOrder(T(t'.l, t'.n, t.r))) && Dist(T(t'.l, t'.n, t.r))
  {
    var u, v := InOrder(t.l), InOrder(t.r);
    assert InOrder(t'.l) + [t'.n] == u;
    SortedWithout(u, t.n, v);
  }
}
