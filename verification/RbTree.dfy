/**
 The red-black tree macros of tree.h on linked nodes: insertion, removal, their fix-up loops, and the
 look-ups and traversals. The links always spell a ghost tree in a context, the red nodes are those of a
 ghost set, and each case of the source makes the step that RbRules proves on ghost trees.
 */
module RbTree {
  import opened LinkedTree
  import opened Powers
  import opened RbRules

  method TwistLeft(x: Node, tmp: Node, ghost par: Node?, ghost t: Tree)
    requires Dist(t) && Links(t, par) && t.T? && t.n == x && t.r.T? && tmp == t.r.n
    modifies Nodes(t)`left, Nodes(t)`right, Nodes(t)`parent
    ensures Links(Rotated(Left, t), par)
  {
    ghost var b := t.r.l;
    assert Links(t.r, x) && Links(b, tmp) && Dist(t.r) && Dist(b);
    x.right := tmp.left;
    if tmp.left != null { tmp.left.parent := x; }
    tmp.parent := x.parent;
    tmp.left := x;
    x.parent := tmp;
    assert Links(b, x);
    assert Links(T(t.l, x, b), tmp);
  }

  method TwistRight(x: Node, tmp: Node, ghost par: Node?, ghost t: Tree)
    requires Dist(t) && Links(t, par) && t.T? && t.n == x && t.l.T? && tmp == t.l.n
    modifies Nodes(t)`left, Nodes(t)`right, Nodes(t)`parent
    ensures Links(Rotated(Right, t), par)
  {
    ghost var b := t.l.r;
    assert Links(t.l, x) && Links(b, tmp) && Dist(t.l) && Dist(b);
    x.left := tmp.right;
    if tmp.right != null { tmp.right.parent := x; }
    tmp.parent := x.parent;
    tmp.right := x;
    x.parent := tmp;
    assert Links(b, x);
    assert Links(T(b, x, t.r), tmp);
  }

  method Twist(s: Side, x: Node, tmp: Node, ghost par: Node?, ghost t: Tree)
    requires Dist(t) && Links(t, par) && t.T? && t.n == x && Sub(t, Opp(s)).T? && tmp == Sub(t, Opp(s)).n
    modifies Nodes(t)`left, Nodes(t)`right, Nodes(t)`parent
    ensures Links(Rotated(s, t), par)
  {
    if s.Left? { TwistLeft(x, tmp, par, t); } else { TwistRight(x, tmp, par, t); }
  }

  /** elm gets the fields of old_, and its children a new parent. */
  method Adopt(old_: Node, elm: Node, ghost par: Node?, ghost l: Tree, ghost r: Tree)
    requires Dist(T(l, old_, r)) && Links(T(l, old_, r), par) && l.T?
    requires elm !in Nodes(l) + Nodes(r) + {old_}
    modifies elm, Nodes(l)`parent, Nodes(r)`parent
    ensures Links(T(l, elm, r), par) && elm.red == old_.red
  {
    assert l.n in Nodes(l) && (r.T? ==> r.n in Nodes(r));
    assert Links(l, old_) && Links(r, old_) && Dist(l) && Dist(r);
    elm.left, elm.right, elm.parent, elm.red := old_.left, old_.right, old_.parent, old_.red;
    old_.left.parent := elm;
    if old_.right != null { old_.right.parent := elm; }
    assert Links(l, elm) && Links(r, elm);
  }

  /** The same with what lies above: it is not touched. */
  method TwistBelow(s: Side, x: Node, tmp: Node, ghost top: Node?, ghost c: Ctx, ghost t: Tree)
    requires Dist(t) && Links(t, Par(c)) && t.T? && t.n == x && Sub(t, Opp(s)).T? && tmp == Sub(t, Opp(s)).n
    requires CLinks(top, c, tmp) && CNodes(c) !! Nodes(t)
    modifies Nodes(t)`left, Nodes(t)`right, Nodes(t)`parent
    ensures CLinks(top, c, tmp) && Links(Rotated(s, t), Par(c))
  {
    assert allocated(CNodes(c));
    Twist(s, x, tmp, Par(c), t);
  }

  method AdoptBelow(old_: Node, elm: Node, ghost top: Node?, ghost c: Ctx, ghost l: Tree, ghost r: Tree)
    requires Dist(T(l, old_, r)) && Links(T(l, old_, r), Par(c)) && l.T?
    requires elm !in Nodes(l) + Nodes(r) + {old_}
    requires CLinks(top, c, elm) && CNodes(c) !! Nodes(l) + Nodes(r) + {elm}
    modifies elm, Nodes(l)`parent, Nodes(r)`parent
    ensures CLinks(top, c, elm) && Links(T(l, elm, r), Par(c)) && elm.red == old_.red
  {
    assert allocated(CNodes(c));
    Adopt(old_, elm, Par(c), l, r);
  }

  /** The only child of `elm` gets its parent. */
  method GiveParent(elm: Node, child: Node?, parent: Node?, ghost top: Node?, ghost c: Ctx, ghost x: Tree)
    requires Links(x, elm) && Dist(x) && child == Root(x)
    requires CLinks(top, c, elm) && CNodes(c) !! Nodes(x)
    modifies Nodes(x)`parent
    ensures Links(x, parent) && CLinks(top, c, elm)
  {
    assert allocated(CNodes(c));
    assert x.T? ==> x.n in Nodes(x);
    if child != null { child.parent := parent; }
  }

  class Head {
    var root: Node?
    ghost var tree: Tree
    ghost var reds: set<Node>

    /** The links spell t inside c, and the red nodes are those of reds. */
    ghost predicate Rep(c: Ctx, t: Tree, reds: set<Node>)
      reads this, CNodes(c), Nodes(t)
    {
      At(root, c, t) && Coloured(CNodes(c) + Nodes(t), reds)
    }

    /** RB_ROTATE_LEFT and RB_ROTATE_RIGHT, on the links. */
    method RotateLinks(s: Side, x: Node, ghost c: Ctx, ghost t: Tree) returns (tmp: Node)
      requires CLinks(root, c, x) && Links(t, Par(c)) && CDist(c) && Dist(t) && CNodes(c) !! Nodes(t)
      requires t.T? && t.n == x && Sub(t, Opp(s)).T?
      modifies this`root, CNodes(c)`left, CNodes(c)`right, Nodes(t)`left, Nodes(t)`right, Nodes(t)`parent
      ensures tmp == Sub(t, Opp(s)).n
      ensures CLinks(root, c, tmp) && Links(Rotated(s, t), Par(c))
    {
      assert allocated(Nodes(t)) && allocated(CNodes(c));
      assert c.In? ==> c.n in CNodes(c);
      tmp := x.Child(Opp(s));
      root := Relink(root, x, x.parent, tmp, c, t, Par(c));
      TwistBelow(s, x, tmp, root, c, t);
    }

    /** RB_ROTATE_LEFT and RB_ROTATE_RIGHT. */
    method Rotate(s: Side, x: Node, ghost c: Ctx, ghost t: Tree, ghost reds: set<Node>) returns (tmp: Node)
      requires Rep(c, t, reds) && t.T? && t.n == x && Sub(t, Opp(s)).T?
      modifies this`root, (CNodes(c) + Nodes(t))`left, (CNodes(c) + Nodes(t))`right, (CNodes(c) + Nodes(t))`parent
      ensures tmp == Sub(t, Opp(s)).n
      ensures Rep(c, Rotated(s, t), reds) && Nodes(Rotated(s, t)) == Nodes(t)
    {
      RotatedSep(s, c, t);
      assert allocated(Nodes(t)) && allocated(CNodes(c));
      tmp := RotateLinks(s, x, c, t);
    }

    // ---------------------------------------------------------------- insertion fix-up

    /** Two levels up. */
    lemma UpUp(c: Ctx, t: Tree)
      requires At(root, c, t) && c.In? && c.up.In?
      ensures At(root, c.up.up, Grand(c, t)) && CNodes(c.up.up) + Nodes(Grand(c, t)) == CNodes(c) + Nodes(t)
      ensures Apart(c, t) && (c.up.sib.T? ==> UncleApart(c, t))
      ensures {c.n, c.up.n} <= CNodes(c) && (c.up.sib.T? ==> c.up.sib.n in CNodes(c))
    {
      Up(root, c, t);
      Up(root, c.up, Mk(c.side, t, c.n, c.sib));
      SepApart(c, t);
    }

    /** The colour writes of the red-uncle case. */
    method PaintUncle(p: Node, g: Node, u: Node, ghost c: Ctx, ghost t: Tree, ghost reds: set<Node>)
      requires Rep(c, t, reds) && {p, g, u} <= CNodes(c) && p != g && u != g
      modifies {p, g, u}`red
      ensures Rep(c, t, reds - {p, u} + {g})
    {
      u.red := false;
      p.red := false;
      g.red := true;
    }

    /** Red uncle: repaint and move up. */
    method InsertRecolor(p: Node, g: Node, u: Node, ghost c: Ctx, ghost t: Tree, ghost h: nat, ghost reds: set<Node>)
      returns (ghost t': Tree, ghost reds': set<Node>)
      requires Rep(c, t, reds) && Clash(c, t, h, reds) && CRed(c, reds) && Red(c.up.sib, reds)
      requires p == c.n && g == c.up.n && u == c.up.sib.n
      modifies (CNodes(c) + Nodes(t))`red
      ensures Rep(c.up.up, t', reds') && Clash(c.up.up, t', h + 1, reds') && t' == Grand(c, t)
      ensures CNodes(c.up.up) + Nodes(t') == CNodes(c) + Nodes(t)
    {
      t' := Grand(c, t);
      reds' := reds - {p, u} + {g};
      UpUp(c, t);
      RedUncle(c, t, h, reds);
      PaintUncle(p, g, u, c, t, reds);
      UpUp(c, t);
    }

    /** Inner grandchild: rotate it outwards. */
    method InsertInner(s: Side, p: Node, ghost c: Ctx, ghost t: Tree, ghost h: nat, ghost reds: set<Node>)
      returns (ghost c': Ctx, ghost t': Tree)
      requires Rep(c, t, reds) && Clash(c, t, h, reds) && CRed(c, reds)
      requires p == c.n && s == c.up.side && c.side == Opp(s)
      modifies this`root, (CNodes(c) + Nodes(t))`left, (CNodes(c) + Nodes(t))`right, (CNodes(c) + Nodes(t))`parent
      ensures Rep(c', t', reds) && Clash(c', t', h, reds) && CRed(c', reds)
      ensures c' == InnerCtx(c, t) && t' == InnerTree(c, t)
      ensures CNodes(c') + Nodes(t') == CNodes(c) + Nodes(t)
    {
      c', t' := InnerCtx(c, t), InnerTree(c, t);
      ghost var tp := Mk(c.side, t, c.n, c.sib);
      Up(root, c, t);
      InnerClash(c, t, h, reds);
      assert CNodes(c.up) + Nodes(tp) == CNodes(c) + Nodes(t);
      var tmp := Rotate(s, p, c.up, tp, reds);
      Up(root, c', t');
      assert CNodes(c.up) + Nodes(tp) == CNodes(c') + Nodes(t');
    }

    /** The colour writes of the outer case. */
    method SetBlackRed(black: Node, red: Node, ghost c: Ctx, ghost t: Tree, ghost reds: set<Node>)
      requires Rep(c, t, reds) && {black, red} <= CNodes(c) && black != red
      modifies {black, red}`red
      ensures Rep(c, t, reds - {black} + {red})
    {
      black.red := false;
      red.red := true;
    }

    /** Outer grandchild with a black uncle: repaint and rotate the grandparent. */
    method InsertOuter(s: Side, p: Node, g: Node, ghost c: Ctx, ghost t: Tree, ghost h: nat, ghost reds: set<Node>)
      returns (ghost c': Ctx, ghost reds': set<Node>)
      requires Rep(c, t, reds) && Clash(c, t, h, reds) && CRed(c, reds)
      requires p == c.n && g == c.up.n && s == c.up.side && c.side == s && !Red(c.up.sib, reds)
      modifies this`root, CNodes(c) + Nodes(t)
      ensures c' == OuterCtx(c)
      ensures Rep(c', t, reds') && Clash(c', t, h, reds') && !CRed(c', reds')
      ensures CNodes(c') + Nodes(t) == CNodes(c) + Nodes(t)
    {
      c', reds' := OuterCtx(c), reds - {p} + {g};
      UpUp(c, t);
      OuterClash(c, t, h, reds);
      SetBlackRed(p, g, c, t, reds);
      UpUp(c, t);
      var tmp := Rotate(Opp(s), g, c.up.up, Grand(c, t), reds');
      Up(root, c', t);
      assert CNodes(c') + Nodes(t) == CNodes(c.up.up) + Nodes(Mk(c.up.side, t, c.n, c'.sib));
    }

    /** What the fix-up reads off the two nodes above a clash. */
    lemma ClashFacts(c: Ctx, t: Tree, h: nat, reds: set<Node>)
      requires Rep(c, t, reds) && Clash(c, t, h, reds)
      ensures t.n.parent == Par(c) && (c.In? ==> (c.n.red <==> CRed(c, reds)))
      ensures CRed(c, reds) ==>
        && c.up.In? && c.n.parent == c.up.n && c.n in CNodes(c) && c.up.n in CNodes(c)
        && c.n.Child(c.side) == t.n && c.n.Child(Opp(c.side)) != t.n
        && c.up.n.Child(c.up.side) == c.n && c.up.n.Child(Opp(c.up.side)) == Root(c.up.sib) != c.n
        && (c.up.sib.T? ==> c.up.sib.n in CNodes(c) && (c.up.sib.n.red <==> Red(c.up.sib, reds)))
    {
      if CRed(c, reds) {
        AboveFacts(root, c, t);
        Up(root, c, t);
        AboveFacts(root, c.up, Mk(c.side, t, c.n, c.sib));
      }
    }

    /** The loop of RB_INSERT_COLOR: pushes the red-red clash up until it is gone. */
    method PushClash(first: Node, ghost c0: Ctx, ghost t0: Tree, ghost h0: nat, ghost reds0: set<Node>)
      returns (ghost c: Ctx, ghost t: Tree, ghost h: nat, ghost reds: set<Node>)
      requires Rep(c0, t0, reds0) && Clash(c0, t0, h0, reds0) && first == t0.n
      modifies this`root, CNodes(c0) + Nodes(t0)
      ensures Rep(c, t, reds) && Clash(c, t, h, reds) && !CRed(c, reds)
      ensures InOrder(Plug(c, t)) == InOrder(Plug(c0, t0)) && CNodes(c) + Nodes(t) == CNodes(c0) + Nodes(t0)
    {
      c, t, h, reds := c0, t0, h0, reds0;
      var elm := first;
      ClashFacts(c, t, h, reds);
      while elm.parent != null && elm.parent.red
        invariant Rep(c, t, reds) && Clash(c, t, h, reds) && elm == t.n
        invariant elm.parent == Par(c) && (c.In? ==> (c.n.red <==> CRed(c, reds)))
        invariant InOrder(Plug(c, t)) == InOrder(Plug(c0, t0)) && CNodes(c) + Nodes(t) == CNodes(c0) + Nodes(t0)
        decreases CRed(c, reds), Depth(c)
      {
        elm, c, t, h, reds := ClashStep(elm, c, t, h, reds);
        ClashFacts(c, t, h, reds);
      }
    }

    /** One turn of the loop: the clash moves two levels up, or is rotated away. */
    method ClashStep(e0: Node, ghost c0: Ctx, ghost t0: Tree, ghost h0: nat, ghost reds0: set<Node>)
      returns (elm: Node, ghost c: Ctx, ghost t: Tree, ghost h: nat, ghost reds: set<Node>)
      requires Rep(c0, t0, reds0) && Clash(c0, t0, h0, reds0) && e0 == t0.n && CRed(c0, reds0)
      modifies this`root, CNodes(c0) + Nodes(t0)
      ensures Rep(c, t, reds) && Clash(c, t, h, reds) && elm == t.n
      ensures !CRed(c, reds) || Depth(c) < Depth(c0)
      ensures InOrder(Plug(c, t)) == InOrder(Plug(c0, t0)) && CNodes(c) + Nodes(t) == CNodes(c0) + Nodes(t0)
    {
      c, t, h, reds := c0, t0, h0, reds0;
      ClashFacts(c, t, h, reds);
      elm := e0;
      var parent := elm.parent;
      var gparent := parent.parent;
      var s := if parent == gparent.left then Left else Right;
      assert s == c.up.side;
      var tmp := gparent.Child(Opp(s));
      if tmp != null && tmp.red {
        t, reds := InsertRecolor(parent, gparent, tmp, c, t, h, reds);
        assert Depth(c) == 2 + Depth(c.up.up);
        c, h := c.up.up, h + 1;
        elm := gparent;
      } else {
        if parent.Child(Opp(s)) == elm {
          InnerOrder(c, t);
          c, t := InsertInner(s, parent, c, t, h, reds);
          parent, elm := elm, parent;
        }
        OuterOrder(c, t);
        c, reds := InsertOuter(s, parent, gparent, c, t, h, reds);
      }
    }

    /** RB_COLOR(root) = RB_BLACK. */
    method BlackenRoot(ghost w: Tree, ghost h: nat, ghost reds: set<Node>)
      returns (ghost h': nat)
      requires Rep(Top, w, reds) && RB(w, h, reds) && w.T?
      modifies {w.n}`red
      ensures Rep(Top, w, reds - {w.n}) && RB(w, h', reds - {w.n}) && !Red(w, reds - {w.n})
    {
      root.red := false;
      h' := Blackened(w, h, reds);
    }

    /** RB_INSERT_COLOR. */
    method InsertColor(elm: Node, ghost c: Ctx, ghost t: Tree, ghost h: nat, ghost reds: set<Node>)
      returns (ghost w: Tree, ghost h': nat, ghost reds': set<Node>)
      requires Rep(c, t, reds) && Clash(c, t, h, reds) && elm == t.n
      modifies this`root, CNodes(c) + Nodes(t)
      ensures Rep(Top, w, reds') && RB(w, h', reds') && !Red(w, reds')
      ensures InOrder(w) == InOrder(Plug(c, t)) && Nodes(w) == CNodes(c) + Nodes(t)
    {
      ghost var c', t';
      c', t', h', reds' := PushClash(elm, c, t, h, reds);
      w := Plug(c', t');
      PlugNodes(c', t');
      WholeAt(root, c', t');
      h' := PlugClash(c', t', h', reds');
      h' := BlackenRoot(w, h', reds');
      reds' := reds' - {w.n};
    }

    // ---------------------------------------------------------------- the tree

    /** A red-black search tree: what the links spell is sorted, balanced and black-rooted. */
    ghost predicate Valid()
      reads this, Nodes(tree)
    {
      && Rep(Top, tree, reds)
      && Sorted(InOrder(tree))
      && !Red(tree, reds)
      && exists h :: RB(tree, h, reds)
    }

    constructor ()
      ensures Valid() && tree == Leaf
    {
      root, tree, reds := null, Leaf, {};
      new;
      assert RB(tree, 0, reds);
    }

    /** RB_SET and the link from the parent: elm becomes a red leaf in the hole. */
    method Attach(elm: Node, parent: Node?, s: Side, ghost c: Ctx, ghost reds: set<Node>)
      requires Rep(c, Leaf, reds) && elm !in CNodes(c) && parent == Par(c) && (c.In? ==> s == c.side)
      modifies this`root, elm, CNodes(c)
      ensures Rep(c, T(Leaf, elm, Leaf), reds + {elm})
    {
      assert c.In? ==> c.n in CNodes(c);
      assert c.In? && c.sib.T? ==> c.sib.n in Nodes(c.sib);
      elm.parent := parent;
      elm.left, elm.right := null, null;
      elm.red := true;
      if parent != null {
        if s.Left? { parent.left := elm; } else { parent.right := elm; }
      } else {
        root := elm;
        assert CLinks(root, Top, elm) && c == Top;
      }
      assert CLinks(root, c, elm);
      assert Links(T(Leaf, elm, Leaf), Par(c));
    }

    /** The search loop of RB_INSERT: the equal node, or the empty place below `parent`. */
    method Descend(key: int) returns (tmp: Node?, parent: Node?, s: Side, ghost c: Ctx, ghost t: Tree)
      requires Valid()
      ensures At(root, c, t) && Root(t) == tmp && Plug(c, t) == tree && Splits(c, key)
      ensures tmp == null ==> parent == Par(c) && (c.In? ==> c.side == s)
      ensures tmp != null ==> tmp.key == key
    {
      tmp, parent, s := root, null, Left;
      c, t := Top, tree;
      while tmp != null
        invariant At(root, c, t) && Root(t) == tmp && Par(c) == parent && (c.In? ==> c.side == s)
        invariant Plug(c, t) == tree && Splits(c, key)
        decreases t
      {
        parent := tmp;
        if key == tmp.key {
          return;
        }
        s := if key < tmp.key then Left else Right;
        Down(root, c, t, s);
        StepDown(c, t, s, key);
        tmp := tmp.Child(s);
        c, t := Towards(c, t, s), Sub(t, s);
      }
    }

    /** RB_INSERT: adds elm, or returns the node that already has its key. */
    method Insert(elm: Node) returns (existing: Node?)
      requires Valid() && elm !in Nodes(tree)
      modifies this, Nodes(tree), elm
      ensures Valid()
      ensures existing == null ==>
        && Nodes(tree) == old(Nodes(tree)) + {elm}
        && forall n :: n in old(Nodes(tree)) ==> n.key != elm.key
      ensures existing != null ==>
        && existing in Nodes(tree) && existing.key == elm.key
        && unchanged(this) && unchanged(elm)
    {
      var parent, s;
      ghost var c, t;
      assert allocated(Nodes(tree));
      existing, parent, s, c, t := Descend(elm.key);
      PlugNodes(c, t);
      if existing != null {
        return;
      }
      NotThere(c, elm.key);
      AttachOrder(c, elm);
      ghost var h :| RB(tree, h, reds);
      h := SplitRB(c, Leaf, h, reds);
      AddLeaf(elm, parent, s, c);
    }

    /** From now on the tree is `w`. */
    ghost method Install(w: Tree, h: nat, reds': set<Node>)
      requires Rep(Top, w, reds') && RB(w, h, reds') && !Red(w, reds') && Sorted(InOrder(w))
      modifies this`tree, this`reds
      ensures Valid() && tree == w
    {
      tree, reds := w, reds';
    }

    /** The linking half of RB_INSERT. */
    method AddLeaf(elm: Node, parent: Node?, s: Side, ghost c: Ctx)
      requires Rep(c, Leaf, reds) && elm !in CNodes(c) && parent == Par(c) && (c.In? ==> s == c.side)
      requires Sorted(InOrder(Plug(c, T(Leaf, elm, Leaf))))
      requires CRB(c, 0, reds)
      modifies this, CNodes(c), elm
      ensures Valid()
      ensures Nodes(tree) == CNodes(c) + {elm}
    {
      ghost var w, h, reds';
      CRepaint(c, 0, reds, reds + {elm});
      Attach(elm, parent, s, c, reds);
      w, h, reds' := InsertColor(elm, c, T(Leaf, elm, Leaf), 0, reds + {elm});
      Install(w, h, reds');
    }

    // ---------------------------------------------------------------- removal fix-up

    ghost predicate LackAt(c: Ctx, t: Tree, h: nat, reds: set<Node>)
      reads this, CNodes(c), Nodes(t)
    {
      Rep(c, t, reds) && Lack(c, t, h, reds)
    }

    /** What the fix-up reads off the parent, the sibling and its children. */
    lemma LackFacts(c: Ctx, t: Tree, h: nat, reds: set<Node>)
      requires LackAt(c, t, h, reds) && c.In?
      ensures c.sib.T? && SibApart(c, t) && c.n.parent == Par(c.up)
      ensures c.n.Child(c.side) == Root(t) && c.n.Child(Opp(c.side)) == c.sib.n
      ensures Root(t) != c.sib.n
      ensures {c.n, c.sib.n} <= CNodes(c) && c.n != c.sib.n
      ensures c.sib.n.red <==> Red(c.sib, reds)
      ensures c.n.red <==> CRed(c, reds)
      ensures Red(c.sib, reds) ==> Sub(c.sib, c.side).T?
    {
      LackSibling(c, t, h, reds);
      SepSib(c, t);
      AboveFacts(root, c, t);
    }

    /** What it reads off the children of the sibling. */
    lemma NephewFacts(c: Ctx, t: Tree, h: nat, reds: set<Node>, s: Side)
      requires LackAt(c, t, h, reds) && c.In? && c.sib.T?
      ensures c.sib.n.Child(s) == Root(Sub(c.sib, s))
      ensures IsRed(Root(Sub(c.sib, s))) <==> Red(Sub(c.sib, s), reds)
      ensures Sub(c.sib, s).T? ==> Sub(c.sib, s).n in CNodes(c)
      ensures Sub(c.sib, s).T? ==> if s == c.side then NearApart(c, t) else FarApart(c, t)
    {
      SepSib(c, t);
      assert Links(c.sib, c.n);
      assert Sub(c.sib, s).T? ==> Sub(c.sib, s).n in Nodes(Sub(c.sib, s));
    }

    /** Case 1, colours: the sibling turns black, the parent red. */
    lemma RedSibFocus(c: Ctx, t: Tree, s: Side)
      requires c.In? && c.sib.T? && s == c.side
      ensures CNodes(c.up) + Nodes(Mk(s, t, c.n, c.sib)) == CNodes(c) + Nodes(t)
      ensures At(root, c, t) <==> At(root, c.up, Mk(s, t, c.n, c.sib))
      ensures At(root, RedSibCtx(c), t) <==> At(root, c.up, FarRedTree(c, t))
    {
      Up(root, c, t);
      Up(root, RedSibCtx(c), t);
      Up(root, RedSibCtx(c).up, Mk(s, t, c.n, RedSibCtx(c).sib));
    }

    /** Case 1 on the links: repaint, then rotate the parent below its sibling. */
    method TurnRedSib(s: Side, p: Node, w: Node, ghost c: Ctx, ghost t: Tree, ghost reds: set<Node>)
      requires Rep(c, t, reds) && c.In? && c.sib.T? && p == c.n && w == c.sib.n && s == c.side
      requires {p, w} <= CNodes(c) && p != w
      modifies this`root, CNodes(c) + Nodes(t)
      ensures Rep(RedSibCtx(c), t, reds - {w} + {p})
      ensures CNodes(RedSibCtx(c)) + Nodes(t) == CNodes(c) + Nodes(t)
    {
      SetBlackRed(w, p, c, t, reds);
      RedSibFocus(c, t, s);
      var tmp := Rotate(s, p, c.up, Mk(s, t, c.n, c.sib), reds - {w} + {p});
      RedSibFocus(c, t, s);
      assert CNodes(RedSibCtx(c)) + Nodes(t) == CNodes(c.up) + Nodes(FarRedTree(c, t));
    }

    /** Case 1: the sibling w is red. */
    method RemoveRedSib(s: Side, p: Node, w: Node, ghost c: Ctx, ghost t: Tree, ghost h: nat, ghost reds: set<Node>)
      returns (ghost c': Ctx, ghost reds': set<Node>)
      requires LackAt(c, t, h, reds) && c.In? && c.sib.T? && p == c.n && w == c.sib.n && s == c.side
      requires !Red(t, reds) && Red(c.sib, reds)
      modifies this`root, CNodes(c) + Nodes(t)
      ensures LackAt(c', t, h, reds') && c' == RedSibCtx(c) && !Red(t, reds') && !Red(c'.sib, reds') && CRed(c', reds')
      ensures CNodes(c') + Nodes(t) == CNodes(c) + Nodes(t)
    {
      c', reds' := RedSibCtx(c), reds - {w} + {p};
      LackFacts(c, t, h, reds);
      RedSib(c, t, h, reds);
      TurnRedSib(s, p, w, c, t, reds);
    }

    /** Case 2: a black sibling without red children turns red, the debt moves up. */
    method RemoveBlackSib(w: Node, ghost c: Ctx, ghost t: Tree, ghost h: nat, ghost reds: set<Node>)
      returns (ghost t': Tree, ghost h': nat, ghost reds': set<Node>)
      requires LackAt(c, t, h, reds) && c.In? && c.sib.T? && w == c.sib.n && !Red(t, reds)
      requires !Red(c.sib, reds) && !Red(c.sib.l, reds) && !Red(c.sib.r, reds)
      modifies {w}`red
      ensures LackAt(c.up, t', h', reds') && t' == Mk(c.side, t, c.n, c.sib)
      ensures CNodes(c.up) + Nodes(t') == CNodes(c) + Nodes(t)
    {
      t', reds' := Mk(c.side, t, c.n, c.sib), reds + {w};
      h' := if c.n in reds then h else h + 1;
      LackFacts(c, t, h, reds);
      BlackSib(c, t, h, reds);
      w.red := true;
      Up(root, c, t);
      assert CNodes(c.up) + Nodes(t') == CNodes(c) + Nodes(t);
    }

    /** Case 3: only the near child of the sibling is red; rotate it over its parent. */
    method RemoveNearRed(s: Side, w: Node, ghost c: Ctx, ghost t: Tree, ghost h: nat, ghost reds: set<Node>)
      returns (ghost c': Ctx, ghost reds': set<Node>)
      requires LackAt(c, t, h, reds) && c.In? && c.sib.T? && w == c.sib.n && s == c.side && !Red(t, reds)
      requires !Red(c.sib, reds) && Red(Sub(c.sib, s), reds) && !Red(Sub(c.sib, Opp(s)), reds)
      modifies this`root, CNodes(c) + Nodes(t)
      ensures c'.In? && c'.sib.T? && Sub(c'.sib, Opp(s)).T? && c' == c.(sib := NearRedSib(c))
      ensures LackAt(c', t, h, reds') && !Red(t, reds') && !Red(c'.sib, reds') && Red(Sub(c'.sib, Opp(s)), reds')
      ensures CNodes(c') + Nodes(t) == CNodes(c) + Nodes(t)
    {
      c' := c.(sib := NearRedSib(c));
      LackFacts(c, t, h, reds);
      NephewFacts(c, t, h, reds, s);
      var oleft := w.Child(s);
      reds' := reds - {oleft} + {w};
      NearRed(c, t, h, reds);
      SetBlackRed(oleft, w, c, t, reds);
      ghost var around := Towards(c.up, Mk(s, t, c.n, c.sib), Opp(s));
      Up(root, c, t);
      Up(root, around, c.sib);
      assert CNodes(around) + Nodes(c.sib) == CNodes(c) + Nodes(t);
      oleft := Rotate(Opp(s), w, around, c.sib, reds');
      Up(root, around, c'.sib);
      Up(root, c', t);
      assert CNodes(around) + Nodes(c'.sib) == CNodes(c') + Nodes(t);
    }

    method PaintFar(p: Node, w: Node, far: Node, ghost c: Ctx, ghost t: Tree, ghost reds: set<Node>)
      requires Rep(c, t, reds) && {p, w, far} <= CNodes(c) && p != w && far != p && far != w
      modifies {p, w, far}`red
      ensures Rep(c, t, (if p in reds then reds + {w} else reds - {w}) - {p, far})
    {
      w.red := p.red;
      p.red := false;
      far.red := false;
    }

    /** The rotation of case 4. */
    method TurnFar(s: Side, p: Node, ghost c: Ctx, ghost t: Tree, ghost reds: set<Node>)
      requires Rep(c, t, reds) && c.In? && c.sib.T? && p == c.n && s == c.side && Sub(c.sib, Opp(s)).T?
      modifies this`root, (CNodes(c) + Nodes(t))`left, (CNodes(c) + Nodes(t))`right, (CNodes(c) + Nodes(t))`parent
      ensures var t' := Plug(c.up, FarRedTree(c, t)); Rep(Top, t', reds) && Nodes(t') == CNodes(c) + Nodes(t)
    {
      ghost var tp := Mk(s, t, c.n, c.sib);
      Up(root, c, t);
      assert CNodes(c.up) + Nodes(tp) == CNodes(c) + Nodes(t);
      var tmp := Rotate(s, p, c.up, tp, reds);
      WholeAt(root, c.up, FarRedTree(c, t));
      PlugNodes(c.up, FarRedTree(c, t));
    }

    /** Case 4: the far child of the sibling is red; one rotation pays the debt. */
    method RemoveFarRed(s: Side, p: Node, w: Node, ghost c: Ctx, ghost t: Tree, ghost h: nat, ghost reds: set<Node>)
      returns (ghost t': Tree, ghost h': nat, ghost reds': set<Node>)
      requires LackAt(c, t, h, reds) && c.In? && c.sib.T? && p == c.n && w == c.sib.n && s == c.side && !Red(t, reds)
      requires !Red(c.sib, reds) && Red(Sub(c.sib, Opp(s)), reds)
      modifies this`root, CNodes(c) + Nodes(t)
      ensures t' == Plug(c.up, FarRedTree(c, t))
      ensures Rep(Top, t', reds') && RB(t', h', reds') && !Red(t', reds')
      ensures Nodes(t') == CNodes(c) + Nodes(t)
    {
      t', reds' := Plug(c.up, FarRedTree(c, t)), FarReds(c, reds);
      LackFacts(c, t, h, reds);
      NephewFacts(c, t, h, reds, Opp(s));
      h' := FarRed(c, t, h, reds);
      h' := PlugRB(c.up, FarRedTree(c, t), h', reds');
      PaintFar(p, w, w.Child(Opp(s)), c, t, reds);
      TurnFar(s, p, c, t, reds');
    }

    /** The loop of RB_REMOVE_COLOR: moves the missing black node up until it can be paid for. */
    method PushLack(p0: Node?, e0: Node?, ghost c0: Ctx, ghost t0: Tree, ghost h0: nat, ghost reds0: set<Node>)
      returns (elm: Node?, ghost c: Ctx, ghost t: Tree, ghost h: nat, ghost reds: set<Node>)
      requires LackAt(c0, t0, h0, reds0) && p0 == Par(c0) && e0 == Root(t0)
      modifies this`root, CNodes(c0) + Nodes(t0)
      ensures LackAt(c, t, h, reds) && elm == Root(t) && (Red(t, reds) || c.Top?)
      ensures InOrder(Plug(c, t)) == InOrder(Plug(c0, t0)) && CNodes(c) + Nodes(t) == CNodes(c0) + Nodes(t0)
    {
      c, t, h, reds := c0, t0, h0, reds0;
      elm := e0;
      var parent := p0;
      RootFacts(root, c, elm);
      while !IsRed(elm) && elm != root
        invariant LackAt(c, t, h, reds) && elm == Root(t) && parent == Par(c)
        invariant (IsRed(elm) <==> Red(t, reds)) && (elm == root <==> c.Top?)
        invariant InOrder(Plug(c, t)) == InOrder(Plug(c0, t0)) && CNodes(c) + Nodes(t) == CNodes(c0) + Nodes(t0)
        decreases !Red(t, reds) && c.In?, Depth(c)
      {
        elm, parent, c, t, h, reds := LackStep(elm, parent, c, t, h, reds);
        RootFacts(root, c, elm);
      }
    }

    /** One turn of the loop: the debt moves one level up or is paid. */
    method LackStep(e0: Node?, p0: Node, ghost c0: Ctx, ghost t0: Tree, ghost h0: nat, ghost reds0: set<Node>)
      returns (elm: Node?, parent: Node?, ghost c: Ctx, ghost t: Tree, ghost h: nat, ghost reds: set<Node>)
      requires LackAt(c0, t0, h0, reds0) && c0.In? && p0 == c0.n && e0 == Root(t0) && !Red(t0, reds0)
      modifies this`root, CNodes(c0) + Nodes(t0)
      ensures LackAt(c, t, h, reds) && elm == Root(t) && parent == Par(c)
      ensures Depth(c) < Depth(c0) || Red(t, reds) || c.Top?
      ensures InOrder(Plug(c, t)) == InOrder(Plug(c0, t0)) && CNodes(c) + Nodes(t) == CNodes(c0) + Nodes(t0)
    {
      c, t, h, reds := c0, t0, h0, reds0;
      LackFacts(c, t, h, reds);
      var s := if p0.left == e0 then Left else Right;
      var tmp := p0.Child(Opp(s));
      if tmp.red {
        RedSibOrder(c, t);
        c, reds := RemoveRedSib(s, p0, tmp, c, t, h, reds);
      }
      elm, parent, c, t, h, reds := BlackSibStep(s, e0, p0, c, t, h, reds);
    }

    /** A nephew is red: with a turn or two the level is paid for. */
    method FarStep(s: Side, p: Node, ghost c0: Ctx, ghost t0: Tree, ghost h0: nat, ghost reds0: set<Node>)
      returns (ghost t: Tree, ghost h: nat, ghost reds: set<Node>)
      requires LackAt(c0, t0, h0, reds0) && c0.In? && p == c0.n && s == c0.side && c0.sib.T?
      requires !Red(t0, reds0) && !Red(c0.sib, reds0)
      requires Red(Sub(c0.sib, s), reds0) || Red(Sub(c0.sib, Opp(s)), reds0)
      modifies this`root, CNodes(c0) + Nodes(t0)
      ensures LackAt(Top, t, h, reds)
      ensures InOrder(t) == InOrder(Plug(c0, t0)) && Nodes(t) == CNodes(c0) + Nodes(t0)
    {
      ghost var c;
      c, t, h, reds := c0, t0, h0, reds0;
      LackFacts(c, t, h, reds);
      NephewFacts(c, t, h, reds, Opp(s));
      var tmp := p.Child(Opp(s));
      if !IsRed(tmp.Child(Opp(s))) {
        NearOrder(c, t);
        c, reds := RemoveNearRed(s, tmp, c, t, h, reds);
        LackFacts(c, t, h, reds);
        tmp := p.Child(Opp(s));
      }
      FarOrder(c, t);
      t, h, reds := RemoveFarRed(s, p, tmp, c, t, h, reds);
    }

    /** One turn of the loop past the red sibling: the debt moves one level up or is paid. */
    method BlackSibStep(s: Side, e0: Node?, p0: Node,
                        ghost c0: Ctx, ghost t0: Tree, ghost h0: nat, ghost reds0: set<Node>)
      returns (elm: Node?, parent: Node?, ghost c: Ctx, ghost t: Tree, ghost h: nat, ghost reds: set<Node>)
      requires LackAt(c0, t0, h0, reds0) && c0.In? && p0 == c0.n && e0 == Root(t0) && s == c0.side
      requires !Red(t0, reds0) && !Red(c0.sib, reds0)
      modifies this`root, CNodes(c0) + Nodes(t0)
      ensures LackAt(c, t, h, reds) && elm == Root(t) && parent == Par(c)
      ensures (c == c0.up && (c0.n in reds0 ==> Red(t, reds))) || c.Top?
      ensures InOrder(Plug(c, t)) == InOrder(Plug(c0, t0)) && CNodes(c) + Nodes(t) == CNodes(c0) + Nodes(t0)
    {
      c, t, h, reds := c0, t0, h0, reds0;
      LackFacts(c, t, h, reds);
      NephewFacts(c, t, h, reds, s);
      NephewFacts(c, t, h, reds, Opp(s));
      var tmp := p0.Child(Opp(s));
      if !IsRed(tmp.Child(s)) && !IsRed(tmp.Child(Opp(s))) {
        t, h, reds := RemoveBlackSib(tmp, c, t, h, reds);
        c := c.up;
        elm := p0;
        parent := elm.parent;
      } else {
        t, h, reds := FarStep(s, p0, c, t, h, reds);
        c := Top;
        elm := root;
        parent := null;
      }
    }

    /** RB_REMOVE_COLOR. */
    method RemoveColor(p0: Node?, e0: Node?, ghost c0: Ctx, ghost t0: Tree, ghost h0: nat, ghost reds0: set<Node>)
      returns (ghost w: Tree, ghost h: nat, ghost reds: set<Node>)
      requires LackAt(c0, t0, h0, reds0) && p0 == Par(c0) && e0 == Root(t0)
      modifies this`root, CNodes(c0) + Nodes(t0)
      ensures Rep(Top, w, reds) && RB(w, h, reds) && !Red(w, reds)
      ensures InOrder(w) == InOrder(Plug(c0, t0)) && Nodes(w) == CNodes(c0) + Nodes(t0)
    {
      var elm;
      ghost var c, t;
      elm, c, t, h, reds := PushLack(p0, e0, c0, t0, h0, reds0);
      w := Plug(c, t);
      PlugNodes(c, t);
      h := PayDebt(c, t, h, reds);
      WholeAt(root, c, t);
      PaintBlack(elm, w, reds);
      reds := reds - {elm};
    }

    method PaintBlack(elm: Node?, ghost w: Tree, ghost reds: set<Node>)
      requires Rep(Top, w, reds) && (elm != null ==> elm in Nodes(w))
      modifies {elm}`red
      ensures Rep(Top, w, reds - {elm})
    {
      if elm != null { elm.red := false; }
    }

    // ---------------------------------------------------------------- removal

    /** Takes a node with at most one child out of the links. */
    method Unlink(elm: Node, child: Node?, parent: Node?,
                  ghost c: Ctx, ghost t: Tree, ghost x: Tree, ghost reds: set<Node>)
      requires Rep(c, t, reds) && t.T? && t.n == elm && parent == Par(c) && child == Root(x)
      requires t == T(Leaf, elm, x) || t == T(x, elm, Leaf)
      modifies this`root, CNodes(c)`left, CNodes(c)`right, Nodes(x)`parent
      ensures Rep(c, x, reds)
    {
      assert c.In? ==> c.n in CNodes(c);
      assert Links(x, elm) && Dist(x);
      assert allocated(Nodes(x)) && allocated(CNodes(c));
      GiveParent(elm, child, parent, root, c, x);
      root := Relink(root, elm, parent, child, c, x, Par(c));
    }

    method ReplaceLinks(old_: Node, elm: Node, ghost c: Ctx, ghost l: Tree, ghost r: Tree)
      requires CLinks(root, c, old_) && Links(T(l, old_, r), Par(c)) && CDist(c) && Dist(T(l, old_, r))
      requires CNodes(c) !! Nodes(T(l, old_, r)) && l.T?
      requires elm !in CNodes(c) + Nodes(l) + Nodes(r) + {old_}
      modifies this`root, elm, CNodes(c)`left, CNodes(c)`right, Nodes(l)`parent, Nodes(r)`parent
      ensures CLinks(root, c, elm) && Links(T(l, elm, r), Par(c)) && elm.red == old_.red
    {
      assert allocated(Nodes(T(l, old_, r))) && allocated(CNodes(c));
      assert c.In? ==> c.n in CNodes(c);
      root := Relink(root, old_, old_.parent, elm, c, T(l, old_, r), Par(c));
      AdoptBelow(old_, elm, root, c, l, r);
    }

    /** elm takes the place, the links and the colour of old_. */
    method Replace(old_: Node, elm: Node, ghost c: Ctx, ghost l: Tree, ghost r: Tree, ghost reds: set<Node>)
      requires Rep(c, T(l, old_, r), reds) && l.T?
      requires elm !in CNodes(c) + Nodes(l) + Nodes(r) + {old_}
      modifies this`root, elm, CNodes(c)`left, CNodes(c)`right, Nodes(l)`parent, Nodes(r)`parent
      ensures Rep(c, T(l, elm, r), if old_ in reds then reds + {elm} else reds - {elm})
    {
      RenameSep(c, l, old_, elm, r);
      assert allocated(Nodes(T(l, old_, r))) && allocated(CNodes(c));
      ReplaceLinks(old_, elm, c, l, r);
    }

    /** The successor: the leftmost node of the right subtree. */
    method Successor(elm: Node, ghost c: Ctx, ghost t: Tree) returns (y: Node, ghost d: Ctx, ghost x: Tree)
      requires At(root, c, t) && t.T? && t.n == elm && t.r.T?
      ensures AllLeft(d) && Plug(d, T(Leaf, y, x)) == t.r
      ensures At(root, Via(d, c, t.l, elm), T(Leaf, y, x))
    {
      y := elm.right;
      d := Top;
      ghost var u := t.r;
      ghost var o := In(c, Right, elm, t.l);
      Up(root, o, u);
      while y.left != null
        invariant AllLeft(d) && Plug(d, u) == t.r && At(root, Join(d, o), u) && u.T? && u.n == y
        decreases u
      {
        Down(root, Join(d, o), u, Left);
        d := Towards(d, u, Left);
        u := u.l;
        y := y.left;
      }
      x := u.r;
    }

    /** What the end of RB_REMOVE does at its colour label: repay a black node, if one is gone. */
    method Settle(red: bool, parent: Node?, child: Node?,
                  ghost c: Ctx, ghost x: Tree, ghost h: nat, ghost reds1: set<Node>)
      requires Rep(c, x, reds1) && parent == Par(c) && child == Root(x) && Sorted(InOrder(Plug(c, x)))
      requires if red then RB(x, h, reds1) && !Red(x, reds1) && CRB(c, h, reds1) else Lack(c, x, h, reds1)
      modifies this, CNodes(c) + Nodes(x)
      ensures Valid() && Nodes(tree) == CNodes(c) + Nodes(x)
    {
      ghost var w, h', reds';
      if !red {
        w, h', reds' := RemoveColor(parent, child, c, x, h, reds1);
      } else {
        w, reds' := Plug(c, x), reds1;
        h' := PlugRB(c, x, h, reds1);
        PlugNodes(c, x);
        WholeAt(root, c, x);
      }
      Install(w, h', reds');
    }

    /** RB_REMOVE of a node with at most one child. */
    method RemoveOuter(elm: Node, child: Node?, ghost c: Ctx, ghost t: Tree, ghost x: Tree)
      requires Valid() && Plug(c, t) == tree && t.T? && t.n == elm
      requires (t == T(Leaf, elm, x) || t == T(x, elm, Leaf)) && child == Root(x)
      modifies this, Nodes(tree)
      ensures Valid() && Nodes(tree) == old(Nodes(tree)) - {elm}
    {
      WholeAt(root, c, t);
      PlugNodes(c, t);
      SpliceOrder(c, t, x);
      SpliceNodes(c, t, x);
      ghost var h :| RB(tree, h, reds);
      h := SpliceRB(c, t, x, h, reds);
      var parent, red := elm.parent, elm.red;
      Unlink(elm, child, parent, c, t, x, reds);
      Settle(red, parent, child, c, x, h, reds);
    }

    /** Seen from old_'s place, or from the place below it. */
    lemma ViaRep(d: Ctx, c: Ctx, l: Tree, n: Node, x: Tree, reds: set<Node>)
      ensures CNodes(Via(d, c, l, n)) + Nodes(x) == CNodes(c) + Nodes(T(l, n, Plug(d, x)))
      ensures Rep(Via(d, c, l, n), x, reds) <==> Rep(c, T(l, n, Plug(d, x)), reds)
    {
      var o := In(c, Right, n, l);
      JoinPlug(d, o, x);
      PlugNodes(d, x);
      WholeAt(root, Join(d, o), x);
      WholeAt(root, o, Plug(d, x));
      Up(root, o, Plug(d, x));
    }

    /** Unlinks the successor elm of old_ and puts it in old_'s place. */
    method Exchange(old_: Node, elm: Node, child: Node?, parent: Node?,
                    ghost d: Ctx, ghost c: Ctx, ghost l: Tree, ghost x: Tree, ghost reds: set<Node>)
      requires Rep(Via(d, c, l, old_), T(Leaf, elm, x), reds) && l.T? && child == Root(x)
      requires parent == Par(Via(d, c, l, old_))
      modifies this`root, CNodes(Via(d, c, l, old_)) + {elm} + Nodes(x)
      ensures Rep(Via(d, c, l, elm), x, if old_ in reds then reds + {elm} else reds - {elm})
    {
      Unlink(elm, child, parent, Via(d, c, l, old_), T(Leaf, elm, x), x, reds);
      ViaRep(d, c, l, old_, x, reds);
      Replace(old_, elm, c, l, Plug(d, x), reds);
      ViaRep(d, c, l, elm, x, if old_ in reds then reds + {elm} else reds - {elm});
    }

    /** RB_REMOVE once the successor elm of old_ is found. */
    method RemoveVia(old_: Node, elm: Node, ghost d: Ctx, ghost c: Ctx, ghost l: Tree, ghost x: Tree)
      requires Valid() && Rep(Via(d, c, l, old_), T(Leaf, elm, x), reds) && l.T? && AllLeft(d)
      requires Sep(c, T(l, old_, Plug(d, T(Leaf, elm, x))))
      requires tree == Plug(Via(d, c, l, old_), T(Leaf, elm, x))
      modifies this, CNodes(Via(d, c, l, old_)) + {elm} + Nodes(x)
      ensures Valid() && Nodes(tree) == old(Nodes(tree)) - {old_}
    {
      ViaSep(d, c, l, old_, elm, x);
      ViaSepLeaf(d, c, l, old_, elm, x);
      ghost var h := ReplaceFacts(d, c, l, old_, elm, x, tree, reds);
      ViaNodes(d, c, l, old_, x);
      ViaNodes(d, c, l, elm, x);
      ghost var reds' := if old_ in reds then reds + {elm} else reds - {elm};
      var child, parent, red := elm.right, elm.parent, elm.red;
      Exchange(old_, elm, child, parent, d, c, l, x, reds);
      if parent == old_ { parent := elm; }
      Settle(red, parent, child, Via(d, c, l, elm), x, h, reds');
    }

    /** RB_REMOVE of a node with two children: its successor takes its place. */
    method RemoveInner(old_: Node, ghost c: Ctx, ghost t: Tree)
      requires Valid() && Plug(c, t) == tree && t.T? && t.n == old_ && t.l.T? && t.r.T?
      modifies this, Nodes(tree)
      ensures Valid() && Nodes(tree) == old(Nodes(tree)) - {old_}
    {
      WholeAt(root, c, t);
      PlugNodes(c, t);
      assert allocated(Nodes(tree));
      var elm;
      ghost var d, x;
      elm, d, x := Successor(old_, c, t);
      JoinPlug(d, In(c, Right, old_, t.l), T(Leaf, elm, x));
      PlugNodes(Via(d, c, t.l, old_), T(Leaf, elm, x));
      RemoveVia(old_, elm, d, c, t.l, x);
    }

    /** RB_REMOVE: takes the node out and hands it back. */
    method Remove(elm: Node) returns (removed: Node)
      requires Valid() && elm in Nodes(tree)
      modifies this, Nodes(tree)
      ensures Valid() && Nodes(tree) == old(Nodes(tree)) - {elm} && removed == elm
    {
      removed := elm;
      ghost var c, t := Locate(Top, tree, elm);
      WholeAt(root, c, t);
      if elm.left == null {
        RemoveOuter(elm, elm.right, c, t, t.r);
      } else if elm.right == null {
        RemoveOuter(elm, elm.left, c, t, t.l);
      } else {
        RemoveInner(elm, c, t);
      }
    }

    // ---------------------------------------------------------------- reading

    /** RB_FIND: the node with the key, null if there is none. */
    method Find(key: int) returns (r: Node?)
      requires Valid()
      ensures r != null ==> r in Nodes(tree) && r.key == key
      ensures r == null ==> forall n :: n in Nodes(tree) ==> n.key != key
    {
      r := root;
      ghost var c, t := Top, tree;
      while r != null
        invariant At(root, c, t) && Root(t) == r && Plug(c, t) == tree && Splits(c, key)
        decreases t
      {
        if key == r.key {
          PlugNodes(c, t);
          return;
        }
        var s := if key < r.key then Left else Right;
        Down(root, c, t, s);
        StepDown(c, t, s, key);
        r := r.Child(s);
        c, t := Towards(c, t, s), Sub(t, s);
      }
      NotThere(c, key);
    }

    /** RB_NFIND: the node with the least key that is not below `key`. */
    method NFind(key: int) returns (res: Node?)
      requires Valid()
      ensures res != null ==> res in Nodes(tree) && key <= res.key
      ensures forall n :: n in Nodes(tree) && key <= n.key ==> res != null && res.key <= n.key
    {
      var tmp := root;
      res := null;
      ghost var c, t := Top, tree;
      while tmp != null
        invariant At(root, c, t) && Root(t) == tmp && Plug(c, t) == tree && Splits(c, key)
        invariant res == if After(c) == [] then null else After(c)[0]
        decreases t
      {
        if key == tmp.key {
          PlugNodes(c, t);
          return tmp;
        }
        var s := if key < tmp.key then Left else Right;
        if s.Left? { res := tmp; }
        Down(root, c, t, s);
        StepDown(c, t, s, key);
        tmp := tmp.Child(s);
        c, t := Towards(c, t, s), Sub(t, s);
      }
      NFindNext(c, key);
    }

    /** RB_MIN and RB_MAX: the ends of the listing. */
    method MinMax(val: int) returns (parent: Node?)
      requires Valid()
      ensures parent == null <==> tree == Leaf
      ensures parent != null ==> parent in Nodes(tree)
      ensures parent != null && val < 0 ==> parent == InOrder(tree)[0]
      ensures parent != null && val >= 0 ==> parent == InOrder(tree)[|InOrder(tree)| - 1]
    {
      var tmp := root;
      parent := null;
      var s := if val < 0 then Left else Right;
      ghost var c, t := Top, tree;
      while tmp != null
        invariant At(root, c, t) && Root(t) == tmp && Plug(c, t) == tree && Par(c) == parent
        invariant if s.Left? then AllLeft(c) else AllRight(c)
        decreases t
      {
        parent := tmp;
        Down(root, c, t, s);
        tmp := tmp.Child(s);
        c, t := Towards(c, t, s), Sub(t, s);
      }
      if c.In? {
        PlugNodes(c, Leaf);
        if s.Left? { FirstInOrder(c.up, c.n, c.sib); } else { LastInOrder(c.up, c.n, c.sib); }
      }
    }

    /** RB_NEXT. */
    method Next(node: Node) returns (elm: Node?)
      requires Valid() && node in Nodes(tree)
      ensures Follows(InOrder(tree), node, elm)
    {
      ghost var c, t := Locate(Top, tree, node);
      WholeAt(root, c, t);
      PlugOrder(c, t);
      elm := node;
      if elm.right != null {
        ghost var x, d;
        elm, d, x := Successor(node, c, t);
        FirstInOrder(d, elm, x);
        RightNeighbour(c, t);
      } else {
        LeafNeighbour(c, t);
        if elm.parent != null && elm == elm.parent.left {
          AboveFacts(root, c, t);
          elm := elm.parent;
        } else {
          ghost var c', t' := c, t;
          while elm.parent != null && elm == elm.parent.right
            invariant At(root, c', t') && t'.T? && t'.n == elm && After(c') == After(c)
            invariant c'.In? && c'.side.Left? ==> elm != elm.parent.right
            decreases c'
          {
            AboveFacts(root, c', t');
            Up(root, c', t');
            elm := elm.parent;
            c', t' := c'.up, Mk(c'.side, t', c'.n, c'.sib);
          }
          elm := elm.parent;
        }
      }
    }

    /** RB_PREV. */
    method Prev(node: Node) returns (elm: Node?)
      requires Valid() && node in Nodes(tree)
      ensures Leads(InOrder(tree), node, elm)
    {
      ghost var c, t := Locate(Top, tree, node);
      WholeAt(root, c, t);
      PlugOrder(c, t);
      elm := node;
      if elm.left != null {
        LeftNeighbour(c, t) by { LastOf(t.l); }
        assert allocated(Nodes(tree));
        elm := Rightmost(elm.left, t.l, node);
      } else {
        LeftLeafNeighbour(c, t);
        if elm.parent != null && elm == elm.parent.right {
          AboveFacts(root, c, t);
          elm := elm.parent;
        } else {
          ghost var c', t' := c, t;
          while elm.parent != null && elm == elm.parent.left
            invariant At(root, c', t') && t'.T? && t'.n == elm && Before(c') == Before(c)
            invariant c'.In? && c'.side.Right? ==> elm != elm.parent.left
            decreases c'
          {
            AboveFacts(root, c', t');
            Up(root, c', t');
            elm := elm.parent;
            c', t' := c'.up, Mk(c'.side, t', c'.n, c'.sib);
          }
          elm := elm.parent;
        }
      }
    }

    /** Down the right links: the last node in order. */
    method Rightmost(n: Node, ghost t: Tree, ghost par: Node) returns (r: Node)
      requires t.T? && n == t.n && Links(t, par)
      ensures InOrder(t) != [] && r == InOrder(t)[|InOrder(t)| - 1]
    {
      r := n;
      ghost var u, p := t, par;
      while r.right != null
        invariant u.T? && r == u.n && Links(u, p)
        invariant InOrder(u) != [] && InOrder(t) != []
        invariant InOrder(u)[|InOrder(u)| - 1] == InOrder(t)[|InOrder(t)| - 1]
        decreases u
      {
        LastOf(u);
        LastOf(u.r);
        p, u := u.n, u.r;
        r := r.right;
      }
      LastOf(u);
    }

    /** RB_FOREACH: from RB_MIN by RB_NEXT, the nodes in ascending order. */
    method Foreach() returns (s: seq<Node>)
      requires Valid()
      ensures s == InOrder(tree)
    {
      s := [];
      assert allocated(Nodes(tree));
      var x := MinMax(-1);
      ghost var all := InOrder(tree);
      while x != null
        invariant Valid()
        invariant |s| <= |all| && s == all[..|s|]
        invariant x == if |s| < |all| then all[|s|] else null
        decreases |all| - |s|
      {
        s := s + [x];
        InOrderNodes(tree, x);
        assert allocated(Nodes(tree));
        var y := Next(x);
        FollowsSorted(all, x, y, |s| - 1);
        x := y;
      }
    }

    /** The height of the tree is at most 2 lg(n + 1). */
    lemma Balanced()
      requires Valid()
      ensures exists k: nat :: Height(tree) <= 2 * k && Pow2(k) <= |InOrder(tree)| + 1
    {
      var h :| RB(tree, h, reds);
      HeightBound(tree, h, reds);
    }
  }

  /** The links spell one tree only: the ghost tree is no more than what is in memory. */
  lemma {:induction false} SpellOnce(t: Tree, t': Tree, par: Node?)
    requires Links(t, par) && Links(t', par) && Root(t) == Root(t')
    ensures t == t'
  {
    if t.T? {
      SpellOnce(t.l, t'.l, t.n);
      SpellOnce(t.r, t'.r, t.n);
    }
  }
}
