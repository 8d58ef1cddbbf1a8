/**
 The binary min-heap behind the timers (heap-inl.h): a complete binary tree of linked nodes.
 Positions are counted in level order from 1, so the children of position p are 2p and 2p + 1.
 `less_than` is the order of the keys; equal keys may occur.
 */
module TimerHeap {
  import opened LinkedTree
  import opened Powers

  // ---------------------------------------------------------------- complete trees

  /** t is what a complete tree of n nodes has at position p and below. */
  ghost predicate Shape(t: Tree, p: nat, n: nat)
    decreases t
  {
    if p > n then t.Leaf? else t.T? && Shape(t.l, 2 * p, n) && Shape(t.r, 2 * p + 1, n)
  }

  function Child(p: nat, s: Side): nat {
    if s.Left? then 2 * p else 2 * p + 1
  }

  /** The position of the hole. */
  ghost function Pos(c: Ctx): nat {
    if c.Top? then 1 else Child(Pos(c.up), c.side)
  }

  ghost predicate CShape(c: Ctx, n: nat) {
    c.In? ==> Pos(c.up) <= n && Shape(c.sib, Child(Pos(c.up), Opp(c.side)), n) && CShape(c.up, n)
  }

  lemma {:induction false} PlugShape(c: Ctx, t: Tree, n: nat)
    ensures Shape(Plug(c, t), 1, n) <==> Shape(t, Pos(c), n) && CShape(c, n)
  {
    if c.In? { PlugShape(c.up, Mk(c.side, t, c.n, c.sib), n); }
  }

  /** Position p is m or one of the positions above it. */
  ghost predicate Above(p: nat, m: nat) {
    p == m || (0 < m && Above(p, m / 2))
  }

  lemma {:induction false} AboveParent(p: nat, s: Side, m: nat)
    requires 0 < p && Above(Child(p, s), m)
    ensures Above(p, m)
  {
    if Child(p, s) != m { AboveParent(p, s, m / 2); }
  }

  lemma {:induction false} AboveLeast(p: nat, m: nat)
    requires Above(p, m)
    ensures p <= m
  {
    if p != m { AboveLeast(p, m / 2); }
  }

  lemma {:induction false} OneSide(p: nat, m: nat)
    requires 0 < p && Above(2 * p, m)
    ensures !Above(2 * p + 1, m)
  {
    if Above(2 * p + 1, m) {
      AboveLeast(2 * p + 1, m);
      AboveLeast(2 * p, m);
      if m == 2 * p + 1 {
        assert Above(2 * p, m / 2) && m / 2 == p;
        AboveLeast(2 * p, p);
      } else {
        OneSide(p, m / 2);
      }
    }
  }

  /** A subtree away from the path to position n + 1 does not notice that the tree grew. */
  lemma {:induction false} ShapeAway(t: Tree, p: nat, n: nat)
    requires 0 < p && !Above(p, n + 1)
    ensures Shape(t, p, n) <==> Shape(t, p, n + 1)
    decreases t
  {
    if t.T? {
      if Above(2 * p, n + 1) { AboveParent(p, Left, n + 1); }
      if Above(2 * p + 1, n + 1) { AboveParent(p, Right, n + 1); }
      ShapeAway(t.l, 2 * p, n);
      ShapeAway(t.r, 2 * p + 1, n);
    }
  }

  lemma {:induction false} PosPositive(c: Ctx)
    ensures 0 < Pos(c)
  {
    if c.In? { PosPositive(c.up); }
  }

  /** The path to position n + 1 looks the same in trees of n and of n + 1 nodes. */
  lemma {:induction false} CShapeGrow(c: Ctx, n: nat)
    requires Above(Pos(c), n + 1) && (c.In? ==> Pos(c.up) <= n)
    ensures CShape(c, n) <==> CShape(c, n + 1)
  {
    if c.In? {
      var p := Pos(c.up);
      PosPositive(c.up);
      AboveParent(p, c.side, n + 1);
      assert c.up.In? ==> Pos(c.up.up) <= p by { if c.up.In? { PosPositive(c.up.up); } }
      CShapeGrow(c.up, n);
      if Above(Child(p, Opp(c.side)), n + 1) { OneSide(p, n + 1); }
      ShapeAway(c.sib, Child(p, Opp(c.side)), n);
    }
  }

  lemma LastPlace(c: Ctx, e: Node, n: nat)
    requires Pos(c) == n + 1
    ensures Shape(Plug(c, Leaf), 1, n) <==> Shape(Plug(c, T(Leaf, e, Leaf)), 1, n + 1)
  {
    if c.In? { PosPositive(c.up); }
    CShapeGrow(c, n);
    PlugShape(c, Leaf, n);
    PlugShape(c, T(Leaf, e, Leaf), n + 1);
  }

  // ---------------------------------------------------------------- the path to a position

  const UINT_MAX: nat := 0xFFFF_FFFF

  /** From position p, k turns, the low bit of path first. */
  ghost function Walk(p: nat, path: nat, k: nat): nat
    decreases k
  {
    if k == 0 then p else Walk(2 * p + path % 2, path / 2, k - 1)
  }

  lemma {:induction false} WalkDown(p: nat, path: nat, k: nat)
    requires 0 < p
    ensures p <= Walk(p, path, k) && (0 < k ==> 2 * p <= Walk(p, path, k))
    decreases k
  {
    if 0 < k { WalkDown(2 * p + path % 2, path / 2, k - 1); }
  }

  /** The bits of target below its top bit, in reverse; unsigned arithmetic never wraps. */
  method PathTo(target: nat) returns (path: nat, k: nat)
    requires 0 < target <= UINT_MAX
    ensures Walk(1, path, k) == target
  {
    path, k := 0, 0;
    var n := target;
    while n >= 2
      invariant 0 < n && Walk(n, path, k) == target
      invariant path < Pow2(k) && n * Pow2(k) <= target
    {
      ghost var bit := n % 2;
      ghost var shifted := path * 2 + bit;
      assert n == 2 * (n / 2) + bit;
      assert shifted % 2 == bit && shifted / 2 == path;
      Halve(n, Pow2(k), target);
      path := (path * 2 + n % 2) % (UINT_MAX + 1);
      assert path == shifted;
      k := k + 1;
      n := n / 2;
    }
  }

  lemma Halve(n: nat, p: nat, target: nat)
    requires 2 <= n && n * p <= target
    ensures (n / 2) * (2 * p) <= target && 2 * p <= target
  {
    assert (n / 2) * (2 * p) == (2 * (n / 2)) * p <= n * p;
  }

  // ---------------------------------------------------------------- heap order

  ghost predicate Under(k: int, t: Tree) {
    t.T? ==> k <= t.n.key
  }

  ghost predicate Ord(t: Tree) {
    t.T? ==> Under(t.n.key, t.l) && Under(t.n.key, t.r) && Ord(t.l) && Ord(t.r)
  }

  ghost predicate COrd(c: Ctx) {
    c.In? ==> Under(c.n.key, c.sib) && Ord(c.sib) && COrd(c.up) && (c.up.In? ==> c.up.n.key <= c.n.key)
  }

  /** Only the root of t may be out of order with its neighbours. */
  ghost predicate Loose(c: Ctx, t: Tree) {
    && COrd(c) && t.T? && Ord(t.l) && Ord(t.r)
    && (c.In? ==> Under(c.n.key, t.l) && Under(c.n.key, t.r))
  }

  lemma {:induction false} PlugOrd(c: Ctx, t: Tree)
    requires COrd(c) && Ord(t) && (c.In? ==> Under(c.n.key, t))
    ensures Ord(Plug(c, t))
  {
    if c.In? { PlugOrd(c.up, Mk(c.side, t, c.n, c.sib)); }
  }

  lemma {:induction false} SplitOrd(c: Ctx, t: Tree)
    requires Ord(Plug(c, t))
    ensures COrd(c) && Ord(t) && (c.In? ==> Under(c.n.key, t))
  {
    if c.In? { SplitOrd(c.up, Mk(c.side, t, c.n, c.sib)); }
  }

  /** The root is a minimum. */
  lemma {:induction false} RootLeast(t: Tree)
    requires Ord(t) && t.T?
    ensures forall n :: n in Nodes(t) ==> t.n.key <= n.key
  {
    if t.l.T? { RootLeast(t.l); }
    if t.r.T? { RootLeast(t.r); }
  }

  // ---------------------------------------------------------------- swapping a node with its child

  ghost function Swapped(t: Tree, s: Side): Tree
    requires t.T? && Sub(t, s).T?
  {
    var y := Sub(t, s);
    Mk(s, T(y.l, t.n, y.r), y.n, Sub(t, Opp(s)))
  }

  lemma SwappedSep(c: Ctx, t: Tree, s: Side)
    requires t.T? && Sub(t, s).T? && Sep(c, t)
    ensures Sep(c, Swapped(t, s)) && Nodes(Swapped(t, s)) == Nodes(t)
  {
    assert Dist(Sub(t, s));
    assert Dist(Sub(Swapped(t, s), s));
  }

  lemma {:induction false} SwappedShape(t: Tree, s: Side, p: nat, n: nat)
    requires t.T? && Sub(t, s).T?
    ensures Shape(Swapped(t, s), p, n) <==> Shape(t, p, n)
  {
    var y := Sub(t, s);
    assert Shape(T(y.l, t.n, y.r), Child(p, s), n) <==> Shape(y, Child(p, s), n);
  }

  lemma PlugSwapped(c: Ctx, t: Tree, s: Side, n: nat)
    requires t.T? && Sub(t, s).T?
    ensures Shape(Plug(c, Swapped(t, s)), 1, n) <==> Shape(Plug(c, t), 1, n)
  {
    PlugShape(c, t, n);
    PlugShape(c, Swapped(t, s), n);
    SwappedShape(t, s, Pos(c), n);
  }

  /** The link writes of heap_node_swap, up to the link from above. */
  method SwapFields(parent: Node, child: Node, ghost sib: Node?, ghost kid: Node?, ghost kid': Node?, ghost s: Side)
    requires parent.Child(s) == child && parent.Child(Opp(s)) == sib && child.left == kid && child.right == kid'
    requires parent != child && sib !in {parent, child} && kid !in {parent, child} && kid' !in {parent, child}
    requires (kid != null ==> kid != kid' && kid != sib) && (kid' != null ==> kid' != sib)
    modifies parent`left, parent`right, child`left, child`right, {parent, child, sib, kid, kid'}`parent
    ensures child.Child(s) == parent && child.Child(Opp(s)) == sib && child.parent == old(parent.parent)
    ensures parent.left == kid && parent.right == kid' && parent.parent == child
    ensures sib != null ==> sib.parent == child
    ensures kid != null ==> kid.parent == parent
    ensures kid' != null ==> kid'.parent == parent
  {
    var l, r, p := parent.left, parent.right, parent.parent;
    parent.left, parent.right, parent.parent := child.left, child.right, child.parent;
    child.left, child.right, child.parent := l, r, p;
    parent.parent := child;
    var sibling: Node?;
    if child.left == child {
      child.left := parent;
      sibling := child.right;
    } else {
      child.right := parent;
      sibling := child.left;
    }
    if sibling != null { sibling.parent := child; }
    if parent.left != null { parent.left.parent := parent; }
    if parent.right != null { parent.right.parent := parent; }
  }

  /** The same, with the subtrees w, a and b of the pair. */
  method SwapTrees(parent: Node, child: Node, ghost w: Tree, ghost a: Tree, ghost b: Tree, ghost s: Side)
    requires parent.Child(s) == child && parent.Child(Opp(s)) == Root(w)
    requires child.left == Root(a) && child.right == Root(b)
    requires Links(w, parent) && Links(a, child) && Links(b, child) && Dist(w) && Dist(a) && Dist(b)
    requires parent != child && {parent, child} !! Nodes(w) + Nodes(a) + Nodes(b)
    requires Nodes(w) !! Nodes(a) && Nodes(a) !! Nodes(b) && Nodes(w) !! Nodes(b)
    modifies parent`left, parent`right, child`left, child`right, {parent, child, Root(w), Root(a), Root(b)}`parent
    ensures child.Child(s) == parent && child.Child(Opp(s)) == Root(w) && child.parent == old(parent.parent)
    ensures parent.left == Root(a) && parent.right == Root(b) && parent.parent == child
    ensures Links(w, child) && Links(a, parent) && Links(b, parent)
  {
    assert w.T? ==> w.n in Nodes(w);
    assert a.T? ==> a.n in Nodes(a);
    assert b.T? ==> b.n in Nodes(b);
    assert allocated(Nodes(a)) && allocated(Nodes(b)) && allocated(Nodes(w));
    SwapFields(parent, child, Root(w), Root(a), Root(b), s);
  }

  method SwapBelow(parent: Node, child: Node, ghost t: Tree, ghost s: Side, ghost par: Node?)
    requires Dist(t) && Links(t, par) && t.T? && Sub(t, s).T? && parent == t.n && child == Sub(t, s).n
    modifies Nodes(t)`left, Nodes(t)`right, Nodes(t)`parent
    ensures Links(Swapped(t, s), par)
  {
    ghost var y, w := Sub(t, s), Sub(t, Opp(s));
    assert Links(y, parent) && Dist(y);
    assert w.T? ==> w.n in Nodes(w);
    assert y.l.T? ==> y.l.n in Nodes(y.l);
    assert y.r.T? ==> y.r.n in Nodes(y.r);
    SwapTrees(parent, child, w, y.l, y.r, s);
    assert Links(T(y.l, parent, y.r), child);
  }

  /** child gets the links of node, and its subtrees a new parent. */
  method Adopt(node: Node, child: Node, ghost par: Node?, ghost l: Tree, ghost r: Tree)
    requires Dist(T(l, node, r)) && Links(T(l, node, r), par)
    requires child !in Nodes(l) + Nodes(r) + {node}
    modifies child`left, child`right, child`parent, Nodes(l)`parent, Nodes(r)`parent
    ensures Links(T(l, child, r), par)
  {
    assert (l.T? ==> l.n in Nodes(l)) && (r.T? ==> r.n in Nodes(r));
    assert Links(l, node) && Links(r, node) && Dist(l) && Dist(r);
    child.left, child.right, child.parent := node.left, node.right, node.parent;
    if child.left != null { child.left.parent := child; }
    if child.right != null { child.right.parent := child; }
    assert Links(l, child) && Links(r, child);
  }

  class Heap {
    var min: Node?
    var nelts: nat
    ghost var tree: Tree

    /** A complete tree of nelts linked nodes, no child below its parent. */
    ghost predicate Valid()
      reads this, Nodes(tree)
    {
      At(min, Top, tree) && Shape(tree, 1, nelts) && Ord(tree)
    }

    constructor ()
      ensures Valid() && tree == Leaf && nelts == 0
    {
      min, nelts, tree := null, 0, Leaf;
    }

    /** heap_min. */
    method Min() returns (r: Node?)
      requires Valid()
      ensures r == null <==> Nodes(tree) == {}
      ensures r != null ==> r in Nodes(tree) && forall n :: n in Nodes(tree) ==> r.key <= n.key
    {
      r := min;
      if tree.T? { RootLeast(tree); }
    }

    /** heap_node_swap: the child moves towards the root. */
    method NodeSwap(parent: Node, child: Node, ghost c: Ctx, ghost t: Tree, ghost s: Side)
      requires At(min, c, t) && t.T? && Sub(t, s).T? && parent == t.n && child == Sub(t, s).n
      modifies this`min, (CNodes(c) + Nodes(t))`left, (CNodes(c) + Nodes(t))`right, (CNodes(c) + Nodes(t))`parent
      ensures At(min, c, Swapped(t, s)) && Nodes(Swapped(t, s)) == Nodes(t)
    {
      SwappedSep(c, t, s);
      assert allocated(Nodes(t)) && allocated(CNodes(c));
      assert c.In? ==> c.n in CNodes(c);
      SwapBelow(parent, child, t, s, Par(c));
      assert child.parent == Par(c);
      min := Relink(min, parent, child.parent, child, c, Swapped(t, s), Par(c));
    }

    /** The state of both sift loops: complete, and in order but for the node e. */
    ghost predicate Sifting(c: Ctx, t: Tree, e: Node, nodes: set<Node>)
      reads this, CNodes(c), Nodes(t)
    {
      && At(min, c, t) && t.T? && t.n == e && Loose(c, t)
      && Shape(Plug(c, t), 1, nelts) && CNodes(c) + Nodes(t) == nodes
    }

    method StepUp(e: Node, ghost c: Ctx, ghost t: Tree, ghost nodes: set<Node>) returns (ghost t': Tree)
      requires Sifting(c, t, e, nodes) && Ord(t) && c.In? && e.key < c.n.key
      modifies this`min, nodes`left, nodes`right, nodes`parent
      ensures Sifting(c.up, t', e, nodes) && Ord(t')
    {
      ghost var tp := Mk(c.side, t, c.n, c.sib);
      t' := Swapped(tp, c.side);
      AboveFacts(min, c, t);
      Up(min, c, t);
      PlugSwapped(c.up, tp, c.side, nelts);
      assert CNodes(c.up) + Nodes(tp) == nodes;
      assert c.up.In? ==> Under(c.up.n.key, c.sib) by { assert c.up.In? ==> c.up.n.key <= c.n.key; }
      NodeSwap(e.parent, e, c.up, tp, c.side);
    }

    /** Walks e up while it is less than its parent. */
    method SiftUp(e: Node, ghost c0: Ctx, ghost t0: Tree, ghost nodes: set<Node>)
      requires Sifting(c0, t0, e, nodes) && Ord(t0)
      modifies this`min, this`tree, nodes`left, nodes`right, nodes`parent
      ensures Valid() && Nodes(tree) == nodes
    {
      ghost var c, t := c0, t0;
      while e.parent != null && e.key < e.parent.key
        invariant Sifting(c, t, e, nodes) && Ord(t)
        decreases c
      {
        t := StepUp(e, c, t, nodes);
        c := c.up;
      }
      tree := Plug(c, t);
      WholeAt(min, c, t);
      PlugNodes(c, t);
      PlugOrd(c, t);
    }

    method StepDown(e: Node, smallest: Node, ghost c: Ctx, ghost t: Tree, ghost nodes: set<Node>, ghost s: Side)
      returns (ghost c': Ctx, ghost t': Tree)
      requires Sifting(c, t, e, nodes) && Root(Sub(t, s)) == smallest
      requires smallest.key < e.key && Under(smallest.key, Sub(t, Opp(s)))
      modifies this`min, nodes`left, nodes`right, nodes`parent
      ensures Sifting(c', t', e, nodes) && Height(t') < Height(t)
    {
      ghost var w := Swapped(t, s);
      c', t' := Towards(c, w, s), Sub(w, s);
      PlugSwapped(c, t, s, nelts);
      NodeSwap(e, smallest, c, t, s);
      Down(min, c, w, s);
      assert Height(t') == Height(Sub(t, s));
      assert COrd(c');
      assert Plug(c', t') == Plug(c, w);
    }

    /** Walks e down while a child is less than it. */
    method SiftDown(e: Node, ghost c0: Ctx, ghost t0: Tree, ghost nodes: set<Node>)
      returns (ghost c: Ctx, ghost t: Tree)
      requires Sifting(c0, t0, e, nodes)
      modifies this`min, nodes`left, nodes`right, nodes`parent
      ensures Sifting(c, t, e, nodes) && Ord(t)
    {
      c, t := c0, t0;
      while true
        invariant Sifting(c, t, e, nodes)
        decreases Height(t)
      {
        var smallest := e;
        if e.left != null && e.left.key < smallest.key { smallest := e.left; }
        if e.right != null && e.right.key < smallest.key { smallest := e.right; }
        if smallest == e { break; }
        c, t := StepDown(e, smallest, c, t, nodes, if smallest == e.left then Left else Right);
      }
    }

    // ---------------------------------------------------------------- insertion

    /** One turn on the way down: there is a node here, and the child the next bit names is on the way. */
    lemma PlaceDown(target: nat, path: nat, k: nat, c: Ctx, t: Tree)
      requires Valid() && 0 < target <= nelts + 1 && 0 < k
      requires At(min, c, t) && Plug(c, t) == tree && Walk(Pos(c), path, k) == target
      ensures t.T?
      ensures var s := if path % 2 == 1 then Right else Left; var c' := Towards(c, t, s);
        && At(min, c', Sub(t, s)) && Plug(c', Sub(t, s)) == tree && Walk(Pos(c'), path / 2, k - 1) == target
        && t.n.Child(s) == Root(Sub(t, s)) && Par(c') == t.n && c'.In? && c'.side == s
    {
      PosPositive(c);
      WalkDown(Pos(c), path, k);
      PlugShape(c, t, nelts);
      Down(min, c, t, if path % 2 == 1 then Right else Left);
    }

    /** Follows the path to the place at position `target`: `at` is the node there, `owner` the one above it. */
    method Place(target: nat) returns (owner: Node?, s: Side, at: Node?, ghost c: Ctx, ghost t: Tree)
      requires Valid() && 0 < target <= nelts + 1 && target <= UINT_MAX
      ensures At(min, c, t) && Plug(c, t) == tree && Pos(c) == target
      ensures Root(t) == at && Par(c) == owner && (c.In? ==> c.side == s)
    {
      assert allocated(Nodes(tree));
      var path, k := PathTo(target);
      owner, s, at := null, Left, min;
      c, t := Top, tree;
      while 0 < k
        invariant At(min, c, t) && Plug(c, t) == tree && Walk(Pos(c), path, k) == target
        invariant Root(t) == at && Par(c) == owner && (c.In? ==> c.side == s)
        decreases k
      {
        PlaceDown(target, path, k, c, t);
        s := if path % 2 == 1 then Right else Left;
        owner := at;
        at := owner.Child(s);
        c, t := Towards(c, t, s), Sub(t, s);
        path := path / 2;
        k := k - 1;
      }
    }

    /** Writes the slot of position Pos(c): the child link of its owner, or min. */
    method FillSlot(owner: Node?, s: Side, p: Node?, ghost old_: Node?, ghost c: Ctx)
      requires CDist(c) && CLinks(min, c, old_) && owner == Par(c) && (c.In? ==> c.side == s)
      modifies this`min, {owner}`left, {owner}`right
      ensures CLinks(min, c, p)
    {
      assert c.In? && c.sib.T? ==> c.sib.n in Nodes(c.sib);
      assert c.In? ==> c.n in CNodes(c);
      if owner == null {
        min := p;
        assert c == Top;
      } else if s.Left? {
        owner.left := p;
      } else {
        owner.right := p;
      }
    }

    /** heap_insert. */
    method Insert(newnode: Node)
      requires Valid() && newnode !in Nodes(tree) && nelts < UINT_MAX
      modifies this, newnode, Nodes(tree)`left, Nodes(tree)`right, Nodes(tree)`parent
      ensures Valid() && Nodes(tree) == old(Nodes(tree)) + {newnode} && nelts == old(nelts) + 1
    {
      assert allocated(Nodes(tree));
      var parent, s, at;
      ghost var c, t;
      parent, s, at, c, t := Place(1 + nelts);
      PlugShape(c, t, nelts);
      PlugNodes(c, t);
      SplitOrd(c, Leaf);
      LastPlace(c, newnode, nelts);
      AddLast(newnode, parent, s, c);
      SiftUp(newnode, c, T(Leaf, newnode, Leaf), CNodes(c) + {newnode});
    }

    method AddLast(newnode: Node, parent: Node?, s: Side, ghost c: Ctx)
      requires At(min, c, Leaf) && newnode !in CNodes(c) && parent == Par(c) && (c.In? ==> c.side == s)
      modifies this`min, this`nelts, newnode, CNodes(c)`left, CNodes(c)`right
      ensures At(min, c, T(Leaf, newnode, Leaf)) && nelts == old(nelts) + 1
    {
      assert c.In? ==> c.n in CNodes(c);
      newnode.left, newnode.right := null, null;
      newnode.parent := parent;
      assert CLinks(min, c, null);
      assert allocated(CNodes(c));
      FillSlot(parent, s, newnode, null, c);
      nelts := nelts + 1;
    }

    // ---------------------------------------------------------------- removal

    /** Unlinks the last node of the bottom row. */
    method CutLast() returns (child: Node, ghost c: Ctx)
      requires Valid() && 0 < nelts <= UINT_MAX
      modifies this`min, this`nelts, Nodes(tree)`left, Nodes(tree)`right
      ensures nelts == old(nelts) - 1
      ensures Plug(c, T(Leaf, child, Leaf)) == tree && Sep(c, T(Leaf, child, Leaf))
      ensures At(min, c, Leaf) && Shape(Plug(c, Leaf), 1, nelts)
    {
      assert allocated(Nodes(tree));
      var owner, s, at;
      ghost var t;
      owner, s, at, c, t := Place(nelts);
      PlugShape(c, t, nelts);
      PlugNodes(c, t);
      PosPositive(c);
      child := at;
      assert t == T(Leaf, child, Leaf);
      LastPlace(c, child, nelts - 1);
      nelts := nelts - 1;
      assert allocated(CNodes(c));
      FillSlot(owner, s, null, child, c);
    }

    /** child takes the links of node. */
    method Replace(node: Node, child: Node, ghost c: Ctx, ghost l: Tree, ghost r: Tree)
      requires At(min, c, T(l, node, r)) && child !in CNodes(c) + Nodes(T(l, node, r))
      modifies this`min, child`left, child`right, child`parent
      modifies CNodes(c)`left, CNodes(c)`right, Nodes(l)`parent, Nodes(r)`parent
      ensures At(min, c, T(l, child, r))
    {
      assert c.In? ==> c.n in CNodes(c);
      assert allocated(Nodes(T(l, node, r))) && allocated(CNodes(c));
      Adopt(node, child, Par(c), l, r);
      assert CLinks(min, c, node);
      min := Relink(min, node, node.parent, child, c, T(l, child, r), Par(c));
      RenameSep(c, l, node, child, r);
    }

    /** heap_remove. */
    method Remove(node: Node?)
      requires Valid() && nelts <= UINT_MAX
      requires nelts == 0 || (node != null && node in Nodes(tree))
      modifies this, Nodes(tree)`left, Nodes(tree)`right, Nodes(tree)`parent
      ensures Valid() && Nodes(tree) == old(Nodes(tree)) - {node}
      ensures nelts == if old(nelts) == 0 then 0 else old(nelts) - 1
    {
      if nelts == 0 { return; }
      assert allocated(Nodes(tree));
      var child;
      ghost var c;
      child, c := CutLast();
      PlugNodes(c, T(Leaf, child, Leaf));
      PlugNodes(c, Leaf);
      SplitOrd(c, T(Leaf, child, Leaf));
      PlugOrd(c, Leaf);
      WholeAt(min, c, Leaf);
      ghost var rest := Plug(c, Leaf);
      if child == node {
        // The source resets min here when it still is the removed node; it never is, since the
        // slot of the last node, min included, has been cleared above.
        assert child != min;
        tree := rest;
        return;
      }
      RemoveInner(node, child, rest);
    }

    /** heap_remove when the last node takes the place of another one. */
    method RemoveInner(node: Node, child: Node, ghost rest: Tree)
      requires At(min, Top, rest) && Shape(rest, 1, nelts) && Ord(rest)
      requires node in Nodes(rest) && child !in Nodes(rest)
      modifies this`min, this`tree, child`left, child`right, child`parent
      modifies Nodes(rest)`left, Nodes(rest)`right, Nodes(rest)`parent
      ensures Valid() && Nodes(tree) == Nodes(rest) - {node} + {child}
    {
      ghost var c, t := Locate(Top, rest, node);
      WholeAt(min, c, t);
      PlugNodes(c, t);
      PlugShape(c, t, nelts);
      SplitOrd(c, t);
      ghost var t' := T(t.l, child, t.r);
      PlugShape(c, t', nelts);
      assert CNodes(c) + Nodes(t') == Nodes(rest) - {node} + {child};
      Replace(node, child, c, t.l, t.r);
      c, t := SiftDown(child, c, t', Nodes(rest) - {node} + {child});
      SiftUp(child, c, t, Nodes(rest) - {node} + {child});
    }

    /** heap_dequeue. */
    method Dequeue()
      requires Valid() && nelts <= UINT_MAX
      modifies this, Nodes(tree)`left, Nodes(tree)`right, Nodes(tree)`parent
      ensures Valid() && Nodes(tree) == old(Nodes(tree)) - {old(min)}
    {
      assert tree.T? ==> tree.n in Nodes(tree);
      Remove(min);
    }
  }
}
