/**
 Binary trees linked by left, right and parent pointers, as the intrusive containers keep them.

 A ghost tree of node references says what the links spell. A ghost context is the path from a
 node to the root with the subtrees hanging off it: it lets a loop that climbs or descends keep
 its eye on one place while everything else stays put.
 */
module LinkedTree {

  datatype Side = Left | Right

  function Opp(s: Side): Side {
    if s.Left? then Right else Left
  }

  class Node {
    const key: int
    var left: Node?
    var right: Node?
    var parent: Node?
    var red: bool

    constructor (key: int)
      ensures this.key == key
    {
      this.key := key;
      left, right, parent, red := null, null, null, false;
    }

    function Child(s: Side): Node?
      reads this`left, this`right
    {
      if s.Left? then left else right
    }
  }

  // ---------------------------------------------------------------- ghost trees

  datatype Tree = Leaf | T(l: Tree, n: Node, r: Tree)

  /** A tree with a hole: the hole is the `side` child of n, sib is the other child. */
  datatype Ctx = Top | In(up: Ctx, side: Side, n: Node, sib: Tree)

  ghost function Nodes(t: Tree): set<Node> {
    if t.Leaf? then {} else Nodes(t.l) + {t.n} + Nodes(t.r)
  }

  ghost function CNodes(c: Ctx): set<Node> {
    if c.Top? then {} else CNodes(c.up) + {c.n} + Nodes(c.sib)
  }

  ghost function Root(t: Tree): Node? {
    if t.Leaf? then null else t.n
  }

  ghost function Par(c: Ctx): Node? {
    if c.Top? then null else c.n
  }

  ghost function Sub(t: Tree, s: Side): Tree
    requires t.T?
  {
    if s.Left? then t.l else t.r
  }

  ghost function Mk(s: Side, near: Tree, n: Node, far: Tree): Tree {
    if s.Left? then T(near, n, far) else T(far, n, near)
  }

  ghost function Plug(c: Ctx, t: Tree): Tree {
    if c.Top? then t else Plug(c.up, Mk(c.side, t, c.n, c.sib))
  }

  ghost function Depth(c: Ctx): nat {
    if c.Top? then 0 else 1 + Depth(c.up)
  }

  /** No node occurs twice. */
  ghost predicate Dist(t: Tree) {
    t.T? ==> Dist(t.l) && Dist(t.r) && t.n !in Nodes(t.l) && t.n !in Nodes(t.r) && Nodes(t.l) !! Nodes(t.r)
  }

  ghost predicate CDist(c: Ctx) {
    c.In? ==>
      && CDist(c.up) && Dist(c.sib)
      && c.n !in CNodes(c.up) && c.n !in Nodes(c.sib) && CNodes(c.up) !! Nodes(c.sib)
  }

  ghost predicate Sep(c: Ctx, t: Tree) {
    CDist(c) && Dist(t) && CNodes(c) !! Nodes(t)
  }

  // ---------------------------------------------------------------- order

  ghost function InOrder(t: Tree): seq<Node> {
    if t.Leaf? then [] else InOrder(t.l) + [t.n] + InOrder(t.r)
  }

  /** What stands before and after the hole in the in-order listing. */
  ghost function Before(c: Ctx): seq<Node> {
    match c
    case Top => []
    case In(up, Left, n, sib) => Before(up)
    case In(up, Right, n, sib) => Before(up) + InOrder(sib) + [n]
  }

  ghost function After(c: Ctx): seq<Node> {
    match c
    case Top => []
    case In(up, Left, n, sib) => [n] + InOrder(sib) + After(up)
    case In(up, Right, n, sib) => After(up)
  }

  ghost predicate Sorted(s: seq<Node>) {
    forall i, j :: 0 <= i < j < |s| ==> s[i].key < s[j].key
  }

  lemma Regroup(a: seq<Node>, x: seq<Node>, n: Node, y: seq<Node>, b: seq<Node>)
    ensures a + (x + [n] + y) + b == a + x + ([n] + y + b)
    ensures a + (x + [n] + y) + b == (a + x + [n]) + y + b
  {
  }

  lemma {:induction false} PlugOrder(c: Ctx, t: Tree)
    ensures InOrder(Plug(c, t)) == Before(c) + InOrder(t) + After(c)
  {
    match c
    case Top =>
    case In(up, Left, n, sib) =>
      PlugOrder(up, T(t, n, sib));
      Regroup(Before(up), InOrder(t), n, InOrder(sib), After(up));
    case In(up, Right, n, sib) =>
      PlugOrder(up, T(sib, n, t));
      Regroup(Before(up), InOrder(sib), n, InOrder(t), After(up));
  }

  lemma {:induction false} PlugNodes(c: Ctx, t: Tree)
    ensures Nodes(Plug(c, t)) == CNodes(c) + Nodes(t)
  {
    if c.In? {
      PlugNodes(c.up, Mk(c.side, t, c.n, c.sib));
    }
  }

  // ---------------------------------------------------------------- links

  ghost predicate Links(t: Tree, par: Node?)
    reads Nodes(t)`left, Nodes(t)`right, Nodes(t)`parent
  {
    t.T? ==>
      && t.n.left == Root(t.l) && t.n.right == Root(t.r) && t.n.parent == par
      && Links(t.l, t.n) && Links(t.r, t.n)
  }

  ghost predicate CLinks(top: Node?, c: Ctx, p: Node?)
    reads CNodes(c)`left, CNodes(c)`right, CNodes(c)`parent
  {
    match c
    case Top => top == p
    case In(up, s, n, sib) =>
      && n.Child(s) == p && n.Child(Opp(s)) == Root(sib) && n.parent == Par(up)
      && Links(sib, n) && CLinks(top, up, n)
  }

  /** The links of the tree spell t inside the context c. */
  ghost predicate At(top: Node?, c: Ctx, t: Tree)
    reads CNodes(c)`left, CNodes(c)`right, CNodes(c)`parent, Nodes(t)`left, Nodes(t)`right, Nodes(t)`parent
  {
    Sep(c, t) && CLinks(top, c, Root(t)) && Links(t, Par(c))
  }

  lemma Up(top: Node?, c: Ctx, t: Tree)
    requires c.In?
    ensures At(top, c, t) <==> At(top, c.up, Mk(c.side, t, c.n, c.sib))
  {
  }

  /** The link that points to x is made to point to p; the tree u, which lies outside c, is not touched. */
  method Relink(top: Node?, x: Node, parent: Node?, p: Node?, ghost c: Ctx, ghost u: Tree, ghost par: Node?)
    returns (top': Node?)
    requires CDist(c) && CLinks(top, c, x) && x !in CNodes(c) && parent == Par(c)
    requires Links(u, par) && Nodes(u) !! CNodes(c)
    modifies {parent}`left, {parent}`right
    ensures CLinks(top', c, p) && Links(u, par)
  {
    assert c.In? && c.sib.T? ==> c.sib.n in Nodes(c.sib);
    assert c.In? ==> c.n in CNodes(c);
    top' := top;
    if parent != null {
      if parent.left == x { parent.left := p; } else { parent.right := p; }
    } else {
      top' := p;
    }
  }

  lemma {:induction false} WholeAt(top: Node?, c: Ctx, t: Tree)
    ensures At(top, c, t) <==> At(top, Top, Plug(c, t))
  {
    if c.In? {
      Up(top, c, t);
      WholeAt(top, c.up, Mk(c.side, t, c.n, c.sib));
    }
  }

  /** What a node reads off its parent. */
  lemma AboveFacts(top: Node?, c: Ctx, t: Tree)
    requires At(top, c, t) && c.In?
    ensures c.n.parent == Par(c.up)
    ensures c.n.Child(c.side) == Root(t) && c.n.Child(Opp(c.side)) == Root(c.sib)
    ensures Root(t) != null ==> Root(t) != Root(c.sib)
    ensures c.n in CNodes(c) && (c.sib.T? ==> c.sib.n in CNodes(c))
  {
    assert c.sib.T? ==> c.sib.n in Nodes(c.sib);
    assert t.T? ==> t.n in Nodes(t);
  }

  lemma Down(top: Node?, c: Ctx, t: Tree, s: Side)
    requires At(top, c, t) && t.T?
    ensures At(top, Towards(c, t, s), Sub(t, s))
    ensures t.n.Child(s) == Root(Sub(t, s))
    ensures CNodes(Towards(c, t, s)) + Nodes(Sub(t, s)) == CNodes(c) + Nodes(t)
  {
    Up(top, Towards(c, t, s), Sub(t, s));
  }

  /** Only a tree without a context has its top in focus. */
  lemma {:induction false} RootFacts(top: Node?, c: Ctx, p: Node?)
    requires CLinks(top, c, p)
    ensures c.Top? ==> top == p
    ensures c.In? ==> top != null && top in CNodes(c)
  {
    if c.In? { RootFacts(top, c.up, c.n); }
  }

  // ---------------------------------------------------------------- searching

  lemma {:induction false} InOrderNodes(t: Tree, n: Node)
    ensures n in InOrder(t) <==> n in Nodes(t)
  {
    if t.T? {
      InOrderNodes(t.l, n);
      InOrderNodes(t.r, n);
    }
  }

  /** Everything outside the hole lies on its own side of k. */
  ghost predicate Splits(c: Ctx, k: int) {
    && (forall n :: n in Before(c) ==> n.key < k)
    && (forall n :: n in After(c) ==> k < n.key)
  }

  ghost function Towards(c: Ctx, t: Tree, s: Side): Ctx
    requires t.T?
  {
    In(c, s, t.n, Sub(t, Opp(s)))
  }

  lemma SortedParts(a: seq<Node>, x: seq<Node>, n: Node, y: seq<Node>, b: seq<Node>)
    requires Sorted(a + (x + [n] + y) + b)
    ensures forall m :: m in a + x ==> m.key < n.key
    ensures forall m :: m in y + b ==> n.key < m.key
  {
    var s := a + (x + [n] + y) + b;
    var i := |a| + |x|;
    assert s[i] == n;
    forall m | m in a + x ensures m.key < n.key {
      var j :| 0 <= j < i && (a + x)[j] == m;
      assert s[j] == m;
    }
    forall m | m in y + b ensures n.key < m.key {
      var j :| 0 <= j < |y + b| && (y + b)[j] == m;
      assert s[i + 1 + j] == m;
    }
  }

  lemma StepDown(c: Ctx, t: Tree, s: Side, k: int)
    requires t.T? && Sorted(InOrder(Plug(c, t))) && Splits(c, k)
    requires if s.Left? then k < t.n.key else t.n.key < k
    ensures Splits(Towards(c, t, s), k) && Plug(Towards(c, t, s), Sub(t, s)) == Plug(c, t)
  {
    PlugOrder(c, t);
    SortedParts(Before(c), InOrder(t.l), t.n, InOrder(t.r), After(c));
  }

  lemma AttachOrder(c: Ctx, elm: Node)
    requires Sorted(InOrder(Plug(c, Leaf))) && Splits(c, elm.key)
    ensures Sorted(InOrder(Plug(c, T(Leaf, elm, Leaf))))
  {
    PlugOrder(c, Leaf);
    PlugOrder(c, T(Leaf, elm, Leaf));
    var a, b := Before(c), After(c);
    assert a + [] + b == a + b;
    assert InOrder(T(Leaf, elm, Leaf)) == [elm];
    var s, s' := a + b, a + [elm] + b;
    forall i, j | 0 <= i < j < |s'| ensures s'[i].key < s'[j].key {
      assert s'[i] == if i < |a| then a[i] else if i == |a| then elm else b[i - |a| - 1];
      assert s'[j] == if j < |a| then a[j] else if j == |a| then elm else b[j - |a| - 1];
      if i != |a| && j != |a| {
        assert s[if i < |a| then i else i - 1].key < s[if j < |a| then j else j - 1].key;
      }
    }
  }

  lemma NotThere(c: Ctx, k: int)
    requires Splits(c, k)
    ensures forall n :: n in Nodes(Plug(c, Leaf)) ==> n.key != k
  {
    forall n | n in Nodes(Plug(c, Leaf)) ensures n.key != k {
      InOrderNodes(Plug(c, Leaf), n);
      PlugOrder(c, Leaf);
      assert n in Before(c) || n in After(c);
    }
  }

  lemma {:induction false} PlugIsT(c: Ctx, t: Tree)
    requires t.T?
    ensures Plug(c, t).T?
  {
    if c.In? { PlugIsT(c.up, Mk(c.side, t, c.n, c.sib)); }
  }

  // ---------------------------------------------------------------- rotation on ghost trees

  ghost function Rotated(s: Side, t: Tree): Tree
    requires t.T? && Sub(t, Opp(s)).T?
  {
    var y := Sub(t, Opp(s));
    Mk(s, Mk(s, Sub(t, s), t.n, Sub(y, s)), y.n, Sub(y, Opp(s)))
  }

  lemma RotatedSep(s: Side, c: Ctx, t: Tree)
    requires t.T? && Sub(t, Opp(s)).T? && Sep(c, t)
    ensures Sep(c, Rotated(s, t)) && Nodes(Rotated(s, t)) == Nodes(t)
  {
    assert Dist(Sub(t, Opp(s)));
    assert Dist(Sub(Rotated(s, t), s));
  }

  lemma RotatedListing(a: seq<Node>, x: Node, b: seq<Node>, y: Node, c: seq<Node>)
    ensures (a + [x] + b) + [y] + c == a + [x] + (b + [y] + c)
  {
  }

  lemma RotatedOrder(s: Side, t: Tree)
    requires t.T? && Sub(t, Opp(s)).T?
    ensures InOrder(Rotated(s, t)) == InOrder(t)
  {
    var y := Sub(t, Opp(s));
    if s.Left? {
      RotatedListing(InOrder(t.l), t.n, InOrder(y.l), y.n, InOrder(y.r));
      assert InOrder(T(t.l, t.n, y.l)) == InOrder(t.l) + [t.n] + InOrder(y.l);
    } else {
      RotatedListing(InOrder(y.l), y.n, InOrder(y.r), t.n, InOrder(t.r));
      assert InOrder(T(y.r, t.n, t.r)) == InOrder(y.r) + [t.n] + InOrder(t.r);
    }
  }

  lemma RenameSep(c: Ctx, l: Tree, n: Node, m: Node, r: Tree)
    requires Sep(c, T(l, n, r)) && m !in CNodes(c) + Nodes(l) + Nodes(r) + {n}
    ensures Sep(c, T(l, m, r))
  {
  }

  // ---------------------------------------------------------------- paths

  ghost predicate AllLeft(d: Ctx) {
    d.In? ==> d.side.Left? && AllLeft(d.up)
  }

  lemma RegroupSplice(a: seq<Node>, n: Node, o: seq<Node>, b: seq<Node>)
    ensures a + ([] + [n] + o) + b == a + [n] + (o + b)
    ensures a + (o + [n] + []) + b == (a + o) + [n] + b
    ensures a + o + b == a + (o + b)
  {
  }

  lemma SortedWithout(a: seq<Node>, n: Node, b: seq<Node>)
    requires Sorted(a + [n] + b)
    ensures Sorted(a + b)
  {
    var s, s' := a + [n] + b, a + b;
    forall i, j | 0 <= i < j < |s'| ensures s'[i].key < s'[j].key {
      assert s'[i] == s[if i < |a| then i else i + 1];
      assert s'[j] == s[if j < |a| then j else j + 1];
    }
  }

  lemma {:induction false} Locate(c0: Ctx, t0: Tree, n: Node) returns (c: Ctx, t: Tree)
    requires n in Nodes(t0)
    ensures t.T? && t.n == n && Plug(c, t) == Plug(c0, t0)
    decreases t0
  {
    if n == t0.n {
      c, t := c0, t0;
    } else {
      var s := if n in Nodes(t0.l) then Left else Right;
      c, t := Locate(Towards(c0, t0, s), Sub(t0, s), n);
    }
  }

  /** The path d continued by the path o. */
  ghost function Join(d: Ctx, o: Ctx): Ctx {
    if d.Top? then o else In(Join(d.up, o), d.side, d.n, d.sib)
  }

  lemma {:induction false} JoinPlug(d: Ctx, o: Ctx, t: Tree)
    ensures Plug(Join(d, o), t) == Plug(o, Plug(d, t))
    ensures CNodes(Join(d, o)) == CNodes(d) + CNodes(o)
  {
    if d.In? { JoinPlug(d.up, o, Mk(d.side, t, d.n, d.sib)); }
  }

  lemma {:induction false} JoinOrder(d: Ctx, o: Ctx)
    requires AllLeft(d)
    ensures Before(Join(d, o)) == Before(o) && After(Join(d, o)) == After(d) + After(o)
  {
    if d.In? {
      JoinOrder(d.up, o);
      assert ([d.n] + InOrder(d.sib) + After(d.up)) + After(o) == [d.n] + InOrder(d.sib) + (After(d.up) + After(o));
    }
  }

  // ---------------------------------------------------------------- the least key that is not below k

  lemma NFindNext(c: Ctx, k: int)
    requires Sorted(InOrder(Plug(c, Leaf))) && Splits(c, k)
    ensures After(c) != [] ==> After(c)[0] in Nodes(Plug(c, Leaf)) && k < After(c)[0].key
    ensures forall n :: n in Nodes(Plug(c, Leaf)) && k <= n.key ==> After(c) != [] && After(c)[0].key <= n.key
  {
    PlugOrder(c, Leaf);
    var a, b := Before(c), After(c);
    var s := InOrder(Plug(c, Leaf));
    assert a + [] + b == a + b;
    assert s == a + b;
    if b != [] {
      assert s[|a|] == b[0];
      InOrderNodes(Plug(c, Leaf), b[0]);
    }
    forall n | n in Nodes(Plug(c, Leaf)) && k <= n.key
      ensures b != [] && b[0].key <= n.key
    {
      InOrderNodes(Plug(c, Leaf), n);
      assert n !in a;
      var i :| 0 <= i < |b| && b[i] == n;
      assert s[|a| + i] == n;
    }
  }

  // ---------------------------------------------------------------- neighbours in order

  /** The first node of an in-order listing is at the end of the left links. */
  lemma {:induction false} FirstInOrder(d: Ctx, y: Node, x: Tree)
    requires AllLeft(d)
    ensures InOrder(Plug(d, T(Leaf, y, x))) == [y] + (InOrder(x) + After(d))
  {
    PlugOrder(d, T(Leaf, y, x));
    AllLeftBefore(d);
    RegroupSplice([], y, InOrder(x), After(d));
    assert [] + [y] + (InOrder(x) + After(d)) == [y] + (InOrder(x) + After(d));
  }

  lemma {:induction false} AllLeftBefore(d: Ctx)
    requires AllLeft(d)
    ensures Before(d) == []
  {
    if d.In? { AllLeftBefore(d.up); }
  }

  ghost predicate AllRight(d: Ctx) {
    d.In? ==> d.side.Right? && AllRight(d.up)
  }

  lemma {:induction false} AllRightAfter(d: Ctx)
    requires AllRight(d)
    ensures After(d) == []
  {
    if d.In? { AllRightAfter(d.up); }
  }

  lemma {:induction false} LastInOrder(d: Ctx, y: Node, x: Tree)
    requires AllRight(d)
    ensures InOrder(Plug(d, T(x, y, Leaf))) == (Before(d) + InOrder(x)) + [y]
  {
    PlugOrder(d, T(x, y, Leaf));
    AllRightAfter(d);
    RegroupSplice(Before(d), y, InOrder(x), []);
  }

  /** r is the next node after n in the sorted listing s, null if n is the last. */
  ghost predicate Follows(s: seq<Node>, n: Node, r: Node?) {
    exists i :: 0 <= i < |s| && s[i] == n && r == (if i + 1 < |s| then s[i + 1] else null)
  }

  lemma FollowsIs(s: seq<Node>, n: Node, r: Node?, i: nat)
    requires i < |s| && s[i] == n && r == (if i + 1 < |s| then s[i + 1] else null)
    ensures Follows(s, n, r)
  {
  }

  lemma FollowsAt(a: seq<Node>, n: Node, b: seq<Node>)
    ensures Follows(a + [n] + b, n, if b == [] then null else b[0])
    ensures Follows(a + ([n] + b), n, if b == [] then null else b[0])
  {
    var s := a + [n] + b;
    assert s == a + ([n] + b);
    assert s[|a|] == n;
    if b == [] {
      FollowsIs(s, n, null, |a|);
    } else {
      assert s[|a| + 1] == b[0];
      FollowsIs(s, n, b[0], |a|);
    }
  }

  // ---------------------------------------------------------------- the neighbour after a node

  lemma RegroupNode(a: seq<Node>, l: seq<Node>, n: Node, r: seq<Node>, b: seq<Node>)
    ensures a + (l + [n] + r) + b == (a + l) + [n] + (r + b)
  {
  }

  lemma RightNeighbour(c: Ctx, t: Tree)
    requires t.T? && InOrder(t.r) != []
    ensures Follows(InOrder(Plug(c, t)), t.n, InOrder(t.r)[0])
  {
    PlugOrder(c, t);
    RegroupNode(Before(c), InOrder(t.l), t.n, InOrder(t.r), After(c));
    FollowsAt(Before(c) + InOrder(t.l), t.n, InOrder(t.r) + After(c));
  }

  lemma LeafNeighbour(c: Ctx, t: Tree)
    requires t.T? && t.r.Leaf?
    ensures Follows(InOrder(Plug(c, t)), t.n, if After(c) == [] then null else After(c)[0])
  {
    PlugOrder(c, t);
    RegroupNode(Before(c), InOrder(t.l), t.n, [], After(c));
    assert [] + After(c) == After(c);
    FollowsAt(Before(c) + InOrder(t.l), t.n, After(c));
  }

  /** r is the node before n in the listing s, null if n is the first. */
  ghost predicate Leads(s: seq<Node>, n: Node, r: Node?) {
    exists i :: 0 <= i < |s| && s[i] == n && r == (if i > 0 then s[i - 1] else null)
  }

  lemma LeadsIs(s: seq<Node>, n: Node, r: Node?, i: nat)
    requires i < |s| && s[i] == n && r == (if i > 0 then s[i - 1] else null)
    ensures Leads(s, n, r)
  {
  }

  lemma LeadsAt(a: seq<Node>, n: Node, b: seq<Node>)
    ensures Leads(a + [n] + b, n, if a == [] then null else a[|a| - 1])
  {
    var s := a + [n] + b;
    assert s[|a|] == n;
    if a == [] {
      LeadsIs(s, n, null, 0);
    } else {
      assert s[|a| - 1] == a[|a| - 1];
      LeadsIs(s, n, a[|a| - 1], |a|);
    }
  }

  lemma LeftNeighbour(c: Ctx, t: Tree)
    requires t.T? && InOrder(t.l) != []
    ensures Leads(InOrder(Plug(c, t)), t.n, InOrder(t.l)[|InOrder(t.l)| - 1])
  {
    PlugOrder(c, t);
    RegroupNode(Before(c), InOrder(t.l), t.n, InOrder(t.r), After(c));
    LeadsAt(Before(c) + InOrder(t.l), t.n, InOrder(t.r) + After(c));
  }

  lemma LeftLeafNeighbour(c: Ctx, t: Tree)
    requires t.T? && t.l.Leaf?
    ensures Leads(InOrder(Plug(c, t)), t.n, if Before(c) == [] then null else Before(c)[|Before(c)| - 1])
  {
    PlugOrder(c, t);
    RegroupNode(Before(c), [], t.n, InOrder(t.r), After(c));
    assert Before(c) + [] == Before(c);
    LeadsAt(Before(c), t.n, InOrder(t.r) + After(c));
  }

  /** The listing of a tree ends with that of its right subtree, or with its root. */
  lemma LastOf(t: Tree)
    requires t.T?
    ensures InOrder(t) != []
    ensures InOrder(t)[|InOrder(t)| - 1] == if t.r.Leaf? then t.n else InOrder(t.r)[|InOrder(t.r)| - 1]
  {
    if t.r.T? { LastOf(t.r); }
  }

  lemma FollowsSorted(s: seq<Node>, n: Node, r: Node?, i: nat)
    requires Sorted(s) && i < |s| && s[i] == n && Follows(s, n, r)
    ensures r == if i + 1 < |s| then s[i + 1] else null
  {
    var j :| 0 <= j < |s| && s[j] == n && r == (if j + 1 < |s| then s[j + 1] else null);
    assert s[i].key == s[j].key;
  }

  // ---------------------------------------------------------------- height

  ghost function Height(t: Tree): nat {
    if t.Leaf? then 0 else 1 + if Height(t.l) < Height(t.r) then Height(t.r) else Height(t.l)
  }

  /** The height is the length of a path from the root to a leaf, */
  lemma {:induction false} Deepest(o: Ctx, t: Tree) returns (c: Ctx)
    ensures Plug(c, Leaf) == Plug(o, t) && Depth(c) == Depth(o) + Height(t)
    decreases t
  {
    if t.Leaf? {
      c := o;
    } else {
      var s := if Height(t.l) < Height(t.r) then Right else Left;
      c := Deepest(In(o, s, t.n, Sub(t, Opp(s))), Sub(t, s));
    }
  }

  /** and no path is longer. */
  lemma {:induction false} NoDeeper(c: Ctx, t: Tree)
    ensures Depth(c) + Height(t) <= Height(Plug(c, t))
    decreases c
  {
    if !c.Top? { NoDeeper(c.up, Mk(c.side, t, c.n, c.sib)); }
  }
}
