/** The red-black tree of ngx_rbtree.c, on a memory of node cells with parent pointers and one
    shared sentinel. The ghost field `tree` is the tree that the pointers spell out; a place in it
    is a subtree and the context around it. */
module RbTree {

  /** The two insert functions a tree can be set up with. */
  datatype Comparison = Value | TimerValue

  const WORD: int := 0x1_0000_0000_0000_0000

  /** ngx_rbtree_key_t: an unsigned machine word. */
  type Key = k: nat | k < 0x1_0000_0000_0000_0000

  /** The test that sends a new key to the left of `other`; timers test the sign of the difference. */
  predicate GoesLeft(cmp: Comparison, key: Key, other: Key) {
    match cmp
    case Value => key < other
    case TimerValue => WORD / 2 <= (key - other) % WORD
  }

  class Node {
    var key: Key
    var left: Node?
    var right: Node?
    var parent: Node?
    var red: bool

    constructor (key: Key)
      ensures this.key == key
    {
      this.key, red := key, false;
      left, right, parent := null, null, null;
    }
  }

  /** A snapshot of the links of some nodes. */
  datatype Cell = Cell(left: Node?, right: Node?, parent: Node?, red: bool)
  type Memory = map<Node, Cell>

  datatype Tree = Leaf | Fork(l: Tree, x: Node, red: bool, r: Tree)
  datatype Context =
    | Top
    | InLeft(up: Context, x: Node, red: bool, r: Tree)
    | InRight(up: Context, l: Tree, x: Node, red: bool)

  function Plug(c: Context, t: Tree): Tree {
    match c
    case Top => t
    case InLeft(up, x, red, r) => Plug(up, Fork(t, x, red, r))
    case InRight(up, l, x, red) => Plug(up, Fork(l, x, red, t))
  }

  ghost function Ids(t: Tree): set<Node> {
    if t.Leaf? then {} else Ids(t.l) + {t.x} + Ids(t.r)
  }

  ghost predicate Distinct(t: Tree) {
    t.Fork? ==>
      && t.x !in Ids(t.l) && t.x !in Ids(t.r) && Ids(t.l) !! Ids(t.r)
      && Distinct(t.l) && Distinct(t.r)
  }

  function Root(s: Node, t: Tree): Node {
    if t.Leaf? then s else t.x
  }

  /** The memory spells out `t`; the parent of its root is left open, as in the source. */
  ghost predicate Rep(m: Memory, s: Node, t: Tree) {
    t.Fork? ==>
      && t.x in m && t.x != s
      && m[t.x].red == t.red && m[t.x].left == Root(s, t.l) && m[t.x].right == Root(s, t.r)
      && Rep(m, s, t.l) && Rep(m, s, t.r)
      && (t.l.Fork? ==> m[t.l.x].parent == t.x) && (t.r.Fork? ==> m[t.r.x].parent == t.x)
  }

  /* ---- moving about in a tree ---- */

  ghost predicate SameOn(m: Memory, m': Memory, xs: set<Node>) {
    forall y :: y in xs && y in m ==> y in m' && m'[y] == m[y]
  }

  lemma {:induction false} Frame(m: Memory, m': Memory, s: Node, t: Tree)
    requires Rep(m, s, t) && SameOn(m, m', Ids(t))
    ensures Rep(m', s, t)
  {
    if t.Fork? {
      Frame(m, m', s, t.l);
      Frame(m, m', s, t.r);
      assert t.l.Fork? ==> t.l.x in Ids(t);
      assert t.r.Fork? ==> t.r.x in Ids(t);
    }
  }

  /** What the pointers around a place look like. */
  ghost predicate Hangs(m: Memory, s: Node, c: Context, t: Tree) {
    && (t.Fork? && !c.Top? ==> t.x in m && m[t.x].parent == c.x)
    && (!c.Top? ==> c.x in m && c.x != s && c.x !in Ids(t) && m[c.x].red == c.red)
    && (c.InLeft? ==> m[c.x].left == Root(s, t) && m[c.x].right == Root(s, c.r) && Rep(m, s, c.r) && Ids(c.r) !! Ids(t))
    && (c.InRight? ==>
       m[c.x].right == Root(s, t) && m[c.x].left == Root(s, c.l) && Rep(m, s, c.l) && Ids(c.l) !! Ids(t))
  }

  lemma {:induction false} Focus(m: Memory, s: Node, c: Context, t: Tree)
    requires Rep(m, s, Plug(c, t)) && Distinct(Plug(c, t))
    ensures Rep(m, s, t) && Distinct(t) && Ids(t) <= Ids(Plug(c, t)) && Hangs(m, s, c, t)
    ensures !c.Top? ==> c.x in Ids(Plug(c, t)) && Root(s, Plug(c, t)) !in Ids(t)
    decreases c
  {
    match c
    case Top =>
    case InLeft(up, x, red, r) => Focus(m, s, up, Fork(t, x, red, r));
    case InRight(up, l, x, red) => Focus(m, s, up, Fork(l, x, red, t));
  }

  /** The link of the context that leads to the place. */
  ghost predicate Relinked(m: Memory, m': Memory, s: Node, c: Context, p: Node)
    requires !c.Top? ==> c.x in m && c.x in m'
  {
    && (c.InLeft? ==> m'[c.x] == m[c.x].(left := p))
    && (c.InRight? ==> m'[c.x] == m[c.x].(right := p))
  }

  /** `t'` in `m'` may stand where `t` stood in `m`, inside a tree whose nodes are `all`: only `t'`
      is new, and outside `t` nothing changed but perhaps the cell at `hook`. */
  ghost predicate Swap(m: Memory, m': Memory, s: Node, all: set<Node>, hook: Node?, t: Tree, t': Tree) {
    && Ids(t) <= all
    && Rep(m, s, t) && Distinct(t) && Rep(m', s, t') && Distinct(t')
    && (forall z :: z in Ids(t') && z in all ==> z in Ids(t))
    && (forall z :: z in all && z !in Ids(t) && z != hook && z in m ==> z in m' && m'[z] == m[z])
  }

  lemma SwapLeft(m: Memory, m': Memory, s: Node, all: set<Node>, t: Tree, t': Tree, x: Node, red: bool, r: Tree)
    requires Swap(m, m', s, all, x, t, t')
    requires Rep(m, s, Fork(t, x, red, r)) && Distinct(Fork(t, x, red, r)) && Ids(Fork(t, x, red, r)) <= all
    requires x in m' && m'[x] == m[x].(left := Root(s, t')) && (t'.Fork? ==> m'[t'.x].parent == x)
    ensures Swap(m, m', s, all, null, Fork(t, x, red, r), Fork(t', x, red, r))
  {
    forall z | z in Ids(r) ensures z !in Ids(t') {
      assert z in Ids(Fork(t, x, red, r)) && z in all && z !in Ids(t);
    }
    Frame(m, m', s, r);
    assert r.Fork? ==> r.x in Ids(r);
  }

  lemma SwapRight(m: Memory, m': Memory, s: Node, all: set<Node>, t: Tree, t': Tree, x: Node, red: bool, l: Tree)
    requires Swap(m, m', s, all, x, t, t')
    requires Rep(m, s, Fork(l, x, red, t)) && Distinct(Fork(l, x, red, t)) && Ids(Fork(l, x, red, t)) <= all
    requires x in m' && m'[x] == m[x].(right := Root(s, t')) && (t'.Fork? ==> m'[t'.x].parent == x)
    ensures Swap(m, m', s, all, null, Fork(l, x, red, t), Fork(l, x, red, t'))
  {
    forall z | z in Ids(l) ensures z !in Ids(t') {
      assert z in Ids(Fork(l, x, red, t)) && z in all && z !in Ids(t);
    }
    Frame(m, m', s, l);
    assert l.Fork? ==> l.x in Ids(l);
  }

  /** Replacing the subtree at a place: nothing outside changes but the link to it. */
  lemma {:induction false} Replace(m: Memory, m': Memory, s: Node, c: Context, t: Tree, t': Tree)
    requires Rep(m, s, Plug(c, t)) && Distinct(Plug(c, t))
    requires Swap(m, m', s, Ids(Plug(c, t)), if c.Top? then null else c.x, t, t')
    requires !c.Top? ==> c.x in m && c.x in m' && Relinked(m, m', s, c, Root(s, t'))
    requires !c.Top? && t'.Fork? ==> m'[t'.x].parent == c.x
    ensures Rep(m', s, Plug(c, t')) && Distinct(Plug(c, t'))
    decreases c
  {
    match c
    case Top =>
    case InLeft(up, x, red, r) =>
      Focus(m, s, up, Fork(t, x, red, r));
      SwapLeft(m, m', s, Ids(Plug(c, t)), t, t', x, red, r);
      Replace(m, m', s, up, Fork(t, x, red, r), Fork(t', x, red, r));
    case InRight(up, l, x, red) =>
      Focus(m, s, up, Fork(l, x, red, t));
      SwapRight(m, m', s, Ids(Plug(c, t)), t, t', x, red, l);
      Replace(m, m', s, up, Fork(l, x, red, t), Fork(l, x, red, t'));
  }

  /* ---- rotations ---- */

  lemma RotationIds(a: Tree, x: Node, xr: bool, b: Tree, y: Node, yr: bool, d: Tree)
    ensures Distinct(Fork(a, x, xr, Fork(b, y, yr, d))) <==> Distinct(Fork(Fork(a, x, xr, b), y, yr, d))
    ensures Ids(Fork(a, x, xr, Fork(b, y, yr, d))) == Ids(Fork(Fork(a, x, xr, b), y, yr, d))
  {
    var t, u := Fork(b, y, yr, d), Fork(a, x, xr, b);
    assert Distinct(t) <==> y !in Ids(b) && y !in Ids(d) && Ids(b) !! Ids(d) && Distinct(b) && Distinct(d);
    assert Distinct(u) <==> x !in Ids(a) && x !in Ids(b) && Ids(a) !! Ids(b) && Distinct(a) && Distinct(b);
  }

  /** The cells a rotation of x and y changes: theirs, the parent field of the subtree b that moves
      between them, and the link at `hook` that led to the upper one. */
  ghost predicate Turned(m: Memory, m': Memory, c: Context, x: Node, xCell: Cell, y: Node, yCell: Cell, b: Tree,
                         bParent: Node) {
    && x in m && y in m && x in m' && y in m' && (b.Fork? ==> b.x in m && b.x in m')
    && m'[x] == xCell && m'[y] == yCell
    && (b.Fork? ==> m'[b.x] == m[b.x].(parent := bParent))
    && (forall z :: z in m && z != x && z != y && (b.Fork? ==> z != b.x) && (c.Top? || z != c.x) ==>
       z in m' && m'[z] == m[z])
  }

  /** A subtree whose root only changed its parent. */
  lemma Reparent(m: Memory, m': Memory, s: Node, t: Tree)
    requires Rep(m, s, t) && Distinct(t)
    requires t.Fork? ==> t.x in m' && m'[t.x] == m[t.x].(parent := m'[t.x].parent)
    requires forall z :: z in Ids(t) && z != t.x && z in m ==> z in m' && m'[z] == m[z]
    ensures Rep(m', s, t)
  {
    if t.Fork? {
      Frame(m, m', s, t.l);
      Frame(m, m', s, t.r);
      assert t.l.Fork? ==> t.l.x in Ids(t.l);
      assert t.r.Fork? ==> t.r.x in Ids(t.r);
    }
  }

  lemma TurnedLeft(m: Memory, m': Memory, s: Node, c: Context,
                   a: Tree, x: Node, xr: bool, b: Tree, y: Node, yr: bool, d: Tree)
    requires Rep(m, s, Fork(a, x, xr, Fork(b, y, yr, d))) && Distinct(Fork(a, x, xr, Fork(b, y, yr, d)))
    requires !c.Top? ==> c.x !in Ids(Fork(a, x, xr, Fork(b, y, yr, d)))
    requires x in m && y in m
    requires Turned(m, m', c, x, m[x].(right := Root(s, b), parent := y),
                    y, m[y].(left := x, parent := m[x].parent), b, x)
    ensures Rep(m', s, Fork(Fork(a, x, xr, b), y, yr, d))
  {
    assert Rep(m, s, Fork(b, y, yr, d)) && Distinct(Fork(b, y, yr, d));
    assert Rep(m, s, a) && Rep(m, s, b) && Rep(m, s, d);
    assert a.Fork? ==> a.x in Ids(a);
    assert d.Fork? ==> d.x in Ids(d);
    assert SameOn(m, m', Ids(a));
    assert SameOn(m, m', Ids(d));
    Frame(m, m', s, a);
    Frame(m, m', s, d);
    Reparent(m, m', s, b);
    assert Rep(m', s, Fork(a, x, xr, b));
  }

  lemma {:induction false} SameRoot(s: Node, c: Context, t: Tree, t': Tree)
    requires !c.Top?
    ensures Root(s, Plug(c, t)) == Root(s, Plug(c, t'))
    decreases c
  {
    match c
    case InLeft(up, x, red, r) =>
      if !up.Top? {
        SameRoot(s, up, Fork(t, x, red, r), Fork(t', x, red, r));
      }
    case InRight(up, l, x, red) =>
      if !up.Top? {
        SameRoot(s, up, Fork(l, x, red, t), Fork(l, x, red, t'));
      }
  }

  ghost function Outside(c: Context): set<Node> {
    match c
    case Top => {}
    case InLeft(up, x, red, r) => Outside(up) + {x} + Ids(r)
    case InRight(up, l, x, red) => Outside(up) + {x} + Ids(l)
  }

  lemma {:induction false} PlugIds(c: Context, t: Tree)
    ensures Ids(Plug(c, t)) == Outside(c) + Ids(t)
    decreases c
  {
    match c
    case Top =>
    case InLeft(up, x, red, r) => PlugIds(up, Fork(t, x, red, r));
    case InRight(up, l, x, red) => PlugIds(up, Fork(l, x, red, t));
  }

  /** What the writes of a left rotation rely on. */
  lemma LeftReady(m: Memory, s: Node, c: Context,
                  a: Tree, x: Node, xr: bool, b: Tree, y: Node, yr: bool, d: Tree)
    requires Rep(m, s, Plug(c, Fork(a, x, xr, Fork(b, y, yr, d))))
    requires Distinct(Plug(c, Fork(a, x, xr, Fork(b, y, yr, d))))
    ensures x in m && y in m && (b.Fork? ==> b.x in m) && x != s && y != s && (b.Fork? ==> b.x != s)
    ensures m[x].right == y && m[y].left == Root(s, b) && x != y && (b.Fork? ==> b.x != x && b.x != y)
    ensures !c.Top? ==> c.x in m && c.x != s && c.x != x && c.x != y && (b.Fork? ==> c.x != b.x) && m[x].parent == c.x
    ensures c.InLeft? ==> m[c.x].left == x
    ensures c.InRight? ==> m[c.x].right == x && m[c.x].left != x
    ensures (x == Root(s, Plug(c, Fork(a, x, xr, Fork(b, y, yr, d))))) == c.Top?
  {
    Focus(m, s, c, Fork(a, x, xr, Fork(b, y, yr, d)));
    assert Rep(m, s, Fork(b, y, yr, d)) && Rep(m, s, b);
    assert b.Fork? ==> b.x in Ids(b);
    assert c.InRight? && c.l.Fork? ==> c.l.x in Ids(c.l);
  }

  lemma LeftSwap(m: Memory, m': Memory, s: Node, all: set<Node>, c: Context,
                 a: Tree, x: Node, xr: bool, b: Tree, y: Node, yr: bool, d: Tree)
    requires var t := Fork(a, x, xr, Fork(b, y, yr, d));
      Rep(m, s, t) && Distinct(t) && Ids(t) <= all && (!c.Top? ==> c.x !in Ids(t))
    requires x in m && y in m
    requires Turned(m, m', c, x, m[x].(right := Root(s, b), parent := y),
                    y, m[y].(left := x, parent := m[x].parent), b, x)
    ensures Swap(m, m', s, all, if c.Top? then null else c.x,
        Fork(a, x, xr, Fork(b, y, yr, d)), Fork(Fork(a, x, xr, b), y, yr, d))
  {
    RotationIds(a, x, xr, b, y, yr, d);
    TurnedLeft(m, m', s, c, a, x, xr, b, y, yr, d);
    assert Ids(Fork(b, y, yr, d)) <= Ids(Fork(a, x, xr, Fork(b, y, yr, d)));
    assert b.Fork? ==> b.x in Ids(b);
  }

  lemma TurnedRight(m: Memory, m': Memory, s: Node, c: Context,
                    a: Tree, x: Node, xr: bool, b: Tree, y: Node, yr: bool, d: Tree)
    requires Rep(m, s, Fork(Fork(a, x, xr, b), y, yr, d)) && Distinct(Fork(Fork(a, x, xr, b), y, yr, d))
    requires !c.Top? ==> c.x !in Ids(Fork(Fork(a, x, xr, b), y, yr, d))
    requires x in m && y in m
    requires Turned(m, m', c, y, m[y].(left := Root(s, b), parent := x),
                    x, m[x].(right := y, parent := m[y].parent), b, y)
    ensures Rep(m', s, Fork(a, x, xr, Fork(b, y, yr, d)))
  {
    assert Rep(m, s, Fork(a, x, xr, b)) && Distinct(Fork(a, x, xr, b));
    assert Rep(m, s, a) && Rep(m, s, b) && Rep(m, s, d);
    assert a.Fork? ==> a.x in Ids(a);
    assert d.Fork? ==> d.x in Ids(d);
    assert SameOn(m, m', Ids(a));
    assert SameOn(m, m', Ids(d));
    Frame(m, m', s, a);
    Frame(m, m', s, d);
    Reparent(m, m', s, b);
    assert Rep(m', s, Fork(b, y, yr, d));
  }

  lemma RightReady(m: Memory, s: Node, c: Context,
                   a: Tree, x: Node, xr: bool, b: Tree, y: Node, yr: bool, d: Tree)
    requires Rep(m, s, Plug(c, Fork(Fork(a, x, xr, b), y, yr, d)))
    requires Distinct(Plug(c, Fork(Fork(a, x, xr, b), y, yr, d)))
    ensures x in m && y in m && (b.Fork? ==> b.x in m) && x != s && y != s && (b.Fork? ==> b.x != s)
    ensures m[y].left == x && m[x].right == Root(s, b) && x != y && (b.Fork? ==> b.x != x && b.x != y)
    ensures !c.Top? ==> c.x in m && c.x != s && c.x != x && c.x != y && (b.Fork? ==> c.x != b.x) && m[y].parent == c.x
    ensures c.InLeft? ==> m[c.x].left == y && m[c.x].right != y
    ensures c.InRight? ==> m[c.x].right == y
    ensures (y == Root(s, Plug(c, Fork(Fork(a, x, xr, b), y, yr, d)))) == c.Top?
  {
    Focus(m, s, c, Fork(Fork(a, x, xr, b), y, yr, d));
    assert Rep(m, s, Fork(a, x, xr, b)) && Rep(m, s, b);
    assert b.Fork? ==> b.x in Ids(b);
    assert c.InLeft? && c.r.Fork? ==> c.r.x in Ids(c.r);
  }

  lemma RightSwap(m: Memory, m': Memory, s: Node, all: set<Node>, c: Context,
                  a: Tree, x: Node, xr: bool, b: Tree, y: Node, yr: bool, d: Tree)
    requires var t := Fork(Fork(a, x, xr, b), y, yr, d);
      Rep(m, s, t) && Distinct(t) && Ids(t) <= all && (!c.Top? ==> c.x !in Ids(t))
    requires x in m && y in m
    requires Turned(m, m', c, y, m[y].(left := Root(s, b), parent := x),
                    x, m[x].(right := y, parent := m[y].parent), b, y)
    ensures Swap(m, m', s, all, if c.Top? then null else c.x,
        Fork(Fork(a, x, xr, b), y, yr, d), Fork(a, x, xr, Fork(b, y, yr, d)))
  {
    RotationIds(a, x, xr, b, y, yr, d);
    TurnedRight(m, m', s, c, a, x, xr, b, y, yr, d);
    assert Ids(Fork(a, x, xr, b)) <= Ids(Fork(Fork(a, x, xr, b), y, yr, d));
    assert b.Fork? ==> b.x in Ids(b);
  }

  /* ---- order and colours ---- */

  ghost function Inorder(t: Tree): seq<Node> {
    if t.Leaf? then [] else Inorder(t.l) + [t.x] + Inorder(t.r)
  }

  ghost function Before(c: Context): seq<Node> {
    match c
    case Top => []
    case InLeft(up, x, red, r) => Before(up)
    case InRight(up, l, x, red) => Before(up) + Inorder(l) + [x]
  }

  ghost function After(c: Context): seq<Node> {
    match c
    case Top => []
    case InLeft(up, x, red, r) => [x] + Inorder(r) + After(up)
    case InRight(up, l, x, red) => After(up)
  }

  lemma Regroup(a: seq<Node>, b: seq<Node>, x: seq<Node>, c: seq<Node>, d: seq<Node>)
    ensures a + (b + x + c) + d == (a + b) + x + (c + d) == a + b + (x + c + d) == (a + b + x) + c + d
    ensures a + (b + c) + d == (a + b) + (c + d)
    ensures a + b + c == a + (b + c)
  {
  }

  lemma {:induction false} PlugOrder(c: Context, t: Tree)
    ensures Inorder(Plug(c, t)) == Before(c) + Inorder(t) + After(c)
    decreases c
  {
    match c
    case Top =>
    case InLeft(up, x, red, r) =>
      PlugOrder(up, Fork(t, x, red, r));
      Regroup(Before(up), Inorder(t), [x], Inorder(r), After(up));
    case InRight(up, l, x, red) =>
      PlugOrder(up, Fork(l, x, red, t));
      Regroup(Before(up), Inorder(l), [x], Inorder(t), After(up));
  }

  /** Replacing a subtree by one with the same nodes in the same order. */
  ghost predicate SameNodes(t: Tree, t': Tree) {
    Inorder(t) == Inorder(t') && Ids(t) == Ids(t')
  }

  lemma SameOrder(c: Context, t: Tree, t': Tree)
    requires SameNodes(t, t')
    ensures SameNodes(Plug(c, t), Plug(c, t'))
  {
    PlugOrder(c, t);
    PlugOrder(c, t');
    PlugIds(c, t);
    PlugIds(c, t');
  }

  lemma RotationOrder(a: Tree, x: Node, xr: bool, b: Tree, y: Node, yr: bool, d: Tree)
    ensures Inorder(Fork(a, x, xr, Fork(b, y, yr, d))) == Inorder(Fork(Fork(a, x, xr, b), y, yr, d))
  {
    assert Inorder(Fork(a, x, xr, Fork(b, y, yr, d))) == Inorder(a) + [x] + (Inorder(b) + [y] + Inorder(d));
    assert Inorder(Fork(Fork(a, x, xr, b), y, yr, d)) == Inorder(a) + [x] + Inorder(b) + [y] + Inorder(d);
  }

  lemma SameTurn(c: Context, a: Tree, x: Node, xr: bool, b: Tree, y: Node, yr: bool, d: Tree)
    ensures SameNodes(Plug(c, Fork(a, x, xr, Fork(b, y, yr, d))), Plug(c, Fork(Fork(a, x, xr, b), y, yr, d)))
  {
    RotationOrder(a, x, xr, b, y, yr, d);
    RotationIds(a, x, xr, b, y, yr, d);
    SameOrder(c, Fork(a, x, xr, Fork(b, y, yr, d)), Fork(Fork(a, x, xr, b), y, yr, d));
  }

  lemma RotatedLeft(m: Memory, m': Memory, s: Node, c: Context,
                    a: Tree, x: Node, xr: bool, b: Tree, y: Node, yr: bool, d: Tree)
    requires Rep(m, s, Plug(c, Fork(a, x, xr, Fork(b, y, yr, d))))
    requires Distinct(Plug(c, Fork(a, x, xr, Fork(b, y, yr, d))))
    requires x in m && y in m
    requires Turned(m, m', c, x, m[x].(right := Root(s, b), parent := y),
                    y, m[y].(left := x, parent := m[x].parent), b, x)
    requires !c.Top? ==> c.x in m && c.x in m' && Relinked(m, m', s, c, y)
    ensures Rep(m', s, Plug(c, Fork(Fork(a, x, xr, b), y, yr, d)))
    ensures Distinct(Plug(c, Fork(Fork(a, x, xr, b), y, yr, d)))
    ensures SameNodes(Plug(c, Fork(a, x, xr, Fork(b, y, yr, d))), Plug(c, Fork(Fork(a, x, xr, b), y, yr, d)))
    ensures Root(s, Plug(c, Fork(Fork(a, x, xr, b), y, yr, d))) == if c.Top? then y
        else Root(s, Plug(c, Fork(a, x, xr, Fork(b, y, yr, d))))
  {
    var t, t' := Fork(a, x, xr, Fork(b, y, yr, d)), Fork(Fork(a, x, xr, b), y, yr, d);
    Focus(m, s, c, t);
    LeftSwap(m, m', s, Ids(Plug(c, t)), c, a, x, xr, b, y, yr, d);
    Replace(m, m', s, c, t, t');
    SameTurn(c, a, x, xr, b, y, yr, d);
    if !c.Top? {
      SameRoot(s, c, t, t');
    }
  }

  lemma RotatedRight(m: Memory, m': Memory, s: Node, c: Context,
                     a: Tree, x: Node, xr: bool, b: Tree, y: Node, yr: bool, d: Tree)
    requires Rep(m, s, Plug(c, Fork(Fork(a, x, xr, b), y, yr, d)))
    requires Distinct(Plug(c, Fork(Fork(a, x, xr, b), y, yr, d)))
    requires x in m && y in m
    requires Turned(m, m', c, y, m[y].(left := Root(s, b), parent := x),
                    x, m[x].(right := y, parent := m[y].parent), b, y)
    requires !c.Top? ==> c.x in m && c.x in m' && Relinked(m, m', s, c, x)
    ensures Rep(m', s, Plug(c, Fork(a, x, xr, Fork(b, y, yr, d))))
    ensures Distinct(Plug(c, Fork(a, x, xr, Fork(b, y, yr, d))))
    ensures SameNodes(Plug(c, Fork(Fork(a, x, xr, b), y, yr, d)), Plug(c, Fork(a, x, xr, Fork(b, y, yr, d))))
    ensures Root(s, Plug(c, Fork(a, x, xr, Fork(b, y, yr, d)))) == if c.Top? then x
        else Root(s, Plug(c, Fork(Fork(a, x, xr, b), y, yr, d)))
  {
    var t, t' := Fork(Fork(a, x, xr, b), y, yr, d), Fork(a, x, xr, Fork(b, y, yr, d));
    Focus(m, s, c, t);
    RightSwap(m, m', s, Ids(Plug(c, t)), c, a, x, xr, b, y, yr, d);
    Replace(m, m', s, c, t, t');
    SameTurn(c, a, x, xr, b, y, yr, d);
    if !c.Top? {
      SameRoot(s, c, t, t');
    }
  }

  lemma Recolored(m: Memory, m': Memory, s: Node, c: Context, l: Tree, x: Node, was: bool, red: bool, r: Tree)
    requires Rep(m, s, Plug(c, Fork(l, x, was, r))) && Distinct(Plug(c, Fork(l, x, was, r)))
    requires m'.Keys == m.Keys && forall z :: z in m ==> m'[z] == if z == x then m[z].(red := red) else m[z]
    ensures Rep(m', s, Plug(c, Fork(l, x, red, r))) && Distinct(Plug(c, Fork(l, x, red, r)))
    ensures x in Ids(Plug(c, Fork(l, x, was, r)))
    ensures SameNodes(Plug(c, Fork(l, x, was, r)), Plug(c, Fork(l, x, red, r)))
    ensures Root(s, Plug(c, Fork(l, x, red, r))) == Root(s, Plug(c, Fork(l, x, was, r)))
  {
    var t, t' := Fork(l, x, was, r), Fork(l, x, red, r);
    Focus(m, s, c, t);
    assert SameOn(m, m', Ids(l));
    assert SameOn(m, m', Ids(r));
    Frame(m, m', s, l);
    Frame(m, m', s, r);
    assert l.Fork? ==> l.x in Ids(l);
    assert r.Fork? ==> r.x in Ids(r);
    SameOrder(c, t, t');
    if !c.Top? {
      SameRoot(s, c, t, t');
    }
    Replace(m, m', s, c, t, t');
  }

  predicate IsRed(t: Tree) {
    t.Fork? && t.red
  }

  predicate TopRed(c: Context) {
    !c.Top? && c.red
  }

  /** Black nodes on the leftmost path. */
  function BlackHeight(t: Tree): nat {
    if t.Leaf? then 0 else BlackHeight(t.l) + if t.red then 0 else 1
  }

  /** Every path has the same number of black nodes, and no red node has a red child. */
  predicate Balanced(t: Tree) {
    t.Fork? ==>
      && Balanced(t.l) && Balanced(t.r) && BlackHeight(t.l) == BlackHeight(t.r)
      && (t.red ==> !IsRed(t.l) && !IsRed(t.r))
  }

  predicate RedBlack(t: Tree) {
    Balanced(t) && !IsRed(t)
  }

  /** The context is balanced around a subtree of black height `h`. */
  predicate Around(c: Context, h: nat) {
    match c
    case Top => true
    case InLeft(up, x, red, r) =>
      && Balanced(r) && BlackHeight(r) == h && (red ==> !IsRed(r) && !TopRed(up) && !up.Top?)
      && Around(up, if red then h else h + 1)
    case InRight(up, l, x, red) =>
      && Balanced(l) && BlackHeight(l) == h && (red ==> !IsRed(l) && !TopRed(up) && !up.Top?)
      && Around(up, if red then h else h + 1)
  }

  lemma {:induction false} PlugBalanced(c: Context, t: Tree)
    requires Balanced(t) && Around(c, BlackHeight(t)) && (IsRed(t) ==> !TopRed(c) && !c.Top?)
    ensures RedBlack(Plug(c, t))
    decreases c
  {
    match c
    case Top =>
    case InLeft(up, x, red, r) => PlugBalanced(up, Fork(t, x, red, r));
    case InRight(up, l, x, red) => PlugBalanced(up, Fork(l, x, red, t));
  }

  lemma {:induction false} UnplugBalanced(c: Context, t: Tree)
    requires RedBlack(Plug(c, t))
    ensures Balanced(t) && Around(c, BlackHeight(t)) && (IsRed(t) ==> !TopRed(c) && !c.Top?)
    decreases c
  {
    match c
    case Top =>
    case InLeft(up, x, red, r) => UnplugBalanced(up, Fork(t, x, red, r));
    case InRight(up, l, x, red) => UnplugBalanced(up, Fork(l, x, red, t));
  }

  function Depth(c: Context): nat {
    if c.Top? then 0 else 1 + Depth(c.up)
  }

  /** A place that holds a red node under a red parent, everything else being in order. */
  predicate RedUnderRed(c: Context, t: Tree) {
    IsRed(t) && Balanced(t) && TopRed(c) && Around(c, BlackHeight(t))
  }

  /** The subtree at the parent. */
  function ParentTree(c: Context, t: Tree): (p: Tree)
    requires !c.Top?
    ensures p.Fork?
  {
    if c.InLeft? then Fork(t, c.x, c.red, c.r) else Fork(c.l, c.x, c.red, t)
  }

  /** The parent's subtree once the red pair leans away from the grandparent. */
  function LeanLeft(c: Context, t: Tree): Tree
    requires !c.Top? && t.Fork?
  {
    if c.InLeft? then Fork(t, c.x, true, c.r) else Fork(Fork(c.l, c.x, true, t.l), t.x, true, t.r)
  }

  function LeanRight(c: Context, t: Tree): Tree
    requires !c.Top? && t.Fork?
  {
    if c.InRight? then Fork(c.l, c.x, true, t) else Fork(t.l, t.x, true, Fork(t.r, c.x, true, c.r))
  }

  lemma RedUncle(c: Context, t: Tree)
    requires RedUnderRed(c, t)
    ensures !c.up.Top? && !c.up.red
    ensures var up, p := c.up, if c.InLeft? then Fork(t, c.x, false, c.r) else Fork(c.l, c.x, false, t);
            && (up.InLeft? && IsRed(up.r) ==>
                 var g := Fork(p, up.x, true, up.r.(red := false)); Balanced(g) && Around(up.up, BlackHeight(g)))
            && (up.InRight? && IsRed(up.l) ==>
                 var g := Fork(up.l.(red := false), up.x, true, p); Balanced(g) && Around(up.up, BlackHeight(g)))
  {
    assert Around(c.up, BlackHeight(t));
  }

  lemma BlackUncle(c: Context, t: Tree)
    requires RedUnderRed(c, t) && !c.up.Top?
    ensures c.up.InLeft? && !IsRed(c.up.r) ==>
      var p := LeanLeft(c, t);
      Balanced(p.l) && p.l.red && Around(InLeft(c.up.up, p.x, false, Fork(p.r, c.up.x, true, c.up.r)), BlackHeight(p.l))
    ensures c.up.InRight? && !IsRed(c.up.l) ==>
      var p := LeanRight(c, t);
      Balanced(p.r) && p.r.red
        && Around(InRight(c.up.up, Fork(c.up.l, c.up.x, true, p.l), p.x, false), BlackHeight(p.r))
  {
    assert Around(c.up, BlackHeight(t));
  }

  /* ---- where a new key goes ---- */

  /** Once a key goes to the left of an element it goes to the left of all later ones. */
  ghost predicate Cut(order: seq<Node>, lefts: set<Node>) {
    forall i, j :: 0 <= i < j < |order| && order[i] in lefts ==> order[j] in lefts
  }

  /** `lefts` is exactly what comes after the place. */
  ghost predicate Splits(c: Context, lefts: set<Node>) {
    && (forall z :: z in Before(c) ==> z !in lefts)
    && (forall z :: z in After(c) ==> z in lefts)
  }

  lemma StepLeft(c: Context, t: Tree, lefts: set<Node>)
    requires t.Fork? && Cut(Inorder(Plug(c, t)), lefts) && Splits(c, lefts) && t.x in lefts
    ensures Splits(InLeft(c, t.x, t.red, t.r), lefts)
  {
    PlugOrder(c, t);
    var o, k := Inorder(Plug(c, t)), |Before(c)| + |Inorder(t.l)|;
    assert o[k] == t.x;
    forall z | z in Inorder(t.r) ensures z in lefts {
      var j :| 0 <= j < |Inorder(t.r)| && Inorder(t.r)[j] == z;
      assert o[k + 1 + j] == z;
    }
  }

  lemma StepRight(c: Context, t: Tree, lefts: set<Node>)
    requires t.Fork? && Cut(Inorder(Plug(c, t)), lefts) && Splits(c, lefts) && t.x !in lefts
    ensures Splits(InRight(c, t.l, t.x, t.red), lefts)
  {
    PlugOrder(c, t);
    var o, k := Inorder(Plug(c, t)), |Before(c)| + |Inorder(t.l)|;
    assert o[k] == t.x;
    forall z | z in Inorder(t.l) ensures z !in lefts {
      var j :| 0 <= j < |Inorder(t.l)| && Inorder(t.l)[j] == z;
      assert o[|Before(c)| + j] == z;
    }
  }

  lemma InsertedAt(c: Context, node: Node, lefts: set<Node>)
    ensures var order, pos := Inorder(Plug(c, Leaf)), |Before(c)|;
      && pos <= |order| && Inorder(Plug(c, Fork(Leaf, node, true, Leaf))) == order[..pos] + [node] + order[pos..]
      && (Splits(c, lefts) ==> forall i :: 0 <= i < |order| ==> (order[i] in lefts <==> pos <= i))
  {
    PlugOrder(c, Leaf);
    PlugOrder(c, Fork(Leaf, node, true, Leaf));
    assert Inorder(Plug(c, Leaf)) == Before(c) + After(c);
    assert Inorder(Fork(Leaf, node, true, Leaf)) == [node];
  }

  lemma Attached(m: Memory, m': Memory, s: Node, c: Context, node: Node)
    requires !c.Top? && Rep(m, s, Plug(c, Leaf)) && Distinct(Plug(c, Leaf))
    requires node !in m && Ids(Plug(c, Leaf)) <= m.Keys && node != s && node in m' && m'[node] == Cell(s, s, c.x, true)
    requires c.x in m && c.x in m' && Relinked(m, m', s, c, node)
    requires forall z :: z in m && z != c.x ==> z in m' && m'[z] == m[z]
    ensures Rep(m', s, Plug(c, Fork(Leaf, node, true, Leaf))) && Distinct(Plug(c, Fork(Leaf, node, true, Leaf)))
    ensures Ids(Plug(c, Fork(Leaf, node, true, Leaf))) == Ids(Plug(c, Leaf)) + {node}
    ensures Root(s, Plug(c, Fork(Leaf, node, true, Leaf))) == Root(s, Plug(c, Leaf))
  {
    var t, t': Tree := Leaf, Fork(Leaf, node, true, Leaf);
    Replace(m, m', s, c, t, t');
    PlugIds(c, t);
    PlugIds(c, t');
    SameRoot(s, c, t, t');
  }

  /* ---- deletion ---- */

  function Compose(inner: Context, c: Context): Context {
    match inner
    case Top => c
    case InLeft(up, x, red, r) => InLeft(Compose(up, c), x, red, r)
    case InRight(up, l, x, red) => InRight(Compose(up, c), l, x, red)
  }

  lemma {:induction false} PlugCompose(inner: Context, c: Context, t: Tree)
    ensures Plug(Compose(inner, c), t) == Plug(c, Plug(inner, t))
    decreases inner
  {
    match inner
    case Top =>
    case InLeft(up, x, red, r) => PlugCompose(up, c, Fork(t, x, red, r));
    case InRight(up, l, x, red) => PlugCompose(up, c, Fork(l, x, red, t));
  }

  /** A node with at most one child: the child (or the leaf) that takes its place. */
  predicate Single(t: Tree, k: Tree) {
    t.Fork? && (if t.l.Leaf? then k == t.r else t.r.Leaf? && k == t.l)
  }

  /** m' is m after the link of the context was set to the child k and the parent of k to the context. */
  ghost predicate CutOut(m: Memory, m': Memory, s: Node, c: Context, x: Node, k: Tree) {
    && (!c.Top? ==> c.x in m && c.x in m' && Relinked(m, m', s, c, Root(s, k)))
    && (k.Fork? ==> k.x in m && k.x in m' && m'[k.x] == if c.Top? then m[k.x] else m[k.x].(parent := c.x))
    && (forall z :: z in m && z != x && (c.Top? || z != c.x) && (k.Fork? ==> z != k.x) ==> z in m' && m'[z] == m[z])
  }

  lemma WithoutSingle(m: Memory, m': Memory, s: Node, c: Context, t: Tree, k: Tree)
    requires Rep(m, s, Plug(c, t)) && Distinct(Plug(c, t)) && Single(t, k) && CutOut(m, m', s, c, t.x, k)
    ensures Rep(m', s, Plug(c, k)) && Distinct(Plug(c, k))
    ensures Ids(Plug(c, k)) == Ids(Plug(c, t)) - {t.x}
    ensures !c.Top? ==> Root(s, Plug(c, k)) == Root(s, Plug(c, t))
  {
    Focus(m, s, c, t);
    assert k.Fork? ==> k.x in Ids(k);
    assert Ids(t) == Ids(k) + {t.x} && Distinct(k) && Rep(m, s, k);
    Reparent(m, m', s, k);
    Replace(m, m', s, c, t, k);
    PlugIds(c, t);
    PlugIds(c, k);
    NotOutside(m, s, c, t);
    if !c.Top? {
      SameRoot(s, c, t, k);
    }
  }

  lemma {:induction false} NotOutside(m: Memory, s: Node, c: Context, t: Tree)
    requires Rep(m, s, Plug(c, t)) && Distinct(Plug(c, t))
    ensures Ids(t) !! Outside(c)
    decreases c
  {
    match c
    case Top =>
    case InLeft(up, x, red, r) =>
      NotOutside(m, s, up, Fork(t, x, red, r));
      Focus(m, s, up, Fork(t, x, red, r));
    case InRight(up, l, x, red) =>
      NotOutside(m, s, up, Fork(l, x, red, t));
      Focus(m, s, up, Fork(l, x, red, t));
  }

  /** m' is m after y took over the links of x. */
  ghost predicate Taken(m: Memory, m': Memory, s: Node, c: Context, l: Tree, x: Node, red: bool, r: Tree, y: Node) {
    && x in m && y in m' && m'[y] == Cell(Root(s, l), Root(s, r), m[x].parent, red)
    && (!c.Top? ==> c.x in m && c.x in m' && Relinked(m, m', s, c, y))
    && (l.Fork? ==> l.x in m && l.x in m' && m'[l.x] == m[l.x].(parent := y))
    && (r.Fork? ==> r.x in m && r.x in m' && m'[r.x] == m[r.x].(parent := y))
    && (forall z ::
          z in m && z != x && z != y && (c.Top? || z != c.x) && (l.Fork? ==> z != l.x) && (r.Fork? ==> z != r.x) ==>
            z in m' && m'[z] == m[z])
  }

  lemma TakenOver(m: Memory, m': Memory, s: Node, c: Context, l: Tree, x: Node, red: bool, r: Tree, y: Node)
    requires Rep(m, s, Plug(c, Fork(l, x, red, r))) && Distinct(Plug(c, Fork(l, x, red, r)))
    requires y !in Ids(Plug(c, Fork(l, x, red, r))) && y != s && Taken(m, m', s, c, l, x, red, r, y)
    ensures Rep(m', s, Plug(c, Fork(l, y, red, r))) && Distinct(Plug(c, Fork(l, y, red, r)))
    ensures Ids(Plug(c, Fork(l, y, red, r))) == Ids(Plug(c, Fork(l, x, red, r))) - {x} + {y}
    ensures Root(s, Plug(c, Fork(l, y, red, r))) == if c.Top? then y else Root(s, Plug(c, Fork(l, x, red, r)))
  {
    hide Rep;
    hide Hangs;
    hide Swap;
    hide Outside;
    var t, t' := Fork(l, x, red, r), Fork(l, y, red, r);
    PlugIds(c, t);
    PlugIds(c, t');
    NotOutside(m, s, c, t);
    Focus(m, s, c, t);
    assert l.Fork? ==> l.x in Ids(l);
    assert r.Fork? ==> r.x in Ids(r);
    Reparent(m, m', s, l);
    Reparent(m, m', s, r);
    Replace(m, m', s, c, t, t');
    if !c.Top? {
      SameRoot(s, c, t, t');
    }
  }

  predicate AllLeft(c: Context) {
    !c.Top? ==> c.InLeft? && AllLeft(c.up)
  }

  lemma {:induction false} AllLeftBefore(c: Context)
    requires AllLeft(c)
    ensures Before(c) == []
  {
    if !c.Top? {
      AllLeftBefore(c.up);
    }
  }

  /** The memory after the leftmost node of a right subtree was cut out, before it takes over. */
  ghost function WithCut(m: Memory, s: Node, inner: Context, x: Node, k: Tree): Memory
    requires x in m && (inner.InLeft? ==> inner.x in m) && (k.Fork? ==> k.x in m)
  {
    var p := if inner.InLeft? then inner.x else x;
    var m1 := m[p := if inner.InLeft? then m[p].(left := Root(s, k)) else m[p].(right := Root(s, k))];
    if k.Fork? then m1[k.x := m1[k.x].(parent := p)] else m1
  }

  lemma {:induction false} PlugFork(c: Context, t: Tree)
    requires !c.Top? || t.Fork?
    ensures Plug(c, t).Fork?
    decreases c
  {
    match c
    case Top =>
    case InLeft(up, x, red, r) => PlugFork(up, Fork(t, x, red, r));
    case InRight(up, l, x, red) => PlugFork(up, Fork(l, x, red, t));
  }

  lemma CutInner(m: Memory, s: Node, c: Context, l: Tree, x: Node, red: bool, inner: Context, y: Node, yr: bool,
                 k: Tree)
    requires var t := Fork(l, x, red, Plug(inner, Fork(Leaf, y, yr, k)));
      Rep(m, s, Plug(c, t)) && Distinct(Plug(c, t)) && AllLeft(inner)
    ensures x in m && y in m && (inner.InLeft? ==> inner.x in m && inner.x != x && inner.x != y)
    ensures (k.Fork? ==> k.x in m && k.x != x && k.x != y)
    ensures y in Ids(Plug(c, Fork(l, x, red, Plug(inner, Fork(Leaf, y, yr, k)))))
    ensures y != x && y != s && x != s && m[y].left == s && m[y].right == Root(s, k) && m[y].red == yr
    ensures m[y].parent == if inner.InLeft? then inner.x else x
    ensures inner.InLeft? ==> m[inner.x].left == y && inner.x != s && (k.Fork? ==> k.x != inner.x)
    ensures inner.Top? ==> m[x].right == y && m[x].left != y
    ensures var t1, m1 := Fork(l, x, red, Plug(inner, k)), WithCut(m, s, inner, x, k);
      && Rep(m1, s, Plug(c, t1)) && Distinct(Plug(c, t1)) && y !in Ids(Plug(c, t1))
      && Ids(Plug(c, t1)) == Ids(Plug(c, Fork(l, x, red, Plug(inner, Fork(Leaf, y, yr, k))))) - {y}
      && (!c.Top? ==> Root(s, Plug(c, t1)) == Root(s, Plug(c, Fork(l, x, red, Plug(inner, Fork(Leaf, y, yr, k))))))
  {
    hide Distinct;
    hide Outside;
    var d, t := InRight(c, l, x, red), Fork(Leaf, y, yr, k);
    var deep := Compose(inner, d);
    PlugCompose(inner, d, t);
    PlugCompose(inner, d, k);
    Focus(m, s, deep, t);
    Focus(m, s, d, Plug(inner, t));
    PlugIds(inner, t);
    assert k.Fork? ==> k.x in Ids(k);
    assert l.Fork? ==> l.x in Ids(l);
    WithoutSingle(m, WithCut(m, s, inner, x, k), s, deep, t, k);
  }

  lemma {:induction false} Renamed(inner: Context, c: Context, l: Tree, x: Node, y: Node, red: bool, h: nat)
    ensures Around(Compose(inner, InRight(c, l, x, red)), h) == Around(Compose(inner, InRight(c, l, y, red)), h)
    ensures TopRed(Compose(inner, InRight(c, l, x, red))) == TopRed(Compose(inner, InRight(c, l, y, red)))
    ensures !Compose(inner, InRight(c, l, x, red)).Top? && !Compose(inner, InRight(c, l, y, red)).Top?
    decreases inner
  {
    match inner
    case Top =>
    case InLeft(up, z, zr, r) => Renamed(up, c, l, x, y, red, if zr then h else h + 1);
    case InRight(up, zl, z, zr) => Renamed(up, c, l, x, y, red, if zr then h else h + 1);
  }

  /** What is left when a node with at most one child goes: nothing to repair if it was red, and a
      missing black node otherwise. */
  lemma Deficit(c: Context, t: Tree, k: Tree)
    requires RedBlack(Plug(c, t)) && Single(t, k)
    ensures Balanced(k) && BlackHeight(k) == 0 && (k.Fork? ==> Balanced(k.(red := false)))
    ensures if t.red then k.Leaf? && Around(c, 0) && !c.Top? else Around(c, 1)
  {
    UnplugBalanced(c, t);
  }

  /** The nodes a deletion looks at in the right subtree of the deleted node. */
  ghost predicate InnerParts(m: Memory, s: Node, r: Tree, inner: Context, y: Node, k: Tree) {
    && y in Ids(r) && (k.Fork? ==> k.x in Ids(r) && k.x != y) && r.Fork? && r.x in Ids(r)
    && (if inner.Top? then r.x == y else
         inner.x in Ids(r) && inner.x != y && r.x != y && (k.Fork? ==> k.x != inner.x && k.x != r.x)
         && r.x == Root(s, Plug(inner, k)) && y in m && inner.x in m && m[y].parent == inner.x && m[inner.x].left == y)
    && y in m && m[y].left == s && m[y].right == Root(s, k)
  }

  lemma InnerReady(m: Memory, s: Node, inner: Context, y: Node, yr: bool, k: Tree)
    requires Rep(m, s, Plug(inner, Fork(Leaf, y, yr, k))) && Distinct(Plug(inner, Fork(Leaf, y, yr, k)))
    requires AllLeft(inner)
    ensures InnerParts(m, s, Plug(inner, Fork(Leaf, y, yr, k)), inner, y, k)
  {
    var t := Fork(Leaf, y, yr, k);
    Focus(m, s, inner, t);
    assert y in Ids(t) && (k.Fork? ==> k.x in Ids(k) && k.x in Ids(t));
    PlugFork(inner, t);
    if inner.InLeft? {
      SameRoot(s, inner, t, k);
      PlugFork(inner, k);
    }
  }

  /** The place of the deleted node: its parts are apart from each other. */
  ghost predicate OuterParts(m: Memory, s: Node, c: Context, l: Tree, x: Node, r: Tree) {
    && l.Fork? && l.x in Ids(l) && x !in Ids(l) && x !in Ids(r) && Ids(l) !! Ids(r) && s !in Ids(l) && s !in Ids(r)
    && x != s
    && x in m && m[x].left == l.x && m[x].right == Root(s, r) && (r.Fork? ==> r.x in m && m[r.x].parent == x)
    && Ids(l) <= m.Keys && Ids(r) <= m.Keys
    && (!c.Top? ==> c.x in m && c.x != x && c.x !in Ids(l) && c.x !in Ids(r) && c.x != s && m[x].parent == c.x)
    && (c.InLeft? ==> m[c.x].left == x) && (c.InRight? ==> m[c.x].right == x && m[c.x].left != x)
  }

  lemma {:induction false} IdsStored(m: Memory, s: Node, t: Tree)
    requires Rep(m, s, t)
    ensures Ids(t) <= m.Keys && s !in Ids(t)
  {
    if t.Fork? {
      IdsStored(m, s, t.l);
      IdsStored(m, s, t.r);
    }
  }

  lemma OuterReady(m: Memory, s: Node, c: Context, l: Tree, x: Node, red: bool, r: Tree)
    requires Rep(m, s, Plug(c, Fork(l, x, red, r))) && Distinct(Plug(c, Fork(l, x, red, r))) && l.Fork?
    ensures OuterParts(m, s, c, l, x, r) && Rep(m, s, r) && Distinct(r)
    ensures (x == Root(s, Plug(c, Fork(l, x, red, r)))) == c.Top?
  {
    var t := Fork(l, x, red, r);
    Focus(m, s, c, t);
    IdsStored(m, s, l);
    IdsStored(m, s, r);
    assert l.x in Ids(l);
    assert x in Ids(t);
    assert c.InRight? && c.l.Fork? ==> c.l.x in Ids(c.l);
  }

  /** The cells after the writes of WriteSubst, from the cells before; p is null at the root, and q is
      the node itself if subst is its right child. */
  ghost predicate Written(m: Memory, m': Memory, s: Node, node: Node, red: bool, subst: Node, temp: Node,
                          p: Node?, q: Node, lx: Node, rx: Node)
  {
    && node in m && lx in m && lx in m' && m'[lx] == m[lx].(parent := subst)
    && subst in m' && m'[subst] == Cell(lx, if q == node then temp else rx, m[node].parent, red)
    && (q != node ==>
         && q in m && q in m' && rx in m && rx in m'
         && m'[q] == m[q].(left := temp, parent := if q == rx then subst else m[q].parent)
         && (q != rx ==> m'[rx] == m[rx].(parent := subst)))
    && (temp != s ==> temp in m && temp in m' && m'[temp] == m[temp].(parent := if q == node then subst else q))
    && (p != null ==>
         && p in m && p in m'
         && m'[p] == if m[p].left == node then m[p].(left := subst) else m[p].(right := subst))
    && (forall z :: z in m && z !in {node, subst, lx, q, rx, temp} && z != p ==> z in m' && m'[z] == m[z])
  }

  lemma WrittenTaken(m: Memory, m': Memory, s: Node, c: Context, l: Tree, x: Node, red: bool,
                     inner: Context, y: Node, yr: bool, k: Tree, q: Node, rx: Node)
    requires var r := Plug(inner, Fork(Leaf, y, yr, k));
      OuterParts(m, s, c, l, x, r) && InnerParts(m, s, r, inner, y, k)
    requires s !in m && !inner.InRight? && q == (if inner.InLeft? then inner.x else x)
    requires rx == Root(s, Plug(inner, Fork(Leaf, y, yr, k)))
    requires Written(m, m', s, x, red, y, Root(s, k), if c.Top? then null else c.x, q, l.x, rx)
    requires inner.InLeft? ==> Plug(inner, k).Fork?
    ensures (inner.InLeft? ==> inner.x in m) && (k.Fork? ==> k.x in m)
    ensures Taken(WithCut(m, s, inner, x, k), m', s, c, l, x, red, Plug(inner, k), y)
  {
  }

  /** The nodes that WriteSubst writes to, and how they are apart from each other. */
  ghost predicate SubstReady(m: Memory, s: Node, node: Node, subst: Node, temp: Node, p: Node?, q: Node, lx: Node,
                             rx: Node) {
    && {node, subst, q, lx, rx} <= m.Keys && (temp == s || temp in m) && (p == null || p in m) && s !in m
    && m[node].left == lx && m[node].right == rx && m[subst].parent == q && m[subst].left == s && m[subst].right == temp
    && node != subst && lx !in {node, subst, q, temp, rx} && temp !in {node, subst, q} && q != subst && rx != node
    && (if q == node then rx == subst else m[q].left == subst && rx != subst && rx != temp)
    && (p != null ==>
         && p == m[node].parent && p !in {node, subst, q, lx, rx, temp}
         && (m[p].left == node || m[p].right == node))
  }

  lemma PairReady(m: Memory, s: Node, c: Context, l: Tree, x: Node, inner: Context, y: Node, yr: bool, k: Tree,
                  q: Node, rx: Node)
    requires var r := Plug(inner, Fork(Leaf, y, yr, k));
      OuterParts(m, s, c, l, x, r) && InnerParts(m, s, r, inner, y, k)
    requires s !in m && !inner.InRight? && q == (if inner.InLeft? then inner.x else x)
    requires rx == Root(s, Plug(inner, Fork(Leaf, y, yr, k)))
    ensures SubstReady(m, s, x, y, Root(s, k), if c.Top? then null else c.x, q, l.x, rx)
  {
  }

  /** Removing a node with two children: what WriteSubst leaves behind is the tree with the minimum of
      the right subtree in the place of the removed node. */
  lemma PairGone(m: Memory, m': Memory, s: Node, c: Context, l: Tree, x: Node, red: bool,
                 inner: Context, y: Node, yr: bool, k: Tree)
    requires var t := Fork(l, x, red, Plug(inner, Fork(Leaf, y, yr, k)));
      Rep(m, s, Plug(c, t)) && Distinct(Plug(c, t)) && l.Fork? && AllLeft(inner) && s !in m
    requires Written(m, m', s, x, red, y, Root(s, k), if c.Top? then null else c.x,
                     if inner.InLeft? then inner.x else x, l.x, Root(s, Plug(inner, Fork(Leaf, y, yr, k))))
    ensures var t' := Fork(l, y, red, Plug(inner, k));
      Rep(m', s, Plug(c, t')) && Distinct(Plug(c, t'))
    ensures var t, t' := Fork(l, x, red, Plug(inner, Fork(Leaf, y, yr, k))), Fork(l, y, red, Plug(inner, k));
      && Ids(Plug(c, t')) == Ids(Plug(c, t)) - {x}
      && Root(s, Plug(c, t')) == if c.Top? then y else Root(s, Plug(c, t))
  {
    hide Plug;
    hide Ids;
    hide Distinct;
    hide Root;
    hide Rep;
    hide Taken;
    hide WithCut;
    hide Written;
    OuterReady(m, s, c, l, x, red, Plug(inner, Fork(Leaf, y, yr, k)));
    InnerReady(m, s, inner, y, yr, k);
    CutInner(m, s, c, l, x, red, inner, y, yr, k);
    if inner.InLeft? {
      PlugFork(inner, k);
    }
    WrittenTaken(m, m', s, c, l, x, red, inner, y, yr, k, if inner.InLeft? then inner.x else x,
      Root(s, Plug(inner, Fork(Leaf, y, yr, k))));
    TakenOver(WithCut(m, s, inner, x, k), m', s, c, l, x, red, Plug(inner, k), y);
  }

  function Blackened(t: Tree): Tree {
    if t.Leaf? then Leaf else t.(red := false)
  }

  /** The place is one black node short; the root of its subtree may be red under a red node. */
  predicate Short(c: Context, t: Tree) {
    Balanced(Blackened(t)) && Around(c, BlackHeight(t) + 1)
  }

  lemma ShortEnds(c: Context, t: Tree)
    requires Short(c, t) && (c.Top? || IsRed(t))
    ensures RedBlack(Plug(c, Blackened(t)))
  {
    PlugBalanced(c, Blackened(t));
  }

  /** A red sibling: once rotated up, the place has a black sibling under a red parent. */
  lemma RedSibling(c: Context, t: Tree)
    requires Short(c, t) && !IsRed(t)
    ensures c.InLeft? ==> c.r.Fork? && (c.r.red ==> !c.red && c.r.l.Fork? && !c.r.l.red)
    ensures c.InLeft? && c.r.red ==> Short(InLeft(InLeft(c.up, c.r.x, false, c.r.r), c.x, true, c.r.l), t)
    ensures c.InRight? ==> c.l.Fork? && (c.l.red ==> !c.red && c.l.r.Fork? && !c.l.r.red)
    ensures c.InRight? && c.l.red ==> Short(InRight(InRight(c.up, c.l.l, c.l.x, false), c.l.r, c.x, true), t)
  {
  }

  /** A black sibling with black children turns red: the parent's subtree is the short one. */
  lemma BlackNephews(c: Context, t: Tree)
    requires Short(c, t) && !IsRed(t)
    ensures c.InLeft? && c.r.Fork? && !c.r.red && !IsRed(c.r.l) && !IsRed(c.r.r) ==>
              Short(c.up, Fork(t, c.x, c.red, c.r.(red := true)))
    ensures c.InRight? && c.l.Fork? && !c.l.red && !IsRed(c.l.l) && !IsRed(c.l.r) ==>
              Short(c.up, Fork(c.l.(red := true), c.x, c.red, t))
  {
  }

  /** Only the nephew next to the place is red: rotated up, it is a black sibling with a red far child. */
  lemma NearNephew(c: Context, t: Tree)
    requires Short(c, t) && !IsRed(t)
    ensures c.InLeft? && c.r.Fork? && !c.r.red && IsRed(c.r.l) && !IsRed(c.r.r) ==>
              Short(c.(r := Fork(c.r.l.l, c.r.l.x, false, Fork(c.r.l.r, c.r.x, true, c.r.r))), t)
    ensures c.InRight? && c.l.Fork? && !c.l.red && !IsRed(c.l.l) && IsRed(c.l.r) ==>
              Short(c.(l := Fork(Fork(c.l.l, c.l.x, true, c.l.r.l), c.l.r.x, false, c.l.r.r)), t)
  {
    assert c.InLeft? && c.r.Fork? ==> Balanced(c.r) && Balanced(c.r.l);
    assert c.InRight? && c.l.Fork? ==> Balanced(c.l) && Balanced(c.l.r);
  }

  /** A red far nephew: the rotation repairs the whole tree. */
  lemma FarNephew(c: Context, t: Tree)
    requires Short(c, t) && !IsRed(t)
    ensures c.InLeft? && c.r.Fork? && !c.r.red && IsRed(c.r.r) ==>
              RedBlack(Plug(c.up, Fork(Fork(t, c.x, false, c.r.l), c.r.x, c.red, Blackened(c.r.r))))
    ensures c.InRight? && c.l.Fork? && !c.l.red && IsRed(c.l.l) ==>
              RedBlack(Plug(c.up, Fork(Blackened(c.l.l), c.l.x, c.red, Fork(c.l.r, c.x, false, t))))
  {
    if c.InLeft? && c.r.Fork? && !c.r.red && IsRed(c.r.r) {
      assert Balanced(c.r.r);
      PlugBalanced(c.up, Fork(Fork(t, c.x, false, c.r.l), c.r.x, c.red, Blackened(c.r.r)));
    }
    if c.InRight? && c.l.Fork? && !c.l.red && IsRed(c.l.l) {
      assert Balanced(c.l.l);
      PlugBalanced(c.up, Fork(Blackened(c.l.l), c.l.x, c.red, Fork(c.l.r, c.x, false, t)));
    }
  }

  /** What a turn of the deletion loop makes smaller. */
  function Work(c: Context, t: Tree): nat {
    2 * Depth(c) + if IsRed(t) then 0 else 1
  }

  lemma {:induction false} PlaceOf(c0: Context, t0: Tree, x: Node) returns (c: Context, t: Tree)
    requires x in Ids(t0)
    ensures Plug(c0, t0) == Plug(c, t) && t.Fork? && t.x == x
    decreases t0
  {
    if x == t0.x {
      c, t := c0, t0;
    } else if x in Ids(t0.l) {
      c, t := PlaceOf(InLeft(c0, t0.x, t0.red, t0.r), t0.l, x);
    } else {
      c, t := PlaceOf(InRight(c0, t0.l, t0.x, t0.red), t0.r, x);
    }
  }

  /** Exactly the element x at `pos` has left the sequence. */
  ghost predicate Removed(order: seq<Node>, order': seq<Node>, x: Node, pos: nat) {
    pos < |order| && order[pos] == x && order' == order[..pos] + order[pos + 1..]
  }

  lemma RemovedBetween(a: seq<Node>, x: Node, z: seq<Node>)
    ensures Removed(a + [x] + z, a + z, x, |a|)
  {
  }

  lemma ForkOrder(c: Context, l: Tree, x: Node, red: bool, r: Tree)
    ensures Inorder(Plug(c, Fork(l, x, red, r))) == (Before(c) + Inorder(l)) + [x] + (Inorder(r) + After(c))
  {
    PlugOrder(c, Fork(l, x, red, r));
    Regroup(Before(c), Inorder(l), [x], Inorder(r), After(c));
  }

  lemma SingleOrder(c: Context, l: Tree, x: Node, red: bool, r: Tree, k: Tree)
    requires Inorder(k) == Inorder(l) + Inorder(r)
    ensures Removed(Inorder(Plug(c, Fork(l, x, red, r))), Inorder(Plug(c, k)), x, |Before(c)| + |Inorder(l)|)
  {
    ForkOrder(c, l, x, red, r);
    PlugOrder(c, k);
    hide Inorder;
    hide Removed;
    hide Plug;
    hide Before;
    hide After;
    SingleSplit(Before(c), Inorder(l), x, Inorder(r), After(c));
  }

  lemma SingleSplit(a: seq<Node>, b: seq<Node>, x: Node, c: seq<Node>, d: seq<Node>)
    ensures Removed((a + b) + [x] + (c + d), a + (b + c) + d, x, |a| + |b|)
  {
    Regroup(a, b, [], c, d);
    RemovedBetween(a + b, x, c + d);
  }

  lemma SingleInorder(t: Tree, k: Tree)
    requires Single(t, k)
    ensures Inorder(t.l) + Inorder(t.r) == Inorder(k)
  {
  }

  lemma {:induction false} MinFirst(inner: Context, y: Node, yr: bool, k: Tree)
    requires AllLeft(inner)
    ensures Inorder(Plug(inner, Fork(Leaf, y, yr, k))) == [y] + Inorder(Plug(inner, k))
  {
    AllLeftBefore(inner);
    ForkOrder(inner, Leaf, y, yr, k);
    PlugOrder(inner, k);
  }

  lemma RemovedBefore(a: seq<Node>, x: Node, y: Node, b: seq<Node>, z: seq<Node>)
    ensures Removed(a + [x] + (([y] + b) + z), a + [y] + (b + z), x, |a|)
  {
    assert ([y] + b) + z == [y] + (b + z);
    assert a + [y] + (b + z) == a + ([y] + (b + z));
    RemovedBetween(a, x, [y] + (b + z));
  }

  /** A node replaced by the first node of its right subtree. */
  lemma PairOrder(c: Context, l: Tree, x: Node, red: bool, r: Tree, y: Node, r': Tree)
    requires Inorder(r) == [y] + Inorder(r')
    ensures Removed(Inorder(Plug(c, Fork(l, x, red, r))), Inorder(Plug(c, Fork(l, y, red, r'))),
        x, |Before(c)| + |Inorder(l)|)
  {
    ForkOrder(c, l, x, red, r);
    ForkOrder(c, l, y, red, r');
    RemovedBefore(Before(c) + Inorder(l), x, y, Inorder(r'), After(c));
  }

  /** The colours after a node with two children was replaced by the minimum of its right subtree. */
  lemma PairDeficit(c: Context, l: Tree, x: Node, red: bool, inner: Context, y: Node, yr: bool, k: Tree)
    requires RedBlack(Plug(c, Fork(l, x, red, Plug(inner, Fork(Leaf, y, yr, k)))))
    ensures var deep := Compose(inner, InRight(c, l, y, red));
      && Plug(deep, k) == Plug(c, Fork(l, y, red, Plug(inner, k)))
      && !deep.Top? && deep.x == (if inner.Top? then y else inner.x)
      && (if yr then RedBlack(Plug(deep, k)) else Short(deep, k))
  {
    var was, deep := Compose(inner, InRight(c, l, x, red)), Compose(inner, InRight(c, l, y, red));
    var t := Fork(Leaf, y, yr, k);
    PlugCompose(inner, InRight(c, l, x, red), t);
    PlugCompose(inner, InRight(c, l, y, red), k);
    Deficit(was, t, k);
    Renamed(inner, c, l, x, y, red, 0);
    Renamed(inner, c, l, x, y, red, 1);
    if yr {
      PlugBalanced(deep, k);
    }
  }

  /* ---- height and key order ---- */

  function Height(t: Tree): nat {
    if t.Leaf? then 0 else 1 + if Height(t.l) < Height(t.r) then Height(t.r) else Height(t.l)
  }

  function Pow2(n: nat): nat {
    if n == 0 then 1 else 2 * Pow2(n - 1)
  }

  lemma {:induction false} Pow2Grows(a: nat, b: nat)
    requires a <= b
    ensures 1 <= Pow2(a) <= Pow2(b)
  {
    if a < b {
      Pow2Grows(a, b - 1);
    } else if a > 0 {
      Pow2Grows(a - 1, b - 1);
    }
  }

  lemma {:induction false} Pow2Twice(n: nat)
    ensures Pow2(2 * n) == Pow2(n) * Pow2(n)
  {
    if n > 0 {
      Pow2Twice(n - 1);
      assert Pow2(2 * n) == 4 * Pow2(2 * (n - 1));
      assert Pow2(n) == 2 * Pow2(n - 1);
    }
  }

  lemma {:induction false} HeightByBlack(t: Tree)
    requires Balanced(t)
    ensures Height(t) <= 2 * BlackHeight(t) + if IsRed(t) then 1 else 0
    ensures Pow2(BlackHeight(t)) <= |Inorder(t)| + 1
  {
    if t.Fork? {
      HeightByBlack(t.l);
      HeightByBlack(t.r);
    }
  }

  /** A tree of n nodes has height at most 2 log2(n + 1). */
  lemma HeightBound(t: Tree)
    requires RedBlack(t)
    ensures Pow2(Height(t)) <= (|Inorder(t)| + 1) * (|Inorder(t)| + 1)
  {
    HeightByBlack(t);
    Pow2Grows(Height(t), 2 * BlackHeight(t));
    Pow2Twice(BlackHeight(t));
    SquareGrows(Pow2(BlackHeight(t)), |Inorder(t)| + 1);
  }

  lemma SquareGrows(a: nat, b: nat)
    requires a <= b
    ensures a * a <= b * b
  {
    assert a * a <= a * b;
  }

  lemma {:induction false} InorderIds(t: Tree, x: Node)
    ensures x in Inorder(t) <==> x in Ids(t)
  {
    if t.Fork? {
      InorderIds(t.l, x);
      InorderIds(t.r, x);
    }
  }

  /** No node is met twice. */
  lemma {:induction false} InorderDistinct(t: Tree, i: nat, j: nat)
    requires Distinct(t) && i < |Inorder(t)| && j < |Inorder(t)| && Inorder(t)[i] == Inorder(t)[j]
    ensures i == j
  {
    var n := |Inorder(t.l)|;
    var x := Inorder(t)[i];
    InorderIds(t.l, x);
    InorderIds(t.r, x);
    assert i < n ==> x == Inorder(t.l)[i];
    assert i > n ==> x == Inorder(t.r)[i - n - 1];
    assert j < n ==> x == Inorder(t.l)[j];
    assert j > n ==> x == Inorder(t.r)[j - n - 1];
    if i < n && j < n {
      InorderDistinct(t.l, i, j);
    } else if i > n && j > n {
      InorderDistinct(t.r, i - n - 1, j - n - 1);
    }
  }

  predicate Sorted(keys: seq<Key>) {
    forall i, j :: 0 <= i < j < |keys| ==> keys[i] <= keys[j]
  }

  /** The time of a timer key, counted from a base at or before all deadlines in use. */
  function Offset(base: Key, key: Key): nat {
    (key - base) % 0x1_0000_0000_0000_0000
  }

  /** All deadlines are within half the key range after a base. */
  predicate Within(base: Key, keys: seq<Key>) {
    forall i :: 0 <= i < |keys| ==> Offset(base, keys[i]) < 0x8000_0000_0000_0000
  }

  /** Deadlines in order, all within half the key range after the base. */
  predicate SortedTimers(base: Key, keys: seq<Key>) {
    && Within(base, keys)
    && (forall i, j :: 0 <= i < j < |keys| ==> Offset(base, keys[i]) <= Offset(base, keys[j]))
  }

  /** Elements a new key is sent to the left of come after those it is sent to the right of. */
  predicate CutKeys(cmp: Comparison, key: Key, keys: seq<Key>) {
    forall i, j :: 0 <= i < j < |keys| && GoesLeft(cmp, key, keys[i]) ==> GoesLeft(cmp, key, keys[j])
  }

  /** `pos` is where the search of an insert function puts the key. */
  predicate CutAt(cmp: Comparison, key: Key, keys: seq<Key>, pos: nat) {
    pos <= |keys| && forall i :: 0 <= i < |keys| ==> (GoesLeft(cmp, key, keys[i]) <==> pos <= i)
  }

  /** Plain keys: the new key goes behind all keys less than or equal to it (first in, first out
      among equals), and the sequence stays sorted. */
  lemma ValueOrder(key: Key, keys: seq<Key>, pos: nat)
    requires Sorted(keys)
    ensures CutKeys(Value, key, keys)
    ensures CutAt(Value, key, keys, pos) ==>
      && Sorted(keys[..pos] + [key] + keys[pos..])
      && forall i :: 0 <= i < |keys| ==> (keys[i] <= key <==> i < pos)
  {
  }

  /** Timer keys: the wrap-around comparison agrees with the order of deadlines as long as all of them
      fit in a window of half the key range. */
  lemma TimerCompares(base: Key, key: Key, other: Key)
    requires Offset(base, key) < 0x8000_0000_0000_0000 && Offset(base, other) < 0x8000_0000_0000_0000
    ensures GoesLeft(TimerValue, key, other) <==> Offset(base, key) < Offset(base, other)
  {
    var a: int, b: int := Offset(base, key), Offset(base, other);
    var d := (key - base) / WORD - (other - base) / WORD;
    assert key - other == d * WORD + (a - b);
    Wraps(d, a - b);
  }

  lemma Wraps(d: int, r: int)
    requires -WORD < r < WORD
    ensures (d * WORD + r) % WORD == if r < 0 then r + WORD else r
  {
    if r < 0 {
      assert d * WORD + r == (d - 1) * WORD + (r + WORD);
    }
  }

  lemma TimerOrder(base: Key, key: Key, keys: seq<Key>, pos: nat)
    requires SortedTimers(base, keys) && Offset(base, key) < WORD / 2
    ensures CutKeys(TimerValue, key, keys)
    ensures CutAt(TimerValue, key, keys, pos) ==>
      && SortedTimers(base, keys[..pos] + [key] + keys[pos..])
      && forall i :: 0 <= i < |keys| ==> (Offset(base, keys[i]) <= Offset(base, key) <==> i < pos)
  {
    forall i | 0 <= i < |keys|
      ensures GoesLeft(TimerValue, key, keys[i]) <==> Offset(base, key) < Offset(base, keys[i])
    {
      TimerCompares(base, key, keys[i]);
    }
  }

  /** What Insert and Delete do to the keys in order. */
  ghost predicate KeyStep(cmp: Comparison, keys: seq<Key>, after: seq<Key>, key: Key, pos: nat) {
    || (pos <= |keys| && (CutKeys(cmp, key, keys) ==> CutAt(cmp, key, keys, pos))
      && after == keys[..pos] + [key] + keys[pos..])
    || (pos < |keys| && after == keys[..pos] + keys[pos + 1..])
  }

  /** The keys after each of a number of inserts and deletes. */
  ghost predicate KeyRun(cmp: Comparison, states: seq<seq<Key>>, given: seq<Key>, places: seq<nat>) {
    && |states| == |given| + 1 == |places| + 1 && states[0] == []
    && forall k {:trigger given[k]} :: 0 <= k < |given| ==> KeyStep(cmp, states[k], states[k + 1], given[k], places[k])
  }

  /** Keys stay sorted over any run of inserts and deletes. */
  lemma {:induction false} ValueRun(states: seq<seq<Key>>, given: seq<Key>, places: seq<nat>, k: nat)
    requires KeyRun(Value, states, given, places) && k < |states|
    ensures Sorted(states[k])
  {
    if k > 0 {
      ValueRun(states, given, places, k - 1);
      assert KeyStep(Value, states[k - 1], states[k], given[k - 1], places[k - 1]);
      ValueOrder(given[k - 1], states[k - 1], places[k - 1]);
    }
  }

  /** The order of deadlines does not depend on the base. */
  lemma Rebased(b1: Key, b2: Key, keys: seq<Key>)
    requires SortedTimers(b1, keys) && Within(b2, keys)
    ensures SortedTimers(b2, keys)
  {
    hide Offset;
    forall i, j | 0 <= i < j < |keys| ensures Offset(b2, keys[i]) <= Offset(b2, keys[j]) {
      TimerCompares(b1, keys[j], keys[i]);
      TimerCompares(b2, keys[j], keys[i]);
    }
  }

  /** So do deadlines, as long as those in the tree are within half the key range after some base, which may move on
      with every step, around the key range any number of times. */
  lemma {:induction false} TimerRun(bases: seq<Key>, states: seq<seq<Key>>, given: seq<Key>, places: seq<nat>, k: nat)
    requires KeyRun(TimerValue, states, given, places) && k < |states| == |bases|
    requires forall i {:trigger states[i]} :: 0 <= i < |states| ==> Within(bases[i], states[i])
    ensures SortedTimers(bases[k], states[k])
  {
    hide GoesLeft;
    hide Offset;
    if k > 0 {
      TimerRun(bases, states, given, places, k - 1);
      assert KeyStep(TimerValue, states[k - 1], states[k], given[k - 1], places[k - 1]);
      assert Within(bases[k], states[k]);
      TimerStep(bases[k - 1], bases[k], states[k - 1], states[k], given[k - 1], places[k - 1]);
    }
  }

  /** One step, with all deadlines within half the key range after b1 before and after b2 afterwards. */
  lemma TimerStep(b1: Key, b2: Key, keys: seq<Key>, after: seq<Key>, key: Key, pos: nat)
    requires SortedTimers(b1, keys) && Within(b2, after) && KeyStep(TimerValue, keys, after, key, pos)
    ensures SortedTimers(b2, after)
  {
    hide Offset;
    hide GoesLeft;
    if pos < |keys| && after == keys[..pos] + keys[pos + 1..] {
      Rebased(b1, b2, after);
    } else {
      assert after == keys[..pos] + [key] + keys[pos..];
      assert Within(b2, keys) && Offset(b2, key) < WORD / 2 by {
        assert after[pos] == key;
        forall i | 0 <= i < |keys| ensures Offset(b2, keys[i]) < WORD / 2 {
          assert keys[i] == after[if i < pos then i else i + 1];
        }
      }
      Rebased(b1, b2, keys);
      TimerOrder(b2, key, keys, pos);
    }
  }

  class RbTree {
    var root: Node
    const sentinel: Node
    const insert: Comparison
    ghost var tree: Tree

    ghost function Links(ns: set<Node>): Memory
      reads ns
    {
      map x | x in ns :: Cell(x.left, x.right, x.parent, x.red)
    }

    /** The keys in order. */
    ghost function Keys(order: seq<Node>): seq<Key>
      reads order
    {
      seq(|order|, i requires 0 <= i < |order| reads order => order[i].key)
    }

    ghost predicate Holds()
      reads this, Ids(tree), sentinel
    {
      && Rep(Links(Ids(tree)), sentinel, tree) && Distinct(tree) && root == Root(sentinel, tree)
      && sentinel !in Ids(tree) && !sentinel.red
    }

    ghost predicate Valid()
      reads this, Ids(tree), sentinel
    {
      Holds() && RedBlack(tree)
    }

    /** The pointers now spell out another tree. */
    ghost method Respell(t: Tree, ns: set<Node>)
      requires ns == Ids(t) && Rep(Links(ns), sentinel, t) && Distinct(t) && root == Root(sentinel, t)
      requires sentinel !in Ids(t) && !sentinel.red
      modifies this`tree
      ensures Holds() && tree == t
    {
      tree := t;
    }

    /** ngx_rbtree_init */
    constructor (sentinel: Node, insert: Comparison)
      requires !sentinel.red
      ensures Valid() && tree == Leaf && this.sentinel == sentinel && this.insert == insert
    {
      this.sentinel, this.insert, root, tree := sentinel, insert, sentinel, Leaf;
    }

    method LeftRotate(node: Node, ghost c: Context, ghost a: Tree, ghost xr: bool,
                      ghost b: Tree, ghost y: Node, ghost yr: bool, ghost d: Tree)
      requires Holds() && tree == Plug(c, Fork(a, node, xr, Fork(b, y, yr, d)))
      modifies this`root, this`tree, Ids(tree)`left, Ids(tree)`right, Ids(tree)`parent
      ensures Holds() && tree == Plug(c, Fork(Fork(a, node, xr, b), y, yr, d))
      ensures SameNodes(old(tree), tree)
    {
      hide Plug;
      hide Ids;
      hide Rep;
      hide Turned;
      ghost var all, before := Ids(tree), Links(Ids(tree));
      LeftReady(before, sentinel, c, a, node, xr, b, y, yr, d);
      RotateLeft(node, y, if c.Top? then node else c.x, Root(sentinel, b));
      RotatedLeft(before, Links(all), sentinel, c, a, node, xr, b, y, yr, d);
      Respell(Plug(c, Fork(Fork(a, node, xr, b), y, yr, d)), all);
    }

    method RightRotate(node: Node, ghost c: Context, ghost a: Tree, ghost x: Node, ghost xr: bool,
                       ghost b: Tree, ghost yr: bool, ghost d: Tree)
      requires Holds() && tree == Plug(c, Fork(Fork(a, x, xr, b), node, yr, d))
      modifies this`root, this`tree, Ids(tree)`left, Ids(tree)`right, Ids(tree)`parent
      ensures Holds() && tree == Plug(c, Fork(a, x, xr, Fork(b, node, yr, d)))
      ensures SameNodes(old(tree), tree)
    {
      hide Plug;
      hide Ids;
      hide Rep;
      hide Turned;
      ghost var all, before := Ids(tree), Links(Ids(tree));
      RightReady(before, sentinel, c, a, x, xr, b, node, yr, d);
      RotateRight(node, x, if c.Top? then node else c.x, Root(sentinel, b));
      RotatedRight(before, Links(all), sentinel, c, a, x, xr, b, node, yr, d);
      Respell(Plug(c, Fork(a, x, xr, Fork(b, node, yr, d))), all);
    }

    method RotateRight(node: Node, ghost x: Node, ghost p: Node, ghost b: Node)
      requires node.left == x && x.right == b && node != x && node != sentinel && x != sentinel && b != node && b != x
      requires node != root ==>
          p == node.parent && p != node && p != x && p != b && p != sentinel && (p.left == node || p.right == node)
      modifies this`root, node`left, x`right, p`left, p`right, node`parent, x`parent
      modifies (if b == sentinel then {} else {b})`parent
      ensures root == (if node == old(root) then x else old(root))
      ensures node.left == b && x.right == node && node.parent == x && x.parent == old(node.parent)
      ensures b.parent == if b != sentinel then node else old(b.parent)
      ensures p != node ==> p.left == if node != old(root) && old(p.right) != node then x else old(p.left)
      ensures p != x ==> p.right == if node != old(root) && old(p.right) == node then x else old(p.right)
    {
      var temp := node.left;
      node.left := temp.right;
      if temp.right != sentinel {
        temp.right.parent := node;
      }
      temp.parent := node.parent;
      if node == root {
        root := temp;
      } else if node == node.parent.right {
        node.parent.right := temp;
      } else {
        node.parent.left := temp;
      }
      temp.right := node;
      node.parent := temp;
    }

    method Paint(node: Node, red: bool, ghost c: Context, ghost l: Tree, ghost was: bool, ghost r: Tree)
      requires Holds() && tree == Plug(c, Fork(l, node, was, r))
      modifies this`tree, Ids(tree)`red
      ensures Holds() && tree == Plug(c, Fork(l, node, red, r))
      ensures SameNodes(old(tree), tree)
    {
      ghost var all, before := Ids(tree), Links(Ids(tree));
      Where(c, Fork(l, node, was, r));
      node.red := red;
      Recolored(before, Links(all), sentinel, c, l, node, was, red, r);
      Respell(Plug(c, Fork(l, node, red, r)), all);
    }

    /** The pointer writes of a left rotation; p is the parent of the node unless it is the root. */
    method RotateLeft(node: Node, ghost y: Node, ghost p: Node, ghost b: Node)
      requires node.right == y && y.left == b && node != y && node != sentinel && y != sentinel && b != node && b != y
      requires node != root ==>
          p == node.parent && p != node && p != y && p != b && p != sentinel && (p.left == node || p.right == node)
      modifies this`root, node`right, y`left, p`left, p`right, node`parent, y`parent
      modifies (if b == sentinel then {} else {b})`parent
      ensures root == (if node == old(root) then y else old(root))
      ensures node.right == b && y.left == node && node.parent == y && y.parent == old(node.parent)
      ensures b.parent == if b != sentinel then node else old(b.parent)
      ensures p != node ==> p.right == if node != old(root) && old(p.left) != node then y else old(p.right)
      ensures p != y ==> p.left == if node != old(root) && old(p.left) == node then y else old(p.left)
    {
      var temp := node.right;
      node.right := temp.left;
      if temp.left != sentinel {
        temp.left.parent := node;
      }
      temp.parent := node.parent;
      if node == root {
        root := temp;
      } else if node == node.parent.left {
        node.parent.left := temp;
      } else {
        node.parent.right := temp;
      }
      temp.left := node;
      node.parent := temp;
    }

    /** What the pointers at a place of the tree say. */
    lemma Where(c: Context, t: Tree)
      requires Holds() && tree == Plug(c, t)
      ensures t.Fork? ==> tree.Fork?
      ensures t.Fork? ==> t.x in Ids(tree) && t.x.left == Root(sentinel, t.l) && t.x.right == Root(sentinel, t.r)
                          && t.x.red == t.red && (t.x == root <==> c.Top?) && (!c.Top? ==> t.x.parent == c.x)
      ensures !c.Top? ==> c.x in Ids(tree) && c.x.red == c.red && (t.Fork? ==> (c.x.left == t.x <==> c.InLeft?))
      ensures c.InLeft? ==> c.x.left == Root(sentinel, t) && c.x.right == Root(sentinel, c.r)
                            && (c.r.Fork? ==> c.r.x in Ids(tree) && c.r.x.red == c.r.red)
      ensures c.InRight? ==> c.x.right == Root(sentinel, t) && c.x.left == Root(sentinel, c.l)
                             && (c.l.Fork? ==> c.l.x in Ids(tree) && c.l.x.red == c.l.red)
    {
      Focus(Links(Ids(tree)), sentinel, c, t);
      assert t.Fork? ==> t.x in Ids(t);
      match c
      case Top =>
      case InLeft(up, x, red, r) =>
        Focus(Links(Ids(tree)), sentinel, up, Fork(t, x, red, r));
        assert r.Fork? ==> r.x in Ids(r);
      case InRight(up, l, x, red) =>
        Focus(Links(Ids(tree)), sentinel, up, Fork(l, x, red, t));
        assert l.Fork? ==> l.x in Ids(l);
    }

    /** A red node whose parent and uncle are red: the redness moves to the grandparent. */
    method Recolor(parent: Node, temp: Node, grand: Node, ghost g: Context, ghost p: Tree, ghost u: Tree,
                   ghost left: bool)
      requires Holds() && p.Fork? && u.Fork? && p.red && u.red && parent == p.x && temp == u.x
      requires tree == Plug(g, if left then Fork(p, grand, false, u) else Fork(u, grand, false, p))
      modifies this`tree, Ids(tree)`red
      ensures Holds() && SameNodes(old(tree), tree)
      ensures tree == Plug(g, if left then Fork(p.(red := false), grand, true, u.(red := false))
                              else Fork(u.(red := false), grand, true, p.(red := false)))
    {
      ghost var p', u' := p.(red := false), u.(red := false);
      Paint(parent, false, if left then InLeft(g, grand, false, u) else InRight(g, u, grand, false), p.l, true, p.r);
      Paint(temp, false, if left then InRight(g, p', grand, false) else InLeft(g, grand, false, p'), u.l, true, u.r);
      Paint(grand, true, g, if left then p' else u', false, if left then u' else p');
    }

    /** The parent turns black, the grandparent red and the grandparent is rotated below it. */
    method RaiseLeft(parent: Node, grand: Node, ghost g: Context, ghost p: Tree, ghost u: Tree)
      requires Holds() && p.Fork? && p.red && parent == p.x && tree == Plug(g, Fork(p, grand, false, u))
      modifies this`root, this`tree, Ids(tree)`left, Ids(tree)`right, Ids(tree)`parent, Ids(tree)`red
      ensures Holds() && SameNodes(old(tree), tree)
      ensures tree == Plug(g, Fork(p.l, parent, false, Fork(p.r, grand, true, u)))
    {
      ghost var p' := p.(red := false);
      Paint(parent, false, InLeft(g, grand, false, u), p.l, true, p.r);
      Paint(grand, true, g, p', false, u);
      RightRotate(grand, g, p.l, parent, false, p.r, true, u);
    }

    method RaiseRight(parent: Node, grand: Node, ghost g: Context, ghost p: Tree, ghost u: Tree)
      requires Holds() && p.Fork? && p.red && parent == p.x && tree == Plug(g, Fork(u, grand, false, p))
      modifies this`root, this`tree, Ids(tree)`left, Ids(tree)`right, Ids(tree)`parent, Ids(tree)`red
      ensures Holds() && SameNodes(old(tree), tree)
      ensures tree == Plug(g, Fork(Fork(u, grand, true, p.l), parent, false, p.r))
    {
      ghost var p' := p.(red := false);
      Paint(parent, false, InRight(g, u, grand, false), p.l, true, p.r);
      Paint(grand, true, g, u, false, p');
      LeftRotate(grand, g, u, true, p.l, parent, false, p.r);
    }

    /** The loop variables of the rebalancing loops: `node` is the root of the subtree at a place. */
    ghost predicate Points(node: Node?, c: Context, t: Tree)
      reads this, Ids(tree), sentinel, node
    {
      && node != null && Holds() && tree == Plug(c, t) && t.Fork? && t.x == node
      && (node == root <==> c.Top?) && (!c.Top? ==> c.x in Ids(tree) && node.parent == c.x && c.x.red == c.red)
    }

    /** The red node `node` has a red parent: what the insertion loop keeps true. */
    ghost predicate RedPair(node: Node?, c: Context, t: Tree)
      reads this, Ids(tree), sentinel, node
    {
      Points(node, c, t) && t.red && Balanced(t) && Around(c, BlackHeight(t))
    }

    /** One turn of the insertion loop when the parent is a left child. */
    method FixLeft(start: Node, ghost c0: Context, ghost t0: Tree) returns (node: Node, ghost c: Context, ghost t: Tree)
      requires RedPair(start, c0, t0) && TopRed(c0) && c0.up.InLeft?
      modifies this`root, this`tree, Ids(tree)`left, Ids(tree)`right, Ids(tree)`parent, Ids(tree)`red
      ensures SameNodes(old(tree), tree) && RedPair(node, c, t) && Depth(c) < Depth(c0)
    {
      node, c, t := start, c0, t0;
      ghost var up, x := c.up, c.up.x;
      ghost var pt := ParentTree(c, t);
      RedUncle(c, t);
      BlackUncle(c, t);
      Where(up, pt);
      var temp := node.parent.parent.right;
      if temp.red {
        Recolor(node.parent, temp, node.parent.parent, up.up, pt, up.r, true);
        node := node.parent.parent;
        c, t := up.up, Fork(pt.(red := false), x, true, up.r.(red := false));
      } else {
        Where(c, t);
        if node == node.parent.right {
          node := node.parent;
          LeftRotate(node, up, c.l, true, t.l, t.x, true, t.r);
          pt := Fork(Fork(c.l, c.x, true, t.l), t.x, true, t.r);
          Where(InLeft(up, pt.x, true, pt.r), pt.l);
          Where(up, pt);
        }
        RaiseLeft(node.parent, node.parent.parent, up.up, pt, up.r);
        assert pt == LeanLeft(c, t);
        c, t := InLeft(up.up, pt.x, false, Fork(pt.r, x, true, up.r)), pt.l;
      }
      Where(c, t);
    }

    /** One turn of the insertion loop when the parent is a right child. */
    method FixRight(start: Node, ghost c0: Context, ghost t0: Tree)
      returns (node: Node, ghost c: Context, ghost t: Tree)
      requires RedPair(start, c0, t0) && TopRed(c0) && c0.up.InRight?
      modifies this`root, this`tree, Ids(tree)`left, Ids(tree)`right, Ids(tree)`parent, Ids(tree)`red
      ensures SameNodes(old(tree), tree) && RedPair(node, c, t) && Depth(c) < Depth(c0)
    {
      node, c, t := start, c0, t0;
      ghost var up, x := c.up, c.up.x;
      ghost var pt := ParentTree(c, t);
      RedUncle(c, t);
      BlackUncle(c, t);
      Where(up, pt);
      var temp := node.parent.parent.left;
      if temp.red {
        Recolor(node.parent, temp, node.parent.parent, up.up, pt, up.l, false);
        node := node.parent.parent;
        c, t := up.up, Fork(up.l.(red := false), x, true, pt.(red := false));
      } else {
        Where(c, t);
        if node == node.parent.left {
          node := node.parent;
          RightRotate(node, up, t.l, t.x, true, t.r, true, c.r);
          pt := Fork(t.l, t.x, true, Fork(t.r, c.x, true, c.r));
          Where(InRight(up, pt.l, pt.x, true), pt.r);
          Where(up, pt);
        }
        RaiseRight(node.parent, node.parent.parent, up.up, pt, up.l);
        assert pt == LeanRight(c, t);
        c, t := InRight(up.up, Fork(up.l, x, true, pt.l), pt.x, false), pt.r;
      }
      Where(c, t);
    }

    /** The rebalancing loop of ngx_rbtree_insert. */
    method Rebalance(start: Node, ghost c0: Context, ghost t0: Tree)
      requires RedPair(start, c0, t0)
      modifies this`root, this`tree, Ids(tree)`left, Ids(tree)`right, Ids(tree)`parent, Ids(tree)`red
      ensures Holds() && SameNodes(old(tree), tree) && RedBlack(tree)
    {
      var node: Node := start;
      ghost var c, t := c0, t0;
      while node != root && node.parent.red
        invariant SameNodes(old(tree), tree) && RedPair(node, c, t)
        decreases Depth(c)
      {
        RedUncle(c, t);
        Where(c.up, ParentTree(c, t));
        if node.parent == node.parent.parent.left {
          node, c, t := FixLeft(node, c, t);
        } else {
          node, c, t := FixRight(node, c, t);
        }
      }
      if c.Top? {
        Where(c, t);
      } else {
        PlugBalanced(c, t);
        Where(Top, tree);
      }
      Paint(root, false, Top, tree.l, tree.red, tree.r);
    }

    ghost function Lefts(cmp: Comparison, key: Key): set<Node>
      reads this, Ids(tree)
    {
      set z | z in Ids(tree) && GoesLeft(cmp, key, z.key)
    }

    /** The search of an insert function is at a place: if the order is cut by the key, the place is the cut. */
    ghost predicate Searching(temp: Node, c: Context, t: Tree, lefts: set<Node>)
      reads this, Ids(tree), sentinel
    {
      && Holds() && tree == Plug(c, t) && t.Fork? && temp == t.x
      && (Cut(Inorder(tree), lefts) ==> Splits(c, lefts))
    }

    lemma StepDown(goLeft: bool, c: Context, t: Tree, lefts: set<Node>)
      requires t.Fork? && Searching(t.x, c, t, lefts) && goLeft == (t.x in lefts)
      ensures var (c', t') := if goLeft then (InLeft(c, t.x, t.red, t.r), t.l) else (InRight(c, t.l, t.x, t.red), t.r);
              && tree == Plug(c', t') && (Cut(Inorder(tree), lefts) ==> Splits(c', lefts))
              && (if goLeft then t.x.left else t.x.right) == Root(sentinel, t')
              && (t'.Fork? ==> t'.x in Ids(tree)) && t.x in Ids(tree)
    {
      Where(c, t);
      if Cut(Inorder(tree), lefts) {
        if goLeft {
          StepLeft(c, t, lefts);
        } else {
          StepRight(c, t, lefts);
        }
      }
      if goLeft {
        Where(InLeft(c, t.x, t.red, t.r), t.l);
      } else {
        Where(InRight(c, t.l, t.x, t.red), t.r);
      }
    }

    /** The common end of both insert functions: the new red leaf. */
    method Attach(temp: Node, node: Node, goLeft: bool, ghost c: Context)
      requires Holds() && tree == Plug(c, Leaf) && node !in Ids(tree) && node != sentinel
      requires temp in Ids(tree) && (if goLeft then c.InLeft? else c.InRight?) && c.x == temp
      modifies this`tree, Ids(tree)`left, Ids(tree)`right, node
      ensures Holds() && tree == Plug(c, Fork(Leaf, node, true, Leaf))
      ensures Ids(tree) == Ids(old(tree)) + {node} && node.key == old(node.key)
    {
      ghost var all, before := Ids(tree), Links(Ids(tree));
      WriteLeaf(temp, node, goLeft);
      Attached(before, Links(all + {node}), sentinel, c, node);
      Respell(Plug(c, Fork(Leaf, node, true, Leaf)), all + {node});
    }

    method WriteLeaf(temp: Node, node: Node, goLeft: bool)
      requires temp != node
      modifies (if goLeft then {temp} else {})`left, (if goLeft then {} else {temp})`right, node`left, node`right
      modifies node`parent, node`red
      ensures node.parent == temp && node.left == sentinel && node.right == sentinel && node.red
      ensures if goLeft then temp.left == node else temp.right == node
    {
      if goLeft {
        temp.left := node;
      } else {
        temp.right := node;
      }
      node.parent := temp;
      node.left := sentinel;
      node.right := sentinel;
      node.red := true;
    }

    /** ngx_rbtree_insert_value */
    method InsertValue(start: Node, node: Node) returns (ghost c: Context)
      requires Holds() && tree.Fork? && start == root && node !in Ids(tree) && node != sentinel
      modifies this`tree, Ids(tree)`left, Ids(tree)`right, node
      ensures Points(node, c, Fork(Leaf, node, true, Leaf)) && old(tree) == Plug(c, Leaf)
      ensures Ids(tree) == Ids(old(tree)) + {node} && node.key == old(node.key)
      ensures Cut(Inorder(old(tree)), old(Lefts(Value, node.key))) ==> Splits(c, old(Lefts(Value, node.key)))
    {
      ghost var lefts := Lefts(Value, node.key);
      var temp: Node := start;
      c := Top;
      ghost var t := tree;
      Where(c, t);
      var goLeft := false;
      while true
        invariant Searching(temp, c, t, lefts) && temp in Ids(tree)
        invariant lefts == Lefts(Value, node.key)
        modifies {}
        decreases t
      {
        goLeft := node.key < temp.key;
        StepDown(goLeft, c, t, lefts);
        var next := if goLeft then temp.left else temp.right;
        c, t := if goLeft then InLeft(c, t.x, t.red, t.r) else InRight(c, t.l, t.x, t.red), if goLeft then t.l else t.r;
        if next == sentinel {
          break;
        }
        temp := next;
      }
      Attach(temp, node, goLeft, c);
      Where(c, Fork(Leaf, node, true, Leaf));
    }

    /** ngx_rbtree_insert_timer_value: the sign of the difference of two machine words */
    method InsertTimerValue(start: Node, node: Node) returns (ghost c: Context)
      requires Holds() && tree.Fork? && start == root && node !in Ids(tree) && node != sentinel
      modifies this`tree, Ids(tree)`left, Ids(tree)`right, node
      ensures Points(node, c, Fork(Leaf, node, true, Leaf)) && old(tree) == Plug(c, Leaf)
      ensures Ids(tree) == Ids(old(tree)) + {node} && node.key == old(node.key)
      ensures Cut(Inorder(old(tree)), old(Lefts(TimerValue, node.key))) ==> Splits(c, old(Lefts(TimerValue, node.key)))
    {
      ghost var lefts := Lefts(TimerValue, node.key);
      var temp: Node := start;
      c := Top;
      ghost var t := tree;
      Where(c, t);
      var goLeft := false;
      while true
        invariant Searching(temp, c, t, lefts) && temp in Ids(tree)
        invariant lefts == Lefts(TimerValue, node.key)
        modifies {}
        decreases t
      {
        goLeft := WORD / 2 <= (node.key - temp.key) % WORD;
        StepDown(goLeft, c, t, lefts);
        var next := if goLeft then temp.left else temp.right;
        c, t := if goLeft then InLeft(c, t.x, t.red, t.r) else InRight(c, t.l, t.x, t.red), if goLeft then t.l else t.r;
        if next == sentinel {
          break;
        }
        temp := next;
      }
      Attach(temp, node, goLeft, c);
      Where(c, Fork(Leaf, node, true, Leaf));
    }

    /** ngx_rbtree_insert: `pos` is the place of the new node in the in-order sequence. */
    method Insert(node: Node) returns (ghost pos: nat)
      requires Valid() && node !in Ids(tree) && node != sentinel
      modifies this`root, this`tree, Ids(tree)`left, Ids(tree)`right, Ids(tree)`parent, Ids(tree)`red, node
      ensures Valid() && Ids(tree) == Ids(old(tree)) + {node} && node.key == old(node.key)
      ensures pos <= |Inorder(old(tree))|
      ensures Inorder(tree) == Inorder(old(tree))[..pos] + [node] + Inorder(old(tree))[pos..]
      ensures var keys := old(Keys(Inorder(tree)));
              && Keys(Inorder(tree)) == keys[..pos] + [node.key] + keys[pos..]
              && (CutKeys(insert, node.key, keys) ==> CutAt(insert, node.key, keys, pos))
    {
      KeysCut(node.key);
      ghost var order, lefts := Inorder(tree), Lefts(insert, node.key);
      ghost var keys := Keys(order);
      pos := Place(node);
      InsertedKeys(order, keys, node, pos);
    }

    lemma InsertedKeys(order: seq<Node>, keys: seq<Key>, node: Node, pos: nat)
      requires pos <= |order| == |keys| && forall i :: 0 <= i < |order| ==> order[i].key == keys[i]
      ensures Keys(order[..pos] + [node] + order[pos..]) == keys[..pos] + [node.key] + keys[pos..]
    {
    }

    method Place(node: Node) returns (ghost pos: nat)
      requires Valid() && node !in Ids(tree) && node != sentinel
      modifies this`root, this`tree, Ids(tree)`left, Ids(tree)`right, Ids(tree)`parent, Ids(tree)`red, node
      ensures Valid() && Ids(tree) == Ids(old(tree)) + {node} && node.key == old(node.key)
      ensures pos <= |Inorder(old(tree))|
      ensures Inorder(tree) == Inorder(old(tree))[..pos] + [node] + Inorder(old(tree))[pos..]
      ensures var order, lefts := Inorder(old(tree)), old(Lefts(insert, node.key));
              Cut(order, lefts) ==> forall i :: 0 <= i < |order| ==> (order[i] in lefts <==> pos <= i)
    {
      if root == sentinel {
        Where(Top, tree);
        node.parent := null;
        node.left := sentinel;
        node.right := sentinel;
        node.red := false;
        root := node;
        tree := Fork(Leaf, node, false, Leaf);
        return 0;
      }
      Where(Top, tree);
      ghost var lefts := Lefts(insert, node.key);
      ghost var c := Link(node);
      InsertedAt(c, node, lefts);
      pos := |Before(c)|;
      Rebalance(node, c, Fork(Leaf, node, true, Leaf));
    }

    lemma KeysCut(key: Key)
      ensures forall i :: 0 <= i < |Inorder(tree)| ==> Inorder(tree)[i] in Ids(tree)
      ensures CutKeys(insert, key, Keys(Inorder(tree))) ==> Cut(Inorder(tree), Lefts(insert, key))
    {
      var order, keys, lefts := Inorder(tree), Keys(Inorder(tree)), Lefts(insert, key);
      forall i | 0 <= i < |order|
        ensures order[i] in Ids(tree) && (order[i] in lefts <==> GoesLeft(insert, key, keys[i]))
      {
        InorderIds(tree, order[i]);
      }
    }

    /** The call through the function pointer tree->insert. */
    method Link(node: Node) returns (ghost c: Context)
      requires Valid() && tree.Fork? && node !in Ids(tree) && node != sentinel
      modifies this`tree, Ids(tree)`left, Ids(tree)`right, node
      ensures RedPair(node, c, Fork(Leaf, node, true, Leaf)) && old(tree) == Plug(c, Leaf)
      ensures Ids(tree) == Ids(old(tree)) + {node} && node.key == old(node.key)
      ensures var lefts := old(Lefts(insert, node.key)); Cut(Inorder(old(tree)), lefts) ==> Splits(c, lefts)
    {
      Where(Top, tree);
      match insert {
        case Value => c := InsertValue(root, node);
        case TimerValue => c := InsertTimerValue(root, node);
      }
      UnplugBalanced(c, Leaf);
    }

    /** ngx_rbtree_min, with the context of the minimum. */
    method Min(start: Node, ghost c: Context, ghost t: Tree) returns (node: Node, ghost inner: Context, ghost m: Tree)
      requires Holds() && tree == Plug(c, t) && t.Fork? && t.x == start
      ensures AllLeft(inner) && t == Plug(inner, m) && m.Fork? && m.l.Leaf? && m.x == node && node in Ids(tree)
      ensures node.right == Root(sentinel, m.r) && Holds() && tree == Plug(c, t)
    {
      node, inner, m := start, Top, t;
      Where(c, t);
      while node.left != sentinel
        invariant Holds() && tree == Plug(c, t)
        invariant AllLeft(inner) && t == Plug(inner, m) && m.Fork? && m.x == node && node in Ids(tree)
        invariant node.left == Root(sentinel, m.l)
        decreases m
      {
        PlugCompose(inner, c, m);
        Where(Compose(inner, c), m);
        Where(Compose(InLeft(inner, m.x, m.red, m.r), c), m.l);
        node := node.left;
        inner, m := InLeft(inner, m.x, m.red, m.r), m.l;
      }
      PlugCompose(inner, c, m);
      Where(Compose(inner, c), m);
      if m.l.Fork? {
        PlugCompose(InLeft(inner, m.x, m.red, m.r), c, m.l);
        Where(Compose(InLeft(inner, m.x, m.red, m.r), c), m.l);
      }
    }

    /** The deletion loop is at a place that is one black node short; the parent field of `temp` is right
        even if `temp` is the shared sentinel. */
    ghost predicate Missing(temp: Node?, c: Context, t: Tree)
      reads this, Ids(tree), sentinel, temp
    {
      && temp != null && Holds() && tree == Plug(c, t) && temp == Root(sentinel, t)
      && (!c.Top? ==> temp.parent == c.x) && Short(c, t)
    }

    /** The links written when a node with at most one child leaves; its own fields are cleared. */
    method WriteOut(node: Node, temp: Node, ghost p: Node)
      requires node.parent == p && p != node && (p.left == node || p.right == node) && temp != node && temp != p
      modifies p`left, p`right, temp`parent, node`left, node`right, node`parent, node`key
      ensures temp.parent == p
      ensures p.left == (if old(p.left) == node then temp else old(p.left))
      ensures p.right == (if old(p.left) == node then old(p.right) else temp)
    {
      if node == node.parent.left {
        node.parent.left := temp;
      } else {
        node.parent.right := temp;
      }
      temp.parent := node.parent;
      node.left := null;
      node.right := null;
      node.parent := null;
      node.key := 0;
    }

    method RemoveSingle(node: Node, temp: Node, ghost c: Context, ghost t: Tree, ghost k: Tree)
      requires Holds() && tree == Plug(c, t) && Single(t, k) && node == t.x && temp == Root(sentinel, k) && !c.Top?
      modifies this`tree, Ids(tree)`left, Ids(tree)`right, Ids(tree)`parent, node`key, sentinel`parent
      ensures Holds() && tree == Plug(c, k) && Ids(tree) == Ids(old(tree)) - {node} && temp.parent == c.x
    {
      hide Plug;
      hide Distinct;
      hide Rep;
      hide Hangs;
      hide CutOut;
      ghost var all, before := Ids(tree), Links(Ids(tree));
      Where(c, t);
      assert k.Fork? ==> k.x in Ids(tree) && k.x != c.x && k.x != node by {
        Focus(before, sentinel, c, t);
        assert k.Fork? ==> k.x in Ids(t);
      }
      WriteOut(node, temp, c.x);
      WithoutSingle(before, Links(all - {node}), sentinel, c, t, k);
      Respell(Plug(c, k), all - {node});
    }

    /** The links written when the minimum `subst` of the right subtree takes the place of `node`. */
    method WriteSubst(node: Node, subst: Node, temp: Node, ghost p: Node, ghost q: Node, ghost lx: Node, ghost rx: Node)
      requires node.left == lx && node.right == rx && subst.parent == q && node != subst && node != sentinel
      requires subst != sentinel
      requires lx !in {node, subst, q, temp, rx, sentinel} && temp !in {node, subst, q} && q != subst
      requires rx !in {node, sentinel}
      requires if q == node then rx == subst && lx != subst
          else q.left == subst && rx != subst && q != sentinel && rx != temp
      requires node != root ==>
          p == node.parent && p !in {node, subst, q, lx, rx, temp, sentinel} && (p.left == node || p.right == node)
      modifies this`root, q`left, node`left, node`right, node`parent, node`key, temp`parent
      modifies subst`left, subst`right, subst`parent, subst`red, p`left, p`right, lx`parent, rx`parent
      ensures root == if node == old(root) then subst else old(root)
      ensures subst.left == lx && subst.right == (if q == node then temp else rx) && sentinel.red == old(sentinel.red)
      ensures subst.parent == old(node.parent) && subst.red == old(node.red) && lx.parent == subst
      ensures if q == node then temp.parent == subst else q.left == temp && temp.parent == q && rx.parent == subst
      ensures node != old(root) ==> p.left == (if old(p.left) == node then subst else old(p.left))
      ensures node != old(root) ==> p.right == (if old(p.left) == node then old(p.right) else subst)
    {
      if subst == subst.parent.left {
        subst.parent.left := temp;
      } else {
        subst.parent.right := temp;
      }
      if subst.parent == node {
        temp.parent := subst;
      } else {
        temp.parent := subst.parent;
      }
      subst.left := node.left;
      subst.right := node.right;
      subst.parent := node.parent;
      subst.red := node.red;
      if node == root {
        root := subst;
      } else if node == node.parent.left {
        node.parent.left := subst;
      } else {
        node.parent.right := subst;
      }
      if subst.left != sentinel {
        subst.left.parent := subst;
      }
      if subst.right != sentinel {
        subst.right.parent := subst;
      }
      node.left := null;
      node.right := null;
      node.parent := null;
      node.key := 0;
    }

    method WriteSubstLinks(node: Node, subst: Node, temp: Node, ghost p: Node?, ghost q: Node, ghost lx: Node,
                           ghost rx: Node,
                           ghost all: set<Node>)
      requires SubstReady(Links(all), sentinel, node, subst, temp, p, q, lx, rx) && (node == root <==> p == null)
      modifies this`root, q`left, node`left, node`right, node`parent, node`key, temp`parent
      modifies subst`left, subst`right, subst`parent, subst`red, lx`parent, rx`parent
      modifies (if p == null then {} else {p})`left, (if p == null then {} else {p})`right
      ensures root == if node == old(root) then subst else old(root)
      ensures Written(old(Links(all)), Links(all - {node}), sentinel, node, old(node.red), subst, temp, p, q, lx, rx)
      ensures temp.parent == (if q == node then subst else q) && sentinel.red == old(sentinel.red)
    {
      hide RbTree.Valid;
      ghost var m := Links(all);
      WriteSubst(node, subst, temp, if p == null then node else p, q, lx, rx);
    }

    method RemovePair(node: Node, subst: Node, temp: Node, ghost c: Context, ghost l: Tree, ghost red: bool,
                      ghost inner: Context, ghost yr: bool, ghost k: Tree)
      requires Holds() && tree == Plug(c, Fork(l, node, red, Plug(inner, Fork(Leaf, subst, yr, k))))
      requires l.Fork? && AllLeft(inner) && temp == Root(sentinel, k)
      modifies this`root, this`tree, Ids(tree)`left, Ids(tree)`right, Ids(tree)`parent, Ids(tree)`red, node`key
      modifies sentinel`parent
      ensures Holds() && tree == Plug(c, Fork(l, subst, red, Plug(inner, k))) && Ids(tree) == Ids(old(tree)) - {node}
      ensures temp.parent == if inner.InLeft? then inner.x else subst
    {
      ghost var all, before := Ids(tree), Links(Ids(tree));
      ghost var q := if inner.InLeft? then inner.x else node;
      ghost var rx := Root(sentinel, Plug(inner, Fork(Leaf, subst, yr, k)));
      OuterReady(before, sentinel, c, l, node, red, Plug(inner, Fork(Leaf, subst, yr, k)));
      InnerReady(before, sentinel, inner, subst, yr, k);
      PairReady(before, sentinel, c, l, node, inner, subst, yr, k, q, rx);
      Where(c, Fork(l, node, red, Plug(inner, Fork(Leaf, subst, yr, k))));
      WriteSubstLinks(node, subst, temp, if c.Top? then null else c.x, q, l.x, rx, all);
      ghost var after := Links(all - {node});
      PairGone(before, after, sentinel, c, l, node, red, inner, subst, yr, k);
      Respell(Plug(c, Fork(l, subst, red, Plug(inner, k))), all - {node});
    }

    /** First case of the deletion loop at a left child: the sibling is red. */
    method LiftSiblingOfLeft(temp: Node, w: Node, ghost c: Context, ghost t: Tree)
      requires Missing(temp, c, t) && c.InLeft? && c.r.Fork? && c.r.red && !c.red && w == c.r.x
      modifies this`root, this`tree, Ids(tree)`left, Ids(tree)`right, Ids(tree)`parent, Ids(tree)`red
      ensures Holds() && SameNodes(old(tree), tree) && temp.parent == c.x
      ensures tree == Plug(InLeft(InLeft(c.up, w, false, c.r.r), c.x, true, c.r.l), t)
    {
      Where(c, t);
      ghost var s := c.r.(red := false);
      Paint(w, false, InRight(c.up, t, c.x, false), c.r.l, true, c.r.r);
      Paint(temp.parent, true, c.up, t, false, s);
      LeftRotate(temp.parent, c.up, t, true, s.l, w, false, s.r);
      Where(InLeft(InLeft(c.up, w, false, c.r.r), c.x, true, c.r.l), t);
    }

    /** The near nephew is red, the far one black: the near nephew becomes the sibling. */
    method TurnSiblingOfLeft(w: Node, near: Node, ghost c: Context, ghost t: Tree)
      requires Holds() && tree == Plug(c, t) && c.InLeft? && c.r.Fork? && IsRed(c.r.l) && !c.r.red
      requires w == c.r.x && near == c.r.l.x
      modifies this`root, this`tree, Ids(tree)`left, Ids(tree)`right, Ids(tree)`parent, Ids(tree)`red
      ensures Holds() && SameNodes(old(tree), tree)
      ensures tree == Plug(c.(r := Fork(c.r.l.l, near, false, Fork(c.r.l.r, w, true, c.r.r))), t)
    {
      ghost var at, n := InRight(c.up, t, c.x, c.red), c.r.l.(red := false);
      Paint(near, false, InLeft(at, w, false, c.r.r), n.l, true, n.r);
      Paint(w, true, at, n, false, c.r.r);
      RightRotate(w, at, n.l, near, false, n.r, true, c.r.r);
    }

    /** The far nephew is red: the last rotation. */
    method FinishLeft(parent: Node, w: Node, far: Node, ghost c: Context, ghost t: Tree)
      requires Holds() && tree == Plug(c, t) && c.InLeft? && c.r.Fork? && !c.r.red && IsRed(c.r.r)
      requires parent == c.x && w == c.r.x && far == c.r.r.x && parent.red == c.red
      modifies this`root, this`tree, Ids(tree)`left, Ids(tree)`right, Ids(tree)`parent, Ids(tree)`red
      ensures Holds() && SameNodes(old(tree), tree)
      ensures tree == Plug(c.up, Fork(Fork(t, parent, false, c.r.l), w, c.red, Blackened(c.r.r)))
    {
      ghost var s := c.r.(red := c.red);
      ghost var far' := Blackened(c.r.r);
      Paint(w, parent.red, InRight(c.up, t, parent, c.red), s.l, false, s.r);
      Paint(parent, false, c.up, t, c.red, s);
      Paint(far, false, InRight(InRight(c.up, t, parent, false), s.l, w, c.red), far'.l, true, far'.r);
      LeftRotate(parent, c.up, t, false, s.l, w, c.red, far');
    }

    /** The deletion loop at a left child whose sibling is black. */
    method FixBesideBlackLeft(start: Node, w0: Node, ghost c0: Context, ghost t0: Tree)
      returns (temp: Node, ghost c: Context, ghost t: Tree)
      requires Missing(start, c0, t0) && !IsRed(t0) && c0.InLeft? && c0.r.Fork? && !c0.r.red && w0 == c0.r.x
      modifies this`root, this`tree, Ids(tree)`left, Ids(tree)`right, Ids(tree)`parent, Ids(tree)`red
      ensures Missing(temp, c, t) && SameNodes(old(tree), tree)
      ensures c.Top? || (c == c0.up && IsRed(t) == c0.red)
    {
      hide Distinct;
      hide Rep;
      hide Inorder;
      temp, c, t := start, c0, t0;
      var w := w0;
      Where(c, t);
      Where(InRight(c.up, t, c.x, c.red), c.r);
      Where(InLeft(InRight(c.up, t, c.x, c.red), c.r.x, false, c.r.r), c.r.l);
      if !w.left.red && !w.right.red {
        BlackNephews(c, t);
        Paint(w, true, InRight(c.up, t, c.x, c.red), c.r.l, false, c.r.r);
        temp := temp.parent;
        c, t := c.up, Fork(t, c.x, c.red, c.r.(red := true));
        Where(c, t);
      } else {
        if !w.right.red {
          NearNephew(c, t);
          TurnSiblingOfLeft(w, w.left, c, t);
          c := c.(r := Fork(c.r.l.l, c.r.l.x, false, Fork(c.r.l.r, w, true, c.r.r)));
          Where(c, t);
          w := temp.parent.right;
          Where(InRight(c.up, t, c.x, c.red), c.r);
        }
        FarNephew(c, t);
        FinishLeft(temp.parent, w, w.right, c, t);
        temp := root;
        c, t := Top, tree;
      }
    }

    /** One turn of the deletion loop at a left child. */
    method DeleteFixLeft(start: Node, ghost c0: Context, ghost t0: Tree)
      returns (temp: Node, ghost c: Context, ghost t: Tree)
      requires Missing(start, c0, t0) && !IsRed(t0) && c0.InLeft?
      modifies this`root, this`tree, Ids(tree)`left, Ids(tree)`right, Ids(tree)`parent, Ids(tree)`red
      ensures Missing(temp, c, t) && SameNodes(old(tree), tree)
      ensures Work(c, t) < Work(c0, t0)
    {
      temp, c, t := start, c0, t0;
      Where(c, t);
      RedSibling(c, t);
      var w: Node := temp.parent.right;
      if w.red {
        LiftSiblingOfLeft(temp, w, c, t);
        c := InLeft(InLeft(c.up, w, false, c.r.r), c.x, true, c.r.l);
        Where(c, t);
        w := temp.parent.right;
      }
      temp, c, t := FixBesideBlackLeft(temp, w, c, t);
    }

    /** First case of the deletion loop at a right child: the sibling is red. */
    method LiftSiblingOfRight(temp: Node, w: Node, ghost c: Context, ghost t: Tree)
      requires Missing(temp, c, t) && c.InRight? && c.l.Fork? && c.l.red && !c.red && w == c.l.x
      modifies this`root, this`tree, Ids(tree)`left, Ids(tree)`right, Ids(tree)`parent, Ids(tree)`red
      ensures Holds() && SameNodes(old(tree), tree) && temp.parent == c.x
      ensures tree == Plug(InRight(InRight(c.up, c.l.l, w, false), c.l.r, c.x, true), t)
    {
      Where(c, t);
      ghost var s := c.l.(red := false);
      Paint(w, false, InLeft(c.up, c.x, false, t), c.l.l, true, c.l.r);
      Paint(temp.parent, true, c.up, s, false, t);
      RightRotate(temp.parent, c.up, s.l, w, false, s.r, true, t);
      Where(InRight(InRight(c.up, c.l.l, w, false), c.l.r, c.x, true), t);
    }

    /** The near nephew is red, the far one black: the near nephew becomes the sibling. */
    method TurnSiblingOfRight(w: Node, near: Node, ghost c: Context, ghost t: Tree)
      requires Holds() && tree == Plug(c, t) && c.InRight? && c.l.Fork? && IsRed(c.l.r) && !c.l.red
      requires w == c.l.x && near == c.l.r.x
      modifies this`root, this`tree, Ids(tree)`left, Ids(tree)`right, Ids(tree)`parent, Ids(tree)`red
      ensures Holds() && SameNodes(old(tree), tree)
      ensures tree == Plug(c.(l := Fork(Fork(c.l.l, w, true, c.l.r.l), near, false, c.l.r.r)), t)
    {
      ghost var at, n := InLeft(c.up, c.x, c.red, t), c.l.r.(red := false);
      Paint(near, false, InRight(at, c.l.l, w, false), n.l, true, n.r);
      Paint(w, true, at, c.l.l, false, n);
      LeftRotate(w, at, c.l.l, true, n.l, near, false, n.r);
    }

    /** The far nephew is red: the last rotation. */
    method FinishRight(parent: Node, w: Node, far: Node, ghost c: Context, ghost t: Tree)
      requires Holds() && tree == Plug(c, t) && c.InRight? && c.l.Fork? && !c.l.red && IsRed(c.l.l)
      requires parent == c.x && w == c.l.x && far == c.l.l.x && parent.red == c.red
      modifies this`root, this`tree, Ids(tree)`left, Ids(tree)`right, Ids(tree)`parent, Ids(tree)`red
      ensures Holds() && SameNodes(old(tree), tree)
      ensures tree == Plug(c.up, Fork(Blackened(c.l.l), w, c.red, Fork(c.l.r, parent, false, t)))
    {
      ghost var s := c.l.(red := c.red);
      ghost var far' := Blackened(c.l.l);
      Paint(w, parent.red, InLeft(c.up, parent, c.red, t), s.l, false, s.r);
      Paint(parent, false, c.up, s, c.red, t);
      Paint(far, false, InLeft(InLeft(c.up, parent, false, t), w, c.red, s.r), far'.l, true, far'.r);
      RightRotate(parent, c.up, far', w, c.red, s.r, false, t);
    }

    /** The deletion loop at a right child whose sibling is black. */
    method FixBesideBlackRight(start: Node, w0: Node, ghost c0: Context, ghost t0: Tree)
      returns (temp: Node, ghost c: Context, ghost t: Tree)
      requires Missing(start, c0, t0) && !IsRed(t0) && c0.InRight? && c0.l.Fork? && !c0.l.red && w0 == c0.l.x
      modifies this`root, this`tree, Ids(tree)`left, Ids(tree)`right, Ids(tree)`parent, Ids(tree)`red
      ensures Missing(temp, c, t) && SameNodes(old(tree), tree)
      ensures c.Top? || (c == c0.up && IsRed(t) == c0.red)
    {
      hide Ids;
      hide Distinct;
      hide Rep;
      hide Inorder;
      temp, c, t := start, c0, t0;
      var w := w0;
      Where(c, t);
      Where(InLeft(c.up, c.x, c.red, t), c.l);
      Where(InRight(InLeft(c.up, c.x, c.red, t), c.l.l, c.l.x, false), c.l.r);
      if !w.left.red && !w.right.red {
        BlackNephews(c, t);
        Paint(w, true, InLeft(c.up, c.x, c.red, t), c.l.l, false, c.l.r);
        temp := temp.parent;
        c, t := c.up, Fork(c.l.(red := true), c.x, c.red, t);
        Where(c, t);
      } else {
        if !w.left.red {
          NearNephew(c, t);
          TurnSiblingOfRight(w, w.right, c, t);
          c := c.(l := Fork(Fork(c.l.l, w, true, c.l.r.l), c.l.r.x, false, c.l.r.r));
          Where(c, t);
          w := temp.parent.left;
          Where(InLeft(c.up, c.x, c.red, t), c.l);
        }
        FarNephew(c, t);
        FinishRight(temp.parent, w, w.left, c, t);
        temp := root;
        c, t := Top, tree;
      }
    }

    /** One turn of the deletion loop at a right child. */
    method DeleteFixRight(start: Node, ghost c0: Context, ghost t0: Tree)
      returns (temp: Node, ghost c: Context, ghost t: Tree)
      requires Missing(start, c0, t0) && !IsRed(t0) && c0.InRight?
      modifies this`root, this`tree, Ids(tree)`left, Ids(tree)`right, Ids(tree)`parent, Ids(tree)`red
      ensures Missing(temp, c, t) && SameNodes(old(tree), tree)
      ensures Work(c, t) < Work(c0, t0)
    {
      temp, c, t := start, c0, t0;
      Where(c, t);
      RedSibling(c, t);
      var w: Node := temp.parent.left;
      if w.red {
        LiftSiblingOfRight(temp, w, c, t);
        c := InRight(InRight(c.up, c.l.l, w, false), c.l.r, c.x, true);
        Where(c, t);
        w := temp.parent.left;
      }
      temp, c, t := FixBesideBlackRight(temp, w, c, t);
    }

    /** ngx_rbt_black on the root of a subtree, which may be the sentinel. */
    method Blacken(temp: Node, ghost c: Context, ghost t: Tree)
      requires Holds() && tree == Plug(c, t) && temp == Root(sentinel, t)
      modifies this`tree, Ids(tree)`red, sentinel`red
      ensures Holds() && tree == Plug(c, Blackened(t)) && SameNodes(old(tree), tree)
    {
      ghost var all, before := Ids(tree), Links(Ids(tree));
      Where(c, t);
      temp.red := false;
      if t.Fork? {
        Recolored(before, Links(all), sentinel, c, t.l, t.x, t.red, false, t.r);
      }
      Respell(Plug(c, Blackened(t)), all);
    }

    /** The fix-up loop of ngx_rbtree_delete and the final blackening. */
    method DeleteFix(start: Node, ghost c0: Context, ghost t0: Tree)
      requires Missing(start, c0, t0)
      modifies this`root, this`tree, Ids(tree)`left, Ids(tree)`right, Ids(tree)`parent, Ids(tree)`red, sentinel`red
      ensures Valid() && SameNodes(old(tree), tree)
    {
      var temp: Node := start;
      ghost var c, t := c0, t0;
      Where(c, t);
      while temp != root && !temp.red
        invariant Missing(temp, c, t) && SameNodes(old(tree), tree)
        decreases Work(c, t)
      {
        Where(c, t);
        RedSibling(c, t);
        if temp == temp.parent.left {
          temp, c, t := DeleteFixLeft(temp, c, t);
        } else {
          temp, c, t := DeleteFixRight(temp, c, t);
        }
      }
      Where(c, t);
      if t.Leaf? && !c.Top? {
        PlugFork(c, t);
        Where(Top, tree);
      }
      ShortEnds(c, t);
      Blacken(temp, c, t);
    }

    method DeleteSingle(node: Node, temp: Node, ghost c: Context, ghost t: Tree, ghost k: Tree)
      requires Valid() && tree == Plug(c, t) && Single(t, k) && node == t.x && temp == Root(sentinel, k) && !c.Top?
      modifies this`root, this`tree, Ids(tree)`left, Ids(tree)`right, Ids(tree)`parent, Ids(tree)`red, node`key
      modifies sentinel`parent, sentinel`red
      ensures Valid() && Ids(tree) == Ids(old(tree)) - {node}
      ensures Removed(Inorder(old(tree)), Inorder(tree), node, |Before(c)| + |Inorder(t.l)|)
    {
      hide Ids;
      hide Rep;
      hide Inorder;
      hide Before;
      hide Balanced;
      hide Around;
      Where(c, t);
      Deficit(c, t, k);
      SingleInorder(t, k);
      SingleOrder(c, t.l, t.x, t.red, t.r, k);
      var red := node.red;
      RemoveSingle(node, temp, c, t, k);
      if red {
        PlugBalanced(c, k);
        return;
      }
      DeleteFix(temp, c, k);
    }

    method DeletePair(node: Node, subst: Node, temp: Node, ghost c: Context, ghost l: Tree, ghost was: bool,
                      ghost inner: Context, ghost yr: bool, ghost k: Tree)
      requires Valid() && tree == Plug(c, Fork(l, node, was, Plug(inner, Fork(Leaf, subst, yr, k))))
      requires l.Fork? && AllLeft(inner) && temp == Root(sentinel, k)
      modifies this`root, this`tree, Ids(tree)`left, Ids(tree)`right, Ids(tree)`parent, Ids(tree)`red, node`key
      modifies sentinel`parent, sentinel`red
      ensures Valid() && Ids(tree) == Ids(old(tree)) - {node}
      ensures Removed(Inorder(old(tree)), Inorder(tree), node, |Before(c)| + |Inorder(l)|)
    {
      PlugCompose(inner, InRight(c, l, node, was), Fork(Leaf, subst, yr, k));
      Where(Compose(inner, InRight(c, l, node, was)), Fork(Leaf, subst, yr, k));
      PairDeficit(c, l, node, was, inner, subst, yr, k);
      MinFirst(inner, subst, yr, k);
      PairOrder(c, l, node, was, Plug(inner, Fork(Leaf, subst, yr, k)), subst, Plug(inner, k));
      var red := subst.red;
      RemovePair(node, subst, temp, c, l, was, inner, yr, k);
      if red {
        return;
      }
      DeleteFix(temp, Compose(inner, InRight(c, l, subst, was)), k);
    }

    /** The root has at most one child, which becomes the root. */
    method DeleteRoot(node: Node, temp: Node, ghost k: Tree)
      requires Valid() && Single(tree, k) && node == root && temp == Root(sentinel, k)
      modifies this`root, this`tree, Ids(tree)`left, Ids(tree)`right, Ids(tree)`parent, Ids(tree)`red, node`key
      modifies sentinel`red
      ensures Valid() && Ids(tree) == Ids(old(tree)) - {node}
      ensures Removed(Inorder(old(tree)), Inorder(tree), node, |Inorder(old(tree).l)|)
    {
      ghost var all, before := Ids(tree), Links(Ids(tree));
      Where(Top, tree);
      Deficit(Top, tree, k);
      SingleInorder(tree, k);
      SingleOrder(Top, tree.l, tree.x, tree.red, tree.r, k);
      root := temp;
      node.left := null;
      node.right := null;
      node.parent := null;
      node.key := 0;
      WithoutSingle(before, Links(all - {node}), sentinel, Top, tree, k);
      Respell(k, all - {node});
      Blacken(temp, Top, k);
    }

    /** ngx_rbtree_delete: `pos` is where the node was in the in-order sequence. */
    method Delete(node: Node) returns (ghost pos: nat)
      requires Valid() && node in Ids(tree)
      modifies this`root, this`tree, Ids(tree)`left, Ids(tree)`right, Ids(tree)`parent, Ids(tree)`red, node`key
      modifies sentinel`parent, sentinel`red
      ensures Valid() && Ids(tree) == Ids(old(tree)) - {node}
      ensures Removed(Inorder(old(tree)), Inorder(tree), node, pos)
      ensures var keys := old(Keys(Inorder(tree))); Keys(Inorder(tree)) == keys[..pos] + keys[pos + 1..]
    {
      ghost var order := Inorder(tree);
      ghost var keys := Keys(order);
      pos := Unlink(node);
      RemovedKeys(order, keys, Inorder(tree), node, pos);
    }

    lemma RemovedKeys(order: seq<Node>, keys: seq<Key>, order': seq<Node>, node: Node, pos: nat)
      requires Removed(order, order', node, pos) && order' == Inorder(tree) && node !in Ids(tree) && |order| == |keys|
      requires forall i :: 0 <= i < |order| && order[i] != node ==> order[i].key == keys[i]
      ensures Keys(order') == keys[..pos] + keys[pos + 1..]
    {
      hide Inorder;
      hide Ids;
      InorderIds(tree, node);
      forall i | 0 <= i < |order'| ensures order'[i].key == (keys[..pos] + keys[pos + 1..])[i] {
        assert order'[i] != node;
        assert order'[i] == order[if i < pos then i else i + 1];
      }
    }

    method Unlink(node: Node) returns (ghost pos: nat)
      requires Valid() && node in Ids(tree)
      modifies this`root, this`tree, Ids(tree)`left, Ids(tree)`right, Ids(tree)`parent, Ids(tree)`red, node`key
      modifies sentinel`parent, sentinel`red
      ensures Valid() && Ids(tree) == Ids(old(tree)) - {node}
      ensures Removed(Inorder(old(tree)), Inorder(tree), node, pos)
    {
      hide Distinct;
      hide Rep;
      hide Outside;
      hide RedBlack;
      hide Around;
      ghost var c, t := PlaceOf(Top, tree, node);
      pos := |Before(c)| + |Inorder(t.l)|;
      var temp, subst;
      ghost var inner, m;
      temp, subst, inner, m := Choose(node, c, t);
      hide Inorder;
      hide Ids;
      hide BlackHeight;
      hide Balanced;
      if subst == root {
        DeleteRoot(node, temp, Only(t));
        return;
      }
      if subst == node {
        DeleteSingle(node, temp, c, t, Only(t));
      } else {
        DeletePair(node, subst, temp, c, t.l, t.red, inner, m.red, m.r);
      }
    }

    /** The child that takes the place of a node with at most one. */
    ghost function Only(t: Tree): Tree
      requires t.Fork?
    {
      if t.l.Leaf? then t.r else t.l
    }

    /** The node that leaves its place, and its child: the node itself, or the minimum of its right subtree. */
    method Choose(node: Node, ghost c: Context, ghost t: Tree)
      returns (temp: Node, subst: Node, ghost inner: Context, ghost m: Tree)
      requires Holds() && tree == Plug(c, t) && t.Fork? && t.x == node
      ensures subst == node ==> Single(t, Only(t)) && temp == Root(sentinel, Only(t))
      ensures subst != node ==>
        && t.l.Fork? && m.Fork? && t == Fork(t.l, node, t.red, Plug(inner, Fork(Leaf, subst, m.red, m.r)))
        && AllLeft(inner)
        && temp == Root(sentinel, m.r)
      ensures Holds() && (subst == root <==> subst == node && c.Top?)
    {
      Where(c, t);
      Where(InLeft(c, t.x, t.red, t.r), t.l);
      Where(InRight(c, t.l, t.x, t.red), t.r);
      inner, m := Top, t;
      if node.left == sentinel {
        temp, subst := node.right, node;
      } else if node.right == sentinel {
        temp, subst := node.left, node;
      } else {
        subst, inner, m := Min(node.right, InRight(c, t.l, t.x, t.red), t.r);
        temp := subst.right;
        PlugCompose(inner, InRight(c, t.l, t.x, t.red), m);
        Where(Compose(inner, InRight(c, t.l, t.x, t.red)), m);
      }
    }

    /** ngx_rbtree_next */
    method Next(start: Node) returns (next: Node?, ghost pos: nat)
      requires Holds() && start in Ids(tree)
      ensures Holds() && pos < |Inorder(tree)| && Inorder(tree)[pos] == start
      ensures next == if pos + 1 < |Inorder(tree)| then Inorder(tree)[pos + 1] else null
    {
      ghost var c, t := PlaceOf(Top, tree, start);
      pos := |Before(c)| + |Inorder(t.l)|;
      ForkOrder(c, t.l, t.x, t.red, t.r);
      Where(c, t);
      Where(InRight(c, t.l, t.x, t.red), t.r);
      if start.right != sentinel {
        ghost var inner, m;
        next, inner, m := Min(start.right, InRight(c, t.l, t.x, t.red), t.r);
        AllLeftBefore(inner);
        ForkOrder(inner, m.l, m.x, m.red, m.r);
        assert Inorder(t.r)[0] == next;
        return;
      }
      var node: Node := start;
      while true
        invariant Holds() && tree == Plug(c, t) && t.Fork? && t.x == node
        invariant pos + 1 == |Before(c)| + |Inorder(t)| && pos < |Inorder(tree)| && Inorder(tree)[pos] == start
        decreases c
      {
        Where(c, t);
        PlugOrder(c, t);
        var parent := node.parent;
        if node == root {
          return null, pos;
        }
        if node == parent.left {
          return parent, pos;
        }
        Where(c.up, ParentTree(c, t));
        node := parent;
        c, t := c.up, ParentTree(c, t);
      }
    }

    /** A walk from the minimum with ngx_rbtree_next, as over the timers: it meets all nodes in order. */
    method Walk() returns (nodes: seq<Node>)
      requires Holds()
      ensures nodes == Inorder(tree)
    {
      nodes := [];
      if root == sentinel {
        RootLeaf();
        return;
      }
      var first := First();
      var node: Node? := first;
      while node != null
        invariant Holds() && |nodes| <= |Inorder(tree)| && nodes == Inorder(tree)[..|nodes|]
        invariant node == if |nodes| < |Inorder(tree)| then Inorder(tree)[|nodes|] else null
        decreases |Inorder(tree)| - |nodes|
      {
        InorderIds(tree, node);
        ghost var pos;
        var next;
        next, pos := Next(node);
        InorderDistinct(tree, pos, |nodes|);
        nodes := nodes + [node];
        node := next;
      }
    }

    lemma RootLeaf()
      requires Holds() && root == sentinel
      ensures Inorder(tree) == []
    {
    }

    /** ngx_rbtree_min of the whole tree */
    method First() returns (node: Node)
      requires Holds() && root != sentinel
      ensures Holds() && |Inorder(tree)| > 0 && node == Inorder(tree)[0]
    {
      ghost var inner, m;
      node, inner, m := Min(root, Top, tree);
      AllLeftBefore(inner);
      ForkOrder(inner, m.l, m.x, m.red, m.r);
    }
  }
}
