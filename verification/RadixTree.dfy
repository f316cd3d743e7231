/** ngx_radix_tree.c: a binary trie of bit prefixes, with pruning and a list of free nodes. Keys and masks are bit
    strings of one width, the most significant bit first: 32 bits for the one pair of functions, 128 for the other. */
module RadixTree {

  const NO_VALUE: nat := 0xffff_ffff_ffff_ffff

  type Bits = seq<bool>

  /** ngx_radix_node_t */
  class Node {
    var left: Node?
    var right: Node?
    var parent: Node?
    var value: nat

    constructor (parent: Node?)
      ensures this.left == null && this.right == null && this.parent == parent && this.value == NO_VALUE
    {
      left, right, this.parent, value := null, null, parent, NO_VALUE;
    }
  }

  /* ---- the trie as a value ---- */

  datatype Cell = Cell(left: Node?, right: Node?, parent: Node?, value: nat)
  {
    function WithChild(b: bool, x: Node?): Cell { if b then this.(right := x) else this.(left := x) }
  }

  type Cells = map<Node, Cell>
  type Paths = map<Bits, Node>

  ghost function CellsOf(s: set<Node>): (c: Cells)
    reads s
    ensures c.Keys == s
  {
    map x | x in s :: Cell(x.left, x.right, x.parent, x.value)
  }

  ghost function NodeAt(at: Paths, p: Bits): Node? {
    if p in at then at[p] else null
  }

  function Up(p: Bits): Bits
    requires p != []
  {
    p[..|p| - 1]
  }

  /** The node at a path has the links of the path's neighbours. */
  ghost predicate Here(at: Paths, cells: Cells, width: nat, p: Bits)
    requires p in at
  {
    && |p| <= width && (p != [] ==> Up(p) in at) && at[p] in cells
    && cells[at[p]].left == NodeAt(at, p + [false]) && cells[at[p]].right == NodeAt(at, p + [true])
    && cells[at[p]].parent == if p == [] then null else at[Up(p)]
  }

  ghost predicate Apart(at: Paths, p: Bits, q: Bits)
    requires p in at && q in at
  {
    p != q ==> at[p] != at[q]
  }

  ghost predicate Linked(at: Paths, cells: Cells, width: nat) {
    && [] in at
    && (forall p {:trigger Here(at, cells, width, p)} :: p in at ==> Here(at, cells, width, p))
    && forall p, q {:trigger Apart(at, p, q)} :: p in at && q in at ==> Apart(at, p, q)
  }

  ghost predicate Childless(at: Paths, p: Bits) {
    p + [false] !in at && p + [true] !in at
  }

  /** A node below the root is there for its value or for its children; `tip` may be an exception. */
  ghost predicate Needed(at: Paths, cells: Cells, p: Bits, tip: Bits)
    requires p in at && at[p] in cells
  {
    p == [] || p == tip || !Childless(at, p) || cells[at[p]].value != NO_VALUE
  }

  /** The trie is in order, but that the node at tip may be there for nothing. */
  ghost predicate InOrder(at: Paths, cells: Cells, width: nat, tip: Bits) {
    && Linked(at, cells, width) && at.Values <= cells.Keys
    && forall p {:trigger Needed(at, cells, p, tip)} :: p in at ==> at[p] in cells && Needed(at, cells, p, tip)
  }

  /** The paths of at0 lead to the same nodes. */
  ghost predicate Includes(at: Paths, at0: Paths) {
    forall p :: p in at0 ==> p in at && at[p] == at0[p]
  }

  lemma IncludesMore(at: Paths, at0: Paths, p: Bits, x: Node)
    requires Includes(at, at0) && p !in at
    ensures Includes(at[p := x], at0)
  {
  }

  lemma InTrie(at: Paths, p: Bits)
    requires p in at
    ensures at[p] in at.Values
  {
  }

  /** A node x becomes the child of the node at p. */
  ghost function Grown(at: Paths, cells: Cells, p: Bits, b: bool, x: Node): Cells
    requires p in at && at[p] in cells
  {
    cells[x := Cell(null, null, at[p], NO_VALUE)][at[p] := cells[at[p]].WithChild(b, x)]
  }

  /** A path is there if a longer one is. */
  lemma Orphan(at: Paths, cells: Cells, width: nat, p: Bits, c: bool)
    requires Linked(at, cells, width)
    ensures p + [c] in at ==> p in at
  {
    if p + [c] in at {
      assert Here(at, cells, width, p + [c]);
      assert Up(p + [c]) == p;
    }
  }

  lemma GrowHere(at: Paths, cells: Cells, width: nat, p: Bits, b: bool, x: Node, q: Bits)
    requires Linked(at, cells, width) && p in at && p + [b] !in at && x !in at.Values && |p| < width && at[p] in cells
    requires q == p + [b] || q in at
    ensures Here(at[p + [b] := x], Grown(at, cells, p, b, x), width, q)
  {
    var at', cells' := at[p + [b] := x], Grown(at, cells, p, b, x);
    if q == p + [b] {
      assert Up(q) == p;
      forall c ensures q + [c] !in at' {
        Orphan(at, cells, width, q, c);
      }
    } else {
      assert Here(at, cells, width, q) && Here(at, cells, width, p);
      assert at[q] in at.Values;
      assert Apart(at, p, q);
      assert q + [!b] != p + [b] && (q + [b] == p + [b] ==> q == p) by {
        assert (q + [!b])[|q|] == !b && (p + [b])[|p|] == b;
        assert q + [b] == p + [b] ==>
          && (q + [b])[..|q|] == (p + [b])[..|p|];
      }
    }
  }

  lemma GrowLinked(at: Paths, cells: Cells, width: nat, p: Bits, b: bool, x: Node)
    requires Linked(at, cells, width) && p in at && p + [b] !in at && x !in at.Values && |p| < width
    ensures at[p] in cells && Linked(at[p + [b] := x], Grown(at, cells, p, b, x), width)
  {
    assert Here(at, cells, width, p);
    var at' := at[p + [b] := x];
    forall q | q in at' ensures Here(at', Grown(at, cells, p, b, x), width, q) {
      GrowHere(at, cells, width, p, b, x, q);
    }
    forall q, r | q in at' && r in at' ensures Apart(at', q, r) {
      if q in at && r in at {
        assert Apart(at, q, r);
      }
      assert (q in at ==> at[q] in at.Values) && (r in at ==> at[r] in at.Values);
    }
  }

  type Stored = map<Bits, nat>

  ghost function StoredIn(at: Paths, cells: Cells): Stored
    requires at.Values <= cells.Keys
  {
    map p | p in at && cells[at[p]].value != NO_VALUE :: cells[at[p]].value
  }

  lemma GrowInOrder(at: Paths, cells: Cells, width: nat, p: Bits, b: bool, x: Node, tip: Bits)
    requires InOrder(at, cells, width, tip) && (tip == [] || tip == p) && p in at && p + [b] !in at && |p| < width
    requires x !in at.Values
    ensures at[p] in cells && InOrder(at[p + [b] := x], Grown(at, cells, p, b, x), width, p + [b])
    ensures StoredIn(at[p + [b] := x], Grown(at, cells, p, b, x)) == StoredIn(at, cells)
  {
    GrowLinked(at, cells, width, p, b, x);
    var at', cells' := at[p + [b] := x], Grown(at, cells, p, b, x);
    InTrie(at, p);
    forall q | q in at'
      ensures at'[q] in cells' && Needed(at', cells', q, p + [b])
      ensures q in at ==> cells'[at'[q]].value == cells[at[q]].value
    {
      if q in at {
        assert Needed(at, cells, q, tip) && Apart(at, p, q);
        InTrie(at, q);
      }
    }
  }

  /** The node at p, which has no children, is unlinked from its parent. */
  ghost function Pruned(at: Paths, cells: Cells, p: Bits): Cells
    requires p != [] && Up(p) in at && at[Up(p)] in cells
  {
    cells[at[Up(p)] := cells[at[Up(p)]].WithChild(p[|p| - 1], null)]
  }

  lemma PruneHere(at: Paths, cells: Cells, width: nat, p: Bits, q: Bits)
    requires Linked(at, cells, width) && p in at && p != [] && Childless(at, p) && Up(p) in at && at[Up(p)] in cells
    requires q in at && q != p
    ensures Here(at - {p}, Pruned(at, cells, p), width, q)
  {
    assert Here(at, cells, width, q) && Apart(at, Up(p), q);
    PruneNode(at, p, q, false);
    PruneNode(at, p, q, true);
    UpNotPruned(at, p, q);
  }

  /** The child of q on one side, once p is gone. */
  lemma PruneNode(at: Paths, p: Bits, q: Bits, c: bool)
    requires p != []
    ensures NodeAt(at - {p}, q + [c]) == if q == Up(p) && c == p[|p| - 1] then null else NodeAt(at, q + [c])
  {
    assert p == Up(p) + [p[|p| - 1]];
    assert Up(q + [c]) == q && (q + [c])[|q|] == c;
  }

  /** A node whose parent went would have been a child of it. */
  lemma UpNotPruned(at: Paths, p: Bits, q: Bits)
    requires q in at && Childless(at, p)
    ensures q != [] ==> Up(q) != p
  {
    if q != [] {
      var last := q[|q| - 1];
      assert q == Up(q) + [last] && (last == true || last == false);
    }
  }

  lemma PruneLinked(at: Paths, cells: Cells, width: nat, p: Bits)
    requires Linked(at, cells, width) && p in at && p != [] && Childless(at, p)
    ensures Up(p) in at && at[Up(p)] in cells && Linked(at - {p}, Pruned(at, cells, p), width)
  {
    assert Here(at, cells, width, p);
    assert Here(at, cells, width, Up(p));
    var at' := at - {p};
    forall q | q in at' ensures Here(at', Pruned(at, cells, p), width, q) {
      PruneHere(at, cells, width, p, q);
    }
    forall q, r | q in at' && r in at' ensures Apart(at', q, r) {
      assert Apart(at, q, r);
    }
  }

  /** What pruning keeps: the parent may now be there for nothing. */
  lemma PruneInOrder(at: Paths, cells: Cells, width: nat, p: Bits, tip: Bits)
    requires InOrder(at, cells, width, tip) && (tip == [] || tip == p) && p in at && p != [] && Childless(at, p)
    ensures Up(p) in at && at[Up(p)] in cells && InOrder(at - {p}, Pruned(at, cells, p), width, Up(p))
    ensures StoredIn(at - {p}, Pruned(at, cells, p)) == StoredIn(at, cells) - {p}
  {
    PruneLinked(at, cells, width, p);
    var at', cells' := at - {p}, Pruned(at, cells, p);
    InTrie(at, Up(p));
    forall q | q in at'
      ensures at'[q] in cells' && Needed(at', cells', q, Up(p)) && cells'[at'[q]].value == cells[at[q]].value
    {
      assert Needed(at, cells, q, tip) && Apart(at, Up(p), q);
      InTrie(at, q);
      if q != Up(p) {
        forall c ensures q + [c] != p {
          assert Up(q + [c]) == q;
        }
      }
    }
  }

  /** Setting a value keeps the trie in order. */
  lemma ValueInOrder(at: Paths, cells: Cells, width: nat, p: Bits, value: nat, tip: Bits)
    requires InOrder(at, cells, width, tip) && (tip == [] || tip == p) && p in at
    requires value != NO_VALUE || !Childless(at, p) || p == []
    ensures at[p] in cells && InOrder(at, cells[at[p] := cells[at[p]].(value := value)], width, [])
    ensures StoredIn(at, cells[at[p] := cells[at[p]].(value := value)]) ==
      if value == NO_VALUE then StoredIn(at, cells) - {p} else StoredIn(at, cells)[p := value]
  {
    InTrie(at, p);
    var cells' := cells[at[p] := cells[at[p]].(value := value)];
    forall q | q in at
      ensures Here(at, cells', width, q) && at[q] in cells' && Needed(at, cells', q, []) && (q != p ==> at[q] != at[p])
    {
      assert Here(at, cells, width, q) && Apart(at, p, q) && Needed(at, cells, q, tip);
    }
    ValueStored(at, cells, p, value);
  }

  lemma ValueStored(at: Paths, cells: Cells, p: Bits, value: nat)
    requires p in at && at.Values <= cells.Keys && forall q :: q in at && q != p ==> at[q] != at[p]
    ensures at[p] in cells && StoredIn(at, cells[at[p] := cells[at[p]].(value := value)]) ==
      if value == NO_VALUE then StoredIn(at, cells) - {p} else StoredIn(at, cells)[p := value]
  {
    InTrie(at, p);
  }

  /* ---- what is found ---- */

  /** The value of the longest stored prefix of key with at most d bits. */
  function Longest(stored: Stored, key: Bits, d: nat): nat
    requires d <= |key|
  {
    if key[..d] in stored then stored[key[..d]] else if d == 0 then NO_VALUE else Longest(stored, key, d - 1)
  }

  /** Longest is what its name says: the value of the longest prefix of the key that is stored, and NO_VALUE exactly
      if none is. */
  lemma {:induction false} LongestMatch(stored: Stored, key: Bits, d: nat) returns (k: int)
    requires d <= |key| && forall p :: p in stored ==> stored[p] != 0xffff_ffff_ffff_ffff
    ensures -1 <= k <= d && (k == -1 <==> Longest(stored, key, d) == 0xffff_ffff_ffff_ffff)
    ensures k >= 0 ==> key[..k] in stored && Longest(stored, key, d) == stored[key[..k]]
    ensures forall j :: k < j <= d ==> key[..j] !in stored
  {
    if key[..d] in stored {
      k := d;
    } else if d == 0 {
      k := -1;
    } else {
      k := LongestMatch(stored, key, d - 1);
    }
  }

  /* ---- the list of free nodes ---- */

  ghost function NodeIn(list: seq<Node>, i: nat): Node? {
    if i < |list| then list[i] else null
  }

  ghost predicate Free(cells: Cells, list: seq<Node>, i: nat)
    requires i < |list|
  {
    list[i] in cells && cells[list[i]].right == NodeIn(list, i + 1) && forall j :: 0 <= j < i ==> list[j] != list[i]
  }

  /** The free nodes are chained by their right links, and none of them is in the trie. */
  ghost predicate Chain(cells: Cells, list: seq<Node>, at: Paths) {
    && (forall i {:trigger Free(cells, list, i)} :: 0 <= i < |list| ==> Free(cells, list, i))
    && forall i :: 0 <= i < |list| ==> list[i] !in at.Values
  }

  lemma ChainTail(cells: Cells, list: seq<Node>, at: Paths)
    requires Chain(cells, list, at) && list != []
    ensures Chain(cells, list[1..], at) && list[0] in cells && list[0] !in list[1..]
    ensures cells[list[0]].right == NodeIn(list[1..], 0)
  {
    assert Free(cells, list, 0);
    forall i | 0 <= i < |list| - 1 ensures Free(cells, list[1..], i) && list[1..][i] != list[0] {
      assert Free(cells, list, i + 1);
    }
  }

  /** Cells outside the list may change. */
  lemma ChainKept(cells: Cells, cells': Cells, list: seq<Node>, at: Paths, at': Paths)
    requires Chain(cells, list, at) && cells.Keys <= cells'.Keys
    requires forall i :: 0 <= i < |list| && list[i] in cells ==>
        cells'[list[i]] == cells[list[i]] && list[i] !in at'.Values
    ensures Chain(cells', list, at')
  {
    forall i | 0 <= i < |list| ensures Free(cells', list, i) && list[i] !in at'.Values {
      assert Free(cells, list, i);
    }
  }

  lemma ChainPush(cells: Cells, list: seq<Node>, at: Paths, x: Node)
    requires Chain(cells, list, at) && x in cells && x !in list && x !in at.Values
    ensures Chain(cells[x := cells[x].(right := NodeIn(list, 0))], [x] + list, at)
  {
    var cells', list' := cells[x := cells[x].(right := NodeIn(list, 0))], [x] + list;
    forall i | 0 <= i < |list'| ensures Free(cells', list', i) {
      if i > 0 {
        assert Free(cells, list, i - 1);
      }
    }
  }

  /* ---- the trie in memory ---- */

  /** Fault: the code follows a null pointer. */
  datatype Result = Ok | Busy | Error | Fault

  /** How many leading bits a mask has. */
  function Leading(mask: Bits): (n: nat)
    ensures n <= |mask|
  {
    if mask != [] && mask[0] then 1 + Leading(mask[1..]) else 0
  }

  lemma {:induction false} LeadingBits(mask: Bits, i: nat)
    requires i <= |mask| && forall j :: 0 <= j < i ==> mask[j]
    ensures i <= Leading(mask)
    ensures i == |mask| || !mask[i] ==> i == Leading(mask)
  {
    if i > 0 {
      LeadingBits(mask[1..], i - 1);
    }
  }

  class Tree {
    const width: nat
    var root: Node
    var free: Node?
    ghost var at: Paths
    ghost var spare: seq<Node>
    ghost var repr: set<Node>

    ghost function Cells(): Cells
      reads this, repr
    {
      CellsOf(repr)
    }

    /** What the trie stores. */
    ghost function Contents(): Stored
      reads this, repr
      requires at.Values <= repr
    {
      StoredIn(at, Cells())
    }

    /** The node at tip may be there for nothing. */
    ghost predicate Sound(tip: Bits)
      reads this, repr
    {
      && InOrder(at, Cells(), width, tip) && at.Values <= repr && [] in at && root == at[[]]
      && Chain(Cells(), spare, at) && free == NodeIn(spare, 0)
    }

    ghost predicate Valid()
      reads this, repr
    {
      Sound([])
    }

    /** ngx_radix_tree_create without preallocation. */
    constructor (width: nat)
      ensures Valid() && this.width == width && fresh(repr) && Contents() == map[]
    {
      this.width := width;
      var node := new Node(null);
      root, free := node, null;
      at, spare, repr := map[[] := node], [], {node};
      new;
      assert Here(at, Cells(), width, []);
    }

    /** What the links of a node are. */
    lemma LinksAt(p: Bits, tip: Bits)
      requires Sound(tip) && p in at
      ensures var x := at[p];
        && x in repr && x.left == NodeAt(at, p + [false]) && x.right == NodeAt(at, p + [true]) && |p| <= width
        && (p != [] ==> Up(p) in at) && x.parent == (if p == [] then null else at[Up(p)])
        && (x.value != NO_VALUE <==> p in Contents()) && (p in Contents() ==> Contents()[p] == x.value)
        && Needed(at, Cells(), p, tip)
    {
      InTrie(at, p);
      assert Here(at, Cells(), width, p) && Needed(at, Cells(), p, tip);
    }

    /** No path is longer than one that is missing. */
    lemma {:induction false} Missing(p: Bits, q: Bits, tip: Bits)
      requires Sound(tip) && p !in at && p <= q
      ensures q !in at
    {
      if |q| > |p| {
        Missing(p, Up(q), tip);
        assert Up(q) + [q[|q| - 1]] == q;
        Orphan(at, Cells(), width, Up(q), q[|q| - 1]);
      } else {
        assert p == q;
      }
    }

    /** ngx_radix32tree_find, ngx_radix128tree_find. */
    method Find(key: Bits) returns (value: nat)
      requires Valid() && |key| == width
      ensures value == Longest(Contents(), key, width)
    {
      value := NO_VALUE;
      var node: Node? := root;
      var depth := 0;
      LinksAt([], []);
      while node != null
        invariant 0 <= depth <= width + 1
        invariant (node != null ==> depth <= width && key[..depth] in at && node == at[key[..depth]])
        invariant node == null ==> 0 < depth && (depth <= width ==> key[..depth] !in at)
        invariant value == if depth == 0 then NO_VALUE else Longest(Contents(), key, depth - 1)
        decreases width + 1 - depth
      {
        LinksAt(key[..depth], []);
        if node.value != NO_VALUE {
          value := node.value;
        }
        if depth < width && key[depth] {
          node := node.right;
        } else {
          node := node.left;
        }
        if depth < width {
          assert key[..depth + 1] == key[..depth] + [key[depth]];
        } else {
          TooLong(key);
        }
        depth := depth + 1;
      }
      NothingBelow(key, depth);
    }

    lemma TooLong(key: Bits)
      requires Valid() && |key| == width
      ensures key[..width] + [false] !in at
    {
      if key[..width] + [false] in at {
        LinksAt(key[..width] + [false], []);
        assert false;
      }
    }

    lemma {:induction false} NoLonger(key: Bits, low: nat, d: nat)
      requires Valid() && |key| == width && low <= d <= width
      requires forall j :: low < j <= d ==> key[..j] !in at
      ensures Longest(Contents(), key, d) == Longest(Contents(), key, low)
    {
      if d > low {
        NoLonger(key, low, d - 1);
      }
    }

    lemma NothingBelow(key: Bits, depth: nat)
      requires Valid() && |key| == width && 0 < depth <= width + 1 && (depth <= width ==> key[..depth] !in at)
      ensures Longest(Contents(), key, width) == Longest(Contents(), key, depth - 1)
    {
      forall j | depth <= j <= width ensures key[..j] !in at {
        Missing(key[..depth], key[..j], []);
      }
      NoLonger(key, depth - 1, width);
    }

    /* ---- changes of one node ---- */

    method SetLink(x: Node, b: bool, y: Node?)
      requires x in repr
      modifies x`left, x`right
      ensures Cells() == old(Cells())[x := old(Cells()[x]).WithChild(b, y)]
    {
      if b {
        x.right := y;
      } else {
        x.left := y;
      }
      assert Cells() == old(Cells())[x := old(Cells()[x]).WithChild(b, y)];
    }

    /** ngx_radix_alloc: a free node if there is one. */
    method Alloc(ghost tip: Bits) returns (node: Node)
      requires Sound(tip)
      modifies this`free, this`spare, this`repr
      ensures Sound(tip) && at == old(at) && old(repr) <= repr && fresh(repr - old(repr))
      ensures Contents() == old(Contents())
      ensures node in repr && node !in at.Values && node !in spare
      ensures if old(spare) == [] then spare == [] && fresh(node) else old(spare) == [node] + spare
    {
      if free != null {
        ChainTail(Cells(), spare, at);
        node := free;
        free := free.right;
        spare := spare[1..];
      } else {
        node := new Node(null);
        ghost var cells := Cells();
        repr := repr + {node};
        Wider(cells, node, tip);
      }
    }

    /** More nodes in the footprint change nothing. */
    lemma Wider(cells: Cells, node: Node, tip: Bits)
      requires InOrder(at, cells, width, tip) && root == at[[]] && node in repr && repr == cells.Keys + {node}
      requires (forall x :: x in cells ==> Cells()[x] == cells[x]) && Chain(cells, spare, at)
      requires free == NodeIn(spare, 0)
      ensures Sound(tip) && Contents() == StoredIn(at, cells)
    {
      forall p | p in at ensures Here(at, Cells(), width, p) && Needed(at, Cells(), p, tip) && at[p] in Cells() {
        assert Here(at, cells, width, p) && Needed(at, cells, p, tip);
      }
      ChainKept(cells, Cells(), spare, at, at);
    }

    /** The fields of a new node. */
    method Init(x: Node, parent: Node)
      requires x in repr
      modifies x
      ensures Cells() == old(Cells())[x := Cell(null, null, parent, NO_VALUE)]
    {
      x.left, x.right, x.parent, x.value := null, null, parent, NO_VALUE;
      assert Cells() == old(Cells())[x := Cell(null, null, parent, NO_VALUE)];
    }

    /** A node gets its fields and becomes a child. */
    method LinkNew(node: Node, b: bool, next: Node)
      requires node in repr && next in repr && next != node
      modifies next, node`left, node`right
      ensures Cells() ==
          old(Cells())[next := Cell(null, null, node, NO_VALUE)][node := old(Cells()[node]).WithChild(b, next)]
    {
      Init(next, node);
      SetLink(node, b, next);
    }

    /** A new node, linked below the node at p. */
    method Grow(node: Node, ghost p: Bits, b: bool, ghost tip: Bits) returns (next: Node)
      requires Sound(tip) && (tip == [] || tip == p) && p in at && node == at[p] && p + [b] !in at && |p| < width
      modifies this`free, this`spare, this`repr, this`at, repr
      ensures Sound(p + [b]) && at == old(at)[p + [b] := next] && Contents() == old(Contents())
      ensures old(repr) <= repr && fresh(repr - old(repr))
    {
      hide InOrder;
      hide Chain;
      next := Alloc(tip);
      Attach(node, p, b, next, tip);
    }

    method Attach(node: Node, ghost p: Bits, b: bool, next: Node, ghost tip: Bits)
      requires Sound(tip) && (tip == [] || tip == p) && p in at && node == at[p] && p + [b] !in at && |p| < width
      requires next in repr && next !in at.Values && next !in spare
      modifies this`at, repr
      ensures Sound(p + [b]) && at == old(at)[p + [b] := next] && Contents() == old(Contents())
    {
      hide CellsOf;
      hide Linked;
      hide StoredIn;
      hide InOrder;
      hide Chain;
      ghost var cells := Cells();
      InTrie(at, p);
      GrowInOrder(at, cells, width, p, b, next, tip);
      GrowChain(at, cells, p, b, next, spare);
      LinkNew(node, b, next);
      assert Cells() == Grown(at, cells, p, b, next);
      hide Grown;
      at := at[p + [b] := next];
      ValuesWithin(old(at), p + [b], next, repr);
    }

    static lemma ValuesWithin(at: Paths, p: Bits, x: Node, s: set<Node>)
      requires at.Values <= s && x in s
      ensures at[p := x].Values <= s
    {
    }

    static lemma GrowChain(at: Paths, cells: Cells, p: Bits, b: bool, x: Node, list: seq<Node>)
      requires p in at && at[p] in cells && x in cells && x !in at.Values && x !in list && Chain(cells, list, at)
      requires p + [b] !in at
      ensures Chain(Grown(at, cells, p, b, x), list, at[p + [b] := x])
    {
      InTrie(at, p);
      ChainKept(cells, Grown(at, cells, p, b, x), list, at, at[p + [b] := x]);
    }

    /** The value of a node is set: of one without value, or of one that stays there for its children. */
    method SetValue(node: Node, ghost p: Bits, value: nat, ghost tip: Bits)
      requires Sound(tip) && p in at && node == at[p] && (tip == [] || tip == p)
      requires value != NO_VALUE || !Childless(at, p) || p == []
      modifies repr
      ensures Valid()
      ensures Contents() == if value == NO_VALUE then old(Contents()) - {p} else old(Contents())[p := value]
    {
      hide InOrder;
      ghost var cells := Cells();
      ValueInOrder(at, cells, width, p, value, tip);
      InTrie(at, p);
      node.value := value;
      assert Cells() == cells[node := cells[node].(value := value)];
      ChainKept(cells, Cells(), spare, at, at);
    }

    /** A node is no longer the child of its parent. */
    method Unlink(node: Node, parent: Node, ghost b: bool)
      requires node.parent == parent && parent in repr && (parent.right == node <==> b)
      modifies parent`left, parent`right
      ensures Cells() == old(Cells())[parent := old(Cells()[parent]).WithChild(b, null)]
    {
      if node.parent.right == node {
        SetLink(node.parent, true, null);
      } else {
        SetLink(node.parent, false, null);
      }
    }

    /** The node at p is taken out of the trie. */
    method Detach(node: Node, ghost p: Bits, ghost tip: Bits)
      requires Sound(tip) && (tip == [] || tip == p) && p in at && p != [] && Childless(at, p) && node == at[p]
      requires Up(p) in at && node.parent == at[Up(p)]
      modifies this`at, repr
      ensures Sound(Up(p)) && at == old(at) - {p} && Contents() == old(Contents()) - {p}
      ensures node in repr && node !in spare && node !in at.Values && node.parent == old(node.parent)
    {
      hide StoredIn;
      hide InOrder;
      hide Chain;
      ghost var cells := Cells();
      PruneInOrder(at, cells, width, p, tip);
      PruneChain(at, cells, p, spare, width, tip);
      InTrie(at, p);
      ParentOf(at, cells, width, p, tip);
      Unlink(node, node.parent, p[|p| - 1]);
      assert Cells() == Pruned(at, cells, p);
      hide Pruned;
      at := at - {p};
    }

    /** The node at p goes to the free nodes. */
    method Prune(node: Node, ghost p: Bits, ghost tip: Bits)
      requires Sound(tip) && (tip == [] || tip == p) && p in at && p != [] && Childless(at, p) && node == at[p]
      modifies this`free, this`spare, this`at, repr
      ensures Up(p) in at && Sound(Up(p)) && at == old(at) - {p} && Contents() == old(Contents()) - {p}
      ensures node.parent == at[Up(p)]
    {
      hide InOrder;
      hide Chain;
      LinksAt(p, tip);
      Detach(node, p, tip);
      FreeNode(node, Up(p));
    }

    static lemma ParentOf(at: Paths, cells: Cells, width: nat, p: Bits, tip: Bits)
      requires InOrder(at, cells, width, tip) && p in at && p != []
      ensures Up(p) in at && at[p] in cells && at[Up(p)] in cells && cells[at[p]].parent == at[Up(p)]
      ensures at[p] != at[Up(p)]
      ensures cells[at[Up(p)]].right == at[p] <==> p[|p| - 1]
    {
      assert Here(at, cells, width, p) && Apart(at, p, Up(p));
      assert Here(at, cells, width, Up(p));
      assert p == Up(p) + [p[|p| - 1]];
      if !p[|p| - 1] && Up(p) + [true] in at {
        assert Apart(at, Up(p) + [true], p);
      }
    }

    static lemma PruneChain(at: Paths, cells: Cells, p: Bits, list: seq<Node>, width: nat, tip: Bits)
      requires InOrder(at, cells, width, tip) && p in at && p != [] && Up(p) in at && at[Up(p)] in cells
      requires Chain(cells, list, at)
      ensures Chain(Pruned(at, cells, p), list, at - {p}) && at[p] !in list && at[p] !in (at - {p}).Values
    {
      InTrie(at, p);
      InTrie(at, Up(p));
      forall i | 0 <= i < |list| ensures list[i] !in (at - {p}).Values {
        assert (at - {p}).Values <= at.Values;
      }
      ChainKept(cells, Pruned(at, cells, p), list, at, at - {p});
      forall q | q in at && q != p ensures at[q] != at[p] {
        assert Apart(at, p, q);
      }
    }

    /** node->right = tree->free; tree->free = node */
    method FreeNode(node: Node, ghost tip: Bits)
      requires Sound(tip) && node in repr && node !in spare && node !in at.Values
      modifies this`free, this`spare, node`right
      ensures Sound(tip) && Contents() == old(Contents()) && spare == [node] + old(spare)
    {
      hide InOrder;
      ghost var cells := Cells();
      ChainPush(cells, spare, at, node);
      node.right := free;
      free := node;
      assert Cells() == cells[node := cells[node].(right := NodeIn(spare, 0))];
      Outside(at, cells, Cells(), node, cells[node].(right := NodeIn(spare, 0)), width, tip);
      spare := [node] + spare;
    }

    /** The trie does not depend on the cells of other nodes. */
    static lemma Outside(at: Paths, cells: Cells, cells': Cells, x: Node, c: Cell, width: nat, tip: Bits)
      requires InOrder(at, cells, width, tip) && x in cells && x !in at.Values && cells' == cells[x := c]
      ensures InOrder(at, cells', width, tip) && StoredIn(at, cells') == StoredIn(at, cells)
    {
      forall p | p in at ensures at[p] != x {
        InTrie(at, p);
      }
      forall p | p in at ensures Here(at, cells', width, p) && at[p] in cells' && Needed(at, cells', p, tip) {
        assert Here(at, cells, width, p) && Needed(at, cells, p, tip);
      }
    }

    /* ---- insert and delete ---- */

    /** ngx_radix32tree_insert, ngx_radix128tree_insert. The prefix is as long as the mask has leading ones. */
    method Insert(key: Bits, mask: Bits, value: nat) returns (r: Result)
      requires Valid() && |key| == |mask| == width && value != NO_VALUE
      modifies this, repr
      ensures Valid() && old(repr) <= repr && fresh(repr - old(repr))
      ensures var p := key[..Leading(mask)];
        if p in old(Contents()) then r == Busy && at == old(at) && Contents() == old(Contents())
        else r == Ok && Contents() == old(Contents())[p := value]
      ensures Includes(at, old(at))
    {
      hide InOrder;
      hide Chain;
      var node, next, depth := Descend(key, mask);
      LinksAt(key[..depth], []);
      if next != null {
        if node.value != NO_VALUE {
          return Busy;
        }
        SetValue(node, key[..depth], value, []);
        return Ok;
      }
      Missing(key[..depth + 1], key[..Leading(mask)], []);
      r := Extend(key, mask, value, node, depth);
    }

    /** The first loop of an insertion: along the nodes that are there. */
    method Descend(key: Bits, mask: Bits) returns (node: Node, next: Node?, depth: nat)
      requires Valid() && |key| == |mask| == width
      ensures depth <= Leading(mask) && key[..depth] in at && node == at[key[..depth]]
      ensures next != null ==> depth == Leading(mask)
      ensures next == null ==>
          depth < Leading(mask) && key[..depth + 1] !in at && forall j :: 0 <= j <= depth ==> mask[j]
    {
      hide InOrder;
      hide Chain;
      node, depth := root, 0;
      next := root;
      while depth < width && mask[depth]
        invariant 0 <= depth <= width && key[..depth] in at && next == node == at[key[..depth]]
        invariant forall j :: 0 <= j < depth ==> mask[j]
      {
        LinksAt(key[..depth], []);
        assert key[..depth + 1] == key[..depth] + [key[depth]];
        if key[depth] {
          next := node.right;
        } else {
          next := node.left;
        }
        if next == null {
          LeadingBits(mask, depth + 1);
          return;
        }
        depth := depth + 1;
        node := next;
      }
      LeadingBits(mask, depth);
    }

    /** The second loop of an insertion: the nodes that are missing. */
    method Extend(key: Bits, mask: Bits, value: nat, start: Node, from: nat) returns (r: Result)
      requires Valid() && |key| == |mask| == width && value != NO_VALUE
      requires from < Leading(mask) && key[..from] in at && start == at[key[..from]] && key[..from + 1] !in at
      requires forall j :: 0 <= j <= from ==> mask[j]
      modifies this, repr
      ensures Valid() && r == Ok && old(repr) <= repr && fresh(repr - old(repr))
      ensures Contents() == old(Contents())[key[..Leading(mask)] := value]
      ensures Includes(at, old(at))
    {
      hide Leading;
      hide Tree.Cells;
      hide Tree.Contents;
      hide InOrder;
      hide Chain;
      hide Includes;
      SameIncludes(at);
      var node, depth := start, from;
      ghost var tip: Bits := [];
      while depth < width && mask[depth]
        invariant from <= depth <= width && key[..depth] in at && node == at[key[..depth]]
        invariant Sound(tip) && (tip == [] || tip == key[..depth]) && Contents() == old(Contents())
        invariant depth < width ==> key[..depth + 1] !in at
        invariant forall j :: 0 <= j < depth ==> mask[j]
        invariant old(repr) <= repr && fresh(repr - old(repr))
        invariant Includes(at, old(at))
      {
        assert key[..depth + 1] == key[..depth] + [key[depth]];
        NoDeeper(key, depth, tip);
        ghost var before := at;
        node := Grow(node, key[..depth], key[depth], tip);
        IncludesMore(before, old(at), key[..depth + 1], node);
        depth := depth + 1;
        tip := key[..depth];
      }
      LeadingBits(mask, depth);
      SetValue(node, key[..depth], value, tip);
      r := Ok;
    }

    static lemma SameIncludes(at: Paths)
      ensures Includes(at, at)
    {
    }

    lemma NoDeeper(key: Bits, depth: nat, tip: Bits)
      requires Sound(tip) && depth < |key| && key[..depth + 1] !in at
      ensures depth + 1 < |key| ==> key[..depth + 2] !in at
    {
      if depth + 1 < |key| {
        Missing(key[..depth + 1], key[..depth + 2], tip);
      }
    }

    /** ngx_radix32tree_delete, ngx_radix128tree_delete. When the mask is empty and the root has no children, the code
        looks for the parent of the root. */
    method Delete(key: Bits, mask: Bits) returns (r: Result)
      requires Valid() && |key| == |mask| == width
      modifies this`free, this`spare, this`at, repr
      ensures Valid() && repr == old(repr)
      ensures var p := key[..Leading(mask)];
        if p == [] && old(Childless(at, [])) then r == Fault && at == old(at) && Contents() == old(Contents())
        else if p in old(Contents()) then r == Ok && Contents() == old(Contents()) - {p}
        else r == Error && at == old(at) && Contents() == old(Contents())
      ensures Includes(old(at), at)
    {
      hide InOrder;
      hide Chain;
      var node := Locate(key, mask);
      ghost var p := key[..Leading(mask)];
      if node == null {
        NotStored(p);
        return Error;
      }
      LinksAt(p, []);
      if node.right != null || node.left != null {
        if node.value != NO_VALUE {
          SetValue(node, p, NO_VALUE, []);
          return Ok;
        }
        return Error;
      }
      if node.parent == null {
        return Fault;
      }
      Collapse(node, p);
      r := Ok;
    }

    lemma NotStored(p: Bits)
      requires Valid() && p !in at
      ensures p !in Contents()
    {
    }

    /** The first loop of a deletion: the node at the prefix. */
    method Locate(key: Bits, mask: Bits) returns (node: Node?)
      requires Valid() && |key| == |mask| == width
      ensures node == NodeAt(at, key[..Leading(mask)])
    {
      hide InOrder;
      hide Chain;
      node := root;
      var depth := 0;
      while node != null && depth < width && mask[depth]
        invariant 0 <= depth <= width && (forall j :: 0 <= j < depth ==> mask[j])
        invariant node == NodeAt(at, key[..depth])
        decreases width - depth
      {
        LinksAt(key[..depth], []);
        assert key[..depth + 1] == key[..depth] + [key[depth]];
        if key[depth] {
          node := node.right;
        } else {
          node := node.left;
        }
        depth := depth + 1;
      }
      LeadingBits(mask, depth);
      if node == null {
        Missing(key[..depth], key[..Leading(mask)], []);
      }
    }

    /** The loop of a deletion: a leaf goes, and with it the nodes above that were there for it only. */
    method Collapse(leaf: Node, ghost path: Bits)
      requires Valid() && path in at && leaf == at[path] && Childless(at, path) && path != []
      modifies this`free, this`spare, this`at, repr
      ensures Valid() && repr == old(repr) && Contents() == old(Contents()) - {path}
      ensures Includes(old(at), at)
    {
      hide CellsOf;
      hide Linked;
      hide StoredIn;
      hide InOrder;
      hide Chain;
      var node := leaf;
      ghost var p, tip: Bits := path, [];
      while true
        invariant p in at && node == at[p] && p != [] && Childless(at, p) && Sound(tip) && (tip == [] || tip == p)
        invariant Contents() - {p} == old(Contents()) - {path}
        invariant Includes(old(at), at)
        decreases |p|
      {
        Prune(node, p, tip);
        node := node.parent;
        p := Up(p);
        tip := p;
        LinksAt(p, tip);
        if node.right != null || node.left != null || node.value != NO_VALUE || node.parent == null {
          Settled(p);
          break;
        }
      }
    }

    lemma Settled(p: Bits)
      requires Sound(p) && p in at && (!Childless(at, p) || p in Contents() || p == [])
      ensures Valid()
    {
      forall q | q in at ensures Needed(at, Cells(), q, []) {
        assert Needed(at, Cells(), q, p);
      }
    }

    /* ---- the shape ---- */

    /** Which paths there are depends only on what is stored: the root, and the prefixes of the stored prefixes. */
    lemma {:induction false} ShapeOf(p: Bits)
      requires Valid()
      ensures p in at <==> p == [] || exists q :: q in Contents() && p <= q
      decreases width - |p|
    {
      hide InOrder;
      hide Chain;
      if p in at && p != [] {
        LinksAt(p, []);
        if p in Contents() {
          assert p <= p;
        } else {
          var c := p + [true] in at;
          LinksAt(p + [c], []);
          ShapeOf(p + [c]);
          var q :| q in Contents() && p + [c] <= q;
          assert p <= q;
        }
      }
      if q :| q in Contents() && p <= q {
        if p !in at {
          Missing(p, q, []);
        }
      }
    }

    ghost predicate Shaped(at: Paths, stored: Stored) {
      forall p :: p in at <==> p == [] || exists q :: q in stored && p <= q
    }

    lemma ShapeHolds()
      requires Valid()
      ensures Shaped(at, Contents())
    {
      forall p ensures p in at <==> p == [] || exists q :: q in Contents() && p <= q {
        ShapeOf(p);
      }
    }

    static lemma Undone(stored: Stored, p: Bits, value: nat)
      requires p !in stored
      ensures p in stored[p := value] && stored[p := value] - {p} == stored
    {
    }

    /** A value at the root changes no shape. */
    lemma ShapedRoot(at: Paths, stored: Stored, value: nat)
      requires Shaped(at, stored)
      ensures Shaped(at, stored[[] := value])
    {
      var more := stored[[] := value];
      forall p ensures p in at <==> p == [] || exists q :: q in more && p <= q {
        if q :| q in stored && p <= q {
          assert q in more;
        }
        if q :| q in more && p <= q {
          assert q == [] ==> p == [];
          assert q != [] ==> q in stored;
        }
      }
    }

    /** Two tries over the same nodes that store the same are equal. */
    lemma SameTrie(at0: Paths, stored: Stored)
      requires Shaped(at0, stored) && Shaped(at, stored) && forall q :: q in at && q in at0 ==> at[q] == at0[q]
      ensures at == at0
    {
    }

    /** Deleting a prefix that was just inserted restores the trie, node by node. */
    method InsertAndDelete(key: Bits, mask: Bits, value: nat) returns (inserted: Result, deleted: Result)
      requires Valid() && |key| == |mask| == width && value != NO_VALUE && key[..Leading(mask)] !in Contents()
      modifies this, repr
      ensures Valid() && inserted == Ok && (deleted == Ok <==> Leading(mask) > 0 || !old(Childless(at, [])))
      ensures deleted == Ok ==> Contents() == old(Contents()) && at == old(at)
      ensures deleted != Ok ==> deleted == Fault && Contents() == old(Contents())[[] := value]
    {
      hide InOrder;
      hide Chain;
      hide Shaped;
      ghost var at0 := at;
      ghost var stored := Contents();
      ShapeHolds();
      inserted := Insert(key, mask, value);
      if Leading(mask) == 0 {
        ShapedRoot(at0, stored, value);
        ShapeHolds();
        SameTrie(at0, Contents());
      }
      deleted := Delete(key, mask);
      Undone(stored, key[..Leading(mask)], value);
      ShapeHolds();
      SameTrie(at0, stored);
    }
  }
}
