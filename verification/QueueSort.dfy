/** ngx_queue.h and ngx_queue.c: circular intrusive lists, and merge sort in place. */
module QueueSort {
  import opened MergeSort

  /** ngx_queue_t; the constructor is ngx_queue_init. */
  class Node {
    var prev: Node
    var next: Node

    constructor ()
      ensures prev == this && next == this
    {
      prev, next := this, this;
    }
  }

  /** The links of a set of nodes, as a value. */
  datatype Links = Links(next: map<Node, Node>, prev: map<Node, Node>)
  {
    ghost predicate Over(s: set<Node>) {
      next.Keys == s && prev.Keys == s
    }

    ghost function WithNext(x: Node, y: Node): Links { this.(next := next[x := y]) }

    ghost function WithPrev(x: Node, y: Node): Links { this.(prev := prev[x := y]) }
  }

  ghost function LinksOf(s: set<Node>): (l: Links)
    reads s
    ensures l.Over(s)
  {
    Links(map x | x in s :: x.next, map x | x in s :: x.prev)
  }

  /** The places before and behind place i of a ring of m nodes. */
  function Before(m: nat, i: nat): int { if i == 0 then m - 1 else i - 1 }

  function Behind(m: nat, i: nat): int { if i + 1 == m then 0 else i + 1 }

  ghost predicate Differ(ring: seq<Node>, i: int, j: int)
    requires 0 <= i < |ring| && 0 <= j < |ring|
  {
    ring[i] != ring[j]
  }

  ghost predicate Linked(l: Links, ring: seq<Node>, i: int)
    requires 0 <= i < |ring|
  {
    && ring[i] in l.next && ring[i] in l.prev
    && l.next[ring[i]] == ring[Behind(|ring|, i)] && l.prev[ring[i]] == ring[Before(|ring|, i)]
  }

  /** The links make a ring of the nodes, the head being the first, both ways round. */
  ghost predicate Ring(l: Links, ring: seq<Node>) {
    && ring != []
    && (forall i, j {:trigger Differ(ring, i, j)} :: 0 <= i < j < |ring| ==> Differ(ring, i, j))
    && forall i {:trigger Linked(l, ring, i)} :: 0 <= i < |ring| ==> Linked(l, ring, i)
  }

  ghost function Nodes(ring: seq<Node>): set<Node> {
    set x | x in ring
  }

  /* ---- what the macros do to the links ---- */

  ghost function Removed(l: Links, x: Node): Links
    requires x in l.next && x in l.prev
  {
    l.WithPrev(l.next[x], l.prev[x]).WithNext(l.prev[x], l.next[x])
  }

  ghost function InsertedBefore(l: Links, h: Node, x: Node): Links
    requires h in l.prev
  {
    l.WithPrev(x, l.prev[h]).WithNext(l.prev[h], x).WithNext(x, h).WithPrev(h, x)
  }

  ghost function Split(l: Links, h: Node, q: Node, n: Node): Links
    requires h in l.prev && q in l.prev && n != q && q != h
  {
    var l1 := l.WithPrev(n, l.prev[h]).WithNext(l.prev[h], n).WithNext(n, q);
    l1.WithPrev(h, l.prev[q]).WithNext(l.prev[q], h).WithPrev(q, n)
  }

  ghost function Joined(l: Links, h: Node, n: Node): Links
    requires h in l.prev && n in l.next && n in l.prev && n != h && l.next[n] != n
  {
    var l1 := l.WithNext(l.prev[h], l.next[n]).WithPrev(l.next[n], l.prev[h]);
    l1.WithPrev(h, l.prev[n]).WithNext(l.prev[n], h)
  }

  /** Two rings that have no node in common. */
  ghost predicate Two(l: Links, r: seq<Node>, s: seq<Node>) {
    Ring(l, r) && Ring(l, s) && Nodes(r) !! Nodes(s)
  }

  /* ---- the second node x of one ring moves between the parts a and c of another ---- */

  ghost function Moved(l: Links, q: Node, x: Node): Links
    requires x in l.next && x in l.prev && q in Removed(l, x).prev
  {
    InsertedBefore(Removed(l, x), q, x)
  }

  /** The first node behind part a. */
  ghost function Seam(a: seq<Node>, c: seq<Node>): Node
    requires a != []
  {
    if c == [] then a[0] else c[0]
  }

  /** Everything the move needs to know of the links. */
  ghost predicate MoveFacts(l: Links, a: seq<Node>, c: seq<Node>, n: Node, x: Node, b: seq<Node>) {
    && a != [] && Two(l, a + c, [n, x] + b)
    && x in l.next && x in l.prev && Seam(a, c) in l.prev
    && l.next[x] == Seam([n, x], b)  && l.prev[x] == n && l.prev[Seam(a, c)] == a[|a| - 1]
  }

  lemma MoveReady(l: Links, a: seq<Node>, c: seq<Node>, n: Node, x: Node, b: seq<Node>)
    requires a != [] && Two(l, a + c, [n, x] + b)
    ensures MoveFacts(l, a, c, n, x, b)
  {
    var r, s := a + c, [n, x] + b;
    assert Linked(l, s, 1);
    assert b != [] ==>
      && s[2] == b[0];
    if c == [] {
      assert r == a;
      assert Linked(l, r, 0);
    } else {
      assert Linked(l, r, |a|);
    }
  }

  lemma MovedCells(l: Links, q: Node, x: Node, y: Node)
    requires x in l.next && x in l.prev && q in l.prev && y in l.next && y in l.prev
    requires var p, n, e := l.prev[q], l.prev[x], l.next[x]; x !in {p, q, n, e} && n !in {p, q} && e !in {p, q}
    ensures q in Removed(l, x).prev && y in Moved(l, q, x).next && y in Moved(l, q, x).prev
    ensures Moved(l, q, x).next[y] == if y == x then q else if y == l.prev[q] then x
        else if y == l.prev[x] then l.next[x] else l.next[y]
    ensures Moved(l, q, x).prev[y] == if y == x then l.prev[q] else if y == q then x
        else if y == l.next[x] then l.prev[x] else l.prev[y]
  {
  }

  lemma MoveApart(l: Links, a: seq<Node>, c: seq<Node>, n: Node, x: Node, b: seq<Node>)
    requires MoveFacts(l, a, c, n, x, b)
    ensures var p, q, e := a[|a| - 1], Seam(a, c), Seam([n, x], b); x !in {p, q, n, e} && n !in {p, q} && e !in {p, q}
  {
    var r, s := a + c, [n, x] + b;
    assert a[|a| - 1] == r[|a| - 1] && Seam(a, c) == r[if c == [] then 0 else |a|];
    assert Differ(s, 0, 1);
    if b != [] {
      assert Differ(s, 1, 2) && s[2] == b[0];
    }
    assert forall i :: 0 <= i < |r| ==> r[i] in Nodes(r);
    assert s[0] in Nodes(s) && s[1] in Nodes(s) && Seam([n, x], b) in Nodes(s);
  }

  /** Place i of the ring that gained x. */
  lemma MovedAt(l: Links, a: seq<Node>, c: seq<Node>, n: Node, x: Node, b: seq<Node>, i: nat)
    requires MoveFacts(l, a, c, n, x, b) && i < |a| + 1 + |c|
    ensures Seam(a, c) in Removed(l, x).prev && Linked(Moved(l, Seam(a, c), x), a + [x] + c, i)
  {
    hide Moved;
    var r, ring, q := a + c, a + [x] + c, Seam(a, c);
    MoveApart(l, a, c, n, x, b);
    MovedCells(l, q, x, x);
    if i != |a| {
      var k := if i < |a| then i else i - 1;
      assert Linked(l, r, k) && ring[i] == r[k];
      assert r[k] in Nodes(r) && n in Nodes([n, x] + b) && Seam([n, x], b) in Nodes([n, x] + b);
      MovedCells(l, q, x, r[k]);
      SeamOnly(a, c, k);
    }
  }

  /** Only the last node of a stands before the seam, only the first behind it stands behind it. */
  lemma SeamOnly(a: seq<Node>, c: seq<Node>, k: nat)
    requires a != [] && k < |a + c|
    requires forall i, j {:trigger Differ(a + c, i, j)} :: 0 <= i < j < |a + c| ==> Differ(a + c, i, j)
    ensures (a + c)[k] == a[|a| - 1] <==> k == |a| - 1
    ensures (a + c)[k] == Seam(a, c) <==> k == if c == [] then 0 else |a|
  {
    var r := a + c;
    if k < |a| - 1 {
      assert Differ(r, k, |a| - 1);
    } else if k > |a| - 1 {
      assert Differ(r, |a| - 1, k);
    }
    var m := if c == [] then 0 else |a|;
    if k < m {
      assert Differ(r, k, m);
    } else if k > m {
      assert Differ(r, m, k);
    }
  }

  lemma MovedRing(l: Links, a: seq<Node>, c: seq<Node>, n: Node, x: Node, b: seq<Node>)
    requires a != [] && Two(l, a + c, [n, x] + b)
    ensures MoveFacts(l, a, c, n, x, b) && Seam(a, c) in Removed(l, x).prev
    ensures Ring(Moved(l, Seam(a, c), x), a + [x] + c)
  {
    hide Moved;
    MoveReady(l, a, c, n, x, b);
    var r, ring := a + c, a + [x] + c;
    MovedAt(l, a, c, n, x, b, 0);
    forall i | 0 <= i < |ring| ensures Linked(Moved(l, Seam(a, c), x), ring, i) {
      MovedAt(l, a, c, n, x, b, i);
    }
    forall i, j | 0 <= i < j < |ring| ensures Differ(ring, i, j) {
      assert x in Nodes([n, x] + b) && x !in Nodes(r);
      if i != |a| && j != |a| {
        assert Differ(r, if i < |a| then i else i - 1, if j < |a| then j else j - 1);
      } else {
        var k := if i == |a| then j - 1 else i;
        assert r[k] in Nodes(r) && r[k] == ring[if i == |a| then j else i];
      }
    }
  }

  /** Place i of the ring that lost x. */
  lemma LeftAt(l: Links, a: seq<Node>, c: seq<Node>, n: Node, x: Node, b: seq<Node>, i: nat)
    requires MoveFacts(l, a, c, n, x, b) && i < |b| + 1
    ensures Seam(a, c) in Removed(l, x).prev && Linked(Moved(l, Seam(a, c), x), [n] + b, i)
  {
    hide Moved;
    var s, ring, q := [n, x] + b, [n] + b, Seam(a, c);
    MoveApart(l, a, c, n, x, b);
    var k := if i == 0 then 0 else i + 1;
    assert Linked(l, s, k) && ring[i] == s[k];
    assert s[k] in Nodes(s) && q == (a + c)[if c == [] then 0 else |a|] && a[|a| - 1] == (a + c)[|a| - 1];
    assert q in Nodes(a + c) && a[|a| - 1] in Nodes(a + c);
    MovedCells(l, q, x, s[k]);
    if k > 2 {
      assert Differ(s, 0, k) && Differ(s, 1, k) && Differ(s, 2, k) && s[2] == b[0];
    } else if k == 2 {
      assert Differ(s, 0, 2) && Differ(s, 1, 2);
    } else {
      assert Differ(s, 0, 1);
      if b != [] {
        assert Differ(s, 0, 2) && s[2] == b[0];
      }
    }
  }

  lemma LeftRing(l: Links, a: seq<Node>, c: seq<Node>, n: Node, x: Node, b: seq<Node>)
    requires a != [] && Two(l, a + c, [n, x] + b)
    ensures MoveFacts(l, a, c, n, x, b) && Seam(a, c) in Removed(l, x).prev
    ensures Ring(Moved(l, Seam(a, c), x), [n] + b)
  {
    hide Moved;
    MoveReady(l, a, c, n, x, b);
    var s, ring := [n, x] + b, [n] + b;
    LeftAt(l, a, c, n, x, b, 0);
    forall i | 0 <= i < |ring| ensures Linked(Moved(l, Seam(a, c), x), ring, i) {
      LeftAt(l, a, c, n, x, b, i);
    }
    forall i, j | 0 <= i < j < |ring| ensures Differ(ring, i, j) {
      assert Differ(s, if i == 0 then 0 else i + 1, j + 1);
    }
  }

  /* ---- a ring falls into two: ngx_queue_split ---- */

  lemma SplitCells(l: Links, h: Node, q: Node, n: Node, y: Node)
    requires h in l.prev && q in l.prev && n != q && n != h && q != h && y in l.next && y in l.prev
    requires n !in {l.prev[h], l.prev[q]} && l.prev[h] != l.prev[q]
    ensures y in Split(l, h, q, n).next && y in Split(l, h, q, n).prev
    ensures Split(l, h, q, n).next[y] == if y == l.prev[h] then n else if y == n then q
        else if y == l.prev[q] then h else l.next[y]
    ensures Split(l, h, q, n).prev[y] == if y == n then l.prev[h] else if y == h then l.prev[q]
        else if y == q then n else l.prev[y]
  {
  }

  ghost predicate CanSplit(l: Links, a: seq<Node>, b: seq<Node>, n: Node) {
    && a != [] && b != [] && Ring(l, a + b) && n !in Nodes(a + b) && n in l.next && n in l.prev
  }

  lemma SplitFacts(l: Links, a: seq<Node>, b: seq<Node>, n: Node)
    requires CanSplit(l, a, b, n)
    ensures a[0] in l.prev && b[0] in l.prev && l.prev[a[0]] == b[|b| - 1] && l.prev[b[0]] == a[|a| - 1]
    ensures b[0] != a[0] && n !in {a[0], b[0], b[|b| - 1], a[|a| - 1]} && b[|b| - 1] != a[|a| - 1]
  {
    var r := a + b;
    assert Linked(l, r, 0) && Linked(l, r, |a|) && Differ(r, 0, |a|) && Differ(r, |a| - 1, |r| - 1);
    assert a[0] == r[0] && b[0] == r[|a|] && b[|b| - 1] == r[|r| - 1] && a[|a| - 1] == r[|a| - 1];
    assert r[0] in Nodes(r) && r[|a|] in Nodes(r) && r[|r| - 1] in Nodes(r) && r[|a| - 1] in Nodes(r);
  }

  lemma SplitAt(l: Links, a: seq<Node>, b: seq<Node>, n: Node, k: nat)
    requires CanSplit(l, a, b, n) && k < |a| + |b|
    ensures b[0] != n && b[0] != a[0] && a[0] in l.prev && b[0] in l.prev
    ensures var l' := Split(l, a[0], b[0], n);
      if k < |a| then Linked(l', a, k) else Linked(l', [n] + b, k - |a| + 1)
  {
    hide Split;
    var r := a + b;
    SplitFacts(l, a, b, n);
    assert Linked(l, r, k) && r[k] in Nodes(r);
    SplitCells(l, a[0], b[0], n, r[k]);
    PlaceOnly(r, k, 0);
    PlaceOnly(r, k, |a| - 1);
    PlaceOnly(r, k, |a|);
    PlaceOnly(r, k, |r| - 1);
  }

  /** A node of a ring is at one place. */
  lemma PlaceOnly(r: seq<Node>, i: nat, j: nat)
    requires i < |r| && j < |r| && forall i, j {:trigger Differ(r, i, j)} :: 0 <= i < j < |r| ==> Differ(r, i, j)
    ensures r[i] == r[j] <==> i == j
  {
    if i < j {
      assert Differ(r, i, j);
    } else if j < i {
      assert Differ(r, j, i);
    }
  }

  lemma SplitRings(l: Links, a: seq<Node>, b: seq<Node>, n: Node)
    requires CanSplit(l, a, b, n)
    ensures b[0] != n && b[0] != a[0] && a[0] in l.prev && b[0] in l.prev
    ensures Two(Split(l, a[0], b[0], n), a, [n] + b)
  {
    hide Split;
    var r, s := a + b, [n] + b;
    SplitAt(l, a, b, n, 0);
    var l' := Split(l, a[0], b[0], n);
    forall k | 0 <= k < |a| ensures Linked(l', a, k) {
      SplitAt(l, a, b, n, k);
    }
    forall k | 0 <= k < |s| ensures Linked(l', s, k) {
      if k == 0 {
        SplitFacts(l, a, b, n);
        SplitCells(l, a[0], b[0], n, n);
      } else {
        SplitAt(l, a, b, n, |a| + k - 1);
      }
    }
    forall i, j | 0 <= i < j < |a| ensures Differ(a, i, j) {
      assert Differ(r, i, j);
    }
    forall i, j | 0 <= i < j < |s| ensures Differ(s, i, j) {
      assert s[j] == r[|a| + j - 1] && r[|a| + j - 1] in Nodes(r);
      assert i > 0 ==>
        && Differ(r, |a| + i - 1, |a| + j - 1);
    }
    PartsApart(a, b, n);
  }

  lemma PartsApart(a: seq<Node>, b: seq<Node>, n: Node)
    requires n !in Nodes(a + b)
    requires forall i, j {:trigger Differ(a + b, i, j)} :: 0 <= i < j < |a + b| ==> Differ(a + b, i, j)
    ensures Nodes(a) !! Nodes([n] + b)
  {
    forall i, j | 0 <= i < |a| && 0 <= j < |b| ensures a[i] != b[j] {
      assert Differ(a + b, i, |a| + j);
    }
    forall i | 0 <= i < |a| ensures a[i] != n {
      assert (a + b)[i] in Nodes(a + b);
    }
  }

  /* ---- a ring takes in another: ngx_queue_add ---- */

  lemma JoinedCells(l: Links, h: Node, n: Node, y: Node)
    requires h in l.next && h in l.prev && n in l.next && n in l.prev && n != h && l.next[n] != n && y in l.next
    requires y in l.prev
    requires l.next[n] !in {h, l.prev[h]} && l.prev[n] !in {h, l.prev[h]}
    ensures y in Joined(l, h, n).next && y in Joined(l, h, n).prev
    ensures Joined(l, h, n).next[y] == if y == l.prev[n] then h else if y == l.prev[h] then l.next[n] else l.next[y]
    ensures Joined(l, h, n).prev[y] == if y == h then l.prev[n] else if y == l.next[n] then l.prev[h] else l.prev[y]
  {
  }

  lemma JoinFacts(l: Links, a: seq<Node>, n: Node, b: seq<Node>)
    requires a != [] && b != [] && Two(l, a, [n] + b)
    ensures a[0] in l.prev && a[0] in l.next && n in l.next && n in l.prev && n != a[0] && l.next[n] == b[0] != n
    ensures l.prev[n] == b[|b| - 1] && l.prev[a[0]] == a[|a| - 1]
    ensures b[0] !in {a[0], a[|a| - 1]} && b[|b| - 1] !in {a[0], a[|a| - 1]}
  {
    var s := [n] + b;
    assert Linked(l, a, 0) && Linked(l, s, 0) && Differ(s, 0, 1);
    assert s[1] == b[0] && s[|s| - 1] == b[|b| - 1];
    assert s[0] in Nodes(s) && s[1] in Nodes(s) && s[|s| - 1] in Nodes(s) && a[0] in Nodes(a) && a[|a| - 1] in Nodes(a);
  }

  lemma JoinedAt(l: Links, a: seq<Node>, n: Node, b: seq<Node>, k: nat)
    requires a != [] && b != [] && Two(l, a, [n] + b) && k < |a| + |b|
    ensures a[0] in l.prev && n in l.next && n in l.prev && n != a[0] && l.next[n] != n
    ensures Linked(Joined(l, a[0], n), a + b, k)
  {
    hide Joined;
    var s, r := [n] + b, a + b;
    JoinFacts(l, a, n, b);
    if k < |a| {
      assert Linked(l, a, k) && r[k] == a[k] && a[k] in Nodes(a) && b[0] in Nodes(s) && b[|b| - 1] in Nodes(s);
      PlaceOnly(a, k, 0);
      PlaceOnly(a, k, |a| - 1);
      JoinedCells(l, a[0], n, a[k]);
    } else {
      var j := k - |a| + 1;
      assert Linked(l, s, j) && r[k] == s[j] && s[j] in Nodes(s) && a[0] in Nodes(a) && a[|a| - 1] in Nodes(a);
      PlaceOnly(s, j, 1);
      PlaceOnly(s, j, |s| - 1);
      JoinedCells(l, a[0], n, s[j]);
    }
  }

  /** The head n of the other ring is in no ring any more. */
  lemma JoinedRing(l: Links, a: seq<Node>, n: Node, b: seq<Node>)
    requires a != [] && b != [] && Two(l, a, [n] + b)
    ensures a[0] in l.prev && n in l.next && n in l.prev && n != a[0] && l.next[n] != n
    ensures Ring(Joined(l, a[0], n), a + b) && n !in Nodes(a + b)
  {
    hide Joined;
    var s, r := [n] + b, a + b;
    JoinedAt(l, a, n, b, 0);
    forall k | 0 <= k < |r| ensures Linked(Joined(l, a[0], n), r, k) {
      JoinedAt(l, a, n, b, k);
    }
    forall i, j | 0 <= i < j < |r| ensures Differ(r, i, j) {
      if j < |a| {
        assert Differ(a, i, j);
      } else if i < |a| {
        assert r[i] in Nodes(a) && r[j] == s[j - |a| + 1] && s[j - |a| + 1] in Nodes(s);
      } else {
        assert Differ(s, i - |a| + 1, j - |a| + 1);
      }
    }
    forall i | 0 <= i < |r| ensures r[i] != n {
      if i < |a| {
        assert r[i] in Nodes(a) && s[0] in Nodes(s);
      } else {
        assert Differ(s, 0, i - |a| + 1);
      }
    }
  }

  /* ---- the macros ---- */

  /** x->next = y */
  method SetNext(x: Node, y: Node, ghost s: set<Node>)
    requires x in s
    modifies x`next
    ensures x.next == y && LinksOf(s) == old(LinksOf(s)).WithNext(x, y)
  {
    x.next := y;
    assert LinksOf(s).next == old(LinksOf(s)).next[x := y];
  }

  /** x->prev = y */
  method SetPrev(x: Node, y: Node, ghost s: set<Node>)
    requires x in s
    modifies x`prev
    ensures x.prev == y && LinksOf(s) == old(LinksOf(s)).WithPrev(x, y)
  {
    x.prev := y;
    assert LinksOf(s).prev == old(LinksOf(s)).prev[x := y];
  }

  /** ngx_queue_remove */
  method Remove(x: Node, ghost s: set<Node>)
    requires x in s && x.prev in s && x.next in s && x.next != x
    modifies s
    ensures LinksOf(s) == old(Removed(LinksOf(s), x))
  {
    SetPrev(x.next, x.prev, s);
    SetNext(x.prev, x.next, s);
  }

  /** ngx_queue_insert_before */
  method InsertBefore(h: Node, x: Node, ghost s: set<Node>)
    requires x in s && h in s && h.prev in s && x != h && x != h.prev
    modifies s
    ensures LinksOf(s) == old(InsertedBefore(LinksOf(s), h, x))
  {
    SetPrev(x, h.prev, s);
    SetNext(x.prev, x, s);
    SetNext(x, h, s);
    SetPrev(h, x, s);
  }

  /** ngx_queue_split */
  method SplitAtNode(h: Node, q: Node, n: Node, ghost s: set<Node>)
    requires h in s && q in s && n in s && h.prev in s && q.prev in s && n != q && q != h && n != h
    requires n !in {h.prev, q.prev}
    modifies s
    ensures LinksOf(s) == old(Split(LinksOf(s), h, q, n))
  {
    SetPrev(n, h.prev, s);
    SetNext(n.prev, n, s);
    SetNext(n, q, s);
    SetPrev(h, q.prev, s);
    SetNext(h.prev, h, s);
    SetPrev(q, n, s);
  }

  /** ngx_queue_add; the other list must not be empty. */
  method Add(h: Node, n: Node, ghost s: set<Node>)
    requires h in s && n in s && h.prev in s && n.prev in s && n.next in s && n != h && n.next != n
    modifies s
    ensures LinksOf(s) == old(Joined(LinksOf(s), h, n))
  {
    SetNext(h.prev, n.next, s);
    SetPrev(n.next, h.prev, s);
    SetPrev(h, n.prev, s);
    SetNext(h.prev, h, s);
  }

  /* ---- ngx_queue_middle, ngx_queue_merge, ngx_queue_sort ---- */

  /** What a ring says of the heap. */
  lemma At(s: set<Node>, ring: seq<Node>, i: nat)
    requires Ring(LinksOf(s), ring) && i < |ring|
    ensures ring[i] in s && ring[i].next == ring[Behind(|ring|, i)] && ring[i].prev == ring[Before(|ring|, i)]
  {
    assert Linked(LinksOf(s), ring, i);
  }

  /** The node in the middle of a list, the first of the second half if there are two. */
  method Middle(queue: Node, ghost ring: seq<Node>) returns (middle: Node)
    requires Ring(LinksOf(Nodes(ring)), ring) && ring[0] == queue && |ring| > 1
    ensures middle == ring[1 + (|ring| - 1) / 2]
  {
    ghost var s, n := Nodes(ring), |ring| - 1;
    At(s, ring, 0);
    middle := queue.next;
    PlaceOnly(ring, 1, n);
    if middle == queue.prev {
      return;
    }
    var next := queue.next;
    ghost var m := 0;
    while true
      invariant 0 <= m && 2 * m < n - 1 && middle == ring[1 + m] && next == ring[1 + 2 * m]
      decreases n - m
    {
      At(s, ring, 1 + m);
      At(s, ring, 1 + 2 * m);
      middle := middle.next;
      next := next.next;
      m := m + 1;
      PlaceOnly(ring, 2 * m, n);
      if next == queue.prev {
        return;
      }
      At(s, ring, 2 * m);
      next := next.next;
      PlaceOnly(ring, 2 * m + 1, n);
      if next == queue.prev {
        return;
      }
    }
  }

  /** The walks are at the head again exactly when the lists are at their ends. */
  lemma Ends(l: Links, front: seq<Node>, rest: seq<Node>, tail: Node, left: seq<Node>)
    requires front != [] && Two(l, front + rest, [tail] + left)
    ensures Seam(front, rest) == front[0] <==> rest == []
    ensures Seam([tail], left) == tail <==> left == []
    ensures rest == [] ==> front + rest == front
  {
    if rest != [] {
      PlaceOnly(front + rest, |front|, 0);
    }
    if left != [] {
      PlaceOnly([tail] + left, 1, 0);
    }
  }

  lemma MovedBoth(l: Links, a: seq<Node>, c: seq<Node>, n: Node, x: Node, b: seq<Node>)
    requires a != [] && Two(l, a + c, [n, x] + b)
    ensures x in l.next && x in l.prev && Seam(a, c) in Removed(l, x).prev
    ensures Removed(l, x).prev[Seam(a, c)] == a[|a| - 1]
    ensures l.next[x] != x && Seam(a, c) != x && a[|a| - 1] != x
    ensures Two(Moved(l, Seam(a, c), x), a + [x] + c, [n] + b)
    ensures Seam(a, c) == Seam(a + [x], c) || c == []
  {
    MoveReady(l, a, c, n, x, b);
    MoveApart(l, a, c, n, x, b);
    MovedRing(l, a, c, n, x, b);
    LeftRing(l, a, c, n, x, b);
    var s := [n, x] + b;
    forall k | 0 <= k < |[n] + b| ensures ([n] + b)[k] !in Nodes(a + [x] + c) {
      var j := if k == 0 then 0 else k + 1;
      assert ([n] + b)[k] == s[j] && s[j] in Nodes(s);
      PlaceOnly(s, j, 1);
      forall i | 0 <= i < |a + [x] + c| && i != |a| ensures (a + [x] + c)[i] in Nodes(a + c) {
        assert (a + [x] + c)[i] == (a + c)[if i < |a| then i else i - 1];
      }
    }
  }

  /** The first node of the second list moves before node q1. */
  method MoveBefore(q1: Node, x: Node, ghost a: seq<Node>, ghost c: seq<Node>, ghost n: Node, ghost b: seq<Node>,
                    ghost s: set<Node>)
    requires a != [] && Two(LinksOf(s), a + c, [n, x] + b) && q1 == Seam(a, c)
    modifies s
    ensures Two(LinksOf(s), a + [x] + c, [n] + b)
  {
    ghost var l := LinksOf(s);
    MovedBoth(l, a, c, n, x, b);
    At(s, [n, x] + b, 1);
    assert x.next in s && x.prev in s by {
      assert Linked(l, [n, x] + b, Behind(|[n, x] + b|, 1)) && Linked(l, [n, x] + b, 0);
    }
    Remove(x, s);
    assert q1.prev == LinksOf(s).prev[q1];
    assert a[|a| - 1] in s by {
      assert Linked(l, a + c, |a| - 1);
    }
    InsertBefore(q1, x, s);
  }

  /** Where a merge stands: front is merged, rest and left are to be merged; the walks stand at their first nodes. */
  ghost predicate Merging(l: Links, front: seq<Node>, rest: seq<Node>, tail: Node, left: seq<Node>, q1: Node,
                          q2: Node) {
    && front != [] && Two(l, front + rest, [tail] + left) && q1 == Seam(front, rest) && q2 == Seam([tail], left)
    && (rest == [] ==> left != [])
  }

  lemma WalkOn(s: set<Node>, front: seq<Node>, rest: seq<Node>, tail: Node, left: seq<Node>, q1: Node, q2: Node)
    requires Merging(LinksOf(s), front, rest, tail, left, q1, q2) && rest != [] && left != []
    ensures Merging(LinksOf(s), front + [rest[0]], rest[1..], tail, left, q1.next, q2)
  {
    At(s, front + rest, |front|);
    assert front + [rest[0]] + rest[1..] == front + rest;
    if rest[1..] != [] {
      assert (front + rest)[|front| + 1] == rest[1..][0];
    }
  }

  lemma Start(s: set<Node>, queue: Node, tail: Node, a: seq<Node>, b: seq<Node>)
    requires Two(LinksOf(s), [queue] + a, [tail] + b) && a != [] && b != []
    ensures Merging(LinksOf(s), [queue], a, tail, b, queue.next, tail.next)
  {
    At(s, [queue] + a, 0);
    At(s, [tail] + b, 0);
  }

  /** The rest of the second list is taken in at once. */
  method TakeRest(queue: Node, tail: Node, ghost front: seq<Node>, ghost left: seq<Node>, ghost s: set<Node>)
    requires Two(LinksOf(s), front, [tail] + left) && front != [] && front[0] == queue && left != []
    modifies s
    ensures Ring(LinksOf(s), front + left) && tail !in Nodes(front + left)
  {
    JoinFacts(LinksOf(s), front, tail, left);
    JoinedRing(LinksOf(s), front, tail, left);
    At(s, front, 0);
    At(s, [tail] + left, 0);
    assert Linked(LinksOf(s), front, Before(|front|, 0))
      && Linked(LinksOf(s), [tail] + left, Before(|[tail] + left|, 0));
    assert Linked(LinksOf(s), [tail] + left, 1);
    Add(queue, tail, s);
  }

  lemma MergeEnds(front: seq<Node>, rest: seq<Node>, left: seq<Node>, le: (Node, Node) -> bool)
    ensures rest == [] ==> front + Merge(rest, left, le) == front + left
    ensures left == [] ==> front + Merge(rest, left, le) == front + rest
  {
  }

  lemma MergeKept(front: seq<Node>, rest: seq<Node>, left: seq<Node>, le: (Node, Node) -> bool)
    requires rest != [] && left != [] && le(rest[0], left[0])
    ensures front + [rest[0]] + Merge(rest[1..], left, le) == front + Merge(rest, left, le)
  {
  }

  lemma MergeTaken(front: seq<Node>, rest: seq<Node>, left: seq<Node>, le: (Node, Node) -> bool)
    requires rest != [] && left != [] && !le(rest[0], left[0])
    ensures front + [left[0]] + Merge(rest, left[1..], le) == front + Merge(rest, left, le)
  {
  }

  /** Sorted list b, with head tail, is merged into sorted list a, with head queue. */
  method MergeLists(queue: Node, tail: Node, ghost a: seq<Node>, ghost b: seq<Node>, ghost s: set<Node>, le: (Node,
                    Node) -> bool)
    requires Two(LinksOf(s), [queue] + a, [tail] + b) && a != [] && b != []
    modifies s
    ensures Ring(LinksOf(s), [queue] + Merge(a, b, le)) && tail !in Nodes([queue] + Merge(a, b, le))
  {
    hide Ring;
    hide Merge;
    hide Two;
    ghost var front, rest, left := [queue], a, b;
    Start(s, queue, tail, a, b);
    var q1, q2 := queue.next, tail.next;
    while true
      invariant front != [] && front[0] == queue && Merging(LinksOf(s), front, rest, tail, left, q1, q2)
      invariant front + Merge(rest, left, le) == [queue] + Merge(a, b, le)
      decreases |rest| + |left|
    {
      Ends(LinksOf(s), front, rest, tail, left);
      MergeEnds(front, rest, left, le);
      if q1 == queue {
        TakeRest(queue, tail, front, left, s);
        break;
      }
      if q2 == tail {
        OutOfRing(LinksOf(s), front + rest, tail, left);
        break;
      }
      if le(q1, q2) {
        WalkOn(s, front, rest, tail, left, q1, q2);
        MergeKept(front, rest, left, le);
        front, rest := front + [rest[0]], rest[1..];
        q1 := q1.next;
        continue;
      }
      assert [tail] + left == [tail, q2] + left[1..];
      MergeTaken(front, rest, left, le);
      MoveBefore(q1, q2, front, rest, tail, left[1..], s);
      front, left := front + [q2], left[1..];
      q2 := HeadOf(s, front + rest, tail, left);
    }
  }

  lemma OutOfRing(l: Links, ring: seq<Node>, tail: Node, left: seq<Node>)
    requires Two(l, ring, [tail] + left)
    ensures Ring(l, ring) && tail !in Nodes(ring)
  {
    assert ([tail] + left)[0] in Nodes([tail] + left);
  }

  /** ngx_queue_head */
  method HeadOf(ghost s: set<Node>, ghost ring: seq<Node>, tail: Node, ghost left: seq<Node>) returns (q: Node)
    requires Two(LinksOf(s), ring, [tail] + left)
    ensures q == Seam([tail], left)
  {
    At(s, [tail] + left, 0);
    q := tail.next;
  }

  /** The links of nodes that did not change are the same in any set. */
  lemma Narrow(s: set<Node>, t: set<Node>, ring: seq<Node>)
    requires Ring(LinksOf(s), ring) && Nodes(ring) <= t
    ensures Ring(LinksOf(t), ring)
  {
    forall i | 0 <= i < |ring| ensures Linked(LinksOf(t), ring, i) {
      assert Linked(LinksOf(s), ring, i) && ring[i] in Nodes(ring);
    }
  }

  /** The second half of a list gets a head of its own. */
  method Divide(queue: Node, ghost list: seq<Node>) returns (tail: Node)
    requires Ring(LinksOf(Nodes([queue] + list)), [queue] + list) && |list| > 1
    modifies Nodes([queue] + list)
    ensures fresh(tail)
    ensures Two(LinksOf(Nodes([queue] + list) + {tail}), [queue] + list[..|list| / 2], [tail] + list[|list| / 2..])
  {
    hide Ring;
    hide Split;
    hide Two;
    ghost var nodes, m := Nodes([queue] + list), |list| / 2;
    var q := Middle(queue, [queue] + list);
    tail := new Node();
    Halve(nodes, nodes + {tail}, queue, list, tail, m);
    SplitAtNode(queue, q, tail, nodes + {tail});
  }

  /** ngx_queue_sort: afterwards the ring holds the same nodes in sorted order, and the head of the second half,
      which lives on the stack, is not linked. */
  method SortQueue(queue: Node, ghost list: seq<Node>, le: (Node, Node) -> bool)
    requires Ring(LinksOf(Nodes([queue] + list)), [queue] + list)
    modifies Nodes([queue] + list)
    ensures Ring(LinksOf(Nodes([queue] + list)), [queue] + Sort(list, le))
    decreases |list|, 1
  {
    hide Ring;
    hide Two;
    hide Sort;
    hide Merge;
    ghost var nodes, m := Nodes([queue] + list), |list| / 2;
    FewNodes(nodes, queue, list);
    var q := queue.next;
    if q == queue.prev {
      SortShort(list, le);
      return;
    }
    var tail := Divide(queue, list);
    ghost var front, back, s := list[..m], list[m..], nodes + {tail};
    HalfNodes(queue, tail, list, m);
    SortHalves(queue, tail, front, back, s, le);
    SortSplit(list, le);
    MergeLists(queue, tail, Sort(front, le), Sort(back, le), s, le);
    SortedNodes(queue, list, le);
    Narrow(s, nodes, [queue] + Sort(list, le));
  }

  lemma HalfNodes(queue: Node, tail: Node, list: seq<Node>, m: nat)
    requires m <= |list|
    ensures Nodes([queue] + list) + {tail} == Nodes([queue] + list[..m]) + Nodes([tail] + list[m..])
  {
    NodesJoined([queue], list);
    NodesJoined([queue], list[..m]);
    NodesJoined([tail], list[m..]);
    assert list == list[..m] + list[m..];
    NodesJoined(list[..m], list[m..]);
  }

  /** A list has at most one element exactly when its first is its last. */
  lemma FewNodes(s: set<Node>, queue: Node, list: seq<Node>)
    requires Ring(LinksOf(s), [queue] + list)
    ensures queue in s && (queue.next == queue.prev <==> |list| <= 1)
  {
    var ring := [queue] + list;
    At(s, ring, 0);
    PlaceOnly(ring, Behind(|ring|, 0), Before(|ring|, 0));
  }

  lemma SortShort(list: seq<Node>, le: (Node, Node) -> bool)
    requires |list| <= 1
    ensures Sort(list, le) == list
  {
  }

  lemma SortSplit(list: seq<Node>, le: (Node, Node) -> bool)
    requires |list| > 1
    ensures var m := |list| / 2;
      Sort(list, le) == Merge(Sort(list[..m], le), Sort(list[m..], le), le) && |Sort(list[..m], le)| == m
        && |Sort(list[m..], le)| == |list| - m
  {
    SortNodes(list[..|list| / 2], le);
    SortNodes(list[|list| / 2..], le);
  }

  /* ---- the sort only rearranges the nodes ---- */

  lemma NodesJoined(a: seq<Node>, b: seq<Node>)
    ensures Nodes(a + b) == Nodes(a) + Nodes(b)
  {
  }

  lemma NodesCons(list: seq<Node>)
    requires list != []
    ensures Nodes(list) == {list[0]} + Nodes(list[1..])
  {
    assert list == [list[0]] + list[1..];
    NodesJoined([list[0]], list[1..]);
    assert Nodes([list[0]]) == {list[0]};
  }

  lemma {:induction false} MergeNodes(a: seq<Node>, b: seq<Node>, le: (Node, Node) -> bool)
    ensures Nodes(Merge(a, b, le)) == Nodes(a) + Nodes(b) && |Merge(a, b, le)| == |a| + |b|
    decreases |a| + |b|
  {
    if a == [] {
      assert Nodes(a) == {};
    } else if b == [] {
      assert Nodes(b) == {};
    } else {
      NodesCons(a);
      NodesCons(b);
      NodesCons(Merge(a, b, le));
      if le(a[0], b[0]) {
        MergeNodes(a[1..], b, le);
      } else {
        MergeNodes(a, b[1..], le);
      }
    }
  }

  lemma {:induction false} SortNodes(list: seq<Node>, le: (Node, Node) -> bool)
    ensures Nodes(Sort(list, le)) == Nodes(list) && |Sort(list, le)| == |list|
    decreases |list|
  {
    if |list| > 1 {
      var front, back := list[..|list| / 2], list[|list| / 2..];
      assert list == front + back;
      NodesJoined(front, back);
      SortNodes(front, le);
      SortNodes(back, le);
      MergeNodes(Sort(front, le), Sort(back, le), le);
    }
  }

  lemma SortedNodes(queue: Node, list: seq<Node>, le: (Node, Node) -> bool)
    ensures Nodes([queue] + Sort(list, le)) == Nodes([queue] + list) && |Sort(list, le)| == |list|
  {
    SortNodes(list, le);
    NodesJoined([queue], list);
    NodesJoined([queue], Sort(list, le));
  }

  lemma Halve(nodes: set<Node>, s: set<Node>, queue: Node, list: seq<Node>, tail: Node, m: nat)
    requires nodes == Nodes([queue] + list) && s == nodes + {tail} && tail !in nodes
    requires Ring(LinksOf(nodes), [queue] + list)
    requires 0 < m < |list|
    ensures CanSplit(LinksOf(s), [queue] + list[..m], list[m..], tail) && queue in s && list[m] in s
    ensures queue.prev in s && list[m].prev in s && list[m] != tail && list[m] != queue
    ensures tail !in {queue.prev, list[m].prev}
    ensures Two(Split(LinksOf(s), queue, list[m], tail), [queue] + list[..m], [tail] + list[m..])
  {
    var a, b := [queue] + list[..m], list[m..];
    assert [queue] + list == a + b;
    Narrow(nodes, s, a + b);
    SplitFacts(LinksOf(s), a, b, tail);
    SplitRings(LinksOf(s), a, b, tail);
  }

  method SortHalves(queue: Node, tail: Node, ghost front: seq<Node>, ghost back: seq<Node>, ghost s: set<Node>,
                    le: (Node, Node) -> bool)
    requires Two(LinksOf(s), [queue] + front, [tail] + back) && s == Nodes([queue] + front) + Nodes([tail] + back)
    requires front != [] && back != []
    modifies s
    ensures Two(LinksOf(s), [queue] + Sort(front, le), [tail] + Sort(back, le))
    decreases |front| + |back|, 0
  {
    hide Ring;
    hide Sort;
    ghost var one, two := Nodes([queue] + front), Nodes([tail] + back);
    Narrow(s, one, [queue] + front);
    Narrow(s, two, [tail] + back);
    SortQueue(queue, front, le);
    SortQueue(tail, back, le);
    SortedNodes(queue, front, le);
    SortedNodes(tail, back, le);
    Narrow(one, s, [queue] + Sort(front, le));
    Narrow(two, s, [tail] + Sort(back, le));
  }
}
