/** Page descriptors and the circular lists that run through them. */
module SlabLists {

  const NULL: int := -1

  /** NGX_SLAB_PAGE, BIG, EXACT, SMALL: the low bits of a page's prev word. */
  const PAGE: nat := 0
  const BIG: nat := 1
  const EXACT: nat := 2
  const SMALL: nat := 3

  /** ngx_slab_page_t. `prev` and `tag` are the pointer and the two low bits of the prev word; links are
      indices into the descriptor table, where the list heads stand behind the pages. */
  datatype Desc = Desc(slab: nat, next: int, prev: int, tag: nat)
  type Table = seq<Desc>

  /** Element i of a ring, the head being the element before the first and after the last. */
  function Elt(head: int, list: seq<int>, i: int): int {
    if 0 <= i < |list| then list[i] else head
  }

  ghost predicate InTable(t: Table, head: int, list: seq<int>) {
    && 0 <= head < |t|
    && (forall i :: 0 <= i < |list| ==> 0 <= list[i] < |t| && list[i] != head)
    && (forall i, j :: 0 <= i < j < |list| ==> list[i] != list[j])
  }

  /** The table holds the ring: next links from the head around, prev links for all but the head. */
  ghost predicate Ring(t: Table, head: int, list: seq<int>) {
    && InTable(t, head, list)
    && t[head].next == Elt(head, list, 0)
    && (forall i {:trigger t[list[i]]} :: 0 <= i < |list| ==>
       t[list[i]].next == Elt(head, list, i + 1) && t[list[i]].prev == Elt(head, list, i - 1))
  }

  function Without(list: seq<int>, i: int): seq<int>
    requires 0 <= i < |list|
  {
    list[..i] + list[i + 1..]
  }

  function WithNext(t: Table, x: int, v: int): Table
    requires 0 <= x < |t|
  {
    t[x := t[x].(next := v)]
  }

  function WithPrev(t: Table, x: int, v: int, tag: nat): Table
    requires 0 <= x < |t|
  {
    t[x := t[x].(prev := v, tag := tag)]
  }

  /** prev->next = page->next; page->next->prev = page->prev; */
  function Unlink(t: Table, x: int): Table
    requires 0 <= x < |t| && 0 <= t[x].prev < |t| && 0 <= t[x].next < |t| && t[x].prev != x
  {
    var t1 := WithNext(t, t[x].prev, t[x].next);
    WithPrev(t1, t1[x].next, t1[x].prev, t1[x].tag)
  }

  /** page becomes the first element of a list. */
  function Push(t: Table, head: int, x: int, tag: nat): Table
    requires 0 <= x < |t| && 0 <= head < |t| && 0 <= t[head].next < |t| && x != head
  {
    var t1 := WithNext(t, x, t[head].next);
    var t2 := WithNext(t1, head, x);
    var t3 := WithPrev(t2, x, head, tag);
    WithPrev(t3, t3[x].next, x, tag)
  }

  lemma UnlinkReady(t: Table, head: int, list: seq<int>, i: int)
    requires Ring(t, head, list) && 0 <= i < |list|
    ensures var x := list[i]; 0 <= t[x].prev < |t| && 0 <= t[x].next < |t| && t[x].prev != x && t[x].next != x
    ensures t[list[i]].prev == Elt(head, list, i - 1) && t[list[i]].next == Elt(head, list, i + 1)
  {
  }

  lemma WithoutElt(head: int, list: seq<int>, i: int, j: int)
    requires 0 <= i < |list| && -1 <= j <= |list| - 1
    ensures Elt(head, Without(list, i), j) == Elt(head, list, if j < i then j else j + 1)
  {
  }

  lemma UnlinkCells(t: Table, x: int, y: int)
    requires 0 <= x < |t| && 0 <= t[x].prev < |t| && 0 <= t[x].next < |t| && t[x].prev != x && 0 <= y < |t|
    ensures |Unlink(t, x)| == |t|
    ensures Unlink(t, x)[y].slab == t[y].slab
    ensures Unlink(t, x)[y].next == if y == t[x].prev then t[x].next else t[y].next
    ensures Unlink(t, x)[y].prev == if y == t[x].next then t[x].prev else t[y].prev
    ensures Unlink(t, x)[y].tag == if y == t[x].next then t[x].tag else t[y].tag
  {
  }

  lemma EltsDiffer(t: Table, head: int, list: seq<int>, i: int, j: int)
    requires InTable(t, head, list) && -1 <= i < |list| && -1 <= j < |list| && i != j
    ensures Elt(head, list, i) != Elt(head, list, j)
  {
  }

  lemma UnlinkAt(t: Table, head: int, list: seq<int>, i: int, j: int)
    requires Ring(t, head, list) && 0 <= i < |list| && -1 <= j < |list| - 1
    ensures 0 <= t[list[i]].prev < |t| && 0 <= t[list[i]].next < |t| && t[list[i]].prev != list[i]
    ensures var t', list' := Unlink(t, list[i]), Without(list, i); var y := Elt(head, list', j);
      0 <= y < |t'| && t'[y].next == Elt(head, list', j + 1) && (j >= 0 ==> t'[y].prev == Elt(head, list', j - 1))
  {
    hide Without;
    hide Unlink;
    UnlinkReady(t, head, list, i);
    var k := if j < i then j else j + 1;
    WithoutElt(head, list, i, j);
    WithoutElt(head, list, i, j + 1);
    UnlinkCells(t, list[i], Elt(head, list, k));
    if k != i - 1 {
      EltsDiffer(t, head, list, k, i - 1);
    }
    if j >= 0 {
      WithoutElt(head, list, i, j - 1);
      if k != i + 1 && i + 1 < |list| {
        EltsDiffer(t, head, list, k, i + 1);
      }
    }
  }

  lemma WithoutInTable(t: Table, head: int, list: seq<int>, i: int)
    requires InTable(t, head, list) && 0 <= i < |list|
    ensures InTable(t, head, Without(list, i))
  {
  }

  lemma UnlinkRing(t: Table, head: int, list: seq<int>, i: int)
    requires Ring(t, head, list) && 0 <= i < |list|
    ensures 0 <= t[list[i]].prev < |t| && 0 <= t[list[i]].next < |t| && t[list[i]].prev != list[i]
    ensures Ring(Unlink(t, list[i]), head, Without(list, i))
  {
    UnlinkReady(t, head, list, i);
    var t', list' := Unlink(t, list[i]), Without(list, i);
    WithoutInTable(t, head, list, i);
    UnlinkAt(t, head, list, i, -1);
    forall j | 0 <= j < |list'|
      ensures t'[list'[j]].next == Elt(head, list', j + 1) && t'[list'[j]].prev == Elt(head, list', j - 1)
    {
      UnlinkAt(t, head, list, i, j);
    }
  }

  /** A ring that shares no descriptor with the cells that changed is still there. */
  lemma OtherRing(t: Table, t': Table, head: int, list: seq<int>)
    requires Ring(t, head, list) && |t'| == |t| && t'[head].next == t[head].next
    requires forall i :: 0 <= i < |list| ==> t'[list[i]].next == t[list[i]].next && t'[list[i]].prev == t[list[i]].prev
    ensures Ring(t', head, list)
  {
  }

  lemma PushCells(t: Table, head: int, x: int, tag: nat, y: int)
    requires 0 <= x < |t| && 0 <= head < |t| && 0 <= t[head].next < |t| && x != head && x != t[head].next
    requires 0 <= y < |t|
    ensures |Push(t, head, x, tag)| == |t|
    ensures Push(t, head, x, tag)[y].slab == t[y].slab
    ensures Push(t, head, x, tag)[y].next == if y == x then t[head].next else if y == head then x else t[y].next
    ensures Push(t, head, x, tag)[y].prev == if y == x then head else if y == t[head].next then x else t[y].prev
    ensures Push(t, head, x, tag)[y].tag == if y == x || y == t[head].next then tag else t[y].tag
  {
  }

  lemma PushRing(t: Table, head: int, list: seq<int>, x: int, tag: nat)
    requires Ring(t, head, list) && 0 <= x < |t| && x != head && x !in list
    ensures 0 <= t[head].next < |t| && Ring(Push(t, head, x, tag), head, [x] + list)
  {
    var t', list' := Push(t, head, x, tag), [x] + list;
    forall j | 0 <= j < |list'|
      ensures t'[list'[j]].next == Elt(head, list', j + 1) && t'[list'[j]].prev == Elt(head, list', j - 1)
    {
      if j > 0 {
        assert list'[j] == list[j - 1];
      }
    }
  }

  /** y takes the place of x in its list; the link from the next element gets clear type bits. */
  function Substitute(t: Table, x: int, y: int): Table
    requires 0 <= x < |t| && 0 <= y < |t| && 0 <= t[x].prev < |t| && 0 <= t[x].next < |t| && t[x].prev != x && x != y
  {
    var t1 := WithNext(t, y, t[x].next);
    var t2 := WithPrev(t1, y, t1[x].prev, t1[x].tag);
    var t3 := WithNext(t2, t2[x].prev, y);
    WithPrev(t3, t3[x].next, y, 0)
  }

  lemma SubstituteCells(t: Table, x: int, y: int, z: int)
    requires 0 <= x < |t| && 0 <= y < |t| && 0 <= t[x].prev < |t| && 0 <= t[x].next < |t| && t[x].prev != x && x != y
    requires t[x].prev != y && t[x].next != y && t[x].next != x && 0 <= z < |t|
    ensures |Substitute(t, x, y)| == |t|
    ensures Substitute(t, x, y)[z].slab == t[z].slab
    ensures Substitute(t, x, y)[z].next == if z == y then t[x].next else if z == t[x].prev then y else t[z].next
    ensures Substitute(t, x, y)[z].prev == if z == y then t[x].prev else if z == t[x].next then y else t[z].prev
    ensures Substitute(t, x, y)[z].tag == if z == y then t[x].tag else if z == t[x].next then 0 else t[z].tag
  {
  }

  lemma UpdatedElt(head: int, list: seq<int>, i: int, y: int, j: int)
    requires 0 <= i < |list|
    ensures Elt(head, list[i := y], j) == if j == i then y else Elt(head, list, j)
  {
  }

  lemma SubstituteAt(t: Table, head: int, list: seq<int>, i: int, y: int, j: int)
    requires Ring(t, head, list) && 0 <= i < |list| && 0 <= y < |t| && y != head && y !in list && -1 <= j < |list|
    ensures 0 <= t[list[i]].prev < |t| && 0 <= t[list[i]].next < |t| && t[list[i]].prev != list[i]
    ensures var t', list' := Substitute(t, list[i], y), list[i := y]; var z := Elt(head, list', j);
      0 <= z < |t'| && t'[z].next == Elt(head, list', j + 1) && (j >= 0 ==> t'[z].prev == Elt(head, list', j - 1))
  {
    UnlinkReady(t, head, list, i);
    UpdatedElt(head, list, i, y, j);
    UpdatedElt(head, list, i, y, j - 1);
    UpdatedElt(head, list, i, y, j + 1);
    SubstituteCells(t, list[i], y, Elt(head, list[i := y], j));
    if j != i && j != i - 1 {
      EltsDiffer(t, head, list, j, i - 1);
    }
    if j != i && j != i + 1 && i + 1 < |list| {
      EltsDiffer(t, head, list, j, i + 1);
    }
  }

  lemma UpdatedInTable(t: Table, head: int, list: seq<int>, i: int, y: int)
    requires InTable(t, head, list) && 0 <= i < |list| && 0 <= y < |t| && y != head && y !in list
    ensures InTable(t, head, list[i := y])
  {
  }

  lemma SubstituteRing(t: Table, head: int, list: seq<int>, i: int, y: int)
    requires Ring(t, head, list) && 0 <= i < |list| && 0 <= y < |t| && y != head && y !in list
    ensures 0 <= t[list[i]].prev < |t| && 0 <= t[list[i]].next < |t| && t[list[i]].prev != list[i]
    ensures Ring(Substitute(t, list[i], y), head, list[i := y])
  {
    UnlinkReady(t, head, list, i);
    var t', list' := Substitute(t, list[i], y), list[i := y];
    UpdatedInTable(t, head, list, i, y);
    SubstituteAt(t, head, list, i, y, -1);
    forall j | 0 <= j < |list'|
      ensures t'[list'[j]].next == Elt(head, list', j + 1) && t'[list'[j]].prev == Elt(head, list', j - 1)
    {
      SubstituteAt(t, head, list, i, y, j);
    }
  }

  /* ---- all lists of a pool ---- */

  /** Where the head of list k stands. */
  function Head(n: nat, k: int): int {
    n + k
  }

  /** Pages 0..n-1, then one head per list. `at` tells the list a page is on (-1 for none), and `tags`
      the type bits in the prev words of a list's members. */
  datatype Lists = Lists(n: nat, at: seq<int>, lists: seq<seq<int>>, tags: seq<nat>)
  {
    ghost predicate Shape(t: Table) {
      && |at| == n && |tags| == |lists| && |t| == n + |lists|
      && (forall k, i :: 0 <= k < |lists| && 0 <= i < |lists[k]| ==> 0 <= lists[k][i] < n && at[lists[k][i]] == k)
      && (forall x :: 0 <= x < n ==> -1 <= at[x] < |lists| && (at[x] >= 0 ==> x in lists[at[x]]))
    }

    ghost predicate Linked(t: Table) {
      && Shape(t)
      && (forall k :: 0 <= k < |lists| ==> Ring(t, Head(n, k), lists[k]))
      && (forall x :: 0 <= x < n && at[x] >= 0 ==> t[x].tag == tags[at[x]])
    }

    lemma LinkedFrom(t: Table)
      requires Shape(t)
      requires forall k :: 0 <= k < |lists| ==> Ring(t, Head(n, k), lists[k])
      requires forall x :: 0 <= x < n && at[x] >= 0 ==> t[x].tag == tags[at[x]]
      ensures Linked(t)
    {
    }

    function Removed(x: int, i: nat): Lists
      requires 0 <= x < |at| && 0 <= at[x] < |lists| && i < |lists[at[x]]|
    {
      this.(at := at[x := -1], lists := lists[at[x] := Without(lists[at[x]], i)])
    }

    function Added(x: int, k: nat): Lists
      requires 0 <= x < |at| && k < |lists|
    {
      this.(at := at[x := k], lists := lists[k := [x] + lists[k]])
    }

    /** Elements of one list, its head included, are not in another list. */
    lemma Apart(t: Table, k: int, i: int, k': int)
      requires Shape(t) && 0 <= k < |lists| && 0 <= k' < |lists| && k != k'
      ensures var y := Elt(Head(n, k), lists[k], i); y != Head(n, k') && y !in lists[k']
    {
    }

    lemma OtherUnlink(t: Table, x: int, i: nat, k: int)
      requires Linked(t) && 0 <= x < n && at[x] >= 0 && i < |lists[at[x]]| && lists[at[x]][i] == x
      requires 0 <= k < |lists| && k != at[x]
      ensures 0 <= t[x].prev < |t| && 0 <= t[x].next < |t| && t[x].prev != x
      ensures Ring(Unlink(t, x), Head(n, k), lists[k])
    {
      UnlinkReady(t, Head(n, at[x]), lists[at[x]], i);
      Apart(t, at[x], i - 1, k);
      Apart(t, at[x], i + 1, k);
      UnlinkCells(t, x, Head(n, k));
      forall j | 0 <= j < |lists[k]|
        ensures Unlink(t, x)[lists[k][j]].next == t[lists[k][j]].next
        ensures Unlink(t, x)[lists[k][j]].prev == t[lists[k][j]].prev
      {
        UnlinkCells(t, x, lists[k][j]);
      }
      OtherRing(t, Unlink(t, x), Head(n, k), lists[k]);
    }

    lemma UnlinkTag(t: Table, x: int, i: nat, y: int)
      requires Linked(t) && 0 <= x < n && at[x] >= 0 && i < |lists[at[x]]| && lists[at[x]][i] == x
      requires 0 <= y < n && at[y] >= 0
      ensures 0 <= t[x].prev < |t| && 0 <= t[x].next < |t| && t[x].prev != x
      ensures Unlink(t, x)[y].tag == tags[at[y]]
    {
      UnlinkReady(t, Head(n, at[x]), lists[at[x]], i);
      UnlinkCells(t, x, y);
      if y == t[x].next {
        assert at[y] == at[x];
      }
    }

    lemma UnlinkShape(t: Table, x: int, i: nat)
      requires Linked(t) && 0 <= x < n && at[x] >= 0 && i < |lists[at[x]]| && lists[at[x]][i] == x
      ensures 0 <= t[x].prev < |t| && 0 <= t[x].next < |t| && t[x].prev != x
      ensures Removed(x, i).Shape(Unlink(t, x))
    {
      UnlinkReady(t, Head(n, at[x]), lists[at[x]], i);
      RemovedShape(t, Unlink(t, x), x, i);
    }

    lemma UnlinkedRing(t: Table, x: int, i: nat, k: int)
      requires Linked(t) && 0 <= x < n && at[x] >= 0 && i < |lists[at[x]]| && lists[at[x]][i] == x && 0 <= k < |lists|
      ensures 0 <= t[x].prev < |t| && 0 <= t[x].next < |t| && t[x].prev != x
      ensures Ring(Unlink(t, x), Head(n, k), Removed(x, i).lists[k])
    {
      if k == at[x] {
        UnlinkRing(t, Head(n, k), lists[k], i);
      } else {
        OtherUnlink(t, x, i, k);
      }
    }

    lemma UnlinkRings(t: Table, x: int, i: nat)
      requires Linked(t) && 0 <= x < n && at[x] >= 0 && i < |lists[at[x]]| && lists[at[x]][i] == x
      ensures 0 <= t[x].prev < |t| && 0 <= t[x].next < |t| && t[x].prev != x
      ensures forall k :: 0 <= k < |lists| ==> Ring(Unlink(t, x), Head(n, k), Removed(x, i).lists[k])
    {
      forall k | 0 <= k < |lists| ensures Ring(Unlink(t, x), Head(n, k), Removed(x, i).lists[k]) {
        UnlinkedRing(t, x, i, k);
      }
    }

    lemma LinkedShape(t: Table)
      requires Linked(t)
      ensures Shape(t)
    {
    }

    lemma UnlinkTags(t: Table, x: int, i: nat)
      requires Linked(t) && 0 <= x < n && at[x] >= 0 && i < |lists[at[x]]| && lists[at[x]][i] == x
      ensures 0 <= t[x].prev < |t| && 0 <= t[x].next < |t| && t[x].prev != x
      ensures var t', after := Unlink(t, x), Removed(x, i);
        |t'| == |t| && forall y :: 0 <= y < after.n && after.at[y] >= 0 ==> t'[y].tag == after.tags[after.at[y]]
    {
      hide Linked;
      LinkedShape(t);
      UnlinkShape(t, x, i);
      forall y | 0 <= y < n && Removed(x, i).at[y] >= 0 ensures Unlink(t, x)[y].tag == tags[at[y]] {
        UnlinkTag(t, x, i, y);
      }
    }

    lemma UnlinkKeeps(t: Table, x: int, i: nat)
      requires Linked(t) && 0 <= x < n && at[x] >= 0 && i < |lists[at[x]]| && lists[at[x]][i] == x
      ensures 0 <= t[x].prev < |t| && 0 <= t[x].next < |t| && t[x].prev != x
      ensures Removed(x, i).Linked(Unlink(t, x))
    {
      UnlinkShape(t, x, i);
      UnlinkRings(t, x, i);
      UnlinkTags(t, x, i);
      Removed(x, i).LinkedFrom(Unlink(t, x));
    }

    lemma RemovedShape(t: Table, t': Table, x: int, i: nat)
      requires Shape(t) && |t'| == |t| && 0 <= x < n && at[x] >= 0 && i < |lists[at[x]]| && lists[at[x]][i] == x
      requires forall i, j :: 0 <= i < j < |lists[at[x]]| ==> lists[at[x]][i] != lists[at[x]][j]
      ensures Removed(x, i).Shape(t')
    {
      var k0, after := at[x], Removed(x, i);
      forall y | 0 <= y < n && after.at[y] >= 0 ensures y in after.lists[after.at[y]] {
        if after.at[y] == k0 {
          var j :| 0 <= j < |lists[k0]| && lists[k0][j] == y;
          assert Without(lists[k0], i)[if j < i then j else j - 1] == y;
        }
      }
    }

    lemma OtherPush(t: Table, x: int, k: nat, j: int)
      requires Linked(t) && 0 <= x < n && at[x] == -1 && k < |lists| && 0 <= j < |lists| && j != k
      ensures 0 <= t[Head(n, k)].next < |t| && Ring(Push(t, Head(n, k), x, tags[k]), Head(n, j), lists[j])
    {
      Apart(t, k, 0, j);
      PushCells(t, Head(n, k), x, tags[k], Head(n, j));
      forall i | 0 <= i < |lists[j]|
        ensures Push(t, Head(n, k), x, tags[k])[lists[j][i]].next == t[lists[j][i]].next
        ensures Push(t, Head(n, k), x, tags[k])[lists[j][i]].prev == t[lists[j][i]].prev
      {
        PushCells(t, Head(n, k), x, tags[k], lists[j][i]);
      }
      OtherRing(t, Push(t, Head(n, k), x, tags[k]), Head(n, j), lists[j]);
    }

    lemma PushTag(t: Table, x: int, k: nat, y: int)
      requires Linked(t) && 0 <= x < n && at[x] == -1 && k < |lists| && 0 <= y < n && Added(x, k).at[y] >= 0
      ensures 0 <= t[Head(n, k)].next < |t| && Push(t, Head(n, k), x, tags[k])[y].tag == tags[Added(x, k).at[y]]
    {
      PushCells(t, Head(n, k), x, tags[k], y);
      if y == t[Head(n, k)].next {
        assert at[y] == k;
      }
    }

    lemma AddedShape(t: Table, t': Table, x: int, k: nat)
      requires Shape(t) && |t'| == |t| && 0 <= x < n && at[x] == -1 && k < |lists|
      ensures Added(x, k).Shape(t')
    {
      var after := Added(x, k);
      forall y | 0 <= y < n && after.at[y] >= 0 ensures y in after.lists[after.at[y]] {
        if after.at[y] == k && y != x {
          var j :| 0 <= j < |lists[k]| && lists[k][j] == y;
          assert after.lists[k][j + 1] == y;
        } else if y == x {
          assert after.lists[k][0] == x;
        }
      }
    }

    lemma PushKeeps(t: Table, x: int, k: nat)
      requires Linked(t) && 0 <= x < n && at[x] == -1 && k < |lists|
      ensures 0 <= t[Head(n, k)].next < |t| && Added(x, k).Linked(Push(t, Head(n, k), x, tags[k]))
    {
      PushRing(t, Head(n, k), lists[k], x, tags[k]);
      var t', after := Push(t, Head(n, k), x, tags[k]), Added(x, k);
      assert after.Shape(t') by {
        AddedShape(t, t', x, k);
      }
      forall j | 0 <= j < |lists| ensures Ring(t', Head(n, j), after.lists[j]) {
        if j != k {
          OtherPush(t, x, k, j);
        }
      }
      forall y | 0 <= y < n && after.at[y] >= 0 ensures t'[y].tag == tags[after.at[y]] {
        PushTag(t, x, k, y);
      }
    }

    function Substituted(x: int, i: nat, y: int): Lists
      requires 0 <= x < |at| && 0 <= at[x] < |lists| && i < |lists[at[x]]| && 0 <= y < |at|
    {
      this.(at := at[x := -1][y := at[x]], lists := lists[at[x] := lists[at[x]][i := y]])
    }

    ghost predicate CanSubstitute(t: Table, x: int, i: nat, y: int) {
      && Linked(t) && 0 <= x < n && at[x] >= 0 && i < |lists[at[x]]| && lists[at[x]][i] == x
      && 0 <= y < n && at[y] == -1 && tags[at[x]] == 0
    }

    lemma OtherSubstitute(t: Table, x: int, i: nat, y: int, k: int)
      requires CanSubstitute(t, x, i, y) && 0 <= k < |lists| && k != at[x]
      ensures 0 <= t[x].prev < |t| && 0 <= t[x].next < |t| && t[x].prev != x
      ensures Ring(Substitute(t, x, y), Head(n, k), lists[k])
    {
      UnlinkReady(t, Head(n, at[x]), lists[at[x]], i);
      Apart(t, at[x], i - 1, k);
      Apart(t, at[x], i + 1, k);
      SubstituteCells(t, x, y, Head(n, k));
      forall j | 0 <= j < |lists[k]|
        ensures Substitute(t, x, y)[lists[k][j]].next == t[lists[k][j]].next
        ensures Substitute(t, x, y)[lists[k][j]].prev == t[lists[k][j]].prev
      {
        SubstituteCells(t, x, y, lists[k][j]);
      }
      OtherRing(t, Substitute(t, x, y), Head(n, k), lists[k]);
    }

    lemma SubstitutedRing(t: Table, x: int, i: nat, y: int, k: int)
      requires CanSubstitute(t, x, i, y) && 0 <= k < |lists|
      ensures 0 <= t[x].prev < |t| && 0 <= t[x].next < |t| && t[x].prev != x
      ensures Ring(Substitute(t, x, y), Head(n, k), Substituted(x, i, y).lists[k])
    {
      if k == at[x] {
        SubstituteRing(t, Head(n, k), lists[k], i, y);
      } else {
        OtherSubstitute(t, x, i, y, k);
      }
    }

    lemma SubstituteTag(t: Table, x: int, i: nat, y: int, z: int)
      requires CanSubstitute(t, x, i, y) && 0 <= z < n && Substituted(x, i, y).at[z] >= 0
      ensures 0 <= t[x].prev < |t| && 0 <= t[x].next < |t| && t[x].prev != x
      ensures Substitute(t, x, y)[z].tag == tags[Substituted(x, i, y).at[z]]
    {
      UnlinkReady(t, Head(n, at[x]), lists[at[x]], i);
      SubstituteCells(t, x, y, z);
      if z == t[x].next {
        assert at[z] == at[x];
      }
    }

    lemma SubstitutedShape(t: Table, t': Table, x: int, i: nat, y: int)
      requires Shape(t) && |t'| == |t| && 0 <= x < n && at[x] >= 0 && i < |lists[at[x]]| && lists[at[x]][i] == x
      requires forall i, j :: 0 <= i < j < |lists[at[x]]| ==> lists[at[x]][i] != lists[at[x]][j]
      requires 0 <= y < n && at[y] == -1
      ensures Substituted(x, i, y).Shape(t')
    {
      var k0, after := at[x], Substituted(x, i, y);
      forall z | 0 <= z < n && after.at[z] >= 0 ensures z in after.lists[after.at[z]] {
        if z == y {
          assert after.lists[k0][i] == y;
        } else if after.at[z] == k0 {
          var j :| 0 <= j < |lists[k0]| && lists[k0][j] == z;
          assert after.lists[k0][j] == z;
        }
      }
    }

    lemma SubstituteKeeps(t: Table, x: int, i: nat, y: int)
      requires CanSubstitute(t, x, i, y)
      ensures 0 <= t[x].prev < |t| && 0 <= t[x].next < |t| && t[x].prev != x
      ensures Substituted(x, i, y).Linked(Substitute(t, x, y))
    {
      UnlinkReady(t, Head(n, at[x]), lists[at[x]], i);
      var t', after := Substitute(t, x, y), Substituted(x, i, y);
      SubstitutedShape(t, t', x, i, y);
      forall k | 0 <= k < |lists| ensures Ring(t', Head(n, k), after.lists[k]) {
        SubstitutedRing(t, x, i, y, k);
      }
      forall z | 0 <= z < n && after.at[z] >= 0 ensures t'[z].tag == tags[after.at[z]] {
        SubstituteTag(t, x, i, y, z);
      }
      after.LinkedFrom(t');
    }

    lemma NoneOn(t: Table, k: nat, x: int)
      requires Linked(t) && k < |lists| && lists[k] == [] && 0 <= x < n
      ensures |at| == n && at[x] != k
    {
    }

    /** A page that is on no list may change in any way, and any page may change its slab word. */
    lemma OffList(t: Table, x: int, d: Desc)
      requires Linked(t) && 0 <= x < n
      requires at[x] == -1 || (d.next == t[x].next && d.prev == t[x].prev && d.tag == t[x].tag)
      ensures Linked(t[x := d])
    {
      var t' := t[x := d];
      forall k | 0 <= k < |lists| ensures Ring(t', Head(n, k), lists[k]) {
        assert Head(n, k) != x;
        OtherRing(t, t', Head(n, k), lists[k]);
      }
    }

    /** What unlinking a page does to the other pages. */
    lemma UnlinkOthers(t: Table, x: int, i: nat, y: int)
      requires Linked(t) && 0 <= x < n && at[x] >= 0 && i < |lists[at[x]]| && lists[at[x]][i] == x
      requires 0 <= y < n && y != x
      ensures 0 <= t[x].prev < |t| && 0 <= t[x].next < |t| && t[x].prev != x && |Unlink(t, x)| == |t|
      ensures at[y] == -1 ==> Unlink(t, x)[y] == t[y]
      ensures Unlink(t, x)[y].slab == t[y].slab && Unlink(t, x)[y].tag == t[y].tag
      ensures (Unlink(t, x)[y].next == NULL) == (t[y].next == NULL)
    {
      UnlinkReady(t, Head(n, at[x]), lists[at[x]], i);
      UnlinkCells(t, x, y);
      if at[y] >= 0 {
        UnlinkTag(t, x, i, y);
      }
    }

    /** The links of a page on a list are links. */
    lemma ListedLinks(t: Table, x: int)
      requires Linked(t) && 0 <= x < n && at[x] >= 0
      ensures 0 <= t[x].next < |t| && 0 <= t[x].prev < |t|
    {
      var i :| 0 <= i < |lists[at[x]]| && lists[at[x]][i] == x;
      UnlinkReady(t, Head(n, at[x]), lists[at[x]], i);
    }

    /** What pushing a page does to the other pages. */
    lemma PushOthers(t: Table, x: int, k: nat, y: int)
      requires Linked(t) && 0 <= x < n && at[x] == -1 && k < |lists| && 0 <= y < n && y != x
      ensures 0 <= t[Head(n, k)].next < |t| && |Push(t, Head(n, k), x, tags[k])| == |t|
      ensures at[y] == -1 ==> Push(t, Head(n, k), x, tags[k])[y] == t[y]
      ensures Push(t, Head(n, k), x, tags[k])[y].slab == t[y].slab && Push(t, Head(n, k), x, tags[k])[y].tag == t[y].tag
      ensures (Push(t, Head(n, k), x, tags[k])[y].next == NULL) == (t[y].next == NULL)
    {
      PushCells(t, Head(n, k), x, tags[k], y);
      if y == t[Head(n, k)].next {
        assert at[y] == k;
      }
    }

    /** What a substitution does to the other pages. */
    lemma SubstituteOthers(t: Table, x: int, i: nat, y: int, z: int)
      requires CanSubstitute(t, x, i, y) && 0 <= z < n && z != y
      ensures 0 <= t[x].prev < |t| && 0 <= t[x].next < |t| && t[x].prev != x && |Substitute(t, x, y)| == |t|
      ensures at[z] == -1 ==> Substitute(t, x, y)[z] == t[z]
      ensures Substitute(t, x, y)[z].slab == t[z].slab && Substitute(t, x, y)[z].tag == t[z].tag
      ensures (Substitute(t, x, y)[z].next == NULL) == (t[z].next == NULL)
      ensures Substitute(t, x, y)[y].slab == t[y].slab && Substitute(t, x, y)[y].tag == t[x].tag
    {
      UnlinkReady(t, Head(n, at[x]), lists[at[x]], i);
      SubstituteCells(t, x, y, z);
      SubstituteCells(t, x, y, y);
      if z == t[x].next {
        assert at[z] == at[x];
      }
    }
  }
}
