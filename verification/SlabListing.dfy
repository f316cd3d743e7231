/** Pages of chunks move on and off the lists of their size. */
module SlabListing {
  import opened SlabLists
  import opened SlabPages

  /** Between two calls no run is in transit. */
  ghost predicate Settled(p: Pages) {
    p.Valid() && p.NoneLoose()
  }

  /** page->slab = slab */
  ghost function Reslabbed(p: Pages, x: int, slab: nat): Pages
    requires 0 <= x < |p.t|
  {
    p.(t := p.t[x := p.t[x].(slab := slab)])
  }

  lemma ReslabKeeps(p: Pages, x: int, slab: nat)
    requires Settled(p) && 0 <= x < p.l.n && p.own[x].Chunks?
    ensures |p.t| > x && Settled(Reslabbed(p, x, slab)) && p.KeptOutside(Reslabbed(p, x, slab), x, x + 1)
  {
    hide Lists.Linked;
    p.LinkedSize();
    var after := Reslabbed(p, x, slab);
    p.l.OffList(p.t, x, after.t[x]);
    forall y | 0 <= y < p.l.n ensures after.Cell(y) {
      assert p.Cell(y);
    }
    forall y | 0 <= y < p.l.n ensures after.InRun(y) {
      assert p.InRun(y);
    }
    forall y | 0 <= y < p.l.n - 1 ensures after.Merged(y) {
      assert p.Merged(y);
    }
  }

  /** The first page of a list of chunk pages. */
  ghost predicate FirstOf(p: Pages, x: int, k: nat) {
    && 0 <= x < p.l.n && k < p.FreeList() && |p.l.at| == p.l.n && |p.t| >= p.l.n && p.l.at[x] == k
    && |p.l.lists[k]| > 0 && p.l.lists[k][0] == x && 0 <= p.t[x].prev < |p.t| && 0 <= p.t[x].next < |p.t|
    && p.t[x].prev != x
  }

  /** The first page of a list leaves it: page->next = NULL and the prev word keeps the type only. */
  ghost function Unlisted(p: Pages, x: int, k: nat): Pages
    requires FirstOf(p, x, k)
  {
    var t1 := Unlink(p.t, x);
    p.(t := t1[x := t1[x].(next := NULL, prev := NULL)], l := p.l.Removed(x, 0))
  }

  /** What a move between lists must leave as it was. */
  ghost predicate Relinked(p: Pages, after: Pages, x: int) {
    && p.SameSize(after) && 0 <= x < p.l.n && after.own == p.own
    && (forall y {:trigger after.t[y]} :: 0 <= y < p.l.n && y != x ==>
          && after.t[y].slab == p.t[y].slab && after.t[y].tag == p.t[y].tag && after.l.at[y] == p.l.at[y]
          && (after.t[y].next == NULL) == (p.t[y].next == NULL) && (p.l.at[y] == -1 ==> after.t[y] == p.t[y]))
    && after.t[x].slab == p.t[x].slab && p.own[x].Chunks? && after.l.at[x] != p.FreeList() && after.t[x].tag != PAGE
  }

  lemma RelinkedKeeps(p: Pages, after: Pages, x: int)
    requires Settled(p) && Relinked(p, after, x) && after.l.Linked(after.t)
    ensures Settled(after) && p.KeptOutside(after, x, x + 1)
  {
    hide Lists.Linked;
    forall y | 0 <= y < p.l.n ensures after.Cell(y) {
      assert p.Cell(y);
      if y != x {
        var d := after.t[y];
        p.CellKept(after, y);
      }
    }
    forall y | 0 <= y < p.l.n ensures after.InRun(y) {
      assert p.InRun(y);
    }
    forall y | 0 <= y < p.l.n - 1 ensures after.Merged(y) {
      assert p.Merged(y);
    }
  }

  lemma FirstReady(p: Pages, x: int, k: nat)
    requires p.Valid() && k < p.FreeList() && |p.l.lists[k]| > 0 && x == p.l.lists[k][0]
    ensures FirstOf(p, x, k)
  {
    hide Lists.Linked;
    p.LinkedSize();
    ListMember(p, k, 0);
    p.l.UnlinkKeeps(p.t, x, 0);
  }

  lemma ListMember(p: Pages, k: nat, i: nat)
    requires p.Valid() && k < |p.l.lists| && i < |p.l.lists[k]|
    ensures var x := p.l.lists[k][i]; 0 <= x < p.l.n && p.l.at[x] == k
  {
  }

  lemma UnlistKeeps(p: Pages, x: int, k: nat)
    requires Settled(p) && FirstOf(p, x, k) && p.own[x].Chunks?
    ensures var after := Unlisted(p, x, k);
      && Settled(after) && p.KeptOutside(after, x, x + 1) && after.own == p.own
      && after.t[x] == Desc(p.t[x].slab, NULL, NULL, p.t[x].tag) && after.l.at[x] == -1
  {
    hide Lists.Linked;
    p.LinkedSize();
    var after, t1 := Unlisted(p, x, k), Unlink(p.t, x);
    p.l.UnlinkKeeps(p.t, x, 0);
    UnlinkCells(p.t, x, x);
    p.l.Removed(x, 0).OffList(t1, x, after.t[x]);
    assert p.Cell(x);
    ListNotSelf(p, x, k);
    forall y | 0 <= y < p.l.n && y != x
      ensures
        && after.t[y].slab == p.t[y].slab && after.t[y].tag == p.t[y].tag && after.l.at[y] == p.l.at[y]
        && (after.t[y].next == NULL) == (p.t[y].next == NULL) && (p.l.at[y] == -1 ==> after.t[y] == p.t[y])
    {
      p.l.UnlinkOthers(p.t, x, 0, y);
    }
    RelinkedKeeps(p, after, x);
  }

  lemma ListNotSelf(p: Pages, x: int, k: nat)
    requires p.Valid() && FirstOf(p, x, k)
    ensures p.t[x].next != x
  {
    UnlinkReady(p.t, Head(p.l.n, k), p.l.lists[k], 0);
  }

  /** A page that is on no list becomes the first of list k. */
  ghost predicate CanRelist(p: Pages, x: int, k: nat) {
    && 0 <= x < p.l.n && k < p.FreeList() && |p.l.tags| == |p.l.lists| && |p.l.at| == p.l.n && p.l.at[x] == -1
    && 0 <= Head(p.l.n, k) < |p.t| && 0 <= p.t[Head(p.l.n, k)].next < |p.t| && x < |p.t| && p.l.tags[k] != PAGE
  }

  ghost function Relisted(p: Pages, x: int, k: nat): Pages
    requires CanRelist(p, x, k)
  {
    p.(t := Push(p.t, Head(p.l.n, k), x, p.l.tags[k]), l := p.l.Added(x, k))
  }

  lemma HeadRange(p: Pages, k: nat)
    requires p.Valid() && k < |p.l.lists|
    ensures p.l.n <= Head(p.l.n, k) < |p.t| && 0 <= p.t[Head(p.l.n, k)].next < |p.t|
    ensures p.t[Head(p.l.n, k)].next == Elt(Head(p.l.n, k), p.l.lists[k], 0)
  {
    assert Ring(p.t, Head(p.l.n, k), p.l.lists[k]);
  }

  /** page->next != page holds for the page behind a slot exactly when the slot's list is not empty. */
  lemma SlotTest(p: Pages, k: nat)
    requires p.Valid() && k < |p.l.lists|
    ensures p.l.n <= Head(p.l.n, k) < |p.t| && 0 <= p.t[Head(p.l.n, k)].next < |p.t|
    ensures var x := p.t[Head(p.l.n, k)].next;
      if p.l.lists[k] == [] then p.t[x].next == x else x == p.l.lists[k][0] && p.t[x].next != x
  {
    HeadRange(p, k);
    assert Ring(p.t, Head(p.l.n, k), p.l.lists[k]);
    if p.l.lists[k] != [] {
      UnlinkReady(p.t, Head(p.l.n, k), p.l.lists[k], 0);
    }
  }

  lemma RelistKeeps(p: Pages, x: int, k: nat)
    requires Settled(p) && CanRelist(p, x, k) && p.own[x].Chunks?
    ensures var after := Relisted(p, x, k);
      && Settled(after) && p.KeptOutside(after, x, x + 1) && after.own == p.own
      && after.t[x].slab == p.t[x].slab && after.t[x].tag == p.l.tags[k] && after.t[x].next != NULL
      && after.l.at[x] == k
  {
    hide Lists.Linked;
    p.LinkedSize();
    var after := Relisted(p, x, k);
    p.l.PushKeeps(p.t, x, k);
    HeadRange(p, k);
    PushCell(p, x, k);
    forall y | 0 <= y < p.l.n && y != x
      ensures
        && after.t[y].slab == p.t[y].slab && after.t[y].tag == p.t[y].tag && after.l.at[y] == p.l.at[y]
        && (after.t[y].next == NULL) == (p.t[y].next == NULL) && (p.l.at[y] == -1 ==> after.t[y] == p.t[y])
    {
      p.l.PushOthers(p.t, x, k, y);
    }
    RelinkedKeeps(p, after, x);
  }

  lemma PushCell(p: Pages, x: int, k: nat)
    requires p.Valid() && CanRelist(p, x, k)
    ensures var d := Push(p.t, Head(p.l.n, k), x, p.l.tags[k])[x];
      d.slab == p.t[x].slab && d.tag == p.l.tags[k] && d.next == p.t[Head(p.l.n, k)].next
  {
    assert Ring(p.t, Head(p.l.n, k), p.l.lists[k]);
    PushCells(p.t, Head(p.l.n, k), x, p.l.tags[k], x);
  }

  /* ---- an allocated page becomes a page of chunks, alone on its list ---- */

  /** page->slab = slab; page->next = head; page->prev = head | type; head->next = page; */
  ghost function Converted(p: Pages, x: int, k: nat, slab: nat, shift: nat): Pages
    requires CanRelist(p, x, k) && x < |p.own|
  {
    var h := Head(p.l.n, k);
    var t1 := p.t[x := Desc(slab, h, h, p.l.tags[k])];
    Pages(WithNext(t1, h, x), p.l.Added(x, k), p.own[x := Chunks(shift)])
  }

  /** The prev word of a head is not used. */
  lemma HeadPrev(l: Lists, t: Table, k: nat, d: Desc)
    requires l.Linked(t) && k < |l.lists| && 0 <= Head(l.n, k) < |t| && d.next == t[Head(l.n, k)].next
    ensures l.Linked(t[Head(l.n, k) := d])
  {
    var t' := t[Head(l.n, k) := d];
    forall j | 0 <= j < |l.lists| ensures Ring(t', Head(l.n, j), l.lists[j]) {
      OtherRing(t, t', Head(l.n, j), l.lists[j]);
    }
    l.LinkedFrom(t');
  }

  lemma ConvertLinked(p: Pages, x: int, k: nat, slab: nat, shift: nat)
    requires p.Valid() && CanRelist(p, x, k) && p.l.lists[k] == []
    ensures Converted(p, x, k, slab, shift).l.Linked(Converted(p, x, k, slab, shift).t)
  {
    hide Lists.Linked;
    p.LinkedSize();
    HeadRange(p, k);
    var h, tag := Head(p.l.n, k), p.l.tags[k];
    var t0 := p.t[x := p.t[x].(slab := slab)];
    p.l.OffList(p.t, x, t0[x]);
    p.l.PushKeeps(t0, x, k);
    PushCells(t0, h, x, tag, h);
    var pushed := Push(t0, h, x, tag);
    HeadPrev(p.l.Added(x, k), pushed, k, Desc(p.t[h].slab, x, p.t[h].prev, p.t[h].tag));
    assert Converted(p, x, k, slab, shift).t == pushed[h := Desc(p.t[h].slab, x, p.t[h].prev, p.t[h].tag)];
  }

  lemma ConvertKeeps(p: Pages, x: int, k: nat, slab: nat, shift: nat)
    requires Settled(p) && CanRelist(p, x, k) && p.own[x] == Allocated(x, 1) && p.l.lists[k] == []
    ensures var after := Converted(p, x, k, slab, shift);
      && Settled(after) && p.KeptOutside(after, x, x + 1) && after.own[x] == Chunks(shift)
      && after.t[x].slab == slab && after.t[x].tag == p.l.tags[k] && after.t[x].next != NULL && after.l.at[x] == k
  {
    hide Lists.Linked;
    p.LinkedSize();
    HeadRange(p, k);
    ConvertLinked(p, x, k, slab, shift);
    var after := Converted(p, x, k, slab, shift);
    assert p.InRun(x);
    forall y | 0 <= y < p.l.n ensures after.Cell(y) {
      assert p.Cell(y);
    }
    forall y | 0 <= y < p.l.n ensures after.InRun(y) {
      assert p.InRun(y);
    }
    forall y | 0 <= y < p.l.n - 1 ensures after.Merged(y) {
      assert p.Merged(y);
    }
  }
}
