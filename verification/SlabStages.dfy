/** ngx_slab_free_pages as a sequence of stages, each of which keeps the page table valid. */
module SlabStages {
  import opened SlabLists
  import opened SlabPages
  import opened SlabListing

  /** A block of pages, or a page of chunks that is on a list. */
  ghost predicate Freeable(p: Pages, x: int, m: nat) {
    && |p.own| == p.l.n == |p.l.at| && 0 < m && 0 <= x < x + m <= p.l.n
    && if p.own[x].Chunks? then m == 1 && 0 <= p.l.at[x] < p.FreeList() else p.own[x] == Allocated(x, m)
  }

  /** Pages x..x+m-1 are not in use any more; nothing else changed for the pages in use. */
  ghost predicate Freed(p: Pages, after: Pages, x: int, m: nat) {
    && Settled(after) && p.KeptOutside(after, x, x + m) && 0 <= x <= x + m <= p.l.n
    && forall y {:trigger after.InUse(y)} :: x <= y < x + m ==> !after.InUse(y)
  }

  /** Between the stages: x0..x0+m0-1 are being freed and are part of the loose run x..x+m-1. */
  ghost predicate Running(p0: Pages, p: Pages, x0: int, m0: nat, x: int, m: nat) {
    && p.Valid() && p.OneLoose(x, m) && p0.KeptOutside(p, x0, x0 + m0) && 0 <= x0 <= x0 + m0 <= p.l.n
    && forall y {:trigger p.InUse(y)} :: x0 <= y < x0 + m0 ==> !p.InUse(y)
  }

  ghost predicate RightDone(p: Pages, x: int, m: nat) {
    |p.own| == p.l.n && (0 <= x + m < p.l.n ==> !p.own[x + m].FreeRun?)
  }

  ghost predicate LeftDone(p: Pages, x: int) {
    |p.own| == p.l.n && (0 < x <= p.l.n ==> !p.own[x - 1].FreeRun?)
  }

  lemma DetachStage(p: Pages, x: int, m: nat) returns (i: nat)
    requires Settled(p) && Freeable(p, x, m)
    ensures p.CanDetach(x, m, i) && Running(p, p.Detach(x, m, i), x, m, x, m)
  {
    hide Lists.Linked;
    p.LinkedSize();
    assert p.InRun(x) && p.Cell(x);
    i := 0;
    if p.own[x].Chunks? {
      i := ListedAt(p, x);
      p.l.UnlinkKeeps(p.t, x, i);
    }
    p.DetachKeeps(x, m, i);
    p.DetachOutside(x, m, i);
  }

  lemma ListedAt(p: Pages, x: int) returns (i: nat)
    requires p.Valid() && 0 <= x < p.l.n && 0 <= p.l.at[x] < |p.l.lists|
    ensures i < |p.l.lists[p.l.at[x]]| && p.l.lists[p.l.at[x]][i] == x
  {
    assert x in p.l.lists[p.l.at[x]];
    i :| i < |p.l.lists[p.l.at[x]]| && p.l.lists[p.l.at[x]][i] == x;
  }

  /** What was said of the pages in use holds after a stage that keeps them all. */
  lemma StillRunning(p0: Pages, p: Pages, q: Pages, x0: int, m0: nat, x: int, m: nat)
    requires p0.KeptOutside(p, x0, x0 + m0) && p.KeptOutside(q, x, x) && 0 <= x0 <= x0 + m0 <= p.l.n
    requires forall y {:trigger p.InUse(y)} :: x0 <= y < x0 + m0 ==> !p.InUse(y)
    ensures p0.KeptOutside(q, x0, x0 + m0)
    ensures forall y {:trigger q.InUse(y)} :: x0 <= y < x0 + m0 ==> !q.InUse(y)
  {
    forall y | 0 <= y < p0.l.n && !(x0 <= y < x0 + m0) ensures p0.Kept(q, y) {
      assert p0.Kept(p, y) && p.Kept(q, y);
    }
    forall y | x0 <= y < x0 + m0 ensures !q.InUse(y) {
      assert p.Kept(q, y) && !p.InUse(y);
    }
  }

  lemma RightStage(p0: Pages, p: Pages, x0: int, m0: nat, x: int, m: nat) returns (i: nat)
    requires Running(p0, p, x0, m0, x, m) && x + m < p.l.n && p.own[x + m].FreeRun?
    ensures p.CanJoinRight(x, m, i)
    ensures Running(p0, p.JoinRight(x, m, i), x0, m0, x, m + p.own[x + m].len)
    ensures RightDone(p.JoinRight(x, m, i), x, m + p.own[x + m].len)
  {
    hide Lists.Linked;
    p.LinkedSize();
    p.RightTest(x, m);
    i := ListedAt(p, x + m);
    p.JoinRightKeeps(x, m, i);
    assert p.InRun(x) && p.InRun(x + m);
    p.JoinRightOutside(x, m, i);
    StillRunning(p0, p, p.JoinRight(x, m, i), x0, m0, x, m);
    var hi := x + m + p.own[x + m].len;
    if hi < p.l.n {
      assert p.Merged(hi - 1) && p.InRun(hi) && p.own[hi - 1] == p.own[x + m];
    }
  }

  lemma LeftStage(p0: Pages, p: Pages, x0: int, m0: nat, x: int, m: nat) returns (i: nat)
    requires Running(p0, p, x0, m0, x, m) && 0 < x && p.own[x - 1].FreeRun? && RightDone(p, x, m)
    ensures p.CanJoinLeft(x, m, i)
    ensures var h, q := p.own[x - 1].head, p.JoinLeft(x, m, i);
      Running(p0, q, x0, m0, h, x + m - h) && RightDone(q, h, x + m - h) && LeftDone(q, h)
  {
    hide Lists.Linked;
    p.LinkedSize();
    p.LeftTest(x, m);
    var h := p.own[x - 1].head;
    assert p.InRun(x - 1) && p.InRun(x);
    i := ListedAt(p, h);
    p.JoinLeftKeeps(x, m, i);
    assert p.InRun(h);
    p.JoinLeftOutside(x, m, i);
    StillRunning(p0, p, p.JoinLeft(x, m, i), x0, m0, x, m);
    if h > 0 {
      assert p.Merged(h - 1) && p.InRun(h - 1);
    }
  }

  lemma FinishStage(p0: Pages, p: Pages, x0: int, m0: nat, x: int, m: nat)
    requires Running(p0, p, x0, m0, x, m) && RightDone(p, x, m) && LeftDone(p, x)
    ensures p.CanFinish(x, m) && Freed(p0, p.Finish(x, m), x0, m0)
  {
    hide Lists.Linked;
    p.LinkedSize();
    p.FinishReady(x, m);
    p.FinishKeeps(x, m);
    assert p.InRun(x);
    p.FinishOutside(x, m);
    StillRunning(p0, p, p.Finish(x, m), x0, m0, x, m);
  }

  /** The head of a loose run gives its length. */
  lemma LooseSize(p: Pages, x: int, m: nat)
    requires p.Valid() && p.OneLoose(x, m)
    ensures |p.t| == p.l.n + |p.l.lists| && p.t[x].slab == m && x + m <= p.l.n
  {
    hide Lists.Linked;
    p.LinkedSize();
    assert p.Cell(x) && p.InRun(x);
  }

  /** The pages that become free are the pages of the block. */
  lemma FreedSet(p: Pages, after: Pages, x: int, m: nat)
    requires Freed(p, after, x, m) && forall y {:trigger p.InUse(y)} :: x <= y < x + m ==> p.InUse(y)
    ensures after.FreeSet() == p.FreeSet() + Interval(x, m) && p.FreeSet() !! Interval(x, m)
  {
    forall y | 0 <= y < p.l.n && !(x <= y < x + m) ensures p.InUse(y) <==> after.InUse(y) {
      assert p.Kept(after, y);
    }
  }

  /* ---- ngx_slab_alloc_pages ---- */

  /** Run i of the free list is the first that is long enough. */
  ghost predicate FirstFit(p: Pages, x: int, m: nat, i: nat) {
    && |p.l.lists| > 0 && i < |p.FreeRuns()| && p.FreeRuns()[i] == x && 0 <= x < p.l.n == |p.own|
    && p.own[x].FreeRun? && p.own[x].head == x && 0 < m <= p.own[x].len && TooShort(p, m, i)
  }

  /** The first k runs of the free list are shorter than m pages. */
  ghost predicate TooShort(p: Pages, m: nat, k: nat) {
    |p.l.lists| > 0 && forall j {:trigger p.FreeRuns()[j]} :: 0 <= j < k && j < |p.FreeRuns()| ==>
      0 <= p.FreeRuns()[j] < |p.own| && p.own[p.FreeRuns()[j]].FreeRun? && p.own[p.FreeRuns()[j]].len < m
  }

  ghost predicate NoRun(p: Pages, m: nat) {
    forall y {:trigger p.own[y]} :: 0 <= y < |p.own| && p.own[y].FreeRun? ==> p.own[y].len < m
  }

  lemma NothingFits(p: Pages, m: nat)
    requires Settled(p) && TooShort(p, m, |p.FreeRuns()|)
    ensures NoRun(p, m)
  {
    hide Lists.Linked;
    p.LinkedSize();
    forall y | 0 <= y < |p.own| && p.own[y].FreeRun? ensures p.own[y].len < m {
      assert p.InRun(y);
      var h := p.own[y].head;
      assert p.own[h] == p.own[y];
      assert p.Cell(h);
      p.HeadListed(h);
      var i :| 0 <= i < |p.FreeRuns()| && p.FreeRuns()[i] == h;
    }
  }

  /** Where the walk along the free list stands. */
  lemma Walk(p: Pages, i: nat)
    requires Settled(p) && i <= |p.FreeRuns()|
    ensures |p.l.lists| > 0 && |p.own| == p.l.n && |p.t| == p.l.n + |p.l.lists| && p.FreeHead() == |p.t| - 1
    ensures p.t[p.FreeHead()].next == Elt(p.FreeHead(), p.FreeRuns(), 0)
    ensures i < |p.FreeRuns()| ==>
      && var x := p.FreeRuns()[i];
      && 0 <= x < p.l.n && x != p.FreeHead() && p.t[x].next == Elt(p.FreeHead(), p.FreeRuns(), i + 1)
      && p.own[x].FreeRun? && p.own[x].head == x && p.t[x].slab == p.own[x].len
  {
    assert Ring(p.t, p.FreeHead(), p.FreeRuns());
    if i < |p.FreeRuns()| {
      p.FreeListed(i);
    }
  }

  /** The neighbours of a listed run are heads of other lists or runs. */
  lemma Neighbours(p: Pages, x: int, i: nat, y: int)
    requires Settled(p) && i < |p.FreeRuns()| && p.FreeRuns()[i] == x && 0 <= x < p.l.n && 0 <= y < p.l.n
    requires p.l.at[y] != p.FreeList()
    ensures |p.t| > x && p.t[x].prev != y && p.t[x].next != y
  {
    UnlinkReady(p.t, p.FreeHead(), p.FreeRuns(), i);
  }

  lemma TakeLinks(p: Pages, x: int, m: nat, i: nat)
    requires Settled(p) && FirstFit(p, x, m, i)
    ensures p.CanTake(x, m, i) && Settled(p.Take(x, m, i)) && p.KeptOutside(p.Take(x, m, i), x, x + m)
    ensures p.t[x].slab == p.own[x].len && p.t[x].next != x
    ensures m < p.own[x].len ==> p.t[x].prev != x + m && p.t[x].next != x + m
    ensures forall y :: x <= y < x + m ==> p.Take(x, m, i).own[y] == Allocated(x, m) && !p.InUse(y)
  {
    hide Lists.Shape;
    hide Pages.Merged;
    hide Pages.TakenTable;
    hide Lists.Linked;
    p.LinkedSize();
    p.TakeKeeps(x, m, i);
    assert p.Cell(x) && p.InRun(x);
    p.TakeOutside(x, m, i);
    if m < p.own[x].len {
      assert p.own[x + m] == p.own[x] && p.Cell(x + m);
      Neighbours(p, x, i, x + m);
    }
    NextIsOther(p, x, i);
  }

  lemma NextIsOther(p: Pages, x: int, i: nat)
    requires Settled(p) && i < |p.FreeRuns()| && p.FreeRuns()[i] == x && 0 <= x < p.l.n
    ensures |p.t| > x && p.t[x].next != x
  {
    UnlinkReady(p.t, p.FreeHead(), p.FreeRuns(), i);
  }

  lemma FewerFree(p: Pages, after: Pages, x: int, m: nat)
    requires p.KeptOutside(after, x, x + m) && 0 <= x <= x + m <= p.l.n
    requires forall y {:trigger after.InUse(y)} :: x <= y < x + m ==> !p.InUse(y) && after.InUse(y)
    ensures |after.FreeSet()| == |p.FreeSet()| - m
  {
    var taken := Interval(x, m);
    forall y | 0 <= y < p.l.n ensures y in p.FreeSet() <==> y in after.FreeSet() || y in taken {
      if !(x <= y < x + m) {
        assert p.Kept(after, y);
      } else {
        assert after.InUse(y);
      }
    }
    assert after.FreeSet() !! taken;
    assert p.FreeSet() == after.FreeSet() + taken;
    DisjointSize(after.FreeSet(), taken);
  }

  lemma MoreFree(p: Pages, after: Pages, x: int, m: nat)
    requires Freed(p, after, x, m) && forall y {:trigger p.InUse(y)} :: x <= y < x + m ==> p.InUse(y)
    ensures |after.FreeSet()| == |p.FreeSet()| + m
  {
    FreedSet(p, after, x, m);
    DisjointSize(p.FreeSet(), Interval(x, m));
  }
}
