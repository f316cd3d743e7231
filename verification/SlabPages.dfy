/** Runs of pages: ngx_slab_alloc_pages and ngx_slab_free_pages as functions on the descriptor table. */
module SlabPages {
  import opened SlabLists

  const PAGE_FREE: nat := 0
  const PAGE_BUSY: nat := 0xffff_ffff_ffff_ffff
  const PAGE_START: nat := 0x8000_0000_0000_0000

  /** What a page is part of: a run given by its first page and length, or a page of chunks. */
  datatype Own =
    | FreeRun(head: nat, len: nat)
    | Allocated(head: nat, len: nat)
    | Chunks(shift: nat)
    | Loose(head: nat, len: nat)
  {
    predicate Run() { !Chunks? }
  }

  function Interval(lo: int, n: nat): (s: set<int>)
    ensures forall y :: y in s <==> lo <= y < lo + n
    ensures |s| == n
  {
    if n == 0 then {} else Interval(lo, n - 1) + {lo + n - 1}
  }

  ghost predicate ListInTable(t: Table, list: seq<int>) {
    forall i :: 0 <= i < |list| ==> 0 <= list[i] < |t|
  }

  /** Page y belongs to the run whose head is element i. */
  ghost predicate InListed(t: Table, list: seq<int>, i: int, y: int)
    requires ListInTable(t, list) && 0 <= i < |list|
  {
    list[i] <= y < list[i] + t[list[i]].slab
  }

  /** Total length of the listed runs. */
  ghost function Total(t: Table, list: seq<int>): nat
    requires ListInTable(t, list)
  {
    if list == [] then 0 else
      var k := |list| - 1;
      assert ListInTable(t, list[..k]);
      Total(t, list[..k]) + t[list[k]].slab
  }

  ghost function Covered(t: Table, list: seq<int>): set<int>
    requires ListInTable(t, list)
  {
    if list == [] then {} else
      var k := |list| - 1;
      assert ListInTable(t, list[..k]);
      Covered(t, list[..k]) + Interval(list[k], t[list[k]].slab)
  }

  lemma {:induction false} CoveredMembers(t: Table, list: seq<int>, y: int)
    requires ListInTable(t, list)
    ensures y in Covered(t, list) <==>
        exists i {:trigger InListed(t, list, i, y)} :: 0 <= i < |list| && InListed(t, list, i, y)
  {
    if list != [] {
      var k := |list| - 1;
      CoveredMembers(t, list[..k], y);
      if i :| 0 <= i < k && InListed(t, list[..k], i, y) {
        assert InListed(t, list, i, y);
      }
      if i :| 0 <= i < |list| && InListed(t, list, i, y) {
        assert i < k ==>
          && InListed(t, list[..k], i, y);
      }
      assert InListed(t, list, k, y) <==> y in Interval(list[k], t[list[k]].slab);
    }
  }

  lemma DisjointSize(s: set<int>, r: set<int>)
    requires s !! r
    ensures |s + r| == |s| + |r|
  {
  }

  lemma {:induction false} CoveredSize(t: Table, list: seq<int>)
    requires ListInTable(t, list)
    requires forall i, j, y :: 0 <= i < j < |list| ==> !(InListed(t, list, i, y) && InListed(t, list, j, y))
    ensures |Covered(t, list)| == Total(t, list)
  {
    if list != [] {
      var k := |list| - 1;
      var front := list[..k];
      forall i, j, y | 0 <= i < j < |front| ensures !(InListed(t, front, i, y) && InListed(t, front, j, y)) {
        var a, b := InListed(t, list, i, y), InListed(t, list, j, y);
      }
      CoveredSize(t, front);
      forall y | y in Covered(t, front) ensures y !in Interval(list[k], t[list[k]].slab) {
        CoveredMembers(t, front, y);
        var i :| 0 <= i < k && InListed(t, front, i, y);
        var a, b := InListed(t, list, i, y), InListed(t, list, k, y);
      }
      DisjointSize(Covered(t, front), Interval(list[k], t[list[k]].slab));
    }
  }

  datatype Pages = Pages(t: Table, l: Lists, own: seq<Own>) {

    /** The number of the list of free runs; the lists before it belong to the chunk sizes. */
    function FreeList(): int { |l.lists| - 1 }

    function FreeHead(): int { Head(l.n, FreeList()) }

    /** Every page of a run belongs to the run. */
    ghost predicate InRun(i: int)
      requires |own| == l.n && 0 <= i < l.n
    {
      own[i].Run() ==>
        && own[i].head <= i < own[i].head + own[i].len <= l.n
        && forall j :: own[i].head <= j < own[i].head + own[i].len ==> own[j] == own[i]
    }

    /** Two neighbouring free pages are of one run. */
    ghost predicate Merged(i: int)
      requires |own| == l.n && 0 <= i < l.n - 1
    {
      own[i].FreeRun? && own[i + 1].FreeRun? ==> own[i] == own[i + 1]
    }

    /** The descriptor of a page says what the page is. */
    ghost predicate Cell(i: int)
      requires |own| == l.n && |l.at| == l.n <= |t| && 0 <= i < l.n
    {
      match own[i]
      case FreeRun(head, len) =>
        && t[i].tag == PAGE
        && (i == head ==> t[i].slab == len && l.at[i] == FreeList())
        && (i > head ==> t[i].slab == PAGE_FREE && t[i].next == NULL && l.at[i] == -1)
        && (head < i == head + len - 1 < l.n - 1 ==> t[i].prev == head)
      case Allocated(head, len) =>
        && t[i].tag == PAGE && t[i].next == NULL && l.at[i] == -1
        && t[i].slab == if i == head then len + PAGE_START else PAGE_BUSY
      case Chunks(_) => t[i].tag != PAGE && l.at[i] != FreeList()
      case Loose(head, len) =>
        && l.at[i] == -1
        && (i == head ==> t[i].slab == len)
        && (i > head ==> t[i].tag == PAGE && t[i].slab == PAGE_FREE && t[i].next == NULL)
    }

    ghost predicate Valid() {
      && |l.lists| > 0 && |l.tags| == |l.lists| && l.tags[FreeList()] == PAGE && |own| == l.n < PAGE_START / 2
      && l.Linked(t)
      && (forall i {:trigger InRun(i)} :: 0 <= i < l.n ==> InRun(i))
      && (forall i {:trigger Cell(i)} :: 0 <= i < l.n ==> Cell(i))
      && (forall i {:trigger Merged(i)} :: 0 <= i < l.n - 1 ==> Merged(i))
    }

    /** Pages lo..hi-1 are whole runs. */
    ghost predicate WholeRuns(lo: int, hi: int)
      requires |own| == l.n
    {
      && 0 <= lo <= hi <= l.n
      && forall i {:trigger own[i]} :: lo <= i < hi && own[i].Run() ==>
         lo <= own[i].head && own[i].head + own[i].len <= hi
    }

    /** Runs outside a range of whole runs are not touched when only the range changes hands. */
    lemma RunsOutside(after: Pages, lo: int, hi: int, i: int)
      requires |own| == l.n && after.l.n == l.n && |after.own| == l.n && WholeRuns(lo, hi)
      requires forall j {:trigger after.own[j]} :: 0 <= j < l.n && !(lo <= j < hi) ==> after.own[j] == own[j]
      requires forall j {:trigger InRun(j)} :: 0 <= j < l.n ==> InRun(j)
      requires 0 <= i < l.n && !(lo <= i < hi)
      ensures after.InRun(i)
    {
      assert InRun(i);
      if own[i].Run() {
        forall j | own[i].head <= j < own[i].head + own[i].len ensures after.own[j] == after.own[i] {
          assert own[j] == own[i];
        }
      }
    }

    function SetOwn(lo: int, hi: int, o: Own): seq<Own> {
      seq(|own|, i requires 0 <= i < |own| => if lo <= i < hi then o else own[i])
    }

    /** A cell whose descriptor, owner and list did not change. */
    lemma CellKept(after: Pages, i: int)
      requires |own| == l.n && |l.at| == l.n <= |t| && 0 <= i < l.n && Cell(i)
      requires after.l.n == l.n && |after.own| == |own| && |after.l.at| == l.n <= |after.t|
      requires |after.l.lists| == |l.lists|
      requires after.own[i] == own[i] && after.l.at[i] == l.at[i]
      requires after.t[i].slab == t[i].slab && after.t[i].tag == t[i].tag
      requires t[i].next == NULL ==> after.t[i].next == NULL
      requires l.at[i] == -1 ==> after.t[i].prev == t[i].prev
      ensures after.Cell(i)
    {
    }

    /* ---- ngx_slab_free_pages, step by step ---- */

    /** join->slab = NGX_SLAB_PAGE_FREE; join->next = NULL; join->prev = NGX_SLAB_PAGE; */
    static function Cleared(t: Table, x: int): Table
      requires 0 <= x < |t|
    {
      t[x := Desc(PAGE_FREE, NULL, NULL, PAGE)]
    }

    /** The run behind a loose run is free, and its head is element i of the free list. */
    ghost predicate CanJoinRight(x: int, m: nat, i: nat) {
      && |own| == l.n == |l.at| && |t| >= l.n && 0 <= x < x + m < l.n && |l.lists| > 0
      && own[x] == Loose(x, m) && own[x + m].FreeRun? && own[x + m].head == x + m
      && l.at[x + m] == FreeList() && i < |l.lists[FreeList()]| && l.lists[FreeList()][i] == x + m
      && 0 <= t[x + m].prev < |t| && 0 <= t[x + m].next < |t| && t[x + m].prev != x + m
    }

    /** The free run behind a loose run joins it. */
    ghost function JoinRight(x: int, m: nat, i: nat): (p: Pages)
      requires CanJoinRight(x, m, i)
      ensures |p.t| == |t|
    {
      var j, total := x + m, m + own[x + m].len;
      var t1 := t[x := t[x].(slab := t[x].slab + t[j].slab)];
      Pages(Cleared(Unlink(t1, j), j), l.Removed(j, i), SetOwn(x, x + total, Loose(x, total)))
    }

    /** A run that begins right behind another run begins with its head. */
    lemma NextHead(x: int, m: nat)
      requires |own| == l.n && 0 <= x < x + m < l.n && own[x].Run() && own[x].head == x && own[x].len == m
      requires InRun(x) && InRun(x + m) && own[x + m].Run()
      ensures own[x + m].head == x + m
    {
      var last, first := own[x + m - 1], own[x + m];
      assert last == own[x];
      assert first.head <= x + m - 1 ==> last == first;
    }

    lemma JoinRightReady(x: int, m: nat, i: nat)
      requires Valid() && 0 <= x < x + m < l.n && own[x] == Loose(x, m) && own[x + m].FreeRun?
      requires i < |l.lists[FreeList()]| && l.lists[FreeList()][i] == x + m
      ensures CanJoinRight(x, m, i)
    {
      hide Lists.Linked;
      LinkedSize();
      assert InRun(x) && InRun(x + m) && Cell(x + m);
      NextHead(x, m);
      l.UnlinkKeeps(t, x + m, i);
    }

    lemma JoinRightCell(x: int, m: nat, i: nat, y: int)
      requires CanJoinRight(x, m, i) && l.Linked(t) && 0 <= y < l.n
      requires InRun(x) && InRun(x + m) && InRun(y) && Cell(x) && Cell(x + m) && Cell(y)
      ensures JoinRight(x, m, i).Cell(y)
    {
      hide Unlink;
      hide Lists.Linked;
      var j := x + m;
      var t1 := t[x := t[x].(slab := t[x].slab + t[j].slab)];
      l.OffList(t, x, t1[x]);
      if y != j {
        l.UnlinkOthers(t1, j, i, y);
      } else {
        UnlinkCells(t1, j, j);
      }
      if x <= y < j {
        assert own[y] == own[x];
      } else if j <= y < j + own[j].len {
        assert own[y] == own[j];
      } else {
        CellKept(JoinRight(x, m, i), y);
      }
    }

    lemma JoinRightRuns(x: int, m: nat, i: nat, y: int)
      requires CanJoinRight(x, m, i) && 0 <= y < l.n
      requires forall y {:trigger InRun(y)} :: 0 <= y < l.n ==> InRun(y)
      ensures JoinRight(x, m, i).InRun(y)
    {
      var hi := x + m + own[x + m].len;
      assert InRun(x) && InRun(x + m);
      forall k | x <= k < hi && own[k].Run() ensures x <= own[k].head && own[k].head + own[k].len <= hi {
        assert own[k] == if k < x + m then own[x] else own[x + m];
      }
      if !(x <= y < hi) {
        RunsOutside(JoinRight(x, m, i), x, hi, y);
      }
    }

    lemma JoinRightKeeps(x: int, m: nat, i: nat)
      requires Valid() && 0 <= x < x + m < l.n && own[x] == Loose(x, m) && own[x + m].FreeRun?
      requires i < |l.lists[FreeList()]| && l.lists[FreeList()][i] == x + m
      ensures CanJoinRight(x, m, i) && JoinRight(x, m, i).Valid()
    {
      hide Lists.Linked;
      JoinRightReady(x, m, i);
      var j, after := x + m, JoinRight(x, m, i);
      var t1 := t[x := t[x].(slab := t[x].slab + t[j].slab)];
      assert InRun(x) && InRun(j) && Cell(x);
      l.OffList(t, x, t1[x]);
      l.UnlinkKeeps(t1, j, i);
      l.Removed(j, i).OffList(Unlink(t1, j), j, Cleared(Unlink(t1, j), j)[j]);
      forall y | 0 <= y < l.n ensures after.InRun(y) {
        JoinRightRuns(x, m, i, y);
      }
      forall y | 0 <= y < l.n ensures after.Cell(y) {
        assert InRun(y) && Cell(y);
        JoinRightCell(x, m, i, y);
      }
      forall y | 0 <= y < l.n - 1 ensures after.Merged(y) {
        assert Merged(y);
      }
    }

    /** Descriptors lo..hi-1 all set to d. */
    static function Filled(t: Table, lo: int, hi: int, d: Desc): (t': Table)
      ensures |t'| == |t|
    {
      seq(|t|, i requires 0 <= i < |t| => if lo <= i < hi then d else t[i])
    }

    /** memzero */
    static function Zeroed(t: Table, lo: int, hi: int): (t': Table)
    {
      Filled(t, lo, hi, Desc(PAGE_FREE, NULL, NULL, PAGE))
    }

    /** A run of allocated pages, or a page of chunks that is element i of a list. */
    ghost predicate CanDetach(x: int, m: nat, i: nat) {
      && |own| == l.n == |l.at| && |t| >= l.n && 0 < m && 0 <= x < x + m <= l.n && |l.lists| > 0
      && if own[x].Chunks? then
           && m == 1 && 0 <= l.at[x] < FreeList() && i < |l.lists[l.at[x]]| && l.lists[l.at[x]][i] == x
           && 0 <= t[x].prev < |t| && 0 <= t[x].next < |t| && t[x].prev != x
         else own[x] == Allocated(x, m) && l.at[x] == -1 && t[x].next == NULL
    }

    /** The pages become a loose run. */
    ghost function Detach(x: int, m: nat, i: nat): (p: Pages)
      requires CanDetach(x, m, i)
      ensures |p.t| == |t|
    {
      var t1 := Zeroed(t[x := t[x].(slab := m)], x + 1, x + m);
      Pages(if t[x].next != NULL then Unlink(t1, x) else t1,
            if own[x].Chunks? then l.Removed(x, i) else l, SetOwn(x, x + m, Loose(x, m)))
    }

    /** Pages that are on no list may be overwritten. */
    lemma FilledOff(lo: int, hi: int, d: Desc)
      requires l.Linked(t) && 0 <= lo && hi <= l.n && forall j :: lo <= j < hi ==> l.at[j] == -1
      ensures l.Linked(Filled(t, lo, hi, d))
      decreases hi - lo
    {
      if lo >= hi {
        assert Filled(t, lo, hi, d) == t;
      } else {
        FilledOff(lo + 1, hi, d);
        l.OffList(Filled(t, lo + 1, hi, d), lo, d);
        assert Filled(t, lo, hi, d) == Filled(t, lo + 1, hi, d)[lo := d];
      }
    }

    lemma DetachLinked(x: int, m: nat, i: nat)
      requires CanDetach(x, m, i) && l.Linked(t) && InRun(x)
      requires forall y {:trigger Cell(y)} :: 0 <= y < l.n ==> Cell(y)
      ensures Detach(x, m, i).l.Linked(Detach(x, m, i).t)
    {
      hide Lists.Linked;
      var t0 := t[x := t[x].(slab := m)];
      l.OffList(t, x, t0[x]);
      forall y | x + 1 <= y < x + m ensures l.at[y] == -1 {
        assert own[y] == own[x] && Cell(y);
      }
      this.(t := t0).FilledOff(x + 1, x + m, Desc(PAGE_FREE, NULL, NULL, PAGE));
      if own[x].Chunks? {
        l.UnlinkKeeps(Zeroed(t0, x + 1, x + m), x, i);
      }
    }

    lemma DetachCell(x: int, m: nat, i: nat, y: int)
      requires CanDetach(x, m, i) && l.Linked(t) && InRun(x) && 0 <= y < l.n && Cell(y)
      ensures Detach(x, m, i).Cell(y)
    {
      hide Lists.Linked;
      var t0 := t[x := t[x].(slab := m)];
      l.OffList(t, x, t0[x]);
      if own[x].Chunks? {
        assert Zeroed(t0, x + 1, x + m) == t0;
        if y != x {
          l.UnlinkOthers(t0, x, i, y);
        } else {
          UnlinkCells(t0, x, x);
        }
      }
      if !(x <= y < x + m) {
        CellKept(Detach(x, m, i), y);
      }
    }

    lemma DetachKeeps(x: int, m: nat, i: nat)
      requires Valid() && CanDetach(x, m, i)
      ensures Detach(x, m, i).Valid()
    {
      hide Lists.Linked;
      var after := Detach(x, m, i);
      assert InRun(x);
      DetachLinked(x, m, i);
      forall y | 0 <= y < l.n ensures after.InRun(y) {
        if !(x <= y < x + m) {
          RunsOutside(after, x, x + m, y);
        }
      }
      forall y | 0 <= y < l.n ensures after.Cell(y) {
        assert Cell(y);
        DetachCell(x, m, i, y);
      }
      forall y | 0 <= y < l.n - 1 ensures after.Merged(y) {
        assert Merged(y);
      }
    }

    /** The run before a loose run is free, and its head is element i of the free list. */
    ghost predicate CanJoinLeft(x: int, m: nat, i: nat) {
      && |own| == l.n == |l.at| && |t| >= l.n && 0 < x < x + m <= l.n && |l.lists| > 0
      && own[x] == Loose(x, m) && own[x - 1].FreeRun? && own[x - 1].head + own[x - 1].len == x
      && (var h := own[x - 1].head;
          && 0 <= h < x && own[h] == own[x - 1] && l.at[h] == FreeList()
          && i < |l.lists[FreeList()]| && l.lists[FreeList()][i] == h
          && 0 <= t[h].prev < |t| && 0 <= t[h].next < |t| && t[h].prev != h)
    }

    /** The loose run joins the free run before it. */
    ghost function JoinLeft(x: int, m: nat, i: nat): (p: Pages)
      requires CanJoinLeft(x, m, i)
      ensures |p.t| == |t|
    {
      var h := own[x - 1].head;
      var total := x + m - h;
      var t1 := t[h := t[h].(slab := t[h].slab + t[x].slab)];
      Pages(Cleared(Unlink(t1, h), x), l.Removed(h, i), SetOwn(h, x + m, Loose(h, total)))
    }

    /** A run that ends right before a loose run ends there. */
    lemma RunBefore(x: int, m: nat)
      requires |own| == l.n && 0 < x < x + m <= l.n && own[x] == Loose(x, m) && own[x - 1].Run() && own[x - 1] != own[x]
      requires InRun(x) && InRun(x - 1)
      ensures own[x - 1].head + own[x - 1].len == x && own[own[x - 1].head] == own[x - 1]
    {
      var before, here := own[x - 1], own[x];
      assert own[before.head] == before;
      assert before.head + before.len > x ==> here == before;
    }

    lemma JoinLeftReady(x: int, m: nat, i: nat)
      requires Valid() && 0 < x < x + m <= l.n && own[x] == Loose(x, m) && own[x - 1].FreeRun?
      requires i < |l.lists[FreeList()]| && l.lists[FreeList()][i] == own[x - 1].head
      ensures CanJoinLeft(x, m, i)
    {
      assert InRun(x) && InRun(x - 1);
      RunBefore(x, m);
      var h := own[x - 1].head;
      assert Cell(h);
      l.UnlinkKeeps(t, h, i);
    }

    lemma JoinLeftCell(x: int, m: nat, i: nat, y: int)
      requires CanJoinLeft(x, m, i) && l.Linked(t) && 0 <= y < l.n
      requires InRun(x) && InRun(own[x - 1].head) && InRun(y) && Cell(x) && Cell(own[x - 1].head) && Cell(y)
      ensures JoinLeft(x, m, i).Cell(y)
    {
      hide Unlink;
      hide Lists.Linked;
      var h := own[x - 1].head;
      var t1 := t[h := t[h].(slab := t[h].slab + t[x].slab)];
      l.OffList(t, h, t1[h]);
      if y != h {
        l.UnlinkOthers(t1, h, i, y);
      } else {
        UnlinkCells(t1, h, h);
      }
      if y != x {
        l.UnlinkOthers(t1, h, i, x);
      }
      if h <= y < x {
        assert own[y] == own[h];
      } else if x <= y < x + m {
        assert own[y] == own[x];
      } else {
        CellKept(JoinLeft(x, m, i), y);
      }
    }

    lemma JoinLeftRuns(x: int, m: nat, i: nat, y: int)
      requires CanJoinLeft(x, m, i) && 0 <= y < l.n
      requires forall y {:trigger InRun(y)} :: 0 <= y < l.n ==> InRun(y)
      ensures JoinLeft(x, m, i).InRun(y)
    {
      var h, hi := own[x - 1].head, x + m;
      assert InRun(x) && InRun(h);
      forall k | h <= k < hi && own[k].Run() ensures h <= own[k].head && own[k].head + own[k].len <= hi {
        assert own[k] == if k < x then own[h] else own[x];
      }
      if !(h <= y < hi) {
        RunsOutside(JoinLeft(x, m, i), h, hi, y);
      }
    }

    lemma JoinLeftKeeps(x: int, m: nat, i: nat)
      requires Valid() && 0 < x < x + m <= l.n && own[x] == Loose(x, m) && own[x - 1].FreeRun?
      requires i < |l.lists[FreeList()]| && l.lists[FreeList()][i] == own[x - 1].head
      ensures CanJoinLeft(x, m, i) && JoinLeft(x, m, i).Valid()
    {
      hide Lists.Linked;
      JoinLeftReady(x, m, i);
      var h, after := own[x - 1].head, JoinLeft(x, m, i);
      var t1 := t[h := t[h].(slab := t[h].slab + t[x].slab)];
      assert InRun(x) && InRun(h) && Cell(x) && Cell(h);
      l.OffList(t, h, t1[h]);
      l.UnlinkKeeps(t1, h, i);
      l.Removed(h, i).OffList(Unlink(t1, h), x, Cleared(Unlink(t1, h), x)[x]);
      forall y | 0 <= y < l.n ensures after.InRun(y) {
        JoinLeftRuns(x, m, i, y);
      }
      forall y | 0 <= y < l.n ensures after.Cell(y) {
        assert InRun(y) && Cell(y);
        JoinLeftCell(x, m, i, y);
      }
      forall y | 0 <= y < l.n - 1 ensures after.Merged(y) {
        assert Merged(y);
      }
    }

    /** A loose run between pages that are not free. */
    ghost predicate CanFinish(x: int, m: nat) {
      && |own| == l.n == |l.at| && |t| >= l.n && 0 <= x < x + m <= l.n && |l.lists| > 0 && |l.tags| == |l.lists|
      && own[x] == Loose(x, m) && l.at[x] == -1 && 0 <= FreeHead() < |t| && 0 <= t[FreeHead()].next < |t|
      && (x + m < l.n ==> !own[x + m].FreeRun?) && (0 < x ==> !own[x - 1].FreeRun?)
    }

    /** The loose run is pushed on the free list, its last page pointing back to its first. */
    ghost function Finish(x: int, m: nat): (p: Pages)
      requires CanFinish(x, m)
      ensures |p.t| == |t|
    {
      var t1 := if m > 1 then WithPrev(t, x + m - 1, x, PAGE) else t;
      Pages(Push(t1, FreeHead(), x, PAGE), l.Added(x, FreeList()), SetOwn(x, x + m, FreeRun(x, m)))
    }

    lemma FinishCell(x: int, m: nat, y: int)
      requires CanFinish(x, m) && l.Linked(t) && l.tags[FreeList()] == PAGE && InRun(x) && 0 <= y < l.n && Cell(x)
      requires Cell(y)
      requires m > 1 ==> l.at[x + m - 1] == -1
      ensures Finish(x, m).Cell(y)
    {
      hide Push;
      hide Lists.Linked;
      var t1 := if m > 1 then WithPrev(t, x + m - 1, x, PAGE) else t;
      if m > 1 {
        l.OffList(t, x + m - 1, t1[x + m - 1]);
      }
      if y != x {
        l.PushOthers(t1, x, FreeList(), y);
      }
      l.PushKeeps(t1, x, FreeList());
      if x <= y < x + m {
        assert own[y] == own[x];
        if y == x {
          FinishHead(t1, x);
        }
      } else {
        CellKept(Finish(x, m), y);
      }
    }

    lemma FinishHead(t1: Table, x: int)
      requires l.Linked(t1) && |l.lists| > 0 && |l.at| == l.n && 0 <= x < l.n && l.at[x] == -1
      requires 0 <= FreeHead() < |t1| && 0 <= t1[FreeHead()].next < |t1|
      ensures t1[FreeHead()].next != x
      ensures var d := Push(t1, FreeHead(), x, PAGE)[x]; d.slab == t1[x].slab && d.tag == PAGE
    {
      PushCells(t1, FreeHead(), x, PAGE, x);
    }

    lemma FinishReady(x: int, m: nat)
      requires Valid() && 0 <= x < x + m <= l.n && own[x] == Loose(x, m)
      requires (x + m < l.n ==> !own[x + m].FreeRun?) && (0 < x ==> !own[x - 1].FreeRun?)
      ensures CanFinish(x, m) && (m > 1 ==> l.at[x + m - 1] == -1)
    {
      hide Lists.Linked;
      LinkedSize();
      assert InRun(x) && Cell(x) && Cell(x + m - 1);
      assert own[x + m - 1] == own[x];
      l.PushKeeps(t, x, FreeList());
    }

    lemma FinishLinked(x: int, m: nat)
      requires CanFinish(x, m) && l.Linked(t) && l.tags[FreeList()] == PAGE && (m > 1 ==> l.at[x + m - 1] == -1)
      ensures Finish(x, m).l.Linked(Finish(x, m).t)
    {
      hide Lists.Linked;
      var t1 := if m > 1 then WithPrev(t, x + m - 1, x, PAGE) else t;
      if m > 1 {
        l.OffList(t, x + m - 1, t1[x + m - 1]);
      }
      l.PushKeeps(t1, x, FreeList());
    }

    lemma FinishKeeps(x: int, m: nat)
      requires Valid() && 0 <= x < x + m <= l.n && own[x] == Loose(x, m)
      requires (x + m < l.n ==> !own[x + m].FreeRun?) && (0 < x ==> !own[x - 1].FreeRun?)
      ensures CanFinish(x, m) && Finish(x, m).Valid()
    {
      hide Lists.Linked;
      FinishReady(x, m);
      FinishLinked(x, m);
      var after := Finish(x, m);
      assert InRun(x) && Cell(x);
      forall y | 0 <= y < l.n ensures after.InRun(y) {
        if !(x <= y < x + m) {
          RunsOutside(after, x, x + m, y);
        }
      }
      forall y | 0 <= y < l.n ensures after.Cell(y) {
        assert Cell(y);
        FinishCell(x, m, y);
      }
      forall y | 0 <= y < l.n - 1 ensures after.Merged(y) {
        assert Merged(y);
      }
    }

    lemma LinkedSize()
      requires l.Linked(t)
      ensures |l.at| == l.n && |l.tags| == |l.lists| && |t| == l.n + |l.lists|
    {
    }

    /* ---- ngx_slab_alloc_pages ---- */

    /** A listed free run of at least m pages. */
    ghost predicate CanTake(x: int, m: nat, i: nat) {
      && |own| == l.n == |l.at| && |t| >= l.n && |l.lists| == |l.tags| && 0 < |l.lists| && l.tags[FreeList()] == PAGE
      && 0 <= x < l.n && own[x].FreeRun? && own[x].head == x && 0 < m <= own[x].len && x + own[x].len <= l.n
      && l.at[x] == FreeList() && i < |l.lists[FreeList()]| && l.lists[FreeList()][i] == x
      && 0 <= t[x].prev < |t| && 0 <= t[x].next < |t| && t[x].prev != x
      && (m < own[x].len ==> l.at[x + m] == -1)
    }

    /** The rest of the run, if any, takes the place of the run on the free list. */
    ghost function Split(x: int, m: nat): Table
      requires |own| <= |t| && 0 <= x < |own| && own[x].FreeRun? && 0 < m < own[x].len && x + own[x].len <= |own|
    {
      var y, last := x + m, x + own[x].len - 1;
      var t1 := WithPrev(t, last, y, PAGE);
      t1[y := t1[y].(slab := own[x].len - m)]
    }

    ghost function TakenTable(x: int, m: nat, i: nat): (t': Table)
      requires CanTake(x, m, i)
      ensures |t'| == |t|
    {
      if m < own[x].len then Substitute(Split(x, m), x, x + m) else Unlink(t, x)
    }

    ghost function Take(x: int, m: nat, i: nat): (p: Pages)
      requires CanTake(x, m, i)
      ensures |p.t| == |t|
    {
      var t1 := TakenTable(x, m, i);
      var t2 := t1[x := Desc(m + PAGE_START, NULL, NULL, PAGE)];
      var rest := SetOwn(x, x + own[x].len, FreeRun(x + m, own[x].len - m));
      Pages(Filled(t2, x + 1, x + m, Desc(PAGE_BUSY, NULL, NULL, PAGE)),
            if m < own[x].len then l.Substituted(x, i, x + m) else l.Removed(x, i),
            this.(own := rest).SetOwn(x, x + m, Allocated(x, m)))
    }

    lemma TakeReady(x: int, m: nat, i: nat)
      requires Valid() && 0 <= x < l.n && own[x].FreeRun? && own[x].head == x && 0 < m <= own[x].len
      requires i < |l.lists[FreeList()]| && l.lists[FreeList()][i] == x
      ensures CanTake(x, m, i)
    {
      hide Lists.Linked;
      LinkedSize();
      assert InRun(x) && Cell(x);
      l.UnlinkKeeps(t, x, i);
      if m < own[x].len {
        assert own[x + m] == own[x] && Cell(x + m);
      }
    }

    /** Splitting writes to pages that are on no list. */
    lemma SplitLinked(x: int, m: nat, i: nat)
      requires CanTake(x, m, i) && l.Linked(t) && m < own[x].len && l.at[x + own[x].len - 1] == -1
      ensures l.CanSubstitute(Split(x, m), x, i, x + m)
      ensures forall y :: 0 <= y < l.n && y != x + m && y != x + own[x].len - 1 ==> Split(x, m)[y] == t[y]
    {
      hide Lists.Linked;
      var last := x + own[x].len - 1;
      var t1 := WithPrev(t, last, x + m, PAGE);
      l.OffList(t, last, t1[last]);
      l.OffList(t1, x + m, t1[x + m].(slab := own[x].len - m));
    }

    lemma TakeLinked(x: int, m: nat, i: nat)
      requires CanTake(x, m, i) && l.Linked(t) && InRun(x)
      requires forall y {:trigger Cell(y)} :: 0 <= y < l.n ==> Cell(y)
      ensures Take(x, m, i).l.Linked(Take(x, m, i).t)
    {
      hide Lists.Linked;
      var after, t1 := Take(x, m, i), TakenTable(x, m, i);
      if m < own[x].len {
        assert Cell(x + own[x].len - 1);
        SplitLinked(x, m, i);
        l.SubstituteKeeps(Split(x, m), x, i, x + m);
      } else {
        l.UnlinkKeeps(t, x, i);
      }
      var d := Desc(m + PAGE_START, NULL, NULL, PAGE);
      after.l.OffList(t1, x, d);
      forall y | x + 1 <= y < x + m ensures after.l.at[y] == -1 {
        assert own[y] == own[x] && Cell(y);
      }
      after.(t := t1[x := d]).FilledOff(x + 1, x + m, Desc(PAGE_BUSY, NULL, NULL, PAGE));
    }

    /** The descriptors after the taking, away from the taken pages. */
    lemma TakenOthers(x: int, m: nat, i: nat, y: int)
      requires CanTake(x, m, i) && l.Linked(t) && InRun(x) && 0 <= y < l.n && !(x <= y < x + m)
      requires forall y {:trigger Cell(y)} :: 0 <= y < l.n ==> Cell(y)
      requires y != x + m || m == own[x].len
      ensures var d := Take(x, m, i).t[y];
        && d.slab == t[y].slab && d.tag == t[y].tag && (d.next == NULL) == (t[y].next == NULL)
        && (l.at[y] == -1 ==> d.prev == if m < own[x].len && y == x + own[x].len - 1 then x + m else t[y].prev)
    {
      hide Lists.Linked;
      if m < own[x].len {
        var last := x + own[x].len - 1;
        assert own[last] == own[x] && Cell(last);
        SplitLinked(x, m, i);
        l.SubstituteOthers(Split(x, m), x, i, x + m, y);
      } else {
        l.UnlinkOthers(t, x, i, y);
      }
    }

    lemma TakeCell(x: int, m: nat, i: nat, y: int)
      requires CanTake(x, m, i) && l.Linked(t) && InRun(x) && 0 <= y < l.n && InRun(y)
      requires forall y {:trigger Cell(y)} :: 0 <= y < l.n ==> Cell(y)
      ensures Take(x, m, i).Cell(y)
    {
      hide Lists.Linked;
      assert Cell(x) && Cell(y);
      if !(x <= y < x + m) {
        if y == x + m && m < own[x].len {
          TakeRest(x, m, i);
        } else {
          TakenOthers(x, m, i, y);
          if y < x + own[x].len && x <= y {
            assert own[y] == own[x];
          } else {
            CellKept(Take(x, m, i), y);
          }
        }
      }
    }

    lemma TakeRest(x: int, m: nat, i: nat)
      requires CanTake(x, m, i) && l.Linked(t) && InRun(x) && m < own[x].len
      requires forall y {:trigger Cell(y)} :: 0 <= y < l.n ==> Cell(y)
      ensures Take(x, m, i).Cell(x + m)
    {
      hide Lists.Linked;
      assert Cell(x) && own[x + own[x].len - 1] == own[x] && Cell(x + own[x].len - 1);
      SplitLinked(x, m, i);
      l.SubstituteOthers(Split(x, m), x, i, x + m, x);
    }

    lemma TakeRuns(x: int, m: nat, i: nat, y: int)
      requires CanTake(x, m, i) && 0 <= y < l.n
      requires forall y {:trigger InRun(y)} :: 0 <= y < l.n ==> InRun(y)
      ensures Take(x, m, i).InRun(y)
    {
      var hi := x + own[x].len;
      assert InRun(x);
      if !(x <= y < hi) {
        RunsOutside(Take(x, m, i), x, hi, y);
      }
    }

    lemma TakeMerged(x: int, m: nat, i: nat, y: int)
      requires CanTake(x, m, i) && 0 <= y < l.n - 1 && InRun(x) && InRun(y) && InRun(y + 1) && Merged(y)
      ensures Take(x, m, i).Merged(y)
    {
      var hi := x + own[x].len;
      assert x <= y < hi ==> own[y] == own[x];
      assert x <= y + 1 < hi ==> own[y + 1] == own[x];
    }

    lemma TakeKeeps(x: int, m: nat, i: nat)
      requires Valid() && 0 <= x < l.n && own[x].FreeRun? && own[x].head == x && 0 < m <= own[x].len
      requires i < |l.lists[FreeList()]| && l.lists[FreeList()][i] == x
      ensures CanTake(x, m, i) && Take(x, m, i).Valid()
    {
      hide Lists.Linked;
      TakeReady(x, m, i);
      var after := Take(x, m, i);
      assert InRun(x);
      TakeLinked(x, m, i);
      forall y | 0 <= y < l.n ensures after.InRun(y) {
        TakeRuns(x, m, i, y);
      }
      forall y | 0 <= y < l.n ensures after.Cell(y) {
        assert InRun(y);
        TakeCell(x, m, i, y);
      }
      forall y | 0 <= y < l.n - 1 ensures after.Merged(y) {
        assert Merged(y) && InRun(y) && InRun(y + 1);
        TakeMerged(x, m, i, y);
      }
    }

    /* ---- what the code tests ---- */

    /** The only run in transit. */
    ghost predicate OneLoose(x: int, m: nat) {
      && |own| == l.n && 0 <= x < x + m <= l.n && own[x] == Loose(x, m)
      && forall i {:trigger own[i]} :: 0 <= i < l.n && own[i].Loose? ==> x <= i < x + m
    }

    /** A page of type NGX_SLAB_PAGE with a next link is the head of a free run. */
    lemma RightTest(x: int, m: nat)
      requires Valid() && OneLoose(x, m) && x + m < l.n
      ensures t[x + m].tag == PAGE && t[x + m].next != NULL <==> own[x + m].FreeRun?
      ensures own[x + m].FreeRun? ==>
          own[x + m].head == x + m && l.at[x + m] == FreeList() && t[x + m].slab == own[x + m].len
    {
      hide Lists.Linked;
      LinkedSize();
      var j := x + m;
      assert InRun(x) && InRun(j) && Cell(j);
      if own[j].FreeRun? {
        NextHead(x, m);
        l.ListedLinks(t, j);
      }
    }

    /** The head the code finds for the run before a page. */
    function HeadBefore(x: int): int
      requires 0 < x <= |t|
    {
      if t[x - 1].slab == PAGE_FREE then t[x - 1].prev else x - 1
    }

    lemma LeftTest(x: int, m: nat)
      requires Valid() && OneLoose(x, m) && 0 < x
      ensures own[x - 1].FreeRun? ==>
        && t[x - 1].tag == PAGE && HeadBefore(x) == own[x - 1].head && 0 <= HeadBefore(x) < x
        && t[HeadBefore(x)].next != NULL && l.at[HeadBefore(x)] == FreeList()
      ensures !own[x - 1].FreeRun? && t[x - 1].tag == PAGE ==> HeadBefore(x) == x - 1 && t[x - 1].next == NULL
    {
      hide Lists.Linked;
      LinkedSize();
      assert InRun(x) && InRun(x - 1) && Cell(x - 1);
      if own[x - 1].FreeRun? {
        RunBefore(x, m);
        var h := own[x - 1].head;
        assert Cell(h);
        l.ListedLinks(t, h);
      }
    }

    /** A page on the free list is a page of the table. */
    lemma FreeListed(i: int)
      requires Valid() && 0 <= i < |l.lists[FreeList()]|
      ensures var x := l.lists[FreeList()][i];
        && 0 <= x < l.n && own[x].FreeRun? && own[x].head == x && t[x].slab == own[x].len && l.at[x] == FreeList()
    {
      var x := l.lists[FreeList()][i];
      assert l.at[x] == FreeList();
      assert Cell(x) && InRun(x);
    }

    /* ---- what does not change ---- */

    predicate InUse(y: int)
      requires 0 <= y < |own|
    {
      own[y].Chunks? || own[y].Allocated?
    }

    ghost predicate SameSize(after: Pages) {
      && |own| == l.n == |l.at| == after.l.n == |after.own| == |after.l.at| && |l.tags| == |l.lists|
      && |t| == |after.t| == l.n + |l.lists| && |after.l.lists| == |l.lists| && after.l.tags == l.tags
    }

    /** A page in use keeps its owner, its slab word, its type and its list; another page does not come into use. */
    ghost predicate Kept(after: Pages, y: int)
      requires SameSize(after) && 0 <= y < l.n
    {
      if InUse(y) then
        && after.own[y] == own[y] && after.t[y].slab == t[y].slab && after.t[y].tag == t[y].tag
        && after.l.at[y] == l.at[y] && (after.t[y].next == NULL) == (t[y].next == NULL)
      else !after.InUse(y)
    }

    ghost predicate KeptOutside(after: Pages, lo: int, hi: int) {
      && SameSize(after)
      && forall y {:trigger Kept(after, y)} :: 0 <= y < l.n && !(lo <= y < hi) ==> Kept(after, y)
    }

    lemma DetachOutside(x: int, m: nat, i: nat)
      requires CanDetach(x, m, i) && l.Linked(t) && InRun(x)
      ensures KeptOutside(Detach(x, m, i), x, x + m)
    {
      hide Lists.Linked;
      var after, t0 := Detach(x, m, i), t[x := t[x].(slab := m)];
      l.OffList(t, x, t0[x]);
      LinkedSize();
      if own[x].Chunks? {
        assert Zeroed(t0, x + 1, x + m) == t0;
        UnlinkCells(t0, x, x);
        forall y | 0 <= y < l.n && y != x ensures Kept(after, y) {
          l.UnlinkOthers(t0, x, i, y);
        }
      }
    }

    lemma JoinRightKept(x: int, m: nat, i: nat, y: int)
      requires CanJoinRight(x, m, i) && l.Linked(t) && InRun(x) && InRun(x + m) && 0 <= y < l.n
      requires SameSize(JoinRight(x, m, i))
      ensures Kept(JoinRight(x, m, i), y)
    {
      hide Lists.Linked;
      var j := x + m;
      if x <= y < j + own[j].len {
        assert own[y] == if y < j then own[x] else own[j];
      } else {
        var t1 := t[x := t[x].(slab := t[x].slab + t[j].slab)];
        l.OffList(t, x, t1[x]);
        l.UnlinkOthers(t1, j, i, y);
      }
    }

    lemma JoinRightOutside(x: int, m: nat, i: nat)
      requires CanJoinRight(x, m, i) && l.Linked(t) && InRun(x) && InRun(x + m)
      ensures KeptOutside(JoinRight(x, m, i), x, x)
    {
      hide Lists.Linked;
      LinkedSize();
      var j := x + m;
      var t1 := t[x := t[x].(slab := t[x].slab + t[j].slab)];
      l.OffList(t, x, t1[x]);
      UnlinkCells(t1, j, j);
      forall y | 0 <= y < l.n ensures Kept(JoinRight(x, m, i), y) {
        JoinRightKept(x, m, i, y);
      }
    }

    lemma JoinLeftKept(x: int, m: nat, i: nat, y: int)
      requires CanJoinLeft(x, m, i) && l.Linked(t) && InRun(x) && InRun(own[x - 1].head) && 0 <= y < l.n
      requires SameSize(JoinLeft(x, m, i))
      ensures Kept(JoinLeft(x, m, i), y)
    {
      hide Lists.Linked;
      var h := own[x - 1].head;
      if h <= y < x + m {
        assert own[y] == if y < x then own[h] else own[x];
      } else {
        var t1 := t[h := t[h].(slab := t[h].slab + t[x].slab)];
        l.OffList(t, h, t1[h]);
        l.UnlinkOthers(t1, h, i, y);
      }
    }

    lemma JoinLeftOutside(x: int, m: nat, i: nat)
      requires CanJoinLeft(x, m, i) && l.Linked(t) && InRun(x) && InRun(own[x - 1].head)
      ensures KeptOutside(JoinLeft(x, m, i), x, x)
    {
      hide Lists.Linked;
      LinkedSize();
      var h := own[x - 1].head;
      var t1 := t[h := t[h].(slab := t[h].slab + t[x].slab)];
      l.OffList(t, h, t1[h]);
      UnlinkCells(t1, h, h);
      forall y | 0 <= y < l.n ensures Kept(JoinLeft(x, m, i), y) {
        JoinLeftKept(x, m, i, y);
      }
    }

    lemma FinishOutside(x: int, m: nat)
      requires CanFinish(x, m) && l.Linked(t) && l.tags[FreeList()] == PAGE && InRun(x)
      requires (m > 1 ==> l.at[x + m - 1] == -1)
      ensures KeptOutside(Finish(x, m), x, x)
    {
      hide Lists.Linked;
      LinkedSize();
      var after, t1 := Finish(x, m), if m > 1 then WithPrev(t, x + m - 1, x, PAGE) else t;
      if m > 1 {
        l.OffList(t, x + m - 1, t1[x + m - 1]);
      }
      l.PushKeeps(t1, x, FreeList());
      assert SameSize(after);
      forall y | 0 <= y < l.n ensures Kept(after, y) {
        if x <= y < x + m {
          assert own[y] == own[x];
        } else {
          l.PushOthers(t1, x, FreeList(), y);
        }
      }
    }

    lemma TakeOutside(x: int, m: nat, i: nat)
      requires CanTake(x, m, i) && l.Linked(t) && InRun(x)
      requires forall y {:trigger Cell(y)} :: 0 <= y < l.n ==> Cell(y)
      ensures KeptOutside(Take(x, m, i), x, x + m)
    {
      hide Lists.Linked;
      LinkedSize();
      TakeLinked(x, m, i);
      var after := Take(x, m, i);
      assert SameSize(after);
      forall y | 0 <= y < l.n && !(x <= y < x + m) ensures Kept(after, y) {
        if x <= y < x + own[x].len {
          assert own[y] == own[x];
        } else {
          TakenOthers(x, m, i, y);
        }
      }
    }

    /* ---- the free pages ---- */

    /** Pages that belong to no block. */
    ghost function FreeSet(): set<int> {
      set y | 0 <= y < |own| && !InUse(y)
    }

    ghost function FreeRuns(): seq<int>
      requires |l.lists| > 0
    {
      l.lists[FreeList()]
    }

    ghost predicate NoneLoose() {
      forall i {:trigger own[i]} :: 0 <= i < |own| ==> !own[i].Loose?
    }

    lemma RunsApart(i: nat, j: nat, y: int)
      requires Valid() && i < j < |FreeRuns()|
      ensures ListInTable(t, FreeRuns())
      ensures !(InListed(t, FreeRuns(), i, y) && InListed(t, FreeRuns(), j, y))
    {
      hide Lists.Linked;
      FreeInTable();
      FreeListed(i);
      FreeListed(j);
      var a, b := FreeRuns()[i], FreeRuns()[j];
      assert InRun(a) && InRun(b);
      ListedOnce(i, j);
      assert a <= y < a + t[a].slab ==> own[y] == own[a];
      assert b <= y < b + t[b].slab ==> own[y] == own[b];
    }

    lemma ListedOnce(i: nat, j: nat)
      requires Valid() && i < j < |FreeRuns()|
      ensures FreeRuns()[i] != FreeRuns()[j]
    {
      assert Ring(t, Head(l.n, FreeList()), FreeRuns());
    }

    lemma FreeInTable()
      requires Valid()
      ensures |l.lists| > 0 && ListInTable(t, FreeRuns())
    {
      hide Lists.Linked;
      LinkedSize();
      forall i | 0 <= i < |FreeRuns()| ensures 0 <= FreeRuns()[i] < |t| {
        FreeListed(i);
      }
    }

    lemma FreeIsListed(y: int)
      requires Valid() && NoneLoose()
      ensures ListInTable(t, FreeRuns())
      ensures y in FreeSet() <==>
          exists i {:trigger InListed(t, FreeRuns(), i, y)} :: 0 <= i < |FreeRuns()| && InListed(t, FreeRuns(), i, y)
    {
      hide Lists.Linked;
      LinkedSize();
      FreeInTable();
      if y in FreeSet() {
        assert InRun(y);
        var h := own[y].head;
        assert own[h] == own[y];
        assert Cell(h);
        HeadListed(h);
        var i :| 0 <= i < |FreeRuns()| && FreeRuns()[i] == h;
        assert InListed(t, FreeRuns(), i, y);
      }
      forall i | 0 <= i < |FreeRuns()| && InListed(t, FreeRuns(), i, y) ensures y in FreeSet() {
        FreeListed(i);
        var h := FreeRuns()[i];
        assert InRun(h);
        assert own[y] == own[h];
      }
    }

    /** The free list holds every free page: pfree is the total length of the listed runs. */
    lemma FreeTotal()
      requires Valid() && NoneLoose()
      ensures ListInTable(t, FreeRuns()) && Total(t, FreeRuns()) == |FreeSet()|
    {
      hide *;
      FreeInTable();
      var list := FreeRuns();
      forall i, j, y | 0 <= i < j < |list| ensures !(InListed(t, list, i, y) && InListed(t, list, j, y)) {
        RunsApart(i, j, y);
      }
      CoveredSize(t, list);
      var listed, free := Covered(t, list), FreeSet();
      forall y ensures y in listed <==> y in free {
        FreeIsListed(y);
        CoveredMembers(t, list, y);
      }
      assert listed == free;
    }

    lemma HeadListed(h: int)
      requires Valid() && 0 <= h < l.n && l.at[h] == FreeList()
      ensures exists i :: 0 <= i < |l.lists[FreeList()]| && l.lists[FreeList()][i] == h
    {
      assert h in l.lists[FreeList()];
    }

    /** Once no page is in use, the pool is one free run over all pages. */
    lemma AllFree()
      requires Valid() && NoneLoose() && 0 < l.n && FreeSet() == Interval(0, l.n)
      ensures own[0] == FreeRun(0, l.n) && t[0].slab == l.n && l.lists[FreeList()] == [0]
    {
      hide Lists.Linked;
      LinkedSize();
      assert 0 in FreeSet();
      assert InRun(0);
      assert Cell(0);
      var len := own[0].len;
      assert len >= l.n by {
        if len < l.n {
          assert len in FreeSet() && own[len - 1] == own[0];
          var merged, run := Merged(len - 1), InRun(len);
        }
      }
      HeadListed(0);
      var list := l.lists[FreeList()];
      forall i | 0 <= i < |list| ensures list[i] == 0 {
        FreeListed(i);
        var x := list[i];
        assert own[x] == own[0];
      }
      if |list| > 1 {
        var a, b := list[0], list[1];
        ListedOnce(0, 1);
        assert false;
      }
      assert list == [0];
    }
  }
}
