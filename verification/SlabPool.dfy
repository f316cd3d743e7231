/** ngx_slab.c: the allocator itself, writing descriptors, bitmaps and counters in place. */
module SlabPool {
  import opened Bits
  import opened SlabLists
  import opened SlabPages
  import opened SlabGeometry
  import opened SlabListing
  import opened SlabStages
  import opened SlabState
  import opened SlabBlocks
  import opened SlabInit
  import C = SlabChunks

  class SlabPool {
    const g: Geometry
    const table: array<Desc>
    const words: array<seq<nat>>
    const stats: array<Stat>
    /** pool->end, counted from the start of the first page. */
    const end: nat
    var pfree: int
    ghost var l: Lists
    ghost var own: seq<Own>

    ghost function P(): Pages
      reads this, table
    {
      Pages(table[..], l, own)
    }

    ghost function S(): Slab
      reads this, table, words
    {
      Slab(g, P(), words[..])
    }

    /** What the pool holds, page by page. */
    ghost function Held(): seq<Content>
      reads this, table, words
      requires S().Sized()
    {
      S().Contents()
    }

    ghost predicate Valid()
      reads this, table, words, stats
    {
      && S().Valid() && S().g == g && words.Length == g.pages && StatsOk(g, Held(), stats[..])
      && pfree == |P().FreeSet()| && g.pages * g.PageSize() <= end
    }

    /** ngx_slab_init, on a memory of any contents. */
    constructor (g: Geometry, memory: seq<seq<nat>>, end: nat)
      requires g.Valid() && Memory(g, memory) && g.pages * g.PageSize() <= end
      ensures Valid() && this.g == g && this.end == end && fresh(table) && fresh(words) && fresh(stats)
      ensures S() == First(g, memory) && pfree == g.pages
      ensures forall a: nat {:trigger Live(g, Held(), a)} :: !Live(g, Held(), a)
    {
      this.g, this.end := g, end;
      table := new Desc[g.pages + g.Slots() + 1](i requires 0 <= i => FirstDesc(g, i));
      words := new seq<nat>[g.pages](i requires 0 <= i < |memory| => memory[i]);
      stats := new Stat[g.Slots()](_ => Stat(0, 0, 0, 0));
      pfree := g.pages;
      l := FirstLists(g);
      own := seq(g.pages, _ => FreeRun(0, g.pages));
      new;
      hide Pages.Valid;
      assert table[..] == FirstTable(g);
      assert words[..] == memory;
      assert stats[..] == seq(g.Slots(), _ => Stat(0, 0, 0, 0));
      FirstValid(g, memory);
      FirstStats(g, Held());
      forall a: nat ensures !Live(g, Held(), a) {
        NothingLive(g, Held(), a);
      }
    }

    /** ngx_slab_init as a whole: from room bytes at address p, with descriptors of d bytes, the pages are laid out and
        the pool made for them. There is no pool if there is room for no page. Addresses count from start. */
    static method Create(minShift: nat, pageShift: nat, p: nat, room: nat, d: nat, memory: seq<seq<nat>>)
      returns (pool: SlabPool?, start: nat)
      requires 6 <= pageShift <= 16 && minShift < pageShift && d > 0 && d + Pow2(pageShift) <= room < PAGES_MAX
      requires Div(room, d + Pow2(pageShift)) <= |memory|
      requires forall x :: 0 <= x < |memory| ==> |memory[x]| == Pow2(pageShift - 3)
      requires forall x, n :: 0 <= x < |memory| && 0 <= n < |memory[x]| ==> memory[x][n] < Pow2(WORD_BITS)
      ensures pool == null ==> Div(room, d + Pow2(pageShift)) <= 1
      ensures pool != null ==>
        && fresh(pool) && pool.Valid() && pool.g.minShift == minShift && pool.g.pageShift == pageShift
        && Div(room, d + Pow2(pageShift)) - 1 <= pool.g.pages <= Div(room, d + Pow2(pageShift))
        && start % Pow2(pageShift) == 0 && p + pool.g.pages * d <= start && start + pool.end == p + room
        && pool.g.pages * pool.g.PageSize() <= pool.end && pool.pfree == pool.g.pages
        && forall a: nat {:trigger Live(pool.g, pool.Held(), a)} :: !Live(pool.g, pool.Held(), a)
    {
      hide Pow2;
      hide Slab.Valid;
      var pages;
      pages, start := Layout(p, room, d, Pow2(pageShift));
      if pages == 0 {
        return null, start;
      }
      RoomBound(room, d + Pow2(pageShift));
      var g := Geometry(pageShift, minShift, pages);
      assert Memory(g, memory[..pages]);
      pool := new SlabPool(g, memory[..pages], p + room - start);
    }

    static lemma RoomBound(room: nat, e: nat)
      requires e > 0
      ensures Div(room, e) <= room
    {
      AtLeastOne(e, Div(room, e));
      assert room == e * Div(room, e) + room % e;
    }

    /* ---- runs of pages ---- */

    /** prev = ngx_slab_page_prev(page); prev->next = page->next; page->next->prev = page->prev; */
    method UnlinkPage(x: nat)
      requires x < table.Length && 0 <= table[x].prev < table.Length && 0 <= table[x].next < table.Length
      requires table[x].prev != x
      modifies table
      ensures table[..] == Unlink(old(table[..]), x)
    {
      var prev := table[x].prev;
      table[prev] := table[prev].(next := table[x].next);
      var next := table[x].next;
      table[next] := table[next].(prev := table[x].prev, tag := table[x].tag);
    }

    /** The run x of m pages leaves whatever it was. */
    method DetachRun(x: nat, m: nat, ghost i: nat)
      requires P().CanDetach(x, m, i)
      modifies this`pfree, this`l, this`own, table
      ensures P() == old(P().Detach(x, m, i)) && pfree == old(pfree) + m
    {
      ghost var p := P();
      pfree := pfree + m;
      table[x] := table[x].(slab := m);
      ghost var t0 := table[..];
      forall y | x < y < x + m {
        table[y] := Desc(PAGE_FREE, NULL, NULL, PAGE);
      }
      assert table[..] == Pages.Zeroed(t0, x + 1, x + m);
      if table[x].next != NULL {
        UnlinkPage(x);
      }
      l := if p.own[x].Chunks? then p.l.Removed(x, i) else p.l;
      own := p.SetOwn(x, x + m, Loose(x, m));
    }

    method JoinRightRun(x: nat, m: nat, ghost i: nat) returns (total: nat)
      requires P().CanJoinRight(x, m, i) && table[x].slab == m && table[x + m].slab == own[x + m].len
      modifies this`l, this`own, table
      ensures P() == old(P().JoinRight(x, m, i)) && total == m + old(own[x + m].len)
    {
      ghost var p := P();
      var join := x + m;
      table[x] := table[x].(slab := table[x].slab + table[join].slab);
      UnlinkPage(join);
      table[join] := Desc(PAGE_FREE, NULL, NULL, PAGE);
      total := table[x].slab;
      l := p.l.Removed(join, i);
      own := p.SetOwn(x, x + (m + p.own[join].len), Loose(x, m + p.own[join].len));
    }

    method JoinLeftRun(x: nat, m: nat, h: nat, ghost i: nat)
      requires P().CanJoinLeft(x, m, i) && h == own[x - 1].head
      modifies this`l, this`own, table
      ensures P() == old(P().JoinLeft(x, m, i))
    {
      ghost var p := P();
      table[h] := table[h].(slab := table[h].slab + table[x].slab);
      UnlinkPage(h);
      table[x] := Desc(PAGE_FREE, NULL, NULL, PAGE);
      l := p.l.Removed(h, i);
      own := p.SetOwn(h, x + m, Loose(h, x + m - h));
    }

    method FinishRun(x: nat, m: nat)
      requires P().CanFinish(x, m) && table.Length == l.n + |l.lists|
      modifies this`l, this`own, table
      ensures P() == old(P().Finish(x, m))
    {
      ghost var p := P();
      if m > 1 {
        table[x + m - 1] := table[x + m - 1].(prev := x, tag := PAGE);
      }
      var free := table.Length - 1;
      table[x] := table[x].(prev := free, tag := PAGE);
      table[x] := table[x].(next := table[free].next);
      var next := table[x].next;
      table[next] := table[next].(prev := x, tag := PAGE);
      table[free] := table[free].(next := x);
      l := p.l.Added(x, p.FreeList());
      own := p.SetOwn(x, x + m, FreeRun(x, m));
    }

    /** A free run right behind the loose run joins it. */
    method MergeRight(x: nat, m: nat, ghost p0: Pages, ghost x0: nat, ghost m0: nat) returns (total: nat)
      requires Running(p0, P(), x0, m0, x, m) && g.pages == l.n
      modifies this`l, this`own, table
      ensures Running(p0, P(), x0, m0, x, total) && RightDone(P(), x, total)
    {
      hide Pages.Valid;
      hide Pages.KeptOutside;
      total := m;
      LooseSize(P(), x, m);
      var join := x + table[x].slab;
      if join < g.pages {
        P().RightTest(x, m);
        if table[join].tag == PAGE {
          if table[join].next != NULL {
            ghost var i := RightStage(p0, P(), x0, m0, x, m);
            total := JoinRightRun(x, m, i);
          }
        }
      }
    }

    /** The loose run joins a free run right before it. */
    method MergeLeft(x: nat, m: nat, ghost p0: Pages, ghost x0: nat, ghost m0: nat) returns (first: nat, total: nat)
      requires Running(p0, P(), x0, m0, x, m) && RightDone(P(), x, m)
      modifies this`l, this`own, table
      ensures Running(p0, P(), x0, m0, first, total) && RightDone(P(), first, total) && LeftDone(P(), first)
    {
      hide Pages.Valid;
      hide Pages.KeptOutside;
      first, total := x, m;
      LooseSize(P(), x, m);
      if x > 0 {
        P().LeftTest(x, m);
        var join := x - 1;
        if table[join].tag == PAGE {
          if table[join].slab == PAGE_FREE {
            join := table[join].prev;
          }
          if table[join].next != NULL {
            ghost var i := LeftStage(p0, P(), x0, m0, x, m);
            JoinLeftRun(x, m, join, i);
            first, total := join, x + m - join;
          }
        }
      }
    }

    /** ngx_slab_free_pages */
    method FreePages(page: nat, pages: nat)
      requires Settled(P()) && g.pages == l.n && Freeable(P(), page, pages)
      modifies this`pfree, this`l, this`own, table
      ensures Freed(old(P()), P(), page, pages)
      ensures pfree == old(pfree) + pages
    {
      hide Pages.Valid;
      hide Pages.KeptOutside;
      ghost var p0 := P();
      ghost var i := DetachStage(p0, page, pages);
      DetachRun(page, pages, i);
      var m := MergeRight(page, pages, p0, page, pages);
      var x;
      x, m := MergeLeft(page, m, p0, page, pages);
      LooseSize(P(), x, m);
      FinishStage(p0, P(), page, pages, x, m);
      FinishRun(x, m);
    }

    /** The rest of a run takes its place on the free list. */
    method CutRest(x: nat, m: nat, ghost i: nat)
      requires P().CanTake(x, m, i) && m < table[x].slab == own[x].len && table[x].next != x && table[x].prev != x + m
      requires table[x].next != x + m
      modifies table
      ensures table[..] == Substitute(old(P().Split(x, m)), x, x + m)
    {
      var rest, last := x + m, x + table[x].slab - 1;
      table[last] := table[last].(prev := rest, tag := PAGE);
      table[rest] := table[rest].(slab := table[x].slab - m);
      assert table[..] == old(P().Split(x, m));
      table[rest] := table[rest].(next := table[x].next);
      table[rest] := table[rest].(prev := table[x].prev, tag := table[x].tag);
      var prev := table[x].prev;
      table[prev] := table[prev].(next := rest);
      var next := table[x].next;
      table[next] := table[next].(prev := rest, tag := PAGE);
    }

    /** The first page of a run of m pages is cut off its run, and the rest of the run stays listed. */
    method TakeRun(x: nat, m: nat, ghost i: nat)
      requires P().CanTake(x, m, i) && table[x].slab == own[x].len && table[x].next != x
      requires m < own[x].len ==> table[x].prev != x + m && table[x].next != x + m
      modifies this`pfree, this`l, this`own, table
      ensures P() == old(P().Take(x, m, i)) && pfree == old(pfree) - m
    {
      ghost var after := P().Take(x, m, i);
      ghost var taken := P().TakenTable(x, m, i);
      if table[x].slab > m {
        CutRest(x, m, i);
      } else {
        UnlinkPage(x);
      }
      assert table[..] == taken;
      table[x] := Desc(m + PAGE_START, NULL, NULL, PAGE);
      pfree := pfree - m;
      MarkBusy(x + 1, x + m);
      l, own := after.l, after.own;
    }

    method MarkBusy(lo: nat, hi: nat)
      requires lo <= hi <= table.Length
      modifies table
      ensures table[..] == Pages.Filled(old(table[..]), lo, hi, Desc(PAGE_BUSY, NULL, NULL, PAGE))
    {
      var p := lo;
      while p < hi
        invariant lo <= p <= hi
        invariant table[..] == Pages.Filled(old(table[..]), lo, p, Desc(PAGE_BUSY, NULL, NULL, PAGE))
      {
        table[p] := Desc(PAGE_BUSY, NULL, NULL, PAGE);
        p := p + 1;
      }
    }

    /** ngx_slab_alloc_pages: the first run on the free list that is long enough. */
    method AllocPages(pages: nat) returns (page: int, ghost i: nat)
      requires Settled(P()) && g.pages == l.n && 0 < pages
      modifies this`pfree, this`l, this`own, table
      ensures page == NULL ==> NoRun(P(), pages) && P() == old(P()) && pfree == old(pfree)
      ensures page != NULL ==>
        && FirstFit(old(P()), page, pages, i) && old(P()).CanTake(page, pages, i)
        && P() == old(P()).Take(page, pages, i) && pfree == old(pfree) - pages
    {
      hide Pages.Valid;
      var free := table.Length - 1;
      i := 0;
      ghost var p := P();
      Walk(p, 0);
      page := table[free].next;
      while page != free
        invariant P() == p && pfree == old(pfree)
        invariant i <= |p.FreeRuns()| && page == Elt(free, p.FreeRuns(), i) && TooShort(p, pages, i)
        decreases |p.FreeRuns()| - i
      {
        Walk(p, i);
        if table[page].slab >= pages {
          TakeLinks(p, page, pages, i);
          TakeRun(page, pages, i);
          return;
        }
        page := table[page].next;
        i := i + 1;
      }
      Walk(p, i);
      NothingFits(p, pages);
      page := NULL;
    }

    /* ---- chunks ---- */

    /** The page behind a slot holds a free chunk: its bit is set, and a page without free chunks leaves the slot. */
    method HandOut(x: nat, slot: nat) returns (j: nat)
      requires S().Valid() && words.Length == g.pages && slot < g.Slots() && FirstOf(P(), x, slot) && S().Page(x)
      requires own[x] == Own.Chunks(g.minShift + slot) && S().Chunks(x).Valid() && !S().Chunks(x).Full()
      modifies this`l, table, words
      ensures j < old(S().Chunks(x)).Count() && !old(S().Chunks(x)).Taken(j)
      ensures forall k {:trigger old(S().Chunks(x)).Taken(k)} :: 0 <= k < j ==> old(S().Chunks(x)).Taken(k)
      ensures S() == old(S()).Handed(x, slot, j)
    {
      hide Slab.Valid;
      hide Pages.Valid;
      hide C.Chunks.Taken;
      ghost var s := S();
      var c := C.Chunks(g, g.minShift + slot, table[x].slab, words[x]);
      j := c.FirstClear();
      var c1 := c.Marked(j);
      MarkedUpTo(c, j);
      if c1.Small() {
        words[x] := c1.words;
      } else {
        table[x] := table[x].(slab := c1.slab);
      }
      assert words[..] == s.words[x := c1.words];
      assert table[..] == Reslabbed(s.p, x, c1.slab).t;
      var full := c1.Exhausted(j);
      if full {
        UnlinkPage(x);
        table[x] := table[x].(next := NULL, prev := NULL);
        l := l.Removed(x, 0);
      }
    }

    lemma MarkedUpTo(c: C.Chunks, j: nat)
      requires c.Valid() && j < c.Count() && forall k {:trigger c.Taken(k)} :: 0 <= k < j ==> c.Taken(k)
      ensures c.Marked(j).Valid() && forall k {:trigger c.Marked(j).Taken(k)} :: 0 <= k <= j ==> c.Marked(j).Taken(k)
    {
      hide C.Chunks.Taken;
      c.MarkedValid(j);
      forall k | 0 <= k <= j ensures c.Marked(j).Taken(k) {
        c.MarkedTaken(j, k);
      }
    }

    /** The bits of a new page of small chunks: the chunks of the bitmap and the first chunk behind them. */
    method FreshBitmap(shift: nat, page: seq<nat>) returns (bitmap: seq<nat>)
      requires g.Valid() && g.ShiftOk(shift) && shift < g.ExactShift() && |page| == g.PageWords()
      ensures bitmap == C.Chunks(g, shift, 0, page).Fresh().words
    {
      hide Ones;
      ghost var c := C.Chunks(g, shift, 0, page);
      g.ReservedFits(shift);
      c.WordInMap(g.Reserved(shift) + 1);
      bitmap := page;
      var n := g.Reserved(shift);
      var i := 0;
      while i < (n + 1) / WORD_BITS
        invariant i <= (n + 1) / WORD_BITS && |bitmap| == |page|
        invariant forall k :: 0 <= k < i ==> bitmap[k] == c.FreshWord(k)
        invariant forall k :: i <= k < |page| ==> bitmap[k] == page[k]
      {
        bitmap := bitmap[i := Ones(WORD_BITS)];
        i := i + 1;
      }
      bitmap := bitmap[i := Ones((n + 1) % WORD_BITS)];
      i := i + 1;
      while i < g.MapWords(shift)
        invariant (n + 1) / WORD_BITS < i <= g.MapWords(shift) && |bitmap| == |page|
        invariant forall k :: 0 <= k < i ==> bitmap[k] == c.FreshWord(k)
        invariant forall k :: i <= k < |page| ==> bitmap[k] == page[k]
      {
        bitmap := bitmap[i := 0];
        i := i + 1;
      }
      assert bitmap == c.Fresh().words;
    }

    /** A page just taken becomes the only page of its slot. */
    method OpenPage(x: nat, slot: nat)
      requires g.Valid() && slot < g.Slots() && l.n == g.pages == words.Length == |own| && x < g.pages
      requires |words[x]| == g.PageWords()
      requires CanRelist(P(), x, slot) && l.tags[slot] == g.TypeOf(g.minShift + slot)
      modifies this`l, this`own, table, words
      ensures var c := C.Chunks(g, g.minShift + slot, 0, old(words[x])).Fresh();
        words[..] == old(words[..])[x := c.words] && P() == Converted(old(P()), x, slot, c.slab, c.shift)
    {
      hide SetBit;
      var shift := g.minShift + slot;
      ghost var p := P();
      ghost var c := C.Chunks(g, shift, 0, words[x]).Fresh();
      var head := g.pages + slot;
      var slab;
      if shift < g.ExactShift() {
        words[x] := FreshBitmap(shift, words[x]);
        slab := shift;
      } else if shift == g.ExactShift() {
        slab := SetBit(0, 0);
      } else {
        slab := SetBit(shift, C.HALF_BITS);
      }
      assert words[..] == old(words[..])[x := c.words];
      table[x] := Desc(slab, head, head, g.TypeOf(shift));
      table[head] := table[head].(next := x);
      l := l.Added(x, slot);
      own := own[x := Own.Chunks(shift)];
      assert table[..] == Converted(p, x, slot, slab, shift).t;
    }

    /* ---- ngx_slab_alloc_locked ---- */

    /** A block of whole pages. */
    method AllocBlock(pages: nat) returns (a: int)
      requires Valid() && 0 < pages
      modifies this`pfree, this`l, this`own, table
      ensures Valid()
      ensures a == NULL ==> S() == old(S()) && NoRun(P(), pages)
      ensures a != NULL ==> a >= 0 && Adds(g, old(Held()), Held(), a, Bytes(g, pages))
    {
      hide Slab.Valid;
      hide Pages.Valid;
      ghost var s := S();
      SizedOf(s);
      var page, i := AllocPages(pages);
      if page == NULL {
        return NULL;
      }
      TakeLinks(s.p, page, pages, i);
      s.TakenBlock(page, pages, i);
      assert S() == Slab(g, s.p.Take(page, pages, i), s.words);
      FewerFree(s.p, P(), page, pages);
      BlocksOnly(g, s.Contents(), stats[..], page, Block(pages));
      AddBlock(g, s.Contents(), Held(), page, pages);
      a := page * g.PageSize();
    }

    static lemma SizedOf(s: Slab)
      requires s.Valid()
      ensures s.Sized() && Settled(s.p) && s.g.Valid() && s.p.l.n == s.g.pages == |s.p.own|
      ensures |s.p.t| == s.g.pages + |s.p.l.lists| && |s.p.l.lists| == s.g.Slots() + 1
    {
      s.SettledSize();
    }

    /** What handing out a chunk of a listed page does to the pool. */
    static lemma Handing(s: Slab, x: nat, slot: nat, j: nat, stats: seq<Stat>, st: Stat)
      requires s.Valid() && slot < s.g.Slots() && FirstOf(s.p, x, slot) && s.Page(x)
      requires s.p.own[x] == Own.Chunks(s.g.minShift + slot)
      requires s.Chunks(x).Valid() && j < s.Chunks(x).Count() && !s.Chunks(x).Taken(j)
      requires |stats| == s.g.Slots() && StatsOk(s.g, s.Contents(), stats)
      requires st == stats[slot].(used := stats[slot].used + 1)
      ensures var after := s.Handed(x, slot, j);
        && after.Valid() && after.p.FreeSet() == s.p.FreeSet() && StatsOk(s.g, after.Contents(), stats[slot := st])
        && Adds(s.g, s.Contents(), after.Contents(), Address(s.g, x, s.g.minShift + slot, j), Pow2(s.g.minShift + slot))
    {
      hide Pages.Valid;
      hide C.Chunks.Taken;
      hide C.Chunks.Live;
      hide Address;
      hide Adds;
      hide StatsOk;
      hide Slab.Contents;
      hide Slab.Handed;
      s.HandedKeeps(x, slot, j);
      var c, shift, after := s.Chunks(x), s.g.minShift + slot, s.Handed(x, slot, j);
      SameOwners(s.p, after.p);
      AddedOne(c, j);
      StatsAdd(s.g, s.Contents(), stats, x, slot, c.Live(), j, st);
      AddPiece(s.g, s.Contents(), after.Contents(), x, shift, c.Live(), j);
    }

    /** A chunk of the first page of a slot. */
    method FromListed(x: nat, slot: nat) returns (a: nat)
      requires Valid() && slot < g.Slots() && l.lists[slot] != [] && x == l.lists[slot][0]
      modifies this`l, table, words, stats
      ensures Valid() && Adds(g, old(Held()), Held(), a, Pow2(g.minShift + slot))
      ensures CountedOnly(old(stats[..]), stats[..], slot)
    {
      hide Slab.Sized;
      hide C.Chunks.Full;
      hide Slab.Valid;
      hide Pages.Valid;
      hide Slab.Handed;
      hide C.Chunks.Taken;
      hide Address;
      hide StatsOk;
      hide Adds;
      ghost var s := S();
      s.FirstListed(slot);
      var j := HandOut(x, slot);
      StatsSize(g, s.Contents(), stats[..]);
      Handing(s, x, slot, j, stats[..], stats[slot].(used := stats[slot].used + 1));
      stats[slot] := stats[slot].(used := stats[slot].used + 1);
      assert stats[..] == old(stats[..])[slot := stats[slot]];
      a := Address(g, x, g.minShift + slot, j);
    }

    static lemma StatsSize(g: Geometry, h: seq<Content>, stats: seq<Stat>)
      requires StatsOk(g, h, stats)
      ensures |stats| == g.Slots()
    {
    }

    /** Whether only the counters that do not depend on the blocks changed, but for one slot. */
    static predicate CountedOnly(before: seq<Stat>, after: seq<Stat>, slot: nat)
      requires slot < |before|
    {
      && |after| == |before| && after[slot].reqs == before[slot].reqs && after[slot].fails == before[slot].fails
      && forall k :: 0 <= k < |before| && k != slot ==> after[k] == before[k]
    }

    /** One chunk less is counted. */
    static function Uncounted(before: seq<Stat>, slot: nat): seq<Stat>
      requires slot < |before|
    {
      before[slot := before[slot].(used := before[slot].used - 1)]
    }

    static lemma AddedOne(c: C.Chunks, j: nat)
      requires c.Shape() && j < c.Count() && !c.Taken(j)
      ensures j !in c.Live() && |c.Live() + {j}| == |c.Live()| + 1
    {
    }

    static lemma SameOwners(p: Pages, after: Pages)
      requires after.own == p.own
      ensures after.FreeSet() == p.FreeSet()
    {
    }

    static lemma OpenReady(s: Slab, x: nat, i: nat, slot: nat)
      requires s.Valid() && s.Page(x) && slot < s.g.Slots() && FirstFit(s.p, x, 1, i)
      ensures s.p.CanTake(x, 1, i) && CanRelist(s.p.Take(x, 1, i), x, slot) && |s.words[x]| == s.g.PageWords()
      ensures s.p.Take(x, 1, i).l.tags[slot] == s.g.TypeOf(s.g.minShift + slot)
      ensures s.p.Take(x, 1, i).l.n == s.g.pages == |s.p.Take(x, 1, i).own|
    {
      hide Lists.Linked;
      s.NewReady(x, i, s.g.minShift + slot);
      s.SlotType(slot);
      assert s.Good(x);
    }

    /** What a new page of chunks does to the pool. */
    static lemma Opening(s: Slab, x: nat, i: nat, slot: nat, stats: seq<Stat>, st: Stat)
      requires s.Valid() && s.Page(x) && slot < s.g.Slots() && FirstFit(s.p, x, 1, i) && s.p.l.lists[slot] == []
      requires |stats| == s.g.Slots() && StatsOk(s.g, s.Contents(), stats)
      requires st ==
          stats[slot].(used := stats[slot].used + 1, total := stats[slot].total + Capacity(s.g, s.g.minShift + slot))
      requires s.p.CanTake(x, 1, i) && CanRelist(s.p.Take(x, 1, i), x, slot) && |s.words[x]| == s.g.PageWords()
      ensures var after, shift := s.NewChunks(x, i, s.g.minShift + slot), s.g.minShift + slot;
        && after.Valid() && |after.p.FreeSet()| == |s.p.FreeSet()| - 1
        && StatsOk(s.g, after.Contents(), stats[slot := st])
        && Adds(s.g, s.Contents(), after.Contents(), Address(s.g, x, shift, s.g.Reserved(shift)), Pow2(shift))
    {
      hide Slab.Contents;
      hide Slab.NewChunks;
      hide Lists.Linked;
      hide Pages.Valid;
      hide Pages.Take;
      hide Pages.CanTake;
      hide C.Chunks.Valid;
      hide Address;
      hide Adds;
      hide StatsOk;
      hide Capacity;
      var shift := s.g.minShift + slot;
      s.NewKeeps(x, i, shift);
      s.g.ReservedFits(shift);
      var after := s.NewChunks(x, i, shift);
      var none: set<nat>, j := {}, s.g.Reserved(shift);
      assert none + {j} == {j};
      StatsAdd(s.g, s.Contents(), stats, x, slot, none, j, st);
      AddPiece(s.g, s.Contents(), after.Contents(), x, shift, none, j);
      NewSize(s, x, i, slot);
    }

    static lemma NewSize(s: Slab, x: nat, i: nat, slot: nat)
      requires s.Valid() && s.Page(x) && slot < s.g.Slots() && FirstFit(s.p, x, 1, i) && s.p.l.lists[slot] == []
      requires s.p.CanTake(x, 1, i) && CanRelist(s.p.Take(x, 1, i), x, slot) && |s.words[x]| == s.g.PageWords()
      ensures |s.NewChunks(x, i, s.g.minShift + slot).p.FreeSet()| == |s.p.FreeSet()| - 1
    {
      hide Unlink;
      hide Pages.Cell;
      hide Lists.Linked;
      hide Slab.Contents;
      hide Slab.Valid;
      var shift, p := s.g.minShift + slot, s.p.Take(x, 1, i);
      s.NewReady(x, i, shift);
      TakeLinks(s.p, x, 1, i);
      FewerFree(s.p, p, x, 1);
      var after := s.NewChunks(x, i, shift).p;
      forall y | 0 <= y < |p.own| ensures p.InUse(y) <==> after.InUse(y) {
      }
      assert after.FreeSet() == p.FreeSet();
    }

    /** A chunk of a new page. */
    method FromNew(slot: nat) returns (a: int)
      requires Valid() && slot < g.Slots() && l.lists[slot] == []
      modifies this`pfree, this`l, this`own, table, words, stats
      ensures Valid()
      ensures a == NULL ==> S() == old(S()) && NoRun(P(), 1) && stats[..] == old(stats[..])
      ensures a != NULL ==> a >= 0 && Adds(g, old(Held()), Held(), a, Pow2(g.minShift + slot))
      ensures a != NULL ==> |old(stats[..])| > slot && CountedOnly(old(stats[..]), stats[..], slot)
    {
      hide Pow2;
      hide Geometry.TypeOf;
      hide Settled;
      hide Slab.Good;
      hide C.Chunks.Shape;
      hide C.Chunks.Fresh;
      hide Pages.Take;
      hide Pages.CanTake;
      hide Converted;
      hide CanRelist;
      hide TooShort;
      hide Slab.Contents;
      hide Slab.Valid;
      hide Pages.Valid;
      hide StatsOk;
      hide Adds;
      hide Address;
      hide Capacity;
      ghost var s := S();
      SizedOf(s);
      StatsSize(g, s.Contents(), stats[..]);
      var page, i := AllocPages(1);
      if page == NULL {
        return NULL;
      }
      var shift := g.minShift + slot;
      var st := stats[slot].(used := stats[slot].used + 1, total := stats[slot].total + Capacity(g, shift));
      OpenReady(s, page, i, slot);
      Opening(s, page, i, slot, stats[..], st);
      OpenPage(page, slot);
      assert S() == s.NewChunks(page, i, shift);
      stats[slot] := st;
      assert stats[..] == old(stats[..])[slot := st];
      a := Address(g, page, shift, g.Reserved(shift));
    }

    method CountRequest(slot: nat)
      requires Valid() && slot < g.Slots()
      modifies stats
      ensures Valid() && S() == old(S()) && stats.Length == g.Slots()
      ensures stats[..] == old(stats[..])[slot := old(stats[slot]).(reqs := old(stats[slot]).reqs + 1)]
    {
      hide Pages.Valid;
      StatsSame(g, Held(), stats[..], slot, stats[slot].(reqs := stats[slot].reqs + 1));
      ghost var before := stats[..];
      stats[slot] := stats[slot].(reqs := stats[slot].reqs + 1);
      assert stats[..] == before[slot := stats[slot]];
    }

    method CountFailure(slot: nat)
      requires Valid() && slot < g.Slots()
      modifies stats
      ensures Valid() && S() == old(S()) && stats.Length == g.Slots()
      ensures stats[..] == old(stats[..])[slot := old(stats[slot]).(fails := old(stats[slot]).fails + 1)]
    {
      hide Pages.Valid;
      StatsSame(g, Held(), stats[..], slot, stats[slot].(fails := stats[slot].fails + 1));
      ghost var before := stats[..];
      stats[slot] := stats[slot].(fails := stats[slot].fails + 1);
      assert stats[..] == before[slot := stats[slot]];
    }

    /** A chunk from slot's list, or from a new page when the list is empty. */
    method AllocChunk(slot: nat) returns (a: int)
      requires Valid() && slot < g.Slots()
      modifies this`pfree, this`l, this`own, table, words, stats
      ensures Valid()
      ensures a == NULL ==> S() == old(S()) && pfree == 0 && NoneClear(g, Held(), g.minShift + slot)
      ensures a != NULL ==> a >= 0 && Adds(g, old(Held()), Held(), a, Pow2(g.minShift + slot))
      ensures stats.Length == g.Slots() && Requested(old(stats[..]), stats[..], slot, a == NULL)
    {
      hide Slab.Valid;
      hide Pages.Valid;
      hide StatsOk;
      hide Adds;
      hide NoneClear;
      CountRequest(slot);
      ghost var s := S();
      SizedOf(s);
      var head := g.pages + slot;
      SlotTest(s.p, slot);
      var page := table[head].next;
      if table[page].next != page {
        a := FirstFromListed(page, slot);
        return;
      }
      a := FromNew(slot);
      if a != NULL {
        return;
      }
      NoFreePage(P());
      AllTaken(S(), slot);
      CountFailure(slot);
    }

    method FirstFromListed(x: int, slot: nat) returns (a: nat)
      requires Valid() && slot < g.Slots() && slot < |l.lists| && l.lists[slot] != [] && x == l.lists[slot][0]
      modifies this`l, table, words, stats
      ensures Valid() && Adds(g, old(Held()), Held(), a, Pow2(g.minShift + slot))
      ensures |old(stats[..])| > slot && CountedOnly(old(stats[..]), stats[..], slot)
    {
      hide Slab.Valid;
      hide Adds;
      S().FirstListed(slot);
      a := FromListed(x, slot);
    }

    /** One request on a slot, failed or not. */
    static predicate Requested(before: seq<Stat>, after: seq<Stat>, slot: nat, failed: bool)
      requires slot < |before|
    {
      && |after| == |before| && after[slot].reqs == before[slot].reqs + 1
      && after[slot].fails == before[slot].fails + (if failed then 1 else 0)
      && forall k :: 0 <= k < |before| && k != slot ==> after[k] == before[k]
    }

    /** The slot for a size: the least chunk size of the pool that is not smaller. */
    method SlotFor(size: nat) returns (slot: nat)
      requires g.Valid() && size <= g.PageSize() / 2
      ensures slot < g.Slots() && size <= Pow2(g.minShift + slot)
      ensures slot > 0 ==> Pow2(g.minShift + slot - 1) < size
    {
      if size <= Pow2(g.minShift) {
        return 0;
      }
      var shift: nat, s: nat := 1, (size - 1) / 2;
      assert Pow2(1) == 2 && Scaled(s, 2, size - 1);
      while s != 0
        invariant shift > 0 && Scaled(s, Pow2(shift), size - 1) && Pow2(shift - 1) <= size - 1
      {
        Halve(s, Pow2(shift), size - 1);
        shift := shift + 1;
        s := s / 2;
      }
      ShiftBounds(g, shift, size);
      slot := shift - g.minShift;
    }

    /** s == n / d */
    static predicate Scaled(s: nat, d: nat, n: int) {
      s * d <= n < (s + 1) * d
    }

    static lemma Halve(s: nat, d: nat, n: nat)
      requires s > 0 && d > 0 && Scaled(s, d, n)
      ensures d <= n && Scaled(s / 2, 2 * d, n)
    {
      assert s / 2 * 2 == s || s / 2 * 2 + 1 == s;
      assert s / 2 * (2 * d) == s / 2 * 2 * d;
      assert (s / 2 + 1) * (2 * d) == (s / 2 * 2 + 2) * d;
    }

    static lemma ShiftBounds(g: Geometry, shift: nat, size: nat)
      requires g.Valid() && shift > 0 && Pow2(g.minShift) < size <= g.PageSize() / 2
      requires Pow2(shift - 1) < size <= Pow2(shift)
      ensures g.minShift < shift < g.pageShift
    {
      if shift <= g.minShift {
        if shift < g.minShift {
          Pow2Less(shift, g.minShift);
        }
      } else if shift >= g.pageShift {
        if shift > g.pageShift {
          Pow2Less(g.pageShift - 1, shift - 1);
        }
      }
    }

    /** Whether blocks for a request of a size are blocks of pages, and how many pages there are in one. */
    function PagesFor(size: nat): nat
      requires g.Valid()
    {
      Div(size, g.PageSize()) + if size % g.PageSize() != 0 then 1 else 0
    }

    /** The least number of pages that will do, from one free run. */
    method AllocLarge(size: nat) returns (a: int)
      requires Valid() && size > 0
      modifies this`pfree, this`l, this`own, table
      ensures Valid()
      ensures a == NULL ==> S() == old(S())
      ensures a == NULL ==> forall n: nat {:trigger NoRun(P(), n)} :: size <= n * g.PageSize() ==> NoRun(P(), n)
      ensures a != NULL ==>
        && a >= 0 && Live(g, Held(), a) && Adds(g, old(Held()), Held(), a, Size(g, Held(), a))
        && size <= Size(g, Held(), a) < size + g.PageSize() && Size(g, Held(), a) % g.PageSize() == 0
    {
      hide Slab.Valid;
      hide StatsOk;
      hide Adds;
      hide NoRun;
      hide Live;
      hide Size;
      SizedOf(S());
      ghost var h := Held();
      LeastPages(size);
      var pages := PagesFor(size);
      a := AllocBlock(pages);
      SizedOf(S());
      hide PagesFor;
      hide Bytes;
      if a != NULL {
        Added(g, h, Held(), a, Bytes(g, pages));
      } else {
        NoneForMore(size);
      }
    }

    lemma LeastPages(size: nat)
      requires g.Valid() && size > 0
      ensures PagesFor(size) > 0 && size <= Bytes(g, PagesFor(size)) < size + g.PageSize()
      ensures Bytes(g, PagesFor(size)) % g.PageSize() == 0
    {
      EnoughPages(size, g.PageSize());
    }

    lemma NoneForMore(size: nat)
      requires g.Valid() && NoRun(P(), PagesFor(size))
      ensures forall n: nat {:trigger NoRun(P(), n)} :: size <= n * g.PageSize() ==> NoRun(P(), n)
    {
      hide NoRun;
      forall n: nat {:trigger NoRun(P(), n)} | size <= n * g.PageSize() ensures NoRun(P(), n) {
        MorePages(size, g.PageSize(), n);
        NoRunMore(P(), PagesFor(size), n);
      }
    }

    /** ngx_slab_alloc_locked. The block is new, at least as large as requested and, if it is made of chunks,
        of the least size that will do; there is none only when no chunk or run of pages is free that would do. */
    method AllocLocked(size: nat) returns (a: int, ghost slot: nat)
      requires Valid()
      modifies this`pfree, this`l, this`own, table, words, stats
      ensures Valid()
      ensures a == NULL ==> S() == old(S())
      ensures size > g.PageSize() / 2 ==>
        && stats[..] == old(stats[..])
        && if a == NULL then forall n: nat {:trigger NoRun(P(), n)} :: size <= n * g.PageSize() ==> NoRun(P(), n)
           else a >= 0 && Live(g, Held(), a) && Adds(g, old(Held()), Held(), a, Size(g, Held(), a))
                && size <= Size(g, Held(), a) < size + g.PageSize() && Size(g, Held(), a) % g.PageSize() == 0
      ensures size <= g.PageSize() / 2 ==>
        && slot < g.Slots() == stats.Length && size <= Pow2(g.minShift + slot)
        && (slot > 0 ==> Pow2(g.minShift + slot - 1) < size)
        && Requested(old(stats[..]), stats[..], slot, a == NULL)
        && if a == NULL then pfree == 0 && NoneClear(g, Held(), g.minShift + slot)
           else a >= 0 && Adds(g, old(Held()), Held(), a, Pow2(g.minShift + slot))
    {
      hide Slab.Valid;
      hide StatsOk;
      hide Adds;
      hide NoRun;
      hide Live;
      hide Size;
      slot := 0;
      SizedOf(S());
      if size > g.PageSize() / 2 {
        a := AllocLarge(size);
      } else {
        var k := SlotFor(size);
        a := AllocChunk(k);
        slot := k;
      }
    }

    /** The pages for a block are enough, and one page less is not. */
    static lemma EnoughPages(size: nat, d: nat)
      requires d > 0
      ensures var n := Div(size, d) + if size % d != 0 then 1 else 0;
        size <= n * d < size + d && (size > 0 ==> n > 0) && (n * d) % d == 0
    {
      var n := Div(size, d) + if size % d != 0 then 1 else 0;
      Multiples(n, d);
    }

    static lemma MorePages(size: nat, d: nat, n: nat)
      requires d > 0 && size <= n * d
      ensures n >= Div(size, d) + if size % d != 0 then 1 else 0
    {
      var m := Div(size, d) + if size % d != 0 then 1 else 0;
      EnoughPages(size, d);
      if n < m {
        Below(n, m, d);
      }
    }

    static lemma NoRunMore(p: Pages, m: nat, n: nat)
      requires NoRun(p, m) && m <= n
      ensures NoRun(p, n)
    {
    }

    static lemma Added(g: Geometry, h: seq<Content>, h': seq<Content>, a: nat, size: nat)
      requires Adds(g, h, h', a, size)
      ensures Live(g, h', a) && Size(g, h', a) == size
    {
    }

    /* ---- ngx_slab_free_locked ---- */

    /** The page of chunks gives chunk j back; a page that was full goes back to its slot first. */
    method TakeBack(x: nat, j: nat) returns (empty: bool)
      requires S().Valid() && words.Length == g.pages && S().Page(x) && own[x].Chunks? && S().Chunks(x).Shape()
      requires j < S().Chunks(x).Count() && S().Chunks(x).Taken(j)
      modifies this`l, table, words
      ensures S() == old(S().ReturnedTo(x, j))
      ensures empty <==> old(S().Chunks(x).Cleared(j).LooksEmpty())
    {
      hide Slab.Valid;
      hide Pages.Valid;
      hide Ones;
      hide Pow2;
      hide ClearBit;
      hide C.Chunks.Full;
      hide C.Chunks.Live;
      hide Geometry.Reserved;
      hide Relisted;
      hide CanRelist;
      hide C.Chunks.Taken;
      hide C.Chunks.LooksEmpty;
      ghost var s := S();
      s.ReturnedReady(x);
      ShiftRead(s, x);
      var kind := table[x].tag;
      var shift := if kind == EXACT then g.ExactShift() else table[x].slab % 16;
      var slot := shift - g.minShift;
      var c := C.Chunks(g, shift, table[x].slab, words[x]);
      c.MarkedValid(j);
      if if kind == EXACT then table[x].slab == Ones(WORD_BITS) else table[x].next == NULL {
        Push(x, slot, kind);
      }
      ghost var q := P();
      var c1 := c.Cleared(j);
      if kind == SMALL {
        words[x] := c1.words;
      } else {
        table[x] := table[x].(slab := c1.slab);
      }
      assert words[..] == s.words[x := c1.words];
      assert P() == Reslabbed(q, x, c1.slab);
      empty := c1.Unused();
    }

    /** page->next = slots[slot].next; slots[slot].next = page; page->prev = slots[slot] | type;
        page->next->prev = page | type; */
    method Push(x: nat, slot: nat, kind: nat)
      requires CanRelist(P(), x, slot) && l.n == g.pages && kind == l.tags[slot]
      modifies this`l, table
      ensures P() == old(Relisted(P(), x, slot)) && table[x].slab == old(table[x].slab)
    {
      var head := g.pages + slot;
      table[x] := table[x].(next := table[head].next);
      table[head] := table[head].(next := x);
      table[x] := table[x].(prev := head, tag := kind);
      var next := table[x].next;
      table[next] := table[next].(prev := x, tag := kind);
      l := l.Added(x, slot);
    }

    /** The type, the shift and whether the page is full can be read off its descriptor. */
    static lemma ShiftRead(s: Slab, x: nat)
      requires s.Valid() && s.Page(x) && s.p.own[x].Chunks?
      ensures var shift, d := s.p.own[x].shift, s.p.t[x];
        && s.g.ShiftOk(shift) && d.tag == s.g.TypeOf(shift) && s.Chunks(x).Valid()
        && (shift != s.g.ExactShift() ==> d.slab % 16 == shift)
        && (s.Chunks(x).Full() <==> if shift == s.g.ExactShift() then d.slab == Ones(WORD_BITS) else d.next == NULL)
        && 0 <= s.Slot(shift) < s.g.Slots() && |s.p.l.tags| > s.Slot(shift) && s.p.l.tags[s.Slot(shift)] == d.tag
    {
      hide Pages.Valid;
      hide Ones;
      assert s.Good(x);
      var shift, d := s.p.own[x].shift, s.p.t[x];
      s.Chunks(x).FullTest();
      s.SlotType(s.Slot(shift));
      if shift > s.g.ExactShift() {
        LowShift(d.slab, shift);
      }
    }

    static lemma LowShift(slab: nat, shift: nat)
      requires slab % Pow2(C.HALF_BITS) == shift < 16
      ensures slab % 16 == shift
    {
      Pow2Add(C.HALF_BITS - 4, 4);
      assert Pow2(4) == 16;
      LowPart(slab, Pow2(C.HALF_BITS - 4), 16);
    }

    static lemma LowPart(n: nat, d: nat, e: nat)
      requires d > 0 && e > 0 && n % (d * e) < e
      ensures n % e == n % (d * e)
    {
      var q, r := n / (d * e), n % (d * e);
      assert n == q * (d * e) + r;
      assert q * (d * e) == (q * d) * e;
      Quotient(n, e, q * d, r);
    }

    /** What the return of chunk j does to what the pool holds. */
    static lemma Returning(s: Slab, x: nat, j: nat, h: seq<Content>, stats: seq<Stat>, st: Stat)
      requires s.Valid() && s.Page(x) && s.p.own[x].Chunks? && s.Chunks(x).Shape() && j in s.Chunks(x).Live()
      requires |stats| == s.g.Slots() && StatsOk(s.g, s.Contents(), stats)
      requires 0 <= s.Slot(s.p.own[x].shift) < s.g.Slots()
      requires h == s.Contents()[x :=
        if s.Chunks(x).Live() == {j} then Empty else Pieces(s.p.own[x].shift, s.Chunks(x).Live() - {j})]
      requires var slot := s.Slot(s.p.own[x].shift);
        st == stats[slot].(used := stats[slot].used - 1,
          total := stats[slot].total - if s.Chunks(x).Live() == {j} then Capacity(s.g, s.p.own[x].shift) else 0)
      ensures StatsOk(s.g, h, stats[s.Slot(s.p.own[x].shift) := st])
      ensures Adds(s.g, h, s.Contents(), Address(s.g, x, s.p.own[x].shift, j), Pow2(s.p.own[x].shift))
    {
      hide Pages.Valid;
      hide C.Chunks.Taken;
      hide C.Chunks.Valid;
      hide Capacity;
      hide Address;
      hide Adds;
      hide StatsOk;
      assert s.Good(x);
      var shift, live := s.p.own[x].shift, s.Chunks(x).Live();
      assert s.Contents()[x] == Pieces(shift, live);
      StatsRemove(s.g, s.Contents(), stats, x, s.Slot(shift), live, j, st);
      assert live - {j} + {j} == live;
      assert live == {j} ==> live - {j} == {};
      assert s.Contents() == h[x := Pieces(shift, live)];
      AddPiece(s.g, h, s.Contents(), x, shift, live - {j}, j);
    }

    /** The last chunk of a page came back: the page is free. */
    static lemma Emptied(s: Slab, s1: Slab, q: Pages, x: nat, c: C.Chunks)
      requires s.Valid() && s.Page(x) && s.p.own[x].Chunks? && s.ReturnedOk(s1, x, c) && Freed(s1.p, q, x, 1)
      ensures var after := Slab(s.g, q, s1.words);
        && after.Valid() && after.Contents() == s.Contents()[x := Empty] && |q.FreeSet()| == |s.p.FreeSet()| + 1
    {
      hide Pow2;
      hide Pages.Valid;
      s.KeptBoth(s1.p, q, x);
      var after := Slab(s.g, q, s1.words);
      assert s1.Sized();
      assert after.Sized();
      assert !q.InUse(x);
      s.FreedRun(after, x, 1);
      SameOwners(s.p, s1.p);
      MoreFree(s1.p, q, x, 1);
    }

    /** A chunk that is taken comes back, and its page with it if it was the last. A chunk of the bitmap may come back
        like any other, but it should not. */
    method FreeChunk(x: nat, j: nat) returns (empty: bool)
      requires S().Valid() && words.Length == g.pages && pfree == |P().FreeSet()|
      requires S().Page(x) && own[x].Chunks? && S().Chunks(x).Shape() && j < S().Chunks(x).Count()
      requires S().Chunks(x).Taken(j)
      modifies this`pfree, this`l, this`own, table, words
      ensures j in old(S().Chunks(x).Live()) ==>
        && S().Valid() && pfree == |P().FreeSet()| && (empty <==> old(S().Chunks(x).Live()) == {j})
        && S().Contents() == old(S().Contents())[x :=
             if empty then Empty else Pieces(old(own[x].shift), old(S().Chunks(x).Live()) - {j})]
      ensures j !in old(S().Chunks(x).Live()) ==> !empty && S() == old(S().ReturnedTo(x, j)) && pfree == old(pfree)
    {
      hide Slab.Valid;
      hide Pages.Valid;
      hide C.Chunks.Valid;
      hide C.Chunks.Taken;
      hide C.Chunks.Cleared;
      hide Slab.Returned;
      hide CanRelist;
      hide C.Chunks.LooksEmpty;
      ghost var s := S();
      s.ReturnedReady(x);
      ghost var c := s.Chunks(x).Cleared(j);
      LiveOrReserved(s, x, j);
      empty := TakeBack(x, j);
      ghost var s1 := S();
      if empty {
        OnItsList(s, s1, x, c);
        FreePages(x, 1);
        Emptied(s, s1, P(), x, c);
      } else if j in s.Chunks(x).Live() {
        s.ReturnedValid(x, s1);
        SameOwners(s.p, s1.p);
      }
    }

    /** What the return of chunk j leaves, if it is live, and if it is one of the bitmap. */
    static lemma LiveOrReserved(s: Slab, x: nat, j: nat)
      requires s.Valid() && s.Page(x) && s.p.own[x].Chunks? && s.Chunks(x).Shape() && j < s.Chunks(x).Count()
      requires s.Chunks(x).Taken(j)
      ensures var after, c := s.ReturnedTo(x, j), s.Chunks(x).Cleared(j);
        if j in s.Chunks(x).Live() then
          s.ReturnedOk(after, x, c) && c.Live() == s.Chunks(x).Live() - {j}
            && (c.LooksEmpty() <==> s.Chunks(x).Live() == {j})
        else !c.LooksEmpty()
    {
      hide Pages.Valid;
      hide C.Chunks.Valid;
      hide C.Chunks.LooksEmpty;
      if j in s.Chunks(x).Live() {
        s.ReturnedReady(x);
        s.ReturnedKeeps(x, j);
        s.Chunks(x).Cleared(j).EmptyTest();
      } else {
        s.ReservedReturned(x, j);
      }
    }

    static lemma OnItsList(s: Slab, s1: Slab, x: nat, c: C.Chunks)
      requires s.Valid() && s.Page(x) && s.p.own[x].Chunks? && s.ReturnedOk(s1, x, c)
      ensures Settled(s1.p) && s1.g.pages == s1.p.l.n && Freeable(s1.p, x, 1)
    {
      s1.SettledSize();
      assert s.Good(x);
    }

    /** free_chunk and done: the counters follow. */
    method ReturnChunk(x: nat, j: nat)
      requires Valid() && S().Page(x) && own[x].Chunks? && S().Chunks(x).Shape() && j < S().Chunks(x).Count()
      requires S().Chunks(x).Taken(j)
      modifies this`pfree, this`l, this`own, table, words, stats
      ensures j in old(S().Chunks(x).Live()) ==>
        && Valid() && Adds(g, Held(), old(Held()), Address(g, x, old(own[x].shift), j), Pow2(old(own[x].shift)))
        && |Held()| == |old(Held())| && x < |Held()| && Held() == old(Held())[x := Held()[x]]
        && (Held()[x].Pieces? ==> Held()[x].shift == old(own[x].shift))
      ensures 0 <= old(own[x].shift) - g.minShift < |old(stats[..])|
      ensures CountedOnly(old(stats[..]), stats[..], old(own[x].shift) - g.minShift)
      ensures j !in old(S().Chunks(x).Live()) ==>
        && S() == old(S().ReturnedTo(x, j)) && pfree == old(pfree)
        && stats[..] == Uncounted(old(stats[..]), old(own[x].shift) - g.minShift)
    {
      hide Settled;
      hide Slab.ReturnedTo;
      hide C.Chunks.Shape;
      hide Slab.Valid;
      hide Pages.Valid;
      hide C.Chunks.Valid;
      hide C.Chunks.Taken;
      hide Pow2;
      hide Ones;
      hide C.Chunks.Live;
      hide C.Chunks.Full;
      hide Geometry.Reserved;
      hide StatsOk;
      hide Adds;
      hide Address;
      hide Capacity;
      ghost var s := S();
      SizedOf(s);
      StatsSize(g, s.Contents(), stats[..]);
      ShiftRead(s, x);
      var kind := table[x].tag;
      var shift := if kind == EXACT then g.ExactShift() else table[x].slab % 16;
      var slot := shift - g.minShift;
      var empty := FreeChunk(x, j);
      var st := stats[slot];
      if empty {
        st := st.(total := st.total - Capacity(g, shift));
      }
      st := st.(used := st.used - 1);
      if j in s.Chunks(x).Live() {
        SizedOf(S());
        Returning(s, x, j, S().Contents(), stats[..], st);
      }
      stats[slot] := st;
      assert stats[..] == old(stats[..])[slot := st];
    }

    /** A block of pages comes back. */
    method FreeBlock(x: nat, m: nat)
      requires Valid() && S().Page(x) && own[x] == Allocated(x, m)
      modifies this`pfree, this`l, this`own, table
      ensures Valid() && Adds(g, Held(), old(Held()), Address(g, x, 0, 0), Bytes(g, m))
      ensures Held() == old(Held())[x := Empty]
    {
      hide Slab.Valid;
      hide Pages.Valid;
      hide StatsOk;
      hide Adds;
      ghost var s := S();
      SizedOf(s);
      BlockPages(s, x, m);
      FreePages(x, m);
      MoreFree(s.p, P(), x, m);
      BlockFreed(s, P(), x, m);
      BlocksOnly(g, s.Contents(), stats[..], x, Empty);
      assert s.Contents() == Held()[x := Block(m)];
      AddBlock(g, Held(), s.Contents(), x, m);
    }

    static lemma BlockPages(s: Slab, x: nat, m: nat)
      requires s.Valid() && s.Page(x) && s.p.own[x] == Allocated(x, m)
      ensures Freeable(s.p, x, m) && s.Contents()[x] == Block(m) && x + m <= s.g.pages
      ensures forall y :: x <= y < x + m ==> s.p.own[y] == Allocated(x, m) && s.p.InUse(y)
    {
      hide Lists.Linked;
      s.SettledSize();
      assert s.p.InRun(x);
    }

    static lemma BlockFreed(s: Slab, q: Pages, x: nat, m: nat)
      requires s.Valid() && s.Page(x) && Freed(s.p, q, x, m) && 0 < m
      requires forall y :: x <= y < x + m ==> s.p.own[y] == Allocated(x, m)
      ensures var after := Slab(s.g, q, s.words); after.Valid() && after.Contents() == s.Contents()[x := Empty]
    {
      hide Pages.Valid;
      hide Lists.Linked;
      var after := Slab(s.g, q, s.words);
      SizedAfter(s, q, x, m);
      forall y | x <= y < x + m ensures !after.p.InUse(y) && after.Fits(y) && (y > x ==> s.Held(y) == Empty) {
        assert s.Good(y) && !q.InUse(y);
      }
      s.FreedRun(after, x, m);
    }

    static lemma SizedAfter(s: Slab, q: Pages, x: nat, m: nat)
      requires s.Valid() && s.Page(x) && Freed(s.p, q, x, m) && 0 < m
      ensures s.ChangedAt(Slab(s.g, q, s.words), x, m)
    {
      hide Pages.Valid;
    }

    /** What the descriptor of a page that has no chunks says. */
    static lemma PageRead(s: Slab, x: nat)
      requires s.Valid() && s.Page(x)
      ensures s.p.t[x].tag == PAGE <==> !s.p.own[x].Chunks?
      ensures s.p.own[x].FreeRun? ==> s.p.t[x].slab < PAGE_START
      ensures match s.p.own[x]
        case Allocated(head, len) => s.p.t[x].slab == (if head == x then len + PAGE_START else PAGE_BUSY)
          && len + PAGE_START < PAGE_BUSY
        case _ => !s.p.own[x].Loose?
    {
      hide Lists.Linked;
      s.SettledSize();
      assert s.p.Cell(x) && s.p.InRun(x);
    }

    static lemma ChunkIndex(g: Geometry, shift: nat, o: nat, r: nat)
      requires g.Valid() && g.ShiftOk(shift) && o < g.PageSize() && o % Pow2(shift) == 0 && r * Pow2(shift) <= o
      ensures var j := Div(o, Pow2(shift)); r <= j < g.ChunkCount(shift) && o == j * Pow2(shift)
    {
      hide Pow2;
      var j := Div(o, Pow2(shift));
      Whole(o, Pow2(shift), j);
      Pow2Add(g.pageShift - shift, shift);
      if j >= g.ChunkCount(shift) {
        AtLeast(g.ChunkCount(shift), j, Pow2(shift));
      }
      if j < r {
        Below(j, r, Pow2(shift));
      }
    }

    /** The address of a chunk, and whether the chunk is live, free, or one of the bitmap. */
    static lemma ChunkFound(s: Slab, a: nat)
      requires s.Valid() && s.Page(PageOf(s.g, a)) && s.p.own[PageOf(s.g, a)].Chunks?
      ensures var x := PageOf(s.g, a); var shift := s.p.own[x].shift;
        && s.g.ShiftOk(shift) && s.Chunks(x).Shape() && s.Chunks(x).Valid()
        && (Offset(s.g, a) % Pow2(shift) == 0 ==>
              && var j := Div(Offset(s.g, a), Pow2(shift));
              && j < s.Chunks(x).Count() && a == Address(s.g, x, shift, j)
              && (ReservedStart(s.g, s.Contents(), a) <==> j < s.Chunks(x).Reserved())
              && (j < s.Chunks(x).Reserved() ==> s.Chunks(x).Taken(j))
              && (j in s.Chunks(x).Live() <==> s.Chunks(x).Taken(j) && s.Chunks(x).Reserved() <= j)
              && (Live(s.g, s.Contents(), a) <==> j in s.Chunks(x).Live()))
    {
      hide Pages.Valid;
      hide C.Chunks.Taken;
      hide Geometry.Reserved;
      hide Pow2;
      hide PageOf;
      hide Offset;
      var x := PageOf(s.g, a);
      assert s.Good(x);
      SplitBack(s.g, a);
      var shift, o := s.p.own[x].shift, Offset(s.g, a);
      if o % Pow2(shift) == 0 {
        ChunkIndex(s.g, shift, o, 0);
        var j := Div(o, Pow2(shift));
        ReservedPart(s.g, shift, j);
      }
    }

    static lemma ReservedPart(g: Geometry, shift: nat, j: nat)
      requires g.Valid() && g.ShiftOk(shift)
      ensures j * Pow2(shift) < g.Reserved(shift) * Pow2(shift) <==> j < g.Reserved(shift)
    {
      hide Pow2;
      hide Geometry.Reserved;
      if j < g.Reserved(shift) {
        Below(j, g.Reserved(shift), Pow2(shift));
      } else {
        AtLeast(g.Reserved(shift), j, Pow2(shift));
      }
    }

    static lemma AtLeast(a: nat, b: nat, d: nat)
      requires a <= b
      ensures a * d <= b * d
    {
      if a < b {
        Below(a, b, d);
      }
    }

    /** ngx_slab_free_locked. A call keeps the pool valid, and succeeds exactly for a live block, unless the address is
        the start of a chunk that holds the bitmap of its page: then it succeeds, and the pool is broken. Addresses
        behind the last page, which have no descriptor, must not be passed. */
    method FreeLocked(a: int) returns (r: FreeResult)
      requires Valid() && (0 <= a <= end ==> a < g.pages * g.PageSize())
      modifies this`pfree, this`l, this`own, table, words, stats
      ensures Valid() && (r == Done <==> a >= 0 && Live(g, old(Held()), a)) <==>
          !(a >= 0 && ReservedStart(g, old(Held()), a))
      ensures a >= 0 && ReservedStart(g, old(Held()), a) ==> r == Done && !Live(g, old(Held()), a) && !Valid()
      ensures !(a >= 0 && ReservedStart(g, old(Held()), a)) ==>
        && Valid() && r == old(Verdict(S(), a, end))
        && (r == Done ==> Adds(g, Held(), old(Held()), a, Size(g, old(Held()), a)))
        && (r != Done ==> S() == old(S()) && pfree == old(pfree) && stats[..] == old(stats[..]))
        && (a >= 0 ==> !ReservedStart(g, Held(), a))
    {
      hide Slab.Valid;
      hide Pages.Valid;
      hide StatsOk;
      hide C.Chunks.Taken;
      hide C.Chunks.Valid;
      hide Adds;
      hide ReservedStart;
      ghost var s := S();
      SizedOf(s);
      DoneIfLive(s, a, end);
      if a < 0 || a > end {
        Outside(s, a, end);
        return OutsidePool;
      }
      PageInPool(g, a);
      var x, o := PageOf(g, a), Offset(g, a);
      PageRead(s, x);
      if table[x].tag == PAGE {
        NoBitmap(s, a);
        r := FreePageAt(a, x, o);
      } else {
        r := FreeChunkAt(a, x, o);
      }
    }

    static lemma Outside(s: Slab, a: int, end: int)
      requires s.Valid() && s.g.pages * s.g.PageSize() <= end && (a < 0 || a > end)
      ensures a >= 0 ==> !ReservedStart(s.g, s.Contents(), a)
    {
      hide Pages.Valid;
      if a >= 0 && PageOf(s.g, a) < s.g.pages {
        SplitBack(s.g, a);
        Below(PageOf(s.g, a), s.g.pages, s.g.PageSize());
      }
    }

    static lemma NoBitmap(s: Slab, a: nat)
      requires s.Valid() && s.Page(PageOf(s.g, a)) && !s.p.own[PageOf(s.g, a)].Chunks?
      ensures !ReservedStart(s.g, s.Contents(), a)
    {
    }

    method FreePageAt(a: nat, x: nat, o: nat) returns (r: FreeResult)
      requires Valid() && a <= end && x == PageOf(g, a) < g.pages && o == Offset(g, a) && S().Page(x) && !own[x].Chunks?
      modifies this`pfree, this`l, this`own, table
      ensures Valid() && r == old(Verdict(S(), a, end))
      ensures r == Done ==> Live(g, old(Held()), a) && Adds(g, Held(), old(Held()), a, Size(g, old(Held()), a))
      ensures r != Done ==> S() == old(S()) && pfree == old(pfree)
      ensures !ReservedStart(g, Held(), a)
    {
      hide Slab.Valid;
      hide Pages.Valid;
      hide StatsOk;
      hide Adds;
      ghost var s := S();
      SizedOf(s);
      PageRead(s, x);
      SplitBack(g, a);
      if o != 0 {
        return WrongChunk;
      }
      var slab := table[x].slab;
      if slab < PAGE_START {
        return PageFree;
      }
      if slab == PAGE_BUSY {
        return WrongPage;
      }
      FreeBlock(x, slab - PAGE_START);
      SizedOf(S());
      r := Done;
    }

    static lemma ChunkVerdict(s: Slab, a: nat, end: nat)
      requires s.Valid() && a <= end && s.Page(PageOf(s.g, a)) && s.p.own[PageOf(s.g, a)].Chunks?
      ensures Verdict(s, a, end) ==
        if Offset(s.g, a) % Pow2(s.p.own[PageOf(s.g, a)].shift) != 0 then WrongChunk
        else if Live(s.g, s.Contents(), a) then Done else ChunkFree
      ensures Live(s.g, s.Contents(), a) ==> Size(s.g, s.Contents(), a) == Pow2(s.p.own[PageOf(s.g, a)].shift)
    {
      hide Pages.Valid;
      hide Pow2;
      assert s.Good(PageOf(s.g, a));
    }

    static lemma StillClear(g: Geometry, h: seq<Content>, h': seq<Content>, a: nat, shift: nat)
      requires !ReservedStart(g, h, a) && |h| == |h'| && PageOf(g, a) < |h| && h[PageOf(g, a)].Pieces?
      requires h[PageOf(g, a)].shift == shift
      requires h'[PageOf(g, a)].Pieces? ==> h'[PageOf(g, a)].shift == shift
      ensures !ReservedStart(g, h', a)
    {
    }

    static lemma Unaligned(s: Slab, a: nat)
      requires s.Valid() && s.Page(PageOf(s.g, a)) && s.p.own[PageOf(s.g, a)].Chunks?
      requires Offset(s.g, a) % Pow2(s.p.own[PageOf(s.g, a)].shift) != 0
      ensures !ReservedStart(s.g, s.Contents(), a)
    {
      hide Pages.Valid;
      HeldShift(s, PageOf(s.g, a));
    }

    static lemma Broken(s: Slab, x: nat, j: nat)
      requires s.Valid() && s.Page(x) && s.p.own[x].Chunks? && s.Chunks(x).Shape() && j < s.Chunks(x).Count()
      ensures j < s.Chunks(x).Reserved() ==> !s.ReturnedTo(x, j).Valid()
    {
      if j < s.Chunks(x).Reserved() {
        s.ReservedReturned(x, j);
      }
    }

    method FreeChunkAt(a: nat, x: nat, o: nat) returns (r: FreeResult)
      requires Valid() && a <= end && x == PageOf(g, a) < g.pages && o == Offset(g, a) && S().Page(x) && own[x].Chunks?
      modifies this`pfree, this`l, this`own, table, words, stats
      ensures if ReservedStart(g, old(Held()), a) then r == Done && !Live(g, old(Held()), a) && !Valid() else
        && Valid() && r == old(Verdict(S(), a, end))
        && (r == Done ==> Live(g, old(Held()), a) && Adds(g, Held(), old(Held()), a, Size(g, old(Held()), a)))
        && (r != Done ==> S() == old(S()) && pfree == old(pfree) && stats[..] == old(stats[..]))
        && !ReservedStart(g, Held(), a)
    {
      hide Slab.Valid;
      hide Pages.Valid;
      hide StatsOk;
      hide Adds;
      hide Address;
      hide Pow2;
      hide Ones;
      hide PageOf;
      hide Offset;
      hide InReserved;
      hide ReservedStart;
      hide Verdict;
      hide Live;
      hide Size;
      hide Geometry.Reserved;
      hide C.Chunks.Live;
      hide C.Chunks.Full;
      hide C.Chunks.Taken;
      hide C.Chunks.Valid;
      ghost var s := S();
      SizedOf(s);
      ShiftRead(s, x);
      ChunkFound(s, a);
      ChunkVerdict(s, a, end);
      var kind := table[x].tag;
      var shift := if kind == EXACT then g.ExactShift() else table[x].slab % 16;
      if o % Pow2(shift) != 0 {
        Unaligned(s, a);
        return WrongChunk;
      }
      var j := Div(o, Pow2(shift));
      var c := C.Chunks(g, shift, table[x].slab, words[x]);
      if !c.Taken(j) {
        return ChunkFree;
      }
      HeldShift(s, x);
      Broken(s, x, j);
      ReturnChunk(x, j);
      if j in s.Chunks(x).Live() {
        SizedOf(S());
        StillClear(g, s.Contents(), Held(), a, shift);
      }
      r := Done;
    }

    static lemma HeldShift(s: Slab, x: nat)
      requires s.Valid() && s.Page(x) && s.p.own[x].Chunks?
      ensures s.Contents()[x].Pieces? && s.Contents()[x].shift == s.p.own[x].shift
    {
      assert s.Good(x);
    }

    /** Freeing a block twice in a row: the second call finds no block and changes nothing. */
    method FreeTwice(a: int) returns (first: FreeResult, second: FreeResult, ghost between: Slab)
      requires Valid() && (0 <= a <= end ==> a < g.pages * g.PageSize()) && (a >= 0 ==> !ReservedStart(g, Held(), a))
      modifies this`pfree, this`l, this`own, table, words, stats
      ensures Valid() && second != Done && S() == between
      ensures between.Sized() && (a >= 0 ==> !Live(g, between.Contents(), a))
    {
      first := FreeLocked(a);
      between := S();
      second := FreeLocked(a);
    }
  }
}
