/** The blocks a pool has handed out, as addresses relative to the start of its first page. */
module SlabBlocks {
  import opened Bits
  import opened SlabLists
  import opened SlabPages
  import opened SlabGeometry
  import opened SlabListing
  import opened SlabStages
  import opened SlabState

  /** ngx_slab_page_addr(pool, page) + (i << shift) */
  function Address(g: Geometry, x: nat, shift: nat, j: nat): nat {
    x * g.PageSize() + j * Pow2(shift)
  }

  /** The size of a block of pages. */
  function Bytes(g: Geometry, pages: nat): nat { pages * g.PageSize() }

  function PageOf(g: Geometry, a: nat): nat { Div(a, g.PageSize()) }

  function Offset(g: Geometry, a: nat): nat { a % g.PageSize() }

  lemma Split(g: Geometry, a: nat, x: nat, o: nat)
    requires a == x * g.PageSize() + o && o < g.PageSize()
    ensures PageOf(g, a) == x && Offset(g, a) == o
  {
    Quotient(a, g.PageSize(), x, o);
  }

  lemma SplitBack(g: Geometry, a: nat)
    ensures a == PageOf(g, a) * g.PageSize() + Offset(g, a) && Offset(g, a) < g.PageSize()
  {
  }

  /** A product is not negative, and it is that of the parts. */
  lemma Products(a: nat, n: nat, d: nat)
    ensures n * d >= 0 && (a + 1 + n) * d == a * d + d + n * d
  {
  }

  lemma Below(a: nat, b: nat, d: nat)
    requires a < b
    ensures a * d + d <= b * d
  {
    Products(a, b - a - 1, d);
  }

  lemma ChunkEnds(g: Geometry, shift: nat, j: nat)
    requires g.Valid() && g.ShiftOk(shift) && j < g.ChunkCount(shift)
    ensures j * Pow2(shift) + Pow2(shift) <= g.PageSize()
  {
    Pow2Add(g.pageShift - shift, shift);
    Below(j, g.ChunkCount(shift), Pow2(shift));
  }

  lemma Multiples(j: nat, d: nat)
    requires d > 0
    ensures j * d >= 0 && (j * d) % d == 0 && Div(j * d, d) == j
  {
    Quotient(j * d, d, j, 0);
  }

  lemma Whole(o: nat, d: nat, j: nat)
    requires d > 0 && o % d == 0 && Div(o, d) == j
    ensures o == j * d
  {
  }

  lemma Place(g: Geometry, x: nat, shift: nat, j: nat)
    requires g.Valid() && g.ShiftOk(shift) && j < g.ChunkCount(shift)
    ensures var a := Address(g, x, shift, j);
      && PageOf(g, a) == x && Offset(g, a) == j * Pow2(shift)
      && Offset(g, a) % Pow2(shift) == 0 && Div(Offset(g, a), Pow2(shift)) == j
  {
    hide Offset;
    hide PageOf;
    hide Pow2;
    ChunkEnds(g, shift, j);
    var o := j * Pow2(shift);
    Split(g, Address(g, x, shift, j), x, o);
    Multiples(j, Pow2(shift));
  }

  /** Whether a block begins at an offset into a page that holds c. */
  ghost predicate Begins(c: Content, o: nat) {
    match c
    case Empty => false
    case Block(_) => o == 0
    case Pieces(shift, live) => o % Pow2(shift) == 0 && Div(o, Pow2(shift)) in live
  }

  ghost predicate Live(g: Geometry, h: seq<Content>, a: nat) {
    PageOf(g, a) < |h| && Begins(h[PageOf(g, a)], Offset(g, a))
  }

  ghost function Size(g: Geometry, h: seq<Content>, a: nat): nat
    requires Live(g, h, a)
  {
    match h[PageOf(g, a)]
    case Block(len) => Bytes(g, len)
    case Pieces(shift, _) => Pow2(shift)
  }

  /** One more block: that at address a. Read backwards, one block less. */
  ghost predicate Adds(g: Geometry, h: seq<Content>, h': seq<Content>, a: nat, size: nat) {
    && !Live(g, h, a) && Live(g, h', a) && Size(g, h', a) == size
    && (forall b {:trigger Live(g, h', b)} :: Live(g, h', b) <==> Live(g, h, b) || b == a)
    && forall b {:trigger Size(g, h', b)} :: Live(g, h, b) ==> Live(g, h', b) && Size(g, h', b) == Size(g, h, b)
  }

  lemma AddPiece(g: Geometry, h: seq<Content>, h': seq<Content>, x: nat, shift: nat, live: set<nat>, j: nat)
    requires g.Valid() && g.ShiftOk(shift) && j < g.ChunkCount(shift) && x < |h| && j !in live
    requires h[x] == Pieces(shift, live) || (live == {} && h[x] == Empty)
    requires h' == h[x := Pieces(shift, live + {j})]
    ensures Adds(g, h, h', Address(g, x, shift, j), Pow2(shift))
  {
    hide Address;
    hide Offset;
    hide PageOf;
    var a := Address(g, x, shift, j);
    Place(g, x, shift, j);
    forall b: nat ensures Live(g, h', b) <==> Live(g, h, b) || b == a {
      if PageOf(g, b) == x && Begins(h'[x], Offset(g, b)) && Div(Offset(g, b), Pow2(shift)) == j {
        SameChunk(g, x, shift, j, b);
      }
    }
  }

  lemma SameChunk(g: Geometry, x: nat, shift: nat, j: nat, b: nat)
    requires PageOf(g, b) == x && Offset(g, b) % Pow2(shift) == 0 && Div(Offset(g, b), Pow2(shift)) == j
    ensures b == Address(g, x, shift, j)
  {
    SplitBack(g, b);
    Whole(Offset(g, b), Pow2(shift), j);
  }

  lemma AddBlock(g: Geometry, h: seq<Content>, h': seq<Content>, x: nat, m: nat)
    requires g.Valid() && x < |h| && h[x] == Empty && h' == h[x := Block(m)]
    ensures Adds(g, h, h', Address(g, x, 0, 0), Bytes(g, m))
  {
    var a := Address(g, x, 0, 0);
    Split(g, a, x, 0);
    forall b: nat ensures Live(g, h', b) <==> Live(g, h, b) || b == a {
      SplitBack(g, b);
    }
  }

  /* ---- blocks do not overlap ---- */

  ghost predicate Sound(g: Geometry, h: seq<Content>, x: nat)
    requires x < |h|
  {
    match h[x]
    case Empty => true
    case Block(len) => 0 < len && x + len <= |h| && forall y :: x < y < x + len ==> h[y] == Empty
    case Pieces(shift, live) =>
      && g.Valid() && g.ShiftOk(shift) && live != {}
      && forall j :: j in live ==> g.Reserved(shift) <= j < g.ChunkCount(shift)
  }

  lemma HeldSound(s: Slab, x: nat)
    requires s.Valid() && x < s.g.pages
    ensures Sound(s.g, s.Contents(), x)
  {
    hide Lists.Linked;
    assert s.Good(x) && s.p.InRun(x);
    if s.p.own[x].Allocated? && s.p.own[x].head == x {
      forall y | x < y < x + s.p.own[x].len ensures s.Contents()[y] == Empty {
        assert s.p.own[y] == s.p.own[x];
      }
    }
  }

  /** The pages a live block spans, and where it ends. */
  lemma Span(g: Geometry, h: seq<Content>, a: nat) returns (last: nat)
    requires Live(g, h, a) && Sound(g, h, PageOf(g, a))
    ensures PageOf(g, a) <= last < |h| && a + Size(g, h, a) <= last * g.PageSize() + g.PageSize()
    ensures h[PageOf(g, a)].Pieces? ==> last == PageOf(g, a)
    ensures forall y :: PageOf(g, a) < y <= last ==> h[y] == Empty
  {
    var x := PageOf(g, a);
    SplitBack(g, a);
    match h[x]
    case Block(len) =>
      last := x + len - 1;
      assert x * g.PageSize() + len * g.PageSize() == last * g.PageSize() + g.PageSize();
    case Pieces(shift, live) =>
      last := x;
      var j := Div(Offset(g, a), Pow2(shift));
      ChunkEnds(g, shift, j);
      Whole(Offset(g, a), Pow2(shift), j);
  }

  lemma PageOrder(g: Geometry, a: nat, b: nat)
    requires a < b
    ensures PageOf(g, a) <= PageOf(g, b)
  {
    SplitBack(g, a);
    SplitBack(g, b);
    if PageOf(g, b) < PageOf(g, a) {
      Below(PageOf(g, b), PageOf(g, a), g.PageSize());
    }
  }

  /** Two chunks of a page do not overlap. */
  lemma PiecesApart(g: Geometry, h: seq<Content>, a: nat, b: nat)
    requires a < b && Live(g, h, a) && Live(g, h, b) && PageOf(g, a) == PageOf(g, b)
    ensures a + Size(g, h, a) <= b
  {
    SplitBack(g, a);
    SplitBack(g, b);
    var x := PageOf(g, a);
    match h[x]
    case Block(_) =>
    case Pieces(shift, live) =>
      var i, j := Div(Offset(g, a), Pow2(shift)), Div(Offset(g, b), Pow2(shift));
      Whole(Offset(g, a), Pow2(shift), i);
      Whole(Offset(g, b), Pow2(shift), j);
      if j < i {
        Below(j, i, Pow2(shift));
      } else if i < j {
        Below(i, j, Pow2(shift));
      }
  }

  /** Live blocks lie inside the pool and do not overlap. */
  lemma Disjoint(s: Slab, a: nat, b: nat)
    requires s.Valid() && a < b && Live(s.g, s.Contents(), a) && Live(s.g, s.Contents(), b)
    ensures a + Size(s.g, s.Contents(), a) <= b
  {
    var g, h := s.g, s.Contents();
    HeldSound(s, PageOf(g, a));
    var last := Span(g, h, a);
    PageOrder(g, a, b);
    SplitBack(g, b);
    if PageOf(g, a) == PageOf(g, b) {
      PiecesApart(g, h, a, b);
    } else {
      assert PageOf(g, b) > last;
      Below(last, PageOf(g, b), g.PageSize());
    }
  }

  lemma Inside(s: Slab, a: nat)
    requires s.Valid() && Live(s.g, s.Contents(), a)
    ensures a + Size(s.g, s.Contents(), a) <= s.g.pages * s.g.PageSize()
  {
    HeldSound(s, PageOf(s.g, a));
    var last := Span(s.g, s.Contents(), a);
    Below(last, s.g.pages, s.g.PageSize());
  }

  /** The bitmap of a page of small chunks: addresses lo to hi - 1. */
  ghost predicate Bitmap(s: Slab, x: nat, lo: nat, hi: nat) {
    && s.Valid() && x < s.g.pages && s.p.own[x].Chunks? && s.g.ShiftOk(s.p.own[x].shift)
    && s.p.own[x].shift < s.g.ExactShift()
    && lo == x * s.g.PageSize() && hi == lo + s.g.MapWords(s.p.own[x].shift) * 8
  }

  lemma OnSmallPage(s: Slab, x: nat, lo: nat, hi: nat, a: nat)
    requires Bitmap(s, x, lo, hi) && Live(s.g, s.Contents(), a) && PageOf(s.g, a) == x
    ensures hi <= a
  {
    hide Lists.Linked;
    hide Pages.Valid;
    var g, shift := s.g, s.p.own[x].shift;
    assert s.Good(x);
    HeldSound(s, x);
    SplitBack(g, a);
    g.SmallFits(shift);
    var j := Div(Offset(g, a), Pow2(shift));
    Whole(Offset(g, a), Pow2(shift), j);
    if g.Reserved(shift) < j {
      Below(g.Reserved(shift), j, Pow2(shift));
    }
  }

  /** No live block overlaps a bitmap. */
  lemma ClearOfBitmaps(s: Slab, x: nat, lo: nat, hi: nat, a: nat)
    requires Bitmap(s, x, lo, hi) && Live(s.g, s.Contents(), a)
    ensures a + Size(s.g, s.Contents(), a) <= lo || hi <= a
  {
    hide Lists.Linked;
    hide Pages.Valid;
    var g, h := s.g, s.Contents();
    var shift, y := s.p.own[x].shift, PageOf(g, a);
    if y == x {
      OnSmallPage(s, x, lo, hi, a);
    } else if y < x {
      HeldSound(s, y);
      var last := Span(g, h, a);
      assert s.Good(x);
      assert h[x].Pieces?;
      Below(last, x, g.PageSize());
    } else {
      SplitBack(g, a);
      g.SmallFits(shift);
      ChunkEnds(g, shift, g.Reserved(shift));
      Below(x, y, g.PageSize());
    }
  }

  /* ---- when an allocation may fail ---- */

  /** Every chunk of the size, on any page, is handed out. */
  ghost predicate NoneClear(g: Geometry, h: seq<Content>, shift: nat)
    requires g.Valid() && g.ShiftOk(shift)
  {
    forall x {:trigger h[x]} :: 0 <= x < |h| && h[x].Pieces? && h[x].shift == shift ==>
      forall j: nat :: g.Reserved(shift) <= j < g.ChunkCount(shift) ==> j in h[x].live
  }

  lemma AllTaken(s: Slab, slot: nat)
    requires s.Valid() && slot < s.g.Slots() && s.p.l.lists[slot] == []
    ensures NoneClear(s.g, s.Contents(), s.g.minShift + slot)
  {
    hide Lists.Linked;
    var shift := s.g.minShift + slot;
    forall x | 0 <= x < s.g.pages && s.Contents()[x].Pieces? && s.Contents()[x].shift == shift
      ensures forall j: nat :: s.g.Reserved(shift) <= j < s.g.ChunkCount(shift) ==> j in s.Contents()[x].live
    {
      s.NoneListed(slot, x);
      var c := s.Chunks(x);
      forall j: nat | s.g.Reserved(shift) <= j < s.g.ChunkCount(shift) ensures j in c.Live() {
        assert c.Taken(j);
      }
    }
  }

  lemma NoFreePage(p: Pages)
    requires Settled(p) && NoRun(p, 1)
    ensures p.FreeSet() == {}
  {
    hide Lists.Linked;
    forall y | 0 <= y < |p.own| ensures p.InUse(y) {
      assert p.InRun(y);
    }
  }

  /* ---- what a call to free finds ---- */

  datatype FreeResult = Done | OutsidePool | WrongChunk | ChunkFree | PageFree | WrongPage

  /** An address among the chunks that hold the bitmap of a page. */
  ghost predicate InReserved(g: Geometry, h: seq<Content>, a: nat) {
    && PageOf(g, a) < |h| && h[PageOf(g, a)].Pieces? && g.Valid() && g.ShiftOk(h[PageOf(g, a)].shift)
    && Offset(g, a) < g.Reserved(h[PageOf(g, a)].shift) * Pow2(h[PageOf(g, a)].shift)
  }

  /** The start of such a chunk. */
  ghost predicate ReservedStart(g: Geometry, h: seq<Content>, a: nat) {
    InReserved(g, h, a) && Offset(g, a) % Pow2(h[PageOf(g, a)].shift) == 0
  }

  /** In a page with a small block, the page itself starts with such a chunk, and no block is there. */
  lemma PageStartReserved(s: Slab, x: nat)
    requires s.Valid() && x < s.g.pages && s.p.own[x].Chunks? && s.p.own[x].shift < s.g.ExactShift()
    ensures ReservedStart(s.g, s.Contents(), Address(s.g, x, 0, 0)) && !Live(s.g, s.Contents(), Address(s.g, x, 0, 0))
  {
    hide Lists.Linked;
    hide Pages.Valid;
    assert s.Good(x);
    var shift := s.p.own[x].shift;
    s.g.SmallFits(shift);
    Split(s.g, Address(s.g, x, 0, 0), x, 0);
    Multiples(0, Pow2(shift));
    Below(0, s.g.Reserved(shift), Pow2(shift));
    HeldSound(s, x);
  }

  /** What is at an address, in terms of the owners of pages and the live blocks. */
  ghost function Verdict(s: Slab, a: int, end: nat): FreeResult
    requires s.Sized()
  {
    if a < 0 || a > end || PageOf(s.g, a) >= s.g.pages then OutsidePool
    else match s.p.own[PageOf(s.g, a)]
    case Chunks(shift) =>
      if Offset(s.g, a) % Pow2(shift) != 0 then WrongChunk
      else if Live(s.g, s.Contents(), a) then Done else ChunkFree
    case Allocated(head, _) =>
      if Offset(s.g, a) != 0 then WrongChunk else if head == PageOf(s.g, a) then Done else WrongPage
    case FreeRun(_, _) => if Offset(s.g, a) != 0 then WrongChunk else PageFree
    case Loose(_, _) => if Offset(s.g, a) != 0 then WrongChunk else PageFree
  }

  /** A call to free succeeds exactly for the address of a live block. */
  lemma DoneIfLive(s: Slab, a: int, end: nat)
    requires s.Valid() && s.g.pages * s.g.PageSize() <= end
    ensures Verdict(s, a, end) == Done <==> a >= 0 && Live(s.g, s.Contents(), a)
  {
    hide Pages.Valid;
    if a >= 0 {
      if PageOf(s.g, a) < s.g.pages {
        SplitBack(s.g, a);
        Below(PageOf(s.g, a), s.g.pages, s.g.PageSize());
        assert s.Good(PageOf(s.g, a));
      }
    }
  }

  lemma PageInPool(g: Geometry, a: nat)
    requires a < g.pages * g.PageSize()
    ensures PageOf(g, a) < g.pages
  {
    SplitBack(g, a);
    if PageOf(g, a) >= g.pages {
      if PageOf(g, a) > g.pages {
        Below(g.pages, PageOf(g, a), g.PageSize());
      }
    }
  }

  /** The end of the last page passes the test for the range of the pool, but has no page: exactly the addresses before
      it are in a page that has a descriptor. */
  lemma NoDescriptor(g: Geometry, a: nat, end: nat)
    requires g.Valid() && g.pages * g.PageSize() <= end && a <= end
    ensures PageOf(g, a) < g.pages <==> a < g.pages * g.PageSize()
    ensures PageOf(g, g.pages * g.PageSize()) == g.pages
  {
    var last := g.pages * g.PageSize();
    SplitBack(g, a);
    SplitBack(g, last);
    if a < last {
      PageInPool(g, a);
    } else if PageOf(g, a) < g.pages {
      Below(PageOf(g, a), g.pages, g.PageSize());
    }
    Split(g, last, g.pages, 0);
  }

  /* ---- counters ---- */

  /** Chunks of one size handed out by the first n pages. */
  ghost function Used(h: seq<Content>, shift: nat, n: nat): nat
    requires n <= |h|
  {
    if n == 0 then 0 else
      Used(h, shift, n - 1) + if h[n - 1].Pieces? && h[n - 1].shift == shift then |h[n - 1].live| else 0
  }

  /** Pages of chunks of one size among the first n. */
  ghost function PageCount(h: seq<Content>, shift: nat, n: nat): nat
    requires n <= |h|
  {
    if n == 0 then 0 else PageCount(h, shift, n - 1) + if h[n - 1].Pieces? && h[n - 1].shift == shift then 1 else 0
  }

  ghost function UsedIn(c: Content, shift: nat): nat {
    if c.Pieces? && c.shift == shift then |c.live| else 0
  }

  ghost function PagesIn(c: Content, shift: nat): nat {
    if c.Pieces? && c.shift == shift then 1 else 0
  }

  /** ngx_slab_stat_t */
  datatype Stat = Stat(total: int, used: int, reqs: nat, fails: nat)

  function Capacity(g: Geometry, shift: nat): nat
    requires g.Valid() && g.ShiftOk(shift)
  {
    g.ReservedFits(shift);
    g.ChunkCount(shift) - g.Reserved(shift)
  }

  ghost predicate StatOk(g: Geometry, h: seq<Content>, st: Stat, shift: nat)
    requires g.Valid() && g.ShiftOk(shift)
  {
    && st.used == Used(h, shift, |h|)
    && st.total == PageCount(h, shift, |h|) * Capacity(g, shift)
  }

  /** used is the number of live chunks of the size, and total the number of chunks in its pages. */
  ghost predicate StatsOk(g: Geometry, h: seq<Content>, stats: seq<Stat>) {
    && g.Valid() && |stats| == g.Slots()
    && forall k {:trigger stats[k]} :: 0 <= k < g.Slots() ==> StatOk(g, h, stats[k], g.minShift + k)
  }

  lemma {:induction false} SetBound(live: set<nat>, lo: nat, hi: nat)
    requires lo <= hi && forall j :: j in live ==> lo <= j < hi
    ensures |live| <= hi - lo
    ensures |live| == hi - lo <==> forall j: nat :: lo <= j < hi ==> j in live
    decreases hi - lo
  {
    if lo == hi {
      assert live == {};
    } else {
      var last := hi - 1;
      SetBound(live - {last}, lo, last);
      assert |live - {last}| == |live| - if last in live then 1 else 0;
      if |live| == hi - lo {
        assert last in live;
        forall j: nat | lo <= j < hi ensures j in live {
          assert j < last ==> j in live - {last};
        }
      }
    }
  }

  /** NoneClear for one page. */
  ghost predicate PageTaken(g: Geometry, c: Content, shift: nat)
    requires g.Valid() && g.ShiftOk(shift)
  {
    c.Pieces? && c.shift == shift ==> forall j: nat :: g.Reserved(shift) <= j < g.ChunkCount(shift) ==> j in c.live
  }

  lemma PageBound(g: Geometry, h: seq<Content>, x: nat, shift: nat)
    requires g.Valid() && g.ShiftOk(shift) && x < |h| && Sound(g, h, x)
    ensures UsedIn(h[x], shift) <= PagesIn(h[x], shift) * Capacity(g, shift)
    ensures UsedIn(h[x], shift) == PagesIn(h[x], shift) * Capacity(g, shift) <==> PageTaken(g, h[x], shift)
  {
    g.ReservedFits(shift);
    hide Geometry.Reserved;
    if h[x].Pieces? && h[x].shift == shift {
      SetBound(h[x].live, g.Reserved(shift), g.ChunkCount(shift));
    }
  }

  lemma {:induction false} UsedBound(g: Geometry, h: seq<Content>, shift: nat, n: nat)
    requires g.Valid() && g.ShiftOk(shift) && n <= |h| && forall x :: 0 <= x < n ==> Sound(g, h, x)
    ensures Used(h, shift, n) <= PageCount(h, shift, n) * Capacity(g, shift)
    ensures Used(h, shift, n) == PageCount(h, shift, n) * Capacity(g, shift) <==>
            forall x :: 0 <= x < n ==> PageTaken(g, h[x], shift)
  {
    hide Sound;
    hide Capacity;
    hide PageTaken;
    if n > 0 {
      UsedBound(g, h, shift, n - 1);
      PageBound(g, h, n - 1, shift);
      Times(PageCount(h, shift, n - 1), PagesIn(h[n - 1], shift), Capacity(g, shift));
    }
  }

  /** There are never more live chunks of a size than its pages have, and as many exactly if all are handed out. */
  lemma UsedUpToTotal(s: Slab, stats: seq<Stat>, slot: nat)
    requires s.Valid() && StatsOk(s.g, s.Contents(), stats) && slot < s.g.Slots()
    ensures stats[slot].used <= stats[slot].total
    ensures stats[slot].used == stats[slot].total <==> NoneClear(s.g, s.Contents(), s.g.minShift + slot)
  {
    hide Capacity;
    hide Sound;
    hide NoneClear;
    var h, shift := s.Contents(), s.g.minShift + slot;
    var st := stats[slot];
    assert StatOk(s.g, h, st, shift);
    forall x | 0 <= x < |h| ensures Sound(s.g, h, x) {
      HeldSound(s, x);
    }
    UsedBound(s.g, h, shift, |h|);
    AllPagesTaken(s.g, h, shift);
  }

  lemma AllPagesTaken(g: Geometry, h: seq<Content>, shift: nat)
    requires g.Valid() && g.ShiftOk(shift)
    ensures NoneClear(g, h, shift) <==> forall x :: 0 <= x < |h| ==> PageTaken(g, h[x], shift)
  {
  }

  ghost predicate OnlyOf(c: Content, shift: nat) {
    c.Pieces? ==> c.shift == shift
  }

  lemma Times(p: int, d: int, cap: int)
    ensures (p + d) * cap == p * cap + d * cap
  {
  }

  lemma StatFollows(g: Geometry, h: seq<Content>, x: nat, c: Content, shift: nat, before: Stat, after: Stat)
    requires g.Valid() && g.ShiftOk(shift) && x < |h| && StatOk(g, h, before, shift)
    requires after.used == before.used + UsedIn(c, shift) - UsedIn(h[x], shift)
    requires after.total == before.total + (PagesIn(c, shift) - PagesIn(h[x], shift)) * Capacity(g, shift)
    ensures StatOk(g, h[x := c], after, shift)
  {
    hide Capacity;
    Counted(h, x, c, shift, |h|);
    Times(PageCount(h, shift, |h|), PagesIn(c, shift) - PagesIn(h[x], shift), Capacity(g, shift));
  }

  /** The counters follow a page whose chunks, before and after, are of one size. */
  lemma StatsFollow(g: Geometry, h: seq<Content>, stats: seq<Stat>, x: nat, c: Content, slot: nat, st: Stat)
    requires StatsOk(g, h, stats) && x < |h| && slot < g.Slots()
    requires OnlyOf(h[x], g.minShift + slot) && OnlyOf(c, g.minShift + slot)
    requires st.used == stats[slot].used + UsedIn(c, g.minShift + slot) - UsedIn(h[x], g.minShift + slot)
    requires st.total == stats[slot].total
      + (PagesIn(c, g.minShift + slot) - PagesIn(h[x], g.minShift + slot)) * Capacity(g, g.minShift + slot)
    ensures StatsOk(g, h[x := c], stats[slot := st])
  {
    hide Capacity;
    var after := stats[slot := st];
    forall k {:trigger after[k]} | 0 <= k < g.Slots() ensures StatOk(g, h[x := c], after[k], g.minShift + k) {
      StatFollows(g, h, x, c, g.minShift + k, stats[k], after[k]);
    }
  }

  lemma StatsSame(g: Geometry, h: seq<Content>, stats: seq<Stat>, slot: nat, st: Stat)
    requires StatsOk(g, h, stats) && slot < g.Slots()
    requires st.used == stats[slot].used && st.total == stats[slot].total
    ensures StatsOk(g, h, stats[slot := st])
  {
    var before, after := stats[slot], stats[slot := st];
    forall k {:trigger after[k]} | 0 <= k < g.Slots() ensures StatOk(g, h, after[k], g.minShift + k) {
      var at := stats[k];
    }
  }

  /** One chunk more on a page that has chunks of the size or, with live empty, has nothing yet. */
  lemma StatsAdd(g: Geometry, h: seq<Content>, stats: seq<Stat>, x: nat, slot: nat, live: set<nat>, j: nat, st: Stat)
    requires StatsOk(g, h, stats) && x < |h| && slot < g.Slots() && j !in live
    requires h[x] == Pieces(g.minShift + slot, live) || (live == {} && h[x] == Empty)
    requires st.used == stats[slot].used + 1
    requires st.total == stats[slot].total + if h[x] == Empty then Capacity(g, g.minShift + slot) else 0
    ensures StatsOk(g, h[x := Pieces(g.minShift + slot, live + {j})], stats[slot := st])
  {
    hide Capacity;
    assert |live + {j}| == |live| + 1;
    StatsFollow(g, h, stats, x, Pieces(g.minShift + slot, live + {j}), slot, st);
  }

  /** One chunk less; a page without chunks has nothing. */
  lemma StatsRemove(g: Geometry, h: seq<Content>, stats: seq<Stat>, x: nat, slot: nat, live: set<nat>, j: nat, st: Stat)
    requires StatsOk(g, h, stats) && x < |h| && slot < g.Slots() && j in live && h[x] == Pieces(g.minShift + slot, live)
    requires st.used == stats[slot].used - 1
    requires st.total == stats[slot].total - if live == {j} then Capacity(g, g.minShift + slot) else 0
    ensures StatsOk(g, h[x := if live == {j} then Empty else Pieces(g.minShift + slot, live - {j})], stats[slot := st])
  {
    hide Capacity;
    assert |live - {j}| == |live| - 1;
    StatsFollow(g, h, stats, x, if live == {j} then Empty else Pieces(g.minShift + slot, live - {j}), slot, st);
  }

  lemma BlocksOnly(g: Geometry, h: seq<Content>, stats: seq<Stat>, x: nat, c: Content)
    requires StatsOk(g, h, stats) && x < |h| && !h[x].Pieces? && !c.Pieces?
    ensures StatsOk(g, h[x := c], stats)
  {
    forall k | 0 <= k < g.Slots() ensures StatOk(g, h[x := c], stats[k], g.minShift + k) {
      Counted(h, x, c, g.minShift + k, |h|);
    }
  }

  /** Only the page that changed counts differently. */
  lemma {:induction false} Counted(h: seq<Content>, x: nat, c: Content, shift: nat, n: nat)
    requires x < |h| && n <= |h|
    ensures Used(h[x := c], shift, n) == Used(h, shift, n) + if x < n then UsedIn(c, shift) - UsedIn(h[x], shift) else 0
    ensures PageCount(h[x := c], shift, n) == PageCount(h, shift, n) + if x < n
        then PagesIn(c, shift) - PagesIn(h[x], shift) else 0
  {
    if n > 0 {
      Counted(h, x, c, shift, n - 1);
    }
  }

  /* ---- the empty pool ---- */

  lemma FirstAt(g: Geometry, h: seq<Content>, x: nat) returns (a: nat)
    requires g.Valid() && x < |h| && h[x] != Empty && Sound(g, h, x)
    ensures Live(g, h, a) && PageOf(g, a) == x
  {
    match h[x]
    case Block(_) =>
      a := Address(g, x, 0, 0);
      Split(g, a, x, 0);
    case Pieces(shift, live) =>
      var j :| j in live;
      a := Address(g, x, shift, j);
      Place(g, x, shift, j);
  }

  /** Once every block is back, the pool is again one free run over all pages. */
  lemma EmptyPool(s: Slab)
    requires s.Valid() && forall a {:trigger Live(s.g, s.Contents(), a)} :: !Live(s.g, s.Contents(), a)
    ensures s.p.own[0] == FreeRun(0, s.g.pages) && s.p.t[0].slab == s.g.pages && s.p.FreeRuns() == [0]
  {
    hide Lists.Linked;
    forall x | 0 <= x < s.g.pages ensures !s.p.InUse(x) {
      HeldSound(s, x);
      if s.p.InUse(x) {
        assert s.p.InRun(x) && s.Good(x);
        var y := if s.p.own[x].Chunks? then x else s.p.own[x].head;
        HeldSound(s, y);
        assert s.Good(y) && s.p.own[y] == s.p.own[x];
        assert s.Contents()[y] != Empty;
        var a := FirstAt(s.g, s.Contents(), y);
      }
    }
    assert s.p.FreeSet() == Interval(0, s.p.l.n);
    s.p.AllFree();
  }
}
