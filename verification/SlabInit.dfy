/** ngx_slab_init: the first state of a pool. */
module SlabInit {
  import opened Bits
  import opened SlabLists
  import opened SlabPages
  import opened SlabGeometry
  import opened SlabListing
  import opened SlabState
  import opened SlabBlocks

  /** All list heads point to themselves, but for the free list, which has one run over all pages. */
  function FirstDesc(g: Geometry, i: nat): Desc
    requires g.Valid()
  {
    var free := g.pages + g.Slots();
    if i == 0 then Desc(g.pages, free, free, PAGE)
    else if i < g.pages then Desc(PAGE_FREE, NULL, NULL, PAGE)
    else if i < free then Desc(0, i, NULL, PAGE)
    else Desc(0, 0, NULL, PAGE)
  }

  function FirstTable(g: Geometry): Table
    requires g.Valid()
  {
    seq(g.pages + g.Slots() + 1, i requires 0 <= i => FirstDesc(g, i))
  }

  function TagOf(g: Geometry, k: nat): nat
    requires g.Valid()
  {
    if k == g.Slots() then PAGE else g.TypeOf(g.minShift + k)
  }

  function FirstLists(g: Geometry): Lists
    requires g.Valid()
  {
    Lists(g.pages, seq(g.pages, i => if i == 0 then g.Slots() else -1),
          seq(g.Slots() + 1, k => if k == g.Slots() then [0] else []),
          seq(g.Slots() + 1, k requires 0 <= k => TagOf(g, k)))
  }

  ghost function First(g: Geometry, words: seq<seq<nat>>): Slab
    requires g.Valid()
  {
    Slab(g, Pages(FirstTable(g), FirstLists(g), seq(g.pages, _ => FreeRun(0, g.pages))), words)
  }

  /** A page of memory: machine words. */
  ghost predicate PageMemory(g: Geometry, page: seq<nat>)
    requires g.Valid()
  {
    |page| == g.PageWords() && forall n {:trigger page[n]} :: 0 <= n < |page| ==> page[n] < Pow2(WORD_BITS)
  }

  ghost predicate Memory(g: Geometry, words: seq<seq<nat>>)
    requires g.Valid()
  {
    |words| == g.pages && forall x :: 0 <= x < |words| ==> PageMemory(g, words[x])
  }

  lemma FirstLinked(g: Geometry)
    requires g.Valid()
    ensures FirstLists(g).Linked(FirstTable(g))
  {
    var l, t := FirstLists(g), FirstTable(g);
    assert l.lists[g.Slots()][0] == 0;
    forall k | 0 <= k < |l.lists| ensures Ring(t, Head(l.n, k), l.lists[k]) {
    }
    l.LinkedFrom(t);
  }

  lemma FirstSettled(g: Geometry, words: seq<seq<nat>>)
    requires g.Valid()
    ensures Settled(First(g, words).p)
  {
    hide Lists.Linked;
    FirstLinked(g);
    var p := First(g, words).p;
    forall i | 0 <= i < p.l.n ensures p.InRun(i) && p.Cell(i) {
    }
  }

  /** The first state is valid, holds no block, and has all its pages free. */
  lemma FirstValid(g: Geometry, words: seq<seq<nat>>)
    requires g.Valid() && Memory(g, words)
    ensures var s := First(g, words);
      && s.Valid() && (forall x :: 0 <= x < g.pages ==> s.Contents()[x] == Empty) && |s.p.FreeSet()| == g.pages
  {
    hide Interval;
    hide Settled;
    hide Pages.Valid;
    hide Pow2;
    FirstSettled(g, words);
    var s := First(g, words);
    assert s.Sized();
    forall x | 0 <= x < g.pages ensures s.Good(x) {
      assert PageMemory(g, words[x]);
    }
    assert s.p.FreeSet() == Interval(0, g.pages);
  }

  /** Without blocks all counters are zero. */
  lemma {:induction false} NothingCounted(h: seq<Content>, shift: nat, n: nat)
    requires n <= |h| && forall x :: 0 <= x < |h| ==> h[x] == Empty
    ensures Used(h, shift, n) == 0 && PageCount(h, shift, n) == 0
  {
    if n > 0 {
      NothingCounted(h, shift, n - 1);
    }
  }

  lemma FirstStats(g: Geometry, h: seq<Content>)
    requires g.Valid() && forall x :: 0 <= x < |h| ==> h[x] == Empty
    ensures StatsOk(g, h, seq(g.Slots(), _ => Stat(0, 0, 0, 0)))
  {
    var stats := seq(g.Slots(), _ => Stat(0, 0, 0, 0));
    forall k {:trigger stats[k]} | 0 <= k < g.Slots() ensures StatOk(g, h, stats[k], g.minShift + k) {
      NothingCounted(h, g.minShift + k, |h|);
    }
  }

  lemma NothingLive(g: Geometry, h: seq<Content>, a: nat)
    requires forall x :: 0 <= x < |h| ==> h[x] == Empty
    ensures !Live(g, h, a)
  {
  }

  /** Where the pages begin and how many there are, for room bytes of memory from address p for descriptors
      of d bytes and pages of z bytes. */
  method Layout(p: nat, room: nat, d: nat, z: nat) returns (pages: nat, start: nat)
    requires d > 0 && z > 0 && room >= d + z
    ensures start % z == 0 && p + pages * d <= start && start + pages * z <= p + room
    ensures Div(room, d + z) - 1 <= pages <= Div(room, d + z)
  {
    pages := Div(room, d + z);
    var last := p + pages * d;
    start := (last + (z - 1)) / z * z;
    Aligned(last, z);
    LayoutFits(pages, room, d, z);
    assert pages * z <= room - pages * d;
    assert pages >= 1;
    AtLeastOne(pages, z);
    var fit := Div(p + room - start, z);
    FitBound(pages, p + room - start, z);
    var m := pages - fit;
    if m > 0 {
      pages := pages - m;
      AtMost(pages, fit + m, d);
    }
    AtMost(pages, fit, z);
  }

  lemma AtLeastOne(a: nat, b: nat)
    requires a >= 1
    ensures a * b >= b
  {
  }

  lemma AtMost(a: nat, b: nat, d: nat)
    requires a <= b
    ensures a * d <= b * d
  {
  }

  lemma Aligned(a: nat, z: nat)
    requires z > 0
    ensures var s := (a + (z - 1)) / z * z; a <= s < a + z && s % z == 0
  {
    var q := (a + (z - 1)) / z;
    Quotient(q * z, z, q, 0);
  }

  lemma LayoutFits(pages: nat, room: nat, d: nat, z: nat)
    requires d > 0 && z > 0 && room >= d + z && pages == Div(room, d + z)
    ensures pages >= 1 && pages * d + pages * z <= room
  {
    assert pages * (d + z) <= room;
  }

  lemma FitBound(pages: nat, n: nat, z: nat)
    requires z > 0 && pages * z - z < n
    ensures Div(n, z) >= pages - 1 && Div(n, z) * z <= n
  {
    var q := Div(n, z);
    if q < pages - 1 {
      AtMost(q + 1, pages - 1, z);
    }
  }
}
