/** The state of a slab pool, and what it holds: for each page, the block or the chunks handed out there. */
module SlabState {
  import opened Bits
  import opened SlabLists
  import opened SlabPages
  import opened SlabGeometry
  import opened SlabListing
  import C = SlabChunks

  /** What a page holds: nothing that begins there, a block of pages, or chunks of one size. */
  datatype Content = Empty | Block(len: nat) | Pieces(shift: nat, live: set<nat>)

  datatype Slab = Slab(g: Geometry, p: Pages, words: seq<seq<nat>>) {

    ghost predicate Sized() {
      && g.Valid() && Settled(p) && p.l.n == g.pages == |words| && |p.l.lists| == g.Slots() + 1 && |p.t| >= g.pages
      && |p.l.at| == |p.own| == g.pages
      && forall k {:trigger p.l.tags[k]} :: 0 <= k < g.Slots() ==>
         |p.l.tags| > k && p.l.tags[k] == g.TypeOf(g.minShift + k)
    }

    ghost predicate Page(x: int) {
      Sized() && 0 <= x < g.pages
    }

    /** The number of the list for a chunk size. */
    function Slot(shift: nat): int {
      shift - g.minShift
    }

    ghost function Chunks(x: int): C.Chunks
      requires Page(x) && p.own[x].Chunks?
    {
      C.Chunks(g, p.own[x].shift, p.t[x].slab, words[x])
    }

    ghost predicate Listed(x: int, c: C.Chunks)
      requires Page(x) && c.Shape()
    {
      && p.t[x].tag == g.TypeOf(c.shift)
      && if c.Full() then p.l.at[x] == -1 && p.t[x].next == NULL else p.l.at[x] == Slot(c.shift) && p.t[x].next != NULL
    }

    ghost predicate Fits(x: int)
      requires Page(x)
    {
      |words[x]| == g.PageWords() && forall n {:trigger words[x][n]} :: 0 <= n < |words[x]| ==>
        words[x][n] < Pow2(WORD_BITS)
    }

    /** A page of chunks has a live chunk, and is on the list of its size exactly when it has a free one. */
    ghost predicate Good(x: int)
      requires Page(x)
    {
      && Fits(x)
      && (p.own[x].Chunks? ==> Chunks(x).Valid() && Chunks(x).Live() != {} && Listed(x, Chunks(x)))
    }

    ghost predicate Valid() {
      Sized() && forall x {:trigger Good(x)} :: 0 <= x < g.pages ==> Good(x)
    }

    ghost function Held(x: int): Content
      requires Page(x)
    {
      match p.own[x]
      case Allocated(head, len) => if head == x then Block(len) else Empty
      case Chunks(shift) => if Chunks(x).Shape() then Pieces(shift, Chunks(x).Live()) else Empty
      case FreeRun(_, _) => Empty
      case Loose(_, _) => Empty
    }

    ghost function Contents(): seq<Content>
      requires Sized()
    {
      seq(g.pages, x requires 0 <= x < g.pages => Held(x))
    }

    lemma KeptHeld(after: Slab, y: int)
      requires Page(y) && after.Page(y) && after.g == g && p.SameSize(after.p) && p.Kept(after.p, y)
      requires words[y] == after.words[y]
      ensures after.Held(y) == Held(y)
      ensures Good(y) ==> after.Good(y)
    {
      hide Pages.Valid;
      if p.own[y].Chunks? {
        assert Chunks(y) == after.Chunks(y);
      }
    }

    /** Pages x..x+m-1 changed hands. */
    ghost predicate ChangedAt(after: Slab, x: int, m: nat) {
      && Sized() && after.Sized() && after.g == g && 0 <= x < x + m <= g.pages && p.KeptOutside(after.p, x, x + m)
      && forall y {:trigger after.words[y]} :: 0 <= y < g.pages && !(x <= y < x + m) ==> after.words[y] == words[y]
    }

    lemma Changed(after: Slab, x: int, m: nat)
      requires Valid() && ChangedAt(after, x, m)
      requires forall y {:trigger after.Good(y)} :: x <= y < x + m ==> after.Good(y)
      requires forall y :: x < y < x + m ==> Held(y) == Empty && after.Held(y) == Empty
      ensures after.Valid() && after.Contents() == Contents()[x := after.Held(x)]
    {
      hide Pages.Valid;
      hide Good;
      forall y | 0 <= y < g.pages
        ensures after.Good(y) && (y != x ==> after.Held(y) == Held(y))
      {
        if !(x <= y < x + m) {
          assert p.Kept(after.p, y) && Good(y);
          var w := after.words[y];
          KeptHeld(after, y);
        }
      }
    }

    lemma {:induction false} KeptBoth(q: Pages, r: Pages, x: int)
      requires p.KeptOutside(q, x, x + 1) && q.KeptOutside(r, x, x + 1)
      ensures p.KeptOutside(r, x, x + 1)
    {
      forall y | 0 <= y < p.l.n && y != x ensures p.Kept(r, y) {
        assert p.Kept(q, y) && q.Kept(r, y);
      }
    }

    /* ---- a chunk of the first page of a list ---- */

    /** The first page of a list has a free chunk of the list's size. */
    lemma FirstListed(slot: nat)
      requires Valid() && slot < g.Slots() && p.l.lists[slot] != []
      ensures var x := p.l.lists[slot][0];
        && FirstOf(p, x, slot) && Page(x) && p.own[x] == SlabPages.Own.Chunks(g.minShift + slot)
        && Chunks(x).Valid() && !Chunks(x).Full()
    {
      hide Lists.Linked;
      var x := p.l.lists[slot][0];
      FirstReady(p, x, slot);
      assert p.Cell(x) && p.InRun(x) && Good(x);
    }

    /** A page with a free chunk is on the list of its size. */
    lemma NoneListed(slot: nat, x: int)
      requires Valid() && slot < g.Slots() && p.l.lists[slot] == [] && 0 <= x < g.pages
      ensures p.own[x] == SlabPages.Own.Chunks(g.minShift + slot) ==>
        Chunks(x).Shape() && Chunks(x).Full()
    {
      hide Pages.Cell;
      hide Pages.InRun;
      hide Lists.Linked;
      assert Good(x);
      if p.own[x] == SlabPages.Own.Chunks(g.minShift + slot) {
        p.l.NoneOn(p.t, slot, x);
      }
    }

    ghost function Handed(x: int, slot: nat, j: nat): Slab
      requires Page(x) && p.own[x].Chunks? && Chunks(x).Shape() && j < Chunks(x).Count() && FirstOf(p, x, slot)
    {
      var c := Chunks(x).Marked(j);
      var q := Reslabbed(p, x, c.slab);
      Slab(g, if c.Full() then Unlisted(q, x, slot) else q, words[x := c.words])
    }

    lemma ReslabSized(x: int, c: C.Chunks, q: Pages)
      requires Valid() && Page(x) && Settled(q) && p.KeptOutside(q, x, x + 1) && c.Valid() && c.g == g
      ensures Slab(g, q, words[x := c.words]).Sized() && ChangedAt(Slab(g, q, words[x := c.words]), x, 1)
    {
      hide Pages.Valid;
    }

    lemma WordsOf(x: int, c: C.Chunks, q: Pages)
      requires Page(x) && Slab(g, q, words[x := c.words]).Sized() && Good(x) && c.Valid() && c.g == g
      requires c.Small() || c.words == words[x]
      ensures Slab(g, q, words[x := c.words]).Fits(x)
    {
    }

    lemma HandedKeeps(x: int, slot: nat, j: nat)
      requires Valid() && slot < g.Slots() && FirstOf(p, x, slot) && Page(x) && p.own[x].Chunks?
      requires Chunks(x).Shape() && j < Chunks(x).Count() && !Chunks(x).Taken(j)
      ensures Handed(x, slot, j).Valid()
      ensures Handed(x, slot, j).Contents() == Contents()[x := Pieces(p.own[x].shift, Chunks(x).Live() + {j})]
      ensures Chunks(x).Reserved() <= j && Handed(x, slot, j).p.own == p.own
      ensures |Contents()| == g.pages && Contents()[x] == Pieces(p.own[x].shift, Chunks(x).Live())
    {
      hide Slab.ReturnedOk;
      hide Slab.NewChunks;
      hide Pow2;
      hide Bit;
      hide SetBit;
      hide ClearBit;
      hide Ones;
      hide Shr;
      hide Elt;
      hide InTable;
      hide Ring;
      hide Without;
      hide WithNext;
      hide Pages.Valid;
      hide Lists.Linked;
      assert Good(x);
      var c := Chunks(x);
      c.MarkedValid(j);
      assert c.Reserved() <= j;
      c.MarkedLive(j);
      var c1 := c.Marked(j);
      var q := Reslabbed(p, x, c1.slab);
      ReslabKeeps(p, x, c1.slab);
      if c1.Full() {
        UnlistKeeps(q, x, slot);
        KeptBoth(q, Unlisted(q, x, slot), x);
      }
      var after := Handed(x, slot, j);
      ReslabSized(x, c1, after.p);
      WordsOf(x, c1, after.p);
      assert after.Chunks(x) == c1;
      assert after.Good(x);
      Changed(after, x, 1);
    }

    /* ---- a chunk comes back ---- */

    /** The chunk's bit is cleared; a page that was full goes back on its list first. */
    ghost function Returned(x: int, j: nat): Slab
      requires Page(x) && p.own[x].Chunks? && Chunks(x).Shape() && j < Chunks(x).Count()
      requires Chunks(x).Full() ==> Slot(p.own[x].shift) >= 0 && CanRelist(p, x, Slot(p.own[x].shift))
    {
      var c := Chunks(x).Cleared(j);
      var q := if Chunks(x).Full() then Relisted(p, x, Slot(p.own[x].shift)) else p;
      Slab(g, Reslabbed(q, x, c.slab), words[x := c.words])
    }

    ghost function ReturnedTo(x: int, j: nat): Slab
      requires Valid() && Page(x) && p.own[x].Chunks? && Chunks(x).Shape() && j < Chunks(x).Count()
    {
      ReturnedReady(x);
      Returned(x, j)
    }

    /** A chunk of the bitmap must not come back. */
    lemma ReservedReturned(x: int, j: nat)
      requires Valid() && Page(x) && p.own[x].Chunks? && Chunks(x).Shape() && j < Chunks(x).Reserved()
      requires j < Chunks(x).Count()
      ensures !ReturnedTo(x, j).Valid()
      ensures !Chunks(x).Cleared(j).LooksEmpty()
    {
      hide Pages.Valid;
      hide Lists.Linked;
      hide C.Chunks.Valid;
      hide C.Chunks.LooksEmpty;
      assert Good(x);
      var after, c := ReturnedTo(x, j), Chunks(x);
      c.ReservedLooks(j);
      c.EmptyTest();
      SettledSize();
      ReturnedReady(x);
      if c.Full() {
        RelistKeeps(p, x, Slot(p.own[x].shift));
      }
      if after.Sized() {
        assert after.Chunks(x) == c.Cleared(j);
        assert !after.Good(x);
      }
    }

    /** Everything but the page is good, and the page is on its list. */
    ghost predicate ReturnedOk(after: Slab, x: int, c: C.Chunks) {
      && ChangedAt(after, x, 1) && after.p.own == p.own && p.own[x].Chunks? && after.Chunks(x) == c && c.Valid()
      && after.Fits(x) && after.Listed(x, c) && !c.Full()
    }

    lemma ReturnedReady(x: int)
      requires Valid() && Page(x) && p.own[x].Chunks?
      ensures Chunks(x).Shape() && 0 <= Slot(p.own[x].shift) < p.FreeList()
      ensures Chunks(x).Full() ==> CanRelist(p, x, Slot(p.own[x].shift))
    {
      hide Pages.Valid;
      hide Lists.Linked;
      assert Good(x);
      SettledSize();
      HeadRange(p, Slot(p.own[x].shift));
    }

    lemma SettledSize()
      requires Settled(p)
      ensures |p.l.at| == p.l.n && |p.l.tags| == |p.l.lists| && |p.t| == p.l.n + |p.l.lists| && |p.own| == p.l.n
    {
    }

    lemma ReturnedKeeps(x: int, j: nat)
      requires Valid() && Page(x) && p.own[x].Chunks? && Chunks(x).Shape()
      requires Chunks(x).Reserved() <= j < Chunks(x).Count()
      requires Chunks(x).Full() ==> Slot(p.own[x].shift) >= 0 && CanRelist(p, x, Slot(p.own[x].shift))
      ensures var after := Returned(x, j);
        && ReturnedOk(after, x, Chunks(x).Cleared(j)) && Chunks(x).Cleared(j).Live() == Chunks(x).Live() - {j}
    {
      hide Pages.Valid;
      hide Lists.Linked;
      assert Good(x);
      SettledSize();
      var c, slot := Chunks(x), Slot(p.own[x].shift);
      var c1 := c.Cleared(j);
      c.MarkedValid(j);
      c.MarkedLive(j);
      c.MarkedTaken(j, j);
      assert !c1.Taken(j);
      var q := if c.Full() then Relisted(p, x, slot) else p;
      if c.Full() {
        RelistKeeps(p, x, slot);
      }
      ReslabKeeps(q, x, c1.slab);
      var after := Returned(x, j);
      if c.Full() {
        KeptBoth(q, after.p, x);
      }
      ReslabSized(x, c1, after.p);
      WordsOf(x, c1, after.p);
      assert after.Chunks(x) == c1;
    }

    lemma ReturnedValid(x: int, after: Slab)
      requires Valid() && Page(x) && p.own[x].Chunks? && Chunks(x).Shape()
      requires after.Page(x) && after.p.own == p.own && ReturnedOk(after, x, after.Chunks(x))
      requires after.Chunks(x).Live() != {}
      ensures after.Valid()
      ensures after.Contents() == Contents()[x := Pieces(p.own[x].shift, after.Chunks(x).Live())]
    {
      hide Pages.Valid;
      assert after.Good(x);
      Changed(after, x, 1);
    }

    /* ---- runs of pages ---- */

    lemma TakenBlock(x: int, m: nat, i: nat)
      requires Valid() && Page(x) && p.own[x].FreeRun? && p.own[x].head == x && 0 < m <= p.own[x].len
      requires i < |p.FreeRuns()| && p.FreeRuns()[i] == x
      ensures p.CanTake(x, m, i)
      ensures var after := Slab(g, p.Take(x, m, i), words);
        after.Valid() && after.Contents() == Contents()[x := Block(m)]
    {
      hide Lists.Linked;
      SettledSize();
      p.TakeKeeps(x, m, i);
      assert p.InRun(x);
      p.TakeOutside(x, m, i);
      var after := Slab(g, p.Take(x, m, i), words);
      forall y | x <= y < x + m ensures Held(y) == Empty && after.Good(y) && (y > x ==> after.Held(y) == Empty) {
        assert Good(y) && p.own[y] == p.own[x];
        assert after.Fits(y) by {
          assert Fits(y);
        }
      }
      Changed(after, x, m);
    }

    /** A free page becomes a page of chunks. */
    ghost function NewChunks(x: int, i: nat, shift: nat): Slab
      requires Page(x) && p.CanTake(x, 1, i) && g.ShiftOk(shift) && |words[x]| == g.PageWords()
      requires CanRelist(p.Take(x, 1, i), x, Slot(shift))
    {
      var c := C.Chunks(g, shift, 0, words[x]).Fresh();
      Slab(g, Converted(p.Take(x, 1, i), x, Slot(shift), c.slab, shift), words[x := c.words])
    }

    lemma SlotType(slot: nat)
      requires Sized() && slot < g.Slots()
      ensures |p.l.tags| > slot && p.l.tags[slot] == g.TypeOf(g.minShift + slot) && p.l.tags[slot] != PAGE
    {
      var tag := p.l.tags[slot];
    }

    lemma NewReady(x: int, i: nat, shift: nat)
      requires Valid() && Page(x) && p.own[x].FreeRun? && p.own[x].head == x
      requires i < |p.FreeRuns()| && p.FreeRuns()[i] == x && g.ShiftOk(shift)
      ensures p.CanTake(x, 1, i) && CanRelist(p.Take(x, 1, i), x, Slot(shift))
      ensures Settled(p.Take(x, 1, i)) && p.KeptOutside(p.Take(x, 1, i), x, x + 1)
      ensures p.Take(x, 1, i).own[x] == Allocated(x, 1)
      ensures p.Take(x, 1, i).l.lists[Slot(shift)] == p.l.lists[Slot(shift)]
    {
      hide Lists.Linked;
      SettledSize();
      assert p.InRun(x);
      p.TakeKeeps(x, 1, i);
      p.TakeOutside(x, 1, i);
      var q := p.Take(x, 1, i);
      assert Slab(g, q, words).Sized();
      Slab(g, q, words).SlotType(Slot(shift));
      Slab(g, q, words).SettledSize();
      HeadRange(q, Slot(shift));
      assert q.Cell(x);
    }

    lemma NewKeeps(x: int, i: nat, shift: nat)
      requires Valid() && Page(x) && p.own[x].FreeRun? && p.own[x].head == x
      requires i < |p.FreeRuns()| && p.FreeRuns()[i] == x && g.ShiftOk(shift) && p.l.lists[Slot(shift)] == []
      ensures p.CanTake(x, 1, i) && CanRelist(p.Take(x, 1, i), x, Slot(shift)) && |words[x]| == g.PageWords()
      ensures NewChunks(x, i, shift).Valid()
      ensures NewChunks(x, i, shift).Contents() == Contents()[x := Pieces(shift, {g.Reserved(shift)})]
      ensures |Contents()| == g.pages && Contents()[x] == Empty
    {
      hide Pow2;
      hide Pages.Take;
      hide Lists.Linked;
      hide Pages.Valid;
      NewReady(x, i, shift);
      assert Good(x);
      var c := C.Chunks(g, shift, 0, words[x]);
      c.FreshValid();
      var q := p.Take(x, 1, i);
      SlotType(Slot(shift));
      ConvertKeeps(q, x, Slot(shift), c.Fresh().slab, shift);
      var after := NewChunks(x, i, shift);
      KeptBoth(q, after.p, x);
      ReslabSized(x, c.Fresh(), after.p);
      assert after.Chunks(x) == c.Fresh();
      c.FreshFits();
      assert after.Fits(x);
      assert after.Good(x);
      Changed(after, x, 1);
    }

    /** Pages that are not in use hold nothing. */
    lemma FreedRun(after: Slab, x: int, m: nat)
      requires Valid() && ChangedAt(after, x, m)
      requires forall y :: x <= y < x + m ==> !after.p.InUse(y) && after.Fits(y)
      requires forall y :: x < y < x + m ==> Held(y) == Empty
      ensures after.Valid() && after.Contents() == Contents()[x := Empty]
    {
      hide Pages.Valid;
      forall y | x <= y < x + m ensures after.Good(y) && after.Held(y) == Empty {
        assert !after.p.InUse(y);
      }
      Changed(after, x, m);
    }
  }
}
