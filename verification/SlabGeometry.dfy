/** Geometry of a slab pool: page size, chunk sizes, and the part of a small-chunk page that holds the
    page's own bitmap. */
module SlabGeometry {
  import opened Bits
  import opened SlabLists

  const WORD_BITS: nat := 64

  /** More pages than an address space holds. */
  const PAGES_MAX: nat := 0x4000_0000_0000_0000

  function Div(a: nat, b: nat): (q: nat)
    requires b > 0
  {
    a / b
  }

  /** Powers of two that do not change over the life of a pool. The page size is what the platform
      reports (64 bytes would be the least for which the code makes sense), and a chunk shift must fit
      the four bits that NGX_SLAB_SHIFT_MASK keeps. */
  datatype Geometry = Geometry(pageShift: nat, minShift: nat, pages: nat) {
    predicate Valid() {
      6 <= pageShift <= 16 && minShift < pageShift && 0 < pages && pages < PAGES_MAX
    }

    function PageSize(): nat { Pow2(pageShift) }

    function PageWords(): nat
      requires Valid()
    {
      Pow2(pageShift - 3)
    }

    /** ngx_slab_exact_shift: a page has exactly one bit per chunk in a word. */
    function ExactShift(): nat
      requires Valid()
    {
      pageShift - 6
    }

    function Slots(): nat
      requires Valid()
    {
      pageShift - minShift
    }

    predicate ShiftOk(shift: nat) { minShift <= shift < pageShift }

    /** Chunks of a page: ngx_pagesize >> shift. */
    function ChunkCount(shift: nat): nat
      requires ShiftOk(shift)
    {
      Pow2(pageShift - shift)
    }

    /** Words of the in-page bitmap. */
    function MapWords(shift: nat): nat
      requires Valid() && ShiftOk(shift) && shift < ExactShift()
    {
      ChunkCount(shift) / WORD_BITS
    }

    /** Chunks at the start of a small-chunk page that its own bitmap occupies. */
    function Reserved(shift: nat): nat
      requires Valid() && ShiftOk(shift)
    {
      if shift < ExactShift() then
        var n := Div(ChunkCount(shift), Pow2(shift) * 8);
        if n == 0 then 1 else n
      else 0
    }

    function TypeOf(shift: nat): nat
      requires Valid()
    {
      if shift < ExactShift() then SMALL else if shift == ExactShift() then EXACT else BIG
    }

    lemma MapFacts(shift: nat)
      requires Valid() && ShiftOk(shift) && shift < ExactShift()
      ensures MapWords(shift) == Pow2(pageShift - shift - 6) >= 2
      ensures ChunkCount(shift) == MapWords(shift) * WORD_BITS
      ensures Pow2(pageShift - shift - 3) == MapWords(shift) * 8
    {
      var e := pageShift - shift;
      Pow2Add(6, e - 6);
      Pow2Add(3, e - 6);
      assert Pow2(6) == 64 && Pow2(3) == 8;
      Pow2Less(0, e - 6);
    }

    lemma ReservedFacts(shift: nat)
      requires Valid() && ShiftOk(shift) && shift < ExactShift()
      ensures Reserved(shift) == if pageShift - shift >= shift + 3 then Pow2(pageShift - 2 * shift - 3) else 1
    {
      var e := pageShift - shift;
      Pow2Add(shift, 3);
      assert Pow2(3) == 8;
      if e >= shift + 3 {
        Pow2Add(e - shift - 3, shift + 3);
        Quotient(Pow2(e), Pow2(shift + 3), Pow2(e - shift - 3), 0);
      } else {
        Pow2Less(e, shift + 3);
        Quotient(Pow2(e), Pow2(shift + 3), 0, Pow2(e));
      }
    }

    lemma SmallFits(shift: nat)
      requires Valid() && ShiftOk(shift) && shift < ExactShift()
      ensures 0 < Reserved(shift) && Reserved(shift) + 1 < ChunkCount(shift)
      ensures MapWords(shift) * 8 <= Reserved(shift) * Pow2(shift)
    {
      hide Geometry.Valid;
      hide Reserved;
      var e := pageShift - shift;
      MapFacts(shift);
      ReservedFacts(shift);
      assert Pow2(e) == 2 * Pow2(e - 1) == 4 * Pow2(e - 2) == 8 * Pow2(e - 3);
      SmallFitsAt(e, shift);
    }

    static lemma SmallFitsAt(e: nat, shift: nat)
      requires e >= 3
      ensures e >= shift + 3 ==> Pow2(e - 3) == Pow2(e - shift - 3) * Pow2(shift) && Pow2(e - shift - 3) <= Pow2(e - 3)
      ensures e < shift + 3 ==> Pow2(e - 3) <= Pow2(shift)
    {
      if e >= shift + 3 {
        Pow2Add(e - shift - 3, shift);
        if shift > 0 {
          Pow2Less(e - shift - 3, e - 3);
        }
      } else if shift > e - 3 {
        Pow2Less(e - 3, shift);
      }
    }

    static lemma OneFewer(r: nat, p: nat, m: nat)
      requires p > 0 && m > 0 && (r * p == m || r == 1)
      ensures (r - 1) * p < m
    {
      assert (r - 1) * p == r * p - p;
    }

    lemma ReservedLeast(shift: nat)
      requires Valid() && ShiftOk(shift) && shift < ExactShift()
      ensures (Reserved(shift) - 1) * Pow2(shift) < MapWords(shift) * 8
    {
      MapFacts(shift);
      ReservedFacts(shift);
      SmallFitsAt(pageShift - shift, shift);
      OneFewer(Reserved(shift), Pow2(shift), MapWords(shift) * 8);
    }

    /** The bitmap fits into the reserved chunks, into fewer it does not, and they leave room for others. */
    lemma ReservedFits(shift: nat)
      requires Valid() && ShiftOk(shift)
      ensures shift < ExactShift() ==> 0 < Reserved(shift) && Reserved(shift) + 1 < ChunkCount(shift)
      ensures shift < ExactShift() ==>
                && MapWords(shift) * 8 <= Reserved(shift) * Pow2(shift)
                && (Reserved(shift) - 1) * Pow2(shift) < MapWords(shift) * 8
      ensures shift == ExactShift() ==> ChunkCount(shift) == WORD_BITS
      ensures shift > ExactShift() ==> 2 <= ChunkCount(shift) <= 32
    {
      var e := pageShift - shift;
      assert Pow2(6) == 64 && Pow2(5) == 32 && Pow2(1) == 2;
      if shift < ExactShift() {
        SmallFits(shift);
        ReservedLeast(shift);
      } else if shift > ExactShift() {
        if e < 5 {
          Pow2Less(e, 5);
        }
        if e > 1 {
          Pow2Less(1, e);
        }
      }
    }
  }
}
