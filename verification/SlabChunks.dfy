/** The bitmap of a page of chunks: in the page itself, in the descriptor's slab word, or in its upper half. */
module SlabChunks {
  import opened Bits
  import opened SlabLists
  import opened SlabGeometry

  const HALF_BITS: nat := 32

  /** What the allocator keeps of a page's chunks: the slab word and the words at the start of the page. */
  datatype Chunks = Chunks(g: Geometry, shift: nat, slab: nat, words: seq<nat>)
  {
    ghost predicate Shape() {
      && g.Valid() && g.ShiftOk(shift) && |words| == g.PageWords()
    }

    function Count(): nat
      requires g.ShiftOk(shift)
    {
      g.ChunkCount(shift)
    }

    function Reserved(): nat
      requires g.Valid() && g.ShiftOk(shift)
    {
      g.Reserved(shift)
    }

    predicate Small()
      requires g.Valid()
    {
      shift < g.ExactShift()
    }

    lemma WordInMap(k: nat)
      requires Shape() && Small() && k < Count()
      ensures k / WORD_BITS < g.MapWords(shift) <= |words|
    {
      g.MapFacts(shift);
      if shift > 0 {
        Pow2Less(g.pageShift - shift - 6, g.pageShift - 3);
      } else {
        Pow2Less(g.pageShift - 6, g.pageShift - 3);
      }
    }

    /** The bit of chunk k. */
    predicate Taken(k: nat)
      requires Shape() && k < Count()
    {
      if Small() then
        WordInMap(k);
        Bit(words[k / WORD_BITS], k % WORD_BITS)
      else if shift == g.ExactShift() then Bit(slab, k)
      else Bit(slab, HALF_BITS + k)
    }

    ghost predicate WordsFit() {
      forall n {:trigger words[n]} :: 0 <= n < |words| ==> words[n] < Pow2(WORD_BITS)
    }

    /** Words are machine words, the shift can be read back, and the chunks that hold the bitmap are taken. */
    ghost predicate Valid() {
      && Shape()
      && (if Small() then
            slab == shift && WordsFit()
          else if shift == g.ExactShift() then slab < Pow2(WORD_BITS)
          else slab % Pow2(HALF_BITS) == shift && Shr(slab, HALF_BITS) < Pow2(Count()))
      && forall k {:trigger Taken(k)} :: 0 <= k < Reserved() && k < Count() ==> Taken(k)
    }

    /** The chunks handed out. */
    ghost function Live(): set<nat>
      requires Shape()
    {
      set k {:trigger Taken(k)} | Reserved() <= k < Count() && Taken(k)
    }

    ghost predicate Full()
      requires Shape()
    {
      forall k {:trigger Taken(k)} :: 0 <= k < Count() ==> Taken(k)
    }

    /** bitmap[n] |= m, page->slab |= m */
    function Marked(k: nat): (c: Chunks)
      requires Shape() && k < Count()
      ensures c.Shape() && c.g == g && c.shift == shift
    {
      if Small() then
        WordInMap(k);
        this.(words := words[k / WORD_BITS := SetBit(words[k / WORD_BITS], k % WORD_BITS)])
      else this.(slab := SetBit(slab, if shift == g.ExactShift() then k else HALF_BITS + k))
    }

    /** bitmap[n] &= ~m, page->slab &= ~m */
    function Cleared(k: nat): (c: Chunks)
      requires Shape() && k < Count()
      ensures c.Shape() && c.g == g && c.shift == shift
    {
      if Small() then
        WordInMap(k);
        this.(words := words[k / WORD_BITS := ClearBit(words[k / WORD_BITS], k % WORD_BITS)])
      else this.(slab := ClearBit(slab, if shift == g.ExactShift() then k else HALF_BITS + k))
    }

    lemma MarkedTaken(k: nat, j: nat)
      requires Shape() && k < Count() && j < Count()
      ensures Marked(k).Taken(j) <==> j == k || Taken(j)
      ensures Cleared(k).Taken(j) <==> j != k && Taken(j)
    {
      if Small() {
        WordInMap(k);
        WordInMap(j);
        SetBitAt(words[k / WORD_BITS], k % WORD_BITS, j % WORD_BITS);
        ClearBitAt(words[k / WORD_BITS], k % WORD_BITS, j % WORD_BITS);
      } else {
        var low := if shift == g.ExactShift() then 0 else HALF_BITS;
        SetBitAt(slab, low + k, low + j);
        ClearBitAt(slab, low + k, low + j);
      }
    }

    lemma MarkedLive(k: nat)
      requires Shape() && Reserved() <= k < Count()
      ensures Marked(k).Live() == Live() + {k}
      ensures Cleared(k).Live() == Live() - {k}
    {
      forall j | 0 <= j < Count()
        ensures j in Marked(k).Live() <==> j in Live() + {k}
        ensures j in Cleared(k).Live() <==> j in Live() - {k}
      {
        MarkedTaken(k, j);
      }
    }

    lemma MarkedWord(k: nat)
      requires Valid() && Small() && k < Count()
      ensures Marked(k).slab == Cleared(k).slab == shift && Marked(k).WordsFit() && Cleared(k).WordsFit()
    {
      WordInMap(k);
      SetBitBound(words[k / WORD_BITS], k % WORD_BITS, WORD_BITS);
      ClearBitBound(words[k / WORD_BITS], k % WORD_BITS);
    }

    lemma MarkedSlab(k: nat)
      requires Valid() && !Small() && k < Count()
      ensures forall c :: c == Marked(k) || c == Cleared(k) ==>
        if shift == g.ExactShift() then c.slab < Pow2(WORD_BITS)
        else c.slab % Pow2(HALF_BITS) == shift && Shr(c.slab, HALF_BITS) < Pow2(Count())
    {
      hide Shr;
      hide SetBit;
      hide ClearBit;
      hide Pow2;
      g.ReservedFits(shift);
      if shift == g.ExactShift() {
        SetBitBound(slab, k, WORD_BITS);
        ClearBitBound(slab, k);
      } else {
        LowBits(slab, HALF_BITS + k, HALF_BITS);
        ShrSet(slab, HALF_BITS, k);
        SetBitBound(Shr(slab, HALF_BITS), k, Count());
        ClearBitBound(Shr(slab, HALF_BITS), k);
      }
    }

    lemma MarkedValid(k: nat)
      requires Valid() && k < Count()
      ensures Marked(k).Valid()
      ensures Reserved() <= k ==> Cleared(k).Valid()
    {
      if Small() {
        MarkedWord(k);
      } else {
        MarkedSlab(k);
      }
      forall j | 0 <= j < Reserved() && j < Count()
        ensures Marked(k).Taken(j) && (Reserved() <= k ==> Cleared(k).Taken(j))
      {
        assert Taken(j);
        MarkedTaken(k, j);
      }
    }

    /** What the code compares to tell whether every chunk is taken. */
    predicate LooksFull()
      requires Shape()
    {
      if Small() then
        var n := Count() - 1;
        WordInMap(n);
        forall n :: 0 <= n < g.MapWords(shift) ==> words[n] == Ones(WORD_BITS)
      else if shift == g.ExactShift() then slab == Ones(WORD_BITS)
      else Shr(slab, HALF_BITS) == Ones(Count())
    }

    lemma FullTest()
      requires Valid()
      ensures Full() <==> LooksFull()
    {
      hide Shr;
      hide Bit;
      hide Ones;
      g.ReservedFits(shift);
      if Small() {
        WordInMap(Count() - 1);
        SmallFullTest();
      } else if shift == g.ExactShift() {
        if slab != Ones(WORD_BITS) {
          var j := ClearFound(slab, WORD_BITS);
          assert !Taken(j);
        } else {
          forall k | 0 <= k < Count() ensures Taken(k) {
            OnesAt(WORD_BITS, k);
          }
        }
      } else {
        if Shr(slab, HALF_BITS) != Ones(Count()) {
          var j := ClearFound(Shr(slab, HALF_BITS), Count());
          ShrBit(slab, HALF_BITS, j);
          assert !Taken(j);
        } else {
          forall k | 0 <= k < Count() ensures Taken(k) {
            OnesAt(Count(), k);
            ShrBit(slab, HALF_BITS, k);
          }
        }
      }
    }

    lemma ChunkAt(n: nat, j: nat)
      requires Shape() && Small() && n < g.MapWords(shift) && j < WORD_BITS
      ensures var k := n * WORD_BITS + j; k < Count() && k / WORD_BITS == n && k % WORD_BITS == j
    {
      g.MapFacts(shift);
    }

    lemma SmallFullTest()
      requires Valid() && Small() && g.MapWords(shift) <= |words|
      ensures Full() <==> forall n :: 0 <= n < g.MapWords(shift) ==> words[n] == Ones(WORD_BITS)
    {
      hide Ones;
      hide Bit;
      if n :| 0 <= n < g.MapWords(shift) && words[n] != Ones(WORD_BITS) {
        var j := ClearFound(words[n], WORD_BITS);
        ChunkAt(n, j);
        assert !Taken(n * WORD_BITS + j);
      } else {
        forall k | 0 <= k < Count() ensures Taken(k) {
          WordInMap(k);
          OnesAt(WORD_BITS, k % WORD_BITS);
        }
      }
    }

    predicate SmallLooksEmpty()
      requires Shape() && Small()
    {
      g.ReservedFits(shift);
      WordInMap(Reserved());
      WordInMap(Count() - 1);
      && Shr(words[Reserved() / WORD_BITS], Reserved() % WORD_BITS) == 0
      && forall n :: Reserved() / WORD_BITS < n < g.MapWords(shift) ==> words[n] == 0
    }

    /** What the code compares to tell whether no chunk but the reserved ones is taken: bitmap words from the
        one with the first chunk that is not reserved, with the reserved bits masked off. */
    predicate LooksEmpty()
      requires Shape()
    {
      if Small() then SmallLooksEmpty()
      else if shift == g.ExactShift() then slab == 0
      else Shr(slab, HALF_BITS) == 0
    }

    lemma EmptyTest()
      requires Valid()
      ensures Live() == {} <==> LooksEmpty()
    {
      hide Live;
      hide SmallLooksEmpty;
      hide Taken;
      g.ReservedFits(shift);
      if Small() {
        WordInMap(Reserved());
        SmallEmptyTest();
      } else {
        assert Reserved() == 0;
        WordEmptyTest();
      }
    }

    /** The bits of the bitmap's own chunks are not looked at. */
    lemma ReservedLooks(j: nat)
      requires Valid() && j < Reserved() && j < Count()
      ensures Cleared(j).LooksEmpty() <==> LooksEmpty()
      ensures !Cleared(j).Valid()
    {
      hide Bit;
      hide Shr;
      hide ClearBit;
      g.ReservedFits(shift);
      MarkedTaken(j, j);
      assert !Cleared(j).Taken(j);
      hide Taken;
      var r, q := Reserved() % WORD_BITS, Reserved() / WORD_BITS;
      WordInMap(Reserved());
      WordInMap(j);
      var c := Cleared(j);
      if j / WORD_BITS == q {
        ShrClearLow(words[q], j % WORD_BITS, r);
      }
      assert Shr(c.words[q], r) == Shr(words[q], r);
      assert forall n :: q < n < g.MapWords(shift) ==> c.words[n] == words[n];
    }

    lemma WordEmptyTest()
      requires Valid() && !Small() && Reserved() == 0
      ensures Live() == {} <==> LooksEmpty()
    {
      hide Shr;
      hide Bit;
      hide Pow2;
      hide Geometry.Reserved;
      g.ReservedFits(shift);
      if shift == g.ExactShift() {
        if slab != 0 {
          var j := SomeBit(slab, WORD_BITS);
          assert Taken(j) && j in Live();
        }
      } else if Shr(slab, HALF_BITS) != 0 {
        var j := SomeBit(Shr(slab, HALF_BITS), Count());
        ShrBit(slab, HALF_BITS, j);
        assert Taken(j) && j in Live();
      }
      forall k | 0 <= k < Count() && LooksEmpty() ensures !Taken(k) {
        ZeroAt(k);
        ShrBit(slab, HALF_BITS, k);
      }
      assert LooksEmpty() ==> Live() == {};
    }

    lemma SmallTaken(n: nat, j: nat)
      requires Shape() && Small() && n < g.MapWords(shift) <= |words| && j < WORD_BITS
      ensures n * WORD_BITS + j < Count() && (Taken(n * WORD_BITS + j) <==> Bit(words[n], j))
    {
      hide Bit;
      ChunkAt(n, j);
    }

    lemma SmallEmptyTest()
      requires Valid() && Small() && g.MapWords(shift) <= |words| && Reserved() / WORD_BITS < g.MapWords(shift)
      ensures Live() == {} <==> SmallLooksEmpty()
    {
      hide Pow2;
      hide Shr;
      hide Bit;
      hide Taken;
      var r, q := Reserved() % WORD_BITS, Reserved() / WORD_BITS;
      if Shr(words[q], r) != 0 {
        ShrBound(words[q], r, WORD_BITS - r);
        var j := SomeBit(Shr(words[q], r), WORD_BITS - r);
        ShrBit(words[q], r, j);
        SmallTaken(q, r + j);
        assert q * WORD_BITS + (r + j) in Live();
      } else if n :| q < n < g.MapWords(shift) && words[n] != 0 {
        var j := SomeBit(words[n], WORD_BITS);
        SmallTaken(n, j);
        assert n * WORD_BITS + j in Live();
      } else {
        forall k | Reserved() <= k < Count() ensures !Taken(k) {
          SmallEmptyAt(k);
        }
      }
    }

    lemma SmallEmptyAt(k: nat)
      requires Shape() && Small() && g.MapWords(shift) <= |words| && Reserved() <= k < Count() && SmallLooksEmpty()
      ensures !Taken(k)
    {
      hide Shr;
      hide Bit;
      WordInMap(k);
      var n, j := k / WORD_BITS, k % WORD_BITS;
      var r, q := Reserved() % WORD_BITS, Reserved() / WORD_BITS;
      SmallTaken(n, j);
      if n == q {
        ZeroAt(j - r);
        ShrBit(words[q], r, j - r);
      } else {
        ZeroAt(j);
      }
    }

    /* ---- the loops over the bitmap ---- */

    /** Scans for the first chunk that is not taken. */
    method FirstClear() returns (j: nat)
      requires Valid() && !Full()
      ensures j < Count() && !Taken(j)
      ensures forall k {:trigger Taken(k)} :: 0 <= k < j ==> Taken(k)
    {
      if Small() {
        j := FirstClearSmall();
      } else {
        hide Bit;
        j := 0;
        while j < Count()
          invariant j <= Count()
          invariant forall k {:trigger Taken(k)} :: 0 <= k < j ==> Taken(k)
        {
          if !Taken(j) {
            return;
          }
          j := j + 1;
        }
        assert false;
      }
    }

    lemma WordTaken(n: nat)
      requires Shape() && Small() && n < g.MapWords(shift) <= |words| && words[n] == Ones(WORD_BITS)
      ensures (n + 1) * WORD_BITS <= Count()
      ensures forall k {:trigger Taken(k)} :: n * WORD_BITS <= k < (n + 1) * WORD_BITS ==> Taken(k)
    {
      hide Ones;
      hide Bit;
      g.MapFacts(shift);
      forall k | n * WORD_BITS <= k < (n + 1) * WORD_BITS ensures Taken(k) {
        SmallTaken(n, k - n * WORD_BITS);
        OnesAt(WORD_BITS, k - n * WORD_BITS);
      }
    }

    /** The loop over the bits of a word. */
    static method FirstClearBit(word: nat) returns (i: nat)
      requires word < Pow2(WORD_BITS) && word != Ones(WORD_BITS)
      ensures i < WORD_BITS && !Bit(word, i) && forall k {:trigger Bit(word, k)} :: 0 <= k < i ==> Bit(word, k)
    {
      hide Ones;
      hide Bit;
      hide Pow2;
      ghost var clear := ClearFound(word, WORD_BITS);
      i := 0;
      while Bit(word, i)
        invariant i <= clear && forall k {:trigger Bit(word, k)} :: 0 <= k < i ==> Bit(word, k)
        decreases clear - i
      {
        i := i + 1;
      }
    }

    lemma WordScanned(n: nat, i: nat)
      requires Shape() && Small() && n < g.MapWords(shift) <= |words| && i < WORD_BITS && !Bit(words[n], i)
      requires forall k {:trigger Bit(words[n], k)} :: 0 <= k < i ==> Bit(words[n], k)
      requires forall k {:trigger Taken(k)} :: 0 <= k < n * WORD_BITS ==> k < Count() && Taken(k)
      ensures n * WORD_BITS + i < Count() && !Taken(n * WORD_BITS + i)
      ensures forall k {:trigger Taken(k)} :: 0 <= k < n * WORD_BITS + i ==> k < Count() && Taken(k)
    {
      hide Bit;
      hide Taken;
      SmallTaken(n, i);
      forall k | n * WORD_BITS <= k < n * WORD_BITS + i ensures k < Count() && Taken(k) {
        SmallTaken(n, k - n * WORD_BITS);
      }
    }

    method FirstClearSmall() returns (j: nat)
      requires Valid() && !Full() && Small()
      ensures j < Count() && !Taken(j)
      ensures forall k {:trigger Taken(k)} :: 0 <= k < j ==> Taken(k)
    {
      hide Ones;
      hide Bit;
      hide Taken;
      hide Full;
      hide Pow2;
      g.MapFacts(shift);
      WordInMap(0);
      var size := Count() / WORD_BITS;
      var n := 0;
      while n < size
        invariant 0 <= n <= size == g.MapWords(shift) <= |words|
        invariant forall k {:trigger Taken(k)} :: 0 <= k < n * WORD_BITS ==> k < Count() && Taken(k)
      {
        if words[n] != Ones(WORD_BITS) {
          var i := FirstClearBit(words[n]);
          WordScanned(n, i);
          return n * WORD_BITS + i;
        } else {
          WordTaken(n);
        }
        n := n + 1;
      }
      AllScanned();
      assert false;
    }

    lemma AllScanned()
      requires Shape() && Small()
      requires forall k {:trigger Taken(k)} :: 0 <= k < g.MapWords(shift) * WORD_BITS ==> k < Count() && Taken(k)
      ensures Full()
    {
      hide Taken;
      g.MapFacts(shift);
    }

    /** After chunk j, the first that was clear, was marked: whether there is no clear chunk left. */
    method Exhausted(j: nat) returns (full: bool)
      requires Valid() && j < Count() && forall k {:trigger Taken(k)} :: 0 <= k <= j ==> Taken(k)
      ensures full <==> Full()
    {
      hide Shr;
      hide Ones;
      hide Bit;
      FullTest();
      if Small() {
        full := ExhaustedSmall(j);
      } else if shift == g.ExactShift() {
        full := slab == Ones(WORD_BITS);
      } else {
        full := Shr(slab, HALF_BITS) == Ones(Count());
      }
    }

    method ExhaustedSmall(j: nat) returns (full: bool)
      requires Valid() && Small() && j < Count() && forall k {:trigger Taken(k)} :: 0 <= k <= j ==> Taken(k)
      ensures full <==> LooksFull()
    {
      hide Ones;
      hide Bit;
      WordInMap(j);
      WordInMap(Count() - 1);
      var n := j / WORD_BITS;
      BusyBelow(j);
      if words[n] != Ones(WORD_BITS) {
        return false;
      }
      n := n + 1;
      while n < g.MapWords(shift)
        invariant 0 <= n <= g.MapWords(shift)
        invariant forall k :: 0 <= k < n ==> words[k] == Ones(WORD_BITS)
      {
        if words[n] != Ones(WORD_BITS) {
          return false;
        }
        n := n + 1;
      }
      full := true;
    }

    /** Words below that of chunk j are all ones when all chunks up to j are taken. */
    lemma BusyBelow(j: nat)
      requires Valid() && Small() && j < Count() && forall k {:trigger Taken(k)} :: 0 <= k <= j ==> Taken(k)
      requires j / WORD_BITS < g.MapWords(shift) <= |words|
      ensures forall n :: 0 <= n < j / WORD_BITS ==> words[n] == Ones(WORD_BITS)
    {
      hide Ones;
      hide Bit;
      hide Taken;
      forall n | 0 <= n < j / WORD_BITS ensures words[n] == Ones(WORD_BITS) {
        if words[n] != Ones(WORD_BITS) {
          var i := ClearFound(words[n], WORD_BITS);
          SmallTaken(n, i);
          assert false;
        }
      }
    }

    /** The loop that looks for a chunk in use. */
    method Unused() returns (empty: bool)
      requires Shape()
      ensures empty <==> LooksEmpty()
    {
      hide Shr;
      hide Bit;
      if Small() {
        empty := UnusedSmall();
      } else if shift == g.ExactShift() {
        empty := slab == 0;
      } else {
        empty := Shr(slab, HALF_BITS) == 0;
      }
    }

    method UnusedSmall() returns (empty: bool)
      requires Shape() && Small()
      ensures empty <==> SmallLooksEmpty()
    {
      hide Shr;
      hide Bit;
      g.ReservedFits(shift);
      WordInMap(Reserved());
      WordInMap(Count() - 1);
      var i := Reserved() / WORD_BITS;
      if Shr(words[i], Reserved() % WORD_BITS) != 0 {
        return false;
      }
      i := i + 1;
      while i < g.MapWords(shift)
        invariant Reserved() / WORD_BITS < i <= g.MapWords(shift)
        invariant forall n :: Reserved() / WORD_BITS < n < i ==> words[n] == 0
      {
        if words[i] != 0 {
          return false;
        }
        i := i + 1;
      }
      empty := true;
    }

    /* ---- a new page ---- */

    /** Word n of the bitmap of a new page of small chunks: the reserved chunks and the next one are taken. */
    function FreshWord(n: nat): nat
      requires Shape()
    {
      var r := Reserved() + 1;
      if n < r / WORD_BITS then Ones(WORD_BITS) else if n == r / WORD_BITS then Ones(r % WORD_BITS) else 0
    }

    /** What the code writes for a new page. */
    ghost function Fresh(): (c: Chunks)
      requires Shape()
      ensures c.Shape() && c.g == g && c.shift == shift
    {
      if Small() then
        this.(slab := shift,
              words := seq(|words|, n requires 0 <= n < |words| => if n < g.MapWords(shift) then FreshWord(n)
                else words[n]))
      else if shift == g.ExactShift() then this.(slab := SetBit(0, 0))
      else this.(slab := SetBit(shift, HALF_BITS))
    }

    lemma FreshWordAt(n: nat, j: nat)
      requires Shape() && j < WORD_BITS
      ensures Bit(FreshWord(n), j) <==> n * WORD_BITS + j <= Reserved()
    {
      hide Bit;
      hide Ones;
      hide Geometry.Reserved;
      OnesAt(WORD_BITS, j);
      OnesAt((Reserved() + 1) % WORD_BITS, j);
      ZeroAt(j);
    }

    lemma FreshTaken(k: nat)
      requires Shape() && k < Count()
      ensures Fresh().Taken(k) <==> k <= Reserved()
    {
      hide Bit;
      hide FreshWord;
      hide Shr;
      if Small() {
        WordInMap(k);
        FreshWordAt(k / WORD_BITS, k % WORD_BITS);
      } else if shift == g.ExactShift() {
        SetBitAt(0, 0, k);
        ZeroAt(k);
      } else {
        SetBitAt(shift, HALF_BITS, HALF_BITS + k);
        SmallShift();
        ShrBit(shift, HALF_BITS, k);
        ZeroAt(k);
      }
    }

    static lemma SmallRest(r: nat, d: nat)
      requires r < d
      ensures r % d == r
    {
    }

    lemma SmallShift()
      requires Shape()
      ensures shift < Pow2(HALF_BITS) && Shr(shift, HALF_BITS) == 0 && shift % Pow2(HALF_BITS) == shift
    {
      hide Shr;
      assert Pow2(4) == 16;
      Pow2Less(4, HALF_BITS);
      SmallRest(shift, Pow2(HALF_BITS));
      ShrBound(shift, HALF_BITS, 0);
    }

    lemma FreshWords()
      requires Shape() && WordsFit() && Small()
      ensures Fresh().WordsFit()
    {
      hide Pow2;
      hide Ones;
      forall n | 0 <= n < |words| ensures Fresh().words[n] < Pow2(WORD_BITS) {
        if n < g.MapWords(shift) {
          OnesValue(WORD_BITS);
          var r := (Reserved() + 1) % WORD_BITS;
          OnesValue(r);
          Pow2Less(r, WORD_BITS);
        }
      }
    }

    lemma FreshFits()
      requires Shape() && WordsFit()
      ensures Fresh().WordsFit()
    {
      if Small() {
        FreshWords();
      }
    }

    lemma FreshSlab()
      requires Shape() && !Small()
      ensures var c := Fresh();
        if shift == g.ExactShift() then c.slab < Pow2(WORD_BITS)
        else c.slab % Pow2(HALF_BITS) == shift && Shr(c.slab, HALF_BITS) < Pow2(Count())
    {
      hide Pow2;
      hide Shr;
      g.ReservedFits(shift);
      SetBitBound(0, 0, WORD_BITS);
      if shift > g.ExactShift() {
        SmallShift();
        LowBits(shift, HALF_BITS, HALF_BITS);
        ShrSet(shift, HALF_BITS, 0);
        SetBitBound(0, 0, Count());
      }
    }

    /** One chunk of a new page is handed out: the first behind the reserved ones. */
    lemma FreshValid()
      requires Shape() && WordsFit()
      ensures Fresh().Valid() && Fresh().Live() == {Reserved()} && !Fresh().Full()
    {
      hide Taken;
      var c := Fresh();
      g.ReservedFits(shift);
      if Small() {
        FreshWords();
      } else {
        FreshSlab();
      }
      forall k | 0 <= k < Count()
        ensures c.Taken(k) <==> k <= Reserved()
        ensures k in c.Live() <==> k in {Reserved()}
      {
        FreshTaken(k);
      }
      assert c.Live() == {Reserved()};
      assert !c.Taken(Count() - 1);
    }
  }
}
