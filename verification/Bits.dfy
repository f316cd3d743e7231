/** Machine words as natural numbers, read bit by bit. */
module Bits {

  function Pow2(n: nat): (p: nat)
    ensures p >= 1
  {
    if n == 0 then 1 else 2 * Pow2(n - 1)
  }

  lemma {:induction false} Pow2Add(a: nat, b: nat)
    ensures Pow2(a + b) == Pow2(a) * Pow2(b)
  {
    if a > 0 {
      Pow2Add(a - 1, b);
    }
  }

  lemma {:induction false} Pow2Less(a: nat, b: nat)
    requires a < b
    ensures Pow2(a) < Pow2(b)
  {
    if a + 1 < b {
      Pow2Less(a, b - 1);
    }
  }

  /** w & (1 << i) */
  predicate Bit(w: nat, i: nat) {
    if i == 0 then w % 2 == 1 else Bit(w / 2, i - 1)
  }

  /** w | (1 << i) */
  function SetBit(w: nat, i: nat): nat {
    if i == 0 then w / 2 * 2 + 1 else SetBit(w / 2, i - 1) * 2 + w % 2
  }

  /** w & ~(1 << i) */
  function ClearBit(w: nat, i: nat): nat {
    if i == 0 then w / 2 * 2 else ClearBit(w / 2, i - 1) * 2 + w % 2
  }

  /** (1 << n) - 1 */
  function Ones(n: nat): nat {
    if n == 0 then 0 else Ones(n - 1) * 2 + 1
  }

  lemma {:induction false} SetBitAt(w: nat, i: nat, j: nat)
    ensures Bit(SetBit(w, i), j) <==> j == i || Bit(w, j)
  {
    if i > 0 && j > 0 {
      SetBitAt(w / 2, i - 1, j - 1);
    }
  }

  lemma {:induction false} ClearBitAt(w: nat, i: nat, j: nat)
    ensures Bit(ClearBit(w, i), j) <==> j != i && Bit(w, j)
  {
    if i > 0 && j > 0 {
      ClearBitAt(w / 2, i - 1, j - 1);
    }
  }

  lemma {:induction false} OnesAt(n: nat, j: nat)
    ensures Bit(Ones(n), j) <==> j < n
  {
    if n > 0 && j > 0 {
      OnesAt(n - 1, j - 1);
    } else if n == 0 {
      ZeroAt(j);
    }
  }

  lemma {:induction false} ZeroAt(j: nat)
    ensures !Bit(0, j)
  {
    if j > 0 {
      ZeroAt(j - 1);
    }
  }

  lemma {:induction false} OnesValue(n: nat)
    ensures Ones(n) == Pow2(n) - 1
  {
    if n > 0 {
      OnesValue(n - 1);
    }
  }

  lemma HalfBelow(w: nat, half: nat)
    requires w < 2 * half
    ensures w / 2 < half && w / 2 * 2 + 1 < 2 * half
  {
  }

  lemma {:induction false} SetBitBound(w: nat, i: nat, n: nat)
    requires w < Pow2(n) && i < n
    ensures SetBit(w, i) < Pow2(n)
  {
    var half := Pow2(n - 1);
    assert Pow2(n) == 2 * half;
    HalfBelow(w, half);
    if i > 0 {
      SetBitBound(w / 2, i - 1, n - 1);
    }
  }

  lemma {:induction false} ClearBitBound(w: nat, i: nat)
    ensures ClearBit(w, i) <= w
  {
    if i > 0 {
      ClearBitBound(w / 2, i - 1);
    }
  }

  /** A word of n bits other than all ones has a clear bit. */
  lemma {:induction false} ClearFound(w: nat, n: nat) returns (j: nat)
    requires w < Pow2(n) && w != Ones(n)
    ensures j < n && !Bit(w, j)
  {
    if w % 2 == 0 {
      j := 0;
    } else {
      var k := ClearFound(w / 2, n - 1);
      j := k + 1;
    }
  }

  /** A word other than zero has a bit set. */
  lemma {:induction false} SomeBit(w: nat, n: nat) returns (j: nat)
    requires 0 < w < Pow2(n)
    ensures j < n && Bit(w, j)
  {
    if w % 2 == 1 {
      j := 0;
    } else {
      var k := SomeBit(w / 2, n - 1);
      j := k + 1;
    }
  }

  /** w >> n */
  function Shr(w: nat, n: nat): nat {
    if n == 0 then w else Shr(w / 2, n - 1)
  }

  lemma {:induction false} ShrBit(w: nat, n: nat, j: nat)
    ensures Bit(w, n + j) == Bit(Shr(w, n), j)
  {
    if n > 0 {
      ShrBit(w / 2, n - 1, j);
    }
  }

  lemma {:induction false} ShrSet(w: nat, n: nat, j: nat)
    ensures Shr(SetBit(w, n + j), n) == SetBit(Shr(w, n), j)
    ensures Shr(ClearBit(w, n + j), n) == ClearBit(Shr(w, n), j)
  {
    if n > 0 {
      ShrSet(w / 2, n - 1, j);
    }
  }

  /** A low bit is shifted out. */
  lemma {:induction false} ShrClearLow(w: nat, i: nat, n: nat)
    requires i < n
    ensures Shr(ClearBit(w, i), n) == Shr(w, n)
  {
    if i > 0 {
      ShrClearLow(w / 2, i - 1, n - 1);
    }
  }

  lemma {:induction false} ShrBound(w: nat, n: nat, m: nat)
    requires w < Pow2(n + m)
    ensures Shr(w, n) < Pow2(m)
  {
    if n > 0 {
      ShrBound(w / 2, n - 1, m);
    }
  }

  /** Setting or clearing a high bit leaves the low bits alone. */
  lemma {:induction false} LowBits(w: nat, i: nat, n: nat)
    requires n <= i
    ensures SetBit(w, i) % Pow2(n) == w % Pow2(n)
    ensures ClearBit(w, i) % Pow2(n) == w % Pow2(n)
  {
    if n > 0 {
      LowBits(w / 2, i - 1, n - 1);
      assert SetBit(w, i) / 2 == SetBit(w / 2, i - 1) && SetBit(w, i) % 2 == w % 2;
      assert ClearBit(w, i) / 2 == ClearBit(w / 2, i - 1) && ClearBit(w, i) % 2 == w % 2;
      HalfMod(SetBit(w, i), n);
      HalfMod(ClearBit(w, i), n);
      HalfMod(w, n);
    }
  }

  lemma HalfMod(w: nat, n: nat)
    requires n > 0
    ensures w % Pow2(n) == 2 * (w / 2 % Pow2(n - 1)) + w % 2
  {
    var d := Pow2(n - 1);
    var q, r := w / 2 / d, w / 2 % d;
    assert w / 2 == q * d + r;
    assert w == q * (2 * d) + (2 * r + w % 2);
    Quotient(w, 2 * d, q, 2 * r + w % 2);
  }

  lemma Multiple(x: int, d: nat)
    ensures x > 0 ==> x * d >= d
    ensures x < 0 ==> x * d <= -(d as int)
  {
  }

  lemma Quotient(w: nat, d: nat, q: nat, r: nat)
    requires d > 0 && r < d && w == q * d + r
    ensures w / d == q && w % d == r
  {
    var x: int := w / d - q;
    assert w == (w / d) * d + w % d;
    assert x * d == r - w % d;
    Multiple(x, d);
  }
}
