/** What the bit tricks of the allocator compute on 64-bit words.

    Words are numbers below 2^64; sums and shifts wrap where the program's do, and bitwise
    operations are recursive on halves. */
module BitMasks {

  const WORD: nat := 0x1_0000_0000_0000_0000

  function Add64(a: nat, b: nat): (r: nat)
    ensures r < WORD
  {
    (a + b) % WORD
  }

  function Pow2(k: nat): (p: nat)
    ensures p > 0
  {
    if k == 0 then 1 else 2 * Pow2(k - 1)
  }

  /** Bitwise and. */
  function And(x: nat, y: nat): nat
    decreases x
  {
    if x == 0 || y == 0 then 0
    else (if x % 2 == 1 && y % 2 == 1 then 1 else 0) + 2 * And(x / 2, y / 2)
  }

  ghost predicate IsPow2(a: nat) {
    exists k: nat :: a == Pow2(k)
  }

  lemma {:induction false} AndWithItself(x: nat)
    ensures And(x, x) == x
  {
    if x > 0 {
      AndWithItself(x / 2);
    }
  }

  /** The test a & (a - 1) finds exactly the powers of two among positive numbers. */
  lemma {:induction false} PowerTest(a: nat)
    requires a > 0
    ensures And(a, a - 1) == 0 <==> IsPow2(a)
  {
    if a == 1 {
      assert a == Pow2(0);
    } else if a % 2 == 1 {
      AndWithItself(a / 2);
      forall k: nat ensures a != Pow2(k) {
      }
    } else {
      PowerTest(a / 2);
      if k: nat :| a / 2 == Pow2(k) {
        assert a == Pow2(k + 1);
      }
      if k: nat :| a == Pow2(k) {
        assert a / 2 == Pow2(k - 1);
      }
    }
  }

  lemma {:induction false} FullMask(x: nat, w: nat)
    requires x < Pow2(w)
    ensures And(x, Pow2(w) - 1) == x
  {
    if x > 0 {
      FullMask(x / 2, w - 1);
    }
  }

  lemma {:induction false} Pow2Grows(k: nat, w: nat)
    requires k <= w
    ensures Pow2(k) <= Pow2(w)
  {
    if k < w {
      Pow2Grows(k, w - 1);
    }
  }

  /** Clearing the k low bits rounds down to the greatest multiple of 2^k not above. */
  lemma {:induction false} MaskRoundsDown(x: nat, k: nat, w: nat) returns (q: nat)
    requires x < Pow2(w) && k <= w && Pow2(k) <= Pow2(w)
    ensures And(x, Pow2(w) - Pow2(k)) == q * Pow2(k)
    ensures q * Pow2(k) <= x < q * Pow2(k) + Pow2(k)
  {
    if k == 0 {
      FullMask(x, w);
      q := x;
    } else {
      q := MaskRoundsDown(x / 2, k - 1, w - 1);
      HalfMask(x, Pow2(w - 1) - Pow2(k - 1));
      Doubles(q, Pow2(k - 1));
    }
  }

  lemma Doubles(q: nat, p: nat)
    ensures 2 * (q * p) == q * (2 * p)
  {
  }

  lemma HalfMask(x: nat, m: nat)
    ensures And(x, 2 * m) == 2 * And(x / 2, m)
  {
    assert 2 * m / 2 == m && 2 * m % 2 == 0;
  }

  lemma WordIsPow2()
    ensures Pow2(64) == WORD && Pow2(4) == 16
  {
    assert Pow2(8) == 256;
    assert Pow2(16) == 0x1_0000 by {
      assert Pow2(12) == 0x1000;
    }
    assert Pow2(32) == 0x1_0000_0000 by {
      assert Pow2(20) == 0x10_0000;
      assert Pow2(24) == 0x100_0000;
      assert Pow2(28) == 0x1000_0000;
    }
    Pow2Adds(32, 32);
  }

  lemma {:induction false} Pow2Adds(a: nat, b: nat)
    ensures Pow2(a + b) == Pow2(a) * Pow2(b)
  {
    if a > 0 {
      Pow2Adds(a - 1, b);
    }
  }

  // ----- Rounding up to a multiple ------------------------------------------------

  /** (size + alignment - 1) & ~(alignment - 1), in 64 bits. */
  function AlignUp(size: nat, alignment: nat): nat
    requires size < WORD && alignment < WORD
  {
    And(Add64(size, Add64(alignment, WORD - 1)), WORD - 1 - Add64(alignment, WORD - 1))
  }

  /** For a power of two the result is the least multiple that is large enough, unless the sum does
      not fit a word. */
  lemma AlignUpRounds(size: nat, k: nat) returns (q: nat)
    requires k < 64 && Pow2(k) < WORD && size + Pow2(k) - 1 < WORD
    ensures AlignUp(size, Pow2(k)) == q * Pow2(k)
    ensures size <= q * Pow2(k) < size + Pow2(k)
  {
    WordIsPow2();
    AddLessOne(size, Pow2(k));
    q := MaskRoundsDown(size + Pow2(k) - 1, k, 64);
  }

  lemma AddLessOne(size: nat, alignment: nat)
    requires 0 < alignment < WORD && size + alignment - 1 < WORD
    ensures AlignUp(size, alignment) == And(size + alignment - 1, WORD - alignment)
  {
    WrapsOnce(alignment, WORD - 1);
    FitsWord(size, alignment - 1);
  }

  lemma WrapsOnce(a: nat, b: nat)
    requires WORD <= a + b < 2 * WORD
    ensures Add64(a, b) == a + b - WORD
  {
  }

  lemma FitsWord(a: nat, b: nat)
    requires a + b < WORD
    ensures Add64(a, b) == a + b
  {
  }

  lemma {:induction false} Pow2Below(k: nat)
    requires k < 64
    ensures Pow2(k) < WORD
  {
    WordIsPow2();
    Pow2Adds(k, 64 - k);
    assert Pow2(64 - k) >= 2;
    assert Pow2(k) * Pow2(64 - k) >= Pow2(k) * 2;
  }

  /** An alignment of zero gives zero. */
  lemma AlignUpToZero(size: nat)
    requires size < WORD
    ensures AlignUp(size, 0) == 0
  {
  }

  const ALIGNMENT: nat := 16

  function RoundUp(size: nat): (r: nat)
    requires size < WORD
  {
    AlignUp(size, ALIGNMENT)
  }

  lemma RoundUpFits(size: nat, k: nat)
    requires size <= WORD - 16 && k < 64 && Pow2(k) == 16
    ensures RoundUp(size) % 16 == 0 && size <= RoundUp(size) < size + 16 && RoundUp(size) < WORD
  {
    var q := AlignUpRounds(size, k);
    MultipleOf16(q, RoundUp(size), size);
  }

  lemma MultipleOf16(q: nat, r: nat, size: nat)
    requires r == q * 16 && size <= r < size + 16 && size <= WORD - 16
    ensures r % 16 == 0 && r < WORD
  {
  }

  lemma RoundUpWraps(size: nat, k: nat, w: nat)
    requires WORD - 16 < size < WORD && Pow2(k) == 16 && k <= w && Pow2(w) == WORD
    ensures RoundUp(size) == 0
  {
    var x := size + 15 - WORD;
    WrapsOnce(16, WORD - 1);
    WrapsOnce(size, 15);
    var q := MaskRoundsDown(x, k, w);
    NoMultipleBelow(q, x);
  }

  lemma NoMultipleBelow(q: nat, x: nat)
    requires q * 16 <= x <= 14
    ensures q == 0
  {
  }

  /** Rounding to 16 gives enough bytes exactly for sizes up to 2^64 - 16; above, it gives none. */
  lemma RoundUpIsEnough(size: nat)
    requires size < WORD
    ensures RoundUp(size) % 16 == 0 && RoundUp(size) < WORD
    ensures RoundUp(size) >= size <==> size <= WORD - 16
    ensures size <= WORD - 16 ==> RoundUp(size) < size + 16
    ensures size > WORD - 16 ==> RoundUp(size) == 0
  {
    WordIsPow2();
    if size <= WORD - 16 {
      RoundUpFits(size, 4);
    } else {
      RoundUpWraps(size, 4, 64);
    }
  }

  lemma RoundUpKeepsMultiples(size: nat)
    requires size <= WORD - 16 && size % 16 == 0
    ensures RoundUp(size) == size
  {
    RoundUpIsEnough(size);
  }
}
