/** Division of bit sequences by a fixed polynomial of degree 32 over GF(2).

    A register is the 32 coefficients that remain, in transmission order: element
    0 is the one that leaves next. `Divide` is schoolbook long division; `Feed` is
    the shift register that takes message bits at the near end. */
module Gf2Division {

  type Poly = s: seq<bool> | |s| == 32 witness seq(32, _ => false)

  function Zero(): Poly { seq(32, _ => false) }

  function Ones(): Poly { seq(32, _ => true) }

  /** 0xEDB88320, least significant bit first. */
  const DIVISOR: Poly := [
    false, false, false, false, false, true, false, false,
    true, true, false, false, false, false, false, true,
    false, false, false, true, true, true, false, true,
    true, false, true, true, false, true, true, true]

  function Xor(a: Poly, b: Poly): Poly {
    seq(32, i requires 0 <= i < 32 => a[i] != b[i])
  }

  /** The register moves one place; if a set bit left it, the divisor is subtracted. */
  function Shift(r: Poly): Poly {
    seq(32, i requires 0 <= i < 32 => (i < 31 && r[i + 1]) != (r[0] && DIVISOR[i]))
  }

  function Shifts(r: Poly, n: nat): Poly {
    if n == 0 then r else Shift(Shifts(r, n - 1))
  }

  /** Bit b in place k of an otherwise empty register. */
  function Place(b: bool, k: nat): Poly {
    seq(32, i => b && i == k)
  }

  /** Long division of a dividend, whose bits enter the window at the far end. */
  function Divide(window: Poly, dividend: seq<bool>): Poly {
    if dividend == [] then window
    else
      var n := |dividend| - 1;
      Xor(Shift(Divide(window, dividend[..n])), Place(dividend[n], 31))
  }

  /** The shift register: each message bit is added at the near end before the shift. */
  function Feed(r: Poly, bits: seq<bool>): Poly {
    if bits == [] then r
    else
      var n := |bits| - 1;
      Shift(Xor(Feed(r, bits[..n]), Place(bits[n], 0)))
  }

  // ----- Algebra --------------------------------------------------------------

  lemma Interchange(a: Poly, b: Poly, c: Poly, d: Poly)
    ensures Xor(Xor(a, b), Xor(c, d)) == Xor(Xor(a, c), Xor(b, d))
  {
  }

  lemma Rotate(a: Poly, b: Poly, c: Poly)
    ensures Xor(Xor(a, b), c) == Xor(Xor(a, c), b)
    ensures Xor(Xor(a, b), c) == Xor(a, Xor(b, c))
  {
  }

  lemma Cancel(a: Poly, b: Poly, c: Poly)
    ensures Xor(a, Zero()) == a && Xor(Zero(), a) == a
    ensures Xor(a, c) == Xor(b, c) || Xor(c, a) == Xor(c, b) ==> a == b
  {
    forall i | 0 <= i < 32 && (Xor(a, c) == Xor(b, c) || Xor(c, a) == Xor(c, b)) ensures a[i] == b[i] {
      assert Xor(a, c)[i] == (a[i] != c[i]) && Xor(b, c)[i] == (b[i] != c[i]);
      assert Xor(c, a)[i] == (a[i] != c[i]) && Xor(c, b)[i] == (b[i] != c[i]);
    }
  }

  lemma ShiftLinear(a: Poly, b: Poly)
    ensures Shift(Xor(a, b)) == Xor(Shift(a), Shift(b))
  {
  }

  /** The divisor's far coefficient is set, so no information leaves the register. */
  lemma ShiftInjective(a: Poly, b: Poly)
    requires Shift(a) == Shift(b)
    ensures a == b
  {
    assert Shift(a)[31] == a[0] && Shift(b)[31] == b[0];
    forall i | 0 <= i < 32 ensures a[i] == b[i] {
      if i > 0 {
        assert Shift(a)[i - 1] == Shift(b)[i - 1];
      }
    }
  }

  lemma {:induction false} ShiftsLinear(a: Poly, b: Poly, n: nat)
    ensures Shifts(Xor(a, b), n) == Xor(Shifts(a, n), Shifts(b, n))
  {
    if n > 0 {
      ShiftsLinear(a, b, n - 1);
      ShiftLinear(Shifts(a, n - 1), Shifts(b, n - 1));
    }
  }

  lemma {:induction false} ShiftsInjective(a: Poly, b: Poly, n: nat)
    requires Shifts(a, n) == Shifts(b, n)
    ensures a == b
  {
    if n > 0 {
      ShiftInjective(Shifts(a, n - 1), Shifts(b, n - 1));
      ShiftsInjective(a, b, n - 1);
    }
  }

  lemma {:induction false} ShiftsCompose(r: Poly, m: nat, n: nat)
    ensures Shifts(Shifts(r, m), n) == Shifts(r, m + n)
  {
    if n > 0 {
      ShiftsCompose(r, m, n - 1);
    }
  }

  /** While only zero bits leave, shifting just moves the register. */
  lemma {:induction false} ZerosShiftOut(r: Poly, n: nat)
    requires n <= 32 && forall i | 0 <= i < n :: !r[i]
    ensures Shifts(r, n) == seq(32, i requires 0 <= i < 32 => i + n < 32 && r[i + n])
  {
    if n > 0 {
      ZerosShiftOut(r, n - 1);
      assert !Shifts(r, n - 1)[0];
    }
  }

  lemma PlaceArrives(b: bool, k: nat)
    requires k < 32
    ensures Shifts(Place(b, k), k) == Place(b, 0)
  {
    ZerosShiftOut(Place(b, k), k);
  }

  // ----- Feeding --------------------------------------------------------------

  lemma {:induction false} FeedAppend(r: Poly, a: seq<bool>, b: seq<bool>)
    ensures Feed(r, a + b) == Feed(Feed(r, a), b)
  {
    if b == [] {
      assert a + b == a;
    } else {
      var n := |b| - 1;
      assert (a + b)[..|a + b| - 1] == a + b[..n];
      FeedAppend(r, a, b[..n]);
    }
  }

  /** Up to 32 bits laid over the register. */
  function Laid(bits: seq<bool>): Poly
    requires |bits| <= 32
  {
    seq(32, i requires 0 <= i < 32 => i < |bits| && bits[i])
  }

  /** Feeding up to 32 bits one by one is laying them over the register and shifting. */
  lemma {:induction false} FeedIsShifts(r: Poly, bits: seq<bool>)
    requires |bits| <= 32
    ensures Feed(r, bits) == Shifts(Xor(r, Laid(bits)), |bits|)
  {
    if bits == [] {
      assert Xor(r, Laid([])) == r;
    } else {
      var n := |bits| - 1;
      var init := bits[..n];
      FeedIsShifts(r, init);
      PlaceArrives(bits[n], n);
      ShiftsLinear(Xor(r, Laid(init)), Place(bits[n], n), n);
      assert Xor(Xor(r, Laid(init)), Place(bits[n], n)) == Xor(r, Laid(bits));
    }
  }

  lemma {:induction false} FeedSplits(r: Poly, bits: seq<bool>)
    ensures Feed(r, bits) == Xor(Feed(Zero(), bits), Shifts(r, |bits|))
  {
    if bits == [] {
      Cancel(r, r, r);
    } else {
      var n := |bits| - 1;
      var f, s, p := Feed(Zero(), bits[..n]), Shifts(r, n), Place(bits[n], 0);
      FeedSplits(r, bits[..n]);
      Rotate(f, s, p);
      ShiftLinear(Xor(f, p), s);
    }
  }

  /** Once two registers differ, equal message bits never make them equal again. */
  lemma FeedInjective(r1: Poly, r2: Poly, bits: seq<bool>)
    requires Feed(r1, bits) == Feed(r2, bits)
    ensures r1 == r2
  {
    FeedSplits(r1, bits);
    FeedSplits(r2, bits);
    Cancel(Shifts(r1, |bits|), Shifts(r2, |bits|), Feed(Zero(), bits));
    ShiftsInjective(r1, r2, |bits|);
  }

  /** From one register, different blocks of at most 32 bits lead to different registers. */
  lemma BlockInjective(r: Poly, a: seq<bool>, b: seq<bool>)
    requires |a| == |b| <= 32 && Feed(r, a) == Feed(r, b)
    ensures a == b
  {
    FeedIsShifts(r, a);
    FeedIsShifts(r, b);
    ShiftsInjective(Xor(r, Laid(a)), Xor(r, Laid(b)), |a|);
    Cancel(Laid(a), Laid(b), r);
    forall i | 0 <= i < |a| ensures a[i] == b[i] {
      assert Laid(a)[i] == Laid(b)[i];
    }
  }

  lemma FeedThree(r: Poly, a: seq<bool>, b: seq<bool>, c: seq<bool>)
    ensures Feed(r, a + b + c) == Feed(Feed(Feed(r, a), b), c)
  {
    FeedAppend(r, a + b, c);
    FeedAppend(r, a, b);
  }

  /** Outside n places from `at` on the sequences agree. */
  predicate DifferWithin(s: seq<bool>, t: seq<bool>, at: nat, n: nat) {
    |s| == |t| && forall i | 0 <= i < |s| :: s[i] == t[i] || at <= i < at + n
  }

  lemma BlockInMessage(r: Poly, head: seq<bool>, v: seq<bool>, w: seq<bool>, tail: seq<bool>)
    requires |v| == |w| <= 32 && Feed(r, head + v + tail) == Feed(r, head + w + tail)
    ensures v == w
  {
    FeedThree(r, head, v, tail);
    FeedThree(r, head, w, tail);
    var from := Feed(r, head);
    FeedInjective(Feed(from, v), Feed(from, w), tail);
    BlockInjective(from, v, w);
  }

  lemma WindowCutsOut(s: seq<bool>, t: seq<bool>, lo: nat, hi: nat)
    requires |s| == |t| && lo <= hi <= |s| && forall i | 0 <= i < |s| :: s[i] == t[i] || lo <= i < hi
    ensures t == s[..lo] + t[lo..hi] + s[hi..]
  {
    var u := s[..lo] + t[lo..hi] + s[hi..];
    forall i | 0 <= i < |t| ensures u[i] == t[i] {
      assert u[i] == if i < lo then s[i] else if i < hi then t[i] else s[i];
    }
  }

  /** From one register, messages that differ within 32 consecutive bits lead to different registers. */
  lemma WindowInjective(r: Poly, s: seq<bool>, t: seq<bool>, at: nat, n: nat)
    requires DifferWithin(s, t, at, n) && n <= 32 && Feed(r, s) == Feed(r, t)
    ensures s == t
  {
    var lo := if at < |s| then at else |s|;
    var hi := if at + n < |s| then at + n else |s|;
    WindowCutsOut(s, s, lo, hi);
    WindowCutsOut(s, t, lo, hi);
    BlockInMessage(r, s[..lo], s[lo..hi], t[lo..hi], s[hi..]);
  }

  // ----- Dividing -------------------------------------------------------------

  function Zeros(n: nat): (s: seq<bool>)
    ensures |s| == n && forall i | 0 <= i < n :: !s[i]
  {
    seq(n, _ => false)
  }

  lemma {:induction false} DivideAppend(w: Poly, a: seq<bool>, b: seq<bool>)
    ensures Divide(w, a + b) == Divide(Divide(w, a), b)
  {
    if b == [] {
      assert a + b == a;
    } else {
      var n := |b| - 1;
      assert (a + b)[..|a + b| - 1] == a + b[..n];
      DivideAppend(w, a, b[..n]);
    }
  }

  lemma {:induction false} DivideZeros(w: Poly, n: nat)
    ensures Divide(w, Zeros(n)) == Shifts(w, n)
  {
    if n > 0 {
      assert Zeros(n)[..n - 1] == Zeros(n - 1);
      DivideZeros(w, n - 1);
      assert Place(false, 31) == Zero();
      Cancel(Shifts(w, n), w, w);
    }
  }

  predicate XorOf(s: seq<bool>, t: seq<bool>, u: seq<bool>) {
    |s| == |t| == |u| && forall i | 0 <= i < |s| :: s[i] == (t[i] != u[i])
  }

  lemma {:induction false} DivideLinear(s: seq<bool>, t: seq<bool>, u: seq<bool>)
    requires XorOf(s, t, u)
    ensures Divide(Zero(), s) == Xor(Divide(Zero(), t), Divide(Zero(), u))
    decreases |s|
  {
    if s == [] {
      Cancel(Zero(), Zero(), Zero());
    } else {
      var n := |s| - 1;
      DivideLinear(s[..n], t[..n], u[..n]);
      ShiftLinear(Divide(Zero(), t[..n]), Divide(Zero(), u[..n]));
      assert Place(s[n], 31) == Xor(Place(t[n], 31), Place(u[n], 31));
      Interchange(Shift(Divide(Zero(), t[..n])), Place(t[n], 31), Shift(Divide(Zero(), u[..n])), Place(u[n], 31));
    }
  }

  /** A bit that enters at the far end does what a bit fed at the near end does, 32 steps later. */
  lemma FarBitCrosses(b: bool)
    ensures Shifts(Place(b, 31), 32) == Shift(Place(b, 0))
  {
    PlaceArrives(b, 31);
  }

  lemma {:induction false} FeedIsShiftedDivision(bits: seq<bool>)
    ensures Feed(Zero(), bits) == Shifts(Divide(Zero(), bits), 32)
  {
    if bits == [] {
      ZerosShiftOut(Zero(), 32);
    } else {
      var n := |bits| - 1;
      var a := Divide(Zero(), bits[..n]);
      FeedIsShiftedDivision(bits[..n]);
      ShiftsLinear(Shift(a), Place(bits[n], 31), 32);
      FarBitCrosses(bits[n]);
      ShiftAfterShifts(a, 32);
      ShiftLinear(Shifts(a, 32), Place(bits[n], 0));
    }
  }

  lemma ShiftAfterShifts(r: Poly, n: nat)
    ensures Shifts(Shift(r), n) == Shift(Shifts(r, n))
  {
    ShiftsCompose(r, 1, n);
    assert Shifts(r, 1) == Shift(Shifts(r, 0));
  }

  /** Feeding a message equals dividing the message followed by 32 zeros. */
  lemma FeedIsPaddedDivision(bits: seq<bool>)
    ensures Feed(Zero(), bits) == Divide(Zero(), bits + Zeros(32))
  {
    DivideAppend(Zero(), bits, Zeros(32));
    DivideZeros(Divide(Zero(), bits), 32);
    FeedIsShiftedDivision(bits);
  }

  /** The first 32 dividend bits just fill the window. */
  lemma {:induction false} DivideFills(bits: seq<bool>)
    requires |bits| <= 32
    ensures Divide(Zero(), bits) ==
      seq(32, i requires 0 <= i < 32 => i >= 32 - |bits| && bits[i - (32 - |bits|)])
  {
    if bits != [] {
      DivideFills(bits[..|bits| - 1]);
    }
  }

  /** The sequence with its first 32 bits complemented. */
  function Complement32(s: seq<bool>): seq<bool> {
    seq(|s|, i requires 0 <= i < |s| => (i < 32) != s[i])
  }

  function Dividend(bits: seq<bool>): seq<bool> {
    Complement32(bits + Zeros(32))
  }

  /** A register started at all ones computes the remainder of the complemented dividend. */
  lemma FeedFromOnesIsDivision(bits: seq<bool>)
    ensures Feed(Ones(), bits) == Divide(Zero(), Dividend(bits))
  {
    var n := |bits|;
    var ones: seq<bool> := Ones();
    FeedSplits(Ones(), bits);
    FeedIsPaddedDivision(bits);
    DivideLinear(Dividend(bits), bits + Zeros(32), ones + Zeros(n));
    DivideAppend(Zero(), ones, Zeros(n));
    DivideFills(ones);
    assert Divide(Zero(), ones) == Ones();
    DivideZeros(Ones(), n);
  }
}
