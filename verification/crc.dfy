/** The cluster protocol's CRC-32: the table form, the bit form and polynomial division agree,
    and the receiver that checks it rejects bursts. */
module Crc {
  import opened Gf2Division

  // The program computes the checksum a byte at a time from a table. It is defined
  // (section 8 of RFC 1952, after ISO 3309) as the complemented remainder of the
  // message, padded with 32 zeros and with its first 32 bits complemented, divided
  // by the reflected polynomial; the module Gf2Division defines that division.

  const POLY: bv32 := 0xEDB8_8320
  const ALL: bv32 := 0xFFFF_FFFF

  // ----- The program's checksum -----------------------------------------------

  function Widen(b: bv8): bv32 { b as bv32 }

  function LowByte(x: bv32): bv8 { (x & 0xFF) as bv8 }

  /** What one shift adds: the polynomial, if the low bit was set. */
  function Taken(crc: bv32): bv32 { if crc & 1 == 1 then POLY else 0 }

  function ShiftWord(crc: bv32): bv32 { (crc >> 1) ^ Taken(crc) }

  function ShiftWords(crc: bv32, n: nat): bv32
    decreases n, crc
  {
    if n == 0 then crc else ShiftWord(ShiftWords(crc, n - 1))
  }

  function TableEntry(b: bv8): bv32 {
    ShiftWords(Widen(b), 8)
  }

  function TableStep(crc: bv32, b: bv8): bv32 {
    (crc >> 8) ^ TableEntry(LowByte(crc ^ Widen(b)))
  }

  function TableLoop(crc: bv32, bytes: seq<bv8>): bv32 {
    if bytes == [] then crc else TableStep(TableLoop(crc, bytes[..|bytes| - 1]), bytes[|bytes| - 1])
  }

  function Crc32(bytes: seq<bv8>): bv32 {
    TableLoop(ALL, bytes) ^ ALL
  }

  // ----- Words as bit sequences -----------------------------------------------

  function Low(x: bv32): bool { x & 1 == 1 }

  function Half(x: bv32): bv32 { x >> 1 }

  /** Bit i of a word of any kind that has a low bit and can be halved. */
  function BitOf<W>(low: W -> bool, half: W -> W, x: W, i: nat): bool {
    if i == 0 then low(x) else BitOf(low, half, half(x), i - 1)
  }

  function BitAt(x: bv32, i: nat): bool {
    BitOf(Low, Half, x, i)
  }

  /** The bits of a word, least significant first. */
  function Bits(x: bv32): Poly {
    seq(32, i requires 0 <= i < 32 => BitAt(x, i))
  }

  /** rel says z is x op y bit by bit, as far as one halving can tell. */
  ghost predicate Bitwise<W(!new)>(
      low: W -> bool, half: W -> W, rel: (W, W, W) -> bool, op: (bool, bool) -> bool)
  {
    forall z, x, y | rel(z, x, y) :: rel(half(z), half(x), half(y)) && low(z) == op(low(x), low(y))
  }

  lemma {:induction false} BitwiseBit<W(!new)>(
      low: W -> bool, half: W -> W, rel: (W, W, W) -> bool, op: (bool, bool) -> bool,
      z: W, x: W, y: W, i: nat)
    requires Bitwise(low, half, rel, op) && rel(z, x, y)
    ensures BitOf(low, half, z, i) == op(BitOf(low, half, x, i), BitOf(low, half, y, i))
  {
    if i > 0 {
      BitwiseBit(low, half, rel, op, half(z), half(x), half(y), i - 1);
    }
  }

  lemma XorBit(x: bv32, y: bv32, i: nat)
    ensures BitAt(x ^ y, i) == (BitAt(x, i) != BitAt(y, i))
  {
    var rel, op := (z: bv32, x: bv32, y: bv32) => z == x ^ y, (a: bool, b: bool) => a != b;
    assert Bitwise(Low, Half, rel, op) by {
      forall z, x, y | rel(z, x, y)
        ensures rel(Half(z), Half(x), Half(y)) && Low(z) == op(Low(x), Low(y))
      {
      }
    }
    BitwiseBit(Low, Half, rel, op, x ^ y, x, y, i);
  }

  lemma AndBit(x: bv32, y: bv32, i: nat)
    ensures BitAt(x & y, i) == (BitAt(x, i) && BitAt(y, i))
  {
    var rel, op := (z: bv32, x: bv32, y: bv32) => z == x & y, (a: bool, b: bool) => a && b;
    assert Bitwise(Low, Half, rel, op) by {
      forall z, x, y | rel(z, x, y)
        ensures rel(Half(z), Half(x), Half(y)) && Low(z) == op(Low(x), Low(y))
      {
      }
    }
    BitwiseBit(Low, Half, rel, op, x & y, x, y, i);
  }

  lemma {:induction false} ZeroBit(i: nat)
    ensures !BitAt(0, i)
  {
    if i > 0 {
      assert Half(0) == 0;
      ZeroBit(i - 1);
    }
  }

  function Halve<W>(half: W -> W, x: W, n: nat): W {
    if n == 0 then x else Halve(half, half(x), n - 1)
  }

  lemma {:induction false} LaterBit<W>(low: W -> bool, half: W -> W, x: W, n: nat, i: nat)
    ensures BitOf(low, half, x, n + i) == BitOf(low, half, Halve(half, x, n), i)
  {
    if n > 0 {
      LaterBit(low, half, half(x), n - 1, i);
    }
  }

  lemma {:induction false} HalveMore<W>(half: W -> W, x: W, m: nat, n: nat)
    ensures Halve(half, x, m + n) == Halve(half, Halve(half, x, m), n)
  {
    if m > 0 {
      HalveMore(half, half(x), m - 1, n);
    }
  }

  lemma HalveWord(x: bv32)
    ensures Halve(Half, x, 1) == x >> 1 && Halve(Half, x, 2) == x >> 2
    ensures Halve(Half, x, 3) == x >> 3 && Halve(Half, x, 4) == x >> 4
  {
    assert Half(x) == x >> 1 && Half(x >> 1) == x >> 2 && Half(x >> 2) == x >> 3 && Half(x >> 3) == x >> 4;
    HalveMore(Half, x, 1, 1); HalveMore(Half, x, 2, 1); HalveMore(Half, x, 3, 1);
  }

  lemma HalveNibble(x: bv32) returns (y: bv32)
    ensures Halve(Half, x, 4) == y && y == x >> 4
  {
    HalveWord(x);
    y := x >> 4;
  }

  lemma NibbleTwice(x: bv32)
    ensures x >> 4 >> 4 == x >> 8
  {
  }

  lemma HalveByte(x: bv32)
    ensures Halve(Half, x, 8) == x >> 8
  {
    var y := HalveNibble(x);
    var z := HalveNibble(y);
    HalveMore(Half, x, 4, 4);
    assert z == x >> 8 by { NibbleTwice(x); }
  }

  lemma ByteShiftBit(x: bv32, i: nat)
    ensures BitAt(x >> 8, i) == BitAt(x, i + 8)
  {
    HalveByte(x);
    LaterBit(Low, Half, x, 8, i);
  }

  lemma HalfBit(x: bv32, i: nat)
    ensures BitAt(x >> 1, i) == BitAt(x, i + 1)
  {
    LaterBit(Low, Half, x, 1, i);
    HalveWord(x);
  }

  lemma FourBytesEmptyWord(x: bv32, y: bv32, z: bv32, w: bv32)
    requires x >> 8 == y && y >> 8 == z && z >> 8 == w
    ensures w >> 8 == 0
  {
  }

  lemma NoBit32(x: bv32)
    ensures !BitAt(x, 32)
  {
    var y := x >> 8;
    var z := y >> 8;
    var w := z >> 8;
    FourBytesEmptyWord(x, y, z, w);
    FourByteShifts(x, y, z, w);
  }

  lemma FourByteShifts(x: bv32, y: bv32, z: bv32, w: bv32)
    requires x >> 8 == y && y >> 8 == z && z >> 8 == w && w >> 8 == 0
    ensures !BitAt(x, 32)
  {
    ByteShiftBit(x, 24);
    ByteShiftBit(y, 16);
    ByteShiftBit(z, 8);
    ByteShiftBit(w, 0);
    ZeroBit(0);
  }

  /** No word has a bit past place 31. */
  lemma {:induction false} NoHighBit(x: bv32, i: nat)
    requires i >= 32
    ensures !BitAt(x, i)
  {
    if i == 32 {
      NoBit32(x);
    } else {
      NoHighBit(Half(x), i - 1);
    }
  }

  lemma LowBits(x: bv32)
    ensures BitAt(x, 0) == (x & 1 != 0) && BitAt(x, 1) == (x & 2 != 0)
    ensures BitAt(x, 2) == (x & 4 != 0) && BitAt(x, 3) == (x & 8 != 0)
  {
    HalveWord(x);
    LaterBit(Low, Half, x, 1, 0);
    LaterBit(Low, Half, x, 2, 0);
    LaterBit(Low, Half, x, 3, 0);
  }

  lemma NextBits(x: bv32)
    ensures BitAt(x, 4) == (x & 16 != 0) && BitAt(x, 5) == (x & 32 != 0)
    ensures BitAt(x, 6) == (x & 64 != 0) && BitAt(x, 7) == (x & 128 != 0)
  {
    var y := HalveNibble(x);
    LowBits(y);
    LaterBit(Low, Half, x, 4, 0);
    LaterBit(Low, Half, x, 4, 1);
    LaterBit(Low, Half, x, 4, 2);
    LaterBit(Low, Half, x, 4, 3);
  }

  /** A byte whose eight bits are clear is clear. */
  lemma ClearLowByte(x: bv32)
    requires forall i | 0 <= i < 8 :: !BitAt(x, i)
    ensures x & 0xFF == 0
  {
    LowBits(x);
    NextBits(x);
    assert !BitAt(x, 0) && !BitAt(x, 1) && !BitAt(x, 2) && !BitAt(x, 3);
    assert !BitAt(x, 4) && !BitAt(x, 5) && !BitAt(x, 6) && !BitAt(x, 7);
  }

  lemma ClearBytes(x: bv32, y: bv32, z: bv32, w: bv32)
    requires x >> 8 == y && y >> 8 == z && z >> 8 == w && w >> 8 == 0
    requires x & 0xFF == 0 && y & 0xFF == 0 && z & 0xFF == 0 && w & 0xFF == 0
    ensures x == 0
  {
  }

  lemma NoBitsIsZero(x: bv32)
    requires forall i | 0 <= i < 32 :: !BitAt(x, i)
    ensures x == 0
  {
    var y := x >> 8;
    var z := y >> 8;
    var w := z >> 8;
    FourBytesEmptyWord(x, y, z, w);
    forall i | 0 <= i < 24 ensures !BitAt(y, i) { ByteShiftBit(x, i); }
    forall i | 0 <= i < 16 ensures !BitAt(z, i) { ByteShiftBit(y, i); }
    forall i | 0 <= i < 8 ensures !BitAt(w, i) { ByteShiftBit(z, i); }
    ClearLowByte(x);
    ClearLowByte(y);
    ClearLowByte(z);
    ClearLowByte(w);
    ClearBytes(x, y, z, w);
  }

  lemma BitsInjective(x: bv32, y: bv32)
    requires Bits(x) == Bits(y)
    ensures x == y
  {
    var z := x ^ y;
    forall i | 0 <= i < 32 ensures !BitAt(z, i) {
      assert Bits(x)[i] == Bits(y)[i];
      XorBit(x, y, i);
    }
    NoBitsIsZero(z);
  }

  lemma BitsXor(x: bv32, y: bv32)
    ensures Bits(x ^ y) == Xor(Bits(x), Bits(y))
  {
    forall i | 0 <= i < 32 ensures Bits(x ^ y)[i] == Xor(Bits(x), Bits(y))[i] {
      XorBit(x, y, i);
    }
  }

  // ----- One register step on words and on bit sequences ----------------------

  lemma PolyByte(x: bv32, i: nat, k: nat)
    requires i < 8 && k <= 24
    requires Halve(Half, POLY, k) == x
    ensures BitAt(POLY, k + i) == BitAt(x, i)
  {
    LaterBit(Low, Half, POLY, k, i);
  }

  lemma PolyBytes()
    ensures Halve(Half, POLY, 8) == 0xED_B883
    ensures Halve(Half, POLY, 16) == 0xEDB8
    ensures Halve(Half, POLY, 24) == 0xED
  {
    HalveByte(POLY);
    HalveMore(Half, POLY, 8, 8);
    HalveByte(0xED_B883);
    HalveMore(Half, POLY, 16, 8);
    HalveByte(0xEDB8);
  }

  lemma PolyFirstHalf(i: nat)
    requires i < 16
    ensures BitAt(POLY, i) == DIVISOR[i]
  {
    if i < 8 {
      LowBits(POLY); NextBits(POLY);
    } else {
      PolyBytes();
      PolyByte(0xED_B883, i - 8, 8);
      LowBits(0xED_B883); NextBits(0xED_B883);
    }
  }

  lemma PolySecondHalf(i: nat)
    requires 16 <= i < 32
    ensures BitAt(POLY, i) == DIVISOR[i]
  {
    PolyBytes();
    if i < 24 {
      PolyByte(0xEDB8, i - 16, 16);
      LowBits(0xEDB8); NextBits(0xEDB8);
    } else {
      PolyByte(0xED, i - 24, 24);
      LowBits(0xED); NextBits(0xED);
    }
  }

  lemma PolyBit(i: nat)
    requires i < 32
    ensures BitAt(POLY, i) == DIVISOR[i]
  {
    if i < 16 {
      PolyFirstHalf(i);
    } else {
      PolySecondHalf(i);
    }
  }

  lemma TakenBit(x: bv32, i: nat)
    requires i < 32
    ensures BitAt(Taken(x), i) == (BitAt(x, 0) && DIVISOR[i])
  {
    if x & 1 == 1 {
      PolyBit(i);
    } else {
      ZeroBit(i);
    }
  }

  lemma HalvedBit(x: bv32, i: nat)
    requires i < 32
    ensures BitAt(x >> 1, i) == (i < 31 && BitAt(x, i + 1))
  {
    HalfBit(x, i);
    NoBit32(x);
  }

  lemma SumBit(x: bv32, half: bv32, taken: bv32, i: nat)
    requires i < 32 && half == x >> 1 && taken == Taken(x)
    ensures BitAt(half ^ taken, i) == ((i < 31 && BitAt(x, i + 1)) != (BitAt(x, 0) && DIVISOR[i]))
  {
    XorBit(half, taken, i);
    HalvedBit(x, i);
    TakenBit(x, i);
  }

  lemma ShiftWordParts(x: bv32, half: bv32, taken: bv32)
    requires half == x >> 1 && taken == Taken(x)
    ensures ShiftWord(x) == half ^ taken
  {
  }

  /** The word step is the polynomial step. */
  lemma ShiftWordIsShift(x: bv32)
    ensures Bits(ShiftWord(x)) == Shift(Bits(x))
  {
    var half, taken := x >> 1, Taken(x);
    ShiftWordParts(x, half, taken);
    forall i | 0 <= i < 32 ensures Bits(half ^ taken)[i] == Shift(Bits(x))[i] { SumBit(x, half, taken, i); }
  }

  lemma {:induction false} ShiftWordsIsShifts(x: bv32, n: nat)
    ensures Bits(ShiftWords(x, n)) == Shifts(Bits(x), n)
  {
    if n > 0 {
      ShiftWordsIsShifts(x, n - 1);
      OneMoreShift(ShiftWords(x, n - 1), ShiftWords(x, n), Shifts(Bits(x), n - 1), Shifts(Bits(x), n));
    }
  }

  lemma OneMoreShift(y: bv32, z: bv32, p: Poly, q: Poly)
    requires z == ShiftWord(y) && q == Shift(p) && Bits(y) == p
    ensures Bits(z) == q
  {
    ShiftWordIsShift(y);
  }

  // ----- The table form is the shift register ---------------------------------

  lemma ByteMaskBit(x: bv32, i: nat)
    ensures BitAt(x & 0xFF, i) == (i < 8 && BitAt(x, i))
  {
    AndBit(x, 0xFF, i);
    if i < 8 {
      LowBits(0xFF);
      NextBits(0xFF);
    } else {
      ByteShiftBit(0xFF, i - 8);
      ZeroBit(i - 8);
    }
  }

  /** A word is its low byte plus the rest, and the rest only moves under eight shifts. */
  lemma ByteSplit(x: bv32)
    ensures Shifts(Bits(x), 8) == Xor(Bits(x >> 8), Shifts(Bits(x & 0xFF), 8))
  {
    var hi: Poly := seq(32, i requires 0 <= i < 32 => i >= 8 && Bits(x)[i]);
    forall i | 0 <= i < 32 ensures Bits(x)[i] == (hi[i] != Bits(x & 0xFF)[i]) { ByteMaskBit(x, i); }
    assert Bits(x) == Xor(hi, Bits(x & 0xFF));
    ShiftsLinear(hi, Bits(x & 0xFF), 8);
    ZerosShiftOut(hi, 8);
    forall i | 0 <= i < 32 ensures Shifts(hi, 8)[i] == Bits(x >> 8)[i] {
      ByteShiftBit(x, i);
      if i >= 24 {
        NoHighBit(x, i + 8);
      }
    }
  }

  lemma ByteWord(crc: bv32, b: bv8)
    ensures (crc ^ Widen(b)) >> 8 == crc >> 8
    ensures Widen(LowByte(crc ^ Widen(b))) == (crc ^ Widen(b)) & 0xFF
  {
  }

  lemma EntryBits(x: bv32, low: bv32)
    requires Widen(LowByte(x)) == low
    ensures Bits(TableEntry(LowByte(x))) == Shifts(Bits(low), 8)
  {
    ShiftWordsIsShifts(low, 8);
  }

  lemma RestPlusEntry(x: bv32, rest: bv32, low: bv32, r: bv32)
    requires rest == x >> 8 && low == x & 0xFF && Widen(LowByte(x)) == low
    requires r == rest ^ TableEntry(LowByte(x))
    ensures Bits(r) == Shifts(Bits(x), 8)
  {
    ByteSplit(x);
    EntryBits(x, low);
    BitsXor(rest, TableEntry(LowByte(x)));
  }

  lemma StepSplits(crc: bv32, b: bv8, x: bv32)
    requires x == crc ^ Widen(b)
    ensures TableStep(crc, b) == (crc >> 8) ^ TableEntry(LowByte(x))
    ensures crc >> 8 == x >> 8 && Widen(LowByte(x)) == x & 0xFF
  {
    ByteWord(crc, b);
  }

  lemma StepShifts(crc: bv32, b: bv8, x: bv32, r: bv32)
    requires x == crc ^ Widen(b) && r == TableStep(crc, b)
    ensures Bits(r) == Shifts(Bits(x), 8)
  {
    StepSplits(crc, b, x);
    RestPlusEntry(x, x >> 8, x & 0xFF, r);
  }

  /** One table lookup does eight shifts of the register with the byte laid over it. */
  lemma TableStepIsShifts(crc: bv32, b: bv8, w: bv32, x: bv32, r: bv32)
    requires w == Widen(b) && x == crc ^ w && r == TableStep(crc, b)
    ensures Bits(r) == Shifts(Xor(Bits(crc), Bits(w)), 8)
  {
    StepShifts(crc, b, x, r);
    BitsXor(crc, w);
  }

  /** The bits of a byte in transmission order, least significant first. */
  function ByteBits(b: bv8): seq<bool> {
    Bits(Widen(b))[..8]
  }

  function MessageBits(bytes: seq<bv8>): seq<bool> {
    if bytes == [] then [] else MessageBits(bytes[..|bytes| - 1]) + ByteBits(bytes[|bytes| - 1])
  }

  lemma ByteFitsMask(b: bv8)
    ensures Widen(b) & 0xFF == Widen(b)
  {
  }

  lemma LaidByte(b: bv8)
    ensures Laid(ByteBits(b)) == Bits(Widen(b))
  {
    ByteFitsMask(b);
    forall i | 0 <= i < 32 ensures Laid(ByteBits(b))[i] == Bits(Widen(b))[i] {
      ByteMaskBit(Widen(b), i);
    }
  }

  lemma FeedByte(crc: bv32, b: bv8, r: bv32)
    requires r == TableStep(crc, b)
    ensures Bits(r) == Feed(Bits(crc), ByteBits(b))
  {
    var w := Widen(b);
    TableStepIsShifts(crc, b, w, crc ^ w, r);
    FeedIsShifts(Bits(crc), ByteBits(b));
    LaidByte(b);
  }

  /** The table loop is the bit-at-a-time register, from any starting value. */
  lemma {:induction false} TableIsRegister(r: bv32, bytes: seq<bv8>)
    ensures Bits(TableLoop(r, bytes)) == Feed(Bits(r), MessageBits(bytes))
  {
    if bytes != [] {
      var n := |bytes| - 1;
      TableIsRegister(r, bytes[..n]);
      FeedByte(TableLoop(r, bytes[..n]), bytes[n], TableLoop(r, bytes));
      FeedAppend(Bits(r), MessageBits(bytes[..n]), ByteBits(bytes[n]));
    }
  }

  lemma BitsOfAll()
    ensures Bits(ALL) == Ones()
  {
    var y, z: bv32 := 0xFF_FFFF, 0xFFFF;
    forall i | 0 <= i < 32 ensures BitAt(ALL, i) { AllBit(i); }
  }

  lemma SetByteBit(x: bv32, i: nat)
    requires i < 8 && x & 0xFF == 0xFF
    ensures BitAt(x, i)
  {
    LowBits(x);
    NextBits(x);
  }

  lemma AllBit(i: nat)
    requires i < 32
    ensures BitAt(ALL, i)
  {
    if i < 8 {
      SetByteBit(ALL, i);
    } else if i < 16 {
      ByteShiftBit(ALL, i - 8);
      SetByteBit(0xFF_FFFF, i - 8);
    } else if i < 24 {
      ByteShiftBit(ALL, i - 8);
      ByteShiftBit(0xFF_FFFF, i - 16);
      SetByteBit(0xFFFF, i - 16);
    } else {
      ByteShiftBit(ALL, i - 8);
      ByteShiftBit(0xFF_FFFF, i - 16);
      ByteShiftBit(0xFFFF, i - 24);
      SetByteBit(0xFF, i - 24);
    }
  }

  // ----- Main results ---------------------------------------------------------

  /** The checksum by definition: the complement of the remainder of the division. */
  function CrcByDivision(bytes: seq<bv8>): Poly {
    Xor(Divide(Zero(), Dividend(MessageBits(bytes))), Ones())
  }

  /** The table-driven checksum is the one defined by polynomial division, for every message. */
  lemma TableIsDivision(bytes: seq<bv8>)
    ensures Bits(Crc32(bytes)) == CrcByDivision(bytes)
  {
    BitsOfAll();
    TableIsRegister(ALL, bytes);
    FeedFromOnesIsDivision(MessageBits(bytes));
    BitsXor(TableLoop(ALL, bytes), ALL);
  }

  /** Every change of a message confined to 32 consecutive bits, wherever they begin, changes the
      checksum. */
  lemma BurstChangesCrc(a: seq<bv8>, b: seq<bv8>, at: nat, n: nat)
    requires DifferWithin(MessageBits(a), MessageBits(b), at, n) && n <= 32 && a != b
    ensures Crc32(a) != Crc32(b)
  {
    if Crc32(a) == Crc32(b) {
      var p, q := TableLoop(ALL, a), TableLoop(ALL, b);
      BitsXor(p, ALL);
      BitsXor(q, ALL);
      Cancel(Bits(p), Bits(q), Bits(ALL));
      TableIsRegister(ALL, a);
      TableIsRegister(ALL, b);
      WindowInjective(Bits(ALL), MessageBits(a), MessageBits(b), at, n);
      MessageBitsInjective(a, b);
      assert false;
    }
  }

  lemma {:induction false} MessageBitsLength(bytes: seq<bv8>)
    ensures |MessageBits(bytes)| == 8 * |bytes|
  {
    if bytes != [] {
      MessageBitsLength(bytes[..|bytes| - 1]);
    }
  }

  lemma SameWordSameByte(a: bv8, b: bv8)
    requires Widen(a) == Widen(b)
    ensures a == b
  {
  }

  lemma ByteBitsInjective(a: bv8, b: bv8)
    requires ByteBits(a) == ByteBits(b)
    ensures a == b
  {
    LaidByte(a);
    LaidByte(b);
    BitsInjective(Widen(a), Widen(b));
    SameWordSameByte(a, b);
  }

  lemma {:induction false} MessageBitsInjective(a: seq<bv8>, b: seq<bv8>)
    requires MessageBits(a) == MessageBits(b)
    ensures a == b
    decreases |a|
  {
    MessageBitsLength(a);
    MessageBitsLength(b);
    if a != [] {
      var n := |a| - 1;
      var x, y := MessageBits(a[..n]), MessageBits(b[..n]);
      MessageBitsLength(a[..n]);
      MessageBitsLength(b[..n]);
      assert x == MessageBits(a)[..8 * n] && y == MessageBits(b)[..8 * n];
      assert ByteBits(a[n]) == MessageBits(a)[8 * n..] && ByteBits(b[n]) == MessageBits(b)[8 * n..];
      MessageBitsInjective(a[..n], b[..n]);
      ByteBitsInjective(a[n], b[n]);
      assert a == a[..n] + [a[n]] && b == b[..n] + [b[n]];
    }
  }

  // ----- The table and the loop -----------------------------------------------

  function Slot(b: bv8): (i: int)
    ensures 0 <= i < 256
  {
    b as int
  }

  /** The lookup table holds, for every byte, what eight shifts make of it. */
  ghost predicate TableOk(table: array<bv32>)
    reads table
  {
    table.Length == 256 && forall b: bv8 {:trigger table[Slot(b)]} :: table[Slot(b)] == TableEntry(b)
  }

  lemma SlotOfByte(b: bv8, i: int)
    requires 0 <= i < 256 && Slot(b) == i
    ensures b == i as bv8
  {
  }

  method InitTable() returns (table: array<bv32>)
    ensures fresh(table) && TableOk(table)
  {
    table := new bv32[256];
    var i := 0;
    while i < 256
      invariant 0 <= i <= 256
      invariant forall b: bv8 {:trigger table[Slot(b)]} :: Slot(b) < i ==> table[Slot(b)] == TableEntry(b)
    {
      var byte := i as bv8;
      var crc := Widen(byte);
      for j := 0 to 8
        invariant crc == ShiftWords(Widen(byte), j)
      {
        crc := (crc >> 1) ^ Taken(crc);
      }
      table[i] := crc;
      forall b: bv8 | Slot(b) < i + 1 ensures table[Slot(b)] == TableEntry(b) {
        if Slot(b) == i {
          SlotOfByte(b, i);
        }
      }
      i := i + 1;
    }
  }

  method Lookup(table: array<bv32>, low: bv8) returns (entry: bv32)
    requires TableOk(table)
    ensures entry == TableEntry(low)
  {
    entry := table[Slot(low)];
  }

  method Combine(crc: bv32, b: bv8, entry: bv32) returns (next: bv32)
    requires entry == TableEntry(LowByte(crc ^ Widen(b)))
    ensures next == TableStep(crc, b)
  {
    next := (crc >> 8) ^ entry;
  }

  method Step(table: array<bv32>, crc: bv32, b: bv8) returns (next: bv32)
    requires TableOk(table)
    ensures next == TableStep(crc, b)
  {
    var entry := Lookup(table, LowByte(crc ^ Widen(b)));
    next := Combine(crc, b, entry);
  }

  lemma LoopStep(crc0: bv32, bytes: seq<bv8>, i: nat, crc: bv32, next: bv32)
    requires i < |bytes| && crc == TableLoop(crc0, bytes[..i]) && next == TableStep(crc, bytes[i])
    ensures next == TableLoop(crc0, bytes[..i + 1])
  {
    assert bytes[..i + 1][..i] == bytes[..i];
  }

  /** The program's loop over a message buffer computes the checksum defined by division. */
  method ClusterCrc32(table: array<bv32>, data: array<bv8>) returns (crc: bv32)
    requires TableOk(table)
    ensures crc == Crc32(data[..])
    ensures Bits(crc) == CrcByDivision(data[..])
  {
    var reg := ALL;
    for i := 0 to data.Length
      invariant reg == TableLoop(ALL, data[..][..i])
    {
      var next := Step(table, reg, data[i]);
      LoopStep(ALL, data[..], i, reg, next);
      reg := next;
    }
    crc := reg ^ ALL;
    assert data[..][..data.Length] == data[..];
    TableIsDivision(data[..]);
  }

  // ----- The receiver ---------------------------------------------------------

  const CLUSTER_MAGIC: bv32 := 0x494E_5658

  datatype Header = Header(magic: bv32, payloadLen: nat, checksum: bv32)

  datatype Received = Rejected | Accepted(payload: seq<bv8>)

  /** The sender fills in the checksum of a payload; an empty one gets none. */
  function Seal(header: Header, payload: seq<bv8>): Header {
    if payload != [] && header.payloadLen > 0 then header.(checksum := Crc32(payload)) else header
  }

  /** `arrived` is what the socket yields for the payload. */
  function Receive(header: Header, arrived: seq<bv8>): Received {
    if header.magic != CLUSTER_MAGIC then Rejected
    else if header.payloadLen == 0 then Accepted([])
    else if |arrived| != header.payloadLen then Rejected
    else if Crc32(arrived) != header.checksum then Rejected
    else Accepted(arrived)
  }

  /** An unharmed payload is accepted; one whose harmed bits all lie within 32 consecutive ones never
      is. */
  lemma ReceiverRejectsBursts(header: Header, sent: seq<bv8>, got: seq<bv8>, at: nat, n: nat)
    requires header.magic == CLUSTER_MAGIC && header.payloadLen == |sent| > 0
    requires |got| == |sent| && DifferWithin(MessageBits(sent), MessageBits(got), at, n) && n <= 32
    ensures Receive(Seal(header, sent), got) == if sent == got then Accepted(sent) else Rejected
  {
    if sent != got {
      BurstChangesCrc(sent, got, at, n);
    }
  }
}
