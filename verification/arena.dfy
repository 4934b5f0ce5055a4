/** The arena: a chain of blocks, filled from the front, never freed piecewise.

    Sizes and counters are 64-bit words and wrap. `granted` stands for what malloc
    answers when the arena asks for a new block: the address of its data, or nothing. */
module ArenaModel {
  import opened Options
  import opened BitMasks
  import opened Sequences

  const DEFAULT_SIZE: nat := 64 * 1024
  const MAX_SIZE: nat := 16 * 1024 * 1024

  /** No more memory than this is ever granted, and no address is higher. */
  const LIMIT: nat := 0x8000_0000_0000

  datatype Block = Block(addr: nat, size: nat, used: nat)

  datatype Arena = Arena(
    blocks: seq<Block>, current: nat, reserved: nat, used: nat, count: nat, unit: nat,
    quota: Option<nat>, allocs: nat, peak: nat)

  /** Where a checkpoint points: a block of the chain and how much of it was used. */
  datatype Checkpoint = Checkpoint(block: nat, used: nat)

  function UsedOf(): Block -> nat {
    (b: Block) => b.used
  }

  function SizeOf(): Block -> nat {
    (b: Block) => b.size
  }

  function SumUsed(blocks: seq<Block>): nat {
    Sum(blocks, UsedOf())
  }

  function SumSizes(blocks: seq<Block>): nat {
    Sum(blocks, SizeOf())
  }

  predicate Shape(a: Arena) {
    && a.current < |a.blocks|
    && forall k | 0 <= k < |a.blocks| :: a.blocks[k].used < WORD && a.blocks[k].size < WORD
  }

  // ----- Operations ---------------------------------------------------------------

  function Create(initialSize: nat, quota: nat, granted: Option<nat>): Option<Arena> {
    var n := if initialSize == 0 then DEFAULT_SIZE else if initialSize > MAX_SIZE then MAX_SIZE else initialSize;
    if granted.None? then None
    else Some(Arena([Block(granted.value, n, 0)], 0, n, 0, 1, n, if quota > 0 then Some(quota) else None, 0, 0))
  }

  predicate QuotaStops(a: Arena, r: nat) {
    a.quota.Some? && Add64(a.used, r) > a.quota.value
  }

  predicate Fits(a: Arena, r: nat)
    requires Shape(a)
  {
    Add64(a.blocks[a.current].used, r) <= a.blocks[a.current].size
  }

  function Charge(a: Arena, r: nat): Arena {
    var used := Add64(a.used, r);
    a.(used := used, allocs := a.allocs + 1, peak := if used > a.peak then used else a.peak)
  }

  function Bump(a: Arena, r: nat): Arena
    requires Shape(a)
  {
    var b := a.blocks[a.current];
    Charge(a.(blocks := a.blocks[a.current := b.(used := Add64(b.used, r))]), r)
  }

  /** The size of the next block: the default, or twice a request that is larger. */
  function GrowthSize(a: Arena, r: nat): nat {
    if r > a.unit then 2 * r % WORD else a.unit
  }

  /** The new block follows the current one; blocks that followed it before drop out of the chain. */
  function Grow(a: Arena, r: nat, addr: nat): Arena
    requires Shape(a)
  {
    var n := GrowthSize(a, r);
    Charge(a.(blocks := a.blocks[..a.current + 1] + [Block(addr, n, r)], current := a.current + 1,
              reserved := Add64(a.reserved, n), count := a.count + 1), r)
  }

  function Alloc(a: Arena, size: nat, granted: Option<nat>): (Arena, Option<nat>)
    requires Shape(a) && size < WORD
  {
    if size == 0 then (a, None)
    else
      var r := RoundUp(size);
      if QuotaStops(a, r) then (a, None)
      else if Fits(a, r) then (Bump(a, r), Some(a.blocks[a.current].addr + a.blocks[a.current].used))
      else if granted.None? then (a, None)
      else (Grow(a, r, granted.value), granted)
  }

  /** An alignment that is not a power of two counts as 16; zero is kept. */
  function Alignment(alignment: nat): nat {
    if alignment == 0 || And(alignment, alignment - 1) == 0 then alignment else ALIGNMENT
  }

  /** The pointer moved up to the alignment; address zero is no pointer. */
  function AlignAnswer(p: Option<nat>, al: nat): Option<nat>
    requires al < WORD
  {
    if p.None? then None
    else
      var ptr := AlignUp(p.value % WORD, al);
      if ptr == 0 then None else Some(ptr)
  }

  function AllocAligned(a: Arena, size: nat, alignment: nat, granted: Option<nat>): (Arena, Option<nat>)
    requires Shape(a) && size < WORD && alignment < WORD
  {
    if size == 0 then (a, None)
    else
      var al := Alignment(alignment);
      var (b, p) := Alloc(a, Add64(size, al), granted);
      (b, AlignAnswer(p, al))
  }

  function Emptied(blocks: seq<Block>): (r: seq<Block>)
    ensures |r| == |blocks| && forall k | 0 <= k < |r| :: r[k] == blocks[k].(used := 0)
  {
    seq(|blocks|, k requires 0 <= k < |blocks| => blocks[k].(used := 0))
  }

  function Reset(a: Arena): Arena {
    a.(blocks := Emptied(a.blocks), current := 0, used := 0, allocs := 0)
  }

  // ----- What holds of every arena ------------------------------------------------

  predicate Apart(b: Block, c: Block) {
    b.addr + b.size <= c.addr || c.addr + c.size <= b.addr
  }

  /** Blocks lie apart in memory. */
  predicate BlocksApart(blocks: seq<Block>) {
    && (forall k | 0 <= k < |blocks| :: 0 < blocks[k].addr && blocks[k].addr + blocks[k].size <= LIMIT)
    && (forall i, j | 0 <= i < j < |blocks| :: Apart(blocks[i], blocks[j]))
  }

  /** Nothing is used beyond a block's size, and blocks after the current one are empty. */
  predicate Filled(a: Arena) {
    && a.current < |a.blocks|
    && (forall k | 0 <= k < |a.blocks| :: a.blocks[k].used <= a.blocks[k].size)
    && (forall k | a.current < k < |a.blocks| :: a.blocks[k].used == 0)
  }

  predicate WithinQuota(a: Arena) {
    a.quota.Some? ==> a.used <= a.quota.value
  }

  predicate Inv(a: Arena) {
    && Filled(a) && BlocksApart(a.blocks) && WithinQuota(a)
    && a.used == SumUsed(a.blocks)
    && SumSizes(a.blocks) <= a.reserved <= LIMIT && |a.blocks| <= a.count && a.unit <= LIMIT
  }

  /** Blocks from position k on are given back. */
  function Freed(a: Arena, k: nat): Arena
    requires Inv(a) && k <= |a.blocks|
  {
    SumOfPrefix(a.blocks, SizeOf(), k);
    a.(blocks := a.blocks[..k], reserved := a.reserved - (SumSizes(a.blocks) - SumSizes(a.blocks[..k])),
       count := a.count - (|a.blocks| - k))
  }

  function Clear(a: Arena): Arena
    requires Inv(a)
  {
    Freed(a, 1).(blocks := [a.blocks[0].(used := 0)], current := 0, used := 0)
  }

  function Restore(a: Arena, cp: Checkpoint): Arena
    requires Inv(a) && cp.block < |a.blocks|
  {
    var freed := Freed(a, cp.block + 1);
    var blocks := freed.blocks[cp.block := freed.blocks[cp.block].(used := cp.used)];
    freed.(blocks := blocks, current := cp.block, used := SumUsed(blocks))
  }

  // ----- What each operation keeps --------------------------------------------------

  /** What malloc may answer: memory apart from all blocks, within the limit. */
  predicate MayGrant(a: Arena, n: nat, granted: Option<nat>) {
    granted.Some? ==>
      && 0 < granted.value && granted.value + n <= LIMIT && a.reserved + n <= LIMIT
      && forall k | 0 <= k < |a.blocks| :: Apart(a.blocks[k], Block(granted.value, n, 0))
  }

  /** A request that the 64-bit arithmetic gets wrong: not stopped by the quota, and either rounding
      it up wraps to nothing, or adding it to what the block uses wraps, or twice it wraps. */
  predicate Wraps(a: Arena, size: nat, granted: Option<nat>)
    requires Shape(a) && size < WORD
  {
    && size > 0 && !QuotaStops(a, RoundUp(size))
    && (size > WORD - 16 || a.blocks[a.current].used + RoundUp(size) >= WORD
        || (RoundUp(size) >= WORD / 2 && granted.Some?))
  }

  /** What an allocation promises: the invariant, and a region of the size asked for, inside the
      current block, behind everything that was used of it. */
  predicate GoodAlloc(a: Arena, size: nat, r: (Arena, Option<nat>))
    requires Shape(a)
  {
    && Inv(r.0)
    && (r.1.Some? ==>
          var b := r.0.blocks[r.0.current];
          var from := if r.0.current == a.current then a.blocks[a.current].used else 0;
          r.1.value == b.addr + from && from + size <= b.used)
  }

  lemma InvShape(a: Arena)
    requires Inv(a)
    ensures Shape(a)
  {
    assert forall k | 0 <= k < |a.blocks| :: a.blocks[k].size <= LIMIT;
  }

  lemma {:induction false} UsedWithinSizes(blocks: seq<Block>)
    requires forall k | 0 <= k < |blocks| :: blocks[k].used <= blocks[k].size
    ensures SumUsed(blocks) <= SumSizes(blocks)
  {
    if blocks != [] {
      UsedWithinSizes(blocks[..|blocks| - 1]);
    }
  }

  /** The sums after one block's use is raised. */
  lemma RaisedSums(blocks: seq<Block>, k: nat, r: nat)
    requires k < |blocks| && blocks[k].used + r <= blocks[k].size
    requires forall i | 0 <= i < |blocks| :: blocks[i].used <= blocks[i].size
    ensures var raised := blocks[k := blocks[k].(used := blocks[k].used + r)];
      && SumUsed(raised) == SumUsed(blocks) + r <= SumSizes(blocks)
      && SumSizes(raised) == SumSizes(blocks)
  {
    var b := blocks[k].(used := blocks[k].used + r);
    SumOfUpdate(blocks, UsedOf(), k, b);
    SumOfUpdate(blocks, SizeOf(), k, b);
    UsedWithinSizes(blocks[k := b]);
  }

  lemma RaisedApart(blocks: seq<Block>, k: nat, used: nat)
    requires k < |blocks| && BlocksApart(blocks)
    ensures BlocksApart(blocks[k := blocks[k].(used := used)])
  {
    var raised := blocks[k := blocks[k].(used := used)];
    forall i, j | 0 <= i < j < |blocks| ensures Apart(raised[i], raised[j]) {
      assert Apart(blocks[i], blocks[j]);
    }
  }

  lemma BumpKeepsInv(a: Arena, r: nat)
    requires Inv(a) && Shape(a) && !QuotaStops(a, r) && a.blocks[a.current].used + r <= a.blocks[a.current].size
    ensures Inv(Bump(a, r)) && Bump(a, r).blocks[a.current].used == a.blocks[a.current].used + r
  {
    RaisedSums(a.blocks, a.current, r);
    RaisedApart(a.blocks, a.current, a.blocks[a.current].used + r);
    FitsWord(a.blocks[a.current].used, r);
    FitsWord(a.used, r);
  }

  /** The sums after a block is put behind the first k, the blocks from k on being empty. */
  lemma GrownSums(blocks: seq<Block>, k: nat, b: Block)
    requires k <= |blocks| && forall i | k <= i < |blocks| :: blocks[i].used == 0
    ensures SumUsed(blocks[..k] + [b]) == SumUsed(blocks) + b.used
    ensures SumSizes(blocks[..k] + [b]) <= SumSizes(blocks) + b.size
  {
    SumOfPrefix(blocks, UsedOf(), k);
    SumOfPrefix(blocks, SizeOf(), k);
    SumOfAppend(blocks[..k], UsedOf(), b);
    SumOfAppend(blocks[..k], SizeOf(), b);
  }

  lemma GrownApart(blocks: seq<Block>, k: nat, b: Block)
    requires k <= |blocks| && BlocksApart(blocks) && 0 < b.addr && b.addr + b.size <= LIMIT
    requires forall i | 0 <= i < |blocks| :: Apart(blocks[i], b)
    ensures BlocksApart(blocks[..k] + [b])
  {
    var grown := blocks[..k] + [b];
    forall i, j | 0 <= i < j < |grown| ensures Apart(grown[i], grown[j]) {
      if j < k {
        assert Apart(blocks[i], blocks[j]);
      } else {
        assert Apart(blocks[i], b);
      }
    }
  }

  lemma GrowKeepsInv(a: Arena, r: nat, addr: nat)
    requires Inv(a) && Shape(a) && !QuotaStops(a, r) && r < WORD / 2
    requires MayGrant(a, GrowthSize(a, r), Some(addr))
    ensures Inv(Grow(a, r, addr))
  {
    var n := GrowthSize(a, r);
    var b := Block(addr, n, r);
    assert r <= n;
    forall i | 0 <= i < |a.blocks| ensures Apart(a.blocks[i], b) {
      assert Apart(a.blocks[i], Block(addr, n, 0));
    }
    GrownApart(a.blocks, a.current + 1, b);
    GrownSums(a.blocks, a.current + 1, b);
    UsedWithinSizes(a.blocks);
    FitsWord(a.used, r);
    FitsWord(a.reserved, n);
  }

  lemma PlainAllocIsGood(a: Arena, size: nat, granted: Option<nat>)
    requires Inv(a) && Shape(a) && size < WORD && !Wraps(a, size, granted)
    requires MayGrant(a, GrowthSize(a, RoundUp(size)), granted)
    ensures GoodAlloc(a, size, Alloc(a, size, granted))
  {
    var r := RoundUp(size);
    RoundUpIsEnough(size);
    if size > 0 && !QuotaStops(a, r) {
      FitsWord(a.blocks[a.current].used, r);
      if Fits(a, r) {
        BumpKeepsInv(a, r);
      } else if granted.Some? {
        GrowKeepsInv(a, r, granted.value);
      }
    }
  }

  lemma WrappedAllocIsBad(a: Arena, size: nat, granted: Option<nat>)
    requires Inv(a) && Shape(a) && size < WORD && Wraps(a, size, granted)
    ensures !GoodAlloc(a, size, Alloc(a, size, granted))
  {
    var r, used := RoundUp(size), a.blocks[a.current].used;
    RoundUpIsEnough(size);
    assert a.blocks[a.current].size <= LIMIT;
    if size > WORD - 16 {
      FitsWord(used, r);
      assert Fits(a, r);
    } else if used + r >= WORD {
      WrapsOnce(used, r);
      assert Fits(a, r);
    } else {
      FitsWord(used, r);
      DoubleWraps(r);
      var g := Grow(a, r, granted.value);
      assert g.blocks[g.current].used > g.blocks[g.current].size;
    }
  }

  lemma DoubleWraps(r: nat)
    requires WORD / 2 <= r < WORD
    ensures 2 * r % WORD == 2 * r - WORD < r
  {
  }

  /** An allocation keeps its promise exactly when its arithmetic does not wrap. */
  lemma AllocGoodIff(a: Arena, size: nat, granted: Option<nat>)
    requires Inv(a) && size < WORD && MayGrant(a, GrowthSize(a, RoundUp(size)), granted)
    ensures Shape(a)
    ensures GoodAlloc(a, size, Alloc(a, size, granted)) <==> !Wraps(a, size, granted)
  {
    InvShape(a);
    if Wraps(a, size, granted) {
      WrappedAllocIsBad(a, size, granted);
    } else {
      PlainAllocIsGood(a, size, granted);
    }
  }

  /** No request up to 2^63 - 16 ever wraps. */
  lemma ModestRequestsNeverWrap(a: Arena, size: nat, granted: Option<nat>)
    requires Inv(a) && Shape(a) && size <= WORD / 2 - 16
    ensures !Wraps(a, size, granted)
  {
    RoundUpIsEnough(size);
    assert a.blocks[a.current].used <= a.blocks[a.current].size <= LIMIT;
  }

  function FreshArena(addr: nat): Arena {
    Arena([Block(addr, DEFAULT_SIZE, 0)], 0, DEFAULT_SIZE, 0, 1, DEFAULT_SIZE, None, 0, 0)
  }

  /** A request of 2^64 - 1 bytes on a fresh arena without quota is answered with a pointer to
      nothing. */
  lemma AHugeRequestIsAnswered(addr: nat)
    ensures Alloc(FreshArena(addr), WORD - 1, None) == (FreshArena(addr).(allocs := 1), Some(addr))
  {
    RoundUpIsEnough(WORD - 1);
    assert [Block(addr, DEFAULT_SIZE, 0)][0 := Block(addr, DEFAULT_SIZE, 0)] == [Block(addr, DEFAULT_SIZE, 0)];
  }

  /** Growing loses track of blocks exactly when the current block was not the last one, as it can be
      after a reset: then the chain no longer has all the memory counted as reserved. */
  lemma GrowthLeaksIff(a: Arena, r: nat, addr: nat)
    requires Inv(a) && Shape(a) && r < WORD / 2 && MayGrant(a, GrowthSize(a, r), Some(addr))
    requires a.reserved == SumSizes(a.blocks)
    requires forall k | 0 <= k < |a.blocks| :: a.blocks[k].size > 0
    ensures Grow(a, r, addr).reserved == SumSizes(Grow(a, r, addr).blocks) <==> a.current == |a.blocks| - 1
  {
    var kept, n := a.blocks[..a.current + 1], GrowthSize(a, r);
    SumOfAppend(kept, SizeOf(), Block(addr, n, r));
    FitsWord(a.reserved, n);
    if a.current == |a.blocks| - 1 {
      assert kept == a.blocks;
    } else {
      SumOfOneMore(a.blocks, SizeOf(), a.current + 1);
      SumOfPrefix(a.blocks, SizeOf(), a.current + 2);
    }
  }

  lemma AllocGrows(a: Arena, r: nat, addr: nat)
    requires Shape(a) && 0 < r < WORD && RoundUp(r) == r && a.quota.None? && !Fits(a, r)
    ensures Alloc(a, r, Some(addr)).0 == Grow(a, r, addr)
  {
  }

  /** Growing when the current block is the first one. */
  lemma GrowsBehindFirst(a: Arena, first: Block, r: nat, addr: nat)
    requires Shape(a) && a.current == 0 && a.blocks[0] == first && a.unit < r && a.reserved + 2 * r < WORD
    ensures var g := Grow(a, r, addr);
      && g.blocks == [first, Block(addr, 2 * r, r)] && g.reserved == a.reserved + 2 * r
      && g.count == a.count + 1 && g.unit == a.unit && g.quota == a.quota
  {
    FitsWord(a.reserved, 2 * r);
    FitsWord(r, r);
    assert a.blocks[..1] == [first];
  }

  lemma SizesOfTwo(b: Block, c: Block)
    ensures SumSizes([b, c]) == b.size + c.size
  {
    SumOfAppend([b], SizeOf(), c);
    SumOfAppend([], SizeOf(), b);
    assert [b] + [c] == [b, c] && [] + [b] == [b];
  }

  /** Grow, reset, grow: the block of the first growth is gone from the chain and still counted. */
  lemma GrowResetGrow(first: Block, r: nat, addr: nat, addr': nat)
    requires first.size == DEFAULT_SIZE && first.used == 0 && DEFAULT_SIZE < r <= LIMIT && r % 16 == 0
    ensures var grown := Alloc(Arena([first], 0, DEFAULT_SIZE, 0, 1, DEFAULT_SIZE, None, 0, 0), r, Some(addr)).0;
      Shape(Reset(grown)) &&
      var again := Alloc(Reset(grown), r, Some(addr')).0;
      && grown.blocks == [first, Block(addr, 2 * r, r)] && grown.reserved == SumSizes(grown.blocks)
      && again.blocks == [first, Block(addr', 2 * r, r)] && again.reserved == SumSizes(again.blocks) + 2 * r
      && again.count == 3
  {
    var start := Arena([first], 0, DEFAULT_SIZE, 0, 1, DEFAULT_SIZE, None, 0, 0);
    RoundUpKeepsMultiples(r);
    FitsWord(0, r);
    AllocGrows(start, r, addr);
    GrowsBehindFirst(start, first, r, addr);
    var back := Reset(Grow(start, r, addr));
    assert back.blocks[0] == first;
    AllocGrows(back, r, addr');
    GrowsBehindFirst(back, first, r, addr');
    SizesOfTwo(first, Block(addr, 2 * r, r));
    SizesOfTwo(first, Block(addr', 2 * r, r));
  }

  /** An aligned region: inside what was newly used of the current block. */
  predicate GoodAligned(a: Arena, size: nat, r: (Arena, Option<nat>))
    requires Shape(a)
  {
    && r.0.current < |r.0.blocks| && r.1.Some?
    && var b := r.0.blocks[r.0.current];
       var from := if r.0.current == a.current then a.blocks[a.current].used else 0;
       b.addr + from <= r.1.value && r.1.value + size <= b.addr + b.used
  }

  lemma PowersAreKept(k: nat)
    requires k < 64
    ensures Pow2(k) < WORD && Alignment(Pow2(k)) == Pow2(k)
  {
    Pow2Below(k);
    PowerTest(Pow2(k));
  }

  lemma {:induction false} Pow2Half(k: nat)
    requires k < 64
    ensures Pow2(k) <= WORD / 2
  {
    WordIsPow2();
    Pow2Grows(k + 1, 64);
  }

  /** What an aligned allocation promises: the invariant, and a region of the size asked for. */
  predicate GoodAlignedAlloc(a: Arena, size: nat, r: (Arena, Option<nat>))
    requires Shape(a)
  {
    Inv(r.0) && (r.1.Some? ==> GoodAligned(a, size, r))
  }

  /** A request that is not answered: nothing is asked for, the quota stops it, or no block is granted. */
  predicate Refused(a: Arena, size: nat, granted: Option<nat>)
    requires Shape(a) && size < WORD
  {
    size == 0 || QuotaStops(a, RoundUp(size)) || (!Fits(a, RoundUp(size)) && granted.None?)
  }

  /** A request that wraps and is answered: either no byte of the current block was newly used, or the
      invariant is gone. */
  lemma WrappedAllocTakesNothing(a: Arena, size: nat, granted: Option<nat>)
    requires Inv(a) && Shape(a) && size < WORD && Wraps(a, size, granted)
    ensures var (b, p) := Alloc(a, size, granted);
      || !Inv(b)
      || (b.current == a.current && p == Some(a.blocks[a.current].addr + a.blocks[a.current].used)
          && 0 < p.value <= LIMIT
          && b.blocks[b.current].addr + b.blocks[b.current].used <= p.value)
  {
    var r, used := RoundUp(size), a.blocks[a.current].used;
    RoundUpIsEnough(size);
    assert a.blocks[a.current].addr + a.blocks[a.current].size <= LIMIT;
    if size > WORD - 16 {
      FitsWord(used, r);
      assert Fits(a, r);
    } else if used + r >= WORD {
      WrapsOnce(used, r);
      assert Fits(a, r);
    } else {
      FitsWord(used, r);
      DoubleWraps(r);
      var g := Grow(a, r, granted.value);
      assert g.blocks[g.current].used > g.blocks[g.current].size;
    }
  }

  /** A power-of-two alignment is met: every answer is a multiple of it. The promise is kept exactly when
      the padded request is refused, or size and alignment together fit a word and it does not wrap. */
  lemma AlignedGoodIff(a: Arena, size: nat, k: nat, granted: Option<nat>) returns (m: nat)
    requires Inv(a) && Shape(a) && 0 < size < WORD && k < 64 && Pow2(k) < WORD
    requires MayGrant(a, GrowthSize(a, RoundUp(Add64(size, Pow2(k)))), granted)
    ensures var r, padded := AllocAligned(a, size, Pow2(k), granted), Add64(size, Pow2(k));
      && (r.1.Some? && Inv(r.0) ==> r.1.value == m * Pow2(k))
      && (GoodAlignedAlloc(a, size, r) <==>
            Refused(a, padded, granted) || (size + Pow2(k) < WORD && !Wraps(a, padded, granted)))
  {
    m := 0;
    PowersAreKept(k);
    Pow2Half(k);
    var padded := Add64(size, Pow2(k));
    var (b, p) := Alloc(a, padded, granted);
    if !Refused(a, padded, granted) {
      if Wraps(a, padded, granted) {
        WrappedAllocTakesNothing(a, padded, granted);
        if Inv(b) {
          m := AlignUpRounds(p.value, k);
          AlignedAnswer(p.value, Pow2(k));
        }
      } else {
        PlainAllocIsGood(a, padded, granted);
        AllocUses(a, padded, granted);
        m := AlignUpRounds(p.value, k);
        AlignedGoodWith(a, size, Pow2(k), granted, p.value, m * Pow2(k));
      }
    }
  }

  lemma FreshArenaGives(addr: nat, size: nat, r: nat)
    requires 0 < size < WORD && RoundUp(size) == r <= DEFAULT_SIZE
    ensures var (b, p) := Alloc(FreshArena(addr), size, None);
      p == Some(addr) && b.blocks == [Block(addr, DEFAULT_SIZE, r)]
  {
    FitsWord(0, r);
    assert Bump(FreshArena(addr), r).blocks == [Block(addr, DEFAULT_SIZE, r)];
  }

  lemma AlignedToSixteen(addr: nat)
    requires 0 < addr <= LIMIT
    ensures Alignment(16) == 16 && AlignAnswer(Some(addr), 16).Some?
  {
    assert Pow2(4) == 16 by { assert Pow2(2) == 4; }
    PowersAreKept(4);
    var m := AlignUpRounds(addr, 4);
    AlignedAnswer(addr, 16);
  }

  /** A request of 2^64 - 1 bytes aligned to 16, on a fresh arena without quota, takes 16 bytes and is
      answered. */
  lemma AHugeAlignedRequestIsAnswered(addr: nat)
    requires 0 < addr <= LIMIT
    ensures var (b, p) := AllocAligned(FreshArena(addr), WORD - 1, 16, None);
      p.Some? && b.blocks == [Block(addr, DEFAULT_SIZE, 16)]
  {
    AlignedToSixteen(addr);
    RoundUpIsEnough(15);
    FreshArenaGives(addr, 15, 16);
    assert Add64(WORD - 1, 16) == 15;
  }

  lemma AlignedGoodWith(a: Arena, size: nat, al: nat, granted: Option<nat>, q: nat, ptr: nat)
    requires Inv(a) && Shape(a) && 0 < size < WORD && 0 < al <= WORD / 2 && Alignment(al) == al
    requires !Wraps(a, Add64(size, al), granted)
    requires MayGrant(a, GrowthSize(a, RoundUp(Add64(size, al))), granted)
    requires Alloc(a, Add64(size, al), granted).1 == Some(q) && q <= LIMIT
    requires AlignUp(q, al) == ptr && 0 < q <= ptr < q + al
    ensures AllocAligned(a, size, al, granted).1 == Some(ptr)
    ensures GoodAligned(a, size, AllocAligned(a, size, al, granted)) <==> size + al < WORD
  {
    AlignedAnswer(q, al);
    AllocUses(a, Add64(size, al), granted);
    AlignedRoom(q, size, al, ptr);
  }

  lemma AlignedAnswer(q: nat, al: nat)
    requires al < WORD && q < WORD && AlignUp(q, al) > 0
    ensures AlignAnswer(Some(q), al) == Some(AlignUp(q, al))
  {
    assert q % WORD == q;
  }

  /** Somewhere in [q, q + al) there is room for size within the rounded sum, unless the sum wraps. */
  lemma AlignedRoom(q: nat, size: nat, al: nat, ptr: nat)
    requires 0 < size < WORD && 0 < al <= WORD / 2 && q <= ptr < q + al
    requires Add64(size, al) <= WORD - 16
    ensures ptr + size <= q + RoundUp(Add64(size, al)) <==> size + al < WORD
  {
    var total := Add64(size, al);
    RoundUpIsEnough(total);
    if size + al < WORD {
      FitsWord(size, al);
    } else {
      WrapsOnce(size, al);
    }
    RoomOrNot(q, size, al, ptr, total, RoundUp(total));
  }

  lemma RoomOrNot(q: nat, size: nat, al: nat, ptr: nat, total: nat, r: nat)
    requires al <= WORD / 2 && q <= ptr < q + al && total <= r < total + 16
    requires total == if size + al < WORD then size + al else size + al - WORD
    ensures ptr + size <= q + r <==> size + al < WORD
  {
  }

  /** How much of the current block an answered request takes. */
  lemma AllocUses(a: Arena, size: nat, granted: Option<nat>)
    requires Inv(a) && Shape(a) && size < WORD && !Wraps(a, size, granted) && Alloc(a, size, granted).1.Some?
    requires MayGrant(a, GrowthSize(a, RoundUp(size)), granted)
    ensures size <= WORD - 16
    ensures var (b, p) := Alloc(a, size, granted);
      var from := if b.current == a.current then a.blocks[a.current].used else 0;
      b.current < |b.blocks| && p.value == b.blocks[b.current].addr + from && 0 < p.value <= LIMIT
      && b.blocks[b.current].used == from + RoundUp(size)
  {
    FitsWord(a.blocks[a.current].used, RoundUp(size));
    assert a.blocks[a.current].addr + a.blocks[a.current].size <= LIMIT;
  }

  /** An alignment of zero takes memory and answers with no pointer. */
  lemma ZeroAlignmentIsNull(a: Arena, size: nat, granted: Option<nat>)
    requires Shape(a) && size < WORD
    ensures AllocAligned(a, size, 0, granted) == (Alloc(a, size, granted).0, None)
  {
    assert Add64(size, 0) == size;
    NoPointerAtZero(Alloc(a, size, granted).1);
  }

  lemma NoPointerAtZero(p: Option<nat>)
    ensures AlignAnswer(p, 0) == None
  {
    if p.Some? {
      AlignUpToZero(p.value % WORD);
    }
  }

  // ----- In place -------------------------------------------------------------------

  class ArenaAllocator {
    var blocks: seq<Block>
    var current: nat
    var reserved: nat
    var used: nat
    var count: nat
    var unit: nat
    var quota: Option<nat>
    var allocs: nat
    var peak: nat

    function View(): Arena
      reads this
    {
      Arena(blocks, current, reserved, used, count, unit, quota, allocs, peak)
    }

    constructor (initialSize: nat, limit: nat, addr: nat)
      ensures Create(initialSize, limit, Some(addr)) == Some(View())
    {
      var n := initialSize;
      if n == 0 {
        n := DEFAULT_SIZE;
      }
      if n > MAX_SIZE {
        n := MAX_SIZE;
      }
      blocks, current := [Block(addr, n, 0)], 0;
      reserved, used, count, unit := n, 0, 1, n;
      quota, allocs, peak := None, 0, 0;
      if limit > 0 {
        quota := Some(limit);
      }
    }

    method AddUse(r: nat)
      modifies this`used, this`allocs, this`peak
      ensures View() == Charge(old(View()), r)
    {
      used := Add64(used, r);
      allocs := allocs + 1;
      if used > peak {
        peak := used;
      }
    }

    method Allocate(size: nat, granted: Option<nat>) returns (p: Option<nat>)
      requires Shape(View()) && size < WORD
      modifies this
      ensures (View(), p) == Alloc(old(View()), size, granted)
    {
      if size == 0 {
        return None;
      }
      var r := RoundUp(size);
      if quota.Some? && Add64(used, r) > quota.value {
        return None;
      }
      var block := blocks[current];
      if Add64(block.used, r) <= block.size {
        blocks := blocks[current := block.(used := Add64(block.used, r))];
        AddUse(r);
        return Some(block.addr + block.used);
      }
      var newSize := unit;
      if r > newSize {
        newSize := 2 * r % WORD;
      }
      if granted.None? {
        return None;
      }
      blocks := blocks[..current + 1] + [Block(granted.value, newSize, r)];
      current := current + 1;
      reserved := Add64(reserved, newSize);
      count := count + 1;
      AddUse(r);
      return granted;
    }

    method AllocateAligned(size: nat, alignment: nat, granted: Option<nat>) returns (p: Option<nat>)
      requires Shape(View()) && size < WORD && alignment < WORD
      modifies this
      ensures (View(), p) == AllocAligned(old(View()), size, alignment, granted)
    {
      if size == 0 {
        return None;
      }
      var al := alignment;
      if alignment != 0 && And(alignment, alignment - 1) != 0 {
        al := ALIGNMENT;
      }
      p := Allocate(Add64(size, al), granted);
      if p.Some? {
        var ptr := AlignUp(p.value % WORD, al);
        p := if ptr == 0 then None else Some(ptr);
      }
    }

    method ResetAll()
      modifies this
      ensures View() == Reset(old(View()))
    {
      var i := 0;
      while i < |blocks|
        invariant i <= |blocks| == |old(blocks)|
        invariant forall k | 0 <= k < |blocks| :: blocks[k] == if k < i then old(blocks)[k].(used := 0) else old(blocks)[k]
        invariant View() == old(View()).(blocks := blocks)
      {
        blocks := blocks[i := blocks[i].(used := 0)];
        i := i + 1;
      }
      assert blocks == Emptied(old(blocks));
      current := 0;
      used := 0;
      allocs := 0;
    }

    /** Uncount the blocks from position k on, front to back. */
    method Uncount(k: nat)
      requires k <= |blocks| <= count && SumSizes(blocks[..k]) <= SumSizes(blocks) <= reserved
      modifies this`reserved, this`count
      ensures reserved == old(reserved) - (SumSizes(blocks) - SumSizes(blocks[..k]))
      ensures count == old(count) - (|blocks| - k)
    {
      ghost var before := SumSizes(blocks[..k]);
      var i := k;
      while i < |blocks|
        invariant k <= i <= |blocks| && count == old(count) - (i - k)
        invariant before <= SumSizes(blocks[..i]) <= SumSizes(blocks)
        invariant reserved == old(reserved) - (SumSizes(blocks[..i]) - before)
      {
        SumOfOneMore(blocks, SizeOf(), i);
        SumOfPrefix(blocks, SizeOf(), i + 1);
        reserved := reserved - blocks[i].size;
        count := count - 1;
        i := i + 1;
      }
      assert blocks[..|blocks|] == blocks;
    }

    method FreeFrom(k: nat)
      requires Inv(View()) && k <= |blocks|
      modifies this
      ensures View() == Freed(old(View()), k)
    {
      SumOfPrefix(blocks, SizeOf(), k);
      Uncount(k);
      blocks := blocks[..k];
    }

    method ClearAll()
      requires Inv(View())
      modifies this
      ensures View() == Clear(old(View()))
    {
      FreeFrom(1);
      blocks := [blocks[0].(used := 0)];
      current := 0;
      used := 0;
    }

    method TakeCheckpoint() returns (cp: Checkpoint)
      requires Shape(View())
      ensures cp == Checkpoint(current, blocks[current].used)
    {
      cp := Checkpoint(current, blocks[current].used);
    }

    method RestoreTo(cp: Checkpoint)
      requires Inv(View()) && cp.block < |blocks|
      modifies this
      ensures View() == Restore(old(View()), cp)
    {
      FreeFrom(cp.block + 1);
      blocks := blocks[cp.block := blocks[cp.block].(used := cp.used)];
      current := cp.block;
      SumUp();
    }

    /** Sum the total again over the chain. */
    method SumUp()
      modifies this`used
      ensures used == SumUsed(blocks)
    {
      used := 0;
      var i := 0;
      while i < |blocks|
        invariant i <= |blocks| && used == SumUsed(blocks[..i])
      {
        SumOfOneMore(blocks, UsedOf(), i);
        used := used + blocks[i].used;
        i := i + 1;
      }
      assert blocks[..|blocks|] == blocks;
    }
  }
}
