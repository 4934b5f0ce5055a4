/** The arena over every run: what callers hold stays apart,
    and checkpoints bring back what was held. */
module ArenaSafety {
  import opened Options
  import opened BitMasks
  import opened ArenaModel
  import opened Sequences

  /** An answered request: `len` bytes from `off` on in a block are its own, and `size` bytes from
      `ptr` on are what the caller may use. */
  datatype Region = Region(block: nat, off: nat, len: nat, ptr: nat, size: nat)

  /** A checkpoint with what held when it was taken. */
  datatype Mark = Mark(cp: Checkpoint, saved: seq<Region>, total: nat)

  datatype Sys = Sys(arena: Arena, live: seq<Region>, marks: seq<Mark>)

  datatype Step =
    | Request(size: nat, granted: Option<nat>)
    | RequestAligned(size: nat, alignment: nat, granted: Option<nat>)
    | ResetStep
    | ClearStep
    | TakeMark
    | RestoreMark(k: nat)

  // ----- Runs ---------------------------------------------------------------------

  predicate Plain(a: Arena, size: nat, granted: Option<nat>) {
    && Shape(a) && size < WORD && MayGrant(a, GrowthSize(a, RoundUp(size)), granted) && !Wraps(a, size, granted)
  }

  predicate Enabled(s: Sys, step: Step) {
    && Inv(s.arena)
    && match step
       case Request(size, granted) => Plain(s.arena, size, granted)
       case RequestAligned(size, alignment, granted) =>
         && alignment < WORD && size + Alignment(alignment) < WORD
         && Plain(s.arena, size + Alignment(alignment), granted)
       case RestoreMark(k) => k < |s.marks| && s.marks[k].cp.block < |s.arena.blocks|
       case _ => true
  }

  /** Note an answered request. */
  function Note(s: Sys, size: nat, r: (Arena, Option<nat>)): Sys
    requires s.arena.current < |s.arena.blocks| && r.0.current < |r.0.blocks|
  {
    var from := From(s.arena, r.0);
    var used := r.0.blocks[r.0.current].used;
    var len := if used < from then 0 else used - from;
    if r.1.None? then s.(arena := r.0)
    else Sys(r.0, s.live + [Region(r.0.current, from, len, r.1.value, size)], s.marks)
  }

  function From(a: Arena, b: Arena): nat
    requires a.current < |a.blocks|
  {
    if b.current == a.current then a.blocks[a.current].used else 0
  }

  function Do(s: Sys, step: Step): Sys
    requires Enabled(s, step)
  {
    InvShape(s.arena);
    match step
    case Request(size, granted) => Note(s, size, Alloc(s.arena, size, granted))
    case RequestAligned(size, alignment, granted) => Note(s, size, AllocAligned(s.arena, size, alignment, granted))
    case ResetStep => Sys(Reset(s.arena), [], [])
    case ClearStep => Sys(Clear(s.arena), [], [])
    case TakeMark =>
      var a := s.arena;
      s.(marks := s.marks + [Mark(Checkpoint(a.current, a.blocks[a.current].used), s.live, a.used)])
    case RestoreMark(k) =>
      var m := s.marks[k];
      Sys(Restore(s.arena, m.cp), if |m.saved| <= |s.live| then s.live[..|m.saved|] else [], s.marks[..k + 1])
  }

  predicate IsRun(s: Sys, steps: seq<Step>)
    decreases |steps|
  {
    steps == [] || (Enabled(s, steps[0]) && IsRun(Do(s, steps[0]), steps[1..]))
  }

  function Exec(s: Sys, steps: seq<Step>): Sys
    requires IsRun(s, steps)
    decreases |steps|
  {
    if steps == [] then s else Exec(Do(s, steps[0]), steps[1..])
  }

  // ----- The invariant --------------------------------------------------------------

  /** Earlier or equal in the chain. */
  predicate Before(b: nat, x: nat, c: nat, y: nat) {
    b < c || (b == c && x <= y)
  }

  predicate RegionIn(a: Arena, r: Region)
    requires a.current < |a.blocks|
  {
    && r.block <= a.current && r.off + r.len <= a.blocks[r.block].used
    && a.blocks[r.block].addr + r.off <= r.ptr && r.ptr + r.size <= a.blocks[r.block].addr + r.off + r.len
  }

  predicate RegionsIn(a: Arena, live: seq<Region>) {
    a.current < |a.blocks| && forall i | 0 <= i < |live| :: RegionIn(a, live[i])
  }

  predicate Follows(r: Region, q: Region) {
    Before(r.block, r.off + r.len, q.block, q.off)
  }

  predicate Ordered(live: seq<Region>) {
    forall i, j | 0 <= i < j < |live| :: Follows(live[i], live[j])
  }

  predicate EndsBy(r: Region, cp: Checkpoint) {
    Before(r.block, r.off + r.len, cp.block, cp.used)
  }

  predicate StartsFrom(r: Region, cp: Checkpoint) {
    Before(cp.block, cp.used, r.block, r.off)
  }

  predicate MarkIn(a: Arena, m: Mark) {
    && m.cp.block <= a.current < |a.blocks| && m.cp.used <= a.blocks[m.cp.block].used
    && m.total == SumUsed(a.blocks[..m.cp.block]) + m.cp.used
  }

  predicate MarkCuts(live: seq<Region>, m: Mark) {
    && m.saved <= live
    && (forall i | 0 <= i < |m.saved| :: EndsBy(live[i], m.cp))
    && (forall i | |m.saved| <= i < |live| :: StartsFrom(live[i], m.cp))
  }

  predicate MarksOk(s: Sys) {
    forall k | 0 <= k < |s.marks| :: MarkIn(s.arena, s.marks[k]) && MarkCuts(s.live, s.marks[k])
  }

  predicate Within(m: Mark, n: Mark) {
    Before(m.cp.block, m.cp.used, n.cp.block, n.cp.used) && |m.saved| <= |n.saved|
  }

  predicate Nested(marks: seq<Mark>) {
    forall k, l | 0 <= k < l < |marks| :: Within(marks[k], marks[l])
  }

  predicate SysInv(s: Sys) {
    && Inv(s.arena) && RegionsIn(s.arena, s.live) && Ordered(s.live) && MarksOk(s) && Nested(s.marks)
  }

  // ----- Requests -------------------------------------------------------------------

  /** What an allocation does to the chain: blocks before the current one stay, the current one only
      fills, and at most one block is added behind it. */
  predicate Extends(a: Arena, b: Arena) {
    && a.current < |a.blocks| && a.current <= b.current <= a.current + 1 && b.current < |b.blocks|
    && b.blocks[..a.current] == a.blocks[..a.current]
    && b.blocks[a.current].addr == a.blocks[a.current].addr
    && b.blocks[a.current].used >= a.blocks[a.current].used
  }

  lemma BumpExtends(a: Arena, r: nat)
    requires Shape(a) && a.blocks[a.current].used + r < WORD
    ensures Extends(a, Bump(a, r))
  {
    FitsWord(a.blocks[a.current].used, r);
    assert Bump(a, r).blocks[..a.current] == a.blocks[..a.current];
  }

  lemma GrowExtends(a: Arena, r: nat, addr: nat)
    requires Shape(a)
    ensures Extends(a, Grow(a, r, addr))
  {
    assert Grow(a, r, addr).blocks[..a.current] == a.blocks[..a.current];
  }

  lemma AllocExtends(a: Arena, size: nat, granted: Option<nat>)
    requires Shape(a) && size < WORD && !Wraps(a, size, granted)
    ensures Extends(a, Alloc(a, size, granted).0)
  {
    var r := RoundUp(size);
    if size > 0 && !QuotaStops(a, r) {
      BumpExtends(a, r);
      if granted.Some? {
        GrowExtends(a, r, granted.value);
      }
    }
  }

  lemma RegionStays(a: Arena, b: Arena, r: Region)
    requires Extends(a, b) && RegionIn(a, r)
    ensures RegionIn(b, r)
  {
    if r.block < a.current {
      assert b.blocks[r.block] == b.blocks[..a.current][r.block] == a.blocks[..a.current][r.block];
    }
  }

  lemma MarkStaysIn(a: Arena, b: Arena, m: Mark)
    requires Extends(a, b) && MarkIn(a, m)
    ensures MarkIn(b, m)
  {
    var k := m.cp.block;
    assert b.blocks[..k] == b.blocks[..a.current][..k] == a.blocks[..a.current][..k] == a.blocks[..k];
    if k < a.current {
      assert b.blocks[k] == b.blocks[..a.current][k] == a.blocks[..a.current][k];
    }
  }

  /** A request that was answered, or not, keeps the invariant if its region is good. */
  lemma NoteKeepsInv(s: Sys, size: nat, r: (Arena, Option<nat>))
    requires SysInv(s) && Extends(s.arena, r.0) && Inv(r.0)
    requires r.1.Some? ==> GoodRegion(s.arena, size, r)
    ensures SysInv(Note(s, size, r))
  {
    var t := Note(s, size, r);
    var n := |s.live|;
    forall i | 0 <= i < |t.live| ensures RegionIn(t.arena, t.live[i]) {
      if i < n {
        RegionStays(s.arena, r.0, s.live[i]);
      }
    }
    forall k | 0 <= k < |t.marks| ensures MarkIn(t.arena, t.marks[k]) && MarkCuts(t.live, t.marks[k]) {
      assert MarkIn(s.arena, s.marks[k]) && MarkCuts(s.live, s.marks[k]);
      MarkStaysIn(s.arena, r.0, t.marks[k]);
    }
    forall i, j | 0 <= i < j < |t.live| ensures Follows(t.live[i], t.live[j]) {
      assert RegionIn(s.arena, s.live[i]);
    }
  }

  /** The answer lies in what was newly used of the current block. */
  predicate GoodRegion(a: Arena, size: nat, r: (Arena, Option<nat>))
    requires a.current < |a.blocks| && r.0.current < |r.0.blocks| && r.1.Some?
  {
    var b := r.0.blocks[r.0.current];
    b.addr + From(a, r.0) <= r.1.value && r.1.value + size <= b.addr + b.used
  }

  lemma RequestKeepsInv(s: Sys, size: nat, granted: Option<nat>)
    requires SysInv(s) && Enabled(s, Request(size, granted))
    ensures SysInv(Do(s, Request(size, granted)))
  {
    PlainAllocIsGood(s.arena, size, granted);
    AllocExtends(s.arena, size, granted);
    NoteKeepsInv(s, size, Alloc(s.arena, size, granted));
  }

  lemma AlignmentIs(alignment: nat) returns (k: nat)
    requires 0 < alignment < WORD
    ensures k < 64 && Alignment(alignment) == Pow2(k) < WORD
  {
    PowerTest(alignment);
    WordIsPow2();
    if And(alignment, alignment - 1) == 0 {
      k :| alignment == Pow2(k);
      if k >= 64 {
        Pow2Grows(64, k);
      }
    } else {
      k := 4;
    }
  }

  lemma PaddedAllocExtends(a: Arena, size: nat, alignment: nat, granted: Option<nat>)
    requires Inv(a) && 0 < size && alignment < WORD && size + Alignment(alignment) < WORD
    requires Plain(a, size + Alignment(alignment), granted)
    ensures var b := AllocAligned(a, size, alignment, granted).0; Extends(a, b) && Inv(b)
  {
    var total := size + Alignment(alignment);
    FitsWord(size, Alignment(alignment));
    PlainAllocIsGood(a, total, granted);
    AllocExtends(a, total, granted);
  }

  /** An aligned request that does not wrap is good, whether it is answered or not. */
  lemma AlignedAllocIsGood(a: Arena, size: nat, alignment: nat, granted: Option<nat>)
    requires Inv(a) && 0 < size && alignment < WORD && size + Alignment(alignment) < WORD
    requires Plain(a, size + Alignment(alignment), granted)
    ensures var r := AllocAligned(a, size, alignment, granted);
      Extends(a, r.0) && Inv(r.0) && (r.1.Some? ==> GoodRegion(a, size, r))
  {
    PaddedAllocExtends(a, size, alignment, granted);
    AlignedRegionIsGood(a, size, alignment, granted, AllocAligned(a, size, alignment, granted));
  }

  lemma AlignedRegionIsGood(a: Arena, size: nat, alignment: nat, granted: Option<nat>, r: (Arena, Option<nat>))
    requires Inv(a) && 0 < size && alignment < WORD && size + Alignment(alignment) < WORD
    requires Plain(a, size + Alignment(alignment), granted) && r == AllocAligned(a, size, alignment, granted)
    requires Inv(r.0)
    ensures r.1.Some? ==> GoodRegion(a, size, r)
  {
    if alignment == 0 {
      ZeroAlignmentIsNull(a, size, granted);
    } else {
      var k := AlignmentIs(alignment);
      FitsWord(size, Pow2(k));
      PowersAreKept(k);
      var m := AlignedGoodIff(a, size, k, granted);
      assert r == AllocAligned(a, size, Pow2(k), granted);
    }
  }

  lemma AlignedRequestKeepsInv(s: Sys, size: nat, alignment: nat, granted: Option<nat>)
    requires SysInv(s) && Enabled(s, RequestAligned(size, alignment, granted))
    ensures SysInv(Do(s, RequestAligned(size, alignment, granted)))
  {
    var a := s.arena;
    if size > 0 {
      AlignedAllocIsGood(a, size, alignment, granted);
    } else {
      assert a.blocks[..a.current] == a.blocks[..a.current];
    }
    NoteKeepsInv(s, size, AllocAligned(a, size, alignment, granted));
  }

  // ----- Reset, clear, checkpoint, restore -------------------------------------------

  lemma {:induction false} EmptiedSums(blocks: seq<Block>)
    ensures SumUsed(Emptied(blocks)) == 0 && SumSizes(Emptied(blocks)) == SumSizes(blocks)
  {
    if blocks != [] {
      var last := |blocks| - 1;
      assert Emptied(blocks)[..last] == Emptied(blocks[..last]);
      EmptiedSums(blocks[..last]);
    }
  }

  lemma EmptiedApart(blocks: seq<Block>)
    requires BlocksApart(blocks)
    ensures BlocksApart(Emptied(blocks))
  {
    forall i, j | 0 <= i < j < |blocks| ensures Apart(Emptied(blocks)[i], Emptied(blocks)[j]) {
      assert Apart(blocks[i], blocks[j]);
    }
  }

  lemma ResetKeepsInv(a: Arena)
    requires Inv(a)
    ensures Inv(Reset(a))
  {
    EmptiedSums(a.blocks);
    EmptiedApart(a.blocks);
  }

  /** Cutting the chain behind block k and lowering what that block uses. */
  lemma CutSums(blocks: seq<Block>, k: nat, used: nat)
    requires k < |blocks| && used <= blocks[k].used
    ensures var cut := blocks[..k + 1][k := blocks[k].(used := used)];
      && SumUsed(cut) == SumUsed(blocks[..k]) + used <= SumUsed(blocks)
      && SumSizes(cut) == SumSizes(blocks[..k + 1]) <= SumSizes(blocks)
  {
    var b := blocks[k].(used := used);
    SumOfUpdate(blocks[..k + 1], UsedOf(), k, b);
    SumOfUpdate(blocks[..k + 1], SizeOf(), k, b);
    SumOfOneMore(blocks, UsedOf(), k);
    SumOfPrefix(blocks, UsedOf(), k + 1);
    SumOfPrefix(blocks, SizeOf(), k + 1);
  }

  lemma CutApart(blocks: seq<Block>, k: nat, used: nat)
    requires k < |blocks| && BlocksApart(blocks)
    ensures BlocksApart(blocks[..k + 1][k := blocks[k].(used := used)])
  {
    var cut := blocks[..k + 1];
    forall i, j | 0 <= i < j < |cut| ensures Apart(cut[i], cut[j]) {
      assert Apart(blocks[i], blocks[j]);
    }
    RaisedApart(blocks[..k + 1], k, used);
  }

  lemma ClearKeepsInv(a: Arena)
    requires Inv(a)
    ensures Inv(Clear(a))
  {
    CutSums(a.blocks, 0, 0);
    CutApart(a.blocks, 0, 0);
    assert a.blocks[..1][0 := a.blocks[0].(used := 0)] == [a.blocks[0].(used := 0)];
  }

  /** Restoring brings the total back to what the blocks before and the checkpoint say. */
  lemma RestoreKeepsInv(a: Arena, cp: Checkpoint)
    requires Inv(a) && cp.block <= a.current && cp.used <= a.blocks[cp.block].used
    ensures Inv(Restore(a, cp)) && Restore(a, cp).used == SumUsed(a.blocks[..cp.block]) + cp.used
  {
    CutSums(a.blocks, cp.block, cp.used);
    CutApart(a.blocks, cp.block, cp.used);
  }

  lemma MarkStaysAfterRestore(a: Arena, cp: Checkpoint, m: Mark)
    requires Inv(a) && cp.block <= a.current && cp.used <= a.blocks[cp.block].used
    requires MarkIn(a, m) && Before(m.cp.block, m.cp.used, cp.block, cp.used)
    ensures MarkIn(Restore(a, cp), m)
  {
    assert Restore(a, cp).blocks[..m.cp.block] == a.blocks[..m.cp.block];
  }

  lemma RegionStaysAfterRestore(a: Arena, cp: Checkpoint, r: Region)
    requires Inv(a) && cp.block <= a.current && cp.used <= a.blocks[cp.block].used
    requires RegionIn(a, r) && EndsBy(r, cp)
    ensures RegionIn(Restore(a, cp), r)
  {
  }

  lemma RestoreMarkKeepsInv(s: Sys, k: nat)
    requires SysInv(s) && Enabled(s, RestoreMark(k))
    ensures SysInv(Do(s, RestoreMark(k)))
    ensures Do(s, RestoreMark(k)).arena.used == s.marks[k].total && Do(s, RestoreMark(k)).live == s.marks[k].saved
  {
    var t, m := Do(s, RestoreMark(k)), s.marks[k];
    assert MarkIn(s.arena, m) && MarkCuts(s.live, m);
    RestoreKeepsInv(s.arena, m.cp);
    forall i | 0 <= i < |t.live| ensures RegionIn(t.arena, t.live[i]) {
      assert EndsBy(s.live[i], m.cp);
      RegionStaysAfterRestore(s.arena, m.cp, s.live[i]);
    }
    forall j | 0 <= j < |t.marks| ensures MarkIn(t.arena, t.marks[j]) && MarkCuts(t.live, t.marks[j]) {
      OuterMarkStays(s, k, j);
    }
  }

  lemma OuterMarkStays(s: Sys, k: nat, j: nat)
    requires SysInv(s) && j <= k < |s.marks|
    ensures MarkIn(Restore(s.arena, s.marks[k].cp), s.marks[j])
    ensures MarkCuts(s.live[..|s.marks[k].saved|], s.marks[j])
  {
    var m := s.marks[k];
    assert MarkIn(s.arena, m) && MarkCuts(s.live, m);
    assert MarkIn(s.arena, s.marks[j]) && MarkCuts(s.live, s.marks[j]);
    assert j < k ==> Within(s.marks[j], m);
    MarkStaysAfterRestore(s.arena, m.cp, s.marks[j]);
  }

  lemma TakeMarkKeepsInv(s: Sys)
    requires SysInv(s)
    ensures SysInv(Do(s, TakeMark))
  {
    var t, a := Do(s, TakeMark), s.arena;
    var cp := t.marks[|s.marks|].cp;
    SumOfPrefix(a.blocks, UsedOf(), a.current + 1);
    SumOfOneMore(a.blocks, UsedOf(), a.current);
    forall k | 0 <= k < |t.marks| ensures MarkIn(t.arena, t.marks[k]) && MarkCuts(t.live, t.marks[k]) {
      if k < |s.marks| {
        assert MarkIn(s.arena, s.marks[k]) && MarkCuts(s.live, s.marks[k]);
      } else {
        assert forall i | 0 <= i < |s.live| :: RegionIn(a, s.live[i]) && EndsBy(s.live[i], cp);
      }
    }
    forall k, l | 0 <= k < l < |t.marks| ensures Within(t.marks[k], t.marks[l]) {
      assert MarkIn(s.arena, s.marks[k]) && MarkCuts(s.live, s.marks[k]);
    }
  }

  lemma StepKeepsInv(s: Sys, step: Step)
    requires SysInv(s) && Enabled(s, step)
    ensures SysInv(Do(s, step))
  {
    match step
    case Request(size, granted) => RequestKeepsInv(s, size, granted);
    case RequestAligned(size, alignment, granted) => AlignedRequestKeepsInv(s, size, alignment, granted);
    case ResetStep => ResetKeepsInv(s.arena);
    case ClearStep => ClearKeepsInv(s.arena);
    case TakeMark => TakeMarkKeepsInv(s);
    case RestoreMark(k) => RestoreMarkKeepsInv(s, k);
  }

  lemma {:induction false} RunKeepsInv(s: Sys, steps: seq<Step>)
    requires SysInv(s) && IsRun(s, steps)
    ensures SysInv(Exec(s, steps))
    decreases |steps|
  {
    if steps != [] {
      StepKeepsInv(s, steps[0]);
      RunKeepsInv(Do(s, steps[0]), steps[1..]);
    }
  }

  // ----- Main results -----------------------------------------------------------------

  predicate Created(a: Arena, initialSize: nat, quota: nat, addr: nat) {
    0 < addr && addr + MAX_SIZE <= LIMIT && Create(initialSize, quota, Some(addr)) == Some(a)
  }

  lemma CreatedIsGood(a: Arena, initialSize: nat, quota: nat, addr: nat)
    requires Created(a, initialSize, quota, addr)
    ensures SysInv(Sys(a, [], []))
  {
    assert Sum(a.blocks, UsedOf()) == Sum(a.blocks[..0], UsedOf()) + 0;
    assert Sum(a.blocks, SizeOf()) == Sum(a.blocks[..0], SizeOf()) + a.blocks[0].size;
  }

  predicate Disjoint(r: Region, q: Region) {
    r.ptr + r.size <= q.ptr || q.ptr + q.size <= r.ptr
  }

  /** In every run: the total used is the sum over the chain and within the quota, every region that
      callers hold lies inside the used part of one block, no two overlap, and the blocks after the
      current one are empty. */
  lemma LiveRegionsAreSafe(a: Arena, initialSize: nat, quota: nat, addr: nat, steps: seq<Step>)
    requires Created(a, initialSize, quota, addr) && IsRun(Sys(a, [], []), steps)
    ensures var s := Exec(Sys(a, [], []), steps);
      && s.arena.used == SumUsed(s.arena.blocks) && (s.arena.quota.Some? ==> s.arena.used <= s.arena.quota.value)
      && RegionsIn(s.arena, s.live)
      && (forall i, j | 0 <= i < j < |s.live| :: Disjoint(s.live[i], s.live[j]))
      && (forall k | s.arena.current < k < |s.arena.blocks| :: s.arena.blocks[k].used == 0)
  {
    CreatedIsGood(a, initialSize, quota, addr);
    RunKeepsInv(Sys(a, [], []), steps);
    var s := Exec(Sys(a, [], []), steps);
    forall i, j | 0 <= i < j < |s.live| ensures Disjoint(s.live[i], s.live[j]) {
      RegionsDisjoint(s, i, j);
    }
  }

  lemma RegionsDisjoint(s: Sys, i: nat, j: nat)
    requires SysInv(s) && i < j < |s.live|
    ensures Disjoint(s.live[i], s.live[j])
  {
    var r, q := s.live[i], s.live[j];
    assert RegionIn(s.arena, r) && RegionIn(s.arena, q) && Follows(r, q);
    if r.block < q.block {
      assert Apart(s.arena.blocks[r.block], s.arena.blocks[q.block]);
    }
  }

  /** Steps that leave the first n checkpoints standing. */
  predicate Inside(steps: seq<Step>, n: nat) {
    forall step <- steps :: !step.ResetStep? && !step.ClearStep? && (step.RestoreMark? ==> step.k >= n)
  }

  lemma {:induction false} InsideKeepsMark(s: Sys, steps: seq<Step>, n: nat)
    requires IsRun(s, steps) && n < |s.marks| && Inside(steps, n)
    ensures n < |Exec(s, steps).marks| && Exec(s, steps).marks[n] == s.marks[n]
    decreases |steps|
  {
    if steps != [] {
      assert steps[0] in steps;
      InsideKeepsMark(Do(s, steps[0]), steps[1..], n);
    }
  }

  /** Restore undoes: whatever is requested after a checkpoint, with more checkpoints and restores
      inside, restoring to it brings back the total used and exactly the regions held then. */
  lemma RestoreUndoes(s: Sys, steps: seq<Step>)
    requires SysInv(s) && IsRun(Do(s, TakeMark), steps) && Inside(steps, |s.marks|)
    ensures var t := Exec(Do(s, TakeMark), steps);
      && Enabled(t, RestoreMark(|s.marks|))
      && Do(t, RestoreMark(|s.marks|)).arena.used == s.arena.used
      && Do(t, RestoreMark(|s.marks|)).live == s.live
      && SysInv(Do(t, RestoreMark(|s.marks|)))
  {
    var k := |s.marks|;
    TakeMarkKeepsInv(s);
    RunKeepsInv(Do(s, TakeMark), steps);
    InsideKeepsMark(Do(s, TakeMark), steps, k);
    var t := Exec(Do(s, TakeMark), steps);
    assert MarkIn(t.arena, t.marks[k]);
    RestoreMarkKeepsInv(t, k);
  }
}
