/** When an arena answers, and what its counters count over every run. */
module ArenaAccounts {
  import opened Options
  import opened BitMasks
  import opened Sequences
  import opened ArenaModel
  import opened ArenaSafety

  function Greater(x: nat, y: nat): nat { if x > y then x else y }

  /** A new arena: one empty block of the size asked for, 64 KiB if none is named and 16 MiB at most, and no
      quota if none is named. */
  lemma CreationIsExact(initialSize: nat, quota: nat, addr: nat)
    ensures var a := Create(initialSize, quota, Some(addr));
      && a.Some? && |a.value.blocks| == 1 && a.value.blocks[0].addr == addr && a.value.blocks[0].used == 0
      && 0 < a.value.unit <= 0x100_0000 && a.value.blocks[0].size == a.value.unit == a.value.reserved
      && (initialSize == 0 ==> a.value.unit == 0x1_0000)
      && (0 < initialSize <= 0x100_0000 ==> a.value.unit == initialSize)
      && (a.value.quota.None? <==> quota == 0) && (quota > 0 ==> a.value.quota == Some(quota))
    ensures Create(initialSize, quota, None).None?
  {
  }

  /** A request is refused exactly if it is empty, would pass the quota, or neither the block nor malloc has
      room for it; refused, it changes nothing. Otherwise it takes the rounded size, from the current block
      if that has room, else from a new one of the usual size, or twice its own if it is larger. */
  lemma AnswerIsExact(a: Arena, size: nat, granted: Option<nat>)
    requires Inv(a) && Plain(a, size, granted)
    ensures var ((b, p), n) := (Alloc(a, size, granted), RoundUp(size));
      var room := a.blocks[a.current].used + n <= a.blocks[a.current].size;
      && (p.None? <==> size == 0 || (a.quota.Some? && a.used + n > a.quota.value) || (!room && granted.None?))
      && (p.None? ==> b == a)
      && (p.Some? ==> b.used == a.used + n && b.allocs == a.allocs + 1 && b.peak == Greater(a.peak, b.used))
      && (p.Some? && room ==>
            && p.value == a.blocks[a.current].addr + a.blocks[a.current].used
            && b.blocks == a.blocks[a.current := a.blocks[a.current].(used := a.blocks[a.current].used + n)]
            && b.current == a.current && b.reserved == a.reserved && b.count == a.count)
      && (p.Some? && !room ==>
            && p == granted && b.current == a.current + 1
            && b.blocks == a.blocks[..a.current + 1] + [Block(p.value, if n > a.unit then 2 * n else a.unit, n)]
            && b.reserved == a.reserved + b.blocks[b.current].size && b.count == a.count + 1)
  {
    var n := RoundUp(size);
    RoundUpIsEnough(size);
    UsedIsSmall(a);
    if size > 0 && n < WORD / 2 {
      SmallSumsFit(a, n, granted);
    } else if size > 0 && !QuotaStops(a, n) {
      FitsWord(a.blocks[a.current].used, n);
    }
  }

  lemma UsedIsSmall(a: Arena)
    requires Inv(a)
    ensures a.current < |a.blocks| && a.blocks[a.current].used <= a.blocks[a.current].size <= LIMIT
    ensures a.used <= LIMIT && a.unit <= LIMIT
  {
    UsedWithinSizes(a.blocks);
    assert a.blocks[a.current].size <= LIMIT;
  }

  lemma SmallSumsFit(a: Arena, n: nat, granted: Option<nat>)
    requires Inv(a) && n < WORD / 2 && MayGrant(a, GrowthSize(a, n), granted)
    ensures a.current < |a.blocks|
    ensures Add64(a.used, n) == a.used + n && Add64(a.blocks[a.current].used, n) == a.blocks[a.current].used + n
    ensures GrowthSize(a, n) == if n > a.unit then 2 * n else a.unit
    ensures granted.Some? ==> Add64(a.reserved, GrowthSize(a, n)) == a.reserved + GrowthSize(a, n)
  {
    UsedIsSmall(a);
    FitsWord(a.used, n);
    FitsWord(a.blocks[a.current].used, n);
    FitsWord(n, n);
    if granted.Some? {
      FitsWord(a.reserved, GrowthSize(a, n));
    }
  }

  // ----- Over runs ----------------------------------------------------------------------

  /** The request behind a step, aligned ones padded. */
  function Asked(step: Step): nat {
    match step
    case Request(size, _) => size
    case RequestAligned(size, alignment, _) => if size == 0 then 0 else size + Alignment(alignment)
    case _ => 0
  }

  function GrantedBy(step: Step): Option<nat> {
    match step
    case Request(_, granted) => granted
    case RequestAligned(_, _, granted) => granted
    case _ => None
  }

  predicate Asks(step: Step) {
    step.Request? || step.RequestAligned?
  }

  /** A step that asks does to the arena what the plain request does. */
  lemma AskingIsAlloc(s: Sys, step: Step)
    requires SysInv(s) && Enabled(s, step) && Asks(step)
    ensures Shape(s.arena) && Asked(step) < WORD
    ensures Do(s, step).arena == Alloc(s.arena, Asked(step), GrantedBy(step)).0
    ensures Asked(step) == 0 || Plain(s.arena, Asked(step), GrantedBy(step))
  {
    InvShape(s.arena);
    if step.RequestAligned? && step.size > 0 {
      FitsWord(step.size, Alignment(step.alignment));
    }
  }

  /** The step asks for memory and is answered, as far as the arena goes. */
  predicate Answers(s: Sys, step: Step)
    requires SysInv(s) && Enabled(s, step)
  {
    if Asks(step) then
      AskingIsAlloc(s, step);
      Alloc(s.arena, Asked(step), GrantedBy(step)).1.Some?
    else false
  }

  /** What an answered request does to the counters, and what every other step does. */
  lemma StepCounts(s: Sys, step: Step)
    requires SysInv(s) && Enabled(s, step)
    ensures var (a, b) := (s.arena, Do(s, step).arena);
      && (Answers(s, step) ==> b.allocs == a.allocs + 1 && b.peak == Greater(a.peak, b.used))
      && (!Answers(s, step) ==> b.allocs == (if step.ResetStep? then 0 else a.allocs) && b.peak == a.peak)
      && (step.RestoreMark? ==> b.used == s.marks[step.k].total)
      && (step.ResetStep? || step.ClearStep? ==> b.used == 0)
      && (step.TakeMark? || (Asks(step) && !Answers(s, step)) ==> b.used == a.used)
  {
    if Asks(step) {
      AskingIsAlloc(s, step);
      if Asked(step) > 0 {
        AnswerIsExact(s.arena, Asked(step), GrantedBy(step));
      }
    } else if step.RestoreMark? {
      RestoreMarkKeepsInv(s, step.k);
    }
  }

  /** How many requests were answered since the last reset. */
  function Answered(s: Sys, steps: seq<Step>, n: nat): nat
    requires SysInv(s) && IsRun(s, steps)
    decreases |steps|
  {
    if steps == [] then n
    else
      StepKeepsInv(s, steps[0]);
      Answered(Do(s, steps[0]), steps[1..], AnsweredNow(s, steps[0], n))
  }

  function AnsweredNow(s: Sys, step: Step, n: nat): nat
    requires SysInv(s) && Enabled(s, step)
  {
    if step.ResetStep? then 0 else if Answers(s, step) then n + 1 else n
  }

  lemma StepAnswers(s: Sys, step: Step)
    requires SysInv(s) && Enabled(s, step)
    ensures Do(s, step).arena.allocs == AnsweredNow(s, step, s.arena.allocs)
  {
    StepCounts(s, step);
  }

  /** The most that was ever in use. */
  function Highest(s: Sys, steps: seq<Step>): nat
    requires IsRun(s, steps)
    decreases |steps|
  {
    if steps == [] then s.arena.used else Greater(s.arena.used, Highest(Do(s, steps[0]), steps[1..]))
  }

  predicate Peaked(s: Sys) {
    s.arena.used <= s.arena.peak && forall i | 0 <= i < |s.marks| :: s.marks[i].total <= s.arena.peak
  }

  lemma StepKeepsPeaked(s: Sys, step: Step)
    requires SysInv(s) && Enabled(s, step) && Peaked(s)
    ensures Peaked(Do(s, step)) && Do(s, step).arena.peak == Greater(s.arena.peak, Do(s, step).arena.used)
  {
    StepCounts(s, step);
  }

  lemma {:induction false} RunAnswers(s: Sys, steps: seq<Step>, n: nat)
    requires SysInv(s) && IsRun(s, steps) && n == s.arena.allocs
    ensures Exec(s, steps).arena.allocs == Answered(s, steps, n)
    decreases |steps|
  {
    if steps != [] {
      StepKeepsInv(s, steps[0]);
      StepAnswers(s, steps[0]);
      RunAnswers(Do(s, steps[0]), steps[1..], AnsweredNow(s, steps[0], n));
    }
  }

  lemma {:induction false} HighestIsLeast(s: Sys, steps: seq<Step>)
    requires IsRun(s, steps)
    ensures s.arena.used <= Highest(s, steps)
  {
  }

  lemma PeakGoesOn(before: nat, used: nat, peak: nat, later: nat, last: nat)
    requires used <= before && peak == Greater(before, later) && last >= later
    ensures Greater(peak, last) == Greater(before, Greater(used, last))
  {
  }

  lemma {:induction false} RunPeaks(s: Sys, steps: seq<Step>)
    requires SysInv(s) && IsRun(s, steps) && Peaked(s)
    ensures Exec(s, steps).arena.peak == Greater(s.arena.peak, Highest(s, steps))
    decreases |steps|
  {
    if steps != [] {
      StepKeepsInv(s, steps[0]);
      StepKeepsPeaked(s, steps[0]);
      var t := Do(s, steps[0]);
      RunPeaks(t, steps[1..]);
      HighestIsLeast(t, steps[1..]);
      PeakGoesOn(s.arena.peak, s.arena.used, t.arena.peak, t.arena.used, Highest(t, steps[1..]));
    }
  }

  /** In every run the peak is the most that was ever in use, and the allocation count is the number of
      requests answered since the last reset. */
  lemma CountersAreTrue(a: Arena, initialSize: nat, quota: nat, addr: nat, steps: seq<Step>)
    requires Created(a, initialSize, quota, addr) && IsRun(Sys(a, [], []), steps)
    ensures SysInv(Sys(a, [], []))
    ensures var (s, t) := (Sys(a, [], []), Exec(Sys(a, [], []), steps));
      t.arena.peak == Highest(s, steps) && t.arena.allocs == Answered(s, steps, 0)
  {
    CreatedIsGood(a, initialSize, quota, addr);
    RunAnswers(Sys(a, [], []), steps, 0);
    RunPeaks(Sys(a, [], []), steps);
  }

  // ----- Blocks and bytes of the chain ----------------------------------------------------

  /** Blocks that growth drops from the chain, and their sizes. */
  function Dropped(a: Arena, b: Arena): seq<Block>
    requires a.current < |a.blocks|
  {
    if b.current > a.current then a.blocks[a.current + 1..] else []
  }

  /** Count and reserved bytes, less what the chain holds. */
  function Unlinked(a: Arena): (int, int) {
    (a.count - |a.blocks|, a.reserved - SumSizes(a.blocks))
  }

  /** From a to b these blocks went missing. */
  predicate Unlinks(a: Arena, b: Arena, lost: seq<Block>) {
    Unlinked(b) == (Unlinked(a).0 + |lost|, Unlinked(a).1 + SumSizes(lost))
  }

  lemma UnlinksCompose(a: Arena, b: Arena, c: Arena, x: seq<Block>, y: seq<Block>)
    requires Unlinks(a, b, x) && Unlinks(b, c, y)
    ensures Unlinks(a, c, x + y)
  {
    SumOfSplit(x + y, SizeOf(), |x|);
    assert (x + y)[..|x|] == x && (x + y)[|x|..] == y;
  }

  lemma SameSizes(a: seq<Block>, k: nat, used: nat)
    requires k < |a|
    ensures SumSizes(a[k := a[k].(used := used)]) == SumSizes(a)
  {
    SumOfUpdate(a, SizeOf(), k, a[k].(used := used));
  }

  lemma GrowthUnlinks(a: Arena, b: Arena, block: Block)
    requires a.current < |a.blocks| && b.current == a.current + 1
    requires b.blocks == a.blocks[..a.current + 1] + [block]
    requires b.reserved == a.reserved + block.size && b.count == a.count + 1
    ensures Unlinks(a, b, Dropped(a, b))
  {
    SumOfSplit(a.blocks, SizeOf(), a.current + 1);
    SumOfAppend(a.blocks[..a.current + 1], SizeOf(), block);
  }

  lemma AllocUnlinks(a: Arena, size: nat, granted: Option<nat>)
    requires Inv(a) && Plain(a, size, granted)
    ensures var b := Alloc(a, size, granted).0; Unlinks(a, b, Dropped(a, b))
  {
    AnswerIsExact(a, size, granted);
    var (b, p) := Alloc(a, size, granted);
    if p.Some? {
      if b.current == a.current {
        SameSizes(a.blocks, a.current, b.blocks[a.current].used);
      } else {
        GrowthUnlinks(a, b, b.blocks[b.current]);
      }
    }
  }

  lemma RestoreUnlinksNothing(a: Arena, cp: Checkpoint)
    requires Inv(a) && cp.block < |a.blocks|
    ensures Unlinked(Restore(a, cp)) == Unlinked(a)
  {
    SumOfPrefix(a.blocks, SizeOf(), cp.block + 1);
    SameSizes(Freed(a, cp.block + 1).blocks, cp.block, cp.used);
  }

  lemma ClearUnlinksNothing(a: Arena)
    requires Inv(a)
    ensures Unlinked(Clear(a)) == Unlinked(a)
  {
    SumOfPrefix(a.blocks, SizeOf(), 1);
    assert Clear(a).blocks == a.blocks[..1][0 := a.blocks[0].(used := 0)];
    SameSizes(a.blocks[..1], 0, 0);
  }

  lemma OthersUnlinkNothing(s: Sys, step: Step)
    requires SysInv(s) && Enabled(s, step) && !Asks(step)
    ensures Unlinked(Do(s, step).arena) == Unlinked(s.arena) && Dropped(s.arena, Do(s, step).arena) == []
  {
    match step
    case ResetStep => EmptiedSums(s.arena.blocks);
    case ClearStep => ClearUnlinksNothing(s.arena);
    case RestoreMark(k) =>
      assert MarkIn(s.arena, s.marks[k]);
      RestoreUnlinksNothing(s.arena, s.marks[k].cp);
    case _ =>
  }

  lemma StepUnlinks(s: Sys, step: Step)
    requires SysInv(s) && Enabled(s, step)
    ensures Unlinks(s.arena, Do(s, step).arena, Dropped(s.arena, Do(s, step).arena))
  {
    if Asks(step) {
      AskingIsAlloc(s, step);
      if Asked(step) > 0 {
        AllocUnlinks(s.arena, Asked(step), GrantedBy(step));
      }
    } else {
      OthersUnlinkNothing(s, step);
    }
  }

  /** All blocks that a run drops from the chain. */
  function AllDropped(s: Sys, steps: seq<Step>): seq<Block>
    requires SysInv(s) && IsRun(s, steps)
    decreases |steps|
  {
    if steps == [] then []
    else
      StepKeepsInv(s, steps[0]);
      Dropped(s.arena, Do(s, steps[0]).arena) + AllDropped(Do(s, steps[0]), steps[1..])
  }

  lemma {:induction false} RunUnlinks(s: Sys, steps: seq<Step>)
    requires SysInv(s) && IsRun(s, steps)
    ensures Unlinks(s.arena, Exec(s, steps).arena, AllDropped(s, steps))
    decreases |steps|
  {
    if steps != [] {
      StepKeepsInv(s, steps[0]);
      StepUnlinks(s, steps[0]);
      var t := Do(s, steps[0]);
      RunUnlinks(t, steps[1..]);
      UnlinksCompose(s.arena, t.arena, Exec(t, steps[1..]).arena, Dropped(s.arena, t.arena), AllDropped(t, steps[1..]));
    }
  }

  /** In every run the block count and the reserved bytes are those of the chain and of the blocks that growth
      has dropped from it, which nobody frees. */
  lemma AccountsAreExact(a: Arena, initialSize: nat, quota: nat, addr: nat, steps: seq<Step>)
    requires Created(a, initialSize, quota, addr) && IsRun(Sys(a, [], []), steps)
    ensures SysInv(Sys(a, [], []))
    ensures var (b, lost) := (Exec(Sys(a, [], []), steps).arena, AllDropped(Sys(a, [], []), steps));
      b.count == |b.blocks| + |lost| && b.reserved == SumSizes(b.blocks) + SumSizes(lost)
  {
    CreatedIsGood(a, initialSize, quota, addr);
    RunUnlinks(Sys(a, [], []), steps);
    assert a.blocks == [a.blocks[0]] && a.blocks[..0] == [];
    assert SumSizes(a.blocks) == a.reserved;
  }
}
