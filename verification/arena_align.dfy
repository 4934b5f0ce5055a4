/** Where the pointers of plain requests lie, over every run of an arena. */
module ArenaAlignment {
  import opened Options
  import opened BitMasks
  import opened ArenaModel
  import opened ArenaSafety

  // Sizes are rounded to 16 bytes, the data of a block is not: it begins 24 bytes behind what malloc
  // gives, after the block's header.

  const HEADER_SIZE: nat := 24

  predicate UsesRounded(blocks: seq<Block>) {
    forall k | 0 <= k < |blocks| :: blocks[k].used % ALIGNMENT == 0
  }

  /** Every block is used, and every checkpoint was taken, up to a multiple of 16. */
  predicate Rounded(s: Sys) {
    UsesRounded(s.arena.blocks) && forall k | 0 <= k < |s.marks| :: s.marks[k].cp.used % ALIGNMENT == 0
  }

  lemma SumIsRounded(x: nat, y: nat)
    requires x % ALIGNMENT == 0 && y % ALIGNMENT == 0
    ensures (x + y) % ALIGNMENT == 0
  {
  }

  lemma BumpKeepsRounded(a: Arena, r: nat)
    requires Shape(a) && UsesRounded(a.blocks) && r % ALIGNMENT == 0 && a.blocks[a.current].used + r < WORD
    ensures UsesRounded(Bump(a, r).blocks)
  {
    FitsWord(a.blocks[a.current].used, r);
    SumIsRounded(a.blocks[a.current].used, r);
  }

  lemma GrowKeepsRounded(a: Arena, r: nat, addr: nat)
    requires Shape(a) && UsesRounded(a.blocks) && r % ALIGNMENT == 0
    ensures UsesRounded(Grow(a, r, addr).blocks)
  {
  }

  lemma AllocKeepsRounded(a: Arena, size: nat, granted: Option<nat>)
    requires Inv(a) && Plain(a, size, granted) && UsesRounded(a.blocks)
    ensures UsesRounded(Alloc(a, size, granted).0.blocks)
  {
    var r := RoundUp(size);
    RoundUpIsEnough(size);
    if size > 0 && !QuotaStops(a, r) {
      if Fits(a, r) {
        BumpKeepsRounded(a, r);
      } else if granted.Some? {
        GrowKeepsRounded(a, r, granted.value);
      }
    }
  }

  lemma AlignedKeepsRounded(a: Arena, size: nat, alignment: nat, granted: Option<nat>)
    requires alignment < WORD && size + Alignment(alignment) < WORD
    requires Inv(a) && Plain(a, size + Alignment(alignment), granted) && UsesRounded(a.blocks)
    ensures UsesRounded(AllocAligned(a, size, alignment, granted).0.blocks)
  {
    if size > 0 {
      FitsWord(size, Alignment(alignment));
      AllocKeepsRounded(a, size + Alignment(alignment), granted);
    }
  }

  lemma RestoreKeepsRounded(a: Arena, cp: Checkpoint)
    requires Inv(a) && cp.block < |a.blocks| && UsesRounded(a.blocks) && cp.used % ALIGNMENT == 0
    ensures UsesRounded(Restore(a, cp).blocks)
  {
  }

  lemma EmptyingKeepsRounded(s: Sys, step: Step)
    requires Enabled(s, step) && Rounded(s) && (step.ResetStep? || step.ClearStep? || step.TakeMark?)
    ensures Rounded(Do(s, step))
  {
  }

  lemma StepKeepsRounded(s: Sys, step: Step)
    requires SysInv(s) && Enabled(s, step) && Rounded(s)
    ensures Rounded(Do(s, step))
  {
    match step
    case Request(size, granted) => AllocKeepsRounded(s.arena, size, granted);
    case RequestAligned(size, alignment, granted) =>
      AlignedKeepsRounded(s.arena, size, alignment, granted);
    case RestoreMark(k) => RestoreKeepsRounded(s.arena, s.marks[k].cp);
    case _ => EmptyingKeepsRounded(s, step);
  }

  lemma {:induction false} RunKeepsRounded(s: Sys, steps: seq<Step>)
    requires SysInv(s) && IsRun(s, steps) && Rounded(s)
    ensures Rounded(Exec(s, steps)) && SysInv(Exec(s, steps))
    decreases |steps|
  {
    if steps != [] {
      StepKeepsRounded(s, steps[0]);
      StepKeepsInv(s, steps[0]);
      RunKeepsRounded(Do(s, steps[0]), steps[1..]);
    }
  }

  lemma OffsetIsRounded(addr: nat, used: nat)
    requires used % ALIGNMENT == 0
    ensures (addr + used) % ALIGNMENT == addr % ALIGNMENT
  {
  }

  /** The answer lies in the block that is current afterwards, a multiple of 16 behind its data. */
  lemma AnswerFollowsItsBlock(a: Arena, size: nat, granted: Option<nat>)
    requires Inv(a) && Plain(a, size, granted) && UsesRounded(a.blocks)
    ensures var (b, p) := Alloc(a, size, granted);
      p.Some? ==> b.current < |b.blocks| && p.value % ALIGNMENT == b.blocks[b.current].addr % ALIGNMENT
  {
    OffsetIsRounded(a.blocks[a.current].addr, a.blocks[a.current].used);
  }

  lemma ReachedIsRounded(a: Arena, initialSize: nat, quota: nat, addr: nat, steps: seq<Step>)
    requires Created(a, initialSize, quota, addr) && IsRun(Sys(a, [], []), steps)
    ensures Inv(Exec(Sys(a, [], []), steps).arena) && UsesRounded(Exec(Sys(a, [], []), steps).arena.blocks)
  {
    CreatedIsGood(a, initialSize, quota, addr);
    RunKeepsRounded(Sys(a, [], []), steps);
  }

  /** In every run the answer to a plain request is congruent modulo 16 to the address of its block's data:
      it is a multiple of 16 exactly if the data begins at one. */
  lemma PlainAnswersFollowTheirBlock(a: Arena, initialSize: nat, quota: nat, addr: nat, steps: seq<Step>,
                                     size: nat, granted: Option<nat>)
    requires Created(a, initialSize, quota, addr) && IsRun(Sys(a, [], []), steps)
    requires Plain(Exec(Sys(a, [], []), steps).arena, size, granted)
    ensures var (b, p) := Alloc(Exec(Sys(a, [], []), steps).arena, size, granted);
      p.Some? ==> b.current < |b.blocks| && p.value % ALIGNMENT == b.blocks[b.current].addr % ALIGNMENT
  {
    ReachedIsRounded(a, initialSize, quota, addr, steps);
    AnswerFollowsItsBlock(Exec(Sys(a, [], []), steps).arena, size, granted);
  }

  // ----- With the header in front -----------------------------------------------------

  /** Block data behind a header, at an address that malloc aligned to 16. */
  predicate BehindHeader(addr: nat) {
    addr >= HEADER_SIZE && (addr - HEADER_SIZE) % ALIGNMENT == 0
  }

  predicate BlocksBehindHeader(a: Arena) {
    forall k | 0 <= k < |a.blocks| :: BehindHeader(a.blocks[k].addr)
  }

  predicate GrantsBehindHeader(granted: Option<nat>) {
    granted.Some? ==> BehindHeader(granted.value)
  }

  predicate StepBehindHeader(step: Step) {
    match step
    case Request(_, granted) => GrantsBehindHeader(granted)
    case RequestAligned(_, _, granted) => GrantsBehindHeader(granted)
    case _ => true
  }

  lemma AllocKeepsBehindHeader(a: Arena, size: nat, granted: Option<nat>)
    requires Shape(a) && size < WORD && BlocksBehindHeader(a) && GrantsBehindHeader(granted)
    ensures BlocksBehindHeader(Alloc(a, size, granted).0)
  {
  }

  lemma StepKeepsBehindHeader(s: Sys, step: Step)
    requires SysInv(s) && Enabled(s, step) && BlocksBehindHeader(s.arena) && StepBehindHeader(step)
    ensures BlocksBehindHeader(Do(s, step).arena)
  {
    match step
    case Request(size, granted) => AllocKeepsBehindHeader(s.arena, size, granted);
    case RequestAligned(size, alignment, granted) =>
      if size > 0 {
        AllocKeepsBehindHeader(s.arena, Add64(size, Alignment(alignment)), granted);
      }
    case ResetStep =>
    case ClearStep =>
    case TakeMark =>
    case RestoreMark(k) =>
  }

  lemma {:induction false} RunKeepsBehindHeader(s: Sys, steps: seq<Step>)
    requires SysInv(s) && IsRun(s, steps) && BlocksBehindHeader(s.arena)
    requires forall i | 0 <= i < |steps| :: StepBehindHeader(steps[i])
    ensures BlocksBehindHeader(Exec(s, steps).arena)
    decreases |steps|
  {
    if steps != [] {
      StepKeepsBehindHeader(s, steps[0]);
      StepKeepsInv(s, steps[0]);
      RunKeepsBehindHeader(Do(s, steps[0]), steps[1..]);
    }
  }

  lemma BehindHeaderIsEight(addr: nat)
    requires BehindHeader(addr)
    ensures addr % ALIGNMENT == 8
  {
  }

  /** So when malloc aligns to 16, no plain request is ever answered with a multiple of 16: every answer is
      8 more than one. */
  lemma PlainAnswersAreOffByEight(a: Arena, initialSize: nat, quota: nat, addr: nat, steps: seq<Step>,
                                  size: nat, granted: Option<nat>)
    requires Created(a, initialSize, quota, addr) && IsRun(Sys(a, [], []), steps)
    requires BehindHeader(addr) && (forall i | 0 <= i < |steps| :: StepBehindHeader(steps[i]))
    requires Plain(Exec(Sys(a, [], []), steps).arena, size, granted) && GrantsBehindHeader(granted)
    ensures var p := Alloc(Exec(Sys(a, [], []), steps).arena, size, granted).1;
      p.Some? ==> p.value % ALIGNMENT == 8
  {
    CreatedIsGood(a, initialSize, quota, addr);
    RunKeepsBehindHeader(Sys(a, [], []), steps);
    PlainAnswersFollowTheirBlock(a, initialSize, quota, addr, steps, size, granted);
    var b := Alloc(Exec(Sys(a, [], []), steps).arena, size, granted).0;
    AllocKeepsBehindHeader(Exec(Sys(a, [], []), steps).arena, size, granted);
    if b.current < |b.blocks| {
      BehindHeaderIsEight(b.blocks[b.current].addr);
    }
  }
}
