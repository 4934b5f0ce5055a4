/** What the counters of block pools count over every run. */
module BlockPoolCounts {
  import opened Options
  import opened BitMasks
  import opened Sequences
  import opened BlockPoolModel
  import opened BlockPoolSafety

  function FreesOf(): Pool -> nat {
    (p: Pool) => p.frees
  }

  /** Frees of all pools of the chain. */
  function AllFrees(chain: seq<Pool>): nat {
    Sum(chain, FreesOf())
  }

  function Greater(x: nat, y: nat): nat { if x > y then x else y }

  lemma {:induction false} SameFrees(a: seq<Pool>, b: seq<Pool>)
    requires |a| == |b| && forall k | 0 <= k < |a| :: a[k].frees == b[k].frees
    ensures AllFrees(a) == AllFrees(b)
  {
    if a != [] {
      SameFrees(a[..|a| - 1], b[..|b| - 1]);
    }
  }

  /** Root counters: allocations and peak. */
  predicate RootIs(ps: Pools, allocs: nat, peak: nat) {
    ps.chain != [] && ps.chain[0].allocs == allocs && ps.chain[0].peak == peak
  }

  lemma TakeCounts(ps: Pools)
    requires ps.chain != [] && FirstFree(ps.chain, 0) < |ps.chain| && ps.chain[0].used <= ps.chain[0].peak
    ensures var qs := Take(ps).0;
      && |qs.chain| == |ps.chain| && AllFrees(qs.chain) == AllFrees(ps.chain)
      && RootIs(qs, ps.chain[0].allocs + 1, Greater(ps.chain[0].peak, qs.chain[0].used))
  {
    SameFrees(Take(ps).0.chain, ps.chain);
  }

  lemma ExpandedCounts(ps: Pools, memory: nat)
    requires ps.chain != [] && ps.chain[0].blockSize < WORD
    ensures var qs := Expanded(ps, memory);
      && qs.chain != [] && qs.chain[0] == ps.chain[0] && AllFrees(qs.chain) == AllFrees(ps.chain)
  {
    var (root, qs) := (ps.chain[0], Expanded(ps, memory));
    SumOfSplit(ps.chain, FreesOf(), 1);
    SumOfSplit(qs.chain, FreesOf(), 2);
    assert ps.chain[..1] == [root] && qs.chain[..2] == [root] + [qs.chain[1]] && qs.chain[2..] == ps.chain[1..];
    SumOfAppend([root], FreesOf(), qs.chain[1]);
  }

  lemma AllocCounts(ps: Pools, books: seq<Book>, granted: Option<nat>)
    requires Inv(ps, books) && ps.chain[0].blockSize < WORD && MayGrant(ps, ps.chain[0].total, granted)
    requires ps.chain[0].used <= ps.chain[0].peak
    ensures var (qs, p) := Alloc(ps, granted);
      && qs.chain != [] && AllFrees(qs.chain) == AllFrees(ps.chain)
      && RootIs(qs, ps.chain[0].allocs + (if p.Some? then 1 else 0), Greater(ps.chain[0].peak, qs.chain[0].used))
  {
    if FirstFree(ps.chain, 0) < |ps.chain| {
      TakeCounts(ps);
    } else if ps.chain[0].canExpand && granted.Some? {
      ExpandedCounts(ps, granted.value);
      GrowsAtMostOnce(ps, books, granted.value);
      TakeCounts(Expanded(ps, granted.value));
    }
  }

  lemma FreeCounts(ps: Pools, books: seq<Book>, i: nat, a: nat)
    requires Inv(ps, books) && i < |books| && a in books[i].out
    ensures var qs := Free(ps, a);
      && qs.chain != [] && AllFrees(qs.chain) == AllFrees(ps.chain) + 1
      && RootIs(qs, ps.chain[0].allocs, ps.chain[0].peak) && qs.chain[0].used <= ps.chain[0].used
  {
    assert Kept(ps.words, ps.chain[i], books[i]);
    OwnerOfBlock(ps, books, i, a);
    assert ps.chain[i].used > 0;
    FreeOfOwner(ps, i, a);
    SumOfUpdate(ps.chain, FreesOf(), i, Pushed(ps.chain[i], a));
  }

  lemma ResetCounts(ps: Pools, books: seq<Book>)
    requires Inv(ps, books)
    ensures var qs := ResetFrom(ps, 0);
      && qs.chain != [] && AllFrees(qs.chain) == AllFrees(ps.chain)
      && RootIs(qs, ps.chain[0].allocs, ps.chain[0].peak) && qs.chain[0].used == 0
  {
    ResetFromKeepsInv(ps, books, 0);
    var qs := ResetFrom(ps, 0);
    SameFrees(qs.chain, ps.chain);
    assert Kept(qs.words, qs.chain[0], ResetBooks(ps.chain, books, 0)[0]);
  }

  // ----- Over runs ----------------------------------------------------------------------

  predicate Answered(s: Sys, step: Step)
    requires Enabled(s, step)
  {
    step.AllocStep? && Alloc(s.pools, step.granted).1.Some?
  }

  /** What one step does to the counters. */
  lemma StepCounts(s: Sys, step: Step)
    requires Inv(s.pools, s.books) && Enabled(s, step) && s.pools.chain[0].used <= s.pools.chain[0].peak
    ensures var (root, qs) := (s.pools.chain[0], Do(s, step).pools);
      && qs.chain != []
      && RootIs(qs, root.allocs + (if Answered(s, step) then 1 else 0), Greater(root.peak, qs.chain[0].used))
      && AllFrees(qs.chain) == AllFrees(s.pools.chain) + if step.FreeStep? then 1 else 0
  {
    match step
    case AllocStep(granted) => AllocCounts(s.pools, s.books, granted);
    case FreeStep(i, a) => FreeCounts(s.pools, s.books, i, a);
    case ResetStep => ResetCounts(s.pools, s.books);
    case _ =>
  }

  function Allocs(s: Sys, steps: seq<Step>): nat
    requires IsRun(s, steps)
    decreases |steps|
  {
    if steps == [] then 0 else (if Answered(s, steps[0]) then 1 else 0) + Allocs(Do(s, steps[0]), steps[1..])
  }

  function Frees(steps: seq<Step>): nat {
    if steps == [] then 0 else (if steps[0].FreeStep? then 1 else 0) + Frees(steps[1..])
  }

  /** The most blocks of the root pool that were ever out at once. */
  function Highest(s: Sys, steps: seq<Step>): nat
    requires IsRun(s, steps)
    decreases |steps|
  {
    var now := if s.pools.chain == [] then 0 else s.pools.chain[0].used;
    if steps == [] then now else Greater(now, Highest(Do(s, steps[0]), steps[1..]))
  }

  lemma {:induction false} RunCounts(s: Sys, steps: seq<Step>)
    requires Inv(s.pools, s.books) && IsRun(s, steps) && s.pools.chain[0].used <= s.pools.chain[0].peak
    ensures var (root, t) := (s.pools.chain[0], Exec(s, steps).pools);
      && RootIs(t, root.allocs + Allocs(s, steps), Greater(root.peak, Highest(s, steps)))
      && AllFrees(t.chain) == AllFrees(s.pools.chain) + Frees(steps)
    decreases |steps|
  {
    if steps != [] {
      StepKeepsInv(s, steps[0]);
      StepCounts(s, steps[0]);
      HighestFrom(Do(s, steps[0]), steps[1..]);
      RunCounts(Do(s, steps[0]), steps[1..]);
    }
  }

  lemma HighestFrom(s: Sys, steps: seq<Step>)
    requires IsRun(s, steps) && s.pools.chain != []
    ensures s.pools.chain[0].used <= Highest(s, steps)
  {
  }

  /** In every run from creation: the root counts the allocations answered, the pools together the blocks given
      back, and the root's peak is the most of its own blocks that were ever out. */
  lemma CountersAreTrue(ps: Pools, asked: nat, count: nat, addr: nat, words: Words, steps: seq<Step>)
    requires asked < WORD && Created(ps, asked, count, addr, words) && IsRun(Sys(ps, [FreshBook(ps.chain[0])]), steps)
    ensures var (s, t) := (Sys(ps, [FreshBook(ps.chain[0])]), Exec(Sys(ps, [FreshBook(ps.chain[0])]), steps).pools);
      RootIs(t, Allocs(s, steps), Highest(s, steps)) && AllFrees(t.chain) == Frees(steps)
  {
    CreatedIsKept(ps, asked, count, addr, words);
    var s := Sys(ps, [FreshBook(ps.chain[0])]);
    HighestFrom(s, steps);
    RunCounts(s, steps);
    SumOfAppend([], FreesOf(), ps.chain[0]);
    assert ps.chain == [] + [ps.chain[0]];
  }

  // ----- Creation and growth ----------------------------------------------------------

  /** A new pool: blocks of the size asked for, of 8 bytes at least, rounded up to 16; as many as asked for, 256 if
      none are; one pool, which may grow. */
  lemma CreationIsExact(asked: nat, count: nat, addr: nat, words: Words)
    requires asked <= WORD - 16
    ensures var ps := Create(asked, count, Some(addr), words);
      && ps.Some? && |ps.value.chain| == 1 && ps.value.chain[0].memory == addr && ps.value.chain[0].canExpand
      && var p := ps.value.chain[0];
         && p.blockSize % 16 == 0 && asked <= p.blockSize && 8 <= p.blockSize < Greater(asked, 8) + 16
         && p.blockCount == (if count == 0 then 256 else count) && p.used == 0
    ensures Create(asked, count, None, words).None?
  {
    RoundUpIsEnough(Greater(asked, 8));
  }

  /** The first pool may grow, its expansions may not. */
  predicate RootGrows(ps: Pools) {
    ps.chain != [] && forall i | 0 <= i < |ps.chain| :: ps.chain[i].canExpand <==> i == 0
  }

  lemma AllocKeepsRootGrows(ps: Pools, granted: Option<nat>)
    requires RootGrows(ps) && ps.chain[0].blockSize < WORD
    ensures RootGrows(Alloc(ps, granted).0)
  {
    if FirstFree(ps.chain, 0) == |ps.chain| && granted.Some? {
      assert RootGrows(Expanded(ps, granted.value));
    }
  }

  lemma FreeKeepsRootGrows(ps: Pools, a: nat)
    requires RootGrows(ps)
    ensures RootGrows(Free(ps, a))
  {
  }

  lemma ResetKeepsRootGrows(ps: Pools, books: seq<Book>)
    requires Inv(ps, books) && RootGrows(ps)
    ensures RootGrows(ResetFrom(ps, 0))
  {
    ResetFromKeepsInv(ps, books, 0);
  }

  lemma StepKeepsRootGrows(s: Sys, step: Step)
    requires Inv(s.pools, s.books) && Enabled(s, step) && RootGrows(s.pools)
    ensures RootGrows(Do(s, step).pools)
  {
    match step
    case AllocStep(granted) => AllocKeepsRootGrows(s.pools, granted);
    case FreeStep(_, a) => FreeKeepsRootGrows(s.pools, a);
    case FreeForeign(a) => FreeKeepsRootGrows(s.pools, a);
    case Scribble(_, _, _) =>
    case ResetStep => ResetKeepsRootGrows(s.pools, s.books);
  }

  /** In every run only the root pool can grow. */
  lemma {:induction false} OnlyTheRootGrows(s: Sys, steps: seq<Step>)
    requires Inv(s.pools, s.books) && IsRun(s, steps) && RootGrows(s.pools)
    ensures RootGrows(Exec(s, steps).pools)
    decreases |steps|
  {
    if steps != [] {
      StepKeepsInv(s, steps[0]);
      StepKeepsRootGrows(s, steps[0]);
      OnlyTheRootGrows(Do(s, steps[0]), steps[1..]);
    }
  }
}
