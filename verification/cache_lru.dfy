/** Which page the cache gives up: the one asked for longest ago. */
module CacheLru {
  import opened Bytes
  import opened Options
  import opened PagerModel
  import opened BufferPoolModel
  import opened CacheTransparency

  /** After which of the gets of a run page q was last asked for, counting from `clock` and `was` before it. */
  function LastGet(steps: seq<Step>, q: int, clock: int, was: int): int
    decreases |steps|
  {
    if steps == [] then was
    else LastGet(steps[1..], q, clock + (if steps[0].Get? then 1 else 0), Now(steps[0], q, clock, was))
  }

  function Now(step: Step, q: int, clock: int, was: int): int {
    if step.Get? && step.id == q then clock + 1 else was
  }

  /** Every cached page was used last when `last` says. */
  ghost predicate UsedAsOf(p: Pool, last: int -> int)
    requires Shape(p)
  {
    forall k | 0 <= k < POOL_SIZE && p.ids[k] != EMPTY :: p.used[k] == last(p.ids[k])
  }

  /** `next` is `last` after one more step. */
  ghost predicate GoesOn(step: Step, clock: int, last: int -> int, next: int -> int) {
    forall q :: next(q) == Now(step, q, clock, last(q))
  }

  lemma GetIsUse(p: Pool, id: nat, junk: seq<byte>, last: int -> int, next: int -> int)
    requires Shape(p) && Filled(p) && id < EMPTY && IsPage(junk) && NoPageTwice(p) && UsedAsOf(p, last)
    requires GoesOn(Get(id, junk), p.clock, last, next)
    ensures UsedAsOf(GetPage(p, id, junk).0, next)
  {
    var k := SlotOf(p.ids, id);
    if k < POOL_SIZE {
      assert forall i | 0 <= i < POOL_SIZE && i != k :: p.ids[i] != id;
    }
  }

  lemma StepIsUse(s: Sys, step: Step, last: int -> int, next: int -> int)
    requires Inv(s) && Enabled(s, step) && UsedAsOf(s.pool, last) && GoesOn(step, s.pool.clock, last, next)
    ensures Shape(Do(s, step).pool) && UsedAsOf(Do(s, step).pool, next)
    ensures Do(s, step).pool.clock == s.pool.clock + if step.Get? then 1 else 0
  {
    match step
    case Get(id, junk) => GetIsUse(s.pool, id, junk, last, next);
    case FlushAll => FlushKeepsClock(s.pool, POOL_SIZE);
    case _ =>
  }

  /** Every cached page was used last when the run says. */
  ghost predicate UsedAfter(p: Pool, steps: seq<Step>, clock: int, last: int -> int)
    requires Shape(p)
  {
    forall k | 0 <= k < POOL_SIZE && p.ids[k] != EMPTY :: p.used[k] == LastGet(steps, p.ids[k], clock, last(p.ids[k]))
  }

  lemma UsedOneMore(p: Pool, steps: seq<Step>, clock: int, last: int -> int, next: int -> int)
    requires Shape(p) && steps != [] && GoesOn(steps[0], clock, last, next)
    requires UsedAfter(p, steps[1..], clock + (if steps[0].Get? then 1 else 0), next)
    ensures UsedAfter(p, steps, clock, last)
  {
  }

  lemma {:induction false} RunIsUse(s: Sys, steps: seq<Step>, last: int -> int)
    requires Inv(s) && IsRun(s, steps) && UsedAsOf(s.pool, last)
    ensures Shape(Exec(s, steps).pool) && UsedAfter(Exec(s, steps).pool, steps, s.pool.clock, last)
    decreases |steps|
  {
    if steps != [] {
      var next := q => Now(steps[0], q, s.pool.clock, last(q));
      StepIsUse(s, steps[0], last, next);
      StepKeepsInv(s, steps[0]);
      RunIsUse(Do(s, steps[0]), steps[1..], next);
      UsedOneMore(Exec(s, steps).pool, steps, s.pool.clock, last, next);
    }
  }

  /** In every run each slot records when its page was last asked for. */
  lemma SlotsRecordTheLastGet(file: seq<byte>, steps: seq<Step>, k: nat)
    requires IsRun(Opened(file), steps) && k < POOL_SIZE
    ensures var p := Exec(Opened(file), steps).pool;
      Shape(p) && (p.ids[k] != EMPTY ==> p.used[k] == LastGet(steps, p.ids[k], 0, 0))
  {
    RunIsUse(Opened(file), steps, q => 0);
  }

  /** In every run with fewer gets than the clock counts: if a get gives up a page, no slot was empty, that page
      was unpinned, and every other unpinned one has been asked for since. */
  lemma VictimWasAskedForLongestAgo(file: seq<byte>, steps: seq<Step>, id: nat, junk: seq<byte>, i: nat)
    requires IsRun(Opened(file), steps) && Gets(steps) < FOREVER && id < EMPTY && IsPage(junk) && i < POOL_SIZE
    ensures var p := Exec(Opened(file), steps).pool;
      Shape(p) && Filled(p) &&
      var k := GetPage(p, id, junk).1;
      k.Some? && k.value < POOL_SIZE && p.ids[k.value] != EMPTY && p.ids[k.value] != id ==>
        && p.pins[k.value] == 0 && p.ids[i] != EMPTY
        && (p.pins[i] == 0 ==>
              LastGet(steps, p.ids[k.value], 0, 0) <= LastGet(steps, p.ids[i], 0, 0))
  {
    GetFailsIffAllPinned(file, steps, id, junk);
    var p := Exec(Opened(file), steps).pool;
    SlotsRecordTheLastGet(file, steps, i);
    var k := GetPage(p, id, junk).1;
    if k.Some? && k.value < POOL_SIZE {
      SlotsRecordTheLastGet(file, steps, k.value);
    }
  }

  // ----- Pins ---------------------------------------------------------------------------

  /** How often page q is pinned after the run, if it was n times before: each get that succeeds and each pin of
      the cached page adds one, each unpin takes one back. */
  function Pinned(s: Sys, steps: seq<Step>, q: nat, n: nat): nat
    requires IsRun(s, steps)
    decreases |steps|
  {
    if steps == [] then n else Pinned(Do(s, steps[0]), steps[1..], q, PinnedNow(s, steps[0], q, n))
  }

  function PinnedNow(s: Sys, step: Step, q: nat, n: nat): nat
    requires Enabled(s, step)
  {
    match step
    case Get(id, junk) => if id == q && GetPage(s.pool, id, junk).1.Some? then n + 1 else n
    case PinStep(id) => if id == q && Resident(s.pool, q) then n + 1 else n
    case UnpinStep(id) => if id == q && n > 0 then n - 1 else n
    case _ => n
  }

  lemma OwnGetPins(p: Pool, id: nat, junk: seq<byte>)
    requires Shape(p) && Filled(p) && id < EMPTY && IsPage(junk) && NoPageTwice(p) && NoPageTwice(GetPage(p, id, junk).0)
    ensures PinsOf(GetPage(p, id, junk).0, id) == PinsOf(p, id) + if GetPage(p, id, junk).1.Some? then 1 else 0
  {
    var (r, k) := GetPage(p, id, junk);
    if k.Some? {
      SlotUnique(r, k.value, id);
    }
  }

  lemma OtherGetKeepsPins(s: Sys, id: nat, junk: seq<byte>, q: nat)
    requires Inv(s) && Enabled(s, Get(id, junk)) && q < EMPTY && q != id && Inv(Do(s, Get(id, junk)))
    ensures PinsOf(Do(s, Get(id, junk)).pool, q) == PinsOf(s.pool, q)
  {
    var p, r := s.pool, Do(s, Get(id, junk)).pool;
    var j := SlotOf(p.ids, q);
    if j < POOL_SIZE && p.pins[j] > 0 {
      assert r.ids[j] == q;
      SlotUnique(r, j, q);
    }
  }

  lemma GetPins(s: Sys, id: nat, junk: seq<byte>, q: nat)
    requires Inv(s) && Enabled(s, Get(id, junk)) && q < EMPTY
    ensures Shape(Do(s, Get(id, junk)).pool)
    ensures PinsOf(Do(s, Get(id, junk)).pool, q) == PinnedNow(s, Get(id, junk), q, PinsOf(s.pool, q))
  {
    GetKeepsInv(s, id, junk);
    if q == id {
      OwnGetPins(s.pool, id, junk);
    } else {
      OtherGetKeepsPins(s, id, junk, q);
    }
  }

  lemma StepPins(s: Sys, step: Step, q: nat)
    requires Inv(s) && Enabled(s, step) && q < EMPTY
    ensures Shape(Do(s, step).pool)
    ensures PinsOf(Do(s, step).pool, q) == PinnedNow(s, step, q, PinsOf(s.pool, q))
  {
    match step
    case Get(id, junk) => GetPins(s, id, junk, q);
    case _ =>
  }

  lemma {:induction false} RunPins(s: Sys, steps: seq<Step>, q: nat)
    requires Inv(s) && IsRun(s, steps) && q < EMPTY
    ensures Shape(Exec(s, steps).pool)
    ensures PinsOf(Exec(s, steps).pool, q) == Pinned(s, steps, q, PinsOf(s.pool, q))
    decreases |steps|
  {
    if steps != [] {
      StepKeepsInv(s, steps[0]);
      StepPins(s, steps[0], q);
      RunPins(Do(s, steps[0]), steps[1..], q);
    }
  }

  /** In every run the pin count of a page is what its gets, pins and unpins make it; while it is above zero the
      page is cached. */
  lemma PinsAreTheHistory(file: seq<byte>, steps: seq<Step>, q: nat)
    requires IsRun(Opened(file), steps) && q < EMPTY
    ensures var p := Exec(Opened(file), steps).pool;
      && Shape(p) && PinsOf(p, q) == Pinned(Opened(file), steps, q, 0)
      && (Pinned(Opened(file), steps, q, 0) > 0 ==> Resident(p, q))
  {
    RunPins(Opened(file), steps, q);
  }
}
