/** The cache over every run of disciplined callers. */
module CacheTransparency {
  import opened Bytes
  import opened Options
  import opened PagerModel
  import opened BufferPoolModel

  /** `touched`: pages changed since they were last marked dirty. */
  datatype Sys = Sys(pool: Pool, touched: set<nat>)

  datatype Step =
    | Get(id: nat, junk: seq<byte>)
    | PinStep(id: nat)
    | UnpinStep(id: nat)
    | Mark(id: nat)
    | Write(id: nat, d: seq<byte>)
    | FlushAll

  predicate Resident(p: Pool, id: nat)
    requires Shape(p)
  {
    SlotOf(p.ids, id) < POOL_SIZE
  }

  function PinsOf(p: Pool, id: nat): nat
    requires Shape(p)
  {
    var k := SlotOf(p.ids, id);
    if k < POOL_SIZE then p.pins[k] else 0
  }

  /** Callers write only pages they have pinned, and mark a change before the last unpin. */
  predicate Enabled(s: Sys, step: Step) {
    && Shape(s.pool) && Filled(s.pool)
    && (step.FlushAll? || step.id < EMPTY)
    && (step.Get? ==> IsPage(step.junk))
    && (step.UnpinStep? && step.id in s.touched ==> PinsOf(s.pool, step.id) > 1)
    && (step.Write? ==> PinsOf(s.pool, step.id) > 0 && IsPage(step.d))
  }

  function Do(s: Sys, step: Step): Sys
    requires Enabled(s, step)
  {
    match step
    case Get(id, junk) => s.(pool := GetPage(s.pool, id, junk).0)
    case PinStep(id) => s.(pool := Pin(s.pool, id))
    case UnpinStep(id) => s.(pool := Unpin(s.pool, id))
    case Mark(id) => Sys(MarkDirty(s.pool, id), s.touched - {id})
    case Write(id, d) =>
      Sys(s.pool.(data := s.pool.data[SlotOf(s.pool.ids, id) := d]), s.touched + {id})
    case FlushAll => s.(pool := Flush(s.pool, POOL_SIZE))
  }

  predicate IsRun(s: Sys, steps: seq<Step>)
    decreases |steps|
  {
    steps == [] || (Enabled(s, steps[0]) && IsRun(Do(s, steps[0]), steps[1..]))
  }

  function Exec(s: Sys, steps: seq<Step>): Sys
    requires IsRun(s, steps)
    decreases |steps|
  {
    if steps == [] then s else Exec(Do(s, steps[0]), steps[1..])
  }

  /** What a caller would read: the cached copy if there is one, else the disk. */
  function Logical(p: Pool, id: nat): seq<byte>
    requires Shape(p)
  {
    var k := SlotOf(p.ids, id);
    if k < POOL_SIZE then p.data[k] else PageAt(p.file, id)
  }

  /** The content of a page by the history of writes alone. */
  function Expected(initial: seq<byte>, steps: seq<Step>, id: nat): seq<byte>
    decreases |steps|
  {
    if steps == [] then initial
    else if steps[0].Write? && steps[0].id == id then Expected(steps[0].d, steps[1..], id)
    else Expected(initial, steps[1..], id)
  }

  /** The steps use page numbers below n only. */
  predicate AllBelow(steps: seq<Step>, n: nat) {
    forall i | 0 <= i < |steps| :: steps[i].FlushAll? || steps[i].id < n
  }

  // ----- What every step keeps ------------------------------------------------

  predicate NoPageTwice(p: Pool)
    requires Shape(p)
  {
    forall i, j | 0 <= i < j < POOL_SIZE :: p.ids[i] != EMPTY ==> p.ids[i] != p.ids[j]
  }

  predicate EmptySlotsIdle(p: Pool)
    requires Shape(p)
  {
    forall k | 0 <= k < POOL_SIZE :: p.ids[k] == EMPTY ==> !p.dirty[k] && p.pins[k] == 0
  }

  predicate TouchedArePinned(s: Sys)
    requires Shape(s.pool)
  {
    forall id <- s.touched :: id < EMPTY && PinsOf(s.pool, id) > 0
  }

  predicate Inv(s: Sys) {
    && Shape(s.pool) && Filled(s.pool) && NoPageTwice(s.pool) && EmptySlotsIdle(s.pool)
    && TouchedArePinned(s)
  }

  /** Page q can be read at all, and no other page below n goes to its place on disk. */
  predicate Alone(q: nat, n: nat) {
    q < MAX_PAGES && q < n <= EMPTY && n <= q + SPAN
  }

  predicate IdsBelow(p: Pool, n: nat)
    requires Shape(p)
  {
    forall k | 0 <= k < POOL_SIZE :: p.ids[k] == EMPTY || p.ids[k] < n
  }

  /** A slot with page q that is neither dirty nor being changed agrees with the disk. */
  predicate Clean(s: Sys, q: nat)
    requires Shape(s.pool)
  {
    var k := SlotOf(s.pool.ids, q);
    k < POOL_SIZE ==> s.pool.dirty[k] || q in s.touched || s.pool.data[k] == PageAt(s.pool.file, q)
  }

  predicate Tracks(s: Sys, q: nat, n: nat) {
    Inv(s) && Alone(q, n) && IdsBelow(s.pool, n) && Clean(s, q)
  }

  predicate SameAt(p: Pool, p': Pool, q: nat)
    requires Shape(p) && Shape(p')
  {
    Logical(p', q) == Logical(p, q)
  }

  lemma AloneOnDisk(q: nat, n: nat, id: nat)
    requires Alone(q, n) && id < n
    ensures DiskPage(id) == q <==> id == q
  {
  }

  lemma SlotUnique(p: Pool, k: nat, id: int)
    requires Shape(p) && NoPageTwice(p) && k < POOL_SIZE && p.ids[k] == id && id != EMPTY
    ensures SlotOf(p.ids, id) == k
  {
  }

  lemma SlotAfterLoad(p: Pool, k: nat, id: nat, q: nat)
    requires Shape(p) && NoPageTwice(p) && k < POOL_SIZE && p.ids[k] == EMPTY && q != id && q != EMPTY
    ensures SlotOf(p.ids[k := id], q) == SlotOf(p.ids, q)
  {
    var i, j := SlotOf(p.ids[k := id], q), SlotOf(p.ids, q);
    assert i < POOL_SIZE ==> p.ids[i] == q;
    assert j < POOL_SIZE ==> p.ids[k := id][j] == q;
  }

  lemma SlotAfterEmpty(p: Pool, k: nat, q: nat)
    requires Shape(p) && NoPageTwice(p) && k < POOL_SIZE && q != EMPTY
    ensures SlotOf(p.ids[k := EMPTY], q) == if q == p.ids[k] then POOL_SIZE else SlotOf(p.ids, q)
  {
    var i, j := SlotOf(p.ids[k := EMPTY], q), SlotOf(p.ids, q);
    assert i < POOL_SIZE ==> p.ids[i] == q;
    assert j < POOL_SIZE && j != k ==> p.ids[k := EMPTY][j] == q;
  }

  // Loading a page into an empty slot.

  lemma LoadKeepsInv(s: Sys, k: nat, id: nat, junk: seq<byte>)
    requires Inv(s) && k < POOL_SIZE && id < EMPTY && IsPage(junk) && !Resident(s.pool, id) && s.pool.ids[k] == EMPTY
    ensures Inv(s.(pool := Load(s.pool, k, id, junk)))
    ensures SlotOf(Load(s.pool, k, id, junk).ids, id) == k
  {
    var p, p' := s.pool, Load(s.pool, k, id, junk);
    assert NoPageTwice(p');
    SlotUnique(p', k, id);
    forall q <- s.touched ensures PinsOf(p', q) > 0 {
      assert PinsOf(p, q) > 0;
      SlotAfterLoad(p, k, id, q);
    }
  }

  lemma LoadKeepsPage(s: Sys, k: nat, id: nat, junk: seq<byte>, q: nat, n: nat)
    requires Tracks(s, q, n) && k < POOL_SIZE && id < n && IsPage(junk) && !Resident(s.pool, id)
    requires s.pool.ids[k] == EMPTY
    ensures Tracks(s.(pool := Load(s.pool, k, id, junk)), q, n) && SameAt(s.pool, Load(s.pool, k, id, junk), q)
  {
    LoadKeepsInv(s, k, id, junk);
    if q != id {
      SlotAfterLoad(s.pool, k, id, q);
    }
  }

  // Emptying an unpinned slot.

  lemma EmptyKeepsInv(s: Sys, k: nat)
    requires Inv(s) && k < POOL_SIZE && s.pool.pins[k] == 0
    ensures Inv(s.(pool := Emptied(s.pool, k)))
  {
    var s' := s.(pool := Emptied(s.pool, k));
    forall id <- s.touched ensures id < EMPTY && PinsOf(s'.pool, id) > 0 {
      assert PinsOf(s.pool, id) > 0;
      SlotAfterEmpty(s.pool, k, id);
      if id == s.pool.ids[k] {
        SlotUnique(s.pool, k, id);
      }
    }
  }

  /** The disk page of q changes only by its own write-back. */
  lemma DiskAfterEmpty(s: Sys, k: nat, q: nat, n: nat)
    requires Tracks(s, q, n) && k < POOL_SIZE
    ensures PageAt(Emptied(s.pool, k).file, q) ==
      if s.pool.ids[k] == q && s.pool.dirty[k] then s.pool.data[k] else PageAt(s.pool.file, q)
  {
    var p := s.pool;
    if p.ids[k] != EMPTY && p.dirty[k] {
      PageAfterWrite(p.file, DiskPage(p.ids[k]), p.data[k], q);
      AloneOnDisk(q, n, p.ids[k]);
    }
  }

  /** What an unpinned slot holds is saved. */
  lemma EmptyKeepsPage(s: Sys, k: nat, q: nat, n: nat)
    requires Tracks(s, q, n) && k < POOL_SIZE && s.pool.pins[k] == 0
    ensures Tracks(s.(pool := Emptied(s.pool, k)), q, n) && SameAt(s.pool, Emptied(s.pool, k), q)
  {
    EmptyKeepsInv(s, k);
    DiskAfterEmpty(s, k, q, n);
    SlotAfterEmpty(s.pool, k, q);
    if q == s.pool.ids[k] {
      SlotUnique(s.pool, k, q);
      assert PinsOf(s.pool, q) == 0;
    }
  }

  // Getting a page.

  lemma FetchKeepsInv(s: Sys, id: nat, junk: seq<byte>)
    requires Inv(s) && id < EMPTY && IsPage(junk) && !Resident(s.pool, id)
    ensures Inv(s.(pool := Fetch(s.pool, id, junk).0))
  {
    var free, lru := SlotOf(s.pool.ids, EMPTY), Lru(s.pool, POOL_SIZE);
    if free < POOL_SIZE {
      LoadKeepsInv(s, free, id, junk);
    } else if lru.Some? {
      EmptyKeepsInv(s, lru.value);
      SlotAfterEmpty(s.pool, lru.value, id);
      LoadKeepsInv(s.(pool := Emptied(s.pool, lru.value)), lru.value, id, junk);
    }
  }

  lemma FetchKeepsPage(s: Sys, id: nat, junk: seq<byte>, q: nat, n: nat)
    requires Tracks(s, q, n) && id < n && IsPage(junk) && !Resident(s.pool, id)
    ensures Tracks(s.(pool := Fetch(s.pool, id, junk).0), q, n) && SameAt(s.pool, Fetch(s.pool, id, junk).0, q)
  {
    var free, lru := SlotOf(s.pool.ids, EMPTY), Lru(s.pool, POOL_SIZE);
    if free < POOL_SIZE {
      LoadKeepsPage(s, free, id, junk, q, n);
    } else if lru.Some? {
      EmptyKeepsPage(s, lru.value, q, n);
      SlotAfterEmpty(s.pool, lru.value, id);
      LoadKeepsPage(s.(pool := Emptied(s.pool, lru.value)), lru.value, id, junk, q, n);
    }
  }

  lemma GetKeepsInv(s: Sys, id: nat, junk: seq<byte>)
    requires Inv(s) && id < EMPTY && IsPage(junk)
    ensures Inv(s.(pool := GetPage(s.pool, id, junk).0))
  {
    if !Resident(s.pool, id) {
      FetchKeepsInv(s.(pool := Tick(s.pool)), id, junk);
    }
  }

  /** Getting any page keeps the logical content of q. */
  lemma GetKeepsPage(s: Sys, id: nat, junk: seq<byte>, q: nat, n: nat)
    requires Tracks(s, q, n) && id < n && IsPage(junk)
    ensures Tracks(s.(pool := GetPage(s.pool, id, junk).0), q, n) && SameAt(s.pool, GetPage(s.pool, id, junk).0, q)
  {
    if !Resident(s.pool, id) {
      FetchKeepsPage(s.(pool := Tick(s.pool)), id, junk, q, n);
    } else {
      GetKeepsInv(s, id, junk);
    }
  }

  /** The page a caller is given: resident, pinned, with its logical content. */
  lemma GetGivesThePage(s: Sys, q: nat, junk: seq<byte>, n: nat)
    requires Tracks(s, q, n) && IsPage(junk) && GetPage(s.pool, q, junk).1.Some?
    ensures var (p, k) := GetPage(s.pool, q, junk);
      k.value < POOL_SIZE && p.ids[k.value] == q && p.pins[k.value] > 0 && p.data[k.value] == Logical(s.pool, q)
  {
    GetKeepsPage(s, q, junk, q, n);
    var (p, k) := GetPage(s.pool, q, junk);
    SlotUnique(p, k.value, q);
  }

  // Flushing.

  lemma FlushOneKeepsPage(s: Sys, k: nat, q: nat, n: nat)
    requires Tracks(s, q, n) && k < POOL_SIZE
    ensures Tracks(s.(pool := FlushSlot(s.pool, k)), q, n) && SameAt(s.pool, FlushSlot(s.pool, k), q)
  {
    var p := s.pool;
    if p.ids[k] != EMPTY && p.dirty[k] {
      SlotUnique(p, k, p.ids[k]);
      PageAfterWrite(p.file, DiskPage(p.ids[k]), p.data[k], q);
      AloneOnDisk(q, n, p.ids[k]);
    }
  }

  lemma FlushStep(p: Pool, m: nat)
    requires Shape(p) && Filled(p) && 0 < m <= POOL_SIZE
    ensures Flush(p, m) == FlushSlot(Flush(p, m - 1), m - 1)
  {
  }

  lemma {:induction false} FlushKeepsPage(s: Sys, m: nat, q: nat, n: nat)
    requires Tracks(s, q, n) && m <= POOL_SIZE
    ensures Tracks(s.(pool := Flush(s.pool, m)), q, n) && SameAt(s.pool, Flush(s.pool, m), q)
  {
    if m == 0 {
      assert Flush(s.pool, m) == s.pool;
    } else {
      var p := Flush(s.pool, m - 1);
      FlushKeepsPage(s, m - 1, q, n);
      FlushOneKeepsPage(Sys(p, s.touched), m - 1, q, n);
      FlushStep(s.pool, m);
    }
  }

  lemma {:induction false} FlushedAreClean(p: Pool, n: nat)
    requires Shape(p) && Filled(p) && EmptySlotsIdle(p) && n <= POOL_SIZE
    ensures forall k | 0 <= k < n :: !Flush(p, n).dirty[k]
    ensures forall k | n <= k < POOL_SIZE :: Flush(p, n).dirty[k] == p.dirty[k]
  {
    if n > 0 {
      FlushedAreClean(p, n - 1);
    }
  }

  lemma FlushKeepsInv(s: Sys)
    requires Inv(s)
    ensures Inv(s.(pool := Flush(s.pool, POOL_SIZE)))
  {
    FlushedAreClean(s.pool, POOL_SIZE);
  }

  // The small steps.

  lemma SmallStepKeepsSlots(s: Sys, step: Step)
    requires Inv(s) && Enabled(s, step) && !step.Get? && !step.FlushAll?
    ensures var p := Do(s, step).pool;
      Shape(p) && Filled(p) && NoPageTwice(p) && EmptySlotsIdle(p) && p.ids == s.pool.ids
  {
  }

  lemma SmallStepKeepsInv(s: Sys, step: Step)
    requires Inv(s) && Enabled(s, step) && !step.Get? && !step.FlushAll?
    ensures Inv(Do(s, step))
  {
    SmallStepKeepsSlots(s, step);
    forall id <- Do(s, step).touched ensures PinsOf(Do(s, step).pool, id) > 0 {
      assert id in s.touched || (step.Write? && step.id == id);
    }
  }

  lemma StepKeepsInv(s: Sys, step: Step)
    requires Inv(s) && Enabled(s, step)
    ensures Inv(Do(s, step))
  {
    match step
    case Get(id, junk) => GetKeepsInv(s, id, junk);
    case FlushAll => FlushKeepsInv(s);
    case _ => SmallStepKeepsInv(s, step);
  }

  lemma PinKeepsPage(s: Sys, id: nat, q: nat, n: nat)
    requires Tracks(s, q, n) && Enabled(s, PinStep(id))
    ensures Tracks(Do(s, PinStep(id)), q, n) && SameAt(s.pool, Do(s, PinStep(id)).pool, q)
  {
    SmallStepKeepsInv(s, PinStep(id));
  }

  lemma UnpinKeepsPage(s: Sys, id: nat, q: nat, n: nat)
    requires Tracks(s, q, n) && Enabled(s, UnpinStep(id))
    ensures Tracks(Do(s, UnpinStep(id)), q, n) && SameAt(s.pool, Do(s, UnpinStep(id)).pool, q)
  {
    SmallStepKeepsInv(s, UnpinStep(id));
  }

  lemma MarkKeepsPage(s: Sys, id: nat, q: nat, n: nat)
    requires Tracks(s, q, n) && Enabled(s, Mark(id))
    ensures Tracks(Do(s, Mark(id)), q, n) && SameAt(s.pool, Do(s, Mark(id)).pool, q)
  {
    SmallStepKeepsInv(s, Mark(id));
  }

  lemma WriteKeepsPage(s: Sys, id: nat, d: seq<byte>, q: nat, n: nat)
    requires Tracks(s, q, n) && Enabled(s, Write(id, d))
    ensures Tracks(Do(s, Write(id, d)), q, n)
    ensures Logical(Do(s, Write(id, d)).pool, q) == if q == id then d else Logical(s.pool, q)
  {
    SmallStepKeepsInv(s, Write(id, d));
  }

  /** Every step keeps what is known of page q, and only a write to q changes its logical content. */
  lemma StepKeepsPage(s: Sys, step: Step, q: nat, n: nat)
    requires Tracks(s, q, n) && Enabled(s, step) && (step.FlushAll? || step.id < n)
    ensures Tracks(Do(s, step), q, n)
    ensures Logical(Do(s, step).pool, q) == if step.Write? && q == step.id then step.d else Logical(s.pool, q)
  {
    match step
    case Get(id, junk) => GetKeepsPage(s, id, junk, q, n);
    case PinStep(id) => PinKeepsPage(s, id, q, n);
    case UnpinStep(id) => UnpinKeepsPage(s, id, q, n);
    case Mark(id) => MarkKeepsPage(s, id, q, n);
    case Write(id, d) => WriteKeepsPage(s, id, d, q, n);
    case FlushAll => FlushKeepsPage(s, POOL_SIZE, q, n);
  }

  lemma {:induction false} RunKeepsInv(s: Sys, steps: seq<Step>)
    requires Inv(s) && IsRun(s, steps)
    ensures Inv(Exec(s, steps))
    decreases |steps|
  {
    if steps != [] {
      StepKeepsInv(s, steps[0]);
      RunKeepsInv(Do(s, steps[0]), steps[1..]);
    }
  }

  lemma {:induction false} RunKeepsPage(s: Sys, steps: seq<Step>, q: nat, n: nat)
    requires Tracks(s, q, n) && IsRun(s, steps) && AllBelow(steps, n)
    ensures Tracks(Exec(s, steps), q, n)
    ensures Logical(Exec(s, steps).pool, q) == Expected(Logical(s.pool, q), steps, q)
    decreases |steps|
  {
    if steps != [] {
      StepKeepsPage(s, steps[0], q, n);
      RunKeepsPage(Do(s, steps[0]), steps[1..], q, n);
    }
  }

  // ----- Main results ---------------------------------------------------------

  function Opened(file: seq<byte>): Sys {
    Sys(FreshPool(file), {})
  }

  /** Cache transparency: over every run of disciplined callers with page numbers below n, a page that is
      alone among them reads as the history of writes says, and no page sits in two slots. */
  lemma CacheIsTransparent(file: seq<byte>, steps: seq<Step>, q: nat, n: nat)
    requires IsRun(Opened(file), steps) && AllBelow(steps, n) && Alone(q, n)
    ensures Shape(Exec(Opened(file), steps).pool)
    ensures Logical(Exec(Opened(file), steps).pool, q) == Expected(PageAt(file, q), steps, q)
    ensures NoPageTwice(Exec(Opened(file), steps).pool)
  {
    RunKeepsPage(Opened(file), steps, q, n);
  }

  /** The page q that a caller gets is not the page as the history of writes says. */
  predicate Misreads(file: seq<byte>, steps: seq<Step>, q: nat, junk: seq<byte>)
    requires IsRun(Opened(file), steps) && q < EMPTY && IsPage(junk)
  {
    var p := Exec(Opened(file), steps).pool;
    Shape(p) && Filled(p) &&
    var (p', k) := GetPage(p, q, junk);
    k.Some? && k.value < POOL_SIZE && p'.data[k.value] != Expected(PageAt(file, q), steps, q)
  }

  lemma GetReadsTheHistory(file: seq<byte>, steps: seq<Step>, q: nat, junk: seq<byte>, n: nat)
    requires IsRun(Opened(file), steps) && AllBelow(steps, n) && Alone(q, n) && IsPage(junk)
    ensures !Misreads(file, steps, q, junk)
  {
    RunKeepsPage(Opened(file), steps, q, n);
    var s := Exec(Opened(file), steps);
    if GetPage(s.pool, q, junk).1.Some? {
      GetGivesThePage(s, q, junk, n);
    }
  }

  function Filler(b: byte): (d: seq<byte>)
    ensures IsPage(d)
  {
    seq(PAGE_SIZE, _ => b)
  }

  /** From page 100 on a get of a page that is not cached shows what malloc left. */
  lemma HighPagesMisread(q: nat)
    requires MAX_PAGES <= q < EMPTY
    ensures Misreads([], [], q, Filler(1))
  {
    var p := Opened([]).pool;
    assert SlotOf(p.ids, EMPTY) == 0;
    assert GetPage(p, q, Filler(1)).0.data[0] == Filler(1);
    assert PageAt([], q)[0] == 0 && Filler(1)[0] == 1;
  }

  lemma {:induction false} FlushOnlyFirst(p: Pool, n: nat)
    requires Shape(p) && Filled(p) && 1 <= n <= POOL_SIZE && p.ids[0] != EMPTY && p.dirty[0]
    requires forall k | 0 < k < POOL_SIZE :: !p.dirty[k]
    ensures Flush(p, n) == p.(file := WritePage(p.file, DiskPage(p.ids[0]), p.data[0]), dirty := p.dirty[0 := false])
  {
    if n == 1 {
      assert Flush(p, 0) == p;
    } else {
      FlushOnlyFirst(p, n - 1);
    }
  }

  lemma {:induction false} RunGrows(s: Sys, steps: seq<Step>, step: Step)
    requires IsRun(s, steps) && Enabled(Exec(s, steps), step)
    ensures IsRun(s, steps + [step]) && Exec(s, steps + [step]) == Do(Exec(s, steps), step)
    decreases |steps|
  {
    if steps == [] {
      assert [] + [step] == [step] && [step][1..] == [];
    } else {
      RunGrows(Do(s, steps[0]), steps[1..], step);
      assert (steps + [step])[1..] == steps[1..] + [step];
    }
  }

  /** A page 2^20 further on is written to the same place. */
  function Overwriting(q: nat): seq<Step> {
    [Get(q + SPAN, Filler(0))] + [Write(q + SPAN, Filler(1))] + [Mark(q + SPAN)] + [FlushAll]
  }

  function FarLoaded(q: nat): Pool {
    Load(Tick(FreshPool([])), 0, q + SPAN, Filler(0))
  }

  function FarWritten(q: nat): Pool {
    FarLoaded(q).(data := FarLoaded(q).data[0 := Filler(1)])
  }

  function FarFlushed(q: nat): Pool {
    FarWritten(q).(file := WritePage([], q, Filler(1)))
  }

  lemma FarIsLoaded(q: nat)
    requires q < MAX_PAGES
    ensures Do(Opened([]), Get(q + SPAN, Filler(0))) == Sys(FarLoaded(q), {})
    ensures SlotOf(FarLoaded(q).ids, q + SPAN) == 0
  {
    assert SlotOf(FreshPool([]).ids, q + SPAN) == POOL_SIZE && SlotOf(FreshPool([]).ids, EMPTY) == 0;
    assert FarLoaded(q).ids[0] == q + SPAN;
  }

  lemma FarIsFlushed(q: nat)
    requires q < MAX_PAGES
    ensures var p := FarWritten(q).(dirty := FarWritten(q).dirty[0 := true]);
      Shape(p) && Filled(p) && Flush(p, POOL_SIZE) == FarFlushed(q)
  {
    var p := FarWritten(q).(dirty := FarWritten(q).dirty[0 := true]);
    FlushOnlyFirst(p, POOL_SIZE);
    assert p.dirty[0 := false] == FarWritten(q).dirty;
    assert DiskPage(q + SPAN) == q;
  }

  lemma OverwritingRuns(q: nat)
    requires q < MAX_PAGES
    ensures IsRun(Opened([]), Overwriting(q)) && Exec(Opened([]), Overwriting(q)) == Sys(FarFlushed(q), {})
  {
    var far, s0 := q + SPAN, Opened([]);
    var p := FarWritten(q);
    FarIsLoaded(q);
    FarIsFlushed(q);
    RunGrows(s0, [], Get(far, Filler(0)));
    assert [] + [Get(far, Filler(0))] == [Get(far, Filler(0))];
    RunGrows(s0, [Get(far, Filler(0))], Write(far, Filler(1)));
    RunGrows(s0, [Get(far, Filler(0))] + [Write(far, Filler(1))], Mark(far));
    assert Do(Sys(p, {far}), Mark(far)) == Sys(p.(dirty := p.dirty[0 := true]), {});
    RunGrows(s0, [Get(far, Filler(0))] + [Write(far, Filler(1))] + [Mark(far)], FlushAll);
  }

  /** A page that is not cached, when slot k is the first empty one. */
  lemma GetShowsDisk(p: Pool, q: nat, k: nat, junk: seq<byte>)
    requires Shape(p) && Filled(p) && q < MAX_PAGES && IsPage(junk) && k < POOL_SIZE
    requires p.ids[k] == EMPTY && forall i | 0 <= i < POOL_SIZE && i != k :: p.ids[i] != q
    requires forall i | 0 <= i < k :: p.ids[i] != EMPTY
    ensures var (p', slot) := GetPage(p, q, junk); slot == Some(k) && p'.data[k] == PageAt(p.file, q)
  {
    assert SlotOf(p.ids, q) == POOL_SIZE && SlotOf(p.ids, EMPTY) == k;
  }

  lemma FarPageShows(q: nat)
    requires q < MAX_PAGES
    ensures var (p, slot) := GetPage(FarFlushed(q), q, Filler(0)); slot == Some(1) && p.data[1] == Filler(1)
  {
    GetShowsDisk(FarFlushed(q), q, 1, Filler(0));
    PageAfterWrite([], q, Filler(1), q);
  }

  /** Whatever run leads there: it misreads page q if it never wrote to it. */
  lemma FarRunMisreads(q: nat, steps: seq<Step>)
    requires q < MAX_PAGES && IsRun(Opened([]), steps) && Exec(Opened([]), steps).pool == FarFlushed(q)
    requires forall i | 0 <= i < |steps| :: !(steps[i].Write? && steps[i].id == q)
    ensures Misreads([], steps, q, Filler(0))
  {
    FarPageShows(q);
    NotWritten(PageAt([], q), steps, q);
    assert PageAt([], q)[0] == 0 && Filler(1)[0] == 1;
  }

  lemma OverwritingSpares(q: nat, steps: seq<Step>)
    requires steps == Overwriting(q)
    ensures AllBelow(steps, q + SPAN + 1) && forall i | 0 <= i < |steps| :: !(steps[i].Write? && steps[i].id == q)
  {
  }

  lemma FarPageOverwrites(q: nat)
    requires q < MAX_PAGES
    ensures IsRun(Opened([]), Overwriting(q)) && AllBelow(Overwriting(q), q + SPAN + 1)
    ensures Misreads([], Overwriting(q), q, Filler(0))
  {
    OverwritingRuns(q);
    OverwritingSpares(q, Overwriting(q));
    FarRunMisreads(q, Overwriting(q));
  }

  lemma {:induction false} NotWritten(initial: seq<byte>, steps: seq<Step>, q: nat)
    requires forall i | 0 <= i < |steps| :: !(steps[i].Write? && steps[i].id == q)
    ensures Expected(initial, steps, q) == initial
    decreases |steps|
  {
    if steps != [] {
      NotWritten(initial, steps[1..], q);
    }
  }

  /** No run of disciplined callers with page numbers below n misreads page q. */
  ghost predicate Transparent(q: nat, n: nat)
    requires q < EMPTY
  {
    forall file, steps, junk | IsRun(Opened(file), steps) && AllBelow(steps, n) && IsPage(junk) ::
      !Misreads(file, steps, q, junk)
  }

  /** A page always reads as the history of writes says exactly if its number is below 100 and no number in
      use is 2^20 further on. */
  lemma TransparentIff(q: nat, n: nat)
    requires q < n <= EMPTY
    ensures Transparent(q, n) <==> q < MAX_PAGES && n <= q + SPAN
  {
    if q >= MAX_PAGES {
      HighPagesMisread(q);
    } else if n > q + SPAN {
      FarPageOverwrites(q);
      assert AllBelow(Overwriting(q), n);
    } else {
      forall file, steps, junk | IsRun(Opened(file), steps) && AllBelow(steps, n) && IsPage(junk)
        ensures !Misreads(file, steps, q, junk)
      {
        GetReadsTheHistory(file, steps, q, junk, n);
      }
    }
  }

  /** Closing writes back everything: if no change is left unmarked, the disk holds every such page. */
  lemma CloseSavesEverything(file: seq<byte>, steps: seq<Step>, q: nat, n: nat)
    requires IsRun(Opened(file), steps) && AllBelow(steps, n) && Alone(q, n)
    requires Exec(Opened(file), steps).touched == {}
    ensures Shape(Exec(Opened(file), steps).pool) && Filled(Exec(Opened(file), steps).pool)
    ensures PageAt(Flush(Exec(Opened(file), steps).pool, POOL_SIZE).file, q) == Expected(PageAt(file, q), steps, q)
  {
    RunKeepsPage(Opened(file), steps, q, n);
    var s := Exec(Opened(file), steps);
    FlushKeepsPage(s, POOL_SIZE, q, n);
    FlushedAreClean(s.pool, POOL_SIZE);
  }

  /** No step takes a pinned page away or changes it, except a write to that very page. */
  lemma PinnedPagesStay(s: Sys, step: Step, k: nat)
    requires Inv(s) && Enabled(s, step) && k < POOL_SIZE && s.pool.pins[k] > 0
    ensures Shape(Do(s, step).pool) && Do(s, step).pool.ids[k] == s.pool.ids[k]
    ensures !(step.Write? && step.id == s.pool.ids[k]) ==> Do(s, step).pool.data[k] == s.pool.data[k]
  {
  }

  predicate UsedBefore(p: Pool)
    requires Shape(p)
  {
    forall k | 0 <= k < POOL_SIZE :: p.used[k] <= p.clock
  }

  function Gets(steps: seq<Step>): nat {
    if steps == [] then 0 else (if steps[0].Get? then 1 else 0) + Gets(steps[1..])
  }

  lemma {:induction false} FlushKeepsClock(p: Pool, n: nat)
    requires Shape(p) && Filled(p) && n <= POOL_SIZE
    ensures Flush(p, n).clock == p.clock && Flush(p, n).used == p.used
  {
    if n > 0 {
      FlushKeepsClock(p, n - 1);
      FlushStep(p, n);
    }
  }

  lemma GetKeepsUsed(p: Pool, id: nat, junk: seq<byte>)
    requires Shape(p) && Filled(p) && id < EMPTY && IsPage(junk) && UsedBefore(p)
    ensures UsedBefore(GetPage(p, id, junk).0) && GetPage(p, id, junk).0.clock == p.clock + 1
  {
  }

  lemma StepKeepsUsed(s: Sys, step: Step)
    requires Enabled(s, step) && UsedBefore(s.pool)
    ensures Shape(Do(s, step).pool) && UsedBefore(Do(s, step).pool)
    ensures Do(s, step).pool.clock == s.pool.clock + if step.Get? then 1 else 0
  {
    match step
    case Get(id, junk) => GetKeepsUsed(s.pool, id, junk);
    case FlushAll => FlushKeepsClock(s.pool, POOL_SIZE);
    case _ =>
  }

  lemma {:induction false} RunKeepsUsed(s: Sys, steps: seq<Step>)
    requires IsRun(s, steps) && Shape(s.pool) && UsedBefore(s.pool)
    ensures Shape(Exec(s, steps).pool) && UsedBefore(Exec(s, steps).pool)
    ensures Exec(s, steps).pool.clock == s.pool.clock + Gets(steps)
    decreases |steps|
  {
    if steps != [] {
      StepKeepsUsed(s, steps[0]);
      RunKeepsUsed(Do(s, steps[0]), steps[1..]);
    }
  }

  /** A page cannot be had exactly when it is not cached and all slots are pinned; otherwise the slot given
      up is the least recently used of the unpinned ones. */
  lemma GetFailsFrom(p: Pool, id: nat, junk: seq<byte>)
    requires Shape(p) && Filled(p) && id < EMPTY && IsPage(junk) && EmptySlotsIdle(p)
    requires UsedBefore(p) && p.clock < FOREVER
    ensures GetPage(p, id, junk).1.None? <==> !Resident(p, id) && forall k | 0 <= k < POOL_SIZE :: p.pins[k] > 0
    ensures var k := GetPage(p, id, junk).1;
      k.Some? && k.value < POOL_SIZE && p.ids[k.value] != EMPTY && p.ids[k.value] != id ==>
        p.pins[k.value] == 0 && forall i | 0 <= i < POOL_SIZE && p.pins[i] == 0 :: p.used[k.value] <= p.used[i]
  {
  }

  /** In every run with fewer gets than the clock can count: a page cannot be had exactly when it is not
      cached and all ten slots are pinned; otherwise the slot given up is the least recently used of the
      unpinned ones. */
  lemma GetFailsIffAllPinned(file: seq<byte>, steps: seq<Step>, id: nat, junk: seq<byte>)
    requires IsRun(Opened(file), steps) && Gets(steps) < FOREVER && id < EMPTY && IsPage(junk)
    ensures var p := Exec(Opened(file), steps).pool;
      && Shape(p) && Filled(p)
      && (GetPage(p, id, junk).1.None? <==> !Resident(p, id) && forall k | 0 <= k < POOL_SIZE :: p.pins[k] > 0)
      && var k := GetPage(p, id, junk).1;
         k.Some? && k.value < POOL_SIZE && p.ids[k.value] != EMPTY && p.ids[k.value] != id ==>
           p.pins[k.value] == 0 && forall i | 0 <= i < POOL_SIZE && p.pins[i] == 0 :: p.used[k.value] <= p.used[i]
  {
    RunKeepsInv(Opened(file), steps);
    RunKeepsUsed(Opened(file), steps);
    GetFailsFrom(Exec(Opened(file), steps).pool, id, junk);
  }
}
