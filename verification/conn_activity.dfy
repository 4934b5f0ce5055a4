/** What the pool remembers of each connection over every run, and which connections the health check drops. */
module ConnectionActivity {
  import opened BitMasks
  import opened ConnectionPoolModel
  import opened ConnectionPoolSafety

  // ----- What one step does to a connection ---------------------------------------------

  /** The step makes the connection, or takes it from or puts it on the free list. */
  predicate Touches(s: Sys, step: Step, c: nat)
    requires Enabled(s, step)
  {
    match step
    case AcquireStep(made, now) => Acquire(s.pool, made, now).1 == c
    case ReleaseStep(x, _) => x == c
    case BreakStep(_) => false
    case CheckStep(_, _, _) => c !in s.pool.conns
  }

  function Time(step: Step): nat {
    match step
    case AcquireStep(_, now) => now
    case ReleaseStep(_, now) => now
    case BreakStep(_) => 0
    case CheckStep(_, _, now) => now
  }

  /** What is remembered of c: the time of the last touch, and whether it broke since it was made. */
  predicate Remembered(s: Sys, step: Step, c: nat, conns: Conns)
    requires Enabled(s, step) && c in conns
  {
    && conns[c].lastActivity ==
         (if Touches(s, step, c) || c !in s.pool.conns then Time(step) else s.pool.conns[c].lastActivity)
    && conns[c].healthy == (if c !in s.pool.conns then true else s.pool.conns[c].healthy && step != BreakStep(c))
  }

  lemma AcquireRemembers(s: Sys, made: nat, now: nat, c: nat)
    requires Inv(s) && Enabled(s, AcquireStep(made, now))
    requires c in Do(s, AcquireStep(made, now)).pool.conns
    ensures Remembered(s, AcquireStep(made, now), c, Do(s, AcquireStep(made, now)).pool.conns)
  {
    if s.free != [] {
      PopLists(s.pool, s.free);
    }
  }

  lemma ReleaseRemembers(s: Sys, x: nat, now: nat, c: nat)
    requires Inv(s) && Enabled(s, ReleaseStep(x, now))
    requires c in Do(s, ReleaseStep(x, now)).pool.conns
    ensures Remembered(s, ReleaseStep(x, now), c, Do(s, ReleaseStep(x, now)).pool.conns)
  {
    if s.pool.conns[x].healthy {
      PushLists(s.pool, s.free, x);
    } else {
      DropKeeps(s.pool, s.free, x);
    }
  }

  /** The connection is on the list, idle for too long, and does not answer. */
  predicate Leaves(p: Pool, list: seq<nat>, silent: set<nat>, now: nat, c: nat) {
    c in list && Stale(p, c, now) && c in silent
  }

  predicate SameFacts(p: Pool, q: Pool, c: nat)
    requires c in p.conns && c in q.conns
  {
    q.conns[c].lastActivity == p.conns[c].lastActivity && q.conns[c].healthy == p.conns[c].healthy
  }

  lemma OtherLeaves(p: Pool, q: Pool, list: seq<nat>, silent: set<nat>, now: nat, c: nat)
    requires list != [] && c != list[0] && c in p.conns && c in q.conns && SameFacts(p, q, c)
    ensures Leaves(q, list[1..], silent, now, c) <==> Leaves(p, list, silent, now, c)
  {
    assert list == [list[0]] + list[1..];
  }

  lemma FirstStays(p: Pool, list: seq<nat>, silent: set<nat>, now: nat, c: nat)
    requires list != [] && !(Stale(p, list[0], now) && list[0] in silent)
    ensures Leaves(p, list[1..], silent, now, c) <==> Leaves(p, list, silent, now, c)
  {
    assert list == [list[0]] + list[1..];
  }

  /** The check walks on: of the list it drops exactly those that leave, and changes no other. */
  lemma {:induction false} WalkDrops(s: Sys, done: seq<nat>, list: seq<nat>, silent: set<nat>, now: nat, c: nat)
    requires Inv(s) && s.free == done + list && c in s.pool.conns
    ensures var q := CheckedAll(s.pool, list, silent, now);
      && (c in q.conns <==> !Leaves(s.pool, list, silent, now, c))
      && (c in q.conns ==> SameFacts(s.pool, q, c))
    decreases |list|
  {
    if list == [] {
    } else if Stale(s.pool, list[0], now) && list[0] in silent {
      CheckTakesOut(s, done, list, silent, now);
      var t := Sys(Checked(s.pool, list[0], silent, now), done + list[1..], s.broken);
      if c == list[0] {
        CheckKeepsInv(t, done, list[1..], silent, now);
      } else {
        OtherLeaves(s.pool, t.pool, list, silent, now, c);
        WalkDrops(t, done, list[1..], silent, now, c);
      }
    } else {
      CheckLeaves(s.pool, done, list, silent, now);
      FirstStays(s.pool, list, silent, now, c);
      assert done + list == (done + [list[0]]) + list[1..];
      WalkDrops(s, done + [list[0]], list[1..], silent, now, c);
    }
  }

  lemma {:induction false} RefillRemembers(p: Pool, free: seq<nat>, made: seq<nat>, now: nat, c: nat)
    requires Indexed(p) && Listed(p, free) && FreshOnes(p.conns, made) && c in Refilled(p, made, now).conns
    ensures var conns := Refilled(p, made, now).conns;
      && conns[c].lastActivity == (if c in p.conns then p.conns[c].lastActivity else now)
      && conns[c].healthy == (if c in p.conns then p.conns[c].healthy else true)
      && (c in p.conns || (c != 0 && c in made))
    decreases |made|
  {
    if !(p.count >= p.min || p.count == |p.slots| || made == [] || made[0] == 0) {
      var q := AddFree(p, made[0], now);
      AppendKeeps(p, free, made[0], now);
      PushLists(Append(p, made[0], now), free, made[0]);
      IndexedWhere(Append(p, made[0], now), q);
      FreshTail(p.conns, made, q.conns);
      RefillRemembers(q, [made[0]] + free, made[1..], now, c);
    }
  }

  lemma NewOnesAreNew(s: Sys, q: Pool, made: seq<nat>, c: nat)
    requires FreshOnes(s.pool.conns, made) && q.conns.Keys <= s.pool.conns.Keys
    ensures FreshOnes(q.conns, made) && (c in s.pool.conns ==> !(c != 0 && c in made))
  {
    forall i | 0 <= i < |made| && made[i] != 0 ensures made[i] !in q.conns {
      assert made[i] !in s.pool.conns.Keys;
    }
  }

  lemma CheckRemembers(s: Sys, silent: set<nat>, made: seq<nat>, now: nat, c: nat)
    requires Inv(s) && Enabled(s, CheckStep(silent, made, now))
    requires c in Do(s, CheckStep(silent, made, now)).pool.conns
    ensures Remembered(s, CheckStep(silent, made, now), c, Do(s, CheckStep(silent, made, now)).pool.conns)
  {
    var q := CheckedAll(s.pool, s.free, silent, now);
    var kept := Answering(s.pool, s.free, silent, now);
    assert s.free == [] + s.free && kept == [] + kept;
    CheckKeepsInv(s, [], s.free, silent, now);
    NewOnesAreNew(s, q, made, c);
    RefillRemembers(q, kept, made, now, c);
    if c in s.pool.conns {
      WalkDrops(s, [], s.free, silent, now, c);
    }
  }

  // ----- Over runs ----------------------------------------------------------------------

  lemma StepRemembers(s: Sys, step: Step, c: nat)
    requires Inv(s) && Enabled(s, step) && c in Do(s, step).pool.conns
    ensures Remembered(s, step, c, Do(s, step).pool.conns)
  {
    match step
    case AcquireStep(made, now) => AcquireRemembers(s, made, now, c);
    case ReleaseStep(x, now) => ReleaseRemembers(s, x, now, c);
    case BreakStep(x) =>
    case CheckStep(silent, made, now) => CheckRemembers(s, silent, made, now, c);
  }

  /** When c was last made, acquired or released, if `was` is what holds before the run. */
  function LastTouch(s: Sys, steps: seq<Step>, c: nat, was: nat): nat
    requires IsRun(s, steps)
    decreases |steps|
  {
    if steps == [] then was
    else LastTouch(Do(s, steps[0]), steps[1..], c, TouchNow(s, steps[0], c, was))
  }

  function TouchNow(s: Sys, step: Step, c: nat, was: nat): nat
    requires Enabled(s, step)
  {
    if Touches(s, step, c) || c !in s.pool.conns then Time(step) else was
  }

  /** Whether c is unbroken since it was last made. */
  function Unbroken(s: Sys, steps: seq<Step>, c: nat, was: bool): bool
    requires IsRun(s, steps)
    decreases |steps|
  {
    if steps == [] then was
    else Unbroken(Do(s, steps[0]), steps[1..], c, UnbrokenNow(s, steps[0], c, was))
  }

  function UnbrokenNow(s: Sys, step: Step, c: nat, was: bool): bool {
    c !in s.pool.conns || (was && step != BreakStep(c))
  }

  lemma {:induction false} RunRemembers(s: Sys, steps: seq<Step>, c: nat, time: nat, sound: bool)
    requires Inv(s) && IsRun(s, steps) && c in Exec(s, steps).pool.conns
    requires c in s.pool.conns ==> s.pool.conns[c].lastActivity == time && s.pool.conns[c].healthy == sound
    requires c !in s.pool.conns ==> steps != []
    ensures var conns := Exec(s, steps).pool.conns;
      conns[c].lastActivity == LastTouch(s, steps, c, time) && conns[c].healthy == Unbroken(s, steps, c, sound)
    decreases |steps|
  {
    if steps != [] {
      var t := Do(s, steps[0]);
      StepKeepsInv(s, steps[0]);
      if c in t.pool.conns {
        StepRemembers(s, steps[0], c);
      }
      RunRemembers(t, steps[1..], c, TouchNow(s, steps[0], c, time), UnbrokenNow(s, steps[0], c, sound));
    }
  }

  lemma StartRemembers(min: nat, max: nat, made: seq<nat>, now: nat, c: nat)
    requires Created(min, max, made) && c in Start(min, max, made, now).pool.conns
    ensures var conns := Start(min, max, made, now).pool.conns; conns[c].lastActivity == now && conns[c].healthy
  {
    AdjustedFitsIff(min, max);
    FillRemembers(Sys(Empty(Adjusted(min, max).0, Adjusted(min, max).1), [], 0), made, now, c);
  }

  lemma {:induction false} FillRemembers(s: Sys, made: seq<nat>, now: nat, c: nat)
    requires Inv(s) && FreshOnes(s.pool.conns, made) && s.pool.count + |made| <= s.pool.max
    requires c in Filled(s.pool, made, now).conns
    requires c in s.pool.conns ==> s.pool.conns[c].lastActivity == now && s.pool.conns[c].healthy
    ensures var conns := Filled(s.pool, made, now).conns; conns[c].lastActivity == now && conns[c].healthy
    decreases |made|
  {
    if made != [] {
      if made[0] == 0 {
        FreshTail(s.pool.conns, made, s.pool.conns);
        FillRemembers(s, made[1..], now, c);
      } else {
        AddFreeKeepsInv(s, made[0], now);
        var t := Sys(AddFree(s.pool, made[0], now), [made[0]] + s.free, s.broken);
        AppendKeeps(s.pool, s.free, made[0], now);
        PushLists(Append(s.pool, made[0], now), s.free, made[0]);
        FreshTail(s.pool.conns, made, t.pool.conns);
        FillRemembers(t, made[1..], now, c);
      }
    }
  }

  /** In every run a connection's last activity is when it was last made, acquired or released, and it counts as
      healthy exactly if it has not broken since it was made. */
  lemma ActivityIsTheHistory(min: nat, max: nat, made: seq<nat>, now: nat, steps: seq<Step>, c: nat)
    requires Created(min, max, made) && IsRun(Start(min, max, made, now), steps)
    requires c in Exec(Start(min, max, made, now), steps).pool.conns
    ensures var (s, conns) := (Start(min, max, made, now), Exec(Start(min, max, made, now), steps).pool.conns);
      conns[c].lastActivity == LastTouch(s, steps, c, now) && conns[c].healthy == Unbroken(s, steps, c, true)
  {
    var s := Start(min, max, made, now);
    StartKeepsInv(min, max, made, now);
    if c in s.pool.conns {
      StartRemembers(min, max, made, now, c);
    }
    RunRemembers(s, steps, c, now, true);
  }

  /** In every run a health check drops a connection exactly if it is free, was last touched more than 90000
      time units ago on a 64-bit clock, and does not answer. */
  lemma CheckDropsTheIdle(min: nat, max: nat, made: seq<nat>, start: nat, steps: seq<Step>,
                          silent: set<nat>, more: seq<nat>, now: nat, c: nat)
    requires Created(min, max, made) && IsRun(Start(min, max, made, start), steps)
    requires c in Exec(Start(min, max, made, start), steps).pool.conns
    requires Enabled(Exec(Start(min, max, made, start), steps), CheckStep(silent, more, now))
    ensures var s0 := Start(min, max, made, start);
      var s := Exec(s0, steps);
      c !in Do(s, CheckStep(silent, more, now)).pool.conns
      <==> c in s.free && c in silent && (now - LastTouch(s0, steps, c, start)) % 0x1_0000_0000_0000_0000 > 90000
  {
    var s0 := Start(min, max, made, start);
    var s := Exec(s0, steps);
    StartKeepsInv(min, max, made, start);
    RunKeepsInv(s0, steps);
    ActivityIsTheHistory(min, max, made, start, steps, c);
    DropsTheIdle(s, silent, more, now, c, LastTouch(s0, steps, c, start));
  }

  lemma DropsTheIdle(s: Sys, silent: set<nat>, made: seq<nat>, now: nat, c: nat, last: nat)
    requires Inv(s) && Enabled(s, CheckStep(silent, made, now)) && c in s.pool.conns
    requires last == s.pool.conns[c].lastActivity
    ensures c !in Do(s, CheckStep(silent, made, now)).pool.conns
      <==> c in s.free && c in silent && (now - last) % 0x1_0000_0000_0000_0000 > 90000
  {
    CheckedThenRefilled(s, silent, made, now, c);
  }

  lemma CheckedThenRefilled(s: Sys, silent: set<nat>, made: seq<nat>, now: nat, c: nat)
    requires Inv(s) && Enabled(s, CheckStep(silent, made, now)) && c in s.pool.conns
    ensures c in Do(s, CheckStep(silent, made, now)).pool.conns <==> !Leaves(s.pool, s.free, silent, now, c)
  {
    var q := CheckedAll(s.pool, s.free, silent, now);
    var kept := Answering(s.pool, s.free, silent, now);
    assert s.free == [] + s.free && kept == [] + kept;
    CheckKeepsInv(s, [], s.free, silent, now);
    NewOnesAreNew(s, q, made, c);
    WalkDrops(s, [], s.free, silent, now, c);
    if c in Refilled(q, made, now).conns {
      RefillRemembers(q, kept, made, now, c);
    }
    if c in q.conns {
      RefillKeepsConns(q, made, now, c);
    }
  }

  lemma {:induction false} RefillKeepsConns(p: Pool, made: seq<nat>, now: nat, c: nat)
    requires p.count <= |p.slots| && c in p.conns
    ensures c in Refilled(p, made, now).conns
    decreases |made|
  {
    if !(p.count >= p.min || p.count == |p.slots| || made == [] || made[0] == 0) {
      RefillKeepsConns(AddFree(p, made[0], now), made[1..], now, c);
    }
  }

  // ----- The peak -------------------------------------------------------------------------

  function InUse(p: Pool): int { p.count - p.freeCount }

  function Greater(x: int, y: int): int { if x > y then x else y }

  lemma {:induction false} RefillUses(p: Pool, made: seq<nat>, now: nat)
    requires p.count <= |p.slots|
    ensures InUse(Refilled(p, made, now)) == InUse(p) && Refilled(p, made, now).peak == p.peak
    decreases |made|
  {
    if !(p.count >= p.min || p.count == |p.slots| || made == [] || made[0] == 0) {
      RefillUses(AddFree(p, made[0], now), made[1..], now);
    }
  }

  lemma {:induction false} CheckUses(p: Pool, list: seq<nat>, silent: set<nat>, now: nat)
    requires p.count <= |p.slots|
    ensures CheckedAll(p, list, silent, now).peak == p.peak
    decreases |list|
  {
    if list != [] {
      CheckUses(Checked(p, list[0], silent, now), list[1..], silent, now);
    }
  }

  lemma StepPeaks(s: Sys, step: Step)
    requires Inv(s) && Enabled(s, step)
    ensures Do(s, step).pool.peak == Greater(s.pool.peak, InUse(Do(s, step).pool))
  {
    StepKeepsInv(s, step);
    match step
    case AcquireStep(made, now) =>
    case ReleaseStep(x, now) => ReleaseUses(s, x, now);
    case BreakStep(x) =>
    case CheckStep(silent, made, now) =>
      var q := CheckedAll(s.pool, s.free, silent, now);
      assert s.free == [] + s.free;
      CheckKeepsInv(s, [], s.free, silent, now);
      CheckUses(s.pool, s.free, silent, now);
      RefillUses(q, made, now);
  }

  lemma ReleaseUses(s: Sys, c: nat, now: nat)
    requires Inv(s) && Enabled(s, ReleaseStep(c, now))
    ensures var p := Do(s, ReleaseStep(c, now)).pool; p.peak == s.pool.peak && InUse(p) <= InUse(s.pool)
  {
    if !s.pool.conns[c].healthy {
      DropKeeps(s.pool, s.free, c);
    }
  }

  function Highest(s: Sys, steps: seq<Step>): int
    requires IsRun(s, steps)
    decreases |steps|
  {
    if steps == [] then InUse(s.pool) else Greater(InUse(s.pool), Highest(Do(s, steps[0]), steps[1..]))
  }

  lemma HighestFrom(s: Sys, steps: seq<Step>)
    requires IsRun(s, steps)
    ensures InUse(s.pool) <= Highest(s, steps)
  {
  }

  lemma {:induction false} RunPeaks(s: Sys, steps: seq<Step>)
    requires Inv(s) && IsRun(s, steps)
    ensures Exec(s, steps).pool.peak == Greater(s.pool.peak, Highest(s, steps))
    decreases |steps|
  {
    if steps != [] {
      StepKeepsInv(s, steps[0]);
      StepPeaks(s, steps[0]);
      HighestFrom(Do(s, steps[0]), steps[1..]);
      RunPeaks(Do(s, steps[0]), steps[1..]);
    }
  }

  lemma {:induction false} FillUses(p: Pool, made: seq<nat>, now: nat)
    requires p.count + Successes(made) <= |p.slots|
    ensures InUse(Filled(p, made, now)) == InUse(p) && Filled(p, made, now).peak == p.peak
    decreases |made|
  {
    if made != [] {
      FillUses(if made[0] == 0 then p else AddFree(p, made[0], now), made[1..], now);
    }
  }

  /** In every run the peak is the greatest number of connections that were ever in use at once. */
  lemma PeakIsTheHighest(min: nat, max: nat, made: seq<nat>, now: nat, steps: seq<Step>)
    requires Created(min, max, made) && IsRun(Start(min, max, made, now), steps)
    ensures Exec(Start(min, max, made, now), steps).pool.peak == Highest(Start(min, max, made, now), steps)
  {
    var s := Start(min, max, made, now);
    StartKeepsInv(min, max, made, now);
    FillUses(Empty(Adjusted(min, max).0, Adjusted(min, max).1), made, now);
    HighestFrom(s, steps);
    RunPeaks(s, steps);
  }
}
