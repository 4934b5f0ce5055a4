/** The connection pool over every run of operations, one at a time,
    and the program's methods in place. */
module ConnectionPoolSafety {
  import opened BitMasks
  import opened ConnectionPoolModel
  import opened Sequences

  /** `free`: the free list from front to back. `broken`: broken connections given back so far. */
  datatype Sys = Sys(pool: Pool, free: seq<nat>, broken: int)

  predicate Balanced(p: Pool, broken: int) {
    && 1 <= p.min <= p.max <= POOL_MAX_SIZE
    && p.count - p.freeCount == p.acquired - (p.released + broken) <= p.peak
    && p.count == p.created - p.destroyed
  }

  predicate Inv(s: Sys) {
    Indexed(s.pool) && Listed(s.pool, s.free) && Balanced(s.pool, s.broken)
  }

  // ----- What each operation keeps ----------------------------------------------------

  lemma LinkedWhere(before: Conns, after: Conns, list: seq<nat>)
    requires Linked(before, list) && 0 !in after
    requires forall c <- list ::
      c in before && c in after && after[c].next == before[c].next && after[c].prev == before[c].prev
    ensures Linked(after, list)
  {
    forall i: nat | i < |list| ensures LinkedAt(after, list, i) {
      assert LinkedAt(before, list, i) && list[i] in list;
    }
  }

  lemma ListIsInPool(conns: Conns, list: seq<nat>, c: nat)
    requires Linked(conns, list) && c in list
    ensures c in conns
  {
    var i :| 0 <= i < |list| && list[i] == c;
    assert LinkedAt(conns, list, i);
  }

  lemma IndexedWhere(p: Pool, q: Pool)
    requires Indexed(p) && OnlyLinks(p.conns, q.conns) && q.slots == p.slots && q.count == p.count && q.max == p.max
    ensures Indexed(q)
  {
    forall c | c in q.conns ensures 0 <= q.conns[c].poolIndex < q.count && q.slots[q.conns[c].poolIndex] == c {
      assert c in p.conns;
    }
  }

  lemma TouchKeeps(p: Pool, free: seq<nat>, c: nat, now: nat)
    requires Indexed(p) && Listed(p, free)
    ensures Indexed(Touched(p, c, now)) && Listed(Touched(p, c, now), free)
  {
    forall x | x in free ensures x in p.conns {
      ListIsInPool(p.conns, free, x);
    }
    LinkedWhere(p.conns, Touched(p, c, now).conns, free);
  }

  lemma AppendKeeps(p: Pool, free: seq<nat>, c: nat, now: nat)
    requires Indexed(p) && Listed(p, free) && p.count < p.max && c != 0 && c !in p.conns
    ensures Indexed(Append(p, c, now)) && Listed(Append(p, c, now), free) && c !in free
  {
    forall x | x in free ensures x in p.conns {
      ListIsInPool(p.conns, free, x);
    }
    LinkedWhere(p.conns, Append(p, c, now).conns, free);
  }

  lemma DropKeeps(p: Pool, free: seq<nat>, c: nat)
    requires Indexed(p) && Listed(p, free) && c in p.conns && c !in free
    ensures Indexed(Dropped(p, c)) && Listed(Dropped(p, c), free)
    ensures var r := Dropped(p, c);
      r == p.(conns := r.conns, slots := r.slots, count := p.count - 1, destroyed := p.destroyed + 1)
      && r.conns.Keys == p.conns.Keys - {c} && OnlyPlaces(p.conns - {c}, r.conns)
  {
    DropIndexes(p, c);
    forall x | x in free ensures x in p.conns && x in p.conns - {c} {
      ListIsInPool(p.conns, free, x);
    }
    LinkedWhere(p.conns, Dropped(p, c).conns, free);
  }

  lemma PopKeeps(p: Pool, free: seq<nat>, now: nat)
    requires Indexed(p) && Listed(p, free) && free != []
    ensures p.freeList == free[0] && p.freeList in p.conns && p.freeList !in free[1..]
    ensures Indexed(Touched(Pop(p), p.freeList, now)) && Listed(Touched(Pop(p), p.freeList, now), free[1..])
  {
    PopLists(p, free);
    IndexedWhere(p, Pop(p));
    TouchKeeps(Pop(p), free[1..], p.freeList, now);
  }

  /** Acquiring a free connection. */
  lemma PopKeepsInv(s: Sys, made: nat, now: nat)
    requires Inv(s) && s.free != []
    ensures var (p, c) := Acquire(s.pool, made, now);
      && Inv(Sys(p, s.free[1..], s.broken)) && c == s.free[0] && c in p.conns && c !in s.free[1..]
      && p.count == s.pool.count && p.acquired == s.pool.acquired + 1
  {
    PopKeeps(s.pool, s.free, now);
  }

  /** Acquiring a new connection. */
  lemma MakeKeepsInv(s: Sys, made: nat, now: nat)
    requires Inv(s) && s.free == [] && s.pool.count < s.pool.max && made != 0 && made !in s.pool.conns
    ensures var (p, c) := Acquire(s.pool, made, now);
      && Inv(Sys(p, [], s.broken)) && c == made && c in p.conns
      && p.count == s.pool.count + 1 && p.acquired == s.pool.acquired + 1
  {
    AppendKeeps(s.pool, s.free, made, now);
  }

  /** Acquire fails exactly when no connection is free and none can be made, and then changes nothing;
      what it gives was free or is new, and is in use from now on. */
  lemma AcquireKeepsInv(s: Sys, made: nat, now: nat)
    requires Inv(s) && (made != 0 ==> made !in s.pool.conns)
    ensures var (p, c) := Acquire(s.pool, made, now);
      var free := if s.free == [] then [] else s.free[1..];
      && Inv(Sys(p, free, s.broken))
      && (c == 0 <==> s.free == [] && (s.pool.count == s.pool.max || made == 0))
      && (c == 0 ==> p == s.pool)
      && (c != 0 ==> c in p.conns && c !in free && p.acquired == s.pool.acquired + 1)
      && (s.free != [] ==> c == s.free[0] && p.count == s.pool.count)
      && (s.free == [] && c != 0 ==> c == made && p.count == s.pool.count + 1)
  {
    if s.free != [] {
      PopKeepsInv(s, made, now);
    } else if s.pool.count < s.pool.max && made != 0 {
      MakeKeepsInv(s, made, now);
    }
  }

  lemma ReleaseKeepsInv(s: Sys, c: nat, now: nat)
    requires Inv(s) && c in s.pool.conns && c !in s.free
    ensures var healthy := s.pool.conns[c].healthy;
      Inv(Sys(Release(s.pool, c, now), if healthy then [c] + s.free else s.free,
              if healthy then s.broken else s.broken + 1))
  {
    var p := s.pool;
    if p.conns[c].healthy {
      PushLists(p, s.free, c);
      IndexedWhere(p, Push(p, c));
      TouchKeeps(Push(p, c), [c] + s.free, c, now);
    } else {
      DropKeeps(p, s.free, c);
    }
  }

  /** A busy or free connection breaks, as its owner or the network decides. */
  function Broken(p: Pool, c: nat): Pool
    requires c in p.conns
  {
    p.(conns := p.conns[c := p.conns[c].(healthy := false)])
  }

  lemma BreakKeepsInv(s: Sys, c: nat)
    requires Inv(s) && c in s.pool.conns
    ensures Inv(s.(pool := Broken(s.pool, c)))
  {
    forall x | x in s.free ensures x in s.pool.conns {
      ListIsInPool(s.pool.conns, s.free, x);
    }
    LinkedWhere(s.pool.conns, Broken(s.pool, c).conns, s.free);
  }

  // ----- Health check -----------------------------------------------------------------

  /** What stays of a list when the stale and silent ones are taken out. */
  function Answering(p: Pool, list: seq<nat>, silent: set<nat>, now: nat): seq<nat>
    decreases |list|
  {
    if list == [] then []
    else
      var rest := Answering(p, list[1..], silent, now);
      if Stale(p, list[0], now) && list[0] in silent then rest else [list[0]] + rest
  }

  lemma {:induction false} AnsweringSame(p: Pool, q: Pool, list: seq<nat>, silent: set<nat>, now: nat)
    requires forall c <- list :: Stale(q, c, now) <==> Stale(p, c, now)
    ensures Answering(q, list, silent, now) == Answering(p, list, silent, now)
    decreases |list|
  {
    if list != [] {
      assert list[0] in list;
      AnsweringSame(p, q, list[1..], silent, now);
    }
  }

  /** Taking out the connection at place i of the free list. */
  lemma RemoveKeepsInv(s: Sys, i: nat)
    requires Inv(s) && i < |s.free|
    ensures s.free[i] in s.pool.conns
    ensures var q := Dropped(Unlink(s.pool, s.free[i]), s.free[i]);
      && Inv(Sys(q, Without(s.free, i), s.broken))
      && q.count == s.pool.count - 1 && q.min == s.pool.min && q.max == s.pool.max
      && q.acquired == s.pool.acquired && q.released == s.pool.released
      && q.destroyed == s.pool.destroyed + 1
      && q.conns.Keys == s.pool.conns.Keys - {s.free[i]}
      && forall c <- q.conns ::
           q.conns[c].lastActivity == s.pool.conns[c].lastActivity && q.conns[c].healthy == s.pool.conns[c].healthy
  {
    var c := s.free[i];
    UnlinkLists(s.pool, s.free, i);
    IndexedWhere(s.pool, Unlink(s.pool, c));
    assert c !in Without(s.free, i);
    DropKeeps(Unlink(s.pool, c), Without(s.free, i), c);
  }

  /** The check of a stale and silent connection takes it out. */
  lemma CheckTakesOut(s: Sys, done: seq<nat>, list: seq<nat>, silent: set<nat>, now: nat)
    requires Inv(s) && s.free == done + list && list != [] && Stale(s.pool, list[0], now) && list[0] in silent
    ensures var t := Checked(s.pool, list[0], silent, now);
      && Inv(Sys(t, done + list[1..], s.broken))
      && t.min == s.pool.min && t.max == s.pool.max && t.count == s.pool.count - 1
      && t.acquired == s.pool.acquired && t.released == s.pool.released
      && t.conns.Keys == s.pool.conns.Keys - {list[0]}
      && (forall c <- t.conns ::
            t.conns[c].lastActivity == s.pool.conns[c].lastActivity && t.conns[c].healthy == s.pool.conns[c].healthy)
      && CheckedAll(s.pool, list, silent, now) == CheckedAll(t, list[1..], silent, now)
      && Answering(s.pool, list, silent, now) == Answering(t, list[1..], silent, now)
  {
    var t := Checked(s.pool, list[0], silent, now);
    assert s.free[|done|] == list[0];
    RemoveKeepsInv(s, |done|);
    assert Without(s.free, |done|) == done + list[1..];
    TailStaysStale(s, t, done, list, now);
    AnsweringSame(s.pool, t, list[1..], silent, now);
  }

  /** The check of any other connection leaves it. */
  lemma CheckLeaves(p: Pool, done: seq<nat>, list: seq<nat>, silent: set<nat>, now: nat)
    requires p.count <= |p.slots| && list != [] && !(Stale(p, list[0], now) && list[0] in silent)
    ensures CheckedAll(p, list, silent, now) == CheckedAll(p, list[1..], silent, now)
    ensures done + Answering(p, list, silent, now) == (done + [list[0]]) + Answering(p, list[1..], silent, now)
    ensures |Answering(p, list, silent, now)| == |Answering(p, list[1..], silent, now)| + 1
  {
  }

  /** Checking a tail of the free list, when the part before it has been checked already. */
  lemma {:induction false} CheckKeepsInv(s: Sys, done: seq<nat>, list: seq<nat>, silent: set<nat>, now: nat)
    requires Inv(s) && s.free == done + list
    ensures var q := CheckedAll(s.pool, list, silent, now);
      var kept := Answering(s.pool, list, silent, now);
      && Inv(Sys(q, done + kept, s.broken))
      && q.min == s.pool.min && q.max == s.pool.max && q.count + |list| == s.pool.count + |kept|
      && q.acquired == s.pool.acquired && q.released == s.pool.released
      && q.conns.Keys <= s.pool.conns.Keys
    decreases |list|
  {
    if list == [] {
      assert done + list == done;
    } else if Stale(s.pool, list[0], now) && list[0] in silent {
      CheckTakesOut(s, done, list, silent, now);
      var t := Checked(s.pool, list[0], silent, now);
      CheckKeepsInv(Sys(t, done + list[1..], s.broken), done, list[1..], silent, now);
    } else {
      CheckLeaves(s.pool, done, list, silent, now);
      assert done + list == (done + [list[0]]) + list[1..];
      CheckKeepsInv(s, done + [list[0]], list[1..], silent, now);
    }
  }

  lemma TailStaysStale(s: Sys, t: Pool, done: seq<nat>, list: seq<nat>, now: nat)
    requires Inv(s) && list != [] && s.free == done + list && t.conns.Keys == s.pool.conns.Keys - {list[0]}
    requires forall c <- t.conns :: t.conns[c].lastActivity == s.pool.conns[c].lastActivity
    ensures forall c <- list[1..] :: Stale(t, c, now) <==> Stale(s.pool, c, now)
  {
    forall c | c in list[1..] ensures Stale(t, c, now) <==> Stale(s.pool, c, now) {
      var i :| 0 <= i < |list| - 1 && list[1..][i] == c;
      assert s.free[|done| + 1 + i] == c && s.free[|done|] == list[0];
    }
  }

  lemma AddFreeKeepsInv(s: Sys, c: nat, now: nat)
    requires Inv(s) && s.pool.count < s.pool.max && c != 0 && c !in s.pool.conns
    ensures Inv(Sys(AddFree(s.pool, c, now), [c] + s.free, s.broken))
    ensures AddFree(s.pool, c, now).conns.Keys == s.pool.conns.Keys + {c}
  {
    AppendKeeps(s.pool, s.free, c, now);
    PushLists(Append(s.pool, c, now), s.free, c);
    IndexedWhere(Append(s.pool, c, now), AddFree(s.pool, c, now));
  }

  /** New addresses: none in use, none twice. */
  predicate FreshOnes(conns: Conns, made: seq<nat>) {
    && (forall i | 0 <= i < |made| :: made[i] != 0 ==> made[i] !in conns)
    && (forall i, j | 0 <= i < j < |made| :: made[i] != 0 ==> made[i] != made[j])
  }

  /** The connections that a refill adds, the last one first. */
  function Added(p: Pool, made: seq<nat>, now: nat): seq<nat>
    requires p.count <= |p.slots|
    decreases |made|
  {
    if p.count >= p.min || p.count == |p.slots| || made == [] || made[0] == 0 then []
    else Added(AddFree(p, made[0], now), made[1..], now) + [made[0]]
  }

  lemma FreshTail(conns: Conns, made: seq<nat>, after: Conns)
    requires FreshOnes(conns, made) && made != [] && after.Keys <= conns.Keys + {made[0]}
    ensures FreshOnes(after, made[1..])
  {
    var rest := made[1..];
    forall i | 0 <= i < |rest| && rest[i] != 0 ensures rest[i] !in after {
      assert rest[i] == made[i + 1] && made[i + 1] !in conns.Keys;
    }
  }

  lemma RefillStep(p: Pool, free: seq<nat>, made: seq<nat>, now: nat)
    requires p.count < p.min && p.count < |p.slots| && made != [] && made[0] != 0
    ensures Refilled(p, made, now) == Refilled(AddFree(p, made[0], now), made[1..], now)
    ensures Added(p, made, now) + free == Added(AddFree(p, made[0], now), made[1..], now) + ([made[0]] + free)
  {
    AppendAssociates(Added(AddFree(p, made[0], now), made[1..], now), [made[0]], free);
  }

  lemma AppendAssociates(a: seq<nat>, b: seq<nat>, c: seq<nat>)
    ensures (a + b) + c == a + (b + c)
  {
  }

  lemma {:induction false} RefillKeepsInv(s: Sys, made: seq<nat>, now: nat)
    requires Inv(s) && FreshOnes(s.pool.conns, made)
    ensures Inv(Sys(Refilled(s.pool, made, now), Added(s.pool, made, now) + s.free, s.broken))
    decreases |made|
  {
    var p := s.pool;
    if p.count >= p.min || made == [] || made[0] == 0 {
      assert Added(p, made, now) + s.free == s.free;
    } else {
      AddFreeKeepsInv(s, made[0], now);
      var t := Sys(AddFree(p, made[0], now), [made[0]] + s.free, s.broken);
      FreshTail(p.conns, made, t.pool.conns);
      RefillKeepsInv(t, made[1..], now);
      RefillStep(p, s.free, made, now);
    }
  }

  /** If connecting never fails, a refill reaches the minimum. */
  lemma {:induction false} RefillReachesMinimum(p: Pool, made: seq<nat>, now: nat)
    requires p.count <= |p.slots| && p.min <= |p.slots| && p.count + |made| >= p.min && 0 !in made
    ensures Refilled(p, made, now).count >= p.min
    decreases |made|
  {
    if p.count < p.min {
      assert made[0] in made;
      RefillReachesMinimum(AddFree(p, made[0], now), made[1..], now);
    }
  }

  function Tried(made: seq<nat>): seq<nat> {
    if made == [] then [] else if made[0] == 0 then Tried(made[1..]) else Tried(made[1..]) + [made[0]]
  }

  lemma {:induction false} FillKeepsInv(s: Sys, made: seq<nat>, now: nat)
    requires Inv(s) && FreshOnes(s.pool.conns, made) && s.pool.count + |made| <= s.pool.max
    ensures Inv(Sys(Filled(s.pool, made, now), Tried(made) + s.free, s.broken))
    decreases |made|
  {
    if made == [] {
      assert Tried(made) + s.free == s.free;
    } else {
      if made[0] == 0 {
        FreshTail(s.pool.conns, made, s.pool.conns);
        FillKeepsInv(s, made[1..], now);
      } else {
        AddFreeKeepsInv(s, made[0], now);
        var t := Sys(AddFree(s.pool, made[0], now), [made[0]] + s.free, s.broken);
        FreshTail(s.pool.conns, made, t.pool.conns);
        FillKeepsInv(t, made[1..], now);
        assert Tried(made) + s.free == Tried(made[1..]) + t.free;
      }
    }
  }

  // ----- Runs -----------------------------------------------------------------------

  datatype Step =
    | AcquireStep(made: nat, now: nat)
    | ReleaseStep(c: nat, now: nat)
    | BreakStep(c: nat)
    | CheckStep(silent: set<nat>, newOnes: seq<nat>, now: nat)

  /** Callers release only what they acquired; addresses of new connections are new. */
  predicate Enabled(s: Sys, step: Step) {
    && s.pool.count <= |s.pool.slots|
    && match step
       case AcquireStep(made, now) => made != 0 ==> made !in s.pool.conns
       case ReleaseStep(c, now) => c in s.pool.conns && c !in s.free
       case BreakStep(c) => c in s.pool.conns
       case CheckStep(silent, made, now) => FreshOnes(s.pool.conns, made)
  }

  function Do(s: Sys, step: Step): Sys
    requires Enabled(s, step)
  {
    match step
    case AcquireStep(made, now) =>
      Sys(Acquire(s.pool, made, now).0, if s.free == [] then [] else s.free[1..], s.broken)
    case ReleaseStep(c, now) =>
      var healthy := s.pool.conns[c].healthy;
      Sys(Release(s.pool, c, now), if healthy then [c] + s.free else s.free, if healthy then s.broken else s.broken + 1)
    case BreakStep(c) => s.(pool := Broken(s.pool, c))
    case CheckStep(silent, made, now) =>
      var q := CheckedAll(s.pool, s.free, silent, now);
      Sys(Refilled(q, made, now), Added(q, made, now) + Answering(s.pool, s.free, silent, now), s.broken)
  }

  lemma CheckStepKeepsInv(s: Sys, silent: set<nat>, made: seq<nat>, now: nat)
    requires Inv(s) && Enabled(s, CheckStep(silent, made, now))
    ensures Inv(Do(s, CheckStep(silent, made, now)))
  {
    assert s.free == [] + s.free;
    CheckKeepsInv(s, [], s.free, silent, now);
    var q := CheckedAll(s.pool, s.free, silent, now);
    var kept := Answering(s.pool, s.free, silent, now);
    assert [] + kept == kept;
    assert FreshOnes(q.conns, made) by {
      forall i | 0 <= i < |made| && made[i] != 0 ensures made[i] !in q.conns {
        assert made[i] !in s.pool.conns.Keys;
      }
    }
    RefillKeepsInv(Sys(q, kept, s.broken), made, now);
  }

  lemma StepKeepsInv(s: Sys, step: Step)
    requires Inv(s) && Enabled(s, step)
    ensures Inv(Do(s, step))
  {
    match step
    case AcquireStep(made, now) => AcquireKeepsInv(s, made, now);
    case ReleaseStep(c, now) => ReleaseKeepsInv(s, c, now);
    case BreakStep(c) => BreakKeepsInv(s, c);
    case CheckStep(silent, made, now) => CheckStepKeepsInv(s, silent, made, now);
  }

  predicate IsRun(s: Sys, steps: seq<Step>)
    decreases |steps|
  {
    steps == [] || (Enabled(s, steps[0]) && IsRun(Do(s, steps[0]), steps[1..]))
  }

  function Exec(s: Sys, steps: seq<Step>): Sys
    requires IsRun(s, steps)
    decreases |steps|
  {
    if steps == [] then s else Exec(Do(s, steps[0]), steps[1..])
  }

  lemma {:induction false} RunKeepsInv(s: Sys, steps: seq<Step>)
    requires Inv(s) && IsRun(s, steps)
    ensures Inv(Exec(s, steps))
    decreases |steps|
  {
    if steps != [] {
      StepKeepsInv(s, steps[0]);
      RunKeepsInv(Do(s, steps[0]), steps[1..]);
    }
  }

  // ----- Main results -----------------------------------------------------------------

  /** A pool as created: adjusted sizes in order, and at most the minimum of first connections. */
  predicate Created(min: nat, max: nat, made: seq<nat>) {
    && Adjusted(min, max).0 <= Adjusted(min, max).1 && |made| == Adjusted(min, max).0
    && FreshOnes(map[], made)
  }

  function Start(min: nat, max: nat, made: seq<nat>, now: nat): Sys
    requires Created(min, max, made)
  {
    Sys(Filled(Empty(Adjusted(min, max).0, Adjusted(min, max).1), made, now), Tried(made), 0)
  }

  lemma StartKeepsInv(min: nat, max: nat, made: seq<nat>, now: nat)
    requires Created(min, max, made)
    ensures Inv(Start(min, max, made, now))
  {
    AdjustedFitsIff(min, max);
    var p := Empty(Adjusted(min, max).0, Adjusted(min, max).1);
    FillKeepsInv(Sys(p, [], 0), made, now);
    assert Tried(made) + [] == Tried(made);
  }

  /** The first connections fit the array whichever of them can be made, exactly for a positive maximum
      and unless both sizes exceed 256. */
  lemma CreationFitsIff(min: nat, max: nat)
    ensures (forall made | |made| == Adjusted(min, max).0 && FreshOnes(map[], made) ::
               Successes(made) <= Adjusted(min, max).1)
      <==> 1 <= max && (min <= POOL_MAX_SIZE || max <= POOL_MAX_SIZE)
  {
    AdjustedFitsIff(min, max);
    var all := seq(Adjusted(min, max).0, i => i + 1);
    NoFailures(all);
    assert FreshOnes(map[], all);
  }

  /** Asked for 300 to 300 connections: the array has 256 places, and the next connection of the 300
      wants place 256. */
  lemma CreationMissesAPlace(now: nat)
    ensures var made := seq(300, i => i + 1);
      && |made| == Adjusted(300, 300).0 && FreshOnes(map[], made) && Successes(made[..256]) == 256
      && var p := Filled(Empty(300, Adjusted(300, 300).1), made[..256], now);
         p.count == |p.slots| == 256 && made[256] != 0
  {
    var made := seq(300, i => i + 1);
    NoFailures(made[..256]);
    FilledCount(Empty(300, 256), made[..256], now);
  }

  /** In every run: never more connections than the maximum, each connection in one place of the array
      and told which, the free list a duplicate-free part of them linked both ways, and the number in
      use is acquires less releases, healthy or broken. */
  lemma PoolStaysSound(min: nat, max: nat, made: seq<nat>, now: nat, steps: seq<Step>)
    requires Created(min, max, made) && IsRun(Start(min, max, made, now), steps)
    ensures var s := Exec(Start(min, max, made, now), steps);
      && s.pool.count <= s.pool.max <= POOL_MAX_SIZE && Indexed(s.pool)
      && Distinct(s.free) && |s.free| == s.pool.freeCount && Linked(s.pool.conns, s.free)
      && s.pool.count - s.pool.freeCount == s.pool.acquired - (s.pool.released + s.broken)
      && s.pool.count == s.pool.created - s.pool.destroyed == |s.pool.conns|
  {
    StartKeepsInv(min, max, made, now);
    RunKeepsInv(Start(min, max, made, now), steps);
    CountIsSize(Exec(Start(min, max, made, now), steps).pool);
  }

  /** The connections are as many as the array says. */
  lemma CountIsSize(p: Pool)
    requires Indexed(p)
    ensures |p.conns| == p.count
  {
    var list := p.slots[..p.count];
    CountDistinct(list);
    assert p.conns.Keys == Members(list) by {
      forall c | c in p.conns ensures c in list {
        assert list[p.conns[c].poolIndex] == c;
      }
    }
    assert |p.conns| == |p.conns.Keys|;
  }

  function Members(list: seq<nat>): (r: set<nat>)
    ensures forall c :: c in r <==> c in list
  {
    if list == [] then {}
    else
      assert list == list[..|list| - 1] + [list[|list| - 1]];
      Members(list[..|list| - 1]) + {list[|list| - 1]}
  }

  lemma {:induction false} CountDistinct(list: seq<nat>)
    requires Distinct(list)
    ensures |Members(list)| == |list|
  {
    if list != [] {
      CountDistinct(list[..|list| - 1]);
    }
  }

  // ----- In place -------------------------------------------------------------------

  class ConnectionPool {
    var conns: Conns
    var slots: seq<nat>
    var count: nat
    var freeList: nat
    var freeCount: int
    const min: nat
    const max: nat
    var acquired: int
    var released: int
    var created: int
    var destroyed: int
    var peak: int

    function View(): Pool
      reads this
    {
      Pool(conns, slots, count, freeList, freeCount, min, max, acquired, released, created, destroyed, peak)
    }

    constructor (minConns: nat, maxConns: nat, made: seq<nat>, now: nat)
      requires |made| == Adjusted(minConns, maxConns).0 && Successes(made) <= Adjusted(minConns, maxConns).1
      ensures View() == Filled(Empty(Adjusted(minConns, maxConns).0, Adjusted(minConns, maxConns).1), made, now)
    {
      var lo, hi := minConns, maxConns;
      if lo > hi {
        lo := hi;
      }
      if hi > POOL_MAX_SIZE {
        hi := POOL_MAX_SIZE;
      }
      if lo < 1 {
        lo := 1;
      }
      min, max := lo, hi;
      conns, slots, count := map[], seq(hi, _ => 0), 0;
      freeList, freeCount := 0, 0;
      acquired, released, created, destroyed, peak := 0, 0, 0, 0, 0;
      new;
      assert View() == Empty(lo, hi);
      Fill(made, now);
    }

    /** The first connections, tried one after the other. */
    method Fill(made: seq<nat>, now: nat)
      requires count + Successes(made) <= |slots|
      modifies this
      ensures View() == Filled(old(View()), made, now)
    {
      ghost var start := View();
      for i := 0 to |made|
        invariant count + Successes(made[i..]) <= |slots|
        invariant Filled(View(), made[i..], now) == Filled(start, made, now)
      {
        assert made[i..][0] == made[i] && made[i..][1..] == made[i + 1..];
        if made[i] != 0 {
          AppendConn(made[i], now);
          PushFree(made[i]);
        }
      }
    }

    method AppendConn(c: nat, now: nat)
      requires count < |slots|
      modifies this`conns, this`slots, this`count, this`created
      ensures View() == Append(old(View()), c, now)
    {
      created := created + 1;
      conns := conns[c := Conn(true, now, count, 0, 0)];
      slots := slots[count := c];
      count := count + 1;
    }

    method PushFree(c: nat)
      modifies this`conns, this`freeList, this`freeCount
      ensures View() == Push(old(View()), c)
    {
      conns := SetNext(conns, c, freeList);
      conns := SetPrev(conns, c, 0);
      if freeList in conns {
        conns := conns[freeList := conns[freeList].(prev := c)];
      }
      freeList := c;
      freeCount := freeCount + 1;
    }

    method CountAcquire()
      modifies this`acquired, this`peak
      ensures View() == Peaked(old(View()).(acquired := old(acquired) + 1))
    {
      acquired := acquired + 1;
      var active := count - freeCount;
      if active > peak {
        peak := active;
      }
    }

    /** `made`: the address of a connection made now, or 0 if connecting fails. */
    method AcquireConn(made: nat, now: nat) returns (c: nat)
      requires count <= |slots|
      modifies this
      ensures (View(), c) == Acquire(old(View()), made, now)
    {
      if freeList in conns {
        c := freeList;
        PopFree();
        conns := Touched(View(), c, now).conns;
        CountAcquire();
        return;
      }
      if count < max && count < |slots| {
        if made != 0 {
          AppendConn(made, now);
          CountAcquire();
          return made;
        }
        return 0;
      }
      return 0;
    }

    method PopFree()
      requires freeList in conns
      modifies this`conns, this`freeList, this`freeCount
      ensures View() == Pop(old(View()))
    {
      var c := freeList;
      freeList := conns[c].next;
      if freeList in conns {
        conns := conns[freeList := conns[freeList].(prev := 0)];
      }
      conns := SetNext(conns, c, 0);
      conns := SetPrev(conns, c, 0);
      freeCount := freeCount - 1;
    }

    method ReleaseConn(c: nat, now: nat)
      requires c in conns && count <= |slots|
      modifies this
      ensures View() == Release(old(View()), c, now)
    {
      if !conns[c].healthy {
        DropConn(c);
        return;
      }
      PushFree(c);
      conns := Touched(View(), c, now).conns;
      released := released + 1;
    }

    /** Find the connection in the array, close the gap, and destroy it. */
    method DropConn(c: nat)
      requires count <= |slots|
      modifies this`conns, this`slots, this`count, this`destroyed
      ensures View() == Dropped(old(View()), c)
    {
      var i := 0;
      while i < count && slots[i] != c
        invariant i <= count && SlotOf(View(), c, i) == SlotOf(View(), c, 0) && View() == old(View())
      {
        i := i + 1;
      }
      if i < count {
        CloseGap(i);
        count := count - 1;
      }
      destroyed := destroyed + 1;
      conns := conns - {c};
    }

    method CloseGap(i: nat)
      requires i < count <= |slots|
      modifies this`conns, this`slots
      ensures View() == ShiftFrom(old(View()), i)
    {
      var j := i;
      while j < count - 1
        invariant i <= j < count <= |slots| && ShiftFrom(View(), j) == ShiftFrom(old(View()), i)
      {
        slots := slots[j := slots[j + 1]];
        conns := SetIndex(conns, slots[j], j);
        j := j + 1;
      }
    }

    method UnlinkFree(c: nat)
      requires c in conns
      modifies this`conns, this`freeList, this`freeCount
      ensures View() == Unlink(old(View()), c)
    {
      var next, prev := conns[c].next, conns[c].prev;
      conns := SetNext(conns, prev, next);
      conns := SetPrev(conns, next, prev);
      if c == freeList {
        freeList := next;
      }
      freeCount := freeCount - 1;
    }

    /** Walk the free list, remembering the next connection before one may be taken out; then make new
        connections up to the minimum. */
    method CheckHealth(silent: set<nat>, made: seq<nat>, now: nat, ghost free: seq<nat>, ghost broken: int)
      returns (removed: nat)
      requires Inv(Sys(View(), free, broken)) && FreshOnes(conns, made)
      modifies this
      ensures View() == HealthCheck(old(View()), free, silent, made, now)
      ensures removed == |free| - |Answering(old(View()), free, silent, now)|
    {
      assert free == [] + free;
      CheckKeepsInv(Sys(View(), free, broken), [], free, silent, now);
      removed := WalkFree(silent, now, free, broken);
      Refill(made, now);
    }

    method Refill(made: seq<nat>, now: nat)
      requires count <= |slots|
      modifies this
      ensures View() == Refilled(old(View()), made, now)
    {
      var i := 0;
      while count < min && count < |slots| && i < |made| && made[i] != 0
        invariant i <= |made| && count <= |slots|
        invariant Refilled(View(), made[i..], now) == Refilled(old(View()), made, now)
        decreases |made| - i
      {
        assert made[i..][0] == made[i] && made[i..][1..] == made[i + 1..];
        AppendConn(made[i], now);
        PushFree(made[i]);
        i := i + 1;
      }
    }

    method CheckOne(c: nat, silent: set<nat>, now: nat) returns (gone: bool)
      requires count <= |slots|
      modifies this
      ensures View() == Checked(old(View()), c, silent, now) && (gone <==> Stale(old(View()), c, now) && c in silent)
    {
      gone := c in conns && (now - conns[c].lastActivity) % WORD > STALE_AFTER && c in silent;
      if gone {
        UnlinkFree(c);
        DropConn(c);
      }
    }

    method WalkFree(silent: set<nat>, now: nat, ghost free: seq<nat>, ghost broken: int) returns (removed: nat)
      requires Inv(Sys(View(), free, broken))
      modifies this
      ensures View() == CheckedAll(old(View()), free, silent, now)
      ensures count == old(count) - removed && count <= |slots|
    {
      removed := 0;
      var c := freeList;
      ghost var done: seq<nat>, rest := [], free;
      assert free == done + rest;
      while c in conns
        invariant Inv(Sys(View(), done + rest, broken)) && c == At(rest, 0)
        invariant CheckedAll(View(), rest, silent, now) == CheckedAll(old(View()), free, silent, now)
        invariant count == old(count) - removed
        decreases |rest|
      {
        WalkStep(Sys(View(), done + rest, broken), done, rest, silent, now);
        var next := conns[c].next;
        var gone := CheckOne(c, silent, now);
        if gone {
          removed := removed + 1;
        } else {
          done := done + [c];
        }
        rest := rest[1..];
        c := next;
      }
      WalkEnds(Sys(View(), done + rest, broken), done, rest);
    }
  }

  lemma WalkStep(s: Sys, done: seq<nat>, rest: seq<nat>, silent: set<nat>, now: nat)
    requires Inv(s) && s.free == done + rest && At(rest, 0) in s.pool.conns
    ensures rest != [] && rest[0] in s.pool.conns && s.pool.conns[rest[0]].next == At(rest[1..], 0)
    ensures var q := Checked(s.pool, rest[0], silent, now);
      if Stale(s.pool, rest[0], now) && rest[0] in silent
      then Inv(Sys(q, done + rest[1..], s.broken)) && q.count == s.pool.count - 1
      else q == s.pool && (done + [rest[0]]) + rest[1..] == s.free
  {
    var c := rest[0];
    assert s.free[|done|] == c && LinkedAt(s.pool.conns, s.free, |done|);
    assert At(s.free, |done| + 1) == At(rest[1..], 0);
    if Stale(s.pool, c, now) && c in silent {
      RemoveKeepsInv(s, |done|);
      assert Without(s.free, |done|) == done + rest[1..];
    }
  }

  lemma WalkEnds(s: Sys, done: seq<nat>, rest: seq<nat>)
    requires Inv(s) && s.free == done + rest
    ensures rest != [] ==> At(rest, 0) in s.pool.conns
  {
    if rest != [] {
      assert s.free[|done|] == rest[0] && LinkedAt(s.pool.conns, s.free, |done|);
    }
  }
}
