/** Several threads at once: what the gaps between checking and appending allow. */
module ConnectionPoolRace {

  // Two operations look at the count under the lock, drop the lock to connect, and take it again to
  // append with no new test: acquire below the maximum, and the health check below the minimum.
  // `pending` threads are in the gap of acquire, `refilling` ones in the gap of the health check;
  // at most `callers` threads run acquire at a time and at most `refillers` the health check.

  datatype Limits = Limits(max: nat, min: nat, callers: nat, refillers: nat)

  datatype Race = Race(count: nat, free: nat, pending: nat, refilling: nat)

  datatype Step = Take | Check | Append | GiveUp | RefillCheck | RefillAppend | RefillGiveUp | Release | Leave | Remove

  /** Only with no free connection does acquire look at the count. A connection in use is given back or,
      broken, leaves; the health check removes free ones. */
  predicate Enabled(s: Race, step: Step, l: Limits) {
    match step
    case Take => s.free > 0
    case Check => s.free == 0 && s.count < l.max && s.pending < l.callers
    case Append => s.pending > 0
    case GiveUp => s.pending > 0
    case RefillCheck => s.count < l.min && s.refilling < l.refillers
    case RefillAppend => s.refilling > 0
    case RefillGiveUp => s.refilling > 0
    case Release => s.free < s.count
    case Leave => s.free < s.count
    case Remove => s.free > 0 && s.count > 0
  }

  function Do(s: Race, step: Step, l: Limits): Race
    requires Enabled(s, step, l)
  {
    match step
    case Take => s.(free := s.free - 1)
    case Check => s.(pending := s.pending + 1)
    case Append => s.(count := s.count + 1, pending := s.pending - 1)
    case GiveUp => s.(pending := s.pending - 1)
    case RefillCheck => s.(refilling := s.refilling + 1)
    case RefillAppend => s.(count := s.count + 1, free := s.free + 1, refilling := s.refilling - 1)
    case RefillGiveUp => s.(refilling := s.refilling - 1)
    case Release => s.(free := s.free + 1)
    case Leave => s.(count := s.count - 1)
    case Remove => s.(count := s.count - 1, free := s.free - 1)
  }

  /** The steps can be taken one after the other from s and end in t. */
  predicate Runs(s: Race, steps: seq<Step>, t: Race, l: Limits)
    decreases |steps|
  {
    if steps == [] then s == t
    else Enabled(s, steps[0], l) && Runs(Do(s, steps[0], l), steps[1..], t, l)
  }

  // ----- How high the count can go --------------------------------------------------

  function Max(a: int, b: int): int {
    if a > b then a else b
  }

  /** How many threads can pass each check at all. */
  function Acquirers(l: Limits): nat {
    if l.max == 0 then 0 else l.callers
  }

  function Refillers(l: Limits): nat {
    if l.min == 0 then 0 else l.refillers
  }

  /** The last check passes one below the highest count that is tested for; then all append. */
  function Peak(l: Limits): int {
    var tested := Max(if Acquirers(l) > 0 then l.max else 0, if Refillers(l) > 0 then l.min else 0);
    Max(l.max, tested - 1 + Acquirers(l) + Refillers(l))
  }

  ghost predicate Bounded(s: Race, l: Limits) {
    && s.pending <= Acquirers(l) && s.refilling <= Refillers(l)
    && s.count + s.pending + s.refilling <= Peak(l)
  }

  lemma {:induction false} RunStaysBounded(s: Race, steps: seq<Step>, t: Race, l: Limits)
    requires Bounded(s, l) && Runs(s, steps, t, l)
    ensures Bounded(t, l)
    decreases |steps|
  {
    if steps != [] {
      RunStaysBounded(Do(s, steps[0], l), steps[1..], t, l);
    }
  }

  // ----- A run that goes that high --------------------------------------------------

  lemma {:induction false} Chain(s: Race, a: seq<Step>, t: Race, b: seq<Step>, u: Race, l: Limits)
    requires Runs(s, a, t, l) && Runs(t, b, u, l)
    ensures Runs(s, a + b, u, l)
    decreases |a|
  {
    if a == [] {
      assert a + b == b;
    } else {
      assert (a + b)[1..] == a[1..] + b;
      Chain(Do(s, a[0], l), a[1..], t, b, u, l);
    }
  }

  function Times(steps: seq<Step>, n: nat): seq<Step> {
    if n == 0 then [] else steps + Times(steps, n - 1)
  }

  lemma {:induction false} AllCheck(s: Race, n: nat, l: Limits)
    requires n > 0 ==> s.free == 0 && s.count < l.max && s.pending + n <= l.callers
    ensures Runs(s, Times([Check], n), s.(pending := s.pending + n), l)
    decreases n
  {
    if n > 0 {
      var t := s.(pending := s.pending + 1);
      AllCheck(t, n - 1, l);
      assert Runs(s, [Check], t, l);
      Chain(s, [Check], t, Times([Check], n - 1), s.(pending := s.pending + n), l);
    }
  }

  lemma {:induction false} AllRefillCheck(s: Race, n: nat, l: Limits)
    requires n > 0 ==> s.count < l.min && s.refilling + n <= l.refillers
    ensures Runs(s, Times([RefillCheck], n), s.(refilling := s.refilling + n), l)
    decreases n
  {
    if n > 0 {
      var t := s.(refilling := s.refilling + 1);
      AllRefillCheck(t, n - 1, l);
      assert Runs(s, [RefillCheck], t, l);
      Chain(s, [RefillCheck], t, Times([RefillCheck], n - 1), s.(refilling := s.refilling + n), l);
    }
  }

  lemma {:induction false} AllAppend(s: Race, n: nat, l: Limits)
    requires n <= s.pending
    ensures Runs(s, Times([Append], n), s.(count := s.count + n, pending := s.pending - n), l)
    decreases n
  {
    if n > 0 {
      var t := s.(count := s.count + 1, pending := s.pending - 1);
      AllAppend(t, n - 1, l);
      assert Runs(s, [Append], t, l);
      Chain(s, [Append], t, Times([Append], n - 1), s.(count := s.count + n, pending := s.pending - n), l);
    }
  }

  lemma {:induction false} AllRefillAppend(s: Race, n: nat, l: Limits)
    requires n <= s.refilling
    ensures Runs(s, Times([RefillAppend], n),
                 s.(count := s.count + n, free := s.free + n, refilling := s.refilling - n), l)
    decreases n
  {
    if n > 0 {
      var t := s.(count := s.count + 1, free := s.free + 1, refilling := s.refilling - 1);
      AllRefillAppend(t, n - 1, l);
      assert Runs(s, [RefillAppend], t, l);
      Chain(s, [RefillAppend], t, Times([RefillAppend], n - 1),
            s.(count := s.count + n, free := s.free + n, refilling := s.refilling - n), l);
    }
  }

  /** Acquires, one at a time, fill the pool. */
  lemma {:induction false} AcquiresFill(s: Race, n: nat, l: Limits)
    requires s.free == 0 && s.pending < l.callers && s.count + n <= l.max
    ensures Runs(s, Times([Check, Append], n), s.(count := s.count + n), l)
    decreases n
  {
    if n > 0 {
      var t := s.(count := s.count + 1);
      AcquiresFill(t, n - 1, l);
      assert Runs(s.(pending := s.pending + 1), [Check, Append][1..], t, l);
      assert Runs(s, [Check, Append], t, l);
      Chain(s, [Check, Append], t, Times([Check, Append], n - 1), s.(count := s.count + n), l);
    }
  }

  /** A health check fills the pool up to the minimum. */
  lemma {:induction false} RefillsFill(s: Race, n: nat, l: Limits)
    requires s.refilling < l.refillers && s.count + n <= l.min
    ensures Runs(s, Times([RefillCheck, RefillAppend], n), s.(count := s.count + n, free := s.free + n), l)
    decreases n
  {
    if n > 0 {
      var t := s.(count := s.count + 1, free := s.free + 1);
      RefillsFill(t, n - 1, l);
      assert Runs(s.(refilling := s.refilling + 1), [RefillCheck, RefillAppend][1..], t, l);
      assert Runs(s, [RefillCheck, RefillAppend], t, l);
      Chain(s, [RefillCheck, RefillAppend], t, Times([RefillCheck, RefillAppend], n - 1),
            s.(count := s.count + n, free := s.free + n), l);
    }
  }

  /** All threads in a gap append. */
  lemma AllLand(s: Race, l: Limits) returns (steps: seq<Step>)
    ensures Runs(s, steps, Race(s.count + s.pending + s.refilling, s.free + s.refilling, 0, 0), l)
  {
    var t := s.(count := s.count + s.pending, pending := 0);
    AllAppend(s, s.pending, l);
    AllRefillAppend(t, s.refilling, l);
    steps := Times([Append], s.pending) + Times([RefillAppend], s.refilling);
    Chain(s, Times([Append], s.pending), t, Times([RefillAppend], s.refilling),
          Race(t.count + s.refilling, t.free + s.refilling, 0, 0), l);
  }

  const EMPTY := Race(0, 0, 0, 0)

  /** Health checks pass their test first, acquires fill the pool, the last ones all test at once. */
  lemma AcquiresLast(l: Limits) returns (steps: seq<Step>, t: Race)
    requires l.max > 0 && l.callers > 0
    ensures Runs(EMPTY, steps, t, l) && t.count == l.max - 1 + l.callers + Refillers(l)
  {
    var s1 := EMPTY.(refilling := Refillers(l));
    AllRefillCheck(EMPTY, Refillers(l), l);
    var s2 := s1.(count := l.max - 1);
    AcquiresFill(s1, l.max - 1, l);
    var s3 := s2.(pending := l.callers);
    AllCheck(s2, l.callers, l);
    var landing := AllLand(s3, l);
    t := Race(s3.count + s3.pending + s3.refilling, s3.refilling, 0, 0);
    Chain(s2, Times([Check], l.callers), s3, landing, t, l);
    Chain(s1, Times([Check, Append], l.max - 1), s2, Times([Check], l.callers) + landing, t, l);
    steps := Times([RefillCheck], Refillers(l)) + (Times([Check, Append], l.max - 1) + (Times([Check], l.callers) + landing));
    Chain(EMPTY, Times([RefillCheck], Refillers(l)), s1,
          Times([Check, Append], l.max - 1) + (Times([Check], l.callers) + landing), t, l);
  }

  /** Acquires pass their test first, health checks fill the pool, the last ones all test at once. */
  lemma RefillsLast(l: Limits) returns (steps: seq<Step>, t: Race)
    requires l.min > 0 && l.refillers > 0
    ensures Runs(EMPTY, steps, t, l) && t.count == l.min - 1 + Acquirers(l) + l.refillers
  {
    var s1 := EMPTY.(pending := Acquirers(l));
    AllCheck(EMPTY, Acquirers(l), l);
    var s2 := s1.(count := l.min - 1, free := l.min - 1);
    RefillsFill(s1, l.min - 1, l);
    var s3 := s2.(refilling := l.refillers);
    AllRefillCheck(s2, l.refillers, l);
    var landing := AllLand(s3, l);
    t := Race(s3.count + s3.pending + s3.refilling, s3.free + s3.refilling, 0, 0);
    Chain(s2, Times([RefillCheck], l.refillers), s3, landing, t, l);
    Chain(s1, Times([RefillCheck, RefillAppend], l.min - 1), s2, Times([RefillCheck], l.refillers) + landing, t, l);
    steps := Times([Check], Acquirers(l))
           + (Times([RefillCheck, RefillAppend], l.min - 1) + (Times([RefillCheck], l.refillers) + landing));
    Chain(EMPTY, Times([Check], Acquirers(l)), s1,
          Times([RefillCheck, RefillAppend], l.min - 1) + (Times([RefillCheck], l.refillers) + landing), t, l);
  }

  // ----- Main results ---------------------------------------------------------------

  /** No thread is in a gap, and the count is within the maximum. */
  predicate Quiet(s: Race, l: Limits) {
    s.pending == 0 && s.refilling == 0 && s.count <= l.max
  }

  /** The greatest count that any schedule reaches is the peak: none goes above it, and where the peak
      is above the maximum a schedule from the empty pool gets there. */
  lemma PeakIsExact(l: Limits)
    ensures forall s, steps, t :: Quiet(s, l) && Runs(s, steps, t, l) ==> t.count <= Peak(l)
    ensures Peak(l) > l.max ==> exists steps, t :: Runs(EMPTY, steps, t, l) && t.count == Peak(l)
  {
    forall s, steps, t | Quiet(s, l) && Runs(s, steps, t, l) ensures t.count <= Peak(l) {
      RunStaysBounded(s, steps, t, l);
    }
    if Peak(l) > l.max {
      if Acquirers(l) > 0 && (Refillers(l) == 0 || l.min <= l.max) {
        var steps, t := AcquiresLast(l);
        assert t.count == Peak(l);
      } else {
        var steps, t := RefillsLast(l);
        assert t.count == Peak(l);
      }
    }
  }

  /** From every quiet state within the maximum, no schedule passes it. */
  ghost predicate AlwaysWithin(l: Limits) {
    forall s, steps, t :: Quiet(s, l) && Runs(s, steps, t, l) ==> t.count <= l.max
  }

  /** The maximum is kept by every schedule exactly when either no health check can refill and at most
      one thread acquires, or none can acquire and the refilling threads fit above the minimum. */
  lemma MaximumKeptIff(l: Limits)
    ensures AlwaysWithin(l) <==>
      if l.refillers == 0 || l.min == 0 then l.max == 0 || l.callers <= 1
      else (l.max == 0 || l.callers == 0) && l.min - 1 + l.refillers <= l.max
  {
    PeakIsExact(l);
    assert Quiet(EMPTY, l);
    assert AlwaysWithin(l) <==> Peak(l) <= l.max;
  }

  /** One acquiring thread and one health check are enough: the health check tests just below the
      minimum, acquires fill the pool, the health check appends one more. */
  lemma HealthCheckOverfills(max: nat, min: nat)
    requires 1 <= min <= max
    ensures var l := Limits(max, min, 1, 1);
      Runs(Race(min - 1, 0, 0, 0), [RefillCheck] + (Times([Check, Append], max - (min - 1)) + [RefillAppend]),
           Race(max + 1, 1, 0, 0), l)
  {
    var l := Limits(max, min, 1, 1);
    var s, t := Race(min - 1, 0, 0, 1), Race(max, 0, 0, 1);
    AcquiresFill(s, max - (min - 1), l);
    assert Runs(Race(min - 1, 0, 0, 0), [RefillCheck], s, l);
    assert Runs(t, [RefillAppend], Race(max + 1, 1, 0, 0), l);
    Chain(s, Times([Check, Append], max - (min - 1)), t, [RefillAppend], Race(max + 1, 1, 0, 0), l);
    Chain(Race(min - 1, 0, 0, 0), [RefillCheck], s, Times([Check, Append], max - (min - 1)) + [RefillAppend],
          Race(max + 1, 1, 0, 0), l);
  }
}
