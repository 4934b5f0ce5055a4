/** Waiting for a lock: attempts with other transactions' steps in between. */
module LockWaiting {
  import opened LockTableModel
  import opened LockSafety

  // A blocked caller lets go of the table, sleeps, and tries again until its time is up.
  // `others[i]` is what happens during its i-th sleep; after the last one it tries once more.

  predicate CanWait(l: Locks, txn: nat, name: Name, mode: Mode, others: seq<seq<Step>>)
    requires Shape(l)
    decreases |others|
  {
    Acquire(l, txn, name, mode).1 == Blocked && others != [] ==>
      IsRun(l, others[0]) && CanWait(Exec(l, others[0]), txn, name, mode, others[1..])
  }

  /** Table and outcome when the caller is granted its lock or gives up. */
  function AcquireWaiting(l: Locks, txn: nat, name: Name, mode: Mode, others: seq<seq<Step>>): (r: (Locks, Outcome))
    requires Shape(l) && CanWait(l, txn, name, mode, others)
    ensures Shape(r.0)
    decreases |others|
  {
    var (l', outcome) := Acquire(l, txn, name, mode);
    if outcome == Blocked && others != [] then AcquireWaiting(Exec(l, others[0]), txn, name, mode, others[1..])
    else (Do(l, Request(txn, name, mode)), outcome)
  }

  /** How many sleeps it takes. */
  function Sleeps(l: Locks, txn: nat, name: Name, mode: Mode, others: seq<seq<Step>>): (n: nat)
    requires Shape(l) && CanWait(l, txn, name, mode, others)
    ensures n <= |others|
    decreases |others|
  {
    if Acquire(l, txn, name, mode).1 == Blocked && others != []
    then 1 + Sleeps(Exec(l, others[0]), txn, name, mode, others[1..]) else 0
  }

  function Flat(others: seq<seq<Step>>): seq<Step> {
    if others == [] then [] else others[0] + Flat(others[1..])
  }

  lemma {:induction false} RunsCompose(l: Locks, a: seq<Step>, b: seq<Step>)
    requires Shape(l) && IsRun(l, a) && IsRun(Exec(l, a), b)
    ensures IsRun(l, a + b) && Exec(l, a + b) == Exec(Exec(l, a), b)
    decreases |a|
  {
    if a == [] {
      assert a + b == b;
    } else {
      assert (a + b)[1..] == a[1..] + b;
      RunsCompose(Do(l, a[0]), a[1..], b);
    }
  }

  lemma BlockedChangesNothing(l: Locks, txn: nat, name: Name, mode: Mode)
    requires Shape(l)
    ensures Acquire(l, txn, name, mode).1 == Blocked ==> Acquire(l, txn, name, mode).0 == l
  {
  }

  /** The first sleep and the rest. */
  lemma FlatFront(others: seq<seq<Step>>, n: nat, request: seq<Step>)
    requires 0 < n <= |others|
    ensures Flat(others[..n]) + request == others[0] + (Flat(others[1..][..n - 1]) + request)
  {
    assert others[..n][0] == others[0] && others[..n][1..] == others[1..][..n - 1];
  }

  /** Waiting is a run: the others' steps up to the last sleep, then one request. So what holds of every
      run of single requests holds with waiting callers too. */
  lemma {:induction false} WaitingIsARun(l: Locks, txn: nat, name: Name, mode: Mode, others: seq<seq<Step>>)
    requires Shape(l) && CanWait(l, txn, name, mode, others)
    ensures var n := Sleeps(l, txn, name, mode, others);
      var steps := Flat(others[..n]) + [Request(txn, name, mode)];
      IsRun(l, steps) && Exec(l, steps) == AcquireWaiting(l, txn, name, mode, others).0
    decreases |others|
  {
    var request := [Request(txn, name, mode)];
    var n := Sleeps(l, txn, name, mode, others);
    if n == 0 {
      assert Flat(others[..0]) + request == request && request[1..] == [];
    } else {
      WaitingIsARun(Exec(l, others[0]), txn, name, mode, others[1..]);
      FlatFront(others, n, request);
      RunsCompose(l, others[0], Flat(others[1..][..n - 1]) + request);
    }
  }

  /** What the caller finds at its i-th attempt. */
  function AttemptAt(l: Locks, txn: nat, name: Name, mode: Mode, others: seq<seq<Step>>, i: nat): Outcome
    requires Shape(l) && CanWait(l, txn, name, mode, others) && i <= Sleeps(l, txn, name, mode, others)
    decreases i
  {
    if i == 0 then Acquire(l, txn, name, mode).1
    else AttemptAt(Exec(l, others[0]), txn, name, mode, others[1..], i - 1)
  }

  /** The caller times out exactly when every attempt is blocked; then it leaves the table as the others
      made it. Otherwise the first attempt that is not blocked decides. */
  lemma {:induction false} WaitingTimesOutIff(l: Locks, txn: nat, name: Name, mode: Mode, others: seq<seq<Step>>)
    requires Shape(l) && CanWait(l, txn, name, mode, others)
    ensures var n := Sleeps(l, txn, name, mode, others);
      var (l', outcome) := AcquireWaiting(l, txn, name, mode, others);
      && outcome == AttemptAt(l, txn, name, mode, others, n)
      && (forall i | 0 <= i < n :: AttemptAt(l, txn, name, mode, others, i) == Blocked)
      && (outcome == Blocked ==> n == |others| && IsRun(l, Flat(others)) && l' == Exec(l, Flat(others)))
    decreases |others|
  {
    BlockedChangesNothing(l, txn, name, mode);
    if Sleeps(l, txn, name, mode, others) > 0 {
      var l1 := Exec(l, others[0]);
      WaitingTimesOutIff(l1, txn, name, mode, others[1..]);
      var n := Sleeps(l, txn, name, mode, others);
      forall i | 0 <= i < n ensures AttemptAt(l, txn, name, mode, others, i) == Blocked {
        assert i > 0 ==> AttemptAt(l1, txn, name, mode, others[1..], i - 1) == Blocked;
      }
      if AcquireWaiting(l, txn, name, mode, others).1 == Blocked {
        RunsCompose(l, others[0], Flat(others[1..]));
      }
    }
  }

  lemma {:induction false} FlatRequests(others: seq<seq<Step>>, modes: set<Mode>)
    requires forall i | 0 <= i < |others| :: Requests(others[i], modes)
    ensures Requests(Flat(others), modes)
    decreases |others|
  {
    if others != [] {
      FlatRequests(others[1..], modes);
    }
  }

  /** From every reachable table, with all requests in a closed set of modes, a caller that waits leaves a
      table in which locks of different holders are compatible and every list points at exactly its
      entries, whether it was granted or timed out. */
  lemma WaitingIsSafe(before: seq<Step>, txn: nat, name: Name, mode: Mode, others: seq<seq<Step>>, modes: set<Mode>)
    requires IsRun(Empty(), before) && CanWait(Exec(Empty(), before), txn, name, mode, others)
    requires Closed(modes) && mode in modes && Requests(before, modes)
    requires forall i | 0 <= i < |others| :: Requests(others[i], modes)
    ensures var l := AcquireWaiting(Exec(Empty(), before), txn, name, mode, others).0;
      Safe(l) && forall t <- l.held :: ListExact(l, t)
  {
    var l := Exec(Empty(), before);
    var n := Sleeps(l, txn, name, mode, others);
    var steps := Flat(others[..n]) + [Request(txn, name, mode)];
    WaitingIsARun(l, txn, name, mode, others);
    RunsCompose(Empty(), before, steps);
    FlatRequests(others[..n], modes);
    ClosedIsSafe(before + steps, modes);
    RunKeepsHeld(Empty(), before + steps);
  }
}
