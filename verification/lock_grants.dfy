/** What the answer to a lock request says about the table. */
module LockGrants {
  import opened LockTableModel
  import opened LockSafety
  import opened LockWaiting

  /** The transaction has an entry on the name of at least the rank asked for. */
  ghost predicate Sufficient(l: Locks, txn: nat, name: Name, mode: Mode)
    requires Shape(l)
  {
    exists e: Entry :: InTable(l.chains, e) && e.holder == txn && e.resource == name && Rank(e.mode) >= Rank(mode)
  }

  /** The first entry of the name is incompatible with the mode and not an own one of sufficient rank. */
  predicate Stopped(l: Locks, txn: nat, name: Name, mode: Mode)
    requires Shape(l)
  {
    exists k | 0 <= k < |l.chains[Bucket(name)]| ::
      var first := l.chains[Bucket(name)][k];
      && first.resource == name && (forall i | 0 <= i < k :: l.chains[Bucket(name)][i].resource != name)
      && !Compatible(first.mode, mode) && !(first.holder == txn && Rank(first.mode) >= Rank(mode))
  }

  lemma StoppedByFirst(l: Locks, txn: nat, name: Name, mode: Mode)
    requires Shape(l)
    ensures var chain := l.chains[Bucket(name)]; var k := FirstFor(chain, name);
      Stopped(l, txn, name, mode)
      <==> k < |chain| && !Compatible(chain[k].mode, mode)
           && !(chain[k].holder == txn && Rank(chain[k].mode) >= Rank(mode))
  {
  }

  lemma EntryIsSufficient(l: Locks, txn: nat, name: Name, mode: Mode, i: nat)
    requires Shape(l) && i < |l.chains[Bucket(name)]|
    requires var e := l.chains[Bucket(name)][i]; e.holder == txn && e.resource == name && Rank(e.mode) >= Rank(mode)
    ensures Sufficient(l, txn, name, mode)
  {
    assert InTable(l.chains, l.chains[Bucket(name)][i]);
  }

  /** A granted lock is there. */
  lemma GrantedIsThere(l: Locks, txn: nat, name: Name, mode: Mode)
    requires Shape(l) && Acquire(l, txn, name, mode).1 == Granted
    ensures Shape(Acquire(l, txn, name, mode).0) && Sufficient(Acquire(l, txn, name, mode).0, txn, name, mode)
  {
    var chain := l.chains[Bucket(name)];
    var k := FirstFor(chain, name);
    var l' := Acquire(l, txn, name, mode).0;
    if k == |chain| {
      EntryIsSufficient(l', txn, name, mode, 0);
    } else if chain[k].holder == txn && (Rank(chain[k].mode) >= Rank(mode) || Compatible(chain[k].mode, mode)) {
      EntryIsSufficient(l', txn, name, mode, k);
    } else {
      EntryIsSufficient(l', txn, name, mode, |chain|);
    }
  }

  /** Which answer a request gets, in every table, and that a granted lock is in the table afterwards. */
  lemma AnswerIsExact(l: Locks, txn: nat, name: Name, mode: Mode)
    requires Shape(l)
    ensures var (l', outcome) := Acquire(l, txn, name, mode);
      && (outcome == NoTransaction <==> txn !in l.held)
      && (outcome == Blocked <==> txn in l.held && Stopped(l, txn, name, mode))
      && (outcome != Granted ==> l' == l)
      && (outcome == Granted ==> Sufficient(l', txn, name, mode))
  {
    StoppedByFirst(l, txn, name, mode);
    if Acquire(l, txn, name, mode).1 == Granted {
      GrantedIsThere(l, txn, name, mode);
    }
  }

  // ----- What a request changes ---------------------------------------------------------

  /** Only entries of this transaction on this name come and go; one that comes has the mode asked for, and
      one that goes is raised to it at the same address. */
  ghost predicate OnlyGrants(l: Locks, l': Locks, txn: nat, name: Name, mode: Mode)
    requires Shape(l) && Shape(l')
  {
    && (forall e: Entry | InTable(l'.chains, e) && !InTable(l.chains, e) ::
          e.holder == txn && e.resource == name && e.mode == mode)
    && (forall e: Entry | InTable(l.chains, e) && !InTable(l'.chains, e) ::
          e.holder == txn && e.resource == name && InTable(l'.chains, Raised(e, mode)))
  }

  lemma RequestOnlyGrants(l: Locks, txn: nat, name: Name, mode: Mode)
    requires HeldOk(l)
    ensures var l' := Acquire(l, txn, name, mode).0; Shape(l') && OnlyGrants(l, l', txn, name, mode)
  {
    var chain := l.chains[Bucket(name)];
    var k := FirstFor(chain, name);
    var e := Entry(l.nextSerial, name, mode, txn);
    if txn in l.held {
      if k == |chain| {
        EntryAdded(l.chains, e, [e] + chain);
      } else if chain[k].holder == txn && (Rank(chain[k].mode) >= Rank(mode) || Compatible(chain[k].mode, mode)) {
        if Rank(chain[k].mode) < Rank(mode) {
          RaiseOnlyGrants(l, k, txn, name, mode);
        }
      } else {
        EntryAdded(l.chains, e, chain + [e]);
      }
    }
  }

  lemma RaiseOnlyGrants(l: Locks, k: nat, txn: nat, name: Name, mode: Mode)
    requires HeldOk(l) && k < |l.chains[Bucket(name)]|
    requires l.chains[Bucket(name)][k].resource == name && l.chains[Bucket(name)][k].holder == txn
    ensures var b := Bucket(name);
      OnlyGrants(l, l.(chains := l.chains[b := l.chains[b][k := Raised(l.chains[b][k], mode)]]), txn, name, mode)
  {
    var b := Bucket(name);
    var chain := l.chains[b];
    var c := chain[k := Raised(chain[k], mode)];
    var chains := l.chains[b := c];
    forall e: Entry
      ensures InTable(chains, e) <==>
        if Bucket(e.resource) == b then e == Raised(chain[k], mode) || (e in chain && e.serial != chain[k].serial)
        else InTable(l.chains, e)
    {
      InSwapped(l.chains, b, c, e);
      RaisedMember(chain, k, mode, e);
    }
    assert InTable(l.chains, chain[k]);
    forall e: Entry | InTable(l.chains, e) && !InTable(chains, e) ensures e == chain[k] {
    }
  }

  /** Releasing all takes away exactly the transaction's entries, leaves it an empty list, and touches no other
      list. */
  lemma ReleaseLeavesNothing(l: Locks, txn: nat)
    requires HeldOk(l) && txn in l.held
    ensures var l' := ReleaseAll(l, txn);
      && Shape(l') && l'.held == l.held[txn := []] && ListExact(l', txn)
      && forall e: Entry :: InTable(l'.chains, e) <==> InTable(l.chains, e) && e.holder != txn
  {
    ListMatches(l, txn);
    UnlinkAllMembers(l.chains, l.held[txn]);
  }

  // ----- When the answer says exactly what is held --------------------------------------

  /** In every run over the modes, the answer is "granted" exactly if the lock is held afterwards. */
  ghost predicate AlwaysExact(modes: set<Mode>) {
    forall steps, txn, name, mode | IsRun(Empty(), steps) && Requests(steps, modes) && mode in modes ::
      Exact(Exec(Empty(), steps), txn, name, mode)
  }

  ghost predicate Exact(l: Locks, txn: nat, name: Name, mode: Mode)
    requires Shape(l)
  {
    var (l', outcome) := Acquire(l, txn, name, mode);
    Shape(l') && (outcome == Granted <==> Sufficient(l', txn, name, mode))
  }

  /** In a closed set a mode compatible with one lock is compatible with all of no greater rank. */
  lemma LowerIsCompatible(modes: set<Mode>, a: Mode, b: Mode, c: Mode)
    requires Closed(modes) && a in modes && b in modes && c in modes
    requires Compatible(a, b) && Rank(c) <= Rank(b)
    ensures Compatible(a, c)
  {
    assert Compatible(b, b);
  }

  lemma EnoughIsNotStopped(l: Locks, txn: nat, name: Name, mode: Mode, modes: set<Mode>)
    requires Closed(modes) && AllOk(l, modes) && mode in modes && Sufficient(l, txn, name, mode)
    ensures !Stopped(l, txn, name, mode)
  {
    var e: Entry :| InTable(l.chains, e) && e.holder == txn && e.resource == name && Rank(e.mode) >= Rank(mode);
    StoppedIsNotHeld(l, e, mode, modes);
  }

  lemma HoldersRun(l: Locks, txn: nat, name: Name, mode: Mode)
    requires Shape(l) && (forall e: Entry | InTable(l.chains, e) :: e.holder in l.held)
    requires Sufficient(l, txn, name, mode)
    ensures txn in l.held
  {
  }

  /** In every table: the answer and what is held differ exactly if a caller is stopped that holds enough
      already. */
  lemma ExactUnlessStoppedHolder(l: Locks, txn: nat, name: Name, mode: Mode)
    requires Shape(l) && (forall e: Entry | InTable(l.chains, e) :: e.holder in l.held)
    ensures Exact(l, txn, name, mode) <==> !(Stopped(l, txn, name, mode) && Sufficient(l, txn, name, mode))
  {
    AnswerIsExact(l, txn, name, mode);
    if Sufficient(l, txn, name, mode) {
      HoldersRun(l, txn, name, mode);
    }
  }

  lemma ClosedIsExact(steps: seq<Step>, txn: nat, name: Name, mode: Mode, modes: set<Mode>)
    requires Closed(modes) && IsRun(Empty(), steps) && Requests(steps, modes) && mode in modes
    ensures Exact(Exec(Empty(), steps), txn, name, mode)
  {
    RunKeepsOk(Empty(), steps, modes);
    RunKeepsHeld(Empty(), steps);
    var l := Exec(Empty(), steps);
    ExactUnlessStoppedHolder(l, txn, name, mode);
    if Sufficient(l, txn, name, mode) {
      EnoughIsNotStopped(l, txn, name, mode, modes);
    }
  }

  lemma StoppedIsNotHeld(l: Locks, e: Entry, mode: Mode, modes: set<Mode>)
    requires Closed(modes) && AllOk(l, modes) && mode in modes && InTable(l.chains, e) && Rank(e.mode) >= Rank(mode)
    ensures !Stopped(l, e.holder, e.resource, mode)
  {
    var chain := l.chains[Bucket(e.resource)];
    var k := FirstFor(chain, e.resource);
    StoppedByFirst(l, e.holder, e.resource, mode);
    assert ChainOk(chain, Bucket(e.resource), modes);
    var i :| 0 <= i < |chain| && chain[i] == e;
    if i != k {
      assert Compatible(chain[k].mode, e.mode);
      LowerIsCompatible(modes, chain[k].mode, e.mode, mode);
    }
  }

  /** Two share a name with a third that lets both in; when that one ends, the later of the two is told to
      wait for the lock it holds. */
  lemma HeldAndBlocked(name: Name, a: Mode, b: Mode, c: Mode)
    requires Compatible(a, b) && Compatible(a, c) && !Compatible(b, c)
    ensures var steps := ThreeAsk(name, a, b, c) + [End(1)];
      && IsRun(Empty(), steps) && Acquire(Exec(Empty(), steps), 3, name, c).1 == Blocked
      && Sufficient(Exec(Empty(), steps), 3, name, c)
  {
    ThreeHold(name, a, b, c);
    var l := Exec(Empty(), ThreeAsk(name, a, b, c));
    FirstLeaves(l, name, a, b, c);
    assert IsRun(l, [End(1)]) && Exec(l, [End(1)]) == Do(l, End(1)) by {
      assert [End(1)][1..] == [];
    }
    RunsCompose(Empty(), ThreeAsk(name, a, b, c), [End(1)]);
    var d := Do(l, End(1));
    StoppedByFirst(d, 3, name, c);
    AnswerIsExact(d, 3, name, c);
    EntryIsSufficient(d, 3, name, c, 1);
  }

  lemma FirstLeaves(l: Locks, name: Name, a: Mode, b: Mode, c: Mode)
    requires Shape(l) && 1 in l.held && l.held[1] == [Ref(0, name)] && 3 in l.held
    requires l.chains[Bucket(name)] == [Entry(0, name, a, 1), Entry(1, name, b, 2), Entry(2, name, c, 3)]
    ensures var d := Do(l, End(1));
      && d.chains[Bucket(name)] == [Entry(1, name, b, 2), Entry(2, name, c, 3)] && 3 in d.held
  {
    assert l.held[1][..0] == [];
    assert UnlinkAll(l.chains, []) == l.chains;
    assert SerialAt(l.chains[Bucket(name)], 0) == 0;
  }

  /** Answers say exactly what is held, over all runs, exactly for the sets of modes that keep the table
      safe. */
  lemma AnswersAreExactIff(modes: set<Mode>)
    ensures AlwaysExact(modes) <==> Closed(modes)
  {
    if Closed(modes) {
      forall steps, txn, name, mode | IsRun(Empty(), steps) && Requests(steps, modes) && mode in modes
        ensures Exact(Exec(Empty(), steps), txn, name, mode)
      {
        ClosedIsExact(steps, txn, name, mode, modes);
      }
    } else {
      var a, b, c :| a in modes && b in modes && c in modes
        && Compatible(a, b) && Compatible(a, c) && !Compatible(b, c);
      var steps := ThreeAsk([], a, b, c) + [End(1)];
      HeldAndBlocked([], a, b, c);
      ThreeAskRequests([], a, b, c, modes);
      var l := Exec(Empty(), steps);
      AnswerIsExact(l, 3, [], c);
      assert !Exact(l, 3, [], c);
      assert IsRun(Empty(), steps) && Requests(steps, modes) && c in modes;
    }
  }

  /** So in every run, whatever modes it requests. */
  lemma AnswerIsExactIff(steps: seq<Step>, txn: nat, name: Name, mode: Mode)
    requires IsRun(Empty(), steps)
    ensures var l := Exec(Empty(), steps);
      Exact(l, txn, name, mode) <==> !(Stopped(l, txn, name, mode) && Sufficient(l, txn, name, mode))
  {
    RunKeepsHeld(Empty(), steps);
    ExactUnlessStoppedHolder(Exec(Empty(), steps), txn, name, mode);
  }

  // ----- Waiting callers ----------------------------------------------------------------

  /** A waiting caller ends with one attempt on the table as the others left it. */
  lemma {:induction false} WaitingEndsWithAttempt(l: Locks, txn: nat, name: Name, mode: Mode, others: seq<seq<Step>>)
    requires Shape(l) && CanWait(l, txn, name, mode, others)
    ensures var n := Sleeps(l, txn, name, mode, others);
      && IsRun(l, Flat(others[..n]))
      && AcquireWaiting(l, txn, name, mode, others) == Acquire(Exec(l, Flat(others[..n])), txn, name, mode)
    decreases |others|
  {
    var n := Sleeps(l, txn, name, mode, others);
    if n > 0 {
      WaitingEndsWithAttempt(Exec(l, others[0]), txn, name, mode, others[1..]);
      FlatFront(others, n, []);
      assert Flat(others[..n]) + [] == Flat(others[..n]);
      assert Flat(others[1..][..n - 1]) + [] == Flat(others[1..][..n - 1]);
      RunsCompose(l, others[0], Flat(others[1..][..n - 1]));
    } else {
      assert others[..0] == [];
    }
  }

  /** The answer of a waiting caller: granted, and then it holds the lock; timed out, and then the first entry
      still stops it; or there is no such transaction. */
  lemma WaitingAnswerIsExact(l: Locks, txn: nat, name: Name, mode: Mode, others: seq<seq<Step>>)
    requires Shape(l) && CanWait(l, txn, name, mode, others)
    ensures var (l', outcome) := AcquireWaiting(l, txn, name, mode, others);
      && (outcome == Granted ==> Sufficient(l', txn, name, mode))
      && (outcome == Blocked ==> txn in l'.held && Stopped(l', txn, name, mode))
      && (outcome == NoTransaction <==> txn !in l'.held)
  {
    WaitingEndsWithAttempt(l, txn, name, mode, others);
    var n := Sleeps(l, txn, name, mode, others);
    AnswerIsExact(Exec(l, Flat(others[..n])), txn, name, mode);
  }

  /** With all requests in a closed set of modes a waiting caller is granted its lock exactly if it holds it
      afterwards. */
  lemma WaitingGrantsExactly(before: seq<Step>, txn: nat, name: Name, mode: Mode, others: seq<seq<Step>>,
                             modes: set<Mode>)
    requires IsRun(Empty(), before) && CanWait(Exec(Empty(), before), txn, name, mode, others)
    requires Closed(modes) && mode in modes && Requests(before, modes)
    requires forall i | 0 <= i < |others| :: Requests(others[i], modes)
    ensures var (l', outcome) := AcquireWaiting(Exec(Empty(), before), txn, name, mode, others);
      outcome == Granted <==> Sufficient(l', txn, name, mode)
  {
    var l := Exec(Empty(), before);
    var n := Sleeps(l, txn, name, mode, others);
    WaitingEndsWithAttempt(l, txn, name, mode, others);
    RunsCompose(Empty(), before, Flat(others[..n]));
    FlatRequests(others[..n], modes);
    ClosedIsExact(before + Flat(others[..n]), txn, name, mode, modes);
  }
}
