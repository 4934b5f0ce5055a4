/** What holds of the lock table over every run. */
module LockSafety {
  import opened LockTableModel

  /** Transactions begin, try to acquire, and end; ending releases everything and leaves. */
  datatype Step =
    | Begin(txn: nat)
    | Request(txn: nat, name: Name, mode: Mode)
    | End(txn: nat)

  predicate Enabled(l: Locks, s: Step) {
    s.Begin? ==> s.txn !in l.held
  }

  function Do(l: Locks, s: Step): (r: Locks)
    requires Shape(l) && Enabled(l, s)
    ensures Shape(r)
  {
    match s
    case Begin(txn) => l.(held := l.held[txn := []])
    case Request(txn, name, mode) => Acquire(l, txn, name, mode).0
    case End(txn) => var l' := ReleaseAll(l, txn); l'.(held := l'.held - {txn})
  }

  predicate IsRun(l: Locks, steps: seq<Step>)
    requires Shape(l)
    decreases |steps|
  {
    steps == [] || (Enabled(l, steps[0]) && IsRun(Do(l, steps[0]), steps[1..]))
  }

  function Exec(l: Locks, steps: seq<Step>): (r: Locks)
    requires Shape(l) && IsRun(l, steps)
    ensures Shape(r)
    decreases |steps|
  {
    if steps == [] then l else Exec(Do(l, steps[0]), steps[1..])
  }

  function Empty(): (l: Locks)
    ensures Shape(l)
  {
    Locks(seq(TABLE_SIZE, _ => []), map[], 0)
  }

  // ----- What is promised -----------------------------------------------------

  /** Locks of different holders on one resource are compatible. */
  ghost predicate Safe(l: Locks) {
    forall b, i, j | 0 <= b < |l.chains| && 0 <= i < |l.chains[b]| && 0 <= j < |l.chains[b]| && i != j ::
      var e, f := l.chains[b][i], l.chains[b][j];
      e.resource == f.resource && e.holder != f.holder ==> Compatible(e.mode, f.mode)
  }

  /** Modes compatible with one mode are compatible with each other. */
  predicate Closed(modes: set<Mode>) {
    forall a, b, c | a in modes && b in modes && c in modes ::
      Compatible(a, b) && Compatible(a, c) ==> Compatible(b, c)
  }

  predicate Requests(steps: seq<Step>, modes: set<Mode>) {
    forall s <- steps :: s.Request? ==> s.mode in modes
  }

  // ----- Pairwise compatibility -----------------------------------------------

  /** Any two entries of one resource are compatible, and all modes are from the set. */
  ghost predicate ChainOk(chain: seq<Entry>, b: nat, modes: set<Mode>) {
    && (forall i | 0 <= i < |chain| :: chain[i].mode in modes && Bucket(chain[i].resource) == b)
    && (forall i, j | 0 <= i < |chain| && 0 <= j < |chain| && i != j && chain[i].resource == chain[j].resource ::
          Compatible(chain[i].mode, chain[j].mode))
  }

  ghost predicate AllOk(l: Locks, modes: set<Mode>) {
    Shape(l) && forall b | 0 <= b < TABLE_SIZE :: ChainOk(l.chains[b], b, modes)
  }

  lemma CompatibleSymmetric(a: Mode, b: Mode)
    ensures Compatible(a, b) == Compatible(b, a)
  {
  }

  /** A mode compatible with the first lock of a resource is compatible with all of them. */
  lemma FirstSpeaksForAll(chain: seq<Entry>, name: Name, mode: Mode, b: nat, modes: set<Mode>, i: nat)
    requires ChainOk(chain, b, modes) && mode in modes && Closed(modes)
    requires FirstFor(chain, name) < |chain| && Compatible(chain[FirstFor(chain, name)].mode, mode)
    requires i < |chain| && chain[i].resource == name
    ensures Compatible(chain[i].mode, mode) && Compatible(mode, chain[i].mode)
  {
    var k := FirstFor(chain, name);
    CompatibleSymmetric(chain[i].mode, mode);
    if i != k {
      assert Compatible(chain[k].mode, chain[i].mode);
    }
  }

  lemma AddedKeepsOk(chain: seq<Entry>, e: Entry, b: nat, modes: set<Mode>)
    requires ChainOk(chain, b, modes) && e.mode in modes && Bucket(e.resource) == b
    requires forall i | 0 <= i < |chain| && chain[i].resource == e.resource ::
      Compatible(chain[i].mode, e.mode) && Compatible(e.mode, chain[i].mode)
    ensures ChainOk(chain + [e], b, modes) && ChainOk([e] + chain, b, modes)
  {
    var c := [e] + chain;
    assert forall i | 0 < i < |c| :: c[i] == chain[i - 1];
  }

  /** The first lock of a resource is raised to a mode compatible with its old one. */
  lemma RaisedKeepsOk(chain: seq<Entry>, k: nat, mode: Mode, b: nat, modes: set<Mode>)
    requires ChainOk(chain, b, modes) && mode in modes && Closed(modes)
    requires k < |chain| && Compatible(chain[k].mode, mode)
    ensures ChainOk(chain[k := chain[k].(mode := mode)], b, modes)
  {
    forall i | 0 <= i < |chain| && i != k && chain[i].resource == chain[k].resource
      ensures Compatible(chain[i].mode, mode) && Compatible(mode, chain[i].mode)
    {
      CompatibleSymmetric(chain[i].mode, mode);
      assert Compatible(chain[k].mode, chain[i].mode);
    }
  }

  lemma AcquireKeepsOk(l: Locks, txn: nat, name: Name, mode: Mode, modes: set<Mode>)
    requires AllOk(l, modes) && mode in modes && Closed(modes)
    ensures AllOk(Acquire(l, txn, name, mode).0, modes)
  {
    var chain := l.chains[Bucket(name)];
    var k := FirstFor(chain, name);
    if k == |chain| || Compatible(chain[k].mode, mode) {
      forall i | 0 <= i < |chain| && chain[i].resource == name
        ensures Compatible(chain[i].mode, mode) && Compatible(mode, chain[i].mode)
      {
        FirstSpeaksForAll(chain, name, mode, Bucket(name), modes, i);
      }
      AddedKeepsOk(chain, Entry(l.nextSerial, name, mode, txn), Bucket(name), modes);
      if k < |chain| {
        RaisedKeepsOk(chain, k, mode, Bucket(name), modes);
      }
    }
  }

  lemma {:induction false} UnlinkKeepsOk(chain: seq<Entry>, serial: nat, b: nat, modes: set<Mode>)
    requires ChainOk(chain, b, modes)
    ensures ChainOk(Unlink(chain, serial), b, modes)
  {
    var k := SerialAt(chain, serial);
    var c := Unlink(chain, serial);
    if k < |chain| {
      assert forall i | 0 <= i < |c| :: c[i] == chain[if i < k then i else i + 1];
    }
  }

  lemma {:induction false} ReleaseKeepsOk(chains: seq<seq<Entry>>, refs: seq<Ref>, modes: set<Mode>)
    requires |chains| == TABLE_SIZE && forall b | 0 <= b < TABLE_SIZE :: ChainOk(chains[b], b, modes)
    ensures forall b | 0 <= b < TABLE_SIZE :: ChainOk(UnlinkAll(chains, refs)[b], b, modes)
  {
    if refs != [] {
      var n := |refs| - 1;
      ReleaseKeepsOk(chains, refs[..n], modes);
      var b := Bucket(refs[n].resource);
      UnlinkKeepsOk(UnlinkAll(chains, refs[..n])[b], refs[n].serial, b, modes);
    }
  }

  lemma StepKeepsOk(l: Locks, s: Step, modes: set<Mode>)
    requires AllOk(l, modes) && Enabled(l, s) && Closed(modes)
    requires s.Request? ==> s.mode in modes
    ensures AllOk(Do(l, s), modes)
  {
    match s
    case Begin(_) =>
    case Request(txn, name, mode) => AcquireKeepsOk(l, txn, name, mode, modes);
    case End(txn) =>
      if txn in l.held {
        ReleaseKeepsOk(l.chains, l.held[txn], modes);
      }
  }

  lemma {:induction false} RunKeepsOk(l: Locks, steps: seq<Step>, modes: set<Mode>)
    requires AllOk(l, modes) && IsRun(l, steps) && Requests(steps, modes) && Closed(modes)
    ensures AllOk(Exec(l, steps), modes)
    decreases |steps|
  {
    if steps != [] {
      StepKeepsOk(l, steps[0], modes);
      RunKeepsOk(Do(l, steps[0]), steps[1..], modes);
    }
  }

  lemma ClosedIsSafe(steps: seq<Step>, modes: set<Mode>)
    requires IsRun(Empty(), steps) && Requests(steps, modes) && Closed(modes)
    ensures Safe(Exec(Empty(), steps))
  {
    RunKeepsOk(Empty(), steps, modes);
    var l := Exec(Empty(), steps);
    assert forall b | 0 <= b < TABLE_SIZE :: ChainOk(l.chains[b], b, modes);
  }

  // ----- When the modes are not closed ----------------------------------------

  lemma RunOne(l: Locks, s: Step, rest: seq<Step>)
    requires Shape(l) && Enabled(l, s)
    ensures IsRun(l, [s] + rest) == IsRun(Do(l, s), rest)
    ensures IsRun(l, [s] + rest) ==> Exec(l, [s] + rest) == Exec(Do(l, s), rest)
  {
    assert ([s] + rest)[1..] == rest;
  }

  /** Three transactions that ask for one resource in turn. */
  function ThreeAsk(name: Name, a: Mode, b: Mode, c: Mode): seq<Step> {
    [Begin(1)] + ([Begin(2)] + ([Begin(3)] +
      ([Request(1, name, a)] + ([Request(2, name, b)] + ([Request(3, name, c)] + [])))))
  }

  lemma ThreeHold(name: Name, a: Mode, b: Mode, c: Mode)
    requires Compatible(a, b) && Compatible(a, c)
    ensures IsRun(Empty(), ThreeAsk(name, a, b, c))
    ensures var l := Exec(Empty(), ThreeAsk(name, a, b, c));
      && l.chains[Bucket(name)] == [Entry(0, name, a, 1), Entry(1, name, b, 2), Entry(2, name, c, 3)]
      && 1 in l.held && l.held[1] == [Ref(0, name)] && 3 in l.held
  {
    var l0 := Empty();
    var l1 := Do(l0, Begin(1));
    var l2 := Do(l1, Begin(2));
    var l3 := Do(l2, Begin(3));
    var l4 := Do(l3, Request(1, name, a));
    var l5 := Do(l4, Request(2, name, b));
    var l6 := Do(l5, Request(3, name, c));
    var k := Bucket(name);
    assert l4.chains[k] == [Entry(0, name, a, 1)];
    assert l5.chains[k] == [Entry(0, name, a, 1), Entry(1, name, b, 2)];
    assert l6.chains[k] == [Entry(0, name, a, 1), Entry(1, name, b, 2), Entry(2, name, c, 3)];
    assert l4.held[1] == [Ref(0, name)] && l6.held[1] == l4.held[1];
    RunOne(l5, Request(3, name, c), []);
    RunOne(l4, Request(2, name, b), [Request(3, name, c)] + []);
    RunOne(l3, Request(1, name, a), [Request(2, name, b)] + ([Request(3, name, c)] + []));
    RunOne(l2, Begin(3), [Request(1, name, a)] + ([Request(2, name, b)] + ([Request(3, name, c)] + [])));
    RunOne(l1, Begin(2), [Begin(3)] + ([Request(1, name, a)] + ([Request(2, name, b)] + ([Request(3, name, c)] + []))));
    RunOne(l0, Begin(1), [Begin(2)] + ([Begin(3)] +
      ([Request(1, name, a)] + ([Request(2, name, b)] + ([Request(3, name, c)] + [])))));
  }

  lemma TwoGrantedBesideOne(name: Name, a: Mode, b: Mode, c: Mode)
    requires Compatible(a, b) && Compatible(a, c) && !Compatible(b, c)
    ensures IsRun(Empty(), ThreeAsk(name, a, b, c)) && !Safe(Exec(Empty(), ThreeAsk(name, a, b, c)))
  {
    ThreeHold(name, a, b, c);
    var chain := Exec(Empty(), ThreeAsk(name, a, b, c)).chains[Bucket(name)];
    assert chain[1].resource == chain[2].resource && chain[1].holder != chain[2].holder;
  }

  ghost predicate AlwaysSafe(modes: set<Mode>) {
    forall steps: seq<Step> | IsRun(Empty(), steps) && Requests(steps, modes) :: Safe(Exec(Empty(), steps))
  }

  lemma ThreeAskRequests(name: Name, a: Mode, b: Mode, c: Mode, modes: set<Mode>)
    requires a in modes && b in modes && c in modes
    ensures Requests(ThreeAsk(name, a, b, c), modes)
  {
    var steps := ThreeAsk(name, a, b, c);
    assert steps == [Begin(1), Begin(2), Begin(3), Request(1, name, a), Request(2, name, b), Request(3, name, c)];
  }

  lemma NotClosedIsUnsafe(modes: set<Mode>, a: Mode, b: Mode, c: Mode)
    requires a in modes && b in modes && c in modes
    requires Compatible(a, b) && Compatible(a, c) && !Compatible(b, c)
    ensures !AlwaysSafe(modes)
  {
    var steps := ThreeAsk([], a, b, c);
    TwoGrantedBesideOne([], a, b, c);
    ThreeAskRequests([], a, b, c, modes);
    assert IsRun(Empty(), steps) && Requests(steps, modes) && !Safe(Exec(Empty(), steps));
  }

  /** Main result: runs over a set of modes are always safe if and only if the set is closed. */
  lemma LockSafetyIff(modes: set<Mode>)
    ensures AlwaysSafe(modes) <==> Closed(modes)
  {
    if Closed(modes) {
      forall steps: seq<Step> | IsRun(Empty(), steps) && Requests(steps, modes)
        ensures Safe(Exec(Empty(), steps))
      {
        ClosedIsSafe(steps, modes);
      }
    } else {
      var a, b, c :| a in modes && b in modes && c in modes
        && Compatible(a, b) && Compatible(a, c) && !Compatible(b, c);
      NotClosedIsUnsafe(modes, a, b, c);
    }
  }

  /** The four modes of ordinary use are closed; adding NONE or UPDATE to them is not. */
  lemma OrdinaryModesAreClosed()
    ensures Closed({Shared, Exclusive, ShareRowExclusive, AccessExclusive})
    ensures !Closed({Shared, Exclusive, ShareRowExclusive, AccessExclusive, NoLock})
    ensures !Closed({Shared, Exclusive, ShareRowExclusive, AccessExclusive, Update})
  {
    assert Compatible(NoLock, Exclusive) && !Compatible(Exclusive, Exclusive);
    assert Compatible(Shared, Update) && !Compatible(Update, Update);
  }

  // ----- A transaction's list is exactly its entries --------------------------

  predicate InTable(chains: seq<seq<Entry>>, e: Entry)
    requires |chains| == TABLE_SIZE
  {
    e in chains[Bucket(e.resource)]
  }

  ghost predicate Placed(chains: seq<seq<Entry>>)
    requires |chains| == TABLE_SIZE
  {
    forall b, i | 0 <= b < TABLE_SIZE && 0 <= i < |chains[b]| :: Bucket(chains[b][i].resource) == b
  }

  /** Addresses are unique. */
  ghost predicate UniqueSerials(chains: seq<seq<Entry>>)
    requires |chains| == TABLE_SIZE
  {
    && (forall b, i, j | 0 <= b < TABLE_SIZE && 0 <= i < j < |chains[b]| ::
          chains[b][i].serial != chains[b][j].serial)
    && (forall e: Entry, f: Entry | InTable(chains, e) && InTable(chains, f) && e.serial == f.serial :: e == f)
  }

  ghost predicate ListExact(l: Locks, txn: nat)
    requires Shape(l) && txn in l.held
  {
    && (forall e: Entry | InTable(l.chains, e) && e.holder == txn :: Ref(e.serial, e.resource) in l.held[txn])
    && (forall r: Ref | r in l.held[txn] ::
          exists e: Entry :: InTable(l.chains, e) && e.holder == txn && e.serial == r.serial && e.resource == r.resource)
    && (forall i, j | 0 <= i < j < |l.held[txn]| :: l.held[txn][i].serial != l.held[txn][j].serial)
  }

  ghost predicate HeldOk(l: Locks) {
    && Shape(l) && Placed(l.chains) && UniqueSerials(l.chains)
    && (forall e: Entry | InTable(l.chains, e) :: e.serial < l.nextSerial && e.holder in l.held)
    && (forall txn <- l.held :: ListExact(l, txn))
  }

  lemma InSwapped(chains: seq<seq<Entry>>, b: nat, c: seq<Entry>, x: Entry)
    requires |chains| == TABLE_SIZE && b < TABLE_SIZE
    ensures InTable(chains[b := c], x) <==> if Bucket(x.resource) == b then x in c else InTable(chains, x)
  {
  }

  /** Replacing one chain by itself plus an entry adds exactly that entry to the table. */
  lemma EntryAdded(chains: seq<seq<Entry>>, e: Entry, c: seq<Entry>)
    requires |chains| == TABLE_SIZE
    requires c == [e] + chains[Bucket(e.resource)] || c == chains[Bucket(e.resource)] + [e]
    ensures forall x: Entry :: InTable(chains[Bucket(e.resource) := c], x) <==> x == e || InTable(chains, x)
  {
    forall x: Entry ensures InTable(chains[Bucket(e.resource) := c], x) <==> x == e || InTable(chains, x) {
      InSwapped(chains, Bucket(e.resource), c, x);
    }
  }

  lemma AddedIsPlaced(chains: seq<seq<Entry>>, e: Entry, c: seq<Entry>)
    requires |chains| == TABLE_SIZE && Placed(chains) && UniqueSerials(chains)
    requires forall x: Entry | InTable(chains, x) :: x.serial < e.serial
    requires c == [e] + chains[Bucket(e.resource)] || c == chains[Bucket(e.resource)] + [e]
    ensures Placed(chains[Bucket(e.resource) := c]) && UniqueSerials(chains[Bucket(e.resource) := c])
  {
    var b := Bucket(e.resource);
    EntryAdded(chains, e, c);
    forall i | 0 <= i < |chains[b]| ensures chains[b][i].serial < e.serial {
      assert InTable(chains, chains[b][i]);
    }
  }

  lemma GrantKeepsHeld(l: Locks, txn: nat, name: Name, mode: Mode, c: seq<Entry>)
    requires HeldOk(l) && txn in l.held
    requires var e := Entry(l.nextSerial, name, mode, txn);
      c == [e] + l.chains[Bucket(name)] || c == l.chains[Bucket(name)] + [e]
    ensures HeldOk(Grant(l, txn, name, c))
  {
    var e := Entry(l.nextSerial, name, mode, txn);
    var l' := Grant(l, txn, name, c);
    EntryAdded(l.chains, e, c);
    AddedIsPlaced(l.chains, e, c);
    forall t <- l'.held ensures ListExact(l', t) {
      assert ListExact(l, t);
      GrantedList(l, l', e, t);
    }
  }

  /** The references of a list are older than an entry that is newer than the table. */
  lemma ListIsOlder(l: Locks, e: Entry, t: nat)
    requires Shape(l) && t in l.held && ListExact(l, t)
    requires forall x: Entry | InTable(l.chains, x) :: x.serial < e.serial
    ensures forall i | 0 <= i < |l.held[t]| :: l.held[t][i].serial < e.serial
  {
    forall i | 0 <= i < |l.held[t]| ensures l.held[t][i].serial < e.serial {
      var r := l.held[t][i];
      assert r in l.held[t];
      var x: Entry :| InTable(l.chains, x) && x.holder == t && x.serial == r.serial && x.resource == r.resource;
      assert x.serial < e.serial;
    }
  }

  lemma GrantedList(l: Locks, l': Locks, e: Entry, t: nat)
    requires Shape(l) && Shape(l') && t in l.held && t in l'.held && ListExact(l, t)
    requires forall x: Entry :: InTable(l'.chains, x) <==> x == e || InTable(l.chains, x)
    requires forall x: Entry | InTable(l.chains, x) :: x.serial < e.serial
    requires l'.held[t] == if t == e.holder then l.held[t] + [Ref(e.serial, e.resource)] else l.held[t]
    ensures ListExact(l', t)
  {
    forall x: Entry | InTable(l'.chains, x) && x.holder == t ensures Ref(x.serial, x.resource) in l'.held[t] {
      assert x != e ==> Ref(x.serial, x.resource) in l.held[t];
    }
    forall r: Ref | r in l'.held[t]
      ensures exists x: Entry :: InTable(l'.chains, x) && x.holder == t && x.serial == r.serial && x.resource == r.resource
    {
      if r in l.held[t] {
        var x: Entry :| InTable(l.chains, x) && x.holder == t && x.serial == r.serial && x.resource == r.resource;
        assert InTable(l'.chains, x);
      } else {
        assert InTable(l'.chains, e);
      }
    }
    ListIsOlder(l, e, t);
  }

  function Raised(e: Entry, mode: Mode): Entry {
    e.(mode := mode)
  }

  lemma RaisedMember(chain: seq<Entry>, k: nat, mode: Mode, x: Entry)
    requires k < |chain| && forall i, j | 0 <= i < j < |chain| :: chain[i].serial != chain[j].serial
    ensures x in chain[k := Raised(chain[k], mode)] <==>
      x == Raised(chain[k], mode) || (x in chain && x.serial != chain[k].serial)
  {
    var c := chain[k := Raised(chain[k], mode)];
    assert c[k] == Raised(chain[k], mode);
    if x in chain && x.serial != chain[k].serial {
      var i :| 0 <= i < |chain| && chain[i] == x;
      assert c[i] == x;
    }
  }

  /** Changing the mode of one entry swaps that entry for the changed one. */
  lemma RaisedTable(chains: seq<seq<Entry>>, b: nat, k: nat, mode: Mode)
    requires |chains| == TABLE_SIZE && b < TABLE_SIZE && k < |chains[b]|
    requires Placed(chains) && UniqueSerials(chains)
    ensures var c := chains[b := chains[b][k := Raised(chains[b][k], mode)]];
      && Placed(c) && UniqueSerials(c)
      && forall x: Entry :: InTable(c, x) <==>
           x == Raised(chains[b][k], mode) || (InTable(chains, x) && x.serial != chains[b][k].serial)
  {
    var was := chains[b][k];
    var c := chains[b := chains[b][k := Raised(was, mode)]];
    assert InTable(chains, was);
    forall x: Entry
      ensures InTable(c, x) <==> x == Raised(was, mode) || (InTable(chains, x) && x.serial != was.serial)
    {
      InSwapped(chains, b, c[b], x);
      RaisedMember(chains[b], k, mode, x);
    }
  }

  lemma RaisedList(l: Locks, l': Locks, was: Entry, mode: Mode, t: nat)
    requires Shape(l) && Shape(l') && t in l.held && l'.held == l.held && ListExact(l, t)
    requires InTable(l.chains, was) && UniqueSerials(l.chains)
    requires forall x: Entry :: InTable(l'.chains, x) <==>
      x == Raised(was, mode) || (InTable(l.chains, x) && x.serial != was.serial)
    ensures ListExact(l', t)
  {
    forall r: Ref | r in l'.held[t]
      ensures exists x: Entry :: InTable(l'.chains, x) && x.holder == t && x.serial == r.serial && x.resource == r.resource
    {
      var x: Entry :| InTable(l.chains, x) && x.holder == t && x.serial == r.serial && x.resource == r.resource;
      assert InTable(l'.chains, if x == was then Raised(was, mode) else x);
    }
    assert was.holder == t ==> Ref(was.serial, was.resource) in l.held[t];
  }

  /** A table in which one entry is swapped for itself with another mode. */
  lemma RaisedHeld(l: Locks, l': Locks, was: Entry, mode: Mode)
    requires HeldOk(l) && Shape(l') && l'.held == l.held && l'.nextSerial == l.nextSerial
    requires Placed(l'.chains) && UniqueSerials(l'.chains) && InTable(l.chains, was)
    requires forall x: Entry :: InTable(l'.chains, x) <==>
      x == Raised(was, mode) || (InTable(l.chains, x) && x.serial != was.serial)
    ensures HeldOk(l')
  {
    forall t <- l'.held ensures ListExact(l', t) {
      assert ListExact(l, t);
      RaisedList(l, l', was, mode, t);
    }
  }

  /** Changing the mode of one entry changes nothing a list points at. */
  lemma RaiseKeepsHeld(l: Locks, b: nat, k: nat, mode: Mode)
    requires HeldOk(l) && b < TABLE_SIZE && k < |l.chains[b]|
    ensures HeldOk(l.(chains := l.chains[b := l.chains[b][k := Raised(l.chains[b][k], mode)]]))
  {
    assert InTable(l.chains, l.chains[b][k]);
    RaisedTable(l.chains, b, k, mode);
    var chains := l.chains[b := l.chains[b][k := Raised(l.chains[b][k], mode)]];
    RaisedHeld(l, l.(chains := chains), l.chains[b][k], mode);
  }

  /** What one pass does to the table: nothing, a new entry at either end of the chain, or a raised one. */
  lemma AcquireIs(l: Locks, txn: nat, name: Name, mode: Mode)
    requires Shape(l)
    ensures var chain, k := l.chains[Bucket(name)], FirstFor(l.chains[Bucket(name)], name);
      var e, r := Entry(l.nextSerial, name, mode, txn), Acquire(l, txn, name, mode).0;
      || r == l
      || (txn in l.held && r == Grant(l, txn, name, [e] + chain))
      || (txn in l.held && r == Grant(l, txn, name, chain + [e]))
      || (k < |chain| && r == l.(chains := l.chains[Bucket(name) := chain[k := Raised(chain[k], mode)]]))
  {
  }

  lemma RequestKeepsHeld(l: Locks, txn: nat, name: Name, mode: Mode)
    requires HeldOk(l)
    ensures HeldOk(Acquire(l, txn, name, mode).0)
  {
    AcquireIs(l, txn, name, mode);
    var chain, k := l.chains[Bucket(name)], FirstFor(l.chains[Bucket(name)], name);
    var e, r := Entry(l.nextSerial, name, mode, txn), Acquire(l, txn, name, mode).0;
    if r != l {
      if k < |chain| && r == l.(chains := l.chains[Bucket(name) := chain[k := Raised(chain[k], mode)]]) {
        RaiseKeepsHeld(l, Bucket(name), k, mode);
      } else if r == Grant(l, txn, name, [e] + chain) {
        GrantKeepsHeld(l, txn, name, mode, [e] + chain);
      } else {
        GrantKeepsHeld(l, txn, name, mode, chain + [e]);
      }
    }
  }

  lemma UnlinkIs(chain: seq<Entry>, serial: nat)
    ensures var (k, c) := (SerialAt(chain, serial), Unlink(chain, serial));
      if k == |chain| then c == chain
      else |c| == |chain| - 1 && forall i | 0 <= i < |c| :: c[i] == chain[if i < k then i else i + 1]
  {
  }

  lemma UnlinkMembers(chain: seq<Entry>, serial: nat)
    requires forall i, j | 0 <= i < j < |chain| :: chain[i].serial != chain[j].serial
    ensures forall x: Entry :: x in Unlink(chain, serial) <==> x in chain && x.serial != serial
    ensures var c := Unlink(chain, serial); forall i, j | 0 <= i < j < |c| :: c[i].serial != c[j].serial
  {
    var k := SerialAt(chain, serial);
    var c := Unlink(chain, serial);
    UnlinkIs(chain, serial);
    if k < |chain| {
      forall x: Entry | x in chain && x.serial != serial ensures x in c {
        var i :| 0 <= i < |chain| && chain[i] == x;
        assert c[if i < k then i else i - 1] == x;
      }
    }
  }

  /** Unlinking an address from its bucket removes exactly the entry with that address. */
  lemma UnlinkOneMembers(chains: seq<seq<Entry>>, b: nat, serial: nat)
    requires |chains| == TABLE_SIZE && b < TABLE_SIZE && Placed(chains) && UniqueSerials(chains)
    requires forall e: Entry | InTable(chains, e) && e.serial == serial :: Bucket(e.resource) == b
    ensures var c := chains[b := Unlink(chains[b], serial)];
      && Placed(c) && UniqueSerials(c)
      && forall e: Entry :: InTable(c, e) <==> InTable(chains, e) && e.serial != serial
  {
    var c := chains[b := Unlink(chains[b], serial)];
    UnlinkMembers(chains[b], serial);
    var rest := Unlink(chains[b], serial);
    forall i | 0 <= i < |rest| ensures Bucket(rest[i].resource) == b {
      assert rest[i] in chains[b];
    }
    forall e: Entry ensures InTable(c, e) <==> InTable(chains, e) && e.serial != serial {
      InSwapped(chains, b, c[b], e);
    }
  }

  predicate Points(refs: seq<Ref>, serial: nat) {
    exists i | 0 <= i < |refs| :: refs[i].serial == serial
  }

  /** A reference with an entry's address names that entry's resource. */
  ghost predicate Match(chains: seq<seq<Entry>>, refs: seq<Ref>)
    requires |chains| == TABLE_SIZE
  {
    forall e: Entry, r: Ref | InTable(chains, e) && r in refs && r.serial == e.serial :: r.resource == e.resource
  }

  /** Unlinking a list of references removes exactly the entries they point at. */
  lemma {:induction false} UnlinkAllMembers(chains: seq<seq<Entry>>, refs: seq<Ref>)
    requires |chains| == TABLE_SIZE && Placed(chains) && UniqueSerials(chains) && Match(chains, refs)
    ensures Placed(UnlinkAll(chains, refs)) && UniqueSerials(UnlinkAll(chains, refs))
    ensures forall e: Entry :: InTable(UnlinkAll(chains, refs), e) <==> InTable(chains, e) && !Points(refs, e.serial)
  {
    if refs != [] {
      var n := |refs| - 1;
      UnlinkAllMembers(chains, refs[..n]);
      LastUnlink(chains, refs, UnlinkAll(chains, refs[..n]));
    }
  }

  lemma LastUnlink(chains: seq<seq<Entry>>, refs: seq<Ref>, before: seq<seq<Entry>>)
    requires |chains| == |before| == TABLE_SIZE && refs != [] && Match(chains, refs)
    requires Placed(before) && UniqueSerials(before)
    requires forall e: Entry :: InTable(before, e) <==> InTable(chains, e) && !Points(refs[..|refs| - 1], e.serial)
    ensures var r := refs[|refs| - 1];
      var after := before[Bucket(r.resource) := Unlink(before[Bucket(r.resource)], r.serial)];
      && Placed(after) && UniqueSerials(after)
      && forall e: Entry :: InTable(after, e) <==> InTable(chains, e) && !Points(refs, e.serial)
  {
    var n := |refs| - 1;
    var r := refs[n];
    UnlinkOneMembers(before, Bucket(r.resource), r.serial);
    forall serial: nat ensures Points(refs, serial) <==> Points(refs[..n], serial) || r.serial == serial {
      if i :| 0 <= i < n && refs[..n][i].serial == serial {
        assert refs[i].serial == serial;
      }
      if i :| 0 <= i < |refs| && refs[i].serial == serial {
        assert i < n ==> refs[..n][i].serial == serial;
      }
    }
  }

  /** A held list names the resources of its entries, and points at no others. */
  lemma ListMatches(l: Locks, txn: nat)
    requires HeldOk(l) && txn in l.held
    ensures Match(l.chains, l.held[txn])
    ensures forall e: Entry | InTable(l.chains, e) :: Points(l.held[txn], e.serial) <==> e.holder == txn
  {
    assert ListExact(l, txn);
    var refs := l.held[txn];
    forall e: Entry, r: Ref | InTable(l.chains, e) && r in refs && r.serial == e.serial
      ensures r.resource == e.resource && e.holder == txn
    {
      var x: Entry :| InTable(l.chains, x) && x.holder == txn && x.serial == r.serial && x.resource == r.resource;
    }
    forall e: Entry | InTable(l.chains, e) && e.holder == txn ensures Points(refs, e.serial) {
      assert Ref(e.serial, e.resource) in l.held[txn];
    }
  }

  /** Ending a transaction removes exactly its own entries. */
  lemma EndRemovesExactly(l: Locks, txn: nat)
    requires HeldOk(l) && txn in l.held
    ensures Placed(Do(l, End(txn)).chains) && UniqueSerials(Do(l, End(txn)).chains)
    ensures forall e: Entry :: InTable(Do(l, End(txn)).chains, e) <==> InTable(l.chains, e) && e.holder != txn
  {
    ListMatches(l, txn);
    UnlinkAllMembers(l.chains, l.held[txn]);
  }

  lemma KeptList(l: Locks, l': Locks, txn: nat, t: nat)
    requires Shape(l) && Shape(l') && t in l.held && t in l'.held && t != txn && ListExact(l, t)
    requires l'.held[t] == l.held[t]
    requires forall e: Entry :: InTable(l'.chains, e) <==> InTable(l.chains, e) && e.holder != txn
    ensures ListExact(l', t)
  {
    forall r: Ref | r in l'.held[t]
      ensures exists x: Entry :: InTable(l'.chains, x) && x.holder == t && x.serial == r.serial && x.resource == r.resource
    {
      var x: Entry :| InTable(l.chains, x) && x.holder == t && x.serial == r.serial && x.resource == r.resource;
      assert InTable(l'.chains, x);
    }
  }

  lemma EndKeepsLists(l: Locks, txn: nat)
    requires HeldOk(l) && txn in l.held
    ensures var l' := Do(l, End(txn)); forall t <- l'.held :: ListExact(l', t)
  {
    var l' := Do(l, End(txn));
    EndRemovesExactly(l, txn);
    forall t <- l'.held ensures ListExact(l', t) {
      KeptList(l, l', txn, t);
    }
  }

  lemma EndKeepsHeld(l: Locks, txn: nat)
    requires HeldOk(l)
    ensures HeldOk(Do(l, End(txn)))
  {
    if txn in l.held {
      EndRemovesExactly(l, txn);
      EndKeepsLists(l, txn);
    } else {
      assert Do(l, End(txn)).held == l.held;
    }
  }

  lemma {:induction false} RunKeepsHeld(l: Locks, steps: seq<Step>)
    requires HeldOk(l) && IsRun(l, steps)
    ensures HeldOk(Exec(l, steps))
    decreases |steps|
  {
    if steps != [] {
      match steps[0] {
        case Begin(txn) => BeginKeepsHeld(l, txn);
        case Request(txn, name, mode) => RequestKeepsHeld(l, txn, name, mode);
        case End(txn) => EndKeepsHeld(l, txn);
      }
      RunKeepsHeld(Do(l, steps[0]), steps[1..]);
    }
  }

  lemma BeginKeepsHeld(l: Locks, txn: nat)
    requires HeldOk(l) && txn !in l.held
    ensures HeldOk(Do(l, Begin(txn)))
  {
    var l' := Do(l, Begin(txn));
    forall t <- l'.held ensures ListExact(l', t) {
      if t != txn {
        assert ListExact(l, t);
      }
    }
  }

  /** In every run, whatever the modes: a running transaction's list points at exactly the entries it
      holds, each once; and when it ends, exactly its entries leave the table. */
  lemma HeldListsAreExact(steps: seq<Step>, txn: nat)
    requires IsRun(Empty(), steps) && txn in Exec(Empty(), steps).held
    ensures ListExact(Exec(Empty(), steps), txn)
    ensures var l := Exec(Empty(), steps);
      forall e: Entry :: InTable(Do(l, End(txn)).chains, e) <==> InTable(l.chains, e) && e.holder != txn
  {
    RunKeepsHeld(Empty(), steps);
    EndRemovesExactly(Exec(Empty(), steps), txn);
  }
}
