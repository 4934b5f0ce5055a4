/** What transactions see, over every run. */
module MvccIsolation {
  import opened Options
  import opened MvccManagerModel

  // Part one: a snapshot's test tells exactly which transactions had ended when it
  // was taken. Part two: a reader that holds a snapshot gets the same version of a
  // row at every later point, whatever other transactions do.

  /** `deletedBy` is 0 while nobody has deleted the version. */
  datatype Version = Version(createdBy: nat, deletedBy: nat, data: seq<char>)

  /** What was true at the moment a snapshot was taken. */
  datatype Moment = Moment(begun: nat, ended: set<nat>, lost: set<nat>)

  /** The manager, every row's version chain (oldest first), and what happened so far:
      the ids below m.next have begun; `ended` are those committed or aborted, `lost`
      those that found no free slot; `taken` remembers the moment of each snapshot. */
  datatype Db = Db(
    m: Manager,
    rows: map<nat, seq<Version>>,
    ended: set<nat>,
    lost: set<nat>,
    taken: map<nat, (Snapshot, Moment)>)

  datatype Step =
    | Start(isolation: Isolation)
    | Finish(id: nat, commit: bool)
    | Append(writer: nat, row: nat, data: seq<char>)
    | Delete(writer: nat, row: nat, index: nat)

  function Chain(d: Db, row: nat): seq<Version> {
    if row in d.rows then d.rows[row] else []
  }

  /** Writers are in the table; they append, and mark versions as deleted, marked already or not. */
  predicate Enabled(d: Db, s: Step) {
    match s
    case Start(_) => true
    case Finish(_, _) => true
    case Append(w, row, _) => Registered(d.m, w)
    case Delete(w, row, k) => Registered(d.m, w) && k < |Chain(d, row)|
  }

  function Do(d: Db, s: Step): Db
    requires Enabled(d, s)
  {
    match s
    case Start(isolation) =>
      var (m, id) := Begin(d.m, isolation);
      var unplaced := if FirstFree(d.m.slots) < |d.m.slots| then {} else {id};
      var taken := if isolation.RepeatableRead? || isolation.Serializable?
                   then d.taken[id := (TakeSnapshot(d.m.(next := id + 1), id),
                                       Moment(d.m.next, d.ended, d.lost))]
                   else d.taken;
      d.(m := m, lost := d.lost + unplaced, taken := taken)
    case Finish(id, commit) =>
      var (m, status) := if commit then CommitTxn(d.m, id) else AbortTxn(d.m, id);
      d.(m := m, ended := if status == 0 then d.ended + {id} else d.ended)
    case Append(w, row, data) =>
      d.(rows := d.rows[row := Chain(d, row) + [Version(w, 0, data)]])
    case Delete(w, row, k) =>
      var chain := Chain(d, row);
      d.(rows := d.rows[row := chain[k := chain[k].(deletedBy := w)]])
  }

  predicate IsRun(d: Db, steps: seq<Step>)
    decreases |steps|
  {
    steps == [] || (Enabled(d, steps[0]) && IsRun(Do(d, steps[0]), steps[1..]))
  }

  function Exec(d: Db, steps: seq<Step>): Db
    requires IsRun(d, steps)
    decreases |steps|
  {
    if steps == [] then d else Exec(Do(d, steps[0]), steps[1..])
  }

  function Start0(): Db {
    Db(Initial(), map[], {}, {}, map[])
  }

  // ----- The table over a run -------------------------------------------------

  ghost predicate InTable(m: Manager, id: nat) {
    exists k | 0 <= k < |m.slots| :: Holds(m.slots[k], id)
  }

  /** No transaction sits in two slots. */
  ghost predicate Distinct(m: Manager) {
    forall i, j | 0 <= i < j < |m.slots| :: m.slots[i].Used? && m.slots[j].Used? ==>
      m.slots[i].txn.id != m.slots[j].txn.id
  }

  /** Each begun transaction is in the table, or has ended, or never got a slot. */
  ghost predicate Accounted(d: Db) {
    && d.m.next >= 1
    && Distinct(d.m)
    && (forall id: nat | InTable(d.m, id) :: 1 <= id < d.m.next && id !in d.ended && id !in d.lost)
    && (forall id | 1 <= id < d.m.next :: InTable(d.m, id) || id in d.ended || id in d.lost)
    && (forall id <- d.ended :: 1 <= id < d.m.next && id !in d.lost)
    && (forall id <- d.lost :: 1 <= id < d.m.next)
  }

  /** A recorded snapshot lists exactly the transactions then in the table. */
  ghost predicate Faithful(s: Snapshot, at: Moment, self: nat) {
    && s.xmax == at.begun + 1 && self == at.begun && 1 <= s.xmin <= s.xmax
    && (forall id <- s.active :: s.xmin <= id < at.begun && id !in at.ended && id !in at.lost)
    && (forall id | 1 <= id < at.begun :: id in s.active || id in at.ended || id in at.lost)
    && (forall id <- at.ended :: 1 <= id < at.begun)
    && (forall id <- at.lost :: 1 <= id < at.begun && id !in at.ended)
  }

  /** A registered reader's snapshot sees none of the other registered transactions. */
  ghost predicate Blind(m: Manager) {
    forall r, w | 0 <= r < |m.slots| && 0 <= w < |m.slots| && r != w ::
      m.slots[r].Used? && m.slots[w].Used? && m.slots[r].txn.snapshot.Some? ==>
        !IsVisible(m.slots[w].txn.id, m.slots[r].txn.snapshot)
  }

  ghost predicate SnapshotsOld(m: Manager) {
    forall k | 0 <= k < |m.slots| ::
      m.slots[k].Used? && m.slots[k].txn.snapshot.Some? ==>
        m.slots[k].txn.snapshot.value.xmin <= m.slots[k].txn.snapshot.value.xmax <= m.next
  }

  ghost predicate AllFaithful(d: Db) {
    forall r <- d.taken :: Faithful(d.taken[r].0, d.taken[r].1, r)
  }

  ghost predicate Inv(d: Db) {
    && Accounted(d) && Blind(d.m) && SnapshotsOld(d.m) && AllFaithful(d) && d.m.count == UsedSlots(d.m.slots)
  }

  lemma {:induction false} OthersAreTheTable(slots: seq<Slot>, self: nat)
    ensures forall id :: id in Others(slots, self) <==>
      id != self && exists k | 0 <= k < |slots| :: Holds(slots[k], id)
  {
    if slots != [] {
      var n := |slots| - 1;
      var init := slots[..n];
      OthersAreTheTable(init, self);
      forall id
        ensures id in Others(slots, self) <==> id != self && exists k | 0 <= k < |slots| :: Holds(slots[k], id)
      {
        if k :| 0 <= k < |slots| && Holds(slots[k], id) {
          assert k < n ==> Holds(init[k], id);
        }
        if k :| 0 <= k < |init| && Holds(init[k], id) {
          assert Holds(slots[k], id);
        }
      }
    }
  }

  lemma FindFinds(m: Manager, id: nat)
    ensures Registered(m, id) <==> InTable(m, id)
  {
    if Registered(m, id) {
      assert Holds(m.slots[Find(m.slots, id)], id);
    }
  }

  /** A transaction just begun sees nobody who is in the table. */
  lemma NewSnapshotIsFaithful(d: Db, self: nat)
    requires Accounted(d) && self == d.m.next
    ensures Faithful(TakeSnapshot(d.m.(next := self + 1), self), Moment(self, d.ended, d.lost), self)
    ensures forall id | InTable(d.m, id) :: !IsVisible(id, Some(TakeSnapshot(d.m.(next := self + 1), self)))
  {
    OthersAreTheTable(d.m.slots, self);
    var ids := Others(d.m.slots, self);
    assert forall id <- ids :: InTable(d.m, id);
  }

  /** Filling one slot with a new transaction. */
  lemma SlotFilled(m: Manager, k: nat, txn: Txn)
    requires k < |m.slots| && m.slots[k].Free?
    ensures forall id :: InTable(m.(slots := m.slots[k := Used(txn)]), id) <==> id == txn.id || InTable(m, id)
  {
    var m' := m.(slots := m.slots[k := Used(txn)]);
    forall id ensures InTable(m', id) <==> id == txn.id || InTable(m, id) {
      if i :| 0 <= i < |m'.slots| && Holds(m'.slots[i], id) {
        assert i != k ==> Holds(m.slots[i], id);
      }
      if i :| 0 <= i < |m.slots| && Holds(m.slots[i], id) {
        assert Holds(m'.slots[i], id);
      }
      assert Holds(m'.slots[k], txn.id);
    }
  }

  /** Emptying the slot of a transaction removes exactly that transaction. */
  lemma SlotFreed(m: Manager, id0: nat)
    requires Distinct(m) && Registered(m, id0)
    ensures forall id :: InTable(m.(slots := m.slots[Find(m.slots, id0) := Free]), id) <==> id != id0 && InTable(m, id)
  {
    var k := Find(m.slots, id0);
    var m' := m.(slots := m.slots[k := Free]);
    forall id ensures InTable(m', id) <==> id != id0 && InTable(m, id) {
      if i :| 0 <= i < |m'.slots| && Holds(m'.slots[i], id) {
        assert i != k && Holds(m.slots[i], id);
      }
      if i :| 0 <= i < |m.slots| && Holds(m.slots[i], id) && id != id0 {
        assert Holds(m'.slots[i], id);
      }
    }
  }

  lemma StartKeepsAccounts(d: Db, isolation: Isolation)
    requires Accounted(d)
    ensures Accounted(Do(d, Start(isolation)))
  {
    var d' := Do(d, Start(isolation));
    var k := FirstFree(d.m.slots);
    if k < |d.m.slots| {
      SlotFilled(d.m, k, d'.m.slots[k].txn);
      assert forall id :: InTable(d'.m, id) <==> id == d.m.next || InTable(d.m, id);
      assert Distinct(d'.m) by {
        forall i | 0 <= i < |d.m.slots| && d.m.slots[i].Used? ensures d.m.slots[i].txn.id < d.m.next {
          assert Holds(d.m.slots[i], d.m.slots[i].txn.id);
          assert InTable(d.m, d.m.slots[i].txn.id);
        }
      }
    } else {
      assert d'.m.slots == d.m.slots;
      assert forall id :: InTable(d'.m, id) <==> InTable(d.m, id);
    }
  }

  lemma NewReaderIsBlind(m: Manager, k: nat, txn: Txn)
    requires k < |m.slots| && Blind(m) && SnapshotsOld(m) && txn.id >= m.next
    requires txn.snapshot.Some? ==> forall id: nat | InTable(m, id) :: !IsVisible(id, txn.snapshot)
    ensures Blind(m.(slots := m.slots[k := Used(txn)]))
  {
    forall w | 0 <= w < |m.slots| && m.slots[w].Used? ensures InTable(m, m.slots[w].txn.id) {
      assert Holds(m.slots[w], m.slots[w].txn.id);
    }
  }

  lemma StartKeepsBlind(d: Db, isolation: Isolation)
    requires Accounted(d) && Blind(d.m) && SnapshotsOld(d.m)
    ensures Blind(Do(d, Start(isolation)).m)
  {
    var k := FirstFree(d.m.slots);
    NewSnapshotIsFaithful(d, d.m.next);
    if k < |d.m.slots| {
      NewReaderIsBlind(d.m, k, Do(d, Start(isolation)).m.slots[k].txn);
    }
  }

  lemma StartKeepsOld(d: Db, isolation: Isolation)
    requires Accounted(d) && SnapshotsOld(d.m)
    ensures SnapshotsOld(Do(d, Start(isolation)).m)
  {
    NewSnapshotIsFaithful(d, d.m.next);
  }

  lemma StartKeepsTaken(d: Db, isolation: Isolation)
    requires Accounted(d) && AllFaithful(d)
    ensures AllFaithful(Do(d, Start(isolation)))
  {
    NewSnapshotIsFaithful(d, d.m.next);
  }

  lemma StartKeepsInv(d: Db, isolation: Isolation)
    requires Inv(d)
    ensures Inv(Do(d, Start(isolation)))
  {
    StartKeepsAccounts(d, isolation);
    StartKeepsBlind(d, isolation);
    StartKeepsOld(d, isolation);
    StartKeepsTaken(d, isolation);
    FillCounts(d.m.slots, FirstFree(d.m.slots), Do(d, Start(isolation)).m.slots);
  }

  lemma {:induction false} FillCounts(a: seq<Slot>, k: nat, b: seq<Slot>)
    requires |a| == |b| && k <= |a| && (k < |a| ==> a[k].Free? && b[k].Used?)
    requires forall i | 0 <= i < |a| && i != k :: b[i] == a[i]
    ensures UsedSlots(b) == UsedSlots(a) + (if k < |a| then 1 else 0)
    decreases |a|
  {
    if a != [] {
      var n := |a| - 1;
      if k < n {
        FillCounts(a[..n], k, b[..n]);
      } else {
        assert a[..n] == b[..n];
      }
    }
  }

  lemma FinishKeepsAccounts(d: Db, id: nat, commit: bool)
    requires Accounted(d) && Registered(d.m, id)
    ensures Accounted(Do(d, Finish(id, commit)))
  {
    SlotFreed(d.m, id);
    FindFinds(d.m, id);
    var m1 := d.m.(slots := d.m.slots[Find(d.m.slots, id) := Free]);
    var d' := Do(d, Finish(id, commit));
    forall u: nat ensures InTable(d'.m, u) <==> u != id && InTable(d.m, u) {
      assert InTable(d'.m, u) <==> InTable(m1, u);
    }
  }

  lemma FinishKeepsReaders(d: Db, id: nat, commit: bool)
    requires Blind(d.m) && SnapshotsOld(d.m) && AllFaithful(d)
    ensures var e := Do(d, Finish(id, commit)); Blind(e.m) && SnapshotsOld(e.m) && AllFaithful(e)
  {
    var e := Do(d, Finish(id, commit));
    assert forall i | 0 <= i < |e.m.slots| && e.m.slots[i].Used? :: e.m.slots[i] == d.m.slots[i];
  }

  lemma FinishKeepsInv(d: Db, id: nat, commit: bool)
    requires Inv(d)
    ensures Inv(Do(d, Finish(id, commit)))
  {
    FinishKeepsReaders(d, id, commit);
    if Registered(d.m, id) {
      FinishKeepsAccounts(d, id, commit);
      var k := Find(d.m.slots, id);
      FillCounts(d.m.slots[k := Free], k, d.m.slots);
    }
  }

  lemma WriteKeepsInv(d: Db, s: Step)
    requires Inv(d) && Enabled(d, s) && (s.Append? || s.Delete?)
    ensures Inv(Do(d, s))
  {
    assert Do(d, s).m == d.m;
  }

  lemma StepKeepsInv(d: Db, s: Step)
    requires Inv(d) && Enabled(d, s)
    ensures Inv(Do(d, s))
  {
    match s
    case Start(isolation) => StartKeepsInv(d, isolation);
    case Finish(id, commit) => FinishKeepsInv(d, id, commit);
    case Append(_, _, _) => WriteKeepsInv(d, s);
    case Delete(_, _, _) => WriteKeepsInv(d, s);
  }

  lemma {:induction false} RunKeepsInv(d: Db, steps: seq<Step>)
    requires Inv(d) && IsRun(d, steps)
    ensures Inv(Exec(d, steps))
    decreases |steps|
  {
    if steps != [] {
      StepKeepsInv(d, steps[0]);
      RunKeepsInv(Do(d, steps[0]), steps[1..]);
    }
  }

  lemma {:induction false} AllFree(n: nat)
    ensures UsedSlots(seq(n, _ => Free)) == 0
  {
    if n > 0 {
      var s: seq<Slot> := seq(n, _ => Free);
      var t: seq<Slot> := seq(n - 1, _ => Free);
      assert s[..n - 1] == t;
      AllFree(n - 1);
    }
  }

  lemma EmptyInv()
    ensures Inv(Start0())
  {
    AllFree(MAX_ACTIVE);
  }

  lemma {:induction false} OthersFit(slots: seq<Slot>, self: nat)
    ensures |Others(slots, self)| <= UsedSlots(slots)
  {
    if slots != [] {
      OthersFit(slots[..|slots| - 1], self);
    }
  }

  /** At every point of every run the ids a snapshot lists fit the room reserved for them. */
  lemma SnapshotFits(steps: seq<Step>, self: nat)
    requires IsRun(Start0(), steps)
    ensures |TakeSnapshot(Exec(Start0(), steps).m, self).active| <= Exec(Start0(), steps).m.count
  {
    EmptyInv();
    RunKeepsInv(Start0(), steps);
    OthersFit(Exec(Start0(), steps).m.slots, self);
  }

  // ----- Part one: what a snapshot says ---------------------------------------

  lemma FaithfulTest(s: Snapshot, at: Moment, r: nat, id: nat)
    requires Faithful(s, at, r) && id >= 1 && id != r
    ensures IsVisible(id, Some(s)) <==> id < at.begun && (id in at.ended || id in at.lost)
  {
  }

  /** In every run: the visibility test on a snapshot accepts another transaction exactly when,
      at the moment of the snapshot, it had begun and was not in the table. */
  lemma SnapshotTest(steps: seq<Step>, r: nat, id: nat)
    requires IsRun(Start0(), steps) && r in Exec(Start0(), steps).taken
    requires id >= 1 && id != r
    ensures var (s, at) := Exec(Start0(), steps).taken[r];
      IsVisible(id, Some(s)) <==> id < at.begun && (id in at.ended || id in at.lost)
  {
    EmptyInv();
    RunKeepsInv(Start0(), steps);
    var d := Exec(Start0(), steps);
    FaithfulTest(d.taken[r].0, d.taken[r].1, r, id);
  }

  /** The test means "had begun and had ended" for every transaction if and only if no
      transaction had ever found the table full. */
  lemma SnapshotIsExactIff(steps: seq<Step>, r: nat)
    requires IsRun(Start0(), steps) && r in Exec(Start0(), steps).taken
    ensures var (s, at) := Exec(Start0(), steps).taken[r];
      (forall id | id >= 1 && id != r :: IsVisible(id, Some(s)) <==> id < at.begun && id in at.ended)
      <==> at.lost == {}
  {
    EmptyInv();
    RunKeepsInv(Start0(), steps);
    var d := Exec(Start0(), steps);
    var (s, at) := d.taken[r];
    assert Faithful(s, at, r);
    forall id | id >= 1 && id != r
      ensures IsVisible(id, Some(s)) <==> id < at.begun && (id in at.ended || id in at.lost)
    {
      SnapshotTest(steps, r, id);
    }
    if x :| x in at.lost {
      assert IsVisible(x, Some(s)) && x !in at.ended;
    }
  }

  /** The table after n begins. */
  function Crowd(n: nat): Db
    requires n <= MAX_ACTIVE
  {
    var slots := seq(MAX_ACTIVE, i => if 0 <= i < n then Used(Txn(i + 1, ReadCommitted, None)) else Free);
    Db(Manager(n + 1, n, slots, n, []), map[], {}, {}, map[])
  }

  function Begins(n: nat): seq<Step> {
    seq(n, _ => Start(ReadCommitted))
  }

  lemma {:induction false} RunGrows(d: Db, steps: seq<Step>, s: Step)
    requires IsRun(d, steps) && Enabled(Exec(d, steps), s)
    ensures IsRun(d, steps + [s]) && Exec(d, steps + [s]) == Do(Exec(d, steps), s)
    decreases |steps|
  {
    if steps == [] {
      assert [] + [s] == [s] && [s][1..] == [];
    } else {
      RunGrows(Do(d, steps[0]), steps[1..], s);
      assert (steps + [s])[1..] == steps[1..] + [s];
    }
  }

  lemma CrowdGrows(n: nat)
    requires n < MAX_ACTIVE
    ensures Do(Crowd(n), Start(ReadCommitted)) == Crowd(n + 1)
  {
    var slots := Crowd(n).m.slots;
    assert slots[n].Free? && FirstFree(slots) == n;
    assert slots[n := Used(Txn(n + 1, ReadCommitted, None))] == Crowd(n + 1).m.slots;
  }

  lemma {:induction false} CrowdGathers(n: nat)
    requires n <= MAX_ACTIVE
    ensures IsRun(Start0(), Begins(n)) && Exec(Start0(), Begins(n)) == Crowd(n)
  {
    if n == 0 {
      assert Crowd(0).m.slots == Start0().m.slots;
    } else {
      CrowdGathers(n - 1);
      RunGrows(Start0(), Begins(n - 1), Start(ReadCommitted));
      CrowdGrows(n - 1);
      assert Begins(n) == Begins(n - 1) + [Start(ReadCommitted)];
    }
  }

  /** 256 begins fill the table, one more finds no slot; after one of them has ended, a snapshot takes
      the homeless transaction for one that has ended. */
  lemma HomelessLooksEnded()
    ensures var steps := Begins(MAX_ACTIVE) + [Start(ReadCommitted)] + [Finish(1, true)] + [Start(Serializable)];
      && IsRun(Start0(), steps) && 258 in Exec(Start0(), steps).taken && Registered(Exec(Start0(), steps).m, 258)
      && var (s, at) := Exec(Start0(), steps).taken[258];
         at.lost == {257} && at.ended == {1} && IsVisible(257, Some(s))
  {
    var c := Crowd(MAX_ACTIVE);
    CrowdGathers(MAX_ACTIVE);
    RunGrows(Start0(), Begins(MAX_ACTIVE), Start(ReadCommitted));
    var d := Do(c, Start(ReadCommitted));
    assert d.lost == {257} && d.m.slots == c.m.slots && d.m.next == 258;
    RunGrows(Start0(), Begins(MAX_ACTIVE) + [Start(ReadCommitted)], Finish(1, true));
    var e := Do(d, Finish(1, true));
    assert Holds(c.m.slots[0], 1);
    assert e.ended == {1} && e.m.slots == c.m.slots[0 := Free];
    RunGrows(Start0(), Begins(MAX_ACTIVE) + [Start(ReadCommitted)] + [Finish(1, true)], Start(Serializable));
    assert FirstFree(e.m.slots) == 0;
    var steps := Begins(MAX_ACTIVE) + [Start(ReadCommitted)] + [Finish(1, true)] + [Start(Serializable)];
    SnapshotTest(steps, 258, 257);
  }

  // ----- Part two: repeatable read --------------------------------------------

  /** What a reader with the given snapshot sees of one version. */
  predicate VersionVisible(v: Version, reader: nat, snapshot: Option<Snapshot>) {
    if v.createdBy == reader then v.deletedBy == 0 || v.deletedBy != reader
    else IsVisible(v.createdBy, snapshot) && !(v.deletedBy != 0 && IsVisible(v.deletedBy, snapshot))
  }

  /** The newest version of a chain that the reader sees: its position, if any. */
  function NewestVisible(chain: seq<Version>, reader: nat, snapshot: Option<Snapshot>): (k: Option<nat>)
    ensures k.Some? ==> k.value < |chain| && VersionVisible(chain[k.value], reader, snapshot)
    ensures forall i | (if k.Some? then k.value + 1 else 0) <= i < |chain| ::
      !VersionVisible(chain[i], reader, snapshot)
  {
    if chain == [] then None
    else
      var n := |chain| - 1;
      if VersionVisible(chain[n], reader, snapshot) then Some(n)
      else NewestVisible(chain[..n], reader, snapshot)
  }

  /** What the manager's table lets a reader see of a chain; one that is not in the table sees nothing. */
  function Seen(m: Manager, chain: seq<Version>, reader: nat): Option<nat> {
    var k := Find(m.slots, reader);
    if k == |m.slots| then None else NewestVisible(chain, reader, m.slots[k].txn.snapshot)
  }

  function Read(d: Db, reader: nat, row: nat): Option<nat> {
    Seen(d.m, Chain(d, row), reader)
  }

  predicate ByOther(s: Step, reader: nat) {
    match s
    case Start(_) => true
    case Finish(id, _) => id != reader
    case Append(w, _, _) => w != reader
    case Delete(w, _, _) => w != reader
  }

  /** The reader is in the table with a snapshot. */
  predicate Reading(d: Db, reader: nat, snapshot: Snapshot) {
    Registered(d.m, reader) && d.m.slots[Find(d.m.slots, reader)].txn.snapshot == Some(snapshot)
  }

  lemma {:induction false} AppendInvisible(chain: seq<Version>, v: Version, reader: nat, snapshot: Option<Snapshot>)
    requires !VersionVisible(v, reader, snapshot)
    ensures NewestVisible(chain + [v], reader, snapshot) == NewestVisible(chain, reader, snapshot)
  {
    assert (chain + [v])[..|chain|] == chain;
  }

  lemma {:induction false} SameVisibility(a: seq<Version>, b: seq<Version>, reader: nat, snapshot: Option<Snapshot>)
    requires |a| == |b|
    requires forall i | 0 <= i < |a| ::
      VersionVisible(a[i], reader, snapshot) == VersionVisible(b[i], reader, snapshot)
    ensures NewestVisible(a, reader, snapshot) == NewestVisible(b, reader, snapshot)
    decreases |a|
  {
    if a != [] {
      SameVisibility(a[..|a| - 1], b[..|b| - 1], reader, snapshot);
    }
  }

  /** Slots keep their transaction unless that transaction ends. */
  lemma StillReading(d: Db, s: Step, reader: nat, snapshot: Snapshot)
    requires Inv(d) && Enabled(d, s) && ByOther(s, reader) && Reading(d, reader, snapshot)
    ensures Inv(Do(d, s)) && Reading(Do(d, s), reader, snapshot)
  {
    var k := Find(d.m.slots, reader);
    var d' := Do(d, s);
    StepKeepsInv(d, s);
    assert Holds(d'.m.slots[k], reader) && d'.m.slots[k] == d.m.slots[k];
    assert InTable(d'.m, reader);
    FindFinds(d'.m, reader);
  }

  lemma OthersUnseen(d: Db, reader: nat, snapshot: Snapshot, w: nat)
    requires Inv(d) && Reading(d, reader, snapshot) && Registered(d.m, w) && w != reader
    ensures w >= 1 && !IsVisible(w, Some(snapshot))
  {
    FindFinds(d.m, w);
    assert Holds(d.m.slots[Find(d.m.slots, w)], w);
  }

  /** The reader does not see the version, and would if nobody had deleted it. */
  predicate HiddenByDeleter(v: Version, reader: nat, snapshot: Option<Snapshot>) {
    v.deletedBy != 0
    && if v.createdBy == reader then v.deletedBy == reader
       else IsVisible(v.createdBy, snapshot) && IsVisible(v.deletedBy, snapshot)
  }

  /** A mark on version k, which replaces its deleter, brings the version back for the reader. */
  predicate BringsBack(chain: seq<Version>, k: nat, reader: nat, snapshot: Option<Snapshot>) {
    && k < |chain| && HiddenByDeleter(chain[k], reader, snapshot)
    && forall i | k < i < |chain| :: !VersionVisible(chain[i], reader, snapshot)
  }

  function Marked(chain: seq<Version>, k: nat, w: nat): seq<Version>
    requires k < |chain|
  {
    chain[k := chain[k].(deletedBy := w)]
  }

  lemma MarkShows(v: Version, w: nat, reader: nat, snapshot: Option<Snapshot>)
    requires w != 0 && w != reader && !IsVisible(w, snapshot)
    ensures VersionVisible(v.(deletedBy := w), reader, snapshot)
      <==> VersionVisible(v, reader, snapshot) || HiddenByDeleter(v, reader, snapshot)
    ensures HiddenByDeleter(v, reader, snapshot) ==> !VersionVisible(v, reader, snapshot)
  {
  }

  /** A mark by a writer that the reader does not see leaves the version read as it is exactly unless it
      brings back a hidden version with no visible one behind it. */
  lemma MarkKeepsReadIff(chain: seq<Version>, k: nat, w: nat, reader: nat, snapshot: Option<Snapshot>)
    requires k < |chain| && w != 0 && w != reader && !IsVisible(w, snapshot)
    ensures NewestVisible(Marked(chain, k, w), reader, snapshot) == NewestVisible(chain, reader, snapshot)
      <==> !BringsBack(chain, k, reader, snapshot)
  {
    var marked := Marked(chain, k, w);
    MarkShows(chain[k], w, reader, snapshot);
    if !HiddenByDeleter(chain[k], reader, snapshot) {
      SameVisibility(marked, chain, reader, snapshot);
    } else if i :| k < i < |chain| && VersionVisible(chain[i], reader, snapshot) {
      assert marked[i] == chain[i];
      assert forall j | k < j < |chain| :: marked[j] == chain[j];
    } else {
      assert VersionVisible(marked[k], reader, snapshot) && !VersionVisible(chain[k], reader, snapshot);
      assert NewestVisible(marked, reader, snapshot) != NewestVisible(chain, reader, snapshot);
    }
  }

  /** Versions keep their creators and data, and new ones come behind. */
  predicate Continues(was: seq<Version>, now: seq<Version>) {
    |was| <= |now| && forall i | 0 <= i < |was| :: now[i].createdBy == was[i].createdBy && now[i].data == was[i].data
  }

  lemma ContinuesOn(a: seq<Version>, b: seq<Version>, c: seq<Version>)
    requires Continues(a, b) && Continues(b, c)
    ensures Continues(a, c)
  {
  }

  /** The step brings back a version of the row. */
  predicate Uncovers(d: Db, s: Step, reader: nat, snapshot: Snapshot, row: nat) {
    s.Delete? && s.row == row && BringsBack(Chain(d, row), s.index, reader, Some(snapshot))
  }

  lemma AppendRepeats(d: Db, s: Step, reader: nat, snapshot: Snapshot, row: nat)
    requires s.Append? && Enabled(d, s) && !IsVisible(s.writer, Some(snapshot)) && s.writer != reader
    ensures NewestVisible(Chain(Do(d, s), row), reader, Some(snapshot))
      == NewestVisible(Chain(d, row), reader, Some(snapshot))
    ensures Continues(Chain(d, row), Chain(Do(d, s), row))
  {
    if s.row == row {
      AppendInvisible(Chain(d, row), Version(s.writer, 0, s.data), reader, Some(snapshot));
    }
  }

  lemma MarkRepeatsIff(d: Db, s: Step, reader: nat, snapshot: Snapshot, row: nat)
    requires s.Delete? && Enabled(d, s)
    requires s.writer != 0 && !IsVisible(s.writer, Some(snapshot)) && s.writer != reader
    ensures var was := NewestVisible(Chain(d, row), reader, Some(snapshot));
      NewestVisible(Chain(Do(d, s), row), reader, Some(snapshot)) == was <==> !Uncovers(d, s, reader, snapshot, row)
    ensures Continues(Chain(d, row), Chain(Do(d, s), row))
  {
    if s.row == row {
      assert Chain(Do(d, s), row) == Marked(Chain(d, row), s.index, s.writer);
      MarkKeepsReadIff(Chain(d, row), s.index, s.writer, reader, Some(snapshot));
    }
  }

  /** One step of another transaction keeps the version that the reader sees exactly unless it brings one
      back; no step changes creators or data. */
  lemma OneStepRepeatsIff(d: Db, s: Step, reader: nat, snapshot: Snapshot, row: nat)
    requires Inv(d) && Enabled(d, s) && ByOther(s, reader) && Reading(d, reader, snapshot)
    ensures var was := NewestVisible(Chain(d, row), reader, Some(snapshot));
      NewestVisible(Chain(Do(d, s), row), reader, Some(snapshot)) == was <==> !Uncovers(d, s, reader, snapshot, row)
    ensures Continues(Chain(d, row), Chain(Do(d, s), row))
  {
    match s
    case Start(_) =>
    case Finish(_, _) =>
    case Append(w, _, _) =>
      OthersUnseen(d, reader, snapshot, w);
      AppendRepeats(d, s, reader, snapshot, row);
    case Delete(w, _, _) =>
      OthersUnseen(d, reader, snapshot, w);
      MarkRepeatsIff(d, s, reader, snapshot, row);
  }

  // ----- Over runs ------------------------------------------------------------

  /** The state after the first k steps. */
  function After(d: Db, steps: seq<Step>, k: nat): Db
    requires IsRun(d, steps) && k <= |steps|
    decreases k
  {
    if k == 0 then d else After(Do(d, steps[0]), steps[1..], k - 1)
  }

  lemma {:induction false} NextAfter(d: Db, steps: seq<Step>, k: nat)
    requires IsRun(d, steps) && k < |steps|
    ensures Enabled(After(d, steps, k), steps[k]) && After(d, steps, k + 1) == Do(After(d, steps, k), steps[k])
    decreases k
  {
    if k > 0 {
      NextAfter(Do(d, steps[0]), steps[1..], k - 1);
    }
  }

  lemma {:induction false} AfterAll(d: Db, steps: seq<Step>)
    requires IsRun(d, steps)
    ensures After(d, steps, |steps|) == Exec(d, steps)
    decreases |steps|
  {
    if steps != [] {
      AfterAll(Do(d, steps[0]), steps[1..]);
    }
  }

  predicate UncoversAt(d: Db, steps: seq<Step>, reader: nat, snapshot: Snapshot, row: nat, k: nat)
    requires IsRun(d, steps) && k < |steps|
  {
    Uncovers(After(d, steps, k), steps[k], reader, snapshot, row)
  }

  predicate AllByOthers(steps: seq<Step>, reader: nat) {
    forall i | 0 <= i < |steps| :: ByOther(steps[i], reader)
  }

  lemma StillReadingNext(d: Db, s: Step, d': Db, reader: nat, snapshot: Snapshot)
    requires Inv(d) && Enabled(d, s) && d' == Do(d, s) && ByOther(s, reader) && Reading(d, reader, snapshot)
    ensures Inv(d') && Reading(d', reader, snapshot)
  {
    StillReading(d, s, reader, snapshot);
  }

  lemma {:induction false} KeptAlong(d: Db, steps: seq<Step>, kept: Db -> bool, k: nat)
    requires IsRun(d, steps) && k <= |steps| && kept(d)
    requires forall i: nat | i < k && kept(After(d, steps, i)) :: kept(After(d, steps, i + 1))
    ensures kept(After(d, steps, k))
    decreases k
  {
    if k > 0 {
      KeptAlong(d, steps, kept, k - 1);
    }
  }

  lemma StillReadingAt(d: Db, steps: seq<Step>, reader: nat, snapshot: Snapshot, k: nat)
    requires Inv(d) && IsRun(d, steps) && Reading(d, reader, snapshot) && AllByOthers(steps, reader) && k <= |steps|
    ensures Inv(After(d, steps, k)) && Reading(After(d, steps, k), reader, snapshot)
  {
    var kept := e => Inv(e) && Reading(e, reader, snapshot);
    forall i: nat | i < k && kept(After(d, steps, i)) ensures kept(After(d, steps, i + 1)) {
      NextAfter(d, steps, i);
      StillReadingNext(After(d, steps, i), steps[i], After(d, steps, i + 1), reader, snapshot);
    }
    KeptAlong(d, steps, kept, k);
  }

  /** What one step does to the version that a reader in the table sees. */
  lemma OneReadRepeatsIff(d: Db, s: Step, reader: nat, snapshot: Snapshot, row: nat)
    requires Inv(d) && Enabled(d, s) && ByOther(s, reader) && Reading(d, reader, snapshot)
    ensures Read(Do(d, s), reader, row) == Read(d, reader, row) <==> !Uncovers(d, s, reader, snapshot, row)
    ensures Continues(Chain(d, row), Chain(Do(d, s), row))
  {
    StillReading(d, s, reader, snapshot);
    OneStepRepeatsIff(d, s, reader, snapshot, row);
  }

  lemma StepAt(d: Db, steps: seq<Step>, reader: nat, snapshot: Snapshot, row: nat, k: nat)
    requires Inv(d) && IsRun(d, steps) && Reading(d, reader, snapshot) && AllByOthers(steps, reader) && k < |steps|
    ensures Read(After(d, steps, k + 1), reader, row) == Read(After(d, steps, k), reader, row)
      <==> !UncoversAt(d, steps, reader, snapshot, row, k)
    ensures Continues(Chain(After(d, steps, k), row), Chain(After(d, steps, k + 1), row))
  {
    StillReadingAt(d, steps, reader, snapshot, k);
    NextAfter(d, steps, k);
    OneReadRepeatsIff(After(d, steps, k), steps[k], reader, snapshot, row);
  }

  /** None of the first k steps brings a version back. */
  predicate Covered(d: Db, steps: seq<Step>, reader: nat, snapshot: Snapshot, row: nat, k: nat)
    requires IsRun(d, steps) && k <= |steps|
  {
    forall i: nat | i < k :: !UncoversAt(d, steps, reader, snapshot, row, i)
  }

  /** Step i changes neither the version read nor any creator or data. */
  predicate Steady(d: Db, steps: seq<Step>, reader: nat, row: nat, i: nat)
    requires IsRun(d, steps) && i < |steps|
  {
    && Read(After(d, steps, i + 1), reader, row) == Read(After(d, steps, i), reader, row)
    && Continues(Chain(After(d, steps, i), row), Chain(After(d, steps, i + 1), row))
  }

  lemma {:induction false} SteadyAlong(d: Db, steps: seq<Step>, reader: nat, row: nat, k: nat)
    requires IsRun(d, steps) && k <= |steps| && forall i: nat | i < k :: Steady(d, steps, reader, row, i)
    ensures Read(After(d, steps, k), reader, row) == Read(d, reader, row)
    ensures Continues(Chain(d, row), Chain(After(d, steps, k), row))
    decreases k
  {
    if k > 0 {
      SteadyAlong(d, steps, reader, row, k - 1);
      assert Steady(d, steps, reader, row, k - 1);
      ContinuesOn(Chain(d, row), Chain(After(d, steps, k - 1), row), Chain(After(d, steps, k), row));
    }
  }

  lemma ReadsRepeat(d: Db, steps: seq<Step>, reader: nat, snapshot: Snapshot, row: nat, k: nat)
    requires Inv(d) && IsRun(d, steps) && Reading(d, reader, snapshot) && AllByOthers(steps, reader) && k <= |steps|
    requires Covered(d, steps, reader, snapshot, row, k)
    ensures Read(After(d, steps, k), reader, row) == Read(d, reader, row)
    ensures Continues(Chain(d, row), Chain(After(d, steps, k), row))
  {
    forall i: nat | i < k ensures Steady(d, steps, reader, row, i) {
      StepAt(d, steps, reader, snapshot, row, i);
    }
    SteadyAlong(d, steps, reader, row, k);
  }

  /** After any run `before`, a reader in the table with a snapshot reads the same version at every later
      point exactly if no step of the others brings back a version that its deleter hid. */
  lemma RepeatableReadIff(before: seq<Step>, after: seq<Step>, reader: nat, snapshot: Snapshot, row: nat)
    requires IsRun(Start0(), before) && IsRun(Exec(Start0(), before), after)
    requires Reading(Exec(Start0(), before), reader, snapshot) && AllByOthers(after, reader)
    ensures var d := Exec(Start0(), before);
      (forall k: nat | k <= |after| :: Read(After(d, after, k), reader, row) == Read(d, reader, row))
      <==> Covered(d, after, reader, snapshot, row, |after|)
  {
    EmptyInv();
    RunKeepsInv(Start0(), before);
    var d := Exec(Start0(), before);
    if Covered(d, after, reader, snapshot, row, |after|) {
      forall k: nat | k <= |after| ensures Read(After(d, after, k), reader, row) == Read(d, reader, row) {
        ReadsRepeat(d, after, reader, snapshot, row, k);
      }
    } else {
      var k: nat :| k < |after| && UncoversAt(d, after, reader, snapshot, row, k);
      StepAt(d, after, reader, snapshot, row, k);
    }
  }

  /** Marks go only to versions that nobody has marked. */
  predicate MarksOnce(d: Db, steps: seq<Step>)
    requires IsRun(d, steps)
  {
    forall k: nat | k < |steps| && steps[k].Delete? ::
      var chain := Chain(After(d, steps, k), steps[k].row);
      steps[k].index < |chain| && chain[steps[k].index].deletedBy == 0
  }

  /** Repeatable read: after any run `before`, a reader in the table with a snapshot reads the same
      version with the same data after any further steps by others that mark no version twice. */
  lemma RepeatableRead(before: seq<Step>, after: seq<Step>, reader: nat, snapshot: Snapshot, row: nat)
    requires IsRun(Start0(), before) && IsRun(Exec(Start0(), before), after)
    requires Reading(Exec(Start0(), before), reader, snapshot) && AllByOthers(after, reader)
    requires MarksOnce(Exec(Start0(), before), after)
    ensures var d, d' := Exec(Start0(), before), Exec(Exec(Start0(), before), after);
      var k := Read(d, reader, row);
      Read(d', reader, row) == k
      && (k.Some? ==> k.value < |Chain(d', row)| && Chain(d', row)[k.value].data == Chain(d, row)[k.value].data)
  {
    EmptyInv();
    RunKeepsInv(Start0(), before);
    var d := Exec(Start0(), before);
    forall k: nat | k < |after| ensures !UncoversAt(d, after, reader, snapshot, row, k) {
    }
    ReadsRepeat(d, after, reader, snapshot, row, |after|);
    AfterAll(d, after);
  }

  // ----- A mark that is seen --------------------------------------------------

  function Slots(first: Slot, second: Slot): seq<Slot> {
    Start0().m.slots[0 := first][1 := second]
  }

  function Plain(id: nat): Slot {
    Used(Txn(id, ReadCommitted, None))
  }

  lemma BeginsAlone(d: Db)
    requires d.m.slots == Start0().m.slots
    ensures var e := Do(d, Start(ReadCommitted));
      && e.m.slots == Slots(Plain(d.m.next), Free) && e.m.next == d.m.next + 1
      && e.rows == d.rows && e.ended == d.ended && e.lost == d.lost && e.taken == d.taken
    ensures Find(Slots(Plain(d.m.next), Free), d.m.next) == 0
  {
    assert Holds(Slots(Plain(d.m.next), Free)[0], d.m.next);
    assert d.m.slots[0].Free? && FirstFree(d.m.slots) == 0;
    assert d.m.slots[0 := Plain(d.m.next)] == Slots(Plain(d.m.next), Free);
  }

  lemma EndsAlone(d: Db, id: nat)
    requires d.m.slots == Slots(Plain(id), Free)
    ensures var e := Do(d, Finish(id, true));
      && e.m.slots == Start0().m.slots && e.m.next == d.m.next
      && e.rows == d.rows && e.ended == d.ended + {id} && e.lost == d.lost && e.taken == d.taken
  {
    assert Holds(d.m.slots[0], id);
    assert d.m.slots[0 := Free] == Start0().m.slots;
  }

  /** One transaction after the run begins, appends or marks, and commits. */
  lemma OneAlone(steps: seq<Step>, s: Step, d: Db)
    requires IsRun(Start0(), steps) && Exec(Start0(), steps) == d && d.m.slots == Start0().m.slots
    requires (s.Append? || (s.Delete? && s.index < |Chain(d, s.row)|)) && s.writer == d.m.next
    ensures var all := steps + [Start(ReadCommitted)] + [s] + [Finish(s.writer, true)];
      IsRun(Start0(), all) &&
      var e := Exec(Start0(), all);
      && e.m.slots == Start0().m.slots && e.m.next == d.m.next + 1 && e.ended == d.ended + {s.writer}
      && e.lost == d.lost && e.taken == d.taken
      && Chain(e, s.row) == if s.Append? then Chain(d, s.row) + [Version(s.writer, 0, s.data)]
                            else Marked(Chain(d, s.row), s.index, s.writer)
  {
    BeginsAlone(d);
    RunGrows(Start0(), steps, Start(ReadCommitted));
    var e1 := Do(d, Start(ReadCommitted));
    RunGrows(Start0(), steps + [Start(ReadCommitted)], s);
    EndsAlone(Do(e1, s), s.writer);
    RunGrows(Start0(), steps + [Start(ReadCommitted)] + [s], Finish(s.writer, true));
  }

  /** Transaction 1 makes a version, 2 deletes it; both commit. */
  function MadeAndDeleted(): seq<Step> {
    [] + [Start(ReadCommitted)] + [Append(1, 0, "x")] + [Finish(1, true)]
    + [Start(ReadCommitted)] + [Delete(2, 0, 0)] + [Finish(2, true)]
  }

  /** Transaction 3 is active, 4 takes its snapshot. */
  function BothActive(): seq<Step> {
    MadeAndDeleted() + [Start(ReadCommitted)] + [Start(Serializable)]
  }

  lemma MadeAndDeletedRuns()
    ensures IsRun(Start0(), MadeAndDeleted())
    ensures var d := Exec(Start0(), MadeAndDeleted());
      && d.m.slots == Start0().m.slots && d.m.next == 3 && d.ended == {1, 2} && d.lost == {}
      && Chain(d, 0) == [Version(1, 2, "x")]
  {
    OneAlone([], Append(1, 0, "x"), Start0());
    var first := [] + [Start(ReadCommitted)] + [Append(1, 0, "x")] + [Finish(1, true)];
    OneAlone(first, Delete(2, 0, 0), Exec(Start0(), first));
  }

  /** The two begins, in a state with an empty table. */
  lemma BothBegin(d: Db)
    requires d.m.slots == Start0().m.slots && d.m.next == 3 && d.ended == {1, 2} && d.lost == {}
    ensures var f := Do(Do(d, Start(ReadCommitted)), Start(Serializable));
      && f.rows == d.rows && Registered(f.m, 3)
      && 4 in f.taken && f.taken[4].1 == Moment(4, {1, 2}, {}) && Reading(f, 4, f.taken[4].0)
  {
    BeginsAlone(d);
    var e := Do(d, Start(ReadCommitted));
    var f := Do(e, Start(Serializable));
    assert FirstFree(e.m.slots) == 1;
    assert Holds(f.m.slots[0], 3) && Holds(f.m.slots[1], 4) && !Holds(f.m.slots[0], 4);
  }

  lemma BothActiveRuns(steps: seq<Step>)
    requires steps == BothActive()
    ensures IsRun(Start0(), steps)
    ensures var d := Exec(Start0(), steps);
      && Chain(d, 0) == [Version(1, 2, "x")] && Registered(d.m, 3)
      && 4 in d.taken && d.taken[4].1 == Moment(4, {1, 2}, {}) && Reading(d, 4, d.taken[4].0)
  {
    MadeAndDeletedRuns();
    var first := MadeAndDeleted();
    BothBegin(Exec(Start0(), first));
    RunGrows(Start0(), first, Start(ReadCommitted));
    RunGrows(Start0(), first + [Start(ReadCommitted)], Start(Serializable));
  }

  /** The second mark in such a state. */
  lemma MarkAgain(d: Db, snapshot: Snapshot)
    requires Reading(d, 4, snapshot) && Registered(d.m, 3) && Chain(d, 0) == [Version(1, 2, "x")]
    requires IsVisible(1, Some(snapshot)) && IsVisible(2, Some(snapshot)) && !IsVisible(3, Some(snapshot))
    ensures IsRun(d, [Delete(3, 0, 0)])
    ensures Read(d, 4, 0) == None && Read(Exec(d, [Delete(3, 0, 0)]), 4, 0) == Some(0)
  {
    var e := Do(d, Delete(3, 0, 0));
    assert [Delete(3, 0, 0)][1..] == [];
    assert Chain(e, 0) == [Version(1, 3, "x")];
    assert Seen(e.m, [Version(1, 3, "x")], 4) == Some(0);
  }

  /** Reader 4 sees nothing of the version that 1 made and 2 deleted; when 3, which it does not see, marks it
      once more, the reader sees it. */
  lemma SecondMarkIsSeen(steps: seq<Step>)
    requires steps == BothActive()
    ensures IsRun(Start0(), steps) && IsRun(Exec(Start0(), steps), [Delete(3, 0, 0)])
    ensures var d := Exec(Start0(), steps);
      && 4 in d.taken && Reading(d, 4, d.taken[4].0)
      && Read(d, 4, 0) == None && Read(Exec(d, [Delete(3, 0, 0)]), 4, 0) == Some(0)
  {
    BothActiveRuns(steps);
    SnapshotTest(steps, 4, 1);
    SnapshotTest(steps, 4, 2);
    SnapshotTest(steps, 4, 3);
    var d := Exec(Start0(), steps);
    MarkAgain(d, d.taken[4].0);
  }
}
