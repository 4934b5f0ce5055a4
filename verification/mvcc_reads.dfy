/** What a transaction reads, from its begin on, by its isolation level and the history. */
module MvccReads {
  import opened Options
  import opened MvccManagerModel
  import opened MvccIsolation

  /** The levels that keep one snapshot. */
  predicate KeepsSnapshot(isolation: Isolation) {
    isolation == RepeatableRead || isolation == Serializable
  }

  // ----- The table remembers each transaction's level and snapshot ----------------------

  /** Each transaction in the table holds the snapshot that was taken when it began, if its level keeps one,
      and none otherwise. */
  ghost predicate SlotsTrue(d: Db) {
    && (forall r <- d.taken :: r < d.m.next)
    && forall k | 0 <= k < |d.m.slots| && d.m.slots[k].Used? ::
         var t := d.m.slots[k].txn;
         if KeepsSnapshot(t.isolation) then t.id in d.taken && t.snapshot == Some(d.taken[t.id].0)
         else t.snapshot == None
  }

  /** Versions were made by transactions that had begun. */
  ghost predicate MadeByBegun(d: Db) {
    forall row, i | row in d.rows && 0 <= i < |d.rows[row]| :: d.rows[row][i].createdBy >= 1
  }

  lemma TableIsOld(d: Db, k: nat)
    requires Accounted(d) && k < |d.m.slots| && d.m.slots[k].Used?
    ensures 1 <= d.m.slots[k].txn.id < d.m.next
  {
    assert Holds(d.m.slots[k], d.m.slots[k].txn.id);
    assert InTable(d.m, d.m.slots[k].txn.id);
  }

  lemma StartKeepsSlotsTrue(d: Db, isolation: Isolation)
    requires Accounted(d) && SlotsTrue(d)
    ensures SlotsTrue(Do(d, Start(isolation)))
  {
    forall k | 0 <= k < |d.m.slots| && d.m.slots[k].Used? ensures d.m.slots[k].txn.id < d.m.next {
      TableIsOld(d, k);
    }
  }

  lemma FinishKeepsSlotsTrue(d: Db, id: nat, commit: bool)
    requires SlotsTrue(d)
    ensures SlotsTrue(Do(d, Finish(id, commit)))
  {
    var e := Do(d, Finish(id, commit));
    assert forall k | 0 <= k < |e.m.slots| && e.m.slots[k].Used? :: e.m.slots[k] == d.m.slots[k];
  }

  lemma StepKeepsSlotsTrue(d: Db, s: Step)
    requires Accounted(d) && Enabled(d, s) && SlotsTrue(d)
    ensures SlotsTrue(Do(d, s))
  {
    match s
    case Start(isolation) => StartKeepsSlotsTrue(d, isolation);
    case Finish(id, commit) => FinishKeepsSlotsTrue(d, id, commit);
    case _ =>
  }

  lemma StepKeepsMade(d: Db, s: Step)
    requires Accounted(d) && Enabled(d, s) && MadeByBegun(d)
    ensures MadeByBegun(Do(d, s))
  {
    if s.Append? {
      TableIsOld(d, Find(d.m.slots, s.writer));
    }
  }

  lemma {:induction false} RunKeepsTrue(d: Db, steps: seq<Step>)
    requires Inv(d) && SlotsTrue(d) && MadeByBegun(d) && IsRun(d, steps)
    ensures Inv(Exec(d, steps)) && SlotsTrue(Exec(d, steps)) && MadeByBegun(Exec(d, steps))
    decreases |steps|
  {
    if steps != [] {
      StepKeepsInv(d, steps[0]);
      StepKeepsSlotsTrue(d, steps[0]);
      StepKeepsMade(d, steps[0]);
      RunKeepsTrue(Do(d, steps[0]), steps[1..]);
    }
  }

  lemma ReachedIsTrue(steps: seq<Step>)
    requires IsRun(Start0(), steps)
    ensures var d := Exec(Start0(), steps); Inv(d) && SlotsTrue(d) && MadeByBegun(d)
  {
    EmptyInv();
    RunKeepsTrue(Start0(), steps);
  }

  // ----- Begin --------------------------------------------------------------------------

  /** After any run, a begin that finds a free slot puts the transaction into the table at its level; from
      REPEATABLE READ on it holds the snapshot of that moment, below it holds none. */
  lemma BeginTakesItsSnapshot(before: seq<Step>, isolation: Isolation)
    requires IsRun(Start0(), before)
    ensures var d := Exec(Start0(), before);
      var (d', id) := (Do(d, Start(isolation)), d.m.next);
      && (Registered(d'.m, id) <==> exists k | 0 <= k < |d.m.slots| :: d.m.slots[k].Free?)
      && (Registered(d'.m, id) ==>
            && d'.m.slots[Find(d'.m.slots, id)].txn.isolation == isolation
            && if KeepsSnapshot(isolation) then id in d'.taken && Reading(d', id, d'.taken[id].0)
               else d'.m.slots[Find(d'.m.slots, id)].txn.snapshot == None)
  {
    ReachedIsTrue(before);
    var d := Exec(Start0(), before);
    var d' := Do(d, Start(isolation));
    StartKeepsSlotsTrue(d, isolation);
    NewIsEntered(d, isolation);
  }

  lemma NewIsEntered(d: Db, isolation: Isolation)
    requires Accounted(d)
    ensures var d' := Do(d, Start(isolation));
      var (k, j) := (FirstFree(d.m.slots), Find(d'.m.slots, d.m.next));
      if k == |d.m.slots| then j == |d'.m.slots|
      else j == k && k < |d'.m.slots| && d'.m.slots[k].txn.isolation == isolation
  {
    var d' := Do(d, Start(isolation));
    var k := FirstFree(d.m.slots);
    forall i | 0 <= i < |d.m.slots| && d.m.slots[i].Used? ensures d.m.slots[i].txn.id < d.m.next {
      TableIsOld(d, i);
    }
    if k < |d.m.slots| {
      assert Holds(d'.m.slots[k], d.m.next);
    }
  }

  // ----- Repeatable read from the begin on ----------------------------------------------

  /** A transaction of a level that keeps its snapshot, begun after any run with a slot free, reads the same
      version at every later point exactly if no step of the others brings back a version that its deleter
      hid. */
  lemma RepeatsFromBeginIff(before: seq<Step>, isolation: Isolation, after: seq<Step>, row: nat)
    requires IsRun(Start0(), before) && KeepsSnapshot(isolation)
    requires exists k | 0 <= k < |Exec(Start0(), before).m.slots| :: Exec(Start0(), before).m.slots[k].Free?
    requires IsRun(Do(Exec(Start0(), before), Start(isolation)), after)
    requires AllByOthers(after, Exec(Start0(), before).m.next)
    ensures var reader := Exec(Start0(), before).m.next;
      var d := Do(Exec(Start0(), before), Start(isolation));
      reader in d.taken &&
      ((forall k: nat | k <= |after| :: Read(After(d, after, k), reader, row) == Read(d, reader, row))
       <==> Covered(d, after, reader, d.taken[reader].0, row, |after|))
  {
    var c := Exec(Start0(), before);
    BeginTakesItsSnapshot(before, isolation);
    RunGrows(Start0(), before, Start(isolation));
    var d := Do(c, Start(isolation));
    RepeatableReadIff(before + [Start(isolation)], after, c.m.next, d.taken[c.m.next].0, row);
  }

  /** And always the same data if the others mark no version twice. */
  lemma RepeatsFromBegin(before: seq<Step>, isolation: Isolation, after: seq<Step>, row: nat)
    requires IsRun(Start0(), before) && KeepsSnapshot(isolation)
    requires exists k | 0 <= k < |Exec(Start0(), before).m.slots| :: Exec(Start0(), before).m.slots[k].Free?
    requires IsRun(Do(Exec(Start0(), before), Start(isolation)), after)
    requires AllByOthers(after, Exec(Start0(), before).m.next)
    requires MarksOnce(Do(Exec(Start0(), before), Start(isolation)), after)
    ensures var reader := Exec(Start0(), before).m.next;
      var d := Do(Exec(Start0(), before), Start(isolation));
      var d' := Exec(d, after);
      var k := Read(d, reader, row);
      Read(d', reader, row) == k
      && (k.Some? ==> k.value < |Chain(d', row)| && Chain(d', row)[k.value].data == Chain(d, row)[k.value].data)
  {
    var c := Exec(Start0(), before);
    BeginTakesItsSnapshot(before, isolation);
    RunGrows(Start0(), before, Start(isolation));
    var d := Do(c, Start(isolation));
    MvccIsolation.RepeatableRead(before + [Start(isolation)], after, c.m.next, d.taken[c.m.next].0, row);
  }

  // ----- What is read, by the history ---------------------------------------------------

  /** The transaction had ended, or never had a slot, at that moment. */
  ghost predicate OverAt(at: Moment, id: nat) {
    1 <= id < at.begun && (id in at.ended || id in at.lost)
  }

  /** What a reader that began at this moment is meant to see: its own versions unless it deleted them, and
      versions of transactions over by then that neither it nor such a transaction has deleted. */
  ghost predicate Shows(v: Version, reader: nat, at: Moment) {
    && v.deletedBy != reader
    && (v.createdBy != reader ==> OverAt(at, v.createdBy) && !OverAt(at, v.deletedBy))
  }

  /** A reader without a snapshot: everybody's versions that nobody has deleted, and its own unless it
      deleted them. */
  predicate ShowsLatest(v: Version, reader: nat) {
    if v.createdBy == reader then v.deletedBy != reader else v.deletedBy == 0
  }

  lemma VisibleIsShown(s: Snapshot, at: Moment, reader: nat, v: Version)
    requires Faithful(s, at, reader) && reader >= 1 && v.createdBy >= 1
    ensures VersionVisible(v, reader, Some(s)) <==> Shows(v, reader, at)
  {
    if v.createdBy != reader {
      FaithfulTest(s, at, reader, v.createdBy);
      if v.deletedBy >= 1 && v.deletedBy != reader {
        FaithfulTest(s, at, reader, v.deletedBy);
      }
    }
  }

  /** k is the last version of the chain that shows; none does if k is None. */
  ghost predicate LastShown(chain: seq<Version>, reader: nat, at: Moment, k: Option<nat>) {
    && (k.Some? ==> k.value < |chain| && Shows(chain[k.value], reader, at))
    && forall i | (if k.Some? then k.value + 1 else 0) <= i < |chain| :: !Shows(chain[i], reader, at)
  }

  ghost predicate LastUndeleted(chain: seq<Version>, reader: nat, k: Option<nat>) {
    && (k.Some? ==> k.value < |chain| && ShowsLatest(chain[k.value], reader))
    && forall i | (if k.Some? then k.value + 1 else 0) <= i < |chain| :: !ShowsLatest(chain[i], reader)
  }

  lemma ReadFromTaken(d: Db, reader: nat, row: nat)
    requires Inv(d) && MadeByBegun(d) && reader in d.taken && Reading(d, reader, d.taken[reader].0)
    ensures LastShown(Chain(d, row), reader, d.taken[reader].1, Read(d, reader, row))
  {
    var (s, at) := d.taken[reader];
    TableIsOld(d, Find(d.m.slots, reader));
    forall v | v in Chain(d, row) ensures VersionVisible(v, reader, Some(s)) <==> Shows(v, reader, at) {
      assert Faithful(s, at, reader);
      VisibleIsShown(s, at, reader, v);
    }
  }

  /** In every run: a transaction in the table reads, at a level that keeps its snapshot, the newest version
      of a row that shows by the history at its begin; at the others, the newest that nobody has deleted,
      committed or not; one that is not in the table reads nothing. */
  lemma ReadIsByTheHistory(steps: seq<Step>, reader: nat, row: nat)
    requires IsRun(Start0(), steps)
    ensures var d := Exec(Start0(), steps);
      var (j, k) := (Find(d.m.slots, reader), Read(d, reader, row));
      if j == |d.m.slots| then k == None
      else if KeepsSnapshot(d.m.slots[j].txn.isolation) then
        reader in d.taken && LastShown(Chain(d, row), reader, d.taken[reader].1, k)
      else LastUndeleted(Chain(d, row), reader, k)
  {
    ReachedIsTrue(steps);
    var d := Exec(Start0(), steps);
    var j := Find(d.m.slots, reader);
    if j < |d.m.slots| {
      TableIsOld(d, j);
      if KeepsSnapshot(d.m.slots[j].txn.isolation) {
        ReadFromTaken(d, reader, row);
      }
    }
  }

  lemma OwnAppendIsRead(steps: seq<Step>, reader: nat, row: nat, data: seq<char>)
    requires IsRun(Start0(), steps) && Registered(Exec(Start0(), steps).m, reader)
    ensures var d := Exec(Start0(), steps);
      Read(Do(d, Append(reader, row, data)), reader, row) == Some(|Chain(d, row)|)
  {
    ReachedIsTrue(steps);
    TableIsOld(Exec(Start0(), steps), Find(Exec(Start0(), steps).m.slots, reader));
    RunGrows(Start0(), steps, Append(reader, row, data));
    ReadIsByTheHistory(steps + [Append(reader, row, data)], reader, row);
  }

  lemma OwnDeleteIsNotRead(steps: seq<Step>, reader: nat, row: nat, k: nat)
    requires IsRun(Start0(), steps) && Registered(Exec(Start0(), steps).m, reader)
    requires k < |Chain(Exec(Start0(), steps), row)|
    ensures Read(Do(Exec(Start0(), steps), Delete(reader, row, k)), reader, row) != Some(k)
  {
    ReachedIsTrue(steps);
    TableIsOld(Exec(Start0(), steps), Find(Exec(Start0(), steps).m.slots, reader));
    RunGrows(Start0(), steps, Delete(reader, row, k));
    ReadIsByTheHistory(steps + [Delete(reader, row, k)], reader, row);
  }

  /** A transaction reads what it just wrote, and not what it just deleted. */
  lemma OwnWritesAreRead(steps: seq<Step>, reader: nat, row: nat, data: seq<char>)
    requires IsRun(Start0(), steps) && Registered(Exec(Start0(), steps).m, reader)
    ensures var d := Exec(Start0(), steps);
      var e := Do(d, Append(reader, row, data));
      Read(e, reader, row) == Some(|Chain(d, row)|) && Chain(e, row)[|Chain(d, row)|].data == data
    ensures var d := Exec(Start0(), steps);
      forall k: nat | k < |Chain(d, row)| :: Read(Do(d, Delete(reader, row, k)), reader, row) != Some(k)
  {
    OwnAppendIsRead(steps, reader, row, data);
    var d := Exec(Start0(), steps);
    forall k: nat | k < |Chain(d, row)| ensures Read(Do(d, Delete(reader, row, k)), reader, row) != Some(k) {
      OwnDeleteIsNotRead(steps, reader, row, k);
    }
  }

  // ----- The commit log -----------------------------------------------------------------

  /** The transactions that a run commits, in order. */
  function Committed(d: Db, steps: seq<Step>): seq<nat>
    requires IsRun(d, steps)
    decreases |steps|
  {
    if steps == [] then []
    else CommittedNow(d, steps[0]) + Committed(Do(d, steps[0]), steps[1..])
  }

  function CommittedNow(d: Db, s: Step): seq<nat> {
    if s.Finish? && s.commit && Registered(d.m, s.id) then [s.id] else []
  }

  function LoggedIds(log: seq<Commit>): seq<nat> {
    seq(|log|, i requires 0 <= i < |log| => log[i].id)
  }

  ghost predicate LogInOrder(m: Manager) {
    && (forall i | 0 <= i < |m.commits| :: m.commits[i].ts <= m.clock)
    && (forall i, j | 0 <= i < j < |m.commits| :: m.commits[i].ts < m.commits[j].ts)
  }

  lemma StepLogs(d: Db, s: Step)
    requires Enabled(d, s) && LogInOrder(d.m)
    ensures LogInOrder(Do(d, s).m)
    ensures LoggedIds(Do(d, s).m.commits) == LoggedIds(d.m.commits) + CommittedNow(d, s)
  {
  }

  lemma {:induction false} RunLogs(d: Db, steps: seq<Step>)
    requires IsRun(d, steps) && LogInOrder(d.m)
    ensures LogInOrder(Exec(d, steps).m)
    ensures LoggedIds(Exec(d, steps).m.commits) == LoggedIds(d.m.commits) + Committed(d, steps)
    decreases |steps|
  {
    if steps != [] {
      StepLogs(d, steps[0]);
      RunLogs(Do(d, steps[0]), steps[1..]);
    }
  }

  /** In every run the commit log lists exactly the transactions committed while in the table, in that order,
      under growing timestamps. */
  lemma CommitLogIsTheHistory(steps: seq<Step>)
    requires IsRun(Start0(), steps)
    ensures LoggedIds(Exec(Start0(), steps).m.commits) == Committed(Start0(), steps)
    ensures LogInOrder(Exec(Start0(), steps).m)
  {
    RunLogs(Start0(), steps);
  }
}
