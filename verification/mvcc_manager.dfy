/** Transaction ids, the table of active transactions and snapshots.

    The functions give the state after each operation; the class `MvccManager`
    holds the same state in an array of 256 slots and works on it with loops. */
module MvccManagerModel {
  import opened Options

  const MAX_ACTIVE: nat := 256
  const MIN_TXN_ID: nat := 1

  datatype Isolation = ReadUncommitted | ReadCommitted | RepeatableRead | Serializable

  /** `active` lists the other transactions that were running when it was taken. */
  datatype Snapshot = Snapshot(xmin: nat, xmax: nat, active: seq<nat>)

  datatype Txn = Txn(id: nat, isolation: Isolation, snapshot: Option<Snapshot>)

  datatype Slot = Free | Used(txn: Txn)

  datatype Commit = Commit(id: nat, ts: nat)

  datatype Manager = Manager(next: nat, clock: nat, slots: seq<Slot>, count: int, commits: seq<Commit>)

  // ----- The table ------------------------------------------------------------

  predicate Holds(s: Slot, id: nat) {
    s.Used? && s.txn.id == id
  }

  /** The first slot that holds the transaction, or the number of slots. */
  function Find(slots: seq<Slot>, id: nat): (k: nat)
    ensures k <= |slots|
    ensures k < |slots| ==> Holds(slots[k], id)
    ensures forall i | 0 <= i < k :: !Holds(slots[i], id)
  {
    if slots == [] || Holds(slots[0], id) then 0 else 1 + Find(slots[1..], id)
  }

  /** The first free slot, or the number of slots. */
  function FirstFree(slots: seq<Slot>): (k: nat)
    ensures k <= |slots|
    ensures k < |slots| ==> slots[k].Free?
    ensures forall i | 0 <= i < k :: slots[i].Used?
  {
    if slots == [] || slots[0].Free? then 0 else 1 + FirstFree(slots[1..])
  }

  predicate Registered(m: Manager, id: nat) {
    Find(m.slots, id) < |m.slots|
  }

  /** Ids in the table, other than `self`, in slot order. */
  function Others(slots: seq<Slot>, self: nat): seq<nat> {
    if slots == [] then []
    else
      var rest := Others(slots[..|slots| - 1], self);
      var s := slots[|slots| - 1];
      if s.Used? && s.txn.id != self then rest + [s.txn.id] else rest
  }

  function Smallest(ids: seq<nat>, bound: nat): (x: nat)
    ensures x <= bound && (forall i <- ids :: x <= i) && (x == bound || x in ids)
  {
    if ids == [] then bound
    else
      var rest := Smallest(ids[..|ids| - 1], bound);
      assert ids == ids[..|ids| - 1] + [ids[|ids| - 1]];
      if ids[|ids| - 1] < rest then ids[|ids| - 1] else rest
  }

  // ----- Operations -----------------------------------------------------------

  function TakeSnapshot(m: Manager, self: nat): Snapshot {
    var ids := Others(m.slots, self);
    Snapshot(Smallest(ids, m.next), m.next, ids)
  }

  /** Into the first free slot, if there is one. */
  function Entered(m: Manager, txn: Txn): Manager {
    var k := FirstFree(m.slots);
    if k < |m.slots| then m.(slots := m.slots[k := Used(txn)], count := m.count + 1) else m
  }

  /** A transaction takes its snapshot after drawing its id and before it enters the table;
      with no free slot it is not entered at all. */
  function Begin(m: Manager, isolation: Isolation): (Manager, nat) {
    var id := m.next;
    var m1 := m.(next := m.next + 1, clock := m.clock + 1);
    var snapshot := if isolation.RepeatableRead? || isolation.Serializable?
                    then Some(TakeSnapshot(m1, id))
                    else None;
    (Entered(m1, Txn(id, isolation, snapshot)), id)
  }

  function CommitTxn(m: Manager, id: nat): (Manager, int) {
    var k := Find(m.slots, id);
    if k == |m.slots| then (m, -1)
    else
      (m.(clock := m.clock + 1,
          commits := m.commits + [Commit(id, m.clock + 1)],
          slots := m.slots[k := Free],
          count := m.count - 1), 0)
  }

  function AbortTxn(m: Manager, id: nat): (Manager, int) {
    var k := Find(m.slots, id);
    if k == |m.slots| then (m, -1) else (m.(slots := m.slots[k := Free], count := m.count - 1), 0)
  }

  predicate IsVisible(id: nat, snapshot: Option<Snapshot>) {
    match snapshot
    case None => true
    case Some(s) =>
      if id < s.xmin then true
      else if id >= s.xmax then false
      else id !in s.active
  }

  /** Occupied slots; `count` is kept equal to it. */
  function UsedSlots(slots: seq<Slot>): nat {
    if slots == [] then 0
    else UsedSlots(slots[..|slots| - 1]) + (if slots[|slots| - 1].Used? then 1 else 0)
  }

  function Initial(): Manager {
    Manager(MIN_TXN_ID, 0, seq(MAX_ACTIVE, _ => Free), 0, [])
  }

  // ----- In place -------------------------------------------------------------

  class MvccManager {
    var next: nat
    var clock: nat
    const slots: array<Slot>
    var count: int
    var commits: seq<Commit>

    ghost function View(): Manager
      reads this, slots
    {
      Manager(next, clock, slots[..], count, commits)
    }

    constructor ()
      ensures View() == Initial() && fresh(slots)
    {
      next, clock, count, commits := MIN_TXN_ID, 0, 0, [];
      slots := new Slot[MAX_ACTIVE](_ => Free);
      new;
      assert slots[..] == Initial().slots;
    }

    method GetTransaction(id: nat) returns (k: nat)
      ensures k == Find(slots[..], id)
    {
      k := 0;
      while k < slots.Length && !Holds(slots[k], id)
        invariant k <= slots.Length
        invariant Find(slots[..], id) == k + Find(slots[k..], id)
      {
        assert slots[k..][1..] == slots[k + 1..];
        k := k + 1;
      }
    }

    method Snap(self: nat) returns (s: Snapshot)
      ensures s == TakeSnapshot(View(), self)
    {
      var xmin, ids := next, [];
      for i := 0 to slots.Length
        invariant ids == Others(slots[..i], self)
        invariant xmin == Smallest(ids, next)
      {
        assert slots[..i + 1][..i] == slots[..i];
        match slots[i] {
          case Free =>
          case Used(txn) =>
            if txn.id != self {
              if txn.id < xmin {
                xmin := txn.id;
              }
              assert (ids + [txn.id])[..|ids|] == ids;
              ids := ids + [txn.id];
            }
        }
      }
      assert slots[..slots.Length] == slots[..];
      s := Snapshot(xmin, next, ids);
    }

    method FindFree() returns (i: nat)
      ensures i == FirstFree(slots[..])
    {
      i := 0;
      while i < slots.Length && slots[i].Used?
        invariant i <= slots.Length
        invariant FirstFree(slots[..]) == i + FirstFree(slots[i..])
      {
        assert slots[i..][1..] == slots[i + 1..];
        i := i + 1;
      }
    }

    method BeginTransaction(isolation: Isolation) returns (id: nat)
      modifies this`next, this`clock, this`count, slots
      ensures (View(), id) == Begin(old(View()), isolation)
    {
      id := next;
      next := next + 1;
      clock := clock + 1;
      var snapshot := None;
      if isolation.RepeatableRead? || isolation.Serializable? {
        var s := Snap(id);
        snapshot := Some(s);
      }
      Enter(Txn(id, isolation, snapshot));
    }

    method Enter(txn: Txn)
      modifies this`count, slots
      ensures View() == Entered(old(View()), txn)
    {
      var i := FindFree();
      if i < slots.Length {
        slots[i] := Used(txn);
        count := count + 1;
      }
    }

    method CommitTransaction(id: nat) returns (status: int)
      modifies this`clock, this`commits, this`count, slots
      ensures (View(), status) == CommitTxn(old(View()), id)
    {
      var k := GetTransaction(id);
      if k == slots.Length {
        return -1;
      }
      clock := clock + 1;
      commits := commits + [Commit(id, clock)];
      slots[k] := Free;
      count := count - 1;
      return 0;
    }

    method AbortTransaction(id: nat) returns (status: int)
      modifies this`count, slots
      ensures (View(), status) == AbortTxn(old(View()), id)
    {
      var k := GetTransaction(id);
      if k == slots.Length {
        return -1;
      }
      slots[k] := Free;
      count := count - 1;
      return 0;
    }

    method CheckVisible(id: nat, snapshot: Option<Snapshot>) returns (visible: bool)
      ensures visible == IsVisible(id, snapshot)
    {
      match snapshot {
        case None => return true;
        case Some(s) =>
          if id < s.xmin {
            return true;
          }
          if id >= s.xmax {
            return false;
          }
          for i := 0 to |s.active|
            invariant id !in s.active[..i]
          {
            if s.active[i] == id {
              return false;
            }
          }
          return true;
      }
    }
  }
}
