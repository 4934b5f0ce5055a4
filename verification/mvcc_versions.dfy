/** A row's versions as linked records, and the walk that finds what a reader sees.

    The records hold the versions that the isolation proofs keep in a sequence. */
module MvccVersions {
  import opened Options
  import opened MvccManagerModel
  import opened MvccIsolation

  class RowVersion {
    var createdBy: nat
    var deletedBy: nat
    const data: seq<char>
    var prev: RowVersion?
    var next: RowVersion?

    constructor (txn: nat, data: seq<char>)
      ensures Value() == Version(txn, 0, data) && prev == null && next == null
    {
      createdBy, deletedBy, this.data := txn, 0, data;
      prev, next := null, null;
    }

    function Value(): Version
      reads this
    {
      Version(createdBy, deletedBy, data)
    }
  }

  /** The records, oldest first, are linked both ways. */
  ghost predicate Linked(nodes: seq<RowVersion>)
    reads nodes
  {
    forall i | 0 <= i < |nodes| ::
      && nodes[i].next == (if i + 1 < |nodes| then nodes[i + 1] else null)
      && nodes[i].prev == (if i > 0 then nodes[i - 1] else null)
  }

  ghost function Values(nodes: seq<RowVersion>): seq<Version>
    reads nodes
  {
    seq(|nodes|, i requires 0 <= i < |nodes| reads nodes => nodes[i].Value())
  }

  method CheckVersion(manager: MvccManager, v: RowVersion, reader: nat) returns (visible: bool)
    ensures visible <==>
      Registered(manager.View(), reader)
      && VersionVisible(v.Value(), reader, manager.slots[Find(manager.slots[..], reader)].txn.snapshot)
  {
    var k := manager.GetTransaction(reader);
    if k == manager.slots.Length {
      return false;
    }
    assert Holds(manager.slots[k], reader);
    var snapshot := manager.slots[k].txn.snapshot;
    if v.createdBy == reader {
      return v.deletedBy == 0 || v.deletedBy != reader;
    }
    var created := manager.CheckVisible(v.createdBy, snapshot);
    if !created {
      return false;
    }
    if v.deletedBy != 0 {
      var deleted := manager.CheckVisible(v.deletedBy, snapshot);
      if deleted {
        return false;
      }
    }
    return true;
  }

  method WalkToNewest(chain: RowVersion, ghost nodes: seq<RowVersion>) returns (newest: RowVersion)
    requires Linked(nodes) && chain in nodes
    ensures newest == nodes[|nodes| - 1]
  {
    newest := chain;
    ghost var i :| 0 <= i < |nodes| && nodes[i] == chain;
    while newest.next != null
      invariant 0 <= i < |nodes| && newest == nodes[i]
      invariant newest.next == (if i + 1 < |nodes| then nodes[i + 1] else null)
      decreases |nodes| - i
    {
      newest := newest.next;
      i := i + 1;
    }
  }

  lemma SeenStep(m: Manager, chain: seq<Version>, n: nat, reader: nat)
    requires n < |chain|
    ensures Seen(m, chain[..n + 1], reader) ==
      if Registered(m, reader) && VersionVisible(chain[n], reader, m.slots[Find(m.slots, reader)].txn.snapshot)
      then Some(n) else Seen(m, chain[..n], reader)
  {
    assert chain[..n + 1][..n] == chain[..n];
  }

  /** From any record of a chain: walk to the newest, then back to the first visible one. */
  method GetVisibleVersion(manager: MvccManager, chain: RowVersion?, reader: nat, ghost nodes: seq<RowVersion>)
    returns (found: RowVersion?)
    requires if chain == null then nodes == [] else Linked(nodes) && chain in nodes
    ensures match Seen(manager.View(), Values(nodes), reader)
      case None => found == null
      case Some(k) => k < |nodes| && found == nodes[k]
  {
    if chain == null {
      return null;
    }
    found := WalkToNewest(chain, nodes);
    ghost var all := Values(nodes);
    ghost var i: int := |nodes| - 1;
    assert all[..i + 1] == all;
    while found != null
      invariant -1 <= i < |nodes|
      invariant found == (if i >= 0 then nodes[i] else null)
      invariant Seen(manager.View(), all, reader) == Seen(manager.View(), all[..i + 1], reader)
      decreases i
    {
      var visible := CheckVersion(manager, found, reader);
      SeenStep(manager.View(), all, i, reader);
      if visible {
        return found;
      }
      assert nodes[i].prev == (if i > 0 then nodes[i - 1] else null);
      found := found.prev;
      i := i - 1;
    }
  }

  /** Deleting changes one record of the chain and leaves the links alone. */
  method MarkDeleted(v: RowVersion, txn: nat, ghost nodes: seq<RowVersion>, ghost k: nat)
    requires Linked(nodes) && k < |nodes| && nodes[k] == v
    requires forall i, j | 0 <= i < j < |nodes| :: nodes[i] != nodes[j]
    modifies v`deletedBy
    ensures Linked(nodes)
    ensures Values(nodes) == old(Values(nodes))[k := old(Values(nodes))[k].(deletedBy := txn)]
  {
    v.deletedBy := txn;
  }
}
