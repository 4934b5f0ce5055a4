/** Savepoints of one transaction: a savepoint keeps two lengths, and rolling back cuts the
    write set and the read set to them. Main result: this cannot be told from keeping
    whole copies of both sets. */
module SavepointModel {
  import opened Sequences

  const MAX_SAVEPOINTS: nat := 8

  datatype Write = Write(table: string, row: nat, oldVersion: nat, newVersion: nat)

  datatype Read = Read(table: string, row: nat)

  datatype Savepoint = Savepoint(name: string, writeMark: nat, readMark: nat)

  /** Only a serializable transaction has a read set. */
  datatype Txn = Txn(writes: seq<Write>, readings: seq<Read>, saves: seq<Savepoint>, serializable: bool)

  function Names(saves: seq<Savepoint>): (r: seq<string>)
    ensures |r| == |saves|
  {
    seq(|saves|, i requires 0 <= i < |saves| => saves[i].name)
  }

  /** The last place with this name among the first n, or -1. */
  function LastNamed(names: seq<string>, name: string, n: nat): (k: int)
    requires n <= |names|
    ensures -1 <= k < n
    ensures k >= 0 ==> names[k] == name
    ensures forall j | k < j < n :: names[j] != name
  {
    if n == 0 then -1 else if names[n - 1] == name then n - 1 else LastNamed(names, name, n - 1)
  }

  /** The first place with this name from i on, or the number of names. */
  function FirstNamed(names: seq<string>, name: string, i: nat): (k: nat)
    requires i <= |names|
    ensures i <= k <= |names|
    ensures k < |names| ==> names[k] == name
    ensures forall j | i <= j < k :: names[j] != name
    decreases |names| - i
  {
    if i == |names| || names[i] == name then i else FirstNamed(names, name, i + 1)
  }

  // ----- Operations ---------------------------------------------------------------

  function TrackWrite(t: Txn, w: Write): Txn {
    t.(writes := t.writes + [w])
  }

  function TrackRead(t: Txn, r: Read): (Txn, bool) {
    if t.serializable then (t.(readings := t.readings + [r]), true) else (t, false)
  }

  function Create(t: Txn, name: string): Txn {
    t.(saves := t.saves + [Savepoint(name, |t.writes|, |t.readings|)])
  }

  /** No mark points beyond its set. */
  predicate Marked(t: Txn) {
    forall i | 0 <= i < |t.saves| :: t.saves[i].writeMark <= |t.writes| && t.saves[i].readMark <= |t.readings|
  }

  /** Back to the last savepoint of this name; it stays, later ones go. */
  function Rollback(t: Txn, name: string): (Txn, bool)
    requires Marked(t)
  {
    var k := LastNamed(Names(t.saves), name, |t.saves|);
    if k < 0 then (t, false)
    else
      (t.(writes := t.writes[..t.saves[k].writeMark], readings := t.readings[..t.saves[k].readMark],
          saves := t.saves[..k + 1]), true)
  }

  /** Forget the first savepoint of this name. */
  function Release(t: Txn, name: string): (Txn, bool) {
    var k := FirstNamed(Names(t.saves), name, 0);
    if k < |t.saves| then (t.(saves := Without(t.saves, k)), true) else (t, false)
  }

  // ----- In place -------------------------------------------------------------------

  class TxnSets {
    var writeSet: array<Write>
    var writeCount: nat
    var readSet: array<Read>
    var readCount: nat
    const savepoints: array<Savepoint>
    var saveCount: nat
    const serializable: bool

    ghost predicate Valid()
      reads this
    {
      && writeCount <= writeSet.Length && writeSet.Length > 0
      && readCount <= readSet.Length && readSet.Length > 0
      && saveCount <= savepoints.Length == MAX_SAVEPOINTS
    }

    function View(): Txn
      requires Valid()
      reads this, writeSet, readSet, savepoints
    {
      Txn(writeSet[..writeCount], readSet[..readCount], savepoints[..saveCount], serializable)
    }

    constructor (serializable: bool)
      ensures Valid() && View() == Txn([], [], [], serializable)
      ensures fresh(writeSet) && fresh(readSet) && fresh(savepoints)
    {
      writeSet := new Write[64](_ => Write("", 0, 0, 0));
      readSet := new Read[128](_ => Read("", 0));
      savepoints := new Savepoint[MAX_SAVEPOINTS](_ => Savepoint("", 0, 0));
      writeCount, readCount, saveCount := 0, 0, 0;
      this.serializable := serializable;
    }

    method AddWrite(w: Write)
      requires Valid()
      modifies this`writeSet, this`writeCount, writeSet
      ensures Valid() && View() == TrackWrite(old(View()), w)
      ensures writeSet == old(writeSet) || fresh(writeSet)
    {
      ghost var was := writeSet[..writeCount];
      if writeCount >= writeSet.Length {
        var grown := new Write[2 * writeSet.Length](_ => w);
        forall i | 0 <= i < writeCount {
          grown[i] := writeSet[i];
        }
        writeSet := grown;
      }
      assert writeSet[..writeCount] == was;
      writeSet[writeCount] := w;
      writeCount := writeCount + 1;
      assert writeSet[..writeCount] == was + [w];
    }

    method AddRead(r: Read) returns (ok: bool)
      requires Valid()
      modifies this`readSet, this`readCount, readSet
      ensures Valid() && (View(), ok) == TrackRead(old(View()), r)
      ensures readSet == old(readSet) || fresh(readSet)
    {
      if !serializable {
        return false;
      }
      ghost var was := readSet[..readCount];
      if readCount >= readSet.Length {
        var grown := new Read[2 * readSet.Length](_ => r);
        forall i | 0 <= i < readCount {
          grown[i] := readSet[i];
        }
        readSet := grown;
      }
      assert readSet[..readCount] == was;
      readSet[readCount] := r;
      readCount := readCount + 1;
      assert readSet[..readCount] == was + [r];
      assert View() == TrackRead(old(View()), r).0;
      return true;
    }

    /** The array has eight places and is never grown. */
    method CreateSavepoint(name: string)
      requires Valid() && saveCount < MAX_SAVEPOINTS
      modifies this`saveCount, savepoints
      ensures Valid() && View() == Create(old(View()), name)
    {
      ghost var was := savepoints[..saveCount];
      savepoints[saveCount] := Savepoint(name, writeCount, readCount);
      saveCount := saveCount + 1;
      assert savepoints[..saveCount] == was + [Savepoint(name, writeCount, readCount)];
    }

    method RollbackTo(name: string) returns (ok: bool)
      requires Valid() && Marked(View())
      modifies this`writeCount, this`readCount, this`saveCount
      ensures Valid() && (View(), ok) == Rollback(old(View()), name)
    {
      ghost var t := View();
      var i := saveCount;
      while i > 0 && savepoints[i - 1].name != name
        invariant 0 <= i <= saveCount && LastNamed(Names(t.saves), name, i) == LastNamed(Names(t.saves), name, saveCount)
      {
        i := i - 1;
      }
      if i == 0 {
        return false;
      }
      assert t.saves[i - 1] == savepoints[i - 1];
      writeCount := savepoints[i - 1].writeMark;
      readCount := savepoints[i - 1].readMark;
      saveCount := i;
      assert writeSet[..writeCount] == t.writes[..writeCount];
      assert readSet[..readCount] == t.readings[..readCount];
      assert savepoints[..saveCount] == t.saves[..saveCount];
      return true;
    }

    method ReleaseSavepoint(name: string) returns (ok: bool)
      requires Valid()
      modifies this`saveCount, savepoints
      ensures Valid() && (View(), ok) == Release(old(View()), name)
    {
      ghost var t := View();
      var i := 0;
      while i < saveCount
        invariant i <= saveCount && View() == t && FirstNamed(Names(t.saves), name, i) == FirstNamed(Names(t.saves), name, 0)
      {
        assert t.saves[i] == savepoints[i];
        if savepoints[i].name == name {
          RemoveAt(i);
          return true;
        }
        i := i + 1;
      }
      return false;
    }

    /** Close the gap at place i. */
    method RemoveAt(i: nat)
      requires Valid() && i < saveCount
      modifies this`saveCount, savepoints
      ensures Valid() && View() == old(View()).(saves := Without(old(View()).saves, i))
    {
      ghost var was := savepoints[..saveCount];
      forall j | i <= j < saveCount - 1 {
        savepoints[j] := savepoints[j + 1];
      }
      saveCount := saveCount - 1;
      assert savepoints[..saveCount] == Without(was, i);
    }
  }
}
