/** AUTO keys over every run. */
module AutoSafety {
  import opened StoreKeys
  import opened AutoKeys

  /** A row is stored under a number as AUTO would print it. A key such as "007" is no such number. */
  predicate Taken(store: Store, db: string, table: string, n: nat) {
    1 <= n <= INT_MAX && TableKey(db, table, Decimal(n)) in store
  }

  /** The sequence is at least every number taken. */
  ghost predicate Covers(store: Store, db: string, table: string) {
    && SeqOf(store, db, table) >= 0
    && forall n: nat :: Taken(store, db, table, n) ==> n <= SeqOf(store, db, table)
  }

  predicate Named(db: string, table: string) {
    ColonFree(db) && ColonFree(table)
  }

  /** A row key keeps its meaning when something of another kind, or of another row, is stored. */
  lemma NumberedSeq(store: Store, db: string, table: string, id: string, db0: string, table0: string)
    requires Named(db, table) && Named(db0, table0)
    ensures var s := Numbered(store, db, table, id).0;
      && SeqOf(s, db0, table0) >= SeqOf(store, db0, table0)
      && ((db, table) != (db0, table0) ==> SeqOf(s, db0, table0) == SeqOf(store, db0, table0))
      && (forall pk :: TableKey(db0, table0, pk) in s <==> TableKey(db0, table0, pk) in store)
  {
    var s := Numbered(store, db, table, id).0;
    if SeqKey(db, table) == SeqKey(db0, table0) {
      SeqKeysAreUnambiguous(db, table, db0, table0);
    }
    forall pk ensures TableKey(db0, table0, pk) in s <==> TableKey(db0, table0, pk) in store {
      KindsDiffer(db0, table0, pk, db, table);
    }
  }

  /** The number of a row is covered before the row is stored. */
  lemma NumberedCoversId(store: Store, db: string, table: string, id: string, n: nat)
    requires SeqOf(store, db, table) >= 0 && n <= INT_MAX && Numbered(store, db, table, id).1 == Decimal(n)
    ensures n <= SeqOf(Numbered(store, db, table, id).0, db, table)
  {
    ReadsWhatIsPrinted(n);
    if id == "AUTO" {
      ReadsWhatIsPrinted(SeqOf(store, db, table) + 1);
    } else {
      assert Atoi(id) == n;
    }
  }

  lemma InsertRowKeepsCovers(store: Store, db: string, table: string, column: nat, row: seq<string>,
                             db0: string, table0: string)
    requires Named(db, table) && Named(db0, table0) && Covers(store, db0, table0)
    ensures Covers(InsertRow(store, db, table, column, row).0, db0, table0)
  {
    if column < |row| {
      var (s, final) := Numbered(store, db, table, row[column]);
      NumberedSeq(store, db, table, row[column], db0, table0);
      var t := InsertRow(store, db, table, column, row).0;
      KindsDiffer(db, table, final, db0, table0);
      forall n: nat | Taken(t, db0, table0, n) ensures n <= SeqOf(t, db0, table0) {
        if TableKey(db0, table0, Decimal(n)) == TableKey(db, table, final) {
          RowKeysAreUnambiguous(db0, table0, Decimal(n), db, table, final);
          NumberedCoversId(store, db, table, row[column], n);
        } else {
          assert Taken(store, db0, table0, n);
        }
      }
    }
  }

  lemma {:induction false} InsertRowsKeepCovers(store: Store, db: string, table: string, column: nat,
                                                rows: seq<seq<string>>, db0: string, table0: string)
    requires Named(db, table) && Named(db0, table0) && Covers(store, db0, table0)
    ensures Covers(InsertRows(store, db, table, column, rows).0, db0, table0)
  {
    if rows != [] {
      var init := rows[..|rows| - 1];
      InsertRowsKeepCovers(store, db, table, column, init, db0, table0);
      var before := InsertRows(store, db, table, column, init).0;
      InsertRowKeepsCovers(before, db, table, column, rows[|rows| - 1], db0, table0);
    }
  }

  /** Schemas of all tables stay where rows are inserted. */
  lemma {:induction false} InsertRowsKeepSchema(store: Store, db: string, table: string, column: nat,
                                                rows: seq<seq<string>>, key: string)
    requires key in store
    ensures key in InsertRows(store, db, table, column, rows).0
  {
    if rows != [] {
      InsertRowsKeepSchema(store, db, table, column, rows[..|rows| - 1], key);
    }
  }

  // ----- Runs -----------------------------------------------------------------------

  datatype Step =
    | Insert(db: string, table: string, rows: seq<seq<string>>)
    | Delete(db: string, table: string, pk: string)
    | Create(db: string, table: string, columns: seq<Column>)
    | Drop(db: string, table: string)

  /** Names have no colon, and the table watched is not dropped. */
  predicate Enabled(step: Step, db0: string, table0: string) {
    Named(step.db, step.table) && (step.Drop? ==> (step.db, step.table) != (db0, table0))
  }

  function Do(store: Store, step: Step): Store {
    match step
    case Insert(db, table, rows) => InsertRows(store, db, table, ColumnFor(store, db, table), rows).0
    case Delete(db, table, pk) => DeleteRow(store, db, table, pk)
    case Create(db, table, columns) => CreateTable(store, db, table, columns)
    case Drop(db, table) => DropTable(store, db, table)
  }

  function Exec(store: Store, steps: seq<Step>): Store {
    if steps == [] then store else Do(Exec(store, steps[..|steps| - 1]), steps[|steps| - 1])
  }

  ghost predicate Inv(store: Store, db: string, table: string) {
    Covers(store, db, table) && SchemaKey(db, table) in store
  }

  lemma SchemaKeysAreUnambiguous(db: string, table: string, db': string, table': string)
    requires ColonFree(db) && ColonFree(db') && SchemaKey(db, table) == SchemaKey(db', table')
    ensures db == db' && table == table'
  {
    SameStart("DB:", db + (":" + ("META:TBL:" + table)), db' + (":" + ("META:TBL:" + table')));
    ColonSplits(db, db', "META:TBL:" + table, "META:TBL:" + table');
    SameStart("META:TBL:", table, table');
  }

  lemma DeleteKeepsInv(store: Store, db: string, table: string, pk: string, db0: string, table0: string)
    requires Named(db, table) && Named(db0, table0) && Inv(store, db0, table0)
    ensures Inv(DeleteRow(store, db, table, pk), db0, table0)
  {
    KindsDiffer(db, table, pk, db0, table0);
    var t := DeleteRow(store, db, table, pk);
    assert forall n: nat :: Taken(t, db0, table0, n) ==> Taken(store, db0, table0, n);
  }

  /** Storing or removing the schema and sequence of another table. */
  lemma OtherTableKeeps(store: Store, t: Store, db: string, table: string, db0: string, table0: string)
    requires Named(db, table) && Named(db0, table0) && (db, table) != (db0, table0) && Inv(store, db0, table0)
    requires forall key | key != SchemaKey(db, table) && key != SeqKey(db, table) ::
      (key in t <==> key in store) && (key in t ==> t[key] == store[key])
    ensures Inv(t, db0, table0)
  {
    if SeqKey(db, table) == SeqKey(db0, table0) {
      SeqKeysAreUnambiguous(db, table, db0, table0);
    }
    if SchemaKey(db, table) == SchemaKey(db0, table0) {
      SchemaKeysAreUnambiguous(db, table, db0, table0);
    }
    KindsDiffer(db, table, "", db0, table0);
    KindsDiffer(db0, table0, "", db, table);
    forall n: nat | Taken(t, db0, table0, n) ensures n <= SeqOf(t, db0, table0) {
      KindsDiffer(db0, table0, Decimal(n), db, table);
      assert Taken(store, db0, table0, n);
    }
  }

  lemma StepKeepsInv(store: Store, step: Step, db0: string, table0: string)
    requires Named(db0, table0) && Enabled(step, db0, table0) && Inv(store, db0, table0)
    ensures Inv(Do(store, step), db0, table0)
  {
    match step
    case Insert(db, table, rows) =>
      InsertRowsKeepCovers(store, db, table, ColumnFor(store, db, table), rows, db0, table0);
      InsertRowsKeepSchema(store, db, table, ColumnFor(store, db, table), rows, SchemaKey(db0, table0));
    case Delete(db, table, pk) => DeleteKeepsInv(store, db, table, pk, db0, table0);
    case Create(db, table, columns) =>
      if (db, table) != (db0, table0) {
        OtherTableKeeps(store, Do(store, step), db, table, db0, table0);
      }
    case Drop(db, table) => OtherTableKeeps(store, Do(store, step), db, table, db0, table0);
  }

  lemma {:induction false} RunKeepsInv(store: Store, steps: seq<Step>, db0: string, table0: string)
    requires Named(db0, table0) && Inv(store, db0, table0) && forall step <- steps :: Enabled(step, db0, table0)
    ensures Inv(Exec(store, steps), db0, table0)
  {
    if steps != [] {
      RunKeepsInv(store, steps[..|steps| - 1], db0, table0);
      StepKeepsInv(Exec(store, steps[..|steps| - 1]), steps[|steps| - 1], db0, table0);
    }
  }

  // ----- Main results -----------------------------------------------------------------

  /** A table that is created covers its rows exactly when no number was left taken under its name. */
  lemma CreationCoversIff(store: Store, db: string, table: string, columns: seq<Column>)
    requires Named(db, table) && SchemaKey(db, table) !in store
    ensures Inv(CreateTable(store, db, table, columns), db, table) <==>
      forall n: nat :: !Taken(store, db, table, n)
  {
    var t := CreateTable(store, db, table, columns);
    forall n: nat ensures Taken(t, db, table, n) <==> Taken(store, db, table, n) {
      KindsDiffer(db, table, Decimal(n), db, table);
    }
  }

  /** In a covered table an AUTO row is never refused: it gets the next number, and no row with that
      key was there. */
  lemma AutoIsFresh(store: Store, db: string, table: string, column: nat, row: seq<string>)
    requires Named(db, table) && Covers(store, db, table) && SeqOf(store, db, table) < INT_MAX
    requires column < |row| && row[column] == "AUTO"
    ensures var id := Decimal(SeqOf(store, db, table) + 1);
      && TableKey(db, table, id) !in store
      && InsertRow(store, db, table, column, row).1 == Inserted(id)
      && SeqOf(InsertRow(store, db, table, column, row).0, db, table) == SeqOf(store, db, table) + 1
  {
    var n := SeqOf(store, db, table) + 1;
    assert !Taken(store, db, table, n);
    KindsDiffer(db, table, Decimal(n), db, table);
  }

  /** An insert stores its own row, under the key it reports, and changes no row that was there. */
  lemma InsertStoresOneRow(store: Store, db: string, table: string, column: nat, row: seq<string>,
                           db0: string, table0: string, pk: string)
    requires Named(db, table) && Named(db0, table0)
    ensures var (s, outcome) := InsertRow(store, db, table, column, row);
      && (outcome.Inserted? && (db, table, outcome.key) == (db0, table0, pk) ==>
            TableKey(db0, table0, pk) !in store && column < |row|
            && TableKey(db0, table0, pk) in s && s[TableKey(db0, table0, pk)] == RowValue(row[column := pk]))
      && (!(outcome.Inserted? && (db, table, outcome.key) == (db0, table0, pk)) ==>
            (TableKey(db0, table0, pk) in s <==> TableKey(db0, table0, pk) in store)
            && (TableKey(db0, table0, pk) in s ==> s[TableKey(db0, table0, pk)] == store[TableKey(db0, table0, pk)]))
  {
    var (s, outcome) := InsertRow(store, db, table, column, row);
    KindsDiffer(db0, table0, pk, db, table);
    if outcome.Inserted? {
      KindsDiffer(db, table, outcome.key, db, table);
      if TableKey(db, table, outcome.key) == TableKey(db0, table0, pk) {
        RowKeysAreUnambiguous(db, table, outcome.key, db0, table0, pk);
      }
    }
  }

  /** AUTO rows of one statement, as far as the sequence stays within int range. */
  predicate InRange(store: Store, db: string, table: string, column: nat, rows: seq<seq<string>>) {
    forall k | 0 <= k < |rows| :: column < |rows[k]| && rows[k][column] == "AUTO" ==>
      SeqOf(InsertRows(store, db, table, column, rows[..k]).0, db, table) < INT_MAX
  }

  lemma {:induction false} OutcomeAt(store: Store, db: string, table: string, column: nat,
                                     rows: seq<seq<string>>, k: nat)
    requires k < |rows|
    ensures InsertRows(store, db, table, column, rows).1[k]
         == InsertRow(InsertRows(store, db, table, column, rows[..k]).0, db, table, column, rows[k]).1
  {
    if k < |rows| - 1 {
      assert rows[..|rows| - 1][..k] == rows[..k];
      OutcomeAt(store, db, table, column, rows[..|rows| - 1], k);
    }
  }

  /** Row k of an insert statement asks for AUTO, within int range, and is not inserted. */
  predicate RefusesAuto(s: Store, db: string, table: string, rows: seq<seq<string>>, k: nat) {
    var column := ColumnFor(s, db, table);
    && k < |rows| && column < |rows[k]| && rows[k][column] == "AUTO"
    && InRange(s, db, table, column, rows)
    && !InsertRows(s, db, table, column, rows).1[k].Inserted?
  }

  /** From the creation of a table without numbers taken, over every run of inserts, deletes, creations
      and drops of other tables: every AUTO row of the next statement is inserted. */
  lemma AutoNeverMeetsADuplicate(store: Store, db: string, table: string, columns: seq<Column>, steps: seq<Step>,
                                 rows: seq<seq<string>>, k: nat)
    requires Named(db, table) && SchemaKey(db, table) !in store
    requires forall n: nat :: !Taken(store, db, table, n)
    requires forall step <- steps :: Enabled(step, db, table)
    ensures !RefusesAuto(Exec(CreateTable(store, db, table, columns), steps), db, table, rows, k)
  {
    var created := CreateTable(store, db, table, columns);
    CreationCoversIff(store, db, table, columns);
    RunKeepsInv(created, steps, db, table);
    var s := Exec(created, steps);
    var column := ColumnFor(s, db, table);
    if k < |rows| && column < |rows[k]| && rows[k][column] == "AUTO" && InRange(s, db, table, column, rows) {
      InsertRowsKeepCovers(s, db, table, column, rows[..k], db, table);
      AutoIsFresh(InsertRows(s, db, table, column, rows[..k]).0, db, table, column, rows[k]);
      OutcomeAt(s, db, table, column, rows, k);
    }
  }

  /** One AUTO row moves the sequence up by one, refused or not; no row goes away. */
  lemma AutoRowCounts(store: Store, db: string, table: string, row: seq<string>, column: nat)
    requires Named(db, table) && SeqOf(store, db, table) >= 0 && column < |row| && row[column] == "AUTO"
    ensures var s := InsertRow(store, db, table, column, row).0;
      SeqOf(s, db, table) == SeqOf(store, db, table) + 1 && store.Keys <= s.Keys
  {
    KindsDiffer(db, table, Printed(SeqOf(store, db, table) + 1), db, table);
  }

  lemma InsertRowsLast(store: Store, db: string, table: string, column: nat, rows: seq<seq<string>>, row: seq<string>)
    ensures InsertRows(store, db, table, column, rows + [row]).0
         == InsertRow(InsertRows(store, db, table, column, rows).0, db, table, column, row).0
  {
    assert (rows + [row])[..|rows|] == rows;
  }

  /** As many AUTO rows move it up by their number. */
  lemma {:induction false} AutoRowsCount(store: Store, db: string, table: string, row: seq<string>, column: nat, n: nat)
    requires Named(db, table) && SeqOf(store, db, table) >= 0 && column < |row| && row[column] == "AUTO"
    ensures var s := InsertRows(store, db, table, column, seq(n, _ => row)).0;
      SeqOf(s, db, table) == SeqOf(store, db, table) + n && store.Keys <= s.Keys
  {
    if n > 0 {
      var rows := seq(n - 1, _ => row);
      AutoRowsCount(store, db, table, row, column, n - 1);
      AutoRowCounts(InsertRows(store, db, table, column, rows).0, db, table, row, column);
      InsertRowsLast(store, db, table, column, rows, row);
      assert seq(n, _ => row) == rows + [row];
    } else {
      assert seq(n, _ => row) == [];
    }
  }

  function AutoRows(n: nat, column: nat): seq<seq<string>> {
    seq(n, _ => seq(column + 1, _ => "AUTO"))
  }

  lemma AutoRowsInRange(s: Store, db: string, table: string, column: nat, n: nat)
    requires Named(db, table) && SeqOf(s, db, table) == 0 && n <= INT_MAX
    ensures InRange(s, db, table, column, AutoRows(n, column))
  {
    var rows := AutoRows(n, column);
    forall k: nat | k < n ensures SeqOf(InsertRows(s, db, table, column, rows[..k]).0, db, table) < INT_MAX {
      assert rows[..k] == AutoRows(k, column);
      AutoRowsCount(s, db, table, seq(column + 1, _ => "AUTO"), column, k);
    }
  }

  /** If number n was left taken, the statement of n AUTO rows has its last row refused. */
  lemma AutoMeetsALeftOver(store: Store, db: string, table: string, columns: seq<Column>, n: nat)
    requires Named(db, table) && SchemaKey(db, table) !in store && Taken(store, db, table, n)
    ensures var s := CreateTable(store, db, table, columns);
      RefusesAuto(s, db, table, AutoRows(n, ColumnFor(s, db, table)), n - 1)
  {
    var s := CreateTable(store, db, table, columns);
    var column := ColumnFor(s, db, table);
    var rows := AutoRows(n, column);
    AutoRowsInRange(s, db, table, column, n);
    assert rows[..n - 1] == AutoRows(n - 1, column);
    AutoRowsCount(s, db, table, seq(column + 1, _ => "AUTO"), column, n - 1);
    OutcomeAt(s, db, table, column, rows, n - 1);
    KindsDiffer(db, table, Decimal(n), db, table);
  }

  /** No run refuses an AUTO row. */
  ghost predicate AutoNeverRefused(created: Store, db: string, table: string) {
    forall steps, rows, k: nat | (forall step <- steps :: Enabled(step, db, table)) ::
      !RefusesAuto(Exec(created, steps), db, table, rows, k)
  }

  /** From creation on no AUTO row is ever refused exactly when no number was left taken in the store. */
  lemma AutoNeverRefusedIff(store: Store, db: string, table: string, columns: seq<Column>)
    requires Named(db, table) && SchemaKey(db, table) !in store
    ensures AutoNeverRefused(CreateTable(store, db, table, columns), db, table) <==>
      forall n: nat :: !Taken(store, db, table, n)
  {
    var created := CreateTable(store, db, table, columns);
    if n: nat :| Taken(store, db, table, n) {
      AutoMeetsALeftOver(store, db, table, columns, n);
      assert Exec(created, []) == created;
    } else {
      forall steps, rows, k: nat | forall step <- steps :: Enabled(step, db, table)
        ensures !RefusesAuto(Exec(created, steps), db, table, rows, k)
      {
        AutoNeverMeetsADuplicate(store, db, table, columns, steps, rows, k);
      }
    }
  }

  /** Dropping forgets the sequence but not the rows: created again, the table refuses its first AUTO
      row. */
  lemma DropForgetsTheSequence()
    ensures var row1 := TableKey("d", "t", "1");
      var left := DropTable(map[SchemaKey("d", "t") := SchemaValue("id:INT:PK;"), SeqKey("d", "t") := IntValue(1),
                                row1 := RowValue(["1"])], "d", "t");
      var again := CreateTable(left, "d", "t", [Column("id", "INT", true)]);
      InsertRow(again, "d", "t", 0, ["AUTO"]).1 == Duplicate("1")
  {
    KindsDiffer("d", "t", "1", "d", "t");
    assert Decimal(1) == "1";
  }
}
