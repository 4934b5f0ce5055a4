/** Which column keys a row, and what becomes of each row of an INSERT, from the creation of its table on. */
module AutoRows {
  import opened StoreKeys
  import opened AutoKeys
  import opened AutoSafety

  // ----- The schema stays what creation wrote -------------------------------------------

  ghost predicate SchemaIs(store: Store, db: string, table: string, columns: seq<Column>) {
    SchemaKey(db, table) in store && store[SchemaKey(db, table)] == SchemaValue(SchemaText(columns))
  }

  lemma RowKeepsSchema(store: Store, db: string, table: string, column: nat, row: seq<string>,
                       db0: string, table0: string, columns: seq<Column>)
    requires Named(db, table) && Named(db0, table0) && SchemaIs(store, db0, table0, columns)
    ensures SchemaIs(InsertRow(store, db, table, column, row).0, db0, table0, columns)
  {
    if column < |row| {
      var (numbered, id) := Numbered(store, db, table, row[column]);
      KindsDiffer(db, table, id, db0, table0);
    }
  }

  lemma {:induction false} RowsKeepSchema(store: Store, db: string, table: string, column: nat, rows: seq<seq<string>>,
                                          db0: string, table0: string, columns: seq<Column>)
    requires Named(db, table) && Named(db0, table0) && SchemaIs(store, db0, table0, columns)
    ensures SchemaIs(InsertRows(store, db, table, column, rows).0, db0, table0, columns)
  {
    if rows != [] {
      var init := rows[..|rows| - 1];
      RowsKeepSchema(store, db, table, column, init, db0, table0, columns);
      var before := InsertRows(store, db, table, column, init).0;
      RowKeepsSchema(before, db, table, column, rows[|rows| - 1], db0, table0, columns);
    }
  }

  lemma OthersKeepSchema(store: Store, step: Step, db0: string, table0: string, columns: seq<Column>)
    requires Named(db0, table0) && Enabled(step, db0, table0) && SchemaIs(store, db0, table0, columns)
    requires step.Delete? || step.Create? || step.Drop?
    ensures SchemaIs(Do(store, step), db0, table0, columns)
  {
    if step.Delete? {
      KindsDiffer(step.db, step.table, step.pk, db0, table0);
    } else {
      KindsDiffer(step.db, step.table, "", db0, table0);
      if SchemaKey(step.db, step.table) == SchemaKey(db0, table0) {
        SchemaKeysAreUnambiguous(step.db, step.table, db0, table0);
      }
    }
  }

  lemma {:induction false} RunKeepsSchema(store: Store, steps: seq<Step>, db0: string, table0: string,
                                          columns: seq<Column>)
    requires Named(db0, table0) && SchemaIs(store, db0, table0, columns)
    requires forall step <- steps :: Enabled(step, db0, table0)
    ensures SchemaIs(Exec(store, steps), db0, table0, columns)
  {
    if steps != [] {
      var last := steps[|steps| - 1];
      RunKeepsSchema(store, steps[..|steps| - 1], db0, table0, columns);
      var before := Exec(store, steps[..|steps| - 1]);
      assert last in steps;
      match last
      case Insert(db, table, rows) =>
        RowsKeepSchema(before, db, table, ColumnFor(before, db, table), rows, db0, table0, columns);
      case _ => OthersKeepSchema(before, last, db0, table0, columns);
    }
  }

  /** The column declared as key, or else the first. */
  function DeclaredKey(columns: seq<Column>): nat {
    var k := FirstKeyColumn(columns, 0);
    if k < |columns| then k else 0
  }

  /** From creation on, over every run, INSERT takes the declared key column. */
  lemma InsertFindsTheDeclaredKey(store: Store, db: string, table: string, columns: seq<Column>, steps: seq<Step>)
    requires Named(db, table) && SchemaKey(db, table) !in store && (forall c <- columns :: Plain(c))
    requires forall step <- steps :: Enabled(step, db, table)
    ensures ColumnFor(Exec(CreateTable(store, db, table, columns), steps), db, table) == DeclaredKey(columns)
  {
    var created := CreateTable(store, db, table, columns);
    KindsDiffer(db, table, "", db, table);
    RunKeepsSchema(created, steps, db, table, columns);
    KeyColumnIsTheDeclaredOne(columns);
  }

  // ----- What becomes of a row ----------------------------------------------------------

  /** The key of a row: AUTO becomes the number after the sequence, anything else stays. */
  function KeyFor(store: Store, db: string, table: string, value: string): string {
    if value == "AUTO" then Printed(SeqOf(store, db, table) + 1) else value
  }

  function Greatest(a: int, b: int): int { if a > b then a else b }

  /** A row without the key column is refused and changes nothing. Any other one is stored under its key, the
      key in place of AUTO, unless a row has that key already; the sequence counts AUTO rows, refused or not,
      and stays at least every number given explicitly. */
  ghost predicate RowHandled(s: Store, t: Store, outcome: Outcome, db: string, table: string, column: nat,
                             row: seq<string>)
  {
    if |row| <= column then outcome == NoKey && t == s
    else
      var id := KeyFor(s, db, table, row[column]);
      var key := TableKey(db, table, id);
      && outcome == (if key in s then Duplicate(id) else Inserted(id))
      && key in t && t[key] == (if key in s then s[key] else RowValue(row[column := id]))
      && SeqOf(t, db, table) == (if row[column] == "AUTO" then SeqOf(s, db, table) + 1
                                 else if AllDigits(row[column]) then Greatest(SeqOf(s, db, table), Atoi(row[column]))
                                 else SeqOf(s, db, table))
      && forall other | other != key && other != SeqKey(db, table) ::
           (other in t <==> other in s) && (other in t ==> t[other] == s[other])
  }

  lemma InsertHandlesRow(s: Store, db: string, table: string, column: nat, row: seq<string>)
    requires Named(db, table)
    ensures var (t, outcome) := InsertRow(s, db, table, column, row); RowHandled(s, t, outcome, db, table, column, row)
  {
    if column < |row| {
      KindsDiffer(db, table, KeyFor(s, db, table, row[column]), db, table);
    }
  }

  lemma {:induction false} RowAt(s: Store, db: string, table: string, column: nat, rows: seq<seq<string>>, k: nat)
    requires k < |rows|
    ensures var (t, outcome) := InsertRow(InsertRows(s, db, table, column, rows[..k]).0, db, table, column, rows[k]);
      t == InsertRows(s, db, table, column, rows[..k + 1]).0 && outcome == InsertRows(s, db, table, column, rows).1[k]
  {
    OutcomeAt(s, db, table, column, rows, k);
    assert rows[..k + 1] == rows[..k] + [rows[k]];
    InsertRowsLast(s, db, table, column, rows[..k], rows[k]);
  }

  /** From the creation of a table with plain columns on, over every run: row k of the next INSERT is keyed by
      its value in the declared key column, and handled accordingly after the rows before it. */
  lemma RowsAreKeyedAsDeclared(store: Store, db: string, table: string, columns: seq<Column>, steps: seq<Step>,
                               rows: seq<seq<string>>, k: nat)
    requires Named(db, table) && SchemaKey(db, table) !in store && (forall c <- columns :: Plain(c))
    requires (forall step <- steps :: Enabled(step, db, table)) && k < |rows|
    ensures var s := Exec(CreateTable(store, db, table, columns), steps);
      var outcomes := InsertRows(s, db, table, ColumnFor(s, db, table), rows).1;
      RowHandled(Do(s, Insert(db, table, rows[..k])), Do(s, Insert(db, table, rows[..k + 1])), outcomes[k],
                 db, table, DeclaredKey(columns), rows[k])
  {
    InsertFindsTheDeclaredKey(store, db, table, columns, steps);
    var s := Exec(CreateTable(store, db, table, columns), steps);
    var column := ColumnFor(s, db, table);
    RowAt(s, db, table, column, rows, k);
    InsertHandlesRow(InsertRows(s, db, table, column, rows[..k]).0, db, table, column, rows[k]);
  }

  lemma FirstAutoRow(s: Store, db: string, table: string, column: nat, row: seq<string>)
    requires Named(db, table) && SeqOf(s, db, table) == 0 && TableKey(db, table, "1") !in s
    requires column < |row| && row[column] == "AUTO"
    ensures InsertRows(s, db, table, column, [row]).1 == [Inserted("1")]
  {
    assert [row][..0] == [] && Decimal(1) == "1";
    InsertHandlesRow(s, db, table, column, row);
  }

  /** A table whose second column is the key: AUTO there becomes the number, and the key. */
  lemma KeyMayComeSecond(db: string, table: string, columns: seq<Column>, name: string)
    requires Named(db, table) && columns == [Column("name", "TEXT", false), Column("id", "INT", true)]
    ensures var s := CreateTable(map[], db, table, columns);
      InsertRows(s, db, table, ColumnFor(s, db, table), [[name, "AUTO"]]).1 == [Inserted("1")]
  {
    var s := CreateTable(map[], db, table, columns);
    InsertFindsTheDeclaredKey(map[], db, table, columns, []);
    assert Exec(s, []) == s;
    assert !LooksLikeKey(columns[0]) by {
      assert "TEXT"[0] != "PK"[0];
    }
    assert FirstKeyColumn(columns, 0) == 1;
    KindsDiffer(db, table, "1", db, table);
    FirstAutoRow(s, db, table, 1, [name, "AUTO"]);
  }

  // ----- Deletes ------------------------------------------------------------------------

  /** A delete takes away the row with that key and leaves every other row, schema and sequence as it is. */
  lemma DeleteTakesOneRow(store: Store, db: string, table: string, pk: string, db0: string, table0: string, pk0: string)
    requires Named(db, table) && Named(db0, table0)
    ensures var t := DeleteRow(store, db, table, pk);
      && (TableKey(db0, table0, pk0) in t <==>
            TableKey(db0, table0, pk0) in store && (db0, table0, pk0) != (db, table, pk))
      && SeqOf(t, db0, table0) == SeqOf(store, db0, table0)
      && (SchemaKey(db0, table0) in t <==> SchemaKey(db0, table0) in store)
      && forall key <- t :: key in store && t[key] == store[key]
  {
    KindsDiffer(db, table, pk, db0, table0);
    if TableKey(db0, table0, pk0) == TableKey(db, table, pk) {
      RowKeysAreUnambiguous(db0, table0, pk0, db, table, pk);
    }
  }

  /** So a deleted key can be given again. */
  lemma DeletedKeyIsFree(store: Store, db: string, table: string, column: nat, row: seq<string>)
    requires Named(db, table) && column < |row| && row[column] != "AUTO"
    ensures InsertRow(DeleteRow(store, db, table, row[column]), db, table, column, row).1 == Inserted(row[column])
  {
    var t := DeleteRow(store, db, table, row[column]);
    InsertHandlesRow(t, db, table, column, row);
  }

  /** A drop takes away the schema and the sequence of the table and nothing else; rows stay. Of a table that
      does not exist it changes nothing. */
  lemma DropTakesSchemaAndSequence(store: Store, db: string, table: string, key: string)
    requires Named(db, table)
    ensures var t := DropTable(store, db, table);
      && SchemaKey(db, table) !in t && (SchemaKey(db, table) in store ==> SeqKey(db, table) !in t)
      && (SchemaKey(db, table) !in store || (key != SchemaKey(db, table) && key != SeqKey(db, table)) ==>
            (key in t <==> key in store) && (key in t ==> t[key] == store[key]))
  {
  }

  /** A table can be created exactly when it has no schema, and then begins with its columns and sequence 0. */
  lemma CreationIsExact(store: Store, db: string, table: string, columns: seq<Column>, key: string)
    requires Named(db, table)
    ensures var t := CreateTable(store, db, table, columns);
      && (SchemaKey(db, table) in store ==> t == store)
      && (SchemaKey(db, table) !in store ==> SchemaIs(t, db, table, columns) && SeqOf(t, db, table) == 0)
      && (key != SchemaKey(db, table) && key != SeqKey(db, table) ==>
            (key in t <==> key in store) && (key in t ==> t[key] == store[key]))
  {
    KindsDiffer(db, table, "", db, table);
  }
}
