/** INSERT: finding the key column, numbering AUTO keys, refusing duplicates.

    The store maps key strings to values. The functions say what a statement does to it; the
    class `Database` holds it and executes statements in place. */
module AutoKeys {
  import opened StoreKeys

  datatype Value = RowValue(values: seq<string>) | IntValue(n: int) | SchemaValue(text: string)

  type Store = map<string, Value>

  // ----- Schemas --------------------------------------------------------------------

  datatype Column = Column(name: string, kind: string, isKey: bool)

  function ColumnText(c: Column): string {
    c.name + (":" + (c.kind + (if c.isKey then ":PK" else "")))
  }

  function SchemaText(columns: seq<Column>): string {
    if columns == [] then "" else ColumnText(columns[0]) + (";" + SchemaText(columns[1..]))
  }

  function IndexOf(s: string, c: char): (i: nat)
    ensures i <= |s| && c !in s[..i] && (i < |s| ==> s[i] == c)
  {
    if s == "" || s[0] == c then 0
    else
      var i := 1 + IndexOf(s[1..], c);
      assert s[..i] == [s[0]] + s[1..][..i - 1];
      i
  }

  /** The nonempty pieces between semicolons. */
  function Tokens(s: string): seq<string>
    decreases |s|
  {
    if s == "" then []
    else
      var i := IndexOf(s, ';');
      var rest := if i < |s| then s[i + 1..] else "";
      (if i == 0 then [] else [s[..i]]) + Tokens(rest)
  }

  predicate Contains(s: string, p: string) {
    p <= s || (s != "" && Contains(s[1..], p))
  }

  /** The first token from i on that mentions a key, or the number of tokens. */
  function FirstFrom(tokens: seq<string>, i: nat): (k: nat)
    requires i <= |tokens|
    ensures i <= k <= |tokens|
    ensures k < |tokens| ==> Contains(tokens[k], ":PK")
    ensures forall j | i <= j < k :: !Contains(tokens[j], ":PK")
    decreases |tokens| - i
  {
    if i == |tokens| || Contains(tokens[i], ":PK") then i else FirstFrom(tokens, i + 1)
  }

  /** The key column by the schema text: the first piece with ":PK", or else column 0. */
  function KeyColumn(text: string): nat {
    var k := FirstFrom(Tokens(text), 0);
    if k < |Tokens(text)| then k else 0
  }

  /** A column counts as key if it is declared so, or if its type begins with PK. */
  predicate LooksLikeKey(c: Column) {
    c.isKey || "PK" <= c.kind
  }

  function FirstKeyColumn(columns: seq<Column>, i: nat): (k: nat)
    requires i <= |columns|
    ensures i <= k <= |columns|
    ensures k < |columns| ==> LooksLikeKey(columns[k])
    ensures forall j | i <= j < k :: !LooksLikeKey(columns[j])
    decreases |columns| - i
  {
    if i == |columns| || LooksLikeKey(columns[i]) then i else FirstKeyColumn(columns, i + 1)
  }

  predicate Plain(c: Column) {
    ColonFree(c.name) && ColonFree(c.kind) && ';' !in c.name && ';' !in c.kind
  }

  lemma {:induction false} IndexOfBehind(a: string, x: string, c: char)
    requires c !in a
    ensures IndexOf(a + ([c] + x), c) == |a|
    decreases |a|
  {
    if a != "" {
      assert (a + ([c] + x))[1..] == a[1..] + ([c] + x);
      IndexOfBehind(a[1..], x, c);
    }
  }

  lemma TokensFront(a: string, x: string)
    requires a != "" && ';' !in a
    ensures Tokens(a + (";" + x)) == [a] + Tokens(x)
  {
    var s := a + (";" + x);
    IndexOfBehind(a, x, ';');
    assert s[..|a|] == a && s[|a| + 1..] == x;
  }

  lemma {:induction false} ContainsSkips(a: string, x: string)
    requires ColonFree(a)
    ensures Contains(a + x, ":PK") <==> Contains(x, ":PK")
    decreases |a|
  {
    if a == "" {
      assert a + x == x;
    } else {
      assert (a + x)[1..] == a[1..] + x && (a + x)[0] == a[0];
      assert (a + x)[0] != ':';
      ContainsSkips(a[1..], x);
    }
  }

  lemma KeyTextIsSeen(c: Column)
    requires Plain(c)
    ensures Contains(ColumnText(c), ":PK") <==> LooksLikeKey(c)
    ensures ColumnText(c) != "" && ';' !in ColumnText(c)
  {
    var suffix := if c.isKey then ":PK" else "";
    var tail := ":" + (c.kind + suffix);
    ContainsSkips(c.name, tail);
    assert tail[1..] == c.kind + suffix;
    ContainsSkips(c.kind, suffix);
    assert Contains(suffix, ":PK") <==> c.isKey;
    StartsWithKey(c.kind, suffix);
  }

  lemma StartsWithKey(kind: string, suffix: string)
    requires ColonFree(kind) && (suffix == ":PK" || suffix == "")
    ensures ":PK" <= ":" + (kind + suffix) <==> "PK" <= kind
  {
    var t := ":" + (kind + suffix);
    if "PK" <= kind {
      assert t[..3] == ":PK";
    }
    if ":PK" <= t {
      assert t[1] == 'P' && t[2] == 'K';
      assert |kind| >= 2 && kind[0] == t[1] && kind[1] == t[2];
    }
  }

  lemma {:induction false} TokensAreColumns(columns: seq<Column>)
    requires forall c <- columns :: Plain(c)
    ensures |Tokens(SchemaText(columns))| == |columns|
    ensures forall i | 0 <= i < |columns| :: Tokens(SchemaText(columns))[i] == ColumnText(columns[i])
    decreases |columns|
  {
    if columns != [] {
      KeyTextIsSeen(columns[0]);
      TokensFront(ColumnText(columns[0]), SchemaText(columns[1..]));
      TokensAreColumns(columns[1..]);
      var rest := Tokens(SchemaText(columns[1..]));
      assert Tokens(SchemaText(columns)) == [ColumnText(columns[0])] + rest;
      assert forall i | 0 < i < |columns| :: columns[i] == columns[1..][i - 1];
    }
  }

  lemma {:induction false} SameFirstKey(columns: seq<Column>, tokens: seq<string>, i: nat)
    requires |tokens| == |columns| && i <= |columns| && forall c <- columns :: Plain(c)
    requires forall j | 0 <= j < |columns| :: tokens[j] == ColumnText(columns[j])
    ensures FirstFrom(tokens, i) == FirstKeyColumn(columns, i)
    decreases |columns| - i
  {
    if i < |columns| {
      KeyTextIsSeen(columns[i]);
      SameFirstKey(columns, tokens, i + 1);
    }
  }

  /** The schema round trip: INSERT finds the key column that CREATE TABLE wrote, for columns whose
      names and types have no colon and no semicolon. */
  lemma KeyColumnIsTheDeclaredOne(columns: seq<Column>)
    requires forall c <- columns :: Plain(c)
    ensures var k := FirstKeyColumn(columns, 0);
      KeyColumn(SchemaText(columns)) == if k < |columns| then k else 0
  {
    TokensAreColumns(columns);
    SameFirstKey(columns, Tokens(SchemaText(columns)), 0);
  }

  // ----- INSERT ---------------------------------------------------------------------

  datatype Outcome = NoKey | Duplicate(key: string) | Inserted(key: string)

  function SeqOf(store: Store, db: string, table: string): int {
    var key := SeqKey(db, table);
    if key in store && store[key].IntValue? then store[key].n else 0
  }

  /** The next number for AUTO; a greater explicit number moves the sequence up. */
  function Numbered(store: Store, db: string, table: string, id: string): (Store, string) {
    var last := SeqOf(store, db, table);
    if id == "AUTO" then (store[SeqKey(db, table) := IntValue(last + 1)], Printed(last + 1))
    else if AllDigits(id) && Atoi(id) > last then (store[SeqKey(db, table) := IntValue(Atoi(id))], id)
    else (store, id)
  }

  /** Printing an int with %d. */
  function Printed(n: int): string {
    if n < 0 then "-" + Decimal(-n) else Decimal(n)
  }

  function InsertRow(store: Store, db: string, table: string, column: nat, row: seq<string>): (Store, Outcome) {
    if column >= |row| then (store, NoKey)
    else
      var (numbered, id) := Numbered(store, db, table, row[column]);
      var key := TableKey(db, table, id);
      if key in numbered then (numbered, Duplicate(id))
      else (numbered[key := RowValue(row[column := id])], Inserted(id))
  }

  function ColumnFor(store: Store, db: string, table: string): nat {
    var key := SchemaKey(db, table);
    if key in store && store[key].SchemaValue? then KeyColumn(store[key].text) else 0
  }

  /** The rows of one statement, in order. */
  function InsertRows(store: Store, db: string, table: string, column: nat, rows: seq<seq<string>>)
    : (r: (Store, seq<Outcome>))
    ensures |r.1| == |rows|
  {
    if rows == [] then (store, [])
    else
      var (before, outcomes) := InsertRows(store, db, table, column, rows[..|rows| - 1]);
      var (after, outcome) := InsertRow(before, db, table, column, rows[|rows| - 1]);
      (after, outcomes + [outcome])
  }

  function CreateTable(store: Store, db: string, table: string, columns: seq<Column>): Store {
    if SchemaKey(db, table) in store then store
    else store[SchemaKey(db, table) := SchemaValue(SchemaText(columns))][SeqKey(db, table) := IntValue(0)]
  }

  function DropTable(store: Store, db: string, table: string): Store {
    if SchemaKey(db, table) in store then store - {SchemaKey(db, table), SeqKey(db, table)} else store
  }

  function DeleteRow(store: Store, db: string, table: string, pk: string): Store {
    store - {TableKey(db, table, pk)}
  }

  // ----- In place -------------------------------------------------------------------

  class Database {
    var store: Store

    constructor ()
      ensures store == map[]
    {
      store := map[];
    }

    method FindKeyColumn(db: string, table: string) returns (column: nat)
      ensures column == ColumnFor(store, db, table)
    {
      column := 0;
      var key := SchemaKey(db, table);
      if key !in store || !store[key].SchemaValue? {
        return;
      }
      var tokens := Tokens(store[key].text);
      var i := 0;
      while i < |tokens|
        invariant i <= |tokens| && FirstFrom(tokens, i) == FirstFrom(tokens, 0)
      {
        if Contains(tokens[i], ":PK") {
          return i;
        }
        i := i + 1;
      }
    }

    method InsertOne(db: string, table: string, column: nat, row: seq<string>) returns (outcome: Outcome)
      modifies this
      ensures (store, outcome) == InsertRow(old(store), db, table, column, row)
    {
      if column >= |row| {
        return NoKey;
      }
      var id := row[column];
      var finalId := id;
      var seqKey := SeqKey(db, table);
      var last := SeqOf(store, db, table);
      if id == "AUTO" {
        store := store[seqKey := IntValue(last + 1)];
        finalId := Printed(last + 1);
      } else if AllDigits(id) {
        var inserted := Atoi(id);
        if inserted > last {
          store := store[seqKey := IntValue(inserted)];
        }
      }
      var key := TableKey(db, table, finalId);
      if key in store {
        return Duplicate(finalId);
      }
      store := store[key := RowValue(row[column := finalId])];
      return Inserted(finalId);
    }

    method ExecuteInsert(db: string, table: string, rows: seq<seq<string>>) returns (outcomes: seq<Outcome>)
      modifies this
      ensures (store, outcomes) == InsertRows(old(store), db, table, ColumnFor(old(store), db, table), rows)
    {
      var column := FindKeyColumn(db, table);
      outcomes := [];
      for i := 0 to |rows|
        invariant (store, outcomes) == InsertRows(old(store), db, table, column, rows[..i])
      {
        assert rows[..i + 1][..i] == rows[..i];
        var outcome := InsertOne(db, table, column, rows[i]);
        outcomes := outcomes + [outcome];
      }
      assert rows[..|rows|] == rows;
    }

    method ExecuteCreateTable(db: string, table: string, columns: seq<Column>)
      modifies this
      ensures store == CreateTable(old(store), db, table, columns)
    {
      var key := SchemaKey(db, table);
      if key in store {
        return;
      }
      var schema := "";
      for i := 0 to |columns|
        invariant schema + SchemaText(columns[i..]) == SchemaText(columns)
      {
        assert columns[i..][1..] == columns[i + 1..];
        ghost var rest := SchemaText(columns[i + 1..]);
        assert (schema + (ColumnText(columns[i]) + ";")) + rest == schema + (ColumnText(columns[i]) + (";" + rest));
        schema := schema + (ColumnText(columns[i]) + ";");
      }
      assert schema + "" == schema;
      store := store[key := SchemaValue(schema)];
      store := store[SeqKey(db, table) := IntValue(0)];
    }

    method ExecuteDelete(db: string, table: string, pk: string)
      modifies this
      ensures store == DeleteRow(old(store), db, table, pk)
    {
      store := store - {TableKey(db, table, pk)};
    }

    method ExecuteDropTable(db: string, table: string)
      modifies this
      ensures store == DropTable(old(store), db, table)
    {
      var key := SchemaKey(db, table);
      if key !in store {
        return;
      }
      store := store - {key};
      store := store - {SeqKey(db, table)};
    }
  }
}
