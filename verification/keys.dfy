/** Decimal numbers and the names under which the store keeps tables, rows and sequences. */
module StoreKeys {

  // ----- Decimal numbers ------------------------------------------------------------

  predicate IsDigit(c: char) {
    '0' <= c <= '9'
  }

  /** Every character is a digit; so the empty string counts. */
  predicate AllDigits(s: string) {
    forall i | 0 <= i < |s| :: IsDigit(s[i])
  }

  function DigitChar(d: nat): (c: char)
    requires d < 10
    ensures IsDigit(c) && c as int - '0' as int == d
  {
    ('0' as int + d) as char
  }

  /** Printing with %d. */
  function Decimal(n: nat): (s: string)
    ensures AllDigits(s) && s != ""
  {
    if n < 10 then [DigitChar(n)] else Decimal(n / 10) + [DigitChar(n % 10)]
  }

  /** Reading digits. */
  function Number(s: string): nat
    requires AllDigits(s)
  {
    if s == "" then 0 else 10 * Number(s[..|s| - 1]) + (s[|s| - 1] as int - '0' as int)
  }

  /** Reading inverts printing. */
  lemma {:induction false} ReadsWhatIsPrinted(n: nat)
    ensures Number(Decimal(n)) == n
  {
    var s := Decimal(n);
    if n < 10 {
      assert s[..0] == "";
    } else {
      assert s[..|s| - 1] == Decimal(n / 10);
      ReadsWhatIsPrinted(n / 10);
    }
  }

  const INT_MAX: int := 0x7FFF_FFFF
  const LONG_MAX: int := 0x7FFF_FFFF_FFFF_FFFF

  /** atoi on digits: read as a long, which stops at its greatest value, then cut to 32 bits. */
  function Atoi(s: string): int
    requires AllDigits(s)
  {
    var long := if Number(s) > LONG_MAX then LONG_MAX else Number(s);
    var low := long % 0x1_0000_0000;
    if low > INT_MAX then low - 0x1_0000_0000 else low
  }

  // ----- Names ----------------------------------------------------------------------

  predicate ColonFree(s: string) {
    ':' !in s
  }

  function TableKey(db: string, table: string, pk: string): string {
    "DB:" + (db + (":" + ("TBL:" + (table + (":" + pk)))))
  }

  function SchemaKey(db: string, table: string): string {
    "DB:" + (db + (":" + ("META:TBL:" + table)))
  }

  function SeqKey(db: string, table: string): string {
    "DB:" + (db + (":" + ("SEQ:" + table)))
  }

  lemma SameStart(p: string, x: string, y: string)
    requires p + x == p + y
    ensures x == y
  {
    assert x == (p + x)[|p|..] && y == (p + y)[|p|..];
  }

  /** What stands before the first colon, and what behind it, can be told apart. */
  lemma {:induction false} ColonSplits(a: string, b: string, x: string, y: string)
    requires ColonFree(a) && ColonFree(b) && a + (":" + x) == b + (":" + y)
    ensures a == b && x == y
    decreases |a|
  {
    var s, t := a + (":" + x), b + (":" + y);
    if a == "" || b == "" {
      assert s[0] == t[0];
      assert a == "" && b == "" && s[1..] == x && t[1..] == y;
    } else {
      assert s[0] == a[0] && t[0] == b[0];
      assert s[1..] == a[1..] + (":" + x) && t[1..] == b[1..] + (":" + y);
      ColonSplits(a[1..], b[1..], x, y);
      assert a == [a[0]] + a[1..] && b == [b[0]] + b[1..];
    }
  }

  /** Row keys are unambiguous when database and table names have no colon; the primary key may. */
  lemma RowKeysAreUnambiguous(db: string, table: string, pk: string, db': string, table': string, pk': string)
    requires ColonFree(db) && ColonFree(db') && ColonFree(table) && ColonFree(table')
    requires TableKey(db, table, pk) == TableKey(db', table', pk')
    ensures db == db' && table == table' && pk == pk'
  {
    SameStart("DB:", db + (":" + ("TBL:" + (table + (":" + pk)))), db' + (":" + ("TBL:" + (table' + (":" + pk')))));
    ColonSplits(db, db', "TBL:" + (table + (":" + pk)), "TBL:" + (table' + (":" + pk')));
    SameStart("TBL:", table + (":" + pk), table' + (":" + pk'));
    ColonSplits(table, table', pk, pk');
  }

  /** What stands before the primary key. */
  function RowStart(db: string, table: string): string {
    "DB:" + (db + (":" + ("TBL:" + (table + ":"))))
  }

  lemma KeyIsStartAndRest(db: string, table: string, pk: string)
    ensures TableKey(db, table, pk) == RowStart(db, table) + pk
  {
    assert table + (":" + pk) == (table + ":") + pk;
    assert "TBL:" + ((table + ":") + pk) == ("TBL:" + (table + ":")) + pk;
    assert ":" + (("TBL:" + (table + ":")) + pk) == (":" + ("TBL:" + (table + ":"))) + pk;
    assert db + ((":" + ("TBL:" + (table + ":"))) + pk) == (db + (":" + ("TBL:" + (table + ":")))) + pk;
    assert "DB:" + ((db + (":" + ("TBL:" + (table + ":")))) + pk) == RowStart(db, table) + pk;
  }

  /** Two tables share a row key for some primary keys. */
  ghost predicate Clash(db: string, table: string, db': string, table': string) {
    exists pk, pk' :: TableKey(db, table, pk) == TableKey(db', table', pk')
  }

  /** Two strings have a common continuation exactly when one begins the other. */
  lemma OneBeginsTheOther(a: string, b: string, x: string, y: string)
    requires a + x == b + y
    ensures a <= b || b <= a
  {
    if |a| <= |b| {
      assert a == (a + x)[..|a|] == b[..|a|];
    } else {
      assert b == (b + y)[..|b|] == a[..|b|];
    }
  }

  lemma Continues(db: string, table: string, db': string, table': string)
    requires RowStart(db, table) <= RowStart(db', table')
    ensures exists pk :: TableKey(db, table, pk) == TableKey(db', table', "")
  {
    var pk := RowStart(db', table')[|RowStart(db, table)|..];
    KeyIsStartAndRest(db, table, pk);
    KeyIsStartAndRest(db', table', "");
    assert TableKey(db, table, pk) == TableKey(db', table', "");
  }

  /** Two tables, whatever their names, share a row key exactly when the text before the primary key of
      one begins that of the other. */
  lemma TablesClashIff(db: string, table: string, db': string, table': string)
    ensures Clash(db, table, db', table') <==>
      RowStart(db, table) <= RowStart(db', table') || RowStart(db', table') <= RowStart(db, table)
  {
    if pk, pk' :| TableKey(db, table, pk) == TableKey(db', table', pk') {
      KeyIsStartAndRest(db, table, pk);
      KeyIsStartAndRest(db', table', pk');
      OneBeginsTheOther(RowStart(db, table), RowStart(db', table'), pk, pk');
    }
    if RowStart(db, table) <= RowStart(db', table') {
      Continues(db, table, db', table');
    } else if RowStart(db', table') <= RowStart(db, table) {
      Continues(db', table', db, table);
    }
  }

  lemma StartsGrow(db: string, table: string, table': string)
    requires table + ":" <= table' + ":"
    ensures RowStart(db, table) <= RowStart(db, table')
  {
    var rest := (table' + ":")[|table + ":"|..];
    assert table' + ":" == table + (":" + rest);
    assert RowStart(db, table') == TableKey(db, table, rest);
    KeyIsStartAndRest(db, table, rest);
  }

  /** For database names without a colon: the database is the same and one table name with a colon
      behind it begins the other. */
  lemma TablesOfPlainDatabasesClashIff(db: string, table: string, db': string, table': string)
    requires ColonFree(db) && ColonFree(db')
    ensures Clash(db, table, db', table') <==>
      db == db' && (table + ":" <= table' + ":" || table' + ":" <= table + ":")
  {
    if pk, pk' :| TableKey(db, table, pk) == TableKey(db', table', pk') {
      SameStart("DB:", db + (":" + ("TBL:" + (table + (":" + pk)))), db' + (":" + ("TBL:" + (table' + (":" + pk')))));
      ColonSplits(db, db', "TBL:" + (table + (":" + pk)), "TBL:" + (table' + (":" + pk')));
      SameStart("TBL:", table + (":" + pk), table' + (":" + pk'));
      assert (table + ":") + pk == table + (":" + pk) && (table' + ":") + pk' == table' + (":" + pk');
      OneBeginsTheOther(table + ":", table' + ":", pk, pk');
    }
    TablesClashIff(db, table, db', table');
    if db == db' && table + ":" <= table' + ":" {
      StartsGrow(db, table, table');
    } else if db == db' && table' + ":" <= table + ":" {
      StartsGrow(db, table', table);
    }
  }

  /** So a colon in a table name can make two tables share a row key. */
  lemma ColonsConfuse()
    ensures TableKey("d", "a:b", "c") == TableKey("d", "a", "b:c")
  {
  }

  lemma SeqKeysAreUnambiguous(db: string, table: string, db': string, table': string)
    requires ColonFree(db) && ColonFree(db') && SeqKey(db, table) == SeqKey(db', table')
    ensures db == db' && table == table'
  {
    SameStart("DB:", db + (":" + ("SEQ:" + table)), db' + (":" + ("SEQ:" + table')));
    ColonSplits(db, db', "SEQ:" + table, "SEQ:" + table');
    SameStart("SEQ:", table, table');
  }

  /** Rows, sequences and schemas never share a key. */
  lemma KindsDiffer(db: string, table: string, pk: string, db': string, table': string)
    requires ColonFree(db) && ColonFree(db')
    ensures TableKey(db, table, pk) != SeqKey(db', table')
    ensures TableKey(db, table, pk) != SchemaKey(db', table')
    ensures SeqKey(db, table) != SchemaKey(db', table')
  {
    RestDiffers(db, db', "TBL:" + (table + (":" + pk)), "SEQ:" + table');
    RestDiffers(db, db', "TBL:" + (table + (":" + pk)), "META:TBL:" + table');
    RestDiffers(db, db', "SEQ:" + table, "META:TBL:" + table');
  }

  lemma RestDiffers(db: string, db': string, x: string, y: string)
    requires ColonFree(db) && ColonFree(db') && x != "" && y != "" && x[0] != y[0]
    ensures "DB:" + (db + (":" + x)) != "DB:" + (db' + (":" + y))
  {
    if "DB:" + (db + (":" + x)) == "DB:" + (db' + (":" + y)) {
      SameStart("DB:", db + (":" + x), db' + (":" + y));
      ColonSplits(db, db', x, y);
    }
  }
}
