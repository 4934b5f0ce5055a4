/** What a table's searches find, and what stays of its page's header, over every run. */
module LeafReads {
  import opened Bytes
  import opened PagerModel
  import opened BufferPoolModel
  import opened LeafPage
  import opened LeafTable

  /** Node type, root flag and parent: as the file has them; a leaf, a root and the parent bytes of the page in a
      file shorter than a page. */
  function HeaderOf(file: seq<byte>): seq<byte> {
    if |file| >= PAGE_SIZE then PageAt(file, ROOT)[..6] else [1, 1] + PageAt(file, ROOT)[2..6]
  }

  lemma RootBytesHeader(page: seq<byte>)
    requires IsPage(page)
    ensures RootBytes(page)[..6] == [1, 1] + page[2..6]
  {
  }

  lemma InsertBytesHeader(page: seq<byte>, k: nat, c: Cell)
    requires IsPage(page) && k <= NumCells(page) < MAX_CELLS && |c.row| == ROW_SIZE
    ensures InsertBytes(page, k, c.key, c.row)[..6] == page[..6]
  {
  }

  lemma OpenKeepsHeader(file: seq<byte>)
    requires HoldsLeaf(file)
    ensures Usable(OpenTable(file)) && Root(OpenTable(file))[..6] == HeaderOf(file)
  {
    OpenShowsTheFile(file);
    FreshIsIdle(file);
    if |file| / PAGE_SIZE == 0 {
      var page := PageAt(file, ROOT);
      ChangeRoot(FreshPool(file), RootBytes(page));
      RootBytesHeader(page);
    }
  }

  lemma InsertKeepsHeader(p: Pool, k: nat, c: Cell)
    requires Idle(p) && k <= NumCells(Root(p)) <= MAX_CELLS && |c.row| == ROW_SIZE
    ensures Idle(InsertAtRoot(p, k, c)) && Root(InsertAtRoot(p, k, c))[..6] == Root(p)[..6]
  {
    if NumCells(Root(p)) < MAX_CELLS {
      ChangeRoot(p, InsertBytes(Root(p), k, c.key, c.row));
      InsertBytesHeader(Root(p), k, c);
    } else {
      VisitRoot(p);
    }
  }

  lemma PutKeepsHeader(p: Pool, c: Cell)
    requires Usable(p) && |c.row| == ROW_SIZE
    ensures Usable(PutRow(p, c)) && Root(PutRow(p, c))[..6] == Root(p)[..6]
  {
    PutRowInserts(p, c);
    PlaceIsKept(p, c.key);
    InsertKeepsHeader(Visited(p), PlaceOf(p, c.key), c);
  }

  /** Over every sequence of inserts and reopenings the page keeps its node type, root flag and parent. */
  lemma {:induction false} HeaderStays(file: seq<byte>, events: seq<Event>)
    requires HoldsLeaf(file) && RowsFit(events)
    ensures Root(RunTable(file, events))[..6] == HeaderOf(file)
    decreases |events|
  {
    if events == [] {
      OpenKeepsHeader(file);
    } else {
      var init := events[..|events| - 1];
      HeaderStays(file, init);
      var p := RunTable(file, init);
      match events[|events| - 1]
      case Put(c) => PutKeepsHeader(p, c);
      case Reopen =>
        CloseSavesTheLeaf(p);
        OpenKeepsHeader(CloseTable(p));
    }
  }

  /** After any inserts and reopenings a search ends at a cell with the key if there is one, and otherwise where
      it would have to stand. */
  lemma SearchFindsTheKeyIff(file: seq<byte>, events: seq<Event>, key: uint32)
    requires HoldsLeaf(file) && RowsFit(events)
    ensures var p := RunTable(file, events);
      var (cells, k) := (Cells(Root(p)), PlaceOf(p, key));
      && (k < |cells| && cells[k].key == key <==> exists i :: 0 <= i < |cells| && cells[i].key == key)
      && (forall i | 0 <= i < k :: cells[i].key <= key) && (forall i | k <= i < |cells| :: key <= cells[i].key)
  {
    var p := RunTable(file, events);
    var cells := Cells(Root(p));
    SearchSplits(cells, key, 0, |cells|);
    if i :| 0 <= i < |cells| && cells[i].key == key {
      SearchFindsEqual(cells, key, 0, |cells|, i);
    }
  }
}
