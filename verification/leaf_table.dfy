/** A table whose root leaf is page 0 of a buffer pool:
    open, find, insert, close. */
module LeafTable {
  import opened Bytes
  import opened Options
  import opened PagerModel
  import opened BufferPoolModel
  import opened CacheTransparency
  import opened LeafPage

  // Main result: over any sequence of inserts, with the file closed and opened again at
  // any moments between them, page 0 holds exactly what the inserts put there, sorted.

  const ROOT: nat := 0

  /** Between table operations: page 0 is the only page ever cached and nothing is pinned. */
  predicate Idle(p: Pool) {
    && Tracks(Sys(p, {}), ROOT, ROOT + 1)
    && (forall k | 0 <= k < POOL_SIZE :: p.pins[k] == 0)
  }

  function Root(p: Pool): (page: seq<byte>)
    requires Idle(p)
    ensures IsPage(page)
  {
    Logical(p, ROOT)
  }

  /** Closing will leave a file with page 0 in it. */
  predicate Backed(p: Pool)
    requires Shape(p)
  {
    |p.file| >= PAGE_SIZE || (Resident(p, ROOT) && p.dirty[SlotOf(p.ids, ROOT)])
  }

  // ----- Operations on values -------------------------------------------------

  /** Page 0; what a new buffer holds before it is read into is never seen. */
  function GetRootSlot(p: Pool): (r: (Pool, Option<nat>))
    requires Shape(p) && Filled(p)
    ensures Shape(r.0) && (r.1.Some? ==> r.1.value < POOL_SIZE)
    ensures forall junk | IsPage(junk) :: GetPage(p, ROOT, junk) == r
  {
    GetPage(p, ROOT, PageAt([], ROOT))
  }

  /** Get page 0, look at it, unpin it. */
  function Visited(p: Pool): Pool
    requires Shape(p) && Filled(p)
  {
    Unpin(GetRootSlot(p).0, ROOT)
  }

  function PutData(p: Pool, k: Option<nat>, d: seq<byte>): Pool
    requires Shape(p) && (k.Some? ==> k.value < POOL_SIZE)
  {
    if k.None? then p else p.(data := p.data[k.value := d])
  }

  /** Get page 0, change it to d, mark it dirty, unpin it. */
  function Changed(p: Pool, d: seq<byte>): Pool
    requires Shape(p) && Filled(p)
  {
    var (q, k) := GetRootSlot(p);
    Unpin(MarkDirty(PutData(q, k, d), ROOT), ROOT)
  }

  function OpenTable(file: seq<byte>): Pool {
    if |file| / PAGE_SIZE == 0 then Changed(FreshPool(file), RootBytes(PageAt(file, ROOT))) else FreshPool(file)
  }

  function CloseTable(p: Pool): seq<byte>
    requires Shape(p) && Filled(p)
  {
    Flush(p, POOL_SIZE).file
  }

  function InsertAtRoot(p: Pool, k: nat, c: Cell): Pool
    requires Idle(p) && k <= NumCells(Root(p)) <= MAX_CELLS && |c.row| == ROW_SIZE
  {
    if NumCells(Root(p)) >= MAX_CELLS then Visited(p) else Changed(p, InsertBytes(Root(p), k, c.key, c.row))
  }

  // ----- Each operation ---------------------------------------------------------

  lemma RoomForRoot(p: Pool)
    requires Idle(p)
    ensures GetRootSlot(p).1.Some? && GetRootSlot(p).0.file == p.file
  {
    assert p.ids[0] == EMPTY || p.ids[1] == EMPTY;
  }

  lemma GetRoot(p: Pool)
    requires Idle(p)
    ensures var (q, k) := GetRootSlot(p);
      && k.Some? && k.value < POOL_SIZE && Tracks(Sys(q, {}), ROOT, ROOT + 1) && q.file == p.file
      && SlotOf(q.ids, ROOT) == k.value && q.data[k.value] == Root(p) && q.pins[k.value] == 1
      && (forall i | 0 <= i < POOL_SIZE :: i != k.value ==> q.ids[i] == EMPTY)
      && (p.dirty[k.value] && p.ids[k.value] == ROOT ==> q.dirty[k.value])
  {
    RoomForRoot(p);
    var zeros := PageAt([], ROOT);
    GetKeepsPage(Sys(p, {}), ROOT, zeros, ROOT, ROOT + 1);
    GetGivesThePage(Sys(p, {}), ROOT, zeros, ROOT + 1);
    var (q, k) := GetRootSlot(p);
    SlotUnique(q, k.value, ROOT);
  }

  lemma VisitRoot(p: Pool)
    requires Idle(p)
    ensures Idle(Visited(p)) && Root(Visited(p)) == Root(p) && (Backed(p) ==> Backed(Visited(p)))
  {
    GetRoot(p);
    var q := GetRootSlot(p).0;
    UnpinKeepsPage(Sys(q, {}), ROOT, ROOT, ROOT + 1);
  }

  /** Write and mark page 0 while it is pinned. */
  lemma MarkWrittenRoot(s: Sys, d: seq<byte>)
    requires Tracks(s, ROOT, ROOT + 1) && s.touched == {} && Enabled(s, Write(ROOT, d))
    ensures Enabled(Do(s, Write(ROOT, d)), Mark(ROOT))
    ensures var t := Do(Do(s, Write(ROOT, d)), Mark(ROOT));
      && Tracks(t, ROOT, ROOT + 1) && t.touched == {} && Logical(t.pool, ROOT) == d
      && t.pool == MarkDirty(PutData(s.pool, Some(SlotOf(s.pool.ids, ROOT)), d), ROOT)
  {
    WriteKeepsPage(s, ROOT, d, ROOT, ROOT + 1);
    MarkKeepsPage(Do(s, Write(ROOT, d)), ROOT, ROOT, ROOT + 1);
  }

  lemma ChangeRoot(p: Pool, d: seq<byte>)
    requires Idle(p) && IsPage(d)
    ensures Idle(Changed(p, d)) && Root(Changed(p, d)) == d && Backed(Changed(p, d))
  {
    GetRoot(p);
    var s := Sys(GetRootSlot(p).0, {});
    MarkWrittenRoot(s, d);
    UnpinKeepsPage(Do(Do(s, Write(ROOT, d)), Mark(ROOT)), ROOT, ROOT, ROOT + 1);
  }

  /** A file that a table can be opened on: shorter than a page, or page 0 is a sorted leaf. */
  predicate HoldsLeaf(file: seq<byte>) {
    |file| >= PAGE_SIZE ==> IsLeaf(PageAt(file, ROOT))
  }

  predicate IsLeaf(page: seq<byte>) {
    IsPage(page) && NumCells(page) <= MAX_CELLS && Sorted(Cells(page))
  }

  /** The cells a file holds for a table: none in a file shorter than a page. */
  function FileCells(file: seq<byte>): seq<Cell>
    requires HoldsLeaf(file)
  {
    if |file| >= PAGE_SIZE then Cells(PageAt(file, ROOT)) else []
  }

  predicate Usable(p: Pool) {
    Idle(p) && Backed(p) && IsLeaf(Root(p))
  }

  lemma FreshIsIdle(file: seq<byte>)
    ensures Idle(FreshPool(file)) && Root(FreshPool(file)) == PageAt(file, ROOT)
  {
  }

  lemma OpenShowsTheFile(file: seq<byte>)
    requires HoldsLeaf(file)
    ensures Usable(OpenTable(file)) && Cells(Root(OpenTable(file))) == FileCells(file)
  {
    FreshIsIdle(file);
    if |file| / PAGE_SIZE == 0 {
      ChangeRoot(FreshPool(file), RootBytes(PageAt(file, ROOT)));
    }
  }

  /** Slot n - 1 is the last of the first n. */
  lemma FlushNext(p: Pool, n: nat)
    requires Shape(p) && Filled(p) && 0 < n <= POOL_SIZE
    ensures |Flush(p, n).file| >= |Flush(p, n - 1).file|
    ensures p.ids[n - 1] != EMPTY && Flush(p, n - 1).dirty[n - 1] ==> |Flush(p, n).file| >= PAGE_SIZE
    ensures forall i | n <= i < POOL_SIZE :: Flush(p, n).dirty[i] == Flush(p, n - 1).dirty[i]
  {
    FlushStep(p, n);
  }

  lemma {:induction false} FlushKeepsDirty(p: Pool, n: nat, k: nat)
    requires Shape(p) && Filled(p) && n <= k < POOL_SIZE
    ensures Flush(p, n).dirty[k] == p.dirty[k]
  {
    if n > 0 {
      FlushKeepsDirty(p, n - 1, k);
      FlushNext(p, n);
    }
  }

  lemma {:induction false} FlushKeepsSize(p: Pool, m: nat, n: nat)
    requires Shape(p) && Filled(p) && m <= n <= POOL_SIZE
    ensures |Flush(p, n).file| >= |Flush(p, m).file|
    decreases n
  {
    if m < n {
      FlushKeepsSize(p, m, n - 1);
      FlushNext(p, n);
    }
  }

  /** A flush that meets a dirty slot leaves a page at least. */
  lemma FlushGrowsFile(p: Pool, k: nat, n: nat)
    requires Shape(p) && Filled(p) && k < n <= POOL_SIZE && p.ids[k] != EMPTY && p.dirty[k]
    ensures |Flush(p, n).file| >= PAGE_SIZE
  {
    assert |Flush(p, k + 1).file| >= PAGE_SIZE by {
      FlushKeepsDirty(p, k, k);
      FlushNext(p, k + 1);
    }
    FlushKeepsSize(p, k + 1, n);
  }

  /** What close writes is what the next open shows. */
  lemma CloseSavesTheLeaf(p: Pool)
    requires Usable(p)
    ensures |CloseTable(p)| >= PAGE_SIZE && PageAt(CloseTable(p), ROOT) == Root(p)
    ensures HoldsLeaf(CloseTable(p)) && FileCells(CloseTable(p)) == Cells(Root(p))
  {
    FlushKeepsPage(Sys(p, {}), POOL_SIZE, ROOT, ROOT + 1);
    FlushedAreClean(p, POOL_SIZE);
    FlushKeepsSize(p, 0, POOL_SIZE);
    var q := Flush(p, POOL_SIZE);
    assert Logical(q, ROOT) == Root(p);
    if Resident(p, ROOT) && p.dirty[SlotOf(p.ids, ROOT)] {
      FlushGrowsFile(p, SlotOf(p.ids, ROOT), POOL_SIZE);
    }
  }

  function PlaceOf(p: Pool, key: uint32): (k: nat)
    requires Usable(p)
    ensures k <= NumCells(Root(p))
  {
    Search(Cells(Root(p)), key, 0, NumCells(Root(p)))
  }

  lemma PlaceIsKept(p: Pool, key: uint32)
    requires Usable(p)
    ensures Usable(Visited(p)) && Root(Visited(p)) == Root(p) && PlaceOf(p, key) <= NumCells(Root(Visited(p)))
  {
    VisitRoot(p);
  }

  /** Find then insert. */
  function PutRow(p: Pool, c: Cell): Pool
    requires Usable(p) && |c.row| == ROW_SIZE
  {
    PlaceIsKept(p, c.key);
    InsertAtRoot(Visited(p), PlaceOf(p, c.key), c)
  }

  lemma PutRowInserts(p: Pool, c: Cell)
    requires Usable(p) && |c.row| == ROW_SIZE
    ensures Usable(PutRow(p, c)) && Cells(Root(PutRow(p, c))) == FindThenInsert(Cells(Root(p)), c)
  {
    var cells := Cells(Root(p));
    var k := Search(cells, c.key, 0, |cells|);
    VisitRoot(p);
    InsertKeepsSorted(cells, c);
    if |cells| < MAX_CELLS {
      var d := InsertBytes(Root(p), k, c.key, c.row);
      InsertBytesInserts(Root(p), k, c.key, c.row);
      ChangeRoot(Visited(p), d);
    } else {
      VisitRoot(Visited(p));
    }
  }

  // ----- Every run ------------------------------------------------------------

  datatype Event = Put(c: Cell) | Reopen

  predicate RowsFit(events: seq<Event>) {
    forall e <- events :: e.Put? ==> |e.c.row| == ROW_SIZE
  }

  function Puts(events: seq<Event>): seq<Cell> {
    if events == [] then []
    else
      var rest := Puts(events[..|events| - 1]);
      var e := events[|events| - 1];
      if e.Put? then rest + [e.c] else rest
  }

  function RunTable(file: seq<byte>, events: seq<Event>): (p: Pool)
    requires HoldsLeaf(file) && RowsFit(events)
    ensures Usable(p) && Cells(Root(p)) == InsertMany(FileCells(file), Puts(events))
    decreases |events|
  {
    if events == [] then
      OpenShowsTheFile(file);
      OpenTable(file)
    else
      var p := RunTable(file, events[..|events| - 1]);
      match events[|events| - 1]
      case Put(c) =>
        PutRowInserts(p, c);
        PutRow(p, c)
      case Reopen =>
        CloseSavesTheLeaf(p);
        OpenShowsTheFile(CloseTable(p));
        OpenTable(CloseTable(p))
  }

  /** Durable sorted leaf: after any sequence of inserts and reopenings, page 0 is sorted and holds
      what the file held and the inserted rows, in order of arrival up to seven cells, each as often
      as it was put; and closing then leaves a file with exactly these cells. */
  lemma DurableSortedLeaf(file: seq<byte>, events: seq<Event>)
    requires HoldsLeaf(file) && RowsFit(events)
    ensures var p := RunTable(file, events);
      && Sorted(Cells(Root(p)))
      && multiset(Cells(Root(p))) == multiset(FileCells(file)) + multiset(Accepted(|FileCells(file)|, Puts(events)))
      && HoldsLeaf(CloseTable(p)) && FileCells(CloseTable(p)) == Cells(Root(p))
  {
    var p := RunTable(file, events);
    CloseSavesTheLeaf(p);
    InsertManyIsSortedBag(FileCells(file), Puts(events));
  }

  // ----- In place -------------------------------------------------------------

  /** Page 0, pinned, in slot k. */
  method GetRootPage(pool: BufferPool) returns (page: array<byte>, ghost k: nat)
    requires pool.Valid() && Idle(pool.View())
    modifies pool, pool.pager
    ensures pool.Valid() && (pool.View(), Some(k)) == GetRootSlot(old(pool.View()))
    ensures k < POOL_SIZE && page == pool.pages[k] && page.Length == PAGE_SIZE
    ensures page[..] == Root(old(pool.View()))
    ensures forall i | 0 <= i < POOL_SIZE :: pool.pages[i] != null ==> i == k
    ensures page in old(pool.pages) || fresh(page)
  {
    ghost var p := pool.View();
    GetRoot(p);
    ghost var junk;
    page, junk := pool.GetPageBuffer(ROOT);
    k := GetRootSlot(p).1.value;
    assert page[..] == pool.View().data[k];
  }

  /** Writing a page buffer changes what the pool holds in its slot and nothing else. */
  method InitInSlot(pool: BufferPool, page: array<byte>, ghost k: nat)
    requires pool.Valid() && k < POOL_SIZE && page == pool.pages[k] && page.Length == PAGE_SIZE
    modifies page
    ensures pool.Valid() && page == pool.pages[k]
    ensures pool.View() == PutData(old(pool.View()), Some(k), RootBytes(old(page[..])))
  {
    ghost var before := pool.View();
    LeafInit(page);
    page[1] := 1;
    assert Contents(pool.pages) == before.data[k := page[..]];
  }

  method InsertInSlot(pool: BufferPool, page: array<byte>, ghost k: nat, cellNum: nat, key: uint32, row: seq<byte>)
    returns (done: bool)
    requires pool.Valid() && k < POOL_SIZE && page == pool.pages[k] && page.Length == PAGE_SIZE
    requires |row| == ROW_SIZE && cellNum <= NumCells(page[..]) <= MAX_CELLS
    modifies page
    ensures pool.Valid() && page == pool.pages[k]
    ensures done <==> old(NumCells(page[..])) < MAX_CELLS
    ensures pool.View() ==
      if done then PutData(old(pool.View()), Some(k), InsertBytes(old(page[..]), cellNum, key, row)) else old(pool.View())
  {
    ghost var before := pool.View();
    ghost var was := page[..];
    done := LeafInsert(page, cellNum, key, row);
    if done {
      assert Contents(pool.pages) == before.data[k := page[..]];
    } else {
      assert before.data[k] == was;
      assert Contents(pool.pages) == before.data;
    }
  }

  method InitRoot(pool: BufferPool)
    requires pool.Valid() && Idle(pool.View())
    modifies pool, pool.pager, pool.pages
    ensures pool.Valid() && pool.View() == Changed(old(pool.View()), RootBytes(Root(old(pool.View()))))
  {
    var page, k := GetRootPage(pool);
    InitInSlot(pool, page, k);
    pool.MarkPageDirty(ROOT);
    pool.UnpinPage(ROOT);
  }

  class Table {
    const pool: BufferPool

    ghost predicate Valid()
      reads this, pool, pool.pages, pool.pager
    {
      pool.Valid() && Usable(pool.View())
    }

    ghost function View(): Pool
      reads pool, pool.pages, pool.pager
    {
      pool.View()
    }

    constructor (pager: Pager)
      requires HoldsLeaf(pager.file)
      modifies pager
      ensures Valid() && pool.pager == pager && fresh(pool)
      ensures View() == OpenTable(old(pager.file))
    {
      var p := new BufferPool(pager);
      pool := p;
      new;
      ghost var file := pager.file;
      FreshIsIdle(file);
      OpenShowsTheFile(file);
      var numPages := pager.NumPages();
      if numPages == 0 {
        InitRoot(pool);
      }
    }

    /** The position where the key is or belongs. */
    method Find(key: uint32) returns (k: nat)
      requires Valid()
      modifies pool, pool.pager
      ensures pool.Valid() && View() == Visited(old(View()))
      ensures forall i | 0 <= i < POOL_SIZE :: pool.pages[i] != null ==>
        pool.pages[i] in old(pool.pages) || fresh(pool.pages[i])
      ensures k == PlaceOf(old(View()), key)
    {
      var page, slot := GetRootPage(pool);
      k := FindCell(page, key);
      pool.UnpinPage(ROOT);
    }

    /** Insert at a position that was found; a full leaf is left as it is. */
    method Insert(k: nat, c: Cell)
      requires Valid() && |c.row| == ROW_SIZE && k <= NumCells(Root(View()))
      modifies pool, pool.pager, pool.pages
      ensures pool.Valid() && View() == InsertAtRoot(old(View()), k, c)
    {
      var page, slot := GetRootPage(pool);
      var done := InsertInSlot(pool, page, slot, k, c.key, c.row);
      if !done {
        pool.UnpinPage(ROOT);
        return;
      }
      pool.MarkPageDirty(ROOT);
      pool.UnpinPage(ROOT);
    }

    /** What the store does with a row: find its place, insert it there. */
    method Store(c: Cell)
      requires Valid() && |c.row| == ROW_SIZE
      modifies pool, pool.pager, pool.pages
      ensures pool.Valid() && View() == PutRow(old(View()), c)
    {
      PlaceIsKept(View(), c.key);
      var k := Find(c.key);
      Insert(k, c);
    }

    method Close()
      requires Valid()
      modifies pool, pool.pager
      ensures pool.pager.file == CloseTable(old(View()))
      ensures HoldsLeaf(pool.pager.file) && FileCells(pool.pager.file) == old(Cells(Root(View())))
    {
      CloseSavesTheLeaf(View());
      pool.Close();
    }
  }
}
