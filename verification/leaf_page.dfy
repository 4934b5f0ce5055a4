/** A sorted leaf laid out in the bytes of one page.

    Byte 0 is the node type, byte 1 the root flag, bytes 2 to 5 the parent, bytes 6
    to 9 the number of cells; then come cells of a 4-byte key and a 512-byte row. */
module LeafPage {
  import opened Bytes
  import opened PagerModel

  const NODE_LEAF: byte := 1
  const HEADER_SIZE: nat := 10
  const ROW_SIZE: nat := 512
  const CELL_SIZE: nat := 516
  const MAX_CELLS: nat := 7

  datatype Cell = Cell(key: uint32, row: seq<byte>)

  function NumCells(page: seq<byte>): uint32
    requires IsPage(page)
  {
    FromLe32(page[6..10])
  }

  function Offset(i: nat): nat {
    HEADER_SIZE + CELL_SIZE * i
  }

  function CellBytes(page: seq<byte>, i: nat): (s: seq<byte>)
    requires IsPage(page) && i < MAX_CELLS
    ensures |s| == CELL_SIZE
  {
    page[Offset(i)..Offset(i) + CELL_SIZE]
  }

  function CellOf(s: seq<byte>): Cell
    requires |s| == CELL_SIZE
  {
    Cell(FromLe32(s[..4]), s[4..])
  }

  /** The cells a page holds. */
  function Cells(page: seq<byte>): (cells: seq<Cell>)
    requires IsPage(page) && NumCells(page) <= MAX_CELLS
    ensures |cells| == NumCells(page)
  {
    seq(NumCells(page), i requires 0 <= i < NumCells(page) => CellOf(CellBytes(page, i)))
  }

  // ----- Operations on cells --------------------------------------------------

  predicate Sorted(cells: seq<Cell>) {
    forall i, j | 0 <= i < j < |cells| :: cells[i].key <= cells[j].key
  }

  /** The position found by halving [lo, hi), stopping early at an equal key. */
  function Search(cells: seq<Cell>, key: uint32, lo: nat, hi: nat): (k: nat)
    requires lo <= hi <= |cells|
    ensures lo <= k <= hi
    decreases hi - lo
  {
    if lo == hi then lo
    else
      var mid := (lo + hi) / 2;
      if key == cells[mid].key then mid
      else if key < cells[mid].key then Search(cells, key, lo, mid)
      else Search(cells, key, mid + 1, hi)
  }

  lemma {:induction false} SearchSplits(cells: seq<Cell>, key: uint32, lo: nat, hi: nat)
    requires lo <= hi <= |cells| && Sorted(cells)
    requires forall i | 0 <= i < lo :: cells[i].key <= key
    requires forall i | hi <= i < |cells| :: key <= cells[i].key
    ensures forall i | 0 <= i < Search(cells, key, lo, hi) :: cells[i].key <= key
    ensures forall i | Search(cells, key, lo, hi) <= i < |cells| :: key <= cells[i].key
    decreases hi - lo
  {
    if lo < hi {
      var mid := (lo + hi) / 2;
      if key < cells[mid].key {
        SearchSplits(cells, key, lo, mid);
      } else if key > cells[mid].key {
        SearchSplits(cells, key, mid + 1, hi);
      }
    }
  }

  /** If a cell of [lo, hi) has the key, the found place has it too. */
  lemma {:induction false} SearchFindsEqual(cells: seq<Cell>, key: uint32, lo: nat, hi: nat, i: nat)
    requires lo <= i < hi <= |cells| && Sorted(cells) && cells[i].key == key
    ensures Search(cells, key, lo, hi) < hi && cells[Search(cells, key, lo, hi)].key == key
    decreases hi - lo
  {
    var mid := (lo + hi) / 2;
    if key < cells[mid].key {
      SearchFindsEqual(cells, key, lo, mid, i);
    } else if key > cells[mid].key {
      SearchFindsEqual(cells, key, mid + 1, hi, i);
    }
  }

  function InsertAt(cells: seq<Cell>, k: nat, c: Cell): (r: seq<Cell>)
    requires k <= |cells|
    ensures |r| == |cells| + 1
  {
    cells[..k] + [c] + cells[k..]
  }

  /** Find, then insert; a full leaf refuses. */
  function FindThenInsert(cells: seq<Cell>, c: Cell): seq<Cell> {
    if |cells| >= MAX_CELLS then cells else InsertAt(cells, Search(cells, c.key, 0, |cells|), c)
  }

  function InsertMany(cells: seq<Cell>, items: seq<Cell>): seq<Cell> {
    if items == [] then cells else FindThenInsert(InsertMany(cells, items[..|items| - 1]), items[|items| - 1])
  }

  lemma InsertKeepsSorted(cells: seq<Cell>, c: Cell)
    requires Sorted(cells)
    ensures Sorted(FindThenInsert(cells, c))
    ensures multiset(FindThenInsert(cells, c)) ==
      if |cells| >= MAX_CELLS then multiset(cells) else multiset(cells) + multiset{c}
  {
    SearchSplits(cells, c.key, 0, |cells|);
    var k := Search(cells, c.key, 0, |cells|);
    InsertAtSplit(cells, k, c);
    assert cells == cells[..k] + cells[k..];
  }

  lemma InsertAtSplit(cells: seq<Cell>, k: nat, c: Cell)
    requires k <= |cells| && Sorted(cells)
    requires forall i | 0 <= i < k :: cells[i].key <= c.key
    requires forall i | k <= i < |cells| :: c.key <= cells[i].key
    ensures Sorted(InsertAt(cells, k, c))
  {
    var r := InsertAt(cells, k, c);
    assert forall i | 0 <= i < |r| :: r[i] == if i < k then cells[i] else if i == k then c else cells[i - 1];
  }

  function Min(a: nat, b: nat): nat {
    if a < b then a else b
  }

  /** What fits of a sequence of insertions. */
  function Accepted(held: nat, items: seq<Cell>): seq<Cell> {
    if held >= MAX_CELLS then [] else if |items| <= MAX_CELLS - held then items else items[..MAX_CELLS - held]
  }

  lemma AcceptedGrows(held: nat, items: seq<Cell>)
    requires items != []
    ensures Accepted(held, items) ==
      Accepted(held, items[..|items| - 1]) + (if held + |items| <= MAX_CELLS then [items[|items| - 1]] else [])
    ensures held <= MAX_CELLS ==> held + |Accepted(held, items)| == Min(held + |items|, MAX_CELLS)
  {
  }

  /** Any sequence of insertions leaves the leaf sorted, holding what it held and the items up to
      its capacity, each as often as it was inserted. */
  lemma {:induction false} InsertManyIsSortedBag(cells: seq<Cell>, items: seq<Cell>)
    requires Sorted(cells) && |cells| <= MAX_CELLS
    ensures Sorted(InsertMany(cells, items))
    ensures multiset(InsertMany(cells, items)) == multiset(cells) + multiset(Accepted(|cells|, items))
  {
    if items != [] {
      var n := |items| - 1;
      InsertManyIsSortedBag(cells, items[..n]);
      AcceptedGrows(|cells|, items);
      assert |Accepted(|cells|, items[..n])| == Min(n, MAX_CELLS - |cells|);
      BagSize(InsertMany(cells, items[..n]), cells, Accepted(|cells|, items[..n]));
      InsertKeepsSorted(InsertMany(cells, items[..n]), items[n]);
    }
  }

  lemma BagSize(a: seq<Cell>, b: seq<Cell>, c: seq<Cell>)
    requires multiset(a) == multiset(b) + multiset(c)
    ensures |a| == |b| + |c|
  {
    assert |multiset(a)| == |a| && |multiset(b)| == |b| && |multiset(c)| == |c|;
  }

  // ----- The bytes ------------------------------------------------------------

  function InsertByte(page: seq<byte>, k: nat, key: uint32, row: seq<byte>, x: nat): byte
    requires IsPage(page) && k <= NumCells(page) < MAX_CELLS && |row| == ROW_SIZE && x < PAGE_SIZE
  {
    var n := NumCells(page);
    if 6 <= x < 10 then Le32(n + 1)[x - 6]
    else if x < Offset(k) || Offset(n + 1) <= x then page[x]
    else if x < Offset(k) + 4 then Le32(key)[x - Offset(k)]
    else if x < Offset(k + 1) then row[x - Offset(k) - 4]
    else page[x - CELL_SIZE]
  }

  /** The page after an insert at k: count raised, cells from k on one place up, the new cell at k. */
  function InsertBytes(page: seq<byte>, k: nat, key: uint32, row: seq<byte>): (after: seq<byte>)
    requires IsPage(page) && k <= NumCells(page) < MAX_CELLS && |row| == ROW_SIZE
    ensures IsPage(after)
  {
    seq(PAGE_SIZE, x requires 0 <= x < PAGE_SIZE => InsertByte(page, k, key, row, x))
  }

  /** What those bytes mean: the cell is inserted, every other cell is kept. */
  lemma InsertBytesInserts(page: seq<byte>, k: nat, key: uint32, row: seq<byte>)
    requires IsPage(page) && k <= NumCells(page) < MAX_CELLS && |row| == ROW_SIZE
    ensures var after := InsertBytes(page, k, key, row);
      NumCells(after) == NumCells(page) + 1 && Cells(after) == InsertAt(Cells(page), k, Cell(key, row))
  {
    var after := InsertBytes(page, k, key, row);
    assert after[6..10] == Le32(NumCells(page) + 1);
    Le32RoundTrip(NumCells(page) + 1);
    forall i | 0 <= i < NumCells(after) ensures Cells(after)[i] == InsertAt(Cells(page), k, Cell(key, row))[i] {
      InsertBytesAt(page, k, key, row, i);
    }
  }

  lemma InsertBytesAt(page: seq<byte>, k: nat, key: uint32, row: seq<byte>, i: nat)
    requires IsPage(page) && k <= NumCells(page) < MAX_CELLS && |row| == ROW_SIZE && i <= NumCells(page)
    ensures CellOf(CellBytes(InsertBytes(page, k, key, row), i)) ==
      if i < k then CellOf(CellBytes(page, i)) else if i == k then Cell(key, row) else CellOf(CellBytes(page, i - 1))
  {
    var after := InsertBytes(page, k, key, row);
    var s := CellBytes(after, i);
    assert forall j | 0 <= j < CELL_SIZE :: s[j] == after[Offset(i) + j] == InsertByte(page, k, key, row, Offset(i) + j);
    if i < k {
      assert s == CellBytes(page, i);
    } else if i == k {
      Le32RoundTrip(key);
      assert s[..4] == Le32(key);
      assert s[4..] == row;
    } else {
      assert s == CellBytes(page, i - 1);
    }
  }

  /** A fresh leaf: its type, not a root, no cells. The parent bytes are left alone. */
  function InitBytes(page: seq<byte>): (after: seq<byte>)
    requires IsPage(page)
    ensures IsPage(after)
  {
    page[0 := NODE_LEAF][1 := 0][6 := 0][7 := 0][8 := 0][9 := 0]
  }

  function RootBytes(page: seq<byte>): (after: seq<byte>)
    requires IsPage(page)
    ensures IsPage(after) && NumCells(after) == 0
  {
    InitBytes(page)[1 := 1]
  }

  /** Cell `to` becomes a copy of the cell before it. */
  method CopyUp(node: array<byte>, to: nat)
    requires node.Length == PAGE_SIZE && 1 <= to < MAX_CELLS
    modifies node
    ensures forall x | 0 <= x < PAGE_SIZE ::
      node[x] == if Offset(to) <= x < Offset(to + 1) then old(node[x - CELL_SIZE]) else old(node[x])
  {
    forall x | Offset(to) <= x < Offset(to + 1) {
      node[x] := node[x - CELL_SIZE];
    }
  }

  /** Cells from k on move up one place, the last one first. */
  method ShiftCells(node: array<byte>, n: nat, k: nat)
    requires node.Length == PAGE_SIZE && k <= n < MAX_CELLS
    modifies node
    ensures forall x | 0 <= x < PAGE_SIZE ::
      node[x] == if Offset(k + 1) <= x < Offset(n + 1) then old(node[x - CELL_SIZE]) else old(node[x])
  {
    var i := n;
    while i > k
      invariant k <= i <= n
      invariant forall x | 0 <= x < PAGE_SIZE ::
        node[x] == if Offset(i + 1) <= x < Offset(n + 1) then old(node[x - CELL_SIZE]) else old(node[x])
    {
      CopyUp(node, i);
      i := i - 1;
    }
  }

  method PutLe32(node: array<byte>, at: nat, x: uint32)
    requires at + 4 <= node.Length
    modifies node
    ensures forall y | 0 <= y < node.Length :: node[y] == if at <= y < at + 4 then Le32(x)[y - at] else old(node[y])
  {
    var s := Le32(x);
    node[at], node[at + 1], node[at + 2], node[at + 3] := s[0], s[1], s[2], s[3];
  }

  /** Insert in the bytes: make room, raise the count, write the key and the row. A full leaf is left
      as it is. */
  method LeafInsert(node: array<byte>, k: nat, key: uint32, row: seq<byte>) returns (done: bool)
    requires node.Length == PAGE_SIZE && |row| == ROW_SIZE
    requires k <= NumCells(node[..]) <= MAX_CELLS
    modifies node
    ensures done <==> old(NumCells(node[..])) < MAX_CELLS
    ensures node[..] == if done then InsertBytes(old(node[..]), k, key, row) else old(node[..])
  {
    var n := NumCells(node[..]);
    if n >= MAX_CELLS {
      return false;
    }
    if k < n {
      ShiftCells(node, n, k);
    }
    PutLe32(node, 6, n + 1);
    PutLe32(node, Offset(k), key);
    forall x | 0 <= x < ROW_SIZE {
      node[Offset(k) + 4 + x] := row[x];
    }
    assert forall x | 0 <= x < PAGE_SIZE :: node[x] == InsertByte(old(node[..]), k, key, row, x);
    return true;
  }

  method LeafInit(node: array<byte>)
    requires node.Length == PAGE_SIZE
    modifies node
    ensures node[..] == InitBytes(old(node[..]))
  {
    node[0] := NODE_LEAF;
    node[1] := 0;
    PutLe32(node, 6, 0);
  }

  /** The key read straight from the bytes. */
  function KeyAt(page: seq<byte>, i: nat): uint32
    requires IsPage(page) && i < MAX_CELLS
  {
    FromLe32(page[Offset(i)..Offset(i) + 4])
  }

  lemma KeyAtIsKeyOfCell(page: seq<byte>, i: nat)
    requires IsPage(page) && i < NumCells(page) <= MAX_CELLS
    ensures KeyAt(page, i) == Cells(page)[i].key
  {
    assert CellBytes(page, i)[..4] == page[Offset(i)..Offset(i) + 4];
  }

  /** The keys in the bytes are those of the cells. */
  predicate HasKeys(page: seq<byte>, cells: seq<Cell>) {
    && IsPage(page) && |cells| <= MAX_CELLS
    && forall i {:trigger KeyAt(page, i)} | 0 <= i < |cells| :: KeyAt(page, i) == cells[i].key
  }

  method ReadKey(node: array<byte>, i: nat, ghost cells: seq<Cell>) returns (key: uint32)
    requires HasKeys(node[..], cells) && i < |cells|
    ensures key == cells[i].key
  {
    key := KeyAt(node[..], i);
  }

  /** The binary search of the program, on the bytes. */
  method FindCell(node: array<byte>, key: uint32) returns (k: nat)
    requires node.Length == PAGE_SIZE && NumCells(node[..]) <= MAX_CELLS
    ensures k == Search(Cells(node[..]), key, 0, NumCells(node[..]))
  {
    var n := NumCells(node[..]);
    forall i | 0 <= i < n ensures KeyAt(node[..], i) == Cells(node[..])[i].key {
      KeyAtIsKeyOfCell(node[..], i);
    }
    k := SearchBytes(node, key, n, Cells(node[..]));
  }

  method SearchBytes(node: array<byte>, key: uint32, n: nat, ghost cells: seq<Cell>) returns (k: nat)
    requires HasKeys(node[..], cells) && n == |cells|
    ensures k == Search(cells, key, 0, n)
  {
    var lo, hi := 0, n;
    while hi != lo
      invariant 0 <= lo <= hi <= n
      invariant Search(cells, key, lo, hi) == Search(cells, key, 0, n)
      decreases hi - lo
    {
      var index := (lo + hi) / 2;
      var keyAtIndex := ReadKey(node, index, cells);
      if key == keyAtIndex {
        return index;
      }
      if key < keyAtIndex {
        hi := index;
      } else {
        lo := index + 1;
      }
    }
    return lo;
  }
}
