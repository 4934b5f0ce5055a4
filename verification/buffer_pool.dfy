/** A write-back cache of ten pages over the pager.

    The functions describe each operation on a value `Pool`; the class `BufferPool`
    holds page buffers that callers write to directly. Main result: under the
    callers' discipline (write only pinned pages, mark before unpinning) the cache
    cannot be told from the disk, over every run. */
module BufferPoolModel {
  import opened Bytes
  import opened Options
  import opened PagerModel

  const POOL_SIZE: nat := 10
  const EMPTY: int := 0xFFFF_FFFF
  const FOREVER: int := 0x7FFF_FFFF

  datatype Pool = Pool(
    ids: seq<int>, data: seq<seq<byte>>, dirty: seq<bool>, pins: seq<nat>, used: seq<int>,
    clock: int, file: seq<byte>)

  predicate Shape(p: Pool) {
    |p.ids| == |p.data| == |p.dirty| == |p.pins| == |p.used| == POOL_SIZE
  }

  /** Occupied slots hold whole pages. */
  predicate Filled(p: Pool)
    requires Shape(p)
  {
    forall k | 0 <= k < POOL_SIZE ::
      p.ids[k] != EMPTY ==> 0 <= p.ids[k] < EMPTY && IsPage(p.data[k])
  }

  /** The first slot with this id, or POOL_SIZE. */
  function SlotOf(ids: seq<int>, id: int): (k: nat)
    ensures k <= |ids|
    ensures k < |ids| ==> ids[k] == id
    ensures forall i | 0 <= i < k :: ids[i] != id
  {
    if ids == [] || ids[0] == id then 0 else 1 + SlotOf(ids[1..], id)
  }

  /** Among the first n slots: the unpinned one used least recently before FOREVER. */
  function Lru(p: Pool, n: nat): (k: Option<nat>)
    requires Shape(p) && n <= POOL_SIZE
    ensures k.Some? ==> k.value < n && p.pins[k.value] == 0 && p.used[k.value] < FOREVER
    ensures k.Some? ==> forall i | 0 <= i < n && p.pins[i] == 0 :: p.used[k.value] <= p.used[i]
    ensures k.None? ==> forall i | 0 <= i < n && p.pins[i] == 0 :: p.used[i] >= FOREVER
  {
    if n == 0 then None
    else
      var best := Lru(p, n - 1);
      var limit := if best.Some? then p.used[best.value] else FOREVER;
      if p.pins[n - 1] == 0 && p.used[n - 1] < limit then Some(n - 1) else best
  }

  // ----- Operations -----------------------------------------------------------

  function WriteBack(p: Pool, k: nat): seq<byte>
    requires Shape(p) && Filled(p) && k < POOL_SIZE
  {
    if p.ids[k] != EMPTY && p.dirty[k] then WritePage(p.file, DiskPage(p.ids[k]), p.data[k]) else p.file
  }

  function Emptied(p: Pool, k: nat): Pool
    requires Shape(p) && Filled(p) && k < POOL_SIZE
  {
    p.(file := WriteBack(p, k), ids := p.ids[k := EMPTY], data := p.data[k := []],
       dirty := p.dirty[k := false], pins := p.pins[k := 0])
  }

  function Evict(p: Pool): (Pool, Option<nat>)
    requires Shape(p) && Filled(p)
  {
    match Lru(p, POOL_SIZE)
    case None => (p, None)
    case Some(k) => (Emptied(p, k), Some(k))
  }

  /** What a new buffer holds after reading: the page, or, from page 100 on, what malloc left in it. */
  function Loaded(file: seq<byte>, id: nat, junk: seq<byte>): (d: seq<byte>)
    requires IsPage(junk)
    ensures IsPage(d)
  {
    if id < MAX_PAGES then PageAt(file, id) else junk
  }

  function Load(p: Pool, k: nat, id: nat, junk: seq<byte>): Pool
    requires Shape(p) && k < POOL_SIZE && IsPage(junk)
  {
    p.(ids := p.ids[k := id], data := p.data[k := Loaded(p.file, id, junk)], used := p.used[k := p.clock],
       pins := p.pins[k := 1], dirty := p.dirty[k := false])
  }

  /** The first empty slot, or else one made empty. */
  function Room(p: Pool): (r: (Pool, Option<nat>))
    requires Shape(p) && Filled(p)
    ensures Shape(r.0) && Filled(r.0) && (r.1.Some? ==> r.1.value < POOL_SIZE)
  {
    var free := SlotOf(p.ids, EMPTY);
    if free < POOL_SIZE then (p, Some(free)) else Evict(p)
  }

  function Tick(p: Pool): Pool {
    p.(clock := p.clock + 1)
  }

  function Touch(p: Pool, k: nat): Pool
    requires Shape(p) && k < POOL_SIZE
  {
    p.(used := p.used[k := p.clock], pins := p.pins[k := p.pins[k] + 1])
  }

  function Fetch(p: Pool, id: nat, junk: seq<byte>): (r: (Pool, Option<nat>))
    requires Shape(p) && Filled(p) && id < EMPTY && IsPage(junk)
    ensures Shape(r.0) && Filled(r.0) && (r.1.Some? ==> r.1.value < POOL_SIZE && r.0.ids[r.1.value] == id)
  {
    var (q, room) := Room(p);
    if room.Some? then (Load(q, room.value, id, junk), room) else (q, None)
  }

  function LookUp(p: Pool, id: nat, junk: seq<byte>): (r: (Pool, Option<nat>))
    requires Shape(p) && Filled(p) && id < EMPTY && IsPage(junk)
    ensures Shape(r.0) && Filled(r.0) && (r.1.Some? ==> r.1.value < POOL_SIZE && r.0.ids[r.1.value] == id)
  {
    var k := SlotOf(p.ids, id);
    if k < POOL_SIZE then (Touch(p, k), Some(k)) else Fetch(p, id, junk)
  }

  /** The slot that now holds the page, pinned; none if every slot is pinned. */
  function GetPage(p: Pool, id: nat, junk: seq<byte>): (r: (Pool, Option<nat>))
    requires Shape(p) && Filled(p) && id < EMPTY && IsPage(junk)
    ensures Shape(r.0) && Filled(r.0) && (r.1.Some? ==> r.1.value < POOL_SIZE && r.0.ids[r.1.value] == id)
  {
    LookUp(Tick(p), id, junk)
  }

  function Pin(p: Pool, id: int): Pool
    requires Shape(p)
  {
    var k := SlotOf(p.ids, id);
    if k < POOL_SIZE then p.(pins := p.pins[k := p.pins[k] + 1]) else p
  }

  function Unpin(p: Pool, id: int): Pool
    requires Shape(p)
  {
    var k := SlotOf(p.ids, id);
    if k < POOL_SIZE && p.pins[k] > 0 then p.(pins := p.pins[k := p.pins[k] - 1]) else p
  }

  function MarkDirty(p: Pool, id: int): Pool
    requires Shape(p)
  {
    var k := SlotOf(p.ids, id);
    if k < POOL_SIZE then p.(dirty := p.dirty[k := true]) else p
  }

  function FlushSlot(p: Pool, k: nat): (r: Pool)
    requires Shape(p) && Filled(p) && k < POOL_SIZE
    ensures Shape(r) && Filled(r) && r.ids == p.ids && r.data == p.data && r.pins == p.pins && r.used == p.used
  {
    if p.ids[k] != EMPTY && p.dirty[k]
    then p.(file := WritePage(p.file, DiskPage(p.ids[k]), p.data[k]), dirty := p.dirty[k := false]) else p
  }

  /** Write back the first n slots. */
  function Flush(p: Pool, n: nat): (r: Pool)
    requires Shape(p) && Filled(p) && n <= POOL_SIZE
    ensures Shape(r) && Filled(r) && r.ids == p.ids && r.data == p.data && r.pins == p.pins && r.used == p.used
  {
    if n == 0 then p else FlushSlot(Flush(p, n - 1), n - 1)
  }

  function FreshPool(file: seq<byte>): Pool {
    Pool(seq(POOL_SIZE, _ => EMPTY), seq(POOL_SIZE, _ => []), seq(POOL_SIZE, _ => false),
         seq(POOL_SIZE, _ => 0), seq(POOL_SIZE, _ => 0), 0, file)
  }

  // ----- In place -------------------------------------------------------------

  ghost function Contents(pages: seq<array?<byte>>): seq<seq<byte>>
    reads pages
  {
    seq(|pages|, k requires 0 <= k < |pages| reads pages => if pages[k] == null then [] else pages[k][..])
  }

  class BufferPool {
    const pager: Pager
    var pages: seq<array?<byte>>
    var ids: seq<int>
    var dirty: seq<bool>
    var pins: seq<nat>
    var used: seq<int>
    var clock: int

    /** Occupied slots own one page buffer each. */
    ghost predicate Valid()
      reads this
    {
      && |pages| == |ids| == |dirty| == |pins| == |used| == POOL_SIZE
      && (forall k | 0 <= k < POOL_SIZE :: pages[k] == null <==> ids[k] == EMPTY)
      && (forall k | 0 <= k < POOL_SIZE && pages[k] != null ::
            pages[k].Length == PAGE_SIZE && 0 <= ids[k] < EMPTY)
      && (forall i, j | 0 <= i < j < POOL_SIZE && pages[i] != null :: pages[i] != pages[j])
    }

    ghost function View(): Pool
      reads this, pages, pager
    {
      Pool(ids, Contents(pages), dirty, pins, used, clock, pager.file)
    }

    constructor (pager: Pager)
      ensures Valid() && this.pager == pager && pages == seq(POOL_SIZE, _ => null)
      ensures View() == FreshPool(pager.file)
    {
      this.pager := pager;
      pages := seq(POOL_SIZE, _ => null);
      ids, dirty := seq(POOL_SIZE, _ => EMPTY), seq(POOL_SIZE, _ => false);
      pins, used, clock := seq(POOL_SIZE, _ => 0), seq(POOL_SIZE, _ => 0), 0;
      new;
      assert Contents(pages) == seq(POOL_SIZE, _ => []);
    }

    method FindSlot(id: int) returns (k: nat)
      requires Valid()
      ensures k == SlotOf(ids, id)
    {
      k := 0;
      while k < POOL_SIZE && ids[k] != id
        invariant k <= POOL_SIZE
        invariant SlotOf(ids, id) == k + SlotOf(ids[k..], id)
      {
        assert ids[k..][1..] == ids[k + 1..];
        k := k + 1;
      }
    }

    method FindLru() returns (lru: Option<nat>)
      requires Valid()
      ensures lru == Lru(View(), POOL_SIZE)
    {
      lru := None;
      var minTime := FOREVER;
      for i := 0 to POOL_SIZE
        invariant lru == Lru(View(), i)
        invariant minTime == if lru.Some? then used[lru.value] else FOREVER
      {
        if pins[i] == 0 {
          if used[i] < minTime {
            minTime := used[i];
            lru := Some(i);
          }
        }
      }
    }

    method EvictLru() returns (slot: Option<nat>)
      requires Valid() && SlotOf(ids, EMPTY) == POOL_SIZE
      modifies this, pager
      ensures Valid() && clock == old(clock)
      ensures (View(), slot) == Evict(old(View()))
      ensures slot.Some? ==> slot.value < POOL_SIZE && pages == old(pages)[slot.value := null]
      ensures slot.None? ==> pages == old(pages)
    {
      slot := FindLru();
      if slot.None? {
        return;
      }
      DropPage(slot.value);
    }

    method DropPage(k: nat)
      requires Valid() && k < POOL_SIZE && ids[k] != EMPTY
      modifies this, pager
      ensures Valid() && clock == old(clock) && View() == Emptied(old(View()), k)
      ensures pages == old(pages)[k := null]
    {
      ghost var data := Contents(pages);
      if dirty[k] {
        pager.Write(ids[k], pages[k], PAGE_SIZE);
        assert pages[k][..PAGE_SIZE] == pages[k][..];
      }
      pages := pages[k := null];
      ids := ids[k := EMPTY];
      dirty := dirty[k := false];
      pins := pins[k := 0];
      assert Contents(pages) == data[k := []];
    }

    /** The buffer of the page, pinned, or null when every slot is pinned. `junk` is what a new buffer holds
        before it is read into. */
    method GetPageBuffer(id: nat) returns (page: array?<byte>, ghost junk: seq<byte>)
      requires Valid() && id < EMPTY
      modifies this, pager
      ensures Valid() && IsPage(junk)
      ensures View() == GetPage(old(View()), id, junk).0
      ensures match GetPage(old(View()), id, junk).1
        case None => page == null
        case Some(k) => page == pages[k] && (page in old(pages) || fresh(page))
    {
      CountGet();
      page, junk := LookUpPage(id);
    }

    method CountGet()
      requires Valid()
      modifies this`clock
      ensures Valid() && View() == Tick(old(View()))
    {
      clock := clock + 1;
    }

    method LookUpPage(id: nat) returns (page: array?<byte>, ghost junk: seq<byte>)
      requires Valid() && id < EMPTY
      modifies this, pager
      ensures Valid() && IsPage(junk)
      ensures View() == LookUp(old(View()), id, junk).0
      ensures match LookUp(old(View()), id, junk).1
        case None => page == null
        case Some(k) => page == pages[k] && (page in old(pages) || fresh(page))
    {
      var k := FindSlot(id);
      if k < POOL_SIZE {
        page := TouchPage(k);
        junk := PageAt([], 0);
      } else {
        page, junk := FetchPage(id);
      }
    }

    method TouchPage(k: nat) returns (page: array?<byte>)
      requires Valid() && k < POOL_SIZE
      modifies this`used, this`pins
      ensures Valid() && View() == Touch(old(View()), k) && page == pages[k]
    {
      used := used[k := clock];
      pins := pins[k := pins[k] + 1];
      page := pages[k];
    }

    method FetchPage(id: nat) returns (page: array?<byte>, ghost junk: seq<byte>)
      requires Valid() && id < EMPTY
      modifies this, pager
      ensures Valid() && IsPage(junk)
      ensures View() == Fetch(old(View()), id, junk).0
      ensures match Fetch(old(View()), id, junk).1
        case None => page == null
        case Some(k) => page == pages[k] && fresh(page)
    {
      var slot := MakeRoom();
      if slot.None? {
        return null, PageAt([], 0);
      }
      page, junk := LoadPage(slot.value, id);
    }

    method MakeRoom() returns (slot: Option<nat>)
      requires Valid()
      modifies this, pager
      ensures Valid() && clock == old(clock)
      ensures (View(), slot) == Room(old(View()))
      ensures slot.Some? ==> slot.value < POOL_SIZE && pages[slot.value] == null
      ensures forall p <- pages :: p != null ==> p in old(pages)
    {
      var free := FindSlot(EMPTY);
      if free < POOL_SIZE {
        return Some(free);
      }
      slot := EvictLru();
    }

    method LoadPage(k: nat, id: nat) returns (page: array<byte>, ghost junk: seq<byte>)
      requires Valid() && k < POOL_SIZE && pages[k] == null && id < EMPTY
      modifies this
      ensures Valid() && IsPage(junk) && View() == Load(old(View()), k, id, junk)
      ensures fresh(page) && pages == old(pages)[k := page] && ids[k] == id
    {
      ghost var before := View();
      page := new byte[PAGE_SIZE];
      junk := page[..];
      pager.Read(id, page);
      pages := pages[k := page];
      ids := ids[k := id];
      used := used[k := clock];
      pins := pins[k := 1];
      dirty := dirty[k := false];
      assert Contents(pages) == before.data[k := Loaded(pager.file, id, junk)];
    }

    method PinPage(id: int)
      requires Valid()
      modifies this`pins
      ensures Valid() && View() == Pin(old(View()), id)
    {
      var k := FindSlot(id);
      if k < POOL_SIZE {
        pins := pins[k := pins[k] + 1];
      }
    }

    method UnpinPage(id: int)
      requires Valid()
      modifies this`pins
      ensures Valid() && View() == Unpin(old(View()), id)
    {
      var k := FindSlot(id);
      if k < POOL_SIZE {
        if pins[k] > 0 {
          pins := pins[k := pins[k] - 1];
        }
      }
    }

    method MarkPageDirty(id: int)
      requires Valid()
      modifies this`dirty
      ensures Valid() && View() == MarkDirty(old(View()), id)
    {
      var k := FindSlot(id);
      if k < POOL_SIZE {
        dirty := dirty[k := true];
      }
    }

    method FlushPages()
      requires Valid()
      modifies this`dirty, pager
      ensures Valid() && View() == Flush(old(View()), POOL_SIZE)
    {
      for i := 0 to POOL_SIZE
        invariant Valid() && View() == Flush(old(View()), i)
      {
        FlushPage(i);
      }
    }

    method FlushPage(i: nat)
      requires Valid() && i < POOL_SIZE
      modifies this`dirty, pager
      ensures Valid() && View() == FlushSlot(old(View()), i)
    {
      if ids[i] != EMPTY && dirty[i] {
        pager.Write(ids[i], pages[i], PAGE_SIZE);
        assert pages[i][..PAGE_SIZE] == pages[i][..];
        dirty := dirty[i := false];
      }
    }

    /** Closing writes everything back and lets go of the buffers. */
    method Close()
      requires Valid()
      modifies this, pager
      ensures pager.file == Flush(old(View()), POOL_SIZE).file
    {
      FlushPages();
      pages := seq(POOL_SIZE, _ => null);
    }
  }
}
