/** Pools of fixed-size blocks. The free list of a pool runs through the free blocks
    themselves: the first word of a free block is the address of the next one. A root
    pool that runs out grows by chaining expansion pools behind it.

    `words` is the memory, as far as first words of blocks go; address 0 is no block.
    `granted` stands for what malloc answers. */
module BlockPoolModel {
  import opened Options
  import opened BitMasks

  const LINK_SIZE: nat := 8
  const DEFAULT_BLOCKS: nat := 256
  const LIMIT: nat := 0x8000_0000_0000

  type Words = map<nat, nat>

  datatype Pool = Pool(
    memory: nat, blockSize: nat, blockCount: nat, total: nat, free: nat, used: nat, canExpand: bool,
    allocs: nat, frees: nat, peak: nat)

  /** The root pool, then its expansions. */
  datatype Pools = Pools(chain: seq<Pool>, words: Words)

  function Word(words: Words, a: nat): nat {
    if a in words then words[a] else 0
  }

  function Start(memory: nat, size: nat, k: nat): nat {
    memory + k * size
  }

  /** Where the list begins after the first n blocks were pushed. */
  function Head(memory: nat, size: nat, n: nat): nat {
    if n == 0 then 0 else Start(memory, size, n - 1)
  }

  /** Push the first n blocks, one by one. */
  function Built(words: Words, memory: nat, size: nat, n: nat): Words {
    if n == 0 then words
    else Built(words, memory, size, n - 1)[Start(memory, size, n - 1) := Head(memory, size, n - 1)]
  }

  // ----- Operations ---------------------------------------------------------------

  function BlockSize(asked: nat): nat
    requires asked < WORD
  {
    RoundUp(if asked < LINK_SIZE then LINK_SIZE else asked)
  }

  function NewPool(memory: nat, size: nat, count: nat, root: bool): Pool {
    Pool(memory, size, count, size * count % WORD, Head(memory, size, count), 0, root, 0, 0, 0)
  }

  function Count(asked: nat): nat {
    if asked == 0 then DEFAULT_BLOCKS else asked
  }

  /** The bytes that so many blocks take. */
  function Bytes(asked: nat, count: nat): nat
    requires asked < WORD
  {
    BlockSize(asked) * Count(count)
  }

  function Create(asked: nat, count: nat, granted: Option<nat>, words: Words): Option<Pools>
    requires asked < WORD
  {
    if granted.None? then None
    else Some(Pools([NewPool(granted.value, BlockSize(asked), Count(count), true)],
                    Built(words, granted.value, BlockSize(asked), Count(count))))
  }

  /** The first pool from i on with a free block, or the length of the chain. */
  function FirstFree(chain: seq<Pool>, i: nat): (k: nat)
    requires i <= |chain|
    ensures i <= k <= |chain|
    ensures k < |chain| ==> chain[k].free != 0
    ensures forall j | i <= j < k :: chain[j].free == 0
    decreases |chain| - i
  {
    if i == |chain| || chain[i].free != 0 then i else FirstFree(chain, i + 1)
  }

  function Popped(words: Words, p: Pool): Pool {
    p.(free := Word(words, p.free), used := p.used + 1)
  }

  /** Take the first block of pool i; the root counts every allocation. */
  function Pop(ps: Pools, i: nat): Pools
    requires i < |ps.chain|
  {
    var chain := ps.chain[i := Popped(ps.words, ps.chain[i])];
    var root := chain[0].(allocs := chain[0].allocs + 1);
    ps.(chain := chain[0 := if i == 0 && root.used > root.peak then root.(peak := root.used) else root])
  }

  /** An expansion pool, created like the root, goes right behind it. */
  function Expanded(ps: Pools, memory: nat): Pools
    requires ps.chain != [] && ps.chain[0].blockSize < WORD
  {
    var root := ps.chain[0];
    var size, n := BlockSize(root.blockSize), Count(root.blockCount);
    Pools([root, NewPool(memory, size, n, false)] + ps.chain[1..], Built(ps.words, memory, size, n))
  }

  function Take(ps: Pools): (Pools, Option<nat>)
    requires ps.chain != []
  {
    var i := FirstFree(ps.chain, 0);
    if i < |ps.chain| then (Pop(ps, i), Some(ps.chain[i].free)) else (ps, None)
  }

  function Alloc(ps: Pools, granted: Option<nat>): (Pools, Option<nat>)
    requires ps.chain != [] && ps.chain[0].blockSize < WORD
  {
    if FirstFree(ps.chain, 0) < |ps.chain| then Take(ps)
    else if !ps.chain[0].canExpand || granted.None? then (ps, None)
    else Take(Expanded(ps, granted.value))
  }

  predicate Owns(p: Pool, a: nat) {
    p.memory <= a < p.memory + p.total
  }

  function Owner(chain: seq<Pool>, a: nat, i: nat): (k: nat)
    requires i <= |chain|
    ensures i <= k <= |chain|
    ensures k < |chain| ==> Owns(chain[k], a)
    ensures forall j | i <= j < k :: !Owns(chain[j], a)
    decreases |chain| - i
  {
    if i == |chain| || Owns(chain[i], a) then i else Owner(chain, a, i + 1)
  }

  /** Put a block in front of its owner's list; a foreign pointer is ignored. */
  function Free(ps: Pools, a: nat): Pools {
    var i := Owner(ps.chain, a, 0);
    if a == 0 || i == |ps.chain| then ps
    else
      var p := ps.chain[i];
      Pools(ps.chain[i := p.(free := a, used := if p.used > 0 then p.used - 1 else WORD - 1, frees := p.frees + 1)],
            ps.words[a := p.free])
  }

  function ResetOne(ps: Pools, i: nat): Pools
    requires i < |ps.chain|
  {
    var p := ps.chain[i];
    Pools(ps.chain[i := p.(free := Head(p.memory, p.blockSize, p.blockCount), used := 0)],
          Built(ps.words, p.memory, p.blockSize, p.blockCount))
  }

  // ----- What holds of every pool ---------------------------------------------------

  /** Following the links from `head` runs through exactly these blocks. */
  predicate ListIs(words: Words, head: nat, list: seq<nat>)
    decreases |list|
  {
    if list == [] then head == 0
    else head == list[0] && head != 0 && ListIs(words, Word(words, head), list[1..])
  }

  predicate NoDuplicates(s: seq<nat>) {
    forall i, j | 0 <= i < j < |s| :: s[i] != s[j]
  }

  /** The blocks fill the pool's memory. */
  predicate Sized(p: Pool) {
    && 0 < p.memory && p.memory + p.total <= LIMIT
    && p.blockSize >= ALIGNMENT && p.blockSize % ALIGNMENT == 0 && p.blockCount > 0
    && p.total == p.blockSize * p.blockCount
  }

  predicate IsBlock(p: Pool, a: nat) {
    exists k | 0 <= k < p.blockCount :: a == Start(p.memory, p.blockSize, k)
  }

  /** What callers and the pool hold of its blocks. */
  datatype Book = Book(free: seq<nat>, out: set<nat>)

  /** The free list is a list of the pool's own blocks, each once; every block is either on it or held
      by a caller; the counts agree. */
  predicate Kept(words: Words, p: Pool, b: Book) {
    && Sized(p)
    && ListIs(words, p.free, b.free) && NoDuplicates(b.free)
    && (forall a <- b.free :: a !in b.out && IsBlock(p, a))
    && (forall a <- b.out :: IsBlock(p, a))
    && p.used == |b.out| && |b.free| + p.used == p.blockCount
  }

  predicate PoolsApart(chain: seq<Pool>) {
    forall i, j | 0 <= i < j < |chain| :: Apart(chain[i], chain[j])
  }

  predicate Apart(p: Pool, q: Pool) {
    p.memory + p.total <= q.memory || q.memory + q.total <= p.memory
  }

  predicate Inv(ps: Pools, books: seq<Book>) {
    && |ps.chain| == |books| > 0 && PoolsApart(ps.chain)
    && (forall i | 0 <= i < |books| :: Kept(ps.words, ps.chain[i], books[i]))
  }

  predicate MayGrant(ps: Pools, n: nat, granted: Option<nat>) {
    granted.Some? ==>
      && 0 < granted.value && granted.value + n <= LIMIT
      && forall k | 0 <= k < |ps.chain| ::
           ps.chain[k].memory + ps.chain[k].total <= granted.value || granted.value + n <= ps.chain[k].memory
  }

  // ----- Lists --------------------------------------------------------------------

  lemma {:induction false} ListStays(words: Words, head: nat, list: seq<nat>, a: nat, v: nat)
    requires ListIs(words, head, list) && a !in list
    ensures ListIs(words[a := v], head, list)
    decreases |list|
  {
    if list != [] {
      assert a !in list[1..];
      ListStays(words, Word(words, head), list[1..], a, v);
    }
  }

  lemma OwnsItsBlocks(p: Pool, a: nat)
    requires Sized(p) && IsBlock(p, a)
    ensures Owns(p, a) && a + p.blockSize <= p.memory + p.total
  {
    var k :| 0 <= k < p.blockCount && a == Start(p.memory, p.blockSize, k);
    StartIn(p.memory, p.blockSize, p.blockCount, k);
  }

  lemma StartIn(memory: nat, size: nat, n: nat, k: nat)
    requires k < n
    ensures memory <= Start(memory, size, k) && Start(memory, size, k) + size <= memory + size * n
  {
    LinearIn(k + 1, n, size);
    assert (k + 1) * size == k * size + size;
  }

  lemma LinearIn(k: nat, n: nat, size: nat)
    requires k <= n
    ensures k * size <= n * size
  {
  }

  /** Not in the memory of these blocks. */
  predicate Outside(a: nat, memory: nat, size: nat, n: nat) {
    a < memory || memory + size * n <= a
  }

  lemma {:induction false} BuiltElsewhere(words: Words, memory: nat, size: nat, n: nat, m: nat, a: nat)
    requires n <= m && size > 0 && Outside(a, memory, size, m)
    ensures Word(Built(words, memory, size, n), a) == Word(words, a)
  {
    if n > 0 {
      BuiltElsewhere(words, memory, size, n - 1, m, a);
      StartIn(memory, size, m, n - 1);
    }
  }

  lemma {:induction false} ListStaysBuilt(words: Words, head: nat, list: seq<nat>, memory: nat, size: nat, n: nat)
    requires ListIs(words, head, list) && size > 0
    requires forall a <- list :: Outside(a, memory, size, n)
    ensures ListIs(Built(words, memory, size, n), head, list)
    decreases |list|
  {
    if list != [] {
      BuiltElsewhere(words, memory, size, n, n, list[0]);
      ListStaysBuilt(words, Word(words, head), list[1..], memory, size, n);
    }
  }

  /** The blocks of a fresh list, last block first. */
  function FreshList(memory: nat, size: nat, n: nat): seq<nat> {
    seq(n, i requires 0 <= i < n => Start(memory, size, n - 1 - i))
  }

  lemma StartsDiffer(memory: nat, size: nat, j: nat, k: nat)
    requires j < k && size > 0
    ensures Start(memory, size, j) < Start(memory, size, k)
  {
    LinearIn(j + 1, k, size);
  }

  lemma {:induction false} BuiltIsFreshList(words: Words, memory: nat, size: nat, n: nat)
    requires memory > 0 && size > 0
    ensures ListIs(Built(words, memory, size, n), Head(memory, size, n), FreshList(memory, size, n))
  {
    if n > 0 {
      var before := Built(words, memory, size, n - 1);
      var rest := FreshList(memory, size, n - 1);
      BuiltIsFreshList(words, memory, size, n - 1);
      assert FreshList(memory, size, n)[1..] == rest;
      forall i | 0 <= i < |rest| ensures rest[i] != Start(memory, size, n - 1) {
        StartsDiffer(memory, size, n - 2 - i, n - 1);
      }
      ListStays(before, Head(memory, size, n - 1), rest, Start(memory, size, n - 1), Head(memory, size, n - 1));
    }
  }

  lemma FreshIsKept(words: Words, p: Pool)
    requires Sized(p) && p.free == Head(p.memory, p.blockSize, p.blockCount) && p.used == 0
    ensures Kept(Built(words, p.memory, p.blockSize, p.blockCount), p,
                 Book(FreshList(p.memory, p.blockSize, p.blockCount), {}))
  {
    var list := FreshList(p.memory, p.blockSize, p.blockCount);
    BuiltIsFreshList(words, p.memory, p.blockSize, p.blockCount);
    forall i, j | 0 <= i < j < |list| ensures list[i] != list[j] {
      StartsDiffer(p.memory, p.blockSize, p.blockCount - 1 - j, p.blockCount - 1 - i);
    }
    forall a | a in list ensures IsBlock(p, a) {
      var i :| 0 <= i < |list| && list[i] == a;
      assert a == Start(p.memory, p.blockSize, p.blockCount - 1 - i);
    }
  }

  // ----- What each operation keeps ----------------------------------------------------

  lemma KeptElsewhere(words: Words, p: Pool, b: Book, a: nat, v: nat)
    requires Kept(words, p, b) && a !in b.free
    ensures Kept(words[a := v], p, b)
  {
    ListStays(words, p.free, b.free, a, v);
  }

  lemma BlocksOfOthers(p: Pool, q: Pool, a: nat)
    requires Sized(p) && Sized(q) && Apart(p, q) && IsBlock(p, a)
    ensures !IsBlock(q, a) && !Owns(q, a)
  {
    OwnsItsBlocks(p, a);
    if IsBlock(q, a) {
      OwnsItsBlocks(q, a);
    }
  }

  /** Building a list in fresh or other memory disturbs no pool. */
  lemma KeptWhenBuiltElsewhere(words: Words, p: Pool, b: Book, memory: nat, size: nat, n: nat)
    requires Kept(words, p, b)
    requires size > 0 && (p.memory + p.total <= memory || memory + size * n <= p.memory)
    ensures Kept(Built(words, memory, size, n), p, b)
  {
    forall a | a in b.free ensures Outside(a, memory, size, n) {
      OwnsItsBlocks(p, a);
    }
    ListStaysBuilt(words, p.free, b.free, memory, size, n);
  }

  /** One pool and its book change, the others and their blocks do not. */
  lemma OneChanges(ps: Pools, books: seq<Book>, i: nat, words: Words, p: Pool, b: Book)
    requires Inv(ps, books) && i < |books| && Kept(words, p, b)
    requires p.memory == ps.chain[i].memory && p.total == ps.chain[i].total
    requires forall j | 0 <= j < |books| && j != i :: Kept(words, ps.chain[j], books[j])
    ensures Inv(Pools(ps.chain[i := p], words), books[i := b])
  {
    var chain := ps.chain[i := p];
    forall j, k | 0 <= j < k < |chain| ensures Apart(chain[j], chain[k]) {
      assert Apart(ps.chain[j], ps.chain[k]);
    }
  }

  /** Counters that the invariant does not speak of. */
  lemma RootCountersAreFree(ps: Pools, books: seq<Book>, allocs: nat, peak: nat)
    requires Inv(ps, books)
    ensures Inv(ps.(chain := ps.chain[0 := ps.chain[0].(allocs := allocs, peak := peak)]), books)
  {
    var p := ps.chain[0].(allocs := allocs, peak := peak);
    assert Kept(ps.words, p, books[0]);
    OneChanges(ps, books, 0, ps.words, p, books[0]);
    assert books[0 := books[0]] == books;
  }

  /** The book of pool i after its first free block was handed out. */
  function HandedOut(books: seq<Book>, i: nat): seq<Book>
    requires i < |books| && books[i].free != []
  {
    books[i := Book(books[i].free[1..], books[i].out + {books[i].free[0]})]
  }

  lemma PopKept(words: Words, p: Pool, b: Book)
    requires Kept(words, p, b) && p.free != 0
    ensures b.free != [] && b.free[0] == p.free && b.free[0] !in b.out
    ensures Kept(words, Popped(words, p), Book(b.free[1..], b.out + {b.free[0]}))
  {
    var rest := b.free[1..];
    assert b.free[0] !in rest;
    assert forall a <- rest :: a in b.free;
  }

  lemma PopOneKeepsInv(ps: Pools, books: seq<Book>, i: nat)
    requires Inv(ps, books) && i < |books| && ps.chain[i].free != 0
    ensures books[i].free != [] && books[i].free[0] == ps.chain[i].free && books[i].free[0] !in books[i].out
    ensures Inv(ps.(chain := ps.chain[i := Popped(ps.words, ps.chain[i])]), HandedOut(books, i))
  {
    PopKept(ps.words, ps.chain[i], books[i]);
    OneChanges(ps, books, i, ps.words, Popped(ps.words, ps.chain[i]), HandedOut(books, i)[i]);
  }

  lemma PopKeepsInv(ps: Pools, books: seq<Book>, i: nat)
    requires Inv(ps, books) && i < |books| && ps.chain[i].free != 0
    ensures books[i].free != [] && books[i].free[0] == ps.chain[i].free && books[i].free[0] !in books[i].out
    ensures Inv(Pop(ps, i), HandedOut(books, i))
  {
    PopOneKeepsInv(ps, books, i);
    CountAllocation(ps.(chain := ps.chain[i := Popped(ps.words, ps.chain[i])]), HandedOut(books, i), i == 0);
  }

  lemma CountAllocation(ps: Pools, books: seq<Book>, own: bool)
    requires Inv(ps, books)
    ensures var root := ps.chain[0].(allocs := ps.chain[0].allocs + 1);
      Inv(ps.(chain := ps.chain[0 := if own && root.used > root.peak then root.(peak := root.used) else root]), books)
  {
    var root := ps.chain[0];
    RootCountersAreFree(ps, books, root.allocs + 1, if own && root.used > root.peak then root.used else root.peak);
  }

  /** The owner of a block that belongs to pool i is pool i. */
  lemma OwnerOfBlock(ps: Pools, books: seq<Book>, i: nat, a: nat)
    requires Inv(ps, books) && i < |books| && IsBlock(ps.chain[i], a)
    ensures Owner(ps.chain, a, 0) == i && a != 0
  {
    assert Kept(ps.words, ps.chain[i], books[i]);
    OwnsItsBlocks(ps.chain[i], a);
    forall j | 0 <= j < |books| && j != i ensures !Owns(ps.chain[j], a) {
      assert Kept(ps.words, ps.chain[j], books[j]);
      assert if j < i then Apart(ps.chain[j], ps.chain[i]) else Apart(ps.chain[i], ps.chain[j]);
      BlocksOfOthers(ps.chain[i], ps.chain[j], a);
    }
  }

  lemma PushKept(words: Words, p: Pool, b: Book, a: nat)
    requires Kept(words, p, b) && a in b.out && a != 0
    ensures p.used > 0
    ensures Kept(words[a := p.free], p.(free := a, used := p.used - 1, frees := p.frees + 1),
                 Book([a] + b.free, b.out - {a}))
  {
    ListStays(words, p.free, b.free, a, p.free);
    var list := [a] + b.free;
    assert list[1..] == b.free;
    assert |b.out - {a}| == |b.out| - 1;
  }

  function TakenBack(books: seq<Book>, i: nat, a: nat): seq<Book>
    requires i < |books|
  {
    books[i := Book([a] + books[i].free, books[i].out - {a})]
  }

  /** A block of one pool is on no other pool's list. */
  lemma NotOnOthersList(ps: Pools, books: seq<Book>, i: nat, j: nat, a: nat)
    requires Inv(ps, books) && i < |books| && j < |books| && i != j && IsBlock(ps.chain[i], a)
    ensures a !in books[j].free && a !in books[j].out
  {
    assert Kept(ps.words, ps.chain[i], books[i]) && Kept(ps.words, ps.chain[j], books[j]);
    assert if j < i then Apart(ps.chain[j], ps.chain[i]) else Apart(ps.chain[i], ps.chain[j]);
    BlocksOfOthers(ps.chain[i], ps.chain[j], a);
  }

  lemma FreeKeepsInv(ps: Pools, books: seq<Book>, i: nat, a: nat)
    requires Inv(ps, books) && i < |books| && a in books[i].out
    ensures Inv(Free(ps, a), TakenBack(books, i, a))
  {
    var p := ps.chain[i];
    assert Kept(ps.words, p, books[i]);
    OwnerOfBlock(ps, books, i, a);
    PushKept(ps.words, p, books[i], a);
    FreeOfOwner(ps, i, a);
    OthersKeepTheirs(ps, books, i, a, p.free);
    OneChanges(ps, books, i, ps.words[a := p.free], Pushed(p, a), Book([a] + books[i].free, books[i].out - {a}));
  }

  function Pushed(p: Pool, a: nat): Pool
    requires p.used > 0
  {
    p.(free := a, used := p.used - 1, frees := p.frees + 1)
  }

  lemma FreeOfOwner(ps: Pools, i: nat, a: nat)
    requires i < |ps.chain| && Owner(ps.chain, a, 0) == i && a != 0 && ps.chain[i].used > 0
    ensures Free(ps, a) == Pools(ps.chain[i := Pushed(ps.chain[i], a)], ps.words[a := ps.chain[i].free])
  {
  }

  lemma OthersKeepTheirs(ps: Pools, books: seq<Book>, i: nat, a: nat, v: nat)
    requires Inv(ps, books) && i < |books| && IsBlock(ps.chain[i], a)
    ensures forall j | 0 <= j < |books| && j != i :: Kept(ps.words[a := v], ps.chain[j], books[j])
  {
    forall j | 0 <= j < |books| && j != i ensures Kept(ps.words[a := v], ps.chain[j], books[j]) {
      NotOnOthersList(ps, books, i, j, a);
      KeptElsewhere(ps.words, ps.chain[j], books[j], a, v);
    }
  }

  /** A caller writing to a block it holds disturbs no list. */
  lemma ScribbleKeepsInv(ps: Pools, books: seq<Book>, i: nat, a: nat, v: nat)
    requires Inv(ps, books) && i < |books| && a in books[i].out
    ensures Inv(ps.(words := ps.words[a := v]), books)
  {
    assert Kept(ps.words, ps.chain[i], books[i]);
    KeptElsewhere(ps.words, ps.chain[i], books[i], a, v);
    OthersKeepTheirs(ps, books, i, a, v);
  }

  function FreshBook(p: Pool): Book {
    Book(FreshList(p.memory, p.blockSize, p.blockCount), {})
  }

  lemma ResetOneKeepsInv(ps: Pools, books: seq<Book>, i: nat)
    requires Inv(ps, books) && i < |books|
    ensures Inv(ResetOne(ps, i), books[i := FreshBook(ps.chain[i])])
  {
    var p := ps.chain[i];
    assert Kept(ps.words, p, books[i]);
    var q := p.(free := Head(p.memory, p.blockSize, p.blockCount), used := 0);
    var words := Built(ps.words, p.memory, p.blockSize, p.blockCount);
    FreshIsKept(ps.words, q);
    forall j | 0 <= j < |books| && j != i ensures Kept(words, ps.chain[j], books[j]) {
      assert Kept(ps.words, ps.chain[j], books[j]);
      assert if j < i then Apart(ps.chain[j], p) else Apart(p, ps.chain[j]);
      KeptWhenBuiltElsewhere(ps.words, ps.chain[j], books[j], p.memory, p.blockSize, p.blockCount);
    }
    OneChanges(ps, books, i, words, q, FreshBook(p));
  }

  // ----- Creation and growth -----------------------------------------------------------

  lemma BlockSizeRounds(asked: nat)
    requires asked < WORD
    ensures BlockSize(asked) % ALIGNMENT == 0
    ensures asked <= WORD - 16 ==> asked <= BlockSize(asked) && ALIGNMENT <= BlockSize(asked)
    ensures asked > WORD - 16 ==> BlockSize(asked) == 0
  {
    RoundUpIsEnough(if asked < LINK_SIZE then LINK_SIZE else asked);
  }

  /** A new pool is well formed exactly when rounding the block size and multiplying by the count stay
      within 64 bits: otherwise the blocks do not fit the memory that was asked for. */
  lemma CreateIsSizedIff(asked: nat, count: nat, memory: nat, root: bool)
    requires asked < WORD
    requires 0 < memory && memory + Bytes(asked, count) % WORD <= LIMIT
    ensures Sized(NewPool(memory, BlockSize(asked), Count(count), root))
      <==> asked <= WORD - 16 && Bytes(asked, count) < WORD
  {
    BlockSizeRounds(asked);
    SizedIff(asked, BlockSize(asked), Count(count), Bytes(asked, count), memory, root);
  }

  lemma SizedIff(asked: nat, size: nat, n: nat, product: nat, memory: nat, root: bool)
    requires product == size * n && size % ALIGNMENT == 0 && n > 0
    requires size >= ALIGNMENT <==> asked <= WORD - 16
    requires 0 < memory && memory + product % WORD <= LIMIT
    ensures Sized(NewPool(memory, size, n, root)) <==> asked <= WORD - 16 && product < WORD
  {
    ProductFits(product);
  }

  lemma ProductFits(x: nat)
    ensures x % WORD == x <==> x < WORD
  {
  }

  /** Two blocks of 2^63 bytes are given no memory at all. */
  lemma TwoHugeBlocks(memory: nat)
    ensures BlockSize(WORD / 2) == WORD / 2
    ensures var p := NewPool(memory, BlockSize(WORD / 2), Count(2), true);
      p.total == 0 && p.blockCount == 2 && p.blockSize == WORD / 2 && !Sized(p)
  {
    RoundUpKeepsMultiples(WORD / 2);
  }

  lemma RoundedIsKept(size: nat)
    requires ALIGNMENT <= size <= LIMIT && size % ALIGNMENT == 0
    ensures BlockSize(size) == size
  {
    RoundUpKeepsMultiples(size);
  }

  lemma OneIsInTotal(size: nat, n: nat, total: nat)
    requires total == size * n && n > 0
    ensures size <= total
  {
    LinearIn(1, n, size);
  }

  lemma BlockSizeIsKept(p: Pool)
    requires Sized(p)
    ensures p.blockSize <= LIMIT && BlockSize(p.blockSize) == p.blockSize && Count(p.blockCount) == p.blockCount
  {
    OneIsInTotal(p.blockSize, p.blockCount, p.total);
    RoundedIsKept(p.blockSize);
  }

  function ExpandedBooks(books: seq<Book>, p: Pool): seq<Book>
    requires books != []
  {
    [books[0], FreshBook(p)] + books[1..]
  }

  lemma ExpandKeepsInv(ps: Pools, books: seq<Book>, memory: nat)
    requires Inv(ps, books) && ps.chain[0].blockSize < WORD && MayGrant(ps, ps.chain[0].total, Some(memory))
    ensures |Expanded(ps, memory).chain| == |ps.chain| + 1
    ensures Inv(Expanded(ps, memory), ExpandedBooks(books, Expanded(ps, memory).chain[1]))
  {
    var root := ps.chain[0];
    assert Kept(ps.words, root, books[0]);
    BlockSizeIsKept(root);
    ProductFits(root.blockSize * root.blockCount);
    AddPoolKeepsInv(ps, books, NewPool(memory, root.blockSize, root.blockCount, false));
  }

  lemma AddPoolKeepsInv(ps: Pools, books: seq<Book>, p: Pool)
    requires Inv(ps, books) && Sized(p) && p.free == Head(p.memory, p.blockSize, p.blockCount) && p.used == 0
    requires forall k | 0 <= k < |ps.chain| :: Apart(ps.chain[k], p)
    ensures Inv(Pools([ps.chain[0], p] + ps.chain[1..], Built(ps.words, p.memory, p.blockSize, p.blockCount)),
                ExpandedBooks(books, p))
  {
    var words, chain := Built(ps.words, p.memory, p.blockSize, p.blockCount), [ps.chain[0], p] + ps.chain[1..];
    FreshIsKept(ps.words, p);
    forall k | 0 <= k < |books| ensures Kept(words, ps.chain[k], books[k]) {
      assert Kept(ps.words, ps.chain[k], books[k]);
      assert Apart(ps.chain[k], p);
      KeptWhenBuiltElsewhere(ps.words, ps.chain[k], books[k], p.memory, p.blockSize, p.blockCount);
    }
    forall j | 0 <= j < |chain| ensures Kept(words, chain[j], ExpandedBooks(books, p)[j]) {
      assert j != 1 ==> Kept(words, ps.chain[if j == 0 then 0 else j - 1], books[if j == 0 then 0 else j - 1]);
    }
    ExpandedApart(ps.chain, p);
  }

  lemma ExpandedApart(chain: seq<Pool>, p: Pool)
    requires chain != [] && PoolsApart(chain)
    requires forall k | 0 <= k < |chain| :: Apart(chain[k], p)
    ensures PoolsApart([chain[0], p] + chain[1..])
  {
    var r := [chain[0], p] + chain[1..];
    forall i, j | 0 <= i < j < |r| ensures Apart(r[i], r[j]) {
      if i != 1 && j != 1 {
        assert Apart(chain[if i == 0 then 0 else i - 1], chain[j - 1]);
      } else {
        assert Apart(chain[if i == 1 then j - 1 else 0], p);
      }
    }
  }

  /** After growing, the first free block is the last one of the new pool: allocating again finds it
      at once, so it grows no second time. */
  lemma GrowsAtMostOnce(ps: Pools, books: seq<Book>, memory: nat)
    requires Inv(ps, books) && ps.chain[0].free == 0 && ps.chain[0].blockSize < WORD && memory > 0
    ensures var e := Expanded(ps, memory);
      FirstFree(e.chain, 0) == 1 && Take(e).1 == Some(e.chain[1].free)
  {
    assert Kept(ps.words, ps.chain[0], books[0]);
    BlockSizeIsKept(ps.chain[0]);
    var e := Expanded(ps, memory);
    assert e.chain[0].free == 0 && e.chain[1].free != 0;
    assert FirstFree(e.chain, 1) == 1;
  }
}
