/** Pools over every run: free lists, holders and expansions,
    and the program's methods in place. */
module BlockPoolSafety {
  import opened Options
  import opened BitMasks
  import opened BlockPoolModel

  // ----- Reset ----------------------------------------------------------------------

  /** Reset pool i, then each expansion behind it, which in turn resets those behind itself. */
  function ResetFrom(ps: Pools, i: nat): (r: Pools)
    requires i < |ps.chain|
    ensures |r.chain| == |ps.chain|
    decreases |ps.chain| - i, 0
  {
    ResetRest(ResetOne(ps, i), i + 1)
  }

  function ResetRest(ps: Pools, j: nat): (r: Pools)
    requires j <= |ps.chain|
    ensures |r.chain| == |ps.chain|
    decreases |ps.chain| - j, 1
  {
    if j == |ps.chain| then ps else ResetRest(ResetFrom(ps, j), j + 1)
  }

  function ResetBooks(chain: seq<Pool>, books: seq<Book>, i: nat): (r: seq<Book>)
    requires |chain| == |books|
    ensures |r| == |books|
  {
    seq(|books|, k requires 0 <= k < |books| => if k < i then books[k] else FreshBook(chain[k]))
  }

  /** Only where the lists begin and how many blocks are out. */
  predicate SameMemory(chain: seq<Pool>, chain': seq<Pool>) {
    && |chain| == |chain'|
    && forall k | 0 <= k < |chain| ::
         chain'[k] == chain[k].(free := chain'[k].free, used := chain'[k].used)
  }

  /** The repeated resetting does no harm: afterwards every pool from i on has all its blocks free. */
  lemma {:induction false} ResetFromKeepsInv(ps: Pools, books: seq<Book>, i: nat)
    requires Inv(ps, books) && i < |books|
    ensures SameMemory(ps.chain, ResetFrom(ps, i).chain)
    ensures Inv(ResetFrom(ps, i), ResetBooks(ps.chain, books, i))
    decreases |ps.chain| - i, 0
  {
    var one := ResetOne(ps, i);
    var firstBooks := books[i := FreshBook(ps.chain[i])];
    ResetOneKeepsInv(ps, books, i);
    ResetRestKeepsInv(one, firstBooks, i + 1);
    assert ResetBooks(one.chain, firstBooks, i + 1) == ResetBooks(ps.chain, books, i);
  }

  lemma {:induction false} ResetRestKeepsInv(ps: Pools, books: seq<Book>, j: nat)
    requires Inv(ps, books) && j <= |books|
    ensures SameMemory(ps.chain, ResetRest(ps, j).chain)
    ensures Inv(ResetRest(ps, j), ResetBooks(ps.chain, books, j))
    decreases |ps.chain| - j, 1
  {
    if j == |ps.chain| {
      assert ResetBooks(ps.chain, books, j) == books;
    } else {
      ResetFromKeepsInv(ps, books, j);
      var next, nextBooks := ResetFrom(ps, j), ResetBooks(ps.chain, books, j);
      ResetRestKeepsInv(next, nextBooks, j + 1);
      assert ResetBooks(next.chain, nextBooks, j + 1) == nextBooks;
    }
  }

  // ----- Runs -----------------------------------------------------------------------

  datatype Sys = Sys(pools: Pools, books: seq<Book>)

  /** `Scribble`: a caller writes over the first word of a block it holds. */
  datatype Step =
    | AllocStep(granted: Option<nat>)
    | FreeStep(i: nat, a: nat)
    | FreeForeign(a: nat)
    | Scribble(i: nat, a: nat, v: nat)
    | ResetStep

  /** Callers free and write only blocks that they hold; freeing a pointer that no pool owns is
      allowed as well. */
  predicate Enabled(s: Sys, step: Step) {
    && s.pools.chain != [] && s.pools.chain[0].blockSize < WORD && |s.books| == |s.pools.chain|
    && match step
       case AllocStep(granted) => MayGrant(s.pools, s.pools.chain[0].total, granted)
       case FreeStep(i, a) => i < |s.books| && a in s.books[i].out
       case FreeForeign(a) => a == 0 || Owner(s.pools.chain, a, 0) == |s.pools.chain|
       case Scribble(i, a, v) => i < |s.books| && a in s.books[i].out
       case ResetStep => true
  }

  /** The books after an allocation: the block taken leaves its pool's list. */
  function AllocBooks(ps: Pools, books: seq<Book>, granted: Option<nat>): seq<Book>
    requires ps.chain != [] && ps.chain[0].blockSize < WORD && |books| == |ps.chain|
  {
    var i := FirstFree(ps.chain, 0);
    if i < |ps.chain| then Handed(books, i)
    else if !ps.chain[0].canExpand || granted.None? then books
    else
      var e := Expanded(ps, granted.value);
      var b := ExpandedBooks(books, e.chain[1]);
      var k := FirstFree(e.chain, 0);
      if k < |b| then Handed(b, k) else b
  }

  function Handed(books: seq<Book>, i: nat): seq<Book>
    requires i < |books|
  {
    if books[i].free == [] then books else HandedOut(books, i)
  }

  function Do(s: Sys, step: Step): Sys
    requires Enabled(s, step)
  {
    match step
    case AllocStep(granted) => Sys(Alloc(s.pools, granted).0, AllocBooks(s.pools, s.books, granted))
    case FreeStep(i, a) => Sys(Free(s.pools, a), TakenBack(s.books, i, a))
    case FreeForeign(a) => Sys(Free(s.pools, a), s.books)
    case Scribble(i, a, v) => s.(pools := s.pools.(words := s.pools.words[a := v]))
    case ResetStep => Sys(ResetFrom(s.pools, 0), ResetBooks(s.pools.chain, s.books, 0))
  }

  predicate IsRun(s: Sys, steps: seq<Step>)
    decreases |steps|
  {
    steps == [] || (Enabled(s, steps[0]) && IsRun(Do(s, steps[0]), steps[1..]))
  }

  function Exec(s: Sys, steps: seq<Step>): Sys
    requires IsRun(s, steps)
    decreases |steps|
  {
    if steps == [] then s else Exec(Do(s, steps[0]), steps[1..])
  }

  /** An allocation keeps the pools in order. What it answers was free or is new, was held by nobody,
      is held from now on, and is a block of its pool. */
  lemma AllocGivesAFreeBlock(ps: Pools, books: seq<Book>, granted: Option<nat>)
    requires Inv(ps, books) && ps.chain[0].blockSize < WORD && MayGrant(ps, ps.chain[0].total, granted)
    ensures var (ps', p) := Alloc(ps, granted);
      && Inv(ps', AllocBooks(ps, books, granted))
      && (p.None? <==> FirstFree(ps.chain, 0) == |ps.chain| && (!ps.chain[0].canExpand || granted.None?))
      && (p.None? ==> ps' == ps)
      && (p.Some? ==>
            && (forall b <- books :: p.value !in b.out)
            && exists i :: 0 <= i < |ps'.chain| && IsBlock(ps'.chain[i], p.value)
                           && p.value in AllocBooks(ps, books, granted)[i].out)
  {
    var i := FirstFree(ps.chain, 0);
    if i < |ps.chain| {
      TakeGivesAFreeBlock(ps, books, i);
    } else if ps.chain[0].canExpand && granted.Some? {
      ExpandKeepsInv(ps, books, granted.value);
      GrowsAtMostOnce(ps, books, granted.value);
      var e := Expanded(ps, granted.value);
      var eBooks := ExpandedBooks(books, e.chain[1]);
      TakeGivesAFreeBlock(e, eBooks, 1);
      assert forall b <- books :: b in eBooks;
    }
  }

  lemma TakeGivesAFreeBlock(ps: Pools, books: seq<Book>, i: nat)
    requires Inv(ps, books) && i == FirstFree(ps.chain, 0) < |ps.chain|
    ensures var (ps', p) := Take(ps);
      && p.Some? && books[i].free != [] && Inv(ps', HandedOut(books, i))
      && (forall b <- books :: p.value !in b.out)
      && |ps'.chain| == |ps.chain| && IsBlock(ps'.chain[i], p.value) && p.value in HandedOut(books, i)[i].out
  {
    PopKeepsInv(ps, books, i);
    var a := ps.chain[i].free;
    assert Kept(ps.words, ps.chain[i], books[i]);
    assert a in books[i].free;
    assert Kept(Pop(ps, i).words, Pop(ps, i).chain[i], HandedOut(books, i)[i]);
    forall j | 0 <= j < |books| ensures a !in books[j].out {
      if j != i {
        NotOnOthersList(ps, books, i, j, a);
      }
    }
  }

  lemma StepKeepsInv(s: Sys, step: Step)
    requires Inv(s.pools, s.books) && Enabled(s, step)
    ensures Inv(Do(s, step).pools, Do(s, step).books)
  {
    match step
    case AllocStep(granted) => AllocGivesAFreeBlock(s.pools, s.books, granted);
    case FreeStep(i, a) => FreeKeepsInv(s.pools, s.books, i, a);
    case FreeForeign(a) =>
    case Scribble(i, a, v) => ScribbleKeepsInv(s.pools, s.books, i, a, v);
    case ResetStep => ResetFromKeepsInv(s.pools, s.books, 0);
  }

  lemma {:induction false} RunKeepsInv(s: Sys, steps: seq<Step>)
    requires Inv(s.pools, s.books) && IsRun(s, steps)
    ensures Inv(Exec(s, steps).pools, Exec(s, steps).books)
    decreases |steps|
  {
    if steps != [] {
      StepKeepsInv(s, steps[0]);
      RunKeepsInv(Do(s, steps[0]), steps[1..]);
    }
  }

  // ----- Main results -----------------------------------------------------------------

  predicate Created(ps: Pools, asked: nat, count: nat, addr: nat, words: Words) {
    && asked <= WORD - 16 && BlockSize(asked) * Count(count) < WORD
    && 0 < addr && addr + BlockSize(asked) * Count(count) <= LIMIT
    && Create(asked, count, Some(addr), words) == Some(ps)
  }

  lemma CreatedIsKept(ps: Pools, asked: nat, count: nat, addr: nat, words: Words)
    requires asked < WORD && Created(ps, asked, count, addr, words)
    ensures Inv(ps, [FreshBook(ps.chain[0])])
  {
    BlockSizeRounds(asked);
    NewPoolIsKept(words, addr, BlockSize(asked), Count(count));
  }

  lemma NewPoolIsKept(words: Words, addr: nat, size: nat, n: nat)
    requires size >= ALIGNMENT && size % ALIGNMENT == 0 && n > 0 && size * n < WORD
    requires 0 < addr && addr + size * n <= LIMIT
    ensures Inv(Pools([NewPool(addr, size, n, true)], Built(words, addr, size, n)),
                [FreshBook(NewPool(addr, size, n, true))])
  {
    ProductFits(size * n);
    FreshIsKept(words, NewPool(addr, size, n, true));
  }

  predicate RangesApart(a: nat, sizeA: nat, b: nat, sizeB: nat) {
    a + sizeA <= b || b + sizeB <= a
  }

  lemma BlocksOfOnePool(p: Pool, a: nat, b: nat)
    requires Sized(p) && IsBlock(p, a) && IsBlock(p, b) && a != b
    ensures RangesApart(a, p.blockSize, b, p.blockSize)
  {
    var k :| 0 <= k < p.blockCount && a == Start(p.memory, p.blockSize, k);
    var m :| 0 <= m < p.blockCount && b == Start(p.memory, p.blockSize, m);
    if k < m {
      StartIn(p.memory, p.blockSize, m, k);
    } else {
      StartIn(p.memory, p.blockSize, k, m);
    }
  }

  /** Two blocks that are held share no byte. */
  lemma HeldShareNoByte(ps: Pools, books: seq<Book>, i: nat, j: nat, a: nat, b: nat)
    requires Inv(ps, books) && i < |books| && j < |books| && a in books[i].out && b in books[j].out
    requires i != j || a != b
    ensures RangesApart(a, ps.chain[i].blockSize, b, ps.chain[j].blockSize)
  {
    assert Kept(ps.words, ps.chain[i], books[i]) && Kept(ps.words, ps.chain[j], books[j]);
    if i == j {
      BlocksOfOnePool(ps.chain[i], a, b);
    } else {
      assert if i < j then Apart(ps.chain[i], ps.chain[j]) else Apart(ps.chain[j], ps.chain[i]);
      OwnsItsBlocks(ps.chain[i], a);
      OwnsItsBlocks(ps.chain[j], b);
    }
  }

  lemma HoldingsAreApart(ps: Pools, books: seq<Book>)
    requires Inv(ps, books)
    ensures forall i, j | 0 <= i < j < |books| :: books[i].out !! books[j].out
    ensures forall i, j, a, b | 0 <= i < |books| && 0 <= j < |books| && a in books[i].out && b in books[j].out
      && (i != j || a != b) :: RangesApart(a, ps.chain[i].blockSize, b, ps.chain[j].blockSize)
  {
    forall i, j, a, b | 0 <= i < |books| && 0 <= j < |books| && a in books[i].out && b in books[j].out
      && (i != j || a != b)
      ensures RangesApart(a, ps.chain[i].blockSize, b, ps.chain[j].blockSize)
    {
      HeldShareNoByte(ps, books, i, j, a, b);
    }
    forall i, j | 0 <= i < j < |books| ensures books[i].out !! books[j].out {
      assert Kept(ps.words, ps.chain[i], books[i]);
    }
  }

  /** In every run of allocations, frees of held blocks, writes to held blocks and resets: the free
      list of each pool runs through blocks of its own, each once; free and used make up the count;
      no block is both free and held, and no two held blocks share a byte. */
  lemma PoolsStaySound(ps: Pools, asked: nat, count: nat, addr: nat, words: Words, steps: seq<Step>)
    requires asked < WORD && Created(ps, asked, count, addr, words) && IsRun(Sys(ps, [FreshBook(ps.chain[0])]), steps)
    ensures var s := Exec(Sys(ps, [FreshBook(ps.chain[0])]), steps);
      && |s.books| == |s.pools.chain|
      && (forall i | 0 <= i < |s.books| :: Kept(s.pools.words, s.pools.chain[i], s.books[i]))
      && (forall i, j | 0 <= i < j < |s.books| :: s.books[i].out !! s.books[j].out)
      && (forall i, j, a, b | 0 <= i < |s.books| && 0 <= j < |s.books| && a in s.books[i].out && b in s.books[j].out
            && (i != j || a != b) :: RangesApart(a, s.pools.chain[i].blockSize, b, s.pools.chain[j].blockSize))
  {
    CreatedIsKept(ps, asked, count, addr, words);
    RunKeepsInv(Sys(ps, [FreshBook(ps.chain[0])]), steps);
    var s := Exec(Sys(ps, [FreshBook(ps.chain[0])]), steps);
    HoldingsAreApart(s.pools, s.books);
  }

  /** What is allocated can be freed, and then the pool is as before but for its counters and the word
      that links the block. */
  lemma FreeUndoesAlloc(ps: Pools, books: seq<Book>)
    requires Inv(ps, books) && FirstFree(ps.chain, 0) < |ps.chain|
    ensures var i := FirstFree(ps.chain, 0);
      var (ps', p) := Take(ps);
      && p.Some? && books[i].free != []
      && TakenBack(HandedOut(books, i), i, p.value) == books
      && Inv(Free(ps', p.value), books)
  {
    var i := FirstFree(ps.chain, 0);
    TakeGivesAFreeBlock(ps, books, i);
    var a := ps.chain[i].free;
    FreeKeepsInv(Take(ps).0, HandedOut(books, i), i, a);
    assert [a] + books[i].free[1..] == books[i].free;
    assert books[i].out + {a} - {a} == books[i].out;
    assert TakenBack(HandedOut(books, i), i, a) == books;
  }

  // ----- In place -------------------------------------------------------------------

  class BlockPool {
    var chain: seq<Pool>
    var words: Words

    function View(): Pools
      reads this
    {
      Pools(chain, words)
    }

    constructor (asked: nat, count: nat, addr: nat, memory: Words)
      requires asked < WORD
      ensures Create(asked, count, Some(addr), memory) == Some(View())
    {
      var size, n := BlockSize(asked), Count(count);
      chain := [Pool(addr, size, n, size * n % WORD, 0, 0, true, 0, 0, 0)];
      words := memory;
      new;
      LinkBlocks(0);
      assert chain == [NewPool(addr, BlockSize(asked), Count(count), true)];
    }

    /** Rebuild the free list of pool i, block by block. */
    method LinkBlocks(i: nat)
      requires i < |chain|
      modifies this
      ensures var p := old(chain)[i];
        && words == Built(old(words), p.memory, p.blockSize, p.blockCount)
        && chain == old(chain)[i := p.(free := Head(p.memory, p.blockSize, p.blockCount))]
    {
      var p := chain[i];
      var free := 0;
      for k := 0 to p.blockCount
        invariant chain == old(chain)
        invariant words == Built(old(words), p.memory, p.blockSize, k) && free == Head(p.memory, p.blockSize, k)
      {
        var block := p.memory + k * p.blockSize;
        words := words[block := free];
        free := block;
      }
      chain := chain[i := p.(free := free)];
    }

    method FindFree(from: nat) returns (k: nat)
      requires from <= |chain|
      ensures k == FirstFree(chain, from)
    {
      k := from;
      while k < |chain| && chain[k].free == 0
        invariant from <= k <= |chain| && FirstFree(chain, k) == FirstFree(chain, from)
      {
        k := k + 1;
      }
    }

    method TakeFrom(i: nat) returns (a: nat)
      requires i < |chain|
      modifies this`chain
      ensures View() == Pop(old(View()), i) && a == old(chain)[i].free
    {
      var p := chain[i];
      a := p.free;
      chain := chain[i := p.(free := Word(words, a), used := p.used + 1)];
      var root := chain[0];
      root := root.(allocs := root.allocs + 1);
      if i == 0 && root.used > root.peak {
        root := root.(peak := root.used);
      }
      chain := chain[0 := root];
    }

    /** Allocate; after growing, allocate again. The measure says that this happens once. */
    method AllocBlock(granted: Option<nat>) returns (p: Option<nat>)
      requires chain != [] && chain[0].blockSize < WORD && (granted.Some? ==> granted.value > 0)
      modifies this
      ensures (View(), p) == Alloc(old(View()), granted)
      decreases if FirstFree(chain, 0) < |chain| then 0 else 1
    {
      var i := FindFree(0);
      if i < |chain| {
        var a := TakeFrom(i);
        return Some(a);
      }
      if !chain[0].canExpand || granted.None? {
        return None;
      }
      Grow(granted.value);
      p := AllocBlock(granted);
    }

    method Grow(addr: nat)
      requires chain != [] && chain[0].blockSize < WORD && addr > 0
      modifies this
      ensures View() == Expanded(old(View()), addr)
      ensures FirstFree(chain, 0) < |chain|
    {
      var size, n := BlockSize(chain[0].blockSize), Count(chain[0].blockCount);
      chain := [chain[0], Pool(addr, size, n, size * n % WORD, 0, 0, false, 0, 0, 0)] + chain[1..];
      LinkBlocks(1);
      assert chain[1].free != 0;
    }

    /** Find the pool that owns the pointer and give it the block. */
    method FreeBlock(a: nat)
      modifies this
      ensures View() == Free(old(View()), a)
    {
      if a == 0 {
        return;
      }
      var i := 0;
      while i < |chain| && !(chain[i].memory <= a < chain[i].memory + chain[i].total)
        invariant i <= |chain| && Owner(chain, a, i) == Owner(chain, a, 0) && View() == old(View())
      {
        i := i + 1;
      }
      if i < |chain| {
        var p := chain[i];
        words := words[a := p.free];
        chain := chain[i := p.(free := a, used := if p.used > 0 then p.used - 1 else WORD - 1, frees := p.frees + 1)];
      }
    }

    method ResetPool(i: nat)
      requires i < |chain|
      modifies this
      ensures View() == ResetFrom(old(View()), i)
      decreases |chain| - i
    {
      LinkBlocks(i);
      chain := chain[i := chain[i].(used := 0)];
      var j := i + 1;
      assert View() == ResetOne(old(View()), i);
      while j < |chain|
        invariant i < j <= |chain| == |old(chain)|
        invariant ResetRest(View(), j) == ResetFrom(old(View()), i)
      {
        ResetPool(j);
        j := j + 1;
      }
    }
  }
}
