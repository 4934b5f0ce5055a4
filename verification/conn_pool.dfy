/** A pool of connections: an array of all of them and, through the connections, a doubly
    linked list of the free ones.

    Connections live in `conns` under their addresses; address 0 is no connection. The
    clock, the addresses of new connections, and whether connecting or a ping succeeds
    are parameters. Operations run one at a time, as under the pool's lock. */
module ConnectionPoolModel {
  import opened BitMasks
  import opened Sequences

  const POOL_MAX_SIZE: nat := 256
  const STALE_AFTER: nat := 90000

  datatype Conn = Conn(healthy: bool, lastActivity: nat, poolIndex: int, next: nat, prev: nat)

  type Conns = map<nat, Conn>

  datatype Pool = Pool(
    conns: Conns, slots: seq<nat>, count: nat, freeList: nat, freeCount: int, min: nat, max: nat,
    acquired: int, released: int, created: int, destroyed: int, peak: int)

  /** The sizes a pool is created with, after the program has adjusted them. */
  function Adjusted(min: nat, max: nat): (nat, nat) {
    var m := if min > max then max else min;
    var n := if max > POOL_MAX_SIZE then POOL_MAX_SIZE else max;
    (if m < 1 then 1 else m, n)
  }

  /** When the adjusted sizes are in order. */
  lemma AdjustedFitsIff(min: nat, max: nat)
    ensures Adjusted(min, max).0 <= Adjusted(min, max).1 <==> 1 <= max && (min <= POOL_MAX_SIZE || max <= POOL_MAX_SIZE)
    ensures 1 <= Adjusted(min, max).0 && Adjusted(min, max).1 <= POOL_MAX_SIZE
  {
  }

  // ----- The free list ------------------------------------------------------------

  /** Writing one link; address 0 is never written. */
  function SetNext(conns: Conns, c: nat, v: nat): Conns {
    if c in conns then conns[c := conns[c].(next := v)] else conns
  }

  function SetPrev(conns: Conns, c: nat, v: nat): Conns {
    if c in conns then conns[c := conns[c].(prev := v)] else conns
  }

  function Push(p: Pool, c: nat): Pool {
    p.(conns := SetPrev(SetPrev(SetNext(p.conns, c, p.freeList), c, 0), p.freeList, c),
       freeList := c, freeCount := p.freeCount + 1)
  }

  function Pop(p: Pool): Pool
    requires p.freeList in p.conns
  {
    var c := p.freeList;
    var next := p.conns[c].next;
    p.(conns := SetPrev(SetNext(SetPrev(p.conns, next, 0), c, 0), c, 0), freeList := next, freeCount := p.freeCount - 1)
  }

  function Unlink(p: Pool, c: nat): Pool
    requires c in p.conns
  {
    var next, prev := p.conns[c].next, p.conns[c].prev;
    p.(conns := SetPrev(SetNext(p.conns, prev, next), next, prev),
       freeList := if c == p.freeList then next else p.freeList, freeCount := p.freeCount - 1)
  }

  function At(s: seq<nat>, i: int): nat {
    if 0 <= i < |s| then s[i] else 0
  }

  predicate Distinct(s: seq<nat>) {
    forall i, j | 0 <= i < j < |s| :: s[i] != s[j]
  }

  predicate LinkedAt(conns: Conns, list: seq<nat>, i: nat)
    requires i < |list|
  {
    list[i] in conns && conns[list[i]].next == At(list, i + 1) && conns[list[i]].prev == At(list, i - 1)
  }

  /** The links of these connections spell this list. */
  predicate Linked(conns: Conns, list: seq<nat>) {
    0 !in conns && Distinct(list) && forall i {:trigger LinkedAt(conns, list, i)} | 0 <= i < |list| :: LinkedAt(conns, list, i)
  }

  predicate Listed(p: Pool, free: seq<nat>) {
    p.freeCount == |free| && p.freeList == At(free, 0) && Linked(p.conns, free)
  }

  /** Everything but the links is as before. */
  predicate OnlyLinks(before: Conns, after: Conns) {
    && before.Keys == after.Keys
    && forall c <- before ::
         after[c].healthy == before[c].healthy && after[c].lastActivity == before[c].lastActivity
         && after[c].poolIndex == before[c].poolIndex
  }

  lemma PushLists(p: Pool, free: seq<nat>, c: nat)
    requires Listed(p, free) && c in p.conns && c !in free
    ensures Listed(Push(p, c), [c] + free) && OnlyLinks(p.conns, Push(p, c).conns)
  {
    var list, after := [c] + free, Push(p, c).conns;
    forall i | 0 <= i < |list| ensures LinkedAt(after, list, i) {
      assert i > 0 ==> list[i] == free[i - 1] && LinkedAt(p.conns, free, i - 1);
    }
  }

  lemma PopLists(p: Pool, free: seq<nat>)
    requires Listed(p, free) && free != []
    ensures p.freeList == free[0] && p.freeList in p.conns
    ensures Listed(Pop(p), free[1..]) && OnlyLinks(p.conns, Pop(p).conns)
  {
    assert LinkedAt(p.conns, free, 0);
    var list, after := free[1..], Pop(p).conns;
    forall i | 0 <= i < |list| ensures LinkedAt(after, list, i) {
      assert list[i] == free[i + 1] && LinkedAt(p.conns, free, i + 1);
    }
  }

  /** What unlinking place i does to the connection at place j. */
  lemma UnlinkAt(p: Pool, free: seq<nat>, i: nat, j: nat)
    requires Linked(p.conns, free) && i < |free| && j < |free|
    ensures free[i] in p.conns && free[j] in Unlink(p, free[i]).conns
    ensures var after := Unlink(p, free[i]).conns[free[j]];
      && after.next == (if j + 1 == i then At(free, i + 1) else At(free, j + 1))
      && after.prev == (if j == i + 1 then At(free, i - 1) else At(free, j - 1))
  {
    assert LinkedAt(p.conns, free, i) && LinkedAt(p.conns, free, j);
  }

  lemma UnlinkLists(p: Pool, free: seq<nat>, i: nat)
    requires Listed(p, free) && i < |free|
    ensures free[i] in p.conns
    ensures Listed(Unlink(p, free[i]), Without(free, i)) && OnlyLinks(p.conns, Unlink(p, free[i]).conns)
  {
    var list := Without(free, i);
    UnlinkAt(p, free, i, i);
    assert LinkedAt(p.conns, free, i);
    forall j | 0 <= j < |list| ensures LinkedAt(Unlink(p, free[i]).conns, list, j) {
      UnlinkAt(p, free, i, if j < i then j else j + 1);
    }
  }

  // ----- The array ------------------------------------------------------------------

  function SetIndex(conns: Conns, c: nat, i: nat): Conns {
    if c in conns then conns[c := conns[c].(poolIndex := i)] else conns
  }

  /** A new connection behind the others. */
  function Append(p: Pool, c: nat, now: nat): Pool
    requires p.count < |p.slots|
  {
    p.(conns := p.conns[c := Conn(true, now, p.count, 0, 0)], slots := p.slots[p.count := c], count := p.count + 1,
       created := p.created + 1)
  }

  /** Connections from j + 1 on move one place down, each told its new place. */
  function ShiftFrom(p: Pool, j: nat): (r: Pool)
    requires p.count <= |p.slots|
    ensures r == p.(conns := r.conns, slots := r.slots) && |r.slots| == |p.slots|
    decreases p.count - j
  {
    if j + 1 >= p.count then p
    else
      var c := p.slots[j + 1];
      ShiftFrom(p.(slots := p.slots[j := c], conns := SetIndex(p.conns, c, j)), j + 1)
  }

  function SlotOf(p: Pool, c: nat, i: nat): (k: nat)
    requires i <= p.count <= |p.slots|
    ensures i <= k <= p.count && (k < p.count ==> p.slots[k] == c)
    ensures forall j | i <= j < k :: p.slots[j] != c
    decreases p.count - i
  {
    if i == p.count || p.slots[i] == c then i else SlotOf(p, c, i + 1)
  }

  /** Out of the array, and gone. */
  function Dropped(p: Pool, c: nat): Pool
    requires p.count <= |p.slots|
  {
    var i := SlotOf(p, c, 0);
    var q := if i < p.count then ShiftFrom(p, i).(count := p.count - 1) else p;
    q.(conns := q.conns - {c}, destroyed := p.destroyed + 1)
  }

  /** Every place holds a connection that knows its place, and every connection has one. */
  predicate Indexed(p: Pool) {
    && p.count <= |p.slots| == p.max
    && (forall i | 0 <= i < p.count :: p.slots[i] in p.conns && p.conns[p.slots[i]].poolIndex == i)
    && (forall c <- p.conns :: 0 <= p.conns[c].poolIndex < p.count && p.slots[p.conns[c].poolIndex] == c)
  }

  /** As Indexed, but for place j, which is free to be filled. */
  predicate IndexedBut(p: Pool, j: nat) {
    && j < p.count <= |p.slots|
    && (forall i | 0 <= i < p.count && i != j :: p.slots[i] in p.conns && p.conns[p.slots[i]].poolIndex == i)
  }

  /** Everything but the places is as before. */
  predicate OnlyPlaces(before: Conns, after: Conns) {
    && before.Keys == after.Keys
    && forall c <- before ::
         after[c].healthy == before[c].healthy && after[c].lastActivity == before[c].lastActivity
         && after[c].next == before[c].next && after[c].prev == before[c].prev
  }

  /** Place k after the places from j + 1 on moved down. */
  predicate Moved(p: Pool, r: Pool, j: nat, k: nat)
    requires k + 1 < p.count <= |p.slots| == |r.slots|
  {
    && r.slots[k] == (if k < j then p.slots[k] else p.slots[k + 1])
    && r.slots[k] in r.conns && r.conns[r.slots[k]].poolIndex == k
  }

  predicate AllMoved(p: Pool, r: Pool, j: nat) {
    && p.count <= |p.slots| == |r.slots|
    && forall k {:trigger Moved(p, r, j, k)} | 0 <= k < p.count - 1 :: Moved(p, r, j, k)
  }

  lemma {:induction false} ShiftIndexes(p: Pool, j: nat)
    requires IndexedBut(p, j)
    ensures OnlyPlaces(p.conns, ShiftFrom(p, j).conns) && AllMoved(p, ShiftFrom(p, j), j)
    decreases p.count - j
  {
    if j + 1 < p.count {
      var c := p.slots[j + 1];
      var q := p.(slots := p.slots[j := c], conns := SetIndex(p.conns, c, j));
      OneDown(p, j);
      ShiftIndexes(q, j + 1);
      forall k: nat | k < p.count - 1 ensures Moved(p, ShiftFrom(p, j), j, k) {
        assert Moved(q, ShiftFrom(q, j + 1), j + 1, k);
      }
    }
  }

  lemma OneDown(p: Pool, j: nat)
    requires IndexedBut(p, j) && j + 1 < p.count
    ensures IndexedBut(p.(slots := p.slots[j := p.slots[j + 1]], conns := SetIndex(p.conns, p.slots[j + 1], j)), j + 1)
  {
    var c := p.slots[j + 1];
    assert forall i | 0 <= i < p.count && i != j && i != j + 1 :: p.slots[i] != c;
  }

  /** Without the connection at place i, every place below the last holds one that knows it. */
  lemma PlacesKnown(p: Pool, q: Pool, i: nat, k: nat)
    requires Indexed(p) && AllMoved(p, q, i) && i < p.count && k < p.count - 1
    ensures q.slots[k] in q.conns - {p.slots[i]} && q.conns[q.slots[k]].poolIndex == k
  {
    assert Moved(p, q, i, k);
    assert p.slots[if k < i then k else k + 1] != p.slots[i];
  }

  /** Every other connection has one of those places. */
  lemma OthersPlaced(p: Pool, q: Pool, i: nat, x: nat)
    requires Indexed(p) && AllMoved(p, q, i) && i < p.count && x in p.conns && x in q.conns && x != p.slots[i]
    ensures 0 <= q.conns[x].poolIndex < p.count - 1 && q.slots[q.conns[x].poolIndex] == x
  {
    var k := p.conns[x].poolIndex;
    assert p.slots[k] == x && k != i;
    assert Moved(p, q, i, if k < i then k else k - 1);
  }

  lemma DropIndexes(p: Pool, c: nat)
    requires Indexed(p) && c in p.conns
    ensures var r := Dropped(p, c);
      && Indexed(r) && r.count == p.count - 1 && r.conns.Keys == p.conns.Keys - {c}
      && OnlyPlaces(p.conns - {c}, r.conns)
      && r == p.(conns := r.conns, slots := r.slots, count := r.count, destroyed := p.destroyed + 1)
  {
    var i, r := SlotOf(p, c, 0), Dropped(p, c);
    assert p.slots[p.conns[c].poolIndex] == c;
    ShiftIndexes(p, i);
    var q := ShiftFrom(p, i);
    forall k: nat | k < r.count ensures r.slots[k] in r.conns && r.conns[r.slots[k]].poolIndex == k {
      PlacesKnown(p, q, i, k);
    }
    forall x | x in r.conns ensures 0 <= r.conns[x].poolIndex < r.count && r.slots[r.conns[x].poolIndex] == x {
      OthersPlaced(p, q, i, x);
    }
  }

  // ----- Operations -----------------------------------------------------------------

  function Peaked(p: Pool): Pool {
    if p.count - p.freeCount > p.peak then p.(peak := p.count - p.freeCount) else p
  }

  function Touched(p: Pool, c: nat, now: nat): Pool {
    if c in p.conns then p.(conns := p.conns[c := p.conns[c].(lastActivity := now)]) else p
  }

  /** Take a free connection; if there is none, make one (at address `made`, 0 when connecting fails)
      while there is room. */
  function Acquire(p: Pool, made: nat, now: nat): (Pool, nat) {
    if p.freeList in p.conns then
      var q := Touched(Pop(p), p.freeList, now);
      (Peaked(q.(acquired := q.acquired + 1)), p.freeList)
    else if p.count < p.max && p.count < |p.slots| && made != 0 then
      var q := Append(p, made, now);
      (Peaked(q.(acquired := q.acquired + 1)), made)
    else (p, 0)
  }

  /** Give a connection back: a broken one leaves the pool. */
  function Release(p: Pool, c: nat, now: nat): Pool
    requires c in p.conns && p.count <= |p.slots|
  {
    if !p.conns[c].healthy then Dropped(p, c)
    else
      var q := Touched(Push(p, c), c, now);
      q.(released := q.released + 1)
  }

  predicate Stale(p: Pool, c: nat, now: nat) {
    c in p.conns && (now - p.conns[c].lastActivity) % WORD > STALE_AFTER
  }

  /** One free connection is checked: if it is stale and does not answer, it leaves the pool. */
  function Checked(p: Pool, c: nat, silent: set<nat>, now: nat): Pool
    requires p.count <= |p.slots|
  {
    if Stale(p, c, now) && c in silent then Dropped(Unlink(p, c), c) else p
  }

  /** Check the connections of a list, front to back. */
  function CheckedAll(p: Pool, list: seq<nat>, silent: set<nat>, now: nat): (r: Pool)
    requires p.count <= |p.slots|
    ensures r.count <= |r.slots|
    decreases |list|
  {
    if list == [] then p else CheckedAll(Checked(p, list[0], silent, now), list[1..], silent, now)
  }

  /** A new connection that is free at once. */
  function AddFree(p: Pool, c: nat, now: nat): Pool
    requires p.count < |p.slots|
  {
    Push(Append(p, c, now), c)
  }

  /** Make connections until the minimum is reached or connecting fails. */
  function Refilled(p: Pool, made: seq<nat>, now: nat): Pool
    requires p.count <= |p.slots|
    decreases |made|
  {
    if p.count >= p.min || p.count == |p.slots| || made == [] || made[0] == 0 then p
    else Refilled(AddFree(p, made[0], now), made[1..], now)
  }

  function HealthCheck(p: Pool, list: seq<nat>, silent: set<nat>, made: seq<nat>, now: nat): Pool
    requires p.count <= |p.slots|
  {
    Refilled(CheckedAll(p, list, silent, now), made, now)
  }

  /** How many connections were made; address 0 stands for a failure. */
  function Successes(made: seq<nat>): (k: nat)
    ensures k <= |made|
    decreases |made|
  {
    if made == [] then 0 else (if made[0] == 0 then 0 else 1) + Successes(made[1..])
  }

  lemma {:induction false} NoFailures(made: seq<nat>)
    requires 0 !in made
    ensures Successes(made) == |made|
    decreases |made|
  {
    if made != [] {
      assert made[0] in made;
      NoFailures(made[1..]);
    }
  }

  lemma {:induction false} FilledCount(p: Pool, made: seq<nat>, now: nat)
    requires p.count + Successes(made) <= |p.slots|
    ensures Filled(p, made, now).count == p.count + Successes(made)
    ensures |Filled(p, made, now).slots| == |p.slots|
    decreases |made|
  {
    if made != [] {
      FilledCount(if made[0] == 0 then p else AddFree(p, made[0], now), made[1..], now);
    }
  }

  /** An empty pool; its first connections are tried one after the other, a failure is passed over. */
  function Empty(min: nat, max: nat): Pool {
    Pool(map[], seq(max, _ => 0), 0, 0, 0, min, max, 0, 0, 0, 0, 0)
  }

  function Filled(p: Pool, made: seq<nat>, now: nat): Pool
    requires p.count + Successes(made) <= |p.slots|
    decreases |made|
  {
    if made == [] then p else Filled(if made[0] == 0 then p else AddFree(p, made[0], now), made[1..], now)
  }
}
