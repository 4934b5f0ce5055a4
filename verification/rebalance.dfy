/** Moving partitions between the nodes of a cluster until no live node is overloaded. */
module Rebalance {
  import opened Sequences

  // The move loop has no exit for the case that nobody can take a partition: it then
  // scans for ever. The model reports that as `hung`, and the main results say exactly
  // when it happens and what the loop leaves behind when it does not.

  datatype Node = Node(id: nat, dead: bool, parts: seq<nat>)

  function Count(n: Node): nat {
    |n.parts|
  }

  // ----- Sums over nodes --------------------------------------------------------

  lemma {:induction false} SumIsPositive(nodes: seq<Node>, f: Node -> nat)
    ensures Sum(nodes, f) > 0 <==> exists i :: 0 <= i < |nodes| && f(nodes[i]) > 0
  {
    if nodes != [] {
      var last := |nodes| - 1;
      SumIsPositive(nodes[..last], f);
      if i :| 0 <= i < last && f(nodes[..last][i]) > 0 {
        assert f(nodes[i]) > 0;
      }
      if i :| 0 <= i < |nodes| && f(nodes[i]) > 0 {
        assert i < last ==> f(nodes[..last][i]) > 0;
      }
    }
  }

  function Bag(n: Node): multiset<nat> {
    if n.dead then multiset{} else multiset(n.parts)
  }

  /** Every partition in the lists of the live nodes, as often as it is listed. */
  function Held(nodes: seq<Node>): multiset<nat> {
    if nodes == [] then multiset{} else Held(nodes[..|nodes| - 1]) + Bag(nodes[|nodes| - 1])
  }

  lemma SwapInSum(a: multiset<nat>, x: multiset<nat>, b: multiset<nat>, y: multiset<nat>, rest: multiset<nat>)
    requires a + x == b + y
    ensures (a + rest) + x == (b + rest) + y
  {
    assert (a + rest) + x == (a + x) + rest;
    assert (b + rest) + y == (b + y) + rest;
  }

  lemma HeldLast(nodes: seq<Node>)
    requires nodes != []
    ensures Held(nodes) == Held(nodes[..|nodes| - 1]) + Bag(nodes[|nodes| - 1])
  {
  }

  lemma {:induction false} HeldOfUpdate(nodes: seq<Node>, i: nat, n: Node)
    requires i < |nodes|
    ensures Held(nodes[i := n]) + Bag(nodes[i]) == Held(nodes) + Bag(n)
  {
    var last, init := |nodes| - 1, nodes[..|nodes| - 1];
    HeldLast(nodes);
    HeldLast(nodes[i := n]);
    if i == last {
      assert nodes[i := n][..last] == init;
      SwapInSum(Bag(n), Bag(nodes[i]), Bag(nodes[i]), Bag(n), Held(init));
    } else {
      assert nodes[i := n][..last] == init[i := n];
      HeldOfUpdate(init, i, n);
      SwapInSum(Held(init[i := n]), Bag(nodes[i]), Held(init), Bag(n), Bag(nodes[last]));
    }
  }

  function Live(): Node -> nat {
    (n: Node) => if n.dead then 0 else 1
  }

  function LiveCount(): Node -> nat {
    (n: Node) => if n.dead then 0 else Count(n)
  }

  /** What a node must give away: all above target + 1. */
  function Over(target: nat): Node -> nat {
    (n: Node) => if n.dead || Count(n) <= target + 1 then 0 else Count(n) - (target + 1)
  }

  /** What a node can take: up to target. */
  function Under(target: nat): Node -> nat {
    (n: Node) => if n.dead || Count(n) >= target then 0 else target - Count(n)
  }

  function Above(target: nat): Node -> nat {
    (n: Node) => if n.dead || Count(n) <= target then 0 else 1
  }

  function Excess(nodes: seq<Node>, target: nat): nat {
    Sum(nodes, Over(target))
  }

  function Room(nodes: seq<Node>, target: nat): nat {
    Sum(nodes, Under(target))
  }

  lemma {:induction false} HeldIsLiveCount(nodes: seq<Node>)
    ensures |Held(nodes)| == Sum(nodes, LiveCount())
  {
    if nodes != [] {
      HeldIsLiveCount(nodes[..|nodes| - 1]);
    }
  }

  /** Excess and room against the count: what is held is target per live node, plus the nodes above
      target, plus the excess, less the room. */
  lemma {:induction false} Balance(nodes: seq<Node>, target: nat)
    ensures Sum(nodes, LiveCount()) + Room(nodes, target)
         == target * Sum(nodes, Live()) + Sum(nodes, Above(target)) + Excess(nodes, target)
  {
    if nodes != [] {
      var n := nodes[|nodes| - 1];
      Balance(nodes[..|nodes| - 1], target);
      if !n.dead {
        var rest := Sum(nodes[..|nodes| - 1], Live());
        assert target * (rest + 1) == target * rest + target;
      }
    }
  }

  // ----- The state ----------------------------------------------------------------

  predicate DistinctIds(nodes: seq<Node>) {
    forall i, j | 0 <= i < j < |nodes| :: nodes[i].id != nodes[j].id
  }

  /** The first node with an id, or the number of nodes. */
  function PlaceOf(nodes: seq<Node>, id: nat): (k: nat)
    ensures k <= |nodes| && (k < |nodes| ==> nodes[k].id == id)
    ensures forall i | 0 <= i < k :: nodes[i].id != id
  {
    if nodes == [] || nodes[0].id == id then 0 else 1 + PlaceOf(nodes[1..], id)
  }

  function AllPartitions(n: nat): multiset<nat> {
    if n == 0 then multiset{} else AllPartitions(n - 1) + multiset{n - 1}
  }

  lemma {:induction false} AllPartitionsAre(n: nat)
    ensures |AllPartitions(n)| == n
    ensures forall p: nat :: AllPartitions(n)[p] == if p < n then 1 else 0
  {
    if n > 0 {
      AllPartitionsAre(n - 1);
    }
  }

  predicate PrimaryMatches(nodes: seq<Node>, primary: seq<nat>) {
    forall k, p | 0 <= k < |nodes| && !nodes[k].dead && p in nodes[k].parts ::
      p < |primary| && primary[p] == nodes[k].id
  }

  /** The live nodes hold every partition exactly once, and each partition names its holder. */
  predicate Placed(nodes: seq<Node>, primary: seq<nat>) {
    && DistinctIds(nodes)
    && Held(nodes) == AllPartitions(|primary|)
    && PrimaryMatches(nodes, primary)
  }

  lemma {:induction false} BagInHeld(nodes: seq<Node>, i: nat)
    requires i < |nodes|
    ensures Bag(nodes[i]) <= Held(nodes)
  {
    if i < |nodes| - 1 {
      BagInHeld(nodes[..|nodes| - 1], i);
    }
  }

  // ----- One move -----------------------------------------------------------------

  function Cut(n: Node): Node
    requires n.parts != []
  {
    n.(parts := n.parts[..|n.parts| - 1])
  }

  function Grown(n: Node, p: nat): Node {
    n.(parts := n.parts + [p])
  }

  /** The last partition of node i goes to the end of node j. */
  function Move(nodes: seq<Node>, i: nat, j: nat): (r: seq<Node>)
    requires i < |nodes| && j < |nodes| && nodes[i].parts != []
    ensures |r| == |nodes|
  {
    nodes[i := Cut(nodes[i])][j := Grown(nodes[j], Moved(nodes, i))]
  }

  function Moved(nodes: seq<Node>, i: nat): nat
    requires i < |nodes| && nodes[i].parts != []
  {
    nodes[i].parts[|nodes[i].parts| - 1]
  }

  predicate CanMove(nodes: seq<Node>, i: nat, j: nat) {
    && i < |nodes| && j < |nodes| && i != j && nodes[i].parts != []
    && !nodes[i].dead && !nodes[j].dead
  }

  lemma CutAndGrownBags(n: Node, p: nat)
    requires !n.dead
    ensures Bag(Grown(n, p)) == Bag(n) + multiset{p}
    ensures n.parts != [] ==> Bag(n) == Bag(Cut(n)) + multiset{n.parts[|n.parts| - 1]}
  {
    if n.parts != [] {
      assert n.parts == Cut(n).parts + [n.parts[|n.parts| - 1]];
    }
  }

  lemma MoveKeepsHeld(nodes: seq<Node>, i: nat, j: nat)
    requires CanMove(nodes, i, j)
    ensures Held(Move(nodes, i, j)) == Held(nodes)
  {
    var p := Moved(nodes, i);
    var cut, grown := Cut(nodes[i]), Grown(nodes[j], p);
    HeldOfUpdate(nodes, i, cut);
    HeldOfUpdate(nodes[i := cut], j, grown);
    CutAndGrownBags(nodes[i], p);
    CutAndGrownBags(nodes[j], p);
    BagsBalance(Held(nodes), Held(nodes[i := cut]), Held(Move(nodes, i, j)), Bag(cut), Bag(nodes[j]), multiset{p});
  }

  lemma BagsBalance(h: multiset<nat>, mid: multiset<nat>, r: multiset<nat>, cut: multiset<nat>, to: multiset<nat>,
                    p: multiset<nat>)
    requires mid + (cut + p) == h + cut
    requires r + to == mid + (to + p)
    ensures r == h
  {
    forall x: nat ensures r[x] == h[x] {
      assert (mid + (cut + p))[x] == (h + cut)[x];
      assert (r + to)[x] == (mid + (to + p))[x];
    }
  }

  lemma HeldOnce(nodes: seq<Node>, primary: seq<nat>, i: nat)
    requires Placed(nodes, primary) && i < |nodes| && !nodes[i].dead && nodes[i].parts != []
    ensures Moved(nodes, i) < |primary| && Moved(nodes, i) !in Cut(nodes[i]).parts
  {
    AllPartitionsAre(|primary|);
    BagInHeld(nodes, i);
    LastOfOnce(nodes[i], AllPartitions(|primary|));
  }

  lemma LastOfOnce(n: Node, all: multiset<nat>)
    requires !n.dead && n.parts != [] && Bag(n) <= all && (forall p: nat :: all[p] <= 1)
    ensures n.parts[|n.parts| - 1] in all && n.parts[|n.parts| - 1] !in Cut(n).parts
  {
    var rest, p := Cut(n).parts, n.parts[|n.parts| - 1];
    assert n.parts == rest + [p];
    LastIsOnce(rest, p);
    assert multiset(rest + [p])[p] <= all[p];
  }

  lemma LastIsOnce(parts: seq<nat>, p: nat)
    ensures multiset(parts + [p])[p] <= 1 ==> p !in parts
    ensures multiset(parts + [p])[p] >= 1
  {
  }

  /** Conservation: a move loses no partition, doubles none, and tells its primary. */
  lemma MoveKeepsPlaced(nodes: seq<Node>, primary: seq<nat>, i: nat, j: nat)
    requires Placed(nodes, primary) && CanMove(nodes, i, j)
    ensures Moved(nodes, i) < |primary|
    ensures Placed(Move(nodes, i, j), primary[Moved(nodes, i) := nodes[j].id])
  {
    HeldOnce(nodes, primary, i);
    MoveKeepsHeld(nodes, i, j);
    MoveKeepsPrimaries(nodes, primary, i, j);
    MoveKeepsIds(nodes, i, j);
  }

  lemma MoveKeepsIds(nodes: seq<Node>, i: nat, j: nat)
    requires DistinctIds(nodes) && CanMove(nodes, i, j)
    ensures DistinctIds(Move(nodes, i, j))
  {
    assert forall k | 0 <= k < |nodes| :: Move(nodes, i, j)[k].id == nodes[k].id;
  }

  lemma MoveKeepsPrimaries(nodes: seq<Node>, primary: seq<nat>, i: nat, j: nat)
    requires DistinctIds(nodes) && PrimaryMatches(nodes, primary) && CanMove(nodes, i, j)
    requires Moved(nodes, i) < |primary| && Moved(nodes, i) !in Cut(nodes[i]).parts
    ensures PrimaryMatches(Move(nodes, i, j), primary[Moved(nodes, i) := nodes[j].id])
  {
    var p, r := Moved(nodes, i), Move(nodes, i, j);
    forall k, q | 0 <= k < |r| && !r[k].dead && q in r[k].parts
      ensures q < |primary| && primary[p := nodes[j].id][q] == r[k].id
    {
      MovedHolderIs(nodes, primary, i, j, k, q);
    }
  }

  lemma MovedHolderIs(nodes: seq<Node>, primary: seq<nat>, i: nat, j: nat, k: nat, q: nat)
    requires DistinctIds(nodes) && PrimaryMatches(nodes, primary) && CanMove(nodes, i, j)
    requires Moved(nodes, i) < |primary| && Moved(nodes, i) !in Cut(nodes[i]).parts
    requires k < |nodes| && !Move(nodes, i, j)[k].dead && q in Move(nodes, i, j)[k].parts
    ensures q < |primary| && primary[Moved(nodes, i) := nodes[j].id][q] == Move(nodes, i, j)[k].id
  {
    if q != Moved(nodes, i) || k != j {
      assert q in nodes[k].parts;
      HolderIs(nodes, primary, k, q);
      HolderIs(nodes, primary, i, Moved(nodes, i));
    }
  }

  lemma HolderIs(nodes: seq<Node>, primary: seq<nat>, k: nat, q: nat)
    requires PrimaryMatches(nodes, primary) && k < |nodes| && !nodes[k].dead && q in nodes[k].parts
    ensures q < |primary| && primary[q] == nodes[k].id
  {
  }

  lemma MoveLowersBoth(nodes: seq<Node>, i: nat, j: nat, target: nat)
    requires CanMove(nodes, i, j) && Count(nodes[i]) > target + 1 && Count(nodes[j]) < target
    ensures Excess(Move(nodes, i, j), target) + 1 == Excess(nodes, target)
    ensures Room(Move(nodes, i, j), target) + 1 == Room(nodes, target)
  {
    var p, mid := Moved(nodes, i), nodes[i := Cut(nodes[i])];
    SumOfUpdate(nodes, Over(target), i, Cut(nodes[i]));
    SumOfUpdate(mid, Over(target), j, Grown(nodes[j], p));
    SumOfUpdate(nodes, Under(target), i, Cut(nodes[i]));
    SumOfUpdate(mid, Under(target), j, Grown(nodes[j], p));
  }

  // ----- When it hangs ------------------------------------------------------------

  function Target(nodes: seq<Node>, partitions: nat): nat
    requires Sum(nodes, Live()) > 0
  {
    partitions / Sum(nodes, Live())
  }

  lemma Remainder(n: nat, live: nat, above: nat, excess: nat, room: nat)
    requires live > 0 && n + room == n / live * live + above + excess
    ensures excess > room <==> n % live > above
  {
    assert n == n / live * live + n % live;
  }

  /** Whatever the live nodes list, the loop hangs exactly when that is more than target for each of them
      and one for each node above target: that much excess finds no room. */
  lemma HangsIff(nodes: seq<Node>, partitions: nat)
    requires Sum(nodes, Live()) > 0
    ensures var target := Target(nodes, partitions);
      Excess(nodes, target) > Room(nodes, target)
      <==> |Held(nodes)| > target * Sum(nodes, Live()) + Sum(nodes, Above(target))
  {
    Balance(nodes, Target(nodes, partitions));
    HeldIsLiveCount(nodes);
  }

  /** If the live nodes list every partition once: exactly when the remainder of the division exceeds the
      number of live nodes above target. */
  lemma PlacedHangsIff(nodes: seq<Node>, primary: seq<nat>)
    requires Placed(nodes, primary) && Sum(nodes, Live()) > 0
    ensures var target := Target(nodes, |primary|);
      Excess(nodes, target) > Room(nodes, target)
      <==> |primary| % Sum(nodes, Live()) > Sum(nodes, Above(target))
  {
    var target := Target(nodes, |primary|);
    Balance(nodes, target);
    HeldIsLiveCount(nodes);
    AllPartitionsAre(|primary|);
    Remainder(|primary|, Sum(nodes, Live()), Sum(nodes, Above(target)), Excess(nodes, target), Room(nodes, target));
  }

  /** At most one listed partition more than target for each live node never hangs. */
  lemma SmallRemainderEnds(nodes: seq<Node>, partitions: nat)
    requires Sum(nodes, Live()) > 0 && |Held(nodes)| <= Target(nodes, partitions) * Sum(nodes, Live()) + 1
    ensures var target := Target(nodes, partitions);
      Excess(nodes, target) <= Room(nodes, target)
  {
    var target := Target(nodes, partitions);
    HangsIff(nodes, partitions);
    SumIsPositive(nodes, Over(target));
    if i :| 0 <= i < |nodes| && Over(target)(nodes[i]) > 0 {
      assert Above(target)(nodes[i]) > 0;
      SumIsPositive(nodes, Above(target));
    }
  }

  lemma SumOfThree(a: Node, b: Node, c: Node, f: Node -> nat)
    ensures Sum([a, b, c], f) == f(a) + f(b) + f(c)
    ensures Held([a, b, c]) == Bag(a) + Bag(b) + Bag(c)
  {
    assert [a, b, c][..2] == [a, b] && [a, b][..1] == [a];
    assert Sum([a], f) == f(a) && Held([a]) == Bag(a);
  }

  function HangingNodes(): seq<Node> {
    [Node(1, false, [0, 1]), Node(2, false, []), Node(3, false, [])]
  }

  lemma HangingNodesPlaced()
    ensures Placed(HangingNodes(), [1, 1])
  {
    SumOfThree(HangingNodes()[0], HangingNodes()[1], HangingNodes()[2], Live());
  }

  /** Three live nodes, two partitions on the first: the loop moves nothing and hangs. */
  lemma AHangingCluster()
    ensures Placed(HangingNodes(), [1, 1]) && Sum(HangingNodes(), Live()) == 3
    ensures Excess(HangingNodes(), 2 / 3) == 1 && Room(HangingNodes(), 2 / 3) == 0
  {
    var a, b, c := HangingNodes()[0], HangingNodes()[1], HangingNodes()[2];
    HangingNodesPlaced();
    SumOfThree(a, b, c, Live());
    SumOfThree(a, b, c, Over(0));
    SumOfThree(a, b, c, Under(0));
  }

  // ----- The loop ------------------------------------------------------------------

  /** What a run does to one node: a dead one is left alone, one above target + 1 gives away from the
      end of its list, one below target gets partitions added at the end, any other is left alone. */
  predicate NodeFollows(was: Node, now: Node, target: nat) {
    && now.id == was.id && now.dead == was.dead
    && (was.dead ==> now == was)
    && (Count(was) > target + 1 ==> now.parts <= was.parts && Count(now) > target)
    && (target <= Count(was) <= target + 1 ==> now == was)
    && (Count(was) < target ==> was.parts <= now.parts && Count(now) <= target)
  }

  predicate Follows(was: seq<Node>, now: seq<Node>, target: nat) {
    |now| == |was| && forall k | 0 <= k < |was| :: NodeFollows(was[k], now[k], target)
  }

  lemma MoveFollows(was: seq<Node>, now: seq<Node>, i: nat, j: nat, target: nat)
    requires Follows(was, now, target) && CanMove(now, i, j)
    requires Count(now[i]) > target + 1 && Count(now[j]) < target
    ensures Follows(was, Move(now, i, j), target)
  {
    forall k | 0 <= k < |was| ensures NodeFollows(was[k], Move(now, i, j)[k], target) {
      assert NodeFollows(was[k], now[k], target);
    }
  }

  /** Every partition listed by a live node exists. */
  predicate Listed(nodes: seq<Node>, partitions: nat) {
    forall k, p | 0 <= k < |nodes| && !nodes[k].dead && p in nodes[k].parts :: p < partitions
  }

  ghost predicate ListsIt(nodes: seq<Node>, id: nat, p: nat) {
    exists k | 0 <= k < |nodes| :: !nodes[k].dead && nodes[k].id == id && p in nodes[k].parts
  }

  /** A partition keeps its primary or names a live node that lists it. */
  ghost predicate Renamed(nodes: seq<Node>, before: seq<nat>, primary: seq<nat>) {
    |primary| == |before| && forall p | 0 <= p < |primary| :: primary[p] == before[p] || ListsIt(nodes, primary[p], p)
  }

  lemma ListedSplits(n: Node, p: nat)
    requires n.parts != []
    ensures p in n.parts <==> p in Cut(n).parts || p == n.parts[|n.parts| - 1]
  {
    assert n.parts == Cut(n).parts + [n.parts[|n.parts| - 1]];
  }

  /** What the nodes list after a move. */
  lemma MoveLists(nodes: seq<Node>, i: nat, j: nat, k: nat, p: nat)
    requires CanMove(nodes, i, j) && k < |nodes|
    ensures p in Move(nodes, i, j)[k].parts ==> p in nodes[k].parts || (k == j && p == Moved(nodes, i))
    ensures p in nodes[k].parts && p != Moved(nodes, i) ==> p in Move(nodes, i, j)[k].parts
    ensures k == j ==> Moved(nodes, i) in Move(nodes, i, j)[k].parts
  {
    ListedSplits(nodes[i], p);
  }

  lemma MoveKeepsListed(nodes: seq<Node>, i: nat, j: nat, partitions: nat)
    requires CanMove(nodes, i, j) && Listed(nodes, partitions)
    ensures Moved(nodes, i) < partitions && Listed(Move(nodes, i, j), partitions)
  {
    assert Moved(nodes, i) in nodes[i].parts;
    forall k, p | 0 <= k < |nodes| && !nodes[k].dead && p in Move(nodes, i, j)[k].parts ensures p < partitions {
      MoveLists(nodes, i, j, k, p);
    }
  }

  lemma MoveKeepsRenamed(nodes: seq<Node>, before: seq<nat>, primary: seq<nat>, i: nat, j: nat)
    requires CanMove(nodes, i, j) && Renamed(nodes, before, primary) && Moved(nodes, i) < |primary|
    ensures Renamed(Move(nodes, i, j), before, primary[Moved(nodes, i) := nodes[j].id])
  {
    var m, r := Moved(nodes, i), Move(nodes, i, j);
    forall p | 0 <= p < |primary| && primary[m := nodes[j].id][p] != before[p]
      ensures ListsIt(r, primary[m := nodes[j].id][p], p)
    {
      if p == m {
        MoveLists(nodes, i, j, j, m);
        assert r[j].id == nodes[j].id;
      } else {
        var k :| 0 <= k < |nodes| && !nodes[k].dead && nodes[k].id == primary[p] && p in nodes[k].parts;
        MoveLists(nodes, i, j, k, p);
        assert r[k].id == nodes[k].id;
      }
    }
  }

  /** Where the loop stands after `moved` moves: nothing listed is lost or doubled, and primaries name
      listers; if every partition was placed once, it still is. */
  ghost predicate RunState(was: seq<Node>, now: seq<Node>, before: seq<nat>, primary: seq<nat>, target: nat, moved: nat) {
    && DistinctIds(now) && Listed(now, |primary|) && Held(now) == Held(was) && Follows(was, now, target)
    && Renamed(now, before, primary) && (Placed(was, before) ==> Placed(now, primary))
    && moved + Excess(now, target) == Excess(was, target)
    && moved + Room(now, target) == Room(was, target)
  }

  lemma MoveKeepsRunState(was: seq<Node>, now: seq<Node>, before: seq<nat>, primary: seq<nat>, target: nat, moved: nat,
                          i: nat, j: nat)
    requires RunState(was, now, before, primary, target, moved) && CanMove(now, i, j)
    requires Count(now[i]) > target + 1 && Count(now[j]) < target
    ensures Moved(now, i) < |primary|
    ensures RunState(was, Move(now, i, j), before, primary[Moved(now, i) := now[j].id], target, moved + 1)
  {
    MoveKeepsListed(now, i, j, |primary|);
    MoveKeepsRenamed(now, before, primary, i, j);
    MoveKeepsHeld(now, i, j);
    MoveKeepsIds(now, i, j);
    if Placed(was, before) {
      MoveKeepsPlaced(now, primary, i, j);
    }
    MoveLowersBoth(now, i, j, target);
    MoveFollows(was, now, i, j, target);
  }

  // ----- A node that leaves ------------------------------------------------------------

  /** The first replica of a partition becomes its primary. */
  function Promote(primary: seq<nat>, replicas: seq<seq<nat>>, p: nat): (r: (seq<nat>, seq<seq<nat>>))
    requires p < |primary| == |replicas|
    ensures |r.0| == |r.1| == |primary|
  {
    if replicas[p] == [] then (primary, replicas)
    else (primary[p := replicas[p][0]], replicas[p := replicas[p][1..]])
  }

  predicate Exist(parts: seq<nat>, partitions: nat) {
    forall i | 0 <= i < |parts| :: parts[i] < partitions
  }

  function PromoteAll(primary: seq<nat>, replicas: seq<seq<nat>>, parts: seq<nat>): (r: (seq<nat>, seq<seq<nat>>))
    requires |primary| == |replicas| && Exist(parts, |primary|)
    ensures |r.0| == |r.1| == |primary|
  {
    if parts == [] then (primary, replicas)
    else
      var last := parts[|parts| - 1];
      var (primary', replicas') := PromoteAll(primary, replicas, parts[..|parts| - 1]);
      Promote(primary', replicas', last)
  }

  /** How many replicas of a partition a list uses up. */
  function Used(replicas: seq<seq<nat>>, parts: seq<nat>, p: nat): (m: nat)
    requires p < |replicas|
    ensures m <= |replicas[p]|
  {
    var n := multiset(parts)[p];
    if n < |replicas[p]| then n else |replicas[p]|
  }

  /** For each time the left node lists a partition one replica is used, whoever is primary; the last one
      used is the new primary. */
  lemma {:induction false} PromotedAre(primary: seq<nat>, replicas: seq<seq<nat>>, parts: seq<nat>, p: nat)
    requires |primary| == |replicas| && p < |primary| && Exist(parts, |primary|)
    ensures var m := Used(replicas, parts, p);
      var (primary', replicas') := PromoteAll(primary, replicas, parts);
      && replicas'[p] == replicas[p][m..]
      && primary'[p] == if m == 0 then primary[p] else replicas[p][m - 1]
  {
    if parts != [] {
      var init: seq<nat> := parts[..|parts| - 1];
      var last := parts[|parts| - 1];
      PromotedAre(primary, replicas, init, p);
      assert parts == init + [last];
      assert multiset(parts)[p] == multiset(init)[p] + if p == last then 1 else 0;
    }
  }

  /** After the left node's partitions were promoted one still names it exactly when the last replica used
      for it is that node, or none was used and that node was its primary. */
  lemma StillNamedIff(primary: seq<nat>, replicas: seq<seq<nat>>, parts: seq<nat>, p: nat, id: nat)
    requires |primary| == |replicas| && p < |primary| && Exist(parts, |primary|)
    ensures var m := Used(replicas, parts, p);
      PromoteAll(primary, replicas, parts).0[p] == id
      <==> (m > 0 && replicas[p][m - 1] == id) || (m == 0 && primary[p] == id)
  {
    PromotedAre(primary, replicas, parts, p);
  }

  /** So a partition without replicas goes on naming the node that left. */
  lemma OrphanNamesTheLeft(id: nat)
    ensures PromoteAll([id], [[]], [0]) == ([id], [[]])
  {
    assert [0][..0] == [];
  }

  /** The first n nodes are drained. */
  predicate Drained(nodes: seq<Node>, n: nat, target: nat) {
    forall k | 0 <= k < n && k < |nodes| :: nodes[k].dead || Count(nodes[k]) <= target + 1
  }

  class Cluster {
    var leader: bool
    var nodes: seq<Node>
    var primary: seq<nat>
    var replicas: seq<seq<nat>>
    const factor: nat
    var rebalances: nat

    method GetNode(id: nat) returns (k: nat)
      ensures k == PlaceOf(nodes, id)
    {
      k := 0;
      while k < |nodes| && nodes[k].id != id
        invariant k <= |nodes| && forall i | 0 <= i < k :: nodes[i].id != id
      {
        k := k + 1;
      }
    }

    /** Make a node primary or replica of a partition, and add the partition to the node's list. */
    method Assign(p: nat, id: nat, isPrimary: bool)
      requires |replicas| == |primary|
      modifies `nodes, `primary, `replicas
      ensures |replicas| == |primary| == |old(primary)|
      ensures primary == if p < |old(primary)| && isPrimary then old(primary)[p := id] else old(primary)
      ensures replicas == if p < |old(replicas)| && !isPrimary && |old(replicas)[p]| < factor
                          then old(replicas)[p := old(replicas)[p] + [id]] else old(replicas)
      ensures var k := PlaceOf(old(nodes), id);
        nodes == if p < |primary| && k < |old(nodes)| then old(nodes)[k := Grown(old(nodes)[k], p)] else old(nodes)
    {
      if p >= |primary| {
        return;
      }
      if isPrimary {
        primary := primary[p := id];
      } else if |replicas[p]| < factor {
        replicas := replicas[p := replicas[p] + [id]];
      }
      var k := GetNode(id);
      if k < |nodes| {
        nodes := nodes[k := Grown(nodes[k], p)];
      }
    }

    method CountLive() returns (live: nat)
      ensures live == Sum(nodes, Live())
    {
      live := 0;
      for i := 0 to |nodes|
        invariant live == Sum(nodes[..i], Live())
      {
        assert nodes[..i + 1][..i] == nodes[..i];
        if !nodes[i].dead {
          live := live + 1;
        }
      }
      assert nodes[..|nodes|] == nodes;
    }

    /** The first live node below target, or none. */
    method FindUnderloaded(target: nat) returns (j: nat)
      ensures j <= |nodes| && (j < |nodes| ==> !nodes[j].dead && Count(nodes[j]) < target)
      ensures j == |nodes| <==> Room(nodes, target) == 0
    {
      SumIsPositive(nodes, Under(target));
      j := 0;
      while j < |nodes|
        invariant j <= |nodes| && forall i | 0 <= i < j :: nodes[i].dead || Count(nodes[i]) >= target
      {
        if !nodes[j].dead && Count(nodes[j]) < target {
          assert Under(target)(nodes[j]) > 0;
          return;
        }
        j := j + 1;
      }
    }

    method MoveOne(i: nat, j: nat)
      requires DistinctIds(nodes) && CanMove(nodes, i, j) && Moved(nodes, i) < |primary| == |replicas|
      modifies `nodes, `primary, `replicas
      ensures nodes == Move(old(nodes), i, j)
      ensures primary == old(primary[Moved(nodes, i) := nodes[j].id]) && replicas == old(replicas)
    {
      var p := nodes[i].parts[|nodes[i].parts| - 1];
      nodes := nodes[i := Cut(nodes[i])];
      Assign(p, nodes[j].id, true);
    }

    /** One pass over the nodes for a taker of the next partition of node i. */
    method DrainStep(i: nat, target: nat, moved: nat, ghost was: seq<Node>, ghost before: seq<nat>) returns (found: bool)
      requires RunState(was, nodes, before, primary, target, moved) && Drained(nodes, i, target)
      requires i < |nodes| && !nodes[i].dead && Count(nodes[i]) > target + 1 && |replicas| == |primary|
      modifies `nodes, `primary, `replicas
      ensures |nodes| == |old(nodes)| && |replicas| == |primary| && replicas == old(replicas)
      ensures RunState(was, nodes, before, primary, target, if found then moved + 1 else moved)
      ensures found ==> Drained(nodes, i, target) && !nodes[i].dead && Count(nodes[i]) == Count(old(nodes)[i]) - 1
      ensures !found ==> Room(nodes, target) == 0 && Excess(nodes, target) > 0
    {
      var j := FindUnderloaded(target);
      if j == |nodes| {
        assert Over(target)(nodes[i]) > 0;
        SumIsPositive(nodes, Over(target));
        return false;
      }
      MoveKeepsRunState(was, nodes, before, primary, target, moved, i, j);
      MoveOne(i, j);
      return true;
    }

    /** Drain node i down to target + 1; `hung` when nobody can take the next partition. */
    method Drain(i: nat, target: nat, already: nat, ghost was: seq<Node>, ghost before: seq<nat>)
      returns (moved: nat, hung: bool)
      requires RunState(was, nodes, before, primary, target, already) && Drained(nodes, i, target)
      requires i < |nodes| && !nodes[i].dead && |replicas| == |primary|
      modifies `nodes, `primary, `replicas
      ensures RunState(was, nodes, before, primary, target, moved) && |replicas| == |primary| && replicas == old(replicas)
      ensures hung ==> Room(nodes, target) == 0 && Excess(nodes, target) > 0
      ensures !hung ==> Drained(nodes, i + 1, target)
    {
      moved, hung := already, false;
      while Count(nodes[i]) > target + 1
        invariant RunState(was, nodes, before, primary, target, moved)
        invariant |replicas| == |primary| && replicas == old(replicas)
        invariant |nodes| == |old(nodes)| && !nodes[i].dead && Drained(nodes, i, target)
        decreases Count(nodes[i])
      {
        var found := DrainStep(i, target, moved, was, before);
        if !found {
          return moved, true;
        }
        moved := moved + 1;
      }
    }

    /** Rebalance. Unless it hangs it moves exactly the excess and leaves no live node above
        target + 1; it hangs exactly when the excess is more than the room. */
    method RebalancePartitions() returns (moved: nat, hung: bool)
      requires DistinctIds(nodes) && Listed(nodes, |primary|) && |replicas| == |primary|
      modifies this
      ensures leader == old(leader) && |primary| == |old(primary)| && replicas == old(replicas)
      ensures Held(nodes) == Held(old(nodes)) && Renamed(nodes, old(primary), primary)
      ensures old(Placed(nodes, primary)) ==> Placed(nodes, primary)
      ensures rebalances == old(rebalances) + (if leader then 1 else 0)
      ensures !leader || Sum(old(nodes), Live()) == 0 ==> moved == 0 && !hung && nodes == old(nodes)
      ensures leader && Sum(old(nodes), Live()) > 0 ==>
        var target := Target(old(nodes), |primary|);
        && Follows(old(nodes), nodes, target)
        && (hung <==> Excess(old(nodes), target) > Room(old(nodes), target))
        && (hung ==> moved == Room(old(nodes), target))
        && (!hung ==> moved == Excess(old(nodes), target) && Drained(nodes, |nodes|, target))
    {
      moved, hung := 0, false;
      if !leader {
        return;
      }
      rebalances := rebalances + 1;
      var healthy := CountLive();
      if healthy == 0 {
        return;
      }
      assert |primary| / healthy == Target(nodes, |primary|);
      moved, hung := DrainAll(|primary| / healthy);
    }

    /** For each partition on the list of the left node the first replica becomes primary. */
    method PromoteReplicas(left: nat)
      requires left < |nodes| && Exist(nodes[left].parts, |primary|) && |replicas| == |primary|
      modifies `primary, `replicas
      ensures (primary, replicas) == PromoteAll(old(primary), old(replicas), nodes[left].parts)
    {
      var parts := nodes[left].parts;
      for i := 0 to |parts|
        invariant (primary, replicas) == PromoteAll(old(primary), old(replicas), parts[..i])
      {
        assert parts[..i + 1][..i] == parts[..i];
        var p := parts[i];
        if |replicas[p]| > 0 {
          primary := primary[p := replicas[p][0]];
          replicas := replicas[p := replicas[p][1..]];
        }
      }
      assert parts[..|parts|] == parts;
    }

    /** A node has left: its partitions are promoted, its list stays, the others rebalance. */
    method RebalanceOnLeave(left: nat) returns (moved: nat, hung: bool)
      requires DistinctIds(nodes) && Listed(nodes, |primary|) && |replicas| == |primary|
      requires left < |nodes| && Exist(nodes[left].parts, |primary|)
      modifies this
      ensures leader == old(leader) && Held(nodes) == Held(old(nodes))
      ensures rebalances == old(rebalances) + (if leader then 1 else 0)
      ensures !leader ==> primary == old(primary) && replicas == old(replicas)
      ensures !leader || Sum(old(nodes), Live()) == 0 ==> moved == 0 && !hung && nodes == old(nodes)
      ensures leader ==>
        var (promoted, rest) := PromoteAll(old(primary), old(replicas), old(nodes)[left].parts);
        replicas == rest && Renamed(nodes, promoted, primary)
      ensures leader && Sum(old(nodes), Live()) > 0 ==>
        var target := Target(old(nodes), |primary|);
        && Follows(old(nodes), nodes, target)
        && (hung <==> Excess(old(nodes), target) > Room(old(nodes), target))
        && (hung ==> moved == Room(old(nodes), target))
        && (!hung ==> moved == Excess(old(nodes), target) && Drained(nodes, |nodes|, target))
    {
      if !leader {
        return 0, false;
      }
      PromoteReplicas(left);
      moved, hung := RebalancePartitions();
    }

    method DrainAll(target: nat) returns (moved: nat, hung: bool)
      requires DistinctIds(nodes) && Listed(nodes, |primary|) && |replicas| == |primary|
      modifies `nodes, `primary, `replicas
      ensures RunState(old(nodes), nodes, old(primary), primary, target, moved) && replicas == old(replicas)
      ensures hung ==> Room(nodes, target) == 0 && Excess(nodes, target) > 0
      ensures !hung ==> Excess(nodes, target) == 0 && Drained(nodes, |nodes|, target)
    {
      moved, hung := 0, false;
      var i := 0;
      while i < |nodes|
        invariant i <= |nodes| == |old(nodes)| && |replicas| == |primary| && replicas == old(replicas)
        invariant RunState(old(nodes), nodes, old(primary), primary, target, moved) && Drained(nodes, i, target)
      {
        if !nodes[i].dead {
          moved, hung := Drain(i, target, moved, old(nodes), old(primary));
          if hung {
            return;
          }
        }
        i := i + 1;
      }
      SumIsPositive(nodes, Over(target));
    }
  }
}
