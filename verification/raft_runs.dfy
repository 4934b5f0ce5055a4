/** What Raft runs can do: elections, two leaders after a misread reply, a commit index that falls. */
module RaftRuns {
  import opened RaftNodeModel
  import opened RaftSafety
  import opened VoteReplies

  /** One more step at the end of a run. */
  lemma {:induction false} RunGrows(c: Cluster, steps: seq<Step>, s: Step)
    requires |c.counted| == |c.nodes| && IsRun(c, steps) && Enabled(Exec(c, steps), s)
    ensures IsRun(c, steps + [s]) && Exec(c, steps + [s]) == Do(Exec(c, steps), s)
    decreases |steps|
  {
    if steps == [] {
      assert [] + [s] == [s] && [s][1..] == [];
    } else {
      RunGrows(Do(c, steps[0]), steps[1..], s);
      assert (steps + [s])[1..] == steps[1..] + [s];
    }
  }

  // ----- Elections do happen ----------------------------------------------------------

  function FreshNode(id: nat): Node {
    Node(id, 0, NOBODY, Follower, 0, [], 0, false, 0, 0)
  }

  function ThreeNodes(layout: Layout): Cluster {
    Cluster(layout, [FreshNode(1), FreshNode(2), FreshNode(3)], [{}, {}, {}], {}, {}, {})
  }

  function Asked(id: nat): VoteRequest {
    VoteRequest(id, 1, 0, 0)
  }

  /** A reply that reads as granted: because it is, or because the payload does not carry the flag. */
  function Heard(i: nat, granted: bool): Step {
    Count(i, 2, Padded(granted), Ones())
  }

  lemma ReadsAsGranted(l: Layout, granted: bool)
    requires l.Valid() && (granted || !Carries(l))
    ensures Counts(Answer(Received(l, Padded(granted), Ones())))
  {
    FlagArrivesIff(l);
    if !Carries(l) {
      MisreadAsGranted(l, granted);
    }
  }

  /** Nodes 1 and 2 stand for election, node 3 votes for node 1 and refuses node 2. */
  function Opening(): seq<Step> {
    [Begin(0), Begin(1), Vote(2, Asked(1)), Vote(2, Asked(2))]
  }

  function Standing(id: nat): Node {
    Node(id, 1, id, Candidate, 0, [], 1, true, 0, 0)
  }

  /** Where that leads. */
  function Opened(layout: Layout): Cluster {
    Cluster(layout, [Standing(1), Standing(2), FreshNode(3).(term := 1, votedFor := 1)], [{0}, {1}, {}],
            {Asked(1), Asked(2)}, {Grant(0, 1, 1, 0, 0), Grant(1, 1, 2, 0, 0), Grant(2, 1, 1, 0, 0)}, {})
  }

  /** Where the first two of these steps lead. */
  function BothStand(layout: Layout): Cluster {
    Opened(layout).(nodes := [Standing(1), Standing(2), FreshNode(3)],
                    grants := {Grant(0, 1, 1, 0, 0), Grant(1, 1, 2, 0, 0)})
  }

  lemma BothBegin(layout: Layout)
    requires layout.Valid()
    ensures Init(ThreeNodes(layout)) && IsRun(ThreeNodes(layout), [Begin(0), Begin(1)])
    ensures Exec(ThreeNodes(layout), [Begin(0), Begin(1)]) == BothStand(layout)
  {
    var c0 := ThreeNodes(layout);
    RunGrows(c0, [], Begin(0));
    var c1 := Do(c0, Begin(0));
    assert c1.nodes == [Standing(1), FreshNode(2), FreshNode(3)] && c1.counted == [{0}, {}, {}];
    RunGrows(c0, [Begin(0)], Begin(1));
    assert Do(c1, Begin(1)) == BothStand(layout);
  }

  lemma OpeningRuns(layout: Layout)
    requires layout.Valid()
    ensures Init(ThreeNodes(layout)) && IsRun(ThreeNodes(layout), Opening())
    ensures Exec(ThreeNodes(layout), Opening()) == Opened(layout)
  {
    var c0, c2 := ThreeNodes(layout), BothStand(layout);
    BothBegin(layout);
    RunGrows(c0, [Begin(0), Begin(1)], Vote(2, Asked(1)));
    var c3 := Opened(layout).(requests := c2.requests);
    assert Do(c2, Vote(2, Asked(1))).nodes == c3.nodes;
    RunGrows(c0, [Begin(0), Begin(1), Vote(2, Asked(1))], Vote(2, Asked(2)));
    assert Do(c3, Vote(2, Asked(2))).nodes == c3.nodes;
  }

  function Elected(id: nat): Win
    requires id > 0
  {
    Win(id, 1, {id - 1, 2}, 0, 0)
  }

  function Electing(): seq<Step> {
    Opening() + [Heard(0, true)] + [Finish(0)]
  }

  /** Where electing node 1 leads. */
  function Led(layout: Layout): Cluster {
    Opened(layout).(
      nodes := [Standing(1).(votes := 2, role := Leader, leader := 1, inElection := false), Standing(2),
                FreshNode(3).(term := 1, votedFor := 1)],
      counted := [{0, 2}, {1}, {}], wins := {Elected(1)})
  }

  /** The granted reply reaches node 1, which counts a second vote. */
  lemma SecondVote(layout: Layout)
    requires layout.Valid()
    ensures Enabled(Opened(layout), Heard(0, true))
    ensures Do(Opened(layout), Heard(0, true))
      == Opened(layout).(nodes := Opened(layout).nodes[0 := Standing(1).(votes := 2)], counted := [{0, 2}, {1}, {}])
  {
    ReadsAsGranted(layout, true);
    assert HasGranted(Opened(layout), 2, 1, 1) by {
      assert Grant(2, 1, 1, 0, 0) in Opened(layout).grants;
    }
    var c5 := Do(Opened(layout), Heard(0, true));
    assert c5.nodes[0] == Standing(1).(votes := 2) && c5.counted[0] == {0, 2};
    assert c5.nodes == Opened(layout).nodes[0 := c5.nodes[0]] && c5.counted == [{0, 2}, {1}, {}];
  }

  /** Node 1 then closes its election as leader. */
  lemma ARunThatElects(layout: Layout)
    requires layout.Valid()
    ensures Init(ThreeNodes(layout)) && IsRun(ThreeNodes(layout), Electing())
    ensures Exec(ThreeNodes(layout), Electing()) == Led(layout) && Led(layout).nodes[0].role == Leader
  {
    var c0 := ThreeNodes(layout);
    OpeningRuns(layout);
    SecondVote(layout);
    RunGrows(c0, Opening(), Heard(0, true));
    RunGrows(c0, Opening() + [Heard(0, true)], Finish(0));
    var c5 := Do(Opened(layout), Heard(0, true));
    assert Do(c5, Finish(0)).nodes == Led(layout).nodes;
  }

  /** Where the payload does not carry the flag, the refusal that reaches node 2 is counted as a vote, and
      node 2 leads the same term. */
  lemma TwoLeaders(layout: Layout)
    requires layout.Valid() && !Carries(layout)
    ensures var steps := Electing() + [Heard(1, false)] + [Finish(1)];
      && Init(ThreeNodes(layout)) && IsRun(ThreeNodes(layout), steps)
      && var c := Exec(ThreeNodes(layout), steps);
         |c.nodes| == 3 && c.wins == {Elected(1), Elected(2)} && c.nodes[0].role == c.nodes[1].role == Leader
  {
    var c0, c6 := ThreeNodes(layout), Led(layout);
    ARunThatElects(layout);
    ReadsAsGranted(layout, false);
    RunGrows(c0, Electing(), Heard(1, false));
    var c7 := Do(c6, Heard(1, false));
    assert c7.nodes[1] == Standing(2).(votes := 2) && c7.counted[1] == {1, 2};
    RunGrows(c0, Electing() + [Heard(1, false)], Finish(1));
  }

  /** Every run of every cluster whose replies travel with this layout elects at most one node a term. */
  ghost predicate AlwaysSafe(layout: Layout) {
    forall c0, steps, w1, w2 |
      && Init(c0) && c0.layout == layout && IsRun(c0, steps)
      && w1 in Exec(c0, steps).wins && w2 in Exec(c0, steps).wins && w1.term == w2.term ::
      w1.cand == w2.cand
  }

  /** Election safety holds over all runs exactly when the payload of the vote reply carries the reply from
      its first byte to its flag. */
  lemma ElectionSafetyIff(layout: Layout)
    requires layout.Valid()
    ensures AlwaysSafe(layout) <==> Carries(layout)
  {
    if Carries(layout) {
      forall c0, steps, w1, w2 |
        && Init(c0) && c0.layout == layout && IsRun(c0, steps)
        && w1 in Exec(c0, steps).wins && w2 in Exec(c0, steps).wins && w1.term == w2.term
        ensures w1.cand == w2.cand
      {
        ElectionSafety(c0, steps, w1, w2);
      }
    } else {
      TwoLeaders(layout);
      assert Elected(1).cand != Elected(2).cand;
    }
  }

  /** With the one byte that the voter's handler announces, wherever it is taken from, it does not. */
  lemma AnnouncedReplyIsUnsafe(from: nat)
    requires Layout(from, 1).Valid()
    ensures !AlwaysSafe(Layout(from, 1))
  {
    ElectionSafetyIff(Layout(from, 1));
  }

  // ----- The commit index -------------------------------------------------------------

  /** Where the commit index falls: in an accepted append that names a higher one, if the node's own is
      beyond its log, and in a commit that names a lower one. */
  predicate Lowers(n: Node, s: Step) {
    match s
    case Append(_, req) => Accepted(n, req) && req.leaderCommit > n.commitIndex > |n.log|
    case Commit(_, index) => index < n.commitIndex
    case _ => false
  }

  function Target(s: Step): nat {
    match s
    case Begin(i) => i
    case Count(i, _, _, _) => i
    case Finish(i) => i
    case Vote(v, _) => v
    case Append(v, _) => v
    case Beat(v, _) => v
    case Log(v, _) => v
    case Commit(v, _) => v
  }

  lemma CommitIndexFallsIff(c: Cluster, s: Step, v: nat)
    requires |c.counted| == |c.nodes| && Enabled(c, s) && v < |c.nodes|
    ensures Do(c, s).nodes[v].commitIndex < c.nodes[v].commitIndex <==> Target(s) == v && Lowers(c.nodes[v], s)
  {
  }

  /** The cluster after the first k steps. */
  ghost function After(c: Cluster, steps: seq<Step>, k: nat): (r: Cluster)
    requires |c.counted| == |c.nodes| && IsRun(c, steps) && k <= |steps|
    ensures |r.counted| == |r.nodes| == |c.nodes|
    decreases k
  {
    if k == 0 then c else After(Do(c, steps[0]), steps[1..], k - 1)
  }

  lemma {:induction false} NextAfter(c: Cluster, steps: seq<Step>, k: nat)
    requires |c.counted| == |c.nodes| && IsRun(c, steps) && k < |steps|
    ensures Enabled(After(c, steps, k), steps[k]) && After(c, steps, k + 1) == Do(After(c, steps, k), steps[k])
    decreases k
  {
    if k > 0 {
      NextAfter(Do(c, steps[0]), steps[1..], k - 1);
    }
  }

  ghost function CommitAt(c: Cluster, steps: seq<Step>, v: nat, k: nat): nat
    requires |c.counted| == |c.nodes| && IsRun(c, steps) && k <= |steps| && v < |c.nodes|
  {
    After(c, steps, k).nodes[v].commitIndex
  }

  ghost predicate LowersAt(c: Cluster, steps: seq<Step>, v: nat, k: nat)
    requires |c.counted| == |c.nodes| && IsRun(c, steps) && k < |steps| && v < |c.nodes|
  {
    Target(steps[k]) == v && Lowers(After(c, steps, k).nodes[v], steps[k])
  }

  lemma CommitStep(c: Cluster, steps: seq<Step>, v: nat, k: nat)
    requires |c.counted| == |c.nodes| && IsRun(c, steps) && k < |steps| && v < |c.nodes|
    ensures CommitAt(c, steps, v, k + 1) < CommitAt(c, steps, v, k) <==> LowersAt(c, steps, v, k)
  {
    NextAfter(c, steps, k);
    CommitIndexFallsIff(After(c, steps, k), steps[k], v);
  }

  lemma {:induction false} NeverLowered(c: Cluster, steps: seq<Step>, v: nat, i: nat, j: nat)
    requires |c.counted| == |c.nodes| && IsRun(c, steps) && i <= j <= |steps| && v < |c.nodes|
    requires forall k: nat | k < |steps| :: !LowersAt(c, steps, v, k)
    ensures CommitAt(c, steps, v, i) <= CommitAt(c, steps, v, j)
    decreases j
  {
    if i < j {
      NeverLowered(c, steps, v, i, j - 1);
      CommitStep(c, steps, v, j - 1);
    }
  }

  /** Over a run a node's commit index never falls exactly when no step of the run is one that lowers it. */
  lemma CommitIndexIsMonotoneIff(c: Cluster, steps: seq<Step>, v: nat)
    requires |c.counted| == |c.nodes| && IsRun(c, steps) && v < |c.nodes|
    ensures (forall i: nat, j: nat | i <= j <= |steps| :: CommitAt(c, steps, v, i) <= CommitAt(c, steps, v, j))
      <==> forall k: nat | k < |steps| :: !LowersAt(c, steps, v, k)
  {
    if forall k: nat | k < |steps| :: !LowersAt(c, steps, v, k) {
      forall i: nat, j: nat | i <= j <= |steps| ensures CommitAt(c, steps, v, i) <= CommitAt(c, steps, v, j) {
        NeverLowered(c, steps, v, i, j);
      }
    } else {
      var k: nat :| k < |steps| && LowersAt(c, steps, v, k);
      CommitStep(c, steps, v, k);
    }
  }

  /** A heartbeat names commit index 5 to a node without a log; an append request that names 6 takes it back
      to 0. */
  lemma CommitIndexCanFall(layout: Layout)
    requires layout.Valid()
    ensures var steps := [Beat(0, Heartbeat(2, 0, 5)), Append(0, AppendRequest(2, 0, 0, 0, 6))];
      && Init(ThreeNodes(layout)) && IsRun(ThreeNodes(layout), steps)
      && CommitAt(ThreeNodes(layout), steps, 0, 1) == 5 && CommitAt(ThreeNodes(layout), steps, 0, 2) == 0
  {
    var c0 := ThreeNodes(layout);
    var beat, append := Beat(0, Heartbeat(2, 0, 5)), Append(0, AppendRequest(2, 0, 0, 0, 6));
    RunGrows(c0, [], beat);
    RunGrows(c0, [beat], append);
    assert [beat] + [append] == [beat, append] && [] + [beat] == [beat];
    NextAfter(c0, [beat, append], 0);
    NextAfter(c0, [beat, append], 1);
  }
}
