/** What Raft runs achieve: elections that can be won, commands that arrive in logs, entries that commit. */
module RaftProgress {
  import opened RaftNodeModel
  import opened RaftSafety
  import opened RaftRuns
  import opened VoteReplies

  // ----- A candidate with a new enough log can be elected -------------------------------

  /** The node will vote for the request: it waits for messages, has seen no such term and has no newer log. */
  predicate WillVote(n: Node, req: VoteRequest) {
    !n.inElection && n.term < req.term && UpToDate(LastTerm(n.log), LastIndex(n.log), req.lastTerm, req.lastIndex)
  }

  predicate Distinct(s: seq<nat>) {
    forall i, j | 0 <= i < j < |s| :: s[i] != s[j]
  }

  /** Node i stands for election with this request, and none of these voters has been asked. */
  ghost predicate Campaigning(c: Cluster, i: nat, req: VoteRequest, voters: seq<nat>) {
    && |c.counted| == |c.nodes| && c.layout.Valid() && i < |c.nodes|
    && c.nodes[i].inElection && req == RequestOf(c.nodes[i]) && req in c.requests
    && Distinct(voters)
    && forall v <- voters :: v < |c.nodes| && v != i && v !in c.counted[i] && WillVote(c.nodes[v], req)
  }

  /** Each voter handles the request, and its reply comes back. */
  function Asking(i: nat, req: VoteRequest, voters: seq<nat>): seq<Step> {
    if voters == [] then []
    else [Vote(voters[0], req)] + ([Count(i, voters[0], Padded(true), Ones())] + Asking(i, req, voters[1..]))
  }

  lemma RunFront(c: Cluster, s: Step, rest: seq<Step>)
    requires |c.counted| == |c.nodes| && Enabled(c, s) && IsRun(Do(c, s), rest)
    ensures IsRun(c, [s] + rest) && Exec(c, [s] + rest) == Exec(Do(c, s), rest)
  {
    assert ([s] + rest)[1..] == rest;
  }

  lemma VoterGrants(c: Cluster, i: nat, req: VoteRequest, v: nat)
    requires Campaigning(c, i, req, [v])
    ensures v < |c.nodes| && Enabled(c, Vote(v, req))
    ensures var d := Do(c, Vote(v, req));
      && d == c.(nodes := c.nodes[v := d.nodes[v]], grants := d.grants)
      && HasGranted(d, v, c.nodes[i].term, c.nodes[i].id)
  {
    assert v in [v];
    VoteIsGrantedIff(c.nodes[v], req);
    var d := Do(c, Vote(v, req));
    var n := d.nodes[v];
    assert Grant(v, n.term, req.sender, LastTerm(n.log), LastIndex(n.log)) in d.grants;
  }

  lemma ReplyCounts(c: Cluster, i: nat, v: nat)
    requires |c.counted| == |c.nodes| && c.layout.Valid() && i < |c.nodes| && c.nodes[i].inElection
    requires v < |c.nodes| && v !in c.counted[i] && HasGranted(c, v, c.nodes[i].term, c.nodes[i].id)
    ensures Enabled(c, Count(i, v, Padded(true), Ones()))
    ensures Do(c, Count(i, v, Padded(true), Ones())) ==
      c.(nodes := c.nodes[i := c.nodes[i].(votes := c.nodes[i].votes + 1)],
         counted := c.counted[i := c.counted[i] + {v}])
  {
    ReadsAsGranted(c.layout, true);
  }

  lemma AskOne(c: Cluster, i: nat, req: VoteRequest, voters: seq<nat>)
    requires Campaigning(c, i, req, voters) && voters != []
    ensures voters[0] < |c.nodes| && Enabled(c, Vote(voters[0], req))
    ensures var d := Do(c, Vote(voters[0], req));
      Enabled(d, Count(i, voters[0], Padded(true), Ones())) &&
      var e := Do(d, Count(i, voters[0], Padded(true), Ones()));
      && |e.nodes| == |c.nodes| && Campaigning(e, i, req, voters[1..])
      && e.nodes[i] == c.nodes[i].(votes := c.nodes[i].votes + 1)
  {
    var v := voters[0];
    VoterGrants(c, i, req, v);
    var d := Do(c, Vote(v, req));
    ReplyCounts(d, i, v);
    var rest := voters[1..];
    forall u | u in rest ensures u in voters && u != v {
      var k :| 0 <= k < |rest| && rest[k] == u;
      assert voters[k + 1] == u;
    }
  }

  lemma {:induction false} AskingGathers(c: Cluster, i: nat, req: VoteRequest, voters: seq<nat>)
    requires Campaigning(c, i, req, voters)
    ensures IsRun(c, Asking(i, req, voters))
    ensures var d := Exec(c, Asking(i, req, voters));
      |d.nodes| == |c.nodes| && d.nodes[i] == c.nodes[i].(votes := c.nodes[i].votes + |voters|)
    decreases |voters|
  {
    if voters != [] {
      AskOne(c, i, req, voters);
      var d := Do(c, Vote(voters[0], req));
      var count := Count(i, voters[0], Padded(true), Ones());
      AskingGathers(Do(d, count), i, req, voters[1..]);
      RunFront(d, count, Asking(i, req, voters[1..]));
      RunFront(c, Vote(voters[0], req), [count] + Asking(i, req, voters[1..]));
    }
  }

  /** Stand for election, ask these voters, close the election. */
  function Campaign(n: Node, i: nat, voters: seq<nat>): seq<Step> {
    [Begin(i)] + (Asking(i, RequestOf(BeginElection(n)), voters) + [Finish(i)])
  }

  lemma StandsWithRequest(c: Cluster, i: nat, voters: seq<nat>)
    requires |c.counted| == |c.nodes| && c.layout.Valid() && Enabled(c, Begin(i)) && Distinct(voters)
    requires forall v <- voters :: v < |c.nodes| && v != i && WillVote(c.nodes[v], RequestOf(BeginElection(c.nodes[i])))
    ensures Campaigning(Do(c, Begin(i)), i, RequestOf(BeginElection(c.nodes[i])), voters)
    ensures Do(c, Begin(i)).nodes[i] == BeginElection(c.nodes[i])
  {
  }

  /** From every reachable cluster: a node outside an election whose log is at least as new as those of the
      other members of a majority, none of which has seen the next term or is inside an election, is
      elected leader of that term by a run of their votes alone, whichever bytes of the replies travel. */
  lemma ElectionCanBeWon(c0: Cluster, before: seq<Step>, i: nat, voters: seq<nat>)
    requires Init(c0) && IsRun(c0, before) && Enabled(Exec(c0, before), Begin(i))
    requires Distinct(voters) && 1 + |voters| >= Majority(|Exec(c0, before).nodes|)
    requires var c := Exec(c0, before); forall v <- voters ::
      v < |c.nodes| && v != i && WillVote(c.nodes[v], RequestOf(BeginElection(c.nodes[i])))
    ensures var c := Exec(c0, before);
      IsRun(c, Campaign(c.nodes[i], i, voters)) &&
      var d := Exec(c, Campaign(c.nodes[i], i, voters));
      && |d.nodes| == |c.nodes| && d.nodes[i].role == Leader && d.nodes[i].leader == c.nodes[i].id
      && d.nodes[i].term == c.nodes[i].term + 1 && d.nodes[i].log == c.nodes[i].log && !d.nodes[i].inElection
  {
    InitInv(c0);
    RunKeepsInv(c0, before);
    var c := Exec(c0, before);
    var req := RequestOf(BeginElection(c.nodes[i]));
    StandsWithRequest(c, i, voters);
    AskingGathers(Do(c, Begin(i)), i, req, voters);
    RunGrows(Do(c, Begin(i)), Asking(i, req, voters), Finish(i));
    RunFront(c, Begin(i), Asking(i, req, voters) + [Finish(i)]);
  }

  /** The term of the last entry, 0 for a log without entries. */
  function EndTerm(log: seq<LogEntry>): Term {
    if |log| > 0 then log[|log| - 1].term else 0
  }

  /** In every run: a voter grants exactly if the request's term is not older, it has no other vote in that term,
      and the candidate's log ends in a later term, or in the same one with at least as many entries. */
  lemma VotesGoByTheLog(c0: Cluster, steps: seq<Step>, v: nat, req: VoteRequest)
    requires Init(c0) && IsRun(c0, steps) && v < |Exec(c0, steps).nodes|
    ensures var n := Exec(c0, steps).nodes[v];
      OnVoteRequest(n, req).1
      <==> && (req.term > n.term || (req.term == n.term && (n.votedFor == NOBODY || n.votedFor == req.sender)))
           && (req.lastTerm > EndTerm(n.log) || (req.lastTerm == EndTerm(n.log) && req.lastIndex >= |n.log|))
    ensures var n := Exec(c0, steps).nodes[v];
      RequestOf(n) == VoteRequest(n.id, n.term, |n.log|, EndTerm(n.log))
  {
    LogShape(c0, steps, v);
    VoteIsGrantedIff(Exec(c0, steps).nodes[v], req);
  }

  // ----- Logs hold what leaders were given ----------------------------------------------

  /** The terms and commands of a log. */
  function Contents(log: seq<LogEntry>): seq<(Term, seq<char>)> {
    seq(|log|, k requires 0 <= k < |log| => (log[k].term, log[k].command))
  }

  /** The commands given to node v while it led, with its term at the time. */
  ghost function Given(c: Cluster, steps: seq<Step>, v: nat): seq<(Term, seq<char>)>
    requires |c.counted| == |c.nodes| && IsRun(c, steps) && v < |c.nodes|
    decreases |steps|
  {
    if steps == [] then []
    else GivenNow(c.nodes[v], steps[0], v) + Given(Do(c, steps[0]), steps[1..], v)
  }

  function GivenNow(n: Node, s: Step, v: nat): seq<(Term, seq<char>)> {
    if s.Log? && s.v == v && n.role == Leader then [(n.term, s.command)] else []
  }

  lemma StepWrites(c: Cluster, s: Step, v: nat)
    requires |c.counted| == |c.nodes| && Enabled(c, s) && v < |c.nodes|
    ensures Contents(Do(c, s).nodes[v].log) == Contents(c.nodes[v].log) + GivenNow(c.nodes[v], s, v)
  {
    var before, after := c.nodes[v].log, Do(c, s).nodes[v].log;
    if s.Commit? && s.v == v {
      forall k | 0 <= k < |before| ensures Contents(after)[k] == Contents(before)[k] { }
    }
  }

  lemma {:induction false} LogGrowsByGiven(c: Cluster, steps: seq<Step>, v: nat)
    requires |c.counted| == |c.nodes| && IsRun(c, steps) && v < |c.nodes|
    ensures |Exec(c, steps).nodes| == |c.nodes|
    ensures Contents(Exec(c, steps).nodes[v].log) == Contents(c.nodes[v].log) + Given(c, steps, v)
    decreases |steps|
  {
    if steps != [] {
      StepWrites(c, steps[0], v);
      LogGrowsByGiven(Do(c, steps[0]), steps[1..], v);
    }
  }

  /** In every run a node's log holds exactly the commands given to it while it led, in order, each with the
      term in which it was given. */
  lemma LogHoldsTheCommands(c0: Cluster, steps: seq<Step>, v: nat)
    requires Init(c0) && IsRun(c0, steps) && v < |c0.nodes|
    ensures |Exec(c0, steps).nodes| == |c0.nodes|
    ensures Contents(Exec(c0, steps).nodes[v].log) == Given(c0, steps, v)
  {
    LogGrowsByGiven(c0, steps, v);
    assert c0.nodes[v].log == [];
  }

  /** In every run: only a leader takes a command; the answer is the place of the new entry, which carries the
      command, the node's term and its own place, uncommitted; everybody else answers -1 and changes nothing. */
  lemma AppendAnswersThePlace(c0: Cluster, steps: seq<Step>, v: nat, command: seq<char>)
    requires Init(c0) && IsRun(c0, steps) && v < |Exec(c0, steps).nodes|
    ensures var n := Exec(c0, steps).nodes[v];
      var (m, index) := AppendLog(n, command);
      if n.role == Leader then
        && 0 < index == |m.log| == |n.log| + 1 && m == n.(log := m.log) && m.log[..index - 1] == n.log
        && m.log[index - 1] == LogEntry(index, n.term, command, false)
        && (index > 1 ==> m.log[index - 2].index == index - 1)
      else index == -1 && m == n
  {
    LogShape(c0, steps, v);
  }

  // ----- Commits ------------------------------------------------------------------------

  /** In every run, a commit up to an index leaves committed exactly what was and the entries up to there;
      nothing else of the log changes. */
  lemma CommitReachesIndex(c0: Cluster, steps: seq<Step>, v: nat, index: nat)
    requires Init(c0) && IsRun(c0, steps) && v < |Exec(c0, steps).nodes|
    ensures Enabled(Exec(c0, steps), Commit(v, index))
    ensures var (n, m) := (Exec(c0, steps).nodes[v], Do(Exec(c0, steps), Commit(v, index)).nodes[v]);
      && |m.log| == |n.log| && m.commitIndex == index
      && forall k | 0 <= k < |n.log| ::
           m.log[k].(committed := false) == n.log[k].(committed := false)
           && (m.log[k].committed <==> n.log[k].committed || k < index)
  {
    LogShape(c0, steps, v);
  }

  /** The greatest commit index that a message or a commit ever named to node v. */
  function Named(steps: seq<Step>, v: nat): nat {
    if steps == [] then 0
    else
      var rest := Named(steps[1..], v);
      var now := match steps[0]
        case Append(u, req) => if u == v then req.leaderCommit else 0
        case Beat(u, msg) => if u == v then msg.commitIndex else 0
        case Commit(u, index) => if u == v then index else 0
        case _ => 0;
      if now > rest then now else rest
  }

  lemma {:induction false} CommitStaysNamed(c: Cluster, steps: seq<Step>, v: nat, bound: nat)
    requires |c.counted| == |c.nodes| && IsRun(c, steps) && v < |c.nodes|
    requires c.nodes[v].commitIndex <= bound && Named(steps, v) <= bound
    ensures |Exec(c, steps).nodes| == |c.nodes| && Exec(c, steps).nodes[v].commitIndex <= bound
    decreases |steps|
  {
    if steps != [] {
      CommitStaysNamed(Do(c, steps[0]), steps[1..], v, bound);
    }
  }

  /** In every run a node's commit index is never above all that was named to it. */
  lemma CommitIndexIsNamed(c0: Cluster, steps: seq<Step>, v: nat)
    requires Init(c0) && IsRun(c0, steps) && v < |c0.nodes|
    ensures |Exec(c0, steps).nodes| == |c0.nodes|
    ensures Exec(c0, steps).nodes[v].commitIndex <= Named(steps, v)
  {
    CommitStaysNamed(c0, steps, v, Named(steps, v));
  }
}
