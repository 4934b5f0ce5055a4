/** Safety of leader election and of the log, over every run of a cluster. */
module RaftSafety {
  import opened RaftNodeModel
  import opened VoteReplies

  // The cluster is a fixed sequence of nodes. Vote requests, once sent, may be
  // handled by any node at any later time, any number of times or never; append
  // and heartbeat messages are arbitrary. A reply comes back on the request's own
  // socket: one that says granted was sent only if the peer granted this very
  // candidacy, one that says refused may come from any peer. What the candidate
  // counts is what it reads from the bytes of the reply. A node inside its election
  // loop handles no messages until it ends.

  /** Voter (a position in the cluster) gave its vote for `term` to `cand`; its own
      log ended at (ownTerm, ownIndex) when it did. */
  datatype Grant = Grant(voter: nat, term: Term, cand: nat, ownTerm: Term, ownIndex: nat)

  /** Node `cand` won `term` with the votes of `voters`; its log ended at (lastTerm, lastIndex). */
  datatype Win = Win(cand: nat, term: Term, voters: set<nat>, lastTerm: Term, lastIndex: nat)

  /** `counted[i]` is the set of nodes node i has counted in its current election.
      `requests`, `grants` and `wins` record everything that ever happened. `layout` says which
      bytes of a vote reply travel. */
  datatype Cluster = Cluster(
    layout: Layout,
    nodes: seq<Node>,
    counted: seq<set<nat>>,
    requests: set<VoteRequest>,
    grants: set<Grant>,
    wins: set<Win>)

  datatype Step =
    | Begin(i: nat)
    | Count(i: nat, peer: nat, response: Response, behind: Memory)
    | Finish(i: nat)
    | Vote(v: nat, req: VoteRequest)
    | Append(v: nat, areq: AppendRequest)
    | Beat(v: nat, msg: Heartbeat)
    | Log(v: nat, command: seq<char>)
    | Commit(v: nat, index: nat)

  // ----- Steps ----------------------------------------------------------------

  ghost predicate HasGranted(c: Cluster, voter: nat, term: Term, cand: nat) {
    exists g <- c.grants :: g.voter == voter && g.term == term && g.cand == cand
  }

  ghost predicate Enabled(c: Cluster, s: Step)
    requires |c.counted| == |c.nodes|
  {
    match s
    case Begin(i) =>
      i < |c.nodes| && !c.nodes[i].inElection && c.nodes[i].term < U64_MAX
    case Count(i, peer, response, _) =>
      && i < |c.nodes| && c.nodes[i].inElection
      && peer < |c.nodes| && peer !in c.counted[i]
      && c.layout.Valid() && response.Valid()
      && (response.granted ==> HasGranted(c, peer, c.nodes[i].term, c.nodes[i].id))
    case Finish(i) => i < |c.nodes| && c.nodes[i].inElection
    case Vote(v, req) => v < |c.nodes| && !c.nodes[v].inElection && req in c.requests
    case Append(v, _) => v < |c.nodes| && !c.nodes[v].inElection
    case Beat(v, _) => v < |c.nodes| && !c.nodes[v].inElection
    case Log(v, _) => v < |c.nodes|
    case Commit(v, _) => v < |c.nodes| && c.nodes[v].lastApplied <= |c.nodes[v].log|
  }

  ghost function Do(c: Cluster, s: Step): (c': Cluster)
    requires |c.counted| == |c.nodes| && Enabled(c, s)
    ensures |c'.counted| == |c'.nodes| == |c.nodes|
  {
    match s
    case Begin(i) =>
      var n := BeginElection(c.nodes[i]);
      c.(nodes := c.nodes[i := n],
         counted := c.counted[i := {i}],
         requests := c.requests + {RequestOf(n)},
         grants := c.grants + {Grant(i, n.term, n.id, LastTerm(n.log), LastIndex(n.log))})
    case Count(i, peer, response, behind) =>
      var reply := Answer(Received(c.layout, response, behind));
      c.(nodes := c.nodes[i := CountReply(c.nodes[i], reply)],
         counted := c.counted[i := if Counts(reply) then c.counted[i] + {peer} else c.counted[i]])
    case Finish(i) =>
      var n := FinishElection(c.nodes[i], |c.nodes|);
      c.(nodes := c.nodes[i := n],
         wins := if n.role == Leader
                 then c.wins + {Win(n.id, n.term, c.counted[i], LastTerm(n.log), LastIndex(n.log))}
                 else c.wins)
    case Vote(v, req) =>
      var (n, granted) := OnVoteRequest(c.nodes[v], req);
      c.(nodes := c.nodes[v := n],
         grants := if granted
                   then c.grants + {Grant(v, n.term, req.sender, LastTerm(n.log), LastIndex(n.log))}
                   else c.grants)
    case Append(v, areq) => c.(nodes := c.nodes[v := OnAppendEntries(c.nodes[v], areq).0])
    case Beat(v, msg) => c.(nodes := c.nodes[v := OnHeartbeat(c.nodes[v], msg)])
    case Log(v, command) => c.(nodes := c.nodes[v := AppendLog(c.nodes[v], command).0])
    case Commit(v, index) => c.(nodes := c.nodes[v := CommitTo(c.nodes[v], index)])
  }

  ghost predicate Init(c: Cluster) {
    && |c.counted| == |c.nodes|
    && (forall i | 0 <= i < |c.nodes| ::
          c.nodes[i] == Node(c.nodes[i].id, 0, NOBODY, Follower, 0, [], 0, false, 0, 0))
    && DistinctIds(c) && c.layout.Valid()
    && c.requests == {} && c.grants == {} && c.wins == {}
  }

  /** Every step of the run is possible where it is taken. */
  ghost predicate IsRun(c: Cluster, steps: seq<Step>)
    requires |c.counted| == |c.nodes|
    decreases |steps|
  {
    steps == [] || (Enabled(c, steps[0]) && IsRun(Do(c, steps[0]), steps[1..]))
  }

  ghost function Exec(c: Cluster, steps: seq<Step>): (c': Cluster)
    requires |c.counted| == |c.nodes| && IsRun(c, steps)
    ensures |c'.counted| == |c'.nodes|
    decreases |steps|
  {
    if steps == [] then c else Exec(Do(c, steps[0]), steps[1..])
  }

  // ----- What every step keeps ------------------------------------------------

  ghost predicate DistinctIds(c: Cluster) {
    && (forall i | 0 <= i < |c.nodes| :: c.nodes[i].id != NOBODY)
    && (forall i, j | 0 <= i < j < |c.nodes| :: c.nodes[i].id != c.nodes[j].id)
  }

  /** Positions, terms and the applied prefix of one log agree. */
  ghost predicate LogOk(n: Node) {
    && n.lastApplied <= |n.log|
    && (forall k | 0 <= k < |n.log| ::
          && n.log[k].index == k + 1
          && n.log[k].term <= n.term
          && (n.log[k].committed <==> k < n.lastApplied))
    && (forall k, m | 0 <= k < m < |n.log| :: n.log[k].term <= n.log[m].term)
  }

  ghost predicate GrantOk(c: Cluster, g: Grant) {
    && g.voter < |c.nodes|
    && g.cand != NOBODY
    && g.term <= c.nodes[g.voter].term
    && (g.term == c.nodes[g.voter].term ==> c.nodes[g.voter].votedFor == g.cand)
  }

  /** The voter's log is no newer than the one the candidate asked with. */
  ghost predicate GrantAnswers(c: Cluster, g: Grant) {
    exists r <- c.requests :: r.sender == g.cand && r.term == g.term
      && UpToDate(g.ownTerm, g.ownIndex, r.lastTerm, r.lastIndex)
  }

  ghost predicate RequestOk(c: Cluster, r: VoteRequest) {
    exists i | 0 <= i < |c.nodes| :: c.nodes[i].id == r.sender
      && r.term <= c.nodes[i].term
      && (c.nodes[i].inElection && r.term == c.nodes[i].term ==> r == RequestOf(c.nodes[i]))
  }

  ghost predicate ElectionOk(c: Cluster, i: nat)
    requires i < |c.nodes| == |c.counted|
  {
    c.nodes[i].inElection ==>
      && c.nodes[i].role == Candidate
      && c.nodes[i].votes == |c.counted[i]|
      && (Carries(c.layout) ==>
            forall v <- c.counted[i] :: v < |c.nodes| && HasGranted(c, v, c.nodes[i].term, c.nodes[i].id))
  }

  /** A win has a majority of voters, each, if replies carry the flag, with a grant whose log is no newer
      than the winner's. */
  ghost predicate WinOk(c: Cluster, w: Win) {
    && |w.voters| >= Majority(|c.nodes|)
    && (Carries(c.layout) ==> forall v <- w.voters :: v < |c.nodes| && VotedBehind(c, v, w))
  }

  ghost predicate VotedBehind(c: Cluster, v: nat, w: Win) {
    exists g <- c.grants :: g.voter == v && g.term == w.term && g.cand == w.cand
      && UpToDate(g.ownTerm, g.ownIndex, w.lastTerm, w.lastIndex)
  }

  ghost predicate HasWon(c: Cluster, id: nat, term: Term) {
    exists w <- c.wins :: w.cand == id && w.term == term
  }

  /** Leaders and the authors of log entries won the terms concerned. */
  ghost predicate AuthorOk(c: Cluster, n: Node) {
    && (n.role == Leader ==> HasWon(c, n.id, n.term))
    && (forall k | 0 <= k < |n.log| :: HasWon(c, n.id, n.log[k].term))
  }

  ghost predicate NodesOk(c: Cluster)
    requires |c.counted| == |c.nodes|
  {
    forall i | 0 <= i < |c.nodes| :: LogOk(c.nodes[i]) && ElectionOk(c, i) && AuthorOk(c, c.nodes[i])
  }

  ghost predicate GrantsOk(c: Cluster) {
    && (forall g <- c.grants :: GrantOk(c, g) && GrantAnswers(c, g))
    && (forall g1 <- c.grants, g2 <- c.grants ::
          g1.voter == g2.voter && g1.term == g2.term ==> g1.cand == g2.cand)
  }

  ghost predicate RequestsOk(c: Cluster) {
    && (forall r <- c.requests :: RequestOk(c, r))
    && (forall r1 <- c.requests, r2 <- c.requests ::
          r1.sender == r2.sender && r1.term == r2.term ==> r1 == r2)
  }

  ghost predicate WinsOk(c: Cluster) {
    forall w <- c.wins :: WinOk(c, w)
  }

  ghost predicate Inv(c: Cluster) {
    && |c.counted| == |c.nodes| && c.layout.Valid()
    && DistinctIds(c) && NodesOk(c) && GrantsOk(c) && RequestsOk(c) && WinsOk(c)
  }

  lemma InitInv(c: Cluster)
    requires Init(c)
    ensures Inv(c)
  {
  }

  /** What every step has in common: one node changes, its term never falls, a vote cast in a
      term stays, an open election keeps its request, and history only grows. */
  ghost predicate Evolves(c: Cluster, c': Cluster, v: nat)
    requires |c.counted| == |c.nodes| && v < |c.nodes|
  {
    && |c'.nodes| == |c.nodes| == |c'.counted| && c'.layout == c.layout
    && (forall j | 0 <= j < |c.nodes| && j != v :: c'.nodes[j] == c.nodes[j] && c'.counted[j] == c.counted[j])
    && c'.nodes[v].id == c.nodes[v].id && c'.nodes[v].term >= c.nodes[v].term
    && (c'.nodes[v].term == c.nodes[v].term ==>
          c.nodes[v].votedFor == NOBODY || c'.nodes[v].votedFor == c.nodes[v].votedFor)
    && (c'.nodes[v].inElection ==>
          || c'.nodes[v].term > c.nodes[v].term
          || (c.nodes[v].inElection && RequestOf(c'.nodes[v]) == RequestOf(c.nodes[v])))
    && c.grants <= c'.grants && c.requests <= c'.requests && c.wins <= c'.wins
  }

  lemma OtherNodesSurvive(c: Cluster, c': Cluster, v: nat)
    requires Inv(c) && v < |c.nodes| && Evolves(c, c', v)
    requires LogOk(c'.nodes[v]) && ElectionOk(c', v) && AuthorOk(c', c'.nodes[v])
    ensures DistinctIds(c') && NodesOk(c')
  {
    forall j | 0 <= j < |c'.nodes| && j != v
      ensures LogOk(c'.nodes[j]) && ElectionOk(c', j) && AuthorOk(c', c'.nodes[j])
    {
      assert LogOk(c.nodes[j]) && ElectionOk(c, j) && AuthorOk(c, c.nodes[j]);
      WinsCarryOver(c, c', c.nodes[j]);
      if c.nodes[j].inElection && Carries(c.layout) {
        forall u <- c.counted[j] ensures HasGranted(c', u, c.nodes[j].term, c.nodes[j].id) {
          assert HasGranted(c, u, c.nodes[j].term, c.nodes[j].id);
        }
      }
    }
  }

  lemma WinsCarryOver(c: Cluster, c': Cluster, n: Node)
    requires c.wins <= c'.wins && AuthorOk(c, n)
    ensures AuthorOk(c', n)
  {
    forall k | 0 <= k < |n.log| ensures HasWon(c', n.id, n.log[k].term) {
      assert HasWon(c, n.id, n.log[k].term);
    }
  }

  lemma RequestSurvives(c: Cluster, c': Cluster, v: nat, r: VoteRequest)
    requires Inv(c) && v < |c.nodes| && Evolves(c, c', v) && r in c.requests
    ensures RequestOk(c', r)
  {
    assert RequestOk(c, r);
    var j :| 0 <= j < |c.nodes| && c.nodes[j].id == r.sender && r.term <= c.nodes[j].term
      && (c.nodes[j].inElection && r.term == c.nodes[j].term ==> r == RequestOf(c.nodes[j]));
    assert c'.nodes[j].id == r.sender;
  }

  lemma GrantSurvives(c: Cluster, c': Cluster, v: nat, g: Grant)
    requires Inv(c) && v < |c.nodes| && Evolves(c, c', v) && g in c.grants
    ensures GrantOk(c', g) && GrantAnswers(c', g)
  {
    assert GrantOk(c, g) && GrantAnswers(c, g);
  }

  lemma WinSurvives(c: Cluster, c': Cluster, v: nat, w: Win)
    requires Inv(c) && v < |c.nodes| && Evolves(c, c', v) && w in c.wins
    ensures WinOk(c', w)
  {
    assert WinOk(c, w);
    if Carries(c.layout) {
      forall u <- w.voters ensures u < |c'.nodes| && VotedBehind(c', u, w) {
        assert VotedBehind(c, u, w);
      }
    }
  }

  /** A step that adds no request, grant or win, and leaves node v well formed. */
  lemma QuietStep(c: Cluster, c': Cluster, v: nat)
    requires Inv(c) && v < |c.nodes| && Evolves(c, c', v)
    requires c'.grants == c.grants && c'.requests == c.requests && c'.wins == c.wins
    requires LogOk(c'.nodes[v]) && ElectionOk(c', v) && AuthorOk(c', c'.nodes[v])
    ensures Inv(c')
  {
    OtherNodesSurvive(c, c', v);
    forall r <- c'.requests ensures RequestOk(c', r) { RequestSurvives(c, c', v, r); }
    forall g <- c'.grants ensures GrantOk(c', g) && GrantAnswers(c', g) { GrantSurvives(c, c', v, g); }
    forall w <- c'.wins ensures WinOk(c', w) { WinSurvives(c, c', v, w); }
  }

  lemma BeginKeepsInv(c: Cluster, i: nat)
    requires Inv(c) && Enabled(c, Begin(i))
    ensures Inv(Do(c, Begin(i)))
  {
    var c' := Do(c, Begin(i));
    var n := c'.nodes[i];
    var mine := Grant(i, n.term, n.id, LastTerm(n.log), LastIndex(n.log));
    assert Evolves(c, c', i);
    assert LogOk(c.nodes[i]) && AuthorOk(c, c.nodes[i]);
    WinsCarryOver(c, c', c.nodes[i]);
    assert ElectionOk(c', i) by {
      assert mine in c'.grants;
      assert HasGranted(c', i, n.term, n.id);
    }
    OtherNodesSurvive(c, c', i);
    NewRequest(c, c', i);
    assert GrantsOk(c') by {
      assert RequestOf(n) in c'.requests;
      assert GrantAnswers(c', mine);
      forall g <- c.grants ensures GrantOk(c', g) && GrantAnswers(c', g) && (g.voter == i ==> g.term < n.term) {
        GrantSurvives(c, c', i, g);
        assert GrantOk(c, g);
      }
    }
    forall w <- c'.wins ensures WinOk(c', w) { WinSurvives(c, c', i, w); }
  }

  lemma NewRequest(c: Cluster, c': Cluster, i: nat)
    requires Inv(c) && i < |c.nodes| && Evolves(c, c', i) && c'.nodes[i].term > c.nodes[i].term
    requires c'.requests == c.requests + {RequestOf(c'.nodes[i])} && DistinctIds(c')
    ensures RequestsOk(c')
  {
    var n := c'.nodes[i];
    forall r <- c.requests ensures RequestOk(c', r) && (r.sender == n.id ==> r.term < n.term) {
      RequestSurvives(c, c', i, r);
      assert RequestOk(c, r);
    }
    assert RequestOk(c', RequestOf(n)) by { assert c'.nodes[i].id == RequestOf(n).sender; }
  }

  lemma CountedPeerGranted(c: Cluster, i: nat, peer: nat, response: Response, behind: Memory)
    requires |c.counted| == |c.nodes| && Enabled(c, Count(i, peer, response, behind))
    requires LogOk(c.nodes[i]) && AuthorOk(c, c.nodes[i]) && ElectionOk(c, i)
    ensures var c' := Do(c, Count(i, peer, response, behind));
      Evolves(c, c', i) && LogOk(c'.nodes[i]) && AuthorOk(c', c'.nodes[i]) && ElectionOk(c', i)
  {
    var c' := Do(c, Count(i, peer, response, behind));
    FlagArrivesIff(c.layout);
    assert Carries(c.layout) ==> ReadFlag(Received(c.layout, response, behind)) == response.granted;
    WinsCarryOver(c, c', c.nodes[i]);
    if Carries(c.layout) {
      forall u <- c'.counted[i] ensures u < |c.nodes| && HasGranted(c', u, c.nodes[i].term, c.nodes[i].id) {
        assert HasGranted(c, u, c.nodes[i].term, c.nodes[i].id);
      }
    }
  }

  lemma CountKeepsInv(c: Cluster, i: nat, peer: nat, response: Response, behind: Memory)
    requires Inv(c) && Enabled(c, Count(i, peer, response, behind))
    ensures Inv(Do(c, Count(i, peer, response, behind)))
  {
    CountedPeerGranted(c, i, peer, response, behind);
    QuietStep(c, Do(c, Count(i, peer, response, behind)), i);
  }

  /** When a candidate closes its election every counted voter's log is behind its own. */
  lemma CountedVotersAreBehind(c: Cluster, i: nat, v: nat)
    requires |c.counted| == |c.nodes| && DistinctIds(c) && GrantsOk(c) && RequestsOk(c) && Carries(c.layout)
    requires i < |c.nodes| && ElectionOk(c, i) && c.nodes[i].inElection && v in c.counted[i]
    ensures v < |c.nodes|
    ensures VotedBehind(c, v, Win(c.nodes[i].id, c.nodes[i].term, c.counted[i],
                                  LastTerm(c.nodes[i].log), LastIndex(c.nodes[i].log)))
  {
    assert HasGranted(c, v, c.nodes[i].term, c.nodes[i].id);
    var g :| g in c.grants && g.voter == v && g.term == c.nodes[i].term && g.cand == c.nodes[i].id;
    assert GrantAnswers(c, g);
    var r :| r in c.requests && r.sender == g.cand && r.term == g.term
      && UpToDate(g.ownTerm, g.ownIndex, r.lastTerm, r.lastIndex);
    OpenRequest(c, i, r);
  }

  lemma OpenRequest(c: Cluster, i: nat, r: VoteRequest)
    requires DistinctIds(c) && RequestOk(c, r)
    requires i < |c.nodes| && c.nodes[i].inElection && r.sender == c.nodes[i].id && r.term == c.nodes[i].term
    ensures r == RequestOf(c.nodes[i])
  {
  }

  lemma NewWinOk(c: Cluster, i: nat)
    requires Inv(c) && Enabled(c, Finish(i)) && FinishElection(c.nodes[i], |c.nodes|).role == Leader
    ensures WinOk(Do(c, Finish(i)),
                  Win(c.nodes[i].id, c.nodes[i].term, c.counted[i],
                      LastTerm(c.nodes[i].log), LastIndex(c.nodes[i].log)))
  {
    var c' := Do(c, Finish(i));
    var w0 := Win(c.nodes[i].id, c.nodes[i].term, c.counted[i],
                  LastTerm(c.nodes[i].log), LastIndex(c.nodes[i].log));
    assert ElectionOk(c, i);
    if Carries(c.layout) {
      forall v <- w0.voters ensures v < |c'.nodes| && VotedBehind(c', v, w0) {
        CountedVotersAreBehind(c, i, v);
        assert VotedBehind(c, v, w0);
      }
    }
  }

  lemma WinnerIsAuthor(c: Cluster, i: nat)
    requires |c.counted| == |c.nodes| && Enabled(c, Finish(i)) && AuthorOk(c, c.nodes[i]) && LogOk(c.nodes[i])
    requires ElectionOk(c, i)
    ensures AuthorOk(Do(c, Finish(i)), Do(c, Finish(i)).nodes[i])
    ensures LogOk(Do(c, Finish(i)).nodes[i]) && ElectionOk(Do(c, Finish(i)), i)
  {
    var c' := Do(c, Finish(i));
    var n := c'.nodes[i];
    WinsCarryOver(c, c', c.nodes[i]);
    assert n.role == Leader ==>
      Win(n.id, n.term, c.counted[i], LastTerm(n.log), LastIndex(n.log)) in c'.wins;
  }

  lemma FinishKeepsInv(c: Cluster, i: nat)
    requires Inv(c) && Enabled(c, Finish(i))
    ensures Inv(Do(c, Finish(i)))
  {
    var c' := Do(c, Finish(i));
    var n := c'.nodes[i];
    assert Evolves(c, c', i);
    WinnerIsAuthor(c, i);
    OtherNodesSurvive(c, c', i);
    forall r <- c'.requests ensures RequestOk(c', r) { RequestSurvives(c, c', i, r); }
    forall g <- c'.grants ensures GrantOk(c', g) && GrantAnswers(c', g) { GrantSurvives(c, c', i, g); }
    forall w <- c'.wins ensures WinOk(c', w) {
      if w in c.wins {
        WinSurvives(c, c', i, w);
      } else {
        NewWinOk(c, i);
      }
    }
  }

  lemma VoterEvolves(c: Cluster, v: nat, req: VoteRequest)
    requires |c.counted| == |c.nodes| && Enabled(c, Vote(v, req))
    requires LogOk(c.nodes[v]) && AuthorOk(c, c.nodes[v])
    ensures Evolves(c, Do(c, Vote(v, req)), v)
    ensures LogOk(Do(c, Vote(v, req)).nodes[v])
    ensures AuthorOk(Do(c, Vote(v, req)), Do(c, Vote(v, req)).nodes[v])
    ensures !Do(c, Vote(v, req)).nodes[v].inElection
  {
    WinsCarryOver(c, Do(c, Vote(v, req)), c.nodes[v]);
  }

  lemma SenderIsNode(c: Cluster, req: VoteRequest)
    requires DistinctIds(c) && RequestOk(c, req)
    ensures req.sender != NOBODY
  {
  }

  /** The vote recorded by a step: it answers a request that was really sent, ... */
  lemma NewGrantOk(c: Cluster, v: nat, req: VoteRequest, g: Grant)
    requires |c.counted| == |c.nodes| && Enabled(c, Vote(v, req)) && req.sender != NOBODY
    requires g in Do(c, Vote(v, req)).grants && g !in c.grants
    ensures GrantOk(Do(c, Vote(v, req)), g) && GrantAnswers(Do(c, Vote(v, req)), g)
    ensures g.voter == v && g.term == Do(c, Vote(v, req)).nodes[v].term
  {
    assert req in Do(c, Vote(v, req)).requests;
  }

  /** ... and no vote is cast twice in a term. */
  lemma NewGrant(c: Cluster, v: nat, req: VoteRequest)
    requires |c.counted| == |c.nodes| && Enabled(c, Vote(v, req)) && req.sender != NOBODY
    requires GrantsOk(c)
    requires forall g <- c.grants :: GrantOk(Do(c, Vote(v, req)), g) && GrantAnswers(Do(c, Vote(v, req)), g)
    ensures GrantsOk(Do(c, Vote(v, req)))
  {
    var c' := Do(c, Vote(v, req));
    forall g <- c'.grants | g !in c.grants
      ensures GrantOk(c', g) && GrantAnswers(c', g) && g.voter == v && g.term == c'.nodes[v].term
    {
      NewGrantOk(c, v, req, g);
    }
    forall g1 <- c'.grants, g2 <- c'.grants | g1.voter == g2.voter && g1.term == g2.term
      ensures g1.cand == g2.cand
    {
      if g1 !in c.grants || g2 !in c.grants {
        assert GrantOk(c', g1) && GrantOk(c', g2);
      }
    }
  }

  lemma VoteKeepsInv(c: Cluster, v: nat, req: VoteRequest)
    requires Inv(c) && Enabled(c, Vote(v, req))
    ensures Inv(Do(c, Vote(v, req)))
  {
    var c' := Do(c, Vote(v, req));
    VoterEvolves(c, v, req);
    OtherNodesSurvive(c, c', v);
    forall g <- c.grants ensures GrantOk(c', g) && GrantAnswers(c', g) { GrantSurvives(c, c', v, g); }
    SenderIsNode(c, req);
    NewGrant(c, v, req);
    forall r <- c'.requests ensures RequestOk(c', r) { RequestSurvives(c, c', v, r); }
    forall w <- c'.wins ensures WinOk(c', w) { WinSurvives(c, c', v, w); }
  }

  lemma LogStepKeepsInv(c: Cluster, v: nat, command: seq<char>)
    requires Inv(c) && Enabled(c, Log(v, command))
    ensures Inv(Do(c, Log(v, command)))
  {
    var c' := Do(c, Log(v, command));
    assert LogOk(c.nodes[v]) && AuthorOk(c, c.nodes[v]) && ElectionOk(c, v);
    assert Evolves(c, c', v);
    QuietStep(c, c', v);
  }

  /** Committing changes only committed flags. */
  lemma CommitKeepsNode(c: Cluster, v: nat, index: nat)
    requires |c.counted| == |c.nodes| && Enabled(c, Commit(v, index))
    requires LogOk(c.nodes[v]) && AuthorOk(c, c.nodes[v]) && ElectionOk(c, v)
    ensures Evolves(c, Do(c, Commit(v, index)), v)
    ensures LogOk(Do(c, Commit(v, index)).nodes[v])
    ensures AuthorOk(Do(c, Commit(v, index)), Do(c, Commit(v, index)).nodes[v])
    ensures ElectionOk(Do(c, Commit(v, index)), v)
  {
    var c' := Do(c, Commit(v, index));
    forall k | 0 <= k < |c.nodes[v].log|
      ensures c'.nodes[v].log[k].index == c.nodes[v].log[k].index
      ensures c'.nodes[v].log[k].term == c.nodes[v].log[k].term
      ensures HasWon(c', c.nodes[v].id, c'.nodes[v].log[k].term)
    {
      assert HasWon(c, c.nodes[v].id, c.nodes[v].log[k].term);
    }
    if c.nodes[v].inElection && Carries(c.layout) {
      forall u <- c.counted[v] ensures HasGranted(c', u, c.nodes[v].term, c.nodes[v].id) {
        assert HasGranted(c, u, c.nodes[v].term, c.nodes[v].id);
      }
    }
  }

  lemma CommitStepKeepsInv(c: Cluster, v: nat, index: nat)
    requires Inv(c) && Enabled(c, Commit(v, index))
    ensures Inv(Do(c, Commit(v, index)))
  {
    CommitKeepsNode(c, v, index);
    QuietStep(c, Do(c, Commit(v, index)), v);
  }

  /** A handler that leaves the log alone and is not inside an election. */
  lemma HandlerKeepsInv(c: Cluster, v: nat, n: Node)
    requires Inv(c) && v < |c.nodes| && !c.nodes[v].inElection
    requires n.id == c.nodes[v].id && n.log == c.nodes[v].log && n.lastApplied == c.nodes[v].lastApplied
    requires !n.inElection && n.term >= c.nodes[v].term
    requires n.term == c.nodes[v].term ==> n.votedFor == c.nodes[v].votedFor
    requires n.role == Leader ==> n.term == c.nodes[v].term && c.nodes[v].role == Leader
    ensures Inv(c.(nodes := c.nodes[v := n]))
  {
    var c' := c.(nodes := c.nodes[v := n]);
    assert LogOk(c.nodes[v]) && AuthorOk(c, c.nodes[v]);
    WinsCarryOver(c, c', c.nodes[v]);
    assert Evolves(c, c', v);
    QuietStep(c, c', v);
  }

  lemma StepKeepsInv(c: Cluster, s: Step)
    requires Inv(c) && Enabled(c, s)
    ensures Inv(Do(c, s))
  {
    match s
    case Begin(i) => BeginKeepsInv(c, i);
    case Count(i, peer, response, behind) => CountKeepsInv(c, i, peer, response, behind);
    case Finish(i) => FinishKeepsInv(c, i);
    case Vote(v, req) => VoteKeepsInv(c, v, req);
    case Append(v, areq) => HandlerKeepsInv(c, v, OnAppendEntries(c.nodes[v], areq).0);
    case Beat(v, msg) => HandlerKeepsInv(c, v, OnHeartbeat(c.nodes[v], msg));
    case Log(v, command) => LogStepKeepsInv(c, v, command);
    case Commit(v, index) => CommitStepKeepsInv(c, v, index);
  }

  lemma {:induction false} RunKeepsInv(c: Cluster, steps: seq<Step>)
    requires Inv(c) && IsRun(c, steps)
    ensures Inv(Exec(c, steps)) && Exec(c, steps).layout == c.layout
    decreases |steps|
  {
    if steps != [] {
      StepKeepsInv(c, steps[0]);
      RunKeepsInv(Do(c, steps[0]), steps[1..]);
    }
  }

  // ----- Main results ---------------------------------------------------------

  lemma MajoritiesMeet(n: nat, a: set<nat>, b: set<nat>) returns (v: nat)
    requires forall x <- a :: x < n
    requires forall x <- b :: x < n
    requires |a| >= Majority(n) && |b| >= Majority(n)
    ensures v in a && v in b
  {
    if a !! b {
      SubsetSize(a + b, n);
      assert false;
    }
    v :| v in a && v in b;
  }

  lemma {:induction false} SubsetSize(s: set<nat>, n: nat)
    requires forall x <- s :: x < n
    ensures |s| <= n
  {
    if n == 0 {
      assert s == {};
    } else {
      SubsetSize(s - {n - 1}, n - 1);
      assert n - 1 !in s ==> s - {n - 1} == s;
    }
  }

  /** Election safety: in every run, a term has at most one winner. */
  lemma ElectionSafety(c0: Cluster, steps: seq<Step>, w1: Win, w2: Win)
    requires Init(c0) && Carries(c0.layout) && IsRun(c0, steps)
    requires w1 in Exec(c0, steps).wins && w2 in Exec(c0, steps).wins && w1.term == w2.term
    ensures w1.cand == w2.cand
  {
    InitInv(c0);
    RunKeepsInv(c0, steps);
    OneWinnerPerTerm(Exec(c0, steps), w1, w2);
  }

  lemma OneWinnerPerTerm(c: Cluster, w1: Win, w2: Win)
    requires Inv(c) && Carries(c.layout) && w1 in c.wins && w2 in c.wins && w1.term == w2.term
    ensures w1.cand == w2.cand
  {
    assert WinOk(c, w1) && WinOk(c, w2);
    var v := MajoritiesMeet(|c.nodes|, w1.voters, w2.voters);
    assert VotedBehind(c, v, w1) && VotedBehind(c, v, w2);
  }

  /** At no moment of any run do two different nodes lead the same term. */
  lemma OneLeaderPerTerm(c0: Cluster, steps: seq<Step>, i: nat, j: nat)
    requires Init(c0) && Carries(c0.layout) && IsRun(c0, steps)
    requires i < |Exec(c0, steps).nodes| && j < |Exec(c0, steps).nodes|
    requires Exec(c0, steps).nodes[i].role == Leader && Exec(c0, steps).nodes[j].role == Leader
    requires Exec(c0, steps).nodes[i].term == Exec(c0, steps).nodes[j].term
    ensures i == j
  {
    InitInv(c0);
    RunKeepsInv(c0, steps);
    var c := Exec(c0, steps);
    assert AuthorOk(c, c.nodes[i]) && AuthorOk(c, c.nodes[j]);
    var w1 :| w1 in c.wins && w1.cand == c.nodes[i].id && w1.term == c.nodes[i].term;
    var w2 :| w2 in c.wins && w2.cand == c.nodes[j].id && w2.term == c.nodes[j].term;
    OneWinnerPerTerm(c, w1, w2);
  }

  /** A node votes for at most one candidate per term, over the whole run. */
  lemma OneVotePerTerm(c0: Cluster, steps: seq<Step>, g1: Grant, g2: Grant)
    requires Init(c0) && IsRun(c0, steps)
    requires g1 in Exec(c0, steps).grants && g2 in Exec(c0, steps).grants
    requires g1.voter == g2.voter && g1.term == g2.term
    ensures g1.cand == g2.cand
  {
    InitInv(c0);
    RunKeepsInv(c0, steps);
  }

  /** Every winner's log was at least as new as that of each of its voters at the moment it voted,
      and the voters are a majority. */
  lemma WinnerHasNewestLogOfMajority(c0: Cluster, steps: seq<Step>, w: Win)
    requires Init(c0) && Carries(c0.layout) && IsRun(c0, steps) && w in Exec(c0, steps).wins
    ensures |w.voters| >= Majority(|Exec(c0, steps).nodes|)
    ensures forall v <- w.voters :: v < |Exec(c0, steps).nodes| && VotedBehind(Exec(c0, steps), v, w)
  {
    InitInv(c0);
    RunKeepsInv(c0, steps);
    assert WinOk(Exec(c0, steps), w);
  }

  /** In every reachable state a log's entries are numbered from 1, their terms never fall nor
      exceed the node's term, and exactly the first lastApplied entries are committed. */
  lemma LogShape(c0: Cluster, steps: seq<Step>, i: nat)
    requires Init(c0) && IsRun(c0, steps) && i < |Exec(c0, steps).nodes|
    ensures LogOk(Exec(c0, steps).nodes[i])
  {
    InitInv(c0);
    RunKeepsInv(c0, steps);
  }

  /** Entries written by different nodes never carry the same term. */
  lemma LogsShareNoTerm(c0: Cluster, steps: seq<Step>, i: nat, j: nat, k: nat, m: nat)
    requires Init(c0) && Carries(c0.layout) && IsRun(c0, steps)
    requires i < |Exec(c0, steps).nodes| && j < |Exec(c0, steps).nodes| && i != j
    requires k < |Exec(c0, steps).nodes[i].log| && m < |Exec(c0, steps).nodes[j].log|
    ensures Exec(c0, steps).nodes[i].log[k].term != Exec(c0, steps).nodes[j].log[m].term
  {
    InitInv(c0);
    RunKeepsInv(c0, steps);
    var c := Exec(c0, steps);
    assert AuthorOk(c, c.nodes[i]) && AuthorOk(c, c.nodes[j]);
    if c.nodes[i].log[k].term == c.nodes[j].log[m].term {
      var w1 :| w1 in c.wins && w1.cand == c.nodes[i].id && w1.term == c.nodes[i].log[k].term;
      var w2 :| w2 in c.wins && w2.cand == c.nodes[j].id && w2.term == c.nodes[j].log[m].term;
      OneWinnerPerTerm(c, w1, w2);
      assert false;
    }
  }
}
