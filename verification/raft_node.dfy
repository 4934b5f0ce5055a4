/** One cluster node's Raft state and the handlers that change it.

    The datatype `Node` is the state; the functions say what each handler does to
    it; the class `RaftNode` holds the same fields and changes them in place, and
    each of its methods is proved to do exactly what the function says. */
module RaftNodeModel {
  import opened VoteReplies

  const U64_MAX: nat := 0xFFFF_FFFF_FFFF_FFFF

  type Term = t: nat | t <= U64_MAX

  /** Node id 0 means "nobody" in `votedFor`. */
  const NOBODY: nat := 0

  datatype Role = Follower | Candidate | Leader

  datatype LogEntry = LogEntry(index: nat, term: Term, command: seq<char>, committed: bool)

  datatype Node = Node(
    id: nat,
    term: Term,
    votedFor: nat,
    role: Role,
    leader: nat,
    log: seq<LogEntry>,
    votes: nat,
    inElection: bool,
    commitIndex: nat,
    lastApplied: nat)

  datatype VoteRequest = VoteRequest(sender: nat, term: Term, lastIndex: nat, lastTerm: Term)
  datatype AppendRequest = AppendRequest(
    sender: nat, term: Term, prevIndex: nat, prevTerm: Term, leaderCommit: nat)
  datatype Heartbeat = Heartbeat(leader: nat, term: Term, commitIndex: nat)

  /** What the election loop sees for one member of the cluster; an answer is a payload in memory. */
  datatype Reply = Self | Unreachable | NoAnswer | Answer(memory: Memory)

  // ----- Log position ---------------------------------------------------------

  function LastTerm(log: seq<LogEntry>): Term {
    if log == [] then 0 else log[|log| - 1].term
  }

  function LastIndex(log: seq<LogEntry>): nat {
    if log == [] then 0 else log[|log| - 1].index
  }

  /** (t1, i1) is at most (t2, i2), comparing terms first. */
  predicate UpToDate(t1: Term, i1: nat, t2: Term, i2: nat) {
    t1 < t2 || (t1 == t2 && i1 <= i2)
  }

  // ----- What the handlers do -------------------------------------------------

  function Majority(nodeCount: nat): nat {
    nodeCount / 2 + 1
  }

  /** The 64-bit term counter wraps to 0. */
  function NextTerm(t: Term): Term {
    if t == U64_MAX then 0 else t + 1
  }

  function BeginElection(n: Node): Node {
    n.(role := Candidate, term := NextTerm(n.term), votedFor := n.id, votes := 1, inElection := true)
  }

  function RequestOf(n: Node): VoteRequest {
    VoteRequest(n.id, n.term, LastIndex(n.log), LastTerm(n.log))
  }

  predicate Counts(reply: Reply) {
    reply.Answer? && ReadFlag(reply.memory)
  }

  function CountReply(n: Node, reply: Reply): Node {
    if Counts(reply) then n.(votes := n.votes + 1) else n
  }

  function CountReplies(n: Node, replies: seq<Reply>): Node {
    if replies == [] then n
    else CountReply(CountReplies(n, replies[..|replies| - 1]), replies[|replies| - 1])
  }

  function FinishElection(n: Node, nodeCount: nat): Node {
    if n.votes >= Majority(nodeCount) then n.(role := Leader, leader := n.id, inElection := false)
    else n.(role := Follower, inElection := false)
  }

  function OnVoteRequest(n: Node, req: VoteRequest): (Node, bool) {
    if req.term < n.term then (n, false)
    else
      var m := if req.term > n.term
               then n.(term := req.term, role := Follower, votedFor := NOBODY)
               else n;
      if (m.votedFor == NOBODY || m.votedFor == req.sender)
         && UpToDate(LastTerm(m.log), LastIndex(m.log), req.lastTerm, req.lastIndex)
      then (m.(votedFor := req.sender), true)
      else (m, false)
  }

  function OnAppendEntries(n: Node, req: AppendRequest): (Node, bool) {
    if req.term < n.term then (n, false)
    else
      var m := n.(term := req.term, role := Follower, leader := req.sender);
      if req.prevIndex > 0 && (req.prevIndex > |m.log| || m.log[req.prevIndex - 1].term != req.prevTerm)
      then (m, false)
      else if req.leaderCommit > m.commitIndex
      then (m.(commitIndex := if req.leaderCommit < |m.log| then req.leaderCommit else |m.log|), true)
      else (m, true)
  }

  function OnHeartbeat(n: Node, msg: Heartbeat): Node {
    var m := if msg.term > n.term
             then n.(term := msg.term, role := Follower, votedFor := NOBODY)
             else n;
    if msg.term >= m.term
    then m.(leader := msg.leader,
            commitIndex := if msg.commitIndex > m.commitIndex then msg.commitIndex else m.commitIndex)
    else m
  }

  /** The new state and the index of the new entry, or -1 on a node that is not leader. */
  function AppendLog(n: Node, command: seq<char>): (Node, int) {
    if n.role != Leader then (n, -1)
    else
      (n.(log := n.log + [LogEntry(|n.log| + 1, n.term, command, false)]), |n.log| + 1)
  }

  function AppliedAfter(applied: nat, index: nat, count: nat): nat {
    var target := if index < count then index else count;
    if applied < target then target else applied
  }

  function MarkCommitted(log: seq<LogEntry>, lo: nat, hi: nat): seq<LogEntry>
    requires hi <= |log|
  {
    seq(|log|, i requires 0 <= i < |log| =>
      if lo <= i < hi then log[i].(committed := true) else log[i])
  }

  function CommitTo(n: Node, index: nat): Node
    requires n.lastApplied <= |n.log|
  {
    var applied := AppliedAfter(n.lastApplied, index, |n.log|);
    n.(log := MarkCommitted(n.log, n.lastApplied, applied), lastApplied := applied, commitIndex := index)
  }

  // ----- Facts about single handlers ------------------------------------------

  /** Starting an election raises the term, except at the last 64-bit term, where it falls to 0. */
  lemma ElectionRaisesTermIff(n: Node)
    ensures BeginElection(n).term > n.term <==> n.term < U64_MAX
    ensures n.term == U64_MAX ==> BeginElection(n).term == 0
  {
  }

  /** The append handler accepts: its term is not older and the previous entry is the named one. */
  predicate Accepted(n: Node, req: AppendRequest) {
    && req.term >= n.term
    && (req.prevIndex == 0 || (req.prevIndex <= |n.log| && n.log[req.prevIndex - 1].term == req.prevTerm))
  }

  /** The answer says whether the request was accepted. Only an accepted request that names a higher commit
      index moves the node's own: to what it names, or to the end of a shorter log. */
  lemma AppendAnswer(n: Node, req: AppendRequest)
    ensures var (m, ok) := OnAppendEntries(n, req);
      && (ok <==> Accepted(n, req))
      && (ok && req.leaderCommit > n.commitIndex ==>
            m.commitIndex <= req.leaderCommit && m.commitIndex <= |n.log|
            && (m.commitIndex == req.leaderCommit || m.commitIndex == |n.log|))
      && (!(ok && req.leaderCommit > n.commitIndex) ==> m.commitIndex == n.commitIndex)
      && (req.term < n.term ==> m == n)
      && (req.term >= n.term ==> m.term == req.term && m.role == Follower && m.leader == req.sender)
      && m == n.(term := m.term, role := m.role, leader := m.leader, commitIndex := m.commitIndex)
  {
  }

  /** The voter may still vote in the request's term, and its log is no newer than the candidate's. */
  predicate MayVote(n: Node, req: VoteRequest) {
    && req.term >= n.term
    && (req.term > n.term || n.votedFor == NOBODY || n.votedFor == req.sender)
    && UpToDate(LastTerm(n.log), LastIndex(n.log), req.lastTerm, req.lastIndex)
  }

  lemma VoteIsGrantedIff(n: Node, req: VoteRequest)
    ensures var (m, granted) := OnVoteRequest(n, req);
      && (granted <==> MayVote(n, req))
      && m.term == (if req.term > n.term then req.term else n.term)
      && (granted ==> m.votedFor == req.sender)
      && (!granted ==> m.votedFor == if req.term > n.term then NOBODY else n.votedFor)
      && m.role == (if req.term > n.term then Follower else n.role)
      && m == n.(term := m.term, votedFor := m.votedFor, role := m.role)
  {
  }

  /** A heartbeat that is not older names the leader and can only raise the commit index; a newer one also
      ends the node's role and vote. */
  lemma HeartbeatAnswer(n: Node, msg: Heartbeat)
    ensures var m := OnHeartbeat(n, msg);
      && (msg.term < n.term ==> m == n)
      && (msg.term >= n.term ==>
            && m.term == msg.term && m.leader == msg.leader
            && m.commitIndex >= n.commitIndex && m.commitIndex >= msg.commitIndex
            && (m.commitIndex == n.commitIndex || m.commitIndex == msg.commitIndex))
      && (msg.term > n.term ==> m.role == Follower && m.votedFor == NOBODY)
      && (msg.term <= n.term ==> m.role == n.role && m.votedFor == n.votedFor)
      && m == n.(term := m.term, leader := m.leader, commitIndex := m.commitIndex, role := m.role, votedFor := m.votedFor)
  {
  }

  /** How many replies read as granted. */
  function Counted(replies: seq<Reply>): nat {
    if replies == [] then 0
    else Counted(replies[..|replies| - 1]) + (if Counts(replies[|replies| - 1]) then 1 else 0)
  }

  /** The election loop adds one vote for each of them. */
  lemma {:induction false} VotesAreCounted(n: Node, replies: seq<Reply>)
    ensures CountReplies(n, replies) == n.(votes := n.votes + Counted(replies))
  {
    if replies != [] {
      VotesAreCounted(n, replies[..|replies| - 1]);
    }
  }

  // ----- The node itself ------------------------------------------------------

  class RaftNode {
    const id: nat
    var term: Term
    var votedFor: nat
    var role: Role
    var leader: nat
    var log: seq<LogEntry>
    var votes: nat
    var inElection: bool
    var commitIndex: nat
    var lastApplied: nat

    ghost function View(): Node
      reads this
    {
      Node(id, term, votedFor, role, leader, log, votes, inElection, commitIndex, lastApplied)
    }

    constructor (id: nat)
      ensures View() == Node(id, 0, NOBODY, Follower, 0, [], 0, false, 0, 0)
    {
      this.id := id;
      term, votedFor, role, leader := 0, NOBODY, Follower, 0;
      log, votes, inElection := [], 0, false;
      commitIndex, lastApplied := 0, 0;
    }

    /** The whole election: `replies` is what each member's socket yields, in loop order. */
    method StartElection(replies: seq<Reply>)
      modifies this
      ensures View() == FinishElection(CountReplies(BeginElection(old(View())), replies), |replies|)
      ensures role == if 1 + Counted(replies) >= Majority(|replies|) then Leader else Follower
      ensures role == Leader ==> leader == id
      ensures votedFor == id && term == NextTerm(old(term)) && log == old(log) && !inElection
    {
      role := Candidate;
      term := if term == U64_MAX then 0 else term + 1;
      votedFor := id;
      votes := 1;
      inElection := true;
      ghost var begun := View();
      var majority := |replies| / 2 + 1;
      var i := 0;
      while i < |replies|
        invariant 0 <= i <= |replies|
        invariant View() == begun.(votes := 1 + Counted(replies[..i]))
      {
        assert replies[..i + 1][..i] == replies[..i];
        match replies[i] {
          case Self =>
          case Unreachable =>
          case NoAnswer =>
          case Answer(memory) =>
            if ReadFlag(memory) {
              votes := votes + 1;
            }
        }
        i := i + 1;
      }
      assert replies[..|replies|] == replies;
      VotesAreCounted(begun, replies);
      if votes >= majority {
        role := Leader;
        leader := id;
      } else {
        role := Follower;
      }
      inElection := false;
    }

    method HandleVoteRequest(req: VoteRequest) returns (granted: bool, replyTerm: Term)
      modifies this
      ensures (View(), granted) == OnVoteRequest(old(View()), req)
      ensures replyTerm == term
    {
      granted, replyTerm := false, term;
      if req.term < term {
        return;
      }
      if req.term > term {
        term := req.term;
        role := Follower;
        votedFor := NOBODY;
      }
      if votedFor == NOBODY || votedFor == req.sender {
        var ourTerm := if |log| > 0 then log[|log| - 1].term else 0;
        var ourIndex := if |log| > 0 then log[|log| - 1].index else 0;
        if req.lastTerm > ourTerm || (req.lastTerm == ourTerm && req.lastIndex >= ourIndex) {
          granted := true;
          votedFor := req.sender;
        }
      }
      replyTerm := term;
    }

    method HandleAppendEntries(req: AppendRequest) returns (ok: bool)
      modifies this
      ensures (View(), ok) == OnAppendEntries(old(View()), req)
    {
      if req.term < term {
        return false;
      }
      term := req.term;
      role := Follower;
      leader := req.sender;
      if req.prevIndex > 0 {
        if req.prevIndex > |log| {
          return false;
        }
        if log[req.prevIndex - 1].term != req.prevTerm {
          return false;
        }
      }
      if req.leaderCommit > commitIndex {
        commitIndex := if req.leaderCommit < |log| then req.leaderCommit else |log|;
      }
      return true;
    }

    method HandleHeartbeat(msg: Heartbeat)
      modifies this
      ensures View() == OnHeartbeat(old(View()), msg)
    {
      if msg.term > term {
        term := msg.term;
        role := Follower;
        votedFor := NOBODY;
      }
      if msg.term >= term {
        leader := msg.leader;
        if msg.commitIndex > commitIndex {
          commitIndex := msg.commitIndex;
        }
      }
    }

    method AppendToLog(command: seq<char>) returns (index: int)
      modifies this`log
      ensures (View(), index) == AppendLog(old(View()), command)
    {
      if role != Leader {
        return -1;
      }
      index := |log| + 1;
      log := log + [LogEntry(|log| + 1, term, command, false)];
    }

    method Commit(index: nat)
      requires lastApplied <= |log|
      modifies this`log, this`lastApplied, this`commitIndex
      ensures View() == CommitTo(old(View()), index)
    {
      ghost var log0, applied0 := log, lastApplied;
      while lastApplied < index && lastApplied < |log|
        invariant applied0 <= lastApplied <= |log| == |log0|
        invariant applied0 < lastApplied ==> lastApplied <= index
        invariant log == MarkCommitted(log0, applied0, lastApplied)
      {
        lastApplied := lastApplied + 1;
        log := log[lastApplied - 1 := log[lastApplied - 1].(committed := true)];
      }
      commitIndex := index;
    }
  }
}
