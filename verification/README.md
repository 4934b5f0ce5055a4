# InventixDB, modelled and proved in Dafny

InventixDB is a database server written in C. This project models the parts of it that keep
state and make promises over whole runs, and proves those promises for all inputs, all states
or all runs. Each part is modelled twice and the two are tied together: functions on values say
what an operation does, a class with loops, arrays and counters does it step by step as the C
code does, and every method's contract equates its new state with the function's result. The
theorems about runs are lemmas over sequences of steps built from those functions.

| part | files | main results |
|---|---|---|
| Raft election and log | `raft_node.dfy`, `vote_reply.dfy`, `raft_safety.dfy`, `raft_runs.dfy`, `raft_progress.dfy` | one winner per term exactly if replies carry their flag, winners' logs, elections that can be won, what logs hold, when the commit index falls |
| Cluster checksum | `gf2.dfy`, `crc.dfy` | the table form is polynomial division; bursts are detected |
| Partition rebalancing | `rebalance.dfy` | conservation from any lists; the loop hangs exactly under a condition on the counts; a node that leaves |
| Transactions and versions | `mvcc_manager.dfy`, `mvcc_isolation.dfy`, `mvcc_reads.dfy`, `mvcc_versions.dfy` | meaning of snapshots, what each level reads, when reads repeat |
| Lock table | `lock_table.dfy`, `lock_safety.dfy`, `lock_wait.dfy`, `lock_grants.dfy` | compatible grants, and answers that say what is held, exactly for closed sets of modes, waiting callers included |
| Savepoints | `savepoints.dfy`, `savepoint_safety.dfy` | marks refine whole copies |
| Message framing | `streams.dfy`, `framing.dfy` | chunking is invisible, messages survive, foreign bytes fail |
| Connection pool | `conn_pool.dfy`, `conn_pool_run.dfy`, `conn_activity.dfy`, `conn_pool_race.dfy` | array, linked list and counters agree in every run; which connections the health check drops; the greatest count that concurrent threads can reach |
| Pages, cache, leaf | `pager.dfy`, `buffer_pool.dfy`, `cache_transparency.dfy`, `cache_lru.dfy`, `leaf_page.dfy`, `leaf_table.dfy`, `leaf_reads.dfy` | which pages the cache is invisible for and which it gives up; the leaf is durable and sorted |
| Arena and block pools | `bits.dfy`, `arena.dfy`, `arena_safety.dfy`, `arena_align.dfy`, `arena_accounts.dfy`, `block_pool.dfy`, `block_pool_run.dfy`, `block_pool_counts.dfy` | disjoint regions, exact overflow conditions, restore undoes, where pointers lie modulo 16, what the counters count |
| Index keys | `index_key.dfy` | injective, prefix-free, order-preserving; when calls stay in the buffer |
| AUTO primary keys | `keys.dfy`, `auto_key.dfy`, `auto_safety.dfy`, `auto_rows.dfy` | which column keys a row and what becomes of it; when AUTO rows are never refused; when tables share row keys |

`options.dfy`, `bytes.dfy` and `sequences.dfy` hold what several parts use. `dafny verify dfyconfig.toml` checks everything.

Where a promise one would expect is not what the code keeps, the code is modelled as it is, a
lemma with a concrete input shows the failure where that helps, and an if-and-only-if says when
the promise holds: `RaftRuns.ElectionSafetyIff`, `RaftRuns.CommitIndexIsMonotoneIff`,
`Rebalance.HangsIff`, `MvccIsolation.SnapshotIsExactIff`, `MvccIsolation.RepeatableReadIff`,
`LockSafety.LockSafetyIff`, `LockGrants.AnswersAreExactIff`,
`SavepointSafety.SavepointsFitIff`, `Framing.FitsIffReceivable`,
`Framing.FailsOnForeignBytesIff`, `ConnectionPoolSafety.CreationFitsIff`,
`ConnectionPoolRace.MaximumKeptIff`, `CacheTransparency.TransparentIff`,
`ArenaModel.AllocGoodIff`, `ArenaModel.AlignedGoodIff`, `ArenaModel.GrowthLeaksIff`,
`BlockPoolModel.CreateIsSizedIff`, `IndexKeys.AlwaysStaysIff`, `StoreKeys.TablesClashIff`,
`AutoSafety.AutoNeverRefusedIff`.

Assumptions of the run theorems. Raft: fixed membership, distinct non-zero ids, no restarts, a
vote reply answers the request on its own socket, and a node inside its election loop handles
nothing else. Which bytes of a vote reply travel is part of the cluster: the handler announces
one byte, the candidate reads byte 32, and no code in the repository sends the reply; the
theorems about winners say that they need the payload to carry the flag. Rebalancing: node ids
are distinct, although the program draws them from time and `rand` (`src/cluster.c:88-92`).
Transactions: begin, commit, abort and one lock attempt are atomic steps, and writers are in
the table. `MvccIsolation.RepeatableRead` takes steps of others that mark only unmarked
versions: `src/mvcc.c:617-624` does not test that and the conflict check is a stub, so it is
the callers' discipline; `MvccIsolation.RepeatableReadIff` says exactly what holds without it.
Cache: callers write only pages they have pinned and mark them before the last unpin; the disk
takes every write. Allocators: malloc answers with memory apart from everything it has given,
within a 47-bit address space. Pools: callers give back only what they hold.

The source comment of the binary search in `src/btree.c` announces a linear scan; the code
searches by halving and is modelled so.

## Model

| member | source | states |
|---|---|---|
| `RaftNodeModel.RaftNode.StartElection` | src/cluster.c:535-630 | The whole election loop leaves the node in the state of begin, count, finish; the node leads exactly when one plus the replies whose bytes read as granted is a majority |
| `RaftNodeModel.VotesAreCounted` | src/cluster.c:560-600 | For every list of replies the loop adds one vote for each that reads as granted, whatever silent or unreachable peers lie between |
| `VoteReplies.FlagArrivesIff` | src/cluster.c:578-585 | For every stretch of the vote reply sent as payload: the flag the candidate reads at its place in memory is the flag the voter sent, whatever else is in reply and memory, if and only if the payload carries the reply from its first byte to the flag |
| `RaftNodeModel.RaftNode.HandleVoteRequest` | src/cluster.c:632-678 | New state and answer of a vote request: stale terms refused, newer terms adopted with the vote cleared, one vote per term and only for a log at least as new |
| `RaftNodeModel.RaftNode.HandleAppendEntries` | src/cluster.c:680-714 | New state and answer of an append request, with the previous-entry check and the commit index cut to the log |
| `RaftNodeModel.AppendAnswer` | src/cluster.c:680-714 | The answer is true exactly if the term is not older and the named previous entry is there with its term; the commit index moves only then and only up to what the request names, to that or to the end of a shorter log; older terms change nothing |
| `RaftProgress.VotesGoByTheLog` | src/cluster.c:632-678 | In every run a vote is granted exactly if the term is not older, no other vote was cast in it, and the candidate names a later last term, or the same one and at least as many entries as the voter has; and candidates name their own |
| `RaftRuns.CommitIndexFallsIff` | src/cluster.c:462-758 | Which steps lower a commit index: an append request that is not older, names no or a matching previous entry, and names a commit above an index that lies beyond the log; and a commit to a lower index; no other step does |
| `RaftRuns.CommitIndexIsMonotoneIff` | src/cluster.c:462-758 | Over every run the commit index of a node never falls if and only if no step of the run is one of those where it is taken |
| `RaftRuns.CommitIndexCanFall` | src/cluster.c:462-714 | A run of a heartbeat and an append request that takes a commit index from 5 to 0 |
| `RaftNodeModel.RaftNode.HandleHeartbeat` | src/cluster.c:462-482 | New state after a heartbeat: term, role and vote on a newer term, leader and commit index on a term not older |
| `RaftNodeModel.HeartbeatAnswer` | src/cluster.c:462-482 | A heartbeat that is not older names the leader and raises the commit index to what it says or leaves it; only a newer one ends role and vote; an older one changes nothing |
| `RaftNodeModel.RaftNode.AppendToLog` | src/cluster.c:716-741 | Only a leader appends; the new entry is numbered by position and carries the current term |
| `RaftNodeModel.RaftNode.Commit` | src/cluster.c:743-758 | Exactly the entries from the applied prefix up to the index, as far as the log goes, are marked committed |
| `RaftProgress.ElectionCanBeWon` | src/cluster.c:535-678 | From every reachable cluster a node whose log is as new as those of the rest of some majority, none of it in an election or ahead in term, is made leader of the next term by a run of their votes, whichever bytes of the replies travel |
| `RaftProgress.LogHoldsTheCommands` | src/cluster.c:716-741 | In every run the log of a node holds exactly the commands given to it while it led, in order, each with the term of that moment |
| `RaftProgress.AppendAnswersThePlace` | src/cluster.c:716-741 | In every run only a leader takes a command; it answers the place of the new entry, which carries command, term and that place, uncommitted; others answer -1 |
| `RaftProgress.CommitReachesIndex` | src/cluster.c:743-758 | In every run a commit leaves committed exactly what was and all entries up to the index; nothing else of an entry changes |
| `RaftProgress.CommitIndexIsNamed` | src/cluster.c:462-758 | In every run the commit index of a node is never above all that append requests, heartbeats and commits have named to it |
| `RaftSafety.StepKeepsInv` | src/cluster.c:462-758 | Every step of any node (election begun, vote counted, election closed, every handler, append, commit) keeps the cluster invariant |
| `RaftSafety.ElectionSafety` | src/cluster.c:535-678 | If the payload of vote replies carries the flag: in every run two winners of one term are the same candidate |
| `RaftRuns.ElectionSafetyIff` | src/cluster.c:535-678 | Over all runs of all clusters a term has at most one winner if and only if the payload of vote replies carries the reply from its first byte to the flag |
| `RaftRuns.TwoLeaders` | src/cluster.c:575-600 | For every payload that does not carry the flag a run of three nodes in which two nodes lead the same term |
| `RaftRuns.AnnouncedReplyIsUnsafe` | src/cluster.c:641 | With the one byte of payload the handler announces, runs with two winners of a term exist |
| `RaftSafety.OneLeaderPerTerm` | src/cluster.c:535-714 | If the payload of vote replies carries the flag: at no moment of any run do two nodes lead the same term |
| `RaftSafety.OneVotePerTerm` | src/cluster.c:632-678 | Over a whole run a node grants at most one candidate per term, although append requests raise the term without clearing the vote |
| `RaftSafety.WinnerHasNewestLogOfMajority` | src/cluster.c:656-675 | If the payload of vote replies carries the flag: each winner has a majority of voters, and its last (term, index) is at least that of every one of them as it stood at the vote |
| `RaftSafety.LogShape` | src/cluster.c:716-758 | In every reachable state entry i has index i + 1, terms never fall nor exceed the term of the node, and exactly the applied prefix is committed |
| `RaftSafety.LogsShareNoTerm` | src/cluster.c:716-741 | If the payload of vote replies carries the flag: entries written by different nodes never carry the same term |
| `RaftSafety.MajoritiesMeet` | src/cluster.c:554-606 | Two majorities of the same cluster share a voter |
| `RaftRuns.ARunThatElects` | src/cluster.c:535-678 | The steps are not empty of elections: a run of three nodes, two of them candidates, in which one is elected |
| `Crc.InitTable` | src/cluster.c:52-63 | The table loop computes for every byte the word that eight polynomial steps give |
| `Crc.ClusterCrc32` | src/cluster.c:65-73 | The loop over a buffer returns the checksum that bit-by-bit division defines |
| `Crc.TableIsDivision` | src/cluster.c:52-73 | For every byte string the table-driven checksum equals division of the complemented, zero-padded message by the CRC-32 polynomial |
| `Crc.TableIsRegister` | src/cluster.c:65-73 | Processing bytes by table is feeding their bits, lowest first, to the shift register |
| `Gf2Division.FeedFromOnesIsDivision` | src/cluster.c:65-73 | A register started at all ones computes the remainder of long division over GF(2) |
| `Gf2Division.FeedInjective` | src/cluster.c:65-73 | Feeding equal bits keeps different registers different |
| `Gf2Division.BlockInjective` | src/cluster.c:65-73 | Different blocks of the same length up to 32 bits drive one register to different states |
| `Gf2Division.WindowInjective` | src/cluster.c:65-73 | Different messages that agree outside some 32 consecutive bits drive one register to different states |
| `Crc.BurstChangesCrc` | src/cluster.c:65-73 | Two payloads that differ only within 32 consecutive bits, wherever these begin, have different checksums |
| `Crc.ReceiverRejectsBursts` | src/cluster.c:174-241 | The receiver accepts an unharmed sealed payload and rejects every change confined to 32 consecutive bits |
| `Rebalance.Cluster.GetNode` | src/cluster.c:1150-1159 | The first node with the id, or none |
| `Rebalance.Cluster.Assign` | src/cluster.c:940-961 | A known partition names its new primary, or gains a replica while there is room, and goes to the end of the list of the first node with the id; an unknown partition changes nothing |
| `Rebalance.MoveKeepsPlaced` | src/cluster.c:1026-1043 | A move keeps every partition on exactly one live node and its recorded primary equal to that node, if it was so |
| `Rebalance.MoveKeepsRunState` | src/cluster.c:1026-1043 | From any lists, replica entries included: a move loses and doubles no list entry, and each partition keeps its primary or names a live node that lists it |
| `Rebalance.MoveLowersBoth` | src/cluster.c:1022-1042 | A move lowers both the excess above target + 1 and the room below target by one |
| `Rebalance.Balance` | src/cluster.c:1015-1022 | Held partitions plus room equal target per live node, plus nodes above target, plus excess |
| `Rebalance.HangsIff` | src/cluster.c:1015-1045 | Whatever the live nodes list: excess passes room, so that the loop scans for ever, if and only if they list more than target each plus one for each node above target |
| `Rebalance.PlacedHangsIff` | src/cluster.c:1015-1045 | With every partition listed once by live nodes: if and only if the remainder of the division is greater than the number of live nodes above target |
| `Rebalance.SmallRemainderEnds` | src/cluster.c:1015-1045 | When the live nodes list at most one partition more than target each the loop always ends |
| `Rebalance.AHangingCluster` | src/cluster.c:1015-1045 | Three live nodes, two partitions on one of them: a placed state on which the loop hangs |
| `Rebalance.Cluster.FindUnderloaded` | src/cluster.c:1026-1031 | Finds the first live node below target; there is none exactly when there is no room |
| `Rebalance.Cluster.DrainStep` | src/cluster.c:1024-1043 | One scan moves one partition and keeps the list entries, or finds no taker and leaves no room |
| `Rebalance.Cluster.DrainAll` | src/cluster.c:1019-1045 | Over the whole loop: moves plus remaining excess is the excess at the start; without hanging every live node ends at most at target + 1 |
| `Rebalance.Cluster.RebalancePartitions` | src/cluster.c:1001-1048 | From any lists of known partitions: every list entry of a live node is kept, primaries stay or name a live lister, exact placement stays exact; hangs exactly when excess passes room; otherwise moves exactly the excess; overloaded lists keep a prefix, underloaded ones grow at the end, others stay |
| `Rebalance.Cluster.RebalanceOnLeave` | src/cluster.c:1057-1080 | A node that left has its list worked off by promotion, then the live nodes rebalance; state and hanging exactly as for these two |
| `Rebalance.PromotedAre` | src/cluster.c:1063-1077 | For each time the left node lists a partition one replica is used up; the last one used is primary; other partitions stay |
| `Rebalance.StillNamedIff` | src/cluster.c:1063-1077 | After promotion, however often the left node lists a partition: it still names that node if and only if the last replica used for it is that node, or none was used and the node was its primary |
| `Rebalance.OrphanNamesTheLeft` | src/cluster.c:1063-1077 | A listed partition without replicas goes on naming the node that left |
| `MvccManagerModel.MvccManager.GetTransaction` | src/mvcc.c:425-436 | The first slot that holds the transaction, or none |
| `MvccManagerModel.MvccManager.Snap` | src/mvcc.c:457-484 | The snapshot that the state function gives: least and next id and the other running transactions in slot order |
| `MvccManagerModel.MvccManager.BeginTransaction` | src/mvcc.c:189-233 | State and id after begin, including a table without a free slot |
| `MvccManagerModel.MvccManager.CommitTransaction` | src/mvcc.c:235-298 | State and status after commit: the slot is freed, the commit is noted; an unknown transaction fails |
| `MvccManagerModel.MvccManager.AbortTransaction` | src/mvcc.c:300-339 | State and status after abort |
| `MvccManagerModel.MvccManager.CheckVisible` | src/mvcc.c:492-509 | The xmin/xmax/active-list test, as the predicate the isolation proofs use |
| `MvccIsolation.SnapshotTest` | src/mvcc.c:457-509 | In every run the test accepts another transaction exactly when, at the moment of the snapshot, it had begun and was not in the table |
| `MvccIsolation.SnapshotIsExactIff` | src/mvcc.c:189-339 | The test means "had begun and had ended" for all transactions if and only if no begin had ever found the table full |
| `MvccIsolation.HomelessLooksEnded` | src/mvcc.c:189-509 | A run of 257 begins, one commit and a snapshot: the snapshot takes the transaction without a slot for one that has ended |
| `MvccIsolation.SnapshotFits` | src/mvcc.c:457-484 | The ids a snapshot lists never exceed the room taken from the active count |
| `MvccIsolation.StepKeepsInv` | src/mvcc.c:189-339 | Begin, commit, abort and every write keep the invariant that ties table, count and snapshots to the history |
| `MvccIsolation.RepeatableRead` | src/mvcc.c:457-643 | After any run, a reader with a snapshot gets the same version with the same data after any further steps of others that mark no version twice; the marking operation itself does not look for an earlier mark |
| `MvccIsolation.RepeatableReadIff` | src/mvcc.c:457-643 | With marks on versions marked before as well: a reader with a snapshot gets the same version at every later point of a run of others if and only if no step marks, for a row, a version that only its deleter hides from the reader and that no visible version is newer than |
| `MvccIsolation.OneStepRepeatsIff` | src/mvcc.c:599-643 | One begin, end, append or mark by another transaction leaves which version the reader sees unless it is such a mark, and exactly then changes it; creators and data stay |
| `MvccIsolation.MarkKeepsReadIff` | src/mvcc.c:617-643 | A mark at any place by a writer the snapshot does not see, whatever deleter was there: the newest visible version stays if and only if the marked one is not hidden by its deleter alone or a newer one is visible |
| `MvccIsolation.SecondMarkIsSeen` | src/mvcc.c:599-643 | A run: transaction 1 makes a version, 2 deletes it, 3 is active when 4 takes its snapshot; 4 sees nothing until 3 marks the version again, and then sees it |
| `MvccReads.BeginTakesItsSnapshot` | src/mvcc.c:189-233 | After any run: a begin registers its transaction exactly if a slot is free, at its isolation level; from REPEATABLE READ on it holds the snapshot of that moment, below it holds none |
| `MvccReads.RepeatsFromBeginIff` | src/mvcc.c:189-643 | A transaction begun at REPEATABLE READ or SERIALIZABLE after any run, with a slot free, reads the same version at every later point of a run of others if and only if none of them brings back a version that its deleter hid |
| `MvccReads.RepeatsFromBegin` | src/mvcc.c:189-643 | And the same data, from its begin on, if the others mark no version twice |
| `MvccReads.ReadIsByTheHistory` | src/mvcc.c:440-643 | In every run a registered transaction reads, at a level that keeps its snapshot, the newest version that is its own and not deleted by itself, or made by one that was over at its begin and deleted by none such; at the other levels the newest that nobody has deleted, committed or not |
| `MvccReads.OwnWritesAreRead` | src/mvcc.c:569-643 | In every run a transaction reads the version it just made, and never one it just deleted |
| `MvccReads.CommitLogIsTheHistory` | src/mvcc.c:235-298 | In every run the commit log lists exactly the transactions committed while registered, in that order, under growing timestamps |
| `MvccVersions.CheckVersion` | src/mvcc.c:569-597 | Whether one version is visible to a reader, by its creator and deleter; readers outside the table see nothing |
| `MvccVersions.WalkToNewest` | src/mvcc.c:629-632 | From any record of a linked chain the walk ends at the newest |
| `MvccVersions.GetVisibleVersion` | src/mvcc.c:626-643 | Over linked records: returns the newest version visible to the reader, or null |
| `MvccVersions.MarkDeleted` | src/mvcc.c:617-624 | Marks one record deleted and leaves links and all other records alone |
| `LockTableModel.LockManager.FindEntry` | src/mvcc.c:655-667 | The first entry for the resource in its bucket, or none |
| `LockTableModel.LockManager.TryAcquire` | src/mvcc.c:684-778 | State and outcome of one attempt to lock: grant, raise of an own first entry, or block |
| `LockTableModel.LockManager.ReleaseAllLocks` | src/mvcc.c:814-849 | State after a transaction releases everything on its list |
| `LockSafety.LockSafetyIff` | src/mvcc.c:669-778 | A set of modes keeps locks of different holders compatible in every run if and only if modes compatible with one of them are compatible with each other |
| `LockWaiting.WaitingIsARun` | src/mvcc.c:692-778 | A caller that waits, with any steps of others during its sleeps, takes the table where a run of those steps and one request takes it |
| `LockWaiting.WaitingTimesOutIff` | src/mvcc.c:726-744 | The outcome is that of the first attempt that is not blocked; it times out if and only if every attempt is blocked, and then the table is as the others left it |
| `LockWaiting.WaitingIsSafe` | src/mvcc.c:684-778 | From every reachable table, all requests in a closed set of modes: whether a waiting caller is granted or times out, locks of different holders stay compatible and every held list points at exactly its entries |
| `LockSafety.OrdinaryModesAreClosed` | src/mvcc.c:669-682 | SHARED, EXCLUSIVE, SHARE_ROW_EXCLUSIVE and ACCESS_EXCLUSIVE form such a set |
| `LockSafety.NotClosedIsUnsafe` | src/mvcc.c:694-770 | For a set that is not closed a run of three requests leaves two incompatible locks of different holders |
| `LockSafety.HeldListsAreExact` | src/mvcc.c:756-849 | In every run a transaction's list points at exactly its entries, each once, and ending removes exactly those |
| `LockSafety.EndRemovesExactly` | src/mvcc.c:814-849 | Releasing removes the entries of the ending transaction from the table and no other |
| `LockGrants.AnswerIsExact` | src/mvcc.c:684-778 | In every table: no transaction exactly if it is not registered, blocked exactly if the first entry of the name is incompatible and not an own one of sufficient rank; granted only with an own entry of sufficient rank in the table afterwards; otherwise nothing changes |
| `LockGrants.AnswersAreExactIff` | src/mvcc.c:684-778 | Over all runs of requests for a set of modes, granted means exactly that the lock is held afterwards if and only if modes compatible with one of the set are compatible with each other |
| `LockGrants.AnswerIsExactIff` | src/mvcc.c:684-778 | In every run of any requests: answer and holding agree if and only if not both the first entry stops the caller and it holds enough already |
| `LockGrants.HeldAndBlocked` | src/mvcc.c:694-746 | For every set that is not closed: a run after which a holder that asks again is told to wait for what it holds |
| `LockGrants.RequestOnlyGrants` | src/mvcc.c:699-770 | A request adds or raises only own entries on that name, to exactly the mode asked for, and takes no entry away |
| `LockGrants.ReleaseLeavesNothing` | src/mvcc.c:814-849 | Releasing all takes away exactly the own entries, leaves an empty list and touches no other list |
| `LockGrants.WaitingAnswerIsExact` | src/mvcc.c:684-778 | A waiting caller: granted and then it holds the lock, timed out and then the first entry still stops it, or not registered |
| `LockGrants.WaitingGrantsExactly` | src/mvcc.c:684-778 | From every reachable table, all requests in a closed set: a waiting caller is granted if and only if it holds the lock afterwards |
| `SavepointModel.TxnSets.AddWrite` | src/mvcc.c:908-926 | Appends to the write set, growing the array without losing an entry |
| `SavepointModel.TxnSets.AddRead` | src/mvcc.c:928-943 | Appends to the read set of a serializable transaction; refuses otherwise |
| `SavepointModel.TxnSets.CreateSavepoint` | src/mvcc.c:345-361 | A new savepoint with the current lengths, below eight |
| `SavepointSafety.SavepointsFitIff` | src/mvcc.c:349-354 | The array of eight savepoints, which the code never grows, has room in all runs of at most n creations if and only if n is at most eight |
| `SavepointModel.TxnSets.RollbackTo` | src/mvcc.c:363-400 | Back to the last savepoint of the name: both sets cut to its marks, later savepoints gone |
| `SavepointModel.TxnSets.ReleaseSavepoint` | src/mvcc.c:402-419 | Removes the first savepoint of the name and closes the gap |
| `SavepointSafety.MarksRefineCopies` | src/mvcc.c:345-419 | Over every run, sets, savepoint names and every answer are those of a form that keeps whole copies of both sets |
| `SavepointSafety.MarksNeverFall` | src/mvcc.c:345-419 | In every run marks are bounded by the sets and do not fall from one savepoint to the next |
| `SavepointSafety.RollbackUndoes` | src/mvcc.c:345-419 | Rolling back restores both sets exactly as they were when the savepoint was made, through any tracking and any inner savepoints, rollbacks and releases |
| `SavepointSafety.StepMatches` | src/mvcc.c:345-419 | Each operation keeps the match between marks and copies and gives the same answer in both |
| `Framing.NetConnection.HandleReadCompletion` | src/network.c:1278-1333 | Reading a chunk appends it, delivers every complete message and shifts the rest to the front, as the stream function says |
| `Framing.NetConnection.ParseFront` | src/network.c:254-269 | What the front of the buffer is: incomplete, garbage, or a complete message with its size |
| `Framing.NetConnection.Shift` | src/network.c:1323-1328 | The bytes behind the message move to the front of the buffer |
| `Framing.FrontOfEncoded` | src/network.c:339-369 | What the sender lays out, followed by any bytes, is read back as that message |
| `Framing.HeaderRoundTrip` | src/network.c:339-369 | Every header field that is sent, magic, version and length included, is read back from the bytes |
| `Framing.FrontIsGarbageIff` | src/network.c:254-269 | The front is refused if and only if a header has come and does not begin with the bytes 58 56 4E 49, before anything is known of the length |
| `Framing.ChunkingIsInvisible` | src/network.c:1278-1333 | For every byte stream, well formed or not, deliveries, failure and buffered rest do not depend on how it is cut into chunks |
| `Framing.MessagesSurvive` | src/network.c:1278-1333 | Messages cut in any way are delivered exactly once each, in order, and the buffer keeps exactly the incomplete rest |
| `Framing.FailsOnForeignBytesIff` | src/network.c:1278-1333 | Any sendable messages and then any bytes, under every cutting: the connection ends in the error state with exactly these messages delivered if and only if the bytes are at least a header long and do not begin with the magic |
| `Framing.OtherBytesWait` | src/network.c:1294-1312 | With less than a header behind them the connection stays open with the bytes kept; with the magic ahead it waits or delivers more |
| `Framing.ForeignLineFails` | src/network.c:1294-1304 | Sixteen bytes that begin with G, as of another protocol, end a fresh connection in the error state |
| `Framing.PeerCloses` | src/network.c:1282-1289 | A read of no bytes disconnects and delivers nothing more |
| `Framing.AlwaysRoom` | src/network.c:1124-1145 | While the pending message fits the buffer there is always room for more bytes |
| `Framing.FitsIffReceivable` | src/network.c:1278-1333 | A message can be received under some chunks that fit if and only if header and payload fit the buffer |
| `Streams.ReadsAreOneDrain` | src/network.c:1278-1333 | For any stable and sound framing, reading chunks one by one is draining their concatenation |
| `Streams.FramesAreDelivered` | src/network.c:1278-1333 | For any framing that recognises its frames, draining frames and an incomplete tail delivers exactly the frames |
| `ConnectionPoolSafety.CreationFitsIff` | src/network.c:609-655 | The first connections fit the array whichever of them can be made if and only if the maximum is positive and not both sizes exceed 256 |
| `ConnectionPoolSafety.CreationMissesAPlace` | src/network.c:613-655 | Asked for 300 to 300 connections the array has 256 places, and after 256 connections the next one wants place 256 |
| `ConnectionPoolSafety.ConnectionPool.constructor` | src/network.c:609-661 | Whenever the connections made fit the array: the pool that the creation function describes, first connections tried in order, failures passed over |
| `ConnectionPoolSafety.ConnectionPool.AcquireConn` | src/network.c:690-748 | State and answer of acquire: pop the free list, or make a connection while there is room |
| `ConnectionPoolSafety.ConnectionPool.ReleaseConn` | src/network.c:750-791 | State after release: a broken connection leaves array and pool, a healthy one heads the free list |
| `ConnectionPoolSafety.ConnectionPool.DropConn` | src/network.c:755-774 | The connection leaves the array, those behind it move down and learn their new places |
| `ConnectionPoolSafety.ConnectionPool.CheckHealth` | src/network.c:793-864 | State after the walk over the changing free list and the refill, without other threads in between; returns exactly how many were taken out |
| `ConnectionPoolModel.UnlinkLists` | src/network.c:811-814 | Unlinking from the middle leaves both link directions spelling the list without that connection |
| `ConnectionPoolModel.DropIndexes` | src/network.c:758-768 | Closing the gap keeps every connection in one place that it knows |
| `ConnectionPoolSafety.AcquireKeepsInv` | src/network.c:690-748 | Acquire keeps the invariant; it fails exactly when none is free and the pool is full or connecting fails; what it gives was free or is new |
| `ConnectionPoolSafety.CheckKeepsInv` | src/network.c:800-838 | The walk removes exactly the stale and silent connections, keeps the others in order and keeps the invariant |
| `ConnectionPoolSafety.RefillReachesMinimum` | src/network.c:837-856 | If connecting never fails the health check ends with at least the minimum |
| `ConnectionPoolSafety.PoolStaysSound` | src/network.c:609-864 | In every run: count within the maximum, each connection in one array place that it knows, a doubly linked duplicate-free free list of free_count connections, and connections in use equal acquires less all releases |
| `ConnectionActivity.ActivityIsTheHistory` | src/network.c:690-864 | In every run the last activity of a connection is when it was last made, acquired or released, and it counts as healthy exactly if it has not broken since it was made |
| `ConnectionActivity.CheckDropsTheIdle` | src/network.c:800-838 | In every run a health check drops a connection if and only if it is free, was last touched more than 90000 ms ago on the 64-bit clock, and does not answer |
| `ConnectionActivity.PeakIsTheHighest` | src/network.c:690-748 | In every run the peak is the greatest number of connections that were ever in use at once |
| `ConnectionPoolRace.PeakIsExact` | src/network.c:713-853 | With given numbers of threads in acquire and in the health check, both of which drop the lock between testing the count and appending: the greatest count any schedule reaches, and a schedule from the empty pool that reaches it |
| `ConnectionPoolRace.MaximumKeptIff` | src/network.c:713-853 | Every schedule keeps the count within the maximum if and only if no health check can refill and at most one thread acquires, or none acquires and the refilling threads fit between minimum and maximum |
| `ConnectionPoolRace.HealthCheckOverfills` | src/network.c:838-853 | For every minimum and maximum one acquiring thread and one health check suffice to pass the maximum: the check tests below the minimum, acquires fill the pool, the check appends |
| `PagerModel.Pager.Read` | src/pager.c:34-51 | The page with zeros past the end of the file; page numbers from 100 on leave the buffer alone |
| `PagerModel.Pager.Write` | src/pager.c:53-60 | The file with as much of that page replaced as the disk took, grown with zeros if needed, at the byte offset modulo 2^32 |
| `PagerModel.PageAfterWrite` | src/pager.c:34-60 | A written page reads back as far as it was written and as before behind that; no other page changes |
| `BufferPoolModel.BufferPool.FindLru` | src/buffer_pool.c:22-34 | The unpinned slot used least recently, the first of equals, or none |
| `BufferPoolModel.BufferPool.EvictLru` | src/buffer_pool.c:22-55 | State after evicting: a dirty page is written back, the slot is empty |
| `BufferPoolModel.BufferPool.GetPageBuffer` | src/buffer_pool.c:57-93 | State and buffer of a page: hit, empty slot, or eviction; null when every slot is pinned |
| `BufferPoolModel.BufferPool.PinPage` | src/buffer_pool.c:95-103 | One more pin on a cached page |
| `BufferPoolModel.BufferPool.UnpinPage` | src/buffer_pool.c:105-113 | One pin less, never below zero |
| `BufferPoolModel.BufferPool.MarkPageDirty` | src/buffer_pool.c:115-122 | A cached page becomes dirty |
| `BufferPoolModel.BufferPool.FlushPages` | src/buffer_pool.c:124-131 | Every dirty slot is written and clean |
| `BufferPoolModel.BufferPool.Close` | src/buffer_pool.c:133-140 | The file after closing is the file after flushing |
| `CacheTransparency.CacheIsTransparent` | src/buffer_pool.c:57-140 | In every run of callers that write only pinned pages and mark before unpinning, with page numbers below n: each page below 100 with no number in use 2^20 above it reads as the history of writes says, and sits in at most one slot |
| `CacheTransparency.TransparentIff` | src/buffer_pool.c:57-140 | Over all such runs a get of page q never shows anything but what the history of writes says if and only if q is below 100 and no number in use is 2^20 above it |
| `CacheTransparency.HighPagesMisread` | src/pager.c:34-40 | A page from 100 on shows what malloc left in its buffer |
| `CacheTransparency.FarPageOverwrites` | src/pager.c:53-55 | Four steps on the page 2^20 further on put its content on disk in place of a page below 100 |
| `CacheTransparency.GetReadsTheHistory` | src/buffer_pool.c:57-93 | The next get of such a page shows what the history of writes says |
| `CacheTransparency.CloseSavesEverything` | src/buffer_pool.c:124-140 | After closing the disk holds the logical content of every such page |
| `CacheTransparency.PinnedPagesStay` | src/buffer_pool.c:22-55 | No step evicts or changes a pinned page except a write to it |
| `CacheTransparency.GetFailsIffAllPinned` | src/buffer_pool.c:22-93 | In every run with fewer gets than the clock counts: a page cannot be had if and only if it is not cached and all slots are pinned; otherwise the victim is the least recently used unpinned slot |
| `CacheLru.SlotsRecordTheLastGet` | src/buffer_pool.c:57-93 | In every run each occupied slot records after which get its page was last asked for |
| `CacheLru.VictimWasAskedForLongestAgo` | src/buffer_pool.c:22-93 | In every run with fewer gets than the clock counts: a page is given up only when no slot is empty, it is unpinned, and every other unpinned one has been asked for since |
| `CacheLru.PinsAreTheHistory` | src/buffer_pool.c:57-113 | In every run the pins of a page are its successful gets and pins less its unpins, never below zero, and a pinned page is cached |
| `CacheTransparency.StepKeepsInv` | src/buffer_pool.c:22-131 | Every operation on any page keeps the pool invariant |
| `CacheTransparency.StepKeepsPage` | src/buffer_pool.c:22-131 | Every operation changes the logical content of such a page only by a write to it |
| `LeafPage.LeafInit` | src/btree.c:23-32 | The bytes of a fresh leaf, parent bytes left alone |
| `LeafPage.FindCell` | src/btree.c:76-108 | The binary search on bytes ends where the search on cells does |
| `LeafPage.SearchSplits` | src/btree.c:90-104 | On a sorted leaf everything before the found place is at most the key and everything from it on at least the key |
| `LeafPage.LeafInsert` | src/btree.c:110-131 | The exact bytes after an insert; a full leaf is left as it was |
| `LeafPage.InsertBytesInserts` | src/btree.c:110-131 | Those bytes mean that the cell is inserted at its place and every other cell is kept |
| `LeafPage.InsertManyIsSortedBag` | src/btree.c:76-134 | Any sequence of inserts leaves the leaf sorted, holding what it held and the items up to its capacity |
| `LeafTable.Table.constructor` | src/btree.c:35-54 | Opening a file shorter than a page initialises page 0 as root; any other file is left as it is |
| `LeafTable.Table.Find` | src/btree.c:76-108 | The place of a key; the page is unpinned again and unchanged |
| `LeafTable.Table.Insert` | src/btree.c:110-134 | Pool state after inserting at a found place, through get, write, mark, unpin |
| `LeafTable.Table.Store` | src/storage.c:298-301 | Find, then insert |
| `LeafTable.Table.Close` | src/btree.c:56-59 | The file after closing holds exactly the cells of the table |
| `LeafTable.PutRowInserts` | src/btree.c:76-134 | Find and insert through the cache is insertion into the sorted cells; no pin is left |
| `LeafTable.CloseSavesTheLeaf` | src/btree.c:35-59 | What close writes is what the next open shows |
| `LeafTable.DurableSortedLeaf` | src/btree.c:35-134 | Over every sequence of inserts and reopenings page 0 stays sorted, holds the file's cells and the inserted rows as a multiset up to capacity, and closing leaves a file with exactly these cells |
| `LeafReads.SearchFindsTheKeyIff` | src/btree.c:76-108 | After any inserts and reopenings a search ends at a cell with the key if and only if there is one, and otherwise where it would have to stand |
| `LeafReads.HeaderStays` | src/btree.c:23-134 | Over every sequence of inserts and reopenings page 0 keeps its node type, root flag and parent; opened on a shorter file it is a leaf and the root |
| `BitMasks.PowerTest` | src/memory.c:230-233 | The bit test finds exactly the powers of two among positive numbers |
| `BitMasks.MaskRoundsDown` | src/memory.c:63-65 | Clearing the k low bits rounds down to the greatest multiple of 2^k |
| `BitMasks.AlignUpRounds` | src/memory.c:63-65 | For a power of two, aligning up gives the least multiple that is large enough, if the sum fits a word |
| `BitMasks.RoundUpIsEnough` | src/memory.c:63-65 | Rounding to 16 gives enough bytes if and only if the size is at most 2^64 - 16; above, it gives none |
| `ArenaModel.ArenaAllocator.constructor` | src/memory.c:115-148 | A fresh arena of the adjusted size, with the quota if one is given |
| `ArenaModel.ArenaAllocator.Allocate` | src/memory.c:169-219 | State and pointer of an allocation: quota, current block, or a new block behind the current one |
| `ArenaModel.ArenaAllocator.AllocateAligned` | src/memory.c:227-243 | State and pointer of an aligned allocation |
| `ArenaModel.ArenaAllocator.ResetAll` | src/memory.c:281-294 | Every block of the chain is empty and the first is current |
| `ArenaModel.ArenaAllocator.ClearAll` | src/memory.c:296-313 | Only the first block stays, empty; the freed sizes are uncounted |
| `ArenaModel.ArenaAllocator.RestoreTo` | src/memory.c:332-359 | Later blocks are freed, the block is cut back, the total is summed again |
| `ArenaModel.AllocGoodIff` | src/memory.c:169-219 | An allocation keeps the invariant and answers with enough unused bytes of the current block if and only if its 64-bit arithmetic does not wrap |
| `ArenaModel.ModestRequestsNeverWrap` | src/memory.c:169-219 | Requests up to 2^63 - 16 never wrap, in any state |
| `ArenaModel.AHugeRequestIsAnswered` | src/memory.c:169-193 | A request of 2^64 - 1 bytes on a fresh arena without quota is answered with a pointer to no bytes |
| `ArenaModel.AlignedGoodIff` | src/memory.c:227-243 | For every power of two and every size the answer is a multiple of the alignment, and it has room for the size if and only if the padded request is refused, or size and alignment together fit a word and the request for both does not wrap |
| `ArenaModel.AHugeAlignedRequestIsAnswered` | src/memory.c:227-243 | A request of 2^64 - 1 bytes aligned to 16 takes 16 bytes and is answered |
| `ArenaModel.ZeroAlignmentIsNull` | src/memory.c:227-243 | An alignment of zero takes memory and answers with no pointer |
| `ArenaModel.GrowthLeaksIff` | src/memory.c:197-207 | Growing drops blocks from the chain while they stay counted if and only if the current block was not the last |
| `ArenaModel.GrowResetGrow` | src/memory.c:197-294 | Grow, reset, grow: the first grown block is gone from the chain and still counted, for every request above the default size |
| `ArenaSafety.LiveRegionsAreSafe` | src/memory.c:169-359 | In every run: total used is the sum over the chain and within the quota, every live region lies in the used part of one block, no two overlap, blocks after the current one are empty |
| `ArenaSafety.RestoreUndoes` | src/memory.c:323-359 | Whatever is requested, checkpointed and restored after a checkpoint, restoring to it brings back the total used and exactly the regions held then |
| `ArenaSafety.StepKeepsInv` | src/memory.c:169-359 | Every request, aligned request, reset, clear, checkpoint and restore keeps the invariant |
| `ArenaAccounts.CreationIsExact` | src/memory.c:111-148 | One empty block of the size asked for, 64 KiB if none is named, 16 MiB at most; a quota exactly if one is named |
| `ArenaAccounts.AnswerIsExact` | src/memory.c:169-219 | A request whose arithmetic does not wrap is refused if and only if it is empty, would pass the quota, or neither block nor malloc has room, and then changes nothing; answered, where it lies and what every counter becomes |
| `ArenaAccounts.CountersAreTrue` | src/memory.c:169-359 | In every run the peak is the most that was ever in use, and the allocation count the number of requests answered since the last reset |
| `ArenaAccounts.AccountsAreExact` | src/memory.c:169-359 | In every run block count and reserved bytes are those of the chain and of the blocks that growth has dropped from it |
| `ArenaAlignment.PlainAnswersFollowTheirBlock` | src/memory.c:169-219 | In every run the answer to a plain request is congruent modulo 16 to the address of the data of its block |
| `ArenaAlignment.PlainAnswersAreOffByEight` | include/memory.h:42-47 | Block data begins 24 bytes behind what malloc gives: where malloc aligns to 16, in every run every answer to a plain request is 8 more than a multiple of 16 |
| `BlockPoolModel.CreateIsSizedIff` | src/memory.c:369-389 | A new pool's blocks fit its memory if and only if rounding the block size and multiplying by the count stay within 64 bits |
| `BlockPoolModel.TwoHugeBlocks` | src/memory.c:369-389 | Two blocks of 2^63 bytes get a pool of no memory |
| `BlockPoolModel.BuiltIsFreshList` | src/memory.c:394-401 | Pushing the blocks one by one makes a list of all of them, last block first |
| `BlockPoolModel.GrowsAtMostOnce` | src/memory.c:484-496 | After growing, allocating again finds a block of the new pool at once |
| `BlockPoolModel.FreeKeepsInv` | src/memory.c:505-524 | Freeing a held block returns it to the front of its own pool's list and keeps all pools in order |
| `BlockPoolModel.ScribbleKeepsInv` | src/memory.c:455-472 | A caller writing over a block it holds disturbs no free list |
| `BlockPoolSafety.BlockPool.constructor` | src/memory.c:369-418 | The pool and memory words that the creation function describes |
| `BlockPoolSafety.BlockPool.AllocBlock` | src/memory.c:455-497 | State and block of the recursive allocation, which by its measure calls itself at most once |
| `BlockPoolSafety.BlockPool.FreeBlock` | src/memory.c:505-524 | The block heads its owner's list; a foreign pointer changes nothing |
| `BlockPoolSafety.BlockPool.ResetPool` | src/memory.c:526-545 | State after the nested resets of a pool and all expansions behind it |
| `BlockPoolSafety.ResetFromKeepsInv` | src/memory.c:526-545 | The repeated resetting leaves every pool with all its blocks on its list |
| `BlockPoolSafety.AllocGivesAFreeBlock` | src/memory.c:455-497 | What is allocated is a block of one pool that nobody held and is held from now on; it fails exactly when no block is free and the pool cannot grow |
| `BlockPoolSafety.PoolsStaySound` | src/memory.c:369-545 | In every run each free list runs through its own pool's blocks without duplicates, free and used make up the count, held blocks are on no list, and no two held blocks share a byte |
| `BlockPoolSafety.FreeUndoesAlloc` | src/memory.c:455-524 | Freeing what was allocated gives back the same lists and holdings |
| `BlockPoolCounts.CreationIsExact` | src/memory.c:369-418 | Blocks of at least the size asked for and 8 bytes, rounded up to 16 by less than 16; as many as asked for, 256 if none are; one pool, which may grow |
| `BlockPoolCounts.CountersAreTrue` | src/memory.c:455-545 | In every run the root counts the allocations answered, the pools together the blocks given back, and the peak is the most of its own blocks that were ever out |
| `BlockPoolCounts.OnlyTheRootGrows` | src/memory.c:484-496 | In every run exactly the first pool of the chain may grow |
| `IndexKeys.BuildKey` | src/index.c:346-384 | In a buffer with room for what the call writes: succeeds exactly when every kept value fits where it comes to stand, the buffer then holds the encoding of the kept values, and in every case, refused calls included, it is the old buffer with exactly the writes of the visited columns |
| `IndexKeys.WritesStayIff` | src/index.c:355-380 | The writes of a call, refused or not, stay in the first 256 bytes if and only if every visited column starts in them |
| `IndexKeys.AlwaysStaysIff` | src/index.c:355-380 | For an index with given prefixes no values ever make a call write past 256 bytes if and only if the columns before the last one cannot fill them |
| `IndexKeys.AtMostTwoColumnsStay` | src/index.c:355-380 | One or two columns always stay; columns that keep 253 bytes or more stay exactly if they are at most two |
| `IndexKeys.RefusedCallWritesPast` | src/index.c:357-374 | A value of 253 bytes, NULL and any third column write place 256, also when the call is then refused |
| `IndexKeys.PutValue` | src/index.c:356-380 | One value is written behind the offset, cut to its prefix, or refused for lack of room with only its marker written; nothing else changes |
| `IndexKeys.KeyLength` | src/index.c:371-383 | A built key of n columns has at most 254 + n bytes |
| `IndexKeys.LongestKey` | src/index.c:358-383 | That length is reached for every number of columns, so keys of three and more columns can pass 256 bytes |
| `IndexKeys.FitsIsShort` | src/index.c:371-376 | Whatever the prefix, no accepted value is too long for its length byte |
| `IndexKeys.KeysEqualIff` | src/index.c:346-384 | Keys of one index are equal if and only if the kept values are |
| `IndexKeys.SameKeyIff` | src/index.c:346-384 | Two rows get the same key if and only if column by column both are NULL, or both are not and equal as far as the first bytes go that the prefix names, 255 if it names none |
| `IndexKeys.NoKeyBeginsAnother` | src/index.c:346-384 | No key is a proper beginning of another key of the same index |
| `IndexKeys.BuiltKeysCompareAsRows` | src/index.c:390-400 | Comparing built keys is comparing rows column by column: NULL first, then shorter, then bytes |
| `IndexKeys.RowsAreOrdered` | src/index.c:390-400 | That row order is total: antisymmetric, transitive, zero only for equal rows |
| `StoreKeys.ReadsWhatIsPrinted` | src/executor.c:565-598 | Reading decimal digits inverts printing them |
| `StoreKeys.RowKeysAreUnambiguous` | src/system.c:155-159 | Row keys of colon-free database and table names determine database, table and primary key |
| `StoreKeys.TablesClashIff` | src/system.c:155-159 | For all names: two tables share a row key for some primary keys if and only if the text before the primary key of one begins that of the other |
| `StoreKeys.TablesOfPlainDatabasesClashIff` | src/system.c:155-159 | For colon-free database names: if and only if the database is the same and one table name followed by a colon begins the other |
| `StoreKeys.ColonsConfuse` | src/system.c:155-159 | An example: tables a:b and a share a row key |
| `StoreKeys.KindsDiffer` | src/system.c:155-171 | For colon-free database names rows, sequences and schemas never share a key |
| `AutoKeys.KeyColumnIsTheDeclaredOne` | src/executor.c:488-546 | Insert finds in the schema text the key column that table creation wrote, or a column whose type begins with PK |
| `AutoRows.InsertFindsTheDeclaredKey` | src/executor.c:475-546 | From the creation of a table with plain columns on, over every run: INSERT takes the column declared as key, or one whose type begins with PK, or else the first |
| `AutoRows.RowsAreKeyedAsDeclared` | src/executor.c:475-640 | Over every such run each row of an INSERT is keyed by its value in that column: without one it is refused; AUTO becomes the number after the sequence; it is stored under its key, and refused as a duplicate exactly if the key is taken; the sequence counts AUTO rows and stays at least every number given; nothing else changes |
| `AutoRows.KeyMayComeSecond` | src/executor.c:522-640 | A table whose second column is the key: AUTO there becomes 1, and the key |
| `AutoRows.CreationIsExact` | src/executor.c:475-520 | A table without schema gets its columns and sequence 0, one with a schema is left as it is, and no other key of the store changes |
| `AutoRows.DeleteTakesOneRow` | src/executor.c:1161-1182 | A delete takes away the row with that key and leaves every other row, schema and sequence |
| `AutoRows.DeletedKeyIsFree` | src/executor.c:522-1182 | A key that was deleted can be given again |
| `AutoRows.DropTakesSchemaAndSequence` | src/executor.c:1353-1387 | A drop takes away schema and sequence of an existing table and nothing else |
| `AutoKeys.Database.FindKeyColumn` | src/executor.c:525-546 | The column of the first schema piece that mentions a key, else column 0 |
| `AutoKeys.Database.InsertOne` | src/executor.c:551-640 | Store and outcome for one row: missing key, AUTO numbering, sequence moved up, duplicate refused, row stored |
| `AutoKeys.Database.ExecuteInsert` | src/executor.c:522-647 | Store and outcomes of a statement with many rows, in order |
| `AutoKeys.Database.ExecuteCreateTable` | src/executor.c:475-520 | Schema text and a sequence of 0, unless the table exists |
| `AutoKeys.Database.ExecuteDelete` | src/executor.c:1161-1182 | The row with that key is gone and nothing else changes |
| `AutoKeys.Database.ExecuteDropTable` | src/executor.c:1353-1387 | Schema and sequence are gone, rows stay |
| `AutoSafety.AutoNeverRefusedIff` | src/executor.c:475-607 | From creation on, over every run of inserts, deletes, creations and drops of other tables, no AUTO row within int range is refused if and only if no row was left in the store under a number from 1 to the greatest int as AUTO prints it |
| `AutoSafety.AutoMeetsALeftOver` | src/executor.c:563-607 | If a row was left under number n, the statement of n AUTO rows has its last row refused |
| `AutoSafety.CreationCoversIff` | src/executor.c:514-518 | After creation the sequence is at least every number taken if and only if none was left |
| `AutoSafety.StepKeepsInv` | src/executor.c:475-647 | Inserts, deletes, creations and drops of other tables keep the sequence at least every number taken |
| `AutoSafety.AutoIsFresh` | src/executor.c:563-607 | With the sequence at least every number taken and below the greatest int, an AUTO row gets the next number and is inserted |
| `AutoSafety.InsertStoresOneRow` | src/executor.c:563-607 | An inserted row is stored under the key reported, with its number in place of AUTO; every other row of every table stays as it was |
| `AutoSafety.AutoNeverMeetsADuplicate` | src/executor.c:522-607 | From the creation of a table without numbers taken, over every run, no AUTO row of a statement within int range is refused |
| `AutoSafety.DropForgetsTheSequence` | src/executor.c:1353-1387 | A table dropped and created again refuses its first AUTO row while row 1 is still stored |

## Left out

- Sockets, event loops, threads, clocks, logging and console output: replies, chunks, ping results, new addresses and times are parameters.
- Concurrency inside one operation, except for the gaps of connection acquire and health check (`ConnectionPoolRace`) and the sleeps of a lock request (`LockWaiting`): everywhere else an operation is one step.
- ConnectionPoolSafety.ConnectionPool.CheckHealth: the refill runs without other threads in between; `ConnectionPoolRace` models the lock it drops.
- Raft messages to followers carry no entries in the code, so nothing is proved about logs agreeing across nodes beyond terms.
- Raft runs stop before the last 64-bit term, where an election sets the term back to 0 (`RaftNodeModel.ElectionRaisesTermIff`).
- Raft log array: its capacity doubling is a sequence that grows.
- Transaction ids, the commit clock and the cache clock are unbounded numbers.
- READ COMMITTED readers, tuple-header visibility with hint bits, two-phase commit, vacuum, conflict checks and deadlock detection.
- Abort does not undo writes: `MvccIsolation.SnapshotTest` counts an aborted transaction as ended, as the code does.
- LockTableModel.LockManager.TryAcquire: one pass of the acquisition loop; `LockWaiting` models the waiting and the timeout as attempts with steps of others between them.
- Lock statistics, lock upgrade, release of a single lock and asking for a held lock.
- Lock bucket chains are sequences, with a serial number for the address of an entry.
- MvccIsolation.RepeatableRead: for steps of others that mark no version twice; `MvccIsolation.RepeatableReadIff` is without that.
- SavepointModel.TxnSets.CreateSavepoint: needs fewer than eight savepoints, because the array of eight is never grown and the ninth is written past it; `SavepointSafety.SavepointsFitIff` says when that cannot happen.
- Rebalance.Cluster.DrainStep: needs distinct node ids, which the program does not check when it draws them.
- Rebalance.Cluster.DrainAll: needs distinct node ids, as above.
- Rebalance.Cluster.RebalancePartitions: needs distinct node ids, as above.
- Rebalance.Cluster.RebalanceOnLeave: needs distinct node ids, as above.
- Rebalance: range strategies, data movement and the choice when to rebalance; an endless scan is reported as a result instead of looping.
- Connections and pool memory are maps from addresses to records, so that pointers are addresses and freed ones are absent.
- Pager: a file is a byte sequence; a file that cannot be opened is not modelled, and the cache writes whole pages.
- BufferPoolModel.BufferPool.GetPageBuffer: not the page number 2^32 - 1, which marks an empty slot.
- Page cache in its caller's hands: table cursors over more than the root page, the row scan and node splitting, which the code does not implement.
- Global memory statistics, string duplication, realloc by copy and quotas outside an arena.
- Arena chains are sequences of blocks; a block that growth drops from the chain is lost to the model as it is to the program.
- IndexKeys.BuildKey: needs room for what the call writes, which is past 256 bytes for some values of three and more columns; `IndexKeys.WritesStayIff` and `IndexKeys.AlwaysStaysIff` say when.
- Index order: descending columns are stored in the same order, and the index tree itself is a stub in the code.
- AutoSafety.AutoIsFresh: stops at the greatest int, where adding one is undefined in C.
- Row serialisation, secondary index updates, transaction undo logging and the fixed sizes of key buffers in INSERT.
- Joins, optimizer, parser, JSON, backup, replication storage and client code.
