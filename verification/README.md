# Models of the Redis 3.0.6 core, verified in Dafny

The repository carries the sources of Redis 3.0.6. This project models the parts of
them with the hardest behaviour and proves what they are for: the cluster protocol,
the append-only file, the bit kernels, the key index with its CRC, and two support
structures. It needs nothing but Dafny 4.11; `dafny verify dfyconfig.toml` checks all of it.

**Cluster** (`cluster.c`). `Election` is the slave election as a protocol: nodes, a bag
of messages that are delayed, reordered and lost, and steps; its theorem is that at most
one node wins an epoch in every run in which no ACK outlives its attempt. `ElectionLate`
says exactly how many late ACKs it takes to break that, for every set of voters.
`ElectionNode` is the code of the handlers, each proved to be a step of that protocol. `EpochCollision` bounds the bumps of colliding
configuration epochs by 2^k - 1 and shows that resolution is quiet exactly when all epochs
are distinct. `SlotConvergence` gives the exact condition under which deliveries of slot
claims converge. `SlotBitmap` and `ClusterSlots` are the slot table, the bitmaps and the
counters on the heap, kept in step by every operation. `FailReports` cleans a list while
iterating over it, by the general theorem of `ListWalk`.

**Append-only file** (`aof.c`). `AofCodec` is the encoder and the loader, with round trip
and recovery of every cut file. `AofFlush` conserves the stream whatever the system calls
return. `AofRewriteBuffer` is the block list, `AofDiffProtocol` the two processes and their
pipes. `Dataset` says what replaying a command does; `AofSnapshot` and `AofRewrite` write
the commands that rebuild the keys; `AofReplay` is what is fed to the file; `AofServer` joins
all of it: in every run of commands, expirations and rewrites the file loads to the live
databases, but for expired keys, and it says exactly which clock differences break that.

**Bit kernels** (`bitops.c`): `BitCount`, `BitSearch`, `BitOp`. **Keys** (`db.c`,
`crc16.c`): `Crc16`, `Crc16Division`, `KeySlot`, `SlotNumber`, `SlotIndex`, `KeyIndex`.
**Support** (`adlist.c`, `bio.c`): `AdList`, `ListWalk`, `BioQueue`. `Basics` holds what several modules use.

Imperative code is modelled as classes and methods with loops, each proved against a
specification function; the theorems are about those functions. System calls, clocks,
random delays and the order in which dictionaries are visited are parameters. Bytes are
`bv8` in the bit kernels and `char` in the append-only file. A `dict` is a map, the
skiplist of the key index a sorted sequence, `ll2string` decimal printing,
`REDIS_AOF_REWRITE_ITEMS_PER_CMD` any K >= 1.

Where the code and its comments differ the model follows the code:
`clusterDelNodeSlots` is commented as returning the number of slots deleted and always
returns 16384; an attempt that is rescheduled counts late ACKs until it starts; a block of
the rewrite buffer does not get back the space of bytes sent.

Some promises do not hold of the code on all inputs, and are proved with their exact condition.
Elections are safe with up to L late ACKs if and only if L + N < 2 * quorum
(`SafeIffFewLateAcks`). Claims with distinct epochs do not always converge: a node that claims
twice can shadow another node's claim (`ConvergesIffUnshadowed`). An expire time fed to the file
is exact if and only if the clock reads the same when the command runs and when it is fed
(`ClockExact`, `FeedExact`). A rewrite ends well, whatever the parent does meanwhile, if and only
if the file is not off and no key expires between the parent's clock reading at the fork and the
child's (`ForkExact`); with the file off it saves the databases of the fork (`OneTimeRewrite`).
A slave that knows no master crashes on exactly the claims with a free slot
(`UpdateSlotsConfigWith`).

## Model

| member | source | states |
|---|---|---|
| `Election.StepInv` | redis-3.0.6/src/cluster.c:1598-1603 | every step of the election protocol keeps: no vote or attempt of a node lies in its future, at most one vote per voter and epoch, every ACK in flight is an uncounted vote of which there is one, every count is the genuine votes of the attempt plus the late ones, every win has a quorum behind it |
| `Election.DeliverRequestInv` | redis-3.0.6/src/cluster.c:2463-2563 | a vote request, granted or not, keeps that invariant |
| `Election.DeliverAckInv` | redis-3.0.6/src/cluster.c:1925-1937 | a vote received, counted or not, keeps that invariant |
| `Election.GrantInv` | redis-3.0.6/src/cluster.c:2477-2560 | a granted vote is for the voter's current epoch, is its only one there, and is for an attempt of the candidate |
| `Election.CountAckInv` | redis-3.0.6/src/cluster.c:1930-1933 | an ACK that counts belongs to the current attempt and its voter was not in the count |
| `Election.RescheduleInv` | redis-3.0.6/src/cluster.c:2770-2775 | a newly scheduled attempt keeps the invariant with count and history reset and the epoch of the last attempt kept |
| `Election.LaunchInv` | redis-3.0.6/src/cluster.c:2833-2844 | an attempt started under a new epoch keeps the invariant: no vote and no ACK for that epoch exists yet |
| `Election.ElectInv` | redis-3.0.6/src/cluster.c:2847-2857 | a node that reaches the quorum has that many supporters, not counting late ACKs |
| `Election.RunInv` | redis-3.0.6/src/cluster.c:2701-2866 | the invariant holds in every state of every run |
| `Election.VoteOnce` | redis-3.0.6/src/cluster.c:2490-2497 | in every run a voter votes at most once per epoch |
| `Election.StepMonotone` | redis-3.0.6/src/cluster.c:1601-1603 | no step takes an epoch of a node back |
| `Election.RunMonotone` | redis-3.0.6/src/cluster.c:2833-2835 | currentEpoch, lastVoteEpoch and the attempt epoch of a node never go back in a run |
| `Election.SupportersApart` | redis-3.0.6/src/cluster.c:2490-2497 | supporters of two candidates in one epoch are disjoint sets of voters |
| `Election.TwoWinnersNeedLateAcks` | redis-3.0.6/src/cluster.c:2770-2775 | two nodes can win one epoch only if late ACKs make up for 2 * quorum - N votes; that so many suffice is ElectionLate.TwoWinners |
| `Election.RunNoneLate` | redis-3.0.6/src/cluster.c:1930-1933 | a run in which no ACK outlives its attempt has no late ACK in any count |
| `Election.ElectionSafety` | redis-3.0.6/src/cluster.c:2703-2852 | in every run in which no ACK outlives its attempt, at most one node wins any epoch |
| `ElectionLate.TwoWinners` | redis-3.0.6/src/cluster.c:2770-2835 | for every set of voters there is a run, with ACKs counted between scheduling and starting, in which two nodes win one epoch with 2 * quorum - N late ACKs between them |
| `ElectionLate.SafeIffFewLateAcks` | redis-3.0.6/src/cluster.c:2770-2852 | election safety, exactly: with up to L late ACKs in the two counts at most one node wins an epoch, in every run, if and only if L + N < 2 * quorum, that is L = 0, or L = 1 and N even |
| `ElectionNode.Node.HearHeader` | redis-3.0.6/src/cluster.c:1598-1603 | hearing a packet is the protocol's epoch update |
| `ElectionNode.Node.SendFailoverAuthIfNeeded` | redis-3.0.6/src/cluster.c:2463-2563 | a vote is granted if and only if this is a master with slots, the request's epoch is not behind, no vote was given in the current epoch, the sender is a slave of a failed master or forced, two timeouts have passed since a vote for that master, and every claimed slot is served under no greater epoch; a refusal changes nothing |
| `ElectionNode.Node.ClaimsUpToDate` | redis-3.0.6/src/cluster.c:2538-2555 | the slot loop finds out exactly whether a claimed slot is served under a greater epoch |
| `ElectionNode.Node.ReceiveAck` | redis-3.0.6/src/cluster.c:1925-1937 | an ACK is counted exactly from a master with slots whose epoch is not below the attempt's |
| `ElectionNode.Node.SlaveRank` | redis-3.0.6/src/cluster.c:2577-2591 | the rank is the number of other slaves of the master with a greater offset |
| `ElectionNode.Node.ScheduleAttempt` | redis-3.0.6/src/cluster.c:2770-2798 | an attempt is scheduled with its delay by rank, or at once for a manual failover |
| `ElectionNode.Node.UpdateRank` | redis-3.0.6/src/cluster.c:2805-2818 | the rank becomes the current one exactly if that is worse, no votes were asked for and no manual failover runs; the attempt is delayed by one second per rank |
| `ElectionNode.Node.StartAttempt` | redis-3.0.6/src/cluster.c:2833-2844 | asking for votes is the protocol's start of an attempt |
| `ElectionNode.Node.AdoptEpoch` | redis-3.0.6/src/cluster.c:2853-2859 | the winner's configuration epoch is at least that of the election |
| `ElectionNode.CheckDataAge` | redis-3.0.6/src/cluster.c:2738-2766 | the data is too old exactly if a factor is set and its age, less one timeout if it is longer, is above the ping period plus factor times timeout |
| `ElectionNode.Node.CheckMaster` | redis-3.0.6/src/cluster.c:2722-2736 | there is a reason to fail over exactly for a slave whose master has slots and has failed, or a manual failover |
| `ElectionNode.Node.Attempt` | redis-3.0.6/src/cluster.c:2768-2865 | which of scheduling, waiting, expiring, asking, lacking votes and winning happens, each under its exact condition on the times and votes |
| `ElectionNode.Node.HandleSlaveFailover` | redis-3.0.6/src/cluster.c:2701-2866 | every outcome of the handler is none or one step of the protocol, under exactly the stated conditions on master, data age, times and votes, with the rank and the time of the attempt it leaves |
| `EpochCollision.MasterNode.ProcessPacket` | redis-3.0.6/src/cluster.c:1598-1609 | a packet raises epochs and resolves a collision as the specification says |
| `EpochCollision.MasterNode.HandleConfigEpochCollision` | redis-3.0.6/src/cluster.c:1042-1057 | the collision handler takes a new epoch exactly when the sender has this epoch and a greater name |
| `EpochCollision.StepInv` | redis-3.0.6/src/cluster.c:1871-1876 | every packet sent or delivered keeps: a master's epoch is not above its current epoch, epochs given up are below it and were held under a greater name, what is seen of a master is not above its epoch |
| `EpochCollision.BumpRises` | redis-3.0.6/src/cluster.c:1049-1051 | a new epoch is strictly greater than the old one and every epoch heard, and is taken only on an epoch held by a master with a greater name |
| `EpochCollision.HeldBeforeBound` | redis-3.0.6/src/cluster.c:1042-1057 | the masters of the i greatest names hold fewer than 2^i epochs between them |
| `EpochCollision.BumpsBounded` | redis-3.0.6/src/cluster.c:1042-1057 | in every run the master ranked k from the greatest name takes a new epoch at most 2^k - 1 times |
| `EpochCollision.AllBumpsBounded` | redis-3.0.6/src/cluster.c:1042-1057 | in every run the masters of the k greatest names take at most 2^k - k - 1 new epochs in all, so resolution terminates |
| `EpochCollision.QuietIffDistinct` | redis-3.0.6/src/cluster.c:1871-1876 | in every reachable state no delivery of current epochs causes a new epoch if and only if all masters' epochs are distinct |
| `SlotConvergence.ReceivedClaimed` | redis-3.0.6/src/cluster.c:1444-1504 | slots are owned by nodes that claimed them, epochs known are epochs claimed |
| `SlotConvergence.PingTakes` | redis-3.0.6/src/cluster.c:1604-1609 | delivering the top claim of a slot that is not shadowed gives the slot to its node |
| `SlotConvergence.UpdateTakes` | redis-3.0.6/src/cluster.c:1950-1971 | delivering the top claim of a slot that is not shadowed as an UPDATE gives the slot to its node if the claim has a greater epoch than is known, else changes nothing |
| `SlotConvergence.ReceivedKeeps` | redis-3.0.6/src/cluster.c:1478-1484 | no later delivery takes the slot from that node |
| `SlotConvergence.Converges` | redis-3.0.6/src/cluster.c:1444-1504 | whatever the order and repetition of deliveries, a slot whose top claim is not shadowed ends with the node of that claim |
| `SlotConvergence.Diverges` | redis-3.0.6/src/cluster.c:1482-1483 | a slot whose top claim is shadowed by an older claim of a node with a greater epoch ends with another node under some delivery |
| `SlotConvergence.ConvergesIffUnshadowed` | redis-3.0.6/src/cluster.c:1444-1504 | every delivery gives the slot to its highest-epoch claimant if and only if no other claimant of the slot makes any claim above that epoch |
| `SlotConvergence.OrderDoesNotMatter` | redis-3.0.6/src/cluster.c:1444-1504 | with one claim per node and distinct epochs, any two deliveries of the same claims end with the same owners |
| `SlotConvergence.DistinctEpochsDoNotSuffice` | redis-3.0.6/src/cluster.c:1604-1609 | a concrete set of claims with distinct epochs that does not converge: one node claims twice |
| `SlotBitmap.TestBit` | redis-3.0.6/src/cluster.c:3336-3340 | the test says whether the position is in the set of the bitmap |
| `SlotBitmap.LowestFirst` | redis-3.0.6/src/cluster.c:3336-3340 | a bit of a byte is the lowest one after shifting right by its position |
| `SlotBitmap.SetBit` | redis-3.0.6/src/cluster.c:3343-3347 | setting a bit adds its position and changes no other |
| `SlotBitmap.ClearBit` | redis-3.0.6/src/cluster.c:3350-3354 | clearing a bit removes its position and changes no other |
| `ClusterSlots.ClusterNode.SetSlotBit` | redis-3.0.6/src/cluster.c:3357-3362 | the bit is set, the old value returned, the count stays the number of set bits |
| `ClusterSlots.ClusterNode.ClearSlotBit` | redis-3.0.6/src/cluster.c:3365-3370 | the bit is cleared, the old value returned, the count stays the number of set bits |
| `ClusterSlots.ClusterState.AddSlot` | redis-3.0.6/src/cluster.c:3381-3386 | an unassigned slot is assigned, an assigned one refused; table, bitmaps and counts stay in step |
| `ClusterSlots.ClusterState.DelSlot` | redis-3.0.6/src/cluster.c:3391-3398 | a slot is unassigned and the assertion on its bit never fails; table, bitmaps and counts stay in step |
| `ClusterSlots.ClusterState.DelNodeSlots` | redis-3.0.6/src/cluster.c:3402-3410 | exactly the node's slots are unassigned; the result is always 16384 |
| `ClusterSlots.ClusterState.NoSlots` | redis-3.0.6/src/cluster.c:3357-3370 | in a coherent state a node's count is the number of slots the table gives it |
| `ClusterSlots.ClusterState.FailoverReplaceYourMaster` | redis-3.0.6/src/cluster.c:2663-2690 | exactly the old master's slots move to the promoted slave, which becomes a master; nothing happens to a master or a slave without master |
| `ClusterSlots.ReplacedSlots` | redis-3.0.6/src/cluster.c:2674-2679 | after that move the slave serves its slots and the old master's, the old master none, every other node the same |
| `ClusterSlots.ClusterState.RebindSlot` | redis-3.0.6/src/cluster.c:1468-1503 | a slot goes to the sender if and only if it is claimed, not importing and unassigned or under a smaller epoch, or was the sender's; an importing slot keeps its owner whoever that is, and no other slot changes |
| `ClusterSlots.ClusterState.RebindSlots` | redis-3.0.6/src/cluster.c:1467-1504 | the same for every slot of the pass; it tells whether the master lost one, and lists the slots lost with keys |
| `ClusterSlots.ClusterState.ReboundMeans` | redis-3.0.6/src/cluster.c:1467-1504 | what the pass specification means slot by slot: importing slots keep their owner, the sender gets exactly the claimed slots that are unassigned or under a smaller epoch, every other slot keeps its owner |
| `ClusterSlots.DirtyIsLost` | redis-3.0.6/src/cluster.c:1485-1493 | the list holds exactly the slots the node lost with keys in them, each once, in order |
| `ClusterSlots.ClusterState.UpdateSlotsConfigWith` | redis-3.0.6/src/cluster.c:1444-1531 | each slot ends with the sender or its old owner under those conditions, importing slots with their old owner, and the table stays coherent; importing and migrating entries change only if a master is demoted; the node follows the sender exactly if its master lost its last slot to it, else the keys of the slots it lost are deleted; the code crashes exactly for a slave without master and a claimed slot that is unassigned and not importing |
| `ClusterSlots.ClusterState.FollowsNullIffLost` | redis-3.0.6/src/cluster.c:1495-1513 | that is exactly when a null master seems to have lost a slot |
| `ClusterSlots.ClusterState.SetMaster` | redis-3.0.6/src/cluster.c:3601-3617 | the node becomes a replica, its assertions never fail, and a master's open slots are closed |
| `ClusterSlots.ClusterState.TurnIntoSlave` | redis-3.0.6/src/cluster.c:1771-1784 | a master that says it is a slave keeps no slot, so only masters serve slots |
| `ClusterSlots.ClusterState.DelNode` | redis-3.0.6/src/cluster.c:870-897 | no slot, importing or migrating entry, node or slaveof refers to the removed node, and the rest is unchanged and coherent |
| `AdList.List.AddNodeHead` | redis-3.0.6/src/adlist.c:80-99 | refines prepending a value and keeps the links |
| `AdList.List.AddNodeTail` | redis-3.0.6/src/adlist.c:106-124 | refines appending a value and keeps the links |
| `AdList.List.InsertNode` | redis-3.0.6/src/adlist.c:126-153 | refines inserting a value before or after a node and keeps the links |
| `AdList.List.DelNode` | redis-3.0.6/src/adlist.c:159-172 | refines removing the node's position and keeps the links |
| `AdList.List.GetIterator` | redis-3.0.6/src/adlist.c:178-189 | the iterator starts at the head or the tail |
| `AdList.Iter.Next` | redis-3.0.6/src/adlist.c:221-232 | the iterator returns the node it stands at and moves on to its neighbour |
| `ListWalk.Walk` | redis-3.0.6/src/adlist.c:178-232 | walking from either end and deleting any of the nodes just returned, every value is returned exactly once, in order, and what remains is exactly what was not deleted, in order |
| `ListWalk.VisitOne` | redis-3.0.6/src/adlist.c:159-232 | deleting the node just returned leaves the iterator at the neighbour it would have come to |
| `AdList.List.SearchKey` | redis-3.0.6/src/adlist.c:285-305 | finds the first node that matches the key by the list's match function or by equality, or none if none does |
| `AdList.List.Index` | redis-3.0.6/src/adlist.c:313-325 | finds the node at an index from the head, or from the tail for a negative one, or none out of range |
| `AdList.List.Rotate` | redis-3.0.6/src/adlist.c:328-341 | refines moving the last element to the front and keeps the links |
| `FailReports.CleanupFailureReports` | redis-3.0.6/src/cluster.c:721-735 | deleting nodes while iterating keeps exactly the reports not too old, in order; an instance of ListWalk.Walk |
| `FailReports.KeepIsFresh` | redis-3.0.6/src/cluster.c:730-734 | what is kept is exactly the fresh reports |
| `FailReports.AddFailureReport` | redis-3.0.6/src/cluster.c:691-714 | a known reporter is stamped again, a new one added |
| `FailReports.DelFailureReport` | redis-3.0.6/src/cluster.c:748-766 | the reporter's report is removed and the old ones cleaned up; an unknown reporter changes nothing |
| `FailReports.FailureReportsCount` | redis-3.0.6/src/cluster.c:771-774 | the count is the number of fresh reports |
| `FailReports.AddedOnePerNode` | redis-3.0.6/src/cluster.c:699-713 | adding keeps one report per reporting node, with the new time |
| `FailReports.RemovedOnePerNode` | redis-3.0.6/src/cluster.c:755-765 | removing keeps one report per node and leaves none of the reporter |
| `FailReports.KeepOnePerNode` | redis-3.0.6/src/cluster.c:730-734 | cleaning up keeps one report per node |
| `AofCodec.CatAppendOnlyGenericCommand` | redis-3.0.6/src/aof.c:435-458 | the loop appends exactly the encoding of the command |
| `AofCodec.ArgRead` | redis-3.0.6/src/aof.c:654-675 | an encoded argument with any bytes is read back and the rest left |
| `AofCodec.ArgCut` | redis-3.0.6/src/aof.c:654-675 | every proper beginning of an encoded argument reads as an early end of file |
| `AofCodec.CommandRead` | redis-3.0.6/src/aof.c:639-675 | an encoded command is read back, whatever follows it |
| `AofCodec.CommandCut` | redis-3.0.6/src/aof.c:639-675 | every proper nonempty beginning of an encoded command reads as an early end of file |
| `AofCodec.LoadAppendOnlyFile` | redis-3.0.6/src/aof.c:599-741 | the loader runs exactly the commands the specification reads, for every file, and ends as it says; the valid length is kept only when truncated files are allowed |
| `AofCodec.ReadOne` | redis-3.0.6/src/aof.c:639-675 | one turn of the loop reads one command or stops with its error |
| `AofCodec.LongLine` | redis-3.0.6/src/aof.c:639-644 | a line with no newline in its first 127 bytes is cut there |
| `AofCodec.NotACommand` | redis-3.0.6/src/aof.c:645 | anything that does not start with * is a format error and nothing of it runs |
| `AofCodec.EmptyCommand` | redis-3.0.6/src/aof.c:646-648 | a command written with no arguments is a format error and nothing of it runs |
| `AofCodec.NumberLimits` | redis-3.0.6/src/aof.c:647-661 | a length read is a 64-bit integer, and a count read is a 32-bit one that agrees with it modulo 2^32 |
| `AofCodec.LoadSucceeds` | redis-3.0.6/src/aof.c:603-741 | any file loads if and only if it is not empty and nothing of it is left unread, or it ends early and that is allowed and can be cut off |
| `AofCodec.PrefixRecovery` | redis-3.0.6/src/aof.c:639-696 | however a file of commands is cut, exactly the commands wholly before the cut run, the valid length is the end of the last of them, and the cut is noticed unless it falls between commands |
| `AofCodec.ContainedIsMost` | redis-3.0.6/src/aof.c:639-696 | that is the greatest number of commands whose encodings fit in the file |
| `AofCodec.RoundTrip` | redis-3.0.6/src/aof.c:435-741 | loading the encoding of any commands runs those commands |
| `AofCodec.TruncatedLoads` | redis-3.0.6/src/aof.c:718-741 | with truncated files allowed every beginning of a file loads and is cut to its whole commands |
| `AofCodec.LoadLeavesSuffix` | redis-3.0.6/src/aof.c:639-700 | for every file what is left unread is its end, and loading ends without an error exactly if nothing is left |
| `AofCodec.CutFilesExit` | redis-3.0.6/src/aof.c:710-741 | with truncated files not allowed a cut inside a command makes the server exit, a cut between commands does not matter |
| `AofFlush.AppendOnlyFile.FlushAppendOnlyFile` | redis-3.0.6/src/aof.c:273-411 | a flush with any results of write and ftruncate keeps the stream held by file and buffer, and does what the specification says, which FlushWrites and IncompleteWrite state outright |
| `AofFlush.AppendOnlyFile.FeedBuffer` | redis-3.0.6/src/aof.c:531-535 | if file and buffer hold a stream, after a feed they hold the stream with the data at its end |
| `AofFlush.FlushWrites` | redis-3.0.6/src/aof.c:278-328 | in every run, a flush of a nonempty buffer whose write is complete leaves the whole stream in the file and counts a delayed sync if one runs, except exactly when the policy is everysec, it is not forced, a sync runs and it was not postponed before or for less than two seconds; then it changes only the start of the postponing |
| `AofFlush.IncompleteWrite` | redis-3.0.6/src/aof.c:330-390 | the server exits exactly after an incomplete write under the policy always, and otherwise notes an error exactly after an incomplete write |
| `AofFlush.TwoSeconds` | redis-3.0.6/src/aof.c:283-304 | in every run, what was fed before a flush is in the file after any flush two seconds or more later, forced or not and whether or not a sync runs, if the writes from the first on are complete |
| `AofFlush.StepConserves` | redis-3.0.6/src/aof.c:273-411 | a flush moves bytes from the buffer to the file or back, and loses none |
| `AofFlush.RunConserves` | redis-3.0.6/src/aof.c:273-411 | from a file of any contents, over every run of feeds and flushes, file ++ buffer is the old contents ++ the stream fed and the recorded size is the file's; a server that exits leaves a prefix |
| `AofFlush.FlushedOut` | redis-3.0.6/src/aof.c:312-390 | a forced flush with a complete write leaves the whole stream in the file |
| `AofRewriteBuffer.Block.Fill` | redis-3.0.6/src/aof.c:131-137 | bytes are copied behind the used ones; used and free stay within the block |
| `AofRewriteBuffer.Block.Drop` | redis-3.0.6/src/aof.c:115-116 | sent bytes are moved out; the space is not given back |
| `AofRewriteBuffer.RewriteBuffer.Append` | redis-3.0.6/src/aof.c:123-167 | appending across blocks adds exactly the bytes to what is pending |
| `AofRewriteBuffer.RewriteBuffer.WriteDiffData` | redis-3.0.6/src/aof.c:94-120 | what is sent is a beginning of what was pending and the rest stays, in order; unless sending is stopped it goes on until nothing is pending or the pipe takes no more, each call of write taking at least one byte |
| `AofRewriteBuffer.RewriteBuffer.BufferSize` | redis-3.0.6/src/aof.c:78-89 | the size is the number of bytes pending |
| `AofRewriteBuffer.RewriteBuffer.BufferWrite` | redis-3.0.6/src/aof.c:172-192 | the final write writes everything pending and returns its length, or fails having written a beginning of it |
| `AofRewriteBuffer.RewriteBuffer.Reset` | redis-3.0.6/src/aof.c:69-75 | nothing is pending after a reset |
| `AofDiffProtocol.StepConserved` | redis-3.0.6/src/aof.c:94-192 | every step of parent or child keeps: fed = child's diff ++ pipe ++ blocks |
| `AofDiffProtocol.StepOrdered` | redis-3.0.6/src/aof.c:1135-1154 | every step keeps: from the ack on the parent does not send, after the drain the pipe is empty |
| `AofDiffProtocol.RunConserves` | redis-3.0.6/src/aof.c:1002-1012 | in every interleaving, at every point, the bytes fed since the fork are child's diff ++ pipe ++ blocks |
| `AofDiffProtocol.DrainedIsComplete` | redis-3.0.6/src/aof.c:1135-1147 | after the ack and the final drain the pipe is and stays empty |
| `AofDiffProtocol.RewriteIsSnapshotAndDiff` | redis-3.0.6/src/aof.c:1386-1390 | a rewrite that succeeds leaves exactly the snapshot and then all bytes fed since the fork |
| `AofDiffProtocol.CanSucceed` | redis-3.0.6/src/aof.c:1002-1207 | for every snapshot and data fed there is a run of the two processes, with a nonempty part sent through the pipe and the rest written at the end, that succeeds |
| `AofDiffProtocol.ReadDiffFromParent` | redis-3.0.6/src/aof.c:1002-1012 | the read loop takes everything in the pipe, in order |
| `AofSnapshot.Emit` | redis-3.0.6/src/aof.c:770-997 | the item loop, for any K, writes exactly the encoding of the items cut into commands of K |
| `AofSnapshot.ChunksBounded` | redis-3.0.6/src/aof.c:781-799 | every command names its key and carries at least one and at most K whole items |
| `AofSnapshot.ChunksFull` | redis-3.0.6/src/aof.c:770-997 | n items make exactly n / K commands, rounded up, and the first carries K items or all of them |
| `AofSnapshot.OneItem` | redis-3.0.6/src/aof.c:781-997 | a collection of one item is one command naming its kind, the key and the item |
| `AofSnapshot.EmittedParse` | redis-3.0.6/src/aof.c:770-997 | the bytes emitted for a collection load, wholly, as the commands they are meant to be |
| `AofSnapshot.ChunkAdds` | redis-3.0.6/src/aof.c:793-799 | a command adds its items to what the earlier ones built |
| `AofSnapshot.ChunksRebuild` | redis-3.0.6/src/aof.c:770-997 | replayed from an absent key, the commands rebuild the whole value |
| `AofSnapshot.ListRebuilt` | redis-3.0.6/src/aof.c:770-822 | the commands for a list rebuild the list |
| `AofSnapshot.SetRebuilt` | redis-3.0.6/src/aof.c:827-869 | the commands for a set rebuild the set, in whatever order it is visited |
| `AofSnapshot.SortedSetRebuilt` | redis-3.0.6/src/aof.c:874-938 | the commands for a sorted set rebuild its scores |
| `AofSnapshot.HashRebuilt` | redis-3.0.6/src/aof.c:973-997 | the commands for a hash rebuild its fields |
| `AofRewrite.RewriteKey` | redis-3.0.6/src/aof.c:1075-1100 | the bytes for a key are the encoding of the commands that rebuild it |
| `AofRewrite.KeyRebuilt` | redis-3.0.6/src/aof.c:1075-1100 | those commands rebuild the key with its expire time |
| `AofRewrite.RewriteDb` | redis-3.0.6/src/aof.c:1060-1106 | the bytes for a database are those of its keys that have not expired |
| `AofRewrite.RewriteAppendOnlyFile` | redis-3.0.6/src/aof.c:1045-1109 | the snapshot is the encoding of a SELECT and the keys of every database that has keys |
| `AofRewrite.SnapshotRebuilt` | redis-3.0.6/src/aof.c:1045-1109 | replaying a snapshot gives exactly the keys that had not expired when it was taken, in every database |
| `AofRewrite.SnapshotKeys` | redis-3.0.6/src/aof.c:1072-1073 | a key is left out of the snapshot exactly if its expire time is strictly before the clock reading |
| `AofRewrite.SnapshotStorable` | redis-3.0.6/src/aof.c:1045-1109 | every command of a snapshot can be loaded, if its strings and K fit the loader's integers |
| `AofReplay.Feeder.FeedAppendOnlyFile` | redis-3.0.6/src/aof.c:497-545 | a command is fed, with a SELECT if the database changed and relative times made absolute, to the buffer if the file is on and to the differences if a rewrite runs; FedTexts and FedSelects spell the text out |
| `AofReplay.Feeder.ExpireText` | redis-3.0.6/src/aof.c:467-495 | EXPIRE, PEXPIRE, EXPIREAT and PEXPIREAT are fed as PEXPIREAT of clock + 1000 * n, clock + n, 1000 * n and n |
| `AofReplay.FedTexts` | redis-3.0.6/src/aof.c:467-529 | the commands each request is fed as, written out with their absolute times |
| `AofReplay.FedSelects` | redis-3.0.6/src/aof.c:501-510 | a SELECT of the database is fed first exactly if it is not the one selected |
| `AofReplay.LiveExpire` | redis-3.0.6/src/db.c:875-919 | an expire command sets that time on the live key, deletes the key if the time has passed, and does nothing to a missing key |
| `AofReplay.LiveSetEx` | redis-3.0.6/src/aof.c:516-523 | SETEX and PSETEX set the value with the time clock + 1000 * n or clock + n |
| `AofReplay.PerformedAlike` | redis-3.0.6/src/aof.c:509-529 | replaying what a command is fed as does to a database without the expired keys what the command did to the live one |
| `AofReplay.ExecFed` | redis-3.0.6/src/aof.c:501-510 | after a feed the replay has the database of the command selected, whatever was selected before |
| `AofReplay.ClockExact` | redis-3.0.6/src/aof.c:467-495 | a command of any kind, SETEX and PSETEX included, keeps live and replayed databases alike if and only if the clock reads the same when it runs and when it is fed, or it sets no time relative to the clock |
| `AofServer.ForkFollows` | redis-3.0.6/src/aof.c:1312-1316 | at the fork the child's snapshot replays to the live databases but for expired keys, if no key expires between the parent's clock reading and the child's |
| `AofServer.StepInv` | redis-3.0.6/src/aof.c:1450-1477 | commands, flushes, expirations, forks, finished and aborted rewrites, turning the file on and off all keep both streams replaying to the live databases with the selected database in step, unless a clock difference matters or the file is off |
| `AofServer.RunInv` | redis-3.0.6/src/aof.c:1450-1477 | so it is in every run in which no clock difference matters |
| `AofServer.RunStorable` | redis-3.0.6/src/aof.c:497-545 | in every run whose requests, keys and records fit the loader's integers, every command of both streams can be loaded |
| `AofServer.FileMeansLive` | redis-3.0.6/src/aof.c:497-545 | in every such run, loading the bytes of the file and its buffer gives the live databases but for expired keys |
| `AofServer.RewriteMeansLive` | redis-3.0.6/src/aof.c:1450-1477 | the file a rewrite leaves in any interleaving of the two processes loads to the live databases unless the file is off, so the old buffer may be dropped |
| `AofServer.FinishTurnsOn` | redis-3.0.6/src/aof.c:1450-1477 | a finished rewrite leaves the file on if and only if it was on or waiting; it then follows the live databases and the next command fed to it starts with SELECT |
| `AofServer.OneTimeRewrite` | redis-3.0.6/src/aof.c:1450-1453 | with the file off a rewrite saves the databases of the fork, whatever the parent does meanwhile, and the file stays off |
| `AofServer.FlushesEmpty` | redis-3.0.6/src/db.c:253-277 | FLUSHDB empties its database, live and replayed, and FLUSHALL all of them |
| `AofServer.FeedExact` | redis-3.0.6/src/aof.c:467-495 | in every state that follows, a command keeps the file following if and only if the clock reads the same when it runs and when it is fed, or it sets no relative time |
| `AofServer.ForkExact` | redis-3.0.6/src/aof.c:1031-1073 | whatever the parent does after a fork, once its clock has reached the child's reading the new file follows it, if and only if the file is on or turned on and no live key expires between the two readings |
| `AofServer.LateChildLosesKey` | redis-3.0.6/src/aof.c:1072-1073 | for every key that expires between the two readings there is a continuation, in which the parent prolongs the key, that loses it from the new file |
| `BitCount.TableIsBitSum` | redis-3.0.6/src/bitops.c:65 | each entry of the byte table is the number of bits of its index |
| `BitCount.ReduceWord` | redis-3.0.6/src/bitops.c:87-107 | the shifts and masks turn a word into the bit counts of its bytes |
| `BitCount.LaneExact` | redis-3.0.6/src/bitops.c:101-107 | the sum of seven counts in an 8-bit lane does not overflow |
| `BitCount.SpreadSums` | redis-3.0.6/src/bitops.c:101-107 | the multiplication sums the four lanes |
| `BitCount.BlockCountIsBitSum` | redis-3.0.6/src/bitops.c:75-108 | a 28-byte block adds exactly the number of its bits |
| `BitCount.RedisPopcount` | redis-3.0.6/src/bitops.c:61-113 | for every string and alignment the result is the sum of its bits |
| `BitSearch.ScanHit` | redis-3.0.6/src/bitops.c:165-194 | a hit in the last word is a hit in the string |
| `BitSearch.ScanFinds` | redis-3.0.6/src/bitops.c:180-199 | the scan of the last word always finds the bit, so the panic is unreachable |
| `BitSearch.ScanWord` | redis-3.0.6/src/bitops.c:186-199 | the scan returns the first matching bit of the last word |
| `BitSearch.RedisBitpos` | redis-3.0.6/src/bitops.c:122-200 | for every string, alignment and bit the first position in most-significant-first order, -1 for an absent 1, the length in bits for an absent 0 |
| `BitOp.Collect` | redis-3.0.6/src/bitops.c:319-351 | maxlen and minlen are the true maximum and minimum length, a missing key counting as empty, a wrong type stopping the command |
| `BitOp.FastPath` | redis-3.0.6/src/bitops.c:362-422 | the word loop computes the byte definition on all whole blocks inside the shortest input |
| `BitOp.CombineByte` | redis-3.0.6/src/bitops.c:425-437 | the byte tail computes the byte definition with missing bytes as zero |
| `BitOp.Run` | redis-3.0.6/src/bitops.c:354-438 | for every operation and inputs the result is the zero-padded byte-by-byte definition |
| `BitOp.Bitop` | redis-3.0.6/src/bitops.c:288-458 | the command stores that result, deletes the target if it is empty, and refuses wrong arguments or types |
| `BitOp.BitByBit` | redis-3.0.6/src/bitops.c:354-438 | a bit of the result is set if and only if it is set in all inputs (AND), in some input (OR), in an odd number of inputs (XOR), or not in the input (NOT), inputs being clear behind their end |
| `Crc16.TableIsDivision` | redis-3.0.6/src/crc16.c:47-80 | the 256 table entries are the remainders of the 256 bytes |
| `Crc16.TableStepDivides` | redis-3.0.6/src/crc16.c:85-86 | one turn of the loop is eight steps of bitwise division |
| `Crc16.ComputeCrc` | redis-3.0.6/src/crc16.c:82-88 | the loop divides the whole string bit by bit |
| `Crc16Division.RegisterIsRemainder` | redis-3.0.6/src/crc16.c:32-44 | bitwise division leaves message * x^16 = quotient * generator + register, as polynomials over GF(2) |
| `Crc16Division.RemainderUnique` | redis-3.0.6/src/crc16.c:32-44 | there is one such remainder of degree below 16 |
| `Crc16Division.CrcIsTheRemainder` | redis-3.0.6/src/crc16.c:82-88 | the table-driven CRC is that remainder |
| `KeySlot.ComputeKeyHashSlot` | redis-3.0.6/src/cluster.c:620-639 | the two searches and the CRC compute the slot of the specification, which SlotNumber.SlotIsRemainder gives as a number |
| `KeySlot.HashedPartIsHashed` | redis-3.0.6/src/cluster.c:620-639 | what is hashed is the text between the first { and the next } if it is not empty, else the key |
| `KeySlot.SameTagSameSlot` | redis-3.0.6/src/cluster.c:620-639 | any two keys with the same nonempty tag share a slot |
| `KeySlot.KeyHashSlot` | redis-3.0.6/src/cluster.c:620-639 | a slot is below 16384 |
| `SlotNumber.SlotIsRemainder` | redis-3.0.6/src/cluster.c:620-639 | the slot is the low fourteen binary digits, read as a number, of the polynomial remainder of the hashed part, and the CRC modulo 16384 |
| `SlotNumber.SlotIsNumber` | redis-3.0.6/src/cluster.c:629-638 | the slot of a register is its low fourteen binary digits read as a number |
| `SlotNumber.EverySlotUsed` | redis-3.0.6/src/cluster.c:620-639 | every slot below 16384 is the slot of some key |
| `SlotNumber.CheckValue` | redis-3.0.6/src/crc16.c:32-44 | the CRC of 123456789 is 0x31C3 |
| `SlotIndex.InsertSorted` | redis-3.0.6/src/db.c:1164-1169 | inserting keeps the index sorted and adds exactly the entry |
| `SlotIndex.DeleteSorted` | redis-3.0.6/src/db.c:1171-1175 | deleting keeps the index sorted and removes exactly the entry |
| `SlotIndex.SlotRange` | redis-3.0.6/src/db.c:1220-1247 | the entries of a slot are the stretch between the first entries of two slots |
| `KeyIndex.IndexDetermined` | redis-3.0.6/src/db.c:1164-1180 | the dictionary determines the index |
| `KeyIndex.Db.DbAdd` | redis-3.0.6/src/db.c:93-101 | a new key is added to dictionary and index |
| `KeyIndex.Db.DbOverwrite` | redis-3.0.6/src/db.c:107-113 | a value is replaced; index and expires stay |
| `KeyIndex.Db.DbDelete` | redis-3.0.6/src/db.c:162-172 | a key is removed from dictionary, expires and index |
| `KeyIndex.Db.SetKey` | redis-3.0.6/src/db.c:120-129 | a key is set whatever it held, and its expire cleared |
| `KeyIndex.Db.ExpireIfNeeded` | redis-3.0.6/src/db.c:828-862 | a key is dropped exactly if its time has passed and nothing forbids it |
| `KeyIndex.Db.RenameGeneric` | redis-3.0.6/src/db.c:667-703 | RENAME and RENAMENX: the four replies and exactly what each changes; when renamed the old name is in neither dictionary, the new one has its value and its expire time or none, and every other key is untouched |
| `KeyIndex.Db.RemoveExpire` | redis-3.0.6/src/db.c:772-777 | an expire is removed |
| `KeyIndex.Db.SetExpire` | redis-3.0.6/src/db.c:779-787 | an expire is set |
| `KeyIndex.Db.Flush` | redis-3.0.6/src/db.c:1177-1180 | everything is emptied together |
| `KeyIndex.Db.GetKeysInSlot` | redis-3.0.6/src/db.c:1182-1196 | distinct keys of the slot, all of them if they fit |
| `KeyIndex.Db.CountKeysInSlot` | redis-3.0.6/src/db.c:1220-1247 | the rank arithmetic gives the number of keys in the slot |
| `KeyIndex.Db.DelKeysInSlot` | redis-3.0.6/src/db.c:1200-1218 | exactly the keys of the slot are removed, and counted |
| `BioQueue.StepInv` | redis-3.0.6/src/bio.c:126-199 | every step of producers, worker and readers keeps the queue invariant |
| `BioQueue.PendingIsLength` | redis-3.0.6/src/bio.c:126-199 | whenever the lock is free the pending counter is the queue length |
| `BioQueue.ExecutedInOrder` | redis-3.0.6/src/bio.c:140-187 | in every interleaving jobs run once and in submission order |
| `BioQueue.ZeroMeansAllDone` | redis-3.0.6/src/bio.c:193-199 | a reader told 0 knows that every submitted job has completed |
| `BioQueue.NoLostWakeup` | redis-3.0.6/src/bio.c:157-164 | a queue with jobs and a free lock never has its worker waiting |

## Left out

- `app/`, `config/`, `db/` and `frontend/`: the web application is database, HTTP and view code.
- CLUSTER RESET, TAKEOVER, manual failover timing, slave migration, admin commands that move slots: more cases, no harder invariant.
- Restart of a node: a granted vote is not saved before it is sent, so election safety is for runs without restart.
- Election: the set of voters is fixed and agreed on, and messages are not duplicated; epochs are unbounded and do not wrap at 2^64.
- ElectionNode: logging of the reason is not modelled, and the slots of a win move in `ClusterSlots`.
- EpochCollision: masters are numbered by name instead of comparing names; other sources of epochs are excluded.
- SlotConvergence: the receiving node makes no claim itself and imports no slot.
- ClusterSlots: lists of slaves, links, and the keys of lost slots are not kept; the result names the slots whose keys `delKeysInSlot` deletes. Importing and migrating tables are sequences.
- ClusterSlots.ClusterState.DelNode: failure reports from the removed node and lists of slaves are not part of this state, so their removal is not stated.
- AdList: `listDup`, `listRelease` and user-supplied dup and free functions.
- AofCodec.RoundTrip: commands have at least one argument, fewer than 2^31 of them, each shorter than 2^63 bytes, as the integers of the loader demand; a negative length in a file stands for an allocation that fails.
- MULTI/EXEC in the loader: at an end of file inside a transaction the valid length lies past its commands.
- AofFlush: fsync and its durability, logging and latency.
- AofDiffProtocol: a read of the data pipe is assumed to come back empty only if the pipe is empty.
- AofSnapshot.SortedSetRebuilt: scores are their text; printing and reading of doubles is not modelled.
- AofReplay: SET with expiry options, PERSIST of expired keys, MOVE and other commands that touch several databases, SORT with patterns and scripts; FLUSHDB and FLUSHALL are spelled out, and every other command is any function of the keys its arguments name.
- AofServer: the clock does not go back; turning the file on when the file or the fork fails is not modelled.
- BitOp: argument parsing and the reply length; replication and keyspace events.
- KeyIndex: values, shared objects and reference counts; MOVE and the databases other than 0.
- BioQueue: thread creation and shutdown, and what a job does.
- Network code, event loop, blocking operations, RDB files, allocation failure.
