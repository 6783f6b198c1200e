# syncfs: the last-write-wins reconciliation protocol

syncfs keeps one directory the same on several machines. Each change is announced as a broadcast
(`create`, `remove`), and announcements may be lost. What mends the loss is a second plane: every node
says what its tree hashes to (`state`), asks one node that differs by sending it a `digest` of all it
holds and all it remembers deleted, and that node adopts the deletions it missed and repairs, one paced
`create` at a time, the files the asker lacks.

The project models one node as a state machine (`Node`, `Settle`, `SyncLoop`), the same node as an
object whose operations change it in place (`Daemon.Replica`), the wire form its messages have, the
lattice its rules amount to, and any number of nodes on a network that loses, repeats and reorders.

| file | what is in it |
|---|---|
| `Paths`, `Maps` | byte strings, the order of a map keyed by path, loops over sorted maps, erasing by a predicate |
| `Decimal`, `Framing`, `Wire` | ticks in decimal, the NUL-closed entry, printing and parsing a whole map |
| `RootHash`, `Messages` | the two-level root hash; addressing, subscriptions, parts and what a receiver reads |
| `Reconcile`, `Lattice` | `beats`, `mark`, `expire`, `adoptable`, `gaps`, `pick`; the same read as joins of a total order |
| `Ladder`, `Repairs` | `arm` and `due`; one call of `publish_repairs` and what many of them do |
| `Files`, `LocalChanges` | the sorted merges; which changes are announced and what becomes of the tombstones |
| `Node`, `Effects`, `Inbound` | what each message makes of a node; all it changes and all it leaves alone; a message from its parts on the wire to what it makes |
| `Settle`, `Creates` | a create followed to the end of its transfer; many creates of one path |
| `Transfers` | a create still being transferred when the next message arrives |
| `Exchange`, `Gossip` | two nodes exchanging digests; any number of nodes meeting two at a time |
| `Swarm` | any number of nodes over any run, with their users writing and deleting |
| `Hearsay`, `Convergence` | runs in which word of every node gets round converge; agreement stays in reach of every run |
| `SyncLoop`, `Arrival`, `Daemon` | the loop and what its order keeps; what becomes of an announced file over its runs; the daemon's memory changed in place |
| `SavePath`, `Cadence` | where a torrent's file lands; how often a node speaks and how long it is remembered |

How the pieces meet. `Daemon.Replica` and the value-level methods it calls are proved equal to the
functions of `Node`, `Reconcile`, `Ladder`, `Repairs`, `LocalChanges` and `SyncLoop`, and one turn of
the loop (`Daemon.Replica.Turn`) to the state machine's events in the same order. `Settle` proves those
functions equal to `Lattice` on settled nodes: disk and listing agree, no path is both listed and
remembered deleted, and every torrent has its file and is of that file. `Exchange`, `Gossip`, `Swarm`,
`Hearsay` and `Convergence` run the functions of `Node` themselves and are proved by way of the lattice.

A torrent is made of the whole path of its file along with the bytes (`src/source.cpp:19-31`), so an info
hash belongs to one path. Where that matters it is a premise: `fileOf` names the file a hash was taken
over, and torrents and announcements are of the file they are for. `Settle.ArrivesExactlyIfOwn` shows
that it matters: `add_torrent` hands back a torrent the session has, so a file whose content is served
under another path never arrives.

Times are nanosecond ticks. Those on the wire and on files are signed 64-bit, as the parser has them;
moments of the clocks are unbounded integers. An info hash is a number and stands for a file's content.

## What the code does that one would not expect

* A live `remove` deletes without comparing times (`Creates.RemoveAlwaysDeletes`). It is a join exactly if
  there is no file or a strictly older one (`Creates.RemoveIsJoinExactlyIfNewer`), and it commutes with a
  create of the same path exactly if the create loses to a deletion (`Creates.CreateAndRemoveCommute`).
* `include/utils/utils.h:20-23` says that a time nobody can read becomes the epoch and so overwrites
  nothing. A create with such a time overwrites nothing exactly when the file here, or the deletion
  remembered of it, is from after the epoch (`Creates.MisspelledOverwritesNothing`); a remove with one
  deletes the file however new it is (`Creates.MisspelledRemoveStillDeletes`).
* A file listed under its own newer tombstone is not killed by a peer repeating that tombstone, so the
  joins need disjoint sets (`Lattice.UntidyTreeKeepsADeadFile`). Repairs and digests keep them disjoint.
* The joins are of creates followed through. A second create for a path still in transfer is judged by
  whatever is on the disk: the copy from before while nothing was written, the time of the write once
  something was (`src/protocol.cpp:131-140`). So an older create may take the place of a newer one, a newer
  one be refused, and the same content announced again be stamped before its file is written and end at
  the time of the write. `Transfers.OverlappingCreatesLeave` says which copy is left in every case,
  `Transfers.OverlappingCreatesKeepTheGreatest` exactly when it is the greatest, and
  `Transfers.OverlapsHappen` shows all three on a node that has just started.
* A digest read while a file is on its way, and carrying a deletion of a path not listed yet, leaves the
  file beside its own tombstone, where no repetition of that deletion reaches it
  (`Transfers.DigestDuringTransfer`, `Transfers.DeadFileStays`, `Transfers.DeadFileHappens`):
  `src/protocol.cpp:337-339` drops the torrent only of a path that was listed.
* That only the user's deletions are announced rests on the loop listing the tree between two messages
  (`SyncLoop.TwoMessagesAtOnceWouldRemove` shows what happens otherwise).
* A file lands where the sender has it exactly when the torrent's tail is all of the announced path or
  starts at a separator with something above it (`SavePath.SavePathLands`); the suffix test in the code
  does not look for a separator, and the trimming takes the root away with it. `join` gives the announced
  path back exactly when, besides, that path is not rooted (`SavePath.SavePathRestores`).

## Model

| member | source | states |
|---|---|---|
| Paths.OrderIsByName | src/reconcile.cpp:91-93 | the order a map keyed by path is walked in is that of the names, and of names byte by byte |
| Decimal.PrintThenRead | src/utils.cpp:107-121 | every 64-bit count of ticks survives being printed in decimal and read by the parser that refuses trailing garbage |
| Decimal.PrintExactly | src/reconcile.cpp:27 | a text is what a count prints as exactly if it is its shortest decimal spelling: a minus sign at most, no zero in front, no minus zero |
| Decimal.ReadExactly | src/utils.cpp:107-121 | a decimal count that fits 64 bits is read as its value by place, and any other text as the epoch |
| Framing.ReadForm | src/reconcile.cpp:35-50 | cut anywhere, a form is walked as exactly its first entries, those whose second NUL is inside the cut |
| Framing.FramesStandThere | src/reconcile.cpp:35-50 | whatever the bytes are, what is walked are entries that stand there one after the other, and what is left over closes at most one field |
| Wire.NextEntry | src/reconcile.cpp:35-50 | one turn of the walk: finds the next closed entry, or stops because none is left |
| Wire.Encode | src/reconcile.cpp:89-103 | the loop over the sorted map prints the pinned form |
| Wire.Decode | src/reconcile.cpp:123-139 | the loop over the form yields the map that later entries overwrite |
| Wire.RoundTrip | src/reconcile.cpp:123-139 | decoding the encoded form of any map of NUL-free paths to ticks gives the map back |
| Wire.EncodingInjective | src/reconcile.cpp:89-103 | two maps have the same form exactly if they are the same map |
| Wire.PrefixDecodes | src/reconcile.cpp:31-50 | decoding any prefix gives exactly the entries whose closing NUL lies inside it, never half of one |
| Wire.EncodedGrows | src/reconcile.cpp:23-29 | the form is pinned: nothing for the empty map, and for a path behind all others that path, a NUL, its ticks in decimal and a NUL |
| Wire.DecodedGrows | src/reconcile.cpp:123-139 | in any bytes that arrive, an entry that closes counts for its path over all before it and one that does not for nothing |
| RootHash.Hash | src/reconcile.cpp:105-121 | hashes the two digests of the two forms |
| RootHash.RootShown | src/reconcile.cpp:113-118 | files and deletions are each digested, in this order, and the two results together |
| RootHash.RootSeparates | src/reconcile.cpp:105-121 | absent a collision among the inputs involved, root hashes are equal exactly if both held maps and both tombstone maps are |
| RootHash.PlainConcatenation | src/reconcile.cpp:107-112 | the plain concatenation of the forms agrees exactly if the entries of both sets make one list |
| RootHash.HeldAndDeletedAreKeptApart | src/reconcile.cpp:107-112 | a node holding files and one remembering the same paths deleted at the same ticks: equal concatenations, different root hashes |
| Messages.VerbOfAddress | src/utils.cpp:136-138 | the verb of an addressed part is the verb it was addressed with |
| Messages.AddressIsPrefixFree | src/utils.cpp:128-134 | an address is a prefix of another exactly if verb and endpoint are the same |
| Messages.DigestReachesItsTargetOnly | src/protocol.cpp:191-201 | with these subscriptions a digest reaches exactly the node whose endpoint it names |
| Messages.BroadcastReachesEveryone | src/protocol.cpp:191-194 | create, remove and state reach every node |
| Messages.VerbOfExactly | src/utils.cpp:136-138 | a first part names a verb exactly if it is that verb or begins with it and a NUL |
| Messages.ReceivesExactly | src/protocol.cpp:191-201 | which first parts a node receives, whatever they are |
| Messages.PublishedExactly | src/source.cpp:37-126 | what each verb is published as, part by part |
| Messages.AcceptExactly | src/protocol.cpp:156-217 | exactly which parts are accepted and as what; an unknown verb is refused as such and any other count for its length |
| Messages.PublishedIsRead | src/protocol.cpp:203-233 | every published message is accepted and read as what it says, times included |
| Messages.TruncatedIsRefused | src/protocol.cpp:206-217 | a message that lost parts is refused for its length, whatever its verb |
| Inbound.PublishedArrives | src/syncfs.cpp:433-481 | what one node publishes another acts on as that very create, deletion, root hash or digest |
| Inbound.DigestArrives | src/syncfs.cpp:347-371 | a digest made of two maps is adopted from and answered as those two maps |
| Inbound.RefusedChangesNothing | src/syncfs.cpp:442-447 | parts that are refused, for their verb or their number, change nothing |
| Inbound.TruncatedChangesNothing | src/syncfs.cpp:442-447 | a message that lost parts changes nothing |
| Inbound.UnreadableTimes | src/protocol.cpp:218-247 | on the wire, a misspelled create leaves a file from after the epoch alone and a misspelled remove deletes it |
| Reconcile.FindAdoptable | src/reconcile.cpp:141-169 | finds exactly the peer's deletions that are newer than what is known, unexpired, and strictly newer than the file held |
| Reconcile.FindGaps | src/reconcile.cpp:171-190 | finds, in map order, exactly the live files the peer lacks or holds older |
| Reconcile.ExpiresExactly | src/reconcile.cpp:83-87 | a tombstone stands for an hour and not a tick longer, unchanged |
| Reconcile.MarkedExactly | src/reconcile.cpp:75-81 | the later of two deletions stands and no other path is touched |
| Reconcile.AdoptableExactly | src/reconcile.cpp:141-169 | which deletions are news, on any two nodes, and at which moment |
| Reconcile.GapsExactly | src/reconcile.cpp:171-190 | which files are gaps, on any two nodes, in path order and each once |
| Reconcile.SpeakingExactly | src/reconcile.cpp:192-197 | a peer is remembered as it was for three minutes and not a nanosecond longer |
| Reconcile.Pick | src/reconcile.cpp:201-214 | asks only a peer on record with another root hash, and nobody only if there is none |
| Lattice.AdoptionIsJoin | src/reconcile.cpp:141-169 | adopting joins each path with the peer's unexpired deletion and keeps the two sets disjoint |
| Lattice.ReceptionIsJoin | src/protocol.cpp:228-283 | a create followed through joins its path with the announced file and touches no other |
| Lattice.GapsAreStrictlyAbove | src/reconcile.cpp:171-190 | after adoption the gaps are exactly the files strictly above what the peer has |
| Lattice.KilledExactly | src/reconcile.cpp:141-169 | which listed files an adoption takes away, also on untidy trees |
| Lattice.UntidyTreeKeepsADeadFile | src/reconcile.cpp:152-155 | a file under its own newer tombstone survives that tombstone in a digest |
| Ladder.ArmBehind | src/reconcile.cpp:216-236 | the two loops of `arm` compute the ladder behind whatever waits |
| Ladder.TakeReady | src/reconcile.cpp:238-250 | the two loops of `due` hand over, in map order, exactly what is ready and leave the rest waiting |
| Ladder.ArmKeeps | src/reconcile.cpp:216-236 | every missing path waits afterwards, none moves, none comes before now, and moments stay 20 ms apart if they were |
| Ladder.ArmExactly | src/reconcile.cpp:216-236 | the new ones among the missing, in their order, take consecutive rungs 20 ms apart, the first now or 20 ms behind the last one waiting if that is later |
| Ladder.StepKeepsPace | src/reconcile.cpp:216-250 | arming, handing out and erasing keep the pace, and arming moves nobody who waits |
| Ladder.RepairsArePaced | src/reconcile.cpp:216-250 | over every run with a clock that does not go back, a call hands out at most (t2 - t1) / 20 ms + 1 repairs since the call before |
| Repairs.RoundOutcome | src/syncfs.cpp:310-339 | of the due listed paths without an announcement the first is rebuilt and the others wait, in order |
| Repairs.NoGapIsLost | src/syncfs.cpp:310-339 | each due path is exactly one of unlisted, repaired from the cache, rebuilt or pending again; one is rebuilt exactly if one had to be, and never two |
| Repairs.SentInOrder | src/syncfs.cpp:315-337 | a call sends in path order and nothing twice, and spends its rebuild on the first path in need of one |
| Repairs.RearmedExactly | src/syncfs.cpp:328-338 | what has to wait again takes, in path order, consecutive rungs behind whatever still waits |
| Repairs.CallsRunDry | src/syncfs.cpp:299-339 | with nothing new, k late calls leave the paths without an announcement less k, so the map empties in at most its initial size many |
| Files.Difference | src/files.cpp:69-81 | the merge keeps exactly the entries, or the names, only the left side has |
| Files.Intersection | src/files.cpp:83-90 | the merge keeps exactly the names both have, with the left side's times |
| Files.CreateDiff | src/syncfs.cpp:62-70 | five merges make the difference of two listings: gone, new, and retimed with the former time |
| Files.DiffExactly | src/syncfs.cpp:62-70 | path by path: gone, new or retimed, the last under the time it had before |
| Files.DiffReplays | src/syncfs.cpp:62-70 | the parts are disjoint, and replaying them on the former listing gives the current one |
| LocalChanges.DropLosers | src/syncfs.cpp:235-248 | erasing by a test that itself erases tombstones: which entries survive and which tombstones stand |
| LocalChanges.FindChanges | src/syncfs.cpp:215-264 | the whole of `local_changes`, both its result and what it does to the tombstones |
| LocalChanges.AnnouncedExactly | src/syncfs.cpp:215-254 | announced: new or retimed paths that are no echo of a transfer and do not lose to a tombstone, and vanished paths no tombstone remembers |
| LocalChanges.TombstonesExactly | src/syncfs.cpp:239-263 | tombstones afterwards: the old ones less those a published create outlived, plus the published removes at the moment noticed |
| LocalChanges.Send | src/syncfs.cpp:72-90 | removes, then creates, then edits, each in map order |
| LocalChanges.SentExactly | src/syncfs.cpp:72-90 | what goes out is exactly the changes, every create with the time the file has now |
| LocalChanges.SentInOrder | src/syncfs.cpp:72-90 | deletions go out first, then new files, then edits, each in path order and nothing twice |
| Effects.RemoveExactly | src/protocol.cpp:218-227 | all a received deletion changes, its path in disk, session, tombstones and the three repair maps, and all it leaves alone |
| Effects.DeletedCreateExactly | src/protocol.cpp:239-245 | a create deleted since changes nothing at all |
| Effects.OldCreateExactly | src/protocol.cpp:246-261 | a create that is not newer takes away the tombstone it outlived and changes nothing else |
| Effects.NewCreateExactly | src/syncfs.cpp:452-478 | all any other create changes, its time waiting or stamped at once, and all it leaves alone |
| Effects.ServingExactly | src/protocol.cpp:102-116 | which torrents the session has after an applied create |
| Effects.AdoptExactly | src/protocol.cpp:329-348 | path by path, all an adoption changes and all it leaves alone |
| Effects.DigestExactly | src/syncfs.cpp:354-370 | of a digest, what adoption leaves to do is to arm the gaps |
| Effects.StateExactly | src/syncfs.cpp:413-424 | a root hash changes what is on record of its sender, unless that is this node, and nothing else |
| Settle.ArrivesExactlyIfOwn | src/protocol.cpp:263-268 | a new file that has to be transferred arrives exactly if the session serves its content under no other path |
| Settle.AppliedEndsAtOrigin | src/syncfs.cpp:452-477 | an applied create whose content is no other path's, followed through, leaves disk, listing and snapshot at the announced time, no earlier than before, and its tombstone gone |
| Settle.RefusedChangesNoFile | src/protocol.cpp:239-261 | a create that is not applied changes at most the tombstone it outlived, and why it was refused |
| Settle.DeliveryIsReception | src/protocol.cpp:228-283 | on a settled node `act`, the transfer and the stamp together are the lattice's join, and the node is settled again |
| Settle.DigestIsAdoption | src/syncfs.cpp:347-371 | on a settled node reading a digest is the lattice's adoption, and the node is settled again |
| SyncLoop.EditIsStillAnnounced | src/syncfs.cpp:139-156 | a file edited since its transfer was flushed is announced at the next listing exactly as if no alert had been drained |
| Settle.HeldCreateMovesForward | src/syncfs.cpp:454-464 | a create the session already held moves a present file to the announced time at once, never back |
| Settle.AdoptKillsExactly | src/protocol.cpp:329-348 | a listed file is killed exactly if strictly older than an unexpired deletion that is news; then disk, listing, session, cache and pending all forget it, otherwise it is untouched |
| Settle.DigestArmsOnlyListed | src/syncfs.cpp:354-370 | a digest changes nothing after adoption but the pending repairs, and arms none for a path it killed |
| Creates.CreateTakesTheGreater | src/protocol.cpp:127-146 | the tombstone guard and `wins` together keep the greater copy in a total order: later first, then a copy that can be accounted for, then the lower hash |
| Creates.GreatestIsLeft | src/protocol.cpp:127-146 | after any sequence of creates, each followed through, the greatest of the starting copy and all announced ones is left |
| Creates.OrderMakesNoDifference | src/protocol.cpp:252-256 | any two sequences announcing the same copies, in any order and with repeats, leave the same copy |
| Creates.RemoveAlwaysDeletes | src/protocol.cpp:218-227 | a remove deletes whatever is there; only the tombstone is a maximum |
| Creates.RemoveIsJoinExactlyIfNewer | src/protocol.cpp:218-227 | a remove leaves the greater of copy and deletion exactly if there is no file or a strictly older one |
| Creates.CreateAndRemoveCommute | src/protocol.cpp:218-247 | a create and a remove commute exactly if the create loses to the deletion arriving or to one remembered |
| Creates.MisspelledOverwritesNothing | src/protocol.cpp:239-261 | misspelled creates are all refused exactly if the file here, or the deletion remembered of it, is from after the epoch |
| Creates.MisspelledRemoveStillDeletes | src/protocol.cpp:218-224 | a misspelled remove deletes file and torrents unconditionally and buries the path at the epoch or later |
| Transfers.OverlappingCreatesLeave | src/protocol.cpp:127-146 | which copy two overlapping creates leave, nothing of the first being written yet or some of it written at any moment |
| Transfers.OverlappingCreatesKeepTheGreatest | src/protocol.cpp:127-146 | exactly when that copy is the greatest of the one here and the two announced |
| Transfers.OverlapsHappen | src/syncfs.cpp:454-464 | on a node just started: an older create replaces a newer one, a newer one is refused, and a repeated one ends at the time of the write |
| Transfers.RemoveStopsTheTransfer | src/protocol.cpp:218-226 | a remove received during a transfer, written to or not, ends it, and the path stays deleted |
| Transfers.DigestReachesTransfer | src/protocol.cpp:334-340 | a deletion adopted during a transfer stops it exactly if the path was listed with an older copy |
| Transfers.DigestDuringTransfer | src/protocol.cpp:334-340 | a node reading a digest during a transfer ends settled exactly if the digest carries no live deletion of that path or the path was listed; and the cell it ends with |
| Transfers.DeadFileStays | src/reconcile.cpp:145-155 | otherwise, if that deletion is newer, no repetition of it kills the file and no gap is ever found for it |
| Transfers.DeadFileHappens | src/protocol.cpp:334-340 | on an empty node just started a create and a digest do exactly that |
| Exchange.BatchIsJoin | src/syncfs.cpp:310-339 | a batch of repairs in any order, with repeats, joins each path with the best offer for it |
| Exchange.OneWay | src/syncfs.cpp:347-371 | one digest answered: the reader is joined with the asker's deletions, the asker with the files the reader then holds |
| Exchange.ExchangeJoins | src/syncfs.cpp:347-371 | a digest each way leaves both nodes, path by path, at the greater of what they started with |
| Exchange.ExchangeConverges | src/reconcile.cpp:141-190 | and then forms and root hashes are equal, with nothing to adopt and nothing to repair either way |
| Exchange.LowerIsRaised | src/reconcile.cpp:141-190 | a node below another at a path is raised there by the answer to its digest or by the other's digest |
| Exchange.FormsShowAPath | src/reconcile.cpp:89-103 | two settled nodes whose forms differ have a path where one is strictly below the other |
| Exchange.DifferenceIsProductive | src/reconcile.cpp:141-190 | whenever the forms of two settled nodes differ, one of the two directions strictly raises one of them |
| Gossip.MeetingsJoin | src/reconcile.cpp:141-190 | after any sequence of pairwise exchanges each node holds, path by path, exactly the greatest of what the nodes it has heard of started with |
| Gossip.EveryoneConverges | src/reconcile.cpp:141-190 | once exchanges, in any order, have carried word of every node to every other, all hold the join of the start and nothing is left to adopt or repair |
| Gossip.TwoSweepsConverge | src/reconcile.cpp:141-190 | one node meeting every other in turn, twice, is enough for any number of nodes |
| Swarm.StepsAreTheLoops | src/syncfs.cpp:631-684 | a round, a call, a listing and what is received are, of each node, those of the loop |
| Swarm.RepairsSentExactly | src/syncfs.cpp:315-337 | what a call puts on the wire, under the time listed, from the cache or off the disk |
| Swarm.RelistingFindsNothing | src/syncfs.cpp:644-656 | listing a settled node again, nothing having expired, announces nothing and leaves its tree and tombstones as they are |
| Swarm.WriteIsAnnounced | src/syncfs.cpp:215-248 | a file written later than what is here is all the next listing announces, under its time, and cancels its tombstone |
| Swarm.DeletionIsAnnounced | src/syncfs.cpp:249-263 | a deletion is all the next listing announces and is remembered at the moment noticed |
| Swarm.ObeyingFindsNothing | src/syncfs.cpp:249-254 | a deletion received from a peer is not announced by the next listing |
| Swarm.StepIsSound | src/syncfs.cpp:631-684 | rounds, states heard, digests read, repairs published and delivered, deletions received, listings, and what users write and delete keep nodes settled, only raise them, and invent no value |
| Swarm.RunsClimb | src/protocol.cpp:329-348 | over every run of N nodes, with loss, repeats, reordering and local edits, each node only climbs and nothing is held or sent that no node started with and no user made |
| Swarm.JoinIsConserved | src/syncfs.cpp:347-371 | nothing held or in flight exceeds the join of the start and of what users did since, and the join of the nodes is that join |
| Swarm.QuietExactlyWhenConverged | src/reconcile.cpp:141-190 | after any run, no pair has anything to adopt or repair exactly if every node equals that join |
| Swarm.MovesAreBounded | src/reconcile.cpp:141-190 | the steps of a run that change any tree are at most the values, of the start and of users, still above the nodes at its start |
| Hearsay.HearingRaises | src/syncfs.cpp:347-371 | in any run, a node whose digest another read, which read the other's in turn and was delivered every repair that answers its own, holds at every path at least what the other held then |
| Hearsay.WordArrives | src/syncfs.cpp:347-371 | along any chain of such hearings, mixed up with whatever else, the values of its beginning arrive |
| Hearsay.HearingAllConverges | src/syncfs.cpp:631-684 | from wherever a run has got to, once users leave the files alone, any continuation in which word of every node gets round to every other ends with all nodes at the join and all quiet |
| Hearsay.EveryPairIsEnough | src/syncfs.cpp:657-678 | it is enough that every node hears from every other once, in whatever order |
| Convergence.AskAndRead | src/syncfs.cpp:657-678 | two nodes with different root hashes: one says where it stands when its round is due, the other hears it, draws it when its own is due, asks it, and its digest is read |
| Convergence.RepairGoesOut | src/syncfs.cpp:310-339 | a pending repair of a listed path is put on the wire by some number of calls at later moments, rebuilt from the disk if need be |
| Convergence.DeletionTravels | src/syncfs.cpp:354-360 | one digest, asked for in a round, raises a node that is below another's deletion |
| Convergence.FileTravels | src/syncfs.cpp:362-370 | a digest, calls and one delivery of the file's own torrent raise a node that is below another's file |
| Convergence.ConvergenceStaysReachable | src/syncfs.cpp:631-684 | however a run went, users' edits among it, it can be continued to every node holding the join, with clocks that go forward, rounds when they are due, peers that the draw allows, and files rebuilt as what they are on disk |
| SyncLoop.FlushExactly | src/syncfs.cpp:131-168 | what a flush does: its torrent's file is stamped, with the waiting time if there is one, unless newer; a torrent no longer in the session changes nothing |
| SyncLoop.DrainedInOrder | src/syncfs.cpp:180-211 | flushes are drained in the order they come |
| SyncLoop.DeliveryIsTheLoops | src/syncfs.cpp:195-209 | a create followed through is what the loop makes of the message, the write and the flush |
| SyncLoop.RelistedExactly | src/syncfs.cpp:266-277 | what a listing leaves: the disk as the listing, snapshots of files that are there, tombstones for an hour |
| Arrival.DrainLands | src/syncfs.cpp:180-211 | the drain of a written file's flush puts the waiting time on disk, listing and snapshot, whatever else is drained with it |
| Arrival.CreateComesToRest | src/syncfs.cpp:631-684 | in every run in which a create that has to be transferred is let to arrive, its file ends under the announced time and the next listing announces nothing of its path |
| SyncLoop.DrainKeeps | src/syncfs.cpp:180-211 | draining alerts loses no file, hides no missing path, and leaves session, tombstones and repairs alone |
| SyncLoop.ReceiveExplains | src/syncfs.cpp:433-481 | what a message takes off the disk it takes out of the listing or leaves a tombstone for |
| SyncLoop.RemoveLeaves | src/syncfs.cpp:449-451 | a received deletion leaves a tombstone and no torrent, announcement, applied record or pending repair |
| SyncLoop.CreateLeaves | src/syncfs.cpp:452-477 | a create changes session, applied record, announcement and pending together, or none of them |
| SyncLoop.StepExplains | src/syncfs.cpp:631-684 | every step keeps: a listed path missing from disk was deleted by the user or has a tombstone |
| SyncLoop.OnlyTheUsersDeletionsAreAnnounced | src/syncfs.cpp:249-262 | in every run what is announced removed is exactly what the user deleted since the last listing, is still gone and is not remembered deleted |
| SyncLoop.TwoMessagesAtOnceWouldRemove | src/syncfs.cpp:644-656 | a deletion and a create received with no listing between them would get the file announced removed |
| SyncLoop.RunStaysInStep | src/syncfs.cpp:449-477 | over every run announcements and applied records have the same paths and contents, and the session serves exactly those |
| SyncLoop.OneTorrentAPath | src/protocol.cpp:102-116 | after any run no path has two torrents, exactly the applied content after a create and none after a deletion |
| Daemon.Replica.RemoveStaleTorrents | src/protocol.cpp:102-116 | the path's other torrents go; answers whether this very one was served |
| Daemon.Replica.Act | src/protocol.cpp:203-288 | state and outcome after each verb, with the tombstone guard, the win test and stale torrents |
| Daemon.Replica.Adopt | src/protocol.cpp:329-348 | the loop over adoptable deletions ends in one simultaneous change of tombstones, listing, disk, session and repairs |
| Daemon.Replica.StampAndRemember | src/syncfs.cpp:131-168 | the waiting time goes on disk, snapshot and listing unless the file was edited since the flush |
| Daemon.Replica.DrainAlerts | src/syncfs.cpp:180-211 | a flush is stamped only while its torrent is still in the session |
| Daemon.Replica.ReadDigest | src/syncfs.cpp:347-371 | decodes, adopts, and arms the gaps left over, in that order |
| Daemon.Replica.ReceiveOne | src/syncfs.cpp:433-481 | the whole state after one message of any verb |
| Daemon.Replica.Relist | src/syncfs.cpp:651-655 | changes announced, listing replaced, spent marks forgotten |
| Daemon.Replica.GoRound | src/syncfs.cpp:657-678 | publishes the root hash of listing and tombstones, and a digest of both to a speaking peer with another root hash, if there is one |
| Daemon.Replica.PublishRepairs | src/syncfs.cpp:310-339 | what goes out, from which bytes and under which time, and what goes on waiting |
| Daemon.Replica.RoundIfDue | src/syncfs.cpp:657-678 | a round goes out exactly if it is due by the last one and the last change, and then the last one is now |
| Daemon.Replica.Turn | src/syncfs.cpp:631-684 | one turn of the loop, in its order, is the state machine's events of that turn, a round exactly if it is due, and sends the changes, root hash, digest and repairs of the states in between |
| SavePath.SavePathFor | src/protocol.cpp:55-68 | for any announced path: a dot if the tail is not at its end or only separators are before it, and otherwise what is before the tail less its last separators |
| SavePath.NormalIsStable | src/protocol.cpp:57-58 | normal form has no empty name, no dot and steps up only at its start and never above the root, and is its own normal form |
| SavePath.NormalLeadsThere | src/protocol.cpp:57-58 | normal form leads where the path does, from wherever it is looked at |
| SavePath.NormalEndsInSeparator | src/protocol.cpp:57-58 | exactly which paths keep a separator at the end |
| SavePath.LandedLeadsThere | src/protocol.cpp:263-268 | the file lands where its tail leads from the save path |
| SavePath.JoinedLeadsThere | src/protocol.cpp:43-49 | `join`, looked at from the sync root, names that very place |
| SavePath.LandedEndsInTail | src/protocol.cpp:43-49 | whatever the save path, the file lands at the torrent's tail or at a path that ends in it at a separator |
| SavePath.SavePathLands | src/protocol.cpp:51-68 | the file lands at the announced path, relative or rooted, exactly if the tail is all of it or starts at a separator with something above it |
| SavePath.SavePathRestores | src/protocol.cpp:43-68 | `join` gives the announced path back exactly if it is not rooted and the tail is all of it or starts at a separator |
| Cadence.SendsArePaced | src/syncfs.cpp:373-392 | over every run of turns at most d apart, successive root hashes are at least 5 s and less than 60 s + d apart |
| Cadence.RoundExactly | src/syncfs.cpp:386-392 | at which turn a round goes out, to the nanosecond, and what the two moments are afterwards |
| Cadence.QuietNodesKeepThePeriod | src/syncfs.cpp:386-392 | while nothing changes or transfers, root hashes are at least 5 s and less than 5 s + d apart |
| Cadence.BusyNodesKeepTheCeiling | src/syncfs.cpp:373-392 | while every turn changes or transfers something, they are at least 60 s and less than 60 s + d apart |
| Cadence.RecordIsTheLastHeard | src/reconcile.cpp:192-197 | after a round the record holds exactly the peers heard within three minutes, with what each said last |
| Cadence.AskSpeaking | src/reconcile.cpp:192-214 | whoever is asked spoke within three minutes, said another root hash and is another node |
| Cadence.HeardOftenEnoughIsKept | src/reconcile.cpp:192-197 | a peer of whose sends one in k arrives is never dropped while k (60 s + d) and the jitter fit in three minutes |

## Left out

- ZMQ and libtorrent themselves: the network is a set of messages delivered any number of times or never, the session a set of torrents, and a transfer an event.
- Torrents that do not load: the loader throws, and a create is modelled from the point where its buffer has loaded.
- inotify and the walk of the directory: a dirty flag raised by changes, and a reading of the disk.
- Clock arithmetic that overflows 64 bits: `now - at` is exact here.
- Stamps the file system refuses, and files that vanish between two system calls.
- Paths that are equal but spelled differently: a path is its canonical spelling, and byte order with the separator lowest is the order of paths in that form.
- Inbound.PublishedArrives: a path received in a create or remove has no NUL in it; the source hands one that has to the file system.
- Rebuilding an announcement whose file is gone from disk: the source logs and sends nothing.
- Listings taken while a transfer is half written: such a file is announced with the time of the write, and nothing is claimed about it; `Transfers` has writes in between but no listing.
- The content of files at equal times: neither digests nor root hashes carry it, and nothing about it is claimed.
- Convergence once tombstones expire, and from trees that hold a file under its own newer tombstone: the code does not provide it.
- Swarm.JoinIsConserved: users write and delete later than the copy they have, a write at the very time of a transfer's snapshot being taken for the transfer's; a user's deletion comes back to its node within the step that announces it; and a live deletion reaches only nodes without a newer file, where it is a join.
- Discovery, address checks, statistics, logging, signals, `main` and the tools: small parsers and plumbing.
- The time a `remove` carries: `src/source.cpp:87-88` reads the clock again after the tombstone was marked, and the model leaves the two times independent.
- Swarm.RunsClimb: a delivered create is followed through to its stamp in the same step; a transfer overtaken by another message is in `SyncLoop` and `Transfers`, not here.
- Reconcile.Pick: which of the differing peers is drawn is left open, so nothing is said about uniformity.
- Convergence.ConvergenceStaysReachable: no dead end, rather than that a run must converge; the system clock, which may be set, is read at one moment while the steady clocks go forward.
- Swarm.StepIsSound: a listing is a step only while no tombstone of its node has expired, since expiry takes a node's value down.
- Gossip.EveryoneConverges: of exchanges that complete undisturbed, nothing having expired; `Hearsay` has them mixed up with other messages.
- Hearsay.HearingAllConverges: the digest told back says what the other remembered deleted when it read, and nothing in it has expired.
- SyncLoop.OnlyTheUsersDeletionsAreAnnounced: takes it that the monitor reports every deletion by the next turn of the loop.
- SyncLoop.OneTorrentAPath: takes it that a content belongs to one path, since a session deduplicates on the info hash alone.
- SyncLoop.RunStaysInStep: as above, one path to a content.
- RootHash.RootSeparates: the digest function is arbitrary with 32-byte results, and the absence of collisions is assumed of the inputs at hand only.
- SavePath.SavePathRestores: of paths that name a file, and a tail that does not step up; libtorrent is taken to complete a save path with the sync root and to hand it back so.
- Cadence.HeardOftenEnoughIsKept: sender and receiver share one time line.
- Daemon.Replica.Turn: the clock readings of one turn, the monitor's word on whether to list again and whether all torrents had stopped moving are arguments.
