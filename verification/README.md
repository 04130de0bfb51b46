# Redis 3.2.5 core: model and proofs

This project models seven parts of the Redis server in Dafny and proves what each of them promises.

- `DictModel`, `DictTable`, `DictScan`, `DictScanOnce`, `DictIter`, `DictIterator`: the dictionary with incremental
  rehashing. `DictModel` has the two-table state as a value and refines it to one finite map; `DictTable` and
  `DictIterator` have the mutable objects; `DictScan` proves the coverage of the stateless scan and `DictScanOnce` that
  it repeats nothing; `DictIter` proves that a safe iteration returns every key that stays exactly once.
- `ClusterModel`, `ClusterPackets`, `ClusterOps`, `ClusterState`: one cluster node, its slot table, bitmaps and
  epochs, as a value with the handlers as functions, and as a mutable object with the handlers' loops.
  `ClusterEffects` and `ClusterCommands` say what each packet and each subcommand leaves behind, `ClusterSlaves` what a
  slave keeps. `ClusterNet`, `ClusterElection`, `ClusterMasters` and `ClusterSteps`: all nodes with the messages in
  flight, what every run of them keeps, and what they can bring about.
- `AofFormat`, `AofGrammar`, `AofLog`, `AofWriter`, `AofRewrite`, `AofHandoff`, `AofProgress`: the append-only file,
  from printing and parsing through flushing to the rewrite by a child process while commands keep arriving.
- `BitCount`, `BitPos`, `BitField`, `BitOp`: the word-at-a-time bit operations and the bit fields.
- `IntSetBytes`, `IntSet`: the sorted integer set packed in a byte buffer.
- `Bio`: the background job queue, as interleaved steps of its threads.
- `SlotIndex`, `Keyspace`: the main dictionary with its expiry times and its index from slots to keys.
- `Common`, `Arith`, `Words`, `Octets`: options, integer facts, 64-bit words as bit sequences, single bits of bytes.

`dafny verify dfyconfig.toml` checks everything.

## How the model relates to the code

- Hash functions and the key-to-slot function are parameters. Time, roles, failure flags, results of system calls,
  and the order in which threads, processes and messages act are inputs of the steps.
- 64-bit words are sequences of 64 booleans with pointwise operators; the 32-bit words of the population count are bit
  vectors; wrap-around in the bit fields is written out with remainders.
- A C array that is updated in place is an array or a field that is reassigned; a list is a sequence. Cluster nodes
  are kept in a map from identifier to record, so that a pointer to a node is its identifier.
- Assertions of the source (dictRehash, clusterDelSlot, removeExpire, getExpire, dbAdd, dbOverwrite, the end of
  redisBitpos) are proved.

Where code and comments disagree, the model follows the code:

- The comment on dictScan promises that elements present throughout are returned. That fails when a call finds two
  tables a factor of four or more apart and a cursor with bits between their masks, which takes a shrink during the
  scan (`DictScan.ShrinkCanMissKey`, `DictScan.GrowCanMissKey`). `DictScan.LoopCoversIff` gives the exact condition
  for a call, and `DictScan.ScanWithoutShrink` full coverage for scans without a shrink.
- A failed request for votes is followed by another without clearing the count of votes, so that a late ACK is
  counted for the wrong election (`ClusterElection.LateAckMakesTwoWinners`). `ClusterElection.CountIsVotes` says
  exactly when the count is right, `ClusterElection.EarnedIff` exactly when a win is backed by the votes of its epoch,
  and `ClusterElection.ElectionSafety` holds for runs in which every win is.
- clusterUpdateSlotsConfigWith does not test its current master for NULL. `ClusterModel.NullMasterIff` says exactly when
  NULL is read: only on a slave that has no master. No modelled step makes a node such a slave
  (`ClusterMasters.NullNeverRead`). Loading a configuration that flags this node a slave without naming a master does
  (`ClusterMasters.LoadedSlaveReadsNull`). So can a handshake, which is not modelled: CLUSTER REPLICATE accepts a node
  that is still in handshake (cluster.c:4196-4231), and deleting that node (cluster.c:1706 and 3093) clears the master
  of its slaves.
- clusterSetMaster asserts that this node has no slots, but ADDSLOTS gives a slave a slot
  (`ClusterSlaves.SlotToSlaveFails`). No other modelled step does (`ClusterSlaves.LocalKeepsBare`), and without it the
  assertion holds over whole runs (`ClusterMasters.SetMasterNeverFails`).
- clusterDelNodeSlots returns the number of slots it looked at, which its comment calls the number deleted.
- The overflow checks of bit fields return 1 for a wrap below the range, where the comment says -1. The comment in
  checkSignedBitfieldOverflow that no overflow matters does not hold for values close to the least 64-bit number
  (`BitField.SignedSetExact`, under two's-complement arithmetic, which C leaves undefined there).
- RENAME takes an expiry time of -1 for none and loses it; it carries every other one (`Keyspace.Db.Rename`,
  `Keyspace.LoseTime`). PEXPIREAT with -1 stores that time on a slave and while loading (`Keyspace.Db.Expire`).

## Model

| member | source | states |
|---|---|---|
| DictModel.NextPowerIsTableSize | redis-3.2.5/src/dict.c:948-958 | the loop of doublings from 4 returns a power of two that is at least the size asked for and within the bound on table sizes |
| DictModel.NextPowerIsLeast | redis-3.2.5/src/dict.c:948-958 | no smaller power of two, from the initial size on, is large enough |
| DictModel.ExpandIfNeededSucceeds | redis-3.2.5/src/dict.c:926-945 | growing on demand always reports DICT_OK, leaves the dictionary valid with a non-empty first table, and changes the result of no lookup |
| DictModel.ExpandRefines | redis-3.2.5/src/dict.c:204-234 | dictExpand, whether it installs a first table, starts a rehash or refuses, still stands for the same map |
| DictModel.ExpandIff | redis-3.2.5/src/dict.c:204-234 | a resize is accepted if and only if none is in progress, the entries fit and the size would change; then the first table is made, or an empty second one and the rehash starts at bucket 0 |
| DictModel.GrowsIff | redis-3.2.5/src/dict.c:926-945 | a table starts to grow if and only if it holds as many entries as buckets, or six times as many while resizing is to be avoided; it grows to at least twice and less than four times its entries, or to the initial size |
| DictModel.OneTable | redis-3.2.5/src/dict.c:974-987 | in every valid state a key is in at most one of the two tables |
| DictModel.AddRefines | redis-3.2.5/src/dict.c:363-371 | linking a new entry (second table while rehashing) gives a valid dictionary for the map with the key added, counters included |
| DictModel.AddPlaces | redis-3.2.5/src/dict.c:363-371 | a new entry goes to the head of its chain, and while rehashing never to the table that is being emptied |
| DictModel.DeleteRefines | redis-3.2.5/src/dict.c:412-447 | deleting gives a valid dictionary for the map without the key, counters included |
| DictModel.AssignRefines | redis-3.2.5/src/dict.c:393-396 | overwriting an existing value gives a valid dictionary for the updated map |
| DictModel.MoveRefines | redis-3.2.5/src/dict.c:263-272 | moving one entry to the second table keeps placement, uniqueness, exact counters and the map; the target index is in range |
| DictModel.AdvanceRefines | redis-3.2.5/src/dict.c:255-258 | skipping an empty bucket keeps the invariant that the first table is empty below rehashidx, and the map |
| DictModel.SwapRefines | redis-3.2.5/src/dict.c:278-284 | making the second table the first one after the last entry has moved keeps the map |
| DictModel.RehashIndexInRange | redis-3.2.5/src/dict.c:252-254 | the assertion of dictRehash never fails: while entries are left, rehashidx is below the table size and some bucket at or above it is not empty |
| DictTable.HashTable.constructor | redis-3.2.5/src/dict.c:168-188 | a new dictionary is valid, empty and has no iterators |
| DictTable.HashTable.NextPowerOf | redis-3.2.5/src/dict.c:948-958 | the loop computes the specification NextPower |
| DictTable.HashTable.ExpandTo | redis-3.2.5/src/dict.c:204-234 | the new state and the status are those of Expand, the map is unchanged and the dictionary stays valid |
| DictTable.HashTable.GrowIfNeeded | redis-3.2.5/src/dict.c:926-945 | the new state is that of ExpandIfNeeded, the status is success and the first table is not empty |
| DictTable.HashTable.MoveBucket | redis-3.2.5/src/dict.c:259-275 | the inner loop empties the bucket at rehashidx into the second table, entry by entry, and the dictionary stays valid for the same map |
| DictTable.HashTable.SkipEmpty | redis-3.2.5/src/dict.c:255-258 | the walk over empty buckets stays within the table and either reaches a non-empty bucket or uses up its visits while advancing |
| DictTable.HashTable.Rehash | redis-3.2.5/src/dict.c:245-288 | n steps keep the map; the result says whether work is left; a call that leaves work passes at least n buckets, no call passes more than n moved and 10n empty ones, and at the end the second table is the first |
| DictTable.HashTable.MoveBuckets | redis-3.2.5/src/dict.c:249-276 | the outer loop passes between n and 11n buckets while entries are left, and touches none beyond |
| DictTable.HashTable.Finish | redis-3.2.5/src/dict.c:278-284 | the swap of the tables ends the rehash and keeps the map |
| DictTable.HashTable.RehashFor | redis-3.2.5/src/dict.c:298-307 | the timed loop keeps the map; each unfinished batch passes 100 buckets and is counted in the result, so that enough batches end the rehash |
| DictTable.HashTable.RehashStep | redis-3.2.5/src/dict.c:317-319 | one step keeps the map, moves a rehash on, and does nothing while a safe iterator is live |
| DictTable.HashTable.Search | redis-3.2.5/src/dict.c:974-987 | the search over the two tables returns exactly what the map holds |
| DictTable.HashTable.Lookup | redis-3.2.5/src/dict.c:492-511 | dictFind returns the map's value for the key or nothing, leaves the map alone, and moves a rehash on |
| DictTable.HashTable.LinkNew | redis-3.2.5/src/dict.c:363-371 | the new entry is linked at the head of its chain in the right table and the map gains the key |
| DictTable.HashTable.Insertion | redis-3.2.5/src/dict.c:322-372 | dictAdd succeeds exactly for absent keys, then adds the pair to the map, and changes nothing otherwise; it moves a rehash on, and a table that is not growing afterwards holds at most as many entries as buckets, or six times as many while resizing is to be avoided |
| DictTable.HashTable.Replace | redis-3.2.5/src/dict.c:378-397 | dictReplace reports whether the key is new; afterwards the map has the new value, everything else unchanged |
| DictTable.HashTable.SetExisting | redis-3.2.5/src/dict.c:387-396 | the value of an existing key is overwritten in the table that holds it |
| DictTable.HashTable.Remove | redis-3.2.5/src/dict.c:412-447 | dictGenericDelete succeeds exactly for present keys and removes exactly that key from the map |
| DictTable.HashTable.UnlinkKey | redis-3.2.5/src/dict.c:422-445 | the search over both tables unlinks the entry, adjusts the counter of its table, and nothing else |
| DictTable.HashTable.UnlinkEntry | redis-3.2.5/src/dict.c:424-441 | the walk with the predecessor pointer removes the first entry with the key and reports whether there was one |
| DictTable.HashTable.EmitChain | redis-3.2.5/src/dict.c:867-872 | the callback gets every entry of the chain in order |
| DictTable.HashTable.EmitExpansions | redis-3.2.5/src/dict.c:896-908 | the do-while loop emits exactly the buckets of the larger table that extend the low bits of the cursor and are numerically at or above it, and keeps the low bits |
| DictTable.HashTable.Scan | redis-3.2.5/src/dict.c:852-921 | dictScan on the arrays returns the specified cursor and emits the specified entries |
| DictTable.Advance | redis-3.2.5/src/dict.c:911-918 | setting the high bits, reversing, incrementing and reversing gives the specified next cursor |
| DictScan.Reverse | redis-3.2.5/src/dict.c:758-766 | the loop over ever smaller blocks reverses the bits of a 64-bit word |
| DictScan.BucketIsInterval | redis-3.2.5/src/dict.c:769-828 | in reverse-binary order the hashes of one bucket form one interval of positions, for every table size |
| DictScan.NextCursorPos | redis-3.2.5/src/dict.c:911-918 | the next cursor is the end of the interval of the current bucket, or 0 after the last one |
| DictScan.ExpandStepBits | redis-3.2.5/src/dict.c:904-905 | the increment in the larger table keeps the low bits and adds one to the bits between the masks |
| DictScan.MaskDifference | redis-3.2.5/src/dict.c:907-908 | the loop condition tests exactly the bits between the two masks |
| DictScan.ExpansionCovers | redis-3.2.5/src/dict.c:896-908 | the loop reads the bucket of a hash with the cursor's low bits if and only if its middle bits are numerically at or above the cursor's |
| DictScan.LoopCoversIff | redis-3.2.5/src/dict.c:896-908 | the loop reads every bucket that is due in reverse order if and only if the cursor's bits between the masks are ones followed by zeros: the exact condition under which the numeric increment is right |
| DictScan.SafeCursors | redis-3.2.5/src/dict.c:896-908 | the condition holds for a size ratio of two and for a cursor with no bits between the masks |
| DictScan.CallAdvances | redis-3.2.5/src/dict.c:852-921 | one call emits a key that is due or leaves it due at the next cursor, also when tables differ |
| DictScan.ScanCoversKeys | redis-3.2.5/src/dict.c:852-921 | over every scan from cursor 0 until it returns 0, with any valid states in between, every key present at every call is emitted at least once, provided the condition holds at each call made while rehashing |
| DictScan.ScanWithoutShrink | redis-3.2.5/src/dict.c:852-921 | over every scan in which the smaller table of a call is never smaller than that of the call before, every key present at every call is emitted, with no condition on cursors |
| DictScan.EmittedArePresent | redis-3.2.5/src/dict.c:864-909 | every emitted entry is in the dictionary with that value |
| DictScanOnce.CallPassesOnce | redis-3.2.5/src/dict.c:852-921 | in every valid state, the entries of one call have pairwise different keys, all in the bucket of the cursor in the smaller table |
| DictScanOnce.ScanPassesOnce | redis-3.2.5/src/dict.c:852-921 | if no table shrinks between calls, whatever else happens, a whole scan passes no key twice and every key present throughout once |
| DictScanOnce.UnchangedScan | redis-3.2.5/src/dict.c:852-921 | a scan from 0 to 0 of a dictionary that does not change passes, as a multiset, exactly the entries of the map |
| DictScanOnce.ScanEnds | redis-3.2.5/src/dict.c:852-921 | on every dictionary that does not change, calls that start at the cursor 0 come back to it |
| DictScan.ShrinkCanMissKey | redis-3.2.5/src/dict.c:852-921 | for every pair of table sizes a factor of four or more apart there is a full scan with a shrink between them during which a key is always present and never emitted: the promise in the comment is false without the condition |
| DictScan.GrowCanMissKey | redis-3.2.5/src/dict.c:852-921 | the same for a growth by four or more that follows a shrink within the scan: one call on the larger table, a shrink that completes before the next call, and a growth back by which the key, and not yet every other one, has moved to the second table; the key is present throughout and never emitted |
| DictIter.NextTakesOne | redis-3.2.5/src/dict.c:578-611 | dictNext returns an entry still to come and takes it from what is to come, or returns NULL when nothing is left |
| DictIter.ReturnedIsPresent | redis-3.2.5/src/dict.c:578-611 | what dictNext returns is in the dictionary |
| DictIter.RehashMoveFind | redis-3.2.5/src/dict.c:245-288 | each piece of a rehash that runs before the iterator has started changes the result of no lookup |
| DictIter.ExpandAhead | redis-3.2.5/src/dict.c:317-319 | an expansion that starts during a safe iteration changes nothing of what is still to come |
| DictIter.InsertAhead | redis-3.2.5/src/dict.c:346-372 | adding a key changes what is to come by at most that key |
| DictIter.DeleteAhead | redis-3.2.5/src/dict.c:412-447 | deleting anything but the saved next entry changes what is to come by at most that key |
| DictIter.AssignAhead | redis-3.2.5/src/dict.c:378-397 | overwriting a value does not change what is to come |
| DictIter.SafeIterationExactlyOnce | redis-3.2.5/src/dict.c:571-622 | in every run of dictNext calls with finds, adds, replacements and deletions of anything but the saved next entry in between, and with rehash steps until the first dictNext, a key present throughout is returned at most once, and exactly once when the iteration is over |
| DictIterator.SafeIterator.constructor | redis-3.2.5/src/dict.c:558-576 | a new safe iterator has not started and holds no reference |
| DictIterator.SafeIterator.Next | redis-3.2.5/src/dict.c:578-611 | the first call takes a reference on the dictionary; iterator and result are those of the specification; the map is unchanged |
| DictIterator.SafeIterator.Seek | redis-3.2.5/src/dict.c:580-610 | the loop ends with the iterator and result of the specification |
| DictIterator.SafeIterator.Turn | redis-3.2.5/src/dict.c:581-609 | one round of the loop is one step of the specification and makes progress |
| DictIterator.SafeIterator.Release | redis-3.2.5/src/dict.c:613-622 | releasing gives back the reference exactly when one was taken |
| ClusterModel.BitAfterSet | redis-3.2.5/src/cluster.c:3339-3357 | setting or clearing a bitmap position changes that position and no other |
| ClusterModel.CountAfterSet | redis-3.2.5/src/cluster.c:3377-3407 | setting or clearing a bit changes the number of set bits by one exactly when the bit changes |
| ClusterModel.AddSlotAgrees | redis-3.2.5/src/cluster.c:3418-3423 | assigning a free slot keeps slot table, bitmaps and counters in agreement and assigns just that slot |
| ClusterModel.DelSlotAgrees | redis-3.2.5/src/cluster.c:3428-3435 | the assertion that the owner has the bit never fails; unassigning keeps the agreement and changes just that slot |
| ClusterModel.MoveSlotAgrees | redis-3.2.5/src/cluster.c:1495-1496 | deleting and adding a slot gives it to the new owner and keeps the agreement |
| ClusterModel.DelNodeSlotsEffect | redis-3.2.5/src/cluster.c:3439-3447 | exactly the node's slots become unassigned |
| ClusterModel.ClaimSlotsEffect | redis-3.2.5/src/cluster.c:2677-2682 | exactly the old master's slots move to this node, every other slot keeps its owner |
| ClusterModel.RebindEffect | redis-3.2.5/src/cluster.c:1465-1502 | a slot goes to the sender if and only if it is claimed, not already the sender's, not being imported, and unassigned or owned with a smaller epoch; the flag says whether the current master lost a slot |
| ClusterModel.NullMasterIff | redis-3.2.5/src/cluster.c:1455-1515 | the read through a NULL current master happens if and only if a slave without a known master is told of a slot that is unassigned and not being imported |
| ClusterPackets.RoleSwitchEffect | redis-3.2.5/src/cluster.c:1766-1796 | a change of role in a packet keeps the agreement and all epochs, and can only unassign slots |
| ClusterPackets.UpdateSlotsEffect | redis-3.2.5/src/cluster.c:1442-1530 | the whole update rebinds exactly those slots and keeps epochs |
| ClusterPackets.NewEpochProgress | redis-3.2.5/src/cluster.c:1044-1049 | the epoch made on a collision is strictly greater than every configuration epoch known locally |
| ClusterPackets.ProcessProgress | redis-3.2.5/src/cluster.c:1541-1979 | one PING, PONG, MEET or UPDATE packet keeps the agreement and the dominance of the current epoch, lets epochs only grow, and lets an assigned slot change hands only to a strictly greater epoch |
| ClusterPackets.NewerConfigWins | redis-3.2.5/src/cluster.c:1442-1502 | along every run of packets, while a slot stays assigned its owner's configuration epoch never decreases |
| ClusterPackets.ImportingNotRebound | redis-3.2.5/src/cluster.c:1465-1502 | a slot marked importing when a packet arrives is not given to another node by that packet |
| ClusterEffects.UpdateSlotsRole | redis-3.2.5/src/cluster.c:1442-1530 | this node becomes a replica of the sender, and as a master clears its slot states, if and only if its current master lost a slot and is left with none; otherwise its role, master and slot states stay; no other role changes |
| ClusterEffects.SeeEpochsExact | redis-3.2.5/src/cluster.c:1600-1612 | the current epoch and the sender's become the greater of the two, and nothing else changes |
| ClusterEffects.RoleSwitchRoles | redis-3.2.5/src/cluster.c:1766-1796 | a sender that names no master is a master and keeps its slots; one that names a master is a slave of it, if it is known, and a former master loses all its slots; nothing else changes |
| ClusterEffects.CleanChangesNothing | redis-3.2.5/src/cluster.c:1802-1826 | comparing the bitmaps first is only a short cut: when they are equal the update would move no slot |
| ClusterEffects.PingFromMaster | redis-3.2.5/src/cluster.c:1541-1879 | the whole effect of a PING, PONG or MEET of a master on owners, roles, slot states and epochs |
| ClusterEffects.PingFromSlave | redis-3.2.5/src/cluster.c:1541-1879 | the whole effect of one of a slave: it has no slots and the master it names, and nothing else moves |
| ClusterEffects.UpdateNews | redis-3.2.5/src/cluster.c:1954-1975 | an UPDATE that is news makes its subject a master of that epoch and moves slots and roles as a claim by it does |
| ClusterEffects.UpdateAboutMe | redis-3.2.5/src/cluster.c:1954-1975 | one about the receiver makes it a master of that epoch and moves no slot |
| ClusterEffects.OldNews | redis-3.2.5/src/cluster.c:1954-1975 | any other UPDATE, and every other packet, brings only epochs |
| ClusterEffects.CollisionResolved | redis-3.2.5/src/cluster.c:1035-1050 | of two masters with the same configuration epoch that hear of each other, exactly the one with the smaller name takes a new epoch, greater than both |
| ClusterOps.BumpSound | redis-3.2.5/src/cluster.c:970-987 | bumping keeps agreement and dominance, owners and roles |
| ClusterOps.BumpIsGreatest | redis-3.2.5/src/cluster.c:970-987 | afterwards this node has the greatest epoch it knows, strictly so if a new epoch was made |
| ClusterOps.ReplaceMasterEffect | redis-3.2.5/src/cluster.c:2666-2694 | taking the master's place moves exactly the master's slots to this node and keeps the agreement |
| ClusterOps.TakeoverKeepsAssigned | redis-3.2.5/src/cluster.c:2666-2682 | a takeover keeps the set of assigned slots |
| ClusterEffects.ReplaceMasterRole | redis-3.2.5/src/cluster.c:2666-2694 | a slave of a known master becomes a master without a master; no other role and no slot state changes; on any other node nothing happens |
| ClusterOps.DropNodeEffect | redis-3.2.5/src/cluster.c:863-890 | removing a node unassigns exactly its slots |
| ClusterOps.ForgetSound | redis-3.2.5/src/cluster.c:863-890 | forgetting a node keeps agreement and dominance |
| ClusterOps.LocalSound | redis-3.2.5/src/cluster.c:3886-4350 | every modelled CLUSTER subcommand, with its refusals, keeps agreement and dominance |
| ClusterCommands.LocalSlots | redis-3.2.5/src/cluster.c:3886-4350 | for every modelled subcommand, the owner of every slot afterwards |
| ClusterCommands.ReplicateRoles | redis-3.2.5/src/cluster.c:4196-4231 | REPLICATE makes this node the slave of a known master, unless it is one with slots or keys |
| ClusterCommands.TakeoverRoles | redis-3.2.5/src/cluster.c:4303-4312 | a takeover makes a slave of a known master a master |
| ClusterCommands.ForgetRoles | redis-3.2.5/src/cluster.c:4177-4195 | FORGET removes a known node other than this node and its master, and its slaves know no master; no role changes otherwise |
| ClusterCommands.OtherRoles | redis-3.2.5/src/cluster.c:3886-4350 | no other subcommand changes a role; MEET adds an unknown node as a master without slots |
| ClusterCommands.SlotStates | redis-3.2.5/src/cluster.c:3976-4017 | MIGRATING, IMPORTING and STABLE change the state of their slot only, on a master, and only for an owned or a foreign slot |
| ClusterCommands.OwnEpoch | redis-3.2.5/src/cluster.c:3886-4350 | BUMPEPOCH, a takeover and SETSLOT NODE of an importing slot to this node give it a new epoch unless it has the greatest known; SET-CONFIG-EPOCH sets it once; nothing else touches it |
| ClusterSlaves.UpdateKeepsBare | redis-3.2.5/src/cluster.c:1442-1530 | if this node owns no slots while it is a slave, an update of slots keeps it so and meets the assertions of clusterSetMaster |
| ClusterSlaves.UpdateAssertsIff | redis-3.2.5/src/cluster.c:1442-1530 | the assertions fail if and only if the update takes the last slot of this node's master and leaves this node with one |
| ClusterSlaves.ProcessKeepsBare | redis-3.2.5/src/cluster.c:1541-1979 | so does every packet of another node |
| ClusterSlaves.PingAssertsIff | redis-3.2.5/src/cluster.c:1541-1879 | the same for a PING of a master, on the views before and after |
| ClusterSlaves.ReplicateKeepsBare | redis-3.2.5/src/cluster.c:4196-4231 | so does CLUSTER REPLICATE; when it is not refused this node has no slots |
| ClusterSlaves.LocalKeepsBare | redis-3.2.5/src/cluster.c:3886-4350 | a modelled CLUSTER subcommand keeps it so if and only if it is not ADDSLOTS of a free slot sent to a slave |
| ClusterSlaves.SlotToSlaveFails | redis-3.2.5/src/cluster.c:3924-3975 | after ADDSLOTS of a free slot on any slave without slots, CLUSTER REPLICATE is not refused and clusterSetMaster finds one slot |
| ClusterSlaves.SlaveWithSlotFails | redis-3.2.5/src/cluster.c:3924-3975 | a concrete slave for which that happens |
| ClusterMasters.ProcessKeepsMaster | redis-3.2.5/src/cluster.c:1442-1530 | a packet of another node leaves this node a master or with a known master, and such a node does not read NULL |
| ClusterMasters.LocalKeepsMaster | redis-3.2.5/src/cluster.c:3886-4350 | so does every modelled CLUSTER subcommand; in particular the own master cannot be forgotten |
| ClusterMasters.NullNeverRead | redis-3.2.5/src/cluster.c:1455-1511 | in every run that starts with every node a master or knowing its master, no packet reads through NULL |
| ClusterMasters.LoadedSlaveReadsNull | redis-3.2.5/src/cluster.c:200-213 | a node loaded from a configuration line that flags it a slave and names no master reads through NULL on the first claim of a slot by another master |
| ClusterMasters.SetMasterNeverFails | redis-3.2.5/src/cluster.c:3638-3654 | in every run that starts with slaves without slots, and in which ADDSLOTS gives no slave a slot, slaves stay without slots, and neither a packet nor CLUSTER REPLICATE fails an assertion of clusterSetMaster |
| ClusterNet.BuildHdrDominated | redis-3.2.5/src/cluster.c:2116-2147 | the epochs in a header that a node sends satisfy the dominance |
| ClusterSteps.HeaderClaims | redis-3.2.5/src/cluster.c:2116-2147 | a header carries the sender's name, current epoch and master, and the epoch and exactly the slots of the sender or, for a slave, of its known master |
| ClusterSteps.PingTeaches | redis-3.2.5/src/cluster.c:1541-1879 | a PING of a master, sent and received, gives it every slot that it owns at the receiver, except those that are importing there or have an owner as new |
| ClusterSteps.UpdateSays | redis-3.2.5/src/cluster.c:2391-2404 | an UPDATE carries the epoch and exactly the slots that the sender's table has for its subject |
| ClusterNet.RecordVoteUnique | redis-3.2.5/src/cluster.c:2466-2566 | a vote given under the last-vote-epoch check is the only one of that master in that epoch, and is sent once |
| ClusterSteps.VoteIff | redis-3.2.5/src/cluster.c:2466-2566 | a request gets a vote, recorded and on its way, if and only if the receiver is a master with slots, knows the sender as a slave, has not voted in that epoch or lately, the epoch is not old, the master is down or the vote forced, and no claimed slot has a newer owner |
| ClusterNet.CountedEpoch | redis-3.2.5/src/cluster.c:1928-1940 | an ACK that passes the check of its epoch carries exactly the epoch of the election, answers a vote that was given and was not counted before |
| ClusterNet.StepKeepsInv | redis-3.2.5/src/cluster.c:1541-1979 | every step of every node, with messages delayed, reordered or lost, keeps the invariant of the whole cluster |
| ClusterElection.EpochDominance | redis-3.2.5/src/cluster.c:1600-1612 | in every run, at every node and in every message in flight, each configuration epoch, in headers and in the payload of UPDATE, is at most the current epoch beside it |
| ClusterElection.CountIsVotes | redis-3.2.5/src/cluster.c:2836-2846 | in every run, the counter of a candidate is the number of votes for its epoch if and only if nothing was counted since the last reset while no request was out |
| ClusterElection.MajoritiesMeet | redis-3.2.5/src/cluster.c:2849-2850 | two candidates with a majority of the electorate of the same epoch are the same |
| ClusterElection.WinnerHasMajority | redis-3.2.5/src/cluster.c:2850-2862 | a candidate whose counter reaches the quorum without what was counted before its request has the votes of a majority of the electorate in its epoch |
| ClusterElection.EarnedIff | redis-3.2.5/src/cluster.c:2849-2850 | at every win of every run, the counter without what was counted before the request reaches the quorum if and only if the votes counted for the epoch of the election do |
| ClusterElection.ElectionSafety | redis-3.2.5/src/cluster.c:2466-2566 | in every run in which every win is earned in that sense, no two slaves win the same epoch |
| ClusterElection.NoStaleEarned | redis-3.2.5/src/cluster.c:2836-2850 | wins are earned if nothing is in the counter of a winner from before its request |
| ClusterSteps.WinnerWasWanted | redis-3.2.5/src/cluster.c:2466-2566 | a slave that earned its win has the votes of a majority of the electorate, each given by a master that met those conditions at that step |
| ClusterSteps.WinEffect | redis-3.2.5/src/cluster.c:2852-2866 | the winner's epoch is the greater of its own and the election's; if it was the slave of a known master it is a master now and owns that master's slots besides its own; nothing else changes at any node |
| ClusterSteps.ElectionCanSucceed | redis-3.2.5/src/cluster.c:2704-2866 | every run in which enough masters would vote for a slave and count for it can go on so that it wins the election of its next epoch |
| ClusterElection.SafetyWithAcksInTime | redis-3.2.5/src/cluster.c:1928-1940 | in every run in which ACKs arrive only while their request is out, no two slaves win the same epoch |
| ClusterElection.LateAckMakesTwoWinners | redis-3.2.5/src/cluster.c:2836-2846 | a run from a fresh cluster in which an ACK arrives after the request was given up has two winners of one epoch, because the counter is not cleared when the next request goes out |
| ClusterState.State.constructor | redis-3.2.5/src/cluster.c:398-445 | a node that knows only itself has no slots and epoch 0 |
| ClusterState.State.Assign | redis-3.2.5/src/cluster.c:3418-3423 | clusterAddSlot on the arrays is AddSlot, and fails exactly for an assigned slot |
| ClusterState.State.Unassign | redis-3.2.5/src/cluster.c:3428-3435 | clusterDelSlot on the arrays is DelSlot, and fails exactly for an unassigned slot |
| ClusterState.State.UnassignAll | redis-3.2.5/src/cluster.c:3439-3447 | clusterDelNodeSlots unassigns exactly the node's slots; the number returned is that of all slots looked at |
| ClusterState.State.TakeSlots | redis-3.2.5/src/cluster.c:2677-2682 | the loop of the takeover is ClaimSlots |
| ClusterState.State.RebindSlots | redis-3.2.5/src/cluster.c:1465-1502 | the loop over claimed slots is Rebind |
| ClusterState.State.CloseAllSlots | redis-3.2.5/src/cluster.c:3451-3456 | no slot is importing or migrating afterwards |
| ClusterState.State.BecomeReplicaOf | redis-3.2.5/src/cluster.c:3638-3654 | clusterSetMaster is SetMaster, keeps the state valid, and the flag tells exactly when its assertions hold |
| ClusterState.State.UpdateSlotsConfigWith | redis-3.2.5/src/cluster.c:1442-1530 | the update is UpdateSlots, and the flags tell exactly when NULL is read and when the assertions of clusterSetMaster hold |
| ClusterState.State.PromoteNode | redis-3.2.5/src/cluster.c:1415-1429 | the node is a master without a master of its own |
| ClusterState.State.ReplaceYourMaster | redis-3.2.5/src/cluster.c:2666-2694 | the takeover is ReplaceMaster |
| ClusterState.State.TakeEpochs | redis-3.2.5/src/cluster.c:1600-1612 | epochs of a packet are taken over if greater |
| ClusterState.State.SwitchRole | redis-3.2.5/src/cluster.c:1766-1796 | the role part of a packet is RoleSwitch |
| ClusterState.State.ResolveCollision | redis-3.2.5/src/cluster.c:1035-1050 | a collision of epochs is resolved as HandleCollision says |
| ClusterState.State.ProcessPing | redis-3.2.5/src/cluster.c:1825-1826 | the PING, PONG and MEET branch is OnPing, keeps the state valid, and the flags tell exactly when NULL is read and when the assertions of clusterSetMaster hold |
| ClusterState.State.ProcessUpdate | redis-3.2.5/src/cluster.c:1954-1975 | the UPDATE branch is OnUpdate, keeps the state valid, and the flags tell exactly when NULL is read and when the assertions of clusterSetMaster hold |
| ClusterState.State.ProcessPacket | redis-3.2.5/src/cluster.c:1541-1979 | a packet is processed as Process says, keeps the state valid, and the flags tell exactly when NULL is read and when the assertions of clusterSetMaster hold |
| ClusterState.State.MaxEpoch | redis-3.2.5/src/cluster.c:926-939 | the loop returns the greatest of the current epoch and all configuration epochs |
| ClusterState.State.BumpConfigEpoch | redis-3.2.5/src/cluster.c:970-987 | the bump is Bump, and reports whether a new epoch was made |
| AofFormat.DecRoundTrip | redis-3.2.5/src/aof.c:452-467 | a printed number is read back by the conversion, whatever non-digit follows |
| AofFormat.CommandRoundTrip | redis-3.2.5/src/aof.c:449-472 | a printed command is parsed back, and the rest of the file is left |
| AofFormat.CutCommand | redis-3.2.5/src/aof.c:639-710 | a command that is cut anywhere is reported as an unexpected end of file, never as another command or a format error |
| AofFormat.PrefixLoads | redis-3.2.5/src/aof.c:639-753 | every prefix of a log loads exactly the commands that lie within it, valid_up_to is the end of the last one, and the end is unexpected exactly when it is not a command's end |
| AofFormat.LogRoundTrip | redis-3.2.5/src/aof.c:639-710 | a log loads back as the commands it was printed from |
| AofFormat.ReadArguments | redis-3.2.5/src/aof.c:668-689 | the argument loop is ReadArgs |
| AofFormat.LoadLoop | redis-3.2.5/src/aof.c:639-710 | the load loop with its error branches is Load |
| AofGrammar.ReadCommandSound | redis-3.2.5/src/aof.c:653-690 | a command that is read is written there: a star line with the number of arguments, then dollar lines with lengths, each followed by that many bytes and two more |
| AofGrammar.LoadSound | redis-3.2.5/src/aof.c:639-753 | for every byte string, the commands run are exactly those written up to valid_up_to, and loading stops at the end or where no command can be read |
| AofGrammar.PrintedText | redis-3.2.5/src/aof.c:449-472 | what the server prints is written so |
| AofFormat.CatCommand | redis-3.2.5/src/aof.c:449-472 | the loop appends the printed command |
| AofLog.SelectText | redis-3.2.5/src/aof.c:517-524 | the SELECT that is formatted by hand is the printed SELECT command |
| AofLog.FeedReplays | redis-3.2.5/src/aof.c:511-559 | feeding one command adds exactly that command in its database to what the log replays |
| AofLog.LogPreservesCommands | redis-3.2.5/src/aof.c:511-559 | for every sequence of commands in databases, printing, loading and tracking SELECT gives back the same commands in the same databases |
| AofLog.TruncatedLogPreservesPrefix | redis-3.2.5/src/aof.c:725-753 | after losing any tail of bytes, what loads is a prefix of the commands that were fed, in the same databases |
| AofLog.RecoveredLogContinues | redis-3.2.5/src/aof.c:725-753 | after losing any tail of bytes, truncating at valid_up_to and logging on with no database selected, the file loads clean as the commands that survived followed by the new ones, in the same databases |
| AofLog.FeedRebuilds | redis-3.2.5/src/aof.c:511-559 | replaying the longer log is running the command on the data set of the shorter one |
| AofWriter.FlushConserves | redis-3.2.5/src/aof.c:287-425 | for every outcome of the write and the truncation, file followed by buffer is unchanged and the recorded size is the file's; when the server exits, the file still holds a prefix |
| AofWriter.FlushWrites | redis-3.2.5/src/aof.c:287-425 | with a non-empty buffer, file and buffer stay as they are if and only if the policy is everysec, nothing forces the flush, an fsync is pending, and the wait is new or shorter than two seconds; otherwise a full write moves the whole buffer, a short one that is not undone moves what was written, and an error moves nothing; the server exits exactly on an incomplete write with the always policy |
| AofWriter.WaitIsShort | redis-3.2.5/src/aof.c:297-316 | in every run, two seconds after the first flush that was put off the next one writes |
| AofWriter.RunConserves | redis-3.2.5/src/aof.c:287-425 | over every run of feeds and flushes, file and buffer hold exactly the bytes fed, in order |
| AofWriter.CrashLeavesPrefix | redis-3.2.5/src/aof.c:287-425 | whenever the process stops, the file loads as a prefix of the commands executed |
| AofWriter.Writer.FeedCommand | redis-3.2.5/src/aof.c:511-559 | the buffer grows by the printed command, with a SELECT before it when the database differs |
| AofWriter.Writer.Flush | redis-3.2.5/src/aof.c:287-425 | the flush is FlushOnce and conserves file and buffer |
| AofRewrite.FillLast | redis-3.2.5/src/aof.c:131-140 | copying into the last block and keeping the rest conserves the bytes |
| AofRewrite.DrainFirst | redis-3.2.5/src/aof.c:112-118 | sending from the first block conserves the bytes |
| AofRewrite.RewriteBuffer.constructor | redis-3.2.5/src/aof.c:70-76 | an empty list of blocks |
| AofRewrite.RewriteBuffer.Append | redis-3.2.5/src/aof.c:124-168 | the blocks hold what they held followed by the new bytes, for every length |
| AofRewrite.RewriteBuffer.SendDiff | redis-3.2.5/src/aof.c:95-121 | for every sequence of short writes, bytes sent followed by bytes left are the bytes held; nothing is sent once the parent has stopped, and otherwise sending ends only when nothing is left or a write takes nothing |
| AofRewrite.RewriteBuffer.WriteTo | redis-3.2.5/src/aof.c:173-193 | the file gains a prefix of the blocks, and success is reported exactly when it gained all of them, which is when every write takes its whole block |
| AofRewrite.ReadDiff | redis-3.2.5/src/aof.c:996-1006 | the child's diff grows by everything in the pipe, however it is split into reads |
| AofHandoff.ExecuteKeeps | redis-3.2.5/src/aof.c:511-559 | a command executed at any moment keeps live log, diff and data set in step |
| AofHandoff.DoneKeeps | redis-3.2.5/src/aof.c:1358-1505 | the end of the rewrite installs snapshot and diffs on success and leaves the old file on failure |
| AofHandoff.StepKeepsInv | redis-3.2.5/src/aof.c:1129-1148 | every step of parent, child and pipes, with failures anywhere, keeps the invariant |
| AofProgress.RewriteStarts | redis-3.2.5/src/aof.c:1263-1315 | a fork starts a child that works on its snapshot with nothing fed, and leaves the live AOF alone |
| AofProgress.RewriteCanComplete | redis-3.2.5/src/aof.c:1129-1148 | from every state of every run in which parent and child can still agree, steps without failures end in the switch, with the snapshot followed by exactly what was fed since the fork in use |
| AofProgress.DiffCanReachChild | redis-3.2.5/src/aof.c:95-121 | while the child works, everything fed so far can reach it through the pipe |
| AofProgress.RewriteCanFail | redis-3.2.5/src/aof.c:1481-1505 | a child that works or talks can fail, and the live AOF stays as it is |
| AofProgress.LostStaysLost | redis-3.2.5/src/aof.c:1180-1201 | a child that failed, or asks with neither question nor answer under way, completes nothing |
| AofProgress.FlushMakesDurable | redis-3.2.5/src/aof.c:287-425 | after a complete write that did not have to wait, the file alone loads as the whole log and rebuilds the data set, during a rewrite or not |
| AofProgress.DataFollowsCommands | redis-3.2.5/src/aof.c:511-559 | in every interleaving, the data set is what the executed commands make of the first one, in order |
| AofProgress.LoadRepeatsCommands | redis-3.2.5/src/aof.c:511-559 | hence loading file and buffer repeats the commands of the run, across rewrites |
| AofHandoff.AofRebuildsData | redis-3.2.5/src/aof.c:1358-1505 | in every interleaving, while the AOF is on, loading file and buffer gives the current data set, across any number of rewrites |
| AofHandoff.CrashLeavesPrefixOfLog | redis-3.2.5/src/aof.c:1358-1505 | in every interleaving, while the AOF is on, the file alone loads as a prefix of the log, also when the process exits inside a flush, and the whole log rebuilds the data set, across any number of rewrites |
| AofHandoff.SendKeeps | redis-3.2.5/src/aof.c:95-121 | bytes that enter the pipe stay in order between what the child has read and the blocks |
| AofHandoff.ReadKeeps | redis-3.2.5/src/aof.c:996-1006 | bytes that the child reads stay in order before what is in the pipe |
| AofHandoff.DiffConserved | redis-3.2.5/src/aof.c:95-121 | in every interleaving, the bytes fed since the fork are child diff, pipe and blocks in order, and a diff starts with SELECT |
| AofHandoff.SwitchOver | redis-3.2.5/src/aof.c:1358-1505 | on success the new file is the snapshot and exactly all diffs and replays to the current data set; on failure file, buffer and data are untouched |
| IntSet.EncodingFits | redis-3.2.5/src/intset.c:45-52 | a value fits a width if and only if its encoding is at most that width |
| IntSetBytes.DecodeEncode | redis-3.2.5/src/intset.c:55-94 | a value stored at a width that holds it is read back |
| IntSetBytes.GetPut | redis-3.2.5/src/intset.c:55-94 | a write is read back and leaves every element it does not overlap |
| IntSet.PositionDecides | redis-3.2.5/src/intset.c:115-154 | in an increasing sequence the answer of the search is membership |
| IntSet.InsertKeepsOrder | redis-3.2.5/src/intset.c:204-231 | inserting at the position found keeps the sequence increasing and adds just the value |
| IntSet.RemoveKeepsOrder | redis-3.2.5/src/intset.c:234-251 | removing at the position found keeps the sequence increasing and removes just the value |
| IntSet.InsertBytes | redis-3.2.5/src/intset.c:224-229 | growing, moving the tail of bytes and storing is an insertion of the element |
| IntSet.RemoveBytes | redis-3.2.5/src/intset.c:245-248 | moving the tail of bytes down and shrinking is a removal of the element |
| IntSet.UpgradeStep | redis-3.2.5/src/intset.c:170-171 | one round of the in-place upgrade overwrites no element that is still to be read |
| IntSet.UpgradeEnd | redis-3.2.5/src/intset.c:173-178 | the gap left by the upgrade takes the new value at the right end |
| IntSet.WideValueIsExtreme | redis-3.2.5/src/intset.c:160-178 | a value too wide for the encoding is below or above all elements, as its sign says |
| IntSet.Set.constructor | redis-3.2.5/src/intset.c:97-102 | a new set is empty |
| IntSet.Set.GetAt | redis-3.2.5/src/intset.c:76-78 | the element at the position is returned |
| IntSet.Set.Search | redis-3.2.5/src/intset.c:115-154 | the binary search with its two shortcuts returns membership and the insertion point |
| IntSet.Set.Contains | redis-3.2.5/src/intset.c:254-257 | membership in the set, for every 64-bit value |
| IntSet.Set.Store | redis-3.2.5/src/intset.c:81-94 | the bytes of the value are written and no others |
| IntSet.Set.MoveBytes | redis-3.2.5/src/intset.c:182-201 | memmove in either direction |
| IntSet.Set.Widen | redis-3.2.5/src/intset.c:170-171 | the back-to-front loop upgrades every element in place |
| IntSet.Set.UpgradeAndAdd | redis-3.2.5/src/intset.c:157-180 | the set gains the value, at the front if negative and at the end otherwise, in the wider encoding |
| IntSet.Set.Add | redis-3.2.5/src/intset.c:204-231 | the set gains the value; success says whether it is new; the encoding is the wider of the two |
| IntSet.Set.Delete | redis-3.2.5/src/intset.c:234-251 | the set loses the value; success says whether it was there; the encoding stays |
| BitCount.TableIsCount | redis-3.2.5/src/bitops.c:44-44 | each of the 256 entries of the table is the number of set bits of its index |
| BitCount.AddHolds | redis-3.2.5/src/bitops.c:80-86 | adding two words whose bytes are below 128 adds their bytes, with no carry between them |
| BitCount.FoldHolds | redis-3.2.5/src/bitops.c:66-80 | the shifts and masks leave in each byte of a word the number of its own set bits |
| BitCount.TimesAdds | redis-3.2.5/src/bitops.c:86-86 | multiplying by 0x01010101 adds the four bytes into the top one |
| BitCount.BlockCount | redis-3.2.5/src/bitops.c:55-86 | the seven-word sum never overflows a byte and gives the set bits of 28 bytes |
| BitCount.CountBlock | redis-3.2.5/src/bitops.c:55-86 | one round of the loop adds the set bits of its 28 bytes |
| BitCount.Popcount | redis-3.2.5/src/bitops.c:40-92 | the result is the bit-by-bit count, for every length and alignment |
| BitPos.SkipWords | redis-3.2.5/src/bitops.c:117-135 | the bytes and words skipped hold no matching bit, and if eight bytes are left the loop stopped at a word that has one |
| BitPos.LoadWord | redis-3.2.5/src/bitops.c:144-152 | the word holds the next 64 bits of the string, padded with zeros |
| BitPos.ScanWord | redis-3.2.5/src/bitops.c:165-177 | the position of the first matching bit from the top is returned, and the panic is not reached |
| BitPos.Bitpos | redis-3.2.5/src/bitops.c:101-179 | the first matching bit; -1 exactly when a one is looked for and there is none; a zero is always found, at the latest right after the string |
| BitField.SetUnsigned | redis-3.2.5/src/bitops.c:202-215 | the field holds the low bits of the value and no other bit of the string changes |
| BitField.SetSigned | redis-3.2.5/src/bitops.c:217-220 | the same for the two's complement of a signed value |
| BitField.GetUnsigned | redis-3.2.5/src/bitops.c:222-234 | the number written in the bits of the field |
| BitField.GetSigned | redis-3.2.5/src/bitops.c:236-256 | that number in two's complement of the field's width |
| BitField.GetAfterSet | redis-3.2.5/src/bitops.c:202-234 | getting after setting gives the value modulo 2^bits, and every field that does not overlap is unchanged |
| BitField.SignedGetAfterSet | redis-3.2.5/src/bitops.c:217-256 | a signed value is read back wrapped to the width of the field, and exactly itself if it is in range, for widths below 64 |
| BitField.WrapUnique | redis-3.2.5/src/bitops.c:350-367 | the wrapped number is the only one that fits the field and differs by a multiple of 2^bits |
| BitField.UnsignedCheckExact | redis-3.2.5/src/bitops.c:281-316 | the check is non-zero if and only if the exact sum leaves the field; the code tells the side, except that wrapping below zero gives 1 where the comment says -1; the limit is the clamp or the wrapped sum |
| BitField.SignedCheckExact | redis-3.2.5/src/bitops.c:318-368 | the same for signed fields of up to 63 bits |
| BitField.SignedSetExact | redis-3.2.5/src/bitops.c:318-347 | for a value checked by itself, in range or not, the answer is right if and only if the value is not within 2^(bits-1) of the least 64-bit number or the caller asks for wrapping |
| BitField.LeastNumberSaturatesHigh | redis-3.2.5/src/bitops.c:325-337 | for every width, the least 64-bit number saturates to the greatest number of the field |
| BitOp.CombinedByte | redis-3.2.5/src/bitops.c:668-706 | the operation on words is the operation on each of their bytes |
| BitOp.FoldedBits | redis-3.2.5/src/bitops.c:721-732 | a bit of the result is set if it is set in all sources for AND, in some for OR, in an odd number for XOR, and not in the only one for NOT |
| BitOp.Lengths | redis-3.2.5/src/bitops.c:620-647 | the longest length, which some source has, and a length that no source falls short of, with missing keys in any position |
| BitOp.WordStep | redis-3.2.5/src/bitops.c:671-674 | one word of the result is combined with one word of a source, and no other byte changes |
| BitOp.FastPath | redis-3.2.5/src/bitops.c:658-718 | every byte up to the returned index is the fold over all sources |
| BitOp.SlowByte | redis-3.2.5/src/bitops.c:721-732 | one byte of the fold over the zero-padded sources |
| BitOp.Compute | redis-3.2.5/src/bitops.c:616-734 | the result has the length of the longest source and each byte is the fold over all sources padded with zeros; NOT with several sources is refused |
| Bio.StepKeepsInv | redis-3.2.5/src/bio.c:126-206 | every step of any thread keeps: one holder of the lock, the list is what was submitted and not removed, the worker's node is its head, the counter is exact but for the change in progress |
| Bio.CompletedInOrder | redis-3.2.5/src/bio.c:166-197 | in every interleaving, completed jobs are a prefix of the submitted ones, each once |
| Bio.CounterWhenFree | redis-3.2.5/src/bio.c:126-138 | in every interleaving, the counter is the length of the queue whenever the lock is free |
| Bio.ZeroMeansCompleted | redis-3.2.5/src/bio.c:200-206 | in every interleaving, a thread that was told 0 can rely on every job submitted before being completed, not merely started |
| Bio.AnswerMeans | redis-3.2.5/src/bio.c:200-206 | in every interleaving, a thread that was told n can rely on all but n of the jobs submitted before being completed |
| Bio.CountRead | redis-3.2.5/src/bio.c:200-206 | in every interleaving, the number read is that of the submitted jobs that are not completed, and one more while a completed one is still listed |
| Bio.NoLostWakeup | redis-3.2.5/src/bio.c:170-173 | in every interleaving, the worker does not sleep over a job once the lock is free |
| Bio.WorkerFinishes | redis-3.2.5/src/bio.c:166-197 | once no client holds the lock, the worker alone completes every submitted job |
| Bio.CallSubmits | redis-3.2.5/src/bio.c:126-138 | a call that finds the lock free queues its job at the end, counts it, wakes the worker and returns |
| Bio.CallCompletes | redis-3.2.5/src/bio.c:126-197 | the worker alone then completes it, after those before it |
| Bio.AskAnswers | redis-3.2.5/src/bio.c:200-206 | a question that finds the lock free is answered with the length of the queue |
| SlotIndex.SortedUnique | redis-3.2.5/src/db.c:1240-1251 | two sorted indexes with the same entries are equal |
| SlotIndex.InsertSorted | redis-3.2.5/src/db.c:1240-1245 | inserting keeps the order and adds just the entry |
| SlotIndex.DeleteSorted | redis-3.2.5/src/db.c:1247-1251 | deleting keeps the order and removes just the entry |
| SlotIndex.Ranks | redis-3.2.5/src/db.c:1305-1320 | the range queries find the first and last entry of a slot, and their ranks are its ends |
| SlotIndex.ListedSorted | redis-3.2.5/src/db.c:1258-1272 | the keys listed for a slot are in order, each once |
| Keyspace.IndexAdd | redis-3.2.5/src/db.c:157-164 | adding a new key to dictionary and index keeps their agreement |
| Keyspace.IndexDelete | redis-3.2.5/src/db.c:226-236 | deleting a key from dictionary and index keeps their agreement |
| Keyspace.IndexUnique | redis-3.2.5/src/db.c:1240-1251 | the index is determined by the dictionary |
| Keyspace.StretchKeys | redis-3.2.5/src/db.c:1258-1272 | the stretch of the index for a slot lists exactly the keys of that slot, as many as there are |
| Keyspace.Db.Add | redis-3.2.5/src/db.c:157-164 | the key is added, and expiry times and index still agree |
| Keyspace.Db.Overwrite | redis-3.2.5/src/db.c:171-176 | the value is replaced, and the expiry time stays |
| Keyspace.Db.Remove | redis-3.2.5/src/db.c:226-236 | the key, its expiry time and its index entry go; the result says whether it was there |
| Keyspace.Db.GetExpire | redis-3.2.5/src/db.c:859-870 | the time or -1; the safety check never fails |
| Keyspace.Db.SetExpire | redis-3.2.5/src/db.c:847-855 | the time is recorded for a key of the dictionary |
| Keyspace.Db.RemoveExpire | redis-3.2.5/src/db.c:840-845 | the time is forgotten; the result says whether there was one |
| Keyspace.Db.ExpireIfNeeded | redis-3.2.5/src/db.c:896-930 | answers exactly whether the key has expired; on a master the key is then gone, on a slave or while loading nothing changes |
| Keyspace.Db.Expire | redis-3.2.5/src/db.c:943-987 | a time that has passed deletes the key on a master; on a slave and while loading any time is stored, -1 included; the result says whether the key was there |
| Keyspace.Db.LookupWrite | redis-3.2.5/src/db.c:136-139 | the value after dropping the key if it has expired |
| Keyspace.Db.SetKey | redis-3.2.5/src/db.c:184-193 | the key has the value and no expiry time, whatever it had before; the assertions inside never fail |
| Keyspace.Db.Rename | redis-3.2.5/src/db.c:731-771 | every case of the reply; on success the value goes to the new name and the old name is gone; for another name, the expiry time is carried if and only if it is not -1 |
| Keyspace.LoseTime | redis-3.2.5/src/db.c:749-761 | a run of commands on an empty database after which a key had a time stored as -1, and has none under its new name |
| Keyspace.Db.GetKeysInSlot | redis-3.2.5/src/db.c:1258-1272 | at most the given number of keys of the slot, in order |
| Keyspace.Db.CountKeysInSlot | redis-3.2.5/src/db.c:1296-1323 | the count from ranks is the number of keys of the slot |
| Keyspace.Db.DelKeysInSlot | redis-3.2.5/src/db.c:1276-1294 | exactly the keys of the slot are removed, and their number is returned |

## Left out

- The HTTP and blog code, networking, configuration, replication, scripting, geo commands and reply formatting.
- Skip list, quicklist, ziplist and string internals: the slot index is a sorted sequence, lists are sequences.
- Memory allocation, reference counts and key destructors, except where they order updates.
- dict.c: unsafe iterators, fingerprints, random keys, dictEmpty and resizing by the caller are not modelled as
  operations. The scan theorem covers whatever they do between calls, since it holds for every sequence of valid states.
- DictModel.NextPowerIsTableSize: is stated up to 2^31, because bucket indexes are C `int`s in _dictKeyIndex and
  dictAddRaw, so that larger tables are outside what the code supports; the cut-off at LONG_MAX is not modelled.
- DictModel.ExpandIfNeededSucceeds: needs room for doubling within 2^31 buckets, for the same reason.
- DictModel.ExpandRefines: is stated for requests up to 2^31, for the same reason.
- DictTable.HashTable.NextPowerOf: is stated up to 2^31, for the same reason.
- DictTable.HashTable.ExpandTo: is stated for requests up to 2^31, for the same reason.
- DictTable.HashTable.GrowIfNeeded: needs room for doubling within 2^31 buckets, for the same reason.
- DictTable.HashTable.Insertion: needs `|M| * 2 <= MAX_SIZE`, for the same reason.
- DictTable.HashTable.Replace: needs `|M| * 2 <= MAX_SIZE`, for the same reason.
- DictIter.SafeIterationExactlyOnce: is about one iterator; direct calls of dictRehash after it has started, and
  dictEmpty, are excluded.
- cluster.c: handshakes, failure detection, addresses, manual failover timing, slave migration, CLUSTER RESET and
  restarts. Node records are values in a map, so aliasing of node structures is not captured.
- ClusterPackets.ProcessProgress: the gossip section, failure flags and handshakes of a packet are left out.
- ClusterOps.LocalSound: CLUSTER RESET, FAILOVER other than TAKEOVER, and the handshake that MEET starts are left out;
  whether the node has keys is a parameter of the subcommands that test it.
- ClusterMasters.NullNeverRead: nodes in handshake and their deletion are left out, and with them the way in which a
  slave can lose its master.
- ClusterMasters.SetMasterNeverFails: excludes ADDSLOTS of a free slot sent to a slave, for which it is false.
- ClusterState.State.BecomeReplicaOf: setting up the replication link and resetting a manual failover are left out.
- ClusterState.State.UpdateSlotsConfigWith: the deletion of keys in lost slots is left out; the node state has no keys.
- ClusterState.State.ProcessPing: the gossip section and the reply with an UPDATE are left out; sending an UPDATE is a
  step of its own in `ClusterNet`.
- ClusterState.State.ProcessPacket: FAIL, PUBLISH and manual failover packets only move epochs.
- ClusterElection.ElectionSafety: needs an electorate that is fixed for the epoch, a winner that counts at least as many
  masters as the electorate has (`size >= |electorate|`), and wins that are earned, because the code does not clear the
  count of votes; without the last it is false.
- ClusterPackets.ImportingNotRebound: says that the packet gives the slot to nobody else; a role change in the same
  packet can leave it unassigned.
- aof.c: AOF_OFF with a one-shot rewrite, empty files, MULTI at the end of the log, and conversion overflow for numbers
  that no log contains. The snapshot that the child writes is a parameter that rebuilds the data set at the fork.
- AofWriter.Writer.FeedCommand: commands that are translated before they are logged (EXPIRE, SETEX and their kin) are
  left out.
- intset.c: the 32-bit length does not wrap; buffers are little-endian.
- BitField.GetSigned: signed fields of 64 bits are left out, because the source then shifts by the width of the word,
  which C leaves undefined.
- BitField.SignedGetAfterSet: signed fields of 64 bits are left out, for the same reason.
- BitField.SignedCheckExact: signed fields of 64 bits are left out, for the same reason.
- BitField.SignedSetExact: signed fields of 64 bits are left out, for the same reason.
- BitOp.Compute: looking up the keys, the type check and storing the result are left out.
- Bio.CompletedInOrder: is about the queue of one type; the types share nothing. Killing threads is left out.
- Keyspace.Db.Rename: the notifications, the propagation of expired keys and the dirty counter are left out.
