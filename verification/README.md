# Timelock Drive: a verified model

Timelock Drive is a versioning block device (a C driver) whose writes pass through a gatekeeper that
enforces timelocks.  This project models the parts that carry the protocol's weight and proves what
they are relied on for.  Where the original stops the program (`expect`, `exit`, `abort`), the models
return a failure value and the theorems speak about runs that have not stopped.

- **Ring, RingPipe, Wakeups** - the shared-memory byte ring as two processes that interleave at every
  load, store, copied byte and futex call: first-in first-out delivery through wrap-around of the
  32-bit counters, no lost wake-up and completion of calls between two C endpoints, and the exact
  condition under which a wake-up can be lost.
- **Flags, RoundUp, Probing, Buckets, Rehash, KHash** - khash on its packed arrays: packed flag words,
  rounding up to a power of two, triangular probing, the in-place kick-out rehash, and every table
  operation against a finite map.
- **Bytes, Timelock, Replay** - the timelock entry, its step on bytes, in-order execution of a log, and
  how long a frozen block stays protected.
- **LogUpdates, Freshness, Executed, Requests, Gatekeeper** - the gatekeeper's metadata: applying a log
  block to the five cached metadata blocks, admitting blocks from the driver, serving whole requests and
  recovering.  The class `Checker` keeps the history of its session as ghost state, and every method
  says how the history goes on, so the results about runs of a session speak about what the methods do:
  what is cached is the latest block hashed, what has been hashed is the replay of the log, and no range
  is written whose tested blocks the log leaves locked, whatever the driver sends, blocks included that
  earlier sessions sealed under the same key, as long as none of those contradicts the log.
- **Archive** - the key outlives a session while the counters start over, so blocks of earlier sessions
  check again: for any number of sessions whose logs extend one another they contradict no log, and a
  session is safe from them exactly if they do not.
- **Coherence, Residency, Turns, AfterRecovery** - the driver's picture of the gatekeeper's cache stays
  exact over any run of accepted writes on a fresh disk, so the gatekeeper never rejects its blocks;
  which requests find what they need; and what of the picture holds after a recovery.
- **LogChain, LogBlocks, Recovery, Restart** - the on-disk chain of log blocks, the walk along it, and
  what a restart gives back.
- **Openings, Departures** - concrete runs on which the code does what its callers do not expect.
- **Extents, WriteLayout, LogPacking, ScanDisk** - the driver's translation layer: reads, range merging,
  payload layout, allocation with log packing, and the recovery scan.

A block has 512 entries of 8 bytes; the disk has 2621440 blocks and 5120 metadata blocks; a log block
names up to 1021 addresses; the cache has five slots of 4136 bytes.

Places where the code departs from its own documentation, or where a property has an exact condition:

- `timelock.dfy:164` states that the carry test implies a sum above 2^32.  The test also fires at 2^32;
  `Bytes.OverflowIsCarry` states the equivalence.
- The Rust endpoint of the ring wakes its peer only when its first look found the ring empty or full.
  `Wakeups.WakeupsAreSafeIffBothAreC` shows runs that lose a wake-up and that this is exactly the
  presence of such an endpoint.
- A second InitCounters in one session reuses counters.  `Freshness.SecondInitIsFreshIff` gives the
  exact condition under which freshness survives it, `Departures.SecondInitBreaks` a session in which
  it does not.
- The hash key is kept on disk across restarts, and every start sets the freshness counters back to 0.
  A block that an earlier session has sealed is let in again when the session reaches its counter.
  `Archive.NeverAstrayIff` states exactly when that can lead a session astray,
  `Archive.EverySessionIsFaithful` that it cannot while the logs of the sessions extend one another, and
  `Departures.StaleTestPasses` gives two sessions under one key, the second on a disk started over, that
  end with a test passing on a block which the log keeps locked.  A restart from pointers that were not
  persisted, which drops the end of the log, is of this kind as well.
- A log pointer below the first log block is accepted at run time and refused at restart.
  `Recovery.LoadsBackIff` says when the persisted pointers load back, `Departures.LowTailIsRefused`
  gives a session that ends with pointers that do not.
- The driver does not send blocks that are cached, but the blocks it does send may push those out before
  the request needs them, which then halts the gatekeeper.  `Residency.NeededStayIff` says exactly
  when, `Residency.ServedOnlyIfNeededStay` that no such request is served, and
  `Departures.PushOutHappens` that an ordinary first write leads there.
- Recovery asks for cached blocks again, but skips them when they come; a later block of the same answer
  may push them out.  `Restart.HonestReplayIff` says exactly when the replay of a log block goes on,
  `Departures.RecoveryHalts` gives a recovery from two log blocks that halts although every answer is
  right.  `Restart.RecoveryFinishesIff`: after a session that executed what it wrote, and with honest
  answers, nothing else can halt a recovery.
- After a denied write the driver has not learnt what its batch pushed out.
  `Residency.DeniedIsCoherentIff`: its picture stays exact only if it had sent nothing;
  `Departures.DeniedWriteSpoils` gives a denied write after which it is wrong.
- After a recovery the driver takes no block for cached, while the gatekeeper has some.  What it takes
  for cached then is (`AfterRecovery.WithinThroughout`); a batch may be rejected because a copy is out of
  date (`AfterRecovery.AcceptedIff`), and `send_hd_metadata`, which takes back before it marks, would
  keep the bit of a block that the same batch skips and pushes out
  (`AfterRecovery.BatchKeepsWithinIff`), but a served request that needs what it sends has no such block
  (`AfterRecovery.NeededIsNotLost`).
- The gatekeeper tests only the first block of each metadata block of a range, and executes the log
  blocks of a range before it knows whether the range is accepted; `Gatekeeper.Checker.EnsureBlocksFree`
  says exactly that.  A log block of a range that is then denied has been executed and has moved the
  tail, but is not on the disk; `Restart.RestartRestores` is about sessions that executed what they wrote.
- The placeholder index 5119 counts as cached while an empty slot is left, so statements about freshness
  and coherence leave that index out; `Departures.EmptySlotDenies` says what happens to it instead.
- `find_free_range` gives up a run when the free list ends within it, with the blocks already mapped and
  logged; `LogPacking.Allocator.Place` therefore says of a failed request what has been handed out, and
  that nothing else has left the free list but for the logs.
- A write may end with a range of no blocks.  `Requests.RoomIff`: behind a full batch and 66 blocks such a
  range is refused, as no block would fit behind it.
- The allocator keeps the version block that fills together with the timelock log for the next one,
  with 0 for "none"; `LogPacking` therefore keeps block 0 at the head of the free list, where the
  ascending list of `scan_disk` puts it.

## Model

| member | source | states |
|---|---|---|
| Ring.StepInv | versioning_td_driver/src/ipc_transport.c:107-178 | Every step of either endpoint keeps the true counters within one capacity of each other, each local view between the peer's past and present, and the last 4 MiB laid down in their slots, although only wrapped 32-bit values are compared. |
| Ring.ChunkSlotIsSlot | versioning_td_driver/src/ipc_transport.c:124-130 | Masking a wrapped counter and splitting the copy at the end of the buffer addresses the slot of the true byte number, because the capacity divides 2^32. |
| Ring.Sub32IsDistance | versioning_td_driver/src/ipc_transport.c:117-122 | Wrapped subtraction of the counters is their true distance as long as that is below 2^32. |
| Ring.DeliveredIsPrefixOfWritten | versioning_td_driver/src/ipc_transport.c:107-178 | In every reachable interleaving, for calls of any lengths, the bytes delivered are a prefix of the bytes written. |
| Ring.UnreadBytesAreKept | versioning_td_driver/src/ipc_transport.c:122-130 | No step overwrites a published byte that has not been read, whatever stale view of head the writer holds. |
| Ring.NoLostWakeup | versioning_td_driver/src/ipc_transport.c:116-133 | Between C endpoints a sleeping reader means an empty ring or a writer between its tail store and its wake, and the mirror image; never both asleep; two pending calls always leave a step enabled. |
| Ring.InternalRunsAreBounded | versioning_td_driver/src/ipc_transport.c:112-177 | Without new calls or spurious wake-ups two C endpoints take at most a number of steps fixed by where they start. |
| Ring.CallsComplete | versioning_td_driver/src/ipc_transport.c:112-177 | When two C endpoints have run until neither can step, the read has returned with exactly the next bytes written or every byte written has been delivered, and the write has returned exactly if its bytes fit the ring. |
| Wakeups.RustWriterLosesWakeup | gatekeeper/rust-externs/externs.rs:374-414 | From every initial state with a Rust writer a run leads to a reader asleep on a non-empty ring with the writer returned. |
| Wakeups.RustReaderLosesWakeup | gatekeeper/rust-externs/externs.rs:343-372 | From every initial state with a Rust reader a run leads to a writer asleep on a ring with room and the reader returned. |
| Wakeups.WakeupsAreSafeIffBothAreC | gatekeeper/rust-externs/externs.rs:343-414 | No run loses a wake-up if and only if both endpoints are the C ones. |
| RingPipe.ShmPipe.PutChunk | versioning_td_driver/src/ipc_transport.c:122-132 | The two memcpy calls of a write pass lay the chunk over the buffer from the tail on, around the end, and advance the tail by the chunk that fits. |
| RingPipe.ShmPipe.GetChunk | versioning_td_driver/src/ipc_transport.c:162-175 | The two memcpy calls of a read pass deliver the bytes from the head on, around the end, into place, and advance the head. |
| RingPipe.ExtractIsTwoCopies | versioning_td_driver/src/ipc_transport.c:164-170 | The bytes from the head on are the tail end of the buffer followed by its front. |
| RingPipe.PutIsWriterPass | versioning_td_driver/src/ipc_transport.c:122-133 | The machine's byte-by-byte writer pass and the in-place pass agree on buffer and tail. |
| RingPipe.GetIsReaderPass | versioning_td_driver/src/ipc_transport.c:162-175 | The machine's byte-by-byte reader pass and the in-place pass agree on what is delivered and on head. |
| Flags.SetIsDelTrue | versioning_td_driver/include/khash.h:171 | Marks one bucket deleted and leaves every other bucket of the packed words alone. |
| Flags.SetIsEmptyFalse | versioning_td_driver/include/khash.h:169 | Clears the empty bit of one bucket only. |
| Flags.SetIsBothFalse | versioning_td_driver/include/khash.h:170 | Makes one bucket live and changes no other. |
| Flags.FillEmpty | versioning_td_driver/include/khash.h:226 | The 0xaa fill makes every bucket empty. |
| RoundUp.RoundUpIsLeastPow2 | versioning_td_driver/include/khash.h:175-176 | From 1 to 2^31 the macro gives a power of two at or above its argument and below twice it; every other argument wraps to 0. |
| Probing.ProbesAreDistinct | versioning_td_driver/include/khash.h:233-240 | The first 2^k triangular probes modulo 2^k hit different buckets. |
| Probing.EveryBucketIsProbed | versioning_td_driver/include/khash.h:233-240 | Every bucket is among them. |
| Probing.NoEarlyReturn | versioning_td_driver/include/khash.h:239 | No probe before the 2^k-th comes back to the first bucket, so the `i == last` exits are never taken while a bucket is empty. |
| Buckets.EmptyBucketAhead | versioning_td_driver/include/khash.h:281 | With fewer occupied buckets than buckets every probe sequence meets an empty one. |
| Buckets.SearchFailed | versioning_td_driver/include/khash.h:237-241 | A search that stops at an empty bucket proves the key absent from the whole table. |
| Buckets.StoreKeepsReachable | versioning_td_driver/include/khash.h:336-347 | Storing at a bucket on the key's probe path, tombstone or empty, keeps every other key reachable. |
| Buckets.DeleteKeepsReachable | versioning_td_driver/include/khash.h:351-354 | Deleting leaves a tombstone, so no other key is hidden. |
| Buckets.SwapAt | versioning_td_driver/include/khash.h:284-285 | Exchanging the entry in hand with a stored one keeps the map of stored entries plus the one in hand. |
| Rehash.ProbeForEmpty | versioning_td_driver/include/khash.h:279-281 | The inner probe loop ends at an empty new bucket on the key's path with nothing empty before it. |
| Rehash.TakeInHand | versioning_td_driver/include/khash.h:270-276 | Taking an old entry into the hand removes exactly it from the positions of the two layouts. |
| Rehash.Kick | versioning_td_driver/include/khash.h:283-286 | Kicking out an old entry keeps map and reachability and leaves one old entry fewer. |
| Rehash.Settle | versioning_td_driver/include/khash.h:287-291 | Settling at a free position puts the entry in hand back into the map. |
| Rehash.KickOut | versioning_td_driver/include/khash.h:270-293 | The kick-out process for one old entry ends, with nothing in hand, the same map, all moved keys reachable, and that entry moved. |
| KHash.MoveAll | versioning_td_driver/include/khash.h:268-295 | After the outer loop no old entry is left and the new layout holds the whole map. |
| KHash.MoveEnds | versioning_td_driver/include/khash.h:296-304 | A finished move is a table of the new size with the same map, and only live buckets are occupied. |
| KHash.RehashStorage | versioning_td_driver/include/khash.h:252-301 | Growing before or shrinking after the move, the arrays end as a table of the new size with the same map. |
| KHash.Hashtable.constructor | versioning_td_driver/include/khash.h:212-214 | A new table is valid and stands for the empty map. |
| KHash.Hashtable.Clear | versioning_td_driver/include/khash.h:223-229 | The table then stands for the empty map, with its buckets kept and both counters zero. |
| KHash.Hashtable.Get | versioning_td_driver/include/khash.h:230-243 | Returns the bucket count exactly when the key is not in the map, otherwise the live bucket that holds the key and its value. |
| KHash.Hashtable.Resize | versioning_td_driver/include/khash.h:244-306 | Expanding, shrinking or rehashing keeps the map; it resizes exactly when the rounded size has room for the entries, and then no tombstone is left. |
| KHash.Hashtable.FindSlot | versioning_td_driver/include/khash.h:318-335 | Put's search finds the key's live bucket, or the first empty bucket of its path with a proof that the key is absent; the key is then to be stored at the last tombstone passed, if there was one. |
| KHash.Hashtable.MakeRoom | versioning_td_driver/include/khash.h:310-317 | Whichever resize put chooses, the map is kept and there is strict room for one more key; a table with room is left alone, a full one keeps its size while less than half of it is live and doubles otherwise, without tombstones. |
| KHash.SameSizeMakesRoom | versioning_td_driver/include/khash.h:311-314 | Requesting one bucket less than a power of two rehashes at the same size, and half-full tables fit. |
| KHash.ExpansionMakesRoom | versioning_td_driver/include/khash.h:315-317 | Requesting one bucket more doubles the size, and what fitted before leaves room. |
| KHash.Hashtable.StoreIfNew | versioning_td_driver/include/khash.h:336-347 | The code is 0 exactly for a present key, 1 for an empty bucket, 2 for a tombstone; the counters and the map change accordingly. |
| KHash.Hashtable.Put | versioning_td_driver/include/khash.h:307-348 | The returned bucket is live and holds the key, the code says truthfully whether the key was present, and the map is the old one with the key bound to that bucket's value; without a resize one more bucket is occupied exactly when the code is 1, and after a resize the code is not 2. |
| KHash.Hashtable.Del | versioning_td_driver/include/khash.h:349-354 | Deleting a live bucket removes its key from the map; anything else changes nothing. |
| Bytes.OverflowIsCarry | gatekeeper/gatekeeper/timelock.dfy:153-173 | The byte-wise carry test fires exactly when the two words sum to 2^32 or more. |
| Bytes.GreaterBytesIsGreater | gatekeeper/gatekeeper/timelock.dfy:131-149 | Comparing from the top byte down is comparing the words. |
| Bytes.AddBytes | gatekeeper/gatekeeper/timelock.dfy:176-211 | Ripple-carry addition in place gives the sum of the words and touches four bytes. |
| Timelock.StepBytes | gatekeeper/gatekeeper/timelock.dfy:296-357 | The in-place byte step is the entry's step and changes no other byte: a frozen entry gets its keep duration plus the clock and an odd time, a free one the new keep duration and the clock made even, one that counts down stays. |
| Timelock.EntryFixesBytes | gatekeeper/gatekeeper/timelock.dfy:77-98 | The two decoded words determine the eight bytes. |
| Replay.ExecuteAppend | gatekeeper/gatekeeper/replay_logic.dfy:24-35 | One more address is one more step at the end, and the run is free of overflow exactly when the shorter one is and the last deadline fits. |
| Replay.NamedStartsCountdown | gatekeeper/gatekeeper/timelock.dfy:35-46 | The first log block naming a frozen entry starts its countdown once, however often it names it. |
| Replay.NamedWhenFree | gatekeeper/gatekeeper/timelock.dfy:35-46 | In plain arithmetic: a log block that names a free block once leaves it with the log block's keep duration and its time made even; one that names it more often leaves it counting down to keep duration plus time; one that does not name it leaves it. |
| Replay.ProtectedInterval | gatekeeper/gatekeeper/timelock.dfy:19-46 | A block frozen with keep duration k is free at no clock value until a log block names it at time t, and then exactly at clock values past t + k while the log carries no later time; log blocks naming it meanwhile change nothing. |
| Replay.ProtectionBegins | gatekeeper/gatekeeper/timelock.dfy:19-46 | Over any log that runs, a block that is free past a clock value stays as it is until a log block with a later time names it; that one freezes it, and it is free at no clock value until it is named again, at a time t, and then exactly past t plus the keep duration while the log carries no later time; a log block that names it twice starts the countdown itself. |
| LogUpdates.StepSlotsRefine | gatekeeper/gatekeeper/gatekeeper-timelockdrive-neveroverwrite.dfy:490-518 | Stepping the cached bytes in log order is executing the transaction on the decoded entries, and fails exactly on a missing block or an overflowing deadline. |
| LogUpdates.OtherBytesStay | gatekeeper/gatekeeper/gatekeeper-timelockdrive-neveroverwrite.dfy:514-517 | Bytes outside the named entries are unchanged, in touched and untouched blocks. |
| LogUpdates.SwitchesCount | gatekeeper/gatekeeper/gatekeeper-timelockdrive-neveroverwrite.dfy:500-512 | The number bounded by ten is that of the addresses whose metadata block is not that of the address before. |
| LogUpdates.LogUpdatesRefineExecute | gatekeeper/gatekeeper/gatekeeper-timelockdrive-neveroverwrite.dfy:469-537 | A log block that does not halt leaves the decoded cache equal to its in-order execution, raises the counter of each named block by exactly one and of no other, and seals each under its new counter; it halts exactly on a missing block, an overflow, more than ten changes of metadata block, or an exhausted counter. |
| Gatekeeper.Checker.constructor | gatekeeper/gatekeeper/td_cache.dfy:37-64 | A session starts with all-ones slots under the placeholder tag and zero counters, whatever earlier sessions have sealed, and its history with that state. |
| Gatekeeper.Checker.ScanCache | gatekeeper/gatekeeper/td_cache.dfy:70-83 | Finds the first slot with the tag, or reports that there is none. |
| Gatekeeper.Checker.InitCounters | gatekeeper/gatekeeper/gatekeeper-timelockdrive-neveroverwrite.dfy:286-297 | Every index is sent its initial block sealed under its present counter; the session goes on with an InitCounters step. |
| Gatekeeper.Checker.StepNamed | gatekeeper/gatekeeper/gatekeeper-timelockdrive-neveroverwrite.dfy:483-518 | The loop over 1021 words, with its cached previous position, steps exactly the named entries and lists exactly the touched slots. |
| Gatekeeper.Checker.RefreshTouched | gatekeeper/gatekeeper/gatekeeper-timelockdrive-neveroverwrite.dfy:520-536 | Each distinct touched block has its counter raised once and is sealed again, however often its slot is listed. |
| Gatekeeper.Checker.ComputeLogUpdates | gatekeeper/gatekeeper/gatekeeper-timelockdrive-neveroverwrite.dfy:469-537 | The in-place method halts exactly when the log block is not acceptable and otherwise leaves the state that LogUpdates describes. |
| Gatekeeper.Checker.UpdateCache | gatekeeper/gatekeeper/gatekeeper-timelockdrive-neveroverwrite.dfy:382-428 | The loop admits, skips or rejects the blocks of a request one by one, gives the insertion point back on rejection, and leaves the evicted blocks in the reply in order; the session goes on with exactly this batch. |
| Gatekeeper.Checker.TestFree | gatekeeper/gatekeeper/gatekeeper-timelockdrive-neveroverwrite.dfy:450-454 | The byte test on the cached entry says what the decoded entry says, and halts exactly if the metadata block is not cached. |
| Gatekeeper.Checker.CheckBlockOf | gatekeeper/gatekeeper/gatekeeper-timelockdrive-neveroverwrite.dfy:446-463 | One block of a range: tested if it is the first of its metadata block, executed if it lies at the tail, in this order. |
| Gatekeeper.Checker.EnsureBlocksFree | gatekeeper/gatekeeper/gatekeeper-timelockdrive-neveroverwrite.dfy:430-467 | Before block k, where the range ends, the first block of each metadata block was free in turn, and tail and cached entries are those after the log blocks before k; Denied exactly if block k is tested and not free; Halted only if its metadata block is not cached, its pointer is off the disk or its log block cannot be executed.  The session goes on with exactly these tests and log blocks, so counters, digests and slots are those of log steps. |
| Gatekeeper.Checker.HandleWrite | gatekeeper/gatekeeper/gatekeeper-timelockdrive-neveroverwrite.dfy:230-265 | The ranges before k have each had their tested blocks free, in the state their predecessors leave, and are on the disk, in order; range k is cut short at a block that is not free, with tail and entries as after the log blocks before it, or at one that halts the program; nothing after it is tested, executed or written.  The session goes on with exactly the events of these checks. |
| Gatekeeper.Checker.ServeWrite | gatekeeper/gatekeeper/gatekeeper-timelockdrive-neveroverwrite.dfy:152-176 | A header that does not add up halts with nothing done; otherwise the reply is the freshness reject exactly if the batch is rejected, which leaves disk and tail alone; otherwise the session goes on with the batch and then the events of the ranges served, the disk holds those ranges, and an accepted reply carries the evicted blocks with their number.  A write that is not rejected either passes all its ranges, or is denied at the first block of a metadata block in the next range, whose failed test is the last event and up to which the log blocks have moved the tail, or halts because there is no room for the next range or one of its blocks is stuck: not cached though to be tested, or a log block that cannot be executed. |
| Requests.WellFormedIff | gatekeeper/gatekeeper/gatekeeper-timelockdrive-neveroverwrite.dfy:139-163 | The header is accepted exactly if one to 66 ranges follow at most five metadata blocks and the payload ends where the last range does, at most 66 blocks behind the batch. |
| Requests.RoomIff | gatekeeper/gatekeeper/gatekeeper-timelockdrive-neveroverwrite.dfy:249-257 | Behind an accepted header a range is refused for want of room exactly if it leaves the disk, or is empty and follows five metadata blocks and 66 blocks. |
| Gatekeeper.Checker.ReplayBlock | gatekeeper/gatekeeper/gatekeeper-timelockdrive-neveroverwrite.dfy:309-354 | One replay step has the outcome that session, log block and answer determine: too many metadata blocks, an answer of the wrong length, a rejected answer, a log block that cannot be executed, or a batch and a log block more in the session. |
| Gatekeeper.Checker.ReplayChain | gatekeeper/gatekeeper/gatekeeper-timelockdrive-neveroverwrite.dfy:300-371 | On any disk and for any answers the recovery loop ends, follows the pointers, visits no block twice, and adds for each visited block its batch and its log block to the session; it stops exactly at the tail, at a block seen before or off the disk, and halts exactly where the outcome of a step is one of the four above. |
| Gatekeeper.Checker.HandleInit | gatekeeper/gatekeeper/gatekeeper-timelockdrive-neveroverwrite.dfy:267-380 | A session that is opened consists of an InitCounters step, followed in recovery by the replay of the chain between the two pointers: it goes on to a block where the walk stops, or halts in the session reached after the visited blocks, for the reason that the outcome of the next block gives, with the events of that step. |
| Requests.RequestCommitsItsLog | gatekeeper/gatekeeper/gatekeeper-timelockdrive-neveroverwrite.dfy:456-463 | The log blocks among the events of a request are, in order, those that the request commits to the chain. |
| Requests.WritesCommitTheirLog | gatekeeper/gatekeeper/gatekeeper-timelockdrive-neveroverwrite.dfy:230-265 | So are those among the events of any number of requests, each starting at the tail that the one before leaves. |
| Requests.RequestIsTested | gatekeeper/gatekeeper/gatekeeper-timelockdrive-neveroverwrite.dfy:446-455 | In a request that passes, the first block of each metadata block of each range has been tested. |
| Requests.WrittenWasFree | gatekeeper/gatekeeper/gatekeeper-timelockdrive-neveroverwrite.dfy:249-263 | In any session that has served a request, each of those blocks was free when its turn within the request came, in the state that the log executed so far leaves behind, whatever the driver sent, if no block of an earlier session contradicts the log. |
| Requests.DeniedWasNotFree | gatekeeper/gatekeeper/gatekeeper-timelockdrive-neveroverwrite.dfy:249-263 | In any session that ends with a denied write, the write ends at the test of the first block of a metadata block in range k, and that block is not free in the state that the log executed so far leaves behind. |
| Freshness.AcceptedIsCurrent | gatekeeper/gatekeeper/gatekeeper-timelockdrive-neveroverwrite.dfy:417-423 | Of arbitrary bytes with a digest issued in this session or under the same key before, only the latest block of its index is admitted, if no earlier block carries the present counter with another content. |
| Freshness.UpdateKeepsFresh | gatekeeper/gatekeeper/gatekeeper-timelockdrive-neveroverwrite.dfy:401-428 | Under the same condition any batch, accepted or rejected half-way, blocks of earlier sessions included, leaves every cached block current and in one slot only. |
| Freshness.LogKeepsFresh | gatekeeper/gatekeeper/gatekeeper-timelockdrive-neveroverwrite.dfy:520-536 | So does every log block. |
| Freshness.AppliedIsStep | gatekeeper/gatekeeper/gatekeeper-timelockdrive-neveroverwrite.dfy:469-537 | What ComputeLogUpdates leaves behind is a log step of the session; the methods extend their history by it. |
| Freshness.InitIsFresh | gatekeeper/gatekeeper/gatekeeper-timelockdrive-neveroverwrite.dfy:286-297 | One InitCounters on a new session establishes freshness. |
| Freshness.SecondInitIsFreshIff | gatekeeper/gatekeeper/gatekeeper-timelockdrive-neveroverwrite.dfy:286-297 | A further InitCounters keeps it if and only if every latest content still is the initial one. |
| Freshness.FreshThroughout | gatekeeper/gatekeeper/gatekeeper-timelockdrive-neveroverwrite.dfy:149-195 | Over any run at whose states that condition holds, every cached block but the placeholder's is the latest hashed, under the current counter, with a valid digest, in one slot only. |
| Executed.LogStepExecutes | gatekeeper/gatekeeper/gatekeeper-timelockdrive-neveroverwrite.dfy:490-536 | After a log block the latest contents of all indices decode to its execution on what they decoded to before. |
| Executed.LatestIsExecuted | gatekeeper/gatekeeper/replay_logic.dfy:76-80 | Over any run whose log no earlier block contradicts, the session is fresh, its authenticated contents decode to the replay of the log from the initial state, and each counter is the number of log blocks naming its index, whatever the driver sends in between. |
| Executed.TestIsExact | gatekeeper/gatekeeper/gatekeeper-timelockdrive-neveroverwrite.dfy:450-454 | Over any such run a tested block passes if and only if the replay of the log so far says that it is free at the clock value. |
| Executed.LogOfRunRuns | gatekeeper/gatekeeper/gatekeeper-timelockdrive-neveroverwrite.dfy:515 | The log of such a run overflows no deadline of the executed entries. |
| Executed.TimelockIsKept | gatekeeper/gatekeeper/timelock.dfy:19-46 | Over any such run, whatever the driver sends: if the log leaves a block frozen with keep duration k, a later test of it passes only after a log block has named it, at some time t, and only past t + k while the log carries no later time; a block that counts down passes only past its deadline. |
| Executed.TimelockBegins | gatekeeper/gatekeeper/timelock.dfy:19-46 | Over any such run: once a log block has named a free block, a later test of it passes only after another log block has named it, at some time t, and only past t plus the keep duration of the first, while the log carries no later time. |
| Executed.FitsIffTrue | gatekeeper/rust-externs/externs.rs:121-145 | In a session that is what its log says, an earlier block agrees with the contents under the present counter exactly if it agrees with the log. |
| Archive.IssuedIsMade | gatekeeper/gatekeeper/gatekeeper-timelockdrive-neveroverwrite.dfy:520-536 | Everything a session hashes carries the counter and the content that its index has at some point of the log. |
| Archive.MadeFits | gatekeeper/rust-externs/externs.rs:121-145 | What one log has made contradicts no log that extends it or that it extends. |
| Archive.EverySessionIsFaithful | gatekeeper/rust-externs/externs.rs:121-145 | Of any number of sessions under one key whose logs extend one another, each is fresh with the contents and counters of its log, whatever block of any earlier one the driver sends. |
| Archive.StaysFreshIff | gatekeeper/gatekeeper/gatekeeper-timelockdrive-neveroverwrite.dfy:417-423 | From a point of a run on, no batches can make the cache stale if and only if no earlier block carries a counter that the log has reached there with another content; else two batches do. |
| Archive.NeverAstrayIff | gatekeeper/gatekeeper/gatekeeper-timelockdrive-neveroverwrite.dfy:401-428 | That holds at every point of a run if and only if no earlier block contradicts its log. |
| Coherence.BatchArrives | versioning_td_driver/src/versioning_td_driver.c:656-672 | Each block of an accepted batch is cached when the batch ends: five slots are enough for five blocks. |
| Coherence.EvictedIsGone | versioning_td_driver/src/versioning_td_driver.c:894-909 | A real block that comes back is current, was not just sent, and is no longer cached. |
| Coherence.NeverRejected | versioning_td_driver/src/versioning_td_driver.c:656-672 | What a coherent driver sends passes the hash and counter test, the placeholder's index apart. |
| Coherence.CachedStaysIff | gatekeeper/gatekeeper/gatekeeper-timelockdrive-neveroverwrite.dfy:417-424 | A block that is cached and therefore not sent stays cached through a batch of n new blocks exactly when its slot is not among the next n. |
| Coherence.BatchKeepsCoherent | versioning_td_driver/src/versioning_td_driver.c:857-911 | Marking what was sent and taking back what was evicted, in either of the driver's orders, keeps the picture exact. |
| Coherence.LogKeepsCoherent | gatekeeper/gatekeeper/gatekeeper-timelockdrive-neveroverwrite.dfy:520-536 | Log blocks applied on the gatekeeper's side do not disturb it. |
| Coherence.SyncKeepsCoherent | versioning_td_driver/src/versioning.c:1583-1598 | Overlaying the copies with the SYNC snapshot does not either. |
| Coherence.StartIsCoherent | versioning_td_driver/src/versioning.c:1944-2010 | After a fresh InitCounters the driver holds the current block of every index, none marked cached. |
| Coherence.CoherentThroughout | versioning_td_driver/src/versioning_td_driver.c:656-911 | From a fresh start, over any run of accepted writes and SYNCs, a membership bit is set exactly when the block is cached, and the driver's copy of every other block is the last one hashed. |
| Coherence.ServedIsWriteStep | versioning_td_driver/src/versioning_td_driver.c:656-911 | A request whose batch and checks the gatekeeper has added to its session is one write step of the pair. |
| Turns.BatchTurns | gatekeeper/gatekeeper/gatekeeper-timelockdrive-neveroverwrite.dfy:401-428 | With cached blocks in it, a batch inserts exactly those that are not cached at their turn, into the next slots; the others stay. |
| Turns.AllCachedIff | gatekeeper/gatekeeper/gatekeeper-timelockdrive-neveroverwrite.dfy:401-428 | All its blocks are cached when it ends if and only if none sits where the insertions before its turn do not reach but all of them do. |
| AfterRecovery.RecoveringThroughout | versioning_td_driver/src/versioning.c:1985-2055 | Throughout a recovery with an honest driver its copies are the last blocks hashed. |
| AfterRecovery.RecoveredIsWithin | versioning_td_driver/src/versioning.c:1999-2010 | With the membership bits cleared it then takes nothing for cached that is not, and holds the last block hashed of what is not cached. |
| AfterRecovery.AcceptedIff | gatekeeper/gatekeeper/gatekeeper-timelockdrive-neveroverwrite.dfy:417-423 | A batch that may hold cached blocks is accepted if and only if every block of it that takes a slot is the last one hashed. |
| AfterRecovery.BatchKeepsWithinIff | versioning_td_driver/src/versioning.c:1261-1310 | The picture stays within the cache if and only if the driver marks before it takes back, or no block that was skipped is pushed out by a later one of the batch. |
| AfterRecovery.WithinThroughout | versioning_td_driver/src/versioning_td_driver.c:857-911 | After a recovery, over any run of such writes and SYNCs, it does. |
| AfterRecovery.NeededIsNotLost | versioning_td_driver/src/versioning.c:1190-1210 | A served write whose checks need every block it has sent has skipped none that was then pushed out. |
| AfterRecovery.LosingWriteIsSeen | versioning_td_driver/src/versioning.c:1275-1310 | One that has leaves the bit of an absent block set when the driver takes back first. |
| Residency.NeededStayIff | versioning_td_driver/src/versioning_td_driver.c:656-672 | A request that sends the missing ones of the blocks it needs finds all of them cached if and only if no slot that holds one of them is among the next n, with n the number of blocks sent. |
| Residency.PushedOutHalts | gatekeeper/gatekeeper/gatekeeper-timelockdrive-neveroverwrite.dfy:450-454 | After the batch no test and no log block of the request can need a block that is not cached. |
| Residency.ServedOnlyIfNeededStay | gatekeeper/gatekeeper/gatekeeper-timelockdrive-neveroverwrite.dfy:230-265 | A write whose checks need those blocks is served only under that condition. |
| Residency.DeniedIsCoherentIff | versioning_td_driver/src/versioning_td_driver.c:836-856 | After a denied write the picture of the driver is exact if and only if it had sent nothing. |
| Departures.PushOutHappens | versioning_td_driver/src/versioning_td_driver.c:656-672 | After a fresh start and one served write of five blocks, a request for two blocks pushes one of them out. |
| Departures.DeniedWriteSpoils | versioning_td_driver/src/versioning_td_driver.c:841-847 | After a served log block a write is denied by its first test, with its batch let in, and the picture of the driver is wrong from then on. |
| Departures.StaleTestPasses | gatekeeper/rust-externs/externs.rs:121-145 | Two sessions under one key, the second over a new log: after pushing out the present block the driver sends one that the first has sealed, and a test passes at clock value 71 on a block that the log keeps locked until after 71. |
| Departures.SecondInitBreaks | gatekeeper/gatekeeper/gatekeeper-timelockdrive-neveroverwrite.dfy:194-195 | A session with one executed log block after which every further InitCounters breaks freshness. |
| Departures.EmptySlotDenies | gatekeeper/gatekeeper/gatekeeper-timelockdrive-neveroverwrite.dfy:412-416 | While an empty slot carries the placeholder tag, a block of that index is skipped, a test there fails at every clock value, and a log block naming it halts exactly if its time is not 0. |
| LogChain.CommitsGrow | gatekeeper/gatekeeper/gatekeeper-timelockdrive-neveroverwrite.dfy:456-463 | A range adds log blocks at the end of the chain only, each the block of the range at its own address. |
| LogChain.TailIsTaken | gatekeeper/gatekeeper/gatekeeper-timelockdrive-neveroverwrite.dfy:446-463 | A range is searched upwards for the tail: if the tail lies in it, the block there is committed and executed, the tail moves to where it points, and the search goes on behind it; otherwise nothing is done. |
| LogChain.UnwrittenStays | gatekeeper/gatekeeper/gatekeeper-timelockdrive-neveroverwrite.dfy:249-263 | A block of the disk that no range covers is what it was. |
| LogChain.DiskHoldsLastWrite | gatekeeper/gatekeeper/gatekeeper-timelockdrive-neveroverwrite.dfy:249-263 | A block of the disk that ranges cover is the block of the last range that covers it. |
| LogChain.RangeKeepsChain | gatekeeper/gatekeeper/gatekeeper-timelockdrive-neveroverwrite.dfy:456-463 | An accepted range keeps the chain on disk linked from head to tail and the executed state equal to its replay, if it spares committed log blocks and its pointers are new. |
| LogBlocks.LogBlockRoundTrip | gatekeeper/gatekeeper/gatekeeper-timelockdrive-neveroverwrite.dfy:477-518 | A log block laid out as bytes reads back as its addresses, keep duration, time and pointer. |
| Recovery.PersistLogState | gatekeeper/gatekeeper/gatekeeper-timelockdrive-neveroverwrite.dfy:38-47 | The two pointers are written as little-endian words that read back the same. |
| Recovery.LoadsBackIff | gatekeeper/gatekeeper/gatekeeper-timelockdrive-neveroverwrite.dfy:49-61 | After any proper run of ranges the persisted pointers load back if and only if nothing was committed or the last committed pointer is not below the first log block; otherwise the restart halts. |
| Departures.LowTailIsRefused | gatekeeper/gatekeeper/gatekeeper-timelockdrive-neveroverwrite.dfy:456-463 | A session that serves a request of one log block, after which no persisted state with its tail loads back. |
| Recovery.RunKeepsChain | gatekeeper/gatekeeper/gatekeeper-timelockdrive-neveroverwrite.dfy:249-263 | Any proper run of accepted ranges keeps the chain whole. |
| Recovery.NeededMds | gatekeeper/gatekeeper/gatekeeper-timelockdrive-neveroverwrite.dfy:313-335 | Collects the metadata blocks of a log block in the order of their first address and halts exactly at the sixth. |
| Recovery.NeededAreMds | gatekeeper/gatekeeper/gatekeeper-timelockdrive-neveroverwrite.dfy:313-335 | What is collected is each metadata block named, once. |
| Recovery.WalkIsPath | gatekeeper/gatekeeper/gatekeeper-timelockdrive-neveroverwrite.dfy:305-369 | On a whole chain a walk that stops has visited exactly the committed log blocks, in order, and ends at the tail. |
| Recovery.RecoveryRebuilds | gatekeeper/gatekeeper/gatekeeper-timelockdrive-neveroverwrite.dfy:305-369 | After any proper run whose pointers load back, a walk that stops has visited exactly the committed log blocks, and their replay is what execution produced. |
| Restart.RecoveredIsReplay | gatekeeper/gatekeeper/gatekeeper-timelockdrive-neveroverwrite.dfy:300-371 | A recovering session that has replayed the visited blocks holds authenticated contents that decode to their replay, whatever the driver answered, if no block of an earlier session contradicts it. |
| Restart.RestartRestores | gatekeeper/gatekeeper/gatekeeper-timelockdrive-neveroverwrite.dfy:267-380 | When a session has executed the log of what it wrote and its pointers load back, the next session, when its recovery ends, holds the same authenticated contents, byte for byte, for every metadata block but the placeholder's, even under the same key and when the driver answers with blocks that the first session or those before it have sealed. |
| Restart.ServedLogIsCommitted | gatekeeper/gatekeeper/gatekeeper-timelockdrive-neveroverwrite.dfy:230-265 | The log of a session that has been opened and has served writes is the one that its ranges commit. |
| Restart.HonestReplayIff | gatekeeper/gatekeeper/gatekeeper-timelockdrive-neveroverwrite.dfy:337-354 | With honest answers a log block is replayed if and only if it needs at most five metadata blocks, none of them sits in the cache where the insertions before its turn do not reach but all of them do, no deadline overflows, it changes metadata block at most ten times, and no counter is exhausted. |
| Restart.ExecutedIsReplayedIff | gatekeeper/gatekeeper/gatekeeper-timelockdrive-neveroverwrite.dfy:337-354 | A log block that one session has executed is replayed by another at the same place of the log, with honest answers, if and only if its batch pushes out no cached block that it needs; the other bounds hold because the first session has met them. |
| Restart.RecoveryFinishesIff | gatekeeper/gatekeeper/gatekeeper-timelockdrive-neveroverwrite.dfy:300-371 | After a session that has executed exactly the log of a proper run, a recovery with honest answers goes on to the tail if and only if no step of it pushes out a cached block that its log block needs; then it has visited every committed log block and holds the contents of the first session, otherwise it halts at the next committed log block, which it cannot execute. |
| Departures.RecoveryHalts | gatekeeper/gatekeeper/gatekeeper-timelockdrive-neveroverwrite.dfy:300-354 | A recovery from two log blocks, with an honest driver, whose second step cannot be executed: the needed block 0 is skipped as cached and pushed out by the needed block 5. |
| Extents.BuildExtents | versioning_td_driver/src/versioning_td_driver.c:335-379 | The coalesced extents expand to exactly the mapped addresses in order, and there is one for each mapped block that does not continue the block before it. |
| Extents.MappedPosition | versioning_td_driver/src/versioning_td_driver.c:427-436 | The reply holds each mapped block at the position the copy loop has counted to. |
| Extents.DeviceRead | versioning_td_driver/src/versioning_td_driver.c:309-447 | Each block of the buffer is the mapped block of its logical address, or zeros, and nothing outside is written. |
| Extents.ReadAll | versioning_td_driver/src/versioning_td_driver.c:454-481 | Chunks of at most 64 blocks give the naive block-by-block read for any number of blocks. |
| Extents.MergeRanges | versioning_td_driver/src/versioning_td_driver.c:484-500 | The in-place merge keeps the expanded sequence of addresses, leaves no two neighbours that could be merged, and touches nothing beyond its input. |
| WriteLayout.MeantIsSpliced | versioning_td_driver/src/versioning_td_driver.c:702-817 | The user's blocks with the log blocks spliced in at the two recorded offsets are, piece by piece, the blocks meant for the addresses. |
| WriteLayout.PieceLands | versioning_td_driver/src/versioning_td_driver.c:551-646 | Position by position payload and addresses line up: user blocks in buffer order, each log block at the address reserved for it. |
| WriteLayout.BuildPayload | versioning_td_driver/src/versioning_td_driver.c:702-817 | All five layouts build that payload; the original gives up exactly when both log blocks have the same offset above zero and the same address. |
| WriteLayout.Assemble | versioning_td_driver/src/versioning_td_driver.c:647-817 | The payload has one block for each address of the merged ranges, the one meant for it. |
| LogPacking.RemapKeepsInverse | versioning_td_driver/src/versioning.c:998-1011 | Remapping a logical block keeps the two mappings inverse to each other. |
| LogPacking.Allocator.constructor | versioning_td_driver/src/versioning.c:1732-1739 | The allocator starts from any rebuilt mapping and free list that fit together, with the two reserved log blocks in the first timelock log. |
| LogPacking.Allocator.TakeHead | versioning_td_driver/src/versioning.c:988-1011 | The head of the free list goes to the logical block, and what it held goes to the garbage list. |
| LogPacking.Allocator.Record | versioning_td_driver/src/versioning.c:1019-1085 | One block handed out is recorded once in each log; a new timelock log names itself and the version block left over; a filled version block is recorded once or kept for the next log; both indices and the block left over are exact, and neither index leaves its log. |
| LogPacking.Allocator.FindFreeRange | versioning_td_driver/src/versioning.c:898-1095 | A full log comes first, the timelock log before the version log; otherwise consecutive blocks off the head of the free list are mapped and logged in order, up to the number asked for, a full log or a gap; no range is returned when the list itself ends first, and its blocks stay handed out. |
| LogPacking.NoRangeIff | versioning_td_driver/src/versioning.c:957-990 | No range is found exactly if the whole free list is one run, shorter than what is asked for and both logs have room for. |
| LogPacking.Allocator.ResetTd | versioning_td_driver/src/versioning.c:1098-1108 | The full timelock log is shipped whole, the next one gets the free block at index 1019, and a pending version block stays pending. |
| LogPacking.Allocator.ResetVmd | versioning_td_driver/src/versioning.c:1110-1120 | The full version log is shipped whole and the next one gets the free block at index 511. |
| LogPacking.Allocator.QueueMds | versioning_td_driver/src/versioning_td_driver.c:573-592 | The metadata blocks of a piece join those of the request, each once, exactly as long as there are five at most. |
| LogPacking.Allocator.Place | versioning_td_driver/src/versioning_td_driver.c:551-646 | A placed request has all its blocks in at most 64 pieces over at most five metadata blocks, the blocks handed out are those of its data pieces in order, no two neighbouring data pieces could be one, there is at most one log block of each kind, at different addresses, and the timelock log comes first when no user block separates them.  A request fails only with 64 pieces placed and blocks left, with the free list used up, at a sixth metadata block, or at a full log with no block 1019 or 511 on the free list; every block taken off the list has been handed out or belongs to a log. |
| ScanDisk.LastWriterWins | versioning_td_driver/src/versioning.c:2093-2100 | In the folded mapping a logical block is mapped exactly if an entry names it, to the address of the last such entry. |
| ScanDisk.MappedIff | versioning_td_driver/src/versioning.c:2070-2195 | A logical block is mapped exactly if an entry on the disk of an accepted block names it, whose own timelock entry, with a recovery time, is initialised and not later than that time; it is mapped to the address in the last such entry of the last such block. |
| ScanDisk.MarkedIff | versioning_td_driver/src/versioning.c:2070-2195 | An address is kept off the free list for the mapping's sake exactly if an entry on the disk of an accepted block names it, whose own timelock entry, with a recovery time, is initialised, however late. |
| ScanDisk.Scanner.ParseBlock | versioning_td_driver/src/versioning.c:2070-2195 | A version block contributes its in-bounds entries in order when its time counts, and keeps its addresses off the free list even when its time is too late, but not when it was never initialised. |
| ScanDisk.ChainIsUnique | versioning_td_driver/src/versioning.c:1750-1811 | The chain read by the scan is decided by disk and start: all blocks but the last carry the first one's seed, which is not 0, and point at the next; the last has seed 0, another seed, or a pointer off the disk. |
| ScanDisk.Scanner.Chase | versioning_td_driver/src/versioning.c:1750-1811 | Over a chain that ends, the mapping is the fold of the counting entries in chain order, exactly the chain and the marked addresses have been taken off the free marks, the current block is the last of the chain and the seed that of its first. |
| ScanDisk.CountedIsMarked | versioning_td_driver/src/versioning.c:2161-2193 | Every address that counts towards the mapping is kept off the free list. |
| ScanDisk.Scanner.Scan | versioning_td_driver/src/versioning.c:1684-1856 | The rebuilt free list is ascending and holds exactly the unmarked addresses; none is mapped, lies on the version chain, or is a bootstrap log block. |

## Left out

- Weak memory: release and acquire accesses are sequentially consistent steps, and memcpy copies ascending bytes.
- Completion of calls with a Rust endpoint: only first-in first-out delivery and the lost wake-ups are stated.
- KHash.Hashtable.Put: asks for fewer than 2^31 buckets or no need to expand; beyond that the macro wraps and the original cannot grow.
- malloc failure in khash; the product with 0.77 is the integer floor of (77n + 50) / 100; string and Wang hashing.
- BLAKE3 and the salt: the digest is any function, and digests that no session has issued are excluded by assumption (an ideal MAC).
- Executed.TimelockIsKept: assumes that no block of an earlier session contradicts the log; without it the statement is false (see above).
- Executed.LatestIsExecuted: assumes the same.
- Requests.WrittenWasFree: assumes the same.
- The outer array of cache slots and the request buffer are different objects by precondition; the original allocates them apart.
- Gatekeeper.Checker.UpdateCache: reads the request from its first byte, as the original does.
- Coherence.CoherentThroughout: speaks of accepted writes on a fresh disk, and assumes that no digest is all ones, which the driver takes for an empty slot; after a recovery AfterRecovery.WithinThroughout takes its place, without the placeholder's index among what is sent.
- Index 5119 in the freshness and coherence statements, for the reason given above.
- Gatekeeper.Checker.ReplayChain: the updated blocks sent back to the driver after each step are not part of the method; AfterRecovery.RecoveryStep states them.
- Gatekeeper.Checker.HandleInit: the two pointers are arguments or fields as loaded; the disk is read, not written, and a read of it does not fail.
- Restart.RestartRestores: the conditions (pointers new to the chain, committed log blocks not rewritten, last block not a committed log block) are hypotheses on the driver.
- That every block of an accepted write was free: the code does not test it.
- LogPacking.Allocator.FindFreeRange: versioning and timelocks on, epoch mode off; segment accounting and the epoch set are not part of this model.
- LogPacking.Allocator.Place: the metadata blocks that a full timelock log names besides, which join the request after the loop, are not part of it.  The same logical address is passed on every iteration, as in the code; read-after-write of split requests is not claimed.
- Linked-list cells of the free, garbage and expiry lists are sequences; the stale tail pointer after emptying a list is not modelled.
- ScanDisk.Scanner.Scan: the chain is assumed to end; the marks left by the timelock log chain are an input, and p2lmap during the scan is not modelled.
- Sockets, shared-memory setup, BDUS, logging, daemons, locks, the segment cleaner, the baseline gatekeeper and timestamps.
