# Stateful cores of a Bitcoin Cash full node, in Dafny

The project models the self-contained state machines of the node and proves each
of them against a simple meaning that does not share its representation. Code
that updates fields or buffers in place is modelled by classes and arrays whose
methods do the same, and every such method is proved against a function of the
old state; the laws are lemmas about those functions and about whole runs. Hash
functions, address classification and random draws are parameters, so every
result holds for all of them; every reading of the clock is an argument.

| part | source | modules | what it is proved to be |
|---|---|---|---|
| address manager | `src/addrman.cpp`, `src/addrman.h` | `AddrTypes` `AddrState` `AddrOps` `AddrBook` `AddrPolicy` `AddrCheck` `AddrStore` `AddrReload` `AddrMan` | five redundant indexes that stay consistent in every run; two tables of addresses; a save and load that is lossless under the same asmap and loses entries only to taken slots under any other; the exact condition for a stored stream to load consistently |
| script check queue | `src/checkqueue.h` | `CheckQueue` | a conjunction of checks, under every interleaving of a master and any number of workers |
| UTXO caches | `src/coins.cpp`, `src/coins.h` | `Coins` `CoinsCache` | one map from outpoints to coins, for a stack of any depth |
| signature cache | `src/cuckoocache.h` | `Cuckoo` `CuckooCache` | a lossy set with exact membership and a minimum age |
| compact blocks | `src/blockencodings.cpp`, `src/blockencodings.h` | `CompactBlocks` `PartialBlock` | the inverse of the sender's encoding |
| 256-bit arithmetic | `src/arith_uint256.cpp`, `src/arith_uint256.h` | `Powers` `Digits` `Limbs` `Compact` `ArithUint256` | arithmetic on naturals modulo 2^256 |
| block index | `src/chain.cpp` | `SkipList` `BlockChain` | the walk along parents, in at most 110 turns on 2^18 blocks, which is exact |
| CashAddr | `src/cashaddr.cpp` | `CashAddr` `CashAddrErrors` `CashAddrText` | long division over GF(32) that notices bursts and pairs of errors; an inverse pair on strings |
| rolling Bloom filter | `src/bloom.cpp` | `RollingBloom` | exactly the positions of the last generations |
| Base58 | `src/base58.cpp` | `Radix` `Base58` | the same number in another base |

`Basics` holds what several parts share. `Consistent` is the invariant of the
address manager. `CheckExact` ties it to the node's own debug self-check: it is a
result of 0 from `Check_` together with what `Check_` does not look at.
`RunConsistent` says that it holds after every run from the empty manager.

## Where the code and its documentation disagree

The model follows the code.

- `src/addrman.h:563-585`: Clear leaves the recorded collisions in place and starts the ids again. Until then a drawn collision always names an occupied tried slot; afterwards it need not (`AddrOps.CollisionRecorded` gives a run that records one, `AddrOps.StaleCollision` what follows, `AddrOps.SelectTriedCollisionSafe` the exact condition).
- `src/addrman.h:425-498`: Unserialize does not look for repeated addresses, and mapAddr then leads to one of the entries only or to none (`AddrReload.LoadExactly` gives the exact condition for a consistent result, `AddrReload.StoredTwice` streams that fail it under every bucketing, `AddrReload.TwiceExample` one of them).
- `src/cuckoocache.h:461-480`: the first displacement of an insert goes to the second hash slot, not to the first as the comments say.
- `src/cuckoocache.h:60-67`: the number of flag bytes is a 32-bit sum, so sizes above 2^32 - 8 get too few (`CuckooCache.FlagBytesSuffice`), and 2^32 - 1 gets none (`CuckooCache.NoFlagBytes`).
- `src/coins.cpp:145-161`: SpendCoin answers true for an entry that was spent before and is still cached (`CoinsCache.SpendTwice`).
- `src/coins.cpp:102-128`: an AddCoin that throws has already taken the old coin off the memory count (`CoinsCache.CoinsStack.AddCoin` says exactly when that matters, `CoinsCache.AddTwice` is a call that shows it).
- `src/coins.cpp:194-264`: Flush hands a block hash to the parent even when it is null (`Coins.BestBlockAfterFlush` says when that loses the best block, `CoinsCache.FlushForgets` is a flush that does).
- `src/blockencodings.cpp:165-188`: an extra entry without a transaction is counted as found when it is the first match of a short id, and its null pointer is followed when it meets a filled slot (`CompactBlocks.CountExact`, `CompactBlocks.CountsNothing`, `CompactBlocks.MeetsNull`, `PartialBlock.PartiallyDownloadedBlock.InitData`). The list of extra entries starts out full of such entries (`src/net_processing.cpp:996-1001`).
- `src/cashaddr.cpp:290`: fewer than eight symbols whose checksum holds make the source step back before the start of the payload. The model has an outcome `Overrun` for it; `CashAddrText.OverrunExactly` says on which strings, `CashAddrText.OverrunningPrefix` for which prefixes, and `CashAddrText.OverrunExample` is one.

## Model

| member | source | states |
|---|---|---|
| `AddrOps.RunConsistent` | src/addrman.cpp:113-741 | From the empty manager, after every sequence of operations with positive times, any hash and any draws: all consistency conditions hold, recorded collisions name occupied tried slots, and no later run empties an occupied tried slot |
| `AddrOps.Step` | src/addrman.cpp:221-741 | Every operation keeps the conditions, never vacates a tried slot, never reuses an id and never changes the service of an id |
| `AddrOps.Run` | src/addrman.cpp:221-741 | The same for every finite run |
| `AddrOps.SelectTriedCollisionSafe` | src/addrman.cpp:714-741 | A drawn collision leaves the entries alone if and only if its id is gone or its tried slot is occupied; while collisions are current it returns the incumbent of that slot |
| `AddrOps.StaleCollision` | src/addrman.h:563-585 | After Clear with collision 0 recorded, adding any routable address and drawing 0 looks up id -1 and breaks consistency |
| `AddrOps.CollisionRecorded` | src/addrman.cpp:221-297 | Two addresses that share a tried slot, added and both found good, leave the first id recorded as a collision |
| `AddrCheck.CheckExact` | src/addrman.cpp:469-566 | Consistent if and only if Check_ would return 0 and what it does not look at holds (ids given out, keys of mapAddr); the half of the vRandom condition that Check_ skips follows by counting |
| `AddrCheck.MissingNoticed` | src/addrman.cpp:500-502 | An address removed from mapAddr makes Check_ fail if and only if it is not the one of id 0, for which operator[] supplies the right value |
| `AddrCheck.RandomFilled` | src/addrman.cpp:477-518 | As many entries as places, and each entry at a place that names it, make vRandom and nRandomPos inverse |
| `AddrCheck.NotListed` | src/addrman.cpp:538-553 | A slot naming an id that the new-table scan has already counted out means some id is held more often than its reference count |
| `AddrMan.Manager.CheckEntry` | src/addrman.cpp:477-511 | One entry passes exactly when the result is 0; at most the entry's own address is inserted into mapAddr, with 0 |
| `AddrMan.Manager.CheckEntries` | src/addrman.cpp:477-511 | Result 0 exactly when every entry passes, and then the collected ids and counts are those of the tried and the new entries |
| `AddrMan.Manager.CheckTried` | src/addrman.cpp:520-536 | Result 0 exactly when every occupied tried slot holds a tried id that belongs there; what is left are the tried ids in no slot |
| `AddrMan.Manager.CheckNew` | src/addrman.cpp:538-553 | Result 0 gives right positions and the ids counted wrongly as what is left; another result refutes the conditions |
| `AddrMan.Manager.Check` | src/addrman.cpp:469-566 | Check_ returns 0 exactly when all of its conditions hold of the whole state; on a consistent manager it returns 0 and changes nothing |
| `AddrBook.GoodRefines` | src/addrman.cpp:221-297 | Good_ on the two tables of addresses: nothing, a new record, or a move to the tried slot with the incumbent sent back |
| `AddrBook.AddRefines` | src/addrman.cpp:299-381 | Add_ on the two tables of addresses: a new or refreshed record, and one slot offered |
| `AddrBook.StatisticsRefine` | src/addrman.cpp:383-636 | Attempt_, Connected_ and SetServices_ change the record of exactly the known service, port included, and nothing else |
| `AddrBook.ResolveOneRefines` | src/addrman.cpp:638-712 | On the two tables of addresses: a waiting entry moves exactly when its slot is free or the verdict on the incumbent says so, and stays waiting exactly while the verdict is open |
| `AddrOps.ResolveOneDecides` | src/addrman.cpp:638-712 | By the times of the two peers: an incumbent with a success less than four hours ago stays and the waiting id is forgotten; one tried within four hours is replaced once it had a minute to answer, and until then nothing changes; one not tried for four hours is replaced exactly when the newcomer succeeded more than forty minutes ago |
| `AddrOps.ResolveTurns` | src/addrman.cpp:638-712 | ResolveCollisions_ gives every waiting id one such turn, smallest first |
| `AddrBook.GetAddrLimits` | src/addrman.cpp:569-593 | GetAddr_ hands out no more than the percentage and the cap allow, and all acceptable entries unless one more would break a limit |
| `AddrBook.GetAddrSpec` | src/addrman.cpp:569-593 | GetAddr_ hands out the good addresses of a shuffled prefix of vRandom, permutes vRandom and leaves the tables alone |
| `AddrOps.RefreshedExactly` | src/addrman.cpp:314-326 | Another announcement adds services and changes the time exactly when none was known or the new one is later by more than the interval and the penalty; nothing else |
| `AddrPolicy.GroupShare` | src/addrman.cpp:19-30 | In a consistent manager the peers of one group hold at most eight buckets' worth of tried slots |
| `AddrPolicy.SlotsByHash` | src/addrman.cpp:19-51 | The slots of a peer in terms of the keyed hash of its key, its group and that of its source |
| `AddrPolicy.TriedSpread` | src/addrman.cpp:19-30 | The peers of one group belong to eight tried buckets |
| `AddrPolicy.NewSpread` | src/addrman.cpp:32-43 | What the peers of one group announce belongs to 64 new buckets |
| `AddrPolicy.TerribleExactly` | src/addrman.cpp:52-80 | When an entry is not worth keeping |
| `AddrPolicy.AttemptsCount` | src/addrman.cpp:383-406 | A failed attempt counts once for each success of any peer |
| `AddrPolicy.FirstFailureCounts` | src/addrman.h:563-585 | With the initial time of the last success the first failure of a new peer counts |
| `AddrPolicy.ConnectedTime` | src/addrman.cpp:595-616 | A connection moves the time of an entry forward by more than twenty minutes or not at all |
| `AddrPolicy.AnnouncedAs` | src/addrman.cpp:352-356 | A new entry has the announced time less the penalty and no history |
| `AddrPolicy.DrawsAll` | src/addrman.cpp:581-583 | Every position that is left can be drawn |
| `AddrPolicy.GoodRecords` | src/addrman.cpp:272-297 | A peer is made to wait exactly when it would evict another one and fewer than ten are waiting |
| `AddrPolicy.GoodTime` | src/addrman.cpp:221-226 | Every call of Good_ sets the time of the last success, even for an unknown service |
| `AddrPolicy.FewWait` | src/addrman.cpp:221-741 | After every run at most ten peers wait for a tried slot |
| `AddrBook.EveryRecordHeld` | src/addrman.cpp:113-297 | In a consistent manager every record is in the tried table or in some slot of the new table, never in both |
| `AddrState.SwapRandomKeeps` | src/addrman.cpp:126-144 | SwapRandom keeps every condition |
| `AddrState.CreateKeeps` | src/addrman.cpp:113-124 | Create keeps every condition except that the new id is not referenced and not counted yet |
| `AddrState.MakeTriedKeeps` | src/addrman.cpp:173-219 | MakeTried keeps every condition, and its asserts hold |
| `AddrOps.EnterKeeps` | src/addrman.cpp:360-379 | Whichever branch the end of Add_ takes, the conditions hold again, and the asserts of Delete and ClearNew hold |
| `AddrOps.AttemptTime` | src/addrman.cpp:383-406 | An attempt on a known entry keeps consistency if and only if its time is not negative |
| `AddrOps.SuccessTime` | src/addrman.cpp:236-252 | A success that leaves the entry where it is keeps consistency if and only if its time is positive, or 0 outside tried |
| `AddrMan.Manager.constructor` | src/addrman.h:587 | An empty, consistent manager |
| `AddrMan.Manager.SwapRandom` | src/addrman.cpp:126-144 | The fields change as the value-level swap says, and nothing else does |
| `AddrMan.Manager.Create` | src/addrman.cpp:113-124 | The fields change as the value-level Create says; the id is the next one |
| `AddrMan.Manager.Delete` | src/addrman.cpp:146-157 | The fields change as the value-level Delete says |
| `AddrMan.Manager.ClearNew` | src/addrman.cpp:159-171 | The fields change as the value-level ClearNew says, its asserts included |
| `AddrMan.Manager.UnlistAll` | src/addrman.cpp:175-181 | The scan of all new buckets removes exactly the slots that hold the id and takes as many references away |
| `AddrMan.Manager.MakeRoom` | src/addrman.cpp:188-213 | The incumbent of the tried slot, if any, goes back to its own new slot, which is cleared first |
| `AddrMan.Manager.MakeTried` | src/addrman.cpp:173-219 | The whole of MakeTried on the fields, its asserts included |
| `AddrMan.Manager.FindBucket` | src/addrman.cpp:254-270 | The search from a random bucket always finds a bucket that holds the id: the exit for not finding one is never taken |
| `AddrMan.Manager.Good` | src/addrman.cpp:221-297 | Keeps consistency, and acts on the two tables of addresses as the book says |
| `AddrMan.Manager.Add` | src/addrman.cpp:299-381 | Keeps consistency, agrees with the value-level Add_, and reports whether the address was unknown |
| `AddrMan.Manager.Attempt` | src/addrman.cpp:383-406 | Keeps consistency and agrees with the value-level Attempt_ |
| `AddrMan.Manager.Connected` | src/addrman.cpp:595-616 | Keeps consistency and agrees with the value-level Connected_ |
| `AddrMan.Manager.SetServices` | src/addrman.cpp:618-636 | Keeps consistency and agrees with the value-level SetServices_ |
| `AddrMan.Manager.GetAddr` | src/addrman.cpp:569-593 | Keeps consistency, permutes vRandom, leaves the tables alone and hands out exactly the good entries of the prefix |
| `AddrMan.Manager.ResolveOne` | src/addrman.cpp:640-711 | One turn of ResolveCollisions_ on the fields, with the outcome that the times of the two peers call for |
| `AddrMan.Manager.ResolveCollisions` | src/addrman.cpp:638-712 | The loop over the recorded collisions in ascending order, while the set shrinks |
| `AddrMan.Manager.SelectTriedCollision` | src/addrman.cpp:714-741 | Agrees with the value level; keeps consistency while collisions are current |
| `AddrMan.Manager.Clear` | src/addrman.h:563-585 | An empty, consistent manager that keeps the recorded collisions |
| `AddrStore.SaveLoad` | src/addrman.h:351-561 | Loading what a consistent manager saved, under the same asmap, is accepted, gives a consistent manager and loses no entry: same addresses and records, every tried entry in its slot, every new entry once in a slot it had |
| `AddrReload.LoadExactly` | src/addrman.h:411-561 | Loading a stream gives a consistent manager if and only if the key is set, the tried count is not negative, and every entry that got a slot has sane times and an address that no other loaded entry has |
| `AddrReload.StoredTwice` | src/addrman.h:425-498 | A stream whose first tried entry has the address of a new one never loads consistently, whatever the bucketing |
| `AddrReload.TwiceExample` | src/addrman.h:411-561 | A stream of one peer stored twice that is accepted and leaves mapInfo and mapAddr in disagreement |
| `AddrReload.Rebucketed` | src/addrman.h:509-541 | A stream of another asmap version, another number of buckets or an old format: every new entry goes to the slot its own source selects, and the first in the stream wins it |
| `AddrReload.Restored` | src/addrman.h:517-530 | A stream of the same asmap version and number of buckets, in format 2 or 3: entries that had different slots have them again |
| `AddrReload.LoadConsistent` | src/addrman.h:411-561 | Loading any stream of distinct addresses with true counts and sane times, under any bucketing, gives a consistent manager |
| `AddrReload.ReloadAnywhere` | src/addrman.h:351-561 | Loading what a consistent manager saved under another asmap or key: accepted and consistent, only old entries with their records and in their tables, and whatever is gone has lost its slot to another; under another asmap every slot of the new table is the one that the source of its entry selects |
| `AddrStore.AcceptedExactly` | src/addrman.h:411-461 | Formats 0 to 3, a key of 32 bytes and counts that fit the tables |
| `AddrStore.MarkUndone` | src/addrman.h:446-450 | The number of buckets is read as it was, with bit 30 flipped in every format but 0 |
| `AddrStore.SaveAccepted` | src/addrman.h:420-447 | What a consistent manager saves never exceeds the limits that loading enforces |
| `AddrStore.EveryEntryNoted` | src/addrman.h:389-403 | Every new entry is listed under a bucket that holds it |
| `AddrStore.HomesInjective` | src/addrman.h:519-540 | No two reloaded entries compete for a slot |
| `AddrStore.FlipTwice` | src/addrman.h:365-366 | The format mark in the bucket count undoes itself |
| `AddrMan.Manager.Serialize` | src/addrman.h:351-409 | The stream is the specified one, and the asserts on the two counts hold |
| `AddrMan.Manager.Unserialize` | src/addrman.h:411-561 | Throws exactly on a stream that is refused; otherwise the fields are those of the specified load, pruning included |
| `AddrMan.Transfer` | src/addrman.h:351-561 | Serialize of one manager into Unserialize of another with tables of the same size: consistent again, no foreign entries, losses only to taken slots; the same entries under the same asmap |
| `CheckQueue.RunKeeps` | src/checkqueue.h:67-181 | Every interleaving of a master and n workers keeps the invariant: nTodo is what is queued plus what is in batches, every added check is in exactly one place, and the verdict so far is honest; every step is defined |
| `CheckQueue.NextKeeps` | src/checkqueue.h:67-181 | Each single step keeps that invariant |
| `CheckQueue.WaitReturns` | src/checkqueue.h:91-99 | Wait returns only when nothing is outstanding, and returns true exactly when every check added since the previous return evaluates to true |
| `CheckQueue.WaitAnswers` | src/checkqueue.h:67-181 | From one return of Wait to the next, the answer is true exactly when every check added in between evaluates to true |
| `CheckQueue.AddedInRun` | src/checkqueue.h:167-181 | What has been added is what the Add steps since the last return put in, in order |
| `CheckQueue.NoLostWakeup` | src/checkqueue.h:78-103 | While the master sleeps unnotified, the queue is empty, nTodo is positive and some worker holds a batch |
| `CheckQueue.WorkersAttend` | src/checkqueue.h:60-180 | In every run with a worker: while the queue is not empty, some worker is not asleep, or has been notified |
| `CheckQueue.AddWakes` | src/checkqueue.h:170-181 | After an Add of two or more checks no worker sleeps unnotified; an Add of one lowers their number by one |
| `CheckQueue.AddPossible` | src/checkqueue.h:170-181 | The master can add checks whenever it is not in Wait |
| `CheckQueue.FairShare` | src/checkqueue.h:117-129 | The batch is the largest within nBatchSize that leaves as much to every other thread, and at least one |
| `CheckQueue.ReportNotifies` | src/checkqueue.h:78-85 | A report wakes the sleeping master if and only if it comes from a worker and brings nTodo to zero |
| `CheckQueue.NoDeadlock` | src/checkqueue.h:67-137 | While the master is in Wait some thread can go on without a spurious wake-up |
| `CheckQueue.PotentialFalls` | src/checkqueue.h:67-137 | Inside one Wait no step raises the potential and every genuine step lowers it |
| `CheckQueue.WaitTerminates` | src/checkqueue.h:67-137 | A run inside one Wait has at most as many genuine steps as its initial potential |
| `CheckQueue.TakeConserves` | src/checkqueue.h:116-125 | Moving the end of the queue into a batch loses and duplicates nothing |
| `CheckQueue.ReportConserves` | src/checkqueue.h:78-80 | Handing in a batch loses and duplicates nothing |
| `CheckQueue.BatchSize` | src/checkqueue.h:116-118 | A batch has at least one check and at most what is queued |
| `CheckQueue.AddKeeps` | src/checkqueue.h:170-181 | Add keeps the invariant, whichever worker it wakes |
| `CheckQueue.EvalKeeps` | src/checkqueue.h:130-134 | Evaluating a check keeps the invariant |
| `Coins.AddedOk` | src/coins.cpp:102-128 | AddCoin shows the coin in any case, and leaves the flags honest if and only if an overwrite was announced, the outpoint is cached, or nothing is below |
| `Coins.SpentOk` | src/coins.cpp:145-161 | SpendCoin removes the outpoint from what the cache shows and keeps flags and memory count honest |
| `Coins.AddedThenSpent` | src/coins.cpp:102-161 | A coin added and spent in one cache leaves no entry exactly when no overwrite was announced and no unwritten entry was there before, or a FRESH one was |
| `Coins.UnspendableExactly` | src/script/script.h:733-736 | Outputs that start with OP_RETURN or exceed 10000 bytes are not added |
| `Coins.MallocExactly` | src/memusage.h:31-45 | On 64-bit machines an allocation takes whole blocks of 16 bytes, and 16 to 31 more than asked for |
| `Coins.MemExactly` | src/coins.h:67-69 | A coin allocates nothing exactly with a script of up to 28 bytes and no token data |
| `Coins.FetchedOk` | src/coins.cpp:69-91 | Caching a coin from below changes nothing that is shown |
| `Coins.UncachedOk` | src/coins.cpp:266-272 | Dropping an unmodified entry changes nothing that is shown |
| `Coins.MergeOk` | src/coins.cpp:198-254 | Per outpoint: FRESH is never misapplied, and the merged entry shows over the grandparent what the child showed over the parent |
| `Coins.MergedOk` | src/coins.cpp:194-257 | After BatchWrite the parent shows what the child showed, and its flags are honest against the grandparent |
| `Coins.WrittenOk` | src/txdb.cpp:76-142 | After BatchWrite the database is the map that the cache showed |
| `Coins.Rebase` | src/coins.cpp:194-264 | Caches above an exchanged part stay honest and show the same when that part shows the same |
| `Coins.OutputsAt` | src/coins.cpp:130-143 | AddCoins adds exactly the spendable outputs and touches no other outpoint |
| `Coins.BestBlockAfterFlush` | src/coins.cpp:183-264 | The best block seen through a child survives its flush if and only if its hash was known or the parent had nothing to lose |
| `CoinsCache.NeverMisapplied` | src/coins.cpp:222-227 | In an honest stack no FRESH entry of a child meets an unspent coin in its parent |
| `CoinsCache.CoinsStack.constructor` | src/coins.cpp:62-67 | An empty cache shows the database |
| `CoinsCache.CoinsStack.FetchCoin` | src/coins.cpp:69-91 | Finds the entry or brings the coin up; no cache of the stack shows anything else than before |
| `CoinsCache.CoinsStack.GetCoin` | src/coins.cpp:93-100 | The answer is that of the plain map, at every depth |
| `CoinsCache.CoinsStack.HaveCoin` | src/coins.cpp:173-176 | True exactly when the plain map has the outpoint |
| `CoinsCache.CoinsStack.AccessCoin` | src/coins.cpp:165-171 | The coin of the plain map, or the empty coin |
| `CoinsCache.CoinsStack.Uncache` | src/coins.cpp:266-272 | What every cache shows stays the same; the entry goes exactly when it is unmodified |
| `CoinsCache.CoinsStack.AddCoin` | src/coins.cpp:102-128 | Throws exactly when it would replace a cached unspent coin without leave; the coin then stays visible and the cache stays valid if and only if that coin counted for no memory. Otherwise the plain map gains the coin, and the stack stays honest exactly when the caller keeps the rule |
| `CoinsCache.AddTwice` | src/coins.cpp:102-128 | Adding a coin twice throws and leaves a memory count of 0 for a cache that holds a coin |
| `CoinsCache.CoinsStack.SpendCoin` | src/coins.cpp:145-161 | The plain map loses the outpoint, and the coin handed out is the one it had |
| `CoinsCache.SpendTwice` | src/coins.cpp:145-161 | Spending a coin twice: the second call has no coin to hand out and still answers true |
| `CoinsCache.CoinsStack.AddCoins` | src/coins.cpp:130-143 | The plain map gains exactly the spendable outputs, under the overwrite rule of both modes |
| `CoinsCache.CoinsStack.BatchWrite` | src/coins.cpp:194-257 | Throws exactly when some FRESH entry meets an unspent coin, with some other entries merged and the memory count right; otherwise every entry is merged, in whatever order |
| `CoinsCache.CoinsStack.StoreBatchWrite` | src/txdb.cpp:76-142 | Dirty entries are written or erased, and the best block is set |
| `CoinsCache.CoinsStack.Flush` | src/coins.cpp:259-264 | Never throws; the base then shows what the cache showed, every cache above shows what it did, and the stack stays honest |
| `CoinsCache.CoinsStack.FlushAll` | src/coins.cpp:194-264 | Flushing every cache from the top down leaves the database equal to what the top showed |
| `CoinsCache.CoinsStack.GetBestBlock` | src/coins.cpp:183-188 | The hash of the topmost cache that knows one, else that of the database; what is cached does not change the answer |
| `CoinsCache.CoinsStack.SetBestBlock` | src/coins.cpp:190-192 | One hash changes; what every cache shows does not |
| `CoinsCache.CoinsStack.Push` | src/coins.cpp:62-63 | A new cache on top shows what was shown before |
| `CoinsCache.FlushForgets` | src/coins.cpp:183-264 | Flushing a new cache on top of one that knows its best block makes the stack answer with the block of the database |
| `Cuckoo.ContainsExact` | src/cuckoocache.h:519-556 | Looking at eight slots is exact: a key is not found if and only if it is nowhere in the table |
| `Cuckoo.InsertNew` | src/cuckoocache.h:433-489 | Inserting an absent key keeps keys unique and in their slots, loses at most one key, and loses a key that was not discardable only when the depth ran out |
| `Cuckoo.InsertKnown` | src/cuckoocache.h:440-449 | Inserting a present key loses nothing, replaces the element only on request, and makes it recent and kept |
| `Cuckoo.DisplaceInv` | src/cuckoocache.h:450-489 | Displacement keeps keys unique and in one of their eight slots |
| `Cuckoo.DisplaceConserves` | src/cuckoocache.h:450-489 | Displacement loses exactly one element of the table and the one in hand |
| `Cuckoo.DisplaceKeys` | src/cuckoocache.h:450-489 | The keys afterwards are the old ones and the new one less the lost one |
| `Cuckoo.PlacedDropsDiscardable` | src/cuckoocache.h:450-489 | A displacement that finds room drops an element that was discardable from the start |
| `Cuckoo.AgingWaits` | src/cuckoocache.h:320-355 | Aging marks an element only when at least epoch_size inserts came after it was last inserted or refreshed |
| `Cuckoo.InsertAges` | src/cuckoocache.h:433-489 | Insert keeps the age bookkeeping, however often elements are displaced |
| `Cuckoo.AgesExactly` | src/cuckoocache.h:320-355 | Slots of the old epoch become discardable exactly at counter 0 with epoch_size kept slots of the current one; otherwise no flag changes and the counter is set to the inserts still missing, or a sixteenth of the epoch |
| `Cuckoo.RunBounded` | src/cuckoocache.h:263-556 | In every run from setup the kept slots of the current epoch and the counter together never exceed epoch_size by more than max(1, epoch_size / 16) |
| `Cuckoo.RoomSuffices` | src/cuckoocache.h:450-460 | With a discardable slot among its eight an element is placed there and no other slot changes |
| `Cuckoo.NextLocExactly` | src/cuckoocache.h:461-480 | Displacement goes to the slot after the one the element came from, in a circle of eight, and to the second one at first |
| `Cuckoo.EraseExactly` | src/cuckoocache.h:519-556 | Lookup with erasure marks exactly the slot of the key |
| `Cuckoo.RunSafe` | src/cuckoocache.h:263-556 | In every run from setup: unique keys in their slots, and aging never too soon |
| `CuckooCache.BitLaws` | src/cuckoocache.h:91-114 | Setting and clearing one packed bit leaves the other seven alone |
| `CuckooCache.FlagBytesSuffice` | src/cuckoocache.h:60-67 | The packed flags have room for every slot if and only if the size is at most 2^32 - 8, and then no byte too many |
| `CuckooCache.NoFlagBytes` | src/cuckoocache.h:60-67 | At size 2^32 - 1 the sum wraps to no byte at all |
| `CuckooCache.Cache.constructor` | src/cuckoocache.h:376-389 | All slots default and discardable; sizes as in setup |
| `CuckooCache.Cache.AllowErase` | src/cuckoocache.h:91-93 | Exactly one flag is set |
| `CuckooCache.Cache.PleaseKeep` | src/cuckoocache.h:102-104 | Exactly one flag is cleared |
| `CuckooCache.Cache.BitIsSet` | src/cuckoocache.h:112-114 | The flag of the slot |
| `CuckooCache.Cache.EpochCheck` | src/cuckoocache.h:320-355 | The in-place count and aging agree with the specification |
| `CuckooCache.Cache.Insert` | src/cuckoocache.h:433-489 | The in-place insert, with its swaps in the table and the epoch flags, agrees with the specification |
| `CuckooCache.Cache.PlaceElement` | src/cuckoocache.h:450-489 | The displacement loop agrees with the recursive displacement |
| `CuckooCache.Cache.Find` | src/cuckoocache.h:519-556 | Found exactly when the key is in the table, erased lazily on request |
| `CompactBlocks.PrefillPositions` | src/blockencodings.cpp:72-94 | In an accepted message every prefilled position is in bounds, even where a sum wraps |
| `CompactBlocks.PrefillExactly` | src/blockencodings.cpp:71-96 | Prefilled transactions are accepted exactly when none is null and each position is at most the number of short ids and earlier ones |
| `CompactBlocks.OffsetsRoundTrip` | src/blockencodings.cpp:71-96 | Any choice of transactions of a block, sent as distances, is accepted and ends up at its positions |
| `CompactBlocks.PositionsIncrease` | src/blockencodings.cpp:72-94 | In an accepted message that was read, positions strictly increase |
| `CompactBlocks.PrefilledExactly` | src/blockencodings.cpp:72-94 | Every prefilled transaction gets a slot of its own: as many slots are left as there are short ids |
| `CompactBlocks.PrefillPuts` | src/blockencodings.cpp:72-94 | Each position ends up with the last transaction sent for it |
| `CompactBlocks.EnoughFree` | src/blockencodings.cpp:102-132 | After the prefilled transactions there is a free slot for every short id |
| `CompactBlocks.ScanPoolExact` | src/blockencodings.cpp:134-163 | The pool fills a slot exactly when a single transaction of it has the short id |
| `CompactBlocks.SlotExactly` | src/blockencodings.cpp:137-196 | After both pools a slot holds a transaction if and only if it came first for the short id, alone in the pool, and no extra one with that short id has another hash |
| `CompactBlocks.ScanSound` | src/blockencodings.cpp:134-196 | What ends up in a slot has its short id and comes from one of the pools |
| `CompactBlocks.HaveExact` | src/blockencodings.cpp:134-188 | A slot counts as matched exactly when something in either pool has its short id |
| `CompactBlocks.CountExact` | src/blockencodings.cpp:134-188 | mempool_count grows by the number of filled slots if and only if no short id has a first match without a transaction |
| `CompactBlocks.CountsNothing` | src/blockencodings.cpp:165-173 | An empty pool and one extra entry without a transaction: the count is 1 and no slot is filled |
| `CompactBlocks.MeetsNull` | src/blockencodings.cpp:174-188 | A pool transaction and an extra entry without one under the same short id: the null pointer is followed |
| `CompactBlocks.FillRebuilds` | src/blockencodings.cpp:220-262 | Slots that agree with the block, completed by what they lack, give the block |
| `PartialBlock.Encode` | src/blockencodings.cpp:22-33 | First transaction in full, the others as short ids in order |
| `PartialBlock.Places` | src/blockencodings.cpp:102-132 | Short ids get distinct, increasing slots: exactly those that no prefilled transaction took |
| `PartialBlock.AcceptedExactly` | src/blockencodings.cpp:51-67 | InitData goes on exactly for a header and 1 to the maximal number of transactions, in an object that holds nothing |
| `PartialBlock.EncodingPlaces` | src/blockencodings.cpp:22-132 | For an honest message these are the slots of the block itself |
| `PartialBlock.ScannedAgrees` | src/blockencodings.cpp:51-204 | Without short id collisions, what the receiver finds by itself is what the block has there |
| `PartialBlock.Relay` | src/blockencodings.cpp:22-294 | Encoding, InitData and FillBlock with the unavailable transactions in index order give the block back, whatever the pools hold |
| `PartialBlock.PartiallyDownloadedBlock.PlacePrefilled` | src/blockencodings.cpp:72-94 | The loop leaves the specified slots and ends well exactly when it should |
| `PartialBlock.PartiallyDownloadedBlock.IndexShortIds` | src/blockencodings.cpp:102-132 | All indexing is in bounds; the map is smaller than the list exactly when ids collide |
| `PartialBlock.PartiallyDownloadedBlock.MatchMempool` | src/blockencodings.cpp:134-163 | Every slot reflects the pool seen so far, the count is the number of filled slots, and stopping early means all are filled |
| `PartialBlock.PartiallyDownloadedBlock.MatchExtras` | src/blockencodings.cpp:165-196 | Dies exactly at the first entry without a transaction that meets a filled slot; otherwise every slot and the count are as specified, and the scan ends early exactly when the count is full |
| `PartialBlock.EarlyEnd` | src/blockencodings.cpp:134-163 | A scan of the pool that ends early has found exactly one transaction for every short id |
| `PartialBlock.PartiallyDownloadedBlock.InitData` | src/blockencodings.cpp:51-204 | All outcomes: the null pointer is followed if and only if an entry without a transaction that the scan gets to meets a filled slot; otherwise the slots, and a count that is the number of slots filled from the pools if and only if no announced id has a first match without a transaction |
| `PartialBlock.PartiallyDownloadedBlock.IsTxAvailable` | src/blockencodings.cpp:206-218 | True exactly when the slot is filled in an initialised block |
| `PartialBlock.PartiallyDownloadedBlock.FillBlock` | src/blockencodings.cpp:220-294 | All outcomes: the block from slots and missing transactions in order, or the slots moved out so far |
| `ArithUint256.BaseUint.constructor` | src/arith_uint256.h:58-68 | The value is the 64-bit number |
| `ArithUint256.BaseUint.Assign` | src/arith_uint256.h:91-98 | The value is the 64-bit number |
| `ArithUint256.BaseUint.Not` | src/arith_uint256.h:72-78 | 2^256 - 1 minus the value |
| `ArithUint256.BaseUint.Negate` | src/arith_uint256.h:80-87 | The negation modulo 2^256 |
| `ArithUint256.BaseUint.Increment` | src/arith_uint256.h:169-176 | One more, modulo 2^256 |
| `ArithUint256.BaseUint.AddAssign` | src/arith_uint256.h:136-144 | The sum modulo 2^256 |
| `ArithUint256.BaseUint.SubAssign` | src/arith_uint256.h:146-149 | The difference, plus 2^256 when it is negative |
| `ArithUint256.BaseUint.ShlAssign` | src/arith_uint256.cpp:24-41 | The product with 2^shift modulo 2^256, for every shift |
| `ArithUint256.BaseUint.ShrAssign` | src/arith_uint256.cpp:43-60 | The floor of the quotient by 2^shift, for every shift |
| `ArithUint256.BaseUint.MulSmall` | src/arith_uint256.cpp:62-71 | The product with a 32-bit number modulo 2^256 |
| `ArithUint256.BaseUint.AddRow` | src/arith_uint256.cpp:76-84 | One row of the product; the 64-bit accumulator never overflows |
| `ArithUint256.BaseUint.MulAssign` | src/arith_uint256.cpp:73-86 | The product modulo 2^256 |
| `ArithUint256.BaseUint.TakeAway` | src/arith_uint256.cpp:108-117 | One turn of long division keeps quotient times divisor plus remainder and clears the next bit |
| `ArithUint256.BaseUint.DivAssign` | src/arith_uint256.cpp:88-120 | Throws exactly on zero; otherwise the floor of the quotient |
| `ArithUint256.BaseUint.CompareTo` | src/arith_uint256.cpp:122-133 | The order of the naturals |
| `ArithUint256.BaseUint.EqualTo` | src/arith_uint256.cpp:135-148 | Equality with a 64-bit number |
| `ArithUint256.BaseUint.Bits` | src/arith_uint256.cpp:177-189 | The bit length |
| `ArithUint256.BaseUint.GetLow64` | src/arith_uint256.h:279-283 | The value modulo 2^64 |
| `ArithUint256.BaseUint.SetCompact` | src/arith_uint256.cpp:209-229 | The decoded value modulo 2^256 with the sign flag; overflow exactly when the decoded value is at least 2^256 |
| `ArithUint256.BaseUint.GetCompact` | src/arith_uint256.cpp:231-252 | The encoding of the value, with the sign bit on nonzero values only; both asserts hold |
| `Compact.OverflowExact` | src/arith_uint256.cpp:209-229 | The overflow test on the bytes is exact |
| `Compact.RoundDownLargest` | src/arith_uint256.cpp:209-252 | Decoding the encoding gives the largest representable value that does not exceed the number |
| `Compact.RoundDownMonotone` | src/arith_uint256.cpp:209-252 | Encoding is monotone |
| `Compact.EncodeIdempotent` | src/arith_uint256.cpp:209-252 | Encoding again changes nothing |
| `Compact.ReadBack` | src/arith_uint256.cpp:209-252 | An encoding is read back without overflow with either sign, and with the sign bit it is negative exactly when the number is not 0 |
| `ArithUint256.Requantize` | src/arith_uint256.cpp:209-252 | SetCompact(GetCompact(x)) on the limbs is the largest representable value not above x |
| `ArithUint256.GetBlockProof` | src/chain.cpp:134-147 | Exactly 2^256 / (target + 1), rounded down, for every valid nonzero target, and 0 otherwise |
| `ArithUint256.ProofFormula` | src/chain.cpp:142-146 | The formula of the source, which avoids 2^256, gives that quotient |
| `SkipList.LowestOne` | src/chain.cpp:80-82 | InvertLowestOne clears the lowest one bit and nothing else |
| `SkipList.GetSkipHeight` | src/chain.cpp:85-95 | The skip height is below the height |
| `SkipList.TurnsBounded` | src/chain.cpp:85-121 | Between any two heights below 2^k the walk of GetAncestor takes at most StepBound(k) turns |
| `SkipList.TurnsReached` | src/chain.cpp:85-121 | From 2^k - 8 to 2 it takes exactly that many, for every k from 9 on |
| `SkipList.StepBoundIs` | src/chain.cpp:85-121 | The bound is k*k/4 + 2k - 7: the square of the logarithm of the height |
| `SkipList.LongestWalk` | src/chain.cpp:90-92 | On 2^18 heights the longest walk takes 110 turns, the figure that the source took from simulations |
| `SkipList.OddTurns` | src/chain.cpp:85-121 | From an odd height in the upper half of a block the walk clears two bits a turn, and leaves that half within two or three turns more |
| `SkipList.FromTheTop` | src/chain.cpp:85-121 | From the top of an aligned block to any height in it |
| `BlockChain.BlockIndex.GetAncestor` | src/chain.cpp:97-121 | Terminates and returns the block that the parent walk reaches, or null outside the heights; with skip pointers set the loop turns exactly as often as the walk on heights, so at most StepBound(k) times below height 2^k |
| `BlockChain.BlockIndex.BuildSkip` | src/chain.cpp:128-132 | The skip pointer is the ancestor at the skip height |
| `BlockChain.LastCommonAncestor` | src/chain.cpp:172-194 | The highest block on both parent walks; the equal-height assert holds |
| `BlockChain.BlockTree.Add` | src/chain.cpp:128-132 | A tree grown by parent links and BuildSkip stays valid, and all its blocks have their skip pointers |
| `BlockChain.Chain.SetTip` | src/chain.cpp:12-23 | The vector becomes the path of the tip, although rewriting stops at the first block in place |
| `BlockChain.Chain.FindFork` | src/chain.cpp:56-67 | The last block that the path and the chain share, or null when they share none |
| `CashAddr.PolyMod` | src/cashaddr.cpp:37-142 | The loop folds the symbols into the packed remainder |
| `CashAddr.StepGroup` | src/cashaddr.cpp:92-138 | One step, coefficient by coefficient: shift, and subtract the multiple of the generator by the leading coefficient in GF(32) |
| `CashAddr.PolyModIsRemainder` | src/cashaddr.cpp:37-142 | The result is the remainder of long division by the generator over GF(32) |
| `CashAddr.FoldLinear` | src/cashaddr.cpp:37-142 | The checksum is linear |
| `CashAddr.BurstDetected` | src/cashaddr.cpp:37-142 | Two words that differ only within eight consecutive symbols have different remainders |
| `CashAddr.BurstRejected` | src/cashaddr.cpp:171-173 | A valid word changed within eight consecutive symbols is not valid |
| `CashAddrErrors.OrderExactly` | src/cashaddr.cpp:46-56 | x^n is a constant modulo the generator if and only if 1025 divides n, and then it is 1 |
| `CashAddrErrors.TwoErrors` | src/cashaddr.cpp:46-56 | Two words that differ in exactly two symbols have the same remainder if and only if 1025 divides their distance and both symbols differ by the same |
| `CashAddrErrors.TwoErrorsRejected` | src/cashaddr.cpp:171-173 | A valid word with two wrong symbols less than 1025 apart is not valid |
| `CashAddr.ChecksumValid` | src/cashaddr.cpp:178-191 | Appending its checksum makes any word valid |
| `CashAddr.ChecksumUnique` | src/cashaddr.cpp:171-191 | No other eight symbols do |
| `CashAddr.ShortInvalid` | src/cashaddr.cpp:171-173 | No nonempty word of fewer than eight symbols is valid |
| `CashAddrText.AlphabetIs` | src/cashaddr.cpp:13-15 | The character set |
| `CashAddrText.AlphabetRoundTrip` | src/cashaddr.cpp:16-30 | Every symbol has a character that stands for it |
| `CashAddrText.AlphabetInverse` | src/cashaddr.cpp:16-30 | Every character that stands for a symbol is the character of that symbol |
| `CashAddrText.ExpandPrefix` | src/cashaddr.cpp:157-166 | The low five bits of each character and a zero |
| `CashAddrText.VerifyChecksum` | src/cashaddr.cpp:171-173 | True exactly for valid words |
| `CashAddrText.CreateChecksum` | src/cashaddr.cpp:178-191 | The unique eight symbols |
| `CashAddrText.Encode` | src/cashaddr.cpp:200-211 | Prefix, colon, and the characters of payload and checksum |
| `CashAddrText.DecodeString` | src/cashaddr.cpp:216-291 | All outcomes of Decode, for every byte string and default prefix |
| `CashAddrText.DecodeExactly` | src/cashaddr.cpp:216-291 | Decode returns prefix and payload if and only if the letters have one case and the string, in lower case, is their encoding, or has no colon and is what follows the colon in the encoding with the default prefix |
| `CashAddrText.MixedCaseRejected` | src/cashaddr.cpp:253-256 | A string with letters of both cases is rejected |
| `CashAddrText.DecodeParts` | src/cashaddr.cpp:216-291 | Well formed strings in one case are cut at their colon, all others are rejected |
| `CashAddrText.ScanExactly` | src/cashaddr.cpp:218-251 | The first loop passes exactly letters, digits and one colon after letters only, and finds out about cases and the colon |
| `CashAddrText.SymbolsExactly` | src/cashaddr.cpp:273-284 | A body is read as the symbols whose characters it has, in either case |
| `CashAddrText.OverrunExactly` | src/cashaddr.cpp:216-291 | Decode steps back before the payload exactly on a body of fewer than eight symbols that, with the end of the prefix and the zero, is the checksum of the rest of the prefix |
| `CashAddrText.OverrunningPrefix` | src/cashaddr.cpp:216-291 | A prefix has such a body of n symbols if and only if its own end is the start of that checksum, and the body is the rest of it |
| `CashAddrText.OverrunExample` | src/cashaddr.cpp:216-291 | c:fvdy2z3 is such a string |
| `CashAddrText.RoundTrip` | src/cashaddr.cpp:200-291 | Decode(Encode(prefix, payload)) returns both, for every lower-case prefix and every payload |
| `CashAddrText.AcceptsOnlyEncodings` | src/cashaddr.cpp:216-291 | Every accepted string, in lower case and with its prefix spelled out, is the encoding of what was returned |
| `RollingBloom.RollingBloomFilter.constructor` | src/bloom.cpp:202-236 | An empty filter with generations of half the elements, rounded up |
| `RollingBloom.RollingBloomFilter.Insert` | src/bloom.cpp:253-285 | The items grow by one, and every position is stamped with the generation of the last recent item that has it |
| `RollingBloom.RollingBloomFilter.Contains` | src/bloom.cpp:287-299 | True exactly when every position of the item belongs to an item of the last generations; always true for the last nElements items |
| `RollingBloom.RollingBloomFilter.Reset` | src/bloom.cpp:301-306 | The filter is empty again |
| `RollingBloom.RollingBloomFilter.Wipe` | src/bloom.cpp:260-268 | The masked wipe clears exactly the positions stamped with the number that begins |
| `RollingBloom.RollingBloomFilter.Mark` | src/bloom.cpp:272-284 | Exactly the positions of the item get the current stamp |
| `RollingBloom.WipeBit` | src/bloom.cpp:263-268 | The mask keeps a position unless both of its bits are those of the number |
| `RollingBloom.WipedStamp` | src/bloom.cpp:254-269 | Three numbers suffice: wiping the next number leaves the stamps of the two generations before it |
| `RollingBloom.RecentEnough` | src/bloom.cpp:202-210 | The last nElements items always belong to the kept generations |
| `RollingBloom.SetExactly` | src/bloom.cpp:253-299 | A position is set if and only if a recent item has it |
| `RollingBloom.EveryPosition` | src/bloom.cpp:249-292 | Up to 2^26 words, every bit of every pair of words is the position of some hash value |
| `RollingBloom.FastMod` | src/bloom.cpp:249-251 | Always below the size |
| `Radix.EncodeRoom` | src/base58.cpp:106 | n bytes fit into n * 138 / 100 + 1 base 58 digits, for every n |
| `Radix.DecodeRoom` | src/base58.cpp:54 | n base 58 digits fit into n * 733 / 1000 + 1 bytes, for every n |
| `Radix.NamedBounds` | src/base58.cpp:54-106 | 256^100 <= 58^138 and 58^1000 <= 256^733 |
| `Radix.SameUnique` | src/base58.cpp:39-137 | A digit string has at most one counterpart in the other base |
| `Base58.BodyExactly` | src/base58.cpp:39-148 | What is decoded: the text without spaces between leading and trailing ones, in a string without a null character |
| `Base58.SpaceExactly` | src/util/strencodings.h:103-106 | The six space characters |
| `Base58.AlphabetInverse` | src/base58.cpp:20-37 | The alphabet and its table are inverse to each other |
| `Base58.MulAdd` | src/base58.cpp:61-73 | Multiplying and adding in place, with the exact length in use; the carry is 0 when the result fits |
| `Base58.EncodeBase58` | src/base58.cpp:96-137 | The text of the same number in base 58 with the same leading zeros; the carry assert holds |
| `Base58.DecodeBase58` | src/base58.cpp:39-94 | One word of digits gives the bytes of the same number when they are few enough; everything else is refused; the carry assert holds |
| `Base58.EncodeThenDecode` | src/base58.cpp:39-137 | DecodeBase58(EncodeBase58(b)) is b, exactly when the limit allows that many bytes |
| `Base58.DecodeThenEncode` | src/base58.cpp:39-137 | EncodeBase58 of what DecodeBase58 accepts is the string without surrounding spaces |

## Left out

Whole areas:

- Select_ and GetChance of the address manager: floating point, and termination with probability 1 only.
- DecodeAsmap and the BIP 155 format of one address: an entry in a stream is a value.
- Thread start and stop of the check queue, and exceptions in checks: runs have no stop request.
- SipHash, SHA-256 and Murmur: any function with the right range.
- The 12-per-bucket limit and extra_count of InitData: a heuristic and a logging statistic. CheckBlock in FillBlock is an argument.
- DifferenceFormatter and the other byte formats of compact block messages.
- GetLocator and FindEarliestAtLeast of the chain, hexadecimal, floating-point and bitwise operators of base_uint, Base58Check, CBloomFilter: easier members.
- Networking, wallets, storage engines, RPC and configuration.

What the modelled parts do not capture:

- The tables of the address manager are sequences of sequences in a field, reassigned cell by cell, not arrays. Counters and ids are unbounded. Service bits are sets of bit numbers, and times are unbounded except for the 32-bit nTime where Add_ writes it.
- `AddrMan.Manager.Good`: the time is positive, as every caller passes the clock (`AddrOps.SuccessTime` says what other times do).
- `AddrMan.Manager.Attempt`: the time is not negative, for the same reason (`AddrOps.AttemptTime`).
- `AddrMan.Manager.Unserialize`: the stream holds everything its counts announce, and the number of new entries is not negative; a stream that ends early, or whose negative count would start the ids below 0, is not modelled.
- `AddrMan.Transfer`: both managers have tables of the same size, as all builds of one version have.
- `AddrMan.Manager.Check`: states which states give 0, not which of the other codes comes first.
- `CheckQueue.RunKeeps`: nTodo, nIdle and nTotal are unbounded, and a check is a number with a fixed verdict.
- `CoinsCache.CoinsStack.constructor`: the stack is one object with its layers as values, so two caches over one base, and a base changed behind a cache's back, are not modelled. Heights are unbounded.
- `CoinsCache.CoinsStack.StoreBatchWrite`: partial batches and a crash between them are not modelled.
- `CoinsCache.CoinsStack.AddCoins`: without the check mode the outputs must not exist yet, which is the rule AddCoin documents.
- `CuckooCache.Cache.constructor`: the depth limit is a positive argument instead of a base 2 logarithm, and sizes above 2^32 - 8 are excluded (`CuckooCache.FlagBytesSuffice` says why).
- `Cuckoo.InsertNew`: the key of a default constructed element is excluded. Concurrent erasure is not modelled.
- `PartialBlock.PartiallyDownloadedBlock.InitData`: fewer than 2^32 transactions are announced and offsets are at most 0x02000000, as deserialization enforces. What happens after a null pointer is followed is not modelled.
- `PartialBlock.Relay`: short ids do not collide among block, pool and extra transactions, which is the case BIP 152 promises to work.
- `ArithUint256.BaseUint.TakeAway`: shifting a one into the sign bit of an int is taken as the unsigned shift.
- `RollingBloom.RollingBloomFilter.constructor`: the number of hash functions and of words come as arguments instead of from logarithms; a word of 64 bits is the set of its one bits.
- `CashAddrErrors.TwoErrors`: the source also promises detection of three to six scattered errors in shorter windows, which is not stated.
- `CashAddrText.Encode`: the payload consists of 5-bit symbols, which is what every caller packs; the source takes any bytes, folds them into the checksum as they are and writes each modulo 32.
- `CashAddrText.DecodeString`: strings are sequences of bytes, kept as characters below 256.
- `Base58.EncodeBase58`: bytes and digits are naturals below their base.
