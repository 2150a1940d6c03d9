# Verified model of the navcoin-core data structures and codecs

navcoin-core is a node of the Navcoin network, derived from Bitcoin Core 0.13. This project models, in Dafny, the parts of
it whose correctness rests on an invariant or an argument that no single function shows, and proves that argument:

- the layered write-back caches of unspent coins, down to the rows of the database (`CoinsCache.dfy`, `CoinsStore.dfy`,
  `CoinsRuns.dfy`, records in `Coins.dfy`);
- the address manager: five redundant structures, its own consistency check, and its file on disk (`AddrTables.dfy`,
  `AddrMan.dfy`, `AddrCheck.dfy`, `AddrDisk.dfy`, `AddrAccept.dfy`,
  `AddrFile.dfy`);
- the parallel check queue, as a state machine over its critical sections (`CheckQueue.dfy`);
- fixed-width integers in 32-bit limbs, compact targets and block work (`Limbs.dfy`, `BaseUint.dfy`, `UintShift.dfy`,
  `UintDivide.dfy`, `CompactTarget.dfy`);
- the block tree with its skip list, the active chain, forks and locators (`Chain.dfy`);
- the rolling Bloom filter with its bit-sliced generations (`RollingBloom.dfy`);
- Base58 (`Radix.dfy`, `Base58.dfy`), variable-length integers (`Streams.dfy`), compressed amounts, scripts, outputs and
  coin records (`Amounts.dfy`, `OutputCodec.dfy`, `CoinsCodec.dfy`), and compact block relay (`CompactBlock.dfy`);
- the streaming of BLAKE-512 and SipHash-2-4 (`Blake.dfy`, `SipHash.dfy`).

Objects that the program updates in place are classes with `modifies` clauses; their methods are tied to a value or to a
specification function, and the lemmas are about those. `dafny verify dfyconfig.toml` covers all files.

## What is modelled how

- Hash functions, curve arithmetic, transaction checking, memory usage of a record, clocks and random numbers are
  parameters or nondeterministic choices; nothing is assumed of them beyond what a contract's `requires` says.
- Words of a fixed width are written out: limbs modulo 2^32, 64-bit accumulators and counters, 16-bit slot numbers,
  wrap-around of variable-length integers. Where an int of the program cannot come near its limit, it is an `int`.
- A stream is a sequence of bytes and of items with a layout of their own (length-prefixed vectors, range proofs, token
  ids; in the address manager's file: numbers, the key and entries). Reading past the end is an error result.
- A pointer to a block is an object reference; a stack of caches is a chain of objects ending at a database.

## Where the code departs from what it says

Each of these is a lemma or a contract below.

- `ModifyNewCoins` forgets the memory counted for an entry it replaces. `CoinsCache.Cache.ModifyNewCoins` gives the exact
  amount by which the counter drifts; only `Flush` sets it right again.
- Creating coins as FRESH is right exactly when the base does not show the transaction (`CoinsCache.FreshCreationExact`);
  this is the `requires` of `ModifyNewCoins`.
- The coins database does not store the coin stake flag. A flush into it keeps the view up to the program's comparison of
  records exactly when every record written is storable (`CoinsCache.FlushSame`), and as it is exactly when, besides, no
  record written is a coin stake, spent outputs leave nothing, and a proof is present exactly in the outputs that store one
  (`CoinsCache.FlushExact`); `CoinsCache.StakeFlushed` is a coin stake that comes back as none. A cache on top of one that is
  flushed may be left with a copy that no longer repeats its base (`CoinsRuns.CopyGoesStale`).
- `x *= x` on the same object gives zero, because the product is accumulated in the operand (`BaseUint.Uint.Multiply`).
- The address manager's `Check_` does not look at the id counter, nor at addresses without an entry
  (`AddrCheck.CheckedIffConsistent`, two such states in `AddrCheck.CheckMisses`).
- The reader of the address manager's file accepts files that give an inconsistent manager. `AddrAccept.ApplyConsistent`
  says exactly which: those with a negative count, wrong dates, or an address met twice; `AddrAccept.NegativeFile` is one.
- The amount 1888888888888889 compresses to the marker of token outputs, so a plain output with it is not read back
  (`Amounts.MarkersExact`, `OutputCodec.AmbiguousFails`). `OutputCodec.OutputRoundTrip` gives the exact condition; a
  range proof on a plain output, a sub id without a token or data, and a script longer than 10000 bytes are lost too.
- A coin record with a negative version or height is not read back, since variable-length integers cut negative numbers
  to seven bits (`Streams.VarIntRoundTrip`, `CoinsCodec.RecordRoundTrip`).
- `Clear` is called to leave the address manager clean after a failed read of its file, but it does not empty `mapInfo`
  and `mapAddr` (`AddrMan.Manager.Clear`, `AddrTables.ClearedConsistent`). The manager is consistent afterwards exactly when
  the read had not begun an entry (`AddrDisk.FailedReadCleared`, `AddrFile.ReadPeers`); a file that ends after its header
  is a case where it is not (`AddrDisk.CutFile`).
- A compact block of more than 65536 transactions is mapped to the wrong slots, since slot numbers are cut to 16 bits
  (`CompactBlock.SlotMapExact`); with its last transaction alone in the pool it is not rebuilt
  (`CompactBlock.MisplacedBeyond`).
- Mapping short ids scans for a free slot with a 16-bit offset. The scan never ends exactly when 65536 prefilled
  transactions come with a short id (`CompactBlock.ScanEndsExact`, `CompactBlock.MapShortIds`), as in the message of
  `CompactBlock.FullMessageHangs`; more than 65536 are refused before (`CompactBlock.TooManyPrefilled`). The status `Hangs`
  of the model stands for a call that does not return.

## Model

| member | source | states |
|---|---|---|
| `Coins.CoinRecord.Cleanup` | src/coins.h:128-133 | Trailing spent outputs go and no available output changes. |
| `Coins.CoinRecord.Spend` | src/coins.cpp:39-46 | Succeeds exactly on an available output; afterwards exactly that one is gone and the record has no trailing spent outputs. |
| `CoinsCache.OverlayUpdate` | src/coins.cpp:584-603 | Writing an entry into a cache is writing its record into the view, with pruned and absent the same. |
| `CoinsCache.OverlayErase` | src/coins.cpp:1251-1258 | An entry may be erased without changing the view if and only if the base shows the same record. |
| `CoinsCache.FlushStep` | src/coins.cpp:1106-1144 | Passing one entry on, or skipping it when it is not DIRTY, keeps the rest of the child coherent and the overlaid view the same. |
| `CoinsCache.AbsorbCorrect` | src/coins.cpp:1106-1144 | Every branch of the merge (new entry, FRESH propagation, erasure of a FRESH pruned entry, overwrite) writes the child's record into the parent's view and keeps the flag invariant. |
| `CoinsCache.CopyFromBase` | src/coins.cpp:147-163 | Copying an entry up from the base changes no view and keeps the flags truthful. |
| `CoinsCache.FreshCreationExact` | src/coins.cpp:719-728 | Marking a creation FRESH keeps the view right, and the flags right, exactly under the stated conditions on the base. |
| `CoinsCache.EraseEntry` | src/coins.cpp:1323-1335 | Erasing a FRESH entry that became pruned equals writing it. |
| `CoinsStore.RereadSame` | src/coins.h:200-260 | Written to a row and read into an empty record, a record comes back equal, as the program compares records, if and only if it is storable; then it is the same record without its coin stake flag, its outputs in their normal form. |
| `CoinsStore.RereadExact` | src/coins.h:200-260 | It comes back as it is if and only if it is storable, carries no coin stake flag, and is in that normal form. |
| `CoinsStore.BackStays` | src/coins.h:200-260 | What came back once comes back again as it is. |
| `CoinsStore.StakeForgotten` | src/coins.h:200-260 | A coin stake record comes back as an ordinary one. |
| `CoinsCache.Database.GetCoins` | src/txdb.cpp:51-53 | Answers what the row decodes to; a row that cannot be decoded is answered like a missing one. |
| `CoinsCache.Database.BatchWrite` | src/txdb.cpp:398-409 | After the loop the database shows, of every DIRTY record, what comes back of its encoding, and otherwise what it showed. |
| `CoinsCache.RewrittenFlushes` | src/txdb.cpp:398-409 | Of every transaction the database then shows what comes back of the record in the flushed view, or what it showed before if that was the same. |
| `CoinsCache.FlushSame` | src/txdb.cpp:398-409 | The flush keeps the view up to the equality of records if and only if every record it writes is storable. |
| `CoinsCache.FlushExact` | src/txdb.cpp:398-409 | The flush keeps the view as it is if and only if every record it writes is an exact one. |
| `CoinsCache.StakeFlushed` | src/txdb.cpp:398-409 | A coin stake created and flushed into an empty database is shown without its flag. |
| `CoinsCache.Cache.constructor` | src/coins.cpp:135 | A new cache shows exactly its base. |
| `CoinsCache.Cache.FetchCoins` | src/coins.cpp:147-163 | Reading through any number of layers changes no layer's view and adds at most the entry asked for. |
| `CoinsCache.Cache.GetCoins` | src/coins.cpp:341-348 | Returns a record exactly as the view shows it; absent and pruned are told apart only by the caller. |
| `CoinsCache.Cache.HaveCoins` | src/coins.cpp:1012-1019 | The shortcut of looking for an empty output list answers whether the view has the transaction; under an open modifier of that transaction it answers for the raw record, which may still have spent outputs at its end. |
| `CoinsCache.Cache.ModifyCoins` | src/coins.cpp:584-603 | Opening a modifier changes no view; the record it exposes is what the view shows. |
| `CoinsCache.Cache.ModifyNewCoins` | src/coins.cpp:719-728 | The transaction disappears from the view; the memory counter drifts by exactly the usage of the replaced entry. |
| `CoinsCache.Cache.CloseModifier` | src/coins.cpp:1323-1337 | The view takes the trimmed record, the counter is settled, and a FRESH pruned entry is erased, with the invariant kept. |
| `CoinsCache.Cache.ReplaceCoins` | src/coins.cpp:584-603 | Modify and close: the top view takes the record, all views below stay. |
| `CoinsCache.Cache.CreateCoins` | src/coins.cpp:719-728 | Create and close: the top view takes the record, all views below stay. |
| `CoinsCache.Cache.SpendCoins` | src/coins.cpp:39-46 | Spending through a modifier spends exactly that output in the top view, and nothing where there is nothing. |
| `CoinsCache.Cache.Uncache` | src/coins.cpp:1251-1258 | An entry goes exactly when it is neither DIRTY nor FRESH, so never the one under an open modifier; no view changes and the counter stays right. |
| `CoinsCache.Cache.BatchWrite` | src/coins.cpp:1100-1144 | The parent's view becomes the child's view; the parent's own flags and counter stay right. |
| `CoinsCache.Cache.Flush` | src/coins.cpp:1233-1249 | A cache below takes exactly the view of this one just before, and this view and the deeper ones stay; over a database, it and this cache show what comes back of the entries written. The cache is empty. |
| `CoinsCache.Cache.FlushAll` | src/coins.cpp:1233-1249 | Flushing through every level leaves one view on all of them, down to the database: what comes back from it of the top view before. |
| `CoinsCache.Perform` | src/coins.cpp:584-603 | Each operation on a stack of caches does to the stack of views what the plain map operation does, except that a flush into the database gives what comes back. |
| `CoinsCache.PerformAt` | src/coins.cpp:1233-1258 | Reading, uncaching or flushing any cache of a stack leaves what the caches above it show, and does to the views below what Perform says. |
| `CoinsCache.Run` | src/coins.cpp:1233-1249 | Every legal run of operations on a stack of any height, each on a level of its own choice, takes the views through such steps only, and keeps every layer's flag and usage invariant. |
| `CoinsRuns.FlushedBack` | src/txdb.cpp:398-409 | A view of storable records becomes, in the database, exactly what comes back of each. |
| `CoinsRuns.RunSame` | src/coins.cpp:1233-1249 | A run that writes only storable records to the database shows, at every moment and on every level, what the same calls make of plain maps, up to the equality of records; what the database shows would come back from it unchanged. |
| `CoinsRuns.StackStarts` | src/coins.cpp:135 | A stack over a database of exact records, such as an empty one, is where RunSame starts. |
| `CoinsRuns.ExactComesBack` | src/txdb.cpp:398-409 | A flush into the database below other caches changes nothing where exact records alone are shown. |
| `CoinsRuns.CopyGoesStale` | src/coins.h:200-260 | A copy of a coin stake record in an upper cache stops repeating its base when the cache below goes into the database. |
| `AddrTables.CreateLinked` | src/addrman.cpp:88-98 | A created entry is linked in every index and only waits for its place in a table. |
| `AddrTables.SwapLinked` | src/addrman.cpp:100-118 | Swapping two places of the random order keeps it a permutation with right back-pointers and everything else. |
| `AddrTables.DeleteLinked` | src/addrman.cpp:120-132 | Deleting an entry without a table place leaves no index pointing at it and disturbs no other entry. |
| `AddrTables.ClearNewLinked` | src/addrman.cpp:134-147 | Clearing a slot lowers the right count, deletes the entry exactly at zero, and keeps the counters in step. |
| `AddrTables.UnlistLinked` | src/addrman.cpp:151-161 | Taking an entry out of every bucket leaves its count zero and all others as they were. |
| `AddrTables.EvictLinked` | src/addrman.cpp:167-189 | The evicted tried entry is back in the new table with one reference, whoever held that slot having lost it. |
| `AddrTables.MakeTriedConsistent` | src/addrman.cpp:149-195 | Moving an entry to the tried table keeps the whole invariant; the entry has its slot and the one evicted is still known. |
| `AddrTables.MakeTriedKeeps` | src/addrman.cpp:149-195 | Entries other than the three concerned keep everything but their random position. |
| `AddrTables.InsertConsistent` | src/addrman.cpp:293-313 | Inserting at a slot overwrites only what may be overwritten; the entry ends referenced or deleted, and the invariant holds. |
| `AddrTables.AddConsistent` | src/addrman.cpp:249-315 | Adding an address keeps the invariant for every branch, and a known address stays known. |
| `AddrTables.GoodConsistent` | src/addrman.cpp:197-247 | Marking good keeps the invariant, and a known service ends in the tried table. |
| `AddrTables.ShuffleConsistent` | src/addrman.cpp:464-483 | The partial shuffle of the answer to getaddr keeps the invariant. |
| `AddrTables.HappenConsistent` | src/addrman.cpp:197-337 | Every single operation keeps the full consistency invariant. |
| `AddrTables.HistoriesConsistent` | src/addrman.h:453-481 | Every state of every history of operations with positive times, from a fresh manager on, satisfies the invariant, with nothing assumed of the states in between. |
| `AddrTables.HistoriesExtend` | src/addrman.h:453-481 | Any possible operation carries a history on, in one way only. |
| `AddrTables.ClearedConsistent` | src/addrman.h:453-476 | Clearing gives a consistent manager if and only if both maps were empty before. |
| `AddrTables.Refreshed` | src/addrman.cpp:258-266 | Hearing of a known address joins the services; its time never goes back, and it becomes the penalised one heard exactly when none was known or the gain exceeds the update interval. |
| `AddrMan.Manager.Clear` | src/addrman.h:453-476 | The loops empty both tables; order and counters are reset and the two maps are kept. |
| `AddrMan.Manager.constructor` | src/addrman.h:453-481 | A constructed manager holds nothing, in all of its structures. |
| `AddrMan.Manager.CreateEntry` | src/addrman.cpp:88-98 | The object's fields change as the specification of creation says. |
| `AddrMan.Manager.Swap` | src/addrman.cpp:100-118 | In place, both back-pointers and both places are exchanged. |
| `AddrMan.Manager.DeleteEntry` | src/addrman.cpp:120-132 | In place: swap to the end, drop, and forget the address and the entry. |
| `AddrMan.Manager.ClearSlot` | src/addrman.cpp:134-147 | In place, the internal assertion on the count holds and the effect is that of the specification. |
| `AddrMan.Manager.UnlistEntry` | src/addrman.cpp:151-161 | The loop over all buckets removes every reference of the entry. |
| `AddrMan.Manager.EvictEntry` | src/addrman.cpp:167-189 | The occupied tried slot is emptied and its entry put into the new table. |
| `AddrMan.Manager.MoveToTried` | src/addrman.cpp:149-195 | Both internal assertions hold and the new tables are those of the specification. |
| `AddrMan.Manager.FindEntry` | src/addrman.cpp:75-86 | Finds the entry of a network address, and nothing else. |
| `AddrMan.Manager.FindBucket` | src/addrman.cpp:226-241 | The search from a random start always finds a bucket with the entry: the bail-out after it is unreachable. |
| `AddrMan.Manager.MarkGood` | src/addrman.cpp:197-247 | The method keeps the invariant and has the specified effect. |
| `AddrMan.Manager.HasRoom` | src/addrman.cpp:295-303 | A slot is taken over exactly if it is empty or its occupant is terrible or spare. |
| `AddrMan.Manager.InsertEntry` | src/addrman.cpp:293-313 | The placement has the specified effect, including deletion of an entry that finds no place. |
| `AddrMan.Manager.AddAddress` | src/addrman.cpp:249-315 | Keeps the invariant; answers that the address is new exactly if it is routable and unknown. |
| `AddrMan.Manager.RefreshEntry` | src/addrman.cpp:258-266 | The entry is refreshed as specified and no other changes. |
| `AddrMan.Manager.MarkAttempt` | src/addrman.cpp:317-337 | Keeps the invariant; times and attempts change as specified. |
| `AddrMan.Manager.MarkConnected` | src/addrman.cpp:485-503 | Keeps the invariant; only the time of that service may change. |
| `AddrMan.Manager.AssignServices` | src/addrman.cpp:505-521 | Keeps the invariant; only the services of that service may change. |
| `AddrMan.Manager.GetAddr` | src/addrman.cpp:464-483 | At most 2500 and 23 percent, all different, none terrible, each as stored; the manager stays consistent. |
| `AddrCheck.CheckEntry` | src/addrman.cpp:397-418 | Zero exactly if this entry's own fields and pointers are right. |
| `AddrCheck.CheckTried` | src/addrman.cpp:426-438 | The sweep over the tried table with its shrinking set accepts exactly the right tables. |
| `AddrCheck.CheckNew` | src/addrman.cpp:440-451 | The sweep over the new table, counting down references, accepts exactly the right tables. |
| `AddrCheck.Check` | src/addrman.cpp:387-461 | The code is zero if and only if all conditions it writes out hold and the key is not null; the lookups of addresses do not change. |
| `AddrCheck.CheckedIffConsistent` | src/addrman.cpp:387-461 | Passing the check, with the id counter and the address index right, is exactly the invariant that every operation keeps. |
| `AddrCheck.CheckMisses` | src/addrman.cpp:387-461 | An address without an entry, and a negative id counter, pass the check. |
| `AddrCheck.RandomFull` | src/addrman.cpp:413-414 | As many entries as places, each at its own: every place of the random order is taken. |
| `AddrDisk.IdAtRank` | src/addrman.h:306-316 | An entry is written at the place that its rank among the ids says. |
| `AddrDisk.RenamesById` | src/addrman.h:306-325 | Renaming ids by rank, new entries first, is one to one and onto. |
| `AddrDisk.GuardsHold` | src/addrman.h:363-369 | A consistent manager never has more entries than slots, so the reader's size guards are not hit. |
| `AddrDisk.StageNew` | src/addrman.h:371-389 | Reading the n-th new entry extends every structure by that entry alone. |
| `AddrDisk.StageOfTried` | src/addrman.h:391-410 | Reading a tried entry finds its slot free: nothing is lost. |
| `AddrDisk.StageRef` | src/addrman.h:412-428 | Reading a reference finds its slot free and its entry below the limit of eight. |
| `AddrDisk.BeforeIndexed` | src/addrman.h:371-428 | Whatever the file says, positions in the random order are right when pruning starts. |
| `AddrDisk.AppliesBack` | src/addrman.h:342-446 | What a consistent manager wrote is rebuilt as the same tables up to the renaming, nothing being pruned. |
| `AddrDisk.ReloadedConsistent` | src/addrman.h:445 | What comes back satisfies the whole invariant again. |
| `AddrDisk.ParsesBack` | src/addrman.h:349-428 | The tokens written are read back exactly, with nothing left over or missing. |
| `AddrDisk.RoundTrip` | src/addrman.h:292-446 | Writing and reading into a fresh manager: accepted, no entry lost, same tables up to renaming, memory-only times reset. |
| `AddrDisk.TogglesBack` | src/addrman.h:304-305 | The bucket count survives the exclusive or with 2^30. |
| `AddrDisk.IndexesKnown` | src/addrman.h:419-420 | Every index the reader looks up names an entry, so the lookup never makes one. |
| `AddrDisk.PartialMaps` | src/addrman.h:342-428 | What a failed read leaves in the two maps is nothing exactly when no entry was begun. |
| `AddrDisk.FailedReadCleared` | src/net.cpp:2824-2828 | After a failed read Clear leaves a consistent manager if and only if no entry was begun. |
| `AddrDisk.CutFile` | src/net.cpp:2824-2828 | A header that promises one entry and nothing after it: refused, and Clear leaves the entry behind. |
| `AddrAccept.BeforeEntered` | src/addrman.h:371-428 | For every accepted file without negative counts: ids, tables, reference counts and slots are right before pruning, and every address leads to an entry with it. |
| `AddrAccept.PruneShape` | src/addrman.h:430-440 | Pruning drops exactly the entries without a slot, and their addresses. |
| `AddrAccept.ApplyConsistent` | src/addrman.h:342-446 | What is read of an accepted file is consistent if and only if no count is negative, the entries with a place have right dates, and none of them shares its address with another entry. |
| `AddrAccept.NegativeFile` | src/addrman.h:352-369 | A header with a negative count and nothing behind it is accepted and gives an inconsistent manager. |
| `AddrFile.ManagerBounded` | src/addrman.h:326-339 | The occupied slots of a manager lie within its arrays, as RoundTrip needs them. |
| `AddrFile.WriteEntries` | src/addrman.h:306-325 | The loops write the entries in order of ids; the counter assertions hold. |
| `AddrFile.WriteBucket` | src/addrman.h:326-339 | A bucket is written as its size and the ranks of its entries. |
| `AddrFile.Serialize` | src/addrman.h:292-340 | Writes exactly the image of the manager that RoundTrip reads back. |
| `AddrFile.ReadNew` | src/addrman.h:371-388 | The new entries at the head of the file are entered in place; where one is missing, a default entry stays under its number. |
| `AddrFile.ReadTried` | src/addrman.h:391-410 | The tried entries are entered in place; the lost ones come off the counter only after the last. |
| `AddrFile.ReadBuckets` | src/addrman.h:412-428 | The references are entered in place, as far as the file goes. |
| `AddrFile.PruneEntries` | src/addrman.h:430-440 | In place, the entries that found no slot are deleted. |
| `AddrFile.Unserialize` | src/addrman.h:342-446 | On every file the object ends as the specification of reading says, complete or, where the read fails, partly filled. |
| `AddrFile.ReadPeers` | src/net.cpp:2810-2831 | The manager at start-up: fresh for a file of another network; cleared after a failed read, and then consistent exactly when no entry was begun; and after a successful one consistent exactly when the file is sound. |
| `AddrFile.Reload` | src/test/net_tests.cpp:68-112 | Writing a manager and reading the file gives a consistent manager with the same key and, up to the renaming, the same tables. |
| `CheckQueue.BatchSize` | src/checkqueue.h:109 | A batch is never empty and never larger than the queue. |
| `CheckQueue.Execute` | src/checkqueue.h:120-124 | Skipping checks after a failure still gives the conjunction of the batch. |
| `CheckQueue.ReportLocked` | src/checkqueue.h:79-88 | Reporting a batch keeps the counts, and wakes the sleeping master after the last check. |
| `CheckQueue.DecideInvariant` | src/checkqueue.h:90-118 | Returning, sleeping or taking a batch keeps the invariant. |
| `CheckQueue.AddInvariant` | src/checkqueue.h:145-157 | Adding checks, with whatever workers the notification wakes, keeps the invariant. |
| `CheckQueue.StepInvariant` | src/checkqueue.h:68-126 | Every step of every thread keeps: todo is queued plus in flight, batches are not empty, the master sleeps only on an empty queue and has a wake-up pending once all is done. |
| `CheckQueue.ReachableInvariant` | src/checkqueue.h:68-157 | The invariant holds in every state that any run of one master and any number of workers reaches, with nothing assumed of the states in between. |
| `CheckQueue.WaitExact` | src/checkqueue.h:90-99 | Wait returns exactly the conjunction of all checks added since the last Wait, and leaves the queue ready for the next. |
| `CheckQueue.QuiescentIsIdle` | src/checkqueue.h:163-167 | Between Wait and the next Add the queue is idle, as the controller asserts. |
| `CheckQueue.EffectiveDecreases` | src/checkqueue.h:68-126 | Every step in the loop other than a spurious wake-up uses up some of the remaining work, and a spurious wake-up adds none. |
| `CheckQueue.NoDeadlock` | src/checkqueue.h:90-103 | While the master waits, some thread can always take a step that uses up work. |
| `CheckQueue.WaitProgress` | src/checkqueue.h:68-126 | However the threads interleave and wake, the steps that use up work are at most as many as the remaining work, and until the master has returned there is a next one. |
| `CheckQueue.WaitReturns` | src/checkqueue.h:136-142 | From every reachable state the master returns within as many such steps as there is remaining work. |
| `BaseUint.Accumulate` | src/arith_uint256.cpp:109 | Carry, limb and product together fit 64 bits. |
| `BaseUint.Uint.Add` | src/arith_uint256.h:138-147 | Addition modulo 2 to the width, for every width, also of a number to itself. |
| `BaseUint.Uint.Complement` | src/arith_uint256.h:72-78 | Complement is the distance to the largest value. |
| `BaseUint.Uint.Increment` | src/arith_uint256.h:175-182 | The carry loop adds one modulo the width. |
| `BaseUint.Uint.Negated` | src/arith_uint256.h:80-87 | Two's complement is negation modulo the width. |
| `BaseUint.Uint.Subtract` | src/arith_uint256.h:149-153 | Subtraction modulo the width. |
| `BaseUint.Uint.AssignWord` | src/arith_uint256.h:91-98 | The value of a 64-bit word in two limbs. |
| `BaseUint.Uint.Multiply` | src/arith_uint256.cpp:102-115 | The product modulo the width for different objects; zero when an object is multiplied by itself. |
| `BaseUint.Uint.ShiftLeft` | src/arith_uint256.cpp:56-70 | Multiplication by a power of two modulo the width, for every shift. |
| `BaseUint.Uint.ShiftRight` | src/arith_uint256.cpp:73-87 | Division by a power of two, for every shift. |
| `UintDivide.Compare` | src/arith_uint256.cpp:144-154 | Comparison of limbs from the top is comparison of values. |
| `UintDivide.Bits` | src/arith_uint256.cpp:194-206 | The number of bits of the value. |
| `UintDivide.Divide` | src/arith_uint256.cpp:118-141 | The exact quotient, and an error exactly for a zero divisor. |
| `UintDivide.DivideLoop` | src/arith_uint256.cpp:129-139 | Shift and subtract: the quotient, with the remainder left in the dividend. |
| `UintDivide.DivideBit` | src/arith_uint256.cpp:131-138 | One turn keeps dividend = quotient * divisor + rest and clears no quotient bit already set. |
| `CompactTarget.OverflowExact` | src/arith_uint256.cpp:253-256 | The overflow test holds if and only if the value reaches 2^256. |
| `CompactTarget.SetCompact` | src/arith_uint256.cpp:240-258 | Value, sign flag and overflow flag of every compact number. |
| `CompactTarget.GetCompact` | src/arith_uint256.cpp:260-281 | The compact form of every 256-bit value, in 32 bits. |
| `CompactTarget.CompactRoundTrip` | src/arith_uint256.cpp:240-281 | Decoding an encoded value keeps exactly its leading two or three bytes. |
| `CompactTarget.CompactStable` | src/arith_uint256.cpp:260-281 | Encoding is stable under that round trip. |
| `CompactTarget.WorkFormula` | src/chain.cpp:113-126 | The formula with the complement is the floor of 2^256 over target plus one. |
| `CompactTarget.GetBlockProof` | src/chain.cpp:113-126 | The work of a block for every compact target: that quotient, or zero for an invalid target; nothing overflows on the way. |
| `Chain.InvertLowestOneExact` | src/chain.cpp:63 | Clears exactly the lowest one bit. |
| `Chain.SkipHeightBelow` | src/chain.cpp:66-74 | The skip height is below the height for every height from one on. |
| `Chain.AncestorFacts` | src/chain.cpp:76-105 | An ancestor has the height asked for and the same ancestors below. |
| `Chain.GetAncestor` | src/chain.cpp:76-105 | The walk over skip pointers ends, meets no missing link, and finds the block that walking the parents finds. |
| `Chain.BuildSkip` | src/chain.cpp:107-111 | Sets the pointer that the walk relies on. |
| `Chain.ActiveChain.SetTip` | src/chain.cpp:11-21 | The early stop still gives exactly the path from genesis to the tip. |
| `Chain.ActiveChain.FindFork` | src/chain.cpp:51-60 | The highest block on both the chain and the ancestry; none exactly if there is none. |
| `Chain.ActiveChain.StepBack` | src/chain.cpp:37-43 | The indexed chain and the skip list give the same block. |
| `Chain.ActiveChain.GetLocator` | src/chain.cpp:23-49 | Strictly descending ancestors from the start to genesis, whether the walk goes by the chain or by skip pointers; beyond twelve of them the height is more than exponential in their number. |
| `Chain.SteppedClosed` | src/chain.cpp:44-45 | How far back k steps lead, in closed form. |
| `RollingBloom.WipeAt` | src/bloom.cpp:255-262 | The masks clear exactly the positions of one generation, in both words. |
| `RollingBloom.Wipe` | src/bloom.cpp:258-263 | The loop over word pairs removes one generation and no other tag. |
| `RollingBloom.SetTag` | src/bloom.cpp:267-274 | Sets both bits of one position and no others. |
| `RollingBloom.Filter.constructor` | src/bloom.cpp:215-241 | An empty filter with half the elements, rounded up, per generation. |
| `RollingBloom.Filter.Rotate` | src/bloom.cpp:249-263 | Starting a generation forgets exactly the oldest of three. |
| `RollingBloom.Filter.Insert` | src/bloom.cpp:247-275 | The key is recorded with the current generation, rotating at its end. |
| `RollingBloom.Filter.Contains` | src/bloom.cpp:283-295 | True if and only if every position of the key was hit by a key of the current or the two previous generations. |
| `RollingBloom.Filter.RecentKept` | src/bloom.h:113 | None of the last inserts, as many as twice a generation, is ever denied. |
| `RollingBloom.Filter.Reset` | src/bloom.cpp:303-311 | Nothing is remembered, under a new tweak. |
| `Radix.RecodedInverse` | src/base58.cpp:21-105 | A number with a count of leading zeros is written in one way only, so recoding there and back is the identity. |
| `Radix.MulAddNext` | src/base58.cpp:84-88 | One digit of the in-place multiply and add, with its carry. |
| `Base58.SizeForEncoding` | src/base58.cpp:77 | The buffer of 138/100 of the length holds every number of that many bytes. |
| `Base58.SizeForDecoding` | src/base58.cpp:33 | The buffer of 733/1000 of the length holds every number of that many characters. |
| `Base58.AbsorbByte` | src/base58.cpp:81-91 | The carry loop, stopping early at untouched digits, multiplies and adds exactly; nothing is carried out. |
| `Base58.AbsorbDigit` | src/base58.cpp:40-47 | The carry loop over the whole buffer multiplies and adds exactly; nothing is carried out. |
| `Base58.Encode` | src/base58.cpp:67-105 | The text spells the number that the bytes hold, with one 1 for each leading zero byte. |
| `Base58.Decode` | src/base58.cpp:21-65 | Accepted exactly if the text between surrounding spaces is in the alphabet; the bytes then hold the number it spells. |
| `Base58.DecodeInvertsEncode` | src/base58.cpp:21-105 | Decoding an encoding gives the bytes, for every byte string. |
| `Base58.EncodeInvertsDecode` | src/base58.cpp:21-105 | Encoding a decoding gives the text without its surrounding spaces, for every accepted text. |
| `Streams.VarIntRoundTrip` | src/serialize.h:359-388 | A number is read back, and exactly its bytes are read, if and only if it is not negative. |
| `Streams.VarIntUnique` | src/serialize.h:324-344 | Every number has exactly one encoding. |
| `Streams.VarDigits` | src/serialize.h:359-371 | The temporary buffer is long enough for every number of the width. |
| `Streams.Stream.WriteVarInt` | src/serialize.h:359-374 | The loops write the encoding, most significant byte first. |
| `Streams.Stream.ReadVarInt` | src/serialize.h:376-388 | The loop reads the number in a word that wraps around, and fails at the end of the stream. |
| `Amounts.DecompressInverts` | src/compressor.cpp:142-185 | Decompressing a compressed amount gives the amount. |
| `Amounts.CompressInverts` | src/compressor.cpp:142-185 | Compressing a decompressed number gives the number: the two are inverse bijections. |
| `Amounts.MarkersExact` | src/compressor.h:115-148 | No amount in the money range compresses to the first marker and exactly one to the second. |
| `Amounts.CompressedFits` | src/compressor.cpp:142-160 | Up to the money limit the compressed amount fits 64 bits. |
| `Amounts.CompressAmount` | src/compressor.cpp:142-160 | In 64-bit words the loop computes the compressed amount, exactly up to the money limit. |
| `Amounts.DecompressAmount` | src/compressor.cpp:162-185 | In 64-bit words the loop computes the amount modulo 2^64. |
| `OutputCodec.DecompressInvertsCompress` | src/compressor.cpp:48-131 | The short form of a standard script is expanded to that script, given that the curve finds a valid key again. |
| `OutputCodec.ScriptRoundTrip` | src/compressor.h:66-96 | Scripts up to 10000 bytes are read back; longer ones come back as one OP_RETURN; in both cases exactly their bytes are read. |
| `OutputCodec.AmbiguousFails` | src/compressor.h:115-179 | A plain output with the ambiguous amount never comes back with its amount. |
| `OutputCodec.OutputRoundTrip` | src/compressor.h:115-179 | An output is read back equal if and only if a condition holds that can be seen before writing; then it comes back in its normal form and exactly its items are read. |
| `OutputCodec.SerializeScript` | src/compressor.h:66-76 | Writes the short form exactly for the special scripts and the sized form otherwise, as ScriptRoundTrip reads it back. |
| `OutputCodec.UnserializeScript` | src/compressor.h:78-96 | On every stream reads the script that the specification of reading gives and leaves the rest, or fails where it fails. |
| `OutputCodec.SerializeOutput` | src/compressor.h:115-148 | Writes one of three forms, told apart by two markers, as OutputRoundTrip reads it back. |
| `OutputCodec.UnserializeOutput` | src/compressor.h:149-179 | On every stream reads the output that the specification of reading gives and leaves the rest, or fails where it fails. |
| `CoinsCodec.CalcMaskSize` | src/coins.cpp:21-37 | The number of mask bytes up to the last non-zero one, and of non-zero ones. |
| `CoinsCodec.HeaderRoundTrip` | src/coins.h:235-239 | The header code gives back the flags and the count of mask bytes, written as one less when both first outputs are spent. |
| `CoinsCodec.MasksRoundTrip` | src/coins.h:240-250 | The reader stops after exactly the mask bytes written. |
| `CoinsCodec.SomethingLeft` | src/coins.h:205 | The writer's assertion holds for every record that is not pruned. |
| `CoinsCodec.OutsRoundTrip` | src/coins.h:251-256 | The outputs left come back equal if and only if each of them is faithful, in a list long enough for all. |
| `CoinsCodec.RecordRoundTrip` | src/coins.h:152-161 | Up to the program's equality a record comes back if and only if it is storable; then in its normal form, with the coin stake flag of the record read into, and exactly its items are read. |
| `CoinsCodec.Serialize` | src/coins.h:200-226 | Appends the encoding of the record, as RecordRoundTrip reads it back; the assertion inside holds. |
| `CoinsCodec.Unserialize` | src/coins.h:229-260 | On every stream reads the record that the specification of reading gives and leaves the rest, or fails; the coin stake flag is left as it was. |
| `CompactBlock.PlacePrefilled` | src/blockencodings.cpp:60-75 | Accepts exactly the acceptable prefilled transactions; each goes to its own slot in range, and as many slots stay free as there are short ids. |
| `CompactBlock.TooManyPrefilled` | src/blockencodings.cpp:60-75 | More than 65536 prefilled transactions are never acceptable. |
| `CompactBlock.NextFree` | src/blockencodings.cpp:85-86 | The scan for a free slot ends in range, or its 16-bit offset goes round for ever, and that exactly when at least 65536 slots are taken. |
| `CompactBlock.ScanEndsExact` | src/blockencodings.cpp:85-86 | For an accepted message the scan ends if and only if there are fewer than 65536 prefilled transactions. |
| `CompactBlock.FullMessageHangs` | src/blockencodings.cpp:85-86 | A message of 65536 adjacent prefilled transactions and one short id is accepted and its scan never ends. |
| `CompactBlock.MapShortIds` | src/blockencodings.cpp:82-104 | Hangs exactly for short ids beside 65536 prefilled transactions, and else succeeds exactly for distinct short ids in buckets that are not crowded; the i-th short id stands for the i-th free slot, cut to 16 bits. |
| `CompactBlock.SlotMapExact` | src/blockencodings.cpp:87 | Each short id stands for its own slot if and only if there are at most 65536 transactions. |
| `CompactBlock.ScanPool` | src/blockencodings.cpp:106-132 | In a message of any length each slot that a short id stands for holds the only pool transaction landing there, of those looked at; the count is the number of such slots; the early stop comes only when all are found. |
| `CompactBlock.LandedScanned` | src/blockencodings.cpp:106-132 | With at most 65536 transactions the slots hold the single pool matches of their own short ids, and no prefilled slot is touched. |
| `CompactBlock.PartialBlock.InitData` | src/blockencodings.cpp:50-137 | Which messages are invalid, failed, accepted or never done with; an accepted one of any length leaves the prefilled slots and what landed on the others, and their counts. |
| `CompactBlock.MisplacedBeyond` | src/blockencodings.cpp:87 | A block of more than 65536 transactions whose last one is alone in the pool does not get it at its place. |
| `CompactBlock.PartialBlock.FillBlock` | src/blockencodings.cpp:145-180 | Succeeds exactly with as many transactions as were missing and a block that passes; the block is the slots with those put in. |
| `CompactBlock.FilledUnique` | src/blockencodings.cpp:150-160 | No other transactions fill the slots to the same block. |
| `CompactBlock.Reconstructs` | src/blockencodings.cpp:145-160 | If pool matches are true ones, what is available belongs to the block, and with the missing transactions in order the original list comes back. |
| `CompactBlock.Relay` | src/blockencodings.cpp:20-180 | For a block of at most 65536 transactions and true pool matches the whole exchange gives back the block if and only if its short ids are distinct and not crowded and it passes the check. |
| `CompactBlock.MakeMessage` | src/blockencodings.cpp:20-30 | The message made from a block describes it. |
| `CompactBlock.WriteIndexes` | src/blockencodings.h:62-66 | Writes the differences, in 64-bit arithmetic, that RequestRoundTrip reads back. |
| `CompactBlock.ReadIndexes` | src/blockencodings.h:42-61 | Rebuilds the indexes in place with a 16-bit offset, for every message; refuses exactly where an index would pass 16 bits. |
| `CompactBlock.RequestRoundTrip` | src/blockencodings.h:37-67 | A request comes back exactly if its indexes ascend strictly, and is refused otherwise. |
| `Blake.FeedConcat` | src/blake.c:905-941 | The state after an update does not depend on how the message is split. |
| `Blake.CarryExact` | src/blake.c:933-934 | The two words count modulo 2^128. |
| `Blake.Context.Absorb` | src/blake.c:905-941 | The buffer loop, with its shortcut, feeds the data. |
| `Blake.Context.Update` | src/blake.c:905-941 | After any pieces the state is that of their concatenation. |
| `Blake.FeedChain` | src/blake.c:922-938 | Each compression gets the message bits consumed so far. |
| `Blake.AdjustedCounter` | src/blake.c:963-971 | The adjustment before the last block makes its counter the length of the message, or zero for a block of padding only. |
| `Blake.PaddedSizeLeast` | src/blake.c:972-990 | The padding takes the least number of blocks. |
| `Blake.Context.Adjust` | src/blake.c:963-971 | The three branches on the words compute that adjustment, with wrap-around. |
| `Blake.Context.Close` | src/blake.c:943-994 | The result is the chained value over the padded message, with the right counter for every block. |
| `SipHash.FedConcat` | src/hash.cpp:126-152 | Byte writes do not depend on how the input is split. |
| `SipHash.OrSnoc` | src/hash.cpp:133 | Or-ing shifted bytes builds the little-endian word. |
| `SipHash.Hasher.constructor` | src/hash.cpp:96-104 | A hasher that has been fed nothing. |
| `SipHash.Hasher.WriteWord` | src/hash.cpp:106-124 | At an aligned count a word is the same as its eight little-endian bytes. |
| `SipHash.Hasher.WriteBytes` | src/hash.cpp:126-152 | After any pieces the state is that of their concatenation. |
| `SipHash.Hasher.Finalize` | src/hash.cpp:154-170 | The hash of everything written. |
| `SipHash.FourWords` | src/hash.h:196-205 | The hash of four words as five absorptions. |
| `SipHash.SipHashUint256` | src/hash.cpp:172-210 | The unrolled form gives the hash of the four words. |

## Left out

- Caches of proposals, payment requests, votes, consultations, tokens and names, and the count of excluded votes, in
  src/coins.cpp: their value classes have dirty and null rules of their own.
- `SetBackend` and concurrent access to a cache.
- CoinsCache.FlushSame: for records whose fields are within their widths and whose amounts are within the money range.
- CoinsCache.Database.GetCoins: the bytes of a row are items here, without the obfuscation of the database; `HaveCoins` of
  the database, which asks only whether there is a row, is not modelled.
- The memory usage of a record is a parameter that depends on the record alone, not on the capacity of its vectors.
- Coins.CoinRecord.Spend: the record is a value here; the in-place change is modelled by the cache that holds it.
- `Select_`, `GetChance` and the logging of the address manager: floating point and probabilistic termination.
- AddrMan.Manager.Clear: keeps the key instead of drawing a new one; no slot is in use once it returns.
- AddrFile.Unserialize: reads into a newly made manager, the only one the program reads into; an entry cut off in the
  middle is not told from one that is missing.
- AddrFile.ReadPeers: the checksum of the file is left out, and Clear keeps the key.
- Times, ids and counters of the address manager do not overflow here.
- The quit flag of the check queue, which nothing sets.
- `operator*=` with a 32-bit factor, the bitwise operators, hexadecimal text and conversion to floating point of the
  integers; `GetBlockTrust`, whose shift by 256 bits is zero.
- `CBloomFilter`, and the formulas for the size and the number of hash functions of the rolling filter.
- Base58Check and the kinds of addresses above Base58; lengths beyond the range of an int.
- OutputCodec.OutputRoundTrip: amounts are within the money range, and the limit on the length of a vector is not modelled.
- CoinsCodec.RecordRoundTrip: for records that are trimmed and not pruned, the only ones the program writes.
- Reading lists in chunks of a thousand, which only spreads the allocation; the short id codec of six bytes.
- BLAKE-224, -256 and -384 variants other than the last padding bit, and the compression functions and tables of all hashes.
- Transaction checks, the LevelDB wrapper, RPC, wallet, networking and chain parameters.
