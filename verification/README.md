# A verified model of a flash key/value store, a lottery scheduler and scheduler protocols

The repository holds kernel projects; this project models the three parts of it with the
richest state and proves what they are for.

**The serial flash store** (`p6/prototype-serial/kernel`). A log-structured key/value store on
NAND flash: a RAM index with linear probing and sticky dirty marks, per-block append offsets,
valid-page lists and invalid-page counters, a garbage collector that rewrites the block it
erases, and metadata snapshots in reserved blocks. `FlashStore.Store` is the driver with its
global `config` as fields; each method is proved against pure functions on the state (`Config`,
`ProbeTable`, `StrideBuffer`, `Metadata`). `Config.Sound` is NAND discipline and accounting:
pages from the append offset on are erased, page 0 of a data block is its header, offset = 1 +
live + invalid, every indexed page is on its block's list, and the store is read-only iff all
blocks are full. `Config.Inv(g, c, m)` adds that index and flash stand for the plain map `m`.
The store as a whole is specified by a bounded map (`StoreSpec.Ideal`): a plain map that takes a
record as long as pages are left. `FlashStore.Store.Run` shows that the store follows it step by
step, with collections giving pages back; `StoreRuns.RunFromFirstMount` concludes, in terms of the
operations alone, that it is a plain map over runs of any length as long as the keys leave room for
the pages that can be wasted. `GcMerge` is the garbage collector of the
parallel prototype, over the same state.

**The lottery scheduler** (`p3/.../sched_lottery.c`). A draw over a linked list and a draw over
a red-black tree with subtree ticket sums. They pick the same task; each is exactly fair; and
over every run of enqueue, dequeue and ticket change the tree is the sorted, correctly summed
form of a plain book of tickets.

**Protocols of `p3/.../sched.c`.** The goto-driven task-group walk equals the recursive
traversal; RT bandwidth admission accepts a change iff the changed tree is nested under the
global limit, and over every interleaving with changes of that limit the tree stays nested and
is within the limit under an exact condition; completions never lose a wake-up; run-queue locks
never form a cycle of waiters; the sleepers' counters balance; `cpu_load[]` converges.

| file | content |
|---|---|
| `Wrappers`, `Arithmetic`, `Bytes`, `Addressing`, `Record` | options, division, little-endian integers, page numbers, the record format of a page |
| `StringHash`, `ProbeTable` | `hash.c` |
| `Config` | state of the store, its elementary changes, the invariants |
| `StrideBuffer`, `StrideDamage` | the copy buffer of `gc`, and what it does to records that are too long for it |
| `LiveRecords`, `LostRecords` | the live records that pass through the buffer, kept or lost |
| `Metadata` | the snapshot on flash and the phases of a flush |
| `Capacity` | conservation of pages: when the store is full |
| `StoreSpec` | the bounded map, and when a collection is harmless |
| `FlashStore` | the driver's operations, and runs of them |
| `StoreRuns` | runs from the first mount |
| `Lottery` | both draws, the tree operations, the run queue, and runs |
| `GroupWalk`, `RtBandwidth`, `RtLimits` | task-group walk, RT admission, the global limit and its handler |
| `Completion`, `RunqueueLocks`, `LoadAccounting` | the protocols as state machines over their steps |

Where the code departs from what it is meant to do, the code is modelled and the exact condition
is proved:

- `gc` lays records `pages_per_block` bytes apart in its buffer, although each is a page long.
  `StrideBuffer.CopyExactIff` gives the exact condition under which the copy is right. For the
  map: a record that is followed by another one and at least two bytes too long is lost
  (`FlashStore.Store.Gc`, `LostRecords.VerdictLost`), for every stride (`StrideDamage.CopyDamages`) and
  in a run from the first mount (`StoreRuns.LoseRecord`); one byte too many can even
  turn two records into each other and leave the map as it was (`StrideDamage.SwapsRecords`,
  `StrideDamage.SwapExists`); otherwise the map is kept iff every record survives
  (`LostRecords.VerdictIff`).
- `hash_search` probes one slot less than the table has. `ProbeTable.AddFoundIff` says exactly when
  an added key can be found again, `ProbeTable.AddHidesKey` gives a case where it cannot, and
  `Config.RoomForOne` shows that the store never gets there.
- The set that takes the last page stores its record and still reports -3: exactly when
  (`FlashStore.Store.Set`, `Capacity.FullIff`), and in a run for every geometry (`StoreRuns.FillStore`).
- `flush_metadata` reads past the end of its buffer, always, and by the same inequality `init_scan`
  writes past the end of the one it allocates at mount when it finds a snapshot: both handle
  nb_meta_blocks * (pages_per_block - 1) pages in a buffer of nb_meta_pages, which are always fewer
  (`Metadata.MetaFits`).
- The clock value that decides about flushes adds nanoseconds to microseconds. `FlashStore.FlushDueClock`
  says exactly when a flush is due; `FlashStore.FlushLate` shows readings minutes apart without one.
- `to_ratio` overflows from 2^44 ns on (`RtBandwidth.ToRatioExactIff`, `RtBandwidth.ToRatioWraps`).
- `sched_rt_handler` publishes a limit before checking it, under another mutex than group changes.
  `RtLimits.LimitHoldsIff` gives, for every interleaving, the exact condition under which the limit
  in force still holds afterwards; `RtLimits.TransientLimitLeaks` is a run where it does not. A
  published period of 0 makes a group change divide by zero: `RtBandwidth.TrapIff`,
  `RtLimits.ZeroPeriodTraps`.

## Model

| member | source | states |
|---|---|---|
| `FlashStore.Store.Run` | p6/prototype-serial/kernel/core.c:508-682 | Over every sequence of set, get, del, gc and flush whose collections cannot meet overlong records, each reply and each change is that of the bounded map: get and del exact, a set stored iff a page is left, -3 iff none or just one is left, -1 iff the record exceeds a page, -2 from a flush iff it fills the flash. Only a set or a gc gives pages back, then at least 48; a set that gives none back leaves no block due, so at most 47 wasted pages per data block |
| `StoreRuns.RunFromFirstMount` | p6/prototype-serial/kernel/core.c:508-682 | From the first mount, in terms of the operations alone. For runs of any length that wear allows: if the keys bound at a time plus 47 pages per data block stay below the data pages by more than one, every set within a page replies 0 and is stored, and every get and del is that of a plain map that took them all. The same, whatever the keys, while no more records have been set than there are data pages; and while fewer than 48 pages are wasted every reply is exactly the bounded map's. At all times the store follows the bounded map from the empty one, as in Store.Run |
| `StoreRuns.FillStore` | p6/prototype-serial/kernel/core.c:581-582 | For every geometry: sets of different keys reply 0 until the one that takes the last page, which replies -3, and the get after it returns its value |
| `StoreRuns.FillSmallest` | p6/prototype-serial/kernel/core.c:581-582 | A concrete run on two blocks of three pages: the replies are 0, -3 and then the value of the set that was answered -3 |
| `StoreRuns.LoseRecord` | p6/prototype-serial/kernel/core.c:1099-1236 | For every store with one data block of at least 51 pages: fifty accepted sets of two keys, with records two bytes or more longer than pages_per_block, end in a collection after which no indexed page holds one of the two records |
| `StoreRuns.LoseConcretely` | p6/prototype-serial/kernel/core.c:1099-1236 | Such a run on two blocks of 64 pages of 2048 bytes |
| `FlashStore.Store.Step` | p6/prototype-serial/kernel/core.c:508-682 | One operation from any valid state keeps accounting and snapshot; if its collection meets no record that fails to survive, it also keeps the map and follows the bounded map, with the exact code and the pages that the collection gives back |
| `FlashStore.Store.Set` | p6/prototype-serial/kernel/core.c:508-591 | The whole of set_keyval, with the gc and the flush it triggers: the map gains exactly this binding; -1 iff the record exceeds a page, -3 iff the flash was full (nothing stored, nothing changed) or this record took the last page (stored). The state stands for that map if the block to be collected, if any, has only records that survive; records of that block that are too long are held by no indexed page. Afterwards a complete snapshot is on flash, the new one iff the clock value has grown by 1000000; an overwritten record wastes one page; either no block is due and nothing was given back, or at least 48 pages were. Each block is erased once if it was the one collected, once more if the flush took its snapshot away, and else not |
| `FlashStore.Store.PutAndCollect` | p6/prototype-serial/kernel/core.c:540-572 | Write and gb_check together: the same for the part of set_keyval before the flush |
| `FlashStore.Store.PutRecord` | p6/prototype-serial/kernel/core.c:540-569 | Dropping the old copy, choosing a page, writing and indexing: the map gains the binding, the resulting state is exactly the drop followed by the append to the least worn block, the status is -1 iff exactly one page was left, metadata blocks are untouched, and the pages wasted grow by one iff the key was there |
| `FlashStore.Store.AppendPage` | p6/prototype-serial/kernel/core.c:561-569 | write_page, hash_add and list_add of a page with whatever contents: none can fail, and accounting is kept |
| `FlashStore.Store.Get` | p6/prototype-serial/kernel/core.c:600-649 | Returns the bytes bound to the key when it is bound, and -1 iff it is not; the page returned is the one that the index has for the key |
| `FlashStore.Store.Del` | p6/prototype-serial/kernel/core.c:658-682 | Removes exactly this key; -2 and an unchanged state iff it was not there; the page returned is the one that the index had for the key |
| `FlashStore.Store.constructor` | p6/prototype-serial/kernel/core.c:947-1014 | The first mount establishes the invariant with the empty map and no snapshot |
| `FlashStore.Store.Gc` | p6/prototype-serial/kernel/core.c:1099-1236 | The first block over the threshold is rewritten: no invalid pages left, exactly its invalid pages given back, offset 1 + live, all other blocks untouched, accounting kept, BUG() not reached, whatever the records are. The map is kept if every live record survives the copy buffer; no indexed page holds a record followed by another that is two bytes or more too long; without a block over the threshold nothing changes. The collected block is worn exactly once more, no other is; the threshold is 48 |
| `FlashStore.Store.GbCheck` | p6/prototype-serial/kernel/core.c:489-498 | The first block over the threshold is collected, if there is one, with the outcome of gc |
| `FlashStore.Store.Collect` | p6/prototype-serial/kernel/core.c:1141-1231 | Reading, erasing and rewriting whenever the victim has room, in place or into another block: offsets and lists as counted, only these two blocks change, and the map is kept or lost as for gc; the target is worn exactly once more, no other block is |
| `FlashStore.Store.TakeFirst` | p6/prototype-serial/kernel/core.c:1151-1190 | The hash_search inside gc finds the very bucket being walked; its page holds the record the map has; the list and the live records lose exactly the first |
| `FlashStore.Store.ReadLive` | p6/prototype-serial/kernel/core.c:1151-1190 | After the walk the list is empty, exactly the block's keys are gone from the map, and the buffer holds the pages at the stride of the code, later ones over earlier ones |
| `FlashStore.Store.WriteLive` | p6/prototype-serial/kernel/core.c:1200-1228 | Writing back whatever the buffer holds: the store never becomes full on the way, so the BUG() is not reached; the map is restored if all records survive, and a record that is too long is held by no indexed page |
| `FlashStore.Store.WriteOne` | p6/prototype-serial/kernel/core.c:1200-1228 | One record: it is indexed under the key the buffer shows; an intact record adds its binding, and no page written holds a record that is too long |
| `FlashStore.Store.FormatSingle` | p6/prototype-serial/kernel/core.c:889-942 | One block becomes free: pages erased, list empty, counters 0, worn exactly once more, all other blocks as they were, not read-only; a negative index changes nothing |
| `FlashStore.Store.GcMerge` | p6/prototype-parallel/kernel/core.c:1866-2149 | With merging, from 64 pages per block and 20 invalid pages on: the victim is the least worn block with space, else the least worn free one, else the target itself; it has room for all live pages and its header, offsets stay within the block, the target ends free or rewritten in place and is worn exactly once more, and the map is kept or lost as for gc |
| `FlashStore.Store.MergeVictim` | p6/prototype-parallel/kernel/core.c:1912-1938 | The first least-worn block with more free pages than the target has live ones, skipping metadata blocks; -1 iff there is none |
| `FlashStore.Store.FreeVictim` | p6/prototype-parallel/kernel/core.c:1943-1951 | The first least-worn free block, -1 iff there is none |
| `FlashStore.Store.FindTarget` | p6/prototype-parallel/kernel/core.c:1890-1904 | The first block outside the given ones with enough invalid pages, -1 iff there is none |
| `FlashStore.Store.HashSearch` | p6/prototype-serial/kernel/hash.c:45-81 | The probe loop computes Search, for which ProbeTable.SearchExact is proved |
| `FlashStore.Store.HashAdd` | p6/prototype-serial/kernel/hash.c:18-43 | The probe loop computes Add: table and result, for which ProbeTable.AddKeeps is proved |
| `FlashStore.Store.InvalidPg` | p6/prototype-serial/kernel/core.c:472-481 | Bucket, counter and list change together, as Delete says |
| `FlashStore.Store.IsReadOnly` | p6/prototype-serial/kernel/core.c:692-714 | True iff every block is full |
| `FlashStore.Store.WritePage` | p6/prototype-serial/kernel/core.c:1023-1053 | Requires the next erased page of its block; writes that page, advances the offset, and returns -1 iff the flash was full or is now |
| `FlashStore.Store.WriteDataHdr` | p6/prototype-serial/kernel/core.c:731-757 | Opens a free block with a header page; the invariant and room for data remain |
| `FlashStore.Store.GetHealthyBlock` | p6/prototype-serial/kernel/core.c:797-820 | The least worn block with room, the first on a tie; -1 iff there is none |
| `FlashStore.Store.GetNextPage` | p6/prototype-serial/kernel/core.c:769-789 | A store that is not read-only always yields a data block with room beyond its header, never a metadata block |
| `FlashStore.Store.GetMetaBlock` | p6/prototype-serial/kernel/core.c:825-862 | The least worn erased block if there is one, else the least worn block with room, the first on a tie, else -1 |
| `FlashStore.Store.Flush` | p6/prototype-serial/kernel/core.c:383-452 | Leaves a complete snapshot in full metadata blocks that starts with the bytes, in whatever layout, of the hash table and of the block table as it was when the new blocks had been chosen; keeps index and data blocks byte for byte and so the map; erases each block at most once; -2 iff the snapshot filled the flash. Exactly the blocks of the previous snapshot are worn once more, and each new block is the least worn that was left, the first on a tie |
| `FlashStore.Store.ChooseMeta` | p6/prototype-serial/kernel/core.c:405-416 | Every block chosen is distinct and erased and found in the first pass; data blocks are untouched; each is the least worn free block at its turn, the first on a tie |
| `FlashStore.Store.WriteMeta` | p6/prototype-serial/kernel/core.c:422-440 | The snapshot is complete even when its last page fills the flash |
| `FlashStore.Store.Scan` | p6/prototype-serial/kernel/core.c:217-251 | Recovers block order and bytes of the last flush exactly, for every placement and geometry; finds nothing before the first flush |
| `FlashStore.Store.FlushAndScan` | p6/prototype-serial/kernel/core.c:217-251 | Round trip: scanning after a flush returns, byte for byte, the two tables that it copied |
| `FlashStore.CollectedAll` | p6/prototype-serial/kernel/core.c:489-498 | One collection after a set is enough: a set brings at most one block to the threshold |
| `FlashStore.LastPageIff` | p6/prototype-serial/kernel/core.c:1041-1050 | A write fills the flash iff all other blocks were full and this one had room for one record |
| `FlashStore.SlackBound` | p6/prototype-serial/kernel/core.c:489-498 | Without a block due for collection at most 47 pages per data block are wasted |
| `FlashStore.FlushDueIff` | p6/prototype-serial/kernel/core.c:572-578 | A flush is due iff the clock value has grown by 1000000, counted in 64 bits when it went back |
| `FlashStore.FlushDueClock` | p6/prototype-serial/kernel/core.c:574-576 | In seconds and nanoseconds: exactly when; within a second, after a millisecond |
| `FlashStore.FlushLate` | p6/prototype-serial/kernel/core.c:574-576 | Two readings 499.5 seconds apart between which no flush becomes due |
| `StoreSpec.PutInv` | p6/prototype-serial/kernel/core.c:540-569 | The write of a set adds exactly the binding, and turns an old copy into one invalid page |
| `StoreSpec.SetSafeIf` | p6/prototype-serial/kernel/core.c:1163-1171 | A set cannot lead to a damaging collection if all records fit into pages_per_block bytes, or if fewer than 48 pages are wasted after it |
| `StoreSpec.Standing` | p6/prototype-serial/kernel/core.c:692-714 | The number of keys and of wasted pages says whether the store is full, or takes just one more record |
| `StoreSpec.CalmExact` | p6/prototype-serial/kernel/core.c:489-498 | Along every history, while the bounded map has wasted fewer than 48 pages, the store is that map |
| `StoreSpec.FewSetsExact` | p6/prototype-serial/kernel/core.c:508-591 | Along every history, while no more records have been set than there are pages, everything was stored |
| `StoreSpec.FewKeysExact` | p6/prototype-serial/kernel/core.c:508-591 | Along every history of any length, while the keys bound at a time plus 47 pages per data block are fewer than the data pages, everything was stored and the pages used stay below that sum |
| `StoreSpec.FillingAnswers` | p6/prototype-serial/kernel/core.c:581-582 | The bounded map's answers while it is filled: 0, then -3 for a record that is there |
| `Capacity.Conservation` | p6/prototype-serial/kernel/core.c:472-481 | Unwritten data pages, live records, invalid pages and metadata pages add up to the whole flash |
| `Capacity.LiveIsMap` | p6/prototype-serial/kernel/core.c:569-569 | The lists hold as many pages as the map has keys |
| `Capacity.FullIff` | p6/prototype-serial/kernel/core.c:692-714 | The store is read-only iff keys plus invalid pages are as many as the data pages, and takes just one more record iff they are one fewer |
| `Capacity.GarbageBound` | p6/prototype-serial/kernel/core.c:489-498 | Blocks with at most k invalid pages each: at most k per data block in all |
| `Config.InvUnique` | p6/prototype-serial/kernel/core.c:508-682 | A state stands for at most one map: the invariant determines its contents |
| `Config.RemoveAt` | p6/prototype-serial/kernel/core.c:479-480 | list_del takes one bucket out and keeps the order of the others |
| `Config.DeleteInv` | p6/prototype-serial/kernel/core.c:472-481 | Invalidating a valid bucket keeps the invariant and removes exactly its key from the map |
| `Config.EraseInv` | p6/prototype-serial/kernel/core.c:889-942 | Erasing a block without live pages keeps invariant and map |
| `Config.AppendInv` | p6/prototype-serial/kernel/core.c:561-569 | Writing a record for an absent key to the next page, indexing it and listing it keeps the invariant and adds exactly that binding |
| `Config.AppendSound` | p6/prototype-serial/kernel/hash.c:18-43 | Appending a page with any contents cannot fail and keeps the accounting |
| `Config.RoomForOne` | p6/prototype-serial/kernel/hash.c:18-43 | While one data page is unwritten the index has two free buckets, by counting live pages |
| `Record.HoldsDecodes` | p6/prototype-serial/kernel/core.c:632-640 | Lengths, key and value are read back exactly from a page that holds a record |
| `Record.EncodeHolds` | p6/prototype-serial/kernel/core.c:546-557 | The page built by set holds its record |
| `Bytes.Le32First` | p6/prototype-serial/kernel/core.c:551-553 | Integers in pages have their low byte first |
| `Record.HoldsUnique` | p6/prototype-serial/kernel/core.c:632-640 | A page holds at most one record |
| `ProbeTable.SearchExact` | p6/prototype-serial/kernel/hash.c:45-81 | Under the table invariant hash_search finds a key iff it is valid, and then its one slot, for any hash function |
| `ProbeTable.AddKeeps` | p6/prototype-serial/kernel/hash.c:18-43 | With two free slots an add stores the key in a free slot, reachable, and disturbs no other |
| `ProbeTable.AddExact` | p6/prototype-serial/kernel/hash.c:18-43 | An add fails iff the table is full; else it takes the first free slot of the path and marks dirty exactly the slots before it |
| `ProbeTable.MissCode` | p6/prototype-serial/kernel/hash.c:53-75 | A miss is -2 iff a clean slot comes up among the slots looked at, else -1 |
| `ProbeTable.ProbeStarts` | p6/prototype-serial/kernel/hash.c:24-26 | Probing starts at hash(key) modulo the size |
| `ProbeTable.InvalidateKeeps` | p6/prototype-serial/kernel/core.c:476-477 | Sticky dirty marks keep every other key reachable |
| `ProbeTable.RunExact` | p6/prototype-serial/kernel/hash.c:18-81 | After any interleaving of adds and drops search finds exactly the keys that a plain set would hold, as long as before each add that set has at least two keys fewer than there are slots |
| `ProbeTable.FewKeysRoom` | p6/prototype-serial/kernel/hash.c:26-35 | Two slots more than live keys means two free slots |
| `ProbeTable.AddFoundIff` | p6/prototype-serial/kernel/hash.c:53-59 | A successful add can be found again iff some slot other than the last of its path was free |
| `ProbeTable.AddHidesKey` | p6/prototype-serial/kernel/hash.c:53-59 | A table where add succeeds and the search misses the key |
| `StringHash.Hash` | p6/prototype-serial/kernel/hash.c:5-16 | The 32-bit wrapping loop equals a polynomial in 33 reduced once |
| `StringHash.CharValueIs` | p6/prototype-serial/kernel/hash.c:8-12 | A character counts as the signed value with its eight bits |
| `StrideBuffer.CopyExactIff` | p6/prototype-serial/kernel/core.c:1163-1228 | Every record passes the strided buffer intact iff each survives the overlay by its successors |
| `StrideBuffer.RefreshParts` | p6/prototype-serial/kernel/core.c:1203-1206 | Storing a record again in the buffer writes its lengths, and each string up to its first NUL, then zeros |
| `StrideDamage.CopyDamages` | p6/prototype-serial/kernel/core.c:1163-1171 | For every stride and page size, a block with a record two bytes or more too long, not the last, does not come back intact |
| `StrideDamage.DamageExists` | p6/prototype-serial/kernel/core.c:1163-1171 | Records and pages of that kind exist for every stride; StoreRuns.LoseRecord reaches such a block by a run |
| `StrideDamage.SurviveIff` | p6/prototype-serial/kernel/core.c:1163-1171 | With no record exactly one byte too long, all survive iff none is too long |
| `StrideDamage.NeverWritten` | p6/prototype-serial/kernel/core.c:1203-1206 | However earlier stores have changed the buffer, no page written equals a record that is too long |
| `StrideDamage.SwapsRecords` | p6/prototype-serial/kernel/core.c:1203-1206 | Two records that are one byte too long can come back as each other, all four records involved present |
| `StrideDamage.SwapExists` | p6/prototype-serial/kernel/core.c:1203-1206 | Four such records with different keys for blocks of 74 pages |
| `LiveRecords.CompactSafe` | p6/prototype-serial/kernel/core.c:1163-1171 | Records of at most pages_per_block bytes always survive |
| `LiveRecords.LiveAfterDelete` | p6/prototype-serial/kernel/core.c:1151-1190 | Invalidating the first record of the walk leaves the later ones as they were |
| `LiveRecords.NextWrite` | p6/prototype-serial/kernel/core.c:1203-1206 | Rewriting lengths, key and value in place does not alter a surviving record |
| `LostRecords.VerdictIff` | p6/prototype-serial/kernel/core.c:1099-1236 | Unless a record is exactly one byte too long, a collection keeps the map iff every record survives |
| `LostRecords.VerdictLost` | p6/prototype-serial/kernel/core.c:1099-1236 | After a collection that met a record two bytes or more too long, followed by another, the state does not stand for the map |
| `LostRecords.WriteStep` | p6/prototype-serial/kernel/core.c:1203-1206 | The stores of one record stay inside the buffer, and the page written holds no record that is too long |
| `Metadata.MetaFits` | p6/prototype-serial/kernel/core.c:194-251 | The metadata blocks always have room for the metadata, and always for more pages than the buffers of flush_metadata and init_scan have |
| `Metadata.MetaSizes` | p6/prototype-serial/kernel/core.c:194-198 | nb_meta_pages is the least number of pages with more bytes than the metadata, nb_meta_blocks the least number of blocks with more data pages than that |
| `Metadata.FlushedStays` | p6/prototype-serial/kernel/core.c:797-820 | Operations that keep metadata blocks keep the snapshot |
| `Metadata.UsedKeptInv` | p6/prototype-serial/kernel/core.c:383-440 | A change that keeps the index and the data blocks keeps the map |
| `Metadata.HeaderTells` | p6/prototype-serial/kernel/core.c:217-236 | A block header is read as metadata iff the block is in the snapshot's order, and then gives its position |
| `Metadata.ChoosingNext` | p6/prototype-serial/kernel/core.c:405-416 | Each choice leaves enough free blocks for the remaining ones |
| `Lottery.UpdateAccurate` | p3/linux-2.6.32.27/kernel/sched_lottery.c:59-95 | Whatever the sums were before, each node then holds the ticket sum of its subtree |
| `Lottery.LinkInOrder` | p3/linux-2.6.32.27/kernel/sched_lottery.c:104-124 | A task is linked after all tasks of at most its weight and before all heavier ones |
| `Lottery.LinkSorted` | p3/linux-2.6.32.27/kernel/sched_lottery.c:104-124 | Insertion keeps the in-order sequence sorted and adds exactly the task |
| `Lottery.LinkDepends` | p3/linux-2.6.32.27/kernel/sched_lottery.c:104-124 | The resulting order does not depend on the tree's shape |
| `Lottery.LinkNode` | p3/linux-2.6.32.27/kernel/sched_lottery.c:104-120 | The descent with rb_link_node equals the recursive insertion |
| `Lottery.ListFair` | p3/linux-2.6.32.27/kernel/sched_lottery.c:191-213 | Over the lucky tickets 1..total each task wins exactly as often as it holds tickets, in any order, and some task always wins |
| `Lottery.TreeDrawIsListDraw` | p3/linux-2.6.32.27/kernel/sched_lottery.c:126-176 | On any shape with correct sums the tree draw picks what the list draw picks from the in-order sequence, for every lucky ticket |
| `Lottery.TreeFair` | p3/linux-2.6.32.27/kernel/sched_lottery.c:135-176 | The tree draw is exactly fair and always has a winner |
| `Lottery.LuckyCounts` | p3/linux-2.6.32.27/kernel/sched_lottery.c:135-137 | The lucky ticket counts up from 1 with the random number and starts again after the total |
| `Lottery.WindowFair` | p3/linux-2.6.32.27/kernel/sched_lottery.c:191-213 | Of any total consecutive random numbers, each task wins for exactly as many as it holds tickets |
| `Lottery.GeneratorFair` | p3/linux-2.6.32.27/kernel/sched_lottery.c:191-213 | Over all n values of the generator each task wins for its share up to one count of its tickets, and exactly for its share when total divides n |
| `Lottery.ListPickFair` | p3/linux-2.6.32.27/kernel/sched_lottery.c:191-213 | The same window of random numbers, stated on what pick_winner_task answers |
| `Lottery.TreePickFair` | p3/linux-2.6.32.27/kernel/sched_lottery.c:126-176 | And on what pick_winner_rb_task answers, for every tree shape |
| `Lottery.PickWinnerTask` | p3/linux-2.6.32.27/kernel/sched_lottery.c:191-213 | The answer is that of the list draw for the lucky ticket of this random number, for which ListPickFair is proved; with the right total it is never NULL |
| `Lottery.PickWinnerRb` | p3/linux-2.6.32.27/kernel/sched_lottery.c:126-176 | The answer is that of the tree draw for the lucky ticket of this random number, for which TreePickFair is proved |
| `Lottery.RunQueue.Enqueue` | p3/linux-2.6.32.27/kernel/sched_lottery.c:269-289 | Total, root sum, count and order stay right for any rebalancing; exactly this task is added |
| `Lottery.RunQueue.Dequeue` | p3/linux-2.6.32.27/kernel/sched_lottery.c:291-317 | The same for removal, for any rebalancing; exactly this task is removed |
| `Lottery.RunQueue.SetScheduler` | p3/linux-2.6.32.27/kernel/sched.c:6594-6636 | A ticket change re-sorts the task and moves the total by the difference |
| `Lottery.RunQueue.Draw` | p3/linux-2.6.32.27/kernel/sched_lottery.c:126-176 | A draw answers what pick_winner_task would answer on the queue in order, and is never NULL when the queue has tasks |
| `Lottery.RunQueue.Run` | p3/linux-2.6.32.27/kernel/sched_lottery.c:269-317 | Over every run total_ticket = root sum = sum of tickets, nr_running = number queued, the order is sorted, and the queue holds exactly the tasks and tickets of a plain book |
| `GroupWalk.WalkTgTree` | p3/linux-2.6.32.27/kernel/sched.c:1512-1542 | Terminates on every tree and makes the visits of the recursive pre/post-order traversal, with the same early exit, for all visitors |
| `GroupWalk.TraverseVisits` | p3/linux-2.6.32.27/kernel/sched.c:1512-1542 | A visitor that notes its visits gets every group before and after its children, these from left to right, cut at the first answer that is not 0 |
| `GroupWalk.VisitsAll` | p3/linux-2.6.32.27/kernel/sched.c:1512-1542 | On the way down the walk passes every group of the tree, and nothing else |
| `RtBandwidth.ToRatioExactIff` | p3/linux-2.6.32.27/kernel/sched.c:10422-10428 | The ratio is the true one iff the runtime is below 2^44 ns |
| `RtBandwidth.ToRatioValue` | p3/linux-2.6.32.27/kernel/sched.c:10422-10428 | No limit counts as 1 << 20; any other runtime as its shifted value in 64 bits divided by the period, rounded down |
| `RtBandwidth.ToRatioWraps` | p3/linux-2.6.32.27/kernel/sched.c:10422-10428 | A group that asks for all of its 17592186045 us is accounted as zero |
| `RtBandwidth.WalkZeroIff` | p3/linux-2.6.32.27/kernel/sched.c:10512-10521 | The walk returns 0 iff every group passes the visitor |
| `RtBandwidth.VisitorExact` | p3/linux-2.6.32.27/kernel/sched.c:10449-10510 | The visitor passes a group iff the changed tree obeys the constraints there |
| `RtBandwidth.VisitorCodes` | p3/linux-2.6.32.27/kernel/sched.c:10449-10510 | -EINVAL for a runtime above the period, -EBUSY for RT tasks without runtime, else -EINVAL for a share above the limit or below the children's |
| `RtBandwidth.WalkErrorIs` | p3/linux-2.6.32.27/kernel/sched.c:10512-10521 | The walk returns the error of the first group, in its order, that does not pass |
| `RtBandwidth.AdmitIff` | p3/linux-2.6.32.27/kernel/sched.c:10449-10521 | A change is admitted iff in the changed tree every group is within the global limit, covers its children's sum, and starves no RT task |
| `RtBandwidth.AboveHasMore` | p3/linux-2.6.32.27/kernel/sched.c:10449-10510 | In a nested tree no group has more than any group above it |
| `RtBandwidth.UnlimitedRefused` | p3/linux-2.6.32.27/kernel/sched.c:10422-10428 | A group without limit is refused under any limit, and below any group, of less than the whole |
| `RtBandwidth.UpdateAt` | p3/linux-2.6.32.27/kernel/sched.c:10533-10535 | A change is of that group and of no other |
| `RtBandwidth.FitsIff` | p3/linux-2.6.32.27/kernel/sched.c:10486-10507 | A nested tree is within the global limit iff its root is |
| `RtBandwidth.TrapIff` | p3/linux-2.6.32.27/kernel/sched.c:10471-10489 | A walk under a limit with period 0 divides by zero iff the root passes the first two tests |
| `RtBandwidth.LeavesWithinRoot` | p3/linux-2.6.32.27/kernel/sched.c:10449-10510 | The leaves of a nested tree sum to at most its root's ratio |
| `RtBandwidth.LeafWithin` | p3/linux-2.6.32.27/kernel/sched.c:10449-10510 | No leaf has more than all leaves together |
| `RtBandwidth.SumAdditive` | p3/linux-2.6.32.27/kernel/sched.c:10491-10501 | The sum of the children's ratios is additive and each child counts once |
| `RtBandwidth.AddKidNested` | p3/linux-2.6.32.27/kernel/sched.c:10222-10257 | A new group fits anywhere |
| `RtBandwidth.AddKidAt` | p3/linux-2.6.32.27/kernel/sched.c:10222-10257 | The new group is there, the first child of its parent |
| `RtBandwidth.AddKidOthers` | p3/linux-2.6.32.27/kernel/sched.c:10222-10257 | Every other group keeps its values and its children |
| `RtBandwidth.CreateCommutes` | p3/linux-2.6.32.27/kernel/sched.c:10222-10257 | Creating a group and changing another one give the same tree in either order |
| `RtLimits.LimitHoldsIff` | p3/linux-2.6.32.27/kernel/sched.c:10523-10692 | Over every interleaving of group creations, group changes (walk and installation apart, creations in between allowed) and the three steps of the limit handler: ratios are always nested and the leaves sum to at most the root's; whenever the handler is idle, the whole tree is within the limit in force iff what the root was last given by a change admitted inside a handler's window, if nothing has superseded it, is |
| `RtLimits.QuietRunFits` | p3/linux-2.6.32.27/kernel/sched.c:10523-10692 | If no root change is admitted inside a window, the limit in force always holds when the handler is idle; changes of other groups do no harm at any moment |
| `RtLimits.LimitValue` | p3/linux-2.6.32.27/kernel/sched.c:889-900 | A sane limit is runtime shifted by 20 over period, rounded down; a negative runtime is the whole |
| `RtLimits.UnlimitedNotAdmitted` | p3/linux-2.6.32.27/kernel/sched.c:10523-10563 | A runtime of -1 is not admitted while the limit or a group above has less than the whole |
| `RtLimits.TransientLimitLeaks` | p3/linux-2.6.32.27/kernel/sched.c:10664-10692 | A run that ends with the old limit restored and the root above it |
| `RtLimits.ZeroPeriodTraps` | p3/linux-2.6.32.27/kernel/sched.c:10422-10428 | A run in which a group change divides by a published period of 0 |
| `RtLimits.RtGroups.RtSchedulable` | p3/linux-2.6.32.27/kernel/sched.c:10512-10521 | 0 iff the changed tree fits and starves no RT task; traps iff it divides by a zero period |
| `RtLimits.RtGroups.TgSetBandwidth` | p3/linux-2.6.32.27/kernel/sched.c:10523-10551 | Undisturbed: succeeds iff the changed tree fits and starves no RT task, and then installs it; else nothing changes; the error is that of the walk |
| `RtLimits.RtGroups.SetRtRuntime` | p3/linux-2.6.32.27/kernel/sched.c:10553-10563 | Installs the runtime in nanoseconds, wrapped to 64 bits, iff the changed tree is admissible; else nothing changes; the error is that of the walk |
| `RtLimits.RtGroups.SetRtPeriod` | p3/linux-2.6.32.27/kernel/sched.c:10577-10588 | The same for the period; a period of zero is refused; the error is that of the walk |
| `RtLimits.RtGroups.GlobalConstraints` | p3/linux-2.6.32.27/kernel/sched.c:10599-10623 | 0 iff the global limit is sane and the tree fits it; -EINVAL for an insane one, else the error of the walk |
| `RtLimits.RtGroups.SchedRtHandler` | p3/linux-2.6.32.27/kernel/sched.c:10664-10692 | Undisturbed: keeps the new limit iff it is admissible and returns the check's error; otherwise everything is as before |
| `RtLimits.RtGroups.Run` | p3/linux-2.6.32.27/kernel/sched.c:10422-10692 | The code makes exactly the steps of the interleaving, so the exact condition of LimitHoldsIff holds of it |
| `Completion.WakeUpCommon` | p3/linux-2.6.32.27/kernel/sched.c:5858-5870 | The scan computes WakeFrom, for which WakeOne, WakeFirst and WakeAll are proved |
| `Completion.WakeOne` | p3/linux-2.6.32.27/kernel/sched.c:5858-5870 | One wake-up makes one more waiter awake unless all were |
| `Completion.WakeFirst` | p3/linux-2.6.32.27/kernel/sched.c:5858-5870 | It wakes the first sleeper in order and nobody behind it |
| `Completion.WakeAll` | p3/linux-2.6.32.27/kernel/sched.c:5982-5990 | Zero means everybody |
| `Completion.CompleteWakes` | p3/linux-2.6.32.27/kernel/sched.c:5962-5970 | complete adds one token modulo 2^32 and wakes the first sleeper and everybody before it, nobody behind it; without a sleeper everybody is awake |
| `Completion.CompleteAllWakes` | p3/linux-2.6.32.27/kernel/sched.c:5982-5990 | complete_all adds UINT_MAX/2 tokens and wakes everybody |
| `Completion.OthersMove` | p3/linux-2.6.32.27/kernel/sched.c:5993-6017 | A waiter joins at the tail, leaves from its place with a token, at a timeout or by a signal, and else goes to sleep or wakes as its event says; the others keep their order |
| `Completion.StepCounts` | p3/linux-2.6.32.27/kernel/sched.c:5962-6017 | Every step changes the counter by the tokens given less the token taken, and the queue by those who join and leave |
| `Completion.StepNoLost` | p3/linux-2.6.32.27/kernel/sched.c:5962-6017 | Every step keeps at least min(done, queued) waiters awake |
| `Completion.RunKeeps` | p3/linux-2.6.32.27/kernel/sched.c:5962-6017 | In every interleaving, with timeouts, signals and late arrivals: no lost wake-up; tokens given, counted from the events, equal tokens there plus successful waits modulo 2^32; the queue is those who joined less those who left |
| `Completion.ExactBalance` | p3/linux-2.6.32.27/kernel/sched.c:5962-6017 | Without complete_all, the number of complete events is done plus the number of successful waits |
| `Completion.SomebodyComes` | p3/linux-2.6.32.27/kernel/sched.c:5993-6017 | A token and a waiter never sit idle together |
| `Completion.ComerGets` | p3/linux-2.6.32.27/kernel/sched.c:5993-6017 | An awake waiter that gets the lock while there is a token takes it and leaves, whether its time is up or not |
| `RunqueueLocks.RunInv` | p3/linux-2.6.32.27/kernel/sched.c:1801-1837 | In every reachable state a CPU that waits for a lock holds only lower ones, and locks exclude each other |
| `RunqueueLocks.LocksAcquired` | p3/linux-2.6.32.27/kernel/sched.c:3204-3240 | From every reachable state, a CPU that calls double_rq_lock, either balance variant or a plain lock holds exactly the locks of that call when it goes on, whatever the others do meanwhile |
| `RunqueueLocks.WaitingKeepsGoal` | p3/linux-2.6.32.27/kernel/sched.c:3204-3240 | A waiting CPU takes the lock it waits for when that is free, then asks for the next, and can do nothing else |
| `RunqueueLocks.StepLocal` | p3/linux-2.6.32.27/kernel/sched.c:3204-3240 | A step of one CPU leaves all others as they are |
| `RunqueueLocks.UnfairKeeps` | p3/linux-2.6.32.27/kernel/sched.c:1818-1835 | The unfair variant takes a free lock at once; else it keeps its own lock iff that is the lower one |
| `RunqueueLocks.BothLocked` | p3/linux-2.6.32.27/kernel/sched.c:3204-3222 | Undisturbed, double_rq_lock ends with both locks, in either order of the arguments |
| `RunqueueLocks.UnlockGives` | p3/linux-2.6.32.27/kernel/sched.c:3230-3240 | Unlocking gives up exactly that lock |
| `RunqueueLocks.NoCycle` | p3/linux-2.6.32.27/kernel/sched.c:3204-3240 | No reachable state has a cycle of waiters, for any number of CPUs and both variants |
| `RunqueueLocks.AlwaysProgress` | p3/linux-2.6.32.27/kernel/sched.c:3204-3240 | Whenever a CPU waits, some CPU can take its lock or is running with one |
| `LoadAccounting.StepSameBooks` | p3/linux-2.6.32.27/kernel/sched.c:2022-2041 | Every step changes the counters' sum and the number of sleepers alike, modulo 2^64 |
| `LoadAccounting.StepTasks` | p3/linux-2.6.32.27/kernel/sched.c:2022-2041 | After each event the task it is about is on or off its queue, on the CPU and in the state that the event says; no other task changes |
| `LoadAccounting.StepCounters` | p3/linux-2.6.32.27/kernel/sched.c:2022-2041 | Each event changes exactly the counters of the CPUs it must, by one, or by the merged count |
| `LoadAccounting.PullBalanced` | p3/linux-2.6.32.27/kernel/sched.c:3284-3291 | Migration of a queued task keeps the books although single counters may drift |
| `LoadAccounting.WakeBalanced` | p3/linux-2.6.32.27/kernel/sched.c:2484-2490 | So does a wake-up that decrements another CPU's counter |
| `LoadAccounting.MergeBalanced` | p3/linux-2.6.32.27/kernel/sched.c:7563-7574 | So does merging a dead CPU's counter |
| `LoadAccounting.RunBalanced` | p3/linux-2.6.32.27/kernel/sched.c:2022-2041 | Over every run the sum of the counters is the number of off-queue tasks that contribute to load |
| `LoadAccounting.NrUninterruptible` | p3/linux-2.6.32.27/kernel/sched.c:3042-3055 | The clamped wrapped sum is exactly that number |
| `LoadAccounting.UpdateCpuLoad` | p3/linux-2.6.32.27/kernel/sched.c:3165-3188 | All five averages become NextLoad of their old values, for which TickShrinksGap is proved; the scales are 1, 2, 4, 8 and 16 |
| `LoadAccounting.TickShrinksGap` | p3/linux-2.6.32.27/kernel/sched.c:3165-3188 | The distance to the load shrinks to exactly (scale - 1)/scale of itself, rounded down, strictly and without overshoot |
| `LoadAccounting.LoadConverges` | p3/linux-2.6.32.27/kernel/sched.c:3165-3188 | Under a constant load the average equals it after at most as many ticks as the distance, at every scale |
| `LoadAccounting.StuckWithoutRounding` | p3/linux-2.6.32.27/kernel/sched.c:3180-3187 | Without the rounding up a rising average would stop short iff it is closer than the scale |

## Left out

- FlashStore.Store.Run (and StoreRuns.RunFromFirstMount): each operation must come while fewer than 48 pages are wasted or after nothing but records of at most pages_per_block bytes, which a caller can tell from the operations; what happens otherwise is stated per step (FlashStore.Store.Step, FlashStore.Store.Gc), since after a damaging collection a later one may search for a key that is not indexed. Worn counters stay below the C int limit for the length of the run, which bounds its length by 2^30 operations.
- FlashStore.Store.Set: the clock value is at least 1000000 (one second past the epoch), so the first set flushes.
- FlashStore.Store.Gc: for a block with a record exactly one byte too long that does not survive, and none longer, it is not stated whether the map is kept; either can happen (StrideDamage.SwapsRecords).
- FlashStore.Store.GcMerge: the is_gb flag and the locks around it are not modelled; metadata blocks are skipped by the list meta_blkordr as a whole.
- FlashStore.Store.Flush: the layout of the two tables in memory is an arbitrary function of their values, and the bytes read past the buffer are a parameter.
- FlashStore.Store.constructor: the first mount of a blank flash with more blocks than the metadata needs; a later user format, which does not reset meta_blkordr, is not modelled.
- FlashStore.Store.GetNextPage: the error paths of a store without a writable block are unreachable here, as flash operations succeed.
- Geometry: pages_per_block is at most the page size, as the copy buffer of gc would otherwise be overrun; keys are C strings shorter than 128 bytes, values C strings.
- The MTD driver, erase callback, semaphores, timers, ioctl device and user tools; flash reads, writes and erases succeed, allocations too.
- Behaviour after a remount beyond equality of the snapshot; move_pages_to_other_block, which is not reached because every chosen metadata block is erased.
- The rest of the parallel prototype and the vanilla prototype.
- Lottery.RunQueue: the tree is a value held in a field, so pointer aliasing is not captured; rb_insert_color and rb_erase are any reshaping that keeps the in-order sequence.
- Lottery.RunQueue.SetScheduler: one run queue, tree configuration and a queued task of the lottery class; the list-mode loop of prio_changed_lottery and changes of scheduling class are not modelled.
- Lottery.PickWinnerRb: the random number is a parameter, and total_ticket is unbounded.
- RtLimits.LimitHoldsIff: a walk over the tree is one step and sees one limit and one tree; the sum of ratios is unbounded; group destruction, per-CPU rt_rq runtimes and CONFIG_USER_SCHED are not modelled.
- Completion.ExactBalance: below 2^32 completions, where the counter does not wrap; RunKeeps covers the wrapping counter.
- Completion: critical sections under the wait-queue lock are atomic, and all waiters are exclusive.
- RunqueueLocks: locks are numbered in address order, a CPU is inside one locking function at a time, and interrupts are ignored.
- LoadAccounting.RunBalanced: a sleeping task does not start or stop contributing to load while it sleeps.
- LoadAccounting.UpdateCpuLoad: loads are unbounded; the 64-bit product is not wrapped.
- Hotplug, cgroup files, sysctl tables, context switch and the other scheduling classes; the syscall, procfs and measurement projects p1, p2, p4 and p5.
