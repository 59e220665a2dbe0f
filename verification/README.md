# Znu kernel: verified core

A Dafny model of the parts of the Znu kernel that carry its correctness: the buddy allocator behind
the physical page allocator, four-level page tables, the scheduler and process lifecycle, the LZ4,
Huffman and PNG decoders, the slab allocator, the mutex and reader/writer lock, and the terminal line
discipline. Code that updates state in place is modelled by classes, arrays and loops, and each such
method is proved against a specification on values; whole runs are proved about those specifications.
`dafny verify dfyconfig.toml` checks the whole project.

## How it is organised

- **Buddy allocator** (`include/buddy.h`). Three layers: the set of allocated nodes, the status of
  every tree node, and the byte bitset. `BuddyStatus` proves that the statuses are a function of the
  allocated set (`ExactUnique`) and say how far below a node the nearest free position is
  (`StatusMeaning`). `BuddyLayout` and `BuddyTree` prove that the packed unary fields refine the
  statuses, `BuddyResize` that growing and shrinking move whole rows inside one bitset without losing a
  bit, `BuddySpan`, `BuddyArena`, `BuddyWalk` and `BuddyRuns` carry this up to addresses, arenas of any
  aligned size, and runs of malloc, free, realloc and stores.
- **Page tables** (`mm/vmm.c`, `mm/mappage.c`, `mm/unmappage.c`). Memory is a map from frame numbers to
  512 words. `PageTables` and `PageMapping` give every table a place in a tree and prove what each
  operation does to the leaf of every page. `AddressSpaces` proves deep copy and teardown.
- **Scheduler** (`kernel/sched.c`). `Scheduler` refines the table operations, `SchedulerRuns` proves the
  lifecycle invariants and bounded waiting over every run.
- **Decoders.** `Lz4`, `Lz4Frame`, `Huffman`, `BitReversal`, `HuffmanTables`, `ZStream`, `Png`.
- **Smaller cores.** `Slab`, `Mutex`, `RwLock`, `Tty`.

Where the code differs from what one would expect, the model follows the code:

- `ceiling_power_of_two` is exact up to 2^63 and only there (`Arith.CeilingPow2Exact`).
- `buddy_walk` is documented as iterating over free and allocated slots; the code reports allocated
  blocks only (`BuddyWalk.ReportBlocks`).
- A legacy LZ4 frame without blocks and without an end mark is rejected as too short; all other frames
  that fit the output decode (`Lz4Frame.LegacyRoundTrip`, `Lz4Frame.EmptyLegacyRejected`).
- Every failed round of `rwlock_write_lock` leaves `pending_writers` one higher, so a reader is admitted
  exactly when no writer is inside and no write attempt ever failed (`RwLock.ReadAdmittedIff`).
  A run in which nobody is inside and a reader is refused is given (`RwLock.RefusedWhenFree`).
- A registered mutex waiter gets the mutex exactly when it is the only one left (`Mutex.WaiterAcquiresIff`).
  Three processes can reach a free mutex with two waiters (`Mutex.StuckReachable`), and from there, unless
  a wait times out, nobody ever acquires it again (`Mutex.StuckForever`).
- `buddy_realloc` of an address that is no live block may find a partially used node. If the search then
  fails, restoring the mark makes the statuses those of no set of blocks at all: exactly if the node is
  not a block itself (`BuddyStatus.RestoreIff`), for example with four slots, slot 1 allocated, and the
  address of slot 0 (`BuddyStatus.RestoreBreaks`).
- A terminal line that fills its buffer is dropped together with the character that did not fit; the
  characters behind it start a new line, so an over-long line is not dropped whole
  (`Tty.LongLineDropped`, `Tty.LongLineTail`).

## Model

| member | source | states |
|---|---|---|
| `Arith.HighestBitPosition` | include/buddy.h:2176-2196 | the halving search returns the number of binary digits, for every 64-bit value |
| `Arith.CeilingPow2Exact` | include/buddy.h:2198-2201 | the result is the least power of two not below the argument if and only if the argument is at most 2^63 |
| `Arith.LeastPow2Unique` | include/buddy.h:2198-2201 | there is only one least power of two, so the statement above determines the result |
| `Bitset.Test` | include/buddy.h:2036-2040 | reads bit `pos` of the bit sequence the bytes stand for |
| `Bitset.Put` | include/buddy.h:2024-2034 | sets or clears exactly one bit |
| `Bitset.CharMaskOf` | include/buddy.h:2042-2051 | every entry of the mask table has exactly the bits from its row to its column |
| `Bitset.ToRange` | include/buddy.h:2053-2061 | bucket and index of both ends denote the given positions |
| `Bitset.FillRange` | include/buddy.h:2063-2092 | set and clear of a range change exactly the bits of the range, in one bucket or across many |
| `Bitset.CountRange` | include/buddy.h:2094-2107 | the masked population counts add up to the number of set bits in the range |
| `Bitset.ShiftLeft` | include/buddy.h:2109-2120 | the bits of the range move down by the distance and leave cleared places behind, although source and target overlap; every other bit is kept |
| `Bitset.ShiftRight` | include/buddy.h:2122-2134 | the bits of the range and the one behind it move up by the distance and leave cleared places behind, although source and target overlap; every other bit is kept |
| `BuddyLayout.SizeForOrder` | include/buddy.h:1423-1432 | the summing loop gives the number of bits of all wider rows |
| `BuddyLayout.RowStartClosed` | include/buddy.h:1423-1432 | closed form of the row start |
| `BuddyLayout.PositionIsLoc` | include/buddy.h:1434-1444 | row start plus offset in the row equals the sum of the widths of all earlier nodes |
| `BuddyLayout.InternalPositionOrder` | include/buddy.h:1434-1444 | width and bit location of a node |
| `BuddyLayout.LocOrdered` | include/buddy.h:1434-1456 | distinct nodes occupy disjoint bit ranges, in node order |
| `BuddyLayout.LocInBounds` | include/buddy.h:1458-1470 | every node's bits lie inside the bitset |
| `BuddyLayout.MemoTableFits` | include/buddy.h:1458-1470 | the size memo table neither overlaps the bitset nor exceeds the allocation, for any order |
| `BuddyStatus.StatusMeaning` | include/buddy.h:1931-1941 | a status is at most k exactly when some position k levels below the node has nothing allocated at, above or below it inside the subtree |
| `BuddyStatus.RootStatus` | include/buddy.h:1814-1860 | the root status decides whether any position of a depth is available |
| `BuddyStatus.ZeroIff` | include/buddy.h:1931-1941 | a status is 0 exactly when nothing below the node is allocated |
| `BuddyStatus.ExactUnique` | include/buddy.h:1931-1941 | the per-node rule determines all statuses from the allocated set |
| `BuddyStatus.ChainExact` | include/buddy.h:1789-1812 | repairing the ancestors of one changed node, with the early return, makes every status exact again |
| `BuddyStatus.MarkExact` | include/buddy.h:1761-1770 | marking an available node keeps all statuses exact |
| `BuddyStatus.ReleaseExact` | include/buddy.h:1772-1787 | releasing an allocated node keeps all statuses exact |
| `BuddyStatus.ReleaseIff` | include/buddy.h:1772-1787 | releasing a fully used position leaves the statuses of some set of blocks exactly if the position was a block |
| `BuddyStatus.RestoreIff` | include/buddy.h:866-874 | what a failing realloc does to the statuses: they are restored if the position was a block, and those of no set of blocks otherwise |
| `BuddyStatus.RestoreBreaks` | include/buddy.h:866-874 | four slots with slot 1 allocated: realloc of the address of slot 0 that cannot be served corrupts the tree |
| `BuddyStatus.ReleaseUndoesMark` | include/buddy.h:1761-1787 | release after mark restores every status |
| `BuddyStatus.RunExact` | include/buddy.h:1761-1812 | over every run of legal marks and releases all statuses stay exact and blocks stay apart |
| `BuddyTree.WriteEncodes` | include/buddy.h:1677-1690 | writing one unary field changes that node's status and no other |
| `BuddyTree.SameBlocksSameBits` | include/buddy.h:1761-1787 | the bits are a function of the allocated nodes, so release after mark restores them bit for bit |
| `BuddyTree.Tree.constructor` | include/buddy.h:1472-1481 | zeroed memory is the empty tree |
| `BuddyTree.Tree.PopulateSizes` | include/buddy.h:1660-1675 | the memo table holds the row starts |
| `BuddyTree.Tree.InternalPositionTree` | include/buddy.h:1446-1456 | the memo table gives the same place as the fresh computation |
| `BuddyTree.Tree.Read` | include/buddy.h:1692-1697 | counting the bits of a field yields the node's status |
| `BuddyTree.Tree.Compare` | include/buddy.h:1699-1701 | the single bit means "status at least v" |
| `BuddyTree.Tree.Write` | include/buddy.h:1677-1690 | changes the status of one node; all other nodes and the bits behind the tree are kept |
| `BuddyTree.Tree.Status` | include/buddy.h:1756-1759 | reads the status of a position |
| `BuddyTree.Tree.UpdateParentChain` | include/buddy.h:1789-1812 | the loop in the bitset computes the chain repair of the statuses |
| `BuddyTree.Tree.MarkStatuses` | include/buddy.h:1761-1770 | effect of mark on the statuses at any position |
| `BuddyTree.Tree.Mark` | include/buddy.h:1761-1770 | an available position becomes allocated, exactness is kept |
| `BuddyTree.Tree.ReleaseStatuses` | include/buddy.h:1772-1787 | effect of release at any position, and the partially-used result with nothing changed |
| `BuddyTree.Tree.Release` | include/buddy.h:1772-1787 | for every position: releases a fully used one or reports partial use and changes nothing; the tree stays valid exactly if the position was a block or was not fully used |
| `BuddyTree.Tree.PickChild` | include/buddy.h:1828-1858 | one descent step reaches a child with something free deep enough |
| `BuddyTree.Tree.FindFree` | include/buddy.h:1814-1860 | sound and complete: an available position of the depth if there is one anywhere, the invalid position only if there is none |
| `BuddyTree.Tree.IsFree` | include/buddy.h:1862-1876 | true exactly when the position is available |
| `BuddyResize.GrowExact` | include/buddy.h:1499-1542 | hanging the tree under the left child of a new root is exact for the lifted blocks |
| `BuddyResize.GrowOnce` | include/buddy.h:1499-1542 | moving the rows in place re-embeds the old tree as the left subtree with the right half free |
| `BuddyResize.Grow` | include/buddy.h:1499-1542 | reaches the desired order, lifting every block once per order |
| `BuddyResize.CanShrinkIff` | include/buddy.h:1878-1891 | right child 0 and root not full means that everything allocated is in the left half |
| `BuddyResize.CanShrink` | include/buddy.h:1878-1891 | the test on the bitset decides that |
| `BuddyResize.ShrinkExact` | include/buddy.h:1544-1582 | dropping root and right half keeps exactly the left subtree |
| `BuddyResize.ShrinkOnce` | include/buddy.h:1544-1582 | moving the rows in place keeps exactly the left subtree, or changes nothing if the right half is in use |
| `BuddyResize.Shrink` | include/buddy.h:1544-1582 | stops at the desired order or where the right half is in use; growing back gives the old blocks |
| `BuddyResize.ShrinkUndoesGrow` | include/buddy.h:1499-1582 | shrinking after growing restores statuses and blocks |
| `BuddySpan.ApartSpan` | include/buddy.h:1147-1151 | nodes on different paths stand for disjoint slots |
| `BuddySpan.UnderSpan` | include/buddy.h:1147-1151 | a node below another stands for part of its slots |
| `BuddyArena.OrderForMemory` | include/buddy.h:765-769 | the tree is just large enough for the arena |
| `BuddyArena.ValidAlignmentIff` | include/buddy.h:761-763 | the alignment test accepts exactly the powers of two |
| `BuddyArena.DepthForSizeFits` | include/buddy.h:1112-1128 | the chosen depth exists and its blocks are the smallest that hold the request |
| `BuddyArena.PositionOffsetIs` | include/buddy.h:1126-1151 | address and size computed from a position are those of its slots |
| `BuddyArena.MaskOnce` | include/buddy.h:1203-1252 | one round of masking: mark and stop, descend right, or mark right and descend left |
| `BuddyArena.MaskVirtualSlots` | include/buddy.h:1203-1252 | masks exactly the slots behind the end of the arena, for any aligned size |
| `BuddyArena.Init` | include/buddy.h:550-594 | rejects exactly the bad arguments, otherwise an empty allocator over the trimmed arena with exactly the surplus slots masked |
| `BuddyArena.Buddy.constructor` | include/buddy.h:550-594 | a masked tree over an arena is a valid empty allocator |
| `BuddyArena.AvailableInside` | include/buddy.h:771-807 | whatever the search can return lies inside the arena |
| `BuddyArena.LiveDisjoint` | include/buddy.h:771-934 | live blocks are pairwise disjoint byte ranges |
| `BuddyArena.LiveInside` | include/buddy.h:771-934 | a live block lies inside the arena and is aligned to its own size |
| `BuddyArena.OffsetUnique` | include/buddy.h:1160-1190 | at most one live block starts at an address |
| `BuddyArena.Buddy.DeepestPositionForOffset` | include/buddy.h:1153-1158 | the leaf that every block starting at the offset contains |
| `BuddyArena.FirstUsedAbove` | include/buddy.h:1175-1183 | climbing from the leaf finds the only allocated node above it, or a node that is not fully used |
| `BuddyArena.Buddy.PositionForAddress` | include/buddy.h:1160-1190 | finds the live block at the address; otherwise the result is invalid or cannot be released, and never a masked node |
| `BuddyArena.Buddy.Search` | include/buddy.h:771-807 | a position that fits the request and is available, or none exists |
| `BuddyArena.Buddy.Malloc` | include/buddy.h:771-807 | succeeds exactly when a fitting block is available; the block is fresh, large enough and of the smallest kind; failure changes nothing |
| `BuddyArena.Buddy.Free` | include/buddy.h:907-934 | releases exactly the live block starting at the address, or changes nothing |
| `BuddyArena.Buddy.Resize` | include/buddy.h:850-893 | realloc of a live block to a nonzero size; on failure the old block, all bytes and all bits are as before |
| `BuddyArena.Buddy.Realloc` | include/buddy.h:830-893 | all cases of realloc on null or a live pointer, with the common prefix copied and every other byte kept |
| `BuddyArena.MemMove` | include/buddy.h:883-888 | copies inside one array, overlapping or not, and keeps all other bytes |
| `BuddyWalk.Walk` | include/buddy.h:1734-1754 | moves to the next node in preorder, or behind the subtree of a skipped node, or reports the end |
| `BuddyWalk.FreePlusUsed` | include/buddy.h:741-759 | free slots read off the statuses and used slots make up every node |
| `BuddyWalk.Conservation` | include/buddy.h:741-759 | free slots plus the spans of the live blocks are the slots of the arena |
| `BuddyWalk.ArenaFreeSize` | include/buddy.h:741-759 | the walk returns the arena size minus the sum of the live block sizes |
| `BuddyWalk.BlockTest` | include/buddy.h:1047-1062 | fully used without a used left child means directly allocated |
| `BuddyWalk.IsBlock` | include/buddy.h:1047-1062 | the tests at one node decide whether it is allocated |
| `BuddyWalk.BlockAt` | include/buddy.h:1065-1077 | address and size of the block, and that it reaches behind the arena exactly if it is masked |
| `BuddyWalk.ReportFrom` | include/buddy.h:1023-1085 | the loop lists the allocated nodes left to right up to the first answer of the callback, the first masked node or the end |
| `BuddyWalk.ReportMeaning` | include/buddy.h:1023-1085 | a listing of the live nodes from left to right is a report of the live blocks in address order |
| `BuddyWalk.ReportBlocks` | include/buddy.h:1023-1085 | the callback is called along the report of all live blocks, each once and in address order with address and size, up to its first answer, which is returned, or to the end |
| `BuddyRuns.MallocIsStep` | include/buddy.h:771-807 | every successful malloc is an allocation step of a run, on an available block that holds the request; every failing one changes nothing |
| `BuddyRuns.FreeIsStep` | include/buddy.h:907-934 | every free of a live block is its release step, every other free changes nothing |
| `BuddyRuns.ReallocIsStep` | include/buddy.h:830-893 | every realloc of a live block is a move, copying or not, a release for size zero, or changes nothing; on null it is an allocation step |
| `BuddyRuns.StepKeeps` | include/buddy.h:771-934 | every operation keeps the partition of the arena |
| `BuddyRuns.StepIsolated` | include/buddy.h:771-934 | an operation of one owner leaves every other block live with its bytes |
| `BuddyRuns.MoveKeepsPrefix` | include/buddy.h:830-893 | realloc keeps the common prefix of old and new block |
| `BuddyRuns.RunSafe` | include/buddy.h:771-934 | at every point of every run live blocks are disjoint, inside the arena, aligned to their size and at least as large as requested |
| `BuddyRuns.RunIsolated` | include/buddy.h:771-934 | over every run a block changes only through its owner |
| `PageTables.OrUserKeeps` | mm/mappage.c:15-36 | adding the user bit changes neither the frame nor the other attributes used |
| `PageTables.PageEntryIs` | mm/mappage.c:38-44 | frame and attributes of a 4 KiB entry |
| `PageTables.HugeEntryIs` | mm/mappage.c:70-79 | frame and attributes of a 2 MiB entry |
| `PageTables.Reached` | mm/vmm.c:49-75 | the walk of a page passes every table that has its place on the path |
| `PageTables.SameWalk` | mm/mappage.c:8-47 | a change to one table matters only to pages whose walk through that table changes |
| `PageTables.TablesGrow` | mm/mappage.c:15-36 | a fresh table below an absent entry keeps the tables a tree |
| `PageTables.TablesCut` | mm/mappage.c:76-79 | overwriting a table entry by a huge leaf keeps the tables a tree |
| `PageMapping.Memory.PallocZero` | mm/pmm.c:80-90 | contract of `palloc_zero`: a frame not in use, filled with zeros |
| `PageMapping.Memory.Pfree` | mm/pmm.c:92-97 | contract of `pfree`: only a frame in use may be given back |
| `PageMapping.Indices` | include/page.h:32-35 | the four index macros pick the entries on the path of the page |
| `PageMapping.EnsureTable` | mm/mappage.c:14-36 | one level down: allocates a table or adds the user bit, and no page's leaf changes |
| `PageMapping.WalkToDirectory` | mm/mappage.c:54-68 | the common start of both mappers; the way is open to user mode if the flags say so |
| `PageMapping.MapPage` | mm/mappage.c:8-47 | the page gets exactly its entry, every other page keeps its leaf entry and its openness to user mode, and the path is open to user mode if the flags say so |
| `PageMapping.MapPageHuge` | mm/mappage.c:49-82 | the 512 pages of the range get the huge leaf and are open to user mode if the flags say so, every other page keeps its leaf entry and its openness |
| `PageMapping.UnmapPage` | mm/unmappage.c:7-31 | the page loses its leaf, every other page keeps its own |
| `PageMapping.MapThenUnmap` | mm/unmappage.c:7-31 | mapping an unmapped page and unmapping it restores the leaf of every page |
| `PageMapping.MapRegion` | mm/vmm.c:24-47 | whatever mix of 2 MiB and 4 KiB entries is used, every page of the range maps to its physical page with all attribute bits of the flags, open to user mode if they say so; all other pages are unchanged, and no huge leaf is walked through |
| `PageMapping.RegionAddHuge` | mm/vmm.c:33-38 | a huge entry counts for 512 single pages |
| `PageMapping.VirtToPhys` | mm/vmm.c:49-75 | the address of the leaf the walk finds, for 4 KiB, 2 MiB and 1 GiB leaves, and 0 if there is none |
| `AddressSpaces.CloneEntries` | mm/vmm.c:167-213 | the loops over one table: an entry by entry clone whose frames are fresh and distinct; nothing old is changed |
| `AddressSpaces.CloneChild` | mm/vmm.c:194-209 | one followed entry: a fresh frame with the same low 12 bits, filled from the source |
| `AddressSpaces.ClonePml4` | mm/vmm.c:154-216 | the whole clone; kernel entries shared, source unchanged, frames in use afterwards are exactly the old ones, the root and the frames below it |
| `AddressSpaces.CloneUserPage` | mm/vmm.c:154-216 | every 4 KiB user page has the same low 12 bits and contents in a fresh frame; huge and absent pages are absent |
| `AddressSpaces.CloneFramesDistinct` | mm/vmm.c:198-209 | no two pages of the clone share a frame |
| `AddressSpaces.CloneKernelPage` | mm/vmm.c:159-163 | every kernel page of the clone has the leaf it has in the source |
| `AddressSpaces.FreeEntries` | mm/vmm.c:233-279 | the loops over one table give back exactly the frames below it, in order, and clear the entries |
| `AddressSpaces.FreeUserPages` | mm/vmm.c:229-280 | every frame of the user half is given back once, everything else is kept |
| `AddressSpaces.CloneThenFree` | mm/vmm.c:154-280 | after clone and teardown the frames in use are the old ones plus the root, each frame was given back exactly once, and all old contents are intact |
| `Scheduler.Processes.constructor` | kernel/sched.c:218-226 | the empty table |
| `Scheduler.Processes.WakeSleeping` | kernel/sched.c:87-102 | exactly the sleepers whose deadline has come become ready |
| `Scheduler.Processes.FindHighestPriority` | kernel/sched.c:104-118 | the highest priority of a runnable process, or -1 |
| `Scheduler.HighestIs` | kernel/sched.c:104-118 | no runnable process is above it and one is at it |
| `Scheduler.Processes.PickNext` | kernel/sched.c:120-143 | the eligible slot closest to the cursor going round, or -1 exactly if nothing is runnable |
| `Scheduler.PickUnique` | kernel/sched.c:120-143 | that determines the slot |
| `Scheduler.Processes.Schedule` | kernel/sched.c:283-364 | wakes, preempts, picks and switches; idle or the caller when nothing is runnable |
| `Scheduler.Processes.AdoptChildren` | kernel/sched.c:190-207 | exactly the children go to init, which becomes ready if it waits and one of them is a zombie |
| `Scheduler.Processes.Wait` | kernel/sched.c:366-416 | reaps the first reapable child with its exit code, or blocks if a matching child lives, or reports that there is none |
| `Scheduler.Processes.Remove` | kernel/sched.c:56-69 | empties the slot and counts down |
| `Scheduler.Processes.Exit` | kernel/sched.c:418-448 | zombie, adoption, waking the parent, then the scheduler |
| `Scheduler.Processes.FindProcess` | kernel/sched.c:47-54 | the first slot with the PID, or -1 |
| `Scheduler.Processes.FindFreeSlot` | kernel/sched.c:26-33 | the first free slot, or -1 |
| `Scheduler.Processes.Add` | kernel/sched.c:263-281 | adds once, or fails on a full table |
| `Scheduler.Processes.Create` | lib/libc/elf/load.c:555-572 | a new process takes the next PID and is added |
| `Scheduler.Processes.Boot` | kernel/main.c:199-208 | init alone, running |
| `Scheduler.Processes.Clone` | kernel/sched.c:450-557 | table effects of a clone: no zombie is cloned, a PID is used up once a slot was free |
| `SchedulerRuns.ScheduleKeeps` | kernel/sched.c:283-364 | a scheduler call keeps the table invariants |
| `SchedulerRuns.WaitKeeps` | kernel/sched.c:366-416 | a wait keeps the table invariants |
| `SchedulerRuns.ExitKeeps` | kernel/sched.c:418-448 | an exit keeps them: no orphan, and nobody waits for a child that can be reaped |
| `SchedulerRuns.AddKeeps` | kernel/sched.c:263-281 | adding keeps them: fresh PID, living parent |
| `SchedulerRuns.StepKeeps` | kernel/sched.c:56-552 | every operation keeps: unique PIDs, count of occupied slots, only the current process runs, no zombie but init has children, nobody blocked on a reapable child |
| `SchedulerRuns.RunKeeps` | kernel/sched.c:56-552 | the same in every state of every run, with the history of exits and reaps |
| `SchedulerRuns.BootedOk` | kernel/main.c:199-208 | the state after boot satisfies the invariants |
| `SchedulerRuns.WaitReaps` | kernel/sched.c:388-404 | a reaped process has exited, was not reaped before, and its recorded code is returned |
| `SchedulerRuns.ReapedOnce` | kernel/sched.c:388-404 | over every run no process is reaped twice |
| `SchedulerRuns.CursorAdvances` | kernel/sched.c:129-140 | passing over a slot brings the cursor closer to it |
| `SchedulerRuns.BoundedWaiting` | kernel/sched.c:104-143 | a process that stays ready with nothing of higher priority runnable is passed over by fewer scheduler calls than there are slots, in every run |
| `Lz4.CopyMatchRepeats` | kernel/lz4.c:32-33 | a match, overlapping or not, repeats the bytes `offset` places back |
| `Lz4.BlockRoundTrip` | kernel/lz4.c:4-36 | decoding the encoding of any list of sequences gives their expansion, behind whatever was decoded before |
| `Lz4.DecodesOnlyBlocks` | kernel/lz4.c:4-36 | whatever decodes in bounds is the encoding of a valid block with that expansion |
| `Lz4.ReadLengthAt` | kernel/lz4.c:13-16 | the length loop reads the extended length |
| `Lz4.CopyMatchInto` | kernel/lz4.c:32-33 | the copy loop in the output buffer |
| `Lz4.DecompressBlock` | kernel/lz4.c:4-36 | the pointer loops compute the decoded block behind the earlier output |
| `Lz4Frame.WordRoundTrip` | kernel/lz4.c:46-46 | little-endian words |
| `Lz4Frame.FrameRoundTrip` | kernel/lz4.c:67-100 | standard frames with stored and compressed parts, content size, dictionary id and block checksums decode to the expansion of their parts |
| `Lz4Frame.LegacyRoundTrip` | kernel/lz4.c:44-65 | legacy frames decode to the expansion of their blocks if and only if there is a block or at least three bytes of tail |
| `Lz4Frame.EmptyLegacyRejected` | kernel/lz4.c:44-44 | the empty legacy frame gives -1 |
| `Lz4Frame.StandardInto` | kernel/lz4.c:77-100 | the block loop of standard frames with its error codes |
| `Lz4Frame.LegacyInto` | kernel/lz4.c:51-65 | the block loop of legacy frames with its error codes |
| `Lz4Frame.UnframeInto` | kernel/lz4.c:38-101 | number of bytes and output buffer, or the error code, for every input that stays in bounds |
| `Huffman.MatchUnique` | include/stb_image.h:4141-4152 | the canonical code is prefix-free |
| `Huffman.Covered` | include/stb_image.h:4141-4152 | windows below the end of a length start with a code of at most that length |
| `Huffman.AcceptedIffKraft` | include/stb_image.h:4136-4148 | the two rejection tests together are Kraft's inequality |
| `Huffman.StreamStarts` | include/stb_image.h:4243-4271 | a stream of codes starts with the code of its first symbol, and shifting it out leaves the rest |
| `BitReversal.SwapsReverse` | include/stb_image.h:4107-4114 | the four mask swaps equal pushing the sixteen bits one by one in reverse order |
| `BitReversal.BitReverseIs` | include/stb_image.h:4107-4122 | swaps and shift give the first bits of the argument, first bit highest, for every argument and every width up to 16 |
| `HuffmanTables.ZHuffman.BuildCodes` | include/stb_image.h:4136-4153 | first codes, end codes and first symbols of all lengths, or rejection |
| `HuffmanTables.ZHuffman.Replicate` | include/stb_image.h:4162-4165 | the loop writes exactly the places congruent to the first one |
| `HuffmanTables.ZHuffman.FillFast` | include/stb_image.h:4160-4165 | with the reversal the code computes, exactly the windows that start with the code are written |
| `HuffmanTables.ZHuffman.BuildSymbols` | include/stb_image.h:4154-4168 | every symbol is filed at its place and in the fast table |
| `HuffmanTables.ZHuffman.Build` | include/stb_image.h:4124-4169 | accepts exactly the lengths that satisfy Kraft's inequality, and the tables then describe the code |
| `HuffmanTables.ZHuffman.DecodeSlow` | include/stb_image.h:4224-4241 | the slow path finds the symbol, and fails only if no code matches |
| `HuffmanTables.ZHuffman.Decode` | include/stb_image.h:4263-4270 | fast table and slow path together give the symbol and length of the canonical code for every window, and fail only if no code matches |
| `ZStream.ZBuf.constructor` | include/stb_image.h:4486-4488 | nothing is consumed yet |
| `ZStream.ZBuf.Get8` | include/stb_image.h:4192-4200 | the next byte, zero behind the end |
| `ZStream.ZBuf.FillBits` | include/stb_image.h:4202-4212 | at least 25 bits in the buffer and the bits to come are the same; a buffer with bits too many becomes the end of the input |
| `ZStream.ZBuf.Receive` | include/stb_image.h:4214-4222 | the next bits of the stream as a number; the rest of the stream is left |
| `ZStream.ZBuf.Decode` | include/stb_image.h:4224-4271 | with refill and the padding behind the end: the symbol whose code the remaining stream starts with is returned and exactly its bits are consumed; -1 only if no code matches or more bits were consumed than the input holds |
| `ZStream.DecodeUndoesEncoding` | include/stb_image.h:4224-4271 | a stream of encoded symbols yields its first symbol and leaves the others |
| `Png.Paeth` | include/stb_image.h:4657-4668 | equals the predictor of RFC 2083 for all arguments |
| `Png.FilterInverse` | include/stb_image.h:4755-4785 | reconstruction inverts each filter, and only the original row reconstructs it |
| `Png.FirstRowEquivalent` | include/stb_image.h:4648-4655 | the substituted first-row filters predict what the filters predict over a zero row |
| `Png.Unfilter` | include/stb_image.h:4755-4785 | the loops reconstruct one half of the buffer from the other |
| `Png.ReconstructRow` | include/stb_image.h:4737-4785 | one row over the row above, or over zeros |
| `Png.ReconstructImage` | include/stb_image.h:4737-4790 | every row is the reconstruction over the row above; fails only on short data or a bad filter byte |
| `Png.ImageInverse` | include/stb_image.h:4737-4790 | whatever filters the encoder chose, the decoded image is the original |
| `Png.WrittenOnce` | include/stb_image.h:4873-4897 | the seven passes write every pixel of an image of any size exactly once, and nothing outside |
| `Png.CoversIff` | include/stb_image.h:4874-4877 | origins and spacings reproduce the printed interlacing square of RFC 2083 |
| `Png.Deinterlace` | include/stb_image.h:4873-4902 | every pixel of the result is the pixel of the pass that carries it |
| `Slab.FreshSlots` | mm/slab.c:76-90 | the fresh list holds exactly the slots of the page, each once |
| `Slab.SlotsApart` | mm/slab.c:78-90 | different slots do not overlap |
| `Slab.SlotAligned` | mm/slab.c:15-19 | slots are 16-byte aligned |
| `Slab.LiveSlotsApart` | mm/slab.c:57-114 | live slots never overlap each other or a header and are 16-byte aligned |
| `Slab.Heap.constructor` | mm/slab.c:21-30 | the empty heap |
| `Slab.Heap.BucketIndex` | mm/slab.c:32-37 | the smallest bucket that holds the request |
| `Slab.Heap.NewSlab` | mm/slab.c:73-93 | a fresh page threaded into a list of all its slots; old pages are kept |
| `Slab.Heap.WriteLinks` | mm/slab.c:84-90 | each free slot holds the address of the next, the last one 0 |
| `Slab.Heap.Take` | mm/slab.c:96-98 | pops the first free slot; the list stays a list of length `slots_free` |
| `Slab.Heap.Kmalloc` | mm/slab.c:57-101 | a fresh aligned slot of the right bucket, or failure only for size 0 or lack of memory; live slots keep their bytes |
| `Slab.Heap.Kfree` | mm/slab.c:103-114 | the slot goes to the front of its list; live slots keep their bytes |
| `Slab.Heap.Krealloc` | mm/slab.c:129-151 | common prefix kept, other live slots untouched, the old slot kept on failure |
| `Slab.Heap.Store` | mm/slab.c:147-147 | writes inside a live slot disturb no list and no other slot |
| `Mutex.StepKeeps` | arch/x86/mutex.c:56-183 | every atomic step keeps the state word equal to holders plus registered waiters |
| `Mutex.RunKeeps` | arch/x86/mutex.c:56-183 | the same over every interleaving |
| `Mutex.MutualExclusion` | arch/x86/mutex.c:56-183 | at most one holder, and a nonzero owner names it |
| `Mutex.WaiterAcquiresIff` | arch/x86/mutex.c:77-90 | a waiter acquires exactly when it is the only participant |
| `Mutex.StuckStays` | arch/x86/mutex.c:56-183 | with nobody holding the mutex and two waiters, no step but a timeout changes that, and none acquires |
| `Mutex.StuckForever` | arch/x86/mutex.c:56-183 | the same over every continuation of every run |
| `Mutex.StuckReachable` | arch/x86/mutex.c:56-138 | any three processes can reach such a state from a free mutex |
| `RwLock.StepKeeps` | arch/x86/rwlock.c:11-59 | every critical section keeps the counter equal to who is inside |
| `RwLock.RunKeeps` | arch/x86/rwlock.c:11-59 | the same over every interleaving |
| `RwLock.Exclusion` | arch/x86/rwlock.c:11-59 | a writer never coexists with a reader or another writer |
| `RwLock.ReadAdmittedIff` | arch/x86/rwlock.c:11-52 | a reader is admitted exactly when no writer is inside and no write attempt has failed so far |
| `RwLock.ReadersShutOut` | arch/x86/rwlock.c:37-52 | one failed write attempt keeps readers out for the rest of the run |
| `RwLock.RefusedWhenFree` | arch/x86/rwlock.c:11-52 | a run in which nobody is inside and a reader is refused |
| `Tty.Terminal.Full` | kernel/tty.c:28-31 | the ring is full at one character below its size |
| `Tty.Terminal.Put` | kernel/tty.c:33-40 | appends to the ring, or leaves a full ring as it is |
| `Tty.Terminal.Get` | kernel/tty.c:42-49 | removes the oldest character |
| `Tty.Terminal.Commit` | kernel/tty.c:323-338 | appends as much of the line as fits |
| `Tty.Terminal.InputChar` | kernel/tty.c:271-342 | carriage-return mapping, raw input, erase, overlong lines and commit |
| `Tty.Terminal.ReadOne` | kernel/tty.c:136-136 | the oldest character goes to its place in the caller's buffer |
| `Tty.Terminal.Read` | kernel/tty.c:75-145 | returns a prefix of the ring of the specified length and leaves the rest |
| `Tty.ReadStops` | kernel/tty.c:136-141 | a canonical read stops behind the first newline, at the count, or when the ring is empty |
| `Tty.EditingErases` | kernel/tty.c:300-321 | for every typing, the line being edited is what no erase cancelled since the last newline or overflow |
| `Tty.CommittedLines` | kernel/tty.c:300-341 | for every typing, the lines committed are, for each newline in time, the characters no erase cancelled in the stretch before it |
| `Tty.RunDelivers` | kernel/tty.c:75-342 | over every interleaving, what reads returned followed by the ring is the surviving characters of each committed stretch in order, each line cut to what fitted; which lines those are depends on the typing only |
| `Tty.CutOnlyWhenFull` | kernel/tty.c:325-336 | a line is cut only where the ring is full |
| `Tty.CommittedShape` | kernel/tty.c:300-341 | committed lines end in their only newline and hold no erase character |
| `Tty.LongLineDropped` | kernel/tty.c:316-319 | a character that finds the line full drops it and itself, and the next line starts behind it |
| `Tty.TypedLine` | kernel/tty.c:300-341 | what one typed line of any length commits: its current stretch, or nothing if that fills the buffer |
| `Tty.WholeLineIff` | kernel/tty.c:316-319 | the current stretch is the whole typed line exactly if no character found the line full |
| `Tty.LongLineTail` | kernel/tty.c:316-341 | whatever follows the overflow of an over-long line is committed as a line of its own |

## Left out

- BuddyArena.Buddy.Realloc: stated for null and for live pointers. On another address the original may resolve to a partially used node; the release refuses it, but a failing search then marks it (`BuddyStatus.RestoreIff` says what that does), and a successful one copies from a block that may reach behind the arena.
- BuddyArena.Init: arenas of at most 2^63 bytes, because the rounding of the arena size is exact only up to there.
- Bitset.CountRange: the 256-entry population-count table and the trailing-zero count are modelled by what they compute.
- BuddyWalk.ReportBlocks: the callback is a function of the blocks it was called with so far; that it might call back into the allocator is left out.
- `buddy_resize`, `buddy_safe_free`, range reservation, embedding, change tracking, fragmentation and debug output of the buddy allocator.
- PageMapping.MapPage: the 12 attribute bits only; NX handling, `invlpg`, CR3 loads and mapping below an existing huge leaf are left out; a table can always be had, since the original halts the machine when no frame is left.
- PageMapping.MapRegion: ranges that stay inside the 48-bit space, without wrap-around of 64-bit addresses.
- AddressSpaces.CloneEntries: the nested loops are one recursive method with a loop per level; a frame can always be had, as above.
- AddressSpaces.FreeUserPages: no frame may be mapped at two places of the user half, since the original would then give it back twice.
- AddressSpaces.FreeEntries: the nested loops are one recursive method with a loop per level.
- `init_vmm` and its boot mappings.
- Scheduler.Processes.Schedule: register contexts, FPU state, address-space switches and kernel stacks are left out, and so is `current_process_index`.
- Scheduler.Processes.Add: a process is recognised by its PID, where the original compares pointers; PIDs are unique in every run (`SchedulerRuns.RunKeeps`).
- Scheduler.Processes.Wait: the idle process, which makes no system calls, is excluded; statuses are returned, not written through a user pointer.
- Scheduler.Processes.Exit: a process is current; the original panics otherwise.
- `kthread_exit`, signals and mutex waits as causes of state changes.
- Lz4.DecompressBlock: inputs on which the original reads outside the block or refers before the output are excluded by precondition, because the original has no defined result there; so are matches with offset 0, which the LZ4 Block Format forbids and on which the result is whatever the output buffer held.
- Lz4Frame.UnframeInto: the same, and the output buffer holds what the last block writes before the size is compared.
- HuffmanTables.ZHuffman.Decode: the window is a number of any size; refill and consumption of bits are in `ZStream`.
- ZStream.ZBuf.FillBits: joining a byte to the buffer by bitwise or is written as addition, which it is as long as the buffer has no bits above its count, as tested just before.
- HuffmanTables.ZHuffman.Build: lengths up to 15 and at most 288 symbols, as all callers give.
- Png.Unfilter: the separate loops per filter are one loop that distinguishes the filters at each byte.
- Png.ReconstructImage: expansion of samples below 8 bits, byte order of 16-bit samples and the added alpha channel are left out.
- The other formats of stb_image, zlib block structure and the PNG chunk parser.
- Slab.Heap.Kmalloc: requests that fit a bucket; headers are records of their page rather than bytes of it, and large allocations are left out.
- Mutex.StepKeeps: the wait queue and the paths without a current process are left out.
- RwLock.StepKeeps: unlocking without holding the lock is left out.
- Tty.Terminal.Read: the blocking path, echo and waking of readers are left out.
- Drivers, interrupt plumbing, ELF loading, the virtual file system, mailboxes, semaphores and logging.
