# DragonOS kernel data structures and protocols

A Dafny model of nine components of the DragonOS kernel, with proofs of what each of them is for.

| component | source | files | main result |
|---|---|---|---|
| red-black tree | `kernel/src/libs/rbtree.rs` | `RbShape`, `RbFixup`, `RbOrder`, `RbSplice`, `RbTree` | insert and delete on the heap keep every red-black, ordering and parent-link invariant, and change the in-order sequence in exactly one place |
| page tables | `kernel/src/mm/page.rs` | `PageWalk`, `PageTables`, `PageClone` | mapping, unmapping, remapping and copy-on-write cloning of a radix tree of frames refine a flat map from addresses to entries, walked with the bits the processor takes; each succeeds exactly when the frames it needs are free, and a clone grants every right of the original but writing |
| copy-on-write | `kernel/src/mm/fault.rs`, `kernel/src/mm/ucontext.rs` | `Cow`, `PageFaults`, `PageSpaces` | over every run, the machine that shares frames behaves like one that copies every page at the fork; its flat maps are the trees of page tables of all spaces, and only pages of writable areas can be stored to |
| boot memory map | `kernel/src/mm/memblock.rs` | `MemMap`, `MemBlock` | the edits of the region array refine edits of a function from addresses to flags, and the array stays in a normal form that the function determines |
| reader/upgrader/writer lock | `kernel/src/libs/rwlock.rs` | `RwLock` | over every interleaving of the atomic operations: mutual exclusion, an exact lock word, and each attempt succeeds exactly when the guards that exist allow it |
| MMIO buddy pool | `kernel/src/mm/mmio_buddy.rs` | `MmioBuddy` | free and live blocks tile the seeded range at all times |
| perf ring buffer | `kernel/src/perf/bpf.rs` | `PerfRing`, `PerfEvents` | no unread byte is overwritten, every event is accounted for, and a consumer reads back what was written |
| page cache | `kernel/src/filesystem/page_cache.rs` | `PageCache` | reads and writes agree with a flat file, for any pattern of resident pages, and succeed exactly when there are frames for the missing pages and they can be read |
| pipe | `kernel/src/ipc/pipe.rs` | `Pipe` | a byte queue over every interleaving of calls, those that waited and go on included |

`Arith` holds powers of two, division with remainder and the like, and `Wrappers` the option type.

## How the model is built

Code that changes things in place is a class with methods.  A method states its new state as a
function of the old one, and the hard facts are lemmas about values: trees with a hole
(`RbShape.Context`) for the red-black tree, maps from frames to entries for the page tables, lists
of regions for the memory map.  Concurrency is a state machine with one step per atomic operation;
a run is a sequence of steps in any order.

The source's integers are unbounded here except where their width matters: the 32-bit lock word,
the capacity computed modulo 2^64 and the 16-bit size field of the perf ring.  A panic, a failed
assertion or a call that never returns is a result of the operation (`Panic`, `Stuck`, `ok == false`),
and the contract says exactly when it happens.  A call that gives up its lock to wait returns
`Blocked` or `Spinning`, and what it does when it has the lock again is a method of its own.

The frame allocator, the areas' numbers and the choice of the next area to clone are arbitrary
choices among what is allowed.  The disk behind the page cache, the places where reading it fails
and the number of free frames are parameters.

## Where the code does not do what one would expect

Each of these is stated exactly: what holds if and only if which condition.

- `RwLock.StoreUpgradedExact`: `downgrade_to_upgradeable` stores the whole word; it keeps the lock consistent exactly when no reader is about to undo a failed attempt, that is, when the word is below 4, and `RwLock.StoreUpgradedWraps` shows the word wrapping otherwise.  `RwLock.DebugAssertionExact`: the debug assertion before the store fails exactly if another agent has tried for an upgradeable guard since the write guard was taken.
- `PageClone.CloneSpace` and `PageFaults.UserMemory.TryClone`: a fork without a frame for the new root table is refused; with that one but too few for the other tables it panics.  `PageClone.CloneTable`: a clone that fails has used up all free frames and gives none back.
- `Pipe.InnerPipeInode.ResumeWrite` and `Pipe.ResumedAsAnew`: a write that waited does not look at the readers again.  It comes out as the same write made anew exactly while there are readers; without readers it stores its bytes if there is room (`BrokenPipe` would be due) and spins if there is not (`Pipe.ResumedWithoutReaders`).  `Pipe.WaitExact`: a waiting write sleeps exactly if the pipe is full and has readers, and otherwise keeps trying.
- `Pipe.InnerPipeInode.ReadAt` and `Pipe.InnerPipeInode.WriteAt`: a transfer of all 1024 bytes at once panics, and no other does.
- `PerfEvents.RingPage.WriteEvent`: an event without data panics exactly when its sample would be written.  `PerfEvents.StrideReadBack`: a record can be walked past exactly when its length fits into 16 bits.  `PerfRing.PaddingExact`: padding never runs over a consumer exactly when a header would fit behind the consumer's position.
- `PageCache.WriteKeepsRest`: a write keeps the bytes around its range exactly when, on pages that were not resident, the disk holds zeros there; `PageCache.WriteLosesNeighbour` is the smallest example.
- `MemBlock.MemBlockManager.IsolateRange`: cutting regions does not check for free slots and panics exactly when the cuts do not fit into the array.
- `MmioBuddy.MmioBuddyMemPool.ReleaseMmio`: the block given back is that of the lowest bit of the length, and nothing checks that it was handed out; the free and live blocks still tile the range exactly if it was.
- `MmioBuddy.MmioBuddyMemPool.QueryAddrRegion`: a request for more than 4 KiB for which no free block is large enough goes on to take a lock that it already holds.
- `MemBlock.MemBlockManager.DoIsOverlapped`: for an empty range the answer is whether the address lies in a region or at its end.
- The comment of `isolate_range` speaks of finding free space; the code cuts and returns regions, and the model follows the code.

## Model

| member | source | states |
|---|---|---|
| RbTree.RBTree.LeftRotate | kernel/src/libs/rbtree.rs:877-909 | the stored tree is rotated at the node under any context, with all parent links, and nothing else changes |
| RbTree.RBTree.RightRotate | kernel/src/libs/rbtree.rs:912-943 | the mirror image of the left rotation |
| RbShape.TurnedStore | kernel/src/libs/rbtree.rs:877-943 | pointer writes of a rotation on a stored tree store the rotated tree, on either side |
| RbShape.TurnedInOrder | kernel/src/libs/rbtree.rs:877-943 | a rotation keeps the in-order sequence |
| RbTree.RBTree.InsertFixup | kernel/src/libs/rbtree.rs:961-1014 | from a tree with one possible red-red edge at the node, a valid red-black tree with the same in-order sequence, for every depth |
| RbFixup.RecoloredPending | kernel/src/libs/rbtree.rs:970-978 | red uncle: recolouring moves the only violation two levels up |
| RbFixup.StraightenedPending | kernel/src/libs/rbtree.rs:980-984 | inner grandchild: one rotation makes it an outer one with the same violation |
| RbFixup.LiftedPending | kernel/src/libs/rbtree.rs:986-989 | outer grandchild: recolouring and rotating leaves no violation |
| RbTree.RBTree.Insert | kernel/src/libs/rbtree.rs:1017-1053 | the tree stays valid, the count grows by one, and the new node comes after all keys not greater and before all greater ones; every other node keeps its place |
| RbTree.RBTree.ReplaceOrInsert | kernel/src/libs/rbtree.rs:946-958 | the value of an existing node with the key is replaced and returned, or the pair is inserted; no other value changes |
| RbTree.RBTree.DeleteFixup | kernel/src/libs/rbtree.rs:1235-1304 | from a tree whose hole is one black node short, with a possibly null node there, a valid tree with the same in-order sequence |
| RbFixup.UnderRedShort | kernel/src/libs/rbtree.rs:1240-1246 | red sibling: afterwards the sibling is black and the hole is still one short |
| RbFixup.ReddenedShort | kernel/src/libs/rbtree.rs:1248-1252 | black sibling with black children: the shortage moves up one level |
| RbFixup.FarRedShort | kernel/src/libs/rbtree.rs:1254-1260 | near child red: afterwards the far child is red and the hole is still one short |
| RbFixup.RestoredValid | kernel/src/libs/rbtree.rs:1261-1267 | far child red: one rotation ends the shortage |
| RbTree.RBTree.Delete | kernel/src/libs/rbtree.rs:1307-1381 | for every node of every valid tree: the tree stays valid, the count falls by one, and the in-order sequence loses exactly that node |
| RbTree.RBTree.DeleteInner | kernel/src/libs/rbtree.rs:1314-1353 | the same for a node with two children, whose successor takes its place |
| RbTree.RBTree.DeleteOuter | kernel/src/libs/rbtree.rs:1355-1380 | the same for a node with at most one child |
| RbSplice.SucceededStore | kernel/src/libs/rbtree.rs:1317-1345 | after the successor's pointers were rewritten the store holds the tree in which it replaces the deleted node |
| RbSplice.VacatedShort | kernel/src/libs/rbtree.rs:1326-1349 | the place the successor left is one black node short exactly if the successor was black |
| RbSplice.CutOutShort | kernel/src/libs/rbtree.rs:1355-1377 | replacing a black node by its only child leaves the place one black node short |
| RbTree.RBTree.MinNode | kernel/src/libs/rbtree.rs:160-167 | the first node of the in-order sequence below a node |
| RbTree.RBTree.MaxNode | kernel/src/libs/rbtree.rs:169-176 | the last node of the in-order sequence below a node |
| RbTree.RBTree.Next | kernel/src/libs/rbtree.rs:178-193 | the node one further in the in-order sequence, null at its end |
| RbTree.RBTree.Prev | kernel/src/libs/rbtree.rs:196-211 | the node one before in the in-order sequence, null at its beginning, so that it undoes `Next` |
| RbTree.RBTree.FindNode | kernel/src/libs/rbtree.rs:1056-1075 | a node with the key, null exactly when no node has it, even with repeated keys; one step for each node of the path to it, which are at most as many as the tree is high, at most twice the logarithm of its size |
| RbTree.RBTree.FirstChild | kernel/src/libs/rbtree.rs:1078-1088 | the first node of the in-order sequence |
| RbTree.RBTree.LastChild | kernel/src/libs/rbtree.rs:1091-1101 | the last node of the in-order sequence |
| RbTree.RBTree.PopFirst | kernel/src/libs/rbtree.rs:1122-1128 | removes and returns the first pair |
| RbTree.RBTree.PopLast | kernel/src/libs/rbtree.rs:1131-1137 | removes and returns the last pair |
| RbTree.RBTree.Remove | kernel/src/libs/rbtree.rs:1226-1232 | removes one node with the key and returns its value, or changes nothing when there is none |
| RbTree.Iter.Next | kernel/src/libs/rbtree.rs:695-711 | the pairs from the front in order, each once, until front and back meet |
| RbTree.Iter.NextBack | kernel/src/libs/rbtree.rs:718-731 | the same from the back |
| RbTree.Iter.Collect | kernel/src/libs/rbtree.rs:695-711 | taking from the front until the end gives exactly the pairs that were left, in key order, one for each of the remaining count |
| RbOrder.HeightBound | kernel/src/libs/rbtree.rs:1056-1075 | a valid tree of n nodes is at most 2*log2(n+1) high |
| PageTables.IndexOfExact | kernel/src/mm/page.rs:808-818 | for every table and address: the nine bits of the address that belong to the level of the table if the table covers the address, and nothing otherwise |
| PageTables.NextCovers | kernel/src/mm/page.rs:753-760 | the entry base is the base of the table one level down |
| PageTables.PathIsBits | kernel/src/mm/page.rs:808-832 | the indices `index_of` gives from the root down are the bits of the address that the processor takes, nine for each level |
| PageTables.OnePath | kernel/src/mm/page.rs:808-818 | two addresses have the same indices exactly when they lie in the same page |
| PageWalk.DistinctPaths | kernel/src/mm/page.rs:808-832 | two pages never share an index path |
| PageTables.PageMapper.Visit | kernel/src/mm/page.rs:1758-1775 | the last-level table and index of a page, or nothing exactly when a table on the way is missing |
| PageTables.PageMapper.Translate | kernel/src/mm/page.rs:1707-1712 | the frame and flags to which the bits of the address lead, for every address |
| PageTables.PageMapper.MapPhys | kernel/src/mm/page.rs:1435-1490 | succeeds exactly when both addresses are aligned and there are frames for the missing tables; then every address of this page translates to the frame and flags, through new tables that are open to user mode exactly below the user end, and every other address as before; on failure no translation changes; no frame is used twice |
| PageTables.PageMapper.EnsurePath | kernel/src/mm/page.rs:1456-1488 | allocating the missing tables of a path changes no translation, and fails exactly when there are too few frames |
| PageTables.PageMapper.Remap | kernel/src/mm/page.rs:1682-1697 | the flags of this page change and its frame stays; every address of another page translates as before; fails exactly when a table is missing |
| PageTables.PageMapper.UnmapPhys | kernel/src/mm/page.rs:1742-1755 | every address of this page loses its translation, which is returned, and no other does; the tables freed are exactly those no longer reachable, each of them empty; with `unmap_parents` no empty table is left below the root on the path |
| PageTables.PageMapper.UnmapInner | kernel/src/mm/page.rs:1789-1827 | the same for the tables from a given one down |
| PageWalk.OnlyPage | kernel/src/mm/page.rs:1435-1490 | seen by page numbers, one entry of the flat map changes and no other |
| PageClone.CloneTable | kernel/src/mm/page.rs:839-882 | the clone consists of fresh frames and maps every page to the frame it had, neither writable nor dirty, under upper entries with the same flags; the original keeps everything but write permission; succeeds exactly when there are as many free frames as the original has tables, and takes that many; otherwise the original has at most lost write permission and no frame is left |
| PageClone.CloneGrants | kernel/src/mm/page.rs:839-882 | what the processor grants over all levels together: after a clone, the copy and the original have every right the original had but writing |
| PageClone.CopyLeaf | kernel/src/mm/page.rs:849-861 | the entries of a last-level table, copied one by one |
| PageClone.CloningStep | kernel/src/mm/page.rs:872-879 | one subtable cloned and entered: what was cloned before stays cloned, what follows is untouched |
| PageClone.CloningFailed | kernel/src/mm/page.rs:872-879 | a failure in a subtable leaves the original with every page translated as before or without write permission |
| PageClone.CloneSpace | kernel/src/mm/page.rs:1645-1658 | a new root and clones of the tables below its first entries, entered with the flags they had; refused exactly without a frame for the root, a panic exactly without frames for the tables; pages of the other entries are untouched |
| PageClone.SpaceGrants | kernel/src/mm/page.rs:1645-1658 | the same for every page of the user half of a space |
| PageSpaces.PageMapped | kernel/src/mm/page.rs:1435-1490 | the trees of all spaces are the flat map with this entry |
| PageSpaces.PageUnmapped | kernel/src/mm/page.rs:1742-1755 | the trees of all spaces are the flat map without this page, next to the freed tables |
| PageSpaces.AnonFaultTables | kernel/src/mm/fault.rs:236-261 | mapping the frame in the tables is the step of the flat map |
| PageSpaces.WpFaultTables | kernel/src/mm/fault.rs:416-468 | remapping in place, or mapping the copy, is the step of the flat map |
| PageSpaces.UnmapTables | kernel/src/mm/ucontext.rs:1193-1254 | unmapping in the tables is the step of the flat map |
| PageSpaces.SpaceCloned | kernel/src/mm/page.rs:1645-1658 | cloned tables, with those of all other spaces, are the flat map after the fork |
| PageFaults.UserMemory.DoAnonymousPage | kernel/src/mm/fault.rs:236-261 | the step of mapping a cleared frame, out of memory exactly when no frame is left |
| PageFaults.UserMemory.DoWpPage | kernel/src/mm/fault.rs:416-468 | the page becomes writable, in place when its area is shared or alone on the frame and in a copy otherwise; out of memory exactly when a copy is needed and no frame is left |
| PageFaults.UserMemory.HandlePteFault | kernel/src/mm/fault.rs:193-227 | a write access finds a writable page afterwards and no mapped page reads differently, unless memory runs out, which is exactly when a frame is needed and none is left; a new page is writable exactly if its area is, and pages that can be stored to stay within writable areas |
| PageFaults.UserMemory.TryClone | kernel/src/mm/ucontext.rs:162-207 | refused without a frame for the root table, a panic without frames for the other tables, and otherwise the fork step: new areas with new numbers at the same pages, read-only on both sides, each registered with exactly the frames it maps |
| PageFaults.UserMemory.Unmap | kernel/src/mm/ucontext.rs:1193-1254 | the area's pages are gone, all other pages belong to their areas, are mapped and read as before, and the frames freed are exactly those that only this area mapped |
| Cow.StepInv | kernel/src/mm/fault.rs:416-468 | every step keeps: the `vma_set` of a frame is exactly the areas that map it, and a private frame that is writable somewhere is mapped nowhere else |
| Cow.StepRights | kernel/src/mm/fault.rs:122-468 | a step keeps every writable entry within a writable area exactly if it is not a write-protection fault in an area that may not be written |
| Cow.RunRights | kernel/src/mm/fault.rs:122-468 | along every run whose write faults pass the access check, only pages of writable areas can be stored to |
| Cow.AloneMeansOnly | kernel/src/mm/fault.rs:440-447 | a frame with one area in its `vma_set` is mapped by one page |
| Cow.RunInv | kernel/src/mm/fault.rs:236-468 | the invariant holds in every state of every run |
| Cow.StepRefines | kernel/src/mm/fault.rs:236-468 | each step is a step of the machine that copies at the fork, in terms of what the pages read |
| Cow.CopyOnWriteRefinesCopy | kernel/src/mm/page.rs:839-882 | along every run of forks, faults, stores and unmappings the pages read what the copying machine says |
| Cow.SeesFrame | kernel/src/mm/fault.rs:430-447 | a store through a writable entry is seen by the page itself and, if it is shared, by its peers, and by no other |
| Cow.PrivateIsolation | kernel/src/mm/fault.rs:416-468 | whatever step is taken, a private page that was not stored to or unmapped reads as before |
| MemMap.NormalUnique | kernel/src/mm/memblock.rs:106-230 | two normal lists with the same attribute function are equal |
| MemBlock.MemBlockManager.AddBlock | kernel/src/mm/memblock.rs:67-104 | the uncovered part of the block is covered without flags and nothing else changes; full arrays panic and blocks that need too many slots are refused unchanged, exactly as counted |
| MemBlock.MemBlockManager.DoAddBlock | kernel/src/mm/memblock.rs:106-171 | the count is the number of uncovered stretches in both passes; the inserting pass leaves a normal list |
| MemBlock.MemBlockManager.DoInsertArea | kernel/src/mm/memblock.rs:173-187 | one region more at the index; panics exactly when the array is full |
| MemBlock.MemBlockManager.DoMergeBlocks | kernel/src/mm/memblock.rs:189-227 | if the list was normal outside the window, it is normal; no attribute changes and the overlap panic is not reached |
| MemBlock.MemBlockManager.DoRemoveRegion | kernel/src/mm/memblock.rs:252-264 | one region less |
| MemBlock.MemBlockManager.IsolateRange | kernel/src/mm/memblock.rs:275-344 | terminates, changes no attribute, returns the index range of exactly the regions inside; panics exactly when the cuts do not fit |
| MemBlock.CutIsolating | kernel/src/mm/memblock.rs:304-332 | a cut keeps all that was recorded and leaves one cut less to make |
| MemBlock.MemBlockManager.RemoveBlock | kernel/src/mm/memblock.rs:233-250 | exactly the addresses of the block lose their attribute, and the list is normal without a merge |
| MemBlock.MemBlockManager.SetOrClearFlags | kernel/src/mm/memblock.rs:364-388 | the range is the least one from a multiple of 4096 to another that contains the request; on its covered addresses each given flag is set or cleared and every other flag stays, elsewhere nothing changes; panics exactly when the cuts do not fit |
| MemBlock.MemBlockManager.DoIsOverlapped | kernel/src/mm/memblock.rs:407-437 | whether an address of the range is covered (by reserved memory, if asked for) |
| MemBlock.AddsCommute | kernel/src/mm/memblock.rs:59-104 | blocks added in either order give the same region list |
| MemBlock.RemoveUndoesAdd | kernel/src/mm/memblock.rs:59-250 | removing a block that was added to free space gives back the same region list |
| MemBlock.MemBlockIter.Next | kernel/src/mm/memblock.rs:499-521 | the regions in order, only those without flags if asked for, each once |
| RwLock.StepInv | kernel/src/libs/rwlock.rs:102-151 | every atomic operation of every agent keeps the invariant |
| RwLock.AttemptsExact | kernel/src/libs/rwlock.rs:102-521 | after every run, in terms of the guards and not of the word: reading and the upgradeable guard are granted exactly if nobody holds a write or upgradeable guard, writing exactly if moreover nobody is counted as a reader, an upgrade exactly if nobody is counted as a reader, and a downgrade exactly below the limit of readers |
| RwLock.RunInv | kernel/src/libs/rwlock.rs:102-606 | the invariant holds after every interleaving of fewer than 2^30 agents |
| RwLock.Exclusion | kernel/src/libs/rwlock.rs:235-319 | a write guard coexists with no other guard, and at most one upgradeable guard exists |
| RwLock.WordExact | kernel/src/libs/rwlock.rs:411-521 | the word is four times the readers and unfinished attempts plus the flags; the flags are exactly the guards, although a failed upgradeable attempt leaves its flag set under a writer |
| RwLock.DropAssertions | kernel/src/libs/rwlock.rs:577-606 | the debug assertions of the three drops hold |
| RwLock.NoOverflow | kernel/src/libs/rwlock.rs:102-116 | with fewer than 2^29 agents no reader is turned away for overflow |
| RwLock.FewAgents | kernel/src/libs/rwlock.rs:102-151 | with fewer than 2^29 agents an attempt to read succeeds exactly if nobody holds a write or upgradeable guard |
| RwLock.NeverStuck | kernel/src/libs/rwlock.rs:102-606 | from every state of every run there is a run back to the free lock: nothing is lost in the word |
| RwLock.StoreUpgradedExact | kernel/src/libs/rwlock.rs:526-546 | the store keeps the invariant exactly when no attempt is waiting to be undone, that is when the word is below 4; it also passes the debug assertion exactly when the word is the writer flag |
| RwLock.DebugAssertionExact | kernel/src/libs/rwlock.rs:527-530 | from the moment a write guard was taken, over every run of the other agents, the debug assertion holds exactly until one of them tries for an upgradeable guard |
| RwLock.StoreUpgradedWraps | kernel/src/libs/rwlock.rs:526-546 | a writer and a reader after which the word is 0xfffffffe |
| MmioBuddy.MmioBuddyMemPool.constructor | kernel/src/mm/mmio_buddy.rs:49-88 | one free aligned block per bit 12 to 30 of the size, covering the range from the start on without gaps, and every address in it exactly once |
| MmioBuddy.MmioBuddyMemPool.GiveBackBlock | kernel/src/mm/mmio_buddy.rs:116-127 | pushes an aligned block, refuses any other |
| MmioBuddy.MmioBuddyMemPool.PopAndSplit | kernel/src/mm/mmio_buddy.rs:136-146 | one block becomes its two halves, and the tiling is kept |
| MmioBuddy.UpperHalf | kernel/src/mm/mmio_buddy.rs:324-326 | the buddy of the lower half of an aligned block is its upper half, both aligned |
| MmioBuddy.OneBitFlipped | kernel/src/mm/mmio_buddy.rs:324-326 | the buddy address differs in exactly one bit, so that two buddies are buddies of each other |
| MmioBuddy.MmioBuddyMemPool.QueryAddrRegion | kernel/src/mm/mmio_buddy.rs:160-231 | a block of exactly the size, exactly when some free block is large enough; otherwise nothing changes |
| MmioBuddy.MmioBuddyMemPool.CreateMmio | kernel/src/mm/mmio_buddy.rs:474-507 | the least power of two that holds the request and 4 KiB, aligned and inside the pool as `from_raw` asserts; served exactly when some free block is large enough; otherwise out of memory for at most 4 KiB and stuck for more |
| MmioBuddy.Rounded | kernel/src/mm/mmio_buddy.rs:474-491 | the exponent is the least that fits, at most 30, and the size its power of two |
| MmioBuddy.LiveInRange | kernel/src/mm/mmio_buddy.rs:616-639 | the assertions of `from_raw` hold for every live block |
| MmioBuddy.MmioBuddyMemPool.ReleaseMmio | kernel/src/mm/mmio_buddy.rs:518-561 | each result exactly when: panics for unaligned addresses and lengths and for blocks too large or not aligned to their size, refusal outside the pool, from which no block ever gets onto a list, and otherwise the block is free; the tiling is kept exactly if the block was live |
| MmioBuddy.LiveReleased | kernel/src/mm/mmio_buddy.rs:518-561 | a live block released with its length is neither refused nor a panic |
| MmioBuddy.BlocksDisjoint | kernel/src/mm/mmio_buddy.rs:49-146 | no two blocks, free or live, share an address, and all lie in the seeded range |
| PerfRing.PaddingFits | kernel/src/perf/bpf.rs:165-197 | a record that passes the space check does not pass the tail with its padding either, and leaves room for the next header |
| PerfRing.PaddingLeast | kernel/src/perf/bpf.rs:165-173 | the padding is the least after which a header fits before the end of the region |
| PerfRing.PaddingExact | kernel/src/perf/bpf.rs:84-197 | that is so for every record exactly when the tail has room for a header |
| PerfRing.FrameWritten | kernel/src/perf/bpf.rs:149-213 | writing a record keeps the stream without gaps, the distance from tail to head within the region, and every unread byte |
| PerfEvents.RingPage.CanWrite | kernel/src/perf/bpf.rs:84-87 | the capacity computed modulo 2^64 is the free space |
| PerfEvents.RingPage.WriteAny | kernel/src/perf/bpf.rs:149-163 | the bytes are in the ring around its end, other bytes are kept; panics exactly when there is nothing or too much to write |
| PerfEvents.RingPage.WriteSample | kernel/src/perf/bpf.rs:176-197 | a sample record with its padding, panics exactly for empty data |
| PerfEvents.RingPage.WriteLost | kernel/src/perf/bpf.rs:199-213 | a lost record with the pending count, which is reset |
| PerfEvents.RingPage.WriteEvent | kernel/src/perf/bpf.rs:89-144 | a record that fits is written, one that does not is counted as lost, and a pending count that fits goes first; events offered are samples written, counts in lost records and the pending count together |
| PerfEvents.RingPage.Consume | kernel/src/perf/bpf.rs:89-94 | a consumer that stops at record boundaries keeps the ring valid |
| PerfEvents.ReadBack | kernel/src/perf/bpf.rs:176-213 | a record is read back as it was written |
| PerfEvents.Layout | kernel/src/perf/bpf.rs:176-213 | every byte of a record: kind, size and length little-endian at their places, then the value or the count |
| PerfEvents.StrideReadBack | kernel/src/perf/bpf.rs:176-193 | its length can be read back exactly when it fits into 16 bits |
| PerfEvents.WalkExact | kernel/src/perf/bpf.rs:89-213 | walking the records from the tail reads exactly the unread messages and lands on the head |
| PageCache.Cutting | kernel/src/filesystem/page_cache.rs:139-160 | page offsets and lengths computed by the loops are the parts of the range in each page, and add up |
| PageCache.InnerPageCache.CreatePages | kernel/src/filesystem/page_cache.rs:65-102 | the pages of the buffer, as many as there are frames for, each of which costs one |
| PageCache.InnerPageCache.CopyResident | kernel/src/filesystem/page_cache.rs:143-181 | what is resident is copied, and the runs are the maximal stretches of missing pages |
| PageCache.RecordMissing | kernel/src/filesystem/page_cache.rs:170-178 | recording a missing page keeps the runs maximal, apart and complete |
| PageCache.InnerPageCache.FillRun | kernel/src/filesystem/page_cache.rs:183-213 | a run comes from the disk into pages and buffer, and the file does not change; an error exactly when it cannot be read, out of memory exactly when it is longer than the frames left, and then as many pages as there were frames are made |
| PageCache.InnerPageCache.FillRuns | kernel/src/filesystem/page_cache.rs:183-216 | all runs are fetched exactly when there are frames for all missing pages and no run is unreadable; otherwise the first run that fails decides, and the pages before it are resident |
| PageCache.InnerPageCache.Read | kernel/src/filesystem/page_cache.rs:115-216 | exactly the bytes of the range within the file, from the page where it was resident and otherwise from the disk, zero behind its end; the file does not change even on errors, and every touched page is resident afterwards; an error exactly when a stretch of missing pages that the frames reach cannot be read, success exactly when there is none and there are frames for all missing pages |
| PageCache.InnerPageCache.Write | kernel/src/filesystem/page_cache.rs:229-291 | every byte is stored once at its place, exactly the touched pages become dirty, and the rest of the file is as stated; succeeds exactly when there are frames for the touched pages that were not resident; otherwise a first part is stored, up to the page for which there was none |
| PageCache.InnerPageCache.WriteThenRead | kernel/src/filesystem/page_cache.rs:115-291 | what was written is what is read, and the read succeeds exactly if the write had frames |
| PageCache.WriteKeepsRest | kernel/src/filesystem/page_cache.rs:262-277 | the rest of the file is kept exactly when the disk holds zeros around the range on pages that were not resident |
| PageCache.WriteLosesNeighbour | kernel/src/filesystem/page_cache.rs:262-277 | a byte on disk that reads as zero after its neighbour was written |
| PageCache.InnerPageCache.Resize | kernel/src/filesystem/page_cache.rs:293-314 | pages behind the end go, the file below it is kept, a resident last page is cleared behind it, and a missing last page is an error |
| Pipe.InnerPipeInode.Open | kernel/src/ipc/pipe.rs:299-332 | the counts of readers and writers, and when opening is refused |
| Pipe.InnerPipeInode.Close | kernel/src/ipc/pipe.rs:342-375 | the counts fall, and closing an end that is not open fails an assertion |
| Pipe.InnerPipeInode.ReadAt | kernel/src/ipc/pipe.rs:202-297 | the oldest bytes, as many as there are up to the request; nothing for a request of some bytes only when empty without writers; every error case; panics exactly when all of a full buffer is taken |
| Pipe.InnerPipeInode.WriteAt | kernel/src/ipc/pipe.rs:377-486 | all bytes in one piece at the end of the queue, or none; each error, waiting and success exactly when, blocking or not; panics exactly for 1024 bytes that fit |
| Pipe.InnerPipeInode.ResumeWrite | kernel/src/ipc/pipe.rs:432-466 | the part of a write from its loop on, which is where a write that waited goes on: all bytes in one piece or none, whether there are readers or not; exactly when it waits asleep, spins, panics and succeeds |
| Pipe.ResumedAsAnew | kernel/src/ipc/pipe.rs:398-450 | a write that waited has the result of the same write made anew exactly if there are readers |
| Pipe.WaitExact | kernel/src/ipc/pipe.rs:166-169 | a write without room sleeps exactly if the pipe is full and has readers, and spins exactly otherwise |
| Pipe.TakeQueue | kernel/src/ipc/pipe.rs:255-279 | moving the read position takes the bytes off the front: what was read so far is a prefix of what was written |
| Pipe.PutQueue | kernel/src/ipc/pipe.rs:453-466 | storing at the write position appends to the queue and overwrites nothing in it |

## Left out

- Red-black tree: `deep_clone`, `IntoIter`, `IterMut`, printing, `clear`, and freeing a node's memory.
- Page tables: huge pages, `map_linearly`, `clone` without copy-on-write, TLB flushes, and the encoding of an entry into 64 bits (an entry is a frame and a set of flags).
- Copy-on-write: private file mappings, `do_fault_around`, swap and NUMA faults, huge pages, shared memory segments, and reclaim; address spaces are flat maps here, which the trees of page tables are shown to be; that a fault may need frames for tables too, the kernel half of the root tables, which all spaces share, and `handle_mm_fault`, which drops the result of the fault it handles, are not modelled.
- PageFaults.UserMemory.TryClone: the lookup from pages to areas is filled page by page, where the source enters a whole area at once.
- Memory map: sums of base and size that pass the end of the address space.
- Reader/writer lock: `downgrade_to_upgradeable` is not among the steps of a run, because it breaks the invariant; memory orderings weaker than sequential consistency, preemption counts, interrupt guards, `leak` and `force_*`.
- MMIO pool: merging of small blocks (`merge_all_exp`, `merge_blocks`), which waits for a lock that is held, and the mapping of the blocks to devices.
- Perf ring: head and tail counters that wrap at 2^64, and tails that are not at a record boundary.
- Page cache: writeback of dirty pages, and the page reclaimer.
- Pipe: wait queues, signals, polling and the interruption of a sleeping call.
- Everything else in the kernel: scheduler, interrupts, file systems, network, drivers and namespaces.
