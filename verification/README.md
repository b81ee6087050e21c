# Mazu kernel: verified models

Dafny models of the algorithmic core of the Mazu RV64 kernel, with proofs of what each
part promises over all inputs, all runs or all reachable states. `dafny verify
dfyconfig.toml` checks everything.

Code that works by changing fields is a class whose methods carry the contract; the
value-level reasoning beside it is in functions and lemmas. The parts are:

- **Buddy allocator** (`Buddy.dfy`). A ghost owner per page (free, live or in transit, with
  the block's base and order) makes "free and live blocks partition the region" literal.
  The hard point is that freeing unlinks a buddy after looking only at page bits: the
  invariant that no two buddies are both free is what makes that sound.
- **Buffer cache** (`BCache.dfy`). The logical content of a sector is the valid buf's data,
  else the disk's. Reads, evictions and write-backs are invisible in it; a sync makes the
  disk equal to it.
- **Simple filesystem** (`SfsImage.dfy`, `SfsPaths.dfy`, `SfsExtents.dfy`, `Sfs.dfy`). It
  runs on the buffer cache above. The space invariant says that the bitmap marks exactly
  the reserved sectors and the live extents, which are disjoint; the tree invariant ranks
  every entry above its parent. The grow path copies sectors upwards between ranges that
  may overlap; first fit is why that is right.
- **Sv39 page tables** (`Paging.dfy`). Raw 64-bit entries, decoded to a tree without shared
  tables. The hardware walk of the raw words is proved equal to the tree's translation, and
  the hardware's access checks decide which loads, stores and fetches go through.
- **Message queues** (`MQueue.dfy`). One method per region under the queue lock, so any
  interleaving of any number of threads is a sequence of calls. The no-lost-wake-up bound
  counts woken but not yet resumed threads against messages and free slots.
- **Seqlocks and the tables behind them** (`Seqlock.dfy`, `ArpTable.dfy`). A step machine
  of writers and one reader at cell granularity; the PMTU and ARP tables as maps.
- **Init graph** (`InitGraph.dfy`). Counting in-degrees over multi-edges, the work queue,
  and the cycle found among tasks that never run.
- **Lock levels** (`Lockdep.dfy`). Any number of CPUs; masks, wait-for graph, progress.
- **Signals** (`Signal.dfy`). The payload ring with its rollback slot and the pending summary.
- **JSON** (`JsonGrammar.dfy`, `JsonReads.dfy`, `JsonSound.dfy`, `Json.dfy`). A grammar of
  texts and meanings; the reader as specification functions, proved to accept exactly the
  grammar within its limits, and as the position-moving parser that refines them; emitter;
  round trip with its exact condition. An exponent is part of a number but does not count.
- **Response-time analysis** (`Wcrt.dfy`): the recurrence against a simulated processor.
- **Tick conversion** (`TickFrac.dfy`).

Eight properties one might expect do not hold of the code as it is. Each is stated with the
exact condition under which it does:

- Creating `//b` or `a//b`, or a name with a NUL in it, does not find the existing entry
  and adds a second one of the same name (`DoubledSlashMakesDuplicates`,
  `NulMakesDuplicates`; the condition is in `CreateKeepsUnique`).
- A receiver with a buffer shorter than the message it was woken for leaves the message and
  wakes nobody, so another receiver can wait beside it (`ShortBufferStrands`; with buffers
  of at least the queue's message size it cannot happen, `AmpleReceiversHanded`).
- A filesystem write whose end is beyond 2^32 - 512 bytes computes too few sectors
  (`Sectors32Enough`).
- A string with a control byte other than newline, carriage return and tab is printed
  with a long escape that the reader does not decode (`RoundTrip` is an equivalence).
- A seqlock reader that is overtaken by exactly 2^32 counter steps accepts a torn snapshot
  (`TornRead`; the exact bound is `WrapBoundIsExact`).
- A free of pages nobody owns is reported as a double free, except in a region from which
  nothing has been allocated yet, where it lists the block again (`FreeRaw`).
- A signal payload that is claimed and put back can let in one payload that would have been
  refused (`RollbackLetsOneIn`; `RollbackInvisibleExactly` says exactly when).
- The response-time analysis gives up after 1000 rounds and then calls a task schedulable
  that has no response time at all (`BusyRounds`; `CapBoundIsExact` gives the bound).

## Model

| member | source | states |
|---|---|---|
| `BuddyAllocator.Buddy.constructor` | kernel/mm/buddy.c:55-107 | the region starts as one free block of the top order on its list, and the whole invariant holds |
| `BuddyAllocator.Buddy.SetBitmap` | kernel/mm/buddy.c:109-123 | exactly the bits of the block's pages take the value; every other bit of the packed byte map is unchanged |
| `BuddyAllocator.Buddy.IsAvail` | kernel/mm/buddy.c:221-237 | true if and only if every page bit of the range is set |
| `BuddyAllocator.Buddy.AllocRaw` | kernel/mm/buddy.c:147-201 | fails if and only if the order is out of range or no naturally aligned free run of 2^order pages exists anywhere; on success the run was free and is now one live block, cut from a free block of the smallest order that has one, no page outside it changes between free and live, and the exact partition and the coalesced lists are kept; on failure nothing changes, no bit of the map included |
| `BuddyAllocator.Buddy.TakeFirst` | kernel/mm/buddy.c:167-171 | the head of the list was a free block of exactly that order; it leaves the list and its bits are cleared |
| `BuddyAllocator.Buddy.Carve` | kernel/mm/buddy.c:167-201 | the block handed out is an aligned part of the block taken, and the rest is back on the lists as free blocks |
| `BuddyAllocator.Buddy.SplitOnce` | kernel/mm/buddy.c:180-194 | the upper half becomes a listed free block, the lower half stays in transit, the partition is kept |
| `BuddyAllocator.Buddy.SplitDown` | kernel/mm/buddy.c:180-194 | repeated halving down to the requested order at the same address |
| `BuddyAllocator.Buddy.FreeRaw` | kernel/mm/buddy.c:239-274 | a live block's pages become free, no other page changes between free and live, the partition is kept and no two buddies are both free; an order out of range is ignored; a free of pages that are already free is reported and changes nothing if and only if their block is below the top order or an allocation has ever succeeded; in a region nothing was ever allocated from it goes unnoticed and puts the block on the list of its order, beside the top block that holds it |
| `BuddyAllocator.Buddy.Coalesce` | kernel/mm/buddy.c:254-269 | the merging loop stops at the top order or at a buddy that is not a free block of the current order, and absorbs only free pages |
| `BuddyAllocator.Buddy.CoalesceOnce` | kernel/mm/buddy.c:254-269 | when the buddy's bits are all set, what is unlinked is a member of the list of the current order, although the code never reads its order |
| `BuddyAllocator.Buddy.Finish` | kernel/mm/buddy.c:271-274 | the coalesced block goes on the list of its order and the allocator invariant holds again |
| `BuddyAllocator.Buddy.StatsGet` | kernel/mm/buddy.c:308-325 | the sum over the lists is the number of free pages, and free plus live pages is the total |
| `BuddySpec.BuddyOfAligned` | kernel/mm/buddy.c:203-219 | the buddy of an aligned block exists, is aligned, and is the other half of the enclosing block |
| `BuddySpec.BuddyExists` | kernel/mm/buddy.c:203-219 | the crash on an invalid block happens exactly for a block that is not aligned to its order |
| `BuddySpec.AvailableBuddyIsWholeBlock` | kernel/mm/buddy.c:221-274 | in every consistent state, if all bits of the buddy range at an order below the top are set, the buddy address heads a free block of exactly that order, on that list |
| `BuddySpec.FreeRunIsBlock` | kernel/mm/buddy.c:221-274 | with no two free buddies, an aligned run of free pages next to a block in transit is one whole free block, never several smaller ones |
| `BuddySpec.FreeRunInsideBlock` | kernel/mm/buddy.c:147-201 | any aligned free run lies inside a single free block of at least its order |
| `BuddySpec.NoBlockNoRun` | kernel/mm/buddy.c:147-201 | empty lists from the requested order up mean that no aligned free run of that order exists |
| `BuddySpec.FirstListFits` | kernel/mm/buddy.c:154-169 | the first list found non-empty holds the smallest free blocks of at least the requested order |
| `BuddySpec.FreeRunBitsSet` | kernel/mm/buddy.c:221-237 | the bits of a free run are all set, in any block below the top order and, once an allocation has succeeded, in the top block too, so a second free is noticed |
| `BuddySpec.AllFreeIsOneBlock` | kernel/mm/buddy.c:239-274 | when every page is free there is exactly one block, of the top order, and it is the only list member |
| `BuddySpec.SplitKeeps` | kernel/mm/buddy.c:180-194 | splitting a block in transit keeps the partition and the absence of free buddy pairs |
| `BuddySpec.MergeKeeps` | kernel/mm/buddy.c:254-269 | absorbing the free buddy keeps both as well |
| `BuddySpec.SettleKeeps` | kernel/mm/buddy.c:239-274 | handing a block out, or listing it when its buddy is not free, keeps both |
| `BuddySpec.LevelPages` | kernel/mm/buddy.c:308-325 | a list of n blocks of order k holds n * 2^k pages |
| `BuddySpec.PagesSplit` | kernel/mm/buddy.c:308-325 | free and live pages partition the region |
| `BufferCache.BCache.constructor` | kernel/fs/bcache.c:76-106 | all bufs invalid, unpinned and on the recency list; the logical content is the disk |
| `BufferCache.BCache.Touch` | kernel/fs/bcache.c:24-28 | the buf moves to the front; the list stays a permutation of the bufs |
| `BufferCache.BCache.FlushBuf` | kernel/fs/bcache.c:31-40 | a dirty buf reaches the disk and is logged; no sector's logical content changes |
| `BufferCache.BCache.FindBuf` | kernel/fs/bcache.c:43-50 | finds a valid buf of the sector if there is one |
| `BufferCache.BCache.Evict` | kernel/fs/bcache.c:55-72 | gives the least recently used unpinned buf, written back; fails if and only if every buf is pinned; logical content unchanged |
| `BufferCache.BCache.Load` | kernel/fs/bcache.c:125-155 | the evicted buf now holds the sector's logical content; nothing else changes |
| `BufferCache.BCache.Refill` | kernel/fs/bcache.c:135-154 | a clean buf takes over an absent sector with its content; invisible in the logical content |
| `BufferCache.BCache.Hit` | kernel/fs/bcache.c:114-122 | only the reference count and the recency list change |
| `BufferCache.BCache.Read` | kernel/fs/bcache.c:108-156 | the returned buf holds the logical content of the sector; no sector's logical content changes; a pinned buf keeps its sector, data and flags; the buf is now the most recent; fails if and only if the sector is absent and every buf is pinned |
| `BufferCache.BCache.Store` | kernel/fs/bcache.c:158-168 | a store into a pinned, dirtied buf is a logical write to that sector alone |
| `BufferCache.BCache.Release` | kernel/fs/bcache.c:170-174 | drops one reference, invisible in the logical content |
| `BufferCache.BCache.FlushPass` | kernel/fs/bcache.c:180-198 | one pass writes exactly the dirty bufs with its meta flag, and nothing visible changes |
| `BufferCache.BCache.Sync` | kernel/fs/bcache.c:176-201 | afterwards the disk equals the logical content, nothing is dirty, what was written is what was dirty, and in the device log all data writes of this sync come before all its metadata writes |
| `CacheSpec.FlushInvisible` | kernel/fs/bcache.c:31-40 | writing a buf back changes no logical content and keeps one valid buf per sector |
| `CacheSpec.ReloadInvisible` | kernel/fs/bcache.c:108-156 | giving a clean buf to an absent sector changes no logical content and keeps one valid buf per sector |
| `CacheSpec.StoreVisible` | kernel/fs/bcache.c:158-162 | new data in a buf changes the logical content of its sector only |
| `CacheSpec.CleanIsSynced` | kernel/fs/bcache.c:176-201 | with nothing dirty the disk is the logical content |
| `Sfs.RunFromFormat` | kernel/fs/sfs.c:315-937 | from a fresh cache over any disk content, after formatting and any sequence of operations by path, failed ones included: the views of the run follow one from the other exactly as each operation is specified, the invariant holds, the check succeeds and every live entry reaches the root; with plain paths sibling names stay unique |
| `Sfs.Filesystem.Apply` | kernel/fs/sfs.c:540-937 | each single operation goes through exactly when its conditions hold and then does to the view what it is specified to do, and otherwise changes nothing; the invariant is kept, and sibling names stay unique for plain paths |
| `Sfs.Filesystem.Format` | kernel/fs/sfs.c:315-387 | on sectors of any content: only the root entry is live, exactly the sectors below the data region are marked, the disk is synced |
| `Sfs.Filesystem.Sync` | kernel/fs/sfs.c:645-645 | the disk equals the logical content, and every write of the sync to the data region comes before every write to superblock, bitmap or directory |
| `Sfs.OrderedBySector` | kernel/fs/sfs.c:1-13 | the meta flags the filesystem sets make the cache's two passes an order by sector kind |
| `Sfs.Filesystem.WriteSuper` | kernel/fs/sfs.c:289-300 | the superblock sector holds the current counter and the view is unchanged |
| `Sfs.Filesystem.BitmapGet` | kernel/fs/sfs.c:37-52 | reads the allocation bit of the sector through the cache |
| `Sfs.Filesystem.BitmapSet` | kernel/fs/sfs.c:54-74 | changes that one bit of the view and nothing else |
| `Sfs.Filesystem.FindRun` | kernel/fs/sfs.c:79-103 | returns the start of a free run that begins at the data region or right behind a marked sector; 0 if and only if no run of that length exists |
| `Sfs.Filesystem.BitmapAlloc` | kernel/fs/sfs.c:79-103 | the run found becomes marked, nothing else changes; on failure nothing changes |
| `Sfs.Filesystem.BitmapFree` | kernel/fs/sfs.c:105-114 | exactly the range is cleared and the counter rises by its length |
| `Sfs.Filesystem.MarkRange` | kernel/fs/sfs.c:92-94 | exactly the range takes the value |
| `Sfs.Filesystem.ReadDirent` | kernel/fs/sfs.c:118-134 | the entry of the view |
| `Sfs.Filesystem.WriteDirent` | kernel/fs/sfs.c:118-134 | a store through an entry pointer changes that entry of the view only |
| `Sfs.Filesystem.AllocDirent` | kernel/fs/sfs.c:137-150 | the lowest free entry, or none |
| `Sfs.Filesystem.LookupPath` | kernel/fs/sfs.c:155-212 | a path resolves to the entry found by going down the tree from the root by its parts, one child after the other, whatever single slashes lead or trail |
| `Sfs.Filesystem.ParentDir` | kernel/fs/sfs.c:215-285 | the name is the last part of the path, and the parent is found by going down directories by the parts before it |
| `Sfs.Filesystem.Fsck` | kernel/fs/sfs.c:419-448 | succeeds if and only if every sector of every live file is marked |
| `Sfs.Filesystem.Read` | kernel/fs/sfs.c:487-538 | returns exactly the file's bytes from the offset, cut at the end of file and at the room in the buffer; refuses directories |
| `Sfs.Filesystem.ReadBytes` | kernel/fs/sfs.c:517-535 | the sector by sector copy is a slice of the file's bytes |
| `Sfs.Filesystem.Grow` | kernel/fs/sfs.c:575-611 | fails if and only if no run exists once the old extent is free, and then every bit is restored; otherwise the run was free, and the old sectors are found at the new place although the ranges may overlap; the free counter's exact change, including its drift on failure |
| `Sfs.Filesystem.CopySectors` | kernel/fs/sfs.c:593-607 | the ascending copy moves the sectors correctly when it starts at or before the source or the ranges are apart |
| `Sfs.Filesystem.Resize` | kernel/fs/sfs.c:563-620 | keeps the invariant and every old byte of the file |
| `Sfs.Filesystem.WriteBytes` | kernel/fs/sfs.c:624-643 | the data lands at its offset in the extent; no other byte of any sector changes |
| `Sfs.Filesystem.Write` | kernel/fs/sfs.c:540-648 | on success the file has the new bytes at the offset, keeps its other old bytes and its size or more, every other file keeps its bytes, the disk is synced; out of space and directory errors exactly characterised and without effect |
| `Sfs.Filesystem.Make` | kernel/fs/sfs.c:729-784 | each error if and only if its condition holds, in the code's order, without effect; otherwise one free entry is filled in; for every path, names stay unique if and only if the last component, cut at a NUL, is not empty and new in its directory, and then every path that resolved still does; a path with no doubled slash before its last component and no NUL in it always has a new name and now resolves to the new entry |
| `Sfs.Filesystem.Create` | kernel/fs/sfs.c:729-784 | succeeds or fails with the specified error, decided by the view alone; the new entry is an empty file |
| `Sfs.Filesystem.Mkdir` | kernel/fs/sfs.c:829-880 | succeeds or fails with the specified error, decided by the view alone; the new entry is a directory without children |
| `Sfs.Filesystem.Unlink` | kernel/fs/sfs.c:786-827 | the file's extent and entry become free, every other file keeps its bytes, the path no longer resolves; errors exactly characterised |
| `Sfs.Filesystem.Rmdir` | kernel/fs/sfs.c:882-937 | only an empty directory other than the root is removed, so no entry loses its parent; errors exactly characterised |
| `SfsExtents.FirstFitStartsBefore` | kernel/fs/sfs.c:79-103 | a first fit run that meets the just freed extent starts at or before it |
| `SfsExtents.CopyStep` | kernel/fs/sfs.c:593-607 | then the sector copied next has not been overwritten yet |
| `SfsExtents.GrowKeeps` | kernel/fs/sfs.c:575-617 | freeing, allocating and repointing keeps extents disjoint, inside the data region, and the bitmap exactly their union |
| `SfsExtents.GrowMoves` | kernel/fs/sfs.c:575-617 | the grown file begins with all its old bytes, and only its own new sectors were written |
| `SfsExtents.OthersKeep` | kernel/fs/sfs.c:540-648 | writing only into one file's extent changes no other file's bytes |
| `SfsExtents.UnlinkKeeps` | kernel/fs/sfs.c:786-827 | freeing a file's extent with its entry keeps the space invariant |
| `SfsExtents.RestoredBits` | kernel/fs/sfs.c:582-591 | marking the freed extent again gives back the bitmap |
| `SfsExtents.WriteIsRight` | kernel/fs/sfs.c:540-648 | a resize that keeps the old bytes, followed by an overlay of the data, is a correct write |
| `SfsExtents.OverlayStep` | kernel/fs/sfs.c:624-643 | one chunk of the write loop extends the overlaid bytes |
| `SfsExtents.Sectors32Enough` | kernel/fs/sfs.c:563-571 | the 32-bit sector count is large enough if and only if the size is at most 2^32 - 512 |
| `SfsPaths.LookupAgrees` | kernel/fs/sfs.c:155-285 | what a path resolves to is the child, by its last component, of what its parent resolves to, except that nothing behind a doubled slash resolves |
| `SfsPaths.PathMeans` | kernel/fs/sfs.c:155-212 | for every path, split at its slashes: it resolves to the entry reached by going down the tree by its parts, of which up to two empty ones at the end do not count |
| `SfsPaths.ParentMeans` | kernel/fs/sfs.c:215-285 | for every path: its name is the last part, and its parent is what the parts before lead to through directories, of which one empty one at the end does not count |
| `SfsPaths.PathOfNames` | kernel/fs/sfs.c:155-285 | for every list of names, joined with slashes and with or without one in front and one behind: the path leads down by exactly these names, its parent by all but the last, and its name is the last |
| `SfsPaths.EveryPathIsSpelled` | kernel/fs/sfs.c:155-285 | every path has such parts |
| `SfsPaths.WalkDescends` | kernel/fs/sfs.c:179-209 | the component loop goes down by the parts of the text it is given |
| `SfsPaths.ParentChainsReachRoot` | kernel/fs/sfs.c:315-387 | in every tree, following parents from a live entry reaches the root |
| `SfsPaths.CreateKeepsUnique` | kernel/fs/sfs.c:729-784 | creating a path that did not resolve keeps names unique if and only if the stored name is new, as it always is without a doubled slash and a NUL |
| `SfsPaths.DoubledSlashMakesDuplicates` | kernel/fs/sfs.c:155-285 | where b exists, the path //b does not resolve although its parent does, and creating it gives two entries of the same name |
| `SfsPaths.NulMakesDuplicates` | kernel/fs/sfs.c:27-33 | where b exists, a path whose last component is b, a NUL and an x does not resolve, and creating it gives two entries named b |
| `SfsPaths.AddKeepsLookups` | kernel/fs/sfs.c:729-784 | a new entry changes no path that resolved |
| `SfsPaths.RemoveKeepsTree` | kernel/fs/sfs.c:882-937 | freeing an entry without children keeps the tree and unique names |
| `SfsPaths.RemovedIsNotFound` | kernel/fs/sfs.c:786-827 | a removed path no longer resolves |
| `SfsImage.PutBitView` | kernel/fs/sfs.c:54-74 | a store into one bitmap sector changes one bit of the view |
| `SfsImage.PutDirentView` | kernel/fs/sfs.c:118-134 | a store into one directory sector changes one entry of the view |
| `Sv39.PteMakeFields` | arch/riscv64/paging.c:45-63 | the address and the ten flag bits read back out of an encoded entry |
| `PageTables.HardwareSeesView` | arch/riscv64/paging.c:145-179 | on every tree these functions build, the three-level hardware walk of the raw entries is the modelled translation, for every address |
| `PageTables.PermsOk` | arch/riscv64/paging.c:403-426 | permissions that pass the write-xor-execute test give a leaf that is never user, writable and executable together |
| `PageTables.PermsGrant` | arch/riscv64/paging.c:414-426 | the hardware, with its checks of the valid, permission, user, accessed and dirty bits, lets through exactly the loads, stores and fetches of user and supervisor mode that the permissions name; the entry is global if and only if the page is not a user page |
| `PageTables.RejectMeans` | arch/riscv64/paging.c:403-412 | what is refused is exactly what would let user mode both write and fetch |
| `PageTables.KernelGrants` | arch/riscv64/paging.c:41-43 | on a kernel superpage the kernel may read and write, and fetch if it holds code; user mode has no access |
| `PageTables.StoredFlags` | arch/riscv64/paging.c:27-43 | the numbers stored for a user code page, kernel code and kernel data |
| `Sv39.IndicesAreDigits` | arch/riscv64/paging.c:65-77 | the three table indices are the digits of the page number of the 39-bit address |
| `PageTables.SamePageMeans` | arch/riscv64/paging.c:65-77 | two addresses have the same indices exactly when they lie in the same 4 KiB page, and the same upper two exactly when in the same 2 MiB page |
| `PageTables.OnePageRegrants` | arch/riscv64/paging.c:387-464 | what a successful call does to the accesses of its page |
| `PageTables.BootMappingReach` | arch/riscv64/paging.c:327-371 | after initialisation an access reaches exactly what the last superpage over its address gives it |
| `PageTables.IdentityMapped` | arch/riscv64/paging.c:119-127 | every address of a superpage reaches itself |
| `PageTables.ShatterTable` | arch/riscv64/paging.c:130-139 | 512 small leaves that map what the large leaf mapped |
| `PageTables.RunPaging` | arch/riscv64/paging.c:308-504 | from initialisation on, with any superpages mapped at first and any sequence of map, unmap and update calls: initialisation completes if and only if the pool has a table for the root and each gigapage, and then every access reaches exactly what the superpages give it; a call goes through if and only if its permissions are allowed, the pool has the pages its walk needs and an update finds its page mapped; then exactly the accesses its permissions name go through on its page, no other page changes and the generation moves, otherwise nothing; any two moments of equal generation have equal translations and permissions of every address; at no moment is a mapping user, writable and executable |
| `PageTables.Boot` | arch/riscv64/paging.c:308-386 | completes if and only if the pool has a table for the root and for each gigapage; then every access reaches what the last superpage mapped over its address gives it, and nothing outside them is reached |
| `PageTables.EqualGenerationsEqualMappings` | arch/riscv64/paging.c:501-504 | between any two moments of such a run the generation never falls, and equal generations mean equal mappings |
| `PageTables.AddressSpace.Apply` | arch/riscv64/paging.c:387-464 | any one call goes through exactly when its permissions, the pool and, for an update, the mapping allow it; then exactly the accesses its permissions name go through on its page, no other page changes, and the generation moves by one; otherwise no mapping and no generation changes |
| `PageTables.AddressSpace.constructor` | arch/riscv64/paging.c:318-324 | an empty root maps nothing |
| `PageTables.AddressSpace.HangTable` | arch/riscv64/paging.c:95-103 | a fresh table hung into an entry keeps the tree, without sharing a table |
| `PageTables.AddressSpace.EnsureL1` | arch/riscv64/paging.c:111-117 | succeeds if and only if the middle table exists or the pool has a page; no translation changes |
| `PageTables.AddressSpace.Shatter` | arch/riscv64/paging.c:130-139 | replacing a 2 MiB leaf by a table of 4 KiB leaves changes no translation and no permission; it fails if and only if the pool is used up |
| `PageTables.AddressSpace.EnsureL0` | arch/riscv64/paging.c:155-176 | the last-level table exists afterwards, by shattering or by a fresh table; it fails if and only if one is needed and the pool is used up; no translation changes |
| `PageTables.AddressSpace.WalkL0` | arch/riscv64/paging.c:145-179 | returns the small page's slot if and only if the pool has the pages the walk needs; no translation and no permission of any address changes, even when it shatters, allocates or runs out |
| `PageTables.AddressSpace.UnmapPage` | arch/riscv64/paging.c:387-397 | exactly that page becomes unmapped and every other address keeps its mapping, unless the pool lacks the pages for the walk, and then nothing changes |
| `PageTables.AddressSpace.MapPage` | arch/riscv64/paging.c:428-443 | afterwards exactly the accesses the permissions name go through on that page, to the given frame, and no other page changes; rejected if and only if user mode could both write and fetch; out of pages if and only if the pool lacks the pages for the walk; no effect in either case |
| `PageTables.AddressSpace.UpdatePagePerms` | arch/riscv64/paging.c:445-464 | afterwards exactly the accesses the new permissions name go through on that page, to the same frame, and no other page changes; each of the three failures if and only if its own condition holds, and then no mapping changes |
| `PageTables.AddressSpace.LookupLeaf` | arch/riscv64/paging.c:184-210 | finds a leaf if and only if the hardware walk does, with the same flags |
| `PageTables.AddressSpace.Map2M` | arch/riscv64/paging.c:120-127 | exactly the addresses of that 2 MiB page get the mapping, whatever was mapped there; fails if and only if a middle table is needed and the pool is used up |
| `PageTables.AddressSpace.NoUserWriteExec` | arch/riscv64/paging.c:403-426 | no reachable mapping is user, writable and executable |
| `PageTree.ShatterInvisible` | arch/riscv64/paging.c:130-139 | shattering is invisible in the translation of every address |
| `PageTree.HangEmptyInvisible` | arch/riscv64/paging.c:111-117 | hanging an empty table into an empty entry is invisible |
| `PageTree.StoreL0Views` | arch/riscv64/paging.c:387-464 | a store into a last-level entry changes one page's translation only |
| `MessageQueue.MQueue.Open` | kernel/ipc/mqueue.c:79-106 | a new generation, empty, with limits in range; otherwise an error |
| `MessageQueue.MQueue.Close` | kernel/ipc/mqueue.c:112-156 | storage reset, both wait lists empty, every waiter released |
| `MessageQueue.MQueue.MsgAlloc` | kernel/ipc/mqueue.c:225-232 | finds a free slot whenever fewer than the maximum are listed |
| `MessageQueue.MQueue.FindPlace` | kernel/ipc/mqueue.c:235-249 | stops before the first strictly lower priority |
| `MessageQueue.MQueue.Put` | kernel/ipc/mqueue.c:225-249 | the message is inserted at its place; slots in use stay exactly the listed ones; the per-priority history grows |
| `MessageQueue.MQueue.WakeOne` | kernel/ipc/mqueue.c:251-259 | exactly the longest waiting thread is handed a wake-up and leaves the list; no other waiter changes |
| `MessageQueue.MQueue.SendEnter` | kernel/ipc/mqueue.c:261-303 | first pass of a blocking send: sends if and only if the arguments pass, the queue is open and there is room; waits if and only if it is instead full and nothing aborts the wait, as a new waiter at the end of the senders; otherwise fails without effect |
| `MessageQueue.MQueue.SendLoop` | kernel/ipc/mqueue.c:274-338 | sends if and only if there is room and the queue is the same generation; otherwise parks or fails without effect |
| `MessageQueue.MQueue.TrySend` | kernel/ipc/mqueue.c:340-377 | sends or reports a full queue, without waiting |
| `MessageQueue.MQueue.TimedSendEnter` | kernel/ipc/mqueue.c:402-469 | sends if and only if the checks made before the lock passed, the queue is open and there is room; waits if and only if it is instead full and nothing aborts the wait, as a new waiter at the end of the senders; the size condition of the wake-up bound is lost only if the size check saw a larger limit than the queue now has |
| `MessageQueue.MQueue.DoReceive` | kernel/ipc/mqueue.c:531-560 | returns the head if it fits the buffer and wakes the longest waiting sender; a short buffer leaves the message, and cannot occur while all buffers are at least the queue's message size |
| `MessageQueue.MQueue.Take` | kernel/ipc/mqueue.c:542-554 | the head's slot is freed and the history moves on by that message |
| `MessageQueue.MQueue.ReceiveEnter` | kernel/ipc/mqueue.c:562-608 | first pass of a blocking receive |
| `MessageQueue.MQueue.ReceiveLoop` | kernel/ipc/mqueue.c:579-625 | receives if there is a message of the same generation; otherwise parks or fails |
| `MessageQueue.MQueue.TryReceive` | kernel/ipc/mqueue.c:627-647 | receives or reports an empty queue |
| `MessageQueue.MQueue.TimedReceiveEnter` | kernel/ipc/mqueue.c:673-740 | receives if and only if the checks passed, the queue is open, has a message and the message fits; waits if and only if it is instead empty and nothing aborts the wait, as a new waiter at the end of the receivers; never dequeues from a closed or later generation |
| `MessageQueue.MQueue.Resume` | kernel/ipc/mqueue.c:305-338 | a woken or timed out thread continues its call: exact conditions for having sent, having received and waiting again, with the exact waiters and lists; the wake-up bound is kept |
| `MessageQueue.MQueue.RetrySend` | kernel/ipc/mqueue.c:305-338 | the sender's next turn: sends if and only if there is room, waits again if and only if there is none and nothing aborts the wait |
| `MessageQueue.MQueue.RetryReceive` | kernel/ipc/mqueue.c:609-625 | the receiver's next turn: receives if and only if a message is there and fits, waits again if and only if the queue is empty and nothing aborts the wait |
| `MessageQueue.MQueue.Timeout` | kernel/ipc/mqueue.c:385-400 | a waiter gives up only if nobody woke it, and no wake-up is lost |
| `MessageQueue.MQueue.SendNow` | kernel/ipc/mqueue.c:314-333 | the message is inserted at its place and the longest waiting receiver is handed a wake-up; the bound is kept |
| `MessageQueue.MQueue.AmpleReceiversHanded` | kernel/ipc/mqueue.c:251-259 | if since opening every receive had a buffer of at least the message size and every message passed the size check of this generation, a waiting receiver means no more queued messages than receivers woken and not yet resumed |
| `MessageQueue.ShortBufferStrands` | kernel/ipc/mqueue.c:531-560 | for every message size limit and every shorter buffer there is a run after which a receiver waits, a message it could take is queued, and no wake-up is on its way |
| `MessageQueue.MQueue.QuiescentNobodyStranded` | kernel/ipc/mqueue.c:251-259 | once every woken thread has resumed, a waiting receiver means an empty queue and a waiting sender a full one |
| `MessageOrder.HeadIsOldestHighest` | kernel/ipc/mqueue.c:235-249 | the head is of the highest queued priority and is the oldest unreceived message of it; what was received at each priority stays a prefix of what was sent |
| `MessageOrder.InsertKeepsOrder` | kernel/ipc/mqueue.c:235-249 | insertion keeps the order and makes the message the youngest of its priority |
| `MessageOrder.EnqueueKeepsHistory` | kernel/ipc/mqueue.c:235-249 | a send extends what was sent at its priority and nothing else |
| `Seqlock.SnapshotIsAnInstant` | kernel/net/ip.c:487-519 | in every interleaving of one reader's cell reads with serialised writers and fewer than 2^32 counter steps during the read, the returned snapshot is the whole entry as it stood at the read's first counter load, and still stands at its last |
| `Seqlock.RunKeepsInv` | kernel/net/ip.c:487-519 | the invariant of every run: what was read so far is unchanged unless the counter moved |
| `Seqlock.WriterCanGoOn` | kernel/net/ip.c:487-495 | a writer is never held up by the reader: it can begin when no write is in progress, and then store any cell or end |
| `Seqlock.ReaderCanGoOn` | kernel/net/ip.c:497-519 | the reader is never held up by a writer: it can always make its next load, of whatever the cell holds then |
| `Seqlock.AcceptedExactly` | kernel/net/ip.c:497-519 | in every run, a read that has loaded all cells returns them if and only if a multiple of 2^32 counter steps fell within it |
| `Seqlock.UndisturbedReadReturns` | kernel/net/ip.c:497-519 | from any state of any run without a write in progress, the reader's own steps end with the entry as it is |
| `Seqlock.ReadWaitsForWriter` | kernel/net/ip.c:501-504 | a read that starts while a write is in progress starts over |
| `Seqlock.TornRead` | kernel/net/ip.c:497-519 | for every number of writes there is a run whose read spans them and ends with a snapshot that was never the entry's value at any moment of the read; it is returned if and only if the counter has come round |
| `Seqlock.WrapBoundIsExact` | kernel/net/ip.c:487-519 | whatever is returned within b counter steps is a value the entry had during the read, for all runs, if and only if b is below 2^32 |
| `PmtuCache.Cache.Update` | kernel/net/ip.c:534-584 | one entry per destination; a live entry only decreases and never below 576; a new destination evicts only an expired entry or, in a full cache without one, the oldest; nothing else changes |
| `PmtuCache.Cache.Lookup` | kernel/net/ip.c:586-599 | the path MTU of a live entry, 0 otherwise |
| `PmtuCache.ExpiredFrom` | kernel/net/ip.c:586-599 | a record is expired from ten minutes on, also when the clock wraps meanwhile |
| `PmtuCache.UpdateThenLookup` | kernel/net/ip.c:534-599 | what an update recorded is answered for exactly ten minutes |
| `PmtuCache.Cache.Store` | kernel/net/ip.c:521-532 | the table gains exactly that record in place of what the slot held |
| `PmtuCache.Cache.FindVictim` | kernel/net/ip.c:564-579 | a free or expired slot, else the oldest |
| `PmtuCache.LiveNeverIncreases` | kernel/net/ip.c:534-584 | over an update, a live record never grows, never drops below the minimum, and changes only for its own destination |
| `ArpTable.Arp.UpdateOrInsert` | kernel/net/arp.c:186-217 | one entry per address; an existing address is overwritten, a new one takes a free or stale slot, and only a table full of fresh entries refuses it |
| `ArpTable.Arp.Lookup` | kernel/net/arp.c:148-164 | the MAC of a fresh entry, none otherwise |
| `ArpTable.StaleFrom` | kernel/net/arp.c:86-91 | an entry is stale from twenty minutes on, also when the clock wraps meanwhile |
| `ArpTable.LearnThenLookup` | kernel/net/arp.c:148-217 | what was learnt is answered for exactly twenty minutes |
| `ArpTable.Arp.Store` | kernel/net/arp.c:173-184 | the table gains exactly that record in place of what the slot held |
| `ArpTable.Arp.FindRoom` | kernel/net/arp.c:205-213 | a free or stale slot if there is one |
| `InitGraph.InitGraphRun` | kernel/init/initgraph.c:41-166 | every active task runs at most once and only after all active providers of its stages; all run if and only if the dependency graph is acyclic, and otherwise the tasks not run contain a cycle |
| `InitGraph.Filter` | kernel/init/initgraph.c:56-65 | the active tasks, in table order, are exactly those whose flags share a bit with the lifecycle flag |
| `InitGraphSpec.EdgeMeans` | kernel/init/initgraph.c:70-106 | one task depends on another exactly when it requires a stage the other entails |
| `InitGraph.Runner.CountProviders` | kernel/init/initgraph.c:70-85 | per stage, the number of times it is provided or entailed, repeats included |
| `InitGraph.Runner.CountInDegrees` | kernel/init/initgraph.c:87-105 | per task, the number of provider edges it waits for |
| `InitGraph.Runner.SeedQueue` | kernel/init/initgraph.c:107-112 | exactly the tasks without unmet providers are queued |
| `InitGraph.Runner.Release` | kernel/init/initgraph.c:137-144 | an in-degree that is released was positive, and the queue never overflows |
| `InitGraph.Runner.Satisfy` | kernel/init/initgraph.c:131-146 | every consumer of the stage loses exactly its uses of it |
| `InitGraph.Runner.Run` | kernel/init/initgraph.c:70-162 | the order respects all dependencies; if it is incomplete, the unrun tasks contain a cycle |
| `InitGraphSpec.StuckHasCycle` | kernel/init/initgraph.c:149-162 | a set of tasks each waiting for a member of it contains a cycle |
| `InitGraphSpec.CycleNeverRuns` | kernel/init/initgraph.c:149-162 | no task of a cycle can appear in an order that respects dependencies |
| `InitGraph.Verdict` | kernel/init/initgraph.c:149-162 | the count comparison at the end decides acyclicity exactly |
| `Lockdep.Pcpu.Acquire` | kernel/lockdep.h:50-64 | passes if and only if no level at or above is held, and then records exactly that level |
| `Lockdep.Pcpu.Release` | kernel/lockdep.h:69-81 | clears exactly that level; fires if and only if it was not recorded |
| `LockMask.FailedCheckMeans` | kernel/lockdep.h:50-64 | a failing mask test points at a held level at or above the requested one |
| `LockMask.CheckMeans` | kernel/lockdep.h:50-64 | a passing mask test excludes every level at or above |
| `LockMask.UpdateBits` | kernel/lockdep.h:50-81 | setting and clearing a level changes that bit alone |
| `LockMachine.RunKeepsInv` | kernel/lockdep.h:46-81 | in every run of any number of CPUs, each mask is exactly the levels tracked, one lock per level, and no lock has two holders |
| `LockMachine.MaskIsExact` | kernel/lockdep.h:46-81 | a level's bit is set if and only if the CPU holds, awaits or is leaving a lock of that level |
| `LockMachine.ReleaseNeverFires` | kernel/lockdep.h:69-81 | the release assertion holds in every run |
| `LockMachine.NoWaitCycle` | kernel/lockdep.h:46-81 | the wait-for graph never has a cycle |
| `LockMachine.DeadlockFree` | kernel/lockdep.h:46-81 | in every state of every run in which a CPU waits there is a step, and moreover a continuation of the run at the end of which that CPU holds the lock it waited for |
| `LockMachine.Serve` | kernel/lockdep.h:46-81 | the chain of CPUs waiting for one another can be served from its end, without disturbing any CPU that waits for a lock of the same or a lower level |
| `LockMachine.RequestEnabled` | kernel/lockdep.h:50-64 | a CPU that does not spin can ask for a lock exactly when the acquire check passes on its mask, that is, when all its locks have lower levels |
| `LockMachine.SpinEnds` | kernel/lockdep.h:46-64 | a spin on a lock nobody holds can end with the lock held |
| `LockMachine.CanUnlock` | kernel/lockdep.h:66-81 | a CPU that does not spin can unlock any lock it holds |
| `LockMachine.CanRelease` | kernel/lockdep.h:69-81 | it can release the level of any lock it unlocked, and its mask loses that level alone |
| `SignalRing.PushFifo` | kernel/proc/signal.c:46-61 | appends to the queue below the producer limit and refuses at it |
| `SignalRing.PopFifo` | kernel/proc/signal.c:63-76 | takes the oldest payload |
| `SignalRing.PushHeadFifo` | kernel/proc/signal.c:84-96 | puts a payload back in front |
| `SignalRing.AcceptedPrefix` | kernel/proc/signal.c:46-61 | of any sends, exactly the first ones are accepted, as many as there is room below the producer limit |
| `SignalRing.RollbackKeepsAll` | kernel/proc/signal.c:46-96 | a payload taken, any number of sends, and the payload put back: nothing is dropped and the queue is the original one followed by the accepted sends |
| `SignalRing.RollbackInvisibleExactly` | kernel/proc/signal.c:46-96 | a claim, any sends and the rollback leave the queue as the sends alone would have if and only if the sends fit below the producer limit anyway or the rollback slot was in use; otherwise exactly one more send is in it, the first that would have been refused |
| `SignalRing.RollbackLetsOneIn` | kernel/proc/signal.c:46-96 | the failing case: at the producer limit, a send that would have been refused is accepted between a claim and its rollback |
| `SignalPending.SignalState.Send` | kernel/proc/signal.c:224-266 | a plain instance becomes pending; an invalid number is refused without effect |
| `SignalPending.SignalState.QueueSend` | kernel/proc/signal.c:268-304 | the payload is appended, or refused without effect when the ring is at the producer limit |
| `SignalPending.SignalState.Claim` | kernel/proc/signal.c:306-330 | consumes exactly one instance, payloads before the plain one; the summary bit stays set if and only if an instance is left |
| `SignalPending.SignalState.Restore` | kernel/proc/signal.c:332-357 | puts back what the claim took; a payload can only be dropped if two claims of that number were outstanding at once |
| `SignalPending.SignalState.Refresh` | kernel/proc/signal.c:102-112 | the summary bit is set if and only if a plain instance or a payload exists |
| `JsonRoundTrip.RoundTrip` | lib/json.c:400-519 | a printed value reads back if and only if it is within the nesting and member limits and its strings have no control bytes other than newline, carriage return and tab |
| `JsonRoundTrip.ValueReads` | lib/json.c:373-398 | every printed value is read back, followed by exactly what came after it |
| `JsonRoundTrip.PrintedText` | lib/json.c:425-532 | a printed value is a text of the grammar without blanks, and means the value with its long escapes undecoded |
| `JsonRoundTrip.PrintedFits` | lib/json.c:425-532 | it is within the limits exactly when the value is |
| `JsonRoundTrip.StringReads` | lib/json.c:68-142 | every printed string is read back, each long escape as its six characters |
| `JsonRoundTrip.IntReads` | lib/json.c:144-216 | every 64-bit integer reads back, the minimum included |
| `JsonRoundTrip.CookStringSame` | lib/json.c:460-495 | what comes back is the same string if and only if it has no control byte that needs a long escape |
| `JsonRoundTrip.ScanEscaped` | lib/json.c:78-140 | the scan ends exactly at the closing quote of an escaped string |
| `JsonLoop.PrintAndParse` | lib/json.c:400-532 | the emitter and the reader run one after the other give the value back if and only if it is within the limits and its strings are clean |
| `JsonSound.ParseIsGrammar` | lib/json.c:38-421 | for every text and value: the reader gives that value if and only if the text is one of the grammar, with any blanks around its tokens, within the limits, and means that value |
| `JsonSound.BlanksDoNotMatter` | lib/json.c:38-47 | blanks before and after any token make no difference to what a text reads as |
| `JsonSound.TrailingMeans` | lib/json.c:409-421 | when a value was read but the text is refused, the error is trailing input, and a complete text within the limits stands before something that is not a blank |
| `JsonSound.ValueSound` | lib/json.c:373-398 | whatever is read as a value is a text of the grammar with that meaning |
| `JsonSound.NumberSound` | lib/json.c:144-216 | whatever is read as a number is one, with that value |
| `JsonSound.StringSound` | lib/json.c:68-142 | whatever is read as a string is a row of characters and escapes between quotes, with that meaning |
| `JsonReads.TextReads` | lib/json.c:400-421 | a whole text of the grammar is read as its meaning if and only if it is within the limits, and otherwise refused with the error of the first limit it runs into |
| `JsonReads.FaultFits` | lib/json.c:144-371 | a text runs into no limit exactly when its numbers, its nesting and its containers are all within them |
| `JsonReads.BodyReads` | lib/json.c:373-398 | so is a value inside a text, whatever blank, comma or closer follows |
| `JsonReads.NumberReads` | lib/json.c:144-216 | a number reads as its decimal value, with a fraction or an exponent in millionths and the exponent not applied, exactly within the limits |
| `JsonReads.FractionReads` | lib/json.c:167-178 | the fraction loop computes the digits over a power of ten, in whole millionths |
| `JsonReads.WholeReads` | lib/json.c:155-164 | the digit loop computes the decimal value, or overflows exactly when it exceeds the limit |
| `JsonReads.QuotedReads` | lib/json.c:68-142 | a quoted string reads as its characters, each of the eight short escapes as the character it stands for, any other escape as itself |
| `JsonParser.JsonParse` | lib/json.c:400-421 | terminates on every input; accepts exactly the texts of the grammar within the limits and gives each its meaning; otherwise the specified error and offset |
| `JsonParser.Parser.ParseValue` | lib/json.c:373-398 | the position-moving reader computes the suffix-based specification |
| `JsonParser.Parser.ParseString` | lib/json.c:68-142 | likewise for strings |
| `JsonParser.Parser.FindQuote` | lib/json.c:75-142 | the scanning loop ends just after the closing quote the specification finds, or at the end of the input |
| `JsonParser.Parser.ScanRaw` | lib/json.c:75-142 | likewise for the scan and its error |
| `JsonParser.Parser.Unescaped` | lib/json.c:86-131 | likewise for the unescaping loop |
| `JsonParser.Parser.ParseNumber` | lib/json.c:144-216 | likewise for numbers, with the overflow tests |
| `JsonParser.Parser.ParseArray` | lib/json.c:242-296 | likewise for arrays, with the depth limit |
| `JsonParser.Parser.ParseObject` | lib/json.c:298-371 | likewise for objects |
| `JsonParser.Parser.MatchWord` | lib/json.c:218-228 | consumes the word if and only if the input continues with it |
| `JsonEmitter.Emitter.JsonEmitString` | lib/json.c:460-495 | appends the quoted, escaped text |
| `JsonEmitter.Emitter.JsonEmitInt` | lib/json.c:503-519 | appends the decimal digits, without overflow at the minimum |
| `JsonEmitter.Emitter.Print` | lib/json.c:425-532 | any float-free value printed with the primitives alone |
| `Wcrt.DemandMonotone` | scripts/wcrt_check.py:49-53 | the recurrence is monotone in the window |
| `Wcrt.ReleaseCount` | scripts/wcrt_check.py:51-52 | the rounded-up quotient is the number of release instants in the window |
| `Wcrt.DemandIsWork` | scripts/wcrt_check.py:49-53 | the recurrence computes the runtime and the higher-priority work released in the window |
| `Wcrt.TicksAddUp` | scripts/wcrt_check.py:34-37 | in the simulated processor no tick is lost: what was served and what was done of the released work add up |
| `Wcrt.CompletionIsLeast` | scripts/wcrt_check.py:30-38 | the tick at which a task is done is the least fixed point |
| `Wcrt.ResponseTime` | scripts/wcrt_check.py:30-38 | the least fixed point of the recurrence is exactly the tick at which the simulated processor has served the task |
| `Wcrt.MeetsMeans` | scripts/wcrt_check.py:30-38 | the task is done by its deadline if and only if a fixed point within the deadline exists |
| `Wcrt.StepBelowAll` | scripts/wcrt_check.py:46-62 | every iterate stays below every fixed point |
| `Wcrt.Analyse` | scripts/wcrt_check.py:46-64 | on convergence the result is the tick at which the task is done when all tasks are released together and higher-priority work runs first, which is the least fixed point; on exceeding the deadline the task is not done by it; short of the cap, schedulable if and only if the task meets its deadline; the result is that of at most 1000 rounds of the recurrence |
| `Wcrt.BusyRounds` | scripts/wcrt_check.py:46-64 | the failing family: below a task that always runs, runtime 1 gains one tick a round and never reaches a fixed point |
| `Wcrt.EnoughRounds` | scripts/wcrt_check.py:46-64 | with fewer ticks to the deadline than rounds left the verdict is right |
| `Wcrt.CapBoundIsExact` | scripts/wcrt_check.py:46-64 | the verdict is right for every task with a given distance from runtime to deadline, among any higher-priority tasks, if and only if that distance is below 1000 |
| `Wcrt.AnalyseAll` | scripts/wcrt_check.py:42-78 | the same for every task against those before it |
| `TickFrac.Log2Floor` | arch/riscv64/time.c:71-79 | the position of the highest set bit |
| `TickFrac.Init` | arch/riscv64/time.c:84-96 | the shifted numerator always fits 64 bits; the multiplier is the correctly rounded ratio whenever half the denominator is below the shifted unit |
| `TickFrac.ScaleFits` | arch/riscv64/time.c:84-96 | the shift uses exactly 64 bits |
| `TickFrac.ProductFits` | arch/riscv64/time.c:101-106 | the product of two 64-bit numbers fits the 128-bit intermediate |
| `TickFrac.ApplyMonotone` | arch/riscv64/time.c:101-106 | the conversion is monotone |
| `TickFrac.SaturatesExactly` | arch/riscv64/time.c:101-106 | it saturates if and only if the shifted product exceeds 64 bits |
| `TickFrac.CloseToExact` | arch/riscv64/time.c:84-106 | otherwise it differs from exact division by less than 1 + t / 2^(shift + 1) |
| `TickFrac.OffByAtMostOne` | arch/riscv64/time.c:84-106 | hence by at most 1 for t below 2^(shift + 1) |

## Left out

- Buddy allocator: the conversion between byte sizes and orders, the order recorded in a free block, and addresses in units other than pages.
- BuddyAllocator.Buddy.FreeRaw: the block must be live, wholly free or of an order out of range; freeing part of a live block, or pages of which only some are free, is outside the contract.
- BufferCache.BCache.Read: sequential, with device transfers that succeed; the window in which the lock is dropped during a miss is not modelled.
- Filesystem: the byte layout of superblock, bitmap and directory sectors; each sector is read as the record its position holds. Mount, stat, readdir, crashes between writes, and device errors.
- Sfs.Filesystem.Write: through handles of live entries, with an end of at most 2^32 - 512; the bytes between the old end and an offset beyond it are whatever the sectors held. Each access pins its buf only for its own duration; three bufs are required, the most the code pins at once.
- Sfs.Filesystem.Fsck: for directories whose extents lie in the data region, as every reachable one's do; beyond it the code would read other sectors as bitmap.
- Sfs.Filesystem.Grow: the free sector counter is outside the invariant, because the failing path adds the old extent to it and does not take it back; the contract states that drift.
- PageTables.RunPaging: a used-up pool is a failed call, where the code stops on an assertion; the address arithmetic of the initialisation's region loops; it maps any list of aligned superpages instead.
- PageTables.AddressSpace.WalkL0: TLB fences and inter-processor shootdown, wrap of the 64-bit generation, the table of address regions and the user range check.
- MessageQueue.MQueue.Close: only while no untimed call is blocked, because the untimed forms do not look at the generation again after waking; killing a waiter, owners, reference counts and the wrap of the 32-bit generation.
- MessageQueue.MQueue.TimedSendEnter: what its checks before the lock saw is a parameter; the untimed and try forms are taken to make these checks under the lock.
- MessageQueue.MQueue.DoReceive: after a receive that was refused for a short buffer the bound for receivers no longer holds (`ShortBufferStrands`); the bound for senders does.
- Seqlock.SnapshotIsAnInstant: sequentially consistent interleavings; memory fences are not modelled.
- InitGraph.InitGraphRun: the tasks' own effects and the timing of the run.
- Lockdep.Pcpu.Acquire: a word is modelled as its sixteen bits; interrupts are not modelled.
- SignalPending.SignalState.Send: process state, the exit on SIGKILL, and the choice of a thread to wake; a 32-bit mask is the set of its bit numbers.
- JsonEmitter.Emitter.Print: the capacity of the output buffer; the reader's arena exhaustion; fixed-point numbers, which the emitter cannot print.
- Wcrt.AnalyseAll: the sort by priority, the utilisation figures and the EDF test.
- TickFrac.Init: reading the timer and the per-CPU deadlines.
- The scheduler, TCP, drivers, system calls, the shell and the remaining network code: not modelled.
