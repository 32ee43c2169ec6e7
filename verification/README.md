# Verified model of the ParadoxOS kernel core

ParadoxOS is a small x86-64 kernel. This project models the parts of it that keep state and
build on one another, and proves what those parts are for:

- **Pages and heap.** A bitmap of physical pages with a used-page counter and a search for
  contiguous runs (`Pmm.dfy`); a first-fit heap with 17-byte packed headers, splitting and
  two-sided coalescing, at block-list level (`HeapBlocks.dfy`) and at byte level (`Heap.dfy`).
- **Page tables.** Four-level tables as a radix tree held in pages of physical memory
  (`PageTables.dfy`), the mapping operations as a flat map from page number to entry
  (`Paging.dfy`), and the tables of the boot code, on which they start (`BootTables.dfy`).
- **Processes and the scheduler.** Creation and destruction over both allocators
  (`Process.dfy`), the round-robin queue as a state machine (`SchedulerSpec.dfy`) and as the
  linked structure of the source (`Scheduler.dfy`).
- **Files.** The file tree with its path strings (`VfsTree.dfy`), and the linked nodes with
  growable buffers (`Vfs.dfy`).
- **Disk persistence.** The packed superblock (`DiskLayout.dfy`), the eleven sector writes of a
  save (`DiskSave.dfy`), what a restart finds after any prefix of them (`DiskCrash.dfy`), whole
  histories of edits, saves, crashes and restarts (`DiskWorld.dfy`), and the code with its
  buffers and copy loops over a disk that fails after any number of writes (`DiskFs.dfy`).
- **Program start.** The ELF64 loader (`Elf.dfy`), the command line tokenizer and the initial
  stack frame (`ArgvFrame.dfy`).
- **Screen.** The scrolling terminal (`Terminal.dfy`), the desk calculator (`Calculator.dfy`)
  and clipped drawing (`Framebuffer.dfy`).

Where the source changes things step by step, the model is a class or a method with loops, proved
against a specification function; what the source promises is then proved about that function.
Machine words are integers with their width written out (`Wrap64`, `Calculator.Wrap`, `u32`), and
physical memory is identity-mapped, as in the kernel.

Some promises do not hold of the code as it is. The model keeps the code and proves exactly when
they hold:

- The used-page counter is exact after boot if and only if the number of pages freed twice is a
  multiple of 2^64; while regions times pages stay below 2^64, that is if and only if no managed
  page lies in two available memory regions (`Pmm.CounterExact`, `Pmm.PageAllocator.constructor`).
- `kmalloc` hands out a block at least as large as the request if and only if the request is at
  most 2^64 - 8 (`HeapBlocks.RequestHonoured`). Above that, `krealloc` moves a block into one of
  at most 24 bytes, and its copy stays inside if and only if the old payload is no larger
  (`HeapBlocks.MoveFits`).
- The loop that doubles a file's 32-bit capacity ends if and only if the need is at most 2^31
  (`Vfs.DoublingEnds`). Where it ends, the buffer holds what is written if and only if that is not
  2^32 - 1 bytes, for which the need wraps around to 0 (`Vfs.WriteRoom`).
- Adding a process to the ready queue appends it if and only if it is not queued yet
  (`Scheduler.ReadyQueue.Add`).
- A timer tick loses the current process unless it is marked running, or is the idle process with
  nothing else ready; a process that ran alone for one tick is later dropped
  (`SchedulerSpec.TickKeepsMembers`, `SchedulerSpec.LoneProcessDropped`).
- Saving and restarting gives a file back exactly if and only if it is non-empty and at most 4096
  bytes long, or empty with an empty default (`DiskWorld.SaveRestartExact`).
- Overwriting a saved file is atomic under power loss if and only if the length stays and all
  changed bytes lie in one 512-byte sector, or the old bytes are already those of the new content
  padded with zeros (`DiskCrash.OverwriteAtomic`). A failed save that is not followed by a restart
  is published by the next save (`DiskCrash.FailedSaveIsPublished`).
- A first boot that stops between its three superblock writes leaves a well-formed superblock if
  and only if at least one was made and the entry bytes in the unwritten sectors are zero
  (`DiskSave.FirstBootCut`). Otherwise stale bytes of the foreign disk survive in entries not yet
  handed out. On any accepted superblock, well formed or not, a new file is restored completely or
  not at all after an interrupted save if and only if the entry found in its slot has no size, or
  the slot is one of the first six, or the size is the file's own, or the slot is one of the last
  nine and the entry's path is not the file's (`DiskCrash.AllOrNothing`). Another file stays as it
  was if and only if the save overwrites a slot, uses one of the first seven, or finds an entry
  there that does not name that file or agrees with what it has (`DiskCrash.OtherFilesKept`);
  otherwise it comes back with the saved bytes (`DiskCrash.OthersThen`). A whole run that does
  this is `DiskCrash.FirstBootCrashTears`; from a disk of zeros none does
  (`DiskWorld.ZeroDiskStaysClean`).
- The two path walks agree on every string if and only if only directories have children
  (`VfsTree.WalksAgree`).
- Page-table walks ignore the page-size bit. Behind a large page a lookup is right if and only if
  the words of data that happen to be read name the right frame, and a map takes effect for the
  processor if and only if the page was already mapped to that frame; the store goes into the data
  (`PageTables.LargePageMisread`, `PageTables.GigabytePageMisread`, `PageTables.LargePageMap`,
  `PageTables.GigabytePageMap`).
- The tokenizer keeps all words if and only if they fit its 256-byte buffer
  (`ArgvFrame.Tokenizer.Tokenize`); each of the loader's two bounds checks is sound if and only if
  its sum does not wrap around (`Elf.CheckIsSound`, `Elf.TableCheckIsSound`), and inputs whose sum
  does are accepted (`Elf.WrappedSumAccepted`).
- The initial stack pointer of a program is a multiple of 16 if and only if the number of arguments
  is odd (`ArgvFrame.FrameAligned`).
- The calculator's display can be read back for every number except the least 64-bit integer
  (`Calculator.ParseShow`).

The comment on the heap's `size` field says that it includes the header; the code stores the
payload size without it, and the model follows the code.

Check everything with `dafny verify dfyconfig.toml`.

## Model

| member | source | states |
|---|---|---|
| `Pmm.PageAllocator.constructor` | src/kernel/pmm.cpp:102-163 | After boot a managed page is free exactly when an available region covers it and it is outside the kernel-and-bitmap range, and no page that holds a byte between 1 MiB and the end of the bitmap is; the counter equals the number of used pages if and only if the pages freed twice are a multiple of 2^64, which for regions times pages below 2^64 means that no page lies in two available regions |
| `Pmm.CoversBytes` | src/kernel/pmm.cpp:130-146 | In byte addresses: an available region that ends inside 64 bits frees exactly the pages that lie in it as a whole |
| `Pmm.ReservedBytes` | src/kernel/pmm.cpp:148-163 | In byte addresses: with the bitmap at the first page boundary at or above the safe start, the pages reserved are those from 1 MiB on that start less than a page behind its end |
| `Pmm.HighestIs` | src/kernel/pmm.cpp:75-103 | The highest address found is the end of one of the regions, and no region ends above it |
| `Pmm.ManagedIs` | src/kernel/pmm.cpp:102-104 | A page is managed if and only if it ends at or below the highest address and at or below twice the usable memory |
| `Pmm.ExcessZero` | src/kernel/pmm.cpp:126-146 | No page is freed twice by the region loop if and only if no managed page lies in two available regions |
| `Pmm.CounterExact` | src/kernel/pmm.cpp:126-163 | The 64-bit counter that loses one for every page freed twice equals the true count if and only if their number is a multiple of 2^64 |
| `Pmm.ReleaseAt` | src/kernel/pmm.cpp:130-146 | A page stays used after the region loop exactly when it was used and no region processed covers it |
| `Pmm.PageAllocator.ReserveKernel` | src/kernel/pmm.cpp:148-163 | Every kernel and bitmap page below the total is used afterwards, others are unchanged, and the counter stays in step |
| `Pmm.PageAllocator.AllocContiguous` | src/kernel/pmm.cpp:175-196 | Returns the first run of n free pages at or above page 1, sets exactly its bits and raises the counter by n; otherwise returns null and changes nothing |
| `Pmm.FirstRunLeftmost` | src/kernel/pmm.cpp:175-196 | The run found is free and no lower start has a free run; none is found only if no start has one |
| `Pmm.SetRangeCount` | src/kernel/pmm.cpp:175-196 | Taking a free run raises the number of used pages by exactly its length |
| `Pmm.PageAllocator.AllocPage` | src/kernel/pmm.cpp:199-216 | Behaves as the search for a run of one page: takes the lowest free page above 0, or fails without a change |
| `Pmm.OnePage` | src/kernel/pmm.cpp:199-216 | A single page is refused exactly when all pages above 0 are used |
| `Pmm.PageAllocator.FreePage` | src/kernel/pmm.cpp:219-234 | Frees exactly one used managed page and lowers the counter; foreign addresses and double frees change nothing |
| `Pmm.PageAllocator.FreeMemory` | src/kernel/pmm.cpp:241-251 | With an exact counter free and used memory add up to the managed memory |
| `Pmm.PageAllocator.Set` | src/kernel/pmm.cpp:19-21 | The bit operation on the byte bitmap marks exactly one page used |
| `Pmm.PageAllocator.Clear` | src/kernel/pmm.cpp:23-25 | The bit operation on the byte bitmap marks exactly one page free |
| `Pmm.PageAllocator.Test` | src/kernel/pmm.cpp:27-29 | The tested bit is the page's state |
| `Pmm.BitOrder` | src/kernel/pmm.cpp:19-29 | Page i is bit i % 8 of byte i / 8, counted from the least significant |
| `HeapBlocks.MallocSpec` | src/kernel/heap.cpp:62-94 | Allocation keeps the heap valid, adds exactly one new live block of at least the rounded size, and fails exactly when no free block holds it |
| `HeapBlocks.RoundedUp` | src/kernel/heap.cpp:66-66 | Rounding gives the least multiple of 8 that is at least the request, up to 2^64 - 8, and 0 above |
| `HeapBlocks.MallocOutcome` | src/kernel/heap.cpp:62-94 | In terms of the request: null if and only if no free block holds it in whole units of 8; otherwise the first block that does is taken, and its rest becomes a free block when there are 25 bytes or more |
| `HeapBlocks.ReallocOutcome` | src/kernel/heap.cpp:122-149 | For requests up to 2^64 - 8: a null pointer allocates, a request of 0 frees and gives null, a block large enough stays where it is, and null for a larger request means that no free block holds it and nothing changed; otherwise the old live block is replaced by one that holds the request, at the address returned |
| `HeapBlocks.FreeUndoesMalloc` | src/kernel/heap.cpp:62-119 | Freeing what was just allocated restores the exact block list |
| `HeapBlocks.Canonical` | src/kernel/heap.cpp:62-119 | The set of live blocks determines the whole block list |
| `HeapBlocks.Drained` | src/kernel/heap.cpp:97-119 | With no live block left the heap is the single initial block |
| `HeapBlocks.RunsConverge` | src/kernel/heap.cpp:62-149 | Two runs of any calls that end with the same live blocks end with the same heap, whatever the order of frees |
| `HeapBlocks.RunValid` | src/kernel/heap.cpp:62-149 | After any run of calls the blocks tile the heap, no two neighbours are free, and sizes plus headers add up to the heap size |
| `HeapBlocks.SizesAddUp` | src/kernel/heap.cpp:62-119 | Payload sizes plus 17 bytes per block reach from the heap's start to the address of any block |
| `HeapBlocks.BlocksDisjoint` | src/kernel/heap.cpp:62-119 | Distinct blocks, headers included, do not overlap |
| `HeapBlocks.RequestHonoured` | src/kernel/heap.cpp:62-66 | The block handed out is at least as large as the request if and only if rounding up does not wrap around |
| `HeapBlocks.MoveFits` | src/kernel/heap.cpp:135-149 | A reallocated payload always fits its new block for requests up to 2^64 - 8; above, the new block has at most 24 bytes and the copy stays inside it if and only if the old payload is no larger |
| `Heap.KernelHeap.constructor` | src/kernel/heap.cpp:26-59 | The heap takes the largest of the page runs tried and consists of one free block; no byte outside it changes |
| `Heap.KernelHeap.Kmalloc` | src/kernel/heap.cpp:62-94 | On bytes: the header chain becomes that of the block-list allocation, and no byte of a live payload or outside the heap changes |
| `Heap.KernelHeap.Kfree` | src/kernel/heap.cpp:97-119 | On bytes: the header chain becomes that of the block-list free, and no byte of a remaining live payload changes |
| `Heap.KernelHeap.Krealloc` | src/kernel/heap.cpp:122-149 | For every request whose copy fits: the block list and pointer are those of the specification, the old payload bytes are at the new address, and no other live payload changes |
| `PageTables.SameIndices` | src/kernel/paging.cpp:10-14 | Two addresses have the same four indices exactly when they lie in the same page |
| `PageTables.OrFrame` | src/kernel/paging.cpp:113-113 | The frame and presence of two words joined with bitwise or |
| `PageTables.LeafBit` | src/kernel/paging.cpp:113-113 | Bit by bit: a mapped entry has the flags' bits, and between bits 12 and 51 those of the physical address as well |
| `PageTables.TableEntryFlags` | src/kernel/paging.cpp:53-81 | A link to a new table is present and writable and has no other of the low twelve bits |
| `PageTables.WriteLeaf` | src/kernel/paging.cpp:107-130 | Storing a last-level entry changes the translation of its own page only and keeps the tables a tree |
| `PageTables.LinkTable` | src/kernel/paging.cpp:49-82 | Linking a cleared table keeps the tree without shared nodes and changes no translation |
| `PageTables.OutsideTree` | src/kernel/paging.cpp:22-36 | Clearing a page that is not a table changes no translation |
| `PageTables.ProcessorIs` | src/boot/boot.asm:144-160 | The translation of the processor, large pages included, in terms of the large-page entry or the last-level entry found |
| `PageTables.ProcessorAgrees` | src/kernel/paging.cpp:39-86 | Without large pages on the way the walk means what it means to the processor |
| `PageTables.MapEstablishes` | src/kernel/paging.cpp:107-119 | A mapped page translates into the given frame if and only if the flags mark it present and add no address bits |
| `PageTables.LargePageMisread` | src/kernel/paging.cpp:75-85 | Behind a two-megabyte page the address read is right if and only if the word read by accident is present and names the right frame |
| `PageTables.GigabytePageMisread` | src/kernel/paging.cpp:61-85 | Behind a one-gigabyte page two words of data are read; the address is right if and only if both are present and the second names the right frame |
| `PageTables.LargePageStore` | src/kernel/paging.cpp:107-130 | An entry stored behind a two-megabyte page changes no translation of the processor, while the lookup of the source reads it back |
| `PageTables.LargePageMap` | src/kernel/paging.cpp:107-119 | Such a map takes effect for the processor if and only if the page was already mapped to that frame |
| `PageTables.GigabytePageMap` | src/kernel/paging.cpp:107-119 | The same behind a one-gigabyte page, whether or not a table is allocated on the way |
| `PageTables.LargePageAlias` | src/kernel/paging.cpp:107-119 | If a two-megabyte page starts with the last-level table of other addresses, a map behind it remaps the one of them with the same last index, and no other |
| `PageTables.LargePageExample` | src/kernel/paging.cpp:75-85 | Concrete tables with a large page on which a mapped address reads as unmapped |
| `Paging.AddressSpace.AllocPageTable` | src/kernel/paging.cpp:22-36 | The new table is a page outside the tree, cleared; one page is taken, and it fails only when none is free |
| `Paging.AddressSpace.GetOrCreatePte` | src/kernel/paging.cpp:39-86 | Returns the place of the last-level entry of the address, or a word in no table behind a large page, keeping every translation; at most three pages are taken, and without creation nothing changes |
| `Paging.AddressSpace.Map` | src/kernel/paging.cpp:107-119 | On success only the entry of that page changes, to the frame and flags; when pages run out, or behind a large page, the processor translates every address as before, and behind a two-megabyte page exactly one word of its data changes |
| `Paging.AddressSpace.Unmap` | src/kernel/paging.cpp:122-130 | Clears the entry of that page and of no other; behind a large page no translation changes |
| `Paging.AddressSpace.GetPhysical` | src/kernel/paging.cpp:133-140 | Returns what the walk reads, which without large pages on the way is the processor's translation, or 0 for an unmapped address; nothing changes |
| `Paging.AddressSpace.IdentityMapRegion` | src/kernel/paging.cpp:143-151 | When all maps succeed, every address of the range translates to itself; addresses outside keep their translation |
| `Paging.AddressSpace.Replay` | src/kernel/paging.cpp:107-140 | After any run of maps and unmaps of addresses not behind large pages every address has the entry the same calls leave in a flat map; a call fails only when no page is left |
| `Paging.OneLeafProcessor` | src/kernel/paging.cpp:107-130 | A changed entry is what the processor sees at its page, and every other address, large pages included, translates as before |
| `BootTables.SetupPageTables` | src/boot/boot.asm:121-158 | The boot code links six tables and fills 2048 entries with two-megabyte pages, and writes nothing else |
| `BootTables.BootFlags` | src/boot/boot.asm:121-154 | The boot tables are present, writable and open to user code at every level, and the large pages have the size bit on top |
| `BootTables.BootTree` | src/boot/boot.asm:46-59 | Those tables form a tree without shared nodes |
| `BootTables.BootIdentity` | src/boot/boot.asm:121-158 | With them the processor maps every address of the first 4 GiB to itself |
| `BootTables.BootReach` | src/boot/boot.asm:143-157 | Exactly the addresses of the first 4 GiB are behind large pages |
| `BootTables.Adopt` | src/kernel/paging.cpp:89-104 | The mapping operations can start on the boot tables, where all addresses above the first 4 GiB act as on a flat map |
| `Processes.ProcessTable.constructor` | src/kernel/process.cpp:18-43 | The table of 64 slots holds the running idle process, number 0, alone; it stays empty if and only if no free heap block holds a control block |
| `Processes.ProcessTable.Create` | src/kernel/process.cpp:47-124 | A new process occupies the first free slot, has the next number and the first 31 characters of the name, and owns a new heap block and two new pages; creation fails if and only if the table is full, no free heap block holds a control block or fewer than two pages are free, and then restores table, heap, bitmap and counter |
| `Processes.ProcessTable.Destroy` | src/kernel/process.cpp:127-152 | Clears the process's slot and gives back its block and its two pages, and nothing else; a null pointer changes nothing |
| `Processes.ProcessTable.Churn` | src/kernel/process.cpp:47-152 | After any script of creations and destructions, once the table is as before, so are the heap, the bitmap and the counter |
| `Processes.BalancedAdd` | src/kernel/process.cpp:47-124 | Creation keeps the ledger: resources in use are those at the start plus those of the live processes |
| `Processes.BalancedRemove` | src/kernel/process.cpp:127-152 | Destruction keeps the ledger and gives back resources that are in use |
| `SchedulerSpec.StepInv` | src/kernel/process.cpp:175-268 | Every step keeps the queue duplicate-free, all queued processes ready, and the current process out of it |
| `SchedulerSpec.Run` | src/kernel/process.cpp:175-268 | The invariant holds after any run of events |
| `SchedulerSpec.FullRound` | src/kernel/process.cpp:236-268 | With a running process and a non-empty queue, n + 1 ticks make each of the n + 1 processes current once, in order, and restore the state |
| `SchedulerSpec.ScheduleOutcome` | src/kernel/process.cpp:236-268 | What one tick does in each case: the head of the queue becomes current and running, and a running predecessor goes to the back as ready; with an empty queue a running process stays current but only ready, and another gives way to the running idle process; nobody else's state changes |
| `SchedulerSpec.NewcomerRuns` | src/kernel/process.cpp:259-262 | A tick that changes the current process leaves the new one running |
| `SchedulerSpec.ExitOutcome` | src/kernel/syscall.cpp:54-60 | After an exit the process is terminated and the head of the queue, or the idle process, is current and running |
| `SchedulerSpec.WithoutIs` | src/kernel/process.cpp:195-217 | Removing a queued process leaves those before and behind it, in order |
| `SchedulerSpec.TickKeepsMembers` | src/kernel/process.cpp:236-268 | A tick loses no process if and only if the current one is marked running, or is idle with an empty queue |
| `SchedulerSpec.LoneProcessDropped` | src/kernel/process.cpp:251-253 | A process that is alone for one tick stays current but unmarked, and is dropped when another one arrives |
| `SchedulerSpec.NeverAgain` | src/kernel/process.cpp:175-268 | A process other than idle that is neither current nor queued stays out until it is added again |
| `SchedulerSpec.ExitIsFinal` | src/kernel/syscall.cpp:54-60 | A process other than idle that exits is never current again in any run |
| `Scheduler.ReadyQueue.Add` | src/kernel/process.cpp:175-192 | The list from head to tail becomes the queue with the process appended if and only if the process was not queued; then this is the step of the state machine |
| `Scheduler.ReadyQueue.Remove` | src/kernel/process.cpp:195-217 | Unlinks the process wherever it stands, keeping head, tail and order |
| `Scheduler.ReadyQueue.Next` | src/kernel/process.cpp:220-233 | Takes the head of the list, or the idle process if the list is empty |
| `Scheduler.ReadyQueue.Schedule` | src/kernel/process.cpp:236-268 | The linked structure makes the step of the state machine |
| `Scheduler.ReadyQueue.Exit` | src/kernel/syscall.cpp:54-60 | Exit makes the step of the state machine |
| `VfsTree.LookupPathOf` | src/kernel/vfs.cpp:272-317 | Looking up the printed path of a node finds that node, for names of 1 to 31 characters, depth up to 16 and paths that fit |
| `VfsTree.LookupExact` | src/kernel/vfs.cpp:272-293 | For every string: lookup gives a node if and only if the string starts with a slash and its components, cut at 31 characters, spell the node's path and all nodes above it are directories; the restore walk is the same without the directories |
| `VfsTree.LookupShort` | src/kernel/vfs.cpp:272-293 | For strings without longer components: lookup gives a node if and only if the string is its path, or its path and a slash, and all nodes above it are directories; any other string gives none |
| `VfsTree.WholePath` | src/kernel/vfs.cpp:295-317 | The printed path is the whole path if and only if the node is at most 16 levels deep and the path fits the buffer with its terminator |
| `VfsTree.PathsDiffer` | src/kernel/vfs.cpp:295-317 | Two nodes have the same printed path if and only if they are the same node |
| `VfsTree.WalksAgree` | src/kernel/diskfs.cpp:88-117 | The restore walk and the lookup agree on every path string if and only if only directories have children |
| `VfsTree.WithChildIsTree` | src/kernel/vfs.cpp:23-46 | Adding a node under a parent keeps the tree |
| `Vfs.FileTree.AllocNode` | src/kernel/vfs.cpp:23-46 | The new node becomes the last child of its parent with its name cut to 31 characters; on failure nothing changes |
| `Vfs.FileTree.Lookup` | src/kernel/vfs.cpp:272-293 | The pointer walk returns the node the tree's lookup function gives |
| `Vfs.FileTree.PathOf` | src/kernel/vfs.cpp:295-317 | Writes the node's path, cut to the buffer, and its terminator, and nothing at or behind the given capacity |
| `Vfs.FileTree.EnsureHomeFile` | src/kernel/diskfs.cpp:88-117 | The pointer walk of the restore returns the node the tree's walk function gives |
| `Vfs.Node.EnsureCap` | src/kernel/vfs.cpp:319-332 | Capacity grows by doubling from 64 until it holds the need, and the content is kept; it fails if and only if memory is needed and there is none |
| `Vfs.DoublingEnds` | src/kernel/vfs.cpp:319-322 | Doubling the 32-bit capacity reaches the need if and only if the need is at most 2^31 |
| `Vfs.WriteRoom` | src/kernel/vfs.cpp:334-341 | When the doubling ends, the buffer holds the data and a NUL if and only if the data does not have 2^32 - 1 bytes |
| `Vfs.Node.Write` | src/kernel/vfs.cpp:334-341 | The file holds exactly the data, zero-terminated; it is refused if and only if the node is no file or memory is needed and there is none, and keeps its content then |
| `Vfs.Node.AppendChar` | src/kernel/vfs.cpp:343-349 | The file holds its old content and the character; old bytes are copied only when the buffer grows |
| `Vfs.Node.PopChar` | src/kernel/vfs.cpp:351-356 | Removes the last character of a non-empty file |
| `Vfs.Node.Replay` | src/kernel/vfs.cpp:319-356 | Any run of edits leaves the text they describe; append and pop runs from an empty file copy at most two bytes per append in total |
| `DiskLayout.ReadWriteSuper` | src/kernel/diskfs.cpp:35-58 | Reading the superblock back gives what was written |
| `DiskLayout.FormattedByte` | src/kernel/diskfs.cpp:124-135 | Byte by byte, a first boot writes the letters VSFP, the version 1 and zeros |
| `DiskLayout.EntryAfter` | src/kernel/diskfs.cpp:47-58 | After n superblock sectors an entry consists of new and old fields, each according to where it lies |
| `DiskLayout.OnlyEntrySixStraddles` | src/kernel/diskfs.cpp:6-19 | Only entry 6 can be half written, after the first sector, between its path and its size |
| `DiskSave.StoredText` | src/kernel/diskfs.cpp:72-84 | Every path of at most 63 non-zero bytes that is copied into an entry is read back, whatever the field held |
| `DiskSave.SaveByte` | src/kernel/diskfs.cpp:186-193 | A save changes data bytes of its own slot only, to the content padded with zeros |
| `DiskSave.RefusedWhenFull` | src/kernel/diskfs.cpp:72-84 | A save is refused if and only if all sixteen slots hold other paths |
| `DiskSave.OnlySlot` | src/kernel/diskfs.cpp:65-70 | The slot found for a path is the only one that holds it |
| `DiskSave.FirstBootCut` | src/kernel/diskfs.cpp:124-135 | After n of the three superblock writes of a first boot the superblock found is well formed if and only if n is at least 1 and the entry bytes not yet written are zero; from n = 1 on the disk is no longer foreign |
| `DiskCrash.SuperThenOk` | src/kernel/diskfs.cpp:165-205 | If entries beyond the count are zero and no path is stored twice before a save, so it is after any prefix of its writes |
| `DiskCrash.OtherFilesKept` | src/kernel/diskfs.cpp:165-205 | On any accepted superblock every prefix of a save leaves another file as it was, if and only if the slot is overwritten or one of the first seven, or the entry found there does not name the file or agrees with its content |
| `DiskCrash.OthersThen` | src/kernel/diskfs.cpp:165-205 | What another file is after each prefix: unchanged, or, when the save exposes a stale entry that names it, the saved bytes in the stale length |
| `DiskCrash.AllOrNothing` | src/kernel/diskfs.cpp:165-205 | On any accepted superblock a file with nothing stored before is restored completely or not at all after every prefix of writes, if and only if the entry found in its slot does no harm; without a size it never does |
| `DiskCrash.OwnThen` | src/kernel/diskfs.cpp:165-205 | What the saved file itself is after each prefix, when no other entry has data for it |
| `DiskCrash.ShadowedSave` | src/kernel/diskfs.cpp:137-163 | When a later entry has data for the file, no prefix of the save changes what a restart restores |
| `DiskCrash.AloneOrShadowed` | src/kernel/diskfs.cpp:65-70 | For a single path these are the two cases: no other entry has data for it, or a later one does |
| `DiskCrash.WellFormedAlone` | src/kernel/diskfs.cpp:65-84 | On a well-formed superblock no other entry has data for a path |
| `DiskCrash.SavedIsFound` | src/kernel/diskfs.cpp:119-205 | After a finished save a restart finds the first 4096 bytes, and nothing for empty content, unless a later entry shadows the slot; then it finds what it found before |
| `DiskCrash.OverwriteBlends` | src/kernel/diskfs.cpp:186-199 | After n writes of an overwrite the first n sectors are new, the rest old, and the length is that of the written superblock sectors |
| `DiskCrash.OverwriteAtomic` | src/kernel/diskfs.cpp:186-199 | A restart after any number of the writes of an overwrite finds the old or the new content if and only if the length stays and all changed bytes lie in one sector, or the old bytes are those of the new content padded with zeros |
| `DiskCrash.OverwriteTears` | src/kernel/diskfs.cpp:186-193 | An interrupted overwrite can leave neither the old nor the new content |
| `DiskCrash.FailedSaveIsPublished` | src/kernel/diskfs.cpp:182-204 | After a save that failed at any of its eleven writes, the next save makes the failed file readable with whatever the slot holds; it is the wanted content if and only if the unwritten rest agrees |
| `DiskCrash.StaleAfterFirstBoot` | src/kernel/diskfs.cpp:124-135 | A first boot cut before the sector of a non-zero foreign size leaves a superblock that is accepted and not well formed, with that size and, unless it was overwritten, that path |
| `DiskCrash.SavesFillInOrder` | src/kernel/diskfs.cpp:65-84 | Finished saves of distinct paths fill the entries of the disk in order and leave every entry behind them as it was |
| `DiskCrash.FirstBootCrashTears` | src/kernel/diskfs.cpp:119-205 | A whole run: first boot cut short, any number of files saved, the next save cut before the size of its entry is written; the file named by that entry, the saved one or another, is stored with the saved bytes in the foreign length |
| `DiskWorld.FirstBootCrashRestored` | src/kernel/diskfs.cpp:119-205 | And that is what the restart gives it |
| `DiskWorld.StepOk` | src/kernel/diskfs.cpp:119-205 | Every edit, save, interrupted save, boot and interrupted boot keeps memory in step with the disk, whatever is in entries not handed out |
| `DiskWorld.FirstBoot` | src/kernel/diskfs.cpp:124-135 | A finished first boot from a foreign disk leaves a blank superblock and the default files |
| `DiskWorld.BootGives` | src/kernel/diskfs.cpp:119-163 | A restart gives every node the data of the last entry that names it, else its default, for any bytes in the entries |
| `DiskWorld.StepKept` | src/kernel/diskfs.cpp:119-205 | An event changes what the disk holds for the file it saves, and for files named by a stale entry it exposes, which get the saved bytes; a finished save gives the text, an interrupted one the text or nothing new exactly where a new file or an overwrite is safe |
| `DiskWorld.MemoryAfter` | src/kernel/diskfs.cpp:119-205 | What is in memory after one event: the edited text, the same texts after a save, what the disk holds after a restart, and the defaults without power |
| `DiskWorld.RestartAfterHistory` | src/kernel/diskfs.cpp:119-205 | After any history from power-on with any disk, boots and saves cut anywhere, a restart gives each file what was stored at the start if never saved, the first 4096 bytes of its last finished save, or one of these and the interrupted saves' texts, as long as no interrupted save of it was unsafe and none exposed a stale entry of it |
| `DiskWorld.StepClean` | src/kernel/diskfs.cpp:119-205 | Every event keeps a well-formed disk well formed; only a first boot cut where unwritten entry bytes are not zero spoils a foreign one |
| `DiskWorld.CleanFate` | src/kernel/diskfs.cpp:119-205 | On such a disk stale entries play no part: the last finished save decides, and only an interrupted overwrite that is not atomic leaves a file open |
| `DiskWorld.ZeroDiskStaysClean` | src/kernel/diskfs.cpp:124-135 | From a disk of zeros no history, boots cut anywhere included, leaves stale entries |
| `DiskWorld.SaveRestartExact` | src/kernel/diskfs.cpp:119-205 | For a file that no other entry names, saving and restarting is exact if and only if the text is non-empty and at most 4096 bytes, or empty with an empty default |
| `DiskWorld.TypedAndSaved` | src/kernel/diskfs.cpp:119-205 | A text typed into such a file, saved and followed by a restart is there again under the same condition |
| `DiskFs.DiskFs.LoadSuper` | src/kernel/diskfs.cpp:35-45 | The sector loop reads the packed superblock; a failed read leaves the old one |
| `DiskFs.DiskFs.StoreSuper` | src/kernel/diskfs.cpp:47-58 | The sector loop writes the superblock, or as many of its sectors as the power lasts for |
| `DiskFs.DiskFs.SearchSlot` | src/kernel/diskfs.cpp:65-70 | Returns the first entry that holds the path |
| `DiskFs.DiskFs.AllocSlot` | src/kernel/diskfs.cpp:72-84 | Appends an entry with size 0 and the path written over whatever the field held, or fails with 16 entries |
| `DiskFs.DiskFs.Save` | src/kernel/diskfs.cpp:165-205 | Whatever happens and whatever stale entries there are, the disk holds a prefix of the eleven writes; success means all of them, and memory holds the new superblock even on failure |
| `DiskFs.DiskFs.Init` | src/kernel/diskfs.cpp:119-163 | Restores what the boot function says; a foreign disk gets a prefix of the three writes of a blank superblock, as long as the power lasts, and any other disk keeps every sector; a read failure changes nothing |
| `Elf.LoadElf` | src/kernel/elf.cpp:42-100 | Each address holds the byte of the last loaded segment that covers it, or is unchanged; a refused header changes nothing and a refused segment stops the load |
| `Elf.LoadedIs` | src/kernel/elf.cpp:75-92 | An address that a loaded segment covers, and no later one does, holds the segment's byte of the image below its file size and 0 from there up to its memory size; an address that none covers is unchanged |
| `Elf.HeaderFields` | src/kernel/elf.cpp:25-34 | The fields of a program header, one behind the other in the order and widths of ELF64, are what the loader reads |
| `Elf.FileFields` | src/kernel/elf.cpp:8-23 | The same for the file header, and the identification accepted is exactly that of a little-endian 64-bit executable for x86-64 |
| `Elf.CopySegment` | src/kernel/elf.cpp:85-91 | The two loops write exactly the segment's range, reading only inside the image |
| `Elf.CheckIsSound` | src/kernel/elf.cpp:80-83 | The segment check keeps reads inside the image if and only if the 64-bit sum does not wrap around |
| `Elf.TableCheckIsSound` | src/kernel/elf.cpp:70-73 | The same for the check of the program header table |
| `Elf.WrappedSumAccepted` | src/kernel/elf.cpp:70-83 | A segment and a table position far outside the image that the checks accept |
| `ArgvFrame.WordsAre` | src/kernel/usermode.cpp:28-37 | Words are non-empty, free of blanks, and only blanks lie before, between and after them |
| `ArgvFrame.WordsOfSplit` | src/kernel/usermode.cpp:20-39 | A line that consists of words with spaces and tabs before, between and behind them is split into these words, or the first 15 of them |
| `ArgvFrame.Tokenizer.Tokenize` | src/kernel/usermode.cpp:20-39 | The first 15 words are stored one behind the other if and only if they fit the 256-byte buffer |
| `ArgvFrame.ShortLineFits` | src/kernel/usermode.cpp:28-37 | The words of every command line of at most 255 bytes fit |
| `ArgvFrame.OrdinaryFits` | src/kernel/usermode.cpp:45-76 | The frame stays inside its page for command lines up to 255 and program names up to 3672 bytes |
| `ArgvFrame.StackPage.Build` | src/kernel/usermode.cpp:45-81 | From the final stack pointer the start-up code reads the program name and the words, a NULL behind them and an empty environment; texts and pointers do not overlap and nothing below is touched |
| `ArgvFrame.FrameRoundTrip` | user/crt0.asm:10-12 | Reading the count and the pointer array back yields the list the frame was built from |
| `ArgvFrame.AreasDisjoint` | src/kernel/usermode.cpp:59-76 | The pointer area ends below the texts |
| `ArgvFrame.FrameAligned` | src/kernel/usermode.cpp:67-76 | The final stack pointer is a multiple of 16 if and only if the number of arguments is odd |
| `Terminal.Terminal.PutC` | src/kernel/gui.cpp:1377-1393 | After any character the 36 by 96 window shows the last rows of the unbounded page that the same character writes, cursor included |
| `Terminal.Terminal.Puts` | src/kernel/gui.cpp:1395-1397 | The same after any string |
| `Terminal.Terminal.NewLine` | src/kernel/gui.cpp:181-196 | A new line scrolls the window by one row of the page when it is full |
| `Terminal.Terminal.Clear` | src/kernel/gui.cpp:172-179 | The window shows a fresh page |
| `Terminal.TabStops` | src/kernel/gui.cpp:1385-1386 | A tab always advances and ends on a multiple of 8 |
| `Terminal.PlainText` | src/kernel/gui.cpp:1387-1391 | Character k of plain text stands in row k / 96, column k % 96 |
| `Terminal.LineFeeds` | src/kernel/gui.cpp:1377-1393 | Segments of at most 96 printable characters with newlines between them become lines, one below the other, each with its segment and blanks behind it |
| `Terminal.CarriageReturn` | src/kernel/gui.cpp:1379-1379 | A carriage return between two segments lays the second over the first in the same line, and the cursor stands behind the second |
| `Terminal.TabBlanks` | src/kernel/gui.cpp:1385-1386 | In a line with room a tab blanks the cells up to the next multiple of 8 and nothing else |
| `Terminal.BackspaceClears` | src/kernel/gui.cpp:1380-1384 | A backspace blanks the cell before the cursor and moves there, or does nothing in column 0 |
| `Terminal.OthersIgnored` | src/kernel/gui.cpp:1387-1388 | Every other control character changes nothing |
| `Terminal.BackspaceUndoes` | src/kernel/gui.cpp:1380-1384 | A backspace undoes a typed character if and only if it neither wrapped nor overwrote a non-blank cell |
| `Calculator.ParseShow` | src/kernel/gui.cpp:992-1011 | Reading the display back gives the number shown, for every number but the least |
| `Calculator.LeftToRight` | src/kernel/gui.cpp:1013-1077 | From the cleared state, operands and operators followed by "=" leave the left fold with truncating division and x / 0 = 0, as long as nothing overflows |
| `Calculator.Continues` | src/kernel/gui.cpp:1032-1068 | The same starting from whatever number the display holds, a previous result for example |
| `Calculator.LastOperatorWins` | src/kernel/gui.cpp:1032-1052 | Of two operators in a row the second counts, if and only if the first did not leave the least integer |
| `Calculator.QuotTruncates` | src/kernel/gui.cpp:1041-1041 | Division truncates: the remainder is smaller than the divisor and has the sign of the dividend |
| `Calculator.Arithmetic` | src/kernel/gui.cpp:1036-1042 | What the four operations give, division by zero included |
| `Calculator.DigitKey` | src/kernel/gui.cpp:1013-1031 | A digit starts a new number, replaces a lone zero or is appended up to 22 characters; a key without a meaning changes nothing |
| `Calculator.OperatorKey` | src/kernel/gui.cpp:1032-1052 | An operator carries out the pending operation if a number was typed behind it, and takes over the result or the number shown |
| `Calculator.ClearKey` | src/kernel/gui.cpp:1069-1076 | C shows 0 and forgets number and operation |
| `Calculator.Machine.SetDisplay` | src/kernel/gui.cpp:992-1002 | The digit loops leave the number's text in the 24-byte buffer |
| `Calculator.Machine.ParseDisplay` | src/kernel/gui.cpp:1004-1011 | The loop reads the number of the text in the buffer |
| `Calculator.Machine.OnKey` | src/kernel/gui.cpp:1013-1077 | Every key moves buffer, accumulator, operator and flag as the key function says, within the buffer |
| `Framebuffer.BackBuffer.PutPixel` | src/kernel/framebuffer.cpp:64-68 | Changes exactly the pixel, if it is on the screen |
| `Framebuffer.BackBuffer.FillRect` | src/kernel/framebuffer.cpp:70-84 | Leaves the same buffer as plotting every pixel of the unclipped rectangle |
| `Framebuffer.BackBuffer.BlitKeyed` | src/kernel/framebuffer.cpp:94-116 | Leaves the same buffer as plotting every non-key pixel of the unclipped sprite |
| `Framebuffer.PaintAt` | src/kernel/framebuffer.cpp:64-116 | After pixel-by-pixel drawing each screen pixel shows the brush inside the rectangle and its old value outside |
| `Framebuffer.FilledAt` | src/kernel/framebuffer.cpp:70-84 | After a fill each screen pixel inside the rectangle has the colour, every other one its old value |
| `Framebuffer.SpriteAt` | src/kernel/framebuffer.cpp:94-116 | After a blit each screen pixel inside shows the sprite's pixel unless that is the key, every other one its old value |
| `Framebuffer.SamePixels` | src/kernel/framebuffer.cpp:16-18 | A buffer is determined by its pixels, each of which has its own place |

## Left out

- Port I/O and device drivers (ATA registers, PIC, PIT, PCI, serial, PS/2): a disk is a sequence of 512-byte sectors with whole-sector writes; serial messages are not modelled.
- `switch_context`, `usermode_jump` and the interrupt stubs: a context switch is a change of the current process.
- TLB and CR3 effects; table pages are accessed at their physical address.
- The Multiboot tag walk: the memory-map entries are an input sequence.
- Out-of-memory in file nodes and buffers is the parameter `oom`: those buffers are not taken from the heap model.
- Memory is seen as words by the page tables, as bytes by the heap, the loader and the frame builder; the views are not joined, and a process control block is an object beside its heap block.
- The registers of a new process other than its instruction and stack pointers, its priority and its time slice.
- A superblock with the right magic number and more than 16 entries: the code then reads past its entry array; the disk operations are modelled for at most 16.
- The fresh-page fill and release around `usermode_run_with_args`: the page is an object of its own and is not taken from the page allocator.
- Desktop painting, icons, windows, mouse, keyboard buffers, GDT/IDT packing and number printing: user interface or short single-branch code.
- Shell commands and script execution: output plumbing, and a script may run itself.
- src/kernel/pmm.cpp.broken: a superseded copy.
- Paging.AddressSpace.Map: asks, as do `GetOrCreatePte`, `Unmap` and `GetPhysical`, that the pages taken for tables behind a large page are in memory and are not tables themselves, for which see `PageTables.LargePageAlias`; addresses not behind one are unrestricted.
- Paging.AddressSpace.IdentityMapRegion: covers ranges that end below 2^48, where page numbers do not wrap around, and hold no large page.
- Paging.AddressSpace.Replay: takes calls on addresses that are not behind large pages; those behind are the subject of `Paging.AddressSpace.Map`.
- Heap.KernelHeap.Krealloc: asks that the copy of a moved block fits the new one, which only requests above 2^64 - 8 can violate; the bytes overrun then are not modelled.
- DiskWorld.RestartAfterHistory: says nothing about a file after an unsafe interrupted save of it or an exposed stale entry, for which `DiskCrash.OverwriteBlends`, `DiskCrash.OwnThen` and `DiskCrash.OthersThen` state what is left.
- DiskFs.DiskFs.Save: takes the path and content of the file as arguments; that the path is the node's is stated in the histories, which save nodes whose path is shorter than 64 characters.
- ArgvFrame.StackPage.Build: asks that the words fit the token buffer and the frame its page.
- Calculator.LeftToRight: covers calculations without overflow; a signed overflow is undefined in the source and wraps around in the model.
- Framebuffer.BackBuffer.FillRect: asks that clipping does not overflow 32 bits, as does `BlitKeyed`.
- Elf.LoadElf: asks that the accepted sums do not wrap around, and that accepted segments lie in memory and clear of the image.
- Processes.ProcessTable.Destroy: does not take the idle process, whose stack fields the code never sets.
- Scheduler.ReadyQueue.Add: after a second addition of a queued process only that the list is not the longer queue is stated, not what it is; the kernel itself adds only the running process, which is not queued.
- Vfs.Node.EnsureCap: covers needs from 1 to 2^31; above, the loop does not end (`Vfs.DoublingEnds`), and data of 2^32 - 1 bytes asks for 0 (`Vfs.WriteRoom`); so do `Write` and `AppendChar`.
