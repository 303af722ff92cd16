# ramOS kernel model

A Dafny model of the stateful cores of the ramOS kernel and of the properties they keep.
`dafny verify dfyconfig.toml` checks the whole project.

* `Words`, `Options`: 32-bit words, physical memory as one array of words, optional values.
* `Frames`, `Paging`, `AddressSpace`, `Cloning`, `Vmm`: the frame bitmap, two-level page
  tables inside the frames the allocator hands out, map, unmap, translate, new directories
  and the deep copy for fork. Two-level tables refine a flat map; the copy is a prefix of
  the source, complete exactly when the frames suffice.
* `Blocks`, `Heap`: the first-fit heap, as a list of blocks and as headers in memory.
* `Keyboard`: the ring buffer between interrupt handler and reader, over all interleavings
  of their separate steps, and the line editor.
* `Processes`, `ProcessTable`, `Scheduler`: process life cycle as steps on a table, the
  linked list that implements it, and round-robin scheduling.
* `Initrd`, `Paths`, `Mounts`, `Descriptors`, `FileStack`: the cpio reader with an archive
  writer as its specification, path walk, mount table, open files, and their composition
  from archive to the bytes a program reads.
* `Elf`, `ElfFiles`: the executable loader, with a writer of headers as its specification.
* `Numerals`, `Console`: `itoa`/`atoi`, and the scrolling console as a window on a terminal
  with unboundedly many rows.

The memory manager, the heap, the process list, the ready queue, the mount list, the
descriptor table, the loader and the console are classes whose methods change them in
place; each is proved against functions on values, and the properties of whole runs are
lemmas about those functions. I/O, hardware registers, timers and messages are left out;
whether an allocation from outside the modelled part succeeds, and what a driver returns,
are parameters.

Where a promise does not hold of the code as it stands, the code is modelled as it is, the
input that breaks the promise is named, and the exact condition is proved:

* Unmapping frees the frame the page refers to, even a directory or a table. The invariant
  survives an unmap exactly when it does not; the identity mapping made at boot covers the
  kernel's own directory (`Vmm.Vmm.UnmapPage`, `Vmm.Vmm.BootThenUnmapDirectory`).
* A mapping takes effect exactly when its table exists or a frame is free, and is dropped
  without a report otherwise (`AddressSpaces.MapTakesEffect`, `AddressSpaces.RunIsFlatExactly`);
  this happens in a run from boot that uses up the frames, on memory addressed physically,
  also above the 8 MB that the boot mapping covers (`Vmm.Vmm.BootThenLoseMapping`).
* New directories share the kernel's low-half tables, but the sharing is lost for a table
  the kernel makes later: exactly when a kernel mapping below 2 GB finds no table and takes
  a frame for one (`Vmm.SharingSurvives`).
* Freeing right after allocating restores the block list exactly when the allocation split
  a block or the following block is in use (`Blocks.TakeThenFree`). Requests above
  0xFFFFFFFC are rounded to 0 (`Blocks.RoundingWraps`), and an aligned request lies inside
  its block exactly when its padding does not exceed that (`Heap.Heap.KmallocAligned`).
* An exit wakes its blocked parent exactly when the parent is not pid 0
  (`Processes.ExitWakesParent`); a blocked kernel process stays blocked until it is itself
  executed anew, exits or is killed (`Processes.StepUnblocksKernel`). Children are left to
  pid 1, which never exists, and are never reaped (`Processes.OrphansStay`).
* The comment in `initrd.c` speaks of stripping a leading "./"; names that begin so are
  skipped before that code is reached (`Initrd.ArchiveRoundTrip`). With header
  sizes that wrap the reader may never stop: exactly when it meets a position twice with
  the same number of files (`Initrd.NeverStopsExactly`, `Initrd.ReaderCanLoop`).
* The RAM disk has no directories below its root: a path with two components names nothing
  there (`FileStack.PathsAreFlat`), and files with other names than single components are
  listed and reached by no path (`FileStack.ReachedExactly`).
* Empty, "." and ".." components leave the mount of a path as it is exactly when no mount
  that covers the path reaches past them (`Mounts.NeutralKeepsResolution`,
  `Mounts.NeutralCanLeaveMount`).
* Reads that wrap run past the end of the file, and counts of 2^31 or more do not move the
  position (`Descriptors.CopyStaysInside`, `Descriptors.ReadIsPiece`).
* A segment at address 0 with file bytes is not loaded (`Elf.NullSegmentLost`,
  `Elf.LoadNullFile`), and headers or segments from file offset 2^31 on are read from the
  wrong place, because their seek is refused (`Elf.FarSegmentMisread`,
  `Elf.FarHeaderMisread`). Without the latter the image is that of all segments but the
  former (`Elf.LoadsImage`, `ElfFiles.LoadWritten`).
* The smallest integer is written correctly but cannot be read back
  (`Numerals.AtoiAfterItoa`).

## Model

| member | source | states |
|---|---|---|
| `Frames.PutBit` | src/kernel/mm/vmm.c:25-29 | setting or clearing one bit of a bitmap word changes that bit and no other |
| `Frames.MarkFrame` | src/kernel/mm/vmm.c:43-45 | an update of the bitmap adds or removes exactly one frame of the set of free frames |
| `Frames.AllClear` | src/kernel/mm/vmm.c:88-90 | with all words zero every frame is free |
| `Frames.SweepVisitsOnce` | src/kernel/mm/vmm.c:23-24 | the modular sweep from any start visits every frame exactly once |
| `Frames.NextFitFrom` | src/kernel/mm/vmm.c:22-36 | the frame found is free and every frame probed before it is taken; nothing is found exactly when no probe left is free |
| `Frames.NextFitIsFirstFree` | src/kernel/mm/vmm.c:22-36 | the sweep fails exactly when no frame is free, and otherwise returns the first free frame in sweep order |
| `Paging.MakeEntry` | src/kernel/mm/vmm.c:74 | frame and flags can be read back from an entry, and the entry fits a word |
| `Paging.LinkTable` | src/kernel/mm/vmm.c:60-75 | linking a cleared table taken from the free frames keeps every directory separate and well formed and changes no translation |
| `Paging.WriteEntry` | src/kernel/mm/vmm.c:78-80 | a store through a table entry keeps the tables well formed, changes the translation of that one page and, in other directories, only where the table is shared |
| `Paging.LinkThenWrite` | src/kernel/mm/vmm.c:49-81 | a new table and the store through it together change the translation of one page only |
| `Paging.AddDirectory` | src/kernel/mm/vmm.c:178-198 | a new directory translates the low half like the kernel's and nothing else; all existing directories keep their translations |
| `AddressSpaces.MappedEntry` | src/kernel/mm/vmm.c:144 | the stored entry is present, refers to the frame of the physical address and keeps the other flag bits |
| `AddressSpaces.RunKeepsSane` | src/kernel/mm/vmm.c:138-165 | over every run of map and unmap frame 0 never becomes free and directory indices stay in range |
| `AddressSpaces.MapKeepsRoomy` | src/kernel/mm/vmm.c:138-148 | while free frames and tables together cover all directory indices a mapping never fails, and this stays so |
| `AddressSpaces.UnmapKeepsRoomy` | src/kernel/mm/vmm.c:151-165 | unmapping keeps that reserve and removes exactly one page |
| `AddressSpaces.RunIsFlat` | src/kernel/mm/vmm.c:49-175 | for every run the two-level structure equals a flat map from pages to entries |
| `AddressSpaces.MapTakesEffect` | src/kernel/mm/vmm.c:138-145 | a mapping takes effect if and only if its table exists or a frame is free; otherwise nothing changes and the page stays unmapped |
| `AddressSpaces.LostExactly` | src/kernel/mm/vmm.c:138-165 | after any run the pages that differ from the flat map are exactly those whose last operation was a mapping that found neither table nor frame, and they are unmapped |
| `AddressSpaces.RunIsFlatExactly` | src/kernel/mm/vmm.c:49-175 | a run ends in the flat map if and only if no page was lost that way |
| `AddressSpaces.AlwaysFlatExactly` | src/kernel/mm/vmm.c:49-175 | a run agrees with the flat map at every moment if and only if every mapping finds its table or a frame |
| `AddressSpaces.RunLeavesOtherPages` | src/kernel/mm/vmm.c:138-165 | a run never changes the translation of a page it does not name |
| `AddressSpaces.LastDecides` | src/kernel/mm/vmm.c:138-165 | after any run of maps and unmaps of the flat map, what a page translates to is decided by the last operation on it: the frame mapped, nothing, or what was there before |
| `AddressSpaces.ExpectedIs` | src/kernel/mm/vmm.c:119-175 | from boot, the flat map gives every address that of the last mapping of its page with the offset added, 0 after an unmapping, and before any operation itself below 8 MB and 0 above |
| `AddressSpaces.IdentityStep` | src/kernel/mm/vmm.c:119-121 | one turn of the boot loop extends the identity mapping by one page, taking a table frame when it crosses into a new directory entry |
| `AddressSpaces.BootIsRoomy` | src/kernel/mm/vmm.c:92-121 | the address space after boot has the reserve of frames that RunIsFlat needs |
| `Cloning.CopyStep` | src/kernel/mm/vmm.c:242-258 | copying one page extends the copied prefix of a table by a page with equal contents and flags in a fresh frame, all else unchanged |
| `Cloning.SkipStep` | src/kernel/mm/vmm.c:237-247 | an absent page, or one for which no frame is left, is an empty entry of the copy; the copied prefix stops at the first page without a frame |
| `Cloning.PassTable` | src/kernel/mm/vmm.c:224-231 | a directory index without a source table, or without a frame for the copy, leaves the state of the copy intact |
| `Cloning.GrowTable` | src/kernel/mm/vmm.c:235-262 | attaching a filled table extends the copied part of the address space by its pages and keeps all frames separate |
| `Cloning.FlagsGrow` | src/kernel/mm/vmm.c:262 | the entry of an attached table carries the low 12 bits of the source's entry, and earlier ones keep theirs |
| `Cloning.StartCopy` | src/kernel/mm/vmm.c:219-220 | right after the new directory is made nothing of the user half is copied and the low half has the kernel's own tables |
| `Cloning.KernelIsShared` | src/kernel/mm/vmm.c:190-195 | every table of the kernel's low half is a table of the new directory too, and it has no other there |
| `Cloning.UntouchedDirectories` | src/kernel/mm/vmm.c:216-266 | memory outside the frames that were free is untouched, so every old directory keeps its tables and translations |
| `Cloning.CopyDone` | src/kernel/mm/vmm.c:216-266 | a finished copy is well formed, shares the kernel's low-half tables, is complete exactly when the free frames suffice for the directory, its user tables and their pages, and leaves old directories as they were |
| `Vmm.MapInTable` | src/kernel/mm/vmm.c:138-148 | a mapping through an existing table has the abstract effect of a map step |
| `Vmm.MapInNewTable` | src/kernel/mm/vmm.c:138-148 | so has a mapping that needs a new table |
| `Vmm.MapWithoutFrame` | src/kernel/mm/vmm.c:139-142 | a mapping for which no table can be had changes nothing |
| `Vmm.FreeingStructure` | src/kernel/mm/vmm.c:155-159 | freeing a frame keeps memory well formed exactly when the frame is no directory and no table |
| `Vmm.UnmapInTable` | src/kernel/mm/vmm.c:151-165 | an unmap has the abstract effect of an unmap step, and keeps memory well formed exactly when the page did not refer to a directory or table frame |
| `Vmm.UnmapWithoutTable` | src/kernel/mm/vmm.c:152-153 | without a table nothing changes and the page was not mapped |
| `Vmm.Vmm.AllocFrame` | src/kernel/mm/vmm.c:22-36 | marks and returns the first free frame in sweep order and moves the search start behind it; returns 0 and changes nothing exactly when no frame is free |
| `Vmm.Vmm.FreeFrame` | src/kernel/mm/vmm.c:39-46 | the frame of the address becomes free; addresses beyond the bitmap are ignored |
| `Vmm.Vmm.MakeTable` | src/kernel/mm/vmm.c:60-75 | a new table is taken from the free frames, cleared and linked, or nothing changes |
| `Vmm.Vmm.FindPage` | src/kernel/mm/vmm.c:49-58 | without creation the entry's address is found exactly when directory and table exist |
| `Vmm.Vmm.GetPage` | src/kernel/mm/vmm.c:49-81 | with creation the entry's address is found unless no frame is left; translations do not change |
| `Vmm.Vmm.MapPage` | src/kernel/mm/vmm.c:138-148 | memory and bitmap stay well formed and the abstract address space makes a map step |
| `Vmm.Vmm.UnmapPage` | src/kernel/mm/vmm.c:151-165 | the abstract address space makes an unmap step; the invariant is kept exactly when the freed frame is no directory or table |
| `Vmm.Vmm.GetPhysical` | src/kernel/mm/vmm.c:168-175 | for a mapped page the entry without its low 12 bits plus the offset in the page; 0 for an unmapped page or without a directory |
| `Vmm.Vmm.SwitchDirectory` | src/kernel/mm/vmm.c:201-208 | switches to a directory; a null directory is ignored |
| `Vmm.Vmm.CreateDirectory` | src/kernel/mm/vmm.c:178-198 | a fresh directory with the kernel's low half, or nothing when no frame is free |
| `Vmm.Vmm.CloneTable` | src/kernel/mm/vmm.c:235-259 | fills a new table with copies of a prefix of the source table's present pages |
| `Vmm.Vmm.CloneIndex` | src/kernel/mm/vmm.c:224-262 | one directory index of the deep copy |
| `Vmm.Vmm.CloneUserHalf` | src/kernel/mm/vmm.c:223-263 | all user indices of the deep copy, in address order |
| `Vmm.Vmm.CloneDirectory` | src/kernel/mm/vmm.c:216-266 | a deep copy: the user pages copied are a prefix in address order, all of them exactly when the frames suffice, each in a fresh frame with equal contents and flags, in tables entered with the flags of the source's; the low half shares the kernel's tables; sources are unchanged |
| `Vmm.Vmm.ClearBitmap` | src/kernel/mm/vmm.c:87-98 | exactly the frames from 4 MB on are free |
| `Vmm.Vmm.InitDirectory` | src/kernel/mm/vmm.c:101-115 | the kernel directory is cleared and current |
| `Vmm.Vmm.Init` | src/kernel/mm/vmm.c:84-121 | after boot the invariant holds and exactly the first 2048 pages are mapped, each to its own frame |
| `Vmm.Vmm.RunOps` | src/kernel/mm/vmm.c:138-165 | for every run of map and unmap that frees no directory or table frame, memory refines the abstract run, and ends in the flat map if and only if no mapping was lost |
| `Vmm.Vmm.BootAndRun` | src/kernel/mm/vmm.c:84-175 | from boot, any such run leaves translations equal to those of the flat map |
| `Vmm.Vmm.BootRunTranslate` | src/kernel/mm/vmm.c:84-175 | after boot and any such run, translating an address gives exactly that |
| `Vmm.Vmm.BootThenUnmapDirectory` | src/kernel/mm/vmm.c:119-121 | the condition matters: unmapping identity-mapped page 1024 frees the frame of the kernel directory itself |
| `Vmm.Vmm.UseUpFrames` | src/kernel/mm/vmm.c:178-198 | new directories can use up all frames, and the current directory keeps its pages |
| `Vmm.Vmm.BootThenLoseMapping` | src/kernel/mm/vmm.c:139-142 | after that, in a run from boot, a mapping that needs a new table changes nothing |
| `Vmm.SharingSurvives` | src/kernel/mm/vmm.c:60-75 | a directory that shares all low-half tables of the kernel still does after a kernel mapping if and only if the mapping is in the user half, its table existed, or no frame was free to make one |
| `Vmm.Vmm.MapReachesSharers` | src/kernel/mm/vmm.c:138-148 | a page the kernel maps later appears in every directory that shares the table and in no other, with the same exact condition for the sharing to survive |
| `Blocks.FirstFit` | src/kernel/mm/heap.c:39-69 | the first free block that is large enough; nothing exactly when there is none |
| `Blocks.RoundingWraps` | src/kernel/mm/heap.c:37 | rounding a request up is exact unless the request exceeds 0xFFFFFFFC, where it wraps to 0 |
| `Blocks.TakeKeepsTiles` | src/kernel/mm/heap.c:48-65 | taking a block, split or whole, keeps the blocks tiling the heap |
| `Blocks.FreeKeepsTiles` | src/kernel/mm/heap.c:98-104 | so does freeing one, merged with its successor or not |
| `Blocks.PayloadsDisjoint` | src/kernel/mm/heap.c:9-14 | payloads of different blocks are disjoint from each other and from all headers |
| `Blocks.RunKeepsTiles` | src/kernel/mm/heap.c:33-107 | over every legal run the blocks tile the heap exactly |
| `Blocks.RunKeepsLiveBlock` | src/kernel/mm/heap.c:33-107 | a live block keeps its address and size over every run that does not free it |
| `Blocks.RefusedIffUnsatisfiable` | src/kernel/mm/heap.c:39-72 | a request is refused exactly when no free block is large enough |
| `Blocks.GrantedSize` | src/kernel/mm/heap.c:52-65 | a granted block has between n and n + 32 bytes for a rounded request n |
| `Blocks.FreeKeepsSatisfiable` | src/kernel/mm/heap.c:98-104 | freeing never makes a satisfiable request fail |
| `Blocks.TakeThenFree` | src/kernel/mm/heap.c:52-104 | freeing right after allocating restores the exact block list if and only if the allocation split the block or the following block is not free |
| `Blocks.Accounting` | src/kernel/mm/heap.c:110-136 | used bytes, free bytes and a header per free block add up to the size of the heap |
| `Blocks.NothingUsed` | src/kernel/mm/heap.c:110-122 | a heap of free blocks has no bytes in use |
| `Blocks.TakeUses` | src/kernel/mm/heap.c:52-65 | an allocation adds the bytes granted and 16 for the header to the bytes in use |
| `Blocks.FreeReturns` | src/kernel/mm/heap.c:98-104 | a release takes the same away, merged or not |
| `Heap.FlagStored` | src/kernel/mm/heap.c:64 | a store of the flag byte is the change of one block and touches header words only |
| `Heap.SplitStored` | src/kernel/mm/heap.c:53-61 | the stores of a split put the divided block list into memory |
| `Heap.MergeStored` | src/kernel/mm/heap.c:101-104 | the stores of a merge put the merged block list into memory |
| `Heap.Heap.Init` | src/kernel/mm/heap.c:20-30 | one free block spans the heap |
| `Heap.Heap.FindFit` | src/kernel/mm/heap.c:39-69 | the walk over headers in memory finds the first fit of the block list |
| `Heap.Heap.Kmalloc` | src/kernel/mm/heap.c:33-73 | returns the payload of the first fit, and 0 exactly for size 0 or when no free block is large enough; the block granted holds the request if and only if it is at most 0xFFFFFFFC bytes; the header list in memory makes the abstract step and only header words change |
| `Heap.Heap.Release` | src/kernel/mm/heap.c:98-104 | marks the block free and merges it with a free successor |
| `Heap.Heap.Kfree` | src/kernel/mm/heap.c:88-107 | frees a live block, ignores null, and changes header words only |
| `Heap.Heap.Used` | src/kernel/mm/heap.c:110-122 | the sum over the headers of used blocks, headers included |
| `Heap.Heap.Unused` | src/kernel/mm/heap.c:124-136 | the sum over the headers of free blocks |
| `Heap.Heap.RunOps` | src/kernel/mm/heap.c:33-107 | over every legal run of allocations, frees and client writes, a block in use at any moment and not freed since holds what was last written to it since |
| `Heap.Heap.BootAndRun` | src/kernel/mm/heap.c:20-107 | so for every legal run from initialisation, with the headers in memory tiling the heap |
| `Heap.Heap.KmallocAligned` | src/kernel/mm/heap.c:76-85 | for power-of-two alignments: the pointer is the block's payload rounded up on 32 bits, and the requested bytes lie inside the block taken if and only if size plus alignment is at most 0xFFFFFFFC; then it is aligned |
| `Keyboard.FullExactly` | src/kernel/core/keyboard.c:110-111 | the positions show full exactly at 255 pending characters and empty exactly at 0 |
| `Keyboard.StepKeepsInv` | src/kernel/core/keyboard.c:108-148 | every step of handler or reader keeps the queue invariant |
| `Keyboard.NeverOverwritesReadSlot` | src/kernel/core/keyboard.c:111-112 | the slot being stored to is never the slot being read |
| `Keyboard.DroppedExactlyWhenFull` | src/kernel/core/keyboard.c:110-114 | a character is dropped exactly when 255 are pending |
| `Keyboard.RunKeepsInv` | src/kernel/core/keyboard.c:108-148 | over every interleaving the queue invariant holds |
| `Keyboard.KeysConserved` | src/kernel/core/keyboard.c:108-115 | over every interleaving each typed character is accepted or dropped, in order, none invented or lost |
| `Keyboard.QueueIsSafe` | src/kernel/core/keyboard.c:108-148 | over every interleaving what was read is a prefix, in order, of what was accepted, and at most 255 are pending |
| `Keyboard.ReadOne` | src/kernel/core/keyboard.c:139-148 | a call on a non-empty queue returns the oldest character |
| `Keyboard.DrainDelivers` | src/kernel/core/keyboard.c:139-148 | n calls deliver exactly the n oldest characters |
| `Keyboard.BackspaceCancels` | src/kernel/core/keyboard.c:159-163 | a printable character and a backspace after it cancel anywhere in the input |
| `Keyboard.TypedIsLine` | src/kernel/core/keyboard.c:164-171 | keys from the space to the tilde are the line, in order |
| `Keyboard.OtherKeysIgnored` | src/kernel/core/keyboard.c:159-171 | other keys leave no trace anywhere in the input, and neither does a backspace on an empty line |
| `Keyboard.EditInPlace` | src/kernel/core/keyboard.c:156-171 | one key changes the buffer as the line editor says |
| `Keyboard.ReadLine` | src/kernel/core/keyboard.c:150-175 | the buffer holds the edited line and its terminator; the keys consumed are the shortest stretch that ends a line or fills the buffer |
| `Processes.Find` | src/kernel/proc/process.c:465-472 | the first process of a pid, nothing exactly when no process has it |
| `Processes.BootInv` | src/kernel/proc/process.c:59-74 | the table after initialisation satisfies the invariant |
| `Processes.CreateKeepsInv` | src/kernel/proc/process.c:116-139 | creation keeps the invariant |
| `Processes.ExitKeepsInv` | src/kernel/proc/process.c:330-367 | exit keeps the invariant: pids unique and ordered, one runner, no lost wakeup |
| `Processes.WaitKeepsInv` | src/kernel/proc/process.c:370-423 | wait keeps the invariant whether it reaps, blocks or fails |
| `Processes.SwitchKeepsInv` | src/kernel/proc/process.c:431-448 | switching to a ready process keeps the invariant |
| `Processes.StatusKeepsInv` | src/kernel/proc/process.c:321 | making a process ready, or blocking one that has a child and no zombie child, keeps the invariant |
| `Processes.ExitIgnoresCode` | src/kernel/proc/process.c:503-504 | a kill that stores the code first is an exit with that code |
| `Processes.RunKeepsInv` | src/kernel/proc/process.c:59-507 | in every reachable state: pids unique and below the next one, parents older than children, only the current process runs, and a blocked process other than pid 0 has a child and no zombie child |
| `Processes.ExitWakesParent` | src/kernel/proc/process.c:346-352 | an exit wakes its blocked parent if and only if the parent is not pid 0 |
| `Processes.StepUnblocksKernel` | src/kernel/proc/process.c:330-423 | once the kernel process is blocked, an exec, exit or kill of itself unblocks it and no other operation does |
| `Processes.KernelStaysBlocked` | src/kernel/proc/process.c:330-423 | over every run without one it stays blocked for ever |
| `Processes.KernelIsItsOwnChild` | src/kernel/proc/process.c:405-419 | the kernel process counts as its own child, so its wait blocks even with no other process |
| `Processes.KernelWaitIsLost` | src/kernel/proc/process.c:346 | there is a run after which the kernel process is blocked with a zombie child |
| `Processes.ExitMakesOrphans` | src/kernel/proc/process.c:354-360 | an exit leaves its children to pid 1, which never exists |
| `Processes.OrphansStay` | src/kernel/proc/process.c:354-401 | such an orphan stays listed over every run, so it is never reaped |
| `Processes.WaitReturnsChild` | src/kernel/proc/process.c:370-401 | wait reaps a zombie child of the caller, returns its pid and the code of its last exit or kill, and unlinks only that process |
| `Processes.ForkMakesChild` | src/kernel/proc/process.c:215 | a fork lists a child of the forking process with the pid that was next |
| `Processes.CreateMakesChild` | src/kernel/proc/process.c:121 | a creation lists one of the current process, of pid 0 when there is none |
| `Processes.ParentMayWait` | src/kernel/proc/process.c:405-419 | a process with a listed child is never told that it has none |
| `Processes.ExitThenWait` | src/kernel/proc/process.c:330-401 | when a child exits and its parent has no other zombie child, the parent's next wait returns this child's pid and code |
| `Processes.ForkExitWait` | src/kernel/proc/process.c:201-401 | from a fork over the child's exit to the parent's wait: the parent gets the pid that was next before the fork and the code of the exit |
| `Processes.RunKeepsHistory` | src/kernel/proc/process.c:116-507 | over every run each process ever created is either listed or was reaped, exactly once, and zombies hold the code last given |
| `ProcessTable.ProcessTable.Init` | src/kernel/proc/process.c:59-74 | the linked list after initialisation is the kernel process, renumbered to pid 0, running and current, with next pid 2; without memory it is empty and the next pid 1 |
| `ProcessTable.ProcessTable.GetByPid` | src/kernel/proc/process.c:465-472 | the list walk finds the first process of a pid |
| `ProcessTable.ProcessTable.Create` | src/kernel/proc/process.c:116-139 | prepends a ready process with the next pid and the current process as parent; a failed allocation changes nothing |
| `ProcessTable.ProcessTable.Fork` | src/kernel/proc/process.c:201-249 | prepends a ready child with the next pid and the forking process as parent, so that the latter can wait for it (Processes.ForkExitWait); when the address space cannot be copied the pid is used up and nothing is listed |
| `ProcessTable.ProcessTable.WakeParent` | src/kernel/proc/process.c:345-352 | the parent of a positive pid is made ready if it is blocked |
| `ProcessTable.ProcessTable.ReparentChildren` | src/kernel/proc/process.c:354-360 | all children of the process get parent 1 |
| `ProcessTable.ProcessTable.Exit` | src/kernel/proc/process.c:330-367 | the list makes the abstract exit step with the code already stored |
| `ProcessTable.ProcessTable.Kill` | src/kernel/proc/process.c:496-507 | the list makes the abstract exit step with the signal as code; an unknown pid is reported and changes nothing |
| `ProcessTable.ProcessTable.FindZombieChild` | src/kernel/proc/process.c:375-386 | the first zombie child of a pid |
| `ProcessTable.ProcessTable.UnlinkNode` | src/kernel/proc/process.c:379-386 | removes exactly one node and keeps the rest linked in order |
| `ProcessTable.ProcessTable.Wait` | src/kernel/proc/process.c:370-423 | the list makes the abstract wait step, with the abstract outcome and code |
| `ProcessTable.ProcessTable.ExecDone` | src/kernel/proc/process.c:318-321 | a successful exec leaves the process ready |
| `ProcessTable.ProcessTable.Switch` | src/kernel/proc/process.c:431-448 | the list makes the abstract switch step |
| `ProcessTable.ProcessTable.BootAndRun` | src/kernel/proc/process.c:59-507 | for every run from boot the linked structure is the abstract table of that run |
| `Scheduler.DecideKeepsRunnable` | src/kernel/proc/scheduler.c:48-58 | a decision keeps the process invariant and every process that can run can still run, whatever else is queued |
| `Scheduler.DecideMakesCurrent` | src/kernel/proc/scheduler.c:48-58 | the process at the next slot is current after a decision if and only if it is ready or running, or was current already |
| `Scheduler.CallsKeepRunnable` | src/kernel/proc/scheduler.c:48-58 | so over any number of decisions |
| `Scheduler.RoundVisitsOnce` | src/kernel/proc/scheduler.c:52 | in as many calls as the queue is long every slot is visited exactly once, at a known call |
| `Scheduler.RoundIsFair` | src/kernel/proc/scheduler.c:48-58 | in a round every queued process that can run becomes current at the visit of its slot, even with blocked processes and zombies in the queue |
| `Scheduler.RoundIsFairAmid` | src/kernel/proc/scheduler.c:48-58 | with anything happening to the processes between the calls, a process becomes current at its visit if and only if it then can run or is current already |
| `Scheduler.WithoutDropsOne` | src/kernel/proc/scheduler.c:30-44 | removal takes out one occurrence of the process and keeps the order of the rest |
| `Scheduler.Scheduler.Add` | src/kernel/proc/scheduler.c:20-24 | appends to the queue; null and a full queue are ignored |
| `Scheduler.Scheduler.RemoveAt` | src/kernel/proc/scheduler.c:32-41 | closes the gap in order and keeps the index valid |
| `Scheduler.Scheduler.Remove` | src/kernel/proc/scheduler.c:27-45 | removes the first slot of the process; the index is reset to 0 exactly when it would point behind the queue |
| `Scheduler.Scheduler.Schedule` | src/kernel/proc/scheduler.c:48-58 | moves to the next slot and switches to its process exactly when that is ready; an empty queue changes nothing |
| `Scheduler.Scheduler.Round` | src/kernel/proc/scheduler.c:48-58 | as many calls as the queue is long, on the linked process list: every queued process that could run was current after one of them, and the index is back where it was |
| `Initrd.HexRoundTrip` | src/kernel/fs/initrd.c:44-58 | the digits of every 32-bit value, in either case, decode to the value |
| `Initrd.ParseHex` | src/kernel/fs/initrd.c:44-58 | the loop computes the value of the digits on 32 bits |
| `Initrd.ReadEntry` | src/kernel/fs/initrd.c:106-188 | the loop body makes one step of the reader |
| `Initrd.Init` | src/kernel/fs/initrd.c:99-188 | on every image on which the loop ends, the files are those of the stopped reader; for a written archive Initrd.InitArchive says which files those are |
| `Initrd.MemberSizes` | src/kernel/fs/initrd.c:153-155 | sizes rounded inside a member agree with the archive's padding, and the next member starts at a multiple of four |
| `Initrd.MemberRead` | src/kernel/fs/initrd.c:109-155 | at a written member the reader finds its magic, name, sizes and data and moves to its end |
| `Initrd.ArchiveWrittenWell` | src/kernel/fs/initrd.c:106-188 | any written archive has every member's fields where the reader looks |
| `Initrd.TurnAtMember` | src/kernel/fs/initrd.c:106-188 | a turn at a member lists it, skips it or stops at the trailer |
| `Initrd.ArchiveRoundTrip` | src/kernel/fs/initrd.c:99-188 | reading any archive that fits in memory lists, in order, exactly the first 64 members not named "." or "./...", each with its name up to 255 bytes, its size and its bytes |
| `Initrd.HeaderFields` | src/kernel/fs/initrd.c:107-125 | a written header has 110 bytes: the magic number, and the file and name sizes in hexadecimal at the places the reader looks at |
| `Initrd.ListedIsVisible` | src/kernel/fs/initrd.c:121-132 | the members the reader keeps are, byte for byte, those before the first trailer whose name is neither a dot alone nor begins with a dot and a slash |
| `Initrd.ArchiveReadsBack` | src/kernel/fs/initrd.c:99-188 | for every archive that ends with a member named TRAILER!!! the reader stops and has the first 64 visible members, each with at most 255 bytes of its name, its size and its bytes |
| `Initrd.InitArchive` | src/kernel/fs/initrd.c:99-188 | so does the loop itself, run on such an archive |
| `Initrd.VisibleExactly` | src/kernel/fs/initrd.c:126-132 | a member before the first trailer is visible exactly when its name is neither a dot alone nor begins with a dot and a slash |
| `Initrd.Progress` | src/kernel/fs/initrd.c:128-130 | sizes that do not wrap move the reader on by at least 112 bytes |
| `Initrd.ReaderStops` | src/kernel/fs/initrd.c:105-188 | if no header the reader visits wraps, it stops within one turn per 112 bytes |
| `Initrd.MeetingIsRepetition` | src/kernel/fs/initrd.c:105-188 | a position met twice with the same number of files is a repetition of the whole state |
| `Initrd.MustMeetAgain` | src/kernel/fs/initrd.c:105-188 | a reader that has not stopped after 64 turns per byte has met a position twice that way |
| `Initrd.NeverStopsExactly` | src/kernel/fs/initrd.c:105-188 | the reader never stops if and only if it meets a position twice with the same number of files; if it stops at all, it does within 64 turns per byte |
| `Initrd.StuckReader` | src/kernel/fs/initrd.c:126-132 | the shortest such circle: the reader stays at a skipped member if and only if its sizes wrap to zero |
| `Initrd.ReaderCanLoop` | src/kernel/fs/initrd.c:105-132 | there is an image of 112 bytes on which the reader never stops |
| `Initrd.Find` | src/kernel/fs/initrd.c:224-231 | the first file of a name, nothing exactly when no file has it |
| `Paths.ComponentsAtSlash` | src/kernel/fs/vfs.c:191-227 | a slash separates the components before it from those after it |
| `Paths.NeutralPart` | src/kernel/fs/vfs.c:193-203 | doubled slashes and "." or ".." between slashes change no component |
| `Paths.LookupAppend` | src/kernel/fs/vfs.c:205-217 | looking up a longer list of names continues from where the shorter one ends, and fails where it fails |
| `Paths.Walk` | src/kernel/fs/vfs.c:186-250 | the character-by-character walk equals splitting at slashes, dropping empty, "." and ".." parts, cutting each to 127 characters, and folding the directory lookup |
| `Mounts.CoversIsComponentPrefix` | src/kernel/fs/vfs.c:135-137 | the character test is the component-wise prefix test; only the empty path, which the root mount does not cover, is set apart |
| `Mounts.FindMountPoint` | src/kernel/fs/vfs.c:125-145 | the search returns a covering mount with the longest path, the last in the list among equals, and nothing exactly when none covers the path |
| `Mounts.OrderDoesNotMatter` | src/kernel/fs/vfs.c:125-145 | with distinct mount paths the result does not depend on the order of the list |
| `Mounts.ResolveIsBest` | src/kernel/fs/vfs.c:125-145 | the longest covering mount is unique |
| `Mounts.MountTakesOver` | src/kernel/fs/vfs.c:125-145 | with distinct mount paths the search finds a new mount if and only if it covers the path and is longer than every mount that does, and otherwise finds what it found before |
| `Mounts.MountChangesResolution` | src/kernel/fs/vfs.c:546-548 | mounting changes the resolution of exactly those paths |
| `Mounts.TakesOverByComponents` | src/kernel/fs/vfs.c:135-137 | in components: the new mount's are a prefix of the path's, and no other mount's lie between the two |
| `Mounts.RelativePath` | src/kernel/fs/vfs.c:148-160 | the relative path has the components of what follows the mount's path, is never empty and never starts with a slash |
| `Mounts.MountTable.constructor` | src/kernel/fs/vfs.c:103-119 | the root mount exists exactly when the RAM disk has a root node and memory for the record |
| `Mounts.MountTable.MountAt` | src/kernel/fs/vfs.c:499-553 | a mount succeeds exactly when the target does not resolve to a plain file, is not mounted yet, memory suffices and the driver delivers a node; mount paths stay distinct, and resolution changes for exactly the paths taken over. Afterwards the target names the node mounted, and a plain name below it, where the mount takes the path over, names that node's child of this name |
| `Mounts.MountTable.Umount` | src/kernel/fs/vfs.c:556-591 | an unmount succeeds exactly for a mounted target other than the root, removes that mount only, and gives back exactly the paths it had taken over |
| `Mounts.MountTable.MountThenUmount` | src/kernel/fs/vfs.c:499-591 | for a target other than "/" that was not mounted, mounting and unmounting it restores the table, and so the resolution of every path, whether the mount succeeds or not |
| `Mounts.UmountGivesBack` | src/kernel/fs/vfs.c:556-591 | whatever the order of mounting, unmounting changes the resolution of exactly the paths the mount would take over from the others, and those go back to them |
| `Mounts.MountTable.FindDir` | src/kernel/fs/vfs.c:163-251 | the root for "/", nothing when no mount covers the path, and otherwise what the components after the longest covering mount's path lead to from the node mounted there |
| `Mounts.MountNames` | src/kernel/fs/vfs.c:187-251 | after a mount its path names the node mounted there, and a plain name of at most 127 characters below it names the node's child, if the mount takes the path over |
| `Mounts.OneName` | src/kernel/fs/vfs.c:196-228 | a path of one part names that part, cut to 127 characters |
| `Mounts.NeutralKeepsResolution` | src/kernel/fs/vfs.c:125-145 | with mount paths free of empty, "." and ".." components, adding such a component to a path leaves its mount as it is if and only if no mount that covers the path reaches past the place |
| `Mounts.CoveredComponents` | src/kernel/fs/vfs.c:148-160 | the components of a path are those of a mount that covers it followed by those behind it |
| `Mounts.ComponentsName` | src/kernel/fs/vfs.c:163-251 | what a path other than "/" names depends only on its mount and its components |
| `Mounts.NeutralKeepsNode` | src/kernel/fs/vfs.c:163-251 | so an empty, "." or ".." component that leaves the mount as it is leaves the node |
| `Mounts.NeutralCanLeaveMount` | src/kernel/fs/vfs.c:135-137 | inside a mount's path they do: "/./m" no longer reaches the mount at "/m" |
| `Descriptors.CopyStaysInside` | src/kernel/fs/initrd.c:65-68 | a read copies the rest of the file cut to the size if and only if position plus size does not wrap; otherwise it copies past the end of the file |
| `Descriptors.ReadNode` | src/kernel/fs/initrd.c:61-72 | the piece of the file from the position on, at most the requested size and no more than is left, unless the end of the request wraps inside the file; then the copy overruns it |
| `Descriptors.SeekIsExact` | src/kernel/fs/vfs.c:413-430 | from any base a seek succeeds if and only if the target lies between 0 and 2^31 or the sum wraps, and lands on the target on 32 bits |
| `Descriptors.FileTable.AllocFd` | src/kernel/fs/vfs.c:254-262 | the lowest free descriptor from 3 on, -1 exactly when there is none |
| `Descriptors.FileTable.Open` | src/kernel/fs/vfs.c:265-307 | succeeds exactly when the node exists, is not a directory opened for writing, and a descriptor is free; takes the lowest one at position 0 and changes no other |
| `Descriptors.FileTable.Close` | src/kernel/fs/vfs.c:310-328 | clears a descriptor in use; anything else is refused and changes nothing |
| `Descriptors.FileTable.OpenThenClose` | src/kernel/fs/vfs.c:265-328 | opening and closing restores the whole table |
| `Descriptors.FileTable.Read` | src/kernel/fs/vfs.c:331-360 | a write-only descriptor, a directory, a node without read function and a null buffer fail; otherwise the bytes at the position are delivered and the position moves by a positive count only |
| `Descriptors.FileTable.Seek` | src/kernel/fs/vfs.c:405-434 | a seek from the start, the position or the end of the file lands at that base plus the offset on 32 bits; it succeeds for every sum from 0 to 2^31 - 1; an unknown mode or a target that is negative as an integer leaves the position |
| `Descriptors.OthersUntouched` | src/kernel/fs/vfs.c:254-434 | no operation on another descriptor, nor any open, changes a descriptor in use |
| `Descriptors.ReadIsPiece` | src/kernel/fs/vfs.c:353-357 | a read delivers the next bytes and moves behind them if and only if the request neither wraps nor copies 2^31 bytes or more |
| `Descriptors.SmallReadsFit` | src/kernel/fs/vfs.c:353-357 | sizes below 2^31 meet that condition everywhere in a file of at most 2^31 bytes |
| `Descriptors.ChunksJoin` | src/kernel/fs/vfs.c:331-360 | in any run that only reads through a descriptor, whatever it does to others, the pieces join to the file slice of length min(sum of sizes, remaining bytes) and the position is behind it |
| `Descriptors.FileTable.RunOps` | src/kernel/fs/vfs.c:254-434 | the calls themselves make that run and deliver that slice |
| `FileStack.PathsAreFlat` | src/kernel/fs/initrd.c:86-96 | in the RAM disk a path without components names the root, one with a single component the first file of that name, and a longer one nothing |
| `FileStack.FoundByName` | src/kernel/fs/initrd.c:86-96 | a file whose name is one whole component is found by its name unless an earlier file has it |
| `FileStack.ReachedExactly` | src/kernel/fs/initrd.c:86-96 | a listed file can be reached by some path if and only if its name has no slash, is not "." or ".." or empty, has at most 127 bytes, and no earlier file has it |
| `FileStack.ChildIsFirst` | src/kernel/fs/initrd.c:86-96 | the directory lookup of the RAM disk finds the first file of a name |
| `FileStack.FindArchived` | src/kernel/fs/initrd.c:99-188 | for any archive: reading it and resolving the path of a listed file with such a name gives a node with the bytes archived under it |
| `FileStack.ReadArchived` | src/kernel/fs/vfs.c:163-360 | from the archive to a program: the file is opened by its path through the mount table and read through its descriptor in any pieces, with any use of other descriptors in between, and comes back from its start |
| `Elf.Loader.Copy` | src/kernel/proc/elf.c:10-15 | a copy stores the bytes at consecutive addresses on 32 bits and changes nothing else |
| `Elf.Loader.Clear` | src/kernel/proc/elf.c:18-22 | a clear stores zeros likewise |
| `Elf.Loader.LoadOne` | src/kernel/proc/elf.c:105-126 | one segment: the seek, the copy, and zeros only after a complete read |
| `Elf.Loader.ReadHeader` | src/kernel/proc/elf.c:91-126 | one program header; unreadable ones and those not to be loaded change only the position |
| `Elf.Loader.Load` | src/kernel/proc/elf.c:60-133 | every path closes the file, so the descriptor table is as before; a file not accepted leaves memory alone and gives 0, an accepted one gives its entry point and the stores of its headers in order; ElfFiles.LoadWritten says what they are for a written file |
| `Elf.SegmentLoaded` | src/kernel/proc/elf.c:105-126 | a segment inside the file whose bytes begin below 2^31 is stored as its file bytes followed by zeros up to its memory size, unless it has file bytes and lies at address 0 |
| `Elf.FarSegmentMisread` | src/kernel/proc/elf.c:111-119 | a segment whose bytes begin at 2^31 or beyond is not sought and gets the bytes at the loader's position |
| `Elf.FarHeaderMisread` | src/kernel/proc/elf.c:91-98 | so does a program header there |
| `Elf.HeadersLoaded` | src/kernel/proc/elf.c:88-127 | the stores of all headers give, address by address, the overlay of the segments in order |
| `Elf.LoadsImage` | src/kernel/proc/elf.c:60-133 | the memory after loading a well-formed file with headers and segments below 2^31 is the image of its segments, those at address 0 with file bytes left out; ElfFiles.LoadsWritten gives it byte by byte from the written headers |
| `Elf.OutsideUnchanged` | src/kernel/proc/elf.c:60-133 | addresses outside every segment keep their byte |
| `Elf.NullSegmentLost` | src/kernel/proc/elf.c:106-119 | a segment at address 0 with file bytes is not loaded, because its address is taken for a missing buffer |
| `Elf.LoadNullFile` | src/kernel/proc/elf.c:60-133 | a concrete well-formed file with such a segment: loading it reports its entry point and leaves memory as it was |
| `Elf.Loader.LoadWellFormed` | src/kernel/proc/elf.c:60-133 | for such a file memory ends as the image, exactly that of all segments when none lies at address 0 with file bytes; the descriptor table is restored |
| `ElfFiles.ProgramHeaderReadsBack` | src/kernel/proc/elf.h:27-36 | from a program header written field by field, little-endian, the loader reads kind, offset, address, file size and memory size as written |
| `ElfFiles.HeaderReadsBack` | src/kernel/proc/elf.h:9-24 | from a written file header it reads entry point and offset, entry size and number of the program headers as written |
| `ElfFiles.ValidIffForX86` | src/kernel/proc/elf.c:25-57 | a written header is valid exactly for class 1, encoding 1, kind 2 and machine 3 |
| `ElfFiles.ValidExactly` | src/kernel/proc/elf.c:25-57 | the valid 52-byte headers are exactly the written ones of that class, encoding, kind and machine |
| `ElfFiles.WrittenFileHolds` | src/kernel/proc/elf.h:9-36 | a file written as header, program headers and body holds them where the header says |
| `ElfFiles.LoadsWhatIsAsked` | src/kernel/proc/elf.c:83-103 | in a file that holds given program headers, at any offset and entry size, the segments to load are those of kind 1, in order and as written |
| `ElfFiles.ImageOfAsked` | src/kernel/proc/elf.c:105-126 | their image, byte by byte: the last program header that reaches an address gives a byte of the file or, behind its part of the file, zero; no other address changes |
| `ElfFiles.LoadsWritten` | src/kernel/proc/elf.c:60-133 | so is the memory after loading such a file |
| `ElfFiles.LoadWritten` | src/kernel/proc/elf.c:60-133 | loading a file that holds given headers returns the written entry point and changes memory so exactly when the header is one for x86 and a descriptor is free; otherwise 0, and memory as before; the descriptor table is restored |
| `Numerals.DigitsAreCanonical` | src/api/libsys.c:368-395 | a numeral has the value it was made from, uses digits of its base only and has no leading zero |
| `Numerals.CanonicalIsUnique` | src/api/libsys.c:368-395 | no other sequence of digits without a leading zero has that value |
| `Numerals.NumeralMeans` | src/api/libsys.c:368-395 | in every base the text of a negative number is a minus sign and digits of its absolute value, that of any other its digits alone |
| `Numerals.TableIsSymmetric` | src/api/libsys.c:382 | a remainder of either sign selects the digit of its absolute value |
| `Numerals.WriteDigits` | src/api/libsys.c:379-383 | the digits are written from last to first, for negative values without negation, the smallest integer included |
| `Numerals.ReverseInPlace` | src/api/libsys.c:388-392 | the two moving pointers reverse the text and touch nothing behind it |
| `Numerals.Itoa` | src/api/libsys.c:368-395 | for every 32-bit value and base 2 to 36 the text is the canonical signed numeral and its terminator; another base gives the empty text |
| `Numerals.Atoi` | src/api/libsys.c:347-366 | spaces, an optional sign and the longest run of digits; no result exactly when the digits exceed the largest integer |
| `Numerals.AtoiReads` | src/api/libsys.c:347-366 | any number of spaces, at most one sign, digits and a rest that begins with no digit read as the signed value of the digits, as nothing from 2^31 on |
| `Numerals.AtoiAfterItoa` | src/api/libsys.c:347-395 | reading back a written integer gives the integer if and only if it is not the smallest one |
| `Console.HistoryIsFinal` | src/kernel/core/console.c:69-94 | whatever is written, rows above the cursor never change |
| `Console.TextAppears` | src/kernel/core/console.c:81-84 | text that fits in the row appears in it cell by cell and nothing else changes |
| `Console.TabStops` | src/kernel/core/console.c:75 | a tab goes to the next column that is a multiple of 4, from the last four columns to the start of the next row, and writes nothing |
| `Console.CursorKeys` | src/kernel/core/console.c:70-79 | backspace, return and newline move the cursor one column back, to the start of the row and to the start of the next row, and write nothing |
| `Console.MakeColor` | src/kernel/core/console.c:21-23 | the low four bits of a colour are the foreground and the high four the background |
| `Console.StoreShown` | src/kernel/core/console.c:82 | a store at the cursor shows the row with that cell replaced |
| `Console.ScrollShown` | src/kernel/core/console.c:32-46 | moving all rows up and blanking the last shows one more row of the terminal |
| `Console.Console.constructor` | src/kernel/core/console.c:48-53 | the console starts as a blank terminal in light grey on black |
| `Console.Console.Scroll` | src/kernel/core/console.c:32-46 | every row moves up by one, the last is blank in the current colour, and the cursor is in it |
| `Console.Console.Clear` | src/kernel/core/console.c:55-63 | the buffer is blank in the current colour and the cursor at its start |
| `Console.Console.SetColor` | src/kernel/core/console.c:65-67 | the colour of later cells changes and nothing shown does |
| `Console.Console.PutChar` | src/kernel/core/console.c:69-94 | after any character the buffer shows the last 25 rows of the unbounded terminal after that character, with the cursor in bounds |
| `Console.Console.Write` | src/kernel/core/console.c:96-106 | so after any sequence of characters |
| `Console.Console.RunOps` | src/kernel/core/console.c:48-106 | so after any run of characters, colour changes and clears |

## Left out

- `src/kernel/fs/ext4.c`: block reads and writes ignore the block number and inode read and write use different table bases, so there is no read-after-write law to state.
- `clone_page_directory_deep` and the freeing of page directories in `process.c`: they mix heap memory with frame memory; the deep copy modelled is `vmm_clone_page_directory`.
- Enabling paging, TLB invalidation and CR3: physical memory is addressed directly, as the code does through its identity mapping; accesses through other translations are not modelled.
- Vmm.Vmm.RunOps: requires of every unmap in the run that it frees no directory or table frame, because the code does not check this; UnmapPage states that this is exactly when the invariant survives.
- Vmm.Vmm.SwitchDirectory: switches to directories made by this manager only; the code loads any pointer.
- Vmm.Vmm.constructor: physical memory spans all 32-bit addresses; which of them are backed by RAM is not modelled.
- Heap.Heap.Kfree: freeing a pointer that is not live (a double free, or a pointer from the aligned allocator) is excluded as a precondition, because the code then works on arbitrary memory.
- Heap.Heap.KmallocAligned: alignments that are not powers of two are excluded, because the mask in the code means nothing for them.
- Processes.RunKeepsInv: runs in which the pid counter wraps around are excluded, and processes are switched to only when ready, as the scheduler does.
- Scheduler.Scheduler.Schedule: queued processes must still be listed, because the code keeps freed processes in the queue.
- `process_exec`: only the change to ready is modelled; the argument strings and the stack are not.
- The descriptors of a process and the loop that closes them at exit: those tables are never filled.
- Keyboard.ReadLine: a buffer of length 0, for which the code's bound underflows, is excluded.
- Keyboard scan codes, layouts and modifier keys: the model starts where a character is put into the queue; `char` values are numbers.
- Initrd.Init: is stated for images on which the loop ends; NeverStopsExactly says which those are. Failed allocations of file nodes are not modelled.
- Names and paths are sequences of characters: the byte-level string helpers, and mount paths of 256 characters or more, which the code leaves without a terminator, are not modelled.
- The tracking of parent directories: ".." is dropped, as in the code.
- Writing files, truncation, directory listing, duplication of descriptors, `stat`, creation and removal: the RAM disk has no write function and the rest adds easy members.
- Descriptors.FileTable.Open: takes the node a path resolved to; FileStack.ReadArchived puts path resolution in front of it.
- Mounts.NeutralKeepsResolution: mount paths that themselves hold an empty, "." or ".." component behind the first are excluded.
- Descriptors.FileTable.Read: the bytes copied past the end of a file by a request that wraps are not modelled, only that this happens and where the position goes.
- Elf.Loader.Load: takes the node a path resolved to, promises nothing about memory after a read that runs past the end of the file, and the file's own bytes are taken to lie outside the memory written; the product of header index and header size is taken on 32 bits.
- Elf.LoadsImage: requires headers and segment bytes to begin below 2^31, because the code reads those beyond from the wrong place.
- ElfFiles.LoadWritten: requires the same, and segments that lie inside the file and are no shorter in memory; Elf.Loader.Load covers the others.
- Mounts.TakesOverByComponents: mounts on the empty path, which have the components of the root mount, are excluded; MountChangesResolution covers them.
- Mounts.MountTable.MountThenUmount: excludes "/", which can be mounted when there is no root mount and can then not be unmounted.
- Numerals.Atoi: signed overflow, undefined in C, is an outcome without a number.
- Numerals.Itoa: the buffer must be large enough for the text and its terminator.
- The number formatting of `kprintf`, the installer, shells, editor, file manager, calculator, `path.c`, the system call table and the hardware drivers.
