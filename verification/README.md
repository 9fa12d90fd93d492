# A verified model of the kernel's page manager, line editor and number printing

This project models three parts of the kernel and proves what they promise together.

**The page manager** (`memory/memory.c`) keeps a bitmap of 2^20 page frames and a flat
array of 2^20 page-table entries. `PageManagers.PageManager` is that code, with its loops
over the arrays; every method is proved equal to a function on the value
`Machine.State`, and the other modules prove what these functions amount to. A state has the
claimed frames, the flat table, the contents of every frame, the page number of
`kernel_tables`, the frame of the directory in cr3, and the frames of the kernel's image. The table is
in it twice: as the kernel's flat array, and as words in the frames under the table's own pages,
which every update of an entry writes as the code does. The kernel's other variables, the bitmap
and `clone_data` among them, lie in its image too; what is in those frames is left open: a run may
change it at any step, and no statement says that it stays.

- `PageTables`: while these words are those of the flat table, the hardware's two-level walk and the
  kernel's lookup agree on every page; exactly which updates and writes keep it so.
- `Ownership`, `Runs`: over every legal run of calls and of writes through mapped pages, clone_tables
  included, no frame is mapped twice, walk and table agree on every page, and the frames of other
  address spaces and the tables of ancestors are neither handed out, released nor written; free
  frames plus mapped pages are conserved.
- `Allocation`, `Freeing`: the allocators are exact first fit, fail exactly when they
  must, and are undone by freeing.
- `Reallocation`: `realloc_page` keeps contents in all four cases, exactly when its
  frames and run are at hand.
- `AddressSpaces`, `UserCopies`, `DeepCopy`: `clone_tables` leaves two directories that both lead to the
  parent's entries, and `clone_user_pages` a child that reads the same on frames of its own; when it
  succeeds, which page gets which frame, and what a shortage leaves.
- `Isolation`, `Sharing`: no later run of the child can touch the parent's user pages or
  translations, nor a run of the parent the child's; `use_kernel_map` gets back, and what the child
  may do to the pages they share so that the parent is sound again.
- `BitmapPages`: the bitmap as words in the kernel's image, and what a write there would do.
- `Boot`, `BootMap`: what `paging_init` makes of any memory and any memory map, and of every run from
  there; the booted address space page by page and word by word.
- `Outcomes`: what single calls come to as the hardware finds it, and every way the others fail.

A run is legal when each of its operations leaves the guarded pages alone in the state it meets: the
pages that hold page tables and directories, the address space's own and its ancestors', and all
pages of the kernel's image, where the bitmap is. The kernel gives no protection here, as
`free_page`, `realloc_page`, `trade_vaddr` and stores take any page, and as the copying of user pages
takes any that carries the bit. `PageTables.TableWriteIff`, `DirectoryWriteIff` and `FreedTablePage`
and `DeepCopy.TablesStayIff` show that without this condition walk and table come apart, and
`BitmapPages.BitmapWriteIff` and `ZeroedBitmap` that the kernel loses its bitmap, and hands out a
frame that is in use.

**The terminal line editor** (`drivers/keyboard/keyboard.c`, `vga/vga.c`,
`terminal/terminal.c`). `VgaDriver.Vga` and `KeyboardDriver.LineEditor` are the code;
`Transcript` proves that the screen shows the end of the printed text wrapped at 80
columns, in its colours, and that a backspace takes back what was printed; `KeyMap` what each key
types, and that every text can be typed; `LineEditing` that a waiting consumer gets the line the user
edited, for every sequence of key interrupts. `Turns` and `Conversations` prove of a turn of the
terminal's loop that the line comes back and that the screen shows the dialogue, and `Terminals` that
the loop does so over any number of lines. One key interrupt is one step, because its stub disables
interrupts; the consumer's spin and every iteration of its copy loop are interleaved with
such steps.

**Number printing** (`std/string/itoa.c`, `std/math/pow.c`): `Numbers`.

## Reading the model

- Pointers that the code only divides by 0x1000 are page and frame numbers. Where the code
  computes `(void *)(k*0x1000)`, `Wrap` keeps 20 bits of k.
- `Outcome` has a value for each way a call ends: null, a page, `PastEnd` where the code
  indexes the page table past entry 0xFFFFF, and `Fault` where it touches a page that is
  not present. `Keyboards.Outcome.Stuck` stands for a write outside the ring or the screen,
  or the tab loop that never ends, and `false` for such an end of a method of the screen. So
  nothing has to be assumed about the arguments of a call, except that the page number behind a
  reallocated block has 32 bits.
- Text is bytes; a C string is a byte sequence up to its first NUL.

## What was found

- Every scan for free virtual pages that fails reads past the page table whenever the last
  entry is free (`AllocPageWithoutRun`). `alloc_sequential` does so even after finding a
  run of pages, if it finds no run of frames (`AllocSequentialWithoutRun`).
- The physical scan of `alloc_sequential` wraps from the last frame to frame 0; the run is
  contiguous iff it ends by the end of memory, and a claimed frame 0 guarantees that
  (`ContiguousIff`, `WrappedRun`).
- `realloc_page` ignores that its allocations fail; `ReallocPageIff` gives the exact
  condition under which it keeps its promise.
- Freed entries keep their user bit, so the pages that `clone_tables` puts page tables in
  may carry one, and `clone_user_pages` then moves them away from where the directory
  points; `TablesStayIff` gives the exact condition.
- Usable memory above 4 GiB releases frames below it, because the scan cuts addresses to
  32 bits (`AlignedRegion`). The scan of a region that ends within a page of 2^64 never ends
  (`ScanEndsIff`).
- Wherever the boot information is, the hardware goes by the table that `paging_init` built
  (`BootedWalk`); but the kernel sees that table only if the boot information is not mapped over
  it (`KernelSeesIff`), and booting is sound iff it also keeps off the kernel's image, off the frames
  of table and image, and off frames that booting frees (`BootedSoundIff`).
- After `use_kernel_map` the parent's table is what it was, but its frames need not be. They are if
  the child freed and reallocated no page that the two share (`ReturnSound`); a single free of one, which
  nothing in the code keeps it from, leaves the parent mapping a free frame (`ReturnUnsound`).
- The backspace guard compares (row, column) pairs, and the stop position does not move when the
  screen scrolls. It is right over all typing iff the line does not start behind column 79 of a
  full row and the screen has 127 cells left (`GuardRightIff`). In the terminal's loop no
  prompt that ends on the last row satisfies that (`LastRowNeverRight`). Lines typed without
  backspace come back all the same (`JustTypesSession`).
- A line that reaches the margin exactly and loses its next character again leaves the cursor in an
  empty row; enter then leaves that row empty in the dialogue (`TurnShows`).
- Left shift does nothing, as the handler compares where it means to assign (`IdleKeys`). Right shift is
  not among its cases, and types a code (`OtherKeys`).
- A move that `realloc_page` cannot allocate copies the block to address 0 and then frees it
  (`MoveFailsExact`).
- Taking back the character in the ring's last slot leaves `tail` at -1, since C's
  remainder keeps the sign; the line then writes in front of the ring (`StuckIff`).
  Of a line of 127 characters nothing is copied (`LineReturned`).
- `itoa` can be read back iff the base is at most 201 (`RoundTripIff`). Its branch for
  negative numbers is dead, the parameter being unsigned.

## Model

| member | source | states |
|---|---|---|
| FrameBitmaps.FrameBitmap.Check | memory/memory.c:16-21 | answers whether the frame is claimed |
| FrameBitmaps.FrameBitmap.Claim | memory/memory.c:25-33 | claims this frame and no other, bit arithmetic included |
| FrameBitmaps.FrameBitmap.Release | memory/memory.c:35-39 | releases this frame and no other |
| FrameBitmaps.FrameBitmap.Cluster | memory/memory.c:41-45 | the byte is 255 iff all eight frames of the cluster are claimed |
| FrameBitmaps.FrameBitmap.FindFreePhysPage | memory/memory.c:219-228 | the scan that skips full bytes returns the lowest unclaimed frame from 0x800 on, 0 iff there is none |
| FrameBitmaps.FrameBitmap.FreePages | memory/memory.c:413-426 | with its shortcuts for full and empty bytes, counts exactly the unclaimed frames |
| FrameBitmaps.FreeBelowStretch | memory/memory.c:415-424 | eight frames that are all free or all claimed count 8 or 0 |
| Machine.LowestFree | memory/memory.c:219-228 | everything below the result is claimed and the result is not |
| Machine.FirstRun | memory/memory.c:294-306 | the result starts a free run that fits, and no lower page does |
| Machine.FirstFrames | memory/memory.c:350-364 | the result starts a run of free frames, and no lower frame does |
| Machine.NextPresent | memory/memory.c:435-440 | the first present entry, with only free entries before it |
| PageManagers.PageManager.MapAddr | memory/memory.c:173-183 | the new state of bitmap, page table and memory: frame claimed, entry mapped, its word written, user bit kept |
| PageManagers.PageManager.UnmapVaddr | memory/memory.c:185-193 | the new state: frame released, entry cleared, user bit kept |
| PageManagers.PageManager.TradeVaddr | memory/memory.c:195-203 | the new state: entry cleared, frame still claimed |
| PageManagers.PageManager.MapPageTo | memory/memory.c:230-238 | maps a page that is not present to the lowest free frame, and says when it cannot |
| PageManagers.PageManager.CountRun | memory/memory.c:296-305 | finds the run iff it is there, and indexes past the table iff everything up to its end is free and too short |
| PageManagers.PageManager.AllocPage | memory/memory.c:290-319 | the nested scans refine "first run, then lowest free frame for each page" |
| PageManagers.PageManager.FindFrames | memory/memory.c:350-371 | skipping eight frames at each full byte misses no run of free frames |
| PageManagers.PageManager.CountFrames | memory/memory.c:355-363 | counts to the full number iff all the frames, wrapping at the end of memory, are free |
| PageManagers.PageManager.AllocSequential | memory/memory.c:334-376 | four nested scans refine "first run of pages and first run of frames" |
| PageManagers.PageManager.MapPaddr | memory/memory.c:262-288 | refines "first run, mapped to consecutive frames, bitmap untouched" |
| PageManagers.PageManager.UnmapSecretPage | memory/memory.c:251-260 | clears the range, bitmap untouched, or stops where the table ends first |
| PageManagers.PageManager.FreePage | memory/memory.c:321-325 | refines unmapping page after page, wrapping at 32 bits |
| PageManagers.PageManager.FreeAllUserPages | memory/memory.c:460-466 | refines unmapping every present user entry |
| PageManagers.PageManager.ReallocPage | memory/memory.c:428-458 | refines the four cases, failed allocations and reads past the table included |
| PageManagers.PageManager.CloneUserPages | memory/memory.c:470-504 | refines giving every present user page the lowest free frame and its old contents, stopping when frames run out; UserCopies.CloneUserExact says what that comes to |
| PageManagers.PageManager.CloneTables | memory/memory.c:391-411 | the words copied and written to memory, the directory returned, the new table in use; the old table stays as the allocation left it |
| PageManagers.PageManager.UseKernelMap | memory/memory.c:386-389 | the table in use is what the pages from 0xC0400 on hold, the directory the one mapped at its page |
| PageTables.DecodeEncode | memory/memory.h:38-49 | an entry survives its encoding as the word the hardware reads |
| PageTables.WalkIsTable | memory/memory.c:47-49 | while memory holds the table's words and the directory points at them, the two-level walk ends at the flat table's entry for every page |
| PageTables.ViewIsTable | memory/memory.c:7 | and the kernel reads that same table through its own mapping of it |
| PageTables.UpdateKeepsMirror | memory/memory.c:173-213 | an update of an entry keeps that, as long as the guarded pages stay on frames of their own |
| PageTables.VariableKeeps | memory/memory.c:9 | so does any change of the kernel's own variables, as these are apart from table and directory |
| PageTables.TableWriteIff | memory/memory.c:7 | a write through a page of the table keeps it iff it writes what is there already |
| PageTables.DirectoryWriteIff | memory/memory.c:3 | so does a write to the directory's frame |
| PageTables.FreedTablePage | memory/memory.c:185-193 | once a page of the table is unmapped its frame can be handed out while the directory still points at it |
| BitmapPages.BitmapWriteIff | memory/memory.c:9-45 | a write through a page of pmem_used leaves the kernel the bitmap it had iff it writes what is there already |
| BitmapPages.ZeroedBitmap | memory/memory.c:219-228 | with zeros in the first of these pages frame 0x800 is handed out next, whoever's it is |
| BitmapPages.VariablesAreGuarded | memory/memory.c:9 | in a sound address space these pages, and all others of the kernel's variables, are guarded |
| BitmapPages.GuardedIsLeftAlone | memory/memory.c:195-504 | no legal operation writes, trades, frees or reallocates a guarded page, nor frees or copies user pages while one is marked user |
| Runs.StepKeeps | memory/memory.c:173-238 | every legal operation keeps ownership and the agreement of memory with the table, leaves guarded pages in place, and leaves frames of other address spaces claimed, unmapped and unwritten |
| Runs.RunKeeps | memory/memory.c:290-504 | over every legal run: each mapped frame is claimed, by one page only; entries not present hold no address; foreign frames stay foreign and unwritten, ancestors' tables and directories stay as they are |
| Runs.RunTranslates | memory/memory.c:173-504 | after every legal run the walk from cr3 ends at the flat table's entry for every page, and the kernel reads that table in memory |
| Runs.AncestorTranslates | memory/memory.c:382-411 | later map and unmap after clone_tables leave what an ancestor's directory leads to as it was, for every page |
| Runs.AncestorReturns | memory/memory.c:386-389 | after every legal run use_kernel_map gets the kernel's table back, entry by entry |
| Runs.RunConserves | memory/memory.c:290-466 | over every legal run without trade_vaddr and clone_user_pages, free frames plus mapped pages keep their number, and no frame is lost or won |
| Outcomes.MapAddrSeen | memory/memory.c:173-183 | the hardware finds the page present, writable and on the frame, and every other page as before |
| Outcomes.UnmapSeen | memory/memory.c:185-193 | it finds the page gone but for its user bit, and the frame it was on is released |
| Outcomes.TradeSeen | memory/memory.c:195-203 | the same, and the frame stays claimed |
| Outcomes.MarkUserSeen | memory/memory.c:205-208 | the user bit is what was asked for, and nothing else has changed for any page |
| Outcomes.MarkWriteSeen | memory/memory.c:210-213 | the write bit is what was asked for, and nothing else has changed for any page |
| Outcomes.WordOfEntry | memory/memory.h:38-49 | present, writable and user are bits 0 to 2 of the word, and the frame starts at bit 12 |
| Outcomes.MapPageToExact | memory/memory.c:230-238 | answers the page iff it is not present and a frame is free, and puts it on the lowest; otherwise null, and nothing changes |
| Ownership.Accounting | memory/memory.c:413-426 | every frame from 0x800 on is free, or mapped by exactly one page, or foreign |
| Ownership.FreePagesCounts | memory/memory.c:413-426 | free_pages is the number of frames that can be handed out plus the unclaimed kernel frames |
| Ownership.MapFresh | memory/memory.c:173-183 | mapping a free frame at a page not present keeps ownership, the page table in memory, and the frames of others |
| Ownership.UnmapConserves | memory/memory.c:185-193 | so does unmapping, even of a page not present, where frame 0 is released |
| Ownership.TradeRespects | memory/memory.c:195-203 | exactly the traded page's frame becomes foreign |
| Ownership.CopyOntoRespects | memory/memory.c:473-498 | copying a page away makes its old frame foreign |
| Ownership.ReallocConserves | memory/memory.c:428-458 | all branches of realloc_page, failed ones included, keep that too |
| Allocation.FillRunExact | memory/memory.c:307-313 | the pages get the lowest free frames in increasing order, as many as there are |
| Allocation.AllocPageExact | memory/memory.c:290-319 | given the lowest run: success iff enough frames from 0x800 on are free; otherwise null, with all of them claimed and mapped at the front of the run |
| Allocation.AllocPageWithoutRun | memory/memory.c:294-318 | without a run nothing changes, and the scan leaves the table iff its last entry is free |
| Allocation.AllocSequentialExact | memory/memory.c:334-376 | first fit in both spaces: page i+k lies on frame j+k for the lowest i and j, and nothing else changes but the table's words and the kernel's variables |
| Allocation.AllocSequentialWithoutRun | memory/memory.c:337-375 | without a run of pages or of frames nothing changes, and when the scan leaves the table |
| Allocation.RunsDoNotWrap | memory/memory.c:355-363 | with frame 0 claimed a run of free frames ends by the end of memory |
| Allocation.ContiguousIff | memory/memory.c:334-376 | the result is physically contiguous iff the run does not wrap |
| Outcomes.MapPaddrExact | memory/memory.c:262-288 | answers the lowest run of free pages and maps page i+k to frame p+k, modulo 2^20; the bitmap and all other entries stay |
| Outcomes.MapPaddrWithoutRun | memory/memory.c:262-288 | without a run nothing changes, and it indexes past the page table iff the last entry is free |
| Outcomes.NoPages | memory/memory.c:263-336 | asked for no pages the three allocators answer null and change nothing |
| Outcomes.HugeRequest | memory/memory.c:262-319 | neither do alloc_page and map_paddr with 2^32-1, which find no run, as pages+1 is 0 |
| Outcomes.SearchesInNumbers | memory/memory.c:219-376 | frames are handed out from 0x800 on, pages from 0xC0000 on, and runs of frames from 0x1000 on |
| Allocation.WrappedRun | memory/memory.c:355-367 | a state in which alloc_sequential returns a run that is not contiguous |
| Freeing.FreePageExact | memory/memory.c:321-325 | exactly the block's entries are cleared and exactly its frames released |
| Freeing.FreeUndoesAlloc | memory/memory.c:290-325 | free_page after alloc_page restores bitmap, data and page table, up to stray write bits of unused entries |
| Freeing.FreeRestoresIff | memory/memory.c:290-325 | the whole state comes back, every word of memory, iff no page of the run had such a bit |
| Freeing.FreeUserExact | memory/memory.c:460-466 | exactly the present user entries go, with exactly their frames |
| Outcomes.FreePageWraps | memory/memory.c:321-325 | for any count, exactly the pages met, going around the end of the address space, are cleared |
| Freeing.FreeAllUserPages | memory/memory.c:460-466 | no entry is left both user and present; frames of the pages that stay are still claimed |
| Freeing.MapPaddrRoundTrip | memory/memory.c:215-288 | get_phys_addr inverts map_paddr on every byte of the mapping, and the bitmap is untouched |
| Freeing.UnmapSecretUndoesMapPaddr | memory/memory.c:251-288 | unmap_secret_page after map_paddr, of whatever frames, restores the whole state iff no page of the run had a left-over write bit |
| Freeing.UnmapSecretEnds | memory/memory.c:251-260 | it stays within the table iff its range does |
| Reallocation.GrowIsFill | memory/memory.c:447-450 | over free entries, map_page_to page by page maps what alloc_page would |
| Reallocation.CopyPagesExact | memory/memory.c:443 | memcpy between separate blocks makes each page read like its original and changes no other frame |
| Reallocation.Shrinks | memory/memory.c:452-457 | the remaining pages read the same, the others are gone, their frames free |
| Reallocation.GrowsInPlace | memory/memory.c:446-451 | the block grows where it is iff enough frames are free |
| Reallocation.Moves | memory/memory.c:441-445 | the block is at the lowest run with its contents, the old range is free, no other page of data changed |
| Reallocation.ReallocPageIff | memory/memory.c:428-458 | contents kept, exactly new_pages pages present, nothing else changed and free frames changed by the difference, iff frames (and a run, if the block must move) are at hand |
| Outcomes.GrowsExact | memory/memory.c:446-451 | growing in place always answers the old address, and on a shortage leaves the free frames, lowest first, at the front of the new range |
| Outcomes.GrowRunsOff | memory/memory.c:434-440 | where the table ends before a present entry stands in the way, it is read past its end, and nothing is changed |
| Outcomes.MoveFailsExact | memory/memory.c:441-445 | when a move cannot be allocated: what is answered and what becomes of the old block, after copying it to address 0 |
| AddressSpaces.TableCopied | memory/memory.c:392-397 | the new pages hold the words of the table, though it is copied page by page from the pages that hold it |
| AddressSpaces.DirectoryWordExact | memory/memory.c:398-404 | directory entry i, counted on from the first, points at the frame of table page i, because the frames are consecutive |
| AddressSpaces.CloneTablesExact | memory/memory.c:391-411 | the walks through the returned directory and through the parent's both find the parent's entry for every page, the flat table equals the parent's, and every claimed frame but those of the table and of the kernel's variables keeps its contents |
| Outcomes.CloneTablesWords | memory/memory.c:391-411 | each word of the new directory is 4096 times the frame of its table page, plus 7, and each word of the new table names its page's frame |
| Outcomes.CloneTablesFails | memory/memory.c:391-411 | when its pages cannot be allocated nothing is changed, unless page 0 is present |
| AddressSpaces.CloneTablesSound | memory/memory.c:391-411 | both address spaces are sound, the new pages guarded, and no foreign frame is won, lost or written |
| DeepCopy.CloneUserTable | memory/memory.c:470-504 | permission bits stay the same even when frames run out midway; on success every user page is on a frame that was free |
| DeepCopy.CloneUserReads | memory/memory.c:470-504 | so do the contents seen through every page but those of the page table and of the kernel's variables |
| DeepCopy.SameContents | memory/memory.c:391-504 | parent and child read the same through every page but the child's page table, and the parent reads through every page of data what it read before |
| DeepCopy.Apartness | memory/memory.c:391-504 | no user page of the child is on a frame of the parent, and each one's user frames are foreign to the other |
| Isolation.ParentIsUntouched | memory/memory.c:382-504 | over every later legal run of the child, its writes included, the parent's user pages stay claimed, unmapped in the child, and read the same |
| Isolation.TranslationsStay | memory/memory.c:382-411 | over every later legal run of the child its directory leads to its own table and the parent's to the parent's, page by page |
| Isolation.ChildIsUntouched | memory/memory.c:382-504 | over every later legal run of the parent the child's user pages stay claimed, unmapped in the parent, and as they are |
| Isolation.ChildTranslates | memory/memory.c:382-411 | and the child's directory goes on leading to the child's table, page by page |
| Isolation.Returns | memory/memory.c:386-389 | use_kernel_map after any legal run of the child is back at the parent's table and directory, in step with memory |
| Isolation.ReturnSoundIff | memory/memory.c:386-389 | the parent is sound again iff the frames of the pages they share are still claimed |
| Sharing.ReturnSound | memory/memory.c:321-466 | it is if the child frees and reallocates no page they share, whatever else it does to these |
| Sharing.ReturnUnsound | memory/memory.c:321-325 | after one legal free of such a page the parent maps a frame that is free |
| Sharing.StepTracks | memory/memory.c:173-504 | a page stays on its frame, or leaves it claimed to another address space, under every operation that does not free or reallocate it |
| DeepCopy.TablesStayIff | memory/memory.c:185-193 | the clone's page tables stay where its directory points iff no page they are put in had a left-over user bit |
| UserCopies.CloneUserExact | memory/memory.c:470-504 | succeeds iff as many frames from 0x800 on are free as there are present user pages; the k-th of these gets the k-th lowest free frame, as far as they go, no other entry changes and no other frame is claimed, and a failure leaves none free |
| DeepCopy.DeepCopySucceedsIff | memory/memory.c:391-504 | clone_tables and clone_user_pages together succeed iff before them, beside the 1025 frames of the tables, as many frames are free as there are user pages |
| Boot.ReleaseRegion | memory/memory.c:145-147 | releases exactly the frames of the region's pages, addresses cut to 32 bits, none if the region's end wraps at 64 bits |
| Boot.ScanEndsIff | memory/memory.c:145 | that loop ends iff its 64-bit counter reaches the end without wrapping |
| Boot.ScanMemoryMap | memory/memory.c:138-150 | refines scanning fifteen entries up to the first later one at address 0 |
| Boot.PagingInit | memory/memory.c:91-171 | the bitmap, the page table, and in memory its words and the directory's, that booting leaves |
| Boot.ScanExact | memory/memory.c:138-150 | a frame survives the scan iff no entry of usable memory that is reached releases it |
| Boot.AlignedRegion | memory/memory.c:145-147 | a page-aligned region releases a frame iff it covers the frame's address, or one that differs by a multiple of 4 GiB |
| Boot.RegionBelow4GiB | memory/memory.c:145-147 | a region that ends by 4 GiB releases exactly the frames it covers |
| Boot.BootedFrames | memory/memory.c:134-153 | a frame is free after booting iff it is at least 0x800 and scanned usable memory released it |
| Boot.BootedOwned | memory/memory.c:91-171 | booting establishes ownership iff the boot information is not on a frame that booting frees |
| Boot.BootedWalk | memory/memory.c:91-122 | the two-level walk from the directory ends at the booted table's entry for every page, wherever the boot information is |
| Boot.KernelSeesIff | memory/memory.c:108-130 | the kernel reads that table through 0xC0400000, whatever is in memory, iff the boot information is not mapped over it |
| Boot.BootedSoundIff | memory/memory.c:91-171 | booting is sound iff the boot information keeps off the pages and frames of the table and the image and off freed frames |
| BootMap.BootedMap | memory/memory.c:91-131 | what the two-level walk finds for each of the 2^20 pages after booting, in numbers: which are present, on which frame, with which bits |
| BootMap.BootedTableWord | memory/memory.c:94-112 | every word of the booted page table, in numbers |
| BootMap.BootedRest | memory/memory.c:115-122 | every word of the directory, and no other frame changes |
| BootMap.BootedClones | memory/memory.c:91-504 | with enough usable memory a clone of the booted address space succeeds, at page 0xC0800 |
| Boot.RunFromBoot | memory/memory.c:51-504 | from boot on, over every legal run: ownership, walk and table agree, and memory that is not usable RAM is never handed out, mapped or written |
| VgaDriver.Vga.Init | vga/vga.c:33-46 | blank screen, cursor at the top left, cells in front of the screen untouched |
| VgaDriver.Vga.ScrollUp | vga/vga.c:57-67 | every row moves up by one, the top one in front of the screen, and the last row is blank |
| VgaDriver.Vga.NewLine | vga/vga.c:69-77 | the new cursor and cells, with and without scrolling |
| VgaDriver.Vga.PutCharC | vga/vga.c:111-142 | the new cursor and cells for newline, return, backspace and printable characters, or that a tab or a backspace leads out of the screen |
| VgaDriver.Vga.PutChar | vga/vga.c:79-109 | the same in the screen's colour |
| VgaDriver.Vga.PrintC | vga/vga.c:150-155 | puts the characters before the first NUL in order and in one colour |
| VgaDriver.Vga.Print | vga/vga.c:144-148 | puts the characters before the first NUL in order, all of them if the text is plain |
| Displays.PlainPrints | vga/vga.c:144-148 | printing plain text from the front is adding its last character to the print of the rest |
| Displays.ColorsEndAlike | vga/vga.c:111-155 | the colour makes no difference to where printing ends |
| Displays.PutKeepsBlank | vga/vga.c:79-142 | cells behind the cursor stay blank whatever is printed or taken back |
| Transcript.ChunksAreCuts | vga/vga.c:103-107 | wrapping loses nothing and cuts only full lines of 80 |
| Transcript.LayoutExtend | vga/vga.c:79-109 | one more character extends the layout of the whole text at its end only, wrapping lazily |
| Transcript.NewLineShows | vga/vga.c:57-77 | a newline, scrolling or not, shows the last 25 lines again |
| Transcript.PutShows | vga/vga.c:79-109 | each character keeps the screen showing the last 25 lines, the cursor behind the last character |
| Transcript.PrintShowsLayout | vga/vga.c:33-148 | printing any text on a cleared screen shows the last 25 lines of the text wrapped at 80 |
| Transcript.ShowsInNumbers | vga/vga.h:48-50 | where the screen shows lines, the low byte of each cell is the character, the high byte its colour, and all others are blanks |
| Transcript.BackspaceUndoes | vga/vga.c:90-95 | a character printed and taken back leaves the screen showing what it showed, across a wrap with the cursor in an empty row behind it |
| Transcript.ReturnWritesOver | vga/vga.c:86-89 | after a carriage return the row is written over from its start, and nothing is erased |
| Keyboards.CharsPrint | drivers/keyboard/keyboard.c:62-83 | only the backspace, tab and enter keys have control characters |
| KeyMap.LowerRows | drivers/keyboard/keyboard.c:62-83 | which character each key of the rows puts into the ring without caps lock |
| KeyMap.UpperRows | drivers/keyboard/keyboard.c:75-83 | and with it |
| KeyMap.CapitalsAre32Less | drivers/keyboard/keyboard.c:62-83 | with caps lock the letters are 32 less |
| KeyMap.RowKeyStep | drivers/keyboard/keyboard.c:173-182 | such a key prints the character it pushes, and moves tail on by one slot |
| KeyMap.OtherKeys | drivers/keyboard/keyboard.c:62-83 | three more keys type '*', '-' and '+', and those without a character a code from 223 on |
| KeyMap.IdleKeys | drivers/keyboard/keyboard.c:111-155 | escape, control, left shift, alt, the function keys, releases, and all keys while nobody waits change nothing |
| KeyMap.ControlKeys | drivers/keyboard/keyboard.c:145-171 | caps lock turns over, enter ends the line with a NUL and a new row, backspace does nothing at the stop position |
| KeyMap.BackspaceKey | drivers/keyboard/keyboard.c:162-171 | elsewhere backspace takes back a slot and a cell |
| KeyboardDriver.LineEditor.BufferPush | drivers/keyboard/keyboard.c:16-19 | the new ring and tail; stuck iff tail is negative |
| LineEditing.PopInRing | drivers/keyboard/keyboard.c:21-23 | a pop takes back the last character of the line that the ring holds, unless that is in the ring's last slot |
| KeyboardDriver.LineEditor.Handle | drivers/keyboard/keyboard.c:111-185 | the new keyboard and screen after one key interrupt, or where the code leaves its arrays |
| KeyboardDriver.LineEditor.AwaitEnter | drivers/keyboard/keyboard.c:187-189 | the spin ends with the first enter key, the interrupts before it handled in order |
| KeyboardDriver.LineEditor.CopyOut | drivers/keyboard/keyboard.c:191-198 | copies what the ring held when enter came, whatever interrupts arrive meanwhile |
| KeyboardDriver.LineEditor.WaitKeyboardInput | drivers/keyboard/keyboard.c:187-199 | returns the edited line and a NUL for every deliverable sequence of key interrupts |
| LineEditing.GuardIsExact | drivers/keyboard/keyboard.c:162-171 | while a line has not scrolled the cursor is at the stop position iff nothing is left to take back |
| LineEditing.StepKeepsScreen | drivers/keyboard/keyboard.c:162-183 | cursor position minus stop position stays the length of the line less a row for each scroll, the screen shows the line, across the wrap at column 80, and the cells behind the cursor stay blank |
| LineEditing.StepKeepsRing | drivers/keyboard/keyboard.c:111-185 | the ring keeps holding the line from head to tail, and pops never pass head |
| LineEditing.TypingDelivers | drivers/keyboard/keyboard.c:111-199 | after enter the ring holds the edited text and a NUL, wherever it wraps and however the screen scrolls, if the guard fits at each backspace |
| LineEditing.LineReturned | drivers/keyboard/keyboard.c:187-199 | what is copied out is the edited text and a NUL iff at most 126 characters are left |
| KeyMap.EveryTextCanBeTyped | drivers/keyboard/keyboard.c:187-199 | every text of at most 126 characters from 32 to 126 is returned for some sequence of keys |
| LineEditing.StuckIff | drivers/keyboard/keyboard.c:21-23 | such a line leaves the ring's bounds iff a backspace takes back the character in the ring's last slot |
| LineEditing.RoomSuffices | drivers/keyboard/keyboard.c:162-171 | the guard fits throughout if the line starts before the margin and finds room on the screen |
| LineEditing.GuardRightIff | drivers/keyboard/keyboard.c:162-171 | the guard is right over all typing iff the line does not start behind the last column and 127 cells are left on the screen |
| LineEditing.TerminalGuardRightIff | terminal/terminal.c:5-16 | the same for the row and column where the prompt, printed in its colour on a new row, ends |
| LineEditing.LastRowNeverRight | terminal/terminal.c:5-16 | from the last two rows no prompt leaves the guard right |
| Turns.LineComesBack | terminal/terminal.c:5-16 | a turn of the loop gives back the line that the user edited, and leaves nothing pending, so that the next line starts ready |
| Conversations.TypingShows | drivers/keyboard/keyboard.c:111-185 | while a line is typed and taken back, up to its enter, the screen shows the text before it with the line behind |
| Conversations.TurnShows | terminal/terminal.c:5-16 | after a turn the screen shows what it showed before, then a new line, the prompt in colour 7, the line, a new line and the line again in the screen's colour |
| Terminals.Terminal.Turn | terminal/terminal.c:5-16 | returns the line that the user edited, and the screen shows the dialogue of this turn behind what it showed |
| Terminals.Terminal.Loop | terminal/terminal.c:6-15 | every line of a session comes back, over any number of lines, and the screen shows the whole dialogue in order, its last 25 lines if the lines are just typed |
| Turns.JustTypesSession | terminal/terminal.c:5-16 | lines typed without backspace and tab, of at most 126 characters, always make such a session, wherever ring and screen are |
| Numbers.PowExact | std/math/pow.c:3-6 | pow is exact as long as the power fits 32 bits |
| Numbers.GetDigits | std/string/itoa.c:3-7 | base^(d-1) <= number < base^d |
| Numbers.PlaceFits | std/string/itoa.c:35-45 | none of the powers that itoa divides by wraps around |
| Numbers.DigitStep | std/string/itoa.c:37-45 | each quotient is a digit below the base and what is left prints the rest of the number |
| Numbers.Itoa | std/string/itoa.c:9-48 | writes the number's digits and a NUL, and no other cell |
| Numbers.TopDigit | std/string/itoa.c:37-45 | printing from the top digit down and from the last digit up give the same cells |
| Numbers.RoundTrip | std/string/itoa.c:9-48 | reading the string back in the same base gives the number |
| Numbers.RoundTripIff | std/string/itoa.c:39-43 | that holds for every 32-bit number iff the base is at most 201 |
| Numbers.WrittenInjective | std/string/itoa.c:9-48 | distinct numbers print differently |
| Numbers.NoLeadingZero | std/string/itoa.c:35-47 | exactly get_digits+1 cells are written and the first is not '0', for numbers above 0 |
| Numbers.CellsInNumbers | std/string/itoa.c:35-47 | the cell k in front of the last is the digit of base^k, from 48 on for 0 to 9 and from 65 on above, and the NUL is behind |
| Numbers.EdgesInNumbers | std/string/itoa.c:12-21 | zero is '0' and a NUL in every base from 2 on, and a base below 2 gives the NUL alone |

## Left out

- Runs.RunKeeps: a run that writes, frees, trades or moves pages of page tables, directories or the kernel's image is not covered, since walk and table or bitmap then come apart (PageTables.TableWriteIff, PageTables.FreedTablePage, BitmapPages.BitmapWriteIff); nor is map_paddr, which maps frames a second time.
- AddressSpaces.CloneTablesExact: a clone_tables whose allocation fails while page 0 is present, and which then clears pages from address 0 on, is in PageManagers.PageManager.CloneTables but not in the theorems; Outcomes.CloneTablesFails covers the other failures.
- AddressSpaces.CloneTablesSound: excludes a run of frames that wraps around the end of memory, as frame 0 is released whenever a page that is not present is unmapped.
- Boot.PagingInit: the temporary directory entries and tables that map the new page table before it is filled (memory/memory.c:51-89), and their words in the kernel image, are not modelled; the memory map is a parameter, not read through the boot information.
- Boot.ReleaseRegion: a region whose scan never ends is excluded (Boot.ScanEndsIff says which).
- Boot.ScanMemoryMap: so is a map in which the scan reaches one.
- PageManagers.PageManager.ReallocPage: the page number behind the block is required to have 32 bits, and pointers are page-aligned.
- Reallocation.ReallocPageIff: blocks with pages of page tables or of the kernel's image are excluded, as in Runs.RunKeeps.
- KeyboardDriver.LineEditor.Handle: the two reads of the keyboard port in one interrupt are taken to give the same byte.
- LineEditing.LineReturned: the tab key and more than 127 pending characters are excluded, and lines in which the guard misjudges a backspace (LineEditing.GuardRightIff says when there are any).
- The accessed, dirty and caching bits of page-table entries, and TLB flushes: an entry takes effect once it is written.
- calloc_page, check_user and get_page_permissions, which only wrap or read what is modelled.
- Hardware cursor updates, and vga_printf other than its "%c" path, which is one vga_put_char.
- The heap of std/mem/mem.c, old_memory and old_kmalloc, which do not keep blocks apart or are not built.
- The drivers for PCI, AHCI, ATA and the timer, descriptor tables, interrupt stubs and system calls.
