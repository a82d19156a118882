# WoOS: a verified model

This project models the parts of the WoOS kernel and of its applications whose correctness depends on invariants that span
several functions, and proves those invariants over every input and every run:

* **Memory.** The bitmap allocator of physical pages (`Pmm`), four-level page tables in physical memory (`PageTables`), and the
  address spaces built from the two (`AddressSpaces`, `Vmm`). Memory is a sequence of frames of 512 words. A space is a tree of
  frames; the tree is ghost state, and the code walks and writes raw words. Translation is defined twice: as the processor does it
  (Intel SDM, Volume 3A, section 4.5: 52-bit addresses, large pages) and as the software walk of `vmm_get_phys` does it. `Rights`
  has what a walk permits (section 4.6 there: a right needs its bit in every entry), so that a space is known to show, with the
  rights asked for, exactly what its requests map. `BootMap` has the tables of the boot loader, which map everything by large pages,
  and `Isolation` what user mode can reach outside its own area.
* **Kernel heap.** The first-fit heap as an algorithm on a block list (`HeapBlocks`), and the list nodes as bytes inside the arena
  that hold such a list (`Kheap`).
* **Scheduler and messages.** The thread table with its two switch paths as a state machine over atomic steps (`Scheduler`),
  starting a process over both allocators and ending a thread with its windows (`Processes`), and the message ring with selective
  removal (`Ipc`).
* **Chunked decoding in place** (`Unchunk`), against the chunked coding of section 7.1 of RFC 9112.
* **The text editor.** What every key does to the rows (`EditorText`), its refinement of a flat text with an offset, and the byte
  grid that the program edits in place (`Notepad`).
* **Images.** Fixed-point scaling (`Scaling`), rotation (`Rotation`), and the bitmap encoder and decoder (`Bmp`).
* **Windows.** Stacking order, focus and identifiers (`WindowOrder`), the array of slots edited in place (`Windows`), and runs in
  which the counter of identifiers comes round (`WindowWrap`).

`Words`, `Bytes`, `Raster` and `Options` hold the shared vocabulary. Classes keep the fields of the C program and their methods the
loops; each method is tied to a function on values, and the properties are proved about that function, most of them in terms that
do not mention how it computes: by bytes, by bits, by the effect on each thread, window, block or pixel.

## Where the code does less than its callers may expect

These are proved, with the exact condition where there is one.

* `vmm_map_page` masks the physical address with `~0xFFF`, and or-s the flags into the entry. `vmm_get_phys` returns the mapped
  page exactly when every flag at bit 12 or above is already a bit of the page number (`Vmm.LeafAddressExact`). With NX the
  processor sees the right page, while `vmm_get_phys` does not (`Vmm.NxLeaks`).
* `pmm_init` counts a page once for each usable region that lists it: `free_pages` is the size of the free set exactly when no
  unreserved page lies in two of them (`Pmm.CountExactness`). `Pmm.ListedTwice` is a map that is counted wrongly, and
  `Pmm.LowMemoryTwice` one whose regions overlap without harm. No later call changes the surplus.
* `pmm_init` computes the end of a region in 64 bits. A region that reaches 2^64 lists nothing, unless it starts in the last page:
  then its start wraps as well, and it lists the pages below its wrapped end (`Pmm.ListsExact`).
* A new space has a pointer of its own for the first 512 GiB, writable and for user mode. Outside the user area it gives every right
  that the kernel's tables give, and may give one that only the kernel's first pointer withholds, but none that the kernel's entry
  for the page withholds (`Vmm.CreatedRights`).
* `vmm_map_page` does not look at the PS bit. The boot loader maps the first 4 GiB by 2-MiB pages, so mapping a kernel address there
  writes the entry into the first frame of the large page around it (`BootMap.BootMapHit`). If that frame holds no table, no address
  of any space translates differently (`BootMap.BehindLargePage`). If it holds the root of a space, as the frame at 0x0A000000 can,
  that space gets entries that nobody asked for (`BootMap.TableHit`).
* `pmm_free_pages_multi` does not look at the reserved pages: it keeps them out of the free set exactly if the range has none
  (`Pmm.PageAllocator.FreePagesMulti`).
* `process_create` ignores the results of `vmm_map_page`. A process still starts only with both its pages mapped. When it fails after
  the address space has been created it loses frames, and only then (`Processes.CreateProcess`).
* `kheap_alloc` rounds in 64 bits. The block has room for the request exactly when `size + 15` does not wrap
  (`HeapBlocks.AllocSuits`). A wrapped request keeps the heap's invariant exactly when there is no free block or the first one is too
  small to be split (`HeapBlocks.RequestExact`, and over runs `HeapBlocks.RunWellFormed`).
* `kheap_realloc` copies the whole old payload. After a wrapped request the copy runs past the new block exactly when a free block
  exists that is split or smaller than what is copied (`HeapBlocks.OverrunExact`); it then replaces the header of the next node
  (`HeapBlocks.OverrunExample`, `Kheap.OverrunBreaksList`).
* The fallback of `schedule_interrupt` marks the current thread running whatever its state: a blocked or terminated thread comes
  back to life exactly when nothing is ready (`Scheduler.FallbackRevives`). It cannot happen while thread 0 neither blocks nor exits
  (`Scheduler.TimerFindsThread`).
* The editor has the effect of the flat edit exactly where its caps leave room, which is exactly where the edited text fits the
  caps (`EditorText.ExactlyWithRoom`). At the caps Enter loses text
  (`EditorText.DocumentOverrun`) and typing moves the cursor past the end of the row (`EditorText.RowOverrun`).
* The comment at apps/notepad.c:562 lets ASCII 127 delete; the code looks at the scan code only, and the model follows the code.
* When a file cannot be opened the editor keeps the cursor of the text before: it is in its row exactly if it was at the start
  (`EditorText.FailedOpen`).
* The bitmap decoder refuses what the encoder writes exactly beyond 4096 by 4096 (`Bmp.RoundTrip`).
* The bitmap decoder checks the end of each row as it goes, in 32-bit arithmetic, and leaves the rows that it does not read as the
  memory of the pixels happened to be. The picture is a function of the file exactly when all rows fit behind the offset
  (`Bmp.DecidedExact`), which a caller can check before the call. Two files that fail: one cut behind its header shows the old
  contents of memory (`Bmp.CutFile`), and one of 58 bytes has its one pixel read from past its end (`Bmp.SampleReadsOutside`). A row
  that passes the check is in the file exactly when its end is below 4 GiB (`Bmp.PassingRow`); `Bmp.GuardExact` says for which files
  this holds of every row that is read, so that no byte outside the file matters (`Bmp.OutsideIgnored`, `Bmp.OutsideSeen`).
* Destroying the focused window leaves a visible window without focus exactly when a minimized window is then on top
  (`WindowOrder.DestroyedAttended`); `WindowOrder.FocusIsLost` is such a run from the start.
* The counter of window identifiers wraps. Identifiers stay distinct along a run exactly if no window is opened while another one has
  the identifier that the counter shows (`WindowOrder.RunInv`), and a thread's windows can all be destroyed exactly if none has the
  identifier zero (`WindowOrder.AllDestroyed`). `WindowWrap.ClashRun` and `WindowWrap.ZeroRun` are runs from the start in which each
  of the two fails; before the counter wraps neither does (`WindowOrder.RunEarly`).

## Model

| member | source | states |
|---|---|---|
| Pmm.SetBit | pmm.c:20-22 | setting a bit of the byte map removes that one page from the free set, and no other |
| Pmm.ClearBit | pmm.c:24-26 | clearing a bit adds that one page, and no other |
| Pmm.PageAllocator.BitmapSet | pmm.c:20-22 | the free set loses exactly the page |
| Pmm.PageAllocator.BitmapClear | pmm.c:24-26 | the free set gains exactly the page |
| Pmm.PageAllocator.BitmapTest | pmm.c:28-30 | the test says whether the page is outside the free set |
| Pmm.CountExactness | pmm.c:102-132 | the counter never undercounts the usable unreserved pages, and is exact if and only if no page is listed twice |
| Pmm.ListedTwice | pmm.c:102-132 | one page in two usable regions is counted twice |
| Pmm.LowMemoryTwice | pmm.c:102-132 | regions that overlap in reserved pages only leave the counter exact |
| Pmm.UsableMember | pmm.c:102-132 | a page is usable after boot exactly if some usable region holds it whole and it is not reserved |
| Pmm.UsableUnreserved | pmm.c:44-73 | no page for which the test for reserved pages holds is usable; what the test amounts to in bytes is `Pmm.ReservedBytes` |
| Pmm.ReservedBytes | pmm.c:44-73 | the test holds of a page exactly if one of its bytes is in the first MiB, the kernel image, 0x01000000 to 0x02000000 or the arena of `kheap.c`, for a kernel that is not empty and ends before the last page |
| Pmm.ListsExact | pmm.c:110-123 | a region lists a page exactly if it holds all its bytes, with the exact exception of regions whose end wraps |
| Pmm.UsableBytes | pmm.c:102-132 | so a page is usable exactly if a region holds it whole and none of its bytes is needed elsewhere |
| Pmm.RunClear | pmm.c:67-70 | a run of unreserved pages lies wholly below or wholly above the heap |
| Pmm.PageAllocator.Init | pmm.c:75-137 | after boot a page is free exactly if some usable region holds it whole and none of its 4096 bytes is in the first MiB, the kernel image, one of the two screen buffers or the arena of the heap; ready says that some page is free, and the total counts the pages that the regions list; the early return leaves nothing free |
| Pmm.PageAllocator.InitRegion | pmm.c:110-131 | one region adds its unreserved pages to the free set and their number to the counter |
| Pmm.PageAllocator.AllocPage | pmm.c:139-165 | fails exactly when no page is free, wherever the search starts; takes the first free page from there on, wrapping around, and no other, and the next search starts there; the page is no part of the heap |
| Pmm.PageAllocator.FreePage | pmm.c:167-189 | gives back exactly an aligned, unreserved page in range, and ignores every other address and a page that is free already; the search starts there next if it stood above |
| Pmm.PageAllocator.AllocPagesMulti | pmm.c:191-218 | returns the lowest run of free pages of the length and takes exactly these; fails exactly when no such run exists; the run lies on one side of the heap |
| Pmm.PageAllocator.FreePagesMulti | pmm.c:220-233 | gives back exactly the pages of the range that the bitmap covers; the free set stays without reserved pages if and only if the range has none |
| Pmm.RunFits | pmm.c:191-218 | a run has its length in pages, so a counter below the length rules a run out |
| PageTables.SamePageIndices | vmm.c:90-93 | two addresses have the same four indices exactly if bits 47:12 agree |
| PageTables.UserArea | vmm.c:47-56 | the entries that a space has for itself are those of [4 GiB, 512 GiB) in 48-bit addresses |
| PageTables.HwStep | vmm.c:95-132 | inside a tree one step of the processor's walk leads to the child table, or ends, exactly as the tree says |
| PageTables.KeptTranslation | vmm.c:95-131 | writes that keep a pointer, set its user bit or hang a zeroed table into an empty entry change no translation |
| PageTables.SetUserStep | vmm.c:101-105 | setting the user bit of a pointer keeps the tree and every translation |
| PageTables.LinkStep | vmm.c:96-100 | hanging a zeroed table into an absent entry keeps the tree and every translation |
| PageTables.LeafStep | vmm.c:134-135 | writing a page-table entry changes the translation of that page only, to what the entry says |
| PageTables.FrameTree | vmm.c:87-141 | writes outside a tree change neither the tree nor its translations |
| Rights.GrantedStep | vmm.c:95-135 | inside a tree a right needs its bit in the entry and then in the child table |
| Rights.PathGranted | vmm.c:95-135 | a right for a page needs its bit in the page-table entry and in each of the three pointers |
| Rights.RightsAfter | vmm.c:95-135 | where a walk leaves each entry, sets its user bit or adds a pointer, every other page keeps the rights of its own entry, may be written exactly as before and keeps user access; user access is new only if the request is for user mode and the page's own entry permits it |
| Rights.MappedRights | vmm.c:100-135 | the mapped page has user access exactly if the flags have the bit, and may be written exactly if they have the bit and every pointer that was there permits it |
| Rights.OpenKept | vmm.c:96-105 | a space in which every pointer permits writing stays one |
| Rights.RightsUntouched | vmm.c:87-141 | tables that hold what they held grant what they granted |
| Vmm.LeafAddressExact | vmm.c:135 | the address read back from an entry is the page address if and only if no flag at or above bit 12 adds a bit to it |
| Vmm.LeafHwAddress | vmm.c:135 | the processor's address is right whenever the flags have no bit in 51:12 |
| Vmm.LeafFlags | vmm.c:135 | bits 1 to 11 of the entry are those of the flags, and bit 0 is set |
| Vmm.TableEntryBits | vmm.c:96-100 | a pointer to a new table is present and writable, has the user bit of the request, and no other bit below the address |
| Vmm.NxLeaks | vmm.c:190 | with NX the processor's address is right and the one read back is wrong, for every page |
| Vmm.SoftwareWalkAgrees | vmm.c:172-191 | off large pages the software walk finds a page exactly when the processor does, and the addresses agree in bits 51:0 |
| Vmm.MemoryManager.constructor | vmm.c:16-19 | the ownership invariant holds once the boot tables are taken over |
| Vmm.MemoryManager.EnsureTable | vmm.c:95-119 | one level of the map walk finds or adds a table without any visible change of a translation, and fails only when no frame is left; other entries stay as they are, and the pointer is for user mode if the request is |
| Vmm.MemoryManager.MapIn | vmm.c:87-141 | succeeds if and only if the missing tables are no more than the free frames; then writes the entry and redirects exactly the one page; failure changes no translation, whatever tables were added; each frame added leaves the free set; bits 1 to 11 of the entry are those of the flags; the page has user access exactly if asked, and may be written exactly if asked and every pointer that was there permits it; every other page-table entry is as it was, and every other pointer keeps all but its user bit |
| Vmm.MemoryManager.MapPresent | vmm.c:87-141 | where every entry on the way is present the walk marks them and writes one word, also when one of them is a large page |
| Vmm.MemoryManager.UnmapIn | vmm.c:143-165 | succeeds exactly if the page translates; then that page alone stops translating, otherwise memory is as before; all other entries and rights stay |
| Vmm.MemoryManager.ReadPhys | vmm.c:172-191 | returns the result of the software walk, zero for an absent entry |
| Vmm.ReadsBack | vmm.c:172-191 | where a walk reaches a present leaf entry the result is its address field and the page offset |
| Vmm.MemoryManager.MapUser | vmm.c:87-141 | in a created space the page reads back, every other address of every space and of the kernel translates as before, and the ownership invariant is kept; succeeds if and only if the missing tables are no more than the free frames; user access to the page and writing it are exactly as the flags say, as far as the pointers that were there permit writing; other pages keep their own entries and their rights, other spaces and the kernel all theirs |
| Vmm.MemoryManager.UnmapUser | vmm.c:143-165 | the same for unmapping, which takes rights from no other page; no table is freed |
| Vmm.MemoryManager.MapKernel | vmm.c:88 | mapping in the kernel's tables leaves the user area of every space alone; succeeds if and only if the missing tables are no more than the free frames; the bits and the rights of the page are as for `MapIn` |
| Vmm.MemoryManager.UnmapKernel | vmm.c:143-165 | unmapping there takes away that page only, and leaves the user area of every space and all other rights alone |
| Vmm.MemoryManager.CreateAddressSpace | vmm.c:21-58 | the new space translates as the kernel outside [4 GiB, 512 GiB) and maps nothing inside; its pointers permit writing; outside it gives the rights that the kernel's tables give and none that the kernel's entry for the page withholds; its frames come from the free set; it fails exactly with fewer than two free frames, and then the free set, the spaces and every translation are as before, while the position of the search and the contents of one free frame may change |
| Vmm.CreatedRights | vmm.c:31-57 | a new space gives no right inside its user area; outside it gives every right that the kernel's tables give and none that the kernel's entry for the page withholds |
| Vmm.MemoryManager.DestroyAddressSpace | vmm.c:60-85 | frees exactly the tables of the space, never a mapped frame or a kernel table; ignores null and the kernel's root |
| Vmm.EffectShows | vmm.c:87-165 | a space that shows its requests still does after one more, successful or not |
| Vmm.MemoryManager.ApplyAll | vmm.c:87-165 | after any requests an empty space shows at every address of the user area what the last successful request for its page asks for: the page with exactly its user and write bits, or nothing |
| Vmm.MemoryManager.Populate | vmm.c:21-165 | so a space created and filled by any requests is a function of the requests inside the user area and of the kernel outside |
| Vmm.ShownAddress | vmm.c:134-135 | where a mapping without flags in bits 51:12 is shown the processor finds bits 51:12 of its physical address and the offset |
| Vmm.MemoryManager.Lifetime | vmm.c:21-165 | create, any maps and unmaps, destroy: free set, counter, kernel and other spaces are exactly as before |
| Vmm.MemoryManager.Run | vmm.c:21-165 | over every run of create, map, unmap and destroy, in spaces and with a null space, each table frame has one owner, none is free, and free frames and tables together stay the same set; the kernel sees a change only at pages that a request with a null space is for; the user areas of the spaces that were there before stay as they were |
| BootMap.BootKernel | stage2.asm:167-205 | the tables of the boot loader satisfy the ownership invariant, whatever the rest of memory holds |
| BootMap.BootIdentity | stage2.asm:167-205 | they map every address below 4 GiB to itself |
| BootMap.LargePageHit | vmm.c:87-141 | mapping behind a 2-MiB page writes into its first frame, and the address itself translates as before; `vmm_get_phys` reads the same word |
| BootMap.BootMapHit | vmm.c:87-141 | so it does for any kernel address below 4 GiB in the boot tables, which stays mapped to itself |
| BootMap.BehindLargePage | vmm.c:87-141 | if the frame that is written holds no table of the kernel or of a space, the ownership invariant and every translation of the kernel and of all spaces stay as they were |
| BootMap.MapBehind | vmm.c:87-141 | the call as a whole has that effect, and the entry is in the frame |
| BootMap.UnmapBehind | vmm.c:143-165 | so has unmapping there, which clears one word of the page if it is odd |
| BootMap.TableHit | vmm.c:87-141 | if the frame is the root of a space, an address that the space did not translate afterwards leads into the kernel's tables, and the ownership invariant is lost |
| Isolation.OutOfReach | vmm.c:31-52 | outside the user area a space never grants what the kernel's own entry for the page withholds, off 1-GiB pages of the space |
| Isolation.BootForbids | stage2.asm:167-205 | no page of the boot tables is for user mode |
| Isolation.KernelOutOfReach | vmm.c:31-52 | so over the boot tables user mode reaches nothing outside the user area of its space |
| AddressSpaces.UserOperation | vmm.c:87-141 | a change confined to one space keeps the ownership invariant and changes no translation of any other space or of the kernel |
| AddressSpaces.KernelOperation | vmm.c:87-141 | a change confined to the kernel's tables keeps the invariant and the user area of every space |
| AddressSpaces.CreateOperation | vmm.c:21-58 | creation keeps the invariant and every existing translation |
| AddressSpaces.CreatedTranslations | vmm.c:31-57 | the created space agrees with the kernel outside the user area and is empty inside |
| AddressSpaces.SharedWithKernel | vmm.c:31-52 | what the kernel maps later below a shared table is seen in the space |
| AddressSpaces.DestroyOperation | vmm.c:60-85 | returning the tables of a space keeps the invariant of all others |
| AddressSpaces.TablesClear | pmm.c:67-70 | no table of a space is in the heap, in the first MiB or in a screen buffer |
| HeapBlocks.AllocTiles | kheap.c:53-82 | allocation keeps the blocks tiling the arena, for any request, wrapped or not |
| HeapBlocks.AllocWellFormed | kheap.c:44-86 | allocation keeps sizes of at least 48 and multiples of 16, and no two free neighbours |
| HeapBlocks.CoalesceResult | kheap.c:88-101 | coalescing keeps the tiling and leaves no two free neighbours |
| HeapBlocks.FreeWellFormed | kheap.c:103-126 | release keeps the invariant, for any pointer |
| HeapBlocks.AllocFreeRestores | kheap.c:44-126 | freeing the pointer just returned restores the exact previous block list |
| HeapBlocks.FreeUsed | kheap.c:103-126 | a release leaves exactly the other blocks in use, each where it was |
| HeapBlocks.FreeExact | kheap.c:88-126 | the list after a release is the only well-formed one with those blocks in use: the block merges with free ones before and behind it |
| HeapBlocks.UsedDecide | kheap.c:88-101 | a well-formed list is decided by its blocks in use |
| HeapBlocks.AllFreed | kheap.c:103-126 | a heap with nothing in use is one free block of the whole arena |
| HeapBlocks.NeedCovers | kheap.c:20-22 | rounding covers the request if and only if `size + 15` does not wrap |
| HeapBlocks.AllocSuits | kheap.c:50-82 | the block has room for the request if and only if the rounding does not wrap, and then wastes at most 47 bytes |
| HeapBlocks.AllocPtrExact | kheap.c:53-82 | the pointer is null exactly if no free block has room for a header and the rounded request, and else the payload of the lowest block that has |
| HeapBlocks.RequestExact | kheap.c:50-82 | a request keeps the invariant if and only if its rounding does not wrap, or no block is free, or the first free one is too small to be split |
| HeapBlocks.OverrunExact | kheap.c:136-150 | the copy of a reallocation runs past the new block if and only if the rounding wraps and a free block exists that is split or smaller than the old payload |
| HeapBlocks.OverrunExample | kheap.c:136-150 | growing a block of 32 bytes on a nearly fresh heap does so for every size that wraps |
| HeapBlocks.CoalesceUsed | kheap.c:88-101 | coalescing keeps every block in use and their payload sum |
| HeapBlocks.StepWellFormed | kheap.c:44-154 | each of alloc, free and realloc keeps the invariant if and only if its request does not wrap or the first free block cannot be split |
| HeapBlocks.RunWellFormed | kheap.c:36-154 | a run keeps the invariant throughout if and only if no request wraps where the first free block can be split; a run that leaves nothing in use then leaves the fresh heap |
| Kheap.Heap.Init | kheap.c:36-42 | the arena holds one free block |
| Kheap.Heap.Alloc | kheap.c:44-86 | the bytes hold the list after first fit; the pointer is that of the lowest block that fits, null exactly when none does and then nothing changes; no byte of a block in use changes |
| Kheap.Heap.CoalesceFreeBlocks | kheap.c:88-101 | the merging loop terminates and computes exactly the coalesced list |
| Kheap.Heap.Free | kheap.c:103-126 | releases exactly the block of the pointer, ignores others, and changes no byte of the blocks that stay in use |
| Kheap.Heap.Realloc | kheap.c:130-154 | returns the pointer itself exactly if the old payload suffices; otherwise the payload of the lowest block that fits, with the whole old payload in it, or null exactly when none fits, and then nothing changes; a null pointer is a new request, and the size zero a release that returns null; other blocks keep their bytes |
| Kheap.OverrunBreaksList | kheap.c:150 | in that example the copy destroys the list unless the bytes copied happen to be the header that they replace |
| Kheap.Heap.MemCopy | lib.c:5-12 | copies the stretch and changes nothing else |
| Scheduler.ThreadTable.constructor | sched.c:26-48 | the initial table satisfies the invariant |
| Scheduler.ThreadTable.ScheduleInterrupt | sched.c:130-201 | table and returned stack pointer are those of the round-robin step |
| Scheduler.ThreadTable.FindReady | sched.c:172-178 | the search ends at the first ready slot around the table, and at a slot that is not ready only if there is none |
| Scheduler.ThreadTable.ScheduleIrq | sched.c:203-258 | table and returned stack pointer are those of the priority step |
| Scheduler.ThreadTable.CreateThread | sched.c:50-126 | the first terminated slot after slot 0 is refilled, or a new one used; a failed stack allocation adds no thread; the address space and the stack that are given back are those of the old slot |
| Processes.CreateThread | sched.c:50-88 | over both allocators: the tables and the stack of the last thread become free, no other space changes, and a stack is missing exactly if the frames that are then free hold no run of 128 |
| Scheduler.NothingLost | sched.c:67-88 | refilling a slot gives back its address space unless it is the kernel's, and gives back its stack or keeps it, never both and never neither |
| Scheduler.ThreadTable.CreateProcess | sched.c:336-363 | a process takes a new slot at the end, or nothing changes; see `Scheduler.ProcessEffect` for its thread |
| Scheduler.CreateEffect | sched.c:50-126 | the new thread is ready, under its slot's number and the kernel's tables, on 128 pages that were the slot's or are new, with 160 bytes of context at their very end; every other slot is as before; without a stack the old thread stays as it was |
| Scheduler.ProcessEffect | sched.c:336-363 | the same for a process, on its own tables, behind the other slots, if there is room and nothing failed; otherwise nothing changes |
| Processes.CreateProcess | sched.c:279-364 | a process starts only with program and stack mapped at their addresses, both open to user mode for reading and writing, nothing else in its user area and the kernel's view outside; every frame taken is a table, one of its pages or its kernel stack; no other space changes; a failure adds no thread and loses frames exactly if the address space could be created |
| Processes.AddPage | sched.c:293-325 | a page is allocated, filled and mapped for user mode, if frames for the missing tables are left; if it is not mapped no frame is left; the pages that user mode could use stay so |
| Processes.StackNeedsNoTable | sched.c:315-325 | once the program is mapped, mapping the stack needs no further table, so it cannot fail |
| Processes.ExitThread | sched.c:266-273 | the thread's windows are destroyed, all of them if and only if none has the identifier zero; then it is terminated, every blocked thread is ready with all else kept, and the others are as before |
| Scheduler.ThreadTable.Exit | sched.c:269-271 | the current thread is terminated; every other blocked thread of the table becomes ready, and every other thread and slot stays as it was |
| Scheduler.ThreadTable.BlockCurrent | sched.c:512-515 | the current thread is blocked, and no other changes |
| Scheduler.ThreadTable.UnblockAll | sched.c:519-527 | each blocked thread of the table becomes ready with all other fields kept, and every other thread and slot is as before |
| Scheduler.WakesAll | sched.c:519-527 | a wake-up makes each blocked thread ready, changes nothing else, and leaves no thread blocked |
| Scheduler.ExitEffect | sched.c:269-271 | after an exit the current thread is terminated and no thread is blocked |
| Scheduler.NextReadyFirst | sched.c:172-178 | no ready slot is passed over by the round robin |
| Scheduler.BestIsBest | sched.c:223-235 | the priority scan finds a ready slot of the highest priority |
| Scheduler.IrqChoice | sched.c:211-239 | an interrupt continues with thread 1 if it can run; else with the current thread if that runs and is not thread 0; else with the lowest ready thread; with thread 0 only if no other is ready |
| Scheduler.SwitchEffect | sched.c:157-200 | a switch stores the stack pointer of the interrupted thread, which is ready if it ran, makes the other one running, and leaves every other field and thread alone |
| Scheduler.StepInv | sched.c:50-277 | each step keeps: only the current thread may be running, thread 0 is ready or running, a thread's identifier is its slot, page tables and kernel stack are the current thread's |
| Scheduler.TimerFindsThread | sched.c:172-184 | while thread 0 never blocks or exits the fallback is out of reach |
| Scheduler.FallbackRevives | sched.c:180-184 | the fallback revives a blocked or terminated thread if and only if nothing is ready |
| Scheduler.IrqPriority | sched.c:203-258 | after an interrupt no ready thread outranks the one that continues |
| Scheduler.SwitchesToReady | sched.c:130-258 | only the two switch paths change the current thread, and they go to a thread that was ready |
| Scheduler.TerminatedStays | sched.c:50-57 | a terminated slot changes only when it is refilled |
| Scheduler.RunSafety | sched.c:50-277 | over every run the invariant holds, and a terminated slot is not resumed before it is refilled |
| Scheduler.RunContexts | sched.c:130-258 | over every run each switch resumes a thread with exactly the stack pointer last saved for it, or with the end of its new stack less 160 bytes |
| Scheduler.TimerProgress | sched.c:166-200 | a tick resumes a ready thread, the current one included, or brings the current slot strictly closer to it |
| Scheduler.BoundedWaiting | sched.c:166-200 | with a fixed number of slots a ready thread is resumed within as many ticks as its distance, hence within n; so is the current thread when it has been woken up on its way to yield |
| Scheduler.WokenResumed | sched.c:519-527 | a thread blocked before a wake-up or an exit of another is resumed within n ticks after it |
| Scheduler.BlockedWaits | sched.c:512-515 | over every run without a wake-up a blocked thread stays blocked and is not resumed |
| Ipc.Ring.Send | sched.c:375-400 | appends the message, or refuses without change exactly when 31 wait, for any tail |
| Ipc.Ring.Recv | sched.c:402-433 | removes the oldest message for the caller and keeps the order of all others; the tail never moves |
| Ipc.Ring.Pending | sched.c:529-542 | 1 exactly when a receive would return a message |
| Ipc.StepDelivery | sched.c:375-433 | one step delivers or accepts at most one message per receiver and loses none |
| Ipc.Delivery | sched.c:375-433 | over every run each receiver gets its accepted messages exactly once and in order |
| Ipc.Capacity | sched.c:378-383 | never more than 31 messages wait |
| Unchunk.Accumulator | net.c:736-748 | the 32-bit accumulator is the written number modulo 2^32 |
| Unchunk.DecodeChunk | net.c:730-773 | a chunk followed by anything decodes to its data followed by the rest's |
| Unchunk.DecodeEncode | net.c:724-777 | for every list of chunks, hex case, leading zeros and extensions, the decoded message is the concatenated data |
| Unchunk.HexDigits | net.c:739-747 | the digits are those of hexadecimal notation in either case, with their values |
| Unchunk.BlanksSkipped | net.c:731-733 | blanks before a size make no difference |
| Unchunk.AfterSize | net.c:753-772 | after any size line, also of a size beyond 32 bits, come as many bytes as the size says modulo 2^32, and then the next chunk |
| Unchunk.NoSize | net.c:750 | where no size can be read the decoder stops |
| Unchunk.Truncated | net.c:724-777 | any truncation of a well-formed message decodes to a prefix of the data |
| Unchunk.MemMove | lib.c:41-50 | the overlapping move in either direction equals a copy of the old bytes |
| Unchunk.ReadHeader | net.c:731-757 | blanks, size and rest of the line are read as the decoder says |
| Unchunk.MoveChunk | net.c:759-772 | the write position stays behind the read position, and what remains to be read is intact |
| Unchunk.HttpUnchunk | net.c:724-777 | for any bytes the buffer starts with the decoded data and a zero inside the input, and nothing behind the input is touched |
| EditorText.PrintableKeys | apps/notepad.c:537-664 | a printable character types itself exactly off the control scan codes, and `s` also off its own |
| EditorText.WideKeys | apps/notepad.c:667-675 | a Cyrillic letter is typed as the two bytes of its code point in UTF-8 (section 3 of RFC 3629), exactly off the control scan codes |
| EditorText.CursorKeys | apps/notepad.c:605-661 | each scan code of the cursor keys moves the cursor to the row and column that it stands for |
| EditorText.EditKeys | apps/notepad.c:537-603 | which characters and scan codes save, end a line, delete forwards and delete backwards |
| EditorText.KeysAreText | apps/notepad.c:663-675 | no keystroke types a line feed as a character, so rows and lines stay the same thing |
| EditorText.KeyRefines | apps/notepad.c:547-675 | with room every key, paging included, has the effect of the matching edit on the rows joined by line feeds |
| EditorText.CharRefines | apps/notepad.c:83-97 | typing a byte inserts it at the offset |
| EditorText.EnterRefines | apps/notepad.c:547-560 | Enter inserts a line feed at the offset |
| EditorText.BackspaceRefines | apps/notepad.c:579-603 | Backspace removes one byte, two at a continuation byte, or the line feed before the line |
| EditorText.DeleteRefines | apps/notepad.c:562-577 | Delete removes the byte at the offset, a line feed included |
| EditorText.VerticalRefines | apps/notepad.c:605-661 | Up, Down and the page keys keep the column within the target line, as lines of the flat text are counted |
| EditorText.StepInv | apps/notepad.c:547-675 | rows stay within the caps and free of line feeds whatever is typed, and with room the cursor stays inside its row |
| EditorText.ExactlyWithRoom | apps/notepad.c:83-128 | the flat effect happens if and only if the caps leave room, and that if and only if the edited text fits the caps |
| EditorText.RowOverrun | apps/notepad.c:663-675 | in a full row a character is refused and the cursor leaves the row |
| EditorText.DocumentOverrun | apps/notepad.c:547-560 | in a full document Enter loses what is behind the cursor |
| EditorText.CapsExact | apps/notepad.c:83-128 | a row takes up to 254 bytes, the document up to 999 rows |
| EditorText.RunRefines | apps/notepad.c:528-676 | any sequence of keys leaves exactly the lines that the flat edits leave, as long as the texts fit |
| EditorText.SplitText | apps/notepad.c:236-241 | joining rows by line feeds loses nothing |
| EditorText.LoadInv | apps/notepad.c:144-213 | loading any file yields a document with the invariant |
| EditorText.LoadExact | apps/notepad.c:144-213 | for every file the rows are the first 999 of its lines, without carriage returns, with bytes below 32 but tabs as dots and bytes above 126 as question marks, broken after every 72 bytes, an empty last one left out |
| EditorText.LoadSaved | apps/notepad.c:144-247 | saving and loading gives back every document of rows below 72 printable bytes |
| Notepad.Editor.RowInsertChar | apps/notepad.c:83-97 | the shifting loop inserts the byte in the one row, keeps every other row, or refuses a full row |
| Notepad.Editor.RowDeleteChar | apps/notepad.c:99-110 | the shifting loop removes the one byte |
| Notepad.Editor.InsertRowAt | apps/notepad.c:112-128 | rows from the position on move up and the new row holds the given bytes; refused at the cap |
| Notepad.Editor.DeleteRowAt | apps/notepad.c:130-142 | the row disappears, the last one becoming empty instead |
| Notepad.Editor.HandleKey | apps/notepad.c:528-676 | the byte grid after a key holds the rows and the cursor of the step |
| Notepad.Editor.SaveFile | apps/notepad.c:235-241 | the bytes written are the rows with a line feed after each |
| Notepad.Editor.LoadFile | apps/notepad.c:144-213 | reading in portions of any length, whatever they cut apart, leaves what loading the bytes up to the first empty read makes of them, with the cursor at the start; without a file there is one empty row and the cursor stays |
| Notepad.WholeFile | apps/notepad.c:164-167 | reads that never come back empty give the whole file |
| EditorText.FailedOpen | apps/notepad.c:150-155 | after a failed open the cursor is in its row if and only if it was at the start |
| Notepad.Editor.NewFile | apps/notepad.c:217-226 | the grid holds one empty row |
| Scaling.ExtentFits | apps/image.h:77-78 | the shifted extent fits an `int` if and only if the side is at most 32768 |
| Scaling.InRange | apps/image.h:80-96 | every source position is in range, and a missing neighbour always has weight zero |
| Scaling.Accuracy | apps/image.h:77-87 | the source position of each target pixel is in range and lags behind the exact one by less than one 65536th of a pixel per column |
| Scaling.MixBetween | apps/image.h:98-106 | one fixed-point interpolation stays between its values and inside 32 bits |
| Scaling.BilinearBetween | apps/image.h:80-108 | every channel of every scaled pixel lies between the extremes of its four clamped neighbours |
| Scaling.BlendRounds | apps/image.h:98-106 | every channel is at most the weighted mean of the four neighbours, and less than 2 below it |
| Scaling.BlendIgnores | apps/image.h:93-96 | the pixel put in place of a missing neighbour has no influence |
| Scaling.PlainStaysPlain | apps/image.h:65-109 | an image of one colour keeps it at every size |
| Scaling.NearestInRange | apps/image.h:53-60 | the nearest source index is in range, so the clamp is never needed |
| Scaling.NearestIndex | apps/image.h:53-60 | the nearest source index is the one in which the target index falls |
| Scaling.ScaledPixel | apps/image.h:50-109 | each pixel of the scaled image is the same pixel at the same size; the source pixel under it for sides below 32 and reductions by 3 or more; else the rounded mean of its four neighbours at its place |
| Scaling.ScaleNearest | apps/image.h:50-63 | every target pixel is the nearest source pixel; bad sizes change nothing |
| Scaling.ScaleBilinear | apps/image.h:65-109 | each target pixel is the copy, the source pixel under it or the rounded weighted mean of its four neighbours, as the sizes select, with every product of the path inside an `int` |
| Scaling.ComputableExact | apps/image.h:50-109 | every product of the path taken is an `int` if and only if the largest one on each axis is |
| Rotation.RotatedAt | apps/image.h:296-303 | the pixel at a position comes from the position one quarter turn back |
| Rotation.FourTurns | apps/image.h:292-305 | four rotations of any image are the identity |
| Rotation.Rotate90Cw | apps/image.h:292-305 | the loops produce the rotated image, every pixel written; null exactly for bad sizes or without memory |
| Bmp.RoundTrip | apps/image.h:308-431 | decoding an encoded image gives back size and pixels, made opaque if none had alpha, exactly up to 4096 by 4096, whatever the memory held before and whatever lies around the file |
| Bmp.DecodesLaidOut | apps/image.h:329-384 | a file whose raster is laid out as the format says, of 24 or of 32 bits, from the top or from the bottom, decodes to exactly that picture, whatever the memory held before and whatever lies around the file |
| Bmp.HeaderExact | apps/image.h:310-327 | a header is accepted exactly for uncompressed pictures of 24 or 32 bits up to 4096 by 4096, with a negative height for rows from the top |
| Bmp.UnreadFields | apps/image.h:387-431 | the header fields that the decoder does not read have the values of the format |
| Bmp.EncodedFormat | apps/image.h:312-333 | the decoder accepts an encoded header exactly up to 4096 by 4096, as a top-down 32-bit picture |
| Bmp.PassingRow | apps/image.h:337 | a row that passes the wrapped check is in the file if and only if its end is below 4 GiB |
| Bmp.GuardExact | apps/image.h:335-337 | every row that is read is in the file if and only if the end of the first row, and of the first row that does not fit, do not wrap into it |
| Bmp.DecidedExact | apps/image.h:335-384 | the picture depends neither on what lies around the file nor on what the memory of the pixels held, if and only if the header is refused or all rows fit behind the offset |
| Bmp.CoversExact | apps/image.h:335-337 | all rows are read, each from inside the file, if and only if they fit behind the offset |
| Bmp.CutFile | apps/image.h:337 | an encoded picture cut behind its header decodes to whatever the memory held |
| Bmp.OutsideIgnored | apps/image.h:335-384 | when every row that is read is in the file, no byte outside it matters |
| Bmp.OutsideSeen | apps/image.h:335-384 | otherwise the result depends on what lies past the end of the file |
| Bmp.SampleReadsOutside | apps/image.h:337 | for one file of 58 bytes the one pixel is read from past its end |
| Bmp.PixelInRow | apps/image.h:341-362 | the bytes of a pixel lie inside its row |
| Bmp.EncodeBmp | apps/image.h:387-431 | the buffer written field by field is the encoded image |
| Bmp.ReadBmp | apps/image.h:308-384 | the loops produce the decoded image, keeping what memory held for rows missing from the file, and nothing for a bad header; the result is a function of the file when all rows fit behind the offset |
| Bmp.FixAlpha | apps/image.h:365-378 | alpha is set everywhere exactly if it was zero everywhere |
| WindowOrder.FocusedOwnerIsTop | fb.c:852-863 | the focus query names the owner of the topmost visible window if that is focused, and -1 otherwise |
| WindowOrder.StepSound | fb.c:520-818 | every operation keeps a focused visible window topmost among the visible, and at most eight windows, whatever the counter shows |
| WindowOrder.RunSound | fb.c:520-818 | so does every run |
| WindowOrder.StepInv | fb.c:520-818 | with distinct identifiers besides, an operation keeps them all if and only if it does not open a window while another one has the counter's identifier |
| WindowOrder.RunInv | fb.c:520-818 | along a run of any length they hold throughout if and only if no window is opened with a live identifier |
| WindowOrder.RunEarly | fb.c:520-818 | a run that opens fewer windows than identifiers are left opens none with a live one, and no window has the identifier zero |
| WindowOrder.OpenedDistinct | fb.c:535 | a new window keeps the identifiers distinct if and only if no live window has the identifier that the counter shows |
| WindowOrder.AllDestroyed | fb.c:621-638 | destroying a thread's windows leaves none of them if and only if none has the identifier zero |
| WindowOrder.RunAllDestroyed | fb.c:621-638 | so after every run without a clash, and always before the counter wraps |
| WindowWrap.ClashRun | fb.c:535 | a window that stays open while 2^32 - 1 others come and go: the next one gets its identifier |
| WindowWrap.ZeroRun | fb.c:624-633 | after 2^32 - 1 windows the next one gets the identifier zero and outlives its thread |
| WindowOrder.RaisedOrder | fb.c:640-667 | raising keeps all other windows and their order, and the raised one has the focus |
| WindowOrder.RaiseEffect | fb.c:640-667 | raising makes the named window the topmost one, visible and alone in focus, and leaves the others in order |
| WindowOrder.MinimizeEffect | fb.c:719-746 | minimizing hides a visible window where it is and gives the focus to the topmost one still visible; a hidden window it brings back to the front |
| WindowOrder.MaximizeEffect | fb.c:748-800 | maximizing brings the window to the front at row 22, as wide as the screen and 58 rows less high, if the screen is known and higher than that, and saves its place; a second time it gets the saved place; nothing but place, saved place, flags and buffer changes |
| WindowOrder.CreateEffect | fb.c:520-582 | a new window is on top and alone in focus, under the counter's identifier, with the size, owner and buffer asked for and at most 31 characters of the title |
| WindowOrder.OpensExact | fb.c:520-533 | a window is opened exactly if there is memory for it and there are fewer than eight; otherwise nothing changes |
| WindowOrder.NoEffect | fb.c:588-818 | an identifier that no window has changes nothing, nor does maximizing a window titled Calculator |
| WindowOrder.DestroyedOrder | fb.c:588-619 | destroying keeps all other windows and their order |
| WindowOrder.DestroyedAllOrder | fb.c:621-638 | destroying a thread's windows leaves exactly those of the others, in order, if and only if none of the thread's has the identifier zero |
| WindowOrder.MinimizedOrder | fb.c:719-746 | minimizing changes, apart from the focus, only that window |
| WindowOrder.MinimizedAttended | fb.c:719-746 | after minimizing, the topmost visible window has the focus |
| WindowOrder.RaisedAttended | fb.c:640-667 | the same after raising |
| WindowOrder.DestroyedAttended | fb.c:601-603 | destroying leaves a visible window unattended if and only if the focused one went and a minimized one is on top |
| WindowOrder.FocusIsLost | fb.c:588-619 | open three windows, minimize the third, destroy the second: the first is visible and the focus query returns -1 |
| WindowOrder.MaximizeRestores | fb.c:761-785 | maximizing twice gives the window its place back |
| Windows.WindowTable.Create | fb.c:520-582 | the slots hold the step's windows; a full table hands the buffer back and returns -1 |
| Windows.WindowTable.Destroy | fb.c:588-619 | the slot is closed and cleared, the window's buffer is handed back |
| Windows.WindowTable.DestroyThreadWindows | fb.c:621-638 | the loop terminates, removes the thread's windows and counts them |
| Windows.WindowTable.BringToFront | fb.c:640-667 | the slots hold the raised order |
| Windows.WindowTable.ToggleMinimize | fb.c:719-746 | the slots hold the step's windows, the search from the top included |
| Windows.WindowTable.ToggleMaximize | fb.c:748-818 | the slots hold the step's windows; a window titled Calculator is left alone |
| Windows.WindowTable.GetFocusedTid | fb.c:852-863 | returns the owner that the search from the top finds, or -1 |

## Left out

Conditions under which the results hold, and what they leave unmodelled:

- Vmm.MemoryManager.MapUser: maps in a created space only in [4 GiB, 512 GiB); elsewhere the walk would write the kernel's shared tables.
- Vmm.MemoryManager.MapKernel: requires a walk without large pages; what happens on one is stated by `BootMap.MapBehind` and `BootMap.TableHit`.
- Vmm.MemoryManager.MapIn: the same requirement; besides, a read outside physical memory gives zero and no fault, and TLB flushes and loading CR3 have no effect in the model.
- Vmm.MemoryManager.Run: requests with a null space are for addresses off large pages.
- BootMap.MapBehind: requires that the frame holds no table, see `BootMap.TableHit`; and behind a 1-GiB page it holds only if the words read on the way are odd; otherwise a table would be allocated and linked into the page, which is not modelled.
- Vmm.MemoryManager.UnmapIn: the same requirement.
- Pmm.ReservedBytes: for a kernel image that is not empty and ends before the last page of the 64-bit addresses; `Pmm.OutOfBounds` has what holds wherever the kernel lies.
- Pmm.PageAllocator.Init: the statement by bytes is for such a kernel image; otherwise the free set is stated through the test for reserved pages.
- Vmm.MemoryManager.Populate: about the user area; the rights outside it are stated where the space is created.
- Isolation.KernelOutOfReach: while the kernel's tables are those of the boot loader, and off 1-GiB pages of the space, of which the boot loader's have none.
- Kheap.Heap.Realloc: requires a pointer in use, and that the copy fits the new block; `HeapBlocks.OverrunExact` says when it does not.
- HeapBlocks.StepWellFormed: about the block list; whether the copy of a reallocation stays inside the new block is stated by `HeapBlocks.OverrunExact`.
- HeapBlocks.RunWellFormed: about the block list too; the necessary half is for runs that reallocate null or blocks in use only, as the C program reads a header before any other pointer.
- Scheduler.RunSafety: assumes that thread 0 never blocks or exits (kernel.c:254-264) and that an exited thread only waits for its last switch (sched.c:273-276).
- Scheduler.ThreadTable.CreateThread: the page allocator's answer is a parameter, and what is given back is returned; `Processes.CreateThread` has the allocators.
- Processes.CreateThread: the page allocator is ready, the slot's space must still exist, and its old stack must hold no table and no reserved page.
- Processes.CreateProcess: the bytes of the program are a parameter, and the page of the program is a frame of 512 words.
- EditorText.LoadSaved: rows of 72 bytes or more are wrapped on loading, and bytes outside printable ASCII replaced, as `EditorText.LoadExact` says.
- Notepad.Editor.HandleKey: no dialog open, a window at least 44 pixels high, and a cursor inside its row: past the end of a row at the caps Backspace looks at bytes that the row no longer has (apps/notepad.c:583). The dirty flag, scrolling and the status line are not modelled.
- Notepad.Editor.LoadFile: a file whose size changes while it is read is not modelled.
- Scaling.ScaleBilinear: requires products inside an `int`, as `Scaling.ComputableExact` says; null buffers are not modelled.
- Rotation.Rotate90Cw: requires an image whose byte size fits 32 bits, as the size computation would wrap.
- Bmp.DecidedExact: for files that end at least eight bytes before the end of the 32-bit addresses; so for `Bmp.OutsideSeen`.
- Bmp.EncodeBmp: requires a total size that fits 32 bits, as the size computation would wrap.
- Windows.WindowTable.ToggleMaximize: that a buffer has room for the new size is not claimed, as a failed reallocation keeps the old buffer (fb.c:788-797).

Parts of the repository that the model does not have:

- The context registers on a thread's stack, the floating-point state, the TSS, and the performance counters in `schedule_interrupt`.
- `woos_system_spawn`, including the forced termination at sched.c:481, and lost wake-ups around `sched_block_current`.
- Waking threads after a message is sent or a window changes, and the events pushed on the way: the steps exist separately.
- `woos_graphics_set_window_flags`, which can break the focus invariant (fb.c:706-717), and the window calls that only set a field.
- `check_http_response_complete`, URL parsing, TLS and sockets.
- Device drivers, the file systems, the libraries under `external/`, drawing, and user-interface events: hardware and libraries are not visible here.
- Floating-point routines, string helpers and number formatting: they would add easy members only.
- The heap copies of the applications (apps/woos_mem.h, external/duktape/duk_shims.c): the same algorithm as kheap.c.
