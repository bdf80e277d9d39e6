# A verified model of the Apex64 kernel's core

This project models four components of the kernel in Dafny and proves what they
promise. `dafny verify dfyconfig.toml` checks all of it. Nothing is executed: every
statement below is a proved contract or lemma.

**The memory stack** (`Words`, `Frames`, `Pmm`, `Paging`, `PagingLaws`, `Boot`, `Vmm`,
`SlabModel`, `SlabLayout`, `Slab`, `HeapModel`, `Contents`, `Alloc`, `Kernel`). Physical memory is one
`array` of 64-bit words. Page tables, slab pages and heap pages are frames of that array,
and the code reaches them by loads and stores that are themselves translated by those page
tables. A ghost map `owner` says what each frame is used for. The classes `Pmm`, `Vmm`,
`Slab` and `Kalloc` carry the code; each is proved against functions on values (`Frames`,
`Paging`, `SlabModel`, `HeapModel`), and the laws are proved about these. `Kernel.Start`
runs the boot code and the three init functions from raw memory. `Contents` is about what
callers own: where the words behind live pointers are, and that nobody else's call changes
them. `Kernel.Serve` is a client that allocates, frees, writes and reads in any order, with a
log of what became of every request.

**The terminal** (`Screen`, `Rows`, `FbTerm`, `Printing`, `Csi`, `Parser`, `ParserLaws`, `Flanterm`). `Screen` is a
plain rows x cols array of cells with a cursor. `FbTerm` is the backend with its grid, its
queue of pending changes and the map between them; `Abs()` is the screen these stand for,
and drawing a character is an assignment to the ghost field `displayed`. `Flanterm` is the
byte-driven parser on top, with all its state. `Parser` has that state as a value and the
value after one more byte, and `Flanterm` is proved to follow it for every byte in every
state; `ParserLaws` says what strings of bytes do to it. `Csi` says what control sequences
mean in terms of rows and margins, `Printing` what plain text means in terms of lines.

**PCI enumeration** (`PciBus`): the recursive search over bridges, with its visited set and
its table of 256 entries, against the set of functions reachable from bus 0.

**Readers and formatters** (`Ext2`, `Ustar`, `Numbers`, `Printf`, `Format`): a slice read
through direct blocks, an archive reader against a writer, and number formatting against
a reader of numbers.

## Hypotheses

- Every frame is below 4 GiB, the range of the direct map, although the bitmap could cover 8 GiB.
- No huge page lies on the path of an address that is mapped or unmapped. `ensure_table` and
  `vmm_unmap_page` do not test for one, and `PagingLaws.HugePathCorrupts` and
  `PagingLaws.HugePathUnmapped` show what happens then for 2 MiB pages.
- The heap window is a parameter, inside one PML4 slot that the boot tables leave empty. The
  base that ships lies under the boot mappings; `Boot.ShippedHeapBase` and
  `Boot.ShippedHeapBaseOnTables` show the consequence.
- A heap request fits the rest of the window. `HeapModel.RequestFits` says when the page count
  of a request is right.
- Freed pointers and frames are live ones.
- `full_refresh` keeps the display right exactly under the condition of `FbTerm.FbTerm.FullRefresh`.
- The configuration space, the disk and the archive image do not change while they are read.

## Where the code departs from what it says or intends

- The mask for a 2 MiB page in `vmm_translate` keeps bits 47..21; its comment says 51..21
  (src/mem/vmm.c:129). The model follows the code. `Paging.ProcessorAgrees` says when it makes
  no difference, and `Boot.BootRunAsProcessor` that it makes none from boot on.
- `pmm_init` receives a direct-map address, so the Multiboot block is not reserved
  (`Pmm.MultibootBlockReserved`).
- `slab_free` passes a direct-map address to `pmm_free_frame`, which ignores it. A retired page
  is lost; `Alloc.Kalloc.ReturnLost` shows that returning it would be safe.
- `kfree` reads `h->pages` again after the header page has been unmapped
  (`HeapModel.HeaderUnmapped`); the model reads it once.
- The wrap of `raw_putchar` compares the row with the number of columns
  (`Printing.PrintingExactlyWhenWide`).
- CSI 0 K erases the reported cell and the rest of its row exactly when the cursor is on the
  screen, leaving one-column screens aside (`Csi.ErasesExactlyOnScreen`). With a wrap pending it
  erases one cell of another row or, on the bottom-margin row and below, nothing
  (`Csi.ErasedOffScreen`).
- CSI 0 J and CSI 1 J stop at the bottom margin, and at the row whose number is that of the
  columns: they erase what they are for exactly under the conditions of `Csi.EraseDownExactly`
  and `Csi.EraseUpExactly`. After CSI 1;2r, CSI J never reaches the rows below the margin
  (`Csi.EraseStopsAtMargin`, `ParserLaws.MarginBytes`).
- CSI 1 K spares the cell at the cursor (`Csi.EraseLineUpStops`), which section 8.3.41 of ECMA-48
  includes.
- CSI X runs on into another row (`Csi.EraseCharsExactly`), and CSI P with a count larger than the
  rest of the row blanks cells to the left of the cursor (`Csi.DeleteCharsExactly`).
- The row just below the bottom margin counts as inside for CSI B, e and E, which then move the
  cursor up (`Csi.DownMeansDown`, `Csi.DownMovesUp`).
- A control sequence that is not handled leaves scrolling disabled
  (`ParserLaws.FinishedIdle`), and the letter behind it is skipped
  (`ParserLaws.UnhandledBytes`).
- CAN in the middle of CSI ? leaves the terminal private (`ParserLaws.AbandonedBytes`), so
  that the next control sequence has no effect on the screen (`ParserLaws.FinishedScreen`,
  `ParserLaws.SentExactly`).
- `ustar_file_read` does not cut a request whose end wraps around into the file
  (`Ustar.CutWhenSumFits`).
- Under reverse video, intensity codes give a default colour of the wrong kind
  (`ParserLaws.IntensityExactly`), and 38 and 48 do not exchange the colour they set
  (`ParserLaws.ExtendedReversed`).
- `kmalloc` of a size whose page count wraps around to 0 maps nothing and stores a header all the
  same, to a page that is not mapped (`HeapModel.NoPages`, `Alloc.Kalloc.NoPagesFault`).
- Zero padding beyond 32 columns drops a minus sign (`Numbers.ReadBack`).

## Model

| member | source | states |
|---|---|---|
| Frames.AllocCounted | src/mem/pmm.c:155-174 | an allocation keeps the cached free count equal to the number of free frames |
| Frames.FreeCounted | src/mem/pmm.c:176-185 | freeing keeps the count exact, for a frame in use, a free one and one out of range |
| Frames.AllocLowest | src/mem/pmm.c:155-174 | allocation fails exactly when every frame is taken, or when frame 0 is free, whose address is the failure value; otherwise it takes the lowest free frame and nothing else changes |
| Frames.StepKeeps | src/mem/pmm.c:155-185 | one legal call keeps: a frame is taken exactly when it is reserved or live |
| Frames.RunSafe | src/mem/pmm.c:155-185 | after any run of legal calls the count is exact and the next allocation hits neither a live nor a reserved frame |
| Pmm.SetBit | src/mem/pmm.c:15-20 | setting a bit of a bitmap byte changes that bit only |
| Pmm.ClearBit | src/mem/pmm.c:21-26 | clearing a bit of a bitmap byte changes that bit only |
| Pmm.FullByte | src/mem/pmm.c:159-161 | a byte is 0xFF exactly when all its eight frames are used, so skipping it loses no free frame |
| Pmm.SpanFrames | src/mem/pmm.c:90-92 | rounding the ends of a byte range down and up to frames gives exactly the frames with bytes in it |
| Pmm.Pmm.HighestAvailable | src/mem/pmm.c:48-66 | the largest end of an available entry over all tags: an upper bound that is reached |
| Pmm.Pmm.FreeAvailable | src/mem/pmm.c:78-99 | frees exactly the frames with bytes in some available entry, entries unordered or overlapping |
| Pmm.Pmm.ReserveModules | src/mem/pmm.c:131-146 | additionally takes exactly the frames with bytes in some module |
| Pmm.Pmm.Reserve | src/mem/pmm.c:101-146 | takes exactly the frames with bytes in the kernel image, the first MiB, the Multiboot block or a module |
| Pmm.Pmm.CountFreeFrames | src/mem/pmm.c:148-150 | the cached count becomes the number of free frames |
| Pmm.Pmm.Init | src/mem/pmm.c:34-153 | for any well-formed memory map a frame is free afterwards if and only if an available entry covers it and nothing reserves it; the count is exact |
| Pmm.Pmm.ScanByte | src/mem/pmm.c:163-171 | first free frame of one bitmap byte |
| Pmm.Pmm.FindFree | src/mem/pmm.c:159-172 | byte-wise search returns the lowest free frame, or none if there is none |
| Pmm.Pmm.AllocFrame | src/mem/pmm.c:155-174 | the bitmap code implements the abstract allocation: same new state, same address |
| Pmm.Pmm.FreeFrame | src/mem/pmm.c:176-185 | the bitmap code implements the abstract release, ignoring unaligned and out-of-range addresses |
| Pmm.MultibootBlockReserved | src/mem/pmm.c:119-128 | given a direct-map address, as src/core/kernel.c:57 passes one, the reservation of the Multiboot block takes no frame at all |
| Boot.SetupPageTables | boot/boot.asm:198-318 | the stores of the boot code leave exactly the boot tables in the eight frames and touch no other word |
| Boot.BootInv | boot/boot.asm:198-318 | the boot tables satisfy the paging invariant, with PML4[0] and PML4[256] sharing one PDPT and every link writable |
| Boot.KernelWindow | boot/boot.asm:238-261 | the boot tables show the 128 MiB from physical address 0x200000 on at KERNEL_VIRT_BASE, writable |
| Boot.BootClearPath | boot/boot.asm:198-258 | after boot the path of an address is free of huge pages if and only if the address is outside the boot windows, and nothing is mapped there |
| Boot.BootRunSupportsItself | boot/boot.asm:198-318 | from boot, any run of maps and unmaps outside the boot windows keeps translate(p) = p and translate(HHDM_BASE + p) = p below 4 GiB, both writable, and the kernel window, and the next frame allocated is no page table |
| Boot.ShippedHeapBase | src/lib/alloc.c:20-24 | at an address below 4 GiB, where the shipped heap base lies (configs/linker.ld:81), vmm_map_page overwrites a word of mapped data, in every state; the translation of the address stays as it was if the frame stored into is no page table |
| Boot.ShippedHeapBaseOnTables | src/lib/alloc.c:20-24 | if it is one the translation may be lost: with the tables from frame 512 on, mapping 0x200000 overwrites PML4[0] |
| Boot.BootRunAsProcessor | src/mem/vmm.c:100-138 | from boot, after any run of maps and unmaps outside the boot windows with physical addresses of 52 bits, vmm_translate gives the translation of the processor for every address |
| PagingLaws.LinkedWalk | src/mem/vmm.c:32-43 | hooking a zeroed frame into an empty slot changes no translation and makes no address writable or read-only |
| PagingLaws.EnsureTableKeeps | src/mem/vmm.c:32-43 | ensure_table keeps the invariant, every walk and every frame but the one it takes, and its table can be followed |
| PagingLaws.EnsurePathKeeps | src/mem/vmm.c:55-65 | so do the three calls of vmm_map_page, however many tables they create, and a failure among them |
| PagingLaws.StorePage | src/mem/vmm.c:67-68 | a store to a leaf entry changes the translation of its page and of its PML4[0]/[256] twin only, and leaves it writable if and only if the entry has both P and R/W |
| PagingLaws.MapPageRefines | src/mem/vmm.c:45-71 | without a huge page on v's path, success makes exactly v's page (and its twin) translate to phys, writable at all levels of the walk if and only if bit 1 of flags is set, by a leaf entry with phys's page address and bits 11..1 of flags; failure changes no translation and happens only when memory is exhausted; the invariant survives |
| PagingLaws.UnmapPageRefines | src/mem/vmm.c:73-98 | unmapping takes exactly v's page (and its twin) out of the translation and changes no other page's R/W permission; it reports failure exactly when a table is missing, and then changes nothing |
| PagingLaws.TwinWalk | boot/boot.asm:205-213 | addresses that differ only in PML4 slot 0 against 256 translate alike |
| PagingLaws.UnmapUndoesMap | src/mem/vmm.c:45-98 | unmap after map restores the translation and the R/W permission of every address if v was unmapped before |
| PagingLaws.DataStore | src/mem/vmm.c:32-71 | a store outside the page tables keeps the invariant and every translation |
| PagingLaws.MapAllocEffect | src/mem/vmm.c:140-149 | vmm_map_alloc_page maps v to a frame that was free, writable if flags say so; a failed call returns the data frame, keeps every translation and at most page-table frames |
| PagingLaws.ReleaseFrame | src/mem/pmm.c:176-185 | freeing a frame that holds no page table keeps the paging invariant |
| PagingLaws.RunKeeps | src/mem/vmm.c:45-98 | every run of maps and unmaps on clear paths keeps the invariant; frames only turn from free to page table |
| PagingLaws.WalkSupportsItself | src/mem/vmm.c:45-138 | in every reachable state the kernel sees low memory, writable, at its own address and through the direct map, and no page table is free |
| PagingLaws.HugePathCorrupts | src/mem/vmm.c:32-43 | the precondition is needed: under a 2 MiB entry vmm_map_page reports success exactly when the huge page does not begin at frame 0, and stores into the mapped data; the translation of the address stays unless the word stored is on its own path |
| PagingLaws.HugePathUnmapped | src/mem/vmm.c:73-98 | likewise vmm_unmap_page stores 0 there and reports success |
| PagingLaws.RunKeepsHuge | src/mem/vmm.c:45-98 | no run on clear paths makes, unmakes or changes a huge page |
| Paging.IndicesSplit | src/mem/vmm.c:11-14 | the four indices are the 9-bit digits of the page number in bits 47..12 of the address |
| Paging.EntryFields | src/mem/vmm.c:41-68 | the entry ensure_table stores points to its frame, writable and not huge; the one vmm_map_page stores is present, with the page address of phys and bits 11..1 of flags |
| Paging.ProcessorAgrees | src/mem/vmm.c:124-137 | vmm_translate and the processor agree on an address if and only if the entry that maps it has none of the bits 51..48 (2 MiB page) or 63..52 (4 KiB page) |
| Paging.DirectMapWalk | boot/boot.asm:198-236 | tables that contain the boot entries translate p and HHDM_BASE + p to p and let both be written |
| Vmm.Vmm.constructor | src/mem/vmm.c:23-27 | vmm_init takes the root from CR3 |
| Vmm.Vmm.Load | src/mem/vmm.c:48-57 | a load goes through the very tables that memory holds |
| Vmm.Vmm.Store | src/mem/vmm.c:67-68 | a store goes through the tables likewise, and needs R/W on every level of the walk |
| Vmm.Vmm.LoadEntry | src/mem/vmm.c:110-137 | reading a table through the direct map reads the entry in memory |
| Vmm.Vmm.StoreEntry | src/mem/vmm.c:67-68 | writing a table entry through the direct map changes that word of memory only |
| Vmm.Vmm.ZeroPage | src/mem/vmm.c:38-40 | clearing a frame through the direct map zeroes that frame only |
| Vmm.Vmm.EnsureTable | src/mem/vmm.c:32-43 | the code in flat memory implements the abstract ensure_table, result and new state |
| Vmm.Vmm.EnsurePath | src/mem/vmm.c:55-65 | likewise for the three levels |
| Vmm.Vmm.MapPage | src/mem/vmm.c:45-71 | likewise for vmm_map_page, including -1 before vmm_init and on exhaustion |
| Vmm.Vmm.UnmapPage | src/mem/vmm.c:73-98 | likewise for vmm_unmap_page |
| Vmm.Vmm.TranslatePage | src/mem/vmm.c:100-138 | vmm_translate returns the abstract translation, 0 standing for none; huge pages of both sizes included |
| Vmm.Vmm.MapAllocPage | src/mem/vmm.c:140-149 | likewise for vmm_map_alloc_page |
| SlabModel.SizeToIndex | src/mem/slab.c:34-38 | the smallest class that is large enough; none exactly above 2048 bytes |
| SlabModel.PageFull | src/mem/slab.c:50-53 | a page has room for its slots behind the header and for not one more |
| SlabModel.SlotsDisjoint | src/mem/slab.c:50-62 | slots lie behind the header inside the page and do not overlap |
| SlabModel.AllocKeeps | src/mem/slab.c:79-107 | slab_alloc keeps every slot in exactly one of free list, magazine and live set, and returns a slot that was not live; it fails only when a page is needed and there is no frame |
| SlabModel.FullPageIdle | src/mem/slab.c:138-147 | a page whose free count equals its slots has no live or parked slot, by counting |
| SlabModel.FreeKeeps | src/mem/slab.c:109-148 | slab_free of a live object keeps the partition; a page is unlinked only when all its slots are free |
| SlabModel.FreeObjectsExact | src/mem/slab.c:150-160 | free lists plus magazine are exactly the listed slots minus the live objects |
| SlabModel.RunPartitioned | src/mem/slab.c:79-160 | so after any run of allocations and legal frees from slab_init on |
| SlabLayout.ObjPtrOffset | src/mem/slab.c:56-58 | the byte address data + i * obj_size is the object's pointer |
| SlabLayout.PtrPage | src/mem/slab.c:112-113 | masking an object pointer gives its page |
| SlabLayout.ObjPtrUnique | src/mem/slab.c:56-62 | different slots have different pointers |
| SlabLayout.PackFields | src/mem/slab.c:10-16 | obj_size, free_count and objs_per_page share a word without disturbing one another, and obj_size names the class |
| SlabLayout.ThreadedRepr | src/mem/slab.c:56-62 | the construction loop leaves every slot once on the free list threaded through the page |
| SlabLayout.TakeRepr | src/mem/slab.c:103-105 | popping the threaded list in memory is popping the abstract one |
| SlabLayout.PushRepr | src/mem/slab.c:133-136 | pushing an object in memory is pushing it on the abstract list |
| SlabLayout.UnlinkRepr | src/mem/slab.c:140-144 | storing the successor into the predecessor's link removes exactly that page from the list |
| SlabLayout.RetireRepr | src/mem/slab.c:138-147 | a fully free page leaves the class and nothing refers to it any more |
| SlabLayout.NextFieldAligned | src/mem/slab.c:10-16 | the first word of a slab page is 0 or a page address |
| SlabLayout.ObjectStoreRepr | src/mem/slab.c:10-16 | a store inside a live object disturbs neither header, list nor magazine |
| Slab.LiveStays | src/mem/slab.c:79-148 | a class whose frames change only in headers, free slots and the slot of the freed object keeps every word of its other live objects |
| Slab.Slab.constructor | src/mem/slab.c:66-74 | slab_init: all classes empty |
| Slab.Slab.CreatePage | src/mem/slab.c:40-64 | a new page holds all its slots on its free list in memory; 0 exactly when no frame is free |
| Slab.Slab.AddPage | src/mem/slab.c:96-101 | the new page becomes the first of its list; the words behind the headers of all other pages of the class are kept |
| Slab.Slab.TakeFromHead | src/mem/slab.c:103-106 | the object returned is the head of the first page's free list |
| Slab.Slab.PopMagazine | src/mem/slab.c:87-92 | the object returned is the one parked last |
| Slab.Slab.Alloc | src/mem/slab.c:79-107 | slab_alloc in flat memory: the returned pointer is a slot that was not live, the class's abstract state moves as SlabModel.Alloc says, translations stay, only frames of the class change, and every word of every live object is kept |
| Slab.Slab.FindPrevious | src/mem/slab.c:140-141 | the list walk always finds the page it looks for |
| Slab.Slab.RetirePage | src/mem/slab.c:138-147 | the page leaves its list; pmm_free_frame ignores the direct-map address, so the frame is lost |
| Slab.Slab.Free | src/mem/slab.c:109-148 | slab_free in flat memory releases exactly the given object and keeps every word of the objects that remain live; NULL is ignored |
| Slab.Slab.FreeObjects | src/mem/slab.c:150-160 | the sum over the page list and the magazine equals listed slots minus live objects |
| HeapModel.RequestFits | src/lib/alloc.c:37-38 | the page count covers size and header exactly when neither 64-bit sum wraps around, and is then the smallest that does |
| HeapModel.NoPages | src/lib/alloc.c:37-38 | the page count wraps around to 0 for exactly the sizes from 2^64 - 4103 to 2^64 - 8 |
| HeapModel.HeaderFields | src/lib/alloc.c:10-16 | the magic spells KMAL; magic and page count (mod 2^32) are read back from the header word |
| HeapModel.AlignedHasNoMagic | src/lib/alloc.c:81-81 | a page-aligned word never carries the magic |
| HeapModel.MapPagesKeeps | src/lib/alloc.c:42-47 | the mapping loop maps a prefix of the range, each page to a frame of its own that was free, and changes nothing elsewhere |
| HeapModel.UnmapPagesKeeps | src/lib/alloc.c:53-60 | the unwinding loop unmaps exactly its pages and frees exactly their frames |
| HeapModel.WalksRestored | src/lib/alloc.c:49-62 | mapping and unmapping the same pages restores every translation |
| HeapModel.MapAllKeeps | src/lib/alloc.c:42-62 | success maps exactly the requested pages; failure restores every translation and every data frame and keeps at most page-table frames |
| HeapModel.FreeUndoesMap | src/lib/alloc.c:42-92 | a successful page-backed kmalloc followed by kfree restores every translation and frees every data frame |
| HeapModel.GrantedCount | src/lib/alloc.c:38-47 | a granted request has at most as many pages as there are frames, so the 32-bit page count of the header is exact |
| HeapModel.AddBlock | src/lib/alloc.c:64-71 | the new block overlaps no live one and carries its header; the others keep theirs |
| HeapModel.DropBlock | src/lib/alloc.c:81-91 | freeing a block leaves the others disjoint and their headers readable |
| HeapModel.HeaderUnmapped | src/lib/alloc.c:82-89 | the first round of kfree's loop unmaps the header that the loop condition reads again |
| HeapModel.DataStoreHeap | src/lib/alloc.c:64-67 | stores outside the page tables keep the heap's invariant |
| Contents.WordAt | src/lib/alloc.c:35-72 | every word behind a live pointer has a frame and an index that belong to that target alone, and the page tables lead there and let it be written |
| Contents.BlockWritable | src/lib/alloc.c:42-72 | every byte of every page of a granted kmalloc block is mapped and writable at all levels of the walk |
| Contents.WordsApart | src/lib/alloc.c:26-72 | words of different live blocks or objects lie at different places of physical memory: no two pages of the heap share a frame, and slab and heap frames differ |
| Contents.TargetsApart | src/lib/alloc.c:26-72 | different live blocks and objects are disjoint both as ranges of virtual addresses and as words of physical memory, page-backed ones against slab objects included |
| Contents.StoreIsWritten | src/lib/alloc.c:64-71 | a store where the page tables lead from an address of live memory changes no other word of live memory, of the same target or another |
| Contents.BlocksApart | src/lib/alloc.c:64-71 | live blocks do not overlap in the address space |
| Contents.ObjectsApart | src/mem/slab.c:50-62 | live objects do not overlap, within a page, across pages and across classes |
| Contents.BlockAndObject | src/lib/alloc.c:74-95 | a block never overlaps an object: heap window and direct map lie in different PML4 slots |
| Contents.KeptByMapping | src/lib/alloc.c:42-71 | mapping pages outside of all blocks keeps every word of live memory readable and unchanged |
| Contents.KeptByFreeing | src/lib/alloc.c:81-91 | unmapping and freeing the pages of one block keeps the words of all other live memory |
| Contents.KeptByStill | src/mem/slab.c:79-148 | so does a change that moves no translation and writes only headers, free slots and the memory of one target |
| Alloc.Kalloc.Init | src/lib/alloc.c:20-24 | kmalloc_init sets the cursor once, to the heap base |
| Alloc.Kalloc.MapAll | src/lib/alloc.c:42-62 | the loops in flat memory implement the abstract mapping with unwinding, and spare the slab allocator |
| Alloc.Kalloc.LargeAlloc | src/lib/alloc.c:35-71 | page-backed kmalloc: granted exactly when the abstract mapping succeeds; pointer, cursor, blocks, owners and frames are stated for both outcomes, and all live memory keeps its contents |
| Alloc.Kalloc.NoPagesFault | src/lib/alloc.c:37-66 | for such a size nothing is mapped, the request is not refused, and the page that the header is stored to has no translation |
| Alloc.Kalloc.Kmalloc | src/lib/alloc.c:26-72 | kmalloc for every size: NULL for 0, the slab class for small requests, pages otherwise; all invariants survive, and every word of every live block and object can be read as before |
| Alloc.Kalloc.ReadHeader | src/lib/alloc.c:78-81 | the word at the masked pointer has the magic if and only if the pointer is page-backed, and then holds its page count |
| Alloc.Kalloc.LargeFree | src/lib/alloc.c:81-91 | the block's pages are unmapped and exactly their frames freed; translations elsewhere and the words of all other frames stay |
| Alloc.Kalloc.Kfree | src/lib/alloc.c:74-95 | kfree of a live pointer releases exactly what it points to; every word of all other live memory can be read as before; NULL is ignored |
| Alloc.Kalloc.StoreBlock | src/lib/alloc.c:64-71 | whatever the owner of a block stores behind its header disturbs neither an invariant nor a word of anything else that is live |
| Alloc.Kalloc.StoreAt | src/lib/alloc.c:64-71 | a store to any word of live memory, block or object, changes that word and no other word of live memory, and disturbs no invariant |
| Alloc.Kalloc.LoadAt | src/lib/alloc.c:64-71 | a load from any word of live memory sees it |
| Alloc.Kalloc.StoreObject | src/mem/slab.c:103-106 | whatever the owner of an object stores inside it disturbs neither an invariant nor a word of anything else that is live |
| Alloc.Kalloc.ReturnLost | src/mem/slab.c:145-146 | returning a retired page by its physical address would keep every invariant |
| Kernel.Start | src/core/kernel.c:57-61 | from raw memory and a memory map, the boot code and the three init functions establish every invariant at once |
| Kernel.Serve | src/lib/alloc.c:26-95 | a client that allocates, frees, writes and reads in any order: the log tells what became of every request, every step is the abstract one (a request with room is denied exactly when the abstract allocation finds nothing), what the client holds is what it got and has not given back, each item is live and as large as asked for unless the size sum wraps around, and all are pairwise disjoint in addresses and in memory |
| Kernel.KmallocStep | src/lib/alloc.c:26-72 | kmalloc is such a step: event, lists, cursor, frames and live sets move as SlabModel.Alloc and HeapModel.MapAll say |
| Kernel.KfreeStep | src/lib/alloc.c:74-95 | so is kfree of something held, as SlabModel.Free and HeapModel.UnmapPages say |
| Kernel.GetHolds | src/lib/alloc.c:26-72 | after a step of kmalloc the client holds what it held, unmoved and undiminished, and what it got is none of it |
| Kernel.GiveHolds | src/lib/alloc.c:74-95 | after a step of kfree it holds everything but what it gave back |
| Kernel.RunKeeps | src/lib/alloc.c:26-95 | over any part of a run, live memory that is not given back stays live, in its place and of its size, and every word of it keeps its value until it is written |
| Kernel.RunReadsBack | src/lib/alloc.c:26-95 | what a client reads is what it last wrote there, whatever was allocated, freed and written in between |
| FbTerm.RoomLeft | src/flanterm/backends/fb.c:706-728 | queued items and cells with a pending change correspond one to one, so the append at line 721 is in bounds |
| FbTerm.AppendItem | src/flanterm/backends/fb.c:716-727 | a new queue entry is a point update of the pending view |
| FbTerm.ReplaceItem | src/flanterm/backends/fb.c:714-727 | overwriting a pending entry is a point update of the pending view |
| FbTerm.DrainStep | src/flanterm/backends/fb.c:942-951 | one round of the flush loop moves one pending change into the grid, or skips the one the cursor has taken |
| FbTerm.LastPicture | src/flanterm/backends/fb.c:953-957 | replotting the old cursor cell leaves exactly the grid plus the new cursor image |
| FbTerm.FbTerm.constructor | src/flanterm/backends/fb.c:1283-1306 | the fresh backend shows blanks with the cursor at the origin |
| FbTerm.FbTerm.Push | src/flanterm/backends/fb.c:706-728 | push_to_queue is a point update of the screen; writes outside are ignored |
| FbTerm.FbTerm.Scroll | src/flanterm/backends/fb.c:758-781 | scrolling in place through queue pointers is exactly the shift of the rows between the margins with a blank row at the bottom |
| FbTerm.FbTerm.RevScroll | src/flanterm/backends/fb.c:730-756 | reverse scrolling is exactly the opposite shift, unsigned loop bound included |
| FbTerm.FbTerm.RevScrollFrom | src/flanterm/backends/fb.c:730-756 | also with the top margin that CSI L sets, even below the bottom margin |
| FbTerm.FbTerm.Clear | src/flanterm/backends/fb.c:783-798 | every cell blank in the current colours; the cursor moves home on request |
| FbTerm.FbTerm.SetCursorPos | src/flanterm/backends/fb.c:800-819 | coordinates are cut to the screen, by their low 32 bits when too large |
| FbTerm.FbTerm.GetCursorPos | src/flanterm/backends/fb.c:821-826 | the reported position is on the screen |
| FbTerm.FbTerm.MoveCharacter | src/flanterm/backends/fb.c:828-847 | one cell is copied as it is on the screen, pending or drawn |
| FbTerm.FbTerm.DrawCursor | src/flanterm/backends/fb.c:909-933 | the cursor cell is drawn with colours exchanged and its pending change taken over into the grid |
| FbTerm.FbTerm.Flush | src/flanterm/backends/fb.c:935-967 | afterwards the grid equals the view, nothing is pending, and the display is the view with the cursor image on the on-screen cursor cell if and only if the cursor is enabled |
| FbTerm.FbTerm.WrapCursor | src/flanterm/backends/fb.c:972-982 | the deferred wrap, with its comparison of y against cols |
| FbTerm.FbTerm.RawPutchar | src/flanterm/backends/fb.c:969-989 | wraps if a wrap is pending, then writes one cell and advances |
| FbTerm.FbTerm.FullRefresh | src/flanterm/backends/fb.c:991-1037 | keeps the queue and the display consistent if and only if no change is pending under a visible cursor that stands where it was last drawn or is invisible there |
| FbTerm.FbTerm.RestoreState | src/flanterm/backends/fb.c:458-464 | colours and cursor become the saved ones |
| FbTerm.FbTerm.Run | src/flanterm/backends/fb.c:706-989 | any run of backend calls: grid, queue and map stand for the plain screen, and once flushed the display shows exactly it and the cursor |
| Printing.WrapFits | src/flanterm/backends/fb.c:969-982 | the wrap is a new line as long as the next row number is below the number of columns |
| Printing.NewLineShown | src/flanterm/flanterm.c:1334-1343 | a new line moves the picture of the lines up exactly when the cursor is on the last row |
| Printing.PrintingIsLayout | src/flanterm/flanterm.c:1316-1391 | plain text from a cleared screen shows the last rows of a layout that knows only lines of at most cols characters |
| Printing.TallScreenFails | src/flanterm/backends/fb.c:979-981 | on a screen with more rows than columns a text exists that is shown wrongly |
| Printing.PrintingExactlyWhenWide | src/flanterm/flanterm.c:1316-1391 | printing agrees with the layout for every text if and only if rows <= cols |
| Csi.ErasedRow | src/flanterm/flanterm.c:757-779 | the three forms of CSI K are row blanking with the cursor left in place |
| Csi.ErasesExactlyOnScreen | src/flanterm/flanterm.c:757-764 | CSI 0 K blanks the reported cell and the rest of its row, whatever is on the screen, if and only if the cursor is on the screen: no wrap pending and not below the last row (a screen of one column in its first row is the only other case) |
| Csi.ReportedCellStays | src/flanterm/flanterm.c:757-764 | with the cursor not on the screen the reported cell itself keeps its contents |
| Csi.ErasedOffScreen | src/flanterm/flanterm.c:757-764 | otherwise CSI 0 K erases one cell, the first of the row a pending wrap leads to, when the cursor is above the bottom-margin row, and nothing from that row down |
| Csi.DownMeansDown | src/flanterm/flanterm.c:594-610 | CSI B, e and E move the cursor down or not at all if and only if it is not on the row just below the bottom margin; from there they move it one row up |
| Csi.DownMovesUp | src/flanterm/flanterm.c:594-610 | on any screen with three rows, CSI 1;2r and CSI 3H lead to that state, and CSI B then moves up |
| Csi.BlanksRunOn | src/flanterm/backends/fb.c:969-989 | blanks above the limit, the bottom margin or the number of columns, fill cell after cell over the rows |
| Csi.BlanksAre | src/flanterm/backends/fb.c:969-989 | which cells n blanks fill, for every cursor position and every n: the row of the cursor, then the rows from the one the wrap leads to up to the limit, or nothing from the bottom margin on |
| Csi.EraseDisplayIs | src/flanterm/flanterm.c:690-724 | on every screen CSI 0 J puts as many blanks as there are cells from the reported one on, where Csi.BlanksView says, and CSI 1 J blanks the cells up to the reported one or up to the limit; the cursor goes back to where it was reported |
| Csi.EraseUpExactly | src/flanterm/flanterm.c:703-717 | CSI 1 J blanks exactly the cells up to and including the reported one, whatever is on the screen, if and only if the reported row is above the bottom margin and its number is below the number of columns |
| Csi.EraseDownExactly | src/flanterm/flanterm.c:692-702 | CSI 0 J blanks exactly the cells from the reported one to the end, whatever is on the screen, if and only if the cursor is on the screen and either in the last row or on a screen without a bottom margin and with rows <= cols |
| Csi.DownSpares | src/flanterm/flanterm.c:692-702 | otherwise it spares the last cell of the screen or the reported one |
| Csi.EraseStopsAtMargin | src/flanterm/flanterm.c:692-702 | on any screen of three rows, CSI 1;2r and CSI J leave all rows below the margin as they were |
| Csi.EraseCharsIs | src/flanterm/flanterm.c:741-747 | on every screen CSI X puts n blanks, at most a row's number, where Csi.BlanksView says |
| Csi.EraseCharsRunsOn | src/flanterm/flanterm.c:741-747 | above the limit these are the next cells over the following rows, up to the limit |
| Csi.EraseCharsExactly | src/flanterm/flanterm.c:741-747 | CSI X blanks exactly n cells from the reported one on, or the rest of its row, if and only if there is nothing to erase, or the cursor is on the screen and the blanks fit in its row or are not followed by a wrap (one-column screens as for CSI K) |
| Csi.EraseLineUpStops | src/flanterm/flanterm.c:766-770 | CSI 1 K spares the reported cell itself |
| Csi.OpenedStep | src/flanterm/flanterm.c:725-735 | a round of CSI @ opens a gap of n blanks one column further to the left |
| Csi.PulledAll | src/flanterm/flanterm.c:736-747 | the copying and blanking of CSI P delete n characters of the row |
| Csi.DeleteCharsExactly | src/flanterm/flanterm.c:736-747 | CSI P deletes n characters, or all to the end of the row if there are fewer, if and only if n fits in the rest of the row, except for counts beyond the number of columns that happen to blank just that rest |
| Csi.MissedBefore | src/flanterm/flanterm.c:736-747 | with a larger count it blanks cells to the left of the cursor |
| Parser.LeadOk | src/flanterm/flanterm.c:1288-1299 | a lead byte leaves the bits of the bytes still expected zero |
| Parser.ContinueOk | src/flanterm/flanterm.c:1256-1266 | a continuation byte keeps that, so or-ing bits in is adding them |
| Parser.DecodeInvertsEncode | src/flanterm/flanterm.c:1256-1299 | the UTF-8 encoding of any code point from 0x80 on decodes to it, and not a byte earlier |
| ParserLaws.TextBytes | src/flanterm/flanterm.c:1316-1391 | plain text goes to the screen as Printing says, and nothing else of the terminal changes |
| ParserLaws.ReturnBytes | src/flanterm/flanterm.c:1347-1349 | a text, CR and a shorter text from column 0 on: the row shows the second text over the beginning of the first, with the cursor behind it |
| ParserLaws.BackspaceBytes | src/flanterm/flanterm.c:1344-1346 | BS and a character put the character over the one before the cursor |
| ParserLaws.TabByte | src/flanterm/flanterm.c:1328-1334 | TAB moves to the next multiple of 8, or to the last column |
| ParserLaws.FeedByte | src/flanterm/flanterm.c:1335-1343 | VT and FF do what a newline does to the screen |
| ParserLaws.NothingByte | src/flanterm/flanterm.c:1320-1355 | BEL, NUL and DEL change nothing |
| ParserLaws.LineDrawingBytes | src/flanterm/flanterm.c:1356-1391 | SO, q and SI draw one horizontal line character and leave the character set as it was |
| ParserLaws.CharsetBytes | src/flanterm/flanterm.c:918-921 | ESC ( or ESC ) and 0 or B assign set 0 or 1, and nothing else of setup or screen changes |
| ParserLaws.SaveAndRestore | src/flanterm/flanterm.c:822-842 | ESC 7, any bytes without a 7, and ESC 8: attributes, character set, colours and cursor are as they were at ESC 7 |
| ParserLaws.KeptStays | src/flanterm/flanterm.c:1244-1391 | no byte but the 7 of ESC 7 changes what ESC 7 has saved, in any state |
| ParserLaws.OscBytes | src/flanterm/flanterm.c:467-498 | ESC ], a string of printable bytes and BEL change neither screen nor setup |
| ParserLaws.StartOverBytes | src/flanterm/flanterm.c:1245-1254 | CAN ESC c brings any state back to the cleared screen and the parser state of the start |
| ParserLaws.PageBytes | src/flanterm/flanterm.c:118-126 | from any state, CAN ESC c and a text leave exactly the layout of the text on the screen (rows <= cols) |
| ParserLaws.CharacterBytes | src/flanterm/flanterm.c:1256-1300 | the UTF-8 bytes of a code point print that character once, even inside an escape sequence |
| ParserLaws.SequenceBytes | src/flanterm/flanterm.c:500-820 | ESC [ v1 ; ... c written in decimal does to the whole terminal what Finished says, for up to 16 values and any final byte but [ |
| ParserLaws.FinishedScreen | src/flanterm/flanterm.c:548-818 | on the screen that is: the effect of c with those values or their defaults; nothing if the terminal was left private; only scrolling off if c is unknown; other colours for CSI m |
| ParserLaws.FinishedSetup | src/flanterm/flanterm.c:397-465 | besides, CSI s saves the reported cursor, CSI 4 h and l switch insert mode, and on a private terminal CSI 25 h and l the cursor |
| ParserLaws.FinishedIdle | src/flanterm/flanterm.c:548-820 | nothing is in progress afterwards and what ESC 7 saved stays, unless c is unknown; scrolling stays enabled exactly when the terminal was private or c is known |
| ParserLaws.SentExactly | src/flanterm/flanterm.c:548-551 | a cursor sequence has its effect on every screen if and only if the terminal was not left private |
| ParserLaws.UnhandledBytes | src/flanterm/flanterm.c:806-820 | behind an unknown final byte the next letter is skipped, and scrolling stays off |
| ParserLaws.MarginBytes | src/flanterm/flanterm.c:690-702 | ESC [1;2r ESC [J, byte by byte: the rows below the margin stay as they were |
| ParserLaws.AbandonedBytes | src/flanterm/flanterm.c:500-508 | ESC [ ? CAN leaves the terminal ready for text but private |
| ParserLaws.PrivateBytes | src/flanterm/flanterm.c:397-430 | ESC [ ? v1 ; ... c leaves screen, colours and saved state alone, ends the private mode, and switches the cursor for 25 and h or l |
| ParserLaws.InsertBytes | src/flanterm/flanterm.c:1366-1373 | ESC [4h and a character: the rest of the row moves right by one and the character takes the place |
| ParserLaws.ColourBytes | src/flanterm/flanterm.c:224-240 | ESC [ v m with v from 30 to 37, on coherent colours without bold and reverse video: text to come has colour v - 30 of the theme, and nothing else of the screen changes |
| ParserLaws.SgrKeeps | src/flanterm/flanterm.c:128-340 | 0, 7, 27, 39, 49, 30-37 and 40-47 set the attribute they name and the two colours that belong to the new attributes |
| ParserLaws.SgrKeepsAll | src/flanterm/flanterm.c:128-395 | so do such codes in any number and order |
| ParserLaws.IntensityExactly | src/flanterm/flanterm.c:152-222 | 1, 5, 22 and 25 set their attribute, and keep colours and attributes together if and only if no default colour is touched under reverse video or the two defaults agree |
| ParserLaws.BrightShade | src/flanterm/flanterm.c:260-284 | 90-97 and 100-107 set their attribute and draw in the bright colour, exchanged under reverse video |
| ParserLaws.ExtendedReversed | src/flanterm/flanterm.c:342-391 | 38 under reverse video draws the text, so that CSI 27 m turns the colour into the ground |
| Flanterm.Terminal.SgrIntensity | src/flanterm/flanterm.c:152-222 | 1, 5, 22 and 25 as SgrOne says, see ParserLaws.IntensityExactly |
| Flanterm.Terminal.SgrShade | src/flanterm/flanterm.c:224-284 | 30-37, 40-47, 90-97 and 100-107 as SgrOne says, see ParserLaws.SgrKeeps and BrightShade |
| Flanterm.Terminal.SetDefault | src/flanterm/flanterm.c:286-324 | 39 and 49 set the default colour on the unswapped palette |
| Flanterm.Terminal.SgrReverse | src/flanterm/flanterm.c:326-340 | 7 and 27 exchange the colours when the mode changes and leave them otherwise |
| Flanterm.Terminal.SgrReset | src/flanterm/flanterm.c:131-150 | 0 and the empty sequence bring back the colours of plain attributes |
| Flanterm.Terminal.SgrExtended | src/flanterm/flanterm.c:342-391 | 38 and 48 consume five or three values and set the RGB or palette colour; incomplete or unknown ones set nothing |
| Flanterm.Terminal.Sgr | src/flanterm/flanterm.c:128-395 | the loop over the values is the fold SgrAll, whose laws are ParserLaws.SgrKeepsAll, IntensityExactly and BrightShade; the screen changes in its colours only |
| Flanterm.Terminal.CursorUp | src/flanterm/flanterm.c:572-590 | up n rows, from the top margin or below not past it |
| Flanterm.Terminal.CursorDown | src/flanterm/flanterm.c:591-610 | down n rows, from the row behind the bottom margin or above not past the margin |
| Flanterm.Terminal.CursorSideways | src/flanterm/flanterm.c:611-621 | left or right, cut at the edges |
| Flanterm.Terminal.CursorTo | src/flanterm/flanterm.c:627-639 | absolute row or column; 0 wraps around and lands on the last one |
| Flanterm.Terminal.CursorPosition | src/flanterm/flanterm.c:640-653 | one-based position, 0 counting as 1, cut to the screen |
| Flanterm.Terminal.InsertLines | src/flanterm/flanterm.c:661-670 | rows from the cursor to the bottom margin move down |
| Flanterm.Terminal.EraseDisplay | src/flanterm/flanterm.c:690-724 | CSI J as Csi.DisplayErased, whose cells Csi.EraseDisplayIs states for every screen; CSI 2 J and 3 J clear the screen |
| Flanterm.Terminal.InsertBlanks | src/flanterm/flanterm.c:725-735 | the rest of the row moves right by n over blanks; a count of 0 blanks it |
| Flanterm.Terminal.DeleteChars | src/flanterm/flanterm.c:736-747 | the rest of the row moves left by n when n fits; otherwise the blanks the code writes, see Csi.DeleteCharsExactly |
| Flanterm.Terminal.EraseLine | src/flanterm/flanterm.c:757-779 | CSI K as Csi.LineErased: row blanking with the cursor on the screen, see Csi.ErasesExactlyOnScreen |
| Flanterm.Terminal.SetScrollRegion | src/flanterm/flanterm.c:780-802 | margins of at least two rows inside the screen, or the whole screen; the cursor goes home |
| Flanterm.Terminal.Dispatch | src/flanterm/flanterm.c:568-815 | a known final byte does to the whole terminal what Performed says, an unknown one nothing |
| Flanterm.Terminal.Parameters | src/flanterm/flanterm.c:512-548 | digits and separators build the values as Fed says: an empty parameter is 0 and nothing is kept beyond the sixteenth; a final byte finds a value or its default in every place |
| Flanterm.Terminal.ControlSequenceParse | src/flanterm/flanterm.c:500-820 | the whole terminal after a byte of a control sequence, in every state of it |
| Flanterm.Terminal.DecPrivateParse | src/flanterm/flanterm.c:397-430 | the end of a private sequence: CSI ? 25 h and l switch the cursor, nothing else changes |
| Flanterm.Terminal.OscParse | src/flanterm/flanterm.c:467-498 | an OSC string ends at BEL or at ESC followed by a backslash, and any other byte behind ESC is parsed afresh |
| Flanterm.Terminal.Reinit | src/flanterm/flanterm.c:83-114 | the whole parser state as at the start but for what ESC 7 saved, the margins around the whole screen, scrolling and cursor on |
| Flanterm.Terminal.SaveState | src/flanterm/flanterm.c:833-842 | ESC 7 saves attributes, character set, colours and cursor, and changes nothing else |
| Flanterm.Terminal.RestoreState | src/flanterm/flanterm.c:822-831 | ESC 8 brings the saved ones back, and changes nothing else |
| Flanterm.Terminal.ScreenEscape | src/flanterm/flanterm.c:878-912 | ESC 7, 8, D, E and M on the whole terminal |
| Flanterm.Terminal.ContinueChar | src/flanterm/flanterm.c:1256-1285 | the last continuation byte prints the decoded character once, the earlier ones nothing |
| Flanterm.Terminal.SelectCharset | src/flanterm/flanterm.c:1304-1314 | the byte behind ESC ( or ESC ) assigns one of the two character sets or leaves them |
| Flanterm.Terminal.MakeRoom | src/flanterm/flanterm.c:1366-1373 | insert mode moves the rest of the row right by one |
| Flanterm.Terminal.PutControl | src/flanterm/flanterm.c:1319-1364 | BS, TAB, the line feeds, CR and BEL on the screen, see ParserLaws.ReturnBytes, BackspaceBytes, TabByte, FeedByte and NothingByte |
| Flanterm.Terminal.PutGround | src/flanterm/flanterm.c:1316-1391 | any byte outside of sequences does to the whole terminal what GroundStep says: control characters, ESC, SO, SI, and glyphs behind an inserted cell in insert mode |
| Flanterm.Terminal.Putchar | src/flanterm/flanterm.c:1244-1391 | every byte in every state takes the whole terminal to the state Parser.OneByte gives, about whose byte strings ParserLaws is; every table index is in range and every loop ends |
| Flanterm.Terminal.Write | src/flanterm/flanterm.c:118-126 | a byte string takes the terminal where its bytes take it one after the other, and with autoflush on the display then shows the screen |
| Flanterm.Terminal.StartOver | src/flanterm/flanterm.c:1245-1254 | CAN ESC c brings any state back to a cleared screen and the parser state of the start |
| Flanterm.Terminal.PrintPage | src/flanterm/flanterm.c:118-126 | from any state, CAN ESC c and a text put exactly the layout of the text on the display (rows <= cols) |
| Flanterm.Terminal.PutCharacter | src/flanterm/flanterm.c:1256-1300 | the UTF-8 bytes of a code point print that character, even inside an escape sequence |
| Flanterm.Terminal.SendSequence | src/flanterm/flanterm.c:500-820 | a control sequence written out with decimal parameters and any final byte but [ takes the whole terminal to Finished, see ParserLaws.FinishedScreen, FinishedSetup and FinishedIdle |
| Flanterm.Terminal.constructor | src/flanterm/flanterm.c:83-114 | the terminal as flanterm_fb_init leaves it |
| PciBus.ScannedAll | src/bus/pci.c:318-324 | if every scanned bus is done, every bus reachable over bridges has been scanned |
| PciBus.Complete | src/bus/pci.c:280-334 | below the capacity the table is exactly the set of present functions on reachable buses, each once; in general its length is that number cut to the capacity |
| PciBus.EnterSound | src/bus/pci.c:299-314 | entering a present function that is not in the table keeps the table sound |
| PciBus.AddressFields | src/bus/pci.c:141-151 | bus, device, function and register of a configuration access are read back from the address word |
| PciBus.Pci.ReadByte | src/bus/pci.c:216-220 | a byte of the configuration space, cut out of the aligned dword the ports deliver |
| PciBus.Pci.ReadHeader | src/bus/pci.c:299-314 | the fields of a table entry are bytes 0x00-0x03, 0x09-0x0B and 0x0E of the configuration space |
| PciBus.Pci.ScanBus | src/bus/pci.c:280-327 | scan_bus terminates, never enters a bus twice, stays within the table and, unless the table fills up, leaves every newly scanned bus done |
| PciBus.Pci.ScanSlot | src/bus/pci.c:285-325 | all functions of a slot are handled, one or eight by the multifunction bit of function 0 |
| PciBus.Pci.ScanFunction | src/bus/pci.c:292-324 | a present function is entered with its configuration bytes, and the bus in byte 0x19 of a bridge followed |
| PciBus.Pci.Init | src/bus/pci.c:329-334 | pci_init finds exactly the functions whose vendor bytes are not all ones on the buses reachable over byte 0x19 of bridges, each once, up to 256 |
| Ext2.ReadableIs | src/fs/ext2.c:289-302 | the number of bytes read is the longest prefix of the request without hole, unreadable block or block index from 12 on |
| Ext2.FileRead | src/fs/ext2.c:282-304 | reads exactly that prefix, in block-sized pieces, and touches nothing else of the buffer |
| Ext2.ReadsStored | src/fs/ext2.c:289-302 | a file of up to twelve blocks reads back the bytes that block table and device hold for it |
| Ext2.BehindDirect | src/fs/ext2.c:293-293 | a byte behind the twelfth block cannot be read, whatever the block table says |
| Ext2.AdjacentReads | src/fs/ext2.c:282-304 | two adjacent full reads are one larger read |
| Ext2.WantedInside | src/fs/ext2.c:286-287 | the request is cut to the file if and only if offset + len does not wrap around |
| Ustar.OctToSize | src/fs/ustar.c:47-54 | the value of the leading octal digits |
| Ustar.OctalInverse | src/fs/ustar.c:47-54 | octal digits read back as the number they were written for |
| Ustar.HeaderFields | src/fs/ustar.c:26-45 | a written header has name, size and type where the reader looks |
| Ustar.ScanRecord | src/fs/ustar.c:101-131 | the reader's step over one written record finds its fields and its data |
| Ustar.ScanArchive | src/fs/ustar.c:101-132 | reading an archive from its first header on lists its regular files with their offsets |
| Ustar.Mount | src/fs/ustar.c:88-134 | the list built is the reverse of what is in the image; the scan ends on any image |
| Ustar.MountInvertsWriter | src/fs/ustar.c:88-134 | mounting what a ustar writer wrote lists its regular files, the last one first, names stripped of / or ./ |
| Ustar.Open | src/fs/ustar.c:71-87 | returns the first entry of the list with that name |
| Ustar.OpenedNames | src/fs/ustar.c:74-119 | a path n or /n, for a plain n, opens exactly the records of type 0 or NUL written as n, /n or ./n |
| Ustar.OpenFindsLast | src/fs/ustar.c:71-87 | a name finds the last regular file written under it, or nothing if there is none |
| Ustar.DataAt | src/fs/ustar.c:117-119 | the bytes behind the header of a record are its data |
| Ustar.FileRead | src/fs/ustar.c:58-65 | copies exactly the bytes it counts, and touches nothing else of the buffer; at or past the end of the file nothing |
| Ustar.CutWhenSumFits | src/fs/ustar.c:61-62 | the request is cut at the end of the file if and only if off + len does not wrap around |
| Ustar.ReadNamed | src/fs/ustar.c:58-134 | mounting an archive, opening a path and reading delivers the requested slice of the data last written under that name, or finds no file exactly when there is none |
| Numbers.DigitsRead | src/lib/printf.c:306-327 | the digits produced read back as the value |
| Numbers.DigitsCase | src/lib/printf.c:306-327 | a digit is 0-9, or a letter in base 16 only, upper-case exactly when asked for |
| Numbers.TextParts | src/lib/printf.c:227-277 | a conversion prints blanks, sign, zeros, digits and blanks, in these numbers |
| Numbers.ReadBack | src/lib/printf.c:227-327 | the text reads back as the value if and only if zero padding beyond 32 columns has not pushed a minus sign out |
| Numbers.TextLength | src/lib/printf.c:227-327 | its length is max(width, natural) if and only if no zero padding beyond 32 columns is asked for |
| Numbers.AnyWord | src/lib/printf.c:306-327 | all of this applies to every 64-bit value in octal, decimal and hexadecimal |
| Printf.Sink.Put | src/lib/printf.c:133-138 | the buffer holds the first maxlen characters of everything put |
| Printf.Sink.Terminate | src/lib/printf.c:849-853 | NUL behind the text or in the last place; the untruncated length is returned |
| Printf.Sink.OutRev | src/lib/printf.c:199-223 | the buffer backwards in a field of blanks |
| Printf.Sink.PutNumber | src/lib/printf.c:281-327 | the digit loop and _ntoa_format print the text of the conversion |
| Printf.FormatNumber | src/lib/printf.c:227-277 | zero padding, '#' prefix and sign, within 32 characters |
| Printf.Prefix | src/lib/printf.c:242-263 | the '#' branch, removal of padding zeros included |
| Format.ReadSpec | src/lib/printf.c:605-685 | flags, width, precision and length of a specification |
| Format.PutInteger | src/lib/printf.c:683-756 | an integer conversion prints the low bits of its argument that its length keeps, in the base of its character |
| Format.PutConversion | src/lib/printf.c:688-846 | each conversion prints its text and consumes its argument |
| Format.Vsnprintf | src/lib/printf.c:577-854 | the buffer receives the first n - 1 characters of the unlimited output and NUL, and the length of the unlimited output is returned, for any n |
| Format.PrintedReadsBack | src/lib/printf.c:577-854 | what one conversion prints reads back, in base 8 for o, 10 for d, i and u and 16 for x and X, as the C conversion of its argument's low bits (8, 16, 32 or 64), if and only if no minus sign was lost |
| Format.PrintedCase | src/lib/printf.c:705-708 | %x prints none of A..F and %X none of a..f |
| Format.PrintedLength | src/lib/printf.c:577-854 | its length in that base, which Vsnprintf returns, is max(width, natural) if and only if no zero padding beyond 32 columns is asked for |

## Left out

- TLB invalidation, CR3 changes and real concurrency; `get_cpu_id` is 0 throughout, so one CPU's magazine is modelled.
- Bytes inside a word: memory is words, so the memset of a frame and the 16- and 32-bit header fields of slab pages and heap blocks are stores of whole words.
- Multiboot tags are parsed values; walking the tag bytes is not modelled.
- Log messages, terminal callbacks, the bump allocator, pixel plotting, rotation, canvas and fonts.
- The character tables: the CP437 glyph and the width of a code point are parameters of the terminal. A negative width wraps around to a 64-bit count as in the code.
- PCI BAR probing and sizing, MMIO mapping, driver matching; BARs are not part of a table entry.
- ext2 mounting, inode location, directories and path resolution: short arithmetic and byte comparisons.
- Allocation failure inside `ustar_mount` and `ustar_open`, and names that are not NUL-terminated in their field.
- printf's floating point conversions, the output functions other than the bounded buffer, and the cast of the returned length to int. Negating the most negative value, undefined in C, gives its magnitude here.
- Device drivers, schedulers, the VFS registries and string helpers: they would add only easy members.
- Alloc.Kalloc.Kmalloc: asks that a request beyond 2048 bytes fits the heap window, because past its end the code would map over other PML4 slots, and that its page count does not wrap around to 0, where the code faults (Alloc.Kalloc.NoPagesFault).
- Alloc.Kalloc.Kfree: reads the page count once, because re-reading it through the unmapped header page would fault.
- FbTerm.FbTerm.Flush: an assignment to `displayed` stands for drawing a character; the flush callback is left out.
- PagingLaws.HugePathCorrupts: 1 GiB entries on the path are left out; the boot tables have none.
- Flanterm.Terminal.SendSequence: a [ as the first byte behind ESC [, with which the code discards the byte after it, is left out.
- Flanterm.Terminal.PrintPage: asks for rows <= cols, without which it is false, and for printable ASCII and newlines.
- Format.PrintedReadsBack: conversions in base 2 are left out because 32 characters do not hold every 64-bit value, and '#' because it removes digits (src/lib/printf.c:244).
- Format.Vsnprintf: asks that the arguments fit the format and that the format does not end inside a specification, where the code reads past its end.
