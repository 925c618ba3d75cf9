# experimental-os kernel core in Dafny

A Dafny model of the sequential core of experimental-os, a hobby i386 kernel. It has two kernel trees: `src/` (the current kernel) and `kern/` (an older one). The ramdisk host tools are modelled too. Each modelled C file becomes one module, in a file of the same name. What the file changes in place becomes a class with `modifies` frames. What it only computes becomes functions, with lemmas that state what they promise. The model covers:

- **Physical memory and paging** (`paging_h`, `paging_c`, `kern_memory`, `memory`):
  - page-table index arithmetic and rounding;
  - the first-fit frame allocator over an availability array;
  - the reference-counted LIFO free list of the `kern` tree;
  - the boot-time bump allocators;
  - two-level page-directory lookup and mapping over a word-addressed physical memory.
- **Kernel heap** (`kheap`): the free-interval list (kept in insertion order: a new interval that touches no node goes to the head), carving, defragmentation, and `kmalloc`/`kfree` with magic-tagged headers. Total free bytes are proved conserved.
- **Processes** (`process`, `syscall`, `irq`, `int_h`):
  - the 64-slot process table with its circular `next` ring and the round-robin scheduler;
  - `process_create`, `region_alloc` and the ELF `PT_LOAD` rules of `load_elf`;
  - system-call dispatch, interrupt routing and the exception-name table.
- **Descriptor tables and the PIC** (`descriptor_tables`, `kern_descriptor_tables`, `pic`): GDT and IDT bit packing (Intel SDM Vol. 3A, sections 3.4.5 and 6.11), and the 8259A end-of-interrupt rule. Port writes are a log.
- **Input** (`ps2_keyboard`, `kern_keyboard`, `ring`, `scancode`, `read_string`, `mouse`):
  - the PS/2 set-1 scancode state machines and key maps;
  - the bounded FIFO ring buffers;
  - the line editor;
  - the three-byte mouse packet assembler.
- **FAT16** (`fat16_h`, `fat16`, `fat16_vfs`, `ramdisk_fat16`, `mkfat16`, `ramdisk`):
  - BPB validation and region offsets;
  - directory walks and 8.3 name comparison (through klibc's `strcmp` as written);
  - path resolution and reading along the cluster chain;
  - the host-side copies;
  - the bounds-checked ramdisk store.
- **Text** (`kprintf`, `kern_kprintf`, `tty`, `monitor`, `klibc_string`, `cmos`, `ide`): the two printf engines, the 80x25 text terminal, argument splitting, the klibc string functions, BCD decoding and the ATA model-string fix-up.
- **Graphics buffers** (`compositor`, `framebuffer`): the window draw list, colour packing, and clipped pixel copies.

Fixed-width C integers are `int` subset types (`u8`, `u16`, `u32` in `Common`). Where the width matters, wrap-around is written out (`Wrap32`, `ToI32`). Bit masks and shifts are written as `%` and `/` by powers of two, and an `|` of disjoint bits is written as `+`. A `kassert` or `panic` is either a precondition or an explicit failure outcome (`Panicked`, `Halt`). Hardware reads, such as port bytes and key polls, are parameters.

## Model

| member | source | states |
|---|---|---|
| PageArith.Pdx | src/kernel/arch/i386/paging.h:40 | the page-directory index of a linear address is below 1024 |
| PageArith.Ptx | src/kernel/arch/i386/paging.h:41 | the page-table index of a linear address is below 1024 |
| PageArith.PgOff | src/kernel/arch/i386/paging.h:42 | the page offset is below 4096 |
| PageArith.PteAddr | src/kernel/arch/i386/paging.h:43 | PTE_ADDR gives a 4096-aligned value at most the entry and within 4096 of it, i.e. it clears exactly the low 12 bits |
| PageArith.AddressSplit | src/kernel/arch/i386/paging.h:40-42 | PDX·2^22 + PTX·2^12 + PGOFF reassembles every 32-bit linear address |
| PageArith.PteAddrOfEntry | src/kernel/arch/i386/paging.h:43 | for a page-aligned frame and flags below 4096, PTE_ADDR(frame, flags) gives back the frame and the low bits are the flags |
| PageArith.RoundDown | src/kernel/arch/i386/paging.h:126-132 | ROUNDDOWN is a multiple of m, at most v and more than v − m |
| PageArith.RoundUpProperties | src/kernel/arch/i386/paging.h:118-124 | without uint32 overflow ROUNDUP is a multiple of m, at least v, below v + m, and equals v iff v is a multiple |
| PageArith.RoundDownLeRoundUp | src/kernel/arch/i386/paging.h:118-132 | ROUNDDOWN(v) ≤ v ≤ ROUNDUP(v) |
| PageArith.RoundDownIdempotent | src/kernel/arch/i386/paging.h:126-132 | ROUNDDOWN applied twice equals ROUNDDOWN once |
| PageArith.RoundUpIdempotent | src/kernel/arch/i386/paging.h:118-124 | ROUNDUP applied twice equals ROUNDUP once (no overflow) |
| PageArith.WrapAligned | src/kernel/arch/i386/paging.h:118-124 | stepping an aligned address by whole pages with uint32 wrap-around stays page-aligned and below the last page |
| PageArith.PageIndexToPa | src/kernel/arch/i386/paging.h:138-141 | pageindex2pa yields a page-aligned address |
| PageArith.PaToPageIndex | src/kernel/arch/i386/paging.h:147-150 | pa2pageindex yields a frame number below 2^20 |
| PageArith.PageIndexRoundTrip | src/kernel/arch/i386/paging.h:138-150 | pa2pageindex(pageindex2pa(i)) == i for every i < 2^20 |
| PageArith.PaRoundTrip | src/kernel/arch/i386/paging.h:138-150 | pageindex2pa(pa2pageindex(pa)) == ROUNDDOWN(pa, 4096) |
| Paging.MarkRun | src/kernel/arch/i386/paging.c:98-99 | marking a run keeps the number of frames |
| Paging.CountAvailable | src/kernel/arch/i386/paging.c:87-105 | the number of available frames never exceeds the number of frames |
| Paging.FirstFitFromSound | src/kernel/arch/i386/paging.c:89-103 | the search from frame i finds the lowest free run at or after i, or reports none exists there |
| Paging.FirstFitSound | src/kernel/arch/i386/paging.c:87-105 | page_alloc's search result is the lowest index starting a free run of count frames, and it is absent iff no such run exists |
| Paging.AllocationsDisjoint | src/kernel/arch/i386/paging.c:87-103 | two page_alloc calls with no page_free in between return disjoint runs |
| Paging.CountAvailablePositive | src/kernel/arch/i386/paging.c:87-105 | with at least one available frame, page_alloc(1) succeeds |
| Paging.CountAvailableWitness | src/kernel/arch/i386/paging.c:87-105 | a positive count of available frames has an available frame |
| Paging.CountAfterMarkOne | src/kernel/arch/i386/paging.c:98-99 | allocating one available frame lowers the available count by exactly one |
| Paging.FrameWords | src/kernel/arch/i386/paging.c:139-141 | a page-aligned table address holds 1024 words inside physical memory |
| Paging.Addr2Entry | src/kernel/arch/i386/paging.c:133-142 | pgdir_addr2entry is absent iff the directory entry lacks PG_PRESENT or has frame 0; otherwise it is word PTX(va) of the table named by the entry; it reads only |
| Paging.Addr2EntryFrame | src/kernel/arch/i386/paging.c:133-142 | the walk depends only on the directory word PDX(va) |
| Paging.EntryList | src/kernel/arch/i386/paging.c:155-156 | there is one walked entry per page of the mapping |
| Paging.WriteEntries | src/kernel/arch/i386/paging.c:155-158 | the entry writes keep memory's size |
| Paging.MapWrites | src/kernel/arch/i386/paging.c:155-158 | the state after the first n loop iterations of pgdir_map keeps memory's size |
| Paging.WriteEntriesOther | src/kernel/arch/i386/paging.c:155-158 | a word that is no page's entry keeps its value |
| Paging.WriteEntriesAt | src/kernel/arch/i386/paging.c:157 | with distinct entries, page k's entry holds (pa + k·4096) \| permissions |
| Paging.WriteEntriesKeepsDirectory | src/kernel/arch/i386/paging.c:133-158 | writes that avoid the directory leave every later walk unchanged |
| Paging.MapKeepsDirectory | src/kernel/arch/i386/paging.c:155-158 | pgdir_map never changes what pgdir_addr2entry finds |
| Paging.OffsetInPage | src/kernel/arch/i386/paging.h:40-42 | adding an in-page offset to an aligned address keeps PDX and PTX and sets PGOFF |
| Paging.MapTranslates | src/kernel/arch/i386/paging.c:152-158 | after pgdir_map with a present permission, byte off of page k of va translates to byte off of frame pa + k·4096 |
| Paging.MapLeavesOthers | src/kernel/arch/i386/paging.c:152-158 | pgdir_map writes no word other than the entries of the mapped pages |
| Paging.PhysicalPages.constructor | src/kernel/arch/i386/paging.c:10-13 | the frame table of npages entries, physical memory and the kernel directory address |
| Paging.PhysicalPages.DetectAvailablePages | src/kernel/arch/i386/paging.c:23-35 | frames below boot_alloc(0)/4096 become reserved and unavailable, all others unreserved and available (a negative truncated quotient leaves the table as it was) |
| Paging.PhysicalPages.PageAlloc | src/kernel/arch/i386/paging.c:87-106 | returns the first free run of count frames and marks exactly those unavailable, or returns NULL with nothing changed |
| Paging.PhysicalPages.PageFree | src/kernel/arch/i386/paging.c:108-112 | requires an unreserved frame (kassert); sets only that frame available, without checking it was allocated |
| Paging.PhysicalPages.Page2Addr | src/kernel/arch/i386/paging.c:161-163 | page2addr gives the address that pa2pageindex maps back to the frame |
| Paging.PhysicalPages.KernelPgdir | src/kernel/arch/i386/paging.c:78-85 | paging_kernel_pgdir is NULL exactly when entry 0 of the kernel directory is 0, else the kernel directory |
| Paging.PhysicalPages.PgdirCreate | src/kernel/arch/i386/paging.c:114-131 | the directory is the first free frame; entries below KERNEL_END/4096 are copied from the kernel directory, all others are 0; one frame is taken and leaked per higher entry; nothing else in memory changes |
| Paging.PhysicalPages.CopyKernelEntries | src/kernel/arch/i386/paging.c:120-123 | entries below the split are the kernel directory's; the rest of memory is unchanged |
| Paging.PhysicalPages.ZeroAndLeak | src/kernel/arch/i386/paging.c:124-128 | entries from the split on are 0 and one available frame is consumed per entry |
| Paging.DirectoryBlocks | src/kernel/arch/i386/paging.c:118-122 | two page-aligned directories coincide or do not overlap |
| Paging.PgdirMap | src/kernel/arch/i386/paging.c:144-159 | requires aligned pa and va and 12-bit permissions (kassert) and existing tables; memory afterwards is exactly the entries of va + i set to (pa + i) \| permissions for i < size step 4096 |
| Paging.PagesCount | src/kernel/arch/i386/paging.c:155 | the loop runs iteration k exactly when k·4096 < size |
| KernMemory.FrameCount | kern/arch/i686/memory.c:15-16 | 64 MiB of memory is 16384 frames, and the reserved 11 MiB prefix is 2816 frames |
| KernMemory.Head | kern/arch/i686/memory.c:123-125 | the list head is NULL iff the list is empty, else its first frame |
| KernMemory.Descending | kern/arch/i686/memory.c:107-113 | the list built by pushing frames reserved..npages−1 in order has one entry per such frame |
| KernMemory.DescendingExactlyOnce | kern/arch/i686/memory.c:107-113 | every frame at or above the reserved prefix is on the built list, exactly once, and no other frame is |
| KernMemory.DescendingBelow | kern/arch/i686/memory.c:108-112 | a frame not yet pushed is not on the list |
| KernMemory.DescendingStep | kern/arch/i686/memory.c:111-112 | pushing frame u onto the list of the earlier frames gives the list up to u |
| KernMemory.ChainPop | kern/arch/i686/memory.c:125-129 | popping the head leaves a well-linked free list from its nextfree, without the popped frame |
| KernMemory.ChainPush | kern/arch/i686/memory.c:143-144 | pushing a frame not on the list, reserved or not, linked to the old head, gives a well-linked list headed by it |
| KernMemory.ChainOther | kern/arch/i686/memory.c:155 | changing a frame that is not on the free list keeps the list |
| KernMemory.KernPages.constructor | kern/arch/i686/memory.c:21-25 | an empty free list over npages frame records |
| KernMemory.KernPages.DetectAvailablePages | kern/arch/i686/memory.c:97-114 | the first 11 MiB / 4096 frames are reserved with references 0 and not on the free list; every other frame is on the free list exactly once, last frame first |
| KernMemory.KernPages.PageAlloc | kern/arch/i686/memory.c:121-132 | pops the free-list head, NULL only when empty; the frame gets references 0 and nextfree NULL and leaves the list; no other frame changes |
| KernMemory.KernPages.PageFree | kern/arch/i686/memory.c:139-145 | requires references 0 (kassert) and the frame not already on the list; pushes the frame at the head (LIFO), reserved or not, changing only its nextfree, so the next page_alloc hands it out |
| KernMemory.KernPages.Reference | kern/arch/i686/memory.c:155 | the caller's references++ on a frame off the list keeps the free list |
| KernMemory.KernPages.PgdirCreate | kern/arch/i686/memory.c:151-169 | the directory is the popped head; with create_tables entry i holds the (i+1)-th popped frame \| PG_PRESENT \| PG_USER; every popped frame's record has references 1 and nextfree NULL and every other record is unchanged; nothing else in memory changes |
| KernMemory.KernPages.FillTables | kern/arch/i686/memory.c:158-166 | 1024 frames are popped and entry i names the i-th of them, present and user; each popped frame's references goes to 1 and its nextfree to NULL, every other record is unchanged |
| KernMemory.KernPages.AllocTable | kern/arch/i686/memory.c:160-164 | one iteration pops the head frame, sets its references to 1 and nextfree to NULL, leaves every other record alone and writes only its directory entry |
| KernMemory.KernPages.PgdirMap | kern/arch/i686/memory.c:193-202 | the same alignment and 12-bit permission assertions and the same entries (pa + i) \| permissions as the newer pgdir_map |
| Memory.Blocks | src/kernel/memory/memory.c:52 | ROUNDUP(bytes, 4096)/4096 whole pages cover the request by less than a page; above 4 GiB − 4 KiB the uint32 ROUNDUP wraps to 0 pages |
| Memory.Advance | src/kernel/memory/memory.c:56 | advancing an aligned watermark keeps it page-aligned |
| Memory.FirstWatermark | src/kernel/memory/memory.c:47-51 | the first allocation starts at ROUNDUP(11 MiB, 4096), which is 11 MiB |
| Memory.AdvanceCovers | src/kernel/memory/memory.c:42-59 | without wrap-around the handed-out region ends at or below the next watermark, less than a page past it, so successive regions are disjoint and increasing; boot_alloc(0) leaves the watermark where it was |
| Memory.HugeRequestWraps | src/kernel/memory/memory.c:52 | a request above 4 GiB − 4 KiB does not advance the watermark |
| Memory.MultibootReadMemory | src/kernel/memory/memory.c:83-86 | the result is 1024·(mem_lower + mem_upper) when that fits in 32 bits, and always a multiple of 1024 |
| Memory.ReadMemoryWraps | src/kernel/memory/memory.c:85 | the uint32 product keeps only the low 22 bits of the sum |
| Memory.BootMemory.constructor | src/kernel/memory/memory.c:45-48 | base_memory and the allocator's nextfree start at 0 |
| Memory.BootMemory.SetTotal | src/kernel/memory/memory.c:61-78 | memory_get_total (the field baseMemory) afterwards returns the value last set |
| Memory.BootMemory.BootAlloc | src/kernel/memory/memory.c:45-59 | returns the current watermark, page-aligned, and advances it by whole pages; requires (kassert) the new end within memory_get_total() |
| KHeap.FreeNonNegative | src/kernel/memory/kheap.c:24-45 | the free total of forward intervals is not negative |
| KHeap.FreeUpdate | src/kernel/memory/kheap.c:30-36 | growing or shrinking one interval in place changes the free total by exactly its change in size |
| KHeap.FreeAppend | src/kernel/memory/kheap.c:40-44 | the free total of two lists joined is the sum of their totals |
| KHeap.FreeRemove | src/kernel/memory/kheap.c:67-71 | unlinking an interval takes exactly its size off the free total |
| KHeap.MergeIndex | src/kernel/memory/kheap.c:28-39 | the node interval_insert merges into is the first one the new interval touches at either end; absent when none does |
| KHeap.InsertFree | src/kernel/memory/kheap.c:24-45 | interval_insert keeps every interval forward and increases the free total by exactly end − from |
| KHeap.FitIndex | src/kernel/memory/kheap.c:60-76 | the node interval_alloc stops at is the first one that can serve the request; absent when none can |
| KHeap.ScanTakes | src/kernel/memory/kheap.c:60-77 | with the signed carve test a scan hands out a block inside one free interval and removes at least the request (at most the request plus a node header) from the free total; a failed scan changes nothing |
| KHeap.CarveTakes | src/kernel/memory/kheap.c:63-65 | carving takes exactly the request off the interval's end and returns the new end, inside the old interval |
| KHeap.UnlinkTakes | src/kernel/memory/kheap.c:66-72 | unlinking a node that fits returns its start, inside the old list, and takes its bytes off the free total |
| KHeap.AvailableIsSize | src/kernel/memory/kheap.c:61 | for a forward interval the 32-bit difference end − from is its size |
| KHeap.RemoveWellFormed | src/kernel/memory/kheap.c:67-71 | unlinking keeps every remaining interval forward |
| KHeap.CarveWrapsBelowStart | src/kernel/memory/kheap.c:63 | as written, the unsigned test carves 108 bytes from an 8-byte interval and leaves it ending 100 bytes below its start; the signed test refuses it |
| KHeap.AllocTakes | src/kernel/memory/kheap.c:55-84 | the corrected interval_alloc keeps intervals forward, leaves the free total unchanged when it returns NULL, and otherwise removes between the request and the request plus a node header |
| KHeap.RetryNeverFires | src/kernel/memory/kheap.c:59-80 | as written the running total stays 0 and two adjacent intervals of 300 bytes cannot serve 250 bytes; with the real total, defragmenting merges them and the block at 50 is carved |
| KHeap.MergeStep | src/kernel/memory/kheap.c:106-114 | one comparison of the merging pass keeps the list's length |
| KHeap.Absorb | src/kernel/memory/kheap.c:107-113 | absorbing one interval into another keeps the list's length |
| KHeap.InnerPass | src/kernel/memory/kheap.c:104-116 | the inner loop keeps the list's length |
| KHeap.OuterPass | src/kernel/memory/kheap.c:103-119 | the merging pass keeps the list's length |
| KHeap.MergeStepFree | src/kernel/memory/kheap.c:106-114 | one merge comparison keeps intervals forward and the free total unchanged |
| KHeap.AbsorbFree | src/kernel/memory/kheap.c:106-109 | extending one interval over an adjacent one and emptying it keeps the free total |
| KHeap.InnerPassFree | src/kernel/memory/kheap.c:104-116 | the inner loop keeps the free total |
| KHeap.OuterPassFree | src/kernel/memory/kheap.c:103-119 | the whole merging pass keeps the free total |
| KHeap.NonEmpty | src/kernel/memory/kheap.c:121-133 | the intended unlinking pass leaves no interval with from == end |
| KHeap.NonEmptyFree | src/kernel/memory/kheap.c:121-133 | the unlinking pass keeps the free total, drops only intervals with from == end, and adds nothing |
| KHeap.SweepKeepsSecondEmpty | src/kernel/memory/kheap.c:123-132 | as written, after a live interval only the first of two emptied intervals is unlinked, because previous advances onto the unlinked node |
| KHeap.DefragmentFree | src/kernel/memory/kheap.c:90-134 | the corrected interval_defragment keeps the free total and leaves no empty interval |
| KHeap.HeaderArith | src/kernel/memory/kheap.c:155-166 | stepping past the 8-byte header and back returns the header address |
| KHeap.InsertNodeIntervals | src/kernel/memory/kheap.c:24-45 | on nodes that carry their struct's address, interval_insert (as written or corrected) leaves exactly the intervals of the interval-list model |
| KHeap.ScanNodesIntervals | src/kernel/memory/kheap.c:60-77 | on nodes, one corrected scan hands out the same block and leaves the same intervals as the interval-list model |
| KHeap.InsertKeepsNodesAtStart | src/kernel/memory/kheap.c:24-45 | with the corrected merge down (the struct moves to the new start), every node's struct stays at the start of its interval |
| KHeap.CarveClearsNode | src/kernel/memory/kheap.c:63-65 | while every struct sits at the start of its interval, a scan keeps it so, and the block carved off the first fitting node never covers that node's struct |
| KHeap.NodeHandedOut | src/kernel/memory/kheap.c:30-31 | as written, after kmalloc_init(H, 1000), kmalloc(100), kmalloc(200) and kfree of both, kmalloc(150) returns the block [H+842, H+1000) holding the struct of the node it stays linked through; with the struct moved to the new start the block is clear of it |
| KHeap.NodeWritten | src/kernel/memory/kheap.c:40-43 | when no node merges, the new head node is written at from, so from then reads as a header whose magic is from and whose size is end; every other address reads as before, and a merge changes nothing |
| KHeap.DoubleFreePanics | src/kernel/memory/kheap.c:163-168 | after kmalloc_init(H, 1000), p = kmalloc(16) and kmalloc(16), kfree(p) pushes a new node over p's header, so the magic a second kfree(p) checks is gone and the kassert fails |
| KHeap.KernelHeap.constructor | src/kernel/memory/kheap.c:8 | an empty free list and a kfree counter at 0 |
| KHeap.KernelHeap.KmallocInit | src/kernel/memory/kheap.c:15-18 | the whole region is inserted, the free total grows by its size, and the node written at freespace shows in the headers as NodeWritten says |
| KHeap.KernelHeap.IntervalInsert | src/kernel/memory/kheap.c:24-45 | merges into the first node whose from is the new end (extending it down) or whose end is the new from (extending it up), else prepends a new node written at from, which overwrites what read as a header there (NodeWritten); the free total grows by end − from |
| KHeap.KernelHeap.IntervalAlloc | src/kernel/memory/kheap.c:55-84 | the outcome is the corrected allocation: carve from the end of the first node with more than request + header bytes, or unlink the first node with at least the request, else defragment once and retry, else NULL |
| KHeap.KernelHeap.TakeFrom | src/kernel/memory/kheap.c:63-72 | with the corrected (signed) carve test, at the first fitting node: carve and return the new end, or unlink and return its from; the result is one step of the corrected scan |
| KHeap.KernelHeap.IntervalDefragment | src/kernel/memory/kheap.c:90-134 | corrected (the second pass unlinks every emptied node): the list becomes the merged list without emptied nodes; the free total is unchanged and no empty interval is left |
| KHeap.KernelHeap.MergePass | src/kernel/memory/kheap.c:103-119 | the first pass compares every node with every node in list order |
| KHeap.KernelHeap.Kmalloc | src/kernel/memory/kheap.c:144-156 | over the corrected interval_alloc: the list becomes what the allocation of n + 8 bytes with defragmentation leaves, and NULL comes back exactly when that allocation finds no block or the block at address 0; otherwise the header is that block, recorded with magic 0xa1b2c3d4 and size n just before the returned address, and the free total drops by at least n + 8; on NULL no header is written |
| KHeap.KernelHeap.Kfree | src/kernel/memory/kheap.c:163-175 | requires (kassert) the magic; inserts exactly size + header bytes starting at the header into the free list, so that a pushed node overwrites the header and a second kfree of the block panics (NodeWritten), and on every 11th call runs the corrected defragmentation, resetting the counter |
| Process.RegionCovers | src/kernel/process.c:18-34 | the intended region_alloc maps the page of every byte of [vaddr, vaddr + count), and only page-aligned pages |
| Process.RegionMissesLastPage | src/kernel/process.c:20-21 | as written, region_alloc(0x1FFF, 2) maps only page 0x1000 although byte 0x2000 is in the region; the intended length maps both pages |
| Process.ProgHeaders | src/kernel/process.c:49-50 | the program-header array has progEntries headers, each within the image |
| Process.Range | src/kernel/process.c:57-72 | the address set [lo, lo + n) holds exactly those addresses |
| Process.LoadAllStep | src/kernel/process.c:50-74 | loading one more program header is one more segment load |
| Process.LoadAllContents | src/kernel/process.c:50-74 | after loading disjoint segments, bytes [vAddr, vAddr + fileSize) of a LOAD segment are the image bytes at dataOffset, bytes up to vAddr + memSize are zero, and every byte outside all LOAD segments is unchanged; other segment types write nothing |
| Process.LoadElf | src/kernel/process.c:42-77 | returns 0 and writes nothing when the magic is not ELF_MAGIC; otherwise loads every LOAD header in order and returns the header's entry |
| Process.FirstUnused | src/kernel/process.c:89-99 | the first UNUSED slot at or after i, absent when every later slot is in use |
| Process.DeadCountFree | src/kernel/process.c:159-161 | process_free on a DEAD slot lowers the number of DEAD slots by one |
| Process.SaveLoadRoundTrip | src/kernel/process.c:240-259 | saving the frame's registers and loading them back restores the frame, and loading a register set then saving it gives the set back |
| Process.SkipDead | src/kernel/process.c:226-230 | the scheduler's loop ends at a slot that is not DEAD, keeps the ring, and changes other slots only by freeing DEAD ones |
| Process.FreeDeadStep | src/kernel/process.c:226-230 | freeing one DEAD slot keeps the ring and the pid bound and is one step of the loop |
| Process.ScheduleStates | src/kernel/process.c:216-261 | with one process the switch changes nothing; otherwise the new process is RUNNING and follows the old one, the old one becomes READY only if it was RUNNING, its registers are the frame's, the frame gets the new process's registers, and every other slot is unchanged or a freed DEAD slot |
| Process.SwitchBackRestores | src/kernel/process.c:240-261 | a process switched out and straight back in gets back exactly the frame it left |
| Process.FrameInsideStack | src/kernel/process.c:123-136 | with the intended top word, the five words pushed for iret lie inside the stack block |
| Process.FrameOverrunsStack | src/kernel/process.c:123-127 | as written, the eflags word starts at the block's last byte, so it ends three bytes past the block |
| Process.NameBlockShort | src/kernel/process.c:108-112 | as written, of the bytes strcpy writes at the name block exactly one lies outside the block: the terminating NUL at name + strlen(name) |
| Process.NameBlockFits | src/kernel/process.c:108-112 | the intended block of strlen + 1 bytes, the size process_create stamps in its header, holds every byte strcpy writes |
| Process.BlockEnd | src/kernel/process.c:117-123 | a kmalloc block whose header fits below 4 GiB does not wrap either |
| Process.ProcessTable.constructor | src/kernel/process.c:80-81 | the zero-initialised table of 64 UNUSED slots, no running process, pid counter 0 |
| Process.ProcessTable.GetNextPid | src/kernel/process.c:83-87 | returns the counter and increments it |
| Process.ProcessTable.FindFreeProcess | src/kernel/process.c:89-99 | returns the first UNUSED slot, or NULL when all 64 are in use |
| Process.ProcessTable.ProcessSetDead | src/kernel/process.c:144-147 | only that slot's state changes, to DEAD |
| Process.ProcessTable.SchedulerInit | src/kernel/process.c:196-213 | the first free slot becomes the one process: RUNNING, its own successor, with the kernel directory, the next pid and the name "Monitor", and it is running_proc |
| Process.ProcessTable.ProcessCreate | src/kernel/process.c:101-142 | corrected (name block of strlen + 1 bytes, eflags word 4 bytes below the stack's end): -E_PROCESSLIMITREACHED iff no slot is UNUSED, changing nothing; for the first free slot, the name block is kmalloc's allocation on the free list before the call and the stack block kmalloc's allocation on the list that leaves; when the name allocation fails the slot's name is NULL, the list is what the failed allocation leaves and nothing else changes; when the stack allocation fails the slot is named, READY, with the next pid and outside the ring, and the name block is kfree'd into the list the failed allocation leaves; on success the slot is READY with a pid above every other, its stack holds eflags 0x206, cs 0x8, eip = entry, err_code 0 and int_no 0 above esp = ebp, it is linked right after running_proc, no other slot changes, and the heap holds the name and stack headers at the two allocated blocks and the list the two allocations leave |
| Process.ProcessTable.CreateIn | src/kernel/process.c:108-141 | corrected as ProcessCreate: when the name allocation on the free list fails, -E_OUTOFMEMORY with the name NULL and nothing else changed; when the stack allocation on the list that leaves fails, -E_OUTOFMEMORY with the pid consumed, the slot READY outside the ring and the name kfree'd; the kassert failure with both blocks taken; otherwise the created, linked slot, every other slot but running_proc unchanged |
| Process.ProcessTable.StartStack | src/kernel/process.c:117-141 | with the corrected stack top, against the state before process_create and the name allocation: the stack block is kmalloc's allocation on the list the name block left; when it fails the name block is kfree'd (the list is that insert, defragmented on kfree's 11th call) and the slot stays named, READY, with its pid and outside the ring; a block at or above 128 MiB is the kassert failure with both blocks taken and the slot unlinked; otherwise the process is started as Launch states |
| Process.ProcessTable.ReleaseName | src/kernel/process.c:118-121 | when the stack allocation gave no block, kfree of the name inserts the name block (strlen + 1 + 8 bytes from its header) into the list that allocation left, overwriting the name header when it pushes a new node, and advances kfree's counter; the slot stays named and outside the ring |
| Process.ProcessTable.PlaceStack | src/kernel/process.c:122-141 | a stack block at or above 128 MiB is the kassert failure with both blocks and headers taken and the list the stack allocation left; below it the process is started as Launch states |
| Process.ProcessTable.Launch | src/kernel/process.c:128-141 | with the corrected stack top: the five iret words sit above esp = ebp, the slot follows running_proc in the ring, no other slot but running_proc changes, its pid is above every other, and the heap holds the name and stack headers at the blocks of the two allocations with the list the stack allocation left |
| Process.ProcessTable.SeedStack | src/kernel/process.c:123-136 | the five iret words are written below the stack top and esp = ebp = top − 16 |
| Process.ProcessTable.LinkAfterRunning | src/kernel/process.c:138-139 | the new slot takes running_proc's successor and becomes running_proc's successor |
| Process.ProcessTable.Scheduler | src/kernel/process.c:216-265 | the table, running_proc and frame become those of the round-robin switch, and the directory is reloaded only when the two processes' directories differ |
| Process.ProcessTable.SwitchTo | src/kernel/process.c:232-264 | links old to new, demotes old only if RUNNING, marks new RUNNING, saves and loads the registers, reloads the directory only if it differs |
| Process.ProcessTable.FreeDeadFrom | src/kernel/process.c:226-230 | frees every DEAD slot from n on along the ring and stops at the first live one |
| Process.ProcessTable.Execv | src/kernel/process.c:168-194 | loads the image through the new directory and restores the old one; E_NOTELF exactly when the magic is wrong or the entry is 0, changing no slot, pid or heap; otherwise process_create's corrected outcome for entry = e_entry and the given directory, -E_PROCESSLIMITREACHED exactly when no slot is free |
| Syscall.UserBuffer | src/kernel/syscall.c:26-27 | the buffer has `length` bytes, byte i being user memory at address + i |
| Syscall.Dispatch | src/kernel/syscall.c:34-46 | call 1 marks the running process DEAD and reports its pid and exit code, call 2 prints the buffer up to its first NUL and changes no slot, every other call changes nothing; the result is always 0 |
| Syscall.Exit | src/kernel/syscall.c:10-17 | only the running slot changes, to DEAD, and the exit event carries its pid and the code |
| Syscall.Write | src/kernel/syscall.c:19-32 | prints the C string of the copied buffer and returns 0 |
| Syscall.TerminatorIgnored | src/kernel/syscall.c:28-29 | appending the NUL terminator does not change the printed string |
| Syscall.NoNulPrintedWhole | src/kernel/syscall.c:26-29 | a buffer with no NUL byte is printed whole |
| Irq.DropOnlyMouseBytes | src/kernel/arch/i386/irq.c:27-29 | the discard test `status & 0x1 && status & 0x20` holds exactly when bit 0 and bit 5 of the status byte are set |
| Irq.Printed | src/kernel/arch/i386/irq.c:52-59 | a system call that printed nothing adds no log entry; one that printed adds exactly its event |
| Irq.Machine.DispatchIrq | src/kernel/arch/i386/irq.c:34-65 | the timer vector ticks (wrapping at 2^32) and schedules; the keyboard vector drops a mouse byte and hands any other byte to the keyboard driver; the ATA vectors change nothing; the mouse vector runs the mouse driver; the system call vector stores 0 in eax, applies the call and schedules; any other vector logs "Unknown IRQ" with its number and error code; every other driver is unchanged |
| Irq.Machine.TimerIrq | src/kernel/arch/i386/irq.c:37-40 | the tick counter grows by one modulo 2^32 and the table and frame are the scheduler's |
| Irq.Machine.KeyboardIrq | src/kernel/arch/i386/irq.c:18-32 | a byte with the mouse bits set leaves the keyboard driver unchanged; any other byte is handled as kbd_handle_byte handles it |
| Irq.Machine.SyscallIrq | src/kernel/arch/i386/irq.c:51-61 | the frame's eax becomes the call's result 0, the call's event is logged, and the scheduler runs on the table the call left |
| IntVectors.DeviceVector | src/kernel/arch/i386/int.h:9-14 | device line n has vector 32 + n, above the exceptions, never the system call vector, and the line is recovered from the vector |
| IntVectors.VectorsDistinct | src/kernel/arch/i386/int.h:9-15 | the timer, keyboard, mouse, two ATA and system call vectors are pairwise distinct and none is below 32 |
| IntVectors.ExceptionMessage | src/kernel/arch/i386/int.h:18-55 | codes below 26 get their table name, "System Call" exactly for 0x80, "Unknown Interrupt" exactly for the others; "[Intel Reserved]" exactly for 15, 21 and 23 |
| DescriptorTables.GateFields | src/kernel/arch/i386/boot/descriptor_tables.c:36-47 | the packed descriptor gives back the whole base, the limit's low 20 bits, the flag nibble of `gran` and the access byte |
| DescriptorTables.NullSegment | src/kernel/arch/i386/boot/descriptor_tables.c:26 | descriptor 0 is all zero |
| DescriptorTables.FlatSegments | src/kernel/arch/i386/boot/descriptor_tables.c:27-30 | descriptors 1-4 are present code/data segments with base 0 and a 4 GiB limit; 1 and 2 have privilege 0, 3 and 4 privilege 3; the odd ones are executable |
| DescriptorTables.FlatGate | src/kernel/arch/i386/boot/descriptor_tables.c:36-47 | a base-0 descriptor with a full 20-bit limit and flag nibble 0xC covers bytes 0 to 0xFFFFFFFF |
| DescriptorTables.IdtGate | src/kernel/arch/i386/boot/descriptor_tables.c:131-138 | the two offset halves recombine to the handler address; selector and type are kept and the reserved byte is 0 |
| DescriptorTables.InterruptGateType | src/kernel/arch/i386/boot/descriptor_tables.c:149 | 0x8E is a present privilege-0 32-bit interrupt gate |
| DescriptorTables.Tables.GdtSetGate | src/kernel/arch/i386/boot/descriptor_tables.c:36-47 | descriptor num becomes the packed gate and no other descriptor changes |
| DescriptorTables.Tables.InitGdt | src/kernel/arch/i386/boot/descriptor_tables.c:21-33 | the GDT pointer has limit 39 and the table's address, and the five descriptors are the flat layout |
| DescriptorTables.Tables.InitIdt | src/kernel/arch/i386/boot/descriptor_tables.c:140-155 | the IDT descriptor has size 2047 and the table's address, and every vector i gets an interrupt gate to handlers[i] with selector 0x08 and type 0x8E |
| DescriptorTables.Tables.InterruptHandler | src/kernel/arch/i386/boot/descriptor_tables.c:89-126 | a vector below 32 is reported with the counter's value and its exception name, the counter grows by one, and only vector 14 halts; any other vector is dispatched and acknowledged with the counter unchanged |
| DescriptorTables.AccessBits | src/kernel/arch/i386/boot/descriptor_tables.c:27-30 | the four access bytes are present code or data segments, privilege 0 for descriptors 1 and 2 and 3 for 3 and 4, executable for the odd ones |
| DescriptorTables.BaseSplit | src/kernel/arch/i386/boot/descriptor_tables.c:38-40 | the three base fields recombine to the base |
| DescriptorTables.LimitSplit | src/kernel/arch/i386/boot/descriptor_tables.c:42-43 | the two limit fields recombine to the limit's low 20 bits |
| DescriptorTables.GranularitySplit | src/kernel/arch/i386/boot/descriptor_tables.c:43-45 | the granularity byte holds the limit's top nibble in its low half and the flag nibble in its high half |
| KernDescriptorTables.MessagesAgreeBesideSyscall | kern/include/kernel/i686/int.h:14-49 | the older exception names agree with the newer ones on every vector except 0x80, which the older table calls "Unknown Interrupt" |
| KernDescriptorTables.KernInterrupts.InitIdt | kern/arch/i686/boot/descriptor_tables.c:100-115 | every vector gets a kernel-code interrupt gate to its own stub, size 2047 at the table's address, and the controllers are remapped to start at vector 32 with their masks restored |
| KernDescriptorTables.KernInterrupts.InterruptHandler | kern/arch/i686/boot/descriptor_tables.c:72-86 | an exception is reported with the counter's value, its name, number and error code, the counter grows and nothing halts; the timer vector ticks (mod 2^32) and is acknowledged; any other vector is reported and hangs with no acknowledgement |
| KernDescriptorTables.TimerAckedAtMaster | kern/arch/i686/pic.c:54-64 | with the controllers at vector 32 the timer is acknowledged by one EOI to the master only |
| Pic.WritesTo | kern/arch/i686/pic.c:32-42 | the writes to one port never outnumber the log's writes |
| Pic.WritesToAppend | kern/arch/i686/pic.c:32-42 | the writes to a port of two logs in a row are those of the first followed by those of the second |
| Pic.WritesToBoth | kern/arch/i686/pic.c:32-39 | one initialisation step sends its master value to the master port and its slave value to the slave port, and nothing elsewhere |
| Pic.InitWritesTo | kern/arch/i686/pic.c:32-42 | what pic_init sends to any port, step by step |
| Pic.InitProgramsBoth | kern/arch/i686/pic.c:21-45 | each command port receives one ICW1 0x11; the master's data port receives offset, 0x04, 0x01 and its old mask; the slave's receives offset + 8, 0x02, 0x01 and its old mask; no other port is written |
| Pic.AckWrites | kern/arch/i686/pic.c:54-64 | nothing before pic_init; otherwise the last write is EOI to the master, preceded by EOI to the slave exactly when the vector is offset + 8 or above |
| Pic.Controllers.constructor | kern/arch/i686/pic.c:13 | irq_offset starts at 0 and nothing has been written |
| Pic.Controllers.Init | kern/arch/i686/pic.c:21-45 | an offset outside 16..240 changes nothing; otherwise the ten initialisation writes are logged and irq_offset becomes the offset |
| Pic.Controllers.Ack | kern/arch/i686/pic.c:54-64 | logs exactly the end-of-interrupt writes for the vector and keeps irq_offset |
| PS2Keyboard.MakeBreakSameKey | src/kernel/devices/ps2kb/keyboard.c:184-203 | a one-byte key's make and break codes both map to its make code, and only the make code counts as pressed |
| PS2Keyboard.ExtendedSameKey | src/kernel/devices/ps2kb/keyboard.c:195-201 | the make and break codes `0xE0 xx` both map to `xx \| 0x80`, above every one-byte key |
| PS2Keyboard.PrintPauseMissed | src/kernel/devices/ps2kb/keyboard.c:187-193 | as written, print screen pressed and released both map to 0x60 and pause to 0x61, never to KEYCODE_PRINT or KEYCODE_PAUSE |
| PS2Keyboard.PrintPauseMapped | src/kernel/devices/ps2kb/keyboard.c:178-193 | the corrected mapping gives both print screen scancodes KEYCODE_PRINT and pause KEYCODE_PAUSE |
| PS2Keyboard.CharOf | src/kernel/devices/ps2kb/keyboard.c:226-240 | NUL past the 0x55-entry maps; otherwise the shifted map exactly when one of shift and caps lock is on |
| PS2Keyboard.CapsCancelsShift | src/kernel/devices/ps2kb/keyboard.c:233-235 | toggling both shift and caps lock gives the same character, so both on is the same as both off |
| PS2Keyboard.StepReachable | src/kernel/devices/ps2kb/keyboard.c:69-127 | every byte keeps at most five bytes to skip and no escape pending while skipping |
| PS2Keyboard.DecodeAppend | src/kernel/devices/ps2kb/keyboard.c:69-127 | decoding two byte runs in a row is decoding the first and then the second from where it stopped |
| PS2Keyboard.SkipRun | src/kernel/devices/ps2kb/keyboard.c:78-81 | with n bytes to skip, n bytes produce nothing and end idle |
| PS2Keyboard.PlainByte | src/kernel/devices/ps2kb/keyboard.c:126 | a byte other than 0xE0 and 0xE1 is its own scancode |
| PS2Keyboard.PauseSequence | src/kernel/devices/ps2kb/keyboard.c:87-96 | 0xE1 and any five bytes after it give exactly the pause scancode and end idle |
| PS2Keyboard.PrintSequence | src/kernel/devices/ps2kb/keyboard.c:100-120 | with the intended skip of 2, `E0 2A` or `E0 B7` and the two bytes after them give the print pressed or released scancode and end idle |
| PS2Keyboard.PrintSwallowsNextByte | src/kernel/devices/ps2kb/keyboard.c:117 | as written, skipping 3 bytes after `E0 2A` drops the key that follows `E0 2A E0 37` |
| PS2Keyboard.PrintKeepsNextByte | src/kernel/devices/ps2kb/keyboard.c:100-126 | with the intended skip of 2, that key is reported after print screen |
| PS2Keyboard.EscapedDecode | src/kernel/devices/ps2kb/keyboard.c:100-123 | `0xE0` and any byte other than 0x2A and 0xB7 give one scancode and end idle |
| PS2Keyboard.EscapedKeyReadsAsEscape | src/kernel/devices/ps2kb/keyboard.c:122 | as written, `(0xE0 << 8) \|\| byte` is 1, so every extended key reads as a press of keycode 1 (escape) |
| PS2Keyboard.EscapedKey | src/kernel/devices/ps2kb/keyboard.c:122 | with the two bytes packed, `0xE0 xx` has keycode `xx \| 0x80` and is pressed exactly when bit 7 of xx is clear |
| PS2Keyboard.ActionFor | src/kernel/devices/ps2kb/keyboard.c:131-145 | the action carries the scancode, its keycode and the character for the current shift and caps lock |
| PS2Keyboard.CapsToggle | src/kernel/devices/ps2kb/keyboard.c:148-150 | only a caps lock press flips caps lock, and a second press restores it |
| PS2Keyboard.Keyboard.constructor | src/kernel/devices/ps2kb/keyboard.c:13-23 | no key down, caps lock off, empty queue, nothing to skip |
| PS2Keyboard.Keyboard.KeycodeToChar | src/kernel/devices/ps2kb/keyboard.c:226-240 | the character CharOf gives for the current shift key and caps lock |
| PS2Keyboard.Keyboard.HandleScancode | src/kernel/devices/ps2kb/keyboard.c:129-153 | with the corrected print and pause mapping: the key's entry becomes its pressed flag, caps lock flips on a caps lock press, and the action is queued unless 256 wait |
| PS2Keyboard.Keyboard.HandleByte | src/kernel/devices/ps2kb/keyboard.c:69-127 | one corrected decoder step (escape byte or'd in, print and pause mapped, two bytes skipped); a scancode it completes is recorded as kbd_handle_scancode records it, and otherwise the keys, caps lock and queue are unchanged |
| PS2Keyboard.Keyboard.GetKeyAction | src/kernel/devices/ps2kb/keyboard.c:50-60 | 0 and no change exactly when the queue is empty; otherwise 1, the oldest action, and the queue loses it |
| KernKeyboard.EscapeSticks | kern/lib/input/keyboard.c:100-123 | as written, once escaped, any run of bytes other than 0x2A and 0xB7 comes out as that many scancodes 1 and leaves the decoder escaped |
| KernKeyboard.ExtendedThenPlainAsWritten | kern/lib/input/keyboard.c:100-123 | as written, an extended key and a plain key give scancode 1 twice and leave the decoder escaped |
| KernKeyboard.ExtendedThenPlain | kern/lib/input/keyboard.c:69-126 | with the escape flag cleared, the same bytes give the extended scancode, then the plain one, and end idle |
| KernKeyboard.SameAsNewer | kern/lib/input/keyboard.c:69-126 | the corrected older decoder produces the same scancodes and state as the corrected newer one on every byte run |
| KernKeyboard.KernPrintSwallowsNextByte | kern/lib/input/keyboard.c:117 | as written, the byte after E0 2A E0 37 is skipped |
| KernKeyboard.KernPrintKeepsNextByte | kern/lib/input/keyboard.c:117 | corrected, print screen and then the next key are reported |
| KernKeyboard.KernEscapedKeyReadsAsEscape | kern/lib/input/keyboard.c:121 | as written, E0 xx is reported as scancode 1 |
| KernKeyboard.KernEscapedKey | kern/lib/input/keyboard.c:121 | corrected, E0 xx is the one scancode 0xE0xx and the decoder is idle again |
| KernKeyboard.KernCharOf | kern/lib/input/keyboard.c:213-223 | with caps lock on the unshifted map is used whatever shift says; with it off, the shifted map exactly while shift is down |
| KernKeyboard.KernActionFor | kern/lib/input/keyboard.c:130-137 | with the corrected print and pause mapping (recognised before bit 7 is cleared): the action carries the scancode, its keycode and that key's pressed flag |
| KernKeyboard.KernKeyboard.constructor | kern/lib/input/keyboard.c:13-23 | no key down, caps lock off, empty queue |
| KernKeyboard.KernKeyboard.KeycodeToChar | kern/lib/input/keyboard.c:213-223 | the character KernCharOf gives for the current shift key and caps lock |
| KernKeyboard.KernKeyboard.HandleScancode | kern/lib/input/keyboard.c:128-149 | with the corrected print and pause mapping: the key's entry becomes its pressed flag and the action is queued unless 256 wait; caps lock is never changed |
| KernKeyboard.KernKeyboard.HandleByte | kern/lib/input/keyboard.c:69-126 | one corrected decoder step (escape cleared after an extended key, a bitwise for the logical or, two bytes skipped after print screen); a completed scancode is recorded with the corrected print and pause mapping, otherwise keys and queue are unchanged, and caps lock never changes |
| KernKeyboard.KernKeyboard.GetKeyAction | kern/lib/input/keyboard.c:50-60 | 0 and no change exactly when the queue is empty; otherwise 1, the oldest action, and the queue loses it |
| RingBuffer.Ring.Slot | src/kernel/devices/ps2kb/keyboard.c:37 | the k-th oldest entry is in slot (from + k) mod capacity, a valid index |
| RingBuffer.Ring.SlotsDistinct | src/kernel/devices/ps2kb/keyboard.c:37 | two different queue positions never share a slot, so adding overwrites no queued entry |
| RingBuffer.Ring.constructor | src/kernel/devices/ps2kb/keyboard.c:20-23 | the zeroed queue holds nothing |
| RingBuffer.Ring.Add | src/kernel/devices/ps2kb/keyboard.c:31-42 | queued exactly when not full, the contents then gain x at the back; a full queue is left as it was |
| RingBuffer.Ring.Read | src/kernel/devices/ps2kb/keyboard.c:50-60 | nothing exactly when empty; otherwise the oldest entry, the contents lose their head and from advances modulo the capacity |
| ScancodeQueue.Empty | kern/lib/input/scancode.c:51-54 | true exactly when no scancode is queued |
| ScancodeQueue.Full | kern/lib/input/scancode.c:59-62 | true exactly when 512 scancodes are queued, and then the queue is not empty |
| ScancodeQueue.Add | kern/lib/input/scancode.c:17-27 | -E_SCANCODEQ_FULL exactly when full, changing nothing; otherwise 0 and the scancode is queued at the back |
| ScancodeQueue.Read | kern/lib/input/scancode.c:36-46 | -E_SCANCODEQ_EMPTY exactly when empty, changing nothing; otherwise 0, the oldest scancode, and the queue loses it |
| ReadString.Read | src/kernel/lib/read_string.c:14-44 | the position stays below size, a returned line is NUL-terminated at the position, the result is 0, -1 or -2, -1 only with size - 1 characters stored, 0 and -1 echo a newline last, and running out of polls consumes them all |
| ReadString.ReadEditsLine | src/kernel/lib/read_string.c:18-39 | the stored line is the reference editing of the consumed keys: every accepted character but Enter and Ctrl-C appended, backspace dropping the last one |
| ReadString.IgnoredPollsKeepLine | src/kernel/lib/read_string.c:19-20 | empty polls, releases and actions without a character leave the line unchanged |
| ReadString.BackspaceUndoes | src/kernel/lib/read_string.c:32-35 | backspace on an empty line does nothing, otherwise drops the last character, so a key followed by backspace leaves the line as it was |
| ReadString.ReadFromStep | src/kernel/lib/read_string.c:18-38 | one poll of the loop: an ignored poll moves on, a returning action stops, any other continues from the stepped editor |
| ReadString.ReadLine | src/kernel/lib/read_string.c:14-44 | the buffer, result, echo and polls consumed are those of the reference Read from an empty line |
| ReadString.NoKeys | src/kernel/lib/read_string.c:19-20 | polls with no accepted action contribute no character |
| Mouse.XDelta | src/kernel/devices/mouse.c:73-75 | the x delta is the 9-bit two's-complement value of the sign flag and the byte, in -256..255 |
| Mouse.YDelta | src/kernel/devices/mouse.c:78-80 | the y delta is the negated 9-bit value, in -255..256, because screen y grows downwards |
| Mouse.HandlePacket | src/kernel/devices/mouse.c:64-92 | a packet with an overflow bit leaves the status unchanged; otherwise the mouse is connected, the pointer stays within [0, width] x [0, height] and the buttons are the three low flag bits |
| Mouse.MoveOrStop | src/kernel/devices/mouse.c:84-87 | inside the screen the pointer moves by exactly the deltas; past an edge it stops on that edge |
| Mouse.WholePacket | src/kernel/devices/mouse.c:169-185 | three bytes whose first has the always-one bit are handled as one packet and leave the handler waiting for a first byte |
| Mouse.DropsUntilFlagged | src/kernel/devices/mouse.c:170-175 | while waiting for a first byte, bytes without the always-one bit change nothing, so the handler resynchronises |
| Mouse.MouseDriver.constructor | src/kernel/devices/mouse.c:15-17 | not initialised, nothing to skip, waiting for a first byte |
| Mouse.MouseDriver.Init | src/kernel/devices/mouse.c:101-143 | the pointer is centred, disconnected, with no button down, and the handler is enabled |
| Mouse.MouseDriver.Status | src/kernel/devices/mouse.c:145-148 | returns the current status |
| Mouse.MouseDriver.Irq | src/kernel/devices/mouse.c:150-186 | nothing changes before initialisation; a pending skip is used up; otherwise one step of the packet state machine |
| Mouse.IrqStep | src/kernel/devices/mouse.c:169-185 | one step keeps the three packet bytes |
| Mouse.Feed | src/kernel/devices/mouse.c:150-186 | a run of bytes keeps the three packet bytes |
| Fat16Layout.RecordSizes | src/kernel/filesystems/fat16/fat16.h:39-80 | the packed directory entry is 32 bytes, the boot record 36, and the two boot records together fill a 512-byte sector |
| Fat16Layout.Bytes16RoundTrip | src/kernel/filesystems/fat16/fat16.h:67-80 | a 16-bit field's little-endian bytes read back as the value, and two bytes are the encoding of the value they read as |
| Fat16Layout.Bytes32RoundTrip | src/kernel/filesystems/fat16/fat16.h:79 | the same for the 32-bit size field |
| Fat16Layout.DecodeDirEntry | src/kernel/filesystems/fat16/fat16.h:67-80 | 32 bytes decode to an entry with an 11-byte name |
| Fat16Layout.EncodeDirEntry | src/kernel/filesystems/fat16/fat16.h:67-80 | an entry with an 11-byte name packs into 32 bytes |
| Fat16Layout.DirEntryRoundTrip | src/kernel/filesystems/fat16/fat16.h:67-80 | decoding the packed bytes of an entry gives the entry back |
| Fat16Layout.DirBytesRoundTrip | src/kernel/filesystems/fat16/fat16.h:67-80 | every 32 bytes are the packing of the entry they decode to |
| Fat16Layout.TimesBytes | src/kernel/filesystems/fat16/fat16.h:72-77 | the six 16-bit time and date fields re-encode to bytes 14-25 |
| Fat16Layout.TailBytes | src/kernel/filesystems/fat16/fat16.h:78-79 | the start cluster and file size re-encode to bytes 26-31 |
| Fat16Layout.Bytes16At | src/kernel/filesystems/fat16/fat16.h:67-80 | any 16-bit field re-encodes to its own two bytes |
| Fat16Layout.LfnOrder | src/kernel/filesystems/fat16/fat16.h:25 | the order is the low nibble: below 16 and congruent to the byte mod 16 |
| Fat16Layout.TimeRoundTrip | src/kernel/filesystems/fat16/fat16.h:27-29 | hours, the six-bit minutes and seconds decode a packed time back to its parts |
| Fat16Layout.DateRoundTrip | src/kernel/filesystems/fat16/fat16.h:31-33 | year, month and day decode a packed date back to its parts |
| Fat16Layout.DecodedRanges | src/kernel/filesystems/fat16/fat16.h:27-33 | years 1980-2107, months below 16, days below 32, hours below 32, minutes below 64, even seconds up to 62 |
| Fat16Layout.MinutesTakeHourBit | src/kernel/filesystems/fat16/fat16.h:28 | as written the minutes are the true minutes plus 64 when the hour is odd, so 01:00:00 reads as 64 minutes |
| Fat16.Layout | src/kernel/filesystems/fat16/fat16.c:104-111 | the tables start after the reserved sectors, the root directory after fats x sectorsPerFat sectors, the data region 32 bytes per root entry later, in that order |
| Fat16.NonNegativeProduct | src/kernel/filesystems/fat16/fat16.c:106-111 | the region sizes computed from unsigned fields are not negative |
| Fat16.LayoutRegions | src/kernel/filesystems/fat16/fat16.c:104-111 | the root directory region holds exactly maxRootEntries entries, and with a valid sector size a cluster is a whole number of 512-byte sectors |
| Fat16.ClusterOffsetIsProduct | src/kernel/filesystems/fat16/fat16.c:33-35 | the offset of a cluster in the data region is (cluster - 2) x CLUSTER_SIZE |
| Fat16.ClustersDisjoint | src/kernel/filesystems/fat16/fat16.c:33-35 | cluster 2 starts the data region and clusters in increasing order occupy disjoint byte ranges |
| Fat16.NextEntry | src/kernel/filesystems/fat16/fat16.c:142-158 | a listed entry is the first entry at or after the offset that is neither unused (0xE5) nor the end marker, every entry skipped is unused, and the new offset is just past it; the end marker stops the listing with only unused entries before it; a failed read panics (the kassert) |
| Fat16.Normalize | src/kernel/filesystems/fat16/fat16.c:58-63 | the kept name is no longer than the input and holds no space, no dot and no lower-case letter |
| Fat16.CompactName | src/kernel/filesystems/fat16/fat16.c:56-64 | the buffer is the first 11 bytes with spaces and dots dropped and letters upper-cased, then a NUL |
| Fat16.FilenameCompare | src/kernel/filesystems/fat16/fat16.c:52-77 | klibc's strcmp as written on the two compacted names |
| Fat16.FilenameCmpZeroIff | src/kernel/filesystems/fat16/fat16.c:52-77 | names without NUL compare equal exactly when, once spaces and dots are dropped and letters upper-cased, they are equal or of the same length and differ only in their last character |
| Fat16.OtherNameMatches | src/kernel/filesystems/fat16/fat16.c:76 | any two one-letter names compare equal: an entry of one capital letter padded with spaces and the path component of another capital letter compact to different one-letter strings, yet the comparison returns 0, so a lookup of "B" finds an earlier "A" |
| Fat16.Lookup | src/kernel/filesystems/fat16/fat16.c:169-178 | a found offset is that of a 32-byte entry inside the disk at or after the directory offset, or -1 |
| Fat16.Directory | src/kernel/filesystems/fat16/fat16.c:134-140 | the listing's entries lie inside the disk, after the start, in increasing and non-overlapping positions |
| Fat16.FirstMatch | src/kernel/filesystems/fat16/fat16.c:171-175 | the position of a matching slot with no earlier match, or none when no slot matches |
| Fat16.LookupFindsFirst | src/kernel/filesystems/fat16/fat16.c:169-178 | fat16_findentry gives the offset of the first entry of the directory's listing that fat16_filenamecmp (strcmp as written) finds equal, -1 when none does before the end marker, and panics when a read fails first |
| Fat16.LastSlash | src/kernel/filesystems/fat16/fat16.c:192-195 | the last '/' at or before i, or 0, with no '/' after it |
| Fat16.FindLastSlash | src/kernel/filesystems/fat16/fat16.c:192-195 | the backward scan stops at LastSlash |
| Fat16.DirName | src/kernel/filesystems/fat16/fat16.c:200-203 | the 12-byte buffer holds the component followed by a NUL |
| Fat16.WalkAppend | src/kernel/filesystems/fat16/fat16.c:187-214 | walking one more component is one more directory lookup |
| Fat16.OpenSupportWalks | src/kernel/filesystems/fat16/fat16.c:187-214 | the recursion that resolves the parent first equals looking the path's components up one by one from the root directory |
| Fat16.FoundEntryReadable | src/kernel/filesystems/fat16/fat16.c:205-210 | the re-read of an entry fat16_findentry found never fails, so that kassert holds |
| Fat16.LoadCluster | src/kernel/filesystems/fat16/fat16.c:42-46 | a cluster is read exactly when it lies inside the disk, and then it is CLUSTER_SIZE bytes |
| Fat16.NextCluster | src/kernel/filesystems/fat16/fat16.c:48-50 | the next cluster is a 16-bit table entry |
| Fat16.NullTableLosesChain | src/kernel/filesystems/fat16/fat16.c:48-50 | as written `fs.fat` is NULL, so the lookup reads low memory: a table linking cluster 2 to 3 is read as 0 when memory holds zeros there |
| Fat16.Rem | src/kernel/filesystems/fat16/fat16.c:276 | the position within a cluster is below CLUSTER_SIZE |
| Fat16.QuotRem | src/kernel/filesystems/fat16/fat16.c:276-278 | Rem and Quot are the remainder and quotient of the division |
| Fat16.NextBoundary | src/kernel/filesystems/fat16/fat16.c:276-278 | one position on stays in the same cluster unless it reaches the next cluster's first byte |
| Fat16.Advance | src/kernel/filesystems/fat16/fat16.c:276-281 | a step moves the position by one and stays on a readable cluster |
| Fat16.Copy | src/kernel/filesystems/fat16/fat16.c:275-282 | the copy loop copies min(n, filesize - position) bytes, moves the position by as many and stays on a readable cluster |
| Fat16.UnderIsBuffered | src/kernel/filesystems/fat16/fat16.c:276 | the cluster buffer at position mod CLUSTER_SIZE holds the byte under the cursor |
| Fat16.AdvanceAtBoundary | src/kernel/filesystems/fat16/fat16.c:278-281 | below a boundary the cluster stays; at one the next cluster of the chain is read, and a failed table or cluster read panics |
| Fat16.CopyStep | src/kernel/filesystems/fat16/fat16.c:275-282 | one turn copies the byte under the cursor and continues from the advanced cursor, or panics when the advance fails |
| Fat16.ReadFile | src/kernel/filesystems/fat16/fat16.c:266-287 | the intended fat16_fread copies min(count, filesize - position) bytes (none for a negative count), moves the position by as many and stays on a readable cluster |
| Fat16.EveryReadPanics | src/kernel/filesystems/fat16/fat16.c:273 | as written the kassert compares CLUSTER_SIZE with a status of 0 or -1, so every read panics, even of zero bytes |
| Fat16.ThenPrepends | src/kernel/filesystems/fat16/fat16.c:266-287 | a byte copied first stays first when a second read follows |
| Fat16.CopySplits | src/kernel/filesystems/fat16/fat16.c:275-282 | the loop for n + m bytes is the loop for n and then for m more from where it stopped |
| Fat16.ReadsCompose | src/kernel/filesystems/fat16/fat16.c:262-287 | reading n + m bytes is reading n and then m more from where the handle was left |
| Fat16.AdvanceFollowsChain | src/kernel/filesystems/fat16/fat16.c:276-281 | a cursor on a file's cluster chain stays on it when it advances |
| Fat16.CursorByte | src/kernel/filesystems/fat16/fat16.c:276 | the byte under a cursor on the chain is the file's byte at its position |
| Fat16.FileByteAt | src/kernel/filesystems/fat16/fat16.c:276 | byte k of a run of the file's bytes from a position is the file's byte at that position + k |
| Fat16.FileBytesCons | src/kernel/filesystems/fat16/fat16.c:276 | the file's byte at a position followed by its bytes from the next one are its bytes from the position |
| Fat16.FollowStep | src/kernel/filesystems/fat16/fat16.c:275-282 | one turn of the loop on the chain keeps the copied bytes the file's bytes |
| Fat16.CopyFollowsChain | src/kernel/filesystems/fat16/fat16.c:275-282 | what the loop copies from a cursor on the chain is the file's bytes from its position |
| Fat16.ReadFollowsChain | src/kernel/filesystems/fat16/fat16.c:262-287 | a read from the start of a file returns its bytes in order: byte k lies k mod CLUSTER_SIZE into the cluster k / CLUSTER_SIZE links down the chain |
| Fat16.CopyFromStart | src/kernel/filesystems/fat16/fat16.c:275-282 | the loop from position 0 on the first cluster copies the file's bytes in order |
| Fat16.StepCluster | src/kernel/filesystems/fat16/fat16.c:276-281 | the end of a turn reaches the cursor Advance gives, with that cluster's bytes in the buffer |
| Fat16.FileHandle.constructor | src/kernel/filesystems/fat16/fat16.h:118-127 | a zeroed handle |
| Fat16.Driver.constructor | src/kernel/filesystems/fat16/fat16.c:12-14 | no disk, zeroed records and geometry |
| Fat16.Driver.SetDiskInterface | src/kernel/filesystems/fat16/fat16.c:16-19 | only the disk changes |
| Fat16.Driver.ReadFilesystem | src/kernel/filesystems/fat16/fat16.c:83-114 | reads both records; returns 0 exactly when the extended signature is 0x28 or 0x29 and a sector is 512, 1024, 2048 or 4096 bytes, and then sets the geometry Layout gives; otherwise -1 with the geometry unchanged |
| Fat16.Driver.Ls | src/kernel/filesystems/fat16/fat16.c:142-158 | the listing NextEntry gives |
| Fat16.Driver.FindEntry | src/kernel/filesystems/fat16/fat16.c:169-178 | the result Lookup gives, with names compared by strcmp as written |
| Fat16.Driver.FOpen | src/kernel/filesystems/fat16/fat16.c:244-259 | panics when the path walk panics; -1 with the handle unchanged when the path does not resolve to a positive offset; otherwise 0 and the handle at position 0 in the entry's first cluster with its size (for the root, the caller's stale entry); each component is looked up with strcmp as written |
| Fat16.Driver.FRead | src/kernel/filesystems/fat16/fat16.c:266-287 | with the intended status check: the bytes ReadFile copies are at the front of the buffer, the rest of the buffer is unchanged, the handle moves to where ReadFile leaves it, and the count is returned; a failed read panics |
| Fat16.CopyLoop | src/kernel/filesystems/fat16/fat16.c:275-282 | the loop's bytes, position and cluster are Copy's, at the front of the buffer with the rest untouched, and it fails exactly when Copy panics |
| Fat16.GluePrepend | src/kernel/filesystems/fat16/fat16.c:276 | moving one copied byte into the prefix does not change the glued transfer |
| Fat16Vfs.NameStart | src/kernel/filesystems/fat16/fat16vfs.c:41-47 | the position of the last '/' before the length, or 0 when there is none, with no '/' after it |
| Fat16Vfs.FindNameStart | src/kernel/filesystems/fat16/fat16vfs.c:41-47 | the forward scan ends on NameStart |
| Fat16Vfs.RecordedName | src/kernel/filesystems/fat16/fat16vfs.c:48-53 | the recorded name is at most VFS_FILE_LEN bytes and holds no NUL |
| Fat16Vfs.StoredName | src/kernel/filesystems/fat16/fat16vfs.c:52-53 | the name field keeps its size |
| Fat16Vfs.StoredNameReads | src/kernel/filesystems/fat16/fat16vfs.c:48-53 | the field, read as a C string, is the recorded name |
| Fat16Vfs.LastComponentRecorded | src/kernel/filesystems/fat16/fat16vfs.c:41-53 | for a path with a '/' and a short last component, the recorded name is that component with its leading '/' |
| Fat16Vfs.SlashlessPathRecorded | src/kernel/filesystems/fat16/fat16vfs.c:41-53 | a path without '/' is recorded whole, cut at VFS_FILE_LEN bytes |
| Fat16Vfs.RecordedNameHasOneSlash | src/kernel/filesystems/fat16/fat16vfs.c:41-53 | no '/' follows the first byte of the recorded name |
| Fat16Vfs.NameStartOfPrefix | src/kernel/filesystems/fat16/fat16vfs.c:42-43 | the scan only looks at the first length bytes of the path |
| Fat16Vfs.File.constructor | src/kernel/filesystems/fat16/fat16vfs.c:30 | a blank file record |
| Fat16Vfs.Vfs.constructor | src/kernel/filesystems/fat16/fat16vfs.c:12 | no interface installed yet |
| Fat16Vfs.Vfs.GetVfsInterface | src/kernel/filesystems/fat16/fat16vfs.c:16-28 | once installed the interface is returned without touching the disk; otherwise the filesystem is read and the interface installed exactly when that succeeds |
| Fat16Vfs.Vfs.FOpen | src/kernel/filesystems/fat16/fat16vfs.c:30-59 | -2 when allocation fails; -1 with the record unchanged when the open fails; otherwise 0, the handle opened (the driver's path walk, names compared by strcmp as written), the record's name the path's last component, and its size the handle's |
| Fat16Vfs.Vfs.StoreName | src/kernel/filesystems/fat16/fat16vfs.c:41-53 | only the name field changes, to StoredName |
| Fat16Vfs.Vfs.FRead | src/kernel/filesystems/fat16/fat16vfs.c:61-67 | exactly what the driver's fread does on the file's handle |
| Fat16Vfs.Vfs.FWrite | src/kernel/filesystems/fat16/fat16vfs.c:69-73 | always -1, changing nothing |
| Fat16Vfs.Vfs.FClose | src/kernel/filesystems/fat16/fat16vfs.c:75-79 | always 0 |
| HostFat16.LsAsWritten | src/ramdisk/fat16.c:81-96 | as written the skip loop is never entered: the entry at the offset is listed unless it is the end marker or lies outside the image |
| HostFat16.DeletedEntryListed | src/ramdisk/fat16.c:20-22 | a deleted entry (first byte 0xE5) is listed by the host, while the intended listing skips it |
| HostFat16.LiveEntryAgrees | src/ramdisk/fat16.c:81-96 | on an entry that is not deleted the host's listing is the kernel's |
| HostFat16.FindClusterIsClusterStart | src/ramdisk/fat16.c:28-30 | the host's cluster address is the kernel's cluster offset on the same geometry |
| HostFat16.GetNextCluster | src/ramdisk/fat16.c:32-35 | the word read from the image's table is the kernel's next cluster |
| HostFat16.HostAdvance | src/ramdisk/fat16.c:178-183 | a step moves the position by one |
| HostFat16.HostCopyLength | src/ramdisk/fat16.c:177-184 | when no read leaves the image, min(n, filesize - position) bytes are copied and the position moves by as many |
| HostFat16.HostCopyAgrees | src/ramdisk/fat16.c:169-189 | wherever the kernel's read succeeds, the host's read of the same image copies the same bytes and stops at the same position and cluster |
| HostFat16.HostCopyStep | src/ramdisk/fat16.c:177-184 | one turn copies the byte under the cursor and continues from the advanced cursor, or reads outside the image |
| HostFat16.HostCopyLoop | src/ramdisk/fat16.c:170-184 | the loop's bytes, position and cluster are HostCopy's, at the front of the buffer with the rest untouched; it stops exactly where HostCopy reads outside the image |
| HostFat16.Host.constructor | src/ramdisk/fat16.c:11-14 | the image given, zeroed records and geometry |
| HostFat16.Host.ReadFilesystem | src/ramdisk/fat16.c:37-61 | copies both records; returns 0 exactly when the extended signature is 0x28 or 0x29, whatever the sector size, and then sets the geometry Layout gives; otherwise -1 with the geometry unchanged |
| HostFat16.Host.FRead | src/ramdisk/fat16.c:169-189 | the bytes HostCopy gives are at the front of the buffer, the rest unchanged, the handle's position and cluster moved to where it stops, and their count returned; Undefined where C reads outside the image |
| Mkfat16.FileSystem.constructor | src/ramdisk/mkfat16.c:115 | zeroed records and offsets |
| Mkfat16.FileSystem.ReadFilesystem | src/ramdisk/mkfat16.c:54-76 | copies both records; returns 0 exactly when the extended signature is 0x28 or 0x29, and then sets the three region offsets from the boot record; otherwise -1 with the offsets unchanged |
| Mkfat16.Entries | src/ramdisk/mkfat16.c:93 | the entries of the listed slots, in order |
| Mkfat16.LiveEntriesAreListing | src/ramdisk/mkfat16.c:78-98 | on a directory that ends inside the image, the entries collected are those the kernel's directory listing gives, in disk order |
| Mkfat16.SkipUnused | src/ramdisk/mkfat16.c:86-88 | a run of deleted entries adds nothing to the result |
| Mkfat16.EntriesCons | src/ramdisk/mkfat16.c:93 | one listed slot adds its entry in front |
| Mkfat16.LiveStep | src/ramdisk/mkfat16.c:89-94 | a live entry is appended after those already collected |
| Mkfat16.DeletedEntryCollected | src/ramdisk/mkfat16.c:25-27 | as written a deleted entry (first byte 0xE5) is collected, while the intended listing passes over it |
| Mkfat16.DoubledGrows | src/ramdisk/mkfat16.c:89-91 | doubling a capacity reachable from 20 gives a reachable capacity |
| Mkfat16.Grow | src/ramdisk/mkfat16.c:90-91 | a fresh array twice as large holding the entries collected so far |
| Mkfat16.ListDir | src/ramdisk/mkfat16.c:78-98 | succeeds exactly when the listing stays inside the image; then the first size entries are the live root entries in disk order, and the capacity is 20 doubled only as often as the entries needed |
| Ramdisk.Read | src/kernel/devices/ramdisk/ramdisk.c:43-50 | a range is read exactly when it starts at or after 0 and ends inside the disk, and then it is count bytes |
| Ramdisk.Splice | src/kernel/devices/ramdisk/ramdisk.c:57-65 | a write keeps the disk's size |
| Ramdisk.ReadAfterWrite | src/kernel/devices/ramdisk/ramdisk.c:43-65 | reading back a written range gives the bytes written, and a range disjoint from it reads as before |
| Ramdisk.RamDisk.constructor | src/kernel/devices/ramdisk/ramdisk.c:8-9 | no disk yet |
| Ramdisk.RamDisk.Init | src/kernel/devices/ramdisk/ramdisk.c:11-17 | records the buffer and its size and returns 0 |
| Ramdisk.RamDisk.GetDiskInterface | src/kernel/devices/ramdisk/ramdisk.c:25-34 | -1 before ramdisk_init, 0 after |
| Ramdisk.RamDisk.ReadBytes | src/kernel/devices/ramdisk/ramdisk.c:43-50 | -1 with the buffer unchanged when the range leaves the disk; otherwise 0 and the range at the front of the buffer, the rest unchanged |
| Ramdisk.RamDisk.WriteBytes | src/kernel/devices/ramdisk/ramdisk.c:57-65 | -1 with the disk unchanged when the range leaves the disk; otherwise 0 and the bytes stored at the offset, the rest of the disk unchanged |
| Monitor.Scanned | src/kernel/monitor.c:47-58 | scanning a prefix always leaves at least one argument in progress |
| Monitor.Arguments | src/kernel/monitor.c:41-62 | a command line has at least one argument |
| Monitor.JoinAgree | src/kernel/monitor.c:53-57 | joining depends only on the arguments joined |
| Monitor.JoinAppendEmpty | src/kernel/monitor.c:48-57 | a space adds a new, empty argument |
| Monitor.JoinExtendLast | src/kernel/monitor.c:47-58 | any other character extends the argument in progress |
| Monitor.JoinScanned | src/kernel/monitor.c:41-62 | the arguments joined with single spaces give back the characters scanned |
| Monitor.ScannedSpaces | src/kernel/monitor.c:46-58 | no argument holds a space, and there is one more argument than there are spaces |
| Monitor.ScannedAvoids | src/kernel/monitor.c:52-55 | an argument holds only characters of the line |
| Monitor.ScannedKeeps | src/kernel/monitor.c:47-58 | an argument once completed stays as it is while the scan goes on |
| Monitor.ScannedNoSpace | src/kernel/monitor.c:47-58 | a run without spaces is one argument |
| Monitor.FirstArgument | src/kernel/monitor.c:44-57 | args[0] is the text before the first space |
| Monitor.ArgumentsJoin | src/kernel/monitor.c:41-62 | the arguments joined with ' ' are exactly the command, none holds a space, and there are the number of spaces plus one of them |
| Monitor.ScannedNext | src/kernel/monitor.c:47-58 | a space starts a new empty argument, any other character extends the last, and the completed ones stay |
| Monitor.ParseArgs | src/kernel/monitor.c:41-62 | -1 exactly when the line has more than 25 arguments, with the first 25 stored; otherwise their number, with the arguments in order at the front of the array and the rest untouched |
| Monitor.SeparatorStep | src/kernel/monitor.c:48-57 | a space or the NUL stores the argument in progress and starts the next after it |
| Monitor.CharacterStep | src/kernel/monitor.c:47-48 | any other character leaves the stored arguments as they are |
| Monitor.TooManyArguments | src/kernel/monitor.c:49-51 | a 26th argument means the line has more than 25, and the 25 stored are its first |
| Monitor.ScanCharacter | src/kernel/monitor.c:48-58 | one turn keeps the scan state, or gives up on the 26th argument with the first 25 stored |
| Monitor.StoreArgument | src/kernel/monitor.c:53-55 | only the argument's slot changes |
| Monitor.MonitorHandle | src/kernel/monitor.c:64-82 | 1 exactly when strcmp finds a command name equal to args[0], 0 otherwise; the arguments are freed only when nothing ran |
| Monitor.ArgumentsAreCharacters | src/kernel/monitor.c:52-55 | the first argument holds no NUL |
| Monitor.DispatchesIff | src/kernel/monitor.c:70-75 | a command runs exactly when args[0] equals its name, or has its length and differs only in the last character |
| Monitor.NamesDispatch | src/kernel/monitor.c:21-30 | every command name in the table runs its command |
| Monitor.MistypedCommandRuns | src/kernel/monitor.c:70-75 | "helq", which is no command name, runs help |
| KString.CString | src/klibc/string.c:7-13 | the characters before the first NUL: a prefix without NUL, followed by a NUL when shorter than the buffer |
| KString.TerminatedEnds | src/klibc/string.c:7-13 | a terminated buffer's string is shorter than the buffer |
| KString.StrLen | src/klibc/string.c:7-13 | the length of the string, the index of its NUL |
| KString.StrCmpAsWritten | src/klibc/string.c:15-26 | the loop as written gives StrCmpWritten |
| KString.LastCharMissed | src/klibc/string.c:17 | as written "a" and "b" compare equal |
| KString.NearlyEqualCons | src/klibc/string.c:17 | a shared first character neither makes nor breaks near equality |
| KString.StrCmpWrittenZeroIff | src/klibc/string.c:15-26 | as written strcmp gives 0 exactly for equal strings and for strings of one length that differ only in the last character |
| KString.StrCmp | src/klibc/string.c:15-26 | the intended strcmp gives -1, 0 or 1 |
| KString.StrCmpZeroIffEqual | src/klibc/string.c:15-26 | the intended strcmp gives 0 exactly for equal strings |
| KString.StrCmpAntisymmetric | src/klibc/string.c:22-25 | swapping the operands of the intended strcmp flips its sign |
| KString.StrCpy | src/klibc/string.c:28-38 | the source's string and its NUL are copied to the front of the destination, the rest untouched, and the destination then reads as the source |
| KString.PrefixString | src/klibc/string.c:7-13 | a buffer whose first n bytes are not NUL and whose byte n is NUL holds the string of those n bytes |
| KPrintf.DigitValues | src/kernel/lib/kprintf.c:72-75 | at least one digit, each below the base |
| KPrintf.Spell | src/kernel/lib/kprintf.c:77-84 | one character per digit |
| KPrintf.SpellAppend | src/kernel/lib/kprintf.c:77-84 | spelling digits one after another is spelling them together |
| KPrintf.DivStep | src/kernel/lib/kprintf.c:72-75 | one turn of the do-while divides by the base and keeps the remainder as a digit |
| KPrintf.NumeralStep | src/kernel/lib/kprintf.c:72-84 | a numeral of two or more digits is the numeral of n / base followed by the digit of n mod base |
| KPrintf.NumeralRoundTrip | src/kernel/lib/kprintf.c:66-87 | reading the written numeral back in its base gives the number |
| KPrintf.NumeralLeadingDigit | src/kernel/lib/kprintf.c:72-75 | the first digit is '0' only for 0, which is written "0" |
| KPrintf.DivBelow | src/kernel/lib/kprintf.c:72-75 | n / b is below m exactly when n is below b x m |
| KPrintf.PowAtLeastBase | src/kernel/lib/kprintf.c:70-75 | a positive power of the base is at least the base |
| KPrintf.NumeralLength | src/kernel/lib/kprintf.c:70-75 | a numeral has at most k digits exactly when the number is below base^k |
| KPrintf.DigitSlots | src/kernel/lib/kprintf.c:70-75 | the ten digit slots hold every 32-bit value in base 10 and 16, and in base 2 exactly those below 1024 |
| KPrintf.SignedNumeralReads | src/kernel/lib/kprintf.c:28-60 | a signed numeral starts with '-' exactly for negative values, and the rest reads back as the magnitude |
| KPrintf.CollectDigits | src/kernel/lib/kprintf.c:70-75 | the digit slots from the first one used hold the number's digits in the base, most significant first |
| KPrintf.WriteDigits | src/kernel/lib/kprintf.c:77-84 | the digits used are written as characters after what is there, the rest untouched, and counted |
| KPrintf.AppendUnsignedInt | src/kernel/lib/kprintf.c:66-87 | the number's numeral in the base, lower-case, is written at the position and its length returned, the rest untouched |
| KPrintf.AppendSignedInt | src/kernel/lib/kprintf.c:28-60 | the signed numeral, with '-' for a negative value in base 10, is written at the position and its length returned |
| KPrintf.WriteNegative | src/kernel/lib/kprintf.c:44-57 | '-' and then the digits |
| KPrintf.AppendString | src/kernel/lib/kprintf.c:11-22 | the characters before the NUL are copied and counted, the rest untouched |
| KPrintf.RunGrows | src/kernel/lib/kprintf.c:95-140 | a format whose expansion is defined is defined at every earlier character, and the output only grows |
| KPrintf.RunPrefix | src/kernel/lib/kprintf.c:95-140 | the expansion so far depends only on the characters read |
| KPrintf.FormatCharacter | src/kernel/lib/kprintf.c:96-139 | one format character writes what Step gives, the rest of the buffer untouched |
| KPrintf.ConvertArgument | src/kernel/lib/kprintf.c:98-126 | a specifier writes its argument's text |
| KPrintf.AppendPointer | src/kernel/lib/kprintf.c:111-115 | %p writes "0x" and the hex digits |
| KPrintf.KvPrintf | src/kernel/lib/kprintf.c:89-144 | the expanded format and a NUL are at the front of the buffer, the rest untouched, and the count includes the NUL |
| KPrintf.KPrintf | src/kernel/lib/kprintf.c:146-162 | the static buffer holds the expanded format and a NUL, and the count kvprintf gave is returned |
| KPrintf.LiteralRun | src/kernel/lib/kprintf.c:132-138 | characters other than '%' are copied as they are |
| KPrintf.LiteralFormat | src/kernel/lib/kprintf.c:95-140 | a format without '%' is printed unchanged, whatever the arguments |
| KPrintf.TrailingPercent | src/kernel/lib/kprintf.c:95-140 | a lone '%' at the end of the format adds nothing |
| KPrintf.UnknownSpecifier | src/kernel/lib/kprintf.c:127-129 | an unknown specifier writes "[ksprintf: unknown specifier]" and takes no argument |
| KernKPrintf.RunDefined | kern/kernel/kprintf.c:16-54 | a format whose output is defined is defined at every earlier character |
| KernKPrintf.RunCounts | kern/kernel/kprintf.c:44-45 | after n characters the count and the specifiers still ahead make up all the specifiers of the format |
| KernKPrintf.PrintedCountsSpecifiers | kern/kernel/kprintf.c:44-58 | the return value is the number of '%'-specifier pairs in the format, not the characters written |
| KernKPrintf.LiteralRun | kern/kernel/kprintf.c:46-52 | characters other than '%' go to the terminal one at a time and count nothing |
| KernKPrintf.LiteralFormat | kern/kernel/kprintf.c:16-58 | a format without '%' is written unchanged and 0 is returned |
| KernKPrintf.NegativeHexShowsMagnitude | kern/kernel/kprintf.c:25-28 | "%x" of -255 writes "ff", the magnitude without a sign, and counts one specifier |
| KernKPrintf.KPrintf | kern/kernel/kprintf.c:8-59 | the expanded format is typed on the terminal, the screen buffer stays the same array, and the number of specifiers is returned |
| KernKPrintf.FormatCharacter | kern/kernel/kprintf.c:17-52 | one format character types what Step gives on the terminal |
| KernKPrintf.PutOne | kern/kernel/kprintf.c:50 | terminal_putchar types one character |
| KernKPrintf.ConvertArgument | kern/kernel/kprintf.c:19-39 | a specifier types its argument's text |
| Tty.Cleared | kern/arch/i686/tty.c:33-38 | a blank screen has 80 x 25 cells |
| Tty.Scrolled | kern/arch/i686/tty.c:62-69 | scrolling keeps 80 x 25 cells |
| Tty.LineFeed | kern/arch/i686/tty.c:57-71 | column 0 of the next row, and on the last row the cursor stays on it while the screen scrolls |
| Tty.PutPlain | kern/arch/i686/tty.c:73-95 | the cursor stays on the screen and the colour is kept |
| Tty.Spaces | kern/arch/i686/tty.c:82-83 | the cursor stays on the screen and the colour is kept |
| Tty.Put | kern/arch/i686/tty.c:73-95 | the cursor stays on the screen and the colour is kept |
| Tty.Typed | kern/arch/i686/tty.c:97-101 | the cursor stays on the screen and the colour is kept |
| Tty.TypedAppend | kern/arch/i686/tty.c:97-101 | typing two texts one after the other is typing them joined |
| Tty.PrintableStored | kern/arch/i686/tty.c:91-94 | a printable character is stored at the cursor in the current colour and the cursor moves right; at the edge it moves to the next row, and on the last row the screen scrolls carrying the character up a row |
| Tty.ScrollMovesRows | kern/arch/i686/tty.c:60-69 | on the last row a line feed moves every row up by one and blanks the last row in the current colour |
| Tty.BackspaceBlanks | kern/arch/i686/tty.c:85-88 | a backspace moves one column left, not past column 0, and blanks the cell it lands on |
| Tty.TabAdvances | kern/arch/i686/tty.c:78-84 | a tab away from the right edge writes four blanks and moves four columns |
| Tty.IntTextSign | kern/arch/i686/tty.c:112-136 | a negative value shows '-' in base 10 only, then the digits of its magnitude, which hold no '-' |
| Tty.Terminal.constructor | kern/arch/i686/tty.c:22-25 | the buffer given, cursor and colour zero |
| Tty.Terminal.Initialize | kern/arch/i686/tty.c:27-39 | cursor at the top left, the colour set, every cell blank |
| Tty.Terminal.SetColor | kern/arch/i686/tty.c:41-44 | only the colour changes |
| Tty.Terminal.PutEntryAt | kern/arch/i686/tty.c:46-51 | only the cell at (x, y) changes, to the character in the colour |
| Tty.Terminal.NextLine | kern/arch/i686/tty.c:57-71 | the screen becomes LineFeed of the old screen |
| Tty.Terminal.ScrollRows | kern/arch/i686/tty.c:62-66 | rows 1 to 24 move up one row, the last row stays |
| Tty.Terminal.ShiftRow | kern/arch/i686/tty.c:63-65 | row r moves up one row, the others stay |
| Tty.Terminal.BlankLastRow | kern/arch/i686/tty.c:67-69 | the last row is blank in the current colour, the others stay |
| Tty.Terminal.PutChar | kern/arch/i686/tty.c:73-95 | the screen becomes Put of the old screen |
| Tty.Terminal.Write | kern/arch/i686/tty.c:97-101 | the screen has the first size characters typed |
| Tty.Terminal.WriteString | kern/arch/i686/tty.c:103-106 | the screen has the string before the NUL typed |
| Tty.Terminal.WriteInt | kern/arch/i686/tty.c:112-136 | the screen has IntText typed: '-' for a negative value in base 10 only, then the digits of its magnitude |
| Tty.Terminal.PutNegative | kern/arch/i686/tty.c:127-135 | '-' and then the digits are typed |
| Tty.Terminal.PutDigits | kern/arch/i686/tty.c:130-135 | the digits are typed as characters |
| Tty.Terminal.Clear | kern/arch/i686/tty.c:138-145 | cursor at the top left and every cell blank in the current colour |
| Tty.AllBlank | kern/arch/i686/tty.c:142-144 | a buffer whose cells are all blank is the cleared screen |
| Cmos.FromBcd | src/kernel/arch/i386/cmos.c:21-24 | the value of any byte is at most 165 |
| Cmos.BcdRoundTrip | src/kernel/arch/i386/cmos.c:21-24 | every number below 100 written in BCD reads back as itself |
| Cmos.BcdDigits | src/kernel/arch/i386/cmos.c:21-24 | a byte whose nibbles are both decimal digits reads as a number below 100 whose BCD form is the byte |
| Cmos.BcdExamples | src/kernel/arch/i386/cmos.c:21-24 | 0x34 reads as 34, and 0xFF as 165 |
| Ide.Swapped | src/kernel/devices/ide/ide.c:60-64 | swapping the bytes of each word keeps the length |
| Ide.SwappedTwice | src/kernel/devices/ide/ide.c:60-64 | swapping twice gives the string back |
| Ide.LastSignificant | src/kernel/devices/ide/ide.c:66-69 | the index found lies below n, and is 0 for an empty range |
| Ide.LastSignificantIsLast | src/kernel/devices/ide/ide.c:66-69 | no byte after the index found is significant, the byte at it is significant exactly when any byte is, and it is 0 when none is |
| Ide.Fixed | src/kernel/devices/ide/ide.c:55-73 | the fixed string keeps its length |
| Ide.FixedKeepsText | src/kernel/devices/ide/ide.c:55-73 | every significant byte of the swapped string is kept, only spaces and NULs are cleared to NUL, everything after a cleared byte is NUL, and the first byte is always kept |
| Ide.QemuModel | src/kernel/devices/ide/ide.c:55-73 | "EQUMH RADDSI K" becomes "QEMU HARDDISK" and a NUL |
| Ide.SwapWordBytes | src/kernel/devices/ide/ide.c:64 | the word swap exchanges the low and high bytes |
| Ide.FixString | src/kernel/devices/ide/ide.c:55-73 | panics exactly for an odd length, changing nothing; otherwise the first len bytes become Fixed of their old value and the rest of the buffer is untouched |
| Ide.ClearTail | src/kernel/devices/ide/ide.c:71-72 | the bytes from start to len become NUL, the others are untouched |
| Ide.SwapWords | src/kernel/devices/ide/ide.c:60-64 | the first len bytes are swapped word by word, the rest untouched |
| Ide.LastSignificantOf | src/kernel/devices/ide/ide.c:66-69 | the loop ends on LastSignificant |
| Compositor.FirstFrom | src/kernel/gui/compositor.c:69-80 | the first place at or after start that holds the window, or -1 exactly when none does |
| Compositor.HeadNeverFound | src/kernel/gui/compositor.c:69-100 | with two or more windows, a window held only by the head is never found, since the loops look at `next` only |
| Compositor.Without | src/kernel/gui/compositor.c:101-103 | unlinking a node keeps the nodes before it and moves the later ones up one place |
| Compositor.DrawList.constructor | src/kernel/gui/compositor.c:27-31 | an empty, well-formed list |
| Compositor.DrawList.Add | src/kernel/gui/compositor.c:38-58 | -1 and nothing changed when the allocation fails; otherwise 0 and the window after the tail, or a new list of one when there is no tail; a well-formed list stays well formed with the window appended |
| Compositor.DrawList.Focus | src/kernel/gui/compositor.c:64-83 | 0 with nothing changed when the window is on top; -1 with nothing changed when no node after the head holds it; otherwise 0 and the first such node moved after the tail |
| Compositor.DrawList.Remove | src/kernel/gui/compositor.c:90-116 | a one-node list holding the window is emptied; -1 with nothing changed when no node after the head holds it; otherwise 0 and the first such node unlinked, the list staying well formed |
| Compositor.DrawList.SetBackgroundAsWritten | src/kernel/gui/compositor.c:133-140 | as written, a new node in front and one more counted, with the tail left NULL on an empty list |
| Compositor.DrawList.SetBackground | src/kernel/gui/compositor.c:133-140 | the window in front of a well-formed list, which stays well formed |
| Compositor.BackgroundLost | src/kernel/gui/compositor.c:133-140 | as written, the background set on an empty list is lost when the next window is added: the list holds that window alone |
| Compositor.BackgroundKept | src/kernel/gui/compositor.c:133-140 | with the tail set, the background stays below the window added after it |
| Framebuffer.ColorComponents | src/kernel/devices/framebuffer.c:177-180 | make_color keeps the top byte 0, and red, green and blue each come back out of the colour |
| Framebuffer.ColorFromComponents | src/kernel/devices/framebuffer.c:177-180 | a colour below 2^24 is made of its three components |
| Framebuffer.OffsetPastRowWraps | src/kernel/devices/framebuffer.c:172-175 | as written, the pixel one past the end of row 0 gets the offset of the first pixel of row 1, where the header promises -1 |
| Framebuffer.OffsetNamesPixel | src/kernel/devices/framebuffer.h:55-64 | the offset is -1 exactly off the screen, and an offset on it names its pixel: divided by the pitch it gives y, the rest divided by the pixel size gives x |
| Framebuffer.Alloc | src/kernel/devices/framebuffer.c:56-76 | NULL exactly when one of the two allocations fails, the pixel memory given back exactly when only the second fails; otherwise a fresh buffer of the size asked, with the screen's pixel size and a pitch of width x pixel size |
| Framebuffer.CopyRow | src/kernel/devices/framebuffer.c:103-110 | the pixels of the row from x on, up to the screen's right edge, take the source row's pixels, and nothing else changes |
| Framebuffer.Blit | src/kernel/devices/framebuffer.c:85-115 | source pixel (j, i) goes to dest pixel (x + j, y + i) when that lies on dest, and no other dest pixel changes |
| Framebuffer.ScreenUpdate | src/kernel/devices/framebuffer.c:132-165 | the part of the rectangle on the screen is copied from the double buffer to the screen, and no other screen pixel changes |

## Left out

- Port and control-register I/O: `inb`/`outb`, CR0/CR2/CR3 loads, `cmos_read_register`, the IDE identify and PIO routines, the mouse controller's status waits and command exchanges (`mouse_wait_for_status`, `mouse_send_command`, `mouse_read`, `mouse_wait_ack`, and those steps of `mouse_init`), and the tty `update_cursor`. The PIC's port writes are modelled as a log; the rest are effects outside the model.
- The assembly stubs (`gdt_flush`, `load_idt`, `sti`, the interrupt entry code): interrupt arrival is modelled as one sequential call to the handler on an abstract frame record.
- The register dumps and `cr2`/`cr3` prints of `interrupt_handler`: only its classification of vectors is modelled.
- Boot wiring (`init.c`, `kernel.c`, `modules.c`, multiboot pointer parsing): it calls the modelled components in order. The multiboot memory map is an input sequence.
- `fb_init`, `fb_free`, `screen_refresh`, `get_screen_framebuffer`, `screen_width`/`screen_height`: these are boot wiring and field reads. The panic of `fb_init` on a depth other than 32 bits appears as the four-bytes-per-pixel part of `Framebuffer.Valid`.
- `__compositor_main`, `window_create`, `draw_window` and the rendering files: they are an endless redraw loop and drawing code. Only the draw list and buffer copies are modelled.
- `src/kernel/filesystems/vfs.c`, `kern/arch/i686/irq.c` and `kern/kernel/monitor.c`: thin dispatchers. The `kern` dispatcher's hang on every vector but the timer is kept as the `Hung` outcome of `KernDescriptorTables`.
- The monitor's command bodies (`help`, `ticks`, `system`, `echo`, `ls`, `cat`, `run`, `ps`): they only print. Only `parse_args` and the command lookup are modelled.
- The output side of `kprintf` (`terminal_writestring`, `serial_write`): the model returns the bytes that would be written.
- The host tools' `main` functions, `src/ramdisk/fat16util.c`, `DEBUG_printentrybytes` and mkfat16's print helpers: they only print.
- The host `findentry`/`open_support` in `src/ramdisk/fat16.c` are not modelled a second time. They are the kernel functions with the corrected deleted-entry test. The host `open_support` returns the data offset of the entry's cluster.
- `kern/include/lib/input/keyboard.h` is not part of this model. The left-shift keycode is taken to be `0x2a`.
- The `kern` `boot_alloc` is the same code as the `src` one and is modelled once, as `Memory.BootMemory.BootAlloc`. `memory_get_total` is a field read.
- `region_alloc`'s calls to `page_alloc` and `pgdir_map` are not composed into `load_elf`. `load_elf` writes into a byte map of user memory, as if every region were already mapped.
- `kfree` of the VFS `fclose` and the `kmalloc`/`kfree` of file handles: allocation failure is a null handle parameter.
- ReadString.ReadLine: requires `size >= 1`. With a smaller size the source writes `buffer[0]` and returns -1; that path is not modelled.
- KPrintf.Conversion: returns None where C leaves the behaviour undefined. These are an argument of the wrong kind, negating `INT_MIN`, and a binary numeral longer than the ten digit slots. The model does not guess what the machine would print there.
- Tty.Terminal.PutChar: a tab always writes four spaces, as the source does. The clamped `spaces` value it computes is never used and is not modelled.
- Fat16.Driver.FRead: models the read with the intended status check (see Findings). The as-written `kassert`, which panics on every read, is `Fat16.EveryReadPanics`.
- Paging.PgdirMap: requires `size <= 2^32 - 4096`. For a larger size the 32-bit counter of `i += PGSIZE` (src/kernel/arch/i386/paging.c:155) wraps to 0 before reaching `size`, so the source never leaves the loop; the model does not represent that non-termination. `KernMemory.KernPages.PgdirMap` has the same requirement for the same reason.
- Process.Loadable: requires every loadable segment's file bytes to lie inside the image and not to exceed its memory bytes, and the program header table to lie inside the image. `load_elf` checks none of these. Outside them it reads past the image, or `memSize - fileSize` wraps and `memset` clears about 4 GiB; the model does not follow it there.
- Fat16.Fits: the path operations require each path component to have at most 11 bytes. `fat16_open` copies the last component into `char dirname[12]` without a length check (src/kernel/filesystems/fat16/fat16.c:200-202); a longer component overflows the buffer and the stack, which the model does not represent.
- Process.ProcessTable.ProcessCreate: states the heap's free list as the intervals the two allocations and kfree leave, not where the list's node structs lie in memory, so the aliasing of a node grown down by interval_insert (see Findings, src/kernel/memory/kheap.c:30-31) does not show in its contract.
- KHeap.KernelHeap: keeps the free list as its intervals only, not the address of each node's `struct Interval`. As written, interval_insert grows a node down without moving its struct (src/kernel/memory/kheap.c:30-31). The struct then lies inside the free interval, and a later carve from the interval's end can hand out the struct's own bytes; the class's contracts do not show that aliasing. It is stated on the node model (`KHeap.Node`, `KHeap.InsertNode`, `KHeap.ScanNodes`, see Findings), whose intervals are the class's either way (`KHeap.InsertNodeIntervals`, `KHeap.ScanNodesIntervals`). The node model leaves out defragmentation. The headers show the first two words of a node written at `from` (`KHeap.NodeWritten`), not its third word, `next`: for a freed interval shorter than 12 bytes (the block of `kmalloc(0)`) that word lands on the next 4 bytes, possibly a neighbouring block's magic, which the model keeps as it was.
- KernMemory.KernPages.PageFree: requires the frame not to be on the free list already. page_free (kern/arch/i686/memory.c:139-145) checks only for NULL and `references == 0`, and every free frame has references 0, so a second page_free of a free frame passes both kasserts and links the frame in again: the list becomes cyclic, and page_alloc then hands the frame out twice. The model's free list is a sequence of distinct frames and does not represent that. A reserved frame, which also has references 0, is modelled: it joins the list and the next page_alloc hands it out.
- Paging.PhysicalPages.PgdirCreate: requires `kernelPageEnd <= 1024`. The source computes it as `KERNEL_END / PGSIZE` (src/kernel/arch/i386/paging.c:120), a count of 4 KiB pages, but uses it as a count of 4 MiB directory entries. `KERNEL_END` is not defined in the files modelled. For a kernel ending above 4 MiB the copy loop (src/kernel/arch/i386/paging.c:121-123) writes past the directory's frame, which the model does not represent. Below that, the copied entries cover `KERNEL_END / 4096` entries of 4 MiB each, far more than the addresses under KERNEL_END that src/kernel/arch/i386/paging.h:80-82 describes; the model states the copy as written.
- KPrintf.KvPrintf: requires the formatted text to fit the destination, and KPrintf.KPrintf requires it to fit the 4096-byte static buffer (src/kernel/lib/kprintf.c:146). `kvprintf` writes without bounds, so a longer text overflows the buffer; that write is not modelled.
- Fat16.Layout: computes the region offsets as unbounded integers. The source forms them as `int` products of 16-bit boot-record fields (src/kernel/filesystems/fat16/fat16.c:106-109), which overflow, undefined behaviour, once a product passes 2^31 - 1; the model does not say what the machine computes then.
- Framebuffer.Alloc: allocates the full `height` by `width` buffer. The source asks kmalloc for `width * 4 * height` bytes as a 32-bit `unsigned` product, which wraps for buffers of 4 GiB or more and so asks for too little; that case is not modelled.
- Compositor.DrawList.Focus: requires a non-empty draw list. `drawlist_focus` reads `drawlist.tail->window` first, a NULL dereference on an empty list.
- Compositor.DrawList.Remove: requires a non-empty draw list. `drawlist_remove` reads `drawlist.head->window` when head and tail are both NULL, a NULL dereference on an empty list.

## Findings

| source | as written | input that shows it | evidently intended | confidence | as-written member | corrected member |
|---|---|---|---|---|---|---|
| src/kernel/memory/kheap.c:63 | `available - sizeof(struct Interval) > requested` is an unsigned comparison | a free interval of 8 bytes and a request of 108 | carve only from intervals larger than request + node header | high (not executed) | KHeap.CarveWrapsBelowStart | KHeap.AllocTakes |
| src/kernel/memory/kheap.c:62 | `total_free_memory += total_free_memory` doubles 0 | intervals [0,200) and [200,300), request 250 | add each interval's size, so defragmentation is retried | high (not executed) | KHeap.RetryNeverFires | KHeap.AllocTakes |
| src/kernel/memory/kheap.c:131 | `previous` advances onto a node that was just unlinked | intervals [0,8), [8,8), [8,8) | every emptied node is unlinked | high (not executed) | KHeap.SweepKeepsSecondEmpty | KHeap.DefragmentFree |
| src/kernel/memory/kheap.c:30-31 | growing a node down moves its `from` but leaves its struct at the old start, inside the free interval | kmalloc_init(H, 1000), kmalloc(100), kmalloc(200), kfree of both, then kmalloc(150) returns [H+842, H+1000), which holds the linked node's struct at H+892 | move the struct to the new start, where interval_defragment expects it | high (not executed) | KHeap.NodeHandedOut | KHeap.CarveClearsNode |
| src/kernel/process.c:20-21 | region_alloc rounds `count` up on its own after rounding `vaddr` down | vaddr 0x1FFF, count 2 | map up to the page boundary at or above vaddr + count | high (not executed) | Process.RegionMissesLastPage | Process.RegionCovers |
| src/kernel/process.c:123 | the top word is placed at `stack + SIZE - 1` | any stack block | the top word at `stack + SIZE - 4`, inside the block | high (not executed) | Process.FrameOverrunsStack | Process.FrameInsideStack |
| src/kernel/process.c:108 | `kmalloc(strlen(name))` | any name, e.g. "a" (1 byte asked, 2 written) | `kmalloc(strlen(name) + 1)` | high (not executed) | Process.NameBlockShort | Process.NameBlockFits |
| src/kernel/devices/ps2kb/keyboard.c:187-193 | bit 7 is cleared before the print screen and pause scancodes are compared | scancode 0x37e02ae0 (print pressed) | recognise the print screen and pause scancodes before clearing bit 7 | high (not executed) | PS2Keyboard.PrintPauseMissed | PS2Keyboard.PrintPauseMapped |
| src/kernel/devices/ps2kb/keyboard.c:122 | `(SCANCODE_ESCAPECODE << 8) \|\| byte`, a logical or | bytes E0 48 (cursor up) | `(SCANCODE_ESCAPECODE << 8) \| byte` | high (not executed) | PS2Keyboard.EscapedKeyReadsAsEscape | PS2Keyboard.EscapedKey |
| src/kernel/devices/ps2kb/keyboard.c:117 | `skip_next = 3` after the second byte of a 4-byte sequence | bytes E0 2A E0 37 1E | `skip_next = 2` | medium (not executed) | PS2Keyboard.PrintSwallowsNextByte | PS2Keyboard.PrintKeepsNextByte |
| kern/lib/input/keyboard.c:121-122 | `escape_code` is not cleared after an ordinary extended key | bytes E0 48 1E | clear `escape_code` before handling the extended scancode, as the newer driver does | high (not executed) | KernKeyboard.ExtendedThenPlainAsWritten | KernKeyboard.ExtendedThenPlain |
| kern/lib/input/keyboard.c:174-176 | bit 7 is cleared before the print screen and pause scancodes are compared, as in the newer driver | scancode 0x37e02ae0 (print pressed) | recognise the print screen and pause scancodes before clearing bit 7 | high (not executed) | PS2Keyboard.PrintPauseMissed | PS2Keyboard.PrintPauseMapped |
| kern/lib/input/keyboard.c:121 | `(SCANCODE_ESCAPECODE << 8) \|\| byte`, a logical or, as in the newer driver | bytes E0 48 (cursor up) | `(SCANCODE_ESCAPECODE << 8) \| byte` | high (not executed) | KernKeyboard.KernEscapedKeyReadsAsEscape | KernKeyboard.KernEscapedKey |
| kern/lib/input/keyboard.c:117 | `skip_next = 3` after the second byte of a 4-byte sequence, as in the newer driver | bytes E0 2A E0 37 1E | `skip_next = 2` | medium (not executed) | KernKeyboard.KernPrintSwallowsNextByte | KernKeyboard.KernPrintKeepsNextByte |
| src/kernel/filesystems/fat16/fat16.h:28 | FAT16_GET_MINUTES masks with 0x7f | time field 0x0800 (01:00:00) gives 64 minutes | mask with 0x3f, the six-bit minutes field | high (not executed) | Fat16Layout.MinutesTakeHourBit | Fat16Layout.TimeRoundTrip |
| src/kernel/filesystems/fat16/fat16.c:273 | `kassert(CLUSTER_SIZE == fat16_read_cluster(...))`, but the read returns 0 on success | any handle, count 0 | `kassert(0 == fat16_read_cluster(...))` | high (not executed) | Fat16.EveryReadPanics | Fat16.ReadFile |
| src/kernel/filesystems/fat16/fat16.c:48-50 | `fs.fat` is never assigned, so it is NULL | cluster 2 of a volume whose table links it to 3 | read the entry from the table at tableOffset | high (not executed) | Fat16.NullTableLosesChain | Fat16.NextCluster |
| src/ramdisk/fat16.c:20-22 | the first byte is read as a plain `char` and compared with the int 0xe5 | an entry whose first byte is 0xE5 | compare the byte read unsigned | medium: depends on `char` being signed on the host (not executed) | HostFat16.DeletedEntryListed | Fat16.NextEntry |
| src/ramdisk/mkfat16.c:25-27 | the first byte is read as a plain `char` and compared with the int 0xe5 | a root directory whose first entry starts with 0xE5 | compare the byte read unsigned | medium: depends on `char` being signed on the host (not executed) | Mkfat16.DeletedEntryCollected | Mkfat16.ListDir |
| src/klibc/string.c:17 | `*a++ == *b++` moves both pointers past the first difference before the verdict is taken | "a" and "b" | compare the characters where the loop stopped | high (not executed) | KString.LastCharMissed | KString.StrCmpZeroIffEqual |
| src/kernel/gui/compositor.c:133-140 | set_background links the node in front of the head without setting the tail of an empty list | set the background on the empty list, then register a window | set the tail when the list was empty | medium (not executed) | Compositor.BackgroundLost | Compositor.BackgroundKept |
| src/kernel/devices/framebuffer.c:172-175 | fb_offset returns `pitch * y + bytesPerPixel * x` without a bounds check, though its header promises -1 out of bounds | x = width, y = 0 | return -1 off the screen | high (not executed) | Framebuffer.OffsetPastRowWraps | Framebuffer.OffsetNamesPixel |
