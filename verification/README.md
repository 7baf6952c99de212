# fckrnl: the memory stack, the formatter and the interrupt routing

A Dafny model of the parts of fckrnl where a small slip corrupts memory, and proofs of what those parts do:

* the physical frame allocator and its byte bitmap, with the start-up code that reads the firmware's memory map;
* the four-level page tables of x86-64, as the code builds them and as the processor walks them (Intel SDM
  volume 3A, sections 4.5 and 4.6);
* the slab allocator, with its free lists inside the pages it hands out, and malloc and free on top of it;
* the integer, string and character formatting of `_vsnprintf` (C11, sections 7.21.6.1 and 7.21.6.5);
* the redirection of the ISA interrupts by the I/O APIC code (ACPI, section 5.2.12.5).

Each part is a specification on values (a snapshot of memory, the set of used pages, the lists of a cache), the
theorems about it, and a class or a method with the loops and stores of the C code that is proved equal to it. Memory
is an array of 64-bit words; a pointer is a physical address, and the higher-half address of a word is the same word.
The bitmap of the frame allocator is an array of bytes with an address in that memory: clearing pages clears it where
it lies.
Bits are computed by recursive functions on naturals, so every width, wrap-around and mask is spelt out.

The code is modelled with its slips. Where a property one would expect fails, there is an input on which it fails and
a proof of exactly when it holds; see Findings.

| files | what |
|---|---|
| Bits, Intervals, Bitmap | digits, masks, page sets, the byte bitmap |
| Phys, PhysInit, PhysRuns, BitmapStorage, Memory | the frame allocator: specification, start-up, runs of pages, the bitmap inside the memory it manages, the class |
| PageTables, PageTableUpdates, PageTableRuns, PageTableLimits, PageTableRanges, PageTableBudget, PageTableInit, KernelWindows | the page tables: walk, update, whole runs, exact limits, ranges, the windows of vmm_init |
| PageTableCursor, VirtualMemory, PageTableRights, PageTableSharing | the page table code as a class, what it leaves of other pages, and other holders of pages beside it |
| SlabCells, Slabs, SlabSteps, SlabRuns, SlabReturns, SlabReap, SlabSmall | the slab allocator as a state machine |
| SlabLinks, SlabFrames, SlabCaches | the slab allocator in memory: layout, what it leaves alone, the class |
| Malloc, MallocMemory, MallocHeap | malloc and free: specification, headers in memory, the class |
| KernelMemory, KernelBoot | the page tables and the heap over one frame allocator, and how they start |
| PrintfOutput, PrintfNumbers, PrintfMeaning, PrintfFormat, Printf, PrintfLaws | the formatter: integers in text, the format language, the loops |
| PrintfDirectives, PrintfArguments, PrintfHash | what directives written out print, against C11 |
| Irq, Apic | the interrupt routing |

`dafny verify dfyconfig.toml` checks everything.

## Model

| member | source | states |
|---|---|---|
| Frames.HandsOutFreePagesExactly | fckrnl/mm/phys.c:146-162 | the run that pmm_alloc(n) hands out consists of free pages in every state exactly when n is at most 1 |
| Frames.RunKeepsOwnership | fckrnl/mm/phys.c:83-120 | in every run of one-page allocations and returns the pages held are distinct pages that were free at the start, never page 0; used_page_cnt minus the set bits never changes |
| Frames.AllocThenRelease | fckrnl/mm/phys.c:83-120 | pmm_free restores the bitmap after pmm_alloc, and the set bits grow by n, exactly when the run was free |
| Frames.AllocOnePage | fckrnl/mm/phys.c:83-102 | pmm_alloc(1) hands out the lowest free page, and NULL only when there is none |
| FrameRuns.AllocExactly | fckrnl/mm/phys.c:83-162 | for every n and in every state pmm_alloc(n) hands out the lowest page from which on the pages it looks at, one for every 4096 of the run, are free, and marks n pages from there; else it returns NULL and changes nothing |
| FrameRuns.ReleaseExactly | fckrnl/mm/phys.c:112-120 | pmm_free clears the bits of n pages from the page of the address on, whatever they are, and no others, and used_page_cnt goes down by n modulo 2^64 |
| FrameRuns.AllocRunTakesLowest | fckrnl/mm/phys.c:146-162 | the search with probe i + j hands out the lowest run of n free pages for every n, marks it and nothing else, and stays below the top |
| FrameRuns.AllocRunFails | fckrnl/mm/phys.c:146-162 | ... and fails only when no run of n pages is free |
| FrameRuns.ReleaseRestores | fckrnl/mm/phys.c:112-120 | pmm_free after that search restores the whole state |
| FrameRuns.AgreesExactly | fckrnl/mm/phys.c:152-153 | the code's search agrees with it in every sound state exactly for requests of at most one page |
| FrameRuns.StaysInsideExactly | fckrnl/mm/phys.c:146-162 | pmm_alloc(n) never marks past the end of the bitmap exactly when the bitmap has room for n pages behind the last page searched |
| MemoryMap.InitialStateMeaning | fckrnl/mm/phys.c:15-81 | after pmm_init a bit is clear exactly for the pages of usable entries other than page 0 and the bitmap's own storage, when the usable entries are page aligned and apart; bits from the top on stay set |
| MemoryMap.InitialBits | fckrnl/mm/phys.c:15-78 | for any map, aligned or not, a bit is clear exactly for the whole pages of a usable entry counted from the page boundary at or below its base, behind the storage, but for page 0 |
| MemoryMap.TopIsHighest | fckrnl/mm/phys.c:25-44 | hi_page_top is the highest end of a counted entry |
| MemoryMap.InitialStateSound | fckrnl/mm/phys.c:46-78 | the state pmm_init leaves is one the other theorems start from; used_page_cnt, in the wrong unit, is a quarter of the number of bytes less the pages freed |
| MemoryMap.BitmapCoversExactly | fckrnl/mm/phys.c:48-49 | the bitmap is the eighth of the page count rounded up to a page, and has a bit for every page exactly when the page count is a multiple of 32768, or at least 8 above one |
| Memory.Pmm.Init | fckrnl/mm/phys.c:15-81 | the loops of pmm_init leave that state, the memory map with the storage cut off, and the bitmap at the storage; its pages are in use and off page 0 for aligned maps without overlaps whose storage starts behind page 0 |
| Memory.Pmm.AllocPages | fckrnl/mm/phys.c:83-102 | pmm_alloc over the byte bitmap is the specification on page sets, for any number of pages |
| Memory.Pmm.FreePages | fckrnl/mm/phys.c:112-120 | pmm_free over the byte bitmap is the specification on page sets |
| Memory.Pmm.AllocPagesZeroed | fckrnl/mm/phys.c:104-110 | after pmm_allocz every word of every page handed out is 0, for any number of pages, or of the pages from page 0 on when it hands out none, and every other word is as it was; so is every bit whose byte lies there; for one page that is no bit while the bitmap is in use and off page 0 |
| PageTables.CellOfCleared | fckrnl/mm/phys.c:104-110 | clearing n pages makes every word of them 0, and no other |
| BitmapStorage.SparesBitmapExactly | fckrnl/mm/phys.c:104-110 | pmm_allocz(n) never clears a bit, in all sound states in which the bitmap is marked, exactly when n is 0, or 1 with the bitmap behind page 0 |
| BitmapStorage.SparedExactly | fckrnl/mm/phys.c:104-110 | one call leaves the bitmap as pmm_alloc has left it exactly when the pages it clears are none of the bitmap |
| BitmapStorage.WipedReachable | fckrnl/mm/phys.c:104-110 | with half a megabyte of low memory and a gigabyte above it the bitmap is at page 1, and once all pages are handed out pmm_allocz(2) clears 32768 bits, after which pmm_alloc(1) returns NULL |
| BitmapStorage.InitialStateGuards | fckrnl/mm/phys.c:51-78 | pmm_init leaves the pages of the bitmap marked, and keeps it off page 0 exactly when the entry with room for it does not start at address 0 |
| Bitmaps.Bitmap.Set | fckrnl/mm/bmap.c:3-6 | bitmap_set adds one number to the set the bytes stand for |
| Bitmaps.Bitmap.Clear | fckrnl/mm/bmap.c:8-11 | bitmap_clear removes one |
| Bitmaps.Bitmap.Get | fckrnl/mm/bmap.c:13-16 | bitmap_get tests for one |
| PageTableRuns.WalkIsMap | fckrnl/mm/virt.c:42-109 | after any run of map and unmap calls the processor's walk is a mathematical map from pages to entries: mapping sets one key, unmapping removes one; the tables are a tree of distinct used frames |
| PageTableUpdates.SetPresent | fckrnl/mm/virt.c:73-109 | vmm_set_pt_value with a present flag adds exactly the missing tables of the path, one frame each, changes the entry of one page and of no other, and gives the new upper entries the flags passed |
| PageTableUpdates.SetAbsent | fckrnl/mm/virt.c:73-109 | without the present flag no table joins, though every missing one costs a frame, and only the entry of the page can change |
| PageTableRuns.ThreeFramesEach | fckrnl/mm/virt.c:73-81 | three free frames for each call of a run are enough for it |
| PageTableLimits.MappingNeedsFramesExactly | fckrnl/mm/virt.c:73-109 | the tables stay a tree exactly when there is a frame for every missing table |
| PageTableLimits.StarvedStores | fckrnl/mm/virt.c:73-109 | where there is not, the value goes into frame 0 |
| PageTableLimits.PlainFlagsExactly | fckrnl/mm/virt.c:73-81 | a page of which a table is missing translates to its entry exactly when its flags are without bit 7 |
| PageTables.MaskRecoversExactly | fckrnl/mm/virt.c:73-81 | masking an entry gives back every frame address exactly when the flags stay within nine bits |
| PageTables.TranslateIsLookup | fckrnl/mm/virt.c:83-109 | the four-level walk reads the entry that the tree has for the page |
| PageTableInit.MapRangeMeaning | fckrnl/mm/virt.c:56-63 | vmm_map_range maps every page of the aligned range to its own frame and changes nothing else, within a budget of frames, and keeps the rights of a level-4 slot uniform |
| PageTableInit.MapRangeTranslates | fckrnl/mm/virt.c:56-63 | in bytes: every page with a byte at or above start and one below end translates, at its number plus the pages of the offset, modulo 2^36, to its own frame, and every other page to what it did before |
| PageTableInit.UnmapRangeTranslates | fckrnl/mm/virt.c:65-71 | those pages, where they are, translate no more after vmm_unmap_range, and every other page as before |
| PageTableInit.MapThenUnmap | fckrnl/mm/virt.c:56-71 | unmapping the shifted range afterwards restores every translation that was empty before, for shifts that take both ends past 2^64 or neither, and neither into another page |
| PageTableInit.ShiftedRangeExactly | fckrnl/mm/virt.c:56-71 | for any shift that takes both ends past 2^64 or neither, the two loops go over the same pages exactly when the part of the shift below a page takes neither end into another page |
| PageTableInit.UnmapPagesLoses | fckrnl/mm/virt.c:65-109 | unmapping any pages unmaps them and no others, and loses one frame for every missing table, at each page |
| PageTableInit.OtherwiseUnmapsNothing | fckrnl/mm/virt.c:65-71 | for a shift that takes only the end past 2^64 it does nothing |
| PageTableInit.RangeToTheTop | fckrnl/mm/virt.c:56-71 | nor do either of the loops for an end in the last page of the address space |
| PageTableBudget.PathsWithinBudget | fckrnl/mm/virt.c:56-109 | the paths of n contiguous pages add at most (n/2^9+2)+(n/2^18+2)+(n/2^27+2) tables to those there are |
| KernelWindows.InitTranslates | fckrnl/mm/virt.c:13-40 | after vmm_init the identity, data, heap and code windows translate to the pages at their offsets, and nothing else translates |
| KernelWindows.InitGrants | fckrnl/mm/virt.c:13-40 | the rights granted by all four levels together are the flags passed |
| KernelWindows.HeapWindow | fckrnl/mm/virt.c:25-26 | right after vmm_init every physical address below 4 GiB, moved up by HEAP_START_ADDR, translates to its own frame, and may be written |
| PageTableRights.OthersKeepRights | fckrnl/mm/virt.c:83-109 | vmm_set_pt_value leaves the translation of every other mapped page, and the rights all four levels grant it together, as they were |
| VirtualMemory.Vmm.SetPtValue | fckrnl/mm/virt.c:83-109 | the stores of vmm_set_pt_value are the specification, the tables stay a tree, and no word of the bitmap is written |
| VirtualMemory.Vmm.MapRange | fckrnl/mm/virt.c:56-63 | the loop of vmm_map_range is the specification, and maps the range, where there is a frame for every table its pages lack |
| VirtualMemory.Vmm.UnmapRange | fckrnl/mm/virt.c:65-71 | the loop of vmm_unmap_range is the specification, unmaps the range, and loses a frame for every missing table, at each page |
| VirtualMemory.Vmm.Init | fckrnl/mm/virt.c:13-40 | so is vmm_init |
| PageTableSharing.SharedMemory | fckrnl/mm/virt.c:42-109 | in runs that mix map and unmap calls with page allocations, returns and stores by others, the walk stays the map, no page of another holder is a table, and every holder reads back what it wrote |
| PageTableSharing.SetUntouched | fckrnl/mm/virt.c:83-109 | vmm_set_pt_value writes to no page of another holder and makes none a table |
| PageTableSharing.TreesAgree | fckrnl/mm/virt.c:83-109 | memory and the root determine the tree of tables |
| SlabSteps.LiveObjectsApart | fckrnl/mm/slab.c:30-31 | two live objects do not overlap, nor does one overlap the slab_t of its page |
| SlabRuns.RunKeeps | fckrnl/mm/slab.c:74-178 | after every run of alloc, free and grow each object is on exactly one free list or live, and nothing else is |
| SlabRuns.Conservation | fckrnl/mm/slab.c:74-178 | free and live objects add up to bufctl_count_max for each slab, those dropped from the list included |
| SlabRuns.RunStaysWhole | fckrnl/mm/slab.c:149-178 | a run of alloc and free loses no slab exactly when never more objects are live at a time than two slabs hold |
| SlabRuns.GrowDropsExactly | fckrnl/mm/slab.c:158 | slab_cache_grow keeps the whole list exactly when it has at most one slab, or nothing grows |
| SlabRuns.AllocAnswers | fckrnl/mm/slab.c:74-112 | without SLAB_AUTO_GROW, as malloc calls it, slab_cache_alloc hands out an object of the list that nobody holds exactly when one is free; else it panics or returns NULL, and changes nothing |
| SlabRuns.AllocTakesFirst | fckrnl/mm/slab.c:100-111 | the object is the first one on the list of the first slab that has one |
| SlabRuns.FreeAnswers | fckrnl/mm/slab.c:114-147 | slab_cache_free puts a live object on a list, unless as many objects are live as the cache has lost with dropped slabs; then it changes nothing |
| SlabRuns.FreePutsFirst | fckrnl/mm/slab.c:124-146 | the object goes to the head of the first slab whose count is below the maximum |
| SlabRuns.GrowExactly | fckrnl/mm/slab.c:149-178 | slab_cache_grow of n slabs takes as many free pages as there are up to n, cuts each into bufctl_count_max objects in order, and leaves the first slab with the new ones behind it on the list |
| SlabCells.CountMaxFits | fckrnl/mm/slab.c:30-31 | bufctl_count_max is the largest number of objects that fit into 4056 bytes |
| SlabRuns.AllocDelivers | fckrnl/mm/slab.c:83-111 | with SLAB_AUTO_GROW an object comes out, after growing once at most, exactly when one is free or a page is; else the kernel panics, or recurses for ever |
| SlabReturns.ReturnsExactly | fckrnl/mm/slab.c:114-147 | after a run from creation on, everything held can be given back without a panic exactly when never more objects were live than two slabs hold |
| SlabReturns.PanicReachable | fckrnl/mm/slab.c:127-133 | with four free frames there is a run after which an object that is held cannot be given back |
| SlabReap.ReapTakesFull | fckrnl/mm/slab.c:180-213 | exactly the slabs whose count is the maximum leave the list and give their pages back; the others stay as they are, in their order |
| SlabReap.ReapKeepsExactly | fckrnl/mm/slab.c:180-213 | slab_cache_reap keeps every object in one place exactly when the objects on the lists of the slabs that go lie in their pages |
| SlabReap.UnsafeReapReachable | fckrnl/mm/slab.c:180-213 | with three free frames there is a run after which it frees the page of a live object |
| SlabReap.ReapLeavesObjects | fckrnl/mm/slab.c:180-213 | where the condition fails an object of a freed page is live or on a list that stays |
| SlabSmall.NewListEndsExactly | fckrnl/mm/slab.c:259-291 | the free list of a new slab ends exactly for the object sizes from 16 bytes on |
| SlabSmall.HandedOutTwice | fckrnl/mm/slab.c:104-111 | a new slab of 8-byte objects, whatever malloc and its callers store to the objects they hold, hands out an object that is still held, at the 508th call |
| SlabSmall.FourLeavesMemory | fckrnl/mm/slab.c:278-291 | the second link of a new slab of 4-byte objects points out of memory |
| SlabCaches.SlabCache.Alloc | fckrnl/mm/slab.c:74-112 | slab_cache_alloc in memory is the specification, whose answers are those of SlabRuns.AllocAnswers, AllocTakesFirst and AllocDelivers; without SLAB_AUTO_GROW it succeeds exactly when an object on the list is free; it writes to pages of the cache, to page 0 when a page is missing, and to no live object |
| SlabCaches.SlabCache.Free | fckrnl/mm/slab.c:114-147 | so is slab_cache_free; it writes to no object that stays live |
| SlabCaches.SlabCache.Grow | fckrnl/mm/slab.c:149-178 | so is slab_cache_grow |
| SlabCaches.SlabCache.Reap | fckrnl/mm/slab.c:180-213 | so is slab_cache_reap: the slabs whose count is below the maximum stay in their order, one frame goes for each other, head and cursor agree; the cache is in order exactly under the condition above |
| SlabCaches.SlabCache.Create | fckrnl/mm/slab.c:11-38 | so is slab_cache_create |
| SlabCaches.StoredBeside | fckrnl/mm/slab.c:74-213 | a cache depends on its own pages only |
| Bits.IsPowerOfTwoMeaning | fckrnl/mm/slab.c:293-296 | is_power_of_two holds exactly for the powers of two |
| SlabLinks.CallersWrite | fckrnl/mm/slab.c:114-147 | callers may write anywhere in the objects they hold |
| Malloc.RunKeepsBlocksApart | fckrnl/libk/malloc.c:29-73 | after every run of malloc and free the live blocks do not overlap, small or large, headers included: for blocks of any number of pages with the intended search, of one page with the code's |
| Malloc.MallocApartExactly | fckrnl/libk/malloc.c:40-50 | a malloc of pages keeps the blocks apart in every heap exactly when the size is at most 4094, or at least 2^64 - 4097 |
| Malloc.SmallMallocAnswers | fckrnl/libk/malloc.c:29-39 | malloc of 7 to 512 bytes hands out a free object of the cache of the least size that holds the header too, or of 512 bytes, exactly when it has one; else the kernel panics and the heap stays as it is |
| Malloc.PageMallocAnswers | fckrnl/libk/malloc.c:40-50 | malloc of 513 to 4094 bytes hands out the lowest free page, exactly when there is one |
| Malloc.CodedMallocAnswers | fckrnl/libk/malloc.c:40-50 | malloc of more pages hands out the lowest run that looks free, in any heap |
| Malloc.RunMallocAnswers | fckrnl/libk/malloc.c:40-50 | with the intended search it hands out the lowest free run of as many pages as the size and the header need, exactly when there is one |
| Malloc.PagesFit | fckrnl/libk/malloc.c:41-44 | malloc asks for as many pages as the size and the header need, and no more |
| Malloc.SmallFreeAnswers | fckrnl/libk/malloc.c:62-67 | free of an object that does not start a page gives it back to its cache, and changes nothing else, or panics and changes nothing |
| Malloc.BlockIsLargeEnough | fckrnl/libk/malloc.c:29-53 | a block has room for its header and the size asked for exactly when that is not 511, 512 or 2^64 - 1 |
| Malloc.SmallestCache | fckrnl/libk/malloc.c:76-107 | get_slab_cache_index finds the smallest cache that fits |
| Malloc.SmallFreeExactly | fckrnl/libk/malloc.c:62-68 | free takes an object back properly exactly when it does not start a page |
| Malloc.FirstBlockStartsPage | fckrnl/libk/malloc.c:37 | the first object of a new cache does start its page |
| Malloc.LargeFreeExactly | fckrnl/libk/malloc.h:6-8 | free returns every page of a large block exactly when there are fewer than 65536 |
| KernelHeaps.KernelHeap.Malloc | fckrnl/libk/malloc.c:29-53 | malloc over the caches and the frame allocator, with its header in memory, is the specification; a block of 7 to 512 bytes comes out exactly when the cache of the least size that holds it with its header, or of 512 bytes, has a free object, one of up to 4094 exactly when a page is free; every word of a large block behind the header is 0; the bits that a malloc of several pages may clear are included; up to one page it touches only pages of the heap |
| KernelHeaps.KernelHeap.Free | fckrnl/libk/malloc.c:55-73 | free, which goes by the header it reads and by the address, is the specification |
| KernelHeaps.KernelHeap.Store | fckrnl/libk/malloc.c:52 | a byte stored by a caller behind the header of its block changes no header and no list |
| KernelHeaps.KernelHeap.Init | fckrnl/libk/malloc.c:9-27 | the caches of 16 bytes and more, created one after the other, are a heap in order, on pages that were not in use; it succeeds exactly when there are two pages for each, and leaves every page that was in use in use and as it was, but for page 0 |
| HeapMemory.CallerStores | fckrnl/libk/malloc.c:52 | the same, for any byte of any live block, in memory as a value |
| KernelMemory.Kernel.Malloc | fckrnl/libk/malloc.c:29-53 | malloc, which succeeds as said there, keeps the page tables and every translation, and takes no table; while the heap window is in place it stays so, and the pointer returned, and every byte of the block, translates to the frame it stands for and may be written, as far as it lies below 4 GiB |
| KernelMemory.Kernel.Free | fckrnl/libk/malloc.c:55-73 | free keeps the page tables, every translation and the window |
| KernelMemory.Kernel.Store | fckrnl/libk/malloc.c:52 | so does a store of a caller to its block |
| KernelMemory.Kernel.MapPage | fckrnl/mm/virt.c:42-48 | vmm_map_page keeps the heap, its headers and lists, makes none of its pages a table, and leaves the window in place when the page is none of the window |
| KernelMemory.Kernel.UnmapPage | fckrnl/mm/virt.c:50-54 | so does vmm_unmap_page |
| KernelBoot.Boot | fckrnl/kernel.c:26-34 | pmm_init, vmm_init and malloc_heap_init in a row: for every aligned map without overlaps, with room for the bitmap behind page 0 and frames enough, the kernel comes up with the tables a tree, the heap in order, no page shared between them or with the bitmap, and every frame below 4 GiB mapped in the heap window |
| KernelBoot.LowMapStarts | fckrnl/kernel.c:26-34 | a gigabyte of memory is enough |
| PrintfDirectives.DirectivePrintsAsC11 | fckrnl/libk/kprintf/kprintf.c:620-891 | the text of %d, %i, %u, %o, %x, %X and %b, written out with any flags but #, any width, precision and length modifier, prints the field of C11 for the argument in its type exactly when the scratch buffer has room and - drops no precision |
| PrintfHash.HashPrintsAsC11 | fckrnl/libk/kprintf/kprintf.c:231-250 | with # and no precision %o, %x and %X print the field of C11 exactly when the width leaves room for the prefix or does not reach the digits, and zero padding does not pass 32 |
| PrintfArguments.CharPrints | fckrnl/libk/kprintf/kprintf.c:893-913 | %c prints the argument as an unsigned char, padded with spaces, whatever the other fields |
| PrintfArguments.StringPrints | fckrnl/libk/kprintf/kprintf.c:915-941 | %s prints the string, or as much of it as the precision lets through, padded with spaces |
| PrintfArguments.PointerPrints | fckrnl/libk/kprintf/kprintf.c:944-969 | %p without flags and precision prints 16 hexadecimal digits |
| PrintfArguments.OtherPrints | fckrnl/libk/kprintf/kprintf.c:971-979 | any other specifier, % among them, prints itself and takes no argument |
| PrintfArguments.StarWidthPrints | fckrnl/libk/kprintf/kprintf.c:661-676 | a width of * prints as the argument written out, a negative one as the - flag and its magnitude |
| PrintfArguments.StarPrecisionPrints | fckrnl/libk/kprintf/kprintf.c:678-692 | a precision of * prints as the argument written out, a negative one as 0 |
| PrintfArguments.NegativePrecisionExactly | fckrnl/libk/kprintf/kprintf.c:678-692 | an integer with a negative precision prints as C11 asks, which is as with none, exactly when it is not 0 and the 0 flag adds nothing |
| PrintfArguments.NegativePrecisionOfText | fckrnl/libk/kprintf/kprintf.c:915-941 | ... and a string exactly when it is no more than padding |
| PrintfLaws.IntegerPrintsAsC11 | fckrnl/libk/kprintf/kprintf.c:211-263 | an integer conversion without # prints what C11 asks for exactly when the scratch buffer has room and - drops no precision |
| PrintfMeaning.RoundTrip | fckrnl/libk/kprintf/kprintf.c:185-325 | every 64-bit value printed in octal, decimal or hexadecimal reads back with its sign |
| PrintfMeaning.ReadBack | fckrnl/libk/kprintf/kprintf.c:185-325 | in any base from 2 to 16 what reads back is the value modulo base^32 |
| PrintfLaws.IntegerReadsBack | fckrnl/libk/kprintf/kprintf.c:597-988 | %d, %i, %u, %x, %X and %o read back as the value fetched, which PrintfDirectives.DirectivePrintsAsC11 ties to the length modifier |
| PrintfLaws.IntegerLength | fckrnl/libk/kprintf/kprintf.c:185-263 | an integer conversion without # is as long as its width, or as the sign and the digits padded to the precision |
| PrintfLaws.StringLength | fckrnl/libk/kprintf/kprintf.c:915-941 | %s is as long as its width or the part of the string the precision lets through |
| PrintfMeaning.HashKeepsDigits | fckrnl/libk/kprintf/kprintf.c:231-250 | the # flag keeps every digit exactly when it takes off no more characters than there are padding zeros |
| PrintfLaws.AtoiInverts | fckrnl/libk/kprintf/kprintf.c:174-182 | _atoi reads any number printed in decimal, modulo 2^32, and stops behind it |
| PrintfLaws.StarIsWidth | fckrnl/libk/kprintf/kprintf.c:661-676 | a width given as * and an argument is the width written out |
| PrintfLaws.FormatsFollow | fckrnl/libk/kprintf/kprintf.c:597-988 | a complete format prints the same in front of any other, which goes on with the arguments left |
| PrintfLaws.EscapedPrints | fckrnl/libk/kprintf/kprintf.c:597-988 | every text is printed by some format |
| Printf.Vsnprintf | fckrnl/libk/kprintf/kprintf.c:597-988 | the buffer gets the first count - 1 characters of the whole text and a NUL, character by character, and nothing when count is 0; the full length is returned whatever count is, modulo 2^32; the text is that of the directives above |
| Irq.OverriddenExactly | fckrnl/dd/apic/apic.c:29-43 | the entry of an overridden interrupt carries it exactly when the second loop does not skip it, or no other ISA interrupt has the number of its gsi |
| Apic.VectorsOfIrqs | fckrnl/dd/apic/apic.c:29-43 | with no overridden interrupt as another's target, every overridden interrupt and every untouched one ends up with its own vector |
| Irq.ResolveFirst | fckrnl/dd/apic/apic.c:174-191 | the first override of an interrupt in the table counts |
| Apic.MaxRedirField | fckrnl/dd/apic/apic.c:117-120 | bits 16 to 23 of the version register are the number of the last entry |
| Apic.EntryFields | fckrnl/dd/apic/apic.c:141-172 | the fields of an entry, for any vector, flags and mask |
| Apic.FoundExactly | fckrnl/dd/apic/apic.c:122-139 | an I/O APIC is found exactly when the gsi lies below the last entry of one |
| Apic.LastEntryLost | fckrnl/dd/apic/apic.c:122-139 | the I/O APIC of a gsi is found exactly when the gsi is not that of its last entry, whose number is the field of the version register |
| Apic.IoApics.Init | fckrnl/dd/apic/apic.c:29-43 | the loops of apic_init write those entries, or panic exactly when the gsi of an interrupt is not below the last entry of an I/O APIC |
| Apic.IoApics.SetGsiRedir | fckrnl/dd/apic/apic.c:141-172 | ioapic_set_gsi_redir writes the two words of one entry and no other register, exactly when the gsi is below the last entry of an I/O APIC |
| Apic.IoApics.SetIrqRedir | fckrnl/dd/apic/apic.c:174-191 | ioapic_set_irq_redir goes by the first override of the interrupt, or by the identity, and succeeds exactly when that gsi is below the last entry of an I/O APIC |

## Findings

What one would expect of the code and does not hold, with the exact condition:

* pmm_alloc of several pages looks at one page only (Frames.HandsOutFreePagesExactly, FrameRuns.AgreesExactly): it is
  right exactly for one page; malloc keeps its blocks apart exactly for one page (Malloc.MallocApartExactly).
* pmm_alloc of several pages can mark past the end of the bitmap (FrameRuns.StaysInsideExactly).
* The bitmap lies in the memory it manages: pmm_allocz of two pages or more clears it in some state, by an unchecked run
  or by the memset at NULL, and pmm_allocz of one page does when the bitmap is at page 0 (BitmapStorage.SparedExactly,
  BitmapStorage.SparesBitmapExactly, BitmapStorage.WipedReachable).
* The bitmap of pmm_init can be short by up to seven pages (MemoryMap.BitmapCoversExactly,
  MemoryMap.BitmapFallsShort).
* pmm_allocz clears page 0 when there is no page (Memory.Pmm.AllocPagesZeroed); mapping without a frame for every
  missing table destroys the tree (PageTableLimits.MappingNeedsFramesExactly).
* Unmapping a page that was never mapped takes frames and loses them (PageTableUpdates.SetAbsent,
  PageTableInit.UnmapPagesLoses).
* PTE_PAT is bit 7, which is PS or reserved in the tables above (PageTableLimits.PlainFlagsExactly,
  KernelWindows.Bit7HidesPage).
* A range that ends in the last page of the address space is not mapped at all (PageTableInit.RangeToTheTop), and one
  whose shifted end wraps is not unmapped (PageTableInit.OtherwiseUnmapsNothing).
* Mapped at an offset that is not a multiple of a page, a range can be unmapped a page further on
  (PageTableInit.ShiftedRangeExactly, PageTableInit.ShiftedRangeDiffers).
* slab_cache_grow drops the slabs behind the first (SlabRuns.GrowDropsExactly, SlabRuns.RunStaysWhole), after which
  slab_cache_free can panic (SlabReturns.ReturnsExactly, SlabReturns.PanicReachable).
* slab_cache_reap can free the page of live objects (SlabReap.ReapKeepsExactly, SlabReap.UnsafeReapReachable), because
  slab_cache_free puts an object on the first slab with room.
* slab_cache_alloc with SLAB_AUTO_GROW and without SLAB_PANIC never comes back when no page is free
  (SlabRuns.AllocDelivers).
* Objects of 4 and 8 bytes have no room for their own links (SlabSmall.NewListEndsExactly): the cache of 8 bytes, which
  serves malloc of 3 to 6 bytes, hands out an object that is in use (SlabSmall.HandedOutTwice).
* malloc(511), malloc(512) and malloc(2^64 - 1) are too small for what was asked (Malloc.BlockIsLargeEnough).
* free takes an object that starts a page for pages, and frees the page under the slab (Malloc.SmallFreeExactly); the
  first object of every cache is one (Malloc.FirstBlockStartsPage).
* free of a block of 65536 pages or more loses pages (Malloc.LargeFreeExactly, Malloc.WideBlockLost).
* A negative precision given as an argument is taken as 0, not as none: "%.*s" prints no character of the string
  (PrintfArguments.NegativePrecisionOfText, PrintfArguments.NegativePrecisionExactly).
* The # flag and the - flag of the formatter can drop digits and zeros (PrintfMeaning.HashKeepsDigits,
  PrintfHash.HashPrintsAsC11, PrintfDirectives.DirectivePrintsAsC11): "%#2x" of 0xab prints "0x" (PrintfMeaning.HashDropsAll), and "%-.3d" of 7 prints "7"
  (PrintfMeaning.LeftDropsZeros).
* An overridden interrupt can lose its entry to the interrupt that has the number of its gsi
  (Irq.OverriddenExactly, Irq.LosesItsEntry), and the last entry of an I/O APIC is never found (Apic.LastEntryLost).

## Left out

- Memory.Pmm.Init: memory maps that reach 8 TiB (bit numbers are C ints), that have no entry with room for the bitmap, or whose pages the bitmap does not cover; MemoryMap.BitmapCoversExactly says which those are.
- Memory.Pmm.AllocPagesZeroed: the bytes of the bitmap are an array of their own; the words of memory at its storage do not show them, and every other holder of pages is proved to keep off those words.
- Memory.Pmm.AllocPages: requests that the bitmap has no room for behind the last page searched; FrameRuns.StaysInsideExactly says what goes wrong.
- VirtualMemory.Vmm.SetPtValue: flags of 512 and more, and flags with bit 7 where a table is missing; PageTables.MaskRecoversExactly and PageTableLimits.PlainFlagsExactly say what goes wrong.
- VirtualMemory.Vmm.MapRange: flags without the present bit, and ranges for which frames run out; PageTableUpdates.SetAbsent and PageTableLimits.MappingNeedsFramesExactly say what one page comes to.
- SlabCaches.SlabCache.Create: object sizes below 16 bytes; SlabSmall has their account, on memory of 32-bit words.
- KernelHeaps.KernelHeap.Malloc: sizes up to 6, which go to the caches of 4 and 8 bytes, and for more than one page the state of the other blocks, which Malloc.MallocApartExactly says may be overwritten.
- KernelHeaps.KernelHeap.Init: the caches of 4 and 8 bytes, and the pages they take.
- KernelHeaps.KernelHeap.Free: pointers that malloc has not handed out, or that have been freed.
- Printf.Vsnprintf: %f, %e and %g, which the kernel is built without, a string that is NULL, an argument that is missing, and formats that end inside a conversion; output through a function other than the buffer's.
- PrintfHash.HashPrintsAsC11: # with a precision, and # with %b, which C11 does not have; PrintfMeaning.HashKeepsDigits says when they lose digits.
- PrintfArguments.PointerPrints: flags and a precision with %p, for which C11 gives no meaning.
- Apic.IoApics.Init: gsis from 128 on, which the bitmap of 16 bytes has no bit for, and I/O APICs with more than 120 entries.
- slab_cache_destroy and slab_cache_dump: teardown and printing.
- The TLB flush, CR3 and the registers of the local APIC: hardware effects.
- The search for ACPI tables: the overrides and the I/O APICs are inputs.
- Serial output, logging, assert and panic: a panic is an outcome.
- The stivale2 header: entries of the memory map are a base, a length and a type.
- Concurrency: the kernel runs these parts on one processor.
