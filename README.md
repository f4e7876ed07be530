# con64os kernel core in Dafny

con64os is a small x86-64 kernel loaded by the BOOTBOOT protocol. This
project models the core of its kernel and proves properties of the model:
the physical page allocator, the kernel heap, the virtual address spaces, the
generic doubly linked list, the logger, and the drivers for ACPI, PCIe, the
local and I/O APIC, the HPET, AHCI, the interrupt table, the GDT and the
framebuffer terminal.

Each module follows one source file:

| module | file | models |
|---|---|---|
| `Machine` | machine.dfy | fixed-width integers and their wrap-around, little-endian loads, the `Outcome` of an operation that can halt (`for(;;)` in the source), `Option` |
| `BootBoot` | bootboot.dfy | the BOOTBOOT hand-off structure and its memory map entries (`Kernel/util/bootboot.h`) |
| `PhysAlloc` | physalloc.dfy | the physical page allocator: the brief bitmap, the large-page bitmap and one allocation bitmap per subdivided large page (`Kernel/mem/physalloc.cpp`) |
| `LinkedList` | list.dfy | `List<T>` as a class over linked nodes (`Kernel/util/list.h`) |
| `KernelHeap` | heap.dfy | the heap as chunks of blocks: first-fit allocation, splitting, merging and chunk release (`Kernel/mem/heap.cpp`) |
| `HeapLinks` | heaplinks.dfy | the same heap at the level of its descriptors and their `previous`/`next` links |
| `VirtualRegions` | regions.dfy | the region list of an address space and `mapObject`'s placement |
| `PagingEntries` | paging.dfy | the bit fields of paging entries (`Kernel/mem/vas.h`) |
| `AddressSpaces` | vas.dfy | address spaces, the page-table walk and the mapping of objects (`Kernel/mem/vas.cpp`) |
| `MemoryObjects` | vmobjects.dfy | MMIO and memory-backed objects and their pages (`Kernel/mem/vmobjects.cpp`) |
| `Logging` | logger.dfy | the logger's number printing, its hex flag and `printFormat` (`Kernel/util/logger.cpp`, `Kernel/util/logger.h`) |
| `Acpi` | acpi.dfy | the root table, checksums and the table list (`Kernel/driver/acpi/acpibase.cpp`) |
| `Hpet` | hpet.dfy | the HPET set-up and its timed-event queue (`Kernel/driver/arch/hpet.cpp`) |
| `Apic` | apic.dfy | the local APIC, the I/O APICs and the MADT walk (`Kernel/driver/arch/apic.cpp`) |
| `Pcie` | pcie.dfy | the MCFG, configuration space, enumeration, capabilities and MSI (`Kernel/driver/bus/pcie/pcie.cpp`) |
| `Ahci` | ahcibase.dfy | AHCI port state, command issue and interrupt service as functions (`Kernel/driver/ahci/ahcibase.cpp`) |
| `AhciHost` | ahcihost.dfy | the `AHCI` object, whose methods are proved against `Ahci` |
| `Interrupts` | ints.dfy | the IDT, vector reservation, MSI address and data, and dispatch (`Kernel/driver/arch/ints.cpp`) |
| `Gdt` | gdt.dfy | the GDT page and its entries (`Kernel/driver/arch/gdt.cpp`) |
| `GraphicsTerminal` | graphicsterm.dfy | the framebuffer terminal: cursor, glyph painting and pixel writes (`Kernel/driver/text/graphicsterm.cpp`) |

The source changes state in place, and the model follows it. Its objects
are classes whose methods are proved against pure specification functions of
the old state. The properties are proved about those functions as lemmas.
Where the source halts with `for(;;)`, the model returns `Hang`. The main
members model the code as written, with two exceptions listed under
"## Left out": the heap's `free` merges blocks in address order instead of
through the descriptors' `previous` links, and the allocation list of
`mapObject` and the event queue of `createTimedEvent` are exact sequences
instead of the source's `List` with its count. Lemmas next to each
exception show what the source does instead. Where the code departs from
what it evidently intends, a corrected twin sits next to it, with lemmas
relating the two (see "## Findings").

## Model

| member | source | states |
|---|---|---|
| BootBoot.MemoryMapEntry.Size | Kernel/util/bootboot.h:31 | the size with the four type bits cleared: a multiple of 16, at most the stored word and within 16 of it |
| BootBoot.MemoryMapEntry.Type | Kernel/util/bootboot.h:32 | the four low bits; size and type put back together give the stored word |
| BootBoot.MemoryMapEntry.WithAddress | Kernel/util/bootboot.h:34 | the new address is stored; size and type are kept |
| BootBoot.MemoryMapEntry.WithSize | Kernel/util/bootboot.h:35 | the new size loses its low four bits, the address and type are kept, and a 64-bit entry stays 64-bit |
| BootBoot.MemoryMapEntry.WithType | Kernel/util/bootboot.h:36 | the new type is stored; address and size are kept |
| BootBoot.EntryCount | Kernel/mem/physalloc.cpp:9 | for a size of at least 128 bytes, the number of whole 16-byte entries after the header; below 128 the 32-bit subtraction wraps and the count is at least (2^32 - 128) / 16 |
| BootBoot.Structure.Register | Kernel/util/bootboot.h:71-82 | each of the six physical pointers is moved up by the paging base, as a wrapping 64-bit addition; every other field is unchanged |
| Acpi.Validate | Kernel/driver/acpi/acpibase.cpp:84-95 | true exactly when the bytes of the whole table, `length` of them, add up to 0 modulo 256 |
| Acpi.ChecksumDetermined | Kernel/driver/acpi/acpibase.cpp:84-95 | exactly one value of the checksum byte makes a table pass the check |
| Acpi.EntryWidth | Kernel/driver/acpi/acpibase.cpp:27 | an entry is 8 bytes when the signature starts with 'X', otherwise 4 |
| Acpi.EntriesWithinTable | Kernel/driver/acpi/acpibase.cpp:27-28 | the entries counted by (length - 36) / width fill the table after its header, up to less than one entry |
| Acpi.Entries | Kernel/driver/acpi/acpibase.cpp:34-38 | the first n entries of the root table, the i-th being the address stored in entry i |
| Acpi.PassingInOrder | Kernel/driver/acpi/acpibase.cpp:35-53 | the list keeps the root table's order: the k-th listed table is the entry at the k-th kept position, and those positions ascend |
| Acpi.PassingIndicesExactly | Kernel/driver/acpi/acpibase.cpp:41-51 | an entry's position is kept exactly when its table passes the checksum |
| Acpi.PassingExactly | Kernel/driver/acpi/acpibase.cpp:41-51 | a table is listed exactly when it is among the entries and passes the checksum |
| Acpi.PassingStep | Kernel/driver/acpi/acpibase.cpp:35-53 | one pass of the listing loop appends entry i exactly when its table is valid |
| Acpi.RootMissingExactly | Kernel/driver/acpi/acpibase.cpp:6-7 | the null test on the rebased pointer fires only for the physical address 2^64 minus the paging base, never for 0 |
| Acpi.NullTestOnRebasedPointer | Kernel/driver/acpi/acpibase.cpp:6-11 | the null test as written and the corrected one agree on every pointer but two; without a root (0) the corrected kernel halts, while as written it lists the tables of a valid-looking root at physical 0 |
| Acpi.InitializeListsValid | Kernel/driver/acpi/acpibase.cpp:3-82 | when initialisation finishes, the root passed its checksum and every listed table lies in memory and passes its own |
| Acpi.FindTable | Kernel/driver/acpi/acpibase.cpp:97-116 | no result exactly when no listed table has the signature; otherwise the first listed table that has it |
| Acpi.SignatureMatches | Kernel/driver/acpi/acpibase.cpp:105-107 | true exactly when all four signature characters match |
| Acpi.Directory.Initialize | Kernel/driver/acpi/acpibase.cpp:3-82 | halts exactly when the specification function halts; otherwise the table list is the one it computes |
| Acpi.Directory.ListTables | Kernel/driver/acpi/acpibase.cpp:22-78 | the table list becomes the root entries whose tables pass the checksum, in root-table order |
| Acpi.Directory.GetTableBySignature | Kernel/driver/acpi/acpibase.cpp:97-116 | returns the table FindTable gives, the first match or none |
| Acpi.Directory.constructor | Kernel/driver/acpi/acpibase.h:60-61 | before `initialize` there is no root table and no table list |
| PhysAlloc.BriefCode | Kernel/mem/physalloc.h:46-51 | each brief type's 2-bit code, below 4, decodes back to that type |
| PhysAlloc.Entry | Kernel/mem/physalloc.h:58-61 | the stored owner is the process id cut to its 24-bit field, and the flags are kept |
| PhysAlloc.GetField | Kernel/mem/physalloc.cpp:334-336 | a brief-bitmap field is a 2-bit value |
| PhysAlloc.SetField | Kernel/mem/physalloc.cpp:303-307 | the written field reads back as the new code and the other three fields of the byte keep their values |
| PhysAlloc.SetBrief | Kernel/mem/physalloc.cpp:294-309 | the page gets the new type, every other page keeps its type, and only the byte holding the page changes |
| PhysAlloc.SetBriefRestore | Kernel/mem/physalloc.cpp:294-309 | writing a page's old type back restores the whole brief bitmap |
| PhysAlloc.FirstBrief | Kernel/mem/physalloc.cpp:117-130 | the lowest page at or above the start with the given type, or the bitmap's end when there is none |
| PhysAlloc.FirstClear | Kernel/mem/physalloc.cpp:141-159 | the lowest entry at or above the start whose Allocated flag is clear, or 511 when all are set |
| PhysAlloc.SmallPageAddress | Kernel/mem/physalloc.cpp:155 | the address handed out for entry k lies in its large page, off the large-page boundary, page aligned and below 16 GiB |
| PhysAlloc.EntryIndexOf | Kernel/mem/physalloc.cpp:277 | the corrected entry index of an address is its frame number less one, between -1 and 510 |
| PhysAlloc.EntryIndexOfSmallPage | Kernel/mem/physalloc.cpp:155 | the corrected index recovers the entry a handed-out address came from |
| PhysAlloc.NewSmallBitmap | Kernel/mem/physalloc.cpp:179-183 | a newly subdivided page has 510 free pages, entry 0 owned by the caller and every other entry clear |
| PhysAlloc.AllocateInNew | Kernel/mem/physalloc.cpp:178-187 | as written, subdividing a page always hands out address 0x1000, computed from the still-zero partially free index |
| PhysAlloc.FixedAllocateInNew | Kernel/mem/physalloc.cpp:178-187 | the corrected subdivision leaves the same state and hands out the first small page of the subdivided page |
| PhysAlloc.EntryIndexAsWritten | Kernel/mem/physalloc.cpp:277 | as written, the entry index is the frame number within the large page, at most 511 |
| PhysAlloc.AllocateInPartialWellFormed | Kernel/mem/physalloc.cpp:133-165 | allocation inside a partially free page keeps the allocator state well formed |
| PhysAlloc.AllocateInNewWellFormed | Kernel/mem/physalloc.cpp:168-189 | subdividing a fully free page keeps the state well formed |
| PhysAlloc.AllocatePreservesWellFormed | Kernel/mem/physalloc.cpp:99-233 | every allocation, small or large, keeps the state well formed |
| PhysAlloc.FreePreservesWellFormed | Kernel/mem/physalloc.cpp:235-292 | freeing as written keeps the state well formed |
| PhysAlloc.FixedFreePreservesWellFormed | Kernel/mem/physalloc.cpp:235-292 | the corrected free keeps the state well formed |
| PhysAlloc.AllocateLargeTakesLowestFree | Kernel/mem/physalloc.cpp:194-228 | a large allocation halts exactly when the count is 0 or no page above 0 is fully free; otherwise it takes the lowest fully free page, marks it singly allocated and owned by the caller, decrements the count and leaves every other page's type alone |
| PhysAlloc.AllocateLargeThenFree | Kernel/mem/physalloc.cpp:194-264 | freeing a large page right after allocating it restores the bitmaps and the counts |
| PhysAlloc.BriefPagesDetermineBitmap | Kernel/mem/physalloc.cpp:294-338 | two brief bitmaps that give every page the same type, and agree past the last page, are equal |
| PhysAlloc.AllocateInPartialPlacement | Kernel/mem/physalloc.cpp:141-156 | allocation in a partially free page records the caller in its lowest clear entry, hands out an address inside that page, and decrements the free count |
| PhysAlloc.AllocateInNewPlacement | Kernel/mem/physalloc.cpp:178-187 | the corrected subdivision hands out the page's first small page, marks the page partially free with 510 pages left, and decrements the free count |
| PhysAlloc.AllocateSmallChoosesPage | Kernel/mem/physalloc.cpp:105-191 | a small allocation halts at a zero count; it prefers the lowest partially free page, subdivides the lowest fully free page only when there is none, and halts when there is neither |
| PhysAlloc.AllocateSmallThenFree | Kernel/mem/physalloc.cpp:133-290 | with the corrected paths, freeing a page just taken from a partially free page clears its entry and restores the counts and brief types |
| PhysAlloc.AllocateNewSmallThenFree | Kernel/mem/physalloc.cpp:168-290 | with the corrected paths, freeing a page just taken from a newly subdivided page makes that page fully free again |
| PhysAlloc.FreeIgnoresForeignAddresses | Kernel/mem/physalloc.cpp:244-273 | addresses at or above 16 GiB, reserved large pages and small addresses in pages that are not subdivided change nothing |
| PhysAlloc.FirstSuitable | Kernel/mem/physalloc.cpp:22-31 | the first region that lies above 1 MiB, is free and can hold the 17 bitmap pages, or the entry count when there is none |
| PhysAlloc.ShrinkForBitmaps | Kernel/mem/physalloc.cpp:42-48 | a region of exactly the needed size becomes used; a larger one starts after the bitmaps (64-bit addition) and shrinks by their size |
| PhysAlloc.RunOf | Kernel/mem/physalloc.cpp:58-80 | a region's freed run counts whole 2 MiB pages of its aligned size |
| PhysAlloc.CreditStep | Kernel/mem/physalloc.cpp:88-89 | adding one region's credit with 64-bit wrap keeps both counts equal to the wrapped running totals |
| PhysAlloc.BitmapFramesStayReserved | Kernel/mem/physalloc.cpp:40-85 | no large page freed by the shrunken region overlaps the bitmaps carved from its start |
| PhysAlloc.MarkedSkipsRegion | Kernel/mem/physalloc.cpp:57-60 | a region that frees no large page leaves the marking unchanged |
| PhysAlloc.MarkedIsWellFormed | Kernel/mem/physalloc.cpp:50-91 | right after initialisation no page is subdivided and the state is well formed |
| PhysAlloc.FixedAllocateSameState | Kernel/mem/physalloc.cpp:99-233 | the corrected allocation leaves the same state and halts in the same cases; it returns a different address only when it subdivides a page |
| PhysAlloc.NewPageAddressAsWrittenMissesPage | Kernel/mem/physalloc.cpp:187 | as written, subdividing page f hands out 0x1000, which lies in page 0, so freeing it never releases the entry recorded for f |
| PhysAlloc.FreeSmallAsWrittenIsOneOff | Kernel/mem/physalloc.cpp:277-281 | as written, freeing the page handed out for entry k keeps entry k allocated and clears entry k+1 instead (nothing for the last entry), while the corrected free clears entry k; both bump the page's count |
| PhysAlloc.PhysicalAllocator.GetBriefBitmapEntry | Kernel/mem/physalloc.cpp:325-338 | halts exactly for an index past the bitmap; otherwise the page's type |
| PhysAlloc.PhysicalAllocator.GetLargePageBitmapEntry | Kernel/mem/physalloc.cpp:340-351 | halts exactly for an index past the bitmap; otherwise the page's entry |
| PhysAlloc.PhysicalAllocator.SetBriefBitmapEntry | Kernel/mem/physalloc.cpp:294-309 | halts exactly for an index past the bitmap, changing nothing; otherwise the bitmap becomes SetBrief of the old one |
| PhysAlloc.PhysicalAllocator.SetLargePageBitmapEntry | Kernel/mem/physalloc.cpp:311-323 | halts exactly for an index past the bitmap; otherwise only that page's entry changes |
| PhysAlloc.PhysicalAllocator.ResetBitmaps | Kernel/mem/physalloc.cpp:50-52 | every page is singly allocated and owned by the reserved process |
| PhysAlloc.PhysicalAllocator.MarkRun | Kernel/mem/physalloc.cpp:78-85 | the region's run of pages is marked free, stopping at the bitmap's end |
| PhysAlloc.PhysicalAllocator.CreditRun | Kernel/mem/physalloc.cpp:87-89 | the counts grow by the run's small and large pages, with 64-bit wrap |
| PhysAlloc.PhysicalAllocator.MarkFreeRegions | Kernel/mem/physalloc.cpp:54-91 | after the first n regions, the bitmaps hold the marking and the counts the wrapped credits of those regions |
| PhysAlloc.PhysicalAllocator.MarkRegion | Kernel/mem/physalloc.cpp:55-91 | one region's step of the marking loop |
| PhysAlloc.PhysicalAllocator.Initialize | Kernel/mem/physalloc.cpp:4-97 | halts exactly when no region can hold the bitmaps; otherwise that region is shrunk, the bitmaps lie at its old start, and the marking and counts are those of every region |
| PhysAlloc.PhysicalAllocator.FindFirstBrief | Kernel/mem/physalloc.cpp:117-130 | the scan returns FirstBrief from page 1 |
| PhysAlloc.PhysicalAllocator.AllocateLargePage | Kernel/mem/physalloc.cpp:194-228 | the new state and result are those of AllocateLarge |
| PhysAlloc.PhysicalAllocator.FindClearEntry | Kernel/mem/physalloc.cpp:141-159 | the scan returns FirstClear from entry 0 |
| PhysAlloc.PhysicalAllocator.AllocateInPartiallyFree | Kernel/mem/physalloc.cpp:133-165 | the new state and result are those of AllocateInPartial |
| PhysAlloc.PhysicalAllocator.AllocateInNewPage | Kernel/mem/physalloc.cpp:168-189 | the new state and result are those of AllocateInNew, as written |
| PhysAlloc.PhysicalAllocator.AllocateSmallPage | Kernel/mem/physalloc.cpp:105-191 | the new state and result are those of AllocateSmall |
| PhysAlloc.PhysicalAllocator.AllocatePage | Kernel/mem/physalloc.cpp:99-233 | keeps the allocator valid; the new state and result are those of Allocate |
| PhysAlloc.PhysicalAllocator.FreeLargePage | Kernel/mem/physalloc.cpp:250-266 | the new state is FreeLarge of the old one |
| PhysAlloc.PhysicalAllocator.FreeSmallPage | Kernel/mem/physalloc.cpp:269-290 | the new state is FreeSmall of the old one, as written |
| PhysAlloc.PhysicalAllocator.FreePage | Kernel/mem/physalloc.cpp:235-292 | keeps the allocator valid; the new state is Free of the old one |
| PhysAlloc.PhysicalAllocator.FindBitmapChunk | Kernel/mem/physalloc.cpp:22-31 | the search returns the first memory-map entry that can hold the bitmaps, or the entry count when none can |
| PhysAlloc.PhysicalAllocator.constructor | Kernel/mem/physalloc.h:69-72 | before `initialize` both free counts are 0, and there are no small-page allocation bitmaps |
| LinkedList.List.NodesDistinct | Kernel/util/list.h:186-196 | the nodes a valid list links together are pairwise distinct |
| LinkedList.List.Size | Kernel/util/list.h:167-169 | the size is the length of the list's visible contents, that is the count |
| LinkedList.List.AppendBack | Kernel/util/list.h:28-68 | the new state is AppendBackState of the old one: the value goes last and the count grows by one |
| LinkedList.List.AppendFront | Kernel/util/list.h:70-110 | the new state is AppendFrontState of the old one: the value goes first and the count grows by one |
| LinkedList.List.GetReference | Kernel/util/list.h:198-225 | halts exactly when the index is not below the count; otherwise the node reached from the front, or from the back for an index past half the count |
| LinkedList.List.Get | Kernel/util/list.h:171-181 | halts exactly for an index at or past the visible length; otherwise the element at that index of the visible contents |
| LinkedList.List.InsertInMiddle | Kernel/util/list.h:119-133 | the value is linked in before the node at k and the count is left as it was |
| LinkedList.List.InsertAt | Kernel/util/list.h:112-135 | the new state is InsertAtState of the old one, as written |
| LinkedList.List.Remove | Kernel/util/list.h:137-165 | halts exactly for an index at or past the count, changing nothing; otherwise the new state is RemoveState of the old one |
| LinkedList.List.RemoveFirst | Kernel/util/list.h:143-147 | the first element goes and the count drops by one |
| LinkedList.List.RemoveLast | Kernel/util/list.h:148-152 | the last element goes and the count drops by one |
| LinkedList.List.RemoveMiddle | Kernel/util/list.h:153-157 | the element at k goes and the count drops by one |
| LinkedList.List.Destroy | Kernel/util/list.h:16-26 | every node of the list is released, in order from the first |
| LinkedList.InsertedAt | Kernel/util/list.h:112-135 | one longer; the value at the index with the elements before and after it kept, or appended at an index past the end |
| LinkedList.RemovedAt | Kernel/util/list.h:137-165 | one shorter, with the elements before the index kept and those after it moved down by one |
| LinkedList.RemoveUndoesInsert | Kernel/util/list.h:112-165 | removing at the index where a value was inserted gives back the original sequence |
| LinkedList.Position | Kernel/util/list.h:207-223 | the chain position that getReference reaches lies within the chain |
| LinkedList.View | Kernel/util/list.h:167-181 | what the list shows has exactly count elements |
| LinkedList.ExactView | Kernel/util/list.h:167-181 | when the count matches the chain, the list shows the chain itself |
| LinkedList.AppendKeepsExact | Kernel/util/list.h:28-110 | appending at either end keeps the count exact and shows the value added at that end |
| LinkedList.RemoveKeepsExact | Kernel/util/list.h:137-165 | removal keeps the count exact and shows the element at the index removed |
| LinkedList.FixedInsertAtKeepsExact | Kernel/util/list.h:112-135 | the corrected insertion, which counts the middle case, keeps the count exact and shows the value inserted at the index |
| LinkedList.InsertAtAgrees | Kernel/util/list.h:112-135 | the insertion as written links the same chain as the corrected one, and the two states are equal exactly when the insertion is not in the middle |
| LinkedList.InsertAtHidesOne | Kernel/util/list.h:119-133 | for every middle insertion into an exact list, the count stays behind: the list is no longer exact and no longer shows the element at position count/2 + 1 of the chain |
| LinkedList.AppendLeavesEndIndeterminate | Kernel/util/list.h:187-191 | with the node's links left uninitialised, an appended node leaves the list's far end link indeterminate |
| LinkedList.FixedAppendKeepsEndsNull | Kernel/util/list.h:187-191 | with links set to null, appending keeps both end links null |
| LinkedList.List.constructor | Kernel/util/list.h:194-196 | a new list has no nodes and a count of 0 |
| LinkedList.Node.constructor | Kernel/util/list.h:186-191 | a new node holds its value; its links are null here, where the source leaves them uninitialized |
| KernelHeap.Adjusted | Kernel/mem/heap.cpp:19 | the rounded request is a multiple of 32 and less than 32 above the request, except that a request within 31 bytes of 2^64 wraps to 0 |
| KernelHeap.FixedAdjusted | Kernel/mem/heap.cpp:19 | unbounded rounding: a multiple of 32, never below the request and less than 32 above it |
| KernelHeap.FixedAdjustedAgrees | Kernel/mem/heap.cpp:19 | the two roundings agree whenever the 64-bit sum does not wrap |
| KernelHeap.OffsetStep | Kernel/mem/heap.cpp:170 | each descriptor starts where the previous block's descriptor and payload end |
| KernelHeap.OffsetsIncrease | Kernel/mem/heap.cpp:170 | a block ends at or before every later descriptor |
| KernelHeap.PayloadWithinChunk | Kernel/mem/heap.cpp:185 | a payload lies after the chunk header and inside the 2 MiB chunk, and ends where the next descriptor begins |
| KernelHeap.IndexOfOffset | Kernel/mem/heap.cpp:55 | the descriptor found at a block's offset is that block's own |
| KernelHeap.ChunkBase | Kernel/mem/heap.cpp:54 | clearing the low 21 bits gives the 2 MiB aligned page holding the address |
| KernelHeap.FirstFit | Kernel/mem/heap.cpp:159-193 | the found block is free and large enough, and no earlier block is |
| KernelHeap.PlaceWellFormed | Kernel/mem/heap.cpp:163-185 | taking a block keeps the chunk well formed; the taken block is allocated and large enough, and is split in two exactly when the rest can hold a descriptor and 32 bytes |
| KernelHeap.FreeBlockMergesRun | Kernel/mem/heap.cpp:58-83 | freeing a block replaces it and its free neighbours by one free block spanning all their bytes, their descriptors included |
| KernelHeap.MergesWithPrevious | Kernel/mem/heap.cpp:63-73 | a free previous block absorbs the freed one and the free run after it |
| KernelHeap.MergesWithoutPrevious | Kernel/mem/heap.cpp:74-83 | without a free previous block, the freed block absorbs the free block after it |
| KernelHeap.FreeBlockWellFormed | Kernel/mem/heap.cpp:58-83 | freeing keeps the chunk well formed: bytes are conserved and no two free blocks are left adjacent |
| KernelHeap.MergedRunWellFormed | Kernel/mem/heap.cpp:58-83 | the single free block replacing the merged run fits a well-formed chunk |
| KernelHeap.PlaceThenFree | Kernel/mem/heap.cpp:58-83 | freeing the block just taken gives the chunk back exactly as it was |
| KernelHeap.PlaceThenFreeSplit | Kernel/mem/heap.cpp:170-179 | freeing a block that was split off re-merges the split remainder |
| KernelHeap.PlaceThenFreeWhole | Kernel/mem/heap.cpp:184 | freeing a block taken whole between allocated neighbours restores it |
| KernelHeap.WholeChunkFree | Kernel/mem/heap.cpp:86-87 | the first descriptor is free with the full payload exactly when the chunk is one free block |
| KernelHeap.FittingChunk | Kernel/mem/heap.cpp:29-34 | the chunk found is the first in list order that has a fitting block; no earlier chunk has one |
| KernelHeap.FindAllocationFound | Kernel/mem/heap.cpp:156-198 | `findAllocation` takes the first fitting block and returns its payload address, keeping the heap well formed |
| KernelHeap.AppendChunkCases | Kernel/mem/heap.cpp:96-130 | a halting page request leaves the heap unchanged; otherwise one fully free chunk at the direct-map address of the page ends the list |
| KernelHeap.Erase | Kernel/mem/heap.cpp:135-146 | unlinking keeps only listed chunks and keeps every other chunk |
| KernelHeap.BlockIndex | Kernel/mem/heap.cpp:55 | the descriptor in front of a heap pointer is a block of its chunk whose payload address is that pointer |
| KernelHeap.FreeCases | Kernel/mem/heap.cpp:48-94 | `free` removes the chunk when it is left as one free block, and otherwise keeps the merged blocks |
| KernelHeap.AppendChunkWellFormed | Kernel/mem/heap.cpp:96-130 | appending keeps the heap well formed and backed; the new chunk was not in the heap and is one free block at the end of the list |
| KernelHeap.NewChunkIsFresh | Kernel/mem/heap.cpp:99-101 | the page handed out is not yet a chunk and its address is 2 MiB aligned |
| KernelHeap.NewChunkBacked | Kernel/mem/heap.cpp:99-101 | every chunk is backed by a kernel large page after the append |
| KernelHeap.PayloadInsideChunk | Kernel/mem/heap.cpp:185 | every payload pointer of a well-formed chunk lies strictly inside the chunk |
| KernelHeap.PayloadLocatesBlock | Kernel/mem/heap.cpp:54-55 | the pointer handed out for a block leads `free` back to that chunk and that block |
| KernelHeap.EraseDistinct | Kernel/mem/heap.cpp:135-146 | unlinking a chunk from a list without repeats leaves every other chunk once, without repeats |
| KernelHeap.EraseAppended | Kernel/mem/heap.cpp:135-146 | unlinking the chunk appended last gives the list as before the append |
| KernelHeap.ReleaseFreesOnlyChunkPage | Kernel/mem/heap.cpp:149 | freeing the chunk's page by its physical address changes only that page's record, which becomes fully free, and counts one more free large page |
| KernelHeap.RemoveChunkWellFormed | Kernel/mem/heap.cpp:132-154 | removing a chunk and freeing its page keeps the heap well formed and backed |
| KernelHeap.RemoveChunkLeaksPage | Kernel/mem/heap.cpp:149 | as written, `freePage` gets the direct-map address, which the physical allocator ignores, so the frames are unchanged |
| KernelHeap.FreePreservesHeap | Kernel/mem/heap.cpp:48-94 | `free` keeps the heap well formed and backed |
| KernelHeap.FixedFreePreservesHeap | Kernel/mem/heap.cpp:48-94 | the corrected `free` keeps the same invariants |
| KernelHeap.FreeSpecLeaks | Kernel/mem/heap.cpp:149 | the source's `free` and the corrected one leave the same heap, and the source leaves the frames unchanged |
| KernelHeap.FreeReleasesEmptyChunk | Kernel/mem/heap.cpp:85-92 | with the corrected `free`, a chunk left free is unlinked and its large page is fully free again, with the free count one up |
| KernelHeap.FreeLeaksEmptyChunk | Kernel/mem/heap.cpp:85-92 | as written, the chunk left free is unlinked while its page stays recorded as allocated to the kernel |
| KernelHeap.FreeKeepsUsedChunk | Kernel/mem/heap.cpp:58-92 | a chunk that still holds an allocation stays listed, with the block merged into its free neighbours, and the frames are unchanged |
| KernelHeap.PlaceInHeap | Kernel/mem/heap.cpp:163-185 | taking a block keeps the heap well formed and backed; its pointer leads back to it and freeing it restores the chunk |
| KernelHeap.AllocateFromListedChunk | Kernel/mem/heap.cpp:29-34 | when a listed chunk has room, `allocate` takes the first fitting block of the first such chunk |
| KernelHeap.AllocateFromNewChunk | Kernel/mem/heap.cpp:36-44 | when no chunk has room, `allocate` takes the first block of a new chunk, or halts with the heap unchanged |
| KernelHeap.AllocatePreservesHeap | Kernel/mem/heap.cpp:13-46 | `allocate` keeps the heap well formed and backed, a returned pointer can be passed to `free`, and a halt changes nothing |
| KernelHeap.AllocateOversizedHalts | Kernel/mem/heap.cpp:22-26 | requests that round past a whole chunk halt and change nothing |
| KernelHeap.AllocateIsFirstFit | Kernel/mem/heap.cpp:29-34 | first fit: the pointer belongs to the first chunk with room, at its first fitting block, which is now allocated |
| KernelHeap.AllocateAppendsOnlyWhenFull | Kernel/mem/heap.cpp:36-44 | a new chunk is appended only when no listed chunk has room; the pointer is its first block |
| KernelHeap.AllocateInChunkThenFree | Kernel/mem/heap.cpp:13-94 | freeing a pointer just allocated from a chunk already in use gives back the heap and frames exactly |
| KernelHeap.AllocateNewChunkThenFree | Kernel/mem/heap.cpp:13-154 | freeing the pointer that forced a new chunk unlinks it again; as written the page stays allocated, while the corrected `free` also returns the page |
| KernelHeap.NewChunkAllocation | Kernel/mem/heap.cpp:36-44 | the heap and frames after `allocate` appended a chunk, and freeing its pointer with the corrected `free` frees that page |
| KernelHeap.NewChunkAppended | Kernel/mem/heap.cpp:96-130 | the appended chunk is at the direct-map address of the large page, not yet in the heap, and its single block is taken |
| KernelHeap.FreeSoleBlockOfNewChunk | Kernel/mem/heap.cpp:85-92 | freeing the only allocated block of the chunk appended last unlinks it and frees its page |
| KernelHeap.UpdateKeepsHeapWellFormed | Kernel/mem/heap.cpp:58-83 | replacing one chunk's blocks by a well-formed chunk keeps the heap well formed |
| KernelHeap.WrappedRequestServedAsEmpty | Kernel/mem/heap.cpp:19-22 | as written, a request within 31 bytes of 2^64 rounds to 0, passes the size check and is served like a 0-byte request; the unbounded rounding is above a whole chunk |
| KernelHeap.Heap.constructor | Kernel/mem/heap.h:55-57 | the heap starts with no chunks |
| KernelHeap.Heap.AllocateAndAppendNewChunk | Kernel/mem/heap.cpp:96-130 | the class keeps its invariant and matches the append specification |
| KernelHeap.Heap.Initialize | Kernel/mem/heap.cpp:4-11 | `initialize` appends the first chunk, as the append specification says |
| KernelHeap.Heap.FindAllocation | Kernel/mem/heap.cpp:156-198 | the descriptor walk matches the first-fit specification |
| KernelHeap.Heap.Allocate | Kernel/mem/heap.cpp:13-46 | `allocate` keeps the invariant and matches the allocation specification |
| KernelHeap.Heap.AllocateInListedChunk | Kernel/mem/heap.cpp:29-34 | the chunk loop returns from the first chunk with room, or changes nothing |
| KernelHeap.Heap.AllocateInNewChunk | Kernel/mem/heap.cpp:36-44 | a new chunk is appended and the request is served from its single free block |
| KernelHeap.Heap.FreeAndRemoveChunk | Kernel/mem/heap.cpp:132-154 | the chunk leaves the list and the map; the physical allocator gets its direct-map address |
| KernelHeap.Heap.Free | Kernel/mem/heap.cpp:48-94 | `free` keeps the invariant and matches the free specification |
| KernelHeap.Heap.MergeFreed | Kernel/mem/heap.cpp:58-83 | the descriptor surgery of `free` on one chunk gives exactly the merged blocks of `FreeBlock` |
| HeapLinks.FirstDescriptor | Kernel/mem/heap.cpp:104 | a chunk's first descriptor sits right after the chunk header |
| HeapLinks.OffsetsDistinct | Kernel/mem/heap.h:38-43 | descriptor offsets strictly increase along the chunk, so no two blocks share a descriptor |
| HeapLinks.OffsetAfterSplice | Kernel/mem/heap.cpp:170-179 | after a run of blocks is replaced by blocks of the same footprint, descriptors before the run keep their offsets, those inside it are counted from the run's start, and those after it keep the offsets of the blocks they were |
| HeapLinks.SplitEntries | Kernel/mem/heap.cpp:170-179 | the corrected split writes only the taken, the new and the following descriptor |
| HeapLinks.SplitLayout | Kernel/mem/heap.cpp:170-179 | offsets and blocks of the chunk after a split, position by position |
| HeapLinks.SplitRepresentsPlace | Kernel/mem/heap.cpp:163-185 | the corrected pointer surgery of `findAllocation` leaves descriptor memory holding exactly the blocks `Place` describes |
| HeapLinks.SplitRepresentsTwo | Kernel/mem/heap.cpp:170-179 | the same for a split that leaves a free remainder |
| HeapLinks.SplitRepresentsWhole | Kernel/mem/heap.cpp:184 | the same for a block taken whole: only its type changes |
| HeapLinks.WholeOffsets | Kernel/mem/heap.cpp:184 | taking the whole block keeps every descriptor offset |
| HeapLinks.StaleLinkBlocksMerge | Kernel/mem/heap.cpp:58-179 | after the as-written split of a block that another allocated block follows, freeing that block leaves the new free remainder and the freed block side by side, both free and linked; after the corrected split the same `free` merges them as `FreeBlock` says |
| HeapLinks.SplitAsWrittenLeavesStaleLink | Kernel/mem/heap.cpp:170-179 | as written, the split equals the corrected one when the block is taken whole or is last; otherwise the following descriptor's `previous` still names the taken descriptor, and the memory no longer holds the chunk's blocks |
| HeapLinks.FreeCells | Kernel/mem/heap.cpp:58-83 | freeing writes the merged run's descriptor and its successor's link, whichever neighbours it merges with |
| HeapLinks.FreeCellsBothRun | Kernel/mem/heap.cpp:63-83 | merging with both neighbours writes the run's descriptor and the link of the one after |
| HeapLinks.FreeCellsBothRest | Kernel/mem/heap.cpp:63-83 | merging with both neighbours leaves every descriptor outside the run untouched |
| HeapLinks.MergeLayout | Kernel/mem/heap.cpp:66-77 | after a run becomes one block of the same footprint, offsets before it are kept and offsets after it shift by the run |
| HeapLinks.MergedRecords | Kernel/mem/heap.cpp:58-83 | every block of the merged chunk is recorded at its offset with its links |
| HeapLinks.RunFootprintCoversDescriptor | Kernel/mem/heap.cpp:66-77 | a run of blocks spans at least one descriptor |
| HeapLinks.FreeRepresentsFreeBlock | Kernel/mem/heap.cpp:58-83 | the pointer surgery of `free` leaves descriptor memory holding exactly the blocks of `FreeBlock` |
| HeapLinks.WholeChunkFreeLinks | Kernel/mem/heap.cpp:86-87 | the test on the first descriptor holds exactly when the chunk is one free block |
| HeapLinks.OffsetsFrom | Kernel/mem/heap.cpp:159-191 | the list of descriptor offsets from block `k` on, in chunk order |
| HeapLinks.WalkFollowsBlocks | Kernel/mem/heap.cpp:159-191 | following `next` from the first descriptor meets the blocks' descriptors in chunk order, each once |
| HeapLinks.AppendThreads | Kernel/mem/heap.cpp:111-124 | appending keeps the chunk list threaded through the chunk order, with the new chunk at its end and the length one up |
| HeapLinks.EraseAt | Kernel/mem/heap.cpp:135-146 | without duplicates, unlinking the chunk at a position removes exactly that position |
| HeapLinks.UnlinkedAt | Kernel/mem/heap.cpp:141-145 | after unlinking, the removed chunk's two neighbours link to each other |
| HeapLinks.UnlinkThreads | Kernel/mem/heap.cpp:135-150 | unlinking keeps the list threaded through the chunk order without the removed chunk |
| HeapLinks.UnlinkThreadsAt | Kernel/mem/heap.cpp:135-150 | the same for the chunk at a given position of the order |
| HeapLinks.UnlinkedLinks | Kernel/mem/heap.cpp:141-145 | after unlinking from a longer list, every other chunk's links follow the order without the removed chunk |
| HeapLinks.UnlinkedEnds | Kernel/mem/heap.cpp:135-150 | after unlinking from a longer list, the head, the tail and the length of the rest |
| HeapLinks.ChunkWalkFollowsOrder | Kernel/mem/heap.cpp:29-34 | following `next` from the list head, as `allocate` does, meets the chunks in list order |
| Hpet.ClockPeriod | Kernel/driver/arch/hpet.cpp:25 | the clock period is the upper 32 bits of the general capabilities |
| Hpet.NumberOfTimers | Kernel/driver/arch/hpet.cpp:26 | the timer count is a 5-bit field plus one, so between 1 and 32 |
| Hpet.FirstPeriodicMeaning | Kernel/driver/arch/hpet.cpp:33-47 | no timer is periodic exactly when none of the first `n` timers has the periodic bit; otherwise the chosen one is the lowest with it |
| Hpet.FirstOther | Kernel/driver/arch/hpet.cpp:40-46 | the one-shot timer is the lowest timer that is not the periodic one, which is timer 0 or, when timer 0 is periodic, timer 1; there is none when there are too few timers |
| Hpet.SelectTimers | Kernel/driver/arch/hpet.cpp:30-47 | the timer loop picks the first periodic timer and the first other timer |
| Hpet.Route | Kernel/driver/arch/hpet.cpp:72-80 | the input chosen is allowed by the routing mask and still free at the I/O APIC, and no lower such input exists |
| Hpet.LegacyOff | Kernel/driver/arch/hpet.cpp:65 | bit 1 is cleared and every other bit is kept |
| Hpet.BaseAddress | Kernel/driver/arch/hpet.cpp:13 | the register block address is a 64-bit value read from the HPET table |
| Hpet.Initialize | Kernel/driver/arch/hpet.cpp:3-91 | `initialize` halts without an HPET table, without a periodic timer or with a single timer; on success the address, period, timer count, periodic and one-shot timers and routing are those the registers and the table give |
| Hpet.OneShotMillisecond | Kernel/driver/arch/hpet.cpp:153-168 | the comparator is the main counter plus one millisecond of clock periods, modulo 2^64, with the routing in bits 9-13 and interrupts enabled |
| Hpet.Initial | Kernel/driver/arch/hpet.h:79-85 | the initial queue is empty and ready, and ids start at 1 |
| Hpet.Rebased | Kernel/driver/arch/hpet.cpp:102-105 | rebasing keeps every event |
| Hpet.PicksKeepReady | Kernel/driver/arch/hpet.cpp:102-106 | keeping events in order with their counts lowered alike keeps the queue sorted, pending and with fresh ids |
| Hpet.RebasedPicks | Kernel/driver/arch/hpet.cpp:104 | while every count is at least the tick counter the 64-bit subtraction never wraps, so rebasing keeps every event in place |
| Hpet.RebasedKeepsReady | Kernel/driver/arch/hpet.cpp:102-106 | rebasing a ready queue to the reset tick counter keeps it ready |
| Hpet.InsertPosition | Kernel/driver/arch/hpet.cpp:108-119 | the intended position: every event before it is earlier, and the event at it is not |
| Hpet.InsertPositionUnique | Kernel/driver/arch/hpet.cpp:108-119 | that position is the only one with those two properties |
| Hpet.InsertAt | Kernel/util/list.h:112-135 | insertion adds exactly one event |
| Hpet.InsertAtIndex | Kernel/util/list.h:112-135 | inserting at `p` puts the event there and shifts the later ones up by one, keeping the others in order |
| Hpet.InsertSorted | Kernel/driver/arch/hpet.cpp:108-130 | an event inserted at the intended position keeps the queue sorted |
| Hpet.InsertFresh | Kernel/driver/arch/hpet.cpp:122-130 | inserting an event with a new id keeps the counts pending and the ids fresh |
| Hpet.FixedCreateKeepsReady | Kernel/driver/arch/hpet.cpp:93-135 | the corrected `createTimedEvent` keeps the queue ready, returns an id no queued event has, and the queue is the rebased old queue with the new event inserted |
| Hpet.CreateHidesEvent | Kernel/driver/arch/hpet.cpp:109-130 | when the as-written position is in the middle, the source's list holds the queue `Create` builds with the count left at the old length, and the list `get` reads lacks the event at chain position count/2 + 1, whose id no event it reads has |
| Hpet.CreateKeepsIds | Kernel/driver/arch/hpet.cpp:93-135 | as written, creating still keeps counts pending and ids fresh, returns a new id, and inserts the event among the rebased old events |
| Hpet.CreateMisplaces | Kernel/driver/arch/hpet.cpp:109-119 | the source and the corrected creation agree when the event belongs at the front or the end; anywhere else the source puts it one place early, after an earlier event, and the queue is no longer sorted |
| Hpet.CreateZero | Kernel/driver/arch/hpet.cpp:96 | a zero-millisecond request returns id 0 and changes nothing |
| Hpet.IndexOf | Kernel/driver/arch/hpet.cpp:143-149 | the index found is the first event with the id, or the queue length when none has it |
| Hpet.IndexOfUnique | Kernel/driver/arch/hpet.cpp:143-149 | that index is fixed by those two properties |
| Hpet.RemoveFirst | Kernel/driver/arch/hpet.cpp:137-151 | removing takes out exactly the first event with the id and keeps the others in order; without one the queue is unchanged |
| Hpet.DeletePicks | Kernel/driver/arch/hpet.cpp:146 | removing one event keeps every other one, in order |
| Hpet.RemoveKeepsReady | Kernel/driver/arch/hpet.cpp:137-151 | removing keeps a ready queue ready, and with distinct ids the id is gone |
| Hpet.Elapsed | Kernel/driver/arch/hpet.cpp:190-193 | the catch-up keeps every event |
| Hpet.Due | Kernel/driver/arch/hpet.cpp:196-208 | the due events are the leading ones at zero, and the next one is not at zero |
| Hpet.Firings | Kernel/driver/arch/hpet.cpp:200 | each event fires its own handler with its own data, in queue order |
| Hpet.DuePrefix | Kernel/driver/arch/hpet.cpp:187-208 | in a sorted queue the events the ticks reach are exactly a prefix |
| Hpet.TickFiresDue | Kernel/driver/arch/hpet.cpp:170-217 | on a ready queue an interrupt fires exactly the events the ticks have reached, in order, and keeps the rest in order with the ticks taken off |
| Hpet.TickKeepsReady | Kernel/driver/arch/hpet.cpp:170-217 | an interrupt that fires keeps the queue ready |
| Hpet.TickFiring | Kernel/driver/arch/hpet.cpp:187-212 | an interrupt that finds the first event due catches up, fires the due events and resets the tick counter |
| Hpet.FiringsIgnoreCounts | Kernel/driver/arch/hpet.cpp:200 | which handlers fire does not depend on the counts |
| Hpet.ElapsedPicks | Kernel/driver/arch/hpet.cpp:190-193 | the events past the due ones keep their place, with the ticks taken off their counts |
| Hpet.TickCounts | Kernel/driver/arch/hpet.cpp:173-180 | before the first event is due an interrupt only counts the tick; on an empty queue it resets the count |
| Hpet.AsWrittenOneEarly | Kernel/driver/arch/hpet.cpp:109-119 | the position as written is the intended one less one, except at the front and at the end |
| Hpet.ScanFrom | Kernel/driver/arch/hpet.cpp:111-119 | the scan of the position loop, from any point it can reach, ends one early as stated above |
| Hpet.EarlyInsertionDelaysEvent | Kernel/driver/arch/hpet.cpp:109-119 | as written, a 3 ms event lands in front of a 1 ms one, and the next interrupt fires nothing although the 1 ms event is due |
| Hpet.CorrectedInsertionFires | Kernel/driver/arch/hpet.cpp:109-119 | the corrected insertion puts the 3 ms event between the others and the next interrupt fires the 1 ms one |
| Hpet.Timer.constructor | Kernel/driver/arch/hpet.cpp:50 | the timer starts in the initial state |
| Hpet.Timer.CreateTimedEvent | Kernel/driver/arch/hpet.cpp:93-135 | `createTimedEvent` matches the as-written creation |
| Hpet.Timer.Rebase | Kernel/driver/arch/hpet.cpp:102-106 | every count is rebased to the tick counter, which restarts at 0 |
| Hpet.Timer.Position | Kernel/driver/arch/hpet.cpp:108-119 | the position loop computes the position as written |
| Hpet.Timer.RemoveTimedEvent | Kernel/driver/arch/hpet.cpp:137-151 | the first event with the id, if any, leaves the queue |
| Hpet.Timer.OneShotInterrupt | Kernel/driver/arch/hpet.cpp:170-217 | the interrupt handler matches the tick specification |
| Hpet.Timer.CatchUp | Kernel/driver/arch/hpet.cpp:190-193 | every count is lowered by the ticks, down to zero at most |
| Hpet.Timer.FireDue | Kernel/driver/arch/hpet.cpp:196-208 | the leading events at zero are called in order and removed |
| Hpet.FiringsAppend | Kernel/driver/arch/hpet.cpp:200-204 | firing one more event extends the calls by it |
| Logging.Translation | Kernel/util/logger.h:94-95 | the translation table has one character per digit of the base |
| Logging.DigitsStep | Kernel/util/logger.cpp:61-65 | one conversion step: the last digit of a non-zero number follows the digits of the number divided by the base |
| Logging.PowFacts | Kernel/util/logger.cpp:54-90 | 2^32 is 16^8 and below 10^10; 2^64 is 16^16 and below 10^20 |
| Logging.ZeroPad | Kernel/util/logger.cpp:55 | zero padding gives text of exactly the requested width |
| Logging.DigitsRoundTrip | Kernel/util/logger.cpp:61-65 | reading the digits back gives the number |
| Logging.DigitsShape | Kernel/util/logger.cpp:61-65 | every character is a digit of the base, the first is not '0', and 0 has no digits |
| Logging.DigitsBound | Kernel/util/logger.cpp:61-65 | a number below base^n has at most n digits |
| Logging.ValueZeros | Kernel/util/logger.cpp:68 | leading zeros do not change the value printed |
| Logging.FilledStep | Kernel/util/logger.cpp:62-64 | each loop step stores a digit just before the digits already written |
| Logging.DigitBuffer | Kernel/util/logger.cpp:54-69 | a filled buffer holds no NUL before its end, and from any start before the digits it reads zero padding then the digits |
| Logging.U32Width | Kernel/util/logger.cpp:54-57 | a `u32` has at most eight hexadecimal or ten decimal digits, so the 15-character buffer holds it |
| Logging.U64Width | Kernel/util/logger.cpp:90-93 | a `u64` has at most sixteen hexadecimal or twenty decimal digits, so the 31-character buffer holds it |
| Logging.U32HexText | Kernel/util/logger.cpp:68 | a hexadecimal `u32` prints as exactly eight digits, zero-padded, that read back as the value |
| Logging.U32DecimalText | Kernel/util/logger.cpp:69 | a decimal `u32` prints as at most ten digits without a leading zero, reading back as the value |
| Logging.U64TextMeaning | Kernel/util/logger.cpp:104 | a `u64` prints in either base as at most 16 or 20 digits without a leading zero, reading back as the value |
| Logging.EmitChar | Kernel/util/logger.cpp:20-28 | a character is appended when a device is attached, and nothing happens otherwise |
| Logging.EmitString | Kernel/util/logger.cpp:30-38 | a string is appended when a device is attached, and nothing happens otherwise |
| Logging.EmitU32 | Kernel/util/logger.cpp:40-74 | as written, the hexadecimal flag survives a `u32` print only without a device or when the value is zero |
| Logging.FixedEmitU32 | Kernel/util/logger.cpp:40-74 | corrected, the flag survives only without a device |
| Logging.EmitU64 | Kernel/util/logger.cpp:76-109 | as written, the flag survives a `u64` print only without a device or for zero |
| Logging.FixedEmitU64 | Kernel/util/logger.cpp:76-109 | corrected, the flag survives only without a device |
| Logging.EmitI32 | Kernel/util/logger.cpp:111-142 | as written, the flag survives an `i32` print only without a device or for zero |
| Logging.FixedEmitI32 | Kernel/util/logger.cpp:111-142 | corrected, the flag survives only without a device |
| Logging.EmitI64 | Kernel/util/logger.cpp:144-174 | as written, the flag survives an `i64` print only without a device or for zero |
| Logging.FixedEmitI64 | Kernel/util/logger.cpp:144-174 | corrected, the flag survives only without a device |
| Logging.EmitBool | Kernel/util/logger.cpp:176-184 | a boolean print only appends and leaves the flag alone |
| Logging.EmitArg | Kernel/util/logger.h:52-62 | the overload for an argument only appends; the flag survives unless a device is attached and a non-zero number is printed |
| Logging.FixedEmitArg | Kernel/util/logger.h:52-62 | with the corrected overloads the flag survives unless a device is attached and a number is printed |
| Logging.UnsignedText | Kernel/util/logger.cpp:46-85 | zero prints "0" and a non-zero number its digits, the same in both versions |
| Logging.DecimalMinimum32 | Kernel/util/logger.cpp:129-132 | the digits of 2147483648 are the text the `i32` special case prints |
| Logging.DecimalMinimum64 | Kernel/util/logger.cpp:162-165 | the digits of 9223372036854775808, the magnitude of the `i64` minimum |
| Logging.DecimalAlmostMinimum64 | Kernel/util/logger.cpp:162-165 | the digits of 9223372036854775807, which the `i64` special case tests |
| Logging.SignedText32 | Kernel/util/logger.cpp:111-142 | a decimal `i32` prints a '-' for a negative value and then the magnitude, the minimum included; in hexadecimal it prints the eight digits of the bit pattern; the flag ends cleared |
| Logging.SignedText64 | Kernel/util/logger.cpp:144-174 | the same for `i64`, with the unpadded digits of the 64-bit pattern in hexadecimal |
| Logging.BoolTextSent | Kernel/util/logger.cpp:182 | a boolean prints "<true>" or "<false>" |
| Logging.ZeroKeepsHexFlag | Kernel/util/logger.cpp:46-49 | as written, a zero number prints "0" and leaves a pending `%x` in force; the corrected overloads clear it |
| Logging.HexFlagOutlivesZero | Kernel/util/logger.cpp:46-49 | so `%x` with 0 followed by `%u` with `v` prints `v` in hexadecimal, eight digits wide, where the corrected overloads print it in decimal |
| Logging.FixedAgrees | Kernel/util/logger.cpp:40-174 | apart from the flag after a zero, the corrected overloads print exactly what the source prints, and agree entirely on every other argument |
| Logging.AlmostMinimumAgrees | Kernel/util/logger.cpp:162-165 | on -9223372036854775807 the special case as written and the corrected one print the same |
| Logging.MinimumAgrees | Kernel/util/logger.cpp:168-171 | on the true minimum the corrected special case prints what the as-written general path would print with unbounded negation |
| Logging.MinimumI64Overflows | Kernel/util/logger.cpp:162-171 | as written, `print(i64)` negates a value outside the `i64` range exactly when it prints the minimum in decimal with a device attached |
| Logging.NumberClearsFlag | Kernel/util/logger.cpp:72-107 | with the correction every printed number clears the flag; as written every non-zero one does |
| Logging.Format | Kernel/util/logger.cpp:7-18 | `printFormat` returns at the depth it started, only appends output, and releases the lock at depth 0 |
| Logging.Scan | Kernel/util/logger.h:24-83 | the format loop returns at its depth, only appends output, and releases the lock at depth 0 |
| Logging.Nest | Kernel/util/logger.h:53-58 | the recursive call one level deeper returns at the caller's depth |
| Logging.ScanLiteral | Kernel/util/logger.h:78 | characters other than '%' are printed verbatim, in order |
| Logging.FormatLiteral | Kernel/util/logger.h:24-83 | a format without '%' prints itself whatever the arguments |
| Logging.FormatWithoutArguments | Kernel/util/logger.cpp:7-18 | with no arguments even '%' is printed verbatim |
| Logging.FormatSpecifier | Kernel/util/logger.h:45-69 | `%c %s %d %i %u %b` print the next argument through its overload, `%x` with the flag set first, and then the rest of the format goes to a call one level deeper with the remaining arguments |
| Logging.ScanSpecifier | Kernel/util/logger.h:45-69 | a specifier at the head of the rest prints the pending value and nests |
| Logging.FormatUnknownSpecifier | Kernel/util/logger.h:70-72 | an unknown specifier prints "<invalid format>", is skipped and consumes no argument |
| Logging.FormatTrailingPercent | Kernel/util/logger.h:34-41 | a trailing '%' prints "<invalid format>", at depth 0 the reset sequence too, and stops |
| Logging.Logger.constructor | Kernel/util/logger.h:97-100 | no device, no flag, depth 0, unlocked, no output |
| Logging.Logger.SetBackingDevice | Kernel/util/logger.cpp:3-5 | only whether a device is attached changes |
| Logging.Logger.PrintChar | Kernel/util/logger.cpp:20-28 | the state becomes the character print specification |
| Logging.Logger.PrintString | Kernel/util/logger.cpp:30-38 | the character loop prints the string |
| Logging.Logger.PrintBuffer | Kernel/util/logger.cpp:36 | the loop prints a buffer up to its NUL |
| Logging.Logger.PrintU32 | Kernel/util/logger.cpp:40-74 | `print(u32)` matches the as-written specification |
| Logging.Logger.PrintU32Text | Kernel/util/logger.cpp:51-69 | the conversion loop and the print of its buffer send the number's text |
| Logging.Logger.PrintU64 | Kernel/util/logger.cpp:76-109 | `print(u64)` matches the as-written specification |
| Logging.Logger.PrintI32 | Kernel/util/logger.cpp:111-142 | `print(i32)` matches the as-written specification |
| Logging.Logger.PrintI64 | Kernel/util/logger.cpp:144-174 | `print(i64)` matches the as-written specification |
| Logging.Logger.PrintBool | Kernel/util/logger.cpp:176-184 | `print(bool)` matches its specification |
| Logging.Logger.PrintArg | Kernel/util/logger.h:52 | overload resolution matches the argument's overload |
| Logging.Logger.PrintPlain | Kernel/util/logger.cpp:7-18 | `printFormat(format)` matches the format specification without arguments |
| Logging.Logger.PrintDeeper | Kernel/util/logger.h:53-58 | the recursive call matches the nesting specification |
| Logging.Logger.PrintFormat | Kernel/util/logger.h:15-90 | `printFormat` with arguments matches the format specification |
| Logging.Logger.ZeroBuffer | Kernel/util/logger.cpp:54-92 | a fresh buffer of '0' characters ending in a NUL |
| Logging.Logger.Convert | Kernel/util/logger.cpp:57-101 | the conversion loop leaves the number's digits just before the NUL, with `toInsert` just before the first digit |
| VirtualRegions.InitialRegions | Kernel/mem/vas.cpp:26-56 | a new space's list is one Free region tiling its allocation range, ending on a 2 MiB boundary |
| VirtualRegions.TilesJoin | Kernel/mem/vas.cpp:79 | tilings of adjacent ranges join into a tiling of the union |
| VirtualRegions.TilesSplit | Kernel/mem/vas.cpp:79 | a tiling splits at any region into a tiling before it and one from it |
| VirtualRegions.TilesOrdered | Kernel/mem/vas.cpp:79 | in a tiling, regions lie inside the range and a later region starts no earlier than an earlier one ends, so regions never overlap |
| VirtualRegions.TilesBounds | Kernel/mem/vas.cpp:79 | every region of a tiling lies inside its range |
| VirtualRegions.TilesEnd | Kernel/mem/vas.cpp:79 | a tiling ends no earlier than it starts |
| VirtualRegions.FirstFitIs | Kernel/mem/vas.cpp:79-170 | the first fit is the index before which nothing fits and at which, unless it is the end, the region fits |
| VirtualRegions.Gap | Kernel/mem/vas.cpp:89 | the alignment gap is between 1 byte and 2 MiB |
| VirtualRegions.FirstFit | Kernel/mem/vas.cpp:79-170 | the loop stops at the first region that fits, and no earlier one does |
| VirtualRegions.GapPart | Kernel/mem/vas.cpp:97-101 | at most one alignment region is cut off |
| VirtualRegions.RestPart | Kernel/mem/vas.cpp:104-151 | at most one remainder region is cut off |
| VirtualRegions.InsertOptionalBetween | Kernel/mem/vas.cpp:122-160 | inserting an optional region at a position puts it between the two halves |
| VirtualRegions.ReplaceThenInsert | Kernel/mem/vas.cpp:115-125 | changing region `k`, inserting the remainder after it and then the gap before it splices gap, object and remainder in its place |
| VirtualRegions.PlaceSplices | Kernel/mem/vas.cpp:79-170 | the placement replaces the chosen region by its carved parts, and the object's index is past the gap |
| VirtualRegions.CarveTiles | Kernel/mem/vas.cpp:89-119 | with exact arithmetic the carved parts tile the region they replace |
| VirtualRegions.SpliceTiles | Kernel/mem/vas.cpp:115-125 | replacing one region of a tiling by a tiling of the same range keeps the tiling |
| VirtualRegions.FixedPlaceKeepsTiling | Kernel/mem/vas.cpp:66-180 | the exact placement keeps the list a tiling of the same range |
| VirtualRegions.PlaceAt | Kernel/mem/vas.cpp:79-170 | the placement at the first fitting region, step by step as `mapObject` performs it |
| VirtualRegions.PlaceHoldsObject | Kernel/mem/vas.cpp:115-157 | in either arithmetic the placement's index is the object's own Allocated region at the returned address |
| VirtualRegions.FixedPlaceFirstFit | Kernel/mem/vas.cpp:66-180 | `mapObject` fails exactly when the object has a preferred address or no region fits; otherwise the first fitting region, which is Free, becomes the object's, earlier regions are unchanged and the address is the region's start, rounded up to 2 MiB when needed |
| VirtualRegions.FixedPlaceAligns | Kernel/mem/vas.cpp:87-101 | a large-page object starts on a 2 MiB boundary; when rounding was needed it starts less than 2 MiB above the region, and a Free gap region precedes it |
| VirtualRegions.ShortFitsAsWritten | Kernel/mem/vas.cpp:89-94 | as written, a region shorter than its alignment gap wraps to a huge size and passes the size test, which it fails with exact arithmetic |
| VirtualRegions.ShortRegionOverruns | Kernel/mem/vas.cpp:89-101 | choosing such a region breaks the list: the gap region alone is longer than the region it was cut from, so the list is no longer a tiling |
| VirtualRegions.RegionAgrees | Kernel/mem/vas.cpp:85-113 | away from the wrap-around, a region that is not short fits, starts and ends alike in both arithmetics |
| VirtualRegions.FirstFitAgrees | Kernel/mem/vas.cpp:79-170 | the first fit is the same in both arithmetics when every region fits alike |
| VirtualRegions.PlaceAgrees | Kernel/mem/vas.cpp:66-180 | without a short region and below 2^64, the placement as written is the exact one |
| VirtualRegions.AlignedEndsNotShort | Kernel/mem/vas.cpp:89-94 | a non-empty region that ends on a 2 MiB boundary is never short for alignment |
| VirtualRegions.CarveEndsAligned | Kernel/mem/vas.cpp:97-113 | carving such a region leaves Free parts that end on boundaries |
| VirtualRegions.SpliceEndsAligned | Kernel/mem/vas.cpp:115-125 | replacing a region by such parts keeps every Free region ending on a boundary |
| VirtualRegions.FixedPlaceKeepsEndsAligned | Kernel/mem/vas.cpp:66-180 | the exact placement keeps every Free region non-empty and ending on a 2 MiB boundary |
| VirtualRegions.PlaceHidesRegion | Kernel/mem/vas.cpp:105-125 | when the first fitting region is not the last, needs no alignment and leaves a rest, the source's list holds the list `Place` builds with the count left at the old length, and `get` reads it without the region at position count/2 + 1 |
| VirtualRegions.PlaceKeepsList | Kernel/mem/vas.cpp:66-180 | on such a list the placement as written keeps the tiling and the property, so the wrap-around cannot occur in any list `mapObject` builds from the initial one |
| AddressSpaces.ZeroTable | Kernel/mem/vas.cpp:207-208 | an empty paging structure is 512 zero words |
| AddressSpaces.Write | Kernel/mem/vas.cpp:238-240 | writing one table word changes that word and no other word of memory |
| AddressSpaces.Zeroed | Kernel/mem/vas.cpp:206-208 | the clearing loop zeroes the page's 512 words and leaves every other frame as it was |
| AddressSpaces.AllocateZeroed | Kernel/mem/vas.cpp:200-213 | `allocateZeroedPage` keeps the physical allocator's invariant |
| AddressSpaces.AllocateZeroedSteps | Kernel/mem/vas.cpp:200-213 | `allocateZeroedPage` takes one 4 KiB kernel page from the allocator and clears it, or hangs when the allocator does |
| AddressSpaces.PTIndex | Kernel/mem/vas.cpp:221-222 | the PT index is a 9-bit table index |
| AddressSpaces.PDIndex | Kernel/mem/vas.cpp:223-224 | the PD index is a 9-bit table index |
| AddressSpaces.PDPTIndex | Kernel/mem/vas.cpp:225-226 | the PDPT index is a 9-bit table index |
| AddressSpaces.PML4Index | Kernel/mem/vas.cpp:227-228 | the PML4 index is a 9-bit table index |
| AddressSpaces.IndicesAreDigits | Kernel/mem/vas.cpp:219-228 | within the 48-bit range the four indices and the page offset are the digits of the address |
| AddressSpaces.IndicesDeterminePage | Kernel/mem/vas.cpp:219-228 | two addresses with the same four indices lie in the same 4 KiB page |
| AddressSpaces.LinkEntry | Kernel/mem/vas.cpp:238-240 | a linked entry is present and writeable and references the new table's frame, and its other bits are kept |
| AddressSpaces.Descend | Kernel/mem/vas.cpp:231-254 | one level of the walk: with `create` it always yields a table, and the table it yields is the one the now present entry references |
| AddressSpaces.DescendPresent | Kernel/mem/vas.cpp:231-233 | a present entry is followed without any change |
| AddressSpaces.DescendLookup | Kernel/mem/vas.cpp:232 | without `create` nothing changes and nothing hangs, and a missing table gives a null pointer |
| AddressSpaces.DescendCreatesEmptyTable | Kernel/mem/vas.cpp:233-242 | a table created for a missing entry reads zero apart from the linking entry, and no other memory changes |
| AddressSpaces.MappingEntry | Kernel/mem/vas.cpp:217-272 | `getMappingEntry` with `create` always returns an entry, and every entry it returns lies in a 512-entry table |
| AddressSpaces.WalkWithoutCreateIsLookup | Kernel/mem/vas.cpp:217-272 | without `create` the walk is a pure lookup that never hangs |
| AddressSpaces.PresentWalkAgrees | Kernel/mem/vas.cpp:217-272 | when the lookup finds the entry, the walk with `create` returns the same one and changes nothing |
| AddressSpaces.LeafWriteKeepsLookup | Kernel/mem/vas.cpp:305-324 | writing a leaf entry the lookup found keeps the lookup finding it, provided the entry lies outside the tables above it |
| AddressSpaces.LowBitsKept | Kernel/mem/vas.cpp:310-324 | or-ing in the page frame keeps the flag bits and the top bit |
| AddressSpaces.LargeFlagsFromLowBits | Kernel/mem/vas.h:228-241 | a 2 MiB entry's flags depend only on the bits the page-frame or keeps |
| AddressSpaces.PageFlagsFromLowBits | Kernel/mem/vas.h:250-263 | a 4 KiB entry's flags depend only on the bits the page-frame or keeps |
| AddressSpaces.FillLargeIntoEmpty | Kernel/mem/vas.cpp:305-310 | filled into an empty entry, a 2 MiB entry references exactly the page and sets no other bit |
| AddressSpaces.EmptyRecordLarge | Kernel/mem/vas.cpp:305-309 | the record written into an empty PD entry: present, large, and the object's access flags |
| AddressSpaces.FillLargeEmptyValue | Kernel/mem/vas.cpp:305-310 | the value written into an empty PD entry is that record or-ed with the page |
| AddressSpaces.DecodeZero | Kernel/mem/vas.h:228-263 | an empty entry decodes to all flags clear and all fields zero |
| AddressSpaces.DecodeLargeOr | Kernel/mem/vas.cpp:310 | or-ing a 2 MiB aligned page below 2^52 sets the address field to it and keeps the other fields |
| AddressSpaces.FillLargeFlags | Kernel/mem/vas.cpp:305-310 | a filled 2 MiB entry is present, large and carries the object's access flags, whatever it held before |
| AddressSpaces.FillPageIntoEmpty | Kernel/mem/vas.cpp:320-324 | filled into an empty entry, a 4 KiB entry references exactly the page and sets no other bit |
| AddressSpaces.EmptyRecordPage | Kernel/mem/vas.cpp:320-323 | the record written into an empty PT entry |
| AddressSpaces.FillPageEmptyValue | Kernel/mem/vas.cpp:320-324 | the value written into an empty PT entry is that record or-ed with the page |
| AddressSpaces.DecodePageOr | Kernel/mem/vas.cpp:324 | or-ing a 4 KiB aligned page below 2^52 sets the address field to it and keeps the other fields |
| AddressSpaces.FillPageFlags | Kernel/mem/vas.cpp:320-324 | a filled 4 KiB entry is present and carries the object's access flags, whatever it held before |
| AddressSpaces.MapStep | Kernel/mem/vas.cpp:293-328 | one loop iteration keeps the allocator's invariant |
| AddressSpaces.MapPages | Kernel/mem/vas.cpp:293-328 | the page loop keeps the allocator's invariant |
| AddressSpaces.MapPagesUnfold | Kernel/mem/vas.cpp:293-328 | the loop is the step for page `i` followed by the loop from `i + 1`, unless the step hangs |
| AddressSpaces.DoMappingSpec | Kernel/mem/vas.cpp:274-330 | `doMapping` keeps the allocator's invariant |
| AddressSpaces.ObjectRegionPassesCount | Kernel/mem/vas.cpp:281-289 | an object whose size is its page count times its page size passes the count check, so mapping it is the page loop |
| AddressSpaces.CountMismatchHangs | Kernel/mem/vas.cpp:285-289 | a region that does not hold exactly the object's pages hangs before anything changes |
| AddressSpaces.MapPageThroughPresentTables | Kernel/mem/vas.cpp:293-328 | where the tables already exist, one iteration allocates nothing and writes only that page's entry |
| AddressSpaces.MapObjectSpec | Kernel/mem/vas.cpp:66-180 | `mapObject` keeps the allocator's invariant |
| AddressSpaces.MapObjectSteps | Kernel/mem/vas.cpp:115-164 | after the placement, `mapObject` maps the object's region and returns its address, or hangs when the mapping does |
| AddressSpaces.MapObjectPlaces | Kernel/mem/vas.cpp:66-180 | `mapObject` returns a null pointer and changes nothing exactly when the object has a preferred address or no region fits; otherwise it returns the address of the object's new Allocated region, aligned for large pages, and the list stays a tiling |
| AddressSpaces.MapObjectMapsPages | Kernel/mem/vas.cpp:128-163 | for an object sized by its pages, `mapObject` hangs only when a walk in the page loop hangs |
| AddressSpaces.CopyKernelHalfContents | Kernel/mem/vas.cpp:22-24 | the copy loop sets each higher-half entry to the kernel's where that is present and leaves every other word |
| AddressSpaces.NewKernelSpaceMarksNoExecute | Kernel/mem/vas.cpp:43-56 | the kernel space sets only the execution-disable bit of PML4 entry 256, and its list is one Free region tiling the kernel's range |
| AddressSpaces.SetExecutionDisable | Kernel/mem/vas.cpp:48 | setting the execution-disable field sets bit 63 of the value |
| AddressSpaces.NewUserSpace | Kernel/mem/vas.cpp:15-34 | the user-space constructor keeps the allocator's invariant |
| AddressSpaces.NewUserSpaceSteps | Kernel/mem/vas.cpp:15-34 | a user space is a zeroed page with the kernel half copied in, with the initial user list, or a hang when the allocator hangs |
| AddressSpaces.CopyIntoEmptyTable | Kernel/mem/vas.cpp:22-24 | copying into an empty table leaves its lower half empty |
| AddressSpaces.NewUserSpaceSharesKernel | Kernel/mem/vas.cpp:15-34 | a new user PML4 is empty in the lower half and shares the kernel's present entries in the higher half; nothing else changes and its list is one Free region over the user range |
| AddressSpaces.PhysicalMemory.constructor | Kernel/mem/vas.cpp:206 | the direct-mapped memory holds the given tables |
| AddressSpaces.AddressSpace.Kernel | Kernel/mem/vas.cpp:36-62 | the kernel space matches its specification |
| AddressSpaces.AddressSpace.User | Kernel/mem/vas.cpp:26-32 | a user space over a given PML4 with the initial user list |
| AddressSpaces.AddressSpace.CreateUser | Kernel/mem/vas.cpp:9-34 | the user-space constructor matches its specification |
| AddressSpaces.AddressSpace.CopyKernelEntries | Kernel/mem/vas.cpp:22-24 | the copy loop over entries 256 to 511 |
| AddressSpaces.AddressSpace.GetCR3 | Kernel/mem/vas.cpp:215 | `getCR3` returns the stored PML4 address |
| AddressSpaces.AddressSpace.AllocateZeroedPage | Kernel/mem/vas.cpp:200-213 | matches the specification of `allocateZeroedPage` |
| AddressSpaces.AddressSpace.ZeroPage | Kernel/mem/vas.cpp:206-208 | the clearing loop zeroes the page |
| AddressSpaces.AddressSpace.NextTable | Kernel/mem/vas.cpp:231-254 | one level of the walk matches its specification |
| AddressSpaces.AddressSpace.GetMappingEntry | Kernel/mem/vas.cpp:217-272 | `getMappingEntry` matches its specification |
| AddressSpaces.AddressSpace.DoMapping | Kernel/mem/vas.cpp:274-330 | `doMapping` matches its specification |
| AddressSpaces.AddressSpace.MapPagesFrom | Kernel/mem/vas.cpp:293-328 | the page loop matches its specification |
| AddressSpaces.AddressSpace.MapPageAt | Kernel/mem/vas.cpp:295-326 | one iteration matches its specification |
| AddressSpaces.AddressSpace.SplitRegion | Kernel/mem/vas.cpp:85-160 | the split in 64-bit arithmetic gives the placement `Place` describes |
| AddressSpaces.AddressSpace.MapObject | Kernel/mem/vas.cpp:66-180 | `mapObject` matches its specification and keeps the list valid |
| MemoryObjects.PageCountCovers | Kernel/mem/vmobjects.cpp:32-56 | the rounded-up page count covers the length, and one page fewer would not |
| MemoryObjects.PageSizeFor | Kernel/mem/vmobjects.cpp:31-55 | the page size is 2 MiB for large pages and 4 KiB otherwise, never zero |
| MemoryObjects.MMIOObjectLayout | Kernel/mem/vmobjects.cpp:25-44 | an MMIO object uses large pages exactly when it is longer than 2 MiB, is writeable, non-executable and uncached, keeps its preferred address, its size is its page count times the page size and covers the length, and page `i` is the physical address plus `i` pages |
| MemoryObjects.LargePagesUsedExactly | Kernel/mem/vmobjects.cpp:49-52 | large pages are used exactly when they are allowed, the mapping address is null or 2 MiB aligned, and the length is at least 2 MiB |
| MemoryObjects.AccessFlags | Kernel/mem/vmobjects.cpp:47 | the writeable, executable and cacheable bits are set exactly when asked for, and the user bit never |
| MemoryObjects.AllocatePages | Kernel/mem/vmobjects.cpp:59-63 | the allocation loop keeps the allocator's invariant and, when it finishes, holds exactly `n` pages extending those already collected |
| MemoryObjects.AllocateNext | Kernel/mem/vmobjects.cpp:60-62 | one iteration of the allocation loop, with the same guarantees |
| MemoryObjects.AllocatePagesHang | Kernel/mem/vmobjects.cpp:60 | a hang in the allocator hangs the loop with the allocator's state |
| MemoryObjects.AllocatePagesOk | Kernel/mem/vmobjects.cpp:60-61 | a successful allocation appends its page and the loop continues from the allocator's new state |
| MemoryObjects.MemoryBackedState | Kernel/mem/vmobjects.cpp:46-68 | the memory-backed constructor keeps the allocator's invariant |
| MemoryObjects.MemoryBackedLayout | Kernel/mem/vmobjects.cpp:46-68 | a memory-backed object succeeds exactly when its allocation loop does, holds the pages that loop allocated, uses large pages as decided, and its size covers the length with the requested flags and address |
| MemoryObjects.UncacheableState | Kernel/mem/vmobjects.cpp:79-87 | an uncacheable object is one writeable page of the requested size and alignment |
| MemoryObjects.UncacheableHoldsAllocatedPage | Kernel/mem/vmobjects.cpp:83 | the uncacheable object's page is the kernel page the allocator returned, and it fails exactly when the allocator does |
| MemoryObjects.FreePages | Kernel/mem/vmobjects.cpp:73 | freeing the pages one by one keeps the allocator's invariant |
| MemoryObjects.DestroySpec | Kernel/mem/vmobjects.cpp:70-91 | destroying an object keeps the allocator's invariant |
| MemoryObjects.FreePagesSplit | Kernel/mem/vmobjects.cpp:73 | freeing a list of pages is freeing a prefix and then the rest |
| MemoryObjects.MemoryObject.Base | Kernel/mem/vmobjects.cpp:3-12 | a new object has no pages, size zero, the given flags and preferred address |
| MemoryObjects.MemoryObject.NewMMIO | Kernel/mem/vmobjects.cpp:25-44 | the MMIO constructor matches its specification |
| MemoryObjects.MemoryObject.AllocateEach | Kernel/mem/vmobjects.cpp:59-63 | the allocation loop matches its specification |
| MemoryObjects.MemoryObject.CreateMemoryBacked | Kernel/mem/vmobjects.cpp:46-68 | the memory-backed constructor matches its specification |
| MemoryObjects.MemoryObject.CreateUncacheable | Kernel/mem/vmobjects.cpp:79-87 | the uncacheable constructor matches its specification |
| MemoryObjects.MemoryObject.Destroy | Kernel/mem/vmobjects.cpp:70-91 | the destructors match their specification |
| MemoryObjects.MemoryObject.GetPhysicalAddress | Kernel/mem/vmobjects.cpp:93-95 | `getPhysicalAddress` returns the first page, and fails exactly when there is none |
| PagingEntries.FlagsAreDistinctBits | Kernel/mem/vas.h:15-18 | the four access flags are bits 0 to 3 and no two overlap |
| PagingEntries.DecodeEncodeTable | Kernel/mem/vas.h:175-190 | encoding the fields of a table-referencing entry and decoding them gives the fields back |
| PagingEntries.EncodeDecodeTable | Kernel/mem/vas.h:175-190 | every 64-bit value is the encoding of its own fields in the PML4, PDPT and PD table view |
| PagingEntries.TableAddress | Kernel/mem/vas.h:184 | the address a table entry references is 4 KiB aligned and below 2^52 |
| PagingEntries.DecodeEncodeLarge | Kernel/mem/vas.h:228-241 | encoding the fields of a 2 MiB entry and decoding them gives the fields back |
| PagingEntries.EncodeDecodeLarge | Kernel/mem/vas.h:228-241 | every 64-bit value is the encoding of its own fields in the 2 MiB view |
| PagingEntries.DecodeEncodePage | Kernel/mem/vas.h:250-263 | encoding the fields of a 4 KiB entry and decoding them gives the fields back |
| PagingEntries.EncodeDecodePage | Kernel/mem/vas.h:250-263 | every 64-bit value is the encoding of its own fields in the 4 KiB view |
| PagingEntries.ViewsShareFlags | Kernel/mem/vas.h:213-263 | the views of one value agree on the shared low flags, the top bit and the ignored bits, and the table and 4 KiB views on the address |
| Machine.WrapU64 | Kernel/util/types.h:6 | 64-bit unsigned arithmetic: the result is below 2^64, congruent to the exact value, and equal to it when it fits |
| Machine.WrapU32 | Kernel/util/types.h:5 | 32-bit unsigned arithmetic: the result is below 2^32, congruent to the exact value, and equal to it when it fits |
| Machine.WrapU64Add | Kernel/util/types.h:6 | wrapping an intermediate sum and wrapping only at the end give the same 64-bit value |
| Machine.LoadLEBelow | Kernel/util/types.h:3-6 | a little-endian field of `width` bytes read from memory is below 2^(8·width) |
| Machine.LoadLEFrame | Kernel/util/types.h:3-6 | writing a byte outside a field does not change what the field reads |
| Machine.LoadLEDigits | Kernel/util/types.h:3-6 | a field whose bytes were stored from a value reads back that value's digits |
| Gdt.DecodeEncode | Kernel/driver/arch/gdt.h:31-45 | encoding a descriptor's packed fields and decoding them gives the fields back |
| Gdt.EncodeDecode | Kernel/driver/arch/gdt.h:31-45 | every 64-bit word is the encoding of its own fields |
| Gdt.SetFields | Kernel/driver/arch/gdt.cpp:41-59 | `setGDTEntry` makes a present, non-system, page-granular flat segment with base 0 and limit 0xFFFFF, the type and privilege masked to 4 and 2 bits, the long bit for code or the size bit for data, and keeps the other bits |
| Gdt.SizeBitsExclusive | Kernel/driver/arch/gdt.cpp:55-56 | on a zeroed entry exactly one of the long bit and the size bit is set, as `code` says |
| Gdt.InitialEntry | Kernel/driver/arch/gdt.cpp:12-20 | entry 0 and entries above 4 stay zero |
| Gdt.InitialSegments | Kernel/driver/arch/gdt.cpp:17-20 | entries 1 to 4 are the kernel code and data and user code and data segments, with privilege 0 for the kernel and 3 for the user, and entry 0 is not present |
| Gdt.SelectorsNameKernelSegments | Kernel/driver/arch/gdt.cpp:23-39 | selector 0x08 names the kernel code segment, which is long, 0x10 the kernel data segment, and the limit 63 covers eight entries |
| Gdt.DescriptorTable.constructor | Kernel/driver/arch/gdt.h:47-48 | before `initialize` there is no table and the pointer is zero |
| Gdt.DescriptorTable.GetKernelCodeSegment | Kernel/driver/arch/gdt.cpp:39 | `getKernelCodeSegment` returns the selector of entry 1 |
| Gdt.DescriptorTable.SetEntry | Kernel/driver/arch/gdt.cpp:41-59 | `setGDTEntry` changes only that entry, to the fields `SetFields` states |
| Gdt.DescriptorTable.ClearTable | Kernel/driver/arch/gdt.cpp:13-14 | the zeroing loop clears all 512 words of the page |
| Gdt.DescriptorTable.FillSegments | Kernel/driver/arch/gdt.cpp:17-20 | the four calls on a cleared table leave every word equal to its initial entry |
| Gdt.DescriptorTable.Build | Kernel/driver/arch/gdt.cpp:9-24 | after the allocation the table holds the initial entries and the pointer has limit 63 and the table's higher-half address |
| Gdt.DescriptorTable.Initialize | Kernel/driver/arch/gdt.cpp:5-26 | `initialize` takes one kernel page from the allocator, hanging when it does, and otherwise builds the table there |
| Interrupts.DecodeEncodeGate | Kernel/driver/arch/ints.h:65-73 | encoding a gate's packed fields into two words and decoding them gives the fields back |
| Interrupts.EncodeDecodeGate | Kernel/driver/arch/ints.h:65-73 | every pair of words is the encoding of its own gate fields |
| Interrupts.SetFieldsGate | Kernel/driver/arch/ints.cpp:150-163 | `setEntry` stores the routine address across the three offset fields, the kernel code selector and a present 64-bit interrupt gate of privilege 0, and keeps the IST and reserved fields |
| Interrupts.InitialGates | Kernel/driver/arch/ints.cpp:69-80 | after `initialize` vector 13 enters the fault handler, vectors 32 to 255 the generic stub, and the other exception vectors are not present |
| Interrupts.ReservePreservesWellFormed | Kernel/driver/arch/ints.cpp:95-109 | a reservation keeps the next vector between 0x20 and 0xFE and the tables at 256 entries |
| Interrupts.ReserveThenFire | Kernel/driver/arch/ints.cpp:95-148 | a reservation returns 0 exactly when the vectors are used up; otherwise it returns the next vector and advances it, firing that vector calls the new handler with its data, and every other vector fires as before |
| Interrupts.ReserveAll | Kernel/driver/arch/ints.cpp:95-109 | a run of reservations returns one vector per request |
| Interrupts.ReserveAllInOrder | Kernel/driver/arch/ints.cpp:95-109 | the k-th reservation of a run returns the next vector plus k while below 0xFE, and 0 after |
| Interrupts.ReservationsDistinct | Kernel/driver/arch/ints.cpp:95-109 | from boot, reservations return 0x20, 0x21, ... and no two successful ones share a vector |
| Interrupts.MsiAddressLayout | Kernel/driver/arch/ints.cpp:118-130 | the MSI address is 0xFEE in bits 31:20 with the low byte of the bootstrap processor's APIC id in bits 19:12 and zero below |
| Interrupts.MsiDataLayout | Kernel/driver/arch/ints.cpp:132-141 | the MSI data word is the vector, with edge trigger and fixed delivery |
| Interrupts.InterruptTable.constructor | Kernel/driver/arch/ints.h:75-80 | before `initialize` vectors are handed out from 0x20 and the pointer is zero |
| Interrupts.InterruptTable.SetEntry | Kernel/driver/arch/ints.cpp:150-163 | `setEntry` changes only gate `entry`, to the fields `SetFields` states, with the stub or the given handler as routine |
| Interrupts.InterruptTable.ClearHandlers | Kernel/driver/arch/ints.cpp:64-67 | the two clearing loops null every handler and zero every data word |
| Interrupts.InterruptTable.ClearTable | Kernel/driver/arch/ints.cpp:70-71 | the zeroing loop clears every gate |
| Interrupts.InterruptTable.FillGates | Kernel/driver/arch/ints.cpp:77-80 | the gate loop on a cleared table leaves every gate as `InitialGates` describes |
| Interrupts.InterruptTable.Build | Kernel/driver/arch/ints.cpp:60-84 | after the allocation the gates are the initial ones, the handler tables are clear and the pointer has limit 4095 and the table's higher-half address |
| Interrupts.InterruptTable.Initialize | Kernel/driver/arch/ints.cpp:56-86 | `initialize` takes one kernel page from the allocator, hanging when it does, and otherwise builds the tables there |
| Interrupts.InterruptTable.ReserveMSIVector | Kernel/driver/arch/ints.cpp:95-109 | `reserveMSIVector` matches `Reserve` |
| Interrupts.InterruptTable.ReserveVector | Kernel/driver/arch/ints.cpp:111-116 | `reserveVector` is `reserveMSIVector` |
| Interrupts.InterruptTable.FireInterruptHandler | Kernel/driver/arch/ints.cpp:143-148 | `fireInterruptHandler` makes the call `Fire` describes |
| Interrupts.InterruptTable.GetMSIAddress | Kernel/driver/arch/ints.cpp:118-130 | `getMSIAddress` returns the MSI address for the boot structure's bootstrap processor |
| Interrupts.InterruptTable.GetMSIData | Kernel/driver/arch/ints.cpp:132-141 | `getMSIData` returns the vector's data word |
| GraphicsTerminal.RowStartProduct | Kernel/driver/text/graphicsterm.cpp:66 | row `y` starts `y` pitches into the framebuffer |
| GraphicsTerminal.RowStartMonotonic | Kernel/driver/text/graphicsterm.cpp:66 | later rows start no earlier |
| GraphicsTerminal.RowsDisjoint | Kernel/driver/text/graphicsterm.cpp:66 | different rows, or different columns within a pitch, are different bytes |
| GraphicsTerminal.PixelBytes | Kernel/driver/text/graphicsterm.cpp:69-92 | a pixel is four bytes |
| GraphicsTerminal.PixelLayout | Kernel/driver/text/graphicsterm.cpp:69-92 | for each of the four layouts the colour reads back from its channels, the padding byte is 255, and the four channels are the four bytes |
| GraphicsTerminal.WriteBytes | Kernel/driver/text/graphicsterm.cpp:70-91 | storing bytes keeps the framebuffer's size |
| GraphicsTerminal.WriteBytesAt | Kernel/driver/text/graphicsterm.cpp:70-91 | after storing, each byte in range holds the stored value and every other byte is unchanged |
| GraphicsTerminal.WriteFour | Kernel/driver/text/graphicsterm.cpp:70-91 | storing a four-byte pixel is the four single-byte stores |
| GraphicsTerminal.WithPixel | Kernel/driver/text/graphicsterm.cpp:63-94 | `putPixel` keeps the framebuffer's size |
| GraphicsTerminal.ColumnMaskIsShift | Kernel/driver/text/graphicsterm.cpp:45 | the bit examined for column `j` is `1 << j` |
| GraphicsTerminal.PixelInBounds | Kernel/driver/text/graphicsterm.cpp:66 | a pixel inside the framebuffer's width and height lies in its memory |
| GraphicsTerminal.ApplyStores | Kernel/driver/text/graphicsterm.cpp:41-47 | the stores of the first `m` pixels of a cell keep the framebuffer's size |
| GraphicsTerminal.PaintedUpTo | Kernel/driver/text/graphicsterm.cpp:41-47 | the framebuffer after the first `m` iterations of the pixel loops keeps its size |
| GraphicsTerminal.PaintedMiss | Kernel/driver/text/graphicsterm.cpp:41-47 | a byte none of the first `m` pixels covers is unchanged |
| GraphicsTerminal.PaintedHit | Kernel/driver/text/graphicsterm.cpp:41-47 | a byte of pixel `n` that no later pixel covers holds that pixel's colour |
| GraphicsTerminal.CellWriteAt | Kernel/driver/text/graphicsterm.cpp:41-45 | iteration `8i + j` stores pixel (8x + j, 8y + i) in white where bit `j` of glyph row `i` is set and black elsewhere |
| GraphicsTerminal.PixelStep | Kernel/driver/text/graphicsterm.cpp:43-46 | one `putPixel` of the inner loop advances the painted prefix by one pixel |
| GraphicsTerminal.CellWritePosition | Kernel/driver/text/graphicsterm.cpp:42-66 | byte `b` of pixel `n` lies at row 8y + n/8, column 32x + 4(n mod 8) + b |
| GraphicsTerminal.CellWritesDisjoint | Kernel/driver/text/graphicsterm.cpp:41-47 | no two pixels of one cell share a byte |
| GraphicsTerminal.CellWriteInCell | Kernel/driver/text/graphicsterm.cpp:41-47 | no pixel of a cell touches a byte outside that cell |
| GraphicsTerminal.PaintedPixel | Kernel/driver/text/graphicsterm.cpp:41-47 | after the loops each pixel of the cell shows the glyph's ink |
| GraphicsTerminal.PaintedOutside | Kernel/driver/text/graphicsterm.cpp:41-47 | after the loops every byte outside the cell is unchanged |
| GraphicsTerminal.PaintedCell | Kernel/driver/text/graphicsterm.cpp:41-47 | drawing a character paints exactly its 8×8 cell with the glyph, white on black, and leaves the rest of the framebuffer |
| GraphicsTerminal.DrawnCharacter | Kernel/driver/text/graphicsterm.cpp:19-20 | the codepoint truncated to a byte is drawn when it is in the 128-glyph font, and glyph 0 otherwise |
| GraphicsTerminal.CursorMoves | Kernel/driver/text/graphicsterm.cpp:31-57 | the cursor stays on the text grid; a character moves it to the next cell in reading order, wrapping to the top, and a newline to the start of the next line, wrapping to the top |
| GraphicsTerminal.Terminal.constructor | Kernel/driver/text/graphicsterm.cpp:5-14 | the text grid is an eighth of the framebuffer in each direction and the cursor starts at the top left |
| GraphicsTerminal.Terminal.PutPixel | Kernel/driver/text/graphicsterm.cpp:63-94 | `putPixel` writes the pixel's four bytes for the framebuffer type and nothing else |
| GraphicsTerminal.Terminal.CellFits | Kernel/driver/text/graphicsterm.cpp:9-10 | the cursor's cell lies inside the framebuffer |
| GraphicsTerminal.Terminal.PaintPixel | Kernel/driver/text/graphicsterm.cpp:44-45 | one inner-loop iteration paints the next pixel |
| GraphicsTerminal.Terminal.PaintRow | Kernel/driver/text/graphicsterm.cpp:42-46 | the inner loop paints one glyph row |
| GraphicsTerminal.Terminal.PaintCell | Kernel/driver/text/graphicsterm.cpp:41-47 | the two loops paint the cursor's cell with the glyph |
| GraphicsTerminal.Terminal.RenderCharacter | Kernel/driver/text/graphicsterm.cpp:28-61 | a newline only moves the cursor to the next line; any other character paints its glyph in the cursor's cell and advances the cursor |
| GraphicsTerminal.Terminal.OutputCharacter | Kernel/driver/text/graphicsterm.cpp:16-26 | `outputCharacter` renders the codepoint truncated to a byte, or glyph 0 above 127 |
| Apic.LapicWrite | Kernel/driver/arch/apic.cpp:54-63 | a local APIC write keeps the register window's size |
| Apic.LapicReadWrite | Kernel/driver/arch/apic.cpp:43-63 | a read after a write sees the written value at that offset and the old value elsewhere; a write at or beyond 0x400 changes nothing |
| Apic.LowestInServiceMeaning | Kernel/driver/arch/apic.cpp:19-34 | the ISR scan returns the lowest in-service vector from `v` on, or 0 when there is none (or when it is vector 0 itself) |
| Apic.LowestInServiceAt | Kernel/driver/arch/apic.cpp:22-27 | the scan returns `w` when `w` is the first in-service vector from `v` on |
| Apic.NoneInService | Kernel/driver/arch/apic.cpp:31-32 | with no vector in service the scan returns 0 |
| Apic.VectorBit | Kernel/driver/arch/apic.cpp:24-26 | bit `j` of ISR register `i` is vector 32i + j |
| Apic.LocalApic.constructor | Kernel/driver/arch/apic.cpp:49 | a local APIC over a register window |
| Apic.LocalApic.Read | Kernel/driver/arch/apic.cpp:43-52 | `read` returns the register at the offset, or 0 at or beyond 0x400 |
| Apic.LocalApic.Write | Kernel/driver/arch/apic.cpp:54-63 | `write` matches `LapicWrite` |
| Apic.LocalApic.SendEoi | Kernel/driver/arch/apic.cpp:36-41 | `sendEOI` writes 0 to the EOI register |
| Apic.LocalApic.InitializeCore | Kernel/driver/arch/apic.cpp:3-17 | `initializeCoreLAPIC` writes 0x1FF to the spurious interrupt vector register and then sends an EOI |
| Apic.LocalApic.ServicedInterruptVector | Kernel/driver/arch/apic.cpp:19-34 | the nested ISR loops return the lowest in-service vector, or 0 |
| Apic.EntryCountOf | Kernel/driver/arch/apic.cpp:83-84 | the pin count is bits 23:16 of the version register plus one, between 1 and 256 |
| Apic.Masked | Kernel/driver/arch/apic.cpp:88-91 | the masking loop keeps the register file's size |
| Apic.MaskedMeaning | Kernel/driver/arch/apic.cpp:88-91 | each of the first `n` redirection entries becomes vector 0xFF masked with a zero high word, and every other register is kept |
| Apic.Pins | Kernel/driver/arch/apic.cpp:92-93 | the pins the loop lists are 16 up to the pin count, in ascending order |
| Apic.InitializeIoMeaning | Kernel/driver/arch/apic.cpp:66-99 | initializing halts exactly when the I/O APIC is already initialized; otherwise all its entries are masked, the pins above 15 are available, and it is ready and initialized |
| Apic.RemovePinAt | Kernel/driver/arch/apic.cpp:105-111 | the search removes the first occurrence of the pin |
| Apic.RemovePinAbsent | Kernel/driver/arch/apic.cpp:105-112 | a pin not in the list leaves it unchanged |
| Apic.RemovePinExactly | Kernel/driver/arch/apic.cpp:105-111 | on an ascending list the removal keeps it ascending and removes that pin and no other |
| Apic.RedirectionEntryLayout | Kernel/driver/arch/apic.cpp:121-124 | the low word of a redirection entry is the vector and the high word has the low byte of the bootstrap processor's APIC id in bits 31:24 |
| Apic.RegisterOnce | Kernel/driver/arch/apic.cpp:101-127 | `tryRegisterEntry` succeeds exactly when the pin is available, always takes it out of the available list, on success reserves the next vector and routes the pin to it on the bootstrap processor, and a second registration of the same pin fails without changing anything |
| Apic.IoApic.constructor | Kernel/driver/arch/apic.h:98-104 | an uninitialized I/O APIC over given registers |
| Apic.IoApic.Read | Kernel/driver/arch/apic.cpp:129-135 | `read` selects the index and returns that register |
| Apic.IoApic.Write | Kernel/driver/arch/apic.cpp:137-143 | `write` selects the index and changes only that register |
| Apic.IoApic.Initialize | Kernel/driver/arch/apic.cpp:66-99 | `IOAPIC::initialize` matches its specification |
| Apic.IoApic.TryRegisterEntry | Kernel/driver/arch/apic.cpp:101-127 | `tryRegisterEntry` matches its specification |
| Apic.Walk | Kernel/driver/arch/apic.cpp:165-263 | the MADT walk keeps the I/O APIC's register file |
| Apic.OverrideSticks | Kernel/driver/arch/apic.cpp:235-244 | once an override has set the local APIC address, later overrides leave it |
| Apic.WalkKeepsIo | Kernel/driver/arch/apic.cpp:185-199 | the walk initializes the I/O APIC at most once and otherwise leaves it |
| Apic.SizeAsWritten | Kernel/driver/arch/apic.cpp:158 | the entry area's size as written: the table length minus the 36-byte header |
| Apic.EntriesSize | Kernel/driver/arch/apic.cpp:158 | the corrected size: the entries from byte 44 end within the table |
| Apic.InitializeMeaning | Kernel/driver/arch/apic.cpp:146-263 | without a MADT `APIC::initialize` halts; a finished walk keeps the table's local APIC address unless overridden and sets up the I/O APIC at most once |
| Apic.FixedInitializeMeaning | Kernel/driver/arch/apic.cpp:146-263 | the same holds for the walk bounded by the table's end |
| Apic.WalkNoOverride | Kernel/driver/arch/apic.cpp:233-246 | a walk that meets no override keeps the local APIC address |
| Apic.Apic.constructor | Kernel/driver/arch/apic.h:196 | the local APIC address starts at zero |
| Apic.Apic.Initialize | Kernel/driver/arch/apic.cpp:146-263 | `APIC::initialize` matches its specification as written |
| Apic.WalkThrough | Kernel/driver/arch/apic.cpp:165-263 | a walk that lands exactly on `mid` is the walk to `mid` followed by the walk from `mid` |
| Apic.InitializeReadsPastTable | Kernel/driver/arch/apic.cpp:158-165 | the size as written is 8 more than the entry area, so the walk as written continues past the table's end after the corrected walk finishes |
| Apic.PastTableHalts | Kernel/driver/arch/apic.cpp:158-252 | when the byte after the MADT looks like an x2APIC entry, `APIC::initialize` as written halts, and it differs from the corrected walk exactly when that one succeeds |
| Pcie.IndexInjective | Kernel/driver/bus/pcie/pcie.cpp:126 | different functions of one segment have different ECAM indices |
| Pcie.LocationOfIndex | Kernel/driver/bus/pcie/pcie.cpp:126 | every index below the segment's function count names a function whose index it is |
| Pcie.IndexOfLocation | Kernel/driver/bus/pcie/pcie.cpp:126 | a function's index is below the count and names that function |
| Pcie.EcamWindow | Kernel/driver/bus/pcie/pcie.cpp:117-130 | a register lies at the segment base plus 4 KiB per function index plus its dword offset, inside the function's 4 KiB window |
| Pcie.EcamInjective | Kernel/driver/bus/pcie/pcie.cpp:117-145 | two accesses reach the same dword exactly when they name the same function and dword |
| Pcie.ReadAfterWrite | Kernel/driver/bus/pcie/pcie.cpp:117-145 | a read after a write sees the written value at that function and dword and the old value elsewhere |
| Pcie.OutOfBounds | Kernel/driver/bus/pcie/pcie.cpp:119-138 | an access outside the segment's buses, with device above 31, function above 7 or offset from 4092 on reads 0 and writes nothing |
| Pcie.PointerField | Kernel/driver/bus/pcie/pcie.cpp:173 | the first capability pointer is a byte with its low two bits cleared |
| Pcie.NextPointer | Kernel/driver/bus/pcie/pcie.cpp:194 | the next capability pointer is bits 15:8 of the header with the low two bits cleared |
| Pcie.FollowAdd | Kernel/driver/bus/pcie/pcie.cpp:176-196 | following `a + b` links is following `a` and then `b` |
| Pcie.ChainLists | Kernel/driver/bus/pcie/pcie.cpp:176-196 | the capability loop lists nothing exactly for a null first pointer; otherwise it starts at the first pointer, and each entry has a non-null, unvisited address below 256 and the type in its header's low byte |
| Pcie.ChainDistinct | Kernel/driver/bus/pcie/pcie.cpp:176-196 | a finished capability walk lists no address twice |
| Pcie.ChainLinks | Kernel/driver/bus/pcie/pcie.cpp:179-194 | each listed capability is the one the previous header points to, and the last header points to null |
| Pcie.ChainHangs | Kernel/driver/bus/pcie/pcie.cpp:176-196 | a walk that returns to an address it visited never reaches a null pointer |
| Pcie.Periodic | Kernel/driver/bus/pcie/pcie.cpp:176-196 | a chain that repeats an address before reaching null never reaches null |
| Pcie.ChainHangsExactly | Kernel/driver/bus/pcie/pcie.cpp:176-196 | the capability loop runs forever exactly when following the pointers never reaches null |
| Pcie.LastMsiIndex | Kernel/driver/bus/pcie/pcie.cpp:188-191 | the MSI capability kept is the last one in the list, and there is none exactly when no capability has the MSI id |
| Pcie.Probe | Kernel/driver/bus/pcie/pcie.cpp:148-202 | probing a function gives a device at that location |
| Pcie.ProbeFields | Kernel/driver/bus/pcie/pcie.cpp:148-202 | the device's vendor and device ids are the halves of dword 0, its four class bytes are dword 8, its header type the low nibble of byte 14, its capability list is the walk when the header type is 0 and the status bit is set and empty otherwise, and its MSI capability the last MSI entry |
| Pcie.BarValueWindow | Kernel/driver/bus/pcie/pcie.cpp:212-221 | `getBARValue` reads BAR `n` of a type-0 header for `n` up to 5 and returns 0 otherwise |
| Pcie.MsiAddressWord | Kernel/driver/bus/pcie/pcie.cpp:236 | the MSI address is a 64-bit value |
| Pcie.MsiDataWord | Kernel/driver/bus/pcie/pcie.cpp:237 | the MSI data is a 16-bit value |
| Pcie.WriteAllSnoc | Kernel/driver/bus/pcie/pcie.cpp:238-256 | a run of writes is its prefix followed by the next write |
| Pcie.WriteAllElsewhere | Kernel/driver/bus/pcie/pcie.cpp:238-256 | a run of writes leaves every dword it does not name |
| Pcie.WriteAllReadsBack | Kernel/driver/bus/pcie/pcie.cpp:238-256 | a dword reads the last value a run of writes stored in it |
| Pcie.EnableMsiFields | Kernel/driver/bus/pcie/pcie.cpp:225-260 | without MSI `enableMSI` changes nothing; otherwise the header dword holds the enable bit, then the address (split in two for a 64-bit capability) and the data follow |
| Pcie.MsiWritesReadBack | Kernel/driver/bus/pcie/pcie.cpp:238-256 | the MSI write sequence leaves the header, address and data dwords read back as written |
| Pcie.EnableMsiFrame | Kernel/driver/bus/pcie/pcie.cpp:225-260 | `enableMSI` changes only the dwords of the MSI capability it writes |
| Pcie.Presence | Kernel/driver/bus/pcie/pcie.cpp:88-89 | a function is present when the low half of dword 0 is not 0xFFFF |
| Pcie.Prober | Kernel/driver/bus/pcie/pcie.cpp:92 | the probe the scan uses is `Probe` over the configuration memory |
| Pcie.ScanKeeps | Kernel/driver/bus/pcie/pcie.cpp:79-111 | the scan only appends to the device list |
| Pcie.ScanSound | Kernel/driver/bus/pcie/pcie.cpp:79-111 | every device the scan appends is present, probed at its location, and appended in increasing location order |
| Pcie.AppendedStep | Kernel/driver/bus/pcie/pcie.cpp:89-103 | the appended-devices property extends by one device found at the current location |
| Pcie.ScanComplete | Kernel/driver/bus/pcie/pcie.cpp:79-111 | every present function from the current position on is in the list a finished scan returns |
| Pcie.ScanHangs | Kernel/driver/bus/pcie/pcie.cpp:79-111 | the scan hangs exactly when some present function from the current position on has a capability walk that hangs |
| Pcie.HangsStep | Kernel/driver/bus/pcie/pcie.cpp:85-107 | a location whose probe does not hang does not change whether the rest of the scan hangs |
| Pcie.EnumerateSound | Kernel/driver/bus/pcie/pcie.cpp:68-115 | `enumerateDevices` keeps the devices it had and adds only present functions of its segments, each as probed |
| Pcie.EnumerateComplete | Kernel/driver/bus/pcie/pcie.cpp:68-115 | every present function of every segment is in the list `enumerateDevices` returns |
| Pcie.Matching | Kernel/driver/bus/pcie/pcie.cpp:54-64 | the matching devices are exactly the listed devices with those three class codes |
| Pcie.MatchingAppend | Kernel/driver/bus/pcie/pcie.cpp:54-64 | matching distributes over concatenation, so the order of the device list is kept |
| Pcie.EntriesInsideTable | Kernel/driver/bus/pcie/pcie.cpp:19 | for an MCFG at least 44 bytes long, the counted descriptors lie inside the table |
| Pcie.Descriptor | Kernel/driver/bus/pcie/pcie.cpp:24-33 | a segment descriptor has a 64-bit base address, a 16-bit group and 8-bit start and end buses |
| Pcie.Descriptors | Kernel/driver/bus/pcie/pcie.cpp:21-43 | the descriptor loop yields `n` segments, the i-th from descriptor `i` |
| Pcie.InitializeFinds | Kernel/driver/bus/pcie/pcie.cpp:3-49 | without an MCFG `initialize` leaves both lists empty; otherwise it lists one segment per counted descriptor and then enumerates their devices |
| Pcie.WalkStep | Kernel/driver/bus/pcie/pcie.cpp:179-194 | one iteration of the capability loop appends that capability and moves to the next pointer, keeping the last MSI entry |
| Pcie.PciExpress.constructor | Kernel/driver/bus/pcie/pcie.cpp:6-7 | both lists start empty |
| Pcie.PciExpress.WalkCapabilities | Kernel/driver/bus/pcie/pcie.cpp:173-196 | the capability loop matches `Chain` and keeps the last MSI capability |
| Pcie.PciExpress.ProbeFunction | Kernel/driver/bus/pcie/pcie.cpp:148-202 | the `PCIDevice` constructor matches `Probe` |
| Pcie.PciExpress.ScanDevice | Kernel/driver/bus/pcie/pcie.cpp:85-107 | the function loop matches the scan over one device |
| Pcie.PciExpress.ScanBus | Kernel/driver/bus/pcie/pcie.cpp:82-109 | the device loop matches the scan over one bus |
| Pcie.PciExpress.ScanSegment | Kernel/driver/bus/pcie/pcie.cpp:79-111 | the bus loop matches the scan over one segment |
| Pcie.PciExpress.EnumerateDevices | Kernel/driver/bus/pcie/pcie.cpp:68-115 | `enumerateDevices` matches its specification |
| Pcie.PciExpress.GetDevicesByClassCodes | Kernel/driver/bus/pcie/pcie.cpp:51-66 | `getDevicesByClassCodes` appends the matching devices, in order, to the caller's list |
| Pcie.PciExpress.EnableMsiOn | Kernel/driver/bus/pcie/pcie.cpp:225-260 | `enableMSI` matches its specification |
| Pcie.PciExpress.WriteMsi | Kernel/driver/bus/pcie/pcie.cpp:238-256 | the MSI writes in the order the source makes them |
| Pcie.PciExpress.Initialize | Kernel/driver/bus/pcie/pcie.cpp:3-49 | `initialize` matches its specification |
| Ahci.AbarAddress | Kernel/driver/ahci/ahcibase.cpp:13 | the ABAR's address is BAR5 rounded down to 8 KiB |
| Ahci.DecodeCapabilities | Kernel/driver/ahci/ahcibase.cpp:38-42 | the controller has 1 to 32 ports and 1 to 32 command slots |
| Ahci.EncodeCapabilities | Kernel/driver/ahci/ahcibase.cpp:38-42 | the capability fields fit a 32-bit register |
| Ahci.DecodeEncode | Kernel/driver/ahci/ahcibase.cpp:38-42 | the port count, slot count, staggered spin-up and 64-bit bits are each read back from their own bits |
| Ahci.Drives | Kernel/driver/ahci/ahcibase.cpp:73-85 | the drive list holds exactly the implemented ports below the port count whose setup succeeds, in increasing order |
| Ahci.SlotsFrom | Kernel/driver/ahci/ahcibase.cpp:229-232 | the bits from `i` up to 31 |
| Ahci.ReservedSlots | Kernel/driver/ahci/ahcibase.cpp:229-233 | the free-slot loop marks in use exactly the bits at and above the controller's slot count |
| Ahci.LowestFree | Kernel/driver/ahci/ahcibase.cpp:289-297 | the search finds the lowest clear bit below the slot count, or reports that every such bit is set |
| Ahci.FindFreeSlot | Kernel/driver/ahci/ahcibase.cpp:289-297 | the slot loop of `issueCommand` finds the slot `LowestFree` describes |
| Ahci.FreeSlotExists | Kernel/driver/ahci/ahcibase.cpp:270-301 | when the missing slots are held in use and not every bit is set, a free slot exists, so the halt after the search is never reached |
| Ahci.ZeroTable | Kernel/driver/ahci/ahcibase.cpp:161-163 | a cleared command table has its 128 region descriptors |
| Ahci.SplitJoins | Kernel/driver/ahci/ahcibase.cpp:176-353 | a 64-bit address is the two 32-bit halves it is stored as |
| Ahci.RegionCount | Kernel/driver/ahci/ahcibase.cpp:308 | the descriptor count covers the transfer by started pages, and is at most 128 for a transfer of at most 128 pages |
| Ahci.LbaBytes | Kernel/driver/ahci/ahcibase.cpp:318-323 | the six LBA bytes are the sector number modulo 2^48, little-endian |
| Ahci.FisFields | Kernel/driver/ahci/ahcibase.cpp:313-344 | the FIS is a host-to-device register FIS with the command; a media access carries the sector, LBA mode and the 16-bit count, anything else zero LBA, device and count |
| Ahci.Regions | Kernel/driver/ahci/ahcibase.cpp:349-355 | the region table keeps its 128 entries |
| Ahci.RegionsCoverPages | Kernel/driver/ahci/ahcibase.cpp:349-355 | each of the first `n` descriptors covers one whole page at that page's address with the interrupt bit, and later ones are kept |
| Ahci.FillRegions | Kernel/driver/ahci/ahcibase.cpp:349-355 | the PRDT loop halts exactly when it needs more pages than the data object has, and otherwise fills the descriptors `Regions` describes |
| Ahci.Issue | Kernel/driver/ahci/ahcibase.cpp:264-367 | an issued command takes a slot below the slot count and the port stays well formed |
| Ahci.IssueRefuses | Kernel/driver/ahci/ahcibase.cpp:270-277 | `issueCommand` refuses exactly when every bit is in use or the transfer needs more than 128 pages |
| Ahci.IssueTakesLowestSlot | Kernel/driver/ahci/ahcibase.cpp:281-365 | a command that fits goes into the lowest free slot, which becomes in use with the request stored, a header with a five-dword FIS, the write flag and one descriptor per started page |
| Ahci.HeadersFor | Kernel/driver/ahci/ahcibase.cpp:171-179 | the header loop leaves 32 headers |
| Ahci.FillHeaders | Kernel/driver/ahci/ahcibase.cpp:171-179 | the header loop produces the headers `HeadersFor` describes |
| Ahci.SetupReadiesPort | Kernel/driver/ahci/ahcibase.cpp:115-243 | after a successful setup the port has exactly its missing slots in use, 512-byte sectors, and each slot's header points at its own command table and allows 128 descriptors |
| Ahci.IdentifiedSectorsLE | Kernel/driver/ahci/ahcibase.cpp:384-385 | the sector count combined from words 100 to 103 is the 64-bit little-endian number at byte 200 |
| Ahci.Completed | Kernel/driver/ahci/ahcibase.cpp:400-413 | the completed slots are below `n`, lowest first |
| Ahci.CompletedMembers | Kernel/driver/ahci/ahcibase.cpp:403 | a slot is completed exactly when it is below `n`, in use and clear in PxCI |
| Ahci.Kept | Kernel/driver/ahci/ahcibase.cpp:403-406 | the slots still in use are those in use that are at or above `n` or still set in PxCI |
| Ahci.CompleteCommands | Kernel/driver/ahci/ahcibase.cpp:400-413 | the completion loop releases exactly the completed slots and calls each one's handler once, in slot order |
| Ahci.CompletionStep | Kernel/driver/ahci/ahcibase.cpp:403-411 | one iteration releases and calls slot `j` exactly when it is in use and clear in PxCI |
| Ahci.CallsExactly | Kernel/driver/ahci/ahcibase.cpp:409 | one handler call per completed slot with that slot's handler and data, in order |
| Ahci.ServiceIdentifies | Kernel/driver/ahci/ahcibase.cpp:381-392 | the first interrupt of a port reads the sector count from its identify buffer, marks it identified, calls nothing and frees nothing |
| Ahci.ServiceCompletes | Kernel/driver/ahci/ahcibase.cpp:395-415 | an interrupt of an identified port keeps exactly the bits in use still set in PxCI and calls every other in-use slot's handler once, lowest first |
| Ahci.ServicePort | Kernel/driver/ahci/ahcibase.cpp:375-418 | the body of the port loop of `handleInterrupt` matches `Service`, except that it halts, changing and calling nothing, exactly when the port is not identified and has no identify data in memory to read |
| Ahci.StopUnique | Kernel/driver/ahci/ahcibase.cpp:373-385 | the interrupt loop has one place to stop: the first port whose IS bit is set and whose identify read has nothing to read, or the end of the port list |
| Ahci.Serviced | Kernel/driver/ahci/ahcibase.cpp:373-421 | once the loop has passed the ports before `n`, none of which faulted, the ports among them whose bit is set in IS are served; the port list keeps its length and every entry stays well formed |
| Ahci.ServicedStep | Kernel/driver/ahci/ahcibase.cpp:373-421 | passing one more port that does not fault serves exactly that port when its IS bit is set and changes no other entry |
| Ahci.IdentifyIssues | Kernel/driver/ahci/ahcibase.cpp:258 | on a ready port the identify command is issued into slot 0 |
| Ahci.IdentifyReadsOwnBuffer | Kernel/driver/ahci/ahcibase.cpp:258-359 | when a port holds its own buffer, its identify command has one descriptor pointing at that buffer, command 0xEC, an empty request, and slot 0 in use |
| Ahci.IssueOnHost | Kernel/driver/ahci/ahcibase.cpp:358-362 | an issued command replaces only its port's entry and writes only its slot's bit to PxCI |
| Ahci.IdentifySteps | Kernel/driver/ahci/ahcibase.cpp:245-262 | `identifyDevices` keeps the host's shape |
| Ahci.IdentifiedEntries | Kernel/driver/ahci/ahcibase.cpp:248-260 | after `n` steps each entry is as `EntryAfter` describes |
| Ahci.EntryAfter | Kernel/driver/ahci/ahcibase.cpp:248-260 | each entry stays well formed after `n` steps |
| Ahci.IdentifyInto | Kernel/driver/ahci/ahcibase.cpp:258 | issuing the identify command keeps the entry well formed |
| Ahci.IdentifiedControls | Kernel/driver/ahci/ahcibase.cpp:258-362 | the identify steps keep the register list's length |
| Ahci.IdentifyStepsReady | Kernel/driver/ahci/ahcibase.cpp:245-262 | on ready ports with mapped pages every step issues into slot 0, ending in `IdentifiedEntries` |
| Ahci.IdentifyStep | Kernel/driver/ahci/ahcibase.cpp:249-258 | one step stores the page in entry `n - 1` and issues the identify command on drive `n - 1`'s port |
| Ahci.EntriesStep | Kernel/driver/ahci/ahcibase.cpp:250-258 | the entries after one more step |
| Ahci.EntryStepAtDrive | Kernel/driver/ahci/ahcibase.cpp:258 | the drive's own entry after one more step |
| Ahci.EntryStepAtOther | Kernel/driver/ahci/ahcibase.cpp:250 | every other entry after one more step: only entry `n - 1` gets the page |
| Ahci.ControlsStep | Kernel/driver/ahci/ahcibase.cpp:362 | one more step writes slot 0 to the drive's PxCI |
| Ahci.IdentifyBufferMisplaced | Kernel/driver/ahci/ahcibase.cpp:248-258 | as written the `k`-th drive's command reads into the `k`-th drive's page, but that page is recorded in entry `k`, so the drive's own entry holds it exactly when the drive is port `k` |
| Ahci.CorrectedIdentified | Kernel/driver/ahci/ahcibase.cpp:248-258 | corrected `identifyDevices` keeps the entries' count |
| Ahci.CorrectedIdentifyOwnBuffer | Kernel/driver/ahci/ahcibase.cpp:248-258 | corrected, every drive's entry holds its own page and the identify command into it, and the other entries are unchanged |
| Ahci.CorrectedServiceCompletes | Kernel/driver/ahci/ahcibase.cpp:400-413 | corrected, an identified port releases and calls exactly the finished slots below the slot count, lowest first |
| Ahci.IdentifySlotNeverFreed | Kernel/driver/ahci/ahcibase.cpp:381-392 | as written the identify command's slot 0 stays in use after the identification, so no later command gets it and a one-slot controller refuses every command |
| Ahci.IdentifyFreesSlot | Kernel/driver/ahci/ahcibase.cpp:381-392 | corrected, the identification frees slot 0, so the next command takes it and its completion calls that command's handler |
| Ahci.CompletedPastSlots | Kernel/driver/ahci/ahcibase.cpp:400-403 | the slots past the controller's count, all in use and clear in PxCI, are all completed, in order |
| Ahci.ReservedSlotsCompleted | Kernel/driver/ahci/ahcibase.cpp:400-411 | as written an interrupt frees every missing slot and calls one handler for each of them from requests never issued |
| Ahci.ReservedCalls | Kernel/driver/ahci/ahcibase.cpp:400-411 | the full scan's calls are the short scan's followed by one per missing slot |
| Ahci.ReservedFreed | Kernel/driver/ahci/ahcibase.cpp:403-406 | the full scan keeps what the short scan keeps, less the missing slots |
| Ahci.ReservedSlotsKept | Kernel/driver/ahci/ahcibase.cpp:400-411 | corrected, the missing slots stay in use and only the controller's own slots are called |
| Ahci.ReadRefuses | Kernel/driver/ahci/ahcibase.cpp:108-277 | `readSectors` refuses exactly when every bit is in use or the count narrowed to 16 bits needs more than 128 pages |
| Ahci.ReadTruncatesCount | Kernel/driver/ahci/ahcibase.cpp:108-264 | as written a read of 65536 sectors or more is issued for the count modulo 65536, covering fewer bytes than asked, where the corrected read refuses |
| Ahci.CorrectedReadRefuses | Kernel/driver/ahci/ahcibase.cpp:108-277 | corrected, a read is refused exactly when every bit is in use or the whole count needs more than 128 pages |
| AhciHost.IssueResult | Kernel/driver/ahci/ahcibase.cpp:270-365 | `issueCommand` returns true exactly when the command was issued, and halts exactly when the issue halts |
| AhciHost.IssueOn | Kernel/driver/ahci/ahcibase.cpp:264-367 | `issueCommand` on one port entry matches `Issue` |
| AhciHost.SetupPort | Kernel/driver/ahci/ahcibase.cpp:115-243 | `initializePort` accepts the port exactly when its status shows an established link with the ATA signature 0x101, and leaves the entry `PortAfterSetup` describes |
| AhciHost.SetupKeepsShape | Kernel/driver/ahci/ahcibase.cpp:115-243 | a port entry stays well formed through setup |
| AhciHost.EntryAfterLoop | Kernel/driver/ahci/ahcibase.cpp:73-85 | each entry the constructor's port loop leaves is well formed |
| AhciHost.HostAfterLoop | Kernel/driver/ahci/ahcibase.cpp:71-85 | the port loop leaves one entry per port and keeps the controller's shape |
| AhciHost.Controller.constructor | Kernel/driver/ahci/ahcibase.h:206-213 | before the constructor body runs there are no ports and no drives and the controller is not initialized |
| AhciHost.Controller.Setup | Kernel/driver/ahci/ahcibase.cpp:3-99 | the `AHCI` constructor takes the ABAR from BAR5 and decodes CAP; without 64-bit addressing or with staggered spin-up it stops uninitialized, a zero MSI vector halts, and otherwise it sets up the ports, lists the drives, identifies them and is initialized unless identification halts |
| AhciHost.Controller.Populate | Kernel/driver/ahci/ahcibase.cpp:71-91 | the port loop, the identification and the initialized flag |
| AhciHost.Controller.InitializedCorrectly | Kernel/driver/ahci/ahcibase.cpp:101 | `initializedCorrectly` returns the initialized flag |
| AhciHost.Controller.GetSectorCount | Kernel/driver/ahci/ahcibase.cpp:103-106 | `getSectorCount` returns the identified size of a port, and 0 before identification |
| AhciHost.Controller.IssueCommand | Kernel/driver/ahci/ahcibase.cpp:264-367 | `issueCommand` changes the port entry as `Issue` says and writes only an issued slot's bit to PxCI |
| AhciHost.Controller.ReadSectors | Kernel/driver/ahci/ahcibase.cpp:108-113 | `readSectors` issues READ DMA EXT with the count narrowed to 16 bits |
| AhciHost.Controller.InitializePort | Kernel/driver/ahci/ahcibase.cpp:115-243 | `initializePort` changes only its port's entry and registers, as `PortAfterSetup` and `ControlAfterSetup` say |
| AhciHost.Controller.IdentifyDevices | Kernel/driver/ahci/ahcibase.cpp:245-262 | `identifyDevices` matches `IdentifySteps` |
| AhciHost.Controller.HandleInterrupt | Kernel/driver/ahci/ahcibase.cpp:369-426 | `handleInterrupt` serves every port whose IS bit is set, as `Service` says, in port order, and makes exactly those handler calls, up to `stop`: the first interrupting port not yet identified with no identify data to read, where the machine stops, or the number of ports when there is none |
| AhciHost.ServeAll | Kernel/driver/ahci/ahcibase.cpp:373-421 | the port loop of `handleInterrupt` stops at the one place `StopsAt` allows, and leaves the entries and calls that `Serviced` and `ServiceCalls` give for that `stop` |
| AhciHost.ServicedShaped | Kernel/driver/ahci/ahcibase.cpp:373-421 | the interrupt keeps the controller's shape |
| AhciHost.IssueAt | Kernel/driver/ahci/ahcibase.cpp:264-367 | `issueCommand` on an entry of the port array matches `Issue` and `IssueOnHost` |
| AhciHost.IdentifyAll | Kernel/driver/ahci/ahcibase.cpp:248-260 | the loop of `identifyDevices` matches `IdentifySteps` |
| AhciHost.IdentifyOne | Kernel/driver/ahci/ahcibase.cpp:249-258 | one iteration of that loop: the next identify step, or a halt when the page is not mapped |
| AhciHost.ServeOne | Kernel/driver/ahci/ahcibase.cpp:375-418 | one iteration of the interrupt loop serves port `i` when its IS bit is set and adds its handler calls, or halts with nothing changed exactly when port `i` faults |
| AhciHost.SetupPorts | Kernel/driver/ahci/ahcibase.cpp:73-85 | the constructor's port loop leaves `HostAfterLoop` and the drive list `Drives` |
| AhciHost.LoopHost | Kernel/driver/ahci/ahcibase.cpp:73-85 | the entries and registers the loop leaves are those of `HostAfterLoop` |
| AhciHost.SetupOne | Kernel/driver/ahci/ahcibase.cpp:76-83 | one iteration sets up port `i` when it is implemented and appends it to the drives when accepted |
| AhciHost.IdentifyStepUnfolds | Kernel/driver/ahci/ahcibase.cpp:250-258 | a step of `identifyDevices` after steps that succeeded |
| AhciHost.IdentifyHangStays | Kernel/driver/ahci/ahcibase.cpp:252-255 | once a step halts, the whole loop halts |
| AhciHost.SetupIdentifiesByPosition | Kernel/driver/ahci/ahcibase.cpp:71-258 | after the constructor's port loop `identifyDevices` as written succeeds, and drive `k`'s entry receives buffer `k` exactly when drive `k` sits on port `k` |

## Left out

- Output devices, port I/O, CR3 and MSR access, `lgdt`/`lidt` and every inline-assembly sequence: the values they read are parameters and what they write is not modelled.
- Spinlocks and critical sections: each locked body is one sequential step; concurrency and SMP start-up are not modelled.
- Every `mapObject` call made by a driver, and the halt when it returns null: pcie.cpp:34-40, apic.cpp:191-194 and 265-268, hpet.cpp:17-22, ahcibase.cpp:14-20 and 123-159. The drivers read their registers and configuration space at the physical address, as through an identity mapping.
- The direct map at `0xffff800000000000` is abstracted: where the source only adds it to reach physical memory, the model reads the physical address.
- `adjustKernelMemory` (vas.cpp:182-194) and `getKernelVirtualAddressSpace` (vas.cpp:196-198): a CR3 rewrite and a getter of a global.
- `disableLegacyPIC` and `APIC::getLAPICAddress` in apic.cpp: port I/O and an MSR read.
- The interrupt stubs and `loadIDT` (ints.cpp:11-54 and 88-93); the routines' addresses are parameters of `Interrupts.InterruptTable.Initialize`.
- Interrupts.InterruptTable.FireInterruptHandler: a vector without a handler yields `None`, where the source calls through a null pointer.
- `switchKernelSegments` (gdt.cpp:28-37): segment register loads.
- In pcie.cpp, `enableBusMastering`, `disablePICInterrupts`, `dumpCapabilities` and `getCapabilityReadableString` (262-323): register pokes and logging.
- In ahcibase.cpp:
  - the BIOS hand-off and controller reset spins (23-35, 54-57);
  - the port start/stop and COMRESET waits (190-213);
  - `AHCI::initialize` and the `AHCIBlockDevice` creation and forwarding (93-97, 428-496).
- The font table of graphicsfont.h is not part of this model: glyphs are a parameter.
- GraphicsTerminal.Terminal.constructor: requires a framebuffer at least 8 pixels wide and high, because the model keeps the cursor on the character grid as an invariant, which needs at least one cell; a smaller framebuffer gives the source a grid of zero cells.
- Apic.InitializeSpec: requires the MADT to be at least as long as its 36-byte header; a shorter length would make the source's 32-bit size wrap around.
- Pcie.EntriesInsideTable: stated only for an MCFG long enough for its reserved field (44 bytes); a shorter one makes the 64-bit entry count wrap around.
- Pcie.InitializeSpec: requires the same 44-byte MCFG, for the same reason.
- Pcie.InitializeFinds: requires the same 44-byte MCFG, for the same reason.
- Pcie.PciExpress.Initialize: requires the same 44-byte MCFG, for the same reason.
- KernelHeap.FreeBlock: merges the freed block with its neighbours in address order. The source follows the freed descriptor's `previous` and `next` links (heap.cpp:61-83), which agree with address order only while every link is consistent. After an as-written split (the finding on heap.cpp:170-179), freeing the block after the remainder leaves two free blocks side by side, and a chunk in that state is never released; HeapLinks.StaleLinkBlocksMerge shows this case.
- KernelHeap.FreeBlockMergesRun: built on `FreeBlock`, so it describes the address-order merge, not the source after a stale link.
- KernelHeap.MergesWithPrevious: built on `FreeBlock`, so it describes the address-order merge, not the source after a stale link.
- KernelHeap.MergesWithoutPrevious: built on `FreeBlock`, so it describes the address-order merge, not the source after a stale link.
- KernelHeap.FreeBlockWellFormed: built on `FreeBlock`, so it describes the address-order merge, not the source after a stale link.
- KernelHeap.FreeSpec: built on `FreeBlock`, so it describes the address-order merge, not the source after a stale link.
- KernelHeap.FreeCases: built on `FreeBlock`, so it describes the address-order merge, not the source after a stale link.
- KernelHeap.FreePreservesHeap: built on `FreeBlock`, so it describes the address-order merge, not the source after a stale link.
- KernelHeap.FreeKeepsUsedChunk: built on `FreeBlock`, so it describes the address-order merge, not the source after a stale link.
- KernelHeap.Heap.Free: built on `FreeBlock`, so it describes the address-order merge, not the source after a stale link.
- KernelHeap.Heap.MergeFreed: built on `FreeBlock`, so it describes the address-order merge, not the source after a stale link.
- Hpet.InsertAt: the event queue is an exact sequence. The source keeps the list in `List`, whose middle insertion (list.h:119-133) does not raise the count. From then on `get` misses an element, so the queue loses an event that never fires; Hpet.CreateHidesEvent shows this case.
- Hpet.InsertAtIndex: inserts into the exact queue of `InsertAt`, so nothing is hidden behind the count.
- Hpet.Create: inserts into the exact queue of `InsertAt`, so nothing is hidden behind the count.
- Hpet.CreateKeepsIds: inserts into the exact queue of `InsertAt`, so nothing is hidden behind the count.
- Hpet.CreateMisplaces: inserts into the exact queue of `InsertAt`, so nothing is hidden behind the count.
- Hpet.Timer.CreateTimedEvent: inserts into the exact queue of `InsertAt`, so nothing is hidden behind the count.
- VirtualRegions.Place: the allocation list is an exact sequence. The source keeps it in `List`, whose middle insertion does not raise the count. From then on `get` misses a region, which later placements skip; VirtualRegions.PlaceHidesRegion shows this case.
- VirtualRegions.PlaceKeepsList: works on the exact list of `Place`, so nothing is hidden behind the count.
- AddressSpaces.MapObjectSpec: works on the exact list of `Place`, so nothing is hidden behind the count.
- AddressSpaces.MapObjectPlaces: works on the exact list of `Place`, so nothing is hidden behind the count.
- AddressSpaces.AddressSpace.SplitRegion: works on the exact list of `Place`, so nothing is hidden behind the count.
- AddressSpaces.AddressSpace.MapObject: works on the exact list of `Place`, so nothing is hidden behind the count.
- AhciHost.Controller.HandleInterrupt: an interrupting port not yet identified whose entry holds no identify buffer, or one outside memory, is read in the source through `mappedIdentifyData`, which nothing has set. The read is undefined. The model stops the interrupt at that port and returns it as `stop` (Ahci.IdentifyFaults, Ahci.StopsAt), as a page fault would, since vector 14 has no gate. It does not model a value such a read might return.
- A MADT entry of length zero makes the source loop forever on the same offset; the model returns `Hang` for it.
- The capability walk of pcie.cpp:176-196 follows a repeated pointer forever; the model returns `Hang` when a pointer repeats.
- The heaplinks walks over `next` links carry a step bound; the model does not describe a walk longer than that bound.
- KernelHeap.Heap.Free: requires an address the heap handed out; the source's behaviour on any other address is undefined.
- `new`/`delete` are not modelled as memory: `LinkedList.List.Destroy` and the node removals release nodes only from the model's footprint.
- LinkedList.Node.constructor: sets both links to null, where list.h:187 leaves them uninitialized; the consequence is the finding on list.h:187.
- Contents of physical frames other than the paging structures, the AHCI command structures and the framebuffer: their zeroing loops are stated as postconditions only.
- Callback handlers (HPET events, interrupt handlers, AHCI completions) are not executed: the model records which handler was called with which data.

## Findings

| source | as written | input that shows it | evidently intended | confidence | as-written member | corrected member |
|---|---|---|---|---|---|---|
| Kernel/util/logger.cpp:46-49 | printing the number 0 returns before clearing the hex flag (also 82-85, 117-120, 150-153) | `%x` with 0, then `%u` with 10, prints `0` and then 10 as eight hexadecimal digits | the flag applies to one number only | not executed | Logging.HexFlagOutlivesZero | Logging.FixedAgrees |
| Kernel/util/logger.cpp:162-171 | the special case for the `i64` minimum compares with -9223372036854775807, so the minimum takes the general path and is negated | `print((i64)-9223372036854775808)` with a device attached | the minimum is printed by the special case | not executed | Logging.MinimumI64Overflows | Logging.MinimumAgrees |
| Kernel/mem/physalloc.cpp:187 | subdividing a large page returns the page at 0x1000, not the first small page of the new bitmap | a request for a small page when no large page is partially free | the first small page of the subdivided large page | not executed | PhysAlloc.NewPageAddressAsWrittenMissesPage | PhysAlloc.FixedAllocateInNew |
| Kernel/mem/physalloc.cpp:277 | freeing a small page clears the entry after its own | freeing the page handed out for entry 0 clears entry 1 | the page's own entry is cleared | not executed | PhysAlloc.FreeSmallAsWrittenIsOneOff | PhysAlloc.FixedFreePreservesWellFormed |
| Kernel/mem/heap.cpp:19 | the rounding of the size to 32 bytes wraps in 64 bits | `allocate(2^64 - 1)` is served like `allocate(0)` | a request that large is refused | not executed | KernelHeap.WrappedRequestServedAsEmpty | KernelHeap.FixedAdjusted |
| Kernel/mem/heap.cpp:149 | a released chunk's page is freed by its direct-map address, which the physical allocator ignores | freeing the last allocated block of a chunk the heap then releases | the page is freed at its physical address | not executed | KernelHeap.RemoveChunkLeaksPage | KernelHeap.ReleaseFreesOnlyChunkPage |
| Kernel/mem/heap.cpp:170-179 | a split does not update the following descriptor's `previous` link, so a later `free` of that block does not merge it with the free remainder before it: two free blocks stay side by side and the chunk is never released (HeapLinks.StaleLinkBlocksMerge) | allocating from a free block larger than the request that another block follows, then freeing that block | the successor's `previous` names the new free remainder | not executed | HeapLinks.SplitAsWrittenLeavesStaleLink | HeapLinks.SplitRepresentsTwo |
| Kernel/util/list.h:119-133 | an insertion in the middle does not increase `count`, so `get` then misses an element: an HPET event that never fires (Hpet.CreateHidesEvent), a region of the allocation list (VirtualRegions.PlaceHidesRegion) | `insertAt(1, x)` on a list of two elements leaves `size()` at 2 | `count` grows by one | not executed | LinkedList.InsertAtHidesOne | LinkedList.FixedInsertAtKeepsExact |
| Kernel/util/list.h:187 | a new node's `previous` and `next` are left uninitialized | `appendBack` on an empty list leaves `first->previous` and `last->next` indeterminate | both links start null | not executed | LinkedList.AppendLeavesEndIndeterminate | LinkedList.FixedAppendKeepsEndsNull |
| Kernel/mem/vas.cpp:89-94 | the size left after aligning a region's start is computed in 64 bits and wraps for a region shorter than the alignment gap | a large-page object and a free region of 4 KiB at 1 MiB | such a region does not fit | not executed | VirtualRegions.ShortRegionOverruns | VirtualRegions.FixedPlaceKeepsTiling |
| Kernel/driver/arch/hpet.cpp:109-119 | a new event is inserted at the last position whose event fires earlier, one place too early | events at 1 ms and 5 ms, then a new one at 3 ms, which goes before the 1 ms one | the event goes after every earlier event | not executed | Hpet.CreateMisplaces | Hpet.FixedCreateKeepsReady |
| Kernel/driver/arch/apic.cpp:158 | the entry area's size is the table length minus 36, ignoring the 8 bytes before the first entry | a MADT whose next 8 bytes look like an x2APIC entry | the walk stops at the table's end | not executed | Apic.PastTableHalts | Apic.FixedInitializeMeaning |
| Kernel/driver/acpi/acpibase.cpp:6-7 | the null test is made on the rebased pointer, which is never null | BOOTBOOT reports no root table (pointer 0) | a missing root halts | not executed | Acpi.RootMissingExactly | Acpi.NullTestOnRebasedPointer |
| Kernel/driver/ahci/ahcibase.cpp:248-258 | the identify buffer of the `k`-th drive is recorded in `portInformation[k]`, not in the drive's own port | drives on ports 1 and 2 | each drive's own entry records its buffer | not executed | Ahci.IdentifyBufferMisplaced | Ahci.CorrectedIdentifyOwnBuffer |
| Kernel/driver/ahci/ahcibase.cpp:381-392 | the identify command's slot 0 is never freed | a controller with one command slot refuses every command after identification | the slot is freed when the identification completes | not executed | Ahci.IdentifySlotNeverFreed | Ahci.IdentifyFreesSlot |
| Kernel/driver/ahci/ahcibase.cpp:400-411 | the completion loop scans all 32 bits, and the slots the controller lacks are marked in use | any interrupt on an identified port of a controller with fewer than 32 slots | only the controller's own slots complete | not executed | Ahci.ReservedSlotsCompleted | Ahci.ReservedSlotsKept |
| Kernel/driver/ahci/ahcibase.cpp:108-111 | `readSectors` narrows its sector count to 16 bits | a read of 65536 sectors is issued for 0 sectors | an oversized count is refused | not executed | Ahci.ReadTruncatesCount | Ahci.CorrectedReadRefuses |
