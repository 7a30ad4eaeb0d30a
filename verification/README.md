# Verified model of the kernel's memory stack and text routines

A Dafny model of a small x86-64 kernel's memory management (frame allocator,
page tables, heap, and the boot sequence that composes them) and of three
pieces of its C library (number parsing and printing, `vsprintf`, `strtok`).
Every method below is written in the form of the C function it models, with its
branches, loops and constants (a loop, a loop body or a branch may be a method
of its own), and is proved against a specification about which the theorems are
stated.

## What is modelled

* **Machine, Bits, PageEntry** — 64-bit words; `&`, `|`, `~`, `<<`, `>>` defined
  bit by bit, with the arithmetic that the masks and alignments of the code
  amount to.
* **Frames, Pmm** — the physical frame allocator. `Frames.State` is its
  abstraction: the sets of free, held, managed and reserved frames and the scan
  hint. `Pmm.FrameAllocator` is the bitmap, the two cached counters and the
  hint; `Valid` says that they agree with the abstraction.
* **FreeList, HeapMemory, Tiling, Bytes, Kalloc, HeapRuns** — the heap. The free
  list lives in the memory it manages: a header is two 64-bit words, the payload
  size in bytes and the address of the next free block. `FreeList` is the
  abstract list of blocks, `HeapMemory` says how a list lies in memory and what
  each pointer surgery does to it, `Tiling` is the partition of the heap's frames
  into free and live blocks, `Kalloc.Heap` is the allocator, and `HeapRuns`
  states what whole runs of calls keep, whoever else uses the frame allocator in
  between.
* **PageTables, CloneSpec, MapSpec, Paging** — four-level page tables in the same
  physical memory. `PageTables.Walk` is the translation of the Intel SDM, volume
  3A, section 4.5: the leaf entry, its level (so 2 MiB and 1 GiB pages too) and
  the flag bits of every entry passed. `clone_table` and `map_page` are proved
  against it.
* **Boot, SpaceRuns, Memory** — `memory_init`, the allocator calls after it, as
  steps that leave the active address space alone, and runs in which `map_page`
  changes it.
* **Numerals, Stdlib, Stdio, Strtok** — the text routines. Characters are
  Dafny `char`s; a string ends with a NUL and a pointer into it is an index.

Physical memory is one array of 64-bit words; word `w` has the virtual address
`hhdm + 8 * w`. Blocks are counted in words, so a 16-byte header is 2 words and
sizes are even. Addresses and sizes are unbounded integers with explicit bounds
where C would wrap.

Preconditions are those the code leaves to its callers or to the boot protocol:
request sizes up to 2^64 - 4127, `kfree` and `krealloc` of live blocks only,
`free_frame` of held frames (or frames the code ignores), a memory map without
wrap-around whose reclaimable frames are not usable ones and in which the region
chosen for the bitmap reaches a page boundary, table frames of the bootloader
outside usable memory, all tracked memory below 2^52, and no huge
page on the path that `map_page` descends.

## Findings

* The size test of `pmm_init` (`pmm.c:69-71`) subtracts before it compares. For
  a usable region that ends before its first page boundary the subtraction
  wraps and any bitmap "fits". `Pmm.BitmapRoomCheck` shows that the test is
  right exactly for the regions that reach their first page boundary, and
  `Pmm.TinyUsableRegionPassesRoomCheck` is a region that passes wrongly. The
  page-aligned entries that the boot protocol promises are never of that kind
  (`Pmm.AlignedIsWellPlaced`).
* `alloc_frame` returns the lowest free frame only because nothing below the
  hint is ever free (`Frames.HintIsOnlyAnAcceleration`,
  `Frames.StaleHintSkipsLowerFrame`); its second pass never succeeds.
* A failing `clone_table` does not return the frames it took (`paging.c:72-74`).
  It fails exactly when fewer frames are free than it visits tables, and then
  every free frame is lost to it (`Paging.CloneTable`). In `memory_init` this
  leaves the heap empty and the frame allocator without a frame
  (`Memory.System.MemoryInit`, with the exact condition on the memory map and the
  bootloader's tables), and from then on every kmalloc and alloc_frames fails until
  someone returns frames (`HeapRuns.StarvedStays`).
* Shared source tables are cloned once per path. The number of frames a clone
  needs is the number of tables if and only if the space, with its tables in
  memory, is a tree, and larger otherwise (`PageTables.CountCovers`, `PageTables.TreeCount`);
  `Paging.SharingNeedsMoreFrames` is a space of two tables that two free frames
  are not enough to clone.
* Freeing a single frame moves the hint back to it, not to where it was before
  the allocation, so only runs of two or more restore the hint exactly
  (`Frames.AllocThenFree`).
* `"%ld"` of the smallest number prints a text that `strtoll` cannot be asked to
  read without overflow; every other value is read back (`Stdio.LongReadBack`).

The result `ok` of `Paging.MapPage` reports what the C function, which returns
nothing, keeps to itself.

## Model

| member | source | states |
|---|---|---|
| Frames.RunKeepsInv | src/kernel/memory/pmm.c:114-195 | over every run of allocations, frees and reclaims: free, held and reserved frames stay disjoint, together they are the managed frames, and nothing below the hint is free |
| Frames.Conservation | src/kernel/memory/pmm.c:10-11 | total frames = free + held + reserved-and-managed, so the free count never exceeds the total |
| Frames.NoDoubleHandout | src/kernel/memory/pmm.c:114-195 | a frame handed out twice in a run was returned in between |
| Frames.ReservedNeverHandedOut | src/kernel/memory/pmm.c:95-109 | frame 0 and the bitmap's own frames are never handed out, in any run |
| Frames.AllocDeterministic | src/kernel/memory/pmm.c:130-157 | address and next state of an allocation are determined by the free set and the count |
| Frames.AllocThenFree | src/kernel/memory/pmm.c:130-177 | freeing a fresh run restores the state exactly (for one frame up to the hint); freeing it again changes nothing |
| Frames.HintIsOnlyAnAcceleration | src/kernel/memory/pmm.c:114-128 | the two-pass scan finds the lowest free frame if and only if the hint hides no lower frame |
| Frames.StaleHintSkipsLowerFrame | src/kernel/memory/pmm.c:134-136 | a state with a stale hint in which the one-frame shortcut is not the lowest run |
| Frames.RunStartsAtOrAboveHint | src/kernel/memory/pmm.c:140-154 | no free run starts below the hint, so alloc_frames may leave it alone |
| Frames.LowestSingle | src/kernel/memory/pmm.c:134-136 | the shortcut for one frame agrees with the lowest-run search |
| Frames.ScanFree | src/kernel/memory/pmm.c:141-151 | a free bit extends the run; a completed run is the lowest one |
| Frames.ScanUsed | src/kernel/memory/pmm.c:152-154 | a used bit ends the run and no complete run was missed |
| Frames.FreeManyMeaning | src/kernel/memory/pmm.c:173-177 | a whole free_frames call returns exactly the held frames of the range and pulls the hint down to the lowest |
| Frames.ReclaimFields | src/kernel/memory/pmm.c:193 | managed and free frames grow by the same number at the reclaim |
| Pmm.SetDescribes | src/kernel/memory/pmm.c:14 | setting bit i removes exactly frame i from the free set |
| Pmm.ClearDescribes | src/kernel/memory/pmm.c:15 | clearing bit i adds exactly frame i to the free set |
| Pmm.BmTest | src/kernel/memory/pmm.c:16 | tests membership of the free set |
| Pmm.BitmapDetermined | src/kernel/memory/pmm.c:7-16 | the free set determines every byte of the bitmap |
| Pmm.FrameAllocator.FreeRegion | src/kernel/memory/pmm.c:22-31 | exactly the spanned frames fully inside the region become free, each counted once |
| Pmm.FrameAllocator.CountFrames | src/kernel/memory/pmm.c:46-56 | frame_count reaches exactly to the end of the regions of type 0 (usable) and 5 (bootloader-reclaimable) |
| Pmm.OtherKindsDoNotCount | src/kernel/memory/pmm.c:49-51 | regions that are neither usable nor reclaimable do not change the frame count |
| Pmm.ReservedRangeOnTop | src/kernel/memory/pmm.c:46-56 | 128 MiB of memory and a reserved range far above it are 0x8000 frames |
| Pmm.BitmapBytesMeaning | src/kernel/memory/pmm.c:57 | bitmap_bytes is the fewest whole pages with a bit per frame |
| Pmm.FrameAllocator.PlaceBitmap | src/kernel/memory/pmm.c:65-76 | for any memory map, the bitmap goes to the first page of the first usable region that passes the size test, and is placed exactly if one passes |
| Pmm.FirstPassingHasRoom | src/kernel/memory/pmm.c:65-76 | the region chosen is the first one with room for the bitmap, if it reaches its first page boundary |
| Pmm.PassesMeaning | src/kernel/memory/pmm.c:66-71 | the size test in numbers, with its wrap-around |
| Pmm.AlignedIsWellPlaced | src/kernel/memory/pmm.c:69-71 | with page-aligned usable regions the choice is always right |
| Pmm.BitmapRoomCheck | src/kernel/memory/pmm.c:69-71 | the size test is right if and only if the region reaches its first page boundary |
| Pmm.TinyUsableRegionPassesRoomCheck | src/kernel/memory/pmm.c:69-71 | a 256-byte region that passes the test for a bitmap of a MiB |
| Pmm.FrameAllocator.FreeRegionsOfKind | src/kernel/memory/pmm.c:87-91 | the frames fully inside some region of the kind become free, overlaps counted once |
| Pmm.FrameAllocator.CarveOut | src/kernel/memory/pmm.c:95-109 | the bitmap's frames and frame 0 leave the free set and the count |
| Pmm.FrameAllocator.Init | src/kernel/memory/pmm.c:33-112 | afterwards the free set is the usable frames minus the bitmap's own and frame 0; bitmap, counters and hint agree with it |
| Pmm.AfterInitUnique | src/kernel/memory/pmm.c:33-112 | the memory map determines the state after pmm_init: frame count, bitmap size, bitmap place and free set |
| Pmm.AfterInitMeaning | src/kernel/memory/pmm.c:84-109 | frame by frame: free after pmm_init if and only if fully inside a usable region, not frame 0 and not a page of the bitmap |
| Pmm.ReclaimMeaning | src/kernel/memory/pmm.c:183-192 | frame by frame: free after the reclaim if and only if free before, or fully inside a bootloader-reclaimable region and not frame 0 |
| Pmm.FrameAllocator.AllocFrame | src/kernel/memory/pmm.c:114-128 | the lowest free frame moves to held; 0 exactly when none is free |
| Pmm.FrameAllocator.FindRun | src/kernel/memory/pmm.c:138-156 | finds the lowest run of free frames, or there is none |
| Pmm.FrameAllocator.AllocFrames | src/kernel/memory/pmm.c:130-157 | the lowest run moves to held; 0 exactly for a zero count or when no run exists |
| Pmm.FrameAllocator.FreeFrame | src/kernel/memory/pmm.c:159-171 | a held frame becomes free and may pull the hint down; everything else is ignored |
| Pmm.FrameAllocator.FreeFrames | src/kernel/memory/pmm.c:173-177 | the same for a range |
| Pmm.FrameAllocator.ReclaimBootloader | src/kernel/memory/pmm.c:179-195 | every reclaimable frame except frame 0 becomes free and managed; counters and hint follow |
| FreeList.FreedMeaning | src/kernel/memory/kalloc.c:28-54 | inserting and coalescing both ways keeps the list canonical (ordered, nothing touching) and adds exactly the block |
| FreeList.TakeMeaning | src/kernel/memory/kalloc.c:88-111 | taking a block keeps the list canonical, removes exactly the block taken, and wastes at most one 16-byte unit |
| FreeList.CanonicalUnique | src/kernel/memory/kalloc.c:26-54 | the set of free words determines the free list |
| FreeList.TakeThenFree | src/kernel/memory/kalloc.c:88-111 | allocation without growth followed by the free restores the list |
| FreeList.FreeOrderIrrelevant | src/kernel/memory/kalloc.c:132-138 | freeing the same blocks in any order ends in the same list |
| FreeList.StretchInOneBlock | src/kernel/memory/kalloc.c:113-116 | a free stretch lies inside one block, so one growth is enough |
| HeapMemory.StitchLinked | src/kernel/memory/kalloc.c:36-42 | the pointer writes insert the block into the linked list in memory |
| HeapMemory.MergeLinked | src/kernel/memory/kalloc.c:44-53 | the two header writes merge two neighbouring blocks in memory |
| HeapMemory.SplitLinked | src/kernel/memory/kalloc.c:93-102 | the header writes of a split leave the remainder in the block's place in the list |
| HeapMemory.UnlinkLinked | src/kernel/memory/kalloc.c:103-109 | one pointer write unlinks a whole block |
| Tiling.TileTake | src/kernel/memory/kalloc.c:88-111 | allocation keeps the partition of the heap into free and live blocks |
| Tiling.TileFree | src/kernel/memory/kalloc.c:132-138 | so does freeing |
| Tiling.TileGrow | src/kernel/memory/kalloc.c:57-72 | and growing by a run of frames |
| Tiling.RunBlockWords | src/kernel/memory/kalloc.c:68-69 | the block made of a run covers exactly the words of its frames |
| Tiling.PayloadWrite | src/kernel/memory/kalloc.c:126-128 | writing one live payload disturbs neither the free list nor another block |
| Bytes.Memset | src/libs/string.c:248-254 | sets exactly the bytes of the range, in a memory of words |
| Bytes.Memcpy | src/libs/string.c:256-263 | copies exactly the bytes of the range |
| Bytes.CopiedWords | src/libs/string.c:256-263 | whole words of copied bytes are copied words |
| Bytes.ZeroBytesZeroWords | src/libs/string.c:248-254 | whole words of zero bytes are zero |
| Bytes.MoveKeepsPayload | src/kernel/memory/kalloc.c:155-161 | allocation, copy and free in this order leave the old payload at the start of the new one |
| Kalloc.AlignRequest | src/kernel/memory/kalloc.c:20 | align_up to 16 is the request in whole 16-byte units, without wrap-around below the bound |
| Kalloc.RequestMeaning | src/kernel/memory/kalloc.c:83 | a request is rounded up to the next multiple of 16 bytes |
| Kalloc.TotalMeaning | src/kernel/memory/kalloc.c:124 | an array of n elements takes n times the size of one |
| Kalloc.GrowthBounds | src/kernel/memory/kalloc.c:57-62 | growth takes at least 16 frames, and otherwise the fewest that hold a header and the request |
| Kalloc.OutOfMemoryMeaning | src/kernel/memory/kalloc.c:85-117 | for any size: out of memory if and only if every free block has fewer bytes than asked for and there is no run of as many free frames as the heap would grow by |
| Kalloc.SmallRequestFails | src/kernel/memory/kalloc.c:57-66 | up to 65520 bytes that is a run of 16 free frames |
| Kalloc.FirstFitMeaning | src/kernel/memory/kalloc.c:86-111 | without growth the payload is 16 bytes into the first free block of at least the bytes asked for, and at most 31 bytes longer |
| Kalloc.CarriedWords | src/kernel/memory/kalloc.c:159 | a moved payload is the old one word by word |
| Kalloc.OldBelowRequest | src/kernel/memory/kalloc.c:159 | on the move path the old size is below the request, so the whole old payload is copied |
| Kalloc.Heap.FreeInsert | src/kernel/memory/kalloc.c:28-54 | in memory: the list stays canonical, grows by exactly the block, and only free words are written |
| Kalloc.Heap.HeapGrow | src/kernel/memory/kalloc.c:57-72 | success adds the lowest run of frames, all free, with some block large enough; failure means that no run exists and changes nothing |
| Kalloc.Heap.Init | src/kernel/memory/kalloc.c:74-77 | an empty heap, or one block of 64 KiB and a page |
| Kalloc.Heap.FindFit | src/kernel/memory/kalloc.c:86-90 | the first block that is large enough, or none is |
| Kalloc.Heap.TakeBlock | src/kernel/memory/kalloc.c:92-110 | split or unlink, in memory; the invariant holds again |
| Kalloc.Heap.Kmalloc | src/kernel/memory/kalloc.c:79-118 | first fit in the list, grown at most once; NULL exactly for size 0 or when no block fits and no run of frames exists, and then nothing changed; other live blocks untouched |
| Kalloc.Heap.Kcalloc | src/kernel/memory/kalloc.c:120-130 | NULL also exactly on overflow of the product; otherwise every requested byte is zero |
| Kalloc.Heap.Kfree | src/kernel/memory/kalloc.c:132-138 | the block becomes free, no live block is touched |
| Kalloc.Heap.Krealloc | src/kernel/memory/kalloc.c:140-162 | stays in place, or moves with its whole payload and frees the old block, or fails with the old block live and unchanged |
| HeapRuns.RunKeepsHeapInv | src/kernel/memory/kalloc.c:28-162 | in every state of every run, other users of the frame allocator included, the list is canonical and free and live blocks tile the heap's frames: none lost, none shared |
| HeapRuns.BlockSurvives | src/kernel/memory/kalloc.c:28-162 | over every such run a block stays live with its contents until it is given up or written by its holder |
| HeapRuns.NewBlockIsApart | src/kernel/memory/kalloc.c:79-118 | a new block overlaps no live block |
| HeapRuns.ServedDeterministic | src/kernel/memory/kalloc.c:79-118 | state and size determine the address returned and the next state |
| HeapRuns.RunDeterministic | src/kernel/memory/kalloc.c:28-162 | equal requests, to the heap and to the frame allocator, from equal states give equal addresses, NULLs included, and states, over whole runs |
| HeapRuns.MallocThenFree | src/kernel/memory/kalloc.c:79-138 | kmalloc then kfree restores the searched list; without growth, the whole state |
| HeapRuns.ValidIsInv | src/kernel/memory/kalloc.c:18 | every valid heap can start such a run |
| HeapRuns.Malloc | src/kernel/memory/kalloc.c:79-118 | kmalloc is a step of a run, NULL exactly when out of memory |
| HeapRuns.Calloc | src/kernel/memory/kalloc.c:120-130 | so is kcalloc, and its block is zero |
| HeapRuns.Free | src/kernel/memory/kalloc.c:132-138 | so is kfree |
| HeapRuns.Realloc | src/kernel/memory/kalloc.c:140-162 | so is krealloc, and a moved block starts with the whole old payload |
| HeapRuns.TakeFrames | src/kernel/memory/pmm.c:130-157 | so is alloc_frames by someone else |
| HeapRuns.ReturnFrames | src/kernel/memory/pmm.c:173-177 | so is free_frames by someone else, of frames that are not the heap's |
| PageEntry.RelocatedEntry | src/kernel/memory/paging.c:75-76 | the relocated entry has the new address and all the old flag bits |
| PageEntry.AddrArithmetic | src/kernel/memory/paging.c:13 | the address mask selects bits 51:12 |
| PageTables.WalkStep | src/kernel/memory/paging.c:8-18 | one step of a walk in numbers: the index, present bit, page-size bit, next table and flags; which entries end it |
| PageTables.LinkMeaning | src/kernel/memory/paging.c:65 | in numbers, which entries lead to another table, and to which |
| CloneSpec.ClonedWords | src/kernel/memory/paging.c:58-77 | entry by entry: an absent entry becomes 0, a 4 KiB, 2 MiB or 1 GiB leaf stands unchanged, a link keeps every bit outside its address |
| PageTables.TablesFrame | src/kernel/memory/paging.c:34 | structure and translation depend only on the reachable table frames |
| PageTables.TreePathsUnique | src/kernel/memory/paging.c:51-79 | in a tree every table is reached by exactly one path |
| PageTables.CountCovers | src/kernel/memory/paging.c:58-78 | a clone visits at least as many tables as there are |
| PageTables.TreeCount | src/kernel/memory/paging.c:58-78 | it visits each table once if and only if the tables form a tree |
| Paging.SharingNeedsMoreFrames | src/kernel/memory/paging.c:71-74 | a space with a shared table, and as many free frames as tables, for which the clone fails |
| PageTables.TablesHavePaths | src/kernel/memory/paging.c:51-79 | every table of a space is reached by some path |
| CloneSpec.CloneAssembled | src/kernel/memory/paging.c:58-78 | 512 finished entries make a tree with the source's translation |
| Paging.CloneEntry | src/kernel/memory/paging.c:58-77 | one iteration: absent, leaf and link entries |
| Paging.CloneTable | src/kernel/memory/paging.c:51-79 | on success a tree of freshly allocated frames that translates every address as the source does, entry by entry as in ClonedWords, the source unchanged even if it shares tables; it succeeds if and only if there is a free frame for every table it visits, and otherwise keeps every free frame |
| Paging.NextLevel | src/kernel/memory/paging.c:25-35 | descends one level, adding a zeroed table if there is none; without a frame the translation is unchanged and tables are still missing |
| Paging.MapPage | src/kernel/memory/paging.c:37-49 | the translation changes for exactly the 4 KiB page of va; the space stays a tree; it fails if and only if more tables are missing than frames are free, and then no translation changes |
| MapSpec.SamePageMeaning | src/kernel/memory/paging.c:15-18 | the four indices agree exactly if bits 47:12 agree |
| MapSpec.PageEntryMeaning | src/kernel/memory/paging.c:47 | the entry stored: address field of pa, low twelve flags, no-execute bit, not overlapping |
| MapSpec.MappedMeaning | src/kernel/memory/paging.c:47 | what the mapped page translates to, in numbers |
| MapSpec.AddedFlags | src/kernel/memory/paging.c:26-33 | the tables added are present and writable, nothing else, and there is one for each level still missing |
| MapSpec.KeptFlags | src/kernel/memory/paging.c:34 | a table that exists keeps its flags |
| MapSpec.StoreLeafWalk | src/kernel/memory/paging.c:47 | the last store changes the walk of one page only |
| MapSpec.StoreLeafTree | src/kernel/memory/paging.c:47 | and keeps the space a tree with the same tables |
| MapSpec.NewTableSpace | src/kernel/memory/paging.c:26-33 | linking a zeroed table keeps every translation and adds one table |
| MapSpec.LocalWalk | src/kernel/memory/paging.c:37-47 | in a tree, a change below one table is seen only by addresses whose walk passes it |
| Boot.ServiceKeepsSpace | src/kernel/memory/memory.c:16-26 | an allocator call keeps the active tables, their tree shape and their translation |
| Boot.ServiceRunKeepsSpace | src/kernel/memory/memory.c:16-26 | over every run after boot the active translation is the same for every address |
| Boot.ActiveNeverHandedOut | src/kernel/memory/memory.c:16-26 | no call of a run hands out a table frame of the active space |
| Boot.ReclaimSparesClone | src/kernel/memory/memory.c:21-24 | the clone's frames are neither reclaimed nor free |
| Memory.System.MemoryInit | src/kernel/memory/memory.c:8-27 | after boot every address translates as before and no active table is free or in the heap; the clone succeeds if and only if the free frames after pmm_init suffice; the free frames are then those, without the clone's, with the reclaimed ones, and otherwise none; the heap is one block of the lowest 17 free frames, or empty |
| HeapRuns.NothingLeft | src/kernel/memory/kalloc.c:113-116 | with an empty heap and no free frame, as after a failed clone, every request is out of memory |
| HeapRuns.StarvedStays | src/kernel/memory/memory.c:19-26 | and so it stays over every run, until someone returns or reclaims frames |
| Memory.System.CloneAndReclaim | src/kernel/memory/memory.c:19-24 | clone, load, reclaim: the order that makes reclaiming sound; reclaims if and only if there was a frame for every table |
| Memory.System.LoadSpace | src/kernel/memory/paging.c:87-89 | the root is the cloned table |
| Memory.System.Malloc | src/kernel/memory/kalloc.c:79-118 | kmalloc after boot is a step of a heap run, with its result, and a service step |
| Memory.System.Calloc | src/kernel/memory/kalloc.c:120-130 | kcalloc after boot likewise, with a zero block |
| Memory.System.Free | src/kernel/memory/kalloc.c:132-138 | kfree after boot likewise: the block is released |
| Memory.System.Realloc | src/kernel/memory/kalloc.c:140-162 | krealloc after boot likewise, with the payload carried over |
| Memory.System.AllocFrames | src/kernel/memory/pmm.c:130-157 | alloc_frames after boot takes the lowest run; a service step, and for the heap a step by someone else |
| Memory.System.FreeFrames | src/kernel/memory/pmm.c:173-177 | free_frames by a holder after boot frees exactly the frames held; a service step, and for the heap a step by someone else |
| Memory.System.MapPage | src/kernel/memory/paging.c:37-49 | map_page on the active space keeps the system valid and the space a tree |
| SpaceRuns.SpaceRunKeepsTree | src/kernel/memory/paging.c:25-49 | over every run of service steps and map_page calls the active space stays a tree whose tables are the initial ones and those added, none free or in the heap |
| SpaceRuns.WalkStays | src/kernel/memory/paging.c:37-49 | over every such run an address translates as before until its page is mapped |
| SpaceRuns.LastMappingHolds | src/kernel/memory/paging.c:37-49 | and a mapped page translates to the entry stored last for it |
| Numerals.DigitsRoundTrip | src/libs/stdio.c:40-54 | the digits of a number have its value, in every base |
| Numerals.LeadingDigit | src/libs/stdio.c:43-47 | only zero is printed with a leading zero |
| Numerals.WordDigits | src/libs/stdio.c:41 | at most 64 digits in any base, at most 20 in base 10 |
| Numerals.DigitCharMeaning | src/libs/stdio.c:45-46 | the codes of the digits printed: no upper case |
| Numerals.DigitValueMeaning | src/libs/stdlib.c:308-318 | the codes of the digits read: both cases |
| Numerals.DigitsArePrinted | src/libs/stdio.c:45-46 | every character printed is '0' to '9' or 'a' to 'z' |
| Numerals.DigitsUnique | src/libs/stdio.c:40-54 | the text printed is the only one without upper case and without a leading zero that has the value |
| Numerals.CaseDoesNotMatter | src/libs/stdlib.c:308-318 | upper and lower case digits have the same value |
| Stdlib.SkipWhite | src/libs/stdlib.c:276-279 | stops at the first character that is not white space |
| Stdlib.ReadDigits | src/libs/stdlib.c:307-326 | the value of the digits modulo 2^64, stopping at the first character that is no digit |
| Stdlib.Strtoull | src/libs/stdlib.c:272-333 | the signed value modulo 2^64, and the end position |
| Stdlib.Strtoll | src/libs/stdlib.c:145-207 | the signed value, for numbers that fit |
| Stdlib.Atoi | src/libs/stdlib.c:3-27 | the signed value in base 10, for magnitudes that fit an int |
| Stdlib.BackwardDigits | src/libs/stdlib.c:351-357 | the digit loop writes the digits backwards, for zero too |
| Stdlib.ReverseInPlace | src/libs/stdlib.c:361-367 | reverses exactly the given stretch |
| Stdlib.ReversedAt | src/libs/stdlib.c:361-367 | what reversing means, position by position |
| Stdlib.Itoa | src/libs/stdlib.c:335-370 | writes the text and a NUL and nothing beyond; empty for an invalid base |
| Stdlib.ItoaTextMeaning | src/libs/stdlib.c:335-349 | bases 2 to 36, signed in base 10 only |
| Stdlib.ReadPrinted | src/libs/stdlib.c:272-333 | an optional minus sign and the digits of v are read back as v, up to the NUL, in every base |
| Stdlib.ReadMeaning | src/libs/stdlib.c:272-333 | white space, an optional sign, a prefix where the base asks for one, digits in either case: what is read, and where reading stops |
| Stdlib.PartsOf | src/libs/stdlib.c:272-333 | every string has these parts |
| Stdlib.HexReadBack | src/libs/stdlib.c:288-305 | behind a "0x" the base-16 digits of v are read as v, in base 16 and with the base left open |
| Stdlib.OctalReadBack | src/libs/stdlib.c:289-297 | behind a "0" the base-8 digits of v are read as v with the base left open |
| Stdlib.DecimalReadBack | src/libs/stdlib.c:289-300 | the base-10 digits of v are read as v with the base left open, zero included |
| Stdlib.ItoaReadBack | src/libs/stdlib.c:335-370 | strtoul of itoa is the value modulo 2^32 in every base but 10 |
| Stdlib.ItoaAtoi | src/libs/stdlib.c:3-27 | atoi of itoa in base 10 is the value, except for the smallest int |
| Stdlib.IntReadBack | src/libs/stdio.c:56-62 | a signed number printed in base 10 is read back |
| Stdio.EmitUint | src/libs/stdio.c:40-54 | the digits at the cursor, nothing else changed |
| Stdio.EmitInt | src/libs/stdio.c:56-62 | sign and absolute value, the smallest number included |
| Stdio.EmitStr | src/libs/stdio.c:64-71 | the string at the cursor |
| Stdio.EmitConv | src/libs/stdio.c:83-146 | one conversion: its text, the format position after it, never past the NUL, and exactly the argument it takes used up |
| Stdio.Vsprintf | src/libs/stdio.c:73-151 | writes exactly the recursive meaning of the format, arguments taken in order, and one NUL, nothing after it, and returns the length |
| Stdio.RenderConcat | src/libs/stdio.c:73-151 | the meaning of concatenated formats is the concatenation of the meanings |
| Stdio.EscapePrintsItself | src/libs/stdio.c:77-104 | text with doubled percent signs prints as itself |
| Stdio.PrintsInt | src/libs/stdio.c:85-87 | %d prints the signed decimal text, which reads back |
| Stdio.PrintsUnsigned | src/libs/stdio.c:88-93 | %u and %x print the digits in base 10 and 16, which read back |
| Stdio.PrintsUnsignedLong | src/libs/stdio.c:111-134 | so do %lu, %Lu, %lx and %Lx |
| Stdio.PrintsText | src/libs/stdio.c:94-100 | %s prints the string, %c the one character |
| Stdio.PrintsUnknown | src/libs/stdio.c:101-141 | any other character after the percent sign is echoed |
| Stdio.PrintsBad | src/libs/stdio.c:111-141 | what a trailing percent sign and cut-off or unknown long conversions print |
| Stdio.LongReadBack | src/libs/stdio.c:111-125 | what %ld and %Ld print is the signed decimal text, which is read back; it fits strtoll's result exactly if the value is not the smallest |
| Stdio.PointerReadBack | src/libs/stdio.c:105-110 | what %p prints is read back in base 16 and with the base left open |
| Stdio.UintReadBack | src/libs/stdio.c:40-54 | what emit_uint prints in a base, strtoull reads back in that base |
| Strtok.TokensAreMaximalRuns | src/libs/string.c:170-222 | the tokens are exactly the maximal stretches without a character of the delimiter set |
| Strtok.RunsInOrder | src/libs/string.c:170-222 | in order, with a delimiter between any two |
| Strtok.CutStep | src/libs/string.c:213-216 | each call overwrites only the delimiter after its token |
| Strtok.Tokenizer.Start | src/libs/string.c:172-173 | a new string: the first token or NULL |
| Strtok.Tokenizer.Next | src/libs/string.c:174-222 | the next token, or NULL now and on every later call; only the delimiter after the token is overwritten |

## Left out

- Pmm.FrameAllocator.Init: the bitmap is an array of its own instead of bytes of the managed memory; that nothing else writes its frames is `Frames.ReservedNeverHandedOut`.
- Pmm.FrameAllocator.ReclaimBootloader: runs at most once, because the reclaimable frames must not be managed yet; a second call would free frames again that were handed out.
- Kalloc.Heap.Kmalloc: requests above 2^64 - 4127 bytes, for which the additions in the code wrap around.
- Kalloc.Heap.Kfree: double frees and foreign pointers.
- Stdlib.Strtoll: numbers that overflow, which C leaves undefined (the smallest number among them); it also stands for strtol, and Strtoull for strtoul, as long is 64 bits wide here.
- Stdlib.Atoi: overflowing numbers; atol and atoll are the same loop with a wider type.
- Stdio.Vsprintf: the count is a mathematical number, not an unsigned int cast to int; the variadic arguments are a typed list; sprintf, printf with its fixed buffer and the console behind it.
- Strtok.Tokenizer.Next: the delimiter set must be the one the string was started with; inside the two skipping loops the static cursor is a local variable.
- Memory.System.MemoryInit: some usable region must have room for the bitmap; bootinfo_capture with its limit on entries is not part of the model, the memory map is a parameter.
- Paging.MapPage: invlpg and the TLB; cr3 is a field.
- Paging.CloneTable: the huge bit of a top-level entry is reserved by the architecture; the code and `Walk` both treat such an entry as a link.
- Bitmap indices use division and remainder by 8 where the code shifts and masks; bm_set, bm_clear and bm_test themselves work on 8-bit vectors.
- pmm_total_bytes and pmm_free_bytes, which only multiply the counters.
- Logging, serial and debug output, interrupts and hardware setup.
- The rest of string.c, which would add only easy members.
