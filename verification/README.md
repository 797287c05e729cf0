# A verified model of the System/14 kernel's memory stack, scheduler and ramdisk

System/14 is a small x86_64 kernel. This project models its frame allocator, its heap, its four-level page
tables, its round-robin scheduler, its tar ramdisk reader, its I/O APIC driver and the number formatting they use,
and proves what those parts promise to each other. `dafny verify dfyconfig.toml` checks everything.

## What is proved

- **Page tables** that lie below 2^40 refine a plain map from virtual to physical pages. One `MapMemory` call sends exactly the
  requested page to the requested frame, as the processor's walk (section 4.5 of the Intel SDM, Volume 3A) sees it,
  and changes no other translation of any address space, including when it allocates up to three tables on the way
  (`Paging.MapPageOk`). Over every run, in any interleaving over any number of spaces, each address is translated by
  the last mapping of its page in its own space (`AddressSpaces.RunRefines`), spaces are isolated, every frame the
  run took is reached by exactly one path from exactly one PML4 (`TableTree.ExactlyOnePath`, and for any number of
  tasks `TaskTrees.TasksHaveOnePath`), and `CreateProcessPML4` builds exactly the space its
  arguments ask for, address by address and for any sizes (`ProcessSpace.ProcessSpaceByRanges`). The stored words are known
  bit by bit (`Paging.MapWord`, `Paging.LinkWord`), and no address ends up write-protected or no-execute
  (`AddressSpaces.NothingProtected`).
- **The heap** keeps its free list in the bytes of the frames themselves. The code computes functions on those bytes,
  which refine an abstract machine over blocks (`HeapBytes.MallocBytesOk`, `HeapBytes.FreeBytesOk`); in it free and
  live blocks are disjoint, tile the heap's pages exactly and lose no byte, in every run (`Arena.RunOk`).
- **Together**: heap and page tables share one memory and one frame allocator. A run is any interleaving of paging
  calls, frames taken for stacks, `malloc`, `free` and clients' stores to their own payloads, each computed from the
  bytes. In every run all
  invariants hold together and translation depends on the paging calls alone (`System.EveryInterleaving`); every byte
  of a live payload is the last one its client stored there (`System.PayloadIsKept`); `free` gives back precisely what
  `malloc` handed out (`System.FreeReturnsWhatMallocGave`); and without `free` every block `malloc` returns is zero
  (`System.MallocIsZero`), which is what `IntAddTask` silently relies on (`System.NewFrameStaysZero`,
  `TaskMemory.TaskMemory.NewTaskMemory`).
- **The scheduler** is transparent: for every interleaving of ticks, creations and exits the run projected on one
  task is a solo run (`Resumption.ProjectionIsSolo`) that begins at the task's start address on its own stack page
  (`Resumption.FirstTurn`). Every tick is one of a few plain cases (`Switching.TickSwitches`). Rounds are fair (`Fairness.EachTaskTenTimesPerRound`), exits
  take out exactly the task that exited, whatever comes before the next tick (`Switching.ExitThenTick`), and the linked list with its sentinel, changed in
  place, computes that state machine (`Scheduler.Scheduler.TaskSwitch`).
- **The ramdisk reader** undoes an archive writer in the ustar layout of the pax utility in IEEE Std 1003.1
  (`Ramdisk.ReaderUndoesWriter`, `Ramdisk.Ramdisk.ReadBack`), and ends as `malloc` ends when there is no room for the
  nodes of its list.
- **From boot on** it is known exactly how many requests of one size the heap serves (`Requests.AllServedIff`): the nodes
  of 30 files, the frames of 17 tasks (`Requests.FilesAtBoot`, `Boot.AtMostSeventeenTasks`).

## Properties that fail, and exactly when

- Page tables at or above 2^40: `GetEntryNextLevel` shifts the 40-bit field in 40 bits, so the pointer it follows is the
  processor's if and only if the table lies below 2^40 (`Paging.PointerExactIff`). Above, a second descent goes astray
  (`HighTables.SecondDescentAstray`), and a mapping can report success and not be there
  (`HighTables.HighTablesLoseMappings`).
- A 4 KiB mapping inside a 2 MiB one: `GetEntryNextLevel` never looks at the page-size bit, so the call takes the
  mapped memory for a table. If that memory is at address 0 the call fails; otherwise it reports success and writes
  there, and unless a table lies there no translation changes (`Paging.SmallInsideLarge`). When the entry written is
  none of the three that lead to the address itself, the request is met if and only if no 2 MiB leaf maps the address
  or that leaf already sends it there (`Paging.SmallRequestMetIff`). Otherwise the walk that results is known
  (`Paging.SmallOnPathWalk`); for a page directory that maps itself it gives an exact condition (`Paging.SelfMapped`). Three calls reach the failure
  (`Witnesses.SmallRequestIgnored`).
- A 2 MiB mapping over a table of small pages loses that table for good; over every run all tables stay reachable if
  and only if this never happens (`TableTree.RunReachableIff`, `TableTree.CoveredIsOrphaned`), that is, if and only if no
  2 MiB mapping comes after a 4 KiB mapping in the same region of the same space (`MappingOrder.ReachableIffSmallLast`).
- A 2 MiB mapping of a physical address that is not 2 MiB-aligned (`Paging.LargePageTranslates`).
- The frame table lists `length/0x1000` frames although it occupies the first of them: the last `ceil(n/256)` lie past
  the region (`Frames.FrameInsideRegion`, `Frames.ClaimLeavesRegion`).
- A small `malloc` that finds a non-empty list without a fit follows a null pointer: the new page goes to the head of
  the list, the search goes on at its tail (`Arena.SmallFaultsIff`). `malloc(16)` and `malloc(4064)` on an empty heap
  get there (`Witnesses.SecondRequestFaults`), and so do the node of the 31st file (`Witnesses.ThirtyOneFiles`) and the frame
  of the 18th task (`Requests.TasksAtBoot`, `Boot.CreateFaultsIff`): what is left of a page, too small for the request, stays
  in the list.
- A large `malloc` without a fit whose size modulo 4096 is not in 1..4080 takes every frame and panics, however much
  memory there is (`Arena.OneGrowthSufficesIff`, `Arena.LargeWithoutRoomPanics`).
- A leftover of 1 to 15 bytes: its header is written past the end of the block (`HeapBytes.LeftoverContainedIff`,
  `HeapBytes.SliverOverwritesNeighbour`). `malloc(4072)` on an empty heap does it (`Witnesses.SliverReached`), and so does
  the frame of the fourth task after 23 files (`Requests.FourthTaskSplitsBadly`, `Witnesses.FourthTaskOverwrites`): 120, the
  size of a file's node, is no multiple of 16.
- A large `malloc` of more than 2 GiB - 4096 bytes: the `int` product that gives its block's size overflows
  (`Arena.ProductExactIff`, `Arena.ProductAtTwoGiB`).
- After 257 creations, if their memory is granted, an exit can unlink the wrong task (`Scheduling.ReapsCurrentIff`, `Scheduling.WrongVictim`).
- A ramdisk file larger than 2^32 - 1024 bytes: the 32-bit advance misses the next member and can stand still for ever
  (`Ramdisk.AdvanceExactIff`, `Ramdisk.AdvanceCanStall`).
- Register numbers are cut to 8 bits: the I/O APIC pins 120..127 and 248..255 reach into the identity registers
  (`IoApic.HeaderRegistersClearIff`), and a write to one pin leaves another alone if and only if they differ modulo 128
  or the pin written has only read-only registers (`IoApic.IsolatedIff`).

## How the code is modelled

- Physical memory is one map from addresses to bytes (`Ram.Memory`), shared by allocator, heap and page tables. Words
  and page-table entries are read from and written to those bytes.
- `panic` and a null dereference end a run: `Outcome = Panic | Fault | Done`.
- Each imperative file becomes a class or methods with loops, proved to compute functions on values; the theorems are
  about those functions and their runs.
- The kernel uses a frame's physical address as a pointer; the model does the same and has one kind of address for the
  kernel's own accesses.
- A creation in the scheduler's runs carries what became of its memory; `Scheduler.Scheduler.IntAddTask` gets it from the
  heap, the page tables and the frame allocator, and reads the frame's first values from the bytes of its block. The ramdisk
  takes its nodes' blocks from the same heap, and its archive lies in the same memory.
- The frame table is an array of its own and not stored in the byte memory; the frames handed out are proved to lie
  clear of the bytes it occupies.
- `assert` only prints a message in this kernel (src/util/print.h:27), so misaligned addresses go on; the theorems
  about `MapMemory` hold for them too. Virtual and physical addresses are unbounded naturals: the index and frame
  fields drop the high bits as the code does.
- The comment at src/mm/paging/paging.c:175 speaks of 2 MiB to 4 GiB; the window loops, there and in
  `CreateProcessPML4`, end at 1 GiB, and the model follows the code. The comment at src/mm/paging/paging.h:28 says the
  page-size bit is ignored; `MapMemory` sets it.
- The interrupted registers are an input of each tick, `cli`, `sti` and `RTC_Check` are nothing, and the machine's
  memory map and the start of the ramdisk are parameters.
- `MarkSchedulingActive` is an event of the scheduler's runs; the only call of it is commented out
  (src/bootstrap/kmain.c:81), and until it happens the exception handler panics.

## Model

| member | source | states |
|---|---|---|
| `Ram.LoadStore` | src/mm/paging/paging.c:140-145 | a number stored in a little-endian field of any width reads back |
| `Ram.SetWordReads` | src/mm/heapalloc/heap.c:44-47 | a 64-bit store reads back and changes no byte outside its eight |
| `Ram.MemSet` | src/util/memutil.c:19-27 | exactly the bytes of the range get the value |
| `Frames.FirstFree` | src/mm/allocator/allocator.c:73-75 | the scan stops at the lowest free index and nowhere else |
| `Frames.Release` | src/mm/allocator/allocator.c:88-97 | exactly the entries with the address become free |
| `Frames.Conservation` | src/mm/allocator/allocator.c:57-66 | frames held and frames spare always add up to the table |
| `Frames.HeldAfterMark` | src/mm/allocator/allocator.c:75-80 | marking one spare frame adds exactly that frame to those held |
| `Frames.UsedBelow` | src/mm/allocator/allocator.c:73-82 | pigeonhole: k used frames in front mean at least k frames held |
| `Frames.ClaimSpec` | src/mm/allocator/allocator.c:71-86 | panics exactly when nothing is spare; otherwise the frame was spare, is aligned and zero, no other byte changed, and its index is at most the number already held |
| `Frames.ReleaseSpec` | src/mm/allocator/allocator.c:88-97 | freeing a held frame releases it and no other; freeing anything else changes nothing |
| `Frames.RunKeepsWorld` | src/mm/allocator/allocator.c:71-97 | in every run the frames the clients hold are exactly those marked used |
| `Frames.HeldApart` | src/mm/allocator/allocator.c:55-66 | held frames are aligned and pairwise disjoint |
| `Frames.EveryRunIsSafe` | src/mm/allocator/allocator.c:54-97 | after every run from boot the held frames are aligned, pairwise disjoint, clear of the frame table, and the count of frames is conserved |
| `Frames.NextFrameIsFresh` | src/mm/allocator/allocator.c:71-86 | after every run the next frame is zero and nobody's; the kernel panics exactly when all are held |
| `Frames.FirstFrameTight` | src/mm/allocator/allocator.c:55 | the first frame is the first page boundary after the table, wherever the region begins |
| `Frames.FrameInsideRegion` | src/mm/allocator/allocator.c:54-66 | the k-th frame lies in the region if and only if k < n - ceil(n/256) |
| `Frames.ClaimStaysInRegion` | src/mm/allocator/allocator.c:54-82 | while fewer than n - ceil(n/256) frames are held, in any pattern, the frame handed out lies in the region |
| `Frames.ClaimLeavesRegion` | src/mm/allocator/allocator.c:54-82 | once the first n - ceil(n/256) are held, the frame handed out ends beyond the region |
| `Frames.ClaimExtendsPrefix` | src/mm/allocator/allocator.c:71-86 | without `PageFree` the used frames stay a prefix, so consecutive calls give consecutive frames |
| `Frames.LargestUsable` | src/mm/allocator/allocator.c:34-50 | the first of the longest usable entries is chosen, or length 0 exactly when there is none |
| `Frames.LayFrames` | src/mm/allocator/allocator.c:55-66 | the table lists consecutive free frames |
| `Frames.FrameAllocator.Initialize` | src/mm/allocator/allocator.c:32-69 | panics exactly without usable memory; otherwise the frames lie after the table of the longest usable region and all are free |
| `Frames.FrameAllocator.PageAlloc` | src/mm/allocator/allocator.c:71-86 | the scanning loop takes the first free frame of the specification, zeroes it, or panics with nothing changed |
| `Frames.FrameAllocator.PageFree` | src/mm/allocator/allocator.c:88-97 | the loop frees as the specification says and touches no memory |
| `PageFormat.UnpackPack` | src/mm/paging/paging.h:19-33 | every entry survives being stored as 64 bits, field by field |
| `PageFormat.PteBits` | src/mm/paging/paging.h:19-33 | the position of every field on the raw 64-bit word, as the processor reads it |
| `PageFormat.PackFits` | src/mm/paging/paging.h:19-33 | the fields fill no more than 64 bits |
| `PageFormat.RegionStep` | src/mm/paging/paging.c:110-113 | the four indices are the base-512 digits of the low 48 bits |
| `PageFormat.SameRegionAbove` | src/mm/paging/paging.c:110-113 | addresses of one region share all regions and indices above it |
| `PageFormat.WriteEntry` | src/mm/paging/paging.c:140-145 | writing one entry leaves every other entry of every table alone |
| `PageFormat.ZeroEntry` | src/mm/allocator/allocator.c:79 | a zeroed frame is a table without present entries |
| `Paging.ClaimKeepsTables` | src/mm/paging/paging.c:81 | taking a frame changes no entry of any table, and the frame reads as an empty table |
| `Paging.PointerExactIff` | src/mm/paging/paging.c:92 | the pointer made of an entry is the one the processor follows if and only if the table lies below 2^40 |
| `Paging.NextLevelOk` | src/mm/paging/paging.c:72-97 | with tables below 2^40 it keeps the table invariant, every translation of every space and all bytes outside tables; the result is the one table of the entry's region; it panics exactly when a table is missing and no frame is left |
| `Paging.LocateOk` | src/mm/paging/paging.c:115-132 | the way down reaches the table that serves the address and translates nothing differently |
| `Paging.LeafSeen` | src/mm/paging/paging.c:140-145 | after the leaf is written, exactly the addresses of the page in that space end at it |
| `Paging.MapPageOk` | src/mm/paging/paging.c:72-148 | only the requested page of the requested space is translated anew, the invariant is kept, and only table frames were written |
| `Paging.SmallPageTranslates` | src/mm/paging/paging.c:105-148 | a 4 KiB mapping sends every address of the page to phys plus offset |
| `Paging.LargePageTranslates` | src/mm/paging/paging.c:105-148 | a 2 MiB mapping does so if and only if phys is 2 MiB-aligned |
| `Paging.EveryPathOpen` | src/mm/paging/paging.c:84-86 | every entry the walk of any address meets is writable and executable |
| `Paging.LeafWord` | src/mm/paging/paging.c:140-145 | the word a mapping leaves: present and writable set, page size and user as asked, the frame number in bits 12 to 51, every other bit as before |
| `Paging.MapWord` | src/mm/paging/paging.c:105-148 | after a whole call the walk of the address ends at the entry whose word has become so |
| `Paging.LinkWord` | src/mm/paging/paging.c:84-86 | the word of a fresh link is its table's address with present and writable set |
| `Paging.SmallInsideLarge` | src/mm/paging/paging.c:79-93 | a 4 KiB request under a 2 MiB leaf fails when the pointer made of the leaf is null; otherwise it reports success and writes an entry there, and if that is no table changes no translation |
| `Paging.SmallRequestMetIff` | src/mm/paging/paging.c:105-148 | unless the entry it writes is on the path of the address itself, a 4 KiB request takes effect if and only if no 2 MiB leaf maps the address, or that leaf already agrees |
| `Paging.SmallOnPathWalk` | src/mm/paging/paging.c:79-145 | when the entry written is on the path of the address, the walk ends at the rewritten leaf or goes on in the memory at phys, one or two levels down |
| `Paging.SelfMapped` | src/mm/paging/paging.c:79-145 | a page directory that maps itself: the exact condition for the request to take effect |
| `Paging.OnePathToEachTable` | src/mm/paging/paging.c:72-97 | no table is reached by two paths or from two PML4s |
| `TableTree.MapReaches` | src/mm/paging/paging.c:72-148 | a mapping that covers no table of small pages keeps every table reachable, the new ones included |
| `TableTree.CoveredIsOrphaned` | src/mm/paging/paging.c:120-144 | a 2 MiB mapping over a table of small pages leaves its frame held but unreachable from every PML4 |
| `TableTree.ReachableIff` | src/mm/paging/paging.c:105-148 | every table stays reachable if and only if the call is no 2 MiB mapping over such a table |
| `TableTree.RunReaches` | src/mm/paging/paging.c:72-148 | over every such run, no frame taken is ever unreachable |
| `TableTree.MapShrinks` | src/mm/paging/paging.c:72-148 | a mapping adds no path but to tables it took, and a 2 MiB mapping no table of small pages |
| `TableTree.LostStaysLost` | src/mm/paging/paging.c:72-148 | a frame that cannot be reached is never reached again |
| `TableTree.RunReachableIff` | src/mm/paging/paging.c:72-148 | over every run every frame taken can be reached if and only if no 2 MiB mapping was laid over a table of small pages |
| `TableTree.ExactlyOnePath` | src/mm/paging/paging.c:72-148 | over every such run each frame taken is reached by exactly one path from exactly one PML4 |
| `TaskTrees.ProcessNoCover` | src/mm/paging/paging.c:207-242 | `CreateProcessPML4` never lays a 2 MiB page over a table of small pages, whatever its arguments |
| `TaskTrees.LegalConcat` | src/mm/paging/paging.c:207-242 | two runs with no 4 KiB mapping inside a 2 MiB one make one such run |
| `TaskTrees.TasksLegal` | src/mm/paging/paging.c:207-242 | any number of task spaces with disjoint windows is such a run |
| `TaskTrees.TasksHaveOnePath` | src/mm/paging/paging.c:207-242 | every frame taken for any number of tasks is reached by exactly one path from exactly one PML4 |
| `MappingOrder.CoversIff` | src/mm/paging/paging.c:72-148 | while no table was lost, a region has a table of small pages exactly when it had one before or a small page was mapped there |
| `MappingOrder.NoCoverIff` | src/mm/paging/paging.c:72-148 | whether a run lays a 2 MiB page over small ones can be read off its calls |
| `MappingOrder.ReachableIffSmallLast` | src/mm/paging/paging.c:72-148 | from boot on every frame taken can be reached if and only if no 2 MiB mapping follows a 4 KiB mapping in the same region of the same space |
| `HighTables.SecondDescentAstray` | src/mm/paging/paging.c:79-93 | with frames above 2^40 a second descent returns another table than the one the entry links |
| `HighTables.HighTablesLoseMappings` | src/mm/paging/paging.c:105-148 | a run of two 2 MiB mappings with such frames: both report success, the second page is not mapped |
| `AddressSpaces.RunConcat` | src/mm/paging/paging.c:214-237 | runs of calls compose |
| `AddressSpaces.RunRefines` | src/mm/paging/paging.c:72-148 | over every run and any number of spaces, each address is translated by the last mapping of its page in its space, and otherwise as before the run; no null pointer is followed |
| `AddressSpaces.NothingProtected` | src/mm/paging/paging.c:72-148 | over every run no address of any space is write-protected or no-execute, on any level |
| `AddressSpaces.Isolation` | src/mm/paging/paging.c:105-148 | mappings in one space change no translation in another |
| `ProcessSpace.RangeLatest` | src/mm/paging/paging.c:220-237 | what a page-by-page loop wants of every address, in closed form |
| `ProcessSpace.WindowLatest` | src/mm/paging/paging.c:214-218 | what the loop over both windows wants of every address, in closed form |
| `ProcessSpace.ProcessLegal` | src/mm/paging/paging.c:207-242 | with windows disjoint at 2 MiB granularity no 4 KiB mapping falls inside a 2 MiB one |
| `ProcessSpace.ProcessSpaceExact` | src/mm/paging/paging.c:207-242 | the new space translates every address exactly as intended (task range, kernel image, window 2 MiB to 1 GiB and its copy, nothing else), older spaces as before |
| `ProcessSpace.PagesCover` | src/mm/paging/paging.c:220-233 | a page belongs to a range exactly when it begins inside it, the last partial page included |
| `ProcessSpace.SoundIsDisjoint` | src/mm/paging/paging.c:207-242 | aligned bases and ranges that do not meet the windows, whatever their sizes, are what the page-level results need |
| `ProcessSpace.IntendedIsWanted` | src/mm/paging/paging.c:207-242 | the plan in page numbers is the translation by addresses |
| `ProcessSpace.ProcessSpaceByRanges` | src/mm/paging/paging.c:207-242 | from the arguments alone: start..end and 2 MiB to 1 GiB go to themselves, the kernel range to where the image lies, the range above hhdm_base to the same memory, nothing else is mapped; ranges are rounded out to pages |
| `ProcessSpace.IdentityParts` | src/mm/paging/paging.c:214-237 | with disjoint windows the task's range and the low window are identity mappings and the copy leads to the same memory |
| `PageTables.PageTables.GetEntryNextLevel` | src/mm/paging/paging.c:72-97 | the code computes the specified step, panics included |
| `PageTables.PageTables.MapMemory` | src/mm/paging/paging.c:105-148 | the code computes the specified mapping and status |
| `PageTables.PageTables.MapWindows` | src/mm/paging/paging.c:214-218 | the loop performs the run of both windows |
| `PageTables.PageTables.MapRange` | src/mm/paging/paging.c:220-237 | the loop performs the run of the range, rounded up to pages |
| `PageTables.PageTables.CreateProcessPML4` | src/mm/paging/paging.c:207-242 | the code performs the run whose translation is exact, panics included |
| `HeapList.PutNodeBytes` | src/mm/heapalloc/heap.c:40-48 | a new header and the list head are written, nothing else |
| `HeapList.PutNodeOk` | src/mm/heapalloc/heap.c:40-48 | the node joins the front of the list; every other node and header is kept |
| `HeapList.UnlinkOk` | src/mm/heapalloc/heap.c:112-116 | exactly the found block leaves the list, the others keep their order, its header stays intact |
| `HeapList.AdoptOk` | src/mm/heapalloc/heap.c:146 | writing the size word of a block nothing overlaps disturbs no other block |
| `HeapList.OtherWrites` | src/mm/heapalloc/heap.c:24-32 | writes outside all headers keep the whole list |
| `Arena.FirstFit` | src/mm/heapalloc/heap.c:90-120 | the first fitting block in list order |
| `Arena.Find` | src/mm/heapalloc/heap.c:86-123 | the block found is large enough and joins the live ones, which are kept |
| `Arena.FindTakesFirst` | src/mm/heapalloc/heap.c:90-120 | the first block in list order that is large enough is taken, the others keep their order |
| `Arena.FindOk` | src/mm/heapalloc/heap.c:86-123 | search and growth keep blocks disjoint, tiling and conserved |
| `Arena.SplitOk` | src/mm/heapalloc/heap.c:139-146 | with a leftover of 0 or at least 16 bytes so does splitting |
| `Arena.GiveBackOk` | src/mm/heapalloc/heap.c:197-202 | so does freeing |
| `Arena.AddPagesOk` | src/mm/heapalloc/heap.c:56-78 | so does growth |
| `Arena.RunOk` | src/mm/heapalloc/heap.c:40-202 | in every enabled run (requests up to 2 GiB - 4096 bytes), with other users of the frame allocator in between, free and live blocks are disjoint, have room for their headers and tile exactly the heap's pages, and bytes are conserved |
| `Arena.RoundedRunsEnabled` | src/mm/heapalloc/heap.c:131-150 | runs on sizes that are multiples of 16, up to 2 GiB - 4096 bytes, are enabled as a whole |
| `Arena.LiveUntilFreed` | src/mm/heapalloc/heap.c:131-202 | no step but its own `free` moves or resizes a live block |
| `Arena.FreeUndoesMalloc` | src/mm/heapalloc/heap.c:131-202 | whatever run lies in between, freeing what `malloc(n)` returned gives back precisely its n + 16 bytes |
| `Arena.SmallFaultsIff` | src/mm/heapalloc/heap.c:92-110 | a small request follows the null pointer exactly when the list is not empty, nothing fits and a frame is left; it panics exactly when nothing fits and none is left |
| `Arena.ProductExactIff` | src/mm/heapalloc/heap.c:76 | the `int` product is the size of the pages taken if and only if the request is at most 2 GiB - 4096 bytes |
| `Arena.ProductAtTwoGiB` | src/mm/heapalloc/heap.c:76 | at 2 GiB the node is said to hold almost the whole address space |
| `Arena.OneGrowthSufficesIff` | src/mm/heapalloc/heap.c:56-78 | one growth serves a large request if and only if size mod 4096 is in 1..4080 |
| `Arena.LargeWithoutRoomPanics` | src/mm/heapalloc/heap.c:92-99 | otherwise, without a fit, it takes every frame and panics |
| `Arena.LargeWithRoom` | src/mm/heapalloc/heap.c:92-116 | with room it gets a block of its own, keeps the list as it was, takes one page spare, and panics only when frames run out |
| `Requests.PlaceStep` | src/mm/heapalloc/heap.c:86-150 | one more request of the same size: the exact conditions for null pointer, panic and success, and it splits cleanly |
| `Requests.UniformRun` | src/mm/heapalloc/heap.c:86-150 | every run of requests of one size, with frames taken by others in between, is enabled, and its free list is known |
| `Requests.AtMostOnePage` | src/mm/heapalloc/heap.c:86-150 | from an empty list such a run is served out of one page, unless the blocks fill pages without a rest |
| `Requests.RepeatOutcome` | src/mm/heapalloc/heap.c:86-150 | c requests in a row from any place in a page: when they are all served, and when the null pointer is followed |
| `Requests.AllServedIff` | src/mm/heapalloc/heap.c:86-150 | from an empty list they are all served if and only if c * (n + 16) is at most 4096 or n + 16 divides 4096, and the pages are there |
| `Requests.FilesAtBoot` | src/ramdisk/tar.c:36 | the nodes of c files are served exactly up to 30; the 31st follows the null pointer |
| `Requests.TasksAtBoot` | src/multitasking/scheduler.c:102 | with a heap used for tasks alone, whoever takes frames in between, at most 17 frames are served, and the 18th follows the null pointer exactly while a frame is left |
| `Requests.OnePageRun` | src/mm/heapalloc/heap.c:86-150 | small requests of any sizes and order come out of one page while they leave room for a header |
| `Requests.FourthTaskSplitsBadly` | src/mm/heapalloc/heap.c:139-147 | after 23 files and three tasks, in any order, the fourth task's frame leaves 8 bytes |
| `HeapBytes.SliverOverwritesNeighbour` | src/mm/heapalloc/heap.c:143-147 | a leftover of 8 bytes overwrites the size word of whatever follows the block |
| `HeapBytes.LeftoverContainedIff` | src/mm/heapalloc/heap.c:143-147 | the leftover's header stays inside the block if and only if at least 16 bytes are left |
| `HeapBytes.StateAfterFree` | src/mm/heapalloc/heap.c:197-202 | the size in front of a live pointer is the one it was handed out with, and that extent returns to the list |
| `HeapBytes.PayloadWrites` | src/mm/heapalloc/heap.c:26-32 | stores inside one live payload change no free node, no header, no free payload and no other live payload |
| `HeapBytes.StateAfterFrames` | src/mm/heapalloc/heap.c:58-64 | frames taken by anyone leave the heap as it is |
| `HeapBytes.ClaimManyOk` | src/mm/heapalloc/heap.c:58-74 | n frames taken are consecutive and zero, nothing else changes, and it panics exactly when they are not there |
| `HeapBytes.NextFrame` | src/mm/heapalloc/heap.c:63-72 | the next frame in order, never null, or a panic: the failure path with `PageFree` is dead |
| `HeapBytes.GrowOk` | src/mm/heapalloc/heap.c:56-78 | growth panics exactly when frames run out; otherwise the new block joins and every live payload is kept |
| `HeapBytes.FrameTaken` | src/mm/allocator/allocator.c:71-86 | a frame taken for something else is the next one and zero, and leaves the heap and all its payloads alone |
| `HeapBytes.FindBytesOk` | src/mm/heapalloc/heap.c:86-123 | the search on the bytes ends as the abstract one does, keeps every live payload, and finds a zero payload when free payloads were zero |
| `HeapBytes.MallocBytesOk` | src/mm/heapalloc/heap.c:131-161 | `malloc` on the bytes refines the abstract request: a live block of exactly n + 16 bytes, every other live payload kept, memory outside the heap untouched, the new payload zero when free payloads were |
| `HeapBytes.FreeBytesOk` | src/mm/heapalloc/heap.c:197-202 | `free` on the bytes gives back exactly the block handed out and changes no live payload |
| `Heap.Heap.constructor` | src/mm/heapalloc/heap.c:32 | an empty list is a good heap, whatever frames are taken |
| `Heap.Heap.CreateNode` | src/mm/heapalloc/heap.c:40-48 | the three stores give the specified memory |
| `Heap.Heap.TakeFrames` | src/mm/heapalloc/heap.c:58-74 | one page more than the block needs, the first one where the block begins, or a panic |
| `Heap.Heap.CombineBlocks` | src/mm/heapalloc/heap.c:56-78 | the code computes the specified growth: the node covers only pages it took |
| `Heap.Heap.AddPage` | src/mm/heapalloc/heap.c:102-105 | one fresh page joins the front of the list, or a panic |
| `Heap.Heap.RemoveNext` | src/mm/heapalloc/heap.c:112-116 | exactly the block behind the cursor becomes live |
| `Heap.Heap.FindAndRemoveNode` | src/mm/heapalloc/heap.c:86-123 | the loop terminates and computes the specified search: found block, panic or null pointer |
| `Heap.Heap.Malloc` | src/mm/heapalloc/heap.c:131-161 | the code computes `malloc` on the bytes: a live block of exactly size + 16 bytes, every other live payload kept, memory outside the heap untouched, and a zero payload when free payloads were zero |
| `Heap.Heap.Calloc` | src/mm/heapalloc/heap.c:182-189 | the same block with a zero payload whatever its history, everything else kept as by `malloc` |
| `Heap.Heap.Free` | src/mm/heapalloc/heap.c:197-202 | the extent recorded in front of the pointer is the block handed out; it returns to the front of the list, and no live payload changes |
| `Heap.Heap.ClientWrite` | src/mm/heapalloc/heap.c:26-32 | a client that writes only its own payload keeps the heap valid and every other payload |
| `System.BootIsOk` | src/mm/allocator/allocator.c:54-69 | the invariants of heap, tables and their separation hold at boot |
| `System.HeapStepIsInvisible` | src/mm/heapalloc/heap.c:131-202 | no heap operation changes any translation |
| `System.TablesKeepHeap` | src/mm/paging/paging.c:72-148 | no paging call changes the heap's list or headers |
| `System.HeapMove` | src/mm/heapalloc/heap.c:131-202 | every `malloc`, `free` and client store, computed on the bytes, leads to a good heap and stays inside it |
| `System.EveryInterleaving` | src/mm/paging/paging.c:72-148 | over every interleaving of paging calls, other frames taken, `malloc`, `free` and stores all invariants hold together and translation depends on the paging calls alone |
| `System.HeapIsConserved` | src/mm/heapalloc/heap.c:40-202 | over every such interleaving the blocks are disjoint, tile the heap's pages and lose no byte |
| `System.PristineWithoutFree` | src/mm/heapalloc/heap.c:131-150 | in every interleaving without `free` the payloads of free blocks stay zero |
| `System.MallocIsZero` | src/mm/heapalloc/heap.c:131-150 | so every block that `malloc` returns in such a run is zero |
| `System.PayloadIsKept` | src/mm/heapalloc/heap.c:131-202 | over every interleaving a block not freed stays live and each byte of its payload is the last one stored there |
| `System.FreeReturnsWhatMallocGave` | src/mm/heapalloc/heap.c:197-202 | over every interleaving the size in front of a pointer from `malloc(n)` stays n + 16, and `free` would return precisely that extent |
| `System.FreshFrameIsZero` | src/multitasking/scheduler.h:6-16 | a task frame of zeros has zero registers and is not invalid |
| `System.NewFrameStaysZero` | src/multitasking/scheduler.c:102-121 | in a run without `free` a new task frame has zero registers and is not invalid until its owner stores to it, whatever spaces are built meanwhile |
| `TaskMemory.PagingRun` | src/mm/paging/paging.c:207-242 | a whole list of paging calls leaves the heap and every live payload intact |
| `TaskMemory.ClaimIsInvisible` | src/multitasking/scheduler.c:116 | the stack page is zero, and taking it changes no translation, no table and no heap block |
| `TaskMemory.FrameOk` | src/multitasking/scheduler.c:102 | the task frame is a live block, invisible to every space, and zero without `free` |
| `TaskMemory.SpaceOk` | src/multitasking/scheduler.c:114 | the new space is exact; older spaces, the heap and every live payload are kept |
| `TaskMemory.SpaceByRanges` | src/multitasking/scheduler.c:114 | a created task's space is what the creation's arguments ask for, address by address |
| `TaskMemory.CreateOk` | src/multitasking/scheduler.c:102-116 | frame, space and stack together: exact new space, zero stack, older spaces and live payloads as before, the frame still zero at the end in a run without `free`, all invariants kept |
| `TaskMemory.TaskMemory.NewTaskMemory` | src/multitasking/scheduler.c:98-124 | the code computes that creation, and panics or follows the null pointer exactly as its parts do |
| `Boot.CreateFaultsIff` | src/multitasking/scheduler.c:98-124 | with a heap used for tasks alone a creation follows the null pointer exactly when it is the 18th and a frame is left |
| `Boot.AtMostSeventeenTasks` | src/multitasking/scheduler.c:98-124 | more than 17 tasks are never all created, and no fewer ever follow the null pointer |
| `Witnesses.SecondRequestFaults` | src/mm/heapalloc/heap.c:92-110 | two requests in multiples of 16 on an empty heap with frames to spare end in the null pointer |
| `Witnesses.SliverReached` | src/mm/heapalloc/heap.c:143-147 | `malloc(4072)` on an empty heap overwrites the first word of the next frame |
| `Witnesses.ThirtyOneFiles` | src/ramdisk/tar.c:33-44 | 31 nodes on an empty heap with frames to spare end in the null pointer |
| `Witnesses.FourthTaskOverwrites` | src/mm/heapalloc/heap.c:139-147 | after 23 files and three tasks the fourth task's frame overwrites the first word of the frame after the heap's page |
| `Witnesses.SmallRequestIgnored` | src/mm/paging/paging.c:105-148 | three calls on any kernel with three frames left, after which a 4 KiB request has reported success and changed nothing |
| `Scheduling.FirstPid` | src/multitasking/scheduler.c:150-162 | the first frame with the pid |
| `Scheduling.NewTaskStarts` | src/multitasking/scheduler.c:104-117 | a new task's registers, quantum, mark and pid, field by field |
| `Scheduling.StepBase` | src/multitasking/scheduler.c:42-214 | every step keeps `current` null, the sentinel or a listed task; a null pointer is followed exactly on an exit while `current` is null or inside a creation's `malloc`; panics are exactly the handler's and those of a creation's memory |
| `Scheduling.RunBase` | src/multitasking/scheduler.c:42-198 | in every run `TerminateTask` finds its target before the null pointer; the only faults are an exit before the first tick with a task and the one inside `malloc` |
| `Scheduling.DistinctPids` | src/multitasking/scheduler.c:104 | with at most 256 creations pids are distinct |
| `Scheduling.TickOrderly` | src/multitasking/scheduler.c:50-84 | a tick takes out exactly the exited task, if any; the others keep their order; afterwards a valid listed task runs or the list is empty |
| `Switching.IdleTick` | src/multitasking/scheduler.c:50-58 | with no task a tick returns to the interrupted registers and changes nothing |
| `Switching.TickSwitches` | src/multitasking/scheduler.c:42-87 | every tick in an orderly state, by cases: nothing to run, the first task starts with nine ticks left, the running task goes on, the next one takes over, or the exited one leaves; with the exact next state and registers |
| `Switching.ExitMarks` | src/multitasking/scheduler.c:174-198 | an exit of a running task marks it |
| `Switching.ExitThenTick` | src/multitasking/scheduler.c:60-72 | over every run, whatever comes between an exit and the next tick, that tick removes exactly the task that exited (at most 256 creations) |
| `Scheduling.RunOrderly` | src/multitasking/scheduler.c:42-198 | in every run with at most 256 creations only the running task can be invalid, waiting tasks have quantum 10 and the running one 0..9, so the 8-bit decrement never wraps |
| `Scheduling.ReapsCurrentIff` | src/multitasking/scheduler.c:60-62 | the exited task is the one unlinked if and only if no task in front of it has its pid |
| `Scheduling.WrongVictim` | src/multitasking/scheduler.c:140-162 | a run with 257 creations in which the wrong task is unlinked |
| `Resumption.RunBook` | src/multitasking/scheduler.c:42-124 | in every run each waiting task holds the registers of the last event about it |
| `Resumption.ProjectionIsSolo` | src/multitasking/scheduler.c:42-124 | for every interleaving each task resumes with exactly the registers it was last interrupted with, or its creation-time registers on its first turn |
| `Resumption.FirstTurn` | src/multitasking/scheduler.c:98-124 | over every run, the first time a task is resumed it begins at its start address on its stack page, in kernel segments, with flags 0x202 and all general registers zero |
| `Fairness.OrderlyIsSteady` | src/multitasking/scheduler.c:74-84 | every reachable state in which a task runs and is not about to exit meets the assumption of the fairness results |
| `Fairness.TickAdvances` | src/multitasking/scheduler.c:74-84 | every tick moves exactly one place on in a round of ten places per task, however many tasks were ever created |
| `Fairness.PositionAfter` | src/multitasking/scheduler.c:74-84 | after n ticks the place is n further, modulo the round |
| `Fairness.TurnLastsTenTicks` | src/multitasking/scheduler.c:74-84 | every turn lasts exactly ten ticks and passes to the next task in the list |
| `Fairness.EachTaskTenTimesPerRound` | src/multitasking/scheduler.c:74-84 | with k tasks any 10k consecutive ticks load each task exactly ten times |
| `Scheduler.Scheduler.constructor` | src/multitasking/scheduler.c:27-35 | the empty scheduler |
| `Scheduler.Scheduler.UnlinkAfter` | src/multitasking/scheduler.c:159 | the chain stays acyclic and loses exactly one frame |
| `Scheduler.Scheduler.TakeOut` | src/multitasking/scheduler.c:155-162 | the frame and its task leave the list, all others keep their order and contents |
| `Scheduler.Scheduler.TerminateTask` | src/multitasking/scheduler.c:140-172 | unlinks the first frame with the pid; without one it reads through null |
| `Scheduler.ZeroFrame` | src/multitasking/scheduler.h:6-16 | a frame read from zero bytes has zero registers and is not invalid |
| `Scheduler.Scheduler.NewFrame` | src/multitasking/scheduler.c:102-117 | the frame read from its block and filled begins at `start` on the last frame taken, which is zero, with a full quantum, unmarked, its pid 8-bit; or the memory's panic or fault |
| `Scheduler.Scheduler.FillFrame` | src/multitasking/scheduler.c:104-117 | every register and field of a frame that was zero, one by one |
| `Scheduler.Scheduler.LinkFront` | src/multitasking/scheduler.c:119-121 | the chain stays acyclic with the frame in front |
| `Scheduler.Scheduler.AddFront` | src/multitasking/scheduler.c:119-121 | the task is first, all others keep their order and contents, and `current` stays at its task |
| `Scheduler.Scheduler.IntAddTask` | src/multitasking/scheduler.c:98-124 | the new first frame begins at `start` on a zero stack page taken after its space, all else as created, the other frames and `current` as before; or it ends as the memory does |
| `Scheduler.Scheduler.MarkSchedulingActive` | src/multitasking/scheduler.c:211-214 | only the flag changes |
| `Scheduler.Scheduler.Exit` | src/multitasking/scheduler.c:174-209 | exactly the running frame's `invalid` becomes true and nothing else changes; a null `current` faults, or panics in the handler, which also panics before scheduling has started |
| `Scheduler.Scheduler.SaveContext` | src/multitasking/scheduler.c:50-58 | the interrupted registers go to the running task and to no other; without one the first listed task becomes current, or nothing changes |
| `Scheduler.Scheduler.ReapCurrent` | src/multitasking/scheduler.c:60-72 | the list computes the reaping step without following a null pointer |
| `Scheduler.Scheduler.SetQuanta` | src/multitasking/scheduler.c:76-84 | one frame's quantum changes, the chain and all other tasks stay |
| `Scheduler.Scheduler.MoveOn` | src/multitasking/scheduler.c:74-83 | a used-up quantum is refilled and the cursor moves on, around at the end |
| `Scheduler.Scheduler.ChargeCurrent` | src/multitasking/scheduler.c:74-84 | the list computes the charging step |
| `Scheduler.Scheduler.TaskSwitch` | src/multitasking/scheduler.c:42-87 | with no task it returns the interrupted registers and changes nothing; otherwise the linked list goes through the cases of a tick and returns their registers |
| `Ramdisk.DecodeValue` | src/ramdisk/tar.c:99-110 | the 11-digit octal value modulo 2^32, for any bytes |
| `Ramdisk.OctalOfDigits` | src/ramdisk/tar.c:96-110 | reading k octal digits back gives the number written |
| `Ramdisk.AdvanceExactIff` | src/ramdisk/tar.c:128 | for every size that 11 octal digits can hold, the 32-bit advance reaches the next member if and only if the size is at most 2^32 - 1024 |
| `Ramdisk.AdvanceCanStall` | src/ramdisk/tar.c:128 | one byte more and the reader does not move |
| `Ramdisk.MemberInMemory` | src/ramdisk/tar.h:3-14 | at a member the reader finds the path, the size and the data that were written |
| `Ramdisk.WriterMakesArchive` | src/ramdisk/tar.c:112-129 | what the writer produces, with a zero byte after it, is an archive in memory |
| `Ramdisk.LookupFindsLast` | src/ramdisk/tar.c:54-72 | for every path the list gives the last member with it, or nothing |
| `Ramdisk.StrNCmp` | src/util/string.c:87-101 | zero exactly when the first n characters agree |
| `Ramdisk.StrCpy` | src/util/string.c:103-114 | copies exactly the string and its terminator; the rest of the buffer stays |
| `Ramdisk.Ramdisk.NewNode` | src/ramdisk/tar.c:36-41 | the node holds the path as a string of its own, the size and the start; or `malloc` ends otherwise; memory outside the heap is left alone |
| `Ramdisk.Ramdisk.Link` | src/ramdisk/tar.c:38-43 | the chain from the sentinel stays acyclic with the node in front |
| `Ramdisk.Ramdisk.InsertEntry` | src/ramdisk/tar.c:33-44 | the chain of nodes then holds the new file in front of all others, which are untouched; or `malloc` ends otherwise |
| `Ramdisk.Ramdisk.RegisterMember` | src/ramdisk/tar.c:116-129 | one turn registers the member and lands on the next, or ends as `malloc` does |
| `Ramdisk.ArchiveKept` | src/ramdisk/tar.c:116-129 | an archive survives whatever leaves its bytes alone |
| `Ramdisk.Ramdisk.InitializeRamdisk` | src/ramdisk/tar.c:112-132 | for every archive it terminates; it registers each member once, newest first, if the heap serves a node for each, and otherwise ends in the panic or null pointer of `malloc` |
| `Ramdisk.Ramdisk.RdFileGetFrame` | src/ramdisk/tar.c:54-72 | walking the chain gives the node of the first match, null exactly when there is none or before initialization |
| `Ramdisk.Ramdisk.RdFileGetSz` | src/ramdisk/tar.c:86-94 | the size of the first match, or 0 |
| `Ramdisk.Ramdisk.RdFileGetStream` | src/ramdisk/tar.c:74-83 | the first n bytes of the file, the rest of the buffer kept; without a file the whole buffer |
| `Ramdisk.ReaderUndoesWriter` | src/ramdisk/tar.c:33-132 | for every archive and path: size and bytes of the last file with that path, nothing if and only if there is none |
| `Ramdisk.Ramdisk.ReadBack` | src/ramdisk/tar.c:74-132 | initializing, asking for the size and reading that many bytes gives exactly the bytes of the last file with the path, if the heap serves the nodes |
| `IoApic.UnpackPack` | src/drivers/apic/apic.c:35-47 | every entry survives being packed into 64 bits |
| `IoApic.FieldPositions` | src/drivers/apic/apic.c:35-47 | the position of every field in the 64 bits |
| `IoApic.LatchedFields` | src/drivers/apic/apic.c:79-92 | a write keeps the two bits the hardware owns and sets every other field |
| `IoApic.PinRegisters` | src/drivers/apic/apic.c:53 | a pin has two neighbouring registers, and two pins share them exactly when equal modulo 128 |
| `IoApic.WriteThenRead` | src/drivers/apic/apic.c:65-92 | an entry reads back field by field through every pin that shares its registers, if they are a redirection entry's, and no other pin notices |
| `IoApic.IsolatedIff` | src/drivers/apic/apic.c:65-92 | a write to one pin leaves another alone in every register file if and only if they differ modulo 128 or the pin written has only read-only registers |
| `IoApic.ReadsLastWritten` | src/drivers/apic/apic.c:65-92 | after every sequence of writes each pin of a redirection entry reads as last written to its registers, and every other pin but 120 modulo 128 as before |
| `IoApic.HeaderRegistersClearIff` | src/drivers/apic/apic.c:49-63 | a pin's registers are clear of the identity registers if and only if the pin, modulo 128, is below 120 |
| `IoApic.Chip.Read` | src/drivers/apic/apic.c:49-55 | selecting, then reading the window gives that register |
| `IoApic.Chip.Write` | src/drivers/apic/apic.c:57-63 | exactly the selected register changes |
| `IoApic.Chip.ReadRedirectionEntry` | src/drivers/apic/apic.c:65-77 | both halves joined; an odd offset gives the empty entry |
| `IoApic.Chip.WriteRedirectionEntry` | src/drivers/apic/apic.c:79-92 | both halves written; an odd offset fails without a write |
| `IoApic.VectorWritten` | src/drivers/apic/apic.c:94-110 | on the raw registers: the vector in bits 0 to 7, every other bit that software owns zero |
| `IoApic.Chip.RegisterIRQ` | src/drivers/apic/apic.c:94-110 | so it is for a pin of a redirection entry, and every pin that differs modulo 128 is as before |
| `Madt.LastIoApicIs` | src/drivers/apic/apic.c:128-155 | by index: the address of the I/O APIC structure that no other follows, or what was known before if there is none |
| `Madt.AddressInMemory` | src/drivers/apic/apic.h:34-41 | where the walk reads the I/O APIC address |
| `Madt.FindIoApic` | src/drivers/apic/apic.c:117-155 | for every well-formed table the walk terminates, meets each structure once and in order, stops exactly at the end and keeps the last I/O APIC address |
| `Strings.ParseFormat` | src/util/string.c:25-48 | formatting and parsing are inverse, for every number and base 2..16 |
| `Strings.NoLeadingZero` | src/util/string.c:117-137 | no leading zero except for zero itself |
| `Strings.FormatLength` | src/util/string.c:25-37 | a number below base^k has at most k digits |
| `Strings.HexToString` | src/util/string.c:117-137 | at most 16 digits before the terminator, without a leading zero, that denote the value |
| `Strings.CountDigits` | src/util/string.c:27-36 | the counting loop finds the number of digits |
| `Strings.FillDigits` | src/util/string.c:38-45 | the filling loop needs exactly that many |
| `Strings.Itoa` | src/util/string.c:25-48 | at most 10 digits before the terminator that denote the value |

## Left out

- Heap.Heap.Malloc: requires a clean split (leftover 0 or at least 16 bytes), since otherwise the code writes past its block; multiples of 16 guarantee it, and `HeapBytes.LeftoverContainedIff` shows it is needed.
- Heap.Heap.Calloc: what happens for sizes above 2 GiB - 4096, where the `int` product overflows, and for sizes whose sum with 16 wraps, is not modelled; the same holds for `malloc` and for the runs of `Arena` and `System`.
- HeapBytes.NextFrame: assumes that `PageFree` was not called; the kernel's only call of it is in the dead failure path of `CombineBlocks`.
- Paging.MapPageOk: for frames below 2^40 (so also the runs of `AddressSpaces`, `TableTree` and `System`); `HighTables` shows what happens above.
- TaskMemory.TaskMemory.NewTaskMemory: requires a clean split for the frame, which `Requests.UniformRun` and `Requests.OnePageRun` give and the 23 files and four tasks of `Requests.FourthTaskSplitsBadly` break.
- TableTree.ExactlyOnePath: excludes 2 MiB mappings over small pages, which do lose a table.
- ProcessSpace.ProcessSpaceExact: for ranges that do not wrap around the 48-bit space and windows disjoint at 2 MiB granularity.
- PageTables.PageTables.MapRange: excludes exactly the sizes for which the 64-bit counter wraps; there the source's loop never ends.
- PageTables.PageTables.CreateProcessPML4: excludes exactly the kernel sizes and task ranges for which a 64-bit counter wraps; there the source's loop never ends.
- IoApic.IsolatedIff: the registers 0x03 to 0x0F, which the datasheet reserves, are taken to ignore writes.
- IoApic.WriteThenRead: delivery status and remote IRR belong to the hardware, so they are excluded from the fields that read back.
- Madt.FindIoApic: malformed tables, on which the walk may not end (a structure of length 0), are not modelled.
- Strings.Itoa: negative values, for which the code does not produce digits, are not modelled.
- Ramdisk.Ramdisk.RdFileGetFrame: the null path is not modelled; paths are strings.
- Scheduler.Scheduler.IntAddTask: process names are not modelled; a task frame is an object that starts from the bytes of its block and is not written back to them, so its bytes over runs are those of `System.PayloadIsKept`.
- Ramdisk.Ramdisk.InsertEntry: a node has a block in the heap, but its fields are those of an object, not the block's bytes.
- Update in place of the frame table inside the byte memory: the table is an array beside it.
- `CreateDefaultMappings` as a whole: its memory-map loop maps 4 KiB pages inside windows already mapped with 2 MiB leaves.
- User/supervisor permission, the TLB, CR3 and `_TaskSwitch_Stage2`: hardware effects outside translation.
- `aligned_alloc` and alignment above 1: the split arithmetic is not exact with padding, and `free` finds no header in front of such a pointer.
- Assembly stubs, GDT, IDT, PIC, PIT, RTC, serial, cpuid, ports, PCIe, keyboard tables, `printf`, the terminal and the bootloader's structures: hardware plumbing, output and constant tables.
- ELF loading in kmain.c, `AllocateBlock` in vmm.c and the unused spinlock: unfinished or unused code whose behaviour nothing in the kernel depends on.
