# marrowOS in Dafny

This project models the parts of the marrowOS kernel and of its user library where state,
arithmetic and sharing make mistakes easy, and proves what those parts are for. Run
`dafny verify dfyconfig.toml` to check everything.

Three connected subsystems and a few self-contained algorithms are covered.

**Kernel memory.** RAM is an array of heap blocks of 1024 words, so that a block is exactly one
page table or page directory and `entry & 0xfffff000` names a block. Ownership is therefore proved
and not assumed. From the bottom up:

- `Bits` has 32-bit words, OR and AND bit by bit, and the facts about masking page addresses.
- `HeapTable` is the block table as a value: what a run of blocks looks like in it, the abstract
  content (`Encodes`, a map from run starts to lengths), and exactly when allocating and releasing
  keep a table well formed. `Heap` is the allocator that updates the table in place; `Kernel` joins
  it with RAM and the live runs.
- `Paging` reads two-level tables as one flat sequence of 2^20 words (`Pages`); `AddressSpace` builds,
  uses and frees a whole address space. `Mmu` is the processor's walk through the same words, with the
  present, writable and user bits of both levels (Intel SDM, volume 3, section 4.3); what address spaces
  promise is stated with it.
- `Process` has the joint invariant of allocation table, heap table and page tables (`Inv`), and
  `process_malloc` and `process_free` as a state machine over every request: any size, any pointer.
  `ByteView` says what the invariant and one request mean for single addresses.
- `TaskList` is the scheduler's list, `ElfLoader` the loaded image. `Teardown` ends a process,
  `StalePrev` says what its last write does to others, `ProgramMap` maps a loaded program and its
  stack, and `Lifecycle` runs a process from `task_new` to its end.
- `Confinement` says what a process can write through any of its pages, and exactly which program
  headers keep it inside its own memory. `Isolation` puts any number of processes on one heap and says
  exactly which histories of joining, mapping, allocating, freeing and leaving keep them apart and
  confined: those without a request the heap serves badly, a null pointer whose release reaches the
  table, or an unconfined program. `Refinement` shows that the code carries out these steps, the
  harmful ones too, beside the other processes. `Machine` states isolation for the processor's walk.

**FAT16.** `Disk` is the sector-splitting stream, `Fat16` the chain walk and the recursive read,
`FatFile` reads at an offset and reads of several items against the concatenated clusters,
`FatDirectory` the lookup of one name, `SubDirectory` the same in a directory that is read along a chain.
`FatLayout` says in boot-sector numbers where all of this lies on the disk.

**Algorithms.** `PathParser`, `Command` (strtok and the command line), `Numbers` (64-bit division and
digit printing), `Keyboard` (the ring of typed characters). `Text` has joining with a separator,
`DivMod` division by a divisor that is not a constant.

Conventions. Integers carry the widths of the source: `Word` is a number below 2^32, and additions
that can wrap are written `% WORD`. Code that changes state is imperative, in classes with the
source's fields. Each such method is tied to a function or predicate of the old state, and the
lemmas are about those. Parameters marked `ghost` name what the caller knows and the code never
sees: the blocks of an address space, the order of a list, the content of a buffer. An error branch
is missing only where the model proves that it cannot be taken (`paging_map_to` in `process_malloc`
and `process_free`, `paging_set` in `copy_string_from_task`).

Places where the code does not do the obvious thing are stated as what they are, each with the
exact condition and an input that fails:

- The search for free blocks answers with a trailing free run that is too short when no run fits
  and the last block is free. `HeapTable.MallocKeepsTableIff` says exactly when an allocation keeps
  the table well formed; `HeapTable.ShortRunBreaks` is a table of two blocks on which it does not.
- `process_malloc` hands a request to the heap unchecked. `Process.StepKeepsValidIff` says exactly when
  its joint invariant survives: the request is served, or refused, or no slot is left to record it in.
  A request for no bytes keeps the heap table and breaks the invariant all the same
  (`Process.ZeroSizeBreaks`). Four calls later two processes can write one block
  (`Isolation.ZeroSizeTwoWriters`, carried out by the code in `Refinement.ZeroSizeRun`).
- `process_free` takes a null pointer for that of an empty slot and releases address 0, below the
  heap. The walk clears memory upwards while it finds HAS_NEXT: it is a release of block 0 if every
  byte up to the table has it, and leaves the table alone otherwise (`HeapTable.WalkFromBelow`).
- `task_list_remove` never updates the successor's `prev`, and the block behind it is used again.
  `TaskList.Scheduler.Remove` says exactly when the forward order comes out right.
  `TaskList.StaleRemoval` is a run in which it does not, `TaskList.ReusedStruct` one in which the task
  removed is the head. The write goes to whoever owns the block by then: another process keeps its
  address space exactly if the block is neither its directory nor one of its tables with another word
  there (`StalePrev.UnlinkBeside`), and `StalePrev.ReusedBlock` is a run in which a new process loses
  the pages of 4 MB.
- The image of an ELF program has the size of its file, but `p_memsz` bytes are mapped, at any
  address. A process is confined to its own memory exactly when every page whose last segment is
  writable leads into it (`Confinement.ConfinedIff`); an ordinary .bss makes the block behind the image
  writable for a second process (`ProgramMap.BssEscapes`, `Isolation.BssTwoWriters`).
- ELF segments translate correctly exactly when virtual address and image address agree modulo the
  page size (`ProgramMap.CongruenceNeeded`); nothing in the loader checks this
  (`ProgramMap.ShiftedSegment`).
- A FAT read that crosses a cluster end goes on at the next disk sector.
  `Fat16.ReadIsSliceIff` says exactly when that is harmless. For the same reason `fat16_read` of
  several items is not always one read of their total: `FatFile.ItemsAreNotOneRead`.
- The directory total leaves out deleted slots but the scan counts raw slots.
  `FatDirectory.LookupIff` says exactly which names are still found; `FatDirectory.DeletedHidesLast`
  is a directory of two slots that loses one. A subdirectory's slots are counted along the sectors and
  read along the chain, which is the same exactly on adjacent clusters (`SubDirectory.LinearIff`).
- Memory that runs out while a path is parsed cuts the path short without an error
  (`PathParser.Parse`), and memory that runs out while a command is parsed leaves its last words to the
  next command (`Command.ParseCommand`).

## Model

| member | source | states |
|---|---|---|
| `Bits.MaskPage` | src/memory/paging/paging.c:159 | masking a word with 0xfffff000 leaves exactly its page address |
| `Bits.FlagsMaskOff` | src/memory/paging/paging.c:21 | two sets of flags OR-ed into a page-aligned pointer fit in 32 bits and vanish when the pointer is masked |
| `Bits.BitsOfOr` | src/memory/paging/paging.c:21 | a bit of OR is set exactly if one of the two has it, for every bit |
| `Bits.BitsOfAnd` | src/memory/paging/paging.c:159 | a bit of AND is set exactly if both have it |
| `HeapTable.BlocksForCovers` | src/memory/heap/heap.c:54-64 | rounding up gives the least number of blocks that covers the size; size 0 and sizes within a page of 2^32 give 0 blocks |
| `HeapTable.LowestFit` | src/memory/heap/heap.c:78-99 | if n blocks from b on are free, the answer is no higher than b and n free blocks start there |
| `HeapTable.NoFit` | src/memory/heap/heap.c:78-105 | if no n free blocks lie together, or for n = 0, the answer is where the free row at the end of the table begins, and -ENOMEM if the last block is taken |
| `HeapTable.RunBytes` | src/memory/heap/heap.c:112-129 | a run of one block is the byte 0x41, a longer one 0xC1, 0x81 in between, and 0x01 at the end |
| `HeapTable.RunsDisjoint` | src/memory/heap/heap.c:112-129 | two runs written in one table never overlap, because only a run's head carries IS_FIRST |
| `HeapTable.TableDetermined` | src/memory/heap/heap.c:112-161 | live runs determine the table byte for byte |
| `HeapTable.RunsDetermined` | src/memory/heap/heap.c:112-161 | a table determines its live runs: flag bytes are a faithful encoding |
| `HeapTable.MarkAddsRun` | src/memory/heap/heap.c:112-129 | marking free blocks adds exactly one run, apart from all others |
| `HeapTable.FreeDropsRun` | src/memory/heap/heap.c:149-161 | releasing a run's head drops exactly that run; the HAS_NEXT walk stops at its end |
| `HeapTable.FreeUndoesMark` | src/memory/heap/heap.c:112-161 | releasing what was just taken restores the table byte for byte |
| `HeapTable.FreeUndoesMalloc` | src/memory/heap/heap.c:72-161 | whatever the search answers, also a run marked past the end of the table: releasing it at once restores the table byte for byte |
| `HeapTable.ReleaseClears` | src/memory/heap/heap.c:149-161 | byte by byte, in the table and below it: a release clears exactly the bytes from where it begins that have only HAS_NEXT bytes before them |
| `HeapTable.WalkFromBelow` | src/memory/heap/heap.c:149-161 | a release that begins below the table is the release of block 0 if every byte up to the table has HAS_NEXT, and otherwise leaves the table alone |
| `HeapTable.NextIsTaken` | src/memory/heap/heap.c:120-128 | in a well-formed table a block with HAS_NEXT is followed by a taken block of the table |
| `HeapTable.MallocKeepsTableIff` | src/memory/heap/heap.c:72-147 | an allocation of any number of blocks keeps the table well formed if and only if it asks for nothing, or a run fits, or the last block is taken |
| `HeapTable.ShortRunBreaks` | src/memory/heap/heap.c:72-147 | two blocks, the first taken: a request for two is answered with block 1 and leaves a table that is not well formed |
| `HeapTable.FreeKeepsTableIff` | src/memory/heap/heap.c:149-161 | a release keeps the table well formed if and only if the block is outside, free, or the head of a live run |
| `HeapTable.EveryRunWellFormed` | src/memory/heap/heap.c:131-178 | after any history of such requests and releases the table encodes exactly the runs handed out and not released, none overlapping |
| `HeapTable.FreeCountFits` | src/memory/heap/heap.c:78-99 | while a block is free, a one-block request is served |
| `HeapTable.FreeCountIs` | src/memory/heap/heap.c:60-99 | the count of free blocks is the number of free entries in the table |
| `Heap.Heap.Create` | src/memory/heap/heap.c:26-52 | succeeds exactly when both ends are aligned and the table length matches the pool, in 32 bits; then every byte of the table is free, otherwise none is written; the heap struct is filled in exactly when both ends are aligned |
| `Heap.Heap.GetStartBlock` | src/memory/heap/heap.c:72-105 | of the blocks in the table: the lowest start of enough free ones, for any size; without one, where the free row at the end begins, or -ENOMEM if the last block is taken |
| `Heap.Heap.MarkBlocksTaken` | src/memory/heap/heap.c:112-129 | the rolling flag byte writes exactly the bytes of one run and no other byte |
| `Heap.Heap.MarkBlocksFree` | src/memory/heap/heap.c:149-161 | from any block number an address can give, negative ones too: clears exactly the bytes the HAS_NEXT walk reaches, in the table and below it |
| `Heap.Heap.Malloc` | src/memory/heap/heap.c:131-173 | for every size: null and no change, or the address of the start block with that many blocks marked, also past the table's end |
| `Heap.Heap.Free` | src/memory/heap/heap.c:175-178 | releases from the block any address falls in, or the negative number it gives; touches no memory above the table |
| `Heap.AddressRoundTrip` | src/memory/heap/heap.c:107-166 | block b is 4096 * b above the start of the heap, and the address leads back to it through the signed difference |
| `Heap.AddressBlock` | src/memory/heap/heap.c:163-166 | the block number of any address: its start is less than a block away, towards the start of the heap |
| `Kernel.Kernel.constructor` | src/memory/heap/kheap.c:11-24 | 25600 blocks at 0x01000000 form a valid, empty heap |
| `Kernel.HeapAddresses` | src/memory/heap/kheap.c:11-24 | block b begins at 0x1000000 + 0x1000 * b, and exactly the addresses of the next 4096 bytes are in it |
| `Kernel.Kernel.Kmalloc` | src/memory/heap/kheap.c:26-30 | for every size: the answer of the search becomes marked, a run that fits becomes live; the live runs still make up the table if and only if the request keeps it |
| `Kernel.Kernel.Kzalloc` | src/memory/heap/kheap.c:31-42 | as kmalloc, with the bytes asked for zero as far as the heap reaches, the last partial word included; no block that was taken loses a word, and RAM outside a run that fits is as before |
| `Kernel.Kernel.Kfree` | src/memory/heap/kheap.c:44-47 | of any address in the heap: the HAS_NEXT walk from its block is freed; of one less than a block below it: that of block 0; of a lower one: nothing in the table, or the run of block 0 |
| `Kernel.KfreeKeeps` | src/memory/heap/kheap.c:44-47 | the other live runs make up the table afterwards if and only if the block is outside, free, or the head of a live run |
| `Kernel.Kernel.KfreeLive` | src/memory/heap/kheap.c:44-47 | of a live pointer: its run and no other stops being live |
| `Kernel.Kernel.GiveBack` | src/memory/heap/kheap.c:26-47 | kfree of what kmalloc has just answered, for any size, restores table and live runs |
| `Kernel.Replay` | src/memory/heap/kheap.c:26-47 | kmalloc and kfree carry out every history of EveryRunWellFormed, with its table and its live runs at the end |
| `Paging.IndexesOfPage` | src/memory/paging/paging.c:57-69 | directory index and table index together name the address's page among 2^20 |
| `Paging.Set` | src/memory/paging/paging.c:144-163 | changes exactly the table word of that page; unaligned addresses are refused without a change |
| `Paging.Get` | src/memory/paging/paging.c:172-180 | reads the table word of that page, the word of page 0 for an unaligned address |
| `Paging.GetPhysicalAddress` | src/memory/paging/paging.c:165-170 | frame of the page plus the offset in the page |
| `Paging.Map` | src/memory/paging/paging.c:87-94 | frame OR flags becomes the page's word; unaligned addresses are refused |
| `Paging.MappedStep` | src/memory/paging/paging.c:99-106 | one more page of a range changes exactly the next page, around the end of the 4 GB too |
| `Paging.MapRange` | src/memory/paging/paging.c:96-108 | exactly the pages of the range are remapped, for any count and around the end of the 4 GB; on an error none is |
| `Paging.MapTo` | src/memory/paging/paging.c:110-142 | accepts exactly aligned, ordered arguments and remaps exactly (end - start) / 4096 pages; no word outside the tables changes |
| `AddressSpace.TableSurvives` | src/memory/paging/paging.c:21 | a directory word leads to its table when masked, and has the flags in its low bits: present and user exactly as asked for, writable always |
| `AddressSpace.BuildTables` | src/memory/paging/paging.c:11-22 | 1024 distinct one-block tables, each holding the identity of its 4 MB, entered in the directory with the flags |
| `AddressSpace.New4gb` | src/memory/paging/paging.c:9-27 | takes 1026 new one-block runs, the lowest for the directory; the processor then finds every address to be itself, with the rights given, or faults everywhere if the present flag was not; no other RAM changes |
| `AddressSpace.Free4gb` | src/memory/paging/paging.c:35-45 | releases exactly the 1026 blocks of the address space, each once |
| `AddressSpace.WalkIsEntry` | src/memory/paging/paging.c:144-180 | the processor finds the table word the code reads and writes for a page, and no more rights than the directory has |
| `AddressSpace.IdentityTranslates` | src/memory/paging/paging.c:9-27 | a new address space sends every address to itself, for the code and for the processor, readable exactly if the present flag was given, writable and open to the user exactly by theirs |
| `AddressSpace.MappedTranslates` | src/memory/paging/paging.c:136-138 | after mapping, v leads to phys + (v - virt) with the flags given, each bit; pages outside the range are as before |
| `AddressSpace.MappedAccess` | src/memory/paging/paging.c:110-142 | the same for the processor: an access in the range faults unless both levels are present, and is writable or open to the user exactly if both levels are |
| `AddressSpace.ServeRequests` | src/memory/paging/paging.c:87-163 | any series of mappings leaves all 1024 directory words alone |
| `AddressSpace.BuildUseFree` | src/memory/paging/paging.c:9-45 | building, using and freeing an address space restores the heap table byte for byte |
| `AddressSpace.KzallocBeside` | src/memory/heap/kheap.c:31-42 | an allocation of any size takes no block of an existing address space and changes none of its pages |
| `AddressSpace.BorrowPage` | src/task/task.c:155-169 | while the text is written, through that mapping, its page is mapped to itself, writable and open to the user; afterwards the page tables are as before and the text has been read back |
| `AddressSpace.CopyStringFromTask` | src/task/task.c:140-175 | for every max: the text arrives, or the stated error does; page tables and heap end as they began |
| `TaskList.Scheduler.Next` | src/task/task.c:105-121 | the next task to run is the cyclic successor in the list order |
| `TaskList.Scheduler.Cycle` | src/task/task.c:27-35 | n switches on n tasks run each exactly once, in order, and return to the first |
| `TaskList.Scheduler.Append` | src/task/task.c:83-94 | a new task joins at the end of the order, with consistent links; the first one becomes current |
| `TaskList.Scheduler.Remove` | src/task/task.c:37-56 | the forward order loses exactly that entry if and only if its prev is its predecessor, or it is the head and its prev is no other entry; exactly the next behind its prev changes; current moves to the cyclic successor, null if it was alone; removing the tail keeps all links consistent |
| `TaskList.StaleRemoval` | src/task/task.c:37-56 | three entries, two removals: the first entry is left linked to a removed one |
| `TaskList.ReusedStruct` | src/task/task.c:37-94 | a struct freed and allocated again: removing the head through its stale prev ties two tasks into a cycle and the last one is never scheduled |
| `ElfLoader.Close` | src/loader/formats/elfloader.c:245-256 | releases the image and the file struct, nothing for null |
| `Process.Process.FindFree` | src/task/process.c:45-57 | the lowest empty slot, -ENOMEM exactly when all 1024 are in use |
| `Process.Process.GetByAddr` | src/task/process.c:107-117 | the first slot with that pointer, none exactly when no slot has it |
| `Process.Process.Malloc` | src/task/process.c:59-92 | for every size: null without a change if the heap refuses or no slot is free; else the blocks the heap answers with are marked, entered in the lowest free slot and mapped writable; no RAM that was in use changes but page tables |
| `Process.Process.Free` | src/task/process.c:285-311 | any pointer: a foreign one changes nothing, an own one loses slots, run and pages; null releases at most the run of block 0; only page tables are written |
| `Process.UnjoinedOne` | src/task/process.c:94-105 | clearing every slot with the pointer clears one slot |
| `Process.ZeroSizeBreaks` | src/task/process.c:59-92 | a request for no bytes while the last block is free and a slot is empty: the heap table stays as it is, and no choice of live runs satisfies the joint invariant |
| `Process.StepKeepsValidIff` | src/task/process.c:59-311 | one request of any kind keeps runs, slots, pages and released pages consistent if and only if it is served or refused or finds no slot, and a null pointer strays into no run of the process; otherwise no choice of live runs makes up for it |
| `Process.EveryRunValidIff` | src/task/process.c:59-311 | a run of any requests keeps the joint invariant at every point if and only if every request is harmless when it comes |
| `ByteView.ValidMeans` | src/task/process.c:59-311 | at every byte of an allocation: the process can read and write it and it leads to itself, its block is taken and has the byte of its place in the run, and neither another slot nor a released page has it |
| `ByteView.ReleasedMeans` | src/task/process.c:285-311 | any access to a released page faults |
| `ByteView.ProcessSees` | src/task/task.c:58-103 | the directory loaded for a process grants every right, so that each access is what the page's table word says |
| `ByteView.AllocationAccess` | src/task/process.c:59-92 | the processor lets the process read and write every byte of its allocations, in place |
| `ByteView.MallocMeans` | src/task/process.c:59-92 | process_malloc: the lowest empty slot takes pointer and size, every byte asked for was free and is now taken, readable and writable; every other slot, page and table byte is as before |
| `ByteView.FreeMeans` | src/task/process.c:285-311 | process_free of an own pointer: its slot is empty, every byte faults and is free again; every other slot, page and table byte is as before |
| `ByteView.ForeignMeans` | src/task/process.c:285-293 | process_free of a pointer that is in no slot changes nothing |
| `Paging.WritableBit` | src/memory/paging/paging.h:11 | a table word is writable exactly when its flag is set |
| `ProgramMap.SegmentsWord` | src/task/process.c:439-457 | after mapping, a page has the word of the last segment that covers it, and its old word if none does |
| `ProgramMap.SegmentInsideIff` | src/task/process.c:442-452 | the pages of a writable segment lead into the n blocks of its image if and only if its rounded range lies in them |
| `ProgramMap.BssEscapes` | src/loader/formats/elfloader.c:214 | a one-block image and a segment of two pages in memory: its second page is writable and leads to the next heap block |
| `ProgramMap.BinaryIsSegment` | src/task/process.c:421-430 | a flat binary is mapped like one writable segment that is all of its file |
| `Confinement.ConfinedIff` | src/task/process.c:462-492 | after process_map_memory every writable page leads into image or stack if and only if, off the stack, every page whose last segment is writable does, whatever pages segments share |
| `Confinement.InsideIsConfined` | src/task/process.c:442-452 | that holds if every writable segment's range lies in the image's run |
| `Confinement.BinaryConfined` | src/task/process.c:421-430 | and for a flat binary always |
| `Isolation.StepKeepsApartIff` | src/task/process.c:59-564 | after one turn of any kind all processes are valid and hold no run in common if and only if a request was served, refused or found no slot, and a stray null pointer met no held run; otherwise no choice of live runs makes up for it |
| `Isolation.StepKeepsOkIff` | src/task/process.c:59-564 | and all can write their own memory only if and only if, besides, a mapped program was confined |
| `Isolation.EveryHistoryApartIff` | src/task/process.c:59-564 | from no process at all, over any history of any requests and programs: all stay valid and apart at every point if and only if every turn keeps them so |
| `Isolation.EveryHistoryOkIff` | src/task/process.c:59-564 | and all can write their own memory only, at every point, if and only if every turn is harmless |
| `Isolation.WritesOwn` | src/task/process.c:72-76 | through any page, a confined process writes only blocks of runs of its own |
| `Isolation.OtherRunsSafe` | src/memory/paging/paging.c:9-27 | so no block of any other live run, its own page tables and directory among them |
| `Isolation.OneWriter` | src/task/process.c:59-564 | where processes are apart, two confined ones can write no physical page in common, heap or not; EveryHistoryOkIff says exactly when that is all processes at all times |
| `Machine.WritesThroughPages` | src/task/process.c:59-564 | a process writes physical memory only where one of its writable pages leads |
| `Machine.NoSharedWrites` | src/task/process.c:59-564 | where processes are apart, the processor lets no two confined ones write the same physical page, whatever addresses they use |
| `Machine.NoForeignWrites` | src/task/process.c:59-564 | nor any block of a run that is not their own |
| `Isolation.ZeroSizeTwoWriters` | src/isr80h/heap.c:6-18 | malloc(0) of one process, a malloc of another that gets the same block, free and malloc of the first: both can write the block |
| `Isolation.BssTwoWriters` | src/task/process.c:448-452 | once the .bss of BssEscapes is mapped beside a process that owns the next block, both can write it |
| `Refinement.MallocInSystem` | src/task/process.c:59-92 | process_malloc of any size is a step of the system, and the address spaces of all other processes stay word for word; all processes can still write their own memory only, for some live runs, if and only if the request is harmless |
| `Refinement.FreeInSystem` | src/task/process.c:285-311 | so is process_free of any pointer, if the block released is in no address space |
| `Refinement.FreeAllowed` | src/task/process.c:285-311 | which is so where processes are apart |
| `Refinement.ZeroSizeRun` | src/isr80h/heap.c:6-18 | the code carries out the four calls of ZeroSizeTwoWriters |
| `Refinement.KzallocInSystem` | src/memory/heap/kheap.c:31-42 | a kzalloc of the kernel's own that keeps the table is a step of the system |
| `Refinement.KfreeInSystem` | src/memory/heap/kheap.c:44-47 | so is a kfree of a run no process holds |
| `Refinement.TaskNewBeside` | src/task/task.c:68-103 | task_new beside running processes disturbs none of them and starts without a writable page |
| `Refinement.JoinInSystem` | src/task/task.c:68-103 | so a loaded process joins the system by task_new |
| `Refinement.MapInSystem` | src/task/process.c:462-492 | process_map_memory is a step of the system that leaves all others alone; afterwards the process is confined if and only if it is a flat binary or the program headers up to the first refused one are |
| `Refinement.FreeProcessBeside` | src/task/process.c:190-211 | process_free_process of any process, mapped or not, confined or not: another process keeps its address space and all its pages if and only if it is spared by the write through prev |
| `Refinement.LeaveInSystem` | src/task/process.c:190-211 | the process leaves the system with all its runs, and the others are as before if and only if all are spared |
| `StalePrev.UnlinkBeside` | src/task/task.c:37-66 | after task_list_remove and kfree another address space is unchanged if and only if the block behind prev is neither its directory nor one of its tables with another word there; a table has exactly that page remapped, a directory no longer forms an address space |
| `StalePrev.ReusedBlock` | src/task/task.c:37-66 | a struct is freed, a new address space gets its block for the directory, the next task leaves: the address space is broken |
| `Teardown.TerminateAllocations` | src/task/process.c:119-129 | every live slot's run goes back, no other; all slots are empty |
| `Teardown.FreeProgramData` | src/task/process.c:149-166 | releases the binary image, or the ELF image and its struct |
| `Teardown.OwnedAre` | src/task/process.c:119-211 | the blocks of a process, pointer by pointer: what its 1024 slots, its image or its ELF file and its memory, its stack, its task and its own struct point to, the struct of its address space, the directory, and the table behind each of its 1024 words |
| `Teardown.UnlinkAndFree` | src/task/task.c:58-66 | besides unlinking the entry and releasing its struct, exactly the word of `next` in the block behind a non-null prev is written, whoever owns it |
| `Teardown.TaskFree` | src/task/task.c:58-66 | releases the address space and the struct, and unlinks the entry, cleanly under the condition of Remove |
| `Teardown.FreeProcess` | src/task/process.c:190-211 | releases exactly the blocks the process owns, each once: all are free afterwards, no other byte of the heap table changes, and no word of RAM but its page tables and the next behind its prev |
| `Teardown.FreeUnstarted` | src/task/process.c:190-211 | the same for a process that failed to load before it had an address space |
| `Teardown.OthersUnchanged` | src/task/process.c:190-211 | dropping some runs frees all their blocks and changes no table byte of the others |
| `Lifecycle.TaskNew` | src/task/task.c:68-103 | a loaded process gets a struct and an address space of its own, in which the processor lets it read every address and write none; the joint invariant holds from the start, it joins at the end of the list, and no RAM that was in use changes |
| `Lifecycle.StepKeepsRest` | src/task/process.c:59-311 | a harmless request takes from or gives to the heap exactly what the process's slots gain or lose; its other blocks stay allocated |
| `Lifecycle.ServeAll` | src/task/process.c:59-311 | so does any series of requests, those skipped that are not harmless when they come |
| `Lifecycle.WholeLife` | src/task/process.c:494-564 | started, mapped, run through any harmless requests and terminated, a process leaves the heap table and the live runs exactly as they were, less the blocks it was loaded with, and the scheduler's list as it was |
| `ProgramMap.MapElf` | src/task/process.c:432-460 | segments are mapped in order up to the first whose end wraps, which is reported |
| `ProgramMap.MapProgram` | src/task/process.c:421-476 | the same for either file type |
| `ProgramMap.MapMemory` | src/task/process.c:462-492 | the stack is mapped after the program, unless that failed |
| `ProgramMap.OneSegment` | src/task/process.c:442-452 | the processor sends every address on a page the congruent segment reaches into to its place in the image, open to the user, writable exactly if PF_W is set; all other pages are as before |
| `ProgramMap.CoversIsOnPage` | src/task/process.c:448-452 | such a segment is mapped exactly on the pages that its p_memsz bytes from p_vaddr reach into |
| `ProgramMap.Refused` | src/memory/paging/paging.c:128-131 | a segment is refused if its memory ends in the last page of the 4 GB or wraps, not otherwise |
| `ProgramMap.CongruenceNeeded` | src/loader/formats/elfloader.c:76-79 | its bytes are found at their place in the image if and only if p_vaddr and the image address agree modulo 4096 |
| `ProgramMap.ShiftedSegment` | src/task/process.c:448-452 | a segment at file offset 0x10 asked for at 0x400000: its first byte leads to the first byte of the file instead |
| `ProgramMap.SegmentsTranslate` | src/task/process.c:439-457 | for congruent, disjoint segments the processor sends every byte of each to its image byte, open to the user, writable iff PF_W; pages of no segment are untouched |
| `ProgramMap.StackTranslates` | src/task/process.c:484-488 | the 16 KB from 0x3FB000 lead to the stack, writable and open to the user; all other pages keep the program's mapping |
| `ProgramMap.BinaryTranslates` | src/task/process.c:421-430 | a flat binary lies at 0x400000, writable and open to the user, up to the end of its last page; all other pages are as before |
| `Disk.DiskStream.Read` | src/disk/streamer.c:27-62 | delivers exactly disk[pos..pos+total], touches nothing else in the buffer, advances by total, and terminates |
| `Disk.DiskStream.ReadTwice` | src/disk/streamer.c:27-62 | reading a and then b is reading a + b |
| `FatLayout.AreasTile` | src/fs/fat/fat16.c:209-231 | the root directory begins where the last FAT ends, cluster 2 on the first sector behind its last slot, and clusters follow each other in one size |
| `FatLayout.EntryBytes` | src/fs/fat/fat16.c:377-401 | the FAT entry of cluster c is the two bytes at 2 * (c % 256) of sector c / 256 of the first FAT, the low one first |
| `FatLayout.FileByte` | src/fs/fat/fat16.c:367-481 | in boot-sector numbers: where byte b of the file that starts in a cluster lies on the disk |
| `FatLayout.FileLength` | src/fs/fat/fat16.c:367-370 | n clusters have n * 512 * sectors per cluster bytes |
| `FatLayout.ReadByte` | src/fs/fat/fat16.c:446-481 | where any read takes byte j from, crossings or not: the place of byte j of the chain from its first cluster, as much further as the read began inside that cluster |
| `FatLayout.ReadBytes` | src/fs/fat/fat16.c:698-719 | aligned items leave in the buffer the bytes the disk has at those places |
| `FatLayout.ChainBreaks` | src/fs/fat/fat16.c:414-440 | a walk along the chain fails exactly if an entry on the way is 0, 0xFF0, 0xFF6, 0xFF7, 0xFFF8 or 0xFFFF |
| `FatLayout.ChainReaches` | src/fs/fat/fat16.c:404-444 | n clusters can be read one after the other if and only if the walk reaches the last of them |
| `FatLayout.BootVolume` | src/boot/boot.asm:21-47 | on the volume of the boot sector the root directory is at sector 712, cluster 2 at 716 and cluster 3 at 844 |
| `FatLayout.ClusterStored` | src/fs/fat/fat16.c:362-365 | the first cluster read from a slot is c if and only if its bytes 26, 27, 20 and 21 are those of c, lowest first |
| `FatLayout.DirectoryBit` | src/fs/fat/fat16.c:522 | a slot is taken for a directory exactly if its byte 11 has bit 0x10 |
| `FatLayout.LiveSlots` | src/fs/fat/fat16.c:196-201 | the total is the number of slots whose first byte is not 0xE5 |
| `FatLayout.EndOfDirectory` | src/fs/fat/fat16.c:184-195 | a directory has n slots of 32 bytes if byte 32 * n is its first zero among the first bytes of slots |
| `Fat16.FatReader.GetFatEntry` | src/fs/fat/fat16.c:377-401 | the little-endian FAT word, also across a sector boundary |
| `Fat16.FatReader.GetClusterForOffset` | src/fs/fat/fat16.c:404-444 | the (offset / cluster size)-fold successor, -EIO exactly when an entry on the way is one of the six refused ones |
| `Fat16.FatReader.ReadInternal` | src/fs/fat/fat16.c:446-481 | fails exactly when a link is refused, else delivers the bytes of ReadPositions and no others; terminates on the rest to read |
| `Fat16.ReadIsSliceIff` | src/fs/fat/fat16.c:457-476 | the disk positions it reads are those of the slice of the concatenated clusters if and only if every run that crosses a cluster end crosses to the adjacent cluster |
| `FatFile.FileReadIff` | src/fs/fat/fat16.c:446-481 | the same positions for a whole file and any offset in it, and inside the file no read fails |
| `FatFile.FileReadExact` | src/fs/fat/fat16.c:446-481 | so reads are exact at cluster-aligned offsets, inside one cluster, and on contiguous chains |
| `FatFile.FileItemsIff` | src/fs/fat/fat16.c:704-713 | the positions of nmemb items are those of one slice of the file if and only if no item crosses to a cluster that is not adjacent |
| `FatFile.AlignedItemsExact` | src/fs/fat/fat16.c:704-713 | which holds when the item size divides cluster size and position, or the cluster size divides both |
| `FatFile.ItemsAreOneReadIff` | src/fs/fat/fat16.c:698-719 | such items read the positions of one read of nmemb * size bytes if and only if that read crosses to adjacent clusters only |
| `FatFile.ItemsAreNotOneRead` | src/fs/fat/fat16.c:698-719 | two items around a cluster end can be right where one read of their total is wrong |
| `FatFile.FileDescriptor.Read` | src/fs/fat/fat16.c:698-719 | delivers all items and advances by nmemb * size, or returns -EIO with the position unchanged, exactly when some item fails |
| `FatDirectory.ToProperString` | src/fs/fat/fat16.c:315-332 | appends the field up to its first NUL or space, and a NUL |
| `FatDirectory.GetFullRelativeFilename` | src/fs/fat/fat16.c:334-344 | the buffer holds the characters of the name field up to the first NUL or space, a dot, and those of the extension, or the name alone if there is none |
| `FatDirectory.Istrncmp` | src/string/string.c:41-58 | zero exactly when the strings, cut to n characters, are equal apart from ASCII case, otherwise the difference of the first two characters that are not |
| `FatDirectory.GetTotalItems` | src/fs/fat/fat16.c:163-207 | counts the slots in use before the end marker |
| `FatDirectory.FindItem` | src/fs/fat/fat16.c:582-597 | the first of the first `total` slots whose name, dot and extension are the text looked for, with A-Z and a-z exchanged or not; none exactly when none has it |
| `FatDirectory.NamedIff` | src/fs/fat/fat16.c:334-344 | the comparison finds a slot exactly by that text |
| `FatDirectory.PaddedName` | src/fs/fat/fat16.c:315-344 | a slot with a and e padded with spaces is found by a.e, or by a for an empty e, in any case of the letters, and by no other text |
| `FatDirectory.KernelFound` | src/fs/fat/fat16.c:582-597 | "KERNEL  BIN" is found as kernel.bin |
| `FatDirectory.NoneDeleted` | src/fs/fat/fat16.c:196-201 | the total is the number of slots if and only if no slot is deleted |
| `FatDirectory.LookupIff` | src/fs/fat/fat16.c:586-595 | the scan answers with the first slot in use that has the name if and only if there is none or it lies among the first `total` |
| `FatDirectory.LookupExact` | src/fs/fat/fat16.c:586-595 | so without deleted slots every name is found where it first occurs |
| `FatDirectory.DeletedHidesLast` | src/fs/fat/fat16.c:586-595 | one deleted slot in front hides the last one |
| `FatDirectory.GetRootDirectory` | src/fs/fat/fat16.c:209-263 | the buffer holds the slots as they lie on the disk from the first sector behind the FATs, and the total counts those in use before the end marker |
| `FatDirectory.LookupRoot` | src/fs/fat/fat16.c:582-597 | a name looked up in the root directory of the disk: the answer is the first slot in use that has it if and only if there is none or it lies among the first `total` |
| `SubDirectory.LinearIff` | src/fs/fat/fat16.c:537-548 | what is read along the chain is what was counted along the sectors if and only if the clusters are adjacent |
| `SubDirectory.LoadDirectory` | src/fs/fat/fat16.c:517-560 | counts the slots in use from the first cluster's sector on and reads as many slots along the chain; fails exactly on a file or a refused link |
| `SubDirectory.LookupSub` | src/fs/fat/fat16.c:517-597 | on adjacent clusters a name looked up in a subdirectory gets the answer of LookupIff for the slots on the disk |
| `PathParser.Parser.GetPathPart` | src/fs/pparser.c:41-67 | the text up to the next slash, with its terminator inside 108 bytes; null exactly when it is empty or there is no memory; the cursor is behind the slash |
| `PathParser.Parser.ParsePathPart` | src/fs/pparser.c:69-90 | a non-empty component becomes the next node of the list, if memory for two blocks is left |
| `PathParser.LinkedIs` | src/fs/pparser.c:69-90 | from any node on, following next finds the nodes in order, and then null |
| `PathParser.Parse` | src/fs/pparser.c:105-160 | accepts exactly a digit, ":/" and a character that is no slash, up to 108 characters, with memory for three blocks; yields drive and the components up to the first empty one, as many as memory allows |
| `PathParser.PiecesAreSplit` | src/fs/pparser.c:50-65 | what the cursor loop takes is the slash-separated list cut at its first empty entry |
| `PathParser.SplitIs` | src/fs/pparser.c:50-65 | the list is the text taken apart at every slash: no piece has one, and with one between each two the pieces are the text |
| `PathParser.UpToEmptyIs` | src/fs/pparser.c:50-65 | what is kept of it is the longest front without an empty piece |
| `PathParser.PrintedPieces` | src/fs/pparser.c:105-160 | printing what was parsed gives the path back if and only if no component is empty |
| `PathParser.PiecesOfPrinted` | src/fs/pparser.c:105-160 | parsing what was printed gives the components back |
| `PathParser.ParsePrinted` | src/fs/pparser.c:105-160 | pathparser_parse undoes printing "d:/" and the joined components, memory permitting |
| `Command.Tokenizer.Strtok` | programs/stdlib/src/string.c:124-178 | next maximal delimiter-free run of the buffer, NUL-terminated in place, cursor behind it; null with the cursor cleared at the end; a string given while the cursor is set is ignored |
| `Command.StartsAreRuns` | programs/stdlib/src/string.c:139-178 | a word starts exactly where a delimiter-free run begins |
| `Command.WordsAtStarts` | programs/stdlib/src/string.c:160-176 | each word reaches from its start to the next delimiter |
| `Command.StartsIncrease` | programs/stdlib/src/string.c:139-178 | the words come in order |
| `Command.Strncpy` | programs/stdlib/src/string.c:104-115 | the buffer holds the text cut to its length less one, and a NUL |
| `Command.ParseCommand` | programs/stdlib/src/marrowos.c:4-45 | wherever the strtok cursor stands: a linked list of exactly the words ahead of it (of the command itself when it is null), each cut to 511 characters, as many as memory allows; the cursor is null again exactly when all words got a node |
| `Command.LinkedIs` | programs/stdlib/src/marrowos.c:4-45 | following next finds the nodes in order, and then null |
| `Command.WordsOfPrinted` | programs/stdlib/src/marrowos.c:4-45 | the words of words joined with spaces are those words |
| `Command.ParseJoined` | programs/stdlib/src/marrowos.c:4-45 | parsing a command joined from words returns the words and leaves the cursor null |
| `Numbers.UDivMod64` | programs/stdlib/src/stdio.c:32-49 | n == q * d + r and r < d for every 64-bit n and 32-bit d > 0; for d == 0 all quotient bits set |
| `Numbers.NumeralReadsBack` | programs/stdlib/src/stdio.c:51-72 | printed digits evaluate back to the number |
| `Numbers.ValueSnoc` | programs/stdlib/src/stdio.c:51-72 | one digit more is the base times the number, plus the digit |
| `Numbers.NumeralForm` | programs/stdlib/src/stdio.c:51-72 | they are digits of the base, without a leading zero |
| `Numbers.TableDigits` | programs/stdlib/src/stdio.c:15-18 | digit d of the tables is 0 to 9, then a to f or A to F |
| `Numbers.DigitsAre` | programs/stdlib/src/stdio.c:51-72 | the digits of a base are the characters below it, in the case asked for |
| `Numbers.SpelledOnce` | programs/stdlib/src/stdio.c:51-72 | and no other text is both |
| `Numbers.NumeralLength` | programs/stdlib/src/stdio.c:53-54 | a numeral has at most k digits if and only if the number is below base^k |
| `Numbers.PrintUll` | programs/stdlib/src/stdio.c:51-72 | prints the numeral in base 8, 10 or 16, at most 22 of 24 buffer characters |
| `Numbers.PrintUint` | programs/stdlib/src/stdio.c:12-30 | the same for 32 bits, at most 11 of 16 |
| `Numbers.PrintLl` | programs/stdlib/src/stdio.c:74-84 | a minus sign and the magnitude, down to -2^63 without overflow |
| `Numbers.SignedReadsBack` | programs/stdlib/src/stdio.c:74-84 | signed text evaluates back to the number |
| `Numbers.Itoa` | programs/stdlib/src/stdlib.c:4-30 | the signed text of every 32-bit number ends its 12-byte buffer, down to -2^31 |
| `Keyboard.Ring.Pop` | src/keyboard/keyboard.c:80-98 | returns the oldest waiting character, zero from an empty ring |
| `Keyboard.Ring.Push` | src/keyboard/keyboard.c:62-78 | from any state of the ring: writes the character at the tail and moves it on, zero is dropped; for a ring in step it appends to the waiting characters while fewer than 1024 wait, and at 1024 the newest replaces the oldest and the tail is out of step |
| `Keyboard.KeyboardPush` | src/keyboard/keyboard.c:62-78 | the same for the current process, nothing without one |
| `Keyboard.KeyboardPop` | src/keyboard/keyboard.c:80-98 | the same for the current process, zero without one |
| `Keyboard.NothingLost` | src/keyboard/keyboard.c:62-98 | over every run: delivered characters followed by waiting ones are what was waiting followed by what was typed |
| `Keyboard.Replay` | src/keyboard/keyboard.c:62-98 | the ring carries out every such run in which at most 1024 characters wait |

## Left out

- Port I/O, ATA polling, the VGA terminal, interrupt entry and exit, GDT, IDT and TSS loading, `paging_load_directory`, register switching: hardware effects. A disk is a function from sector numbers to sectors, so a sector read never fails.
- The system-call table, file-descriptor lookup, keyboard registration, `process_get`, `process_switch` and `process_unlink`: dispatch tables with single-branch facts.
- `memset`, `memcpy`, `strcpy`, `strlen` on their own, `fat16_stat`, `fat16_seek`, the format dispatch of `printf`, `marrowos_terminal_readline`: easy members.
- Loading a process as a whole, and heap neutrality of `fopen`: `fopen` keeps the parsed path (src/fs/file.c:191-213).
- `elf_process_pheaders` and the header checks of `elf_load`: the base and end fields it computes are not read anywhere else. ELF BSS contents: the code maps p_memsz bytes but does not clear beyond p_filesz, so translation and confinement are all that is claimed.
- AddressSpace.New4gb, AddressSpace.BuildTables, AddressSpace.BuildUseFree: require as many free blocks as they take (1026, 1024 for the tables alone), because the code does not look at the results of its allocations.
- Lifecycle.TaskNew, Refinement.TaskNewBeside, Refinement.JoinInSystem: require one block more, because the error path of `task_new` hands a null pointer to `task_free`.
- Lifecycle.WholeLife: starts after `process_load_data` and the stack allocation; reading the program file is not part of it.
- Lifecycle.ServeAll, Lifecycle.WholeLife: requests that are not harmless, and null pointers, are skipped; Process.StepKeepsValidIff says what they do.
- Kernel.Kernel.Kzalloc, AddressSpace.KzallocBeside, Process.Process.Malloc, Refinement.MallocInSystem: require a size of at most 4 GB less the heap's end (LARGEST); from there on the memset of `kzalloc` can wrap around the address space.
- Kernel.Kernel.Kfree: of addresses from 0x81000000 on, which give negative block numbers too, only Heap.Heap.Free says what happens.
- Process.Process.Free: if address 0 strays into the table and block 0 is part of the address space, only table and live runs are stated.
- Refinement.KzallocInSystem: a request of the kernel itself that does not keep the table is no step; Kernel.Kernel.Kmalloc says what it does.
- Refinement.FreeInSystem: requires that the block released is in no address space; where processes are apart that is FreeAllowed.
- Isolation.EveryHistoryApartIff, Isolation.EveryHistoryOkIff: a leaving process spares the others (Refinement.LeaveInSystem says exactly when it does); a step is one whole call; calls of different processes do not overlap.
- TaskList.Scheduler.Remove: links backwards after a removal in the middle are not claimed, because the code leaves the successor's `prev` alone.
- ElfLoader.Close, Teardown.FreeProcess: structs of processes, list entries and ELF files are objects that also own a heap block (`self`), while page tables, directories and the directory pointer live in RAM itself. Of the words of the other structs only the `next` written through a `prev` is laid out (Teardown.UnlinkAndFree).
- AddressSpace.CopyStringFromTask: the text is a parameter, already cut to `max` characters as strncpy does, and not read through the user's own page.
- Disk.DiskStream.Read: a sector read never fails, as said above.
- Fat16.FatReader.ReadInternal, FatFile.FileDescriptor.Read: assume that the clusters of the chain lie on the disk within the range of an `int`, so that no position overflows.
- FatDirectory.FindItem, FatDirectory.LookupRoot, SubDirectory.LookupSub: choose the slot; cloning it is not part of this model, and neither is the walk over several directories. Allocations succeed.
- SubDirectory.LoadDirectory: answers with the error code of a refused link; the source frees the directory then and returns the freed pointer.
- FatDirectory.GetTotalItems: requires an end marker, without which the loop of the source does not end.
- FatDirectory.GetRootDirectory: its allocation succeeds. FatDirectory.LookupRoot requires that the slots counted fit the directory, or the scan leaves its buffer.
- PathParser.Parse: `budget` stands for how many allocations succeed before one fails; the components are objects, so `pathparser_free` has nothing to state.
- Command.ParseCommand: `budget` stands for how many nodes user memory allows; a cursor left in an earlier call's buffer is assumed to find that buffer unchanged, although it was on the stack.
- Keyboard.Replay: at most 1024 characters wait at any time.
- Numbers.PrintUll, Numbers.PrintUint: bases 8, 10 and 16, the only ones `printf` passes. Texts are returned instead of written to the terminal.
