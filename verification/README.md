# A model of the kernel's memory, files and input

A Dafny model of a small 32-bit kernel: its block allocator, its two-level page tables, the memory
of its processes, the loading of executables, the FAT16 read path, the path parser, the keyboard
buffer, the task list, the copying of strings out of tasks, the line editor of the user library and
the number printers. The code is modelled as it is written, with 32-bit wrap-around, C division and
its quirks, and what is proved is what that code does. Where it falls short of its evident intent,
a lemma says exactly when it does and when it does not.

| file | models |
|---|---|
| `Machine.dfy` | words, wrap-around, status codes; `\|` and `&` on addresses and flags |
| `BlockTable.dfy` | the block table as a value, and the ledger that explains every entry of it |
| `Heap.dfy` | all runs of malloc and free; the allocator in place on its byte table |
| `Paging.dfy` | flat address spaces; directories and tables in blocks of the heap |
| `ProcessMemory.dfy`, `ProcessRuns.dfy` | allocation slots, address spaces and one shared heap, over every run |
| `ElfMapping.dfy`, `ElfBounds.dfy` | program headers and the stack in a fresh address space; bounds of a file |
| `SharedFrame.dfy` | a run that ends with two processes writing to one frame |
| `Process.dfy` | the process structure, updated in place |
| `TaskRing.dfy` | the list of tasks |
| `TaskMemory.dfy`, `UserCopy.dfy` | memory seen through page tables; copying a string from a task |
| `Streamer.dfy`, `Fat16.dfy` | the sector stream; cluster chains and file reads |
| `PathParser.dfy`, `Keyboard.dfy`, `LineEditor.dfy`, `Numerals.dfy` | paths, keys, lines, numbers |

Two ideas carry the memory proofs. The allocator's table alone cannot tell one run from the next,
so the heap keeps a ghost *ledger* beside it: every block is unused, part of a run (which one, how
long), or the residue of a freed run. `Accounts` says that the table is what the ledger makes of
it. And a page directory with its 1024 tables is a *flat map* of 2^20 entries; every operation on
the tables is proved to be the obvious operation on the map.

What the code does that a reader may not expect, each proved below:

- `heap_free` stops before the last block of a run, so every free of a live run leaves one block
  taken for good, and a run of one block is never freed. `paging_free_chunk` gives back none of
  the 1026 blocks of a page directory. A repaired free is given, labelled as such.
- `mark_blocks_taken` writes the first-block flag and overwrites it at once.
- `heap_create` accepts a reversed region, whose size wraps, and a region at address 0.
- Rounding an address down to its page returns the address itself. Physical translation is right
  exactly for aligned addresses, and unaligned program headers are refused.
- A segment of more than 2^32 - 4096 bytes rounds to an empty range and is accepted, mapping nothing.
- A segment may reach past the memory its file was read into. Whatever the segments, what
  `process_malloc` and the stack give to one process is never given to another. All that a process
  may write lies in memory it holds if and only if its writable segments lie in its image or stack;
  processes of that kind never share a writable frame, and never write to page tables. A run of the
  system ends with a segment that reaches another process's stack.
- `paging_get` of an unaligned address reads the entry of page 0.
- `disk_stream_read` delivers too little exactly when an unaligned read crosses a sector.
- The position of a FAT entry is a product where a sum is expected; as long as neither wraps, they
  agree only for cluster 0 of a volume without reserved sectors. Stop markers are 12-bit values.
- A task is made its own predecessor, so only the head of the task list can leave it.
- `copy_string_from_task` hands a directory to a function that expects a pointer to one. A word is
  then written to a place that depends on the flags of directory entry 0, the accessed flag of the
  processor among them, and on two entries for low memory. The task's directory is left alone
  exactly when the word misses it, its tables and the two pointers that lead to it, or happens to
  make no difference; the address of the directory is read again after that. The tables of other
  tasks can be hit as well. With low memory mapped to itself all of these are safe for scratch pages
  below 56 MB while entry 0 has never been used, and below 24 MB once it has; at 24 MB the word goes
  to the first page of the heap. The scratch page is not mapped for the task and is never freed.
- `process_malloc` with no free slot loses a block, for it frees the run it has just taken.
- The keyboard buffer stops being a queue exactly at the 1025th unread key, and at a backspace when
  it is empty. A backspace on an empty line becomes part of the line.
- The base of an executable with a segment at address 0 is not its least address, unless the last
  segment to be loaded is the one at 0.

The code agrees with the Intel SDM, Vol. 3A, section 4.3, on the layout of 32-bit page tables; the
accessed flag is that of section 4.8.

## Model

| member | source | states |
|---|---|---|
| Bits.EntryRoundTrip | src/memory/paging.c:82-86 | an address and flags or-ed into one word come apart again: masking gives the address, the low bits the flags |
| Bits.TwoFlagsRoundTrip | src/memory/paging.c:22 | the same for a directory entry, or-ed from an address and two sets of flags |
| BlockTable.AlignValueCountsBlocks | src/memory/heap.c:41-45 | rounding up in 32 bits gives the exact number of blocks, except that the last 4095 sizes give 0 |
| BlockTable.EntryBits | src/memory/heap.c:61-77 | an entry may be handed out if and only if its low four bits are clear, and has a successor if and only if its top bit is set |
| BlockTable.FirstFitFrom | src/memory/heap.c:61-77 | the least place with room for the run, or none only if no place has room |
| BlockTable.SuccessorTaken | src/memory/heap.c:53-59 | in a table explained by a ledger, an entry with a successor has one, inside the table and taken |
| BlockTable.AccountsTerminated | src/memory/heap.c:86-90 | the unbounded loop of free ends inside the table, wherever it starts |
| BlockTable.RunsDisjoint | src/memory/heap.c:53-84 | two live runs share no block |
| BlockTable.LiveChainEnd | src/memory/heap.c:53-59 | from any block of a live run the chain leads to the last block of that run |
| BlockTable.MallocAccounts | src/memory/heap.c:53-77 | marking a fitting run keeps the table explained, and takes only blocks that were unused |
| BlockTable.FreeAccounts | src/memory/heap.c:86-90 | freeing a live run clears all its entries but the last and no other, and keeps the table explained |
| BlockTable.FreeKeepsTableIff | src/memory/heap.c:86-90 | after a free anywhere in the table some ledger explains it if and only if the block starts a live run or has no successor |
| BlockTable.Conservation | src/memory/heap.c:53-90 | the taken entries are the lengths of the live runs plus one for each residue |
| BlockTable.MallocThenFree | src/memory/heap.c:53-90 | a malloc and a free of its result change the table in one entry, the last of the run, which stays taken |
| BlockTable.RepairedMallocThenFree | src/memory/heap.c:86-90 | REPAIR: a free that also clears the last block of the chain undoes a malloc completely |
| HeapRuns.MallocSound | src/memory/heap.c:79-84 | an allocation keeps the heap sound and makes exactly the rounded number of unused blocks a live run |
| HeapRuns.FreeSound | src/memory/heap.c:86-90 | freeing a live run keeps the heap sound and adds one residue |
| HeapRuns.FreeSoundIff | src/memory/heap.c:86-90 | the heap stays sound after a free at any block if and only if the block starts a live run or has no successor; then, without one, nothing changes |
| HeapRuns.RunKeepsSound | src/memory/heap.c:61-90 | every run of mallocs and frees of live runs keeps the heap sound; residues grow by the number of frees |
| HeapRuns.EveryRunConserves | src/memory/heap.c:25-90 | in every run from an empty heap the taken blocks are the live runs plus one for each free so far |
| HeapRuns.EveryRunTakes | src/memory/heap.c:61-90 | in every run the blocks taken grow by what the mallocs that found room asked for, less all but one block of each run freed |
| Heap.BlockHeap.Create | src/memory/heap.c:13-39 | refuses unaligned bounds and a table of the wrong length without touching it, otherwise clears the table; the heap is then sound if and only if the region is not at address 0 and not reversed, where end 0 stands for 4 GB |
| Heap.BlockHeap.MarkBlocksTaken | src/memory/heap.c:53-59 | the entries become one chain, all others stay; the first-block flag does not survive |
| Heap.BlockHeap.MallocBlocks | src/memory/heap.c:61-77 | finds the first fit, although the search skips ahead past taken entries, and marks it; 0 only if there is none |
| Heap.BlockHeap.Malloc | src/memory/heap.c:79-84 | for every 32-bit size: the first fit of exactly the blocks that size needs, or 0 if there is none, also where rounding wraps |
| Heap.BlockHeap.Free | src/memory/heap.c:86-90 | ends, clears the chain from the block of the address, and keeps the heap sound exactly in the cases of FreeSoundIff |
| Heap.BlockHeap.Ksize | src/memory/kheap.c:37-45 | 4096 times the entries that a free of the address would clear; 0 for null |
| Heap.KsizeOfRun | src/memory/kheap.c:37-45 | of a live run that is one block less than the run has, and those are the entries free changes |
| Heap.OneBlockStaysTaken | src/memory/heap.c:86-90 | freeing a run of one block changes nothing in the table |
| PageMap.MapOneMorePage | src/memory/paging.c:88-98 | mapping one page more is an update of the map at the next page, round the end of the address space |
| PageMap.NextPage | src/memory/paging.c:88-98 | addresses stepped by 4096 with wrap-around reach the pages in order, also past 4 GB |
| PageMap.EntryFlags | src/memory/paging.h:4-8 | the present and writable bits of an entry are those of the flags it was made with |
| Paging.IndexesOfPage | src/memory/paging.c:60-66 | index pairs below 1024 and page numbers are in one-to-one correspondence |
| Paging.GetIndexes | src/memory/paging.c:60-66 | fails exactly for unaligned addresses; both indexes are below 1024 |
| Paging.Chunk.Set | src/memory/paging.c:69-80 | an update of the flat map at one page, every other page unchanged; refuses unaligned addresses without effect |
| Paging.Chunk.Get | src/memory/paging.c:116-123 | a lookup in the flat map; of an unaligned address, the entry of page 0 |
| Paging.Chunk.Map | src/memory/paging.c:82-86 | an update of the flat map with address and flags, or nothing |
| Paging.Chunk.MapRange | src/memory/paging.c:88-98 | exactly the pages of the range get the frames in order; a misaligned start fails before anything is written |
| Paging.Chunk.MapTo | src/memory/paging.c:100-114 | all or nothing: fails only on a misaligned argument or a reversed range, and otherwise maps exactly the range |
| Paging.Chunk.GetPhysicalAddress | src/memory/paging.c:126-131 | is the translation if and only if the address is page aligned; otherwise it is the frame of page 0 |
| Paging.Chunk.NewChunk | src/memory/paging.c:13-27 | takes 1026 pages that were unused, all distinct and live runs of one block; masking recovers the tables, and every page is mapped to itself with the flags |
| Paging.Chunk.FreeChunk | src/memory/paging.c:30-38 | frees the tables, the directory and the chunk, all live runs of one block: the table of the heap is unchanged, and 1026 blocks have become residues |
| Paging.FreePage | src/memory/kheap.c:33-35 | kfree of one page of several leaves it taken and the others live |
| Paging.FillDirectory | src/memory/paging.c:17-23 | the loops that fill the directory: 1024 distinct identity tables, reached by masking, none at the address of the directory |
| Paging.AddTable | src/memory/paging.c:17-23 | one more identity table, entered in the directory under an address that masking recovers |
| ProcessMemory.FindSlot | src/task/process.c:84-121 | the first slot that holds the pointer, or none if no slot does |
| ProcessMemory.RangeOfAllocation | src/task/process.c:73-101 | the rounded end of an allocation is exactly the end of its blocks, and the range is accepted |
| ProcessMemory.MapAllocation | src/task/process.c:100-101 | mapping an allocation touches exactly its own pages |
| ProcessMemory.MallocFrame | src/memory/heap.c:61-84 | an allocation by anyone keeps every process in order, and its run is none that a process holds |
| ProcessMemory.FreeFrame | src/memory/heap.c:86-90 | freeing a run that a process does not hold keeps the process in order |
| ProcessMemory.ProcMallocOk | src/task/process.c:92-106 | process_malloc keeps heap, address space, slots, stack and image in agreement; what it returns is new to the process |
| ProcessMemory.FullSlotsLoseBlock | src/task/process.c:96-100 | with every slot in use process_malloc returns 0 and changes nothing for the process; of the table one entry is different, the last of the run it found, which stays taken |
| ProcessMemory.ProcMallocEffect | src/task/process.c:92-106 | otherwise exactly the entries of the first blocks that fit become a chain, the first empty slot is filled, and exactly the pages of the blocks are mapped to themselves with flags 7 |
| ProcessMemory.ProcMallocFails | src/task/process.c:92-95 | where no blocks fit it returns 0 and changes nothing |
| ProcessMemory.ProcFreeOk | src/task/process.c:123-139 | so does process_free of any non-null pointer; the pointer is no longer held |
| ProcessMemory.ProcFreeEffect | src/task/process.c:123-139 | of a pointer in a slot: exactly the entries of its run but the last are cleared, one residue is added, that slot alone is emptied, and exactly the pages of the run become absent |
| ProcessMemory.ForeignPointerIgnored | src/task/process.c:124-126 | a pointer in no slot changes nothing |
| ProcessMemory.ProcMallocThenFree | src/task/process.c:92-139 | both in a row: the slot is empty, the pages are absent, and of the whole table one entry is different, the last of the run, which stays taken |
| ProcessRuns.MallocByAnother | src/task/process.c:92-106 | process_malloc of one process keeps another in order and never returns a run of the other |
| ProcessRuns.FreeByAnother | src/task/process.c:123-139 | process_free of one process keeps another in order |
| ProcessRuns.SpawnOk | src/task/process.c:165-180 | a new process with its stack mapped is in order if the heap region was mapped to itself, read only, however far its segments reach in memory |
| ProcessRuns.NextOk | src/task/process.c:92-139 | every event of the system keeps every process in order and their runs disjoint |
| ProcessRuns.ExecOk | src/task/process.c:92-139 | so does every run of events |
| ProcessRuns.ProcessMallocEffect | src/task/process.c:92-106 | process_malloc by one process has the effect of ProcMallocEffect, and all other processes are as they were |
| ProcessRuns.ProcessFreeEffect | src/task/process.c:123-139 | process_free by one process has the effect of ProcFreeEffect, and all other processes are as they were |
| ProcessRuns.KernelMallocEffect | src/memory/heap.c:79-84 | an allocation of the kernel makes exactly the first blocks that fit a chain, and changes no process |
| ProcessRuns.KernelFreeEffect | src/memory/heap.c:86-90 | a free by the kernel clears exactly the entries of the run but the last, and changes no process |
| ProcessRuns.NextLoses | src/task/process.c:92-139 | an event takes one block out of the heap for good if it frees a run, or is a process_malloc that finds blocks and no slot; otherwise none |
| ProcessRuns.SystemConserves | src/task/process.c:92-139 | in every run of the whole system from boot, the blocks taken are those of the live runs and one for each event of that kind |
| ProcessRuns.BootExists | src/memory/kheap.c:11-19 | there is a state at boot |
| ProcessRuns.BootReachable | src/memory/kheap.c:11-19 | the state at boot, an empty heap and no process, is reachable |
| ProcessRuns.NextReachable | src/task/process.c:92-139 | reachable states are closed under every enabled event |
| ProcessRuns.EveryProcessInOrder | src/task/process.c:92-139 | in every reachable state, whatever segments the processes have, each slot in use is a live run of exactly ceil(size/4096) blocks, its pages are mapped to themselves present, writable and open to the user, and a page of the heap is writable only if it is in a slot |
| ProcessRuns.SlotsShareNoPage | src/task/process.c:92-139 | in every reachable state no two slots of a process share a page |
| ProcessRuns.GivenIsWritable | src/task/process.c:92-180 | the process may write every page it was given by process_malloc or as stack |
| ProcessRuns.FramesNeverShared | src/task/process.c:92-180 | in every reachable state, whatever segments the processes have, no frame given to one process by process_malloc or as stack is given to another |
| ProcessRuns.ExecContained | src/task/process.c:92-139 | a process that can write only what it was given, its image and its stack stays so over every run of events of all processes |
| ProcessRuns.WritablePageIsHeld | src/task/process.c:92-180 | every frame such a process may write lies in a live run that it holds |
| ProcessRuns.WritesStayInside | src/task/process.c:92-180 | in every reachable state a frame given to a process, or that such a process may write, is in no live run held by the kernel or by another process |
| ProcessRuns.PageTablesNeverWritten | src/memory/paging.c:13-27 | so it is none of the pages of a page directory, its tables or its chunk structure |
| ProcessRuns.WritableFramesNeverShared | src/task/process.c:92-180 | in every reachable state no frame that one such process may write, be it of its segments, its stack or from process_malloc, may be written by another |
| Process.UserProcess.FindAllocation | src/task/process.c:84-121 | the loops over the slots find the first slot that holds the pointer |
| Process.UserProcess.Malloc | src/task/process.c:92-106 | heap, slots, pages and result are those of ProcMalloc; for a process in order, which stays so: the effect of ProcMallocEffect, or nothing where no blocks fit, or one block lost where no slot is empty |
| Process.UserProcess.Free | src/task/process.c:123-139 | the entries of the run but the last are cleared in the table of the heap and no other, the slot is emptied and the pages are absent, as ProcFreeEffect says; nothing changes for a pointer in no slot |
| Process.UserProcess.MapElf | src/task/process.c:146-163 | maps headers in order up to the first that is refused, whose result it returns; if none is, and segments are apart, byte k of each is at elf_memory + p_offset + k |
| Process.UserProcess.MapMemory | src/task/process.c:165-180 | then maps the stack, unless a header was refused; the bytes of the segments are still there |
| ElfMapping.SegmentAcceptedIff | src/task/process.c:151-160 | a header is accepted if and only if its address and its place in memory are page aligned and its end fits, or its size is above 2^32 - 4096 |
| ElfMapping.PlaceOfSegment | src/loader/formats/elfloader.c:84-86 | the place of a segment in memory is elf_memory + p_offset, wrapped at 4 GB |
| ElfMapping.SegmentsTranslate | src/task/process.c:146-163 | after loading, byte k of segment i, for k below p_memsz, translates to elf_memory + p_offset + k, where elf_memory + p_offset wraps at 4 GB |
| ElfMapping.SegmentRights | src/task/process.c:154-156 | its entry has flags 7 if the header has the write flag, 2, and 5 if not: present, open to the user, and writable if and only if the header says so |
| ElfMapping.HugeSegmentMapsNothing | src/task/process.c:157-158 | an accepted segment of more than 2^32 - 4096 bytes leaves the whole address space as it was |
| ElfMapping.StackTranslates | src/task/process.c:176-179 | the 16 KB below 0x3FF000 translate to the stack of the process |
| ElfMapping.OtherPagesUnchanged | src/task/process.c:146-180 | every other page keeps the entry it had |
| ElfMapping.LoadedProcessCanSpawn | src/task/process.c:146-180 | a process with segments clear of the heap region can join the system of ProcessRuns, also where p_memsz passes the end of its file |
| ElfMapping.ContainedIff | src/task/process.c:146-180 | a loaded process can write only its image and its stack if and only if the memory of every writable segment lies in them |
| ElfMapping.WritesHeldIff | src/task/process.c:146-180 | every frame it may write lies in a live run it holds if and only if the same is so of its segments |
| SharedFrame.SegmentReachesStack | src/task/process.c:146-180 | a run from boot to two processes that may both write one frame: a segment of the first reaches the stack of the second |
| ElfBounds.ElfFile.ProcessLoad | src/loader/formats/elfloader.c:88-99 | both bounds take the segment in, and a bound that moves is that of the segment, with its place in memory |
| ElfBounds.ElfFile.ProcessHeaders | src/loader/formats/elfloader.c:101-119 | of the headers to be loaded, the end is the greatest end, and the base the least address in exactly the cases of BaseIsLeastIff |
| ElfBounds.BoundsOfSegments | src/loader/formats/elfloader.c:88-99 | the base is the address of a segment and goes with its place in memory; the end is the greatest end and goes with its place |
| ElfBounds.BaseIsLeastIff | src/loader/formats/elfloader.c:89-92 | the base is the least address if and only if no segment is at 0 or the last one is |
| TaskRing.CreationOrder | src/task/task.c:108-149 | after any creations and removals the list holds the latest tasks created, in order of creation |
| TaskRing.RemovalsCounted | src/task/task.c:108-149 | the tasks created are as many as those listed and the removals of a head together |
| TaskRing.LinkedAt | src/task/task.c:108-130 | the links of each listed task: the next one in order, no next for the last, and itself as predecessor |
| TaskRing.TaskList.New | src/task/task.c:108-130 | a task goes to the end of the list; it becomes the current one only in an empty list; a failed one changes nothing |
| TaskRing.TaskList.GetNext | src/task/task.c:132-136 | the successor of the current task, round the end of the list |
| TaskRing.TaskList.Remove | src/task/task.c:139-149 | the head leaves the list, whatever its length, and the rest stays in order; any other task stays in it; a current task is followed by its successor |
| TaskRing.TaskList.TurnsGoRound | src/task/task.c:132-136 | count turns from task i, along the links, lead to task i + count, round the list |
| TaskRing.TaskList.EveryTaskOneTurn | src/task/task.c:132-136 | in n turns from any of n tasks each task comes up exactly once, and then the first again |
| TaskMemory.WordInMemory | src/memory/paging.c:69-80 | a word written to memory lies there with its least significant byte first, is read back as it was, and touches no other byte |
| TaskMemory.StringCopy | src/utils.c:175-184 | strncpy through any address space: nothing for null or equal pointers; otherwise the copy is CopyFrom, a byte at a time, wherever the destination leads and also where it overlaps the source |
| TaskMemory.CopyFromApart | src/utils.c:179-182 | where the destination is mapped to itself, apart from the source, and both are clear of page tables, that copy ends with the text cut at n and terminated, every other byte unchanged, or in a page fault, exactly when a page it touches is not present |
| TaskMemory.CopyCharacters | src/utils.c:179-181 | the loop does all of that copy but the terminator, or ends as the copy does at the first missing page or byte of a page table |
| UserCopy.TaskDirectoryEntry | src/task/task.c:92 | the low bits of the entries of a task's directory: 7 as they are made, 0x27 once the processor has used them |
| UserCopy.MapScratch | src/task/task.c:60 | the mapping of the scratch page leaves its entry as it is and writes one word elsewhere: into the directory, into one of its tables, over one of the two pointers that lead to it, over what the kernel runs on, which is reported, or into other memory |
| UserCopy.UnhitIff | src/memory/paging.c:69-80 | a word written astray leaves a directory, its tables and its pointers as they are if and only if it misses them all or is what is there already |
| UserCopy.StrayTableOfIdentity | src/task/task.c:60 | with two low pages mapped to themselves that word goes to megabyte d + f/4 + 1, where d is the directory index of the scratch page and f the low bits of directory entry 0, at a place there given by flags |
| UserCopy.StrayWordHitsHeap | src/task/task.c:55-60 | with the accessed flag set, the words of the scratch pages from 24 MB on go, one after the other, to the first page of the heap |
| UserCopy.DirectoryKeptIff | src/task/task.c:51-72 | after the whole copy the directory is the same word for word, its tables entry for entry and the pointers to it too, if and only if the word misses all of them, or hits the entry put back, or a word of that value |
| UserCopy.TableHit | src/task/task.c:51-72 | it is not for a directory with table 5 at 20 MB and any scratch page from 40 MB to 44 MB: an entry of that table then leads to the scratch page |
| UserCopy.DirectoryHit | src/task/task.c:51-72 | nor for a directory at 21 MB and any scratch page from 44 MB to 48 MB: 4 MB of the task are then mapped through the scratch page |
| UserCopy.PointerHit | src/task/task.c:58-61 | nor for a chunk structure at 23 MB and a scratch page at 52 MB: the address of the directory, read again to be loaded, is then that of the scratch page |
| UserCopy.OtherTaskHit | src/task/task.c:60 | a word that spares the task can hit another: one with table 5 at 24 MB, for a scratch page at 56 MB |
| UserCopy.LowScratchIsSafe | src/task/task.c:51-72 | all is kept while d + f/4 is below 15, two low pages are mapped to themselves and the directory, its tables and the structures lie at or above the heap: the word then goes below it |
| UserCopy.CopyDelivers | src/task/task.c:61-71 | the two copies together bring the text, as the task sees it, to the destination; nothing else but the scratch page changes |
| UserCopy.CopyThroughScratch | src/task/task.c:58-71 | if the word hits a pointer to the directory, it stays destroyed and something else is loaded; a copy that ends with a status ends with 0, the kernel's directory loaded and the scratch page's entry put back; all is kept if and only if DirectoryKeptIff's condition holds; where everything is clear it delivers the text or faults as StringFetched says |
| UserCopy.ScratchPage | src/task/task.c:52-57 | there is a scratch page if and only if max is positive and below 4096 and a block is free |
| UserCopy.CopyStringFromTask | src/task/task.c:51-72 | -EINVARG or -ENOMEM without any effect if there is no scratch page; else the result of the copy through it, for a directory fresh or used, and the scratch page stays allocated |
| UserCopy.ScratchHasOwnFrame | src/task/task.c:55-60 | a process in order maps the scratch page to itself |
| UserCopy.CopyKeepsOrderIff | src/task/task.c:51-72 | a process in order that writes only to what it holds stays so over a copy, with the scratch page taken, if and only if the entries of its tables stay the same |
| UserCopy.CopyIsKernelMalloc | src/task/task.c:51-72 | a copy that leaves the tables of all processes as they are leads from a reachable state to a reachable one |
| UserCopy.AllKeptIff | src/task/task.c:51-72 | it leaves them so if and only if the word spares the process copied from, but for the entry put back, and every other one |
| UserCopy.CopyKeepsSystemIff | src/task/task.c:51-72 | where every process writes only to what it holds, a copy for any of them leads to a reachable state in which that is so if and only if the word spares them all |
| Streamer.DeliversAllIff | src/disk/streamer.c:22-44 | a read delivers all it was asked for if and only if it starts on a sector or stays inside one |
| Streamer.DeliversUpTo | src/disk/streamer.c:22-44 | a read of up to 512 bytes ends with its bytes or with the sector it starts in, whichever is first; a longer one where it would have ended from the start of that sector |
| Streamer.DeliveredBytes | src/disk/streamer.c:35-37 | the bytes delivered are those of the disk from the position on, one by one, and the others of the buffer stay |
| Streamer.LongRead | src/disk/streamer.c:40-42 | after the first part a long read goes on from a sector boundary and delivers the rest in full |
| Streamer.CopyOut | src/disk/streamer.c:35-37 | the copy loop writes a slice of the sector to its place in the buffer and nothing else |
| Streamer.DiskStream.Read | src/disk/streamer.c:22-44 | ends, writes exactly the delivered bytes from the position on, and advances by their number |
| ClusterChain.EntryBytes | src/fs/fat/fat16.c:286-303 | the entry of a cluster is two bytes, low byte first, at the product of the position of the table and twice the cluster, while that is below 2 GB |
| ClusterChain.EntryInPlaceIff | src/fs/fat/fat16.c:292-293 | that is where the entry lies, at their sum, if and only if there are no reserved sectors and the cluster is 0 |
| ClusterChain.StopMarkers | src/fs/fat/fat16.c:318-325 | a walk stops at 0, 0xFF0, 0xFF6, 0xFF7, 0xFF8 and 0xFFF, at no other 12-bit value, and at no marker of a 16-bit table |
| ClusterChain.ClusterPlace | src/fs/fat/fat16.c:277-279 | the data area begins with cluster 2 at the end of the root directory, and cluster c lies (c - 2) clusters further on |
| ClusterChain.WalkSnoc | src/fs/fat/fat16.c:306-331 | walking the chain one hop further is following the last entry, unless it is a stop marker |
| ClusterChain.ContentSplit | src/fs/fat/fat16.c:306-331 | the contents of a chain are those of its first clusters and then those of the chain from the next one |
| ClusterChain.AlignedRun | src/fs/fat/fat16.c:333-357 | a read on a cluster boundary, with no marker in its way, is a prefix of the contents from there, although each step walks the chain from the start |
| ClusterChain.StoppedRun | src/fs/fat/fat16.c:333-357 | for any offset, a read gives 0 if no marker comes before its last cluster, otherwise -EIO |
| ClusterChain.ReadIsSlice | src/fs/fat/fat16.c:333-357 | a read on a cluster boundary is the slice of the file's contents from its position, or -EIO exactly if there is no such slice |
| ClusterChain.SliceByte | src/fs/fat/fat16.c:333-357 | byte p of a file is the byte of the disk at place p mod cluster size of the cluster that p / cluster size hops along the chain lead to |
| ClusterChain.ChunkBytes | src/fs/fat/fat16.c:342-350 | a step of the reader from any offset fills the buffer with the bytes of the cluster from there on, as far as a read delivers |
| ClusterChain.SlicesJoin | src/fs/fat/fat16.c:333-357 | adjacent slices of a file join to one slice, and fail together |
| ClusterChain.ItemsAreOneSlice | src/fs/fat/fat16.c:493-510 | reading items one after the other is reading one slice of all their bytes |
| ClusterChain.InsideClusterExactIff | src/fs/fat/fat16.c:333-357 | a read inside one cluster is exact if and only if it starts on a sector or stays inside one |
| ClusterChain.SequentialReadIsSlice | src/fs/fat/fat16.c:333-357 | a read from any sector of a file, across clusters too, is the slice of its contents when each hop it needs goes to the cluster with the next number |
| Fat16.FileSystem.GetFatEntry | src/fs/fat/fat16.c:286-303 | the two bytes at the computed position, little-endian, as in EntryBytes |
| Fat16.FileSystem.GetClusterForOffset | src/fs/fat/fat16.c:306-331 | the cluster so many hops down the chain, or -EIO at a stop marker |
| Fat16.FileSystem.ReadInternal | src/fs/fat/fat16.c:333-357 | for any offset, the recursive reader fills the buffer as ReadRun says, chunk by chunk |
| Fat16.FileSystem.ReadFile | src/fs/fat/fat16.c:360-365 | from a cluster boundary: exactly the slice of the file's contents, each byte from its place in the data area as in SliceByte, or -EIO with the rest of the buffer untouched |
| Fat16.FileSystem.Read | src/fs/fat/fat16.c:493-510 | nmemb items in a row from cluster boundaries, each byte from its place in the data area, or -EIO as soon as one cannot be read |
| Fat16.FileSystem.GetTotalItems | src/fs/fat/fat16.c:151-172 | the number of slots before the first empty one, less those whose first byte is 0xE5 |
| PathText.PrintOfSplit | src/fs/parser.c:27-65 | printing each part with a slash behind it gives the text back, with one slash more if it had none at its end |
| PathText.SplitOfJoin | src/fs/parser.c:27-65 | parts without slashes, the last not empty, joined and split, come back as they were |
| PathText.JoinOfSplit | src/fs/parser.c:27-65 | and text that does not end in a slash, split and joined |
| PathParser.CopyPart | src/fs/parser.c:30-33 | the characters up to a slash or the end, which fit in the buffer |
| PathParser.GetPathPart | src/fs/parser.c:27-47 | takes the next part and moves behind its slash; nothing at the end |
| PathParser.ParseParts | src/fs/parser.c:95-106 | the linked list holds exactly the parts of the text, in order |
| PathParser.Parse | src/fs/parser.c:81-107 | accepts exactly the paths of 4 to 100 characters that start with one of the ten digits, a colon and a slash; the drive is the value of the digit; the parts |
| PathParser.ParseOfJoin | src/fs/parser.c:8-107 | a path printed from a drive and parts, short enough, is accepted and parses back to them |
| KeyRing.PushAppends | src/keyboard/keyboard.c:39-46 | a push on a queue of fewer than 1024 keys appends |
| KeyRing.PopRemovesOldest | src/keyboard/keyboard.c:48-60 | a pop returns and removes the oldest key |
| KeyRing.PopEmpty | src/keyboard/keyboard.c:48-60 | or returns 0 and changes nothing if there is none |
| KeyRing.BackspaceDropsNewest | src/keyboard/keyboard.c:33-37 | a backspace drops the newest key |
| KeyRing.PushKeepsQueueIff | src/keyboard/keyboard.c:39-46 | after a push the ring holds some queue if and only if there were fewer than 1024 keys |
| KeyRing.BackspaceKeepsQueueIff | src/keyboard/keyboard.c:33-37 | after a backspace it holds some queue if and only if it was not empty |
| KeyRing.RunRefinesQueue | src/keyboard/keyboard.c:29-60 | over every run within bounds the ring returns what a queue would, however often its 32-bit counters wrap |
| KeyRing.HoldsUnique | src/keyboard/keyboard.c:29-60 | a ring holds at most one queue |
| Keyboard.KeyboardBuffer.Push | src/keyboard/keyboard.c:39-46 | a queue of fewer than 1024 keys gets the key at its end; key 0 is ignored |
| Keyboard.KeyboardBuffer.Pop | src/keyboard/keyboard.c:48-60 | the oldest key of the queue is taken and returned, or 0 if there is none |
| Keyboard.KeyboardBuffer.Backspace | src/keyboard/keyboard.c:33-37 | the newest key of a queue that is not empty is dropped |
| LineEditor.KeyStream.GetKeyBlock | progs/stdlib/src/os.c:5-11 | waits for the next key pressed and takes it |
| LineEditor.PressedParts | progs/stdlib/src/os.c:5-11 | every key of every poll but 0 counts, in order |
| LineEditor.ReadLine | progs/stdlib/src/os.c:13-29 | the buffer holds the edited line and a terminator, at no index outside it, in spite of the index stepping back by two; the keys used and shown are those of the edit, and all keys are accounted for |
| LineEditor.EachKeyCounts | progs/stdlib/src/os.c:21-26 | every key used makes the line one longer or one shorter, also a backspace on an empty line |
| LineEditor.KeysAccounted | progs/stdlib/src/os.c:13-29 | the keys are those shown, in order, then a carriage return unless the line is full, and then those left |
| LineEditor.FirstBackspaceIsKept | progs/stdlib/src/os.c:21-26 | a backspace typed first becomes the first character of the line |
| LineEditor.BackspaceCancels | progs/stdlib/src/os.c:21-25 | a character and a backspace cancel out, unless the character fills the line, which then ends with it |
| LineEditor.PlainTextIsKept | progs/stdlib/src/os.c:13-29 | text without control keys, ended by a carriage return, is the line |
| Numerals.NumeralHasValue | src/print/print.c:36-61 | the numeral of n has base-b digits, no leading zero and the value n |
| Numerals.Digits | src/print/print.c:36-61 | the digits are 0 to 9 and then A to V |
| Numerals.NumeralUnique | src/print/print.c:36-61 | it is the only such string |
| Numerals.CountDigits | src/print/print.c:42-45 | the counting loop finds the length of the numeral |
| Numerals.Itoau | src/print/print.c:36-61 | the numeral of every 32-bit number in every base from 2 to 32, filled from right to left; none for greater bases |
| Numerals.MakeAddr | src/print/print.c:63-75 | "0x", zeros up to eight digits, and the digits |
| Numerals.AddressHasValue | src/print/print.c:92-97 | the text of an address is "0x" and exactly eight hexadecimal digits with its value |
| Numerals.AddressInjective | src/print/print.c:92-97 | different addresses have different texts |

## Left out

- Fat16.FileSystem.ReadFile: only from cluster boundaries. For other offsets ReadInternal says exactly what is read, InsideClusterExactIff when that is right inside one cluster, and SequentialReadIsSlice that it is right across clusters with successive numbers.
- Fat16.FileSystem.Read: every item must start on a cluster boundary, as above; how much of the buffer is filled before an -EIO is not stated.
- Fat16.FileSystem.GetTotalItems: assumes that the directory has an empty slot and lies below 2 GB; without an empty slot the loop runs on past the directory.
- ClusterChain.ReadRun: offsets and totals are unbounded; the signed overflow of offsets beyond 2 GB is not modelled.
- Streamer.DiskStream.Read: the disk is a constant byte for every position and never fails; negative positions are excluded unless they are sector aligned.
- Heap.BlockHeap.Free: addresses inside the heap region only; for others the code reads and writes outside its table.
- Process.UserProcess.Free: not for null, which matches an empty slot and then frees an address outside the heap region; the table of slots agrees with the heap, as every run keeps it.
- Process.UserProcess.MapElf: the headers are given as a list of their fields; reading and validating the file is not part of this model.
- Paging.Chunk.NewChunk: assumes 1026 free blocks; the code does not check its allocations.
- Paging.Chunk.MapRange: no physical addresses beyond 4 GB, which paging_map_to never asks for, and no negative counts.
- TaskRing.TaskList.New: the new task is not one of the listed tasks, and its own directory is the subject of Paging. A task freed while not the head stays in the list; its block is never given out again, because a run of one block is never freed.
- TaskRing.TaskList.Switch: sets the current task only; its registers and directory are not modelled here.
- UserCopy.CopyStringFromTask: the end is Lost, and nothing is said of what follows, when the stray word hits what the kernel runs on or a pointer to the task's directory, or a byte of the string is written over page tables or structures that lead to them: an address space of which nothing is known is then loaded. Words of the task structure other than its first are bytes like any other memory. What has been copied when a page fault comes is not stated, nor is what the fault handler does. Directory entry 0 is present and writable, as paging_new_chunk makes it, with low bits below 256.
- UserCopy.CopyKeepsSystemIff: the tables of the processes are given as values beside the system, one for each process; other structures of the system that the word can hit are not part of that state.
- TaskMemory.StringCopy: for a string whose characters lie in page tables nothing is said; such tables are not bytes of the memory that CopyFrom reads.
- TaskMemory.StoreByte: a write by the kernel needs a present page but not a writable one, since paging is enabled without write protection for the supervisor.
- PathParser.Parse: allocations succeed; paths contain no zero byte; strnlen's loop for longer strings is not reached because the length is looked at first.
- PathParser.ParsePathPart: the list is proved as the sequence of its nodes and texts; freeing it is not modelled.
- Keyboard.KeyboardBuffer.Push: there is a current process; without one the code does nothing.
- LineEditor.ReadLine: the keys reach a stop; otherwise the code waits for ever.
- LineEditor.Edit: keys are characters below 256; sign extension of keys is not modelled.
- Numerals.Itoau: bases 0 and 1 are excluded, for which the code divides by zero or does not end; allocations succeed.
- Numerals.MakeAddr: strings of more than eight characters are excluded, for which the code writes outside its buffer; itoau(16, n) never gives one.
- ElfBounds.ElfFile.ProcessHeaders: the two functions that lack a return statement are taken to return 0.
- Accessed and dirty flags: entries of page tables are as the kernel writes them. Those that the processor adds matter in directory entry 0 and in two entries for low memory, where UserCopy allows for them; what it adds during a copy is not counted as a change.
- Directory entries: all are present and open to the user, as paging_new_chunk makes them; only entries of tables are looked at for that.
- Memory contents: kzalloc zeroes what it allocates; only TaskMemory and UserCopy model the bytes.
- Port I/O, ATA commands, boot code, interrupt entry and all assembly: hardware.
- The terminal, printk's formats, hexdump and itoa: user interface; itoa loses the sign.
- GDT, IDT, syscall dispatch and the table of file descriptors: single branches.
- disk_stream_write: its body is that of a read.
- ext2: no operation is implemented.
- FAT16 seek, name matching and subdirectories: they do not carry out what they are for.
- Flat binaries and the cleanup of a failed process load: never reached, or without a consistent contract.
