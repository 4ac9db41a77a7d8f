/** A reachable state in which two processes can write to the same frame: a segment of one reaches
    past the memory that its file was read into, as far as the stack of the other. */
module SharedFrame {
  import opened Machine
  import opened Bits
  import opened BlockTable
  import opened HeapRuns
  import opened Heap
  import opened PageMap
  import opened ProcessMemory
  import opened ProcessRuns
  import opened ElfMapping

  const STACK_A := HEAP_ADDRESS
  const IMAGE_A := Allocation(HEAP_ADDRESS + 4 * PAGE_SIZE, PAGE_SIZE)
  const STACK_B := HEAP_ADDRESS + 5 * PAGE_SIZE
  /** One page in the file, two in memory. */
  const SEGMENT := Phdr(0, 0x40_0000, 2 * PAGE_SIZE, PF_W)
  const SHARED_PAGE := 0x401

  /** The first k blocks of the heap are taken, and no others. */
  ghost predicate FilledTo(h: HeapState, k: nat) {
    && KernelHeap(h) && k <= |h.table|
    && forall j :: 0 <= j < |h.table| ==> (Vacant(h.table[j]) <==> k <= j)
  }

  /** The next run follows the last one, and leaves all live runs as they are. */
  lemma {:induction false} NextRun(h: HeapState, k: nat, size: u32)
    requires FilledTo(h, k) && 0 < BlocksFor(size) && k + BlocksFor(size) <= |h.table|
    ensures FilledTo(AfterMalloc(h, size), k + BlocksFor(size))
    ensures RunAtAddress(AfterMalloc(h, size), HEAP_ADDRESS + BLOCK_SIZE * k, BlocksFor(size))
    ensures forall ptr, n :: RunAtAddress(h, ptr, n) ==> RunAtAddress(AfterMalloc(h, size), ptr, n)
  {
    var h' := AfterMalloc(h, size);
    EntryFacts();
    MallocSound(h, size);
    assert Fits(h.table, k, BlocksFor(size));
    var b := Place(h, size).value;
    assert Vacant(h.table[b]);
    assert b == k;
    forall ptr, n | RunAtAddress(h, ptr, n)
      ensures RunAtAddress(h', ptr, n)
    {
      assert h.cells[Block(h, ptr)] == Run(Block(h, ptr), n);
    }
  }

  /** Three allocations of the kernel: two stacks with an image between them. */
  lemma {:induction false} ThreeRuns(s0: System) returns (s: System)
    requires Boot(s0)
    ensures Reachable(s) && Ok(s) && s.procs == []
    ensures RunAtAddress(s.heap, STACK_A, STACK_PAGES) && ImageOk(s.heap, IMAGE_A)
    ensures RunAtAddress(s.heap, STACK_B, STACK_PAGES)
  {
    BootReachable(s0);
    assert FilledTo(s0.heap, 0) by { EntryFacts(); }
    s := Allocated(s0, 0, USER_PROGRAM_STACK_SIZE);
    s := Allocated(s, 4, PAGE_SIZE);
    s := Allocated(s, 5, USER_PROGRAM_STACK_SIZE);
  }

  lemma {:induction false} Allocated(s: System, k: nat, size: u32) returns (s': System)
    requires Reachable(s) && Ok(s) && s.procs == []
    requires FilledTo(s.heap, k) && 0 < BlocksFor(size) && k + BlocksFor(size) <= |s.heap.table|
    ensures Reachable(s') && Ok(s') && s'.procs == [] && FilledTo(s'.heap, k + BlocksFor(size))
    ensures RunAtAddress(s'.heap, HEAP_ADDRESS + BLOCK_SIZE * k, BlocksFor(size))
    ensures forall ptr, n :: RunAtAddress(s.heap, ptr, n) ==> RunAtAddress(s'.heap, ptr, n)
  {
    s' := Next(s, KernelMalloc(size));
    NextReachable(s, KernelMalloc(size));
    NextOk(s, KernelMalloc(size));
    NextRun(s.heap, k, size);
  }

  lemma {:induction false} SegmentIsMappable(h: HeapState)
    requires KernelHeap(h)
    ensures Mappable(IMAGE_A.ptr, [SEGMENT]) && Separate([SEGMENT])
    ensures And(SEGMENT.flags, PF_W) != 0 && Covers(SEGMENT, SHARED_PAGE)
    ensures forall page :: 0 <= page < PAGE_COUNT && InHeapRegion(h, page) ==> !Covers(SEGMENT, page)
  {
    assert BlocksFor(SEGMENT.memsz) == 2 && SEGMENT.vaddr / PAGE_SIZE == 0x400;
  }

  function ProcA(): Proc {
    Loaded(STACK_A, IMAGE_A, [SEGMENT])
  }

  function ProcB(): Proc {
    Loaded(STACK_B, Allocation(0, 0), [])
  }

  lemma {:induction false} SpawnA(s: System) returns (s': System)
    requires Reachable(s) && Ok(s) && s.procs == []
    requires RunAtAddress(s.heap, STACK_A, STACK_PAGES) && ImageOk(s.heap, IMAGE_A)
    ensures Reachable(s') && Ok(s') && s'.heap == s.heap && s'.procs == [ProcA()]
    ensures Pointers(ProcA()) == {STACK_A, IMAGE_A.ptr}
  {
    var pages := AfterElf(Identity(USER_RO), IMAGE_A.ptr, [SEGMENT]);
    SegmentIsMappable(s.heap);
    LoadedProcessCanSpawn(s, STACK_A, IMAGE_A, [SEGMENT]);
    SpawnOk(s.heap, STACK_A, IMAGE_A, pages);
    s' := Next(s, Spawn(STACK_A, IMAGE_A, pages));
    NextReachable(s, Spawn(STACK_A, IMAGE_A, pages));
    NextOk(s, Spawn(STACK_A, IMAGE_A, pages));
  }

  lemma {:induction false} SpawnB(s: System) returns (s': System)
    requires Reachable(s) && Ok(s) && s.procs == [ProcA()] && Pointers(ProcA()) == {STACK_A, IMAGE_A.ptr}
    requires RunAtAddress(s.heap, STACK_B, STACK_PAGES)
    ensures Reachable(s') && s'.heap == s.heap && s'.procs == [ProcA(), ProcB()]
  {
    var pages := AfterElf(Identity(USER_RO), 0, []);
    LoadedProcessCanSpawn(s, STACK_B, Allocation(0, 0), []);
    s' := Next(s, Spawn(STACK_B, Allocation(0, 0), pages));
    NextReachable(s, Spawn(STACK_B, Allocation(0, 0), pages));
  }

  lemma {:induction false} EntryA(h: HeapState)
    requires KernelHeap(h) && RunAtAddress(h, STACK_A, STACK_PAGES)
    ensures Writable(ProcA().pages[SHARED_PAGE]) && ProcA().pages[SHARED_PAGE] / PAGE_SIZE == STACK_B / PAGE_SIZE
  {
    SegmentIsMappable(h);
    LoadedEntry(h, STACK_A, IMAGE_A, [SEGMENT], 0, SHARED_PAGE);
    assert PagesAbove(SHARED_PAGE, SEGMENT.vaddr / PAGE_SIZE) == 1;
  }

  lemma {:induction false} EntryB(h: HeapState)
    requires KernelHeap(h) && RunAtAddress(h, STACK_B, STACK_PAGES)
    ensures Writable(ProcB().pages[STACK_PAGE]) && ProcB().pages[STACK_PAGE] / PAGE_SIZE == STACK_B / PAGE_SIZE
  {
    StackMapping(h, STACK_B, AfterElf(Identity(USER_RO), 0, []));
    EntryFlags(STACK_B / PAGE_SIZE, USER_RW);
    EntryPage(STACK_B / PAGE_SIZE, USER_RW);
  }

  /** Page SHARED_PAGE of one process and the first stack page of the other lead to one frame, and
      both processes may write to it. */
  lemma {:induction false} SegmentReachesStack(s0: System) returns (s: System)
    requires Boot(s0)
    ensures Reachable(s) && |s.procs| == 2
    ensures Writable(s.procs[0].pages[SHARED_PAGE]) && Writable(s.procs[1].pages[STACK_PAGE])
    ensures Frame(s.procs[0].pages[SHARED_PAGE]) == Frame(s.procs[1].pages[STACK_PAGE])
  {
    s := ThreeRuns(s0);
    EntryA(s.heap);
    EntryB(s.heap);
    s := SpawnA(s);
    s := SpawnB(s);
    AlignedWord(Frame(s.procs[0].pages[SHARED_PAGE]), s.procs[0].pages[SHARED_PAGE]);
    AlignedWord(Frame(s.procs[1].pages[STACK_PAGE]), s.procs[1].pages[STACK_PAGE]);
  }
}
